/** When a second click is refused, and exactly when a later edit overwrites an earlier one. */
module ChangesOverwrite {
  import opened JsText
  import opened ChangesBlock
  import opened ChangesEdit
  import opened ChangesLaws

  lemma ReplaceChanges(d: string, p: string)
    requires IsBlock(p) && FirstBlock(d) != Some(p)
    ensures WithChanges(d, p) != d
  {
    hide IsBlock, IndexOf;
    if FirstBlock(d).None? {
      AppendReadsBack(d, p);
    } else {
      var y, b, z := Replaced(d, p);
      if y + (p + z) == y + (b + z) {
        Cancel(y, p, b, z);
      }
    }
  }

  lemma Cancel(y: string, p: string, b: string, z: string)
    requires y + (p + z) == y + (b + z)
    ensures p == b
  {
    assert |p| == |b|;
    assert (y + (p + z))[|y|..|y| + |p|] == p;
    assert (y + (b + z))[|y|..|y| + |b|] == b;
  }

  /** A second click for the same paragraph does nothing exactly when the first did nothing, or its edit can be read
      back, or the abstract has no room for a second copy. */
  lemma SecondClickRefusedIff(a: string, p: string)
    requires IsBlock(p) && Plain(p)
    ensures var d := AddChanges(a, p);
      AddChanges(d, p) == d <==> d == a || ReadsBack(a, p) || !RoomLeft(d, p)
  {
    hide ReadsBack, WithChanges, FirstBlock, IsBlock, Plain;
    var d := AddChanges(a, p);
    if d != a {
      ReadsBackIff(a, p);
      if FirstBlock(d) != Some(p) {
        ReplaceChanges(d, p);
      }
    }
  }

  /** A click that changes the abstract leaves it within its limit. */
  lemma WithinLimit(a: string, p: string)
    ensures AddChanges(a, p) != a ==> |AddChanges(a, p)| <= INFO_ABSTRACT_MAX
  {
    hide WithChanges, FirstBlock;
  }

  // ---- Overwriting ----------------------------------------------------------------------------

  /** Editing with `p` and then with `q` is editing with `q`. */
  predicate Overwrites(a: string, p: string, q: string) {
    WithChanges(WithChanges(a, p), q) == WithChanges(a, q)
  }

  /** The first header text of the abstract is the one that starts its block; where there is no block, the text that a
      paragraph is appended to holds none. */
  predicate HeaderIsFirst(a: string) {
    if FirstBlock(a).Some? then IndexOf(a, HEADER) == BlockAt(a, true)
    else IndexOf(TrimEnd(a), HEADER) == |TrimEnd(a)|
  }

  lemma HeaderBefore(a: string)
    requires FirstBlock(a).Some?
    ensures IndexOf(a, HEADER) <= IndexOf(a, FirstBlock(a).value) <= BlockAt(a, true) < |a|
  {
    FirstBlockFirst(a);
    var b := FirstBlock(a).value;
    var j := IndexOf(a, b);
    assert HEADER <= b <= a[j..];
    IndexOfLeast(a, HEADER, j);
  }

  lemma OverwritesWhenFirst(a: string, p: string, q: string)
    requires FirstBlock(a).Some? && HeaderIsFirst(a) && IsBlock(p) && IsBlock(q)
    ensures Overwrites(a, p, q)
  {
    HeaderBefore(a);
    var x, b, r := ReplaceReadsBack(a, p);
    var x', b', r' := ReplaceReadsBack(a, q);
    SamePrefix(a, x, b + r, x', b' + r');
    assert r == r';
    BareBefore(a);
    assert a[..IndexOf(a, HEADER)] == x;
    FindBare(x, p, r);
    var d := WithChanges(a, p);
    ReplaceAt(d, x, p, r, q);
  }

  /** What an abstract with no block keeps in front of an appended paragraph. */
  function Kept(a: string): string {
    if TrimEnd(a) != "" then TrimEnd(a) + "\n\n" else ""
  }

  lemma Appended(a: string, p: string)
    requires FirstBlock(a).None? && IsBlock(p)
    ensures WithChanges(a, p) == Kept(a) + (p + "") && FirstBlock(WithChanges(a, p)) == Some(p)
  {
    hide FirstBlock, IsBlock;
    AppendReadsBack(a, p);
    assert p + "" == p;
    assert "" + p == p;
  }

  lemma {:induction false} BareGap(t: string)
    requires Bare(t) && t != ""
    ensures Bare(t + "\n\n")
  {
    var s := t + "\n\n";
    if 10 <= |t| < |HEADER| {
      assert HEADER[10] == '-' && HEADER[11] == ' ';
      assert s[|t|] == '\n';
    }
    assert s[1..] == t[1..] + "\n\n";
    if |t| == 1 {
      assert t[1..] + "\n\n" == "\n\n";
      assert "\n\n"[1..] == "\n";
      assert "\n"[1..] == "";
    } else {
      BareGap(t[1..]);
    }
  }

  lemma OverwritesWhenBare(a: string, p: string, q: string)
    requires FirstBlock(a).None? && HeaderIsFirst(a) && IsBlock(p) && IsBlock(q)
    ensures Overwrites(a, p, q)
  {
    hide WithChanges, FirstBlock, IndexOf;
    var t := TrimEnd(a);
    Appended(a, p);
    Appended(a, q);
    BareBefore(t);
    assert t[..|t|] == t;
    if t != "" {
      BareGap(t);
    }
    FindBare(Kept(a), p, "");
    ReplaceAt(WithChanges(a, p), Kept(a), p, "", q);
  }

  lemma SamePrefix(a: string, x: string, s: string, x': string, s': string)
    requires a == x + s == x' + s' && |x| == |x'|
    ensures x == x' && s == s'
  {
    assert x == a[..|x|] && x' == a[..|x|];
    assert s == a[|x|..] && s' == a[|x|..];
  }

  // ---- Where it fails -------------------------------------------------------------------------

  function Xs(n: nat): (x: string)
    ensures |x| == n && OneLine(x) && forall i :: 0 <= i < n ==> x[i] == 'x'
  {
    if n == 0 then "" else Xs(n - 1) + "x"
  }

  lemma {:induction false} PlainXs(n: nat)
    ensures Plain(Xs(n))
  {
    if n > 0 {
      PlainXs(n - 1);
      assert "x"[1..] == "";
      PlainCat(Xs(n - 1), "x");
    }
  }

  /** A block of one line of n letters. */
  lemma XBlock(n: nat) returns (p: string)
    ensures p == HEADER + Xs(n) && IsBlock(p) && Plain(p) && |p| == 12 + n && p[|p| - 1] == if n > 0 then 'x' else ' '
  {
    var line := Xs(n);
    p := HEADER + line;
    ParagraphIsBlock([line]);
    assert Paragraph([line]) == p by {
      assert HEADER + line + Bullets([]) == HEADER + line;
    }
    QuietHeader();
    PlainXs(n);
    PlainCat(HEADER, line);
    LastOf(line);
  }

  lemma LastOf(line: string)
    ensures |HEADER| == 12 && (HEADER + line)[11 + |line|] == if line == "" then ' ' else line[|line| - 1]
  {
    assert HEADER[11] == ' ';
  }

  lemma {:induction false} TrimKeeps(u: string, v: string)
    requires u != "" && !IsSpace(u[|u| - 1])
    ensures |TrimEnd(u + v)| >= |u|
    decreases |v|
  {
    hide IsSpace;
    if v == "" {
      assert u + v == u;
    } else {
      TrimKeeps(u, v[..|v| - 1]);
      assert (u + v)[..|u + v| - 1] == u + v[..|v| - 1];
    }
  }

  /** An edit of a text that ends `y + (p + z)`, whose first block, if any, is within `z`. */
  lemma EditGrows(y: string, p: string, z: string, q: string)
    requires p != "" && !IsSpace(p[|p| - 1])
    requires FirstBlock(y + (p + z)) == NextBlock(z) && |p| > |z|
    ensures |WithChanges(y + (p + z), q)| > |y| + |q| + |z|
  {
    hide FirstBlock, IndexOf, Replace, IsSpace;
    var d := y + (p + z);
    match NextBlock(z)
    case None =>
      assert (y + p)[|y + p| - 1] == p[|p| - 1];
      TrimKeeps(y + p, z);
      assert y + p + z == d;
    case Some(c) =>
      var y2, b2, z2 := Replaced(d, q);
      assert |b2| <= |z|;
  }

  /** An earlier copy of the block's text: a longer edit through it is not taken back by the next one. */
  lemma CopyPilesUp(a: string) returns (p: string, q: string)
    requires FirstBlock(a).Some? && IndexOf(a, FirstBlock(a).value) < BlockAt(a, true)
    ensures IsBlock(p) && IsBlock(q) && !Overwrites(a, p, q)
  {
    hide IsBlock, Plain, WithChanges, NextBlock, FirstBlock, IndexOf, BlockAt;
    p := XBlock(|a| + 1);
    q := XBlock(0);
    CopyTakesTheEdit(a, p);
    var y, b, z := Replaced(a, p);
    var y2, b2, z2 := Replaced(a, q);
    SamePrefix(a, y, b + z, y2, b2 + z2);
    EditGrows(y, p, z, q);
  }

  lemma FromHeader(a: string, x: string, s: string, k: nat) returns (y: string, v: string)
    requires a == x + s && StartsC(s) && k < |x| && HEADER <= a[k..]
    ensures x == y + (HEADER + v) && y == a[..k]
  {
    var u;
    y, u := Cut(x, k);
    assert y == a[..k];
    assert a[k..] == u + s;
    NoStraddle(u, s);
    v := u[|HEADER|..];
    assert u == HEADER + v;
  }

  /** The text before the first block, cut at its first header text. */
  lemma EarlierHeader(a: string) returns (y: string, v: string, b: string, r: string)
    requires FirstBlock(a).Some? && IndexOf(a, HEADER) < BlockAt(a, true)
    ensures a == (y + (HEADER + v)) + (b + r) && FirstBlock(a) == Some(b) && |y + (HEADER + v)| == BlockAt(a, true)
    ensures Bare(y)
  {
    hide IndexOf, BlockAt, Bare, Clear;
    var x;
    x, b, r := Parts(a);
    BareBefore(a);
    StartsItself(b);
    assert (b + r)[0] == b[0];
    y, v := FromHeader(a, x, b + r, IndexOf(a, HEADER));
  }

  /** An earlier header text: an edit with the bare header is undone there by the next edit, not overwritten. */
  lemma HeaderPilesUp(a: string) returns (p: string, q: string)
    requires FirstBlock(a).Some? && IndexOf(a, HEADER) < BlockAt(a, true)
    requires IndexOf(a, FirstBlock(a).value) == BlockAt(a, true)
    ensures IsBlock(p) && IsBlock(q) && !Overwrites(a, p, q)
  {
    hide IsBlock, Plain, WithChanges, FirstBlock, BlockAt, IndexOf, Bare;
    var y, v, b, r := EarlierHeader(a);
    p := XBlock(0);
    q := XBlock(1);
    BareHeader(p);
    var x, b1, r1 := ReplaceReadsBack(a, p);
    SamePrefix(a, y + (HEADER + v), b + r, x, b1 + r1);
    SecondEdit(WithChanges(a, p), y, v, r1, q);
    var x2, b2, r2 := ReplaceReadsBack(a, q);
    SamePrefix(a, x, b1 + r1, x2, b2 + r2);
    assert r1 == (b1 + r1)[|b1|..] == r2;
    Differ(y, v, r1, q);
  }

  lemma BareHeader(p: string)
    requires p == HEADER + Xs(0)
    ensures p == HEADER
  {
  }

  lemma SecondEdit(d: string, y: string, v: string, r: string, q: string)
    requires d == (y + (HEADER + v)) + (HEADER + r) && Bare(y) && FirstBlock(d) == Some(HEADER)
    ensures WithChanges(d, q) == y + (q + (v + (HEADER + r)))
  {
    hide FirstBlock, Bare;
    Regrouped(y, HEADER, v, HEADER + r);
    FindBare(y, HEADER, v + (HEADER + r));
    ReplaceAt(d, y, HEADER, v + (HEADER + r), q);
  }

  lemma Regrouped(y: string, c: string, v: string, w: string)
    ensures (y + (c + v)) + w == y + (c + (v + w))
  {
  }

  lemma Differ(y: string, v: string, r: string, q: string)
    requires |q| == 13 && q[12] == 'x'
    ensures y + (q + (v + (HEADER + r))) != (y + (HEADER + v)) + (q + r)
  {
    var n := |y| + |v| + 24;
    HeaderEnd(HEADER);
    assert (y + (q + (v + (HEADER + r))))[n] == HEADER[11];
    assert ((y + (HEADER + v)) + (q + r))[n] == q[12];
  }

  lemma HeaderEnd(u: string)
    requires HEADER <= u
    ensures |HEADER| == 12 && u[11] == ' '
  {
    assert u[11] == HEADER[11];
  }

  /** What is kept in front of an appended paragraph, cut at its first header text. */
  lemma KeptHeader(a: string) returns (y: string, v: string)
    requires IndexOf(TrimEnd(a), HEADER) < |TrimEnd(a)|
    ensures Kept(a) == y + (HEADER + v) && Bare(y)
  {
    hide IndexOf, Bare, TrimEnd;
    var t := TrimEnd(a);
    var z;
    BareBefore(t);
    y, z := FirstOccurrence(t, HEADER);
    v := z + "\n\n";
    Regrouped(y, HEADER, z, "\n\n");
  }

  /** The same in an abstract with no block: the second edit goes to the header text it kept. */
  lemma KeptHeaderPilesUp(a: string) returns (p: string, q: string)
    requires FirstBlock(a).None? && IndexOf(TrimEnd(a), HEADER) < |TrimEnd(a)|
    ensures IsBlock(p) && IsBlock(q) && !Overwrites(a, p, q)
  {
    hide IsBlock, Plain, WithChanges, FirstBlock, IndexOf, Bare, TrimEnd, Kept;
    p := XBlock(0);
    q := XBlock(1);
    BareHeader(p);
    Appended(a, p);
    Appended(a, q);
    var y, v := KeptHeader(a);
    SecondEdit(WithChanges(a, p), y, v, "", q);
    Differ(y, v, "", q);
  }

  /** Later edits overwrite earlier ones, for all paragraphs, exactly when the first header text of the abstract is the
      one that starts its block or, while it has no block, there is no header text to keep. */
  lemma OverwritesIff(a: string)
    ensures (forall p, q :: IsBlock(p) && IsBlock(q) ==> Overwrites(a, p, q)) <==> HeaderIsFirst(a)
  {
    hide Overwrites, IsBlock, FirstBlock;
    if FirstBlock(a).Some? {
      HeaderBefore(a);
    }
    if HeaderIsFirst(a) {
      forall p, q | IsBlock(p) && IsBlock(q) ensures Overwrites(a, p, q) {
        if FirstBlock(a).Some? {
          OverwritesWhenFirst(a, p, q);
        } else {
          OverwritesWhenBare(a, p, q);
        }
      }
    } else if FirstBlock(a).None? {
      var p, q := KeptHeaderPilesUp(a);
    } else if IndexOf(a, FirstBlock(a).value) < BlockAt(a, true) {
      var p, q := CopyPilesUp(a);
    } else {
      var p, q := HeaderPilesUp(a);
    }
  }
}
