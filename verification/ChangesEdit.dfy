/** The changes paragraph as a view of the abstract: when an edit can be read back, when a second edit is refused, and
    when a later edit overwrites an earlier one. */
module ChangesEdit {
  import opened JsText
  import opened ChangesBlock

  predicate StartsC(r: string) { r != "" && r[0] == 'C' }

  function AtLineStart(x: string, start: bool): bool {
    if x == "" then start else IsLineEnd(x[|x| - 1])
  }

  // ---- Where headers can be -------------------------------------------------------------------

  /** No block starts in `x`. */
  predicate Clear(x: string, start: bool)
    decreases |x|
  {
    x == "" || (!(start && HEADER <= x) && Clear(x[1..], IsLineEnd(x[0])))
  }

  /** The header text is nowhere in `x`. */
  predicate Bare(x: string) { x == "" || (!(HEADER <= x) && Bare(x[1..])) }

  lemma HeaderInside(k: nat)
    requires 0 < k < |HEADER|
    ensures HEADER[k] != 'C'
  {
  }

  /** A header cannot run over into a text that starts with its own first letter. */
  lemma NoStraddle(u: string, r: string)
    requires u != "" && StartsC(r) && HEADER <= u + r
    ensures HEADER <= u
  {
    if |u| < |HEADER| {
      assert (u + r)[|u|] == HEADER[|u|];
      HeaderInside(|u|);
      assert false;
    }
  }

  lemma {:induction false} FindClear(x: string, r: string, start: bool)
    requires Clear(x, start) && StartsC(r)
    ensures BlockAt(x + r, start) == |x| + BlockAt(r, AtLineStart(x, start))
    decreases |x|
  {
    if x == "" {
      assert x + r == r;
    } else {
      if start && HEADER <= x + r {
        NoStraddle(x, r);
      }
      assert (x + r)[1..] == x[1..] + r;
      FindClear(x[1..], r, IsLineEnd(x[0]));
    }
  }

  lemma {:induction false} ClearBefore(a: string, start: bool)
    ensures var i := BlockAt(a, start); Clear(a[..i], start) && (i < |a| ==> AtLineStart(a[..i], start))
    decreases |a|
  {
    var i := BlockAt(a, start);
    if i > 0 {
      ClearBefore(a[1..], IsLineEnd(a[0]));
      assert a[..i][1..] == a[1..][..i - 1];
    }
  }

  lemma {:induction false} ClearTake(x: string, n: nat, start: bool)
    requires Clear(x, start) && n <= |x|
    ensures Clear(x[..n], start)
    decreases |x|
  {
    if n > 0 {
      ClearTake(x[1..], n - 1, IsLineEnd(x[0]));
      assert x[..n][1..] == x[1..][..n - 1];
    }
  }

  lemma {:induction false} FindBare(x: string, p: string, r: string)
    requires Bare(x) && HEADER <= p
    ensures IndexOf(x + (p + r), p) == |x|
  {
    assert (p + r)[0] == HEADER[0];
    if x == "" {
      assert x + (p + r) == p + r;
    } else {
      if p <= x + (p + r) {
        assert HEADER <= x + (p + r);
        NoStraddle(x, p + r);
      }
      assert (x + (p + r))[1..] == x[1..] + (p + r);
      FindBare(x[1..], p, r);
    }
  }

  lemma {:induction false} BareBefore(a: string)
    ensures Bare(a[..IndexOf(a, HEADER)])
  {
    var i := IndexOf(a, HEADER);
    if i > 0 {
      BareBefore(a[1..]);
      assert a[..i][1..] == a[1..][..i - 1];
    }
  }

  // ---- Reading back ---------------------------------------------------------------------------

  lemma BlockStays(p: string, r: string)
    requires IsBlock(p) && Stops(r)
    ensures HEADER <= p + r && BlockLen(p + r) == |p|
  {
    TailCat(p[|HEADER|..], r);
    assert (p + r)[|HEADER|..] == p[|HEADER|..] + r;
  }

  lemma BlockParts(s: string)
    requires HEADER <= s
    ensures IsBlock(s[..BlockLen(s)]) && Stops(s[BlockLen(s)..])
  {
    var n := BlockLen(s);
    var t := s[|HEADER|..];
    TailStops(t);
    assert s[..n][|HEADER|..] == t[..n - |HEADER|];
    assert t[n - |HEADER|..] == s[n..];
  }

  lemma BlockFound(s: string, x: string, y: string)
    requires s == x + y && HEADER <= y && BlockAt(s, true) == |x|
    ensures FirstBlock(s) == Some(y[..BlockLen(y)])
  {
    assert s[|x|..] == y;
  }

  /** A block put where a line starts, with no block before it and nothing after it that would go on with it, is the
      first block. */
  lemma Recognised(x: string, p: string, r: string)
    requires Clear(x, true) && AtLineStart(x, true) && IsBlock(p) && Stops(r)
    ensures BlockAt(x + (p + r), true) == |x| && FirstBlock(x + (p + r)) == Some(p)
  {
    BlockStays(p, r);
    StartsItself(p + r);
    FindClear(x, p + r, true);
    BlockFound(x + (p + r), x, p + r);
    assert (p + r)[..|p|] == p;
  }

  lemma StartsItself(s: string)
    requires HEADER <= s
    ensures StartsC(s) && BlockAt(s, true) == 0
  {
    assert s[0] == HEADER[0];
  }

  lemma Cut(s: string, n: nat) returns (u: string, v: string)
    requires n <= |s|
    ensures u == s[..n] && v == s[n..] && s == u + v
  {
    u, v := s[..n], s[n..];
  }

  /** The abstract around its first block. */
  lemma Parts(a: string) returns (x: string, b: string, r: string)
    requires FirstBlock(a).Some?
    ensures x == a[..BlockAt(a, true)] && FirstBlock(a) == Some(b)
    ensures a == x + (b + r) && Clear(x, true) && AtLineStart(x, true) && IsBlock(b) && Stops(r)
  {
    ClearBefore(a, true);
    var y;
    x, y := Cut(a, BlockAt(a, true));
    BlockFound(a, x, y);
    BlockParts(y);
    b, r := Cut(y, BlockLen(y));
  }

  lemma {:induction false} IndexOfLeast(s: string, b: string, i: nat)
    requires i < |s| && b <= s[i..]
    ensures IndexOf(s, b) <= i
  {
    if i > 0 {
      assert s[1..][i - 1..] == s[i..];
      IndexOfLeast(s[1..], b, i - 1);
    }
  }

  /** Where the first block is also the first occurrence of its text, it alone is replaced, and is read back. */
  lemma ReplaceReadsBack(a: string, p: string) returns (x: string, b: string, r: string)
    requires FirstBlock(a).Some? && IndexOf(a, FirstBlock(a).value) == BlockAt(a, true) && IsBlock(p)
    ensures FirstBlock(a) == Some(b) && a == x + (b + r) && WithChanges(a, p) == x + (p + r)
    ensures BlockAt(WithChanges(a, p), true) == |x| == BlockAt(a, true) && FirstBlock(WithChanges(a, p)) == Some(p)
    ensures Stops(r)
  {
    x, b, r := Parts(a);
    assert a[|x|..][|b|..] == r;
    assert x + p + r == x + (p + r);
    Recognised(x, p, r);
  }

  /** Where there is no block, the paragraph is appended, and is read back. */
  lemma AppendReadsBack(a: string, p: string)
    requires FirstBlock(a).None? && IsBlock(p)
    ensures FirstBlock(WithChanges(a, p)) == Some(p)
    ensures TrimEnd(a) <= WithChanges(a, p)
  {
    var t := TrimEnd(a);
    TrimEndIs(a);
    ClearBefore(a, true);
    assert a[..|a|] == a;
    assert p + "" == p;
    if t == "" {
      Recognised("", p, "");
      assert "" + (p + "") == p;
    } else {
      ClearTake(a, |t|, true);
      ClearGap(t, true);
      Recognised(t + "\n\n", p, "");
      assert t + "\n\n" + (p + "") == t + "\n\n" + p;
    }
  }

  lemma {:induction false} ClearGap(t: string, start: bool)
    requires Clear(t, start) && t != ""
    ensures Clear(t + "\n\n", start)
    decreases |t|
  {
    var s := t + "\n\n";
    if 10 <= |t| < |HEADER| {
      assert HEADER[10] == '-' && HEADER[11] == ' ';
      assert s[|t|] == '\n';
    }
    assert s[1..] == t[1..] + "\n\n";
    if |t| == 1 {
      assert t[1..] + "\n\n" == "\n\n";
      assert "\n\n"[1..] == "\n";
      assert "\n"[1..] == "";
    } else {
      ClearGap(t[1..], IsLineEnd(t[0]));
    }
  }
}
