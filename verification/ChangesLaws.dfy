/** Exactly when the changes paragraph behaves like a field of the abstract. */
module ChangesLaws {
  import opened JsText
  import opened ChangesBlock
  import opened ChangesEdit

  /** Every line ends in a plain newline. */
  predicate Plain(s: string) { s == "" || ((IsLineEnd(s[0]) ==> s[0] == '\n') && Plain(s[1..])) }

  /** No line of `t` starts with the first letter of the header. */
  predicate Quiet(t: string, start: bool)
    decreases |t|
  {
    t == "" || (!(start && t[0] == 'C') && Quiet(t[1..], IsLineEnd(t[0])))
  }

  lemma {:induction false} PlainCat(s: string, t: string)
    ensures Plain(s + t) <==> Plain(s) && Plain(t)
  {
    if s == "" {
      assert s + t == t;
    } else {
      PlainCat(s[1..], t);
      assert (s + t)[1..] == s[1..] + t;
    }
  }

  lemma {:induction false} QuietFind(t: string, z: string, start: bool)
    requires Quiet(t, start)
    ensures BlockAt(t + z, start) == |t| + BlockAt(z, AtLineStart(t, start))
    decreases |t|
  {
    if t == "" {
      assert t + z == z;
    } else {
      if start && HEADER <= t + z {
        assert (t + z)[0] == HEADER[0];
      }
      assert (t + z)[1..] == t[1..] + z;
      QuietFind(t[1..], z, IsLineEnd(t[0]));
    }
  }

  lemma {:induction false} QuietCat(s: string, t: string, start: bool)
    requires Quiet(s, start) && Quiet(t, AtLineStart(s, start))
    ensures Quiet(s + t, start)
    decreases |s|
  {
    if s == "" {
      assert s + t == t;
    } else {
      QuietCat(s[1..], t, IsLineEnd(s[0]));
      assert (s + t)[1..] == s[1..] + t;
    }
  }

  lemma {:induction false} QuietTail(s: string)
    requires Tail(s) == |s| && Plain(s)
    ensures Quiet(s, false) && !AtLineStart(s, false)
    decreases |s|
  {
    if s == "" {
    } else if s[0] != '\n' {
      QuietTail(s[1..]);
    } else {
      assert s[1..][1..] == s[2..] && s[2..][1..] == s[3..];
      assert Plain(s[1..]) && Plain(s[2..]) && Plain(s[3..]);
      assert !IsLineEnd('-') && !IsLineEnd(' ');
      QuietTail(s[3..]);
      assert Quiet(s[2..], false) && Quiet(s[1..], true);
    }
  }

  lemma {:induction false} QuietLine(s: string)
    requires OneLine(s) && Plain(s)
    ensures Quiet(s, false) && !AtLineStart(s, false)
  {
    if s != "" {
      assert s == [s[0]] + s[1..];
      QuietLine(s[1..]);
    }
  }

  lemma PlainWord()
    ensures Plain("Changes:") && OneLine("Changes:")
  {
    assert "Changes:"[4..] == "ges:" && "ges:"[2..] == "s:";
    assert Plain("s:") && Plain("ges:");
  }

  lemma QuietGap()
    ensures Plain("\n\n- ") && Quiet("\n\n- ", false)
  {
    assert "\n\n- "[1..] == "\n- " && "\n- "[1..] == "- " && "- "[1..] == " " && " "[1..] == "";
    assert Plain("- ") && Quiet("- ", true);
  }

  lemma QuietHeader()
    ensures Quiet(HEADER, false) && !AtLineStart(HEADER, false) && Plain(HEADER)
  {
    PlainWord();
    QuietLine("Changes:");
    QuietGap();
    QuietCat("Changes:", "\n\n- ", false);
    PlainCat("Changes:", "\n\n- ");
    assert HEADER == "Changes:" + "\n\n- ";
  }

  lemma {:induction false} BulletsPlain(lines: seq<string>)
    requires forall l :: l in lines ==> Plain(l)
    ensures Plain(Bullets(lines))
    decreases |lines|
  {
    if lines != [] {
      BulletsPlain(lines[1..]);
      BulletMark();
      PlainCat("\n- ", lines[0]);
      PlainCat("\n- " + lines[0], Bullets(lines[1..]));
    }
  }

  lemma BulletMark()
    ensures Plain("\n- ")
  {
    assert "\n- "[1..] == "- " && "- "[1..] == " " && " "[1..] == "";
    assert Plain(" ");
  }

  /** A paragraph of lines that hold no line end of any kind, as the generated ones do, has plain newlines only. */
  lemma ParagraphIsPlain(lines: seq<string>)
    requires lines != [] && forall l :: l in lines ==> OneLine(l) && Plain(l)
    ensures IsBlock(Paragraph(lines)) && Plain(Paragraph(lines))
  {
    hide IsBlock, OneLine, Plain, Bullets;
    ParagraphIsBlock(lines);
    QuietHeader();
    BulletsPlain(lines[1..]);
    PlainCat(HEADER, lines[0]);
    PlainCat(HEADER + lines[0], Bullets(lines[1..]));
  }

  /** Nothing inside a block is a block. */
  lemma QuietBlock(p: string)
    requires IsBlock(p) && Plain(p)
    ensures Quiet(p, false) && !AtLineStart(p, false)
  {
    var t := p[|HEADER|..];
    assert p == HEADER + t;
    PlainCat(HEADER, t);
    QuietHeader();
    QuietTail(t);
    QuietCat(HEADER, t, false);
  }

  // ---- Reading back, exactly ------------------------------------------------------------------

  lemma FirstOccurrence(a: string, b: string) returns (y: string, z: string)
    requires IndexOf(a, b) < |a|
    ensures y == a[..IndexOf(a, b)] && a == y + (b + z) && z == a[IndexOf(a, b)..][|b|..]
  {
    var w;
    y, w := Cut(a, IndexOf(a, b));
    var c;
    c, z := Cut(w, |b|);
  }

  lemma FirstBlockFirst(a: string)
    requires FirstBlock(a).Some?
    ensures IndexOf(a, FirstBlock(a).value) <= BlockAt(a, true) && BlockAt(a, true) < |a|
    ensures IsBlock(FirstBlock(a).value)
  {
    var x, b, r := Parts(a);
    var i := BlockAt(a, true);
    assert a[i..] == b + r;
    assert b <= a[i..];
    IndexOfLeast(a, b, i);
  }

  /** What follows the first occurrence of the block's text, the text that the edit replaces. */
  function AfterCopy(a: string): string
    requires FirstBlock(a).Some?
  {
    FirstBlockFirst(a);
    var b := FirstBlock(a).value;
    a[IndexOf(a, b)..][|b|..]
  }

  /** The edit around the first occurrence of the block's text. */
  lemma Replaced(a: string, p: string) returns (y: string, b: string, z: string)
    requires FirstBlock(a).Some?
    ensures FirstBlock(a) == Some(b) && IsBlock(b) && IndexOf(a, b) == |y| <= BlockAt(a, true)
    ensures a == y + (b + z) && y == a[..|y|] && WithChanges(a, p) == y + (p + z) && z == AfterCopy(a)
  {
    b := FirstBlock(a).value;
    FirstBlockFirst(a);
    y, z := FirstOccurrence(a, b);
    assert y + p + z == y + (p + z);
  }

  lemma PastAt(y: string, b: string, z: string)
    requires Clear(y, true) && !AtLineStart(y, true) && IsBlock(b) && Plain(b)
    ensures BlockAt(y + (b + z), true) == |y| + |b| + BlockAt(z, false)
  {
    QuietBlock(b);
    QuietFind(b, z, false);
    StartsItself(b);
    assert (b + z)[0] == b[0];
    FindClear(y, b + z, true);
  }

  lemma Regroup(y: string, b: string, u: string, v: string)
    ensures y + (b + (u + v)) == (y + b + u) + v
  {
  }

  /** The first block of `z`, read from the middle of a line. */
  function NextBlock(z: string): Option<string> {
    var k := BlockAt(z, false);
    if k < |z| then Some(z[k..][..BlockLen(z[k..])]) else None
  }

  /** The first block of `y + (b + z)` where `y` has none and does not lead up to a line start. */
  lemma BlockPast(y: string, b: string, z: string)
    requires Clear(y, true) && !AtLineStart(y, true) && IsBlock(b) && Plain(b)
    ensures FirstBlock(y + (b + z)) == NextBlock(z)
  {
    hide Clear, AtLineStart, IsBlock, Plain;
    PastAt(y, b, z);
    var s := y + (b + z);
    if BlockAt(z, false) < |z| {
      var u, v := Cut(z, BlockAt(z, false));
      Regroup(y, b, u, v);
      BlockFound(s, y + b + u, v);
    } else {
      assert BlockAt(s, true) == |s|;
    }
  }

  /** Before the first block, only what does not start a line can look like one. */
  lemma NotALineStart(a: string, y: string, b: string, z: string)
    requires a == y + (b + z) && IsBlock(b) && |y| < BlockAt(a, true)
    ensures Clear(y, true) && !AtLineStart(y, true)
  {
    ClearBefore(a, true);
    var x := a[..BlockAt(a, true)];
    assert y == x[..|y|];
    ClearTake(x, |y|, true);
    assert HEADER <= b + z;
    StartsItself(b + z);
    FindClear(y, b + z, true);
  }

  /** Where an earlier copy of the block's text comes first, that copy is replaced instead, and what is recognised then
      is the first block after it. */
  lemma CopyTakesTheEdit(a: string, p: string)
    requires FirstBlock(a).Some? && IndexOf(a, FirstBlock(a).value) < BlockAt(a, true)
    requires IsBlock(p) && Plain(p)
    ensures FirstBlock(WithChanges(a, p)) == NextBlock(AfterCopy(a))
  {
    hide Clear, NextBlock, WithChanges;
    var y, b, z := Replaced(a, p);
    NotALineStart(a, y, b, z);
    BlockPast(y, p, z);
  }

  /** In an abstract whose lines end in plain newlines, that is the old block, so the edit has no effect on it. */
  lemma OldBlockStays(a: string)
    requires FirstBlock(a).Some? && IndexOf(a, FirstBlock(a).value) < BlockAt(a, true) && Plain(a)
    ensures NextBlock(AfterCopy(a)) == FirstBlock(a)
  {
    hide Clear, NextBlock, WithChanges;
    var y, b, z := Replaced(a, "");
    NotALineStart(a, y, b, z);
    PlainCat(y, b + z);
    PlainCat(b, z);
    BlockPast(y, b, z);
  }

  /** There is no block yet, or the first occurrence of the old block's text is the block itself, or the next block
      after that occurrence already is the paragraph. */
  predicate ReadsBack(a: string, p: string) {
    FirstBlock(a).None? || IndexOf(a, FirstBlock(a).value) == BlockAt(a, true) || NextBlock(AfterCopy(a)) == Some(p)
  }

  /** That is exactly when an edit can be read back, whatever the line ends of the abstract. */
  lemma ReadsBackIff(a: string, p: string)
    requires IsBlock(p) && Plain(p)
    ensures FirstBlock(WithChanges(a, p)) == Some(p) <==> ReadsBack(a, p)
  {
    hide NextBlock, AfterCopy, WithChanges;
    if FirstBlock(a).None? {
      AppendReadsBack(a, p);
    } else {
      FirstBlockFirst(a);
      if IndexOf(a, FirstBlock(a).value) == BlockAt(a, true) {
        var x, c, r := ReplaceReadsBack(a, p);
      } else {
        CopyTakesTheEdit(a, p);
      }
    }
  }

  lemma NextLineBlock(b: string)
    requires IsBlock(b)
    ensures var z := "\n" + b;
      BlockAt(z, false) == 1 && z[1..] == b && b[..BlockLen(b)] == b
  {
    StartsItself(b);
    assert ("\n" + b)[1..] == b;
  }

  lemma FirstAfterX(b: string, z: string)
    requires HEADER <= b
    ensures IndexOf("x" + (b + z), b) == 1 && ("x" + (b + z))[..1] == "x" && ("x" + (b + z))[1..][|b|..] == z
  {
    var a := "x" + (b + z);
    StartsItself(b);
    assert a[0] == 'x';
    assert a[1..] == b + z;
  }

  lemma ClearX()
    ensures Clear("x", true) && !AtLineStart("x", true)
  {
    assert "x"[1..] == "";
  }

  lemma ReplaceAt(d: string, x: string, p: string, r: string, q: string)
    requires d == x + (p + r) && p != "" && IndexOf(d, p) == |x| && FirstBlock(d) == Some(p)
    ensures WithChanges(d, q) == x + (q + r)
  {
    assert d[..|x|] == x && d[|x|..] == p + r;
    assert (p + r)[|p|..] == r;
    assert x + q + r == x + (q + r);
  }

  lemma NextLineIs(b: string)
    requires IsBlock(b)
    ensures NextBlock("\n" + b) == Some(b)
  {
    NextLineBlock(b);
  }

  /** For any two blocks there is an abstract in which the law fails: a copy of the old block's text in the middle of a
      line takes the edit, and the block keeps the old value. */
  lemma StaleBlockStays(b: string, p: string)
    requires IsBlock(b) && Plain(b) && IsBlock(p) && Plain(p)
    ensures var a := "x" + (b + ("\n" + b));
      FirstBlock(a) == Some(b) && WithChanges(a, p) == "x" + (p + ("\n" + b)) &&
      FirstBlock(WithChanges(a, p)) == Some(b)
  {
    hide Clear, AtLineStart, Plain, IsBlock, NextBlock, FirstBlock, WithChanges, IndexOf;
    var z := "\n" + b;
    ClearX();
    NextLineIs(b);
    BlockPast("x", b, z);
    BlockPast("x", p, z);
    IsHeaded(b);
    FirstAfterX(b, z);
    ReplaceAt("x" + (b + z), "x", b, z, p);
  }

  lemma IsHeaded(b: string)
    requires IsBlock(b)
    ensures HEADER <= b && b != ""
  {
  }
}
