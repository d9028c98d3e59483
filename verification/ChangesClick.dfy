/** What a click on "Add the changes to the abstract" makes of the abstract. */
module ChangesClick {
  import opened JsText
  import opened ChangesBlock
  import opened ChangesEdit
  import opened ChangesLaws
  import opened ChangesOverwrite

  /** `d` is `a` with the paragraph in it: the first occurrence of the recognised block's text replaced by it or, where
      no block is recognised, the paragraph after a blank line at the end of what is not white space. */
  ghost predicate IsEdited(a: string, p: string, d: string) {
    match FirstBlock(a)
    case Some(b) => exists y, z :: a == y + (b + z) && d == y + (p + z) && Absent(b, a, |y|)
    case None => exists t, blank :: a == t + blank && AllBlank(blank) && EndsVisibly(t) && d == t + Gap(t) + p
  }

  /** `b` starts nowhere in `a` before `n`. */
  predicate Absent(b: string, a: string, n: nat) {
    forall i :: 0 <= i < n && i <= |a| ==> !(b <= a[i..])
  }

  predicate AllBlank(s: string) { forall i :: 0 <= i < |s| ==> IsSpace(s[i]) }

  predicate EndsVisibly(t: string) { t != "" ==> !IsSpace(t[|t| - 1]) }

  function Gap(t: string): string { if t == "" then "" else "\n\n" }

  lemma {:induction false} IndexOfAbsent(s: string, b: string)
    ensures Absent(b, s, IndexOf(s, b))
  {
    if s != "" && !(b <= s) {
      IndexOfAbsent(s[1..], b);
      forall i | 0 <= i < IndexOf(s, b) ensures !(b <= s[i..]) {
        if i == 0 {
          assert s[0..] == s;
        } else {
          assert s[1..][i - 1..] == s[i..];
        }
      }
    }
  }

  lemma {:induction false} TrimmedBlank(s: string)
    ensures |TrimEnd(s)| <= |s| && AllBlank(s[|TrimEnd(s)|..])
  {
    if s != "" && IsSpace(s[|s| - 1]) {
      var n := |s| - 1;
      TrimmedBlank(s[..n]);
      var k := |TrimEnd(s)|;
      assert s[k..] == s[..n][k..] + [s[n]];
    }
  }

  lemma EditIs(a: string, p: string)
    ensures IsEdited(a, p, WithChanges(a, p))
  {
    hide IsSpace, IndexOf, FirstBlock;
    if FirstBlock(a).Some? {
      var y, b, z := Replaced(a, p);
      IndexOfAbsent(a, b);
    } else {
      hide TrimEnd;
      var t := TrimEnd(a);
      TrimEndIs(a);
      TrimmedBlank(a);
      assert a == t + a[|t|..];
      assert t + Gap(t) + p == WithChanges(a, p);
    }
  }

  /** A click puts the paragraph in, unless there is none, or it is there already, or the abstract would grow past 2500
      characters. */
  lemma ClickIs(a: string, p: string) returns (d: string)
    requires p == "" || IsBlock(p)
    ensures IsEdited(a, p, d)
    ensures AddChanges(a, p) == if p == "" || FirstBlock(a) == Some(p) || |d| > 2500 then a else d
    ensures AddChanges(a, p) == a <==> p == "" || FirstBlock(a) == Some(p) || |d| > 2500
  {
    hide IsEdited, FirstBlock, WithChanges;
    d := WithChanges(a, p);
    EditIs(a, p);
    if p != "" && FirstBlock(a) != Some(p) {
      ReplaceChanges(a, p);
    }
  }

  /** There is one such text only. */
  lemma EditedOnce(a: string, p: string, d: string, e: string)
    requires IsEdited(a, p, d) && IsEdited(a, p, e)
    ensures d == e
  {
    match FirstBlock(a)
    case Some(b) =>
      var y, z :| a == y + (b + z) && d == y + (p + z) && Absent(b, a, |y|);
      var y', z' :| a == y' + (b + z') && e == y' + (p + z') && Absent(b, a, |y'|);
      AtCut(a, y, b, z);
      AtCut(a, y', b, z');
      SamePrefix(a, y, b + z, y', b + z');
      assert z == (b + z)[|b|..] && z' == (b + z')[|b|..];
    case None =>
      var t, s :| a == t + s && AllBlank(s) && EndsVisibly(t) && d == t + Gap(t) + p;
      var t', s' :| a == t' + s' && AllBlank(s') && EndsVisibly(t') && e == t' + Gap(t') + p;
      NotLonger(a, t, s, t', s');
      NotLonger(a, t', s', t, s);
      SamePrefix(a, t, s, t', s');
  }

  lemma AtCut(a: string, y: string, b: string, z: string)
    requires a == y + (b + z)
    ensures b <= a[|y|..]
  {
    assert a[|y|..] == b + z;
  }

  lemma NotLonger(a: string, t: string, s: string, t': string, s': string)
    requires a == t + s == t' + s' && AllBlank(s) && EndsVisibly(t')
    ensures |t'| <= |t|
  {
    hide IsSpace;
    assert forall i :: |t| <= i < |a| ==> a[i] == s[i - |t|];
    assert t' != "" ==> a[|t'| - 1] == t'[|t'| - 1];
  }

  // ---- Where a block can start, and what the paragraph says -----------------------------------

  /** A block is recognised at the start of a line, and lines end with any of the four line ends of JavaScript. */
  lemma LineStarts(c: char, p: string)
    requires IsBlock(p) && Plain(p)
    ensures FirstBlock([c] + p) == Some(p) <==> c as int in {0x0A, 0x0D, 0x2028, 0x2029}
  {
    var s := [c] + p;
    assert s[1..] == p && p[0] == HEADER[0];
    StartsItself(p);
    if IsLineEnd(c) {
      assert s == [c] + (p + "");
      assert [c][1..] == "";
      Recognised([c], p, "");
    } else {
      QuietBlock(p);
      QuietFind(p, "", false);
      assert p + "" == p;
      if c == 'C' && HEADER <= s {
        assert s[1] == HEADER[1];
      }
    }
  }

  /** The lines of a paragraph, read back: its header, the first line, and each bullet line. */
  lemma ParagraphSays(lines: seq<string>, other: seq<string>)
    requires forall l :: l in lines || l in other ==> OneLine(l)
    ensures Paragraph(lines) == Paragraph(other) <==> lines == other
  {
    hide OneLine;
    if lines != [] && other != [] && Paragraph(lines) == Paragraph(other) {
      Behind(HEADER, lines[0] + Bullets(lines[1..]), other[0] + Bullets(other[1..]));
      assert HEADER + (lines[0] + Bullets(lines[1..])) == Paragraph(lines);
      assert HEADER + (other[0] + Bullets(other[1..])) == Paragraph(other);
      SameLines(lines[0], lines[1..], other[0], other[1..]);
    }
  }

  lemma Behind(h: string, u: string, v: string)
    ensures h + u == h + v <==> u == v
  {
    assert (h + u)[|h|..] == u && (h + v)[|h|..] == v;
  }

  lemma {:induction false} SameLines(first: string, rest: seq<string>, first': string, rest': seq<string>)
    requires OneLine(first) && OneLine(first') && forall l :: l in rest || l in rest' ==> OneLine(l)
    requires first + Bullets(rest) == first' + Bullets(rest')
    ensures first == first' && rest == rest'
    decreases |rest|
  {
    FirstEnds(first, rest, first', rest');
    FirstEnds(first', rest', first, rest);
    var s := first + Bullets(rest);
    assert first == s[..|first|] && first' == s[..|first|];
    assert Bullets(rest) == s[|first|..] && Bullets(rest') == s[|first|..];
    if rest != [] && rest' != [] {
      Behind("\n- ", rest[0] + Bullets(rest[1..]), rest'[0] + Bullets(rest'[1..]));
      assert "\n- " + (rest[0] + Bullets(rest[1..])) == Bullets(rest);
      assert "\n- " + (rest'[0] + Bullets(rest'[1..])) == Bullets(rest');
      SameLines(rest[0], rest[1..], rest'[0], rest'[1..]);
    }
  }

  lemma FirstEnds(first: string, rest: seq<string>, first': string, rest': seq<string>)
    requires OneLine(first') && first + Bullets(rest) == first' + Bullets(rest')
    ensures |first'| <= |first|
  {
    var s := first + Bullets(rest);
    assert rest != [] ==> s[|first|] == '\n';
    assert forall i :: 0 <= i < |first'| ==> s[i] == first'[i];
  }
}
