/** A condition on each id alone under which a second pass changes nothing, and two inputs that show why
    both of its halves are needed. */
module ChainIdNeighbours {
  import opened JsText
  import opened ChainIds
  import opened ChainIdTokens
  import opened ChainIdsTwice

  // ---- No chipped id touches an alphanumeric --------------------------------------------------

  /** In text outside skipped elements, every id is both preceded and followed by a non-alphanumeric. */
  predicate ClearText(left: Edge, x: string)
    decreases |x|
  {
    x == "" ||
    var e := EmitText(left, x, 0);
    && (MatchId(left, x) > 0 ==> left.Boundary? && Apart(x[e.used..]))
    && ClearText(e.left, x[e.used..])
  }

  predicate Apart(rest: string) {
    rest == "" || !IsAlnum(rest[0])
  }

  /** Every id that becomes a chip stands clear of alphanumerics. */
  predicate Clear(html: string, depth: nat)
    decreases |html|
  {
    if TextLen(html) == |html| then ClearHere(html, depth)
    else
      var p := FirstTag(html);
      ClearHere(p.text, depth) && Clear(p.rest, DepthAfter(p.tag, depth))
  }

  predicate ClearHere(x: string, depth: nat) {
    depth > 0 || ClearText(Boundary, x)
  }

  // ---- A match inside a gap would have been a match in context --------------------------------

  /** `y` ends in a character no id can continue through. */
  predicate Stops(y: string) {
    y != "" && !IsAlnum(y[|y| - 1])
  }

  lemma {:induction false} StartsMore(prefix: string, y: string, r: string)
    requires StartsCi(prefix, y)
    ensures StartsCi(prefix, y + r)
  {
    if prefix != "" {
      StartsMore(prefix[1..], y[1..], r);
      assert (y + r)[1..] == y[1..] + r;
    }
  }

  lemma {:induction false} RunMore(p: char -> bool, y: string, r: string)
    requires Run(p, y) < |y|
    ensures Run(p, y + r) == Run(p, y)
  {
    if p(y[0]) {
      RunMore(p, y[1..], r);
      assert (y + r)[1..] == y[1..] + r;
    }
  }

  lemma FormMore(f: Form, y: string, r: string)
    requires Stops(y) && MatchForm(f, y) > 0
    ensures MatchForm(f, y + r) > 0
  {
    StartsMore(f.prefix, y, r);
    var t := y[|f.prefix|..];
    RunEnds(IsAlnum, t);
    RunMore(IsAlnum, t, r);
    assert (y + r)[|f.prefix|..] == t + r;
  }

  /** A run that reaches the end of `t` makes the last character of `t` part of it. */
  lemma RunEnds(p: char -> bool, t: string)
    requires t != "" && !p(t[|t| - 1])
    ensures Run(p, t) < |t|
  {
    if Run(p, t) == |t| {
      RunAt(p, t, |t| - 1);
    }
  }

  lemma {:induction false} FormsMore(fs: seq<Form>, y: string, r: string)
    requires Stops(y) && MatchForms(fs, y) > 0
    ensures MatchForms(fs, y + r) > 0
  {
    if MatchForm(fs[0], y) > 0 {
      FormMore(fs[0], y, r);
    } else {
      FormsMore(fs[1..], y, r);
    }
  }

  lemma HexMore(y: string, r: string)
    requires Stops(y) && MatchHex(y) > 0
    ensures MatchHex(y + r) > 0
  {
    RunEnds(IsHex, y);
    RunMore(IsHex, y, r);
    if Run(IsHex, y) == 64 {
      var t := y[65..];
      RunEnds(IsDigit, t);
      RunMore(IsDigit, t, r);
      assert (y + r)[65..] == t + r;
    }
  }

  lemma MatchMore(left: Edge, y: string, r: string)
    requires Stops(y) && MatchId(left, y) > 0
    ensures MatchId(left, y + r) > 0
  {
    if left.Boundary? && MatchForms(BECH32_FORMS, y) > 0 {
      FormsMore(BECH32_FORMS, y, r);
    } else {
      HexMore(y, r);
    }
  }

  /** Text in which the pass finds no id holds none when read alone either, if what follows it in context
      is nothing, a '<', or anything at all after a stopping character. */
  lemma {:induction false} GapIsFree(left: Edge, q: Edge, y: string, r: string)
    requires |y| <= GapLen(left, y + r)
    requires q == left || Apart(y)
    requires r == "" || r[0] == '<' || y == "" || Stops(y)
    ensures IdFree(q, y)
    decreases |y|
  {
    if y != "" {
      var c, u := y[0], y[1..];
      assert (y + r)[1..] == u + r;
      GapIsFree(EdgeOf(c), EdgeOf(c), u, r);
      if MatchId(q, y) > 0 {
        if r == "" || r[0] == '<' {
          MatchCut(q, y, r);
        } else {
          MatchMore(q, y, r);
        }
        assert false;
      }
    }
  }

  lemma {:induction false} ClearGaps(left: Edge, x: string)
    requires ClearText(left, x) && (left.Boundary? || Apart(x))
    ensures AllIdFree(TextGaps(left, x))
    decreases |x|
  {
    if GapLen(left, x) == |x| {
      LastGap(left, x);
      assert x + "" == x;
      GapIsFree(left, Boundary, x, "");
      AllIdFreeCons(x, []);
    } else {
      var l, u, cut := ClearNext(left, x);
      ClearGaps(l, u);
      AllIdFreeCons(cut, TextGaps(l, u));
    }
  }

  lemma ClearNext(left: Edge, x: string) returns (l: Edge, u: string, cut: string)
    requires ClearText(left, x) && (left.Boundary? || Apart(x)) && GapLen(left, x) < |x|
    ensures TextGaps(left, x) == [cut] + TextGaps(l, u)
    ensures |u| < |x| && ClearText(l, u) && Apart(u) && IdFree(Boundary, cut)
  {
    hide MatchId, EmitText, ClearText, GapLen, TextGaps;
    var g, v := SplitGap(left, x);
    GapsStep(left, x, g, v);
    ClearDrop(left, x, g, v);
    ClearChip(EdgeAfter(left, g), v);
    var e := EmitText(EdgeAfter(left, g), v, 0);
    l, u, cut := e.left, v[e.used..], g[..Find('<', g)];
    CutIsFree(left, g, v);
  }

  /** Clear text that starts with an id. */
  lemma ClearChip(left: Edge, v: string)
    requires v != "" && ClearText(left, v) && MatchId(left, v) > 0
    ensures var e := EmitText(left, v, 0); left.Boundary? && Apart(v[e.used..]) && ClearText(e.left, v[e.used..])
  {
    hide MatchId, EmitText;
  }

  /** What is left of the text after its first gap is clear too. */
  lemma {:induction false} ClearDrop(left: Edge, x: string, g: string, v: string)
    requires ClearText(left, x) && x == g + v && |g| == GapLen(left, x)
    ensures ClearText(EdgeAfter(left, g), v)
    decreases |x|
  {
    hide MatchId, EmitText;
    if g == "" {
      assert x == v;
    } else {
      assert x[0] == g[0] && x[1..] == g[1..] + v;
      ClearPlain(left, x);
      ClearDrop(EdgeOf(x[0]), x[1..], g[1..], v);
    }
  }

  lemma ClearPlain(left: Edge, x: string)
    requires x != "" && ClearText(left, x) && MatchId(left, x) == 0
    ensures ClearText(EdgeOf(x[0]), x[1..])
  {
    hide MatchId, Chip;
    assert EmitText(left, x, 0) == Emission([x[0]], 1, EdgeOf(x[0]), 0);
  }

  lemma CutIsFree(left: Edge, g: string, v: string)
    requires |g| == GapLen(left, g + v) && v != ""
    requires (left.Boundary? || Apart(g + v)) && EdgeAfter(left, g).Boundary?
    ensures IdFree(Boundary, g[..Find('<', g)])
  {
    hide MatchId, GapLen, IdFree;
    var f := Find('<', g);
    var y, r := g[..f], g[f..] + v;
    assert y + r == g + v;
    assert f < |g| ==> r[0] == g[f];
    assert f == |g| ==> y == g;
    GapIsFree(left, Boundary, y, r);
  }

  lemma {:induction false} ClearIsFree(html: string, depth: nat)
    requires Clear(html, depth)
    ensures AllIdFree(Gaps(html, depth))
    decreases |html|
  {
    if TextLen(html) == |html| {
      if depth == 0 {
        ClearGaps(Boundary, html);
      }
    } else {
      var p := FirstTag(html);
      ClearIsFree(p.rest, DepthAfter(p.tag, depth));
      if depth == 0 {
        ClearGaps(Boundary, p.text);
      }
      AllIdFreeCat(GapsHere(p.text, depth), Gaps(p.rest, DepthAfter(p.tag, depth)));
    }
  }

  /** If no chipped id touches an alphanumeric on either side, the pass is idempotent. */
  lemma IdempotentWhenClear(html: string)
    requires Clear(html, 0)
    ensures Linkify(Linkify(html)) == Linkify(html)
  {
    ClearIsFree(html, 0);
    LinkifyTwiceIff(html);
  }

  // ---- Both halves of the condition are needed ------------------------------------------------

  function Repeat(c: char, n: nat): (s: string)
    ensures |s| == n
  {
    seq(n, i => c)
  }

  lemma {:induction false} NoLtNoTag(s: string)
    requires '<' !in s
    ensures TextLen(s) == |s|
  {
    if s != "" {
      NoLtNoTag(s[1..]);
    }
  }

  lemma BadGap(html: string, g: string)
    requires '<' !in html && g in TextGaps(Boundary, html) && MatchId(Boundary, g) > 0
    ensures Linkify(Linkify(html)) != Linkify(html)
  {
    NoLtNoTag(html);
    assert !IdFree(Boundary, g);
    LinkifyTwiceIff(html);
  }

  /** After a hex digit, further hex digits start no id. */
  lemma {:induction false} HexAfterHex(s: string)
    requires forall i :: 0 <= i < |s| ==> IsHex(s[i])
    ensures GapLen(HexDigit, s) == |s|
  {
    if s != "" {
      HexAfterHex(s[1..]);
    }
  }

  lemma RightMatch(html: string)
    requires html == "gov_action1" + Repeat('a', 125)
    ensures MatchId(Boundary, html) == 70
  {
    hide Run, StartsCi, MatchHex;
    var all := Repeat('a', 125);
    assert html[11..] == all;
    RunIs(IsAlnum, all, 125);
    StartsHead("gov_action1", all);
    assert BECH32_FORMS[0].prefix == "gov_action1";
    assert MatchForm(BECH32_FORMS[0], html) == 70;
  }

  lemma RightGaps(html: string, tail: string)
    requires |html| == 136 && MatchId(Boundary, html) == 70 && html[69] == 'a' && tail == html[70..]
    requires tail == Repeat('a', 66)
    ensures tail in TextGaps(Boundary, html)
  {
    HexAfterHex(tail);
    LastGap(HexDigit, tail);
    var e := EmitText(EdgeAfter(Boundary, ""), html[0..], 0);
    assert html[0..] == html && e.used == 70 && e.left == HexDigit;
    assert TextGaps(HexDigit, tail) == [tail];
  }

  /** A governance action id with no boundary after it: the chip's end tag is a new left boundary for the
      66 hex digits that follow, so the second pass links them too. */
  lemma RightNeighbourMatters(html: string)
    requires html == "gov_action1" + Repeat('a', 125)
    ensures Linkify(Linkify(html)) != Linkify(html)
  {
    var tail := html[70..];
    RightText(html);
    RightMatch(html);
    RightGaps(html, tail);
    HexReadsAlone(tail);
    BadGap(html, tail);
  }

  lemma RightText(html: string)
    requires html == "gov_action1" + Repeat('a', 125)
    ensures '<' !in html && |html| == 136 && html[69] == 'a' && html[70..] == Repeat('a', 66)
  {}

  lemma HexReadsAlone(s: string)
    requires s == Repeat('a', 66)
    ensures MatchId(Boundary, s) > 0
  {
    RunIs(IsHex, s, 66);
  }

  lemma {:induction false} LettersThenHex(left: Edge, n: nat, s: string)
    requires !left.Boundary? && (n == 0 ==> left.OtherAlnum?)
    requires s == Repeat('z', n) + Repeat('a', 66)
    ensures GapLen(left, s) == n
    decreases n
  {
    if n == 0 {
      RunIs(IsHex, s, 66);
    } else {
      assert s[1..] == Repeat('z', n - 1) + Repeat('a', 66);
      LettersThenHex(OtherAlnum, n - 1, s[1..]);
    }
  }

  lemma StartsUnlike(prefix: string, s: string, i: nat)
    requires i < |prefix| && (i < |s| ==> LowerChar(s[i]) != prefix[i])
    ensures !StartsCi(prefix, s)
    decreases i
  {
    if i > 0 && s != "" {
      StartsUnlike(prefix[1..], s[1..], i - 1);
    }
  }

  lemma {:induction false} NoForm(fs: seq<Form>, s: string)
    requires forall f :: f in fs ==> MatchForm(f, s) == 0
    ensures MatchForms(fs, s) == 0
  {
    if fs != [] {
      NoForm(fs[1..], s);
    }
  }

  /** A DRep-like prefix whose tail runs into a hex id: alone the tail is short enough to be a DRep id, so the
      chip that replaces the hex id makes the second pass link what stands in front of it. Nothing follows the
      hex id, so asking only for a right boundary would not be enough. */
  lemma LeftNeighbourMatters(html: string)
    requires html == "drep1" + Repeat('z', 45) + Repeat('a', 66)
    ensures Linkify(Linkify(html)) != Linkify(html)
  {
    LeftGap(html);
    var g := html[..50];
    LeftReadsAlone(g);
    FindNone('<', g);
    assert g[..|g|] == g;
    BadGap(html, g);
  }

  lemma LeftReadsAlone(g: string)
    requires g == "drep1" + Repeat('z', 45)
    ensures MatchId(Boundary, g) > 0
  {
    assert g[5..] == Repeat('z', 45);
    StartsHead("drep1", Repeat('z', 45));
    RunIs(IsAlnum, g[5..], 45);
    var f := BECH32_FORMS[2];
    assert f.prefix == "drep1" && MatchForm(f, g) == 50;
    FormGivesMatch(BECH32_FORMS, f, g);
  }

  lemma {:induction false} FormGivesMatch(fs: seq<Form>, f: Form, s: string)
    requires f in fs && MatchForm(f, s) > 0
    ensures MatchForms(fs, s) > 0
  {
    if MatchForm(fs[0], s) == 0 {
      FormGivesMatch(fs[1..], f, s);
    }
  }

  lemma LeftGap(html: string)
    requires html == "drep1" + Repeat('z', 45) + Repeat('a', 66)
    ensures GapLen(Boundary, html) == 50
  {
    var s1, s2, s3, s4, s5 := html[1..], html[2..], html[3..], html[4..], html[5..];
    assert s1[1..] == s2 && s2[1..] == s3 && s3[1..] == s4 && s4[1..] == s5;
    assert s5 == Repeat('z', 45) + Repeat('a', 66);
    LettersThenHex(HexDigit, 45, s5);
    RunIs(IsHex, html, 1);
    RunIs(IsHex, s2, 1);
    RunIs(IsHex, s4, 1);
    LeftNoForm(html, s5);
    assert GapLen(OtherAlnum, s4) == 46;
    assert GapLen(HexDigit, s3) == 47;
    assert GapLen(OtherAlnum, s2) == 48;
  }

  lemma LeftNoForm(html: string, tail: string)
    requires html == "drep1" + Repeat('z', 45) + Repeat('a', 66) && tail == html[5..]
    ensures MatchForms(BECH32_FORMS, html) == 0
  {
    RunIs(IsAlnum, tail, 111);
    StartsUnlike("gov_action1", html, 0);
    StartsUnlike("drep_script1", html, 4);
    StartsUnlike("addr1", html, 0);
    StartsUnlike("addr_test1", html, 0);
    NoForm(BECH32_FORMS, html);
  }
}
