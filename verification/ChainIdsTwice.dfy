/** What a second `linkifyChainIds` pass does to the output of the first. The source comment promises
    idempotence; that holds exactly when no stretch of text left between chips reads as an id by itself. */
module ChainIdsTwice {
  import opened JsText
  import opened ChainIds
  import opened ChainIdTokens

  // ---- Text and tags --------------------------------------------------------------------------

  /** How much text comes before the first tag token. */
  function TextLen(s: string): (k: nat)
    ensures k <= |s|
    ensures k < |s| ==> TagLen(s[k..]) > 0
  {
    if s == "" || TagLen(s) > 0 then 0 else 1 + TextLen(s[1..])
  }

  /** `x` is text with no tag token in it, and `r` is empty or starts with a tag. */
  predicate TextThen(x: string, r: string) {
    if r == "" then TextLen(x) == |x| else TagLen(r) > 0 && Find('<', x) == |x|
  }

  lemma {:induction false} NoCloseNoTag(s: string)
    requires Find('>', s) == |s|
    ensures TextLen(s) == |s|
  {
    if s != "" {
      NoCloseNoTag(s[1..]);
    }
  }

  lemma NoStrayAngle(s: string)
    requires s != "" && TagLen(s) == 0 && TextLen(s[1..]) < |s| - 1
    ensures s[0] != '<'
  {
    if s[0] == '<' {
      NoCloseNoTag(s);
    }
  }

  lemma FindCons(c: char, y: string)
    requires c != '<'
    ensures Find('<', [c] + y) == 1 + Find('<', y)
  {
    assert ([c] + y)[1..] == y;
  }

  lemma LenCons(s: string)
    requires s != "" && TagLen(s) == 0
    ensures TextLen(s) == 1 + TextLen(s[1..])
  {
    hide TagLen;
  }

  /** One more character of text before a tag. */
  lemma TextThenCons(s: string, y: string, r: string)
    requires s != "" && s[1..] == y + r && TagLen(s) == 0 && TextThen(y, r) && |y| == TextLen(s[1..])
    ensures s == ([s[0]] + y) + r && TextThen([s[0]] + y, r)
  {
    hide TagLen, Find, TextLen;
    assert s == [s[0]] + s[1..];
    if r == "" {
      assert y + r == y;
      LenCons(s);
    } else {
      NoStrayAngle(s);
      FindCons(s[0], y);
    }
  }

  lemma {:induction false} SplitAtTag(s: string) returns (x: string, r: string)
    ensures s == x + r && |x| == TextLen(s) && TextThen(x, r)
  {
    if s == "" || TagLen(s) > 0 {
      x, r := "", s;
    } else {
      hide TagLen, TextThen;
      var y;
      y, r := SplitAtTag(s[1..]);
      x := [s[0]] + y;
      TextThenCons(s, y, r);
    }
  }

  lemma TextThenTail(x: string, r: string)
    requires x != "" && TextThen(x, r)
    ensures TagLen(x + r) == 0 && TextThen(x[1..], r)
  {
    if r == "" {
      assert x + r == x;
    }
  }

  lemma {:induction false} TextThenDrop(x: string, r: string, n: nat)
    requires n <= |x| && TextThen(x, r)
    ensures TextThen(x[n..], r)
  {
    if n > 0 {
      TextThenTail(x, r);
      TextThenDrop(x[1..], r, n - 1);
      assert x[1..][n - 1..] == x[n..];
    } else {
      assert x[n..] == x;
    }
  }

  // ---- An id never reads past a '<' -----------------------------------------------------------

  lemma {:induction false} RunCut(p: char -> bool, x: string, r: string)
    requires r == "" || !p(r[0])
    ensures Run(p, x + r) == Run(p, x)
  {
    if x == "" {
      assert x + r == r;
    } else {
      assert (x + r)[1..] == x[1..] + r;
      RunCut(p, x[1..], r);
    }
  }

  lemma {:induction false} StartsCut(prefix: string, x: string, r: string)
    requires '<' !in prefix && (r == "" || r[0] == '<')
    ensures StartsCi(prefix, x + r) == StartsCi(prefix, x)
  {
    if prefix != "" {
      if x == "" {
        assert x + r == r;
        assert prefix[0] in prefix;
      } else {
        assert (x + r)[1..] == x[1..] + r;
        StartsCut(prefix[1..], x[1..], r);
      }
    }
  }

  lemma FormCut(f: Form, x: string, r: string)
    requires r == "" || r[0] == '<'
    ensures MatchForm(f, x + r) == MatchForm(f, x)
  {
    StartsCut(f.prefix, x, r);
    if StartsCi(f.prefix, x) {
      var p := |f.prefix|;
      assert (x + r)[p..] == x[p..] + r;
      RunCut(IsAlnum, x[p..], r);
    }
  }

  lemma {:induction false} FormsCut(fs: seq<Form>, x: string, r: string)
    requires r == "" || r[0] == '<'
    ensures MatchForms(fs, x + r) == MatchForms(fs, x)
  {
    if fs != [] {
      FormCut(fs[0], x, r);
      FormsCut(fs[1..], x, r);
    }
  }

  lemma HexCut(x: string, r: string)
    requires r == "" || r[0] == '<'
    ensures MatchHex(x + r) == MatchHex(x)
  {
    RunCut(IsHex, x, r);
    if |x| > 64 {
      assert (x + r)[65..] == x[65..] + r;
      RunCut(IsDigit, x[65..], r);
    }
  }

  lemma MatchCut(left: Edge, x: string, r: string)
    requires r == "" || r[0] == '<'
    ensures MatchId(left, x + r) == MatchId(left, x)
  {
    FormsCut(BECH32_FORMS, x, r);
    HexCut(x, r);
  }

  // ---- Rewriting text without tags ------------------------------------------------------------

  /** The rewrite of text outside every skipped element. */
  function LinkText(left: Edge, x: string): string
    decreases |x|
  {
    if x == "" then ""
    else
      var e := EmitText(left, x, 0);
      e.text + LinkText(e.left, x[e.used..])
  }

  lemma TextThenEdge(x: string, r: string)
    requires TextThen(x, r)
    ensures r == "" || r[0] == '<'
  {
  }

  lemma EmitCut(left: Edge, x: string, r: string, depth: nat)
    requires x != "" && TextThen(x, r)
    ensures Emit(left, x + r, depth) == EmitText(left, x, depth)
  {
    hide MatchId, TagLen, TextThen, Chip;
    TextThenTail(x, r);
    TextThenEdge(x, r);
    MatchCut(left, x, r);
    var n := MatchId(left, x);
    assert (x + r)[..n] == x[..n];
  }

  lemma CatCat(a: string, b: string, c: string)
    ensures a + (b + c) == (a + b) + c
  {}

  lemma CatSlice(x: string, r: string, n: nat)
    requires n <= |x|
    ensures (x + r)[n..] == x[n..] + r
  {}

  /** Inside a skipped element whatever is consumed is kept. */
  lemma KeptDeep(left: Edge, x: string, depth: nat)
    requires x != "" && depth > 0
    ensures var e := EmitText(left, x, depth); e.text == x[..e.used]
  {
  }

  lemma LinkCatStep(left: Edge, x: string, r: string, depth: nat) returns (e: Emission)
    requires x != "" && TextThen(x, r)
    ensures 0 < e.used <= |x| && TextThen(x[e.used..], r) && e.depth == depth
    ensures x + r != "" && Emit(left, x + r, depth) == e && (x + r)[e.used..] == x[e.used..] + r
    ensures if depth > 0 then e.text == x[..e.used] else e == EmitText(left, x, 0)
  {
    hide MatchId, TagLen, Emit, TextThen;
    EmitCut(left, x, r, depth);
    e := EmitText(left, x, depth);
    if depth > 0 {
      KeptDeep(left, x, depth);
    }
    TextThenDrop(x, r, e.used);
    CatSlice(x, r, e.used);
  }

  /** What came before a tag does not matter to the pass. */
  lemma LinkEdge(left: Edge, r: string, depth: nat)
    requires TextThen("", r)
    ensures Link(left, r, depth) == Link(Boundary, r, depth)
  {
    hide MatchId;
    if r != "" {
      assert Emit(left, r, depth) == Emit(Boundary, r, depth);
    }
  }

  lemma {:induction false} LinkCatDeep(left: Edge, x: string, r: string, depth: nat)
    requires TextThen(x, r) && depth > 0
    ensures Link(left, x + r, depth) == x + Link(Boundary, r, depth)
    decreases |x|
  {
    hide MatchId, TagLen, EmitText, Emit, TextThen;
    if x == "" {
      assert x + r == r;
      LinkEdge(left, r, depth);
    } else {
      var e := LinkCatStep(left, x, r, depth);
      var x' := x[e.used..];
      LinkCatDeep(e.left, x', r, depth);
      CatCat(e.text, x', Link(Boundary, r, depth));
      assert x == e.text + x';
    }
  }

  lemma {:induction false} LinkCatText(left: Edge, x: string, r: string)
    requires TextThen(x, r)
    ensures Link(left, x + r, 0) == LinkText(left, x) + Link(Boundary, r, 0)
    decreases |x|
  {
    hide MatchId, TagLen, EmitText, Emit, TextThen;
    if x == "" {
      assert x + r == r;
      LinkEdge(left, r, 0);
    } else {
      var e := LinkCatStep(left, x, r, 0);
      var x' := x[e.used..];
      LinkCatText(e.left, x', r);
      CatCat(e.text, LinkText(e.left, x'), Link(Boundary, r, 0));
    }
  }

  /** The pass treats the text before a tag and the rest of the document independently. */
  lemma LinkCat(left: Edge, x: string, r: string, depth: nat)
    requires TextThen(x, r)
    ensures Link(left, x + r, depth) == (if depth > 0 then x else LinkText(left, x)) + Link(Boundary, r, depth)
  {
    if depth > 0 {
      LinkCatDeep(left, x, r, depth);
    } else {
      LinkCatText(left, x, r);
    }
  }

  // ---- When a pass changes nothing ------------------------------------------------------------

  /** Reading `g` from an edge of class `left`, with '<' an ordinary character, meets no id. */
  predicate IdFree(left: Edge, g: string)
    decreases |g|
  {
    g == "" || (MatchId(left, g) == 0 && IdFree(EdgeOf(g[0]), g[1..]))
  }

  lemma EmitGrows(left: Edge, s: string, depth: nat)
    requires s != ""
    ensures |Emit(left, s, depth).text| >= Emit(left, s, depth).used
    ensures |EmitText(left, s, depth).text| >= EmitText(left, s, depth).used
    ensures MatchId(left, s) > 0 ==> |EmitText(left, s, 0).text| > EmitText(left, s, 0).used
  {
    if MatchId(left, s) > 0 {
      var open, text := ChipParts(left, s);
    }
  }

  lemma {:induction false} LinkGrows(left: Edge, s: string, depth: nat)
    ensures |Link(left, s, depth)| >= |s|
    decreases |s|
  {
    if s != "" {
      EmitGrows(left, s, depth);
      var e := Emit(left, s, depth);
      LinkGrows(e.left, s[e.used..], e.depth);
    }
  }

  lemma {:induction false} TextGrows(left: Edge, x: string)
    ensures |LinkText(left, x)| >= |x|
    ensures !IdFree(left, x) ==> |LinkText(left, x)| > |x|
    decreases |x|
  {
    if x != "" {
      EmitGrows(left, x, 0);
      var e := EmitText(left, x, 0);
      TextGrows(e.left, x[e.used..]);
    }
  }

  lemma {:induction false} TextKept(left: Edge, x: string)
    requires IdFree(left, x)
    ensures LinkText(left, x) == x
    decreases |x|
  {
    if x != "" {
      TextKept(EdgeOf(x[0]), x[1..]);
    }
  }

  /** Text in front of a tag is unchanged by a pass exactly when it is skipped or holds no id. */
  lemma FixText(x: string, r: string, depth: nat)
    requires TextThen(x, r)
    ensures Link(Boundary, x + r, depth) == x + r <==>
            (depth > 0 || IdFree(Boundary, x)) && Link(Boundary, r, depth) == r
  {
    LinkCat(Boundary, x, r, depth);
    LinkGrows(Boundary, r, depth);
    TextGrows(Boundary, x);
    if IdFree(Boundary, x) {
      TextKept(Boundary, x);
    }
    var x', r' := if depth > 0 then x else LinkText(Boundary, x), Link(Boundary, r, depth);
    if x' + r' == x + r {
      assert |x'| == |x| && |r'| == |r|;
      assert x' == (x' + r')[..|x|] && x == (x + r)[..|x|];
      assert r' == (x' + r')[|x|..] && r == (x + r)[|x|..];
    }
  }

  /** A tag token is copied, so a pass leaves it and what follows unchanged exactly when it leaves what follows. */
  lemma FixTag(t: string, r: string, depth: nat)
    requires IsTag(t)
    ensures Link(Boundary, t + r, depth) == t + Link(Boundary, r, DepthAfter(t, depth))
    ensures Link(Boundary, t + r, depth) == t + r <==> Link(Boundary, r, DepthAfter(t, depth)) == r
  {
    TagCat(t, r);
    var r' := Link(Boundary, r, DepthAfter(t, depth));
    assert (t + r')[|t|..] == r';
  }

  // ---- The second pass ------------------------------------------------------------------------

  /** How much text is left before the next id. */
  function GapLen(left: Edge, x: string): (k: nat)
    ensures k <= |x|
    decreases |x|
  {
    if x == "" || MatchId(left, x) > 0 then 0 else 1 + GapLen(EdgeOf(x[0]), x[1..])
  }

  /** A character that starts no id is kept. */
  lemma PlainStep(left: Edge, x: string)
    requires x != "" && MatchId(left, x) == 0
    ensures LinkText(left, x) == [x[0]] + LinkText(EdgeOf(x[0]), x[1..])
  {
    assert EmitText(left, x, 0) == Emission([x[0]], 1, EdgeOf(x[0]), 0);
  }

  lemma EdgeCons(left: Edge, c: char, h: string)
    ensures EdgeAfter(left, "") == left && EdgeAfter(left, [c] + h) == EdgeAfter(EdgeOf(c), h)
  {
    hide EdgeOf;
  }

  /** The gap is kept, and then comes an id or the end. */
  lemma {:induction false} SplitGap(left: Edge, x: string) returns (g: string, v: string)
    ensures x == g + v && |g| == GapLen(left, x)
    ensures LinkText(left, x) == g + LinkText(EdgeAfter(left, g), v)
    ensures v != "" ==> MatchId(EdgeAfter(left, g), v) > 0
    decreases |x|
  {
    hide MatchId, EmitText, LinkText, EdgeOf, EdgeAfter;
    if x == "" || MatchId(left, x) > 0 {
      g, v := "", x;
      EdgeCons(left, 'x', "");
    } else {
      var h;
      h, v := SplitGap(EdgeOf(x[0]), x[1..]);
      g := [x[0]] + h;
      EdgeCons(left, x[0], h);
      PlainStep(left, x);
      CatCat([x[0]], h, LinkText(EdgeAfter(left, g), v));
    }
  }

  /** The stretches of `x` that stay text; one that a chip follows counts only up to its first '<',
      because the chip's own '>' turns the rest of it into a tag. */
  function TextGaps(left: Edge, x: string): seq<string>
    decreases |x|
  {
    var k := GapLen(left, x);
    if k == |x| then [x]
    else
      var g, v := x[..k], x[k..];
      var e := EmitText(EdgeAfter(left, g), v, 0);
      [g[..Find('<', g)]] + TextGaps(e.left, v[e.used..])
  }

  /** The text before the first tag, that tag, and what follows it. */
  datatype Split = Split(text: string, tag: string, rest: string)

  function FirstTag(s: string): (p: Split)
    requires TextLen(s) < |s|
    ensures p.tag != "" && |p.rest| < |s|
  {
    var r := s[TextLen(s)..];
    Split(s[..TextLen(s)], r[..TagLen(r)], r[TagLen(r)..])
  }

  /** The stretches of text outside skipped elements, read between tags and chips. */
  function Gaps(s: string, depth: nat): seq<string>
    decreases |s|
  {
    if TextLen(s) == |s| then GapsHere(s, depth)
    else
      var p := FirstTag(s);
      GapsHere(p.text, depth) + Gaps(p.rest, DepthAfter(p.tag, depth))
  }

  function GapsHere(x: string, depth: nat): seq<string> {
    if depth > 0 then [] else TextGaps(Boundary, x)
  }

  predicate AllIdFree(gs: seq<string>) {
    forall g :: g in gs ==> IdFree(Boundary, g)
  }

  lemma {:induction false} ShortIsIdFree(left: Edge, t: string)
    requires |t| < 50
    ensures IdFree(left, t)
    decreases |t|
  {
    if t != "" {
      ShortIsIdFree(EdgeOf(t[0]), t[1..]);
    }
  }

  /** In text nothing later closes, no '>' follows the first '<'. */
  lemma {:induction false} StrayUnclosed(x: string)
    requires TextLen(x) == |x|
    ensures '>' !in x[Find('<', x)..]
  {
    if x != "" {
      if x[0] == '<' {
        FindNone('>', x);
        assert x[0..] == x;
      } else {
        StrayUnclosed(x[1..]);
        assert x[1..][Find('<', x[1..])..] == x[Find('<', x)..];
      }
    }
  }

  /** One gap and its chip, read again: `g1` is scanned, `g2` and the opening tag are one tag token. */
  lemma ChipAgain(g1: string, g2: string, open: string, text: string, w: string)
    requires Find('<', g1) == |g1| && (g2 == "" || g2[0] == '<') && '>' !in g2
    requires IsTag(open) && |text| < 50 && NoAngle(text)
    ensures var t := g1 + ((g2 + open) + (text + (CLOSE_MARK + w)));
            Link(Boundary, t, 0) == t <==> IdFree(Boundary, g1) && Link(Boundary, w, 0) == w
  {
    var tag := g2 + open;
    StrayJoins(g2, open);
    var d := DepthAfter(tag, 0);
    var rest := text + (CLOSE_MARK + w);
    TagCat(tag, rest);
    FixText(g1, tag + rest, 0);
    FixTag(tag, rest, 0);
    CloseMarkIsTag(d);
    TagCat(CLOSE_MARK, w);
    FindNone('<', text);
    FixText(text, CLOSE_MARK + w, d);
    ShortIsIdFree(Boundary, text);
    FixTag(CLOSE_MARK, w, d);
  }

  lemma Reassoc(g1: string, g2: string, open: string, text: string, close: string, y: string, r: string)
    ensures (((g1 + g2) + ((open + (text + close)) + y)) + r) == g1 + ((g2 + open) + (text + (close + (y + r))))
  {}

  /** A gap, cut at its first '<' in the shape `ChipAgain` wants. */
  lemma CutGap(g: string, v: string, r: string) returns (g1: string, g2: string)
    requires TextThen(g + v, r)
    ensures g == g1 + g2 && |g1| == Find('<', g)
    ensures Find('<', g1) == |g1| && (g2 == "" || g2[0] == '<') && '>' !in g2
  {
    var f := Find('<', g);
    g1, g2 := g[..f], g[f..];
    FindTake('<', g);
    FindCat('<', g, v);
    if g2 != "" {
      StrayUnclosed(g + v);
      assert (g + v)[f..] == g2 + v;
      assert forall c :: c in g2 ==> c in g2 + v;
    }
  }

  lemma {:induction false} FindTake(c: char, s: string)
    ensures Find(c, s[..Find(c, s)]) == Find(c, s)
  {
    if Find(c, s) > 0 {
      FindTake(c, s[1..]);
      assert s[..Find(c, s)][1..] == s[1..][..Find(c, s) - 1];
    }
  }

  lemma AllIdFreeCons(g: string, gs: seq<string>)
    ensures AllIdFree([g] + gs) <==> IdFree(Boundary, g) && AllIdFree(gs)
  {
    if AllIdFree([g] + gs) {
      assert g in [g] + gs;
      assert forall h :: h in gs ==> h in [g] + gs;
    }
  }

  /** One step of each reading of text that starts with an id. */
  lemma ChipStep(left: Edge, v: string) returns (open: string, text: string, l: Edge, u: string)
    requires v != "" && MatchId(left, v) > 0
    ensures var e := EmitText(left, v, 0); l == e.left && u == v[e.used..] && |u| < |v|
    ensures LinkText(left, v) == (open + (text + CLOSE_MARK)) + LinkText(l, u)
    ensures IsTag(open) && |text| < 50 && NoAngle(text)
  {
    hide MatchId, Chip;
    open, text := ChipParts(left, v);
    var e := EmitText(left, v, 0);
    l, u := e.left, v[e.used..];
  }

  lemma GapsStep(left: Edge, x: string, g: string, v: string)
    requires x == g + v && |g| == GapLen(left, x) < |x|
    ensures v != ""
    ensures var e := EmitText(EdgeAfter(left, g), v, 0);
      TextGaps(left, x) == [g[..Find('<', g)]] + TextGaps(e.left, v[e.used..])
  {
    hide MatchId, EmitText, GapLen, Find;
    assert g == x[..|g|] && v == x[|g|..];
  }

  /** The first gap of `x`, the chip after it, and the rest. */
  lemma NextChip(left: Edge, x: string) returns (g: string, v: string, open: string, text: string, l: Edge, u: string)
    requires GapLen(left, x) < |x|
    ensures x == g + v && |u| < |x| && u == x[|x| - |u|..]
    ensures LinkText(left, x) == g + ((open + (text + CLOSE_MARK)) + LinkText(l, u))
    ensures TextGaps(left, x) == [g[..Find('<', g)]] + TextGaps(l, u)
    ensures IsTag(open) && |text| < 50 && NoAngle(text)
  {
    hide *;
    g, v := SplitGap(left, x);
    GapsStep(left, x, g, v);
    open, text, l, u := ChipStep(EdgeAfter(left, g), v);
  }

  lemma {:induction false} TextTwice(left: Edge, x: string, r: string)
    requires TextThen(x, r)
    ensures Link(Boundary, LinkText(left, x) + r, 0) == LinkText(left, x) + r <==>
            AllIdFree(TextGaps(left, x)) && Link(Boundary, r, 0) == r
    decreases |x|
  {
    if GapLen(left, x) == |x| {
      LastGap(left, x);
      AllIdFreeCons(x, []);
      FixText(x, r, 0);
    } else {
      var g, v, open, text, l, u := NextChip(left, x);
      TextThenDrop(x, r, |x| - |u|);
      TextTwice(l, u, r);
      TwiceStep(g, v, r, open, text, LinkText(l, u), TextGaps(l, u));
    }
  }

  lemma LastGap(left: Edge, x: string)
    requires GapLen(left, x) == |x|
    ensures LinkText(left, x) == x && TextGaps(left, x) == [x]
  {
    var g, v := SplitGap(left, x);
    assert v == "" && g == x;
  }

  lemma TwiceStep(g: string, v: string, r: string, open: string, text: string, y: string, gs: seq<string>)
    requires TextThen(g + v, r)
    requires IsTag(open) && |text| < 50 && NoAngle(text)
    requires Link(Boundary, y + r, 0) == y + r <==> AllIdFree(gs) && Link(Boundary, r, 0) == r
    ensures var t := (g + ((open + (text + CLOSE_MARK)) + y)) + r;
            Link(Boundary, t, 0) == t <==> AllIdFree([g[..Find('<', g)]] + gs) && Link(Boundary, r, 0) == r
  {
    hide Link, TextThen, IsTag, AllIdFree, IdFree;
    var g1, g2 := CutGap(g, v, r);
    ChipAgain(g1, g2, open, text, y + r);
    Reassoc(g1, g2, open, text, CLOSE_MARK, y, r);
    assert g[..Find('<', g)] == g1;
    AllIdFreeCons(g1, gs);
  }

  lemma AtTag(s: string)
    requires TextLen(s) < |s|
    ensures var p := FirstTag(s);
            s == p.text + (p.tag + p.rest) && IsTag(p.tag) && Find('<', p.text) == |p.text|
  {
    hide TagLen, TextLen;
    var x, r := SplitAtTag(s);
    assert x == s[..|x|] && r == s[|x|..];
    FindTagEnd(r, r[..TagLen(r)]);
  }

  lemma FindTagEnd(s: string, t: string)
    requires TagLen(s) > 0 && t == s[..TagLen(s)]
    ensures IsTag(t)
  {
    FindTake('>', s);
    FindCat('>', s[..Find('>', s)], ">");
    assert t == s[..Find('>', s)] + ">";
  }

  /** THE SECOND PASS, with the depth it starts at: it changes nothing exactly when no gap reads as an id. */
  lemma {:induction false} LinkTwice(s: string, depth: nat)
    ensures Link(Boundary, Link(Boundary, s, depth), depth) == Link(Boundary, s, depth) <==>
            AllIdFree(Gaps(s, depth))
    decreases |s|
  {
    if TextLen(s) == |s| {
      NoTagTwice(s, depth);
    } else {
      AtTag(s);
      var Split(x, t, u) := FirstTag(s);
      var d := DepthAfter(t, depth);
      LinkTwice(u, d);
      var v := Link(Boundary, u, d);
      TagCat(t, u);
      TagCat(t, v);
      LinkCat(Boundary, x, t + u, depth);
      FixTag(t, u, depth);
      FixTag(t, v, depth);
      if depth > 0 {
        FixText(x, t + v, depth);
      } else {
        TextTwice(Boundary, x, t + v);
        AllIdFreeCat(TextGaps(Boundary, x), Gaps(u, d));
      }
    }
  }

  lemma AllIdFreeCat(a: seq<string>, b: seq<string>)
    ensures AllIdFree(a + b) <==> AllIdFree(a) && AllIdFree(b)
  {
    assert forall g :: g in a + b <==> g in a || g in b;
  }

  lemma NoTagLink(s: string, depth: nat)
    requires TextLen(s) == |s|
    ensures TextThen(s, "") && Link(Boundary, s, depth) == if depth > 0 then s else LinkText(Boundary, s)
  {
    LinkCat(Boundary, s, "", depth);
    assert s + "" == s;
    assert LinkText(Boundary, s) + "" == LinkText(Boundary, s);
  }

  lemma NoTagTwice(s: string, depth: nat)
    requires TextLen(s) == |s|
    ensures Link(Boundary, Link(Boundary, s, depth), depth) == Link(Boundary, s, depth) <==>
            AllIdFree(Gaps(s, depth))
  {
    NoTagLink(s, depth);
    if depth == 0 {
      TextTwice(Boundary, s, "");
      assert LinkText(Boundary, s) + "" == LinkText(Boundary, s);
    }
  }

  /** `linkifyChainIds` run twice equals one run exactly when no stretch of text it leaves between chips
      and tags reads as an id by itself. */
  lemma LinkifyTwiceIff(html: string)
    ensures Linkify(Linkify(html)) == Linkify(html) <==> AllIdFree(Gaps(html, 0))
  {
    LinkTwice(html, 0);
  }
}
