/** What the pass keeps and what it replaces, and where chips can stand: the clamped skip counter against
    the true nesting of a, code and pre elements. */
module ChainIdPieces {
  import opened JsText
  import opened ChainIds
  import opened ChainIdTokens
  import opened ChainIdsTwice

  // ---- Kept text and chips --------------------------------------------------------------------

  /** A stretch of the input that is copied, or an id occurrence that is shown as a chip. */
  datatype Piece = Kept(text: string) | Chipped(id: string)

  function PieceOf(left: Edge, s: string, depth: nat): Piece
    requires s != ""
  {
    if TagLen(s) == 0 && MatchId(left, s) > 0 && depth == 0 then Chipped(s[..MatchId(left, s)])
    else Kept(s[..Emit(left, s, depth).used])
  }

  function Pieces(left: Edge, s: string, depth: nat): seq<Piece>
    decreases |s|
  {
    if s == "" then []
    else
      var e := Emit(left, s, depth);
      [PieceOf(left, s, depth)] + Pieces(e.left, s[e.used..], e.depth)
  }

  /** The input the pieces were cut from. */
  function Source(ps: seq<Piece>): string {
    if ps == [] then ""
    else (match ps[0] case Kept(t) => t case Chipped(id) => id) + Source(ps[1..])
  }

  /** The output: kept text as it is; an id as a link titled with the whole lower-cased id around its short form. */
  function Render(ps: seq<Piece>): string
    requires AllLinkable(ps)
  {
    if ps == [] then ""
    else (match ps[0] case Kept(t) => t case Chipped(id) => RenderChip(id)) + Render(ps[1..])
  }

  predicate Linkable(id: string) {
    |id| >= 50 && ChainIdTarget(Lower(id)).Some?
  }

  function RenderChip(id: string): string
    requires Linkable(id)
  {
    var shown := Lower(id);
    ChipOpen(ChainIdTarget(shown).value, shown) + (Shorten(shown) + CLOSE_MARK)
  }

  predicate AllLinkable(ps: seq<Piece>) {
    ps == [] || ((ps[0].Chipped? ==> Linkable(ps[0].id)) && AllLinkable(ps[1..]))
  }

  /** The first piece and the pass over the rest. */
  lemma FirstPiece(left: Edge, s: string, depth: nat) returns (p: Piece, out: string, l: Edge, n: nat, d: nat)
    requires s != ""
    ensures 0 < n <= |s|
    ensures Pieces(left, s, depth) == [p] + Pieces(l, s[n..], d)
    ensures Link(left, s, depth) == out + Link(l, s[n..], d)
    ensures match p
            case Kept(t) => t == s[..n] == out
            case Chipped(id) => id == s[..n] && Linkable(id) && out == RenderChip(id)
  {
    var e := Emit(left, s, depth);
    p, out, l, n, d := PieceOf(left, s, depth), e.text, e.left, e.used, e.depth;
    if p.Chipped? {
      TokenLinkable(left, s);
    }
  }

  lemma NoPieces(left: Edge, depth: nat)
    ensures Pieces(left, "", depth) == [] && Link(left, "", depth) == ""
  {
  }

  lemma OnePiece(p: Piece, ps: seq<Piece>)
    requires AllLinkable(ps) && (p.Chipped? ==> Linkable(p.id))
    ensures AllLinkable([p] + ps)
    ensures Source([p] + ps) == (match p case Kept(t) => t case Chipped(id) => id) + Source(ps)
    ensures Render([p] + ps) == (match p case Kept(t) => t case Chipped(id) => RenderChip(id)) + Render(ps)
  {
    hide Linkable, RenderChip;
    assert ([p] + ps)[1..] == ps;
  }

  /** Linkification cuts the input into pieces, in order and without loss, and only shows the id pieces
      differently: every other character, and every tag, is copied. */
  lemma {:induction false} LinkIsPiecewise(left: Edge, s: string, depth: nat)
    ensures var ps := Pieces(left, s, depth);
            Source(ps) == s && AllLinkable(ps) && Render(ps) == Link(left, s, depth)
    decreases |s|
  {
    hide Pieces, Link, Linkable, RenderChip;
    if s == "" {
      NoPieces(left, depth);
    } else {
      var p, out, l, n, d := FirstPiece(left, s, depth);
      LinkIsPiecewise(l, s[n..], d);
      OnePiece(p, Pieces(l, s[n..], d));
      assert s == s[..n] + s[n..];
    }
  }

  // ---- Nesting --------------------------------------------------------------------------------

  /** The open skipped elements after a tag, innermost first; a closing tag that does not match the innermost one
      closes nothing. */
  function Nest(open: seq<Element>, tag: string): seq<Element>
    requires tag != ""
  {
    match KindOf(tag)
    case Opens(e) => [e] + open
    case Closes(e) => if open != [] && open[0] == e then open[1..] else open
    case Neutral => open
  }

  predicate Crosses(open: seq<Element>, tag: string)
    requires tag != ""
  {
    open != [] && KindOf(tag).Closes? && KindOf(tag).e != open[0]
  }

  /** From the elements already open, no closing tag crosses the innermost open element; one that comes while nothing
      is open is allowed. */
  predicate Uncrossed(s: string, open: seq<Element>)
    decreases |s|
  {
    TextLen(s) == |s| ||
    var p := FirstTag(s);
    !Crosses(open, p.tag) && Uncrossed(p.rest, Nest(open, p.tag))
  }

  /** The carried counter is the number of open elements, here and after every tag. */
  predicate DepthsAgree(s: string, open: seq<Element>, depth: nat)
    decreases |s|
  {
    depth == |open| &&
    (TextLen(s) == |s| ||
     var p := FirstTag(s);
     DepthsAgree(p.rest, Nest(open, p.tag), DepthAfter(p.tag, depth)))
  }

  /** The intended pass: ids become chips exactly where no a, code or pre element is open. */
  function LinkOutside(s: string, open: seq<Element>): string
    decreases |s|
  {
    if TextLen(s) == |s| then TextOutside(s, open)
    else
      var p := FirstTag(s);
      TextOutside(p.text, open) + (p.tag + LinkOutside(p.rest, Nest(open, p.tag)))
  }

  function TextOutside(x: string, open: seq<Element>): string {
    if open == [] then LinkText(Boundary, x) else x
  }

  /** One tag of the pass at any depth. */
  lemma LinkAtTag(s: string, depth: nat)
    requires TextLen(s) < |s|
    ensures var p := FirstTag(s);
            Link(Boundary, s, depth) ==
            (if depth > 0 then p.text else LinkText(Boundary, p.text))
            + (p.tag + Link(Boundary, p.rest, DepthAfter(p.tag, depth)))
  {
    AtTag(s);
    var p := FirstTag(s);
    TagCat(p.tag, p.rest);
    LinkCat(Boundary, p.text, p.tag + p.rest, depth);
    FixTag(p.tag, p.rest, depth);
  }

  lemma NestIsDepth(open: seq<Element>, tag: string)
    requires tag != ""
    ensures |Nest(open, tag)| == DepthAfter(tag, |open|) <==> !Crosses(open, tag)
  {
    hide KindOf;
  }

  /** The clamped counter is the true depth after every tag exactly when no closing tag crosses an open element. */
  lemma {:induction false} CounterIsDepthIff(s: string, open: seq<Element>)
    ensures DepthsAgree(s, open, |open|) <==> Uncrossed(s, open)
    decreases |s|
  {
    hide TextLen, FirstTag, Nest, Crosses, DepthAfter;
    if TextLen(s) < |s| {
      var p := FirstTag(s);
      NestIsDepth(open, p.tag);
      CounterIsDepthIff(p.rest, Nest(open, p.tag));
    }
  }

  /** At every stretch of text the counter is zero just when no skipped element is open, or the stretch holds no id. */
  predicate Agrees(s: string, open: seq<Element>, depth: nat)
    decreases |s|
  {
    if TextLen(s) == |s| then AgreesOn(s, open, depth)
    else
      var p := FirstTag(s);
      AgreesOn(p.text, open, depth) && Agrees(p.rest, Nest(open, p.tag), DepthAfter(p.tag, depth))
  }

  predicate AgreesOn(x: string, open: seq<Element>, depth: nat) {
    (depth > 0 <==> open != []) || IdFree(Boundary, x)
  }

  lemma {:induction false} IdAfterGap(left: Edge, x: string)
    requires !IdFree(left, x)
    ensures GapLen(left, x) < |x|
    decreases |x|
  {
    hide MatchId, EdgeOf;
    if MatchId(left, x) == 0 {
      IdAfterGap(EdgeOf(x[0]), x[1..]);
    }
  }

  /** Linked text is told from the text itself by its first chip, whose '<' stands where an id begins. */
  lemma TellsApart(x: string, u: string, v: string)
    requires !IdFree(Boundary, x)
    ensures x + u != LinkText(Boundary, x) + v
  {
    hide IdFree, GapLen, MatchId, LinkText, EmitText, EdgeAfter;
    IdAfterGap(Boundary, x);
    var g, w := SplitGap(Boundary, x);
    var open, text, l, rest := ChipStep(EdgeAfter(Boundary, g), w);
    assert IsAlnum(w[0]);
    assert open[0] == '<';
    assert (x + u)[|g|] == w[0];
    assert (LinkText(Boundary, x) + v)[|g|] == open[0];
  }

  /** One stretch of text, and what either pass makes of the rest. */
  lemma TextAgrees(x: string, open: seq<Element>, depth: nat, u: string, v: string)
    ensures (if depth > 0 then x else LinkText(Boundary, x)) + u == TextOutside(x, open) + v <==>
            AgreesOn(x, open, depth) && u == v
  {
    hide IdFree, LinkText;
    if IdFree(Boundary, x) {
      TextKept(Boundary, x);
    } else {
      TellsApart(x, u, v);
      TellsApart(x, v, u);
    }
    SameTail(TextOutside(x, open), u, v);
  }

  lemma SameTail(y: string, u: string, v: string)
    ensures y + u == y + v <==> u == v
  {
    assert (y + u)[|y|..] == u && (y + v)[|y|..] == v;
  }

  /** The pass links exactly what it should, every id outside the skipped elements and none inside, exactly when the
      counter agrees with the nesting wherever there is an id. */
  lemma {:induction false} LinksOutsideIff(s: string, open: seq<Element>, depth: nat)
    ensures Link(Boundary, s, depth) == LinkOutside(s, open) <==> Agrees(s, open, depth)
    decreases |s|
  {
    hide TextLen, FirstTag, Nest, DepthAfter, Link, LinkText, TextOutside, AgreesOn;
    if TextLen(s) == |s| {
      NoTagLink(s, depth);
      TextAgrees(s, open, depth, "", "");
      assert TextOutside(s, open) + "" == TextOutside(s, open);
      assert Link(Boundary, s, depth) + "" == Link(Boundary, s, depth);
    } else {
      LinkAtTag(s, depth);
      var p := FirstTag(s);
      var open', depth' := Nest(open, p.tag), DepthAfter(p.tag, depth);
      LinksOutsideIff(p.rest, open', depth');
      SameTail(p.tag, Link(Boundary, p.rest, depth'), LinkOutside(p.rest, open'));
      TextAgrees(p.text, open, depth, p.tag + Link(Boundary, p.rest, depth'), p.tag + LinkOutside(p.rest, open'));
    }
  }

  /** So it does wherever no closing tag crosses an open element. */
  lemma LinkedOutside(s: string, open: seq<Element>)
    requires Uncrossed(s, open)
    ensures Link(Boundary, s, |open|) == LinkOutside(s, open)
  {
    UncrossedAgrees(s, open);
    LinksOutsideIff(s, open, |open|);
  }

  lemma {:induction false} UncrossedAgrees(s: string, open: seq<Element>)
    requires Uncrossed(s, open)
    ensures Agrees(s, open, |open|)
    decreases |s|
  {
    hide TextLen, FirstTag, Nest, Crosses, DepthAfter, IdFree;
    if TextLen(s) < |s| {
      var p := FirstTag(s);
      NestIsDepth(open, p.tag);
      UncrossedAgrees(p.rest, Nest(open, p.tag));
    }
  }

  /** Where a closing tag crosses, the counter drifts: a stray closing tag inside <code> brings it back to zero, and
      ids after it are linked although the code element is still open. */
  lemma StrayCloseDrifts(code: string, close: string, x: string)
    requires code == "<code>" && close == "</a>" && TextLen(x) == |x|
    ensures Linkify(code + (close + x)) == code + (close + LinkText(Boundary, x))
    ensures LinkOutside(code + (close + x), []) == code + (close + x) && !Uncrossed(code + (close + x), [])
  {
    OpensCode(code);
    CloseMarkIsTag(1);
    FixTag(code, close + x, 0);
    FixTag(close, x, 1);
    NoTagLink(x, 0);
    ClosesAnchor(close);
    StrayCrosses(code, close, x);
  }

  lemma OpensCode(t: string)
    requires t == "<code>"
    ensures IsTag(t) && KindOf(t) == Opens(Code)
  {
    var u := t[1..];
    assert u == "code" + ">";
    StartsHead("code", ">");
    assert SKIPPED[0].0 == "a" && !StartsCi("a", u);
    assert SKIPPED[1..][0] == ("code", Code);
    assert SkipElement(SKIPPED[1..], u) == Some(Code);
    FindIs('>', t, 5);
  }

  lemma OutsideAtTag(t: string, r: string, open: seq<Element>)
    requires IsTag(t)
    ensures LinkOutside(t + r, open) == t + LinkOutside(r, Nest(open, t))
    ensures Uncrossed(t + r, open) <==> !Crosses(open, t) && Uncrossed(r, Nest(open, t))
  {
    hide KindOf, TextLen, FirstTag, Nest, Crosses;
    StartsTag(t, r);
    EmptyOutside(open);
    assert "" + (t + LinkOutside(r, Nest(open, t))) == t + LinkOutside(r, Nest(open, t));
  }

  lemma EmptyOutside(open: seq<Element>)
    ensures TextOutside("", open) == ""
  {
  }

  lemma KeptInside(x: string, open: seq<Element>)
    requires TextLen(x) == |x| && open != []
    ensures LinkOutside(x, open) == x
  {
  }

  lemma CodeThenAnchor(code: string, close: string)
    requires code != "" && KindOf(code) == Opens(Code) && close != "" && KindOf(close) == Closes(A)
    ensures Nest([], code) == [Code] && Nest([Code], close) == [Code] && Crosses([Code], close)
  {
    hide KindOf;
  }

  lemma StrayCrosses(code: string, close: string, x: string)
    requires IsTag(code) && KindOf(code) == Opens(Code) && IsTag(close) && KindOf(close) == Closes(A)
    requires code != "" && close != "" && TextLen(x) == |x|
    ensures LinkOutside(code + (close + x), []) == code + (close + x) && !Uncrossed(code + (close + x), [])
  {
    hide *;
    CodeThenAnchor(code, close);
    OutsideAtTag(code, close + x, []);
    OutsideAtTag(close, x, [Code]);
    KeptInside(x, [Code]);
  }

  lemma StartsTag(t: string, r: string)
    requires IsTag(t)
    ensures TextLen(t + r) < |t + r| && FirstTag(t + r) == Split("", t, r)
  {
    TagCat(t, r);
  }

  lemma ClosesAnchor(t: string)
    requires t == CLOSE_MARK
    ensures KindOf(t) == Closes(A)
  {
    var u := t[2..];
    assert u[0] == 'a' && u[1] == '>';
    assert SKIPPED[0].0 == "a" && StartsCi("a", u);
  }
}
