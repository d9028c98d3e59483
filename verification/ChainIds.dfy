/** Display-time linkification of on-chain identifiers (src/lib/markdown.ts, `linkifyChainIds`).
    The token regex is a scanner over the text still to be read; `Link` is the replace callback's
    effect, and the method is the callback loop that keeps `skipDepth` as a variable. */
module ChainIds {
  import opened JsText

  /** What a lookbehind sees: the class of the character just before the scan position. */
  datatype Edge = Boundary | HexDigit | OtherAlnum

  function EdgeOf(c: char): Edge {
    if IsHex(c) then HexDigit else if IsAlnum(c) then OtherAlnum else Boundary
  }

  /** The class of the last character of `s`, or `left` when `s` is empty. */
  function EdgeAfter(left: Edge, s: string): Edge {
    if s == "" then left else EdgeOf(s[|s| - 1])
  }

  // ---- The identifier alternatives of CHAIN_ID_TOKEN ------------------------------------------

  /** A bech32 alternative: a prefix, then `lo` to `hi` alphanumerics; when `closed`, none may follow. */
  datatype FormShape = FormShape(prefix: string, lo: nat, hi: nat, closed: bool)

  /** Every form is an alphanumeric-led id of at least 50 characters, and no prefix contains a '<'. */
  type Form = f: FormShape |
    f.prefix != "" && IsAlnum(f.prefix[0]) && '<' !in f.prefix && 0 < f.lo <= f.hi && |f.prefix| + f.lo >= 50
    witness FormShape("a", 50, 50, true)

  const BECH32_FORMS: seq<Form> := [
    FormShape("gov_action1", 59, 59, false),
    FormShape("drep_script1", 45, 60, true), FormShape("drep1", 45, 60, true),
    FormShape("addr_test1", 50, 110, true), FormShape("addr1", 50, 110, true)
  ]

  /** Length of the text `f` matches at the start of `s`, or 0. */
  function MatchForm(f: Form, s: string): (n: nat)
    ensures n <= |s|
    ensures n > 0 ==> n >= 50 && IsAlnum(s[0])
  {
    if !StartsCi(f.prefix, s) then 0
    else
      var n := Run(IsAlnum, s[|f.prefix|..]);
      if n < f.lo || (f.closed && f.hi < n) then 0
      else |f.prefix| + if n < f.hi then n else f.hi
  }

  /** The first alternative that matches. */
  function MatchForms(fs: seq<Form>, s: string): (n: nat)
    ensures n <= |s|
    ensures n > 0 ==> n >= 50 && IsAlnum(s[0])
  {
    if fs == [] then 0
    else if MatchForm(fs[0], s) > 0 then MatchForm(fs[0], s)
    else MatchForms(fs[1..], s)
  }

  /** The two hex alternatives: 64 hex, '#' and 1 to 6 digits; or a run of exactly 66 or 68 hex. */
  function MatchHex(s: string): (n: nat)
    ensures n <= |s|
    ensures n > 0 ==> n >= 50 && IsAlnum(s[0])
  {
    var h := Run(IsHex, s);
    if h == 64 && |s| > 64 && s[64] == '#' && Run(IsDigit, s[65..]) > 0 then
      65 + if Run(IsDigit, s[65..]) < 6 then Run(IsDigit, s[65..]) else 6
    else if h == 66 || h == 68 then h
    else 0
  }

  /** Length of the identifier that starts `s` after a character of class `left`, or 0 when none does. */
  function MatchId(left: Edge, s: string): (n: nat)
    ensures n <= |s|
    ensures n > 0 ==> n >= 50 && IsAlnum(s[0])
  {
    if left.Boundary? && MatchForms(BECH32_FORMS, s) > 0 then MatchForms(BECH32_FORMS, s)
    else if left.HexDigit? then 0
    else MatchHex(s)
  }

  // ---- The tag alternatives and the skip depth ------------------------------------------------

  /** Length of the tag token that starts `s` (from '<' through the first '>'), or 0. */
  function TagLen(s: string): (n: nat)
    ensures n <= |s|
    ensures n > 0 ==> n >= 2 && s[0] == '<' && s[n - 1] == '>'
  {
    if s != "" && s[0] == '<' && Find('>', s) < |s| then Find('>', s) + 1 else 0
  }

  /** The elements whose content is never linkified. */
  datatype Element = A | Code | Pre

  const SKIPPED: seq<(string, Element)> := [("a", A), ("code", Code), ("pre", Pre)]

  /** The first listed element name that starts `s` and ends at a word boundary. */
  function SkipElement(names: seq<(string, Element)>, s: string): Option<Element> {
    if names == [] then None
    else
      var name := names[0].0;
      if StartsCi(name, s) && (|s| == |name| || !IsWord(s[|name|])) then Some(names[0].1)
      else SkipElement(names[1..], s)
  }

  datatype TagKind = Opens(e: Element) | Closes(e: Element) | Neutral

  /** What a tag token does to the skip depth: `/^<(\/?)(?:a|code|pre)\b/i`. */
  function KindOf(tag: string): TagKind
    requires tag != ""
  {
    if |tag| > 1 && tag[1] == '/' then
      match SkipElement(SKIPPED, tag[2..])
      case Some(e) => Closes(e)
      case None => Neutral
    else
      match SkipElement(SKIPPED, tag[1..])
      case Some(e) => Opens(e)
      case None => Neutral
  }

  function DepthAfter(tag: string, depth: nat): nat
    requires tag != ""
  {
    match KindOf(tag)
    case Opens(_) => depth + 1
    case Closes(_) => if depth == 0 then 0 else depth - 1
    case Neutral => depth
  }

  // ---- The chip -------------------------------------------------------------------------------

  function Shorten(id: string): string
    requires |id| >= 14
  {
    id[..14] + "..." + id[|id| - 6..]
  }

  predicate LowerAlnum(c: char) { IsDigit(c) || 'a' <= c <= 'z' }

  predicate LowerHex(c: char) { IsDigit(c) || 'a' <= c <= 'f' }

  /** The 64-hex#index form, split at the '#'; the index is 1 to 6 digits. */
  predicate IsHashIndex(id: string) {
    66 <= |id| <= 71 && All(LowerHex, id[..64]) && id[64] == '#' && All(IsDigit, id[65..])
  }

  predicate PrefixThenAlnum(prefix: string, id: string) {
    prefix < id && All(LowerAlnum, id[|prefix|..])
  }

  function HexDigitOf(d: nat): char
    requires d < 16
  {
    if d < 10 then '0' + d as char else 'a' + (d - 10) as char
  }

  /** `toString(16)`. */
  function ToHex(n: nat): (s: string)
    ensures s != ""
  {
    if n < 16 then [HexDigitOf(n)] else ToHex(n / 16) + [HexDigitOf(n % 16)]
  }

  /** The action index as whole hex bytes. */
  function IndexHex(n: nat): string {
    if |ToHex(n)| % 2 != 0 then "0" + ToHex(n) else ToHex(n)
  }

  /** Where a chip leads: a page of the site by its path segment, or the outside address explorer. */
  datatype Target = GovAction(segment: string) | DRep(segment: string) | Address(segment: string, preprod: bool)

  const EXPLORER := "https://explorer.cardano.org/"

  function Href(t: Target): string {
    match t
    case GovAction(id) => "/ga/" + id + "/"
    case DRep(id) => "/dreps/" + id + "/"
    case Address(id, preprod) => EXPLORER + (if preprod then "preprod/" else "") + "address/" + id
  }

  function Rel(t: Target): string {
    if t.Address? then "noopener noreferrer nofollow" else "noopener"
  }

  /** `chainIdLink`'s routing by shape, or None when the shape is not linkable. */
  function ChainIdTarget(id: string): Option<Target> {
    if (|id| == 70 && PrefixThenAlnum("gov_action1", id)) || ((|id| == 66 || |id| == 68) && All(LowerHex, id)) then
      Some(GovAction(id))
    else if IsHashIndex(id) then Some(GovAction(id[..64] + IndexHex(DecimalValue(id[65..]))))
    else if PrefixThenAlnum("drep1", id) || PrefixThenAlnum("drep_script1", id) then Some(DRep(id))
    else if PrefixThenAlnum("addr_test1", id) then Some(Address(id, true))
    else if PrefixThenAlnum("addr1", id) then Some(Address(id, false))
    else None
  }

  const OPEN_MARK := "<a class=\"chainid\" href=\""
  const REL_MARK := "\" rel=\""
  const TITLE_MARK := "\" title=\""
  const CLOSE_MARK := "</a>"

  /** The part of the opening tag before its final `">`. */
  function ChipAttrs(t: Target, id: string): string {
    OPEN_MARK + (Href(t) + (REL_MARK + (Rel(t) + (TITLE_MARK + id))))
  }

  function ChipOpen(t: Target, id: string): string {
    ChipAttrs(t, id) + "\">"
  }

  /** `chainIdLink(token.toLowerCase()) ?? token`. */
  function Chip(token: string): string
    requires |token| >= 50
  {
    var id := Lower(token);
    match ChainIdTarget(id)
    case Some(t) => ChipOpen(t, id) + (Shorten(id) + CLOSE_MARK)
    case None => token
  }

  // ---- The pass -------------------------------------------------------------------------------

  /** What one callback contributes: the text it emits, how much it consumes, and the state after it. */
  datatype Emission = Emission(text: string, used: nat, left: Edge, depth: nat)

  /** Outside tags: an id becomes a chip unless it is inside a skipped element; any other character is kept. */
  function EmitText(left: Edge, s: string, depth: nat): (e: Emission)
    requires s != ""
    ensures 0 < e.used <= |s| && e.depth == depth
  {
    var n := MatchId(left, s);
    if n > 0 then Emission(if depth > 0 then s[..n] else Chip(s[..n]), n, EdgeOf(s[n - 1]), depth)
    else Emission([s[0]], 1, EdgeOf(s[0]), depth)
  }

  function Emit(left: Edge, s: string, depth: nat): (e: Emission)
    requires s != ""
    ensures 0 < e.used <= |s|
  {
    var n := TagLen(s);
    if n > 0 then Emission(s[..n], n, Boundary, DepthAfter(s[..n], depth)) else EmitText(left, s, depth)
  }

  /** The rewritten text of `s`, read after a character of class `left` at skip depth `depth`. */
  function Link(left: Edge, s: string, depth: nat): string
    decreases |s|
  {
    if s == "" then ""
    else
      var e := Emit(left, s, depth);
      e.text + Link(e.left, s[e.used..], e.depth)
  }

  function Linkify(html: string): string {
    Link(Boundary, html, 0)
  }

  /** One callback of the replace. */
  method Callback(left: Edge, rest: string, depth: nat) returns (e: Emission)
    requires rest != ""
    ensures e == Emit(left, rest, depth)
  {
    var tag, id := TagLen(rest), MatchId(left, rest);
    if tag > 0 {
      e := Emission(rest[..tag], tag, Boundary, DepthAfter(rest[..tag], depth));
    } else if id > 0 {
      var text := rest[..id];
      if depth == 0 {
        text := Chip(text);
      }
      e := Emission(text, id, EdgeOf(rest[id - 1]), depth);
    } else {
      e := Emission([rest[0]], 1, EdgeOf(rest[0]), depth);
    }
  }

  /** A callback, tied to the text still to be written. */
  method Advance(left: Edge, rest: string, depth: nat) returns (e: Emission)
    requires rest != ""
    ensures 0 < e.used <= |rest|
    ensures Link(left, rest, depth) == e.text + Link(e.left, rest[e.used..], e.depth)
  {
    e := Callback(left, rest, depth);
  }

  /** The replace loop: `skipDepth` is carried from one callback to the next. */
  method LinkifyChainIds(html: string) returns (out: string)
    ensures out == Linkify(html)
  {
    out := "";
    var rest, skipDepth: nat, left := html, 0, Boundary;
    ghost var tail := Link(left, html, skipDepth);
    while rest != ""
      invariant tail == Link(left, rest, skipDepth)
      invariant out + tail == Linkify(html)
      decreases |rest|
    {
      var e := Advance(left, rest, skipDepth);
      rest, left, skipDepth := rest[e.used..], e.left, e.depth;
      ghost var tail' := Link(left, rest, skipDepth);
      assert out + (e.text + tail') == (out + e.text) + tail';
      out, tail := out + e.text, tail';
    }
  }
}
