/** The tags that the heading pass recognises, written out from their parts: a tag is taken whole, quoted values
    included, and if it is a heading it alone is moved one level down. */
module HeadingTags {
  import opened JsText
  import opened Headings
  import OpenTags

  // ---- A tag and its parts --------------------------------------------------------------------

  /** What follows an attribute's name: nothing, or an equals sign between blanks and a value, quoted or not. */
  datatype Value = NoValue | Bare(before: string, after: string, text: string)
    | Quoted(before: string, after: string, quote: char, text: string)

  datatype Attribute = Attribute(gap: string, name: string, value: Value)

  datatype Tag = Tag(closing: bool, name: string, attributes: seq<Attribute>, tail: string, selfClosing: bool)

  predicate Blank(s: string) { forall i :: 0 <= i < |s| ==> IsSpace(s[i]) }

  predicate NameChar(c: char) {
    !IsSpace(c) && c != '"' && c != '\'' && c != '>' && c != '/' && c != '='
  }

  predicate BareChar(c: char) { !IsSpace(c) && c != '"' && c != '\'' && c != '>' }

  predicate ValidValue(v: Value) {
    match v
    case NoValue => true
    case Bare(before, after, text) =>
      Blank(before) && Blank(after) && text != "" && forall i :: 0 <= i < |text| ==> BareChar(text[i])
    case Quoted(before, after, quote, text) =>
      Blank(before) && Blank(after) && (quote == '"' || quote == '\'') && quote !in text
  }

  predicate ValidAttribute(a: Attribute) {
    && a.gap != "" && Blank(a.gap) && a.name != "" && (forall i :: 0 <= i < |a.name| ==> NameChar(a.name[i]))
    && ValidValue(a.value)
  }

  predicate ValidTag(t: Tag) {
    && t.name != "" && IsLetter(t.name[0]) && (forall i :: 0 <= i < |t.name| ==> IsWord(t.name[i]) || t.name[i] == '-')
    && (forall i :: 0 <= i < |t.attributes| ==> ValidAttribute(t.attributes[i])) && Blank(t.tail)
  }

  function ValueText(v: Value): string {
    match v
    case NoValue => ""
    case Bare(before, after, text) => before + ("=" + (after + text))
    case Quoted(before, after, quote, text) => before + ("=" + (after + ([quote] + (text + [quote]))))
  }

  function AttributeText(a: Attribute): string { a.gap + (a.name + ValueText(a.value)) }

  function AttributesText(attributes: seq<Attribute>): string {
    if attributes == [] then "" else AttributeText(attributes[0]) + AttributesText(attributes[1..])
  }

  function EndText(t: Tag): string { t.tail + (if t.selfClosing then "/>" else ">") }

  function TagText(t: Tag): string {
    "<" + ((if t.closing then "/" else "") + (t.name + (AttributesText(t.attributes) + EndText(t))))
  }

  // ---- Reading the parts ----------------------------------------------------------------------

  /** Reading `u` takes the scanner from `m` to `m'`, still inside the tag. */
  predicate Through(m: Mode, u: string, m': Mode)
    decreases |u|
  {
    if u == "" then m == m'
    else !Next(m, u[0]).Done? && !Next(m, u[0]).Dead? && Through(Next(m, u[0]), u[1..], m')
  }

  lemma {:induction false} ReachThrough(m: Mode, u: string, m': Mode, r: string)
    requires Through(m, u, m') && Reach(m', r) > 0
    ensures Reach(m, u + r) == |u| + Reach(m', r)
    decreases |u|
  {
    hide Next;
    if u == "" {
      assert u + r == r;
    } else {
      ReachThrough(Next(m, u[0]), u[1..], m', r);
      assert (u + r)[1..] == u[1..] + r;
    }
  }

  lemma {:induction false} ThroughCat(m: Mode, u: string, m': Mode, v: string, m'': Mode)
    requires Through(m, u, m') && Through(m', v, m'')
    ensures Through(m, u + v, m'')
    decreases |u|
  {
    hide Next;
    if u == "" {
      assert u + v == v;
    } else {
      ThroughCat(Next(m, u[0]), u[1..], m', v, m'');
      assert (u + v)[1..] == u[1..] + v;
    }
  }

  lemma {:induction false} Stays(m: Mode, u: string)
    requires !m.Done? && !m.Dead? && forall i :: 0 <= i < |u| ==> Next(m, u[i]) == m
    ensures Through(m, u, m)
    decreases |u|
  {
    hide Next;
    if u != "" {
      Stays(m, u[1..]);
    }
  }

  /** The first character leads to `m'`, and the others keep it. */
  lemma EntersAndStays(m: Mode, u: string, m': Mode)
    requires u != "" && Next(m, u[0]) == m' && !m'.Done? && !m'.Dead?
    requires forall i :: 1 <= i < |u| ==> Next(m', u[i]) == m'
    ensures Through(m, u, m')
  {
    hide Next;
    Stays(m', u[1..]);
  }

  /** Where a name, an attribute or a value can end. */
  predicate AtEnd(m: Mode) { m.Name? || m.AttrName? || m.Unquoted? || m.AfterQuoted? }

  /** Between attributes. */
  predicate Between(m: Mode) { m.Space? || m.AfterName? }

  lemma GapIsRead(m: Mode, gap: string) returns (m': Mode)
    requires AtEnd(m) && gap != "" && Blank(gap)
    ensures Between(m') && Through(m, gap, m')
  {
    m' := if m.AttrName? then AfterName else Space;
    EntersAndStays(m, gap, m');
  }

  lemma NameIsRead(m: Mode, name: string)
    requires Between(m) && name != "" && forall i :: 0 <= i < |name| ==> NameChar(name[i])
    ensures Through(m, name, AttrName)
  {
    EntersAndStays(m, name, AttrName);
  }

  /** The blanks, the equals sign and the blanks in front of a value. */
  lemma EqualsIsRead(before: string, after: string)
    requires Blank(before) && Blank(after)
    ensures Through(AttrName, before + ("=" + after), BeforeValue)
  {
    var m := if before == "" then AttrName else AfterName;
    if before != "" {
      EntersAndStays(AttrName, before, AfterName);
    }
    Stays(BeforeValue, after);
    assert ("=" + after)[1..] == after;
    assert Through(m, "=" + after, BeforeValue);
    ThroughCat(AttrName, before, m, "=" + after, BeforeValue);
  }

  lemma QuotedIsRead(quote: char, text: string)
    requires (quote == '"' || quote == '\'') && quote !in text
    ensures Through(BeforeValue, [quote] + (text + [quote]), AfterQuoted)
  {
    var m := if quote == '"' then InDouble else InSingle;
    assert forall i :: 0 <= i < |text| ==> text[i] in text;
    Stays(m, text);
    assert Through(m, [quote], AfterQuoted);
    ThroughCat(m, text, m, [quote], AfterQuoted);
    assert ([quote] + (text + [quote]))[1..] == text + [quote];
  }

  lemma ValueIsRead(v: Value) returns (m: Mode)
    requires ValidValue(v)
    ensures AtEnd(m) && Through(AttrName, ValueText(v), m)
  {
    hide Through, Blank, Next;
    match v
    case NoValue =>
      m := AttrName;
      Stays(AttrName, "");
    case Bare(before, after, text) =>
      m := Unquoted;
      EqualsIsRead(before, after);
      BareIsRead(text);
      ThroughCat(AttrName, before + ("=" + after), BeforeValue, text, m);
      assert before + ("=" + after) + text == ValueText(v);
    case Quoted(before, after, quote, text) =>
      m := AfterQuoted;
      EqualsIsRead(before, after);
      QuotedIsRead(quote, text);
      ThroughCat(AttrName, before + ("=" + after), BeforeValue, [quote] + (text + [quote]), m);
      assert before + ("=" + after) + ([quote] + (text + [quote])) == ValueText(v);
  }

  lemma BareIsRead(text: string)
    requires text != "" && forall i :: 0 <= i < |text| ==> BareChar(text[i])
    ensures Through(BeforeValue, text, Unquoted)
  {
    EntersAndStays(BeforeValue, text, Unquoted);
  }

  lemma AttributeIsRead(m: Mode, a: Attribute) returns (m': Mode)
    requires AtEnd(m) && ValidAttribute(a)
    ensures AtEnd(m') && Through(m, AttributeText(a), m')
  {
    hide Through, Blank, Next, ValidValue, NameChar;
    var between := GapIsRead(m, a.gap);
    NameIsRead(between, a.name);
    m' := ValueIsRead(a.value);
    ThroughCat(between, a.name, AttrName, ValueText(a.value), m');
    ThroughCat(m, a.gap, between, a.name + ValueText(a.value), m');
  }

  lemma {:induction false} AttributesAreRead(m: Mode, attributes: seq<Attribute>) returns (m': Mode)
    requires AtEnd(m) && forall i :: 0 <= i < |attributes| ==> ValidAttribute(attributes[i])
    ensures AtEnd(m') && Through(m, AttributesText(attributes), m')
    decreases |attributes|
  {
    hide Next, ValidAttribute, AttributeText;
    if attributes == [] {
      m' := m;
    } else {
      var n := AttributeIsRead(m, attributes[0]);
      m' := AttributesAreRead(n, attributes[1..]);
      ThroughCat(m, AttributeText(attributes[0]), n, AttributesText(attributes[1..]), m');
    }
  }

  /** The blanks, the slash if there is one, and the '>'. */
  lemma EndIsReached(m: Mode, t: Tag, r: string)
    requires AtEnd(m) && Blank(t.tail)
    ensures Reach(m, EndText(t) + r) == |EndText(t)|
  {
    var m' := m;
    if t.tail != "" {
      m' := GapIsRead(m, t.tail);
    }
    var e := if t.selfClosing then "/>" else ">";
    LastChars(m', e, r);
    ReachThrough(m, t.tail, m', e + r);
    assert EndText(t) + r == t.tail + (e + r);
  }

  lemma LastChars(m: Mode, e: string, r: string)
    requires (AtEnd(m) || Between(m)) && (e == "/>" || e == ">")
    ensures Reach(m, e + r) == |e|
  {
    hide Next, Reach;
    if e == "/>" {
      assert ("/>" + r)[1..] == ">" + r;
      LastStep(m, '/', ">" + r);
      LastStep(if m.Unquoted? then Unquoted else Slash, '>', r);
      assert "/" + (">" + r) == "/>" + r;
    } else {
      LastStep(m, '>', r);
    }
  }

  lemma SlashIsNoSpace()
    ensures !IsSpace('/') && !IsSpace('>')
  {
  }

  lemma LastStep(m: Mode, c: char, r: string)
    requires c == '/' || c == '>'
    requires AtEnd(m) || Between(m) || (m.Slash? && c == '>')
    ensures var m' := if m.Unquoted? then Unquoted else Slash;
      Reach(m, [c] + r) == if c == '>' then 1 else if Reach(m', r) == 0 then 0 else 1 + Reach(m', r)
  {
    hide IsSpace;
    assert !IsSpace('/') && !IsSpace('>') by { SlashIsNoSpace(); }
    assert ([c] + r)[1..] == r && ([c] + r)[0] == c;
  }

  lemma RestIsReached(t: Tag, r: string)
    requires ValidTag(t)
    ensures Reach(Name, t.name[1..] + (AttributesText(t.attributes) + (EndText(t) + r))) ==
            |t.name| - 1 + |AttributesText(t.attributes)| + |EndText(t)|
  {
    hide Reach, EndText, ValidAttribute;
    Stays(Name, t.name[1..]);
    var m := AttributesAreRead(Name, t.attributes);
    EndIsReached(m, t, r);
    EndIsSome(t);
    ReachThrough(Name, AttributesText(t.attributes), m, EndText(t) + r);
    ReachThrough(Name, t.name[1..], Name, AttributesText(t.attributes) + (EndText(t) + r));
  }

  lemma EndIsSome(t: Tag)
    ensures |EndText(t)| > 0
  {
  }

  /** A tag is recognised whole, whatever follows it: in particular a '>' in a quoted value does not end it. */
  lemma TagIsWhole(t: Tag, r: string)
    requires ValidTag(t)
    ensures MatchTag(TagText(t) + r) == |TagText(t)|
  {
    hide Reach, AttributesText, EndText;
    var slash := if t.closing then "/" else "";
    var body := AttributesText(t.attributes) + (EndText(t) + r);
    var s := TagText(t) + r;
    FrontOf(t, s, slash, r);
    RestIsReached(t, r);
    EndIsSome(t);
  }

  lemma FrontOf(t: Tag, s: string, slash: string, r: string)
    requires ValidTag(t) && s == TagText(t) + r && slash == (if t.closing then "/" else "")
    ensures |s| > NameAt(s) == 1 + |slash| && s[0] == '<' && s[NameAt(s)] == t.name[0]
    ensures s[NameAt(s) + 1..] == t.name[1..] + (AttributesText(t.attributes) + (EndText(t) + r))
  {
    hide AttributesText, EndText, ValidAttribute;
    var rest := AttributesText(t.attributes) + (EndText(t) + r);
    assert s == ("<" + slash) + (t.name + rest);
    assert s[1 + |slash|] == t.name[0];
    assert t.name + rest == [t.name[0]] + (t.name[1..] + rest);
  }

  // ---- What the pass makes of it --------------------------------------------------------------

  predicate IsHeading(name: string) {
    |name| == 2 && (name[0] == 'h' || name[0] == 'H') && '1' <= name[1] <= '6'
  }

  /** One level down, with the letter as it was; h6 stays. */
  function DeeperName(name: string): string
    requires IsHeading(name)
  {
    match name[1]
    case '1' => [name[0], '2']
    case '2' => [name[0], '3']
    case '3' => [name[0], '4']
    case '4' => [name[0], '5']
    case _ => [name[0], '6']
  }

  /** What comes after a name does not belong to one. */
  lemma NameEnds(t: Tag)
    requires ValidTag(t)
    ensures var rest := AttributesText(t.attributes) + EndText(t);
      rest != "" && !IsWord(rest[0]) && rest[0] != '-' && !IsDigit(rest[0])
  {
    var rest := AttributesText(t.attributes) + EndText(t);
    if t.attributes != [] {
      assert ValidAttribute(t.attributes[0]);
      assert rest[0] == t.attributes[0].gap[0];
    } else if t.tail != "" {
      assert rest[0] == t.tail[0];
    }
  }

  lemma FrontOfTag(t: Tag)
    requires ValidTag(t)
    ensures var s, k := TagText(t), NameAt(TagText(t));
      k == (if t.closing then 2 else 1) && k < |s| && s[k] == t.name[0] &&
      s[k + 1..] == t.name[1..] + (AttributesText(t.attributes) + EndText(t))
  {
    hide AttributesText, EndText, ValidAttribute;
    FrontOf(t, TagText(t), if t.closing then "/" else "", "");
    assert TagText(t) + "" == TagText(t) && EndText(t) + "" == EndText(t);
  }

  lemma LevelOfTag(t: Tag)
    requires ValidTag(t)
    ensures Level(TagText(t)) == if IsHeading(t.name) then t.name[1] as nat - '0' as nat else 0
  {
    hide AttributesText, EndText, ValidAttribute, TagText, NameAt;
    var s, k := TagText(t), NameAt(TagText(t));
    var rest := AttributesText(t.attributes) + EndText(t);
    FrontOfTag(t);
    NameEnds(t);
    var u := t.name[1..] + rest;
    assert s[k + 1..] == u;
    assert s[k + 1] == u[0];
    if |t.name| == 1 {
      assert u[0] == rest[0];
    } else {
      assert u[0] == t.name[1] && |u| > 1 && s[k + 2] == u[1];
      assert u[1] == if |t.name| == 2 then rest[0] else t.name[2];
    }
  }

  lemma Renamed(t: Tag, name: string)
    requires ValidTag(t) && |t.name| == |name| == 2 && name[0] == t.name[0]
    ensures NameAt(TagText(t)) + 1 < |TagText(t)|
    ensures TagText(t)[NameAt(TagText(t)) + 1 := name[1]] == TagText(t.(name := name))
  {
    hide AttributesText, ValidAttribute;
    FrontOfTag(t);
    var rest := AttributesText(t.attributes) + EndText(t);
    var front := "<" + if t.closing then "/" else "";
    assert TagText(t) == front + (t.name + rest);
    assert EndText(t.(name := name)) == EndText(t);
    assert TagText(t.(name := name)) == front + (name + rest);
  }

  /** A heading is written one level deeper, opening or closing, with its attributes, its spacing and the case of its
      letter; any other tag stays; and the pass goes on behind it. */
  lemma HeadingIsDeeper(t: Tag, r: string)
    requires ValidTag(t)
    ensures ShiftContentHeadings(TagText(t) + r) ==
      TagText(if IsHeading(t.name) then t.(name := DeeperName(t.name)) else t) + ShiftContentHeadings(r)
  {
    hide TagText, MatchTag, Level, NameAt, ValidTag;
    var s := TagText(t) + r;
    TagIsWhole(t, r);
    TagIsSome(t);
    assert s[..|TagText(t)|] == TagText(t) && s[|TagText(t)|..] == r;
    LevelOfTag(t);
    if IsHeading(t.name) {
      Renamed(t, DeeperName(t.name));
    }
  }

  lemma TagIsSome(t: Tag)
    ensures TagText(t) != ""
  {
  }

  // ---- Both scanners agree --------------------------------------------------------------------

  /** The link scanner's quote state at a place inside a tag. */
  function QuoteOf(m: Mode): OpenTags.Quote {
    if m.InDouble? then OpenTags.Double else if m.InSingle? then OpenTags.Single else OpenTags.Plain
  }

  lemma {:induction false} ReachEndsTag(m: Mode, s: string)
    requires Reach(m, s) > 0
    ensures OpenTags.TagEnd(QuoteOf(m), s) == Reach(m, s) - 1
    decreases |s|
  {
    var m' := Next(m, s[0]);
    if !m'.Done? {
      ReachEndsTag(m', s[1..]);
      assert QuoteOf(m') == OpenTags.Step(QuoteOf(m), s[0]);
    }
  }

  /** A tag that the heading pass recognises ends at its first '>' outside quotes, as it does for the passes over
      links. */
  lemma TagEndsOutsideQuotes(s: string)
    requires MatchTag(s) > 0
    ensures var k := NameAt(s) + 1; k + OpenTags.TagEnd(OpenTags.Plain, s[k..]) == MatchTag(s) - 1
  {
    ReachEndsTag(Name, s[NameAt(s) + 1..]);
  }
}
