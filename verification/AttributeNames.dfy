/** Which attributes a link really has: its attribute text read as HTML reads it (section 13.2.5 of the HTML Living
    Standard), against the text search that the passes over links use (src/lib/markdown.ts:169-193). */
module AttributeNames {
  import opened JsText
  import opened OpenTags
  import opened LinkAttributes

  // ---- Reading attributes ---------------------------------------------------------------------

  /** Where a reader of attribute text is. A name is kept in lower case; `Ended` is past the end of the tag. */
  datatype Mode =
    | Between | Name(name: string) | AfterName(name: string) | BeforeValue | Unquoted | InDouble | InSingle | Ended

  predicate IsBlank(c: char) { c == ' ' || c == '\t' || c == '\n' || c == '\r' || c as int == 12 }

  function Next(m: Mode, c: char): Mode {
    if c == '>' && !m.InDouble? && !m.InSingle? then Ended
    else
    match m
    case Ended => Ended
    case Between => if IsBlank(c) || c == '/' then Between else Name([LowerChar(c)])
    case Name(n) =>
      if IsBlank(c) then AfterName(n)
      else if c == '/' then Between
      else if c == '=' then BeforeValue
      else Name(n + [LowerChar(c)])
    case AfterName(n) =>
      if IsBlank(c) then m
      else if c == '/' then Between
      else if c == '=' then BeforeValue
      else Name([LowerChar(c)])
    case BeforeValue =>
      if IsBlank(c) then BeforeValue
      else if c == '"' then InDouble
      else if c == '\'' then InSingle
      else Unquoted
    case Unquoted => if IsBlank(c) then Between else Unquoted
    case InDouble => if c == '"' then Between else InDouble
    case InSingle => if c == '\'' then Between else InSingle
  }

  function ModeAfter(m: Mode, s: string): Mode
    decreases |s|
  {
    if s == "" then m else ModeAfter(Next(m, s[0]), s[1..])
  }

  /** Reading stops inside a value, where one is due, or past the end of the tag: what comes next is no new
      attribute. */
  predicate IsOpen(m: Mode) { m.BeforeValue? || m.InDouble? || m.InSingle? || m.Ended? }

  predicate Names(m: Mode, key: string) { (m.Name? || m.AfterName?) && m.name == key }

  datatype Found = Absent | NoValue | Valued

  /** The first attribute named `key`; a later one of the same name does not count. */
  function Lookup(key: string, m: Mode, s: string): Found
    decreases |s|
  {
    if s == "" then if Names(m, key) then NoValue else Absent
    else if Names(m, key) && s[0] == '=' then Valued
    else if Names(m, key) && !IsBlank(s[0]) && (m.AfterName? || s[0] == '/' || s[0] == '>') then NoValue
    else Lookup(key, Next(m, s[0]), s[1..])
  }

  /** The link has the attribute, with a value. */
  predicate Carries(key: string, attrs: string) { Lookup(key, Between, attrs) == Valued }

  /** HTML reads the tag as a link: its name ends after the `a`. The passes also match a few tags whose name goes on
      with a character that only JavaScript counts as white space. */
  predicate IsLink(attrs: string) { attrs == "" || IsBlank(attrs[0]) }

  predicate AllCarry(key: string, tags: seq<string>) {
    tags == [] || ((IsLink(tags[0]) ==> Carries(key, tags[0])) && AllCarry(key, tags[1..]))
  }

  /** The presence test is met by some other text, so the pass leaves the link without the attribute. */
  predicate Masked(key: string, attrs: string) { HasKey(key, false, attrs) && !Carries(key, attrs) }

  /** The pass inserts, but the attribute is already there without a value, or the text inserted is read as part of the
      last attribute's value, or HTML has already ended the tag. */
  predicate Misplaced(key: string, attrs: string) {
    !HasKey(key, false, attrs) && !Carries(key, attrs) &&
    (Lookup(key, Between, attrs) == NoValue || IsOpen(ModeAfter(Between, attrs)))
  }

  // ---- Stretches of text ----------------------------------------------------------------------

  lemma {:induction false} NoEqualsNoValue(key: string, m: Mode, s: string)
    requires '=' !in s
    ensures Lookup(key, m, s) != Valued
    decreases |s|
  {
    if s != "" {
      assert s[0] in s && forall c :: c in s[1..] ==> c in s;
      NoEqualsNoValue(key, Next(m, s[0]), s[1..]);
    }
  }

  /** `u` keeps the reader in `m`, one of the modes inside a value. */
  predicate Stays(m: Mode, u: string) {
    u == "" || (Next(m, u[0]) == m && Stays(m, u[1..]))
  }

  lemma {:induction false} StaysThrough(key: string, m: Mode, u: string, v: string)
    requires Stays(m, u) && (m.Unquoted? || m.InDouble? || m.InSingle?)
    ensures Lookup(key, m, u + v) == Lookup(key, m, v) && ModeAfter(m, u) == m
  {
    if u == "" {
      assert u + v == v;
    } else {
      assert (u + v)[1..] == u[1..] + v;
      StaysThrough(key, m, u[1..], v);
    }
  }

  lemma {:induction false} StaysCat(m: Mode, u: string, v: string)
    requires Stays(m, u) && Stays(m, v)
    ensures Stays(m, u + v)
  {
    if u == "" {
      assert u + v == v;
    } else {
      assert (u + v)[1..] == u[1..] + v;
      StaysCat(m, u[1..], v);
    }
  }

  lemma {:induction false} LettersStay(m: Mode, u: string)
    requires m.Unquoted? || m.InDouble? || m.InSingle?
    requires forall i :: 0 <= i < |u| ==> 'a' <= u[i] <= 'z'
    ensures Stays(m, u)
  {
    if u != "" {
      LettersStay(m, u[1..]);
    }
  }

  lemma {:induction false} QuietStays(u: string)
    requires Quiet(u)
    ensures Stays(InSingle, u)
  {
    if u != "" {
      assert u[0] in u && forall c :: c in u[1..] ==> c in u;
      QuietStays(u[1..]);
    }
  }

  /** Letter by letter to the end of the name, and then its '='. */
  lemma {:induction false} ReadsName(key: KeyText, u: string, v: string, w: string)
    requires key == u + v && u != ""
    ensures Lookup(key, Name(u), v + ("=" + w)) == Valued
    decreases |v|
  {
    var s := v + ("=" + w);
    if v == "" {
      assert s == "=" + w && u == key;
    } else {
      assert v[0] == key[|u|];
      assert s[1..] == v[1..] + ("=" + w);
      assert key == (u + [v[0]]) + v[1..];
      ReadsName(key, u + [v[0]], v[1..], w);
    }
  }

  lemma Read(key: string, m: Mode, c: char, rest: string)
    requires !Names(m, key)
    ensures Lookup(key, m, [c] + rest) == Lookup(key, Next(m, c), rest)
    ensures ModeAfter(m, [c] + rest) == ModeAfter(Next(m, c), rest)
  {
    assert ([c] + rest)[1..] == rest;
  }

  // ---- The inserted text ----------------------------------------------------------------------

  lemma InsertionIs(a: Attr) returns (c: char, v: string, w: string)
    ensures a.key == [c] + v && w == "\"" + (a.value + "\"") && 'a' <= c <= 'z'
    ensures Insertion(a) == [' '] + ([c] + (v + ("=" + w)))
  {
    c, v, w := a.key[0], a.key[1..], "\"" + (a.value + "\"");
    assert "=\"" + (a.value + "\"") == "=" + w;
    assert a.key + ("=" + w) == [c] + (v + ("=" + w));
  }

  lemma StartsName(m: Mode, c: char, key: string)
    requires !IsOpen(m) && !Names(m, key) && 'a' <= c <= 'z'
    ensures Next(Next(m, ' '), c) == Name([c]) && !Names(Next(m, ' '), key)
  {
  }

  /** Read where no value is open and the name is not already there, it is the attribute. */
  lemma InsertionRead(a: Attr, m: Mode)
    requires !IsOpen(m) && !Names(m, a.key)
    ensures Lookup(a.key, m, Insertion(a)) == Valued
  {
    hide *;
    var c, v, w := InsertionIs(a);
    StartsName(m, c, a.key);
    ReadsName(a.key, [c], v, w);
    Read(a.key, m, ' ', [c] + (v + ("=" + w)));
    Read(a.key, Next(m, ' '), c, v + ("=" + w));
  }

  lemma {:induction false} EndedStays(key: string, s: string)
    ensures Lookup(key, Ended, s) == Absent
    decreases |s|
  {
    if s != "" {
      EndedStays(key, s[1..]);
    }
  }

  /** Read inside a value, or past the end of the tag, it is not. */
  lemma InsertionSwallowed(a: Attr, m: Mode)
    requires IsOpen(m)
    ensures Lookup(a.key, m, Insertion(a)) != Valued
  {
    var tail := a.value + "\"";
    NoEqualsTail(a.value);
    match m
    case BeforeValue =>
      SwallowedUnquoted(a, tail);
    case InDouble =>
      var u := " " + (a.key + "=");
      LettersStay(InDouble, a.key);
      assert "="[1..] == "" && " "[1..] == "";
      StaysCat(InDouble, a.key, "=");
      StaysCat(InDouble, " ", a.key + "=");
      assert Insertion(a) == u + ("\"" + tail);
      StaysThrough(a.key, InDouble, u, "\"" + tail);
      NoEqualsNoValue(a.key, InDouble, "\"" + tail);
    case InSingle =>
      SwallowedSingle(a, tail);
    case Ended =>
      EndedStays(a.key, Insertion(a));
  }

  lemma NoEqualsTail(value: QuietText)
    ensures '=' !in value + "\"" && '=' !in "\"" + (value + "\"")
  {
  }

  lemma SwallowedUnquoted(a: Attr, tail: string)
    requires tail == a.value + "\"" && '=' !in tail
    ensures Lookup(a.key, BeforeValue, Insertion(a)) != Valued
  {
    hide Lookup, Quiet;
    var c, v, w := InsertionIs(a);
    var u := v + "=\"";
    assert v == a.key[1..];
    TailOfName(a.key, v);
    StaysThrough(a.key, Unquoted, u, tail);
    NoEqualsNoValue(a.key, Unquoted, tail);
    Read(a.key, BeforeValue, ' ', [c] + (u + tail));
    Read(a.key, BeforeValue, c, u + tail);
    assert v + ("=" + w) == u + tail;
  }

  lemma TailOfName(key: KeyText, v: string)
    requires v == key[1..]
    ensures Stays(Unquoted, v + "=\"")
  {
    LettersStay(Unquoted, v);
    assert "=\""[1..] == "\"" && "\""[1..] == "";
    StaysCat(Unquoted, v, "=\"");
  }

  lemma SwallowedSingle(a: Attr, tail: string)
    requires tail == a.value + "\""
    ensures Lookup(a.key, InSingle, Insertion(a)) != Valued
  {
    assert "=\""[1..] == "\"" && "\""[1..] == "" && " "[1..] == "";
    LettersStay(InSingle, a.key);
    QuietStays(a.value);
    StaysCat(InSingle, a.value, "\"");
    StaysCat(InSingle, "=\"", tail);
    StaysCat(InSingle, a.key, "=\"" + tail);
    StaysCat(InSingle, " ", a.key + ("=\"" + tail));
    StaysThrough(a.key, InSingle, Insertion(a), "");
    assert Insertion(a) + "" == Insertion(a);
  }

  /** A name still being read when the tag ends is settled, without a value, by what is inserted. */
  lemma PendingSettles(a: Attr, m: Mode)
    requires Names(m, a.key)
    ensures Lookup(a.key, m, Insertion(a)) == NoValue
  {
    var rest := a.key + ("=\"" + (a.value + "\""));
    assert Insertion(a) == " " + rest;
    assert (" " + rest)[1..] == rest && rest[0] == a.key[0];
    assert Next(m, ' ') == AfterName(a.key);
  }

  lemma {:induction false} LookupInserted(a: Attr, m: Mode, s: string)
    ensures Lookup(a.key, m, s + Insertion(a)) ==
      if Lookup(a.key, m, s) == Absent then Lookup(a.key, ModeAfter(m, s), Insertion(a)) else Lookup(a.key, m, s)
    decreases |s|
  {
    var r := Insertion(a);
    if s == "" {
      assert s + r == r;
      if Names(m, a.key) {
        PendingSettles(a, m);
      }
    } else {
      assert (s + r)[1..] == s[1..] + r;
      LookupInserted(a, Next(m, s[0]), s[1..]);
    }
  }

  lemma {:induction false} PendingIsNoValue(key: string, m: Mode, s: string)
    requires Lookup(key, m, s) == Absent
    ensures !Names(ModeAfter(m, s), key)
    decreases |s|
  {
    if s != "" {
      PendingIsNoValue(key, Next(m, s[0]), s[1..]);
    }
  }

  // ---- Exactly which links end up with the attribute ------------------------------------------

  lemma EnsuredIff(a: Attr, attrs: string)
    ensures Carries(a.key, EnsureAttrs(a, attrs)) <==> !Masked(a.key, attrs) && !Misplaced(a.key, attrs)
  {
    hide Lookup, HasKey, ModeAfter;
    if !HasKey(a.key, false, attrs) {
      LookupInserted(a, Between, attrs);
      if Lookup(a.key, Between, attrs) == Absent {
        PendingIsNoValue(a.key, Between, attrs);
        var m := ModeAfter(Between, attrs);
        if IsOpen(m) {
          InsertionSwallowed(a, m);
        } else {
          InsertionRead(a, m);
        }
      }
    }
  }

  lemma LinkStays(a: Attr, attrs: string)
    ensures IsLink(EnsureAttrs(a, attrs)) <==> IsLink(attrs)
  {
    hide HasKey;
    if attrs == "" {
      assert ("" + Insertion(a))[0] == ' ';
    } else {
      assert (attrs + Insertion(a))[0] == attrs[0];
    }
  }

  lemma {:induction false} EnsureAllIff(a: Attr, tags: seq<string>)
    ensures AllCarry(a.key, EnsureAll(a, tags)) <==>
      forall t :: t in tags && IsLink(t) ==> !Masked(a.key, t) && !Misplaced(a.key, t)
  {
    hide Carries, Masked, Misplaced, EnsureAttrs, IsLink;
    if tags != [] {
      var t := tags[0];
      EnsuredIff(a, t);
      LinkStays(a, t);
      EnsureAllIff(a, tags[1..]);
      assert EnsureAll(a, tags)[1..] == EnsureAll(a, tags[1..]) && EnsureAll(a, tags)[0] == EnsureAttrs(a, t);
      assert forall u :: u in tags <==> u == t || u in tags[1..];
    }
  }

  /** The source comments promise that every surviving link has the attribute. Every recognised link of the output has
      it exactly when no recognised link of the input meets the presence test by other text, has the bare name, ends in
      an open value, or ends earlier in HTML than in the scanner. */
  lemma AttributeEnsuredIff(a: Attr, html: string)
    ensures AllCarry(a.key, Tags(Rewrite(a, html))) <==>
      forall t :: t in Tags(html) && IsLink(t) ==> !Masked(a.key, t) && !Misplaced(a.key, t)
  {
    hide AllCarry, Masked, Misplaced;
    TagsOfRewrite(a, html);
    EnsureAllIff(a, Tags(html));
  }

  // ---- Such links exist -----------------------------------------------------------------------

  lemma HeadRead(key: string, rest: string)
    requires key != "h"
    ensures Lookup(key, Between, " h=" + rest) == Lookup(key, BeforeValue, rest)
    ensures ModeAfter(Between, " h=" + rest) == ModeAfter(BeforeValue, rest)
  {
    hide Lookup, ModeAfter;
    Read(key, Between, ' ', "h=" + rest);
    Read(key, Between, 'h', "=" + rest);
    Read(key, Name("h"), '=', rest);
    assert " h=" + rest == [' '] + ("h=" + rest) && "h=" + rest == ['h'] + ("=" + rest) && "=" + rest == ['='] + rest;
  }

  lemma KeyAfter(key: KeyText, head: string, w: string)
    requires head != "" && !IsWord(head[|head| - 1])
    ensures HasKey(key, false, head + (key + ("=" + w)))
  {
    KeyFound(key, "=" + w);
    KeyInside(key, false, head, key + ("=" + w));
  }

  lemma QuotedRead(key: KeyText)
    ensures Lookup(key, BeforeValue, "\"?" + (key + "=\"")) == Absent
  {
    var rest := "?" + (key + "=");
    LettersStay(InDouble, key);
    assert "?"[1..] == "" && "="[1..] == "" && "\""[1..] == "";
    StaysCat(InDouble, key, "=");
    StaysCat(InDouble, "?", key + "=");
    StaysThrough(key, InDouble, rest, "\"");
    Read(key, BeforeValue, '"', rest + "\"");
    assert "\"?" + (key + "=\"") == ['"'] + (rest + "\"");
  }

  /** A query string inside a quoted value is taken for the attribute. */
  lemma QuotedMasks(key: KeyText)
    requires key != "h"
    ensures Masked(key, " h=\"?" + (key + "=\""))
  {
    hide Lookup, HasKey;
    var value := "\"?" + (key + "=\"");
    QuotedRead(key);
    HeadRead(key, value);
    KeyAfter(key, " h=\"?", "\"");
    assert " h=\"?" + (key + "=\"") == " h=" + value;
    assert "=" + "\"" == "=\"";
  }

  /** So is one inside an unquoted value. */
  lemma UnquotedMasks(key: KeyText)
    requires key != "h"
    ensures Masked(key, " h=?" + (key + "=1"))
  {
    LettersStay(Unquoted, key);
    assert "=1"[1..] == "1" && "1"[1..] == "";
    StaysCat(Unquoted, key, "=1");
    var value := "?" + (key + "=1");
    StaysThrough(key, Unquoted, key + "=1", "");
    assert (key + "=1") + "" == key + "=1" && value[1..] == key + "=1";
    HeadRead(key, value);
    KeyAfter(key, " h=?", "1");
    assert " h=?" + (key + "=1") == " h=" + value;
    assert "=" + "1" == "=1";
  }

  lemma {:induction false} ReadsOther(key: KeyText, n: string, v: string, w: string)
    requires '-' in n && forall i :: 0 <= i < |v| ==> 'a' <= v[i] <= 'z'
    ensures Lookup(key, Name(n), v + w) == Lookup(key, Name(n + v), w)
    decreases |v|
  {
    assert '-' !in key;
    if v == "" {
      assert v + w == w && n + v == n;
    } else {
      assert (v + w)[1..] == v[1..] + w;
      assert n + v == (n + [v[0]]) + v[1..];
      ReadsOther(key, n + [v[0]], v[1..], w);
    }
  }

  /** So is another attribute whose name ends in a hyphen and this one. */
  lemma PrefixedMasks(key: KeyText)
    ensures Masked(key, " x-" + (key + "=1"))
  {
    var rest := key + "=1";
    ReadsOther(key, "x-", key, "=1");
    var other := "x-" + key;
    assert other != key by { assert '-' in other && '-' !in key; }
    assert "=1"[1..] == "1" && "1"[1..] == "";
    assert Lookup(key, Name(other), "=1") == Absent;
    PrefixRead(key, rest);
    KeyAfter(key, " x-", "1");
    assert "=" + "1" == "=1";
  }

  lemma PrefixRead(key: KeyText, rest: string)
    ensures Lookup(key, Between, " x-" + rest) == Lookup(key, Name("x-"), rest)
  {
    var u := "-" + rest;
    Read(key, Between, ' ', "x" + u);
    Read(key, Between, 'x', u);
    assert " x-" + rest == [' '] + ("x" + u) && "x" + u == ['x'] + u;
    assert u[1..] == rest && "x" + "-" == "x-";
    assert Next(Name("x"), '-') == Name("x-");
  }

  lemma {:induction false} NoEqualsNoKey(key: string, afterWord: bool, s: string)
    requires '=' !in s
    ensures !HasKey(key, afterWord, s)
    decreases |s|
  {
    if s != "" {
      assert forall c :: c in s[1..] ==> c in s;
      NoEqualsNoKey(key, IsWord(s[0]), s[1..]);
      if StartsCi(key, s) {
        TrimStartIs(s[|key|..]);
        assert forall c :: c in s[|key|..] ==> c in s;
      }
    }
  }

  lemma {:induction false} ReadsBareName(key: KeyText, u: string, v: string)
    requires key == u + v && u != ""
    ensures Lookup(key, Name(u), v) == NoValue
    decreases |v|
  {
    if v == "" {
      assert u == key;
    } else {
      assert v[0] == key[|u|];
      assert key == (u + [v[0]]) + v[1..];
      ReadsBareName(key, u + [v[0]], v[1..]);
    }
  }

  /** The bare name is not seen by the test, but what is then inserted is a second attribute of that name. */
  lemma BareNameMisplaces(key: KeyText)
    ensures Misplaced(key, " " + key)
  {
    var attrs := " " + key;
    assert attrs[1..] == key && key == [key[0]] + key[1..];
    ReadsBareName(key, [key[0]], key[1..]);
    assert Lookup(key, Between, key) == Lookup(key, Name([key[0]]), key[1..]);
    NoEqualsNoKey(key, false, attrs);
  }

  /** A name with a quote in it, and then what HTML reads as the end of the tag. */
  const EARLY_END := " x\"y>z\""

  /** A quote that is not part of a value keeps the scanner past the '>' that ends the tag in HTML. */
  lemma EarlyEndMisplaces(key: KeyText)
    ensures Misplaced(key, EARLY_END)
  {
    hide HasKey, Lookup, ModeAfter;
    NoEqualsNoKey(key, false, EARLY_END);
    NoEqualsNoValue(key, Between, EARLY_END);
    EndsEarly();
  }

  lemma EndsEarly()
    ensures ModeAfter(Between, EARLY_END) == Ended
  {
    hide ModeAfter;
    assert "x" + "\"" == "x\"" && "x\"" + "y" == "x\"y";
    Steps(Between, EARLY_END, Between, "x\"y>z\"");
    Steps(Between, "x\"y>z\"", Name("x"), "\"y>z\"");
    Steps(Name("x"), "\"y>z\"", Name("x\""), "y>z\"");
    Steps(Name("x\""), "y>z\"", Name("x\"y"), ">z\"");
    EndsAt(Name("x\"y"), ">z\"");
  }

  lemma Steps(m: Mode, s: string, next: Mode, rest: string)
    requires s != "" && s[1..] == rest && Next(m, s[0]) == next
    ensures ModeAfter(m, s) == ModeAfter(next, rest)
  {
  }

  lemma EndsAt(m: Mode, s: string)
    requires !m.InDouble? && !m.InSingle? && s != "" && s[0] == '>'
    ensures ModeAfter(m, s) == Ended
  {
    EndedForGood(s[1..]);
  }

  lemma {:induction false} EndedForGood(s: string)
    ensures ModeAfter(Ended, s) == Ended
  {
    if s != "" {
      EndedForGood(s[1..]);
    }
  }

  /** After an '=' with no value, what is inserted becomes that value. */
  lemma DanglingMisplaces(key: KeyText)
    requires key != "h"
    ensures Misplaced(key, " h=")
  {
    HeadRead(key, "");
    var attrs := " h=" + "";
    assert attrs == " h=";
    assert attrs[1..] == "h=" && attrs[1..][1..] == "=" && attrs[1..][1..][1..] == "";
    if |key| > 1 {
      assert key[1..][0] == key[1];
    } else {
      assert key == [key[0]];
    }
    assert !KeyAt(key, "h=");
  }
}
