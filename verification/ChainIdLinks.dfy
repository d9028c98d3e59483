/** Where the link of each kind of id leads and how it reads, spelled out; which lengths are ids; and which elements
    keep their content as it is. */
module ChainIdLinks {
  import opened JsText
  import opened ChainIds
  import opened ChainIdTokens
  import opened ChainIdsTwice
  import opened ChainIdNeighbours
  import opened ChainIdPieces
  import opened ChainIdPages

  // ---- One id, one link -----------------------------------------------------------------------

  /** The link shown for `id`: its first fourteen characters, three dots and its last six. */
  function Anchor(href: string, rel: string, id: string): string
    requires |id| >= 14
  {
    "<a class=\"chainid\" href=\"" + href + "\" rel=\"" + rel + "\" title=\"" + id + "\">" +
    id[..14] + "..." + id[|id| - 6..] + "</a>"
  }

  /** The pass takes the whole text for one id. */
  predicate IsOneId(s: string) { Pieces(Boundary, s, 0) == [Chipped(s)] }

  /** The text is one id, and is shown as this link. */
  predicate LinksTo(s: string, href: string, rel: string) {
    |s| >= 14 && Linkify(s) == Anchor(href, rel, Lower(s))
  }

  lemma SpelledOut(open: string, href: string, rel: string, title: string, id: string, text: string)
    ensures (open + (href + ("\" rel=\"" + (rel + ("\" title=\"" + id))))) + "\">" + (text + "</a>") ==
            open + href + "\" rel=\"" + rel + "\" title=\"" + id + "\">" + text + "</a>"
  {
  }

  lemma ChipIsAnchor(t: Target, id: string)
    requires |id| >= 14
    ensures ChipOpen(t, id) + (Shorten(id) + CLOSE_MARK) == Anchor(Href(t), Rel(t), id)
  {
    hide Href, Rel;
    SpelledOut(OPEN_MARK, Href(t), Rel(t), id, id, Shorten(id));
    var head := "<a class=\"chainid\" href=\"" + Href(t) + "\" rel=\"" + Rel(t) + "\" title=\"" + id + "\">";
    assert head + (id[..14] + "..." + id[|id| - 6..]) + "</a>" == head + id[..14] + "..." + id[|id| - 6..] + "</a>";
  }

  /** The text starts with an id of length `n`, or with none where that is zero. */
  predicate FirstIdIs(s: string, n: nat) {
    s != "" && n <= |s| && Pieces(Boundary, s, 0)[0] == if n > 0 then Chipped(s[..n]) else Kept(s[..1])
  }

  /** A text that is not empty and has no tag in it is one id exactly when the first match takes all of it. */
  lemma OneIdIff(s: string)
    requires s != "" && TagLen(s) == 0
    ensures IsOneId(s) <==> MatchId(Boundary, s) == |s|
    ensures FirstIdIs(s, MatchId(Boundary, s))
  {
    hide MatchId;
    var n := MatchId(Boundary, s);
    var e := EmitText(Boundary, s, 0);
    assert Pieces(Boundary, s, 0)[0] == PieceOf(Boundary, s, 0);
    if n == |s| {
      assert s[..n] == s && s[n..] == "";
      assert Pieces(Boundary, s, 0) == [Chipped(s)] + [];
    }
  }

  lemma OneIsFirst(s: string)
    requires IsOneId(s) && s != ""
    ensures FirstIdIs(s, |s|)
  {
    hide Pieces;
    assert s[..|s|] == s;
  }

  lemma OneIdLinks(s: string, t: Target)
    requires IsOneId(s) && ChainIdTarget(Lower(s)) == Some(t) && |s| >= 14
    ensures LinksTo(s, Href(t), Rel(t))
  {
    hide ChainIdTarget, Href, Rel, Link, Anchor, Pieces;
    LinkIsPiecewise(Boundary, s, 0);
    OneRendered(s);
    ChipIsAnchor(t, Lower(s));
  }

  lemma OneRendered(s: string)
    requires AllLinkable([Chipped(s)])
    ensures Linkable(s) && Render([Chipped(s)]) == RenderChip(s)
  {
    hide RenderChip, Linkable;
    assert [Chipped(s)][1..] == [];
    assert RenderChip(s) + "" == RenderChip(s);
  }

  // ---- The five bech32 forms ------------------------------------------------------------------

  lemma NoTagAtLetter(s: string)
    requires s != "" && IsAlnum(s[0])
    ensures TagLen(s) == 0
  {
  }

  /** No other form's prefix starts a text with this prefix. */
  predicate OnlyForm(i: nat, s: string) {
    i < |BECH32_FORMS| && forall j :: 0 <= j < |BECH32_FORMS| && j != i ==> !StartsCi(BECH32_FORMS[j].prefix, s)
  }

  lemma {:induction false} FormsAt(fs: seq<Form>, i: nat, s: string)
    requires i < |fs| && forall j :: 0 <= j < |fs| && j != i ==> !StartsCi(fs[j].prefix, s)
    ensures MatchForms(fs, s) == MatchForm(fs[i], s)
  {
    if i == 0 {
      if MatchForm(fs[0], s) == 0 {
        forall f | f in fs[1..] ensures MatchForm(f, s) == 0 {
          var j :| 0 <= j < |fs[1..]| && fs[1..][j] == f;
          assert fs[1 + j] == f;
        }
        NoForm(fs[1..], s);
      }
    } else {
      assert MatchForm(fs[0], s) == 0;
      FormsAt(fs[1..], i - 1, s);
    }
  }

  /** A prefix followed by nothing but letters and digits, whole. */
  lemma FormMatches(f: Form, s: string)
    requires StartsCi(f.prefix, s) && All(IsAlnum, s[|f.prefix|..])
    ensures MatchForm(f, s) == |s| <==> f.lo <= |s| - |f.prefix| <= f.hi
    ensures |s| - |f.prefix| < f.lo ==> MatchForm(f, s) == 0
    ensures |s| - |f.prefix| > f.hi ==> MatchForm(f, s) == if f.closed then 0 else |f.prefix| + f.hi
  {
  }

  lemma OnlyFormMatches(i: nat, f: Form, s: string)
    requires OnlyForm(i, s) && f == BECH32_FORMS[i] && Run(IsHex, s) < 10
    ensures MatchId(Boundary, s) == MatchForm(f, s)
  {
    hide MatchForm, StartsCi, MatchForms, Run;
    FormsAt(BECH32_FORMS, i, s);
  }

  lemma OneForm(i: nat, f: Form, s: string)
    requires OnlyForm(i, s) && f == BECH32_FORMS[i] && StartsCi(f.prefix, s) && All(IsAlnum, s[|f.prefix|..])
    requires Run(IsHex, s) < 10 && IsAlnum(s[0])
    ensures var n := |s| - |f.prefix|;
      && (IsOneId(s) <==> f.lo <= n <= f.hi) && (n < f.lo ==> FirstIdIs(s, 0))
      && (n > f.hi ==> FirstIdIs(s, if f.closed then 0 else |f.prefix| + f.hi))
  {
    hide *;
    NoTagAtLetter(s);
    OneIdIff(s);
    OnlyFormMatches(i, f, s);
    FormMatches(f, s);
  }

  lemma {:induction false} StartsAt(prefix: string, s: string, k: nat)
    requires StartsCi(prefix, s) && k < |prefix|
    ensures LowerChar(s[k]) == prefix[k]
  {
    if k > 0 {
      StartsAt(prefix[1..], s[1..], k - 1);
    }
  }

  lemma {:induction false} RunStops(p: char -> bool, s: string, k: nat)
    requires k < |s| && !p(s[k])
    ensures Run(p, s) <= k
  {
    if k > 0 {
      RunStops(p, s[1..], k - 1);
    }
  }

  /** An id with this prefix, which has a character at `k` that is no hex digit, is no hex id. */
  lemma NotHex(prefix: string, id: string, k: nat)
    requires prefix < id && k < |prefix| && k < 10 && !LowerHex(prefix[k])
    ensures !All(LowerHex, id) && !IsHashIndex(id)
  {
    assert id[k] == prefix[k];
    RunStops(LowerHex, id, k);
    if |id| >= 64 {
      assert id[..64][k] == id[k];
      RunStops(LowerHex, id[..64], k);
    }
  }

  lemma NotPrefixed(prefix: string, id: string, k: nat)
    requires k < |prefix| && k < |id| && id[k] != prefix[k]
    ensures !PrefixThenAlnum(prefix, id)
  {
  }

  /** A text with this prefix of form `i`, and then letters and digits only, has no other form's prefix. */
  predicate Shaped(i: nat, s: string) {
    OnlyForm(i, s) && StartsCi(BECH32_FORMS[i].prefix, s) && All(IsAlnum, s[|BECH32_FORMS[i].prefix|..])
  }

  lemma ShapedTarget(i: nat, s: string)
    requires Shaped(i, s) && IsOneId(s) && Run(IsHex, s) < 10 && IsAlnum(s[0])
    ensures |s| >= 50 && PrefixThenAlnum(BECH32_FORMS[i].prefix, Lower(s))
  {
    hide MatchForm, StartsCi, PrefixThenAlnum, IsOneId, MatchForms, MatchHex, Run;
    NoTagAtLetter(s);
    OneIdIff(s);
    FormsAt(BECH32_FORMS, i, s);
    NoHexForm(s);
    FormShapeOf(BECH32_FORMS[i], s);
    assert s[..|s|] == s;
  }

  lemma NoHexForm(s: string)
    requires Run(IsHex, s) < 10
    ensures MatchHex(s) == 0
  {
  }

  lemma HexAt(s: string, k: nat, c: char)
    requires k < |s| && k < 10 && LowerChar(s[k]) == c && !LowerHex(c)
    ensures Run(IsHex, s) < 10
  {
    RunStops(IsHex, s, k);
  }

  lemma Prefixes()
    ensures |BECH32_FORMS| == 5
    ensures BECH32_FORMS[0].prefix == "gov_action1" && BECH32_FORMS[1].prefix == "drep_script1"
    ensures BECH32_FORMS[2].prefix == "drep1" && BECH32_FORMS[3].prefix == "addr_test1"
    ensures BECH32_FORMS[4].prefix == "addr1"
  {
  }

  /** Two prefixes that differ at `k` do not both start a text. */
  lemma Apart(prefix: string, other: string, s: string, k: nat)
    requires StartsCi(prefix, s) && k < |prefix| && k < |other| && prefix[k] != other[k]
    ensures !StartsCi(other, s)
  {
    StartsAt(prefix, s, k);
    StartsUnlike(other, s, k);
  }

  /** A governance action id is linked to its page, at exactly seventy characters; of a longer text the first seventy
      are. */
  lemma ActionIdLinks(s: string)
    requires StartsCi("gov_action1", s) && All(IsAlnum, s[11..])
    ensures IsOneId(s) <==> |s| == 70
    ensures |s| == 70 ==> LinksTo(s, "/ga/" + Lower(s) + "/", "noopener")
    ensures FirstIdIs(s, if |s| < 70 then 0 else 70)
  {
    hide FirstIdIs, StartsCi, Run, IsOneId, LinksTo, MatchForms;
    Prefixes();
    var p := "gov_action1";
    Apart(p, "drep_script1", s, 0);
    Apart(p, "drep1", s, 0);
    Apart(p, "addr_test1", s, 0);
    Apart(p, "addr1", s, 0);
    StartsAt(p, s, 0);
    HexAt(s, 0, 'g');
    OneForm(0, BECH32_FORMS[0], s);
    if |s| == 70 {
      OneIsFirst(s);
      ShapedTarget(0, s);
      OneIdLinks(s, GovAction(Lower(s)));
    }
  }

  lemma DRepTarget(p: string, id: string)
    requires p in ["drep1", "drep_script1"] && PrefixThenAlnum(p, id)
    ensures ChainIdTarget(id) == Some(DRep(id))
  {
    NotHex(p, id, 1);
    assert id[0] == p[0];
    NotPrefixed("gov_action1", id, 0);
  }

  /** So is a script DRep, at fifty-seven to seventy-two characters; a longer or shorter text starts with no id. */
  lemma DRepScriptLinks(s: string)
    requires StartsCi("drep_script1", s) && All(IsAlnum, s[12..])
    ensures IsOneId(s) <==> 57 <= |s| <= 72
    ensures IsOneId(s) ==> LinksTo(s, "/dreps/" + Lower(s) + "/", "noopener")
    ensures !IsOneId(s) ==> FirstIdIs(s, 0)
  {
    hide FirstIdIs, StartsCi, Run, IsOneId, LinksTo, MatchForms, PrefixThenAlnum;
    Prefixes();
    var p := "drep_script1";
    Apart(p, "gov_action1", s, 0);
    Apart(p, "drep1", s, 4);
    Apart(p, "addr_test1", s, 0);
    Apart(p, "addr1", s, 0);
    StartsAt(p, s, 0);
    StartsAt(p, s, 1);
    HexAt(s, 1, 'r');
    OneForm(1, BECH32_FORMS[1], s);
    if IsOneId(s) {
      ShapedTarget(1, s);
      DRepTarget(p, Lower(s));
      OneIdLinks(s, DRep(Lower(s)));
    }
  }

  /** And a DRep, at fifty to sixty-five. */
  lemma DRepLinks(s: string)
    requires StartsCi("drep1", s) && All(IsAlnum, s[5..])
    ensures IsOneId(s) <==> 50 <= |s| <= 65
    ensures IsOneId(s) ==> LinksTo(s, "/dreps/" + Lower(s) + "/", "noopener")
    ensures !IsOneId(s) ==> FirstIdIs(s, 0)
  {
    hide FirstIdIs, StartsCi, Run, IsOneId, LinksTo, MatchForms, PrefixThenAlnum;
    Prefixes();
    var p := "drep1";
    Apart(p, "gov_action1", s, 0);
    Apart(p, "drep_script1", s, 4);
    Apart(p, "addr_test1", s, 0);
    Apart(p, "addr1", s, 0);
    StartsAt(p, s, 0);
    StartsAt(p, s, 1);
    HexAt(s, 1, 'r');
    OneForm(2, BECH32_FORMS[2], s);
    if IsOneId(s) {
      ShapedTarget(2, s);
      DRepTarget(p, Lower(s));
      OneIdLinks(s, DRep(Lower(s)));
    }
  }

  lemma AddressTarget(p: string, id: string)
    requires p in ["addr1", "addr_test1"] && PrefixThenAlnum(p, id)
    ensures ChainIdTarget(id) == Some(Address(id, p == "addr_test1"))
  {
    NotHex(p, id, 3);
    assert id[0] == p[0] && id[4] == p[4];
    NotPrefixed("gov_action1", id, 0);
    NotPrefixed("drep1", id, 0);
    NotPrefixed("drep_script1", id, 0);
    if p == "addr1" {
      NotPrefixed("addr_test1", id, 4);
    }
  }

  lemma AddressHref(id: string)
    ensures Href(Address(id, false)) == "https://explorer.cardano.org/address/" + id
    ensures Href(Address(id, true)) == "https://explorer.cardano.org/preprod/address/" + id
  {
    hide EXPLORER;
    ExplorerPaths();
    assert EXPLORER + "" == EXPLORER;
  }

  lemma ExplorerPaths()
    ensures EXPLORER + "address/" == "https://explorer.cardano.org/address/"
    ensures EXPLORER + "preprod/" + "address/" == "https://explorer.cardano.org/preprod/address/"
  {
  }

  /** A mainnet address is linked to the explorer. */
  lemma AddressLinks(s: string)
    requires StartsCi("addr1", s) && All(IsAlnum, s[5..])
    ensures IsOneId(s) <==> 55 <= |s| <= 115
    ensures IsOneId(s) ==>
      LinksTo(s, "https://explorer.cardano.org/address/" + Lower(s), "noopener noreferrer nofollow")
    ensures !IsOneId(s) ==> FirstIdIs(s, 0)
  {
    hide FirstIdIs, StartsCi, Run, IsOneId, LinksTo, MatchForms, PrefixThenAlnum, Href;
    Prefixes();
    var p := "addr1";
    Apart(p, "gov_action1", s, 0);
    Apart(p, "drep_script1", s, 0);
    Apart(p, "drep1", s, 0);
    Apart(p, "addr_test1", s, 4);
    StartsAt(p, s, 0);
    StartsAt(p, s, 3);
    HexAt(s, 3, 'r');
    OneForm(4, BECH32_FORMS[4], s);
    if IsOneId(s) {
      ShapedTarget(4, s);
      AddressTarget(p, Lower(s));
      OneIdLinks(s, Address(Lower(s), false));
      AddressHref(Lower(s));
    }
  }

  /** A test address is linked to the explorer's pre-production view. */
  lemma TestAddressLinks(s: string)
    requires StartsCi("addr_test1", s) && All(IsAlnum, s[10..])
    ensures IsOneId(s) <==> 60 <= |s| <= 120
    ensures IsOneId(s) ==>
      LinksTo(s, "https://explorer.cardano.org/preprod/address/" + Lower(s), "noopener noreferrer nofollow")
    ensures !IsOneId(s) ==> FirstIdIs(s, 0)
  {
    hide FirstIdIs, StartsCi, Run, IsOneId, LinksTo, MatchForms, PrefixThenAlnum, Href;
    Prefixes();
    var p := "addr_test1";
    Apart(p, "gov_action1", s, 0);
    Apart(p, "drep_script1", s, 0);
    Apart(p, "drep1", s, 0);
    Apart(p, "addr1", s, 4);
    StartsAt(p, s, 0);
    StartsAt(p, s, 3);
    HexAt(s, 3, 'r');
    OneForm(3, BECH32_FORMS[3], s);
    if IsOneId(s) {
      ShapedTarget(3, s);
      AddressTarget(p, Lower(s));
      OneIdLinks(s, Address(Lower(s), true));
      AddressHref(Lower(s));
    }
  }

  // ---- The two hex forms ----------------------------------------------------------------------

  lemma NotStarted(prefix: string, s: string, k: nat)
    requires k < |prefix| && k < Run(IsHex, s) && !IsHex(prefix[k]) && LowerChar(prefix[k]) == prefix[k]
    ensures !StartsCi(prefix, s)
  {
    RunAt(IsHex, s, k);
    StartsUnlike(prefix, s, k);
  }

  /** Enough hex digits rule every bech32 form out. */
  lemma HexIsNoForm(s: string)
    requires Run(IsHex, s) >= 4
    ensures MatchForms(BECH32_FORMS, s) == 0
  {
    hide StartsCi, Run;
    Prefixes();
    NotStarted("gov_action1", s, 0);
    NotStarted("drep_script1", s, 1);
    NotStarted("drep1", s, 1);
    NotStarted("addr_test1", s, 3);
    NotStarted("addr1", s, 3);
    NoForm(BECH32_FORMS, s);
  }

  lemma HexTarget(id: string)
    requires |id| in {66, 68} && All(LowerHex, id)
    ensures ChainIdTarget(id) == Some(GovAction(id))
  {
  }

  /** A run of hex digits is linked to the action's page, at exactly sixty-six or sixty-eight digits. */
  lemma HexLinks(s: string)
    requires All(IsHex, s) && |s| >= 4
    ensures IsOneId(s) <==> |s| in {66, 68}
    ensures IsOneId(s) ==> LinksTo(s, "/ga/" + Lower(s) + "/", "noopener")
    ensures !IsOneId(s) ==> FirstIdIs(s, 0)
  {
    hide FirstIdIs, IsOneId, MatchForms, LinksTo, ChainIdTarget;
    HexIsNoForm(s);
    RunAt(IsHex, s, 0);
    NoTagAtLetter(s);
    OneIdIff(s);
    if IsOneId(s) {
      LowerHexAll(s);
      HexTarget(Lower(s));
      OneIdLinks(s, GovAction(Lower(s)));
    }
  }

  lemma HashRun(s: string)
    requires |s| >= 65 && All(IsHex, s[..64]) && s[64] == '#'
    ensures Run(IsHex, s) == 64 && IsHex(s[0])
  {
    forall i | 0 <= i < 64 ensures IsHex(s[i]) {
      RunAt(IsHex, s[..64], i);
    }
    RunIs(IsHex, s, 64);
  }

  lemma HashTarget(s: string)
    requires 66 <= |s| <= 71 && All(IsHex, s[..64]) && s[64] == '#' && All(IsDigit, s[65..])
    ensures ChainIdTarget(Lower(s)) == Some(GovAction(Lower(s[..64]) + IndexHex(DecimalValue(s[65..]))))
  {
    hide Run, ChainIdTarget;
    HashRun(s);
    assert MatchHex(s) == |s|;
    HashIndexShape(s);
    assert s[..|s|] == s && s[65..|s|] == s[65..];
    HashIndexRoutes(Lower(s));
    LowerTake(s, 64);
  }

  /** A transaction hash with an index of one to six digits is linked to the page of its hash and index bytes. */
  lemma HashIndexLinks(s: string)
    requires |s| >= 65 && All(IsHex, s[..64]) && s[64] == '#' && All(IsDigit, s[65..])
    ensures IsOneId(s) <==> 66 <= |s| <= 71
    ensures IsOneId(s) ==>
      LinksTo(s, "/ga/" + (Lower(s[..64]) + IndexHex(DecimalValue(s[65..]))) + "/", "noopener")
    ensures FirstIdIs(s, if |s| == 65 then 0 else if |s| < 71 then |s| else 71)
  {
    hide FirstIdIs, IsOneId, MatchForms, LinksTo, ChainIdTarget, IndexHex, DecimalValue;
    HashRun(s);
    HexIsNoForm(s);
    NoTagAtLetter(s);
    OneIdIff(s);
    if IsOneId(s) {
      HashTarget(s);
      OneIdLinks(s, GovAction(Lower(s[..64]) + IndexHex(DecimalValue(s[65..]))));
    }
  }

  // ---- The elements that keep their content ---------------------------------------------------

  function ElementName(e: Element): string {
    match e
    case A => "a"
    case Code => "code"
    case Pre => "pre"
  }

  /** The name, in any case, and no longer name. */
  predicate IsNamed(name: string, s: string) {
    StartsCi(name, s) && (|s| == |name| || !IsWord(s[|name|]))
  }

  lemma NamesDiffer(s: string, e: Element, e': Element)
    requires StartsCi(ElementName(e), s) && e != e'
    ensures !StartsCi(ElementName(e'), s)
  {
    StartsAt(ElementName(e), s, 0);
    StartsUnlike(ElementName(e'), s, 0);
  }

  lemma SkippedIff(s: string, e: Element)
    ensures SkipElement(SKIPPED, s) == Some(e) <==> IsNamed(ElementName(e), s)
  {
    hide StartsCi;
    var rest := SKIPPED[1..];
    assert rest[0] == ("code", Code) && rest[1..][0] == ("pre", Pre) && rest[1..][1..] == [];
    assert SkipElement(SKIPPED, s) == if IsNamed("a", s) then Some(A) else SkipElement(rest, s);
    assert SkipElement(rest, s) == if IsNamed("code", s) then Some(Code) else SkipElement(rest[1..], s);
    assert SkipElement(rest[1..], s) == if IsNamed("pre", s) then Some(Pre) else None;
    if IsNamed(ElementName(e), s) {
      match e
      case A =>
      case Code => NamesDiffer(s, Code, A);
      case Pre =>
        NamesDiffer(s, Pre, A);
        NamesDiffer(s, Pre, Code);
    }
  }

  /** A tag opens or closes one of the three elements exactly when its name is that element's, in any case. */
  lemma KindIff(tag: string, e: Element)
    requires |tag| > 1
    ensures KindOf(tag) == Opens(e) <==> tag[1] != '/' && IsNamed(ElementName(e), tag[1..])
    ensures KindOf(tag) == Closes(e) <==> tag[1] == '/' && IsNamed(ElementName(e), tag[2..])
  {
    hide SkipElement, IsNamed;
    SkippedIff(tag[1..], e);
    SkippedIff(tag[2..], e);
  }

  lemma EndsOnce(head: string, attrs: string)
    requires '>' !in head && '>' !in attrs
    ensures Find('>', head + (attrs + ">")) == |head + (attrs + ">")| - 1
  {
    FindNone('>', head);
    FindNone('>', attrs);
    FindCat('>', head, attrs + ">");
    FindCat('>', attrs, ">");
  }

  lemma OpenTagOf(e: Element, attrs: string)
    requires '>' !in attrs && (attrs == "" || !IsWord(attrs[0]))
    ensures var open := "<" + ElementName(e) + (attrs + ">"); IsTag(open) && KindOf(open) == Opens(e)
  {
    hide Find, KindOf, StartsCi;
    var name := ElementName(e);
    var open := "<" + name + (attrs + ">");
    assert open[1..] == name + (attrs + ">");
    StartsHead(name, attrs + ">");
    KindIff(open, e);
    EndsOnce("<" + name, attrs);
  }

  lemma CloseTagOf(e: Element)
    ensures var close := "</" + ElementName(e) + ">"; IsTag(close) && KindOf(close) == Closes(e)
  {
    var name := ElementName(e);
    var close := "</" + name + ">";
    assert close[2..] == name + ">";
    StartsHead(name, ">");
    KindIff(close, e);
    EndsOnce("</" + name, "");
    assert "" + ">" == ">";
  }

  /** Whatever stands between an opening and a closing tag of one of the three elements is kept, and the pass goes on
      after it as if from the start. */
  lemma ContentIsKept(e: Element, attrs: string, x: string, y: string)
    requires '>' !in attrs && (attrs == "" || !IsWord(attrs[0])) && '<' !in x
    ensures var open, close := "<" + ElementName(e) + (attrs + ">"), "</" + ElementName(e) + ">";
      Linkify(open + (x + (close + y))) == open + (x + (close + Linkify(y)))
  {
    hide IsTag, KindOf, TagLen, Link, TextThen;
    var open, close := "<" + ElementName(e) + (attrs + ">"), "</" + ElementName(e) + ">";
    OpenTagOf(e, attrs);
    CloseTagOf(e);
    FixTag(open, x + (close + y), 0);
    BeforeTag(x, close, y);
    LinkCat(Boundary, x, close + y, 1);
    FixTag(close, y, 1);
  }

  lemma BeforeTag(x: string, t: string, y: string)
    requires '<' !in x && IsTag(t)
    ensures TextThen(x, t + y)
  {
    TagCat(t, y);
    FindNone('<', x);
  }
}
