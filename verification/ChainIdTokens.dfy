/** What the pass makes of one token: every token the regex finds is linkable, its chip is strictly longer
    than it and is one tag, some text with no id in it, and one closing tag. */
module ChainIdTokens {
  import opened JsText
  import opened ChainIds

  lemma {:induction false} StartsLower(prefix: string, s: string, n: nat)
    requires StartsCi(prefix, s) && |prefix| <= n <= |s|
    ensures prefix <= Lower(s[..n])
  {
    if prefix != "" {
      StartsLower(prefix[1..], s[1..], n - 1);
      assert s[..n][1..] == s[1..][..n - 1];
      assert prefix == [prefix[0]] + prefix[1..];
    }
  }

  lemma {:induction false} LowerDrop(s: string, k: nat)
    requires k <= |s|
    ensures Lower(s)[k..] == Lower(s[k..])
  {
    if k > 0 {
      LowerDrop(s[1..], k - 1);
      assert s[1..][k - 1..] == s[k..];
    } else {
      assert s[0..] == s;
    }
  }

  lemma {:induction false} RunTake(p: char -> bool, s: string, n: nat)
    requires n <= Run(p, s)
    ensures All(p, s[..n])
  {
    if n > 0 {
      RunTake(p, s[1..], n - 1);
      assert s[..n][1..] == s[1..][..n - 1];
    }
  }

  lemma {:induction false} LowerAlnumAll(s: string)
    requires All(IsAlnum, s)
    ensures All(LowerAlnum, Lower(s))
  {
    if s != "" {
      LowerAlnumAll(s[1..]);
    }
  }

  lemma {:induction false} LowerHexAll(s: string)
    requires All(IsHex, s)
    ensures All(LowerHex, Lower(s))
  {
    if s != "" {
      LowerHexAll(s[1..]);
    }
  }

  lemma {:induction false} LowerDigits(s: string)
    requires All(IsDigit, s)
    ensures Lower(s) == s
  {
    if s != "" {
      LowerDigits(s[1..]);
    }
  }

  lemma FormShapeOf(f: Form, s: string)
    requires MatchForm(f, s) > 0
    ensures PrefixThenAlnum(f.prefix, Lower(s[..MatchForm(f, s)]))
  {
    var n, p := MatchForm(f, s), |f.prefix|;
    StartsLower(f.prefix, s, n);
    RunTake(IsAlnum, s[p..], n - p);
    assert s[p..][..n - p] == s[..n][p..];
    LowerAlnumAll(s[..n][p..]);
    LowerDrop(s[..n], p);
  }

  lemma {:induction false} WhichForm(fs: seq<Form>, s: string) returns (f: Form)
    requires MatchForms(fs, s) > 0
    ensures f in fs && MatchForm(f, s) == MatchForms(fs, s)
  {
    if MatchForm(fs[0], s) > 0 {
      f := fs[0];
    } else {
      f := WhichForm(fs[1..], s);
    }
  }

  lemma Bech32Linkable(s: string)
    requires MatchForms(BECH32_FORMS, s) > 0
    ensures ChainIdTarget(Lower(s[..MatchForms(BECH32_FORMS, s)])).Some?
  {
    var f := WhichForm(BECH32_FORMS, s);
    FormShapeOf(f, s);
    assert f.prefix in ["gov_action1", "drep_script1", "drep1", "addr_test1", "addr1"];
  }

  lemma HexLinkable(s: string)
    requires MatchHex(s) > 0
    ensures ChainIdTarget(Lower(s[..MatchHex(s)])).Some?
  {
    var n := MatchHex(s);
    var t := s[..n];
    if n == 66 || n == 68 {
      if n == Run(IsHex, s) {
        RunTake(IsHex, s, n);
        LowerHexAll(t);
      } else {
        HashIndexShape(s);
      }
    } else {
      HashIndexShape(s);
    }
  }

  lemma HashIndexShape(s: string)
    requires MatchHex(s) > 0 && Run(IsHex, s) == 64
    ensures IsHashIndex(Lower(s[..MatchHex(s)]))
    ensures Lower(s[..MatchHex(s)])[65..] == s[65..MatchHex(s)]
  {
    var n := MatchHex(s);
    var t := s[..n];
    RunTake(IsHex, s, 64);
    assert t[..64] == s[..64];
    LowerHexAll(t[..64]);
    LowerTake(t, 64);
    RunTake(IsDigit, s[65..], n - 65);
    assert s[65..][..n - 65] == t[65..] == s[65..n];
    LowerDigits(t[65..]);
    LowerDrop(t, 65);
    LowerAt(t, 64);
  }

  lemma {:induction false} LowerTake(s: string, k: nat)
    requires k <= |s|
    ensures Lower(s)[..k] == Lower(s[..k])
  {
    if k > 0 {
      LowerTake(s[1..], k - 1);
      assert s[..k][1..] == s[1..][..k - 1];
    }
  }

  /** Every id the token regex finds has a link target: the callback's `?? token` is never taken. */
  lemma TokenLinkable(left: Edge, s: string)
    requires MatchId(left, s) > 0
    ensures ChainIdTarget(Lower(s[..MatchId(left, s)])).Some?
  {
    if left.Boundary? && MatchForms(BECH32_FORMS, s) > 0 {
      Bech32Linkable(s);
    } else {
      HexLinkable(s);
    }
  }

  // ---- The chip's parts -----------------------------------------------------------------------

  predicate NoAngle(s: string) {
    '<' !in s && '>' !in s
  }

  lemma {:induction false} AllNoAngle(p: char -> bool, s: string)
    requires All(p, s) && !p('<') && !p('>')
    ensures NoAngle(s)
  {
    if s != "" {
      AllNoAngle(p, s[1..]);
      assert s == [s[0]] + s[1..];
    }
  }

  lemma {:induction false} ToHexAll(n: nat)
    ensures All(LowerHex, ToHex(n))
  {
    if n >= 16 {
      ToHexAll(n / 16);
      AllSnoc(LowerHex, ToHex(n / 16), HexDigitOf(n % 16));
    }
  }

  lemma {:induction false} AllSnoc(p: char -> bool, s: string, c: char)
    requires All(p, s) && p(c)
    ensures All(p, s + [c])
  {
    if s != "" {
      AllSnoc(p, s[1..], c);
      assert (s + [c])[1..] == s[1..] + [c];
    }
  }

  lemma IndexHexNoAngle(n: nat)
    ensures NoAngle(IndexHex(n))
  {
    ToHexAll(n);
    AllNoAngle(LowerHex, ToHex(n));
  }

  lemma NoAngleCat(a: string, b: string)
    requires NoAngle(a) && NoAngle(b)
    ensures NoAngle(a + b)
  {}

  lemma PrefixNoAngle(prefix: string, id: string)
    requires PrefixThenAlnum(prefix, id) && NoAngle(prefix)
    ensures NoAngle(id)
  {
    AllNoAngle(LowerAlnum, id[|prefix|..]);
    assert id == prefix + id[|prefix|..];
  }

  lemma HashIndexNoAngle(id: string)
    requires IsHashIndex(id)
    ensures NoAngle(id) && NoAngle(id[..64])
  {
    AllNoAngle(LowerHex, id[..64]);
    AllNoAngle(IsDigit, id[65..]);
    assert id == id[..64] + ['#'] + id[65..];
  }

  lemma PrefixesNoAngle()
    ensures NoAngle("gov_action1") && NoAngle("drep1") && NoAngle("drep_script1")
    ensures NoAngle("addr_test1") && NoAngle("addr1")
  {}

  /** A linkable id and its path segment contain no angle bracket. */
  lemma TargetNoAngle(id: string)
    requires ChainIdTarget(id).Some?
    ensures NoAngle(id) && NoAngle(ChainIdTarget(id).value.segment)
  {
    hide NoAngle, PrefixThenAlnum, All, IndexHex, DecimalValue;
    PrefixesNoAngle();
    if |id| == 70 && PrefixThenAlnum("gov_action1", id) {
      PrefixNoAngle("gov_action1", id);
    } else if (|id| == 66 || |id| == 68) && All(LowerHex, id) {
      AllNoAngle(LowerHex, id);
    } else if IsHashIndex(id) {
      HashIndexNoAngle(id);
      IndexHexNoAngle(DecimalValue(id[65..]));
      NoAngleCat(id[..64], IndexHex(DecimalValue(id[65..])));
    } else if PrefixThenAlnum("drep1", id) {
      PrefixNoAngle("drep1", id);
    } else if PrefixThenAlnum("drep_script1", id) {
      PrefixNoAngle("drep_script1", id);
    } else if PrefixThenAlnum("addr_test1", id) {
      PrefixNoAngle("addr_test1", id);
    } else {
      PrefixNoAngle("addr1", id);
    }
  }

  lemma HrefNoAngle(t: Target)
    requires NoAngle(t.segment)
    ensures NoAngle(Href(t))
  {
    match t
    case GovAction(id) => assert NoAngle("/ga/") && NoAngle("/");
    case DRep(id) => assert NoAngle("/dreps/") && NoAngle("/");
    case Address(id, preprod) =>
      assert NoAngle("address/") && NoAngle("preprod/") && NoAngle("");
      ExplorerNoAngle();
  }

  lemma ExplorerNoAngle()
    ensures NoAngle(EXPLORER)
  {}

  lemma RelNoAngle(t: Target)
    ensures NoAngle(Rel(t))
  {}

  lemma MarksNoAngle()
    ensures NoAngle(REL_MARK) && NoAngle(TITLE_MARK) && '>' !in OPEN_MARK
    ensures |OPEN_MARK| > 3 && OPEN_MARK[0] == '<' && OPEN_MARK[1] == 'a' && OPEN_MARK[2] == ' '
  {}

  lemma AttrsNoAngle(open: string, href: string, rel: string, t: Target, id: string)
    requires open == OPEN_MARK && href == Href(t) && rel == Rel(t) && NoAngle(href) && NoAngle(id)
    ensures var attrs := ChipAttrs(t, id); '>' !in attrs && |attrs| > |id| && open <= attrs
  {
    RelNoAngle(t);
    MarksNoAngle();
  }

  /** One whole tag token: it starts with '<' and its only '>' is its last character. */
  predicate IsTag(t: string) {
    |t| >= 2 && t[0] == '<' && Find('>', t) == |t| - 1
  }

  lemma TagCat(t: string, r: string)
    requires IsTag(t)
    ensures TagLen(t + r) == |t| && (t + r)[..|t|] == t && (t + r)[|t|..] == r
  {
    FindCat('>', t, r);
  }

  /** `g + open` is one tag when `g` is a stray '<' run that nothing closed. */
  lemma StrayJoins(g: string, open: string)
    requires IsTag(open) && '>' !in g && (g == "" || g[0] == '<')
    ensures IsTag(g + open)
  {
    FindNone('>', g);
    FindCat('>', g, open);
  }

  lemma OpensAnchor(t: string)
    requires |t| > 3 && t[1] == 'a' && t[2] == ' '
    ensures DepthAfter(t, 0) == 1
  {
    var u := t[1..];
    assert u[0] == 'a' && u[1] == ' ';
    assert SKIPPED[0].0 == "a" && StartsCi("a", u);
    assert SkipElement(SKIPPED, u) == Some(A);
  }

  lemma EndsTag(attrs: string)
    requires |attrs| > 0 && attrs[0] == '<' && '>' !in attrs
    ensures IsTag(attrs + "\">")
  {
    FindNone('>', attrs);
    FindCat('>', attrs, "\">");
  }

  lemma ChipOpenIsTag(t: Target, id: string)
    requires NoAngle(t.segment) && NoAngle(id)
    ensures IsTag(ChipOpen(t, id)) && DepthAfter(ChipOpen(t, id), 0) == 1 && |ChipOpen(t, id)| > |id|
  {
    HrefNoAngle(t);
    AttrsNoAngle(OPEN_MARK, Href(t), Rel(t), t, id);
    MarksNoAngle();
    EndsTag(ChipAttrs(t, id));
    OpensAnchor(ChipOpen(t, id));
  }

  lemma CloseMarkIsTag(depth: nat)
    requires depth <= 1
    ensures IsTag(CLOSE_MARK) && DepthAfter(CLOSE_MARK, depth) == 0
  {
    var t := CLOSE_MARK;
    assert t[2..][0] == 'a' && t[2..][1] == '>';
    assert SKIPPED[0] == ("a", A);
  }

  /** A chip is one opening tag, the shortened id, and one closing tag, and is longer than the id it replaces. */
  lemma ChipParts(left: Edge, s: string) returns (open: string, text: string)
    requires MatchId(left, s) > 0
    ensures Chip(s[..MatchId(left, s)]) == open + (text + CLOSE_MARK)
    ensures IsTag(open) && DepthAfter(open, 0) == 1
    ensures |text| == 23 && NoAngle(text)
    ensures |open| > MatchId(left, s)
  {
    TokenLinkable(left, s);
    var id := Lower(s[..MatchId(left, s)]);
    TargetNoAngle(id);
    var t := ChainIdTarget(id).value;
    open, text := ChipOpen(t, id), Shorten(id);
    ChipOpenIsTag(t, id);
  }
}
