/** Where a governance-action chip leads: its path segment, read back by the /ga/ route's identifier
    detection (src/lib/search/identifiers.ts). */
module ChainIdPages {
  import opened JsText
  import opened ChainIds
  import opened ChainIdTokens

  /** The route's reading of an identifier. */
  datatype Ident = ByProposalId(value: string) | ById(value: string) | ByIdPrefix(value: string) | DRepId(value: string)

  function HexDigitValue(c: char): nat {
    if IsDigit(c) then c as nat - '0' as nat
    else if 'a' <= c <= 'f' then c as nat - 'a' as nat + 10
    else 0
  }

  /** `parseInt(s, 16)` of lower-case hex digits. */
  function HexValue(s: string): nat {
    if s == "" then 0 else 16 * HexValue(s[..|s| - 1]) + HexDigitValue(s[|s| - 1])
  }

  function DigitOf(d: nat): char
    requires d < 10
  {
    '0' + d as char
  }

  /** `String(n)`. */
  function Decimal(n: nat): (s: string)
    ensures s != ""
  {
    if n < 10 then [DigitOf(n)] else Decimal(n / 10) + [DigitOf(n % 10)]
  }

  function Detect(q: string): Option<Ident> {
    DetectLower(Lower(Trim(q)))
  }

  function DetectLower(s: string): Option<Ident> {
    if PrefixThenAlnum("gov_action1", s) then Some(ByProposalId(s))
    else if PrefixThenAlnum("drep1", s) || PrefixThenAlnum("drep_script1", s) then Some(DRepId(s))
    else if |s| == 64 && All(LowerHex, s) then Some(ByIdPrefix(s + "#"))
    else if IsHashIndex(s) then Some(ById(s))
    else if 66 <= |s| <= 72 && |s| % 2 == 0 && All(LowerHex, s) then
      Some(ById(s[..64] + "#" + Decimal(HexValue(s[64..]))))
    else None
  }

  // ---- Hex round trip -------------------------------------------------------------------------

  lemma {:induction false} HexRoundTrip(n: nat)
    ensures HexValue(ToHex(n)) == n
  {
    if n >= 16 {
      HexRoundTrip(n / 16);
      var s := ToHex(n / 16);
      assert (s + [HexDigitOf(n % 16)])[..|s|] == s;
    } else {
      assert ToHex(n)[..0] == "";
    }
  }

  lemma {:induction false} LeadingZero(s: string)
    ensures HexValue("0" + s) == HexValue(s)
  {
    var t := "0" + s;
    if s == "" {
      assert t[..0] == "" && t[0] == '0';
    } else {
      LeadingZero(s[..|s| - 1]);
      assert t[..|t| - 1] == "0" + s[..|s| - 1];
    }
  }

  /** The index bytes of a chip's link decode to the index, in whole bytes, and at most three of them. */
  lemma IndexHexRoundTrip(n: nat)
    requires n < 1_000_000
    ensures HexValue(IndexHex(n)) == n
    ensures |IndexHex(n)| in {2, 4, 6} && All(LowerHex, IndexHex(n))
  {
    HexRoundTrip(n);
    LeadingZero(ToHex(n));
    ToHexAll(n);
    ToHexShort(n);
    var h := ToHex(n);
    assert ("0" + h)[1..] == h;
  }

  lemma ToHexShort(n: nat)
    requires n < 1_000_000
    ensures 1 <= |ToHex(n)| <= 5
  {
    var a, b, c, d := n / 16, n / 16 / 16, n / 16 / 16 / 16, n / 16 / 16 / 16 / 16;
    assert d < 16;
    assert |ToHex(d)| == 1 && |ToHex(c)| <= 2;
    assert |ToHex(b)| <= 3;
    assert |ToHex(a)| <= 4;
  }

  function Pow10(n: nat): nat {
    if n == 0 then 1 else 10 * Pow10(n - 1)
  }

  lemma {:induction false} DecimalBound(s: string)
    ensures DecimalValue(s) < Pow10(|s|)
  {
    if s != "" {
      DecimalBound(s[..|s| - 1]);
    }
  }

  lemma IndexBound(s: string)
    requires |s| <= 6
    ensures DecimalValue(s) < 1_000_000
  {
    DecimalBound(s);
    PowMono(|s|, 6);
    assert Pow10(2) == 100 && Pow10(4) == 10_000;
  }

  lemma {:induction false} PowMono(a: nat, b: nat)
    requires a <= b
    ensures Pow10(a) <= Pow10(b)
  {
    if a < b {
      PowMono(a, b - 1);
    }
  }

  // ---- Reading a lower-case segment -----------------------------------------------------------

  lemma {:induction false} AllCat(p: char -> bool, a: string, b: string)
    ensures All(p, a + b) <==> All(p, a) && All(p, b)
  {
    if a == "" {
      assert a + b == b;
    } else {
      AllCat(p, a[1..], b);
      assert (a + b)[1..] == a[1..] + b;
    }
  }

  lemma {:induction false} LowerHexSame(s: string)
    requires All(LowerHex, s)
    ensures Lower(s) == s
  {
    if s != "" {
      LowerHexSame(s[1..]);
    }
  }

  lemma HexUntrimmed(s: string)
    requires s != "" && All(LowerHex, s)
    ensures Trim(s) == s
  {
    RunAt(LowerHex, s, |s| - 1);
  }

  lemma DetectLowerHex(s: string)
    requires 66 <= |s| <= 72 && |s| % 2 == 0 && All(LowerHex, s)
    ensures DetectLower(s) == Some(ById(s[..64] + "#" + Decimal(HexValue(s[64..]))))
  {
    RunAt(LowerHex, s, 0);
    RunAt(LowerHex, s, 1);
    RunAt(LowerHex, s, 64);
    assert LowerHex(s[0]) && LowerHex(s[1]) && LowerHex(s[64]);
  }

  /** A segment of 66 to 72 hex digits is read as hash and index bytes. */
  lemma DetectHex(s: string)
    requires 66 <= |s| <= 72 && |s| % 2 == 0 && All(LowerHex, s)
    ensures Detect(s) == Some(ById(s[..64] + "#" + Decimal(HexValue(s[64..]))))
  {
    HexUntrimmed(s);
    LowerHexSame(s);
    DetectLowerHex(s);
  }

  /** The chip for `hash#index` leads to the action with that hash and that number as its index. */
  lemma HashIndexChipResolves(id: string)
    requires IsHashIndex(id)
    ensures ChainIdTarget(id).Some? && ChainIdTarget(id).value.GovAction?
    ensures Detect(ChainIdTarget(id).value.segment) ==
            Some(ById(id[..64] + "#" + Decimal(DecimalValue(id[65..]))))
  {
    var n := DecimalValue(id[65..]);
    IndexBound(id[65..]);
    IndexHexRoundTrip(n);
    HashIndexRoutes(id);
    var s := id[..64] + IndexHex(n);
    AllCat(LowerHex, id[..64], IndexHex(n));
    assert s[..64] == id[..64] && s[64..] == IndexHex(n);
    DetectHex(s);
  }

  lemma HashIndexRoutes(id: string)
    requires IsHashIndex(id)
    ensures ChainIdTarget(id) == Some(GovAction(id[..64] + IndexHex(DecimalValue(id[65..]))))
  {
    if All(LowerHex, id) {
      RunAt(LowerHex, id, 64);
    }
  }

  // ---- Reading every other shape --------------------------------------------------------------

  lemma HexFirst(s: string)
    requires All(LowerHex, s) && |s| > 1
    ensures LowerHex(s[0]) && LowerHex(s[1])
  {
    RunAt(LowerHex, s, 0);
    RunAt(LowerHex, s, 1);
  }

  lemma NotPrefixed(s: string)
    requires |s| > 1 && LowerHex(s[0]) && LowerHex(s[1])
    ensures !PrefixThenAlnum("gov_action1", s) && !PrefixThenAlnum("drep1", s) && !PrefixThenAlnum("drep_script1", s)
  {
  }

  /** What a pasted text is taken for, by its trimmed lower-case form alone. */
  lemma DetectByShape(q: string, s: string)
    requires s == Lower(Trim(q))
    ensures PrefixThenAlnum("gov_action1", s) ==> Detect(q) == Some(ByProposalId(s))
    ensures PrefixThenAlnum("drep1", s) || PrefixThenAlnum("drep_script1", s) ==> Detect(q) == Some(DRepId(s))
    ensures |s| == 64 && All(LowerHex, s) ==> Detect(q) == Some(ByIdPrefix(s + "#"))
    ensures IsHashIndex(s) ==> Detect(q) == Some(ById(s))
  {
    hide Trim, Lower;
    if All(LowerHex, s) && |s| > 1 {
      HexFirst(s);
      NotPrefixed(s);
    }
    if IsHashIndex(s) {
      DetectHashIndex(s);
    }
  }

  predicate LowerText(s: string) { forall i :: 0 <= i < |s| ==> LowerChar(s[i]) == s[i] }

  lemma {:induction false} LowerTextSame(s: string)
    requires LowerText(s)
    ensures Lower(s) == s
  {
    if s != "" {
      LowerTextSame(s[1..]);
    }
  }

  lemma PrefixSame(prefix: string, s: string)
    requires PrefixThenAlnum(prefix, s) && LowerText(prefix) && prefix != "" && !IsSpace(prefix[0])
    ensures Lower(Trim(s)) == s
  {
    var n := |prefix|;
    forall i | 0 <= i < |s| ensures LowerChar(s[i]) == s[i] && (i >= n ==> LowerAlnum(s[i])) {
      if i < n {
        assert s[i] == prefix[i];
      } else {
        RunAt(LowerAlnum, s[n..], i - n);
        assert s[n..][i - n] == s[i];
      }
    }
    assert s[0] == prefix[0];
    NotTrimmed(s);
    LowerTextSame(s);
  }

  lemma NotTrimmed(s: string)
    requires s != "" && !IsSpace(s[0]) && !IsSpace(s[|s| - 1])
    ensures Trim(s) == s
  {
  }

  lemma PrefixesAreLower()
    ensures LowerText("gov_action1") && !IsSpace("gov_action1"[0])
    ensures LowerText("drep1") && LowerText("drep_script1") && !IsSpace("drep1"[0]) && !IsSpace("drep_script1"[0])
  {
  }

  /** The page that a bech32 action chip leads to is found by that very id, and a DRep chip's by that DRep's. */
  lemma Bech32ChipResolves(id: string, t: Target)
    requires ChainIdTarget(id) == Some(t) && (t.DRep? || (|id| == 70 && PrefixThenAlnum("gov_action1", id)))
    ensures Detect(t.segment) == Some(if t.GovAction? then ByProposalId(id) else DRepId(id))
  {
    hide All, IsSpace, LowerChar, PrefixThenAlnum;
    PrefixesAreLower();
    if t.GovAction? {
      PrefixSame("gov_action1", id);
    } else if PrefixThenAlnum("drep1", id) {
      PrefixSame("drep1", id);
    } else {
      PrefixSame("drep_script1", id);
    }
    DetectByShape(id, id);
  }

  // ---- The two spellings of one action --------------------------------------------------------

  predicate Canonical(digits: string) {
    digits != "" && (|digits| == 1 || digits[0] != '0')
  }

  lemma {:induction false} DecimalOfValue(s: string)
    requires All(IsDigit, s) && s != ""
    ensures Decimal(DecimalValue(s)) == s <==> Canonical(s)
    ensures |s| > 1 && s[0] != '0' ==> DecimalValue(s) >= 10
  {
    var t, c := s[..|s| - 1], s[|s| - 1];
    RunTake(IsDigit, s, |s| - 1);
    RunAt(IsDigit, s, |s| - 1);
    assert s == t + [c];
    if t == "" {
      assert DecimalValue(t) == 0;
    } else {
      DecimalOfValue(t);
      DecimalStep(t, c);
      RunAt(IsDigit, s, 0);
      if |t| == 1 {
        assert t[..0] == "";
      }
    }
  }

  lemma DecimalStep(t: string, c: char)
    requires IsDigit(c)
    ensures var v := DecimalValue(t + [c]);
            && v == 10 * DecimalValue(t) + DigitValue(c)
            && (v >= 10 ==> Decimal(v) == Decimal(DecimalValue(t)) + [c])
            && (v < 10 ==> |Decimal(v)| == 1)
  {
    assert (t + [c])[..|t|] == t;
  }

  /** Looking an `hash#index` id up directly and following its chip name the same action exactly when the index
      is written without leading zeros; with them only the chip finds it. */
  lemma ChipAgreesWithSearch(id: string)
    requires IsHashIndex(id)
    ensures Detect(id) == Some(ById(id))
    ensures Detect(id) == Detect(ChainIdTarget(id).value.segment) <==> Canonical(id[65..])
  {
    SearchFinds(id);
    HashIndexChipResolves(id);
    AgreeIff(id, Detect(id), Detect(ChainIdTarget(id).value.segment));
  }

  lemma SearchFinds(id: string)
    requires IsHashIndex(id)
    ensures Detect(id) == Some(ById(id))
  {
    HashIndexKept(id);
    DetectHashIndex(id);
  }

  lemma AgreeIff(id: string, direct: Option<Ident>, byChip: Option<Ident>)
    requires IsHashIndex(id)
    requires direct == Some(ById(id))
    requires byChip == Some(ById(id[..64] + "#" + Decimal(DecimalValue(id[65..]))))
    ensures direct == byChip <==> Canonical(id[65..])
  {
    DecimalOfValue(id[65..]);
    SameIndex(id[..64], id[65..], Decimal(DecimalValue(id[65..])));
    assert id == id[..64] + "#" + id[65..];
  }

  lemma SameIndex(hash: string, a: string, b: string)
    ensures hash + "#" + a == hash + "#" + b <==> a == b
  {
    assert (hash + "#" + a)[|hash| + 1..] == a && (hash + "#" + b)[|hash| + 1..] == b;
  }

  lemma DetectHashIndex(id: string)
    requires IsHashIndex(id)
    ensures DetectLower(id) == Some(ById(id))
  {
    var h := id[..64];
    RunAt(LowerHex, h, 1);
    RunAt(LowerHex, h, 0);
    assert LowerHex(id[0]) && LowerHex(id[1]);
  }

  lemma HashIndexKept(id: string)
    requires IsHashIndex(id)
    ensures Lower(Trim(id)) == id
  {
    RunAt(LowerHex, id[..64], 0);
    RunAt(IsDigit, id[65..], |id| - 66);
    assert id[65..][|id| - 66] == id[|id| - 1];
    assert Trim(id) == id;
    LowerHexSame(id[..64]);
    LowerDigits(id[65..]);
    LowerTake(id, 64);
    LowerDrop(id, 65);
    LowerAt(id, 64);
    var l := Lower(id);
    assert l == l[..64] + [l[64]] + l[65..];
    assert id == id[..64] + [id[64]] + id[65..];
  }
}
