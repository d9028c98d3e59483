/** Heading demotion (src/lib/sanitizedHtmlGrammar.ts, `ANY_TAG` and `shiftContentHeadings`). */
module Headings {
  import opened JsText

  // ---- ANY_TAG as a scanner -------------------------------------------------------------------

  /** Where the scanner is inside a tag. Quoted attribute values are consumed whole. */
  datatype Mode =
    | Name | Space | AttrName | AfterName | BeforeValue | Unquoted | InDouble | InSingle | AfterQuoted | Slash
    | Done | Dead

  function Next(m: Mode, c: char): Mode {
    match m
    case Name => if IsWord(c) || c == '-' then Name else Break(c, Space, Dead)
    case Space => if c == '=' then Dead else Break(c, Space, AttrName)
    case AttrName => if c == '=' then BeforeValue else Break(c, AfterName, AttrName)
    case AfterName => if c == '=' then BeforeValue else Break(c, AfterName, AttrName)
    case BeforeValue =>
      if c == '"' then InDouble else if c == '\'' then InSingle
      else if IsSpace(c) then BeforeValue else if c == '>' then Dead else Unquoted
    case Unquoted => if c == '/' then Unquoted else Break(c, Space, Unquoted)
    case InDouble => if c == '"' then AfterQuoted else InDouble
    case InSingle => if c == '\'' then AfterQuoted else InSingle
    case AfterQuoted => Break(c, Space, Dead)
    case Slash => if c == '>' then Done else Dead
    case Done => Dead
    case Dead => Dead
  }

  /** White space, '/', '>' and quotes mean the same at every place where an attribute may end. */
  function Break(c: char, onSpace: Mode, otherwise: Mode): Mode {
    if IsSpace(c) then onSpace
    else if c == '/' then Slash
    else if c == '>' then Done
    else if c == '"' || c == '\'' then Dead
    else otherwise
  }

  /** How many characters it takes to finish the tag from mode `m`, or 0 when it never does. */
  function Reach(m: Mode, s: string): (n: nat)
    ensures n <= |s|
    ensures n > 0 ==> s[n - 1] == '>'
    decreases |s|
  {
    if s == "" then 0
    else
      match Next(m, s[0])
      case Done => 1
      case Dead => 0
      case m' => if Reach(m', s[1..]) == 0 then 0 else 1 + Reach(m', s[1..])
  }

  /** Position of the tag name. */
  function NameAt(s: string): nat {
    if |s| > 1 && s[1] == '/' then 2 else 1
  }

  /** Length of the tag that starts `s`, or 0. */
  function MatchTag(s: string): (n: nat)
    ensures n <= |s|
    ensures n > 0 ==> NameAt(s) + 1 < n && s[n - 1] == '>'
  {
    var k := NameAt(s);
    if |s| <= k || s[0] != '<' || !IsLetter(s[k]) then 0
    else
      var r := Reach(Name, s[k + 1..]);
      if r == 0 then 0 else k + 1 + r
  }

  /** The level of a heading tag h1 to h6 at the start of `s`, or 0 for any other tag. */
  function Level(s: string): (l: nat)
    ensures l <= 6
    ensures l > 0 ==> NameAt(s) + 1 < |s| && IsDigit(s[NameAt(s) + 1])
  {
    var k := NameAt(s);
    if k + 2 < |s| && LowerChar(s[k]) == 'h' && '1' <= s[k + 1] <= '6' && !IsWord(s[k + 2]) && s[k + 2] != '-' then
      s[k + 1] as nat - '0' as nat
    else 0
  }

  function Deeper(l: nat): nat {
    if l < 6 then l + 1 else 6
  }

  function LevelChar(l: nat): char
    requires l < 10
  {
    '0' + l as char
  }

  /** The replace callback on one tag. */
  function Demote(tag: string): (r: string)
    ensures |r| == |tag|
  {
    if Level(tag) == 0 then tag else tag[NameAt(tag) + 1 := LevelChar(Deeper(Level(tag)))]
  }

  function ShiftContentHeadings(s: string): string
    decreases |s|
  {
    if s == "" then ""
    else if MatchTag(s) > 0 then Demote(s[..MatchTag(s)]) + ShiftContentHeadings(s[MatchTag(s)..])
    else [s[0]] + ShiftContentHeadings(s[1..])
  }

  // ---- Only digits change ---------------------------------------------------------------------

  predicate AlikeChar(a: char, b: char) {
    a == b || (IsDigit(a) && IsDigit(b))
  }

  /** Equal up to which digit stands where a digit stands. */
  predicate Alike(a: string, b: string) {
    |a| == |b| && (a == "" || (AlikeChar(a[0], b[0]) && Alike(a[1..], b[1..])))
  }

  lemma {:induction false} AlikeSame(a: string)
    ensures Alike(a, a)
  {
    if a != "" {
      AlikeSame(a[1..]);
    }
  }

  lemma {:induction false} AlikeCat(a: string, b: string, c: string, d: string)
    requires Alike(a, b) && Alike(c, d)
    ensures Alike(a + c, b + d)
  {
    if a == "" {
      assert a + c == c && b + d == d;
    } else {
      AlikeCat(a[1..], b[1..], c, d);
      assert (a + c)[1..] == a[1..] + c && (b + d)[1..] == b[1..] + d;
    }
  }

  lemma {:induction false} AlikeAt(a: string, b: string, i: nat)
    requires Alike(a, b) && i < |a|
    ensures AlikeChar(a[i], b[i])
  {
    if i > 0 {
      AlikeAt(a[1..], b[1..], i - 1);
    }
  }

  lemma {:induction false} AlikeDrop(a: string, b: string, k: nat)
    requires Alike(a, b) && k <= |a|
    ensures Alike(a[k..], b[k..])
  {
    if k > 0 {
      AlikeDrop(a[1..], b[1..], k - 1);
      assert a[1..][k - 1..] == a[k..] && b[1..][k - 1..] == b[k..];
    } else {
      assert a[0..] == a && b[0..] == b;
    }
  }

  lemma {:induction false} AlikeUpdate(a: string, k: nat, c: char)
    requires k < |a| && IsDigit(a[k]) && IsDigit(c)
    ensures Alike(a, a[k := c])
  {
    if k > 0 {
      AlikeUpdate(a[1..], k - 1, c);
      assert a[k := c][1..] == a[1..][k - 1 := c];
    } else {
      AlikeSame(a[1..]);
      assert a[0 := c][1..] == a[1..];
    }
  }

  /** The output has the length of the input and differs from it only in which digits it shows. */
  lemma {:induction false} ShiftIsAlike(s: string)
    ensures Alike(s, ShiftContentHeadings(s))
    decreases |s|
  {
    if s != "" {
      var n := MatchTag(s);
      if n > 0 {
        var t := s[..n];
        DemoteIsAlike(t);
        ShiftIsAlike(s[n..]);
        AlikeCat(t, Demote(t), s[n..], ShiftContentHeadings(s[n..]));
        assert s == t + s[n..];
      } else {
        ShiftIsAlike(s[1..]);
        var r := ShiftContentHeadings(s[1..]);
        assert ([s[0]] + r)[1..] == r;
      }
    }
  }

  lemma DemoteIsAlike(t: string)
    ensures Alike(t, Demote(t))
  {
    AlikeSame(t);
    if Level(t) > 0 {
      AlikeUpdate(t, NameAt(t) + 1, LevelChar(Deeper(Level(t))));
    }
  }

  // ---- Digits do not steer the scanner --------------------------------------------------------

  lemma NextAlike(m: Mode, a: char, b: char)
    requires AlikeChar(a, b)
    ensures Next(m, a) == Next(m, b)
  {}

  lemma {:induction false} ReachAlike(m: Mode, a: string, b: string)
    requires Alike(a, b)
    ensures Reach(m, a) == Reach(m, b)
    decreases |a|
  {
    if a != "" {
      NextAlike(m, a[0], b[0]);
      ReachAlike(Next(m, a[0]), a[1..], b[1..]);
    }
  }

  lemma MatchTagAlike(a: string, b: string)
    requires Alike(a, b)
    ensures MatchTag(a) == MatchTag(b) && NameAt(a) == NameAt(b)
  {
    if |a| > 1 {
      AlikeAt(a, b, 1);
    }
    var k := NameAt(a);
    if |a| > k {
      AlikeAt(a, b, k);
      AlikeDrop(a, b, k + 1);
      ReachAlike(Name, a[k + 1..], b[k + 1..]);
    }
  }

  /** Lengths of the scanner's steps: a whole tag, or one character. */
  function Steps(s: string): seq<nat>
    decreases |s|
  {
    if s == "" then []
    else if MatchTag(s) > 0 then [MatchTag(s)] + Steps(s[MatchTag(s)..])
    else [1] + Steps(s[1..])
  }

  lemma {:induction false} StepsAlike(a: string, b: string)
    requires Alike(a, b)
    ensures Steps(a) == Steps(b)
    decreases |a|
  {
    if a != "" {
      MatchTagAlike(a, b);
      var n := if MatchTag(a) > 0 then MatchTag(a) else 1;
      AlikeDrop(a, b, n);
      StepsAlike(a[n..], b[n..]);
    }
  }

  /** All tag boundaries stay where they were. */
  lemma ShiftKeepsBoundaries(s: string)
    ensures Steps(ShiftContentHeadings(s)) == Steps(s)
  {
    ShiftIsAlike(s);
    StepsAlike(s, ShiftContentHeadings(s));
  }

  // ---- Headings of a document -----------------------------------------------------------------

  datatype Heading = Heading(closing: bool, level: nat)

  function HeadingOf(tag: string): seq<Heading> {
    if Level(tag) == 0 then [] else [Heading(NameAt(tag) == 2, Level(tag))]
  }

  /** The heading tags of a document, in order. */
  function HeadingsIn(s: string): seq<Heading>
    decreases |s|
  {
    if s == "" then []
    else if MatchTag(s) > 0 then HeadingOf(s[..MatchTag(s)]) + HeadingsIn(s[MatchTag(s)..])
    else HeadingsIn(s[1..])
  }

  function Lower1(hs: seq<Heading>): seq<Heading> {
    if hs == [] then [] else [hs[0].(level := Deeper(hs[0].level))] + Lower1(hs[1..])
  }

  lemma HeadingOfDemoted(t: string)
    ensures HeadingOf(Demote(t)) == Lower1(HeadingOf(t))
  {
    if Level(t) > 0 {
      var d := Demote(t);
      assert NameAt(d) == NameAt(t);
      assert Level(d) == Deeper(Level(t));
    }
  }

  lemma {:induction false} Lower1Cat(a: seq<Heading>, b: seq<Heading>)
    ensures Lower1(a + b) == Lower1(a) + Lower1(b)
  {
    if a == [] {
      assert a + b == b;
    } else {
      Lower1Cat(a[1..], b);
      assert (a + b)[1..] == a[1..] + b;
    }
  }

  lemma MatchKept(s: string, out: string)
    requires s != "" && out == ShiftContentHeadings(s)
    ensures |out| == |s| && MatchTag(out) == MatchTag(s)
    ensures var n := if MatchTag(s) > 0 then MatchTag(s) else 1;
            && out[n..] == ShiftContentHeadings(s[n..])
            && (MatchTag(s) > 0 ==> out[..n] == Demote(s[..n]))
  {
    ShiftIsAlike(s);
    MatchTagAlike(s, out);
    var n := if MatchTag(s) > 0 then MatchTag(s) else 1;
    if MatchTag(s) > 0 {
      assert out == Demote(s[..n]) + ShiftContentHeadings(s[n..]);
    }
  }

  /** The scanner finds in the output exactly the headings of the input, each one level deeper, h6 staying h6. */
  lemma {:induction false} HeadingsShift(s: string)
    ensures HeadingsIn(ShiftContentHeadings(s)) == Lower1(HeadingsIn(s))
    decreases |s|
  {
    hide MatchTag, Demote;
    if s != "" {
      var out, n := ShiftContentHeadings(s), if MatchTag(s) > 0 then MatchTag(s) else 1;
      MatchKept(s, out);
      HeadingsShift(s[n..]);
      if MatchTag(s) > 0 {
        HeadingOfDemoted(s[..n]);
        Lower1Cat(HeadingOf(s[..n]), HeadingsIn(s[n..]));
      }
    }
  }

  // ---- Consequences ---------------------------------------------------------------------------

  lemma {:induction false} Lower1NoH1(hs: seq<Heading>)
    requires forall h :: h in hs ==> h.level >= 1
    ensures forall h :: h in Lower1(hs) ==> h.level >= 2
  {
    if hs != [] {
      Lower1NoH1(hs[1..]);
    }
  }

  lemma {:induction false} LevelsPositive(s: string)
    ensures forall h :: h in HeadingsIn(s) ==> 1 <= h.level <= 6
    decreases |s|
  {
    if s != "" {
      LevelsPositive(s[if MatchTag(s) > 0 then MatchTag(s) else 1..]);
    }
  }

  /** Shown content never contains an h1: the page title owns that. */
  lemma NoTopHeading(s: string)
    ensures forall h :: h in HeadingsIn(ShiftContentHeadings(s)) ==> 2 <= h.level <= 6
  {
    HeadingsShift(s);
    LevelsPositive(s);
    LevelsPositive(ShiftContentHeadings(s));
    Lower1NoH1(HeadingsIn(s));
  }

  function Shifted(n: nat, s: string): string {
    if n == 0 then s else ShiftContentHeadings(Shifted(n - 1, s))
  }

  function LowerBy(n: nat, hs: seq<Heading>): seq<Heading> {
    if hs == [] then []
    else [hs[0].(level := if hs[0].level + n <= 6 then hs[0].level + n else 6)] + LowerBy(n, hs[1..])
  }

  lemma {:induction false} LowerByStep(n: nat, hs: seq<Heading>)
    requires forall h :: h in hs ==> 1 <= h.level <= 6
    ensures LowerBy(0, hs) == hs && Lower1(LowerBy(n, hs)) == LowerBy(n + 1, hs)
  {
    if hs != [] {
      LowerByStep(n, hs[1..]);
      assert LowerBy(n, hs)[1..] == LowerBy(n, hs[1..]);
    }
  }

  /** Applied n times, level l becomes min(6, l + n): the pass is not idempotent and belongs once per render. */
  lemma {:induction false} ShiftedLevels(n: nat, s: string)
    ensures HeadingsIn(Shifted(n, s)) == LowerBy(n, HeadingsIn(s))
  {
    hide HeadingsIn, ShiftContentHeadings, LowerBy, Lower1;
    LevelsPositive(s);
    if n == 0 {
      LowerByStep(0, HeadingsIn(s));
    } else {
      ShiftedLevels(n - 1, s);
      HeadingsShift(Shifted(n - 1, s));
      LowerByStep(n - 1, HeadingsIn(s));
    }
  }

  /** Each closing heading tag closes the innermost open heading, at the same level. */
  predicate Paired(hs: seq<Heading>, open: seq<nat>) {
    if hs == [] then open == []
    else if hs[0].closing then open != [] && open[0] == hs[0].level && Paired(hs[1..], open[1..])
    else Paired(hs[1..], [hs[0].level] + open)
  }

  function DeeperAll(open: seq<nat>): seq<nat> {
    if open == [] then [] else [Deeper(open[0])] + DeeperAll(open[1..])
  }

  lemma {:induction false} PairsStay(hs: seq<Heading>, open: seq<nat>)
    requires Paired(hs, open)
    ensures Paired(Lower1(hs), DeeperAll(open))
    decreases |hs|
  {
    if hs != [] {
      assert Lower1(hs)[1..] == Lower1(hs[1..]);
      if hs[0].closing {
        PairsStay(hs[1..], open[1..]);
        assert DeeperAll(open)[1..] == DeeperAll(open[1..]);
      } else {
        var pushed := [hs[0].level] + open;
        PairsStay(hs[1..], pushed);
        assert pushed[1..] == open;
      }
    }
  }

  /** Matching open and close heading tags still match after the shift. */
  lemma PairsStayPaired(s: string)
    requires Paired(HeadingsIn(s), [])
    ensures Paired(HeadingsIn(ShiftContentHeadings(s)), [])
  {
    HeadingsShift(s);
    PairsStay(HeadingsIn(s), []);
  }
}
