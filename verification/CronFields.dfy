/** Which expressions the search supports (src/lib/freshness.ts:32-55): what each shape of field means, that there are
    no others, and how an expression is taken apart. */
module CronFields {
  import opened JsText
  import opened Cron

  // ---- The shapes of a field ------------------------------------------------------------------

  lemma DigitsAre(s: string, i: nat)
    requires Digits(s) && i < |s|
    ensures IsDigit(s[i])
  {
    RunAt(IsDigit, s, i);
  }

  lemma NoMark(s: string, c: char)
    requires Digits(s) && !IsDigit(c)
    ensures Find(c, s) == |s|
  {
    forall i | 0 <= i < |s| ensures s[i] != c {
      DigitsAre(s, i);
    }
    FindIs(c, s, |s|);
  }

  lemma StepField(n: string)
    requires Digits(n)
    ensures ParseField("*/" + n) == Every(DecimalValue(n))
  {
    assert ("*/" + n)[..2] == "*/" && ("*/" + n)[2..] == n;
  }

  lemma NumberField(n: string)
    requires Digits(n)
    ensures ParseField(n) == Exactly(DecimalValue(n))
  {
    DigitsAre(n, 0);
    NoMark(n, '-');
  }

  lemma NoStar(f: string)
    requires f != "" && f[0] != '*'
    ensures f != "*" && !(|f| > 2 && f[..2] == "*/")
  {
    if |f| > 2 {
      assert f[..2][0] == f[0];
    }
  }

  lemma DashedField(f: string, lo: string, rest: string)
    requires f != "" && f[0] != '*' && Find('-', f) < |f| && lo == f[..Find('-', f)] && rest == f[Find('-', f) + 1..]
    ensures ParseField(f) == ParseRange(lo, rest)
  {
    hide Digits, DecimalValue, Find, ParseRange;
    NoStar(f);
  }

  lemma RangeField(lo: string, hi: string, n: string)
    requires Digits(lo) && Digits(hi) && Digits(n)
    ensures ParseField(lo + "-" + (hi + "/" + n)) == Stepped(DecimalValue(lo), DecimalValue(hi), DecimalValue(n))
  {
    hide DecimalValue, Digits, ParseField, Find;
    var f, rest := lo + "-" + (hi + "/" + n), hi + "/" + n;
    MarkAt(lo, '-', rest);
    MarkAt(hi, '/', n);
    FirstIsDigit(lo, "-" + rest);
    assert lo + "-" + rest == lo + ("-" + rest);
    DashedField(f, lo, rest);
  }

  lemma FirstIsDigit(n: string, rest: string)
    requires Digits(n)
    ensures n + rest != "" && (n + rest)[0] != '*'
  {
    DigitsAre(n, 0);
  }

  /** The first mark in digits, a mark and more is that one. */
  lemma MarkAt(digits: string, c: char, rest: string)
    requires Digits(digits) && !IsDigit(c)
    ensures var f := digits + [c] + rest;
      Find(c, f) == |digits| < |f| && f[..|digits|] == digits && f[|digits| + 1..] == rest
  {
    NoMark(digits, c);
    FindCat(c, digits, [c] + rest);
    assert digits + [c] + rest == digits + ([c] + rest);
  }

  /** A field in one of the three shapes with numbers. */
  ghost predicate IsStep(f: string) { exists n :: Digits(n) && f == "*/" + n }

  ghost predicate IsRange(f: string) {
    exists lo, hi, n :: Digits(lo) && Digits(hi) && Digits(n) && f == lo + "-" + (hi + "/" + n)
  }

  lemma AroundMark(f: string, c: char) returns (before: string, behind: string)
    requires Find(c, f) < |f|
    ensures before == f[..Find(c, f)] && behind == f[Find(c, f) + 1..] && f == before + [c] + behind
  {
    before, behind := f[..Find(c, f)], f[Find(c, f) + 1..];
  }

  lemma StepShape(f: string)
    requires |f| > 2 && f[..2] == "*/" && Digits(f[2..])
    ensures IsStep(f)
  {
    assert f == "*/" + f[2..];
  }

  lemma RangeShape(f: string)
    requires Find('-', f) < |f| && !ParseField(f).Unsupported? && !ParseField(f).Every? && f != "*"
    ensures IsRange(f)
  {
    hide Digits, DecimalValue, Find;
    var lo, rest := AroundMark(f, '-');
    var hi, n := AroundMark(rest, '/');
    assert Digits(lo) && Digits(hi) && Digits(n) && f == lo + "-" + (hi + "/" + n);
  }

  lemma ParsedShape(f: string)
    requires !ParseField(f).Unsupported?
    ensures f == "*" || Digits(f) || IsStep(f) || IsRange(f)
  {
    hide Digits, DecimalValue, Find, IsRange, IsStep;
    if |f| > 2 && f[..2] == "*/" && Digits(f[2..]) {
      StepShape(f);
    } else if f != "*" && Find('-', f) < |f| {
      RangeShape(f);
    }
  }

  /** No other field is supported: a list, a bare range or a name never fires. */
  lemma SupportedIff(f: string)
    ensures !ParseField(f).Unsupported? <==> f == "*" || Digits(f) || IsStep(f) || IsRange(f)
  {
    hide ParseField, Digits;
    if !ParseField(f).Unsupported? {
      ParsedShape(f);
    } else {
      if f == "*" {
        AnyField();
      }
      if Digits(f) {
        NumberField(f);
      }
      if n :| Digits(n) && f == "*/" + n {
        StepField(n);
      }
      if lo, hi, n :| Digits(lo) && Digits(hi) && Digits(n) && f == lo + "-" + (hi + "/" + n) {
        RangeField(lo, hi, n);
      }
    }
  }

  // ---- The parts of an expression -------------------------------------------------------------

  predicate IsPart(s: string) { s != "" && forall i :: 0 <= i < |s| ==> !IsSpace(s[i]) }

  function Joined(parts: seq<string>): string {
    if parts == [] then "" else if |parts| == 1 then parts[0] else parts[0] + " " + Joined(parts[1..])
  }

  lemma {:induction false} JoinedEnds(parts: seq<string>)
    requires parts != [] && forall p :: p in parts ==> IsPart(p)
    ensures var s := Joined(parts); s != "" && !IsSpace(s[0]) && !IsSpace(s[|s| - 1])
  {
    assert parts[0] in parts;
    if |parts| > 1 {
      JoinedEnds(parts[1..]);
    }
  }

  lemma {:induction false} SplitParts(parts: seq<string>)
    requires parts != [] && forall p :: p in parts ==> IsPart(p)
    ensures Split(Joined(parts)) == parts
    decreases |parts|
  {
    hide IsSpace, Split;
    assert parts[0] in parts;
    Plain(parts[0]);
    if |parts| == 1 {
      assert parts == [parts[0]];
      SplitOne(parts[0]);
    } else {
      JoinedEnds(parts[1..]);
      SplitParts(parts[1..]);
      SplitJoined(parts[0], Joined(parts[1..]));
      assert parts == [parts[0]] + parts[1..];
    }
  }

  lemma SplitOne(p: string)
    requires All(NotSpace, p)
    ensures Split(p) == [p]
  {
  }

  lemma Untrimmed(s: string)
    requires s != "" && !IsSpace(s[0]) && !IsSpace(s[|s| - 1])
    ensures Trim(s) == s
  {
  }

  /** An expression is supported exactly when it has five parts, the last three of them stars; the first two are its
      minute and hour fields. */
  lemma PartsDecide(parts: seq<string>)
    requires parts != [] && forall p :: p in parts ==> IsPart(p)
    ensures Parse(Joined(parts)) ==
      if |parts| == 5 && parts[2] == parts[3] == parts[4] == "*" then
        Some(Schedule(ParseField(parts[0]), ParseField(parts[1])))
      else None
  {
    hide ParseField, Split, IsPart, Joined;
    JoinedEnds(parts);
    Untrimmed(Joined(parts));
    SplitParts(parts);
  }
}
