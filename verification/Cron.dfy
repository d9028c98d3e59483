/** The next-run search over cron expressions (src/lib/freshness.ts). Times are integer milliseconds. */
module Cron {
  import opened JsText

  const MINUTE := 60_000
  const DAY := 86_400_000

  /** An expression whose day, month and weekday fields are stars. */
  function Expression(minute: string, hour: string): string {
    minute + " " + (hour + " " + ("*" + " " + ("*" + " " + "*")))
  }

  // The strings */5 * * * *, */20 * * * *, 0 */6 * * * and 2-59/5 * * * *.
  const CRON_GOVERNANCE := Expression("*/5", "*")
  const CRON_VOTE_SYNC := Expression("*/20", "*")
  const CRON_DREP_SYNC := Expression("0", "*/6")
  const CRON_NOTIFICATIONS := Expression("2-59/5", "*")

  // ---- Fields ---------------------------------------------------------------------------------

  datatype Field = Any | Every(n: nat) | Stepped(lo: nat, hi: nat, n: nat) | Exactly(n: nat) | Unsupported

  predicate Digits(s: string) {
    s != "" && All(IsDigit, s)
  }

  /** A range with a step, from what stands before and behind its dash. */
  function ParseRange(lo: string, rest: string): Field {
    var slash := Find('/', rest);
    if slash < |rest| && Digits(lo) && Digits(rest[..slash]) && Digits(rest[slash + 1..]) then
      Stepped(DecimalValue(lo), DecimalValue(rest[..slash]), DecimalValue(rest[slash + 1..]))
    else Unsupported
  }

  /** The four accepted shapes of a field; each regex is anchored at both ends. */
  function ParseField(f: string): Field {
    if f == "*" then Any
    else if |f| > 2 && f[..2] == "*/" && Digits(f[2..]) then Every(DecimalValue(f[2..]))
    else
      var dash := Find('-', f);
      if dash < |f| then ParseRange(f[..dash], f[dash + 1..])
      else if Digits(f) then Exactly(DecimalValue(f))
      else Unsupported
  }

  /** A step of zero leaves no remainder to compare, so it never matches. */
  predicate Matches(f: Field, value: nat) {
    match f
    case Any => true
    case Every(n) => n > 0 && value % n == 0
    case Stepped(lo, hi, n) => n > 0 && lo <= value <= hi && (value - lo) % n == 0
    case Exactly(n) => value == n
    case Unsupported => false
  }

  /** `s.split(/\s+/)` of a string that neither starts nor ends with white space. */
  function Split(s: string): (parts: seq<string>)
    ensures parts != []
    decreases |s|
  {
    var n := Run(NotSpace, s);
    if n == |s| then [s]
    else [s[..n]] + Split(s[n + 1 + Run(IsSpace, s[n + 1..])..])
  }

  predicate NotSpace(c: char) { !IsSpace(c) }

  datatype Schedule = Schedule(minute: Field, hour: Field)

  /** The minute and hour fields of a supported expression: five parts, the last three `*`. */
  function Parse(cron: string): Option<Schedule> {
    var parts := Split(Trim(cron));
    if |parts| == 5 && parts[2] == "*" && parts[3] == "*" && parts[4] == "*" then
      Some(Schedule(ParseField(parts[0]), ParseField(parts[1])))
    else None
  }

  // ---- The schedule ---------------------------------------------------------------------------

  /** Minutes and hours of the UTC day at `t`. Dafny's division floors, as `Date` does for times before 1970. */
  function MinuteOf(t: int): nat { (t / MINUTE) % 60 }

  function HourOf(t: int): nat { (t / MINUTE / 60) % 24 }

  predicate FiresAt(s: Schedule, t: int) {
    t % MINUTE == 0 && Matches(s.minute, MinuteOf(t)) && Matches(s.hour, HourOf(t))
  }

  /** The whole schedule of an expression: every time it fires, now and forever. */
  predicate Fires(cron: string, t: int) {
    match Parse(cron)
    case Some(s) => FiresAt(s, t)
    case None => false
  }

  lemma DayPeriod(t: int)
    ensures MinuteOf(t + DAY) == MinuteOf(t) && HourOf(t + DAY) == HourOf(t) && (t + DAY) % MINUTE == t % MINUTE
  {
    var m := t / MINUTE;
    assert (t + DAY) / MINUTE == m + 1440;
    assert (m + 1440) / 60 == m / 60 + 24;
  }

  /** A firing can be moved by whole days into the first day after any moment. */
  lemma {:induction false} FiresWithinADay(s: Schedule, u: int, after: int) returns (t: int)
    requires FiresAt(s, u)
    ensures FiresAt(s, t) && after < t <= after + DAY
    decreases if u <= after then after - u + 1 else if u > after + DAY then u - after - DAY else 0
  {
    if u <= after {
      DayPeriod(u);
      t := FiresWithinADay(s, u + DAY, after);
    } else if u > after + DAY {
      DayPeriod(u - DAY);
      t := FiresWithinADay(s, u - DAY, after);
    } else {
      t := u;
    }
  }

  /** The scan over minute steps, bounded to 48 hours. */
  method Scan(s: Schedule, nowMs: int) returns (next: Option<int>)
    ensures next.Some? ==> nowMs < next.value && FiresAt(s, next.value)
    ensures next.Some? ==> forall u :: nowMs < u < next.value ==> !FiresAt(s, u)
    ensures next.None? <==> forall u :: !FiresAt(s, u)
  {
    var t := FirstMinute(nowMs);
    while t <= nowMs + 48 * 3_600_000
      invariant t % MINUTE == 0 && nowMs < t
      invariant forall u :: nowMs < u < t ==> !FiresAt(s, u)
      decreases nowMs + 48 * 3_600_000 - t
    {
      if Matches(s.minute, MinuteOf(t)) && Matches(s.hour, HourOf(t)) {
        assert FiresAt(s, t);
        return Some(t);
      }
      QuietUntil(s, nowMs, t);
      t := t + MINUTE;
    }
    NeverFires(s, nowMs, t);
    return None;
  }

  /** `Math.floor(nowMs / 60_000) * 60_000 + 60_000`. */
  function FirstMinute(nowMs: int): (t: int)
    ensures t % MINUTE == 0 && nowMs < t
    ensures forall u :: nowMs < u < t ==> u % MINUTE != 0
  {
    (nowMs / MINUTE) * MINUTE + MINUTE
  }

  lemma QuietUntil(s: Schedule, now: int, t: int)
    requires t % MINUTE == 0 && !FiresAt(s, t) && forall u :: now < u < t ==> !FiresAt(s, u)
    ensures (t + MINUTE) % MINUTE == 0
    ensures forall u :: now < u < t + MINUTE ==> !FiresAt(s, u)
  {
    NoneBetween(t, MINUTE);
  }

  /** The bounded scan finds the exact next firing of the unbounded schedule, and comes back empty only when the
      expression never fires at all. */
  method NextCronRunMs(cron: string, nowMs: int) returns (next: Option<int>)
    ensures next.Some? ==> IsNext(cron, nowMs, next.value)
    ensures next.None? <==> forall u :: !Fires(cron, u)
  {
    var schedule := Parse(cron);
    if schedule.None? {
      return None;
    }
    next := Scan(schedule.value, nowMs);
    FiresBy(cron, schedule.value);
  }

  lemma FiresBy(cron: string, s: Schedule)
    requires Parse(cron) == Some(s)
    ensures forall u :: Fires(cron, u) <==> FiresAt(s, u)
  {}

  lemma NoneBetween(t: int, step: int)
    requires t % MINUTE == 0 && step == MINUTE
    ensures (t + step) % MINUTE == 0
    ensures forall u :: t < u < t + step ==> u % MINUTE != 0
  {}

  lemma NeverFires(s: Schedule, now: int, t: int)
    requires now + DAY < t && forall u :: now < u < t ==> !FiresAt(s, u)
    ensures forall u :: !FiresAt(s, u)
  {
    forall u
      ensures !FiresAt(s, u)
    {
      if FiresAt(s, u) {
        var v := FiresWithinADay(s, u, now);
        assert false;
      }
    }
  }

  // ---- Iterating the search -------------------------------------------------------------------

  /** `t` is the answer of the search from `now`. */
  predicate IsNext(cron: string, now: int, t: int) {
    now < t && Fires(cron, t) && forall u :: now < u < t ==> !Fires(cron, u)
  }

  /** `runs` is what repeated searching from `now` yields. */
  predicate Chain(cron: string, now: int, runs: seq<int>)
    decreases |runs|
  {
    runs == [] || (IsNext(cron, now, runs[0]) && Chain(cron, runs[0], runs[1..]))
  }

  /** Iterating the search enumerates every firing, in order and without gaps. */
  lemma {:induction false} ChainHasNoGaps(cron: string, now: int, runs: seq<int>, u: int)
    requires Chain(cron, now, runs) && runs != [] && now < u <= runs[|runs| - 1]
    ensures Fires(cron, u) <==> u in runs
    decreases |runs|
  {
    if u < runs[0] {
      if u in runs {
        ChainAscends(cron, now, runs, u);
      }
    } else if u > runs[0] {
      ChainHasNoGaps(cron, runs[0], runs[1..], u);
    }
  }

  lemma {:induction false} ChainAscends(cron: string, now: int, runs: seq<int>, t: int)
    requires Chain(cron, now, runs) && t in runs
    ensures now < runs[0] <= t
    decreases |runs|
  {
    if t != runs[0] {
      ChainAscends(cron, runs[0], runs[1..], t);
    }
  }

  // ---- The four cadences ----------------------------------------------------------------------

  /** Five parts without white space, joined by single spaces, are split into themselves. */
  lemma {:induction false} SplitJoined(head: string, rest: string)
    requires head != "" && All(NotSpace, head) && rest != "" && NotSpace(rest[0])
    ensures Split(head + " " + rest) == [head] + Split(rest)
  {
    var s := head + " " + rest;
    forall i | 0 <= i < |head|
      ensures NotSpace(s[i])
    {
      RunAt(NotSpace, head, i);
    }
    RunIs(NotSpace, s, |head|);
    assert s[|head| + 1..] == rest && s[..|head|] == head;
    assert rest[0..] == rest;
  }

  lemma StarsAreStars()
    ensures Split("*") == ["*"]
  {
    assert "*"[1..] == "";
    RunIs(NotSpace, "*", 1);
  }

  /** An expression with these minute and hour fields and three stars parses to them. */
  lemma ParsesTo(minute: string, hour: string)
    requires minute != "" && hour != "" && All(NotSpace, minute) && All(NotSpace, hour)
    ensures Parse(Expression(minute, hour)) ==
            Some(Schedule(ParseField(minute), ParseField(hour)))
  {
    var d := "*" + " " + ("*" + " " + "*");
    var c := hour + " " + d;
    var s := minute + " " + c;
    RunAt(NotSpace, minute, 0);
    RunAt(NotSpace, hour, 0);
    assert s[0] == minute[0] && s[|s| - 1] == '*';
    assert Trim(s) == s;
    RunIs(NotSpace, "*", 1);
    StarsAreStars();
    SplitJoined("*", "*");
    SplitJoined("*", "*" + " " + "*");
    SplitJoined(hour, d);
    SplitJoined(minute, c);
    FiveParts(Split(s), minute, hour);
  }

  lemma FiveParts(parts: seq<string>, minute: string, hour: string)
    requires parts == [minute] + ([hour] + (["*"] + (["*"] + ["*"])))
    ensures |parts| == 5 && parts[0] == minute && parts[1] == hour
    ensures parts[2] == "*" && parts[3] == "*" && parts[4] == "*"
  {}

  lemma OneDigit(c: char)
    requires IsDigit(c)
    ensures Digits([c]) && DecimalValue([c]) == c as nat - '0' as nat
  {
    assert [c][1..] == "" && [c][..0] == "";
  }

  lemma TwoDigits(a: char, b: char)
    requires IsDigit(a) && IsDigit(b)
    ensures Digits([a, b]) && DecimalValue([a, b]) == 10 * (a as nat - '0' as nat) + (b as nat - '0' as nat)
  {
    OneDigit(a);
    OneDigit(b);
    assert [a, b][1..] == [b] && [a, b][..1] == [a];
  }

  lemma EveryFields()
    ensures ParseField("*/5") == Every(5) && ParseField("*/20") == Every(20) && ParseField("*/6") == Every(6)
  {
    OneDigit('5');
    OneDigit('6');
    TwoDigits('2', '0');
    assert "*/5"[2..] == ['5'] && "*/6"[2..] == ['6'] && "*/20"[2..] == ['2', '0'];
    assert "*/5"[..2] == "*/" && "*/6"[..2] == "*/" && "*/20"[..2] == "*/";
  }

  lemma SteppedField()
    ensures ParseField("2-59/5") == Stepped(2, 59, 5)
  {
    var f := "2-59/5";
    FindIs('-', f, 1);
    var rest := f[2..];
    assert rest == "59/5";
    FindIs('/', rest, 2);
    OneDigit('2');
    OneDigit('5');
    TwoDigits('5', '9');
    assert f[..1] == ['2'] && rest[..2] == ['5', '9'] && rest[3..] == ['5'];
    assert f[..2][1] == '-';
  }

  lemma AnyField()
    ensures ParseField("*") == Any
  {}

  lemma ExactField()
    ensures ParseField("0") == Exactly(0)
  {
    OneDigit('0');
    FindIs('-', "0", 1);
    assert "0" == ['0'];
  }

  lemma Plain(field: string)
    requires forall i :: 0 <= i < |field| ==> NotSpace(field[i])
    ensures All(NotSpace, field)
  {
    RunIs(NotSpace, field, |field|);
  }

  /** The firings of an expression, from its two parsed fields. */
  lemma FiresWhen(cron: string, minute: string, hour: string, m: Field, h: Field, t: int)
    requires cron == Expression(minute, hour) && minute != "" && hour != ""
    requires All(NotSpace, minute) && All(NotSpace, hour)
    requires ParseField(minute) == m && ParseField(hour) == h
    ensures Fires(cron, t) <==> t % MINUTE == 0 && Matches(m, MinuteOf(t)) && Matches(h, HourOf(t))
  {
    ParsesTo(minute, hour);
  }

  /** Governance runs every 5 minutes. */
  lemma GovernanceEveryFive(t: int)
    ensures Fires(CRON_GOVERNANCE, t) <==> t % (5 * MINUTE) == 0
  {
    hide Fires, ParseField, MinuteOf, HourOf, All;
    EveryFields();
    AnyField();
    Plain("*/5");
    Plain("*");
    EveryFive(t);
    FiresWhen(CRON_GOVERNANCE, "*/5", "*", Every(5), Any, t);
  }

  /** Vote lists are synced every 20 minutes. */
  lemma VotesEveryTwenty(t: int)
    ensures Fires(CRON_VOTE_SYNC, t) <==> t % (20 * MINUTE) == 0
  {
    hide Fires, ParseField, MinuteOf, HourOf, All;
    EveryFields();
    AnyField();
    Plain("*/20");
    Plain("*");
    EveryTwenty(t);
    FiresWhen(CRON_VOTE_SYNC, "*/20", "*", Every(20), Any, t);
  }

  /** DReps are synced every 6 hours. */
  lemma DRepsEverySixHours(t: int)
    ensures Fires(CRON_DREP_SYNC, t) <==> t % (360 * MINUTE) == 0
  {
    hide Fires, ParseField, MinuteOf, HourOf, All;
    EveryFields();
    ExactField();
    Plain("0");
    Plain("*/6");
    EverySixHours(t);
    FiresWhen(CRON_DREP_SYNC, "0", "*/6", Exactly(0), Every(6), t);
  }

  /** Notifications go out two minutes past every fifth minute. */
  lemma NotificationsTwoPast(t: int)
    ensures Fires(CRON_NOTIFICATIONS, t) <==> (t - 2 * MINUTE) % (5 * MINUTE) == 0
  {
    hide Fires, ParseField, MinuteOf, HourOf, All;
    SteppedField();
    AnyField();
    Plain("2-59/5");
    Plain("*");
    TwoPastFive(t);
    FiresWhen(CRON_NOTIFICATIONS, "2-59/5", "*", Stepped(2, 59, 5), Any, t);
  }

  lemma EveryFive(t: int)
    ensures t % MINUTE == 0 && MinuteOf(t) % 5 == 0 <==> t % (5 * MINUTE) == 0
  {}

  lemma EveryTwenty(t: int)
    ensures t % MINUTE == 0 && MinuteOf(t) % 20 == 0 <==> t % (20 * MINUTE) == 0
  {}

  lemma ShiftTwo(t: int)
    ensures (t - 2 * MINUTE) % MINUTE == t % MINUTE && (t - 2 * MINUTE) / MINUTE == t / MINUTE - 2
  {}

  lemma WholeFives(t: int)
    ensures t % (5 * MINUTE) == 0 <==> t % MINUTE == 0 && (t / MINUTE) % 5 == 0
  {}

  lemma FiveIn(n: int, k: int, r: int)
    requires n == 5 * k + r && 0 <= r < 5
    ensures n % 5 == r
  {}

  lemma FiveInSixty(n: int)
    ensures n % 5 == (n % 60) % 5
  {
    var q, m := n / 60, n % 60;
    FiveIn(n, 12 * q + m / 5, m % 5);
  }

  lemma TwoMod(n: int)
    ensures (n - 2) % 5 == 0 <==> 2 <= n % 60 <= 59 && (n % 60 - 2) % 5 == 0
  {
    FiveInSixty(n);
    TwoIn(n);
    TwoIn(n % 60);
  }

  lemma TwoIn(n: int)
    ensures (n - 2) % 5 == 0 <==> n % 5 == 2
  {}

  lemma TwoPastFive(t: int)
    ensures t % MINUTE == 0 && 2 <= MinuteOf(t) <= 59 && (MinuteOf(t) - 2) % 5 == 0 <==>
            (t - 2 * MINUTE) % (5 * MINUTE) == 0
  {
    ShiftTwo(t);
    WholeFives(t - 2 * MINUTE);
    TwoMod(t / MINUTE);
  }

  lemma Minutes(t: int, n: int)
    requires t == MINUTE * n
    ensures t % MINUTE == 0 && t / MINUTE == n
  {}

  lemma Quarters(t: int, k: int)
    requires t == 360 * MINUTE * k
    ensures t % (360 * MINUTE) == 0
  {}

  lemma WholeQuarters(t: int)
    ensures t % (360 * MINUTE) == 0 <==> t % MINUTE == 0 && (t / MINUTE) % 360 == 0
  {
    if t % (360 * MINUTE) == 0 {
      Minutes(t, 360 * (t / (360 * MINUTE)));
    } else if t % MINUTE == 0 && (t / MINUTE) % 360 == 0 {
      Quarters(t, t / MINUTE / 360);
    }
  }

  lemma SixIn(n: int, k: int, r: int)
    requires n == 6 * k + r && 0 <= r < 6
    ensures n % 6 == r
  {}

  lemma SixInDay(h: int)
    ensures h % 6 == (h % 24) % 6
  {
    SixIn(h, 4 * (h / 24) + (h % 24) / 6, (h % 24) % 6);
  }

  lemma SixMod(n: int)
    ensures n % 360 == 0 <==> n % 60 == 0 && (n / 60 % 24) % 6 == 0
  {
    SixInDay(n / 60);
    HoursIn(n);
  }

  lemma HoursIn(n: int)
    ensures n % 360 == 0 <==> n % 60 == 0 && (n / 60) % 6 == 0
  {}

  lemma EverySixHours(t: int)
    ensures t % MINUTE == 0 && MinuteOf(t) == 0 && HourOf(t) % 6 == 0 <==> t % (360 * MINUTE) == 0
  {
    WholeQuarters(t);
    SixMod(t / MINUTE);
  }

  /** The fan-out runs exactly two minutes after each governance tick, in both directions. */
  lemma NotificationsFollowGovernance(t: int)
    ensures Fires(CRON_NOTIFICATIONS, t) <==> Fires(CRON_GOVERNANCE, t - 2 * MINUTE)
  {
    NotificationsTwoPast(t);
    GovernanceEveryFive(t - 2 * MINUTE);
  }

  // ---- Dispatch -------------------------------------------------------------------------------

  datatype SyncKind = Governance | VoteSync | DRepSync | Notifications

  function CadenceOf(kind: SyncKind): string {
    match kind
    case Governance => CRON_GOVERNANCE
    case VoteSync => CRON_VOTE_SYNC
    case DRepSync => CRON_DREP_SYNC
    case Notifications => CRON_NOTIFICATIONS
  }

  function ResolveCronKind(cron: string): Option<SyncKind> {
    if cron == CRON_GOVERNANCE then Some(Governance)
    else if cron == CRON_VOTE_SYNC then Some(VoteSync)
    else if cron == CRON_DREP_SYNC then Some(DRepSync)
    else if cron == CRON_NOTIFICATIONS then Some(Notifications)
    else None
  }

  /** A scheduled event runs a kind of sync exactly when it carries that kind's own cadence; no two kinds share one. */
  lemma DispatchIff(cron: string, kind: SyncKind)
    ensures ResolveCronKind(cron) == Some(kind) <==> cron == CadenceOf(kind)
  {
    assert CRON_GOVERNANCE[2] == '5' && CRON_VOTE_SYNC[2] == '2' && CRON_DREP_SYNC[0] == '0';
    assert CRON_GOVERNANCE[0] == '*' && CRON_VOTE_SYNC[0] == '*' && CRON_NOTIFICATIONS[0] == '2';
  }
}
