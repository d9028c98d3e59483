/** What every run of the pairing client keeps, whatever the interleaving of clicks, timers, visibility events and
    answers. */
module PairingRuns {
  import opened JsText
  import opened Pairing

  // ---- Pace -----------------------------------------------------------------------------------

  /** The wait before the poll after `i` answers. */
  function Pause(i: nat): int {
    if 2000 + 500 * i < 5000 then 2000 + 500 * i else 5000
  }

  /** The first `n` waits together. */
  function Pauses(n: nat): int {
    if n == 0 then 0 else Pauses(n - 1) + Pause(n - 1)
  }

  /** Polls started by a timer have each waited their turn, and none started at or after expiry. */
  predicate Paced(e: Effect, now: int) {
    && e.delay == Pause(e.rearmed)
    && e.byTimer <= e.rearmed + 1
    && e.began + Pauses(e.byTimer) <= now
    && (e.byTimer > 0 ==> !Expired(e.p, e.began + Pauses(e.byTimer)))
    && (e.timer.Some? ==>
          !e.inFlight && !e.cancelled && e.byTimer <= e.rearmed && e.began + Pauses(e.byTimer + 1) <= e.timer.value)
  }

  // ---- One effect, one event ------------------------------------------------------------------

  /** What one event may do to the page and to the effect it belongs to. */
  predicate FairTurn(page: Page, e: Effect, t: Turn) {
    && t.e.p == e.p && t.e.cancelled == e.cancelled && Paced(t.e, page.now)
    && t.page.now == page.now && t.page.blocked == page.blocked && t.page.screen == page.screen
    && (e.cancelled ==> t.page == page)
    && (t.page == page || t.page.phase.SignedIn? || t.page.phase.Failed?)
    && (t.page.slot == page.slot || t.page.slot == Empty)
    && (page.phase.SignedIn? ==> t.page.phase.SignedIn?)
    && (!e.cancelled && t.page.phase.Active? ==> t.e.inFlight != t.e.timer.Some?)
  }

  lemma TimerTurn(page: Page, e: Effect)
    requires Paced(e, page.now) && e.timer.Some? && e.timer.value <= page.now
    ensures FairTurn(page, e, FireTimer(page, e))
  {
    assert Pauses(e.byTimer + 1) == Pauses(e.byTimer) + Pause(e.byTimer);
  }

  lemma ShownTurn(page: Page, e: Effect)
    requires Paced(e, page.now) && !e.cancelled
    ensures FairTurn(page, e, Shown(page, e))
  {
  }

  lemma LandedTurn(page: Page, e: Effect, outcome: PollTick)
    requires Paced(e, page.now) && e.inFlight
    ensures FairTurn(page, e, PollLands(page, e, outcome))
  {
    assert Pause(e.rearmed + 1) == NextDelay(Pause(e.rearmed));
    assert Pauses(e.byTimer + 1) == Pauses(e.byTimer) + Pause(e.byTimer);
  }

  // ---- The invariant --------------------------------------------------------------------------

  predicate AllPaced(effects: seq<Effect>, now: int) {
    forall i :: 0 <= i < |effects| ==> Paced(effects[i], now)
  }

  predicate OnlyLastRuns(effects: seq<Effect>) {
    forall i :: 0 <= i < |effects| - 1 ==> effects[i].cancelled
  }

  /** The last effect is running exactly while a pairing is on screen; until an outcome ends the pairing, it has either
      one poll on the wire or one timer armed. */
  predicate Attached(page: Page, effects: seq<Effect>) {
    if page.screen.Active? then
      && effects != []
      && var e := effects[|effects| - 1];
      && !e.cancelled && e.p == page.screen.p
      && (page.phase == page.screen || page.phase.SignedIn? || page.phase.Failed?)
      && (page.phase.Active? ==> e.inFlight != e.timer.Some?)
    else effects == [] || effects[|effects| - 1].cancelled
  }

  /** A start request of the mounted instance is on the wire exactly in the starting phase, and then only one. */
  predicate StartsOk(c: Client) {
    && (forall s :: s in c.starts ==> s <= c.instance)
    && c.starts[c.instance] == (if c.page.phase.Starting? then 1 else 0)
    && (c.page.phase.Starting? ==> c.page.screen.Starting?)
  }

  predicate StorageOk(c: Client) {
    && (c.page.slot.Holds? ==> c.page.slot.p in c.issued)
    && (c.page.phase.Active? ==> c.page.phase.p in c.issued)
  }

  predicate Inv(c: Client) {
    AllPaced(c.effects, c.page.now) && OnlyLastRuns(c.effects) && Attached(c.page, c.effects) &&
    StartsOk(c) && StorageOk(c)
  }

  lemma TookKeeps(c: Client, i: nat, t: Turn)
    requires Inv(c) && i < |c.effects| && FairTurn(c.page, c.effects[i], t)
    ensures Inv(Took(c, i, t))
  {
  }

  lemma WaitKeeps(c: Client, ms: nat)
    requires Inv(c)
    ensures Inv(c.(page := c.page.(now := c.page.now + ms)))
  {
    forall i | 0 <= i < |c.effects| ensures Paced(c.effects[i], c.page.now + ms) {
      assert Paced(c.effects[i], c.page.now);
    }
  }

  lemma CleanKeeps(effects: seq<Effect>, now: int)
    requires AllPaced(effects, now) && OnlyLastRuns(effects)
    ensures AllPaced(CleanLast(effects), now)
    ensures forall i :: 0 <= i < |CleanLast(effects)| ==> CleanLast(effects)[i].cancelled
  {
  }

  /** Rendering keeps the invariant even where a click has just replaced a pairing the effect still polls for. */
  lemma CommitKeeps(c: Client)
    requires AllPaced(c.effects, c.page.now) && OnlyLastRuns(c.effects)
    requires Attached(c.page, c.effects) || !c.page.phase.Active?
    requires forall s :: s in c.starts ==> s <= c.instance
    requires c.starts[c.instance] == (if c.page.phase.Starting? then 1 else 0)
    requires StorageOk(c)
    ensures Inv(Commit(c))
  {
    CleanKeeps(c.effects, c.page.now);
    if c.page.phase.Active? {
      assert Pauses(1) == Pauses(0) + Pause(0);
      assert Paced(NewEffect(c.page.phase.p, c.page.now), c.page.now);
    }
  }

  lemma MountKeeps(c: Client)
    requires AllPaced(c.effects, c.page.now) && OnlyLastRuns(c.effects) && Attached(c.page, c.effects)
    requires StartsOk(c) && c.page.phase.Idle? && c.page.screen.Idle?
    requires c.page.slot.Holds? ==> c.page.slot.p in c.issued
    ensures Inv(Mount(c))
  {
  }

  lemma RemountKeeps(c: Client)
    requires Inv(c)
    ensures Inv(Remount(c))
  {
    CleanKeeps(c.effects, c.page.now);
    var next := c.(page := c.page.(phase := Idle, screen := Idle), effects := CleanLast(c.effects),
                   instance := c.instance + 1);
    assert next.instance !in c.starts;
    MountKeeps(next);
  }

  lemma StartLandsKeeps(c: Client, sender: nat, result: StartResult, writable: bool)
    requires Inv(c) && sender in c.starts && (result.StartOk? ==> result.p !in c.issued)
    ensures Inv(StartLands(c, sender, result, writable))
  {
    var d := StartLands(c, sender, result, writable);
    assert StartsOk(d) by {
      forall s | s in d.starts ensures s <= c.instance { assert s in c.starts; }
    }
  }

  lemma StepKeeps(c: Client, ev: Event)
    requires Inv(c) && Enabled(c, ev)
    ensures Inv(Step(c, ev))
  {
    match ev
    case Wait(ms) => WaitKeeps(c, ms);
    case TimerFires(i) =>
      TimerTurn(c.page, c.effects[i]);
      TookKeeps(c, i, FireTimer(c.page, c.effects[i]));
    case BecomesVisible(i) =>
      ShownTurn(c.page, c.effects[i]);
      TookKeeps(c, i, Shown(c.page, c.effects[i]));
    case PollAnswered(i, outcome) =>
      LandedTurn(c.page, c.effects[i], outcome);
      TookKeeps(c, i, PollLands(c.page, c.effects[i], outcome));
    case Commits => CommitKeeps(c);
    case StartClicked =>
      CommitKeeps(c.(page := c.page.(phase := Phase.Starting), starts := c.starts + multiset{c.instance}));
    case StartAnswered(sender, result, writable) => StartLandsKeeps(c, sender, result, writable);
    case CancelClicked => CommitKeeps(c.(page := ClearPairing(c.page).(phase := Idle)));
    case Remounted => RemountKeeps(c);
  }

  lemma BootKeeps(slot: Slot, now: int, blocked: bool)
    ensures Inv(Boot(slot, now, blocked))
  {
    MountKeeps(Client(Page(now, blocked, slot, Idle, Idle), 0, multiset{}, [], if slot.Holds? then {slot.p} else {}));
  }

  lemma {:induction false} Kept(boot: Client, events: seq<Event>)
    requires Inv(boot)
    ensures After(boot, events).Some? ==> Inv(After(boot, events).value)
    decreases |events|
  {
    if events != [] && After(boot, events).Some? {
      Kept(boot, events[..|events| - 1]);
      StepKeeps(After(boot, events[..|events| - 1]).value, events[|events| - 1]);
    }
  }

  lemma ReachedKeeps(slot: Slot, now: int, blocked: bool, events: seq<Event>, c: Client)
    requires Reached(slot, now, blocked, events, c)
    ensures Inv(c)
  {
    BootKeeps(slot, now, blocked);
    Kept(Boot(slot, now, blocked), events);
  }

  // ---- One chain of polls ---------------------------------------------------------------------

  /** The polling chain neither doubles nor dies: while the pairing on screen has no outcome, the newest effect polls
      for it with either one poll on the wire or one timer armed, and no other effect has a timer or can act. */
  lemma OneChain(slot: Slot, now: int, blocked: bool, events: seq<Event>, c: Client)
    requires Reached(slot, now, blocked, events, c) && c.page.screen.Active? && c.page.phase.Active?
    ensures c.effects != [] && c.effects[|c.effects| - 1].p == c.page.phase.p
    ensures var e := c.effects[|c.effects| - 1]; !e.cancelled && e.inFlight != e.timer.Some?
    ensures forall i :: 0 <= i < |c.effects| - 1 ==> c.effects[i].cancelled && c.effects[i].timer.None?
  {
    ReachedKeeps(slot, now, blocked, events, c);
    forall i | 0 <= i < |c.effects| - 1 ensures c.effects[i].cancelled && c.effects[i].timer.None? {
      assert Paced(c.effects[i], c.page.now);
    }
  }

  /** An effect that has been superseded, or whose pairing is not the active one, changes neither the state nor the
      stored secret when its poll is answered, and arms no timer. */
  lemma SupersededIsInert(
      slot: Slot, now: int, blocked: bool, events: seq<Event>, c: Client, i: nat, outcome: PollTick)
    requires Reached(slot, now, blocked, events, c) && Enabled(c, PollAnswered(i, outcome))
    requires i < |c.effects| - 1 || (c.page.phase.Active? && c.effects[i].p != c.page.phase.p)
    ensures var d := Step(c, PollAnswered(i, outcome));
      d.page == c.page && d.effects == c.effects[i := c.effects[i].(inFlight := false)] && d.effects[i].timer.None?
  {
    ReachedKeeps(slot, now, blocked, events, c);
    assert Paced(c.effects[i], c.page.now);
    assert c.effects[i].cancelled;
  }

  /** Nothing that happens by itself turns signed-in into anything else. A click can only before signed-in is
      rendered; after that, only taking the component off the page does. */
  lemma SignedInStays(slot: Slot, now: int, blocked: bool, events: seq<Event>, c: Client, ev: Event)
    requires Reached(slot, now, blocked, events, c) && c.page.phase.SignedIn? && Enabled(c, ev)
    requires ev.StartClicked? || ev.CancelClicked? ==> c.page.screen.SignedIn?
    requires !ev.Remounted?
    ensures Step(c, ev).page.phase.SignedIn?
  {
    ReachedKeeps(slot, now, blocked, events, c);
    match ev
    case TimerFires(i) => TimerTurn(c.page, c.effects[i]);
    case BecomesVisible(i) => ShownTurn(c.page, c.effects[i]);
    case PollAnswered(i, outcome) => LandedTurn(c.page, c.effects[i], outcome);
    case _ =>
  }

  /** With storage blocked the mount effect throws: the island never comes up. */
  lemma BlockedNeverStarts(slot: Slot, now: int, events: seq<Event>, c: Client)
    requires Reached(slot, now, true, events, c)
    ensures events == [] && c.page.phase.Crashed?
  {
    BlockedStops(slot, now, events);
  }

  lemma {:induction false} BlockedStops(slot: Slot, now: int, events: seq<Event>)
    ensures events != [] ==> After(Boot(slot, now, true), events).None?
    decreases |events|
  {
    if events != [] {
      BlockedStops(slot, now, events[..|events| - 1]);
    }
  }

  // ---- Storage and screen ---------------------------------------------------------------------

  /** After `events` the storage entry was last written for the pairing that is active: that pairing was read from it,
      or saved to it, and no start request of an earlier instance has been saved since. */
  predicate LastWriteIsOwn(boot: Client, events: seq<Event>)
    decreases |events|
  {
    events == [] ||
    var earlier := events[..|events| - 1];
    var ev := events[|events| - 1];
    var before := After(boot, earlier);
    if ev.Remounted? then true
    else if ev.StartAnswered? && ev.result.StartOk? && before.Some? then
      if ev.sender == before.value.instance then ev.writable
      else LastWriteIsOwn(boot, earlier) && !ev.writable
    else LastWriteIsOwn(boot, earlier)
  }

  predicate Matches(c: Client, own: bool) {
    c.page.phase.Active? ==> (c.page.slot == Holds(c.page.phase.p) <==> own)
  }

  lemma MatchesStep(c: Client, ev: Event, own: bool)
    requires Inv(c) && Enabled(c, ev) && !c.page.blocked && Matches(c, own)
    ensures Matches(Step(c, ev),
      if ev.Remounted? then true
      else if ev.StartAnswered? && ev.result.StartOk? then
        if ev.sender == c.instance then ev.writable else own && !ev.writable
      else own)
  {
    match ev
    case TimerFires(i) =>
      TimerTurn(c.page, c.effects[i]);
      TurnMatches(c, i, FireTimer(c.page, c.effects[i]), own);
    case BecomesVisible(i) =>
      ShownTurn(c.page, c.effects[i]);
      TurnMatches(c, i, Shown(c.page, c.effects[i]), own);
    case PollAnswered(i, outcome) =>
      LandedTurn(c.page, c.effects[i], outcome);
      TurnMatches(c, i, PollLands(c.page, c.effects[i], outcome), own);
    case StartAnswered(sender, result, writable) => StartMatches(c, sender, result, writable, own);
    case _ =>
  }

  lemma TurnMatches(c: Client, i: nat, t: Turn, own: bool)
    requires i < |c.effects| && FairTurn(c.page, c.effects[i], t) && Matches(c, own)
    ensures Matches(Took(c, i, t), own)
  {
    hide Paced;
  }

  lemma StartMatches(c: Client, sender: nat, result: StartResult, writable: bool, own: bool)
    requires Inv(c) && sender in c.starts && (result.StartOk? ==> result.p !in c.issued)
    requires !c.page.blocked && Matches(c, own)
    ensures Matches(StartLands(c, sender, result, writable),
      if result.StartOk? then if sender == c.instance then writable else own && !writable else own)
  {
    hide AllPaced, OnlyLastRuns, Attached, StartsOk;
  }

  lemma {:induction false} MatchesRun(boot: Client, events: seq<Event>)
    requires Inv(boot) && !boot.page.blocked && Matches(boot, true)
    ensures After(boot, events).Some? ==> Matches(After(boot, events).value, LastWriteIsOwn(boot, events))
    decreases |events|
  {
    if events != [] && After(boot, events).Some? {
      var earlier := events[..|events| - 1];
      Kept(boot, earlier);
      NeverBlocked(boot, earlier);
      MatchesRun(boot, earlier);
      MatchesStep(After(boot, earlier).value, events[|events| - 1], LastWriteIsOwn(boot, earlier));
    }
  }

  /** While a pairing is active, storage holds it exactly when the entry was last written for it. */
  lemma StorageMatchesScreenIff(slot: Slot, now: int, blocked: bool, events: seq<Event>, c: Client)
    requires Reached(slot, now, blocked, events, c) && c.page.phase.Active?
    ensures c.page.slot == Holds(c.page.phase.p) <==> LastWriteIsOwn(Boot(slot, now, blocked), events)
  {
    hide Inv, LastWriteIsOwn;
    if blocked {
      BlockedNeverStarts(slot, now, events, c);
    } else {
      BootKeeps(slot, now, false);
      MatchesRun(Boot(slot, now, false), events);
    }
  }

  /** Every start request of the run was answered to the instance that sent it, and its pairing could be saved. */
  predicate StartsComeHome(boot: Client, events: seq<Event>)
    decreases |events|
  {
    events == [] ||
    (StartsComeHome(boot, events[..|events| - 1]) &&
     var ev := events[|events| - 1];
     var before := After(boot, events[..|events| - 1]);
     ev.StartAnswered? && before.Some? ==> ev.sender == before.value.instance && ev.writable)
  }

  lemma {:induction false} HomeIsOwn(boot: Client, events: seq<Event>)
    requires StartsComeHome(boot, events)
    ensures LastWriteIsOwn(boot, events)
    decreases |events|
  {
    hide After;
    if events != [] {
      HomeIsOwn(boot, events[..|events| - 1]);
    }
  }

  /** With storage available and no start request outliving its component, storage holds exactly the pairing on
      screen. */
  lemma StorageMatchesScreen(slot: Slot, now: int, events: seq<Event>, c: Client)
    requires Reached(slot, now, false, events, c) && c.page.phase.Active?
    requires StartsComeHome(Boot(slot, now, false), events)
    ensures c.page.slot == Holds(c.page.phase.p)
  {
    HomeIsOwn(Boot(slot, now, false), events);
    StorageMatchesScreenIff(slot, now, false, events, c);
  }

  /** A start request that outlives its component does break the match: `p` is on screen, `stale` is stored, and a
      reload would bring `stale` up. */
  lemma StaleStartOverwrites(p: StoredPairing, stale: StoredPairing) returns (events: seq<Event>, c: Client)
    requires p != stale
    ensures Reached(Empty, 0, false, events, c)
    ensures c.page.phase.Active? && c.page.phase.p == p && c.page.slot == Holds(stale)
  {
    var c0 := Boot(Empty, 0, false);
    var c1 := Step(c0, StartClicked);
    var c2 := Step(c1, Remounted);
    var c3 := Step(c2, StartClicked);
    assert c3.starts == multiset{0, 1};
    var c4 := Step(c3, StartAnswered(1, StartOk(p, ""), true));
    c := Step(c4, StartAnswered(0, StartOk(stale, ""), true));
    events := [];
    events := Then(c0, events, c0, StartClicked);
    events := Then(c0, events, c1, Remounted);
    events := Then(c0, events, c2, StartClicked);
    events := Then(c0, events, c3, StartAnswered(1, StartOk(p, ""), true));
    events := Then(c0, events, c4, StartAnswered(0, StartOk(stale, ""), true));
  }

  lemma Then(boot: Client, events: seq<Event>, c: Client, ev: Event) returns (more: seq<Event>)
    requires After(boot, events) == Some(c) && Enabled(c, ev)
    ensures more == events + [ev] && After(boot, more) == Some(Step(c, ev))
  {
    more := events + [ev];
    assert more[..|more| - 1] == events;
  }

  // ---- How many polls -------------------------------------------------------------------------

  /** The n-th poll that a timer starts comes no earlier than the first n waits after the effect began, and before
      expiry. */
  lemma TimerPollsArePaced(slot: Slot, now: int, blocked: bool, events: seq<Event>, c: Client, i: nat)
    requires Reached(slot, now, blocked, events, c) && i < |c.effects|
    ensures var e := c.effects[i];
      e.began + Pauses(e.byTimer) <= c.page.now &&
      (e.byTimer > 0 ==> !Expired(e.p, e.began + Pauses(e.byTimer)))
  {
    ReachedKeeps(slot, now, blocked, events, c);
    assert Paced(c.effects[i], c.page.now);
  }

  function Shows(events: seq<Event>, i: nat): nat
    decreases |events|
  {
    if events == [] then 0
    else Shows(events[..|events| - 1], i) + if events[|events| - 1] == BecomesVisible(i) then 1 else 0
  }

  lemma {:induction false} HandPollsAreShows(boot: Client, events: seq<Event>, i: nat)
    requires boot.effects == []
    ensures var after := After(boot, events);
      after.Some? && i < |after.value.effects| ==> after.value.effects[i].byHand <= Shows(events, i)
    decreases |events|
  {
    if events != [] && After(boot, events).Some? {
      var before := After(boot, events[..|events| - 1]).value;
      var ev := events[|events| - 1];
      HandPollsAreShows(boot, events[..|events| - 1], i);
      HandStep(before, ev, i);
    }
  }

  lemma HandStep(c: Client, ev: Event, i: nat)
    requires Enabled(c, ev)
    ensures var d := Step(c, ev);
      i < |d.effects| ==>
        d.effects[i].byHand <=
        (if i < |c.effects| then c.effects[i].byHand else 0) + if ev == BecomesVisible(i) then 1 else 0
  {
  }

  lemma {:induction false} PausesFrom(n: nat)
    requires n >= 6
    ensures Pauses(n) == 19500 + 5000 * (n - 6)
  {
    if n == 6 {
      assert Pauses(3) == 7500;
      assert Pauses(6) == 19500;
    } else {
      PausesFrom(n - 1);
    }
  }

  /** A pairing that expires within ten minutes of when polling began is polled at most 122 times by timers; any other
      poll was started by the page becoming visible. */
  lemma AtMost122(slot: Slot, now: int, blocked: bool, events: seq<Event>, c: Client, i: nat)
    requires Reached(slot, now, blocked, events, c) && i < |c.effects|
    requires Expired(c.effects[i].p, c.effects[i].began + 600000)
    ensures c.effects[i].byTimer <= 122
    ensures c.effects[i].byTimer + c.effects[i].byHand <= 122 + Shows(events, i)
  {
    TimerPollsArePaced(slot, now, blocked, events, c, i);
    if c.effects[i].byTimer >= 6 {
      PausesFrom(c.effects[i].byTimer);
    }
    HandPollsAreShows(Boot(slot, now, blocked), events, i);
  }

  /** One effect that has polled `n` times by its timer, each answered at once. */
  predicate Polled(c: Client, p: StoredPairing, n: nat) {
    && c.page.phase.Active? && c.page.phase.p == p && c.page.now == Pauses(n)
    && c.effects == [Effect(p, false, false, Some(Pauses(n) + Pause(n)), Pause(n), 0, n, 0, n)]
  }

  lemma PollOnce(c: Client, p: StoredPairing, n: nat) returns (c1: Client, c2: Client, c3: Client)
    requires Polled(c, p, n) && !Expired(p, Pauses(n + 1))
    ensures Enabled(c, Event.Wait(Pause(n))) && c1 == Step(c, Event.Wait(Pause(n)))
    ensures Enabled(c1, TimerFires(0)) && c2 == Step(c1, TimerFires(0))
    ensures Enabled(c2, PollAnswered(0, Pending)) && c3 == Step(c2, PollAnswered(0, Pending)) && Polled(c3, p, n + 1)
  {
    assert Pauses(n + 1) == Pauses(n) + Pause(n);
    assert NextDelay(Pause(n)) == Pause(n + 1);
    c1 := Step(c, Event.Wait(Pause(n)));
    c2 := Step(c1, TimerFires(0));
    c3 := Step(c2, PollAnswered(0, Pending));
  }

  lemma {:induction false} PollsFit(n: nat)
    requires n <= 122
    ensures Pauses(n) < 600000
  {
    if n >= 6 {
      PausesFrom(n);
    } else {
      assert Pauses(3) == 7500;
    }
  }

  /** With answers that come at once the timer does poll 122 times in ten minutes: no smaller bound holds. */
  lemma {:induction false} PollsAttained(p: StoredPairing, n: nat) returns (events: seq<Event>, c: Client)
    requires p.expiresAt == Some(600) && n <= 122
    ensures Reached(Empty, 0, false, events, c) && Polled(c, p, n)
    decreases n
  {
    hide After;
    var boot := Boot(Empty, 0, false);
    if n == 0 {
      events, c := FirstEffect(p);
    } else {
      var before;
      events, before := PollsAttained(p, n - 1);
      PollsFit(n);
      var c1, c2, c3 := PollOnce(before, p, n - 1);
      events := Then(boot, events, before, Event.Wait(Pause(n - 1)));
      events := Then(boot, events, c1, TimerFires(0));
      events := Then(boot, events, c2, PollAnswered(0, Pending));
      c := c3;
    }
  }

  lemma FirstEffect(p: StoredPairing) returns (events: seq<Event>, c: Client)
    requires p.expiresAt == Some(600)
    ensures Reached(Empty, 0, false, events, c) && Polled(c, p, 0)
  {
    var c0 := Boot(Empty, 0, false);
    var c1 := Step(c0, StartClicked);
    assert c1.starts == multiset{0};
    var c2 := Step(c1, StartAnswered(0, StartOk(p, ""), true));
    c := Step(c2, Commits);
    events := Then(c0, [], c0, StartClicked);
    events := Then(c0, events, c1, StartAnswered(0, StartOk(p, ""), true));
    events := Then(c0, events, c2, Commits);
  }

  // ---- Ending and resuming --------------------------------------------------------------------

  /** What becomes of the secret of an active pairing. */
  predicate Accounted(c: Client, ev: Event, d: Client) {
    if d.page.phase.SignedIn? || d.page.phase.Failed? || d.page.phase.Idle? then d.page.slot == Empty
    else if ev.StartAnswered? then d.page.phase == c.page.phase
    else d.page.slot == c.page.slot && (d.page.phase == c.page.phase || ev.StartClicked?)
  }

  lemma TurnAccounted(c: Client, i: nat, ev: Event, t: Turn)
    requires c.page.phase.Active? && i < |c.effects| && FairTurn(c.page, c.effects[i], t)
    requires !ev.StartAnswered? && (t.page == c.page || t.page.slot == Empty)
    ensures Accounted(c, ev, Took(c, i, t))
  {
    hide Paced;
  }

  lemma ClearsOrKeeps(page: Page, e: Effect, outcome: PollTick)
    requires !page.blocked
    ensures Tick(page, e, true).page == page || Tick(page, e, true).page.slot == Empty
    ensures Tick(page, e, false).page == page || Tick(page, e, false).page.slot == Empty
    ensures PollLands(page, e, outcome).page == page || PollLands(page, e, outcome).page.slot == Empty
  {
  }

  /** A pairing that ends, by an outcome, by expiry or by Cancel, leaves no secret behind. Asking for a new code does
      not end it: the stored secret stays until a new pairing replaces it. */
  lemma EndedIsForgotten(slot: Slot, now: int, blocked: bool, events: seq<Event>, c: Client, ev: Event)
    requires Reached(slot, now, blocked, events, c) && Enabled(c, ev) && c.page.phase.Active? && !ev.Remounted?
    ensures Accounted(c, ev, Step(c, ev))
  {
    hide Inv;
    ReachedKeeps(slot, now, blocked, events, c);
    if blocked {
      BlockedNeverStarts(slot, now, events, c);
    } else {
      NeverBlocked(Boot(slot, now, false), events);
      StepAccounted(c, ev);
    }
  }

  lemma StepAccounted(c: Client, ev: Event)
    requires Inv(c) && Enabled(c, ev) && c.page.phase.Active? && !ev.Remounted? && !c.page.blocked
    ensures Accounted(c, ev, Step(c, ev))
  {
    match ev
    case TimerFires(i) =>
      TimerTurn(c.page, c.effects[i]);
      ClearsOrKeeps(c.page, c.effects[i].(timer := None), Pending);
      TurnAccounted(c, i, ev, FireTimer(c.page, c.effects[i]));
    case BecomesVisible(i) =>
      ShownTurn(c.page, c.effects[i]);
      ClearsOrKeeps(c.page, c.effects[i].(timer := None), Pending);
      TurnAccounted(c, i, ev, Shown(c.page, c.effects[i]));
    case PollAnswered(i, outcome) =>
      LandedTurn(c.page, c.effects[i], outcome);
      ClearsOrKeeps(c.page, c.effects[i], outcome);
      TurnAccounted(c, i, ev, PollLands(c.page, c.effects[i], outcome));
    case StartAnswered(sender, result, writable) => StrayStart(c, sender);
    case _ =>
  }

  /** No start request of the mounted instance is on the wire while a pairing is active. */
  lemma StrayStart(c: Client, sender: nat)
    requires Inv(c) && c.page.phase.Active? && sender in c.starts
    ensures sender != c.instance
  {
  }

  lemma {:induction false} NeverBlocked(boot: Client, events: seq<Event>)
    requires !boot.page.blocked
    ensures After(boot, events).Some? ==> !After(boot, events).value.page.blocked
    decreases |events|
  {
    if events != [] && After(boot, events).Some? {
      NeverBlocked(boot, events[..|events| - 1]);
      BlockedStays(After(boot, events[..|events| - 1]).value, events[|events| - 1]);
    }
  }

  lemma BlockedStays(c: Client, ev: Event)
    requires Enabled(c, ev)
    ensures Step(c, ev).page.blocked == c.page.blocked
  {
  }

  /** An evicted page that comes back before expiry resumes exactly the pairing it was polling for, and polls for it
      afresh once rendered; one that comes back later starts idle with the secret gone. */
  lemma Relaunch(slot: Slot, now: int, events: seq<Event>, c: Client, later: int)
    requires Reached(slot, now, false, events, c) && c.page.phase.Active?
    requires LastWriteIsOwn(Boot(slot, now, false), events)
    ensures var p := c.page.phase.p;
      var d := Commit(Boot(c.page.slot, later, false));
      if !Expired(p, later) then
        d.page.phase == Active(p, None) && d.page.slot == Holds(p) && d.effects == [NewEffect(p, later)]
      else d.page.phase == Idle && d.page.slot == Empty && d.effects == []
  {
    StorageMatchesScreenIff(slot, now, false, events, c);
  }
}
