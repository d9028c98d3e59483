/** What answers, clicks and timers lead to in the pairing client, and that no phase comes about without its cause. */
module PairingAnswers {
  import opened JsText
  import opened Pairing
  import opened PairingRuns

  // ---- What each event does -------------------------------------------------------------------

  lemma EventsAreUnblocked(slot: Slot, now: int, blocked: bool, events: seq<Event>, c: Client, ev: Event)
    requires Reached(slot, now, blocked, events, c) && Enabled(c, ev)
    ensures !blocked && !c.page.blocked
  {
    if blocked {
      BlockedNeverStarts(slot, now, events, c);
    } else {
      NeverBlocked(Boot(slot, now, false), events);
    }
  }

  /** The answer to a poll of the running effect: an approval signs in under the name it gives, and a failure fails
      unless the device is signed in already, with the secret gone in both cases; anything else leaves the page alone
      and arms the timer one longer wait ahead. */
  lemma AnswerDecides(
      slot: Slot, now: int, blocked: bool, events: seq<Event>, c: Client, i: nat, outcome: PollTick)
    requires Reached(slot, now, blocked, events, c) && Enabled(c, PollAnswered(i, outcome)) && !c.effects[i].cancelled
    ensures var d := Step(c, PollAnswered(i, outcome));
      !d.effects[i].inFlight &&
      match outcome
      case SignedInTick(name) =>
        d.page == c.page.(phase := SignedIn(name), slot := Empty) && d.effects[i].timer.None?
      case FailedTick =>
        d.page == c.page.(phase := if c.page.phase.SignedIn? then c.page.phase else Failed, slot := Empty) &&
        d.effects[i].timer.None?
      case _ =>
        d.page == c.page && d.effects[i].timer == Some(c.page.now + Pause(c.effects[i].rearmed + 1)) &&
        d.effects[i].rearmed == c.effects[i].rearmed + 1
  {
    ReachedKeeps(slot, now, blocked, events, c);
    EventsAreUnblocked(slot, now, blocked, events, c, PollAnswered(i, outcome));
    assert Paced(c.effects[i], c.page.now);
    assert NextDelay(Pause(c.effects[i].rearmed)) == Pause(c.effects[i].rearmed + 1);
  }

  /** A timer that fires, or the page becoming visible with no poll on the wire, polls at once; but once the pairing has
      expired it fails instead, and the secret is gone. */
  lemma TickDecides(slot: Slot, now: int, blocked: bool, events: seq<Event>, c: Client, i: nat, ev: Event)
    requires ev == TimerFires(i) || ev == BecomesVisible(i)
    requires Reached(slot, now, blocked, events, c) && Enabled(c, ev) && !c.effects[i].inFlight
    ensures var d := Step(c, ev);
      d.effects[i].timer.None? &&
      if c.effects[i].p.expiresAt.Some? && c.effects[i].p.expiresAt.value * 1000 <= c.page.now then
        d.page == c.page.(phase := if c.page.phase.SignedIn? then c.page.phase else Failed, slot := Empty) &&
        !d.effects[i].inFlight
      else d.page == c.page && d.effects[i].inFlight
  {
    ReachedKeeps(slot, now, blocked, events, c);
    EventsAreUnblocked(slot, now, blocked, events, c, ev);
    assert Paced(c.effects[i], c.page.now);
  }

  /** Asking for a code, and giving up. A click is rendered at once, which ends the polling. */
  lemma ClickDecides(slot: Slot, now: int, blocked: bool, events: seq<Event>, c: Client, ev: Event)
    requires Reached(slot, now, blocked, events, c) && Enabled(c, ev) && (ev.StartClicked? || ev.CancelClicked?)
    ensures var d := Step(c, ev);
      && d.page.phase == d.page.screen == (if ev.StartClicked? then Phase.Starting else Idle)
      && d.page.slot == (if ev.StartClicked? then c.page.slot else Empty)
      && d.starts == (if ev.StartClicked? then c.starts + multiset{c.instance} else c.starts)
      && |d.effects| == |c.effects| && forall e :: e in d.effects ==> e.cancelled && e.timer.None?
  {
    ReachedKeeps(slot, now, blocked, events, c);
    EventsAreUnblocked(slot, now, blocked, events, c, ev);
    CleanKeeps(c.effects, c.page.now);
    forall e | e in CleanLast(c.effects) ensures e.cancelled && e.timer.None? {
      assert Paced(e, c.page.now);
    }
  }

  /** The answer to a start request: the mounted instance shows the pairing with its code, or the error; one that is
      gone shows nothing. Either way a pairing is stored where it can be. */
  lemma StartDecides(
      slot: Slot, now: int, blocked: bool, events: seq<Event>, c: Client, sender: nat, result: StartResult,
      writable: bool)
    requires Reached(slot, now, blocked, events, c) && Enabled(c, StartAnswered(sender, result, writable))
    ensures var d := Step(c, StartAnswered(sender, result, writable));
      match result
      case StartOk(p, code) =>
        && d.page.slot == (if writable then Holds(p) else c.page.slot)
        && d.page.phase == (if sender == c.instance then Active(p, Some(code)) else c.page.phase)
      case StartFailed =>
        && d.page.slot == c.page.slot
        && d.page.phase == (if sender == c.instance then StartError else c.page.phase)
  {
    EventsAreUnblocked(slot, now, blocked, events, c, StartAnswered(sender, result, writable));
  }

  /** A page that opens resumes a stored pairing that has not expired, and removes one that has and an entry it cannot
      read; one with nothing to resume is idle. */
  lemma OpeningDecides(slot: Slot, now: int)
    ensures var d := Boot(slot, now, false);
      && d.page.screen == Idle && d.effects == []
      && match slot
         case Holds(p) =>
           if p.expiresAt.Some? && p.expiresAt.value * 1000 <= now then d.page.phase == Idle && d.page.slot == Empty
           else d.page.phase == Active(p, None) && d.page.slot == slot
         case Corrupt => d.page.phase == Idle && d.page.slot == Empty
         case _ => d.page.phase == Idle && d.page.slot == slot
  {
  }

  /** Rendering shows the state, and starts polling for a pairing that is new on screen. */
  lemma CommitDecides(slot: Slot, now: int, blocked: bool, events: seq<Event>, c: Client)
    requires Reached(slot, now, blocked, events, c) && Enabled(c, Commits)
    ensures var d := Step(c, Commits);
      && d.page == c.page.(screen := c.page.phase)
      && (c.page.phase.Active? && !(c.page.screen.Active? && c.page.screen.p == c.page.phase.p) ==>
            |d.effects| == |c.effects| + 1 &&
            var e := d.effects[|c.effects|];
            e.p == c.page.phase.p && !e.cancelled && !e.inFlight && e.timer == Some(c.page.now + 2000))
      && (c.page.phase.Active? && c.page.screen.Active? && c.page.screen.p == c.page.phase.p ==> d.effects == c.effects)
  {
    ReachedKeeps(slot, now, blocked, events, c);
  }

  // ---- No phase without its cause -------------------------------------------------------------

  ghost predicate Approved(events: seq<Event>, name: string) {
    exists i :: PollAnswered(i, SignedInTick(name)) in events
  }

  ghost predicate Issued(events: seq<Event>, p: StoredPairing, code: string) {
    exists sender, writable :: StartAnswered(sender, StartOk(p, code), writable) in events
  }

  ghost predicate Refused(events: seq<Event>) {
    exists sender, writable :: StartAnswered(sender, StartFailed, writable) in events
  }

  /** A failed poll, or one that was due at or after the pairing's expiry. */
  ghost predicate FailedOrExpired(events: seq<Event>, c: Client) {
    (exists i :: PollAnswered(i, FailedTick) in events) ||
    exists i :: 0 <= i < |c.effects| && (TimerFires(i) in events || BecomesVisible(i) in events) &&
      Expired(c.effects[i].p, c.page.now)
  }

  /** The pairing was stored before the page was opened, or issued since. */
  ghost predicate Known(slot: Slot, events: seq<Event>, p: StoredPairing) {
    slot == Holds(p) || exists code :: Issued(events, p, code)
  }

  ghost predicate Caused(slot: Slot, events: seq<Event>, c: Client) {
    match c.page.phase
    case SignedIn(name) => Approved(events, name)
    case Failed => FailedOrExpired(events, c)
    case StartError => Refused(events)
    case Starting => StartClicked in events
    case Active(p, Some(code)) => Issued(events, p, code)
    case Active(p, None) => Known(slot, events, p)
    case _ => true
  }

  ghost predicate Stored(slot: Slot, events: seq<Event>, c: Client) {
    c.page.slot.Holds? ==> Known(slot, events, c.page.slot.p)
  }

  /** Effects stay, and time goes on. */
  lemma StepGoesOn(c: Client, ev: Event)
    requires Enabled(c, ev)
    ensures var d := Step(c, ev);
      c.page.now <= d.page.now && |c.effects| <= |d.effects| &&
      forall i :: 0 <= i < |c.effects| ==> d.effects[i].p == c.effects[i].p
  {
  }

  /** What was a cause stays one. */
  lemma CausesStay(slot: Slot, events: seq<Event>, c: Client, ev: Event, d: Client)
    requires Caused(slot, events, c) && d.page.phase == c.page.phase
    requires c.page.now <= d.page.now && |c.effects| <= |d.effects|
    requires forall i :: 0 <= i < |c.effects| ==> d.effects[i].p == c.effects[i].p
    ensures Caused(slot, events + [ev], d)
  {
    var more := events + [ev];
    assert forall e :: e in events ==> e in more;
    KnownStays(slot, events, ev);
    match c.page.phase
    case SignedIn(name) =>
      var i :| PollAnswered(i, SignedInTick(name)) in events;
      assert PollAnswered(i, SignedInTick(name)) in more;
    case Failed => FailedStays(events, c, ev, d);
    case StartError =>
      var sender, writable :| StartAnswered(sender, StartFailed, writable) in events;
      assert StartAnswered(sender, StartFailed, writable) in more;
    case Active(p, Some(code)) => IssuedStays(events, ev, p, code);
    case _ =>
  }

  lemma FailedStays(events: seq<Event>, c: Client, ev: Event, d: Client)
    requires FailedOrExpired(events, c)
    requires c.page.now <= d.page.now && |c.effects| <= |d.effects|
    requires forall i :: 0 <= i < |c.effects| ==> d.effects[i].p == c.effects[i].p
    ensures FailedOrExpired(events + [ev], d)
  {
    var more := events + [ev];
    assert forall e :: e in events ==> e in more;
    if i :| PollAnswered(i, FailedTick) in events {
      assert PollAnswered(i, FailedTick) in more;
    } else {
      var i :| 0 <= i < |c.effects| && (TimerFires(i) in events || BecomesVisible(i) in events) &&
        Expired(c.effects[i].p, c.page.now);
      assert TimerFires(i) in more || BecomesVisible(i) in more;
      assert Expired(d.effects[i].p, d.page.now);
    }
  }

  lemma IssuedStays(events: seq<Event>, ev: Event, p: StoredPairing, code: string)
    requires Issued(events, p, code)
    ensures Issued(events + [ev], p, code)
  {
    var sender, writable :| StartAnswered(sender, StartOk(p, code), writable) in events;
    assert StartAnswered(sender, StartOk(p, code), writable) in events + [ev];
  }

  lemma KnownStays(slot: Slot, events: seq<Event>, ev: Event)
    ensures forall p :: Known(slot, events, p) ==> Known(slot, events + [ev], p)
  {
    forall p | Known(slot, events, p) ensures Known(slot, events + [ev], p) {
      if slot != Holds(p) {
        var code :| Issued(events, p, code);
        IssuedStays(events, ev, p, code);
      }
    }
  }

  lemma StoredStays(slot: Slot, events: seq<Event>, c: Client, ev: Event)
    requires Enabled(c, ev) && Stored(slot, events, c)
    ensures Stored(slot, events + [ev], Step(c, ev))
  {
    KnownStays(slot, events, ev);
    if ev.StartAnswered? && ev.result.StartOk? {
      assert ev in events + [ev];
      assert Issued(events + [ev], ev.result.p, ev.result.code);
    }
  }

  /** A phase that an event brings about has that event, or what is stored, as its cause. */
  lemma NewPhaseCaused(slot: Slot, events: seq<Event>, c: Client, ev: Event)
    requires Inv(c) && Enabled(c, ev) && Stored(slot, events, c) && Step(c, ev).page.phase != c.page.phase
    ensures Caused(slot, events + [ev], Step(c, ev))
  {
    hide Inv, Caused, Known, Stored;
    assert ev in events + [ev];
    match ev
    case PollAnswered(i, outcome) => AnswerCaused(slot, events, c, i, outcome);
    case TimerFires(i) => TickCaused(slot, events, c, ev, i);
    case BecomesVisible(i) => TickCaused(slot, events, c, ev, i);
    case StartAnswered(sender, result, writable) => StartCaused(slot, events, c, sender, result, writable);
    case Remounted => RemountCaused(slot, events, c);
    case StartClicked => StartClickCaused(slot, events, c);
    case CancelClicked => IdleCaused(slot, events + [ev], Step(c, ev));
    case _ =>
  }

  lemma IdleCaused(slot: Slot, events: seq<Event>, c: Client)
    requires c.page.phase.Idle?
    ensures Caused(slot, events, c)
  {
  }

  lemma StartClickCaused(slot: Slot, events: seq<Event>, c: Client)
    requires Enabled(c, StartClicked)
    ensures Caused(slot, events + [StartClicked], Step(c, StartClicked))
  {
    assert StartClicked in events + [StartClicked];
  }

  lemma AnswerCaused(slot: Slot, events: seq<Event>, c: Client, i: nat, outcome: PollTick)
    requires Enabled(c, PollAnswered(i, outcome)) && Step(c, PollAnswered(i, outcome)).page.phase != c.page.phase
    ensures Caused(slot, events + [PollAnswered(i, outcome)], Step(c, PollAnswered(i, outcome)))
  {
    assert PollAnswered(i, outcome) in events + [PollAnswered(i, outcome)];
  }

  lemma TickCaused(slot: Slot, events: seq<Event>, c: Client, ev: Event, i: nat)
    requires ev == TimerFires(i) || ev == BecomesVisible(i)
    requires Enabled(c, ev) && Step(c, ev).page.phase != c.page.phase
    ensures Caused(slot, events + [ev], Step(c, ev))
  {
    var d := Step(c, ev);
    assert ev in events + [ev];
    assert d.page.phase == Failed && Expired(d.effects[i].p, d.page.now);
  }

  lemma StartCaused(
      slot: Slot, events: seq<Event>, c: Client, sender: nat, result: StartResult, writable: bool)
    requires var ev := StartAnswered(sender, result, writable);
      Enabled(c, ev) && Step(c, ev).page.phase != c.page.phase
    ensures var ev := StartAnswered(sender, result, writable); Caused(slot, events + [ev], Step(c, ev))
  {
    assert StartAnswered(sender, result, writable) in events + [StartAnswered(sender, result, writable)];
  }

  lemma RemountCaused(slot: Slot, events: seq<Event>, c: Client)
    requires Enabled(c, Remounted) && Stored(slot, events, c)
    ensures Caused(slot, events + [Remounted], Step(c, Remounted))
  {
    hide Known;
    KnownStays(slot, events, Remounted);
  }

  lemma StepCaused(slot: Slot, events: seq<Event>, c: Client, ev: Event)
    requires Inv(c) && Enabled(c, ev) && Caused(slot, events, c) && Stored(slot, events, c)
    ensures Caused(slot, events + [ev], Step(c, ev)) && Stored(slot, events + [ev], Step(c, ev))
  {
    hide Inv, Caused, Stored, Step;
    StepGoesOn(c, ev);
    StoredStays(slot, events, c, ev);
    if Step(c, ev).page.phase == c.page.phase {
      CausesStay(slot, events, c, ev, Step(c, ev));
    } else {
      NewPhaseCaused(slot, events, c, ev);
    }
  }

  lemma {:induction false} RunCaused(slot: Slot, now: int, blocked: bool, events: seq<Event>)
    ensures var c := After(Boot(slot, now, blocked), events);
      c.Some? ==> Caused(slot, events, c.value) && Stored(slot, events, c.value)
    decreases |events|
  {
    var boot := Boot(slot, now, blocked);
    if events == [] {
    } else if After(boot, events).Some? {
      var n := |events| - 1;
      RunCaused(slot, now, blocked, events[..n]);
      ReachedKeeps(slot, now, blocked, events[..n], After(boot, events[..n]).value);
      StepCaused(slot, events[..n], After(boot, events[..n]).value, events[n]);
      assert events[..n] + [events[n]] == events;
    }
  }

  /** No phase comes about by itself, in any run: the device is signed in under a name only if some poll was answered
      with an approval of that name; it has failed only if a poll was answered so or came due after the pairing's
      expiry; a code is shown only as it was issued, and a pairing only if it was issued or stored before. */
  lemma EveryPhaseHasItsCause(slot: Slot, now: int, blocked: bool, events: seq<Event>, c: Client)
    requires Reached(slot, now, blocked, events, c)
    ensures Caused(slot, events, c)
  {
    RunCaused(slot, now, blocked, events);
  }
}
