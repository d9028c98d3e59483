/** The phone side of device pairing (src/components/PairWithDesktop.tsx) as a protocol: clicks, timers, visibility
    events and network answers in any order. A poll effect is one run of the component's polling effect; its
    `cancelled` flag is set by the effect's cleanup. Times are in milliseconds, `expiresAt` is in seconds. */
module Pairing {
  import opened JsText

  /** `expiresAt` is None where an entry parses without a number there: every comparison with it is then false. */
  datatype StoredPairing = StoredPairing(pairingId: string, deviceSecret: string, expiresAt: Option<int>)

  predicate Expired(p: StoredPairing, now: int) {
    p.expiresAt.Some? && p.expiresAt.value * 1000 <= now
  }

  /** The one localStorage entry: absent, unreadable, empty or parsing to a falsy value, or a pairing. */
  datatype Slot = Empty | Corrupt | Falsy | Holds(p: StoredPairing)

  datatype Phase =
    | Idle | Starting | StartError
    | Active(p: StoredPairing, code: Option<string>)
    | SignedIn(name: string)
    | Failed
    | Crashed

  /** The clock, the storage entry, the component's state and the state last rendered. */
  datatype Page = Page(now: int, blocked: bool, slot: Slot, phase: Phase, screen: Phase)

  /** One run of the polling effect. The last four fields are history: when it began, how many polls a timer and a
      visibility event started, and how often an answer armed the timer again. */
  datatype Effect = Effect(
    p: StoredPairing, cancelled: bool, inFlight: bool, timer: Option<int>, delay: int,
    began: int, byTimer: nat, byHand: nat, rearmed: nat)

  /** A page after one of its effects has handled an event. */
  datatype Turn = Turn(page: Page, e: Effect)

  const FIRST_DELAY := 2000

  function NextDelay(current: int): int {
    if current + 500 < 5000 then current + 500 else 5000
  }

  datatype PollTick = Pending | SignedInTick(name: string) | FailedTick | RetryableError

  // ---- Storage --------------------------------------------------------------------------------

  datatype Loaded = Loaded(found: Option<StoredPairing>, slot: Slot)

  /** An expired or unreadable entry is removed; one without an expiry is found. */
  function LoadPairing(slot: Slot, now: int): Loaded {
    match slot
    case Empty => Loaded(None, Empty)
    case Corrupt => Loaded(None, Empty)
    case Falsy => Loaded(None, Falsy)
    case Holds(p) => if Expired(p, now) then Loaded(None, Empty) else Loaded(Some(p), slot)
  }

  function SavePairing(page: Page, p: StoredPairing, writable: bool): Page {
    if page.blocked || !writable then page else page.(slot := Holds(p))
  }

  function ClearPairing(page: Page): Page {
    if page.blocked then page else page.(slot := Empty)
  }

  // ---- The polling effect ---------------------------------------------------------------------

  function NewEffect(p: StoredPairing, now: int): Effect {
    Effect(p, false, false, Some(now + FIRST_DELAY), FIRST_DELAY, now, 0, 0, 0)
  }

  function Cleanup(e: Effect): Effect {
    e.(cancelled := true, timer := None)
  }

  function FailPairing(page: Page): Page {
    var cleared := ClearPairing(page);
    if page.phase.SignedIn? then cleared else cleared.(phase := Failed)
  }

  /** `tick` up to its request: at most one poll on the wire, and none after expiry. */
  function Tick(page: Page, e: Effect, byTimer: bool): Turn {
    if e.cancelled || e.inFlight then Turn(page, e)
    else if Expired(e.p, page.now) then Turn(FailPairing(page), e)
    else if byTimer then Turn(page, e.(inFlight := true, byTimer := e.byTimer + 1))
    else Turn(page, e.(inFlight := true, byHand := e.byHand + 1))
  }

  function FireTimer(page: Page, e: Effect): Turn {
    Tick(page, e.(timer := None), true)
  }

  /** `onVisibilityChange` with the page visible. */
  function Shown(page: Page, e: Effect): Turn {
    if e.inFlight then Turn(page, e) else Tick(page, e.(timer := None), false)
  }

  /** `tick` from its answer on. */
  function PollLands(page: Page, e: Effect, outcome: PollTick): Turn {
    var idle := e.(inFlight := false);
    if e.cancelled then Turn(page, idle)
    else
      match outcome
      case SignedInTick(name) => Turn(ClearPairing(page).(phase := SignedIn(name)), idle)
      case FailedTick => Turn(FailPairing(page), idle)
      case _ =>
        var delay := NextDelay(e.delay);
        Turn(page, idle.(delay := delay, timer := Some(page.now + delay), rearmed := e.rearmed + 1))
  }

  // ---- The component --------------------------------------------------------------------------

  /** The page, every poll effect there has been, and the start requests on the wire: for each, the mounted instance
      of the component that sent it. `issued` is history: every pairing seen so far. */
  datatype Client = Client(
    page: Page, instance: nat, starts: multiset<nat>, effects: seq<Effect>, issued: set<StoredPairing>)

  function CleanLast(effects: seq<Effect>): seq<Effect> {
    if effects == [] then [] else effects[|effects| - 1 := Cleanup(effects[|effects| - 1])]
  }

  predicate PollsFor(effects: seq<Effect>, phase: Phase) {
    effects != [] && phase.Active? && !effects[|effects| - 1].cancelled && effects[|effects| - 1].p == phase.p
  }

  /** React renders: the effect is cleaned up, and run again, if the pairing it polls for is not the one shown. */
  function Commit(c: Client): Client {
    var phase := c.page.phase;
    var page := c.page.(screen := phase);
    if PollsFor(c.effects, phase) then c.(page := page)
    else if phase.Active? then
      c.(page := page, effects := CleanLast(c.effects) + [NewEffect(phase.p, page.now)])
    else c.(page := page, effects := CleanLast(c.effects))
  }

  /** The mount effect: resume a stored pairing. With storage blocked the read throws, and so does the removal in its
      catch block. */
  function Mount(c: Client): Client {
    if c.page.blocked then c.(page := c.page.(phase := Crashed))
    else
      var loaded := LoadPairing(c.page.slot, c.page.now);
      match loaded.found
      case Some(p) => c.(page := c.page.(slot := loaded.slot, phase := Active(p, None)))
      case None => c.(page := c.page.(slot := loaded.slot, phase := Idle))
  }

  /** `handleStart` up to its request. A click is rendered at once. */
  function ClickStart(c: Client): Client {
    Commit(c.(page := c.page.(phase := Starting), starts := c.starts + multiset{c.instance}))
  }

  datatype StartResult = StartOk(p: StoredPairing, code: string) | StartFailed

  /** `handleStart` from its answer on. An instance that is gone cannot change the state, but it still saves. */
  function StartLands(c: Client, sender: nat, result: StartResult, writable: bool): Client {
    var starts := c.starts - multiset{sender};
    match result
    case StartFailed =>
      c.(starts := starts, page := if sender == c.instance then c.page.(phase := StartError) else c.page)
    case StartOk(p, code) =>
      var saved := SavePairing(c.page, p, writable);
      c.(starts := starts,
         page := if sender == c.instance then saved.(phase := Active(p, Some(code))) else saved,
         issued := c.issued + {p})
  }

  function ClickCancel(c: Client): Client {
    Commit(c.(page := ClearPairing(c.page).(phase := Idle)))
  }

  /** The component is taken off the page and put back, as switching sign-in tabs does. Requests stay on the wire. */
  function Remount(c: Client): Client {
    Mount(c.(page := c.page.(phase := Idle, screen := Idle), effects := CleanLast(c.effects),
             instance := c.instance + 1))
  }

  /** A fresh page over whatever storage holds. */
  function Boot(slot: Slot, now: int, blocked: bool): Client {
    Mount(Client(Page(now, blocked, slot, Idle, Idle), 0, multiset{}, [], if slot.Holds? then {slot.p} else {}))
  }

  // ---- Runs -----------------------------------------------------------------------------------

  datatype Event =
    | Wait(ms: nat)
    | TimerFires(i: nat)
    | BecomesVisible(i: nat)
    | PollAnswered(i: nat, outcome: PollTick)
    | Commits
    | StartClicked
    | StartAnswered(sender: nat, result: StartResult, writable: bool)
    | CancelClicked
    | Remounted

  /** Whether the browser, React or the network can deliver the event now. A click needs its button on screen. The
      server never issues a pairing twice. */
  predicate Enabled(c: Client, ev: Event) {
    !c.page.phase.Crashed? &&
    match ev
    case Wait(_) => true
    case TimerFires(i) => i < |c.effects| && c.effects[i].timer.Some? && c.effects[i].timer.value <= c.page.now
    case BecomesVisible(i) => i < |c.effects| && !c.effects[i].cancelled
    case PollAnswered(i, _) => i < |c.effects| && c.effects[i].inFlight
    case Commits => true
    case StartClicked => !c.page.screen.Starting? && !c.page.screen.SignedIn?
    case StartAnswered(sender, result, _) => sender in c.starts && (result.StartOk? ==> result.p !in c.issued)
    case CancelClicked => c.page.screen.Active?
    case Remounted => true
  }

  function Took(c: Client, i: nat, t: Turn): Client
    requires i < |c.effects|
  {
    c.(page := t.page, effects := c.effects[i := t.e])
  }

  function Step(c: Client, ev: Event): Client
    requires Enabled(c, ev)
  {
    match ev
    case Wait(ms) => c.(page := c.page.(now := c.page.now + ms))
    case TimerFires(i) => Took(c, i, FireTimer(c.page, c.effects[i]))
    case BecomesVisible(i) => Took(c, i, Shown(c.page, c.effects[i]))
    case PollAnswered(i, outcome) => Took(c, i, PollLands(c.page, c.effects[i], outcome))
    case Commits => Commit(c)
    case StartClicked => ClickStart(c)
    case StartAnswered(sender, result, writable) => StartLands(c, sender, result, writable)
    case CancelClicked => ClickCancel(c)
    case Remounted => Remount(c)
  }

  /** The page after `events`, in order, on a fresh page; None if one of them could not happen. */
  function After(boot: Client, events: seq<Event>): Option<Client>
    decreases |events|
  {
    if events == [] then Some(boot)
    else
      var before := After(boot, events[..|events| - 1]);
      var ev := events[|events| - 1];
      if before.None? || !Enabled(before.value, ev) then None else Some(Step(before.value, ev))
  }

  /** `c` is reached by `events` from a fresh page. */
  predicate Reached(slot: Slot, now: int, blocked: bool, events: seq<Event>, c: Client) {
    After(Boot(slot, now, blocked), events) == Some(c)
  }
}
