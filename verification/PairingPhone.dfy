/** The pairing component's handlers as they run: they write localStorage, the component's state and the variables of
    the polling effect's closure in place. Each is proved to do what the protocol of Pairing says. */
module PairingPhone {
  import opened JsText
  import opened Pairing

  /** Storage and the component's state. A handler suspended on a request resumes in a second method. */
  class Phone {
    var now: int
    var blocked: bool
    var slot: Slot
    var phase: Phase
    var screen: Phase

    constructor (slot: Slot, now: int, blocked: bool)
      ensures View() == Page(now, blocked, slot, Idle, Idle)
    {
      this.now, this.blocked, this.slot, phase, screen := now, blocked, slot, Idle, Idle;
    }

    ghost function View(): Page
      reads this
    {
      Page(now, blocked, slot, phase, screen)
    }

    /** The error is the exception that the removal in the catch block throws again. */
    method LoadPairing() returns (loaded: Result<Option<StoredPairing>, string>)
      modifies this`slot
      ensures blocked ==> loaded.Err? && slot == old(slot)
      ensures !blocked ==> loaded == Ok(Pairing.LoadPairing(old(slot), now).found) &&
                           slot == Pairing.LoadPairing(old(slot), now).slot
    {
      if blocked { return Err("SecurityError"); }
      match slot
      case Empty => return Ok(None);
      case Corrupt =>
        slot := Empty;
        return Ok(None);
      case Falsy => return Ok(None);
      case Holds(stored) =>
        if Expired(stored, now) {
          slot := Empty;
          return Ok(None);
        }
        return Ok(Some(stored));
    }

    method SavePairing(stored: StoredPairing, writable: bool)
      modifies this`slot
      ensures View() == Pairing.SavePairing(old(View()), stored, writable)
    {
      if !blocked && writable { slot := Holds(stored); }
    }

    method ClearPairing()
      modifies this`slot
      ensures View() == Pairing.ClearPairing(old(View()))
    {
      if !blocked { slot := Empty; }
    }

    method FailPairing()
      modifies this`slot, this`phase
      ensures View() == Pairing.FailPairing(old(View()))
    {
      ClearPairing();
      if !phase.SignedIn? { phase := Failed; }
    }

    /** The mount effect. */
    method Mounted()
      modifies this`slot, this`phase
      requires phase.Idle?
      ensures forall c: Client :: c.page == old(View()) ==> Mount(c).page == View()
    {
      var loaded := LoadPairing();
      match loaded
      case Err(_) => phase := Crashed;
      case Ok(None) =>
      case Ok(Some(stored)) => phase := Active(stored, None);
    }

    /** `handleStart` up to its request. */
    method HandleStart()
      modifies this`phase
      ensures View() == old(View()).(phase := Starting)
    {
      phase := Starting;
    }

    /** `handleStart` from its answer on; `mounted` says whether the instance that asked is still on the page. */
    method StartAnswered(result: StartResult, mounted: bool, writable: bool)
      modifies this`slot, this`phase
      ensures forall c: Client, sender: nat :: c.page == old(View()) && mounted == (sender == c.instance) ==>
        StartLands(c, sender, result, writable).page == View()
    {
      match result
      case StartFailed => if mounted { phase := StartError; }
      case StartOk(stored, code) =>
        SavePairing(stored, writable);
        if mounted { phase := Active(stored, Some(code)); }
    }

    method HandleCancel()
      modifies this`slot, this`phase
      ensures View() == Pairing.ClearPairing(old(View())).(phase := Idle)
    {
      ClearPairing();
      phase := Idle;
    }
  }

  /** The closure of one run of the polling effect. */
  class PollEffect {
    const phone: Phone
    const p: StoredPairing
    var cancelled: bool
    var inFlight: bool
    var timer: Option<int>
    var delay: int
    ghost const began: int
    ghost var byTimer: nat
    ghost var byHand: nat
    ghost var rearmed: nat

    constructor (phone: Phone, p: StoredPairing)
      ensures this.phone == phone && View() == NewEffect(p, phone.now)
    {
      this.phone, this.p := phone, p;
      cancelled, inFlight, delay := false, false, FIRST_DELAY;
      timer := Some(phone.now + FIRST_DELAY);
      began, byTimer, byHand, rearmed := phone.now, 0, 0, 0;
    }

    ghost function View(): Effect
      reads this
    {
      Effect(p, cancelled, inFlight, timer, delay, began, byTimer, byHand, rearmed)
    }

    /** `tick` up to its request. */
    method Tick(ghost fromTimer: bool) returns (asks: bool)
      modifies this, phone`slot, phone`phase
      ensures Turn(phone.View(), View()) == Pairing.Tick(old(phone.View()), old(View()), fromTimer)
      ensures asks <==> !old(inFlight) && inFlight
    {
      if cancelled || inFlight { return false; }
      if Expired(p, phone.now) {
        phone.FailPairing();
        return false;
      }
      inFlight := true;
      if fromTimer { byTimer := byTimer + 1; } else { byHand := byHand + 1; }
      return true;
    }

    /** `tick` from its answer on. */
    method Answered(outcome: PollTick)
      modifies this, phone`slot, phone`phase
      ensures Turn(phone.View(), View()) == PollLands(old(phone.View()), old(View()), outcome)
    {
      inFlight := false;
      if cancelled { return; }
      if outcome.Pending? || outcome.RetryableError? {
        delay := Pairing.NextDelay(delay);
        timer := Some(phone.now + delay);
        rearmed := rearmed + 1;
        return;
      }
      if outcome.SignedInTick? {
        phone.ClearPairing();
        phone.phase := SignedIn(outcome.name);
        return;
      }
      phone.FailPairing();
    }

    method TimerFired() returns (asks: bool)
      requires timer.Some?
      modifies this, phone`slot, phone`phase
      ensures Turn(phone.View(), View()) == FireTimer(old(phone.View()), old(View()))
    {
      timer := None;
      asks := Tick(true);
    }

    method OnVisibilityChange(visible: bool) returns (asks: bool)
      modifies this, phone`slot, phone`phase
      ensures Turn(phone.View(), View()) ==
        if visible then Shown(old(phone.View()), old(View())) else Turn(old(phone.View()), old(View()))
    {
      if !visible { return false; }
      if inFlight { return false; }
      timer := None;
      asks := Tick(false);
    }

    method CleanUp()
      modifies this
      ensures View() == Cleanup(old(View()))
    {
      cancelled := true;
      timer := None;
    }
  }
}
