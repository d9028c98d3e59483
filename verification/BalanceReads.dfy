/** The wallet step of the governance form (src/components/SubmitGovAction.tsx:986-1085, 1185-1195, 1375-1381, with the
    wallet cases of src/lib/governance/govActionFormState.ts): balance reads race connects, disconnects and one another,
    and each carries a generation. */
module BalanceReads {
  import opened JsText

  datatype Balance = Loading | Ready(lovelace: int) | Unreadable(message: string)

  datatype Wallet = NoWallet | Connecting | Connected(rewardAddress: string, balance: Balance)

  /** A read in flight: its generation, and the connection it was started for. */
  datatype Read = Read(id: nat, session: nat)

  /** `readId` is the newest generation. `session` counts connections and is history, as are the reads in flight and
      what each of the others was answered. */
  datatype Step = Step(
    wallet: Wallet, submitting: bool, readId: nat, session: nat, pending: set<Read>,
    answers: map<Read, Balance>)

  const FRESH := Step(NoWallet, false, 0, 0, {}, map[])

  // ---- The reducer ----------------------------------------------------------------------------

  function SetBalance(wallet: Wallet, balance: Balance): Wallet {
    if wallet.Connected? then wallet.(balance := balance) else wallet
  }

  // ---- The handlers ---------------------------------------------------------------------------

  /** `readBalance` up to its requests. */
  function ReadBalance(s: Step): Step {
    s.(readId := s.readId + 1, wallet := SetBalance(s.wallet, Loading),
       pending := s.pending + {Read(s.readId + 1, s.session)})
  }

  /** `readBalance` from its answer on. */
  function ReadAnswered(s: Step, r: Read, balance: Balance): Step {
    var landed := s.(pending := s.pending - {r}, answers := s.answers[r := balance]);
    if s.readId != r.id then landed else landed.(wallet := SetBalance(s.wallet, balance))
  }

  /** `handleConnect` once the wallet has given an address. */
  function ConnectSucceeded(s: Step, address: string): Step {
    ReadBalance(s.(wallet := Connected(address, Loading), session := s.session + 1))
  }

  /** `reset`, and the account check of a submit that finds another account. */
  function Drop(s: Step): Step {
    s.(wallet := NoWallet, readId := s.readId + 1)
  }

  datatype Event =
    | ConnectClicked
    | ConnectFailed
    | ConnectDone(address: string)
    | CheckAgainClicked
    | Answered(r: Read, balance: Balance)
    | UseDifferentWallet
    | SubmitStarts
    | SubmitEnds
    | AccountFoundChanged

  /** The buttons are there, or enabled, only in these states (src/components/govAction/SignAndSubmit.tsx:112-170). An
      answer is never "loading". */
  predicate Enabled(s: Step, ev: Event) {
    match ev
    case ConnectClicked => s.wallet.NoWallet? && !s.submitting
    case ConnectFailed => s.wallet.Connecting?
    case ConnectDone(_) => s.wallet.Connecting?
    case CheckAgainClicked => s.wallet.Connected? && !s.submitting
    case Answered(r, balance) => r in s.pending && !balance.Loading?
    case UseDifferentWallet => s.wallet.Connected? && !s.submitting
    case SubmitStarts => s.wallet.Connected? && !s.submitting
    case SubmitEnds => s.submitting
    case AccountFoundChanged => s.submitting && s.wallet.Connected?
  }

  function Next(s: Step, ev: Event): Step
    requires Enabled(s, ev)
  {
    match ev
    case ConnectClicked => s.(wallet := Connecting)
    case ConnectFailed => s.(wallet := NoWallet)
    case ConnectDone(address) => ConnectSucceeded(s, address)
    case CheckAgainClicked => ReadBalance(s)
    case Answered(r, balance) => ReadAnswered(s, r, balance)
    case UseDifferentWallet => Drop(s)
    case SubmitStarts => s.(submitting := true)
    case SubmitEnds => s.(submitting := false)
    case AccountFoundChanged => Drop(s).(submitting := false)
  }

  /** The form after `events`, in order; None if one of them could not happen. */
  function After(events: seq<Event>): Option<Step> {
    if events == [] then Some(FRESH)
    else
      var before := After(events[..|events| - 1]);
      var ev := events[|events| - 1];
      if before.None? || !Enabled(before.value, ev) then None else Some(Next(before.value, ev))
  }

  // ---- Every run ------------------------------------------------------------------------------

  predicate Inv(s: Step) {
    && (forall r :: r in s.pending ==> r.id <= s.readId && r.session <= s.session)
    && (forall r :: r in s.pending && r.id == s.readId ==> s.wallet.Connected? && r.session == s.session)
    && (forall r :: r in s.answers ==> r.id <= s.readId && !s.answers[r].Loading?)
    && (s.wallet.Connected? ==>
          var own := Read(s.readId, s.session);
          if own in s.pending then s.wallet.balance.Loading?
          else own in s.answers && s.wallet.balance == s.answers[own])
  }

  lemma NextKeeps(s: Step, ev: Event)
    requires Inv(s) && Enabled(s, ev)
    ensures Inv(Next(s, ev))
  {
  }

  lemma {:induction false} Kept(events: seq<Event>)
    ensures After(events).Some? ==> Inv(After(events).value)
  {
    if events != [] && After(events).Some? {
      Kept(events[..|events| - 1]);
      NextKeeps(After(events[..|events| - 1]).value, events[|events| - 1]);
    }
  }

  /** No read of the newest generation is in flight while no wallet is connected. */
  lemma DroppedReadsAreStale(events: seq<Event>, r: Read)
    requires After(events).Some? && !After(events).value.wallet.Connected? && r in After(events).value.pending
    ensures r.id < After(events).value.readId
  {
    Kept(events);
  }

  /** What a read was answered is what some event of the run answered it. */
  lemma {:induction false} AnswersAreGiven(events: seq<Event>, r: Read)
    requires After(events).Some? && r in After(events).value.answers
    ensures Answered(r, After(events).value.answers[r]) in events
    decreases |events|
  {
    var before := After(events[..|events| - 1]).value;
    var last := events[|events| - 1];
    assert events == events[..|events| - 1] + [last];
    if !(last.Answered? && last.r == r) {
      assert r in before.answers && before.answers[r] == After(events).value.answers[r];
      AnswersAreGiven(events[..|events| - 1], r);
    }
  }

  /** A balance that is shown is the answer to the newest read, which was started for the wallet that is connected now;
      one that is loading is still being read, so that it cannot load for ever. */
  lemma ShownBalanceIsCurrent(events: seq<Event>)
    requires After(events).Some? && After(events).value.wallet.Connected?
    ensures var s := After(events).value;
      var own := Read(s.readId, s.session);
      if s.wallet.balance.Loading? then own in s.pending else Answered(own, s.wallet.balance) in events
  {
    Kept(events);
    var s := After(events).value;
    if !s.wallet.balance.Loading? {
      AnswersAreGiven(events, Read(s.readId, s.session));
    }
  }

  /** Only the answer to the newest read of the connected wallet changes what is shown. */
  lemma OnlyTheNewestFiles(events: seq<Event>, r: Read, balance: Balance)
    requires After(events).Some? && Enabled(After(events).value, Answered(r, balance))
    ensures var s := After(events).value;
      Next(s, Answered(r, balance)).wallet ==
        if r == Read(s.readId, s.session) then SetBalance(s.wallet, balance) else s.wallet
    ensures r == Read(After(events).value.readId, After(events).value.session) ==> After(events).value.wallet.Connected?
  {
    Kept(events);
  }

  /** Connecting, and asking again, start a read for the wallet that is connected, newer than every other; dropping the
      wallet leaves none. */
  lemma EventDecides(events: seq<Event>, ev: Event)
    requires After(events).Some? && Enabled(After(events).value, ev) && !ev.Answered?
    ensures var s, t := After(events).value, Next(After(events).value, ev);
      match ev
      case ConnectClicked => t.wallet == Connecting && t.pending == s.pending
      case ConnectDone(address) =>
        t.wallet == Connected(address, Loading) && IsNewest(s, t, Read(t.readId, t.session)) && t.session > s.session
      case CheckAgainClicked =>
        t.wallet == Connected(s.wallet.rewardAddress, Loading) && IsNewest(s, t, Read(t.readId, t.session)) &&
        t.session == s.session
      case SubmitStarts => t == s.(submitting := true)
      case SubmitEnds => t == s.(submitting := false)
      case _ => t.wallet == NoWallet && t.pending == s.pending
  {
    Kept(events);
  }

  predicate IsNewest(s: Step, t: Step, r: Read) {
    t.pending == s.pending + {r} && r.id > s.readId && forall q :: q in s.pending ==> q.id < r.id
  }

  /** What the wallet answered the last connect that succeeded. */
  function LastAddress(events: seq<Event>): Option<string> {
    if events == [] then None
    else if events[|events| - 1].ConnectDone? then Some(events[|events| - 1].address)
    else LastAddress(events[..|events| - 1])
  }

  /** The address a submit would use is the one that the last connect gave. */
  lemma {:induction false} AddressIsTheLast(events: seq<Event>)
    requires After(events).Some? && After(events).value.wallet.Connected?
    ensures LastAddress(events) == Some(After(events).value.wallet.rewardAddress)
    decreases |events|
  {
    if !events[|events| - 1].ConnectDone? {
      AddressIsTheLast(events[..|events| - 1]);
    }
  }

  // ---- In place -------------------------------------------------------------------------------

  class WalletStep {
    var wallet: Wallet
    var submitting: bool
    var readId: nat
    ghost var session: nat
    ghost var pending: set<Read>
    ghost var answers: map<Read, Balance>

    constructor ()
      ensures View() == FRESH
    {
      wallet, submitting, readId := NoWallet, false, 0;
      session, pending, answers := 0, {}, map[];
    }

    ghost function View(): Step
      reads this
    {
      Step(wallet, submitting, readId, session, pending, answers)
    }

    /** `id` is what the suspended read keeps. */
    method StartRead() returns (id: nat)
      modifies this`wallet, this`readId, this`pending
      ensures View() == ReadBalance(old(View())) && id == readId
    {
      readId := readId + 1;
      id := readId;
      if wallet.Connected? { wallet := wallet.(balance := Loading); }
      pending := pending + {Read(id, session)};
    }

    method ReadLands(id: nat, ghost of: nat, balance: Balance)
      modifies this`wallet, this`pending, this`answers
      ensures View() == ReadAnswered(old(View()), Read(id, of), balance)
    {
      pending, answers := pending - {Read(id, of)}, answers[Read(id, of) := balance];
      if readId != id { return; }
      if wallet.Connected? { wallet := wallet.(balance := balance); }
    }

    /** `handleConnect`: `given` is what the wallet answered, an address or a reason why not. */
    method ConnectLands(given: Result<string, string>) returns (id: Option<nat>)
      requires wallet.Connecting?
      modifies this
      ensures View() == match given
        case Ok(address) => ConnectSucceeded(old(View()), address)
        case Err(_) => old(View()).(wallet := NoWallet)
    {
      match given
      case Err(_) =>
        wallet := NoWallet;
        id := None;
      case Ok(address) =>
        wallet := Connected(address, Loading);
        session := session + 1;
        var read := StartRead();
        id := Some(read);
    }

    method Reset()
      modifies this`wallet, this`readId
      ensures View() == Drop(old(View()))
    {
      readId := readId + 1;
      wallet := NoWallet;
    }
  }
}
