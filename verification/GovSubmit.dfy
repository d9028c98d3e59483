/** Submitting a governance action (src/components/SubmitGovAction.tsx:1126-1368): a chain of requests, wallet prompts
    and publications, with the freshness checks that come before anything irreversible. Each step of the world is an
    oracle that may answer by the whole history of calls, the last of which is the one being made. */
module GovSubmit {
  import opened JsText

  datatype FormType =
    | InfoAction | NoConfidence | HardForkInitiation | NewConstitution | UpdateCommittee | TreasuryWithdrawals
    | ParameterChange

  predicate NeedsContext(t: FormType) { !t.InfoAction? }

  predicate GuardrailChecked(t: FormType) { t.TreasuryWithdrawals? || t.ParameterChange? }

  // ---- The chain context ----------------------------------------------------------------------

  datatype PrevRef = PrevRef(txHashHex: string, index: int)

  datatype Row = Row(txHash: string, index: int)

  datatype Chain = Chain(lastEnacted: Option<Row>, open: seq<Row>)

  datatype Guardrail = Known(scriptHash: string) | Absent

  /** `rest` is everything else that the panels are validated against. */
  datatype Context = Context(prev: Option<Chain>, guardrail: Option<Guardrail>, rest: string)

  const GUARDRAIL_SCRIPT_HASH_HEX := "fa24fb305126805cf2164c161d852a0e7330cf988f1fe558cf7d4a64"

  predicate MatchesRef(ref: PrevRef, row: Row) {
    Lower(ref.txHashHex) == Lower(row.txHash) && ref.index == row.index
  }

  predicate RefStillPresent(chosen: Option<PrevRef>, chain: Chain) {
    match chosen
    case None => chain.lastEnacted.None?
    case Some(ref) =>
      (chain.lastEnacted.Some? && MatchesRef(ref, chain.lastEnacted.value)) ||
      exists i :: 0 <= i < |chain.open| && MatchesRef(ref, chain.open[i])
  }

  /** A null choice means the root of the context on screen. */
  function EffectivePrev(chosen: Option<PrevRef>, shown: Option<Context>): Option<PrevRef> {
    if chosen.Some? then chosen
    else if shown.Some? && shown.value.prev.Some? && shown.value.prev.value.lastEnacted.Some? then
      var root := shown.value.prev.value.lastEnacted.value;
      Some(PrevRef(root.txHash, root.index))
    else None
  }

  datatype Problem =
    | GuardrailUnknown | GuardrailScriptChanged | GuardrailRequirementChanged | RecipientsProblem(text: string)
    | NoChainState | PrevActionChanged

  function GuardrailDecision(guardrail: Option<Guardrail>): Result<Guardrail, Problem> {
    match guardrail
    case None => Err(GuardrailUnknown)
    case Some(Absent) => Ok(Absent)
    case Some(Known(hash)) =>
      if Lower(hash) == GUARDRAIL_SCRIPT_HASH_HEX then Ok(Known(GUARDRAIL_SCRIPT_HASH_HEX))
      else Err(GuardrailScriptChanged)
  }

  predicate SameGuardrail(a: Option<Guardrail>, b: Option<Guardrail>) {
    match (a, b)
    case (Some(Absent), Some(Absent)) => true
    case (Some(Known(x)), Some(Known(y))) => Lower(x) == Lower(y)
    case _ => false
  }

  function GuardrailOf(ctx: Option<Context>): Option<Guardrail> {
    if ctx.Some? then ctx.value.guardrail else None
  }

  function PrevProblem(prev: Option<PrevRef>, latest: Option<Context>): Option<Problem> {
    if latest.None? || latest.value.prev.None? then Some(NoChainState)
    else if !RefStillPresent(prev, latest.value.prev.value) then Some(PrevActionChanged)
    else None
  }

  function PreSignatureProblem(
      t: FormType, prev: Option<PrevRef>, shown: Option<Context>, latest: Option<Context>, recipients: Option<string>)
    : Option<Problem>
  {
    if GuardrailChecked(t) then
      var decision := GuardrailDecision(GuardrailOf(latest));
      if decision.Err? then Some(decision.error)
      else if !SameGuardrail(GuardrailOf(shown), GuardrailOf(latest)) then Some(GuardrailRequirementChanged)
      else if t.TreasuryWithdrawals? then
        if recipients.Some? then Some(RecipientsProblem(recipients.value)) else None
      else PrevProblem(prev, latest)
    else PrevProblem(prev, latest)
  }

  // ---- The form -------------------------------------------------------------------------------

  datatype Reference = Reference(name: string, uri: string)

  datatype Metadata = Metadata(
    title: string, abstr: string, motivation: string, rationale: string, signAsAuthor: bool, authorName: string,
    references: seq<Reference>, surveyRef: string)

  /** What is sent both to be hashed for the author's signature and to be published. */
  datatype Body = Body(
    title: string, abstr: string, motivation: string, rationale: string, references: seq<Reference>, surveyRef: string)

  function TrimmedReferences(references: seq<Reference>): seq<Reference> {
    if references == [] then []
    else
      var last := references[|references| - 1];
      var r := Reference(Trim(last.name), Trim(last.uri));
      TrimmedReferences(references[..|references| - 1]) + if r.name != "" && r.uri != "" then [r] else []
  }

  function BodyOf(m: Metadata): Body {
    Body(Trim(m.title), Trim(m.abstr), Trim(m.motivation), Trim(m.rationale), TrimmedReferences(m.references),
         Trim(m.surveyRef))
  }

  predicate Complete(b: Body) { b.title != "" && b.abstr != "" && b.motivation != "" && b.rationale != "" }

  /** A panel's validated content; for a new constitution `text` is the document to publish. */
  datatype Panel = Panel(text: string, payload: string)

  /** What one click on Sign and submit sees. `panel` validates the form's panel for its type against a context and the
      resolved previous action. `reasons` counts the readiness list. */
  datatype Form = Form(
    formType: FormType, chosen: Option<PrevRef>, metadata: Metadata, deposit: Option<int>,
    shown: Option<Context>, contextReady: bool, reasons: nat, ackRequired: bool, acknowledged: bool,
    panel: (Option<Context>, Option<PrevRef>) -> Result<Panel, string>)

  datatype Doc = Doc(url: string, hashHex: string)

  datatype Spec = Spec(formType: FormType, prev: Option<PrevRef>, payload: string, document: Option<Doc>)

  datatype Prepared = Finished(spec: Spec) | NeedsDocument(text: string, payload: string)

  function PrepareAction(f: Form, ctx: Option<Context>, prev: Option<PrevRef>): Result<Prepared, string> {
    match f.formType
    case InfoAction => Ok(Finished(Spec(InfoAction, None, "", None)))
    case NoConfidence => Ok(Finished(Spec(NoConfidence, prev, "", None)))
    case _ =>
      match f.panel(ctx, prev)
      case Err(e) => Err(e)
      case Ok(p) =>
        if f.formType.NewConstitution? then Ok(NeedsDocument(p.text, p.payload))
        else if f.formType.TreasuryWithdrawals? then Ok(Finished(Spec(f.formType, None, p.payload, None)))
        else Ok(Finished(Spec(f.formType, prev, p.payload, None)))
  }

  // ---- The world ------------------------------------------------------------------------------

  datatype Author = Author(name: string, keyHex: string, signatureHex: string)

  datatype Call =
    | ReadRewardAddress
    | LoadContext(loadedFor: FormType)
    | RecheckRecipients
    | PublishDocument(text: string)
    | PrepareMetadata(prepared: Body)
    | SignData(signer: string, bodyHash: string)
    | PublishMetadata(body: Body, author: Option<Author>)
    | SubmitTx(rewardAddressHex: string, anchor: Doc, deposit: int, spec: Spec)
    | ClearDraft

  /** A response the code reads as refused, or an exception. */
  datatype Failure = Refused(reason: string) | Thrown(message: string)

  datatype World = World(
    rewardAddress: seq<Call> -> Option<string>,
    context: seq<Call> -> Option<Context>,
    recipients: seq<Call> -> Result<Option<string>, Failure>,
    document: seq<Call> -> Result<Doc, Failure>,
    bodyHash: seq<Call> -> Result<string, Failure>,
    signature: seq<Call> -> Result<Author, Failure>,
    metadata: seq<Call> -> Result<Doc, Failure>,
    tx: seq<Call> -> Result<string, Failure>)

  datatype Phase =
    | Editing
    | Submitting
    | Success(txHash: string, authored: bool)
    | WalletLost | AccountChanged
    | DepositNotReady | ContextNotReady | FieldsMissing | AuthorMissing
    | Blocked(problem: Problem) | PanelInvalid(error: string) | StepFailed(failure: Failure)

  predicate DropsWallet(p: Phase) { p.AccountChanged? || p.WalletLost? }

  datatype Outcome = Outcome(phase: Phase, trace: seq<Call>)

  // ---- What a click does, step by step --------------------------------------------------------

  function SubmitAndClear(w: World, f: Form, address: string, spec: Spec, anchor: Doc, trace: seq<Call>)
    : (o: Outcome)
    requires f.deposit.Some?
    ensures |trace| <= |o.trace| && !DropsWallet(o.phase)
  {
    var t := trace + [SubmitTx(address, anchor, f.deposit.value, spec)];
    match w.tx(t)
    case Err(e) => Outcome(StepFailed(e), t)
    case Ok(txHash) => Outcome(Success(txHash, f.metadata.signAsAuthor), t + [ClearDraft])
  }

  function Publish(w: World, f: Form, address: string, spec: Spec, author: Option<Author>, trace: seq<Call>)
    : (o: Outcome)
    requires f.deposit.Some?
    ensures |trace| <= |o.trace| && !DropsWallet(o.phase)
  {
    var t := trace + [PublishMetadata(BodyOf(f.metadata), author)];
    match w.metadata(t)
    case Err(e) => Outcome(StepFailed(e), t)
    case Ok(anchor) => SubmitAndClear(w, f, address, spec, anchor, t)
  }

  function Sign(w: World, f: Form, address: string, spec: Spec, trace: seq<Call>)
    : (o: Outcome)
    requires f.deposit.Some?
    ensures |trace| <= |o.trace| && !DropsWallet(o.phase)
  {
    if !f.metadata.signAsAuthor then Publish(w, f, address, spec, None, trace)
    else
      var t := trace + [PrepareMetadata(BodyOf(f.metadata))];
      match w.bodyHash(t)
      case Err(e) => Outcome(StepFailed(e), t)
      case Ok(hash) =>
        var u := t + [SignData(address, hash)];
        match w.signature(u)
        case Err(e) => Outcome(StepFailed(e), u)
        case Ok(sig) => Publish(w, f, address, spec, Some(sig.(name := Trim(f.metadata.authorName))), u)
  }

  function Build(w: World, f: Form, address: string, prev: Option<PrevRef>, prepared: Result<Prepared, string>,
                 trace: seq<Call>)
    : (o: Outcome)
    requires f.deposit.Some?
    ensures |trace| <= |o.trace| && !DropsWallet(o.phase)
  {
    match prepared
    case Err(e) => Outcome(PanelInvalid(e), trace)
    case Ok(Finished(spec)) => Sign(w, f, address, spec, trace)
    case Ok(NeedsDocument(text, payload)) =>
      var t := trace + [PublishDocument(text)];
      match w.document(t)
      case Err(e) => Outcome(StepFailed(e), t)
      case Ok(doc) => Sign(w, f, address, Spec(NewConstitution, prev, payload, Some(doc)), t)
  }

  function Check(w: World, f: Form, address: string, prev: Option<PrevRef>, trace: seq<Call>)
    : (o: Outcome)
    requires f.deposit.Some?
    ensures |trace| <= |o.trace| && !DropsWallet(o.phase) && (NeedsContext(f.formType) ==> |trace| < |o.trace|)
  {
    if !NeedsContext(f.formType) then Build(w, f, address, prev, PrepareAction(f, f.shown, prev), trace)
    else
      var t := trace + [LoadContext(f.formType)];
      var latest := w.context(t);
      if f.formType.TreasuryWithdrawals? then
        var u := t + [RecheckRecipients];
        match w.recipients(u)
        case Err(e) => Outcome(StepFailed(e), u)
        case Ok(recipients) => Judge(w, f, address, prev, latest, recipients, u)
      else Judge(w, f, address, prev, latest, None, t)
  }

  function Judge(
      w: World, f: Form, address: string, prev: Option<PrevRef>, latest: Option<Context>, recipients: Option<string>,
      trace: seq<Call>)
    : (o: Outcome)
    requires f.deposit.Some?
    ensures |trace| <= |o.trace| && !DropsWallet(o.phase)
  {
    var problem := PreSignatureProblem(f.formType, prev, f.shown, latest, recipients);
    if problem.Some? then Outcome(Blocked(problem.value), trace)
    else Build(w, f, address, prev, PrepareAction(f, latest, prev), trace)
  }

  function Start(w: World, f: Form, address: string): Outcome
    requires f.deposit.Some?
  {
    var t := [ReadRewardAddress];
    var current := w.rewardAddress(t);
    if current.None? || current.value == "" || Lower(current.value) != Lower(address) then Outcome(AccountChanged, t)
    else Check(w, f, address, EffectivePrev(f.chosen, f.shown), t)
  }

  /** A click on Sign and submit; `wallet` is the connected reward address. None where the click does nothing. */
  function Clicked(w: World, f: Form, wallet: Option<string>, before: Phase): Option<Outcome> {
    if before.Submitting? || f.reasons > 0 || (f.ackRequired && !f.acknowledged) then None
    else if wallet.None? || wallet.value == "" then Some(Outcome(WalletLost, []))
    else if f.deposit.None? then Some(Outcome(DepositNotReady, []))
    else if NeedsContext(f.formType) && !f.contextReady then Some(Outcome(ContextNotReady, []))
    else if !Complete(BodyOf(f.metadata)) then Some(Outcome(FieldsMissing, []))
    else if f.metadata.signAsAuthor && Trim(f.metadata.authorName) == "" then Some(Outcome(AuthorMissing, []))
    else Some(Start(w, f, wallet.value))
  }

  // ---- The handler ----------------------------------------------------------------------------

  /** The island's state that a submit changes. `balanceReadId` is the generation of wallet balance reads. */
  datatype State = State(
    phase: Phase, enabledApi: bool, rewardAddress: Option<string>, balanceReadId: nat, contextData: Option<Context>,
    draftStored: bool)

  /** A lost or changed account drops the wallet; a context that was loaded replaces the one on screen; only a
      submitted transaction clears the draft. */
  function Settled(s: State, w: World, f: Form, o: Outcome): State {
    State(o.phase,
          s.enabledApi && !o.phase.AccountChanged?,
          if DropsWallet(o.phase) then None else s.rewardAddress,
          if o.phase.AccountChanged? then s.balanceReadId + 1 else s.balanceReadId,
          if NeedsContext(f.formType) && |o.trace| > 1 then w.context([ReadRewardAddress, LoadContext(f.formType)])
          else s.contextData,
          s.draftStored && !o.phase.Success?)
  }

  class Island {
    var phase: Phase
    var enabledApi: bool
    var rewardAddress: Option<string>
    var balanceReadId: nat
    var contextData: Option<Context>
    var draftStored: bool

    constructor ()
      ensures View() == State(Editing, false, None, 0, None, false)
    {
      phase, enabledApi, rewardAddress, balanceReadId := Editing, false, None, 0;
      contextData, draftStored := None, false;
    }

    ghost function View(): State
      reads this
    {
      State(phase, enabledApi, rewardAddress, balanceReadId, contextData, draftStored)
    }

    function Wallet(): Option<string>
      reads this
    {
      if enabledApi then rewardAddress else None
    }

    method HandleSubmit(w: World, f: Form) returns (trace: seq<Call>)
      modifies this
      ensures match Clicked(w, f, old(Wallet()), old(phase))
        case None => trace == [] && View() == old(View())
        case Some(o) => trace == o.trace && View() == Settled(old(View()), w, f, o)
    {
      hide BodyOf, Complete, Trim, Start;
      trace := [];
      if phase.Submitting? || f.reasons > 0 || (f.ackRequired && !f.acknowledged) {
      } else if !enabledApi || rewardAddress.None? || rewardAddress.value == "" {
        rewardAddress := None;
        phase := WalletLost;
      } else if f.deposit.None? {
        phase := DepositNotReady;
      } else if NeedsContext(f.formType) && !f.contextReady {
        phase := ContextNotReady;
      } else if !Complete(BodyOf(f.metadata)) {
        phase := FieldsMissing;
      } else if f.metadata.signAsAuthor && Trim(f.metadata.authorName) == "" {
        phase := AuthorMissing;
      } else {
        phase := Submitting;
        trace := CheckAccount(w, f, rewardAddress.value);
      }
    }

    /** The account is re-read before anything else. */
    method CheckAccount(w: World, f: Form, address: string) returns (trace: seq<Call>)
      requires f.deposit.Some?
      modifies this
      ensures trace == Start(w, f, address).trace && View() == Settled(old(View()), w, f, Start(w, f, address))
    {
      trace := [ReadRewardAddress];
      var current := w.rewardAddress(trace);
      if current.None? || current.value == "" || Lower(current.value) != Lower(address) {
        enabledApi := false;
        balanceReadId := balanceReadId + 1;
        rewardAddress := None;
        phase := AccountChanged;
      } else {
        assert trace + [LoadContext(f.formType)] == [ReadRewardAddress, LoadContext(f.formType)];
        trace := CheckChain(w, f, address, EffectivePrev(f.chosen, f.shown), trace);
      }
    }

    /** The chain, and a treasury withdrawal's recipients, are re-read next. */
    method CheckChain(w: World, f: Form, address: string, prev: Option<PrevRef>, before: seq<Call>)
      returns (trace: seq<Call>)
      requires f.deposit.Some?
      modifies this`phase, this`contextData, this`draftStored
      ensures var o := Check(w, f, address, prev, before);
        && phase == o.phase && trace == o.trace && draftStored == (old(draftStored) && !o.phase.Success?)
        && contextData == (if NeedsContext(f.formType) then w.context(before + [LoadContext(f.formType)])
                           else old(contextData))
    {
      trace := before;
      if !NeedsContext(f.formType) {
        trace := PublishAll(w, f, address, f.shown, prev, trace);
      } else {
        trace := trace + [LoadContext(f.formType)];
        var latest := w.context(trace);
        contextData := latest;
        var recipients: Result<Option<string>, Failure> := Ok(None);
        if f.formType.TreasuryWithdrawals? {
          trace := trace + [RecheckRecipients];
          recipients := w.recipients(trace);
        }
        if recipients.Err? {
          phase := StepFailed(recipients.error);
        } else {
          var problem := PreSignatureProblem(f.formType, prev, f.shown, latest, recipients.value);
          if problem.Some? {
            phase := Blocked(problem.value);
          } else {
            trace := PublishAll(w, f, address, latest, prev, trace);
          }
        }
      }
    }

    /** Prepare the action; publish a constitution's document. */
    method PublishAll(w: World, f: Form, address: string, latest: Option<Context>, prev: Option<PrevRef>,
                      before: seq<Call>)
      returns (trace: seq<Call>)
      requires f.deposit.Some?
      modifies this`phase, this`draftStored
      ensures var o := Build(w, f, address, prev, PrepareAction(f, latest, prev), before);
        phase == o.phase && trace == o.trace && draftStored == (old(draftStored) && !o.phase.Success?)
    {
      trace := before;
      var prepared := PrepareAction(f, latest, prev);
      match prepared
      case Err(e) => phase := PanelInvalid(e);
      case Ok(Finished(spec)) => trace := SignAll(w, f, address, spec, trace);
      case Ok(NeedsDocument(text, payload)) =>
        trace := trace + [PublishDocument(text)];
        var doc := w.document(trace);
        match doc
        case Err(e) => phase := StepFailed(e);
        case Ok(d) => trace := SignAll(w, f, address, Spec(NewConstitution, prev, payload, Some(d)), trace);
    }

    /** The author's signature, if asked for. */
    method SignAll(w: World, f: Form, address: string, spec: Spec, before: seq<Call>) returns (trace: seq<Call>)
      requires f.deposit.Some?
      modifies this`phase, this`draftStored
      ensures var o := Sign(w, f, address, spec, before);
        phase == o.phase && trace == o.trace && draftStored == (old(draftStored) && !o.phase.Success?)
    {
      trace := before;
      if !f.metadata.signAsAuthor {
        trace := Finish(w, f, address, spec, None, trace);
      } else {
        trace := trace + [PrepareMetadata(BodyOf(f.metadata))];
        var bodyHash := w.bodyHash(trace);
        match bodyHash
        case Err(e) => phase := StepFailed(e);
        case Ok(hash) =>
          trace := trace + [SignData(address, hash)];
          var sig := w.signature(trace);
          match sig
          case Err(e) => phase := StepFailed(e);
          case Ok(author) =>
            trace := Finish(w, f, address, spec, Some(author.(name := Trim(f.metadata.authorName))), trace);
      }
    }

    /** The metadata, the transaction, the draft. */
    method Finish(w: World, f: Form, address: string, spec: Spec, author: Option<Author>, before: seq<Call>)
      returns (trace: seq<Call>)
      requires f.deposit.Some?
      modifies this`phase, this`draftStored
      ensures var o := Publish(w, f, address, spec, author, before);
        phase == o.phase && trace == o.trace && draftStored == (old(draftStored) && !o.phase.Success?)
    {
      trace := before + [PublishMetadata(BodyOf(f.metadata), author)];
      var anchor := w.metadata(trace);
      match anchor
      case Err(e) => phase := StepFailed(e);
      case Ok(a) =>
        trace := trace + [SubmitTx(address, a, f.deposit.value, spec)];
        var tx := w.tx(trace);
        match tx
        case Err(e) => phase := StepFailed(e);
        case Ok(txHash) =>
          trace := trace + [ClearDraft];
          draftStored := false;
          phase := Success(txHash, f.metadata.signAsAuthor);
    }
  }
}
