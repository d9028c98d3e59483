/** What every click on Sign and submit does, whatever the world answers: the order of its calls, what has been checked
    before the first of them that cannot be undone, and what the transaction carries. */
module GovSubmitRuns {
  import opened JsText
  import opened GovSubmit

  // ---- The order of calls ---------------------------------------------------------------------

  datatype Kind =
    | ToReadAddress | ToLoadContext | ToRecheck | ToPublishDocument | ToPrepare | ToSign | ToPublishMetadata | ToSubmit
    | ToClearDraft

  function KindOf(call: Call): Kind {
    match call
    case ReadRewardAddress => ToReadAddress
    case LoadContext(_) => ToLoadContext
    case RecheckRecipients => ToRecheck
    case PublishDocument(_) => ToPublishDocument
    case PrepareMetadata(_) => ToPrepare
    case SignData(_, _) => ToSign
    case PublishMetadata(_, _) => ToPublishMetadata
    case SubmitTx(_, _, _, _) => ToSubmit
    case ClearDraft => ToClearDraft
  }

  function Kinds(trace: seq<Call>): (kinds: seq<Kind>)
    ensures |kinds| == |trace|
  {
    if trace == [] then [] else Kinds(trace[..|trace| - 1]) + [KindOf(trace[|trace| - 1])]
  }

  const FINALE := [ToPublishMetadata, ToSubmit, ToClearDraft]

  function SignPlan(f: Form): seq<Kind> {
    (if f.metadata.signAsAuthor then [ToPrepare, ToSign] else []) + FINALE
  }

  function BuildPlan(f: Form): seq<Kind> {
    (if f.formType.NewConstitution? then [ToPublishDocument] else []) + SignPlan(f)
  }

  function CheckPlan(f: Form): seq<Kind> {
    if f.formType.InfoAction? then [ToReadAddress]
    else if f.formType.TreasuryWithdrawals? then [ToReadAddress, ToLoadContext, ToRecheck]
    else [ToReadAddress, ToLoadContext]
  }

  /** The calls of a submission that succeeds. */
  function Plan(f: Form): seq<Kind> { CheckPlan(f) + BuildPlan(f) }

  /** `o` goes on from `before` along `plan`, and to its end exactly when it succeeds. */
  predicate Along(o: Outcome, before: seq<Call>, plan: seq<Kind>) {
    && before <= o.trace && Kinds(o.trace) <= Kinds(before) + plan
    && (o.phase.Success? <==> Kinds(o.trace) == Kinds(before) + plan)
  }

  lemma KindsSnoc(trace: seq<Call>, call: Call)
    ensures Kinds(trace + [call]) == Kinds(trace) + [KindOf(call)]
  {
    assert (trace + [call])[..|trace|] == trace;
  }

  lemma GoesOn(o: Outcome, before: seq<Call>, call: Call, plan: seq<Kind>)
    requires Along(o, before + [call], plan)
    ensures Along(o, before, [KindOf(call)] + plan)
  {
    KindsSnoc(before, call);
    assert Kinds(before) + ([KindOf(call)] + plan) == Kinds(before) + [KindOf(call)] + plan;
    assert before <= before + [call];
  }

  lemma Stops(o: Outcome, before: seq<Call>, plan: seq<Kind>)
    requires o.trace == before && !o.phase.Success? && plan != []
    ensures Along(o, before, plan)
  {
  }

  lemma SubmitAlong(w: World, f: Form, address: string, spec: Spec, anchor: Doc, before: seq<Call>)
    requires f.deposit.Some?
    ensures Along(SubmitAndClear(w, f, address, spec, anchor, before), before, [ToSubmit] + [ToClearDraft])
  {
    var o := SubmitAndClear(w, f, address, spec, anchor, before);
    var send := SubmitTx(address, anchor, f.deposit.value, spec);
    if w.tx(before + [send]).Ok? {
      KindsSnoc(before + [send], ClearDraft);
    } else {
      Stops(o, before + [send], [ToClearDraft]);
    }
    GoesOn(o, before, send, [ToClearDraft]);
  }

  lemma PublishAlong(w: World, f: Form, address: string, spec: Spec, author: Option<Author>, before: seq<Call>)
    requires f.deposit.Some?
    ensures Along(Publish(w, f, address, spec, author, before), before, FINALE)
  {
    var o := Publish(w, f, address, spec, author, before);
    var call := PublishMetadata(BodyOf(f.metadata), author);
    var t := before + [call];
    match w.metadata(t) {
      case Err(e) => Stops(o, t, [ToSubmit] + [ToClearDraft]);
      case Ok(anchor) => SubmitAlong(w, f, address, spec, anchor, t);
    }
    GoesOn(o, before, call, [ToSubmit] + [ToClearDraft]);
    assert [ToPublishMetadata] + ([ToSubmit] + [ToClearDraft]) == FINALE;
  }

  lemma SignedAlong(w: World, f: Form, address: string, spec: Spec, hash: string, before: seq<Call>, o: Outcome)
    requires f.deposit.Some?
    requires var u := before + [SignData(address, hash)];
      o == match w.signature(u)
           case Err(e) => Outcome(StepFailed(e), u)
           case Ok(sig) => Publish(w, f, address, spec, Some(sig.(name := Trim(f.metadata.authorName))), u)
    ensures Along(o, before, [ToSign] + FINALE)
  {
    var u := before + [SignData(address, hash)];
    match w.signature(u) {
      case Err(e) => Stops(o, u, FINALE);
      case Ok(sig) => PublishAlong(w, f, address, spec, Some(sig.(name := Trim(f.metadata.authorName))), u);
    }
    GoesOn(o, before, SignData(address, hash), FINALE);
  }

  lemma SignAlong(w: World, f: Form, address: string, spec: Spec, before: seq<Call>)
    requires f.deposit.Some?
    ensures Along(Sign(w, f, address, spec, before), before, SignPlan(f))
  {
    var o := Sign(w, f, address, spec, before);
    if !f.metadata.signAsAuthor {
      PublishAlong(w, f, address, spec, None, before);
      assert [] + FINALE == FINALE;
    } else {
      var prepare := PrepareMetadata(BodyOf(f.metadata));
      var t := before + [prepare];
      match w.bodyHash(t) {
        case Err(e) => Stops(o, t, [ToSign] + FINALE);
        case Ok(hash) => SignedAlong(w, f, address, spec, hash, t, o);
      }
      GoesOn(o, before, prepare, [ToSign] + FINALE);
      assert [ToPrepare] + ([ToSign] + FINALE) == SignPlan(f);
    }
  }

  lemma DocumentAlong(
      w: World, f: Form, address: string, text: string, payload: string, prev: Option<PrevRef>, before: seq<Call>,
      o: Outcome)
    requires f.deposit.Some?
    requires var t := before + [PublishDocument(text)];
      o == match w.document(t)
           case Err(e) => Outcome(StepFailed(e), t)
           case Ok(doc) => Sign(w, f, address, Spec(NewConstitution, prev, payload, Some(doc)), t)
    ensures Along(o, before, [ToPublishDocument] + SignPlan(f))
  {
    var t := before + [PublishDocument(text)];
    match w.document(t) {
      case Err(e) => Stops(o, t, SignPlan(f));
      case Ok(doc) => SignAlong(w, f, address, Spec(NewConstitution, prev, payload, Some(doc)), t);
    }
    GoesOn(o, before, PublishDocument(text), SignPlan(f));
  }

  predicate Suits(f: Form, prepared: Result<Prepared, string>) {
    prepared.Ok? ==> (prepared.value.NeedsDocument? <==> f.formType.NewConstitution?)
  }

  lemma PreparedSuits(f: Form, ctx: Option<Context>, prev: Option<PrevRef>)
    ensures Suits(f, PrepareAction(f, ctx, prev))
  {
  }

  lemma BuildAlong(
      w: World, f: Form, address: string, prev: Option<PrevRef>, prepared: Result<Prepared, string>, before: seq<Call>)
    requires f.deposit.Some? && Suits(f, prepared)
    ensures Along(Build(w, f, address, prev, prepared, before), before, BuildPlan(f))
  {
    var o := Build(w, f, address, prev, prepared, before);
    match prepared
    case Err(e) => Stops(o, before, BuildPlan(f));
    case Ok(Finished(spec)) =>
      SignAlong(w, f, address, spec, before);
      assert [] + SignPlan(f) == SignPlan(f);
    case Ok(NeedsDocument(text, payload)) =>
      DocumentAlong(w, f, address, text, payload, prev, before, o);
  }

  lemma JudgeAlong(
      w: World, f: Form, address: string, prev: Option<PrevRef>, latest: Option<Context>, recipients: Option<string>,
      before: seq<Call>)
    requires f.deposit.Some?
    ensures Along(Judge(w, f, address, prev, latest, recipients, before), before, BuildPlan(f))
  {
    if PreSignatureProblem(f.formType, prev, f.shown, latest, recipients).Some? {
      Stops(Judge(w, f, address, prev, latest, recipients, before), before, BuildPlan(f));
    } else {
      PreparedSuits(f, latest, prev);
      BuildAlong(w, f, address, prev, PrepareAction(f, latest, prev), before);
    }
  }

  function ContextPlan(f: Form): seq<Kind> {
    if f.formType.InfoAction? then BuildPlan(f)
    else if f.formType.TreasuryWithdrawals? then [ToLoadContext] + ([ToRecheck] + BuildPlan(f))
    else [ToLoadContext] + BuildPlan(f)
  }

  lemma CheckAlong(w: World, f: Form, address: string, prev: Option<PrevRef>, before: seq<Call>)
    requires f.deposit.Some?
    ensures Along(Check(w, f, address, prev, before), before, ContextPlan(f))
  {
    var o := Check(w, f, address, prev, before);
    var load := LoadContext(f.formType);
    var t := before + [load];
    if !NeedsContext(f.formType) {
      PreparedSuits(f, f.shown, prev);
      BuildAlong(w, f, address, prev, PrepareAction(f, f.shown, prev), before);
    } else if f.formType.TreasuryWithdrawals? {
      var u := t + [RecheckRecipients];
      match w.recipients(u) {
        case Err(e) => Stops(o, u, BuildPlan(f));
        case Ok(recipients) => JudgeAlong(w, f, address, prev, w.context(t), recipients, u);
      }
      GoesOn(o, t, RecheckRecipients, BuildPlan(f));
      GoesOn(o, before, load, [ToRecheck] + BuildPlan(f));
    } else {
      JudgeAlong(w, f, address, prev, w.context(t), None, t);
      GoesOn(o, before, load, BuildPlan(f));
    }
  }

  lemma StartAlong(w: World, f: Form, address: string)
    requires f.deposit.Some?
    ensures Along(Start(w, f, address), [], [ToReadAddress] + ContextPlan(f))
  {
    var o := Start(w, f, address);
    assert [] + [ReadRewardAddress] == [ReadRewardAddress];
    if o.trace == [ReadRewardAddress] && o.phase.AccountChanged? {
      Stops(o, [ReadRewardAddress], ContextPlan(f));
    } else {
      CheckAlong(w, f, address, EffectivePrev(f.chosen, f.shown), [ReadRewardAddress]);
    }
    GoesOn(o, [], ReadRewardAddress, ContextPlan(f));
  }

  /** The calls of every click are an initial part of the plan for its form, and the whole plan exactly when it
      succeeds; the draft is cleared by the last call of the plan and by no other. */
  lemma FollowsThePlan(w: World, f: Form, wallet: Option<string>, before: Phase)
    requires Clicked(w, f, wallet, before).Some?
    ensures var o := Clicked(w, f, wallet, before).value;
      Kinds(o.trace) <= Plan(f) && (o.phase.Success? <==> Kinds(o.trace) == Plan(f))
  {
    var o := Clicked(w, f, wallet, before).value;
    assert [ToReadAddress] + ContextPlan(f) == Plan(f);
    if o.trace == [] {
      assert Kinds(o.trace) == [];
    } else {
      StartAlong(w, f, wallet.value);
      assert Kinds([]) + Plan(f) == Plan(f);
    }
  }

  // ---- What cannot be undone ------------------------------------------------------------------

  /** Publishing, signing and submitting: what others can see or hold the wallet's owner to. */
  predicate External(k: Kind) {
    k.ToPublishDocument? || k.ToSign? || k.ToPublishMetadata? || k.ToSubmit?
  }

  function Externals(kinds: seq<Kind>): seq<Kind> {
    if kinds == [] then []
    else Externals(kinds[..|kinds| - 1]) + if External(kinds[|kinds| - 1]) then [kinds[|kinds| - 1]] else []
  }

  lemma {:induction false} ExternalsPrefix(a: seq<Kind>, b: seq<Kind>)
    requires a <= b
    ensures Externals(a) <= Externals(b)
    decreases |b|
  {
    if a == b {
    } else {
      ExternalsPrefix(a, b[..|b| - 1]);
    }
  }

  function ExternalPlan(f: Form): seq<Kind> {
    (if f.formType.NewConstitution? then [ToPublishDocument] else []) +
    (if f.metadata.signAsAuthor then [ToSign] else []) + [ToPublishMetadata, ToSubmit]
  }

  lemma ExternalsSnoc(kinds: seq<Kind>, k: Kind)
    ensures Externals(kinds + [k]) == Externals(kinds) + if External(k) then [k] else []
  {
    assert (kinds + [k])[..|kinds|] == kinds;
  }

  lemma {:induction false} ExternalsCat(a: seq<Kind>, b: seq<Kind>)
    ensures Externals(a + b) == Externals(a) + Externals(b)
    decreases |b|
  {
    if b == [] {
      assert a + b == a;
    } else {
      var n := |b| - 1;
      ExternalsCat(a, b[..n]);
      assert a + b == (a + b[..n]) + [b[n]];
      ExternalsSnoc(a + b[..n], b[n]);
    }
  }

  lemma ExternalsOfPlan(f: Form)
    ensures Externals(Plan(f)) == ExternalPlan(f)
  {
    hide Externals;
    ExternalsCat(CheckPlan(f), BuildPlan(f));
    NoneInChecks(f);
    NoExternals();
    ExternalsCat(if f.formType.NewConstitution? then [ToPublishDocument] else [], SignPlan(f));
    ExternalsCat(if f.metadata.signAsAuthor then [ToPrepare, ToSign] else [], FINALE);
    Short(ToPrepare, ToSign);
    Short(ToPublishMetadata, ToSubmit);
    ExternalsSnoc([ToPublishMetadata, ToSubmit], ToClearDraft);
    assert [ToPublishMetadata, ToSubmit] + [ToClearDraft] == FINALE;
    ExternalsSnoc([], ToPublishDocument);
    assert [] + [ToPublishDocument] == [ToPublishDocument];
  }

  lemma NoExternals()
    ensures Externals([]) == []
  {}

  lemma Short(a: Kind, b: Kind)
    ensures Externals([a]) == if External(a) then [a] else []
    ensures Externals([a, b]) == (if External(a) then [a] else []) + if External(b) then [b] else []
  {
    ExternalsSnoc([], a);
    assert [] + [a] == [a];
    ExternalsSnoc([a], b);
    assert [a] + [b] == [a, b];
  }

  lemma NoneInChecks(f: Form)
    ensures Externals(CheckPlan(f)) == []
  {
    Short(ToReadAddress, ToLoadContext);
    ExternalsSnoc([ToReadAddress, ToLoadContext], ToRecheck);
    assert [ToReadAddress, ToLoadContext] + [ToRecheck] == [ToReadAddress, ToLoadContext, ToRecheck];
  }

  /** The effects of every click that others can see are an initial part of: the constitution's document, the author's
      signature, the metadata, the transaction. */
  lemma EffectsInOrder(w: World, f: Form, wallet: Option<string>, before: Phase)
    requires Clicked(w, f, wallet, before).Some?
    ensures Externals(Kinds(Clicked(w, f, wallet, before).value.trace)) <= ExternalPlan(f)
  {
    FollowsThePlan(w, f, wallet, before);
    ExternalsPrefix(Kinds(Clicked(w, f, wallet, before).value.trace), Plan(f));
    ExternalsOfPlan(f);
  }
}
