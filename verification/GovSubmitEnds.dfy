/** How a click on Sign and submit ends: what each phase says about the calls made and their answers, and what the click
    leaves on the form. */
module GovSubmitEnds {
  import opened JsText
  import opened GovSubmit
  import opened GovSubmitRuns
  import opened GovSubmitChecks

  // ---- Every ending has its cause -------------------------------------------------------------

  /** The failure with which the last call of the trace was answered. */
  function FailureOf(w: World, trace: seq<Call>): Option<Failure>
    requires trace != []
  {
    match trace[|trace| - 1]
    case RecheckRecipients => Reason(w.recipients(trace))
    case PublishDocument(_) => Reason(w.document(trace))
    case PrepareMetadata(_) => Reason(w.bodyHash(trace))
    case SignData(_, _) => Reason(w.signature(trace))
    case PublishMetadata(_, _) => Reason(w.metadata(trace))
    case SubmitTx(_, _, _, _) => Reason(w.tx(trace))
    case _ => None
  }

  function Reason<T>(r: Result<T, Failure>): Option<Failure> {
    if r.Err? then Some(r.error) else None
  }

  /** Past the checks: a success ends with the cleared draft after a transaction that was accepted, a failure with the
      call that failed. */
  predicate EndsWell(w: World, f: Form, o: Outcome) {
    match o.phase
    case Success(txHash, authored) =>
      var n := |o.trace|;
      && n >= 2 && o.trace[n - 1] == ClearDraft && o.trace[n - 2].SubmitTx? && w.tx(o.trace[..n - 1]) == Ok(txHash)
      && authored == f.metadata.signAsAuthor
    case StepFailed(e) => o.trace != [] && FailureOf(w, o.trace) == Some(e)
    case _ => false
  }

  lemma SubmitEnds(w: World, f: Form, address: string, spec: Spec, anchor: Doc, before: seq<Call>)
    requires f.deposit.Some?
    ensures EndsWell(w, f, SubmitAndClear(w, f, address, spec, anchor, before))
  {
    var t := before + [SubmitTx(address, anchor, f.deposit.value, spec)];
    assert (t + [ClearDraft])[..|t|] == t;
  }

  lemma PublishEnds(w: World, f: Form, address: string, spec: Spec, author: Option<Author>, before: seq<Call>)
    requires f.deposit.Some?
    ensures EndsWell(w, f, Publish(w, f, address, spec, author, before))
  {
    var t := before + [PublishMetadata(BodyOf(f.metadata), author)];
    if w.metadata(t).Ok? {
      SubmitEnds(w, f, address, spec, w.metadata(t).value, t);
    }
  }

  lemma SignEnds(w: World, f: Form, address: string, spec: Spec, before: seq<Call>)
    requires f.deposit.Some?
    ensures EndsWell(w, f, Sign(w, f, address, spec, before))
  {
    hide BodyOf, Trim, Publish;
    if !f.metadata.signAsAuthor {
      PublishEnds(w, f, address, spec, None, before);
    } else {
      var t := before + [PrepareMetadata(BodyOf(f.metadata))];
      if w.bodyHash(t).Ok? {
        var u := t + [SignData(address, w.bodyHash(t).value)];
        if w.signature(u).Ok? {
          PublishEnds(w, f, address, spec, Some(w.signature(u).value.(name := Trim(f.metadata.authorName))), u);
        }
      }
    }
  }

  lemma EndsWellPhases(w: World, f: Form, o: Outcome)
    requires EndsWell(w, f, o)
    ensures o.phase.Success? || o.phase.StepFailed?
  {
  }

  lemma BuildEnds(w: World, f: Form, address: string, ctx: Option<Context>, prev: Option<PrevRef>, before: seq<Call>)
    requires f.deposit.Some?
    ensures var o := Build(w, f, address, prev, PrepareAction(f, ctx, prev), before);
      if o.phase.PanelInvalid? then o.trace == before && f.panel(ctx, prev) == Err(o.phase.error)
      else EndsWell(w, f, o) && (o.phase.Success? || o.phase.StepFailed?)
  {
    hide Sign, EndsWell;
    var o := Build(w, f, address, prev, PrepareAction(f, ctx, prev), before);
    match PrepareAction(f, ctx, prev)
    case Err(_) =>
    case Ok(Finished(spec)) =>
      SignEnds(w, f, address, spec, before);
      EndsWellPhases(w, f, o);
    case Ok(NeedsDocument(text, payload)) =>
      var t := before + [PublishDocument(text)];
      match w.document(t)
      case Err(_) => DocumentFailed(w, f, t);
      case Ok(doc) =>
        SignEnds(w, f, address, Spec(NewConstitution, prev, payload, Some(doc)), t);
        EndsWellPhases(w, f, o);
  }

  lemma DocumentFailed(w: World, f: Form, t: seq<Call>)
    requires t != [] && t[|t| - 1].PublishDocument? && w.document(t).Err?
    ensures EndsWell(w, f, Outcome(StepFailed(w.document(t).error), t))
  {
  }

  /** The first thing that is not in order, with the guardrail before the recipients and the previous action. */
  ghost predicate Names(problem: Problem, f: Form, latest: Option<Context>, recipients: Option<string>) {
    var guardrail := if latest.Some? then latest.value.guardrail else None;
    match problem
    case GuardrailUnknown => GuardrailChecked(f.formType) && guardrail.None?
    case GuardrailScriptChanged =>
      GuardrailChecked(f.formType) && guardrail.Some? && guardrail.value.Known? &&
      Lower(guardrail.value.scriptHash) != "fa24fb305126805cf2164c161d852a0e7330cf988f1fe558cf7d4a64"
    case GuardrailRequirementChanged =>
      GuardrailChecked(f.formType) && !GuardrailInOrder(f.shown, latest) && guardrail.Some? &&
      (guardrail.value.Known? ==>
         Lower(guardrail.value.scriptHash) == "fa24fb305126805cf2164c161d852a0e7330cf988f1fe558cf7d4a64")
    case RecipientsProblem(text) =>
      f.formType.TreasuryWithdrawals? && GuardrailInOrder(f.shown, latest) && recipients == Some(text)
    case NoChainState =>
      Chained(f.formType) && (GuardrailChecked(f.formType) ==> GuardrailInOrder(f.shown, latest)) &&
      (latest.None? || latest.value.prev.None?)
    case PrevActionChanged =>
      Chained(f.formType) && (GuardrailChecked(f.formType) ==> GuardrailInOrder(f.shown, latest)) &&
      latest.Some? && latest.value.prev.Some? && !PrevInOrder(f.chosen, f.shown, latest)
  }

  lemma ProblemIsNamed(f: Form, latest: Option<Context>, recipients: Option<string>)
    requires NeedsContext(f.formType)
    ensures var problem := PreSignatureProblem(
                             f.formType, EffectivePrev(f.chosen, f.shown), f.shown, latest, recipients);
      problem.Some? ==> Names(problem.value, f, latest, recipients)
  {
    hide PrevInOrder, EffectivePrev, Lower, RefStillPresent;
    PrevPasses(f, latest);
    GuardrailPasses(f.shown, latest);
  }

  ghost predicate PanelFails(f: Form, ctx: Option<Context>, e: string) {
    exists prev :: Follows(prev, f) && f.panel(ctx, prev) == Err(e)
  }

  /** What is shown when a click ends: the first guard that stopped it, the first check that failed, the panel's error,
      the failure of the last call, or the accepted transaction. */
  ghost predicate Explains(w: World, f: Form, wallet: Option<string>, o: Outcome) {
    match o.phase
    case WalletLost => o.trace == [] && (wallet.None? || wallet == Some(""))
    case DepositNotReady => o.trace == [] && wallet.Some? && wallet.value != "" && f.deposit.None?
    case ContextNotReady =>
      o.trace == [] && wallet.Some? && wallet.value != "" && f.deposit.Some? && NeedsContext(f.formType) &&
      !f.contextReady
    case FieldsMissing =>
      o.trace == [] && wallet.Some? && wallet.value != "" && f.deposit.Some? &&
      (NeedsContext(f.formType) ==> f.contextReady) &&
      (Trim(f.metadata.title) == "" || Trim(f.metadata.abstr) == "" || Trim(f.metadata.motivation) == "" ||
       Trim(f.metadata.rationale) == "")
    case AuthorMissing =>
      o.trace == [] && f.metadata.signAsAuthor && Trim(f.metadata.authorName) == "" &&
      FormIsReady(f.(metadata := f.metadata.(signAsAuthor := false)), wallet)
    case AccountChanged => o.trace == [ReadRewardAddress] && wallet.Some? && !SameAccount(w, wallet.value)
    case Blocked(problem) =>
      |o.trace| == |CheckPlan(f)| && NeedsContext(f.formType) &&
      Names(problem, f, LatestContext(w, f),
            if f.formType.TreasuryWithdrawals? && w.recipients(o.trace).Ok? then w.recipients(o.trace).value else None)
    case PanelInvalid(e) =>
      |o.trace| == |CheckPlan(f)| && PanelFails(f, if f.formType.InfoAction? then f.shown else LatestContext(w, f), e)
    case _ => EndsWell(w, f, o)
  }

  lemma JudgeExplains(
      w: World, f: Form, address: string, recipients: Option<string>, at: seq<Call>, wallet: Option<string>)
    requires f.deposit.Some? && NeedsContext(f.formType) && |at| == |CheckPlan(f)|
    requires recipients ==
      if f.formType.TreasuryWithdrawals? && w.recipients(at).Ok? then w.recipients(at).value else None
    ensures Explains(w, f, wallet,
      Judge(w, f, address, EffectivePrev(f.chosen, f.shown), LatestContext(w, f), recipients, at))
  {
    hide Names, Follows, EffectivePrev, PreSignatureProblem, LatestContext, EndsWell, CheckPlan, PrepareAction, Build;
    var prev, latest := EffectivePrev(f.chosen, f.shown), LatestContext(w, f);
    ProblemIsNamed(f, latest, recipients);
    FollowsEffective(f, prev);
    BuildEnds(w, f, address, latest, prev, at);
  }

  lemma StartExplains(w: World, f: Form, address: string)
    requires f.deposit.Some?
    ensures Explains(w, f, Some(address), Start(w, f, address))
  {
    hide Names, Follows, EffectivePrev, EndsWell, Judge, Build, PrepareAction;
    var t := [ReadRewardAddress];
    var prev := EffectivePrev(f.chosen, f.shown);
    if SameAccount(w, address) {
      var u := t + [LoadContext(f.formType)];
      assert u == [ReadRewardAddress, LoadContext(f.formType)];
      if f.formType.InfoAction? {
        FollowsEffective(f, prev);
        BuildEnds(w, f, address, f.shown, prev, t);
      } else if f.formType.TreasuryWithdrawals? {
        var v := u + [RecheckRecipients];
        if w.recipients(v).Ok? {
          JudgeExplains(w, f, address, w.recipients(v).value, v, Some(address));
        } else {
          RecheckFailed(w, f, v);
        }
      } else {
        JudgeExplains(w, f, address, None, u, Some(address));
      }
    }
  }

  lemma RecheckFailed(w: World, f: Form, t: seq<Call>)
    requires t != [] && t[|t| - 1].RecheckRecipients? && w.recipients(t).Err?
    ensures EndsWell(w, f, Outcome(StepFailed(w.recipients(t).error), t))
  {
  }

  /** However a click ends, what it shows is the reason it ended there. */
  lemma EveryEndIsExplained(w: World, f: Form, wallet: Option<string>, before: Phase)
    requires Clicked(w, f, wallet, before).Some?
    ensures Explains(w, f, wallet, Clicked(w, f, wallet, before).value)
  {
    hide Start, Trim, EndsWell, Names, Follows, TrimmedReferences;
    if wallet.Some? && f.deposit.Some? {
      StartExplains(w, f, wallet.value);
    }
  }

  // ---- What a click leaves --------------------------------------------------------------------

  lemma {:induction false} KindsAt(trace: seq<Call>, k: nat)
    requires k < |trace|
    ensures Kinds(trace)[k] == KindOf(trace[k])
    decreases |trace|
  {
    if k < |trace| - 1 {
      KindsAt(trace[..|trace| - 1], k);
    }
  }

  /** In the plan the context is loaded second, and the draft is cleared last. */
  lemma PlanPlaces(f: Form, k: nat)
    requires k < |Plan(f)|
    ensures Plan(f)[k] == ToLoadContext <==> k == 1 && NeedsContext(f.formType)
    ensures Plan(f)[k] == ToClearDraft <==> k == |Plan(f)| - 1
  {
  }

  lemma SecondLoads(w: World, f: Form, address: string)
    requires f.deposit.Some? && NeedsContext(f.formType) && |Start(w, f, address).trace| > 1
    ensures Start(w, f, address).trace[..2] == [ReadRewardAddress, LoadContext(f.formType)]
  {
    hide Judge, EffectivePrev;
    var u := [ReadRewardAddress] + [LoadContext(f.formType)];
    var prev := EffectivePrev(f.chosen, f.shown);
    if f.formType.TreasuryWithdrawals? {
      var v := u + [RecheckRecipients];
      if w.recipients(v).Ok? {
        JudgeAlong(w, f, address, prev, w.context(u), w.recipients(v).value, v);
      }
    } else {
      JudgeAlong(w, f, address, prev, w.context(u), None, u);
    }
  }

  /** The calls of a click that load a context or clear the draft. */
  lemma CallsAt(w: World, f: Form, wallet: Option<string>, before: Phase, k: nat)
    requires Clicked(w, f, wallet, before).Some? && k < |Clicked(w, f, wallet, before).value.trace|
    ensures var o := Clicked(w, f, wallet, before).value;
      && (o.trace[k].LoadContext? <==> k == 1 && NeedsContext(f.formType))
      && (o.trace[k] == ClearDraft ==> o.phase.Success?)
  {
    hide Clicked, Plan;
    var o := Clicked(w, f, wallet, before).value;
    FollowsThePlan(w, f, wallet, before);
    KindsAt(o.trace, k);
    PlanPlaces(f, k);
    assert Kinds(o.trace)[k] == Plan(f)[k];
  }

  /** A click that ends leaves on the form: the reason it ended; the context that its own call was answered, if it made
      one; the wallet, unless that was lost or has changed, and then what was being read for it counts no more; and the
      draft, unless the transaction was accepted. */
  ghost predicate Leaves(s: State, w: World, o: Outcome, left: State) {
    && left.phase == o.phase
    && (forall k :: 0 <= k < |o.trace| && o.trace[k].LoadContext? ==> left.contextData == w.context(o.trace[..k + 1]))
    && ((forall call :: call in o.trace ==> !call.LoadContext?) ==> left.contextData == s.contextData)
    && left.draftStored == (s.draftStored && ClearDraft !in o.trace)
    && (o.phase.AccountChanged? ==>
          !left.enabledApi && left.rewardAddress.None? && left.balanceReadId > s.balanceReadId)
    && (!o.phase.AccountChanged? ==> left.enabledApi == s.enabledApi && left.balanceReadId == s.balanceReadId)
    && (o.phase.WalletLost? ==> left.rewardAddress.None?)
    && (!o.phase.AccountChanged? && !o.phase.WalletLost? ==> left.rewardAddress == s.rewardAddress)
  }

  lemma WhatAClickLeaves(s: State, w: World, f: Form, wallet: Option<string>)
    requires Clicked(w, f, wallet, s.phase).Some?
    ensures var o := Clicked(w, f, wallet, s.phase).value; Leaves(s, w, o, Settled(s, w, f, o))
  {
    var o := Clicked(w, f, wallet, s.phase).value;
    var left := Settled(s, w, f, o);
    EveryEndIsExplained(w, f, wallet, s.phase);
    ContextLeft(s, w, f, wallet);
    DraftLeft(w, f, wallet, s.phase);
  }

  lemma ContextLeft(s: State, w: World, f: Form, wallet: Option<string>)
    requires Clicked(w, f, wallet, s.phase).Some?
    ensures var o := Clicked(w, f, wallet, s.phase).value;
      var left := Settled(s, w, f, o);
      (forall k :: 0 <= k < |o.trace| && o.trace[k].LoadContext? ==> left.contextData == w.context(o.trace[..k + 1])) &&
      ((forall call :: call in o.trace ==> !call.LoadContext?) ==> left.contextData == s.contextData)
  {
    var o := Clicked(w, f, wallet, s.phase).value;
    hide Clicked, Start;
    forall k | 0 <= k < |o.trace| && o.trace[k].LoadContext?
      ensures k == 1 && NeedsContext(f.formType)
    {
      CallsAt(w, f, wallet, s.phase, k);
    }
    if NeedsContext(f.formType) && |o.trace| > 1 {
      TraceIsStart(w, f, wallet, s.phase);
      SecondLoads(w, f, wallet.value);
      assert o.trace[..2][1] == o.trace[1];
      assert o.trace[1] in o.trace;
    }
  }

  lemma TraceIsStart(w: World, f: Form, wallet: Option<string>, before: Phase)
    requires Clicked(w, f, wallet, before).Some? && Clicked(w, f, wallet, before).value.trace != []
    ensures wallet.Some? && f.deposit.Some? && Clicked(w, f, wallet, before).value == Start(w, f, wallet.value)
  {
    hide Start;
  }

  lemma DraftLeft(w: World, f: Form, wallet: Option<string>, before: Phase)
    requires Clicked(w, f, wallet, before).Some?
    ensures var o := Clicked(w, f, wallet, before).value; ClearDraft in o.trace <==> o.phase.Success?
  {
    var o := Clicked(w, f, wallet, before).value;
    hide Clicked;
    EveryEndIsExplained(w, f, wallet, before);
    if ClearDraft in o.trace {
      var k :| 0 <= k < |o.trace| && o.trace[k] == ClearDraft;
      CallsAt(w, f, wallet, before, k);
    }
  }
}
