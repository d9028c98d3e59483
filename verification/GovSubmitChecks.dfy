/** What has been checked before a submission makes its first effect, and what its transaction carries. */
module GovSubmitChecks {
  import opened JsText
  import opened GovSubmit
  import opened GovSubmitRuns

  // ---- The gate -------------------------------------------------------------------------------

  function LatestContext(w: World, f: Form): Option<Context> {
    w.context([ReadRewardAddress, LoadContext(f.formType)])
  }

  /** The context read at this click says what it said on screen: no guardrail, or the one this build knows. */
  predicate GuardrailInOrder(shown: Option<Context>, latest: Option<Context>) {
    shown.Some? && latest.Some? &&
    match (shown.value.guardrail, latest.value.guardrail)
    case (Some(Absent), Some(Absent)) => true
    case (Some(Known(x)), Some(Known(y))) =>
      Lower(x) == Lower(y) == "fa24fb305126805cf2164c161d852a0e7330cf988f1fe558cf7d4a64"
    case _ => false
  }

  /** A row of the chain, enacted last or still open, has this transaction and index. */
  ghost predicate InChain(hash: string, index: int, chain: Chain) {
    exists row :: (chain.lastEnacted == Some(row) || row in chain.open) && Lower(row.txHash) == Lower(hash) &&
      row.index == index
  }

  function RootOf(ctx: Option<Context>): Option<Row> {
    if ctx.Some? && ctx.value.prev.Some? then ctx.value.prev.value.lastEnacted else None
  }

  /** The action to follow, chosen in the form or else the root on screen, is in the chain read at this click; with
      nothing to follow the chain still has no root. */
  ghost predicate PrevInOrder(chosen: Option<PrevRef>, shown: Option<Context>, latest: Option<Context>) {
    latest.Some? && latest.value.prev.Some? &&
    var chain := latest.value.prev.value;
    if chosen.Some? then InChain(chosen.value.txHashHex, chosen.value.index, chain)
    else if RootOf(shown).Some? then InChain(RootOf(shown).value.txHash, RootOf(shown).value.index, chain)
    else chain.lastEnacted.None?
  }

  /** What is followed is the form's choice, or else the root on screen. */
  predicate Follows(prev: Option<PrevRef>, f: Form) {
    match prev
    case Some(ref) => f.chosen == prev || (f.chosen.None? && RootOf(f.shown) == Some(Row(ref.txHashHex, ref.index)))
    case None => f.chosen.None? && RootOf(f.shown).None?
  }

  predicate Chained(t: FormType) { !t.InfoAction? && !t.TreasuryWithdrawals? }

  /** The wallet still answers with the address it connected with, in any case. */
  predicate SameAccount(w: World, address: string) {
    var current := w.rewardAddress([ReadRewardAddress]);
    current.Some? && current.value != "" && Lower(current.value) == Lower(address)
  }

  /** A type that has a panel is valid against `ctx`. */
  ghost predicate PanelInOrder(f: Form, ctx: Option<Context>) {
    f.formType.InfoAction? || f.formType.NoConfidence? || exists prev :: Follows(prev, f) && f.panel(ctx, prev).Ok?
  }

  /** Everything a submission has to find in order before its first effect, read at this click. */
  ghost predicate Checked(w: World, f: Form, address: string) {
    && SameAccount(w, address)
    && (f.formType.TreasuryWithdrawals? || f.formType.ParameterChange? ==>
          GuardrailInOrder(f.shown, LatestContext(w, f)))
    && (Chained(f.formType) ==> PrevInOrder(f.chosen, f.shown, LatestContext(w, f)))
    && (f.formType.TreasuryWithdrawals? ==>
          w.recipients([ReadRewardAddress, LoadContext(f.formType), RecheckRecipients]) == Ok(None))
    && PanelInOrder(f, if f.formType.InfoAction? then f.shown else LatestContext(w, f))
  }

  // ---- The gate as the code has it ------------------------------------------------------------

  lemma GuardrailPasses(shown: Option<Context>, latest: Option<Context>)
    ensures GuardrailInOrder(shown, latest) <==>
      GuardrailDecision(GuardrailOf(latest)).Ok? && SameGuardrail(GuardrailOf(shown), GuardrailOf(latest))
  {
  }

  lemma InChainIs(ref: PrevRef, chain: Chain)
    ensures RefStillPresent(Some(ref), chain) <==> InChain(ref.txHashHex, ref.index, chain)
  {
    if RefStillPresent(Some(ref), chain) {
      if !(chain.lastEnacted.Some? && MatchesRef(ref, chain.lastEnacted.value)) {
        var i :| 0 <= i < |chain.open| && MatchesRef(ref, chain.open[i]);
        assert chain.open[i] in chain.open;
      }
    }
  }

  lemma FollowsEffective(f: Form, prev: Option<PrevRef>)
    ensures Follows(prev, f) <==> prev == EffectivePrev(f.chosen, f.shown)
  {
  }

  lemma PrevPasses(f: Form, latest: Option<Context>)
    ensures PrevInOrder(f.chosen, f.shown, latest) <==>
      PrevProblem(EffectivePrev(f.chosen, f.shown), latest).None?
  {
    hide InChain, RefStillPresent;
    if latest.Some? && latest.value.prev.Some? {
      var prev, chain := EffectivePrev(f.chosen, f.shown), latest.value.prev.value;
      if prev.Some? {
        InChainIs(prev.value, chain);
      } else {
        NothingToFollow(chain);
      }
    }
  }

  lemma NothingToFollow(chain: Chain)
    ensures RefStillPresent(None, chain) <==> chain.lastEnacted.None?
  {
  }

  lemma PanelPasses(f: Form, ctx: Option<Context>)
    ensures PanelInOrder(f, ctx) <==> PrepareAction(f, ctx, EffectivePrev(f.chosen, f.shown)).Ok?
  {
    hide Follows, EffectivePrev;
    FollowsEffective(f, EffectivePrev(f.chosen, f.shown));
    forall prev | Follows(prev, f) ensures prev == EffectivePrev(f.chosen, f.shown) {
      FollowsEffective(f, prev);
    }
  }

  /** No problem is reported exactly when guardrail, recipients and previous action are in order. */
  lemma NoProblemIff(f: Form, latest: Option<Context>, recipients: Option<string>)
    requires NeedsContext(f.formType) && (recipients.Some? ==> f.formType.TreasuryWithdrawals?)
    ensures PreSignatureProblem(f.formType, EffectivePrev(f.chosen, f.shown), f.shown, latest, recipients).None? <==>
      (GuardrailChecked(f.formType) ==> GuardrailInOrder(f.shown, latest)) &&
      (Chained(f.formType) ==> PrevInOrder(f.chosen, f.shown, latest)) && recipients.None?
  {
    hide GuardrailInOrder, PrevInOrder, EffectivePrev, SameGuardrail, GuardrailDecision, PrevProblem;
    GuardrailPasses(f.shown, latest);
    PrevPasses(f, latest);
  }

  /** What must hold on screen for a click to read or write anything at all. */
  predicate FormIsReady(f: Form, wallet: Option<string>) {
    && f.reasons == 0 && (f.ackRequired ==> f.acknowledged) && wallet.Some? && wallet.value != "" && f.deposit.Some?
    && (f.formType.InfoAction? || f.contextReady)
    && Trim(f.metadata.title) != "" && Trim(f.metadata.abstr) != ""
    && Trim(f.metadata.motivation) != "" && Trim(f.metadata.rationale) != ""
    && (f.metadata.signAsAuthor ==> Trim(f.metadata.authorName) != "")
  }

  /** A click makes its first call exactly when no submit is running and the form is ready; the first call re-reads the
      wallet's address. */
  lemma FirstCallIff(w: World, f: Form, wallet: Option<string>, before: Phase)
    ensures var o := Clicked(w, f, wallet, before);
      (o.Some? && o.value.trace != []) <==> (!before.Submitting? && FormIsReady(f, wallet))
    ensures var o := Clicked(w, f, wallet, before);
      o.Some? && o.value.trace != [] ==> KindOf(o.value.trace[0]) == ToReadAddress
  {
    hide Trim, Lower, ContextPlan, TrimmedReferences;
    if !before.Submitting? && FormIsReady(f, wallet) {
      StartAlong(w, f, wallet.value);
      var trace := Start(w, f, wallet.value).trace;
      StartIsNonempty(w, f, wallet.value);
      FirstKind(trace, ToReadAddress, ContextPlan(f));
    }
  }

  lemma StartIsNonempty(w: World, f: Form, address: string)
    requires f.deposit.Some?
    ensures Start(w, f, address).trace != []
  {
  }

  lemma FirstKind(trace: seq<Call>, k: Kind, rest: seq<Kind>)
    requires trace != [] && Kinds(trace) <= Kinds([]) + ([k] + rest)
    ensures KindOf(trace[0]) == k
  {
    KindAtFirst(trace);
    assert (Kinds([]) + ([k] + rest))[0] == k;
  }

  lemma {:induction false} KindAtFirst(trace: seq<Call>)
    requires trace != []
    ensures Kinds(trace)[0] == KindOf(trace[0])
  {
    if |trace| > 1 {
      KindAtFirst(trace[..|trace| - 1]);
    }
  }

  lemma BuildGoesOn(
      w: World, f: Form, address: string, prev: Option<PrevRef>, prepared: Result<Prepared, string>, before: seq<Call>)
    requires f.deposit.Some?
    ensures |Build(w, f, address, prev, prepared, before).trace| > |before| <==> prepared.Ok?
  {
  }

  /** Past the account check, the outcome of a click that needs the chain. */
  lemma JudgeGoesOn(w: World, f: Form, address: string, recipients: Option<string>, at: seq<Call>)
    requires f.deposit.Some? && NeedsContext(f.formType)
    requires recipients.Some? ==> f.formType.TreasuryWithdrawals?
    ensures var prev, latest := EffectivePrev(f.chosen, f.shown), LatestContext(w, f);
      |Judge(w, f, address, prev, latest, recipients, at).trace| > |at| <==>
      (GuardrailChecked(f.formType) ==> GuardrailInOrder(f.shown, latest)) &&
      (Chained(f.formType) ==> PrevInOrder(f.chosen, f.shown, latest)) && recipients.None? && PanelInOrder(f, latest)
  {
    hide PreSignatureProblem, PanelInOrder, GuardrailInOrder, PrevInOrder, EffectivePrev, LatestContext, PrepareAction,
      Build;
    var prev, latest := EffectivePrev(f.chosen, f.shown), LatestContext(w, f);
    NoProblemIff(f, latest, recipients);
    PanelPasses(f, latest);
    BuildGoesOn(w, f, address, prev, PrepareAction(f, latest, prev), at);
  }

  /** The gate opens, so that a call past the checks is made, exactly when everything is in order. */
  lemma GateIff(w: World, f: Form, address: string)
    requires f.deposit.Some?
    ensures |Start(w, f, address).trace| > |CheckPlan(f)| <==> Checked(w, f, address)
  {
    hide PanelInOrder, GuardrailInOrder, PrevInOrder, EffectivePrev, PrepareAction, Build, Judge;
    var prev := EffectivePrev(f.chosen, f.shown);
    var t := [ReadRewardAddress];
    if SameAccount(w, address) {
      var u := t + [LoadContext(f.formType)];
      assert u == [ReadRewardAddress, LoadContext(f.formType)];
      if f.formType.InfoAction? {
        PanelPasses(f, f.shown);
        BuildGoesOn(w, f, address, prev, PrepareAction(f, f.shown, prev), t);
      } else if f.formType.TreasuryWithdrawals? {
        var v := u + [RecheckRecipients];
        assert v == [ReadRewardAddress, LoadContext(f.formType), RecheckRecipients];
        if w.recipients(v).Ok? {
          JudgeGoesOn(w, f, address, w.recipients(v).value, v);
        }
      } else {
        JudgeGoesOn(w, f, address, None, u);
      }
    }
  }

  /** Nothing is published, signed or submitted unless the account, the chain, the recipients and the panel were all
      found in order at this click. */
  lemma NothingBeforeTheChecks(w: World, f: Form, wallet: Option<string>, before: Phase)
    requires Clicked(w, f, wallet, before).Some?
    requires Externals(Kinds(Clicked(w, f, wallet, before).value.trace)) != []
    ensures wallet.Some? && Checked(w, f, wallet.value)
  {
    var o := Clicked(w, f, wallet, before).value;
    FollowsThePlan(w, f, wallet, before);
    NoneInChecks(f);
    if |o.trace| <= |CheckPlan(f)| {
      assert Kinds(o.trace) <= CheckPlan(f);
      ExternalsPrefix(Kinds(o.trace), CheckPlan(f));
    } else {
      GateIff(w, f, wallet.value);
    }
  }

  // ---- The previous action --------------------------------------------------------------------

  predicate RowMoved(a: Option<Row>, b: Option<Row>) {
    a.Some? != b.Some? ||
    (a.Some? && (Lower(a.value.txHash) != Lower(b.value.txHash) || a.value.index != b.value.index))
  }

  /** A chained action that follows the root on screen is let through only while that root is still the root, or has
      gone back to being open; in particular, an empty chain must still be empty. */
  lemma MovedRootIsRefused(w: World, f: Form, address: string)
    requires Checked(w, f, address) && Chained(f.formType) && f.chosen.None?
    ensures LatestContext(w, f).Some? && LatestContext(w, f).value.prev.Some?
    ensures var root, chain := RootOf(f.shown), LatestContext(w, f).value.prev.value;
      RowMoved(root, chain.lastEnacted) ==>
        root.Some? && exists row :: row in chain.open && !RowMoved(root, Some(row))
  {
    hide LatestContext, PanelInOrder, SameAccount;
  }

  // ---- What is published ----------------------------------------------------------------------

  /** The rows with both parts, trimmed, in order. */
  predicate Kept(kept: seq<Reference>, rows: seq<Reference>)
    decreases |rows|
  {
    if rows == [] then kept == []
    else
      var name, uri := Trim(rows[0].name), Trim(rows[0].uri);
      if name != "" && uri != "" then kept != [] && kept[0] == Reference(name, uri) && Kept(kept[1..], rows[1..])
      else Kept(kept, rows[1..])
  }

  /** Every field of the document is its own field of the form, trimmed. */
  predicate Says(b: Body, m: Metadata) {
    && b.title == Trim(m.title) && b.abstr == Trim(m.abstr) && b.motivation == Trim(m.motivation)
    && b.rationale == Trim(m.rationale) && b.surveyRef == Trim(m.surveyRef) && Kept(b.references, m.references)
  }

  lemma {:induction false} TrimmedFront(row: Reference, rows: seq<Reference>)
    ensures var name, uri := Trim(row.name), Trim(row.uri);
      TrimmedReferences([row] + rows) ==
        (if name != "" && uri != "" then [Reference(name, uri)] else []) + TrimmedReferences(rows)
  {
    hide Trim;
    if rows == [] {
      assert [row] + rows == [row] && [row][..0] == [];
      assert TrimmedReferences([]) == [];
    } else {
      var n := |rows| - 1;
      TrimmedFront(row, rows[..n]);
      assert ([row] + rows)[..n + 1] == [row] + rows[..n];
    }
  }

  lemma {:induction false} TrimmedIsKept(rows: seq<Reference>)
    ensures Kept(TrimmedReferences(rows), rows)
  {
    hide Trim;
    if rows != [] {
      TrimmedIsKept(rows[1..]);
      TrimmedFront(rows[0], rows[1..]);
      assert [rows[0]] + rows[1..] == rows;
      var name, uri := Trim(rows[0].name), Trim(rows[0].uri);
      if name != "" && uri != "" {
        assert TrimmedReferences(rows)[1..] == TrimmedReferences(rows[1..]);
      } else {
        assert [] + TrimmedReferences(rows[1..]) == TrimmedReferences(rows[1..]);
      }
    }
  }

  lemma BodySays(m: Metadata)
    ensures Says(BodyOf(m), m)
  {
    hide Trim;
    TrimmedIsKept(m.references);
  }

  // ---- The transaction ------------------------------------------------------------------------

  /** Where the metadata is published in a successful run. */
  function MetaAt(f: Form): nat {
    |CheckPlan(f)| + (if f.formType.NewConstitution? then 1 else 0) + if f.metadata.signAsAuthor then 2 else 0
  }

  /** Call `m` publishes the metadata, and the transaction anchors what was published. */
  predicate Carries(w: World, f: Form, address: string, spec: Spec, author: Option<Author>, o: Outcome, m: nat) {
    && m + 1 < |o.trace| && o.trace[m].PublishMetadata? && o.trace[m].author == author
    && Says(o.trace[m].body, f.metadata) && o.trace[m + 1].SubmitTx?
    && f.deposit.Some? && o.trace[m + 1] == SubmitTx(address, o.trace[m + 1].anchor, f.deposit.value, spec)
    && w.metadata(o.trace[..m + 1]) == Ok(o.trace[m + 1].anchor)
    && (o.phase.Success? ==> w.tx(o.trace[..m + 2]) == Ok(o.phase.txHash))
  }

  /** The author is the wallet's signature over the hash of the very metadata that is published. */
  predicate SignedBy(w: World, f: Form, address: string, author: Option<Author>, trace: seq<Call>, m: nat) {
    if !f.metadata.signAsAuthor then author.None?
    else
      && 2 <= m < |trace| && trace[m].PublishMetadata? && trace[m - 2] == PrepareMetadata(trace[m].body)
      && trace[m - 1].SignData?
      && trace[m - 1].signer == address && w.bodyHash(trace[..m - 1]) == Ok(trace[m - 1].bodyHash)
      && w.signature(trace[..m]).Ok?
      && author == Some(w.signature(trace[..m]).value.(name := Trim(f.metadata.authorName)))
  }

  lemma PublishCarries(w: World, f: Form, address: string, spec: Spec, author: Option<Author>, before: seq<Call>)
    requires f.deposit.Some?
    requires |Publish(w, f, address, spec, author, before).trace| > |before| + 1
    ensures var o := Publish(w, f, address, spec, author, before);
      Carries(w, f, address, spec, author, o, |before|) && o.trace[|before|] ==
      PublishMetadata(BodyOf(f.metadata), author)
  {
    hide BodyOf, Says;
    BodySays(f.metadata);
    var o := Publish(w, f, address, spec, author, before);
    var t := before + [PublishMetadata(BodyOf(f.metadata), author)];
    assert o.trace[..|before| + 1] == t;
    var u := t + [SubmitTx(address, w.metadata(t).value, f.deposit.value, spec)];
    assert o.trace[..|before| + 2] == u;
  }

  lemma SignCarries(w: World, f: Form, address: string, spec: Spec, before: seq<Call>) returns (author: Option<Author>)
    requires f.deposit.Some?
    requires |Sign(w, f, address, spec, before).trace| > |before| + (if f.metadata.signAsAuthor then 2 else 0) + 1
    ensures var o := Sign(w, f, address, spec, before);
      var m := |before| + if f.metadata.signAsAuthor then 2 else 0;
      Carries(w, f, address, spec, author, o, m) && SignedBy(w, f, address, author, o.trace, m)
  {
    hide BodyOf, Says, Publish, Carries, Trim;
    var o := Sign(w, f, address, spec, before);
    if !f.metadata.signAsAuthor {
      author := None;
      PublishCarries(w, f, address, spec, None, before);
    } else {
      var t := before + [PrepareMetadata(BodyOf(f.metadata))];
      var u := t + [SignData(address, w.bodyHash(t).value)];
      author := Some(w.signature(u).value.(name := Trim(f.metadata.authorName)));
      PublishAlong(w, f, address, spec, author, u);
      PublishCarries(w, f, address, spec, author, u);
      PrefixOf(u, o.trace);
      assert u[..|before| + 1] == t;
      assert o.trace[..|before| + 1] == t;
    }
  }

  lemma PrefixOf(a: seq<Call>, b: seq<Call>)
    requires a <= b
    ensures b[..|a|] == a
    ensures forall i :: 0 <= i < |a| ==> b[i] == a[i]
  {
  }

  /** The action is what the panel was validated to be on the context read at this click; a constitution's own text was
      published first, and the document in the action is the one that came of it. */
  ghost predicate ContentOf(w: World, f: Form, spec: Spec, trace: seq<Call>) {
    if f.formType.InfoAction? || f.formType.NoConfidence? then spec.payload == "" && spec.document.None?
    else
      exists prev, p :: Follows(prev, f) && f.panel(LatestContext(w, f), prev) == Ok(p) && spec.payload == p.payload &&
        if f.formType.NewConstitution? then Documented(w, spec, p.text, trace, |CheckPlan(f)|) else spec.document.None?
  }

  predicate Documented(w: World, spec: Spec, text: string, trace: seq<Call>, k: nat) {
    k < |trace| && trace[k] == PublishDocument(text) && spec.document.Some? &&
    w.document(trace[..k + 1]) == Ok(spec.document.value)
  }

  lemma BuildCarries(
      w: World, f: Form, address: string, prev: Option<PrevRef>, prepared: Result<Prepared, string>, before: seq<Call>)
    returns (spec: Spec, author: Option<Author>)
    requires f.deposit.Some? && Suits(f, prepared) && |before| == |CheckPlan(f)|
    requires |Build(w, f, address, prev, prepared, before).trace| > MetaAt(f) + 1
    ensures var o := Build(w, f, address, prev, prepared, before);
      Carries(w, f, address, spec, author, o, MetaAt(f)) && SignedBy(w, f, address, author, o.trace, MetaAt(f)) &&
      prepared.Ok? &&
      match prepared.value
      case Finished(s) => spec == s
      case NeedsDocument(text, payload) =>
        spec == Spec(NewConstitution, prev, payload, spec.document) && Documented(w, spec, text, o.trace, |before|)
  {
    hide Carries, SignedBy, Sign, CheckPlan;
    match prepared
    case Ok(Finished(s)) =>
      spec := s;
      author := SignCarries(w, f, address, spec, before);
    case Ok(NeedsDocument(text, payload)) =>
      var t := before + [PublishDocument(text)];
      spec := Spec(NewConstitution, prev, payload, Some(w.document(t).value));
      author := SignCarries(w, f, address, spec, t);
      SignAlong(w, f, address, spec, t);
      PrefixOf(t, Build(w, f, address, prev, prepared, before).trace);
  }

  /** Past the checks a submission is what is built on the context it was checked against. */
  lemma StartIsBuild(w: World, f: Form, address: string) returns (ctx: Option<Context>, at: seq<Call>)
    requires f.deposit.Some? && |Start(w, f, address).trace| > |CheckPlan(f)|
    ensures var prev := EffectivePrev(f.chosen, f.shown);
      PrepareAction(f, ctx, prev).Ok? &&
      Start(w, f, address) == Build(w, f, address, prev, PrepareAction(f, ctx, prev), at)
    ensures |at| == |CheckPlan(f)| && (!f.formType.InfoAction? ==> ctx == LatestContext(w, f))
  {
    hide Build, PrepareAction, PreSignatureProblem, EffectivePrev;
    var prev := EffectivePrev(f.chosen, f.shown);
    var t := [ReadRewardAddress];
    var u := t + [LoadContext(f.formType)];
    assert u == [ReadRewardAddress, LoadContext(f.formType)];
    if f.formType.InfoAction? {
      ctx, at := f.shown, t;
    } else if f.formType.TreasuryWithdrawals? {
      ctx, at := LatestContext(w, f), u + [RecheckRecipients];
      assert at == [ReadRewardAddress, LoadContext(f.formType), RecheckRecipients];
    } else {
      ctx, at := LatestContext(w, f), u;
    }
    BuildGoesOn(w, f, address, prev, PrepareAction(f, ctx, prev), at);
  }

  /** The action that is prepared, as its form asks for it. */
  lemma PreparedIs(f: Form, ctx: Option<Context>, prev: Option<PrevRef>)
    requires PrepareAction(f, ctx, prev).Ok?
    ensures match PrepareAction(f, ctx, prev).value
      case Finished(spec) =>
        && spec.formType == f.formType && spec.document.None? && !f.formType.NewConstitution?
        && spec.prev == (if Chained(f.formType) then prev else None)
        && (if f.formType.InfoAction? || f.formType.NoConfidence? then spec.payload == ""
            else f.panel(ctx, prev).Ok? && spec.payload == f.panel(ctx, prev).value.payload)
      case NeedsDocument(text, payload) => f.formType.NewConstitution? && f.panel(ctx, prev) == Ok(Panel(text, payload))
  {
  }

  /** What a transaction that is sent carries: the connected account, the deposit on screen, the anchor of the metadata
      published just before, with the author's signature over that same metadata where asked for, and the action that
      the panel was validated to be, following what the form follows. */
  lemma WhatIsSubmitted(w: World, f: Form, wallet: Option<string>, before: Phase)
    returns (spec: Spec, author: Option<Author>)
    requires Clicked(w, f, wallet, before).Some?
    requires |Clicked(w, f, wallet, before).value.trace| > MetaAt(f) + 1
    ensures wallet.Some? && Checked(w, f, wallet.value)
    ensures var o := Clicked(w, f, wallet, before).value;
      Carries(w, f, wallet.value, spec, author, o, MetaAt(f)) &&
      SignedBy(w, f, wallet.value, author, o.trace, MetaAt(f)) && ContentOf(w, f, spec, o.trace)
    ensures spec.formType == f.formType && if Chained(f.formType) then Follows(spec.prev, f) else spec.prev.None?
  {
    hide Start, Build, Checked, PrepareAction, EffectivePrev, LatestContext, Carries, SignedBy, Documented, Follows,
      BodyOf, CheckPlan, Suits, Trim;
    assert Clicked(w, f, wallet, before).value == Start(w, f, wallet.value);
    GateIff(w, f, wallet.value);
    var prev := EffectivePrev(f.chosen, f.shown);
    FollowsEffective(f, prev);
    var ctx, at := StartIsBuild(w, f, wallet.value);
    PreparedSuits(f, ctx, prev);
    PreparedIs(f, ctx, prev);
    spec, author := BuildCarries(w, f, wallet.value, prev, PrepareAction(f, ctx, prev), at);
  }
}
