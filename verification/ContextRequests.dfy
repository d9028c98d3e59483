/** The live chain context of the governance form (src/components/SubmitGovAction.tsx:473-504, 590-639, 1217-1240, with
    the context cases of src/lib/governance/govActionFormState.ts): loads race type switches, retries, returns to a
    visible page and the submit's own load, and each carries a request id. */
module ContextRequests {
  import opened JsText

  /** What the chain said, and for which type of action it was asked. */
  datatype Reading = Reading(forType: nat, content: string)

  datatype Status = Idle | Loading | Ready | Failed

  datatype Context = Context(status: Status, requestId: nat, data: Option<Reading>)

  datatype Request = Request(id: nat, forType: nat)

  /** A submit: nothing yet, waiting for its own request, or holding what that request returned (None if it failed). */
  datatype Submit = NotSubmitting | Started | Waiting(own: Request) | Holding(own: Request, loaded: Option<Reading>)

  /** Type 0 is InfoAction, the one that needs no context. `lastId` is the counter behind the ids. */
  datatype Form = Form(formType: nat, lastId: nat, context: Context, pending: set<Request>, submit: Submit)

  const UNTOUCHED := Form(0, 0, Context(Idle, 0, None), {}, NotSubmitting)

  // ---- The reducer ----------------------------------------------------------------------------

  function Requested(c: Context, id: nat): Context { Context(Loading, id, c.data) }

  function Loaded(c: Context, id: nat, data: Reading): Context {
    if id != c.requestId then c else Context(Ready, id, Some(data))
  }

  function LoadFailed(c: Context, id: nat): Context {
    if id != c.requestId then c else Context(Failed, id, None)
  }

  function TypeSet(f: Form, t: nat): Form {
    if t == f.formType then f else f.(formType := t, context := Context(Idle, f.context.requestId, None))
  }

  /** Back to InfoAction; the context is not draft data, so it stays. */
  function Discarded(f: Form): Form { f.(formType := 0) }

  // ---- The handlers ---------------------------------------------------------------------------

  /** `loadContext` up to its request. */
  function Load(f: Form): Form {
    var id := f.lastId + 1;
    f.(lastId := id, context := Requested(f.context, id), pending := f.pending + {Request(id, f.formType)})
  }

  /** A type switch, with the effect that follows it. */
  function Switched(f: Form, t: nat): Form {
    var g := TypeSet(f, t);
    if t == f.formType || t == 0 then g else Load(g)
  }

  /** `loadContext` from its answer on; a submit that waits for it gets the answer too. */
  function Answer(f: Form, r: Request, content: Option<string>): Form {
    var c := if content.Some? then Loaded(f.context, r.id, Reading(r.forType, content.value))
             else LoadFailed(f.context, r.id);
    f.(context := c, pending := f.pending - {r},
       submit := if f.submit == Waiting(r) then
                   Holding(r, if content.Some? then Some(Reading(r.forType, content.value)) else None)
                 else f.submit)
  }

  function SubmitLoads(f: Form): Form {
    var g := Load(f);
    g.(submit := Waiting(Request(g.lastId, f.formType)))
  }

  /** Restoring a stored draft, on mount, is a type switch on the untouched form. */
  datatype Event =
    | TypeChosen(t: nat)
    | DraftDiscarded
    | RetryClicked
    | BackAfterAMinute
    | Answered(r: Request, content: Option<string>)
    | SubmitClicked
    | SubmitAsks
    | SubmitEnds

  /** The fields, and with them the type and the draft, are frozen during a submit; "Try again" shows only on a failed
      context; the visibility listener checks for a submit itself; a submit starts only on a context that is ready,
      where its type needs one. */
  predicate Enabled(f: Form, ev: Event) {
    match ev
    case TypeChosen(_) => f.submit.NotSubmitting?
    case DraftDiscarded => f.submit.NotSubmitting?
    case RetryClicked => f.context.status.Failed? && f.formType != 0
    case BackAfterAMinute => f.submit.NotSubmitting? && f.formType != 0
    case Answered(r, _) => r in f.pending
    case SubmitClicked =>
      f.submit.NotSubmitting? && (f.formType == 0 || (f.context.status.Ready? && f.context.data.Some?))
    case SubmitAsks => f.submit.Started? && f.formType != 0
    case SubmitEnds => !f.submit.NotSubmitting?
  }

  function Next(f: Form, ev: Event): Form
    requires Enabled(f, ev)
  {
    match ev
    case TypeChosen(t) => Switched(f, t)
    case DraftDiscarded => Discarded(f)
    case RetryClicked => Load(f)
    case BackAfterAMinute => Load(f)
    case Answered(r, content) => Answer(f, r, content)
    case SubmitClicked => f.(submit := Started)
    case SubmitAsks => SubmitLoads(f)
    case SubmitEnds => f.(submit := NotSubmitting)
  }

  function After(events: seq<Event>): Option<Form> {
    if events == [] then Some(UNTOUCHED)
    else
      var before := After(events[..|events| - 1]);
      var ev := events[|events| - 1];
      if before.None? || !Enabled(before.value, ev) then None else Some(Next(before.value, ev))
  }

  // ---- Every run ------------------------------------------------------------------------------

  predicate RequestsOk(f: Form) {
    && f.context.requestId == f.lastId
    && (forall r :: r in f.pending ==> r.id <= f.lastId)
    && (forall r, q :: r in f.pending && q in f.pending && r.id == q.id ==> r == q)
    && (forall r :: r in f.pending && r.id == f.lastId ==>
          !f.context.status.Ready? && !f.context.status.Failed? && (f.formType == 0 || r.forType == f.formType))
  }

  predicate ContextOk(f: Form) {
    && (f.context.status.Ready? ==> f.context.data.Some?)
    && (f.formType != 0 && f.context.data.Some? ==> f.context.data.value.forType == f.formType)
    && (f.context.status.Loading? ==> exists r :: r in f.pending && r.id == f.lastId)
  }

  /** What a submit for a type with a context knows: that nothing newer than its own request is in flight, and that
      what it was given is what the form shows. */
  predicate SubmitOk(f: Form) {
    match f.submit
    case NotSubmitting => true
    case Started => f.formType == 0 || f.context.status.Ready?
    case Waiting(own) =>
      own in f.pending && own.id == f.lastId && own.forType == f.formType != 0 && f.context.status.Loading?
    case Holding(own, loaded) =>
      own.forType == f.formType != 0 &&
      (loaded.Some? ==> own.id == f.lastId && f.context == Context(Ready, own.id, loaded))
  }

  predicate Inv(f: Form) { RequestsOk(f) && ContextOk(f) && SubmitOk(f) }

  lemma LoadKeeps(f: Form)
    requires RequestsOk(f) && f.formType != 0
    requires f.context.data.Some? ==> f.context.data.value.forType == f.formType
    requires f.submit.NotSubmitting? || f.submit.Started? || (f.submit.Holding? && f.submit.loaded.None? && SubmitOk(f))
    ensures var g := Load(f);
      RequestsOk(g) && ContextOk(g) && Request(g.lastId, g.formType) in g.pending &&
      (!g.submit.Started? ==> SubmitOk(g))
  {
    assert Request(f.lastId + 1, f.formType) in Load(f).pending;
  }

  lemma AnswerKeeps(f: Form, r: Request, content: Option<string>)
    requires Inv(f) && r in f.pending
    ensures Inv(Answer(f, r, content))
  {
  }

  lemma SwitchKeeps(f: Form, t: nat)
    requires Inv(f) && f.submit.NotSubmitting?
    ensures Inv(Switched(f, t))
  {
    if t != f.formType && t == 0 {
      assert ContextOk(TypeSet(f, t));
    } else if t != f.formType {
      var g := TypeSet(f, t);
      var id := f.lastId + 1;
      assert Request(id, t) in Load(g).pending;
    }
  }

  lemma NextKeeps(f: Form, ev: Event)
    requires Inv(f) && Enabled(f, ev)
    ensures Inv(Next(f, ev))
  {
    match ev
    case TypeChosen(t) => SwitchKeeps(f, t);
    case DraftDiscarded =>
    case RetryClicked => LoadKeeps(f);
    case BackAfterAMinute => LoadKeeps(f);
    case Answered(r, content) => AnswerKeeps(f, r, content);
    case SubmitClicked =>
    case SubmitAsks => LoadKeeps(f);
    case SubmitEnds =>
  }

  lemma {:induction false} Kept(events: seq<Event>)
    ensures After(events).Some? ==> Inv(After(events).value)
  {
    if events != [] && After(events).Some? {
      Kept(events[..|events| - 1]);
      NextKeeps(After(events[..|events| - 1]).value, events[|events| - 1]);
    }
  }

  /** A new type that needs a context, "Try again", coming back after a minute and the submit itself each ask for the
      form's type, newer than everything before; no other event asks. */
  lemma EventAsks(events: seq<Event>, ev: Event)
    requires After(events).Some? && Enabled(After(events).value, ev) && !ev.Answered?
    ensures var f, g := After(events).value, Next(After(events).value, ev);
      && g.formType == (if ev.TypeChosen? then ev.t else if ev.DraftDiscarded? then 0 else f.formType)
      && g.context.data == (if ev.TypeChosen? && ev.t != f.formType then None else f.context.data)
      && if (ev.TypeChosen? && ev.t != f.formType && ev.t != 0) || ev.RetryClicked? || ev.BackAfterAMinute? ||
            ev.SubmitAsks?
         then
           g.context.status == Loading && g.pending == f.pending + {Request(g.lastId, g.formType)} &&
           g.context.requestId == g.lastId > f.lastId && forall r :: r in f.pending ==> r.id < g.lastId
         else g.pending == f.pending && g.lastId == f.lastId
  {
    Kept(events);
  }

  /** The chain state a submit validates against is its own answer, to the newest request there is, and is the one
      on screen, for the form's own type. */
  lemma SubmitSeesTheNewest(events: seq<Event>)
    requires After(events).Some? && After(events).value.submit.Holding?
    requires After(events).value.submit.loaded.Some?
    ensures var f := After(events).value;
      f.context == Context(Ready, f.lastId, f.submit.loaded) && f.submit.own.id == f.lastId &&
      f.submit.loaded.value.forType == f.formType
  {
    Kept(events);
  }

  /** During the whole of a submit for a type with a context, apart from the submit's own request, a newer one is asked
      for exactly by "Try again"; and that is offered only to a submit whose own request has failed, which holds no
      reading. */
  lemma OvertakenOnlyByRetry(events: seq<Event>, ev: Event)
    requires After(events).Some? && Enabled(After(events).value, ev)
    requires !After(events).value.submit.NotSubmitting? && After(events).value.formType != 0 && !ev.SubmitAsks?
    ensures Next(After(events).value, ev).lastId != After(events).value.lastId <==> ev.RetryClicked?
    ensures ev.RetryClicked? ==>
      After(events).value.submit.Holding? && After(events).value.submit.loaded.None?
  {
    Kept(events);
  }

  /** Whatever is shown for a type that needs a context was asked for that type, by the newest request that has been
      answered; an older answer changes nothing on screen. */
  lemma OlderAnswersChangeNothing(events: seq<Event>, r: Request, content: Option<string>)
    requires After(events).Some? && Enabled(After(events).value, Answered(r, content))
    ensures var f := After(events).value;
      var g := Next(f, Answered(r, content));
      if r.id < f.lastId then g.context == f.context
      else g.context == (if content.Some? then Context(Ready, f.lastId, Some(Reading(r.forType, content.value)))
                         else Context(Failed, f.lastId, None))
    ensures var g := Next(After(events).value, Answered(r, content));
      g.formType != 0 && g.context.data.Some? ==> g.context.data.value.forType == g.formType
  {
    Kept(events);
    NextKeeps(After(events).value, Answered(r, content));
  }

  /** A submit whose own load failed can be overtaken by "Try again": what is on screen is then not what it holds, but
      it holds nothing, and a submit that holds nothing is refused. */
  lemma FailedLoadCanBeOvertaken() returns (events: seq<Event>)
    ensures After(events).Some?
    ensures var f := After(events).value; f.submit.Holding? && f.submit.loaded.None? && f.submit.own.id < f.lastId
  {
    var r1 := Request(1, 1);
    var r2 := Request(2, 1);
    events := [];
    events := Then(events, TypeChosen(1));
    events := Then(events, Answered(r1, Some("")));
    events := Then(events, SubmitClicked);
    events := Then(events, SubmitAsks);
    events := Then(events, Answered(r2, None));
    events := Then(events, RetryClicked);
  }

  lemma Then(events: seq<Event>, ev: Event) returns (more: seq<Event>)
    requires After(events).Some? && Enabled(After(events).value, ev)
    ensures more == events + [ev] && After(more) == Some(Next(After(events).value, ev))
  {
    more := events + [ev];
    assert more[..|events|] == events;
  }

  // ---- In place -------------------------------------------------------------------------------

  /** The refs and the reducer's context. `pending` is history. */
  class ContextHost {
    var formType: nat
    var contextRequestId: nat
    var context: Context
    var submit: Submit
    var hiddenAt: Option<int>
    ghost var pending: set<Request>

    constructor ()
      ensures View() == UNTOUCHED && hiddenAt.None?
    {
      formType, contextRequestId, context, submit := 0, 0, Context(Idle, 0, None), NotSubmitting;
      hiddenAt, pending := None, {};
    }

    ghost function View(): Form
      reads this
    {
      Form(formType, contextRequestId, context, pending, submit)
    }

    /** `loadContext` up to its request; `requestId` is what the suspended call keeps. */
    method LoadContext() returns (requestId: nat)
      modifies this`contextRequestId, this`context, this`pending
      ensures View() == Load(old(View())) && requestId == contextRequestId
    {
      contextRequestId := contextRequestId + 1;
      requestId := contextRequestId;
      context := Requested(context, requestId);
      pending := pending + {Request(requestId, formType)};
    }

    method Landed(r: Request, content: Option<string>) returns (data: Option<Reading>)
      modifies this`context, this`pending, this`submit
      ensures View() == Answer(old(View()), r, content)
      ensures data == if content.Some? then Some(Reading(r.forType, content.value)) else None
    {
      pending := pending - {r};
      match content {
        case Some(text) =>
          data := Some(Reading(r.forType, text));
          context := Loaded(context, r.id, data.value);
        case None =>
          data := None;
          context := LoadFailed(context, r.id);
      }
      if submit == Waiting(r) { submit := Holding(r, data); }
    }

    /** Asks again only after more than a minute away, never during a submit, and only for a type with a context. */
    method OnVisibilityChange(hidden: bool, now: int) returns (asked: bool)
      modifies this
      ensures hiddenAt == if hidden then Some(now) else None
      ensures asked <==>
        !hidden && old(hiddenAt).Some? && now - old(hiddenAt).value > 60000 && submit.NotSubmitting? && formType != 0
      ensures View() == if asked then Load(old(View())) else old(View())
      ensures asked ==> Enabled(old(View()), BackAfterAMinute)
    {
      asked := false;
      if hidden {
        hiddenAt := Some(now);
        return;
      }
      var since := hiddenAt;
      hiddenAt := None;
      if since.None? { return; }
      if now - since.value <= 60000 { return; }
      if !submit.NotSubmitting? { return; }
      if formType == 0 { return; }
      var _ := LoadContext();
      asked := true;
    }
  }
}
