/** The review dialog's preview (src/components/govAction/ReviewModal.tsx:86-158): each request carries an id, and
    opening, closing, retrying and editing race the answers. */
module ReviewPreview {
  import opened JsText

  datatype Preview = Loading | Ready(html: string) | Failed(message: string)

  /** A request in flight: its id, and the text it was sent. */
  datatype Request = Request(id: nat, text: string)

  datatype Reply = Rendered(html: string) | Status(code: int) | Dropped

  const TOO_LONG := "The text is too long to preview. Shorten a field and try again."
  const UNAVAILABLE := "Preview unavailable, the form is unaffected."

  function PreviewOf(reply: Reply): Preview {
    match reply
    case Rendered(html) => Ready(html)
    case Status(code) => if code == 400 then Failed(TOO_LONG) else Failed(UNAVAILABLE)
    case Dropped => Failed(UNAVAILABLE)
  }

  /** The dialog; `text` is what its fields hold. The requests in flight, and what each of the others was answered, are
      history. */
  datatype Dialog = Dialog(
    open: bool, text: string, requestId: nat, preview: Preview, pending: set<Request>, replies: map<Request, Reply>)

  const CLOSED := Dialog(false, "", 0, Loading, {}, map[])

  // ---- The effects ----------------------------------------------------------------------------

  /** `load` up to its request. */
  function Load(d: Dialog): Dialog {
    d.(requestId := d.requestId + 1, preview := Loading, pending := d.pending + {Request(d.requestId + 1, d.text)})
  }

  /** `load` from its answer on. */
  function Landed(d: Dialog, r: Request, reply: Reply): Dialog {
    d.(pending := d.pending - {r}, replies := d.replies[r := reply],
       preview := if d.requestId != r.id then d.preview else PreviewOf(reply))
  }

  function Opening(d: Dialog): Dialog { Load(d.(open := true)) }

  /** Whatever is in flight belongs to the preview being closed. */
  function Closing(d: Dialog): Dialog { d.(open := false, requestId := d.requestId + 1) }

  /** A changed field runs the fetch again while the dialog is open, and sends nothing while it is closed. */
  function Edit(d: Dialog, text: string): Dialog {
    if text == d.text then d else if d.open then Load(d.(text := text)) else d.(text := text)
  }

  datatype Event = Opened | Closed | Retried | Edited(text: string) | Answered(r: Request, reply: Reply)

  predicate Enabled(d: Dialog, ev: Event) {
    match ev
    case Opened => !d.open
    case Closed => d.open
    case Retried => d.open
    case Edited(_) => true
    case Answered(r, _) => r in d.pending
  }

  function Next(d: Dialog, ev: Event): Dialog
    requires Enabled(d, ev)
  {
    match ev
    case Opened => Opening(d)
    case Closed => Closing(d)
    case Retried => Load(d)
    case Edited(text) => Edit(d, text)
    case Answered(r, reply) => Landed(d, r, reply)
  }

  /** The dialog after `events`, in order; None if one of them could not happen. */
  function After(events: seq<Event>): Option<Dialog> {
    if events == [] then Some(CLOSED)
    else
      var before := After(events[..|events| - 1]);
      var ev := events[|events| - 1];
      if before.None? || !Enabled(before.value, ev) then None else Some(Next(before.value, ev))
  }

  // ---- Every run ------------------------------------------------------------------------------

  /** The newest id belongs to a request only while the dialog is open, and then to one for the text in the fields; the
      preview is what that request was answered, and is loading while it is in flight. */
  predicate Inv(d: Dialog) {
    && (forall r :: r in d.pending ==> r.id <= d.requestId)
    && (forall r :: r in d.pending && r.id == d.requestId ==> d.open && r.text == d.text)
    && (forall r :: r in d.replies ==> r.id <= d.requestId)
    && (d.open ==>
          var own := Request(d.requestId, d.text);
          if own in d.pending then d.preview == Loading
          else own in d.replies && d.preview == PreviewOf(d.replies[own]))
  }

  lemma NextKeeps(d: Dialog, ev: Event)
    requires Inv(d) && Enabled(d, ev)
    ensures Inv(Next(d, ev))
  {
  }

  lemma {:induction false} Kept(events: seq<Event>)
    ensures After(events).Some? ==> Inv(After(events).value)
  {
    if events != [] && After(events).Some? {
      Kept(events[..|events| - 1]);
      NextKeeps(After(events[..|events| - 1]).value, events[|events| - 1]);
    }
  }

  /** What a request was answered is what some event of the run answered it. */
  lemma {:induction false} RepliesAreGiven(events: seq<Event>, r: Request)
    requires After(events).Some? && r in After(events).value.replies
    ensures Answered(r, After(events).value.replies[r]) in events
    decreases |events|
  {
    var before := After(events[..|events| - 1]).value;
    var last := events[|events| - 1];
    assert events == events[..|events| - 1] + [last];
    if !(last.Answered? && last.r == r) {
      assert r in before.replies && before.replies[r] == After(events).value.replies[r];
      RepliesAreGiven(events[..|events| - 1], r);
    }
  }

  /** An open dialog shows nothing but what the newest request was answered, and that request was sent the text its
      fields hold now; while it is in flight the dialog says so. */
  lemma ShownIsCurrent(events: seq<Event>)
    requires After(events).Some? && After(events).value.open
    ensures var d := After(events).value;
      var own := Request(d.requestId, d.text);
      if d.preview == Loading then own in d.pending
      else exists reply :: Answered(own, reply) in events && d.preview == PreviewOf(reply)
  {
    Kept(events);
    var d := After(events).value;
    var own := Request(d.requestId, d.text);
    if own !in d.pending {
      RepliesAreGiven(events, own);
      assert Answered(own, d.replies[own]) in events && d.preview == PreviewOf(d.replies[own]);
    }
  }

  /** An answer to anything sent before the dialog was last opened, closed, edited or retried changes nothing on screen,
      and an answer that reaches a closed dialog never does. */
  lemma OlderAnswersChangeNothing(events: seq<Event>, r: Request, reply: Reply)
    requires After(events).Some? && Enabled(After(events).value, Answered(r, reply))
    ensures var d := After(events).value;
      (r.id < d.requestId <==> r != Request(d.requestId, d.text) || !d.open) &&
      Next(d, Answered(r, reply)).preview == if r.id < d.requestId then d.preview else PreviewOf(reply)
  {
    Kept(events);
  }

  /** Opening, "Try again" and a changed field of an open dialog each send one more request, newer than all before, for
      the text in the fields, and show that it is loading; closing sends none. */
  lemma EventAsks(events: seq<Event>, ev: Event)
    requires After(events).Some? && Enabled(After(events).value, ev) && !ev.Answered?
    ensures var d, e := After(events).value, Next(After(events).value, ev);
      var own := Request(e.requestId, e.text);
      && e.open == (if ev.Opened? then true else if ev.Closed? then false else d.open)
      && e.text == (if ev.Edited? then ev.text else d.text)
      && if e.open && e != d then
           e.preview == Loading && e.pending == d.pending + {own} && forall r :: r in d.pending ==> r.id < own.id
         else e.pending == d.pending
    ensures ev.Opened? || ev.Retried? ==> Next(After(events).value, ev) != After(events).value
  {
    Kept(events);
  }

  /** What is shown for each reply: the preview itself, that the text is too long, or that there is none. */
  lemma RepliesAreWorded(reply: Reply)
    ensures PreviewOf(reply) ==
      if reply.Rendered? then Ready(reply.html)
      else if reply == Status(400) then Failed("The text is too long to preview. Shorten a field and try again.")
      else Failed("Preview unavailable, the form is unaffected.")
  {
  }

  // ---- In place -------------------------------------------------------------------------------

  class ReviewModal {
    var open: bool
    var text: string
    var requestId: nat
    var preview: Preview
    ghost var pending: set<Request>
    ghost var replies: map<Request, Reply>

    constructor ()
      ensures View() == CLOSED
    {
      open, text, requestId, preview := false, "", 0, Loading;
      pending, replies := {}, map[];
    }

    ghost function View(): Dialog
      reads this
    {
      Dialog(open, text, requestId, preview, pending, replies)
    }

    /** `id` is what the suspended request keeps. */
    method StartLoad() returns (id: nat)
      modifies this`requestId, this`preview, this`pending
      ensures View() == Load(old(View())) && id == requestId
    {
      requestId := requestId + 1;
      id := requestId;
      preview := Loading;
      pending := pending + {Request(id, text)};
    }

    method LoadLands(id: nat, ghost sent: string, reply: Reply)
      modifies this`preview, this`pending, this`replies
      ensures View() == Landed(old(View()), Request(id, sent), reply)
    {
      pending, replies := pending - {Request(id, sent)}, replies[Request(id, sent) := reply];
      if requestId != id { return; }
      match reply
      case Rendered(html) => preview := Ready(html);
      case Status(code) => preview := Failed(if code == 400 then TOO_LONG else UNAVAILABLE);
      case Dropped => preview := Failed(UNAVAILABLE);
    }

    /** The two effects of opening: the dialog, then the fetch. */
    method Open() returns (id: nat)
      modifies this
      ensures View() == Opening(old(View()))
    {
      open := true;
      id := StartLoad();
    }

    method Close()
      modifies this`open, this`requestId
      ensures View() == Closing(old(View()))
    {
      requestId := requestId + 1;
      open := false;
    }

    method ChangeText(next: string)
      modifies this
      ensures View() == Edit(old(View()), next)
    {
      if next == text { return; }
      text := next;
      if open { var _ := StartLoad(); }
    }
  }
}
