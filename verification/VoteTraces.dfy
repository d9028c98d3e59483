/** What every submission of votes does, whatever its dependencies answer: which calls are made, in what order, with
    what in them, and that a batch of one is the single vote. */
module VoteTraces {
  import opened JsText
  import opened Votes

  // ---- Each text once -------------------------------------------------------------------------

  /** The first item with each text that is neither empty nor in `known`, in order. */
  function FirstUses(items: seq<Item>, known: set<string>): seq<Item>
    decreases |items|
  {
    if items == [] then []
    else if items[0].text == "" || items[0].text in known then FirstUses(items[1..], known)
    else [items[0]] + FirstUses(items[1..], known + {items[0].text})
  }

  /** Every non-empty text not already known is used first exactly once, and nothing else is. */
  lemma {:induction false} FirstUsesAreTexts(items: seq<Item>, known: set<string>)
    ensures forall i :: 0 <= i < |FirstUses(items, known)| ==>
      FirstUses(items, known)[i] in items && FirstUses(items, known)[i].text != "" &&
      FirstUses(items, known)[i].text !in known
    ensures forall i, j :: 0 <= i < j < |FirstUses(items, known)| ==>
      FirstUses(items, known)[i].text != FirstUses(items, known)[j].text
    decreases |items|
  {
    if items == [] {
    } else if items[0].text == "" || items[0].text in known {
      FirstUsesAreTexts(items[1..], known);
    } else {
      FirstUsesAreTexts(items[1..], known + {items[0].text});
    }
  }

  lemma {:induction false} FirstUseOf(items: seq<Item>, known: set<string>, p: Item) returns (i: nat)
    requires p in items && p.text != "" && p.text !in known
    ensures i < |FirstUses(items, known)| && FirstUses(items, known)[i].text == p.text
    decreases |items|
  {
    if items[0].text == p.text {
      i := 0;
    } else if items[0].text == "" || items[0].text in known {
      i := FirstUseOf(items[1..], known, p);
    } else {
      i := FirstUseOf(items[1..], known + {items[0].text}, p);
      i := i + 1;
    }
  }

  /** The text of the item at the end is new exactly when no item before it has it. */
  lemma {:induction false} FirstUsesSnoc(items: seq<Item>, last: Item, known: set<string>)
    ensures FirstUses(items + [last], known) ==
      FirstUses(items, known) + if last.text == "" || last.text in known + UniqueTexts(items) then [] else [last]
    decreases |items|
  {
    if items == [] {
      assert items + [last] == [last];
      assert FirstUses([last][1..], known + {last.text}) == [];
    } else {
      var p := items[0];
      assert (items + [last])[1..] == items[1..] + [last];
      UniqueTextsCons(items);
      if p.text == "" || p.text in known {
        FirstUsesSnoc(items[1..], last, known);
      } else {
        FirstUsesSnoc(items[1..], last, known + {p.text});
      }
    }
  }

  lemma {:induction false} UniqueTextsCons(items: seq<Item>)
    requires items != []
    ensures UniqueTexts(items) == WithText(UniqueTexts(items[1..]), items[0].text)
  {
    if |items| > 1 {
      UniqueTextsCons(items[..|items| - 1]);
      assert items[..|items| - 1][1..] == items[1..][..|items| - 2];
    } else {
      assert items[..0] == [] && items[1..] == [];
    }
  }

  lemma WithTextCount(texts: set<string>, text: string)
    ensures |WithText(texts, text)| == |texts| + (if text == "" || text in {} + texts then 0 else 1)
  {
    assert {} + texts == texts;
    if text in texts {
      assert texts + {text} == texts;
    } else {
      assert texts * {text} == {};
      assert |{text}| == 1;
    }
  }

  lemma {:induction false} FirstUsesCount(items: seq<Item>)
    ensures |FirstUses(items, {})| == |UniqueTexts(items)|
    decreases |items|
  {
    hide WithText;
    if items != [] {
      hide FirstUses;
      var n := |items| - 1;
      var before, last := items[..n], items[n];
      FirstUsesCount(before);
      FirstUsesSnoc(before, last, {});
      WithTextCount(UniqueTexts(before), last.text);
      assert before + [last] == items;
    }
  }

  // ---- Hosting --------------------------------------------------------------------------------

  function HostCalls(drepId: string, uses: seq<Item>): (calls: seq<Call>)
    ensures |calls| == |uses|
    ensures forall i :: 0 <= i < |calls| ==> calls[i] == HostCall(uses[i].gaId, drepId, uses[i].text)
  {
    if uses == [] then []
    else [HostCall(uses[0].gaId, drepId, uses[0].text)] + HostCalls(drepId, uses[1..])
  }

  /** The loop asks for the first uses in order; it stops at the first that fails. */
  lemma {:induction false} HostingCalls(
      deps: Deps, drepId: string, items: seq<Item>, anchors: map<string, Anchor>, calls: seq<Call>)
    ensures var h := HostAll(deps, drepId, items, anchors, calls);
      var all := HostCalls(drepId, FirstUses(items, anchors.Keys));
      if h.error.None? then h.calls == calls + all
      else |calls| < |h.calls| <= |calls| + |all| && h.calls == (calls + all)[..|h.calls|]
    decreases |items|
  {
    if items != [] {
      var p := items[0];
      if p.text == "" || p.text in anchors {
        HostingCalls(deps, drepId, items[1..], anchors, calls);
      } else {
        var more := calls + [HostCall(p.gaId, drepId, p.text)];
        var rest := HostCalls(drepId, FirstUses(items[1..], anchors.Keys + {p.text}));
        assert FirstUses(items, anchors.Keys)[1..] == FirstUses(items[1..], anchors.Keys + {p.text});
        assert HostCalls(drepId, FirstUses(items, anchors.Keys)) == [HostCall(p.gaId, drepId, p.text)] + rest;
        assert calls + ([HostCall(p.gaId, drepId, p.text)] + rest) == more + rest;
        match deps.host(more)
        case Err(e) =>
        case Ok(anchor) =>
          assert anchors[p.text := anchor].Keys == anchors.Keys + {p.text};
          HostingCalls(deps, drepId, items[1..], anchors[p.text := anchor], more);
      }
    }
  }

  /** Call `i` asked to host `text`, and `anchor` is what came back. */
  predicate AnsweredAt(deps: Deps, calls: seq<Call>, text: string, anchor: Anchor, i: nat) {
    i < |calls| && calls[i].HostCall? && calls[i].rationale == text && deps.host(calls[..i + 1]) == Ok(anchor)
  }

  /** Every anchor that was not there before is the host's answer for its text. */
  lemma {:induction false} HostingAnswer(
      deps: Deps, drepId: string, items: seq<Item>, anchors: map<string, Anchor>, calls: seq<Call>, text: string)
    returns (i: nat)
    requires text in HostAll(deps, drepId, items, anchors, calls).anchors && text !in anchors
    ensures var h := HostAll(deps, drepId, items, anchors, calls);
      AnsweredAt(deps, h.calls, text, h.anchors[text], i)
    decreases |items|
  {
    var p := items[0];
    if p.text == "" || p.text in anchors {
      i := HostingAnswer(deps, drepId, items[1..], anchors, calls, text);
    } else {
      var more := calls + [HostCall(p.gaId, drepId, p.text)];
      var anchor := deps.host(more).value;
      if p.text == text {
        HostingKeeps(deps, drepId, items[1..], anchors[p.text := anchor], more);
        i := |calls|;
        assert HostAll(deps, drepId, items, anchors, calls).calls[..i + 1] == more;
      } else {
        i := HostingAnswer(deps, drepId, items[1..], anchors[p.text := anchor], more, text);
      }
    }
  }

  lemma {:induction false} HostingKeeps(
      deps: Deps, drepId: string, items: seq<Item>, anchors: map<string, Anchor>, calls: seq<Call>)
    ensures var h := HostAll(deps, drepId, items, anchors, calls);
      calls <= h.calls && forall t :: t in anchors ==> t in h.anchors && h.anchors[t] == anchors[t]
    decreases |items|
  {
    if items != [] {
      var p := items[0];
      if p.text == "" || p.text in anchors {
        HostingKeeps(deps, drepId, items[1..], anchors, calls);
      } else {
        var more := calls + [HostCall(p.gaId, drepId, p.text)];
        match deps.host(more)
        case Err(e) =>
        case Ok(anchor) => HostingKeeps(deps, drepId, items[1..], anchors[p.text := anchor], more);
      }
    }
  }

  /** When hosting succeeds, every non-empty text has an anchor. */
  lemma {:induction false} HostingCovers(
      deps: Deps, drepId: string, items: seq<Item>, anchors: map<string, Anchor>, calls: seq<Call>, k: nat)
    requires k < |items| && items[k].text != ""
    requires HostAll(deps, drepId, items, anchors, calls).error.None?
    ensures items[k].text in HostAll(deps, drepId, items, anchors, calls).anchors
    decreases |items|
  {
    var p := items[0];
    if p.text == "" || p.text in anchors {
      if k == 0 {
        HostingKeeps(deps, drepId, items[1..], anchors, calls);
      } else {
        HostingCovers(deps, drepId, items[1..], anchors, calls, k - 1);
      }
    } else {
      var more := calls + [HostCall(p.gaId, drepId, p.text)];
      var next := anchors[p.text := deps.host(more).value];
      if k == 0 {
        HostingKeeps(deps, drepId, items[1..], next, more);
      } else {
        HostingCovers(deps, drepId, items[1..], next, more, k - 1);
      }
    }
  }

  // ---- The whole submission -------------------------------------------------------------------

  function ItemsOf(args: Args): seq<Item> {
    PerAction(args.selections, Texts(args.sharedRationale, args.overrides))
  }

  lemma {:induction false} PerActionAt(selections: seq<Selection>, texts: string -> string, k: nat)
    requires k < |selections|
    ensures PerAction(selections, texts)[k] ==
      Item(selections[k].gaId, selections[k].choice, texts(selections[k].gaId))
    decreases |selections|
  {
    if k < |selections| - 1 {
      PerActionAt(selections[..|selections| - 1], texts, k);
    }
  }

  function HostsFor(args: Args, items: seq<Item>): seq<Call> {
    HostCalls(args.drepId, FirstUses(items, {}))
  }

  /** A success is `hosts`, one cast and one record; a failure past the cap ends with the call that failed. */
  predicate SentAs(deps: Deps, o: Outcome, hosts: seq<Call>) {
    match o.result
    case Ok(txHash) =>
      && |o.trace| == |hosts| + 2 && o.trace[..|hosts|] == hosts
      && o.trace[|hosts|].CastCall? && deps.cast(o.trace[..|hosts| + 1]) == Ok(txHash)
      && o.trace[|hosts| + 1].RecordCall? && o.trace[|hosts| + 1].txHash == txHash
    case Err(e) =>
      if |o.trace| <= |hosts| then
        o.trace != [] && o.trace == hosts[..|o.trace|] && deps.host(o.trace) == Err(e)
      else
        |o.trace| == |hosts| + 1 && o.trace[..|hosts|] == hosts && o.trace[|hosts|].CastCall? &&
        deps.cast(o.trace) == Err(e)
  }

  /** The whole trace: the first uses of the distinct texts in order, at most ten; then, once all are hosted, one
      cast; then, once it is submitted, one record. A refusal makes no call at all. */
  lemma TraceShape(deps: Deps, args: Args)
    ensures var o := Submitted(deps, args);
      var hosts := HostsFor(args, ItemsOf(args));
      if args.selections == [] then o == Outcome(Err(NoVotes), [], false)
      else if |hosts| > 10 then o == Outcome(Err(TooManyTexts(|hosts|)), [], false)
      else SentAs(deps, o, hosts)
  {
    FirstUsesCount(ItemsOf(args));
    SentShape(deps, args, ItemsOf(args));
  }

  lemma SentShape(deps: Deps, args: Args, items: seq<Item>)
    ensures SentAs(deps, Sent(deps, args, items), HostsFor(args, items))
  {
    var hosts := HostsFor(args, items);
    HostingCalls(deps, args.drepId, items, map[], []);
    var none: map<string, Anchor> := map[];
    assert none.Keys == {};
    var h := HostAll(deps, args.drepId, items, map[], []);
    assert [] + hosts == hosts;
    if h.error.Some? {
      HostingFails(deps, args.drepId, items, map[], []);
    } else {
      FinishShape(deps, args, items, h);
    }
  }

  lemma {:induction false} HostingFails(
      deps: Deps, drepId: string, items: seq<Item>, anchors: map<string, Anchor>, calls: seq<Call>)
    ensures var h := HostAll(deps, drepId, items, anchors, calls);
      h.error.Some? ==> h.calls != [] && deps.host(h.calls) == Err(h.error.value)
    decreases |items|
  {
    if items != [] {
      var p := items[0];
      if p.text == "" || p.text in anchors {
        HostingFails(deps, drepId, items[1..], anchors, calls);
      } else {
        var more := calls + [HostCall(p.gaId, drepId, p.text)];
        match deps.host(more)
        case Err(e) =>
        case Ok(anchor) => HostingFails(deps, drepId, items[1..], anchors[p.text := anchor], more);
      }
    }
  }

  lemma FinishShape(deps: Deps, args: Args, items: seq<Item>, h: Hosting)
    ensures var o := Finish(deps, args, items, h);
      var n := |h.calls|;
      && n < |o.trace| && o.trace[..n] == h.calls && o.trace[n] == CastAll(args, items, h.anchors)
      && deps.cast(o.trace[..n + 1]) == o.result
      && match o.result
         case Err(_) => o.trace == o.trace[..n + 1]
         case Ok(txHash) => |o.trace| == n + 2 && o.trace[n + 1] == RecordAll(args, items, h.anchors, txHash)
  {
    var cast := h.calls + [CastAll(args, items, h.anchors)];
    assert Finish(deps, args, items, h).trace[..|h.calls| + 1] == cast;
  }

  predicate HostedBefore(trace: seq<Call>, i: nat, text: string)
    requires i <= |trace|
  {
    exists j :: 0 <= j < i && trace[j].HostCall? && trace[j].rationale == text
  }

  /** No text is hosted twice, and a cast is never made before every non-empty text of the batch is hosted. */
  lemma HostedOnce(deps: Deps, args: Args)
    ensures var trace := Submitted(deps, args).trace;
      forall i, j :: 0 <= i < j < |trace| && trace[i].HostCall? && trace[j].HostCall? ==>
        trace[i].rationale != trace[j].rationale
    ensures var trace := Submitted(deps, args).trace;
      forall i, p :: 0 <= i < |trace| && trace[i].CastCall? && p in ItemsOf(args) && p.text != "" ==>
        HostedBefore(trace, i, p.text)
  {
    var trace := Submitted(deps, args).trace;
    var items := ItemsOf(args);
    var uses := FirstUses(items, {});
    var hosts := HostsFor(args, items);
    TraceShape(deps, args);
    ShapeOf(deps, Submitted(deps, args), args.drepId, uses);
    FirstUsesAreTexts(items, {});
    forall i, j | 0 <= i < j < |trace| && trace[i].HostCall? && trace[j].HostCall?
      ensures trace[i].rationale != trace[j].rationale
    {
      HostAt(trace, hosts, i);
      HostAt(trace, hosts, j);
    }
    forall i, p | 0 <= i < |trace| && trace[i].CastCall? && p in items && p.text != ""
      ensures HostedBefore(trace, i, p.text)
    {
      var j := FirstUseOf(items, {}, p);
      CastComesLast(trace, hosts, i);
      assert trace[j] == hosts[j];
    }
  }

  predicate Shaped(trace: seq<Call>, hosts: seq<Call>) {
    && (forall i :: 0 <= i < |hosts| ==> hosts[i].HostCall?)
    && (|trace| <= |hosts| ==> trace == hosts[..|trace|])
    && (|trace| > |hosts| ==> trace[..|hosts|] == hosts)
    && forall i :: |hosts| <= i < |trace| ==> !trace[i].HostCall?
  }

  lemma ShapeOf(deps: Deps, o: Outcome, drepId: string, uses: seq<Item>)
    requires o.trace == [] || SentAs(deps, o, HostCalls(drepId, uses))
    ensures Shaped(o.trace, HostCalls(drepId, uses))
  {
  }

  lemma HostAt(trace: seq<Call>, hosts: seq<Call>, i: nat)
    requires Shaped(trace, hosts) && i < |trace| && trace[i].HostCall?
    ensures i < |hosts| && trace[i] == hosts[i]
  {
    if |trace| > |hosts| && i < |hosts| {
      assert trace[i] == trace[..|hosts|][i];
    }
  }

  lemma CastComesLast(trace: seq<Call>, hosts: seq<Call>, i: nat)
    requires Shaped(trace, hosts) && i < |trace| && trace[i].CastCall?
    ensures i >= |hosts| && trace[..|hosts|] == hosts && forall j :: 0 <= j < |hosts| ==> trace[j] == hosts[j]
  {
    forall j | 0 <= j < |hosts| ensures trace[j] == hosts[j] {
      assert trace[j] == trace[..|hosts|][j];
    }
  }

  // ---- What the cast and the record say -------------------------------------------------------

  lemma {:induction false} CastVotesAt(items: seq<Item>, anchors: map<string, Anchor>, k: nat)
    requires k < |items|
    ensures CastVotes(items, anchors)[k] == CastOf(items[k], anchors)
    decreases |items|
  {
    if k < |items| - 1 {
      CastVotesAt(items[..|items| - 1], anchors, k);
    }
  }

  lemma {:induction false} RecordVotesAt(items: seq<Item>, anchors: map<string, Anchor>, crossPost: bool, k: nat)
    requires k < |items|
    ensures RecordVotes(items, anchors, crossPost)[k] == RecordOf(items[k], anchors, crossPost)
    decreases |items|
  {
    if k < |items| - 1 {
      RecordVotesAt(items[..|items| - 1], anchors, crossPost, k);
    }
  }

  /** The vote carries what the host answered to call `i`, which asked for `text`. */
  predicate AnchoredBy(deps: Deps, trace: seq<Call>, text: string, vote: CastVote, i: nat) {
    vote.anchorUrl.Some? && vote.anchorHashHex.Some? &&
    AnsweredAt(deps, trace, text, Anchor(vote.anchorUrl.value, vote.anchorHashHex.value), i)
  }

  /** The vote cast for an action with `text`: no anchor without a text, and otherwise the host's own answer to the one
      request made for that text, so that equal texts share an anchor. */
  ghost predicate CastAs(deps: Deps, trace: seq<Call>, p: Item, vote: CastVote) {
    && vote.govActionId == p.gaId && vote.vote == p.choice
    && if p.text == "" then vote.anchorUrl.None? && vote.anchorHashHex.None?
       else exists i: nat :: AnchoredBy(deps, trace, p.text, vote, i)
  }

  predicate RecordedAs(p: Item, crossPost: bool, cast: CastVote, rec: RecordedVote) {
    && rec.gaId == p.gaId && rec.vote == p.choice && rec.rationaleUrl == cast.anchorUrl
    && rec.rationaleText == (if p.text == "" then None else Some(p.text))
    && rec.crossPost == (if p.text == "" then None else Some(crossPost))
  }

  /** The `k`-th vote of a cast is the `k`-th selection's, with the anchor of its own text, and is recorded as cast. */
  lemma CastIsFaithful(deps: Deps, args: Args, k: nat)
    requires k < |args.selections|
    requires |Submitted(deps, args).trace| > |HostsFor(args, ItemsOf(args))|
    ensures var trace := Submitted(deps, args).trace;
      var n := |HostsFor(args, ItemsOf(args))|;
      && trace[n].CastCall? && |trace[n].votes| == |args.selections|
      && trace[n] == CastCall(args.walletApi, args.network, args.drepKeyHash, args.origin, trace[n].votes)
      && CastAs(deps, trace, ItemsOf(args)[k], trace[n].votes[k])
      && (|trace| > n + 1 ==>
            trace[n + 1].RecordCall? && |trace[n + 1].recorded| == |args.selections| &&
            RecordedAs(ItemsOf(args)[k], args.crossPost, trace[n].votes[k], trace[n + 1].recorded[k]))
  {
    TraceShape(deps, args);
    SentCast(deps, args, ItemsOf(args), k);
  }

  lemma SentCast(deps: Deps, args: Args, items: seq<Item>, k: nat)
    requires k < |items| && |Sent(deps, args, items).trace| > |HostsFor(args, items)|
    ensures var trace := Sent(deps, args, items).trace;
      var n := |HostsFor(args, items)|;
      && trace[n].CastCall? && |trace[n].votes| == |items|
      && trace[n] == CastCall(args.walletApi, args.network, args.drepKeyHash, args.origin, trace[n].votes)
      && CastAs(deps, trace, items[k], trace[n].votes[k])
      && (|trace| > n + 1 ==>
            trace[n + 1].RecordCall? && |trace[n + 1].recorded| == |items| &&
            RecordedAs(items[k], args.crossPost, trace[n].votes[k], trace[n + 1].recorded[k]))
  {
    var h := HostAll(deps, args.drepId, items, map[], []);
    var n := |HostsFor(args, items)|;
    var trace := Sent(deps, args, items).trace;
    HostingCalls(deps, args.drepId, items, map[], []);
    var none: map<string, Anchor> := map[];
    assert none.Keys == {};
    FinishShape(deps, args, items, h);
    CastVotesAt(items, h.anchors, k);
    if items[k].text != "" {
      HostingCovers(deps, args.drepId, items, map[], [], k);
      var i := HostingAnswer(deps, args.drepId, items, map[], [], items[k].text);
      assert trace[..n][..i + 1] == trace[..i + 1];
      assert trace[i] == trace[..n][i];
      assert AnchoredBy(deps, trace, items[k].text, CastVotes(items, h.anchors)[k], i);
    }
    if |trace| > n + 1 {
      RecordVotesAt(items, h.anchors, args.crossPost, k);
    }
  }

  // ---- Recording, the cap, the single vote ----------------------------------------------------

  /** Whatever recording answers, or throws, the submission makes the same calls and has the same result; what it throws
      is caught and logged. */
  lemma RecordingChangesNothing(deps: Deps, args: Args, record: seq<Call> -> Result<bool, VoteError>)
    ensures var o, other := Submitted(deps, args), Submitted(deps.(record := record), args);
      other.result == o.result && other.trace == o.trace && (other.warned <==> o.result.Ok? && record(o.trace).Err?)
  {
    hide PerAction, UniqueTexts, Texts, Sent;
    SentIgnoresRecord(deps, args, ItemsOf(args), record);
  }

  lemma SentIgnoresRecord(deps: Deps, args: Args, items: seq<Item>, record: seq<Call> -> Result<bool, VoteError>)
    ensures var o, other := Sent(deps, args, items), Sent(deps.(record := record), args, items);
      other.result == o.result && other.trace == o.trace && (other.warned <==> o.result.Ok? && record(o.trace).Err?)
  {
    hide HostAll, CastAll, RecordAll;
    HostingIgnoresRecord(deps, args.drepId, items, map[], [], record);
  }

  lemma {:induction false} HostingIgnoresRecord(
      deps: Deps, drepId: string, items: seq<Item>, anchors: map<string, Anchor>, calls: seq<Call>,
      record: seq<Call> -> Result<bool, VoteError>)
    ensures HostAll(deps.(record := record), drepId, items, anchors, calls) ==
            HostAll(deps, drepId, items, anchors, calls)
    decreases |items|
  {
    if items != [] {
      var p := items[0];
      if p.text == "" || p.text in anchors {
        HostingIgnoresRecord(deps, drepId, items[1..], anchors, calls, record);
      } else {
        var more := calls + [HostCall(p.gaId, drepId, p.text)];
        match deps.host(more)
        case Err(e) =>
        case Ok(anchor) => HostingIgnoresRecord(deps, drepId, items[1..], anchors[p.text := anchor], more, record);
      }
    }
  }

  function IdsOf(selections: seq<Selection>): (ids: seq<string>)
    ensures |ids| == |selections|
  {
    if selections == [] then [] else IdsOf(selections[..|selections| - 1]) + [selections[|selections| - 1].gaId]
  }

  lemma {:induction false} TextsAgree(selections: seq<Selection>, texts: string -> string)
    ensures UniqueTexts(PerAction(selections, texts)) == TextsOf(IdsOf(selections), texts)
  {
    if selections != [] {
      TextsAgree(selections[..|selections| - 1], texts);
      var items := PerAction(selections, texts);
      assert items[..|items| - 1] == PerAction(selections[..|selections| - 1], texts);
      assert IdsOf(selections)[..|selections| - 1] == IdsOf(selections[..|selections| - 1]);
    }
  }

  /** The count that disables the submit button exceeds the cap exactly when the submission would be refused for it. */
  lemma ButtonAgreesWithCap(deps: Deps, args: Args)
    requires args.selections != []
    ensures var n := |TextsOf(IdsOf(args.selections), Texts(args.sharedRationale, args.overrides))|;
      n > MAX_UNIQUE_BATCH_RATIONALES <==> Submitted(deps, args) == Outcome(Err(TooManyTexts(n)), [], false)
  {
    TextsAgree(args.selections, Texts(args.sharedRationale, args.overrides));
    TraceShape(deps, args);
    FirstUsesCount(ItemsOf(args));
  }
}
