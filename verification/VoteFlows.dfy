/** The two flows against each other: a batch of one action is the single vote. */
module VoteFlows {
  import opened JsText
  import opened Votes

  /** A single-vote call as the batch flow would make it: the votes in a list, no origin for the host. */
  function Wrap(call: SingleCall): Call {
    match call
    case HostOne(gaId, drepId, rationale, _) => HostCall(gaId, drepId, rationale)
    case CastOne(walletApi, network, drepKeyHash, origin, cast) =>
      CastCall(walletApi, network, drepKeyHash, origin, [cast])
    case RecordOne(txHash, one) => RecordCall(txHash, [one])
  }

  function WrapAll(calls: seq<SingleCall>): (r: seq<Call>)
    ensures |r| == |calls|
  {
    if calls == [] then [] else WrapAll(calls[..|calls| - 1]) + [Wrap(calls[|calls| - 1])]
  }

  /** The same environment, as the single vote sees it. */
  function AsSingle(deps: Deps): SingleDeps {
    SingleDeps(calls => deps.host(WrapAll(calls)), calls => deps.cast(WrapAll(calls)),
               calls => deps.record(WrapAll(calls)))
  }

  function BatchOf(a: SingleArgs): Args {
    Args([Selection(a.gaId, a.vote)], a.rationaleText, map[], a.crossPost,
         a.drepId, a.drepKeyHash, a.network, a.origin, a.walletApi)
  }

  lemma WrapSnoc(calls: seq<SingleCall>, call: SingleCall)
    ensures WrapAll(calls + [call]) == WrapAll(calls) + [Wrap(call)]
  {
    assert (calls + [call])[..|calls|] == calls;
  }

  /** The batch of one, spelled out. */
  lemma BatchOfOne(deps: Deps, a: SingleArgs, text: string)
    requires text == EffectiveRationale(a.rationaleText, "")
    ensures var p := Item(a.gaId, a.vote, text);
      Submitted(deps, BatchOf(a)) == Sent(deps, BatchOf(a), [p])
  {
    var texts := Texts(a.rationaleText, map[]);
    var one := Selection(a.gaId, a.vote);
    assert [one][..0] == [];
    assert texts(a.gaId) == text;
    assert PerAction([one], texts) == [] + [Item(a.gaId, a.vote, text)];
    var items := [Item(a.gaId, a.vote, text)];
    assert items[..0] == [];
    assert UniqueTexts(items) == WithText({}, text);
    assert |UniqueTexts(items)| <= 1;
  }

  lemma FinishOne(deps: Deps, args: Args, p: Item, anchors: map<string, Anchor>, calls: seq<Call>)
    ensures var anchor := AnchorOf(anchors, p.text);
      var vote := CastVote(p.gaId, p.choice, UrlOf(anchor), HashOf(anchor));
      var cast := calls + [CastCall(args.walletApi, args.network, args.drepKeyHash, args.origin, [vote])];
      Finish(deps, args, [p], Hosting(anchors, calls, None)) ==
        match deps.cast(cast)
        case Err(e) => Outcome(Err(e), cast, false)
        case Ok(txHash) =>
          var all := cast + [RecordCall(txHash, [RecordOf(p, anchors, args.crossPost)])];
          Outcome(Ok(txHash), all, deps.record(all).Err?)
  {
    assert [p][..0] == [];
    assert CastVotes([p], anchors) == [CastOf(p, anchors)];
    assert RecordVotes([p], anchors, args.crossPost) == [RecordOf(p, anchors, args.crossPost)];
  }

  /** From the cast on, the flows agree whenever they carry the same text. */
  lemma TailAgrees(deps: Deps, a: SingleArgs, p: Item, anchors: map<string, Anchor>, calls: seq<SingleCall>)
    requires p == Item(a.gaId, a.vote, p.text)
    requires if p.text == "" then Trim(a.rationaleText) == "" else p.text == a.rationaleText == Trim(a.rationaleText)
    requires p.text != "" ==> p.text in anchors
    ensures var s := SingleTail(AsSingle(deps), a, AnchorOf(anchors, p.text), calls);
      Outcome(s.result, WrapAll(s.trace), s.warned) ==
        Finish(deps, BatchOf(a), [p], Hosting(anchors, WrapAll(calls), None))
  {
    var anchor := AnchorOf(anchors, p.text);
    var cast := SingleCast(a, anchor);
    FinishOne(deps, BatchOf(a), p, anchors, WrapAll(calls));
    WrapSnoc(calls, cast);
    match deps.cast(WrapAll(calls + [cast]))
    case Err(e) =>
    case Ok(txHash) => WrapSnoc(calls + [cast], SingleRecord(a, anchor, txHash));
  }

  /** A batch of one action makes the single vote's calls in the same order with the same payloads, and has the same
      result, wherever a dependency fails, exactly when trimming leaves the rationale alone or leaves nothing. */
  lemma OneActionIsTheSingleVote(deps: Deps, a: SingleArgs)
    ensures var s := SingleSubmitted(AsSingle(deps), a);
      Outcome(s.result, WrapAll(s.trace), s.warned) == Submitted(deps, BatchOf(a)) <==>
        Trim(a.rationaleText) == a.rationaleText || Trim(a.rationaleText) == ""
  {
    var text := Trim(a.rationaleText);
    var p := Item(a.gaId, a.vote, text);
    BatchOfOne(deps, a, text);
    var none: map<string, Anchor> := map[];
    assert [p][1..] == [];
    if text == "" {
      assert HostAll(deps, a.drepId, [p], none, []) == Hosting(none, [], None);
      TailAgrees(deps, a, p, none, []);
    } else {
      HostedSingle(deps, a, p);
    }
  }

  /** The hosting loop over one item with a text. */
  lemma HostingOne(deps: Deps, drepId: string, p: Item)
    requires p.text != ""
    ensures var call := HostCall(p.gaId, drepId, p.text);
      HostAll(deps, drepId, [p], map[], []) ==
        match deps.host([call])
        case Err(e) => Hosting(map[], [call], Some(e))
        case Ok(anchor) => Hosting(map[p.text := anchor], [call], None)
  {
    assert [p][1..] == [];
    assert [] + [HostCall(p.gaId, drepId, p.text)] == [HostCall(p.gaId, drepId, p.text)];
  }

  lemma WrapOne(call: SingleCall)
    ensures WrapAll([call]) == [Wrap(call)]
  {
    WrapSnoc([], call);
    assert [] + [call] == [call] && [] + [Wrap(call)] == [Wrap(call)];
  }

  lemma HostedSingle(deps: Deps, a: SingleArgs, p: Item)
    requires p == Item(a.gaId, a.vote, Trim(a.rationaleText)) && p.text != ""
    ensures var s := SingleSubmitted(AsSingle(deps), a);
      Outcome(s.result, WrapAll(s.trace), s.warned) == Sent(deps, BatchOf(a), [p]) <==> p.text == a.rationaleText
  {
    var first := HostOne(a.gaId, a.drepId, a.rationaleText, a.origin);
    var call := HostCall(p.gaId, a.drepId, p.text);
    HostingOne(deps, a.drepId, p);
    WrapOne(first);
    if p.text == a.rationaleText {
      match deps.host([call])
      case Err(e) =>
      case Ok(anchor) => TailAgrees(deps, a, p, map[p.text := anchor], [first]);
    } else {
      SingleStarts(deps, a, first);
      BatchStarts(deps, a, p, call);
    }
  }

  lemma SingleStarts(deps: Deps, a: SingleArgs, first: SingleCall)
    requires Trim(a.rationaleText) != "" && first == HostOne(a.gaId, a.drepId, a.rationaleText, a.origin)
    ensures var trace := WrapAll(SingleSubmitted(AsSingle(deps), a).trace); trace != [] && trace[0] == Wrap(first)
  {
    var trace := SingleSubmitted(AsSingle(deps), a).trace;
    assert trace[0] == first;
    WrapFirst(trace);
  }

  lemma BatchStarts(deps: Deps, a: SingleArgs, p: Item, call: Call)
    requires p.text != "" && call == HostCall(p.gaId, a.drepId, p.text)
    ensures var trace := Sent(deps, BatchOf(a), [p]).trace; trace != [] && trace[0] == call
  {
    HostingOne(deps, a.drepId, p);
  }

  lemma {:induction false} WrapFirst(calls: seq<SingleCall>)
    requires calls != []
    ensures WrapAll(calls)[0] == Wrap(calls[0])
  {
    if |calls| > 1 {
      WrapFirst(calls[..|calls| - 1]);
    }
  }

  /** The single vote counts as recorded exactly when it was cast and recording it answered so; what recording throws is
      caught and logged. */
  lemma RecordedIff(deps: SingleDeps, a: SingleArgs)
    ensures var s := SingleSubmitted(deps, a);
      && (s.recorded <==> s.result.Ok? && deps.record(s.trace) == Ok(true))
      && (s.warned <==> s.result.Ok? && deps.record(s.trace).Err?)
  {
  }
}
