/** Submitting DRep votes (src/components/MultiVoteBar.tsx, src/components/VotePanel.tsx): host the rationale texts,
    cast the votes in one transaction, record them. Each injected dependency is an oracle that may answer by the whole
    history of calls, the last of which is the one being made. */
module Votes {
  import opened JsText

  datatype Choice = Yes | No | Abstain

  datatype Anchor = Anchor(url: string, hash: string)

  datatype Selection = Selection(gaId: string, choice: Choice)

  datatype Item = Item(gaId: string, choice: Choice, text: string)

  datatype CastVote = CastVote(
    govActionId: string, vote: Choice, anchorUrl: Option<string>, anchorHashHex: Option<string>)

  datatype RecordedVote = RecordedVote(
    gaId: string, vote: Choice, rationaleUrl: Option<string>, rationaleText: Option<string>, crossPost: Option<bool>)

  datatype Call =
    | HostCall(hostedFor: string, drepId: string, rationale: string)
    | CastCall(walletApi: string, network: string, drepKeyHash: string, origin: string, votes: seq<CastVote>)
    | RecordCall(txHash: string, recorded: seq<RecordedVote>)

  datatype VoteError = NoVotes | TooManyTexts(count: nat) | Thrown(message: string)

  datatype Deps = Deps(
    host: seq<Call> -> Result<Anchor, VoteError>,
    cast: seq<Call> -> Result<string, VoteError>,
    record: seq<Call> -> Result<bool, VoteError>)

  datatype Args = Args(
    selections: seq<Selection>, sharedRationale: string, overrides: map<string, string>, crossPost: bool,
    drepId: string, drepKeyHash: string, network: string, origin: string, walletApi: string)

  /** `warned` says that an exception of the recording was caught and logged. */
  datatype Outcome = Outcome(result: Result<string, VoteError>, trace: seq<Call>, warned: bool)

  const MAX_UNIQUE_BATCH_RATIONALES := 10

  // ---- Texts ----------------------------------------------------------------------------------

  function EffectiveRationale(shared: string, override: string): string {
    var o := Trim(override);
    if |o| > 0 then o else Trim(shared)
  }

  function OverrideFor(overrides: map<string, string>, gaId: string): string {
    if gaId in overrides then overrides[gaId] else ""
  }

  /** The text that each action carries. */
  function Texts(shared: string, overrides: map<string, string>): string -> string {
    gaId => EffectiveRationale(shared, OverrideFor(overrides, gaId))
  }

  function WithText(texts: set<string>, text: string): set<string> {
    if text == "" then texts else texts + {text}
  }

  /** The distinct non-empty texts that actions `gaIds` carry. */
  function TextsOf(gaIds: seq<string>, texts: string -> string): set<string> {
    if gaIds == [] then {} else WithText(TextsOf(gaIds[..|gaIds| - 1], texts), texts(gaIds[|gaIds| - 1]))
  }

  method CountUniqueRationales(gaIds: seq<string>, shared: string, overrides: map<string, string>) returns (n: nat)
    ensures n == |TextsOf(gaIds, Texts(shared, overrides))|
  {
    var texts: set<string> := {};
    for i := 0 to |gaIds|
      invariant texts == TextsOf(gaIds[..i], Texts(shared, overrides))
    {
      var text := EffectiveRationale(shared, OverrideFor(overrides, gaIds[i]));
      if |text| > 0 { texts := texts + {text}; }
      assert gaIds[..i + 1][..i] == gaIds[..i];
    }
    assert gaIds[..|gaIds|] == gaIds;
    n := |texts|;
  }

  // ---- The batch ------------------------------------------------------------------------------

  function PerAction(selections: seq<Selection>, texts: string -> string): (items: seq<Item>)
    ensures |items| == |selections|
  {
    if selections == [] then []
    else
      var last := selections[|selections| - 1];
      PerAction(selections[..|selections| - 1], texts) + [Item(last.gaId, last.choice, texts(last.gaId))]
  }

  function UniqueTexts(items: seq<Item>): set<string> {
    if items == [] then {} else WithText(UniqueTexts(items[..|items| - 1]), items[|items| - 1].text)
  }

  datatype Hosting = Hosting(anchors: map<string, Anchor>, calls: seq<Call>, error: Option<VoteError>)

  /** The hosting loop from `items` on. */
  function HostAll(deps: Deps, drepId: string, items: seq<Item>, anchors: map<string, Anchor>, calls: seq<Call>)
    : Hosting
    decreases |items|
  {
    if items == [] then Hosting(anchors, calls, None)
    else
      var p := items[0];
      if p.text == "" || p.text in anchors then HostAll(deps, drepId, items[1..], anchors, calls)
      else
        var more := calls + [HostCall(p.gaId, drepId, p.text)];
        match deps.host(more)
        case Err(e) => Hosting(anchors, more, Some(e))
        case Ok(anchor) => HostAll(deps, drepId, items[1..], anchors[p.text := anchor], more)
  }

  function AnchorOf(anchors: map<string, Anchor>, text: string): Option<Anchor> {
    if text != "" && text in anchors then Some(anchors[text]) else None
  }

  function UrlOf(anchor: Option<Anchor>): Option<string> {
    if anchor.Some? then Some(anchor.value.url) else None
  }

  function HashOf(anchor: Option<Anchor>): Option<string> {
    if anchor.Some? then Some(anchor.value.hash) else None
  }

  function CastOf(p: Item, anchors: map<string, Anchor>): CastVote {
    var anchor := AnchorOf(anchors, p.text);
    CastVote(p.gaId, p.choice, UrlOf(anchor), HashOf(anchor))
  }

  function RecordOf(p: Item, anchors: map<string, Anchor>, crossPost: bool): RecordedVote {
    RecordedVote(p.gaId, p.choice, UrlOf(AnchorOf(anchors, p.text)),
                 if p.text != "" then Some(p.text) else None, if p.text != "" then Some(crossPost) else None)
  }

  function CastVotes(items: seq<Item>, anchors: map<string, Anchor>): (votes: seq<CastVote>)
    ensures |votes| == |items|
  {
    if items == [] then [] else CastVotes(items[..|items| - 1], anchors) + [CastOf(items[|items| - 1], anchors)]
  }

  function RecordVotes(items: seq<Item>, anchors: map<string, Anchor>, crossPost: bool): (votes: seq<RecordedVote>)
    ensures |votes| == |items|
  {
    if items == [] then []
    else
      RecordVotes(items[..|items| - 1], anchors, crossPost) + [RecordOf(items[|items| - 1], anchors, crossPost)]
  }

  function CastAll(args: Args, items: seq<Item>, anchors: map<string, Anchor>): Call {
    CastCall(args.walletApi, args.network, args.drepKeyHash, args.origin, CastVotes(items, anchors))
  }

  function RecordAll(args: Args, items: seq<Item>, anchors: map<string, Anchor>, txHash: string): Call {
    RecordCall(txHash, RecordVotes(items, anchors, args.crossPost))
  }

  /** The cast and the record, after every text is hosted. */
  function Finish(deps: Deps, args: Args, items: seq<Item>, h: Hosting): Outcome {
    var cast := h.calls + [CastAll(args, items, h.anchors)];
    match deps.cast(cast)
    case Err(e) => Outcome(Err(e), cast, false)
    case Ok(txHash) =>
      var all := cast + [RecordAll(args, items, h.anchors, txHash)];
      match deps.record(all)
      case Ok(_) => Outcome(Ok(txHash), all, false)
      case Err(_) => Outcome(Ok(txHash), all, true)
  }

  /** Everything past the cap. */
  function Sent(deps: Deps, args: Args, items: seq<Item>): Outcome {
    var h := HostAll(deps, args.drepId, items, map[], []);
    if h.error.Some? then Outcome(Err(h.error.value), h.calls, false) else Finish(deps, args, items, h)
  }

  function Submitted(deps: Deps, args: Args): Outcome {
    var items := PerAction(args.selections, Texts(args.sharedRationale, args.overrides));
    if args.selections == [] then Outcome(Err(NoVotes), [], false)
    else if |UniqueTexts(items)| > MAX_UNIQUE_BATCH_RATIONALES then
      Outcome(Err(TooManyTexts(|UniqueTexts(items)|)), [], false)
    else Sent(deps, args, items)
  }

  /** The hosting loop. */
  method HostUnique(deps: Deps, drepId: string, perAction: seq<Item>) returns (hosting: Hosting)
    ensures hosting == HostAll(deps, drepId, perAction, map[], [])
  {
    var anchors: map<string, Anchor> := map[];
    var trace: seq<Call> := [];
    var i := 0;
    assert perAction[0..] == perAction;
    while i < |perAction|
      invariant i <= |perAction|
      invariant HostAll(deps, drepId, perAction, map[], []) == HostAll(deps, drepId, perAction[i..], anchors, trace)
    {
      var p := perAction[i];
      assert perAction[i..][1..] == perAction[i + 1..];
      if |p.text| > 0 && p.text !in anchors {
        trace := trace + [HostCall(p.gaId, drepId, p.text)];
        var hosted := deps.host(trace);
        if hosted.Err? { return Hosting(anchors, trace, Some(hosted.error)); }
        anchors := anchors[p.text := hosted.value];
      }
      i := i + 1;
    }
    return Hosting(anchors, trace, None);
  }

  method CastAndRecord(deps: Deps, args: Args, perAction: seq<Item>, hosting: Hosting) returns (o: Outcome)
    ensures o == Finish(deps, args, perAction, hosting)
  {
    var trace := hosting.calls + [CastAll(args, perAction, hosting.anchors)];
    var cast := deps.cast(trace);
    if cast.Err? { return Outcome(Err(cast.error), trace, false); }
    trace := trace + [RecordAll(args, perAction, hosting.anchors, cast.value)];
    var warned := false;
    var recorded := deps.record(trace);
    if recorded.Err? { warned := true; }
    return Outcome(Ok(cast.value), trace, warned);
  }

  method HostAndCast(deps: Deps, args: Args, perAction: seq<Item>) returns (o: Outcome)
    ensures o == Sent(deps, args, perAction)
  {
    var hosting := HostUnique(deps, args.drepId, perAction);
    if hosting.error.Some? { return Outcome(Err(hosting.error.value), hosting.calls, false); }
    o := CastAndRecord(deps, args, perAction, hosting);
  }

  method SubmitMultiVote(deps: Deps, args: Args) returns (o: Outcome)
    ensures o == Submitted(deps, args)
  {
    if args.selections == [] {
      o := Outcome(Err(NoVotes), [], false);
    } else {
      var perAction := PerAction(args.selections, Texts(args.sharedRationale, args.overrides));
      var uniqueTexts := UniqueTexts(perAction);
      if |uniqueTexts| > MAX_UNIQUE_BATCH_RATIONALES {
        o := Outcome(Err(TooManyTexts(|uniqueTexts|)), [], false);
      } else {
        o := HostAndCast(deps, args, perAction);
      }
    }
  }

  // ---- The single vote ------------------------------------------------------------------------

  datatype SingleArgs = SingleArgs(
    gaId: string, vote: Choice, rationaleText: string, crossPost: bool,
    drepId: string, drepKeyHash: string, network: string, origin: string, walletApi: string)

  datatype SingleCall =
    | HostOne(gaId: string, drepId: string, rationale: string, origin: string)
    | CastOne(walletApi: string, network: string, drepKeyHash: string, origin: string, cast: CastVote)
    | RecordOne(txHash: string, one: RecordedVote)

  datatype SingleDeps = SingleDeps(
    host: seq<SingleCall> -> Result<Anchor, VoteError>,
    cast: seq<SingleCall> -> Result<string, VoteError>,
    record: seq<SingleCall> -> Result<bool, VoteError>)

  datatype SingleOutcome = SingleOutcome(
    result: Result<string, VoteError>, recorded: bool, trace: seq<SingleCall>, warned: bool)

  function SingleCast(args: SingleArgs, anchor: Option<Anchor>): SingleCall {
    CastOne(args.walletApi, args.network, args.drepKeyHash, args.origin,
            CastVote(args.gaId, args.vote, UrlOf(anchor), HashOf(anchor)))
  }

  function SingleRecord(args: SingleArgs, anchor: Option<Anchor>, txHash: string): SingleCall {
    var has := |Trim(args.rationaleText)| > 0;
    RecordOne(txHash, RecordedVote(args.gaId, args.vote, UrlOf(anchor), if has then Some(args.rationaleText) else None,
                                   if has then Some(args.crossPost) else None))
  }

  /** From the cast on. */
  function SingleTail(deps: SingleDeps, args: SingleArgs, anchor: Option<Anchor>, calls: seq<SingleCall>)
    : SingleOutcome
  {
    var cast := calls + [SingleCast(args, anchor)];
    match deps.cast(cast)
    case Err(e) => SingleOutcome(Err(e), false, cast, false)
    case Ok(txHash) =>
      var all := cast + [SingleRecord(args, anchor, txHash)];
      match deps.record(all)
      case Ok(recorded) => SingleOutcome(Ok(txHash), recorded, all, false)
      case Err(_) => SingleOutcome(Ok(txHash), false, all, true)
  }

  function SingleSubmitted(deps: SingleDeps, args: SingleArgs): SingleOutcome {
    if |Trim(args.rationaleText)| > 0 then
      var calls := [HostOne(args.gaId, args.drepId, args.rationaleText, args.origin)];
      match deps.host(calls)
      case Err(e) => SingleOutcome(Err(e), false, calls, false)
      case Ok(anchor) => SingleTail(deps, args, Some(anchor), calls)
    else SingleTail(deps, args, None, [])
  }

  method SubmitVote(deps: SingleDeps, args: SingleArgs) returns (o: SingleOutcome)
    ensures o == SingleSubmitted(deps, args)
  {
    var hasRationale := |Trim(args.rationaleText)| > 0;
    if hasRationale {
      var trace := [HostOne(args.gaId, args.drepId, args.rationaleText, args.origin)];
      var hosted := deps.host(trace);
      if hosted.Err? { return SingleOutcome(Err(hosted.error), false, trace, false); }
      o := CastAndRecordOne(deps, args, Some(hosted.value), trace);
    } else {
      o := CastAndRecordOne(deps, args, None, []);
    }
  }

  /** The rest of `submitVote`, once it has an anchor or needs none. */
  method CastAndRecordOne(deps: SingleDeps, args: SingleArgs, anchor: Option<Anchor>, calls: seq<SingleCall>)
    returns (o: SingleOutcome)
    ensures o == SingleTail(deps, args, anchor, calls)
  {
    var trace := calls + [SingleCast(args, anchor)];
    var cast := deps.cast(trace);
    if cast.Err? { return SingleOutcome(Err(cast.error), false, trace, false); }
    trace := trace + [SingleRecord(args, anchor, cast.value)];
    var recorded, warned := false, false;
    var answer := deps.record(trace);
    if answer.Ok? { recorded := answer.value; } else { warned := true; }
    return SingleOutcome(Ok(cast.value), recorded, trace, warned);
  }
}
