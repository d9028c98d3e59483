/** Which text each vote of a batch carries, said without the code's own rule: the action's stored text where it is not
    blank, and the shared text otherwise. */
module VoteTexts {
  import opened JsText
  import opened Votes
  import opened VoteTraces
  import opened VoteBar

  /** The action has a text of its own that is not blank. */
  predicate HasOwn(overrides: map<string, string>, gaId: string) {
    gaId in overrides && Trim(overrides[gaId]) != ""
  }

  /** `text` is what the action is to carry; None where nothing but white space was typed for it. */
  predicate IsTextFor(shared: string, overrides: map<string, string>, gaId: string, text: Option<string>) {
    && (HasOwn(overrides, gaId) ==> text == Some(Trim(overrides[gaId])))
    && (!HasOwn(overrides, gaId) && Trim(shared) != "" ==> text == Some(Trim(shared)))
    && (!HasOwn(overrides, gaId) && Trim(shared) == "" ==> text.None?)
  }

  function Present(text: string): Option<string> {
    if text == "" then None else Some(text)
  }

  lemma TextIs(shared: string, overrides: map<string, string>, gaId: string)
    ensures IsTextFor(shared, overrides, gaId, Present(Texts(shared, overrides)(gaId)))
  {
    assert Trim("") == "";
  }

  lemma OneTextOnly(shared: string, overrides: map<string, string>, gaId: string, a: Option<string>, b: Option<string>)
    requires IsTextFor(shared, overrides, gaId, a) && IsTextFor(shared, overrides, gaId, b)
    ensures a == b
  {
  }

  /** The vote recorded for selection `k`, and the anchor cast for it. */
  ghost predicate CarriesOwnText(deps: Deps, args: Args, trace: seq<Call>, k: nat, cast: CastVote, rec: RecordedVote)
    requires k < |args.selections|
  {
    var s := args.selections[k];
    && cast.govActionId == rec.gaId == s.gaId && cast.vote == rec.vote == s.choice
    && IsTextFor(args.sharedRationale, args.overrides, s.gaId, rec.rationaleText)
    && rec.rationaleUrl == cast.anchorUrl
    && rec.crossPost == (if rec.rationaleText.Some? then Some(args.crossPost) else None)
    && match rec.rationaleText
       case None => cast.anchorUrl.None? && cast.anchorHashHex.None?
       case Some(text) => exists i: nat :: AnchoredBy(deps, trace, text, cast, i)
  }

  /** The last two calls cast and record one vote for each selection, and selection `k`'s carries its own text. */
  ghost predicate RecordsOwnText(deps: Deps, args: Args, trace: seq<Call>, k: nat)
    requires k < |args.selections|
  {
    var n := |trace|;
    && n >= 2 && trace[n - 2].CastCall? && trace[n - 1].RecordCall?
    && |trace[n - 2].votes| == |trace[n - 1].recorded| == |args.selections|
    && CarriesOwnText(deps, args, trace, k, trace[n - 2].votes[k], trace[n - 1].recorded[k])
  }

  lemma FaithfulIsOwn(deps: Deps, args: Args, trace: seq<Call>, k: nat, cast: CastVote, rec: RecordedVote)
    requires k < |args.selections|
    requires CastAs(deps, trace, ItemsOf(args)[k], cast)
    requires RecordedAs(ItemsOf(args)[k], args.crossPost, cast, rec)
    ensures CarriesOwnText(deps, args, trace, k, cast, rec)
  {
    hide AnchoredBy, IsTextFor, Texts;
    var s := args.selections[k];
    PerActionAt(args.selections, Texts(args.sharedRationale, args.overrides), k);
    TextIs(args.sharedRationale, args.overrides, s.gaId);
  }

  /** In every batch that is recorded, each selection's vote is cast and recorded with its own text: the stored one,
      trimmed, unless it is blank, and else the shared one; the anchor is the host's answer to a request for that very
      text, and there is none exactly where both are blank. */
  lemma RecordedWithOwnText(deps: Deps, args: Args, k: nat)
    requires k < |args.selections| && Submitted(deps, args).result.Ok?
    ensures RecordsOwnText(deps, args, Submitted(deps, args).trace, k)
  {
    hide Submitted, CastAs, RecordedAs, CarriesOwnText, ItemsOf;
    var trace := Submitted(deps, args).trace;
    TraceShape(deps, args);
    CastIsFaithful(deps, args, k);
    FaithfulIsOwn(deps, args, trace, k, trace[|trace| - 2].votes[k], trace[|trace| - 1].recorded[k]);
  }

  /** The texts that the button counts are the texts that the selected actions are to carry. */
  lemma {:induction false} CountedTexts(
      gaIds: seq<string>, shared: string, overrides: map<string, string>, text: string)
    ensures text in TextsOf(gaIds, Texts(shared, overrides)) <==>
      exists id :: id in gaIds && IsTextFor(shared, overrides, id, Some(text)) && text != ""
    decreases |gaIds|
  {
    hide IsTextFor, Texts;
    if gaIds != [] {
      var n := |gaIds| - 1;
      CountedTexts(gaIds[..n], shared, overrides, text);
      var own := Texts(shared, overrides)(gaIds[n]);
      TextIs(shared, overrides, gaIds[n]);
      if IsTextFor(shared, overrides, gaIds[n], Some(text)) {
        OneTextOnly(shared, overrides, gaIds[n], Some(text), Present(own));
      }
      assert gaIds == gaIds[..n] + [gaIds[n]];
    }
  }

  // ---- The notice -----------------------------------------------------------------------------

  /** A dropped action is shown by its title, or by its id where it has none. */
  lemma {:induction false} TitlesAt(ids: seq<string>, titles: map<string, string>, k: nat)
    requires k < |ids|
    ensures ids[k] in titles ==> TitlesOf(ids, titles)[k] == titles[ids[k]]
    ensures ids[k] !in titles ==> TitlesOf(ids, titles)[k] == ids[k]
    decreases |ids|
  {
    if k < |ids| - 1 {
      TitlesAt(ids[..|ids| - 1], titles, k);
    }
  }
}
