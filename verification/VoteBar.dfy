/** The batch bar's submit handler (src/components/MultiVoteBar.tsx:423-498): the liveness check before anything is
    hosted or signed, and what the draft and the screen become. */
module VoteBar {
  import opened JsText
  import opened Votes

  datatype Phase = Form | Success(txHash: string, count: nat) | WalletLost | SubmitFailed(error: VoteError)

  /** What the wallet connection supplies. */
  datatype Identity = Identity(drepId: string, drepKeyHash: string, network: string, origin: string, walletApi: string)

  /** The selections whose action is on the page, in selection order. */
  function Items(selections: seq<Selection>, page: set<string>): seq<Selection> {
    if selections == [] then []
    else Items(selections[..|selections| - 1], page) +
         if selections[|selections| - 1].gaId in page then [selections[|selections| - 1]] else []
  }

  /** The selected actions that the liveness answer no longer lists. */
  function Dropped(items: seq<Selection>, active: set<string>): seq<string> {
    if items == [] then []
    else Dropped(items[..|items| - 1], active) +
         if items[|items| - 1].gaId in active then [] else [items[|items| - 1].gaId]
  }

  /** What the notice shows for them: the title, or the id where there is none. */
  function TitlesOf(ids: seq<string>, titles: map<string, string>): (shown: seq<string>)
    ensures |shown| == |ids|
  {
    if ids == [] then []
    else
      var last := ids[|ids| - 1];
      TitlesOf(ids[..|ids| - 1], titles) + [if last in titles then titles[last] else last]
  }

  /** `delete` of each dropped key. */
  function Without(selections: seq<Selection>, dropped: seq<string>): seq<Selection> {
    if selections == [] then []
    else Without(selections[..|selections| - 1], dropped) +
         if selections[|selections| - 1].gaId in dropped then [] else [selections[|selections| - 1]]
  }

  class MultiVoteBar {
    const page: set<string>
    const titles: map<string, string>
    var selections: seq<Selection>
    var sharedRationale: string
    var overrides: map<string, string>
    var crossPost: bool
    var droppedNotice: seq<string>
    var phase: Phase

    constructor (page: set<string>, titles: map<string, string>)
      ensures this.page == page && this.titles == titles && IsReset() && phase == Form
    {
      this.page, this.titles := page, titles;
      selections, sharedRationale, overrides, crossPost, droppedNotice := [], "", map[], false, [];
      phase := Form;
    }

    ghost predicate IsReset()
      reads this
    {
      selections == [] && sharedRationale == "" && overrides == map[] && !crossPost && droppedNotice == []
    }

    function ArgsFor(who: Identity): Args
      reads this
    {
      Args(Items(selections, page), sharedRationale, overrides, crossPost,
           who.drepId, who.drepKeyHash, who.network, who.origin, who.walletApi)
    }

    method ResetBatchState()
      modifies this
      ensures IsReset() && phase == old(phase)
    {
      selections, sharedRationale, overrides, crossPost, droppedNotice := [], "", map[], false, [];
    }

    /** `who` is None once the wallet connection is lost; `active` is None when the liveness read fails. */
    method HandleSubmit(who: Option<Identity>, active: Option<set<string>>, deps: Deps) returns (trace: seq<Call>)
      modifies this
      ensures who.None? ==>
        trace == [] && phase == WalletLost &&
        unchanged(`selections, `sharedRationale, `overrides, `crossPost, `droppedNotice)
      ensures who.Some? && active.Some? && Dropped(Items(old(selections), page), active.value) != [] ==>
        && trace == [] && phase == Form
        && droppedNotice == TitlesOf(Dropped(Items(old(selections), page), active.value), titles)
        && selections == Without(old(selections), Dropped(Items(old(selections), page), active.value))
        && unchanged(`sharedRationale, `overrides, `crossPost)
      ensures who.Some? && (active.None? || Dropped(Items(old(selections), page), active.value) == []) ==>
        var id := who.value;
        var o := Submitted(deps, Args(
          Items(old(selections), page), old(sharedRationale), old(overrides), old(crossPost),
          id.drepId, id.drepKeyHash, id.network, id.origin, id.walletApi));
        && trace == o.trace
        && match o.result
           case Ok(txHash) => IsReset() && phase == Success(txHash, |Items(old(selections), page)|)
           case Err(e) =>
             phase == SubmitFailed(e) &&
             unchanged(`selections, `sharedRationale, `overrides, `crossPost, `droppedNotice)
    {
      hide Items, Dropped, Without, Submitted, TitlesOf;
      if who.None? {
        phase := WalletLost;
        return [];
      }
      if active.Some? {
        var dropped := Dropped(Items(selections, page), active.value);
        if |dropped| > 0 {
          selections := Without(selections, dropped);
          droppedNotice := TitlesOf(dropped, titles);
          phase := Form;
          return [];
        }
      }
      var count := |Items(selections, page)|;
      var o := SubmitMultiVote(deps, ArgsFor(who.value));
      trace := o.trace;
      match o.result
      case Ok(txHash) =>
        ResetBatchState();
        phase := Success(txHash, count);
      case Err(e) => phase := SubmitFailed(e);
    }
  }

  // ---- The gate -------------------------------------------------------------------------------

  /** Nothing is dropped exactly when every selected action is still active. */
  lemma {:induction false} NothingDroppedIff(items: seq<Selection>, active: set<string>)
    ensures Dropped(items, active) == [] <==> forall s :: s in items ==> s.gaId in active
  {
    if items != [] {
      NothingDroppedIff(items[..|items| - 1], active);
    }
  }

  lemma {:induction false} DroppedAre(items: seq<Selection>, active: set<string>, id: string)
    ensures id in Dropped(items, active) <==> id !in active && exists s :: s in items && s.gaId == id
  {
    if items != [] {
      DroppedAre(items[..|items| - 1], active, id);
      assert items == items[..|items| - 1] + [items[|items| - 1]];
    }
  }

  /** After a drop exactly the active selections are left, in order, so that submitting again with the same answer
      passes the gate. */
  lemma SecondSubmitPasses(selections: seq<Selection>, page: set<string>, active: set<string>)
    ensures var left := Items(Without(selections, Dropped(Items(selections, page), active)), page);
      left == Items(selections, page * active) && Dropped(left, active) == []
  {
    var dropped := Dropped(Items(selections, page), active);
    forall s | s in selections ensures s.gaId in dropped <==> s.gaId in page && s.gaId !in active {
      DroppedAre(Items(selections, page), active, s.gaId);
      ItemsAre(selections, page, s);
      if s.gaId in dropped {
        var t :| t in Items(selections, page) && t.gaId == s.gaId;
        ItemsAre(selections, page, t);
      }
    }
    LeftAre(selections, page, active, dropped);
    NothingDroppedIff(Items(selections, page * active), active);
    forall s | s in Items(selections, page * active) ensures s.gaId in active {
      ItemsAre(selections, page * active, s);
    }
  }

  lemma {:induction false} ItemsAre(selections: seq<Selection>, page: set<string>, s: Selection)
    ensures s in Items(selections, page) <==> s in selections && s.gaId in page
  {
    if selections != [] {
      ItemsAre(selections[..|selections| - 1], page, s);
      assert selections == selections[..|selections| - 1] + [selections[|selections| - 1]];
    }
  }

  lemma {:induction false} LeftAre(
      selections: seq<Selection>, page: set<string>, active: set<string>, dropped: seq<string>)
    requires forall s :: s in selections ==> (s.gaId in dropped <==> s.gaId in page && s.gaId !in active)
    ensures Items(Without(selections, dropped), page) == Items(selections, page * active)
    decreases |selections|
  {
    if selections != [] {
      var n := |selections| - 1;
      var s := selections[n];
      LeftAre(selections[..n], page, active, dropped);
      var rest := Without(selections[..n], dropped);
      assert s in selections;
      if s.gaId in dropped {
        assert Without(selections, dropped) == rest;
      } else {
        assert Without(selections, dropped) == rest + [s];
        assert (rest + [s])[..|rest|] == rest;
        assert Items(rest + [s], page) == Items(rest, page) + if s.gaId in page then [s] else [];
      }
    }
  }
}
