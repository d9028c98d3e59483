/** How many requests a key can be granted in a stretch of time, over whole runs. The stored state remembers one
    window only; the bound comes from how windows follow one another. */
module RateRuns {
  import opened JsText
  import opened Rate

  predicate Sorted(rs: seq<Opts>) {
    forall i, j :: 0 <= i < j < |rs| ==> rs[i].now <= rs[j].now
  }

  /** A run with one limit, one window length and a clock that does not go back. */
  predicate Steady(rs: seq<Opts>, max: int, windowSec: int) {
    max >= 1 && windowSec > 0 && Uniform(rs, max, windowSec) && Sorted(rs)
  }

  /** Requests of `rs` that are admitted at a time in `[lo, hi)`. */
  function AdmittedIn(rs: seq<Opts>, lo: int, hi: int): nat {
    if rs == [] then 0
    else
      var now := rs[|rs| - 1].now;
      AdmittedIn(rs[..|rs| - 1], lo, hi) + if Decided(rs).allowed && lo <= now < hi then 1 else 0
  }

  /** Whole windows that fit into a duration. */
  function Blocks(x: int, w: int): nat
    requires w > 0
    decreases x
  {
    if x < w then 0 else 1 + Blocks(x - w, w)
  }

  lemma {:induction false} BlocksMono(x: int, y: int, w: int)
    requires w > 0 && x <= y
    ensures Blocks(x, w) <= Blocks(y, w)
    decreases y
  {
    if x >= w {
      BlocksMono(x - w, y - w, w);
    }
  }

  lemma {:induction false} BlocksBelow(x: int, k: nat, w: int)
    requires w > 0 && k >= 1 && x < k * w
    ensures Blocks(x, w) <= k - 1
    decreases k
  {
    if x >= w {
      assert (k - 1) * w == k * w - w;
      BlocksBelow(x - w, k - 1, w);
    }
  }

  /** The bound so far: `n` requests admitted since `lo`, in terms of the window open after a request at `now`. */
  predicate BoundedBy(n: nat, window: Option<Window>, now: int, lo: int, max: int, w: int)
    requires w > 0
  {
    match window
    case None => n == 0
    case Some(win) =>
      && 1 <= win.count <= max
      && win.start <= now
      && (now < lo ==> n == 0)
      && (win.start < lo ==> n <= win.count - 1)
      && (win.start >= lo ==> n <= max - 1 + Blocks(win.start - lo, w) * max + win.count)
  }

  predicate Bounded(rs: seq<Opts>, lo: int, max: int, w: int)
    requires w > 0
  {
    BoundedBy(AdmittedIn(rs, lo, Far(rs, lo)), Replay(rs), Far(rs, lo) - 1, lo, max, w)
  }

  /** One more request keeps the bound. */
  lemma BoundedStep(n: nat, window: Option<Window>, last: int, o: Opts, lo: int)
    requires o.max >= 1 && o.windowSec > 0 && (window.Some? ==> last <= o.now)
    requires BoundedBy(n, window, last, lo, o.max, o.windowSec * 1000)
    ensures var d := DecideRate(window, o);
      BoundedBy(n + if d.allowed && lo <= o.now then 1 else 0, Some(d.next), o.now, lo, o.max, o.windowSec * 1000)
  {
    hide Blocks;
    var w := o.windowSec * 1000;
    if window.Some? && o.now - window.value.start >= w && window.value.start >= lo {
      NextBlock(window.value.start - lo, o.now - lo, w, o.max);
    } else if o.now >= lo {
      BlocksNat(o.now - lo, w);
      Scale(0, Blocks(o.now - lo, w), o.max);
    }
  }

  lemma BlocksNat(x: int, w: int)
    requires w > 0
    ensures Blocks(x, w) >= 0
  {}

  /** A time after every request of the run. */
  function Far(rs: seq<Opts>, lo: int): int {
    if rs == [] then lo else rs[|rs| - 1].now + 1
  }

  /** Where the interval ends does not matter once it ends after the run. */
  lemma {:induction false} EndIrrelevant(rs: seq<Opts>, lo: int, hi: int, hi': int)
    requires forall i :: 0 <= i < |rs| ==> rs[i].now < hi && rs[i].now < hi'
    ensures AdmittedIn(rs, lo, hi) == AdmittedIn(rs, lo, hi')
  {
    if rs != [] {
      EndIrrelevant(rs[..|rs| - 1], lo, hi, hi');
    }
  }

  lemma AllBefore(rs: seq<Opts>, hi: int)
    requires Sorted(rs) && (rs != [] ==> rs[|rs| - 1].now < hi)
    ensures forall i :: 0 <= i < |rs| ==> rs[i].now < hi
  {}

  lemma {:induction false} WindowsSpread(rs: seq<Opts>, lo: int, max: int, windowSec: int)
    requires Steady(rs, max, windowSec)
    ensures Bounded(rs, lo, max, windowSec * 1000)
  {
    hide DecideRate, BoundedBy, Blocks;
    if rs == [] {
      assert BoundedBy(0, None, lo - 1, lo, max, windowSec * 1000) by { NothingYet(lo, max, windowSec * 1000); }
    } else {
      var before, o := rs[..|rs| - 1], rs[|rs| - 1];
      WindowsSpread(before, lo, max, windowSec);
      AllBefore(before, o.now + 1);
      EndIrrelevant(before, lo, Far(before, lo), o.now + 1);
      ReplaySome(before);
      BoundedStep(AdmittedIn(before, lo, o.now + 1), Replay(before), Far(before, lo) - 1, o, lo);
    }
  }

  lemma ReplaySome(rs: seq<Opts>)
    ensures Replay(rs).Some? <==> rs != []
  {}

  lemma NothingYet(lo: int, max: int, w: int)
    requires w > 0
    ensures BoundedBy(0, None, lo - 1, lo, max, w)
  {}

  /** A new window opens at least one whole window later. */
  lemma NextBlock(x: int, y: int, w: int, max: int)
    requires w > 0 && 0 <= x && x + w <= y && max >= 1
    ensures Blocks(x, w) * max + max <= Blocks(y, w) * max
  {
    BlocksMono(x, y - w, w);
    assert Blocks(y, w) == 1 + Blocks(y - w, w);
    Scale(Blocks(x, w) + 1, Blocks(y, w), max);
  }

  lemma Scale(a: int, b: int, m: int)
    requires a <= b && m >= 0
    ensures a * m <= b * m
  {}

  /** In any half-open interval of k windows' length at most (k + 1) * max - 1 requests are admitted. */
  lemma {:induction false} AdmissionBound(rs: seq<Opts>, max: int, windowSec: int, lo: int, k: nat)
    requires Steady(rs, max, windowSec) && k >= 1
    ensures AdmittedIn(rs, lo, lo + k * (windowSec * 1000)) <= (k + 1) * max - 1
  {
    var w := windowSec * 1000;
    var hi := lo + k * w;
    KeepsPositive(k, max);
    if rs != [] {
      var now := rs[|rs| - 1].now;
      if now >= hi {
        AdmissionBound(rs[..|rs| - 1], max, windowSec, lo, k);
      } else {
        WindowsSpread(rs, lo, max, windowSec);
        AllBefore(rs, now + 1);
        EndIrrelevant(rs, lo, hi, now + 1);
        var win := Replay(rs).value;
        if win.start >= lo {
          BlocksBelow(win.start - lo, k, w);
          Scale(Blocks(win.start - lo, w), k - 1, max);
        }
      }
    }
  }

  lemma KeepsPositive(k: nat, max: int)
    requires k >= 1 && max >= 1
    ensures (k + 1) * max == (k - 1) * max + 2 * max && (k - 1) * max >= 0
  {}

  // ---- The bound is attained ------------------------------------------------------------------

  function Burst(rs: seq<Opts>, o: Opts, n: nat): seq<Opts> {
    if n == 0 then rs else Burst(rs, o, n - 1) + [o]
  }

  lemma {:induction false} BurstIsRun(rs: seq<Opts>, o: Opts, n: nat)
    requires Steady(rs, o.max, o.windowSec) && (rs != [] ==> rs[|rs| - 1].now <= o.now)
    ensures Steady(Burst(rs, o, n), o.max, o.windowSec)
    ensures var b := Burst(rs, o, n); |b| == |rs| + n && (b != [] ==> b[|b| - 1].now <= o.now)
  {
    if n > 0 {
      BurstIsRun(rs, o, n - 1);
    }
  }

  lemma Append(rs: seq<Opts>, o: Opts, lo: int, hi: int)
    ensures var d := DecideRate(Replay(rs), o);
            && Replay(rs + [o]) == Some(d.next)
            && AdmittedIn(rs + [o], lo, hi) == AdmittedIn(rs, lo, hi) + if d.allowed && lo <= o.now < hi then 1 else 0
  {
    var t := rs + [o];
    assert t[..|t| - 1] == rs;
  }

  lemma DecideInside(win: Window, o: Opts)
    requires o.max >= 1 && o.now - win.start < o.windowSec * 1000 && win.count < o.max
    ensures DecideRate(Some(win), o) == Decision(true, Window(win.start, win.count + 1), false)
  {}

  lemma DecideOpening(prev: Option<Window>, o: Opts)
    requires o.max >= 1 && (prev.Some? ==> o.now - prev.value.start >= o.windowSec * 1000)
    ensures DecideRate(prev, o) == Decision(true, Window(o.now, 1), false)
  {}

  /** A burst in a window with room is admitted in full. */
  lemma {:induction false} BurstInside(rs: seq<Opts>, o: Opts, n: nat, lo: int, hi: int)
    requires o.max >= 1 && Replay(rs).Some?
    requires var win := Replay(rs).value; o.now - win.start < o.windowSec * 1000 && win.count + n <= o.max
    ensures Replay(Burst(rs, o, n)) == Some(Window(Replay(rs).value.start, Replay(rs).value.count + n))
    ensures AdmittedIn(Burst(rs, o, n), lo, hi) == AdmittedIn(rs, lo, hi) + if lo <= o.now < hi then n else 0
  {
    hide DecideRate, Replay, AdmittedIn;
    if n > 0 {
      BurstInside(rs, o, n - 1, lo, hi);
      DecideInside(Replay(Burst(rs, o, n - 1)).value, o);
      Append(Burst(rs, o, n - 1), o, lo, hi);
    }
  }

  /** So is a burst of up to `max` requests that opens a window. */
  lemma {:induction false} BurstOpening(rs: seq<Opts>, o: Opts, n: nat, lo: int, hi: int)
    requires 1 <= n <= o.max && o.windowSec > 0
    requires Replay(rs).Some? ==> o.now - Replay(rs).value.start >= o.windowSec * 1000
    ensures Replay(Burst(rs, o, n)) == Some(Window(o.now, n))
    ensures AdmittedIn(Burst(rs, o, n), lo, hi) == AdmittedIn(rs, lo, hi) + if lo <= o.now < hi then n else 0
  {
    hide DecideRate, Replay, AdmittedIn;
    if n > 1 {
      BurstOpening(rs, o, n - 1, lo, hi);
      DecideInside(Window(o.now, n - 1), o);
    } else {
      assert Burst(rs, o, 0) == rs;
      DecideOpening(Replay(rs), o);
    }
    Append(Burst(rs, o, n - 1), o, lo, hi);
  }

  /** One request at 0, a burst at the end of that window, and a full burst in each of the next k windows. */
  function Peak(max: int, windowSec: int, k: nat): seq<Opts>
    requires max >= 1
  {
    if k == 0 then Burst([Opts(max, windowSec, 0)], Opts(max, windowSec, windowSec * 1000 - 1), max - 1)
    else Burst(Peak(max, windowSec, k - 1), Opts(max, windowSec, Times(k, windowSec * 1000)), max)
  }

  function Times(k: nat, m: int): int {
    if k == 0 then 0 else Times(k - 1, m) + m
  }

  lemma {:induction false} TimesIs(k: nat, m: int)
    ensures Times(k, m) == k * m
  {
    if k > 0 {
      TimesIs(k - 1, m);
    }
  }

  lemma {:induction false} TimesMono(j: nat, k: nat, m: nat)
    requires j <= k
    ensures Times(j, m) <= Times(k, m)
  {
    if j < k {
      TimesMono(j, k - 1, m);
    }
  }

  lemma FirstAdmitted(first: Opts, lo: int, hi: int)
    requires first.max >= 1 && first.now < lo
    ensures Replay([]) == None && DecideRate(None, first) == Decision(true, Window(first.now, 1), false)
    ensures AdmittedIn([], lo, hi) == 0
  {}

  lemma PeakStart(max: int, windowSec: int, hi: int)
    requires max >= 1 && windowSec > 0 && windowSec * 1000 - 1 < hi
    ensures var w := windowSec * 1000; var rs := Peak(max, windowSec, 0);
            && Steady(rs, max, windowSec) && rs != [] && rs[|rs| - 1].now < w
            && Replay(rs) == Some(Window(0, max)) && AdmittedIn(rs, w - 1, hi) == max - 1
  {
    hide DecideRate, AdmittedIn, Burst;
    var first, o := Opts(max, windowSec, 0), Opts(max, windowSec, windowSec * 1000 - 1);
    FirstAdmitted(first, o.now, hi);
    Append([], first, o.now, hi);
    assert [] + [first] == [first];
    BurstInside([first], o, max - 1, o.now, hi);
    BurstIsRun([first], o, max - 1);
  }

  lemma PeakStep(rs: seq<Opts>, o: Opts, lo: int, hi: int)
    requires rs != [] && Steady(rs, o.max, o.windowSec) && rs[|rs| - 1].now < o.now && lo <= o.now < hi
    requires Replay(rs) == Some(Window(o.now - o.windowSec * 1000, o.max))
    ensures var b := Burst(rs, o, o.max);
            && Steady(b, o.max, o.windowSec) && b != [] && b[|b| - 1].now <= o.now
            && Replay(b) == Some(Window(o.now, o.max)) && AdmittedIn(b, lo, hi) == AdmittedIn(rs, lo, hi) + o.max
  {
    hide DecideRate, Replay, AdmittedIn, Burst;
    BurstOpening(rs, o, o.max, lo, hi);
    BurstIsRun(rs, o, o.max);
  }

  lemma {:induction false} PeakCount(max: int, windowSec: int, j: nat, k: nat)
    requires max >= 1 && windowSec > 0 && j <= k && k >= 1
    ensures var w := windowSec * 1000; var rs := Peak(max, windowSec, j);
            && Steady(rs, max, windowSec)
            && rs != [] && rs[|rs| - 1].now < Times(j, w) + w
            && Replay(rs) == Some(Window(Times(j, w), max))
            && AdmittedIn(rs, w - 1, w - 1 + Times(k, w)) == max - 1 + Times(j, max)
  {
    hide DecideRate, Replay, AdmittedIn, Burst, Steady;
    var w := windowSec * 1000;
    TimesMono(if j == 0 then 1 else j, k, w);
    if j == 0 {
      assert Times(1, w) == w;
      PeakStart(max, windowSec, w - 1 + Times(k, w));
    } else {
      PeakCount(max, windowSec, j - 1, k);
      TimesMono(0, j - 1, w);
      PeakStep(Peak(max, windowSec, j - 1), Opts(max, windowSec, Times(j, w)), w - 1, w - 1 + Times(k, w));
    }
  }

  /** No smaller bound holds: for every limit, window and k there is a run that admits exactly that many. */
  lemma AdmissionBoundIsTight(max: int, windowSec: int, k: nat) returns (rs: seq<Opts>, lo: int)
    requires max >= 1 && windowSec > 0 && k >= 1
    ensures Steady(rs, max, windowSec) && AdmittedIn(rs, lo, lo + k * (windowSec * 1000)) == (k + 1) * max - 1
  {
    PeakCount(max, windowSec, k, k);
    rs, lo := Peak(max, windowSec, k), windowSec * 1000 - 1;
    TimesIs(k, windowSec * 1000);
    TimesIs(k, max);
    assert (k + 1) * max == k * max + max;
  }

  /** The counter always resets: once a whole window has passed since the stored start, the next request is
      admitted and opens a new window, whatever came before. */
  lemma AlwaysResets(rs: seq<Opts>, o: Opts)
    requires o.max >= 1 && (Replay(rs).Some? ==> o.now - Replay(rs).value.start >= o.windowSec * 1000)
    ensures Verdict(rs + [o], |rs|) && Replay(rs + [o]) == Some(Window(o.now, 1))
  {
    Append(rs, o, 0, 0);
    assert (rs + [o])[..|rs| + 1] == rs + [o] && (rs + [o])[..|rs|] == rs;
  }
}
