/** The fixed-window rate limiter: the pure decision (src/lib/rate.ts), one persisted counter per key
    (src/lib/rateLimiterDO.ts) and the routing of keys to counters. Times are in milliseconds. */
module Rate {
  import opened JsText

  datatype Window = Window(start: int, count: int)

  datatype Opts = Opts(max: int, windowSec: int, now: int)

  /** `same` says that `next` is the previous record itself, which is what the caller's `!==` tests. */
  datatype Decision = Decision(allowed: bool, next: Window, same: bool)

  function DecideRate(prev: Option<Window>, opts: Opts): Decision {
    if opts.max < 1 then
      match prev
      case Some(w) => Decision(false, w, true)
      case None => Decision(false, Window(opts.now, 0), false)
    else if prev.None? || opts.now - prev.value.start >= opts.windowSec * 1000 then
      Decision(true, Window(opts.now, 1), false)
    else if prev.value.count >= opts.max then Decision(false, prev.value, true)
    else Decision(true, Window(prev.value.start, prev.value.count + 1), false)
  }

  // ---- A run of requests against one key ------------------------------------------------------

  /** What is stored after the requests `rs`, in order, on an empty key. */
  function Replay(rs: seq<Opts>): Option<Window>
    decreases |rs|, 0
  {
    if rs == [] then None else Some(Decided(rs).next)
  }

  /** The decision on the last request of `rs`. */
  function Decided(rs: seq<Opts>): Decision
    requires rs != []
    decreases |rs| - 1, 1
  {
    DecideRate(Replay(rs[..|rs| - 1]), rs[|rs| - 1])
  }

  function Verdict(rs: seq<Opts>, i: nat): bool
    requires i < |rs|
  {
    Decided(rs[..i + 1]).allowed
  }

  /** Storage writes of a run. */
  function Puts(rs: seq<Opts>): nat {
    if rs == [] then 0 else Puts(rs[..|rs| - 1]) + if Decided(rs).same then 0 else 1
  }

  // ---- The durable object ---------------------------------------------------------------------

  class RateLimiter {
    var stored: Option<Window>
    var puts: nat
    ghost var log: seq<Opts>

    /** Storage is the replay of every request the object has been asked to record. */
    ghost predicate Valid()
      reads this
    {
      stored == Replay(log) && puts == Puts(log)
    }

    constructor ()
      ensures Valid() && log == []
    {
      stored, puts, log := None, 0, [];
    }

    method Limit(opts: Opts) returns (allowed: bool)
      requires Valid()
      modifies this
      ensures Valid() && log == old(log) + [opts]
      ensures allowed == Verdict(log, |log| - 1)
      ensures stored == Some(DecideRate(old(stored), opts).next)
      ensures !allowed && old(stored).Some? ==> stored == old(stored) && puts == old(puts)
      ensures !allowed && old(stored).None? ==> stored == Some(Window(opts.now, 0)) && puts == old(puts) + 1
      ensures allowed ==> puts == old(puts) + 1
    {
      var d := DecideRate(stored, opts);
      if !d.same {
        stored := Some(d.next);
        puts := puts + 1;
      }
      allowed := d.allowed;
      log := log + [opts];
      assert log[..|log| - 1] == old(log) && log[..|log|] == log;
    }

    /** Answers what the next `Limit` with the same options would, and changes nothing. */
    method Peek(opts: Opts) returns (allowed: bool)
      requires Valid()
      ensures allowed == Verdict(log + [opts], |log|)
    {
      var d := DecideRate(stored, opts);
      allowed := d.allowed;
      assert (log + [opts])[..|log| + 1] == log + [opts] && (log + [opts])[..|log|] == log;
    }
  }

  // ---- Routing --------------------------------------------------------------------------------

  /** The namespace: every key has its own object, created on first use. */
  class RateNamespace {
    var instances: map<string, RateLimiter>

    ghost predicate Valid()
      reads this, instances.Values
    {
      && (forall a :: a in instances ==> instances[a].Valid())
      && forall a, b :: a in instances && b in instances && a != b ==> instances[a] != instances[b]
    }

    ghost function Log(key: string): seq<Opts>
      reads this, instances.Values
    {
      if "rate:" + key in instances then instances["rate:" + key].log else []
    }

    constructor ()
      ensures Valid() && forall k :: Log(k) == []
    {
      instances := map[];
    }

    /** `ns.get(ns.idFromName(name))`. */
    method Get(name: string) returns (stub: RateLimiter)
      requires Valid()
      modifies this
      ensures Valid() && name in instances && instances[name] == stub
      ensures old(instances) == instances || (name !in old(instances) && fresh(stub) && stub.log == [])
      ensures instances == old(instances)[name := stub]
    {
      if name in instances {
        stub := instances[name];
      } else {
        stub := new RateLimiter();
        instances := instances[name := stub];
      }
    }

    /** Records one request; no other key's history changes. */
    method CheckRate(key: string, opts: Opts) returns (allowed: bool)
      requires Valid()
      modifies this, instances.Values
      ensures Valid()
      ensures Log(key) == old(Log(key)) + [opts] && allowed == Verdict(Log(key), |Log(key)| - 1)
      ensures forall k :: k != key ==> Log(k) == old(Log(k))
    {
      hide DecideRate, Replay, Decided, Puts, Verdict;
      OwnName(key);
      var stub := Get("rate:" + key);
      allowed := stub.Limit(opts);
    }

    /** Reads a key without recording a request. */
    method PeekRate(key: string, opts: Opts) returns (allowed: bool)
      requires Valid()
      modifies this
      ensures Valid()
      ensures allowed == Verdict(Log(key) + [opts], |Log(key)|)
      ensures forall k :: Log(k) == old(Log(k))
    {
      var stub := Get("rate:" + key);
      allowed := stub.Peek(opts);
      OwnName(key);
    }
  }

  lemma OwnName(key: string)
    ensures forall k: string :: "rate:" + k == "rate:" + key ==> k == key
  {
    assert forall k: string :: ("rate:" + k)[5..] == k;
  }

  // ---- What the stored window means -----------------------------------------------------------

  /** The run uses one limit and one window length, as every caller of a key does. */
  predicate Uniform(rs: seq<Opts>, max: int, windowSec: int) {
    forall i :: 0 <= i < |rs| ==> rs[i].max == max && rs[i].windowSec == windowSec
  }

  predicate Opens(rs: seq<Opts>)
    requires rs != []
  {
    var prev := Replay(rs[..|rs| - 1]);
    prev.None? || rs[|rs| - 1].now - prev.value.start >= rs[|rs| - 1].windowSec * 1000
  }

  /** Index of the request that opened the current window. */
  function OpenedAt(rs: seq<Opts>): (i: nat)
    requires rs != []
    ensures i < |rs|
  {
    if |rs| == 1 || Opens(rs) then |rs| - 1 else OpenedAt(rs[..|rs| - 1])
  }

  /** Admitted requests from index `i` on. */
  function AdmittedFrom(rs: seq<Opts>, i: nat): nat {
    if |rs| <= i then 0 else AdmittedFrom(rs[..|rs| - 1], i) + if Decided(rs).allowed then 1 else 0
  }

  /** The persisted record refines the log: its start is the time of the opening request, its count is the number
      of requests admitted since, and the count never exceeds the limit. */
  lemma {:induction false} StoredIsTheLog(rs: seq<Opts>, max: int, windowSec: int)
    requires rs != [] && max >= 1 && Uniform(rs, max, windowSec)
    ensures Replay(rs) == Some(Window(rs[OpenedAt(rs)].now, AdmittedFrom(rs, OpenedAt(rs))))
    ensures 1 <= AdmittedFrom(rs, OpenedAt(rs)) <= max
    ensures Verdict(rs, OpenedAt(rs))
  {
    var before := rs[..|rs| - 1];
    assert rs[..|rs|] == rs;
    if before == [] {
      assert Replay(before) == None && Decided(rs) == DecideRate(None, rs[0]);
      assert AdmittedFrom(before, 0) == 0 && AdmittedFrom(rs, 0) == 1;
    } else {
      StoredIsTheLog(before, max, windowSec);
      if !Opens(rs) {
        var i := OpenedAt(before);
        assert before[i] == rs[i] && before[..i + 1] == rs[..i + 1];
      }
    }
  }

  /** Requests that are denied and yet written: only a first one with a limit below one. */
  lemma {:induction false} PutsAre(rs: seq<Opts>)
    ensures Puts(rs) == AdmittedFrom(rs, 0) + if rs != [] && rs[0].max < 1 then 1 else 0
  {
    if rs != [] {
      var before := rs[..|rs| - 1];
      PutsAre(before);
      assert before != [] ==> before[0] == rs[0];
      assert Replay(before).Some? <==> before != [];
      assert AdmittedFrom(rs, 0) == AdmittedFrom(before, 0) + if Decided(rs).allowed then 1 else 0;
      assert Decided(rs) == DecideRate(Replay(before), rs[|rs| - 1]);
    }
  }

  /** A flood of denied requests costs no storage: every write of a run is an admission, exactly when its first request
      came with a limit of at least one. */
  lemma WritesAreAdmissionsIff(rs: seq<Opts>)
    ensures Puts(rs) == AdmittedFrom(rs, 0) <==> rs == [] || rs[0].max >= 1
  {
    PutsAre(rs);
  }

  /** Otherwise that first request is denied and stores an empty window. */
  lemma ZeroLimitWrites(opts: Opts)
    requires opts.max < 1
    ensures !Verdict([opts], 0) && Puts([opts]) == 1 && Replay([opts]) == Some(Window(opts.now, 0))
  {
    assert [opts][..0] == [] && [opts][..1] == [opts];
    assert Puts([]) == 0 && Replay([]) == None;
    assert Decided([opts]) == DecideRate(None, opts);
  }
}
