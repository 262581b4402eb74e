/** The sliding-window limiter: its table, and the unbounded log of hits that the table stands for. */
module RateLimit {
  import opened Options

  datatype Key = Key(text: string)

  type Table = map<Key, seq<real>>

  const MAX_KEYS: nat := 50_000

  datatype Answer = Answer(allowed: bool, retryAfter: real)

  function Get(t: Table, k: Key): seq<real> { if k in t then t[k] else [] }

  predicate IsLive(t: real, now: real, w: real) { now - t < w }

  /** The timestamps still inside the window. */
  function Live(ts: seq<real>, now: real, w: real): seq<real> {
    if ts == [] then []
    else (if IsLive(ts[0], now, w) then [ts[0]] else []) + Live(ts[1..], now, w)
  }

  predicate Stale(ts: seq<real>, now: real, w: real) { ts == [] || !IsLive(ts[|ts| - 1], now, w) }

  function Evict(t: Table, now: real, w: real): Table { map k | k in t && !Stale(t[k], now, w) :: t[k] }

  /** The table as a call on a key finds it: under pressure, a new key first evicts what is stale. */
  function Prepared(t: Table, k: Key, now: real, w: real): Table {
    if |t| >= MAX_KEYS && k !in t then Evict(t, now, w) else t
  }

  predicate Saturated(t: Table, k: Key, now: real, w: real) {
    var p := Prepared(t, k, now, w);
    |p| >= MAX_KEYS && k !in p
  }

  function NonNegative(r: real): real { if r < 0.0 then 0.0 else r }

  /** When the oldest of the given timestamps leaves the window, counted from now. */
  function RetryAfter(recent: seq<real>, now: real, w: real): real
    requires recent != []
  {
    NonNegative(w - (now - recent[0]))
  }

  /** What hit answers, and the table it leaves. */
  function HitSpec(t: Table, w: real, k: Key, now: real, ceiling: int, failClosed: bool): (Table, Answer) {
    if ceiling <= 0 then (t, Answer(true, 0.0))
    else
      var p := Prepared(t, k, now, w);
      if Saturated(t, k, now, w) then (p, if failClosed then Answer(false, w) else Answer(true, 0.0))
      else
        var recent := Live(Get(p, k), now, w);
        if |recent| >= ceiling then (p[k := recent], Answer(false, RetryAfter(recent, now, w)))
        else (p[k := recent + [now]], Answer(true, 0.0))
  }

  /** What check answers, and the table it leaves: nothing is recorded, but eviction may run. */
  function CheckSpec(t: Table, w: real, k: Key, now: real, ceiling: int, failClosed: bool): (Table, Answer) {
    if ceiling <= 0 then (t, Answer(true, 0.0))
    else
      var p := Prepared(t, k, now, w);
      if Saturated(t, k, now, w) then (p, if failClosed then Answer(false, w) else Answer(true, 0.0))
      else
        var recent := Live(Get(p, k), now, w);
        (p, if |recent| >= ceiling then Answer(false, RetryAfter(recent, now, w)) else Answer(true, 0.0))
  }

  // ----- runs of calls

  datatype Call = Call(isHit: bool, key: Key, now: real, ceiling: int, failClosed: bool)

  function Step(t: Table, w: real, c: Call): (Table, Answer) {
    if c.isHit then HitSpec(t, w, c.key, c.now, c.ceiling, c.failClosed)
    else CheckSpec(t, w, c.key, c.now, c.ceiling, c.failClosed)
  }

  /** The table after a run that starts empty. */
  function TableAfter(calls: seq<Call>, w: real): Table {
    if calls == [] then map[] else Step(TableAfter(calls[..|calls| - 1], w), w, calls[|calls| - 1]).0
  }

  function AnswerTo(calls: seq<Call>, w: real): Answer
    requires calls != []
  {
    Step(TableAfter(calls[..|calls| - 1], w), w, calls[|calls| - 1]).1
  }

  class SlidingWindowLimiter {
    const maxHits: int
    const window: real
    var hits: Table
    ghost var calls: seq<Call>

    /** The table is what the calls since the last reset have made of an empty one. */
    ghost predicate Valid()
      reads this
    {
      hits == TableAfter(calls, window)
    }

    constructor (maxHits: int, window: real)
      ensures this.maxHits == maxHits && this.window == window && hits == map[]
      ensures Valid() && calls == []
    {
      this.maxHits, this.window, hits := maxHits, window, map[];
      calls := [];
    }

    /** Records an attempt, unless the limiter is disabled, the table is saturated or the window is full. */
    method Hit(k: Key, now: real, override: Option<int>, failClosed: bool) returns (answer: Answer)
      requires Valid()
      modifies this
      ensures Valid()
      ensures calls == old(calls) + [Call(true, k, now, if override.None? then maxHits else override.value, failClosed)]
      ensures answer == AnswerTo(calls, window)
      ensures (hits, answer) ==
        HitSpec(old(hits), window, k, now, if override.None? then maxHits else override.value, failClosed)
    {
      var ceiling := if override.None? then maxHits else override.value;
      Record(Call(true, k, now, ceiling, failClosed));
      if ceiling <= 0 { return Answer(true, 0.0); }
      if |hits| >= MAX_KEYS && k !in hits {
        EvictExpired(now);
        if |hits| >= MAX_KEYS && k !in hits {
          return if failClosed then Answer(false, window) else Answer(true, 0.0);
        }
      }
      var recent := Live(Get(hits, k), now, window);
      if |recent| >= ceiling {
        hits := hits[k := recent];
        return Answer(false, RetryAfter(recent, now, window));
      }
      recent := recent + [now];
      hits := hits[k := recent];
      answer := Answer(true, 0.0);
    }

    /** The same question without recording anything. */
    method Check(k: Key, now: real, override: Option<int>, failClosed: bool) returns (answer: Answer)
      requires Valid()
      modifies this
      ensures Valid()
      ensures calls == old(calls) + [Call(false, k, now, if override.None? then maxHits else override.value, failClosed)]
      ensures answer == AnswerTo(calls, window)
      ensures (hits, answer) ==
        CheckSpec(old(hits), window, k, now, if override.None? then maxHits else override.value, failClosed)
    {
      var ceiling := if override.None? then maxHits else override.value;
      Record(Call(false, k, now, ceiling, failClosed));
      if ceiling <= 0 { return Answer(true, 0.0); }
      if |hits| >= MAX_KEYS && k !in hits {
        EvictExpired(now);
        if |hits| >= MAX_KEYS && k !in hits {
          return if failClosed then Answer(false, window) else Answer(true, 0.0);
        }
      }
      var recent := Live(Get(hits, k), now, window);
      if |recent| >= ceiling {
        return Answer(false, RetryAfter(recent, now, window));
      }
      answer := Answer(true, 0.0);
    }

    /** Notes the call for the specification. */
    ghost method Record(c: Call)
      modifies this`calls
      ensures calls == old(calls) + [c]
      ensures TableAfter(calls, window) == Step(TableAfter(old(calls), window), window, c).0
      ensures AnswerTo(calls, window) == Step(TableAfter(old(calls), window), window, c).1
    {
      calls := calls + [c];
      assert calls[..|calls| - 1] == old(calls);
    }

    /** Collects the stale keys, then deletes them. */
    method EvictExpired(now: real)
      modifies this`hits
      ensures hits == Evict(old(hits), now, window)
    {
      var stale := set k | k in hits && Stale(hits[k], now, window);
      var todo := stale;
      while todo != {}
        invariant todo <= stale && hits == old(hits) - (stale - todo)
        decreases todo
      {
        var k :| k in todo;
        hits := hits - {k};
        todo := todo - {k};
      }
    }

    /** Forgets everything. */
    method Reset()
      modifies this
      ensures hits == map[] && calls == [] && Valid()
    {
      hits, calls := map[], [];
    }
  }

  // ----- sorted timestamps: the live ones are a suffix

  ghost predicate Ascending(ts: seq<real>) { forall i, j :: 0 <= i < j < |ts| ==> ts[i] <= ts[j] }

  /** How many leading timestamps have left the window. */
  function Gone(ts: seq<real>, now: real, w: real): (n: nat)
    ensures n <= |ts|
    ensures forall i :: 0 <= i < n ==> !IsLive(ts[i], now, w)
    ensures n < |ts| ==> IsLive(ts[n], now, w)
  {
    if ts == [] || IsLive(ts[0], now, w) then 0 else 1 + Gone(ts[1..], now, w)
  }

  lemma {:induction false} AllLive(ts: seq<real>, now: real, w: real)
    requires forall i :: 0 <= i < |ts| ==> IsLive(ts[i], now, w)
    ensures Live(ts, now, w) == ts
  {
    if ts != [] { AllLive(ts[1..], now, w); }
  }

  lemma {:induction false} LiveIsSuffix(ts: seq<real>, now: real, w: real)
    requires Ascending(ts)
    ensures Live(ts, now, w) == ts[Gone(ts, now, w)..]
    ensures forall i :: Gone(ts, now, w) <= i < |ts| ==> IsLive(ts[i], now, w)
    ensures Ascending(Live(ts, now, w))
  {
    if ts != [] {
      if IsLive(ts[0], now, w) {
        forall i | 0 <= i < |ts| ensures IsLive(ts[i], now, w) { assert i > 0 ==> ts[0] <= ts[i]; }
        AllLive(ts, now, w);
      } else {
        LiveIsSuffix(ts[1..], now, w);
        assert ts[1..][Gone(ts[1..], now, w)..] == ts[Gone(ts, now, w)..];
      }
    }
  }

  /** What has left the window stays out, so pruning early loses nothing. */
  lemma {:induction false} LiveOfLive(ts: seq<real>, now: real, later: real, w: real)
    requires now <= later
    ensures Live(Live(ts, now, w), later, w) == Live(ts, later, w)
  {
    if ts != [] {
      LiveOfLive(ts[1..], now, later, w);
      assert IsLive(ts[0], later, w) ==> IsLive(ts[0], now, w);
      hide IsLive;
      var rest := Live(ts[1..], now, w);
      if IsLive(ts[0], now, w) { assert ([ts[0]] + rest)[1..] == rest; }
      else { assert [] + rest == rest; }
    }
  }

  lemma LiveStep(ts: seq<real>, now: real, w: real)
    requires ts != []
    ensures Live(ts, now, w) == (if IsLive(ts[0], now, w) then [ts[0]] else []) + Live(ts[1..], now, w)
  {}

  lemma {:induction false} LiveAppend(ts: seq<real>, t: real, now: real, w: real)
    ensures Live(ts + [t], now, w) == Live(ts, now, w) + if IsLive(t, now, w) then [t] else []
  {
    hide IsLive;
    if ts == [] {
      assert ts + [t] == [t];
    } else {
      LiveAppend(ts[1..], t, now, w);
      assert (ts + [t])[1..] == ts[1..] + [t];
      LiveStep(ts, now, w);
      LiveStep(ts + [t], now, w);
      assert (ts + [t])[0] == ts[0];
      hide Live;
    }
  }

  lemma StaleHasNoneLive(ts: seq<real>, now: real, w: real)
    requires Ascending(ts) && Stale(ts, now, w)
    ensures Live(ts, now, w) == []
  {
    LiveIsSuffix(ts, now, w);
  }
}
