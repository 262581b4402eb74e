/** Whole runs of the limiter: agreement with an unbounded log, and the bound on hits per window. */
module RateRuns {
  import opened RateLimit

  // ----- the table represents the log

  /** Timestamps in order, none in the future. */
  ghost predicate Good(ts: seq<real>, now: real) { Ascending(ts) && forall i :: 0 <= i < |ts| ==> ts[i] <= now }

  /** Inside the window the table and the log hold the same timestamps for every key. */
  ghost predicate Represents(t: Table, log: Table, now: real, w: real) {
    && |t| <= MAX_KEYS
    && forall k :: Good(Get(t, k), now) && Good(Get(log, k), now) && Live(Get(t, k), now, w) == Live(Get(log, k), now, w)
  }

  lemma RepresentsLater(t: Table, log: Table, now: real, later: real, w: real)
    requires Represents(t, log, now, w) && now <= later
    ensures Represents(t, log, later, w)
  {
    hide Live, Get;
    forall k ensures Live(Get(t, k), later, w) == Live(Get(log, k), later, w) {
      LiveOfLive(Get(t, k), now, later, w);
      LiveOfLive(Get(log, k), now, later, w);
    }
  }

  lemma EvictShrinks(t: Table, now: real, w: real)
    ensures |Evict(t, now, w)| <= |t|
    ensures Evict(t, now, w).Keys <= t.Keys
  {
    var e := Evict(t, now, w);
    var gone := t.Keys - e.Keys;
    assert t.Keys == e.Keys + gone;
    assert |t.Keys| == |e.Keys| + |gone|;
  }

  /** Eviction takes nothing that is inside the window. */
  lemma PreparedRepresents(t: Table, log: Table, k: Key, now: real, w: real)
    requires Represents(t, log, now, w)
    ensures Represents(Prepared(t, k, now, w), log, now, w)
  {
    hide Live;
    EvictShrinks(t, now, w);
    var p := Prepared(t, k, now, w);
    forall j ensures Good(Get(p, j), now) && Live(Get(p, j), now, w) == Live(Get(log, j), now, w) {
      assert Good(Get(t, j), now);
      if j in t && j !in p {
        StaleHasNoneLive(t[j], now, w);
        NoneLive(now, w);
      }
    }
  }

  lemma NoneLive(now: real, w: real)
    ensures Live([], now, w) == []
  {}

  lemma GoodAppend(ts: seq<real>, now: real)
    requires Good(ts, now)
    ensures Good(ts + [now], now)
  {}

  lemma GoodLive(ts: seq<real>, now: real, w: real)
    requires Good(ts, now)
    ensures Good(Live(ts, now, w), now) && Live(Live(ts, now, w), now, w) == Live(ts, now, w)
  {
    hide Live;
    LiveIsSuffix(ts, now, w);
    LiveOfLive(ts, now, now, w);
  }

  /** Replacing one key's entry keeps the representation where that entry is right. */
  lemma UpdateRepresents(t: Table, log: Table, k: Key, ts: seq<real>, us: seq<real>, now: real, w: real)
    requires Represents(t, log, now, w) && (k in t || |t| < MAX_KEYS)
    requires Good(ts, now) && Good(us, now) && Live(ts, now, w) == Live(us, now, w)
    ensures Represents(t[k := ts], log[k := us], now, w)
  {
    hide Live, Good;
    var t', log' := t[k := ts], log[k := us];
    assert t'.Keys == t.Keys + {k};
    forall j ensures Good(Get(t', j), now) && Good(Get(log', j), now) && Live(Get(t', j), now, w) == Live(Get(log', j), now, w) {
      assert Good(Get(t, j), now) && Live(Get(t, j), now, w) == Live(Get(log, j), now, w);
    }
  }

  // ----- the unbounded log

  /** The answer of a log that forgets nothing. */
  function LogAnswer(log: Table, w: real, c: Call): Answer {
    if c.ceiling <= 0 then Answer(true, 0.0)
    else
      var live := Live(Get(log, c.key), c.now, w);
      if |live| >= c.ceiling then Answer(false, RetryAfter(live, c.now, w)) else Answer(true, 0.0)
  }

  /** A counted hit is added; nothing is ever removed. */
  function LogStep(log: Table, w: real, c: Call): Table {
    if c.isHit && c.ceiling > 0 && LogAnswer(log, w, c).allowed then log[c.key := Get(log, c.key) + [c.now]] else log
  }

  /** The call meets a table full of other keys' live entries. */
  predicate Crowded(t: Table, w: real, c: Call) { c.ceiling > 0 && Saturated(t, c.key, c.now, w) }

  /** One call: outside a crowded table it answers as the log does, and represents the log's next state. */
  lemma StepRepresents(t: Table, log: Table, w: real, c: Call)
    requires Represents(t, log, c.now, w)
    ensures Crowded(t, w, c) ==>
              Step(t, w, c).1 == (if c.failClosed then Answer(false, w) else Answer(true, 0.0))
              && Represents(Step(t, w, c).0, log, c.now, w)
    ensures !Crowded(t, w, c) ==>
              Step(t, w, c).1 == LogAnswer(log, w, c) && Represents(Step(t, w, c).0, LogStep(log, w, c), c.now, w)
  {
    hide Live, Represents, Evict;
    if c.ceiling > 0 {
      var p := Prepared(t, c.key, c.now, w);
      PreparedRepresents(t, log, c.key, c.now, w);
      if !Saturated(t, c.key, c.now, w) {
        var ts, us := Get(p, c.key), Get(log, c.key);
        EntryOf(p, log, c.key, c.now, w);
        GoodLive(ts, c.now, w);
        var recent := Live(ts, c.now, w);
        if !c.isHit {
        } else if |recent| >= c.ceiling {
          UpdateRepresents(p, log, c.key, recent, us, c.now, w);
          if c.key !in log { Unchanged(p[c.key := recent], log, c.key, c.now, w); } else { assert log[c.key := us] == log; }
        } else {
          GoodAppend(recent, c.now);
          GoodAppend(us, c.now);
          LiveAppend(recent, c.now, c.now, w);
          LiveAppend(us, c.now, c.now, w);
          UpdateRepresents(p, log, c.key, recent + [c.now], us + [c.now], c.now, w);
        }
      }
    }
  }

  lemma EntryOf(t: Table, log: Table, k: Key, now: real, w: real)
    requires Represents(t, log, now, w)
    ensures Good(Get(t, k), now) && Good(Get(log, k), now) && Live(Get(t, k), now, w) == Live(Get(log, k), now, w)
  {}

  /** A key with an empty entry is a key without an entry. */
  lemma Unchanged(t: Table, log: Table, k: Key, now: real, w: real)
    requires k !in log && Represents(t, log[k := []], now, w)
    ensures Represents(t, log, now, w)
  {
    hide Live, Good;
    forall j ensures Get(log[k := []], j) == Get(log, j) {}
  }

  // ----- runs

  ghost predicate ClockForward(calls: seq<Call>) {
    forall i, j :: 0 <= i < j < |calls| ==> calls[i].now <= calls[j].now
  }

  predicate CrowdedAt(calls: seq<Call>, w: real)
    requires calls != []
  {
    Crowded(TableAfter(calls[..|calls| - 1], w), w, calls[|calls| - 1])
  }

  /** The unbounded log of the run; calls that met a crowded table are not in it. */
  function LogAfter(calls: seq<Call>, w: real): Table {
    if calls == [] then map[]
    else
      var log := LogAfter(calls[..|calls| - 1], w);
      if CrowdedAt(calls, w) then log else LogStep(log, w, calls[|calls| - 1])
  }

  lemma {:induction false} RunRepresents(calls: seq<Call>, w: real)
    requires calls != [] && ClockForward(calls)
    ensures Represents(TableAfter(calls, w), LogAfter(calls, w), calls[|calls| - 1].now, w)
    ensures Represents(TableAfter(calls[..|calls| - 1], w), LogAfter(calls[..|calls| - 1], w), calls[|calls| - 1].now, w)
  {
    hide Represents, Step, Crowded, LogStep;
    var init, c := calls[..|calls| - 1], calls[|calls| - 1];
    if init == [] {
      EmptyRepresents(c.now, w);
    } else {
      RunRepresents(init, w);
      RepresentsLater(TableAfter(init, w), LogAfter(init, w), init[|init| - 1].now, c.now, w);
    }
    StepRepresents(TableAfter(init, w), LogAfter(init, w), w, c);
  }

  lemma EmptyRepresents(now: real, w: real)
    ensures Represents(map[], map[], now, w)
  {}

  /** The table never exceeds its bound. */
  lemma TableIsBounded(calls: seq<Call>, w: real)
    requires ClockForward(calls)
    ensures |TableAfter(calls, w)| <= MAX_KEYS
  {
    if calls != [] { RunRepresents(calls, w); }
  }

  /**
   Every call answers as the unbounded log does, except in a crowded table, where an authentication key
   is refused for a whole window and any other key is let through. So eviction itself decides nothing.
   */
  lemma AnswersAsTheLog(calls: seq<Call>, w: real)
    requires calls != [] && ClockForward(calls)
    ensures var c := calls[|calls| - 1];
            AnswerTo(calls, w) ==
              if !CrowdedAt(calls, w) then LogAnswer(LogAfter(calls[..|calls| - 1], w), w, c)
              else if c.failClosed then Answer(false, w) else Answer(true, 0.0)
  {
    hide Represents, Step, LogAnswer, LogStep, Crowded;
    RunRepresents(calls, w);
    StepRepresents(TableAfter(calls[..|calls| - 1], w), LogAfter(calls[..|calls| - 1], w), w, calls[|calls| - 1]);
  }

  /** Crowded means: the key is not tracked, and as many other keys as the table holds are all live. */
  lemma CrowdedExactly(calls: seq<Call>, w: real)
    requires calls != [] && ClockForward(calls)
    ensures var t, c := TableAfter(calls[..|calls| - 1], w), calls[|calls| - 1];
            CrowdedAt(calls, w) <==>
              c.ceiling > 0 && c.key !in t && |t| == MAX_KEYS && forall k :: k in t ==> Live(t[k], c.now, w) != []
  {
    hide Live, TableAfter, LogAfter;
    RunRepresents(calls, w);
    var t, c := TableAfter(calls[..|calls| - 1], w), calls[|calls| - 1];
    CrowdedTable(t, LogAfter(calls[..|calls| - 1], w), w, c);
  }

  lemma CrowdedTable(t: Table, log: Table, w: real, c: Call)
    requires Represents(t, log, c.now, w)
    ensures Crowded(t, w, c) <==>
              c.ceiling > 0 && c.key !in t && |t| == MAX_KEYS && forall k :: k in t ==> Live(t[k], c.now, w) != []
  {
    hide Live;
    var e := Evict(t, c.now, w);
    EvictShrinks(t, c.now, w);
    forall k | k in t ensures k in e <==> Live(t[k], c.now, w) != [] {
      assert Good(Get(t, k), c.now);
      if Stale(t[k], c.now, w) { StaleHasNoneLive(t[k], c.now, w); } else { LastIsLive(t[k], c.now, w); }
    }
    if |e| >= MAX_KEYS { SameSizeSameKeys(e, t); }
    if forall k :: k in t ==> k in e { assert e.Keys == t.Keys; assert |e| == |e.Keys| && |t| == |t.Keys|; }
  }

  lemma LastIsLive(ts: seq<real>, now: real, w: real)
    requires ts != [] && IsLive(ts[|ts| - 1], now, w)
    ensures Live(ts, now, w) != []
  {
    LiveAppend(ts[..|ts| - 1], ts[|ts| - 1], now, w);
    assert ts == ts[..|ts| - 1] + [ts[|ts| - 1]];
  }

  lemma SameSizeSameKeys(e: Table, t: Table)
    requires e.Keys <= t.Keys && |e| >= |t|
    ensures e.Keys == t.Keys
  {
    var gone := t.Keys - e.Keys;
    assert t.Keys == e.Keys + gone;
    assert |t.Keys| == |e.Keys| + |gone|;
    assert |gone| == 0;
  }

  // ----- at most c hits in any window

  /** Every call on the key asks for the same ceiling and fails closed. */
  ghost predicate Disciplined(calls: seq<Call>, k: Key, c: int) {
    forall i :: 0 <= i < |calls| && calls[i].key == k ==> calls[i].ceiling == c && calls[i].failClosed
  }

  /** When the hits on k that were allowed happened. */
  function AllowedHits(calls: seq<Call>, k: Key, w: real): seq<real> {
    if calls == [] then []
    else
      var c := calls[|calls| - 1];
      AllowedHits(calls[..|calls| - 1], k, w) + if c.isHit && c.key == k && AnswerTo(calls, w).allowed then [c.now] else []
  }

  /** Any n + 1 consecutive timestamps span at least a window. */
  ghost predicate Spaced(ts: seq<real>, n: nat, w: real) { forall i :: 0 <= i && i + n < |ts| ==> ts[i + n] - ts[i] >= w }

  lemma SpacedAppend(ts: seq<real>, n: nat, now: real, w: real)
    requires n > 0 && Spaced(ts, n, w) && Good(ts, now) && |Live(ts, now, w)| < n
    ensures Spaced(ts + [now], n, w)
  {
    LiveIsSuffix(ts, now, w);
    var us := ts + [now];
    forall i | 0 <= i && i + n < |us| ensures us[i + n] - us[i] >= w {
      if i + n == |ts| { assert i < Gone(ts, now, w); }
    }
  }

  lemma {:induction false} HitsAreSpaced(calls: seq<Call>, k: Key, c: nat, w: real)
    requires c > 0 && ClockForward(calls) && Disciplined(calls, k, c)
    ensures AllowedHits(calls, k, w) == Get(LogAfter(calls, w), k) && Spaced(AllowedHits(calls, k, w), c, w)
  {
    hide TableAfter, Represents, Spaced, Live, Step, CrowdedAt;
    if calls != [] {
      var init, last := calls[..|calls| - 1], calls[|calls| - 1];
      HitsAreSpaced(init, k, c, w);
      RunRepresents(calls, w);
      AnswersAsTheLog(calls, w);
      var log := LogAfter(init, w);
      EntryOf(TableAfter(init, w), log, k, last.now, w);
      if last.key == k && last.isHit && AnswerTo(calls, w).allowed {
        SpacedAppend(Get(log, k), c, last.now, w);
      }
    } else {
      NothingIsSpaced(c, w);
    }
  }

  lemma NothingIsSpaced(n: nat, w: real)
    ensures Spaced([], n, w)
  {}

  /** How many timestamps fall into the window of length w that begins at x. */
  function CountIn(ts: seq<real>, x: real, w: real): nat {
    if ts == [] then 0
    else CountIn(ts[..|ts| - 1], x, w) + if x <= ts[|ts| - 1] < x + w then 1 else 0
  }

  lemma {:induction false} CountBeforeWindow(ts: seq<real>, x: real, w: real)
    requires forall i :: 0 <= i < |ts| ==> ts[i] < x
    ensures CountIn(ts, x, w) == 0
  {
    if ts != [] { CountBeforeWindow(ts[..|ts| - 1], x, w); }
  }

  lemma {:induction false} CountAtMostLength(ts: seq<real>, k: nat, x: real, w: real)
    requires k <= |ts| && forall i :: 0 <= i < k ==> ts[i] < x
    ensures CountIn(ts, x, w) <= |ts| - k
    decreases |ts|
  {
    if k == |ts| { CountBeforeWindow(ts, x, w); } else { CountAtMostLength(ts[..|ts| - 1], k, x, w); }
  }

  lemma {:induction false} SpacedMeansFew(ts: seq<real>, n: nat, x: real, w: real)
    requires n > 0 && Ascending(ts) && Spaced(ts, n, w)
    ensures CountIn(ts, x, w) <= n
    decreases |ts|
  {
    if ts != [] {
      var init, last := ts[..|ts| - 1], ts[|ts| - 1];
      if x <= last < x + w && |ts| > n {
        var k := |ts| - n;
        forall i | 0 <= i < k ensures ts[i] < x {
          assert ts[i + n] - ts[i] >= w;
          assert ts[i + n] <= last;
        }
        CountAtMostLength(ts, k, x, w);
      } else if |ts| <= n {
        CountAtMostLength(ts, 0, x, w);
      } else {
        SpacedMeansFew(init, n, x, w);
      }
    }
  }

  /**
   A key that always asks for ceiling c and fails closed is allowed at most c hits in any window of
   length w, over any run of calls on any keys, however often the table fills and eviction runs.
   */
  lemma AtMostCeilingPerWindow(calls: seq<Call>, k: Key, c: nat, x: real, w: real)
    requires c > 0 && ClockForward(calls) && Disciplined(calls, k, c)
    ensures CountIn(AllowedHits(calls, k, w), x, w) <= c
  {
    hide Spaced, AllowedHits, LogAfter, TableAfter;
    HitsAreSpaced(calls, k, c, w);
    if calls == [] {
      NoHits(k, x, w);
    } else {
      RunRepresents(calls, w);
      EntryOf(TableAfter(calls, w), LogAfter(calls, w), k, calls[|calls| - 1].now, w);
      SpacedMeansFew(AllowedHits(calls, k, w), c, x, w);
    }
  }

  lemma NoHits(k: Key, x: real, w: real)
    ensures CountIn(AllowedHits([], k, w), x, w) == 0
  {}

  /** How many timestamps are less than a window old. */
  function CountSince(ts: seq<real>, now: real, w: real): nat {
    if ts == [] then 0
    else CountSince(ts[..|ts| - 1], now, w) + if now - ts[|ts| - 1] < w then 1 else 0
  }

  lemma {:induction false} LiveAreCounted(ts: seq<real>, now: real, w: real)
    ensures |Live(ts, now, w)| == CountSince(ts, now, w)
  {
    hide Live;
    if ts == [] {
      NoneLive(now, w);
    } else {
      var init := ts[..|ts| - 1];
      LiveAreCounted(init, now, w);
      LiveAppend(init, ts[|ts| - 1], now, w);
      assert ts == init + [ts[|ts| - 1]];
    }
  }

  /**
   Such a key is let through exactly when the table is not crowded and fewer than c of its hits were let
   through within the last window: not one less than the ceiling promises.
   */
  lemma AllowedExactly(calls: seq<Call>, k: Key, c: nat, w: real)
    requires calls != [] && calls[|calls| - 1].key == k
    requires c > 0 && ClockForward(calls) && Disciplined(calls, k, c)
    ensures AnswerTo(calls, w).allowed <==>
              !CrowdedAt(calls, w) && CountSince(AllowedHits(calls[..|calls| - 1], k, w), calls[|calls| - 1].now, w) < c
  {
    hide Live, TableAfter, LogAfter, AllowedHits, CrowdedAt, AnswerTo;
    var init, last := calls[..|calls| - 1], calls[|calls| - 1];
    HitsAreSpaced(init, k, c, w);
    AnswersAsTheLog(calls, w);
    LiveAreCounted(AllowedHits(init, k, w), last.now, w);
  }

  // ----- peeking, and when to come back

  lemma PrepareOnce(t: Table, k: Key, now: real, w: real)
    ensures Prepared(Prepared(t, k, now, w), k, now, w) == Prepared(t, k, now, w)
  {
    var e := Evict(t, now, w);
    assert Evict(e, now, w) == e;
  }

  /** Check answers what hit would, and a hit after it answers and records as if it had not run. */
  lemma CheckChangesNothing(t: Table, w: real, k: Key, now: real, ceiling: int, failClosed: bool)
    ensures var (t', answer) := CheckSpec(t, w, k, now, ceiling, failClosed);
            && answer == HitSpec(t, w, k, now, ceiling, failClosed).1
            && HitSpec(t', w, k, now, ceiling, failClosed) == HitSpec(t, w, k, now, ceiling, failClosed)
  {
    hide Prepared, Live;
    PrepareOnce(t, k, now, w);
  }

  lemma SuffixRoom(recent: seq<real>, later: real, w: real, c: nat)
    requires Ascending(recent) && 0 < c <= |recent|
    ensures |Live(recent, later, w)| < c <==> later >= recent[|recent| - c] + w
  {
    hide Live;
    LiveIsSuffix(recent, later, w);
  }

  /** With no call in between, a refused key is allowed from the moment on at which enough hits have expired. */
  lemma AllowedFrom(t: Table, w: real, k: Key, now: real, c: nat, failClosed: bool, later: real)
    requires c > 0 && k in t && Good(t[k], now) && now <= later
    requires !HitSpec(t, w, k, now, c, failClosed).1.allowed
    ensures var recent := Live(t[k], now, w);
            var t' := HitSpec(t, w, k, now, c, failClosed).0;
            |recent| >= c && (CheckSpec(t', w, k, later, c, failClosed).1.allowed <==> later >= recent[|recent| - c] + w)
  {
    hide Live, Evict;
    var recent := Live(t[k], now, w);
    GoodLive(t[k], now, w);
    SuffixRoom(recent, later, w, c);
  }

  /**
   The advice is exact, allowed at now + retryAfter and no sooner, if and only if the oldest live hit is
   the one whose expiry makes room: always so when as many hits are live as the ceiling allows.
   */
  lemma RetryIsExact(t: Table, w: real, k: Key, now: real, c: nat, failClosed: bool)
    requires c > 0 && k in t && Good(t[k], now)
    requires !HitSpec(t, w, k, now, c, failClosed).1.allowed
    ensures var recent := Live(t[k], now, w);
            var (t', answer) := HitSpec(t, w, k, now, c, failClosed);
            && |recent| >= c
            && ((forall later :: later >= now ==>
                   (CheckSpec(t', w, k, later, c, failClosed).1.allowed <==> later >= now + answer.retryAfter))
                <==> recent[|recent| - c] == recent[0])
  {
    hide Live;
    var recent := Live(t[k], now, w);
    AllowedFrom(t, w, k, now, c, failClosed, now);
    GoodLive(t[k], now, w);
    LiveIsSuffix(t[k], now, w);
    var (t', answer) := HitSpec(t, w, k, now, c, failClosed);
    assert IsLive(recent[0], now, w);
    var due := recent[|recent| - c] + w;
    assert now + answer.retryAfter == recent[0] + w;
    assert recent[0] <= recent[|recent| - c];
    forall later | later >= now
      ensures CheckSpec(t', w, k, later, c, failClosed).1.allowed <==> later >= due
    { AllowedFrom(t, w, k, now, c, failClosed, later); }
    if recent[|recent| - c] != recent[0] {
      assert !CheckSpec(t', w, k, now + answer.retryAfter, c, failClosed).1.allowed;
    }
  }

  /** A key whose calls all ask for one ceiling never has more timestamps than that. */
  lemma {:induction false} EntryWithinCeiling(calls: seq<Call>, k: Key, c: nat, w: real)
    requires c > 0 && forall i :: 0 <= i < |calls| && calls[i].key == k ==> calls[i].ceiling == c
    ensures |Get(TableAfter(calls, w), k)| <= c
  {
    hide Live, Evict;
    if calls != [] {
      var init, last := calls[..|calls| - 1], calls[|calls| - 1];
      EntryWithinCeiling(init, k, c, w);
      StepWithinCeiling(TableAfter(init, w), w, last, k, c);
    }
  }

  lemma {:induction false} LiveIsShorter(ts: seq<real>, now: real, w: real)
    ensures |Live(ts, now, w)| <= |ts|
  {
    if ts != [] { LiveIsShorter(ts[1..], now, w); }
  }

  lemma StepWithinCeiling(t: Table, w: real, last: Call, k: Key, c: nat)
    requires |Get(t, k)| <= c && (last.key == k ==> last.ceiling == c)
    ensures |Get(Step(t, w, last).0, k)| <= c
  {
    hide Live;
    LiveIsShorter(Get(Prepared(t, last.key, last.now, w), last.key), last.now, w);
  }

  /** So for a constant ceiling the advice given to a refused tracked key is exact, at any point of any run. */
  lemma ConstantCeilingRetryIsExact(calls: seq<Call>, k: Key, c: nat, w: real, now: real, failClosed: bool)
    requires c > 0 && ClockForward(calls) && forall i :: 0 <= i < |calls| && calls[i].key == k ==> calls[i].ceiling == c
    requires calls != [] && calls[|calls| - 1].now <= now && k in TableAfter(calls, w)
    requires !HitSpec(TableAfter(calls, w), w, k, now, c, failClosed).1.allowed
    ensures var (t', answer) := HitSpec(TableAfter(calls, w), w, k, now, c, failClosed);
            forall later :: later >= now ==>
              (CheckSpec(t', w, k, later, c, failClosed).1.allowed <==> later >= now + answer.retryAfter)
  {
    hide Live, HitSpec, CheckSpec, TableAfter, LogAfter;
    var t := TableAfter(calls, w);
    RunRepresents(calls, w);
    RepresentsLater(t, LogAfter(calls, w), calls[|calls| - 1].now, now, w);
    EntryOf(t, LogAfter(calls, w), k, now, w);
    EntryWithinCeiling(calls, k, c, w);
    LiveIsShorter(t[k], now, w);
    RetryIsExact(t, w, k, now, c, failClosed);
  }
}
