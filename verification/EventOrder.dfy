/**
 When a stream that need not be in version order is read as promised: affected when the latest introduction,
 fix or limit at or before the version is an introduction, and the version is above no last-affected event.
 */
module EventOrder {
  import opened Versioning
  import opened EventRange

  /** Only events that open or close a range, each with a version the ecosystem orders. */
  ghost predicate Plain(eco: Ecosystem, s: seq<Event>) {
    AllOrdered(eco, s) && forall i :: 0 <= i < |s| ==> !s[i].kind.LastAffected?
  }

  /** e stands at or before f in version order. */
  predicate AtOrBefore(p: Patterns, eco: Ecosystem, e: Event, f: Event) {
    FromBeginning(e) || (!FromBeginning(f) && Compare(p, e.raw, f.raw, eco) <= 0)
  }

  /** Event i is the latest event at or before v: by version, and by place in the stream where versions tie. */
  ghost predicate IsLatest(p: Patterns, eco: Ecosystem, v: string, s: seq<Event>, i: nat) {
    && i < |s| && Reached(p, eco, v, s[i])
    && forall k :: 0 <= k < |s| && Reached(p, eco, v, s[k]) ==>
         AtOrBefore(p, eco, s[k], s[i]) && (k > i ==> !AtOrBefore(p, eco, s[i], s[k]))
  }

  /** What the documentation promises of introductions, fixes and limits. */
  ghost predicate PromisedAffected(p: Patterns, eco: Ecosystem, v: string, s: seq<Event>) {
    exists i: nat :: IsLatest(p, eco, v, s, i) && s[i].kind.Introduced?
  }

  /** j is the last place in the stream with an event at or before event i. */
  ghost predicate LastAtOrBefore(p: Patterns, eco: Ecosystem, s: seq<Event>, i: nat, j: nat) {
    && i < |s| && j < |s| && AtOrBefore(p, eco, s[j], s[i])
    && forall k :: j < k < |s| ==> !AtOrBefore(p, eco, s[k], s[i])
  }

  /** No later event of the stream has the same version. */
  ghost predicate LastOfItsVersion(p: Patterns, eco: Ecosystem, s: seq<Event>, i: nat) {
    i < |s| && forall k :: i < k < |s| && AtOrBefore(p, eco, s[k], s[i]) ==> !AtOrBefore(p, eco, s[i], s[k])
  }

  /** The stream the first loop goes by: its last-affected branch never runs. */
  function WithoutLastAffected(s: seq<Event>): seq<Event> {
    if s == [] then []
    else
      var last := s[|s| - 1];
      WithoutLastAffected(s[..|s| - 1]) + if last.kind.LastAffected? then [] else [last]
  }

  /** What the documentation promises of a whole stream: above a last-affected event nothing is affected. */
  ghost predicate Promised(p: Patterns, eco: Ecosystem, v: string, events: seq<Event>) {
    && PromisedAffected(p, eco, v, WithoutLastAffected(BeginningsFirst(events)))
    && !BeyondLastAffected(p, eco, v, events)
  }

  /**
   An event followed by ones at or before it is of one kind, opening or closing, with the last of those.
   Events above a last-affected one need not be.
   */
  ghost predicate Settled(p: Patterns, eco: Ecosystem, s: seq<Event>, events: seq<Event>) {
    forall i: nat, j: nat ::
      LastOfItsVersion(p, eco, s, i) && LastAtOrBefore(p, eco, s, i, j)
      && !BeyondLastAffected(p, eco, s[i].raw, events) ==>
        (s[i].kind.Introduced? <==> s[j].kind.Introduced?)
  }

  // ----- the order of events

  lemma EventsTransitive(p: Patterns, eco: Ecosystem, e: Event, f: Event, g: Event)
    requires FromBeginning(e) || Ordered(eco, e.raw)
    requires FromBeginning(f) || Ordered(eco, f.raw)
    requires FromBeginning(g) || Ordered(eco, g.raw)
    requires AtOrBefore(p, eco, e, f) && AtOrBefore(p, eco, f, g)
    ensures AtOrBefore(p, eco, e, g)
  {
    hide Compare, Ordered, FromBeginning;
    if !FromBeginning(e) { CompareTransitive(p, e.raw, f.raw, g.raw, eco); }
  }

  lemma EventsTotal(p: Patterns, eco: Ecosystem, e: Event, f: Event)
    ensures AtOrBefore(p, eco, e, f) || AtOrBefore(p, eco, f, e)
  {
    hide Compare;
    CompareAntisymmetric(p, e.raw, f.raw, eco);
  }

  /** Of the events at or before a reached one, all are reached. */
  lemma ReachedByEvent(p: Patterns, eco: Ecosystem, v: string, e: Event, f: Event)
    requires Ordered(eco, v) && (FromBeginning(e) || Ordered(eco, e.raw)) && (FromBeginning(f) || Ordered(eco, f.raw))
    requires AtOrBefore(p, eco, e, f) && Reached(p, eco, v, f)
    ensures Reached(p, eco, v, e)
  {
    hide Compare, Ordered, FromBeginning, Reached, Passed;
    ReachedByOrder(p, eco, v, e);
    ReachedByOrder(p, eco, v, f);
    if !FromBeginning(e) { CompareTransitive(p, e.raw, f.raw, v, eco); }
  }

  /** The version of an event reaches exactly the events at or before it. */
  lemma ReachedFromEvent(p: Patterns, eco: Ecosystem, e: Event, f: Event)
    requires !FromBeginning(f) && Ordered(eco, f.raw) && (FromBeginning(e) || Ordered(eco, e.raw))
    ensures Reached(p, eco, f.raw, e) <==> AtOrBefore(p, eco, e, f)
  {
    hide Compare, Ordered, FromBeginning, Reached, Passed;
    ReachedByOrder(p, eco, f.raw, e);
  }

  // ----- the last reached event of a stream, and the latest one

  lemma {:induction false} LastReached(p: Patterns, eco: Ecosystem, v: string, s: seq<Event>, n: nat) returns (j: int)
    requires n <= |s|
    ensures -1 <= j < n && (j >= 0 ==> Reached(p, eco, v, s[j]))
    ensures forall k :: j < k < n ==> !Reached(p, eco, v, s[k])
  {
    hide Reached;
    if n == 0 { j := -1; } else if Reached(p, eco, v, s[n - 1]) { j := n - 1; } else { j := LastReached(p, eco, v, s, n - 1); }
  }

  /** Up to n, the latest reached event. */
  lemma {:induction false} LatestReached(p: Patterns, eco: Ecosystem, v: string, s: seq<Event>, n: nat) returns (i: int)
    requires n <= |s| && AllOrdered(eco, s)
    ensures -1 <= i < n && (i >= 0 ==> Reached(p, eco, v, s[i]))
    ensures i == -1 ==> forall k :: 0 <= k < n ==> !Reached(p, eco, v, s[k])
    ensures i >= 0 ==> forall k :: 0 <= k < n && Reached(p, eco, v, s[k]) ==>
              AtOrBefore(p, eco, s[k], s[i]) && (k > i ==> !AtOrBefore(p, eco, s[i], s[k]))
  {
    hide Reached, AtOrBefore, Ordered, FromBeginning;
    if n == 0 { return -1; }
    i := LatestReached(p, eco, v, s, n - 1);
    if !Reached(p, eco, v, s[n - 1]) { return; }
    var last := s[n - 1];
    assert forall k :: 0 <= k < n ==> s[k] in s;
    if i < 0 {
      EventsTotal(p, eco, last, last);
      return n - 1;
    }
    EventsTotal(p, eco, s[i], last);
    if AtOrBefore(p, eco, s[i], last) {
      forall k | 0 <= k < n && Reached(p, eco, v, s[k]) ensures AtOrBefore(p, eco, s[k], last) {
        if k < n - 1 { EventsTransitive(p, eco, s[k], s[i], last); } else { EventsTotal(p, eco, last, last); }
      }
      i := n - 1;
    }
  }

  /** What the source answers for a plain stream: the last reached event of the stream is an introduction. */
  lemma LastReachedDecides(p: Patterns, eco: Ecosystem, v: string, s: seq<Event>, j: int)
    requires Plain(eco, s) && -1 <= j < |s| && (j >= 0 ==> Reached(p, eco, v, s[j]))
    requires forall k :: j < k < |s| ==> !Reached(p, eco, v, s[k])
    ensures OpenAtEnd(p, eco, v, s) <==> j >= 0 && s[j].kind.Introduced?
  {
    hide Reached;
    if j >= 0 && s[j].kind.Introduced? { assert Opens(p, eco, v, s[j]); }
    if OpenAtEnd(p, eco, v, s) {
      var i :| 0 <= i < |s| && Opens(p, eco, v, s[i]) && forall k :: i < k < |s| ==> !Closes(p, eco, v, s[k]);
      assert i <= j;
      if i < j { assert !Closes(p, eco, v, s[j]); }
    }
  }

  lemma LatestIsUnique(p: Patterns, eco: Ecosystem, v: string, s: seq<Event>, i: nat, j: nat)
    requires IsLatest(p, eco, v, s, i) && IsLatest(p, eco, v, s, j)
    ensures i == j
  {
    hide Reached, AtOrBefore;
  }

  // ----- exactly the settled streams are read as promised

  /** Below every last-affected event the answer of a settled stream is the promised one. */
  lemma SettledAnswers(p: Patterns, eco: Ecosystem, v: string, s: seq<Event>, events: seq<Event>)
    requires Plain(eco, s) && AllOrdered(eco, events) && Ordered(eco, v) && Settled(p, eco, s, events)
    requires !BeyondLastAffected(p, eco, v, events)
    ensures OpenAtEnd(p, eco, v, s) <==> PromisedAffected(p, eco, v, s)
  {
    hide Reached, AtOrBefore, Ordered, FromBeginning, OpenAtEnd, BeyondLastAffected;
    var j := LastReached(p, eco, v, s, |s|);
    LastReachedDecides(p, eco, v, s, j);
    var i := LatestReached(p, eco, v, s, |s|);
    if i >= 0 {
      assert IsLatest(p, eco, v, s, i);
      forall k | 0 <= k < |s| ensures AtOrBefore(p, eco, s[k], s[i]) <==> Reached(p, eco, v, s[k]) {
        assert s[k] in s && s[i] in s;
        if AtOrBefore(p, eco, s[k], s[i]) { ReachedByEvent(p, eco, v, s[k], s[i]); }
      }
      assert LastOfItsVersion(p, eco, s, i) && LastAtOrBefore(p, eco, s, i, j);
      if FromBeginning(s[i]) { BeginningsOpen(p, eco, s, i, j); } else { BelowIsNotBeyond(p, eco, v, s[i], events); }
      forall l: nat | IsLatest(p, eco, v, s, l) ensures l == i { LatestIsUnique(p, eco, v, s, l, i); }
    }
  }

  /** An event at or before v is above no last-affected event that v is not above. */
  lemma BelowIsNotBeyond(p: Patterns, eco: Ecosystem, v: string, e: Event, events: seq<Event>)
    requires AllOrdered(eco, events) && Ordered(eco, v) && Ordered(eco, e.raw) && !FromBeginning(e) && Reached(p, eco, v, e)
    requires !BeyondLastAffected(p, eco, v, events)
    ensures !BeyondLastAffected(p, eco, e.raw, events)
  {
    hide Compare, Ordered, Reached, Passed;
    ReachedByOrder(p, eco, v, e);
    if BeyondLastAffected(p, eco, e.raw, events) {
      var f :| f in events && f.kind.LastAffected? && Passed(p, eco, e.raw, f);
      ReachedByOrder(p, eco, e.raw, f);
      CompareStrict(p, f.raw, e.raw, v, eco);
      ReachedByOrder(p, eco, v, f);
    }
  }

  lemma BeginningsOpen(p: Patterns, eco: Ecosystem, s: seq<Event>, i: nat, j: nat)
    requires LastAtOrBefore(p, eco, s, i, j) && FromBeginning(s[i])
    ensures s[i].kind.Introduced? && s[j].kind.Introduced?
  {}

  /** At the version of an event, that event or a later one of its version is the latest. */
  lemma EventIsLatest(p: Patterns, eco: Ecosystem, s: seq<Event>, i: nat, j: nat)
    requires Plain(eco, s) && LastOfItsVersion(p, eco, s, i) && LastAtOrBefore(p, eco, s, i, j) && !FromBeginning(s[i])
    ensures IsLatest(p, eco, s[i].raw, s, i)
    ensures OpenAtEnd(p, eco, s[i].raw, s) <==> s[j].kind.Introduced?
  {
    hide Reached, AtOrBefore, Ordered, OpenAtEnd, FromBeginning;
    assert forall k :: 0 <= k < |s| ==> s[k] in s;
    forall k | 0 <= k < |s| ensures Reached(p, eco, s[i].raw, s[k]) <==> AtOrBefore(p, eco, s[k], s[i]) {
      ReachedFromEvent(p, eco, s[k], s[i]);
    }
    EventsTotal(p, eco, s[i], s[i]);
    LastReachedDecides(p, eco, s[i].raw, s, j);
  }

  lemma PromiseAtLatest(p: Patterns, eco: Ecosystem, v: string, s: seq<Event>, i: nat)
    requires IsLatest(p, eco, v, s, i)
    ensures PromisedAffected(p, eco, v, s) <==> s[i].kind.Introduced?
  {
    hide Reached, AtOrBefore;
    forall l: nat | IsLatest(p, eco, v, s, l) ensures l == i { LatestIsUnique(p, eco, v, s, l, i); }
  }

  /** Where the promise is kept at its version, an event agrees with the last one at or before it. */
  lemma KeptMeansSettled(p: Patterns, eco: Ecosystem, s: seq<Event>, i: nat, j: nat)
    requires Plain(eco, s) && LastOfItsVersion(p, eco, s, i) && LastAtOrBefore(p, eco, s, i, j)
    requires Ordered(eco, s[i].raw) ==> (OpenAtEnd(p, eco, s[i].raw, s) <==> PromisedAffected(p, eco, s[i].raw, s))
    ensures s[i].kind.Introduced? <==> s[j].kind.Introduced?
  {
    hide Ordered, OpenAtEnd, PromisedAffected, AtOrBefore, FromBeginning;
    if FromBeginning(s[i]) {
      BeginningsOpen(p, eco, s, i, j);
    } else {
      assert s[i] in s;
      EventIsLatest(p, eco, s, i, j);
      PromiseAtLatest(p, eco, s[i].raw, s, i);
    }
  }

  /** The promise is kept for every version if and only if the stream is settled. */
  lemma PromiseKeptExactly(p: Patterns, eco: Ecosystem, s: seq<Event>, events: seq<Event>)
    requires Plain(eco, s) && AllOrdered(eco, events)
    ensures (forall v :: Ordered(eco, v) && !BeyondLastAffected(p, eco, v, events) ==>
                           (OpenAtEnd(p, eco, v, s) <==> PromisedAffected(p, eco, v, s)))
       <==> Settled(p, eco, s, events)
  {
    hide Ordered, OpenAtEnd, PromisedAffected, AtOrBefore, BeyondLastAffected, AllOrdered;
    if Settled(p, eco, s, events) {
      forall v | Ordered(eco, v) && !BeyondLastAffected(p, eco, v, events)
        ensures OpenAtEnd(p, eco, v, s) <==> PromisedAffected(p, eco, v, s)
      {
        SettledAnswers(p, eco, v, s, events);
      }
    }
    if forall v :: Ordered(eco, v) && !BeyondLastAffected(p, eco, v, events) ==>
                     (OpenAtEnd(p, eco, v, s) <==> PromisedAffected(p, eco, v, s)) {
      forall i: nat, j: nat | LastOfItsVersion(p, eco, s, i) && LastAtOrBefore(p, eco, s, i, j)
                              && !BeyondLastAffected(p, eco, s[i].raw, events)
        ensures s[i].kind.Introduced? <==> s[j].kind.Introduced?
      {
        KeptMeansSettled(p, eco, s, i, j);
      }
    }
  }

  // ----- the same for the range evaluation itself, which first moves the beginning of time to the front

  lemma {:induction false} WithoutLastAffectedMembers(s: seq<Event>)
    ensures forall e :: e in WithoutLastAffected(s) <==> e in s && !e.kind.LastAffected?
  {
    if s != [] {
      WithoutLastAffectedMembers(s[..|s| - 1]);
      assert s == s[..|s| - 1] + [s[|s| - 1]];
    }
  }

  lemma {:induction false} LastAffectedNeverCloses(p: Patterns, eco: Ecosystem, v: string, s: seq<Event>)
    ensures OpenAtEnd(p, eco, v, s) <==> OpenAtEnd(p, eco, v, WithoutLastAffected(s))
  {
    hide OpenAtEnd, Reached;
    if s != [] {
      var init, last := s[..|s| - 1], s[|s| - 1];
      LastAffectedNeverCloses(p, eco, v, init);
      assert s == init + [last];
      OneMoreEvent(p, eco, v, init, last);
      OneMoreEvent(p, eco, v, WithoutLastAffected(init), last);
      assert WithoutLastAffected(init) + [] == WithoutLastAffected(init);
    }
  }

  lemma WithoutLastAffectedIsPlain(eco: Ecosystem, events: seq<Event>)
    requires AllOrdered(eco, events)
    ensures Plain(eco, WithoutLastAffected(BeginningsFirst(events)))
  {
    hide WithoutLastAffected, BeginningsFirst, FromBeginning, Ordered;
    SortKeepsMembers(events);
    WithoutLastAffectedMembers(BeginningsFirst(events));
    var s := WithoutLastAffected(BeginningsFirst(events));
    forall i | 0 <= i < |s| ensures !s[i].kind.LastAffected? { assert s[i] in s; }
  }

  /** In any stream, every version gets the promised answer if and only if the stream is settled. */
  lemma RangeKeepsPromiseExactly(p: Patterns, eco: Ecosystem, events: seq<Event>)
    requires AllOrdered(eco, events)
    ensures (forall v :: Ordered(eco, v) ==> (Affected(p, eco, v, events) <==> Promised(p, eco, v, events)))
       <==> Settled(p, eco, WithoutLastAffected(BeginningsFirst(events)), events)
  {
    hide Ordered, OpenAtEnd, PromisedAffected, Settled, BeginningsFirst, WithoutLastAffected, BeyondLastAffected, AllOrdered, Plain;
    var s := WithoutLastAffected(BeginningsFirst(events));
    WithoutLastAffectedIsPlain(eco, events);
    forall v ensures Affected(p, eco, v, events) <==> OpenAtEnd(p, eco, v, s) && !BeyondLastAffected(p, eco, v, events) {
      LastAffectedNeverCloses(p, eco, v, BeginningsFirst(events));
    }
    PromiseKeptExactly(p, eco, s, events);
  }

  lemma TwoWithoutLastAffected(e: Event, f: Event)
    requires !e.kind.LastAffected? && !f.kind.LastAffected?
    ensures WithoutLastAffected([e, f]) == [e, f]
  {
    assert [e, f][..1] == [e] && [e][..0] == [];
    assert WithoutLastAffected([e]) == [e];
  }

  lemma LastOpens(p: Patterns, eco: Ecosystem, v: string, e: Event, f: Event)
    requires e.kind.Fixed? && f.kind.Introduced? && !FromBeginning(f) && Opens(p, eco, v, f)
    ensures Affected(p, eco, v, [e, f])
  {
    hide Opens, Passed, BeginningsFirst;
    var events := [e, f];
    assert BeginningsLead(events);
    LeadingIsKept(events);
    assert Opens(p, eco, v, events[1]);
  }

  lemma FixIsLatest(p: Patterns, eco: Ecosystem, v: string, e: Event, f: Event)
    requires e.kind.Fixed? && f.kind.Introduced? && !FromBeginning(f)
    requires Reached(p, eco, v, e) && !AtOrBefore(p, eco, e, f)
    ensures !Promised(p, eco, v, [e, f])
  {
    hide Reached, AtOrBefore, BeginningsFirst, WithoutLastAffected;
    var events := [e, f];
    assert BeginningsLead(events);
    LeadingIsKept(events);
    TwoWithoutLastAffected(e, f);
    assert events[0] == e && events[1] == f;
  }

  /** Out of order, an introduction listed behind its fix marks every fixed version as affected, against the promise. */
  lemma IntroductionBehindItsFix(p: Patterns, eco: Ecosystem, introduced: string, fixed: string, v: string)
    requires Ordered(eco, introduced) && Ordered(eco, fixed) && Ordered(eco, v) && introduced != "0" && introduced != ""
    requires Compare(p, introduced, fixed, eco) < 0 && Compare(p, fixed, v, eco) <= 0
    ensures var events := [Event(Fixed, fixed), Event(Introduced, introduced)];
            Affected(p, eco, v, events) && !Promised(p, eco, v, events)
  {
    hide Compare, Affected, Promised, Reached, Passed, Ordered;
    var e, f := Event(Fixed, fixed), Event(Introduced, introduced);
    ReachedByOrder(p, eco, v, e);
    ReachedByOrder(p, eco, v, f);
    CompareStrict(p, introduced, fixed, v, eco);
    CompareAntisymmetric(p, introduced, fixed, eco);
    LastOpens(p, eco, v, e, f);
    FixIsLatest(p, eco, v, e, f);
  }

  lemma UnorderedStreamIsMisread(p: Patterns)
    ensures var events := [Event(Fixed, "2"), Event(Introduced, "1")];
            Affected(p, DebianEco, "3", events) && !Promised(p, DebianEco, "3", events)
  {
    hide Affected, Promised, Compare, Ordered;
    DigitVersions(p, '1', '2');
    DigitVersions(p, '2', '3');
    IntroductionBehindItsFix(p, DebianEco, "1", "2", "3");
  }
}
