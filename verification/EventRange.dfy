/** Affected ranges given as a stream of introduced, fixed, limit and last-affected events. */
module EventRange {
  import opened Options
  import opened VersionKeys
  import opened Versioning
  import opened Text
  import Evr
  import Debian

  datatype Kind = Introduced | Fixed | LastAffected | Limit

  datatype Event = Event(kind: Kind, raw: string)

  /** introduced at "0" or "" stands for the beginning of time, below every version. */
  predicate FromBeginning(e: Event) { e.kind.Introduced? && (e.raw == "0" || e.raw == "") }

  /** The event is at or before v. Keys that do not compare count as not reached. */
  predicate Reached(p: Patterns, eco: Ecosystem, v: string, e: Event) {
    FromBeginning(e) ||
    var c := CompareAny(KeyOf(p, v, eco), KeyOf(p, e.raw, eco));
    c.Some? && c.value >= 0
  }

  /** The event is strictly before v. */
  predicate Passed(p: Patterns, eco: Ecosystem, v: string, e: Event) {
    FromBeginning(e) ||
    var c := CompareAny(KeyOf(p, e.raw, eco), KeyOf(p, v, eco));
    c.Some? && c.value < 0
  }

  function Keep(events: seq<Event>, beginning: bool): seq<Event> {
    if events == [] then []
    else (if FromBeginning(events[0]) == beginning then [events[0]] else []) + Keep(events[1..], beginning)
  }

  /** The stable sort of the source, which only moves the from-the-beginning events to the front. */
  function BeginningsFirst(events: seq<Event>): seq<Event> {
    Keep(events, true) + Keep(events, false)
  }

  lemma {:induction false} KeepMembers(events: seq<Event>, beginning: bool)
    ensures forall e :: e in Keep(events, beginning) <==> e in events && FromBeginning(e) == beginning
  {
    hide FromBeginning;
    if events != [] { KeepMembers(events[1..], beginning); }
  }

  lemma SortKeepsMembers(events: seq<Event>)
    ensures forall e :: e in BeginningsFirst(events) <==> e in events
  {
    hide Keep, FromBeginning;
    KeepMembers(events, true);
    KeepMembers(events, false);
  }

  predicate Opens(p: Patterns, eco: Ecosystem, v: string, e: Event) {
    e.kind.Introduced? && Reached(p, eco, v, e)
  }

  predicate Closes(p: Patterns, eco: Ecosystem, v: string, e: Event) {
    (e.kind.Fixed? || e.kind.Limit?) && Reached(p, eco, v, e)
  }

  /** Some reached introduction has no reached fix behind it in the stream. */
  ghost predicate OpenAtEnd(p: Patterns, eco: Ecosystem, v: string, events: seq<Event>) {
    exists i :: 0 <= i < |events| && Opens(p, eco, v, events[i])
                && forall j :: i < j < |events| ==> !Closes(p, eco, v, events[j])
  }

  ghost predicate BeyondLastAffected(p: Patterns, eco: Ecosystem, v: string, events: seq<Event>) {
    exists e :: e in events && e.kind.LastAffected? && Passed(p, eco, v, e)
  }

  /** What the source decides for any stream, ordered or not. */
  ghost predicate Affected(p: Patterns, eco: Ecosystem, v: string, events: seq<Event>) {
    OpenAtEnd(p, eco, v, BeginningsFirst(events)) && !BeyondLastAffected(p, eco, v, events)
  }

  lemma NotBothPassedAndUnreached(p: Patterns, eco: Ecosystem, v: string, e: Event)
    ensures Passed(p, eco, v, e) ==> Reached(p, eco, v, e)
  {
    hide KeyOf, CompareKey, Evr.Compare;
    var x, y := KeyOf(p, e.raw, eco), KeyOf(p, v, eco);
    if x.Tuple? && y.Tuple? && CompareKey(x.key, y.key).Some? { KeyAntisymmetric(x.key, y.key); }
    if x.EvrKey? && y.EvrKey? && x.scheme == y.scheme { Evr.Antisymmetric(x.scheme, x.evr, y.evr); }
  }

  /** The first loop: the last reached event decides. Its last-affected branch can never run. */
  method ScanStream(p: Patterns, eco: Ecosystem, v: string, ordered: seq<Event>) returns (affected: bool)
    ensures affected <==> OpenAtEnd(p, eco, v, ordered)
  {
    hide Passed, Reached;
    affected := false;
    for n := 0 to |ordered|
      invariant affected <==> OpenAtEnd(p, eco, v, ordered[..n])
    {
      var e := ordered[n];
      NotBothPassedAndUnreached(p, eco, v, e);
      OneMoreEvent(p, eco, v, ordered[..n], e);
      assert ordered[..n + 1] == ordered[..n] + [e];
      if e.kind.Introduced? && Reached(p, eco, v, e) {
        affected := true;
      } else if (e.kind.Fixed? || e.kind.Limit?) && Reached(p, eco, v, e) {
        affected := false;
      } else if e.kind.LastAffected? && Passed(p, eco, v, e) && !Reached(p, eco, v, e) {
        affected := false;
      }
    }
    assert ordered[..|ordered|] == ordered;
  }

  /** The two loops of the source. */
  method InEventRange(p: Patterns, eco: Ecosystem, v: string, events: seq<Event>) returns (affected: bool)
    ensures affected <==> Affected(p, eco, v, events)
  {
    hide Passed, OpenAtEnd, Keep;
    SortKeepsMembers(events);
    var ordered := BeginningsFirst(events);
    if events == [] {
      assert ordered == [] by { KeepAll(events, true); }
      NothingOpens(p, eco, v);
      return false;
    }
    affected := ScanStream(p, eco, v, ordered);
    for n := 0 to |ordered|
      invariant affected <==> OpenAtEnd(p, eco, v, ordered) && !BeyondLastAffected(p, eco, v, ordered[..n])
    {
      var e := ordered[n];
      assert ordered[..n + 1] == ordered[..n] + [e];
      if e.kind.LastAffected? && !FromBeginning(e) && Passed(p, eco, v, e) { affected := false; }
    }
    assert ordered[..|ordered|] == ordered;
  }

  lemma NothingOpens(p: Patterns, eco: Ecosystem, v: string)
    ensures !OpenAtEnd(p, eco, v, [])
  {}

  lemma OneMoreEvent(p: Patterns, eco: Ecosystem, v: string, events: seq<Event>, e: Event)
    ensures OpenAtEnd(p, eco, v, events + [e])
       <==> Opens(p, eco, v, e) || (OpenAtEnd(p, eco, v, events) && !Closes(p, eco, v, e))
  {
    hide Opens, Closes, OpenAtEnd;
    var all := events + [e];
    assert all[|all| - 1] == e && all[..|all| - 1] == events;
    if Opens(p, eco, v, e) { OpenedLast(p, eco, v, events, e); }
    if OpenAtEnd(p, eco, v, events) && !Closes(p, eco, v, e) { StaysOpen(p, eco, v, events, e); }
    if OpenAtEnd(p, eco, v, all) && !Opens(p, eco, v, e) { StillOpen(p, eco, v, all); }
  }

  lemma OpenedLast(p: Patterns, eco: Ecosystem, v: string, events: seq<Event>, e: Event)
    requires Opens(p, eco, v, e)
    ensures OpenAtEnd(p, eco, v, events + [e])
  {
    hide Opens, Closes;
    var all := events + [e];
    assert Opens(p, eco, v, all[|events|]);
  }

  lemma StaysOpen(p: Patterns, eco: Ecosystem, v: string, events: seq<Event>, e: Event)
    requires OpenAtEnd(p, eco, v, events) && !Closes(p, eco, v, e)
    ensures OpenAtEnd(p, eco, v, events + [e])
  {
    hide Opens, Closes;
    var all, n := events + [e], |events|;
    var i :| 0 <= i < n && Opens(p, eco, v, events[i]) && forall j :: i < j < n ==> !Closes(p, eco, v, events[j]);
    assert Opens(p, eco, v, all[i]);
    forall j | i < j < |all| ensures !Closes(p, eco, v, all[j]) {
      if j < n { assert all[j] == events[j]; }
    }
  }

  lemma StillOpen(p: Patterns, eco: Ecosystem, v: string, all: seq<Event>)
    requires all != [] && OpenAtEnd(p, eco, v, all) && !Opens(p, eco, v, all[|all| - 1])
    ensures OpenAtEnd(p, eco, v, all[..|all| - 1]) && !Closes(p, eco, v, all[|all| - 1])
  {
    hide Opens, Closes;
    var i :| 0 <= i < |all| && Opens(p, eco, v, all[i]) && forall j :: i < j < |all| ==> !Closes(p, eco, v, all[j]);
    assert Opens(p, eco, v, all[..|all| - 1][i]);
  }

  // ----- streams in version order: the answer is membership in an interval

  /** Ascending order, the beginning of time below everything. */
  ghost predicate Ascending(p: Patterns, eco: Ecosystem, events: seq<Event>) {
    forall i, j :: 0 <= i < j < |events| ==>
      FromBeginning(events[i]) ||
      (!FromBeginning(events[j]) && Compare(p, events[i].raw, events[j].raw, eco) <= 0)
  }

  ghost predicate AllOrdered(eco: Ecosystem, events: seq<Event>) {
    forall e :: e in events ==> FromBeginning(e) || Ordered(eco, e.raw)
  }

  /** Events of different kinds stand at different versions. */
  ghost predicate KindsStandApart(p: Patterns, eco: Ecosystem, events: seq<Event>) {
    forall i, j :: 0 <= i < j < |events| && events[i].kind != events[j].kind ==>
      FromBeginning(events[i]) || Compare(p, events[i].raw, events[j].raw, eco) < 0
  }

  /** A fix or limit listed behind a last-affected event stands above it. */
  ghost predicate FixesStandAbove(p: Patterns, eco: Ecosystem, events: seq<Event>) {
    forall i, j :: 0 <= i < j < |events| && events[i].kind.LastAffected? && (events[j].kind.Fixed? || events[j].kind.Limit?) ==>
      Compare(p, events[i].raw, events[j].raw, eco) < 0
  }

  /** Nothing is introduced behind a last-affected event. */
  ghost predicate NoneAfterLastAffected(events: seq<Event>) {
    forall k, i :: 0 <= k < i < |events| && events[k].kind.LastAffected? ==> !events[i].kind.Introduced?
  }

  /** The first event from position i on that ends an interval, or the length of the stream. */
  function NextStop(events: seq<Event>, i: nat): (j: nat)
    requires i <= |events|
    ensures i <= j <= |events| && (j < |events| ==> !events[j].kind.Introduced?)
    ensures forall k :: i <= k < j ==> events[k].kind.Introduced?
    decreases |events| - i
  {
    if i == |events| || !events[i].kind.Introduced? then i else NextStop(events, i + 1)
  }

  /** v is in the interval event i opens: up to a fix or limit exclusively, to a last-affected inclusively. */
  ghost predicate InInterval(p: Patterns, eco: Ecosystem, v: string, events: seq<Event>, i: nat)
    requires i < |events|
  {
    var j := NextStop(events, i + 1);
    Opens(p, eco, v, events[i]) &&
    (j < |events| ==> if events[j].kind.LastAffected? then !Passed(p, eco, v, events[j])
                      else !Reached(p, eco, v, events[j]))
  }

  lemma {:induction false} KeepAll(events: seq<Event>, beginning: bool)
    requires forall i :: 0 <= i < |events| ==> FromBeginning(events[i]) == beginning
    ensures Keep(events, beginning) == events && Keep(events, !beginning) == []
  {
    if events != [] { KeepAll(events[1..], beginning); }
  }

  ghost predicate BeginningsLead(events: seq<Event>) {
    forall i, j :: 0 <= i < j < |events| && FromBeginning(events[j]) ==> FromBeginning(events[i])
  }

  lemma {:induction false} LeadingIsKept(events: seq<Event>)
    requires BeginningsLead(events)
    ensures BeginningsFirst(events) == events
  {
    hide FromBeginning;
    if events != [] {
      if FromBeginning(events[0]) {
        LeadingIsKept(events[1..]);
        assert Keep(events, true) == [events[0]] + Keep(events[1..], true);
        assert Keep(events, false) == Keep(events[1..], false);
      } else {
        KeepAll(events, false);
      }
    }
  }

  lemma LeadingByOrder(p: Patterns, eco: Ecosystem, events: seq<Event>)
    requires Ascending(p, eco, events)
    ensures BeginningsLead(events)
  {
    hide Compare, FromBeginning;
  }

  lemma ReachedByOrder(p: Patterns, eco: Ecosystem, v: string, e: Event)
    requires Ordered(eco, v) && (FromBeginning(e) || Ordered(eco, e.raw))
    ensures Reached(p, eco, v, e) <==> FromBeginning(e) || Compare(p, e.raw, v, eco) <= 0
    ensures Passed(p, eco, v, e) <==> FromBeginning(e) || Compare(p, e.raw, v, eco) < 0
  {
    hide KeyOf, CompareAny, Blank;
    FallbackExactly(p, v, e.raw, eco);
    FallbackExactly(p, e.raw, v, eco);
    CompareAntisymmetric(p, v, e.raw, eco);
  }

  /** In an ascending stream, what comes before a reached event is reached, and before a passed one passed. */
  lemma Downwards(p: Patterns, eco: Ecosystem, v: string, events: seq<Event>, i: nat, j: nat)
    requires i < j < |events| && Ascending(p, eco, events) && AllOrdered(eco, events) && Ordered(eco, v)
    requires Reached(p, eco, v, events[j])
    ensures Reached(p, eco, v, events[i])
    ensures Passed(p, eco, v, events[j]) ==> Passed(p, eco, v, events[i])
    ensures FromBeginning(events[i]) || Compare(p, events[i].raw, events[j].raw, eco) < 0 ==> Passed(p, eco, v, events[i])
  {
    hide Compare, Reached, Passed, Ordered, FromBeginning;
    var x, y := events[i], events[j];
    assert x in events && y in events;
    ReachedByOrder(p, eco, v, x);
    ReachedByOrder(p, eco, v, y);
    if !FromBeginning(x) {
      CompareTransitive(p, x.raw, y.raw, v, eco);
      if Compare(p, x.raw, y.raw, eco) < 0 || Compare(p, y.raw, v, eco) < 0 { CompareStrict(p, x.raw, y.raw, v, eco); }
    }
  }

  ghost predicate InSomeInterval(p: Patterns, eco: Ecosystem, v: string, events: seq<Event>) {
    exists i :: 0 <= i < |events| && InInterval(p, eco, v, events, i)
  }

  /** In an ascending stream every version is affected exactly when an interval holds it and no last-affected event lies below. */
  lemma AscendingAnswer(p: Patterns, eco: Ecosystem, v: string, events: seq<Event>)
    requires Ascending(p, eco, events) && AllOrdered(eco, events) && FixesStandAbove(p, eco, events) && Ordered(eco, v)
    ensures Affected(p, eco, v, events) <==> InSomeInterval(p, eco, v, events) && !BeyondLastAffected(p, eco, v, events)
  {
    hide Ordered, BeginningsFirst, Ascending, InInterval, OpenAtEnd, BeyondLastAffected, AllOrdered, FixesStandAbove;
    assert BeginningsLead(events) by { LeadingByOrder(p, eco, events); }
    LeadingIsKept(events);
    if Affected(p, eco, v, events) { OpenMeansInterval(p, eco, v, events); }
    if InSomeInterval(p, eco, v, events) {
      var i :| 0 <= i < |events| && InInterval(p, eco, v, events, i);
      IntervalMeansOpen(p, eco, v, events, i);
    }
  }

  lemma OpenMeansInterval(p: Patterns, eco: Ecosystem, v: string, events: seq<Event>)
    requires OpenAtEnd(p, eco, v, events) && !BeyondLastAffected(p, eco, v, events)
    ensures InSomeInterval(p, eco, v, events)
  {
    hide Reached, Passed, NextStop;
    var i :| 0 <= i < |events| && Opens(p, eco, v, events[i])
             && forall j :: i < j < |events| ==> !Closes(p, eco, v, events[j]);
    var j := NextStop(events, i + 1);
    if j < |events| { assert !Closes(p, eco, v, events[j]); assert events[j] in events; }
    assert InInterval(p, eco, v, events, i);
  }

  lemma IntervalMeansOpen(p: Patterns, eco: Ecosystem, v: string, events: seq<Event>, i: nat)
    requires Ascending(p, eco, events) && AllOrdered(eco, events) && FixesStandAbove(p, eco, events) && Ordered(eco, v)
    requires i < |events| && InInterval(p, eco, v, events, i)
    ensures OpenAtEnd(p, eco, v, events)
  {
    hide Compare, Reached, Passed, Ordered, Ascending, AllOrdered, NextStop;
    var j := NextStop(events, i + 1);
    forall k | i < k < |events| ensures !Closes(p, eco, v, events[k]) {
      if Closes(p, eco, v, events[k]) && j < k { Downwards(p, eco, v, events, j, k); }
    }
  }

  /** A version in an interval that no last-affected event precedes is beyond none. */
  lemma IntervalIsNotBeyond(p: Patterns, eco: Ecosystem, v: string, events: seq<Event>, i: nat)
    requires Ascending(p, eco, events) && AllOrdered(eco, events) && Ordered(eco, v)
    requires NoneAfterLastAffected(events) && i < |events| && InInterval(p, eco, v, events, i)
    ensures !BeyondLastAffected(p, eco, v, events)
  {
    hide Compare, Reached, Passed, Ordered, Ascending, AllOrdered, NextStop;
    var j := NextStop(events, i + 1);
    if BeyondLastAffected(p, eco, v, events) {
      var k :| 0 <= k < |events| && events[k].kind.LastAffected? && Passed(p, eco, v, events[k]);
      NotBothPassedAndUnreached(p, eco, v, events[k]);
      assert i < k && j <= k;
      if j < k { Downwards(p, eco, v, events, j, k); }
    }
  }

  /** For ascending streams with no introduction behind a last-affected event, the answer is interval membership. */
  lemma AscendingMeansIntervals(p: Patterns, eco: Ecosystem, v: string, events: seq<Event>)
    requires Ascending(p, eco, events) && AllOrdered(eco, events) && FixesStandAbove(p, eco, events) && Ordered(eco, v)
    requires NoneAfterLastAffected(events)
    ensures Affected(p, eco, v, events) <==> InSomeInterval(p, eco, v, events)
  {
    hide Affected, Ordered, Ascending, InInterval, BeyondLastAffected, AllOrdered, FixesStandAbove, NoneAfterLastAffected;
    AscendingAnswer(p, eco, v, events);
    if InSomeInterval(p, eco, v, events) {
      var i :| 0 <= i < |events| && InInterval(p, eco, v, events, i);
      IntervalIsNotBeyond(p, eco, v, events, i);
    }
  }

  /** The version of an introduction behind a last-affected event lies in its interval and counts as not affected. */
  lemma HiddenIntroduction(p: Patterns, eco: Ecosystem, events: seq<Event>, k: nat, i: nat)
    requires Ascending(p, eco, events) && AllOrdered(eco, events) && KindsStandApart(p, eco, events)
    requires k < i < |events| && events[k].kind.LastAffected? && events[i].kind.Introduced?
    ensures Ordered(eco, events[i].raw) && InInterval(p, eco, events[i].raw, events, i)
    ensures BeyondLastAffected(p, eco, events[i].raw, events)
  {
    hide Compare, Reached, Passed, Ordered, NextStop;
    var v := events[i].raw;
    assert events[k] in events && events[i] in events;
    assert !FromBeginning(events[i]) && Ordered(eco, v);
    ReachedByOrder(p, eco, v, events[k]);
    ReachedByOrder(p, eco, v, events[i]);
    CompareAntisymmetric(p, v, v, eco);
    var j := NextStop(events, i + 1);
    if j < |events| {
      assert events[j] in events && Compare(p, v, events[j].raw, eco) < 0;
      ReachedByOrder(p, eco, v, events[j]);
      CompareAntisymmetric(p, v, events[j].raw, eco);
    }
  }

  lemma HiddenIsMisread(p: Patterns, eco: Ecosystem, events: seq<Event>, k: nat, i: nat)
    requires Ascending(p, eco, events) && AllOrdered(eco, events) && KindsStandApart(p, eco, events)
    requires k < i < |events| && events[k].kind.LastAffected? && events[i].kind.Introduced?
    ensures var v := events[i].raw; Ordered(eco, v) && InSomeInterval(p, eco, v, events) && !Affected(p, eco, v, events)
  {
    hide Ordered, Ascending, AllOrdered, KindsStandApart, InInterval, OpenAtEnd, BeyondLastAffected;
    HiddenIntroduction(p, eco, events, k, i);
  }

  lemma ApartMeansAbove(p: Patterns, eco: Ecosystem, events: seq<Event>)
    requires KindsStandApart(p, eco, events)
    ensures FixesStandAbove(p, eco, events)
  {
    hide Compare;
  }

  /** Every version gets the answer of the intervals if and only if nothing is introduced behind a last-affected event. */
  lemma IntervalsExactly(p: Patterns, eco: Ecosystem, events: seq<Event>)
    requires Ascending(p, eco, events) && AllOrdered(eco, events) && KindsStandApart(p, eco, events)
    ensures (forall v :: Ordered(eco, v) ==> (Affected(p, eco, v, events) <==> InSomeInterval(p, eco, v, events)))
       <==> NoneAfterLastAffected(events)
  {
    hide Affected, Ordered, Ascending, InSomeInterval, AllOrdered, KindsStandApart, FixesStandAbove;
    ApartMeansAbove(p, eco, events);
    if NoneAfterLastAffected(events) {
      forall v | Ordered(eco, v) ensures Affected(p, eco, v, events) <==> InSomeInterval(p, eco, v, events) {
        AscendingMeansIntervals(p, eco, v, events);
      }
    }
    if forall v :: Ordered(eco, v) ==> (Affected(p, eco, v, events) <==> InSomeInterval(p, eco, v, events)) {
      forall k, i | 0 <= k < i < |events| && events[k].kind.LastAffected? ensures !events[i].kind.Introduced? {
        if events[i].kind.Introduced? { HiddenIsMisread(p, eco, events, k, i); }
      }
    }
  }

  // ----- single ranges

  /** Introduced at "0" or "" and nothing else: every version of every ecosystem is affected. */
  lemma BeginningAffectsAll(p: Patterns, eco: Ecosystem, v: string, raw: string)
    requires raw == "0" || raw == ""
    ensures Affected(p, eco, v, [Event(Introduced, raw)])
  {
    hide Compare, KeyOf, Passed, BeginningsFirst;
    var e := Event(Introduced, raw);
    LeadingIsKept([e]);
    assert Opens(p, eco, v, [e][0]);
  }

  lemma OneIntroduction(p: Patterns, eco: Ecosystem, v: string, e: Event)
    requires e.kind.Introduced?
    ensures Affected(p, eco, v, [e]) <==> Reached(p, eco, v, e)
    ensures OpenAtEnd(p, eco, v, [e]) <==> Reached(p, eco, v, e)
  {
    hide Reached, Passed, BeginningsFirst, FromBeginning, OpenAtEnd;
    assert BeginningsLead([e]);
    LeadingIsKept([e]);
    NothingOpens(p, eco, v);
    OneMoreEvent(p, eco, v, [], e);
    assert [] + [e] == [e];
    assert forall x :: x in [e] <==> x == e;
  }

  lemma IntroductionAndStop(p: Patterns, eco: Ecosystem, v: string, e: Event, f: Event)
    requires e.kind.Introduced? && !f.kind.Introduced?
    ensures Affected(p, eco, v, [e, f]) <==>
              Reached(p, eco, v, e)
              && if f.kind.LastAffected? then !Passed(p, eco, v, f) else !Reached(p, eco, v, f)
  {
    hide Reached, Passed, BeginningsFirst, OpenAtEnd;
    var events := [e, f];
    assert BeginningsLead(events);
    LeadingIsKept(events);
    OneIntroduction(p, eco, v, e);
    OneMoreEvent(p, eco, v, [e], f);
    assert [e] + [f] == events;
    assert forall x :: x in events <==> x == e || x == f;
  }

  /** From an introduction on; up to a fix or limit; up to and including a last-affected version. */
  lemma SingleRanges(p: Patterns, eco: Ecosystem, v: string, from: string, to: string)
    requires Ordered(eco, v) && Ordered(eco, from) && Ordered(eco, to) && from != "0" && from != ""
    ensures Affected(p, eco, v, [Event(Introduced, from)]) <==> Compare(p, from, v, eco) <= 0
    ensures Affected(p, eco, v, [Event(Introduced, from), Event(Fixed, to)]) <==>
              Compare(p, from, v, eco) <= 0 && Compare(p, v, to, eco) < 0
    ensures Affected(p, eco, v, [Event(Introduced, from), Event(Limit, to)]) <==>
              Compare(p, from, v, eco) <= 0 && Compare(p, v, to, eco) < 0
    ensures Affected(p, eco, v, [Event(Introduced, from), Event(LastAffected, to)]) <==>
              Compare(p, from, v, eco) <= 0 && Compare(p, v, to, eco) <= 0
    ensures Affected(p, eco, v, [Event(Introduced, "0"), Event(Fixed, to)]) <==> Compare(p, v, to, eco) < 0
  {
    hide Affected, Reached, Passed, Compare, Ordered;
    var e, zero := Event(Introduced, from), Event(Introduced, "0");
    var fix, limit, last := Event(Fixed, to), Event(Limit, to), Event(LastAffected, to);
    OneIntroduction(p, eco, v, e);
    IntroductionAndStop(p, eco, v, e, fix);
    IntroductionAndStop(p, eco, v, e, limit);
    IntroductionAndStop(p, eco, v, e, last);
    IntroductionAndStop(p, eco, v, zero, fix);
    ReachedByOrder(p, eco, v, e);
    ReachedByOrder(p, eco, v, zero);
    ReachedByOrder(p, eco, v, fix);
    ReachedByOrder(p, eco, v, limit);
    ReachedByOrder(p, eco, v, last);
    CompareAntisymmetric(p, to, v, eco);
  }

  // ----- one-digit versions, and a stream with an early last-affected event

  lemma DigitVersions(p: Patterns, c: char, d: char)
    requires IsDigit(c) && IsDigit(d)
    ensures Ordered(DebianEco, [c]) && Ordered(DebianEco, [d])
    ensures c < d ==> Compare(p, [c], [d], DebianEco) < 0
  {
    hide KeyOf, Evr.Parse;
    DigitKey(p, c);
    DigitKey(p, d);
    DigitTokens(c);
    DigitTokens(d);
  }

  lemma DigitKey(p: Patterns, c: char)
    requires IsDigit(c)
    ensures Ordered(DebianEco, [c]) && !Blank([c]) && KeyOf(p, [c], DebianEco) == EvrKey(Evr.Deb, Evr.Evr(0, [c], ""))
  {
    hide Strip, Evr.Parse, KeyOf;
    NothingToStrip([c]);
    KeyShape(p, [c], DebianEco);
    Evr.ParsePlain([c]);
  }

  lemma DigitTokens(c: char)
    requires IsDigit(c)
    ensures Debian.Parse([c], 0) == Debian.Token("", DigitValue(c), Debian.End)
  {
    RunEndIs([c], 0, NonDigit, 0);
    RunEndIs([c], 0, Digit, 1);
    assert Num([c], 0, 1) == DigitValue(c);
  }

  lemma ThreeInOrder(p: Patterns, eco: Ecosystem, e: Event, f: Event, g: Event)
    requires Ordered(eco, e.raw) && Ordered(eco, f.raw) && Ordered(eco, g.raw) && !FromBeginning(f) && !FromBeginning(g)
    requires Compare(p, e.raw, f.raw, eco) < 0 && Compare(p, f.raw, g.raw, eco) < 0
    ensures Ascending(p, eco, [e, f, g]) && AllOrdered(eco, [e, f, g]) && KindsStandApart(p, eco, [e, f, g])
  {
    hide Compare, Ordered, FromBeginning, Ascending, KindsStandApart;
    CompareStrict(p, e.raw, f.raw, g.raw, eco);
    var events := [e, f, g];
    forall x | x in events ensures Ordered(eco, x.raw) { assert x == e || x == f || x == g; }
    forall i, j | 0 <= i < j < 3
      ensures !FromBeginning(events[j]) && Compare(p, events[i].raw, events[j].raw, eco) < 0
    {
      assert (i == 0 && (j == 1 || j == 2)) || (i == 1 && j == 2);
    }
    PairsInOrder(p, eco, events);
  }

  lemma PairsInOrder(p: Patterns, eco: Ecosystem, events: seq<Event>)
    requires forall i, j :: 0 <= i < j < |events| ==>
               !FromBeginning(events[j]) && Compare(p, events[i].raw, events[j].raw, eco) < 0
    ensures Ascending(p, eco, events) && KindsStandApart(p, eco, events)
  {
    hide Compare, FromBeginning;
  }

  /** A last-affected event hides the interval of every later introduction at its very start. */
  lemma LastAffectedHidesLater(p: Patterns, eco: Ecosystem, a: string, b: string, c: string)
    requires Ordered(eco, a) && Ordered(eco, b) && Ordered(eco, c) && c != "0" && c != ""
    requires Compare(p, a, b, eco) < 0 && Compare(p, b, c, eco) < 0
    ensures var events := [Event(Introduced, a), Event(LastAffected, b), Event(Introduced, c)];
            !Affected(p, eco, c, events) && InInterval(p, eco, c, events, 2)
  {
    hide InInterval, OpenAtEnd, BeyondLastAffected, Ascending, KindsStandApart, AllOrdered, Compare, Ordered;
    var events := [Event(Introduced, a), Event(LastAffected, b), Event(Introduced, c)];
    ThreeInOrder(p, eco, events[0], events[1], events[2]);
    HiddenIntroduction(p, eco, events, 1, 2);
  }

  /** Version 3 lies in the second interval but counts as not affected. */
  lemma EarlyLastAffectedHidesLater(p: Patterns)
    ensures var events := [Event(Introduced, "1"), Event(LastAffected, "2"), Event(Introduced, "3")];
            !Affected(p, DebianEco, "3", events) && InInterval(p, DebianEco, "3", events, 2)
  {
    hide Affected, InInterval, Compare, Ordered;
    DigitVersions(p, '1', '2');
    DigitVersions(p, '2', '3');
    LastAffectedHidesLater(p, DebianEco, "1", "2", "3");
  }
}
