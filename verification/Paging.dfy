/** The two keyset orders of the API, their cursors, and the runs of pages they give. */
module Paging {
  import opened Options
  import opened Order
  import opened Sorting
  import opened Keyset

  // ----- the findings workbench: worst first

  /** Unknown severities sort last. */
  function SeverityRank(severity: string): nat {
    if severity == "critical" then 0
    else if severity == "high" then 1
    else if severity == "medium" then 2
    else if severity == "low" then 3
    else if severity == "info" then 4
    else 9
  }

  datatype Finding = Finding(severity: string, risk: int, created: int, id: int)

  /** What orders a finding, and what a cursor carries. */
  datatype Cursor = Cursor(rank: int, risk: int, created: int, id: int)

  function EncodeCursor(f: Finding): Cursor { Cursor(SeverityRank(f.severity), f.risk, f.created, f.id) }

  /** ORDER BY rank ascending, risk descending, creation descending, identifier ascending. */
  function CompareCursors(x: Cursor, y: Cursor): (r: int)
    ensures -1 <= r <= 1
  {
    Then(Sign(x.rank - y.rank), Then(Sign(y.risk - x.risk), Then(Sign(y.created - x.created), Sign(x.id - y.id))))
  }

  /** The four-way condition of the cursor filter. */
  predicate FindingAfter(c: Cursor, k: Cursor) {
    || k.rank > c.rank
    || (k.rank == c.rank && k.risk < c.risk)
    || (k.rank == c.rank && k.risk == c.risk && k.created < c.created)
    || (k.rank == c.rank && k.risk == c.risk && k.created == c.created && k.id > c.id)
  }

  const FindingLeq: (Cursor, Cursor) -> bool := (x: Cursor, y: Cursor) => CompareCursors(x, y) <= 0
  const AfterFinding: (Cursor, Cursor) -> bool := (c: Cursor, k: Cursor) => FindingAfter(c, k)

  /** The filter is exactly "strictly after" in the total order of the sort. */
  lemma FilterIsStrictlyAfter(c: Cursor, k: Cursor)
    ensures FindingAfter(c, k) <==> CompareCursors(c, k) < 0
    ensures CompareCursors(c, k) == 0 <==> c == k
    ensures CompareCursors(c, k) == -CompareCursors(k, c)
  {}

  lemma FindingsAreKeyset()
    ensures IsKeyset(FindingLeq, AfterFinding)
  {
    forall x, y ensures (FindingLeq(x, y) || FindingLeq(y, x)) && (FindingLeq(x, y) && FindingLeq(y, x) ==> x == y)
                     && (AfterFinding(x, y) <==> FindingLeq(x, y) && x != y)
    { FilterIsStrictlyAfter(x, y); }
    forall x, y, z | FindingLeq(x, y) && FindingLeq(y, z) ensures FindingLeq(x, z) {}
  }

  const SEVERITIES: seq<string> := ["critical", "high", "medium", "low", "info"]

  /** Worst first: a listed severity comes before the less severe and before every unlisted one. */
  lemma WorseSeverityFirst(f: Finding, g: Finding, i: nat)
    requires i < |SEVERITIES| && f.severity == SEVERITIES[i] && g.severity !in SEVERITIES[..i + 1]
    ensures AfterFinding(EncodeCursor(f), EncodeCursor(g))
  {
    assert forall j :: 0 <= j <= i ==> SEVERITIES[j] in SEVERITIES[..i + 1];
    assert SEVERITIES[0] in SEVERITIES[..i + 1];
    assert i >= 1 ==> SEVERITIES[1] in SEVERITIES[..i + 1];
    assert i >= 2 ==> SEVERITIES[2] in SEVERITIES[..i + 1];
    assert i >= 3 ==> SEVERITIES[3] in SEVERITIES[..i + 1];
  }

  /** Within a severity: the higher risk, then the newer, then the smaller identifier. */
  lemma WithinSeverity(f: Finding, g: Finding)
    requires f.severity == g.severity
    ensures f.risk > g.risk ==> AfterFinding(EncodeCursor(f), EncodeCursor(g))
    ensures f.risk == g.risk && f.created > g.created ==> AfterFinding(EncodeCursor(f), EncodeCursor(g))
    ensures f.risk == g.risk && f.created == g.created && f.id < g.id ==> AfterFinding(EncodeCursor(f), EncodeCursor(g))
  {}

  /** Severities that are not listed rank alike. */
  lemma UnlistedAreAlike(f: Finding, g: Finding)
    requires f.severity !in SEVERITIES && g.severity !in SEVERITIES && f.risk > g.risk
    ensures AfterFinding(EncodeCursor(f), EncodeCursor(g))
  {
    forall s: string | s !in SEVERITIES ensures SeverityRank(s) == 9 { NotListed(s); }
  }

  lemma NotListed(s: string)
    requires s !in SEVERITIES
    ensures SeverityRank(s) == 9
  {
    assert SEVERITIES[0] == "critical" && SEVERITIES[1] == "high" && SEVERITIES[2] == "medium" && SEVERITIES[3] == "low"
        && SEVERITIES[4] == "info";
  }

  /** A reasonable request is met as it is; too much becomes 200, none or nonsense 50. */
  function PageSize(requested: Option<int>): (n: nat)
    ensures 1 <= n <= 200
    ensures requested.Some? && 1 <= requested.value <= 200 ==> n == requested.value
    ensures requested.Some? && requested.value > 200 ==> n == 200
    ensures requested.None? || requested.value < 1 ==> n == 50
  {
    if requested.None? || requested.value < 1 then 50 else if requested.value < 200 then requested.value else 200
  }

  // ----- the other lists: newest first

  datatype TimeCursor = TimeCursor(created: int, id: int)

  /** ORDER BY creation descending, identifier descending. */
  predicate NewestFirst(x: TimeCursor, y: TimeCursor) {
    x.created > y.created || (x.created == y.created && x.id >= y.id)
  }

  /** Row comparison: (created, id) below the cursor's pair. */
  predicate PairBelow(c: TimeCursor, k: TimeCursor) {
    k.created < c.created || (k.created == c.created && k.id < c.id)
  }

  const TimeLeq: (TimeCursor, TimeCursor) -> bool := (x: TimeCursor, y: TimeCursor) => NewestFirst(x, y)
  const AfterTime: (TimeCursor, TimeCursor) -> bool := (c: TimeCursor, k: TimeCursor) => PairBelow(c, k)

  lemma NewestFirstIsKeyset()
    ensures IsKeyset(TimeLeq, AfterTime)
  {}

  /** The newer row first, and of two created together the larger identifier. */
  lemma NewerFirst(x: TimeCursor, y: TimeCursor)
    requires x.created > y.created || (x.created == y.created && x.id > y.id)
    ensures AfterTime(x, y) && TimeLeq(x, y) && !TimeLeq(y, x)
  {}

  // ----- what readers of all pages get

  /** The rows, in page order, of a finished run that starts without a cursor. */
  ghost predicate ReadsEverythingOnce<K(!new)>(requests: seq<Request<K>>, leq: (K, K) -> bool, pages: seq<seq<K>>) {
    var rows := Concat(pages);
    && |pages| == |requests|
    && NoRepeats(rows) && SortedBy(rows, leq)
    && (forall i, k :: 0 <= i < |pages| && k in pages[i] ==> k in requests[i].table)
    && forall k :: (forall i :: 0 <= i < |requests| ==> k in requests[i].table) ==> k in rows
  }

  lemma RunReadsEverythingOnce<K(!new)>(requests: seq<Request<K>>, leq: (K, K) -> bool, after: (K, K) -> bool)
    requires IsKeyset(leq, after) && ValidRequests(requests) && Run(requests, leq, after, None).Some?
    ensures ReadsEverythingOnce(requests, leq, Run(requests, leq, after, None).value)
  {
    hide IsKeyset, Run, Concat;
    FinishedRun(requests, leq, after, None);
    AscendingOnce(Concat(Run(requests, leq, after, None).value), leq, after);
  }

  lemma FindingsRun(requests: seq<Request<Cursor>>)
    requires ValidRequests(requests) && Run(requests, FindingLeq, AfterFinding, None).Some?
    ensures ReadsEverythingOnce(requests, FindingLeq, Run(requests, FindingLeq, AfterFinding, None).value)
  {
    FindingsAreKeyset();
    RunReadsEverythingOnce(requests, FindingLeq, AfterFinding);
  }

  lemma NewestFirstRun(requests: seq<Request<TimeCursor>>)
    requires ValidRequests(requests) && Run(requests, TimeLeq, AfterTime, None).Some?
    ensures ReadsEverythingOnce(requests, TimeLeq, Run(requests, TimeLeq, AfterTime, None).value)
  {
    NewestFirstIsKeyset();
    RunReadsEverythingOnce(requests, TimeLeq, AfterTime);
  }

  // ----- a table that does not change is read to the end

  lemma {:induction false} RestShrinks<K(!new)>(table: seq<K>, leq: (K, K) -> bool, after: (K, K) -> bool, cursor: Option<K>,
                                               limit: nat)
    requires IsKeyset(leq, after) && NoRepeats(table) && limit >= 1
    ensures var p := PageOf(Fetch(table, leq, after, cursor, limit), limit);
            p.hasMore ==> |Behind(table, after, p.next)| < |Behind(table, after, cursor)|
  {
    hide Fetch, Behind, Sort;
    var p := PageOf(Fetch(table, leq, after, cursor, limit), limit);
    PageFacts(table, leq, after, cursor, limit);
    if p.hasMore {
      BehindMembers(table, after, cursor);
      BehindMembers(table, after, p.next);
      var before, rest := Behind(table, after, cursor), Behind(table, after, p.next);
      var last := p.next.value;
      assert last in p.rows && last in before;
      forall k | k in rest ensures k in before && k != last {
        if cursor.Some? { AfterTransitive(leq, after, cursor.value, last, k); }
      }
      DistinctSize(before);
      DistinctSize(rest);
      Fewer(SetOf(rest), SetOf(before), last);
    }
  }

  lemma Fewer<K>(s: set<K>, t: set<K>, x: K)
    requires s <= t && x in t && x !in s
    ensures |s| < |t|
  {
    var extra := t - s;
    assert t == s + extra;
    assert x in extra;
  }

  /** The same request n times over, on a table that does not change. */
  function Repeated<K>(table: seq<K>, limit: nat, n: nat): seq<Request<K>> {
    if n == 0 then [] else [Request(table, limit)] + Repeated(table, limit, n - 1)
  }

  /** On a table that does not change, asking for the next page until there is none ends. */
  lemma {:induction false} StableTableIsReadToTheEnd<K(!new)>(table: seq<K>, leq: (K, K) -> bool, after: (K, K) -> bool,
                                                             cursor: Option<K>, limit: nat) returns (n: nat)
    requires IsKeyset(leq, after) && NoRepeats(table) && limit >= 1
    ensures Run(Repeated(table, limit, n), leq, after, cursor).Some?
    decreases |Behind(table, after, cursor)|
  {
    hide Fetch, Behind, IsKeyset;
    var p := PageOf(Fetch(table, leq, after, cursor, limit), limit);
    PageFacts(table, leq, after, cursor, limit);
    RestShrinks(table, leq, after, cursor, limit);
    if p.hasMore {
      var m := StableTableIsReadToTheEnd(table, leq, after, p.next, limit);
      n := m + 1;
      assert Repeated(table, limit, n)[1..] == Repeated(table, limit, m);
    } else {
      n := 1;
      assert Repeated(table, limit, 1) == [Request(table, limit)];
    }
  }
}
