/**
 Keyset paging over any total order: one page, and whole runs of pages over a table that changes
 between the requests. A row stands here by its sort key, which includes its identifier.
 */
module Keyset {
  import opened Options
  import opened Sorting

  /** leq is a total order on keys, and after(c, k) says that k comes strictly behind c. */
  ghost predicate IsKeyset<K(!new)>(leq: (K, K) -> bool, after: (K, K) -> bool) {
    && Total(leq) && Transitive(leq)
    && (forall x, y :: leq(x, y) && leq(y, x) ==> x == y)
    && forall x, y :: after(x, y) <==> leq(x, y) && x != y
  }

  predicate IsAfter<K>(after: (K, K) -> bool, cursor: Option<K>, k: K) {
    cursor.None? || after(cursor.value, k)
  }

  /** The rows the cursor filter keeps. */
  function Behind<K>(table: seq<K>, after: (K, K) -> bool, cursor: Option<K>): seq<K> {
    if table == [] then []
    else (if IsAfter(after, cursor, table[0]) then [table[0]] else []) + Behind(table[1..], after, cursor)
  }

  function Take<K>(s: seq<K>, n: nat): seq<K> { if |s| <= n then s else s[..n] }

  /** The query behind a page: filtered, ordered, and one row more than the page holds. */
  function Fetch<K>(table: seq<K>, leq: (K, K) -> bool, after: (K, K) -> bool, cursor: Option<K>, limit: nat): seq<K> {
    Take(Sort(Behind(table, after, cursor), leq), limit + 1)
  }

  datatype Page<K> = Page(rows: seq<K>, hasMore: bool, next: Option<K>)

  function PageOf<K>(rows: seq<K>, limit: nat): Page<K> {
    var page := Take(rows, limit);
    var more := |rows| > limit;
    Page(page, more, if more && page != [] then Some(page[|page| - 1]) else None)
  }

  /** Trims the extra row and says whether there was one, and where the next page starts. */
  method Paginate<K>(rows: seq<K>, limit: nat) returns (p: Page<K>)
    ensures p == PageOf(rows, limit)
  {
    var hasMore := |rows| > limit;
    var page := if |rows| <= limit then rows else rows[..limit];
    var next := None;
    if hasMore && page != [] { next := Some(page[|page| - 1]); }
    p := Page(page, hasMore, next);
  }

  // ----- one page

  lemma {:induction false} BehindMembers<K>(table: seq<K>, after: (K, K) -> bool, cursor: Option<K>)
    ensures forall k :: k in Behind(table, after, cursor) <==> k in table && IsAfter(after, cursor, k)
    ensures NoRepeats(table) ==> NoRepeats(Behind(table, after, cursor))
  {
    if table != [] {
      BehindMembers(table[1..], after, cursor);
      assert table == [table[0]] + table[1..];
      assert NoRepeats(table) ==> table[0] !in table[1..];
    }
  }

  ghost predicate StrictlyAscending<K>(s: seq<K>, after: (K, K) -> bool) {
    forall i, j :: 0 <= i < j < |s| ==> after(s[i], s[j])
  }

  /** What the filtered and ordered table is. */
  lemma OrderedTable<K(!new)>(table: seq<K>, leq: (K, K) -> bool, after: (K, K) -> bool, cursor: Option<K>)
    requires IsKeyset(leq, after) && NoRepeats(table)
    ensures var all := Sort(Behind(table, after, cursor), leq);
            StrictlyAscending(all, after) && forall k :: k in all <==> k in table && IsAfter(after, cursor, k)
  {
    hide Sort;
    var behind := Behind(table, after, cursor);
    BehindMembers(table, after, cursor);
    SortKeeps(behind, leq);
    SortSorts(behind, leq);
  }

  /** A page is the head of what lies behind the cursor; what is left lies behind the page's last row. */
  lemma PageFacts<K(!new)>(table: seq<K>, leq: (K, K) -> bool, after: (K, K) -> bool, cursor: Option<K>, limit: nat)
    requires IsKeyset(leq, after) && NoRepeats(table) && limit >= 1
    ensures var p := PageOf(Fetch(table, leq, after, cursor, limit), limit);
            && StrictlyAscending(p.rows, after) && |p.rows| <= limit
            && (forall k :: k in p.rows ==> k in table && IsAfter(after, cursor, k))
            && (p.hasMore <==> p.next.Some?)
            && (p.hasMore ==> p.rows != [] && p.next.value == p.rows[|p.rows| - 1])
            && (p.hasMore <==> |Behind(table, after, cursor)| > limit)
            && (if p.hasMore then |p.rows| == limit else |p.rows| == |Behind(table, after, cursor)|)
            && forall k :: k in table && IsAfter(after, cursor, k) && k !in p.rows ==> p.hasMore && after(p.next.value, k)
  {
    hide Sort, Behind, NoRepeats, IsKeyset, PageOf, Take;
    var all := Sort(Behind(table, after, cursor), leq);
    OrderedTable(table, leq, after, cursor);
    SortKeeps(Behind(table, after, cursor), leq);
    assert Fetch(table, leq, after, cursor, limit) == Take(all, limit + 1);
    HeadFacts(all, after, limit);
  }

  /** The page cut from an ordered sequence is its head, and the rest comes behind the last row of it. */
  lemma HeadFacts<K(!new)>(all: seq<K>, after: (K, K) -> bool, limit: nat)
    requires StrictlyAscending(all, after) && limit >= 1
    ensures var p := PageOf(Take(all, limit + 1), limit);
            && StrictlyAscending(p.rows, after) && (forall k :: k in p.rows ==> k in all)
            && (p.hasMore <==> |all| > limit) && |p.rows| == (if |all| > limit then limit else |all|)
            && (p.hasMore <==> p.next.Some?)
            && (p.hasMore ==> p.rows != [] && p.next.value == p.rows[|p.rows| - 1])
            && forall k :: k in all && k !in p.rows ==> p.hasMore && after(p.next.value, k)
  {
    var p := PageOf(Take(all, limit + 1), limit);
    assert p.rows <= all && |p.rows| == (if |all| > limit then limit else |all|);
    hide StrictlyAscending;
    HeadAscends(all, p.rows, after);
    forall k | k in all && k !in p.rows ensures p.hasMore && after(p.next.value, k) {
      var i :| 0 <= i < |all| && all[i] == k;
      if i < |p.rows| { InHead(all, p.rows, i); } else if |all| > limit { BehindHead(all, after, limit - 1, i); }
    }
  }

  lemma HeadAscends<K(!new)>(all: seq<K>, head: seq<K>, after: (K, K) -> bool)
    requires StrictlyAscending(all, after) && head <= all
    ensures StrictlyAscending(head, after) && forall k :: k in head ==> k in all
  {
    assert forall i :: 0 <= i < |head| ==> head[i] == all[i];
  }

  lemma InHead<K>(all: seq<K>, head: seq<K>, i: nat)
    requires head <= all && i < |head|
    ensures all[i] in head
  {
    assert head[i] == all[i];
  }

  lemma BehindHead<K(!new)>(all: seq<K>, after: (K, K) -> bool, i: nat, j: nat)
    requires StrictlyAscending(all, after) && i < j < |all|
    ensures after(all[i], all[j])
  {}

  // ----- runs of pages

  /** One request: the table as it is then, and the page size asked for. */
  datatype Request<K> = Request(table: seq<K>, limit: nat)

  /** The pages of a run that follows the cursors from the given one; None when it ends too early or too late. */
  function Run<K>(requests: seq<Request<K>>, leq: (K, K) -> bool, after: (K, K) -> bool, cursor: Option<K>)
    : Option<seq<seq<K>>>
  {
    if requests == [] then None
    else
      var r := requests[0];
      var p := PageOf(Fetch(r.table, leq, after, cursor, r.limit), r.limit);
      if !p.hasMore then (if |requests| == 1 then Some([p.rows]) else None)
      else if p.next.None? then None
      else
        match Run(requests[1..], leq, after, p.next)
        case None => None
        case Some(pages) => Some([p.rows] + pages)
  }

  function Concat<K>(pages: seq<seq<K>>): seq<K> {
    if pages == [] then [] else pages[0] + Concat(pages[1..])
  }

  ghost predicate ValidRequests<K>(requests: seq<Request<K>>) {
    forall i :: 0 <= i < |requests| ==> NoRepeats(requests[i].table) && requests[i].limit >= 1
  }

  lemma AscendingConcat<K(!new)>(s: seq<K>, t: seq<K>, leq: (K, K) -> bool, after: (K, K) -> bool)
    requires IsKeyset(leq, after) && StrictlyAscending(s, after) && StrictlyAscending(t, after)
    requires s != [] && forall k :: k in t ==> after(s[|s| - 1], k)
    ensures StrictlyAscending(s + t, after)
  {
    var u := s + t;
    forall i, j | 0 <= i < j < |u| ensures after(u[i], u[j]) {
      if i < |s| <= j {
        assert t[j - |s|] in t;
        AfterTransitive(leq, after, s[i], s[|s| - 1], t[j - |s|]);
      }
    }
  }

  lemma AfterTransitive<K(!new)>(leq: (K, K) -> bool, after: (K, K) -> bool, x: K, y: K, z: K)
    requires IsKeyset(leq, after) && (x == y || after(x, y)) && after(y, z)
    ensures after(x, z)
  {}

  /**
   Over a finished run, with rows coming and going between the requests: the pages concatenate in the
   sort order without a row twice, show only rows present when asked, and include every row that was
   present throughout.
   */
  lemma {:induction false} FinishedRun<K(!new)>(requests: seq<Request<K>>, leq: (K, K) -> bool, after: (K, K) -> bool,
                                               cursor: Option<K>)
    requires IsKeyset(leq, after) && ValidRequests(requests) && Run(requests, leq, after, cursor).Some?
    ensures var pages := Run(requests, leq, after, cursor).value;
            && |pages| == |requests|
            && StrictlyAscending(Concat(pages), after)
            && (forall i, k :: 0 <= i < |pages| && k in pages[i] ==> k in requests[i].table)
            && (forall k :: k in Concat(pages) ==> IsAfter(after, cursor, k))
            && forall k :: (forall i :: 0 <= i < |requests| ==> k in requests[i].table) && IsAfter(after, cursor, k)
                           ==> k in Concat(pages)
    decreases |requests|
  {
    hide Fetch, IsKeyset, Total, Transitive, NoRepeats;
    var r := requests[0];
    var p := PageOf(Fetch(r.table, leq, after, cursor, r.limit), r.limit);
    PageFacts(r.table, leq, after, cursor, r.limit);
    var pages := Run(requests, leq, after, cursor).value;
    if p.hasMore {
      var rest := requests[1..];
      FinishedRun(rest, leq, after, p.next);
      var later := Run(rest, leq, after, p.next).value;
      assert pages == [p.rows] + later;
      assert pages[1..] == later;
      assert Concat(pages) == p.rows + Concat(later);
      AscendingConcat(p.rows, Concat(later), leq, after);
      forall k | k in Concat(later) ensures IsAfter(after, cursor, k) {
        if cursor.Some? {
          assert p.rows[|p.rows| - 1] in p.rows;
          AfterTransitive(leq, after, cursor.value, p.next.value, k);
        }
      }
      forall k | (forall i :: 0 <= i < |requests| ==> k in requests[i].table) && IsAfter(after, cursor, k)
        ensures k in Concat(pages)
      {
        assert k in requests[0].table;
        if k !in p.rows {
          assert forall i :: 0 <= i < |rest| ==> k in rest[i].table by {
            forall i | 0 <= i < |rest| ensures k in rest[i].table { assert k in requests[i + 1].table; }
          }
        }
      }
    } else {
      assert pages == [p.rows] && Concat(pages) == p.rows + Concat([]);
      assert Concat(pages) == p.rows;
    }
  }

  /** In a strictly ascending sequence no row comes twice. */
  lemma AscendingOnce<K(!new)>(s: seq<K>, leq: (K, K) -> bool, after: (K, K) -> bool)
    requires IsKeyset(leq, after) && StrictlyAscending(s, after)
    ensures NoRepeats(s) && SortedBy(s, leq)
  {}
}
