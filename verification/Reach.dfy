/** Breadth-first reachability bounded in depth, and the blast radius computed from it. */
module Reach {
  import opened Sorting
  import opened PathSearch
  import opened AttackGraph
  import opened Exposure
  import opened GraphMeaning

  // ----- what is within a number of hops

  function NeighboursOf(adj: Adjacency, s: set<Id>): set<Id> {
    set u, v | u in s && v in Neighbours(adj, u) :: v
  }

  /** The nodes within n hops of the source. */
  function Within(adj: Adjacency, src: Id, n: nat): set<Id> {
    if n == 0 then {src} else Within(adj, src, n - 1) + NeighboursOf(adj, Within(adj, src, n - 1))
  }

  /** A walk from src to u with at most n hops; it may pass through a node more than once. */
  ghost predicate Connects(adj: Adjacency, src: Id, u: Id, n: nat, p: Path) {
    IsWalk(adj, p) && p[0] == src && p[|p| - 1] == u && |p| - 1 <= n
  }

  lemma {:induction false} WithinHasWalk(adj: Adjacency, src: Id, u: Id, n: nat) returns (p: Path)
    requires u in Within(adj, src, n)
    ensures Connects(adj, src, u, n, p)
    decreases n
  {
    if n == 0 {
      p := [src];
    } else if u in Within(adj, src, n - 1) {
      p := WithinHasWalk(adj, src, u, n - 1);
    } else {
      var v :| v in Within(adj, src, n - 1) && u in Neighbours(adj, v);
      var q := WithinHasWalk(adj, src, v, n - 1);
      p := q + [u];
      WalkExtends(adj, q, u);
    }
  }

  lemma WalkExtends(adj: Adjacency, q: Path, u: Id)
    requires IsWalk(adj, q) && u in Neighbours(adj, q[|q| - 1])
    ensures IsWalk(adj, q + [u])
  {
    hide Neighbours;
    var p := q + [u];
    assert forall i :: 0 <= i < |q| ==> p[i] == q[i];
  }

  lemma {:induction false} WithinGrows(adj: Adjacency, src: Id, m: nat, n: nat)
    requires m <= n
    ensures Within(adj, src, m) <= Within(adj, src, n)
    decreases n - m
  {
    if m < n { WithinGrows(adj, src, m, n - 1); }
  }

  lemma {:induction false} WalkIsWithin(adj: Adjacency, src: Id, p: Path)
    requires IsWalk(adj, p) && p[0] == src
    ensures p[|p| - 1] in Within(adj, src, |p| - 1)
  {
    if |p| > 1 {
      var q := p[..|p| - 1];
      WalkIsWithin(adj, src, q);
      assert p[|p| - 2 + 1] in Neighbours(adj, p[|p| - 2]);
      assert q[|q| - 1] == p[|p| - 2];
    }
  }

  /** Being within n hops is being connected by a walk of at most n hops. */
  lemma WithinMeansConnected(adj: Adjacency, src: Id, u: Id, n: nat)
    ensures u in Within(adj, src, n) <==> exists p :: Connects(adj, src, u, n, p)
  {
    if u in Within(adj, src, n) { var p := WithinHasWalk(adj, src, u, n); }
    forall p | Connects(adj, src, u, n, p) ensures u in Within(adj, src, n) {
      WalkIsWithin(adj, src, p);
      WithinGrows(adj, src, |p| - 1, n);
    }
  }

  lemma {:induction false} Saturated(adj: Adjacency, src: Id, m: nat, n: nat)
    requires m <= n && Within(adj, src, m + 1) == Within(adj, src, m)
    ensures Within(adj, src, n) == Within(adj, src, m)
    decreases n - m
  {
    if m < n { Saturated(adj, src, m, n - 1); }
  }

  // ----- the breadth-first loop

  datatype Entry = Entry(node: Id, depth: nat)

  datatype ReachResult = ReachResult(nodes: seq<Id>, truncated: bool)

  function Tag(ids: seq<Id>, depth: nat): (q: seq<Entry>)
    ensures |q| == |ids|
  {
    seq(|ids|, i requires 0 <= i < |ids| => Entry(ids[i], depth))
  }

  /**
   The loop at level d: now holds the queued nodes of level d, next those of level d + 1 found so far.
   What is visited lies within d hops or is in next, and all neighbours of finished nodes are visited.
   */
  ghost predicate AtLevel(adj: Adjacency, src: Id, depth: nat, visited: set<Id>, d: nat, now: seq<Id>, next: seq<Id>) {
    var within := Within(adj, src, d);
    && d <= depth && SetOf(now) <= within && within <= visited && SetOf(next) <= visited
    && visited <= within + SetOf(next)
    && (d == depth ==> next == [])
    && (d < depth ==> SetOf(next) <= Within(adj, src, d + 1))
    && (d < depth ==> forall u :: u in within && u !in now ==> SetOf(Neighbours(adj, u)) <= visited)
  }

  lemma Start(adj: Adjacency, src: Id, depth: nat)
    ensures AtLevel(adj, src, depth, {src}, 0, [src], [])
  {}

  /** When level d is exhausted, everything within d + 1 hops is visited. */
  lemma NextLevel(adj: Adjacency, src: Id, depth: nat, visited: set<Id>, d: nat, next: seq<Id>)
    requires AtLevel(adj, src, depth, visited, d, [], next) && d < depth
    ensures AtLevel(adj, src, depth, visited, d + 1, next, [])
  {
    var within := Within(adj, src, d);
    assert Within(adj, src, d + 1) == within + NeighboursOf(adj, within);
    forall v | v in NeighboursOf(adj, within) ensures v in visited {
      var u :| u in within && v in Neighbours(adj, u);
      assert v in SetOf(Neighbours(adj, u));
    }
    assert visited == Within(adj, src, d + 1);
    if d + 1 < depth {
      forall u | u in Within(adj, src, d + 1) && u !in next ensures SetOf(Neighbours(adj, u)) <= visited {
        assert u !in SetOf(next);
      }
    }
  }

  lemma AddedIsWithin(adj: Adjacency, src: Id, d: nat, u: Id, added: set<Id>)
    requires u in Within(adj, src, d) && added <= SetOf(Neighbours(adj, u))
    ensures added <= Within(adj, src, d + 1)
  {
    var within := Within(adj, src, d);
    assert added <= NeighboursOf(adj, within);
    assert Within(adj, src, d + 1) == within + NeighboursOf(adj, within);
  }

  /** Finishing a node at level d with all its neighbours visited. */
  lemma Finish(adj: Adjacency, src: Id, depth: nat, visited: set<Id>, d: nat, u: Id, rest: seq<Id>, next: seq<Id>,
               added: seq<Id>)
    requires AtLevel(adj, src, depth, visited, d, [u] + rest, next) && d < depth
    requires SetOf(added) <= SetOf(Neighbours(adj, u))
    ensures visited + SetOf(added) <= Within(adj, src, depth)
    ensures SetOf(Neighbours(adj, u)) <= visited + SetOf(added) ==>
              AtLevel(adj, src, depth, visited + SetOf(added), d, rest, next + added)
  {
    hide Within, Neighbours;
    Concat([u], rest);
    Concat(next, added);
    assert u in SetOf([u] + rest) by { assert ([u] + rest)[0] == u; }
    AddedIsWithin(adj, src, d, u, SetOf(added));
    VisitedIsWithin(adj, src, depth, visited, d, [u] + rest, next);
    WithinGrows(adj, src, d + 1, depth);
    forall w | w in Within(adj, src, d) && w !in rest && w != u ensures w !in [u] + rest {}
  }

  lemma Concat(s: seq<Id>, t: seq<Id>)
    ensures SetOf(s + t) == SetOf(s) + SetOf(t)
  {}

  /** At the end of the queue, what is visited is exactly what lies within the depth. */
  lemma Finished(adj: Adjacency, src: Id, depth: nat, visited: set<Id>, d: nat)
    requires AtLevel(adj, src, depth, visited, d, [], [])
    ensures visited == Within(adj, src, depth)
  {
    assert visited == Within(adj, src, d);
    if d < depth {
      NextLevel(adj, src, depth, visited, d, []);
      assert visited == Within(adj, src, d + 1);
      Saturated(adj, src, d, depth);
    }
  }

  lemma VisitedIsWithin(adj: Adjacency, src: Id, depth: nat, visited: set<Id>, d: nat, now: seq<Id>, next: seq<Id>)
    requires AtLevel(adj, src, depth, visited, d, now, next)
    ensures visited <= Within(adj, src, depth)
  {
    WithinGrows(adj, src, d, depth);
    if d < depth { WithinGrows(adj, src, d + 1, depth); }
  }

  /** Queues the neighbours not yet visited, unless the node cap stops it. */
  method Expand(neighbours: seq<Id>, depth: nat, visited0: set<Id>, order0: seq<Id>, q0: seq<Entry>, maxNodes: int)
    returns (visited: set<Id>, order: seq<Id>, q: seq<Entry>, truncated: bool, ghost added: seq<Id>)
    requires NoRepeats(order0) && SetOf(order0) <= visited0 && |order0| < maxNodes
    ensures SetOf(added) <= SetOf(neighbours) && SetOf(added) !! visited0 && visited == visited0 + SetOf(added)
    ensures order == order0 + added && NoRepeats(order)
    ensures q == q0 + Tag(added, depth + 1)
    ensures !truncated ==> SetOf(neighbours) <= visited
    ensures |order| <= maxNodes && (truncated <==> |order| == maxNodes)
  {
    visited, order, q, truncated, added := visited0, order0, q0, false, [];
    for k := 0 to |neighbours|
      invariant SetOf(added) <= SetOf(neighbours) && SetOf(added) !! visited0 && visited == visited0 + SetOf(added)
      invariant order == order0 + added && NoRepeats(order) && SetOf(order) <= visited && |order| < maxNodes
      invariant q == q0 + Tag(added, depth + 1)
      invariant forall i :: 0 <= i < k ==> neighbours[i] in visited
    {
      var v := neighbours[k];
      if v !in visited {
        AddOne(added, v, depth + 1);
        AddOne(order, v, depth + 1);
        visited := visited + {v};
        order := order + [v];
        q := q + [Entry(v, depth + 1)];
        added := added + [v];
        if |order| >= maxNodes { truncated := true; return; }
      }
    }
  }

  lemma AddOne(s: seq<Id>, v: Id, depth: nat)
    ensures SetOf(s + [v]) == SetOf(s) + {v}
    ensures Tag(s + [v], depth) == Tag(s, depth) + [Entry(v, depth)]
    ensures NoRepeats(s) && v !in SetOf(s) ==> NoRepeats(s + [v])
  {}

  lemma TagHead(now: seq<Id>, next: seq<Id>, d: nat, q: seq<Entry>)
    requires now != [] && q == Tag(now, d) + Tag(next, d + 1)
    ensures q[0] == Entry(now[0], d) && q[1..] == Tag(now[1..], d) + Tag(next, d + 1)
  {}

  lemma TagTail(now: seq<Id>, next: seq<Id>, added: seq<Id>, d: nat)
    ensures Tag(now, d) + Tag(next, d + 1) + Tag(added, d + 1) == Tag(now, d) + Tag(next + added, d + 1)
    ensures Tag(now, d) + Tag([], d + 1) == Tag(now, d)
    ensures Tag([], d) + Tag(now, d + 1) == Tag(now, d + 1)
  {}

  /** At the last level nodes are taken off the queue without looking at their neighbours. */
  lemma Skip(adj: Adjacency, src: Id, depth: nat, visited: set<Id>, now: seq<Id>)
    requires now != [] && AtLevel(adj, src, depth, visited, depth, now, [])
    ensures AtLevel(adj, src, depth, visited, depth, now[1..], [])
  {}

  lemma LastLevelIsLast(adj: Adjacency, src: Id, depth: nat, visited: set<Id>, now: seq<Id>, next: seq<Id>)
    requires AtLevel(adj, src, depth, visited, depth, now, next)
    ensures next == []
  {}

  /** For some distance: everything up to it was found, and nothing that is more than one hop further. */
  ghost predicate NearestFirst(adj: Adjacency, src: Id, depth: nat, order: seq<Id>) {
    exists d: nat :: d < depth && FoundBetween(adj, src, d, order)
  }

  ghost predicate FoundBetween(adj: Adjacency, src: Id, d: nat, order: seq<Id>) {
    && (forall u :: u in Within(adj, src, d) && u != src ==> u in order)
    && forall u :: u in order ==> u in Within(adj, src, d + 1)
  }

  lemma StoppedAtLevel(adj: Adjacency, src: Id, depth: nat, visited: set<Id>, d: nat, u: Id, now: seq<Id>, next: seq<Id>,
                       added: seq<Id>, order: seq<Id>)
    requires AtLevel(adj, src, depth, visited, d, now, next) && d < depth && u in now
    requires SetOf(added) <= SetOf(Neighbours(adj, u)) && SetOf(order) == visited + SetOf(added) - {src}
    ensures NearestFirst(adj, src, depth, order)
  {
    hide Within, Neighbours;
    assert u in SetOf(now);
    AddedIsWithin(adj, src, d, u, SetOf(added));
    WithinGrows(adj, src, d, d + 1);
    InSetOf(order);
    assert FoundBetween(adj, src, d, order);
  }

  /** The breadth-first loop: what it found besides the source, in the order of finding. */
  method Search(adj: Adjacency, src: Id, limits: Limits) returns (order: seq<Id>, truncated: bool)
    ensures NoRepeats(order) && |order| <= Hops(limits.maxNodes)
    ensures forall u :: u in order ==> u != src && u in Within(adj, src, Hops(limits.maxDepth))
    ensures !truncated ==> forall u :: u in Within(adj, src, Hops(limits.maxDepth)) && u != src ==> u in order
    ensures truncated <==> |order| >= limits.maxNodes
    ensures truncated && limits.maxNodes >= 1 ==> NearestFirst(adj, src, Hops(limits.maxDepth), order)
  {
    hide AtLevel, Within, Tag, NoRepeats;
    ghost var depth := Hops(limits.maxDepth);
    var visited := {src};
    order := [];
    truncated := false;
    var q := [Entry(src, 0)];
    var budget := 0;
    ghost var d, now, next := 0, [src], [];
    Start(adj, src, depth);
    QueueStart(src);
    NoRepeatsEmpty();
    while q != []
      invariant AtLevel(adj, src, depth, visited, d, now, next) && q == Tag(now, d) + Tag(next, d + 1)
      invariant NoRepeats(order) && SetOf(order) == visited - {src}
      invariant src in visited
      invariant order == [] || |order| < limits.maxNodes
      invariant d <= depth && 0 <= budget <= Hops(limits.maxNodes) && budget + |q| == 1 + |order|
      decreases limits.maxNodes - budget
    {
      VisitedIsWithin(adj, src, depth, visited, d, now, next);
      InSetOf(order);
      if now == [] {
        TagTail(next, [], [], d + 1);
        TagTail(next, [], [], d);
        if d == depth { LastLevelIsLast(adj, src, depth, visited, now, next); }
        NextLevel(adj, src, depth, visited, d, next);
        d, now, next := d + 1, next, [];
      }
      TagHead(now, next, d, q);
      var e := q[0];
      q := q[1..];
      budget := budget + 1;
      if budget > limits.maxNodes { truncated := true; return; }
      if e.depth >= limits.maxDepth {
        LastLevelIsLast(adj, src, depth, visited, now, next);
        Skip(adj, src, depth, visited, now);
        now := now[1..];
        continue;
      }
      ghost var before, orderBefore := visited, order;
      ghost var added;
      visited, order, q, truncated, added := Expand(Neighbours(adj, e.node), e.depth, visited, order, q, limits.maxNodes);
      assert now == [e.node] + now[1..];
      Finish(adj, src, depth, before, d, e.node, now[1..], next, added);
      Concat(orderBefore, added);
      InSetOf(order);
      if truncated {
        StoppedAtLevel(adj, src, depth, before, d, e.node, now, next, added, order);
        return;
      }
      TagTail(now[1..], next, added, d);
      now, next := now[1..], next + added;
    }
    InSetOf(order);
    QueueEnd(now, next, d);
    Finished(adj, src, depth, visited, d);
  }

  lemma InSetOf(s: seq<Id>)
    ensures forall u :: u in s <==> u in SetOf(s)
  {}

  lemma NoRepeatsEmpty()
    ensures NoRepeats<Id>([])
  {}

  lemma QueueEnd(now: seq<Id>, next: seq<Id>, d: nat)
    requires Tag(now, d) + Tag(next, d + 1) == []
    ensures now == [] && next == []
  {
    assert |Tag(now, d) + Tag(next, d + 1)| == |now| + |next|;
  }

  lemma QueueStart(src: Id)
    ensures [Entry(src, 0)] == Tag([src], 0) + Tag([], 1)
  {}

  // ----- reachability in the graph

  /** A walk over the graph's own links, from one node to another in at most n hops. */
  ghost predicate GraphWalk(nodes: seq<Node>, edges: seq<Edge>, relations: set<string>, src: Id, u: Id, n: nat, p: Path) {
    && p != [] && p[0] == src && p[|p| - 1] == u && |p| - 1 <= n
    && forall i :: 0 <= i < |p| - 1 ==> Linked(nodes, edges, relations, p[i], p[i + 1])
  }

  ghost predicate Reaches(nodes: seq<Node>, edges: seq<Edge>, relations: set<string>, src: Id, u: Id, n: nat) {
    exists p :: GraphWalk(nodes, edges, relations, src, u, n, p)
  }

  lemma WithinMeansReaches(nodes: seq<Node>, edges: seq<Edge>, relations: set<string>, adj: Adjacency, src: Id,
                           u: Id, n: nat)
    requires IsAdjacency(nodes, edges, relations, adj)
    ensures u in Within(adj, src, n) <==> Reaches(nodes, edges, relations, src, u, n)
  {
    hide Linked, Within, NoRepeatedNeighbours;
    WithinMeansConnected(adj, src, u, n);
    forall p ensures Connects(adj, src, u, n, p) <==> GraphWalk(nodes, edges, relations, src, u, n, p) {}
  }

  /**
   The nodes reachable from one node: with the search not cut short, exactly the others whose shortest
   distance is at most the depth; cut short, still only such nodes. An unknown node reaches nothing.
   */
  method ReachableFrom(nodes: seq<Node>, edges: seq<Edge>, src: Id, limits: Limits) returns (r: ReachResult)
    ensures NoRepeats(r.nodes) && SortedBy(r.nodes, NodeOrder(IndexOf(nodes))) && |r.nodes| <= Hops(limits.maxNodes)
    ensures !IsId(nodes, src) ==> r == ReachResult([], false)
    ensures forall u :: u in r.nodes ==>
              u != src && Reaches(nodes, edges, REACHABILITY, src, u, Hops(limits.maxDepth))
    ensures IsId(nodes, src) && !r.truncated ==>
              forall u :: u != src && Reaches(nodes, edges, REACHABILITY, src, u, Hops(limits.maxDepth)) ==> u in r.nodes
    ensures IsId(nodes, src) ==> (r.truncated <==> |r.nodes| >= limits.maxNodes)
    ensures r.truncated && limits.maxNodes >= 1 ==> Nearest(nodes, edges, src, Hops(limits.maxDepth), r.nodes)
  {
    hide IsAdjacency, Sort, NodeOrder, Within, Reaches, NoRepeats, SortedBy, Hops;
    var byId := IndexOf(nodes);
    IndexFinds(nodes);
    NodeOrderIsTotal(byId);
    if src !in byId {
      SortNothing(byId);
      return ReachResult([], false);
    }
    var adj := BuildAdjacency(nodes, edges, REACHABILITY);
    var order, truncated := Search(adj, src, limits);
    SortKeeps(order, NodeOrder(byId));
    SortSorts(order, NodeOrder(byId));
    forall u ensures u in Within(adj, src, Hops(limits.maxDepth))
                <==> Reaches(nodes, edges, REACHABILITY, src, u, Hops(limits.maxDepth))
    {
      WithinMeansReaches(nodes, edges, REACHABILITY, adj, src, u, Hops(limits.maxDepth));
    }
    r := ReachResult(Sort(order, NodeOrder(byId)), truncated);
    if truncated && limits.maxNodes >= 1 { NearestInGraph(nodes, edges, adj, src, Hops(limits.maxDepth), order, r.nodes); }
  }

  /** For some distance: every node up to it is among these, and none that is more than one hop further. */
  ghost predicate Nearest(nodes: seq<Node>, edges: seq<Edge>, src: Id, depth: nat, found: seq<Id>) {
    exists d: nat :: d < depth && ReachesBetween(nodes, edges, src, d, found)
  }

  ghost predicate ReachesBetween(nodes: seq<Node>, edges: seq<Edge>, src: Id, d: nat, found: seq<Id>) {
    && (forall u :: u != src && Reaches(nodes, edges, REACHABILITY, src, u, d) ==> u in found)
    && forall u :: u in found ==> Reaches(nodes, edges, REACHABILITY, src, u, d + 1)
  }

  lemma NearestInGraph(nodes: seq<Node>, edges: seq<Edge>, adj: Adjacency, src: Id, depth: nat, order: seq<Id>, found: seq<Id>)
    requires IsAdjacency(nodes, edges, REACHABILITY, adj) && NearestFirst(adj, src, depth, order)
    requires forall u :: u in found <==> u in order
    ensures Nearest(nodes, edges, src, depth, found)
  {
    hide IsAdjacency, Within, Reaches;
    var d: nat :| d < depth && FoundBetween(adj, src, d, order);
    forall u, n ensures u in Within(adj, src, n) <==> Reaches(nodes, edges, REACHABILITY, src, u, n) {
      WithinMeansReaches(nodes, edges, REACHABILITY, adj, src, u, n);
    }
    assert ReachesBetween(nodes, edges, src, d, found);
  }

  lemma SortNothing(byId: map<Id, Node>)
    ensures NoRepeats<Id>([]) && SortedBy([], NodeOrder(byId))
  {}

  // ----- blast radius

  function TotalScore(byId: map<Id, Node>, ids: seq<Id>): int {
    if ids == [] then 0
    else (if ids[0] in byId then byId[ids[0]].exposureScore else 0) + TotalScore(byId, ids[1..])
  }

  function SensitiveAmong(byId: map<Id, Node>, ids: seq<Id>): seq<Id> {
    if ids == [] then []
    else (if ids[0] in byId && IsSensitive(byId[ids[0]]) then [ids[0]] else []) + SensitiveAmong(byId, ids[1..])
  }

  lemma FirstIsLeast(ids: seq<Id>, leq: (Id, Id) -> bool)
    requires ids != []
    ensures SortedBy(ids, leq) ==> SortedBy(ids[1..], leq) && forall u :: u in ids[1..] ==> leq(ids[0], u)
    ensures NoRepeats(ids) ==> NoRepeats(ids[1..]) && ids[0] !in ids[1..]
  {
    assert forall i :: 0 <= i < |ids| - 1 ==> ids[1..][i] == ids[i + 1];
  }

  /** Some of the rest, kept in order, may stand behind the first. */
  lemma KeptInFront(ids: seq<Id>, kept: seq<Id>, leq: (Id, Id) -> bool)
    requires ids != [] && forall u :: u in kept ==> u in ids[1..]
    ensures NoRepeats(ids) && NoRepeats(kept) ==> NoRepeats([ids[0]] + kept)
    ensures SortedBy(ids, leq) && SortedBy(kept, leq) ==> SortedBy([ids[0]] + kept, leq)
  {
    FirstIsLeast(ids, leq);
  }

  /** The sensitive ones are exactly those, in the same order. */
  lemma {:induction false} SensitiveAmongMembers(byId: map<Id, Node>, ids: seq<Id>, leq: (Id, Id) -> bool)
    ensures forall u :: u in SensitiveAmong(byId, ids) <==> u in ids && u in byId && Exposed(byId[u])
    ensures NoRepeats(ids) ==> NoRepeats(SensitiveAmong(byId, ids))
    ensures SortedBy(ids, leq) ==> SortedBy(SensitiveAmong(byId, ids), leq)
  {
    assert forall n: Node :: IsSensitive(n) <==> Exposed(n);
    hide IsSensitive, Exposed;
    if ids != [] {
      var rest := ids[1..];
      SensitiveAmongMembers(byId, rest, leq);
      assert ids == [ids[0]] + rest;
      FirstIsLeast(ids, leq);
      KeptInFront(ids, SensitiveAmong(byId, rest), leq);
      hide NoRepeats, SortedBy;
    }
  }

  /** The weight of nodes is the sum of their exposure scores. */
  lemma {:induction false} ScoresAdd(byId: map<Id, Node>, ids: seq<Id>, more: seq<Id>)
    ensures TotalScore(byId, ids + more) == TotalScore(byId, ids) + TotalScore(byId, more)
    ensures forall u :: u in byId ==> TotalScore(byId, [u]) == byId[u].exposureScore
  {
    if ids == [] {
      assert ids + more == more;
    } else {
      ScoresAdd(byId, ids[1..], more);
      assert (ids + more)[1..] == ids[1..] + more;
    }
  }

  datatype BlastRadius = BlastRadius(
    root: Id, rootKey: string, affected: seq<Id>, sensitive: seq<Id>, exposurePaths: nat, weightedImpact: int, truncated: bool)

  /** What a node reaches, how much of it is sensitive, and how many exposure paths run through it. */
  method BlastRadiusOf(nodes: seq<Node>, edges: seq<Edge>, root: Id, limits: Limits)
    returns (b: BlastRadius, ghost found: PathResult, ghost tried: seq<Path>)
    ensures !IsId(nodes, root) ==> b == BlastRadius(root, "", [], [], 0, 0, false)
    ensures NoRepeats(b.affected)
    ensures forall u :: u in b.affected ==> u != root && Reaches(nodes, edges, REACHABILITY, root, u, Hops(limits.maxDepth))
    ensures IsId(nodes, root) && !b.truncated ==>
              && (forall u :: u in b.affected <==>
                    u != root && Reaches(nodes, edges, REACHABILITY, root, u, Hops(limits.maxDepth)))
              && (limits.maxPaths >= 1 ==> Complete(nodes, edges, REACHABILITY, Sensitive, limits.maxDepth, found.paths))
    ensures IsId(nodes, root) ==>
              && Explored(nodes, edges, REACHABILITY, Sensitive, limits, found, tried)
              && CutShortExactly(nodes, edges, REACHABILITY, limits, found)
              && b.exposurePaths == |Through(found.paths, root)|
              && b.weightedImpact == TotalScore(IndexOf(nodes), b.affected)
              && b.root == root && b.rootKey == KeyOf(IndexOf(nodes), root)
              && (b.truncated <==> |b.affected| >= limits.maxNodes || found.truncated)
              && (|b.affected| >= limits.maxNodes >= 1 ==> Nearest(nodes, edges, root, Hops(limits.maxDepth), b.affected))
    ensures NoRepeats(b.sensitive)
    ensures forall u :: u in b.sensitive <==> u in b.affected && u in IndexOf(nodes) && Exposed(IndexOf(nodes)[u])
    ensures SortedBy(b.affected, NodeOrder(IndexOf(nodes))) && SortedBy(b.sensitive, NodeOrder(IndexOf(nodes)))
  {
    hide Reaches, IsPath, NoRepeats, SortedBy, NodeOrder, PathOrder, Through, IndexOf, TotalScore, SensitiveAmong, Hops,
      Explored, CutShortExactly, Nearest, Complete, Exposed;
    var byId := IndexOf(nodes);
    IndexFinds(nodes);
    if root !in byId {
      SortNothing(byId);
      return BlastRadius(root, "", [], [], 0, 0, false), PathResult([], false), [];
    }
    var reach := ReachableFrom(nodes, edges, root, limits);
    var paths;
    paths, tried := ExposurePaths(nodes, edges, limits);
    found := paths;
    SensitiveAmongMembers(byId, reach.nodes, NodeOrder(byId));
    b := BlastRadius(root, byId[root].canonicalKey, reach.nodes, SensitiveAmong(byId, reach.nodes),
                     |Through(paths.paths, root)|, TotalScore(byId, reach.nodes), reach.truncated || paths.truncated);
  }
}
