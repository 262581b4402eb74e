/** Exposure and attack paths over a graph, and the chokepoints whose removal cuts them. */
module Exposure {
  import opened Sorting
  import opened PathSearch
  import opened AttackGraph

  // ----- exposure paths

  function IdsWhere(nodes: seq<Node>, pick: Node -> bool): seq<Id> {
    if nodes == [] then []
    else (if pick(nodes[0]) then [nodes[0].id] else []) + IdsWhere(nodes[1..], pick)
  }

  ghost predicate HasNode(nodes: seq<Node>, pick: Node -> bool, u: Id) {
    exists n :: n in nodes && pick(n) && n.id == u
  }

  lemma {:induction false} IdsWhereMembers(nodes: seq<Node>, pick: Node -> bool)
    ensures forall u :: u in IdsWhere(nodes, pick) <==> HasNode(nodes, pick, u)
  {
    if nodes != [] {
      IdsWhereMembers(nodes[1..], pick);
      assert nodes == [nodes[0]] + nodes[1..];
    }
  }

  const IsEntry: Node -> bool := (n: Node) => n.internetReachable
  const IsFinding: Node -> bool := (n: Node) => n.nodeType == "finding"
  const Sensitive: Node -> bool := (n: Node) => IsSensitive(n)

  /** A path from an internet-facing node to a node of the wanted kind, never twice through one node. */
  ghost predicate IsPath(nodes: seq<Node>, edges: seq<Edge>, relations: set<string>, ends: Node -> bool,
                         depth: int, p: Path)
  {
    && p != [] && NoRepeats(p) && |p| - 1 <= Hops(depth)
    && HasNode(nodes, IsEntry, p[0]) && HasNode(nodes, ends, p[|p| - 1])
    && forall i :: 0 <= i < |p| - 1 ==> Linked(nodes, edges, relations, p[i], p[i + 1])
  }

  /** All paths and nothing else, each once. */
  ghost predicate Complete(nodes: seq<Node>, edges: seq<Edge>, relations: set<string>, ends: Node -> bool,
                           depth: int, paths: seq<Path>)
  {
    NoRepeats(paths) && forall p :: p in paths <==> IsPath(nodes, edges, relations, ends, depth, p)
  }

  lemma ResultsArePaths(nodes: seq<Node>, edges: seq<Edge>, relations: set<string>, ends: Node -> bool,
                        depth: int, adj: Adjacency, sources: seq<Id>, targets: set<Id>, p: Path)
    requires IsAdjacency(nodes, edges, relations, adj)
    requires forall u :: u in sources <==> HasNode(nodes, IsEntry, u)
    requires forall u :: u in targets <==> HasNode(nodes, ends, u)
    ensures IsResult(adj, sources, targets, depth, p) <==> IsPath(nodes, edges, relations, ends, depth, p)
  {
    hide Linked, HasNode, NoRepeats, NoRepeatedNeighbours;
  }

  const AnyNode: Node -> bool := (n: Node) => true

  /** A path on the way: from an internet-facing node to anywhere. */
  ghost predicate IsPartial(nodes: seq<Node>, edges: seq<Edge>, relations: set<string>, depth: int, p: Path) {
    IsPath(nodes, edges, relations, AnyNode, depth, p)
  }

  /**
   The search visited these paths: the first of all in lexicographic node order, as far as it came. Its
   result is those of them that end where wanted. It was cut short when the results reached their cap,
   or the visits their budget with more to visit; otherwise it visited everything.
   */
  ghost predicate Explored(nodes: seq<Node>, edges: seq<Edge>, relations: set<string>, ends: Node -> bool,
                           limits: Limits, r: PathResult, visited: seq<Path>)
  {
    && NoRepeats(visited) && |visited| <= Hops(limits.maxNodes)
    && VisitedFirst(nodes, edges, relations, limits.maxDepth, visited)
    && (forall p :: p in r.paths <==> p in visited && IsPath(nodes, edges, relations, ends, limits.maxDepth, p))
    && (r.truncated <==>
          limits.maxPaths >= 1
          && (|r.paths| == limits.maxPaths
              || (|visited| == Hops(limits.maxNodes) && !VisitedAll(nodes, edges, relations, limits.maxDepth, visited))))
    && (limits.maxPaths >= 1 && !r.truncated ==> VisitedAll(nodes, edges, relations, limits.maxDepth, visited))
  }

  ghost predicate VisitedAll(nodes: seq<Node>, edges: seq<Edge>, relations: set<string>, depth: int, visited: seq<Path>) {
    forall p :: IsPartial(nodes, edges, relations, depth, p) ==> p in visited
  }

  ghost predicate VisitedFirst(nodes: seq<Node>, edges: seq<Edge>, relations: set<string>, depth: int, visited: seq<Path>) {
    var leq := NodeOrder(IndexOf(nodes));
    && Listed(leq, visited)
    && (forall p :: p in visited ==> IsPartial(nodes, edges, relations, depth, p))
    && forall p, q :: p in visited && IsPartial(nodes, edges, relations, depth, q) && q !in visited ==> ComesBefore(leq, p, q)
  }

  /** There are more paths on the way than the visits may number. */
  ghost predicate TooManyPartials(nodes: seq<Node>, edges: seq<Edge>, relations: set<string>, limits: Limits) {
    exists vs :: NoRepeats(vs) && |vs| > Hops(limits.maxNodes)
                 && forall p :: p in vs ==> IsPartial(nodes, edges, relations, limits.maxDepth, p)
  }

  /** Cut short exactly when the results reach their cap, or there is more to visit than the budget allows. */
  ghost predicate CutShortExactly(nodes: seq<Node>, edges: seq<Edge>, relations: set<string>, limits: Limits, r: PathResult) {
    r.truncated <==>
      limits.maxPaths >= 1 && (|r.paths| == limits.maxPaths || TooManyPartials(nodes, edges, relations, limits))
  }

  lemma ExploredMeansCutShort(nodes: seq<Node>, edges: seq<Edge>, relations: set<string>, ends: Node -> bool,
                              limits: Limits, r: PathResult, visited: seq<Path>)
    requires Explored(nodes, edges, relations, ends, limits, r, visited)
    ensures CutShortExactly(nodes, edges, relations, limits, r)
  {
    hide IsPath, NodeOrder, IndexOf, ComesBefore, Listed, IsPartial;
    if |visited| == Hops(limits.maxNodes) && !VisitedAll(nodes, edges, relations, limits.maxDepth, visited) {
      var p :| IsPartial(nodes, edges, relations, limits.maxDepth, p) && p !in visited;
      OneMore(visited, p);
      assert |visited + [p]| > Hops(limits.maxNodes);
    }
    if VisitedAll(nodes, edges, relations, limits.maxDepth, visited) && TooManyPartials(nodes, edges, relations, limits) {
      var vs :| NoRepeats(vs) && |vs| > Hops(limits.maxNodes)
                && forall p :: p in vs ==> IsPartial(nodes, edges, relations, limits.maxDepth, p);
      NoMoreThan(vs, visited);
    }
  }

  lemma OneMore(s: seq<Path>, p: Path)
    requires NoRepeats(s) && p !in s
    ensures NoRepeats(s + [p]) && forall q :: q in s + [p] <==> q in s || q == p
  {}

  lemma NoMoreThan(s: seq<Path>, t: seq<Path>)
    requires NoRepeats(s) && forall p :: p in s ==> p in t
    ensures |s| <= |t|
  {
    DistinctSize(s);
    SizeOfSet(t);
    var missing := SetOf(t) - SetOf(s);
    assert SetOf(t) == SetOf(s) + missing;
  }

  lemma {:induction false} SizeOfSet(t: seq<Path>)
    ensures |SetOf(t)| <= |t|
  {
    if t != [] {
      SizeOfSet(t[1..]);
      assert SetOf(t) == SetOf(t[1..]) + {t[0]} by { assert t == [t[0]] + t[1..]; }
    }
  }

  /** Enumerates the paths to the wanted nodes over the given relations. */
  method SearchPaths(nodes: seq<Node>, edges: seq<Edge>, relations: set<string>, ends: Node -> bool, limits: Limits)
    returns (r: PathResult, ghost visited: seq<Path>)
    ensures Explored(nodes, edges, relations, ends, limits, r, visited)
    ensures CutShortExactly(nodes, edges, relations, limits, r)
    ensures NoRepeats(r.paths) && SortedBy(r.paths, PathOrder(IndexOf(nodes)))
    ensures forall p :: p in r.paths ==> IsPath(nodes, edges, relations, ends, limits.maxDepth, p)
    ensures |r.paths| <= Hops(limits.maxPaths)
    ensures limits.maxPaths >= 1 && !r.truncated ==> Complete(nodes, edges, relations, ends, limits.maxDepth, r.paths)
    ensures limits.maxPaths < 1 ==> !r.truncated
  {
    hide IsPath, IsResult, Sort, SortedBy, PathOrder, NodeOrder, NoRepeats, IsAdjacency, HasNode, Linked, IdsWhere, Hits;
    var byId := IndexOf(nodes);
    var adj := BuildAdjacency(nodes, edges, relations);
    var entries := Distinct(IdsWhere(nodes, IsEntry));
    DistinctKeeps(IdsWhere(nodes, IsEntry));
    IdsWhereMembers(nodes, IsEntry);
    SortKeeps(entries, NodeOrder(byId));
    var sources := Sort(entries, NodeOrder(byId));
    NodeOrderIsTotal(byId);
    SortSorts(entries, NodeOrder(byId));
    IdsWhereMembers(nodes, ends);
    var targets := SetOf(IdsWhere(nodes, ends));
    AdjacencyOnce(nodes, edges, relations, adj);
    r, visited := Enumerate(byId, adj, sources, targets, limits);
    EnumerationIsExact(byId, adj, sources, targets, limits.maxDepth, visited, r.paths);
    SearchExplored(nodes, edges, relations, ends, limits, adj, sources, targets, r, visited);
    ExploredMeansCutShort(nodes, edges, relations, ends, limits, r, visited);
    forall p ensures IsResult(adj, sources, targets, limits.maxDepth, p)
                <==> IsPath(nodes, edges, relations, ends, limits.maxDepth, p)
    {
      ResultsArePaths(nodes, edges, relations, ends, limits.maxDepth, adj, sources, targets, p);
    }
  }

  lemma SimpleIsPartial(nodes: seq<Node>, edges: seq<Edge>, relations: set<string>, depth: int, adj: Adjacency,
                        sources: seq<Id>, p: Path)
    requires IsAdjacency(nodes, edges, relations, adj)
    requires forall u :: u in sources <==> HasNode(nodes, IsEntry, u)
    ensures IsSimplePath(adj, p) && p[0] in sources && |p| - 1 <= Hops(depth) <==> IsPartial(nodes, edges, relations, depth, p)
  {
    hide Linked, NoRepeats, NoRepeatedNeighbours, HasNode;
    if IsSimplePath(adj, p) && p[0] in sources {
      if |p| > 1 {
        assert p[|p| - 2 + 1] in Neighbours(adj, p[|p| - 2]);
        LinkedIsNode(nodes, edges, relations, p[|p| - 2], p[|p| - 1]);
      } else {
        EntryIsNode(nodes, p[0]);
      }
    }
  }

  lemma LinkedIsNode(nodes: seq<Node>, edges: seq<Edge>, relations: set<string>, u: Id, v: Id)
    requires Linked(nodes, edges, relations, u, v)
    ensures HasNode(nodes, AnyNode, v)
  {
    var n :| n in nodes && n.id == v;
    assert AnyNode(n);
  }

  lemma EntryIsNode(nodes: seq<Node>, u: Id)
    requires HasNode(nodes, IsEntry, u)
    ensures HasNode(nodes, AnyNode, u)
  {
    var n :| n in nodes && IsEntry(n) && n.id == u;
    assert AnyNode(n);
  }

  /** What the enumeration guarantees, stated on nodes and edges. */
  lemma SearchExplored(nodes: seq<Node>, edges: seq<Edge>, relations: set<string>, ends: Node -> bool, limits: Limits,
                       adj: Adjacency, sources: seq<Id>, targets: set<Id>, r: PathResult, visited: seq<Path>)
    requires IsAdjacency(nodes, edges, relations, adj) && NeighboursSorted(adj, NodeOrder(IndexOf(nodes)))
    requires NoRepeats(sources) && SortedBy(sources, NodeOrder(IndexOf(nodes)))
    requires forall u :: u in sources <==> HasNode(nodes, IsEntry, u)
    requires forall u :: u in targets <==> HasNode(nodes, ends, u)
    requires visited <= FullVisit(adj, sources, limits.maxDepth) && |visited| <= Hops(limits.maxNodes)
    requires r.paths == Sort(Hits(visited, targets), PathOrder(IndexOf(nodes)))
    requires limits.maxPaths >= 1 && !r.truncated ==>
               visited == FullVisit(adj, sources, limits.maxDepth) && |r.paths| < limits.maxPaths
    requires r.truncated ==>
               limits.maxPaths >= 1 && StoppedEarly(limits, r.paths, visited, FullVisit(adj, sources, limits.maxDepth))
    ensures Explored(nodes, edges, relations, ends, limits, r, visited)
  {
    hide IsAdjacency, NeighboursSorted, SourceVisits, SortedBy, NoRepeats, NodeOrder, PathOrder, Sort, Hits, HasNode, IsPartial,
      IsPath, Listed, ComesBefore, IsSimplePath;
    var all, depth, leq := FullVisit(adj, sources, limits.maxDepth), limits.maxDepth, NodeOrder(IndexOf(nodes));
    AdjacencyOnce(nodes, edges, relations, adj);
    SourceVisitsOnce(adj, sources, depth);
    SourceVisitsListed(adj, sources, depth, leq);
    forall p ensures p in all <==> IsPartial(nodes, edges, relations, depth, p) {
      SourceVisitsMembers(adj, sources, depth, p);
      SimpleIsPartial(nodes, edges, relations, depth, adj, sources, p);
    }
    PrefixOnce(visited, all);
    PrefixComesFirst(leq, visited, all);
    assert VisitedFirst(nodes, edges, relations, depth, visited);
    SortKeeps(Hits(visited, targets), PathOrder(IndexOf(nodes)));
    HitsMembers(visited, targets);
    forall p | p in visited ensures EndsIn(p, targets) <==> IsPath(nodes, edges, relations, ends, depth, p) {
      PartialThatEnds(nodes, edges, relations, ends, depth, p, targets);
    }
    if |visited| < |all| { LaterIsMissing(visited, all); }
    assert VisitedAll(nodes, edges, relations, depth, visited) <==> visited == all;
  }

  lemma PartialThatEnds(nodes: seq<Node>, edges: seq<Edge>, relations: set<string>, ends: Node -> bool, depth: int,
                        p: Path, targets: set<Id>)
    requires IsPartial(nodes, edges, relations, depth, p) && forall u :: u in targets <==> HasNode(nodes, ends, u)
    ensures EndsIn(p, targets) <==> IsPath(nodes, edges, relations, ends, depth, p)
  {
    hide HasNode, NoRepeats, Linked;
  }

  lemma LaterIsMissing(visited: seq<Path>, all: seq<Path>)
    requires NoRepeats(all) && visited <= all && |visited| < |all|
    ensures all[|visited|] in all && all[|visited|] !in visited
  {
    forall i | 0 <= i < |visited| ensures visited[i] != all[|visited|] { assert all[i] == visited[i]; }
  }

  lemma PrefixComesFirst(leq: (Id, Id) -> bool, visited: seq<Path>, all: seq<Path>)
    requires Listed(leq, all) && visited <= all
    ensures Listed(leq, visited)
    ensures forall p, q :: p in visited && q in all && q !in visited ==> ComesBefore(leq, p, q)
  {
    hide ComesBefore;
    assert forall i :: 0 <= i < |visited| ==> visited[i] == all[i];
    forall p, q | p in visited && q in all && q !in visited ensures ComesBefore(leq, p, q) {
      var i :| 0 <= i < |visited| && visited[i] == p;
      var j :| 0 <= j < |all| && all[j] == q;
      assert j >= |visited|;
    }
  }

  lemma AdjacencyOnce(nodes: seq<Node>, edges: seq<Edge>, relations: set<string>, adj: Adjacency)
    requires IsAdjacency(nodes, edges, relations, adj)
    ensures NoRepeatedNeighbours(adj)
  {}

  /** Internet-facing node to sensitive node, over reachability relations only. */
  method ExposurePaths(nodes: seq<Node>, edges: seq<Edge>, limits: Limits) returns (r: PathResult, ghost visited: seq<Path>)
    ensures Explored(nodes, edges, REACHABILITY, Sensitive, limits, r, visited)
    ensures CutShortExactly(nodes, edges, REACHABILITY, limits, r)
    ensures NoRepeats(r.paths) && SortedBy(r.paths, PathOrder(IndexOf(nodes)))
    ensures forall p :: p in r.paths ==> IsPath(nodes, edges, REACHABILITY, Sensitive, limits.maxDepth, p)
    ensures |r.paths| <= Hops(limits.maxPaths)
    ensures limits.maxPaths >= 1 && !r.truncated ==>
              Complete(nodes, edges, REACHABILITY, Sensitive, limits.maxDepth, r.paths)
  {
    r, visited := SearchPaths(nodes, edges, REACHABILITY, Sensitive, limits);
  }

  /** Internet-facing node to finding, over the attack relations. */
  method AttackPaths(nodes: seq<Node>, edges: seq<Edge>, limits: Limits) returns (r: PathResult, ghost visited: seq<Path>)
    ensures Explored(nodes, edges, ATTACK, IsFinding, limits, r, visited)
    ensures CutShortExactly(nodes, edges, ATTACK, limits, r)
    ensures NoRepeats(r.paths) && SortedBy(r.paths, PathOrder(IndexOf(nodes)))
    ensures forall p :: p in r.paths ==> IsPath(nodes, edges, ATTACK, IsFinding, limits.maxDepth, p)
    ensures |r.paths| <= Hops(limits.maxPaths)
    ensures limits.maxPaths >= 1 && !r.truncated ==>
              Complete(nodes, edges, ATTACK, IsFinding, limits.maxDepth, r.paths)
  {
    r, visited := SearchPaths(nodes, edges, ATTACK, IsFinding, limits);
  }

  // ----- removing a node removes exactly the paths through it

  function WithoutNode(nodes: seq<Node>, u: Id): seq<Node> {
    if nodes == [] then []
    else (if nodes[0].id == u then [] else [nodes[0]]) + WithoutNode(nodes[1..], u)
  }

  function WithoutEdges(edges: seq<Edge>, u: Id): seq<Edge> {
    if edges == [] then []
    else (if edges[0].src == u || edges[0].dst == u then [] else [edges[0]]) + WithoutEdges(edges[1..], u)
  }

  lemma {:induction false} WithoutNodeMembers(nodes: seq<Node>, u: Id)
    ensures forall n :: n in WithoutNode(nodes, u) <==> n in nodes && n.id != u
  {
    if nodes != [] {
      WithoutNodeMembers(nodes[1..], u);
      assert nodes == [nodes[0]] + nodes[1..];
    }
  }

  lemma {:induction false} WithoutEdgesMembers(edges: seq<Edge>, u: Id)
    ensures forall e :: e in WithoutEdges(edges, u) <==> e in edges && e.src != u && e.dst != u
  {
    if edges != [] {
      WithoutEdgesMembers(edges[1..], u);
      assert edges == [edges[0]] + edges[1..];
    }
  }

  lemma LinkedWithout(nodes: seq<Node>, edges: seq<Edge>, relations: set<string>, u: Id, v: Id, w: Id)
    ensures Linked(WithoutNode(nodes, u), WithoutEdges(edges, u), relations, v, w)
       <==> Linked(nodes, edges, relations, v, w) && v != u && w != u
  {
    WithoutNodeMembers(nodes, u);
    WithoutEdgesMembers(edges, u);
    hide WithoutNode, WithoutEdges;
    var smaller, fewer := WithoutNode(nodes, u), WithoutEdges(edges, u);
    forall x ensures IsId(smaller, x) <==> IsId(nodes, x) && x != u {}
    if Linked(nodes, edges, relations, v, w) && v != u && w != u {
      var e :| e in edges && e.relation in relations && e.src == v && e.dst == w;
      assert e in fewer;
    }
  }

  /** The paths of the graph without u are the paths of the graph that avoid u. */
  lemma PathsWithout(nodes: seq<Node>, edges: seq<Edge>, relations: set<string>, ends: Node -> bool, depth: int,
                     u: Id, p: Path)
    ensures IsPath(WithoutNode(nodes, u), WithoutEdges(edges, u), relations, ends, depth, p)
       <==> IsPath(nodes, edges, relations, ends, depth, p) && u !in p
  {
    hide WithoutNode, WithoutEdges, Linked, NoRepeats;
    WithoutNodeMembers(nodes, u);
    var smaller, fewer := WithoutNode(nodes, u), WithoutEdges(edges, u);
    forall v, w ensures Linked(smaller, fewer, relations, v, w)
                   <==> Linked(nodes, edges, relations, v, w) && v != u && w != u
    { LinkedWithout(nodes, edges, relations, u, v, w); }
    if IsPath(smaller, fewer, relations, ends, depth, p) {
      forall i | 0 <= i < |p| ensures p[i] != u {
        if i > 0 { assert Linked(smaller, fewer, relations, p[i - 1], p[i - 1 + 1]); }
      }
    }
  }

  /** The paths that go through u, in order. */
  function Through(paths: seq<Path>, u: Id): seq<Path> {
    if paths == [] then []
    else
      var last := paths[|paths| - 1];
      Through(paths[..|paths| - 1], u) + if u in last then [last] else []
  }

  function Avoiding(paths: seq<Path>, u: Id): seq<Path> {
    if paths == [] then []
    else
      var last := paths[|paths| - 1];
      Avoiding(paths[..|paths| - 1], u) + if u in last then [] else [last]
  }

  lemma {:induction false} ThroughAndAvoiding(paths: seq<Path>, u: Id)
    ensures |Through(paths, u)| + |Avoiding(paths, u)| == |paths|
    ensures forall p :: p in Through(paths, u) <==> p in paths && u in p
    ensures forall p :: p in Avoiding(paths, u) <==> p in paths && u !in p
  {
    if paths != [] {
      ThroughAndAvoiding(paths[..|paths| - 1], u);
      assert paths == paths[..|paths| - 1] + [paths[|paths| - 1]];
    }
  }

  lemma {:induction false} AvoidingOnce(paths: seq<Path>, u: Id)
    requires NoRepeats(paths)
    ensures NoRepeats(Avoiding(paths, u))
  {
    if paths != [] {
      var init := paths[..|paths| - 1];
      AvoidingOnce(init, u);
      ThroughAndAvoiding(init, u);
      assert paths[|paths| - 1] !in init;
    }
  }

  /** paths_cut is exact: deleting u leaves exactly the paths not through u, total minus paths_cut of them. */
  lemma CutIsExact(nodes: seq<Node>, edges: seq<Edge>, relations: set<string>, ends: Node -> bool, depth: int,
                   u: Id, paths: seq<Path>, left: seq<Path>)
    requires Complete(nodes, edges, relations, ends, depth, paths)
    requires Complete(WithoutNode(nodes, u), WithoutEdges(edges, u), relations, ends, depth, left)
    ensures forall p :: p in left <==> p in paths && u !in p
    ensures |left| == |paths| - |Through(paths, u)|
  {
    hide IsPath, WithoutNode, WithoutEdges, NoRepeats, Through, Avoiding;
    forall p ensures p in left <==> p in paths && u !in p {
      PathsWithout(nodes, edges, relations, ends, depth, u, p);
    }
    ThroughAndAvoiding(paths, u);
    AvoidingOnce(paths, u);
    SameMembersSameLength(left, Avoiding(paths, u));
  }

  // ----- conservation: the cuts add up to the nodes on all paths

  function TotalNodes(paths: seq<Path>): nat {
    if paths == [] then 0 else TotalNodes(paths[..|paths| - 1]) + |paths[|paths| - 1]|
  }

  function SumOfCuts(ids: seq<Id>, paths: seq<Path>): nat {
    if ids == [] then 0 else |Through(paths, ids[0])| + SumOfCuts(ids[1..], paths)
  }

  function CountOn(ids: seq<Id>, p: Path): nat {
    if ids == [] then 0 else (if ids[0] in p then 1 else 0) + CountOn(ids[1..], p)
  }

  lemma {:induction false} SumOfCutsGrows(ids: seq<Id>, paths: seq<Path>, p: Path)
    ensures SumOfCuts(ids, paths + [p]) == SumOfCuts(ids, paths) + CountOn(ids, p)
  {
    if ids != [] {
      SumOfCutsGrows(ids[1..], paths, p);
      assert (paths + [p])[..|paths|] == paths;
      assert |Through(paths + [p], ids[0])| == |Through(paths, ids[0])| + if ids[0] in p then 1 else 0;
    }
  }

  lemma {:induction false} CountOnIsShared(ids: seq<Id>, p: Path)
    requires NoRepeats(ids)
    ensures CountOn(ids, p) == |SetOf(ids) * SetOf(p)|
  {
    hide SetOf;
    if ids == [] {
      SetOfEmpty();
    } else {
      CountOnIsShared(ids[1..], p);
      SharedStep(ids, SetOf(p));
      assert ids[0] in SetOf(p) <==> ids[0] in p by { SetOfMembers(p); }
    }
  }

  lemma SetOfEmpty()
    ensures SetOf<Id>([]) == {}
  {}

  lemma SetOfMembers(p: Path)
    ensures forall u :: u in SetOf(p) <==> u in p
  {}

  lemma SharedStep(ids: seq<Id>, s: set<Id>)
    requires NoRepeats(ids) && ids != []
    ensures |SetOf(ids) * s| == |SetOf(ids[1..]) * s| + if ids[0] in s then 1 else 0
  {
    var u, rest := ids[0], SetOf(ids[1..]);
    assert u !in ids[1..];
    assert SetOf(ids) == {u} + rest;
    if u in s { assert SetOf(ids) * s == {u} + (rest * s); } else { assert SetOf(ids) * s == rest * s; }
  }

  lemma {:induction false} NoCuts(ids: seq<Id>)
    ensures SumOfCuts(ids, []) == 0
  {
    if ids != [] { NoCuts(ids[1..]); }
  }

  /** Summed over all nodes, paths_cut equals the number of nodes on all paths. */
  lemma {:induction false} CutsAddUp(ids: seq<Id>, paths: seq<Path>)
    requires NoRepeats(ids)
    requires forall p :: p in paths ==> NoRepeats(p) && forall u :: u in p ==> u in ids
    ensures SumOfCuts(ids, paths) == TotalNodes(paths)
  {
    if paths == [] {
      NoCuts(ids);
    } else {
      var init, p := paths[..|paths| - 1], paths[|paths| - 1];
      assert p in paths && paths == init + [p];
      assert forall q :: q in init ==> q in paths;
      CutsAddUp(ids, init);
      SumOfCutsGrows(ids, init, p);
      CountOnIsShared(ids, p);
      DistinctSize(p);
      assert SetOf(ids) * SetOf(p) == SetOf(p);
    }
  }

  /** The conservation law for what a search that was not cut short returns. */
  lemma CutsOfSearchAddUp(nodes: seq<Node>, edges: seq<Edge>, relations: set<string>, ends: Node -> bool, depth: int,
                          ids: seq<Id>, paths: seq<Path>)
    requires Complete(nodes, edges, relations, ends, depth, paths)
    requires NoRepeats(ids) && forall u :: IsId(nodes, u) ==> u in ids
    ensures SumOfCuts(ids, paths) == TotalNodes(paths)
  {
    hide Linked;
    forall p | p in paths ensures NoRepeats(p) && forall u :: u in p ==> u in ids {
      forall i | 0 <= i < |p| ensures p[i] in ids { OnPathIsNode(nodes, edges, relations, ends, depth, p, i); }
    }
    CutsAddUp(ids, paths);
  }

  lemma OnPathIsNode(nodes: seq<Node>, edges: seq<Edge>, relations: set<string>, ends: Node -> bool, depth: int,
                     p: Path, i: nat)
    requires IsPath(nodes, edges, relations, ends, depth, p) && i < |p|
    ensures IsId(nodes, p[i])
  {
    if i > 0 { assert Linked(nodes, edges, relations, p[i - 1], p[i - 1 + 1]); }
  }

  // ----- chokepoints

  /** The exact ratio of two counts. */
  datatype Share = Share(part: nat, whole: nat)

  datatype Chokepoint = Chokepoint(node: Id, pathsCut: nat, totalPaths: nat, fraction: Share, evidence: seq<Path>)

  datatype ChokepointResult = ChokepointResult(chokepoints: seq<Chokepoint>, totalPaths: nat, truncated: bool)

  /** For every node on a path, and no other, the paths that go through it. */
  ghost predicate IsCutTable(table: map<Id, seq<Path>>, paths: seq<Path>) {
    && (forall u :: u in table <==> Through(paths, u) != [])
    && forall u :: u in table ==> table[u] == Through(paths, u)
  }

  lemma ThroughGrows(paths: seq<Path>, p: Path, u: Id)
    ensures Through(paths + [p], u) == if u in p then Through(paths, u) + [p] else Through(paths, u)
  {
    assert (paths + [p])[..|paths|] == paths;
  }

  /** Adds one path to the entry of each node on it. */
  method AddPath(table0: map<Id, seq<Path>>, ghost paths: seq<Path>, p: Path) returns (table: map<Id, seq<Path>>)
    requires IsCutTable(table0, paths)
    ensures IsCutTable(table, paths + [p])
  {
    hide Through;
    forall u ensures Through(paths + [p], u) == if u in p then Through(paths, u) + [p] else Through(paths, u) {
      ThroughGrows(paths, p, u);
    }
    table := table0;
    var todo := SetOf(p);
    while todo != {}
      invariant forall u :: u in todo ==> u in p
      invariant forall u :: u in table <==> u in table0 || (u in p && u !in todo)
      invariant forall u :: u in table && (u !in p || u in todo) ==> table[u] == table0[u]
      invariant forall u :: u in p && u !in todo ==> table[u] == Through(paths, u) + [p]
      decreases todo
    {
      var u :| u in todo;
      table := table[u := (if u in table then table[u] else []) + [p]];
      todo := todo - {u};
    }
  }

  method CutTable(paths: seq<Path>) returns (table: map<Id, seq<Path>>)
    ensures IsCutTable(table, paths)
  {
    table := map[];
    for k := 0 to |paths|
      invariant IsCutTable(table, paths[..k])
    {
      table := AddPath(table, paths[..k], paths[k]);
      assert paths[..k + 1] == paths[..k] + [paths[k]];
    }
    assert paths[..|paths|] == paths;
  }

  /** The keys of a table as a list without repetitions. */
  method KeyList(table: map<Id, seq<Path>>) returns (ids: seq<Id>)
    ensures NoRepeats(ids) && forall u :: u in ids <==> u in table
  {
    ids := [];
    var todo := table.Keys;
    while todo != {}
      invariant todo <= table.Keys && NoRepeats(ids)
      invariant forall u :: u in ids <==> u in table && u !in todo
      decreases todo
    {
      var u :| u in todo;
      ids := ids + [u];
      todo := todo - {u};
    }
  }

  function Cuts(table: map<Id, seq<Path>>, u: Id): nat { if u in table then |table[u]| else 0 }

  /** Most cut paths first, ties in node order. */
  function RankOrder(byId: map<Id, Node>, table: map<Id, seq<Path>>): (Id, Id) -> bool {
    (u, v) => Cuts(table, u) > Cuts(table, v) || (Cuts(table, u) == Cuts(table, v) && NodeOrder(byId)(u, v))
  }

  lemma RankOrderIsTotal(byId: map<Id, Node>, table: map<Id, seq<Path>>)
    ensures Total(RankOrder(byId, table)) && Transitive(RankOrder(byId, table))
  {
    NodeOrderIsTotal(byId);
    hide NodeOrder;
    var leq := RankOrder(byId, table);
    assert forall u, v :: NodeOrder(byId)(u, v) || NodeOrder(byId)(v, u);
  }

  /** How a listed chokepoint reports the paths through its node: their number, share and first three. */
  ghost predicate Reports(c: Chokepoint, paths: seq<Path>) {
    var cut := Through(paths, c.node);
    && cut != [] && c.pathsCut == |cut| && c.totalPaths == |paths|
    && c.fraction == Share(|cut|, |paths|)
    && c.evidence <= cut && |c.evidence| == (if |cut| < 3 then |cut| else 3)
  }

  /** The nodes on some path, most cut paths first, ties in node order. */
  ghost predicate IsRanking(byId: map<Id, Node>, ranked: seq<Id>, paths: seq<Path>) {
    && NoRepeats(ranked) && (forall u :: u in ranked <==> Through(paths, u) != [])
    && forall i, j :: 0 <= i < j < |ranked| ==>
        || |Through(paths, ranked[i])| > |Through(paths, ranked[j])|
        || (|Through(paths, ranked[i])| == |Through(paths, ranked[j])| && NodeOrder(byId)(ranked[i], ranked[j]))
  }

  method RankNodes(byId: map<Id, Node>, paths: seq<Path>) returns (ranked: seq<Id>, table: map<Id, seq<Path>>)
    ensures IsCutTable(table, paths) && IsRanking(byId, ranked, paths)
  {
    hide Through, Sort, NodeOrder;
    table := CutTable(paths);
    var ids := KeyList(table);
    ranked := Sort(ids, RankOrder(byId, table));
    SortKeeps(ids, RankOrder(byId, table));
    RankOrderIsTotal(byId, table);
    SortSorts(ids, RankOrder(byId, table));
    forall i, j | 0 <= i < j < |ranked|
      ensures || |Through(paths, ranked[i])| > |Through(paths, ranked[j])|
              || (|Through(paths, ranked[i])| == |Through(paths, ranked[j])| && NodeOrder(byId)(ranked[i], ranked[j]))
    {
      assert ranked[i] in ranked && ranked[j] in ranked;
      assert RankOrder(byId, table)(ranked[i], ranked[j]);
      assert forall u :: u in ranked ==> Cuts(table, u) == |Through(paths, u)|;
    }
  }

  /** The first nodes of the ranking, each with its report. */
  ghost predicate IsReport(out: seq<Chokepoint>, ranked: seq<Id>, paths: seq<Path>) {
    |out| <= |ranked| && forall i :: 0 <= i < |out| ==> out[i].node == ranked[i] && Reports(out[i], paths)
  }

  method ReportNode(u: Id, table: map<Id, seq<Path>>, paths: seq<Path>) returns (c: Chokepoint)
    requires IsCutTable(table, paths) && Through(paths, u) != []
    ensures c.node == u && Reports(c, paths)
  {
    ThroughAndAvoiding(paths, u);
    hide Through;
    var hits := table[u];
    c := Chokepoint(u, |hits|, |paths|, Share(|hits|, |paths|), if |hits| < 3 then hits else hits[..3]);
  }

  /** Chokepoints of the enumerated exposure paths, ranked by how many of them removal would cut.
      The paths and the whole ranking are returned beside the report that is cut from them. */
  method Chokepoints(nodes: seq<Node>, edges: seq<Edge>, limits: Limits, top: int)
    returns (r: ChokepointResult, paths: seq<Path>, ranked: seq<Id>, ghost visited: seq<Path>)
    ensures Explored(nodes, edges, REACHABILITY, Sensitive, limits, PathResult(paths, r.truncated), visited)
    ensures CutShortExactly(nodes, edges, REACHABILITY, limits, PathResult(paths, r.truncated))
    ensures NoRepeats(paths) && |paths| == r.totalPaths
    ensures forall p :: p in paths ==> IsPath(nodes, edges, REACHABILITY, Sensitive, limits.maxDepth, p)
    ensures limits.maxPaths >= 1 && !r.truncated ==>
              Complete(nodes, edges, REACHABILITY, Sensitive, limits.maxDepth, paths)
    ensures IsRanking(IndexOf(nodes), ranked, paths) && IsReport(r.chokepoints, ranked, paths)
    ensures |r.chokepoints| == if Hops(top) < |ranked| then Hops(top) else |ranked|
  {
    hide IsPath, SortedBy, PathOrder, NoRepeats, Through, Reports, IsCutTable, NodeOrder, IndexOf, Explored, CutShortExactly, Complete;
    var found;
    found, visited := ExposurePaths(nodes, edges, limits);
    paths := found.paths;
    assert PathResult(paths, found.truncated) == found;
    var table;
    ranked, table := RankNodes(IndexOf(nodes), paths);
    var out := [];
    while |out| < |ranked| && |out| < top
      invariant IsReport(out, ranked, paths) && |out| <= Hops(top)
      decreases |ranked| - |out|
    {
      var u := ranked[|out|];
      assert u in ranked;
      var c := ReportNode(u, table, paths);
      out := out + [c];
    }
    r := ChokepointResult(out, |paths|, found.truncated);
  }
}
