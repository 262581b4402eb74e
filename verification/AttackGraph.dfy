/** The attack graph: adjacency over chosen relations, and the bounded enumeration of exposure paths. */
module AttackGraph {
  import opened Order
  import opened Sorting
  import opened PathSearch

  datatype Node = Node(
    id: Id, nodeType: string, canonicalKey: string, exposureScore: int, state: string,
    internetReachable: bool, customerCriticality: string, findingMaxRank: int)

  datatype Edge = Edge(src: Id, relation: string, dst: Id)

  const REACHABILITY: set<string> := {"resolves_to", "hosts"}
  const ATTACK: set<string> := {"resolves_to", "hosts", "serves", "exposes"}

  predicate IsSensitive(n: Node) {
    n.exposureScore >= 50 || n.state == "shadow" || n.customerCriticality == "high" || n.findingMaxRank >= 3
  }

  ghost predicate IsId(nodes: seq<Node>, u: Id) { exists n :: n in nodes && n.id == u }

  /** An edge of one of the relations, between two nodes of the graph. */
  ghost predicate Linked(nodes: seq<Node>, edges: seq<Edge>, relations: set<string>, u: Id, v: Id) {
    IsId(nodes, u) && IsId(nodes, v) && exists e :: e in edges && e.relation in relations && e.src == u && e.dst == v
  }

  // ----- node and path order

  function KeyOf(byId: map<Id, Node>, u: Id): string { if u in byId then byId[u].canonicalKey else "" }

  function SortKey(byId: map<Id, Node>, u: Id): seq<string> {
    if u in byId then [byId[u].nodeType, byId[u].canonicalKey, byId[u].id.text] else []
  }

  function NodeOrder(byId: map<Id, Node>): (Id, Id) -> bool {
    (u, v) => CompareTexts(SortKey(byId, u), SortKey(byId, v)) <= 0
  }

  function Keys(byId: map<Id, Node>, p: Path): seq<string> {
    seq(|p|, i requires 0 <= i < |p| => KeyOf(byId, p[i]))
  }

  /** Shorter paths first, paths of one length by their node keys. */
  function PathOrder(byId: map<Id, Node>): (Path, Path) -> bool {
    (p, q) => |p| < |q| || (|p| == |q| && CompareTexts(Keys(byId, p), Keys(byId, q)) <= 0)
  }

  lemma NodeOrderIsTotal(byId: map<Id, Node>)
    ensures Total(NodeOrder(byId)) && Transitive(NodeOrder(byId))
  {
    var leq := NodeOrder(byId);
    forall u, v ensures leq(u, v) || leq(v, u) { TextsAntisymmetric(SortKey(byId, u), SortKey(byId, v)); }
    forall u, v, w | leq(u, v) && leq(v, w) ensures leq(u, w) {
      TextsTransitive(SortKey(byId, u), SortKey(byId, v), SortKey(byId, w));
    }
  }

  lemma PathOrderIsTotal(byId: map<Id, Node>)
    ensures Total(PathOrder(byId)) && Transitive(PathOrder(byId))
  {
    var leq := PathOrder(byId);
    forall p, q ensures leq(p, q) || leq(q, p) { TextsAntisymmetric(Keys(byId, p), Keys(byId, q)); }
    forall p, q, r | leq(p, q) && leq(q, r) ensures leq(p, r) {
      if |p| == |q| == |r| { TextsTransitive(Keys(byId, p), Keys(byId, q), Keys(byId, r)); }
    }
  }

  // ----- index and adjacency

  ghost predicate IsIndex(nodes: seq<Node>, byId: map<Id, Node>) {
    (forall u :: u in byId ==> byId[u] in nodes && byId[u].id == u) && forall n :: n in nodes ==> n.id in byId
  }

  /** The index the source builds: of nodes that share an id, the last one counts. */
  function IndexOf(nodes: seq<Node>): map<Id, Node> {
    if nodes == [] then map[]
    else IndexOf(nodes[..|nodes| - 1])[nodes[|nodes| - 1].id := nodes[|nodes| - 1]]
  }

  lemma {:induction false} IndexFinds(nodes: seq<Node>)
    ensures IsIndex(nodes, IndexOf(nodes))
  {
    if nodes != [] {
      IndexFinds(nodes[..|nodes| - 1]);
      assert nodes == nodes[..|nodes| - 1] + [nodes[|nodes| - 1]];
    }
  }

  /** Every list of neighbours is free of repetitions and holds exactly the linked nodes. */
  ghost predicate IsAdjacency(nodes: seq<Node>, edges: seq<Edge>, relations: set<string>, adj: Adjacency) {
    NoRepeatedNeighbours(adj) && forall u, v :: v in Neighbours(adj, u) <==> Linked(nodes, edges, relations, u, v)
  }

  method BuildAdjacency(nodes: seq<Node>, edges: seq<Edge>, relations: set<string>) returns (adj: Adjacency)
    ensures IsAdjacency(nodes, edges, relations, adj)
    ensures forall u :: u in adj <==> IsId(nodes, u)
    ensures forall u :: u in adj ==> SortedBy(adj[u], NodeOrder(IndexOf(nodes)))
  {
    var byId := IndexOf(nodes);
    IndexFinds(nodes);
    var raw := CollectEdges(byId, edges, relations);
    adj := SortNeighbours(byId, raw);
    forall u, v ensures v in Neighbours(adj, u) <==> Linked(nodes, edges, relations, u, v) {
      assert Linked(nodes, edges, relations, u, v) <==> u in byId && v in byId && LinkedWithin(edges, relations, u, v);
    }
  }

  /** Each list as a set, in node order. */
  method SortNeighbours(byId: map<Id, Node>, raw: Adjacency) returns (adj: Adjacency)
    ensures adj.Keys == raw.Keys && NoRepeatedNeighbours(adj)
    ensures forall u, v :: u in adj ==> (v in adj[u] <==> v in raw[u])
    ensures forall u :: u in adj ==> SortedBy(adj[u], NodeOrder(byId))
  {
    hide Sort, Distinct, NodeOrder, SortedBy;
    NodeOrderIsTotal(byId);
    adj := raw;
    var todo := adj.Keys;
    while todo != {}
      invariant todo <= adj.Keys == raw.Keys
      invariant forall u :: u in todo ==> adj[u] == raw[u]
      invariant forall u :: u in adj && u !in todo ==> NoRepeats(adj[u]) && SortedBy(adj[u], NodeOrder(byId))
      invariant forall u, v :: u in adj ==> (v in adj[u] <==> v in raw[u])
      decreases todo
    {
      var u :| u in todo;
      DistinctKeeps(adj[u]);
      SortKeeps(Distinct(adj[u]), NodeOrder(byId));
      SortSorts(Distinct(adj[u]), NodeOrder(byId));
      adj := adj[u := Sort(Distinct(adj[u]), NodeOrder(byId))];
      todo := todo - {u};
    }
  }

  method CollectEdges(byId: map<Id, Node>, edges: seq<Edge>, relations: set<string>) returns (adj: Adjacency)
    ensures adj.Keys == byId.Keys
    ensures forall u, v :: u in adj ==> (v in adj[u] <==> v in byId && LinkedWithin(edges, relations, u, v))
  {
    hide LinkedWithin;
    adj := map u | u in byId :: [];
    NoEdges(relations);
    for k := 0 to |edges|
      invariant adj.Keys == byId.Keys
      invariant forall u, v :: u in adj ==> (v in adj[u] <==> v in byId && LinkedWithin(edges[..k], relations, u, v))
    {
      var e := edges[k];
      OneMoreEdge(edges[..k], e, relations);
      assert edges[..k + 1] == edges[..k] + [e];
      if e.relation in relations && e.src in byId && e.dst in byId {
        adj := adj[e.src := adj[e.src] + [e.dst]];
      }
    }
    assert edges[..|edges|] == edges;
  }

  lemma NoEdges(relations: set<string>)
    ensures forall u, v :: !LinkedWithin([], relations, u, v)
  {}

  ghost predicate LinkedWithin(edges: seq<Edge>, relations: set<string>, u: Id, v: Id) {
    exists e :: e in edges && e.relation in relations && e.src == u && e.dst == v
  }

  lemma OneMoreEdge(edges: seq<Edge>, e: Edge, relations: set<string>)
    ensures forall u, v :: LinkedWithin(edges + [e], relations, u, v) <==>
              LinkedWithin(edges, relations, u, v) || (e.relation in relations && e.src == u && e.dst == v)
  {
    assert forall x :: x in edges + [e] <==> x in edges || x == e;
  }

  // ----- the depth-first loop

  /** How many hops a path on the stack may still grow. */
  function Remaining(p: Path, depth: int): nat { Hops(depth + 1 - |p|) }

  /** What the paths on the stack, the last one first, will still yield. */
  ghost function StackVisits(adj: Adjacency, stack: seq<Path>, depth: int): seq<Path> {
    if stack == [] then []
    else
      var top := stack[|stack| - 1];
      Visit(adj, top, Remaining(top, depth)) + StackVisits(adj, stack[..|stack| - 1], depth)
  }

  ghost function SourceVisits(adj: Adjacency, sources: seq<Id>, depth: int): seq<Path> {
    if sources == [] then []
    else SourceVisits(adj, sources[..|sources| - 1], depth) + Visit(adj, [sources[|sources| - 1]], Hops(depth))
  }

  /** The visited paths that end in a target, in visiting order. */
  function Hits(paths: seq<Path>, targets: set<Id>): seq<Path> {
    if paths == [] then []
    else
      var last := paths[|paths| - 1];
      Hits(paths[..|paths| - 1], targets) + if EndsIn(last, targets) then [last] else []
  }

  predicate EndsIn(p: Path, targets: set<Id>) { p != [] && p[|p| - 1] in targets }

  lemma {:induction false} HitsMembers(paths: seq<Path>, targets: set<Id>)
    ensures forall p :: p in Hits(paths, targets) <==> p in paths && EndsIn(p, targets)
    ensures |Hits(paths, targets)| <= |paths|
  {
    hide EndsIn;
    if paths != [] {
      HitsMembers(paths[..|paths| - 1], targets);
      assert paths == paths[..|paths| - 1] + [paths[|paths| - 1]];
    }
  }

  lemma {:induction false} HitsOnce(paths: seq<Path>, targets: set<Id>)
    requires NoRepeats(paths)
    ensures NoRepeats(Hits(paths, targets))
  {
    hide EndsIn;
    if paths != [] {
      var init, last := paths[..|paths| - 1], paths[|paths| - 1];
      HitsOnce(init, targets);
      HitsMembers(init, targets);
      assert last !in init;
    }
  }

  /** Pushing the extensions of p leaves them to be visited first, in neighbour order. */
  method PushChildren(adj: Adjacency, stack: seq<Path>, p: Path, depth: int) returns (pushed: seq<Path>)
    requires p != [] && |p| - 1 < depth
    ensures StackVisits(adj, pushed, depth)
         == VisitAll(adj, Children(adj, p), Remaining(p, depth) - 1) + StackVisits(adj, stack, depth)
    ensures AllProper(stack) ==> AllProper(pushed)
  {
    hide VisitAll, StackVisits, Extend, Visit;
    var next := Neighbours(adj, p[|p| - 1]);
    ghost var h := Remaining(p, depth) - 1;
    pushed := stack;
    var k := |next|;
    NothingToPush(adj, p, next[k..], h);
    while k > 0
      invariant 0 <= k <= |next|
      invariant StackVisits(adj, pushed, depth)
             == VisitAll(adj, Extend(p, next[k..]), h) + StackVisits(adj, stack, depth)
      invariant AllProper(stack) ==> AllProper(pushed)
    {
      k := k - 1;
      assert next[k..] == [next[k]] + next[k + 1..];
      PushOne(adj, pushed, p, next[k], next[k + 1..], depth);
      if next[k] !in p { pushed := pushed + [p + [next[k]]]; }
    }
    assert next[0..] == next;
  }

  lemma NothingToPush(adj: Adjacency, p: Path, next: seq<Id>, h: nat)
    requires next == []
    ensures VisitAll(adj, Extend(p, next), h) == []
  {}

  lemma PushOne(adj: Adjacency, stack: seq<Path>, p: Path, u: Id, next: seq<Id>, depth: int)
    requires |p| - 1 < depth
    ensures var h := Remaining(p, depth) - 1;
            var c := p + [u];
            if u in p then Extend(p, [u] + next) == Extend(p, next)
            else VisitAll(adj, Extend(p, [u] + next), h) == Visit(adj, c, h) + VisitAll(adj, Extend(p, next), h)
                 && StackVisits(adj, stack + [c], depth) == Visit(adj, c, h) + StackVisits(adj, stack, depth)
  {
    hide Visit, VisitAll, Extend;
    var c := p + [u];
    ExtendStep(p, u, next);
    VisitAllStep(adj, c, Extend(p, next), Remaining(p, depth) - 1);
    assert (stack + [c])[..|stack|] == stack;
  }

  // ----- the enumeration

  datatype PathResult = PathResult(paths: seq<Path>, truncated: bool)

  /** Everything an unbounded search would visit. */
  ghost function FullVisit(adj: Adjacency, sources: seq<Id>, depth: int): seq<Path> {
    SourceVisits(adj, sources, depth)
  }

  ghost predicate IsResult(adj: Adjacency, sources: seq<Id>, targets: set<Id>, depth: int, p: Path) {
    IsSimplePath(adj, p) && p[0] in sources && EndsIn(p, targets) && |p| - 1 <= Hops(depth)
  }

  lemma SingleNode(adj: Adjacency, u: Id)
    ensures IsSimplePath(adj, [u])
  {}

  lemma {:induction false} SourceVisitsMembers(adj: Adjacency, sources: seq<Id>, depth: int, p: Path)
    ensures p in SourceVisits(adj, sources, depth)
       <==> IsSimplePath(adj, p) && p[0] in sources && |p| - 1 <= Hops(depth)
  {
    hide Visit, NoRepeats;
    if sources != [] {
      var u := sources[|sources| - 1];
      SourceVisitsMembers(adj, sources[..|sources| - 1], depth, p);
      SingleNode(adj, u);
      VisitMembers(adj, [u], Hops(depth), p);
      assert sources == sources[..|sources| - 1] + [u];
      if p != [] && p[0] == u { assert p[..1] == [u]; }
      ExtendsStart(adj, u, Hops(depth), p);
    }
  }

  lemma ExtendsStart(adj: Adjacency, u: Id, h: nat, p: Path)
    ensures Extends(adj, [u], h, p) ==> p[0] == u
  {
    if Extends(adj, [u], h, p) { assert p[0] == p[..1][0]; }
  }

  lemma {:induction false} SourceVisitsOnce(adj: Adjacency, sources: seq<Id>, depth: int)
    requires NoRepeats(sources) && NoRepeatedNeighbours(adj)
    ensures NoRepeats(SourceVisits(adj, sources, depth))
  {
    if sources != [] {
      var init, u := sources[..|sources| - 1], sources[|sources| - 1];
      SourceVisitsOnce(adj, init, depth);
      SingleNode(adj, u);
      VisitOnce(adj, [u], Hops(depth));
      forall p | p in SourceVisits(adj, init, depth) ensures p !in Visit(adj, [u], Hops(depth)) {
        SourceVisitsMembers(adj, init, depth, p);
        VisitMembers(adj, [u], Hops(depth), p);
        ExtendsStart(adj, u, Hops(depth), p);
      }
      ConcatNoRepeats(SourceVisits(adj, init, depth), Visit(adj, [u], Hops(depth)));
    }
  }

  lemma {:induction false} SourceVisitsPrefix(adj: Adjacency, sources: seq<Id>, k: nat, depth: int)
    requires k <= |sources|
    ensures SourceVisits(adj, sources[..k], depth) <= SourceVisits(adj, sources, depth)
  {
    hide Visit;
    if k < |sources| {
      SourceVisitsPrefix(adj, sources[..|sources| - 1], k, depth);
      assert sources[..|sources| - 1][..k] == sources[..k];
    } else {
      assert sources[..k] == sources;
    }
  }

  /** Everything an unbounded search visits comes in lexicographic node order, from sources in that order. */
  lemma {:induction false} SourceVisitsListed(adj: Adjacency, sources: seq<Id>, depth: int, leq: (Id, Id) -> bool)
    requires NoRepeats(sources) && SortedBy(sources, leq) && NoRepeatedNeighbours(adj) && NeighboursSorted(adj, leq)
    ensures Listed(leq, SourceVisits(adj, sources, depth))
  {
    hide NoRepeatedNeighbours, NeighboursSorted, ComesBefore, Visit;
    if sources != [] {
      var init, u := sources[..|sources| - 1], sources[|sources| - 1];
      SourceVisitsListed(adj, init, depth, leq);
      VisitIsListed(adj, leq, [u], Hops(depth));
      var before, block := SourceVisits(adj, init, depth), Visit(adj, [u], Hops(depth));
      forall p, q | p in before && q in block ensures ComesBefore(leq, p, q) {
        SourceBefore(adj, sources, depth, leq, p, q);
      }
      ListedConcat(leq, before, block);
    }
  }

  lemma SourceBefore(adj: Adjacency, sources: seq<Id>, depth: int, leq: (Id, Id) -> bool, p: Path, q: Path)
    requires sources != [] && NoRepeats(sources) && SortedBy(sources, leq)
    requires p in SourceVisits(adj, sources[..|sources| - 1], depth)
    requires q in Visit(adj, [sources[|sources| - 1]], Hops(depth))
    ensures ComesBefore(leq, p, q)
  {
    var init, u := sources[..|sources| - 1], sources[|sources| - 1];
    SourceVisitsMembers(adj, init, depth, p);
    SingleNode(adj, u);
    VisitMembers(adj, [u], Hops(depth), q);
    ExtendsStart(adj, u, Hops(depth), q);
    var i :| 0 <= i < |init| && init[i] == p[0];
    assert sources[i] == p[0];
    assert PartAt(leq, p, q, 0);
  }

  lemma ListedConcat(leq: (Id, Id) -> bool, s: seq<Path>, t: seq<Path>)
    requires Listed(leq, s) && Listed(leq, t) && forall p, q :: p in s && q in t ==> ComesBefore(leq, p, q)
    ensures Listed(leq, s + t)
  {
    hide ComesBefore;
    var u := s + t;
    forall i, j | 0 <= i < j < |u| ensures ComesBefore(leq, u[i], u[j]) {
      if i < |s| <= j { assert s[i] in s && t[j - |s|] in t; }
    }
  }

  lemma VisitUnfolds(adj: Adjacency, p: Path, depth: int)
    ensures Visit(adj, p, Remaining(p, depth)) ==
              [p] + if |p| - 1 >= depth then [] else VisitAll(adj, Children(adj, p), Remaining(p, depth) - 1)
  {
    hide VisitAll, Visit, Children;
    VisitStep(adj, p, Remaining(p, depth));
  }

  /** Popping p visits it and, where its depth allows, leaves its children to be visited. */
  lemma PopVisits(adj: Adjacency, stack: seq<Path>, p: Path, rest: seq<Path>, depth: int)
    requires stack == rest + [p]
    ensures StackVisits(adj, stack, depth) ==
              [p] + ((if |p| - 1 >= depth then [] else VisitAll(adj, Children(adj, p), Remaining(p, depth) - 1))
                     + StackVisits(adj, rest, depth))
  {
    hide VisitAll, Visit, Children;
    VisitUnfolds(adj, p, depth);
    assert stack[..|stack| - 1] == rest;
    assert StackVisits(adj, stack, depth) == Visit(adj, p, Remaining(p, depth)) + StackVisits(adj, rest, depth);
  }

  ghost predicate AllProper(stack: seq<Path>) { forall p :: p in stack ==> p != [] }

  lemma ProperTop(rest: seq<Path>, p: Path)
    requires AllProper(rest + [p])
    ensures p != [] && AllProper(rest)
  {
    assert p in rest + [p];
    assert forall q :: q in rest ==> q in rest + [p];
  }

  /** Why a search may stop early: the cap is reached, or the budget is spent with visits to go. */
  ghost predicate StoppedEarly(limits: Limits, found: seq<Path>, visited: seq<Path>, all: seq<Path>) {
    |found| == limits.maxPaths || (|visited| == Hops(limits.maxNodes) && |visited| < |all|)
  }

  /** A visit in progress never comes to the same path twice, so the seen set excludes nothing. */
  lemma NewlyVisited(before: seq<Path>, p: Path, all: seq<Path>)
    requires NoRepeats(all) && before + [p] <= all
    ensures p !in before
  {
    forall i | 0 <= i < |before| ensures before[i] != p {
      assert all[i] == (before + [p])[i] && all[|before|] == (before + [p])[|before|];
    }
  }

  lemma HitsGrow(before: seq<Path>, p: Path, targets: set<Id>)
    ensures Hits(before + [p], targets) == if EndsIn(p, targets) then Hits(before, targets) + [p] else Hits(before, targets)
  {
    assert (before + [p])[..|before|] == before;
  }

  lemma OneSourceOnStack(adj: Adjacency, s: Id, depth: int)
    ensures StackVisits(adj, [[s]], depth) == Visit(adj, [s], Hops(depth))
  {
    assert StackVisits(adj, [[s]], depth) == Visit(adj, [s], Remaining([s], depth)) + StackVisits(adj, [], depth);
  }

  lemma ProperSource(s: Id)
    ensures AllProper([[s]])
  {}

  lemma EmptyStack(adj: Adjacency, depth: int)
    ensures StackVisits(adj, [], depth) == []
  {}

  /** The search under way: what is visited and what the stack leaves to visit make up the whole visit. */
  ghost predicate Searching(adj: Adjacency, targets: set<Id>, depth: int, all: seq<Path>,
                            visited: seq<Path>, stack: seq<Path>, found: seq<Path>) {
    AllProper(stack) && visited + StackVisits(adj, stack, depth) == all && found == Hits(visited, targets)
  }

  /** Popping p visits it next and for the first time. */
  lemma PopOne(adj: Adjacency, targets: set<Id>, depth: int, all: seq<Path>,
               visited: seq<Path>, rest: seq<Path>, p: Path, found: seq<Path>)
    requires Searching(adj, targets, depth, all, visited, rest + [p], found) && NoRepeats(all)
    ensures p != [] && AllProper(rest) && p !in found && visited + [p] <= all
    ensures visited + [p] + ((if |p| - 1 >= depth then [] else VisitAll(adj, Children(adj, p), Remaining(p, depth) - 1))
                             + StackVisits(adj, rest, depth)) == all
    ensures Hits(visited + [p], targets) == if EndsIn(p, targets) then found + [p] else found
  {
    hide Hits, StackVisits, VisitAll, Children, NoRepeats, EndsIn;
    ProperTop(rest, p);
    PopVisits(adj, rest + [p], p, rest, depth);
    var children := if |p| - 1 >= depth then [] else VisitAll(adj, Children(adj, p), Remaining(p, depth) - 1);
    assert visited + ([p] + (children + StackVisits(adj, rest, depth)))
        == (visited + [p]) + (children + StackVisits(adj, rest, depth));
    NewlyVisited(visited, p, all);
    HitsMembers(visited, targets);
    HitsGrow(visited, p, targets);
  }

  /** One source's share of the loop: follows the visit until the stack, the cap or the budget runs out. */
  method SearchSource(adj: Adjacency, s: Id, targets: set<Id>, limits: Limits, found0: seq<Path>, spent0: nat,
                      ghost visited0: seq<Path>)
    returns (found: seq<Path>, spent: nat, truncated: bool, ghost visited: seq<Path>)
    requires NoRepeats(visited0 + Visit(adj, [s], Hops(limits.maxDepth)))
    requires found0 == Hits(visited0, targets) && |found0| < limits.maxPaths
    requires spent0 == |visited0| && spent0 <= Hops(limits.maxNodes)
    ensures visited0 <= visited <= visited0 + Visit(adj, [s], Hops(limits.maxDepth))
    ensures found == Hits(visited, targets) && |found| <= limits.maxPaths
    ensures !truncated ==> visited == visited0 + Visit(adj, [s], Hops(limits.maxDepth)) && |found| < limits.maxPaths
    ensures !truncated ==> spent == |visited| && spent <= Hops(limits.maxNodes)
    ensures truncated ==> StoppedEarly(limits, found, visited, visited0 + Visit(adj, [s], Hops(limits.maxDepth)))
    ensures |visited| <= Hops(limits.maxNodes)
  {
    hide Hits, StackVisits, Visit, VisitAll, Children, NoRepeats, EndsIn, AllProper, Remaining;
    found, spent, truncated, visited := found0, spent0, false, visited0;
    ghost var all := visited0 + Visit(adj, [s], Hops(limits.maxDepth));
    var seen := SetOf(found0);
    var stack: seq<Path> := [[s]];
    OneSourceOnStack(adj, s, limits.maxDepth);
    assert AllProper(stack) by { ProperSource(s); }
    while stack != []
      invariant Searching(adj, targets, limits.maxDepth, all, visited, stack, found)
      invariant visited0 <= visited <= all && |found| < limits.maxPaths
      invariant forall p :: p in seen <==> p in found
      invariant spent == |visited| && spent <= Hops(limits.maxNodes)
      decreases |all| - |visited|
    {
      var p := stack[|stack| - 1];
      assert stack == stack[..|stack| - 1] + [p];
      stack := stack[..|stack| - 1];
      PopOne(adj, targets, limits.maxDepth, all, visited, stack, p, found);
      spent := spent + 1;
      if spent > limits.maxNodes {
        truncated := true;
        return;
      }
      visited := visited + [p];
      if EndsIn(p, targets) && p !in seen {
        seen := seen + {p};
        found := found + [p];
        if |found| >= limits.maxPaths {
          truncated := true;
          return;
        }
      }
      if |p| - 1 >= limits.maxDepth { continue; }
      stack := PushChildren(adj, stack, p, limits.maxDepth);
    }
    EmptyStack(adj, limits.maxDepth);
  }

  /**
   The enumeration over all sources in node order, and the final ordering of what was found. The
   sources come without repetitions, as the source lists them from a set.
   */
  method Enumerate(byId: map<Id, Node>, adj: Adjacency, sources: seq<Id>, targets: set<Id>, limits: Limits)
    returns (r: PathResult, ghost visited: seq<Path>)
    requires NoRepeats(sources) && NoRepeatedNeighbours(adj)
    ensures visited <= FullVisit(adj, sources, limits.maxDepth)
    ensures r.paths == Sort(Hits(visited, targets), PathOrder(byId))
    ensures |r.paths| <= Hops(limits.maxPaths)
    ensures limits.maxPaths >= 1 && !r.truncated ==> visited == FullVisit(adj, sources, limits.maxDepth)
    ensures r.truncated ==>
              limits.maxPaths >= 1 && StoppedEarly(limits, r.paths, visited, FullVisit(adj, sources, limits.maxDepth))
    ensures limits.maxPaths >= 1 && !r.truncated ==> |r.paths| < limits.maxPaths
    ensures |visited| <= Hops(limits.maxNodes)
  {
    hide Hits, Visit, NoRepeats, EndsIn, Sort, PathOrder;
    ghost var all := FullVisit(adj, sources, limits.maxDepth);
    var found: seq<Path>, spent, truncated := [], 0, false;
    visited := [];
    NothingVisited(adj, limits.maxDepth, targets);
    var k := 0;
    assert sources[..0] == [];
    while k < |sources| && !(truncated || |found| >= limits.maxPaths)
      invariant 0 <= k <= |sources|
      invariant visited <= all && found == Hits(visited, targets) && |found| <= Hops(limits.maxPaths)
      invariant !truncated ==> visited == SourceVisits(adj, sources[..k], limits.maxDepth)
      invariant !truncated ==> spent == |visited| && spent <= Hops(limits.maxNodes)
      invariant !truncated && limits.maxPaths >= 1 ==> |found| < limits.maxPaths
      invariant |visited| <= Hops(limits.maxNodes)
      invariant truncated ==> limits.maxPaths >= 1 && StoppedEarly(limits, found, visited, all)
    {
      var s := sources[k];
      NextSource(adj, sources, k, limits.maxDepth);
      found, spent, truncated, visited := SearchSource(adj, s, targets, limits, found, spent, visited);
      k := k + 1;
    }
    if limits.maxPaths >= 1 && !truncated { assert sources[..k] == sources; }
    SortKeeps(found, PathOrder(byId));
    r := PathResult(Sort(found, PathOrder(byId)), truncated);
  }

  lemma NothingVisited(adj: Adjacency, depth: int, targets: set<Id>)
    ensures SourceVisits(adj, [], depth) == [] && Hits([], targets) == []
  {}

  lemma NextSource(adj: Adjacency, sources: seq<Id>, k: nat, depth: int)
    requires k < |sources| && NoRepeats(sources) && NoRepeatedNeighbours(adj)
    ensures var next := SourceVisits(adj, sources[..k], depth) + Visit(adj, [sources[k]], Hops(depth));
            SourceVisits(adj, sources[..k + 1], depth) == next && NoRepeats(next) && next <= FullVisit(adj, sources, depth)
  {
    hide Visit;
    assert sources[..k + 1][..k] == sources[..k];
    SourceVisitsOnce(adj, sources[..k + 1], depth);
    SourceVisitsPrefix(adj, sources, k + 1, depth);
  }

  /** What any enumeration, cut short or not, returns: distinct results, and all of them when not cut short. */
  lemma EnumerationIsExact(byId: map<Id, Node>, adj: Adjacency, sources: seq<Id>, targets: set<Id>, depth: int,
                           visited: seq<Path>, paths: seq<Path>)
    requires NoRepeats(sources) && NoRepeatedNeighbours(adj)
    requires visited <= FullVisit(adj, sources, depth) && paths == Sort(Hits(visited, targets), PathOrder(byId))
    ensures NoRepeats(paths) && SortedBy(paths, PathOrder(byId))
    ensures forall p :: p in paths ==> IsResult(adj, sources, targets, depth, p)
    ensures visited == FullVisit(adj, sources, depth) ==>
              forall p :: IsResult(adj, sources, targets, depth, p) ==> p in paths
  {
    hide Hits, SourceVisits, Sort, PathOrder, EndsIn, NoRepeatedNeighbours, NoRepeats;
    var all := FullVisit(adj, sources, depth);
    SourceVisitsOnce(adj, sources, depth);
    PrefixOnce(visited, all);
    HitsOnce(visited, targets);
    HitsMembers(visited, targets);
    SortKeeps(Hits(visited, targets), PathOrder(byId));
    PathOrderIsTotal(byId);
    SortSorts(Hits(visited, targets), PathOrder(byId));
    forall p ensures p in all <==> IsSimplePath(adj, p) && p[0] in sources && |p| - 1 <= Hops(depth) {
      SourceVisitsMembers(adj, sources, depth, p);
    }
  }

  lemma PrefixOnce(visited: seq<Path>, all: seq<Path>)
    requires NoRepeats(all) && visited <= all
    ensures NoRepeats(visited) && forall p :: p in visited ==> p in all
  {
    assert forall i :: 0 <= i < |visited| ==> visited[i] == all[i];
  }
}
