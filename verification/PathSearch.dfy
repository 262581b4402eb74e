/** Simple paths of a graph as a tree of sequences: what a depth-first visit of all of them yields. */
module PathSearch {
  import opened Sorting
  import TreeVisit

  /** A node identifier; its text breaks ties in the node order. */
  datatype Id = Id(text: string)

  type Path = seq<Id>

  type Adjacency = map<Id, seq<Id>>

  datatype Limits = Limits(maxDepth: int, maxPaths: int, maxNodes: int)

  function Neighbours(adj: Adjacency, u: Id): seq<Id> { if u in adj then adj[u] else [] }

  ghost predicate IsWalk(adj: Adjacency, p: Path) {
    p != [] && forall i :: 0 <= i < |p| - 1 ==> p[i + 1] in Neighbours(adj, p[i])
  }

  /** A path that never comes back to a node. */
  ghost predicate IsSimplePath(adj: Adjacency, p: Path) { IsWalk(adj, p) && NoRepeats(p) }

  function Hops(depth: int): nat { if depth < 0 then 0 else depth }

  // ----- the visit in depth-first order

  /** The neighbours that are not on the path yet, in neighbour order. */
  function Fresh(neighbours: seq<Id>, p: Path): seq<Id> {
    if neighbours == [] then []
    else (if neighbours[0] in p then [] else [neighbours[0]]) + Fresh(neighbours[1..], p)
  }

  function NextNodes(adj: Adjacency): Path -> seq<Id> {
    (p: Path) => if p == [] then [] else Fresh(Neighbours(adj, p[|p| - 1]), p)
  }

  /** The one-step extensions of p to the given neighbours. */
  function Extend(p: Path, neighbours: seq<Id>): seq<Path> { TreeVisit.Append(p, Fresh(neighbours, p)) }

  function Children(adj: Adjacency, p: Path): seq<Path> {
    if p == [] then [] else Extend(p, Neighbours(adj, p[|p| - 1]))
  }

  /** p and all its simple extensions by at most h hops, each before its own extensions. */
  ghost function Visit(adj: Adjacency, p: Path, h: nat): seq<Path> { TreeVisit.Visit(NextNodes(adj), p, h) }

  ghost function VisitAll(adj: Adjacency, ps: seq<Path>, h: nat): seq<Path> {
    TreeVisit.VisitAll(NextNodes(adj), ps, h)
  }

  lemma VisitStep(adj: Adjacency, p: Path, h: nat)
    ensures Visit(adj, p, h) == [p] + if h == 0 then [] else VisitAll(adj, Children(adj, p), h - 1)
  {
    assert NextNodes(adj)(p) == if p == [] then [] else Fresh(Neighbours(adj, p[|p| - 1]), p);
    assert TreeVisit.Append(p, NextNodes(adj)(p)) == Children(adj, p);
  }

  lemma ExtendStep(p: Path, u: Id, neighbours: seq<Id>)
    ensures Extend(p, [u] + neighbours) == if u in p then Extend(p, neighbours) else [p + [u]] + Extend(p, neighbours)
  {
    var rest := Fresh(neighbours, p);
    assert ([u] + neighbours)[1..] == neighbours;
    assert Fresh([u] + neighbours, p) == if u in p then rest else [u] + rest;
    assert ([u] + rest)[1..] == rest;
  }

  lemma VisitAllStep(adj: Adjacency, c: Path, rest: seq<Path>, h: nat)
    ensures VisitAll(adj, [c] + rest, h) == Visit(adj, c, h) + VisitAll(adj, rest, h)
    ensures VisitAll(adj, [], h) == []
  {
    assert ([c] + rest)[1..] == rest;
  }

  lemma {:induction false} FreshMembers(neighbours: seq<Id>, p: Path)
    ensures forall u :: u in Fresh(neighbours, p) <==> u in neighbours && u !in p
    ensures NoRepeats(neighbours) ==> NoRepeats(Fresh(neighbours, p))
  {
    if neighbours != [] {
      FreshMembers(neighbours[1..], p);
      assert neighbours == [neighbours[0]] + neighbours[1..];
      assert NoRepeats(neighbours) ==> neighbours[0] !in neighbours[1..];
    }
  }

  // ----- the visit yields exactly the simple extensions, each once

  ghost predicate Extends(adj: Adjacency, p: Path, h: nat, q: Path) {
    |p| <= |q| <= |p| + h && q[..|p|] == p && IsSimplePath(adj, q)
  }

  lemma PrefixIsSimple(adj: Adjacency, q: Path, n: nat)
    requires 0 < n <= |q| && IsSimplePath(adj, q)
    ensures IsSimplePath(adj, q[..n])
  {}

  lemma NextNodesMembers(adj: Adjacency, r: Path, u: Id)
    requires r != []
    ensures u in NextNodes(adj)(r) <==> u in Neighbours(adj, r[|r| - 1]) && u !in r
  {
    FreshMembers(Neighbours(adj, r[|r| - 1]), r);
  }

  lemma SimpleLast(adj: Adjacency, r: Path, u: Id)
    requires r != []
    ensures IsSimplePath(adj, r + [u]) <==> IsSimplePath(adj, r) && u in Neighbours(adj, r[|r| - 1]) && u !in r
  {
    var q := r + [u];
    assert forall i :: 0 <= i < |r| ==> q[i] == r[i];
    if IsSimplePath(adj, q) {
      PrefixIsSimple(adj, q, |r|);
      assert q[..|r|] == r;
      assert q[|r| - 1 + 1] in Neighbours(adj, q[|r| - 1]);
    }
  }

  /** A path stays simple exactly when its next node is a fresh neighbour. */
  lemma SimpleStep(adj: Adjacency, q: Path)
    requires |q| > 1
    ensures IsSimplePath(adj, q) <==>
              IsSimplePath(adj, q[..|q| - 1]) && q[|q| - 1] in NextNodes(adj)(q[..|q| - 1])
  {
    hide IsSimplePath, NextNodes;
    var r, u := q[..|q| - 1], q[|q| - 1];
    assert q == r + [u];
    NextNodesMembers(adj, r, u);
    SimpleLast(adj, r, u);
  }

  lemma {:induction false} GrowsMeansSimple(adj: Adjacency, p: Path, q: Path)
    requires IsSimplePath(adj, p)
    ensures TreeVisit.Grows(NextNodes(adj), p, q) <==> |p| <= |q| && q[..|p|] == p && IsSimplePath(adj, q)
    decreases |q|
  {
    hide IsSimplePath, NextNodes;
    if |q| > |p| {
      var r := q[..|q| - 1];
      GrowsMeansSimple(adj, p, r);
      assert |p| > 0 by { SimpleIsNonEmpty(adj, p); }
      SimpleStep(adj, q);
      assert r[..|p|] == q[..|p|];
      forall k | |p| <= k < |r| ensures r[..k] == q[..k] && r[k] == q[k] {}
      assert q[..|q| - 1] == r;
    } else if |q| == |p| && q[..|p|] == p {
      assert q == p;
    }
  }

  lemma SimpleIsNonEmpty(adj: Adjacency, p: Path)
    requires IsSimplePath(adj, p)
    ensures p != []
  {}

  lemma VisitMembers(adj: Adjacency, p: Path, h: nat, q: Path)
    requires IsSimplePath(adj, p)
    ensures q in Visit(adj, p, h) <==> Extends(adj, p, h, q)
  {
    TreeVisit.VisitMembers(NextNodes(adj), p, h, q);
    GrowsMeansSimple(adj, p, q);
  }

  ghost predicate NoRepeatedNeighbours(adj: Adjacency) { forall u :: u in adj ==> NoRepeats(adj[u]) }

  lemma VisitOnce(adj: Adjacency, p: Path, h: nat)
    requires IsSimplePath(adj, p) && NoRepeatedNeighbours(adj)
    ensures NoRepeats(Visit(adj, p, h))
  {
    forall r | TreeVisit.Grows(NextNodes(adj), p, r) && |r| < |p| + h ensures NoRepeats(NextNodes(adj)(r)) {
      FreshMembers(Neighbours(adj, r[|r| - 1]), r);
    }
    TreeVisit.VisitOnce(NextNodes(adj), p, h);
  }

  // ----- the order of the visit: lexicographic by a node order, a path before its extensions

  ghost predicate PartAt(leq: (Id, Id) -> bool, p: Path, q: Path, k: nat) {
    k <= |p| && k < |q| && p[..k] == q[..k] && (k < |p| ==> p[k] != q[k] && leq(p[k], q[k]))
  }

  ghost predicate ComesBefore(leq: (Id, Id) -> bool, p: Path, q: Path) { exists k: nat :: PartAt(leq, p, q, k) }

  ghost predicate Listed(leq: (Id, Id) -> bool, s: seq<Path>) {
    forall i, j :: 0 <= i < j < |s| ==> ComesBefore(leq, s[i], s[j])
  }

  ghost predicate NeighboursSorted(adj: Adjacency, leq: (Id, Id) -> bool) {
    forall u :: u in adj ==> SortedBy(adj[u], leq)
  }

  lemma {:induction false} FreshSorted(neighbours: seq<Id>, p: Path, leq: (Id, Id) -> bool)
    requires SortedBy(neighbours, leq)
    ensures SortedBy(Fresh(neighbours, p), leq)
  {
    if neighbours != [] {
      var rest := neighbours[1..];
      FreshSorted(rest, p, leq);
      FreshMembers(rest, p);
      forall u | u in rest ensures leq(neighbours[0], u) {
        var i :| 0 <= i < |rest| && rest[i] == u;
        assert neighbours[i + 1] == u;
      }
    }
  }

  lemma RanksByOrder(adj: Adjacency, leq: (Id, Id) -> bool, r: Path, x: Id, y: Id)
    requires NoRepeatedNeighbours(adj) && NeighboursSorted(adj, leq) && TreeVisit.Ranks(NextNodes(adj), r, x, y)
    ensures x != y && leq(x, y)
  {
    if r != [] {
      var neighbours := Neighbours(adj, r[|r| - 1]);
      FreshSorted(neighbours, r, leq);
      FreshMembers(neighbours, r);
    }
  }

  lemma PrecedesByOrder(adj: Adjacency, leq: (Id, Id) -> bool, p: Path, q: Path)
    requires NoRepeatedNeighbours(adj) && NeighboursSorted(adj, leq) && TreeVisit.Precedes(NextNodes(adj), p, q)
    ensures ComesBefore(leq, p, q)
  {
    hide NoRepeatedNeighbours, NeighboursSorted, TreeVisit.Ranks;
    var k: nat :| TreeVisit.PartAt(NextNodes(adj), p, q, k);
    if k < |p| { RanksByOrder(adj, leq, p[..k], p[k], q[k]); }
    assert PartAt(leq, p, q, k);
  }

  lemma VisitIsListed(adj: Adjacency, leq: (Id, Id) -> bool, p: Path, h: nat)
    requires NoRepeatedNeighbours(adj) && NeighboursSorted(adj, leq)
    ensures Listed(leq, Visit(adj, p, h))
  {
    hide NoRepeatedNeighbours, NeighboursSorted, TreeVisit.Precedes, ComesBefore;
    TreeVisit.VisitInOrder(NextNodes(adj), p, h);
    var s := Visit(adj, p, h);
    forall i, j | 0 <= i < j < |s| ensures ComesBefore(leq, s[i], s[j]) { PrecedesByOrder(adj, leq, s[i], s[j]); }
  }
}
