/** The orders and the paths of the attack graph in terms of the nodes' own fields. */
module GraphMeaning {
  import opened Order
  import opened Sorting
  import opened PathSearch
  import opened AttackGraph
  import opened Exposure

  // ----- orders

  /** By type, then canonical key, then identifier, each as text. */
  ghost predicate NodeBefore(m: Node, n: Node) {
    || TextBefore(m.nodeType, n.nodeType)
    || (m.nodeType == n.nodeType && TextBefore(m.canonicalKey, n.canonicalKey))
    || (m.nodeType == n.nodeType && m.canonicalKey == n.canonicalKey && TextBefore(m.id.text, n.id.text))
  }

  lemma CompareTriples(a: string, b: string, c: string, x: string, y: string, z: string)
    ensures CompareTexts([a, b, c], [x, y, z]) ==
              Then(CompareText(a, x, 0), Then(CompareText(b, y, 0), CompareText(c, z, 0)))
  {
    hide CompareText;
    CompareTextsStep(a, [b, c], x, [y, z]);
    CompareTextsStep(b, [c], y, [z]);
    CompareTextsStep(c, [], z, []);
    assert [a] + [b, c] == [a, b, c] && [x] + [y, z] == [x, y, z];
    assert [b] + [c] == [b, c] && [y] + [z] == [y, z];
    assert [c] + [] == [c] && [z] + [] == [z];
  }

  lemma CompareTextsStep(a: string, s: seq<string>, x: string, t: seq<string>)
    ensures CompareTexts([a] + s, [x] + t) == Then(CompareText(a, x, 0), CompareTexts(s, t))
  {
    hide CompareText;
    assert ([a] + s)[1..] == s && ([x] + t)[1..] == t;
  }

  /** The node order puts a node in front of another unless that one comes before it. */
  lemma NodeOrderMeans(byId: map<Id, Node>, u: Id, v: Id)
    requires u in byId && v in byId
    ensures NodeOrder(byId)(u, v) <==> !NodeBefore(byId[v], byId[u])
  {
    hide CompareText, CompareTexts, TextBefore;
    var m, n := byId[u], byId[v];
    CompareTriples(m.nodeType, m.canonicalKey, m.id.text, n.nodeType, n.canonicalKey, n.id.text);
    TextOrder(m.nodeType, n.nodeType);
    TextOrder(m.canonicalKey, n.canonicalKey);
    TextOrder(m.id.text, n.id.text);
  }

  /** With as many nodes: the canonical key at the first difference comes first. */
  ghost predicate KeysBefore(byId: map<Id, Node>, p: Path, q: Path) {
    exists k :: 0 <= k < |p| && k < |q| && SameKeys(byId, p, q, k) && TextBefore(KeyOf(byId, p[k]), KeyOf(byId, q[k]))
  }

  ghost predicate SameKeys(byId: map<Id, Node>, p: Path, q: Path, k: nat)
    requires k <= |p| && k <= |q|
  {
    forall m :: 0 <= m < k ==> KeyOf(byId, p[m]) == KeyOf(byId, q[m])
  }

  lemma {:induction false} KeysDecide(byId: map<Id, Node>, p: Path, q: Path, k: nat)
    requires k <= |p| == |q| && SameKeys(byId, p, q, k)
    ensures CompareTexts(Keys(byId, p)[k..], Keys(byId, q)[k..]) == -1 ==> KeysBefore(byId, p, q)
    ensures CompareTexts(Keys(byId, p)[k..], Keys(byId, q)[k..]) == 1 ==> KeysBefore(byId, q, p)
    decreases |p| - k
  {
    hide CompareText, TextBefore, CompareTexts;
    var x, y := Keys(byId, p), Keys(byId, q);
    if k == |p| {
      assert x[k..] == [] && y[k..] == [];
      CompareNone();
    } else {
      var a, b := KeyOf(byId, p[k]), KeyOf(byId, q[k]);
      assert x[k..] == [a] + x[k + 1..] && y[k..] == [b] + y[k + 1..];
      CompareTextsStep(a, x[k + 1..], b, y[k + 1..]);
      TextOrder(a, b);
      if a == b {
        KeysDecide(byId, p, q, k + 1);
      } else {
        assert SameKeys(byId, q, p, k);
      }
    }
  }

  lemma CompareNone()
    ensures CompareTexts([], []) == 0
  {}

  lemma KeysBeforeOneWay(byId: map<Id, Node>, p: Path, q: Path)
    ensures !(KeysBefore(byId, p, q) && KeysBefore(byId, q, p))
  {
    hide TextBefore, KeyOf;
    if KeysBefore(byId, p, q) && KeysBefore(byId, q, p) {
      var k :| 0 <= k < |p| && k < |q| && SameKeys(byId, p, q, k) && TextBefore(KeyOf(byId, p[k]), KeyOf(byId, q[k]));
      var m :| 0 <= m < |q| && m < |p| && SameKeys(byId, q, p, m) && TextBefore(KeyOf(byId, q[m]), KeyOf(byId, p[m]));
      NotBothFirst(byId, p, q, k, m);
    }
  }

  lemma NotBothFirst(byId: map<Id, Node>, p: Path, q: Path, k: nat, m: nat)
    requires k < |p| && k < |q| && m < |p| && m < |q| && SameKeys(byId, p, q, k) && SameKeys(byId, q, p, m)
    ensures !(TextBefore(KeyOf(byId, p[k]), KeyOf(byId, q[k])) && TextBefore(KeyOf(byId, q[m]), KeyOf(byId, p[m])))
  {
    hide TextBefore, KeyOf;
    TextBeforeOneWay(KeyOf(byId, p[k]), KeyOf(byId, q[k]));
    TextBeforeOneWay(KeyOf(byId, q[m]), KeyOf(byId, p[m]));
  }

  /** Shorter paths come first, and paths of one length by their nodes' canonical keys. */
  lemma PathOrderMeans(byId: map<Id, Node>, p: Path, q: Path)
    ensures PathOrder(byId)(p, q) <==> |p| < |q| || (|p| == |q| && !KeysBefore(byId, q, p))
  {
    hide CompareTexts, KeysBefore;
    if |p| == |q| {
      assert Keys(byId, p)[0..] == Keys(byId, p) && Keys(byId, q)[0..] == Keys(byId, q);
      KeysDecide(byId, p, q, 0);
      KeysBeforeOneWay(byId, p, q);
      if CompareTexts(Keys(byId, p), Keys(byId, q)) == 0 { EqualKeys(byId, p, q); }
    }
  }

  lemma {:induction false} TextsTie(x: seq<string>, y: seq<string>)
    requires CompareTexts(x, y) == 0
    ensures x == y
  {
    if x != [] && y != [] {
      TextOrder(x[0], y[0]);
      TextsTie(x[1..], y[1..]);
      assert x == [x[0]] + x[1..] && y == [y[0]] + y[1..];
    }
  }

  lemma EqualKeys(byId: map<Id, Node>, p: Path, q: Path)
    requires |p| == |q| && CompareTexts(Keys(byId, p), Keys(byId, q)) == 0
    ensures !KeysBefore(byId, q, p)
  {
    hide CompareTexts, TextBefore;
    TextsTie(Keys(byId, p), Keys(byId, q));
    forall k | 0 <= k < |p| ensures !TextBefore(KeyOf(byId, q[k]), KeyOf(byId, p[k])) {
      assert Keys(byId, p)[k] == Keys(byId, q)[k];
      TextBeforeOneWay(KeyOf(byId, p[k]), KeyOf(byId, p[k]));
    }
  }

  // ----- paths

  /** An exposed or sensitive endpoint. */
  predicate Exposed(n: Node) {
    n.exposureScore >= 50 || n.state == "shadow" || n.customerCriticality == "high" || n.findingMaxRank >= 3
  }

  ghost predicate Edged(edges: seq<Edge>, relations: set<string>, u: Id, v: Id) {
    exists e :: e in edges && e.relation in relations && e.src == u && e.dst == v
  }

  /** A path over edges of the relations through known nodes, from an internet-facing one, none of them twice. */
  ghost predicate Walkable(nodes: seq<Node>, edges: seq<Edge>, relations: set<string>, depth: int, p: Path) {
    && p != [] && |p| - 1 <= Hops(depth)
    && (forall i, j :: 0 <= i < j < |p| ==> p[i] != p[j])
    && (forall i :: 0 <= i < |p| ==> IsId(nodes, p[i]))
    && (forall i :: 0 <= i < |p| - 1 ==> Edged(edges, relations, p[i], p[i + 1]))
    && exists n :: n in nodes && n.id == p[0] && n.internetReachable
  }

  lemma PathMeans(nodes: seq<Node>, edges: seq<Edge>, relations: set<string>, ends: Node -> bool, depth: int, p: Path)
    ensures IsPath(nodes, edges, relations, ends, depth, p) <==>
              Walkable(nodes, edges, relations, depth, p) && exists n :: n in nodes && n.id == p[|p| - 1] && ends(n)
  {
    hide IsId, Hops;
    if IsPath(nodes, edges, relations, ends, depth, p) {
      forall i | 0 <= i < |p| ensures IsId(nodes, p[i]) { OnPathIsNode(nodes, edges, relations, ends, depth, p, i); }
      forall i | 0 <= i < |p| - 1 ensures Edged(edges, relations, p[i], p[i + 1]) {
        assert Linked(nodes, edges, relations, p[i], p[i + 1]);
      }
    }
    if Walkable(nodes, edges, relations, depth, p) && exists n :: n in nodes && n.id == p[|p| - 1] && ends(n) {
      forall i | 0 <= i < |p| - 1 ensures Linked(nodes, edges, relations, p[i], p[i + 1]) {
        assert Edged(edges, relations, p[i], p[i + 1]);
      }
      var n :| n in nodes && n.id == p[0] && n.internetReachable;
      assert IsEntry(n);
    }
  }

  /** Exposure paths run over "resolves_to" and "hosts" to an exposed or sensitive node. */
  lemma ExposurePathMeans(nodes: seq<Node>, edges: seq<Edge>, depth: int, p: Path)
    ensures IsPath(nodes, edges, REACHABILITY, Sensitive, depth, p) <==>
              Walkable(nodes, edges, {"resolves_to", "hosts"}, depth, p)
              && exists n :: n in nodes && n.id == p[|p| - 1] && Exposed(n)
  {
    hide Walkable, IsPath;
    PathMeans(nodes, edges, REACHABILITY, Sensitive, depth, p);
    assert forall n: Node :: Sensitive(n) <==> Exposed(n);
  }

  /** Attack paths run over "serves" and "exposes" too, to a finding. */
  lemma AttackPathMeans(nodes: seq<Node>, edges: seq<Edge>, depth: int, p: Path)
    ensures IsPath(nodes, edges, ATTACK, IsFinding, depth, p) <==>
              Walkable(nodes, edges, {"resolves_to", "hosts", "serves", "exposes"}, depth, p)
              && exists n :: n in nodes && n.id == p[|p| - 1] && n.nodeType == "finding"
  {
    hide Walkable, IsPath;
    PathMeans(nodes, edges, ATTACK, IsFinding, depth, p);
    assert forall n: Node :: IsFinding(n) <==> n.nodeType == "finding";
  }
}
