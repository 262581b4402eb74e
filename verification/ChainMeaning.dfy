/** What the search for attack chains finds, in terms of the profiles alone: what each step needs, and what it adds. */
module ChainMeaning {
  import opened Options
  import opened Order
  import opened Sorting
  import TreeVisit
  import opened AttackChains
  import opened BuildChains
  import opened ChainScore

  /** The finding gives the attacker x: its profile grants it, or grants code execution, with which data can be read. */
  predicate Gives(t: Tables, f: Finding, x: Capability) {
    var p := ProfileFor(t, f);
    p.Some? && (x in p.value.grants || (x == DataAccess && CodeExecution in p.value.grants))
  }

  /** After n steps of the chain the attacker has x: network access from the start, the rest from some step. */
  ghost predicate HasAfter(t: Tables, c: Chain, n: nat, x: Capability)
    requires n <= |c|
  {
    x == NetworkAccess || exists k :: 0 <= k < n && Gives(t, c[k].finding, x)
  }

  /** What the search holds after a chain is exactly that. */
  lemma {:induction false} HeldExactly(e: Estate, c: Chain, x: Capability)
    ensures x in Held(e, c) <==> HasAfter(e.tables, c, |c|, x)
    decreases |c|
  {
    hide ProfileFor;
    if c != [] {
      var init := c[..|c| - 1];
      HeldExactly(e, init, x);
      HeldExactly(e, init, CodeExecution);
      if CodeExecution in Held(e, init) { CodeReadsData(e, init); }
      assert forall k :: 0 <= k < |init| ==> init[k] == c[k];
      var last := c[|c| - 1].finding;
      assert HasAfter(e.tables, c, |c|, x) <==> HasAfter(e.tables, init, |init|, x) || Gives(e.tables, last, x);
    }
  }

  lemma CodeReadsData(e: Estate, c: Chain)
    requires CodeExecution in Held(e, c)
    ensures DataAccess in Held(e, c)
  {
    hide ProfileFor, GrantsOf;
  }

  /** A finding can be used after a chain: all it needs is there, and it gives something that is not. */
  lemma UsableExactly(e: Estate, c: Chain, f: Finding)
    ensures Usable(e, Held(e, c), f) <==>
              && ProfileFor(e.tables, f).Some?
              && (forall x :: x in ProfileFor(e.tables, f).value.needs ==> HasAfter(e.tables, c, |c|, x))
              && exists x :: Gives(e.tables, f, x) && !HasAfter(e.tables, c, |c|, x)
  {
    hide ProfileFor, Held, HasAfter;
    forall x ensures x in Held(e, c) <==> HasAfter(e.tables, c, |c|, x) { HeldExactly(e, c, x); }
    var p := ProfileFor(e.tables, f);
    if p.Some? {
      forall x ensures x in Expand(p.value.grants) <==> Gives(e.tables, f, x) {}
    }
  }

  /** Step k stays on the asset or follows an edge, and can be used after the steps before it. */
  ghost predicate Follows(e: Estate, c: Chain, k: nat)
    requires 1 <= k < |c|
  {
    var p := ProfileFor(e.tables, c[k].finding);
    && (c[k].asset == c[k - 1].asset || c[k].asset in ReachableFrom(e, c[k - 1].asset))
    && c[k].finding in FindingsAt(e, c[k].asset)
    && p.Some?
    && (forall x :: x in p.value.needs ==> HasAfter(e.tables, c, k, x))
    && exists x :: Gives(e.tables, c[k].finding, x) && !HasAfter(e.tables, c, k, x)
  }

  lemma LegalHopMeans(e: Estate, c: Chain, k: nat)
    requires 1 <= k < |c|
    ensures LegalHop(e, c[..k], c[k]) <==> Follows(e, c, k)
  {
    hide ProfileFor, Usable, Held, HasAfter, Gives;
    UsableExactly(e, c[..k], c[k].finding);
    forall x ensures HasAfter(e.tables, c[..k], k, x) <==> HasAfter(e.tables, c, k, x) { HasAfterPrefix(e.tables, c, k, x); }
  }

  lemma HasAfterPrefix(t: Tables, c: Chain, k: nat, x: Capability)
    requires k <= |c|
    ensures HasAfter(t, c[..k], k, x) <==> HasAfter(t, c, k, x)
  {
    hide Gives;
    assert forall j :: 0 <= j < k ==> c[..k][j] == c[j];
  }

  /** An attack chain starts on an entry asset with a finding that needs at most the network, and every step follows. */
  lemma AttackChainMeans(e: Estate, entries: seq<Asset>, maxLength: int, c: Chain)
    ensures IsAttackChain(e, entries, maxLength, c) <==>
              && 2 <= |c| <= maxLength
              && c[0].asset in entries && c[0].finding in FindingsAt(e, c[0].asset)
              && ProfileFor(e.tables, c[0].finding).Some?
              && (forall x :: x in ProfileFor(e.tables, c[0].finding).value.needs ==> x == NetworkAccess)
              && forall k :: 1 <= k < |c| ==> Follows(e, c, k)
  {
    hide ProfileFor, LegalHop, Follows;
    forall k | 1 <= k < |c| ensures LegalHop(e, c[..k], c[k]) <==> Follows(e, c, k) { LegalHopMeans(e, c, k); }
    if |c| >= 2 { StartMeans(e.tables, c[0].finding); }
  }

  lemma StartMeans(t: Tables, f: Finding)
    ensures CanStart(t, f) <==>
              ProfileFor(t, f).Some? && forall x :: x in ProfileFor(t, f).value.needs ==> x == NetworkAccess
  {
    hide ProfileFor;
    var p := ProfileFor(t, f);
    if p.Some? && p.value.needs - {NetworkAccess} == {} {
      forall x | x in p.value.needs ensures x == NetworkAccess {
        assert x !in p.value.needs - {NetworkAccess};
      }
    }
  }

  // ----- the case that the implication is there for

  /** Code injection on an entry asset, then the credential in that asset's data: a chain of two steps. */
  lemma CodeThenCredential(e: Estate, a: Asset, f: Finding, g: Finding, maxLength: int)
    requires f in FindingsAt(e, a) && g in FindingsAt(e, a) && maxLength >= 2
    requires ProfileFor(e.tables, f).Some? && ProfileFor(e.tables, g).Some?
    requires ProfileFor(e.tables, f).value.needs == {NetworkAccess} && ProfileFor(e.tables, f).value.grants == {CodeExecution}
    requires ProfileFor(e.tables, g).value.needs == {DataAccess} && ProfileFor(e.tables, g).value.grants == {CredentialAccess}
    ensures IsAttackChain(e, [a], maxLength, [Hop(a, f), Hop(a, g)])
  {
    hide ProfileFor, IsAttackChain;
    var c := [Hop(a, f), Hop(a, g)];
    assert Gives(e.tables, c[0].finding, DataAccess);
    assert Gives(e.tables, g, CredentialAccess) && !HasAfter(e.tables, c, 1, CredentialAccess);
    assert HasAfter(e.tables, c, 1, DataAccess);
    assert Follows(e, c, 1);
    AttackChainMeans(e, [a], maxLength, c);
  }

  // ----- which profile a finding gets

  /** The entry of its CWE, whatever its category; else that of its category; reliability raised, up to 99. */
  lemma ProfileOf(t: Tables, f: Finding)
    ensures ProfileFor(t, f).Some? <==> f.cwe in t.byCwe || f.category in t.byCategory
    ensures ProfileFor(t, f).Some? ==>
              var entry := if f.cwe in t.byCwe then t.byCwe[f.cwe] else t.byCategory[f.category];
              var p := ProfileFor(t, f).value;
              p.needs == entry.needs && p.grants == entry.grants && p.reliability <= 99
              && (entry.reliability <= 99 ==> entry.reliability <= p.reliability)
  {}

  /** Known exploitation and more mature exploits never make a step less reliable. */
  lemma ExploitsRaiseReliability(t: Tables, f: Finding, m: string, kev: bool)
    requires ProfileFor(t, f).Some?
    ensures ReliabilityWith(t, f, m, false) <= ReliabilityWith(t, f, m, true)
    ensures ReliabilityWith(t, f, "", kev) <= ReliabilityWith(t, f, "poc", kev)
         <= ReliabilityWith(t, f, "functional", kev) <= ReliabilityWith(t, f, "high", kev)
    ensures ReliabilityWith(t, f, "", kev) <= ReliabilityWith(t, f, m, kev) <= ReliabilityWith(t, f, "high", kev)
  {}

  /** The reliability the finding would have with another maturity and exploitation record. */
  function ReliabilityWith(t: Tables, f: Finding, m: string, kev: bool): nat
    requires ProfileFor(t, f).Some?
  {
    ProfileFor(t, f.(maturity := m, kev := kev)).value.reliability
  }

  // ----- the order in which chains are found, which decides what a capped search leaves out

  /** Own findings first, then those of reachable assets by asset text. */
  predicate TriedFirst(here: Asset, x: Hop, y: Hop) {
    x.asset == here || CompareText(x.asset.text, y.asset.text, 0) <= 0
  }

  ghost predicate TriedInOrder(here: Asset, hops: seq<Hop>) {
    forall i, j :: 0 <= i < j < |hops| ==> TriedFirst(here, hops[i], hops[j])
  }

  lemma {:induction false} HopsOverInOrder(e: Estate, here: Asset, assets: seq<Asset>)
    requires SortedBy(assets, AssetOrder)
    ensures TriedInOrder(here, HopsOver(e, assets))
  {
    hide FindingsAt;
    if assets != [] {
      var own, rest := HopsAt(assets[0], FindingsAt(e, assets[0])), HopsOver(e, assets[1..]);
      HopsAtMembers(assets[0], FindingsAt(e, assets[0]));
      HopsOverMembers(e, assets[1..]);
      HopsOverInOrder(e, here, assets[1..]);
      TextTie(assets[0].text, assets[0].text, 0);
      forall x, y | x in own && y in own + rest ensures TriedFirst(here, x, y) {
        if y in rest {
          var i :| 0 <= i < |assets[1..]| && assets[1..][i] == y.asset;
          assert AssetOrder(assets[0], assets[i + 1]);
        }
      }
      OwnThenRest(here, own, rest);
    }
  }

  lemma OwnThenRest(here: Asset, own: seq<Hop>, rest: seq<Hop>)
    requires TriedInOrder(here, rest) && forall x, y :: x in own && y in own + rest ==> TriedFirst(here, x, y)
    ensures TriedInOrder(here, own + rest)
  {
    hide TriedFirst;
    var all := own + rest;
    forall i, j | 0 <= i < j < |all| ensures TriedFirst(here, all[i], all[j]) {
      if i < |own| { assert all[i] in own && all[j] in own + rest; }
    }
  }

  lemma {:induction false} UsableInOrder(e: Estate, here: Asset, hops: seq<Hop>, held: set<Capability>)
    requires TriedInOrder(here, hops)
    ensures TriedInOrder(here, UsableAmong(e, hops, held))
  {
    hide TriedFirst, Usable;
    if hops != [] {
      var init, last := hops[..|hops| - 1], hops[|hops| - 1];
      UsableInOrder(e, here, init, held);
      UsableAmongMembers(e, init, held);
      forall x | x in init ensures TriedFirst(here, x, last) {
        var i :| 0 <= i < |init| && init[i] == x;
        assert hops[i] == x;
      }
    }
  }

  /** What may follow a chain is tried in that order. */
  lemma NextInOrder(e: Estate, c: Chain)
    requires c != []
    ensures TriedInOrder(c[|c| - 1].asset, Next(e)(c))
  {
    hide TriedFirst, Usable, Held, Sort, Distinct, HopsAt, HopsOver, UsableAmong, TriedInOrder, FindingsAt;
    var here, held := c[|c| - 1].asset, Held(e, c);
    var assets := Sort(Distinct(ReachableFrom(e, here)), AssetOrder);
    AssetOrderIsTotal();
    SortSorts(Distinct(ReachableFrom(e, here)), AssetOrder);
    HopsOverInOrder(e, here, assets);
    HopsAtMembers(here, FindingsAt(e, here));
    OwnFirst(here, HopsAt(here, FindingsAt(e, here)), HopsOver(e, assets));
    NetworkAlwaysHeld(e, c);
    UsableInOrder(e, here, Candidates(e, here, held), held);
  }

  lemma OwnFirst(here: Asset, own: seq<Hop>, over: seq<Hop>)
    requires TriedInOrder(here, over) && forall x :: x in own ==> x.asset == here
    ensures TriedInOrder(here, own + over)
  {
    OwnThenRest(here, own, over);
  }

  lemma AssetOrderIsTotal()
    ensures Total(AssetOrder) && Transitive(AssetOrder)
  {
    forall x, y ensures AssetOrder(x, y) || AssetOrder(y, x) { TextAntisymmetric(x.text, y.text, 0); }
    forall x, y, z | AssetOrder(x, y) && AssetOrder(y, z) ensures AssetOrder(x, z) {
      TextTransitive(x.text, y.text, z.text, 0);
    }
  }

  /** The chains from a start come each before its continuations, and these as their steps are tried. */
  lemma ChainsInOrder(e: Estate, start: Hop, maxLength: int)
    ensures TreeVisit.InOrder(Next(e), AllChains(e, start, maxLength))
  {
    TreeVisit.VisitInOrder(Next(e), [start], Steps(maxLength, 1));
  }

  // ----- what the score of a chain is computed from

  /** The reliability of every step in order, everything granted by any step, and the asset the chain ends on. */
  lemma RankMeans(e: Estate, criticality: map<Asset, string>, c: Chain)
    requires c != [] && forall k :: 0 <= k < |c| ==> ProfileFor(e.tables, c[k].finding).Some?
    ensures var rs, granted := Reliabilities(e.tables, c), Granted(e, c);
            var end := c[|c| - 1].asset;
            && Rank(e, criticality, c).steps == c
            && Rank(e, criticality, c).score == ScoreOf(rs, granted, if end in criticality then criticality[end] else "medium")
            && |rs| == |c| && (forall k :: 0 <= k < |c| ==> rs[k] == ProfileFor(e.tables, c[k].finding).value.reliability)
            && forall x :: x in granted <==>
                 exists k :: 0 <= k < |c| && x in ProfileFor(e.tables, c[k].finding).value.grants
  {
    hide ProfileFor, ScoreOf;
    ReliabilitiesAre(e.tables, c);
    GrantedAre(e, c);
  }

  lemma {:induction false} ReliabilitiesAre(t: Tables, c: Chain)
    requires forall k :: 0 <= k < |c| ==> ProfileFor(t, c[k].finding).Some?
    ensures |Reliabilities(t, c)| == |c|
    ensures forall k :: 0 <= k < |c| ==> Reliabilities(t, c)[k] == ProfileFor(t, c[k].finding).value.reliability
  {
    hide ProfileFor;
    if c != [] {
      var init := c[..|c| - 1];
      assert forall k :: 0 <= k < |init| ==> init[k] == c[k];
      ReliabilitiesAre(t, init);
    }
  }

  lemma {:induction false} GrantedAre(e: Estate, c: Chain)
    requires forall k :: 0 <= k < |c| ==> ProfileFor(e.tables, c[k].finding).Some?
    ensures forall x :: x in Granted(e, c) <==>
              exists k :: 0 <= k < |c| && x in ProfileFor(e.tables, c[k].finding).value.grants
  {
    hide ProfileFor;
    if c != [] {
      var init := c[..|c| - 1];
      assert forall k :: 0 <= k < |init| ==> init[k] == c[k];
      GrantedAre(e, init);
    }
  }
}
