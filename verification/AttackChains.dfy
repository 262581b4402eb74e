/** Chains of findings: what a finding requires and grants, and the search for every usable order. */
module AttackChains {
  import opened Options
  import opened Order
  import opened Sorting
  import TreeVisit

  datatype Capability =
    | NetworkAccess | CodeExecution | CredentialAccess | DataAccess | PrivilegeEscalation | LateralMovement

  const ALL: set<Capability> :=
    {NetworkAccess, CodeExecution, CredentialAccess, DataAccess, PrivilegeEscalation, LateralMovement}

  datatype Profile = Profile(needs: set<Capability>, grants: set<Capability>, reliability: nat)

  datatype FindingId = FindingId(text: string)

  datatype Asset = Asset(text: string)

  datatype Finding = Finding(
    id: FindingId, asset: Asset, riskScore: int, cwe: string, category: string, kev: bool, maturity: string)

  /** The profile tables, as parameters: everything below holds whatever they list. */
  datatype Tables = Tables(byCwe: map<string, Profile>, byCategory: map<string, Profile>)

  // ----- capabilities

  /** Running code on a host includes reading its data; nothing else is implied. */
  function Expand(s: set<Capability>): set<Capability> {
    if CodeExecution in s then s + {DataAccess} else s
  }

  lemma ExpandLaws(s: set<Capability>, t: set<Capability>)
    ensures s <= Expand(s) && Expand(Expand(s)) == Expand(s)
    ensures s <= t ==> Expand(s) <= Expand(t)
    ensures Expand(s + t) == Expand(s) + Expand(t)
  {}

  function MaturityBonus(maturity: string): nat {
    if maturity == "high" then 10 else if maturity == "functional" then 8 else if maturity == "poc" then 3 else 0
  }

  /** By CWE, else by category; exploit intelligence raises reliability, up to 99. */
  function ProfileFor(t: Tables, f: Finding): Option<Profile> {
    var base :=
      if f.cwe in t.byCwe then Some(t.byCwe[f.cwe])
      else if f.category in t.byCategory then Some(t.byCategory[f.category])
      else None;
    match base
    case None => None
    case Some(p) =>
      var raised := p.reliability + MaturityBonus(f.maturity) + if f.kev then 10 else 0;
      Some(Profile(p.needs, p.grants, if raised < 99 then raised else 99))
  }

  // ----- the estate and its legal chains

  /** The findings of each asset, and the assets each one reaches. */
  datatype Estate = Estate(tables: Tables, byAsset: map<Asset, seq<Finding>>, reachable: map<Asset, seq<Asset>>)

  function FindingsAt(e: Estate, a: Asset): seq<Finding> { if a in e.byAsset then e.byAsset[a] else [] }

  function ReachableFrom(e: Estate, a: Asset): seq<Asset> { if a in e.reachable then e.reachable[a] else [] }

  datatype Hop = Hop(asset: Asset, finding: Finding)

  type Chain = seq<Hop>

  function GrantsOf(e: Estate, f: Finding): set<Capability> {
    var p := ProfileFor(e.tables, f);
    if p.None? then {} else p.value.grants
  }

  /** What an attacker holds after the steps of a chain, starting with network access. */
  function Held(e: Estate, c: Chain): set<Capability> {
    if c == [] then {NetworkAccess} else Expand(Held(e, c[..|c| - 1]) + GrantsOf(e, c[|c| - 1].finding))
  }

  /** The finding's requirements are held, and it grants something not yet held. */
  predicate Usable(e: Estate, held: set<Capability>, f: Finding) {
    var p := ProfileFor(e.tables, f);
    p.Some? && p.value.needs <= held && !(Expand(p.value.grants) <= held)
  }

  /** The hop stays on the asset or follows an edge, to a finding reported there that can be used. */
  ghost predicate LegalHop(e: Estate, c: Chain, h: Hop)
    requires c != []
  {
    var here := c[|c| - 1].asset;
    && (h.asset == here || h.asset in ReachableFrom(e, here))
    && h.finding in FindingsAt(e, h.asset)
    && Usable(e, Held(e, c), h.finding)
  }

  ghost predicate LegalChain(e: Estate, start: Hop, c: Chain) {
    c != [] && c[0] == start && forall k :: 1 <= k < |c| ==> LegalHop(e, c[..k], c[k])
  }

  // ----- candidates for the next step, in the order the source tries them

  function HopsAt(a: Asset, findings: seq<Finding>): seq<Hop> {
    if findings == [] then [] else [Hop(a, findings[0])] + HopsAt(a, findings[1..])
  }

  function HopsOver(e: Estate, assets: seq<Asset>): seq<Hop> {
    if assets == [] then [] else HopsAt(assets[0], FindingsAt(e, assets[0])) + HopsOver(e, assets[1..])
  }

  const AssetOrder: (Asset, Asset) -> bool := (a: Asset, b: Asset) => CompareText(a.text, b.text, 0) <= 0

  predicate CanMove(held: set<Capability>) {
    LateralMovement in held || CodeExecution in held || NetworkAccess in held
  }

  function Candidates(e: Estate, here: Asset, held: set<Capability>): seq<Hop> {
    HopsAt(here, FindingsAt(e, here)) +
    if CanMove(held) then HopsOver(e, Sort(Distinct(ReachableFrom(e, here)), AssetOrder)) else []
  }

  function UsableAmong(e: Estate, hops: seq<Hop>, held: set<Capability>): seq<Hop> {
    if hops == [] then []
    else
      var last := hops[|hops| - 1];
      UsableAmong(e, hops[..|hops| - 1], held) + if Usable(e, held, last.finding) then [last] else []
  }

  /** The hops that may follow a chain. */
  function Next(e: Estate): Chain -> seq<Hop> {
    (c: Chain) =>
      if c == [] then []
      else UsableAmong(e, Candidates(e, c[|c| - 1].asset, Held(e, c)), Held(e, c))
  }

  lemma {:induction false} HopsAtMembers(a: Asset, findings: seq<Finding>)
    ensures forall h :: h in HopsAt(a, findings) <==> h.asset == a && h.finding in findings
    ensures NoRepeats(findings) ==> NoRepeats(HopsAt(a, findings))
  {
    if findings != [] {
      HopsAtMembers(a, findings[1..]);
      assert findings == [findings[0]] + findings[1..];
      assert NoRepeats(findings) ==> findings[0] !in findings[1..];
    }
  }

  lemma {:induction false} HopsOverMembers(e: Estate, assets: seq<Asset>)
    ensures forall h :: h in HopsOver(e, assets) <==> h.asset in assets && h.finding in FindingsAt(e, h.asset)
  {
    if assets != [] {
      HopsOverMembers(e, assets[1..]);
      HopsAtMembers(assets[0], FindingsAt(e, assets[0]));
      assert assets == [assets[0]] + assets[1..];
    }
  }

  lemma {:induction false} UsableAmongMembers(e: Estate, hops: seq<Hop>, held: set<Capability>)
    ensures forall h :: h in UsableAmong(e, hops, held) <==> h in hops && Usable(e, held, h.finding)
  {
    hide Usable;
    if hops != [] {
      UsableAmongMembers(e, hops[..|hops| - 1], held);
      assert hops == hops[..|hops| - 1] + [hops[|hops| - 1]];
    }
  }

  /** Network access is held from the first step on, so the movement guard always passes. */
  lemma {:induction false} NetworkAlwaysHeld(e: Estate, c: Chain)
    ensures NetworkAccess in Held(e, c) && CanMove(Held(e, c))
  {
    if c != [] { NetworkAlwaysHeld(e, c[..|c| - 1]); }
  }

  /** What may follow a chain is exactly what is legal after it. */
  lemma NextIsLegal(e: Estate, c: Chain, h: Hop)
    requires c != []
    ensures h in Next(e)(c) <==> LegalHop(e, c, h)
  {
    hide Usable, Held, Sort, Distinct, AssetOrder, HopsAt, HopsOver, UsableAmong;
    var here, held := c[|c| - 1].asset, Held(e, c);
    NetworkAlwaysHeld(e, c);
    UsableAmongMembers(e, Candidates(e, here, held), held);
    HopsAtMembers(here, FindingsAt(e, here));
    var assets := Sort(Distinct(ReachableFrom(e, here)), AssetOrder);
    HopsOverMembers(e, assets);
    DistinctKeeps(ReachableFrom(e, here));
    SortKeeps(Distinct(ReachableFrom(e, here)), AssetOrder);
  }

  // ----- what a chain holds only grows, and grows with every step

  lemma LegalPrefix(e: Estate, start: Hop, c: Chain)
    requires LegalChain(e, start, c) && |c| > 1
    ensures LegalChain(e, start, c[..|c| - 1]) && LegalHop(e, c[..|c| - 1], c[|c| - 1])
  {
    var r := c[..|c| - 1];
    forall k | 1 <= k < |r| ensures LegalHop(e, r[..k], r[k]) {
      assert LegalHop(e, c[..k], c[k]);
      assert r[..k] == c[..k];
    }
    assert LegalHop(e, c[..|c| - 1], c[|c| - 1]);
  }

  lemma {:induction false} HeldGrows(e: Estate, c: Chain, k: nat)
    requires k < |c|
    ensures Expand(GrantsOf(e, c[k].finding)) <= Held(e, c)
    decreases |c|
  {
    var r := c[..|c| - 1];
    if k < |r| {
      HeldGrows(e, r, k);
      assert r[k] == c[k];
    }
  }

  /** Each step after the first adds a capability, so chains are short whatever length is allowed. */
  lemma {:induction false} EachStepAdds(e: Estate, start: Hop, c: Chain)
    requires LegalChain(e, start, c)
    ensures |c| <= |Held(e, c)|
  {
    var last := c[|c| - 1];
    NetworkAlwaysHeld(e, c);
    if |c| == 1 {
      assert {NetworkAccess} <= Held(e, c);
      Smaller({NetworkAccess}, Held(e, c));
    } else {
      var r := c[..|c| - 1];
      LegalPrefix(e, start, c);
      EachStepAdds(e, start, r);
      StepAddsOne(Held(e, r), GrantsOf(e, last.finding));
    }
  }

  lemma {:induction false} Smaller(s: set<Capability>, t: set<Capability>)
    requires s <= t
    ensures |s| <= |t| && (s != t ==> |s| < |t|)
  {
    var extra := t - s;
    assert t == s + extra;
    assert |t| == |s| + |extra|;
    if s != t {
      var x :| x in extra;
      assert |extra| > 0;
    }
  }

  lemma StepAddsOne(held: set<Capability>, grants: set<Capability>)
    requires !(Expand(grants) <= held)
    ensures |Expand(held + grants)| > |held|
  {
    Smaller(held, Expand(held + grants));
  }

  lemma AtMostSixCapabilities(s: set<Capability>)
    ensures |s| <= 6
  {
    forall x | x in s ensures x in ALL {
      assert x.NetworkAccess? || x.CodeExecution? || x.CredentialAccess? || x.DataAccess?
          || x.PrivilegeEscalation? || x.LateralMovement?;
    }
    Smaller(s, ALL);
    assert |ALL| == 6 by {
      var five := {CodeExecution, CredentialAccess, DataAccess, PrivilegeEscalation, LateralMovement};
      assert ALL == {NetworkAccess} + five;
      assert |five| == 5;
    }
  }

  /** No legal chain has more than six steps. */
  lemma AtMostSixSteps(e: Estate, start: Hop, c: Chain)
    requires LegalChain(e, start, c)
    ensures |c| <= 6
  {
    EachStepAdds(e, start, c);
    AtMostSixCapabilities(Held(e, c));
  }

  /** A finding whose grants are held is not usable, so none comes twice. */
  lemma UsedIsNotUsable(e: Estate, c: Chain, k: nat, f: Finding)
    requires k < |c| && c[k].finding == f
    ensures !Usable(e, Held(e, c), f)
  {
    HeldGrows(e, c, k);
  }

  lemma NoFindingTwice(e: Estate, start: Hop, c: Chain)
    requires LegalChain(e, start, c)
    ensures forall i, j :: 0 <= i < j < |c| ==> c[i].finding != c[j].finding
  {
    forall i, j | 0 <= i < j < |c| ensures c[i].finding != c[j].finding {
      assert LegalHop(e, c[..j], c[j]);
      if c[i].finding == c[j].finding { UsedIsNotUsable(e, c[..j], i, c[j].finding); }
    }
  }

  // ----- the tree of legal chains

  lemma {:induction false} GrowsMeansLegal(e: Estate, start: Hop, c: Chain)
    ensures TreeVisit.Grows(Next(e), [start], c) <==> LegalChain(e, start, c)
  {
    hide LegalHop, Next;
    if c != [] {
      assert c[..1] == [start] <==> c[0] == start;
      forall k | 1 <= k < |c| ensures c[k] in Next(e)(c[..k]) <==> LegalHop(e, c[..k], c[k]) {
        NextIsLegal(e, c[..k], c[k]);
      }
    }
  }

  function Steps(maxLength: int, taken: nat): nat { if maxLength <= taken then 0 else maxLength - taken }

  /** Every chain from start up to the length, each before its own continuations. */
  ghost function AllChains(e: Estate, start: Hop, maxLength: int): seq<Chain> {
    TreeVisit.Visit(Next(e), [start], Steps(maxLength, 1))
  }

  /** The chains worth reporting: at least two steps. */
  function Reported(chains: seq<Chain>): seq<Chain> {
    if chains == [] then []
    else
      var last := chains[|chains| - 1];
      Reported(chains[..|chains| - 1]) + if |last| >= 2 then [last] else []
  }

  lemma {:induction false} ReportedMembers(chains: seq<Chain>)
    ensures forall c :: c in Reported(chains) <==> c in chains && |c| >= 2
  {
    if chains != [] {
      ReportedMembers(chains[..|chains| - 1]);
      assert chains == chains[..|chains| - 1] + [chains[|chains| - 1]];
    }
  }

  /** The reported chains are exactly the legal ones of two steps up to the length. */
  lemma ReportedChainsAreLegal(e: Estate, start: Hop, maxLength: int, c: Chain)
    ensures c in Reported(AllChains(e, start, maxLength)) <==> LegalChain(e, start, c) && 2 <= |c| <= maxLength
  {
    hide LegalChain, Next;
    ReportedMembers(AllChains(e, start, maxLength));
    TreeVisit.VisitMembers(Next(e), [start], Steps(maxLength, 1), c);
    GrowsMeansLegal(e, start, c);
  }

  // ----- the recursive search of the source

  /** One finding per identifier, in the whole estate. */
  ghost predicate UniqueFindings(e: Estate) {
    forall a, b, f, g :: f in FindingsAt(e, a) && g in FindingsAt(e, b) && f.id == g.id ==> f == g
  }

  ghost predicate ChainOf(e: Estate, c: Chain) {
    c != [] && forall k :: 0 <= k < |c| ==> c[k].finding in FindingsAt(e, c[k].asset)
  }

  lemma OneMoreCandidate(e: Estate, c: Chain, hops: seq<Hop>, h: Hop, held: set<Capability>, n: nat)
    ensures var before := TreeVisit.VisitAll(Next(e), TreeVisit.Append(c, UsableAmong(e, hops, held)), n);
            TreeVisit.VisitAll(Next(e), TreeVisit.Append(c, UsableAmong(e, hops + [h], held)), n) ==
              if Usable(e, held, h.finding) then before + TreeVisit.Visit(Next(e), c + [h], n) else before
  {
    hide Usable, Next, TreeVisit.Visit;
    assert (hops + [h])[..|hops|] == hops;
    var soFar := UsableAmong(e, hops, held);
    assert soFar + [] == soFar;
    AppendVisits(Next(e), c, UsableAmong(e, hops, held), h, n);
  }

  lemma {:induction false} AppendVisits(next: Chain -> seq<Hop>, c: Chain, hops: seq<Hop>, h: Hop, n: nat)
    ensures TreeVisit.VisitAll(next, TreeVisit.Append(c, hops + [h]), n)
         == TreeVisit.VisitAll(next, TreeVisit.Append(c, hops), n) + TreeVisit.Visit(next, c + [h], n)
  {
    hide TreeVisit.Visit;
    if hops == [] {
      assert TreeVisit.Append(c, [h]) == [c + [h]];
      assert TreeVisit.Append(c, hops) == [];
      assert hops + [h] == [h];
      assert TreeVisit.VisitAll(next, [c + [h]], n) == TreeVisit.Visit(next, c + [h], n) + TreeVisit.VisitAll(next, [], n);
    } else {
      AppendVisits(next, c, hops[1..], h, n);
      assert (hops + [h])[1..] == hops[1..] + [h];
      AppendUnfolds(c, hops);
      AppendUnfolds(c, hops + [h]);
      VisitAllUnfolds(next, c + [hops[0]], TreeVisit.Append(c, hops[1..]), n);
      VisitAllUnfolds(next, c + [hops[0]], TreeVisit.Append(c, hops[1..] + [h]), n);
    }
  }

  lemma AppendUnfolds(c: Chain, hops: seq<Hop>)
    requires hops != []
    ensures TreeVisit.Append(c, hops) == [c + [hops[0]]] + TreeVisit.Append(c, hops[1..])
  {}

  lemma VisitAllUnfolds(next: Chain -> seq<Hop>, c: Chain, rest: seq<Chain>, n: nat)
    ensures TreeVisit.VisitAll(next, [c] + rest, n) == TreeVisit.Visit(next, c, n) + TreeVisit.VisitAll(next, rest, n)
  {
    hide TreeVisit.Visit;
    assert ([c] + rest)[1..] == rest;
  }

  lemma VisitUnfolds(e: Estate, c: Chain, n: nat)
    requires c != []
    ensures TreeVisit.Visit(Next(e), c, n) == [c] + if n == 0 then [] else
              TreeVisit.VisitAll(Next(e),
                TreeVisit.Append(c, UsableAmong(e, Candidates(e, c[|c| - 1].asset, Held(e, c)), Held(e, c))), n - 1)
  {
    hide Candidates, Held, UsableAmong;
  }

  function IdsOf(c: Chain): set<FindingId> { set k | 0 <= k < |c| :: c[k].finding.id }

  lemma IdsGrow(c: Chain, h: Hop)
    ensures IdsOf(c + [h]) == IdsOf(c) + {h.finding.id}
  {
    var d := c + [h];
    assert forall k :: 0 <= k < |c| ==> d[k] == c[k];
    assert d[|c|] == h;
    forall i | i in IdsOf(c) ensures i in IdsOf(d) {
      var k :| 0 <= k < |c| && c[k].finding.id == i;
      assert d[k].finding.id == i;
    }
    assert h.finding.id in IdsOf(d);
  }

  /**
   The tests a candidate has to pass: not in the chain yet, requirements held, something new granted.
   The first one decides nothing that the last one would not.
   */
  method CanFollow(e: Estate, ghost c: Chain, held: set<Capability>, used: set<FindingId>, h: Hop)
    returns (ok: bool)
    requires UniqueFindings(e) && ChainOf(e, c) && h.finding in FindingsAt(e, h.asset)
    requires held == Held(e, c) && used == IdsOf(c)
    ensures ok <==> Usable(e, held, h.finding)
  {
    if h.finding.id in used {
      ghost var j :| 0 <= j < |c| && c[j].finding.id == h.finding.id;
      assert c[j].finding == h.finding;
      UsedIsNotUsable(e, c, j, h.finding);
      return false;
    }
    var profile := ProfileFor(e.tables, h.finding);
    if profile.None? || !(profile.value.needs <= held) { return false; }
    ok := Expand(profile.value.grants) - held != {};
  }

  /** The walk: records the chain, then continues with every usable candidate. It ends because what is held grows. */
  method Walk(e: Estate, c: Chain, held: set<Capability>, here: Asset, used: set<FindingId>, maxLength: int,
              results0: seq<Chain>) returns (results: seq<Chain>)
    requires UniqueFindings(e) && ChainOf(e, c)
    requires held == Held(e, c) && here == c[|c| - 1].asset && used == IdsOf(c)
    ensures results == results0 + TreeVisit.Visit(Next(e), c, Steps(maxLength, |c|))
    decreases ALL - held
  {
    hide Held, Candidates, TreeVisit.VisitAll, TreeVisit.Append, Next, TreeVisit.Visit, Expand, UsableAmong, IdsOf, UniqueFindings;
    results := results0 + [c];
    VisitUnfolds(e, c, Steps(maxLength, |c|));
    if |c| >= maxLength { return; }
    ghost var n: nat := Steps(maxLength, |c|) - 1;
    var candidates := Candidates(e, here, held);
    NothingTried(e, c, held, n);
    assert candidates[..0] == [];
    for k := 0 to |candidates|
      invariant results == results0 + [c] + TreeVisit.VisitAll(Next(e), TreeVisit.Append(c, UsableAmong(e, candidates[..k], held)), n)
    {
      var h := candidates[k];
      OneMoreCandidate(e, c, candidates[..k], h, held, n);
      assert candidates[..k + 1] == candidates[..k] + [h];
      CandidateIsReal(e, here, held, h);
      var ok := CanFollow(e, c, held, used, h);
      if ok {
        var grants := ProfileFor(e.tables, h.finding).value.grants;
        HeldAfter(e, c, h);
        IdsGrow(c, h);
        ShrinksMeasure(held, grants);
        results := Walk(e, c + [h], Expand(held + grants), h.asset, used + {h.finding.id}, maxLength, results);
      }
    }
    assert candidates[..|candidates|] == candidates;
  }

  lemma NothingTried(e: Estate, c: Chain, held: set<Capability>, n: nat)
    ensures TreeVisit.VisitAll(Next(e), TreeVisit.Append(c, UsableAmong(e, [], held)), n) == []
  {}

  lemma CandidateIsReal(e: Estate, here: Asset, held: set<Capability>, h: Hop)
    requires h in Candidates(e, here, held)
    ensures h.finding in FindingsAt(e, h.asset)
  {
    hide HopsAt, HopsOver, Sort, Distinct;
    HopsAtMembers(here, FindingsAt(e, here));
    HopsOverMembers(e, Sort(Distinct(ReachableFrom(e, here)), AssetOrder));
  }

  lemma HeldAfter(e: Estate, c: Chain, h: Hop)
    ensures Held(e, c + [h]) == Expand(Held(e, c) + GrantsOf(e, h.finding))
  {
    assert (c + [h])[..|c|] == c;
  }

  lemma ShrinksMeasure(held: set<Capability>, grants: set<Capability>)
    requires !(Expand(grants) <= held)
    ensures ALL - Expand(held + grants) < ALL - held
  {
    var x :| x in Expand(grants) && x !in held;
    assert x.NetworkAccess? || x.CodeExecution? || x.CredentialAccess? || x.DataAccess?
        || x.PrivilegeEscalation? || x.LateralMovement?;
    assert x in ALL - held && x !in ALL - Expand(held + grants);
  }

  /** Every chain beginning at start: the legal ones from two steps up to the length, and no others. */
  method Extend(e: Estate, start: Finding, asset: Asset, maxLength: int) returns (chains: seq<Chain>)
    requires UniqueFindings(e) && start in FindingsAt(e, asset)
    ensures ProfileFor(e.tables, start).None? ==> chains == []
    ensures ProfileFor(e.tables, start).Some? ==>
              chains == Reported(AllChains(e, Hop(asset, start), maxLength))
              && forall c :: c in chains <==> LegalChain(e, Hop(asset, start), c) && 2 <= |c| <= maxLength
  {
    hide LegalChain, Next, TreeVisit.Visit;
    var first := ProfileFor(e.tables, start);
    if first.None? { return []; }
    var h := Hop(asset, start);
    HeldAfter(e, [], h);
    assert [] + [h] == [h];
    assert IdsOf([h]) == {start.id} by {
      IdsGrow([], h);
      assert [] + [h] == [h];
    }
    var results := Walk(e, [h], Expand({NetworkAccess} + first.value.grants), asset, {start.id}, maxLength, []);
    chains := Reported(results);
    assert [] + TreeVisit.Visit(Next(e), [h], Steps(maxLength, 1)) == AllChains(e, h, maxLength);
    forall c ensures c in chains <==> LegalChain(e, h, c) && 2 <= |c| <= maxLength {
      ReportedChainsAreLegal(e, h, maxLength, c);
    }
  }

  // ----- each chain once, exactly when no step is taken inside an asset that lists itself as reachable

  ghost predicate FindingsListedOnce(e: Estate) { forall a :: NoRepeats(FindingsAt(e, a)) }

  /** After some legal chain a step inside the same asset is legal, and that asset reaches itself. */
  ghost predicate LoopsInPlace(e: Estate, start: Hop, maxLength: int) {
    exists c, h :: LegalChain(e, start, c) && |c| < maxLength && LegalInPlace(e, c, h)
  }

  ghost predicate LegalInPlace(e: Estate, c: Chain, h: Hop) {
    c != [] && LegalHop(e, c, h) && h.asset == c[|c| - 1].asset && h.asset in ReachableFrom(e, h.asset)
  }

  lemma {:induction false} UsableAmongOnce(e: Estate, hops: seq<Hop>, held: set<Capability>)
    requires NoRepeats(hops)
    ensures NoRepeats(UsableAmong(e, hops, held))
  {
    hide Usable;
    if hops != [] {
      var init, last := hops[..|hops| - 1], hops[|hops| - 1];
      UsableAmongOnce(e, init, held);
      UsableAmongMembers(e, init, held);
      assert last !in init;
    }
  }

  lemma {:induction false} UsableAmongConcat(e: Estate, one: seq<Hop>, two: seq<Hop>, held: set<Capability>)
    ensures UsableAmong(e, one + two, held) == UsableAmong(e, one, held) + UsableAmong(e, two, held)
  {
    hide Usable;
    if two == [] {
      assert one + two == one;
    } else {
      var init := two[..|two| - 1];
      UsableAmongConcat(e, one, init, held);
      assert (one + two)[..|one + two| - 1] == one + init;
    }
  }

  lemma {:induction false} HopsOverOnce(e: Estate, assets: seq<Asset>)
    requires NoRepeats(assets) && FindingsListedOnce(e)
    ensures NoRepeats(HopsOver(e, assets))
  {
    hide FindingsAt;
    if assets != [] {
      HopsOverOnce(e, assets[1..]);
      HopsAtMembers(assets[0], FindingsAt(e, assets[0]));
      HopsOverMembers(e, assets[1..]);
      assert assets[0] !in assets[1..];
      ConcatNoRepeats(HopsAt(assets[0], FindingsAt(e, assets[0])), HopsOver(e, assets[1..]));
    }
  }

  /** A list of next hops repeats one exactly when a step in place is also a step along a self-loop. */
  lemma NextOnce(e: Estate, c: Chain)
    requires c != [] && FindingsListedOnce(e)
    ensures NoRepeats(Next(e)(c)) <==> !exists h :: LegalInPlace(e, c, h)
  {
    hide Usable, Held, AssetOrder, HopsAt, HopsOver, UsableAmong, NoRepeats, FindingsAt, Sort, Distinct, ReachableFrom;
    var here, held := c[|c| - 1].asset, Held(e, c);
    NetworkAlwaysHeld(e, c);
    var assets := Sort(Distinct(ReachableFrom(e, here)), AssetOrder);
    DistinctKeeps(ReachableFrom(e, here));
    SortKeeps(Distinct(ReachableFrom(e, here)), AssetOrder);
    var own, over := HopsAt(here, FindingsAt(e, here)), HopsOver(e, assets);
    HopsAtMembers(here, FindingsAt(e, here));
    assert NoRepeats(FindingsAt(e, here));
    HopsOverMembers(e, assets);
    HopsOverOnce(e, assets);
    UsableAmongMembers(e, own, held);
    UsableAmongMembers(e, over, held);
    UsableAmongOnce(e, own, held);
    UsableAmongOnce(e, over, held);
    UsableAmongConcat(e, own, over, held);
    var first, second := UsableAmong(e, own, held), UsableAmong(e, over, held);
    assert Next(e)(c) == first + second;
    assert forall h :: h in first && h in second ==> LegalInPlace(e, c, h);
    if exists h :: LegalInPlace(e, c, h) {
      var h :| LegalInPlace(e, c, h);
      assert h in first && h in second;
      SharedRepeats(first, second, h);
    } else {
      ConcatNoRepeats(first, second);
    }
  }

  lemma SharedRepeats(s: seq<Hop>, t: seq<Hop>, h: Hop)
    requires h in s && h in t
    ensures !NoRepeats(s + t)
  {
    var i :| 0 <= i < |s| && s[i] == h;
    var j :| 0 <= j < |t| && t[j] == h;
    assert (s + t)[i] == (s + t)[|s| + j];
  }

  lemma {:induction false} ReportedDropsOnlyFirst(chains: seq<Chain>)
    requires chains != [] && |chains[0]| == 1 && forall i :: 1 <= i < |chains| ==> |chains[i]| >= 2
    ensures Reported(chains) == chains[1..]
  {
    if |chains| > 1 {
      var init := chains[..|chains| - 1];
      ReportedDropsOnlyFirst(init);
      assert init[1..] + [chains[|chains| - 1]] == chains[1..];
    } else {
      assert chains[..0] == [];
    }
  }

  lemma LongerBelow(next: Chain -> seq<Hop>, start: Hop, hops: seq<Hop>, n: nat, x: Chain)
    requires x in TreeVisit.VisitAll(next, TreeVisit.Append([start], hops), n)
    ensures |x| >= 2
  {
    hide TreeVisit.VisitAll, TreeVisit.Append;
    TreeVisit.VisitAllMembers(next, TreeVisit.Append([start], hops), n, x);
    var c :| c in TreeVisit.Append([start], hops) && TreeVisit.Extends(next, c, n, x);
    TreeVisit.AppendMembers([start], hops, c);
  }

  lemma VisitStartsShort(next: Chain -> seq<Hop>, start: Hop, n: nat)
    ensures var all := TreeVisit.Visit(next, [start], n);
            all != [] && all[0] == [start] && forall i :: 1 <= i < |all| ==> |all[i]| >= 2
  {
    hide TreeVisit.VisitAll, TreeVisit.Append;
    var all := TreeVisit.Visit(next, [start], n);
    if n > 0 {
      var rest := TreeVisit.VisitAll(next, TreeVisit.Append([start], next([start])), n - 1);
      forall i | 1 <= i < |all| ensures |all[i]| >= 2 {
        assert all[i] == rest[i - 1];
        LongerBelow(next, start, next([start]), n - 1, all[i]);
      }
    }
  }

  lemma OnlyStartIsShort(e: Estate, start: Hop, maxLength: int)
    ensures var all := AllChains(e, start, maxLength);
            all != [] && all[0] == [start] && forall i :: 1 <= i < |all| ==> |all[i]| >= 2
  {
    hide Next, TreeVisit.Visit;
    VisitStartsShort(Next(e), start, Steps(maxLength, 1));
  }

  /** Every chain is reported once if and only if the search never meets a self-loop it could also step in. */
  lemma EachChainOnce(e: Estate, start: Hop, maxLength: int)
    requires FindingsListedOnce(e)
    ensures NoRepeats(Reported(AllChains(e, start, maxLength))) <==> !LoopsInPlace(e, start, maxLength)
  {
    hide Next, TreeVisit.Visit, TreeVisit.Grows, LegalInPlace, LegalChain, Reported, FindingsListedOnce;
    var all, n := AllChains(e, start, maxLength), Steps(maxLength, 1);
    OnlyStartIsShort(e, start, maxLength);
    ReportedDropsOnlyFirst(all);
    assert all == [all[0]] + all[1..];
    assert NoRepeats(all) <==> NoRepeats(all[1..]) by { FirstIsNew(all); }
    TreeVisit.VisitOnceExactly(Next(e), [start], n);
    if LoopsInPlace(e, start, maxLength) {
      var c, h :| LegalChain(e, start, c) && |c| < maxLength && LegalInPlace(e, c, h);
      LegalIsNonEmpty(e, start, c);
      GrowsMeansLegal(e, start, c);
      NextOnce(e, c);
      assert !NoRepeats(Next(e)(c));
    } else {
      forall c | TreeVisit.Grows(Next(e), [start], c) && |c| < 1 + n ensures NoRepeats(Next(e)(c)) {
        GrowsMeansLegal(e, start, c);
        LegalIsNonEmpty(e, start, c);
        NextOnce(e, c);
      }
    }
  }

  lemma LegalIsNonEmpty(e: Estate, start: Hop, c: Chain)
    requires LegalChain(e, start, c)
    ensures c != []
  {}

  lemma FirstIsNew(chains: seq<Chain>)
    requires chains != [] && |chains[0]| == 1 && forall i :: 1 <= i < |chains| ==> |chains[i]| >= 2
    ensures NoRepeats(chains) <==> NoRepeats(chains[1..])
  {
    if NoRepeats(chains[1..]) {
      forall i, j | 0 <= i < j < |chains| ensures chains[i] != chains[j] {
        if i > 0 { assert chains[1..][i - 1] != chains[1..][j - 1]; }
      }
    }
    if NoRepeats(chains) {
      forall i, j | 0 <= i < j < |chains[1..]| ensures chains[1..][i] != chains[1..][j] {
        assert chains[i + 1] != chains[j + 1];
      }
    }
  }

  /** Without self-loops every chain is reported once. */
  lemma NoSelfLoopsMeansOnce(e: Estate, start: Hop, maxLength: int)
    requires FindingsListedOnce(e) && forall a :: a !in ReachableFrom(e, a)
    ensures NoRepeats(Reported(AllChains(e, start, maxLength)))
  {
    hide AllChains, Reported, LegalHop, LegalChain;
    EachChainOnce(e, start, maxLength);
  }
}
