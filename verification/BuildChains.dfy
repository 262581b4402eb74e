/** Building the ranked list of attack chains of an estate: group, enumerate, score, rank, cut. */
module BuildChains {
  import opened Options
  import opened Order
  import opened Sorting
  import opened AttackChains
  import opened ChainScore

  // ----- grouping findings by asset

  /** Riskiest first, ties by identifier. */
  const FindingOrder: (Finding, Finding) -> bool :=
    (f: Finding, g: Finding) =>
      f.riskScore > g.riskScore || (f.riskScore == g.riskScore && CompareText(f.id.text, g.id.text, 0) <= 0)

  /** The findings of one asset that can be used as a step. */
  function MappedAt(t: Tables, findings: seq<Finding>, a: Asset): seq<Finding> {
    if findings == [] then []
    else
      var last := findings[|findings| - 1];
      MappedAt(t, findings[..|findings| - 1], a) +
      if last.asset == a && ProfileFor(t, last).Some? then [last] else []
  }

  /** The findings that cannot, in the order met. */
  function Unmapped(t: Tables, findings: seq<Finding>): seq<FindingId> {
    if findings == [] then []
    else
      var last := findings[|findings| - 1];
      Unmapped(t, findings[..|findings| - 1]) + if ProfileFor(t, last).None? then [last.id] else []
  }

  ghost predicate GroupsOf(t: Tables, findings: seq<Finding>, byAsset: map<Asset, seq<Finding>>) {
    forall a :: (if a in byAsset then byAsset[a] else []) == MappedAt(t, findings, a)
  }

  method Group(t: Tables, findings: seq<Finding>) returns (byAsset: map<Asset, seq<Finding>>, unmapped: seq<FindingId>)
    ensures GroupsOf(t, findings, byAsset) && unmapped == Unmapped(t, findings)
  {
    hide ProfileFor;
    byAsset, unmapped := map[], [];
    for k := 0 to |findings|
      invariant GroupsOf(t, findings[..k], byAsset) && unmapped == Unmapped(t, findings[..k])
    {
      var f := findings[k];
      assert findings[..k + 1][..k] == findings[..k];
      forall a ensures MappedAt(t, findings[..k + 1], a) == MappedAt(t, findings[..k], a)
                         + if f.asset == a && ProfileFor(t, f).Some? then [f] else [] {}
      if ProfileFor(t, f).None? {
        unmapped := unmapped + [f.id];
      } else {
        byAsset := byAsset[f.asset := (if f.asset in byAsset then byAsset[f.asset] else []) + [f]];
      }
    }
    assert findings[..|findings|] == findings;
  }

  lemma {:induction false} MappedMembers(t: Tables, findings: seq<Finding>, a: Asset)
    ensures forall f :: f in MappedAt(t, findings, a) <==> f in findings && f.asset == a && ProfileFor(t, f).Some?
    ensures NoRepeats(findings) ==> NoRepeats(MappedAt(t, findings, a))
  {
    hide ProfileFor;
    if findings != [] {
      var init, last := findings[..|findings| - 1], findings[|findings| - 1];
      MappedMembers(t, init, a);
      assert findings == init + [last];
      assert NoRepeats(findings) ==> NoRepeats(init) && last !in init;
    }
  }

  // ----- where a chain may start

  predicate CanStart(t: Tables, f: Finding) {
    var p := ProfileFor(t, f);
    p.Some? && p.value.needs - {NetworkAccess} == {}
  }

  function Starts(t: Tables, findings: seq<Finding>): seq<Finding> {
    if findings == [] then []
    else (if CanStart(t, findings[0]) then [findings[0]] else []) + Starts(t, findings[1..])
  }

  lemma {:induction false} StartsMembers(t: Tables, findings: seq<Finding>)
    ensures forall f :: f in Starts(t, findings) <==> f in findings && CanStart(t, f)
  {
    hide CanStart;
    if findings != [] {
      StartsMembers(t, findings[1..]);
      assert findings == [findings[0]] + findings[1..];
    }
  }

  /** A chain that begins with a usable finding on an entry asset and goes on legally. */
  ghost predicate IsAttackChain(e: Estate, entries: seq<Asset>, maxLength: int, c: Chain) {
    && 2 <= |c| <= maxLength
    && c[0].asset in entries && c[0].finding in FindingsAt(e, c[0].asset) && CanStart(e.tables, c[0].finding)
    && LegalChain(e, c[0], c)
  }

  // ----- everything there is to enumerate, in order

  ghost function ChainsFromStarts(e: Estate, a: Asset, starts: seq<Finding>, maxLength: int): seq<Chain> {
    if starts == [] then []
    else
      var last := starts[|starts| - 1];
      ChainsFromStarts(e, a, starts[..|starts| - 1], maxLength) + Reported(AllChains(e, Hop(a, last), maxLength))
  }

  ghost function ChainsFrom(e: Estate, entries: seq<Asset>, maxLength: int): seq<Chain> {
    if entries == [] then []
    else
      var last := entries[|entries| - 1];
      ChainsFrom(e, entries[..|entries| - 1], maxLength)
      + ChainsFromStarts(e, last, Starts(e.tables, FindingsAt(e, last)), maxLength)
  }

  lemma {:induction false} ChainsFromStartsMembers(e: Estate, a: Asset, starts: seq<Finding>, maxLength: int, c: Chain)
    ensures c in ChainsFromStarts(e, a, starts, maxLength)
       <==> 2 <= |c| <= maxLength && c[0].asset == a && c[0].finding in starts && LegalChain(e, c[0], c)
  {
    hide AllChains, Reported, LegalHop;
    if starts != [] {
      var init, last := starts[..|starts| - 1], starts[|starts| - 1];
      ChainsFromStartsMembers(e, a, init, maxLength, c);
      ReportedChainsAreLegal(e, Hop(a, last), maxLength, c);
      assert starts == init + [last];
    }
  }

  lemma {:induction false} ChainsFromMembers(e: Estate, entries: seq<Asset>, maxLength: int, c: Chain)
    ensures c in ChainsFrom(e, entries, maxLength) <==> IsAttackChain(e, entries, maxLength, c)
  {
    hide ChainsFromStarts, LegalChain, CanStart, Starts, FindingsAt;
    if entries != [] {
      var init, last := entries[..|entries| - 1], entries[|entries| - 1];
      ChainsFromMembers(e, init, maxLength, c);
      StartsMembers(e.tables, FindingsAt(e, last));
      ChainsFromStartsMembers(e, last, Starts(e.tables, FindingsAt(e, last)), maxLength, c);
      assert entries == init + [last];
    }
  }

  // ----- enumerating up to a cap

  function Bound(cap: int): nat { if cap < 0 then 0 else cap }

  function UpTo<T>(s: seq<T>, cap: int): seq<T> { if |s| <= Bound(cap) then s else s[..Bound(cap)] }

  lemma UpToPrefix<T>(s: seq<T>, all: seq<T>, cap: int)
    requires s <= all && |s| > Bound(cap)
    ensures UpTo(s, cap) == UpTo(all, cap) && |all| > Bound(cap)
  {}

  method AddUpTo(candidates0: seq<Chain>, chains: seq<Chain>, cap: int) returns (candidates: seq<Chain>, full: bool)
    requires |candidates0| <= Bound(cap)
    ensures candidates == UpTo(candidates0 + chains, cap)
    ensures full <==> |candidates0 + chains| > Bound(cap)
  {
    candidates := candidates0;
    full := false;
    var k := 0;
    while k < |chains|
      invariant 0 <= k <= |chains| && candidates == candidates0 + chains[..k] && |candidates| <= Bound(cap)
    {
      if |candidates| >= cap { full := true; return; }
      candidates := candidates + [chains[k]];
      k := k + 1;
    }
    assert chains[..k] == chains;
  }

  lemma {:induction false} StartsPrefix(e: Estate, a: Asset, starts: seq<Finding>, k: nat, maxLength: int)
    requires k <= |starts|
    ensures ChainsFromStarts(e, a, starts[..k], maxLength) <= ChainsFromStarts(e, a, starts, maxLength)
  {
    hide AllChains, Reported;
    if k < |starts| {
      StartsPrefix(e, a, starts[..|starts| - 1], k, maxLength);
      assert starts[..|starts| - 1][..k] == starts[..k];
    } else {
      assert starts[..k] == starts;
    }
  }

  lemma {:induction false} EntriesPrefix(e: Estate, entries: seq<Asset>, k: nat, maxLength: int)
    requires k <= |entries|
    ensures ChainsFrom(e, entries[..k], maxLength) <= ChainsFrom(e, entries, maxLength)
  {
    hide ChainsFromStarts;
    if k < |entries| {
      EntriesPrefix(e, entries[..|entries| - 1], k, maxLength);
      assert entries[..|entries| - 1][..k] == entries[..k];
    } else {
      assert entries[..k] == entries;
    }
  }

  method AddFromEntry(e: Estate, a: Asset, candidates0: seq<Chain>, maxLength: int, cap: int)
    returns (candidates: seq<Chain>, full: bool)
    requires UniqueFindings(e) && |candidates0| <= Bound(cap)
    ensures var all := candidates0 + ChainsFromStarts(e, a, Starts(e.tables, FindingsAt(e, a)), maxLength);
            candidates == UpTo(all, cap) && (full <==> |all| > Bound(cap))
  {
    hide AllChains, Reported, LegalChain, CanStart, ChainsFromStarts, Starts, UniqueFindings, ProfileFor;
    var starts := Starts(e.tables, FindingsAt(e, a));
    StartsMembers(e.tables, FindingsAt(e, a));
    candidates, full := candidates0, false;
    NoStarts(e, a, maxLength);
    assert starts[..0] == [];
    for k := 0 to |starts|
      invariant candidates == candidates0 + ChainsFromStarts(e, a, starts[..k], maxLength) && |candidates| <= Bound(cap)
      invariant !full
    {
      var start := starts[k];
      assert start in starts;
      assert ProfileFor(e.tables, start).Some? by { StartHasProfile(e.tables, start); }
      var chains := Extend(e, start, a, maxLength);
      NextStart(e, a, starts, k, maxLength);
      ghost var before := candidates;
      candidates, full := AddUpTo(candidates, chains, cap);
      StartsPrefix(e, a, starts, k + 1, maxLength);
      assert before + chains == candidates0 + ChainsFromStarts(e, a, starts[..k + 1], maxLength);
      if full {
        UpToPrefix(before + chains, candidates0 + ChainsFromStarts(e, a, starts, maxLength), cap);
        return;
      }
    }
    assert starts[..|starts|] == starts;
  }

  lemma NoStarts(e: Estate, a: Asset, maxLength: int)
    ensures ChainsFromStarts(e, a, [], maxLength) == []
  {}

  lemma NextStart(e: Estate, a: Asset, starts: seq<Finding>, k: nat, maxLength: int)
    requires k < |starts|
    ensures ChainsFromStarts(e, a, starts[..k + 1], maxLength)
         == ChainsFromStarts(e, a, starts[..k], maxLength) + Reported(AllChains(e, Hop(a, starts[k]), maxLength))
  {
    hide AllChains, Reported;
    assert starts[..k + 1][..k] == starts[..k];
  }

  lemma StartHasProfile(t: Tables, f: Finding)
    requires CanStart(t, f)
    ensures ProfileFor(t, f).Some?
  {}

  /** The nested loops with their break flags: the first chains in order, up to the cap. */
  method Enumerate(e: Estate, entries: seq<Asset>, maxLength: int, cap: int) returns (candidates: seq<Chain>, full: bool)
    requires UniqueFindings(e)
    ensures candidates == UpTo(ChainsFrom(e, entries, maxLength), cap)
    ensures full <==> |ChainsFrom(e, entries, maxLength)| > Bound(cap)
  {
    hide ChainsFromStarts, Starts, UniqueFindings;
    candidates, full := [], false;
    assert entries[..0] == [];
    for k := 0 to |entries|
      invariant candidates == ChainsFrom(e, entries[..k], maxLength) && |candidates| <= Bound(cap)
      invariant !full
    {
      assert entries[..k + 1][..k] == entries[..k];
      ghost var before := candidates;
      candidates, full := AddFromEntry(e, entries[k], candidates, maxLength, cap);
      EntriesPrefix(e, entries, k + 1, maxLength);
      if full {
        UpToPrefix(ChainsFrom(e, entries[..k + 1], maxLength), ChainsFrom(e, entries, maxLength), cap);
        return;
      }
    }
    assert entries[..|entries|] == entries;
  }

  // ----- scoring, ranking, cutting

  datatype Ranked = Ranked(steps: Chain, score: Score)

  function Reliabilities(t: Tables, c: Chain): seq<nat> {
    if c == [] then []
    else
      var p := ProfileFor(t, c[|c| - 1].finding);
      Reliabilities(t, c[..|c| - 1]) + [if p.None? then 0 else p.value.reliability]
  }

  function Granted(e: Estate, c: Chain): set<Capability> {
    if c == [] then {} else Granted(e, c[..|c| - 1]) + GrantsOf(e, c[|c| - 1].finding)
  }

  function CriticalityOf(criticality: map<Asset, string>, a: Asset): string {
    if a in criticality then criticality[a] else "medium"
  }

  function Rank(e: Estate, criticality: map<Asset, string>, c: Chain): Ranked {
    Ranked(c, ScoreOf(Reliabilities(e.tables, c), Granted(e, c),
                      if c == [] then "medium" else CriticalityOf(criticality, c[|c| - 1].asset)))
  }

  function RankAll(e: Estate, criticality: map<Asset, string>, cs: seq<Chain>): seq<Ranked> {
    if cs == [] then [] else [Rank(e, criticality, cs[0])] + RankAll(e, criticality, cs[1..])
  }

  function FindingTexts(c: Chain): seq<string> {
    if c == [] then [] else FindingTexts(c[..|c| - 1]) + [c[|c| - 1].finding.id.text]
  }

  /** Highest score first, then longest, then by the findings of the steps. */
  const ChainOrder: (Ranked, Ranked) -> bool :=
    (x: Ranked, y: Ranked) =>
      x.score.score > y.score.score
      || (x.score.score == y.score.score
          && (|x.steps| > |y.steps|
              || (|x.steps| == |y.steps| && CompareTexts(FindingTexts(x.steps), FindingTexts(y.steps)) <= 0)))

  lemma ChainOrderIsTotal()
    ensures Total(ChainOrder) && Transitive(ChainOrder)
  {
    forall x, y ensures ChainOrder(x, y) || ChainOrder(y, x) {
      TextsAntisymmetric(FindingTexts(x.steps), FindingTexts(y.steps));
    }
    forall x, y, z | ChainOrder(x, y) && ChainOrder(y, z) ensures ChainOrder(x, z) {
      if x.score.score == y.score.score == z.score.score && |x.steps| == |y.steps| == |z.steps| {
        TextsTransitive(FindingTexts(x.steps), FindingTexts(y.steps), FindingTexts(z.steps));
      }
    }
  }

  lemma {:induction false} ReliabilitiesBounded(t: Tables, c: Chain)
    ensures |Reliabilities(t, c)| == |c| && forall k :: 0 <= k < |c| ==> Reliabilities(t, c)[k] <= 99
  {
    if c != [] { ReliabilitiesBounded(t, c[..|c| - 1]); }
  }

  lemma RankIsBounded(e: Estate, criticality: map<Asset, string>, c: Chain)
    requires c != []
    ensures var s := Rank(e, criticality, c).score; 1 <= s.likelihood <= 99 && s.impact <= 100 && s.score <= 100
  {
    hide ScoreOf;
    ReliabilitiesBounded(e.tables, c);
    ScoresAreBounded(Reliabilities(e.tables, c), Granted(e, c), CriticalityOf(criticality, c[|c| - 1].asset));
  }

  lemma {:induction false} RankAllMembers(e: Estate, criticality: map<Asset, string>, cs: seq<Chain>)
    ensures |RankAll(e, criticality, cs)| == |cs|
    ensures forall x :: x in RankAll(e, criticality, cs) <==> x.steps in cs && x == Rank(e, criticality, x.steps)
  {
    hide ScoreOf, Reliabilities, Granted;
    if cs != [] {
      RankAllMembers(e, criticality, cs[1..]);
      assert cs == [cs[0]] + cs[1..];
    }
  }

  /** Python's s[:n], which counts from the end when n is negative. */
  function Slice<T>(s: seq<T>, n: int): seq<T> {
    if n >= 0 then UpTo(s, n) else if |s| + n < 0 then [] else s[..|s| + n]
  }

  datatype ChainResult = ChainResult(chains: seq<Ranked>, truncated: bool, unmapped: seq<FindingId>)

  ghost predicate UniqueIds(findings: seq<Finding>) {
    forall f, g :: f in findings && g in findings && f.id == g.id ==> f == g
  }

  ghost predicate Lists(chains: seq<Ranked>, c: Chain) { exists x :: x in chains && x.steps == c }

  const IdOrder: (FindingId, FindingId) -> bool := (i: FindingId, j: FindingId) => CompareText(i.text, j.text, 0) <= 0

  /** The estate a list of findings and the graph's edges describe. */
  ghost predicate EstateOf(t: Tables, findings: seq<Finding>, reachable: map<Asset, seq<Asset>>, e: Estate) {
    e.tables == t && e.reachable == reachable && GroupsOf(t, Sort(findings, FindingOrder), e.byAsset)
  }

  lemma EstateFindings(t: Tables, findings: seq<Finding>, reachable: map<Asset, seq<Asset>>, e: Estate)
    requires EstateOf(t, findings, reachable, e)
    ensures forall a, f :: f in FindingsAt(e, a) <==> f in findings && f.asset == a && ProfileFor(t, f).Some?
    ensures UniqueIds(findings) ==> UniqueFindings(e)
    ensures NoRepeats(findings) ==> FindingsListedOnce(e)
  {
    hide EstateOf, ProfileFor, FindingsAt, NoRepeats, UniqueIds, UniqueFindings, FindingsListedOnce;
    forall a, f ensures f in FindingsAt(e, a) <==> f in findings && f.asset == a && ProfileFor(t, f).Some? {
      FindingsOfAsset(t, findings, reachable, e, a);
    }
    if UniqueIds(findings) { UniqueInEstate(t, findings, e); }
    if NoRepeats(findings) { ListedOnceInEstate(t, findings, reachable, e); }
  }

  lemma FindingsOfAsset(t: Tables, findings: seq<Finding>, reachable: map<Asset, seq<Asset>>, e: Estate, a: Asset)
    requires EstateOf(t, findings, reachable, e)
    ensures forall f :: f in FindingsAt(e, a) <==> f in findings && f.asset == a && ProfileFor(t, f).Some?
    ensures NoRepeats(findings) ==> NoRepeats(FindingsAt(e, a))
  {
    hide ProfileFor, Sort, FindingOrder, NoRepeats, MappedAt;
    SortKeeps(findings, FindingOrder);
    MappedMembers(t, Sort(findings, FindingOrder), a);
    assert FindingsAt(e, a) == MappedAt(t, Sort(findings, FindingOrder), a);
  }

  lemma UniqueInEstate(t: Tables, findings: seq<Finding>, e: Estate)
    requires UniqueIds(findings)
    requires forall a, f :: f in FindingsAt(e, a) <==> f in findings && f.asset == a && ProfileFor(t, f).Some?
    ensures UniqueFindings(e)
  {
    hide ProfileFor, FindingsAt;
  }

  lemma ListedOnceInEstate(t: Tables, findings: seq<Finding>, reachable: map<Asset, seq<Asset>>, e: Estate)
    requires EstateOf(t, findings, reachable, e) && NoRepeats(findings)
    ensures FindingsListedOnce(e)
  {
    hide EstateOf, ProfileFor, FindingsAt, NoRepeats;
    forall a ensures NoRepeats(FindingsAt(e, a)) { FindingsOfAsset(t, findings, reachable, e, a); }
  }

  /**
   The ranked chains of an estate. What is returned is the head of the ranking of the first chains
   enumerated; truncated says whether anything was left out, and capped whether by the enumeration.
   */
  method Build(t: Tables, findings: seq<Finding>, reachable: map<Asset, seq<Asset>>, entryAssets: seq<Asset>,
               criticality: map<Asset, string>, maxLength: int, maxChains: int, maxEnumerated: int)
    returns (r: ChainResult, ghost e: Estate, ghost scored: seq<Ranked>, ghost capped: bool)
    requires UniqueIds(findings)
    ensures EstateOf(t, findings, reachable, e)
    ensures r.chains == Slice(scored, maxChains) && SortedBy(scored, ChainOrder)
    ensures forall i, j :: 0 <= i < j < |scored| ==> RanksAtOrAbove(scored[i], scored[j])
    ensures forall x, y :: x in r.chains && y in scored && y !in r.chains ==> RanksAtOrAbove(x, y)
    ensures forall x :: x in scored ==>
              IsAttackChain(e, entryAssets, maxLength, x.steps) && x == Rank(e, criticality, x.steps)
              && 1 <= x.score.likelihood <= 99 && x.score.impact <= 100 && x.score.score <= 100
    ensures r.truncated <==> capped || |scored| > maxChains
    ensures capped <==> |ChainsFrom(e, Sort(Distinct(entryAssets), AssetOrder), maxLength)| > Bound(maxEnumerated)
    ensures capped ==> |scored| == Bound(maxEnumerated)
    ensures !capped ==> forall c :: Lists(scored, c) <==> IsAttackChain(e, entryAssets, maxLength, c)
    ensures !r.truncated ==> r.chains == scored && forall c :: Lists(r.chains, c) <==> IsAttackChain(e, entryAssets, maxLength, c)
    ensures r.unmapped == Sort(Unmapped(t, Sort(findings, FindingOrder)), IdOrder)
    ensures forall i :: i in r.unmapped <==> exists f :: f in findings && ProfileFor(t, f).None? && f.id == i
    ensures forall i, j :: 0 <= i < j < |r.unmapped| ==> !TextBefore(r.unmapped[j].text, r.unmapped[i].text)
  {
    hide Sort, ChainOrder, FindingOrder, IdOrder, IsAttackChain, ChainsFrom, GroupsOf, Unmapped, UniqueIds, UniqueFindings,
      FindingsListedOnce, ScoreOf, Rank, SortedBy, FindingsAt, ProfileFor, RanksAtOrAbove, TextBefore;
    var byAsset, unmapped := Group(t, Sort(findings, FindingOrder));
    var estate := Estate(t, byAsset, reachable);
    e := estate;
    EstateFindings(t, findings, reachable, e);
    var entries := Sort(Distinct(entryAssets), AssetOrder);
    DistinctKeeps(entryAssets);
    SortKeeps(Distinct(entryAssets), AssetOrder);
    var candidates, full := Enumerate(estate, entries, maxLength, maxEnumerated);
    var unsorted := RankAll(estate, criticality, candidates);
    var all := Sort(unsorted, ChainOrder);
    scored := all;
    RankAllMembers(e, criticality, candidates);
    SortKeeps(unsorted, ChainOrder);
    ChainOrderIsTotal();
    SortSorts(unsorted, ChainOrder);
    SameEntries(e, entries, entryAssets, maxLength);
    forall c ensures c in ChainsFrom(e, entries, maxLength) <==> IsAttackChain(e, entryAssets, maxLength, c) {
      ChainsFromMembers(e, entries, maxLength, c);
    }
    forall x | x in scored
      ensures IsAttackChain(e, entryAssets, maxLength, x.steps) && x == Rank(e, criticality, x.steps)
      ensures 1 <= x.score.likelihood <= 99 && x.score.impact <= 100 && x.score.score <= 100
    {
      assert x.steps in ChainsFrom(e, entries, maxLength);
      assert x.steps != [] by { AttackChainIsLong(e, entryAssets, maxLength, x.steps); }
      RankIsBounded(e, criticality, x.steps);
    }
    forall c ensures Lists(scored, c) <==> c in candidates { RankKeepsSteps(e, criticality, c); }
    capped := full;
    SortedMeansRanked(all);
    KeptRankAbove(all, maxChains);
    UnmappedSorted(t, findings);
    r := ChainResult(Slice(all, maxChains), full || |all| > maxChains, Sort(unmapped, IdOrder));
  }

  /** The higher score ranks first, then the longer chain, then the one whose findings come first as text. */
  ghost predicate RanksAtOrAbove(x: Ranked, y: Ranked) {
    || x.score.score > y.score.score
    || (x.score.score == y.score.score && |x.steps| > |y.steps|)
    || (x.score.score == y.score.score && |x.steps| == |y.steps| && !StepsBefore(y.steps, x.steps))
  }

  /** At the first step whose findings differ, that of c comes first as text. */
  ghost predicate StepsBefore(c: Chain, d: Chain) {
    exists k :: 0 <= k < |c| && k < |d| && SameFindings(c, d, k) && TextBefore(c[k].finding.id.text, d[k].finding.id.text)
  }

  ghost predicate SameFindings(c: Chain, d: Chain, k: nat)
    requires k <= |c| && k <= |d|
  {
    forall m :: 0 <= m < k ==> c[m].finding.id.text == d[m].finding.id.text
  }

  lemma {:induction false} TextsOf(c: Chain)
    ensures |FindingTexts(c)| == |c| && forall k :: 0 <= k < |c| ==> FindingTexts(c)[k] == c[k].finding.id.text
  {
    if c != [] {
      TextsOf(c[..|c| - 1]);
      assert forall k :: 0 <= k < |c| - 1 ==> c[..|c| - 1][k] == c[k];
    }
  }

  /** Tuples of texts of one length compare by the first text that differs. */
  lemma {:induction false} FirstDifference(x: seq<string>, y: seq<string>, k: nat)
    requires |x| == |y| && k < |x| && (forall m :: 0 <= m < k ==> x[m] == y[m]) && TextBefore(x[k], y[k])
    ensures CompareTexts(x, y) == -1
  {
    hide TextBefore, CompareText;
    TextOrder(x[0], y[0]);
    if k > 0 { FirstDifference(x[1..], y[1..], k - 1); }
  }

  lemma OrderMeansRank(x: Ranked, y: Ranked)
    requires ChainOrder(x, y)
    ensures RanksAtOrAbove(x, y)
  {
    hide FindingTexts, CompareTexts, TextBefore;
    if x.score.score == y.score.score && |x.steps| == |y.steps| && StepsBefore(y.steps, x.steps) {
      TextsOf(x.steps);
      TextsOf(y.steps);
      var k :| 0 <= k < |y.steps| && k < |x.steps| && SameFindings(y.steps, x.steps, k)
               && TextBefore(y.steps[k].finding.id.text, x.steps[k].finding.id.text);
      FirstDifference(FindingTexts(y.steps), FindingTexts(x.steps), k);
      TextsAntisymmetric(FindingTexts(y.steps), FindingTexts(x.steps));
    }
  }

  lemma SortedMeansRanked(scored: seq<Ranked>)
    requires SortedBy(scored, ChainOrder)
    ensures forall i, j :: 0 <= i < j < |scored| ==> RanksAtOrAbove(scored[i], scored[j])
  {
    hide RanksAtOrAbove, ChainOrder;
    forall i, j | 0 <= i < j < |scored| ensures RanksAtOrAbove(scored[i], scored[j]) { OrderMeansRank(scored[i], scored[j]); }
  }

  /** What is kept ranks at or above what is not. */
  lemma KeptRankAbove(scored: seq<Ranked>, maxChains: int)
    requires forall i, j :: 0 <= i < j < |scored| ==> RanksAtOrAbove(scored[i], scored[j])
    ensures forall x, y :: x in Slice(scored, maxChains) && y in scored && y !in Slice(scored, maxChains) ==>
              RanksAtOrAbove(x, y)
  {
    hide RanksAtOrAbove;
    var kept := Slice(scored, maxChains);
    assert kept <= scored;
    forall x, y | x in kept && y in scored && y !in kept ensures RanksAtOrAbove(x, y) {
      var i :| 0 <= i < |kept| && kept[i] == x;
      var j :| 0 <= j < |scored| && scored[j] == y;
    }
  }

  lemma {:induction false} UnmappedMembers(t: Tables, findings: seq<Finding>)
    ensures forall i :: i in Unmapped(t, findings) <==> exists f :: f in findings && ProfileFor(t, f).None? && f.id == i
  {
    hide ProfileFor;
    if findings != [] {
      UnmappedMembers(t, findings[..|findings| - 1]);
      assert findings == findings[..|findings| - 1] + [findings[|findings| - 1]];
    }
  }

  lemma UnmappedSorted(t: Tables, findings: seq<Finding>)
    ensures var ids := Sort(Unmapped(t, Sort(findings, FindingOrder)), IdOrder);
            && (forall i :: i in ids <==> exists f :: f in findings && ProfileFor(t, f).None? && f.id == i)
            && forall i, j :: 0 <= i < j < |ids| ==> !TextBefore(ids[j].text, ids[i].text)
  {
    hide Sort, FindingOrder, ProfileFor, TextBefore, CompareText;
    var sorted := Sort(findings, FindingOrder);
    SortKeeps(findings, FindingOrder);
    UnmappedMembers(t, sorted);
    hide Unmapped;
    SortKeeps(Unmapped(t, sorted), IdOrder);
    forall x: FindingId, y: FindingId ensures (IdOrder(x, y) || IdOrder(y, x)) && (IdOrder(x, y) ==> !TextBefore(y.text, x.text)) {
      TextOrder(x.text, y.text);
      TextOrder(y.text, x.text);
    }
    forall x: FindingId, y: FindingId, z: FindingId | IdOrder(x, y) && IdOrder(y, z) ensures IdOrder(x, z) {
      TextTransitive(x.text, y.text, z.text, 0);
    }
    SortSorts(Unmapped(t, sorted), IdOrder);
  }

  lemma RankKeepsSteps(e: Estate, criticality: map<Asset, string>, c: Chain)
    ensures Rank(e, criticality, c).steps == c
  {}

  lemma AttackChainIsLong(e: Estate, entries: seq<Asset>, maxLength: int, c: Chain)
    requires IsAttackChain(e, entries, maxLength, c)
    ensures |c| >= 2
  {}

  lemma SameEntries(e: Estate, xs: seq<Asset>, ys: seq<Asset>, maxLength: int)
    requires forall a :: a in xs <==> a in ys
    ensures forall c :: IsAttackChain(e, xs, maxLength, c) <==> IsAttackChain(e, ys, maxLength, c)
  {
    hide LegalChain, CanStart, FindingsAt;
  }
}
