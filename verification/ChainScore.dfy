/** The score of a chain: likelihood over all its steps, impact of what it ends up holding. */
module ChainScore {
  import opened AttackChains
  import opened Order

  // ----- rounding to the nearest integer, ties to even

  /** round(n / d). */
  function Round(n: nat, d: nat): nat
    requires d > 0
  {
    var q, r := n / d, n % d;
    if 2 * r < d then q else if 2 * r > d then q + 1 else if q % 2 == 0 then q else q + 1
  }

  lemma RoundIsNearest(n: nat, d: nat)
    requires d > 0
    ensures var k := Round(n, d);
            && (2 * k - 1) * d <= 2 * n <= (2 * k + 1) * d
            && (2 * n == (2 * k - 1) * d || 2 * n == (2 * k + 1) * d ==> k % 2 == 0)
  {
    var q, r := n / d, n % d;
    var qd := q * d;
    assert n == qd + r;
    if Round(n, d) == q {
      OddMultiples(q, d, qd);
    } else {
      OddMultiples(q + 1, d, qd + d) by { assert (q + 1) * d == q * d + d; }
    }
  }

  lemma OddMultiples(k: int, d: int, kd: int)
    requires kd == k * d
    ensures (2 * k - 1) * d == 2 * kd - d && (2 * k + 1) * d == 2 * kd + d
  {}

  lemma Scale(x: int, y: int, m: int)
    requires m > 0
    ensures x <= y <==> x * m <= y * m
  {
    if x < y { assert (y - x) * m > 0; }
    if y < x { assert (x - y) * m > 0; }
  }

  lemma Regroup(j: int, b: int, d: int)
    ensures (j * b) * d == j * (b * d) && (j * d) * b == j * (b * d)
  {}

  /** The bounds of two roundings in the wrong order meet in one tie. */
  lemma MeetInTie(a: nat, b: nat, c: nat, d: nat, j: int, m: int)
    requires b > 0 && d > 0 && a * d <= c * b
    requires j * b <= 2 * a && 2 * c <= m * d && j >= m
    ensures j == m && j * b == 2 * a && 2 * c == m * d
  {
    var bd := b * d;
    assert bd > 0;
    Regroup(j, b, d);
    Regroup(m, b, d);
    Regroup(2, a, d);
    Regroup(2, c, b);
    Scale(j * b, 2 * a, d);
    Scale(2 * c, m * d, b);
    Scale(j, m, bd);
    Scale(2 * a, j * b, d);
    Scale(m * d, 2 * c, b);
  }

  /** A smaller ratio never rounds to more. */
  lemma RoundMonotone(a: nat, b: nat, c: nat, d: nat)
    requires b > 0 && d > 0 && a * d <= c * b
    ensures Round(a, b) <= Round(c, d)
  {
    hide Round;
    var k, l := Round(a, b), Round(c, d);
    RoundIsNearest(a, b);
    RoundIsNearest(c, d);
    if k > l { MeetInTie(a, b, c, d, 2 * k - 1, 2 * l + 1); }
  }

  // ----- scores

  function Hundreds(n: nat): (p: nat)
    ensures p > 0
  {
    if n == 0 then 1 else 100 * Hundreds(n - 1)
  }

  /** The product of the steps' reliabilities. */
  function Product(rs: seq<nat>): nat {
    if rs == [] then 1 else Product(rs[..|rs| - 1]) * rs[|rs| - 1]
  }

  /** max(1, round(100 * product of r / 100)). */
  function Likelihood(rs: seq<nat>): nat
    requires rs != []
  {
    var r := Round(Product(rs), Hundreds(|rs| - 1));
    if r < 1 then 1 else r
  }

  function Weight(c: Capability): nat {
    match c
    case CodeExecution => 90
    case PrivilegeEscalation => 85
    case CredentialAccess => 80
    case LateralMovement => 75
    case DataAccess => 70
    case NetworkAccess => 30
  }

  function WeightIf(s: set<Capability>, c: Capability): nat { if c in s then Weight(c) else 0 }

  /** The weight of the worst capability in a set. */
  function Worst(s: set<Capability>): nat {
    Max(WeightIf(s, CodeExecution), Max(WeightIf(s, PrivilegeEscalation), Max(WeightIf(s, CredentialAccess),
      Max(WeightIf(s, LateralMovement), Max(WeightIf(s, DataAccess), WeightIf(s, NetworkAccess))))))
  }

  function CriticalityBonus(criticality: string): int {
    if criticality == "critical" then 10 else if criticality == "high" then 5 else if criticality == "low" then -10 else 0
  }

  function Clamp(n: int): nat { if n < 0 then 0 else if n > 100 then 100 else n }

  function Impact(granted: set<Capability>, criticality: string): nat {
    Clamp(Worst(granted) + CriticalityBonus(criticality))
  }

  function Penalty(steps: nat): int
    requires steps > 0
  {
    if (steps - 1) * 5 < 15 then (steps - 1) * 5 else 15
  }

  datatype Score = Score(likelihood: nat, impact: nat, score: nat)

  /** Of the reliabilities of the steps, all they grant, and the asset the chain ends on. */
  function ScoreOf(rs: seq<nat>, granted: set<Capability>, criticality: string): Score {
    if rs == [] then Score(0, 0, 0)
    else
      var l, i := Likelihood(rs), Impact(granted, criticality);
      Score(l, i, Clamp(Round(4 * l + 6 * i, 10) - Penalty(|rs|)))
  }

  lemma Grow(x: nat, y: nat, m: nat)
    requires x <= y
    ensures x * m <= y * m && m * x <= m * y
  {}

  lemma StepBound(p: nat, h: nat, r: nat)
    requires p <= h && r <= 99
    ensures p * r <= 99 * h <= 100 * h
  {
    Grow(p, h, r);
    Grow(r, 99, h);
  }

  lemma {:induction false} ProductBound(rs: seq<nat>)
    requires forall k :: 0 <= k < |rs| ==> rs[k] <= 99
    ensures Product(rs) <= Hundreds(|rs|)
    ensures rs != [] ==> Product(rs) <= 99 * Hundreds(|rs| - 1)
  {
    if rs != [] {
      ProductBound(rs[..|rs| - 1]);
      StepBound(Product(rs[..|rs| - 1]), Hundreds(|rs| - 1), rs[|rs| - 1]);
    }
  }

  lemma RoundOfWhole(n: nat, d: nat)
    requires d > 0
    ensures Round(n * d, d) == n
  {
    hide Round;
    var k: int := Round(n * d, d);
    RoundIsNearest(n * d, d);
    assert 2 * (n * d) == (2 * n) * d;
    Scale(2 * k - 1, 2 * n, d);
    Scale(2 * n, 2 * k + 1, d);
  }

  /** With reliabilities up to 99 the likelihood of a chain is from 1 to 99, and its score from 0 to 100. */
  lemma ScoresAreBounded(rs: seq<nat>, granted: set<Capability>, criticality: string)
    requires rs != [] && forall k :: 0 <= k < |rs| ==> rs[k] <= 99
    ensures var s := ScoreOf(rs, granted, criticality);
            1 <= s.likelihood <= 99 && s.impact <= 100 && s.score <= 100
  {
    hide Round, Product, Hundreds;
    ProductBound(rs);
    var h := Hundreds(|rs| - 1);
    RoundOfWhole(99, h);
    RoundMonotone(Product(rs), h, 99 * h, h) by { Grow(Product(rs), 99 * h, h); }
  }

  /** One more step never makes a chain more likely. */
  lemma LongerIsLessLikely(rs: seq<nat>, r: nat)
    requires rs != [] && r <= 100
    ensures Likelihood(rs + [r]) <= Likelihood(rs)
  {
    hide Round, Product;
    var p, h := Product(rs), Hundreds(|rs| - 1);
    ProductStep(rs, r);
    assert Hundreds(|rs|) == 100 * h;
    Dilute(p, r, h);
    RoundMonotone(p * r, 100 * h, p, h);
  }

  lemma Dilute(p: nat, r: nat, h: nat)
    requires r <= 100
    ensures (p * r) * h <= p * (100 * h)
  {
    var ph := p * h;
    assert (p * r) * h == r * ph;
    assert p * (100 * h) == 100 * ph;
    Grow(r, 100, ph);
  }

  lemma ProductStep(rs: seq<nat>, r: nat)
    ensures Product(rs + [r]) == Product(rs) * r
  {
    assert (rs + [r])[..|rs|] == rs;
  }

  // ----- what the numbers are

  /** The likelihood is the product of the reliabilities in percent, to the nearest whole, and at least 1. */
  lemma LikelihoodIs(rs: seq<nat>)
    requires rs != []
    ensures var l, scale := Likelihood(rs), Hundreds(|rs| - 1);
            l >= 1 && (l > 1 ==> (2 * l - 1) * scale <= 2 * Product(rs)) && 2 * Product(rs) <= (2 * l + 1) * scale
  {
    hide Round, Product, Hundreds;
    var r, scale := Round(Product(rs), Hundreds(|rs| - 1)), Hundreds(|rs| - 1);
    RoundIsNearest(Product(rs), scale);
    if r < 1 { Grow(2 * r + 1, 3, scale); }
  }

  /** One step is as likely as it is reliable. */
  lemma SoleStep(r: nat)
    requires r >= 1
    ensures Likelihood([r]) == r
  {
    hide Round;
    assert [r][..0] == [];
    assert Product([r]) == r * 1;
    RoundOfWhole(r, 1);
  }

  lemma {:induction false} HundredsAre(n: nat)
    ensures n > 0 ==> Hundreds(n) == 100 * Hundreds(n - 1)
    ensures Hundreds(0) == 1
  {}

  /** The worst granted capability counts, moved by the criticality of the asset and kept from 0 to 100. */
  lemma ImpactIs(granted: set<Capability>, criticality: string)
    ensures forall c :: c in granted ==> Worst(granted) >= Weight(c)
    ensures granted == {} ==> Worst(granted) == 0
    ensures granted != {} ==> exists c :: c in granted && Worst(granted) == Weight(c)
    ensures Impact(granted, criticality) ==
              Clamp(Worst(granted) + match criticality case "critical" => 10 case "high" => 5 case "low" => -10 case _ => 0)
  {
    if granted != {} {
      var c :| c in granted;
      assert c.NetworkAccess? || c.CodeExecution? || c.CredentialAccess? || c.DataAccess?
          || c.PrivilegeEscalation? || c.LateralMovement?;
    }
  }

  /** Code execution is worst, then privileges, credentials, movement and data; mere network access counts least. */
  lemma WeightsAreRanked()
    ensures Weight(CodeExecution) > Weight(PrivilegeEscalation) > Weight(CredentialAccess) > Weight(LateralMovement)
          > Weight(DataAccess) > Weight(NetworkAccess) > 0
  {}

  /** Two fifths likelihood and three fifths impact, to the nearest whole, less 5 for each step after the first, up to 15. */
  lemma ScoreIs(rs: seq<nat>, granted: set<Capability>, criticality: string)
    requires rs != []
    ensures var s := ScoreOf(rs, granted, criticality);
            var penalty := if |rs| >= 4 then 15 else 5 * (|rs| - 1);
            exists k: nat :: Weighs(k, s.likelihood, s.impact) && s.score == Clamp(k - penalty)
  {
    hide Round, Likelihood, Impact;
    var l, i := Likelihood(rs), Impact(granted, criticality);
    RoundIsNearest(4 * l + 6 * i, 10);
    var k := Round(4 * l + 6 * i, 10);
    assert Weighs(k, l, i);
    assert ScoreOf(rs, granted, criticality).score == Clamp(k - Penalty(|rs|));
  }

  /** k is a whole number nearest to two fifths of l and three fifths of i, the even one of two. */
  predicate Weighs(k: nat, l: nat, i: nat) {
    var off := 10 * k - (4 * l + 6 * i);
    -5 <= off <= 5 && (off == 5 || off == -5 ==> k % 2 == 0)
  }

  /** With as many steps, more likelihood and more impact never make a lower score; with more steps alone, never a higher. */
  lemma ScoreGrows(l: nat, i: nat, m: nat, j: nat, n: nat, k: nat)
    requires l <= m && i <= j && 0 < n <= k
    ensures Clamp(Round(4 * l + 6 * i, 10) - Penalty(n)) <= Clamp(Round(4 * m + 6 * j, 10) - Penalty(n))
    ensures Clamp(Round(4 * l + 6 * i, 10) - Penalty(k)) <= Clamp(Round(4 * l + 6 * i, 10) - Penalty(n))
  {
    hide Round;
    RoundMonotone(4 * l + 6 * i, 10, 4 * m + 6 * j, 10);
  }

  /** More granted capabilities never make the impact smaller. */
  lemma ImpactGrows(s: set<Capability>, t: set<Capability>, criticality: string)
    requires s <= t
    ensures Impact(s, criticality) <= Impact(t, criticality)
  {}
}
