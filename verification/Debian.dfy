/**
 Debian's comparison of one version part: the two-index loop of the source, and the token order of
 section 5.6.12 of the Debian Policy Manual that it is proved to compute.
 */
module Debian {
  import opened Text
  import opened Order

  /** Debian's collation: tilde below the end of a run, letters below everything else. */
  function Weight(c: char): int {
    if c == '~' then -1
    else if IsDigit(c) then 0
    else if IsAlpha(c) then c as int
    else c as int + 256
  }

  /** A tilde weighs less than the end of a run, letters more, and everything else more than letters. */
  lemma Collation(letter: char, other: char)
    requires IsAlpha(letter) && !IsAlnum(other) && other != '~'
    ensures Weight('~') < 0 < Weight(letter) < Weight(other)
  {}

  /** A part as a list of tokens: a run of non-digits (possibly empty) and the number after it. */
  datatype Tokens = End | Token(run: string, number: nat, rest: Tokens)

  /** The token reading of the part from position i on. */
  function Parse(s: string, i: nat): Tokens
    requires i <= |s|
    decreases |s| - i
  {
    if i == |s| then End
    else
      var r := RunEnd(s, i, NonDigit);
      var d := RunEnd(s, r, Digit);
      Token(s[i..r], Num(s, r, d), Parse(s, d))
  }

  /** The weight the collation reads at position k of a run, 0 past its end. */
  function WeightAt(run: string, k: nat): int {
    if k < |run| then Weight(run[k]) else 0
  }

  /** Runs compare weight by weight from position k on, the end of a run weighing 0. */
  function CompareRuns(x: string, y: string, k: nat): (r: int)
    ensures -1 <= r <= 1
    decreases Max(|x|, |y|) - k
  {
    if k >= |x| && k >= |y| then 0
    else Then(Sign(WeightAt(x, k) - WeightAt(y, k)), CompareRuns(x, y, k + 1))
  }

  function Run(t: Tokens): string { if t.End? then "" else t.run }

  function Number(t: Tokens): nat { if t.End? then 0 else t.number }

  function Rest(t: Tokens): Tokens { if t.End? then End else t.rest }

  /** The order of the tokens at the front of two parts. */
  function CompareFront(x: Tokens, y: Tokens): (r: int)
    ensures -1 <= r <= 1
  {
    Then(CompareRuns(Run(x), Run(y), 0), Sign(Number(x) - Number(y)))
  }

  /** Lexicographic order of token lists; a missing token reads as an empty run and the number 0. */
  function Compare(x: Tokens, y: Tokens): (r: int)
    ensures -1 <= r <= 1
  {
    if x.End? && y.End? then 0
    else Then(CompareFront(x, y), Compare(Rest(x), Rest(y)))
  }

  /** The fronts of two lists decide, or their rests do. */
  lemma CompareByFront(x: Tokens, y: Tokens)
    ensures Compare(x, y) == Then(CompareFront(x, y), Compare(Rest(x), Rest(y)))
  {}

  // ----- the order is a total preorder, and ties are equal tokens

  lemma {:induction false} RunsAntisymmetric(x: string, y: string, k: nat)
    ensures CompareRuns(x, y, k) == -CompareRuns(y, x, k)
    decreases Max(|x|, |y|) - k
  {
    if k < |x| || k < |y| { RunsAntisymmetric(x, y, k + 1); }
  }

  lemma {:induction false} RunsTransitive(x: string, y: string, z: string, k: nat)
    requires CompareRuns(x, y, k) <= 0 && CompareRuns(y, z, k) <= 0
    ensures CompareRuns(x, z, k) <= 0
    ensures CompareRuns(x, y, k) < 0 || CompareRuns(y, z, k) < 0 ==> CompareRuns(x, z, k) < 0
    decreases Max(|x|, Max(|y|, |z|)) - k
  {
    if (k < |x| || k < |y| || k < |z|) && WeightAt(x, k) == WeightAt(y, k) == WeightAt(z, k) {
      RunsTransitive(x, y, z, k + 1);
    }
  }

  /** A run that compares equal is the same run, because no two non-digits weigh the same. */
  lemma {:induction false} RunsTie(x: string, y: string, k: nat)
    requires All(x, 0, |x|, NonDigit) && All(y, 0, |y|, NonDigit)
    requires k <= |x| && k <= |y| && CompareRuns(x, y, k) == 0
    ensures |x| == |y| && forall m :: k <= m < |x| ==> x[m] == y[m]
    decreases Max(|x|, |y|) - k
  {
    if k < |x| || k < |y| {
      assert WeightAt(x, k) == WeightAt(y, k);
      assert k < |x| ==> Is(NonDigit, x[k]);
      assert k < |y| ==> Is(NonDigit, y[k]);
      RunsTie(x, y, k + 1);
    }
  }

  lemma {:induction false} RunsReflexive(x: string, k: nat)
    ensures CompareRuns(x, x, k) == 0
    decreases |x| - k
  {
    if k < |x| { RunsReflexive(x, k + 1); }
  }

  lemma {:induction false} Antisymmetric(x: Tokens, y: Tokens)
    ensures Compare(x, y) == -Compare(y, x)
    decreases x, y
  {
    if !(x.End? && y.End?) {
      RunsAntisymmetric(Run(x), Run(y), 0);
      Antisymmetric(Rest(x), Rest(y));
    }
  }

  lemma {:induction false} Transitive(x: Tokens, y: Tokens, z: Tokens)
    requires Compare(x, y) <= 0 && Compare(y, z) <= 0
    ensures Compare(x, z) <= 0
    decreases x, y, z
  {
    hide CompareRuns, Compare;
    CompareByFront(x, y);
    CompareByFront(y, z);
    CompareByFront(x, z);
    if !(x.End? && y.End? && z.End?) {
      RunsTransitive(Run(x), Run(y), Run(z), 0);
      if CompareFront(x, y) == 0 && CompareFront(y, z) == 0 {
        Transitive(Rest(x), Rest(y), Rest(z));
      }
    }
  }

  /** What parsing produces: digit-free runs, only the first of which may be empty. */
  ghost predicate WellFormed(t: Tokens) {
    t.Token? ==> All(t.run, 0, |t.run|, NonDigit) && WellFormed(t.rest)
                 && (t.rest.Token? ==> t.rest.run != "")
  }

  lemma {:induction false} ParseWellFormed(s: string, i: nat)
    requires i <= |s|
    ensures WellFormed(Parse(s, i))
    decreases |s| - i
  {
    if i < |s| {
      var r := RunEnd(s, i, NonDigit);
      var d := RunEnd(s, r, Digit);
      ParseWellFormed(s, d);
      assert d < |s| ==> Is(NonDigit, s[d]);
    }
  }

  /** Token lists that differ only in a lone empty token: the part "" and parts such as "00". */
  function Canonical(t: Tokens): Tokens {
    if t == Token("", 0, End) then End else t
  }

  lemma {:induction false} TieMeansSameTokens(x: Tokens, y: Tokens)
    requires WellFormed(x) && WellFormed(y)
    ensures Compare(x, y) == 0 <==> Canonical(x) == Canonical(y)
    decreases x, y
  {
    RunsReflexive(Run(x), 0);
    if Compare(x, y) == 0 && !(x.End? && y.End?) {
      RunsTie(Run(x), Run(y), 0);
      assert Run(x) == Run(y);
      TieMeansSameTokens(Rest(x), Rest(y));
    }
    if Canonical(x) == Canonical(y) && x.Token? && y.Token? {
      assert x == y;
      TieMeansSameTokens(Rest(x), Rest(y));
    }
  }

  // ----- the loop of the source computes the order

  lemma ParseFront(s: string, i: nat, r: nat, d: nat)
    requires i <= |s| && r == RunEnd(s, i, NonDigit) && d == RunEnd(s, r, Digit)
    ensures Run(Parse(s, i)) == s[i..r]
    ensures Number(Parse(s, i)) == Num(s, r, d)
    ensures Rest(Parse(s, i)) == Parse(s, d)
    ensures i < |s| ==> d > i
  {}

  lemma CompareUnfolds(a: string, i: nat, ra: nat, da: nat, b: string, j: nat, rb: nat, db: nat)
    requires i <= |a| && ra == RunEnd(a, i, NonDigit) && da == RunEnd(a, ra, Digit)
    requires j <= |b| && rb == RunEnd(b, j, NonDigit) && db == RunEnd(b, rb, Digit)
    ensures var front := Then(CompareRuns(a[i..ra], b[j..rb], 0), Sign(Num(a, ra, da) - Num(b, rb, db)));
            Compare(Parse(a, i), Parse(b, j)) == Then(front, Compare(Parse(a, da), Parse(b, db)))
    ensures i < |a| ==> da > i
    ensures j < |b| ==> db > j
  {
    hide CompareRuns, Parse, RunEnd, Num, Compare;
    var x, y := Parse(a, i), Parse(b, j);
    CompareByFront(x, y);
    ParseFront(a, i, ra, da);
    ParseFront(b, j, rb, db);
    assert CompareFront(x, y) == Then(CompareRuns(a[i..ra], b[j..rb], 0), Sign(Num(a, ra, da) - Num(b, rb, db)));
  }

  lemma Exhausted(a: string, b: string)
    ensures Compare(Parse(a, |a|), Parse(b, |b|)) == 0
  {}

  /** The run loop: decides by the first difference in weight, or leaves both runs behind. */
  method SkipRuns(a: string, b: string, i0: nat, j0: nat) returns (i: nat, j: nat, verdict: int)
    requires i0 <= |a| && j0 <= |b|
    ensures var r, s := RunEnd(a, i0, NonDigit), RunEnd(b, j0, NonDigit);
            verdict == CompareRuns(a[i0..r], b[j0..s], 0) && (verdict == 0 ==> i == r && j == s)
  {
    ghost var r, s := RunEnd(a, i0, NonDigit), RunEnd(b, j0, NonDigit);
    ghost var x, y := a[i0..r], b[j0..s];
    i, j := i0, j0;
    while (i < |a| && !IsDigit(a[i])) || (j < |b| && !IsDigit(b[j]))
      invariant i0 <= i <= r && j0 <= j <= s && i - i0 == j - j0
      invariant CompareRuns(x, y, 0) == CompareRuns(x, y, i - i0)
      decreases |a| - i + |b| - j
    {
      assert i < r ==> Is(NonDigit, a[i]);
      assert j < s ==> Is(NonDigit, b[j]);
      var ac := if i < |a| then Weight(a[i]) else 0;
      var bc := if j < |b| then Weight(b[j]) else 0;
      if ac != bc {
        return i, j, if ac < bc then -1 else 1;
      }
      i, j := i + 1, j + 1;
    }
    RunEndIs(a, i0, NonDigit, i);
    RunEndIs(b, j0, NonDigit, j);
    verdict := 0;
  }

  /** The digit loop: decides two numbers without leading zeros, or leaves both behind. */
  method CompareNumbers(a: string, b: string, i0: nat, j0: nat) returns (i: nat, j: nat, verdict: int)
    requires i0 <= |a| && j0 <= |b|
    requires i0 < |a| ==> a[i0] != '0'
    requires j0 < |b| ==> b[j0] != '0'
    ensures var p, q := RunEnd(a, i0, Digit), RunEnd(b, j0, Digit);
            verdict == Sign(Num(a, i0, p) - Num(b, j0, q)) && (verdict == 0 ==> i == p && j == q)
  {
    ghost var p, q := RunEnd(a, i0, Digit), RunEnd(b, j0, Digit);
    i, j := i0, j0;
    var firstDiff := 0;
    while i < |a| && IsDigit(a[i]) && j < |b| && IsDigit(b[j])
      invariant i0 <= i <= p && j0 <= j <= q && i - i0 == j - j0
      invariant firstDiff == Sign(Num(a, i0, i) - Num(b, j0, j))
    {
      if firstDiff == 0 {
        firstDiff := (if a[i] > b[j] then 1 else 0) - (if a[i] < b[j] then 1 else 0);
      }
      i, j := i + 1, j + 1;
    }
    assert i < p ==> Is(Digit, a[i]);
    assert j < q ==> Is(Digit, b[j]);
    if i < |a| && IsDigit(a[i]) {
      LongerIsLarger(a, i0, p, b, j0, q);
      return i, j, 1;
    }
    if j < |b| && IsDigit(b[j]) {
      LongerIsLarger(b, j0, q, a, i0, p);
      return i, j, -1;
    }
    verdict := firstDiff;
  }

  /** Zeros in front of a number do not change it. */
  method SkipZeros(s: string, lo: nat) returns (z: nat)
    requires lo <= |s|
    ensures lo <= z <= |s| && (z < |s| ==> s[z] != '0')
    ensures RunEnd(s, z, Digit) == RunEnd(s, lo, Digit)
    ensures Num(s, lo, RunEnd(s, lo, Digit)) == Num(s, z, RunEnd(s, z, Digit))
  {
    z := SkipRun(s, lo, Zero);
    ghost var e := RunEnd(s, z, Digit);
    forall m | lo <= m < e ensures Is(Digit, s[m]) {
      assert m < z ==> Is(Zero, s[m]);
    }
    RunEndIs(s, lo, Digit, e);
    LeadingZeros(s, lo, z, e);
  }

  /** The comparison loop of the source. Every iteration consumes the token at the front. */
  method ComparePart(a: string, b: string) returns (r: int)
    ensures r == Compare(Parse(a, 0), Parse(b, 0))
  {
    hide CompareRuns, Num, RunEnd, Parse;
    var i, j := 0, 0;
    while i < |a| || j < |b|
      invariant 0 <= i <= |a| && 0 <= j <= |b|
      invariant Compare(Parse(a, 0), Parse(b, 0)) == Compare(Parse(a, i), Parse(b, j))
      decreases |a| - i + |b| - j
    {
      ghost var ra, rb := RunEnd(a, i, NonDigit), RunEnd(b, j, NonDigit);
      CompareUnfolds(a, i, ra, RunEnd(a, ra, Digit), b, j, rb, RunEnd(b, rb, Digit));
      var verdict: int;
      i, j, verdict := SkipRuns(a, b, i, j);
      if verdict != 0 { return verdict; }
      i := SkipZeros(a, i);
      j := SkipZeros(b, j);
      i, j, verdict := CompareNumbers(a, b, i, j);
      if verdict != 0 { return verdict; }
    }
    Exhausted(a, b);
    r := 0;
  }

  // ----- a tilde suffix always makes a part earlier

  lemma {:induction false} RunsAgree(x: string, y: string, k: nat, m: nat)
    requires k <= m && forall n: nat :: k <= n < m ==> WeightAt(x, n) == WeightAt(y, n)
    ensures CompareRuns(x, y, k) == CompareRuns(x, y, m)
    decreases m - k
  {
    if k < m { RunsAgree(x, y, k + 1, m); }
  }

  /** A tilde right behind a run weighs less than the end of that run. */
  lemma TildeEndsRun(x: string, y: string)
    requires |x| < |y| && y[..|x|] == x && y[|x|] == '~'
    ensures CompareRuns(y, x, 0) == -1
  {
    forall n: nat | n < |x| ensures WeightAt(y, n) == WeightAt(x, n) { assert y[n] == x[n]; }
    RunsAgree(y, x, 0, |x|);
  }

  /** Where the tilde falls in the run at the front, the run decides. */
  lemma TildeInRun(u: string, w: string, i: nat)
    requires i <= |u| < |w| && w[..|u|] == u && w[|u|] == '~'
    requires RunEnd(u, i, NonDigit) == |u|
    ensures CompareRuns(w[i..RunEnd(w, i, NonDigit)], u[i..], 0) == -1
  {
    var rw := RunEnd(w, i, NonDigit);
    forall m | i <= m < |u| + 1 ensures Is(NonDigit, w[m]) {
      assert m < |u| ==> w[m] == u[m] && Is(NonDigit, u[m]);
    }
    assert rw > |u|;
    assert w[i..rw][..|u| - i] == u[i..];
    TildeEndsRun(u[i..], w[i..rw]);
  }

  /** Where it falls later, both parts have the same token at the front. */
  lemma TildeLater(u: string, w: string, i: nat, r: nat, d: nat)
    requires i <= |u| < |w| && w[..|u|] == u && w[|u|] == '~'
    requires r == RunEnd(u, i, NonDigit) < |u| && d == RunEnd(u, r, Digit)
    ensures RunEnd(w, i, NonDigit) == r && RunEnd(w, r, Digit) == d
    ensures w[i..r] == u[i..r] && Num(w, r, d) == Num(u, r, d)
  {
    SameRun(u, w, i, NonDigit);
    SameRun(u, w, r, Digit);
    NumOfPrefix(u, w, r, d);
    assert forall m :: 0 <= m < |u| ==> w[m] == u[m];
  }

  lemma {:induction false} TildeSuffixFrom(u: string, w: string, i: nat)
    requires i <= |u| < |w| && w[..|u|] == u && w[|u|] == '~'
    ensures Compare(Parse(w, i), Parse(u, i)) < 0
    decreases |u| - i
  {
    var ru, rw := RunEnd(u, i, NonDigit), RunEnd(w, i, NonDigit);
    var du, dw := RunEnd(u, ru, Digit), RunEnd(w, rw, Digit);
    CompareUnfolds(w, i, rw, dw, u, i, ru, du);
    if ru == |u| {
      TildeInRun(u, w, i);
      assert u[i..ru] == u[i..];
    } else {
      TildeLater(u, w, i, ru, du);
      RunsReflexive(u[i..ru], 0);
      TildeSuffixFrom(u, w, du);
    }
  }

  /** Appending a tilde and anything else makes a part earlier, whatever the part is. */
  lemma TildeSuffix(u: string, v: string)
    ensures Compare(Parse(u + "~" + v, 0), Parse(u, 0)) < 0
  {
    TildeSuffixFrom(u, u + "~" + v, 0);
  }
}
