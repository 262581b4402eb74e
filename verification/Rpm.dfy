/**
 RPM's comparison of one version part: the two-index loop of the source, and the token order it is
 proved to compute. Each part parses on its own, whatever it is compared with.
 */
module Rpm {
  import opened Text
  import opened Order

  /** A part as tokens. Separators are dropped; a tilde counts only where a token may start. */
  datatype Tokens = End | Tilde(rest: Tokens) | Letters(run: string, rest: Tokens) | Number(value: nat, rest: Tokens)

  function Parse(s: string, i: nat): Tokens
    requires i <= |s|
    decreases |s| - i
  {
    if i == |s| then End
    else if s[i] == '~' then Tilde(Parse(s, i + 1))
    else
      var t := RunEnd(s, i, NonAlnum);
      if t == |s| then End
      else if IsDigit(s[t]) then
        var e := RunEnd(s, t, Digit);
        Number(Num(s, t, e), Parse(s, e))
      else
        var e := RunEnd(s, t, Alpha);
        Letters(s[t..e], Parse(s, e))
  }

  /** A tilde sorts below the end of the part, letters above it, numbers above letters. */
  function Rank(t: Tokens): int {
    match t
    case Tilde(_) => 0
    case End => 1
    case Letters(_, _) => 2
    case Number(_, _) => 3
  }

  function CompareFront(x: Tokens, y: Tokens): (r: int)
    ensures -1 <= r <= 1
    ensures r == 0 ==> Rank(x) == Rank(y)
  {
    if x.Letters? && y.Letters? then CompareText(x.run, y.run, 0)
    else if x.Number? && y.Number? then Sign(x.value - y.value)
    else Sign(Rank(x) - Rank(y))
  }

  /** Lexicographic order of token lists, the end of a list ranking between tilde and letters. */
  function Compare(x: Tokens, y: Tokens): (r: int)
    ensures -1 <= r <= 1
  {
    if CompareFront(x, y) != 0 then CompareFront(x, y)
    else if x.End? then 0
    else Compare(x.rest, y.rest)
  }

  // ----- the order is total

  lemma {:induction false} Antisymmetric(x: Tokens, y: Tokens)
    ensures Compare(x, y) == -Compare(y, x)
    decreases x, y
  {
    if x.Letters? && y.Letters? { TextAntisymmetric(x.run, y.run, 0); }
    if CompareFront(x, y) == 0 && !x.End? { Antisymmetric(x.rest, y.rest); }
  }

  lemma {:induction false} Transitive(x: Tokens, y: Tokens, z: Tokens)
    requires Compare(x, y) <= 0 && Compare(y, z) <= 0
    ensures Compare(x, z) <= 0
    decreases x, y, z
  {
    if x.Letters? && y.Letters? && z.Letters? { TextTransitive(x.run, y.run, z.run, 0); }
    if CompareFront(x, y) == 0 && CompareFront(y, z) == 0 && !x.End? {
      Transitive(x.rest, y.rest, z.rest);
    }
  }

  lemma {:induction false} TieMeansSameTokens(x: Tokens, y: Tokens)
    ensures Compare(x, y) == 0 <==> x == y
    decreases x, y
  {
    if x.Letters? && y.Letters? {
      TextTie(x.run, y.run, 0);
      assert x.run[0..] == x.run && y.run[0..] == y.run;
    }
    if !x.End? && !y.End? { TieMeansSameTokens(x.rest, y.rest); }
  }

  // ----- comparing digit runs by length and then text compares their values

  lemma {:induction false} DifferenceStays(x: string, y: string, k: nat, n: nat)
    requires k < n <= |x| && n <= |y| && All(x, 0, n, Digit) && All(y, 0, n, Digit)
    requires Num(x, 0, k) == Num(y, 0, k)
    requires x[k] != y[k]
    ensures Sign(Num(x, 0, n) - Num(y, 0, n)) == Sign(x[k] as int - y[k] as int)
  {
    if k + 1 < n { DifferenceStays(x, y, k, n - 1); }
  }

  lemma {:induction false} EqualLengthTextOrder(x: string, y: string, k: nat)
    requires k <= |x| == |y| && All(x, 0, |x|, Digit) && All(y, 0, |y|, Digit)
    requires Num(x, 0, k) == Num(y, 0, k)
    ensures CompareText(x, y, k) == Sign(Num(x, 0, |x|) - Num(y, 0, |y|))
    decreases |x| - k
  {
    if k < |x| {
      if x[k] == y[k] { EqualLengthTextOrder(x, y, k + 1); } else { DifferenceStays(x, y, k, |x|); }
    }
  }

  lemma {:induction false} NumOfSlice(s: string, lo: nat, hi: nat, n: nat)
    requires lo <= hi <= |s| && n <= hi - lo && All(s, lo, hi, Digit)
    ensures All(s[lo..hi], 0, n, Digit) && Num(s[lo..hi], 0, n) == Num(s, lo, lo + n)
  {
    forall m | 0 <= m < n ensures Is(Digit, s[lo..hi][m]) { assert Is(Digit, s[lo + m]); }
    if n > 0 { NumOfSlice(s, lo, hi, n - 1); }
  }

  /** s[lo:hi].lstrip("0") or "0". */
  method StripZeros(s: string, lo: nat, hi: nat) returns (t: string)
    requires lo <= hi <= |s| && hi == RunEnd(s, lo, Digit)
    ensures t != "" && All(t, 0, |t|, Digit) && Num(t, 0, |t|) == Num(s, lo, hi)
    ensures |t| > 1 ==> t[0] != '0'
  {
    var z := lo;
    while z < hi && s[z] == '0'
      invariant lo <= z <= hi && All(s, lo, z, Zero)
    {
      z := z + 1;
    }
    LeadingZeros(s, lo, z, hi);
    if z == hi { return "0"; }
    NumOfSlice(s, z, hi, hi - z);
    t := s[z..hi];
  }

  /** The numeric branch: by length without leading zeros, then by text. */
  method CompareNumbers(a: string, i: nat, p: nat, b: string, j: nat, q: nat) returns (r: int)
    requires i <= p <= |a| && p == RunEnd(a, i, Digit)
    requires j <= q <= |b| && q == RunEnd(b, j, Digit)
    ensures r == Sign(Num(a, i, p) - Num(b, j, q))
  {
    var na := StripZeros(a, i, p);
    var nb := StripZeros(b, j, q);
    if |na| < |nb| { LongerIsLarger(nb, 0, |nb|, na, 0, |na|); return -1; }
    if |na| > |nb| { LongerIsLarger(na, 0, |na|, nb, 0, |nb|); return 1; }
    EqualLengthTextOrder(na, nb, 0);
    r := CompareText(na, nb, 0);
  }

  // ----- the loop of the source computes the order

  lemma ParseAt(s: string, i: nat, t: nat)
    requires i <= |s| && (i < |s| ==> s[i] != '~') && t == RunEnd(s, i, NonAlnum)
    ensures t == |s| ==> Parse(s, i) == End
    ensures t < |s| && IsDigit(s[t]) ==>
              var e := RunEnd(s, t, Digit); e > t && Parse(s, i) == Number(Num(s, t, e), Parse(s, e))
    ensures t < |s| && !IsDigit(s[t]) ==>
              var e := RunEnd(s, t, Alpha); e > t && Parse(s, i) == Letters(s[t..e], Parse(s, e))
  {}

  lemma ParseStart(s: string, i: nat)
    requires i <= |s|
    ensures i == |s| ==> Parse(s, i) == End
    ensures i < |s| && s[i] == '~' ==> Parse(s, i) == Tilde(Parse(s, i + 1))
    ensures i < |s| && s[i] != '~' ==> !Parse(s, i).Tilde?
  {}

  /** The comparison loop of the source. */
  method ComparePart(a: string, b: string) returns (r: int)
    ensures r == Compare(Parse(a, 0), Parse(b, 0))
  {
    hide Num, RunEnd, CompareText, Parse;
    var i, j := 0, 0;
    while i < |a| || j < |b|
      invariant 0 <= i <= |a| && 0 <= j <= |b|
      invariant Compare(Parse(a, 0), Parse(b, 0)) == Compare(Parse(a, i), Parse(b, j))
      decreases |a| - i + |b| - j
    {
      ParseStart(a, i);
      ParseStart(b, j);
      if i < |a| && a[i] == '~' && j < |b| && b[j] == '~' {
        i, j := i + 1, j + 1;
        continue;
      }
      if i < |a| && a[i] == '~' { return -1; }
      if j < |b| && b[j] == '~' { return 1; }
      ghost var x, y := Parse(a, i), Parse(b, j);
      ghost var i0, j0 := i, j;
      i := SkipRun(a, i, NonAlnum);
      j := SkipRun(b, j, NonAlnum);
      ParseAt(a, i0, i);
      ParseAt(b, j0, j);
      if i >= |a| || j >= |b| {
        return if i >= |a| && j >= |b| then 0 else if i < |a| then 1 else -1;
      }
      if IsDigit(a[i]) {
        if !IsDigit(b[j]) { return 1; }
        var si, sj := i, j;
        i := SkipRun(a, i, Digit);
        j := SkipRun(b, j, Digit);
        var c := CompareNumbers(a, si, i, b, sj, j);
        if c != 0 { return c; }
      } else {
        if IsDigit(b[j]) { return -1; }
        var si, sj := i, j;
        i := SkipRun(a, i, Alpha);
        j := SkipRun(b, j, Alpha);
        var c := CompareText(a[si..i], b[sj..j], 0);
        if c != 0 { return c; }
      }
    }
    ParseStart(a, i);
    ParseStart(b, j);
    r := 0;
  }

  // ----- a tilde suffix makes a part earlier exactly where a token may start

  /** The first n characters of s end with a token: with a letter, a digit or a tilde that counts. */
  predicate EndsToken(s: string, n: nat)
    requires n <= |s|
  {
    n == 0 || IsAlnum(s[n - 1]) || (s[n - 1] == '~' && EndsToken(s, n - 1))
  }

  lemma {:induction false} SeparatorsEndNoToken(s: string, i: nat, n: nat)
    requires i < n <= |s| && s[i] != '~' && All(s, i, n, NonAlnum)
    ensures !EndsToken(s, n)
  {
    assert Is(NonAlnum, s[n - 1]);
    if n > i + 1 { SeparatorsEndNoToken(s, i, n - 1); }
  }

  lemma {:induction false} TildeSuffixFrom(u: string, w: string, i: nat)
    requires i <= |u| < |w| && w[..|u|] == u && w[|u|] == '~' && EndsToken(u, i)
    ensures Compare(Parse(w, i), Parse(u, i)) < 0 <==> EndsToken(u, |u|)
    decreases |u| - i
  {
    hide Num, RunEnd, CompareText, Parse;
    ParseStart(u, i);
    ParseStart(w, i);
    if i == |u| {
    } else if u[i] == '~' {
      assert w[i] == '~';
      TildeSuffixFrom(u, w, i + 1);
    } else {
      assert w[i] == u[i];
      var t := RunEnd(u, i, NonAlnum);
      ParseAt(u, i, t);
      ParseAt(w, i, RunEnd(w, i, NonAlnum));
      if t == |u| {
        SeparatorsEndNoToken(u, i, |u|);
      } else {
        SameRun(u, w, i, NonAlnum);
        assert w[t] == u[t];
        var k := if IsDigit(u[t]) then Digit else Alpha;
        var e := RunEnd(u, t, k);
        SameRun(u, w, t, k);
        assert Is(k, u[e - 1]);
        TildeSuffixFrom(u, w, e);
        if k == Digit { NumOfPrefix(u, w, t, e); } else {
          assert w[t..e] == u[t..e];
          TextTie(w[t..e], u[t..e], 0);
        }
      }
    }
  }

  /** Appending a tilde and anything else makes a part earlier exactly when the part ends with a token. */
  lemma TildeSuffix(u: string, v: string)
    ensures Compare(Parse(u + "~" + v, 0), Parse(u, 0)) < 0 <==> EndsToken(u, |u|)
  {
    TildeSuffixFrom(u, u + "~" + v, 0);
  }

  /** A tilde behind a separator is dropped with it, so here the suffix makes the part later. */
  lemma TildeAfterSeparatorIsDropped()
    ensures Compare(Parse("1.~rc", 0), Parse("1.", 0)) == 1
  {
    var s, t := "1.~rc", "1.";
    assert s[1] == '.' && s[2] == '~' && s[3] == 'r';
    RunEndIs(s, 0, NonAlnum, 0);
    RunEndIs(s, 0, Digit, 1);
    RunEndIs(s, 1, NonAlnum, 3);
    RunEndIs(t, 0, NonAlnum, 0);
    RunEndIs(t, 0, Digit, 1);
    RunEndIs(t, 1, NonAlnum, 2);
    ParseAt(s, 0, 0);
    ParseAt(s, 1, 3);
    ParseAt(t, 0, 0);
    ParseAt(t, 1, 2);
    assert Num(s, 0, 1) == Num(t, 0, 1);
  }
}
