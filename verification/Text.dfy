/**
 The character classes, digit runs and whitespace trimming that the version comparers rest on.
 Characters are ASCII: a character outside that range counts as neither a digit nor a letter.
 */
module Text {

  predicate IsDigit(c: char) { '0' <= c <= '9' }

  predicate IsAlpha(c: char) { 'a' <= c <= 'z' || 'A' <= c <= 'Z' }

  predicate IsAlnum(c: char) { IsDigit(c) || IsAlpha(c) }

  predicate IsSpace(c: char) { '\t' <= c <= '\r' || '\U{1c}' <= c <= ' ' }

  datatype CharClass = Digit | NonDigit | Alpha | NonAlnum | Space | Zero

  predicate Is(k: CharClass, c: char) {
    match k
    case Digit => IsDigit(c)
    case NonDigit => !IsDigit(c)
    case Alpha => IsAlpha(c)
    case NonAlnum => !IsAlnum(c)
    case Space => IsSpace(c)
    case Zero => c == '0'
  }

  /** Every character of s from lo up to hi is of class k. */
  ghost predicate All(s: string, lo: nat, hi: nat, k: CharClass)
    requires lo <= hi <= |s|
  {
    forall m :: lo <= m < hi ==> Is(k, s[m])
  }

  /** Where the run of k-characters that starts at position i ends. */
  function RunEnd(s: string, i: nat, k: CharClass): (e: nat)
    requires i <= |s|
    ensures i <= e <= |s| && All(s, i, e, k)
    ensures e < |s| ==> !Is(k, s[e])
    decreases |s| - i
  {
    if i < |s| && Is(k, s[i]) then RunEnd(s, i + 1, k) else i
  }

  lemma RunEndIs(s: string, i: nat, k: CharClass, e: nat)
    requires i <= e <= |s| && All(s, i, e, k)
    requires e < |s| ==> !Is(k, s[e])
    ensures RunEnd(s, i, k) == e
  {
    var d := RunEnd(s, i, k);
    assert d >= e;
  }

  /** The loop by which the source walks over a run. */
  method SkipRun(s: string, i: nat, k: CharClass) returns (e: nat)
    requires i <= |s|
    ensures e == RunEnd(s, i, k)
  {
    e := i;
    while e < |s| && Is(k, s[e])
      invariant i <= e <= |s| && All(s, i, e, k)
    {
      e := e + 1;
    }
    RunEndIs(s, i, k, e);
  }

  // ----- numbers

  function DigitValue(c: char): (d: nat)
    requires IsDigit(c)
    ensures d < 10
  {
    (c as int) - ('0' as int)
  }

  /** The number that the digits of s from lo up to hi spell; 0 when there are none. */
  function Num(s: string, lo: nat, hi: nat): nat
    requires lo <= hi <= |s| && All(s, lo, hi, Digit)
  {
    if lo == hi then 0 else 10 * Num(s, lo, hi - 1) + DigitValue(s[hi - 1])
  }

  function Pow10(n: nat): (p: nat)
    ensures p > 0
  {
    if n == 0 then 1 else 10 * Pow10(n - 1)
  }

  lemma {:induction false} NumBounds(s: string, lo: nat, hi: nat)
    requires lo <= hi <= |s| && All(s, lo, hi, Digit)
    ensures Num(s, lo, hi) < Pow10(hi - lo)
    ensures lo < hi && s[lo] != '0' ==> Num(s, lo, hi) >= Pow10(hi - lo - 1)
  {
    if lo < hi {
      NumBounds(s, lo, hi - 1);
    }
  }

  lemma {:induction false} Pow10Monotone(m: nat, n: nat)
    requires m <= n
    ensures Pow10(m) <= Pow10(n)
  {
    if m < n { Pow10Monotone(m, n - 1); }
  }

  /** Without leading zeros, more digits means a larger number. */
  lemma LongerIsLarger(a: string, i: nat, p: nat, b: string, j: nat, q: nat)
    requires i <= p <= |a| && All(a, i, p, Digit)
    requires j <= q <= |b| && All(b, j, q, Digit)
    requires p - i > q - j && a[i] != '0'
    ensures Num(a, i, p) > Num(b, j, q)
  {
    NumBounds(a, i, p);
    NumBounds(b, j, q);
    Pow10Monotone(q - j, p - i - 1);
  }

  lemma {:induction false} LeadingZeros(s: string, lo: nat, z: nat, hi: nat)
    requires lo <= z <= hi <= |s| && All(s, lo, hi, Digit) && All(s, lo, z, Zero)
    ensures All(s, z, hi, Digit) && Num(s, lo, hi) == Num(s, z, hi)
    decreases hi
  {
    if lo < hi {
      if z < hi {
        LeadingZeros(s, lo, z, hi - 1);
      } else {
        LeadingZeros(s, lo, z - 1, hi - 1);
      }
    }
  }

  lemma {:induction false} NumOfPrefix(u: string, w: string, lo: nat, hi: nat)
    requires lo <= hi <= |u| <= |w| && w[..|u|] == u && All(u, lo, hi, Digit)
    ensures All(w, lo, hi, Digit) && Num(w, lo, hi) == Num(u, lo, hi)
  {
    forall m | lo <= m < hi ensures Is(Digit, w[m]) { assert Is(Digit, u[m]) && u[m] == w[m]; }
    if lo < hi {
      NumOfPrefix(u, w, lo, hi - 1);
      assert w[hi - 1] == u[hi - 1];
    }
  }

  /** The same digits at another place are the same number. */
  lemma {:induction false} SameDigits(a: string, b: string, i: nat, j: nat, n: nat)
    requires i + n <= |a| && j + n <= |b| && All(a, i, i + n, Digit)
    requires forall m :: i <= m < i + n ==> a[m] == b[m - i + j]
    ensures All(b, j, j + n, Digit) && Num(a, i, i + n) == Num(b, j, j + n)
  {
    forall m | j <= m < j + n ensures Is(Digit, b[m]) {
      var k := m - j + i;
      assert a[k] == b[k - i + j] && Is(Digit, a[k]);
    }
    if n > 0 {
      SameDigits(a, b, i, j, n - 1);
      assert a[i + n - 1] == b[j + n - 1];
    }
  }

  /** x is a run of its class in front of v. */
  lemma RunAt(u: string, x: string, v: string, c: CharClass)
    requires x != "" && All(x, 0, |x|, c) && (v == "" || !Is(c, v[0]))
    ensures var s := u + x + v; s[..|u|] == u && s[|u|..|u| + |x|] == x && RunEnd(s, |u|, c) == |u| + |x|
  {
    var s := u + x + v;
    forall m | |u| <= m < |u| + |x| ensures Is(c, s[m]) { assert s[m] == x[m - |u|] && Is(c, x[m - |u|]); }
    RunEndIs(s, |u|, c, |u| + |x|);
  }

  /** A run of u that stops before the tilde that follows u in w is the same run of w. */
  lemma SameRun(u: string, w: string, i: nat, k: CharClass)
    requires i <= |u| < |w| && w[..|u|] == u && w[|u|] == '~'
    requires RunEnd(u, i, k) < |u| || !Is(k, '~')
    ensures RunEnd(w, i, k) == RunEnd(u, i, k)
  {
    var e := RunEnd(u, i, k);
    assert forall m :: 0 <= m < |u| ==> w[m] == u[m];
    assert All(w, i, e, k);
    RunEndIs(w, i, k, e);
  }

  lemma SameAt(a: string, b: string, n: nat)
    requires n <= |a| && n <= |b| && a[..n] == b[..n]
    ensures forall m :: 0 <= m < n ==> a[m] == b[m]
  {
    forall m | 0 <= m < n ensures a[m] == b[m] { assert a[..n][m] == b[..n][m]; }
  }

  lemma NumberAt(u: string, x: string, v: string)
    requires IsNumeric(x) && (v == "" || !IsDigit(v[0]))
    ensures var s := u + x + v;
            && s[..|u|] == u && (|u| > 0 ==> s[|u| - 1] == u[|u| - 1]) && RunEnd(s, |u|, Digit) == |u| + |x|
            && Num(s, |u|, |u| + |x|) == Num(x, 0, |x|)
  {
    hide RunEnd, Num, All;
    RunAt(u, x, v, Digit);
    var s := u + x + v;
    assert forall m :: 0 <= m < |x| ==> x[m] == s[m - 0 + |u|];
    SameDigits(x, s, 0, |u|, |x|);
  }

  lemma RunBehind(s: string, cut: nat, i: nat, k: CharClass)
    requires cut <= i <= |s|
    ensures RunEnd(s[cut..], i - cut, k) == RunEnd(s, i, k) - cut
  {
    var w, e := s[cut..], RunEnd(s, i, k);
    forall m | i - cut <= m < e - cut ensures Is(k, w[m]) { assert Is(k, s[cut + m]); }
    assert e < |s| ==> w[e - cut] == s[e];
    RunEndIs(w, i - cut, k, e - cut);
  }

  // ----- whole strings

  function Lower(c: char): char {
    if 'A' <= c <= 'Z' then ((c as int) + 32) as char else c
  }

  function LowerAll(s: string): (r: string)
    ensures |r| == |s|
  {
    seq(|s|, i requires 0 <= i < |s| => Lower(s[i]))
  }

  function StripLeft(s: string): string { s[RunEnd(s, 0, Space)..] }

  function StripRight(s: string): string {
    if s != "" && IsSpace(s[|s| - 1]) then StripRight(s[..|s| - 1]) else s
  }

  /** str.strip. */
  function Strip(s: string): string { StripRight(StripLeft(s)) }

  lemma NothingToStrip(s: string)
    requires s != "" && !IsSpace(s[0]) && !IsSpace(s[|s| - 1])
    ensures Strip(s) == s
  {
    hide RunEnd;
    RunEndIs(s, 0, Space, 0);
    assert s[0..] == s;
  }

  /** str.isdigit: at least one character, all of them digits. */
  predicate IsNumeric(s: string)
    ensures IsNumeric(s) ==> All(s, 0, |s|, Digit)
  {
    s != "" && RunEnd(s, 0, Digit) == |s|
  }

  lemma {:induction false} StripRightKeeps(s: string)
    ensures |StripRight(s)| <= |s| && StripRight(s) == s[..|StripRight(s)|]
    ensures All(s, |StripRight(s)|, |s|, Space)
    ensures var t := StripRight(s); t != "" ==> !IsSpace(t[|t| - 1])
  {
    if s != "" && IsSpace(s[|s| - 1]) {
      StripRightKeeps(s[..|s| - 1]);
      assert forall m :: 0 <= m < |s| - 1 ==> s[..|s| - 1][m] == s[m];
      forall m | |StripRight(s)| <= m < |s| ensures Is(Space, s[m]) {
        if m < |s| - 1 { assert Is(Space, s[..|s| - 1][m]); }
      }
    }
  }

  /** Stripping takes whitespace off both ends, all of it and nothing else. */
  lemma StripExactly(s: string) returns (from: nat)
    ensures var t := Strip(s);
            && from + |t| <= |s| && t == s[from..from + |t|]
            && All(s, 0, from, Space) && All(s, from + |t|, |s|, Space)
            && (t != "" ==> !IsSpace(t[0]) && !IsSpace(t[|t| - 1]))
  {
    from := RunEnd(s, 0, Space);
    var left := s[from..];
    StripRightKeeps(left);
    var t := StripRight(left);
    forall m | from + |t| <= m < |s| ensures Is(Space, s[m]) { assert Is(Space, left[m - from]); }
    if t != "" { assert t[0] == s[from]; }
  }
}
