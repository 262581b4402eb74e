/**
 What Debian's comparison decides, on the strings themselves: numbers, the characters between them,
 and the end of a part (section 5.6.12 of the Debian Policy Manual).
 */
module DebianLaws {
  import opened Text
  import opened Order
  import opened Debian

  /** Two parts with a common front of n characters; a number is not cut at its end. */
  ghost predicate Share(a: string, b: string, n: nat) {
    && n <= |a| && n <= |b| && a[..n] == b[..n]
    && (n > 0 && IsDigit(a[n - 1]) ==> (n < |a| ==> !IsDigit(a[n])) && (n < |b| ==> !IsDigit(b[n])))
  }

  lemma SameRunOfCharacters(a: string, b: string, i: nat, n: nat)
    requires n <= |a| && n <= |b| && (forall m :: 0 <= m < n ==> a[m] == b[m]) && i < n && RunEnd(a, i, NonDigit) < n
    ensures RunEnd(b, i, NonDigit) == RunEnd(a, i, NonDigit)
    ensures a[i..RunEnd(a, i, NonDigit)] == b[i..RunEnd(a, i, NonDigit)]
  {
    var r := RunEnd(a, i, NonDigit);
    forall m | i <= m < r ensures Is(NonDigit, b[m]) { assert Is(NonDigit, a[m]); }
    RunEndIs(b, i, NonDigit, r);
  }

  lemma SameRunOfDigits(a: string, b: string, r: nat, n: nat)
    requires Share(a, b, n) && r < n && IsDigit(a[r])
    ensures var d := RunEnd(a, r, Digit); r < d <= n && RunEnd(b, r, Digit) == d && Num(a, r, d) == Num(b, r, d)
  {
    hide Num;
    SameAt(a, b, n);
    var d := RunEnd(a, r, Digit);
    assert Is(Digit, a[d - 1]);
    assert d <= n;
    forall m | r <= m < d ensures Is(Digit, b[m]) { assert Is(Digit, a[m]); }
    assert Is(Digit, b[d - 1]);
    RunEndIs(b, r, Digit, d);
    SameDigits(a, b, r, r, d - r);
  }

  /** Parts with a common front compare as from a place at which only a run of characters is left of it. */
  lemma {:induction false} CommonFront(a: string, b: string, i: nat, n: nat) returns (k: nat)
    requires i <= n && Share(a, b, n)
    ensures i <= k <= n && Compare(Parse(a, i), Parse(b, i)) == Compare(Parse(a, k), Parse(b, k))
    ensures All(a, k, n, NonDigit) && All(b, k, n, NonDigit)
    decreases n - i
  {
    hide Num, RunEnd, Parse, CompareRuns, Compare;
    k := i;
    var r := RunEnd(a, i, NonDigit);
    if i < n && r < n {
      SameAt(a, b, n);
      SameRunOfCharacters(a, b, i, n);
      SameRunOfDigits(a, b, r, n);
      var d := RunEnd(a, r, Digit);
      CompareUnfolds(a, i, r, d, b, i, r, d);
      RunsReflexive(a[i..r], 0);
      k := CommonFront(a, b, d, n);
    } else {
      assert forall m :: 0 <= m < n ==> a[..n][m] == b[..n][m];
      forall m | i <= m < n ensures Is(NonDigit, a[m]) && Is(NonDigit, b[m]) { assert Is(NonDigit, a[m]); }
    }
  }

  lemma RunIs(s: string, k: nat, n: nat, e: nat)
    requires k <= n <= e <= |s| && All(s, k, n, NonDigit) && All(s, n, e, NonDigit) && (e < |s| ==> IsDigit(s[e]))
    ensures RunEnd(s, k, NonDigit) == e
  {
    RunEndIs(s, k, NonDigit, e);
  }

  lemma NumbersBehindFront(a: string, b: string, n: nat, ea: nat, eb: nat)
    requires Share(a, b, n) && n < ea <= |a| && n < eb <= |b|
    requires ea == RunEnd(a, n, Digit) && eb == RunEnd(b, n, Digit) && Num(a, n, ea) < Num(b, n, eb)
    ensures Compare(Parse(a, 0), Parse(b, 0)) == -1
  {
    hide Parse, RunEnd, CompareRuns, Compare, Num;
    assert Is(Digit, a[n]) && Is(Digit, b[n]);
    var k := CommonFront(a, b, 0, n);
    RunIs(a, k, n, n);
    RunIs(b, k, n, n);
    assert a[k..n] == a[..n][k..] && b[k..n] == b[..n][k..];
    NumberDecides(a, b, k, n, ea, eb);
  }

  /** Behind a common front that is not cut inside a number, the smaller number is earlier, whatever follows. */
  lemma SmallerNumberIsEarlier(u: string, x: string, v: string, y: string, w: string)
    requires IsNumeric(x) && IsNumeric(y) && Num(x, 0, |x|) < Num(y, 0, |y|)
    requires u == "" || !IsDigit(u[|u| - 1])
    requires (v == "" || !IsDigit(v[0])) && (w == "" || !IsDigit(w[0]))
    ensures Compare(Parse(u + x + v, 0), Parse(u + y + w, 0)) == -1
  {
    hide Parse, RunEnd, Compare, Num;
    NumberAt(u, x, v);
    NumberAt(u, y, w);
    NumbersBehindFront(u + x + v, u + y + w, |u|, |u| + |x|, |u| + |y|);
  }

  lemma NumberDecides(a: string, b: string, k: nat, n: nat, ea: nat, eb: nat)
    requires k <= n <= ea <= |a| && n <= eb <= |b| && a[k..n] == b[k..n]
    requires n == RunEnd(a, k, NonDigit) == RunEnd(b, k, NonDigit)
    requires ea == RunEnd(a, n, Digit) && eb == RunEnd(b, n, Digit) && Num(a, n, ea) < Num(b, n, eb)
    ensures Compare(Parse(a, k), Parse(b, k)) == -1
  {
    hide Parse, RunEnd, CompareRuns, Compare, Num;
    CompareUnfolds(a, k, n, ea, b, k, n, eb);
    RunsReflexive(a[k..n], 0);
  }

  /** Of two characters that are no digits: a tilde first, then letters, then the others, by character code. */
  predicate Earlier(c: char, d: char) {
    if c == '~' || d == '~' then c == '~' && d != '~'
    else if IsAlpha(c) == IsAlpha(d) then c < d
    else IsAlpha(c)
  }

  /** The runs behind k decide by their weight at n. */
  lemma RunDecides(a: string, b: string, k: nat, n: nat, ea: nat, eb: nat)
    requires k <= n <= ea <= |a| && n <= eb <= |b| && a[k..n] == b[k..n]
    requires ea == RunEnd(a, k, NonDigit) && eb == RunEnd(b, k, NonDigit)
    requires WeightAt(a[k..ea], n - k) < WeightAt(b[k..eb], n - k)
    ensures Compare(Parse(a, k), Parse(b, k)) == -1
  {
    hide Parse, RunEnd, Compare, Num;
    var x, y := a[k..ea], b[k..eb];
    forall m: nat | m < n - k ensures WeightAt(x, m) == WeightAt(y, m) {
      assert a[k..n][m] == b[k..n][m];
    }
    RunsAgree(x, y, 0, n - k);
    CompareUnfolds(a, k, ea, RunEnd(a, ea, Digit), b, k, eb, RunEnd(b, eb, Digit));
  }

  /** Where two parts first differ in characters that are no digits, those decide. */
  lemma EarlierCharacterIsEarlier(u: string, c: char, v: string, d: char, w: string)
    requires !IsDigit(c) && !IsDigit(d) && Earlier(c, d)
    ensures Compare(Parse(u + [c] + v, 0), Parse(u + [d] + w, 0)) == -1
  {
    hide Parse, RunEnd, CompareRuns, Compare, Num;
    var a, b, n := u + [c] + v, u + [d] + w, |u|;
    assert a[..n] == u && b[..n] == u && a[n] == c && b[n] == d;
    assert n > 0 ==> a[n - 1] == u[n - 1];
    var k := CommonFront(a, b, 0, n);
    var ea, eb := RunEnd(a, n, NonDigit), RunEnd(b, n, NonDigit);
    assert Is(NonDigit, a[n]) && Is(NonDigit, b[n]);
    RunIs(a, k, n, ea) by { EndsBeforeDigit(a, n); }
    RunIs(b, k, n, eb) by { EndsBeforeDigit(b, n); }
    assert a[k..n] == u[k..] && b[k..n] == u[k..];
    assert ea > n && eb > n by { EndsBeforeDigit(a, n); EndsBeforeDigit(b, n); }
    assert a[k..ea][n - k] == c && b[k..eb][n - k] == d;
    RunDecides(a, b, k, n, ea, eb);
  }

  lemma EndsBeforeDigit(s: string, n: nat)
    requires n < |s| && !IsDigit(s[n])
    ensures var e := RunEnd(s, n, NonDigit); n < e && (e < |s| ==> IsDigit(s[e]))
  {}

  /** A run that ends, before a number or with its part, is earlier than one that goes on, but later than a tilde. */
  lemma EndOfRun(u: string, w: string, c: char, v: string)
    requires !IsDigit(c) && (w == "" || (IsDigit(w[0]) && (u == "" || !IsDigit(u[|u| - 1]))))
    ensures Compare(Parse(u + w, 0), Parse(u + [c] + v, 0)) == if c == '~' then 1 else -1
  {
    hide Parse, RunEnd, CompareRuns, Compare, Num;
    var a, b, n := u + w, u + [c] + v, |u|;
    assert a[..n] == u && b[..n] == u && b[n] == c;
    assert w != "" ==> a[n] == w[0];
    assert n > 0 ==> a[n - 1] == u[n - 1];
    var k := CommonFront(a, b, 0, n);
    var eb := RunEnd(b, n, NonDigit);
    assert n < eb && (eb < |b| ==> IsDigit(b[eb])) by { EndsBeforeDigit(b, n); }
    RunIs(a, k, n, n);
    RunIs(b, k, n, eb);
    assert a[k..n] == u[k..] && b[k..n] == u[k..];
    assert b[k..eb][n - k] == c;
    if c == '~' {
      RunDecides(b, a, k, n, eb, n);
      Antisymmetric(Parse(a, k), Parse(b, k));
    } else {
      RunDecides(a, b, k, n, n, eb);
    }
  }
}
