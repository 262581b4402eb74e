/** What RPM's comparison decides, on the strings themselves: numbers, letters, and the end of a part. */
module RpmLaws {
  import opened Text
  import opened Order
  import opened Rpm

  /** No digit run and no letter run of s goes on across position n. */
  predicate Breaks(s: string, n: nat)
    requires n <= |s|
  {
    n == 0 || n == |s| || !((IsDigit(s[n - 1]) && IsDigit(s[n])) || (IsAlpha(s[n - 1]) && IsAlpha(s[n])))
  }

  /** From a token inside a common front, both parts have that token. */
  lemma SameToken(a: string, b: string, t: nat, n: nat, c: CharClass)
    requires t < n <= |a| && n <= |b| && a[..n] == b[..n] && Breaks(a, n) && Breaks(b, n)
    requires c == (if IsDigit(a[t]) then Digit else Alpha) && IsAlnum(a[t])
    ensures t < RunEnd(a, t, c) <= n && RunEnd(b, t, c) == RunEnd(a, t, c)
    ensures a[t..RunEnd(a, t, c)] == b[t..RunEnd(a, t, c)]
    ensures c == Digit ==> Num(a, t, RunEnd(a, t, c)) == Num(b, t, RunEnd(a, t, c))
  {
    hide Num;
    SameAt(a, b, n);
    var e := RunEnd(a, t, c);
    assert t < e;
    assert e <= n;
    forall m | t <= m < e ensures Is(c, b[m]) { assert Is(c, a[m]); }
    assert Is(c, b[e - 1]);
    RunEndIs(b, t, c, e);
    assert a[t..e] == b[t..e];
    if c == Digit { SameDigits(a, b, t, t, e - t); }
  }

  /** Parts with a common front compare as from its end on, or from the separators at its end. */
  lemma {:induction false} CommonFront(a: string, b: string, i: nat, n: nat) returns (k: nat)
    requires i <= n <= |a| && n <= |b| && a[..n] == b[..n] && Breaks(a, n) && Breaks(b, n)
    ensures i <= k <= n && Compare(Parse(a, i), Parse(b, i)) == Compare(Parse(a, k), Parse(b, k))
    ensures k < n ==> a[k] != '~' && b[k] != '~' && All(a, k, n, NonAlnum) && All(b, k, n, NonAlnum)
    decreases n - i
  {
    hide Num, RunEnd, CompareText, Parse, Breaks;
    k := i;
    if i == n { return; }
    SameAt(a, b, n);
    ParseStart(a, i);
    ParseStart(b, i);
    if a[i] == '~' {
      k := CommonFront(a, b, i + 1, n);
      return;
    }
    var t := RunEnd(a, i, NonAlnum);
    if t >= n {
      forall m | i <= m < n ensures Is(NonAlnum, b[m]) { assert Is(NonAlnum, a[m]); }
      return;
    }
    forall m | i <= m < t ensures Is(NonAlnum, b[m]) { assert Is(NonAlnum, a[m]); }
    RunEndIs(b, i, NonAlnum, t);
    ParseAt(a, i, t);
    ParseAt(b, i, t);
    var c := if IsDigit(a[t]) then Digit else Alpha;
    SameToken(a, b, t, n, c);
    var e := RunEnd(a, t, c);
    TextTie(a[t..e], b[t..e], 0);
    k := CommonFront(a, b, e, n);
  }

  /** The token that begins at the end of the front, wherever the separators before it begin. */
  lemma TokenAt(s: string, k: nat, n: nat, e: nat)
    requires k <= n < e <= |s| && IsAlnum(s[n]) && e == RunEnd(s, n, if IsDigit(s[n]) then Digit else Alpha)
    requires k < n ==> s[k] != '~' && All(s, k, n, NonAlnum)
    ensures Parse(s, k) == if IsDigit(s[n]) then Number(Num(s, n, e), Parse(s, e)) else Letters(s[n..e], Parse(s, e))
  {
    hide Num, Parse;
    RunEndIs(s, k, NonAlnum, n);
    ParseAt(s, k, n);
  }

  /** Behind a common front, the numbers that begin there decide, if they differ. */
  lemma NumbersBehindFront(a: string, b: string, n: nat, ea: nat, eb: nat)
    requires n < ea <= |a| && n < eb <= |b| && a[..n] == b[..n] && Breaks(a, n) && Breaks(b, n)
    requires ea == RunEnd(a, n, Digit) && eb == RunEnd(b, n, Digit) && Num(a, n, ea) < Num(b, n, eb)
    ensures Compare(Parse(a, 0), Parse(b, 0)) == -1
  {
    hide Parse, RunEnd, Num;
    assert Is(Digit, a[n]) && Is(Digit, b[n]);
    var k := CommonFront(a, b, 0, n);
    TokenAt(a, k, n, ea);
    TokenAt(b, k, n, eb);
  }

  lemma WordsBehindFront(a: string, b: string, n: nat, ea: nat, eb: nat)
    requires n < ea <= |a| && n < eb <= |b| && a[..n] == b[..n] && Breaks(a, n) && Breaks(b, n)
    requires ea == RunEnd(a, n, Alpha) && eb == RunEnd(b, n, Alpha) && CompareText(a[n..ea], b[n..eb], 0) == -1
    ensures Compare(Parse(a, 0), Parse(b, 0)) == -1
  {
    hide Parse, RunEnd, Num, CompareText;
    assert Is(Alpha, a[n]) && Is(Alpha, b[n]);
    var k := CommonFront(a, b, 0, n);
    TokenAt(a, k, n, ea);
    TokenAt(b, k, n, eb);
  }

  lemma BreaksBehind(u: string, x: string, v: string, c: CharClass)
    requires c == Digit || c == Alpha
    requires x != "" && Is(c, x[0]) && (u == "" || !Is(c, u[|u| - 1]))
    ensures Breaks(u + x + v, |u|)
  {
    var s := u + x + v;
    assert s[|u|] == x[0] && (|u| > 0 ==> s[|u| - 1] == u[|u| - 1]);
  }

  /** In s the number x stands behind u, and neither goes on into the other. */
  ghost predicate StandsBehind(s: string, u: string, x: string) {
    && IsNumeric(x) && |u| + |x| <= |s| && s[..|u|] == u && Breaks(s, |u|)
    && RunEnd(s, |u|, Digit) == |u| + |x| && Num(s, |u|, |u| + |x|) == Num(x, 0, |x|)
  }

  lemma NumberStands(u: string, x: string, v: string)
    requires IsNumeric(x) && (u == "" || !IsDigit(u[|u| - 1])) && (v == "" || !IsDigit(v[0]))
    ensures StandsBehind(u + x + v, u, x)
  {
    hide RunEnd, Num, Breaks;
    NumberAt(u, x, v);
    assert Is(Digit, x[0]);
    BreaksBehind(u, x, v, Digit);
  }

  lemma SmallerStandsEarlier(a: string, b: string, u: string, x: string, y: string)
    requires StandsBehind(a, u, x) && StandsBehind(b, u, y) && Num(x, 0, |x|) < Num(y, 0, |y|)
    ensures Compare(Parse(a, 0), Parse(b, 0)) == -1
  {
    hide Parse, RunEnd, Num, Compare, Breaks;
    NumbersBehindFront(a, b, |u|, |u| + |x|, |u| + |y|);
  }

  /** Behind a common front that is not cut inside a number, the smaller number is earlier, whatever follows. */
  lemma SmallerNumberIsEarlier(u: string, x: string, v: string, y: string, w: string)
    requires IsNumeric(x) && IsNumeric(y) && Num(x, 0, |x|) < Num(y, 0, |y|)
    requires u == "" || !IsDigit(u[|u| - 1])
    requires (v == "" || !IsDigit(v[0])) && (w == "" || !IsDigit(w[0]))
    ensures Compare(Parse(u + x + v, 0), Parse(u + y + w, 0)) == -1
  {
    hide *;
    NumberStands(u, x, v);
    NumberStands(u, y, w);
    SmallerStandsEarlier(u + x + v, u + y + w, u, x, y);
  }

  /** Behind a common front that is not cut inside a word, the word that comes first as text is earlier. */
  lemma EarlierWordIsEarlier(u: string, x: string, v: string, y: string, w: string)
    requires x != "" && All(x, 0, |x|, Alpha) && y != "" && All(y, 0, |y|, Alpha) && TextBefore(x, y)
    requires u == "" || !IsAlpha(u[|u| - 1])
    requires (v == "" || !IsAlpha(v[0])) && (w == "" || !IsAlpha(w[0]))
    ensures Compare(Parse(u + x + v, 0), Parse(u + y + w, 0)) == -1
  {
    hide Parse, RunEnd, CompareText, TextBefore, Num, Compare, Breaks;
    RunAt(u, x, v, Alpha);
    RunAt(u, y, w, Alpha);
    assert Is(Alpha, x[0]) && Is(Alpha, y[0]);
    BreaksBehind(u, x, v, Alpha);
    BreaksBehind(u, y, w, Alpha);
    TextOrder(x, y);
    WordsBehindFront(u + x + v, u + y + w, |u|, |u| + |x|, |u| + |y|);
  }

  /** Where one part goes on with a letter and the other with a digit, the one with the letter is earlier. */
  lemma LettersBeforeDigits(u: string, v: string, w: string)
    requires v != "" && IsAlpha(v[0]) && w != "" && IsDigit(w[0]) && (u == "" || !IsAlnum(u[|u| - 1]))
    ensures Compare(Parse(u + v, 0), Parse(u + w, 0)) == -1
  {
    hide Parse, RunEnd, CompareText, Num;
    var a, b, n := u + v, u + w, |u|;
    assert a[n] == v[0] && b[n] == w[0] && a[..n] == u && b[..n] == u;
    assert n > 0 ==> a[n - 1] == u[n - 1] && b[n - 1] == u[n - 1];
    var k := CommonFront(a, b, 0, n);
    TokenAt(a, k, n, RunIsNotEmpty(a, n, Alpha));
    TokenAt(b, k, n, RunIsNotEmpty(b, n, Digit));
  }

  function RunIsNotEmpty(s: string, n: nat, c: CharClass): (e: nat)
    requires n < |s| && Is(c, s[n])
    ensures e == RunEnd(s, n, c) && e > n
  {
    RunEnd(s, n, c)
  }

  /** A part that goes on with another letter or digit, behind separators or not, is later than one that ends. */
  lemma LongerIsLater(u: string, v: string, t: nat)
    requires t < |v| && IsAlnum(v[t]) && v[0] != '~' && All(v, 0, t, NonAlnum)
    requires Breaks(u + v, |u|)
    ensures Compare(Parse(u, 0), Parse(u + v, 0)) == -1
  {
    hide Parse, RunEnd, CompareText, Num;
    var b, n := u + v, |u|;
    assert b[..n] == u && u[..n] == u;
    var k := CommonFront(u, b, 0, n);
    assert b[n + t] == v[t] && b[n] == v[0];
    forall m | n <= m < n + t ensures Is(NonAlnum, b[m]) { assert Is(NonAlnum, v[m - n]) && b[m] == v[m - n]; }
    TokenAt(b, k, n + t, RunIsNotEmpty(b, n + t, if IsDigit(b[n + t]) then Digit else Alpha));
    ParseStart(u, k);
    if k < n {
      RunEndIs(u, k, NonAlnum, n);
      ParseAt(u, k, n);
    }
  }
}
