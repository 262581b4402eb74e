/** Three-way comparison results and the orders the version comparers are built from. */
module Order {

  function Sign(n: int): (r: int)
    ensures -1 <= r <= 1
  {
    if n < 0 then -1 else if n > 0 then 1 else 0
  }

  function Max(m: int, n: int): (r: int)
    ensures m <= r && n <= r && (r == m || r == n)
  {
    if m < n then n else m
  }

  /** The first comparison that is not a tie decides. */
  function Then(first: int, second: int): int {
    if first != 0 then first else second
  }

  /** The k-th component of u, with components past the end read as 0. */
  function At(u: seq<int>, k: nat): int {
    if k < |u| then u[k] else 0
  }

  /** Lexicographic comparison of u and v, the shorter one padded with zeros. */
  function ComparePadded(u: seq<int>, v: seq<int>): (r: int)
    ensures -1 <= r <= 1
    decreases |u| + |v|
  {
    if u == [] && v == [] then 0
    else Then(Sign(At(u, 0) - At(v, 0)), ComparePadded(Tail(u), Tail(v)))
  }

  function Tail<T>(u: seq<T>): seq<T> {
    if u == [] then [] else u[1..]
  }

  /** The first component in which the padded sequences differ decides. */
  lemma {:induction false} PaddedFirstDifference(u: seq<int>, v: seq<int>, k: nat)
    requires forall m: nat :: m < k ==> At(u, m) == At(v, m)
    requires At(u, k) != At(v, k)
    ensures ComparePadded(u, v) == Sign(At(u, k) - At(v, k))
    decreases k
  {
    if k > 0 {
      assert At(u, 0) == At(v, 0);
      forall m: nat | m < k ensures At(Tail(u), m) == At(u, m + 1) && At(Tail(v), m) == At(v, m + 1) {}
      PaddedFirstDifference(Tail(u), Tail(v), k - 1);
    }
  }

  /** A tie means the same components, missing ones read as 0. */
  lemma {:induction false} PaddedTie(u: seq<int>, v: seq<int>)
    ensures ComparePadded(u, v) == 0 <==> forall m: nat :: At(u, m) == At(v, m)
    decreases |u| + |v|
  {
    if u != [] || v != [] {
      PaddedTie(Tail(u), Tail(v));
      forall m: nat ensures At(Tail(u), m) == At(u, m + 1) && At(Tail(v), m) == At(v, m + 1) {}
      if forall m: nat :: At(Tail(u), m) == At(Tail(v), m) {
        forall m: nat | m > 0 ensures At(u, m) == At(v, m) {
          assert At(Tail(u), m - 1) == At(Tail(v), m - 1);
        }
      }
    }
  }

  lemma {:induction false} PaddedAntisymmetric(u: seq<int>, v: seq<int>)
    ensures ComparePadded(u, v) == -ComparePadded(v, u)
    decreases |u| + |v|
  {
    if u != [] || v != [] { PaddedAntisymmetric(Tail(u), Tail(v)); }
  }

  /** Plain lexicographic comparison of component sequences, a proper prefix first. */
  function CompareLex(u: seq<int>, v: seq<int>): (r: int)
    ensures -1 <= r <= 1
  {
    if u == [] then (if v == [] then 0 else -1)
    else if v == [] then 1
    else Then(Sign(u[0] - v[0]), CompareLex(u[1..], v[1..]))
  }

  lemma {:induction false} LexTie(u: seq<int>, v: seq<int>)
    ensures CompareLex(u, v) == 0 <==> u == v
  {
    if u != [] && v != [] {
      LexTie(u[1..], v[1..]);
      assert u == [u[0]] + u[1..] && v == [v[0]] + v[1..];
    }
  }

  lemma {:induction false} LexAntisymmetric(u: seq<int>, v: seq<int>)
    ensures CompareLex(u, v) == -CompareLex(v, u)
  {
    if u != [] && v != [] { LexAntisymmetric(u[1..], v[1..]); }
  }

  lemma {:induction false} LexTransitive(u: seq<int>, v: seq<int>, w: seq<int>)
    requires CompareLex(u, v) <= 0 && CompareLex(v, w) <= 0
    ensures CompareLex(u, w) <= 0
  {
    if u != [] && v != [] && w != [] && u[0] == v[0] == w[0] {
      LexTransitive(u[1..], v[1..], w[1..]);
    }
  }

  /** Order of strings by character code from position k on, a proper prefix first. */
  function CompareText(x: string, y: string, k: nat): (r: int)
    requires k <= |x| && k <= |y|
    ensures -1 <= r <= 1
    decreases |x| - k
  {
    if k == |x| then (if k == |y| then 0 else -1)
    else if k == |y| then 1
    else Then(Sign(x[k] as int - y[k] as int), CompareText(x, y, k + 1))
  }

  lemma {:induction false} TextAntisymmetric(x: string, y: string, k: nat)
    requires k <= |x| && k <= |y|
    ensures CompareText(x, y, k) == -CompareText(y, x, k)
    decreases |x| - k
  {
    if k < |x| && k < |y| { TextAntisymmetric(x, y, k + 1); }
  }

  lemma {:induction false} TextTransitive(x: string, y: string, z: string, k: nat)
    requires k <= |x| && k <= |y| && k <= |z|
    requires CompareText(x, y, k) <= 0 && CompareText(y, z, k) <= 0
    ensures CompareText(x, z, k) <= 0
    ensures CompareText(x, y, k) < 0 || CompareText(y, z, k) < 0 ==> CompareText(x, z, k) < 0
    decreases |x| - k
  {
    if k < |x| && k < |y| && k < |z| && x[k] == y[k] == z[k] { TextTransitive(x, y, z, k + 1); }
  }

  lemma {:induction false} TextTie(x: string, y: string, k: nat)
    requires k <= |x| && k <= |y|
    ensures CompareText(x, y, k) == 0 <==> x[k..] == y[k..]
    decreases |x| - k
  {
    if k < |x| && k < |y| {
      TextTie(x, y, k + 1);
      assert x[k..] == [x[k]] + x[k + 1..] && y[k..] == [y[k]] + y[k + 1..];
    }
  }

  /** x comes before y by character code: at the first difference, or by ending first. */
  ghost predicate TextBefore(x: string, y: string) {
    exists k: nat :: k <= |x| && k <= |y| && x[..k] == y[..k] && TextDecides(x, y, k)
  }

  predicate TextDecides(x: string, y: string, k: nat)
    requires k <= |x| && k <= |y|
  {
    if k == |x| || k == |y| then k < |y| else x[k] < y[k]
  }

  lemma {:induction false} TextFrom(x: string, y: string, k: nat)
    requires k <= |x| && k <= |y| && x[..k] == y[..k]
    ensures CompareText(x, y, k) == -1 ==> TextBefore(x, y)
    ensures CompareText(x, y, k) == 1 ==> TextBefore(y, x)
    decreases |x| - k
  {
    if k < |x| && k < |y| && x[k] == y[k] {
      assert x[..k + 1] == x[..k] + [x[k]] && y[..k + 1] == y[..k] + [y[k]];
      TextFrom(x, y, k + 1);
    } else if CompareText(x, y, k) == -1 {
      assert TextDecides(x, y, k);
    } else if CompareText(x, y, k) == 1 {
      assert TextDecides(y, x, k);
    }
  }

  lemma TextBeforeOneWay(x: string, y: string)
    ensures !(TextBefore(x, y) && TextBefore(y, x)) && !TextBefore(x, x)
  {
    forall k: nat, m: nat
      | k <= |x| && k <= |y| && x[..k] == y[..k] && TextDecides(x, y, k) && m <= |x| && m <= |y| && y[..m] == x[..m]
      ensures !TextDecides(y, x, m)
    {
      if m < k { assert x[..k][m] == y[..k][m]; }
    }
  }

  /** The comparison decides exactly so. */
  lemma TextOrder(x: string, y: string)
    ensures CompareText(x, y, 0) < 0 <==> TextBefore(x, y)
    ensures CompareText(x, y, 0) > 0 <==> TextBefore(y, x)
    ensures CompareText(x, y, 0) == 0 <==> x == y
  {
    hide TextBefore;
    assert x[..0] == y[..0];
    TextFrom(x, y, 0);
    TextTie(x, y, 0);
    assert x[0..] == x && y[0..] == y;
    TextBeforeOneWay(x, y);
    hide CompareText;
  }

  /** Lexicographic order of tuples of strings, a proper prefix first. */
  function CompareTexts(x: seq<string>, y: seq<string>): (r: int)
    ensures -1 <= r <= 1
  {
    if x == [] then (if y == [] then 0 else -1)
    else if y == [] then 1
    else Then(CompareText(x[0], y[0], 0), CompareTexts(x[1..], y[1..]))
  }

  lemma {:induction false} TextsAntisymmetric(x: seq<string>, y: seq<string>)
    ensures CompareTexts(x, y) == -CompareTexts(y, x)
  {
    if x != [] && y != [] {
      TextAntisymmetric(x[0], y[0], 0);
      TextsAntisymmetric(x[1..], y[1..]);
    }
  }

  lemma {:induction false} TextsTransitive(x: seq<string>, y: seq<string>, z: seq<string>)
    requires CompareTexts(x, y) <= 0 && CompareTexts(y, z) <= 0
    ensures CompareTexts(x, z) <= 0
  {
    hide CompareText;
    if x != [] && y != [] && z != [] {
      TextTransitive(x[0], y[0], z[0], 0);
      if CompareText(x[0], y[0], 0) == 0 && CompareText(y[0], z[0], 0) == 0 {
        TextsTransitive(x[1..], y[1..], z[1..]);
      }
    }
  }
}
