/**
 Depth-first visits of a tree of sequences: from a sequence, next lists the elements that may be added
 to it. Both searches of this project visit such a tree.
 */
module TreeVisit {
  import opened Sorting

  function Append<T>(p: seq<T>, xs: seq<T>): seq<seq<T>> {
    if xs == [] then [] else [p + [xs[0]]] + Append(p, xs[1..])
  }

  /** p and all its extensions by at most h elements, each before its own extensions. */
  ghost function Visit<T>(next: seq<T> -> seq<T>, p: seq<T>, h: nat): seq<seq<T>>
    decreases h, 0
  {
    if h == 0 then [p] else [p] + VisitAll(next, Append(p, next(p)), h - 1)
  }

  ghost function VisitAll<T>(next: seq<T> -> seq<T>, ps: seq<seq<T>>, h: nat): seq<seq<T>>
    decreases h, |ps| + 1
  {
    if ps == [] then [] else Visit(next, ps[0], h) + VisitAll(next, ps[1..], h)
  }

  /** q grows from p, every added element being one that next lists at its point. */
  ghost predicate Grows<T>(next: seq<T> -> seq<T>, p: seq<T>, q: seq<T>) {
    |p| <= |q| && q[..|p|] == p && forall k :: |p| <= k < |q| ==> q[k] in next(q[..k])
  }

  ghost predicate Extends<T>(next: seq<T> -> seq<T>, p: seq<T>, h: nat, q: seq<T>) {
    |q| <= |p| + h && Grows(next, p, q)
  }

  // ----- the visit yields exactly the extensions

  lemma {:induction false} AppendMembers<T>(p: seq<T>, xs: seq<T>, q: seq<T>)
    ensures q in Append(p, xs) <==> |q| == |p| + 1 && q[..|p|] == p && q[|p|] in xs
  {
    if xs != [] {
      AppendMembers(p, xs[1..], q);
      if |q| == |p| + 1 && q[..|p|] == p { assert q == p + [q[|p|]]; }
    }
  }

  /** A longer extension of p is p or extends p with one element more. */
  lemma ExtendsThroughChild<T>(next: seq<T> -> seq<T>, p: seq<T>, h: nat, q: seq<T>)
    requires h > 0
    ensures Extends(next, p, h, q) <==> q == p || exists c :: c in Append(p, next(p)) && Extends(next, c, h - 1, q)
  {
    if Extends(next, p, h, q) && |q| > |p| {
      var c := q[..|p| + 1];
      assert q[|p|] in next(q[..|p|]);
      assert c[..|p|] == p;
      AppendMembers(p, next(p), c);
      assert Extends(next, c, h - 1, q);
    }
    forall c | c in Append(p, next(p)) && Extends(next, c, h - 1, q) ensures Extends(next, p, h, q) {
      AppendMembers(p, next(p), c);
      assert q[..|p|] == c[..|p|];
      assert q[|p|] == c[|p|];
    }
    if Extends(next, p, h, q) && |q| == |p| { assert q == p; }
  }

  lemma {:induction false} VisitMembers<T>(next: seq<T> -> seq<T>, p: seq<T>, h: nat, q: seq<T>)
    ensures q in Visit(next, p, h) <==> Extends(next, p, h, q)
    decreases h, 0
  {
    if h > 0 {
      var cs := Append(p, next(p));
      VisitAllMembers(next, cs, h - 1, q);
      ExtendsThroughChild(next, p, h, q);
      RootThenBelow(next, p, h, q);
    } else if |q| == |p| && q[..|p|] == p { assert q == p; }
  }

  lemma RootThenBelow<T>(next: seq<T> -> seq<T>, p: seq<T>, h: nat, q: seq<T>)
    requires h > 0
    ensures q in Visit(next, p, h) <==> q == p || q in VisitAll(next, Append(p, next(p)), h - 1)
  {
    hide VisitAll, Append;
  }

  lemma {:induction false} VisitAllMembers<T>(next: seq<T> -> seq<T>, ps: seq<seq<T>>, h: nat, q: seq<T>)
    ensures q in VisitAll(next, ps, h) <==> exists c :: c in ps && Extends(next, c, h, q)
    decreases h, |ps| + 1
  {
    hide Extends;
    if ps != [] {
      assert ps == [ps[0]] + ps[1..];
      VisitMembers(next, ps[0], h, q);
      VisitAllMembers(next, ps[1..], h, q);
    }
  }

  // ----- each extension is visited once exactly when no list that next gives repeats an element

  ghost predicate NeverRepeats<T(!new)>(next: seq<T> -> seq<T>, p: seq<T>, h: nat) {
    forall r :: Grows(next, p, r) && |r| < |p| + h ==> NoRepeats(next(r))
  }

  lemma {:induction false} AppendOnce<T>(p: seq<T>, xs: seq<T>)
    ensures NoRepeats(Append(p, xs)) <==> NoRepeats(xs)
    ensures |Append(p, xs)| == |xs| && forall i :: 0 <= i < |xs| ==> Append(p, xs)[i] == p + [xs[i]]
  {
    if xs != [] {
      AppendOnce(p, xs[1..]);
      var a := Append(p, xs);
      assert forall i :: 0 <= i < |xs| ==> a[i] == p + [xs[i]];
      assert forall i :: 0 <= i < |xs| ==> a[i][|p|] == xs[i];
    }
  }

  lemma GrowsThroughChild<T>(next: seq<T> -> seq<T>, p: seq<T>, c: seq<T>, r: seq<T>)
    requires c in Append(p, next(p)) && Grows(next, c, r)
    ensures Grows(next, p, r) && |c| == |p| + 1
  {
    hide Append;
    AppendMembers(p, next(p), c);
    var n := |p|;
    assert r[..n] == r[..n + 1][..n] == p;
    assert r[n] == r[..n + 1][n];
    forall k | n <= k < |r| ensures r[k] in next(r[..k]) {}
  }

  lemma ChildNeverRepeats<T(!new)>(next: seq<T> -> seq<T>, p: seq<T>, h: nat, c: seq<T>)
    requires h > 0 && NeverRepeats(next, p, h) && c in Append(p, next(p))
    ensures NeverRepeats(next, c, h - 1)
  {
    hide Append, Grows, NoRepeats;
    AppendMembers(p, next(p), c);
    forall r | Grows(next, c, r) && |r| < |c| + h - 1 ensures NoRepeats(next(r)) {
      GrowsThroughChild(next, p, c, r);
    }
  }

  lemma {:induction false} VisitOnce<T(!new)>(next: seq<T> -> seq<T>, p: seq<T>, h: nat)
    requires NeverRepeats(next, p, h)
    ensures NoRepeats(Visit(next, p, h))
    decreases h, 0
  {
    hide NeverRepeats;
    if h > 0 {
      var cs := Append(p, next(p));
      assert NoRepeats(next(p)) by { RootNeverRepeats(next, p, h); }
      AppendOnce(p, next(p));
      forall c | c in cs ensures NeverRepeats(next, c, h - 1) && |c| == |p| + 1 {
        ChildNeverRepeats(next, p, h, c);
        AppendMembers(p, next(p), c);
      }
      VisitAllOnce(next, cs, h - 1, |p| + 1);
      VisitAllMembers(next, cs, h - 1, p);
      ConcatNoRepeats([p], VisitAll(next, cs, h - 1));
    }
  }

  lemma RootNeverRepeats<T(!new)>(next: seq<T> -> seq<T>, p: seq<T>, h: nat)
    requires h > 0 && NeverRepeats(next, p, h)
    ensures NoRepeats(next(p))
  {
    assert Grows(next, p, p);
  }

  lemma {:induction false} VisitAllOnce<T(!new)>(next: seq<T> -> seq<T>, ps: seq<seq<T>>, h: nat, n: nat)
    requires NoRepeats(ps) && forall c :: c in ps ==> NeverRepeats(next, c, h) && |c| == n
    ensures NoRepeats(VisitAll(next, ps, h))
    decreases h, |ps| + 1
  {
    hide NeverRepeats;
    if ps != [] {
      assert ps == [ps[0]] + ps[1..];
      VisitOnce(next, ps[0], h);
      VisitAllOnce(next, ps[1..], h, n);
      var one, rest := Visit(next, ps[0], h), VisitAll(next, ps[1..], h);
      forall q | q in one ensures q !in rest {
        VisitMembers(next, ps[0], h, q);
        VisitAllMembers(next, ps[1..], h, q);
        assert ps[0] !in ps[1..];
      }
      ConcatNoRepeats(one, rest);
    }
  }

  lemma PartRepeats<T>(s: seq<T>, before: seq<T>, after: seq<T>)
    requires !NoRepeats(s)
    ensures !NoRepeats(before + s + after)
  {
    var i, j :| 0 <= i < j < |s| && s[i] == s[j];
    var all := before + s + after;
    assert all[|before| + i] == all[|before| + j];
  }

  /** The visit of one of the sequences is a contiguous part of the visit of all. */
  lemma {:induction false} VisitIsPart<T>(next: seq<T> -> seq<T>, ps: seq<seq<T>>, h: nat, i: nat)
    returns (before: seq<seq<T>>, after: seq<seq<T>>)
    requires i < |ps|
    ensures VisitAll(next, ps, h) == before + Visit(next, ps[i], h) + after
    ensures forall j :: i < j < |ps| ==> ps[j] in after
    decreases |ps|
  {
    if i == 0 {
      before, after := [], VisitAll(next, ps[1..], h);
      forall j | 0 < j < |ps| ensures ps[j] in after {
        VisitAllMembers(next, ps[1..], h, ps[j]);
        assert ps[1..][j - 1] == ps[j] && Extends(next, ps[j], h, ps[j]);
      }
    } else {
      var b, a := VisitIsPart(next, ps[1..], h, i - 1);
      before, after := Visit(next, ps[0], h) + b, a;
      forall j | i < j < |ps| ensures ps[j] in after { assert ps[j] == ps[1..][j - 1]; }
    }
  }

  lemma TwiceVisited<T>(next: seq<T> -> seq<T>, ps: seq<seq<T>>, h: nat)
    requires !NoRepeats(ps)
    ensures !NoRepeats(VisitAll(next, ps, h))
  {
    var i, j :| 0 <= i < j < |ps| && ps[i] == ps[j];
    var before, after := VisitIsPart(next, ps, h, i);
    var one := Visit(next, ps[i], h);
    assert one[0] == ps[i];
    var k :| 0 <= k < |after| && after[k] == ps[j];
    var all := before + one + after;
    assert all[|before|] == all[|before| + |one| + k];
  }

  lemma RepeatBelowRoot<T>(next: seq<T> -> seq<T>, p: seq<T>, h: nat)
    requires h > 0 && !NoRepeats(VisitAll(next, Append(p, next(p)), h - 1))
    ensures !NoRepeats(Visit(next, p, h))
  {
    hide VisitAll, Append;
    var all := VisitAll(next, Append(p, next(p)), h - 1);
    PartRepeats(all, [p], []);
    assert [p] + all + [] == [p] + all;
  }

  /** One repeated element below the depth makes the visit repeat a sequence. */
  lemma {:induction false} RepeatShows<T(!new)>(next: seq<T> -> seq<T>, p: seq<T>, h: nat, r: seq<T>)
    requires Grows(next, p, r) && |r| < |p| + h && !NoRepeats(next(r))
    ensures !NoRepeats(Visit(next, p, h))
    decreases h
  {
    hide Visit, VisitAll, Append, NoRepeats;
    var cs := Append(p, next(p));
    if |r| == |p| {
      assert r == p;
      AppendOnce(p, next(p));
      TwiceVisited(next, cs, h - 1);
    } else {
      ExtendsThroughChild(next, p, h, r);
      var c :| c in cs && Extends(next, c, h - 1, r);
      AppendMembers(p, next(p), c);
      RepeatShows(next, c, h - 1, r);
      var i :| 0 <= i < |cs| && cs[i] == c;
      var before, after := VisitIsPart(next, cs, h - 1, i);
      PartRepeats(Visit(next, c, h - 1), before, after);
    }
    RepeatBelowRoot(next, p, h);
  }

  /** Every extension is visited exactly once if and only if next never repeats itself below the depth. */
  lemma VisitOnceExactly<T(!new)>(next: seq<T> -> seq<T>, p: seq<T>, h: nat)
    ensures NoRepeats(Visit(next, p, h)) <==> NeverRepeats(next, p, h)
  {
    hide NoRepeats, Visit;
    if NeverRepeats(next, p, h) {
      VisitOnce(next, p, h);
    } else {
      var r :| Grows(next, p, r) && |r| < |p| + h && !NoRepeats(next(r));
      RepeatShows(next, p, h, r);
    }
  }

  // ----- the order of the visit

  /** next lists x before y behind r. */
  ghost predicate Ranks<T>(next: seq<T> -> seq<T>, r: seq<T>, x: T, y: T) {
    exists a, b :: 0 <= a < b < |next(r)| && next(r)[a] == x && next(r)[b] == y
  }

  /** Up to k the two are the same; there p ends, or goes on with what next lists first. */
  ghost predicate PartAt<T>(next: seq<T> -> seq<T>, p: seq<T>, q: seq<T>, k: nat) {
    && k <= |p| && k < |q| && p[..k] == q[..k]
    && (k < |p| ==> Ranks(next, p[..k], p[k], q[k]))
  }

  ghost predicate Precedes<T(!new)>(next: seq<T> -> seq<T>, p: seq<T>, q: seq<T>) { exists k: nat :: PartAt(next, p, q, k) }

  ghost predicate InOrder<T(!new)>(next: seq<T> -> seq<T>, s: seq<seq<T>>) {
    forall i, j :: 0 <= i < j < |s| ==> Precedes(next, s[i], s[j])
  }

  lemma ConcatInOrder<T(!new)>(next: seq<T> -> seq<T>, s: seq<seq<T>>, t: seq<seq<T>>)
    requires InOrder(next, s) && InOrder(next, t)
    requires forall p, q :: p in s && q in t ==> Precedes(next, p, q)
    ensures InOrder(next, s + t)
  {
    hide Precedes;
    var u := s + t;
    forall i, j | 0 <= i < j < |u| ensures Precedes(next, u[i], u[j]) {
      if i < |s| <= j { assert s[i] in s && t[j - |s|] in t; }
    }
  }

  /** The visit comes to each sequence before its extensions, and to extensions in the order that next lists them in. */
  lemma {:induction false} VisitInOrder<T(!new)>(next: seq<T> -> seq<T>, p: seq<T>, h: nat)
    ensures InOrder(next, Visit(next, p, h))
    decreases h, 0
  {
    hide Precedes, Append;
    if h > 0 {
      var cs := Append(p, next(p));
      BlocksInOrder(next, p, 0, h - 1);
      assert next(p)[0..] == next(p);
      var rest := VisitAll(next, cs, h - 1);
      forall q | q in rest ensures Precedes(next, p, q) { BelowRoot(next, p, next(p), h - 1, q); }
      ConcatInOrder(next, [p], rest);
    }
  }

  /** What is visited below p has p in front, and goes on with one of the elements. */
  lemma BelowRoot<T(!new)>(next: seq<T> -> seq<T>, p: seq<T>, xs: seq<T>, h: nat, q: seq<T>)
    requires q in VisitAll(next, Append(p, xs), h)
    ensures |p| < |q| && q[..|p|] == p && q[|p|] in xs && Precedes(next, p, q)
  {
    hide Append, VisitAll;
    VisitAllMembers(next, Append(p, xs), h, q);
    var c :| c in Append(p, xs) && Extends(next, c, h, q);
    AppendMembers(p, xs, c);
    assert q[..|p|] == q[..|c|][..|p|] && q[|p|] == q[..|c|][|p|];
    assert PartAt(next, p, q, |p|);
  }

  lemma {:induction false} BlocksInOrder<T(!new)>(next: seq<T> -> seq<T>, p: seq<T>, m: nat, h: nat)
    requires m <= |next(p)|
    ensures InOrder(next, VisitAll(next, Append(p, next(p)[m..]), h))
    decreases h, |next(p)| - m + 1
  {
    hide Precedes;
    var xs := next(p)[m..];
    if m < |next(p)| {
      var c, rest := p + [xs[0]], next(p)[m + 1..];
      assert xs[1..] == rest;
      assert Append(p, xs) == [c] + Append(p, rest);
      assert ([c] + Append(p, rest))[1..] == Append(p, rest);
      VisitInOrder(next, c, h);
      BlocksInOrder(next, p, m + 1, h);
      var one, others := Visit(next, c, h), VisitAll(next, Append(p, rest), h);
      forall q, r | q in one && r in others ensures Precedes(next, q, r) { BlockBefore(next, p, m, h, q, r); }
      ConcatInOrder(next, one, others);
    }
  }

  lemma BlockBefore<T(!new)>(next: seq<T> -> seq<T>, p: seq<T>, m: nat, h: nat, q: seq<T>, r: seq<T>)
    requires m < |next(p)| && q in Visit(next, p + [next(p)[m]], h)
    requires r in VisitAll(next, Append(p, next(p)[m + 1..]), h)
    ensures Precedes(next, q, r)
  {
    hide Append, VisitAll, Visit;
    VisitMembers(next, p + [next(p)[m]], h, q);
    assert q[..|p|] == q[..|p| + 1][..|p|] == p && q[|p|] == q[..|p| + 1][|p|];
    BelowRoot(next, p, next(p)[m + 1..], h, r);
    var j :| 0 <= j < |next(p)[m + 1..]| && next(p)[m + 1..][j] == r[|p|];
    assert next(p)[m + 1 + j] == r[|p|];
    assert Ranks(next, p, q[|p|], r[|p|]);
    assert PartAt(next, q, r, |p|);
  }
}
