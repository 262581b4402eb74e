/** Debian and RPM versions: epoch, upstream version and revision, compared in that order. */
module Evr {
  import opened Text
  import opened Order
  import Debian
  import Rpm

  datatype Scheme = Deb | RpmScheme

  datatype Evr = Evr(epoch: nat, upstream: string, revision: string)

  /** The first position at or after i that holds c, or the length of s. */
  function FirstIndex(s: string, c: char, i: nat): (p: nat)
    requires i <= |s|
    ensures i <= p <= |s| && (p < |s| ==> s[p] == c)
    ensures forall m :: i <= m < p ==> s[m] != c
    decreases |s| - i
  {
    if i == |s| || s[i] == c then i else FirstIndex(s, c, i + 1)
  }

  /** One past the last position before n that holds c, or 0. */
  function AfterLast(s: string, c: char, n: nat): (p: nat)
    requires n <= |s|
    ensures p <= n && (p > 0 ==> s[p - 1] == c)
    ensures forall m :: p <= m < n ==> s[m] != c
  {
    if n == 0 || s[n - 1] == c then n else AfterLast(s, c, n - 1)
  }

  function SplitRevision(epoch: nat, text: string): Evr {
    var p := AfterLast(text, '-', |text|);
    if p == 0 then Evr(epoch, text, "") else Evr(epoch, text[..p - 1], text[p..])
  }

  function Parse(raw: string): Evr {
    var text := Strip(raw);
    var c := FirstIndex(text, ':', 0);
    if c < |text| && IsNumeric(text[..c]) then SplitRevision(Num(text[..c], 0, c), text[c + 1..])
    else SplitRevision(0, text)
  }

  /** A version without colon, dash or surrounding space is all upstream. */
  lemma ParsePlain(v: string)
    requires Strip(v) == v && ':' !in v && '-' !in v
    ensures Parse(v) == Evr(0, v, "")
  {
    var c := FirstIndex(v, ':', 0);
    var p := AfterLast(v, '-', |v|);
  }

  lemma SplitAtLastDash(epoch: nat, u: string, r: string)
    requires '-' !in r
    ensures SplitRevision(epoch, u + "-" + r) == Evr(epoch, u, r)
  {
    var t := u + "-" + r;
    var p := AfterLast(t, '-', |t|);
    assert t[|u|] == '-';
    assert forall m :: |u| < m < |t| ==> t[m] == r[m - |u| - 1];
    assert t[..|u|] == u && t[|u| + 1..] == r;
  }

  /** The epoch is what precedes the first colon, the revision what follows the last dash. */
  lemma ParseFull(raw: string, e: string, u: string, r: string)
    requires IsNumeric(e) && '-' !in r && Strip(raw) == e + ":" + (u + "-" + r)
    ensures Parse(raw) == Evr(Num(e, 0, |e|), u, r)
  {
    hide SplitRevision, Strip;
    var text, tail := Strip(raw), u + "-" + r;
    var c := FirstIndex(text, ':', 0);
    assert text[|e|] == ':';
    assert forall m :: 0 <= m < |e| ==> text[m] == e[m] && Is(Digit, e[m]);
    assert text[..|e|] == e && text[|e| + 1..] == tail;
    SplitAtLastDash(Num(e, 0, |e|), u, r);
  }

  /** Without a dash there is no revision, without a number before the first colon no epoch. */
  lemma ParsePartly(raw: string, e: string, u: string, r: string)
    ensures IsNumeric(e) && '-' !in u && Strip(raw) == e + ":" + u ==> Parse(raw) == Evr(Num(e, 0, |e|), u, "")
    ensures ':' !in u && '-' !in r && ':' !in r && Strip(raw) == u + "-" + r ==> Parse(raw) == Evr(0, u, r)
    ensures !IsNumeric(e) && ':' !in e && '-' !in u && '-' !in e && Strip(raw) == e + ":" + u ==>
              Parse(raw) == Evr(0, e + ":" + u, "")
  {
    hide Strip, SplitRevision, IsNumeric, Num;
    if IsNumeric(e) && '-' !in u && Strip(raw) == e + ":" + u {
      NumericHasNoColon(e);
      ColonAt(e, u);
      NoRevision(Num(e, 0, |e|), u);
    }
    if ':' !in u && '-' !in r && ':' !in r && Strip(raw) == u + "-" + r {
      NoColon(u + "-" + r);
      SplitAtLastDash(0, u, r);
    }
    if !IsNumeric(e) && ':' !in e && '-' !in u && '-' !in e && Strip(raw) == e + ":" + u {
      ColonAt(e, u);
      NoRevision(0, e + ":" + u);
    }
  }

  lemma NumericHasNoColon(e: string)
    requires IsNumeric(e)
    ensures ':' !in e
  {
    assert forall m :: 0 <= m < |e| ==> Is(Digit, e[m]);
  }

  lemma ColonAt(e: string, u: string)
    requires ':' !in e
    ensures var t := e + ":" + u; FirstIndex(t, ':', 0) == |e| < |t| && t[..|e|] == e && t[|e| + 1..] == u
  {
    var t := e + ":" + u;
    assert t[|e|] == ':';
    assert forall m :: 0 <= m < |e| ==> t[m] == e[m];
  }

  lemma NoColon(t: string)
    requires ':' !in t
    ensures FirstIndex(t, ':', 0) == |t|
  {
    var c := FirstIndex(t, ':', 0);
  }

  lemma NoRevision(epoch: nat, t: string)
    requires '-' !in t
    ensures SplitRevision(epoch, t) == Evr(epoch, t, "")
  {
    var p := AfterLast(t, '-', |t|);
  }

  /** The distribution's own comparison of one part. */
  function ComparePart(s: Scheme, a: string, b: string): (r: int)
    ensures -1 <= r <= 1
  {
    if s.Deb? then Debian.Compare(Debian.Parse(a, 0), Debian.Parse(b, 0))
    else Rpm.Compare(Rpm.Parse(a, 0), Rpm.Parse(b, 0))
  }

  function Compare(s: Scheme, x: Evr, y: Evr): (r: int)
    ensures -1 <= r <= 1
  {
    Then(Sign(x.epoch - y.epoch),
         Then(ComparePart(s, x.upstream, y.upstream), ComparePart(s, x.revision, y.revision)))
  }

  /** The comparison as the source makes it: the loops run, and the revisions only break ties. */
  method CompareByLoops(s: Scheme, x: Evr, y: Evr) returns (r: int)
    ensures r == Compare(s, x, y)
  {
    if x.epoch != y.epoch { return if x.epoch < y.epoch then -1 else 1; }
    if s.Deb? { r := Debian.ComparePart(x.upstream, y.upstream); }
    else { r := Rpm.ComparePart(x.upstream, y.upstream); }
    if r != 0 { return; }
    if s.Deb? { r := Debian.ComparePart(x.revision, y.revision); }
    else { r := Rpm.ComparePart(x.revision, y.revision); }
  }

  lemma PartAntisymmetric(s: Scheme, a: string, b: string)
    ensures ComparePart(s, a, b) == -ComparePart(s, b, a)
  {
    Debian.Antisymmetric(Debian.Parse(a, 0), Debian.Parse(b, 0));
    Rpm.Antisymmetric(Rpm.Parse(a, 0), Rpm.Parse(b, 0));
  }

  lemma PartTransitive(s: Scheme, a: string, b: string, c: string)
    requires ComparePart(s, a, b) <= 0 && ComparePart(s, b, c) <= 0
    ensures ComparePart(s, a, c) <= 0
    ensures ComparePart(s, a, b) < 0 || ComparePart(s, b, c) < 0 ==> ComparePart(s, a, c) < 0
  {
    hide ComparePart;
    PartWeaklyTransitive(s, a, b, c);
    PartAntisymmetric(s, a, b);
    PartAntisymmetric(s, b, c);
    PartAntisymmetric(s, a, c);
    if ComparePart(s, a, c) == 0 {
      PartWeaklyTransitive(s, c, a, b);
      PartWeaklyTransitive(s, b, c, a);
    }
  }

  lemma PartWeaklyTransitive(s: Scheme, a: string, b: string, c: string)
    ensures ComparePart(s, a, b) <= 0 && ComparePart(s, b, c) <= 0 ==> ComparePart(s, a, c) <= 0
  {
    hide Debian.Compare, Debian.Parse, Rpm.Compare, Rpm.Parse;
    if ComparePart(s, a, b) <= 0 && ComparePart(s, b, c) <= 0 {
      if s.Deb? { Debian.Transitive(Debian.Parse(a, 0), Debian.Parse(b, 0), Debian.Parse(c, 0)); }
      else { Rpm.Transitive(Rpm.Parse(a, 0), Rpm.Parse(b, 0), Rpm.Parse(c, 0)); }
    }
  }

  lemma Antisymmetric(s: Scheme, x: Evr, y: Evr)
    ensures Compare(s, x, y) == -Compare(s, y, x)
  {
    hide ComparePart;
    PartAntisymmetric(s, x.upstream, y.upstream);
    PartAntisymmetric(s, x.revision, y.revision);
  }

  lemma Transitive(s: Scheme, x: Evr, y: Evr, z: Evr)
    requires Compare(s, x, y) <= 0 && Compare(s, y, z) <= 0
    ensures Compare(s, x, z) <= 0
  {
    hide ComparePart;
    if x.epoch == y.epoch == z.epoch {
      PartTransitive(s, x.upstream, y.upstream, z.upstream);
      if ComparePart(s, x.upstream, y.upstream) == 0 && ComparePart(s, y.upstream, z.upstream) == 0 {
        PartTransitive(s, x.revision, y.revision, z.revision);
      }
    }
  }
}
