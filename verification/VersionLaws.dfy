/** What the public comparison decides, ecosystem by ecosystem, in terms of what a version says. */
module VersionLaws {
  import opened Options
  import opened Text
  import opened Order
  import opened VersionKeys
  import opened Versioning
  import Evr
  import Debian
  import Rpm

  // ----- PEP 440

  ghost predicate PostBefore(x: Option<nat>, y: Option<nat>) {
    y.Some? && (x.None? || x.value < y.value)
  }

  ghost predicate DevBefore(x: Option<nat>, y: Option<nat>) {
    x.Some? && (y.None? || x.value < y.value)
  }

  /** By normalised letter as text, then by number. */
  ghost predicate PreBefore(x: (string, nat), y: (string, nat)) {
    TextBefore(x.0, y.0) || (x.0 == y.0 && x.1 < y.1)
  }

  /** Within one epoch and release: by phase, then pre-release letter and number, then post, then dev number. */
  ghost predicate SegmentsBefore(m: Pep440, n: Pep440) {
    var a, b := NormalPre(m), NormalPre(n);
    || PhaseRank(PhaseOf(m)) < PhaseRank(PhaseOf(n))
    || (PhaseOf(m) == PhaseOf(n)
        && ((a.Some? && b.Some? && PreBefore(a.value, b.value))
            || (a == b && PostBefore(m.post, n.post))
            || (a == b && m.post == n.post && DevBefore(m.dev, n.dev))))
  }

  /** The order of PEP 440 ("Summary of permitted suffixes and relative ordering"). */
  ghost predicate Pep440Before(m: Pep440, n: Pep440) {
    || m.epoch < n.epoch
    || (m.epoch == n.epoch && ComparePadded(m.release, n.release) < 0)
    || (m.epoch == n.epoch && ComparePadded(m.release, n.release) == 0 && SegmentsBefore(m, n))
  }

  lemma PostOrder(x: Option<nat>, y: Option<nat>)
    ensures var a := if x.None? then NoPost else Post(x.value);
            var b := if y.None? then NoPost else Post(y.value);
            Sign(PostWeight(a) - PostWeight(b)) == if PostBefore(x, y) then -1 else if x == y then 0 else 1
  {}

  lemma DevOrder(x: Option<nat>, y: Option<nat>)
    ensures var a := if x.None? then NoDev else Dev(x.value);
            var b := if y.None? then NoDev else Dev(y.value);
            CompareDev(a, b) == if DevBefore(x, y) then -1 else if x == y then 0 else 1
  {}

  lemma PreOrder(m: Pep440, n: Pep440)
    requires PhaseOf(m) == PhaseOf(n)
    ensures var a, b := NormalPre(m), NormalPre(n);
            ComparePre(Pep440Key(m).pre, Pep440Key(n).pre) ==
              Some(if a.None? || a == b then 0 else if PreBefore(a.value, b.value) then -1 else 1)
    ensures NormalPre(m).Some? <==> NormalPre(n).Some?
  {
    hide CompareText, TextBefore, LowerAll, PreLetter;
    if m.pre.Some? && n.pre.Some? {
      var x, y := NormalPre(m).value, NormalPre(n).value;
      TextOrder(x.0, y.0);
    }
  }

  lemma KeyOrder(m: Pep440, n: Pep440)
    requires m.release != [] && n.release != []
    ensures CompareKey(Pep440Key(m), Pep440Key(n)).Some?
    ensures CompareKey(Pep440Key(m), Pep440Key(n)).value < 0 <==> Pep440Before(m, n)
  {
    EpochThenRelease(m, n);
    if m.epoch == n.epoch && ComparePadded(m.release, n.release) == 0 {
      TrimmedOrderIsPaddedOrder(m.release, n.release);
      LexTie(Trimmed(m.release), Trimmed(n.release));
      if PhaseRank(PhaseOf(m)) < PhaseRank(PhaseOf(n)) {
        PhasesAreOrdered(m, n);
      } else if PhaseRank(PhaseOf(n)) < PhaseRank(PhaseOf(m)) {
        PhasesAreOrdered(n, m);
        KeyAntisymmetric(Pep440Key(n), Pep440Key(m));
      } else {
        SamePhase(m, n);
      }
    }
    hide CompareLex, ComparePadded, Trimmed;
  }

  lemma SamePhase(m: Pep440, n: Pep440)
    requires m.epoch == n.epoch && Trimmed(m.release) == Trimmed(n.release) && PhaseOf(m) == PhaseOf(n)
    ensures CompareKey(Pep440Key(m), Pep440Key(n)).Some?
    ensures CompareKey(Pep440Key(m), Pep440Key(n)).value < 0 <==> SegmentsBefore(m, n)
  {
    PreOrder(m, n);
    PostOrder(m.post, n.post);
    DevOrder(m.dev, n.dev);
    LexTie(Trimmed(m.release), Trimmed(n.release));
    hide ComparePre, CompareDev, CompareLex, Trimmed, PreBefore, PostBefore, DevBefore, LowerAll, PreLetter;
  }

  /** Alpha, then beta, then release candidates, however each is spelled, whatever their numbers. */
  lemma PreReleasesAreOrdered(m: Pep440, n: Pep440)
    requires m.epoch == n.epoch && ComparePadded(m.release, n.release) == 0 && m.pre.Some? && n.pre.Some?
    requires (m.pre.value.0 in {"a", "alpha"} && n.pre.value.0 in {"b", "beta", "c", "rc", "pre", "preview"})
          || (m.pre.value.0 in {"b", "beta"} && n.pre.value.0 in {"c", "rc", "pre", "preview"})
    ensures Pep440Before(m, n)
  {
    hide ComparePadded, TextBefore;
    LowerSpellings();
    LettersInOrder();
  }

  lemma LettersInOrder()
    ensures TextBefore("a", "b") && TextBefore("a", "rc") && TextBefore("b", "rc")
  {
    TextFirst("a", "b");
    TextFirst("a", "rc");
    TextFirst("b", "rc");
  }

  lemma TextFirst(x: string, y: string)
    requires x != "" && y != "" && x[0] < y[0]
    ensures TextBefore(x, y)
  {
    assert x[..0] == y[..0] && TextDecides(x, y, 0);
  }

  lemma LowerSpellings()
    ensures forall s :: s in {"a", "alpha", "b", "beta", "c", "rc", "pre", "preview"} ==> LowerAll(s) == s
  {
    forall s | s in {"a", "alpha", "b", "beta", "c", "rc", "pre", "preview"} ensures LowerAll(s) == s { LowerOfLower(s); }
  }

  lemma LowerOfLower(s: string)
    requires forall m :: 0 <= m < |s| ==> !('A' <= s[m] <= 'Z')
    ensures LowerAll(s) == s
  {}

  lemma PypiKeyOf(p: Patterns, a: string)
    requires !Blank(a) && p.pep440(Strip(a)).Some?
    ensures KeyOf(p, a, Pypi) == Tuple(Pep440Key(p.pep440(Strip(a)).value))
  {
    hide Strip, WithoutIncompatible, SemVerKey, GenericKey, Pep440Key, Evr.Parse;
  }

  /** Two versions that match PEP 440 compare as PEP 440 orders them. */
  lemma PypiOrder(p: Patterns, a: string, b: string)
    requires !Blank(a) && !Blank(b) && p.pep440(Strip(a)).Some? && p.pep440(Strip(b)).Some?
    ensures Compare(p, a, b, Pypi) < 0 <==> Pep440Before(p.pep440(Strip(a)).value, p.pep440(Strip(b)).value)
  {
    hide KeyOf, CompareKey, Pep440Key, Pep440Before, Strip, Blank, GenericKey;
    PypiKeyOf(p, a);
    PypiKeyOf(p, b);
    KeyOrder(p.pep440(Strip(a)).value, p.pep440(Strip(b)).value);
  }

  // ----- SemVer

  /** Numeric identifiers by value, below all others; others by text, case aside. */
  ghost predicate IdentBefore(p: string, q: string) {
    || (IsNumeric(p) && IsNumeric(q) && Num(p, 0, |p|) < Num(q, 0, |q|))
    || (IsNumeric(p) && !IsNumeric(q))
    || (!IsNumeric(p) && !IsNumeric(q) && TextBefore(LowerAll(p), LowerAll(q)))
  }

  predicate SameIdent(p: string, q: string) {
    || (IsNumeric(p) && IsNumeric(q) && Num(p, 0, |p|) == Num(q, 0, |q|))
    || (!IsNumeric(p) && !IsNumeric(q) && LowerAll(p) == LowerAll(q))
  }

  lemma IdentOrder(p: string, q: string)
    ensures CompareIdent(IdentOf(p), IdentOf(q)) < 0 <==> IdentBefore(p, q)
    ensures CompareIdent(IdentOf(p), IdentOf(q)) == 0 <==> SameIdent(p, q)
  {
    hide Num, IsNumeric, LowerAll, TextBefore, CompareText;
    IdentifierPrecedence(p, q);
    IdentifierPrecedence(q, p);
    IdentAntisymmetric(IdentOf(p), IdentOf(q));
    TextOrder(LowerAll(p), LowerAll(q));
  }

  /** The first identifier that differs decides, and with none the longer list is later. */
  ghost predicate IdentsBefore(x: seq<string>, y: seq<string>)
    decreases |x|
  {
    y != [] && (x == [] || IdentBefore(x[0], y[0]) || (SameIdent(x[0], y[0]) && IdentsBefore(x[1..], y[1..])))
  }

  function IdentsOf(x: seq<string>): seq<Ident> { seq(|x|, i requires 0 <= i < |x| => IdentOf(x[i])) }

  lemma {:induction false} IdentsOrder(x: seq<string>, y: seq<string>)
    ensures CompareIdents(IdentsOf(x), IdentsOf(y)) < 0 <==> IdentsBefore(x, y)
  {
    hide IdentOf, CompareIdent, IdentBefore, SameIdent;
    if x != [] && y != [] {
      assert IdentsOf(x)[1..] == IdentsOf(x[1..]) && IdentsOf(y)[1..] == IdentsOf(y[1..]);
      IdentOrder(x[0], y[0]);
      IdentsOrder(x[1..], y[1..]);
    }
  }

  /** Section 11 of SemVer 2.0.0, with identifiers compared without regard to case. */
  ghost predicate SemVerBefore(m: SemVer, n: SemVer) {
    || ComparePadded(m.release, n.release) < 0
    || (ComparePadded(m.release, n.release) == 0 && m.pre.Some?
        && (n.pre.None? || IdentsBefore(m.pre.value, n.pre.value)))
  }

  lemma SemVerKeyOrder(m: SemVer, n: SemVer)
    requires m.release != [] && n.release != []
    ensures CompareKey(SemVerKey(m), SemVerKey(n)).Some?
    ensures CompareKey(SemVerKey(m), SemVerKey(n)).value < 0 <==> SemVerBefore(m, n)
  {
    TrimmedOrderIsPaddedOrder(m.release, n.release);
    hide CompareLex, ComparePadded, Trimmed, IdentsBefore, IdentOf;
    PreIdents(m.pre, n.pre);
  }

  lemma PreIdents(x: Option<seq<string>>, y: Option<seq<string>>)
    ensures ComparePre(SemVerPre(x), SemVerPre(y)).Some?
    ensures ComparePre(SemVerPre(x), SemVerPre(y)).value < 0 <==> x.Some? && (y.None? || IdentsBefore(x.value, y.value))
  {
    assert forall s :: !IdentOf(s).Top?;
    hide IdentsBefore, IdentOf;
    SoleIdents(Top, Top);
    if x.Some? && y.Some? {
      assert SemVerPre(x).ids == IdentsOf(x.value) && SemVerPre(y).ids == IdentsOf(y.value);
      IdentsOrder(x.value, y.value);
    }
  }

  /** Two versions that match SemVer compare as SemVer orders them, in all of its ecosystems. */
  lemma SemVerOrder(p: Patterns, a: string, b: string, eco: Ecosystem)
    requires eco in {Npm, SemVerEco, Go, NuGet, RubyGems} && !Blank(a) && !Blank(b)
    requires p.semver(WithoutIncompatible(Strip(a))).Some? && p.semver(WithoutIncompatible(Strip(b))).Some?
    ensures Compare(p, a, b, eco) < 0 <==>
              SemVerBefore(p.semver(WithoutIncompatible(Strip(a))).value, p.semver(WithoutIncompatible(Strip(b))).value)
  {
    hide KeyOf, CompareKey, SemVerKey, SemVerBefore, Strip, WithoutIncompatible, Blank, GenericKey;
    SemVerKeyOf(p, a, eco);
    SemVerKeyOf(p, b, eco);
    SemVerKeyOrder(p.semver(WithoutIncompatible(Strip(a))).value, p.semver(WithoutIncompatible(Strip(b))).value);
  }

  lemma SemVerKeyOf(p: Patterns, a: string, eco: Ecosystem)
    requires eco in {Npm, SemVerEco, Go, NuGet, RubyGems} && !Blank(a) && p.semver(WithoutIncompatible(Strip(a))).Some?
    ensures KeyOf(p, a, eco) == Tuple(SemVerKey(p.semver(WithoutIncompatible(Strip(a))).value))
  {
    hide Strip, WithoutIncompatible, SemVerKey, GenericKey, Pep440Key, Evr.Parse;
  }

  /** Go's suffix is dropped in any spelling of its case, and nothing else is. */
  lemma IncompatibleIsDropped(s: string, t: string)
    ensures LowerAll(t) == "+incompatible" ==> WithoutIncompatible(s + t) == s
    ensures WithoutIncompatible(s) == s || LowerAll(s) == LowerAll(WithoutIncompatible(s)) + "+incompatible"
  {
    if LowerAll(t) == "+incompatible" {
      assert |t| == |INCOMPATIBLE|;
      assert LowerAll(s + t)[|s|..] == LowerAll(t);
      assert (s + t)[..|s|] == s;
    }
    var n := |s| - |INCOMPATIBLE|;
    if n >= 0 { assert LowerAll(s) == LowerAll(s[..n]) + LowerAll(s)[n..]; }
  }

  // ----- Maven

  /** No number at all is below any; else numbers with zeros for missing ones. */
  ghost predicate NumbersBefore(u: seq<nat>, v: seq<nat>) {
    v != [] && (u == [] || ComparePadded(u, v) < 0)
  }

  ghost predicate NumbersTie(u: seq<nat>, v: seq<nat>) {
    (u == [] <==> v == []) && (u != [] && v != [] ==> ComparePadded(u, v) == 0)
  }

  lemma NumbersOrder(u: seq<nat>, v: seq<nat>)
    ensures CompareLex(Trimmed(u), Trimmed(v)) < 0 <==> NumbersBefore(u, v)
    ensures CompareLex(Trimmed(u), Trimmed(v)) == 0 <==> NumbersTie(u, v)
  {
    if u != [] && v != [] { TrimmedOrderIsPaddedOrder(u, v); }
    hide ComparePadded;
  }

  /** Maven versions: the numbers first, then the qualifier. */
  lemma MavenOrder(p: Patterns, a: string, b: string)
    requires !Blank(a) && !Blank(b)
    ensures var (u, x) := p.maven(Strip(a));
            var (v, y) := p.maven(Strip(b));
            Compare(p, a, b, Maven) < 0 <==> NumbersBefore(u, v) || (NumbersTie(u, v) && CompareIdent(x, y) < 0)
  {
    hide Strip, CompareLex, Trimmed, NumbersBefore, NumbersTie, CompareIdent;
    var (u, x) := p.maven(Strip(a));
    var (v, y) := p.maven(Strip(b));
    NumbersOrder(u, v);
    var k, l := Key(0, Trimmed(u), Idents([x]), NoPost, NoDev), Key(0, Trimmed(v), Idents([y]), NoPost, NoDev);
    assert KeyOf(p, a, Maven) == Tuple(k) && KeyOf(p, b, Maven) == Tuple(l);
    SoleIdents(x, y);
    assert CompareKey(k, l) == Some(Then(CompareLex(Trimmed(u), Trimmed(v)), CompareIdent(x, y)));
  }

  lemma SoleIdents(x: Ident, y: Ident)
    ensures CompareIdents([x], [y]) == CompareIdent(x, y)
  {
    hide CompareIdent;
    assert [x][1..] == [] && [y][1..] == [];
  }

  // ----- Debian and RPM

  /** Epoch, then upstream version, then revision, each part by the distribution's own loop. */
  lemma DistributionOrder(p: Patterns, a: string, b: string, eco: Ecosystem,
                          e: string, u: string, r: string, f: string, v: string, s: string)
    requires IsDistribution(eco) && IsNumeric(e) && IsNumeric(f) && '-' !in r && '-' !in s
    requires Strip(a) == e + ":" + (u + "-" + r) && Strip(b) == f + ":" + (v + "-" + s)
    ensures Compare(p, a, b, eco) ==
              if Num(e, 0, |e|) != Num(f, 0, |f|) then Sign(Num(e, 0, |e|) - Num(f, 0, |f|))
              else if PartOrder(eco, u, v) != 0 then PartOrder(eco, u, v)
              else PartOrder(eco, r, s)
  {
    hide Strip, Num, IsNumeric, KeyOf, Debian.Compare, Debian.Parse, Rpm.Compare, Rpm.Parse, Evr.Parse;
    KeyShape(p, a, eco);
    KeyShape(p, b, eco);
    StripTwice(a);
    StripTwice(b);
    Evr.ParseFull(Strip(a), e, u, r);
    Evr.ParseFull(Strip(b), f, v, s);
  }

  function PartOrder(eco: Ecosystem, u: string, v: string): int {
    if eco.DebianEco? then Debian.Compare(Debian.Parse(u, 0), Debian.Parse(v, 0))
    else Rpm.Compare(Rpm.Parse(u, 0), Rpm.Parse(v, 0))
  }

  lemma StripTwice(s: string)
    ensures Strip(Strip(s)) == Strip(s)
  {
    var from := StripExactly(s);
    if Strip(s) != "" { NothingToStrip(Strip(s)); } else { NothingInEmpty(); }
  }

  lemma NothingInEmpty()
    ensures Strip("") == ""
  {}

  /** Without colon and dash a version is all upstream. */
  lemma PlainOrder(p: Patterns, a: string, b: string, eco: Ecosystem)
    requires IsDistribution(eco) && !Blank(a) && !Blank(b)
    requires ':' !in Strip(a) && '-' !in Strip(a) && ':' !in Strip(b) && '-' !in Strip(b)
    ensures Compare(p, a, b, eco) ==
              if PartOrder(eco, Strip(a), Strip(b)) != 0 then PartOrder(eco, Strip(a), Strip(b)) else PartOrder(eco, "", "")
  {
    hide Strip, KeyOf, Debian.Compare, Debian.Parse, Rpm.Compare, Rpm.Parse, Evr.Parse;
    KeyShape(p, a, eco);
    KeyShape(p, b, eco);
    StripTwice(a);
    StripTwice(b);
    Evr.ParsePlain(Strip(a));
    Evr.ParsePlain(Strip(b));
  }

  // ----- versions of no known kind, and those that match no pattern

  /** The token of s from t to e. */
  function TokenOf(s: string, t: nat, e: nat): Ident
    requires t < e <= |s| && (IsDigit(s[t]) ==> All(s, t, e, Digit))
  {
    if IsDigit(s[t]) then Ident(0, Num(s, t, e), "") else Ident(1, 0, s[t..e])
  }

  lemma RunsStep(s: string, i: nat, t: nat)
    requires i <= t <= |s| && t == RunEnd(s, i, NonAlnum)
    ensures t == |s| ==> Runs(s, i) == []
    ensures t < |s| ==>
              var e := RunEnd(s, t, if IsDigit(s[t]) then Digit else Alpha);
              e > t && Runs(s, i) == [TokenOf(s, t, e)] + Runs(s, e)
  {
    hide Num;
  }

  lemma SameTokenBehind(s: string, cut: nat, t: nat, e: nat)
    requires cut <= t < e <= |s| && (IsDigit(s[t]) ==> All(s, t, e, Digit))
    ensures s[cut..][t - cut] == s[t] && (IsDigit(s[t]) ==> All(s[cut..], t - cut, e - cut, Digit))
    ensures TokenOf(s[cut..], t - cut, e - cut) == TokenOf(s, t, e)
  {
    var w := s[cut..];
    if IsDigit(s[t]) { SameDigits(s, w, t, t - cut, e - t); } else { assert w[t - cut..e - cut] == s[t..e]; }
  }

  lemma {:induction false} RunsBehind(s: string, cut: nat, i: nat)
    requires cut <= i <= |s|
    ensures Runs(s[cut..], i - cut) == Runs(s, i)
    decreases |s| - i
  {
    hide RunEnd, Runs, TokenOf;
    var w := s[cut..];
    var t := RunEnd(s, i, NonAlnum);
    RunBehind(s, cut, i, NonAlnum);
    RunsStep(s, i, t);
    RunsStep(w, i - cut, t - cut);
    if t < |s| {
      assert w[t - cut] == s[t];
      var c := if IsDigit(s[t]) then Digit else Alpha;
      RunBehind(s, cut, t, c);
      var e := RunEnd(s, t, c);
      SameTokenBehind(s, cut, t, e);
      RunsBehind(s, cut, e);
    }
  }

  /** The tokens of a text that starts with a number, a word or separators are those of it, then those of the rest. */
  lemma TokensAdd(x: string, v: string)
    requires x != ""
    ensures IsNumeric(x) && (v == "" || !IsDigit(v[0])) ==> Runs(x + v, 0) == [Ident(0, Num(x, 0, |x|), "")] + Runs(v, 0)
    ensures All(x, 0, |x|, Alpha) && (v == "" || !IsAlpha(v[0])) ==> Runs(x + v, 0) == [Ident(1, 0, x)] + Runs(v, 0)
    ensures All(x, 0, |x|, NonAlnum) ==> Runs(x + v, 0) == Runs(v, 0)
  {
    hide Num, RunEnd, Runs;
    var w := x + v;
    assert w[|x|..] == v;
    RunsBehind(w, |x|, |x|);
    if IsNumeric(x) && (v == "" || !IsDigit(v[0])) { FirstNumber(x, v); }
    if All(x, 0, |x|, Alpha) && (v == "" || !IsAlpha(v[0])) { FirstWord(x, v); }
    if All(x, 0, |x|, NonAlnum) { FirstSeparators(x, v); }
  }

  lemma FirstNumber(x: string, v: string)
    requires IsNumeric(x) && (v == "" || !IsDigit(v[0]))
    ensures Runs(x + v, 0) == [Ident(0, Num(x, 0, |x|), "")] + Runs(x + v, |x|)
  {
    hide Num, RunEnd, Runs, IsNumeric;
    var w := x + v;
    NumberAtFront(x, v);
    RunsStep(w, 0, 0);
    assert TokenOf(w, 0, |x|) == Ident(0, Num(x, 0, |x|), "");
  }

  lemma NumberAtFront(x: string, v: string)
    requires IsNumeric(x) && (v == "" || !IsDigit(v[0]))
    ensures var w := x + v;
            && x != "" && IsDigit(w[0]) && RunEnd(w, 0, NonAlnum) == 0 && RunEnd(w, 0, Digit) == |x|
            && Num(w, 0, |x|) == Num(x, 0, |x|)
  {
    hide Num, IsNumeric, All;
    var w := x + v;
    RunAtFront(x, v);
    SameDigits(x, w, 0, 0, |x|);
  }

  lemma RunAtFront(x: string, v: string)
    requires IsNumeric(x) && (v == "" || !IsDigit(v[0]))
    ensures var w := x + v;
            && x != "" && IsDigit(w[0]) && RunEnd(w, 0, NonAlnum) == 0 && RunEnd(w, 0, Digit) == |x|
            && forall m :: 0 <= m < |x| ==> x[m] == w[m - 0 + 0]
  {
    var w := x + v;
    forall m | 0 <= m < |x| ensures Is(Digit, w[m]) && x[m] == w[m - 0 + 0] { assert Is(Digit, x[m]); }
    RunEndIs(w, 0, Digit, |x|);
    assert Is(Digit, w[0]);
    RunEndIs(w, 0, NonAlnum, 0);
  }

  lemma FirstWord(x: string, v: string)
    requires x != "" && All(x, 0, |x|, Alpha) && (v == "" || !IsAlpha(v[0]))
    ensures Runs(x + v, 0) == [Ident(1, 0, x)] + Runs(x + v, |x|)
  {
    hide Num, RunEnd, Runs;
    var w := x + v;
    WordAtFront(x, v);
    RunsStep(w, 0, 0);
    assert TokenOf(w, 0, |x|) == Ident(1, 0, x);
  }

  lemma WordAtFront(x: string, v: string)
    requires x != "" && All(x, 0, |x|, Alpha) && (v == "" || !IsAlpha(v[0]))
    ensures var w := x + v;
            !IsDigit(w[0]) && RunEnd(w, 0, NonAlnum) == 0 && RunEnd(w, 0, Alpha) == |x| && w[0..|x|] == x
  {
    var w := x + v;
    forall m | 0 <= m < |x| ensures Is(Alpha, w[m]) { assert Is(Alpha, x[m]) && w[m] == x[m]; }
    RunEndIs(w, 0, Alpha, |x|);
    assert Is(Alpha, w[0]);
    RunEndIs(w, 0, NonAlnum, 0);
  }

  lemma FirstSeparators(x: string, v: string)
    requires All(x, 0, |x|, NonAlnum)
    ensures Runs(x + v, 0) == Runs(x + v, |x|)
  {
    var w := x + v;
    var t := RunEnd(w, |x|, NonAlnum);
    forall m | 0 <= m < t ensures Is(NonAlnum, w[m]) {
      if m < |x| { assert Is(NonAlnum, x[m]) && w[m] == x[m]; } else { assert Is(NonAlnum, w[m]); }
    }
    RunEndIs(w, 0, NonAlnum, t);
  }

  /** Numbers by value, words by text, and any number below any word. */
  lemma TokenOrder(m: nat, n: nat, x: string, y: string)
    ensures CompareIdent(Ident(0, m, ""), Ident(0, n, "")) == Sign(m - n)
    ensures CompareIdent(Ident(0, m, ""), Ident(1, 0, x)) == -1
    ensures CompareIdent(Ident(1, 0, x), Ident(1, 0, y)) < 0 <==> TextBefore(x, y)
  {
    hide CompareText, TextBefore;
    TextOrder(x, y);
    TextOrder("", "");
  }

  /** What a text without a pattern goes by: its tokens in lower case, or all of it when there is none. */
  function TokensOf(s: string): seq<Ident> {
    var text := LowerAll(Strip(s));
    if Runs(text, 0) == [] then [Ident(1, 0, text)] else Runs(text, 0)
  }

  /** Where neither version has a pattern to match, the tokens decide one by one. */
  lemma TokensDecide(p: Patterns, a: string, b: string, eco: Ecosystem)
    requires eco.Generic? || (eco.Pypi? && p.pep440(Strip(a)).None? && p.pep440(Strip(b)).None?)
    requires !Blank(a) && !Blank(b)
    ensures Compare(p, a, b, eco) == CompareIdents(TokensOf(a), TokensOf(b))
  {
    hide Runs, CompareIdents, LowerAll, Strip;
    StripTwice(a);
    StripTwice(b);
  }
}
