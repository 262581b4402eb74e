/** The version comparison of the public interface, over every ecosystem. */
module Versioning {
  import opened Text
  import opened Options
  import opened VersionKeys
  import Evr
  import Debian
  import Rpm

  datatype Ecosystem = Pypi | Npm | Maven | RubyGems | Go | NuGet | DebianEco | RpmEco | SemVerEco | Generic

  type Pep440Match = m: Pep440 | m.release != [] witness Pep440(0, [0], None, None, None)

  type SemVerMatch = m: SemVer | m.release != [] witness SemVer([0], None)

  /**
   The parts of the source that run inside the regular-expression engine, as parameters: what the
   PEP 440 and SemVer patterns capture, and the numbers and qualifier of a Maven version.
   Everything below holds whatever they answer.
   */
  datatype Patterns = Patterns(
    pep440: string -> Option<Pep440Match>,
    semver: string -> Option<SemVerMatch>,
    maven: string -> (seq<nat>, Ident))

  datatype AnyKey = Tuple(key: Key) | EvrKey(scheme: Evr.Scheme, evr: Evr.Evr)

  predicate IsDistribution(eco: Ecosystem) { eco.DebianEco? || eco.RpmEco? }

  predicate Blank(raw: string) { Strip(raw) == "" }

  const INCOMPATIBLE := "+incompatible"

  function WithoutIncompatible(s: string): string {
    var n := |s| - |INCOMPATIBLE|;
    if n >= 0 && LowerAll(s)[n..] == INCOMPATIBLE then s[..n] else s
  }

  function KeyOf(p: Patterns, raw: string, eco: Ecosystem): AnyKey {
    var text := Strip(raw);
    if text == "" then Tuple(GenericKey(""))
    else
      match eco
      case Pypi =>
        (match p.pep440(text)
         case None => Tuple(GenericKey(text))
         case Some(m) => Tuple(Pep440Key(m)))
      case Npm | SemVerEco | Go | NuGet | RubyGems =>
        (match p.semver(WithoutIncompatible(text))
         case None => Tuple(GenericKey(text))
         case Some(m) => Tuple(SemVerKey(m)))
      case Maven =>
        var (numeric, qualifier) := p.maven(text);
        Tuple(Key(0, Trimmed(numeric), Idents([qualifier]), NoPost, NoDev))
      case DebianEco => EvrKey(Evr.Deb, Evr.Parse(text))
      case RpmEco => EvrKey(Evr.RpmScheme, Evr.Parse(text))
      case Generic => Tuple(GenericKey(text))
  }

  /** Python's comparison of two keys; None where it raises TypeError. */
  function CompareAny(x: AnyKey, y: AnyKey): (r: Option<int>)
    ensures r.Some? ==> -1 <= r.value <= 1
  {
    match (x, y)
    case (Tuple(k), Tuple(l)) => CompareKey(k, l)
    case (EvrKey(s, v), EvrKey(t, w)) => if s == t then Some(Evr.Compare(s, v, w)) else None
    case _ => None
  }

  /** -1, 0 or 1, by the keys of the ecosystem or, where those do not compare, by generic keys. */
  function Compare(p: Patterns, a: string, b: string, eco: Ecosystem): (r: int)
    ensures -1 <= r <= 1
  {
    match CompareAny(KeyOf(p, a, eco), KeyOf(p, b, eco))
    case Some(c) => c
    case None =>
      Comparable(GenericKey(a), GenericKey(b));
      CompareKey(GenericKey(a), GenericKey(b)).value
  }

  // ----- every key of a tuple-keyed ecosystem compares with every other

  lemma KeyShape(p: Patterns, raw: string, eco: Ecosystem)
    ensures IsDistribution(eco) && !Blank(raw) ==>
              KeyOf(p, raw, eco) == EvrKey(if eco.DebianEco? then Evr.Deb else Evr.RpmScheme, Evr.Parse(Strip(raw)))
    ensures IsDistribution(eco) && Blank(raw) ==> KeyOf(p, raw, eco) == Tuple(GenericKey(""))
    ensures !IsDistribution(eco) ==> KeyOf(p, raw, eco).Tuple?
    ensures eco.Pypi? ==> Pep440Shape(KeyOf(p, raw, eco).key)
    ensures !IsDistribution(eco) && !eco.Pypi? ==> IdentShape(KeyOf(p, raw, eco).key)
  {
    hide Strip, LowerAll, Runs, Evr.Parse;
  }

  /** The TypeError fallback runs exactly for a blank version against another, in a distribution. */
  lemma FallbackExactly(p: Patterns, a: string, b: string, eco: Ecosystem)
    ensures CompareAny(KeyOf(p, a, eco), KeyOf(p, b, eco)).None? <==> IsDistribution(eco) && Blank(a) != Blank(b)
  {
    hide Strip, GenericKey, KeyOf, CompareKey, Blank;
    KeyShape(p, a, eco);
    KeyShape(p, b, eco);
    assert IdentShape(GenericKey("")) by { GenericShape(""); }
    if !IsDistribution(eco) { Comparable(KeyOf(p, a, eco).key, KeyOf(p, b, eco).key); }
    Comparable(GenericKey(""), GenericKey(""));
  }

  lemma GenericShape(raw: string)
    ensures Fallback(GenericKey(raw))
  {}

  /** Versions that are blank or that the ecosystem's pattern rejects sort below all that it accepts. */
  lemma UnparsedBelowParsed(p: Patterns, a: string, b: string, eco: Ecosystem)
    requires !Blank(b)
    requires (eco.Pypi? && (Blank(a) || p.pep440(Strip(a)).None?) && p.pep440(Strip(b)).Some?)
          || (eco in {Npm, SemVerEco, Go, NuGet, RubyGems}
              && (Blank(a) || p.semver(WithoutIncompatible(Strip(a))).None?)
              && p.semver(WithoutIncompatible(Strip(b))).Some?)
    ensures Compare(p, a, b, eco) == -1
  {
    hide Strip, GenericKey, CompareKey, LowerAll, PreLetter, SemVerPre;
    GenericShape(Strip(a));
    FallbackBelowParsed(GenericKey(Strip(a)), KeyOf(p, b, eco).key);
  }

  // ----- compare is a total preorder

  lemma CompareAntisymmetric(p: Patterns, a: string, b: string, eco: Ecosystem)
    ensures Compare(p, a, b, eco) == -Compare(p, b, a, eco)
  {
    hide KeyOf, GenericKey, CompareKey, Evr.Compare;
    var x, y := KeyOf(p, a, eco), KeyOf(p, b, eco);
    FallbackExactly(p, a, b, eco);
    FallbackExactly(p, b, a, eco);
    if x.Tuple? && y.Tuple? { if CompareKey(x.key, y.key).Some? { KeyAntisymmetric(x.key, y.key); } }
    if x.EvrKey? && y.EvrKey? && x.scheme == y.scheme { Evr.Antisymmetric(x.scheme, x.evr, y.evr); }
    GenericShape(a);
    GenericShape(b);
    Comparable(GenericKey(a), GenericKey(b));
    KeyAntisymmetric(GenericKey(a), GenericKey(b));
  }

  /** The versions that one ecosystem orders: all of them, except blank ones in a distribution. */
  predicate Ordered(eco: Ecosystem, raw: string) { IsDistribution(eco) ==> !Blank(raw) }

  lemma CompareTransitive(p: Patterns, a: string, b: string, c: string, eco: Ecosystem)
    requires Ordered(eco, a) && Ordered(eco, b) && Ordered(eco, c)
    requires Compare(p, a, b, eco) <= 0 && Compare(p, b, c, eco) <= 0
    ensures Compare(p, a, c, eco) <= 0
  {
    hide KeyOf, GenericKey, CompareKey, Evr.Compare, Blank;
    KeyShape(p, a, eco);
    KeyShape(p, b, eco);
    KeyShape(p, c, eco);
    var x, y, z := KeyOf(p, a, eco), KeyOf(p, b, eco), KeyOf(p, c, eco);
    FallbackExactly(p, a, b, eco);
    FallbackExactly(p, b, c, eco);
    FallbackExactly(p, a, c, eco);
    if IsDistribution(eco) {
      Evr.Transitive(x.scheme, x.evr, y.evr, z.evr);
    } else {
      KeyTransitive(x.key, y.key, z.key);
    }
  }

  lemma CompareStrict(p: Patterns, a: string, b: string, c: string, eco: Ecosystem)
    requires Ordered(eco, a) && Ordered(eco, b) && Ordered(eco, c)
    requires Compare(p, a, b, eco) <= 0 && Compare(p, b, c, eco) <= 0
    requires Compare(p, a, b, eco) < 0 || Compare(p, b, c, eco) < 0
    ensures Compare(p, a, c, eco) < 0
  {
    hide Compare, Ordered;
    CompareAntisymmetric(p, a, b, eco);
    CompareAntisymmetric(p, b, c, eco);
    CompareAntisymmetric(p, a, c, eco);
    if Compare(p, c, a, eco) <= 0 {
      CompareTransitive(p, c, a, b, eco);
      CompareTransitive(p, b, c, a, eco);
    }
  }

  // ----- with a blank version, a distribution's order has a cycle

  function SoleKey(i: Ident): Key { Key(0, [], Idents([i]), NoPost, NoDev) }

  /** A version without a letter or digit is keyed by its text. */
  lemma GenericOfSymbols(s: string, t: string)
    requires LowerAll(Strip(s)) == t && All(t, 0, |t|, NonAlnum)
    ensures GenericKey(s) == SoleKey(Ident(1, 0, t))
  {
    hide Strip, LowerAll;
    RunEndIs(t, 0, NonAlnum, |t|);
  }

  lemma GenericOfDigit(s: string)
    requires LowerAll(Strip(s)) == s && |s| == 1 && IsDigit(s[0])
    ensures GenericKey(s) == SoleKey(Ident(0, DigitValue(s[0]), ""))
  {
    hide Strip, LowerAll, RunEnd;
    RunEndIs(s, 0, NonAlnum, 0);
    RunEndIs(s, 0, Digit, 1);
    assert Num(s, 0, 1) == DigitValue(s[0]);
    RunEndIs(s, 1, NonAlnum, 1);
    assert Runs(s, 1) == [];
    assert Runs(s, 0) == [Ident(0, DigitValue(s[0]), "")];
  }

  lemma StripOfCycle()
    ensures Strip("~") == "~" && Strip("1") == "1"
  {
    hide Strip;
    NothingToStrip("~");
    NothingToStrip("1");
  }

  lemma LowerOfCycle()
    ensures LowerAll("") == "" && LowerAll("~") == "~" && LowerAll("1") == "1"
  {}

  /** A blank version against another compares by generic keys. */
  lemma ByFallback(p: Patterns, a: string, b: string, eco: Ecosystem)
    requires IsDistribution(eco) && Blank(a) != Blank(b)
    ensures CompareKey(GenericKey(a), GenericKey(b)) == Some(Compare(p, a, b, eco))
  {
    hide KeyOf, GenericKey, CompareKey, CompareAny;
    FallbackExactly(p, a, b, eco);
    GenericShape(a);
    GenericShape(b);
    Comparable(GenericKey(a), GenericKey(b));
  }

  lemma SoleKeys(i: Ident, j: Ident)
    ensures CompareKey(SoleKey(i), SoleKey(j)) == Some(CompareIdent(i, j))
  {
    hide CompareIdent;
    assert CompareIdents([i], [j]) == CompareIdent(i, j) by { assert [i][1..] == [] && [j][1..] == []; }
  }

  lemma KeysOfCycle(z: string)
    requires Blank(z)
    ensures CompareKey(GenericKey(z), GenericKey("~")) == Some(-1)
    ensures CompareKey(GenericKey("1"), GenericKey(z)) == Some(-1)
  {
    StripOfCycle();
    LowerOfCycle();
    hide Strip, LowerAll, GenericKey, CompareKey, SoleKey;
    GenericOfSymbols(z, "");
    GenericOfSymbols("~", "~");
    GenericOfDigit("1");
    SoleKeys(Ident(1, 0, ""), Ident(1, 0, "~"));
    SoleKeys(Ident(0, 1, ""), Ident(1, 0, ""));
  }

  /** Any blank version is below "~", which is below "1", which is below the blank version. */
  lemma BlankMakesCycle(p: Patterns, z: string, eco: Ecosystem)
    requires IsDistribution(eco) && Blank(z)
    ensures Compare(p, z, "~", eco) == -1 && Compare(p, "~", "1", eco) == -1 && Compare(p, "1", z, eco) == -1
  {
    StripOfCycle();
    assert !Blank("~") && !Blank("1");
    hide Strip, GenericKey, CompareKey, Compare, Blank;
    ByFallback(p, z, "~", eco);
    ByFallback(p, "1", z, eco);
    KeysOfCycle(z);
    TildeBelowOne(p, eco);
  }

  predicate SelfOrNotBlank(z: string, a: string) { a == z || !Blank(a) }

  /** Together with all non-blank versions, z compares transitively. */
  ghost predicate FitsTheOrder(p: Patterns, z: string, eco: Ecosystem) {
    forall a, b, c ::
      SelfOrNotBlank(z, a) && SelfOrNotBlank(z, b) && SelfOrNotBlank(z, c) ==>
        Compare(p, a, b, eco) <= 0 && Compare(p, b, c, eco) <= 0 ==> Compare(p, a, c, eco) <= 0
  }

  /** That holds of every version but the blank ones of a distribution. */
  lemma FitsExactlyWhenOrdered(p: Patterns, z: string, eco: Ecosystem)
    ensures FitsTheOrder(p, z, eco) <==> Ordered(eco, z)
  {
    StripOfCycle();
    hide Compare, Strip;
    if Ordered(eco, z) {
      forall a, b, c | SelfOrNotBlank(z, a) && SelfOrNotBlank(z, b) && SelfOrNotBlank(z, c)
                       && Compare(p, a, b, eco) <= 0 && Compare(p, b, c, eco) <= 0
        ensures Compare(p, a, c, eco) <= 0
      {
        CompareTransitive(p, a, b, c, eco);
      }
    } else {
      BlankMakesCycle(p, z, eco);
      CompareAntisymmetric(p, "1", z, eco);
    }
  }

  lemma TildeBelowOne(p: Patterns, eco: Ecosystem)
    requires IsDistribution(eco)
    ensures Compare(p, "~", "1", eco) == -1
  {
    hide Strip, GenericKey, KeyOf, Evr.Parse;
    StripOfCycle();
    KeyShape(p, "~", eco);
    KeyShape(p, "1", eco);
    Evr.ParsePlain("~");
    Evr.ParsePlain("1");
    TildeFirst(if eco.DebianEco? then Evr.Deb else Evr.RpmScheme);
  }

  lemma TildeFirst(s: Evr.Scheme)
    ensures Evr.ComparePart(s, "~", "1") == -1
  {
    if s.Deb? {
      assert Debian.Parse("~", 0).run == "~";
      assert Debian.Parse("1", 0).run == "";
      assert Debian.WeightAt("~", 0) == -1;
    } else {
      assert Rpm.Parse("~", 0).Tilde?;
    }
  }
}
