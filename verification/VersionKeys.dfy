/**
 The sort keys of the tuple-keyed ecosystems and Python's comparison of them. Python compares tuples
 component by component and raises TypeError for components of unrelated types; None stands for that.
 */
module VersionKeys {
  import opened Options
  import opened Text
  import opened Order

  /** An identifier: (0, number, "") or (1, 0, text), or the sentinel above every identifier. */
  datatype Ident = Ident(kind: nat, number: nat, text: string) | Top

  datatype Pre = BelowAll | Letter(letter: string, number: nat) | Idents(ids: seq<Ident>) | AboveAll

  datatype Post = NoPost | Post(number: nat)

  datatype Dev = Dev(number: nat) | NoDev

  datatype Key = Key(epoch: nat, release: seq<nat>, pre: Pre, post: Post, dev: Dev)

  // ----- building keys

  /** Drops trailing zeros, keeping at least one component. */
  function Trimmed(release: seq<nat>): (r: seq<nat>)
    ensures release != [] ==> r != []
  {
    if |release| > 1 && release[|release| - 1] == 0 then Trimmed(release[..|release| - 1]) else release
  }

  /** The trimming loop of both key builders. */
  method TrimRelease(release: seq<nat>) returns (r: seq<nat>)
    ensures r == Trimmed(release)
  {
    r := release;
    while |r| > 1 && r[|r| - 1] == 0
      invariant Trimmed(r) == Trimmed(release)
    {
      r := r[..|r| - 1];
    }
  }

  /** What the PEP 440 pattern captures of a version that matches it. */
  datatype Pep440 = Pep440(epoch: nat, release: seq<nat>, pre: Option<(string, nat)>, post: Option<nat>, dev: Option<nat>)

  /** The spellings of a pre-release letter that mean the same phase. */
  function PreLetter(letter: string): string {
    if letter == "alpha" then "a"
    else if letter == "beta" then "b"
    else if letter == "c" || letter == "pre" || letter == "preview" then "rc"
    else letter
  }

  function Pep440Key(m: Pep440): Key {
    var pre :=
      if m.pre.None? && m.post.None? && m.dev.Some? then BelowAll
      else if m.pre.None? then AboveAll
      else Letter(PreLetter(LowerAll(m.pre.value.0)), m.pre.value.1);
    Key(m.epoch, Trimmed(m.release), pre,
        if m.post.None? then NoPost else Post(m.post.value),
        if m.dev.None? then NoDev else Dev(m.dev.value))
  }

  /** What the SemVer pattern captures; the build suffix takes no part in the key. */
  datatype SemVer = SemVer(release: seq<nat>, pre: Option<seq<string>>)

  function IdentOf(part: string): Ident {
    if IsNumeric(part) then Ident(0, Num(part, 0, |part|), "") else Ident(1, 0, LowerAll(part))
  }

  function SemVerPre(pre: Option<seq<string>>): Pre {
    match pre
    case None => Idents([Top])
    case Some(parts) => Idents(seq(|parts|, i requires 0 <= i < |parts| => IdentOf(parts[i])))
  }

  function SemVerKey(m: SemVer): Key {
    Key(0, Trimmed(m.release), SemVerPre(m.pre), NoPost, NoDev)
  }

  /** Digit runs and letter runs of a lower-cased string from position i on. */
  function Runs(s: string, i: nat): seq<Ident>
    requires i <= |s|
    decreases |s| - i
  {
    var t := RunEnd(s, i, NonAlnum);
    if t == |s| then []
    else if IsDigit(s[t]) then
      var e := RunEnd(s, t, Digit);
      [Ident(0, Num(s, t, e), "")] + Runs(s, e)
    else
      var e := RunEnd(s, t, Alpha);
      [Ident(1, 0, s[t..e])] + Runs(s, e)
  }

  function GenericKey(raw: string): Key {
    var text := LowerAll(Strip(raw));
    var runs := Runs(text, 0);
    Key(0, [], Idents(if runs == [] then [Ident(1, 0, text)] else runs), NoPost, NoDev)
  }

  // ----- comparing keys

  function CompareIdent(x: Ident, y: Ident): (r: int)
    ensures -1 <= r <= 1
  {
    if x.Top? || y.Top? then (if x.Top? then 1 else 0) - (if y.Top? then 1 else 0)
    else Then(Sign(x.kind - y.kind), Then(Sign(x.number - y.number), CompareText(x.text, y.text, 0)))
  }

  function CompareIdents(x: seq<Ident>, y: seq<Ident>): (r: int)
    ensures -1 <= r <= 1
  {
    if x == [] then (if y == [] then 0 else -1)
    else if y == [] then 1
    else Then(CompareIdent(x[0], y[0]), CompareIdents(x[1..], y[1..]))
  }

  function PreRank(p: Pre): int {
    match p
    case BelowAll => 0
    case Letter(_, _) => 1
    case Idents(_) => 1
    case AboveAll => 2
  }

  /** A string against an identifier tuple is Python's TypeError; against the sentinel it is not. */
  function ComparePre(x: Pre, y: Pre): (r: Option<int>)
    ensures r.Some? ==> -1 <= r.value <= 1
  {
    match (x, y)
    case (Letter(l, m), Letter(k, n)) => Some(Then(CompareText(l, k, 0), Sign(m - n)))
    case (Idents(u), Idents(v)) => Some(CompareIdents(u, v))
    case (Letter(_, _), Idents(v)) => if v == [] then Some(1) else if v[0].Top? then Some(-1) else None
    case (Idents(u), Letter(_, _)) => if u == [] then Some(-1) else if u[0].Top? then Some(1) else None
    case _ => Some(Sign(PreRank(x) - PreRank(y)))
  }

  function PostWeight(p: Post): int { if p.NoPost? then -1 else p.number }

  /** No dev segment is above every dev segment. */
  function CompareDev(x: Dev, y: Dev): (r: int)
    ensures -1 <= r <= 1
  {
    if x.NoDev? || y.NoDev? then (if x.NoDev? then 1 else 0) - (if y.NoDev? then 1 else 0)
    else Sign(x.number - y.number)
  }

  function CompareHead(x: Key, y: Key): int {
    Then(Sign(x.epoch - y.epoch), CompareLex(x.release, y.release))
  }

  function CompareTail(x: Key, y: Key): int {
    Then(Sign(PostWeight(x.post) - PostWeight(y.post)), CompareDev(x.dev, y.dev))
  }

  function CompareKey(x: Key, y: Key): (r: Option<int>)
    ensures r.Some? ==> -1 <= r.value <= 1
  {
    if CompareHead(x, y) != 0 then Some(CompareHead(x, y))
    else
      match ComparePre(x.pre, y.pre)
      case None => None
      case Some(c) => Some(Then(c, CompareTail(x, y)))
  }

  // ----- where keys come from decides that they compare

  /** Keys of matched versions: a release, and no identifiers where the letters go. */
  predicate Parsed(k: Key) { k.release != [] && !k.pre.Idents? }

  /** Keys of unmatched versions: no release, and identifiers. */
  predicate Fallback(k: Key) { k.epoch == 0 && k.release == [] && k.pre.Idents? }

  predicate Pep440Shape(k: Key) { Parsed(k) || Fallback(k) }

  predicate IdentShape(k: Key) { k.pre.Idents? }

  /** Two keys of one ecosystem never meet a string with a tuple. */
  ghost predicate SameShape(x: Key, y: Key) {
    (Pep440Shape(x) && Pep440Shape(y)) || (IdentShape(x) && IdentShape(y))
  }

  lemma Comparable(x: Key, y: Key)
    requires SameShape(x, y)
    ensures CompareKey(x, y).Some?
  {}

  /** A version that fails to parse is below every version that parses. */
  lemma FallbackBelowParsed(x: Key, y: Key)
    requires Fallback(x) && y.release != []
    ensures CompareKey(x, y) == Some(-1)
  {}

  // ----- the order of keys is a total preorder

  lemma IdentAntisymmetric(x: Ident, y: Ident)
    ensures CompareIdent(x, y) == -CompareIdent(y, x)
  {
    if x.Ident? && y.Ident? { TextAntisymmetric(x.text, y.text, 0); }
  }

  lemma IdentTransitive(x: Ident, y: Ident, z: Ident)
    requires CompareIdent(x, y) <= 0 && CompareIdent(y, z) <= 0
    ensures CompareIdent(x, z) <= 0
    ensures CompareIdent(x, y) < 0 || CompareIdent(y, z) < 0 ==> CompareIdent(x, z) < 0
  {
    hide CompareText;
    if x.Ident? && y.Ident? && z.Ident? && x.kind == y.kind == z.kind && x.number == y.number == z.number {
      TextTransitive(x.text, y.text, z.text, 0);
    }
  }

  lemma {:induction false} IdentsAntisymmetric(x: seq<Ident>, y: seq<Ident>)
    ensures CompareIdents(x, y) == -CompareIdents(y, x)
  {
    if x != [] && y != [] {
      IdentAntisymmetric(x[0], y[0]);
      IdentsAntisymmetric(x[1..], y[1..]);
    }
  }

  lemma {:induction false} IdentsTransitive(x: seq<Ident>, y: seq<Ident>, z: seq<Ident>)
    requires CompareIdents(x, y) <= 0 && CompareIdents(y, z) <= 0
    ensures CompareIdents(x, z) <= 0
    ensures CompareIdents(x, y) < 0 || CompareIdents(y, z) < 0 ==> CompareIdents(x, z) < 0
  {
    hide CompareIdent;
    if x != [] && y != [] && z != [] {
      IdentTransitive(x[0], y[0], z[0]);
      if CompareIdent(x[0], y[0]) == 0 && CompareIdent(y[0], z[0]) == 0 {
        IdentsTransitive(x[1..], y[1..], z[1..]);
      }
    }
  }

  lemma PreAntisymmetric(x: Pre, y: Pre)
    ensures ComparePre(x, y).None? <==> ComparePre(y, x).None?
    ensures ComparePre(x, y).Some? ==> ComparePre(x, y).value == -ComparePre(y, x).value
  {
    hide CompareText, CompareIdents;
    if x.Letter? && y.Letter? { TextAntisymmetric(x.letter, y.letter, 0); }
    if x.Idents? && y.Idents? { IdentsAntisymmetric(x.ids, y.ids); }
  }

  lemma PreTransitive(x: Pre, y: Pre, z: Pre)
    requires (!x.Idents? && !y.Idents? && !z.Idents?) || (x.Idents? && y.Idents? && z.Idents?)
    requires ComparePre(x, y).value <= 0 && ComparePre(y, z).value <= 0
    ensures ComparePre(x, z).value <= 0
    ensures ComparePre(x, y).value < 0 || ComparePre(y, z).value < 0 ==> ComparePre(x, z).value < 0
  {
    hide CompareText, CompareIdents;
    if x.Letter? && y.Letter? && z.Letter? { TextTransitive(x.letter, y.letter, z.letter, 0); }
    if x.Idents? { IdentsTransitive(x.ids, y.ids, z.ids); }
  }

  lemma KeyAntisymmetric(x: Key, y: Key)
    requires CompareKey(x, y).Some?
    ensures CompareKey(y, x).Some? && CompareKey(x, y).value == -CompareKey(y, x).value
  {
    hide CompareLex, ComparePre;
    LexAntisymmetric(x.release, y.release);
    PreAntisymmetric(x.pre, y.pre);
  }

  lemma HeadTransitive(x: Key, y: Key, z: Key)
    requires CompareHead(x, y) <= 0 && CompareHead(y, z) <= 0
    ensures CompareHead(x, z) <= 0
    ensures CompareHead(x, z) == 0 <==> CompareHead(x, y) == 0 && CompareHead(y, z) == 0
  {
    hide CompareLex;
    LexTie(x.release, y.release);
    LexTie(y.release, z.release);
    LexTie(x.release, z.release);
    LexAntisymmetric(x.release, y.release);
    if x.epoch == y.epoch == z.epoch { LexTransitive(x.release, y.release, z.release); }
  }

  lemma KeyTransitive(x: Key, y: Key, z: Key)
    requires SameShape(x, y) && SameShape(y, z) && SameShape(x, z)
    requires Comparable3(x, y, z)
    requires CompareKey(x, y).value <= 0 && CompareKey(y, z).value <= 0
    ensures CompareKey(x, z).value <= 0
  {
    hide CompareLex, ComparePre;
    HeadTransitive(x, y, z);
    if CompareHead(x, z) == 0 {
      SameHeadSameKind(x, y);
      SameHeadSameKind(y, z);
      PreTransitive(x.pre, y.pre, z.pre);
    }
  }

  ghost predicate Comparable3(x: Key, y: Key, z: Key) {
    CompareKey(x, y).Some? && CompareKey(y, z).Some? && CompareKey(x, z).Some?
  }

  lemma SameHeadSameKind(x: Key, y: Key)
    requires SameShape(x, y) && CompareHead(x, y) == 0
    ensures x.pre.Idents? == y.pre.Idents?
  {
    LexTie(x.release, y.release);
  }

  // ----- releases

  ghost predicate NoTrailingZero(u: seq<nat>) { u != [] ==> u[|u| - 1] > 0 }

  lemma {:induction false} TrimKeepsComponents(u: seq<nat>, k: nat)
    ensures At(Trimmed(u), k) == At(u, k)
  {
    if |u| > 1 && u[|u| - 1] == 0 { TrimKeepsComponents(u[..|u| - 1], k); }
  }

  lemma {:induction false} TrimShape(u: seq<nat>)
    ensures |Trimmed(u)| > 1 ==> NoTrailingZero(Trimmed(u))
  {
    if |u| > 1 && u[|u| - 1] == 0 { TrimShape(u[..|u| - 1]); }
  }

  lemma {:induction false} LexIsPadded(u: seq<nat>, v: seq<nat>)
    requires NoTrailingZero(u) && NoTrailingZero(v)
    ensures CompareLex(u, v) == ComparePadded(u, v)
    decreases |u| + |v|
  {
    if u != [] && v != [] {
      LexIsPadded(u[1..], v[1..]);
    } else if u != [] {
      PaddedAntisymmetric(u, []);
      EmptyIsBelow(u);
    } else if v != [] {
      EmptyIsBelow(v);
    }
  }

  lemma {:induction false} EmptyIsBelow(v: seq<nat>)
    requires v != [] && v[|v| - 1] > 0
    ensures ComparePadded([], v) == -1
  {
    if |v| > 1 && v[0] == 0 { EmptyIsBelow(v[1..]); }
  }

  lemma {:induction false} SameComponentsCompareSame(u: seq<int>, v: seq<int>, p: seq<int>, q: seq<int>)
    requires forall k: nat :: At(u, k) == At(p, k)
    requires forall k: nat :: At(v, k) == At(q, k)
    ensures ComparePadded(u, v) == ComparePadded(p, q)
    decreases |u| + |v| + |p| + |q|
  {
    if u != [] || v != [] || p != [] || q != [] {
      assert At(u, 0) == At(p, 0) && At(v, 0) == At(q, 0);
      forall k: nat ensures At(Tail(u), k) == At(Tail(p), k) && At(Tail(v), k) == At(Tail(q), k) {
        assert At(u, k + 1) == At(p, k + 1) && At(v, k + 1) == At(q, k + 1);
      }
      SameComponentsCompareSame(Tail(u), Tail(v), Tail(p), Tail(q));
    }
  }

  /** Comparing trimmed releases is comparing numbers with the shorter release padded by zeros. */
  lemma TrimmedOrderIsPaddedOrder(u: seq<nat>, v: seq<nat>)
    requires u != [] && v != []
    ensures CompareLex(Trimmed(u), Trimmed(v)) == ComparePadded(u, v)
  {
    var p, q := Trimmed(u), Trimmed(v);
    forall k: nat ensures At(p, k) == At(u, k) && At(q, k) == At(v, k) {
      TrimKeepsComponents(u, k);
      TrimKeepsComponents(v, k);
    }
    SameComponentsCompareSame(p, q, u, v);
    TrimShape(u);
    TrimShape(v);
    if p[0] == q[0] {
      LexIsPadded(p[1..], q[1..]);
    }
  }

  // ----- the phases of one PEP 440 release

  datatype Phase = DevOnly | PreRelease | Final | PostRelease

  /** What a version without an epoch or release of its own is, by the segments it carries. */
  function PhaseOf(m: Pep440): Phase {
    if m.pre.Some? then PreRelease
    else if m.post.Some? then PostRelease
    else if m.dev.Some? then DevOnly
    else Final
  }

  function PhaseRank(p: Phase): int {
    match p
    case DevOnly => 0
    case PreRelease => 1
    case Final => 2
    case PostRelease => 3
  }

  /** Within one epoch and release: dev-only, then pre-releases, then final, then post-releases. */
  lemma PhasesAreOrdered(m: Pep440, n: Pep440)
    requires m.epoch == n.epoch && Trimmed(m.release) == Trimmed(n.release)
    requires PhaseRank(PhaseOf(m)) < PhaseRank(PhaseOf(n))
    ensures CompareKey(Pep440Key(m), Pep440Key(n)) == Some(-1)
  {
    LexTie(Trimmed(m.release), Trimmed(n.release));
  }

  /** A dev build of any release, pre-release or post-release is below what it builds towards. */
  lemma DevBuildIsBelow(m: Pep440)
    requires m.dev.Some?
    ensures CompareKey(Pep440Key(m), Pep440Key(m.(dev := None))) == Some(-1)
  {
    LexTie(Trimmed(m.release), Trimmed(m.release));
    if m.pre.Some? {
      var l := PreLetter(LowerAll(m.pre.value.0));
      TextTie(l, l, 0);
    }
  }

  // ----- SemVer precedence

  /** No pre-release outranks every pre-release of the same release. */
  lemma ReleaseOutranksPreRelease(r: seq<nat>, parts: seq<string>)
    requires parts != []
    ensures CompareKey(SemVerKey(SemVer(r, Some(parts))), SemVerKey(SemVer(r, None))) == Some(-1)
  {
    LexTie(Trimmed(r), Trimmed(r));
  }

  /** With all earlier identifiers equal, the first difference decides: more identifiers outrank fewer. */
  lemma {:induction false} MoreIdentifiersOutrankFewer(x: seq<Ident>, y: seq<Ident>)
    requires |x| < |y| && y[..|x|] == x
    ensures CompareIdents(x, y) == -1
  {
    if x != [] {
      IdentReflexive(x[0]);
      assert y[0] == x[0];
      MoreIdentifiersOutrankFewer(x[1..], y[1..]);
    }
  }

  lemma IdentReflexive(x: Ident)
    ensures CompareIdent(x, x) == 0
  {
    if x.Ident? { TextTie(x.text, x.text, 0); }
  }

  /** Numbers compare as numbers and rank below text; text compares by character, case aside. */
  lemma IdentifierPrecedence(p: string, q: string)
    ensures IsNumeric(p) && IsNumeric(q) ==>
              CompareIdent(IdentOf(p), IdentOf(q)) == Sign(Num(p, 0, |p|) - Num(q, 0, |q|))
    ensures IsNumeric(p) && !IsNumeric(q) ==> CompareIdent(IdentOf(p), IdentOf(q)) == -1
    ensures !IsNumeric(p) && !IsNumeric(q) ==>
              CompareIdent(IdentOf(p), IdentOf(q)) == CompareText(LowerAll(p), LowerAll(q), 0)
  {
    hide Num, IsNumeric, LowerAll;
    TextTie("", "", 0);
  }

  // ----- what decides between two PEP 440 versions

  /** The epoch decides first, then the releases as numbers padded with zeros. */
  lemma EpochThenRelease(m: Pep440, n: Pep440)
    requires m.release != [] && n.release != []
    ensures m.epoch != n.epoch ==> CompareKey(Pep440Key(m), Pep440Key(n)) == Some(Sign(m.epoch - n.epoch))
    ensures m.epoch == n.epoch && ComparePadded(m.release, n.release) != 0 ==>
              CompareKey(Pep440Key(m), Pep440Key(n)) == Some(ComparePadded(m.release, n.release))
  {
    hide CompareLex, ComparePadded;
    TrimmedOrderIsPaddedOrder(m.release, n.release);
  }

  function NormalPre(m: Pep440): Option<(string, nat)> {
    if m.pre.None? then None else Some((PreLetter(LowerAll(m.pre.value.0)), m.pre.value.1))
  }

  /** Two versions are the same exactly when they agree up to trailing zeros and spellings of the phase. */
  lemma SameVersionExactly(m: Pep440, n: Pep440)
    requires m.release != [] && n.release != []
    ensures CompareKey(Pep440Key(m), Pep440Key(n)) == Some(0) <==>
              && m.epoch == n.epoch && ComparePadded(m.release, n.release) == 0
              && NormalPre(m) == NormalPre(n) && m.post == n.post && m.dev == n.dev
  {
    hide CompareLex, ComparePadded, LowerAll, PreLetter, CompareText;
    TrimmedOrderIsPaddedOrder(m.release, n.release);
    if m.pre.Some? && n.pre.Some? {
      var x, y := NormalPre(m).value.0, NormalPre(n).value.0;
      TextTie(x, y, 0);
      assert x[0..] == x && y[0..] == y;
    }
  }
}
