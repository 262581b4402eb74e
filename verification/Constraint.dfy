/** Affected ranges given as comma-separated constraints such as ">=1.0,<1.4.2". */
module Constraint {
  import opened Text
  import opened Options
  import opened Versioning

  datatype Op = Eq | Ne | Gt | Ge | Lt | Le | Compatible | Caret

  datatype Clause = Clause(op: Op, bound: string)

  predicate StartsWith(s: string, prefix: string) { |prefix| <= |s| && s[..|prefix|] == prefix }

  /** str.split: the pieces of s from position i on, start being where the current piece began. */
  function Split(s: string, sep: char, start: nat, i: nat): seq<string>
    requires start <= i <= |s|
    decreases |s| - i
  {
    if i == |s| then [s[start..]]
    else if s[i] == sep then [s[start..i]] + Split(s, sep, i + 1, i + 1)
    else Split(s, sep, start, i + 1)
  }

  function NonBlankPieces(pieces: seq<string>): (kept: seq<string>)
    ensures forall c :: c in kept <==> c in pieces && !Blank(c)
  {
    if pieces == [] then []
    else (if Blank(pieces[0]) then [] else [pieces[0]]) + NonBlankPieces(pieces[1..])
  }

  function Pieces(constraint: string): seq<string> { NonBlankPieces(Split(constraint, ',', 0, 0)) }

  function Rejoin(pieces: seq<string>, sep: char): string {
    if pieces == [] then "" else if |pieces| == 1 then pieces[0] else pieces[0] + [sep] + Rejoin(pieces[1..], sep)
  }

  /** The pieces hold no separator, and with separators between them they are the string again. */
  lemma {:induction false} SplitRejoins(s: string, sep: char, start: nat, i: nat)
    requires start <= i <= |s| && forall m :: start <= m < i ==> s[m] != sep
    ensures var pieces := Split(s, sep, start, i);
            pieces != [] && Rejoin(pieces, sep) == s[start..] && forall p :: p in pieces ==> sep !in p
    decreases |s| - i
  {
    if i < |s| && s[i] == sep {
      SplitRejoins(s, sep, i + 1, i + 1);
      var rest := Split(s, sep, i + 1, i + 1);
      var pieces := [s[start..i]] + rest;
      assert pieces[1..] == rest;
      assert s[start..] == s[start..i] + [sep] + s[i + 1..];
    } else if i < |s| {
      SplitRejoins(s, sep, start, i + 1);
    }
  }

  function OpLength(s: string): nat {
    if StartsWith(s, ">=") || StartsWith(s, "<=") || StartsWith(s, "==") || StartsWith(s, "!=") || StartsWith(s, "~>") then 2
    else if StartsWith(s, ">") || StartsWith(s, "<") || StartsWith(s, "^") || StartsWith(s, "=") then 1
    else 0
  }

  function OpOf(s: string): Op {
    if StartsWith(s, ">=") then Ge
    else if StartsWith(s, "<=") then Le
    else if StartsWith(s, "!=") then Ne
    else if StartsWith(s, "~>") then Compatible
    else if StartsWith(s, ">") then Gt
    else if StartsWith(s, "<") then Lt
    else if StartsWith(s, "^") then Caret
    else Eq
  }

  /** A bound begins like a version: a digit, with at most a v before it. */
  predicate IsBound(b: string) {
    (b != "" && IsDigit(b[0])) || (|b| > 1 && (b[0] == 'v' || b[0] == 'V') && IsDigit(b[1]))
  }

  /** The clause a piece reads as; None where the source answers "no match" whatever the version. */
  function Read(piece: string): (c: Option<Clause>)
    ensures c.Some? ==> IsBound(c.value.bound)
  {
    var s := Strip(piece);
    var n := OpLength(s);
    if n > |s| then None
    else
      var bound := StripLeft(s[n..]);
      if IsBound(bound) && (forall m :: 0 <= m < |bound| ==> !IsSpace(bound[m])) then Some(Clause(OpOf(s), bound)) else None
  }

  // ----- the ceiling of a compatible-release clause

  /** re.findall of digit runs. */
  function DigitRuns(s: string, i: nat): (parts: seq<string>)
    requires i <= |s|
    ensures forall k :: 0 <= k < |parts| ==> IsNumeric(parts[k])
    decreases |s| - i
  {
    var t := RunEnd(s, i, NonDigit);
    if t == |s| then []
    else
      var e := RunEnd(s, t, Digit);
      NumericSlice(s, t, e);
      [s[t..e]] + DigitRuns(s, e)
  }

  lemma NumericSlice(s: string, t: nat, e: nat)
    requires t < e <= |s| && All(s, t, e, Digit)
    ensures IsNumeric(s[t..e])
  {
    forall m | 0 <= m < e - t ensures Is(Digit, s[t..e][m]) { assert Is(Digit, s[t + m]); }
    RunEndIs(s[t..e], 0, Digit, e - t);
  }

  /** str of a natural number. */
  function ToText(n: nat): (t: string)
    ensures t != "" && IsDigit(t[0])
  {
    var digit := [(('0' as int) + n % 10) as char];
    if n < 10 then digit else ToText(n / 10) + digit
  }

  /** The text of a number reads back as that number. */
  lemma {:induction false} ToTextReads(n: nat)
    ensures All(ToText(n), 0, |ToText(n)|, Digit) && Num(ToText(n), 0, |ToText(n)|) == n
    ensures n > 0 ==> ToText(n)[0] != '0'
  {
    var digit := [(('0' as int) + n % 10) as char];
    if n >= 10 {
      ToTextReads(n / 10);
      var front := ToText(n / 10);
      var t := front + digit;
      assert t[..|front|] == front;
      NumOfPrefix(front, t, 0, |front|);
      assert Is(Digit, t[|front|]);
    }
  }

  function Join(parts: seq<string>): string {
    if parts == [] then "" else if |parts| == 1 then parts[0] else parts[0] + "." + Join(parts[1..])
  }

  /** The next significant increment: of the first component, or of the one before the last. */
  function Ceiling(op: Op, parts: seq<string>): string
    requires parts != [] && forall k :: 0 <= k < |parts| ==> IsNumeric(parts[k])
  {
    var i := if op.Caret? || |parts| < 2 then 0 else |parts| - 2;
    var part := parts[i];
    assert IsNumeric(part);
    var bumped := Num(part, 0, |part|) + 1;
    Join(parts[..i] + [ToText(bumped)])
  }

  // ----- satisfaction

  predicate ClauseHolds(p: Patterns, v: string, c: Clause, eco: Ecosystem) {
    var result := Compare(p, v, c.bound, eco);
    match c.op
    case Eq => result == 0
    case Ne => result != 0
    case Gt => result > 0
    case Ge => result >= 0
    case Lt => result < 0
    case Le => result <= 0
    case Compatible => result >= 0 && BelowCeiling(p, v, c, eco)
    case Caret => result >= 0 && BelowCeiling(p, v, c, eco)
  }

  predicate BelowCeiling(p: Patterns, v: string, c: Clause, eco: Ecosystem) {
    var parts := DigitRuns(c.bound, 0);
    parts == [] || Compare(p, v, Ceiling(c.op, parts), eco) < 0
  }

  predicate PieceHolds(p: Patterns, v: string, piece: string, eco: Ecosystem) {
    Read(piece).Some? && ClauseHolds(p, v, Read(piece).value, eco)
  }

  ghost predicate Satisfies(p: Patterns, v: string, constraint: string, eco: Ecosystem) {
    Pieces(constraint) != [] && forall c :: c in Pieces(constraint) ==> PieceHolds(p, v, c, eco)
  }

  /** The loop of the source, with a way out for every operator. */
  method SatisfiesConstraint(p: Patterns, v: string, constraint: string, eco: Ecosystem) returns (ok: bool)
    ensures ok <==> Satisfies(p, v, constraint, eco)
  {
    hide Compare, Read, Ceiling, DigitRuns, NonBlankPieces, Split;
    var pieces := Pieces(constraint);
    if pieces == [] { return false; }
    for n := 0 to |pieces|
      invariant forall m :: 0 <= m < n ==> PieceHolds(p, v, pieces[m], eco)
    {
      assert pieces[n] in pieces;
      var read := Read(pieces[n]);
      if read.None? { return false; }
      var Clause(op, bound) := read.value;
      var result := Compare(p, v, bound, eco);
      if op.Eq? && result != 0 { return false; }
      if op.Ne? && result == 0 { return false; }
      if op.Gt? && result <= 0 { return false; }
      if op.Ge? && result < 0 { return false; }
      if op.Lt? && result >= 0 { return false; }
      if op.Le? && result > 0 { return false; }
      if op.Compatible? || op.Caret? {
        if result < 0 { return false; }
        var parts := DigitRuns(bound, 0);
        if parts != [] {
          if Compare(p, v, Ceiling(op, parts), eco) >= 0 { return false; }
        }
      }
    }
    ok := true;
  }

  // ----- what holds of every constraint

  /** Neither the order of the clauses nor repeating one changes the answer. */
  lemma ClauseOrderIsIrrelevant(p: Patterns, v: string, c: string, d: string, eco: Ecosystem)
    requires forall piece :: piece in Pieces(c) <==> piece in Pieces(d)
    ensures Satisfies(p, v, c, eco) <==> Satisfies(p, v, d, eco)
  {
    hide Pieces, PieceHolds;
    assert Pieces(c) != [] ==> Pieces(c)[0] in Pieces(d);
    assert Pieces(d) != [] ==> Pieces(d)[0] in Pieces(c);
  }

  lemma VisibleIsNotBlank(s: string, k: nat)
    requires k < |s| && !IsSpace(s[k])
    ensures !Blank(s)
  {
    var e := RunEnd(s, 0, Space);
    assert All(s, 0, e, Space);
    VisibleSurvives(s[e..], k - e);
  }

  lemma {:induction false} VisibleSurvives(s: string, k: nat)
    requires k < |s| && !IsSpace(s[k])
    ensures StripRight(s) != ""
  {
    if IsSpace(s[|s| - 1]) { VisibleSurvives(s[..|s| - 1], k); }
  }

  lemma BoundIsOrdered(c: Clause, eco: Ecosystem)
    requires IsBound(c.bound)
    ensures Ordered(eco, c.bound)
    ensures var parts := DigitRuns(c.bound, 0); parts != [] ==> Ordered(eco, Ceiling(c.op, parts))
  {
    hide Blank, DigitRuns;
    VisibleIsNotBlank(c.bound, if IsDigit(c.bound[0]) then 0 else 1);
    var parts := DigitRuns(c.bound, 0);
    if parts != [] {
      var ceiling := Ceiling(c.op, parts);
      assert ceiling != "" && IsDigit(ceiling[0]) by { CeilingStart(c.op, parts); }
      VisibleIsNotBlank(ceiling, 0);
    }
  }

  lemma CeilingStart(op: Op, parts: seq<string>)
    requires parts != [] && forall k :: 0 <= k < |parts| ==> IsNumeric(parts[k])
    ensures var c := Ceiling(op, parts); c != "" && IsDigit(c[0])
  {
    var i := if op.Caret? || |parts| < 2 then 0 else |parts| - 2;
    var part := parts[i];
    assert IsNumeric(part);
    var kept := parts[..i] + [ToText(Num(part, 0, |part|) + 1)];
    assert kept[0] != "" && Is(Digit, kept[0][0]);
  }

  /** Between two versions, strictly above the one and below the other or level with them. */
  lemma Between(p: Patterns, lo: string, v: string, hi: string, bound: string, eco: Ecosystem)
    requires Ordered(eco, lo) && Ordered(eco, v) && Ordered(eco, hi) && Ordered(eco, bound)
    requires Compare(p, lo, v, eco) <= 0 && Compare(p, v, hi, eco) <= 0
    ensures Compare(p, lo, bound, eco) <= Compare(p, v, bound, eco) <= Compare(p, hi, bound, eco)
  {
    hide Compare, Ordered;
    CompareMonotone(p, lo, v, bound, eco);
    CompareMonotone(p, v, hi, bound, eco);
  }

  lemma CompareMonotone(p: Patterns, a: string, b: string, bound: string, eco: Ecosystem)
    requires Ordered(eco, a) && Ordered(eco, b) && Ordered(eco, bound) && Compare(p, a, b, eco) <= 0
    ensures Compare(p, a, bound, eco) <= Compare(p, b, bound, eco)
  {
    CompareRange(p, a, bound, eco);
    CompareRange(p, b, bound, eco);
    hide Compare, Ordered;
    CompareAntisymmetric(p, b, bound, eco);
    CompareAntisymmetric(p, a, bound, eco);
    if Compare(p, b, bound, eco) <= 0 { CompareTransitive(p, a, b, bound, eco); }
    if Compare(p, a, bound, eco) >= 0 { CompareTransitive(p, bound, a, b, eco); }
  }

  lemma CompareRange(p: Patterns, a: string, b: string, eco: Ecosystem)
    ensures -1 <= Compare(p, a, b, eco) <= 1
  {}

  lemma PieceIsConvex(p: Patterns, lo: string, v: string, hi: string, piece: string, eco: Ecosystem)
    requires Ordered(eco, lo) && Ordered(eco, v) && Ordered(eco, hi)
    requires Compare(p, lo, v, eco) <= 0 && Compare(p, v, hi, eco) <= 0
    requires PieceHolds(p, lo, piece, eco) && PieceHolds(p, hi, piece, eco)
    ensures PieceHolds(p, v, piece, eco) <==> !Excludes(p, v, piece, eco)
  {
    hide Compare, Ordered, Read, DigitRuns, Ceiling;
    var c := Read(piece).value;
    BoundIsOrdered(c, eco);
    Between(p, lo, v, hi, c.bound, eco);
    var parts := DigitRuns(c.bound, 0);
    if parts != [] { Between(p, lo, v, hi, Ceiling(c.op, parts), eco); }
  }

  /** The piece is a "!=" clause whose bound is level with v. */
  predicate Excludes(p: Patterns, v: string, piece: string, eco: Ecosystem) {
    var c := Read(piece);
    c.Some? && c.value.op.Ne? && Compare(p, v, c.value.bound, eco) == 0
  }

  /**
   The versions that satisfy a constraint are all those between any two of them, less the ones that a
   "!=" clause names. Without such a clause they form a convex set.
   */
  lemma SatisfyingVersionsAreConvex(p: Patterns, lo: string, v: string, hi: string, constraint: string, eco: Ecosystem)
    requires Ordered(eco, lo) && Ordered(eco, v) && Ordered(eco, hi)
    requires Compare(p, lo, v, eco) <= 0 && Compare(p, v, hi, eco) <= 0
    requires Satisfies(p, lo, constraint, eco) && Satisfies(p, hi, constraint, eco)
    ensures Satisfies(p, v, constraint, eco)
       <==> forall c :: c in Pieces(constraint) ==> !Excludes(p, v, c, eco)
  {
    hide Compare, Ordered, Pieces, PieceHolds, Excludes;
    forall c | c in Pieces(constraint) ensures PieceHolds(p, v, c, eco) <==> !Excludes(p, v, c, eco) {
      PieceIsConvex(p, lo, v, hi, c, eco);
    }
  }
}
