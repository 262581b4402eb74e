/** What each kind of constraint means, from its text: the operators, and the ceilings of compatible releases. */
module ConstraintLaws {
  import opened Options
  import opened Text
  import opened Versioning
  import opened Constraint

  /** A bound that begins like a version, without whitespace or comma. */
  predicate PlainBound(b: string) {
    IsBound(b) && forall m :: 0 <= m < |b| ==> !IsSpace(b[m]) && b[m] != ','
  }

  lemma {:induction false} SplitNothing(s: string, sep: char, start: nat, i: nat)
    requires start <= i <= |s| && forall m :: i <= m < |s| ==> s[m] != sep
    ensures Split(s, sep, start, i) == [s[start..]]
    decreases |s| - i
  {
    if i < |s| { SplitNothing(s, sep, start, i + 1); }
  }

  /** A text without whitespace and comma is one piece, and nothing of it is stripped. */
  lemma OnePiece(s: string)
    requires s != "" && forall m :: 0 <= m < |s| ==> !IsSpace(s[m]) && s[m] != ','
    ensures Strip(s) == s && Pieces(s) == [s]
  {
    NothingToStrip(s);
    SplitNothing(s, ',', 0, 0);
    assert s[0..] == s;
    hide Split, Strip, IsSpace;
    SolePiece(s);
  }

  lemma SolePiece(s: string)
    requires !Blank(s)
    ensures NonBlankPieces([s]) == [s]
  {
    hide Blank;
    assert [s][1..] == [];
  }

  lemma NoSpaceToStrip(b: string)
    requires b != "" && !IsSpace(b[0])
    ensures StripLeft(b) == b
  {
    RunEndIs(b, 0, Space, 0);
  }

  /** The operator is what the text says it is: the longest of the source's operators at its front. */
  predicate Spelled(op: Op, t: string) {
    match op
    case Eq => t == "" || t == "=" || t == "=="
    case Ne => t == "!="
    case Gt => t == ">"
    case Ge => t == ">="
    case Lt => t == "<"
    case Le => t == "<="
    case Compatible => t == "~>"
    case Caret => t == "^"
  }

  lemma Operators()
    ensures Spelled(Caret, "^") && Spelled(Compatible, "~>")
  {}

  lemma ReadsAs(op: Op, t: string, b: string)
    requires Spelled(op, t) && PlainBound(b)
    ensures Read(t + b) == Some(Clause(op, b)) && Pieces(t + b) == [t + b]
  {
    var s := t + b;
    assert forall m :: 0 <= m < |s| ==> s[m] == if m < |t| then t[m] else b[m - |t|];
    OnePiece(s) by { VisibleOperator(op, t); }
    assert s[|t|..] == b;
    NoSpaceToStrip(b);
    hide Strip, StripLeft, Pieces;
    OperatorOf(op, t, b);
  }

  lemma VisibleOperator(op: Op, t: string)
    requires Spelled(op, t)
    ensures forall m :: 0 <= m < |t| ==> !IsSpace(t[m]) && t[m] != ','
  {}

  lemma OperatorOf(op: Op, t: string, b: string)
    requires Spelled(op, t) && IsBound(b)
    ensures OpLength(t + b) == |t| && OpOf(t + b) == op
  {
    var s := t + b;
    assert s[|t|] == b[0] && (IsDigit(b[0]) || b[0] == 'v' || b[0] == 'V');
    assert |t| > 0 ==> s[0] == t[0];
    assert |t| > 1 ==> s[1] == t[1];
    hide IsBound;
  }

  /** A constraint of one clause holds when that clause does. */
  lemma OneClause(p: Patterns, v: string, op: Op, t: string, b: string, eco: Ecosystem)
    requires Spelled(op, t) && PlainBound(b)
    ensures Satisfies(p, v, t + b, eco) <==> ClauseHolds(p, v, Clause(op, b), eco)
  {
    hide *;
    ReadsAs(op, t, b);
    OnlyClause(p, v, t + b, Clause(op, b), eco);
  }

  lemma OnlyClause(p: Patterns, v: string, s: string, c: Clause, eco: Ecosystem)
    requires Pieces(s) == [s] && Read(s) == Some(c)
    ensures Satisfies(p, v, s, eco) <==> ClauseHolds(p, v, c, eco)
  {
    hide Read, Pieces, ClauseHolds;
    assert s in [s];
  }

  /** The comparing operators, from the text of the constraint. */
  lemma ComparisonsMean(p: Patterns, v: string, b: string, eco: Ecosystem)
    requires PlainBound(b)
    ensures Satisfies(p, v, ">" + b, eco) <==> Compare(p, v, b, eco) > 0
    ensures Satisfies(p, v, ">=" + b, eco) <==> Compare(p, v, b, eco) >= 0
    ensures Satisfies(p, v, "<" + b, eco) <==> Compare(p, v, b, eco) < 0
    ensures Satisfies(p, v, "<=" + b, eco) <==> Compare(p, v, b, eco) <= 0
    ensures Satisfies(p, v, "!=" + b, eco) <==> Compare(p, v, b, eco) != 0
    ensures Satisfies(p, v, "=" + b, eco) <==> Compare(p, v, b, eco) == 0
    ensures Satisfies(p, v, "==" + b, eco) <==> Compare(p, v, b, eco) == 0
    ensures Satisfies(p, v, b, eco) <==> Compare(p, v, b, eco) == 0
  {
    hide Compare, Satisfies, PlainBound;
    OneClause(p, v, Gt, ">", b, eco);
    OneClause(p, v, Ge, ">=", b, eco);
    OneClause(p, v, Lt, "<", b, eco);
    OneClause(p, v, Le, "<=", b, eco);
    OneClause(p, v, Ne, "!=", b, eco);
    OneClause(p, v, Eq, "=", b, eco);
    OneClause(p, v, Eq, "==", b, eco);
    OneClause(p, v, Eq, "", b, eco);
    assert "" + b == b;
  }

  lemma SplitsAtOperator(s: string)
    ensures OpLength(s) <= |s| ==> Spelled(OpOf(s), s[..OpLength(s)])
  {}

  /** What satisfies anything is an operator and a bound that begins like a version: a malformed clause never matches. */
  lemma MalformedNeverMatches(p: Patterns, v: string, s: string, eco: Ecosystem) returns (op: Op, n: nat)
    requires s != "" && forall m :: 0 <= m < |s| ==> !IsSpace(s[m]) && s[m] != ','
    requires Satisfies(p, v, s, eco)
    ensures n <= |s| && Spelled(op, s[..n]) && IsBound(s[n..])
  {
    hide ClauseHolds, Spelled, IsBound, Pieces, Strip, StripLeft;
    OnePiece(s);
    assert s in [s];
    op, n := OpOf(s), OpLength(s);
    SplitsAtOperator(s);
    assert Read(s).Some?;
    if n < |s| { NoSpaceToStrip(s[n..]); } else { assert StripLeft(s[n..]) == "" by { NothingLeft(); } }
  }

  lemma NothingLeft()
    ensures StripLeft("") == "" && !IsBound("")
  {}

  lemma BlankNeverMatches(p: Patterns, v: string, s: string, eco: Ecosystem)
    requires forall m :: 0 <= m < |s| ==> s[m] == ',' || s[m] == ' '
    ensures !Satisfies(p, v, s, eco)
  {
    hide PieceHolds;
    if Pieces(s) != [] {
      var c := Pieces(s)[0];
      assert c in Split(s, ',', 0, 0) && !Blank(c);
      PieceOf(s, ',', 0, 0, c);
      AllSpaceIsBlank(c);
    }
  }

  lemma AllSpaceIsBlank(c: string)
    requires forall m :: 0 <= m < |c| ==> IsSpace(c[m])
    ensures Blank(c)
  {
    RunEndIs(c, 0, Space, |c|);
  }

  /** Every piece is cut out of the text, between separators. */
  lemma {:induction false} PieceOf(s: string, sep: char, start: nat, i: nat, c: string)
    requires start <= i <= |s| && c in Split(s, sep, start, i) && forall m :: start <= m < i ==> s[m] != sep
    ensures forall m :: 0 <= m < |c| ==> c[m] in s && c[m] != sep
    decreases |s| - i
  {
    if i < |s| {
      if s[i] == sep {
        if c != s[start..i] { PieceOf(s, sep, i + 1, i + 1, c); }
      } else {
        PieceOf(s, sep, start, i + 1, c);
      }
    }
  }

  // ----- clauses together

  lemma {:induction false} SplitFirst(s: string, sep: char, start: nat, i: nat, k: nat)
    requires start <= i <= k < |s| && s[k] == sep && forall m :: i <= m < k ==> s[m] != sep
    ensures Split(s, sep, start, i) == [s[start..k]] + Split(s, sep, k + 1, k + 1)
    decreases k - i
  {
    if i < k { SplitFirst(s, sep, start, i + 1, k); }
  }

  lemma {:induction false} SplitBehind(s: string, sep: char, cut: nat, start: nat, i: nat)
    requires cut <= start <= i <= |s|
    ensures Split(s[cut..], sep, start - cut, i - cut) == Split(s, sep, start, i)
    decreases |s| - i
  {
    if i < |s| {
      assert s[cut..][i - cut] == s[i];
      assert s[cut..][start - cut..i - cut] == s[start..i];
      if s[i] == sep { SplitBehind(s, sep, cut, i + 1, i + 1); } else { SplitBehind(s, sep, cut, start, i + 1); }
    } else {
      assert s[cut..][start - cut..] == s[start..];
    }
  }

  lemma SplitAdds(c: string, d: string)
    requires forall m :: 0 <= m < |c| ==> c[m] != ','
    ensures Split(c + "," + d, ',', 0, 0) == [c] + Split(d, ',', 0, 0)
  {
    var s := c + "," + d;
    hide Split;
    assert s[|c|] == ',' && s[0..|c|] == c && s[|c| + 1..] == d;
    forall m | 0 <= m < |c| ensures s[m] != ',' { assert s[m] == c[m]; }
    SplitFirst(s, ',', 0, 0, |c|);
    SplitBehind(s, ',', |c| + 1, |c| + 1, |c| + 1);
  }

  lemma PiecesAdd(c: string, d: string)
    requires c != "" && forall m :: 0 <= m < |c| ==> !IsSpace(c[m]) && c[m] != ','
    ensures Pieces(c) == [c] && Pieces(c + "," + d) == [c] + Pieces(d)
  {
    OnePiece(c);
    SplitAdds(c, d);
    hide Split, Strip, IsSpace;
    var rest := Split(d, ',', 0, 0);
    assert ([c] + rest)[1..] == rest;
  }

  /** A clause in front of others adds its condition to theirs. */
  lemma ClausesAdd(p: Patterns, v: string, c: string, d: string, eco: Ecosystem)
    requires c != "" && Pieces(d) != [] && forall m :: 0 <= m < |c| ==> !IsSpace(c[m]) && c[m] != ','
    ensures Satisfies(p, v, c + "," + d, eco) <==> Satisfies(p, v, c, eco) && Satisfies(p, v, d, eco)
  {
    PiecesAdd(c, d);
    hide Pieces, PieceHolds, IsSpace;
    assert forall x :: x in [c] + Pieces(d) <==> x == c || x in Pieces(d);
    assert forall x :: x in [c] <==> x == c;
  }

  // ----- the ceilings of compatible releases

  /** Numbers with dots between them. */
  predicate Dotted(s: string)
    decreases |s|
  {
    var e := RunEnd(s, 0, Digit);
    e > 0 && (e == |s| || (s[e] == '.' && Dotted(s[e + 1..])))
  }

  /** The numbers of a dotted text, in order. */
  function Components(s: string): (parts: seq<string>)
    requires Dotted(s)
    ensures parts != []
    decreases |s|
  {
    var e := RunEnd(s, 0, Digit);
    if e == |s| then [s] else [s[..e]] + Components(s[e + 1..])
  }

  /** A dotted text is its first number, or that with a dot and a dotted text behind it. */
  lemma DottedStep(s: string)
    requires Dotted(s)
    ensures var e := RunEnd(s, 0, Digit);
            && e > 0 && IsDigit(s[0]) && IsNumeric(s[..e])
            && (e == |s| ==> Components(s) == [s])
            && (e < |s| ==> s[e] == '.' && Dotted(s[e + 1..]) && Components(s) == [s[..e]] + Components(s[e + 1..])
                            && s == s[..e] + "." + s[e + 1..])
  {
    var e := RunEnd(s, 0, Digit);
    assert Is(Digit, s[0]);
    NumericFront(s, e);
    if e < |s| { CutAt(s, e); }
  }

  lemma CutAt(s: string, e: nat)
    requires e < |s|
    ensures s == s[..e] + [s[e]] + s[e + 1..]
  {}

  lemma NumericFront(u: string, e: nat)
    requires 0 < e <= |u| && e == RunEnd(u, 0, Digit)
    ensures IsNumeric(u[..e])
  {
    forall m | 0 <= m < e ensures Is(Digit, u[..e][m]) { assert Is(Digit, u[m]); }
    RunEndIs(u[..e], 0, Digit, e);
  }

  lemma DigitRunsStep(s: string, i: nat)
    requires i < |s|
    ensures IsDigit(s[i]) ==>
              var e := RunEnd(s, i, Digit); e > i && DigitRuns(s, i) == [s[i..e]] + DigitRuns(s, e)
    ensures !IsDigit(s[i]) ==> DigitRuns(s, i) == DigitRuns(s, i + 1)
  {
    if IsDigit(s[i]) {
      RunEndIs(s, i, NonDigit, i);
    } else {
      RunEndIs(s, i, NonDigit, RunEnd(s, i + 1, NonDigit));
    }
  }

  lemma {:induction false} DigitRunsBehind(s: string, cut: nat, i: nat)
    requires cut <= i <= |s|
    ensures DigitRuns(s[cut..], i - cut) == DigitRuns(s, i)
    decreases |s| - i
  {
    hide DigitRuns, RunEnd;
    var w := s[cut..];
    if i < |s| {
      assert w[i - cut] == s[i];
      DigitRunsStep(s, i);
      DigitRunsStep(w, i - cut);
      if IsDigit(s[i]) {
        RunBehind(s, cut, i, Digit);
        var e := RunEnd(s, i, Digit);
        assert w[i - cut..e - cut] == s[i..e];
        DigitRunsBehind(s, cut, e);
      } else {
        DigitRunsBehind(s, cut, i + 1);
      }
    } else {
      NoRunsLeft(s);
      NoRunsLeft(w);
    }
  }

  lemma NoRunsLeft(s: string)
    ensures DigitRuns(s, |s|) == []
  {
    RunEndIs(s, |s|, NonDigit, |s|);
  }

  /** The digit runs of a dotted text are its numbers, and joined by dots they are the text again. */
  lemma {:induction false} DottedRuns(s: string)
    requires Dotted(s)
    ensures DigitRuns(s, 0) == Components(s) && Join(Components(s)) == s
    decreases |s|
  {
    hide Num, RunEnd, DigitRuns, Dotted, Components;
    DottedStep(s);
    DigitRunsStep(s, 0);
    var e := RunEnd(s, 0, Digit);
    if e == |s| {
      assert s[0..e] == s;
      NoRunsLeft(s);
    } else {
      var rest := s[e + 1..];
      DottedRuns(rest);
      DigitRunsStep(s, e);
      DigitRunsBehind(s, e + 1, e + 1);
      assert s[0..e] == s[..e];
      JoinFirst(s[..e], Components(rest));
    }
  }

  lemma JoinFirst(x: string, parts: seq<string>)
    requires parts != []
    ensures Join([x] + parts) == x + "." + Join(parts)
  {
    assert ([x] + parts)[1..] == parts;
  }

  lemma {:induction false} NoSpaceInDotted(s: string)
    requires Dotted(s)
    ensures PlainBound(s) && forall m :: 0 <= m < |s| ==> IsDigit(s[m]) || s[m] == '.'
    decreases |s|
  {
    hide Dotted, Components, RunEnd;
    DottedStep(s);
    var e := RunEnd(s, 0, Digit);
    if e < |s| { NoSpaceInDotted(s[e + 1..]); }
    forall m | 0 <= m < |s| ensures IsDigit(s[m]) || s[m] == '.' {
      if m < e { assert Is(Digit, s[m]); } else if m > e { assert s[m] == s[e + 1..][m - e - 1]; }
    }
  }

  /** One more than the number x spells, as text. */
  function Next(x: string): string
    requires IsNumeric(x)
  {
    ToText(Num(x, 0, |x|) + 1)
  }

  /** A compatible-release clause on a dotted bound: at least the bound, below the ceiling of its numbers. */
  lemma CeilingClause(p: Patterns, v: string, op: Op, t: string, b: string, eco: Ecosystem)
    requires Spelled(op, t) && (op.Caret? || op.Compatible?) && Dotted(b)
    ensures Satisfies(p, v, t + b, eco) <==>
              Compare(p, v, b, eco) >= 0 && Compare(p, v, CeilingOf(op, b), eco) < 0
  {
    hide *;
    NoSpaceInDotted(b);
    OneClause(p, v, op, t, b, eco);
    CeilingHolds(p, v, op, b, eco);
  }

  lemma CeilingHolds(p: Patterns, v: string, op: Op, b: string, eco: Ecosystem)
    requires (op.Caret? || op.Compatible?) && Dotted(b)
    ensures ClauseHolds(p, v, Clause(op, b), eco) <==>
              Compare(p, v, b, eco) >= 0 && Compare(p, v, CeilingOf(op, b), eco) < 0
  {
    hide Compare, Dotted, DigitRuns, Components, Ceiling, Join;
    DottedRuns(b);
  }

  function CeilingOf(op: Op, b: string): string
    requires Dotted(b)
  {
    DottedRuns(b);
    Ceiling(op, Components(b))
  }

  /** The number in place i goes up by one, and what is behind it goes. */
  lemma CeilingIs(op: Op, b: string, i: nat, x: string)
    requires Dotted(b) && i < |Components(b)| && IsNumeric(x) && Components(b)[i] == x
    requires i == if op.Caret? || |Components(b)| < 2 then 0 else |Components(b)| - 2
    ensures CeilingOf(op, b) == Join(Components(b)[..i] + [Next(x)])
  {
    hide Num, Dotted, Components, DigitRuns;
  }

  lemma FirstOnly(parts: seq<string>, x: string)
    ensures Join(parts[..0] + [x]) == x
  {
    assert parts[..0] + [x] == [x];
  }

  lemma FirstCeiling(op: Op, b: string, x: string)
    requires IsNumeric(x) && Dotted(b) && Components(b)[0] == x
    requires op.Caret? || |Components(b)| <= 2
    ensures CeilingOf(op, b) == Next(x)
  {
    hide *;
    CeilingIs(op, b, 0, x);
    FirstOnly(Components(b), Next(x));
  }

  lemma BelowNext(p: Patterns, v: string, op: Op, t: string, b: string, x: string, eco: Ecosystem)
    requires Spelled(op, t) && (op.Caret? || op.Compatible?) && Dotted(b) && IsNumeric(x)
    requires Components(b)[0] == x && (op.Caret? || |Components(b)| <= 2)
    ensures Satisfies(p, v, t + b, eco) <==> Compare(p, v, b, eco) >= 0 && Compare(p, v, Next(x), eco) < 0
  {
    hide *;
    CeilingClause(p, v, op, t, b, eco);
    FirstCeiling(op, b, x);
  }

  /** "^" and a number, with anything dotted behind it: from there up to the next value of that number. */
  lemma CaretMeans(p: Patterns, v: string, x: string, b: string, eco: Ecosystem)
    requires IsNumeric(x) && Dotted(b) && (b == x || (|x| < |b| && b[..|x|] == x && b[|x|] == '.'))
    ensures Satisfies(p, v, "^" + b, eco) <==>
              Compare(p, v, b, eco) >= 0 && Compare(p, v, Next(x), eco) < 0
  {
    hide *;
    Operators();
    FirstComponent(b, x);
    BelowNext(p, v, Caret, "^", b, x, eco);
  }

  lemma FirstComponent(b: string, x: string)
    requires IsNumeric(x) && Dotted(b) && (b == x || (|x| < |b| && b[..|x|] == x && b[|x|] == '.'))
    ensures Components(b)[0] == x
  {
    forall m | 0 <= m < |x| ensures Is(Digit, b[m]) { assert Is(Digit, x[m]) && b[..|x|][m] == x[m]; }
    RunEndIs(b, 0, Digit, |x|);
    if b != x { assert b[..|x|] == x; }
  }

  /** "~>" and a single number is like "^". */
  lemma CompatibleOne(p: Patterns, v: string, x: string, eco: Ecosystem)
    requires IsNumeric(x)
    ensures Satisfies(p, v, "~>" + x, eco) <==> Compare(p, v, x, eco) >= 0 && Compare(p, v, Next(x), eco) < 0
  {
    hide *;
    Operators();
    DottedNumber(x);
    BelowNext(p, v, Compatible, "~>", x, x, eco);
  }

  /** "~>" and two numbers: up to the next value of the first. */
  lemma CompatibleTwo(p: Patterns, v: string, x: string, y: string, eco: Ecosystem)
    requires IsNumeric(x) && IsNumeric(y)
    ensures Satisfies(p, v, "~>" + (x + "." + y), eco) <==>
              Compare(p, v, x + "." + y, eco) >= 0 && Compare(p, v, Next(x), eco) < 0
  {
    hide *;
    Operators();
    DottedNumber(y);
    AddComponent(x, y);
    BelowNext(p, v, Compatible, "~>", x + "." + y, x, eco);
  }

  lemma DottedNumber(x: string)
    requires IsNumeric(x)
    ensures Dotted(x) && Components(x) == [x]
  {}

  lemma AddComponent(x: string, s: string)
    requires IsNumeric(x) && Dotted(s)
    ensures Dotted(x + "." + s) && Components(x + "." + s) == [x] + Components(s)
  {
    var w := x + "." + s;
    assert w[|x|] == '.' && w[|x| + 1..] == s && w[..|x|] == x;
    forall m | 0 <= m < |x| ensures Is(Digit, w[m]) { assert Is(Digit, x[m]) && w[m] == x[m]; }
    RunEndIs(w, 0, Digit, |x|);
  }

  /** Components in front of dotted numbers. */
  lemma {:induction false} ComponentsAdd(u: string, s: string)
    requires Dotted(u) && Dotted(s)
    ensures Dotted(u + "." + s) && Components(u + "." + s) == Components(u) + Components(s)
    decreases |u|
  {
    hide Num, RunEnd, Dotted, Components, IsNumeric;
    DottedStep(u);
    var e := RunEnd(u, 0, Digit);
    if e == |u| {
      assert u[..e] == u;
      AddComponent(u, s);
    } else {
      var x, rest := u[..e], u[e + 1..];
      ComponentsAdd(rest, s);
      AddComponent(x, rest + "." + s);
      assert u + "." + s == x + "." + (rest + "." + s);
      assert [x] + (Components(rest) + Components(s)) == ([x] + Components(rest)) + Components(s);
    }
  }

  lemma {:induction false} JoinAdd(parts: seq<string>, last: string)
    requires parts != []
    ensures Join(parts + [last]) == Join(parts) + "." + last
  {
    if |parts| > 1 {
      JoinAdd(parts[1..], last);
      assert (parts + [last])[1..] == parts[1..] + [last];
    } else {
      assert (parts + [last])[1..] == [last];
    }
  }

  /** "~>" and more numbers: everything before the last two stays, the one before the last goes up by one. */
  lemma CompatibleMore(p: Patterns, v: string, u: string, x: string, y: string, eco: Ecosystem)
    requires Dotted(u) && IsNumeric(x) && IsNumeric(y)
    ensures Satisfies(p, v, "~>" + (u + "." + (x + "." + y)), eco) <==>
              Compare(p, v, u + "." + (x + "." + y), eco) >= 0 && Compare(p, v, u + "." + Next(x), eco) < 0
  {
    hide Compare, Num;
    hide *;
    Operators();
    DottedNumber(y);
    AddComponent(x, y);
    ComponentsAdd(u, x + "." + y);
    DottedRuns(u);
    var b, parts := u + "." + (x + "." + y), Components(u + "." + (x + "." + y));
    assert parts == Components(u) + [x, y];
    CeilingClause(p, v, Compatible, "~>", b, eco);
    CeilingIs(Compatible, b, |parts| - 2, x);
    assert parts[..|parts| - 2] == Components(u);
    JoinAdd(Components(u), Next(x));
  }
}
