/** The normalisation pipeline as functions on the problem record:
    general form -> canonical form (maximise, every row <=)
    -> slack form (every row =, one slack column per <= row). */
module Conversion {
  import opened ModelTypes

  /** The comparison a row gets when both of its sides change sign. */
  function FlipComparison(c: Comparison): (r: Comparison)
    ensures (r == EQ) <==> (c == EQ)
  {
    match c
    case LE => BE
    case BE => LE
    case LO => BI
    case BI => LO
    case EQ => EQ
  }

  lemma FlipComparisonInvolution(c: Comparison)
    ensures FlipComparison(FlipComparison(c)) == c
  {
  }

  /** What a row with comparison c says about its left-hand value lhs. */
  predicate Satisfies(c: Comparison, lhs: real, rhs: real) {
    match c
    case EQ => lhs == rhs
    case LO => lhs < rhs
    case LE => lhs <= rhs
    case BI => lhs > rhs
    case BE => lhs >= rhs
  }

  /** Multiplying both sides by -1 turns a row with comparison c into an
      equivalent row with the flipped comparison. */
  lemma FlipMeaning(c: Comparison, lhs: real, rhs: real)
    ensures Satisfies(c, lhs, rhs) <==> Satisfies(FlipComparison(c), -lhs, -rhs)
  {
  }

  /** A fresh row with every entry scaled. */
  function MultiplyRow(row: seq<real>, scalar: real): (r: seq<real>)
    ensures |r| == |row|
    ensures forall i :: 0 <= i < |row| ==> r[i] == row[i] * scalar
  {
    seq(|row|, i requires 0 <= i < |row| => row[i] * scalar)
  }

  function Negated(row: seq<real>): (r: seq<real>)
    ensures |r| == |row|
  {
    MultiplyRow(row, -1.0)
  }

  lemma NegatedInvolution(row: seq<real>)
    ensures Negated(Negated(row)) == row
  {
  }

  /** The left-hand value of a row at the point x. */
  function Dot(row: seq<real>, x: seq<real>): real
    requires |row| == |x|
  {
    if |row| == 0 then 0.0 else row[0] * x[0] + Dot(row[1..], x[1..])
  }

  /** A negated row has the negated left-hand value at every point. */
  lemma {:induction false} DotNegated(row: seq<real>, x: seq<real>)
    requires |row| == |x|
    ensures Dot(Negated(row), x) == -Dot(row, x)
  {
    if |row| > 0 {
      assert Negated(row)[1..] == Negated(row[1..]);
      DotNegated(row[1..], x[1..]);
    }
  }

  // ---------------------------------------------------------------------
  // Canonical form, step 1: maximise.

  function Maximized(p: Program): (r: Program)
    ensures r.objective == MAXIMIZE
    ensures r == p.(objective := MAXIMIZE, objCoeff := r.objCoeff)
    ensures p.objective == MAXIMIZE ==> r == p
    ensures p.objective == MINIMIZE ==>
              |r.objCoeff| == |p.objCoeff| &&
              forall j :: 0 <= j < |p.objCoeff| ==> r.objCoeff[j] == -p.objCoeff[j]
  {
    match p.objective
    case MINIMIZE => p.(objective := MAXIMIZE, objCoeff := Negated(p.objCoeff))
    case MAXIMIZE => p
  }

  // ---------------------------------------------------------------------
  // Canonical form, step 2: every right-hand side non-negative.

  function NonNegativeRhs(p: Program): (r: Program)
    requires Shaped(p)
    ensures Shaped(r)
    ensures r == p.(rhs := r.rhs, comparisons := r.comparisons, constraintCoeff := r.constraintCoeff)
    ensures forall i :: 0 <= i < |r.rhs| ==> r.rhs[i] >= 0.0
    ensures forall i :: 0 <= i < |p.rhs| && p.rhs[i] >= 0.0 ==>
              r.rhs[i] == p.rhs[i] && r.comparisons[i] == p.comparisons[i] &&
              r.constraintCoeff[i] == p.constraintCoeff[i]
    ensures forall i :: 0 <= i < |p.rhs| && p.rhs[i] < 0.0 ==>
              r.rhs[i] == -p.rhs[i] && r.comparisons[i] == FlipComparison(p.comparisons[i]) &&
              r.constraintCoeff[i] == Negated(p.constraintCoeff[i])
  {
    var m := |p.rhs|;
    p.(rhs := seq(m, i requires 0 <= i < m => if p.rhs[i] < 0.0 then -p.rhs[i] else p.rhs[i]),
       comparisons := seq(m, i requires 0 <= i < m =>
         if p.rhs[i] < 0.0 then FlipComparison(p.comparisons[i]) else p.comparisons[i]),
       constraintCoeff := seq(m, i requires 0 <= i < m =>
         if p.rhs[i] < 0.0 then Negated(p.constraintCoeff[i]) else p.constraintCoeff[i]))
  }

  /** The second step keeps the set of points each row admits. */
  lemma NonNegativeRhsMeaning(p: Program, i: nat, x: seq<real>)
    requires Shaped(p) && i < p.nbConstraints && |x| == p.nbVariables
    ensures var r := NonNegativeRhs(p);
            Satisfies(p.comparisons[i], Dot(p.constraintCoeff[i], x), p.rhs[i]) <==>
            Satisfies(r.comparisons[i], Dot(r.constraintCoeff[i], x), r.rhs[i])
  {
    if p.rhs[i] < 0.0 {
      DotNegated(p.constraintCoeff[i], x);
      FlipMeaning(p.comparisons[i], Dot(p.constraintCoeff[i], x), p.rhs[i]);
    }
  }

  // ---------------------------------------------------------------------
  // Canonical form, step 3: every row becomes <=.

  /** Number of EQ rows among the first k. */
  function EqCount(cs: seq<Comparison>, k: nat): (n: nat)
    requires k <= |cs|
    ensures n <= k
  {
    if k == 0 then 0 else EqCount(cs, k - 1) + (if cs[k - 1] == EQ then 1 else 0)
  }

  /** The <= rows one source row becomes: <= and < rows pass through,
      >= and > rows are negated, an = row becomes itself and its negation. */
  function LeImage(c: Comparison, row: seq<real>): (img: seq<seq<real>>)
    ensures 1 <= |img| <= 2
    ensures |img| == 2 <==> c == EQ
  {
    match c
    case LE => [row]
    case LO => [row]
    case BE => [Negated(row)]
    case BI => [Negated(row)]
    case EQ => [row, Negated(row)]
  }

  function LeImageRhs(c: Comparison, b: real): (bs: seq<real>)
    ensures 1 <= |bs| <= 2
    ensures |bs| == 2 <==> c == EQ
  {
    match c
    case LE => [b]
    case LO => [b]
    case BE => [-b]
    case BI => [-b]
    case EQ => [b, -b]
  }

  /** The <= rows a row becomes admit the points it admits; for a
      non-strict row exactly those, for a strict row the closure (a strict
      inequality is relaxed to <=). */
  lemma LeImageMeaning(c: Comparison, row: seq<real>, b: real, x: seq<real>)
    requires |row| == |x|
    ensures var img, bs := LeImage(c, row), LeImageRhs(c, b);
            |img| == |bs| &&
            (Satisfies(c, Dot(row, x), b) ==> forall j :: 0 <= j < |img| ==> Dot(img[j], x) <= bs[j]) &&
            (c != LO && c != BI ==>
               (Satisfies(c, Dot(row, x), b) <== forall j :: 0 <= j < |img| ==> Dot(img[j], x) <= bs[j]))
  {
    DotNegated(row, x);
    var img, bs := LeImage(c, row), LeImageRhs(c, b);
    match c
    case LE =>
      assert img[0] == row && bs[0] == b;
    case LO =>
    case BE =>
      assert img[0] == Negated(row) && bs[0] == -b;
    case BI =>
    case EQ =>
      assert img[0] == row && bs[0] == b;
      assert img[1] == Negated(row) && bs[1] == -b;
  }

  /** The coefficient rows produced from the first k source rows. */
  function LeCoeffs(p: Program, k: nat): (rows: seq<seq<real>>)
    requires Shaped(p) && k <= p.nbConstraints
    ensures |rows| == k + EqCount(p.comparisons, k)
    ensures forall i :: 0 <= i < |rows| ==> |rows[i]| == p.nbVariables
  {
    if k == 0 then []
    else LeCoeffs(p, k - 1) + LeImage(p.comparisons[k - 1], p.constraintCoeff[k - 1])
  }

  /** The right-hand sides produced from the first k source rows. */
  function LeRhs(p: Program, k: nat): (rhs: seq<real>)
    requires Shaped(p) && k <= p.nbConstraints
    ensures |rhs| == k + EqCount(p.comparisons, k)
  {
    if k == 0 then []
    else LeRhs(p, k - 1) + LeImageRhs(p.comparisons[k - 1], p.rhs[k - 1])
  }

  /** Source row k contributes its image after the rows of the first k. */
  lemma LeStep(p: Program, k: nat)
    requires Shaped(p) && k < p.nbConstraints
    ensures LeCoeffs(p, k + 1) == LeCoeffs(p, k) + LeImage(p.comparisons[k], p.constraintCoeff[k])
    ensures LeRhs(p, k + 1) == LeRhs(p, k) + LeImageRhs(p.comparisons[k], p.rhs[k])
    ensures EqCount(p.comparisons, k + 1) == EqCount(p.comparisons, k) + if p.comparisons[k] == EQ then 1 else 0
  {
  }

  function LeConstraints(p: Program): (r: Program)
    requires Shaped(p)
    ensures Shaped(r)
    ensures AllAre(r.comparisons, LE)
    ensures r.nbConstraints == p.nbConstraints + EqCount(p.comparisons, p.nbConstraints)
    ensures r == p.(nbConstraints := r.nbConstraints, rhs := r.rhs, comparisons := r.comparisons,
                    constraintCoeff := r.constraintCoeff)
  {
    var m := p.nbConstraints;
    var count := m + EqCount(p.comparisons, m);
    p.(nbConstraints := count,
       constraintCoeff := LeCoeffs(p, m),
       rhs := LeRhs(p, m),
       comparisons := seq(count, _ => LE))
  }

  /** Entry j of source row i's image sits at offset i + (number of = rows
      before i) + j among the rows produced from every longer prefix. */
  lemma {:induction false} LeCoeffsAt(p: Program, k: nat, i: nat, j: nat)
    requires Shaped(p) && i < k <= p.nbConstraints
    requires j < |LeImage(p.comparisons[i], p.constraintCoeff[i])|
    ensures var o := i + EqCount(p.comparisons, i);
            o + j < |LeCoeffs(p, k)| && LeCoeffs(p, k)[o + j] == LeImage(p.comparisons[i], p.constraintCoeff[i])[j]
  {
    var prev, last := LeCoeffs(p, k - 1), LeImage(p.comparisons[k - 1], p.constraintCoeff[k - 1]);
    assert LeCoeffs(p, k) == prev + last;
    if i < k - 1 {
      LeCoeffsAt(p, k - 1, i, j);
    } else {
      assert |prev| == i + EqCount(p.comparisons, i);
    }
  }

  lemma {:induction false} LeRhsAt(p: Program, k: nat, i: nat, j: nat)
    requires Shaped(p) && i < k <= p.nbConstraints
    requires j < |LeImageRhs(p.comparisons[i], p.rhs[i])|
    ensures var o := i + EqCount(p.comparisons, i);
            o + j < |LeRhs(p, k)| && LeRhs(p, k)[o + j] == LeImageRhs(p.comparisons[i], p.rhs[i])[j]
  {
    var prev, last := LeRhs(p, k - 1), LeImageRhs(p.comparisons[k - 1], p.rhs[k - 1]);
    assert LeRhs(p, k) == prev + last;
    if i < k - 1 {
      LeRhsAt(p, k - 1, i, j);
    } else {
      assert |prev| == i + EqCount(p.comparisons, i);
    }
  }

  /** Where source row i goes in the all-<= problem: its image starts at
      offset i + (number of = rows before i) and ends where the image of
      row i + 1 starts, the last one at the new row count, so the images
      follow each other in source order. */
  lemma LeConstraintsAt(p: Program, i: nat)
    requires Shaped(p) && i < p.nbConstraints
    ensures var r, c := LeConstraints(p), p.comparisons[i];
            var o := i + EqCount(p.comparisons, i);
            var img, bs := LeImage(c, p.constraintCoeff[i]), LeImageRhs(c, p.rhs[i]);
            o + |img| == i + 1 + EqCount(p.comparisons, i + 1) <= r.nbConstraints &&
            (i + 1 == p.nbConstraints ==> o + |img| == r.nbConstraints) &&
            |bs| == |img| &&
            forall j :: 0 <= j < |img| ==> r.constraintCoeff[o + j] == img[j] && r.rhs[o + j] == bs[j]
  {
    var m, c := p.nbConstraints, p.comparisons[i];
    var o := i + EqCount(p.comparisons, i);
    var img, bs := LeImage(c, p.constraintCoeff[i]), LeImageRhs(c, p.rhs[i]);
    var r := LeConstraints(p);
    assert r.constraintCoeff == LeCoeffs(p, m) && r.rhs == LeRhs(p, m);
    assert EqCount(p.comparisons, i + 1) == EqCount(p.comparisons, i) + if c == EQ then 1 else 0;
    LeCoeffsAt(p, m, i, |img| - 1);
    forall j | 0 <= j < |img|
      ensures r.constraintCoeff[o + j] == img[j] && r.rhs[o + j] == bs[j]
    {
      LeCoeffsAt(p, m, i, j);
      LeRhsAt(p, m, i, j);
    }
  }

  /** What source row i becomes, one lemma per kind of row: a <= or < row
      passes through with its right-hand side. */
  lemma LeConstraintsPassThrough(p: Program, i: nat)
    requires Shaped(p) && i < p.nbConstraints && (p.comparisons[i] == LE || p.comparisons[i] == LO)
    ensures var r, o := LeConstraints(p), i + EqCount(p.comparisons, i);
            o < r.nbConstraints && r.constraintCoeff[o] == p.constraintCoeff[i] && r.rhs[o] == p.rhs[i]
  {
    var r, m := LeConstraints(p), p.nbConstraints;
    assert LeImage(p.comparisons[i], p.constraintCoeff[i]) == [p.constraintCoeff[i]];
    assert LeImageRhs(p.comparisons[i], p.rhs[i]) == [p.rhs[i]];
    assert r.constraintCoeff == LeCoeffs(p, m) && r.rhs == LeRhs(p, m);
    LeCoeffsAt(p, m, i, 0);
    LeRhsAt(p, m, i, 0);
  }

  /** A >= or > row is negated together with its right-hand side. */
  lemma LeConstraintsNegated(p: Program, i: nat)
    requires Shaped(p) && i < p.nbConstraints && (p.comparisons[i] == BE || p.comparisons[i] == BI)
    ensures var r, o := LeConstraints(p), i + EqCount(p.comparisons, i);
            o < r.nbConstraints && r.constraintCoeff[o] == Negated(p.constraintCoeff[i]) && r.rhs[o] == -p.rhs[i]
  {
    var r, m := LeConstraints(p), p.nbConstraints;
    assert LeImage(p.comparisons[i], p.constraintCoeff[i]) == [Negated(p.constraintCoeff[i])];
    assert LeImageRhs(p.comparisons[i], p.rhs[i]) == [-p.rhs[i]];
    assert r.constraintCoeff == LeCoeffs(p, m) && r.rhs == LeRhs(p, m);
    LeCoeffsAt(p, m, i, 0);
    LeRhsAt(p, m, i, 0);
  }

  /** An = row becomes itself directly followed by its negation. */
  lemma LeConstraintsEqSplit(p: Program, i: nat)
    requires Shaped(p) && i < p.nbConstraints && p.comparisons[i] == EQ
    ensures var r, o := LeConstraints(p), i + EqCount(p.comparisons, i);
            o + 1 < r.nbConstraints &&
            r.constraintCoeff[o] == p.constraintCoeff[i] && r.rhs[o] == p.rhs[i] &&
            r.constraintCoeff[o + 1] == Negated(p.constraintCoeff[i]) && r.rhs[o + 1] == -p.rhs[i]
  {
    var r, o := LeConstraints(p), i + EqCount(p.comparisons, i);
    LeConstraintsAt(p, i);
    assert r.constraintCoeff[o + 0] == LeImage(EQ, p.constraintCoeff[i])[0];
    assert r.rhs[o + 0] == LeImageRhs(EQ, p.rhs[i])[0];
    assert r.constraintCoeff[o + 1] == LeImage(EQ, p.constraintCoeff[i])[1];
    assert r.rhs[o + 1] == LeImageRhs(EQ, p.rhs[i])[1];
  }

  /** Flipping comparisons keeps which rows are equalities. */
  lemma {:induction false} EqCountNonNegativeRhs(p: Program, k: nat)
    requires Shaped(p) && k <= p.nbConstraints
    ensures EqCount(NonNegativeRhs(p).comparisons, k) == EqCount(p.comparisons, k)
  {
    if k > 0 {
      EqCountNonNegativeRhs(p, k - 1);
    }
  }

  // ---------------------------------------------------------------------
  // Canonical form: the three steps behind a guard on the stage.

  function CanonicalForm(p: Program): (r: Program)
    requires WellFormed(p)
    ensures WellFormed(r) && r.state != Undefined
    ensures p.state != Undefined ==> r == p
    ensures p.state == Undefined ==>
              r.state == Canonical && r.objective == MAXIMIZE && AllAre(r.comparisons, LE) &&
              r.nbConstraints == p.nbConstraints + EqCount(p.comparisons, p.nbConstraints) &&
              r.nbVariables == p.nbVariables
  {
    if p.state != Undefined then p
    else
      EqCountNonNegativeRhs(Maximized(p), p.nbConstraints);
      LeConstraints(NonNegativeRhs(Maximized(p))).(state := Canonical)
  }

  // ---------------------------------------------------------------------
  // Slack form: one extra column per inequality row.

  function DigitChar(d: nat): char
    requires d < 10
  {
    "0123456789"[d]
  }

  /** Decimal digits of n, as "%d" writes them. */
  function NatToString(n: nat): (s: string)
    ensures |s| >= 1
  {
    if n < 10 then [DigitChar(n)] else NatToString(n / 10) + [DigitChar(n % 10)]
  }

  /** Name of the k-th slack variable, counting from 1. */
  function SlackName(k: nat): (name: string)
    ensures |name| >= 2 && name[0] == 's'
  {
    "s" + NatToString(k)
  }

  /** Different numbers are written differently. */
  lemma {:induction false} NatToStringInjective(a: nat, b: nat)
    requires NatToString(a) == NatToString(b)
    ensures a == b
  {
    var s := NatToString(a);
    if a < 10 && b < 10 {
      assert DigitChar(a) == s[0] == DigitChar(b);
    } else if a >= 10 && b >= 10 {
      var n := |s|;
      assert DigitChar(a % 10) == s[n - 1] == DigitChar(b % 10);
      assert NatToString(a / 10) == s[..n - 1] == NatToString(b / 10);
      NatToStringInjective(a / 10, b / 10);
    }
  }

  /** Slack columns with different numbers get different names. */
  lemma SlackNameInjective(j: nat, k: nat)
    requires j != k
    ensures SlackName(j) != SlackName(k)
  {
    if SlackName(j) == SlackName(k) {
      assert NatToString(j) == SlackName(j)[1..] == SlackName(k)[1..] == NatToString(k);
      NatToStringInjective(j, k);
    }
  }

  /** Names the next `count` slack columns get after `existing` names. */
  function SlackNames(existing: nat, count: nat): (names: seq<string>)
    ensures |names| == count
    ensures forall i :: 0 <= i < count ==> names[i] == SlackName(existing + i + 1)
  {
    if count == 0 then [] else SlackNames(existing, count - 1) + [SlackName(existing + count)]
  }

  /** Appends one column that is `value` in `row` and 0 in every other row,
      with a 0 objective coefficient and the next slack name; the row
      becomes an equality. `value` is 1 for a slack and -1 for a surplus. */
  function WithColumn(p: Program, row: nat, value: real): (r: Program)
    requires Shaped(p) && row < p.nbConstraints
    ensures Shaped(r)
    ensures r.nbVariables == p.nbVariables + 1 && r.nbConstraints == p.nbConstraints
    ensures r.rhs == p.rhs && r.objective == p.objective && r.state == p.state
    ensures r.slackVariablesNames == p.slackVariablesNames + [SlackName(|p.slackVariablesNames| + 1)]
    ensures r.objCoeff == p.objCoeff + [0.0]
    ensures forall i :: 0 <= i < p.nbConstraints ==>
              r.constraintCoeff[i] == p.constraintCoeff[i] + [if i == row then value else 0.0]
    ensures r.comparisons == p.comparisons[row := EQ]
    ensures r.variableNames == p.variableNames && r.objVar == p.objVar
  {
    var cc := p.constraintCoeff;
    p.(nbVariables := p.nbVariables + 1,
       slackVariablesNames := p.slackVariablesNames + [SlackName(|p.slackVariablesNames| + 1)],
       objCoeff := p.objCoeff + [0.0],
       constraintCoeff := seq(|cc|, i requires 0 <= i < |cc| => cc[i] + [if i == row then value else 0.0]),
       comparisons := p.comparisons[row := EQ])
  }

  /** The column a row of the given comparison receives, if any. */
  function ColumnValue(c: Comparison): (v: Option<real>)
    ensures v.None? <==> c == EQ
  {
    match c
    case LE => Some(1.0)
    case LO => Some(1.0)
    case BE => Some(-1.0)
    case BI => Some(-1.0)
    case EQ => None
  }

  /** The column makes an inequality row an equality: with the new
      variable set to s = (rhs - lhs) * value the row's left-hand side meets
      rhs exactly, and the source row holds exactly when s is non-negative
      (positive for a strict row). */
  lemma ColumnValueMeaning(c: Comparison, lhs: real, rhs: real)
    requires c != EQ
    ensures var v := ColumnValue(c).value;
            var s := (rhs - lhs) * v;
            lhs + v * s == rhs &&
            (Satisfies(c, lhs, rhs) <==> if c == LO || c == BI then s > 0.0 else s >= 0.0)
  {
  }

  /** Number of rows among the first k that receive a column. */
  function ColumnCount(cs: seq<Comparison>, k: nat): (n: nat)
    requires k <= |cs|
    ensures n == k - EqCount(cs, k)
  {
    if k == 0 then 0 else ColumnCount(cs, k - 1) + (if cs[k - 1] == EQ then 0 else 1)
  }

  /** The model after the first k rows have been given their columns. */
  function EqualitiesUpTo(p: Program, k: nat): (r: Program)
    requires Shaped(p) && k <= p.nbConstraints
    ensures Shaped(r)
    ensures r.nbConstraints == p.nbConstraints && r.rhs == p.rhs
    ensures r.objective == p.objective && r.state == p.state && r.objVar == p.objVar
    ensures r.variableNames == p.variableNames
    ensures r.nbVariables == p.nbVariables + ColumnCount(p.comparisons, k)
    ensures forall i :: 0 <= i < k ==> r.comparisons[i] == EQ
    ensures forall i :: k <= i < p.nbConstraints ==> r.comparisons[i] == p.comparisons[i]
  {
    if k == 0 then p
    else
      var q := EqualitiesUpTo(p, k - 1);
      match ColumnValue(q.comparisons[k - 1])
      case Some(v) => WithColumn(q, k - 1, v)
      case None => q
  }

  /** The new columns are named s<n+1>, s<n+2>, ... after the n slack
      names the model already has. */
  lemma {:induction false} EqualitiesUpToNames(p: Program, k: nat)
    requires Shaped(p) && k <= p.nbConstraints
    ensures EqualitiesUpTo(p, k).slackVariablesNames ==
              p.slackVariablesNames + SlackNames(|p.slackVariablesNames|, ColumnCount(p.comparisons, k))
  {
    if k > 0 {
      EqualitiesUpToNames(p, k - 1);
      var q := EqualitiesUpTo(p, k - 1);
      EqualitiesNamesStep(p, k);
      if p.comparisons[k - 1] != EQ {
        NextSlackName(p.slackVariablesNames, ColumnCount(p.comparisons, k - 1), q.slackVariablesNames,
                      ColumnCount(p.comparisons, k));
      }
    }
  }

  /** Row k - 1 adds one slack name exactly when it is not an equality. */
  lemma EqualitiesNamesStep(p: Program, k: nat)
    requires Shaped(p) && 0 < k <= p.nbConstraints
    ensures var q, r := EqualitiesUpTo(p, k - 1), EqualitiesUpTo(p, k);
      if p.comparisons[k - 1] == EQ then
        r.slackVariablesNames == q.slackVariablesNames &&
        ColumnCount(p.comparisons, k) == ColumnCount(p.comparisons, k - 1)
      else
        r.slackVariablesNames == q.slackVariablesNames + [SlackName(|q.slackVariablesNames| + 1)] &&
        ColumnCount(p.comparisons, k) == ColumnCount(p.comparisons, k - 1) + 1
  {
    assert EqualitiesUpTo(p, k - 1).comparisons[k - 1] == p.comparisons[k - 1];
  }

  /** Appending the next slack name to the names so far. */
  lemma NextSlackName(existing: seq<string>, count: nat, names: seq<string>, next: nat)
    requires names == existing + SlackNames(|existing|, count) && next == count + 1
    ensures names + [SlackName(|names| + 1)] == existing + SlackNames(|existing|, next)
  {
    var n := |existing|;
    assert |names| + 1 == n + (count + 1);
    assert existing + (SlackNames(n, count) + [SlackName(n + (count + 1))])
        == (existing + SlackNames(n, count)) + [SlackName(n + (count + 1))];
  }

  /** The objective keeps its coefficients and gives each new column 0. */
  lemma {:induction false} EqualitiesUpToObjective(p: Program, k: nat)
    requires Shaped(p) && k <= p.nbConstraints
    ensures var r := EqualitiesUpTo(p, k);
      && r.objCoeff[..p.nbVariables] == p.objCoeff
      && forall j :: p.nbVariables <= j < r.nbVariables ==> r.objCoeff[j] == 0.0
  {
    if k > 0 {
      EqualitiesUpToObjective(p, k - 1);
      var q, r := EqualitiesUpTo(p, k - 1), EqualitiesUpTo(p, k);
      if ColumnValue(q.comparisons[k - 1]).Some? {
        assert r.objCoeff == q.objCoeff + [0.0];
        assert r.objCoeff[..p.nbVariables] == q.objCoeff[..p.nbVariables];
      }
    }
  }

  /** Every constraint row keeps its coefficients as a prefix. */
  lemma {:induction false} EqualitiesUpToRows(p: Program, k: nat)
    requires Shaped(p) && k <= p.nbConstraints
    ensures var r := EqualitiesUpTo(p, k);
      forall i :: 0 <= i < p.nbConstraints ==> r.constraintCoeff[i][..p.nbVariables] == p.constraintCoeff[i]
  {
    if k > 0 {
      EqualitiesUpToRows(p, k - 1);
      var q, r := EqualitiesUpTo(p, k - 1), EqualitiesUpTo(p, k);
      if ColumnValue(q.comparisons[k - 1]).Some? {
        forall i | 0 <= i < p.nbConstraints
          ensures r.constraintCoeff[i][..p.nbVariables] == p.constraintCoeff[i]
        {
          assert r.constraintCoeff[i][..q.nbVariables] == q.constraintCoeff[i];
          assert r.constraintCoeff[i][..p.nbVariables] == q.constraintCoeff[i][..p.nbVariables];
        }
      }
    }
  }

  function Equalities(p: Program): (r: Program)
    requires Shaped(p)
    ensures Shaped(r) && AllAre(r.comparisons, EQ)
    ensures r.nbConstraints == p.nbConstraints && r.rhs == p.rhs
    ensures r.nbVariables == p.nbVariables + ColumnCount(p.comparisons, p.nbConstraints)
  {
    EqualitiesUpTo(p, p.nbConstraints)
  }

  /** On a model whose rows are all <=, row i gets the slack column
      nbVariables + i: the new columns form an identity block. */
  lemma {:induction false} EqualitiesOnLeRows(p: Program, k: nat)
    requires Shaped(p) && k <= p.nbConstraints && AllAre(p.comparisons, LE)
    ensures var r := EqualitiesUpTo(p, k);
      && r.nbVariables == p.nbVariables + k
      && forall i, j :: 0 <= i < p.nbConstraints && p.nbVariables <= j < p.nbVariables + k ==>
           r.constraintCoeff[i][j] == if j == p.nbVariables + i then 1.0 else 0.0
  {
    EqCountNone(p.comparisons, k);
    if k > 0 {
      EqualitiesOnLeRows(p, k - 1);
      var q := EqualitiesUpTo(p, k - 1);
      assert q.comparisons[k - 1] == LE;
      var r := EqualitiesUpTo(p, k);
      assert r == WithColumn(q, k - 1, 1.0);
      forall i, j | 0 <= i < p.nbConstraints && p.nbVariables <= j < p.nbVariables + k
        ensures r.constraintCoeff[i][j] == if j == p.nbVariables + i then 1.0 else 0.0
      {
        WithColumnEntry(q, k - 1, i, j);
      }
    }
  }

  /** An entry of a model after a unit column for `row` is added: the old
      entry, or in the new last column 1 on `row` and 0 elsewhere. */
  lemma WithColumnEntry(q: Program, row: nat, i: nat, j: nat)
    requires Shaped(q) && row < q.nbConstraints && i < q.nbConstraints && j <= q.nbVariables
    ensures var r := WithColumn(q, row, 1.0);
      r.constraintCoeff[i][j] ==
        if j < q.nbVariables then q.constraintCoeff[i][j]
        else if i == row then 1.0 else 0.0
  {
    var r := WithColumn(q, row, 1.0);
    assert r.constraintCoeff[i] == q.constraintCoeff[i] + [if i == row then 1.0 else 0.0];
  }

  /** The entry of the col-th new column in row i once the first k rows
      have their columns: a row that is not = owns the column numbered by
      the rows before it that received one, and holds its ColumnValue
      (1 for a slack, -1 for a surplus) there; every other entry is 0. */
  function NewColumnEntry(cs: seq<Comparison>, k: nat, i: nat, col: nat): real
    requires k <= |cs| && i < |cs|
  {
    if i < k && cs[i] != EQ && col == ColumnCount(cs, i) then ColumnValue(cs[i]).value else 0.0
  }

  /** Entry (i, j) after the first k rows have their columns: an original
      column keeps its coefficient, a new column holds NewColumnEntry. */
  lemma {:induction false} EqualitiesUpToEntry(p: Program, k: nat, i: nat, j: nat)
    requires Shaped(p) && k <= p.nbConstraints && i < p.nbConstraints
    requires j < p.nbVariables + ColumnCount(p.comparisons, k)
    ensures EqualitiesUpTo(p, k).constraintCoeff[i][j] ==
              if j < p.nbVariables then p.constraintCoeff[i][j]
              else NewColumnEntry(p.comparisons, k, i, j - p.nbVariables)
  {
    if k > 0 {
      var cs, n := p.comparisons, p.nbVariables;
      var q := EqualitiesUpTo(p, k - 1);
      var c := q.comparisons[k - 1];
      assert c == cs[k - 1];
      match ColumnValue(c)
      case None =>
        assert EqualitiesUpTo(p, k) == q;
        EqualitiesUpToEntry(p, k - 1, i, j);
      case Some(v) =>
        assert EqualitiesUpTo(p, k) == WithColumn(q, k - 1, v);
        WithColumnEntryValue(q, k - 1, v, i, j);
        if j < n + ColumnCount(cs, k - 1) {
          EqualitiesUpToEntry(p, k - 1, i, j);
        } else if i < k - 1 && cs[i] != EQ {
          ColumnCountMonotone(cs, i + 1, k - 1);
        }
    }
  }

  /** An entry after a column for `row` with the given value is added: the
      old entry, or in the new last column the value on `row` and 0
      elsewhere. */
  lemma WithColumnEntryValue(q: Program, row: nat, value: real, i: nat, j: nat)
    requires Shaped(q) && row < q.nbConstraints && i < q.nbConstraints && j <= q.nbVariables
    ensures WithColumn(q, row, value).constraintCoeff[i][j] ==
              if j < q.nbVariables then q.constraintCoeff[i][j]
              else if i == row then value else 0.0
  {
    var r := WithColumn(q, row, value);
    assert r.constraintCoeff[i] == q.constraintCoeff[i] + [if i == row then value else 0.0];
  }

  lemma {:induction false} ColumnCountMonotone(cs: seq<Comparison>, a: nat, b: nat)
    requires a <= b <= |cs|
    ensures ColumnCount(cs, a) <= ColumnCount(cs, b)
    decreases b - a
  {
    if a < b {
      ColumnCountMonotone(cs, a, b - 1);
    }
  }

  /** Giving every row of an all-<= model its slack column yields the
      identity block that WellFormed demands of the slack stage. */
  lemma EqualitiesGiveSlackBasis(q: Program)
    requires Shaped(q) && AllAre(q.comparisons, LE)
    ensures var r := Equalities(q).(state := Slack);
      WellFormed(r) && r.nbVariables == q.nbVariables + q.nbConstraints
  {
    EqualitiesOnLeRows(q, q.nbConstraints);
    EqualitiesUpToObjective(q, q.nbConstraints);
    EqCountNone(q.comparisons, q.nbConstraints);
  }

  lemma {:induction false} EqCountNone(cs: seq<Comparison>, k: nat)
    requires k <= |cs| && AllAre(cs, LE)
    ensures EqCount(cs, k) == 0
  {
    if k > 0 {
      EqCountNone(cs, k - 1);
    }
  }

  function SlackForm(p: Program): (r: Program)
    requires WellFormed(p)
    ensures WellFormed(r) && r.state == Slack && AllAre(r.comparisons, EQ)
    ensures p.state == Slack ==> r == p
    ensures p.state == Undefined ==>
              r.nbConstraints == p.nbConstraints + EqCount(p.comparisons, p.nbConstraints) &&
              r.nbVariables == p.nbVariables + r.nbConstraints
  {
    if p.state == Slack then p
    else
      var q := if p.state == Undefined then CanonicalForm(p) else p;
      EqualitiesGiveSlackBasis(q);
      Equalities(q).(state := Slack)
  }

  /** The slack columns leave the right-hand sides of the canonical form
      as they are. */
  lemma SlackFormRhs(p: Program)
    requires WellFormed(p) && p.state != Slack
    ensures SlackForm(p).rhs == CanonicalForm(p).rhs
  {
  }

  /** On rows that are all <= the third step keeps every row as it is. */
  lemma {:induction false} LeRowsUnchanged(p: Program, k: nat)
    requires Shaped(p) && k <= p.nbConstraints && AllAre(p.comparisons, LE)
    ensures LeCoeffs(p, k) == p.constraintCoeff[..k] && LeRhs(p, k) == p.rhs[..k]
  {
    if k > 0 {
      LeRowsUnchanged(p, k - 1);
      LeStep(p, k - 1);
      assert p.comparisons[k - 1] == LE;
      PrefixStep(p.constraintCoeff, k);
      PrefixStep(p.rhs, k);
    }
  }

  lemma PrefixStep<T>(s: seq<T>, k: nat)
    requires 0 < k <= |s|
    ensures s[..k] == s[..k - 1] + [s[k - 1]]
  {
  }

  /** With every right-hand side already non-negative the second step
      changes nothing. */
  lemma NonNegativeRhsUnchanged(p: Program)
    requires Shaped(p) && forall i :: 0 <= i < |p.rhs| ==> p.rhs[i] >= 0.0
    ensures NonNegativeRhs(p) == p
  {
    var q := NonNegativeRhs(p);
    assert q.rhs == p.rhs;
    assert q.comparisons == p.comparisons;
    assert q.constraintCoeff == p.constraintCoeff;
  }

  /** With every row already <= the third step changes nothing. */
  lemma LeConstraintsUnchanged(p: Program)
    requires Shaped(p) && AllAre(p.comparisons, LE)
    ensures LeConstraints(p) == p
  {
    LeRowsUnchanged(p, p.nbConstraints);
    EqCountNone(p.comparisons, p.nbConstraints);
    assert p.constraintCoeff[..p.nbConstraints] == p.constraintCoeff;
    assert p.rhs[..p.nbConstraints] == p.rhs;
    assert seq(p.nbConstraints, _ => LE) == p.comparisons;
  }

  /** A maximisation whose rows are all <= with non-negative right-hand
      sides is already canonical: the conversion only sets the stage. */
  lemma CanonicalFormOfCanonicalShape(p: Program)
    requires WellFormed(p) && p.state == Undefined && p.objective == MAXIMIZE
    requires AllAre(p.comparisons, LE) && forall i :: 0 <= i < |p.rhs| ==> p.rhs[i] >= 0.0
    ensures CanonicalForm(p) == p.(state := Canonical)
  {
    NonNegativeRhsUnchanged(p);
    LeConstraintsUnchanged(p);
  }

  /** The same for either direction: a minimisation in that shape only has
      its objective negated, becoming a maximisation, and its stage set. */
  lemma CanonicalFormOfLeShape(p: Program)
    requires WellFormed(p) && p.state == Undefined
    requires AllAre(p.comparisons, LE) && forall i :: 0 <= i < |p.rhs| ==> p.rhs[i] >= 0.0
    ensures CanonicalForm(p) == Maximized(p).(state := Canonical)
  {
    NonNegativeRhsUnchanged(Maximized(p));
    LeConstraintsUnchanged(Maximized(p));
  }

  lemma CanonicalFormIdempotent(p: Program)
    requires WellFormed(p)
    ensures CanonicalForm(CanonicalForm(p)) == CanonicalForm(p)
  {
  }

  lemma SlackFormIdempotent(p: Program)
    requires WellFormed(p)
    ensures SlackForm(SlackForm(p)) == SlackForm(p)
  {
  }
}
