/** The primal simplex method on a tableau held as a value: a grid whose
    last row is the objective row and whose last column is the right-hand
    side. These functions specify what the in-place tableau of module
    Simplex computes. Coefficients are real numbers, not floating point. */
module Tableau {
  import opened ModelTypes
  import Conversion

  /** Tolerance: an objective-row entry below -EPSILON counts as negative,
      a pivot-column entry above EPSILON as positive. */
  const EPSILON: real := 0.0000000001

  type Grid = seq<seq<real>>

  /** At least one row and one column, and every row as wide as the first. */
  predicate IsTable(g: Grid) {
    |g| >= 1 && |g[0]| >= 1 && forall i :: 0 <= i < |g| ==> |g[i]| == |g[0]|
  }

  function Width(g: Grid): nat
    requires |g| >= 1
  {
    |g[0]|
  }

  /** The last row: the negated objective and, at its end, the objective
      value. */
  function ObjectiveRow(g: Grid): seq<real>
    requires |g| >= 1
  {
    g[|g| - 1]
  }

  // ---------------------------------------------------------------------
  // Entering variable (Bland's rule).

  /** The first index in [from, end) whose entry is below -EPSILON, or -1. */
  function FirstNegative(row: seq<real>, from: nat, end: nat): (j: int)
    requires from <= end <= |row|
    ensures j == -1 || from <= j < end
    ensures j == -1 ==> forall k :: from <= k < end ==> row[k] >= -EPSILON
    ensures j != -1 ==> row[j] < -EPSILON && forall k :: from <= k < j ==> row[k] >= -EPSILON
    decreases end - from
  {
    if from == end then -1
    else if row[from] < -EPSILON then from
    else FirstNegative(row, from + 1, end)
  }

  /** The entering column: the smallest column left of the right-hand side
      whose objective-row entry is below -EPSILON; -1 means optimal. */
  function EnteringColumn(g: Grid): (j: int)
    requires IsTable(g)
    ensures -1 <= j < Width(g) - 1
    ensures j == -1 <==> forall k :: 0 <= k < Width(g) - 1 ==> ObjectiveRow(g)[k] >= -EPSILON
    ensures j != -1 ==> ObjectiveRow(g)[j] < -EPSILON && forall k :: 0 <= k < j ==> ObjectiveRow(g)[k] >= -EPSILON
  {
    FirstNegative(ObjectiveRow(g), 0, Width(g) - 1)
  }

  // ---------------------------------------------------------------------
  // Leaving variable (minimum ratio test).

  function Ratio(g: Grid, c: nat, i: nat): real
    requires IsTable(g) && c < Width(g) && i < |g| && g[i][c] > 0.0
  {
    g[i][Width(g) - 1] / g[i][c]
  }

  /** A constraint row may leave when its pivot-column entry is above
      EPSILON and its ratio is not below -EPSILON. */
  predicate Eligible(g: Grid, c: nat, i: nat)
    requires IsTable(g) && c < Width(g) && i < |g|
  {
    g[i][c] > EPSILON && Ratio(g, c, i) >= -EPSILON
  }

  datatype Candidate = Candidate(row: nat, ratio: real)

  /** The running minimum after the first k constraint rows: None while no
      row was eligible (an infinite ratio), and a new row replaces the
      current one only when its ratio is smaller by more than EPSILON. */
  function LeavingScan(g: Grid, c: nat, k: nat): (best: Option<Candidate>)
    requires IsTable(g) && c < Width(g) && k <= |g| - 1
    ensures best.Some? ==> best.value.row < k && g[best.value.row][c] > EPSILON
  {
    if k == 0 then None
    else
      var prev := LeavingScan(g, c, k - 1);
      var i := k - 1;
      if g[i][c] > EPSILON then
        var ratio := g[i][Width(g) - 1] / g[i][c];
        if ratio >= -EPSILON then
          match prev
          case None => Some(Candidate(i, ratio))
          case Some(b) => if ratio < b.ratio - EPSILON then Some(Candidate(i, ratio)) else prev
        else prev
      else prev
  }

  /** What the scan keeps: nothing exactly when no row so far is eligible;
      otherwise an eligible row with its ratio, within EPSILON of every
      eligible ratio so far, and strictly below the ratio of every eligible
      row above it. */
  lemma {:induction false} LeavingScanMinimal(g: Grid, c: nat, k: nat)
    requires IsTable(g) && c < Width(g) && k <= |g| - 1
    ensures var best := LeavingScan(g, c, k);
      && (best.None? <==> forall i :: 0 <= i < k ==> !Eligible(g, c, i))
      && (best.Some? ==>
            && Eligible(g, c, best.value.row)
            && best.value.ratio == Ratio(g, c, best.value.row)
            && (forall i :: 0 <= i < k && Eligible(g, c, i) ==> best.value.ratio <= Ratio(g, c, i) + EPSILON)
            && (forall i :: 0 <= i < best.value.row && Eligible(g, c, i) ==> Ratio(g, c, i) > best.value.ratio))
  {
    if k > 0 {
      LeavingScanMinimal(g, c, k - 1);
      var i := k - 1;
      if g[i][c] > EPSILON && Ratio(g, c, i) >= -EPSILON {
        assert Eligible(g, c, i);
      }
    }
  }

  /** The leaving row for column c, or -1 when no row is eligible
      (unbounded); its pivot-column entry is above EPSILON. */
  function LeavingRow(g: Grid, c: nat): (r: int)
    requires IsTable(g) && c < Width(g)
    ensures -1 <= r < |g| - 1
    ensures r != -1 ==> g[r][c] > EPSILON
  {
    match LeavingScan(g, c, |g| - 1)
    case None => -1
    case Some(b) => b.row
  }

  /** The leaving row is -1 exactly when no constraint row is eligible.
      Otherwise it is eligible, its ratio is within EPSILON of every
      eligible ratio, and every eligible row above it has a strictly larger
      ratio, so exact ties go to the smallest row index. */
  lemma LeavingRowMinimal(g: Grid, c: nat)
    requires IsTable(g) && c < Width(g)
    ensures var r := LeavingRow(g, c);
      && (r == -1 <==> forall i :: 0 <= i < |g| - 1 ==> !Eligible(g, c, i))
      && (r != -1 ==>
            && Eligible(g, c, r)
            && (forall i :: 0 <= i < |g| - 1 && Eligible(g, c, i) ==> Ratio(g, c, i) >= Ratio(g, c, r) - EPSILON)
            && (forall i :: 0 <= i < r && Eligible(g, c, i) ==> Ratio(g, c, i) > Ratio(g, c, r)))
  {
    LeavingScanMinimal(g, c, |g| - 1);
  }

  // ---------------------------------------------------------------------
  // Pivot.

  /** Gauss-Jordan step: the pivot row divided by the pivot entry, and that
      row's multiple subtracted from every other row. */
  function Pivot(g: Grid, r: nat, c: nat): (h: Grid)
    requires IsTable(g) && r < |g| && c < Width(g) && g[r][c] != 0.0
    ensures IsTable(h) && |h| == |g| && Width(h) == Width(g)
  {
    var w, p := Width(g), g[r][c];
    seq(|g|, i requires 0 <= i < |g| =>
      if i == r then seq(w, j requires 0 <= j < w => g[r][j] / p)
      else seq(w, j requires 0 <= j < w => g[i][j] - g[i][c] * (g[r][j] / p)))
  }

  /** One entry of the pivoted grid. */
  lemma PivotEntry(g: Grid, r: nat, c: nat, i: nat, j: nat)
    requires IsTable(g) && r < |g| && c < Width(g) && g[r][c] != 0.0 && i < |g| && j < Width(g)
    ensures Pivot(g, r, c)[i][j] == if i == r then g[r][j] / g[r][c] else g[i][j] - g[i][c] * (g[r][j] / g[r][c])
  {
    var w, p := Width(g), g[r][c];
    if i == r {
      assert Pivot(g, r, c)[i] == seq(w, k requires 0 <= k < w => g[r][k] / p);
    } else {
      assert Pivot(g, r, c)[i] == seq(w, k requires 0 <= k < w => g[i][k] - g[i][c] * (g[r][k] / p));
    }
  }

  lemma DivideBySelf(x: real)
    requires x != 0.0
    ensures x / x == 1.0
  {
  }

  /** After the pivot the pivot column is the unit vector of the pivot row. */
  lemma PivotClearsColumn(g: Grid, r: nat, c: nat)
    requires IsTable(g) && r < |g| && c < Width(g) && g[r][c] != 0.0
    ensures var h := Pivot(g, r, c);
      forall i :: 0 <= i < |h| ==> h[i][c] == if i == r then 1.0 else 0.0
  {
  }

  /** Row i's basic variable is a column left of the right-hand side that
      is the i-th unit vector, objective row included. */
  predicate BasisInvariant(g: Grid, basic: seq<nat>)
    requires IsTable(g)
  {
    && |basic| == |g| - 1
    && (forall i :: 0 <= i < |basic| ==> basic[i] < Width(g) - 1)
    && (forall i, k :: 0 <= i < |basic| && 0 <= k < |g| ==> g[k][basic[i]] == if k == i then 1.0 else 0.0)
  }

  /** A pivot on a constraint row, followed by recording the entering
      column as that row's basic variable, keeps the basis invariant. */
  lemma PivotKeepsBasis(g: Grid, basic: seq<nat>, r: nat, c: nat)
    requires IsTable(g) && BasisInvariant(g, basic)
    requires r < |g| - 1 && c < Width(g) - 1 && g[r][c] != 0.0
    ensures BasisInvariant(Pivot(g, r, c), basic[r := c])
  {
    var h := Pivot(g, r, c);
    var b' := basic[r := c];
    forall i, k | 0 <= i < |b'| && 0 <= k < |h|
      ensures h[k][b'[i]] == if k == i then 1.0 else 0.0
    {
      if i == r {
        PivotEntry(g, r, c, k, c);
        DivideBySelf(g[r][c]);
      } else {
        var col := basic[i];
        assert g[r][col] == 0.0;
        PivotEntry(g, r, c, k, col);
      }
    }
  }

  // ---------------------------------------------------------------------
  // Feasibility of the starting basis.

  function RhsNonNegativeFrom(g: Grid, i: nat): (ok: bool)
    requires IsTable(g) && i <= |g| - 1
    ensures ok <==> forall k :: i <= k < |g| - 1 ==> g[k][Width(g) - 1] >= 0.0
    decreases |g| - i
  {
    if i == |g| - 1 then true
    else if g[i][Width(g) - 1] < 0.0 then false
    else RhsNonNegativeFrom(g, i + 1)
  }

  /** Every constraint row's right-hand side is at least 0; the objective
      row is not looked at and no tolerance is applied. */
  function Feasible(g: Grid): (ok: bool)
    requires IsTable(g)
    ensures ok <==> forall k :: 0 <= k < |g| - 1 ==> g[k][Width(g) - 1] >= 0.0
  {
    RhsNonNegativeFrom(g, 0)
  }

  // ---------------------------------------------------------------------
  // Initial tableau.

  /** Constraint rows followed by their right-hand side, then the negated
      objective with right-hand side 0. */
  function InitialGrid(q: Program): (g: Grid)
    requires Shaped(q)
    ensures IsTable(g) && |g| == q.nbConstraints + 1 && Width(g) == q.nbVariables + 1
  {
    var m, n := q.nbConstraints, q.nbVariables;
    seq(m + 1, i requires 0 <= i <= m =>
      if i < m then q.constraintCoeff[i] + [q.rhs[i]]
      else seq(n, j requires 0 <= j < n => -q.objCoeff[j]) + [0.0])
  }

  /** One entry of the initial grid. */
  lemma InitialGridEntry(q: Program, i: nat, j: nat)
    requires Shaped(q) && i <= q.nbConstraints && j <= q.nbVariables
    ensures InitialGrid(q)[i][j] ==
      if i < q.nbConstraints then (if j < q.nbVariables then q.constraintCoeff[i][j] else q.rhs[i])
      else (if j < q.nbVariables then -q.objCoeff[j] else 0.0)
  {
  }

  /** Row i starts with the slack column nbVariables - nbConstraints + i. */
  function InitialBasis(q: Program): (basic: seq<nat>)
    requires q.nbVariables >= q.nbConstraints >= 0
    ensures |basic| == q.nbConstraints
    ensures forall i :: 0 <= i < q.nbConstraints ==> basic[i] == q.nbVariables - q.nbConstraints + i
  {
    seq(q.nbConstraints, i requires 0 <= i < q.nbConstraints => q.nbVariables - q.nbConstraints + i)
  }

  /** In a slack-form model the starting basis is valid. */
  lemma InitialBasisValid(q: Program)
    requires WellFormed(q) && q.state == Slack
    ensures BasisInvariant(InitialGrid(q), InitialBasis(q))
  {
    var g, basic := InitialGrid(q), InitialBasis(q);
    var m, n := q.nbConstraints, q.nbVariables;
    forall i, k | 0 <= i < |basic| && 0 <= k < |g|
      ensures g[k][basic[i]] == if k == i then 1.0 else 0.0
    {
      var col := n - m + i;
      if k < m {
        assert g[k][col] == q.constraintCoeff[k][col];
      } else {
        assert g[k][col] == -q.objCoeff[col];
      }
    }
  }

  // ---------------------------------------------------------------------
  // Solution extraction.

  /** The last of the first k rows whose basic variable is v, or -1. */
  function LastBasicRow(basic: seq<nat>, v: nat, k: nat): (i: int)
    requires k <= |basic|
    ensures -1 <= i < k
    ensures i != -1 ==> basic[i] == v && forall j :: i < j < k ==> basic[j] != v
    ensures i == -1 ==> forall j :: 0 <= j < k ==> basic[j] != v
  {
    if k == 0 then -1
    else if basic[k - 1] == v then k - 1
    else LastBasicRow(basic, v, k - 1)
  }

  /** Values of the first numOrig variables (the right-hand side of the
      row where a variable is basic, else 0), then the objective value. */
  function Extract(g: Grid, basic: seq<nat>, numOrig: nat): (sol: seq<real>)
    requires IsTable(g) && |basic| == |g| - 1
    ensures |sol| == numOrig + 1
    ensures sol[numOrig] == g[|g| - 1][Width(g) - 1]
  {
    var rhsCol := Width(g) - 1;
    seq(numOrig, v requires 0 <= v < numOrig =>
      var i := LastBasicRow(basic, v, |basic|);
      if i == -1 then 0.0 else g[i][rhsCol])
    + [g[|g| - 1][rhsCol]]
  }

  /** Under the basis invariant each variable is basic in at most one row,
      so a basic original variable takes its row's right-hand side and a
      non-basic one takes 0. */
  lemma ExtractUnderBasis(g: Grid, basic: seq<nat>, numOrig: nat)
    requires IsTable(g) && BasisInvariant(g, basic)
    ensures forall i :: 0 <= i < |basic| && basic[i] < numOrig ==>
              Extract(g, basic, numOrig)[basic[i]] == g[i][Width(g) - 1]
    ensures forall v :: 0 <= v < numOrig && (forall i :: 0 <= i < |basic| ==> basic[i] != v) ==>
              Extract(g, basic, numOrig)[v] == 0.0
  {
    var sol := Extract(g, basic, numOrig);
    forall i | 0 <= i < |basic| && basic[i] < numOrig
      ensures sol[basic[i]] == g[i][Width(g) - 1]
    {
      var last := LastBasicRow(basic, basic[i], |basic|);
      assert g[i][basic[last]] == if i == last then 1.0 else 0.0;
      assert g[i][basic[i]] == 1.0;
    }
  }

  // ---------------------------------------------------------------------
  // The iteration and the whole solve.

  datatype Phase = Optimal(g: Grid, basic: seq<nat>) | Unbounded | OutOfPivots

  /** Repeat: choose the entering column (none: optimal), choose the
      leaving row (none: unbounded), pivot and record the new basic
      variable; at most maxPivots pivots are made. */
  function Iterate(g: Grid, basic: seq<nat>, maxPivots: nat): (ph: Phase)
    requires IsTable(g) && |basic| == |g| - 1
    ensures ph.Optimal? ==>
              IsTable(ph.g) && |ph.g| == |g| && Width(ph.g) == Width(g) && |ph.basic| == |basic|
    ensures ph.Optimal? ==> EnteringColumn(ph.g) == -1
    decreases maxPivots
  {
    var c := EnteringColumn(g);
    if c == -1 then Optimal(g, basic)
    else
      var r := LeavingRow(g, c);
      if r == -1 then Unbounded
      else if maxPivots == 0 then OutOfPivots
      else Iterate(Pivot(g, r, c), basic[r := c], maxPivots - 1)
  }

  /** An optimal phase whose final basis satisfies the basis invariant. */
  predicate BasisHeld(ph: Phase) {
    ph.Optimal? ==> IsTable(ph.g) && BasisInvariant(ph.g, ph.basic)
  }

  /** Starting from a valid basis, the basis reached at optimality is valid. */
  lemma {:induction false} IterateKeepsBasis(g: Grid, basic: seq<nat>, maxPivots: nat)
    requires IsTable(g) && BasisInvariant(g, basic)
    ensures BasisHeld(Iterate(g, basic, maxPivots))
    decreases maxPivots, 1
  {
    var c := EnteringColumn(g);
    var r := if c == -1 then -1 else LeavingRow(g, c);
    if c != -1 && r != -1 && maxPivots > 0 {
      PivotThenKeepBasis(g, basic, maxPivots, r, c);
    } else {
      IterateHalts(g, basic, maxPivots);
    }
  }

  /** The pivoting case of IterateKeepsBasis. */
  lemma {:induction false} PivotThenKeepBasis(g: Grid, basic: seq<nat>, maxPivots: nat, r: nat, c: nat)
    requires IsTable(g) && BasisInvariant(g, basic)
    requires c == EnteringColumn(g) && r == LeavingRow(g, c) && maxPivots > 0
    ensures BasisHeld(Iterate(g, basic, maxPivots))
    decreases maxPivots, 0
  {
    var h, b := Pivot(g, r, c), basic[r := c];
    assert BasisHeld(Iterate(h, b, maxPivots - 1)) by {
      PivotKeepsBasis(g, basic, r, c);
      IterateKeepsBasis(h, b, maxPivots - 1);
    }
    IterateStep(g, basic, maxPivots, r, c, h, b, maxPivots - 1);
  }

  /** When no pivot is made, the iteration ends where it is: optimal on
      the given grid and basis, or not optimal at all. */
  lemma IterateHalts(g: Grid, basic: seq<nat>, maxPivots: nat)
    requires IsTable(g) && |basic| == |g| - 1
    requires var c := EnteringColumn(g);
      c == -1 || LeavingRow(g, c) == -1 || maxPivots == 0
    ensures var ph := Iterate(g, basic, maxPivots);
      ph.Optimal? ==> ph == Optimal(g, basic)
  {
  }

  /** One pivot round of Iterate: when an entering column and a leaving
      row exist and pivots remain, iterating from g is iterating from the
      pivoted grid with the updated basis and one pivot fewer. */
  lemma IterateStep(g: Grid, basic: seq<nat>, maxPivots: nat, r: nat, c: nat, h: Grid, b: seq<nat>, left: nat)
    requires IsTable(g) && |basic| == |g| - 1
    requires c == EnteringColumn(g) && r == LeavingRow(g, c) && maxPivots > 0
    requires h == Pivot(g, r, c) && b == basic[r := c] && left == maxPivots - 1
    ensures Iterate(g, basic, maxPivots) == Iterate(h, b, left)
  {
    assert EnteringColumn(g) != -1 && LeavingRow(g, c) != -1;
  }

  datatype SolveError = InfeasibleProblem | UnboundedProblem | IterationLimit

  datatype Outcome = Outcome(model: Program, error: Option<SolveError>)

  /** The solution as stored: the objective value (last) has its sign
      restored when the original direction was MINIMIZE, since the
      minimisation was solved as the maximisation of its negation. */
  function Reported(sol: seq<real>, originalObjective: Objective): (r: seq<real>)
    requires |sol| >= 1
    ensures |r| == |sol| && r[..|sol| - 1] == sol[..|sol| - 1]
    ensures r[|sol| - 1] == if originalObjective == MINIMIZE then -sol[|sol| - 1] else sol[|sol| - 1]
  {
    if originalObjective == MINIMIZE then sol[|sol| - 1 := sol[|sol| - 1] * -1.0] else sol
  }

  /** How the iteration's phase ends the solve of the slack-form problem
      q: unbounded or out of pivots leave q unchanged with the error; at
      optimality the extracted solution is stored (objective sign restored
      for a minimisation) and the stage reset to Undefined. */
  function Conclude(q: Program, originalObjective: Objective, ph: Phase): (out: Outcome)
    requires WellFormed(q) && q.nbVariables >= q.nbConstraints
    requires ph.Optimal? ==> IsTable(ph.g) && |ph.basic| == |ph.g| - 1
    ensures WellFormed(out.model)
    ensures out.error.None? <==> ph.Optimal?
    ensures out.error.Some? ==> out.model == q && out.error != Some(InfeasibleProblem)
    ensures out.error.None? ==>
              && out.model == q.(objVar := out.model.objVar, state := Undefined)
              && out.model.objVar.Some?
              && |out.model.objVar.value| == q.nbVariables - q.nbConstraints + 1
  {
    match ph
    case Unbounded => Outcome(q, Some(UnboundedProblem))
    case OutOfPivots => Outcome(q, Some(IterationLimit))
    case Optimal(h, b) =>
      var sol := Extract(h, b, q.nbVariables - q.nbConstraints);
      Outcome(q.(objVar := Some(Reported(sol, originalObjective)), state := Undefined), None)
  }

  /** Solving a problem already in slack form: initial tableau,
      feasibility check (infeasible: the problem is unchanged), then the
      iteration from the slack basis. */
  function SolveSlackForm(q: Program, originalObjective: Objective, maxPivots: nat): (out: Outcome)
    requires WellFormed(q) && q.state == Slack
    ensures WellFormed(out.model)
    ensures out.error.Some? ==> out.model == q
    ensures out.error == Some(InfeasibleProblem) <==> !Feasible(InitialGrid(q))
    ensures out.error.None? ==>
              && out.model == q.(objVar := out.model.objVar, state := Undefined)
              && out.model.objVar.Some?
              && |out.model.objVar.value| == q.nbVariables - q.nbConstraints + 1
  {
    var g := InitialGrid(q);
    if !Feasible(g) then Outcome(q, Some(InfeasibleProblem))
    else Conclude(q, originalObjective, Iterate(g, InitialBasis(q), maxPivots))
  }

  /** The starting tableau's last column holds the right-hand sides, so
      the solve stops as infeasible exactly when a right-hand side of the
      slack form is negative. */
  lemma InfeasibleIffNegativeRhs(p: Program, maxPivots: nat)
    requires WellFormed(p)
    ensures var q := Conversion.SlackForm(p);
      SolveOutcome(p, maxPivots).error == Some(InfeasibleProblem) <==>
      exists i :: 0 <= i < |q.rhs| && q.rhs[i] < 0.0
  {
    var q := Conversion.SlackForm(p);
    assert SolveOutcome(p, maxPivots) == SolveSlackForm(q, p.objective, maxPivots);
    FeasibleInitialGrid(q);
  }

  /** The starting tableau is feasible exactly when every right-hand side
      of the problem is non-negative. */
  lemma FeasibleInitialGrid(q: Program)
    requires Shaped(q)
    ensures Feasible(InitialGrid(q)) <==> forall i :: 0 <= i < |q.rhs| ==> q.rhs[i] >= 0.0
  {
    var g := InitialGrid(q);
    forall k | 0 <= k < |g| - 1
      ensures g[k][Width(g) - 1] == q.rhs[k]
    {
      InitialGridEntry(q, k, q.nbVariables);
    }
  }

  /** Solve: slack form first, then the tableau method on it. */
  function SolveOutcome(p: Program, maxPivots: nat): (out: Outcome)
    requires WellFormed(p)
    ensures WellFormed(out.model)
    ensures out.error.Some? ==> out.model == Conversion.SlackForm(p)
    ensures out.error.None? ==>
              && out.model == Conversion.SlackForm(p).(objVar := out.model.objVar, state := Undefined)
              && out.model.objVar.Some?
  {
    SolveSlackForm(Conversion.SlackForm(p), p.objective, maxPivots)
  }

  /** What the solve stores on success: the basis reached at optimality is
      valid, a basic original variable takes its row's right-hand side, a
      non-basic one takes 0, and the last value is the objective row's
      right-hand side, negated for a minimisation. */
  lemma SolveSolution(p: Program, maxPivots: nat)
    requires WellFormed(p)
    ensures var q := Conversion.SlackForm(p);
            var ph := Iterate(InitialGrid(q), InitialBasis(q), maxPivots);
            var out := SolveOutcome(p, maxPivots);
            out.error.None? ==>
              && ph.Optimal? && IsTable(ph.g) && EnteringColumn(ph.g) == -1
              && BasisInvariant(ph.g, ph.basic)
              && SolutionUnderBasis(out.model.objVar.value, ph.g, ph.basic,
                                    q.nbVariables - q.nbConstraints, p.objective)
  {
    var q := Conversion.SlackForm(p);
    var g, basic := InitialGrid(q), InitialBasis(q);
    InitialBasisValid(q);
    IterateKeepsBasis(g, basic, maxPivots);
    assert SolveOutcome(p, maxPivots) == SolveSlackForm(q, p.objective, maxPivots);
    var ph := Iterate(g, basic, maxPivots);
    if ph.Optimal? && Feasible(g) {
      ConcludeUnderBasis(q, p.objective, ph);
    }
  }

  /** The stored values sol read off an optimal grid g with a valid basis:
      numOrig variable values, then the objective value. */
  predicate SolutionUnderBasis(sol: seq<real>, g: Grid, basic: seq<nat>, numOrig: nat, originalObjective: Objective)
    requires IsTable(g) && |basic| == |g| - 1
  {
    && |sol| == numOrig + 1
    && (forall i :: 0 <= i < |basic| && basic[i] < numOrig ==> sol[basic[i]] == g[i][Width(g) - 1])
    && (forall v :: 0 <= v < numOrig && (forall i :: 0 <= i < |basic| ==> basic[i] != v) ==> sol[v] == 0.0)
    && sol[numOrig] == if originalObjective == MINIMIZE then -g[|g| - 1][Width(g) - 1] else g[|g| - 1][Width(g) - 1]
  }

  /** Concluding at optimality under a valid basis stores the solution
      SolutionUnderBasis describes. */
  lemma ConcludeUnderBasis(q: Program, originalObjective: Objective, ph: Phase)
    requires WellFormed(q) && q.nbVariables >= q.nbConstraints
    requires ph.Optimal? && IsTable(ph.g) && BasisInvariant(ph.g, ph.basic)
    ensures var out := Conclude(q, originalObjective, ph);
            out.error.None? && out.model.objVar.Some? &&
            SolutionUnderBasis(out.model.objVar.value, ph.g, ph.basic,
                               q.nbVariables - q.nbConstraints, originalObjective)
  {
    var n0 := q.nbVariables - q.nbConstraints;
    var sol := Extract(ph.g, ph.basic, n0);
    var r := Reported(sol, originalObjective);
    ExtractUnderBasis(ph.g, ph.basic, n0);
    forall v | 0 <= v < n0
      ensures r[v] == sol[v]
    {
      assert r[v] == r[..n0][v];
    }
  }
}
