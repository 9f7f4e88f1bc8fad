/** The simplex tableau as the solver keeps it: a two-dimensional array
    updated in place and an array recording each constraint row's basic
    variable. Every operation is proved against the grid functions of
    module Tableau, through the predicate Holds that ties the array to the
    grid it stores. */
module Simplex {
  import opened ModelTypes
  import opened Tableau
  import Conversion
  import Model

  /** How the pivoting loop stopped: optimal, unbounded, or out of pivots. */
  datatype Status = Done | NoLeavingRow | LimitReached

  /** The phase a loop that stopped with the given status reports. */
  function Ended(status: Status, final: Grid, basic: seq<nat>): Phase {
    match status
    case Done => Optimal(final, basic)
    case NoLeavingRow => Unbounded
    case LimitReached => OutOfPivots
  }

  class SimplexTable {
    /** (constraints + objective row) x (variables + right-hand side). */
    var data: array2<real>
    /** The basic variable of each constraint row, as a column index. */
    var basicVariables: array<nat>

    /** One basic variable per constraint row, and a non-empty table. */
    predicate Valid()
      reads this
    {
      data.Length0 >= 1 && data.Length1 >= 1 && basicVariables.Length == data.Length0 - 1
    }

    /** The array stores exactly the grid g. */
    predicate Holds(g: Grid)
      reads this, data
    {
      && |g| == data.Length0
      && (forall i :: 0 <= i < |g| ==> |g[i]| == data.Length1)
      && (forall i, j :: 0 <= i < data.Length0 && 0 <= j < data.Length1 ==> data[i, j] == g[i][j])
    }

    /** The basic variables as a sequence. */
    function Basis(): seq<nat>
      reads this, basicVariables
    {
      basicVariables[..]
    }

    /** The zero value: no rows, no basic variables. */
    constructor ()
      ensures data.Length0 == 0 && data.Length1 == 0 && basicVariables.Length == 0
    {
      data := new real[0, 0];
      basicVariables := new nat[0];
    }

    /** Builds the initial tableau from the slack form of the problem
        (converting the problem first unless it is already in slack form);
        the slack columns form the starting basis. */
    method InitializeTableau(problem: Model.LinearProgram)
      requires WellFormed(problem.Value())
      modifies this, problem
      ensures problem.Value() == Conversion.SlackForm(old(problem.Value()))
      ensures fresh(data) && fresh(basicVariables)
      ensures Valid() && Holds(InitialGrid(problem.Value())) && Basis() == InitialBasis(problem.Value())
    {
      if problem.state != Slack {
        problem.ToSlackForm();
      }
      LoadSlackForm(problem);
    }

    /** The tableau of a problem already in slack form. */
    method LoadSlackForm(problem: Model.LinearProgram)
      requires WellFormed(problem.Value()) && problem.state == Slack
      modifies this
      ensures fresh(data) && fresh(basicVariables)
      ensures Valid() && Holds(InitialGrid(problem.Value())) && Basis() == InitialBasis(problem.Value())
    {
      var rows, basic := BuildTableau(problem.Value());
      data, basicVariables := rows, basic;
      assert Basis() == basic[..];
    }

    /** The constraint rows with their right-hand sides, then the negated
        objective with value 0; row i's basic variable is slack column
        nbVariables - nbConstraints + i. */
    static method BuildTableau(q: Program) returns (rows: array2<real>, basic: array<nat>)
      requires WellFormed(q) && q.state == Slack
      ensures fresh(rows) && fresh(basic)
      ensures rows.Length0 == q.nbConstraints + 1 && rows.Length1 == q.nbVariables + 1
      ensures forall i, j :: 0 <= i < rows.Length0 && 0 <= j < rows.Length1 ==> rows[i, j] == InitialGrid(q)[i][j]
      ensures basic[..] == InitialBasis(q)
    {
      var m := q.nbConstraints;
      var n := q.nbVariables;
      var nOrig := n - m;
      ghost var g := InitialGrid(q);
      rows := new real[m + 1, n + 1];
      basic := new nat[m];

      // Constraint rows, right-hand sides and the slack basis.
      var i := 0;
      while i < m
        invariant 0 <= i <= m
        invariant forall k, l :: 0 <= k < i && 0 <= l <= n ==> rows[k, l] == g[k][l]
        invariant forall k :: 0 <= k < i ==> basic[k] == nOrig + k
      {
        CopyConstraintRow(rows, q, i);
        basic[i] := nOrig + i;
        i := i + 1;
      }
      FillObjectiveRow(rows, q);

      ghost var initial := InitialBasis(q);
      assert basic[..] == initial by {
        forall k | 0 <= k < m
          ensures basic[..][k] == initial[k]
        {
        }
      }
    }

    /** Row i of the tableau: the constraint's coefficients, then its
        right-hand side; the other rows are untouched. */
    static method CopyConstraintRow(rows: array2<real>, q: Program, i: nat)
      requires Shaped(q) && i < q.nbConstraints
      requires rows.Length0 == q.nbConstraints + 1 && rows.Length1 == q.nbVariables + 1
      modifies rows
      ensures forall l :: 0 <= l < rows.Length1 ==> rows[i, l] == InitialGrid(q)[i][l]
      ensures forall k, l :: 0 <= k < rows.Length0 && k != i && 0 <= l < rows.Length1 ==>
                rows[k, l] == old(rows[k, l])
    {
      var n := q.nbVariables;
      ghost var g := InitialGrid(q);
      var j := 0;
      while j < n
        invariant 0 <= j <= n
        invariant forall l :: 0 <= l < j ==> rows[i, l] == g[i][l]
        invariant forall k, l :: 0 <= k < rows.Length0 && k != i && 0 <= l < rows.Length1 ==>
                    rows[k, l] == old(rows[k, l])
      {
        InitialGridEntry(q, i, j);
        rows[i, j] := q.constraintCoeff[i][j];
        j := j + 1;
      }
      InitialGridEntry(q, i, n);
      rows[i, n] := q.rhs[i];
    }

    /** The bottom row: the negated objective coefficients and objective
        value 0; the constraint rows are untouched. */
    static method FillObjectiveRow(rows: array2<real>, q: Program)
      requires Shaped(q)
      requires rows.Length0 == q.nbConstraints + 1 && rows.Length1 == q.nbVariables + 1
      modifies rows
      ensures forall l :: 0 <= l < rows.Length1 ==> rows[q.nbConstraints, l] == InitialGrid(q)[q.nbConstraints][l]
      ensures forall k, l :: 0 <= k < q.nbConstraints && 0 <= l < rows.Length1 ==> rows[k, l] == old(rows[k, l])
    {
      var m, n := q.nbConstraints, q.nbVariables;
      ghost var g := InitialGrid(q);
      var j := 0;
      while j < n
        invariant 0 <= j <= n
        invariant forall l :: 0 <= l < j ==> rows[m, l] == g[m][l]
        invariant forall k, l :: 0 <= k < m && 0 <= l < rows.Length1 ==> rows[k, l] == old(rows[k, l])
      {
        InitialGridEntry(q, m, j);
        rows[m, j] := -q.objCoeff[j];
        j := j + 1;
      }
      InitialGridEntry(q, m, n);
      rows[m, n] := 0.0;
    }

    /** Bland's rule: the first objective-row column, right-hand side
        excluded, whose entry is below -EPSILON; -1 when optimal. */
    method FindEnteringVariable(ghost g: Grid) returns (col: int)
      requires Valid() && Holds(g)
      ensures IsTable(g) && col == EnteringColumn(g)
    {
      var objectiveRow := data.Length0 - 1;
      var j := 0;
      while j < data.Length1 - 1
        invariant 0 <= j <= data.Length1 - 1
        invariant FirstNegative(ObjectiveRow(g), 0, data.Length1 - 1)
                  == FirstNegative(ObjectiveRow(g), j, data.Length1 - 1)
      {
        var coefficient := data[objectiveRow, j];
        if coefficient < -EPSILON {
          return j;
        }
        j := j + 1;
      }
      return -1;
    }

    /** Minimum ratio test over the constraint rows for the given column;
        a later row wins only with a ratio smaller by more than EPSILON. */
    method FindLeavingVariable(ghost g: Grid, pivotCol: nat) returns (pivotRow: int)
      requires Valid() && Holds(g) && pivotCol < data.Length1
      ensures IsTable(g) && pivotRow == LeavingRow(g, pivotCol)
    {
      var numConstraintRows := data.Length0 - 1;
      var rhsCol := data.Length1 - 1;
      var smallestRatio: Option<real> := None;  // +Inf
      pivotRow := -1;
      var i := 0;
      while i < numConstraintRows
        invariant 0 <= i <= numConstraintRows
        invariant smallestRatio.None? ==> pivotRow == -1 && LeavingScan(g, pivotCol, i).None?
        invariant smallestRatio.Some? ==>
                    0 <= pivotRow && LeavingScan(g, pivotCol, i) == Some(Candidate(pivotRow, smallestRatio.value))
      {
        var pivotColValue := data[i, pivotCol];
        var rhsValue := data[i, rhsCol];
        if pivotColValue > EPSILON {
          var ratio := rhsValue / pivotColValue;
          if ratio >= -EPSILON {
            if smallestRatio.None? || ratio < smallestRatio.value - EPSILON {
              smallestRatio := Some(ratio);
              pivotRow := i;
            }
          }
        }
        i := i + 1;
      }
    }

    /** Divides the pivot row by the pivot element, then subtracts the
        matching multiple of the new pivot row from every other row. */
    method PerformPivot(ghost g: Grid, pivotRow: nat, pivotCol: nat)
      requires Valid() && Holds(g) && pivotRow < data.Length0 && pivotCol < data.Length1
      requires data[pivotRow, pivotCol] != 0.0
      modifies data
      ensures IsTable(g) && Holds(Pivot(g, pivotRow, pivotCol))
    {
      var numRows := data.Length0;
      var numCols := data.Length1;
      var pivotElement := data[pivotRow, pivotCol];
      ghost var h := Pivot(g, pivotRow, pivotCol);

      // Step 1: normalise the pivot row.
      var j := 0;
      while j < numCols
        invariant 0 <= j <= numCols
        invariant forall b :: 0 <= b < numCols ==> data[pivotRow, b] == if b < j then h[pivotRow][b] else g[pivotRow][b]
        invariant forall a, b :: 0 <= a < numRows && a != pivotRow && 0 <= b < numCols ==> data[a, b] == g[a][b]
      {
        PivotEntry(g, pivotRow, pivotCol, pivotRow, j);
        data[pivotRow, j] := data[pivotRow, j] / pivotElement;
        j := j + 1;
      }

      // Step 2: eliminate the pivot column from every other row.
      var i := 0;
      while i < numRows
        invariant 0 <= i <= numRows
        invariant forall b :: 0 <= b < numCols ==> data[pivotRow, b] == h[pivotRow][b]
        invariant forall a, b :: 0 <= a < i && a != pivotRow && 0 <= b < numCols ==> data[a, b] == h[a][b]
        invariant forall a, b :: i <= a < numRows && a != pivotRow && 0 <= b < numCols ==> data[a, b] == g[a][b]
      {
        if i != pivotRow {
          SubtractPivotRow(g, i, pivotRow, pivotCol);
        }
        i := i + 1;
      }
    }

    /** Row i minus its pivot-column entry times the normalised pivot row:
        row i of the pivoted grid. No other row changes. */
    method SubtractPivotRow(ghost g: Grid, i: nat, pivotRow: nat, pivotCol: nat)
      requires IsTable(g) && |g| == data.Length0 && Width(g) == data.Length1
      requires i < |g| && pivotRow < |g| && i != pivotRow && pivotCol < Width(g) && g[pivotRow][pivotCol] != 0.0
      requires forall b :: 0 <= b < data.Length1 ==> data[i, b] == g[i][b]
      requires forall b :: 0 <= b < data.Length1 ==> data[pivotRow, b] == Pivot(g, pivotRow, pivotCol)[pivotRow][b]
      modifies data
      ensures forall b :: 0 <= b < data.Length1 ==> data[i, b] == Pivot(g, pivotRow, pivotCol)[i][b]
      ensures forall a, b :: 0 <= a < data.Length0 && a != i && 0 <= b < data.Length1 ==> data[a, b] == old(data[a, b])
    {
      ghost var h := Pivot(g, pivotRow, pivotCol);
      var numCols := data.Length1;
      var factor := data[i, pivotCol];
      var j := 0;
      while j < numCols
        invariant 0 <= j <= numCols
        invariant forall b :: 0 <= b < numCols ==> data[i, b] == if b < j then h[i][b] else g[i][b]
        invariant forall a, b :: 0 <= a < data.Length0 && a != i && 0 <= b < numCols ==> data[a, b] == old(data[a, b])
      {
        PivotEntry(g, pivotRow, pivotCol, pivotRow, j);
        PivotEntry(g, pivotRow, pivotCol, i, j);
        data[i, j] := data[i, j] - factor * data[pivotRow, j];
        j := j + 1;
      }
    }

    /** One step of the pivoting loop: the pivot, then the entering column
        recorded as the basic variable of the pivot row. */
    method PivotAndRecord(ghost g: Grid, pivotRow: nat, pivotCol: nat)
      requires Valid() && Holds(g) && pivotRow < data.Length0 - 1 && pivotCol < data.Length1
      requires data[pivotRow, pivotCol] != 0.0
      modifies data, basicVariables
      ensures Valid() && IsTable(g) && Holds(Pivot(g, pivotRow, pivotCol))
      ensures Basis() == old(Basis())[pivotRow := pivotCol]
    {
      PerformPivot(g, pivotRow, pivotCol);
      basicVariables[pivotRow] := pivotCol;
    }

    /** Every constraint row's right-hand side is non-negative. */
    method IsInitiallyFeasible(ghost g: Grid) returns (ok: bool)
      requires Valid() && Holds(g)
      ensures IsTable(g) && ok == Feasible(g)
    {
      var rhsCol := data.Length1 - 1;
      var numConstraintRows := data.Length0 - 1;
      var i := 0;
      while i < numConstraintRows
        invariant 0 <= i <= numConstraintRows
        invariant forall k :: 0 <= k < i ==> data[k, rhsCol] >= 0.0
      {
        if data[i, rhsCol] < 0.0 {
          return false;
        }
        i := i + 1;
      }
      return true;
    }

    /** One round of the pivoting loop for an entering column: the leaving
        row (none: unbounded), then, while pivots remain, the pivot, the
        basis update and the next entering column; next is the grid the
        array then holds. */
    method PivotRound(ghost g: Grid, ghost target: Phase, remaining: nat, pivotCol: nat)
      returns (stop: Option<Status>, ghost next: Grid, nextCol: int, left: nat)
      requires Valid() && Holds(g) && IsTable(g) && |Basis()| == |g| - 1 && pivotCol == EnteringColumn(g)
      requires Iterate(g, Basis(), remaining) == target
      modifies data, basicVariables
      ensures Valid() && Holds(next) && IsTable(next) && |Basis()| == |next| - 1
      ensures stop.Some? ==> stop.value != Done && Ended(stop.value, g, Basis()) == target
      ensures stop.None? ==> left < remaining && nextCol == EnteringColumn(next)
                             && Iterate(next, Basis(), left) == target
    {
      ghost var b := Basis();
      next, nextCol, left := g, pivotCol, remaining;
      var pivotRow := FindLeavingVariable(g, pivotCol);
      if pivotRow == -1 {
        assert Iterate(g, b, remaining) == Unbounded;
        return Some(NoLeavingRow), next, nextCol, left;
      }
      if remaining == 0 {
        assert Iterate(g, b, remaining) == OutOfPivots;
        return Some(LimitReached), next, nextCol, left;
      }
      next, nextCol, left := PivotStep(g, target, remaining, pivotRow, pivotCol);
      stop := None;
    }

    /** The pivot of one round and the next entering column. */
    method PivotStep(ghost g: Grid, ghost target: Phase, remaining: nat, pivotRow: nat, pivotCol: nat)
      returns (ghost next: Grid, nextCol: int, left: nat)
      requires Valid() && Holds(g) && IsTable(g) && |Basis()| == |g| - 1
      requires pivotCol == EnteringColumn(g) && pivotRow == LeavingRow(g, pivotCol) && remaining > 0
      requires Iterate(g, Basis(), remaining) == target
      modifies data, basicVariables
      ensures Valid() && Holds(next) && IsTable(next) && |Basis()| == |next| - 1
      ensures left < remaining && nextCol == EnteringColumn(next) && Iterate(next, Basis(), left) == target
    {
      ghost var b := Basis();
      PivotAndRecord(g, pivotRow, pivotCol);
      next, left := Pivot(g, pivotRow, pivotCol), remaining - 1;
      IterateStep(g, b, remaining, pivotRow, pivotCol, next, Basis(), left);
      nextCol := FindEnteringVariable(next);
    }

    /** The pivoting loop of Solve: pivot until the objective row has no
        entry below -EPSILON, no row can leave, or maxPivots pivots were
        made, recording each entering column as its row's basic variable.
        On Done, final is the grid the array then holds. */
    method PivotUntilDone(ghost g: Grid, maxPivots: nat) returns (status: Status, ghost final: Grid)
      requires Valid() && Holds(g)
      modifies data, basicVariables
      ensures Valid() && IsTable(g)
      ensures status == Done ==> Holds(final)
      ensures Iterate(g, old(Basis()), maxPivots) == Ended(status, final, Basis())
    {
      ghost var start := Iterate(g, Basis(), maxPivots);
      final := g;
      var remaining := maxPivots;
      var pivotCol := FindEnteringVariable(final);
      while pivotCol != -1
        invariant Valid() && Holds(final) && IsTable(final) && |Basis()| == |final| - 1
        invariant pivotCol == EnteringColumn(final)
        invariant Iterate(final, Basis(), remaining) == start
        decreases remaining
      {
        var stop, next, nextCol, left := PivotRound(final, start, remaining, pivotCol);
        if stop.Some? {
          return stop.value, final;
        }
        final, remaining, pivotCol := next, left, nextCol;
      }
      assert Iterate(final, Basis(), remaining) == Optimal(final, Basis());
      return Done, final;
    }

    /** Each original variable gets the right-hand side of a row where it
        is basic (the last such row) or 0; the objective value follows. */
    method ExtractSolution(problem: Model.LinearProgram, ghost g: Grid) returns (solution: seq<real>)
      requires Valid() && Holds(g) && problem.nbVariables >= problem.nbConstraints
      ensures IsTable(g) && solution == Extract(g, Basis(), problem.nbVariables - problem.nbConstraints)
    {
      var numOrigVars := problem.nbVariables - problem.nbConstraints;
      solution := seq(numOrigVars, _ => 0.0);
      var rhsCol := data.Length1 - 1;
      var i := 0;
      while i < basicVariables.Length
        invariant 0 <= i <= basicVariables.Length
        invariant |solution| == numOrigVars
        invariant forall v :: 0 <= v < numOrigVars ==>
                    solution[v] == (var k := LastBasicRow(Basis(), v, i); if k == -1 then 0.0 else g[k][rhsCol])
      {
        var basicVarIndex := basicVariables[i];
        if basicVarIndex < numOrigVars {
          solution := solution[basicVarIndex := data[i, rhsCol]];
        }
        i := i + 1;
      }
      var objectiveRow := data.Length0 - 1;
      var objectiveValue := data[objectiveRow, rhsCol];
      solution := solution + [objectiveValue];
    }
  }

  /** Solves the problem in place: on success the solution is stored in
      objVar (objective value last, sign restored for a minimisation) and
      the stage reset to Undefined; on failure the problem is left in slack
      form. At most maxPivots pivots are made. */
  method Solve(lp: Model.LinearProgram, maxPivots: nat) returns (err: Option<SolveError>)
    requires WellFormed(lp.Value())
    modifies lp
    ensures Outcome(lp.Value(), err) == SolveOutcome(old(lp.Value()), maxPivots)
  {
    var originalObjective := lp.objective;
    lp.ToSlackForm();
    err := SolveInSlackForm(lp, originalObjective, maxPivots);
  }

  /** The part of Solve after the conversion to slack form. */
  method SolveInSlackForm(lp: Model.LinearProgram, originalObjective: Objective, maxPivots: nat)
    returns (err: Option<SolveError>)
    requires WellFormed(lp.Value()) && lp.state == Slack
    modifies lp
    ensures Outcome(lp.Value(), err) == SolveSlackForm(old(lp.Value()), originalObjective, maxPivots)
  {
    var table := new SimplexTable();
    table.InitializeTableau(lp);
    ghost var g0 := InitialGrid(lp.Value());
    var feasible := table.IsInitiallyFeasible(g0);
    if !feasible {
      return Some(InfeasibleProblem);
    }
    err := PivotAndStore(lp, table, g0, originalObjective, maxPivots);
  }

  /** The pivoting loop of Solve and, at optimality, the solution stored in
      the problem with the stage reset to Undefined; on failure the problem
      is left as it was. */
  method PivotAndStore(lp: Model.LinearProgram, table: SimplexTable, ghost g0: Grid,
                       originalObjective: Objective, maxPivots: nat)
    returns (err: Option<SolveError>)
    requires WellFormed(lp.Value()) && lp.nbVariables >= lp.nbConstraints
    requires table.Valid() && table.Holds(g0)
    modifies lp, table.data, table.basicVariables
    ensures IsTable(g0) && |old(table.Basis())| == |g0| - 1
    ensures Outcome(lp.Value(), err) == Conclude(old(lp.Value()), originalObjective, Iterate(g0, old(table.Basis()), maxPivots))
  {
    ghost var q := lp.Value();
    var status;
    ghost var final;
    status, final := table.PivotUntilDone(g0, maxPivots);
    ghost var ph := Ended(status, final, table.Basis());
    assert lp.Value() == q;
    if status == NoLeavingRow {
      assert Conclude(q, originalObjective, ph) == Outcome(q, Some(UnboundedProblem));
      return Some(UnboundedProblem);
    } else if status == LimitReached {
      assert Conclude(q, originalObjective, ph) == Outcome(q, Some(IterationLimit));
      return Some(IterationLimit);
    }

    StoreSolution(lp, table, final, originalObjective);
    assert ph == Optimal(final, table.Basis());
    return None;
  }

  /** Reads the optimum off the tableau, restores the objective's sign for
      a minimisation and stores it in the problem, whose stage goes back to
      Undefined. */
  method StoreSolution(lp: Model.LinearProgram, table: SimplexTable, ghost final: Grid,
                       originalObjective: Objective)
    requires WellFormed(lp.Value()) && lp.nbVariables >= lp.nbConstraints
    requires table.Valid() && table.Holds(final) && IsTable(final) && |table.Basis()| == |final| - 1
    modifies lp
    ensures lp.Value() == old(lp.Value()).(
              objVar := Some(Reported(Extract(final, table.Basis(), old(lp.nbVariables - lp.nbConstraints)),
                                      originalObjective)),
              state := Undefined)
  {
    var solution := table.ExtractSolution(lp, final);
    ghost var extracted := solution;
    if originalObjective == MINIMIZE {
      solution := solution[|solution| - 1 := solution[|solution| - 1] * -1.0];
    }
    assert solution == Reported(extracted, originalObjective);
    lp.objVar := Some(solution);
    lp.state := Undefined;
  }
}
