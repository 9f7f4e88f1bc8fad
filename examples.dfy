/** The repository's own test scenarios, worked through the model: the
    canonical and slack forms of small problems, a three-pivot solve with
    its solution map, an unbounded problem and an infeasible one. */
module Examples {
  import opened ModelTypes
  import opened Tableau
  import Conversion
  import Model
  import Simplex

  // ---------------------------------------------------------------------
  // Normalisation.

  /** min x + 2y subject to x + y >= 10, 2x + y <= 15. */
  const CanonicalCase := Program(2, 2, ["x", "y"], [], MINIMIZE, None, [1.0, 2.0], [BE, LE],
                                 [[1.0, 1.0], [2.0, 1.0]], [10.0, 15.0], Undefined)

  /** Canonical form maximises -x - 2y and turns the >= row into
      -x - y <= -10. */
  lemma CanonicalCaseResult()
    ensures Conversion.CanonicalForm(CanonicalCase) ==
              CanonicalCase.(objective := MAXIMIZE, objCoeff := [-1.0, -2.0], comparisons := [LE, LE],
                             constraintCoeff := [[-1.0, -1.0], [2.0, 1.0]], rhs := [-10.0, 15.0],
                             state := Canonical)
  {
    var p1 := Conversion.Maximized(CanonicalCase);
    assert p1.objCoeff == [-1.0, -2.0];
    var p2 := Conversion.NonNegativeRhs(p1);
    assert p2 == p1;
    var p3 := Conversion.LeConstraints(p2);
    assert Conversion.EqCount(p2.comparisons, 2) == 0;
    var neg := Conversion.Negated([1.0, 1.0]);
    assert neg[0] == -1.0 && neg[1] == -1.0;
    assert neg == [-1.0, -1.0];
    assert Conversion.LeCoeffs(p2, 1) == [[-1.0, -1.0]];
    assert Conversion.LeCoeffs(p2, 2) == [[-1.0, -1.0], [2.0, 1.0]];
    assert Conversion.LeRhs(p2, 2) == [-10.0, 15.0];
  }

  /** The slack conversion gives a <= row its column one row at a time. */
  lemma LeColumn(c: Program, k: nat, e: Program)
    requires Shaped(c) && k < c.nbConstraints && c.comparisons[k] == LE && e == Conversion.EqualitiesUpTo(c, k)
    ensures Conversion.EqualitiesUpTo(c, k + 1) == Conversion.WithColumn(e, k, 1.0)
  {
  }

  /** max 3x1 + 5x2 subject to x1 <= 4, 2x2 <= 12, 3x1 + 2x2 <= 18. */
  const SolveCase := Program(3, 2, ["x1", "x2"], [], MAXIMIZE, None, [3.0, 5.0], [LE, LE, LE],
                             [[1.0, 0.0], [0.0, 2.0], [3.0, 2.0]], [4.0, 12.0, 18.0], Undefined)

  /** Its slack form: columns s1, s2, s3 with an identity block. */
  const SolveSlack := Program(3, 5, ["x1", "x2"], ["s1", "s2", "s3"], MAXIMIZE, None,
                              [3.0, 5.0, 0.0, 0.0, 0.0], [EQ, EQ, EQ],
                              [[1.0, 0.0, 1.0, 0.0, 0.0], [0.0, 2.0, 0.0, 1.0, 0.0], [3.0, 2.0, 0.0, 0.0, 1.0]],
                              [4.0, 12.0, 18.0], Slack)

  const SolveCaseColumns1 :=
    Program(3, 3, ["x1", "x2"], ["s1"], MAXIMIZE, None, [3.0, 5.0, 0.0],
            [EQ, LE, LE], [[1.0, 0.0, 1.0], [0.0, 2.0, 0.0], [3.0, 2.0, 0.0]],
            [4.0, 12.0, 18.0], Canonical)
  const SolveCaseColumns2 :=
    Program(3, 4, ["x1", "x2"], ["s1", "s2"], MAXIMIZE, None, [3.0, 5.0, 0.0, 0.0],
            [EQ, EQ, LE], [[1.0, 0.0, 1.0, 0.0], [0.0, 2.0, 0.0, 1.0], [3.0, 2.0, 0.0, 0.0]],
            [4.0, 12.0, 18.0], Canonical)

  lemma SolveCaseColumn1()
    ensures Conversion.WithColumn(SolveCase.(state := Canonical), 0, 1.0) == SolveCaseColumns1
  {
    var r := Conversion.WithColumn(SolveCase.(state := Canonical), 0, 1.0);
    assert r.constraintCoeff[0] == [1.0, 0.0, 1.0];
    assert r.constraintCoeff[1] == [0.0, 2.0, 0.0];
    assert r.constraintCoeff[2] == [3.0, 2.0, 0.0];
    assert Conversion.SlackName(1) == "s1";
  }

  lemma SolveCaseColumn2()
    ensures Conversion.WithColumn(SolveCaseColumns1, 1, 1.0) == SolveCaseColumns2
  {
    var r := Conversion.WithColumn(SolveCaseColumns1, 1, 1.0);
    assert r.constraintCoeff[0] == [1.0, 0.0, 1.0, 0.0];
    assert r.constraintCoeff[1] == [0.0, 2.0, 0.0, 1.0];
    assert r.constraintCoeff[2] == [3.0, 2.0, 0.0, 0.0];
    assert Conversion.SlackName(2) == "s2";
  }

  lemma SolveCaseColumn3()
    ensures Conversion.WithColumn(SolveCaseColumns2, 2, 1.0) == SolveSlack.(state := Canonical)
  {
    var r := Conversion.WithColumn(SolveCaseColumns2, 2, 1.0);
    assert r.constraintCoeff[0] == [1.0, 0.0, 1.0, 0.0, 0.0];
    assert r.constraintCoeff[1] == [0.0, 2.0, 0.0, 1.0, 0.0];
    assert r.constraintCoeff[2] == [3.0, 2.0, 0.0, 0.0, 1.0];
    assert Conversion.SlackName(3) == "s3";
  }

  /** The three <= rows get s1, s2 and s3 in turn. */
  lemma SolveCaseSlack()
    ensures Conversion.SlackForm(SolveCase) == SolveSlack
  {
    Conversion.CanonicalFormOfCanonicalShape(SolveCase);
    var c := SolveCase.(state := Canonical);
    SolveCaseColumn1();
    LeColumn(c, 0, c);
    SolveCaseColumn2();
    LeColumn(c, 1, SolveCaseColumns1);
    SolveCaseColumn3();
    LeColumn(c, 2, SolveCaseColumns2);
  }

  // ---------------------------------------------------------------------
  // The tableau method on SolveCase.

  const G0: Grid := [[1.0, 0.0, 1.0, 0.0, 0.0, 4.0], [0.0, 2.0, 0.0, 1.0, 0.0, 12.0],
                     [3.0, 2.0, 0.0, 0.0, 1.0, 18.0], [-3.0, -5.0, 0.0, 0.0, 0.0, 0.0]]
  const G1: Grid := [[1.0, 0.0, 1.0, 0.0, 0.0, 4.0], [0.0, 2.0, 0.0, 1.0, 0.0, 12.0],
                     [0.0, 2.0, -3.0, 0.0, 1.0, 6.0], [0.0, -5.0, 3.0, 0.0, 0.0, 12.0]]
  const G2: Grid := [[1.0, 0.0, 1.0, 0.0, 0.0, 4.0], [0.0, 0.0, 3.0, 1.0, -1.0, 6.0],
                     [0.0, 1.0, -1.5, 0.0, 0.5, 3.0], [0.0, 0.0, -4.5, 0.0, 2.5, 27.0]]
  const G3: Grid := [[1.0, 0.0, 0.0, -1.0 / 3.0, 1.0 / 3.0, 2.0], [0.0, 0.0, 1.0, 1.0 / 3.0, -1.0 / 3.0, 2.0],
                     [0.0, 1.0, 0.0, 0.5, 0.0, 6.0], [0.0, 0.0, 0.0, 1.5, 1.0, 36.0]]

  /** The starting tableau and the slack basis s1, s2, s3. */
  lemma SolveCaseInitialTable()
    ensures InitialGrid(SolveSlack) == G0
    ensures InitialBasis(SolveSlack) == [2, 3, 4]
  {
    var g := InitialGrid(SolveSlack);
    assert g[0] == G0[0] && g[1] == G0[1] && g[2] == G0[2];
    assert g[3] == G0[3];
  }

  /** First round: x1 enters (its objective entry -3 is the first
      negative one), s1 leaves (ratio 4 against 6). */
  lemma SolveCaseChoice1()
    ensures IsTable(G0) && EnteringColumn(G0) == 0 && LeavingRow(G0, 0) == 0
  {
    assert IsTable(G0);
    assert FirstNegative(G0[3], 0, 5) == 0;
    assert LeavingScan(G0, 0, 1) == Some(Candidate(0, 4.0));
    assert LeavingScan(G0, 0, 2) == Some(Candidate(0, 4.0));
    assert LeavingScan(G0, 0, 3) == Some(Candidate(0, 4.0));
  }

  lemma SolveCasePivot1()
    requires IsTable(G0) && G0[0][0] != 0.0
    ensures Pivot(G0, 0, 0) == G1
  {
    var h := Pivot(G0, 0, 0);
    assert h[0] == G1[0] && h[1] == G1[1];
    assert h[2] == G1[2] && h[3] == G1[3];
  }

  /** Second round: x2 enters, s3 leaves (ratio 3 against 6). */
  lemma SolveCaseChoice2()
    ensures IsTable(G1) && EnteringColumn(G1) == 1 && LeavingRow(G1, 1) == 2
  {
    assert IsTable(G1);
    assert FirstNegative(G1[3], 1, 5) == 1;
    assert FirstNegative(G1[3], 0, 5) == 1;
    assert LeavingScan(G1, 1, 1) == None;
    assert LeavingScan(G1, 1, 2) == Some(Candidate(1, 6.0));
    assert LeavingScan(G1, 1, 3) == Some(Candidate(2, 3.0));
  }

  lemma SolveCasePivot2()
    requires IsTable(G1) && G1[2][1] != 0.0
    ensures Pivot(G1, 2, 1) == G2
  {
    var h := Pivot(G1, 2, 1);
    assert h[0] == G2[0] && h[1] == G2[1];
    assert h[2] == G2[2] && h[3] == G2[3];
  }

  /** Third round: s1 enters, s2 leaves (ratio 2 against 4). */
  lemma SolveCaseChoice3()
    ensures IsTable(G2) && EnteringColumn(G2) == 2 && LeavingRow(G2, 2) == 1
  {
    assert IsTable(G2);
    assert FirstNegative(G2[3], 2, 5) == 2;
    assert FirstNegative(G2[3], 1, 5) == 2;
    assert FirstNegative(G2[3], 0, 5) == 2;
    assert LeavingScan(G2, 2, 1) == Some(Candidate(0, 4.0));
    assert LeavingScan(G2, 2, 2) == Some(Candidate(1, 2.0));
    assert LeavingScan(G2, 2, 3) == Some(Candidate(1, 2.0));
  }

  lemma SolveCasePivot3()
    requires IsTable(G2) && G2[1][2] != 0.0
    ensures Pivot(G2, 1, 2) == G3
  {
    var h := Pivot(G2, 1, 2);
    assert h[0] == G3[0] && h[1] == G3[1];
    assert h[2] == G3[2] && h[3] == G3[3];
  }

  /** No objective entry is negative any more: the tableau is optimal. */
  lemma SolveCaseOptimal()
    ensures IsTable(G3) && EnteringColumn(G3) == -1
    ensures Extract(G3, [0, 2, 1], 2) == [2.0, 6.0, 36.0]
  {
    assert IsTable(G3);
    assert LastBasicRow([0, 2, 1], 0, 3) == 0;
    assert LastBasicRow([0, 2, 1], 1, 3) == 2;
  }

  lemma SolveCaseStep1(maxPivots: nat, left: nat)
    requires left + 1 == maxPivots
    ensures Iterate(G0, [2, 3, 4], maxPivots) == Iterate(G1, [0, 3, 4], left)
  {
    SolveCaseChoice1();
    SolveCasePivot1();
    IterateStep(G0, [2, 3, 4], maxPivots, 0, 0, G1, [0, 3, 4], left);
  }

  lemma SolveCaseStep2(maxPivots: nat, left: nat)
    requires left + 1 == maxPivots
    ensures Iterate(G1, [0, 3, 4], maxPivots) == Iterate(G2, [0, 3, 1], left)
  {
    SolveCaseChoice2();
    SolveCasePivot2();
    IterateStep(G1, [0, 3, 4], maxPivots, 2, 1, G2, [0, 3, 1], left);
  }

  lemma SolveCaseStep3(maxPivots: nat, left: nat)
    requires left + 1 == maxPivots
    ensures Iterate(G2, [0, 3, 1], maxPivots) == Iterate(G3, [0, 2, 1], left)
  {
    SolveCaseChoice3();
    SolveCasePivot3();
    IterateStep(G2, [0, 3, 1], maxPivots, 1, 2, G3, [0, 2, 1], left);
  }

  /** Three pivots reach the optimum. */
  lemma SolveCaseIterate(maxPivots: nat)
    requires maxPivots >= 3
    ensures Iterate(G0, [2, 3, 4], maxPivots) == Optimal(G3, [0, 2, 1])
  {
    var k1, k2, k3 := maxPivots - 1, maxPivots - 2, maxPivots - 3;
    SolveCaseStep1(maxPivots, k1);
    SolveCaseStep2(k1, k2);
    SolveCaseStep3(k2, k3);
    SolveCaseDone(k3);
  }

  lemma SolveCaseDone(maxPivots: nat)
    ensures Iterate(G3, [0, 2, 1], maxPivots) == Optimal(G3, [0, 2, 1])
  {
    SolveCaseOptimal();
  }

  /** The optimum's solution, stored with the stage reset. */
  lemma SolveCaseConclude()
    ensures Conclude(SolveSlack, MAXIMIZE, Optimal(G3, [0, 2, 1])) ==
              Outcome(SolveSlack.(objVar := Some([2.0, 6.0, 36.0]), state := Undefined), None)
  {
    SolveCaseOptimal();
    assert Reported([2.0, 6.0, 36.0], MAXIMIZE) == [2.0, 6.0, 36.0];
  }

  /** The tableau method on the slack form reaches the optimum. */
  lemma SolveSlackOutcome(maxPivots: nat)
    requires maxPivots >= 3
    ensures SolveSlackForm(SolveSlack, MAXIMIZE, maxPivots) ==
              Outcome(SolveSlack.(objVar := Some([2.0, 6.0, 36.0]), state := Undefined), None)
  {
    SolveCaseInitialTable();
    assert Feasible(G0);
    SolveCaseIterate(maxPivots);
    SolveCaseConclude();
  }

  /** The solve stores x1 = 2, x2 = 6 and the objective value 36. */
  lemma SolveCaseOutcome(maxPivots: nat)
    requires maxPivots >= 3
    ensures SolveOutcome(SolveCase, maxPivots) ==
              Outcome(SolveSlack.(objVar := Some([2.0, 6.0, 36.0]), state := Undefined), None)
  {
    SolveCaseSlack();
    SolveSlackOutcome(maxPivots);
  }

  /** The solution map: each variable to its value, and the objective. */
  lemma SolveCaseSolutionMap()
    ensures GetSolution(SolveSlack.(objVar := Some([2.0, 6.0, 36.0]), state := Undefined)) ==
              Found(map["x1" := 2.0, "x2" := 6.0, "objective" := 36.0])
  {
    var r := GetSolution(SolveSlack.(objVar := Some([2.0, 6.0, 36.0]), state := Undefined));
    var names, vals := ["x1", "x2"], [2.0, 6.0, 36.0];
    assert NamedValues(names, vals, 1) == map["x1" := 2.0];
    assert NamedValues(names, vals, 2) == map["x1" := 2.0, "x2" := 6.0];
    assert r.solution == map["x1" := 2.0, "x2" := 6.0, "objective" := 36.0];
  }

  /** Converting a program whose result is checked in place: the solve
      through the mutable model stores the same solution. */
  method SolveCaseInPlace(maxPivots: nat) returns (lp: Model.LinearProgram, err: Option<SolveError>)
    requires maxPivots >= 3
    ensures err.None? && lp.objVar == Some([2.0, 6.0, 36.0]) && lp.state == Undefined
  {
    lp := new Model.LinearProgram(3, 2, ["x1", "x2"], [3.0, 5.0], [LE, LE, LE],
                                  [[1.0, 0.0], [0.0, 2.0], [3.0, 2.0]], [4.0, 12.0, 18.0], MAXIMIZE);
    assert lp.Value() == SolveCase;
    assert WellFormed(SolveCase);
    err := Simplex.Solve(lp, maxPivots);
    SolveCaseOutcome(maxPivots);
  }

  // ---------------------------------------------------------------------
  // A slack form, an unbounded problem and an infeasible one.

  /** max x + 2y subject to x + y <= 10, 2x + y <= 15. */
  const SlackCase := Program(2, 2, ["x", "y"], [], MAXIMIZE, None, [1.0, 2.0], [LE, LE],
                             [[1.0, 1.0], [2.0, 1.0]], [10.0, 15.0], Undefined)

  const SlackCaseSlack := Program(2, 4, ["x", "y"], ["s1", "s2"], MAXIMIZE, None, [1.0, 2.0, 0.0, 0.0],
                                  [EQ, EQ], [[1.0, 1.0, 1.0, 0.0], [2.0, 1.0, 0.0, 1.0]], [10.0, 15.0], Slack)

  const SlackCaseColumns1 :=
    Program(2, 3, ["x", "y"], ["s1"], MAXIMIZE, None, [1.0, 2.0, 0.0],
            [EQ, LE], [[1.0, 1.0, 1.0], [2.0, 1.0, 0.0]],
            [10.0, 15.0], Canonical)

  lemma SlackCaseColumn1()
    ensures Conversion.WithColumn(SlackCase.(state := Canonical), 0, 1.0) == SlackCaseColumns1
  {
    var r := Conversion.WithColumn(SlackCase.(state := Canonical), 0, 1.0);
    assert r.constraintCoeff[0] == [1.0, 1.0, 1.0];
    assert r.constraintCoeff[1] == [2.0, 1.0, 0.0];
    assert Conversion.SlackName(1) == "s1";
  }

  lemma SlackCaseColumn2()
    ensures Conversion.WithColumn(SlackCaseColumns1, 1, 1.0) == SlackCaseSlack.(state := Canonical)
  {
    var r := Conversion.WithColumn(SlackCaseColumns1, 1, 1.0);
    assert r.constraintCoeff[0] == [1.0, 1.0, 1.0, 0.0];
    assert r.constraintCoeff[1] == [2.0, 1.0, 0.0, 1.0];
    assert Conversion.SlackName(2) == "s2";
  }

  /** Two slack columns, s1 and s2, make both rows equalities, with the
      identity block in columns 2 and 3. */
  lemma SlackCaseResult()
    ensures Conversion.SlackForm(SlackCase) == SlackCaseSlack
  {
    Conversion.CanonicalFormOfCanonicalShape(SlackCase);
    var c := SlackCase.(state := Canonical);
    SlackCaseColumn1();
    LeColumn(c, 0, c);
    SlackCaseColumn2();
    LeColumn(c, 1, SlackCaseColumns1);
  }

  /** max x1 + x2 subject to x1 - x2 <= 1, -x1 + x2 <= 1. */
  const UnboundedCase := Program(2, 2, ["x1", "x2"], [], MAXIMIZE, None, [1.0, 1.0], [LE, LE],
                                 [[1.0, -1.0], [-1.0, 1.0]], [1.0, 1.0], Undefined)

  const UnboundedSlack := Program(2, 4, ["x1", "x2"], ["s1", "s2"], MAXIMIZE, None, [1.0, 1.0, 0.0, 0.0],
                                  [EQ, EQ], [[1.0, -1.0, 1.0, 0.0], [-1.0, 1.0, 0.0, 1.0]], [1.0, 1.0], Slack)

  const U0: Grid := [[1.0, -1.0, 1.0, 0.0, 1.0], [-1.0, 1.0, 0.0, 1.0, 1.0], [-1.0, -1.0, 0.0, 0.0, 0.0]]
  const U1: Grid := [[1.0, -1.0, 1.0, 0.0, 1.0], [0.0, 0.0, 1.0, 1.0, 2.0], [0.0, -2.0, 1.0, 0.0, 1.0]]

  const UnboundedCaseColumns1 :=
    Program(2, 3, ["x1", "x2"], ["s1"], MAXIMIZE, None, [1.0, 1.0, 0.0],
            [EQ, LE], [[1.0, -1.0, 1.0], [-1.0, 1.0, 0.0]],
            [1.0, 1.0], Canonical)

  lemma UnboundedCaseColumn1()
    ensures Conversion.WithColumn(UnboundedCase.(state := Canonical), 0, 1.0) == UnboundedCaseColumns1
  {
    var r := Conversion.WithColumn(UnboundedCase.(state := Canonical), 0, 1.0);
    assert r.constraintCoeff[0] == [1.0, -1.0, 1.0];
    assert r.constraintCoeff[1] == [-1.0, 1.0, 0.0];
    assert Conversion.SlackName(1) == "s1";
  }

  lemma UnboundedCaseColumn2()
    ensures Conversion.WithColumn(UnboundedCaseColumns1, 1, 1.0) == UnboundedSlack.(state := Canonical)
  {
    var r := Conversion.WithColumn(UnboundedCaseColumns1, 1, 1.0);
    assert r.constraintCoeff[0] == [1.0, -1.0, 1.0, 0.0];
    assert r.constraintCoeff[1] == [-1.0, 1.0, 0.0, 1.0];
    assert Conversion.SlackName(2) == "s2";
  }

  lemma UnboundedCaseSlack()
    ensures Conversion.SlackForm(UnboundedCase) == UnboundedSlack
  {
    Conversion.CanonicalFormOfCanonicalShape(UnboundedCase);
    var c := UnboundedCase.(state := Canonical);
    UnboundedCaseColumn1();
    LeColumn(c, 0, c);
    UnboundedCaseColumn2();
    LeColumn(c, 1, UnboundedCaseColumns1);
  }

  lemma UnboundedCaseInitialTable()
    ensures InitialGrid(UnboundedSlack) == U0 && InitialBasis(UnboundedSlack) == [2, 3]
  {
    var g := InitialGrid(UnboundedSlack);
    assert g[0] == U0[0] && g[1] == U0[1] && g[2] == U0[2];
  }

  /** x1 enters and s1 leaves. */
  lemma UnboundedCaseChoice()
    ensures IsTable(U0) && EnteringColumn(U0) == 0 && LeavingRow(U0, 0) == 0
  {
    assert IsTable(U0);
    assert FirstNegative(U0[2], 0, 4) == 0;
    assert LeavingScan(U0, 0, 1) == Some(Candidate(0, 1.0));
    assert LeavingScan(U0, 0, 2) == Some(Candidate(0, 1.0));
  }

  lemma UnboundedCasePivot()
    requires IsTable(U0) && U0[0][0] != 0.0
    ensures Pivot(U0, 0, 0) == U1
  {
    var h := Pivot(U0, 0, 0);
    assert h[0] == U1[0] && h[1] == U1[1] && h[2] == U1[2];
  }

  /** Then x2 would enter, but no row limits it. */
  lemma UnboundedCaseStuck()
    ensures IsTable(U1) && EnteringColumn(U1) == 1 && LeavingRow(U1, 1) == -1
  {
    assert IsTable(U1);
    assert FirstNegative(U1[2], 1, 4) == 1;
    assert FirstNegative(U1[2], 0, 4) == 1;
    assert LeavingScan(U1, 1, 1) == None;
    assert LeavingScan(U1, 1, 2) == None;
  }

  lemma UnboundedCaseIterate(maxPivots: nat, left: nat)
    requires left + 1 == maxPivots
    ensures Iterate(U0, [2, 3], maxPivots) == Unbounded
  {
    UnboundedCaseChoice();
    UnboundedCasePivot();
    UnboundedCaseStuck();
    IterateStep(U0, [2, 3], maxPivots, 0, 0, U1, [0, 3], left);
  }

  lemma UnboundedSlackOutcome(maxPivots: nat)
    requires maxPivots >= 1
    ensures SolveSlackForm(UnboundedSlack, MAXIMIZE, maxPivots) == Outcome(UnboundedSlack, Some(UnboundedProblem))
  {
    UnboundedCaseInitialTable();
    assert Feasible(U0);
    UnboundedCaseIterate(maxPivots, maxPivots - 1);
  }

  /** The solve reports the problem unbounded and leaves the slack-form
      model as it was. */
  lemma UnboundedCaseOutcome(maxPivots: nat)
    requires maxPivots >= 1
    ensures SolveOutcome(UnboundedCase, maxPivots) == Outcome(UnboundedSlack, Some(UnboundedProblem))
  {
    UnboundedCaseSlack();
    UnboundedSlackOutcome(maxPivots);
  }

  /** max x1 + x2 subject to x1 + x2 <= 1, x1 + x2 >= 2. */
  const InfeasibleCase := Program(2, 2, ["x1", "x2"], [], MAXIMIZE, None, [1.0, 1.0], [LE, BE],
                                  [[1.0, 1.0], [1.0, 1.0]], [1.0, 2.0], Undefined)

  /** The >= row becomes -x1 - x2 <= -2. */
  lemma InfeasibleCaseCanonical()
    ensures Conversion.CanonicalForm(InfeasibleCase).rhs == [1.0, -2.0]
  {
    var p := InfeasibleCase;
    assert Conversion.NonNegativeRhs(p).rhs == p.rhs;
    assert Conversion.NonNegativeRhs(p).comparisons == p.comparisons;
    assert Conversion.LeRhs(p, 2) == [1.0, -2.0];
  }

  /** The slack basis therefore starts at a negative value, and the solve
      stops before any pivot. */
  lemma InfeasibleCaseOutcome(maxPivots: nat)
    ensures SolveOutcome(InfeasibleCase, maxPivots).error == Some(InfeasibleProblem)
  {
    InfeasibleCaseCanonical();
    var q := Conversion.SlackForm(InfeasibleCase);
    assert q.rhs == [1.0, -2.0];
    InitialGridEntry(q, 1, q.nbVariables);
  }

  /** max -x subject to x >= 1: feasible, with optimum x = 1. */
  const GeRowCase := Program(1, 1, ["x"], [], MAXIMIZE, None, [-1.0], [BE], [[1.0]], [1.0], Undefined)

  /** The >= row becomes -x <= -1, a negative right-hand side the slack
      basis cannot start from, and with no first phase to find another
      basis the solve reports the feasible problem as infeasible. */
  lemma GeRowCaseOutcome(maxPivots: nat)
    ensures SolveOutcome(GeRowCase, maxPivots).error == Some(InfeasibleProblem)
  {
    var p := GeRowCase;
    assert Conversion.NonNegativeRhs(p).rhs == p.rhs;
    assert Conversion.NonNegativeRhs(p).comparisons == p.comparisons;
    assert Conversion.LeRhs(p, 1) == [-1.0];
    Conversion.SlackFormRhs(p);
    InfeasibleIffNegativeRhs(p, maxPivots);
    assert Conversion.SlackForm(p).rhs[0] < 0.0;
  }

  /** The starting tableau is feasible exactly when no constraint row has a
      negative right-hand side. */
  lemma FeasibilityCases()
    ensures Feasible([[1.0, 1.0, 1.0, 0.0, 10.0], [2.0, 1.0, 0.0, 1.0, 15.0], [-1.0, -2.0, 0.0, 0.0, 0.0]])
    ensures !Feasible([[1.0, 1.0, 1.0, 0.0, -10.0], [2.0, 1.0, 0.0, 1.0, 15.0], [-1.0, -2.0, 0.0, 0.0, 0.0]])
  {
  }
}
