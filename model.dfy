/** The mutable linear program and the normalisation steps that rewrite it
    in place. Each step is specified by the function of the same stage in
    module Conversion applied to the model's value before the call. */
module Model {
  import opened ModelTypes
  import Conversion

  class LinearProgram {
    var nbConstraints: int
    var nbVariables: int
    var variableNames: seq<string>
    var slackVariablesNames: seq<string>
    var objective: Objective
    var objVar: Option<seq<real>>
    var objCoeff: seq<real>
    var comparisons: seq<Comparison>
    var constraintCoeff: seq<seq<real>>
    var rhs: seq<real>
    var state: LpState

    /** The value the model currently holds. */
    function Value(): Program
      reads this
    {
      Program(nbConstraints, nbVariables, variableNames, slackVariablesNames, objective, objVar,
              objCoeff, comparisons, constraintCoeff, rhs, state)
    }

    /** A model as a parser or a literal fills it in: no solution, no slack
        names, stage Undefined, and MINIMIZE unless told otherwise (the zero
        values of the fields left out). */
    constructor (nbConstraints: int, nbVariables: int, variableNames: seq<string>, objCoeff: seq<real>,
                 comparisons: seq<Comparison>, constraintCoeff: seq<seq<real>>, rhs: seq<real>,
                 objective: Objective := MINIMIZE)
      ensures Value() == Program(nbConstraints, nbVariables, variableNames, [], objective, None, objCoeff,
                                 comparisons, constraintCoeff, rhs, Undefined)
    {
      this.nbConstraints := nbConstraints;
      this.nbVariables := nbVariables;
      this.variableNames := variableNames;
      this.slackVariablesNames := [];
      this.objective := objective;
      this.objVar := None;
      this.objCoeff := objCoeff;
      this.comparisons := comparisons;
      this.constraintCoeff := constraintCoeff;
      this.rhs := rhs;
      this.state := Undefined;
    }

    /** Canonical form; nothing happens unless the stage is Undefined. */
    method ToCanonicalForm()
      requires WellFormed(Value())
      modifies this
      ensures Value() == Conversion.CanonicalForm(old(Value()))
    {
      if state != Undefined {
        return;
      }
      EnsureMaximization();
      EnsureNonNegativeRhs();
      ConvertToLeConstraints();
      state := Canonical;
    }

    /** Slack form, canonicalising first when the stage is Undefined;
        nothing happens once the stage is Slack. */
    method ToSlackForm()
      requires WellFormed(Value())
      modifies this
      ensures Value() == Conversion.SlackForm(old(Value()))
    {
      if state == Slack {
        return;
      }
      if state == Undefined {
        ToCanonicalForm();
      }
      ConvertToEqualities();
      state := Slack;
    }

    method EnsureMaximization()
      modifies this
      ensures Value() == Conversion.Maximized(old(Value()))
    {
      if objective == MINIMIZE {
        objective := MAXIMIZE;
        var i := 0;
        while i < |objCoeff|
          invariant 0 <= i <= |objCoeff| == |old(objCoeff)|
          invariant forall j :: 0 <= j < i ==> objCoeff[j] == old(objCoeff)[j] * -1.0
          invariant forall j :: i <= j < |objCoeff| ==> objCoeff[j] == old(objCoeff)[j]
          invariant Value() == old(Value()).(objective := MAXIMIZE, objCoeff := objCoeff)
        {
          objCoeff := objCoeff[i := objCoeff[i] * -1.0];
          i := i + 1;
        }
        assert objCoeff == Conversion.Negated(old(objCoeff));
      }
    }

    method EnsureNonNegativeRhs()
      requires Shaped(Value())
      modifies this
      ensures Value() == Conversion.NonNegativeRhs(old(Value()))
    {
      ghost var target := Conversion.NonNegativeRhs(Value());
      var i := 0;
      while i < |rhs|
        invariant 0 <= i <= |rhs| == |old(rhs)|
        invariant |comparisons| == |constraintCoeff| == |rhs|
        invariant Value() == old(Value()).(rhs := rhs, comparisons := comparisons, constraintCoeff := constraintCoeff)
        invariant forall j :: 0 <= j < i ==>
                    rhs[j] == target.rhs[j] && comparisons[j] == target.comparisons[j] &&
                    constraintCoeff[j] == target.constraintCoeff[j]
        invariant forall j :: i <= j < |rhs| ==>
                    rhs[j] == old(rhs)[j] && comparisons[j] == old(comparisons)[j] &&
                    constraintCoeff[j] == old(constraintCoeff)[j]
      {
        if rhs[i] < 0.0 {
          rhs := rhs[i := rhs[i] * -1.0];
          constraintCoeff := constraintCoeff[i := Conversion.MultiplyRow(constraintCoeff[i], -1.0)];
          comparisons := comparisons[i := Conversion.FlipComparison(comparisons[i])];
        }
        i := i + 1;
      }
      assert rhs == target.rhs;
      assert comparisons == target.comparisons;
      assert constraintCoeff == target.constraintCoeff;
    }

    method ConvertToLeConstraints()
      requires Shaped(Value())
      modifies this
      ensures Value() == Conversion.LeConstraints(old(Value()))
    {
      var newConstraintCoeff, newRhs, newComparisons, newNbConstraints := LeRows(Value());
      assert newComparisons == seq(newNbConstraints, _ => LE);
      constraintCoeff := newConstraintCoeff;
      rhs := newRhs;
      comparisons := newComparisons;
      nbConstraints := newNbConstraints;
    }

    /** The loop of ConvertToLeConstraints: the new rows, right-hand sides
        and comparisons, built from the problem's constraints one by one. */
    static method LeRows(p: Program)
      returns (newConstraintCoeff: seq<seq<real>>, newRhs: seq<real>, newComparisons: seq<Comparison>,
               newNbConstraints: int)
      requires Shaped(p)
      ensures newConstraintCoeff == Conversion.LeCoeffs(p, p.nbConstraints)
      ensures newRhs == Conversion.LeRhs(p, p.nbConstraints)
      ensures newNbConstraints == |newComparisons| == p.nbConstraints + Conversion.EqCount(p.comparisons, p.nbConstraints)
      ensures AllAre(newComparisons, LE)
    {
      newConstraintCoeff, newRhs, newComparisons, newNbConstraints := [], [], [], 0;
      var i := 0;
      while i < p.nbConstraints
        invariant 0 <= i <= p.nbConstraints
        invariant newConstraintCoeff == Conversion.LeCoeffs(p, i)
        invariant newRhs == Conversion.LeRhs(p, i)
        invariant newNbConstraints == |newComparisons| == i + Conversion.EqCount(p.comparisons, i)
        invariant AllAre(newComparisons, LE)
      {
        Conversion.LeStep(p, i);
        newConstraintCoeff, newRhs, newComparisons, newNbConstraints :=
          AppendLeRows(p.comparisons[i], p.constraintCoeff[i], p.rhs[i],
                       newConstraintCoeff, newRhs, newComparisons, newNbConstraints);
        i := i + 1;
      }
    }

    /** The body of that loop for one source row: its <= rows, right-hand
        sides and comparisons are appended and counted. */
    static method AppendLeRows(c: Comparison, row: seq<real>, b: real,
                               coeffs: seq<seq<real>>, rhs: seq<real>, comps: seq<Comparison>, count: int)
      returns (newConstraintCoeff: seq<seq<real>>, newRhs: seq<real>, newComparisons: seq<Comparison>,
               newNbConstraints: int)
      requires count == |comps| && AllAre(comps, LE)
      ensures newConstraintCoeff == coeffs + Conversion.LeImage(c, row)
      ensures newRhs == rhs + Conversion.LeImageRhs(c, b)
      ensures newNbConstraints == |newComparisons| == count + |Conversion.LeImage(c, row)|
      ensures AllAre(newComparisons, LE)
    {
      newConstraintCoeff, newRhs, newComparisons, newNbConstraints := coeffs, rhs, comps, count;
      match c {
        case LE =>
          newConstraintCoeff := newConstraintCoeff + [row];
          newRhs := newRhs + [b];
          newComparisons := newComparisons + [LE];
          newNbConstraints := newNbConstraints + 1;
        case LO =>
          newConstraintCoeff := newConstraintCoeff + [row];
          newRhs := newRhs + [b];
          newComparisons := newComparisons + [LE];
          newNbConstraints := newNbConstraints + 1;
        case BE =>
          newConstraintCoeff := newConstraintCoeff + [Conversion.MultiplyRow(row, -1.0)];
          newRhs := newRhs + [-b];
          newComparisons := newComparisons + [LE];
          newNbConstraints := newNbConstraints + 1;
        case BI =>
          newConstraintCoeff := newConstraintCoeff + [Conversion.MultiplyRow(row, -1.0)];
          newRhs := newRhs + [-b];
          newComparisons := newComparisons + [LE];
          newNbConstraints := newNbConstraints + 1;
        case EQ =>
          // the row itself
          newConstraintCoeff := newConstraintCoeff + [row];
          newRhs := newRhs + [b];
          newComparisons := newComparisons + [LE];
          newNbConstraints := newNbConstraints + 1;
          // and its negation, the >= half turned into <=
          newConstraintCoeff := newConstraintCoeff + [Conversion.MultiplyRow(row, -1.0)];
          newRhs := newRhs + [-b];
          newComparisons := newComparisons + [LE];
          newNbConstraints := newNbConstraints + 1;
      }
    }

    method ConvertToEqualities()
      requires Shaped(Value())
      modifies this
      ensures Value() == Conversion.Equalities(old(Value()))
    {
      var i := 0;
      while i < nbConstraints
        invariant 0 <= i <= nbConstraints == old(nbConstraints)
        invariant Value() == Conversion.EqualitiesUpTo(old(Value()), i)
        decreases nbConstraints - i
      {
        match comparisons[i] {
          case LE => AddSlackVariable(i);
          case BI => AddSurplusVariable(i);
          case LO => AddSlackVariable(i);
          case BE => AddSurplusVariable(i);
          case EQ =>
        }
        i := i + 1;
      }
    }

    /** Appends a slack column: 1 in the given row, 0 elsewhere. */
    method AddSlackVariable(constraintIndex: nat)
      requires Shaped(Value()) && constraintIndex < nbConstraints
      modifies this
      ensures Value() == Conversion.WithColumn(old(Value()), constraintIndex, 1.0)
    {
      nbVariables := nbVariables + 1;
      var newVarName := Conversion.SlackName(|slackVariablesNames| + 1);
      slackVariablesNames := slackVariablesNames + [newVarName];
      objCoeff := objCoeff + [0.0];
      ghost var widened := Value();
      var i := 0;
      while i < |constraintCoeff|
        invariant 0 <= i <= |constraintCoeff| == |old(constraintCoeff)|
        invariant forall j :: 0 <= j < i ==>
                    constraintCoeff[j] == old(constraintCoeff)[j] + [if j == constraintIndex then 1.0 else 0.0]
        invariant forall j :: i <= j < |constraintCoeff| ==> constraintCoeff[j] == old(constraintCoeff)[j]
        invariant Value() == widened.(constraintCoeff := constraintCoeff)
      {
        var newCol := 0.0;
        if i == constraintIndex {
          newCol := 1.0;
        }
        constraintCoeff := constraintCoeff[i := constraintCoeff[i] + [newCol]];
        i := i + 1;
      }
      assert constraintCoeff == Conversion.WithColumn(old(Value()), constraintIndex, 1.0).constraintCoeff;
      comparisons := comparisons[constraintIndex := EQ];
    }

    /** Appends a surplus column: -1 in the given row, 0 elsewhere. */
    method AddSurplusVariable(constraintIndex: nat)
      requires Shaped(Value()) && constraintIndex < nbConstraints
      modifies this
      ensures Value() == Conversion.WithColumn(old(Value()), constraintIndex, -1.0)
    {
      nbVariables := nbVariables + 1;
      var newVarName := Conversion.SlackName(|slackVariablesNames| + 1);
      slackVariablesNames := slackVariablesNames + [newVarName];
      objCoeff := objCoeff + [0.0];
      ghost var widened := Value();
      var i := 0;
      while i < |constraintCoeff|
        invariant 0 <= i <= |constraintCoeff| == |old(constraintCoeff)|
        invariant forall j :: 0 <= j < i ==>
                    constraintCoeff[j] == old(constraintCoeff)[j] + [if j == constraintIndex then -1.0 else 0.0]
        invariant forall j :: i <= j < |constraintCoeff| ==> constraintCoeff[j] == old(constraintCoeff)[j]
        invariant Value() == widened.(constraintCoeff := constraintCoeff)
      {
        var newCol := 0.0;
        if i == constraintIndex {
          newCol := -1.0;
        }
        constraintCoeff := constraintCoeff[i := constraintCoeff[i] + [newCol]];
        i := i + 1;
      }
      assert constraintCoeff == Conversion.WithColumn(old(Value()), constraintIndex, -1.0).constraintCoeff;
      comparisons := comparisons[constraintIndex := EQ];
    }
  }
}
