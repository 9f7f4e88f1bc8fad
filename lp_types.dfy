/** The data model of a linear program: the closed enumerations, the record
    that holds one problem, its shape invariants, and the name-to-value map
    a solved problem reports. */
module ModelTypes {

  datatype Option<+T> = None | Some(value: T)

  /** Optimisation direction. MINIMIZE is the zero value of the enumeration,
      so a freshly built problem minimises unless told otherwise. */
  datatype Objective = MINIMIZE | MAXIMIZE

  /** Comparison of one constraint row: =, <, <=, >, >=. */
  datatype Comparison = EQ | LO | LE | BI | BE

  /** Normalisation stage reached so far; Undefined is the zero value. */
  datatype LpState = Undefined | Canonical | Slack

  /** The value held by one problem: the fields of the mutable model. */
  datatype Program = Program(
    nbConstraints: int,
    nbVariables: int,
    variableNames: seq<string>,
    slackVariablesNames: seq<string>,
    objective: Objective,
    objVar: Option<seq<real>>,
    objCoeff: seq<real>,
    comparisons: seq<Comparison>,
    constraintCoeff: seq<seq<real>>,
    rhs: seq<real>,
    state: LpState)

  /** Every count agrees with the lengths it describes and every row has one
      coefficient per variable. */
  predicate Shaped(p: Program) {
    && p.nbConstraints == |p.rhs| == |p.comparisons| == |p.constraintCoeff|
    && p.nbVariables == |p.objCoeff|
    && forall i :: 0 <= i < |p.constraintCoeff| ==> |p.constraintCoeff[i]| == p.nbVariables
  }

  predicate AllAre(cs: seq<Comparison>, c: Comparison) {
    forall i :: 0 <= i < |cs| ==> cs[i] == c
  }

  /** The last nbConstraints columns form an identity block and carry a zero
      objective coefficient: the shape the slack transformation leaves. */
  predicate HasSlackBasis(p: Program)
    requires Shaped(p)
  {
    var n, m := p.nbVariables, p.nbConstraints;
    && n >= m
    && (forall i, j :: 0 <= i < m && n - m <= j < n ==>
          p.constraintCoeff[i][j] == if j == n - m + i then 1.0 else 0.0)
    && (forall j :: n - m <= j < n ==> p.objCoeff[j] == 0.0)
  }

  /** Shape plus what each stage tag promises about the rows. */
  predicate WellFormed(p: Program) {
    && Shaped(p)
    && (p.state == Canonical ==> AllAre(p.comparisons, LE))
    && (p.state == Slack ==> AllAre(p.comparisons, EQ) && HasSlackBasis(p))
  }

  /** No later position of s holds the element at position i. */
  predicate LastOccurrence<T(==)>(s: seq<T>, i: nat)
    requires i < |s|
  {
    forall j :: i < j < |s| ==> s[j] != s[i]
  }

  /** The name-to-value map filled from the first k names in order, a
      later name overwriting an earlier equal one. */
  function NamedValues(names: seq<string>, values: seq<real>, k: nat): (m: map<string, real>)
    requires k <= |names| <= |values|
    ensures m.Keys == set i | 0 <= i < k :: names[i]
    ensures forall i :: 0 <= i < k && (forall j :: i < j < k ==> names[j] != names[i]) ==>
              m[names[i]] == values[i]
  {
    if k == 0 then map[]
    else NamedValues(names, values, k - 1)[names[k - 1] := values[k - 1]]
  }

  datatype SolutionError = SolutionUnavailable

  datatype MapResult = Found(solution: map<string, real>) | Failed(error: SolutionError)

  /** The solution as a map: each original variable name to its value, and
      "objective" to the last solution element (written last, so it wins
      over a variable of that name). No solution yet is an error. */
  function GetSolution(p: Program): (r: MapResult)
    requires p.objVar.Some? ==> 1 <= |p.objVar.value| && |p.variableNames| <= |p.objVar.value|
    ensures p.objVar.None? <==> r == Failed(SolutionUnavailable)
    ensures r.Found? ==> r.solution.Keys == (set i | 0 <= i < |p.variableNames| :: p.variableNames[i]) + {"objective"}
    ensures r.Found? ==> r.solution["objective"] == p.objVar.value[|p.objVar.value| - 1]
    ensures r.Found? ==> forall i :: (0 <= i < |p.variableNames| && p.variableNames[i] != "objective"
              && LastOccurrence(p.variableNames, i)) ==> r.solution[p.variableNames[i]] == p.objVar.value[i]
  {
    match p.objVar
    case None => Failed(SolutionUnavailable)
    case Some(vals) =>
      Found(NamedValues(p.variableNames, vals, |p.variableNames|)["objective" := vals[|vals| - 1]])
  }
}
