/** The parser's helpers that do not depend on regular expressions or
    number formatting: the comparison tokens in both directions, the
    order-preserving de-duplication of variable names, and the map from a
    variable name to its column. */
module Parser {
  import opened ModelTypes
  import Model

  // ---------------------------------------------------------------------
  // Comparison tokens.

  /** The comparison a constraint's operator token stands for; any other
      token has none. */
  function ParseComparison(token: string): (r: Option<Comparison>)
    ensures r.Some? <==> token in ["<", "<=", ">", ">=", "="]
  {
    match token
    case "<" => Some(LO)
    case "<=" => Some(LE)
    case ">" => Some(BI)
    case ">=" => Some(BE)
    case "=" => Some(EQ)
    case _ => None
  }

  /** The error message of an unknown operator token. */
  function InvalidComparison(token: string): string {
    "invalid comparison operator: " + token
  }

  /** Stores the comparison of `compStr` at position `index`; an unknown
      token is an error and leaves the model as it was. */
  method SetComparison(lp: Model.LinearProgram, index: nat, compStr: string) returns (err: Option<string>)
    requires index < |lp.comparisons|
    modifies lp
    ensures ParseComparison(compStr).None? <==> err.Some?
    ensures err.Some? ==> err.value == InvalidComparison(compStr) && lp.Value() == old(lp.Value())
    ensures err.None? ==>
              lp.Value() == old(lp.Value()).(comparisons := old(lp.comparisons)[index := ParseComparison(compStr).value])
  {
    err := None;
    match compStr
    case "<" => lp.comparisons := lp.comparisons[index := LO];
    case "<=" => lp.comparisons := lp.comparisons[index := LE];
    case ">" => lp.comparisons := lp.comparisons[index := BI];
    case ">=" => lp.comparisons := lp.comparisons[index := BE];
    case "=" => lp.comparisons := lp.comparisons[index := EQ];
    case _ => err := Some(InvalidComparison(compStr));
  }

  /** The operator token of a comparison; reading it back gives the same
      comparison. */
  function ComparisonToString(c: Comparison): (s: string)
    ensures ParseComparison(s) == Some(c)
  {
    match c
    case EQ => "="
    case LO => "<"
    case LE => "<="
    case BI => ">"
    case BE => ">="
  }

  /** Every token that parses is the token written for its comparison, so
      the five tokens and the five comparisons are in one-to-one
      correspondence. */
  lemma ParseComparisonInverse(token: string)
    requires ParseComparison(token).Some?
    ensures ComparisonToString(ParseComparison(token).value) == token
  {
  }

  lemma ComparisonToStringInjective(a: Comparison, b: Comparison)
    ensures ComparisonToString(a) == ComparisonToString(b) ==> a == b
  {
    if ComparisonToString(a) == ComparisonToString(b) {
      assert Some(a) == ParseComparison(ComparisonToString(a));
    }
  }

  // ---------------------------------------------------------------------
  // Order-preserving de-duplication.

  predicate NoDuplicates(s: seq<string>) {
    forall i, j :: 0 <= i < j < |s| ==> s[i] != s[j]
  }

  /** The entries of s, each kept at its first appearance: an entry is
      appended only when it has not been seen yet. */
  function Unique(s: seq<string>): (u: seq<string>)
    ensures NoDuplicates(u)
    ensures forall x :: x in u <==> x in s
    ensures |u| <= |s|
  {
    if |s| == 0 then []
    else
      var u := Unique(s[..|s| - 1]);
      var entry := s[|s| - 1];
      assert forall x :: x in s <==> x in s[..|s| - 1] || x == entry by {
        assert s == s[..|s| - 1] + [entry];
      }
      if entry in u then u else u + [entry]
  }

  /** Index of the first occurrence of x in s. */
  function FirstIndex(s: seq<string>, x: string): (i: nat)
    requires x in s
    ensures i < |s| && s[i] == x && x !in s[..i]
  {
    if s[0] == x then 0 else 1 + FirstIndex(s[1..], x)
  }

  /** The entries of u, all drawn from s, come in the order of their first
      appearance in s. */
  predicate InFirstAppearanceOrder(s: seq<string>, u: seq<string>)
    requires forall x :: x in u ==> x in s
  {
    forall i, j :: 0 <= i < j < |u| ==> FirstIndex(s, u[i]) < FirstIndex(s, u[j])
  }

  /** The kept entries come in the order of their first appearance. */
  lemma {:induction false} UniqueKeepsFirstOrder(s: seq<string>)
    ensures InFirstAppearanceOrder(s, Unique(s))
  {
    if |s| > 0 {
      var p, entry := s[..|s| - 1], s[|s| - 1];
      UniqueKeepsFirstOrder(p);
      assert s == p + [entry];
      forall i, j | 0 <= i < j < |Unique(s)|
        ensures FirstIndex(s, Unique(s)[i]) < FirstIndex(s, Unique(s)[j])
      {
        UniqueOrderStep(p, entry, i, j);
      }
    }
  }

  /** The inductive step: two kept entries of p + [entry] keep the order
      they had among the kept entries of p, and an entry appended for the
      last element comes after all of them. */
  lemma UniqueOrderStep(p: seq<string>, entry: string, i: nat, j: nat)
    requires InFirstAppearanceOrder(p, Unique(p))
    requires i < j < |Unique(p + [entry])|
    ensures var s := p + [entry];
      FirstIndex(s, Unique(s)[i]) < FirstIndex(s, Unique(s)[j])
  {
    var s, u0 := p + [entry], Unique(p);
    assert s[..|s| - 1] == p;
    assert Unique(s) == if entry in u0 then u0 else u0 + [entry];
    var a, b := Unique(s)[i], Unique(s)[j];
    assert a == u0[i] && a in p;
    FirstIndexOfPrefix(p, entry, a);
    if j < |u0| {
      assert b == u0[j] && b in p;
      FirstIndexOfPrefix(p, entry, b);
      assert FirstIndex(p, a) < FirstIndex(p, b);
    } else {
      // b is the new entry, which does not occur in p
      assert b == entry && entry !in p;
      FirstIndexOfLast(p, entry);
    }
  }

  /** Appending an entry does not move the first occurrence of an
      element already present. */
  lemma {:induction false} FirstIndexOfPrefix(p: seq<string>, entry: string, x: string)
    requires x in p
    ensures FirstIndex(p + [entry], x) == FirstIndex(p, x)
  {
    if p[0] != x {
      assert (p + [entry])[1..] == p[1..] + [entry];
      FirstIndexOfPrefix(p[1..], entry, x);
    }
  }

  /** An entry absent from p first occurs in p + [entry] at position |p|. */
  lemma {:induction false} FirstIndexOfLast(p: seq<string>, entry: string)
    requires entry !in p
    ensures FirstIndex(p + [entry], entry) == |p|
  {
    if |p| > 0 {
      assert (p + [entry])[1..] == p[1..] + [entry];
      FirstIndexOfLast(p[1..], entry);
    }
  }

  /** A list without duplicates comes back unchanged. */
  lemma {:induction false} UniqueOfDistinct(s: seq<string>)
    requires NoDuplicates(s)
    ensures Unique(s) == s
  {
    if |s| > 0 {
      var p := s[..|s| - 1];
      UniqueOfDistinct(p);
      assert s[|s| - 1] !in p;
      assert p + [s[|s| - 1]] == s;
    }
  }

  lemma UniqueIdempotent(s: seq<string>)
    ensures Unique(Unique(s)) == Unique(s)
  {
    UniqueOfDistinct(Unique(s));
  }

  // ---------------------------------------------------------------------
  // Variable name to column index.

  /** The map filled over names[..k]: each name to its index, a later
      occurrence overwriting an earlier one. */
  function VarMapUpTo(names: seq<string>, k: nat): (m: map<string, nat>)
    requires k <= |names|
    ensures m.Keys == set i | 0 <= i < k :: names[i]
    ensures forall x :: x in m ==> m[x] < k && names[m[x]] == x
  {
    if k == 0 then map[]
    else VarMapUpTo(names, k - 1)[names[k - 1] := k - 1]
  }

  /** A name not repeated later among the first k maps to its own index:
      for a repeated name, the last occurrence wins. */
  lemma {:induction false} VarMapUpToLast(names: seq<string>, k: nat, i: nat)
    requires i < k <= |names| && LastBefore(names, i, k)
    ensures VarMapUpTo(names, k)[names[i]] == i
  {
    if i < k - 1 {
      assert names[k - 1] != names[i] && LastBefore(names, i, k - 1);
      VarMapUpToLast(names, k - 1, i);
      var prev := VarMapUpTo(names, k - 1);
      assert VarMapUpTo(names, k) == prev[names[k - 1] := k - 1];
    }
  }

  /** No position of s after i and before k holds the element at i. */
  predicate LastBefore(s: seq<string>, i: nat, k: nat)
    requires i < k <= |s|
  {
    forall j :: i < j < k ==> s[j] != s[i]
  }

  /** Every variable name to its column: looking a key up and indexing
      the names with the result gives the key back. */
  function BuildVarMap(names: seq<string>): (m: map<string, nat>)
    ensures m.Keys == set i | 0 <= i < |names| :: names[i]
    ensures forall x :: x in m ==> m[x] < |names| && names[m[x]] == x
    ensures forall i :: 0 <= i < |names| && LastOccurrence(names, i) ==> m[names[i]] == i
  {
    var m := VarMapUpTo(names, |names|);
    assert forall i :: 0 <= i < |names| && LastOccurrence(names, i) ==> m[names[i]] == i by {
      forall i | 0 <= i < |names| && LastOccurrence(names, i)
        ensures m[names[i]] == i
      {
        VarMapUpToLast(names, |names|, i);
      }
    }
    m
  }

  /** Over names without duplicates the map is the inverse of indexing. */
  lemma BuildVarMapInverse(names: seq<string>)
    requires NoDuplicates(names)
    ensures forall i :: 0 <= i < |names| ==> BuildVarMap(names)[names[i]] == i
  {
    var m := BuildVarMap(names);
    forall i | 0 <= i < |names|
      ensures m[names[i]] == i
    {
      assert names[i] in m;
      assert names[m[names[i]]] == names[i];
    }
  }

  /** The names the parser keeps are de-duplicated, so each one maps to
      its own column. */
  lemma UniqueNamesIndexed(found: seq<string>)
    ensures var names := Unique(found);
      forall i :: 0 <= i < |names| ==> BuildVarMap(names)[names[i]] == i
  {
    BuildVarMapInverse(Unique(found));
  }
}
