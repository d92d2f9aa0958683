/**
 * Literals, clauses and partial assignments of a CNF formula, as the
 * solver in dpll/solver.java sees them: a literal is a non-zero integer
 * whose magnitude names a variable and whose sign gives its polarity, a
 * clause is a sequence of literals, and the solver's `decisions` table is
 * a map from variable to value.
 */
module Cnf {

  datatype Option<T> = None | Some(value: T)

  /** The variable a literal names (`Math.abs`). */
  function Var(lit: int): nat
  {
    if lit < 0 then -lit else lit
  }

  /** The solver's `decisions` table: the current value of each assigned variable. */
  type Lookup = map<int, bool>

  /** The literal's variable is assigned the value the literal's sign asks for. */
  predicate IsTrue(lit: int, d: Lookup)
  {
    Var(lit) in d && d[Var(lit)] == (lit > 0)
  }

  /** The literal's variable is assigned the opposite value. */
  predicate IsFalse(lit: int, d: Lookup)
  {
    Var(lit) in d && d[Var(lit)] != (lit > 0)
  }

  /** The literal's variable has no entry in the table. */
  predicate IsFree(lit: int, d: Lookup)
  {
    Var(lit) !in d
  }

  /** A clause is still open when one of its literals is free or true. */
  predicate Open(c: seq<int>, d: Lookup)
  {
    exists j :: 0 <= j < |c| && (IsFree(c[j], d) || IsTrue(c[j], d))
  }

  /** Some clause has every literal assigned and false (an empty clause counts). */
  predicate Conflict(cs: seq<seq<int>>, d: Lookup)
  {
    exists i :: 0 <= i < |cs| && !Open(cs[i], d)
  }

  predicate Satisfied(c: seq<int>, d: Lookup)
  {
    exists j :: 0 <= j < |c| && IsTrue(c[j], d)
  }

  /** Every clause has a true literal under `d`. */
  predicate Satisfies(d: Lookup, cs: seq<seq<int>>)
  {
    forall i :: 0 <= i < |cs| ==> Satisfied(cs[i], d)
  }

  /** Every literal of the clause is non-zero and names a variable in 1..n. */
  predicate ClauseOk(c: seq<int>, n: nat)
  {
    forall j :: 0 <= j < |c| ==> c[j] != 0 && Var(c[j]) <= n
  }

  predicate WellFormed(cs: seq<seq<int>>, n: nat)
  {
    forall i :: 0 <= i < |cs| ==> ClauseOk(cs[i], n)
  }

  lemma WellFormedWider(cs: seq<seq<int>>, n: nat, m: nat)
    requires WellFormed(cs, n) && n <= m
    ensures WellFormed(cs, m)
  {
    forall i | 0 <= i < |cs| ensures ClauseOk(cs[i], m) {
      assert ClauseOk(cs[i], n);
    }
  }

  /** Every key of the table is a variable 1..n. */
  predicate InRange(d: Lookup, n: nat)
  {
    forall v :: v in d ==> 1 <= v <= n
  }

  /** Every variable 1..n has an entry in the table. */
  predicate Covers(d: Lookup, n: nat)
  {
    forall v :: 1 <= v <= n ==> v in d
  }

  /** `model` gives every variable of `d` the value `d` gives it. */
  ghost predicate Agrees(model: Lookup, d: Lookup)
  {
    forall v :: v in d ==> v in model && model[v] == d[v]
  }

  /** Every assignment that satisfies the formula agrees with `d`: `d` is forced. */
  ghost predicate Implied(cs: seq<seq<int>>, d: Lookup)
  {
    forall model :: Satisfies(model, cs) ==> Agrees(model, d)
  }

  ghost predicate Unsatisfiable(cs: seq<seq<int>>)
  {
    forall model :: !Satisfies(model, cs)
  }

  /**
   * The unit rule: literal `k` is the one free literal of the clause and
   * every other literal is false.
   */
  predicate IsUnitAt(c: seq<int>, d: Lookup, k: int)
  {
    0 <= k < |c| && IsFree(c[k], d) &&
    forall j :: 0 <= j < |c| && j != k ==> IsFalse(c[j], d)
  }

  /** The literal the unit rule makes true, if the clause is a unit clause. */
  ghost function UnitLiteral(c: seq<int>, d: Lookup): Option<int>
  {
    if exists k :: IsUnitAt(c, d, k) then
      var k :| IsUnitAt(c, d, k); Some(c[k])
    else
      None
  }

  lemma UnitAtUnique(c: seq<int>, d: Lookup, k: int, k': int)
    requires IsUnitAt(c, d, k) && IsUnitAt(c, d, k')
    ensures k == k'
  {
    assert forall j :: 0 <= j < |c| && j != k ==> IsFalse(c[j], d);
  }

  lemma UnitLiteralAt(c: seq<int>, d: Lookup, k: int)
    requires IsUnitAt(c, d, k)
    ensures UnitLiteral(c, d) == Some(c[k])
  {
    var k' :| IsUnitAt(c, d, k') && UnitLiteral(c, d) == Some(c[k']);
    UnitAtUnique(c, d, k, k');
  }

  /**
   * The unit rule fires exactly on clauses with no true literal, exactly
   * one free literal and every other literal false, and the value it
   * assigns makes the clause true.
   */
  lemma UnitRule(c: seq<int>, d: Lookup)
    ensures UnitLiteral(c, d).Some? <==> exists k :: IsUnitAt(c, d, k)
    ensures UnitLiteral(c, d).Some? ==>
      var lit := UnitLiteral(c, d).value;
      !Satisfied(c, d) && IsFree(lit, d) && Satisfied(c, d[Var(lit) := lit > 0])
  {
    if k :| IsUnitAt(c, d, k) {
      UnitLiteralAt(c, d, k);
      var lit := c[k];
      forall j | 0 <= j < |c|
        ensures !IsTrue(c[j], d)
      {
        assert j != k ==> IsFalse(c[j], d);
      }
      assert IsTrue(c[k], d[Var(lit) := lit > 0]);
    }
  }

  /**
   * With no conflict and every variable 1..n assigned, every clause of a
   * well-formed formula has a true literal.
   */
  lemma NoConflictCoveredSatisfies(cs: seq<seq<int>>, d: Lookup, n: nat)
    requires WellFormed(cs, n) && Covers(d, n) && !Conflict(cs, d)
    ensures Satisfies(d, cs)
  {
    forall i | 0 <= i < |cs|
      ensures Satisfied(cs[i], d)
    {
      assert Open(cs[i], d);
      var j :| 0 <= j < |cs[i]| && (IsFree(cs[i][j], d) || IsTrue(cs[i][j], d));
      assert ClauseOk(cs[i], n);
      assert Var(cs[i][j]) in d;
    }
  }

  /** A conflict under a forced table means no assignment satisfies the formula. */
  lemma ConflictRefutes(cs: seq<seq<int>>, d: Lookup)
    requires Implied(cs, d) && Conflict(cs, d)
    ensures Unsatisfiable(cs)
  {
    var i :| 0 <= i < |cs| && !Open(cs[i], d);
    forall model
      ensures !Satisfies(model, cs)
    {
      if Agrees(model, d) {
        FalsifiedStaysFalse(cs[i], d, model);
      }
    }
  }

  /** A clause with every literal false under `d` has no true literal under any extension of `d`. */
  lemma FalsifiedStaysFalse(c: seq<int>, d: Lookup, model: Lookup)
    requires !Open(c, d) && Agrees(model, d)
    ensures !Satisfied(c, model)
  {
    forall j | 0 <= j < |c|
      ensures !IsTrue(c[j], model)
    {
      assert IsFalse(c[j], d);
    }
  }

  /** The variables 1..n. */
  function Variables(n: nat): (vs: set<int>)
    ensures forall v :: v in vs <==> 1 <= v <= n
    ensures |vs| == n
  {
    if n == 0 then {} else Variables(n - 1) + {n}
  }

  lemma SubsetCount(a: set<int>, b: set<int>)
    requires a <= b
    ensures |a| <= |b| && (|a| == |b| ==> a == b)
  {
    assert b == a + (b - a);
    assert a * (b - a) == {};
  }

  /**
   * When every key is a variable 1..n, the table has n entries exactly
   * when every variable 1..n is assigned.
   */
  lemma FullIffCovers(d: Lookup, n: nat)
    requires InRange(d, n)
    ensures |d| == n <==> Covers(d, n)
  {
    SubsetCount(d.Keys, Variables(n));
    assert |d| == |d.Keys|;
    if Covers(d, n) {
      assert d.Keys == Variables(n);
    }
  }
}
