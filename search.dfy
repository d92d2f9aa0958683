/**
 * The search state of `DPLL` (dpll/solver.java) as a value — the trail
 * stack and the `decisions` table — and the effect of each of the
 * solver's steps on it, with what those steps preserve.
 *
 * The class in solver.dfy runs the steps imperatively; each of its
 * methods is proved to have the effect the function here describes.
 */
module Search {
  import opened Cnf

  /**
   * One trail entry (class `Assignment`). `flipped` is false only for a
   * decision whose opposite value has not been tried yet.
   */
  datatype Assignment = Assignment(variable: int, value: bool, flipped: bool)

  /** The trail and the `decisions` table. */
  datatype State = State(trail: seq<Assignment>, decisions: Lookup)

  /** The most recent trail entry agrees with the table. */
  predicate TopAgrees(s: State)
  {
    |s.trail| > 0 ==>
      var a := s.trail[|s.trail| - 1];
      a.variable in s.decisions && s.decisions[a.variable] == a.value
  }

  /**
   * `trail.push(a)` together with `decisions.put(a.variable, a.value)`:
   * the entry goes on top, the table agrees with it, and no other entry
   * or variable changes.
   */
  function Push(s: State, a: Assignment): (r: State)
    ensures |r.trail| == |s.trail| + 1 && r.trail[..|s.trail|] == s.trail
    ensures r.trail[|s.trail|] == a && TopAgrees(r)
    ensures forall v :: v != a.variable ==>
      (v in r.decisions <==> v in s.decisions) &&
      (v in s.decisions ==> r.decisions[v] == s.decisions[v])
  {
    State(s.trail + [a], s.decisions[a.variable := a.value])
  }

  /** The entry that makes a literal true, marked as not to be flipped. */
  function Forced(lit: int): Assignment
  {
    Assignment(Var(lit), lit > 0, true)
  }

  /** `checkForUnitClauseAndAssign`: apply the unit rule to one clause. */
  ghost function UnitCheck(s: State, c: seq<int>): State
  {
    match UnitLiteral(c, s.decisions)
    case Some(lit) => Push(s, Forced(lit))
    case None => s
  }

  /**
   * One iteration of the propagation sweep: a clause of length one is
   * pushed whatever the table says, then the unit rule runs on the clause.
   */
  ghost function Visit(s: State, c: seq<int>): State
  {
    UnitCheck(if |c| == 1 then Push(s, Forced(c[0])) else s, c)
  }

  /** The propagation sweep over `cs`, in order. */
  ghost function Sweep(s: State, cs: seq<seq<int>>): State
  {
    if cs == [] then s else Visit(Sweep(s, cs[..|cs| - 1]), cs[|cs| - 1])
  }

  /** The smallest variable in from..n without an entry in `d`, or 0 if there is none. */
  function FirstFree(d: Lookup, n: nat, from: nat): (v: nat)
    requires from >= 1
    ensures v == 0 ==> forall u :: from <= u <= n ==> u in d
    ensures v != 0 ==> from <= v <= n && v !in d && forall u :: from <= u < v ==> u in d
    decreases n + 1 - from
  {
    if from > n then 0
    else if from !in d then from
    else FirstFree(d, n, from + 1)
  }

  /**
   * `decide`: nothing to do when the table has n entries; otherwise push
   * `false` for the smallest unassigned variable.
   */
  function DecideStep(s: State, n: nat): (bool, State)
  {
    if |s.decisions| == n then (false, s)
    else
      var v := FirstFree(s.decisions, n, 1);
      if v == 0 then (true, s) else (true, Push(s, Assignment(v, false, false)))
  }

  /** The index of the most recent unflipped trail entry, -1 if there is none. */
  function LastUnflipped(t: seq<Assignment>): (k: int)
    ensures -1 <= k < |t|
    ensures forall j :: k < j < |t| ==> t[j].flipped
    ensures k >= 0 ==> !t[k].flipped
  {
    if t == [] then -1
    else if !t[|t| - 1].flipped then |t| - 1
    else LastUnflipped(t[..|t| - 1])
  }

  /** The variables of the entries at index k and above. */
  function Popped(t: seq<Assignment>, k: int): set<int>
  {
    set j | 0 <= j < |t| && k <= j :: t[j].variable
  }

  /**
   * `backtrack`: pop the flipped entries above the most recent unflipped
   * one, removing each popped variable from the table, then replace that
   * entry by its opposite value, now flipped. With no unflipped entry the
   * trail is emptied and the step fails.
   */
  function BacktrackStep(s: State): (bool, State)
  {
    var k := LastUnflipped(s.trail);
    if k < 0 then
      (false, State([], s.decisions - Popped(s.trail, 0)))
    else
      var a := s.trail[k];
      (true, Push(State(s.trail[..k], s.decisions - Popped(s.trail, k)),
                  Assignment(a.variable, !a.value, true)))
  }

  /** The number of decisions on the trail whose other value is still to be tried. */
  function Unflipped(t: seq<Assignment>): nat
  {
    if t == [] then 0 else Unflipped(t[..|t| - 1]) + (if t[|t| - 1].flipped then 0 else 1)
  }

  /** Every variable of the trail and the table is one of 1..n. */
  predicate Bounded(s: State, n: nat)
  {
    InRange(s.decisions, n) &&
    forall i :: 0 <= i < |s.trail| ==> 1 <= s.trail[i].variable <= n
  }

  /** Every entry of the table is backed by a trail entry with that variable and value. */
  ghost predicate Witnessed(s: State)
  {
    forall v :: v in s.decisions ==>
      exists i :: 0 <= i < |s.trail| && s.trail[i].variable == v && s.trail[i].value == s.decisions[v]
  }

  /** The number of clauses of length one. */
  function LengthOneCount(cs: seq<seq<int>>): nat
  {
    if cs == [] then 0 else LengthOneCount(cs[..|cs| - 1]) + (if |cs[|cs| - 1]| == 1 then 1 else 0)
  }

  // ---------------------------------------------------------------- unit rule

  /**
   * The unit rule pushes at most one entry: a flipped entry that makes the
   * clause's only free literal true, and only when every other literal is
   * false. Otherwise nothing changes.
   */
  lemma UnitCheckEffect(s: State, c: seq<int>)
    ensures var r := UnitCheck(s, c);
      (r == s) || (exists k :: IsUnitAt(c, s.decisions, k) && r == Push(s, Forced(c[k])))
    ensures UnitCheck(s, c) != s <==> exists k :: IsUnitAt(c, s.decisions, k)
  {
    if k :| IsUnitAt(c, s.decisions, k) {
      UnitLiteralAt(c, s.decisions, k);
      assert |UnitCheck(s, c).trail| == |s.trail| + 1;
    }
  }

  /**
   * A clause of length one is pushed once per sweep: after its forced push
   * the literal is true, so the unit rule adds nothing.
   */
  lemma VisitLengthOne(s: State, c: seq<int>)
    requires |c| == 1
    ensures Visit(s, c) == Push(s, Forced(c[0]))
  {
    var s1 := Push(s, Forced(c[0]));
    assert IsTrue(c[0], s1.decisions);
    assert forall k :: !IsUnitAt(c, s1.decisions, k);
  }

  // ------------------------------------------------------------------- sweep

  /**
   * A sweep only pushes: the old trail stays below, every new entry is
   * flipped, and there is at least one new entry per clause of length one
   * and at most two per clause.
   */
  lemma {:induction false} SweepExtends(s: State, cs: seq<seq<int>>)
    ensures var r := Sweep(s, cs);
      |s.trail| + LengthOneCount(cs) <= |r.trail| <= |s.trail| + 2 * |cs| &&
      r.trail[..|s.trail|] == s.trail &&
      forall i :: |s.trail| <= i < |r.trail| ==> r.trail[i].flipped
  {
    if cs != [] {
      var init, c := cs[..|cs| - 1], cs[|cs| - 1];
      SweepExtends(s, init);
      var m := Sweep(s, init);
      var m1 := if |c| == 1 then Push(m, Forced(c[0])) else m;
      UnitCheckEffect(m1, c);
      if |c| == 1 {
        VisitLengthOne(m, c);
      }
    }
  }

  lemma UnitCheckBounded(s: State, c: seq<int>, n: nat)
    requires Bounded(s, n) && ClauseOk(c, n)
    ensures Bounded(UnitCheck(s, c), n)
  {
    UnitCheckEffect(s, c);
  }

  lemma {:induction false} SweepBounded(s: State, cs: seq<seq<int>>, n: nat)
    requires Bounded(s, n) && WellFormed(cs, n)
    ensures Bounded(Sweep(s, cs), n)
  {
    if cs != [] {
      var init, c := cs[..|cs| - 1], cs[|cs| - 1];
      assert WellFormed(init, n);
      assert ClauseOk(c, n);
      SweepBounded(s, init, n);
      var m := Sweep(s, init);
      var m1 := if |c| == 1 then Push(m, Forced(c[0])) else m;
      assert Bounded(m1, n);
      UnitCheckBounded(m1, c, n);
    }
  }

  lemma PushWitnessed(s: State, a: Assignment)
    requires Witnessed(s)
    ensures Witnessed(Push(s, a))
  {
    var r := Push(s, a);
    forall v | v in r.decisions
      ensures exists i :: 0 <= i < |r.trail| && r.trail[i].variable == v && r.trail[i].value == r.decisions[v]
    {
      if v == a.variable {
        assert r.trail[|s.trail|] == a;
      } else {
        var i :| 0 <= i < |s.trail| && s.trail[i].variable == v && s.trail[i].value == s.decisions[v];
        assert r.trail[i] == s.trail[i];
      }
    }
  }

  lemma {:induction false} SweepWitnessed(s: State, cs: seq<seq<int>>)
    requires Witnessed(s)
    ensures Witnessed(Sweep(s, cs))
  {
    if cs != [] {
      var init, c := cs[..|cs| - 1], cs[|cs| - 1];
      SweepWitnessed(s, init);
      var m := Sweep(s, init);
      var m1 := if |c| == 1 then Push(m, Forced(c[0])) else m;
      if |c| == 1 {
        PushWitnessed(m, Forced(c[0]));
      }
      UnitCheckEffect(m1, c);
      if UnitCheck(m1, c) != m1 {
        var k :| IsUnitAt(c, m1.decisions, k) && UnitCheck(m1, c) == Push(m1, Forced(c[k]));
        PushWitnessed(m1, Forced(c[k]));
      }
    }
  }

  /**
   * Propagation is sound: when every satisfying assignment of the formula
   * agrees with the table, it still does after a sweep over clauses of
   * the formula.
   */
  lemma {:induction false} SweepImplied(cs: seq<seq<int>>, s: State, done: seq<seq<int>>)
    requires Implied(cs, s.decisions)
    requires forall i :: 0 <= i < |done| ==> done[i] in cs
    ensures Implied(cs, Sweep(s, done).decisions)
  {
    if done != [] {
      var init, c := done[..|done| - 1], done[|done| - 1];
      assert forall i :: 0 <= i < |init| ==> init[i] in cs by {
        forall i | 0 <= i < |init| ensures init[i] in cs {
          assert init[i] == done[i];
        }
      }
      SweepImplied(cs, s, init);
      var m := Sweep(s, init);
      assert c in cs;
      var m1 := if |c| == 1 then Push(m, Forced(c[0])) else m;
      if |c| == 1 {
        LengthOneImplied(cs, m.decisions, c);
      }
      UnitCheckEffect(m1, c);
      if UnitCheck(m1, c) != m1 {
        var k :| IsUnitAt(c, m1.decisions, k) && UnitCheck(m1, c) == Push(m1, Forced(c[k]));
        UnitImplied(cs, m1.decisions, c, k);
      }
    }
  }

  lemma LengthOneImplied(cs: seq<seq<int>>, d: Lookup, c: seq<int>)
    requires Implied(cs, d) && c in cs && |c| == 1
    ensures Implied(cs, d[Var(c[0]) := c[0] > 0])
  {
    forall model | Satisfies(model, cs)
      ensures Agrees(model, d[Var(c[0]) := c[0] > 0])
    {
      var i :| 0 <= i < |cs| && cs[i] == c;
      assert Satisfied(cs[i], model);
      assert Agrees(model, d);
    }
  }

  lemma UnitImplied(cs: seq<seq<int>>, d: Lookup, c: seq<int>, k: int)
    requires Implied(cs, d) && c in cs && IsUnitAt(c, d, k)
    ensures Implied(cs, d[Var(c[k]) := c[k] > 0])
  {
    forall model | Satisfies(model, cs)
      ensures Agrees(model, d[Var(c[k]) := c[k] > 0])
    {
      var i :| 0 <= i < |cs| && cs[i] == c;
      assert Satisfied(c, model);
      assert Agrees(model, d);
      var j :| 0 <= j < |c| && IsTrue(c[j], model);
      assert forall j' :: 0 <= j' < |c| && j' != k ==> IsFalse(c[j'], d);
      assert j == k;
    }
  }

  // ------------------------------------------------------------------ decide

  /**
   * With every key in 1..n, `decide` fails exactly when every variable
   * 1..n is assigned, and then changes nothing; otherwise it pushes
   * `false` for the smallest unassigned variable, unflipped, and sets only
   * that variable in the table.
   */
  lemma DecideEffect(s: State, n: nat)
    requires InRange(s.decisions, n)
    ensures var (ok, r) := DecideStep(s, n);
      (!ok <==> Covers(s.decisions, n)) &&
      (!ok ==> r == s) &&
      (ok ==> exists v :: 1 <= v <= n && v !in s.decisions &&
                (forall u :: 1 <= u < v ==> u in s.decisions) &&
                r == Push(s, Assignment(v, false, false)))
  {
    FullIffCovers(s.decisions, n);
  }

  lemma BoundedWider(s: State, n: nat, m: nat)
    requires Bounded(s, n) && n <= m
    ensures Bounded(s, m)
  {
  }

  lemma PushBounded(s: State, a: Assignment, n: nat)
    requires Bounded(s, n) && 1 <= a.variable <= n
    ensures Bounded(Push(s, a), n)
  {
  }

  lemma DecideBounded(s: State, n: nat)
    requires Bounded(s, n)
    ensures Bounded(DecideStep(s, n).1, n)
  {
  }

  lemma DecideWitnessed(s: State, n: nat)
    requires Witnessed(s)
    ensures Witnessed(DecideStep(s, n).1)
  {
    var (ok, r) := DecideStep(s, n);
    if r != s {
      PushWitnessed(s, Assignment(FirstFree(s.decisions, n, 1), false, false));
    }
  }

  // --------------------------------------------------------------- backtrack

  lemma {:induction false} UnflippedAbove(t: seq<Assignment>, k: int)
    requires 0 <= k < |t|
    requires forall j :: k < j < |t| ==> t[j].flipped
    ensures Unflipped(t) == Unflipped(t[..k + 1])
  {
    if |t| - 1 > k {
      assert t[..|t| - 1][..k + 1] == t[..k + 1];
      UnflippedAbove(t[..|t| - 1], k);
    } else {
      assert t[..k + 1] == t;
    }
  }

  lemma {:induction false} AllFlipped(t: seq<Assignment>)
    requires forall j :: 0 <= j < |t| ==> t[j].flipped
    ensures Unflipped(t) == 0
  {
    if t != [] {
      AllFlipped(t[..|t| - 1]);
    }
  }

  /**
   * Backtracking fails exactly when no decision is left to flip, and each
   * successful backtrack uses up one such decision.
   */
  lemma BacktrackConsumesDecision(s: State)
    ensures var (ok, r) := BacktrackStep(s);
      (!ok <==> Unflipped(s.trail) == 0) &&
      (!ok ==> r.trail == []) &&
      (ok ==> Unflipped(r.trail) + 1 == Unflipped(s.trail))
  {
    var k := LastUnflipped(s.trail);
    if k < 0 {
      AllFlipped(s.trail);
    } else {
      UnflippedAbove(s.trail, k);
      assert s.trail[..k + 1][..k] == s.trail[..k];
      var r := BacktrackStep(s).1;
      assert r.trail[..k] == s.trail[..k];
    }
  }

  /** Popping the entry at index m removes its variable from the table. */
  lemma PopOne(t: seq<Assignment>, d: Lookup, m: int)
    requires 0 <= m < |t|
    ensures Popped(t, m) == Popped(t, m + 1) + {t[m].variable}
    ensures (d - Popped(t, m + 1)) - {t[m].variable} == d - Popped(t, m)
    ensures t[..m + 1][..m] == t[..m]
  {
  }

  lemma BacktrackBounded(s: State, n: nat)
    requires Bounded(s, n)
    ensures Bounded(BacktrackStep(s).1, n)
  {
  }

  lemma BacktrackWitnessed(s: State)
    requires Witnessed(s)
    ensures Witnessed(BacktrackStep(s).1)
  {
    var k := LastUnflipped(s.trail);
    if k < 0 {
      assert Witnessed(State([], s.decisions - Popped(s.trail, 0))) by {
        forall v | v in s.decisions ensures v in Popped(s.trail, 0) {
          var i :| 0 <= i < |s.trail| && s.trail[i].variable == v && s.trail[i].value == s.decisions[v];
        }
      }
    } else {
      var below := State(s.trail[..k], s.decisions - Popped(s.trail, k));
      forall v | v in below.decisions
        ensures exists i :: 0 <= i < |below.trail| && below.trail[i].variable == v && below.trail[i].value == below.decisions[v]
      {
        var i :| 0 <= i < |s.trail| && s.trail[i].variable == v && s.trail[i].value == s.decisions[v];
        assert i >= k ==> v in Popped(s.trail, k);
        assert below.trail[i] == s.trail[i];
      }
      PushWitnessed(below, Assignment(s.trail[k].variable, !s.trail[k].value, true));
    }
  }

  /**
   * When the table is backed by the trail, a failed backtrack leaves both
   * the trail and the table empty.
   */
  lemma BacktrackExhausted(s: State)
    requires Witnessed(s)
    ensures !BacktrackStep(s).0 ==> BacktrackStep(s).1 == State([], map[])
  {
    if LastUnflipped(s.trail) < 0 {
      var d := s.decisions - Popped(s.trail, 0);
      forall v | v in s.decisions ensures v in Popped(s.trail, 0) {
        var i :| 0 <= i < |s.trail| && s.trail[i].variable == v && s.trail[i].value == s.decisions[v];
      }
      assert d.Keys == {};
    }
  }
}
