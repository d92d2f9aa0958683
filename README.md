# DPLL solver model

A Dafny model of the DPLL satisfiability solver in `dpll/solver.java`
(class `DPLL` and its record class `Assignment`). The solver decides
whether a CNF formula is satisfiable with decisions, one-pass unit
propagation and chronological backtracking over a trail stack. Alongside
the trail it keeps a `decisions` table mapping each assigned variable to
its value.

The model has four modules:

- `Cnf` (cnf.dfy): literals, clauses, the `decisions` table as a
  `map<int, bool>`, and what it means for a literal to be true, false or
  free, for a clause to be open, satisfied or a unit clause, and for a
  formula to be in conflict or satisfied.
- `Dimacs` (dimacs.dfy): the clause-building rule of `parse_dimacs`.
  It works over input lines that are already split into integers.
- `Search` (search.dfy): the search state (`trail`, `decisions`) as a
  value. It also gives the effect of each solver step on that state as a
  function: the push/put pair, the unit rule, one propagation sweep,
  `decide` and `backtrack`. The lemmas state what each step preserves.
- `Solver` (solver.dfy): class `DPLL` with the source's four fields. Its
  methods update the trail and table in place, with the source's loops,
  counters and early returns. What each method is proved against:
  - `Backtrack`, `Decide`, `CheckForUnitClauseAndAssign` and
    `BooleanConstraintPropagation` each leave exactly the state that the
    matching `Search` function (`BacktrackStep`, `DecideStep`,
    `UnitCheck`, `Sweep`) computes from the old state.
  - `IsUnsatisfiedClausePresent` returns `Cnf.Conflict` of the clauses and
    the table.
  - `AddClauseLine` and `ParseDimacs` append the clauses that
    `Dimacs.LineClauses` and `Dimacs.Stored` give, and set
    numberOfVariables from `Dimacs.Width` and `Dimacs.Widest`.
  - `Execute` has no matching function. Its contract states that `Sat` is
    sound, and when `Unsat` is sound on a fresh solver.

The main results:

- A `Sat` answer from `Execute` is sound. Every variable
  1..numberOfVariables is assigned, and every clause has a literal whose
  variable has the value the literal's sign asks for.
- On a fresh solver, an `Unsat` answer has one of two causes. The first
  propagation may hit a conflict; then no assignment satisfies the
  formula, because propagation only assigns values that every model must
  share. Otherwise backtracking ran out of decisions, and the trail and
  the table are then both empty.
- `decide` fails exactly when every variable is assigned. It then changes
  nothing.
- Each successful `backtrack` uses up one unflipped decision. It fails
  exactly when none is left.
- Every entry of the table is backed by a trail entry with the same
  variable and value. This holds even though the trail can hold several
  entries for one variable.

The object invariant `DPLL.Valid` is set up by the constructor and kept
by every method, the clause-building ones included. It says that every literal is non-zero, and
that every literal, table key and trail variable lies in
1..numberOfVariables.

Where the code departs from textbook DPLL, the model follows the code:

- A textbook DPLL trail holds at most one entry per variable, and the
  table mirrors the trail exactly. In the code,
  a clause of length one is pushed again on every propagation pass,
  whatever the table says (`solver.java:97-100`). So the trail can hold
  several entries for one variable. Popping any one of them removes the
  variable from the table (`solver.java:73`). The model keeps this
  behaviour and proves only the weaker "every table entry is backed by
  the trail".
- A textbook `decide` looks for a variable with no trail entry. The code
  first compares the size of the table with numberOfVariables,
  then searches the table (`solver.java:83-86`). The model does the
  same. It proves the two checks agree while every key lies in
  1..numberOfVariables.
- `execute` clears the trail but not the table (`solver.java:56`). The
  model does the same. Its `Unsat` results are stated for a solver whose
  table starts empty.
- A line whose first token is `0` stands for the empty clause, which no
  assignment satisfies. `parse_dimacs` drops it, like any other empty
  clause (`solver.java:50-51`). So an input whose only clause line is `0`
  leaves no clauses and no variables, and `execute` answers `sat`. The
  model keeps this (`Dimacs.EmptyClauseDropped`). Because no stored clause
  is ever empty, the empty-clause case of `isUnsatisfiedClausePresent`
  cannot arise from parsed input.

## Model

| member | source | states |
|---|---|---|
| `Cnf.UnitRule` | dpll/solver.java:106-125 | The unit rule fires exactly when one literal is free and every other literal is false. Then no literal is true yet, and assigning the free literal's value makes the clause true |
| `Cnf.NoConflictCoveredSatisfies` | dpll/solver.java:127-140 | With no conflict and every variable 1..n assigned, every clause of a well-formed formula has a true literal |
| `Cnf.ConflictRefutes` | dpll/solver.java:55-58 | A conflict under a table that every model must agree with means that no assignment satisfies the formula |
| `Cnf.FullIffCovers` | dpll/solver.java:82-84 | When every key lies in 1..n, the table has n entries exactly when every variable 1..n is assigned |
| `Dimacs.LineClauses` | dpll/solver.java:42-51 | One input line adds at most one clause, never an empty one. It adds one exactly when the line holds tokens and the first token is not 0 |
| `Dimacs.Stored` | dpll/solver.java:38-52 | The clauses of the whole input, line by line in order. StoredWellFormed and DPLL.ParseDimacs state its properties |
| `Dimacs.EmptyClauseDropped` | dpll/solver.java:43-51 | A line starting with 0 denotes the unsatisfiable empty clause, but it stores nothing, and the empty stored formula is satisfied by every assignment |
| `Dimacs.ClauseOf` | dpll/solver.java:43-46 | The stored clause is the longest prefix of the tokens without a 0. The 0 is not stored and nothing after it is read |
| `Dimacs.Width` | dpll/solver.java:47-48 | The running maximum of the literal magnitudes bounds every literal of the clause, and is 0 for an empty clause |
| `Dimacs.WidthAttained` | dpll/solver.java:47-48 | The running maximum of a non-empty clause is the magnitude of one of its literals |
| `Dimacs.Widest` | dpll/solver.java:47-48 | The variable count over all stored clauses bounds the width of every clause |
| `Dimacs.WidestAttained` | dpll/solver.java:47-48 | The variable count over a non-empty list equals the width of one of its clauses |
| `Dimacs.StoredWellFormed` | dpll/solver.java:42-51 | Parsing stores no empty clause and no literal 0, and every stored literal's variable is at most the variable count |
| `Search.Push` | dpll/solver.java:98-99 | A push puts the entry on top of the trail and sets the table to agree with it. No other trail entry and no other variable changes |
| `Search.UnitCheck` | dpll/solver.java:106-125 | `checkForUnitClauseAndAssign` as a function on the state. UnitCheckEffect, UnitImplied and UnitRule state its behaviour |
| `Search.Visit` | dpll/solver.java:97-101 | One iteration of the propagation loop as a function on the state. VisitLengthOne states its behaviour |
| `Search.Sweep` | dpll/solver.java:95-104 | The propagation loop as a function on the state. SweepExtends, SweepBounded, SweepImplied and SweepWitnessed state its behaviour |
| `Search.DecideStep` | dpll/solver.java:82-93 | `decide` as a function on the state. DecideEffect, DecideBounded and DecideWitnessed state its behaviour |
| `Search.BacktrackStep` | dpll/solver.java:68-80 | `backtrack` as a function on the state. BacktrackConsumesDecision, BacktrackBounded, BacktrackWitnessed and BacktrackExhausted state its behaviour |
| `Search.Assignment` | dpll/solver.java:144-155 | The trail entry record: variable, value and whether the entry is flipped. Push states how an entry goes onto the trail |
| `Search.FirstFree` | dpll/solver.java:85-91 | Returns the smallest variable from `from` to n that is not in the table, or 0 when all of them are |
| `Search.LastUnflipped` | dpll/solver.java:69-79 | Returns the index of the most recent unflipped entry, with every entry above it flipped, or -1 when every entry is flipped |
| `Search.UnitCheckEffect` | dpll/solver.java:106-125 | The unit rule either changes nothing, or pushes one flipped entry making the only free literal true. It changes the state exactly when the clause is a unit clause |
| `Search.VisitLengthOne` | dpll/solver.java:97-101 | A clause of length one is pushed, with its literal's value and flipped, whatever the table held before. The unit rule then adds nothing |
| `Search.SweepExtends` | dpll/solver.java:95-104 | A sweep leaves the old trail below untouched and pushes only flipped entries. It pushes at least one per clause of length one and at most two per clause |
| `Search.SweepBounded` | dpll/solver.java:95-104 | A sweep over well-formed clauses keeps every table key and trail variable in 1..n |
| `Search.SweepImplied` | dpll/solver.java:95-104 | Propagation is sound: if every model agrees with the table before a sweep, it still does afterwards |
| `Search.LengthOneImplied` | dpll/solver.java:97-100 | Forcing a clause of length one keeps the table implied by the formula |
| `Search.UnitImplied` | dpll/solver.java:121-124 | Forcing the free literal of a unit clause keeps the table implied by the formula |
| `Search.PushWitnessed` | dpll/solver.java:98-99 | A push keeps every table entry backed by a trail entry with the same variable and value |
| `Search.SweepWitnessed` | dpll/solver.java:95-104 | A sweep keeps every table entry backed by a trail entry |
| `Search.DecideEffect` | dpll/solver.java:82-93 | When every key lies in 1..n, `decide` fails exactly when every variable is assigned, and then changes nothing. Otherwise it pushes `false`, unflipped, for the smallest unassigned variable and sets only that variable |
| `Search.DecideBounded` | dpll/solver.java:82-93 | `decide` keeps table keys and trail variables in 1..n |
| `Search.DecideWitnessed` | dpll/solver.java:82-93 | `decide` keeps every table entry backed by a trail entry |
| `Search.BacktrackConsumesDecision` | dpll/solver.java:68-79 | Backtracking fails exactly when no unflipped entry is left, and then empties the trail. Each success leaves one unflipped entry fewer |
| `Search.BacktrackBounded` | dpll/solver.java:68-79 | Backtracking keeps table keys and trail variables in 1..n |
| `Search.BacktrackWitnessed` | dpll/solver.java:68-79 | Backtracking keeps every table entry backed by a trail entry, even when it removes a variable that has a duplicate entry |
| `Search.BacktrackExhausted` | dpll/solver.java:70-73 | When the table is backed by the trail, a failed backtrack leaves both the trail and the table empty |
| `Solver.DPLL.constructor` | dpll/solver.java:30-33 | A new solver has an empty trail, table and clause list and no variables, and satisfies the object invariant |
| `Solver.DPLL.AddClauseLine` | dpll/solver.java:42-51 | Appends the clause built from one token line unless it is empty. Raises numberOfVariables to the running maximum. Keeps the object invariant |
| `Solver.DPLL.ParseDimacs` | dpll/solver.java:38-52 | Skips comment and problem lines and appends the clauses of all other lines in order. numberOfVariables becomes the largest variable seen |
| `Solver.DPLL.Execute` | dpll/solver.java:55-66 | A `Sat` answer means every variable 1..n is assigned and every clause has a true literal. On a fresh solver, `Unsat` means the formula is unsatisfiable or the search emptied trail and table |
| `Solver.DPLL.Backtrack` | dpll/solver.java:68-80 | Pops flipped entries and removes their variables from the table. Replaces the top unflipped entry by its negation, flipped. Returns false with an empty trail when there is none |
| `Solver.DPLL.Decide` | dpll/solver.java:82-93 | Returns false and changes nothing exactly when every variable is assigned. Otherwise pushes and records `false` for the smallest free variable |
| `Solver.DPLL.BooleanConstraintPropagation` | dpll/solver.java:95-104 | Makes one sweep over the clauses in order. Returns true exactly when the table left by the sweep has no conflict |
| `Solver.DPLL.CheckForUnitClauseAndAssign` | dpll/solver.java:106-125 | The scan with its counters and early returns has exactly the effect of the unit rule |
| `Solver.DPLL.IsUnsatisfiedClausePresent` | dpll/solver.java:127-140 | Returns true exactly when some clause, including an empty one, has no literal that is free or true |

## Left out

- `Solver.main` (`solver.java:11-25`) is left out because it is process
  plumbing: it prints `sat`/`unsat` and exits with code 10 or 20. If
  reading fails, it prints the exception and runs the search anyway.
- File reading in `parse_dimacs` (`solver.java:36-38`) is I/O.
  `String.trim`, `startsWith`, `split` and `Integer.valueOf`
  (`solver.java:39-44`) are library calls. The model takes each line
  already classified as comment, problem or integer tokens. A token that
  is not an integer, or a blank line, makes `Integer.valueOf` throw; the
  model cannot express that input.
- Java's 32-bit `int` is not modelled; literals and counters are
  unbounded integers. So `Math.abs(Integer.MIN_VALUE)` staying negative,
  and an overflowing loop counter in `decide` when numberOfVariables is
  `Integer.MAX_VALUE`, are not captured.
- `HashMap` and `Stack` appear as a Dafny `map` and `seq`. Hashing,
  capacity and iteration order are not modelled; the source never
  iterates over the map.
- Solver.DPLL.Execute: takes a `fuel` bound on the number of decide and
  backtrack steps and returns `Unknown` when it runs out, because
  termination of the source's `while (true)` loops is not evident. The
  source's loop has no such bound.
- Solver.DPLL.Execute: does not state that `Unsat` is always correct.
  UNSAT is proved only when it comes from the first propagation. When
  backtracking runs out of decisions, the duplicate pushes and table
  removals of `solver.java:73` and `solver.java:98` leave completeness
  unclear.
