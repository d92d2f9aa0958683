/**
 * The clause-building rule of `DPLL.parse_dimacs` (dpll/solver.java),
 * taken over lines that are already split into integer tokens.
 */
module Dimacs {
  import opened Cnf

  /** A line of the input: a comment (`c …`), the problem line (`p …`), or clause tokens. */
  datatype Line = Comment | Problem | Literals(tokens: seq<int>)

  function Max(a: nat, b: nat): nat
  {
    if a < b then b else a
  }

  /**
   * The clause a line of tokens stores: the tokens before the first `0`;
   * the `0` itself and everything after it are dropped.
   */
  function ClauseOf(tokens: seq<int>): (c: seq<int>)
    ensures |c| <= |tokens| && c == tokens[..|c|]
    ensures forall j :: 0 <= j < |c| ==> c[j] != 0
    ensures |c| == |tokens| || tokens[|c|] == 0
  {
    if tokens == [] || tokens[0] == 0 then [] else [tokens[0]] + ClauseOf(tokens[1..])
  }

  /** The largest variable a clause names, 0 for the empty clause. */
  function Width(c: seq<int>): (w: nat)
    ensures forall j :: 0 <= j < |c| ==> Var(c[j]) <= w
    ensures |c| == 0 ==> w == 0
  {
    if c == [] then 0 else Max(Width(c[..|c| - 1]), Var(c[|c| - 1]))
  }

  /** A non-empty clause has a literal whose variable is its width. */
  lemma {:induction false} WidthAttained(c: seq<int>)
    requires |c| > 0
    ensures exists j :: 0 <= j < |c| && Var(c[j]) == Width(c)
  {
    var init := c[..|c| - 1];
    if |init| > 0 && Width(init) > Var(c[|c| - 1]) {
      WidthAttained(init);
      var j :| 0 <= j < |init| && Var(init[j]) == Width(init);
      assert c[j] == init[j];
    }
  }

  lemma WidthSnoc(c: seq<int>, lit: int)
    ensures Width(c + [lit]) == Max(Width(c), Var(lit))
  {
    assert (c + [lit])[..|c|] == c;
  }

  /**
   * Adding the clause `ClauseOf` keeps from a line keeps the clause list
   * well formed once the variable count covers its width.
   */
  lemma AppendWellFormed(cs: seq<seq<int>>, c: seq<int>, n: nat, m: nat)
    requires WellFormed(cs, n) && n <= m
    requires Width(c) <= m && forall j :: 0 <= j < |c| ==> c[j] != 0
    ensures WellFormed(cs, m) && WellFormed(cs + [c], m)
  {
    WellFormedWider(cs, n, m);
    assert ClauseOk(c, m);
    forall i | 0 <= i < |cs + [c]|
      ensures ClauseOk((cs + [c])[i], m)
    {
      if i < |cs| {
        assert (cs + [c])[i] == cs[i];
      }
    }
  }

  /** The clauses one line adds: nothing for comments, the problem line and empty clauses. */
  function LineClauses(line: Line): (cs: seq<seq<int>>)
    ensures |cs| <= 1 && forall i :: 0 <= i < |cs| ==> |cs[i]| > 0
    ensures cs != [] <==> line.Literals? && line.tokens != [] && line.tokens[0] != 0
  {
    match line
    case Literals(tokens) =>
      var c := ClauseOf(tokens);
      if |c| > 0 then [c] else []
    case _ => []
  }

  /** The clauses a whole input stores, in input order. */
  function Stored(lines: seq<Line>): seq<seq<int>>
  {
    if lines == [] then [] else Stored(lines[..|lines| - 1]) + LineClauses(lines[|lines| - 1])
  }

  /** The largest variable named anywhere in the clauses. */
  function Widest(cs: seq<seq<int>>): (w: nat)
    ensures forall i :: 0 <= i < |cs| ==> Width(cs[i]) <= w
    ensures |cs| == 0 ==> w == 0
  {
    if cs == [] then 0 else Max(Widest(cs[..|cs| - 1]), Width(cs[|cs| - 1]))
  }

  /** Some clause of a non-empty list is as wide as the whole list. */
  lemma {:induction false} WidestAttained(cs: seq<seq<int>>)
    requires |cs| > 0
    ensures exists i :: 0 <= i < |cs| && Width(cs[i]) == Widest(cs)
  {
    var init := cs[..|cs| - 1];
    if |init| > 0 && Widest(init) > Width(cs[|cs| - 1]) {
      WidestAttained(init);
      var i :| 0 <= i < |init| && Width(init[i]) == Widest(init);
      assert cs[i] == init[i];
    }
  }

  /**
   * Parsing stores no empty clause and no literal 0, and every stored
   * literal names a variable no larger than the widest clause.
   */
  lemma {:induction false} StoredWellFormed(lines: seq<Line>)
    ensures forall i :: 0 <= i < |Stored(lines)| ==> |Stored(lines)[i]| > 0
    ensures WellFormed(Stored(lines), Widest(Stored(lines)))
  {
    if lines != [] {
      var init := lines[..|lines| - 1];
      StoredWellFormed(init);
      var cs, more := Stored(init), LineClauses(lines[|lines| - 1]);
      assert Stored(lines) == cs + more;
      WidestAppend(cs, more);
      var w := Widest(cs + more);
      WellFormedWider(cs, Widest(cs), w);
      forall i | 0 <= i < |cs + more|
        ensures |(cs + more)[i]| > 0 && ClauseOk((cs + more)[i], w)
      {
        if i < |cs| {
          assert (cs + more)[i] == cs[i];
          assert ClauseOk(cs[i], w);
        } else {
          var c := more[0];
          assert (cs + more)[i] == c;
          assert ClauseOk(c, Width(c));
        }
      }
    }
  }

  /**
   * A line whose first token is 0 denotes the empty clause, which no
   * assignment satisfies, but it is dropped: the formula stored for it
   * alone is the empty one, which every assignment satisfies.
   */
  lemma EmptyClauseDropped(tokens: seq<int>)
    requires |tokens| > 0 && tokens[0] == 0
    ensures ClauseOf(tokens) == [] && forall model :: !Satisfied(ClauseOf(tokens), model)
    ensures Stored([Literals(tokens)]) == [] && forall model :: Satisfies(model, Stored([Literals(tokens)]))
  {
    assert [Literals(tokens)][..0] == [];
  }

  /** The tokens before the first 0 are exactly what `ClauseOf` keeps. */
  lemma {:induction false} ClauseOfPrefix(tokens: seq<int>, i: int)
    requires 0 <= i <= |tokens|
    requires forall j :: 0 <= j < i ==> tokens[j] != 0
    requires i == |tokens| || tokens[i] == 0
    ensures ClauseOf(tokens) == tokens[..i]
  {
    if i > 0 {
      ClauseOfPrefix(tokens[1..], i - 1);
      assert tokens[..i] == [tokens[0]] + tokens[1..][..i - 1];
    }
  }

  /** The width of the clause one line adds, 0 when it adds none. */
  function LineWidth(line: Line): nat
  {
    match line
    case Literals(tokens) => Width(ClauseOf(tokens))
    case _ => 0
  }

  /** Parsing one more line appends its clauses and raises the variable count by its width. */
  lemma ParseStep(prior: seq<seq<int>>, n: nat, lines: seq<Line>, i: int)
    requires 0 <= i < |lines|
    ensures prior + Stored(lines[..i + 1]) == prior + Stored(lines[..i]) + LineClauses(lines[i])
    ensures Max(n, Widest(Stored(lines[..i + 1]))) == Max(Max(n, Widest(Stored(lines[..i]))), LineWidth(lines[i]))
  {
    assert lines[..i + 1][..i] == lines[..i];
    var done, more := Stored(lines[..i]), LineClauses(lines[i]);
    assert Stored(lines[..i + 1]) == done + more;
    AppendAssoc(prior, done, more);
    WidestAppend(done, more);
  }

  lemma AppendAssoc(a: seq<seq<int>>, b: seq<seq<int>>, c: seq<seq<int>>)
    ensures a + (b + c) == a + b + c
  {
  }

  lemma WidestAppend(cs: seq<seq<int>>, extra: seq<seq<int>>)
    requires |extra| <= 1
    ensures Widest(cs + extra) == if extra == [] then Widest(cs) else Max(Widest(cs), Width(extra[0]))
  {
    if extra != [] {
      assert (cs + extra)[..|cs|] == cs;
    } else {
      assert cs + extra == cs;
    }
  }
}
