/** Small wrapper types shared by every module. */
module Wrappers {
  datatype Option<+T> = None | Some(value: T)
}

/**
 * The clause store of the solver library, seen abstractly: a variable
 * counter and a growing list of clauses over literals `(variable, polarity)`,
 * together with the meaning of a clause list under an assignment.
 */
module Cnf {

  /** A literal: variable `v`, positive or negated. */
  datatype Lit = Lit(v: nat, positive: bool) {
    /** `!l`: the same variable with the other polarity. */
    function Neg(): Lit { Lit(v, !positive) }
  }

  type Clause = seq<Lit>

  /** The formula builder of the solver library: how many variables exist and the clauses so far. */
  datatype Cnf = Cnf(varCount: nat, clauses: seq<Clause>)

  /** Every literal with its polarity flipped, in the same order. */
  function NegAll(ls: seq<Lit>): (r: seq<Lit>)
    ensures |r| == |ls|
    ensures forall i :: 0 <= i < |ls| ==> r[i] == ls[i].Neg()
  {
    seq(|ls|, i requires 0 <= i < |ls| => ls[i].Neg())
  }

  /** The variable count after the library has seen clause `c`: at least one more than every variable in `c`. */
  function CoverClause(n: nat, c: Clause): (m: nat)
    ensures m >= n
    decreases |c|
  {
    if c == [] then n else CoverClause(if c[0].v < n then n else c[0].v + 1, c[1..])
  }

  lemma {:induction false} CoverClauseBound(n: nat, c: Clause)
    ensures forall i :: 0 <= i < |c| ==> c[i].v < CoverClause(n, c)
    ensures (forall i :: 0 <= i < |c| ==> c[i].v < n) ==> CoverClause(n, c) == n
    decreases |c|
  {
    if c != [] {
      CoverClauseBound(if c[0].v < n then n else c[0].v + 1, c[1..]);
      assert forall i :: 1 <= i < |c| ==> c[i] == c[1..][i - 1];
    }
  }

  /** The variable count after a whole list of clauses has been added. */
  function CoverAll(n: nat, cls: seq<Clause>): (m: nat)
    ensures m >= n
    decreases |cls|
  {
    if cls == [] then n else CoverAll(CoverClause(n, cls[0]), cls[1..])
  }

  lemma {:induction false} CoverAllBound(n: nat, cls: seq<Clause>)
    ensures forall i, j :: 0 <= i < |cls| && 0 <= j < |cls[i]| ==> cls[i][j].v < CoverAll(n, cls)
    ensures (forall i, j :: 0 <= i < |cls| && 0 <= j < |cls[i]| ==> cls[i][j].v < n) ==> CoverAll(n, cls) == n
    decreases |cls|
  {
    if cls != [] {
      CoverClauseBound(n, cls[0]);
      CoverAllBound(CoverClause(n, cls[0]), cls[1..]);
      assert forall i :: 1 <= i < |cls| ==> cls[i] == cls[1..][i - 1];
    }
  }

  lemma {:induction false} CoverAllAppend(n: nat, a: seq<Clause>, b: seq<Clause>)
    ensures CoverAll(CoverAll(n, a), b) == CoverAll(n, a + b)
    decreases |a|
  {
    if a != [] {
      assert (a + b)[0] == a[0];
      assert (a + b)[1..] == a[1..] + b;
      CoverAllAppend(CoverClause(n, a[0]), a[1..], b);
    } else {
      assert a + b == b;
    }
  }

  /** `add_clause` for a list of clauses: they are appended and the variable count covers them. */
  function AddClauses(f: Cnf, cls: seq<Clause>): (g: Cnf)
    ensures g.clauses == f.clauses + cls
    ensures g.varCount >= f.varCount
  {
    Cnf(CoverAll(f.varCount, cls), f.clauses + cls)
  }

  lemma AddClausesWf(f: Cnf, cls: seq<Clause>)
    requires Wf(f)
    ensures Wf(AddClauses(f, cls))
  {
    CoverAllBound(f.varCount, cls);
    var g := AddClauses(f, cls);
    forall i, j | 0 <= i < |g.clauses| && 0 <= j < |g.clauses[i]| ensures g.clauses[i][j].v < g.varCount {
      if i >= |f.clauses| { assert g.clauses[i] == cls[i - |f.clauses|]; }
    }
  }

  /** Clauses over variables already counted leave the counter as it was. */
  lemma AddClausesBelow(f: Cnf, cls: seq<Clause>)
    requires forall i, j :: 0 <= i < |cls| && 0 <= j < |cls[i]| ==> cls[i][j].v < f.varCount
    ensures AddClauses(f, cls).varCount == f.varCount
  {
    CoverAllBound(f.varCount, cls);
  }

  /** `add_clause` for one clause. */
  function AddClause(f: Cnf, c: Clause): (g: Cnf)
    ensures g.clauses == f.clauses + [c]
    ensures g.varCount >= f.varCount
  {
    AddClauses(f, [c])
  }

  lemma AddClausesAppend(f: Cnf, a: seq<Clause>, b: seq<Clause>)
    ensures AddClauses(AddClauses(f, a), b) == AddClauses(f, a + b)
  {
    CoverAllAppend(f.varCount, a, b);
    assert f.clauses + a + b == f.clauses + (a + b);
  }

  /** Adding one more clause after a list of them is adding the longer list. */
  lemma AddClauseStep(f: Cnf, cls: seq<Clause>, c: Clause)
    ensures AddClause(AddClauses(f, cls), c) == AddClauses(f, cls + [c])
  {
    AddClausesAppend(f, cls, [c]);
  }

  /** `new_var().positive()`: the next unused variable, as a positive literal. */
  function NewVar(f: Cnf): (res: (Cnf, Lit))
    ensures res.0.clauses == f.clauses
    ensures res.1.positive && res.1.v == f.varCount && res.0.varCount == f.varCount + 1
  {
    (Cnf(f.varCount + 1, f.clauses), Lit(f.varCount, true))
  }

  /** Every literal of the formula refers to a variable below the counter. */
  ghost predicate Wf(f: Cnf) {
    forall i, j :: 0 <= i < |f.clauses| && 0 <= j < |f.clauses[i]| ==> f.clauses[i][j].v < f.varCount
  }

  /** All literals of `ls` refer to variables below `n`. */
  predicate Below(ls: seq<Lit>, n: nat) {
    forall i :: 0 <= i < |ls| ==> ls[i].v < n
  }

  // ---------------------------------------------------------------
  // Meaning of a formula

  type Assignment = nat -> bool

  function Value(s: Assignment, l: Lit): bool {
    s(l.v) == l.positive
  }

  /** Some literal of the clause is true. */
  ghost predicate ClauseSat(s: Assignment, c: Clause) {
    exists i :: 0 <= i < |c| && Value(s, c[i])
  }

  /** Every clause is satisfied. */
  ghost predicate Satisfies(s: Assignment, cls: seq<Clause>) {
    forall i :: 0 <= i < |cls| ==> ClauseSat(s, cls[i])
  }

  /** The values of a literal list under an assignment. */
  function Values(s: Assignment, ls: seq<Lit>): (r: seq<bool>)
    ensures |r| == |ls| && forall i :: 0 <= i < |ls| ==> r[i] == Value(s, ls[i])
  {
    seq(|ls|, i requires 0 <= i < |ls| => Value(s, ls[i]))
  }

  /** `s` with variable `v` set to `b`. */
  function Extend(s: Assignment, v: nat, b: bool): (t: Assignment)
    ensures t(v) == b
    ensures forall x :: x != v ==> t(x) == s(x)
  {
    (x: nat) => if x == v then b else s(x)
  }

  lemma NegValue(s: Assignment, l: Lit)
    ensures Value(s, l.Neg()) == !Value(s, l)
    ensures l.Neg().Neg() == l && l.Neg() != l
  {
  }

  lemma SatAppend(s: Assignment, a: seq<Clause>, b: seq<Clause>)
    ensures Satisfies(s, a + b) <==> Satisfies(s, a) && Satisfies(s, b)
  {
    if Satisfies(s, a) && Satisfies(s, b) {
      forall i | 0 <= i < |a + b| ensures ClauseSat(s, (a + b)[i]) {
        if i >= |a| { assert (a + b)[i] == b[i - |a|]; }
      }
    }
    if Satisfies(s, a + b) {
      forall i | 0 <= i < |b| ensures ClauseSat(s, b[i]) {
        assert (a + b)[|a| + i] == b[i];
      }
      forall i | 0 <= i < |a| ensures ClauseSat(s, a[i]) {
        assert (a + b)[i] == a[i];
      }
    }
  }

  lemma SatisfiesSingle(s: Assignment, c: Clause)
    ensures Satisfies(s, [c]) <==> ClauseSat(s, c)
  {
    assert [c][0] == c;
  }

  /** A model of a longer formula is a model of any prefix of it. */
  lemma SatPrefix(s: Assignment, a: seq<Clause>, b: seq<Clause>)
    requires Satisfies(s, a + b)
    ensures Satisfies(s, a)
  {
    SatAppend(s, a, b);
  }

  /** A model of a formula is a model of every earlier state of it. */
  lemma SatPrefixOf(s: Assignment, a: seq<Clause>, b: seq<Clause>)
    requires a <= b && Satisfies(s, b)
    ensures Satisfies(s, a)
  {
    assert b == a + b[|a|..];
    SatAppend(s, a, b[|a|..]);
  }

  /** Changing a variable that no clause mentions keeps every clause's truth. */
  lemma ExtendUnused(s: Assignment, v: nat, b: bool, cls: seq<Clause>)
    requires forall i, j :: 0 <= i < |cls| && 0 <= j < |cls[i]| ==> cls[i][j].v != v
    ensures Satisfies(Extend(s, v, b), cls) <==> Satisfies(s, cls)
  {
    var t := Extend(s, v, b);
    forall i | 0 <= i < |cls| ensures ClauseSat(t, cls[i]) <==> ClauseSat(s, cls[i]) {
      assert forall j :: 0 <= j < |cls[i]| ==> Value(t, cls[i][j]) == Value(s, cls[i][j]);
    }
  }

  /** Changing a variable above the counter keeps a well-formed formula's truth. */
  lemma ExtendFresh(s: Assignment, f: Cnf, b: bool)
    requires Wf(f)
    ensures Satisfies(Extend(s, f.varCount, b), f.clauses) <==> Satisfies(s, f.clauses)
  {
    ExtendUnused(s, f.varCount, b, f.clauses);
  }

  /** `t` and `s` give the same value to every variable below `n`. */
  ghost predicate Agrees(t: Assignment, s: Assignment, n: nat) {
    forall v: nat :: v < n ==> t(v) == s(v)
  }

  /** Assignments that agree below `n` give the same values to literals below `n`. */
  lemma ValuesAgree(t: Assignment, s: Assignment, n: nat, ls: seq<Lit>)
    requires Agrees(t, s, n) && Below(ls, n)
    ensures Values(t, ls) == Values(s, ls)
  {
  }

  lemma ValueExtend(s: Assignment, v: nat, b: bool, ls: seq<Lit>)
    requires Below(ls, v)
    ensures Values(Extend(s, v, b), ls) == Values(s, ls)
  {
  }
}
