/**
 * What the clauses built by module Sat mean: each helper and gate under an
 * assignment, the sequential counter as written, the counter as intended, and
 * how reading a model through `SatSolution` resolves literals.
 */
module SatFacts {
  import opened Wrappers
  import opened Cnf
  import opened Sat

  predicate AllTrue(bs: seq<bool>) { forall i :: 0 <= i < |bs| ==> bs[i] }
  predicate AnyTrue(bs: seq<bool>) { exists i :: 0 <= i < |bs| && bs[i] }

  /** How many of `bs` are true. */
  function CountTrue(bs: seq<bool>): (n: nat)
    ensures n <= |bs|
  {
    if bs == [] then 0 else CountTrue(bs[..|bs| - 1]) + (if bs[|bs| - 1] then 1 else 0)
  }

  // ---------------------------------------------------------------
  // Clause helpers

  lemma AllTrueTwo(s: Assignment, a: Lit, b: Lit)
    ensures AllTrue(Values(s, [a, b])) <==> Value(s, a) && Value(s, b)
  {
    var vs := Values(s, [a, b]);
    assert vs[0] == Value(s, a) && vs[1] == Value(s, b);
  }

  lemma UnitClausesMeaning(s: Assignment, vs: seq<Lit>)
    ensures Satisfies(s, UnitClauses(vs)) <==> AllTrue(Values(s, vs))
  {
    if Satisfies(s, UnitClauses(vs)) {
      forall i | 0 <= i < |vs| ensures Value(s, vs[i]) {
        assert ClauseSat(s, UnitClauses(vs)[i]);
      }
    }
    if AllTrue(Values(s, vs)) {
      forall i | 0 <= i < |vs| ensures ClauseSat(s, UnitClauses(vs)[i]) {
        assert Value(s, UnitClauses(vs)[i][0]);
      }
    }
  }

  lemma NorClausesMeaning(s: Assignment, vs: seq<Lit>)
    ensures Satisfies(s, NorClauses(vs)) <==> forall i :: 0 <= i < |vs| ==> !Value(s, vs[i])
  {
    UnitClausesMeaning(s, NegAll(vs));
    forall i | 0 <= i < |vs| ensures Value(s, NegAll(vs)[i]) == !Value(s, vs[i]) {
      NegValue(s, vs[i]);
    }
  }

  lemma NandMeaning(s: Assignment, vs: seq<Lit>)
    ensures ClauseSat(s, NandLits(vs)) <==> !AllTrue(Values(s, vs))
  {
    forall i | 0 <= i < |vs| ensures Value(s, NegAll(vs)[i]) == !Value(s, vs[i]) {
      NegValue(s, vs[i]);
    }
  }

  lemma NotMeaning(s: Assignment, a: Lit)
    ensures ClauseSat(s, NotLits(a)) <==> !Value(s, a)
  {
    NegValue(s, a);
    if !Value(s, a) { assert Value(s, NotLits(a)[0]); }
  }

  lemma ImpliesMeaning(s: Assignment, a: Lit, b: Lit)
    ensures ClauseSat(s, ImpliesLits(a, b)) <==> (Value(s, a) ==> Value(s, b))
  {
    NegValue(s, a);
    var c := ImpliesLits(a, b);
    if Value(s, a) ==> Value(s, b) {
      if Value(s, a) { assert Value(s, c[1]); } else { assert Value(s, c[0]); }
    }
  }

  lemma AndImpliesMeaning(s: Assignment, a: seq<Lit>, b: Lit)
    ensures ClauseSat(s, AndImpliesLits(a, b)) <==> (AllTrue(Values(s, a)) ==> Value(s, b))
  {
    var c := AndImpliesLits(a, b);
    forall i | 0 <= i < |a| ensures Value(s, c[i]) == !Value(s, a[i]) {
      NegValue(s, a[i]);
    }
    if AllTrue(Values(s, a)) ==> Value(s, b) {
      if Value(s, b) {
        assert Value(s, c[|a|]);
      } else {
        var i :| 0 <= i < |a| && !Value(s, a[i]);
        assert Value(s, c[i]);
      }
    }
  }

  /** As written, `implies_or_clause(a, bs)` holds when `a` or some `b` holds, not when `a` implies one. */
  lemma ImpliesOrMeaning(s: Assignment, a: Lit, b: seq<Lit>)
    ensures ClauseSat(s, ImpliesOrLits(a, b)) <==> Value(s, a) || AnyTrue(Values(s, b))
  {
    var c := ImpliesOrLits(a, b);
    if Value(s, a) { assert Value(s, c[0]); }
    if AnyTrue(Values(s, b)) {
      var i :| 0 <= i < |b| && Value(s, b[i]);
      assert Value(s, c[i + 1]);
    }
    if ClauseSat(s, c) {
      var i :| 0 <= i < |c| && Value(s, c[i]);
      if i > 0 { assert Values(s, b)[i - 1]; }
    }
  }

  // ---------------------------------------------------------------
  // Gates, clause by clause

  /** The `and_var` clauses hold exactly when `r` is the conjunction of `vars`. */
  lemma AndGateMeaning(s: Assignment, vars: seq<Lit>, r: Lit)
    ensures Satisfies(s, AndGate(vars, r)) <==> (Value(s, r) == AllTrue(Values(s, vars)))
  {
    var imps := seq(|vars|, i requires 0 <= i < |vars| => ImpliesLits(r, vars[i]));
    SatAppend(s, imps, [AndImpliesLits(vars, r)]);
    AndImpliesMeaning(s, vars, r);
    forall i | 0 <= i < |vars| ensures ClauseSat(s, imps[i]) <==> (Value(s, r) ==> Value(s, vars[i])) {
      ImpliesMeaning(s, r, vars[i]);
    }
    SatisfiesSingle(s, AndImpliesLits(vars, r));
  }

  /** As written, the `or_var` clauses hold exactly when `r` is true, whatever `vars` are. */
  lemma OrGateMeaning(s: Assignment, vars: seq<Lit>, r: Lit)
    ensures Satisfies(s, OrGate(vars, r)) <==> Value(s, r)
  {
    var imps := seq(|vars|, i requires 0 <= i < |vars| => ImpliesLits(vars[i], r));
    SatAppend(s, imps, [ImpliesOrLits(r, vars)]);
    ImpliesOrMeaning(s, r, vars);
    forall i | 0 <= i < |vars| ensures ClauseSat(s, imps[i]) <==> (Value(s, vars[i]) ==> Value(s, r)) {
      ImpliesMeaning(s, vars[i], r);
    }
    SatisfiesSingle(s, ImpliesOrLits(r, vars));
  }

  /** The documented `or_var` contract fails: all inputs false, result true, and every clause holds. */
  lemma OrGateNotDisjunction()
    ensures var s: Assignment := (x: nat) => x == 1;
            Satisfies(s, OrGate([Lit(0, true)], Lit(1, true)))
            && Value(s, Lit(1, true)) != AnyTrue(Values(s, [Lit(0, true)]))
  {
    var s: Assignment := (x: nat) => x == 1;
    OrGateMeaning(s, [Lit(0, true)], Lit(1, true));
    assert Values(s, [Lit(0, true)]) == [false];
  }

  /** The corrected `or_var` clauses hold exactly when `r` is the disjunction of `vars`. */
  lemma OrGateFixedMeaning(s: Assignment, vars: seq<Lit>, r: Lit)
    ensures Satisfies(s, OrGateFixed(vars, r)) <==> (Value(s, r) == AnyTrue(Values(s, vars)))
  {
    var imps := seq(|vars|, i requires 0 <= i < |vars| => ImpliesLits(vars[i], r));
    var last := [r.Neg()] + vars;
    SatAppend(s, imps, [last]);
    NegValue(s, r);
    forall i | 0 <= i < |vars| ensures ClauseSat(s, imps[i]) <==> (Value(s, vars[i]) ==> Value(s, r)) {
      ImpliesMeaning(s, vars[i], r);
    }
    SatisfiesSingle(s, last);
    if Value(s, r) == AnyTrue(Values(s, vars)) {
      if Value(s, r) {
        var i :| 0 <= i < |vars| && Values(s, vars)[i];
        assert Value(s, last[i + 1]);
      } else {
        assert Value(s, last[0]);
      }
    }
    if Satisfies(s, OrGateFixed(vars, r)) {
      if Value(s, r) {
        var i :| 0 <= i < |last| && Value(s, last[i]);
        assert i > 0 && Values(s, vars)[i - 1];
      }
      if AnyTrue(Values(s, vars)) {
        var i :| 0 <= i < |vars| && Values(s, vars)[i];
        assert ClauseSat(s, imps[i]);
      }
    }
  }

  /** The four `xor_var` clauses hold exactly when `r == (a != b)`. */
  lemma XorGateMeaning(s: Assignment, a: Lit, b: Lit, r: Lit)
    ensures Satisfies(s, XorGate(a, b, r)) <==> (Value(s, r) == (Value(s, a) != Value(s, b)))
  {
    NegValue(s, a);
    NegValue(s, b);
    NegValue(s, r);
    var g := XorGate(a, b, r);
    if Value(s, r) == (Value(s, a) != Value(s, b)) {
      forall i | 0 <= i < 4 ensures ClauseSat(s, g[i]) {
        if Value(s, g[i][0]) { } else if Value(s, g[i][1]) { } else { assert Value(s, g[i][2]); }
      }
    }
    if Satisfies(s, g) {
      assert ClauseSat(s, g[0]) && ClauseSat(s, g[1]) && ClauseSat(s, g[2]) && ClauseSat(s, g[3]);
    }
  }

  /** The four clauses of the middle case of `count_var` hold exactly when `r == (m && v) || p`. */
  lemma CountGateMeaning(s: Assignment, m: Lit, p: Lit, v: Lit, r: Lit)
    ensures Satisfies(s, CountGate(m, p, v, r)) <==> (Value(s, r) == ((Value(s, m) && Value(s, v)) || Value(s, p)))
  {
    NegValue(s, m);
    NegValue(s, p);
    NegValue(s, v);
    NegValue(s, r);
    var g := CountGate(m, p, v, r);
    if Value(s, r) == ((Value(s, m) && Value(s, v)) || Value(s, p)) {
      forall i | 0 <= i < 4 ensures ClauseSat(s, g[i]) {
        if Value(s, g[i][0]) { } else if Value(s, g[i][1]) { } else { assert Value(s, g[i][2]); }
      }
    }
    if Satisfies(s, g) {
      assert ClauseSat(s, g[0]) && ClauseSat(s, g[1]) && ClauseSat(s, g[2]) && ClauseSat(s, g[3]);
    }
  }

  // ---------------------------------------------------------------
  // Gates on the formula: every model gives the gate's value, and every
  // model of the formula before extends to one after.

  lemma AndVarModels(f: Cnf, vars: seq<Lit>, s: Assignment)
    requires Satisfies(s, AndVarF(f, vars).0.clauses)
    ensures Value(s, AndVarF(f, vars).1) == AllTrue(Values(s, vars))
  {
    var r := AndVarF(f, vars).1;
    SatAppend(s, f.clauses, AndGate(vars, r));
    AndGateMeaning(s, vars, r);
  }

  lemma AndVarExtends(f: Cnf, vars: seq<Lit>, s: Assignment)
    requires Wf(f) && Below(vars, f.varCount) && Satisfies(s, f.clauses)
    ensures var t := Extend(s, f.varCount, AllTrue(Values(s, vars)));
            Satisfies(t, AndVarF(f, vars).0.clauses) && Values(t, vars) == Values(s, vars)
  {
    var r := AndVarF(f, vars).1;
    var t := Extend(s, f.varCount, AllTrue(Values(s, vars)));
    ExtendFresh(s, f, AllTrue(Values(s, vars)));
    ValueExtend(s, f.varCount, AllTrue(Values(s, vars)), vars);
    AndGateMeaning(t, vars, r);
    SatAppend(t, f.clauses, AndGate(vars, r));
  }

  /** As written, every model of the `or_var` clauses makes the result true. */
  lemma OrVarModels(f: Cnf, vars: seq<Lit>, s: Assignment)
    requires Satisfies(s, OrVarF(f, vars).0.clauses)
    ensures Value(s, OrVarF(f, vars).1)
  {
    var r := OrVarF(f, vars).1;
    SatAppend(s, f.clauses, OrGate(vars, r));
    OrGateMeaning(s, vars, r);
  }

  lemma OrVarExtends(f: Cnf, vars: seq<Lit>, s: Assignment)
    requires Wf(f) && Satisfies(s, f.clauses)
    ensures Satisfies(Extend(s, f.varCount, true), OrVarF(f, vars).0.clauses)
  {
    var r := OrVarF(f, vars).1;
    var t := Extend(s, f.varCount, true);
    ExtendFresh(s, f, true);
    OrGateMeaning(t, vars, r);
    SatAppend(t, f.clauses, OrGate(vars, r));
  }

  /** Every model of the corrected `or_var` clauses makes the result the disjunction of `vars`. */
  lemma OrVarFixedModels(f: Cnf, vars: seq<Lit>, s: Assignment)
    requires Satisfies(s, OrVarFixedF(f, vars).0.clauses)
    ensures Value(s, OrVarFixedF(f, vars).1) == AnyTrue(Values(s, vars))
  {
    var r := OrVarFixedF(f, vars).1;
    SatAppend(s, f.clauses, OrGateFixed(vars, r));
    OrGateFixedMeaning(s, vars, r);
  }

  lemma OrVarFixedExtends(f: Cnf, vars: seq<Lit>, s: Assignment)
    requires Wf(f) && Below(vars, f.varCount) && Satisfies(s, f.clauses)
    ensures var t := Extend(s, f.varCount, AnyTrue(Values(s, vars)));
            Satisfies(t, OrVarFixedF(f, vars).0.clauses) && Values(t, vars) == Values(s, vars)
  {
    var r := OrVarFixedF(f, vars).1;
    var t := Extend(s, f.varCount, AnyTrue(Values(s, vars)));
    ExtendFresh(s, f, AnyTrue(Values(s, vars)));
    ValueExtend(s, f.varCount, AnyTrue(Values(s, vars)), vars);
    OrGateFixedMeaning(t, vars, r);
    SatAppend(t, f.clauses, OrGateFixed(vars, r));
  }

  lemma XorVarModels(f: Cnf, a: Lit, b: Lit, s: Assignment)
    requires Satisfies(s, XorVarF(f, a, b).0.clauses)
    ensures Value(s, XorVarF(f, a, b).1) == (Value(s, a) != Value(s, b))
  {
    var r := XorVarF(f, a, b).1;
    SatAppend(s, f.clauses, XorGate(a, b, r));
    XorGateMeaning(s, a, b, r);
  }

  lemma XorVarExtends(f: Cnf, a: Lit, b: Lit, s: Assignment)
    requires Wf(f) && a.v < f.varCount && b.v < f.varCount && Satisfies(s, f.clauses)
    ensures var t := Extend(s, f.varCount, Value(s, a) != Value(s, b));
            Satisfies(t, XorVarF(f, a, b).0.clauses) && Value(t, a) == Value(s, a) && Value(t, b) == Value(s, b)
  {
    var r := XorVarF(f, a, b).1;
    var t := Extend(s, f.varCount, Value(s, a) != Value(s, b));
    ExtendFresh(s, f, Value(s, a) != Value(s, b));
    XorGateMeaning(t, a, b, r);
    SatAppend(t, f.clauses, XorGate(a, b, r));
  }

  /** `eq_var(a, b)` gives `r == (a == b)` in every model. */
  lemma EqVarModels(f: Cnf, a: Lit, b: Lit, s: Assignment)
    requires Satisfies(s, EqVarF(f, a, b).0.clauses)
    ensures Value(s, EqVarF(f, a, b).1) == (Value(s, a) == Value(s, b))
  {
    XorVarModels(f, a, b.Neg(), s);
    NegValue(s, b);
  }

  /** Every model of the formula before `eq_var(a, b)` extends, by `r := (a == b)`, to a model after it. */
  lemma EqVarExtends(f: Cnf, a: Lit, b: Lit, s: Assignment)
    requires Wf(f) && a.v < f.varCount && b.v < f.varCount && Satisfies(s, f.clauses)
    ensures var t := Extend(s, f.varCount, Value(s, a) == Value(s, b));
            Satisfies(t, EqVarF(f, a, b).0.clauses) && Value(t, a) == Value(s, a) && Value(t, b) == Value(s, b)
  {
    NegValue(s, b);
    XorVarExtends(f, a, b.Neg(), s);
  }

  // ---------------------------------------------------------------
  // The sequential counter

  /**
   * Entry `c` of the next counter row, as a truth value, given the truth
   * values of the prior row and of the new variable. Without `asBuilt` it
   * is the intended "at least c + 1 so far"; with `asBuilt` entry 0 after
   * the first variable is the `or_var` result, which its clauses force true.
   */
  function CounterBit(prior: seq<bool>, c: nat, v: bool, asBuilt: bool): bool
    requires c <= |prior|
  {
    if c == 0 then
      if |prior| > 0 then asBuilt || prior[0] || v else v
    else if c == |prior| then prior[c - 1] && v
    else (prior[c - 1] && v) || prior[c]
  }

  function CounterRow(prior: seq<bool>, v: bool, k: nat, asBuilt: bool): (row: seq<bool>)
    requires k <= |prior| + 1
    ensures |row| == k
  {
    seq(k, c requires 0 <= c < k => CounterBit(prior, c, v, asBuilt))
  }

  /** The counter's last row, as truth values, after folding in `vals`. */
  function CounterRows(vals: seq<bool>, upTo: nat, asBuilt: bool): (rows: seq<bool>)
    ensures |rows| == Min(upTo, |vals|)
  {
    if vals == [] then []
    else
      var prior := CounterRows(vals[..|vals| - 1], upTo, asBuilt);
      CounterRow(prior, vals[|vals| - 1], Min(upTo, |prior| + 1), asBuilt)
  }

  /** The intended counter: entry `c` is true exactly when more than `c` of the values are true. */
  lemma {:induction false} IntendedCounterCounts(vals: seq<bool>, upTo: nat)
    ensures forall c :: 0 <= c < Min(upTo, |vals|) ==> CounterRows(vals, upTo, false)[c] == (CountTrue(vals) > c)
  {
    if vals != [] {
      var init := vals[..|vals| - 1];
      IntendedCounterCounts(init, upTo);
    }
  }

  /** As built, entry 0 is true as soon as two variables have been counted. */
  lemma BuiltCounterFirstEntry(vals: seq<bool>, upTo: nat)
    requires |vals| >= 2 && upTo >= 1
    ensures CounterRows(vals, upTo, true)[0]
  {
    assert |CounterRows(vals[..|vals| - 1], upTo, true)| > 0;
  }

  /** As built, entry 1 after three variables is `v3 || (v1 && v2)`, not "at least two of three". */
  lemma BuiltCounterSecondEntry(a: bool, b: bool, c: bool)
    ensures CounterRows([a, b, c], 2, true)[1] == (c || (a && b))
  {
    assert [a, b, c][..2] == [a, b];
    assert [a, b][..1] == [a];
    assert [a][..0] == [];
    assert CounterRows([a], 2, true) == [a];
    assert CounterRows([a, b], 2, true) == [true, a && b];
  }

  lemma CountVarModels(f: Cnf, prior: seq<Lit>, c: nat, v: Lit, asBuilt: bool, s: Assignment)
    requires c <= |prior|
    requires Satisfies(s, CountVarF(f, prior, c, v, asBuilt).0.clauses)
    ensures Value(s, CountVarF(f, prior, c, v, asBuilt).1) == CounterBit(Values(s, prior), c, Value(s, v), asBuilt)
  {
    if c == 0 {
      if |prior| > 0 {
        if asBuilt {
          OrVarModels(f, [prior[0], v], s);
        } else {
          OrVarFixedModels(f, [prior[0], v], s);
          AnyTrueTwo(s, prior[0], v);
        }
      }
    } else if c == |prior| {
      AndVarModels(f, [prior[c - 1], v], s);
      AllTrueTwo(s, prior[c - 1], v);
    } else {
      var (g, r) := NewVar(f);
      SatAppend(s, f.clauses, CountGate(prior[c - 1], prior[c], v, r));
      CountGateMeaning(s, prior[c - 1], prior[c], v, r);
    }
  }

  lemma AnyTrueTwo(s: Assignment, a: Lit, b: Lit)
    ensures AnyTrue(Values(s, [a, b])) <==> Value(s, a) || Value(s, b)
  {
    var vs := Values(s, [a, b]);
    assert vs[0] == Value(s, a) && vs[1] == Value(s, b);
  }

  /**
   * Every model of the formula before `count_var` extends to a model after
   * it that agrees on every earlier variable; the formula stays well formed
   * and the result is a counted variable.
   */
  lemma CountVarExtends(f: Cnf, prior: seq<Lit>, c: nat, v: Lit, asBuilt: bool, s: Assignment)
    requires c <= |prior|
    requires Wf(f) && Below(prior, f.varCount) && v.v < f.varCount && Satisfies(s, f.clauses)
    ensures var res := CountVarF(f, prior, c, v, asBuilt);
            Wf(res.0) && res.1.v < res.0.varCount
            && exists t :: Agrees(t, s, f.varCount) && Satisfies(t, res.0.clauses)
  {
    var res := CountVarF(f, prior, c, v, asBuilt);
    var bit := CounterBit(Values(s, prior), c, Value(s, v), asBuilt);
    if c == 0 && |prior| == 0 {
      assert Agrees(s, s, f.varCount);
    } else {
      var t := Extend(s, f.varCount, bit);
      NewVarWf(f);
      ExtendFresh(s, f, bit);
      var (g, r) := NewVar(f);
      if c == 0 {
        var vars := [prior[0], v];
        if asBuilt {
          OrVarExtends(f, vars, s);
          AddClausesWf(g, OrGate(vars, r));
        } else {
          AnyTrueTwo(s, prior[0], v);
          OrVarFixedExtends(f, vars, s);
          AddClausesWf(g, OrGateFixed(vars, r));
        }
      } else if c == |prior| {
        AllTrueTwo(s, prior[c - 1], v);
        AndVarExtends(f, [prior[c - 1], v], s);
        AddClausesWf(g, AndGate([prior[c - 1], v], r));
      } else {
        var gate := CountGate(prior[c - 1], prior[c], v, r);
        CountGateMeaning(t, prior[c - 1], prior[c], v, r);
        SatAppend(t, f.clauses, gate);
        AddClausesWf(g, gate);
      }
      assert Agrees(t, s, f.varCount) && Satisfies(t, res.0.clauses);
    }
  }

  lemma NewVarWf(f: Cnf)
    requires Wf(f)
    ensures Wf(NewVar(f).0)
  {
  }

  lemma {:induction false} RowModels(f: Cnf, prior: seq<Lit>, v: Lit, k: nat, asBuilt: bool, s: Assignment)
    requires k <= |prior| + 1
    requires Satisfies(s, RowF(f, prior, v, k, asBuilt).0.clauses)
    ensures Values(s, RowF(f, prior, v, k, asBuilt).1) == CounterRow(Values(s, prior), Value(s, v), k, asBuilt)
  {
    if k > 0 {
      var c: nat := k - 1;
      var gr := RowF(f, prior, v, c, asBuilt);
      var hr := CountVarF(gr.0, prior, c, v, asBuilt);
      assert RowF(f, prior, v, k, asBuilt) == (hr.0, gr.1 + [hr.1]);
      SatPrefixOf(s, gr.0.clauses, hr.0.clauses);
      RowModels(f, prior, v, c, asBuilt, s);
      CountVarModels(gr.0, prior, c, v, asBuilt, s);
      RowSnoc(s, gr.1, hr.1, Values(s, prior), Value(s, v), k, asBuilt);
    }
  }

  lemma RowSnoc(s: Assignment, row: seq<Lit>, r: Lit, prior: seq<bool>, v: bool, k: nat, asBuilt: bool)
    requires 0 < k <= |prior| + 1
    requires Values(s, row) == CounterRow(prior, v, k - 1, asBuilt)
    requires Value(s, r) == CounterBit(prior, k - 1, v, asBuilt)
    ensures Values(s, row + [r]) == CounterRow(prior, v, k, asBuilt)
  {
    assert Values(s, row + [r]) == Values(s, row) + [Value(s, r)];
  }

  /** Every model of the formula before a counter row extends to one after it; the row's entries are counted variables. */
  lemma {:induction false} RowExtends(f: Cnf, prior: seq<Lit>, v: Lit, k: nat, asBuilt: bool, s: Assignment)
    requires k <= |prior| + 1
    requires Wf(f) && Below(prior, f.varCount) && v.v < f.varCount && Satisfies(s, f.clauses)
    ensures var res := RowF(f, prior, v, k, asBuilt);
            Wf(res.0) && Below(res.1, res.0.varCount)
            && exists t :: Agrees(t, s, f.varCount) && Satisfies(t, res.0.clauses)
  {
    if k == 0 {
      assert Agrees(s, s, f.varCount);
    } else {
      var c: nat := k - 1;
      var gr := RowF(f, prior, v, c, asBuilt);
      RowExtends(f, prior, v, c, asBuilt, s);
      EntryExtends(f, gr.0, gr.1, prior, c, v, asBuilt, s);
      RowLift(f, prior, v, k, asBuilt, s);
    }
  }

  /** What `EntryExtends` gives about the last entry holds of the row of length `k`. */
  lemma RowLift(f: Cnf, prior: seq<Lit>, v: Lit, k: nat, asBuilt: bool, s: Assignment)
    requires 0 < k <= |prior| + 1
    requires var gr := RowF(f, prior, v, k - 1, asBuilt);
             var hr := CountVarF(gr.0, prior, k - 1, v, asBuilt);
             Wf(hr.0) && Below(gr.1 + [hr.1], hr.0.varCount)
             && exists t :: Agrees(t, s, f.varCount) && Satisfies(t, hr.0.clauses)
    ensures var res := RowF(f, prior, v, k, asBuilt);
            Wf(res.0) && Below(res.1, res.0.varCount)
            && exists t :: Agrees(t, s, f.varCount) && Satisfies(t, res.0.clauses)
  {
  }

  /** Appending one `count_var` entry to a partial row keeps it well formed and extendable from `s`. */
  lemma EntryExtends(f: Cnf, g: Cnf, row: seq<Lit>, prior: seq<Lit>, c: nat, v: Lit, asBuilt: bool, s: Assignment)
    requires c <= |prior|
    requires Wf(g) && Below(row, g.varCount) && f.varCount <= g.varCount
    requires Below(prior, f.varCount) && v.v < f.varCount
    requires exists t :: Agrees(t, s, f.varCount) && Satisfies(t, g.clauses)
    ensures Wf(CountVarF(g, prior, c, v, asBuilt).0)
    ensures Below(row + [CountVarF(g, prior, c, v, asBuilt).1], CountVarF(g, prior, c, v, asBuilt).0.varCount)
    ensures exists t :: Agrees(t, s, f.varCount) && Satisfies(t, CountVarF(g, prior, c, v, asBuilt).0.clauses)
  {
    var hr := CountVarF(g, prior, c, v, asBuilt);
    var t0 :| Agrees(t0, s, f.varCount) && Satisfies(t0, g.clauses);
    BelowMono(prior, f.varCount, g.varCount);
    CountVarExtends(g, prior, c, v, asBuilt, t0);
    var t :| Agrees(t, t0, g.varCount) && Satisfies(t, hr.0.clauses);
    AgreesTrans(t, t0, s, f.varCount, g.varCount);
    BelowSnoc(row, hr.1, g.varCount, hr.0.varCount);
  }

  lemma BelowMono(ls: seq<Lit>, n: nat, m: nat)
    requires Below(ls, n) && n <= m
    ensures Below(ls, m)
  {
  }

  lemma BelowSnoc(ls: seq<Lit>, l: Lit, n: nat, m: nat)
    requires Below(ls, n) && n <= m && l.v < m
    ensures Below(ls + [l], m)
  {
  }

  /** An extension of an extension of `s` is an extension of `s`. */
  lemma ExtendsTrans(s: Assignment, t0: Assignment, n: nat, m: nat, cls: seq<Clause>)
    requires Agrees(t0, s, n) && n <= m
    requires exists t :: Agrees(t, t0, m) && Satisfies(t, cls)
    ensures exists t :: Agrees(t, s, n) && Satisfies(t, cls)
  {
    var t :| Agrees(t, t0, m) && Satisfies(t, cls);
    AgreesTrans(t, t0, s, n, m);
  }

  lemma AgreesTrans(t: Assignment, u: Assignment, s: Assignment, n: nat, m: nat)
    requires Agrees(t, u, m) && Agrees(u, s, n) && n <= m
    ensures Agrees(t, s, n)
  {
  }

  /** Every model of the counter clauses gives the row the counter computes. */
  lemma {:induction false} CountRowsModels(f: Cnf, upTo: nat, vars: seq<Lit>, asBuilt: bool, s: Assignment)
    requires Satisfies(s, CountRowsF(f, upTo, vars, asBuilt).0.clauses)
    ensures Values(s, CountRowsF(f, upTo, vars, asBuilt).1) == CounterRows(Values(s, vars), upTo, asBuilt)
  {
    if vars != [] {
      var init := vars[..|vars| - 1];
      var gp := CountRowsF(f, upTo, init, asBuilt);
      var k := Min(upTo, |gp.1| + 1);
      var res := RowF(gp.0, gp.1, vars[|vars| - 1], k, asBuilt);
      assert CountRowsF(f, upTo, vars, asBuilt) == res;
      SatPrefixOf(s, gp.0.clauses, res.0.clauses);
      CountRowsModels(f, upTo, init, asBuilt, s);
      RowModels(gp.0, gp.1, vars[|vars| - 1], k, asBuilt, s);
      CounterRowsSnoc(s, vars, upTo, asBuilt);
    }
  }

  /** The counter over the values of `vars`, one variable at a time. */
  lemma CounterRowsSnoc(s: Assignment, vars: seq<Lit>, upTo: nat, asBuilt: bool)
    requires vars != []
    ensures var prior := CounterRows(Values(s, vars[..|vars| - 1]), upTo, asBuilt);
            CounterRows(Values(s, vars), upTo, asBuilt)
            == CounterRow(prior, Value(s, vars[|vars| - 1]), Min(upTo, |prior| + 1), asBuilt)
  {
    assert Values(s, vars)[..|vars| - 1] == Values(s, vars[..|vars| - 1]);
  }

  /** Every model of the formula before the counter extends to one after it; the last row holds counted variables. */
  lemma {:induction false} CountRowsExtends(f: Cnf, upTo: nat, vars: seq<Lit>, asBuilt: bool, s: Assignment)
    requires Wf(f) && Below(vars, f.varCount) && Satisfies(s, f.clauses)
    ensures var res := CountRowsF(f, upTo, vars, asBuilt);
            Wf(res.0) && Below(res.1, res.0.varCount)
            && exists t :: Agrees(t, s, f.varCount) && Satisfies(t, res.0.clauses)
  {
    if vars == [] {
      assert Agrees(s, s, f.varCount);
    } else {
      var init := vars[..|vars| - 1];
      var last := vars[|vars| - 1];
      var gp := CountRowsF(f, upTo, init, asBuilt);
      var k := Min(upTo, |gp.1| + 1);
      var res := RowF(gp.0, gp.1, last, k, asBuilt);
      assert CountRowsF(f, upTo, vars, asBuilt) == res;
      CountRowsExtends(f, upTo, init, asBuilt, s);
      var t0 :| Agrees(t0, s, f.varCount) && Satisfies(t0, gp.0.clauses);
      RowExtends(gp.0, gp.1, last, k, asBuilt, t0);
      ExtendsTrans(s, t0, f.varCount, gp.0.varCount, res.0.clauses);
    }
  }

  /** What `exact_count_clause(count, ...)` demands of the variables' values; with `asBuilt`, through the built counter. */
  predicate ExactCountDemands(vals: seq<bool>, count: nat, asBuilt: bool) {
    if count == 0 then forall i :: 0 <= i < |vals| ==> !vals[i]
    else if count == |vals| then AllTrue(vals)
    else count < |vals| && CounterRows(vals, count + 1, asBuilt)[count - 1]
                        && !CounterRows(vals, count + 1, asBuilt)[count]
  }

  /** Every model of the clauses of `exact_count_clause` meets what its counter demands. */
  lemma ExactCountModels(f: Cnf, count: nat, vars: seq<Lit>, asBuilt: bool, s: Assignment)
    requires ExactCountF(f, count, vars, asBuilt).Some?
    requires Satisfies(s, ExactCountF(f, count, vars, asBuilt).value.clauses)
    ensures ExactCountDemands(Values(s, vars), count, asBuilt)
  {
    if count == 0 {
      SatAppend(s, f.clauses, NorClauses(vars));
      NorClausesMeaning(s, vars);
    } else if count == |vars| {
      SatAppend(s, f.clauses, UnitClauses(vars));
      UnitClausesMeaning(s, vars);
    } else {
      var (g, row) := CountUpToF(f, count + 1, vars, asBuilt);
      var units := UnitClauses([row[count - 1], row[count].Neg()]);
      SatAppend(s, g.clauses, units);
      UnitClausesMeaning(s, [row[count - 1], row[count].Neg()]);
      AllTrueTwo(s, row[count - 1], row[count].Neg());
      NegValue(s, row[count]);
      CountRowsModels(f, count + 1, vars, asBuilt, s);
    }
  }

  /**
   * `exact_count_clause` demands exactly what its counter says: a model of
   * the formula before it extends to a model after it, agreeing on every
   * earlier variable, exactly when the variables' values meet the demand.
   */
  lemma ExactCountExact(f: Cnf, count: nat, vars: seq<Lit>, asBuilt: bool, s: Assignment)
    requires ExactCountF(f, count, vars, asBuilt).Some?
    requires Wf(f) && Below(vars, f.varCount) && Satisfies(s, f.clauses)
    ensures Wf(ExactCountF(f, count, vars, asBuilt).value)
    ensures ExactCountDemands(Values(s, vars), count, asBuilt)
            <==> exists t :: Agrees(t, s, f.varCount) && Satisfies(t, ExactCountF(f, count, vars, asBuilt).value.clauses)
  {
    forall t | Agrees(t, s, f.varCount) && Satisfies(t, ExactCountF(f, count, vars, asBuilt).value.clauses)
      ensures ExactCountDemands(Values(s, vars), count, asBuilt)
    {
      ExactCountModels(f, count, vars, asBuilt, t);
      ValuesAgree(t, s, f.varCount, vars);
    }
    ExactCountExtends(f, count, vars, asBuilt, s);
  }

  /** A model of the formula before `exact_count_clause` whose inputs meet its demand extends to a model after it. */
  lemma ExactCountExtends(f: Cnf, count: nat, vars: seq<Lit>, asBuilt: bool, s: Assignment)
    requires ExactCountF(f, count, vars, asBuilt).Some?
    requires Wf(f) && Below(vars, f.varCount) && Satisfies(s, f.clauses)
    ensures Wf(ExactCountF(f, count, vars, asBuilt).value)
    ensures ExactCountDemands(Values(s, vars), count, asBuilt)
            ==> exists t :: Agrees(t, s, f.varCount) && Satisfies(t, ExactCountF(f, count, vars, asBuilt).value.clauses)
  {
    var res := ExactCountF(f, count, vars, asBuilt).value;
    if count == 0 {
      AddClausesWf(f, NorClauses(vars));
      NorClausesMeaning(s, vars);
      SatAppend(s, f.clauses, NorClauses(vars));
      assert ExactCountDemands(Values(s, vars), count, asBuilt) ==> Agrees(s, s, f.varCount) && Satisfies(s, res.clauses);
    } else if count == |vars| {
      AddClausesWf(f, UnitClauses(vars));
      UnitClausesMeaning(s, vars);
      SatAppend(s, f.clauses, UnitClauses(vars));
      assert ExactCountDemands(Values(s, vars), count, asBuilt) ==> Agrees(s, s, f.varCount) && Satisfies(s, res.clauses);
    } else {
      ExactCountMiddleExtends(f, count, vars, asBuilt, s);
    }
  }

  lemma ExactCountMiddleExtends(f: Cnf, count: nat, vars: seq<Lit>, asBuilt: bool, s: Assignment)
    requires 0 < count < |vars|
    requires Wf(f) && Below(vars, f.varCount) && Satisfies(s, f.clauses)
    ensures Wf(ExactCountF(f, count, vars, asBuilt).value)
    ensures ExactCountDemands(Values(s, vars), count, asBuilt)
            ==> exists t :: Agrees(t, s, f.varCount) && Satisfies(t, ExactCountF(f, count, vars, asBuilt).value.clauses)
  {
    var (g, row) := CountRowsF(f, count + 1, vars, asBuilt);
    var pair := [row[count - 1], row[count].Neg()];
    assert ExactCountF(f, count, vars, asBuilt) == Some(AddClauses(g, UnitClauses(pair)));
    CountRowsExtends(f, count + 1, vars, asBuilt, s);
    AddClausesWf(g, UnitClauses(pair));
    if ExactCountDemands(Values(s, vars), count, asBuilt) {
      var t0 :| Agrees(t0, s, f.varCount) && Satisfies(t0, g.clauses);
      CountRowsModels(f, count + 1, vars, asBuilt, t0);
      ValuesAgree(t0, s, f.varCount, vars);
      UnitClausesMeaning(t0, pair);
      AllTrueTwo(t0, row[count - 1], row[count].Neg());
      NegValue(t0, row[count]);
      SatAppend(t0, g.clauses, UnitClauses(pair));
      assert Satisfies(t0, AddClauses(g, UnitClauses(pair)).clauses);
    }
  }

  /** With the intended counter, `exact_count_clause(count, ...)` demands exactly `count` true values. */
  lemma IntendedExactCount(vals: seq<bool>, count: nat)
    requires count <= |vals|
    ensures ExactCountDemands(vals, count, false) <==> CountTrue(vals) == count
  {
    if count == 0 {
      AllFalseCount(vals);
    } else if count == |vals| {
      AllTrueCount(vals);
    } else {
      IntendedMiddleCount(vals, count);
    }
  }

  lemma IntendedMiddleCount(vals: seq<bool>, count: nat)
    requires 0 < count < |vals|
    ensures (CounterRows(vals, count + 1, false)[count - 1] && !CounterRows(vals, count + 1, false)[count])
            <==> CountTrue(vals) == count
  {
    IntendedCounterCounts(vals, count + 1);
  }

  lemma {:induction false} AllFalseCount(vals: seq<bool>)
    ensures (forall i :: 0 <= i < |vals| ==> !vals[i]) <==> CountTrue(vals) == 0
  {
    if vals != [] {
      var init := vals[..|vals| - 1];
      AllFalseCount(init);
      assert forall i :: 0 <= i < |init| ==> init[i] == vals[i];
    }
  }

  lemma {:induction false} AllTrueCount(vals: seq<bool>)
    ensures AllTrue(vals) <==> CountTrue(vals) == |vals|
  {
    if vals != [] {
      var init := vals[..|vals| - 1];
      AllTrueCount(init);
      assert forall i :: 0 <= i < |init| ==> init[i] == vals[i];
    }
  }

  /** Every model of the corrected `exact_count_clause(count, vars)` makes exactly `count` of `vars` true. */
  lemma FixedExactCountModels(f: Cnf, count: nat, vars: seq<Lit>, s: Assignment)
    requires ExactCountF(f, count, vars, false).Some?
    requires Satisfies(s, ExactCountF(f, count, vars, false).value.clauses)
    ensures CountTrue(Values(s, vars)) == count
  {
    ExactCountModels(f, count, vars, false, s);
    IntendedExactCount(Values(s, vars), count);
  }

  /**
   * The corrected `exact_count_clause(count, vars)` means "exactly `count`
   * of `vars`": a model of the formula before it extends to a model after it
   * exactly when that many of the variables are true.
   */
  lemma FixedExactCountMeaning(f: Cnf, count: nat, vars: seq<Lit>, s: Assignment)
    requires ExactCountF(f, count, vars, false).Some?
    requires Wf(f) && Below(vars, f.varCount) && Satisfies(s, f.clauses)
    ensures CountTrue(Values(s, vars)) == count
            <==> exists t :: Agrees(t, s, f.varCount) && Satisfies(t, ExactCountF(f, count, vars, false).value.clauses)
  {
    ExactCountExact(f, count, vars, false, s);
    IntendedExactCount(Values(s, vars), count);
  }

  /** As built, "exactly one of two" also admits neither. */
  lemma BuiltExactOneOfTwoAdmitsNone()
    ensures ExactCountDemands([false, false], 1, true)
    ensures CountTrue([false, false]) == 0
  {
    assert [false, false][..1] == [false];
    assert [false][..0] == [];
    assert CounterRows([false], 2, true) == [false];
    assert CounterRows([false, false], 2, true) == [true, false];
  }

  // ---------------------------------------------------------------
  // Reading a model

  lemma GetNeg(sol: SatSolution, l: Lit)
    ensures Get(sol, l.Neg()) == !Get(sol, l)
  {
  }

  /** `get` reads a literal as the solution's assignment values it. */
  lemma GetIsValue(sol: SatSolution, l: Lit)
    ensures Get(sol, l) == Value(AsAssignment(sol), l)
  {
  }

  /** A variable the model does not list as positive reads false. */
  lemma GetAbsent(model: seq<Lit>, v: nat)
    requires Lit(v, true) !in model
    ensures !Get(NewSolution(model), Lit(v, true)) && Get(NewSolution(model), Lit(v, false))
  {
  }

  /** For a model that never lists both polarities of a variable, `get` is true of every listed literal. */
  lemma GetListed(model: seq<Lit>, l: Lit)
    requires l in model
    requires forall x :: x in model ==> x.Neg() !in model
    ensures Get(NewSolution(model), l)
  {
  }
}
