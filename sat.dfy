/**
 * The incremental CNF builder of src/sat.rs: clause helpers, Tseytin gate
 * encoders and the sequential-counter cardinality circuit.
 *
 * Each operation is given twice: as a pure transformer of the formula value
 * (`AndVarF`, `CountRowsF`, `ExactCountF`, ...), about which the lemmas in
 * module SatFacts are stated, and as a method of class `SatProblem` that
 * updates its `cnf` field exactly as that transformer says.
 */
module Sat {
  import opened Wrappers
  import opened Cnf

  function Min(a: nat, b: nat): nat { if a < b then a else b }

  // ---------------------------------------------------------------
  // The clauses each helper appends

  /** `and_clause`: one unit clause per literal. */
  function UnitClauses(vs: seq<Lit>): (cls: seq<Clause>)
    ensures |cls| == |vs|
  {
    seq(|vs|, i requires 0 <= i < |vs| => [vs[i]])
  }

  /** `nor_clause`: one unit clause `!v` per literal. */
  function NorClauses(vs: seq<Lit>): seq<Clause> { UnitClauses(NegAll(vs)) }

  /** `nand_clause`: the single clause of all negations. */
  function NandLits(vs: seq<Lit>): Clause { NegAll(vs) }

  /** `not_clause`. */
  function NotLits(a: Lit): Clause { [a.Neg()] }

  /** `implies_clause(a, b)`: `!a | b`. */
  function ImpliesLits(a: Lit, b: Lit): Clause { [a.Neg(), b] }

  /** `and_implies_clause(as, b)`: `!a1 | ... | !an | b`. */
  function AndImpliesLits(a: seq<Lit>, b: Lit): Clause { NegAll(a) + [b] }

  /** `implies_or_clause(a, bs)` as written: `a | b1 | ... | bn` (the `a` is not negated). */
  function ImpliesOrLits(a: Lit, b: seq<Lit>): Clause { [a] + b }

  /** The clauses `and_var(vars)` adds for result `r`: `r => v` for each `v`, then `and(vars) => r`. */
  function AndGate(vars: seq<Lit>, r: Lit): seq<Clause> {
    seq(|vars|, i requires 0 <= i < |vars| => ImpliesLits(r, vars[i])) + [AndImpliesLits(vars, r)]
  }

  /** The clauses `or_var(vars)` adds for result `r`: `v => r` for each `v`, then `implies_or_clause(r, vars)`. */
  function OrGate(vars: seq<Lit>, r: Lit): seq<Clause> {
    seq(|vars|, i requires 0 <= i < |vars| => ImpliesLits(vars[i], r)) + [ImpliesOrLits(r, vars)]
  }

  /** The `or_var` clauses with `implies_or_clause` negating its first literal, as the comment "result => or(vars)" says. */
  function OrGateFixed(vars: seq<Lit>, r: Lit): seq<Clause> {
    seq(|vars|, i requires 0 <= i < |vars| => ImpliesLits(vars[i], r)) + [[r.Neg()] + vars]
  }

  /** The four clauses of `xor_var(a, b)` for result `r`. */
  function XorGate(a: Lit, b: Lit, r: Lit): seq<Clause> {
    [[a.Neg(), b.Neg(), r.Neg()], [a, b, r.Neg()], [a, b.Neg(), r], [a.Neg(), b, r]]
  }

  /** The four clauses of the middle case of `count_var`: `m` is the prior entry `c - 1`, `p` the prior entry `c`. */
  function CountGate(m: Lit, p: Lit, v: Lit, r: Lit): seq<Clause> {
    [[r.Neg(), m, p], [r.Neg(), p, v], [m.Neg(), v.Neg(), r], [p.Neg(), r]]
  }

  // ---------------------------------------------------------------
  // The operations, as transformers of the formula

  function AndVarF(f: Cnf, vars: seq<Lit>): (res: (Cnf, Lit))
    ensures res.1 == NewVar(f).1
    ensures res.0 == AddClauses(NewVar(f).0, AndGate(vars, res.1))
  {
    var (g, r) := NewVar(f);
    (AddClauses(g, AndGate(vars, r)), r)
  }

  function OrVarF(f: Cnf, vars: seq<Lit>): (res: (Cnf, Lit))
    ensures res.1 == NewVar(f).1
    ensures res.0 == AddClauses(NewVar(f).0, OrGate(vars, res.1))
  {
    var (g, r) := NewVar(f);
    (AddClauses(g, OrGate(vars, r)), r)
  }

  /** `or_var` over the corrected clauses. */
  function OrVarFixedF(f: Cnf, vars: seq<Lit>): (res: (Cnf, Lit))
    ensures res.1 == NewVar(f).1
    ensures res.0 == AddClauses(NewVar(f).0, OrGateFixed(vars, res.1))
  {
    var (g, r) := NewVar(f);
    (AddClauses(g, OrGateFixed(vars, r)), r)
  }

  function XorVarF(f: Cnf, a: Lit, b: Lit): (res: (Cnf, Lit))
    ensures res.1 == NewVar(f).1
    ensures res.0 == AddClauses(NewVar(f).0, XorGate(a, b, res.1))
  {
    var (g, r) := NewVar(f);
    (AddClauses(g, XorGate(a, b, r)), r)
  }

  /** `eq_var(a, b)` is `xor_var(a, !b)`. */
  function EqVarF(f: Cnf, a: Lit, b: Lit): (Cnf, Lit) {
    XorVarF(f, a, b.Neg())
  }

  /**
   * `count_var(all_prior, c, var)`: entry `c` of the next counter row. With
   * `asBuilt` entry 0 uses `or_var` as written, otherwise the corrected one;
   * the source's encoder is the `asBuilt` one throughout.
   */
  function CountVarF(f: Cnf, prior: seq<Lit>, c: nat, v: Lit, asBuilt: bool): (res: (Cnf, Lit))
    requires c <= |prior|
    ensures f.clauses <= res.0.clauses && res.0.varCount >= f.varCount
  {
    if c == 0 then
      if |prior| == 0 then (f, v)
      else if asBuilt then OrVarF(f, [prior[0], v])
      else OrVarFixedF(f, [prior[0], v])
    else if c == |prior| then
      AndVarF(f, [prior[c - 1], v])
    else
      var (g, r) := NewVar(f);
      (AddClauses(g, CountGate(prior[c - 1], prior[c], v, r)), r)
  }

  /** The first `k` entries of the next counter row, allocated in order `0, 1, ..., k - 1`. */
  function RowF(f: Cnf, prior: seq<Lit>, v: Lit, k: nat, asBuilt: bool): (res: (Cnf, seq<Lit>))
    requires k <= |prior| + 1
    ensures |res.1| == k
    ensures f.clauses <= res.0.clauses && res.0.varCount >= f.varCount
  {
    if k == 0 then (f, [])
    else
      var gr := RowF(f, prior, v, k - 1, asBuilt);
      var hr := CountVarF(gr.0, prior, k - 1, v, asBuilt);
      (hr.0, gr.1 + [hr.1])
  }

  /** The counter rows after folding in every variable of `vars`, each row cut at `upTo` entries. */
  function CountRowsF(f: Cnf, upTo: nat, vars: seq<Lit>, asBuilt: bool): (res: (Cnf, seq<Lit>))
    ensures |res.1| == Min(upTo, |vars|)
    ensures f.clauses <= res.0.clauses && res.0.varCount >= f.varCount
  {
    if vars == [] then (f, [])
    else
      var (g, prior) := CountRowsF(f, upTo, vars[..|vars| - 1], asBuilt);
      RowF(g, prior, vars[|vars| - 1], Min(upTo, |prior| + 1), asBuilt)
  }

  lemma CountRowsSnoc(f: Cnf, upTo: nat, vars: seq<Lit>, i: nat, asBuilt: bool)
    requires i < |vars|
    ensures CountRowsF(f, upTo, vars[..i + 1], asBuilt)
         == RowF(CountRowsF(f, upTo, vars[..i], asBuilt).0, CountRowsF(f, upTo, vars[..i], asBuilt).1, vars[i],
                 Min(upTo, |CountRowsF(f, upTo, vars[..i], asBuilt).1| + 1), asBuilt)
  {
    assert vars[..i + 1][..i] == vars[..i];
  }

  /** `count_up_to_vars(up_to, vars)`. */
  function CountUpToF(f: Cnf, upTo: nat, vars: seq<Lit>, asBuilt: bool): (res: (Cnf, seq<Lit>))
    ensures |res.1| == Min(upTo, |vars|)
    ensures f.clauses <= res.0.clauses && res.0.varCount >= f.varCount
  {
    if upTo == 0 then (f, []) else CountRowsF(f, upTo, vars, asBuilt)
  }

  /** `exact_count_clause(count, vars)`; `None` where the source panics. */
  function ExactCountF(f: Cnf, count: nat, vars: seq<Lit>, asBuilt: bool): (res: Option<Cnf>)
    ensures res.None? <==> count > |vars|
    ensures res.Some? ==> f.clauses <= res.value.clauses && res.value.varCount >= f.varCount
  {
    if count == 0 then Some(AddClauses(f, NorClauses(vars)))
    else if count == |vars| then Some(AddClauses(f, UnitClauses(vars)))
    else if count > |vars| then None
    else
      var (g, row) := CountUpToF(f, count + 1, vars, asBuilt);
      Some(AddClauses(g, UnitClauses([row[count - 1], row[count].Neg()])))
  }

  // ---------------------------------------------------------------
  // The builder object

  /** `SatProblem`: owns the growing formula. */
  class SatProblem {
    var cnf: Cnf

    constructor ()
      ensures cnf == Cnf(0, [])
    {
      cnf := Cnf(0, []);
    }

    /** `var()`: a fresh variable as a positive literal; no clause changes. */
    method Var() returns (l: Lit)
      modifies this
      ensures (cnf, l) == NewVar(old(cnf))
    {
      l := Lit(cnf.varCount, true);
      cnf := Cnf(cnf.varCount + 1, cnf.clauses);
    }

    method OrClause(vars: seq<Lit>)
      modifies this
      ensures cnf == AddClause(old(cnf), vars)
    {
      cnf := AddClause(cnf, vars);
    }

    method AndClause(vars: seq<Lit>)
      modifies this
      ensures cnf == AddClauses(old(cnf), UnitClauses(vars))
    {
      var i := 0;
      while i < |vars|
        invariant 0 <= i <= |vars|
        invariant cnf == AddClauses(old(cnf), UnitClauses(vars[..i]))
      {
        AddClausesAppend(old(cnf), UnitClauses(vars[..i]), [[vars[i]]]);
        assert UnitClauses(vars[..i]) + [[vars[i]]] == UnitClauses(vars[..i + 1]);
        OrClause([vars[i]]);
        i := i + 1;
      }
      assert vars[..i] == vars;
    }

    method NorClause(vars: seq<Lit>)
      modifies this
      ensures cnf == AddClauses(old(cnf), NorClauses(vars))
    {
      AndClause(NegAll(vars));
    }

    method NandClause(vars: seq<Lit>)
      modifies this
      ensures cnf == AddClause(old(cnf), NandLits(vars))
    {
      OrClause(NegAll(vars));
    }

    method NotClause(a: Lit)
      modifies this
      ensures cnf == AddClause(old(cnf), NotLits(a))
    {
      OrClause([a.Neg()]);
    }

    method ImpliesClause(a: Lit, b: Lit)
      modifies this
      ensures cnf == AddClause(old(cnf), ImpliesLits(a, b))
    {
      OrClause([a.Neg(), b]);
    }

    method AndImpliesClause(a: seq<Lit>, b: Lit)
      modifies this
      ensures cnf == AddClause(old(cnf), AndImpliesLits(a, b))
    {
      OrClause(NegAll(a) + [b]);
    }

    method ImpliesOrClause(a: Lit, b: seq<Lit>)
      modifies this
      ensures cnf == AddClause(old(cnf), ImpliesOrLits(a, b))
    {
      OrClause([a] + b);
    }

    /** `exact_count_clause`; `ok` is false where the source panics, and then nothing was added. */
    method ExactCountClause(count: nat, vars: seq<Lit>) returns (ok: bool)
      modifies this
      ensures ok == ExactCountF(old(cnf), count, vars, true).Some?
      ensures ok ==> cnf == ExactCountF(old(cnf), count, vars, true).value
      ensures !ok ==> cnf == old(cnf)
    {
      if count == 0 {
        NorClause(vars);
      } else if count == |vars| {
        AndClause(vars);
      } else if count > |vars| {
        return false;
      } else {
        var countGreaterThan := CountUpToVars(count + 1, vars);
        AndClause([countGreaterThan[count - 1], countGreaterThan[count].Neg()]);
      }
      ok := true;
    }

    /** `and_var` (Tseytin AND). */
    method AndVar(vars: seq<Lit>) returns (result: Lit)
      modifies this
      ensures (cnf, result) == AndVarF(old(cnf), vars)
    {
      result := Var();
      ghost var g := cnf;
      var i := 0;
      while i < |vars|
        invariant 0 <= i <= |vars|
        invariant cnf == AddClauses(g, seq(i, j requires 0 <= j < i => ImpliesLits(result, vars[j])))
      {
        ghost var done := seq(i, j requires 0 <= j < i => ImpliesLits(result, vars[j]));
        AddClausesAppend(g, done, [ImpliesLits(result, vars[i])]);
        assert done + [ImpliesLits(result, vars[i])]
            == seq(i + 1, j requires 0 <= j < i + 1 => ImpliesLits(result, vars[j]));
        ImpliesClause(result, vars[i]);
        i := i + 1;
      }
      ghost var imps := seq(|vars|, j requires 0 <= j < |vars| => ImpliesLits(result, vars[j]));
      AddClausesAppend(g, imps, [AndImpliesLits(vars, result)]);
      AndImpliesClause(vars, result);
    }

    /** `or_var` as written. */
    method OrVar(vars: seq<Lit>) returns (result: Lit)
      modifies this
      ensures (cnf, result) == OrVarF(old(cnf), vars)
    {
      result := Var();
      ghost var g := cnf;
      var i := 0;
      while i < |vars|
        invariant 0 <= i <= |vars|
        invariant cnf == AddClauses(g, seq(i, j requires 0 <= j < i => ImpliesLits(vars[j], result)))
      {
        ghost var done := seq(i, j requires 0 <= j < i => ImpliesLits(vars[j], result));
        AddClausesAppend(g, done, [ImpliesLits(vars[i], result)]);
        assert done + [ImpliesLits(vars[i], result)]
            == seq(i + 1, j requires 0 <= j < i + 1 => ImpliesLits(vars[j], result));
        ImpliesClause(vars[i], result);
        i := i + 1;
      }
      ghost var imps := seq(|vars|, j requires 0 <= j < |vars| => ImpliesLits(vars[j], result));
      AddClausesAppend(g, imps, [ImpliesOrLits(result, vars)]);
      ImpliesOrClause(result, vars);
    }

    method XorVar(a: Lit, b: Lit) returns (result: Lit)
      modifies this
      ensures (cnf, result) == XorVarF(old(cnf), a, b)
    {
      result := Var();
      ghost var g := cnf;
      ghost var gate := XorGate(a, b, result);
      OrClause([a.Neg(), b.Neg(), result.Neg()]);
      assert gate[..1] == [gate[0]];
      assert cnf == AddClauses(g, gate[..1]);
      OrClause([a, b, result.Neg()]);
      AddClauseStep(g, gate[..1], gate[1]);
      assert gate[..1] + [gate[1]] == gate[..2];
      OrClause([a, b.Neg(), result]);
      AddClauseStep(g, gate[..2], gate[2]);
      assert gate[..2] + [gate[2]] == gate[..3];
      OrClause([a.Neg(), b, result]);
      AddClauseStep(g, gate[..3], gate[3]);
      assert gate[..3] + [gate[3]] == gate;
    }

    method EqVar(a: Lit, b: Lit) returns (result: Lit)
      modifies this
      ensures (cnf, result) == EqVarF(old(cnf), a, b)
    {
      result := XorVar(a, b.Neg());
    }

    /** `count_up_to_vars`: the sequential counter over `vars`, rows cut at `upTo` entries. */
    method CountUpToVars(upTo: nat, vars: seq<Lit>) returns (prior: seq<Lit>)
      modifies this
      ensures (cnf, prior) == CountUpToF(old(cnf), upTo, vars, true)
    {
      prior := [];
      if upTo == 0 {
        return;
      }
      var i := 0;
      while i < |vars|
        invariant 0 <= i <= |vars|
        invariant (cnf, prior) == CountRowsF(old(cnf), upTo, vars[..i], true)
      {
        CountRowsSnoc(old(cnf), upTo, vars, i, true);
        var row := CountRow(prior, vars[i], Min(upTo, |prior| + 1));
        prior := row;
        i := i + 1;
      }
      assert vars[..i] == vars;
    }

    /** The row `(0..row_len).map(|c| self.count_var(&prior, c, v))` inside `count_up_to_vars`. */
    method CountRow(prior: seq<Lit>, v: Lit, rowLen: nat) returns (row: seq<Lit>)
      requires rowLen <= |prior| + 1
      modifies this
      ensures (cnf, row) == RowF(old(cnf), prior, v, rowLen, true)
    {
      row := [];
      var c := 0;
      while c < rowLen
        invariant 0 <= c <= rowLen
        invariant (cnf, row) == RowF(old(cnf), prior, v, c, true)
      {
        var r := CountVar(prior, c, v);
        row := row + [r];
        c := c + 1;
      }
    }

    /** `count_var(all_prior, c, var)`. */
    method CountVar(allPrior: seq<Lit>, c: nat, v: Lit) returns (result: Lit)
      requires c <= |allPrior|
      modifies this
      ensures (cnf, result) == CountVarF(old(cnf), allPrior, c, v, true)
    {
      if c == 0 {
        if |allPrior| > 0 {
          result := OrVar([allPrior[0], v]);
          return;
        } else {
          return v;
        }
      }
      if c == |allPrior| {
        result := AndVar([allPrior[c - 1], v]);
        return;
      }
      result := Var();
      var priorMinusOne := allPrior[c - 1];
      var prior := allPrior[c];
      ghost var g := cnf;
      ghost var gate := CountGate(priorMinusOne, prior, v, result);
      OrClause([result.Neg(), priorMinusOne, prior]);
      assert gate[..1] == [gate[0]];
      assert cnf == AddClauses(g, gate[..1]);
      OrClause([result.Neg(), prior, v]);
      AddClauseStep(g, gate[..1], gate[1]);
      assert gate[..1] + [gate[1]] == gate[..2];
      OrClause([priorMinusOne.Neg(), v.Neg(), result]);
      AddClauseStep(g, gate[..2], gate[2]);
      assert gate[..2] + [gate[2]] == gate[..3];
      OrClause([prior.Neg(), result]);
      AddClauseStep(g, gate[..3], gate[3]);
      assert gate[..3] + [gate[3]] == gate;
    }
  }

  // ---------------------------------------------------------------
  // Reading a model

  /** `SatSolution`: the positive literals of a model. */
  datatype SatSolution = SatSolution(trueVars: set<Lit>)

  /** `SatSolution::new`: keeps only the positive literals of the model. */
  function NewSolution(model: seq<Lit>): (sol: SatSolution)
    ensures forall l :: l in sol.trueVars <==> l in model && l.positive
  {
    SatSolution(set l | l in model && l.positive)
  }

  /** `SatSolution::get`. */
  function Get(sol: SatSolution, l: Lit): bool {
    if l.positive then l in sol.trueVars else l.Neg() !in sol.trueVars
  }

  /** The assignment a solution stands for: a variable is true exactly when its positive literal was kept. */
  function AsAssignment(sol: SatSolution): Assignment {
    (v: nat) => Lit(v, true) in sol.trueVars
  }
}
