/**
 * What the encoder's stages succeed on and what their clauses mean: which
 * puzzles make a stage panic, what every model of a one-hot stage satisfies,
 * that the adjacency-to-matching stage as written constrains nothing, and how
 * far `run` gets on a square puzzle.
 */
module DoublerFacts {
  import opened Wrappers
  import opened Cnf
  import opened Sat
  import opened SatFacts
  import opened Puzzles
  import opened Tables
  import opened Doubler
  import Square

  // ---------------------------------------------------------------
  // The allocation stages

  /** `add_edge_vars` panics exactly when some edge orbit is empty (`len - 1` underflows). */
  lemma {:induction false} EdgeTablesFailIff(f: Cnf, orbits: seq<EdgeOrbitInfo>)
    ensures EdgeTablesF(f, orbits).None? <==> exists i :: 0 <= i < |orbits| && orbits[i].len == 0
  {
    if orbits != [] {
      var init := orbits[..|orbits| - 1];
      EdgeTablesFailIff(f, init);
      assert forall i :: 0 <= i < |init| ==> init[i] == orbits[i];
    }
  }

  /** The tables of `add_edge_vars`: one per orbit, of the allocated size, over variables the formula has counted. */
  lemma {:induction false} EdgeTablesShape(f: Cnf, orbits: seq<EdgeOrbitInfo>)
    requires EdgeTablesF(f, orbits).Some?
    ensures var (g, ts) := EdgeTablesF(f, orbits).value;
      g.varCount >= f.varCount &&
      forall o :: 0 <= o < |ts| ==>
        (ts[o].orbit == orbits[o] && MatchSized(ts[o])
         && forall i :: 0 <= i < |ts[o].matches| ==> f.varCount <= ts[o].matches[i].v < g.varCount)
  {
    if orbits != [] {
      var init := orbits[..|orbits| - 1];
      EdgeTablesShape(f, init);
      var prev := EdgeTablesF(f, init).value;
      var next := NewEdgeMatchingF(prev.0, orbits[|orbits| - 1]).value;
      assert forall i :: 0 <= i < |next.1.matches| ==> next.1.matches[i].v == prev.0.varCount + i;
    }
  }

  /** The tables of `add_piece_vars`: one per orbit, of the allocated sizes. */
  lemma {:induction false} PieceTablesShape(f: Cnf, orbits: seq<PieceOrbitInfo>)
    ensures var (g, ts) := PieceTablesF(f, orbits);
      g.varCount >= f.varCount && forall o :: 0 <= o < |ts| ==> ts[o].orbit == orbits[o] && DestSized(ts[o])
  {
    if orbits != [] {
      PieceTablesShape(f, orbits[..|orbits| - 1]);
    }
  }

  // ---------------------------------------------------------------
  // The one-hot stages

  /** A row `exact_count_clause(1, ...)` accepts: no panic building it, and at least one literal. */
  predicate Usable(row: Option<seq<Lit>>) {
    row.Some? && |row.value| >= 1
  }

  /** A one-hot stage panics exactly when one of its rows panics or is empty. */
  lemma {:induction false} ExactOnesIff(f: Cnf, rows: seq<Option<seq<Lit>>>)
    ensures ExactOnes(f, rows).Some? <==> forall x :: x in rows ==> Usable(x)
  {
    if rows != [] {
      var init := rows[..|rows| - 1];
      var last := rows[|rows| - 1];
      ExactOnesIff(f, init);
      assert rows == init + [last];
      assert forall x :: x in rows <==> x in init || x == last;
      if ExactOnes(f, init).Some? && last.Some? {
        var g := ExactOnes(f, init).value;
        assert ExactOnes(f, rows) == ExactCountF(g, 1, last.value, true);
        assert ExactCountF(g, 1, last.value, true).Some? <==> Usable(last);
      } else if ExactOnes(f, init).None? {
        var x :| x in init && !Usable(x);
        assert x in rows;
      } else {
        assert !Usable(last);
      }
    }
  }

  /** Every model of a one-hot stage's clauses meets, for every row, what `exact_count_clause(1, row)` demands. */
  lemma {:induction false} ExactOnesModels(f: Cnf, rows: seq<Option<seq<Lit>>>, s: Assignment)
    requires ExactOnes(f, rows).Some? && Satisfies(s, ExactOnes(f, rows).value.clauses)
    ensures forall i :: 0 <= i < |rows| ==> rows[i].Some? && ExactCountDemands(Values(s, rows[i].value), 1, true)
  {
    if rows != [] {
      var init := rows[..|rows| - 1];
      var g := ExactOnes(f, init).value;
      var last := rows[|rows| - 1].value;
      SatPrefixOf(s, g.clauses, ExactCountF(g, 1, last, true).value.clauses);
      ExactOnesModels(f, init, s);
      ExactCountModels(g, 1, last, true, s);
      assert forall i :: 0 <= i < |init| ==> init[i] == rows[i];
    }
  }

  /**
   * Every model of the formula before a one-hot stage whose values meet, for
   * every row, what `exact_count_clause(1, row)` demands extends to a model
   * of the formula after the stage that agrees on every earlier variable.
   */
  lemma {:induction false} ExactOnesExtends(f: Cnf, rows: seq<Option<seq<Lit>>>, s: Assignment)
    requires ExactOnes(f, rows).Some?
    requires Wf(f) && Satisfies(s, f.clauses)
    requires forall i :: 0 <= i < |rows| ==>
      rows[i].Some? && Below(rows[i].value, f.varCount) && ExactCountDemands(Values(s, rows[i].value), 1, true)
    ensures Wf(ExactOnes(f, rows).value)
    ensures exists t :: Agrees(t, s, f.varCount) && Satisfies(t, ExactOnes(f, rows).value.clauses)
  {
    if rows == [] {
      assert Agrees(s, s, f.varCount);
    } else {
      var init := rows[..|rows| - 1];
      var g := ExactOnes(f, init).value;
      var last := rows[|rows| - 1].value;
      assert forall i :: 0 <= i < |init| ==> init[i] == rows[i];
      ExactOnesExtends(f, init, s);
      var t0 :| Agrees(t0, s, f.varCount) && Satisfies(t0, g.clauses);
      BelowMono(last, f.varCount, g.varCount);
      ValuesAgree(t0, s, f.varCount, last);
      ExactCountExact(g, 1, last, true, t0);
      var t :| Agrees(t, t0, g.varCount) && Satisfies(t, ExactCountF(g, 1, last, true).value.clauses);
      AgreesTrans(t, t0, s, f.varCount, g.varCount);
    }
  }

  /**
   * A one-hot stage demands exactly what its rows' `exact_count_clause(1, ...)`
   * demand: a model of the formula before it extends to one after it exactly
   * when every row meets its demand.
   */
  lemma ExactOnesExact(f: Cnf, rows: seq<Option<seq<Lit>>>, s: Assignment)
    requires ExactOnes(f, rows).Some?
    requires Wf(f) && Satisfies(s, f.clauses)
    requires forall i :: 0 <= i < |rows| ==> rows[i].Some? && Below(rows[i].value, f.varCount)
    ensures (forall i :: 0 <= i < |rows| ==> ExactCountDemands(Values(s, rows[i].value), 1, true))
            <==> exists t :: Agrees(t, s, f.varCount) && Satisfies(t, ExactOnes(f, rows).value.clauses)
  {
    if forall i :: 0 <= i < |rows| ==> ExactCountDemands(Values(s, rows[i].value), 1, true) {
      ExactOnesExtends(f, rows, s);
    }
    forall t | Agrees(t, s, f.varCount) && Satisfies(t, ExactOnes(f, rows).value.clauses)
      ensures forall i :: 0 <= i < |rows| ==> ExactCountDemands(Values(s, rows[i].value), 1, true)
    {
      ExactOnesModels(f, rows, t);
      forall i | 0 <= i < |rows| ensures Values(t, rows[i].value) == Values(s, rows[i].value) {
        ValuesAgree(t, s, f.varCount, rows[i].value);
      }
    }
  }

  /** The rows of `add_edge_one_hot_matching` are exactly the rows of every edge of every orbit. */
  lemma {:induction false} EdgeRowsElems(ts: seq<EdgeMatchingVars>)
    ensures forall o, a :: 0 <= o < |ts| && 0 <= a < ts[o].orbit.len ==> MatchRow(ts[o], a) in EdgeRows(ts)
    ensures forall x :: x in EdgeRows(ts) ==>
      exists o, a :: 0 <= o < |ts| && 0 <= a < ts[o].orbit.len && x == MatchRow(ts[o], a)
  {
    if ts != [] {
      var init := ts[..|ts| - 1];
      var t := ts[|ts| - 1];
      EdgeRowsElems(init);
      var tail := seq(t.orbit.len, a requires 0 <= a < t.orbit.len => MatchRow(t, a));
      assert EdgeRows(ts) == EdgeRows(init) + tail;
      forall o, a | 0 <= o < |ts| && 0 <= a < ts[o].orbit.len ensures MatchRow(ts[o], a) in EdgeRows(ts) {
        if o == |ts| - 1 {
          assert tail[a] == MatchRow(ts[o], a);
        } else {
          assert init[o] == ts[o];
        }
      }
      forall x | x in EdgeRows(ts)
        ensures exists o, a :: 0 <= o < |ts| && 0 <= a < ts[o].orbit.len && x == MatchRow(ts[o], a)
      {
        if x in EdgeRows(init) {
          var o, a :| 0 <= o < |init| && 0 <= a < init[o].orbit.len && x == MatchRow(init[o], a);
          assert init[o] == ts[o];
        } else {
          var a :| 0 <= a < |tail| && tail[a] == x;
          assert x == MatchRow(ts[|ts| - 1], a);
        }
      }
    }
  }

  /** On a table of the allocated size, the row of edge `a` holds one literal for each other edge. */
  lemma MatchRowShape(t: EdgeMatchingVars, a: nat)
    requires MatchSized(t) && a < t.orbit.len
    ensures MatchRow(t, a).Some? && |MatchRow(t, a).value| == t.orbit.len - 1
  {
    var idx := Others(t.orbit.len, a);
    forall i | 0 <= i < |idx| ensures t.Matches(a, idx[i]).Some? {
      assert idx[i] in idx;
      MatchesSomeIff(t, a, idx[i]);
    }
  }

  /** On tables of the allocated sizes, `add_edge_one_hot_matching` panics exactly when some orbit has a single edge. */
  lemma EdgeOneHotIff(f: Cnf, ts: seq<EdgeMatchingVars>)
    requires forall o :: 0 <= o < |ts| ==> MatchSized(ts[o])
    ensures ExactOnes(f, EdgeRows(ts)).Some? <==> forall o :: 0 <= o < |ts| ==> ts[o].orbit.len != 1
  {
    ExactOnesIff(f, EdgeRows(ts));
    EdgeRowsElems(ts);
    if forall o :: 0 <= o < |ts| ==> ts[o].orbit.len != 1 {
      forall x | x in EdgeRows(ts) ensures Usable(x) {
        var o, a :| 0 <= o < |ts| && 0 <= a < ts[o].orbit.len && x == MatchRow(ts[o], a);
        MatchRowShape(ts[o], a);
      }
    } else {
      var o :| 0 <= o < |ts| && ts[o].orbit.len == 1;
      MatchRowShape(ts[o], 0);
      assert !Usable(MatchRow(ts[o], 0));
    }
  }

  /** The rows of a piece one-hot stage are exactly the rows of every index of every orbit. */
  lemma {:induction false} PieceRowsElems(ts: seq<PieceDestVars>, kind: OneHot)
    ensures forall o, i :: 0 <= o < |ts| && 0 <= i < ts[o].orbit.len ==> PieceRow(ts[o], kind, i) in PieceRows(ts, kind)
    ensures forall x :: x in PieceRows(ts, kind) ==>
      exists o, i :: 0 <= o < |ts| && 0 <= i < ts[o].orbit.len && x == PieceRow(ts[o], kind, i)
  {
    if ts != [] {
      var init := ts[..|ts| - 1];
      var t := ts[|ts| - 1];
      PieceRowsElems(init, kind);
      var tail := seq(t.orbit.len, i requires 0 <= i < t.orbit.len => PieceRow(t, kind, i));
      assert PieceRows(ts, kind) == PieceRows(init, kind) + tail;
      forall o, i | 0 <= o < |ts| && 0 <= i < ts[o].orbit.len ensures PieceRow(ts[o], kind, i) in PieceRows(ts, kind) {
        if o == |ts| - 1 {
          assert tail[i] == PieceRow(ts[o], kind, i);
        } else {
          assert init[o] == ts[o];
        }
      }
      forall x | x in PieceRows(ts, kind)
        ensures exists o, i :: 0 <= o < |ts| && 0 <= i < ts[o].orbit.len && x == PieceRow(ts[o], kind, i)
      {
        if x in PieceRows(init, kind) {
          var o, i :| 0 <= o < |init| && 0 <= i < init[o].orbit.len && x == PieceRow(init[o], kind, i);
          assert init[o] == ts[o];
        } else {
          var i :| 0 <= i < |tail| && tail[i] == x;
          assert x == PieceRow(ts[|ts| - 1], kind, i);
        }
      }
    }
  }

  /** On a table of the allocated sizes, the destination and source rows are complete: one literal per piece. */
  lemma DestRowShape(pd: PieceDestVars, i: nat)
    requires DestSized(pd) && i < pd.orbit.len
    ensures PieceRow(pd, Dst, i).Some? && |PieceRow(pd, Dst, i).value| == pd.orbit.len
    ensures PieceRow(pd, Src, i).Some? && |PieceRow(pd, Src, i).value| == pd.orbit.len
  {
    forall j | 0 <= j < pd.orbit.len ensures pd.Dest(i, j).Some? && pd.Dest(j, i).Some? {
      SizedDestDefined(pd, i, j);
      SizedDestDefined(pd, j, i);
    }
  }

  /** On tables of the allocated sizes, `add_piece_one_hot_dst` and `add_piece_one_hot_src` never panic. */
  lemma DstSrcSucceed(f: Cnf, g: Cnf, ts: seq<PieceDestVars>)
    requires forall o :: 0 <= o < |ts| ==> DestSized(ts[o])
    ensures ExactOnes(f, PieceRows(ts, Dst)).Some? && ExactOnes(g, PieceRows(ts, Src)).Some?
  {
    ExactOnesIff(f, PieceRows(ts, Dst));
    ExactOnesIff(g, PieceRows(ts, Src));
    PieceRowsElems(ts, Dst);
    PieceRowsElems(ts, Src);
    forall x | x in PieceRows(ts, Dst) ensures Usable(x) {
      var o, i :| 0 <= o < |ts| && 0 <= i < ts[o].orbit.len && x == PieceRow(ts[o], Dst, i);
      DestRowShape(ts[o], i);
    }
    forall x | x in PieceRows(ts, Src) ensures Usable(x) {
      var o, i :| 0 <= o < |ts| && 0 <= i < ts[o].orbit.len && x == PieceRow(ts[o], Src, i);
      DestRowShape(ts[o], i);
    }
  }

  /** As written, every rotation row is usable when the orbit has at least as many rotations as pieces. */
  lemma RotRowUsable(pd: PieceDestVars, i: nat)
    requires DestSized(pd) && i < pd.orbit.len
    ensures pd.orbit.rotations >= pd.orbit.len ==> Usable(PieceRow(pd, Rotation, i))
  {
    var n := pd.orbit.len;
    var k := pd.orbit.rotations;
    if k >= n {
      forall r | 0 <= r < k ensures pd.Rot(i, r).Some? {
        RowInside(n, k, i, r);
      }
    }
  }

  /** The last rotation row shows a short orbit: it is not usable when `1 <= rotations < len`. */
  lemma RotLastRowUnusable(pd: PieceDestVars)
    requires DestSized(pd) && pd.orbit.len >= 1 && pd.orbit.rotations < pd.orbit.len
    ensures !Usable(PieceRow(pd, Rotation, pd.orbit.len - 1))
  {
    var n := pd.orbit.len;
    var k := pd.orbit.rotations;
    if k >= 1 {
      LastRowOutside(n, k);
      assert Range(k)[k - 1] == k - 1;
      assert pd.Rot(n - 1, k - 1).None?;
    }
  }

  /**
   * As written, `add_piece_one_hot_rot` panics exactly when some orbit has
   * fewer rotations than pieces: `rot(s, r)` indexes with the orbit length.
   */
  lemma RotStageIff(f: Cnf, ts: seq<PieceDestVars>)
    requires forall o :: 0 <= o < |ts| ==> DestSized(ts[o])
    ensures ExactOnes(f, PieceRows(ts, Rotation)).Some?
       <==> forall o :: 0 <= o < |ts| ==> ts[o].orbit.len == 0 || ts[o].orbit.rotations >= ts[o].orbit.len
  {
    ExactOnesIff(f, PieceRows(ts, Rotation));
    PieceRowsElems(ts, Rotation);
    if forall o :: 0 <= o < |ts| ==> ts[o].orbit.len == 0 || ts[o].orbit.rotations >= ts[o].orbit.len {
      forall x | x in PieceRows(ts, Rotation) ensures Usable(x) {
        var o, i :| 0 <= o < |ts| && 0 <= i < ts[o].orbit.len && x == PieceRow(ts[o], Rotation, i);
        RotRowUsable(ts[o], i);
      }
    } else {
      var o :| 0 <= o < |ts| && ts[o].orbit.len != 0 && ts[o].orbit.rotations < ts[o].orbit.len;
      RotLastRowUnusable(ts[o]);
    }
  }

  /** With `rot_fixed`, the rotation stage panics only for an orbit with pieces but no rotation. */
  lemma RotFixedStageIff(f: Cnf, ts: seq<PieceDestVars>)
    requires forall o :: 0 <= o < |ts| ==> DestSized(ts[o])
    ensures ExactOnes(f, PieceRows(ts, RotationFixed)).Some?
       <==> forall o :: 0 <= o < |ts| ==> ts[o].orbit.len == 0 || ts[o].orbit.rotations >= 1
  {
    ExactOnesIff(f, PieceRows(ts, RotationFixed));
    PieceRowsElems(ts, RotationFixed);
    if forall o :: 0 <= o < |ts| ==> ts[o].orbit.len == 0 || ts[o].orbit.rotations >= 1 {
      forall x | x in PieceRows(ts, RotationFixed) ensures Usable(x) {
        var o, i :| 0 <= o < |ts| && 0 <= i < ts[o].orbit.len && x == PieceRow(ts[o], RotationFixed, i);
        forall r | 0 <= r < ts[o].orbit.rotations ensures ts[o].RotFixed(i, r).Some? {
          SizedDestDefined(ts[o], i, r);
        }
      }
    } else {
      var o :| 0 <= o < |ts| && ts[o].orbit.len != 0 && ts[o].orbit.rotations == 0;
      assert !Usable(PieceRow(ts[o], RotationFixed, 0));
    }
  }

  // ---------------------------------------------------------------
  // add_piece_dst_adjacent_not_same

  /** The stage visits exactly the edge keys of every edge orbit. */
  lemma {:induction false} EdgeKeysElems(ts: seq<EdgeMatchingVars>)
    ensures forall k :: k in EdgeKeys(ts) <==> k.orbit < |ts| && k.index < ts[k.orbit].orbit.len
  {
    if ts != [] {
      var o := |ts| - 1;
      var init := ts[..o];
      EdgeKeysElems(init);
      var tail := seq(ts[o].orbit.len, a requires 0 <= a < ts[o].orbit.len => EdgeKey(o, a));
      assert EdgeKeys(ts) == EdgeKeys(init) + tail;
      forall k ensures k in EdgeKeys(ts) <==> k.orbit < |ts| && k.index < ts[k.orbit].orbit.len {
        if k.orbit == o && k.index < ts[o].orbit.len {
          assert tail[k.index] == k;
        }
        if k.orbit < o {
          assert init[k.orbit] == ts[k.orbit];
        }
      }
    }
  }

  /** The stage panics exactly when some edge has no pieces or no adjacency variable. */
  lemma {:induction false} NotSameIff(f: Cnf, p: Puzzle, adj: AdjacencyMap, ks: seq<EdgeKey>)
    ensures NotSameF(f, p, adj, ks).Some? <==> forall i :: 0 <= i < |ks| ==> NotSameLit(p, adj, ks[i]).Some?
  {
    if ks != [] {
      var init := ks[..|ks| - 1];
      NotSameIff(f, p, adj, init);
      assert forall i :: 0 <= i < |init| ==> init[i] == ks[i];
    }
  }

  /** Every model of the stage's clauses makes the two pieces of every edge not adjacent at their destinations. */
  lemma {:induction false} NotSameModels(f: Cnf, p: Puzzle, adj: AdjacencyMap, ks: seq<EdgeKey>, s: Assignment)
    requires NotSameF(f, p, adj, ks).Some? && Satisfies(s, NotSameF(f, p, adj, ks).value.clauses)
    ensures forall i :: 0 <= i < |ks| ==> NotSameLit(p, adj, ks[i]).Some? && !Value(s, NotSameLit(p, adj, ks[i]).value)
  {
    if ks != [] {
      var init := ks[..|ks| - 1];
      var g := NotSameF(f, p, adj, init).value;
      var l := NotSameLit(p, adj, ks[|ks| - 1]).value;
      SatAppend(s, g.clauses, [NotLits(l)]);
      SatisfiesSingle(s, NotLits(l));
      NotMeaning(s, l);
      NotSameModels(f, p, adj, init, s);
      assert forall i :: 0 <= i < |init| ==> init[i] == ks[i];
    }
  }

  /** With no adjacency variables (`add_piece_dst_adjacent_vars` is `todo!()`), the stage panics on the first edge. */
  lemma NotSameWithoutAdjacency(f: Cnf, p: Puzzle, ks: seq<EdgeKey>)
    ensures NotSameF(f, p, map[], ks).Some? <==> ks == []
  {
    NotSameIff(f, p, map[], ks);
    if ks != [] {
      assert NotSameLit(p, map[], ks[0]).None?;
    }
  }

  // ---------------------------------------------------------------
  // add_piece_dst_adjacent_to_matching

  /** The steps for one orbit: each edge `a < len` once, and each pair `b < a < len` once. */
  lemma {:induction false} OrbitStepsElems(o: nat, len: nat)
    ensures forall st :: st in OrbitSteps(o, len) <==>
      (st.EdgeStep? && st.key.orbit == o && st.key.index < len)
      || (st.PairStep? && st.orbit == o && st.b < st.a < len)
  {
    if len > 0 {
      var a := len - 1;
      OrbitStepsElems(o, a);
      var pairs := seq(a, b requires 0 <= b < a => PairStep(o, a, b));
      assert OrbitSteps(o, len) == OrbitSteps(o, a) + [EdgeStep(EdgeKey(o, a))] + pairs;
      forall st: MatchStep | st.PairStep? && st.orbit == o && st.a == a && st.b < a ensures st in pairs {
        assert pairs[st.b] == st;
      }
    }
  }

  /** The stage's loops visit every edge of every orbit, and every pair `b < a` within an orbit. */
  lemma {:induction false} MatchStepsElems(ts: seq<EdgeMatchingVars>)
    ensures forall st :: st in MatchSteps(ts) <==>
      (st.EdgeStep? && st.key.orbit < |ts| && st.key.index < ts[st.key.orbit].orbit.len)
      || (st.PairStep? && st.orbit < |ts| && st.b < st.a < ts[st.orbit].orbit.len)
  {
    if ts != [] {
      var o := |ts| - 1;
      var init := ts[..o];
      MatchStepsElems(init);
      OrbitStepsElems(o, ts[o].orbit.len);
      assert forall i :: 0 <= i < |init| ==> init[i] == ts[i];
    }
  }

  /** Every adjacency literal refers to a variable below `n`. */
  predicate AdjBelow(adj: AdjacencyMap, n: nat) {
    forall k :: k in adj ==> adj[k].v < n
  }

  lemma AndVarWf(f: Cnf, vars: seq<Lit>)
    requires Wf(f)
    ensures Wf(AndVarF(f, vars).0) && AndVarF(f, vars).0.varCount > f.varCount
  {
    NewVarWf(f);
    AddClausesWf(NewVar(f).0, AndGate(vars, NewVar(f).1));
  }

  lemma OrVarWf(f: Cnf, vars: seq<Lit>)
    requires Wf(f)
    ensures Wf(OrVarF(f, vars).0) && OrVarF(f, vars).0.varCount > f.varCount
  {
    NewVarWf(f);
    AddClausesWf(NewVar(f).0, OrGate(vars, NewVar(f).1));
  }

  /**
   * One pair `b < a`: every model of the formula before extends, by giving
   * the two `and_var` results their values and the `or_var` result true, to
   * a model of the formula after that agrees on every earlier variable.
   */
  lemma PairImposesNothing(f: Cnf, p: Puzzle, adj: AdjacencyMap, ts: seq<EdgeMatchingVars>, o: nat, a: nat, b: nat, s: Assignment)
    requires PairF(f, p, adj, ts, o, a, b).Some?
    requires Wf(f) && Satisfies(s, f.clauses) && AdjBelow(adj, f.varCount)
    ensures Wf(PairF(f, p, adj, ts, o, a, b).value)
    ensures exists t :: Satisfies(t, PairF(f, p, adj, ts, o, a, b).value.clauses) && Agrees(t, s, f.varCount)
  {
    var pa := p.edgePieces(EdgeKey(o, a)).value;
    var pb := p.edgePieces(EdgeKey(o, b)).value;
    var l11 := Lookup(adj, pa.0, pb.0).value;
    var l22 := Lookup(adj, pa.1, pb.1).value;
    var l12 := Lookup(adj, pa.0, pb.1).value;
    var l21 := Lookup(adj, pa.1, pb.0).value;
    var m := ts[o].Matches(a, b).value;
    var case1 := AndVarF(f, [l11, l22]);
    var case2 := AndVarF(case1.0, [l12, l21]);
    var dm := OrVarF(case2.0, [case1.1, case2.1]);
    var res := AddClause(dm.0, ImpliesLits(m, dm.1));
    assert res == PairF(f, p, adj, ts, o, a, b).value;

    AndVarWf(f, [l11, l22]);
    AndVarWf(case1.0, [l12, l21]);
    OrVarWf(case2.0, [case1.1, case2.1]);
    AddClausesWf(dm.0, [ImpliesLits(m, dm.1)]);

    var t1 := Extend(s, f.varCount, AllTrue(Values(s, [l11, l22])));
    AndVarExtends(f, [l11, l22], s);
    var t2 := Extend(t1, case1.0.varCount, AllTrue(Values(t1, [l12, l21])));
    AndVarExtends(case1.0, [l12, l21], t1);
    var t3 := Extend(t2, case2.0.varCount, true);
    OrVarExtends(case2.0, [case1.1, case2.1], t2);
    assert Value(t3, dm.1);
    assert ClauseSat(t3, ImpliesLits(m, dm.1)) by {
      assert ImpliesLits(m, dm.1)[1] == dm.1;
    }
    SatisfiesSingle(t3, ImpliesLits(m, dm.1));
    SatAppend(t3, dm.0.clauses, [ImpliesLits(m, dm.1)]);
    assert Agrees(t3, s, f.varCount);
  }

  /**
   * As written, `add_piece_dst_adjacent_to_matching` constrains nothing:
   * every model of the formula before its steps extends to a model of the
   * formula after them that agrees on every earlier variable, because
   * `or_var` forces `dest_matches` true and so satisfies every
   * `implies_clause(matches(a, b), dest_matches)`.
   */
  lemma {:induction false} StepsImposeNothing(f: Cnf, p: Puzzle, adj: AdjacencyMap, ts: seq<EdgeMatchingVars>, steps: seq<MatchStep>, s: Assignment)
    requires StepsF(f, p, adj, ts, steps).Some?
    requires Wf(f) && Satisfies(s, f.clauses) && AdjBelow(adj, f.varCount)
    ensures Wf(StepsF(f, p, adj, ts, steps).value)
    ensures exists t :: Satisfies(t, StepsF(f, p, adj, ts, steps).value.clauses) && Agrees(t, s, f.varCount)
  {
    if steps == [] {
      assert Agrees(s, s, f.varCount);
    } else {
      var init := steps[..|steps| - 1];
      StepsImposeNothing(f, p, adj, ts, init, s);
      var g := StepsF(f, p, adj, ts, init).value;
      var t0 :| Satisfies(t0, g.clauses) && Agrees(t0, s, f.varCount);
      match steps[|steps| - 1]
      case EdgeStep(k) =>
      case PairStep(o, a, b) =>
        PairImposesNothing(g, p, adj, ts, o, a, b, t0);
        var t :| Satisfies(t, PairF(g, p, adj, ts, o, a, b).value.clauses) && Agrees(t, t0, g.varCount);
        assert Agrees(t, s, f.varCount);
    }
  }

  // ---------------------------------------------------------------
  // The whole run

  predicate SomeEmptyEdgeOrbit(p: Puzzle) {
    exists i :: 0 <= i < |p.edgeOrbits| && p.edgeOrbits[i].len == 0
  }

  predicate SomeSingleEdgeOrbit(p: Puzzle) {
    exists i :: 0 <= i < |p.edgeOrbits| && p.edgeOrbits[i].len == 1
  }

  /** A piece orbit with fewer rotations than pieces. */
  predicate SomeShortPieceOrbit(p: Puzzle) {
    exists i :: 0 <= i < |p.pieceOrbits| && 0 < p.pieceOrbits[i].len && p.pieceOrbits[i].rotations < p.pieceOrbits[i].len
  }

  /**
   * How far `run` gets on any puzzle: it panics in `add_edge_vars` when an
   * edge orbit is empty, in `add_edge_one_hot_matching` when one has a single
   * edge, in `add_piece_one_hot_rot` when a piece orbit has fewer rotations
   * than pieces, and otherwise at the `todo!()` after six stages.
   */
  lemma RunStops(p: Puzzle)
    ensures StagesDone(p) == if SomeEmptyEdgeOrbit(p) then 0 else if SomeSingleEdgeOrbit(p) then 2
                             else if SomeShortPieceOrbit(p) then 4 else 6
  {
    var f0 := Cnf(0, []);
    EdgeTablesFailIff(f0, p.edgeOrbits);
    if !SomeEmptyEdgeOrbit(p) {
      EdgeTablesShape(f0, p.edgeOrbits);
      var edges := EdgeTablesF(f0, p.edgeOrbits).value;
      var pieces := PieceTablesF(edges.0, p.pieceOrbits);
      PieceTablesShape(edges.0, p.pieceOrbits);
      EdgeOneHotIff(pieces.0, edges.1);
      if !SomeSingleEdgeOrbit(p) {
        var f3 := ExactOnes(pieces.0, EdgeRows(edges.1)).value;
        DstSrcSucceed(f3, f3, pieces.1);
        var f4 := ExactOnes(f3, PieceRows(pieces.1, Dst)).value;
        RotStageIff(f4, pieces.1);
        if !SomeShortPieceOrbit(p) {
          var f5 := ExactOnes(f4, PieceRows(pieces.1, Rotation)).value;
          DstSrcSucceed(f5, f5, pieces.1);
        }
      }
    }
  }

  // ---------------------------------------------------------------
  // The whole run on a square puzzle

  /** The interior edge count `(rows - 2) * (cols - 1) + (cols - 2) * (rows - 1)` is 0 only for 2x2 and 1 only for 2x3 and 3x2. */
  lemma InnerEdgeCount(rows: nat, cols: nat)
    requires rows >= 2 && cols >= 2
    ensures var n := (rows - 2) * (cols - 1) + (cols - 2) * (rows - 1);
      (n == 0 <==> rows == 2 && cols == 2) && (n == 1 <==> rows + cols == 5)
  {
    if rows >= 3 && cols >= 3 {
      assert (rows - 2) * (cols - 1) >= 2;
      assert (cols - 2) * (rows - 1) >= 2;
    }
  }

  /**
   * How far `run` gets on a square puzzle: a 2x2 puzzle panics in
   * `add_edge_vars` (its interior orbit is empty), 2x3 and 3x2 in
   * `add_edge_one_hot_matching` (one interior edge), and every other size
   * in `add_piece_one_hot_rot` (the corner orbit has 4 pieces and 1 rotation).
   */
  lemma SquareStagesDone(sq: Square.SquarePuzzle)
    requires sq.Valid()
    ensures StagesDone(sq.AsPuzzle())
         == if sq.rows == 2 && sq.cols == 2 then 0 else if sq.rows + sq.cols == 5 then 2 else 4
  {
    var z := sq.AsPuzzle();
    var outer := (sq.cols - 1 + sq.rows - 1) * 2;
    var inner := (sq.rows - 2) * (sq.cols - 1) + (sq.cols - 2) * (sq.rows - 1);
    assert z.edgeOrbits == [EdgeOrbitInfo(outer), EdgeOrbitInfo(inner)];
    assert z.pieceOrbits[0] == PieceOrbitInfo(4, 1, 2, 2);
    InnerEdgeCount(sq.rows, sq.cols);
    RunStops(z);
    assert SomeEmptyEdgeOrbit(z) <==> inner == 0;
    assert SomeSingleEdgeOrbit(z) <==> inner == 1;
    assert SomeShortPieceOrbit(z);
  }

  /** The interior count as written, `(rows - 2) * (cols - 1) * ((cols - 2) * (rows - 1))`, is 0 on two rows or columns and never 1. */
  lemma ProductEdgeCount(rows: nat, cols: nat)
    requires rows >= 2 && cols >= 2
    ensures var n := (rows - 2) * (cols - 1) * ((cols - 2) * (rows - 1));
      (n == 0 <==> rows == 2 || cols == 2) && n != 1
  {
    var v := (rows - 2) * (cols - 1);
    var h := (cols - 2) * (rows - 1);
    MulZeroOne(rows - 2, cols - 1);
    MulZeroOne(cols - 2, rows - 1);
    MulZeroOne(v, h);
  }

  lemma MulZeroOne(x: nat, y: nat)
    ensures x * y == 0 <==> x == 0 || y == 0
    ensures x * y == 1 <==> x == 1 && y == 1
  {
    if x >= 1 && y >= 2 {
      assert x * y >= y;
    }
    if x >= 2 && y >= 1 {
      assert x * y >= x;
    }
  }

  /**
   * With the interior count as written, every puzzle with two rows or two
   * columns panics in `add_edge_vars` (the product is 0), and every other
   * size in `add_piece_one_hot_rot`.
   */
  lemma SquareStagesDoneAsWritten(sq: Square.SquarePuzzle)
    requires sq.Valid()
    ensures StagesDone(sq.AsWrittenPuzzle()) == if sq.rows == 2 || sq.cols == 2 then 0 else 4
  {
    var z := sq.AsWrittenPuzzle();
    var v := (sq.rows - 2) * (sq.cols - 1);
    var h := (sq.cols - 2) * (sq.rows - 1);
    assert z.edgeOrbits == [EdgeOrbitInfo((sq.cols - 1 + sq.rows - 1) * 2), EdgeOrbitInfo(v * h)];
    assert z.pieceOrbits[0] == PieceOrbitInfo(4, 1, 2, 2);
    ProductEdgeCount(sq.rows, sq.cols);
    RunStops(z);
    assert SomeEmptyEdgeOrbit(z) <==> v * h == 0;
    assert !SomeSingleEdgeOrbit(z);
    assert SomeShortPieceOrbit(z);
  }

  /** `main` builds a 5x5 square puzzle; its run panics in `add_piece_one_hot_rot`, after four stages, either way the interior is counted. */
  lemma MainStopsAtRotations()
    ensures StagesDone(Square.SquarePuzzle(5, 5).AsPuzzle()) == 4
    ensures StagesDone(Square.SquarePuzzle(5, 5).AsWrittenPuzzle()) == 4
  {
    SquareStagesDone(Square.SquarePuzzle(5, 5));
    SquareStagesDoneAsWritten(Square.SquarePuzzle(5, 5));
  }
}
