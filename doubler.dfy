/**
 * The encoder `JigsawDoubler`: it allocates the variable tables for a puzzle
 * and adds its constraint stages to one growing formula. Each stage is a
 * method of the class and is specified by a function from the formula before
 * to the formula after (`None` where the source panics); what the stages
 * mean for the formula's models is proved in module DoublerFacts.
 *
 * Each stage's loops visit the same lists in the same order as the source's
 * nested loops; the lists are written out as functions (`EdgeRows`,
 * `PieceRows`, `EdgeKeys`, `MatchSteps`) and each stage loops over one of them.
 */
module Doubler {
  import opened Wrappers
  import opened Cnf
  import opened Sat
  import opened Puzzles
  import opened Tables

  // ---------------------------------------------------------------
  // Allocation stages

  /** `add_edge_vars`: one `EdgeMatchingVars` per edge orbit, in order. */
  function EdgeTablesF(f: Cnf, orbits: seq<EdgeOrbitInfo>): (res: Option<(Cnf, seq<EdgeMatchingVars>)>)
    ensures res.Some? ==> |res.value.1| == |orbits| && res.value.0.clauses == f.clauses
  {
    if orbits == [] then Some((f, []))
    else
      match EdgeTablesF(f, orbits[..|orbits| - 1])
      case None => None
      case Some(prev) =>
        match NewEdgeMatchingF(prev.0, orbits[|orbits| - 1])
        case None => None
        case Some(next) => Some((next.0, prev.1 + [next.1]))
  }

  lemma EdgeTablesNoneGrows(f: Cnf, orbits: seq<EdgeOrbitInfo>, i: nat)
    requires i <= |orbits| && EdgeTablesF(f, orbits[..i]).None?
    ensures EdgeTablesF(f, orbits).None?
    decreases |orbits| - i
  {
    if i < |orbits| {
      assert orbits[..i + 1][..i] == orbits[..i];
      EdgeTablesNoneGrows(f, orbits, i + 1);
    } else {
      assert orbits[..i] == orbits;
    }
  }

  /** `add_piece_vars`: one `PieceDestVars` per piece orbit, in order. */
  function PieceTablesF(f: Cnf, orbits: seq<PieceOrbitInfo>): (res: (Cnf, seq<PieceDestVars>))
    ensures |res.1| == |orbits| && res.0.clauses == f.clauses
  {
    if orbits == [] then (f, [])
    else
      var prev := PieceTablesF(f, orbits[..|orbits| - 1]);
      var next := NewPieceDestF(prev.0, orbits[|orbits| - 1]);
      (next.0, prev.1 + [next.1])
  }

  // ---------------------------------------------------------------
  // The one-hot stages

  /** `0..n`. */
  function Range(n: nat): (r: seq<nat>)
    ensures |r| == n && forall i :: 0 <= i < n ==> r[i] == i
  {
    seq(n, i requires 0 <= i < n => i)
  }

  /** `(0..n).filter(|b| *b != a)`. */
  function Others(n: nat, a: nat): (bs: seq<nat>)
    ensures forall b: nat :: b in bs <==> b < n && b != a
    ensures |bs| == if a < n then n - 1 else n
  {
    if n == 0 then []
    else
      var init := Others(n - 1, a);
      if n - 1 == a then init else init + [n - 1]
  }

  /** `.map(g).collect_vec()` over `idx`, where `g` may panic. */
  function Collect(idx: seq<nat>, g: nat -> Option<Lit>): (r: Option<seq<Lit>>)
    ensures r.Some? <==> forall i :: 0 <= i < |idx| ==> g(idx[i]).Some?
    ensures r.Some? ==> |r.value| == |idx| && forall i :: 0 <= i < |idx| ==> r.value[i] == g(idx[i]).value
  {
    if idx == [] then Some([])
    else
      match Collect(idx[..|idx| - 1], g)
      case None => None
      case Some(init) =>
        match g(idx[|idx| - 1])
        case None => None
        case Some(l) => Some(init + [l])
  }

  /** `a_matches`: the match variables of edge `a` with every other edge of its orbit. */
  function MatchRow(m: EdgeMatchingVars, a: nat): Option<seq<Lit>> {
    Collect(Others(m.orbit.len, a), (b: nat) => m.Matches(a, b))
  }

  /** The three piece one-hot stages, and the rotation stage indexing as `rot_fixed` does. */
  datatype OneHot = Dst | Rotation | Src | RotationFixed

  /** `s_dst`, `s_rot` or `d_src` for row `i` of a piece orbit. */
  function PieceRow(pd: PieceDestVars, kind: OneHot, i: nat): Option<seq<Lit>> {
    match kind
    case Dst => Collect(Range(pd.orbit.len), (d: nat) => pd.Dest(i, d))
    case Rotation => Collect(Range(pd.orbit.rotations), (r: nat) => pd.Rot(i, r))
    case Src => Collect(Range(pd.orbit.len), (s: nat) => pd.Dest(s, i))
    case RotationFixed => Collect(Range(pd.orbit.rotations), (r: nat) => pd.RotFixed(i, r))
  }

  /** The rows handed to `exact_count_clause(1, ...)` by `add_edge_one_hot_matching`, in order. */
  function EdgeRows(ts: seq<EdgeMatchingVars>): (rows: seq<Option<seq<Lit>>>) {
    if ts == [] then []
    else
      var t := ts[|ts| - 1];
      EdgeRows(ts[..|ts| - 1]) + seq(t.orbit.len, a requires 0 <= a < t.orbit.len => MatchRow(t, a))
  }

  /** The rows handed to `exact_count_clause(1, ...)` by a piece one-hot stage, in order. */
  function PieceRows(ts: seq<PieceDestVars>, kind: OneHot): (rows: seq<Option<seq<Lit>>>) {
    if ts == [] then []
    else
      var t := ts[|ts| - 1];
      PieceRows(ts[..|ts| - 1], kind) + seq(t.orbit.len, i requires 0 <= i < t.orbit.len => PieceRow(t, kind, i))
  }

  /** `exact_count_clause(1, row)` for each row in order; `None` at the first panic. */
  function ExactOnes(f: Cnf, rows: seq<Option<seq<Lit>>>): (res: Option<Cnf>)
    ensures res.Some? ==> f.clauses <= res.value.clauses && res.value.varCount >= f.varCount
  {
    if rows == [] then Some(f)
    else
      match ExactOnes(f, rows[..|rows| - 1])
      case None => None
      case Some(g) =>
        match rows[|rows| - 1]
        case None => None
        case Some(row) => ExactCountF(g, 1, row, true)
  }

  lemma ExactOnesNoneGrows(f: Cnf, rows: seq<Option<seq<Lit>>>, i: nat)
    requires i <= |rows| && ExactOnes(f, rows[..i]).None?
    ensures ExactOnes(f, rows).None?
    decreases |rows| - i
  {
    if i < |rows| {
      assert rows[..i + 1][..i] == rows[..i];
      ExactOnesNoneGrows(f, rows, i + 1);
    } else {
      assert rows[..i] == rows;
    }
  }

  /** Loops over `rows`, calling `exact_count_clause(1, row)` on each. */
  method EmitExactOnes(sat: SatProblem, rows: seq<Option<seq<Lit>>>) returns (ok: bool)
    modifies sat
    ensures ok == ExactOnes(old(sat.cnf), rows).Some?
    ensures ok ==> sat.cnf == ExactOnes(old(sat.cnf), rows).value
  {
    var i := 0;
    while i < |rows|
      invariant 0 <= i <= |rows|
      invariant ExactOnes(old(sat.cnf), rows[..i]) == Some(sat.cnf)
    {
      assert rows[..i + 1][..i] == rows[..i];
      if rows[i].None? {
        ExactOnesNoneGrows(old(sat.cnf), rows, i + 1);
        return false;
      }
      var done := sat.ExactCountClause(1, rows[i].value);
      if !done {
        ExactOnesNoneGrows(old(sat.cnf), rows, i + 1);
        return false;
      }
      i := i + 1;
    }
    assert rows[..i] == rows;
    return true;
  }

  // ---------------------------------------------------------------
  // add_piece_dst_adjacent_not_same

  /** The edge keys of every edge orbit, in the order the stage loops visit them. */
  function EdgeKeys(ts: seq<EdgeMatchingVars>): (ks: seq<EdgeKey>) {
    if ts == [] then []
    else
      var o := |ts| - 1;
      EdgeKeys(ts[..o]) + seq(ts[o].orbit.len, a requires 0 <= a < ts[o].orbit.len => EdgeKey(o, a))
  }

  /** The adjacency literal of the two piece edges on edge `k`; `None` where the source panics. */
  function NotSameLit(p: Puzzle, adj: AdjacencyMap, k: EdgeKey): Option<Lit> {
    match p.edgePieces(k)
    case None => None
    case Some(pieces) => Lookup(adj, pieces.0, pieces.1)
  }

  /** `not_clause` of the adjacency literal of every edge in `ks`, in order. */
  function NotSameF(f: Cnf, p: Puzzle, adj: AdjacencyMap, ks: seq<EdgeKey>): (res: Option<Cnf>)
    ensures res.Some? ==> f.clauses <= res.value.clauses
  {
    if ks == [] then Some(f)
    else
      match NotSameF(f, p, adj, ks[..|ks| - 1])
      case None => None
      case Some(g) =>
        match NotSameLit(p, adj, ks[|ks| - 1])
        case None => None
        case Some(l) => Some(AddClause(g, NotLits(l)))
  }

  lemma NotSameNoneGrows(f: Cnf, p: Puzzle, adj: AdjacencyMap, ks: seq<EdgeKey>, i: nat)
    requires i <= |ks| && NotSameF(f, p, adj, ks[..i]).None?
    ensures NotSameF(f, p, adj, ks).None?
    decreases |ks| - i
  {
    if i < |ks| {
      assert ks[..i + 1][..i] == ks[..i];
      NotSameNoneGrows(f, p, adj, ks, i + 1);
    } else {
      assert ks[..i] == ks;
    }
  }

  // ---------------------------------------------------------------
  // add_piece_dst_adjacent_to_matching

  /** What the stage's loops do at one point: look up the pieces of edge `a`, or handle the pair `b < a`. */
  datatype MatchStep = EdgeStep(key: EdgeKey) | PairStep(orbit: nat, a: nat, b: nat)

  /** The steps for edges `0..len` of orbit `o`. */
  function OrbitSteps(o: nat, len: nat): seq<MatchStep> {
    if len == 0 then []
    else
      var a := len - 1;
      OrbitSteps(o, a) + [EdgeStep(EdgeKey(o, a))] + seq(a, b requires 0 <= b < a => PairStep(o, a, b))
  }

  function MatchSteps(ts: seq<EdgeMatchingVars>): seq<MatchStep> {
    if ts == [] then [] else MatchSteps(ts[..|ts| - 1]) + OrbitSteps(|ts| - 1, ts[|ts| - 1].orbit.len)
  }

  /**
   * The body of the inner loop for edges `b < a` of orbit `o`: two `and_var`
   * cases, their `or_var`, and `implies_clause(matches(a, b), dest_matches)`.
   */
  function PairF(f: Cnf, p: Puzzle, adj: AdjacencyMap, ts: seq<EdgeMatchingVars>, o: nat, a: nat, b: nat): (res: Option<Cnf>)
    ensures res.Some? ==> f.clauses <= res.value.clauses && res.value.varCount >= f.varCount
  {
    var pa := p.edgePieces(EdgeKey(o, a));
    var pb := p.edgePieces(EdgeKey(o, b));
    if pa.None? || pb.None? || o >= |ts| then None
    else
      var l11 := Lookup(adj, pa.value.0, pb.value.0);
      var l22 := Lookup(adj, pa.value.1, pb.value.1);
      var l12 := Lookup(adj, pa.value.0, pb.value.1);
      var l21 := Lookup(adj, pa.value.1, pb.value.0);
      var m := ts[o].Matches(a, b);
      if l11.None? || l22.None? || l12.None? || l21.None? || m.None? then None
      else
        var case1 := AndVarF(f, [l11.value, l22.value]);
        var case2 := AndVarF(case1.0, [l12.value, l21.value]);
        var destMatches := OrVarF(case2.0, [case1.1, case2.1]);
        Some(AddClause(destMatches.0, ImpliesLits(m.value, destMatches.1)))
  }

  function StepF(f: Cnf, p: Puzzle, adj: AdjacencyMap, ts: seq<EdgeMatchingVars>, st: MatchStep): (res: Option<Cnf>)
    ensures res.Some? ==> f.clauses <= res.value.clauses && res.value.varCount >= f.varCount
  {
    match st
    case EdgeStep(k) => if p.edgePieces(k).Some? then Some(f) else None
    case PairStep(o, a, b) => PairF(f, p, adj, ts, o, a, b)
  }

  function StepsF(f: Cnf, p: Puzzle, adj: AdjacencyMap, ts: seq<EdgeMatchingVars>, steps: seq<MatchStep>): (res: Option<Cnf>)
    ensures res.Some? ==> f.clauses <= res.value.clauses && res.value.varCount >= f.varCount
  {
    if steps == [] then Some(f)
    else
      match StepsF(f, p, adj, ts, steps[..|steps| - 1])
      case None => None
      case Some(g) => StepF(g, p, adj, ts, steps[|steps| - 1])
  }

  lemma StepsNoneGrows(f: Cnf, p: Puzzle, adj: AdjacencyMap, ts: seq<EdgeMatchingVars>, steps: seq<MatchStep>, i: nat)
    requires i <= |steps| && StepsF(f, p, adj, ts, steps[..i]).None?
    ensures StepsF(f, p, adj, ts, steps).None?
    decreases |steps| - i
  {
    if i < |steps| {
      assert steps[..i + 1][..i] == steps[..i];
      StepsNoneGrows(f, p, adj, ts, steps, i + 1);
    } else {
      assert steps[..i] == steps;
    }
  }

  // ---------------------------------------------------------------
  // The whole run

  /**
   * How many of the stages of `run` complete before a panic: the two
   * allocation stages, the four one-hot stages, and then
   * `add_piece_dst_adjacent_vars`, which is `todo!()` and always panics.
   */
  function StagesDone(p: Puzzle): nat {
    match EdgeTablesF(Cnf(0, []), p.edgeOrbits)
    case None => 0
    case Some(edges) =>
      var pieces := PieceTablesF(edges.0, p.pieceOrbits);
      match ExactOnes(pieces.0, EdgeRows(edges.1))
      case None => 2
      case Some(f3) =>
        match ExactOnes(f3, PieceRows(pieces.1, Dst))
        case None => 3
        case Some(f4) =>
          match ExactOnes(f4, PieceRows(pieces.1, Rotation))
          case None => 4
          case Some(f5) =>
            if ExactOnes(f5, PieceRows(pieces.1, Src)).None? then 5 else 6
  }

  // ---------------------------------------------------------------
  // The encoder object

  class JigsawDoubler {
    const puzzle: Puzzle
    const sat: SatProblem
    var edgeMatchingPerOrbit: seq<EdgeMatchingVars>
    var pieceDestPerOrbit: seq<PieceDestVars>
    const pieceDestIsAdjacent: PieceDestAdjacentVars

    /** `new`: an empty formula, no tables, no adjacency variables. */
    constructor(puzzle: Puzzle)
      ensures this.puzzle == puzzle && fresh(sat) && fresh(pieceDestIsAdjacent)
      ensures sat.cnf == Cnf(0, []) && edgeMatchingPerOrbit == [] && pieceDestPerOrbit == []
      ensures pieceDestIsAdjacent.entries == map[]
    {
      this.puzzle := puzzle;
      sat := new SatProblem();
      edgeMatchingPerOrbit := [];
      pieceDestPerOrbit := [];
      pieceDestIsAdjacent := new PieceDestAdjacentVars();
    }

    method AddEdgeVars() returns (ok: bool)
      modifies this, sat
      ensures ok == EdgeTablesF(old(sat.cnf), puzzle.edgeOrbits).Some?
      ensures ok ==> (sat.cnf, edgeMatchingPerOrbit) == EdgeTablesF(old(sat.cnf), puzzle.edgeOrbits).value
      ensures pieceDestPerOrbit == old(pieceDestPerOrbit)
    {
      var orbits := puzzle.edgeOrbits;
      var ts := [];
      var i := 0;
      while i < |orbits|
        invariant 0 <= i <= |orbits|
        invariant EdgeTablesF(old(sat.cnf), orbits[..i]) == Some((sat.cnf, ts))
        invariant pieceDestPerOrbit == old(pieceDestPerOrbit)
      {
        assert orbits[..i + 1][..i] == orbits[..i];
        var made, m := NewEdgeMatching(orbits[i], sat);
        if !made {
          EdgeTablesNoneGrows(old(sat.cnf), orbits, i + 1);
          return false;
        }
        ts := ts + [m];
        i := i + 1;
      }
      assert orbits[..i] == orbits;
      edgeMatchingPerOrbit := ts;
      return true;
    }

    method AddPieceVars()
      modifies this, sat
      ensures (sat.cnf, pieceDestPerOrbit) == PieceTablesF(old(sat.cnf), puzzle.pieceOrbits)
      ensures edgeMatchingPerOrbit == old(edgeMatchingPerOrbit)
    {
      var orbits := puzzle.pieceOrbits;
      var ts := [];
      var i := 0;
      while i < |orbits|
        invariant 0 <= i <= |orbits|
        invariant PieceTablesF(old(sat.cnf), orbits[..i]) == (sat.cnf, ts)
        invariant edgeMatchingPerOrbit == old(edgeMatchingPerOrbit)
      {
        assert orbits[..i + 1][..i] == orbits[..i];
        var pd := NewPieceDest(orbits[i], sat);
        ts := ts + [pd];
        i := i + 1;
      }
      assert orbits[..i] == orbits;
      pieceDestPerOrbit := ts;
    }

    method AddEdgeOneHotMatching() returns (ok: bool)
      modifies sat
      ensures ok == ExactOnes(old(sat.cnf), EdgeRows(edgeMatchingPerOrbit)).Some?
      ensures ok ==> sat.cnf == ExactOnes(old(sat.cnf), EdgeRows(edgeMatchingPerOrbit)).value
    {
      ok := EmitExactOnes(sat, EdgeRows(edgeMatchingPerOrbit));
    }

    method AddPieceOneHotDst() returns (ok: bool)
      modifies sat
      ensures ok == ExactOnes(old(sat.cnf), PieceRows(pieceDestPerOrbit, Dst)).Some?
      ensures ok ==> sat.cnf == ExactOnes(old(sat.cnf), PieceRows(pieceDestPerOrbit, Dst)).value
    {
      ok := EmitExactOnes(sat, PieceRows(pieceDestPerOrbit, Dst));
    }

    method AddPieceOneHotRot() returns (ok: bool)
      modifies sat
      ensures ok == ExactOnes(old(sat.cnf), PieceRows(pieceDestPerOrbit, Rotation)).Some?
      ensures ok ==> sat.cnf == ExactOnes(old(sat.cnf), PieceRows(pieceDestPerOrbit, Rotation)).value
    {
      ok := EmitExactOnes(sat, PieceRows(pieceDestPerOrbit, Rotation));
    }

    method AddPieceOneHotSrc() returns (ok: bool)
      modifies sat
      ensures ok == ExactOnes(old(sat.cnf), PieceRows(pieceDestPerOrbit, Src)).Some?
      ensures ok ==> sat.cnf == ExactOnes(old(sat.cnf), PieceRows(pieceDestPerOrbit, Src)).value
    {
      ok := EmitExactOnes(sat, PieceRows(pieceDestPerOrbit, Src));
    }

    method AddPieceDstAdjacentNotSame() returns (ok: bool)
      modifies sat
      ensures ok == NotSameF(old(sat.cnf), puzzle, pieceDestIsAdjacent.entries, EdgeKeys(edgeMatchingPerOrbit)).Some?
      ensures ok ==> sat.cnf == NotSameF(old(sat.cnf), puzzle, pieceDestIsAdjacent.entries, EdgeKeys(edgeMatchingPerOrbit)).value
    {
      var ks := EdgeKeys(edgeMatchingPerOrbit);
      ghost var adj := pieceDestIsAdjacent.entries;
      var i := 0;
      while i < |ks|
        invariant 0 <= i <= |ks|
        invariant NotSameF(old(sat.cnf), puzzle, adj, ks[..i]) == Some(sat.cnf)
      {
        assert ks[..i + 1][..i] == ks[..i];
        var pieces := puzzle.edgePieces(ks[i]);
        if pieces.None? {
          NotSameNoneGrows(old(sat.cnf), puzzle, adj, ks, i + 1);
          return false;
        }
        var l := pieceDestIsAdjacent.Get(pieces.value.0, pieces.value.1);
        if l.None? {
          NotSameNoneGrows(old(sat.cnf), puzzle, adj, ks, i + 1);
          return false;
        }
        sat.NotClause(l.value);
        i := i + 1;
      }
      assert ks[..i] == ks;
      return true;
    }

    /** The inner loop body for edges `b < a`. */
    method AddPair(o: nat, a: nat, b: nat) returns (ok: bool)
      modifies sat
      ensures ok == PairF(old(sat.cnf), puzzle, pieceDestIsAdjacent.entries, edgeMatchingPerOrbit, o, a, b).Some?
      ensures ok ==> sat.cnf == PairF(old(sat.cnf), puzzle, pieceDestIsAdjacent.entries, edgeMatchingPerOrbit, o, a, b).value
    {
      var pa := puzzle.edgePieces(EdgeKey(o, a));
      var pb := puzzle.edgePieces(EdgeKey(o, b));
      if pa.None? || pb.None? || o >= |edgeMatchingPerOrbit| {
        return false;
      }
      var l11 := pieceDestIsAdjacent.Get(pa.value.0, pb.value.0);
      var l22 := pieceDestIsAdjacent.Get(pa.value.1, pb.value.1);
      if l11.None? || l22.None? {
        return false;
      }
      var case1 := sat.AndVar([l11.value, l22.value]);
      var l12 := pieceDestIsAdjacent.Get(pa.value.0, pb.value.1);
      var l21 := pieceDestIsAdjacent.Get(pa.value.1, pb.value.0);
      if l12.None? || l21.None? {
        return false;
      }
      var case2 := sat.AndVar([l12.value, l21.value]);
      var destMatches := sat.OrVar([case1, case2]);
      var m := edgeMatchingPerOrbit[o].Matches(a, b);
      if m.None? {
        return false;
      }
      sat.ImpliesClause(m.value, destMatches);
      return true;
    }

    method AddPieceDstAdjacentToMatching() returns (ok: bool)
      modifies sat
      ensures ok == StepsF(old(sat.cnf), puzzle, pieceDestIsAdjacent.entries, edgeMatchingPerOrbit, MatchSteps(edgeMatchingPerOrbit)).Some?
      ensures ok ==> sat.cnf == StepsF(old(sat.cnf), puzzle, pieceDestIsAdjacent.entries, edgeMatchingPerOrbit, MatchSteps(edgeMatchingPerOrbit)).value
    {
      var steps := MatchSteps(edgeMatchingPerOrbit);
      ghost var adj := pieceDestIsAdjacent.entries;
      var i := 0;
      while i < |steps|
        invariant 0 <= i <= |steps|
        invariant StepsF(old(sat.cnf), puzzle, adj, edgeMatchingPerOrbit, steps[..i]) == Some(sat.cnf)
      {
        assert steps[..i + 1][..i] == steps[..i];
        match steps[i] {
        case EdgeStep(k) =>
          if puzzle.edgePieces(k).None? {
            StepsNoneGrows(old(sat.cnf), puzzle, adj, edgeMatchingPerOrbit, steps, i + 1);
            return false;
          }
        case PairStep(o, a, b) =>
          var done := AddPair(o, a, b);
          if !done {
            StepsNoneGrows(old(sat.cnf), puzzle, adj, edgeMatchingPerOrbit, steps, i + 1);
            return false;
          }
        }
        i := i + 1;
      }
      assert steps[..i] == steps;
      return true;
    }
  }

  /** `run`: the stages in order, up to the first panic; returns how many completed. */
  method Run(puzzle: Puzzle) returns (stagesDone: nat)
    ensures stagesDone == StagesDone(puzzle)
  {
    var d := new JigsawDoubler(puzzle);
    var ok := d.AddEdgeVars();
    if !ok { return 0; }
    d.AddPieceVars();
    ok := d.AddEdgeOneHotMatching();
    if !ok { return 2; }
    ok := d.AddPieceOneHotDst();
    if !ok { return 3; }
    ok := d.AddPieceOneHotRot();
    if !ok { return 4; }
    ok := d.AddPieceOneHotSrc();
    if !ok { return 5; }
    // add_piece_dst_adjacent_vars is todo!(): the run ends here.
    return 6;
  }
}
