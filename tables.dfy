/**
 * The encoder's variable tables: one literal per unordered pair of edges of an
 * edge orbit (a lower-triangular matrix), one per (source, destination) pair
 * and one per (source, rotation) pair of a piece orbit (rectangular matrices),
 * and a map from ordered pairs of piece edges to "adjacent at the
 * destination" literals. A failed `assert!`, a usize subtraction below zero,
 * an out-of-bounds `Vec` index and an `unwrap` of nothing all become `None`.
 */
module Tables {
  import opened Wrappers
  import opened Arith
  import opened Cnf
  import opened Sat
  import opened Puzzles

  // ---------------------------------------------------------------
  // Fresh variables

  /** `n` positive literals of consecutive variables starting at `base`. */
  function FreshLits(base: nat, n: nat): (ls: seq<Lit>)
    ensures |ls| == n && Consecutive(ls, base)
  {
    seq(n, i requires 0 <= i < n => Lit(base + i, true))
  }

  predicate Consecutive(ls: seq<Lit>, base: nat) {
    forall i :: 0 <= i < |ls| ==> ls[i] == Lit(base + i, true)
  }

  /** `(0..n).map(|_| sat.var())`: the formula after `n` calls of `var()` and the literals they return. */
  function AllocF(f: Cnf, n: nat): (res: (Cnf, seq<Lit>))
    ensures res.0.varCount == f.varCount + n && res.0.clauses == f.clauses
    ensures res.1 == FreshLits(f.varCount, n)
  {
    (Cnf(f.varCount + n, f.clauses), FreshLits(f.varCount, n))
  }

  /** Calls `var()` `n` times, collecting the literals. */
  method Alloc(sat: SatProblem, n: nat) returns (ls: seq<Lit>)
    modifies sat
    ensures (sat.cnf, ls) == AllocF(old(sat.cnf), n)
  {
    ls := [];
    var i := 0;
    while i < n
      invariant 0 <= i <= n
      invariant (sat.cnf, ls) == AllocF(old(sat.cnf), i)
    {
      var l := sat.Var();
      assert FreshLits(old(sat.cnf).varCount, i + 1) == FreshLits(old(sat.cnf).varCount, i) + [l];
      ls := ls + [l];
      i := i + 1;
    }
  }

  // ---------------------------------------------------------------
  // The triangular layout

  /** `r * (r - 1) / 2`: the index of the first pair whose larger edge is `r`. */
  function Tri(r: nat): nat {
    r * (r - 1) / 2
  }

  lemma TriStep(r: nat)
    ensures Tri(r + 1) == Tri(r) + r
  {
    var x := r * (r - 1);
    assert (r + 1) * r == x + 2 * r;
    DivModUnique(x + 2 * r, 2, x / 2 + r, x % 2);
  }

  lemma {:induction false} TriMono(a: nat, b: nat)
    requires a <= b
    ensures Tri(a) <= Tri(b)
    decreases b - a
  {
    if a < b {
      TriStep(a);
      TriMono(a + 1, b);
    }
  }

  /** The pair index `Tri(r) + c` with `c < r < len` is below `Tri(len)`. */
  lemma PairIndexBelow(r: nat, c: nat, len: nat)
    requires c < r < len
    ensures Tri(r) + c < Tri(len)
  {
    TriStep(r);
    TriMono(r + 1, len);
  }

  /** Distinct pairs `c < r` get distinct indices. */
  lemma PairIndexInjective(r1: nat, c1: nat, r2: nat, c2: nat)
    requires c1 < r1 && c2 < r2 && Tri(r1) + c1 == Tri(r2) + c2
    ensures r1 == r2 && c1 == c2
  {
    if r1 < r2 {
      PairIndexBelow(r1, c1, r2);
    } else if r2 < r1 {
      PairIndexBelow(r2, c2, r1);
    }
  }

  // ---------------------------------------------------------------
  // EdgeMatchingVars

  /** `EdgeMatchingVars`: `matches[Tri(r) + c]` is true when edges `c < r` have the same shape. */
  datatype EdgeMatchingVars = EdgeMatchingVars(orbit: EdgeOrbitInfo, matches: seq<Lit>) {
    /** `matches(a, b)`. */
    function Matches(a: nat, b: nat): Option<Lit> {
      if !(a < orbit.len && b < orbit.len && a != b) then None
      else
        var c := if a < b then a else b;
        var r := if a < b then b else a;
        if Tri(r) + c < |matches| then Some(matches[Tri(r) + c]) else None
    }
  }

  /** `EdgeMatchingVars::new`: `None` where `len - 1` underflows. */
  function NewEdgeMatchingF(f: Cnf, orbit: EdgeOrbitInfo): (res: Option<(Cnf, EdgeMatchingVars)>)
    ensures res.Some? <==> orbit.len > 0
    ensures res.Some? ==> var (g, m) := res.value;
      m.orbit == orbit && g.clauses == f.clauses && g.varCount == f.varCount + Tri(orbit.len)
      && m.matches == FreshLits(f.varCount, Tri(orbit.len))
  {
    if orbit.len == 0 then None
    else
      var (g, ls) := AllocF(f, Tri(orbit.len));
      Some((g, EdgeMatchingVars(orbit, ls)))
  }

  method NewEdgeMatching(orbit: EdgeOrbitInfo, sat: SatProblem) returns (ok: bool, m: EdgeMatchingVars)
    modifies sat
    ensures ok == NewEdgeMatchingF(old(sat.cnf), orbit).Some?
    ensures ok ==> (sat.cnf, m) == NewEdgeMatchingF(old(sat.cnf), orbit).value
    ensures !ok ==> sat.cnf == old(sat.cnf)
  {
    if orbit.len == 0 {
      return false, EdgeMatchingVars(orbit, []);
    }
    var ls := Alloc(sat, Tri(orbit.len));
    return true, EdgeMatchingVars(orbit, ls);
  }

  /** The table `new` allocates: one variable per unordered pair. */
  predicate MatchSized(m: EdgeMatchingVars) {
    |m.matches| == Tri(m.orbit.len)
  }

  /** On a table of the allocated size, `matches(a, b)` is defined exactly for two different edges of the orbit. */
  lemma MatchesSomeIff(m: EdgeMatchingVars, a: nat, b: nat)
    requires MatchSized(m)
    ensures m.Matches(a, b).Some? <==> (a < m.orbit.len && b < m.orbit.len && a != b)
  {
    if a < m.orbit.len && b < m.orbit.len && a != b {
      if a < b { PairIndexBelow(b, a, m.orbit.len); } else { PairIndexBelow(a, b, m.orbit.len); }
    }
  }

  /** `matches` asks for the same literal either way round. */
  lemma MatchesSymmetric(m: EdgeMatchingVars, a: nat, b: nat)
    ensures m.Matches(a, b) == m.Matches(b, a)
  {
  }

  /**
   * On a table built by `new`, `matches(a, b)` is defined exactly for two
   * different edges of the orbit, and different unordered pairs get different
   * variables.
   */
  lemma MatchesDefined(m: EdgeMatchingVars, base: nat, a: nat, b: nat)
    requires m.matches == FreshLits(base, Tri(m.orbit.len))
    ensures m.Matches(a, b).Some? <==> (a < m.orbit.len && b < m.orbit.len && a != b)
    ensures m.Matches(a, b).Some? ==>
      m.Matches(a, b).value.v == base + Tri(if a < b then b else a) + (if a < b then a else b)
  {
    if a < m.orbit.len && b < m.orbit.len && a != b {
      if a < b { PairIndexBelow(b, a, m.orbit.len); } else { PairIndexBelow(a, b, m.orbit.len); }
    }
  }

  lemma MatchesDistinct(m: EdgeMatchingVars, base: nat, a: nat, b: nat, c: nat, d: nat)
    requires m.matches == FreshLits(base, Tri(m.orbit.len))
    requires m.Matches(a, b).Some? && m.Matches(c, d).Some?
    requires m.Matches(a, b) == m.Matches(c, d)
    ensures (a == c && b == d) || (a == d && b == c)
  {
    MatchesDefined(m, base, a, b);
    MatchesDefined(m, base, c, d);
    var r1 := if a < b then b else a;
    var c1 := if a < b then a else b;
    var r2 := if c < d then d else c;
    var c2 := if c < d then c else d;
    PairIndexInjective(r1, c1, r2, c2);
  }

  // ---------------------------------------------------------------
  // PieceDestVars

  /** `PieceDestVars`: `dest[s * len + d]` (piece `s` goes to `d`) and `rot[s * len + r]` (piece `s` gets rotation `r`). */
  datatype PieceDestVars = PieceDestVars(orbit: PieceOrbitInfo, dest: seq<Lit>, rot: seq<Lit>) {
    /** `dest(s, d)`. */
    function Dest(s: nat, d: nat): Option<Lit> {
      if !(s < orbit.len && d < orbit.len) then None
      else if s * orbit.len + d < |dest| then Some(dest[s * orbit.len + d])
      else None
    }

    /** `rot(s, r)`, indexing with the orbit's length as written: `None` past the end of `rot`. */
    function Rot(s: nat, r: nat): Option<Lit> {
      if !(s < orbit.len && r < orbit.rotations) then None
      else if s * orbit.len + r < |rot| then Some(rot[s * orbit.len + r])
      else None
    }

    /** `rot(s, r)` indexing with the row width `rotations`. */
    function RotFixed(s: nat, r: nat): Option<Lit> {
      if !(s < orbit.len && r < orbit.rotations) then None
      else if s * orbit.rotations + r < |rot| then Some(rot[s * orbit.rotations + r])
      else None
    }
  }

  /** `PieceDestVars::new`: `len * len` destination variables, then `len * rotations` rotation variables. */
  function NewPieceDestF(f: Cnf, orbit: PieceOrbitInfo): (res: (Cnf, PieceDestVars))
    ensures res.0.clauses == f.clauses
    ensures res.0.varCount == f.varCount + orbit.len * orbit.len + orbit.len * orbit.rotations
    ensures res.1.orbit == orbit
    ensures res.1.dest == FreshLits(f.varCount, orbit.len * orbit.len)
    ensures res.1.rot == FreshLits(f.varCount + orbit.len * orbit.len, orbit.len * orbit.rotations)
  {
    var (g, dest) := AllocF(f, orbit.len * orbit.len);
    var (h, rot) := AllocF(g, orbit.len * orbit.rotations);
    (h, PieceDestVars(orbit, dest, rot))
  }

  method NewPieceDest(orbit: PieceOrbitInfo, sat: SatProblem) returns (pd: PieceDestVars)
    modifies sat
    ensures (sat.cnf, pd) == NewPieceDestF(old(sat.cnf), orbit)
  {
    var dest := Alloc(sat, orbit.len * orbit.len);
    var rot := Alloc(sat, orbit.len * orbit.rotations);
    pd := PieceDestVars(orbit, dest, rot);
  }

  /** The sizes `new` allocates. */
  predicate DestSized(pd: PieceDestVars) {
    |pd.dest| == pd.orbit.len * pd.orbit.len && |pd.rot| == pd.orbit.len * pd.orbit.rotations
  }

  /** On tables of the allocated sizes, `dest(s, d)` is defined exactly for `s, d < len`, and so is `rot_fixed(s, r)` for `r < rotations`. */
  lemma SizedDestDefined(pd: PieceDestVars, s: nat, d: nat)
    requires DestSized(pd)
    ensures pd.Dest(s, d).Some? <==> s < pd.orbit.len && d < pd.orbit.len
    ensures pd.RotFixed(s, d).Some? <==> s < pd.orbit.len && d < pd.orbit.rotations
  {
    if s < pd.orbit.len && d < pd.orbit.len {
      IndexBelow(s, pd.orbit.len, d, pd.orbit.len);
    }
    if s < pd.orbit.len && d < pd.orbit.rotations {
      IndexBelow(s, pd.orbit.rotations, d, pd.orbit.len);
      assert pd.orbit.rotations * pd.orbit.len == pd.orbit.len * pd.orbit.rotations;
    }
  }

  /** Predicate of a table built by `new` from a formula with `base` variables. */
  predicate BuiltDest(pd: PieceDestVars, base: nat) {
    pd.dest == FreshLits(base, pd.orbit.len * pd.orbit.len)
    && pd.rot == FreshLits(base + pd.orbit.len * pd.orbit.len, pd.orbit.len * pd.orbit.rotations)
  }

  /** `dest` is a bijection from pairs below `len` onto the `len * len` destination variables. */
  lemma DestBijection(pd: PieceDestVars, base: nat, s: nat, d: nat)
    requires BuiltDest(pd, base)
    ensures pd.Dest(s, d).Some? <==> s < pd.orbit.len && d < pd.orbit.len
    ensures pd.Dest(s, d).Some? ==> pd.Dest(s, d).value == Lit(base + s * pd.orbit.len + d, true)
  {
    if s < pd.orbit.len && d < pd.orbit.len {
      IndexBelow(s, pd.orbit.len, d, pd.orbit.len);
    }
  }

  /** Different pairs get different destination variables, and every destination variable is some pair's. */
  lemma DestOnto(pd: PieceDestVars, base: nat, i: nat)
    requires BuiltDest(pd, base) && i < pd.orbit.len * pd.orbit.len
    ensures var n := pd.orbit.len;
      n > 0 && i / n < n && i % n < n && pd.Dest(i / n, i % n) == Some(pd.dest[i])
  {
    var n := pd.orbit.len;
    DivBelow(i, n, n);
    assert i == (i / n) * n + i % n;
  }

  lemma DestInjective(pd: PieceDestVars, base: nat, s1: nat, d1: nat, s2: nat, d2: nat)
    requires BuiltDest(pd, base)
    requires pd.Dest(s1, d1).Some? && pd.Dest(s1, d1) == pd.Dest(s2, d2)
    ensures s1 == s2 && d1 == d2
  {
    DestBijection(pd, base, s1, d1);
    DestBijection(pd, base, s2, d2);
    DivModUnique(s1 * pd.orbit.len + d1, pd.orbit.len, s1, d1);
    DivModUnique(s2 * pd.orbit.len + d2, pd.orbit.len, s2, d2);
  }

  /**
   * As written, `rot` stays inside the rotation variables for every valid
   * `(s, r)` exactly when the orbit has at least as many rotations as pieces.
   */
  lemma RotInBounds(pd: PieceDestVars)
    requires DestSized(pd) && pd.orbit.len >= 1 && pd.orbit.rotations >= 1
    ensures (forall s: nat, r: nat :: s < pd.orbit.len && r < pd.orbit.rotations ==> pd.Rot(s, r).Some?)
        <==> pd.orbit.rotations >= pd.orbit.len
  {
    var n := pd.orbit.len;
    var k := pd.orbit.rotations;
    assert |pd.rot| == n * k;
    if k >= n {
      forall s: nat, r: nat | s < n && r < k ensures pd.Rot(s, r).Some? {
        RowInside(n, k, s, r);
      }
    } else {
      LastRowOutside(n, k);
      assert pd.Rot(n - 1, k - 1).None?;
    }
  }

  /** With rows of width `n <= k`, index `s * n + r` stays below `n * k`. */
  lemma RowInside(n: nat, k: nat, s: nat, r: nat)
    requires n <= k && s < n && r < k
    ensures s * n + r < n * k
  {
    assert s * n <= (n - 1) * n;
    assert (n - 1) * n <= (n - 1) * k;
    assert (n - 1) * k + k == n * k;
  }

  /** With rows of width `n > k >= 1`, the last index `(n - 1) * n + k - 1` reaches `n * k`. */
  lemma LastRowOutside(n: nat, k: nat)
    requires 1 <= k < n
    ensures (n - 1) * n + (k - 1) >= n * k
  {
    var m := n - 1;
    var d := n - k;
    assert m * n == m * k + m * d;
    assert m * d >= 1;
    assert n * k == m * k + k;
  }

  /** The corner orbit of a square puzzle (4 pieces, 1 rotation): `rot(1, 0)` is already past the end. */
  lemma RotCornerOutOfBounds(pd: PieceDestVars)
    requires DestSized(pd) && pd.orbit == PieceOrbitInfo(4, 1, 2, 2)
    ensures pd.Rot(0, 0).Some? && pd.Rot(1, 0) == None
  {
  }

  /** Indexing with `rotations`, the rotation variables are a bijection from `(s, r)` pairs. */
  lemma RotFixedBijection(pd: PieceDestVars, base: nat, s: nat, r: nat)
    requires BuiltDest(pd, base)
    ensures pd.RotFixed(s, r).Some? <==> s < pd.orbit.len && r < pd.orbit.rotations
    ensures pd.RotFixed(s, r).Some? ==>
      pd.RotFixed(s, r).value == Lit(base + pd.orbit.len * pd.orbit.len + s * pd.orbit.rotations + r, true)
  {
    if s < pd.orbit.len && r < pd.orbit.rotations {
      IndexBelow(s, pd.orbit.rotations, r, pd.orbit.len);
      assert pd.orbit.rotations * pd.orbit.len == pd.orbit.len * pd.orbit.rotations;
    }
  }

  lemma RotFixedInjective(pd: PieceDestVars, base: nat, s1: nat, r1: nat, s2: nat, r2: nat)
    requires BuiltDest(pd, base)
    requires pd.RotFixed(s1, r1).Some? && pd.RotFixed(s1, r1) == pd.RotFixed(s2, r2)
    ensures s1 == s2 && r1 == r2
  {
    RotFixedBijection(pd, base, s1, r1);
    RotFixedBijection(pd, base, s2, r2);
    DivModUnique(s1 * pd.orbit.rotations + r1, pd.orbit.rotations, s1, r1);
    DivModUnique(s2 * pd.orbit.rotations + r2, pd.orbit.rotations, s2, r2);
  }

  // ---------------------------------------------------------------
  // PieceDestAdjacentVars

  type AdjacencyMap = map<(PieceKeyEdge, PieceKeyEdge), Lit>

  /** The key `(min, max)` that `get` looks up. */
  function Key(a: PieceKeyEdge, b: PieceKeyEdge): (PieceKeyEdge, PieceKeyEdge) {
    (MinEdge(a, b), MaxEdge(a, b))
  }

  /** `get(a, b)`: `None` where the source unwraps a missing entry. */
  function Lookup(m: AdjacencyMap, a: PieceKeyEdge, b: PieceKeyEdge): Option<Lit> {
    if Key(a, b) in m then Some(m[Key(a, b)]) else None
  }

  /** The entries `put` leaves: every key ordered. */
  predicate OrderedKeys(m: AdjacencyMap) {
    forall k :: k in m ==> PieceKeyEdgeLess(k.0, k.1)
  }

  lemma KeySymmetric(a: PieceKeyEdge, b: PieceKeyEdge)
    ensures Key(a, b) == Key(b, a)
  {
    PieceKeyEdgeOrder(a, b, a);
  }

  /** The key of an ordered pair is the pair itself, and only the two orders of it share that key. */
  lemma KeyOfOrdered(a: PieceKeyEdge, b: PieceKeyEdge, c: PieceKeyEdge, d: PieceKeyEdge)
    requires PieceKeyEdgeLess(a, b)
    ensures Key(a, b) == (a, b)
    ensures Key(c, d) == (a, b) <==> (c == a && d == b) || (c == b && d == a)
  {
    PieceKeyEdgeOrder(a, b, a);
    PieceKeyEdgeOrder(c, d, c);
  }

  /** `get` ignores the order of its arguments. */
  lemma LookupSymmetric(m: AdjacencyMap, a: PieceKeyEdge, b: PieceKeyEdge)
    ensures Lookup(m, a, b) == Lookup(m, b, a)
  {
    KeySymmetric(a, b);
  }

  /** After `put(a, b, v)`, `get` finds `v` both ways round and every other pair as before. */
  lemma LookupAfterPut(m: AdjacencyMap, a: PieceKeyEdge, b: PieceKeyEdge, v: Lit, c: PieceKeyEdge, d: PieceKeyEdge)
    requires PieceKeyEdgeLess(a, b)
    ensures Lookup(m[(a, b) := v], a, b) == Some(v) && Lookup(m[(a, b) := v], b, a) == Some(v)
    ensures !((c == a && d == b) || (c == b && d == a)) ==> Lookup(m[(a, b) := v], c, d) == Lookup(m, c, d)
  {
    KeyOfOrdered(a, b, c, d);
    KeyOfOrdered(a, b, b, a);
  }

  /** `PieceDestAdjacentVars`: the adjacency literals, keyed by ordered pairs of piece edges. */
  class PieceDestAdjacentVars {
    var entries: AdjacencyMap

    constructor()
      ensures entries == map[]
    {
      entries := map[];
    }

    /** `put(a, b, var)`: fails unless `a < b` and the pair is new. */
    method Put(a: PieceKeyEdge, b: PieceKeyEdge, v: Lit) returns (ok: bool)
      modifies this
      ensures ok == (PieceKeyEdgeLess(a, b) && (a, b) !in old(entries))
      ensures ok ==> entries == old(entries)[(a, b) := v]
      ensures !ok ==> entries == old(entries)
    {
      if !PieceKeyEdgeLess(a, b) || (a, b) in entries {
        return false;
      }
      entries := entries[(a, b) := v];
      return true;
    }

    /** `get(a, b)`. */
    method Get(a: PieceKeyEdge, b: PieceKeyEdge) returns (r: Option<Lit>)
      ensures r == Lookup(entries, a, b)
    {
      var key := (MinEdge(a, b), MaxEdge(a, b));
      if key in entries {
        r := Some(entries[key]);
      } else {
        r := None;
      }
    }
  }

  /** `put` keeps every key ordered. */
  lemma PutKeepsOrder(m: AdjacencyMap, a: PieceKeyEdge, b: PieceKeyEdge, v: Lit)
    requires OrderedKeys(m) && PieceKeyEdgeLess(a, b)
    ensures OrderedKeys(m[(a, b) := v])
  {
  }
}
