/**
 * The keys and orbit descriptions shared by every puzzle, and the queries a
 * puzzle answers. A piece is named by its orbit (a class of pieces that can
 * trade places) and its index within it; an edge likewise.
 */
module Puzzles {
  import opened Wrappers
  import opened Arith

  datatype PieceKey = PieceKey(orbit: nat, index: nat)

  /** One numbered edge of one piece. */
  datatype PieceKeyEdge = PieceKeyEdge(piece: PieceKey, edge: nat)

  datatype EdgeKey = EdgeKey(orbit: nat, index: nat)

  // ---------------------------------------------------------------
  // The derived orderings: fields compared in declaration order.

  predicate PieceKeyLess(a: PieceKey, b: PieceKey) {
    a.orbit < b.orbit || (a.orbit == b.orbit && a.index < b.index)
  }

  predicate EdgeKeyLess(a: EdgeKey, b: EdgeKey) {
    a.orbit < b.orbit || (a.orbit == b.orbit && a.index < b.index)
  }

  predicate PieceKeyEdgeLess(a: PieceKeyEdge, b: PieceKeyEdge) {
    PieceKeyLess(a.piece, b.piece) || (a.piece == b.piece && a.edge < b.edge)
  }

  /** The `PieceKeyEdge` order is a strict total order. */
  lemma PieceKeyEdgeOrder(a: PieceKeyEdge, b: PieceKeyEdge, c: PieceKeyEdge)
    ensures !PieceKeyEdgeLess(a, a)
    ensures PieceKeyEdgeLess(a, b) && PieceKeyEdgeLess(b, c) ==> PieceKeyEdgeLess(a, c)
    ensures PieceKeyEdgeLess(a, b) || a == b || PieceKeyEdgeLess(b, a)
    ensures !(PieceKeyEdgeLess(a, b) && PieceKeyEdgeLess(b, a))
  {
  }

  /** The `PieceKey` and `EdgeKey` orders are strict total orders. */
  lemma KeyOrders(a: PieceKey, b: PieceKey, c: EdgeKey, d: EdgeKey)
    ensures !PieceKeyLess(a, a) && !EdgeKeyLess(c, c)
    ensures PieceKeyLess(a, b) || a == b || PieceKeyLess(b, a)
    ensures EdgeKeyLess(c, d) || c == d || EdgeKeyLess(d, c)
    ensures !(PieceKeyLess(a, b) && PieceKeyLess(b, a)) && !(EdgeKeyLess(c, d) && EdgeKeyLess(d, c))
  {
  }

  /** `a.min(b)` for piece edges. */
  function MinEdge(a: PieceKeyEdge, b: PieceKeyEdge): (m: PieceKeyEdge)
    ensures m == a || m == b
    ensures !PieceKeyEdgeLess(a, m) && !PieceKeyEdgeLess(b, m)
  {
    if PieceKeyEdgeLess(b, a) then b else a
  }

  /** `a.max(b)` for piece edges. */
  function MaxEdge(a: PieceKeyEdge, b: PieceKeyEdge): (m: PieceKeyEdge)
    ensures m == a || m == b
    ensures !PieceKeyEdgeLess(m, a) && !PieceKeyEdgeLess(m, b)
  {
    if PieceKeyEdgeLess(b, a) then a else b
  }

  // ---------------------------------------------------------------
  // Orbits

  datatype PieceOrbitInfo = PieceOrbitInfo(len: nat, rotations: nat, edges: nat, edgeIncrementPerRotation: nat)

  datatype EdgeOrbitInfo = EdgeOrbitInfo(len: nat)

  /** The documented demands on an orbit: at least one rotation, and edges a multiple of rotations. */
  predicate WellFormed(o: PieceOrbitInfo) {
    o.rotations >= 1 && o.edges % o.rotations == 0
  }

  /** The local edge that edge `e` becomes after `r` rotations. */
  function RotateEdge(o: PieceOrbitInfo, e: nat, r: nat): (e2: nat)
    requires o.edges > 0
    ensures e2 < o.edges
  {
    (e + r * o.edgeIncrementPerRotation) % o.edges
  }

  /** Rotating twice is rotating by the sum. */
  lemma RotateEdgeCompose(o: PieceOrbitInfo, e: nat, r1: nat, r2: nat)
    requires o.edges > 0
    ensures RotateEdge(o, RotateEdge(o, e, r1), r2) == RotateEdge(o, e, r1 + r2)
  {
    var n := o.edges;
    var k := o.edgeIncrementPerRotation;
    var x := e + r1 * k;
    ModAddMod(x, r2 * k, n);
    assert x + r2 * k == e + (r1 + r2) * k;
  }

  /** A full turn gives every edge back when `rotations * edge_increment_per_rotation` is a multiple of `edges`. */
  lemma RotateEdgeFullTurn(o: PieceOrbitInfo, e: nat)
    requires o.edges > 0 && e < o.edges
    requires (o.rotations * o.edgeIncrementPerRotation) % o.edges == 0
    ensures RotateEdge(o, e, o.rotations) == e
  {
    var m := o.rotations * o.edgeIncrementPerRotation;
    ModAddMod(m, e, o.edges);
  }

  // ---------------------------------------------------------------
  // The queries a puzzle answers

  /**
   * What a puzzle tells the encoder: its piece orbits and edge orbits (with
   * their counts), where each piece edge lies, which piece edge is across it,
   * and the two piece edges on each side of an edge. `None` is a panic.
   */
  datatype Puzzle = Puzzle(
    pieceOrbits: seq<PieceOrbitInfo>,
    edgeOrbits: seq<EdgeOrbitInfo>,
    pieceEdge: (PieceKey, nat) -> Option<EdgeKey>,
    pieceNeighbor: (PieceKey, nat) -> Option<PieceKeyEdge>,
    edgePieces: EdgeKey -> Option<(PieceKeyEdge, PieceKeyEdge)>)
}
