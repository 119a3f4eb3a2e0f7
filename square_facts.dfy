/**
 * What the square puzzle's index arithmetic guarantees: the orbits cover the
 * grid, keys and cells correspond one to one, local edges that exist point
 * into the grid, crossing an edge twice comes back, and the two sides of every
 * edge see each other. Beside them, the inputs on which the code as written
 * departs from this.
 */
module SquareFacts {
  import opened Wrappers
  import opened Arith
  import opened Puzzles
  import opened Square

  predicate InGrid(p: SquarePuzzle, loc: PieceLoc) {
    loc.row < p.rows && loc.col < p.cols
  }

  /** The orbit a cell belongs to: 0 a corner, 1 another border cell, 2 an interior cell. */
  function CellOrbit(p: SquarePuzzle, loc: PieceLoc): nat
    requires p.Valid()
  {
    var vert := loc.row == 0 || loc.row == p.LastRow();
    var horz := loc.col == 0 || loc.col == p.LastCol();
    if vert && horz then 0 else if vert || horz then 1 else 2
  }

  /** A key of one of the three orbits, below that orbit's length. */
  predicate ValidPieceKey(p: SquarePuzzle, k: PieceKey)
    requires p.Valid()
  {
    k.orbit < 3 && k.index < p.PieceOrbit(k.orbit).value.len
  }

  /** How many local edges pieces of orbit `o` have. */
  function EdgeCount(p: SquarePuzzle, o: nat): nat
    requires p.Valid() && o < 3
  {
    p.PieceOrbit(o).value.edges
  }

  // ---------------------------------------------------------------
  // Orbits

  /** The three piece orbits partition the grid; each is well formed and a full turn is the identity. */
  lemma PieceOrbitsCover(p: SquarePuzzle)
    requires p.Valid()
    ensures p.PieceOrbit(0).value.len + p.PieceOrbit(1).value.len + p.PieceOrbit(2).value.len == p.rows * p.cols
    ensures forall o :: 0 <= o < 3 ==> WellFormed(p.PieceOrbit(o).value)
    ensures forall o :: 0 <= o < 3 ==>
      var info := p.PieceOrbit(o).value; info.edges > 0 && (info.rotations * info.edgeIncrementPerRotation) % info.edges == 0
    ensures p.PieceOrbit(3) == None
  {
    var u := p.UpEdgePieces();
    var l := p.LeftEdgePieces();
    assert p.rows * p.cols == (l + 2) * (u + 2);
  }

  /** With the corrected interior count, the two edge orbits hold every edge of the grid. */
  lemma EdgeOrbitsCover(p: SquarePuzzle)
    requires p.Valid()
    ensures p.EdgeOrbitFixed(0).value.len + p.EdgeOrbitFixed(1).value.len
         == p.rows * (p.cols - 1) + (p.rows - 1) * p.cols
  {
    var l := p.LeftEdgePieces();
    var u := p.UpEdgePieces();
    assert p.VertInnerEdges() == (p.rows - 2) * (p.cols - 1);
    assert p.HorzInnerEdges() == (p.cols - 2) * (p.rows - 1);
  }

  /** As written, the interior count is a product: too many edges on 4x4, too few on 2x3, right on 3x3. */
  lemma InnerOrbitProduct()
    ensures SquarePuzzle(4, 4).EdgeOrbit(1) == Some(EdgeOrbitInfo(36))
    ensures SquarePuzzle(4, 4).EdgeOrbitFixed(1) == Some(EdgeOrbitInfo(12))
    ensures SquarePuzzle(2, 3).EdgeOrbit(1) == Some(EdgeOrbitInfo(0))
    ensures SquarePuzzle(2, 3).EdgeOrbitFixed(1) == Some(EdgeOrbitInfo(1))
    ensures SquarePuzzle(3, 3).EdgeOrbit(1) == SquarePuzzle(3, 3).EdgeOrbitFixed(1)
  {
  }

  // ---------------------------------------------------------------
  // Piece keys and cells

  /**
   * Every valid key sits on a cell of its own orbit: corners `0..3` at the
   * top-left, top-right, bottom-left and bottom-right with rotations 1, 2, 0
   * and 3, border keys on border cells, interior keys on interior cells with
   * rotation 0.
   */
  lemma LocRotPlaces(p: SquarePuzzle, k: PieceKey)
    requires p.Valid() && ValidPieceKey(p, k)
    ensures p.LocRot(k).Some? && p.LocRotFixed(k) == p.LocRot(k)
    ensures var lr := p.LocRot(k).value;
      InGrid(p, lr.loc) && CellOrbit(p, lr.loc) == k.orbit && lr.implicitRotation < 4
      && (k.orbit == 0 ==> lr == [PieceLocRot(PieceLoc(0, 0), 1), PieceLocRot(PieceLoc(0, p.cols - 1), 2),
                                  PieceLocRot(PieceLoc(p.rows - 1, 0), 0),
                                  PieceLocRot(PieceLoc(p.rows - 1, p.cols - 1), 3)][k.index])
      && (k.orbit == 2 ==> lr.implicitRotation == 0)
  {
    if k.orbit == 2 {
      DivBelow(k.index, p.UpEdgePieces(), p.LeftEdgePieces());
    }
  }

  /** The corrected `piece_loc_rot` accepts exactly the valid keys. */
  lemma LocRotFixedDomain(p: SquarePuzzle, k: PieceKey)
    requires p.Valid()
    ensures p.LocRotFixed(k).Some? <==> ValidPieceKey(p, k)
  {
    if ValidPieceKey(p, k) { LocRotPlaces(p, k); }
  }

  /**
   * As written, `piece_loc_rot` also accepts the interior index equal to the
   * orbit's length, and places it on a border cell of the bottom row.
   */
  lemma CenterBoundAccepts(p: SquarePuzzle)
    requires p.Valid() && p.cols > 2
    ensures var k := PieceKey(2, p.UpEdgePieces() * p.LeftEdgePieces());
      !ValidPieceKey(p, k) && p.LocRotFixed(k) == None
      && p.LocRot(k) == Some(PieceLocRot(PieceLoc(p.rows - 1, 1), 0))
      && CellOrbit(p, PieceLoc(p.rows - 1, 1)) == 1
  {
    var u := p.UpEdgePieces();
    var l := p.LeftEdgePieces();
    DivModUnique(u * l, u, l, 0);
  }

  /** Crossing from a valid key to its cell and back through `piece_key_edge` gives the key and local edge again. */
  lemma KeyEdgeRoundTrip(p: SquarePuzzle, k: PieceKey, e: nat)
    requires p.Valid() && ValidPieceKey(p, k) && e < 4
    ensures p.LocRot(k).Some?
    ensures var lr := p.LocRot(k).value;
      p.KeyEdgeAt(lr.loc, (e + lr.implicitRotation) % 4) == PieceKeyEdge(k, e)
  {
    LocRotPlaces(p, k);
    if k.orbit == 2 {
      var u := p.UpEdgePieces();
      assert k.index == (k.index / u) * u + k.index % u;
    }
  }

  /** Every cell and grid direction names a valid key whose cell is that cell and whose local edge faces that direction. */
  lemma CellRoundTrip(p: SquarePuzzle, loc: PieceLoc, d: nat)
    requires p.Valid() && InGrid(p, loc) && d < 4
    ensures var ke := p.KeyEdgeAt(loc, d);
      ValidPieceKey(p, ke.piece) && ke.edge < 4 && ke.piece.orbit == CellOrbit(p, loc)
      && p.LocRotFixed(ke.piece).Some? && p.LocRotFixed(ke.piece).value.loc == loc
      && (ke.edge + p.LocRotFixed(ke.piece).value.implicitRotation) % 4 == d
  {
    var u := p.UpEdgePieces();
    var l := p.LeftEdgePieces();
    if 0 < loc.row < p.LastRow() && 0 < loc.col < p.LastCol() {
      var i := (loc.row - 1) * u + loc.col - 1;
      IndexBelow(loc.row - 1, u, loc.col - 1, l);
      DivModUnique(i, u, loc.row - 1, loc.col - 1);
    }
  }

  // ---------------------------------------------------------------
  // Directions and neighbours

  /** Stepping to a neighbour and back in the opposite direction returns, across the same edge. */
  lemma TowardBack(loc: PieceLoc, d: nat)
    requires d < 4 && Toward(loc, d).Some?
    ensures Toward(Toward(loc, d).value, Opposite(d)) == Some(loc)
    ensures EdgeToward(loc, d).Some?
    ensures EdgeToward(Toward(loc, d).value, Opposite(d)) == EdgeToward(loc, d)
  {
  }

  /**
   * For a valid key, local edge `e < 4` exists on the piece (is below its
   * orbit's edge count) exactly when its direction leads to a cell of the grid.
   * So the up and left helpers never underflow on an existing edge.
   */
  lemma DirectionInside(p: SquarePuzzle, k: PieceKey, e: nat)
    requires p.Valid() && ValidPieceKey(p, k) && e < 4
    ensures p.LocRotFixed(k).Some?
    ensures var lr := p.LocRotFixed(k).value;
      var d := (e + lr.implicitRotation) % 4;
      (e < EdgeCount(p, k.orbit)) <==> (Toward(lr.loc, d).Some? && InGrid(p, Toward(lr.loc, d).value))
  {
    LocRotPlaces(p, k);
  }

  /**
   * `piece_neighbor` is an involution on the edges pieces have, and both
   * sides of a piece edge report the same `piece_edge`.
   */
  lemma NeighborInvolution(p: SquarePuzzle, k: PieceKey, e: nat)
    requires p.Valid() && ValidPieceKey(p, k) && e < EdgeCount(p, k.orbit)
    ensures p.PieceNeighbor(k, e).Some? && p.PieceEdge(k, e).Some?
    ensures var n := p.PieceNeighbor(k, e).value;
      ValidPieceKey(p, n.piece) && n.edge < EdgeCount(p, n.piece.orbit)
      && p.PieceNeighbor(n.piece, n.edge) == Some(PieceKeyEdge(k, e))
      && p.PieceEdge(n.piece, n.edge) == p.PieceEdge(k, e)
  {
    LocRotPlaces(p, k);
    DirectionInside(p, k, e);
    var lr := p.LocRotFixed(k).value;
    var d := (e + lr.implicitRotation) % 4;
    var nloc := Toward(lr.loc, d).value;
    var n := p.KeyEdgeAt(nloc, Opposite(d));
    var ek := p.EdgeKeyOf(EdgeToward(lr.loc, d).value);
    TowardBack(lr.loc, d);
    assert p.PieceNeighbor(k, e) == Some(n) && p.PieceEdge(k, e) == Some(ek) by {
      Located(p, k, e, lr.loc, d);
    }
    CellRoundTrip(p, nloc, Opposite(d));
    assert n.edge < EdgeCount(p, n.piece.orbit) by {
      DirectionInside(p, n.piece, n.edge);
    }
    assert p.PieceNeighbor(n.piece, n.edge) == Some(PieceKeyEdge(k, e)) && p.PieceEdge(n.piece, n.edge) == Some(ek) by {
      Located(p, n.piece, n.edge, nloc, Opposite(d));
      KeyEdgeRoundTrip(p, k, e);
    }
  }

  /** `piece_neighbor` and `piece_edge` of a key located at `loc` whose local edge faces `d`. */
  lemma Located(p: SquarePuzzle, k: PieceKey, e: nat, loc: PieceLoc, d: nat)
    requires p.Valid() && d < 4 && p.LocRotFixed(k).Some? && p.LocRotFixed(k).value.loc == loc
    requires (e + p.LocRotFixed(k).value.implicitRotation) % 4 == d
    ensures p.PieceNeighbor(k, e) == if Toward(loc, d).Some? then Some(p.KeyEdgeAt(Toward(loc, d).value, Opposite(d))) else None
    ensures p.PieceEdge(k, e) == if EdgeToward(loc, d).Some? then Some(p.EdgeKeyOf(EdgeToward(loc, d).value)) else None
  {
  }

  // ---------------------------------------------------------------
  // Edge keys and edge locations

  /** A key of one of the two edge orbits, below that orbit's corrected length. */
  predicate ValidEdgeKey(p: SquarePuzzle, k: EdgeKey)
    requires p.Valid()
  {
    k.orbit < 2 && k.index < p.EdgeOrbitFixed(k.orbit).value.len
  }

  /** An edge between two cells of the grid. */
  predicate EdgeInGrid(p: SquarePuzzle, el: EdgeLoc) {
    match el.side
    case Right => el.loc.row < p.rows && el.loc.col + 1 < p.cols
    case Down => el.loc.row + 1 < p.rows && el.loc.col < p.cols
  }

  /** The corrected `edge_loc` accepts exactly the valid keys, places them inside the grid, and `edge_key` inverts it. */
  lemma EdgeLocFixedRoundTrip(p: SquarePuzzle, k: EdgeKey)
    requires p.Valid()
    ensures p.EdgeLocFixed(k).Some? <==> ValidEdgeKey(p, k)
    ensures p.EdgeLocFixed(k).Some? ==> EdgeInGrid(p, p.EdgeLocFixed(k).value) && p.EdgeKeyOf(p.EdgeLocFixed(k).value) == k
  {
    if k.orbit == 1 && k.index < p.VertInnerEdges() {
      VertInnerRoundTrip(p, k.index);
    } else if k.orbit == 1 && k.index - p.VertInnerEdges() < p.HorzInnerEdges() {
      HorzInnerRoundTrip(p, k.index - p.VertInnerEdges());
    }
  }

  lemma VertInnerRoundTrip(p: SquarePuzzle, i: nat)
    requires p.Valid() && i < p.VertInnerEdges()
    ensures var el := p.EdgeLocFixed(EdgeKey(1, i));
      el.Some? && EdgeInGrid(p, el.value) && p.EdgeKeyOf(el.value) == EdgeKey(1, i)
  {
    var ou := p.UpOuterEdges();
    DivBelow(i, ou, p.LeftEdgePieces());
    assert i == (i / ou) * ou + i % ou;
  }

  lemma HorzInnerRoundTrip(p: SquarePuzzle, j: nat)
    requires p.Valid() && j < p.HorzInnerEdges()
    ensures var el := p.EdgeLocFixed(EdgeKey(1, p.VertInnerEdges() + j));
      el.Some? && EdgeInGrid(p, el.value) && p.EdgeKeyOf(el.value) == EdgeKey(1, p.VertInnerEdges() + j)
  {
    var u := p.UpEdgePieces();
    DivBelow(j, u, p.LeftOuterEdges());
    assert j == (j / u) * u + j % u;
  }

  /** Every edge of the grid has a valid key, and the corrected `edge_loc` of that key is the edge. */
  lemma EdgeKeyRoundTrip(p: SquarePuzzle, el: EdgeLoc)
    requires p.Valid() && EdgeInGrid(p, el)
    ensures ValidEdgeKey(p, p.EdgeKeyOf(el)) && p.EdgeLocFixed(p.EdgeKeyOf(el)) == Some(el)
  {
    var loc := el.loc;
    var ou := p.UpOuterEdges();
    var u := p.UpEdgePieces();
    var v := p.VertInnerEdges();
    match el.side
    case Right =>
      if 0 < loc.row < p.LastRow() {
        var i := (loc.row - 1) * ou + loc.col;
        IndexBelow(loc.row - 1, ou, loc.col, p.LeftEdgePieces());
        DivModUnique(i, ou, loc.row - 1, loc.col);
        assert i < v;
      }
    case Down =>
      if 0 < loc.col < p.LastCol() {
        var j := loc.row * u + (loc.col - 1);
        IndexBelow(loc.row, u, loc.col - 1, p.LeftOuterEdges());
        DivModUnique(j, u, loc.row, loc.col - 1);
        assert v + j - v == j;
      }
  }

  /** As written, `edge_loc` accepts the same keys and agrees on border edges and on vertical interior edges. */
  lemma EdgeLocAgrees(p: SquarePuzzle, k: EdgeKey)
    requires p.Valid()
    ensures p.EdgeLocOf(k).Some? <==> p.EdgeLocFixed(k).Some?
    ensures k.orbit == 0 || (k.orbit == 1 && k.index < p.VertInnerEdges()) ==> p.EdgeLocOf(k) == p.EdgeLocFixed(k)
  {
  }

  /** As written, the first horizontal interior edge of a 3x3 puzzle is placed on the border and maps back to border edge 1. */
  lemma HorzInnerEdgeMisplaced()
    ensures SquarePuzzle(3, 3).EdgeLocOf(EdgeKey(1, 2)) == Some(EdgeLoc(PieceLoc(0, 1), Right))
    ensures SquarePuzzle(3, 3).EdgeKeyOf(EdgeLoc(PieceLoc(0, 1), Right)) == EdgeKey(0, 1)
    ensures SquarePuzzle(3, 3).EdgeLocFixed(EdgeKey(1, 2)) == Some(EdgeLoc(PieceLoc(0, 1), Down))
    ensures ValidEdgeKey(SquarePuzzle(3, 3), EdgeKey(1, 2))
  {
  }

  // ---------------------------------------------------------------
  // The two sides of an edge

  /**
   * `edge_pieces` of a valid edge key gives two distinct existing piece edges
   * that are each other's `piece_neighbor` and whose `piece_edge` is the key.
   */
  lemma EdgePiecesMeet(p: SquarePuzzle, k: EdgeKey)
    requires p.Valid() && ValidEdgeKey(p, k)
    ensures p.EdgePieces(k).Some?
    ensures var (a, b) := p.EdgePieces(k).value;
      ValidPieceKey(p, a.piece) && a.edge < EdgeCount(p, a.piece.orbit)
      && ValidPieceKey(p, b.piece) && b.edge < EdgeCount(p, b.piece.orbit)
      && p.PieceNeighbor(a.piece, a.edge) == Some(b) && p.PieceNeighbor(b.piece, b.edge) == Some(a)
      && p.PieceEdge(a.piece, a.edge) == Some(k) && p.PieceEdge(b.piece, b.edge) == Some(k)
      && a != b
  {
    EdgeLocFixedRoundTrip(p, k);
    var el := p.EdgeLocFixed(k).value;
    var loc := el.loc;
    var dir := if el.side == Right then 1 else 2;
    var other := Toward(loc, dir).value;
    var a := p.KeyEdgeAt(loc, dir);
    var b := p.KeyEdgeAt(other, Opposite(dir));
    assert p.EdgePieces(k) == Some((a, b));
    assert InGrid(p, loc) && InGrid(p, other);
    CellRoundTrip(p, loc, dir);
    CellRoundTrip(p, other, Opposite(dir));
    TowardBack(loc, dir);
    DirectionInside(p, a.piece, a.edge);
    DirectionInside(p, b.piece, b.edge);
    Located(p, a.piece, a.edge, loc, dir);
    Located(p, b.piece, b.edge, other, Opposite(dir));
    assert EdgeToward(loc, dir) == Some(el);
  }

  // ---------------------------------------------------------------
  // The functions as written

  /** On every valid piece key, `piece_edge` and `piece_neighbor` as written agree with the corrected ones. */
  lemma PieceFunctionsAgree(p: SquarePuzzle, k: PieceKey, e: nat)
    requires p.Valid() && ValidPieceKey(p, k)
    ensures p.PieceEdgeAsWritten(k, e) == p.PieceEdge(k, e)
    ensures p.PieceNeighborAsWritten(k, e) == p.PieceNeighbor(k, e)
  {
    LocRotPlaces(p, k);
  }

  /**
   * As written, the interior index equal to the orbit's length is accepted by
   * `piece_edge` and `piece_neighbor`: its up edge is the edge above the
   * bottom-row cell `(rows - 1, 1)`, where the corrected functions give nothing.
   */
  lemma CenterKeyAsWritten(p: SquarePuzzle)
    requires p.Valid() && p.cols > 2
    ensures var k := PieceKey(2, p.UpEdgePieces() * p.LeftEdgePieces());
      var above := PieceLoc(p.rows - 2, 1);
      p.PieceEdgeAsWritten(k, 0) == Some(p.EdgeKeyOf(EdgeLoc(above, Down)))
      && p.PieceNeighborAsWritten(k, 0) == Some(p.KeyEdgeAt(above, 2))
      && p.PieceEdge(k, 0) == None && p.PieceNeighbor(k, 0) == None
  {
    CenterBoundAccepts(p);
  }

  /** `edge_loc` as written places every valid key on an edge of the grid. */
  lemma EdgeLocInGrid(p: SquarePuzzle, k: EdgeKey)
    requires p.Valid() && ValidEdgeKey(p, k)
    ensures p.EdgeLocOf(k).Some? && EdgeInGrid(p, p.EdgeLocOf(k).value)
  {
    EdgeLocFixedRoundTrip(p, k);
    EdgeLocAgrees(p, k);
    var v := p.VertInnerEdges();
    if k.orbit == 1 && k.index >= v {
      var j := k.index - v;
      DivBelow(j, p.UpEdgePieces(), p.LeftOuterEdges());
    }
  }

  /**
   * `edge_pieces` as written, on a valid edge key: two distinct existing piece
   * edges that are each other's `piece_neighbor` and report the same
   * `piece_edge`; that edge is the key itself exactly when the key is a border
   * edge or a vertical interior edge. On a horizontal interior edge the pair
   * is the one across a different (vertical) edge.
   */
  lemma EdgePiecesMeetAsWritten(p: SquarePuzzle, k: EdgeKey)
    requires p.Valid() && ValidEdgeKey(p, k)
    ensures p.EdgePiecesAsWritten(k).Some?
    ensures var (a, b) := p.EdgePiecesAsWritten(k).value;
      ValidPieceKey(p, a.piece) && a.edge < EdgeCount(p, a.piece.orbit)
      && ValidPieceKey(p, b.piece) && b.edge < EdgeCount(p, b.piece.orbit)
      && p.PieceNeighborAsWritten(a.piece, a.edge) == Some(b) && p.PieceNeighborAsWritten(b.piece, b.edge) == Some(a)
      && p.PieceEdgeAsWritten(a.piece, a.edge) == p.PieceEdgeAsWritten(b.piece, b.edge)
      && a != b
      && (p.PieceEdgeAsWritten(a.piece, a.edge) == Some(k) <==> k.orbit == 0 || k.index < p.VertInnerEdges())
  {
    EdgeLocInGrid(p, k);
    var el := p.EdgeLocOf(k).value;
    var k2 := p.EdgeKeyOf(el);
    EdgeKeyRoundTrip(p, el);
    EdgePiecesMeet(p, k2);
    assert p.EdgePiecesAsWritten(k) == p.EdgePieces(k2);
    var (a, b) := p.EdgePieces(k2).value;
    PieceFunctionsAgree(p, a.piece, a.edge);
    PieceFunctionsAgree(p, b.piece, b.edge);
    EdgeLocAgrees(p, k);
    EdgeLocFixedRoundTrip(p, k);
    if k.orbit == 0 || k.index < p.VertInnerEdges() {
      assert k2 == k;
    } else {
      assert p.EdgeLocFixed(k).value.side == Down;
      assert p.EdgeLocFixed(k2) == Some(el) && el.side == Right;
      assert k2 != k;
    }
  }

  /** The 3x3 instance: as written, the pair for horizontal interior edge `(1, 2)` lies across border edge `(0, 1)`. */
  lemma HorzInnerPairAsWritten()
    ensures var p := SquarePuzzle(3, 3);
      p.EdgePiecesAsWritten(EdgeKey(1, 2)).Some?
      && var (a, b) := p.EdgePiecesAsWritten(EdgeKey(1, 2)).value;
         p.PieceEdgeAsWritten(a.piece, a.edge) == Some(EdgeKey(0, 1))
  {
    var p := SquarePuzzle(3, 3);
    HorzInnerEdgeMisplaced();
    EdgePiecesMeetAsWritten(p, EdgeKey(1, 2));
    EdgeKeyRoundTrip(p, EdgeLoc(PieceLoc(0, 1), Right));
    EdgePiecesMeet(p, EdgeKey(0, 1));
    var (a, b) := p.EdgePieces(EdgeKey(0, 1)).value;
    PieceFunctionsAgree(p, a.piece, a.edge);
  }
}
