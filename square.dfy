/**
 * The rectangular jigsaw of `rows` by `cols` pieces. Pieces fall into three
 * orbits (0 corners, 1 border pieces, 2 interior pieces) and edges into two
 * (0 the edges along the border, 1 the interior edges). Grid directions are
 * numbered 0 up, 1 right, 2 down, 3 left; a piece's local edge `e` points in
 * direction `(e + implicit_rotation) % 4`. Every edge is named by the cell it
 * lies to the right of or below.
 *
 * A usize subtraction below zero, a division by zero and an explicit panic
 * all become `None`.
 */
module Square {
  import opened Wrappers
  import opened Puzzles

  datatype EdgeSide = Right | Down

  datatype EdgeLoc = EdgeLoc(loc: PieceLoc, side: EdgeSide)

  /** A grid cell. */
  datatype PieceLoc = PieceLoc(row: nat, col: nat) {
    /** The edge above: the Down side of the cell above. */
    function UpEdge(): Option<EdgeLoc> {
      if row == 0 then None else Some(EdgeLoc(PieceLoc(row - 1, col), Down))
    }

    function RightEdge(): EdgeLoc { EdgeLoc(this, Right) }

    function DownEdge(): EdgeLoc { EdgeLoc(this, Down) }

    /** The edge to the left: the Right side of the cell to the left. */
    function LeftEdge(): Option<EdgeLoc> {
      if col == 0 then None else Some(EdgeLoc(PieceLoc(row, col - 1), Right))
    }

    function UpPiece(): Option<PieceLoc> {
      if row == 0 then None else Some(PieceLoc(row - 1, col))
    }

    function RightPiece(): PieceLoc { PieceLoc(row, col + 1) }

    function DownPiece(): PieceLoc { PieceLoc(row + 1, col) }

    function LeftPiece(): Option<PieceLoc> {
      if col == 0 then None else Some(PieceLoc(row, col - 1))
    }
  }

  /** A cell together with the rotation that turns local edge numbers into grid directions. */
  datatype PieceLocRot = PieceLocRot(loc: PieceLoc, implicitRotation: nat)

  /** The edge of `loc` in grid direction `d`. */
  function EdgeToward(loc: PieceLoc, d: nat): Option<EdgeLoc>
    requires d < 4
  {
    if d == 0 then loc.UpEdge()
    else if d == 1 then Some(loc.RightEdge())
    else if d == 2 then Some(loc.DownEdge())
    else loc.LeftEdge()
  }

  /** The cell next to `loc` in grid direction `d`. */
  function Toward(loc: PieceLoc, d: nat): Option<PieceLoc>
    requires d < 4
  {
    if d == 0 then loc.UpPiece()
    else if d == 1 then Some(loc.RightPiece())
    else if d == 2 then Some(loc.DownPiece())
    else loc.LeftPiece()
  }

  /** The direction back: the neighbour's edge that faces `loc`. */
  function Opposite(d: nat): (o: nat)
    requires d < 4
    ensures o < 4 && o != d && (o + 2) % 4 == d
  {
    (d + 2) % 4
  }

  /** `SquarePuzzle::new`: `None` where its assertions fail. */
  function New(rows: nat, cols: nat): (p: Option<SquarePuzzle>)
    ensures p.Some? <==> rows >= 2 && cols >= 2
    ensures p.Some? ==> p.value.rows == rows && p.value.cols == cols && p.value.Valid()
  {
    if rows >= 2 && cols >= 2 then Some(SquarePuzzle(rows, cols)) else None
  }

  datatype SquarePuzzle = SquarePuzzle(rows: nat, cols: nat) {
    /** What `new` guarantees of every puzzle it returns. */
    predicate Valid() { rows >= 2 && cols >= 2 }

    /** Border pieces along the top (and along the bottom). */
    function UpEdgePieces(): nat requires Valid() { cols - 2 }

    /** Border pieces along the left side (and along the right). */
    function LeftEdgePieces(): nat requires Valid() { rows - 2 }

    /** Border edges along the top (and along the bottom). */
    function UpOuterEdges(): nat requires Valid() { cols - 1 }

    /** Border edges along the left side (and along the right). */
    function LeftOuterEdges(): nat requires Valid() { rows - 1 }

    /** Interior edges between horizontally adjacent cells. */
    function VertInnerEdges(): nat requires Valid() { LeftEdgePieces() * UpOuterEdges() }

    /** Interior edges between vertically adjacent cells. */
    function HorzInnerEdges(): nat requires Valid() { UpEdgePieces() * LeftOuterEdges() }

    function LastCol(): nat requires Valid() { cols - 1 }

    function LastRow(): nat requires Valid() { rows - 1 }

    /** `piece_loc_rot`: where a piece key sits, and its implicit rotation. */
    function LocRot(k: PieceKey): Option<PieceLocRot>
      requires Valid()
    {
      var u := UpEdgePieces();
      var l := LeftEdgePieces();
      if k.orbit == 0 then
        if k.index == 0 then Some(PieceLocRot(PieceLoc(0, 0), 1))
        else if k.index == 1 then Some(PieceLocRot(PieceLoc(0, LastCol()), 2))
        else if k.index == 2 then Some(PieceLocRot(PieceLoc(LastRow(), 0), 0))
        else if k.index == 3 then Some(PieceLocRot(PieceLoc(LastRow(), LastCol()), 3))
        else None
      else if k.orbit == 1 then
        var i := k.index;
        if i < u then Some(PieceLocRot(PieceLoc(0, 1 + i), 1))
        else if i - u < u then Some(PieceLocRot(PieceLoc(LastRow(), 1 + (i - u)), 3))
        else if i - 2 * u < l then Some(PieceLocRot(PieceLoc(1 + (i - 2 * u), 0), 0))
        else if i - 2 * u - l < l then Some(PieceLocRot(PieceLoc(1 + (i - 2 * u - l), LastCol()), 2))
        else None
      else if k.orbit == 2 then
        if k.index > u * l then None
        else if u == 0 then None
        else Some(PieceLocRot(PieceLoc(1 + k.index / u, 1 + k.index % u), 0))
      else None
    }

    /** `piece_loc_rot` with the interior bound `index >= len` rejected. */
    function LocRotFixed(k: PieceKey): Option<PieceLocRot>
      requires Valid()
    {
      if k.orbit == 2 && k.index >= UpEdgePieces() * LeftEdgePieces() then None else LocRot(k)
    }

    /** `piece_key_edge`: the piece key at a cell, and the local edge facing grid direction `edge`. */
    function KeyEdgeAt(piece: PieceLoc, edge: nat): PieceKeyEdge
      requires Valid()
    {
      if piece.row == 0 then
        if piece.col == 0 then PieceKeyEdge(PieceKey(0, 0), (edge + 3) % 4)
        else if piece.col == LastCol() then PieceKeyEdge(PieceKey(0, 1), (edge + 2) % 4)
        else PieceKeyEdge(PieceKey(1, piece.col - 1), (edge + 3) % 4)
      else if piece.row == LastRow() then
        if piece.col == 0 then PieceKeyEdge(PieceKey(0, 2), edge)
        else if piece.col == LastCol() then PieceKeyEdge(PieceKey(0, 3), (edge + 1) % 4)
        else PieceKeyEdge(PieceKey(1, UpEdgePieces() + piece.col - 1), (edge + 1) % 4)
      else
        if piece.col == 0 then PieceKeyEdge(PieceKey(1, UpEdgePieces() * 2 + piece.row - 1), edge)
        else if piece.col == LastCol() then
          PieceKeyEdge(PieceKey(1, UpEdgePieces() * 2 + LeftEdgePieces() + piece.row - 1), (edge + 2) % 4)
        else PieceKeyEdge(PieceKey(2, (piece.row - 1) * UpEdgePieces() + piece.col - 1), edge)
    }

    /** `edge_loc`: where an edge key lies. */
    function EdgeLocOf(k: EdgeKey): Option<EdgeLoc>
      requires Valid()
    {
      var ou := UpOuterEdges();
      var ol := LeftOuterEdges();
      if k.orbit == 0 then
        var i := k.index;
        if i < ou then Some(EdgeLoc(PieceLoc(0, i), Right))
        else if i - ou < ou then Some(EdgeLoc(PieceLoc(LastRow(), i - ou), Right))
        else if i - 2 * ou < ol then Some(EdgeLoc(PieceLoc(i - 2 * ou, 0), Down))
        else if i - 2 * ou - ol < ol then Some(EdgeLoc(PieceLoc(i - 2 * ou - ol, LastCol()), Down))
        else None
      else if k.orbit == 1 then
        var i := k.index;
        var v := VertInnerEdges();
        if i < v then Some(EdgeLoc(PieceLoc(1 + i / ou, i % ou), Right))
        else if i - v < HorzInnerEdges() then
          var j := i - v;
          Some(EdgeLoc(PieceLoc(j / UpEdgePieces(), 1 + j % UpEdgePieces()), Right))
        else None
      else None
    }

    /** `edge_loc` with the horizontal interior edges built as `Down` edges. */
    function EdgeLocFixed(k: EdgeKey): Option<EdgeLoc>
      requires Valid()
    {
      var v := VertInnerEdges();
      if k.orbit == 1 && v <= k.index && k.index - v < HorzInnerEdges() then
        var j := k.index - v;
        Some(EdgeLoc(PieceLoc(j / UpEdgePieces(), 1 + j % UpEdgePieces()), Down))
      else EdgeLocOf(k)
    }

    /** `edge_key`: the key of the edge at a location. */
    function EdgeKeyOf(edge: EdgeLoc): EdgeKey
      requires Valid()
    {
      var loc := edge.loc;
      match edge.side
      case Right =>
        if loc.row == 0 then EdgeKey(0, loc.col)
        else if loc.row == LastRow() then EdgeKey(0, UpOuterEdges() + loc.col)
        else EdgeKey(1, (loc.row - 1) * UpOuterEdges() + loc.col)
      case Down =>
        if loc.col == 0 then EdgeKey(0, UpOuterEdges() * 2 + loc.row)
        else if loc.col == LastCol() then EdgeKey(0, UpOuterEdges() * 2 + LeftOuterEdges() + loc.row)
        else EdgeKey(1, VertInnerEdges() + loc.row * UpEdgePieces() + (loc.col - 1))
    }

    /** `piece_orbit`: corners, border pieces, interior pieces. */
    function PieceOrbit(orbit: nat): Option<PieceOrbitInfo>
      requires Valid()
    {
      if orbit == 0 then Some(PieceOrbitInfo(4, 1, 2, 2))
      else if orbit == 1 then Some(PieceOrbitInfo((UpEdgePieces() + LeftEdgePieces()) * 2, 1, 3, 3))
      else if orbit == 2 then Some(PieceOrbitInfo(UpEdgePieces() * LeftEdgePieces(), 4, 4, 1))
      else None
    }

    /** `edge_orbit`: border edges, interior edges (the interior count a product, as written). */
    function EdgeOrbit(orbit: nat): Option<EdgeOrbitInfo>
      requires Valid()
    {
      if orbit == 0 then Some(EdgeOrbitInfo((UpOuterEdges() + LeftOuterEdges()) * 2))
      else if orbit == 1 then Some(EdgeOrbitInfo(VertInnerEdges() * HorzInnerEdges()))
      else None
    }

    /** `edge_orbit` with the interior count the sum of vertical and horizontal edges. */
    function EdgeOrbitFixed(orbit: nat): Option<EdgeOrbitInfo>
      requires Valid()
    {
      if orbit == 1 then Some(EdgeOrbitInfo(VertInnerEdges() + HorzInnerEdges())) else EdgeOrbit(orbit)
    }

    /** The edge key under local edge `edge` of a piece placed at `lr`, if it was placed. */
    function EdgeOfPlaced(lr: Option<PieceLocRot>, edge: nat): Option<EdgeKey>
      requires Valid()
    {
      match lr
      case None => None
      case Some(lr) =>
        match EdgeToward(lr.loc, (edge + lr.implicitRotation) % 4)
        case None => None
        case Some(e) => Some(EdgeKeyOf(e))
    }

    /** The piece edge across local edge `edge` of a piece placed at `lr`, if it was placed. */
    function NeighborOfPlaced(lr: Option<PieceLocRot>, edge: nat): Option<PieceKeyEdge>
      requires Valid()
    {
      match lr
      case None => None
      case Some(lr) =>
        var d := (edge + lr.implicitRotation) % 4;
        match Toward(lr.loc, d)
        case None => None
        case Some(n) => Some(KeyEdgeAt(n, Opposite(d)))
    }

    /** The two piece edges that meet at edge location `el`, if it was located. */
    function PiecesAt(el: Option<EdgeLoc>): Option<(PieceKeyEdge, PieceKeyEdge)>
      requires Valid()
    {
      match el
      case None => None
      case Some(e) =>
        match e.side
        case Right => Some((KeyEdgeAt(e.loc, 1), KeyEdgeAt(e.loc.RightPiece(), 3)))
        case Down => Some((KeyEdgeAt(e.loc, 2), KeyEdgeAt(e.loc.DownPiece(), 0)))
    }

    /** `piece_edge` over the corrected `piece_loc_rot`. */
    function PieceEdge(k: PieceKey, edge: nat): Option<EdgeKey>
      requires Valid()
    {
      EdgeOfPlaced(LocRotFixed(k), edge)
    }

    /** `piece_neighbor` over the corrected `piece_loc_rot`. */
    function PieceNeighbor(k: PieceKey, edge: nat): Option<PieceKeyEdge>
      requires Valid()
    {
      NeighborOfPlaced(LocRotFixed(k), edge)
    }

    /** `edge_pieces` over the corrected `edge_loc`. */
    function EdgePieces(k: EdgeKey): Option<(PieceKeyEdge, PieceKeyEdge)>
      requires Valid()
    {
      PiecesAt(EdgeLocFixed(k))
    }

    /** `piece_edge` as written, over `piece_loc_rot` as written. */
    function PieceEdgeAsWritten(k: PieceKey, edge: nat): Option<EdgeKey>
      requires Valid()
    {
      EdgeOfPlaced(LocRot(k), edge)
    }

    /** `piece_neighbor` as written, over `piece_loc_rot` as written. */
    function PieceNeighborAsWritten(k: PieceKey, edge: nat): Option<PieceKeyEdge>
      requires Valid()
    {
      NeighborOfPlaced(LocRot(k), edge)
    }

    /** `edge_pieces` as written, over `edge_loc` as written. */
    function EdgePiecesAsWritten(k: EdgeKey): Option<(PieceKeyEdge, PieceKeyEdge)>
      requires Valid()
    {
      PiecesAt(EdgeLocOf(k))
    }

    /** The puzzle as the encoder sees it, over the corrected geometry: three piece orbits and two edge orbits. */
    function AsPuzzle(): (z: Puzzle)
      requires Valid()
      ensures |z.pieceOrbits| == 3 && |z.edgeOrbits| == 2
    {
      Puzzle([PieceOrbit(0).value, PieceOrbit(1).value, PieceOrbit(2).value],
             [EdgeOrbitFixed(0).value, EdgeOrbitFixed(1).value],
             (k: PieceKey, e: nat) => PieceEdge(k, e),
             (k: PieceKey, e: nat) => PieceNeighbor(k, e),
             k => EdgePieces(k))
    }

    /** The puzzle as the source's `impl Puzzle for SquarePuzzle` gives it, every function as written. */
    function AsWrittenPuzzle(): (z: Puzzle)
      requires Valid()
      ensures |z.pieceOrbits| == 3 && |z.edgeOrbits| == 2
    {
      Puzzle([PieceOrbit(0).value, PieceOrbit(1).value, PieceOrbit(2).value],
             [EdgeOrbit(0).value, EdgeOrbit(1).value],
             (k: PieceKey, e: nat) => PieceEdgeAsWritten(k, e),
             (k: PieceKey, e: nat) => PieceNeighborAsWritten(k, e),
             k => EdgePiecesAsWritten(k))
    }
  }
}
