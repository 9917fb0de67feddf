/** The board values the adapter reads from the game: coordinates, moves, pieces and fields.
    Their own classes (common.HexCoord, common.HexMove, the game's board) are not part of
    this model; only the members the adapter uses appear here. */
module Hex {
  import opened Wrappers

  /** A cell of the hexagonal board, by its two integer coordinates. */
  datatype HexCoord = HexCoord(x: int, y: int)

  /** A move as the game reports it: where it starts, where it ends, and its hops.
      The adapter reads only the second coordinate of each hop. */
  datatype HexMove = HexMove(origin: HexCoord, destination: HexCoord, movements: seq<(HexCoord, HexCoord)>)

  /** A piece belongs to the corner it started in. */
  datatype Piece = Piece(cornerId: int)

  /** A field of the board, possibly holding a piece. */
  datatype Field = Field(piece: Option<Piece>)

  /** `board.fields`, a map from coordinate to field, as its entries in iteration order. */
  type Board = seq<(HexCoord, Field)>

  /** The set of coordinates the board has a field for. */
  function Coordinates(board: Board): set<HexCoord> {
    set i | 0 <= i < |board| :: board[i].0
  }

  /** The coordinates a pawn passes through: the second coordinate of every hop, in order. */
  function HopTargets(movements: seq<(HexCoord, HexCoord)>): seq<HexCoord> {
    seq(|movements|, i requires 0 <= i < |movements| => movements[i].1)
  }

  /** A move as the game builds it: at least one hop, and the last hop ends at the destination. */
  predicate WellFormed(m: HexMove) {
    |m.movements| > 0 && m.movements[|m.movements| - 1].1 == m.destination
  }
}
