/** Optional values and the failures of the adapter's lookups.
    A Kotlin nullable value (`Pawn?`, `HexMove?`, `List<HexMove>?`) is an Option;
    a NoSuchElementException thrown by `List.first` or `Map.getValue` is a Failure,
    named after the lookup that threw it. */
module Wrappers {

  datatype Option<+T> = None | Some(value: T)

  datatype Failure =
    | NoPawnAtOrigin         // `pawns.first { it.position == move.origin }`
    | NoCircleForCoordinate  // `fieldCircles.getValue(...)`
    | NoColorForCorner       // `cornersAndColors.getValue(it.cornerId)`
    | NoCornerForPlayer      // `corners.getValue(gameManager.playerId)`
    | NoFieldForPawn         // `fields.getValue(pawn.position)`

  /** The value of an operation that may throw. */
  datatype Result<+T> = Ok(value: T) | Err(error: Failure)

  /** The outcome of an operation that returns nothing but may throw. */
  datatype Outcome = Pass | Fail(error: Failure)
}
