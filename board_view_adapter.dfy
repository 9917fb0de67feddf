/** The adapter between the game and the board view: it owns the field circles, the pawn
    list and the selection, and every handler updates them in place. Each handler is proved to
    compute the matching function of Selection, whose properties are lemmas there. */
module BoardView {
  import opened Wrappers
  import opened Collections
  import opened Hex
  import opened CornerColors
  import opened Pawns
  import opened Selection

  class BoardViewAdapter<C(==)> {
    /** The colour of each corner, fixed at construction. */
    const cornersAndColors: map<int, C>
    /** The circle of every board coordinate, as last drawn by GetBoard. */
    var fieldCircles: map<HexCoord, FieldCircle>
    var pawns: seq<Pawn<C>>
    /** The index in pawns of the chosen pawn. */
    var chosenPawn: Option<nat>
    var chosenMove: Option<HexMove>
    var highlightedCircles: seq<HexCoord>
    /** The origins sent to the game manager's requestAvailableMoves, oldest first. */
    var requests: seq<HexCoord>

    /** The interaction state as a value. */
    function State(): View<C>
      reads this
    {
      View(fieldCircles, pawns, chosenPawn, chosenMove, highlightedCircles)
    }

    ghost predicate Valid()
      reads this
    {
      Consistent(State())
    }

    /** The corner colours: the local player's corner gets the chosen colour, the others the
        remaining colours in order. */
    constructor (availableColors: seq<C>, chosenColor: C, corners: seq<(int, int)>, playerId: int)
      ensures cornersAndColors == AssignColors(availableColors, chosenColor, corners, playerId)
      ensures State() == Initial() && requests == []
      ensures Valid()
    {
      cornersAndColors := AssignColors(availableColors, chosenColor, corners, playerId);
      fieldCircles := map[];
      pawns := [];
      chosenPawn := None;
      chosenMove := None;
      highlightedCircles := [];
      requests := [];
      InitialConsistent<C>();
    }

    /** Draws the board: one plain circle per field and one pawn per piece, clickable when the
        piece belongs to the local player's corner (corners maps player ids to corner ids).
        The new circles replace the old ones only once every field is drawn. */
    method GetBoard(fields: Board, corners: seq<(int, int)>, playerId: int) returns (outcome: Outcome)
      requires Valid()
      modifies this
      ensures Valid()
      ensures (State(), outcome) == RebuildBoard(old(State()), fields, cornersAndColors, Get(corners, playerId))
      ensures requests == old(requests)
    {
      ghost var v0 := State();
      RebuildBoardConsistent(v0, fields, cornersAndColors, Get(corners, playerId));
      var circles, failure := DrawFields(fields, corners, playerId);
      if failure.Some? {
        return Fail(failure.value);
      }
      fieldCircles := circles;
      return Pass;
    }

    /** The loop of getBoard: the pawn list is cleared and refilled field by field; the loop
        stops at the first failed lookup. */
    method DrawFields(fields: Board, corners: seq<(int, int)>, playerId: int)
      returns (circles: map<HexCoord, FieldCircle>, failure: Option<Failure>)
      modifies this
      ensures var built := BuildPawns(fields, cornersAndColors, Get(corners, playerId));
        pawns == built.pawns && failure == built.failure
      ensures failure.None? ==> circles == Circles(fields)
      ensures fieldCircles == old(fieldCircles) && chosenPawn == old(chosenPawn) && chosenMove == old(chosenMove)
      ensures highlightedCircles == old(highlightedCircles) && requests == old(requests)
    {
      ghost var local := Get(corners, playerId);
      ghost var built := BuildPawns(fields, cornersAndColors, local);
      circles := map[];
      pawns := [];
      for i := 0 to |fields|
        invariant circles == Circles(fields[..i])
        invariant var rest := BuildPawns(fields[i..], cornersAndColors, local);
          built == Built(pawns + rest.pawns, rest.failure)
        invariant fieldCircles == old(fieldCircles) && chosenPawn == old(chosenPawn) && chosenMove == old(chosenMove)
        invariant highlightedCircles == old(highlightedCircles) && requests == old(requests)
      {
        var (position, field) := fields[i];
        BuildPawnsFrom(fields, cornersAndColors, local, i);
        ghost var rest := BuildPawns(fields[i + 1..], cornersAndColors, local);
        CirclesStep(fields, i);
        circles := circles[position := PlainCircle];
        if field.piece.Some? {
          var piece := field.piece.value;
          if piece.cornerId !in cornersAndColors {
            assert pawns + [] == pawns;
            return circles, Some(NoColorForCorner);
          }
          var color := cornersAndColors[piece.cornerId];
          ghost var before := pawns;
          pawns := pawns + [Pawn(position, color, false, false)];
          var localCorner := Get(corners, playerId);
          if localCorner.None? {
            return circles, Some(NoCornerForPlayer);
          }
          if piece.cornerId == localCorner.value {
            pawns := pawns[|pawns| - 1 := pawns[|pawns| - 1].(clickable := true)];
          }
          ghost var added := Pawn(position, color, piece.cornerId == localCorner.value, false);
          assert pawns == before + [added];
          assert before + ([added] + rest.pawns) == pawns + rest.pawns;
        }
      }
      assert fields[..|fields|] == fields && fields[|fields|..] == [];
      assert pawns + [] == pawns;
      return circles, None;
    }

    /** The board pane's click handler, also installed on reset circles: clears the selection. */
    method EmptyClicked()
      requires Valid()
      modifies this
      ensures Valid()
      ensures State() == Reset(old(State())) && requests == old(requests)
    {
      ghost var v0 := State();
      ResetConsistent(v0);
      if chosenPawn.Some? && chosenPawn.value < |pawns| {
        var k := chosenPawn.value;
        pawns := pawns[k := pawns[k].(selected := false)];
      }
      chosenPawn := None;
      chosenMove := None;
      ResetHighlighted();
      highlightedCircles := [];
    }

    /** The loop of emptyClickedHandler: every listed circle back to the unselected style,
        with the reset handler. */
    method ResetHighlighted()
      modifies this
      ensures fieldCircles == ClearCircles(old(fieldCircles), old(highlightedCircles))
      ensures highlightedCircles == old(highlightedCircles) && pawns == old(pawns)
      ensures chosenPawn == old(chosenPawn) && chosenMove == old(chosenMove) && requests == old(requests)
    {
      ghost var circles0 := fieldCircles;
      for i := 0 to |highlightedCircles|
        invariant fieldCircles == ClearCircles(circles0, old(highlightedCircles)[..i])
        invariant fieldCircles.Keys == circles0.Keys
        invariant highlightedCircles == old(highlightedCircles) && pawns == old(pawns)
        invariant chosenPawn == old(chosenPawn) && chosenMove == old(chosenMove) && requests == old(requests)
      {
        var c := highlightedCircles[i];
        ClearCirclesStep(circles0, highlightedCircles, i);
        if c in fieldCircles {
          fieldCircles := fieldCircles[c := ClearedCircle];
        }
      }
      assert highlightedCircles[..|highlightedCircles|] == highlightedCircles;
    }

    /** The handler of the k-th pawn's circle, installed only on a clickable pawn: resets, then chooses the pawn and requests its
        moves when its field in the current board holds a piece. */
    method PawnClicked(fields: Board, k: nat) returns (outcome: Outcome)
      requires Valid() && k < |pawns| && pawns[k].clickable
      modifies this
      ensures Valid()
      ensures var (v, out) := SelectPawn(old(State()), fields, k);
        State() == v &&
        outcome == (if out.Err? then Fail(out.error) else Pass) &&
        requests == old(requests) + (if out.Ok? && out.value.Some? then [out.value.value] else [])
    {
      ghost var v0 := State();
      SelectPawnConsistent(v0, fields, k);
      EmptyClicked();
      chosenPawn := None;
      chosenMove := None;
      var position := pawns[k].position;
      match Get(fields, position)
      case None =>
        outcome := Fail(NoFieldForPawn);
      case Some(field) =>
        if field.piece.Some? {
          chosenPawn := Some(k);
          pawns := pawns[k := pawns[k].(selected := true)];
          requests := requests + [position];
        }
        outcome := Pass;
    }

    /** Public: resets the selection. */
    method ClearAllHighlights()
      requires Valid()
      modifies this
      ensures Valid()
      ensures State() == Reset(old(State())) && requests == old(requests)
    {
      EmptyClicked();
    }

    /** Gives the circle at c the highlighted style. */
    method HighlightCircle(c: HexCoord)
      modifies this
      ensures fieldCircles == if c in old(fieldCircles) then old(fieldCircles)[c := old(fieldCircles)[c].(highlighted := true)] else old(fieldCircles)
      ensures pawns == old(pawns) && chosenPawn == old(chosenPawn) && chosenMove == old(chosenMove)
      ensures highlightedCircles == old(highlightedCircles) && requests == old(requests)
    {
      if c in fieldCircles {
        fieldCircles := fieldCircles[c := fieldCircles[c].(highlighted := true)];
      }
    }

    /** Highlights the destination of every possible move, in order; every destination's
        circle is looked up before any is changed. */
    method HighlightPossibleMoves(possibleMoves: Option<seq<HexMove>>) returns (outcome: Outcome)
      requires Valid()
      modifies this
      ensures Valid()
      ensures (State(), outcome) == Highlight(old(State()), possibleMoves) && requests == old(requests)
    {
      ghost var v0 := State();
      HighlightConsistent(v0, possibleMoves);
      if possibleMoves.None? {
        return Pass;
      }
      var moves := possibleMoves.value;
      if exists i :: 0 <= i < |moves| && moves[i].destination !in fieldCircles {
        return Fail(NoCircleForCoordinate);
      }
      HighlightAll(moves);
      return Pass;
    }

    /** The forEach of highlightPossibleMoves, once every destination has a circle. */
    method HighlightAll(moves: seq<HexMove>)
      requires forall i :: 0 <= i < |moves| ==> moves[i].destination in fieldCircles
      modifies this
      ensures fieldCircles == MarkDestinations(old(fieldCircles), moves)
      ensures highlightedCircles == old(highlightedCircles) + Destinations(moves)
      ensures pawns == old(pawns) && chosenPawn == old(chosenPawn) && chosenMove == old(chosenMove)
      ensures requests == old(requests)
    {
      ghost var circles0 := fieldCircles;
      for i := 0 to |moves|
        invariant fieldCircles == MarkDestinations(circles0, moves[..i])
        invariant fieldCircles.Keys == circles0.Keys
        invariant highlightedCircles == old(highlightedCircles) + Destinations(moves[..i])
        invariant pawns == old(pawns) && chosenPawn == old(chosenPawn) && chosenMove == old(chosenMove)
        invariant requests == old(requests)
      {
        var move := moves[i];
        MarkDestinationsStep(circles0, moves, i);
        highlightedCircles := highlightedCircles + [move.destination];
        HighlightCircle(move.destination);
        fieldCircles := fieldCircles[move.destination := fieldCircles[move.destination].(handler := ChooseDestination(move))];
      }
      assert moves[..|moves|] == moves;
    }

    /** The handler installed on a highlighted circle c for its move. */
    method DestinationClicked(c: HexCoord, move: HexMove)
      modifies this
      ensures State() == Choose(old(State()), c, move) && requests == old(requests)
    {
      ghost var v0 := State();
      chosenMove := Some(move);
      for i := 0 to |highlightedCircles|
        invariant fieldCircles == Unchoose(v0.circles, v0.highlighted[..i])
        invariant fieldCircles.Keys == v0.circles.Keys
        invariant highlightedCircles == v0.highlighted && pawns == v0.pawns && chosenPawn == v0.chosenPawn
        invariant chosenMove == Some(move) && requests == old(requests)
      {
        var h := highlightedCircles[i];
        UnchooseStep(v0.circles, highlightedCircles, i);
        if h in fieldCircles {
          fieldCircles := fieldCircles[h := fieldCircles[h].(chosen := false)];
        }
      }
      assert highlightedCircles[..|highlightedCircles|] == highlightedCircles;
      if c in fieldCircles {
        fieldCircles := fieldCircles[c := fieldCircles[c].(chosen := true)];
      }
    }

    /** A click on the field circle at c, with the handler it currently has; a click the
        circle does not consume reaches the board pane. */
    method FieldClicked(c: HexCoord)
      requires Valid() && c in fieldCircles
      modifies this
      ensures Valid()
      ensures State() == ClickField(old(State()), c) && requests == old(requests)
    {
      ghost var v0 := State();
      ClickFieldConsistent(v0, c);
      match fieldCircles[c].handler
      case PrintPosition =>
        EmptyClicked();
      case ChooseDestination(m) =>
        DestinationClicked(c, m);
      case ResetSelection =>
        EmptyClicked();
    }

    /** Moves the pawn at the origin to the destination, sending a pawn found there back
        to the origin, and returns the animations to play; then resets the selection. */
    method PerformMove(move: HexMove) returns (result: Result<Animation>)
      requires Valid()
      modifies this
      ensures Valid()
      ensures (State(), result) == Perform(old(State()), move) && requests == old(requests)
    {
      ghost var v0 := State();
      PerformConsistent(v0, move);
      var i := FirstAt(pawns, move.origin);
      if i.None? {
        return Err(NoPawnAtOrigin);
      }
      var movedPawn := i.value;
      if exists k :: 0 <= k < |move.movements| && move.movements[k].1 !in fieldCircles {
        return Err(NoCircleForCoordinate);
      }
      var path := [pawns[movedPawn].position] + HopTargets(move.movements);
      var transition := Transition(path, 100 * |path|);
      var displaced: Option<Transition> := None;
      var other := FirstAt(pawns, move.destination);
      if other.Some? {
        if move.origin !in fieldCircles {
          return Err(NoCircleForCoordinate);
        }
        var j := other.value;
        displaced := Some(Transition([pawns[j].position, move.origin], 100));
        pawns := pawns[j := pawns[j].(position := move.origin)];
      }
      pawns := pawns[movedPawn := pawns[movedPawn].(position := move.destination)];
      MovePawnsKeepsConsistent(v0, move.origin, move.destination);
      EmptyClicked();
      return Ok(Animation(transition, displaced));
    }
  }
}
