/** What the adapter's handlers do to its interaction state, as functions of that state.
    A field circle stands for the coordinate it is drawn at; its style classes are flags and
    its mouse handler is one of the three the adapter installs. The adapter class's methods
    are proved to compute exactly these functions. */
module Selection {
  import opened Wrappers
  import opened Collections
  import opened Hex
  import opened Pawns

  /** The mouse handler of a field circle. */
  datatype Handler =
    | PrintPosition                     // from getBoard: prints, and the click goes on to the board pane
    | ChooseDestination(move: HexMove)  // from highlightPossibleMoves
    | ResetSelection                    // from emptyClickedHandler

  /** A field circle's style classes (unselectedField, highlightedField, chosenAsDestination)
      and its handler. */
  datatype FieldCircle = FieldCircle(unselected: bool, highlighted: bool, chosen: bool, handler: Handler)

  /** A circle as getBoard creates it. */
  const PlainCircle := FieldCircle(true, false, false, PrintPosition)

  /** A highlighted circle after emptyClickedHandler has reset it. */
  const ClearedCircle := FieldCircle(true, false, false, ResetSelection)

  /** The adapter's state: `fieldCircles`, `pawns`, `chosenPawn` (an index into pawns),
      `chosenMove` and `highlightedCircles`. */
  datatype View<C> = View(
    circles: map<HexCoord, FieldCircle>,
    pawns: seq<Pawn<C>>,
    chosenPawn: Option<nat>,
    chosenMove: Option<HexMove>,
    highlighted: seq<HexCoord>)

  /** The state every handler keeps: every circle keeps its unselected style; only listed
      circles are highlighted, chosen or wait for a destination click, and such a circle's
      move ends at it; only the chosen pawn carries the selected style, and only a clickable
      pawn, one of the local player's corner, is ever selected. */
  ghost predicate Consistent<C>(v: View<C>) {
    (forall c :: c in v.circles ==> v.circles[c].unselected) &&
    (forall c :: c in v.circles && (v.circles[c].highlighted || v.circles[c].chosen) ==> c in v.highlighted) &&
    (forall c :: c in v.circles && v.circles[c].handler.ChooseDestination? ==>
       c in v.highlighted && v.circles[c].handler.move.destination == c) &&
    (forall k :: 0 <= k < |v.pawns| && v.pawns[k].selected ==> v.chosenPawn == Some(k)) &&
    (forall k :: 0 <= k < |v.pawns| && v.pawns[k].selected ==> v.pawns[k].clickable)
  }

  /** The state of a freshly constructed adapter. */
  function Initial<C>(): View<C> {
    View(map[], [], None, None, [])
  }

  lemma InitialConsistent<C>()
    ensures Consistent(Initial<C>())
  {
  }

  // ---------------------------------------------------------------- getBoard

  /** The field circles getBoard creates, one per board coordinate. */
  function Circles(fields: Board): map<HexCoord, FieldCircle> {
    map c | c in Coordinates(fields) :: PlainCircle
  }

  /** getBoard: the pawn list is rebuilt from the board; the new circles replace the old ones
      only when the loop ran to its end. */
  function RebuildBoard<C>(v: View<C>, fields: Board, colors: map<int, C>, localCorner: Option<int>): (View<C>, Outcome) {
    var b := BuildPawns(fields, colors, localCorner);
    match b.failure
    case None => (v.(circles := Circles(fields), pawns := b.pawns), Pass)
    case Some(e) => (v.(pawns := b.pawns), Fail(e))
  }

  /** getBoard keeps the state consistent; on success there is exactly one unselected circle
      per board coordinate. */
  lemma RebuildBoardConsistent<C>(v: View<C>, fields: Board, colors: map<int, C>, localCorner: Option<int>)
    requires Consistent(v)
    ensures Consistent(RebuildBoard(v, fields, colors, localCorner).0)
    ensures var (r, out) := RebuildBoard(v, fields, colors, localCorner);
      out == Pass ==> (r.circles.Keys == Coordinates(fields) &&
                       forall c :: c in r.circles ==> r.circles[c] == PlainCircle)
  {
    BuildPawnsFollowsFields(fields, colors, localCorner);
  }

  /** One more field adds its circle. */
  lemma CirclesStep(fields: Board, i: nat)
    requires i < |fields|
    ensures Circles(fields[..i + 1]) == Circles(fields[..i])[fields[i].0 := PlainCircle]
  {
    assert Coordinates(fields[..i + 1]) == Coordinates(fields[..i]) + {fields[i].0} by {
      assert forall j :: 0 <= j < i ==> fields[..i + 1][j] == fields[..i][j];
      assert fields[..i + 1][i] == fields[i];
    }
  }

  // ---------------------------------------------------------------- emptyClickedHandler

  /** The selected style removed from the chosen pawn, if it is in the list. */
  function Deselect<C>(pawns: seq<Pawn<C>>, chosen: Option<nat>): seq<Pawn<C>> {
    if chosen.Some? && chosen.value < |pawns| then pawns[chosen.value := pawns[chosen.value].(selected := false)]
    else pawns
  }

  /** The circles with every listed one reset. */
  function ClearCircles(circles: map<HexCoord, FieldCircle>, listed: seq<HexCoord>): map<HexCoord, FieldCircle> {
    map c | c in circles :: if c in listed then ClearedCircle else circles[c]
  }

  /** Resetting one more listed circle. */
  lemma ClearCirclesStep(circles: map<HexCoord, FieldCircle>, listed: seq<HexCoord>, i: nat)
    requires i < |listed|
    ensures ClearCircles(circles, listed[..i + 1]) ==
      if listed[i] in circles then ClearCircles(circles, listed[..i])[listed[i] := ClearedCircle]
      else ClearCircles(circles, listed[..i])
  {
    assert listed[..i + 1] == listed[..i] + [listed[i]];
  }

  /** emptyClickedHandler: no pawn chosen, no move chosen, no circle listed, every listed
      circle back to the unselected style. */
  function Reset<C>(v: View<C>): View<C> {
    View(ClearCircles(v.circles, v.highlighted), Deselect(v.pawns, v.chosenPawn), None, None, [])
  }

  /** A reset keeps the state consistent. */
  lemma ResetConsistent<C>(v: View<C>)
    requires Consistent(v)
    ensures Consistent(Reset(v))
  {
    var r := Reset(v);
    forall k | 0 <= k < |r.pawns| ensures !r.pawns[k].selected {
      if v.pawns[k].selected {
        assert v.chosenPawn == Some(k);
      }
    }
  }

  /** A reset clears the whole selection: nothing chosen, nothing highlighted, every field
      back to its unselected style, every previously listed circle reset, the rest of the
      circles and every pawn's position untouched. */
  lemma ResetRestoresBaseline<C>(v: View<C>)
    requires Consistent(v)
    ensures var r := Reset(v);
      r.chosenPawn == None && r.chosenMove == None && r.highlighted == [] &&
      (forall k :: 0 <= k < |r.pawns| ==> !r.pawns[k].selected) &&
      Positions(r.pawns) == Positions(v.pawns) &&
      |r.pawns| == |v.pawns| &&
      (forall k :: 0 <= k < |r.pawns| ==> r.pawns[k] == v.pawns[k].(selected := false)) &&
      r.circles.Keys == v.circles.Keys &&
      (forall c :: c in r.circles ==>
         r.circles[c].unselected && !r.circles[c].highlighted && !r.circles[c].chosen &&
         !r.circles[c].handler.ChooseDestination?) &&
      (forall c :: c in v.circles ==> r.circles[c] == if c in v.highlighted then ClearedCircle else v.circles[c])
  {
    var r := Reset(v);
    assert |r.pawns| == |v.pawns|;
    forall k | 0 <= k < |r.pawns| ensures r.pawns[k] == v.pawns[k].(selected := false) {
      if v.pawns[k].selected {
        assert v.chosenPawn == Some(k);
      }
    }
    assert Positions(r.pawns) == Positions(v.pawns);
  }

  /** Resetting twice is resetting once. */
  lemma ResetIdempotent<C>(v: View<C>)
    ensures Reset(Reset(v)) == Reset(v)
  {
    var r := Reset(v);
    assert ClearCircles(r.circles, []) == r.circles;
  }

  // ---------------------------------------------------------------- pawnClickedHandler

  /** pawnClickedHandler for the k-th pawn: reset, then look up the pawn's field; only when
      it holds a piece is the pawn chosen and a move request for its position issued.
      The second component is the request sent, or the exception thrown after the reset. */
  function SelectPawn<C>(v: View<C>, fields: Board, k: nat): (View<C>, Result<Option<HexCoord>>)
    requires k < |v.pawns| && v.pawns[k].clickable
  {
    var r := Reset(v);
    var position := r.pawns[k].position;
    match Get(fields, position)
    case None => (r, Err(NoFieldForPawn))
    case Some(field) =>
      if field.piece.Some? then
        (r.(chosenPawn := Some(k), pawns := r.pawns[k := r.pawns[k].(selected := true)]), Ok(Some(position)))
      else (r, Ok(None))
  }

  /** A pawn click keeps the state consistent. */
  lemma SelectPawnConsistent<C>(v: View<C>, fields: Board, k: nat)
    requires Consistent(v) && k < |v.pawns| && v.pawns[k].clickable
    ensures Consistent(SelectPawn(v, fields, k).0)
  {
    ResetRestoresBaseline(v);
  }

  /** A pawn click always discards the previous selection; it chooses the pawn and requests
      its moves, once, exactly when the pawn's field holds a piece, and nothing otherwise. */
  lemma SelectPawnDiscardsPrior<C>(v: View<C>, fields: Board, k: nat)
    requires Consistent(v) && k < |v.pawns| && v.pawns[k].clickable
    ensures var (r, out) := SelectPawn(v, fields, k);
      var position := v.pawns[k].position;
      r.chosenMove == None && r.highlighted == [] && r.circles == Reset(v).circles &&
      Positions(r.pawns) == Positions(v.pawns) &&
      (out.Err? <==> Get(fields, position).None?) &&
      (out == Ok(Some(position)) <==> Get(fields, position).Some? && Get(fields, position).value.piece.Some?) &&
      (out.Ok? && out.value.None? <==> Get(fields, position).Some? && Get(fields, position).value.piece.None?) &&
      (r.chosenPawn == Some(k) <==> out == Ok(Some(position))) &&
      (r.chosenPawn != Some(k) ==> r.chosenPawn == None) &&
      (forall j :: 0 <= j < |r.pawns| ==> (r.pawns[j].selected <==> r.chosenPawn == Some(j))) &&
      |r.pawns| == |v.pawns| &&
      (forall j :: 0 <= j < |r.pawns| ==> r.pawns[j] == v.pawns[j].(selected := r.chosenPawn == Some(j)))
  {
    ResetRestoresBaseline(v);
    var r := Reset(v);
    var s := SelectPawn(v, fields, k).0;
    assert Positions(s.pawns) == Positions(r.pawns);
  }

  // ---------------------------------------------------------------- highlightPossibleMoves

  /** The destinations of the moves, in order. */
  function Destinations(moves: seq<HexMove>): seq<HexCoord> {
    seq(|moves|, i requires 0 <= i < |moves| => moves[i].destination)
  }

  /** The last move to c: its handler is the one a circle keeps when several moves end there. */
  function LastMoveTo(moves: seq<HexMove>, c: HexCoord): (r: Option<HexMove>)
    ensures r.Some? ==> r.value.destination == c
  {
    if moves == [] then None
    else if moves[|moves| - 1].destination == c then Some(moves[|moves| - 1])
    else LastMoveTo(moves[..|moves| - 1], c)
  }

  /** There is a last move to c exactly when some move ends at c, and it is a move of the
      list that no later move to c follows. */
  lemma {:induction false} LastMoveToIsLast(moves: seq<HexMove>, c: HexCoord)
    ensures var r := LastMoveTo(moves, c);
      (r.None? <==> forall i :: 0 <= i < |moves| ==> moves[i].destination != c) &&
      (r.Some? ==> exists i :: 0 <= i < |moves| && moves[i] == r.value &&
                               forall j :: i < j < |moves| ==> moves[j].destination != c)
  {
    if moves != [] {
      var n := |moves| - 1;
      if moves[n].destination == c {
        assert moves[n] == LastMoveTo(moves, c).value;
      } else {
        var init := moves[..n];
        assert LastMoveTo(moves, c) == LastMoveTo(init, c);
        LastMoveToIsLast(init, c);
        match LastMoveTo(init, c)
        case None =>
          forall i | 0 <= i < |moves| ensures moves[i].destination != c {
            if i < n {
              assert moves[i] == init[i];
            }
          }
        case Some(m) =>
          var i :| 0 <= i < |init| && init[i] == m && forall j :: i < j < |init| ==> init[j].destination != c;
          assert moves[i] == m;
          forall j | i < j < |moves| ensures moves[j].destination != c {
            if j < n {
              assert moves[j] == init[j];
            }
          }
      }
    }
  }

  /** The circles with every destination highlighted and waiting for its (last) move. */
  function MarkDestinations(circles: map<HexCoord, FieldCircle>, moves: seq<HexMove>): map<HexCoord, FieldCircle> {
    map c | c in circles ::
      match LastMoveTo(moves, c)
      case None => circles[c]
      case Some(m) => circles[c].(highlighted := true, handler := ChooseDestination(m))
  }

  /** One more move is the last move to its own destination and to no other coordinate. */
  lemma LastMoveToStep(moves: seq<HexMove>, m: HexMove, c: HexCoord)
    ensures LastMoveTo(moves + [m], c) == if m.destination == c then Some(m) else LastMoveTo(moves, c)
  {
    assert (moves + [m])[..|moves|] == moves;
  }

  /** Highlighting for one more move overrides what earlier moves to its destination set,
      and lists that destination once more. */
  lemma MarkDestinationsStep(circles: map<HexCoord, FieldCircle>, moves: seq<HexMove>, i: nat)
    requires i < |moves| && moves[i].destination in circles
    ensures var marked, d := MarkDestinations(circles, moves[..i]), moves[i].destination;
      marked.Keys == circles.Keys &&
      MarkDestinations(circles, moves[..i + 1]) ==
        marked[d := marked[d].(highlighted := true, handler := ChooseDestination(moves[i]))] &&
      Destinations(moves[..i + 1]) == Destinations(moves[..i]) + [d]
  {
    var pre, m := moves[..i], moves[i];
    assert moves[..i + 1] == pre + [m];
    var marked := MarkDestinations(circles, pre);
    var after := MarkDestinations(circles, pre + [m]);
    var expected := marked[m.destination := marked[m.destination].(highlighted := true, handler := ChooseDestination(m))];
    forall c | c in circles ensures after[c] == expected[c] {
      LastMoveToStep(pre, m, c);
    }
    assert after.Keys == expected.Keys;
    assert after == expected;
  }

  /** highlightPossibleMoves: nothing when there are no possible moves; an exception, before
      anything changes, when some destination has no circle; otherwise every destination is
      appended to the list, in order, and its circle highlighted. */
  function Highlight<C>(v: View<C>, possibleMoves: Option<seq<HexMove>>): (View<C>, Outcome) {
    match possibleMoves
    case None => (v, Pass)
    case Some(moves) =>
      if exists i :: 0 <= i < |moves| && moves[i].destination !in v.circles then (v, Fail(NoCircleForCoordinate))
      else (v.(circles := MarkDestinations(v.circles, moves), highlighted := v.highlighted + Destinations(moves)), Pass)
  }

  /** Highlighting keeps the state consistent. */
  lemma HighlightConsistent<C>(v: View<C>, possibleMoves: Option<seq<HexMove>>)
    requires Consistent(v)
    ensures Consistent(Highlight(v, possibleMoves).0)
  {
    if possibleMoves.Some? {
      var moves := possibleMoves.value;
      var (r, out) := Highlight(v, possibleMoves);
      if out == Pass {
        forall c | c in r.circles && (r.circles[c].highlighted || r.circles[c].chosen || r.circles[c].handler.ChooseDestination?)
          ensures c in r.highlighted
        {
          LastMoveToIsLast(moves, c);
          if LastMoveTo(moves, c).Some? {
            var i :| 0 <= i < |moves| && moves[i] == LastMoveTo(moves, c).value;
            assert r.highlighted[|v.highlighted| + i] == c;
          }
        }
      }
    }
  }

  /** Highlighting lists one circle per possible move, in the order of the moves; each
      destination's circle is highlighted and chooses a move to it (the last one) when clicked;
      the other circles, the pawns and the choices are unchanged. An exception or an absent
      list of moves changes nothing. */
  lemma HighlightEffect<C>(v: View<C>, possibleMoves: Option<seq<HexMove>>)
    ensures var (r, out) := Highlight(v, possibleMoves);
      (possibleMoves.None? ==> r == v && out == Pass) &&
      (possibleMoves.Some? ==>
        var moves := possibleMoves.value;
        (out.Fail? <==> exists i :: 0 <= i < |moves| && moves[i].destination !in v.circles) &&
        (out.Fail? ==> r == v) &&
        (out == Pass ==>
          |r.highlighted| == |v.highlighted| + |moves| &&
          r.highlighted[..|v.highlighted|] == v.highlighted &&
          (forall i :: 0 <= i < |moves| ==> r.highlighted[|v.highlighted| + i] == moves[i].destination) &&
          r.pawns == v.pawns && r.chosenPawn == v.chosenPawn && r.chosenMove == v.chosenMove &&
          r.circles.Keys == v.circles.Keys &&
          (forall i :: 0 <= i < |moves| ==>
             var c := moves[i].destination;
             r.circles[c].highlighted && r.circles[c].handler.ChooseDestination? &&
             r.circles[c].handler.move.destination == c &&
             r.circles[c] == v.circles[c].(highlighted := true, handler := r.circles[c].handler)) &&
          (forall i :: 0 <= i < |moves| ==> LastInstalled(r.circles, moves, moves[i].destination)) &&
          (forall c :: c in v.circles && c !in Destinations(moves) ==> r.circles[c] == v.circles[c])))
  {
    if possibleMoves.Some? {
      var moves := possibleMoves.value;
      var (r, out) := Highlight(v, possibleMoves);
      if out == Pass {
        forall c | c in v.circles && c !in Destinations(moves) ensures r.circles[c] == v.circles[c] {
          forall i | 0 <= i < |moves| ensures moves[i].destination != c {
            assert Destinations(moves)[i] == moves[i].destination;
          }
          LastMoveToIsLast(moves, c);
        }
        forall i | 0 <= i < |moves|
          ensures var c := moves[i].destination;
            c in r.circles && r.circles[c].highlighted && r.circles[c].handler.ChooseDestination? &&
            r.circles[c].handler.move.destination == c &&
            r.circles[c] == v.circles[c].(highlighted := true, handler := r.circles[c].handler)
        {
          var c := moves[i].destination;
          assert c in v.circles;
          LastMoveToIsLast(moves, c);
          assert LastMoveTo(moves, c).Some?;
        }
        MarkDestinationsKeepsLast(v.circles, moves);
      }
    }
  }

  /** The circle at c waits for a click on a move of the list after which no move ends at c. */
  ghost predicate LastInstalled(circles: map<HexCoord, FieldCircle>, moves: seq<HexMove>, c: HexCoord) {
    c in circles &&
    exists i' :: 0 <= i' < |moves| && circles[c].handler == ChooseDestination(moves[i']) &&
      forall j :: i' < j < |moves| ==> moves[j].destination != c
  }

  /** Of several moves to one destination, the circle keeps the handler of the last: each
      later install replaces the earlier one. */
  lemma MarkDestinationsKeepsLast(circles: map<HexCoord, FieldCircle>, moves: seq<HexMove>)
    requires forall i :: 0 <= i < |moves| ==> moves[i].destination in circles
    ensures forall i :: 0 <= i < |moves| ==> LastInstalled(MarkDestinations(circles, moves), moves, moves[i].destination)
  {
    forall i | 0 <= i < |moves|
      ensures LastInstalled(MarkDestinations(circles, moves), moves, moves[i].destination)
    {
      var c := moves[i].destination;
      LastMoveToIsLast(moves, c);
      var m := LastMoveTo(moves, c).value;
      var i' :| 0 <= i' < |moves| && moves[i'] == m && forall j :: i' < j < |moves| ==> moves[j].destination != c;
      assert MarkDestinations(circles, moves)[c].handler == ChooseDestination(moves[i']);
    }
  }

  // ---------------------------------------------------------------- clicking a highlighted circle

  /** The circles with the chosen style removed from every listed one. */
  function Unchoose(circles: map<HexCoord, FieldCircle>, listed: seq<HexCoord>): map<HexCoord, FieldCircle> {
    map c | c in circles :: if c in listed then circles[c].(chosen := false) else circles[c]
  }

  /** Removing the chosen style from one more listed circle. */
  lemma UnchooseStep(circles: map<HexCoord, FieldCircle>, listed: seq<HexCoord>, i: nat)
    requires i < |listed|
    ensures var u := Unchoose(circles, listed[..i]);
      Unchoose(circles, listed[..i + 1]) ==
        if listed[i] in circles then u[listed[i] := u[listed[i]].(chosen := false)] else u
  {
    assert listed[..i + 1] == listed[..i] + [listed[i]];
  }

  /** The handler of a highlighted circle c for move m: m becomes the chosen move, every listed
      circle loses the chosen style and c gets it. */
  function Choose<C>(v: View<C>, c: HexCoord, m: HexMove): View<C> {
    var cleared := Unchoose(v.circles, v.highlighted);
    v.(chosenMove := Some(m), circles := if c in cleared then cleared[c := cleared[c].(chosen := true)] else cleared)
  }

  /** A click on the circle at c: a highlighted circle chooses its move; any other circle
      resets the selection, directly or through the board pane. */
  function ClickField<C>(v: View<C>, c: HexCoord): View<C>
    requires c in v.circles
  {
    match v.circles[c].handler
    case PrintPosition => Reset(v)
    case ChooseDestination(m) => Choose(v, c, m)
    case ResetSelection => Reset(v)
  }

  /** A click on a field circle keeps the state consistent. */
  lemma ClickFieldConsistent<C>(v: View<C>, c: HexCoord)
    requires Consistent(v) && c in v.circles
    ensures Consistent(ClickField(v, c))
  {
    if !v.circles[c].handler.ChooseDestination? {
      ResetConsistent(v);
    }
  }

  /** Clicking a circle that waits for a destination click chooses exactly its move, a move
      that ends at that circle, and leaves that circle the only one marked as chosen.
      Clicking any other circle resets the selection. */
  lemma ClickFieldEffect<C>(v: View<C>, c: HexCoord)
    requires Consistent(v) && c in v.circles
    ensures var r := ClickField(v, c);
      match v.circles[c].handler
      case ChooseDestination(m) =>
        r.chosenMove == Some(m) && m.destination == c &&
        r.pawns == v.pawns && r.chosenPawn == v.chosenPawn && r.highlighted == v.highlighted &&
        r.circles.Keys == v.circles.Keys &&
        (forall d :: d in r.circles ==> (r.circles[d].chosen <==> d == c)) &&
        (forall d :: d in v.circles ==> r.circles[d] == v.circles[d].(chosen := d == c))
      case _ => r == Reset(v)
  {
    match v.circles[c].handler
    case ChooseDestination(m) =>
    case _ => ResetRestoresBaseline(v);
  }

  // ---------------------------------------------------------------- performMove

  /** One path animation: the coordinates it passes, and its duration in milliseconds. */
  datatype Transition = Transition(path: seq<HexCoord>, durationMillis: nat)

  /** The animations performMove plays: the moving pawn along its hops and, when the
      destination was taken, the displaced pawn back to the origin. */
  datatype Animation = Animation(moved: Transition, displaced: Option<Transition>)

  /** performMove: the exceptions come before any change (no pawn at the origin, a hop or,
      when a pawn is displaced, the origin without a circle); otherwise the pawns move as
      MovePawns says, the animations are built, and the selection is reset. */
  function Perform<C>(v: View<C>, move: HexMove): (View<C>, Result<Animation>) {
    if FirstAt(v.pawns, move.origin).None? then (v, Err(NoPawnAtOrigin))
    else if exists k :: 0 <= k < |move.movements| && move.movements[k].1 !in v.circles then (v, Err(NoCircleForCoordinate))
    else if FirstAt(v.pawns, move.destination).Some? && move.origin !in v.circles then (v, Err(NoCircleForCoordinate))
    else
      var moved := Transition([move.origin] + HopTargets(move.movements), 100 * (|move.movements| + 1));
      var displaced := if FirstAt(v.pawns, move.destination).Some? then Some(Transition([move.destination, move.origin], 100)) else None;
      (Reset(v.(pawns := MovePawns(v.pawns, move.origin, move.destination).value)), Ok(Animation(moved, displaced)))
  }

  /** Moving pawns changes no selection style, so the state stays consistent. */
  lemma MovePawnsKeepsConsistent<C>(v: View<C>, origin: HexCoord, destination: HexCoord)
    requires Consistent(v)
    requires MovePawns(v.pawns, origin, destination).Some?
    ensures Consistent(v.(pawns := MovePawns(v.pawns, origin, destination).value))
  {
    MovePawnsEffect(v.pawns, origin, destination);
  }

  /** performMove keeps the state consistent. */
  lemma PerformConsistent<C>(v: View<C>, move: HexMove)
    requires Consistent(v)
    ensures Consistent(Perform(v, move).0)
  {
    if Perform(v, move).1.Ok? {
      MovePawnsKeepsConsistent(v, move.origin, move.destination);
      ResetConsistent(v.(pawns := MovePawns(v.pawns, move.origin, move.destination).value));
    }
  }

  /** performMove throws exactly in its three cases: no pawn at the origin; a pawn at the
      origin but a hop without a circle, or a pawn at the destination and no circle at the
      origin. A throw changes nothing. */
  lemma PerformFails<C>(v: View<C>, move: HexMove)
    ensures var (r, out) := Perform(v, move);
      (out == Err(NoPawnAtOrigin) <==> forall k :: 0 <= k < |v.pawns| ==> v.pawns[k].position != move.origin) &&
      (out == Err(NoCircleForCoordinate) <==>
         (exists k :: 0 <= k < |v.pawns| && v.pawns[k].position == move.origin) &&
         ((exists k :: 0 <= k < |move.movements| && move.movements[k].1 !in v.circles) ||
          ((exists k :: 0 <= k < |v.pawns| && v.pawns[k].position == move.destination) && move.origin !in v.circles))) &&
      (out.Err? ==> r == v)
  {
  }

  /** When performMove does not throw, the pawns are moved as MovePawns says and the selection
      is reset; the moving pawn's path starts at the origin and has one more point per hop,
      the hop's second coordinate; its duration is 100 ms per point; a pawn is sent from the
      destination back to the origin exactly when one stood at the destination. */
  lemma PerformSucceeds<C>(v: View<C>, move: HexMove)
    requires Perform(v, move).1.Ok?
    ensures var (r, out) := Perform(v, move);
      var a := out.value;
      MovePawns(v.pawns, move.origin, move.destination).Some? &&
      r == Reset(v.(pawns := MovePawns(v.pawns, move.origin, move.destination).value)) &&
      |a.moved.path| == |move.movements| + 1 &&
      a.moved.path[0] == move.origin &&
      (forall k :: 0 <= k < |move.movements| ==> a.moved.path[k + 1] == move.movements[k].1) &&
      a.moved.durationMillis == 100 * |a.moved.path| &&
      (a.displaced.Some? <==> exists k :: 0 <= k < |v.pawns| && v.pawns[k].position == move.destination) &&
      (a.displaced.Some? ==> a.displaced.value.path == [move.destination, move.origin] && a.displaced.value.durationMillis == 100)
  {
  }

  /** For a move as the game builds it, the moving pawn's animation ends where its position
      now says it is. */
  lemma PerformEndsAtDestination<C>(v: View<C>, move: HexMove)
    requires WellFormed(move)
    requires Perform(v, move).1.Ok?
    ensures var (r, out) := Perform(v, move);
      var path := out.value.moved.path;
      path[|path| - 1] == move.destination &&
      r.pawns[FirstAt(v.pawns, move.origin).value].position == move.destination
  {
    MovePawnsEffect(v.pawns, move.origin, move.destination);
  }
}
