# BoardViewAdapter — a Dafny model

This project models the logic of `BoardViewAdapter`, the client-side class of a Chinese
checkers game. The class sits between the game manager and the JavaFX board. The model keeps
the adapter's own state and proves what each of its handlers does to that state:

- **Corner colours** (the constructor). The colour list is stably sorted so the chosen colour
  comes first. The corner entries are stably sorted so the local player's entry comes first.
  The two lists are zipped, and the result is turned into a map from corner id to colour.
- **Drawing the board** (`getBoard`). There is one field circle per board coordinate. The
  pawn list is rebuilt with one pawn per piece. A pawn is clickable exactly when its piece
  belongs to the local player's corner.
- **The selection state machine**:
  - `emptyClickedHandler` resets everything;
  - `pawnClickedHandler` resets, then chooses the pawn and requests its moves;
  - `highlightPossibleMoves` highlights the possible destinations;
  - clicking a highlighted destination chooses that move.
- **Performing a move** (`performMove`). The first pawn at the origin goes to the destination.
  A pawn already at the destination is sent back to the origin (a swap, not a capture). The
  move's path has one point per hop, and the selection is reset.

How JavaFX is abstracted:

- A circle is the `HexCoord` it is drawn at.
- A circle's style classes are Boolean flags.
- A circle's mouse handler is one of the three the adapter installs:
  - print the position, installed by `getBoard`. It does not consume the click, so the click
    reaches the board pane, which resets;
  - choose a destination;
  - reset.
- A pawn's circle is two flags: clickable (otherwise mouse-transparent) and selected.
- A pawn is identified by its index in the pawn list.
- A Kotlin map the adapter reads (`board.fields`, `corners`) is a sequence of entries in
  iteration order.
- A `NoSuchElementException` from `first` or `getValue` is a `Failure` value. Every method
  leaves exactly the state the Kotlin code has built when that exception is thrown.
- Calls to `gameManager.requestAvailableMoves` are recorded in a `requests` field.

Modules:

- `Wrappers`: Option, Result and Failure.
- `Hex`: the game's values the adapter reads.
- `Collections`: Kotlin's `sortedByDescending` with a Boolean key, `zip`, `associate` and
  `Map.get`.
- `CornerColors`: the colour assignment.
- `Palette`: the game view's colours.
- `Pawns`: building and moving pawns.
- `Selection`: the handlers as functions of the whole state, a `View`.
- `BoardView`: the class `BoardViewAdapter`. Its methods update the state in place, with loops
  where the Kotlin code loops. Each handler method is proved to compute the matching
  `Selection` function: `GetBoard` computes `RebuildBoard`, `EmptyClicked` and
  `ClearAllHighlights` compute `Reset`, `PawnClicked` computes `SelectPawn`,
  `HighlightPossibleMoves` computes `Highlight`, `DestinationClicked` computes `Choose`,
  `FieldClicked` computes `ClickField`, and `PerformMove` computes `Perform`. The loop helpers
  compute the helper functions their contracts name: `DrawFields` computes `BuildPawns` and
  `Circles`, `ResetHighlighted` computes `ClearCircles`, and `HighlightAll` computes
  `MarkDestinations`. `HighlightCircle` is a direct update of one circle. The handler methods (`EmptyClicked`, `PawnClicked`, `ClearAllHighlights`,
  `HighlightPossibleMoves`, `FieldClicked`, `PerformMove`, `GetBoard`, and the constructor)
  are also proved to keep the invariant `Consistent`. Among other things, the invariant says
  that only a clickable pawn, one of the local player's corner, is ever selected.

## Model

| member | source | states |
|---|---|---|
| Collections.Get | src/main/kotlin/client/ui/BoardViewAdapter.kt:106 | The lookup finds nothing exactly when no entry has the key. Otherwise it returns a value paired with that key. |
| Collections.GetEntry | src/main/kotlin/client/ui/BoardViewAdapter.kt:65 | With distinct keys, looking up an entry's key returns that entry's value. |
| Collections.TrueFirst | src/main/kotlin/client/ui/BoardViewAdapter.kt:38-39 | `sortedByDescending` with a Boolean key: the true elements, then the false ones, each in their order. It keeps the length; specified by the TrueFirst lemmas below. |
| Collections.TrueFirstPermutation | src/main/kotlin/client/ui/BoardViewAdapter.kt:38 | Sorting with a Boolean key is a permutation. |
| Collections.TrueFirstHead | src/main/kotlin/client/ui/BoardViewAdapter.kt:38 | When some element's key is true, the sorted list starts with such an element. |
| Collections.TrueFirstSingle | src/main/kotlin/client/ui/BoardViewAdapter.kt:38-39 | When exactly one element's key is true, sorting moves it to the front and keeps the others in their order (stability). |
| Collections.TrueFirstNone | src/main/kotlin/client/ui/BoardViewAdapter.kt:38-39 | When no element's key is true, sorting changes nothing. |
| Collections.TrueFirstDistinctBy | src/main/kotlin/client/ui/BoardViewAdapter.kt:38-39 | Sorting keeps elements distinct under any projection if they were distinct before. |
| Collections.Zip | src/main/kotlin/client/ui/BoardViewAdapter.kt:39 | The zip has the shorter length, and its i-th pair is the two i-th elements. |
| Collections.Associate | src/main/kotlin/client/ui/BoardViewAdapter.kt:40 | The map's keys are exactly the pairs' first components. |
| Collections.AssociateLast | src/main/kotlin/client/ui/BoardViewAdapter.kt:40 | A key maps to the value of its last pair. |
| Collections.AssociateValue | src/main/kotlin/client/ui/BoardViewAdapter.kt:40 | Every value in the map comes from a pair with that key. |
| Collections.AssociateInjective | src/main/kotlin/client/ui/BoardViewAdapter.kt:40 | Pairs with distinct values give a map in which no two keys share a value. |
| CornerColors.AssignColors | src/main/kotlin/client/ui/BoardViewAdapter.kt:38-40 | Only corner ids that appear in the entries get a colour. |
| CornerColors.PairsAt | src/main/kotlin/client/ui/BoardViewAdapter.kt:38-40 | There are min(#colours, #entries) pairs. The i-th pair is the i-th sorted entry's corner with the i-th sorted colour. |
| CornerColors.ChosenColorMovesToFront | src/main/kotlin/client/ui/BoardViewAdapter.kt:38 | A chosen colour that occurs once goes first; the rest keep their order. |
| CornerColors.ChosenColorAbsent | src/main/kotlin/client/ui/BoardViewAdapter.kt:38 | A chosen colour that is not on offer leaves the colours in their order. |
| CornerColors.LocalEntryMovesToFront | src/main/kotlin/client/ui/BoardViewAdapter.kt:39 | The local player's entry goes first; the other entries keep their order. |
| CornerColors.LocalEntryAbsent | src/main/kotlin/client/ui/BoardViewAdapter.kt:39 | If the local player has no entry, the entries keep their order. |
| CornerColors.LocalCornerOnlyFirst | src/main/kotlin/client/ui/BoardViewAdapter.kt:39 | The local player's corner is the first sorted entry's and no later entry's. |
| CornerColors.AssignmentFollowsOrder | src/main/kotlin/client/ui/BoardViewAdapter.kt:38-40 | With distinct corner ids, the map's domain is the first min(#colours, #entries) sorted corners. The i-th of them gets the i-th sorted colour. |
| CornerColors.LocalCornerGetsChosenColor | src/main/kotlin/client/ui/BoardViewAdapter.kt:38-40 | If the chosen colour is on offer and the local player owns a corner no one else shares, that corner maps to the chosen colour. |
| CornerColors.ChosenFirstDistinct | src/main/kotlin/client/ui/BoardViewAdapter.kt:38 | Moving the chosen colour to the front keeps distinct colours distinct. |
| CornerColors.NoColorCollisions | src/main/kotlin/client/ui/BoardViewAdapter.kt:38-40 | With distinct colours, no two corners get the same colour. |
| Palette.GamePaletteNeverCollides | src/main/kotlin/client/ui/GameViewController.kt:22-23 | With the game view's six colours, no two corners ever share a colour, whatever colour is chosen. |
| Palette.InitialChoiceGivesLocalCornerRed | src/main/kotlin/client/ui/GameViewController.kt:22-38 | `initClientAndList` sets the choice to the first colour on offer, red (line 38), before any adapter is built. The palette then keeps its order, and the local player's corner, if no one else shares it, gets red. |
| Pawns.FirstAt | src/main/kotlin/client/ui/BoardViewAdapter.kt:147 | The result is the smallest index of a pawn at the coordinate; there is none exactly when no pawn stands there. |
| Pawns.Occupied | src/main/kotlin/client/ui/BoardViewAdapter.kt:49-57 | Every entry comes from a board field that holds that piece. |
| Pawns.OccupiedComplete | src/main/kotlin/client/ui/BoardViewAdapter.kt:49-57 | Every field that holds a piece appears, with that piece. |
| Pawns.OccupiedAppend | src/main/kotlin/client/ui/BoardViewAdapter.kt:49 | The occupied fields keep the board's iteration order: those of a prefix come first. |
| Pawns.BuildPawns | src/main/kotlin/client/ui/BoardViewAdapter.kt:48-73 | The pawns the loop adds and the exception that ends it. Specified by BuildPawnsFollowsFields and BuildPawnsFails. |
| Pawns.BuildPawnsFollowsFields | src/main/kotlin/client/ui/BoardViewAdapter.kt:48-73 | The k-th pawn stands on the k-th occupied field, with its corner's colour, and is unselected. It is clickable exactly when its corner is the local player's. Without an exception there is exactly one pawn per occupied field. |
| Pawns.BuildPawnsFails | src/main/kotlin/client/ui/BoardViewAdapter.kt:58-65 | The loop throws exactly when some occupied field's corner has no colour, or when there is a piece and the local player has no corner. |
| Pawns.MovePawns | src/main/kotlin/client/ui/BoardViewAdapter.kt:141-155 | The pawn list after the position updates. Specified by MovePawnsEffect, MovePawnsPermutesPositions and MovePawnsKeepsPawnsApart. |
| Pawns.MovePawnsEffect | src/main/kotlin/client/ui/BoardViewAdapter.kt:141-155 | Without a pawn at the origin it throws. Otherwise the first pawn at the origin ends at the destination, and the first pawn at the destination, if any, ends at the origin. Every other pawn is unchanged, and only positions change. |
| Pawns.MovePawnsPermutesPositions | src/main/kotlin/client/ui/BoardViewAdapter.kt:147-155 | With a pawn at the destination, the multiset of positions is unchanged (a swap). Otherwise one origin is replaced by the destination. |
| Pawns.MovePawnsKeepsPawnsApart | src/main/kotlin/client/ui/BoardViewAdapter.kt:147-155 | If no two pawns shared a field before the move, none do after it. |
| Selection.InitialConsistent | src/main/kotlin/client/ui/BoardViewAdapter.kt:29-34 | The state before any drawing satisfies the invariant. |
| Selection.RebuildBoard | src/main/kotlin/client/ui/BoardViewAdapter.kt:45-79 | `getBoard` on the state: the pawns are rebuilt, and the circles are replaced only if no lookup threw. Specified by RebuildBoardConsistent, BuildPawnsFollowsFields and BuildPawnsFails. |
| Selection.RebuildBoardConsistent | src/main/kotlin/client/ui/BoardViewAdapter.kt:45-79 | Redrawing keeps the invariant. On success the circles are exactly one unselected, printing circle per board coordinate. |
| Selection.CirclesStep | src/main/kotlin/client/ui/BoardViewAdapter.kt:55 | Drawing one more field adds its plain circle. |
| Selection.Reset | src/main/kotlin/client/ui/BoardViewAdapter.kt:88-100 | `emptyClickedHandler` on the state. Specified by ResetConsistent, ResetRestoresBaseline and ResetIdempotent. |
| Selection.ResetConsistent | src/main/kotlin/client/ui/BoardViewAdapter.kt:88-100 | A reset keeps the invariant. |
| Selection.ResetRestoresBaseline | src/main/kotlin/client/ui/BoardViewAdapter.kt:88-100 | After a reset no pawn or move is chosen, no circle is listed, and no pawn is selected. Every circle is unselected, not highlighted and not chosen. Previously listed circles get the reset handler; other circles are untouched. Every pawn keeps its position, colour and clickability, and only loses the selected style. |
| Selection.ResetIdempotent | src/main/kotlin/client/ui/BoardViewAdapter.kt:88-100 | Resetting twice gives the same state as resetting once. |
| Selection.ClearCirclesStep | src/main/kotlin/client/ui/BoardViewAdapter.kt:93-98 | Resetting one more listed circle. |
| Selection.SelectPawn | src/main/kotlin/client/ui/BoardViewAdapter.kt:102-111 | `pawnClickedHandler` for a clickable pawn; only those get the handler (lines 65-71). Specified by SelectPawnConsistent and SelectPawnDiscardsPrior. |
| Selection.SelectPawnConsistent | src/main/kotlin/client/ui/BoardViewAdapter.kt:102-111 | A click on a clickable pawn keeps the invariant, including that only clickable pawns are selected. |
| Selection.SelectPawnDiscardsPrior | src/main/kotlin/client/ui/BoardViewAdapter.kt:102-111 | A pawn click always discards the previous move and highlights. It throws exactly when the pawn's field is missing. It chooses the pawn and sends one request for its position exactly when the field holds a piece; otherwise nothing is chosen or sent. Afterwards only the chosen pawn is selected. Every pawn otherwise keeps its position, colour and clickability. |
| Selection.LastMoveTo | src/main/kotlin/client/ui/BoardViewAdapter.kt:122-126 | A move found for a coordinate ends at that coordinate. |
| Selection.LastMoveToIsLast | src/main/kotlin/client/ui/BoardViewAdapter.kt:122-136 | A move for a coordinate is found exactly when some move ends there. It is that coordinate's last move, whose handler survives the later installs. |
| Selection.MarkDestinationsKeepsLast | src/main/kotlin/client/ui/BoardViewAdapter.kt:122-136 | Every destination's circle waits for a click on a move of the list after which no move ends there: each later install (line 126) replaces the earlier one. |
| Selection.MarkDestinationsStep | src/main/kotlin/client/ui/BoardViewAdapter.kt:123-135 | One iteration of the forEach: that destination is listed and highlighted, and gets the move's handler. |
| Selection.Highlight | src/main/kotlin/client/ui/BoardViewAdapter.kt:121-137 | `highlightPossibleMoves` on the state. Specified by HighlightConsistent and HighlightEffect. |
| Selection.HighlightConsistent | src/main/kotlin/client/ui/BoardViewAdapter.kt:121-137 | Highlighting keeps the invariant. |
| Selection.HighlightEffect | src/main/kotlin/client/ui/BoardViewAdapter.kt:121-137 | A null move list changes nothing. A missing destination circle throws before anything changes. Otherwise one listed circle is appended per move, in the order of the moves. Each destination is highlighted and waits for a click on the last of the moves that end there. It keeps its other styles. Other circles, the pawns and the choices are unchanged. |
| Selection.UnchooseStep | src/main/kotlin/client/ui/BoardViewAdapter.kt:129-132 | Removing the chosen style from one more listed circle. |
| Selection.Choose | src/main/kotlin/client/ui/BoardViewAdapter.kt:126-135 | The handler installed on a destination circle. Specified by ClickFieldEffect. |
| Selection.ClickField | src/main/kotlin/client/ui/BoardViewAdapter.kt:54 | A click on a field circle, dispatched on its installed handler. Specified by ClickFieldConsistent and ClickFieldEffect. |
| Selection.ClickFieldConsistent | src/main/kotlin/client/ui/BoardViewAdapter.kt:126-135 | Any click on a field circle keeps the invariant. |
| Selection.ClickFieldEffect | src/main/kotlin/client/ui/BoardViewAdapter.kt:126-135 | Clicking a highlighted destination chooses exactly its move, which ends at that circle. That circle is then the only one marked chosen. Every circle keeps its highlight and its handler, so the other destinations stay clickable and a later click supersedes the choice. The pawns, the chosen pawn and the list are unchanged. Clicking any other circle is a reset. |
| Selection.MovePawnsKeepsConsistent | src/main/kotlin/client/ui/BoardViewAdapter.kt:152-155 | Moving pawns changes no style, so the invariant holds. |
| Selection.Perform | src/main/kotlin/client/ui/BoardViewAdapter.kt:139-158 | `performMove` on the state. Specified by PerformConsistent, PerformFails, PerformSucceeds and PerformEndsAtDestination. |
| Selection.PerformConsistent | src/main/kotlin/client/ui/BoardViewAdapter.kt:139-158 | Performing a move keeps the invariant. |
| Selection.PerformFails | src/main/kotlin/client/ui/BoardViewAdapter.kt:141-150 | It throws exactly when no pawn is at the origin, or a hop has no circle, or a pawn is at the destination and the origin has no circle. A throw changes nothing. |
| Selection.PerformSucceeds | src/main/kotlin/client/ui/BoardViewAdapter.kt:139-158 | The pawns move as MovePawns says and the selection is reset. The path starts at the origin and adds each hop's second coordinate, so it has #hops + 1 points, with 100 ms per point. A 100 ms path from the destination back to the origin exists exactly when a pawn stood at the destination. |
| Selection.PerformEndsAtDestination | src/main/kotlin/client/ui/BoardViewAdapter.kt:143-155 | For a move whose last hop ends at its destination, the path ends where the moved pawn now stands. |
| BoardView.BoardViewAdapter.constructor | src/main/kotlin/client/ui/BoardViewAdapter.kt:36-41 | The corner colours are the assignment above. Nothing is drawn, chosen or requested yet. |
| BoardView.BoardViewAdapter.GetBoard | src/main/kotlin/client/ui/BoardViewAdapter.kt:45-79 | The new state is RebuildBoard of the old one: pawns rebuilt, and circles replaced only if no lookup threw. |
| BoardView.BoardViewAdapter.DrawFields | src/main/kotlin/client/ui/BoardViewAdapter.kt:47-74 | The loop leaves the pawns and the failure of BuildPawns. Without a failure it leaves one plain circle per coordinate. |
| BoardView.BoardViewAdapter.EmptyClicked | src/main/kotlin/client/ui/BoardViewAdapter.kt:88-100 | The new state is Reset of the old one, and the invariant is kept. |
| BoardView.BoardViewAdapter.ResetHighlighted | src/main/kotlin/client/ui/BoardViewAdapter.kt:93-98 | Every listed circle is reset. |
| BoardView.BoardViewAdapter.PawnClicked | src/main/kotlin/client/ui/BoardViewAdapter.kt:102-111 | Callable only on a clickable pawn, the only kind with this handler. The new state is SelectPawn of the old one. A request is recorded exactly when SelectPawn issues one. |
| BoardView.BoardViewAdapter.ClearAllHighlights | src/main/kotlin/client/ui/BoardViewAdapter.kt:113-115 | Resets the selection. |
| BoardView.BoardViewAdapter.HighlightCircle | src/main/kotlin/client/ui/BoardViewAdapter.kt:117-119 | Only the highlighted flag of that circle changes. |
| BoardView.BoardViewAdapter.HighlightPossibleMoves | src/main/kotlin/client/ui/BoardViewAdapter.kt:121-137 | The new state and outcome are Highlight of the old state, and the invariant is kept. |
| BoardView.BoardViewAdapter.HighlightAll | src/main/kotlin/client/ui/BoardViewAdapter.kt:122-136 | The forEach lists every destination in order and marks its circle. |
| BoardView.BoardViewAdapter.DestinationClicked | src/main/kotlin/client/ui/BoardViewAdapter.kt:126-135 | The new state is Choose of the old one. |
| BoardView.BoardViewAdapter.FieldClicked | src/main/kotlin/client/ui/BoardViewAdapter.kt:54 | The new state is ClickField of the old one: the print handler's click reaches the pane (line 76), the reset handler resets (line 97), a destination handler chooses. |
| BoardView.BoardViewAdapter.PerformMove | src/main/kotlin/client/ui/BoardViewAdapter.kt:139-158 | The new state and result are Perform of the old state, and the invariant is kept. |

## Left out

- Pixel layout, `setLocationOfCircle` (lines 81-86): floating-point trigonometry and property
  binding. A pawn circle's screen position is taken to be the position it records, so a path
  is a list of coordinates.
- JavaFX rendering: `Pane`, circle radii, `viewOrder` and `PathTransition.play()`. Only each
  animation's coordinates and its duration are kept.
- Pane enabling: the board pane starts disabled (line 77), and the game view enables it. While
  it is disabled no click reaches any handler. The model lets every handler run at any time.
- `println` calls (lines 54, 89, 127): console output only.
- `gameManager.game.fillBoardCorners(corners)` (line 37): code of the game model, which is not
  part of this model. Corners are an input to the constructor.
- GameManager, Game, HexCoord and HexMove are not part of this model. The adapter reads
  `board.fields`, `corners`, `playerId` and `possibleMoves` from them, and these are
  parameters of the operations. A hop is a pair of coordinates, of which the adapter reads
  only the second (line 144).
- GameViewController.kt as a whole: thread marshalling, dialogs, view replacement and network
  messages. Its `endTurn` (line 84) reads the adapter's `chosenMove`, which the model exposes
  as a field.
- Object identity:
  - Circles are identified by coordinate. After a second `getBoard`, `highlightedCircles` in
    the Kotlin code still holds the old circle objects, detached from the screen. The model
    holds coordinates, so a later reset restyles the new circles at those coordinates
    instead.
  - Pawns are identified by index. An old chosen pawn whose list was rebuilt is deselected by
    index in the new list. Every rebuilt pawn is already unselected, so this changes nothing.
- `fieldCircles` is a `lateinit` property. Reading it before the first `getBoard` throws; the
  model starts with an empty map, so the lookups fail as missing circles instead.
- BoardView.BoardViewAdapter.PawnClicked: stated for the pawn's current index. The Kotlin
  handler captures the pawn object when `getBoard` creates it.
