/** The colours the game view offers to the adapter (client/ui/GameViewController.kt). */
module Palette {
  import opened Wrappers
  import opened Collections
  import opened CornerColors

  datatype Color = Red | Green | Yellow | DarkViolet | Orange | DarkBlue

  /** `availableColors` of the game view, in its order. */
  const AvailableColors: seq<Color> := [Red, Green, Yellow, DarkViolet, Orange, DarkBlue]

  /** With the game view's palette, whatever colour the player picks and however the
      corners are owned, no two corners share a colour. */
  lemma GamePaletteNeverCollides(chosen: Color, corners: seq<(int, int)>, playerId: int)
    ensures var m := AssignColors(AvailableColors, chosen, corners, playerId);
      forall k1, k2 :: k1 in m && k2 in m && k1 != k2 ==> m[k1] != m[k2]
  {
    NoColorCollisions(AvailableColors, chosen, corners, playerId);
  }

  /** The game view sets the choice to the first colour on offer, red, before it builds an
      adapter: the palette then keeps its order and the local player's corner gets red. */
  lemma InitialChoiceGivesLocalCornerRed(corners: seq<(int, int)>, playerId: int, corner: int)
    requires DistinctKeys(corners)
    requires Get(corners, playerId) == Some(corner)
    requires forall j :: 0 <= j < |corners| && corners[j].1 == corner ==> corners[j].0 == playerId
    ensures ChosenFirst(AvailableColors, AvailableColors[0]) == AvailableColors
    ensures var m := AssignColors(AvailableColors, AvailableColors[0], corners, playerId);
      corner in m && m[corner] == Red
  {
    ChosenColorMovesToFront(AvailableColors, Red, 0);
    assert [Red] + AvailableColors[..0] + AvailableColors[1..] == AvailableColors;
    LocalCornerGetsChosenColor(AvailableColors, Red, corners, playerId, corner);
  }
}
