/** The colour of every corner, computed once when the adapter is constructed:
    the colour list with the chosen colour first, zipped with the game's corner entries
    (player id to corner id) with the local player's entry first, as a map from corner id
    to colour. */
module CornerColors {
  import opened Wrappers
  import opened Collections

  /** `availableColors.sortedByDescending { it == chosenColor }` */
  function ChosenFirst<C(==)>(colors: seq<C>, chosen: C): seq<C> {
    TrueFirst(colors, (c: C) => c == chosen)
  }

  /** `corners.entries.sortedByDescending { it.key == playerId }`: entries are (player id, corner id). */
  function LocalFirst(corners: seq<(int, int)>, playerId: int): seq<(int, int)> {
    TrueFirst(corners, (e: (int, int)) => e.0 == playerId)
  }

  /** `.zip(...).associate { it.second.value to it.first }` before the map is built:
      the (corner id, colour) pairs in order. */
  function CornerColorPairs<C(==)>(colors: seq<C>, chosen: C, corners: seq<(int, int)>, playerId: int): seq<(int, C)> {
    var z := Zip(ChosenFirst(colors, chosen), LocalFirst(corners, playerId));
    seq(|z|, i requires 0 <= i < |z| => (z[i].1.1, z[i].0))
  }

  /** The corner ids of the entries. */
  function CornerIds(corners: seq<(int, int)>): set<int> {
    set i | 0 <= i < |corners| :: corners[i].1
  }

  /** `cornersAndColors`: only corners that have an entry get a colour. */
  function AssignColors<C(==)>(colors: seq<C>, chosen: C, corners: seq<(int, int)>, playerId: int): (m: map<int, C>)
    ensures m.Keys <= CornerIds(corners)
  {
    var ps := CornerColorPairs(colors, chosen, corners, playerId);
    var local := LocalFirst(corners, playerId);
    assert forall i :: 0 <= i < |ps| ==> ps[i].0 in CornerIds(corners) by {
      FilterMembers(corners, (e: (int, int)) => e.0 == playerId, true);
      FilterMembers(corners, (e: (int, int)) => e.0 == playerId, false);
      assert forall i :: 0 <= i < |local| ==> local[i] in corners;
      forall i | 0 <= i < |ps| ensures ps[i].0 in CornerIds(corners) {
        var j :| 0 <= j < |corners| && local[i] == corners[j];
      }
    }
    Associate(ps)
  }

  /** Each corner id belongs to one player only. */
  ghost predicate DistinctCorners(corners: seq<(int, int)>) {
    DistinctBy(corners, (e: (int, int)) => e.1)
  }

  /** The pairs are the positional pairs of the two sorted lists, truncated to the shorter. */
  lemma PairsAt<C>(colors: seq<C>, chosen: C, corners: seq<(int, int)>, playerId: int)
    ensures var ps := CornerColorPairs(colors, chosen, corners, playerId);
      |ps| == (if |colors| < |corners| then |colors| else |corners|) &&
      forall i :: 0 <= i < |ps| ==>
        ps[i] == (LocalFirst(corners, playerId)[i].1, ChosenFirst(colors, chosen)[i])
  {
  }

  /** With its colour present once, the chosen colour moves to the front and the other
      colours keep their order. */
  lemma ChosenColorMovesToFront<C>(colors: seq<C>, chosen: C, k: nat)
    requires k < |colors| && colors[k] == chosen
    requires forall j :: 0 <= j < |colors| && j != k ==> colors[j] != chosen
    ensures ChosenFirst(colors, chosen) == [chosen] + colors[..k] + colors[k + 1..]
  {
    TrueFirstSingle(colors, (c: C) => c == chosen, k);
  }

  /** Without the chosen colour, the colours keep their order. */
  lemma ChosenColorAbsent<C>(colors: seq<C>, chosen: C)
    requires chosen !in colors
    ensures ChosenFirst(colors, chosen) == colors
  {
    TrueFirstNone(colors, (c: C) => c == chosen);
  }

  /** The local player's entry moves to the front and the other entries keep their order. */
  lemma LocalEntryMovesToFront(corners: seq<(int, int)>, playerId: int, k: nat)
    requires DistinctKeys(corners)
    requires k < |corners| && corners[k].0 == playerId
    ensures LocalFirst(corners, playerId) == [corners[k]] + corners[..k] + corners[k + 1..]
  {
    TrueFirstSingle(corners, (e: (int, int)) => e.0 == playerId, k);
  }

  /** Without an entry for the local player, the entries keep their order. */
  lemma LocalEntryAbsent(corners: seq<(int, int)>, playerId: int)
    requires Get(corners, playerId) == None
    ensures LocalFirst(corners, playerId) == corners
  {
    TrueFirstNone(corners, (e: (int, int)) => e.0 == playerId);
  }

  /** With distinct corner ids, the i-th corner of the sorted entries gets the i-th colour
      of the sorted colours, for every i below the shorter length, and no other corner
      gets a colour. */
  lemma AssignmentFollowsOrder<C>(colors: seq<C>, chosen: C, corners: seq<(int, int)>, playerId: int)
    requires DistinctCorners(corners)
    ensures var m := AssignColors(colors, chosen, corners, playerId);
      var local, palette := LocalFirst(corners, playerId), ChosenFirst(colors, chosen);
      var n := if |colors| < |corners| then |colors| else |corners|;
      m.Keys == (set i | 0 <= i < n :: local[i].1) &&
      forall i :: 0 <= i < n ==> local[i].1 in m && m[local[i].1] == palette[i]
  {
    var ps := CornerColorPairs(colors, chosen, corners, playerId);
    var local := LocalFirst(corners, playerId);
    PairsAt(colors, chosen, corners, playerId);
    TrueFirstDistinctBy(corners, (e: (int, int)) => e.0 == playerId, (e: (int, int)) => e.1);
    forall i | 0 <= i < |ps|
      ensures ps[i].0 in Associate(ps) && Associate(ps)[ps[i].0] == ps[i].1
    {
      forall j | i < j < |ps| ensures ps[j].0 != ps[i].0 {
        assert ps[i].0 == local[i].1 && ps[j].0 == local[j].1;
      }
      AssociateLast(ps, i);
    }
  }

  /** The local player's corner gets the chosen colour, when the colour is on offer,
      the player has a corner, and no other player shares that corner. */
  lemma LocalCornerGetsChosenColor<C>(colors: seq<C>, chosen: C, corners: seq<(int, int)>, playerId: int, corner: int)
    requires chosen in colors
    requires DistinctKeys(corners)
    requires Get(corners, playerId) == Some(corner)
    requires forall j :: 0 <= j < |corners| && corners[j].1 == corner ==> corners[j].0 == playerId
    ensures var m := AssignColors(colors, chosen, corners, playerId);
      corner in m && m[corner] == chosen
  {
    var ps := CornerColorPairs(colors, chosen, corners, playerId);
    var c :| 0 <= c < |colors| && colors[c] == chosen;
    TrueFirstHead(colors, (x: C) => x == chosen, c);
    LocalCornerOnlyFirst(corners, playerId, corner);
    PairsAt(colors, chosen, corners, playerId);
    assert ps[0] == (corner, chosen);
    AssociateLast(ps, 0);
  }

  /** The local player's corner is the first sorted entry's and no later entry's. */
  lemma LocalCornerOnlyFirst(corners: seq<(int, int)>, playerId: int, corner: int)
    requires DistinctKeys(corners)
    requires Get(corners, playerId) == Some(corner)
    requires forall j :: 0 <= j < |corners| && corners[j].1 == corner ==> corners[j].0 == playerId
    ensures var local := LocalFirst(corners, playerId);
      |local| > 0 && local[0] == (playerId, corner) &&
      forall j :: 0 < j < |local| ==> local[j].1 != corner
  {
    var k :| 0 <= k < |corners| && corners[k] == (playerId, corner);
    LocalEntryMovesToFront(corners, playerId, k);
    var local := LocalFirst(corners, playerId);
    forall j | 0 < j < |local| ensures local[j].1 != corner {
      if j <= k {
        assert local[j] == corners[j - 1];
      } else {
        assert local[j] == corners[j];
      }
    }
  }

  /** Moving the chosen colour to the front keeps distinct colours distinct. */
  lemma ChosenFirstDistinct<C>(colors: seq<C>, chosen: C)
    requires Distinct(colors)
    ensures Distinct(ChosenFirst(colors, chosen))
  {
    TrueFirstDistinctBy(colors, (c: C) => c == chosen, (x: C) => x);
  }

  /** With distinct colours, no two corners get the same colour. */
  lemma NoColorCollisions<C>(colors: seq<C>, chosen: C, corners: seq<(int, int)>, playerId: int)
    requires Distinct(colors)
    ensures var m := AssignColors(colors, chosen, corners, playerId);
      forall k1, k2 :: k1 in m && k2 in m && k1 != k2 ==> m[k1] != m[k2]
  {
    var ps := CornerColorPairs(colors, chosen, corners, playerId);
    var palette := ChosenFirst(colors, chosen);
    PairsAt(colors, chosen, corners, playerId);
    ChosenFirstDistinct(colors, chosen);
    assert DistinctBy(ps, (p: (int, C)) => p.1) by {
      forall i, j | 0 <= i < j < |ps| ensures ps[i].1 != ps[j].1 {
        assert ps[i].1 == palette[i] && ps[j].1 == palette[j];
      }
    }
    AssociateInjective(ps);
    assert AssignColors(colors, chosen, corners, playerId) == Associate(ps);
  }
}
