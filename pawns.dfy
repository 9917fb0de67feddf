/** The adapter's pawns: one per occupied field, each knowing the coordinate it stands on.
    A pawn's circle is abstracted to two flags: whether clicks reach its handler
    (`clickable`, otherwise it is mouse-transparent) and whether it carries the
    selected style. */
module Pawns {
  import opened Wrappers
  import opened Collections
  import opened Hex

  datatype Pawn<C> = Pawn(position: HexCoord, color: C, clickable: bool, selected: bool)

  /** The coordinates of the pawns, in list order. */
  function Positions<C>(pawns: seq<Pawn<C>>): seq<HexCoord> {
    seq(|pawns|, i requires 0 <= i < |pawns| => pawns[i].position)
  }

  /** `pawns.firstOrNull { it.position == c }`, as an index. */
  function FirstAt<C>(pawns: seq<Pawn<C>>, c: HexCoord): (r: Option<nat>)
    ensures r.Some? ==> r.value < |pawns| && pawns[r.value].position == c
    ensures r.Some? ==> forall j :: 0 <= j < r.value ==> pawns[j].position != c
    ensures r.None? <==> forall j :: 0 <= j < |pawns| ==> pawns[j].position != c
  {
    if pawns == [] then None
    else if pawns[0].position == c then Some(0)
    else
      match FirstAt(pawns[1..], c)
      case None =>
        assert forall j :: 1 <= j < |pawns| ==> pawns[j] == pawns[1..][j - 1];
        None
      case Some(k) =>
        assert forall j :: 1 <= j <= k ==> pawns[j] == pawns[1..][j - 1];
        Some(k + 1)
  }

  /** The occupied fields of the board, in iteration order, with their pieces. */
  function Occupied(fields: Board): (r: seq<(HexCoord, Piece)>)
    ensures |r| <= |fields|
    ensures forall k :: 0 <= k < |r| ==> exists i :: 0 <= i < |fields| && fields[i] == (r[k].0, Field(Some(r[k].1)))
  {
    if fields == [] then []
    else
      var rest := Occupied(fields[1..]);
      assert forall k :: 0 <= k < |rest| ==> exists i :: 0 <= i < |fields| && fields[i] == (rest[k].0, Field(Some(rest[k].1))) by {
        forall k | 0 <= k < |rest| ensures exists i :: 0 <= i < |fields| && fields[i] == (rest[k].0, Field(Some(rest[k].1))) {
          var i :| 0 <= i < |fields[1..]| && fields[1..][i] == (rest[k].0, Field(Some(rest[k].1)));
          assert fields[i + 1] == fields[1..][i];
        }
      }
      match fields[0].1.piece
      case None => rest
      case Some(p) => [(fields[0].0, p)] + rest
  }

  /** Every occupied field appears among the occupied fields. */
  lemma {:induction false} OccupiedComplete(fields: Board, i: nat)
    requires i < |fields| && fields[i].1.piece.Some?
    ensures (fields[i].0, fields[i].1.piece.value) in Occupied(fields)
  {
    if i > 0 {
      assert fields[1..][i - 1] == fields[i];
      OccupiedComplete(fields[1..], i - 1);
    }
  }

  /** The occupied fields keep the board's iteration order: those of a prefix come before
      those of the rest. */
  lemma {:induction false} OccupiedAppend(a: Board, b: Board)
    ensures Occupied(a + b) == Occupied(a) + Occupied(b)
  {
    if a != [] {
      assert (a + b)[0] == a[0] && (a + b)[1..] == a[1..] + b;
      OccupiedAppend(a[1..], b);
    } else {
      assert a + b == b;
    }
  }

  /** The pawns `getBoard` has added when its loop ends, and the exception that ended it, if any. */
  datatype Built<C> = Built(pawns: seq<Pawn<C>>, failure: Option<Failure>)

  /** One step of `getBoard`'s loop, for a field with a piece: the pawn's colour is looked up
      before it is added, the local player's corner after. A pawn added just before the second
      lookup throws gets neither a click handler nor mouse transparency. */
  function BuildPawns<C>(fields: Board, colors: map<int, C>, localCorner: Option<int>): Built<C> {
    if fields == [] then Built([], None)
    else
      match fields[0].1.piece
      case None => BuildPawns(fields[1..], colors, localCorner)
      case Some(p) =>
        if p.cornerId !in colors then Built([], Some(NoColorForCorner))
        else if localCorner.None? then Built([Pawn(fields[0].0, colors[p.cornerId], false, false)], Some(NoCornerForPlayer))
        else
          var rest := BuildPawns(fields[1..], colors, localCorner);
          Built([Pawn(fields[0].0, colors[p.cornerId], p.cornerId == localCorner.value, false)] + rest.pawns, rest.failure)
  }

  /** The pawns built from the i-th field on: the i-th field's pawn, if any, before the rest. */
  lemma BuildPawnsFrom<C>(fields: Board, colors: map<int, C>, localCorner: Option<int>, i: nat)
    requires i < |fields|
    ensures var rest, (position, field) := BuildPawns(fields[i + 1..], colors, localCorner), fields[i];
      BuildPawns(fields[i..], colors, localCorner) ==
        match field.piece
        case None => rest
        case Some(p) =>
          if p.cornerId !in colors then Built([], Some(NoColorForCorner))
          else if localCorner.None? then Built([Pawn(position, colors[p.cornerId], false, false)], Some(NoCornerForPlayer))
          else Built([Pawn(position, colors[p.cornerId], p.cornerId == localCorner.value, false)] + rest.pawns, rest.failure)
  {
    assert fields[i..][0] == fields[i] && fields[i..][1..] == fields[i + 1..];
  }

  /** The pawns built stand in order for the occupied fields: the k-th pawn is on the k-th
      occupied field, has its corner's colour, is unselected, and is clickable exactly when
      its piece belongs to the local player's corner. Without an exception there is exactly
      one pawn per occupied field. */
  lemma {:induction false} BuildPawnsFollowsFields<C>(fields: Board, colors: map<int, C>, localCorner: Option<int>)
    ensures var b, occ := BuildPawns(fields, colors, localCorner), Occupied(fields);
      |b.pawns| <= |occ| &&
      (b.failure == None ==> |b.pawns| == |occ|) &&
      forall k :: 0 <= k < |b.pawns| ==>
        b.pawns[k].position == occ[k].0 &&
        occ[k].1.cornerId in colors && b.pawns[k].color == colors[occ[k].1.cornerId] &&
        (b.pawns[k].clickable <==> localCorner == Some(occ[k].1.cornerId)) &&
        !b.pawns[k].selected
  {
    if fields != [] {
      BuildPawnsFollowsFields(fields[1..], colors, localCorner);
    }
  }

  /** Every occupied field's corner has a colour. */
  ghost predicate AllColored<C>(occ: seq<(HexCoord, Piece)>, colors: map<int, C>) {
    forall k :: 0 <= k < |occ| ==> occ[k].1.cornerId in colors
  }

  /** `getBoard` throws exactly when an occupied field's corner has no colour, or when there
      is an occupied field and the local player has no corner. */
  lemma {:induction false} BuildPawnsFails<C>(fields: Board, colors: map<int, C>, localCorner: Option<int>)
    ensures var occ := Occupied(fields);
      BuildPawns(fields, colors, localCorner).failure == None <==>
        AllColored(occ, colors) && (|occ| > 0 ==> localCorner.Some?)
  {
    if fields != [] {
      var occ, rest := Occupied(fields), Occupied(fields[1..]);
      BuildPawnsFails(fields[1..], colors, localCorner);
      match fields[0].1.piece
      case None =>
        assert occ == rest;
      case Some(p) =>
        assert occ == [(fields[0].0, p)] + rest;
        if AllColored(occ, colors) {
          assert occ[0].1 == p;
          forall k | 0 <= k < |rest| ensures rest[k].1.cornerId in colors {
            assert rest[k] == occ[k + 1];
          }
        }
        if p.cornerId in colors && AllColored(rest, colors) {
          forall k | 0 <= k < |occ| ensures occ[k].1.cornerId in colors {
            if k > 0 { assert occ[k] == rest[k - 1]; }
          }
        }
    }
  }

  /** The pawns after `performMove`'s position updates, if some pawn stands at the origin:
      the first pawn at the destination, if any, moves to the origin, and then the first
      pawn that stood at the origin moves to the destination. */
  function MovePawns<C>(pawns: seq<Pawn<C>>, origin: HexCoord, destination: HexCoord): Option<seq<Pawn<C>>> {
    match FirstAt(pawns, origin)
    case None => None
    case Some(i) =>
      var swapped :=
        match FirstAt(pawns, destination)
        case None => pawns
        case Some(j) => pawns[j := pawns[j].(position := origin)];
      Some(swapped[i := swapped[i].(position := destination)])
  }

  /** The first pawn at the origin ends at the destination; the first pawn at the destination,
      if any, ends at the origin; every other pawn, and everything but the position, is
      unchanged. Without a pawn at the origin nothing moves. */
  lemma MovePawnsEffect<C>(pawns: seq<Pawn<C>>, origin: HexCoord, destination: HexCoord)
    ensures MovePawns(pawns, origin, destination).None? <==> forall k :: 0 <= k < |pawns| ==> pawns[k].position != origin
    ensures MovePawns(pawns, origin, destination).Some? ==>
      var r, i, j := MovePawns(pawns, origin, destination).value, FirstAt(pawns, origin).value, FirstAt(pawns, destination);
      |r| == |pawns| &&
      r[i].position == destination &&
      (j.Some? ==> r[j.value].position == origin) &&
      (forall k :: 0 <= k < |r| && k != i && j != Some(k) ==> r[k] == pawns[k]) &&
      (forall k :: 0 <= k < |r| ==> r[k] == pawns[k].(position := r[k].position))
  {
  }

  /** With a pawn at the destination the move is a swap and the positions are a permutation of
      the old ones; otherwise one occurrence of the origin is replaced by the destination. */
  lemma MovePawnsPermutesPositions<C>(pawns: seq<Pawn<C>>, origin: HexCoord, destination: HexCoord)
    requires MovePawns(pawns, origin, destination).Some?
    ensures var after := Positions(MovePawns(pawns, origin, destination).value);
      if FirstAt(pawns, destination).Some? then multiset(after) == multiset(Positions(pawns))
      else multiset(after) == multiset(Positions(pawns)) - multiset{origin} + multiset{destination}
  {
    var r := MovePawns(pawns, origin, destination).value;
    var i := FirstAt(pawns, origin).value;
    var p := Positions(pawns);
    match FirstAt(pawns, destination)
    case None =>
      assert Positions(r) == p[i := destination];
    case Some(j) =>
      assert Positions(r) == p[j := origin][i := destination];
      if i != j {
        assert p[j := origin][i := destination] == p[i := destination][j := origin];
      }
  }

  /** No two pawns ever stand on one field: positions that were apart stay apart. */
  lemma MovePawnsKeepsPawnsApart<C>(pawns: seq<Pawn<C>>, origin: HexCoord, destination: HexCoord)
    requires Distinct(Positions(pawns))
    requires MovePawns(pawns, origin, destination).Some?
    ensures Distinct(Positions(MovePawns(pawns, origin, destination).value))
  {
    var r := MovePawns(pawns, origin, destination).value;
    var i := FirstAt(pawns, origin).value;
    var j := FirstAt(pawns, destination);
    var p := Positions(pawns);
    MovePawnsEffect(pawns, origin, destination);
    forall a, b | 0 <= a < b < |r| ensures Positions(r)[a] != Positions(r)[b] {
      assert p[a] != p[b] && p[a] == pawns[a].position && p[b] == pawns[b].position;
      assert p[i] == origin;
      if j.Some? {
        assert p[j.value] == destination;
      }
    }
  }
}
