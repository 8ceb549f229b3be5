/** The finished dungeon as a function of the placed rooms, and what it guarantees. */
module DungeonLayout {
  import opened Grid
  import opened Corridor
  import opened Rooms

  predicate InSomeRoom(rs: seq<Room>, i: int, j: int) {
    exists k :: 0 <= k < |rs| && InRoom(rs[k], i, j)
  }

  lemma InSomeRoomAppend(rs: seq<Room>, c: Room, i: int, j: int)
    ensures InSomeRoom(rs + [c], i, j) <==> InSomeRoom(rs, i, j) || InRoom(c, i, j)
  {
    if InRoom(c, i, j) {
      assert (rs + [c])[|rs|] == c;
    }
    if InSomeRoom(rs, i, j) {
      var k :| 0 <= k < |rs| && InRoom(rs[k], i, j);
      assert (rs + [c])[k] == rs[k];
    }
  }

  /** Cell `(i, j)` lies on a corridor the connector carves out of the centre of
      room 0 toward the centre of a room `k >= 1` that was not yet connected. */
  predicate Joined(rs: seq<Room>, i: int, j: int) {
    |rs| >= 2 && exists k :: 1 <= k < |rs| && !rs[k].connected && OnPath(Center(rs[0]), Center(rs[k]), i, j)
  }

  /** `Joined` for the rooms of `init` that `now` already marks connected. */
  predicate JoinedSoFar(init: seq<Room>, now: seq<Room>, i: int, j: int) {
    && |init| >= 2
    && exists k :: 1 <= k < |init| && k < |now| && !init[k].connected && now[k].connected
         && OnPath(Center(init[0]), Center(init[k]), i, j)
  }

  /** The number of rooms not yet connected; the connector's loop measure. */
  function Unconnected(rs: seq<Room>): nat {
    if rs == [] then 0 else Unconnected(rs[..|rs| - 1]) + (if rs[|rs| - 1].connected then 0 else 1)
  }

  /** Marking an unconnected room connected lowers the count by one. */
  lemma {:induction false} UnconnectedAfterMark(rs: seq<Room>, c: int)
    requires 0 <= c < |rs| && !rs[c].connected
    ensures Unconnected(rs[c := rs[c].(connected := true)]) == Unconnected(rs) - 1
  {
    var next := rs[c := rs[c].(connected := true)];
    if c < |rs| - 1 {
      assert next[..|rs| - 1] == rs[..|rs| - 1][c := rs[c].(connected := true)];
      UnconnectedAfterMark(rs[..|rs| - 1], c);
    } else {
      assert next[..|rs| - 1] == rs[..|rs| - 1];
    }
  }

  /** `now` is `init` with the same rectangles, room 0 connected, and no flag cleared. */
  predicate Progressed(init: seq<Room>, now: seq<Room>) {
    && |now| == |init| >= 1 && now[0].connected
    && forall k :: 0 <= k < |now| ==> SameShape(now[k], init[k]) && (init[k].connected ==> now[k].connected)
  }

  /** Marking a room connected keeps the rectangles and the flags already set. */
  lemma ProgressedStep(init: seq<Room>, now: seq<Room>, c: int)
    requires Progressed(init, now) && 0 <= c < |now|
    ensures Progressed(init, now[c := now[c].(connected := true)])
  {
  }

  /** Marking one more room `c` connected adds exactly the corridor toward it. */
  lemma JoinedSoFarStep(init: seq<Room>, now: seq<Room>, c: int, i: int, j: int)
    requires Progressed(init, now) && |now| >= 2 && 0 <= c < |now| && !now[c].connected
    ensures JoinedSoFar(init, now[c := now[c].(connected := true)], i, j) <==>
      JoinedSoFar(init, now, i, j) || OnPath(Center(init[0]), Center(init[c]), i, j)
  {
    var next := now[c := now[c].(connected := true)];
    if OnPath(Center(init[0]), Center(init[c]), i, j) {
      assert next[c].connected && !init[c].connected;
    }
  }

  /** `rs` with every room marked connected. */
  function MarkAllConnected(rs: seq<Room>): (r: seq<Room>)
    ensures |r| == |rs| && forall k :: 0 <= k < |rs| ==> r[k] == rs[k].(connected := true)
  {
    seq(|rs|, k requires 0 <= k < |rs| => rs[k].(connected := true))
  }

  /** Once every flag is set, the rooms are those of `init`, all marked connected. */
  lemma ProgressedComplete(init: seq<Room>, now: seq<Room>)
    requires Progressed(init, now)
    requires forall k :: 0 <= k < |now| ==> now[k].connected
    ensures now == MarkAllConnected(init)
  {
  }

  /** Once every room is connected, the corridors carved are those of `Joined`. */
  lemma JoinedSoFarComplete(init: seq<Room>, now: seq<Room>, i: int, j: int)
    requires |init| == |now|
    requires forall k :: 0 <= k < |now| ==> now[k].connected
    ensures JoinedSoFar(init, now, i, j) <==> Joined(init, i, j)
  {
  }

  /** The tile at `(i, j)` once the rooms `rs` are placed: Floor on a Wall background. */
  function Base(rs: seq<Room>, i: int, j: int): Tile {
    if InSomeRoom(rs, i, j) then Floor else Wall
  }

  /** The tile at `(i, j)` once the corridors have turned Wall into Corridor. */
  function Carved(rs: seq<Room>, i: int, j: int): Tile {
    CarveCell(Base(rs, i, j), Joined(rs, i, j))
  }

  /** Tile `t` at `(i, j)` after Start is written at `start` and then End at `end`. */
  function MarkTile(t: Tile, start: Pos, end: Pos, i: int, j: int): Tile {
    if Pos(i, j) == end then End else if Pos(i, j) == start then Start else t
  }

  /** The tile at `(i, j)` of a finished dungeon whose placed rooms are `rs`:
      with two or more rooms, Start is written at the centre of the first room
      and End at the centre of the last one over the carved grid. */
  function Layout(rs: seq<Room>, i: int, j: int): Tile {
    if |rs| >= 2 then MarkTile(Carved(rs, i, j), Center(rs[0]), Center(rs[|rs| - 1]), i, j)
    else Carved(rs, i, j)
  }

  /** Room cells stay open (Floor, or the Start/End marks); corridors only appear
      outside rooms; a cell is Wall exactly when nothing claims it. */
  lemma LayoutTiles(rs: seq<Room>, i: int, j: int)
    ensures InSomeRoom(rs, i, j) ==> Layout(rs, i, j) in {Floor, Start, End}
    ensures Layout(rs, i, j) == Corridor ==> !InSomeRoom(rs, i, j) && Joined(rs, i, j)
    ensures Layout(rs, i, j) == Wall <==>
      (!InSomeRoom(rs, i, j) && !Joined(rs, i, j) &&
       !(|rs| >= 2 && (Pos(i, j) == Center(rs[0]) || Pos(i, j) == Center(rs[|rs| - 1]))))
  {
  }

  /** With separated rooms the Start cell is not overwritten by the End cell. */
  lemma StartEndDistinct(rs: seq<Room>)
    requires |rs| >= 2 && PairwiseSeparated(rs)
    requires forall k :: 0 <= k < |rs| ==> rs[k].width >= 1 && rs[k].height >= 1
    ensures Center(rs[0]) != Center(rs[|rs| - 1])
    ensures Layout(rs, Center(rs[0]).x, Center(rs[0]).y) == Start
    ensures Layout(rs, Center(rs[|rs| - 1]).x, Center(rs[|rs| - 1]).y) == End
  {
    var a, b := rs[0], rs[|rs| - 1];
    CenterInRoom(a);
    CenterInRoom(b);
    SeparatedRooms(a, b, Center(a).x, Center(a).y, Center(b).x, Center(b).y);
  }

  /** `w` is a walk out of `from` ending at `to` whose cells, `from` included,
      are in the grid and not Wall in the layout of `rs`. */
  predicate OpenWalkIn(rs: seq<Room>, from: Pos, w: seq<Pos>, to: Pos) {
    && IsWalk(from, w) && Last(from, w) == to
    && InGrid(from.x, from.y) && Layout(rs, from.x, from.y) != Wall
    && forall m :: 0 <= m < |w| ==> InGrid(w[m].x, w[m].y) && Layout(rs, w[m].x, w[m].y) != Wall
  }

  /** The corridor to a room `k >= 1` that started unconnected is an open walk
      from the centre of room 0 to the centre of room `k`. */
  lemma {:induction false} CorridorReachesRoom(rs: seq<Room>, k: int)
    requires 1 <= k < |rs| && !rs[k].connected
    requires CenterInGrid(rs[0]) && CenterInGrid(rs[k])
    ensures OpenWalkIn(rs, Center(rs[0]), Path(Center(rs[0]), Center(rs[k])), Center(rs[k]))
  {
    var s, e := Center(rs[0]), Center(rs[k]);
    var w := Path(s, e);
    PathIsWalk(s, e);
    EndsInGridPathInGrid(s, e);
    forall m | 0 <= m < |w|
      ensures InGrid(w[m].x, w[m].y) && Layout(rs, w[m].x, w[m].y) != Wall
    {
      PathCells(s, e, w[m].x, w[m].y);
      assert Joined(rs, w[m].x, w[m].y);
      CarveCellFacts(Base(rs, w[m].x, w[m].y), true);
    }
  }

  /** Every cell of a room `k >= 1` that started unconnected is reached from the
      centre of room 0 by an open walk: the corridor to the room's centre, then an
      L path inside the room's rectangle. */
  lemma RoomCellReachable(rs: seq<Room>, k: int, i: int, j: int)
    requires 1 <= k < |rs| && !rs[k].connected
    requires CenterInGrid(rs[0]) && IsCandidate(rs[k]) && InRoom(rs[k], i, j)
    ensures exists w :: OpenWalkIn(rs, Center(rs[0]), w, Pos(i, j))
  {
    var s, c, p := Center(rs[0]), Center(rs[k]), Pos(i, j);
    CandidateInGrid(rs[k]);
    CorridorReachesRoom(rs, k);
    var w1, w2 := Path(s, c), Path(c, p);
    PathIsWalk(c, p);
    forall m | 0 <= m < |w2|
      ensures InGrid(w2[m].x, w2[m].y) && Layout(rs, w2[m].x, w2[m].y) != Wall
    {
      PathCells(c, p, w2[m].x, w2[m].y);
      assert InRoom(rs[k], w2[m].x, w2[m].y);
      assert InSomeRoom(rs, w2[m].x, w2[m].y);
      LayoutTiles(rs, w2[m].x, w2[m].y);
    }
    WalkAppend(s, w1, w2);
    var w := w1 + w2;
    forall m | 0 <= m < |w|
      ensures InGrid(w[m].x, w[m].y) && Layout(rs, w[m].x, w[m].y) != Wall
    {
      if m < |w1| {
        assert w[m] == w1[m];
      } else {
        assert w[m] == w2[m - |w1|];
      }
    }
    assert OpenWalkIn(rs, s, w, p);
  }

  /** Start reaches End: the corridor to the last room is an open walk from the
      cell Start is written on to the End cell. */
  lemma StartReachesEnd(rs: seq<Room>)
    requires |rs| >= 2 && !rs[|rs| - 1].connected
    requires CenterInGrid(rs[0]) && CenterInGrid(rs[|rs| - 1])
    ensures OpenWalkIn(rs, Center(rs[0]), Path(Center(rs[0]), Center(rs[|rs| - 1])), Center(rs[|rs| - 1]))
    ensures Layout(rs, Center(rs[|rs| - 1]).x, Center(rs[|rs| - 1]).y) == End
  {
    CorridorReachesRoom(rs, |rs| - 1);
  }

  /** Draws that propose the 4 by 4 rooms with corners (2, 2) and (10, 10). */
  lemma TwoRoomDraws()
    ensures Candidate(Roll(0, 0, 1, 1)) == Room(2, 2, 4, 4, false)
    ensures Candidate(Roll(0, 0, 9, 9)) == Room(10, 10, 4, 4, false)
  {
    ModOfSmaller(0, MaxRoomSize - MinRoomSize + 1);
    ModOfSmaller(1, GridWidth - 4 - 2);
    ModOfSmaller(1, GridHeight - 4 - 2);
    ModOfSmaller(9, GridWidth - 4 - 2);
    ModOfSmaller(9, GridHeight - 4 - 2);
  }

  /** Both of those rooms are kept, with centres (4, 4) and (12, 12). */
  lemma TwoRoomPlacement()
    ensures var a, b := Room(2, 2, 4, 4, false), Room(10, 10, 4, 4, false);
      && Place([a, b]) == [a, b]
      && Center(a) == Pos(4, 4) && Center(b) == Pos(12, 12)
  {
    var a, b := Room(2, 2, 4, 4, false), Room(10, 10, 4, 4, false);
    assert [a, b][..1] == [a];
    assert [a][..0] == [];
    assert Place([a][..0]) == [];
    assert Place([a]) == [a];
    assert !OverlapsAny(b, [a]);
    assert Place([a, b]) == [a] + [b];
  }

  /** The layout of those two rooms: Start at (4, 4), End at (12, 12), and the
      Corridor cells exactly those of row 4 from column 6 to 12 and of column 12
      from row 5 to 9, that is the L path outside both rooms. */
  lemma TwoRoomLayout()
    ensures var rs := [Room(2, 2, 4, 4, false), Room(10, 10, 4, 4, false)];
      && Layout(rs, 4, 4) == Start && Layout(rs, 12, 12) == End
      && Layout(rs, 12, 11) == Floor && Layout(rs, 4, 8) == Wall
      && forall i, j :: Layout(rs, i, j) == Corridor <==> (j == 4 && 6 <= i <= 12) || (i == 12 && 5 <= j <= 9)
  {
    var rs := [Room(2, 2, 4, 4, false), Room(10, 10, 4, 4, false)];
    assert Center(rs[0]) == Pos(4, 4) && Center(rs[1]) == Pos(12, 12) && !rs[1].connected;
    assert InSomeRoom(rs, 12, 11) by { assert InRoom(rs[1], 12, 11); }
    assert !InSomeRoom(rs, 4, 8);
    forall i, j
      ensures Layout(rs, i, j) == Corridor <==> (j == 4 && 6 <= i <= 12) || (i == 12 && 5 <= j <= 9)
    {
      assert Joined(rs, i, j) <==> OnPath(Pos(4, 4), Pos(12, 12), i, j);
      assert InSomeRoom(rs, i, j) <==> InRoom(rs[0], i, j) || InRoom(rs[1], i, j);
    }
  }

  /** Fifteen placement attempts: the draws of the two rooms above, then the
      first room's draws again, thirteen times. */
  function TwoRoomRolls(): seq<Roll> {
    [Roll(0, 0, 1, 1), Roll(0, 0, 9, 9)] + seq(13, _ => Roll(0, 0, 1, 1))
  }

  /** The thirteen repeats are all rejected, so those attempts keep the two rooms. */
  lemma TwoRoomRollsPlace()
    ensures |TwoRoomRolls()| == MaxRooms
    ensures Place(Candidates(TwoRoomRolls())) == [Room(2, 2, 4, 4, false), Room(10, 10, 4, 4, false)]
  {
    var a, b := Room(2, 2, 4, 4, false), Room(10, 10, 4, 4, false);
    TwoRoomDraws();
    TwoRoomPlacement();
    var cands := Candidates(TwoRoomRolls());
    var rest := seq(13, _ => a);
    assert cands == [a, b] + rest;
    assert Overlaps(a, [a, b][0]);
    PlaceIgnoresRejected([a, b], rest);
  }
}
