/** The generator's state and its phases, updated in place as the program does. */
module Dungeon {
  import opened Grid
  import opened Corridor
  import opened Rooms
  import opened DungeonLayout

  class Dungeon {
    /** The tile grid, indexed `[x, y]`. */
    const grid: array2<Tile>
    /** Room storage; the first `roomCount` entries are the committed rooms. */
    const rooms: array<Room>
    var roomCount: nat
    var startPos: Pos
    var endPos: Pos

    ghost predicate Valid()
      reads this
    {
      && grid.Length0 == GridWidth && grid.Length1 == GridHeight
      && rooms.Length == MaxRooms && roomCount <= MaxRooms
    }

    /** The committed rooms, in placement order. */
    ghost function Committed(): seq<Room>
      reads this, rooms
      requires Valid()
    {
      rooms[..roomCount]
    }

    /** `w` is a walk out of `from` ending at `to` whose cells, `from` included,
        are in the grid and not Wall. */
    ghost predicate OpenWalk(from: Pos, w: seq<Pos>, to: Pos)
      reads this, grid
      requires Valid()
    {
      && IsWalk(from, w) && Last(from, w) == to
      && InGrid(from.x, from.y) && grid[from.x, from.y] != Wall
      && forall m :: 0 <= m < |w| ==> InGrid(w[m].x, w[m].y) && grid[w[m].x, w[m].y] != Wall
    }

    /** The grid shows the rooms `rs` on a Wall background. */
    ghost predicate ShowsRooms(rs: seq<Room>)
      reads this, grid
      requires Valid()
    {
      forall i, j :: InGrid(i, j) ==> grid[i, j] == Base(rs, i, j)
    }

    /** The grid shows the rooms `rs` and the corridors joining them. */
    ghost predicate ShowsCorridors(rs: seq<Room>)
      reads this, grid
      requires Valid()
    {
      forall i, j :: InGrid(i, j) ==> grid[i, j] == Carved(rs, i, j)
    }

    /** The grid is the finished layout of the rooms `rs`. */
    ghost predicate ShowsLayout(rs: seq<Room>)
      reads this, grid
      requires Valid()
    {
      forall i, j :: InGrid(i, j) ==> grid[i, j] == Layout(rs, i, j)
    }

    /** The zero-initialised program state: an Empty grid and no rooms. */
    constructor ()
      ensures Valid() && fresh(grid) && fresh(rooms)
      ensures roomCount == 0 && startPos == Pos(0, 0) && endPos == Pos(0, 0)
      ensures forall i, j :: InGrid(i, j) ==> grid[i, j] == Empty
    {
      grid := new Tile[GridWidth, GridHeight]((i, j) => Empty);
      rooms := new Room[MaxRooms](_ => Room(0, 0, 0, 0, false));
      roomCount := 0;
      startPos, endPos := Pos(0, 0), Pos(0, 0);
    }

    /** Resets every cell to Wall and empties the room list. */
    method InitGrid()
      requires Valid()
      modifies this`roomCount, grid
      ensures Valid() && roomCount == 0
      ensures forall i, j :: InGrid(i, j) ==> grid[i, j] == Wall
    {
      for x := 0 to GridWidth
        invariant forall i, j :: 0 <= i < x && 0 <= j < GridHeight ==> grid[i, j] == Wall
      {
        for y := 0 to GridHeight
          invariant forall i, j :: 0 <= i < x && 0 <= j < GridHeight ==> grid[i, j] == Wall
          invariant forall j :: 0 <= j < y ==> grid[x, j] == Wall
        {
          grid[x, y] := Wall;
        }
      }
      roomCount := 0;
    }

    /** Tests the candidate against every committed room; when none rejects it,
        fills its in-grid cells with Floor. Does not record the room. */
    method CreateRoom(x: int, y: int, width: int, height: int) returns (placed: bool)
      requires Valid()
      modifies grid
      ensures Valid()
      ensures placed <==> !OverlapsAny(Room(x, y, width, height, false), Committed())
      ensures forall i, j :: InGrid(i, j) ==>
        grid[i, j] == if placed && InRoom(Room(x, y, width, height, false), i, j) then Floor else old(grid[i, j])
    {
      var candidate := Room(x, y, width, height, false);
      for i := 0 to roomCount
        invariant forall k :: 0 <= k < i ==> !Overlaps(candidate, rooms[k])
      {
        if Overlaps(candidate, rooms[i]) {
          assert Committed()[i] == rooms[i];
          return false;
        }
      }
      assert forall k :: 0 <= k < roomCount ==> Committed()[k] == rooms[k];

      var rx := x;
      while rx < x + width
        invariant x <= rx && (width >= 0 ==> rx <= x + width) && (width < 0 ==> rx == x)
        invariant forall i, j :: InGrid(i, j) ==>
          grid[i, j] == if x <= i < rx && y <= j < y + height then Floor else old(grid[i, j])
        decreases x + width - rx
      {
        var ry := y;
        while ry < y + height
          invariant y <= ry && (height >= 0 ==> ry <= y + height) && (height < 0 ==> ry == y)
          invariant forall i, j :: InGrid(i, j) ==>
            grid[i, j] == if (x <= i < rx && y <= j < y + height) || (i == rx && y <= j < ry) then Floor else old(grid[i, j])
          decreases y + height - ry
        {
          if 0 <= rx < GridWidth && 0 <= ry < GridHeight {
            grid[rx, ry] := Floor;
          }
          ry := ry + 1;
        }
        rx := rx + 1;
      }
      return true;
    }

    /** Carves the L-shaped corridor from `(x1, y1)` to `(x2, y2)`: every visited
        Wall cell becomes Corridor, every other cell keeps its tile. */
    method CreateCorridor(x1: int, y1: int, x2: int, y2: int)
      requires Valid()
      requires PathInGrid(Pos(x1, y1), Pos(x2, y2))
      modifies grid
      ensures Valid()
      ensures forall i, j :: InGrid(i, j) ==>
        grid[i, j] == CarveCell(old(grid[i, j]), OnPath(Pos(x1, y1), Pos(x2, y2), i, j))
      ensures forall i, j :: InGrid(i, j) && OnPath(Pos(x1, y1), Pos(x2, y2), i, j) ==> grid[i, j] != Wall
      ensures forall i, j :: InGrid(i, j) && old(grid[i, j]) != Wall ==> grid[i, j] == old(grid[i, j])
      ensures InGrid(x1, y1) ==> grid[x1, y1] == old(grid[x1, y1])
    {
      var x, y := x1, y1;
      while x != x2
        invariant Between(x1, x, x2)
        invariant forall i, j :: InGrid(i, j) ==>
          grid[i, j] == CarveCell(old(grid[i, j]), j == y1 && i != x1 && Between(x1, i, x))
        decreases Abs(x - x2)
      {
        x := Step(x, x2);
        assert OnPath(Pos(x1, y1), Pos(x2, y2), x, y);
        if grid[x, y] == Wall {
          grid[x, y] := Corridor;
        }
      }
      while y != y2
        invariant Between(y1, y, y2)
        invariant forall i, j :: InGrid(i, j) ==>
          grid[i, j] == CarveCell(old(grid[i, j]),
            (j == y1 && i != x1 && Between(x1, i, x2)) || (i == x2 && j != y1 && Between(y1, j, y)))
        decreases Abs(y - y2)
      {
        y := Step(y, y2);
        assert OnPath(Pos(x1, y1), Pos(x2, y2), x, y);
        if grid[x, y] == Wall {
          grid[x, y] := Corridor;
        }
      }
    }

    /** The scan at the head of each connecting round: are all rooms connected? */
    method AllConnected() returns (allConnected: bool)
      requires Valid()
      ensures allConnected <==> forall k :: 0 <= k < roomCount ==> rooms[k].connected
    {
      allConnected := true;
      for i := 0 to roomCount
        invariant forall k :: 0 <= k < i ==> rooms[k].connected
      {
        if !rooms[i].connected {
          allConnected := false;
          break;
        }
      }
    }

    /** The anchor search: the lowest index of a connected room, or -1. */
    method FirstConnected() returns (connectedRoom: int)
      requires Valid()
      ensures -1 <= connectedRoom < roomCount
      ensures connectedRoom == -1 <==> forall k :: 0 <= k < roomCount ==> !rooms[k].connected
      ensures connectedRoom >= 0 ==>
        rooms[connectedRoom].connected && forall k :: 0 <= k < connectedRoom ==> !rooms[k].connected
    {
      connectedRoom := -1;
      for i := 0 to roomCount
        invariant forall k :: 0 <= k < i ==> !rooms[k].connected
      {
        if rooms[i].connected {
          connectedRoom := i;
          break;
        }
      }
    }

    /** The nearest unconnected room to `anchor`: among the unconnected rooms
        closer than `GridWidth * GridHeight`, the lowest index of minimum
        distance between centres, or -1 when there is none. */
    method ClosestUnconnected(anchor: int) returns (closestRoom: int)
      requires Valid() && 0 <= anchor < roomCount
      ensures -1 <= closestRoom < roomCount
      ensures closestRoom == -1 <==>
        forall k :: 0 <= k < roomCount && !rooms[k].connected ==>
          Distance(rooms[anchor], rooms[k]) >= GridWidth * GridHeight
      ensures closestRoom >= 0 ==> !rooms[closestRoom].connected
      ensures closestRoom >= 0 ==>
        forall k :: 0 <= k < roomCount && !rooms[k].connected ==>
          Distance(rooms[anchor], rooms[closestRoom]) <= Distance(rooms[anchor], rooms[k])
      ensures closestRoom >= 0 ==>
        forall k :: 0 <= k < closestRoom && !rooms[k].connected ==>
          Distance(rooms[anchor], rooms[closestRoom]) < Distance(rooms[anchor], rooms[k])
    {
      closestRoom := -1;
      var minDistance := GridWidth * GridHeight;
      for i := 0 to roomCount
        invariant -1 <= closestRoom < i
        invariant closestRoom == -1 ==> minDistance == GridWidth * GridHeight
        invariant closestRoom >= 0 ==> !rooms[closestRoom].connected
        invariant closestRoom >= 0 ==>
          minDistance == Distance(rooms[anchor], rooms[closestRoom]) < GridWidth * GridHeight
        invariant forall k :: 0 <= k < i && !rooms[k].connected ==> minDistance <= Distance(rooms[anchor], rooms[k])
        invariant closestRoom >= 0 ==>
          forall k :: 0 <= k < closestRoom && !rooms[k].connected ==> minDistance < Distance(rooms[anchor], rooms[k])
      {
        if !rooms[i].connected {
          var distance := Distance(rooms[anchor], rooms[i]);
          if distance < minDistance {
            minDistance := distance;
            closestRoom := i;
          }
        }
      }
    }

    /** One connecting round: finds the anchor (the first connected room), picks
        the nearest unconnected room to it, carves the corridor between their
        centres and marks the chosen room connected. With room 0 connected the
        anchor is room 0, and a room is always found. */
    method ConnectNearest() returns (closestRoom: int)
      requires Valid() && roomCount >= 2 && rooms[0].connected
      requires exists u :: 0 <= u < roomCount && !rooms[u].connected
      requires forall k :: 0 <= k < roomCount ==> CenterInGrid(rooms[k])
      modifies grid, rooms
      ensures 1 <= closestRoom < roomCount && !old(rooms[closestRoom].connected)
      ensures forall k :: 0 <= k < roomCount && !old(rooms[k].connected) ==>
        Distance(old(rooms[0]), old(rooms[closestRoom])) <= Distance(old(rooms[0]), old(rooms[k]))
      ensures forall k :: 0 <= k < closestRoom && !old(rooms[k].connected) ==>
        Distance(old(rooms[0]), old(rooms[closestRoom])) < Distance(old(rooms[0]), old(rooms[k]))
      ensures rooms[..] == old(rooms[..])[closestRoom := old(rooms[closestRoom]).(connected := true)]
      ensures forall i, j :: InGrid(i, j) ==>
        grid[i, j] == CarveCell(old(grid[i, j]), OnPath(Center(old(rooms[0])), Center(old(rooms[closestRoom])), i, j))
    {
      var connectedRoom := FirstConnected();
      assert connectedRoom == 0;
      closestRoom := ClosestUnconnected(connectedRoom);
      var u :| 0 <= u < roomCount && !rooms[u].connected;
      DistanceBelowGridArea(rooms[connectedRoom], rooms[u]);
      assert closestRoom != -1;

      var c1 := Center(rooms[connectedRoom]);
      var c2 := Center(rooms[closestRoom]);
      EndsInGridPathInGrid(c1, c2);
      CreateCorridor(c1.x, c1.y, c2.x, c2.y);
      rooms[closestRoom] := rooms[closestRoom].(connected := true);
    }

    /** One round of the connecting loop, described against the rooms `init`
        held when the loop was entered: one more room is connected, and the
        corridor toward it is carved. */
    method ConnectRound(ghost init: seq<Room>) returns (closestRoom: int)
      requires Valid() && Progressed(init, rooms[..roomCount]) && roomCount >= 2
      requires exists u :: 0 <= u < roomCount && !rooms[u].connected
      requires forall k :: 0 <= k < |init| ==> CenterInGrid(init[k])
      modifies grid, rooms
      ensures 1 <= closestRoom < roomCount
      ensures rooms[roomCount..] == old(rooms[roomCount..])
      ensures Progressed(init, rooms[..roomCount])
      ensures Unconnected(rooms[..roomCount]) < Unconnected(old(rooms[..roomCount]))
      ensures forall i, j :: JoinedSoFar(init, rooms[..roomCount], i, j) <==>
        JoinedSoFar(init, old(rooms[..roomCount]), i, j) || OnPath(Center(init[0]), Center(init[closestRoom]), i, j)
      ensures forall i, j :: InGrid(i, j) ==>
        grid[i, j] == CarveCell(old(grid[i, j]), OnPath(Center(init[0]), Center(init[closestRoom]), i, j))
    {
      ghost var before := rooms[..roomCount];
      assert forall k :: 0 <= k < roomCount ==> rooms[k] == before[k] && SameShape(before[k], init[k]);
      closestRoom := ConnectNearest();
      assert rooms[..roomCount] == before[closestRoom := before[closestRoom].(connected := true)];
      assert Center(before[0]) == Center(init[0]) && Center(before[closestRoom]) == Center(init[closestRoom]);
      forall i, j
        ensures JoinedSoFar(init, rooms[..roomCount], i, j) <==>
          JoinedSoFar(init, before, i, j) || OnPath(Center(init[0]), Center(init[closestRoom]), i, j)
      {
        JoinedSoFarStep(init, before, closestRoom, i, j);
      }
      ProgressedStep(init, before, closestRoom);
      UnconnectedAfterMark(before, closestRoom);
    }

    /** With two or more rooms: marks room 0 connected, then repeatedly carves a
        corridor from the anchor (always room 0) to the nearest unconnected room
        and marks that room connected, until every room is connected. The final
        grid carves, out of the centre of room 0, the corridor to the centre of
        every room `k >= 1` that was unconnected on entry. */
    method ConnectRooms()
      requires Valid()
      requires forall k :: 0 <= k < roomCount ==> CenterInGrid(rooms[k])
      modifies grid, rooms
      ensures Valid()
      ensures rooms[roomCount..] == old(rooms[roomCount..])
      ensures roomCount < 2 ==> Committed() == old(Committed())
      ensures roomCount >= 2 ==> Committed() == MarkAllConnected(old(Committed()))
      ensures forall i, j :: InGrid(i, j) ==>
        grid[i, j] == CarveCell(old(grid[i, j]), Joined(old(Committed()), i, j))
    {
      if roomCount < 2 {
        return;
      }
      ghost var init := rooms[..roomCount];
      assert forall k :: 0 <= k < |init| ==> CenterInGrid(init[k]);
      rooms[0] := rooms[0].(connected := true);
      assert rooms[..roomCount] == init[0 := init[0].(connected := true)];

      while true
        invariant rooms[roomCount..] == old(rooms[roomCount..])
        invariant Progressed(init, rooms[..roomCount])
        invariant forall i, j :: InGrid(i, j) ==>
          grid[i, j] == CarveCell(old(grid[i, j]), JoinedSoFar(init, rooms[..roomCount], i, j))
        decreases Unconnected(rooms[..roomCount])
      {
        var allConnected := AllConnected();
        if allConnected {
          ProgressedComplete(init, rooms[..roomCount]);
          forall i, j | InGrid(i, j)
            ensures JoinedSoFar(init, rooms[..roomCount], i, j) <==> Joined(init, i, j)
          {
            JoinedSoFarComplete(init, rooms[..roomCount], i, j);
          }
          break;
        }
        label Round:
        var closestRoom := ConnectRound(init);
        forall i, j | InGrid(i, j)
          ensures grid[i, j] == CarveCell(old(grid[i, j]), JoinedSoFar(init, rooms[..roomCount], i, j))
        {
          CarveCellCompose(old(grid[i, j]), JoinedSoFar(init, old@Round(rooms[..roomCount]), i, j),
            OnPath(Center(init[0]), Center(init[closestRoom]), i, j));
        }
      }
    }

    /** With two or more rooms, writes Start at the centre of room 0 and End at
        the centre of the last room and records both; otherwise changes nothing. */
    method PlaceStartEnd()
      requires Valid()
      requires roomCount >= 2 ==> CenterInGrid(rooms[0]) && CenterInGrid(rooms[roomCount - 1])
      modifies grid, this`startPos, this`endPos
      ensures Valid()
      ensures roomCount >= 2 ==> startPos == Center(old(rooms[0])) && endPos == Center(old(rooms[roomCount - 1]))
      ensures roomCount < 2 ==> startPos == old(startPos) && endPos == old(endPos)
      ensures roomCount >= 2 ==>
        forall i, j :: InGrid(i, j) ==> grid[i, j] == MarkTile(old(grid[i, j]), startPos, endPos, i, j)
      ensures roomCount < 2 ==> forall i, j :: InGrid(i, j) ==> grid[i, j] == old(grid[i, j])
    {
      if roomCount < 2 {
        return;
      }
      var start := Center(rooms[0]);
      grid[start.x, start.y] := Start;
      startPos := start;
      var end := Center(rooms[roomCount - 1]);
      grid[end.x, end.y] := End;
      endPos := end;
    }

    /** The placement attempts of a generation cycle: one candidate per roll is
        tried against the committed rooms and, when accepted, appended to them. */
    method PlaceRooms(rolls: seq<Roll>)
      requires Valid() && roomCount == 0
      requires |rolls| == MaxRooms
      requires forall i, j :: InGrid(i, j) ==> grid[i, j] == Wall
      modifies this`roomCount, grid, rooms
      ensures Valid() && Committed() == Place(Candidates(rolls))
      ensures ShowsRooms(Committed())
    {
      ghost var cands := Candidates(rolls);
      for i := 0 to MaxRooms
        invariant Valid() && roomCount <= i
        invariant rooms[..roomCount] == Place(cands[..i])
        invariant forall a, b :: InGrid(a, b) ==>
          grid[a, b] == if InSomeRoom(rooms[..roomCount], a, b) then Floor else Wall
      {
        var c := Candidate(rolls[i]);
        assert cands[..i + 1][..i] == cands[..i] && cands[i] == c;
        ghost var before := rooms[..roomCount];
        var placed := CreateRoom(c.x, c.y, c.width, c.height);
        if placed {
          rooms[roomCount] := Room(c.x, c.y, c.width, c.height, false);
          roomCount := roomCount + 1;
          assert rooms[..roomCount] == before + [c];
          forall a, b | InGrid(a, b)
            ensures InSomeRoom(rooms[..roomCount], a, b) <==> InSomeRoom(before, a, b) || InRoom(c, a, b)
          {
            InSomeRoomAppend(before, c, a, b);
          }
        }
      }
      assert cands[..MaxRooms] == cands;
    }

    /** The connecting phase of a cycle whose placed rooms are `rs`. */
    method ConnectPlaced(ghost rs: seq<Room>)
      requires Valid() && Committed() == rs && ShowsRooms(rs)
      requires forall k :: 0 <= k < |rs| ==> IsCandidate(rs[k])
      modifies grid, rooms
      ensures Valid() && roomCount == |rs| && ShowsCorridors(rs)
      ensures |rs| >= 2 ==> Committed() == MarkAllConnected(rs)
      ensures |rs| < 2 ==> Committed() == rs
      ensures forall k :: 0 <= k < |rs| ==> SameShape(rooms[k], rs[k])
    {
      forall k | 0 <= k < roomCount
        ensures rooms[k] == rs[k] && CenterInGrid(rooms[k])
      {
        CandidateInGrid(rs[k]);
      }
      ConnectRooms();
    }

    /** The marking phase of a cycle whose placed rooms are `rs`. */
    method MarkPlaced(ghost rs: seq<Room>)
      requires Valid() && roomCount == |rs| && ShowsCorridors(rs)
      requires |rs| >= 2 ==> Center(rooms[0]) == Center(rs[0]) && Center(rooms[|rs| - 1]) == Center(rs[|rs| - 1])
      requires |rs| >= 2 ==> CenterInGrid(rs[0]) && CenterInGrid(rs[|rs| - 1])
      modifies grid, this`startPos, this`endPos
      ensures ShowsLayout(rs)
      ensures roomCount >= 2 ==> startPos == Center(rs[0]) && endPos == Center(rs[|rs| - 1])
      ensures roomCount < 2 ==> startPos == old(startPos) && endPos == old(endPos)
    {
      PlaceStartEnd();
      forall i, j | InGrid(i, j)
        ensures grid[i, j] == Layout(rs, i, j)
      {
      }
    }

    /** The state a generation cycle leaves when rejection sampling kept the
        rooms `rs`: they are the committed rooms (all marked connected when
        there are two or more) and pairwise separated, the grid is their layout
        and, with two or more rooms, the recorded Start and End are the centres
        of the first and the last room, distinct, marked on the grid and joined
        by an open walk. */
    ghost predicate GeneratedFrom(rs: seq<Room>)
      reads this, grid, rooms
      requires Valid()
    {
      && roomCount == |rs|
      && (roomCount >= 2 ==> Committed() == MarkAllConnected(rs))
      && (roomCount < 2 ==> Committed() == rs)
      && PairwiseSeparated(Committed())
      && ShowsLayout(rs)
      && (roomCount >= 2 ==>
        && startPos == Center(rs[0]) && endPos == Center(rs[|rs| - 1])
        && startPos != endPos
        && InGrid(startPos.x, startPos.y) && grid[startPos.x, startPos.y] == Start
        && InGrid(endPos.x, endPos.y) && grid[endPos.x, endPos.y] == End
        && exists w :: OpenWalk(startPos, w, endPos))
    }

    /** After the connecting and marking phases over two or more separated
        candidate rooms, Start and End are distinct cells joined by an open walk. */
    lemma CycleEndpoints(rs: seq<Room>)
      requires Valid() && ShowsLayout(rs) && roomCount == |rs|
      requires PairwiseSeparated(rs)
      requires forall k :: 0 <= k < |rs| ==> IsCandidate(rs[k])
      requires roomCount >= 2 ==> Committed() == MarkAllConnected(rs)
      requires roomCount < 2 ==> Committed() == rs
      requires roomCount >= 2 ==> startPos == Center(rs[0]) && endPos == Center(rs[|rs| - 1])
      ensures GeneratedFrom(rs)
    {
      PairwiseSeparatedIgnoresFlags(rs, Committed());
      if roomCount >= 2 {
        CandidateInGrid(rs[0]);
        CandidateInGrid(rs[|rs| - 1]);
        StartEndDistinct(rs);
        StartReachesEnd(rs);
        assert OpenWalk(startPos, Path(startPos, endPos), endPos);
      }
    }

    /** One generation cycle. `rolls` stands for the `rand()` results, four per
        placement attempt. The cycle leaves exactly the state `GeneratedFrom`
        describes for the rooms that rejection sampling keeps. */
    method GenerateDungeon(rolls: seq<Roll>)
      requires Valid()
      requires |rolls| == MaxRooms
      modifies this`roomCount, this`startPos, this`endPos, grid, rooms
      ensures Valid() && GeneratedFrom(Place(Candidates(rolls)))
      ensures roomCount < 2 ==> startPos == old(startPos) && endPos == old(endPos)
    {
      InitGrid();
      PlaceRooms(rolls);
      ghost var rs := Place(Candidates(rolls));
      PlacedAreCandidates(Candidates(rolls));
      ConnectPlaced(rs);
      if |rs| >= 2 {
        CandidateInGrid(rs[0]);
        CandidateInGrid(rs[|rs| - 1]);
        assert SameShape(rooms[0], rs[0]) && SameShape(rooms[|rs| - 1], rs[|rs| - 1]);
      }
      MarkPlaced(rs);
      CycleEndpoints(rs);
    }

    /** The two-room example after a cycle: two rooms, Start at (4, 4), End at
        (12, 12), and the corridor between them on the grid. */
    lemma TwoRoomCycle()
      requires Valid() && GeneratedFrom(Place(Candidates(TwoRoomRolls())))
      ensures roomCount == 2 && startPos == Pos(4, 4) && endPos == Pos(12, 12)
      ensures grid[4, 4] == Start && grid[12, 12] == End
      ensures grid[8, 4] == Corridor && grid[12, 7] == Corridor && grid[4, 8] == Wall
    {
      TwoRoomRollsPlace();
      TwoRoomPlacement();
      TwoRoomLayout();
    }

    /** One generation cycle on the fifteen attempts of `TwoRoomRolls`. */
    method GenerateTwoRooms()
      requires Valid()
      modifies this`roomCount, this`startPos, this`endPos, grid, rooms
      ensures Valid() && roomCount == 2 && startPos == Pos(4, 4) && endPos == Pos(12, 12)
      ensures grid[8, 4] == Corridor && grid[12, 7] == Corridor && grid[4, 8] == Wall
    {
      TwoRoomRollsPlace();
      GenerateDungeon(TwoRoomRolls());
      TwoRoomCycle();
    }
  }
}
