# Endless dungeon generator: a verified model of the generation core

This project models the dungeon generator of `endless_dungeon.c`. The program
works on a 40 by 30 grid of tiles. Each generation cycle does four things:

1. It resets every cell to Wall.
2. It proposes `MAX_ROOMS` random rectangles. Each one is kept only when its
   padded box meets no padded box of a room kept before it (rejection sampling).
3. It connects the kept rooms greedily. Every pass carves an L-shaped corridor,
   horizontal leg first, from the first connected room to the nearest
   unconnected room.
4. It writes Start at the centre of the first room and End at the centre of the
   last room.

The model has five modules:

- `Grid` (`grid.dfy`): the constants, the tile states, rooms and their integer
  geometry. It includes C's truncating `/ 2` and the overlap test exactly as
  written.
- `Corridor` (`corridor.dfy`): the cells the corridor carver visits, in order
  (`Path`) and in closed form (`OnPath`). It also holds what carving does to one
  cell and the proof that the path is a 4-connected walk.
- `Rooms` (`rooms.dfy`): the candidate rectangle built from the four `rand()`
  draws of one attempt, and rejection sampling as a function (`Place`).
- `DungeonLayout` (`layout.dfy`): the finished grid as a function of the kept
  rooms (`Layout`), and the facts it guarantees.
- `Dungeon` (`dungeon.dfy`): the program's global state as a class.
  - The grid is an `array2<Tile>` indexed `[x, y]`.
  - The room storage is an `array<Room>` of capacity `MAX_ROOMS`, with
    `roomCount` committed entries.
  - `startPos` and `endPos` are integer pairs.
  - Each C function is a method that updates this state in place.

The random source is a parameter. `GenerateDungeon` takes `rolls`, a sequence
of `MAX_ROOMS` values of type `Roll`. Each `Roll` holds the four raw `rand()`
results of one attempt, in the order the program draws them.

One consequence of the code came out of the proofs: the final grid does not
depend on the order in which the greedy loop picks rooms. Room 0 is marked
connected first, and the anchor search always returns the first connected
index, so every corridor starts at the centre of room 0. `ConnectRooms` is
therefore specified by `Joined`: it carves the corridor from room 0's centre to
the centre of every room `k >= 1` that was unconnected on entry.
`ConnectNearest` still states which room each pass picks: the nearest one, with
the lowest index among equals.

## Model

| member | source | states |
|---|---|---|
| Dungeon.Dungeon.constructor | endless_dungeon.c:35-40 | The zero-initialised globals: every cell Empty, no rooms, both positions (0, 0). |
| Dungeon.Dungeon.InitGrid | endless_dungeon.c:86-93 | Afterwards every cell is Wall, whatever it held before, and `roomCount == 0`. |
| Dungeon.Dungeon.CreateRoom | endless_dungeon.c:124-143 | Returns false exactly when the candidate fails the overlap test against some committed room, and then the grid is unchanged. Otherwise it returns true, the in-grid cells of the rectangle are Floor and every other cell is unchanged. |
| Dungeon.Dungeon.CreateCorridor | endless_dungeon.c:207-229 | Each cell becomes `CarveCell(old tile, OnPath(...))`: a Wall on the L path becomes Corridor and every other cell keeps its tile. Every path cell is non-Wall afterwards, non-Wall cells never change, and the start cell is never touched. Both loops terminate on a decreasing distance. |
| Dungeon.Dungeon.AllConnected | endless_dungeon.c:154-160 | The result is true exactly when every committed room is connected. |
| Dungeon.Dungeon.FirstConnected | endless_dungeon.c:165-171 | The lowest index of a connected room, or -1 exactly when no room is connected. |
| Dungeon.Dungeon.ClosestUnconnected | endless_dungeon.c:174-191 | It returns an unconnected room whose centre distance from the anchor is minimal, with the lowest index among equals because the test is strict. It returns -1 exactly when every unconnected room is at distance at least `GRID_WIDTH * GRID_HEIGHT`. |
| Dungeon.Dungeon.ConnectNearest | endless_dungeon.c:164-202 | With room 0 connected and some room unconnected, the anchor is room 0 and a room is always found, numbered ≥ 1 and unconnected before (so the `closestRoom != -1` guard always holds). It is the nearest such room, with the lowest index among ties. Exactly that room's flag changes, and the grid gains the corridor between the two centres. |
| Dungeon.Dungeon.ConnectRound | endless_dungeon.c:153-202 | One loop pass, seen against the rooms held on entry. One more room becomes connected and the unconnected count drops, so the loop terminates. The rectangles and the flags already set are kept. The cells joined so far grow by exactly the corridor to the chosen room. |
| Dungeon.Dungeon.ConnectRooms | endless_dungeon.c:146-204 | With fewer than two rooms nothing changes. Otherwise every committed room ends connected with its rectangle unchanged. The grid is the old grid carved along the corridor from room 0's centre to each room that was unconnected on entry. Rooms past `roomCount` are untouched. |
| Dungeon.Dungeon.PlaceStartEnd | endless_dungeon.c:232-248 | With fewer than two rooms nothing changes. Otherwise Start is written at room 0's truncated centre and End at the last room's centre, End last. Both positions are recorded and no other cell changes. |
| Dungeon.Dungeon.PlaceRooms | endless_dungeon.c:99-114 | After the attempts, the committed rooms are `Place(Candidates(rolls))`: every candidate is tried in order and appended when accepted. The grid shows those rooms on a Wall background. |
| Dungeon.Dungeon.ConnectPlaced | endless_dungeon.c:116-117 | Connecting placed rooms `rs` leaves them committed, all marked connected when there are two or more. The grid becomes `Carved(rs)`. |
| Dungeon.Dungeon.MarkPlaced | endless_dungeon.c:119-120 | Marking turns a `Carved(rs)` grid into `Layout(rs)` and records Start and End at the centres of the first and last room. |
| Dungeon.Dungeon.CycleEndpoints | endless_dungeon.c:232-248 | With two or more separated candidate rooms laid out, Start and End differ, are in the grid, carry their tiles, and are joined by a 4-connected walk of non-Wall cells. |
| Dungeon.Dungeon.GenerateDungeon | endless_dungeon.c:96-121 | One cycle leaves exactly the state `GeneratedFrom(Place(Candidates(rolls)))` describes. The committed rooms are the ones rejection sampling keeps, pairwise separated, and the grid is their `Layout`. With two or more rooms, Start and End are distinct cells at the first and last centres, joined by an open walk. With fewer, the positions keep their previous values. |
| Dungeon.Dungeon.TwoRoomCycle | endless_dungeon.c:96-121 | After a cycle on `TwoRoomRolls`, there are two rooms, Start is at (4, 4) and End at (12, 12), cells on the corridor are Corridor, and an unclaimed cell is Wall. |
| Dungeon.Dungeon.GenerateTwoRooms | endless_dungeon.c:96-121 | Running `GenerateDungeon` on those fifteen attempts yields that state. |
| Grid.OverlapsIffPaddedShareCell | endless_dungeon.c:127-128 | The test as written holds exactly when the two rectangles, each grown by one cell on every side, share a cell. |
| Grid.OverlapsSymmetric | endless_dungeon.c:127-128 | The test gives the same answer with its two rooms swapped. |
| Grid.SeparatedRooms | endless_dungeon.c:127-128 | Cells of two rooms that pass the test are at least three apart along x or y, so at least two cells lie between the rooms. |
| Grid.CenterInRoom | endless_dungeon.c:179-182 | The truncated centre of a room at least one cell wide and tall lies inside it. |
| Grid.DistanceBelowGridArea | endless_dungeon.c:175 | The distance between two in-grid centres is non-negative and below the initial minimum `GRID_WIDTH * GRID_HEIGHT`. |
| Corridor.PathCells | endless_dungeon.c:212-228 | A cell is visited by the two loops exactly when `OnPath` holds: on the start row strictly past the start column toward `x2`, or on column `x2` strictly past the start row toward `y2`. |
| Corridor.HorizontalLegCells | endless_dungeon.c:212-219 | The horizontal loop visits exactly the cells of row `y` strictly after `x` up to `x2`. |
| Corridor.VerticalLegCells | endless_dungeon.c:221-228 | The vertical loop visits exactly the cells of column `x` strictly after `y` up to `y2`. |
| Corridor.StartNotOnPath | endless_dungeon.c:209-214 | The start cell is never visited. |
| Corridor.EndsInGridPathInGrid | endless_dungeon.c:212-228 | With both end points in the grid, every visited index is in the grid. |
| Corridor.CarveCellFacts | endless_dungeon.c:216-218 | A visited cell is non-Wall afterwards, a non-Wall cell is never changed, and carving twice is carving once, so the corridor is idempotent. |
| Corridor.CarveCellCompose | endless_dungeon.c:216-218 | Carving for one reason and then another equals carving once for either. |
| Corridor.WalkAppend | endless_dungeon.c:212-228 | Two walks, the second leaving where the first ends, join into one walk. |
| Corridor.HorizontalLegWalk | endless_dungeon.c:212-219 | The horizontal leg is a 4-connected walk ending at `(x2, y)`, with `|x - x2|` steps. |
| Corridor.VerticalLegWalk | endless_dungeon.c:221-228 | The vertical leg is a 4-connected walk ending at `(x, y2)`, with `|y - y2|` steps. |
| Corridor.PathIsWalk | endless_dungeon.c:207-229 | The whole corridor is a 4-connected walk from the start that ends at the end point. Its length is the Manhattan distance. |
| Rooms.Candidate | endless_dungeon.c:101-104 | Any four draws give a side of 4 to 10 cells, `1 <= x` and `x + width <= GRID_WIDTH - 2`, and likewise along y. |
| Rooms.CandidateCovers | endless_dungeon.c:101-104 | Every rectangle within those bounds is proposed by some four draws. |
| Rooms.CandidateInGrid | endless_dungeon.c:134-139 | A candidate's cells and its centre all lie in the grid. |
| Rooms.PlaceSound | endless_dungeon.c:100-114 | Placement keeps at most one room per attempt, so `roomCount <= MAX_ROOMS`. It keeps only candidates, and any two kept rooms pass the overlap test in both orders. |
| Rooms.PlacePrefix | endless_dungeon.c:100-114 | The rooms kept after the first `n` attempts are a prefix of the rooms kept at the end. |
| Rooms.PlaceIgnoresRejected | endless_dungeon.c:106-113 | Candidates that each overlap a room already kept leave the kept rooms unchanged. |
| Rooms.PlaceMaximal | endless_dungeon.c:106-113 | Every candidate is either kept or rejected by a room that is kept. |
| Rooms.PlacedAreCandidates | endless_dungeon.c:100-114 | Every kept room satisfies the candidate bounds, and the kept rooms are pairwise separated. |
| Rooms.PairwiseSeparatedIgnoresFlags | endless_dungeon.c:127-128 | Separation depends only on the rectangles, not on the `connected` flags. |
| DungeonLayout.InSomeRoomAppend | endless_dungeon.c:106-113 | Appending a room adds exactly its cells to the cells covered by rooms. |
| DungeonLayout.UnconnectedAfterMark | endless_dungeon.c:201 | Marking one unconnected room lowers the count of unconnected rooms by one. |
| DungeonLayout.ProgressedStep | endless_dungeon.c:201 | Marking a room keeps every rectangle and every flag already set. |
| DungeonLayout.JoinedSoFarStep | endless_dungeon.c:200-201 | Marking room `c` adds exactly the cells on the corridor from room 0's centre to room `c`'s centre. |
| DungeonLayout.ProgressedComplete | endless_dungeon.c:153-162 | When the loop exits with every flag set, the rooms are the entry rooms, all marked connected. |
| DungeonLayout.JoinedSoFarComplete | endless_dungeon.c:153-162 | When every room is connected, the cells joined so far are exactly those of `Joined`. |
| DungeonLayout.LayoutTiles | endless_dungeon.c:96-121 | In the finished grid, room cells are Floor, Start or End. A Corridor cell lies outside every room and on a corridor. A cell is Wall exactly when no room, corridor, Start or End claims it. |
| DungeonLayout.StartEndDistinct | endless_dungeon.c:232-248 | With separated rooms, the first and last centres differ. Start survives at the first and End is at the last. |
| DungeonLayout.CorridorReachesRoom | endless_dungeon.c:146-204 | For every room `k >= 1` unconnected before connecting, the corridor from room 0's centre is an open walk to room `k`'s centre: a 4-connected walk of in-grid, non-Wall cells. |
| DungeonLayout.RoomCellReachable | endless_dungeon.c:134-140 | Every cell of such a room `k` is reached from room 0's centre by an open walk: the corridor to the centre, then an L path that stays inside the room's Floor rectangle. |
| DungeonLayout.StartReachesEnd | endless_dungeon.c:96-121 | With two or more rooms, the corridor to the last room is an open walk from the first room's centre, where Start is written, to the last room's centre, which holds End. |
| DungeonLayout.TwoRoomDraws | endless_dungeon.c:101-104 | The draws (0, 0, 1, 1) and (0, 0, 9, 9) propose the 4 by 4 rooms with corners (2, 2) and (10, 10). |
| DungeonLayout.TwoRoomPlacement | endless_dungeon.c:124-131 | Both of those rooms are kept, with centres (4, 4) and (12, 12). |
| DungeonLayout.TwoRoomLayout | endless_dungeon.c:96-121 | Their layout has Start at (4, 4) and End at (12, 12). A cell of the second room stays Floor, and an unclaimed cell stays Wall. The Corridor cells are exactly row 4 from column 6 to 12 and column 12 from row 5 to 9. |
| DungeonLayout.TwoRoomRollsPlace | endless_dungeon.c:100-114 | Fifteen attempts made of those two draws and thirteen repeats of the first keep exactly the two rooms: every repeat is rejected. |

## Left out

- `main` and the raylib window, input and drawing calls (endless_dungeon.c:51-83) are user-interface I/O around the generator.
- `DrawDungeon` (endless_dungeon.c:251-280) only renders the grid through a foreign graphics library.
- `srand(time(NULL))` and `rand()` are not modelled: the caller passes the raw draws (`Roll`, four natural numbers per attempt). `rand()`'s upper bound `RAND_MAX` is not modelled, since the candidate arithmetic reduces every draw modulo a small constant.
- `startPos` and `endPos` are raylib `Vector2` floats in the source. The model stores them as integer pairs, the values the program writes into them.
- 32-bit `int` overflow is not modelled. Every quantity the generator computes stays far below the `int` range, because the sizes come from the modulo arithmetic and the grid is 40 by 30.
- Dungeon.Dungeon.CreateCorridor requires every visited cell to be in the grid, because the C loops index the grid without a bounds check. Every call from the connecting loop meets this, since room centres lie in the grid.
- Dungeon.Dungeon.ConnectRooms, Dungeon.Dungeon.ConnectNearest and Dungeon.Dungeon.PlaceStartEnd require the committed rooms' centres to lie in the grid for the same reason. The C code would index outside the grid otherwise. Rooms built from draws always meet this (`Rooms.CandidateInGrid`).
- In the C loop, a pass with `closestRoom == -1` would carve nothing and loop forever. Dungeon.Dungeon.ConnectNearest proves that branch unreachable, so it is an assertion in the model and not a branch.
- Eight members are factored out of the C functions for the proofs. `AllConnected`, `FirstConnected` and `ClosestUnconnected` are the scans inside the loop (lines 154-160, 165-171 and 174-191). `ConnectNearest` and `ConnectRound` are one loop pass. `PlaceRooms`, `ConnectPlaced` and `MarkPlaced` are the three phases of `GenerateDungeon`. They run the same statements in the same order as the C code.
- With fewer than two rooms, the C code skips `PlaceStartEnd`, so `startPos` and `endPos` keep the values of the previous cycle (or of the initial zero state). A description of the program as having "no" start and end in that case does not match this. The model follows the code: GenerateDungeon states that both positions are unchanged.
- A flood fill over all open tiles is not modelled. Connectivity is stated as explicit walks instead. `CorridorReachesRoom` and `RoomCellReachable` give one from room 0's centre to every cell of every room that was unconnected on entry, which also covers the last room. `StartReachesEnd` and `CycleEndpoints` give one from Start to End. Nothing is stated about rooms other than room 0 that were already connected on entry, since a generation cycle never has any.
- Rooms beyond `roomCount` in the room array keep whatever they held. The model states that the connecting phase leaves them unchanged and says nothing else about them, as the program never reads them.
