/** Dimensions, tile states, rooms and the integer geometry the generator uses. */
module Grid {

  const ScreenWidth: int := 800
  const ScreenHeight: int := 600
  const TileSize: int := 20
  /** 40 columns and 30 rows of tiles. */
  const GridWidth: int := ScreenWidth / TileSize
  const GridHeight: int := ScreenHeight / TileSize
  const MaxRooms: int := 15
  const MinRoomSize: int := 4
  const MaxRoomSize: int := 10

  /** The tile states; `Empty` is only the value of a grid that was never reset. */
  datatype Tile = Empty | Wall | Floor | Corridor | Start | End

  /** A grid coordinate, column `x` and row `y` (the grid is indexed `[x, y]`). */
  datatype Pos = Pos(x: int, y: int)

  /** An axis-aligned rectangle of cells with the flag used while connecting rooms. */
  datatype Room = Room(x: int, y: int, width: int, height: int, connected: bool)

  predicate InGrid(x: int, y: int) {
    0 <= x < GridWidth && 0 <= y < GridHeight
  }

  predicate InRoom(r: Room, i: int, j: int) {
    r.x <= i < r.x + r.width && r.y <= j < r.y + r.height
  }

  /** Two rooms with equal rectangles, whatever their `connected` flags. */
  predicate SameShape(a: Room, b: Room) {
    a.x == b.x && a.y == b.y && a.width == b.width && a.height == b.height
  }

  /** C's `n / 2` on an `int`, which truncates toward zero. */
  function CHalf(n: int): int {
    if n >= 0 then n / 2 else -((-n) / 2)
  }

  function Abs(n: int): int {
    if n < 0 then -n else n
  }

  /** The truncated centre `(x + width / 2, y + height / 2)` of a room. */
  function Center(r: Room): Pos {
    Pos(r.x + CHalf(r.width), r.y + CHalf(r.height))
  }

  predicate CenterInGrid(r: Room) {
    InGrid(Center(r).x, Center(r).y)
  }

  function Manhattan(p: Pos, q: Pos): int {
    Abs(p.x - q.x) + Abs(p.y - q.y)
  }

  /** The distance between two rooms' centres that the connector minimises. */
  function Distance(a: Room, b: Room): int {
    Manhattan(Center(a), Center(b))
  }

  /** The rejection test for candidate `c` against committed room `r`, as written:
      the half-open intervals `[c.x - 1, c.x + c.width + 1)` and
      `[r.x - 1, r.x + r.width + 1)` intersect, and likewise for y. */
  predicate Overlaps(c: Room, r: Room) {
    && c.x + c.width + 1 > r.x - 1 && c.x - 1 < r.x + r.width + 1
    && c.y + c.height + 1 > r.y - 1 && c.y - 1 < r.y + r.height + 1
  }

  /** A cell of the rectangle grown by one cell on every side. */
  predicate InPadded(r: Room, i: int, j: int) {
    r.x - 1 <= i < r.x + r.width + 1 && r.y - 1 <= j < r.y + r.height + 1
  }

  lemma OverlapsSymmetric(a: Room, b: Room)
    ensures Overlaps(a, b) <==> Overlaps(b, a)
  {
  }

  /** The test as written is exactly "the padded rectangles share a cell". */
  lemma OverlapsIffPaddedShareCell(a: Room, b: Room)
    requires a.width >= 0 && a.height >= 0 && b.width >= 0 && b.height >= 0
    ensures Overlaps(a, b) <==> exists i, j :: InPadded(a, i, j) && InPadded(b, i, j)
  {
    if Overlaps(a, b) {
      var i := if a.x < b.x then b.x - 1 else a.x - 1;
      var j := if a.y < b.y then b.y - 1 else a.y - 1;
      assert InPadded(a, i, j) && InPadded(b, i, j);
    }
  }

  /** Two rooms that pass the test are at least three cells apart along x or y,
      so at least two cells of neither room lie between them. */
  lemma SeparatedRooms(a: Room, b: Room, i1: int, j1: int, i2: int, j2: int)
    requires !Overlaps(a, b)
    requires InRoom(a, i1, j1) && InRoom(b, i2, j2)
    ensures Abs(i1 - i2) >= 3 || Abs(j1 - j2) >= 3
  {
  }

  lemma CenterInRoom(r: Room)
    requires r.width >= 1 && r.height >= 1
    ensures InRoom(r, Center(r).x, Center(r).y)
  {
  }

  /** The connector's initial minimum `GridWidth * GridHeight` exceeds every
      distance between centres that lie in the grid. */
  lemma DistanceBelowGridArea(a: Room, b: Room)
    requires CenterInGrid(a) && CenterInGrid(b)
    ensures 0 <= Distance(a, b) < GridWidth * GridHeight
  {
    assert Distance(a, b) <= (GridWidth - 1) + (GridHeight - 1);
  }
}
