/** The L-shaped corridor: first along the row of the start point, then along
    the column of the end point, one cell at a time. */
module Corridor {
  import opened Grid

  /** One step from `a` toward `b` (`b` different from `a`): `a + 1` below, `a - 1` above. */
  function Step(a: int, b: int): int {
    if a < b then a + 1 else a - 1
  }

  /** `v` lies in the closed interval spanned by `a` and `b`. */
  predicate Between(a: int, v: int, b: int) {
    (a <= v <= b) || (b <= v <= a)
  }

  /** The cells the horizontal loop steps onto, leaving `(x, y)` toward column `x2`. */
  function HorizontalLeg(x: int, x2: int, y: int): seq<Pos>
    decreases Abs(x - x2)
  {
    if x == x2 then [] else [Pos(Step(x, x2), y)] + HorizontalLeg(Step(x, x2), x2, y)
  }

  /** The cells the vertical loop steps onto, leaving `(x, y)` toward row `y2`. */
  function VerticalLeg(x: int, y: int, y2: int): seq<Pos>
    decreases Abs(y - y2)
  {
    if y == y2 then [] else [Pos(x, Step(y, y2))] + VerticalLeg(x, Step(y, y2), y2)
  }

  /** Every cell the carver visits, in order, going from `a` to `b`. */
  function Path(a: Pos, b: Pos): seq<Pos> {
    HorizontalLeg(a.x, b.x, a.y) + VerticalLeg(b.x, a.y, b.y)
  }

  /** Closed form of membership in `Path(a, b)`. */
  predicate OnPath(a: Pos, b: Pos, i: int, j: int) {
    || (j == a.y && i != a.x && Between(a.x, i, b.x))
    || (i == b.x && j != a.y && Between(a.y, j, b.y))
  }

  /** The grid indices the carver uses from `a` to `b` are all valid. */
  ghost predicate PathInGrid(a: Pos, b: Pos) {
    forall i, j :: OnPath(a, b, i, j) ==> InGrid(i, j)
  }

  /** The effect of visiting a cell: a Wall becomes Corridor, anything else stays. */
  function CarveCell(t: Tile, visited: bool): Tile {
    if visited && t == Wall then Corridor else t
  }

  predicate Adjacent(p: Pos, q: Pos) {
    Manhattan(p, q) == 1
  }

  /** Where a walk that leaves `from` along `w` ends. */
  function Last(from: Pos, w: seq<Pos>): Pos {
    if w == [] then from else w[|w| - 1]
  }

  /** `w` is a 4-connected walk out of `from`: each cell is adjacent to the one before. */
  predicate IsWalk(from: Pos, w: seq<Pos>) {
    && (|w| > 0 ==> Adjacent(from, w[0]))
    && forall k :: 0 < k < |w| ==> Adjacent(w[k - 1], w[k])
  }

  lemma {:induction false} HorizontalLegCells(x: int, x2: int, y: int, p: Pos)
    ensures p in HorizontalLeg(x, x2, y) <==> (p.y == y && p.x != x && Between(x, p.x, x2))
    decreases Abs(x - x2)
  {
    if x != x2 {
      HorizontalLegCells(Step(x, x2), x2, y, p);
    }
  }

  lemma {:induction false} VerticalLegCells(x: int, y: int, y2: int, p: Pos)
    ensures p in VerticalLeg(x, y, y2) <==> (p.x == x && p.y != y && Between(y, p.y, y2))
    decreases Abs(y - y2)
  {
    if y != y2 {
      VerticalLegCells(x, Step(y, y2), y2, p);
    }
  }

  /** The cells the carver visits are exactly those `OnPath` describes. */
  lemma PathCells(a: Pos, b: Pos, i: int, j: int)
    ensures Pos(i, j) in Path(a, b) <==> OnPath(a, b, i, j)
  {
    HorizontalLegCells(a.x, b.x, a.y, Pos(i, j));
    VerticalLegCells(b.x, a.y, b.y, Pos(i, j));
  }

  /** The start cell is never visited. */
  lemma StartNotOnPath(a: Pos, b: Pos)
    ensures !OnPath(a, b, a.x, a.y)
  {
  }

  /** Both end points in the grid keep every visited cell in the grid. */
  lemma EndsInGridPathInGrid(a: Pos, b: Pos)
    requires InGrid(a.x, a.y) && InGrid(b.x, b.y)
    ensures PathInGrid(a, b)
  {
  }

  /** Carving turns visited cells into non-Wall cells, keeps every non-Wall cell,
      and a second visit changes nothing. */
  lemma CarveCellFacts(t: Tile, visited: bool)
    ensures visited ==> CarveCell(t, visited) != Wall
    ensures t != Wall ==> CarveCell(t, visited) == t
    ensures CarveCell(CarveCell(t, visited), visited) == CarveCell(t, visited)
  {
  }

  /** Carving a cell twice is carving it once for either reason. */
  lemma CarveCellCompose(t: Tile, first: bool, second: bool)
    ensures CarveCell(CarveCell(t, first), second) == CarveCell(t, first || second)
  {
  }

  lemma {:induction false} WalkAppend(from: Pos, s: seq<Pos>, t: seq<Pos>)
    requires IsWalk(from, s) && IsWalk(Last(from, s), t)
    ensures IsWalk(from, s + t)
    ensures Last(from, s + t) == Last(Last(from, s), t)
  {
    forall k | 0 < k < |s + t|
      ensures Adjacent((s + t)[k - 1], (s + t)[k])
    {
      if k < |s| {
        assert (s + t)[k] == s[k] && (s + t)[k - 1] == s[k - 1];
      } else if k == |s| {
        assert (s + t)[k] == t[0] && (s + t)[k - 1] == Last(from, s);
      } else {
        assert (s + t)[k] == t[k - |s|] && (s + t)[k - 1] == t[k - 1 - |s|];
      }
    }
    if s == [] {
      assert s + t == t;
    }
  }

  lemma {:induction false} HorizontalLegWalk(x: int, x2: int, y: int)
    ensures IsWalk(Pos(x, y), HorizontalLeg(x, x2, y))
    ensures Last(Pos(x, y), HorizontalLeg(x, x2, y)) == Pos(x2, y)
    ensures |HorizontalLeg(x, x2, y)| == Abs(x - x2)
    decreases Abs(x - x2)
  {
    if x != x2 {
      var nx := Step(x, x2);
      HorizontalLegWalk(nx, x2, y);
      WalkAppend(Pos(x, y), [Pos(nx, y)], HorizontalLeg(nx, x2, y));
    }
  }

  lemma {:induction false} VerticalLegWalk(x: int, y: int, y2: int)
    ensures IsWalk(Pos(x, y), VerticalLeg(x, y, y2))
    ensures Last(Pos(x, y), VerticalLeg(x, y, y2)) == Pos(x, y2)
    ensures |VerticalLeg(x, y, y2)| == Abs(y - y2)
    decreases Abs(y - y2)
  {
    if y != y2 {
      var ny := Step(y, y2);
      VerticalLegWalk(x, ny, y2);
      WalkAppend(Pos(x, y), [Pos(x, ny)], VerticalLeg(x, ny, y2));
    }
  }

  /** The corridor is a 4-connected walk from `a` that ends at `b`, and its
      length is the Manhattan distance between the two points. */
  lemma PathIsWalk(a: Pos, b: Pos)
    ensures IsWalk(a, Path(a, b)) && Last(a, Path(a, b)) == b
    ensures |Path(a, b)| == Manhattan(a, b)
  {
    HorizontalLegWalk(a.x, b.x, a.y);
    VerticalLegWalk(b.x, a.y, b.y);
    WalkAppend(a, HorizontalLeg(a.x, b.x, a.y), VerticalLeg(b.x, a.y, b.y));
  }
}
