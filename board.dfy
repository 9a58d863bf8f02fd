/** Board geometry and the move rule of the Chinese-checkers engine (board.py):
    an axial-hex diamond of 81 cells, two 10-cell start corners, and the single-jump rule. */
module Board {
  import opened Wrappers
  import opened Seqs

  /** Axial hex coordinate (q, r). */
  datatype Coord = Coord(q: int, r: int)

  /** A side's identifier; only ever compared for equality. */
  type Name = string

  /** The board as the source's dictionary: the occupant of each cell (`None` when empty), and the
      order in which the cells were inserted, which is the order the dictionary iterates in. */
  datatype Grid = Grid(order: seq<Coord>, cells: map<Coord, Option<Name>>)
  {
    /** A dictionary has each key once, and iterates over exactly its keys. */
    ghost predicate WellFormed()
    {
      Distinct(order) && forall c :: c in cells <==> c in order
    }
  }

  // ---------------------------------------------------------------------------------------------
  // Layout (init_gird)

  /** The cells of the diamond: -4 <= q <= 4 and -4 <= q + r <= 4. */
  predicate InBoard(c: Coord)
  {
    -4 <= c.q <= 4 && -4 <= c.q + c.r <= 4
  }

  /** The top apex: `name1`'s start cells and `name2`'s goal. */
  predicate InTopCorner(c: Coord)
  {
    c.q > 0 && c.r < -4
  }

  /** The bottom apex: `name2`'s start cells and `name1`'s goal. */
  predicate InBottomCorner(c: Coord)
  {
    c.q < 0 && c.r > 4
  }

  /** Point reflection through the centre cell (0, 0). */
  function Reflect(c: Coord): Coord
  {
    Coord(-c.q, -c.r)
  }

  /** Row-major order (by r, then by q): the order init_gird inserts cells in. */
  predicate Before(a: Coord, b: Coord)
  {
    a.r < b.r || (a.r == b.r && a.q < b.q)
  }

  ghost predicate RowMajor(s: seq<Coord>)
  {
    forall i, j :: 0 <= i < j < |s| ==> Before(s[i], s[j])
  }

  function QMin(r: int): int { if -4 >= -r - 4 then -4 else -r - 4 }
  function QMax(r: int): int { if 4 <= -r + 4 then 4 else -r + 4 }

  /** Number of cells in rows -8 .. r-1. */
  function CellsBefore(r: int): int
    decreases r + 8
  {
    if r <= -8 then 0 else CellsBefore(r - 1) + (QMax(r - 1) - QMin(r - 1) + 1)
  }

  /** The diamond has 81 cells. */
  lemma DiamondSize()
    ensures CellsBefore(9) == 81
  {
    assert CellsBefore(-7) == 1;
    assert CellsBefore(-6) == 3;
    assert CellsBefore(-5) == 6;
    assert CellsBefore(-4) == 10;
    assert CellsBefore(-3) == 15;
    assert CellsBefore(-2) == 21;
    assert CellsBefore(-1) == 28;
    assert CellsBefore(0) == 36;
    assert CellsBefore(1) == 45;
    assert CellsBefore(2) == 53;
    assert CellsBefore(3) == 60;
    assert CellsBefore(4) == 66;
    assert CellsBefore(5) == 71;
    assert CellsBefore(6) == 75;
    assert CellsBefore(7) == 78;
    assert CellsBefore(8) == 80;
  }

  /** The ten top-apex cells in row-major order. */
  const TopCornerCells: seq<Coord> :=
    [Coord(4, -8), Coord(3, -7), Coord(4, -7), Coord(2, -6), Coord(3, -6), Coord(4, -6),
     Coord(1, -5), Coord(2, -5), Coord(3, -5), Coord(4, -5)]

  /** The ten bottom-apex cells in row-major order. */
  const BottomCornerCells: seq<Coord> :=
    [Coord(-4, 5), Coord(-3, 5), Coord(-2, 5), Coord(-1, 5), Coord(-4, 6), Coord(-3, 6),
     Coord(-2, 6), Coord(-4, 7), Coord(-3, 7), Coord(-4, 8)]

  /** The occupant init_gird gives a cell. */
  function InitialPiece(c: Coord, name1: Name, name2: Name): Option<Name>
  {
    if InTopCorner(c) then Some(name1) else if InBottomCorner(c) then Some(name2) else None
  }

  lemma TopCornerCellsExact(c: Coord)
    ensures c in TopCornerCells <==> InBoard(c) && InTopCorner(c)
  {
    if InBoard(c) && InTopCorner(c) {
      assert -8 <= c.r <= -5;
      if c.r == -8 { assert c.q == 4; }
      else if c.r == -7 { assert c.q in {3, 4}; }
      else if c.r == -6 { assert c.q in {2, 3, 4}; }
      else { assert c.q in {1, 2, 3, 4}; }
    }
  }

  lemma BottomCornerCellsExact(c: Coord)
    ensures c in BottomCornerCells <==> InBoard(c) && InBottomCorner(c)
  {
    if InBoard(c) && InBottomCorner(c) {
      assert 5 <= c.r <= 8;
      if c.r == 8 { assert c.q == -4; }
      else if c.r == 7 { assert c.q in {-4, -3}; }
      else if c.r == 6 { assert c.q in {-4, -3, -2}; }
      else { assert c.q in {-4, -3, -2, -1}; }
    }
  }

  /** Two row-major sequences with the same elements are equal. */
  lemma {:induction false} RowMajorUnique(a: seq<Coord>, b: seq<Coord>)
    requires RowMajor(a) && RowMajor(b)
    requires forall c :: c in a <==> c in b
    ensures a == b
  {
    SameElementsEmpty(a, b);
    if a != [] {
      RowMajorHead(a, b);
      RowMajorTail(a);
      RowMajorTail(b);
      RowMajorUnique(a[1..], b[1..]);
      assert a == [a[0]] + a[1..] && b == [b[0]] + b[1..];
    }
  }

  lemma SameElementsEmpty(a: seq<Coord>, b: seq<Coord>)
    requires forall c :: c in a <==> c in b
    ensures a == [] <==> b == []
  {
    if a != [] {
      assert a[0] in b;
    }
    if b != [] {
      assert b[0] in a;
    }
  }

  /** The first cell of a row-major sequence precedes all others, so two with the same elements
      start alike. */
  lemma RowMajorHead(a: seq<Coord>, b: seq<Coord>)
    requires RowMajor(a) && RowMajor(b) && a != [] && b != []
    requires forall c :: c in a <==> c in b
    ensures a[0] == b[0]
  {
    assert a[0] in b && b[0] in a;
    var i :| 0 <= i < |b| && b[i] == a[0];
    var j :| 0 <= j < |a| && a[j] == b[0];
  }

  /** Dropping the first cell keeps the order and removes exactly that cell. */
  lemma RowMajorTail(s: seq<Coord>)
    requires RowMajor(s) && s != []
    ensures RowMajor(s[1..])
    ensures forall c :: c in s[1..] <==> c in s && c != s[0]
  {
    forall i, j | 0 <= i < j < |s[1..]| ensures Before(s[1..][i], s[1..][j]) {
      assert s[1..][i] == s[i + 1] && s[1..][j] == s[j + 1];
    }
    forall c | c in s[1..] ensures c != s[0] {
      var k :| 0 <= k < |s[1..]| && s[1..][k] == c;
      assert Before(s[0], s[k + 1]);
    }
    assert s == [s[0]] + s[1..];
  }

  lemma RowMajorDistinct(s: seq<Coord>)
    requires RowMajor(s)
    ensures Distinct(s)
  {
    forall i, j | 0 <= i < j < |s| ensures s[i] != s[j] {
      assert Before(s[i], s[j]);
    }
  }

  /** The cells of the board that precede (q, r) in row-major order. */
  ghost predicate Inserted(c: Coord, r: int, q: int)
  {
    InBoard(c) && (c.r < r || (c.r == r && c.q < q))
  }

  /** The top apex when `top` holds, the bottom apex otherwise. */
  predicate InApex(c: Coord, top: bool)
  {
    if top then InTopCorner(c) else InBottomCorner(c)
  }

  /** The dictionary init_gird has built once it has inserted every cell before (q, r). */
  ghost predicate GridBuilt(grid: Grid, name1: Name, name2: Name, r: int, q: int)
  {
    && (forall c :: c in grid.cells <==> Inserted(c, r, q))
    && (forall c :: c in grid.cells <==> c in grid.order)
    && RowMajor(grid.order)
    && (forall i :: 0 <= i < |grid.order| ==> Before(grid.order[i], Coord(q, r)))
    && (forall c :: c in grid.cells ==> grid.cells[c] == InitialPiece(c, name1, name2))
  }

  /** The apex list init_gird has built once it has inserted every cell before (q, r). */
  ghost predicate CornerBuilt(corner: seq<Coord>, top: bool, r: int, q: int)
  {
    && (forall c :: c in corner <==> Inserted(c, r, q) && InApex(c, top))
    && RowMajor(corner)
    && (forall i :: 0 <= i < |corner| ==> Before(corner[i], Coord(q, r)))
  }

  /** What init_gird has built once it has inserted every cell before (q, r). */
  ghost predicate BuiltUpTo(grid: Grid, corner1: seq<Coord>, corner2: seq<Coord>,
                            name1: Name, name2: Name, r: int, q: int)
  {
    GridBuilt(grid, name1, name2, r, q) && CornerBuilt(corner1, true, r, q) && CornerBuilt(corner2, false, r, q)
  }

  /** Inserting cell (q, r) of row r extends what has been built by that cell. */
  lemma InsertStep(grid: Grid, corner1: seq<Coord>, corner2: seq<Coord>, name1: Name, name2: Name,
                   r: int, q: int, grid': Grid, corner1': seq<Coord>, corner2': seq<Coord>)
    requires -8 <= r <= 8 && QMin(r) <= q <= QMax(r)
    requires BuiltUpTo(grid, corner1, corner2, name1, name2, r, q)
    requires grid'.order == grid.order + [Coord(q, r)]
    requires grid'.cells == grid.cells[Coord(q, r) := InitialPiece(Coord(q, r), name1, name2)]
    requires corner1' == if InTopCorner(Coord(q, r)) then corner1 + [Coord(q, r)] else corner1
    requires corner2' == if InBottomCorner(Coord(q, r)) then corner2 + [Coord(q, r)] else corner2
    ensures BuiltUpTo(grid', corner1', corner2', name1, name2, r, q + 1)
  {
    GridStep(grid, name1, name2, r, q, grid');
    CornerStep(corner1, true, r, q, corner1');
    CornerStep(corner2, false, r, q, corner2');
  }

  lemma GridStep(grid: Grid, name1: Name, name2: Name, r: int, q: int, grid': Grid)
    requires -8 <= r <= 8 && QMin(r) <= q <= QMax(r)
    requires GridBuilt(grid, name1, name2, r, q)
    requires grid'.order == grid.order + [Coord(q, r)]
    requires grid'.cells == grid.cells[Coord(q, r) := InitialPiece(Coord(q, r), name1, name2)]
    ensures GridBuilt(grid', name1, name2, r, q + 1)
  {
    var c := Coord(q, r);
    assert InBoard(c);
    AppendRowMajor(grid.order, c);
    forall x ensures Inserted(x, r, q + 1) <==> Inserted(x, r, q) || x == c {
    }
  }

  lemma CornerStep(corner: seq<Coord>, top: bool, r: int, q: int, corner': seq<Coord>)
    requires -8 <= r <= 8 && QMin(r) <= q <= QMax(r)
    requires CornerBuilt(corner, top, r, q)
    requires corner' == if InApex(Coord(q, r), top) then corner + [Coord(q, r)] else corner
    ensures CornerBuilt(corner', top, r, q + 1)
  {
    var c := Coord(q, r);
    assert InBoard(c);
    AppendRowMajor(corner, c);
    forall x ensures Inserted(x, r, q + 1) <==> Inserted(x, r, q) || x == c {
    }
  }

  /** Once row r is complete, what has been built is everything before row r + 1. */
  lemma RowStep(grid: Grid, corner1: seq<Coord>, corner2: seq<Coord>, name1: Name, name2: Name, r: int)
    requires -8 <= r <= 8
    requires BuiltUpTo(grid, corner1, corner2, name1, name2, r, QMax(r) + 1)
    ensures BuiltUpTo(grid, corner1, corner2, name1, name2, r + 1, QMin(r + 1))
  {
    var qEnd, qNext := QMax(r) + 1, QMin(r + 1);
    forall x ensures Inserted(x, r, qEnd) <==> Inserted(x, r + 1, qNext) {
    }
  }

  lemma AppendRowMajor(s: seq<Coord>, c: Coord)
    requires RowMajor(s)
    requires forall i :: 0 <= i < |s| ==> Before(s[i], c)
    ensures RowMajor(s + [c])
  {
  }

  /** Builds the occupancy map and the two apex corners (board.py `init_gird`): one row
      r = -8 .. 8 at a time, each row's cells q = QMin(r) .. QMax(r) inserted in order. The
      top apex is filled with `name1` and listed in `corner1`, the bottom apex with `name2`
      and listed in `corner2`. */
  method InitGird(name1: Name, name2: Name) returns (grid: Grid, corner1: seq<Coord>, corner2: seq<Coord>)
    ensures grid.WellFormed()
    ensures forall c :: c in grid.cells <==> InBoard(c)
    ensures |grid.order| == 81
    ensures RowMajor(grid.order)
    ensures forall c :: c in grid.cells && InTopCorner(c) ==> grid.cells[c] == Some(name1)
    ensures forall c :: c in grid.cells && InBottomCorner(c) ==> grid.cells[c] == Some(name2)
    ensures forall c :: c in grid.cells && !InTopCorner(c) && !InBottomCorner(c) ==> grid.cells[c] == None
    ensures forall c :: c in corner1 <==> InBoard(c) && InTopCorner(c)
    ensures forall c :: c in corner2 <==> InBoard(c) && InBottomCorner(c)
    ensures corner1 == TopCornerCells && corner2 == BottomCornerCells
    ensures |corner1| == 10 && |corner2| == 10 && Distinct(corner1) && Distinct(corner2)
  {
    grid := Grid([], map[]);
    corner1, corner2 := [], [];
    var r := -8;
    while r < 9
      invariant -8 <= r <= 9
      invariant BuiltUpTo(grid, corner1, corner2, name1, name2, r, QMin(r))
      invariant |grid.order| == CellsBefore(r)
    {
      grid, corner1, corner2 := FillRow(grid, corner1, corner2, name1, name2, r);
      RowStep(grid, corner1, corner2, name1, name2, r);
      r := r + 1;
    }
    DiamondSize();
    FinishedGrid(grid, corner1, corner2, name1, name2);
  }

  /** The inner loop of init_gird: inserts the cells q = QMin(r) .. QMax(r) of row r, placing
      `name1` on the top apex and `name2` on the bottom apex and listing those cells. */
  method FillRow(grid: Grid, corner1: seq<Coord>, corner2: seq<Coord>, name1: Name, name2: Name, r: int)
    returns (grid': Grid, corner1': seq<Coord>, corner2': seq<Coord>)
    requires -8 <= r <= 8
    requires BuiltUpTo(grid, corner1, corner2, name1, name2, r, QMin(r))
    ensures BuiltUpTo(grid', corner1', corner2', name1, name2, r, QMax(r) + 1)
    ensures |grid'.order| == |grid.order| + (QMax(r) - QMin(r) + 1)
  {
    grid', corner1', corner2' := grid, corner1, corner2;
    var qMin, qMax := QMin(r), QMax(r);
    var q := qMin;
    while q < qMax + 1
      invariant qMin <= q <= qMax + 1
      invariant BuiltUpTo(grid', corner1', corner2', name1, name2, r, q)
      invariant |grid'.order| == |grid.order| + (q - qMin)
    {
      grid', corner1', corner2' := InsertCell(grid', corner1', corner2', name1, name2, r, q);
      q := q + 1;
    }
  }

  /** One pass of init_gird's inner loop: cell (q, r) is added empty, then given to `name1` and
      listed in `corner1` when it lies in the top apex, or to `name2` and listed in `corner2` when
      it lies in the bottom apex. */
  method InsertCell(grid: Grid, corner1: seq<Coord>, corner2: seq<Coord>, name1: Name, name2: Name, r: int, q: int)
    returns (grid': Grid, corner1': seq<Coord>, corner2': seq<Coord>)
    requires -8 <= r <= 8 && QMin(r) <= q <= QMax(r)
    requires BuiltUpTo(grid, corner1, corner2, name1, name2, r, q)
    ensures BuiltUpTo(grid', corner1', corner2', name1, name2, r, q + 1)
    ensures |grid'.order| == |grid.order| + 1
  {
    var c := Coord(q, r);
    corner1', corner2' := corner1, corner2;
    grid' := Grid(grid.order + [c], grid.cells[c := None]);
    if q > 0 && r < -4 {
      corner1' := corner1' + [c];
      grid' := grid'.(cells := grid'.cells[c := Some(name1)]);
      assert grid'.cells == grid.cells[c := Some(name1)];
    }
    if q < 0 && r > 4 {
      corner2' := corner2' + [c];
      grid' := grid'.(cells := grid'.cells[c := Some(name2)]);
      assert grid'.cells == grid.cells[c := Some(name2)];
    }
    InsertStep(grid, corner1, corner2, name1, name2, r, q, grid', corner1', corner2');
  }

  /** The state init_gird returns, from what its loops have built after the last row. */
  lemma FinishedGrid(grid: Grid, corner1: seq<Coord>, corner2: seq<Coord>, name1: Name, name2: Name)
    requires BuiltUpTo(grid, corner1, corner2, name1, name2, 9, QMin(9))
    ensures grid.WellFormed()
    ensures forall c :: c in grid.cells <==> InBoard(c)
    ensures forall c :: c in grid.cells && InTopCorner(c) ==> grid.cells[c] == Some(name1)
    ensures forall c :: c in grid.cells && InBottomCorner(c) ==> grid.cells[c] == Some(name2)
    ensures forall c :: c in grid.cells && !InTopCorner(c) && !InBottomCorner(c) ==> grid.cells[c] == None
    ensures forall c :: c in corner1 <==> InBoard(c) && InTopCorner(c)
    ensures forall c :: c in corner2 <==> InBoard(c) && InBottomCorner(c)
    ensures corner1 == TopCornerCells && corner2 == BottomCornerCells
    ensures Distinct(corner1) && Distinct(corner2)
  {
    RowMajorDistinct(grid.order);
    CornerFinished(corner1, true);
    CornerFinished(corner2, false);
  }

  /** A finished apex list holds exactly the apex cells of the board, in row-major order. */
  lemma CornerFinished(corner: seq<Coord>, top: bool)
    requires CornerBuilt(corner, top, 9, QMin(9))
    ensures forall c :: c in corner <==> InBoard(c) && InApex(c, top)
    ensures corner == if top then TopCornerCells else BottomCornerCells
    ensures Distinct(corner)
  {
    var cells := if top then TopCornerCells else BottomCornerCells;
    forall c ensures c in corner <==> c in cells {
      TopCornerCellsExact(c);
      BottomCornerCellsExact(c);
    }
    RowMajorUnique(corner, cells);
    RowMajorDistinct(corner);
  }

  /** The diamond is symmetric under point reflection, and the reflection swaps the two apexes:
      the goal of each side is the mirror image of its start. */
  lemma CornersReflect(c: Coord)
    ensures InBoard(c) <==> InBoard(Reflect(c))
    ensures InTopCorner(c) <==> InBottomCorner(Reflect(c))
    ensures c in TopCornerCells <==> Reflect(c) in BottomCornerCells
  {
    TopCornerCellsExact(c);
    BottomCornerCellsExact(Reflect(c));
  }

  /** The two apexes are disjoint. */
  lemma CornersDisjoint(c: Coord)
    ensures !(c in TopCornerCells && c in BottomCornerCells)
  {
    TopCornerCellsExact(c);
    BottomCornerCellsExact(c);
  }

  // ---------------------------------------------------------------------------------------------
  // Directions and the jump rule (get_cors_by_distance, get_possible_cors)

  /** The six axial unit directions, in the order get_cors_by_distance lists them. */
  const Directions: seq<Coord> :=
    [Coord(0, -1), Coord(0, 1), Coord(-1, 0), Coord(1, 0), Coord(1, -1), Coord(-1, 1)]

  /** `p` moved `d` steps along direction `i`. */
  function Shift(p: Coord, i: nat, d: int): Coord
    requires i < 6
  {
    Coord(p.q + d * Directions[i].q, p.r + d * Directions[i].r)
  }

  /** The six cells at `distance` from `cors` along the six axes (board.py `get_cors_by_distance`). */
  function CorsByDistance(cors: Coord, distance: int): (r: seq<Coord>)
    ensures |r| == 6
    ensures forall i :: 0 <= i < 6 ==> r[i] == Shift(cors, i, distance)
  {
    [
      Coord(cors.q, cors.r - distance),
      Coord(cors.q, cors.r + distance),
      Coord(cors.q - distance, cors.r),
      Coord(cors.q + distance, cors.r),
      Coord(cors.q + distance, cors.r - distance),
      Coord(cors.q - distance, cors.r + distance)
    ]
  }

  /** The distance-1 cell of each axis is the midpoint between `p` and the distance-2 cell, and
      for a non-zero distance the six cells are pairwise different and differ from `p`. */
  lemma PivotIsMidpoint(p: Coord, i: nat)
    requires i < 6
    ensures var pivot, landing := CorsByDistance(p, 1)[i], CorsByDistance(p, 2)[i];
      2 * pivot.q == p.q + landing.q && 2 * pivot.r == p.r + landing.r
  {
  }

  lemma {:induction false} ShiftsDistinct(p: Coord, d: int, i: nat, j: nat)
    requires d != 0 && i < 6 && j < 6
    ensures Shift(p, i, d) != p
    ensures i != j ==> Shift(p, i, d) != Shift(p, j, d)
  {
  }

  /** The cell exists and holds a piece of either side. */
  predicate Occupied(g: Grid, c: Coord)
  {
    c in g.cells && g.cells[c].Some?
  }

  /** The cell exists and is empty. */
  predicate Vacant(g: Grid, c: Coord)
  {
    c in g.cells && g.cells[c].None?
  }

  /** The jump rule, independent of how get_possible_cors computes it: `t` is two steps from `p`
      along some axis, the cell between them is occupied, and `t` is an empty board cell. */
  ghost predicate JumpAlong(g: Grid, p: Coord, t: Coord, i: nat)
    requires i < 6
  {
    t == Shift(p, i, 2) && Occupied(g, Shift(p, i, 1)) && Vacant(g, t)
  }

  ghost predicate LegalJump(g: Grid, p: Coord, t: Coord)
  {
    exists i :: 0 <= i < 6 && JumpAlong(g, p, t, i)
  }

  /** The axis along which `t` lies two steps from `p`, or 6 when there is none. */
  function JumpAxis(p: Coord, t: Coord): (i: nat)
    ensures i <= 6
    ensures i < 6 ==> t == Shift(p, i, 2)
    ensures forall j :: 0 <= j < 6 && t == Shift(p, j, 2) ==> i == j
  {
    var dq, dr := t.q - p.q, t.r - p.r;
    if dq == 0 && dr == -2 then 0
    else if dq == 0 && dr == 2 then 1
    else if dq == -2 && dr == 0 then 2
    else if dq == 2 && dr == 0 then 3
    else if dq == 2 && dr == -2 then 4
    else if dq == -2 && dr == 2 then 5
    else 6
  }

  /** The landing cells of axes i .. 5 that get_possible_cors keeps, in axis order. */
  function JumpsFrom(p: Coord, g: Grid, i: nat): (r: seq<Coord>)
    requires i <= 6
    ensures |r| <= 6 - i
    decreases 6 - i
  {
    if i == 6 then []
    else
      var pivot, landing := CorsByDistance(p, 1)[i], CorsByDistance(p, 2)[i];
      var here := if Occupied(g, pivot) && Vacant(g, landing) then [landing] else [];
      here + JumpsFrom(p, g, i + 1)
  }

  /** The cells JumpsFrom keeps are the legal landing cells along axes i .. 5, in axis order. */
  lemma {:induction false} JumpsFromSpec(p: Coord, g: Grid, i: nat)
    requires i <= 6
    ensures var r := JumpsFrom(p, g, i);
      (forall t :: t in r <==> i <= JumpAxis(p, t) < 6 && JumpAlong(g, p, t, JumpAxis(p, t))) &&
      (forall k :: 0 <= k < |r| ==> i <= JumpAxis(p, r[k]) < 6) &&
      (forall k, l :: 0 <= k < l < |r| ==> JumpAxis(p, r[k]) < JumpAxis(p, r[l]))
    decreases 6 - i
  {
    if i < 6 {
      JumpsFromSpec(p, g, i + 1);
    }
  }

  /** A legal jump lands along exactly one axis: the one JumpAxis names. */
  lemma LegalJumpAxis(g: Grid, p: Coord, t: Coord)
    ensures LegalJump(g, p, t) <==> JumpAxis(p, t) < 6 && JumpAlong(g, p, t, JumpAxis(p, t))
  {
    if JumpAxis(p, t) < 6 && JumpAlong(g, p, t, JumpAxis(p, t)) {
      assert 0 <= JumpAxis(p, t) < 6;
    }
  }

  /** The landing cells reachable from `selected_piece` by one jump (board.py `get_possible_cors`):
      for each axis in order, the distance-2 cell is kept when it is an empty board cell and the
      distance-1 cell between is an occupied board cell. Neither `selected_piece` nor its own cell
      is checked. */
  function PossibleCors(selectedPiece: Coord, g: Grid): (r: seq<Coord>)
    ensures |r| <= 6
  {
    JumpsFrom(selectedPiece, g, 0)
  }

  /** get_possible_cors lists exactly the cells the jump rule allows, each once, in axis order, and
      never the piece's own cell. */
  lemma PossibleCorsSpec(selectedPiece: Coord, g: Grid)
    ensures var r := PossibleCors(selectedPiece, g);
      (forall t :: t in r <==> LegalJump(g, selectedPiece, t)) &&
      (forall k, l :: 0 <= k < l < |r| ==> JumpAxis(selectedPiece, r[k]) < JumpAxis(selectedPiece, r[l])) &&
      Distinct(r) && selectedPiece !in r
  {
    var r := PossibleCors(selectedPiece, g);
    JumpsFromSpec(selectedPiece, g, 0);
    NoJumpToSelf(g, selectedPiece);
    forall t ensures LegalJump(g, selectedPiece, t) <==> t in r {
      LegalJumpAxis(g, selectedPiece, t);
    }
  }

  /** One landing cell at a time: `t` is listed exactly when the jump rule allows it. */
  lemma PossibleCorsLegal(p: Coord, g: Grid, t: Coord)
    ensures t in PossibleCors(p, g) <==> LegalJump(g, p, t)
  {
    PossibleCorsSpec(p, g);
  }

  lemma NoJumpToSelf(g: Grid, p: Coord)
    ensures !LegalJump(g, p, p)
  {
    if LegalJump(g, p, p) {
      var i :| 0 <= i < 6 && JumpAlong(g, p, p, i);
      ShiftsDistinct(p, 2, i, i);
    }
  }

  /** get_possible_cors reads only the twelve cells at distance 1 and 2 from `p`. */
  lemma {:induction false} PossibleCorsLocal(p: Coord, g1: Grid, g2: Grid)
    requires forall i :: 0 <= i < 6 ==>
      (Occupied(g1, Shift(p, i, 1)) <==> Occupied(g2, Shift(p, i, 1))) &&
      (Vacant(g1, Shift(p, i, 2)) <==> Vacant(g2, Shift(p, i, 2)))
    ensures PossibleCors(p, g1) == PossibleCors(p, g2)
  {
    JumpsFromLocal(p, g1, g2, 0);
  }

  lemma {:induction false} JumpsFromLocal(p: Coord, g1: Grid, g2: Grid, i: nat)
    requires i <= 6
    requires forall j :: 0 <= j < 6 ==>
      (Occupied(g1, Shift(p, j, 1)) <==> Occupied(g2, Shift(p, j, 1))) &&
      (Vacant(g1, Shift(p, j, 2)) <==> Vacant(g2, Shift(p, j, 2)))
    ensures JumpsFrom(p, g1, i) == JumpsFrom(p, g2, i)
    decreases 6 - i
  {
    if i < 6 {
      JumpsFromLocal(p, g1, g2, i + 1);
    }
  }

  /** The two-pieces scenario: a piece with one occupied neighbour and an empty cell beyond it, and
      nothing else around, has exactly that one landing cell. */
  lemma SingleJump(g: Grid, p: Coord, i: nat)
    requires i < 6
    requires Occupied(g, Shift(p, i, 1)) && Vacant(g, Shift(p, i, 2))
    requires forall j :: 0 <= j < 6 && j != i ==> !Occupied(g, Shift(p, j, 1))
    ensures PossibleCors(p, g) == [Shift(p, i, 2)]
  {
    JumpsFromSingle(g, p, i, 0);
  }

  lemma {:induction false} JumpsFromSingle(g: Grid, p: Coord, i: nat, j: nat)
    requires i < 6 && j <= 6
    requires Occupied(g, Shift(p, i, 1)) && Vacant(g, Shift(p, i, 2))
    requires forall k :: 0 <= k < 6 && k != i ==> !Occupied(g, Shift(p, k, 1))
    ensures JumpsFrom(p, g, j) == if j <= i then [Shift(p, i, 2)] else []
    decreases 6 - j
  {
    if j < 6 {
      JumpsFromSingle(g, p, i, j + 1);
    }
  }
}
