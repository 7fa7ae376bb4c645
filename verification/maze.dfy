/**
 * The map generator shared by the three copies (generateMap and its nested
 * dfs): a 28 x 38 grid of cells (1 blocked, 0 open) carved by a randomized
 * depth-first search with steps of 3, turned into walls, and post-processed.
 * The grid is indexed grid[y, x] as in the source; cells are named (x, y).
 */
module Maze {
  import opened Wrappers
  import opened Rules
  import opened Oracle

  /** gridWidth and gridHeight: the screen in tiles, less the perimeter ring. */
  const GRID_W: int := 38
  const GRID_H: int := 28

  lemma GridSize()
    ensures GRID_W == SCREEN_WIDTH / WALL_SIZE - 2 && GRID_H == SCREEN_HEIGHT / WALL_SIZE - 2
  {
  }

  predicate InGrid(x: int, y: int)
  {
    0 <= x < GRID_W && 0 <= y < GRID_H
  }

  ghost predicate Shaped(g: array2<int>)
  {
    g.Length0 == GRID_H && g.Length1 == GRID_W
  }

  /** Every cell holds 0 or 1. */
  ghost predicate Binary(g: array2<int>)
    reads g
  {
    forall y, x | 0 <= y < g.Length0 && 0 <= x < g.Length1 :: g[y, x] == 0 || g[y, x] == 1
  }

  /** The blocked cells, as (x, y) pairs. */
  ghost function Blocked(g: array2<int>): set<(int, int)>
    reads g
  {
    set x, y | 0 <= y < g.Length0 && 0 <= x < g.Length1 && g[y, x] == 1 :: (x, y)
  }

  ghost function AllCells(): set<(int, int)>
  {
    set x, y | 0 <= y < GRID_H && 0 <= x < GRID_W :: (x, y)
  }

  /** The 2 x 2 patch whose top-left cell is (x, y). */
  function Patch(x: int, y: int): set<(int, int)>
  {
    {(x, y), (x + 1, y), (x, y + 1), (x + 1, y + 1)}
  }

  /** A fresh grid of the maze's size with every cell blocked. */
  method NewGrid() returns (g: array2<int>)
    ensures fresh(g) && Shaped(g) && Binary(g)
    ensures Blocked(g) == AllCells()
  {
    g := new int[GRID_H, GRID_W]((y, x) => 1);
    assert forall y, x | 0 <= y < GRID_H && 0 <= x < GRID_W :: g[y, x] == 1;
  }

  /** Opening one in-range cell of the grid. */
  method Open(g: array2<int>, x: int, y: int)
    requires Shaped(g) && Binary(g) && InGrid(x, y)
    modifies g
    ensures Binary(g) && g[y, x] == 0
    ensures Blocked(g) == old(Blocked(g)) - {(x, y)}
  {
    g[y, x] := 0;
    assert forall j, i | 0 <= j < GRID_H && 0 <= i < GRID_W && (i, j) != (x, y) :: g[j, i] == old(g[j, i]);
  }

  /**
   * Opening a 2 x 2 patch: the cell (x, y) and those of its right, lower and
   * diagonal neighbours that lie in the grid (the code after the range
   * check of dfs, its midpoint block, and the patch of the opening rounds).
   */
  method OpenPatch(g: array2<int>, x: int, y: int)
    requires Shaped(g) && Binary(g) && InGrid(x, y)
    modifies g
    ensures Binary(g)
    ensures Blocked(g) == old(Blocked(g)) - Patch(x, y)
  {
    Open(g, x, y);
    if x + 1 < GRID_W {
      Open(g, x + 1, y);
    }
    if y + 1 < GRID_H {
      Open(g, x, y + 1);
    }
    if x + 1 < GRID_W && y + 1 < GRID_H {
      Open(g, x + 1, y + 1);
    }
  }

  /** The in-place Fisher-Yates shuffle of a direction list, one draw per position but the first. */
  method Shuffle(a: array<(int, int)>, rng: Random)
    requires rng.Valid()
    modifies a, rng
    ensures multiset(a[..]) == old(multiset(a[..]))
    ensures rng.used == old(rng.used) + (if a.Length == 0 then 0 else a.Length - 1)
  {
    var i := a.Length - 1;
    while i > 0
      invariant -1 <= i < a.Length && (a.Length > 0 ==> i >= 0)
      invariant multiset(a[..]) == old(multiset(a[..]))
      invariant rng.used == old(rng.used) + (a.Length - 1 - i)
    {
      var r := rng.Next();
      var j := Scaled(r, i + 1);
      a[i], a[j] := a[j], a[i];
      i := i - 1;
    }
  }

  /**
   * The recursive carve. Cells only ever change from blocked to open, the
   * 2 x 2 patch at an in-range (x, y) ends open, and every recursive call
   * is made on a cell that is still blocked, so the set of blocked cells,
   * together with whether the current cell is blocked, decreases.
   */
  method Dfs(g: array2<int>, rng: Random, x: int, y: int)
    requires Shaped(g) && Binary(g) && rng.Valid()
    modifies g, rng
    ensures Binary(g)
    ensures Blocked(g) <= old(Blocked(g))
    ensures InGrid(x, y) ==> Patch(x, y) !! Blocked(g)
    decreases Blocked(g), if InGrid(x, y) && g[y, x] == 1 then 0 else 1
  {
    if x < 0 || x >= GRID_W || y < 0 || y >= GRID_H {
      return;
    }
    ghost var entry := Blocked(g);
    OpenPatch(g, x, y);
    var dirs := new (int, int)[4] [(0, 3), (3, 0), (0, -3), (-3, 0)];
    Shuffle(dirs, rng);
    var k := 0;
    while k < 4
      invariant Binary(g) && rng.Valid()
      invariant Blocked(g) <= entry - Patch(x, y)
    {
      var (dx, dy) := dirs[k];
      var nx, ny := x + dx, y + dy;
      if 0 <= nx < GRID_W && 0 <= ny < GRID_H && g[ny, nx] == 1 {
        ghost var before := Blocked(g);
        assert (nx, ny) in before;
        var midX, midY := x + dx / 3, y + dy / 3;
        if 0 <= midX < GRID_W && 0 <= midY < GRID_H {
          OpenPatch(g, midX, midY);
        }
        assert (x, y) !in Blocked(g);
        assert (nx, ny) !in Blocked(g) ==> Blocked(g) < entry;
        Dfs(g, rng, nx, ny);
      }
      k := k + 1;
    }
  }

  // ---------------------------------------------------------------------
  // Walls on the grid

  /** The top-left corner of the wall tile drawn for a grid cell: one tile in from the ring. */
  function TileOf(c: (int, int)): (int, int)
  {
    ((c.0 + 1) * WALL_SIZE, (c.1 + 1) * WALL_SIZE)
  }

  /** The grid cell under a wall tile: (wall.x / WALL_SIZE) - 1, (wall.y / WALL_SIZE) - 1. */
  function CellOf(w: Wall): (int, int)
  {
    (w.x / WALL_SIZE - 1, w.y / WALL_SIZE - 1)
  }

  /** A wall that sits exactly on the tile of some grid cell. */
  predicate OnCell(w: Wall)
  {
    InGrid(CellOf(w).0, CellOf(w).1) && TileOf(CellOf(w)) == (w.x, w.y)
  }

  /** new Wall((x + 1) * WALL_SIZE, (y + 1) * WALL_SIZE, t) for the blocked cell (x, y). */
  function CellWall(x: int, y: int, t: int): (w: Wall)
    requires InGrid(x, y)
    ensures OnCell(w) && CellOf(w) == (x, y) && w.wallType == t
    ensures w.color == (if t == 2 then Some(WHITE) else None)
  {
    NewWall((x + 1) * WALL_SIZE, (y + 1) * WALL_SIZE, t)
  }

  /** A tile of the outer ring of the screen. */
  predicate OnRing(x: int, y: int)
  {
    x % WALL_SIZE == 0 && y % WALL_SIZE == 0
    && 0 <= x <= SCREEN_WIDTH - WALL_SIZE && 0 <= y <= SCREEN_HEIGHT - WALL_SIZE
    && (x == 0 || x == SCREEN_WIDTH - WALL_SIZE || y == 0 || y == SCREEN_HEIGHT - WALL_SIZE)
  }

  /** Walls on grid cells lie strictly inside the ring. */
  lemma OnCellInsideRing(w: Wall)
    requires OnCell(w)
    ensures WALL_SIZE <= w.x <= SCREEN_WIDTH - 2 * WALL_SIZE
    ensures WALL_SIZE <= w.y <= SCREEN_HEIGHT - 2 * WALL_SIZE
    ensures !OnRing(w.x, w.y)
  {
  }

  // ---------------------------------------------------------------------
  // The perimeter

  const PERIMETER: int := 136

  /** The i-th wall pushed by the two perimeter loops: top/bottom pairs, then left/right pairs. */
  function PerimeterWall(i: int): Wall
    requires 0 <= i < PERIMETER
  {
    if i < 80 then
      NewWall((i / 2) * WALL_SIZE, if i % 2 == 0 then 0 else SCREEN_HEIGHT - WALL_SIZE, 1)
    else
      NewWall(if (i - 80) % 2 == 0 then 0 else SCREEN_WIDTH - WALL_SIZE, ((i - 80) / 2 + 1) * WALL_SIZE, 1)
  }

  function PerimeterWalls(): (p: seq<Wall>)
    ensures |p| == PERIMETER
  {
    seq(PERIMETER, i requires 0 <= i < PERIMETER => PerimeterWall(i))
  }

  /** The two perimeter loops of generateMap. */
  method LayPerimeter() returns (walls: seq<Wall>)
    ensures walls == PerimeterWalls()
  {
    walls := [];
    var x := 0;
    ghost var c := 0;
    while x < SCREEN_WIDTH
      invariant 0 <= c <= 40 && x == c * WALL_SIZE
      invariant |walls| == 2 * c
      invariant forall i | 0 <= i < |walls| :: walls[i] == PerimeterWall(i)
    {
      walls := walls + [NewWall(x, 0, 1)];
      walls := walls + [NewWall(x, SCREEN_HEIGHT - WALL_SIZE, 1)];
      x := x + WALL_SIZE;
      c := c + 1;
    }
    var y := WALL_SIZE;
    c := 1;
    while y < SCREEN_HEIGHT - WALL_SIZE
      invariant 1 <= c <= 29 && y == c * WALL_SIZE
      invariant |walls| == 80 + 2 * (c - 1)
      invariant forall i | 0 <= i < |walls| :: walls[i] == PerimeterWall(i)
    {
      walls := walls + [NewWall(0, y, 1)];
      walls := walls + [NewWall(SCREEN_WIDTH - WALL_SIZE, y, 1)];
      y := y + WALL_SIZE;
      c := c + 1;
    }
    assert |walls| == PERIMETER;
    assert forall i | 0 <= i < PERIMETER :: walls[i] == PerimeterWalls()[i];
  }

  /** Every perimeter wall is a type-1, colourless tile of the outer ring. */
  lemma PerimeterOnRing(i: int)
    requires 0 <= i < PERIMETER
    ensures PerimeterWall(i).wallType == 1 && PerimeterWall(i).color == None
    ensures OnRing(PerimeterWall(i).x, PerimeterWall(i).y)
  {
  }

  /** No two perimeter walls share a tile. */
  lemma PerimeterDistinct(i: int, j: int)
    requires 0 <= i < j < PERIMETER
    ensures (PerimeterWall(i).x, PerimeterWall(i).y) != (PerimeterWall(j).x, PerimeterWall(j).y)
  {
  }

  /** Every tile of the outer ring carries a perimeter wall: the ring is closed. */
  lemma PerimeterCoversRing(x: int, y: int)
    requires OnRing(x, y)
    ensures exists i | 0 <= i < PERIMETER :: (PerimeterWall(i).x, PerimeterWall(i).y) == (x, y)
  {
    var i;
    if y == 0 {
      i := 2 * (x / WALL_SIZE);
    } else if y == SCREEN_HEIGHT - WALL_SIZE {
      i := 2 * (x / WALL_SIZE) + 1;
    } else if x == 0 {
      i := 80 + 2 * (y / WALL_SIZE - 1);
    } else {
      i := 80 + 2 * (y / WALL_SIZE - 1) + 1;
    }
    assert (PerimeterWall(i).x, PerimeterWall(i).y) == (x, y);
  }

  // ---------------------------------------------------------------------
  // The structure every stage of the generator keeps

  /** Type 1..3, and white exactly when type 2, as the Wall constructor colours it. */
  predicate WellTyped(w: Wall)
  {
    1 <= w.wallType <= 3 && w.color == (if w.wallType == 2 then Some(WHITE) else None)
  }

  /**
   * The wall list: the 136 perimeter walls first, untouched, then walls on
   * grid cells, no two on the same cell, every wall well typed.
   */
  ghost predicate Layout(walls: seq<Wall>)
  {
    |walls| >= PERIMETER && walls[..PERIMETER] == PerimeterWalls()
    && (forall i | PERIMETER <= i < |walls| :: OnCell(walls[i]))
    && (forall i, j | PERIMETER <= i < j < |walls| :: CellOf(walls[i]) != CellOf(walls[j]))
    && (forall i | 0 <= i < |walls| :: WellTyped(walls[i]))
  }

  /** The cells that carry an interior wall. */
  ghost function WallCells(walls: seq<Wall>): set<(int, int)>
  {
    set i | PERIMETER <= i < |walls| :: CellOf(walls[i])
  }

  lemma WallCellsAppend(walls: seq<Wall>, w: Wall)
    requires |walls| >= PERIMETER
    ensures WallCells(walls + [w]) == WallCells(walls) + {CellOf(w)}
  {
    var r := walls + [w];
    assert CellOf(r[|walls|]) == CellOf(w);
    forall c | c in WallCells(walls)
      ensures c in WallCells(r)
    {
      var i :| PERIMETER <= i < |walls| && CellOf(walls[i]) == c;
      assert CellOf(r[i]) == c;
    }
  }

  lemma PerimeterLayout()
    ensures Layout(PerimeterWalls())
  {
    forall i | 0 <= i < PERIMETER
      ensures WellTyped(PerimeterWalls()[i])
    {
      PerimeterOnRing(i);
    }
  }

  /** The list with its k-th element removed, when k is an index of it. */
  function Splice<T>(s: seq<T>, k: int): (r: seq<T>)
    requires 0 <= k < |s|
    ensures |r| == |s| - 1
    ensures forall i | 0 <= i < k :: r[i] == s[i]
    ensures forall i | k <= i < |r| :: r[i] == s[i + 1]
  {
    s[..k] + s[k + 1..]
  }

  /** Removing one interior wall keeps the layout and frees exactly its cell. */
  lemma SpliceInterior(walls: seq<Wall>, k: int)
    requires Layout(walls) && PERIMETER <= k < |walls|
    ensures Layout(Splice(walls, k))
    ensures WallCells(Splice(walls, k)) == WallCells(walls) - {CellOf(walls[k])}
  {
    var r := Splice(walls, k);
    assert r[..PERIMETER] == walls[..PERIMETER];
    forall c | c in WallCells(walls) - {CellOf(walls[k])}
      ensures c in WallCells(r)
    {
      var i :| PERIMETER <= i < |walls| && CellOf(walls[i]) == c;
      if i < k {
        assert CellOf(r[i]) == c;
      } else {
        assert CellOf(r[i - 1]) == c;
      }
    }
  }

  /** A wall found at the tile of an in-grid cell is that cell's interior wall. */
  lemma AtTileIsCellWall(walls: seq<Wall>, c: (int, int), i: int)
    requires Layout(walls) && InGrid(c.0, c.1) && 0 <= i < |walls|
    requires (walls[i].x, walls[i].y) == TileOf(c)
    ensures PERIMETER <= i && CellOf(walls[i]) == c
  {
    if i < PERIMETER {
      assert walls[i] == PerimeterWalls()[i];
      PerimeterOnRing(i);
      assert false;
    }
  }

  /** Every interior wall cell has its wall at a definite index. */
  lemma CellWallIndex(walls: seq<Wall>, c: (int, int)) returns (i: int)
    requires Layout(walls) && c in WallCells(walls)
    ensures PERIMETER <= i < |walls| && CellOf(walls[i]) == c
    ensures (walls[i].x, walls[i].y) == TileOf(c)
  {
    i :| PERIMETER <= i < |walls| && CellOf(walls[i]) == c;
  }

  // ---------------------------------------------------------------------
  // Wall types

  const CHOICES: seq<int> := [1, 2, 3]
  const WEIGHTS: seq<real> := [1.0, 3.0, 1.0]

  /** The total of the weights. */
  function Sum(ws: seq<real>): real
  {
    if |ws| == 0 then 0.0 else ws[0] + Sum(ws[1..])
  }

  /**
   * The weighted choice: the first choice whose weight exceeds what is left
   * of rand, subtracting each weight passed over; 0 when none does.
   */
  function Choose(choices: seq<int>, weights: seq<real>, rand: real): int
    requires |choices| == |weights|
    decreases |choices|
  {
    if |choices| == 0 then 0
    else if rand < weights[0] then choices[0]
    else Choose(choices[1..], weights[1..], rand - weights[0])
  }

  /** The loop over choices that picks a wall type. */
  method WeightedChoice(choices: seq<int>, weights: seq<real>, rand: real) returns (t: int)
    requires |choices| == |weights|
    ensures t == Choose(choices, weights, rand)
  {
    t := 0;
    var rest := rand;
    var i := 0;
    while i < |choices|
      invariant 0 <= i <= |choices|
      invariant Choose(choices[i..], weights[i..], rest) == Choose(choices, weights, rand)
    {
      if rest < weights[i] {
        t := choices[i];
        return;
      }
      rest := rest - weights[i];
      i := i + 1;
    }
  }

  /**
   * With weights [1, 3, 1] the choice is type 1 below 1, type 2 on [1, 4),
   * type 3 on [4, 5) and the placeholder 0 only from 5 on.
   */
  lemma WeightedThresholds(rand: real)
    ensures Choose(CHOICES, WEIGHTS, rand)
         == if rand < 1.0 then 1 else if rand < 4.0 then 2 else if rand < 5.0 then 3 else 0
  {
    assert CHOICES[1..] == [2, 3] && WEIGHTS[1..] == [3.0, 1.0];
    assert CHOICES[2..] == [3] && WEIGHTS[2..] == [1.0];
    assert CHOICES[3..] == [] && WEIGHTS[3..] == [];
  }

  /** How a blocked cell's wall type is drawn: weighted [1, 3, 1] or uniform over {1, 2, 3}. */
  datatype TypeRule = Weighted | Uniform

  /** The wall type that the draw r produces under a rule. */
  function TypeFor(rule: TypeRule, r: real): int
    requires 0.0 <= r < 1.0
  {
    match rule
    case Weighted => Choose(CHOICES, WEIGHTS, r * Sum(WEIGHTS))
    case Uniform => CHOICES[Scaled(r, |CHOICES|)]
  }

  /** Every draw gives a real wall type: the placeholder 0 is never produced. */
  lemma TypeForRange(rule: TypeRule, r: real)
    requires 0.0 <= r < 1.0
    ensures 1 <= TypeFor(rule, r) <= 3
  {
    if rule == Weighted {
      assert Sum(WEIGHTS) == 5.0;
      ScaledBelow(r, 5.0);
      WeightedThresholds(r * 5.0);
    }
  }

  /** One blocked cell's type: one draw, then the rule's choice. */
  method PickType(rng: Random, rule: TypeRule) returns (t: int)
    requires rng.Valid()
    modifies rng
    ensures rng.used == old(rng.used) + 1
    ensures t == TypeFor(rule, rng.draws(old(rng.used))) && 1 <= t <= 3
  {
    var r := rng.Next();
    TypeForRange(rule, r);
    match rule
    case Weighted =>
      var total := Sum(WEIGHTS);
      t := WeightedChoice(CHOICES, WEIGHTS, r * total);
    case Uniform =>
      t := CHOICES[Scaled(r, |CHOICES|)];
  }

  // ---------------------------------------------------------------------
  // Turning blocked cells into walls

  /** Row-major rank of a cell. */
  function Key(c: (int, int)): int
  {
    c.1 * GRID_W + c.0
  }

  /** The blocked cells before rank k in row-major order. */
  ghost function BlockedBefore(g: array2<int>, k: int): set<(int, int)>
    reads g
  {
    set x, y | 0 <= y < g.Length0 && 0 <= x < g.Length1 && g[y, x] == 1 && y * GRID_W + x < k :: (x, y)
  }

  lemma BlockedBeforeStep(g: array2<int>, x: int, y: int)
    requires Shaped(g) && InGrid(x, y)
    ensures BlockedBefore(g, Key((x, y)) + 1)
         == BlockedBefore(g, Key((x, y))) + (if g[y, x] == 1 then {(x, y)} else {})
  {
  }

  lemma BlockedBeforeAll(g: array2<int>)
    requires Shaped(g)
    ensures BlockedBefore(g, GRID_H * GRID_W) == Blocked(g)
  {
  }

  /** The interior walls are in strictly increasing row-major order. */
  ghost predicate RowMajor(walls: seq<Wall>)
  {
    forall i, j | PERIMETER <= i < j < |walls| :: Key(CellOf(walls[i])) < Key(CellOf(walls[j]))
  }

  /** What the placement loops have built by the time they reach rank k, drawing from position start on. */
  ghost predicate Placed(g: array2<int>, walls: seq<Wall>, k: int, draws: nat -> real, start: nat, rule: TypeRule)
    reads g
    requires Shaped(g)
    requires forall i: nat :: 0.0 <= draws(i) < 1.0
  {
    Layout(walls) && RowMajor(walls)
    && (forall i | PERIMETER <= i < |walls| :: Key(CellOf(walls[i])) < k)
    && WallCells(walls) == BlockedBefore(g, k)
    && (forall i | PERIMETER <= i < |walls| :: walls[i].wallType == TypeFor(rule, draws(start + i - PERIMETER)))
  }

  /** Appending a wall on a cell ranked after every interior wall keeps the ordered layout. */
  lemma AppendInOrder(walls: seq<Wall>, w: Wall, k: int)
    requires Layout(walls) && RowMajor(walls)
    requires forall i | PERIMETER <= i < |walls| :: Key(CellOf(walls[i])) < k
    requires OnCell(w) && WellTyped(w) && Key(CellOf(w)) == k
    ensures Layout(walls + [w]) && RowMajor(walls + [w])
    ensures forall i | PERIMETER <= i < |walls| + 1 :: Key(CellOf((walls + [w])[i])) < k + 1
  {
    var r := walls + [w];
    assert r[..PERIMETER] == walls[..PERIMETER];
    assert forall i | 0 <= i < |walls| :: r[i] == walls[i];
  }

  /** An open cell: the placement loops move one rank further on without pushing a wall. */
  lemma PlaceSkip(g: array2<int>, walls: seq<Wall>, x: int, y: int, draws: nat -> real, start: nat, rule: TypeRule)
    requires Shaped(g) && InGrid(x, y) && g[y, x] != 1 && forall i: nat :: 0.0 <= draws(i) < 1.0
    requires Placed(g, walls, Key((x, y)), draws, start, rule)
    ensures Placed(g, walls, Key((x, y)) + 1, draws, start, rule)
  {
    BlockedBeforeStep(g, x, y);
  }

  /** A blocked cell: pushing its wall, typed by the next draw, keeps Placed one rank further on. */
  lemma PlaceStep(g: array2<int>, walls: seq<Wall>, x: int, y: int, draws: nat -> real, start: nat, rule: TypeRule, t: int)
    requires Shaped(g) && InGrid(x, y) && g[y, x] == 1 && forall i: nat :: 0.0 <= draws(i) < 1.0
    requires Placed(g, walls, Key((x, y)), draws, start, rule)
    requires t == TypeFor(rule, draws(start + |walls| - PERIMETER))
    ensures Placed(g, walls + [CellWall(x, y, t)], Key((x, y)) + 1, draws, start, rule)
  {
    BlockedBeforeStep(g, x, y);
    TypeForRange(rule, draws(start + |walls| - PERIMETER));
    var w := CellWall(x, y, t);
    WallCellsAppend(walls, w);
    AppendInOrder(walls, w, Key((x, y)));
    var r := walls + [w];
    assert forall i | PERIMETER <= i < |walls| :: r[i] == walls[i];
  }

  /** Placed at the last rank is the whole postcondition of the placement loops. */
  lemma PlacedAll(g: array2<int>, walls: seq<Wall>, draws: nat -> real, start: nat, rule: TypeRule)
    requires Shaped(g) && forall i: nat :: 0.0 <= draws(i) < 1.0
    requires Placed(g, walls, GRID_H * GRID_W, draws, start, rule)
    ensures Layout(walls) && RowMajor(walls) && WallCells(walls) == Blocked(g)
    ensures forall i | PERIMETER <= i < |walls| :: walls[i].wallType == TypeFor(rule, draws(start + i - PERIMETER))
  {
    BlockedBeforeAll(g);
  }

  /** The inner placement loop over one row of the grid. */
  method PlaceRow(g: array2<int>, walls: seq<Wall>, rng: Random, y: int, ghost start: nat, rule: TypeRule)
    returns (r: seq<Wall>)
    requires Shaped(g) && 0 <= y < GRID_H && rng.Valid()
    requires rng.used == start + (|walls| - PERIMETER)
    requires Placed(g, walls, y * GRID_W, rng.draws, start, rule)
    modifies rng
    ensures rng.used == start + (|r| - PERIMETER)
    ensures Placed(g, r, (y + 1) * GRID_W, rng.draws, start, rule)
  {
    r := walls;
    var x := 0;
    while x < GRID_W
      invariant 0 <= x <= GRID_W
      invariant rng.used == start + (|r| - PERIMETER)
      invariant Placed(g, r, y * GRID_W + x, rng.draws, start, rule)
    {
      if g[y, x] == 1 {
        var t := PickType(rng, rule);
        PlaceStep(g, r, x, y, rng.draws, start, rule, t);
        r := r + [CellWall(x, y, t)];
      } else {
        PlaceSkip(g, r, x, y, rng.draws, start, rule);
      }
      x := x + 1;
    }
  }

  /**
   * The placement loops: one wall per blocked cell, in row-major order, with
   * one draw per wall deciding its type.
   */
  method PlaceWalls(g: array2<int>, perimeter: seq<Wall>, rng: Random, rule: TypeRule) returns (walls: seq<Wall>)
    requires Shaped(g) && rng.Valid()
    requires perimeter == PerimeterWalls()
    modifies rng
    ensures Layout(walls) && RowMajor(walls)
    ensures WallCells(walls) == Blocked(g)
    ensures rng.used == old(rng.used) + (|walls| - PERIMETER)
    ensures forall i | PERIMETER <= i < |walls| ::
      walls[i].wallType == TypeFor(rule, rng.draws(old(rng.used) + i - PERIMETER))
  {
    walls := perimeter;
    PerimeterLayout();
    ghost var start := rng.used;
    var y := 0;
    while y < GRID_H
      invariant 0 <= y <= GRID_H
      invariant rng.used == start + (|walls| - PERIMETER)
      invariant Placed(g, walls, y * GRID_W, rng.draws, start, rule)
    {
      walls := PlaceRow(g, walls, rng, y, start, rule);
      y := y + 1;
    }
    PlacedAll(g, walls, rng.draws, start, rule);
  }

  // ---------------------------------------------------------------------
  // Reducing dead ends

  /** A cell reads as blocked: in the grid and holding 1 (an out-of-range read is never 1). */
  predicate BlockedAt(g: array2<int>, x: int, y: int)
    reads g
    requires Shaped(g)
  {
    InGrid(x, y) && g[y, x] == 1
  }

  /** How many of the values are 1, as in the count of blocked neighbours. */
  function CountOnes(s: seq<int>): nat
  {
    if |s| == 0 then 0 else (if s[0] == 1 then 1 else 0) + CountOnes(s[1..])
  }

  /** An open inner cell with at least three blocked neighbours among up, down, left, right. */
  predicate DeadEnd(g: array2<int>, x: int, y: int)
    reads g
    requires Shaped(g) && 1 <= x < GRID_W - 1 && 1 <= y < GRID_H - 1
  {
    g[y, x] == 0 && CountOnes([g[y - 1, x], g[y + 1, x], g[y, x - 1], g[y, x + 1]]) >= 3
  }

  const STEPS: seq<(int, int)> := [(0, 1), (1, 0), (0, -1), (-1, 0)]

  function Neighbours(x: int, y: int): set<(int, int)>
  {
    {(x, y + 1), (x + 1, y), (x, y - 1), (x - 1, y)}
  }

  lemma CountOnesFour(a: int, b: int, c: int, d: int)
    ensures CountOnes([a, b, c, d])
         == (if a == 1 then 1 else 0) + (if b == 1 then 1 else 0) + (if c == 1 then 1 else 0) + (if d == 1 then 1 else 0)
  {
    assert [a, b, c, d][1..] == [b, c, d];
    assert [b, c, d][1..] == [c, d];
    assert [c, d][1..] == [d];
    assert [d][1..] == [];
    assert CountOnes([d]) == (if d == 1 then 1 else 0);
    assert CountOnes([c, d]) == (if c == 1 then 1 else 0) + CountOnes([d]);
    assert CountOnes([b, c, d]) == (if b == 1 then 1 else 0) + CountOnes([c, d]);
  }

  /** Whatever order the shuffle leaves the four steps in, a dead end has a blocked one among them. */
  lemma SomeStepBlocked(g: array2<int>, x: int, y: int, dirs: seq<(int, int)>) returns (j: int)
    requires Shaped(g) && 1 <= x < GRID_W - 1 && 1 <= y < GRID_H - 1 && DeadEnd(g, x, y)
    requires multiset(dirs) == multiset(STEPS)
    ensures 0 <= j < |dirs| && (x + dirs[j].0, y + dirs[j].1) in Blocked(g)
  {
    CountOnesFour(g[y - 1, x], g[y + 1, x], g[y, x - 1], g[y, x + 1]);
    var d := if g[y - 1, x] == 1 then (0, -1) else (0, 1);
    assert (x + d.0, y + d.1) in Blocked(g);
    assert d in multiset(STEPS);
    j :| 0 <= j < |dirs| && dirs[j] == d;
  }

  /** A shuffled copy of the four steps holds only unit steps. */
  lemma ShuffledSteps(dirs: seq<(int, int)>)
    requires multiset(dirs) == multiset(STEPS)
    ensures |dirs| == 4 && forall j | 0 <= j < |dirs| :: dirs[j] in STEPS
  {
    assert |dirs| == |multiset(dirs)| == 4;
    forall j | 0 <= j < |dirs|
      ensures dirs[j] in STEPS
    {
      assert dirs[j] in multiset(dirs);
    }
  }

  /** Splicing out the last wall found at a position, searching from the end of the list. */
  method RemoveLastAt(walls: seq<Wall>, px: int, py: int) returns (r: seq<Wall>, k: int)
    ensures -1 <= k < |walls|
    ensures forall i | k < i < |walls| :: (walls[i].x, walls[i].y) != (px, py)
    ensures k == -1 ==> r == walls
    ensures 0 <= k ==> (walls[k].x, walls[k].y) == (px, py) && r == Splice(walls, k)
  {
    r := walls;
    k := |walls| - 1;
    while k >= 0
      invariant -1 <= k < |walls|
      invariant forall i | k < i < |walls| :: (walls[i].x, walls[i].y) != (px, py)
    {
      if walls[k].x == px && walls[k].y == py {
        r := Splice(walls, k);
        return;
      }
      k := k - 1;
    }
  }

  /**
   * Opening one blocked cell and splicing out its wall, found by searching
   * the list from the end for the wall at the cell's tile.
   */
  method OpenCell(g: array2<int>, walls: seq<Wall>, nx: int, ny: int) returns (r: seq<Wall>)
    requires Shaped(g) && Binary(g) && InGrid(nx, ny) && g[ny, nx] == 1
    requires Layout(walls) && WallCells(walls) == Blocked(g)
    modifies g
    ensures Binary(g) && Layout(r) && WallCells(r) == Blocked(g)
    ensures Blocked(g) == old(Blocked(g)) - {(nx, ny)}
    ensures exists k | PERIMETER <= k < |walls| :: CellOf(walls[k]) == (nx, ny) && r == Splice(walls, k)
  {
    ghost var j := CellWallIndex(walls, (nx, ny));
    Open(g, nx, ny);
    var k;
    r, k := RemoveLastAt(walls, (nx + 1) * WALL_SIZE, (ny + 1) * WALL_SIZE);
    assert k >= j;
    AtTileIsCellWall(walls, (nx, ny), k);
    SpliceInterior(walls, k);
  }

  /** Some neighbour of (x, y) that was blocked is open now, alone, and its wall was spliced out. */
  ghost predicate OpenedNeighbour(before: set<(int, int)>, after: set<(int, int)>, walls: seq<Wall>, r: seq<Wall>, x: int, y: int)
  {
    exists n :: n in Neighbours(x, y) && n in before && after == before - {n}
      && exists k | PERIMETER <= k < |walls| :: CellOf(walls[k]) == n && r == Splice(walls, k)
  }

  /**
   * Step k of dirs leads from (x, y) to a neighbour that was blocked, that
   * neighbour alone is open now, and no earlier step led to a blocked one.
   */
  ghost predicate OpenedStep(before: set<(int, int)>, after: set<(int, int)>, dirs: seq<(int, int)>, x: int, y: int, k: int)
  {
    && 0 <= k < |dirs|
    && (x + dirs[k].0, y + dirs[k].1) in before
    && after == before - {(x + dirs[k].0, y + dirs[k].1)}
    && EarlierOpen(before, dirs, x, y, k)
  }

  /** None of the first k steps of dirs leads from (x, y) to a blocked cell. */
  ghost predicate EarlierOpen(before: set<(int, int)>, dirs: seq<(int, int)>, x: int, y: int, k: int)
    requires k <= |dirs|
  {
    forall j | 0 <= j < k :: (x + dirs[j].0, y + dirs[j].1) !in before
  }

  lemma EarlierOpenStep(before: set<(int, int)>, dirs: seq<(int, int)>, x: int, y: int, k: int)
    requires 0 <= k < |dirs| && EarlierOpen(before, dirs, x, y, k)
    requires (x + dirs[k].0, y + dirs[k].1) !in before
    ensures EarlierOpen(before, dirs, x, y, k + 1)
  {
  }

  /** One pass of the step loop: the neighbour one step d away is hit when it is blocked. */
  method TryStep(g: array2<int>, walls: seq<Wall>, x: int, y: int, d: (int, int), ghost before: set<(int, int)>)
    returns (r: seq<Wall>, hit: bool, ghost after: set<(int, int)>)
    requires Shaped(g) && Binary(g) && 1 <= x < GRID_W - 1 && 1 <= y < GRID_H - 1 && d in STEPS
    requires Layout(walls) && before == Blocked(g) && WallCells(walls) == before
    modifies g
    ensures Binary(g) && Layout(r) && after == Blocked(g) && WallCells(r) == after
    ensures hit == ((x + d.0, y + d.1) in before)
    ensures !hit ==> r == walls && after == before
    ensures hit ==> after == before - {(x + d.0, y + d.1)}
    ensures hit ==> OpenedNeighbour(before, after, walls, r, x, y)
  {
    var nx, ny := x + d.0, y + d.1;
    r := walls;
    hit := g[ny, nx] == 1;
    if hit {
      assert (nx, ny) in Neighbours(x, y);
      r := OpenCell(g, walls, nx, ny);
    } else {
      assert (nx, ny) !in Blocked(g);
    }
    after := Blocked(g);
  }

  /**
   * Where the step loop stands after k steps: while nothing is open yet the
   * walls and the grid are as they were and no step so far led to a blocked
   * cell; once something is open, step chosen opened the first blocked
   * neighbour and its wall was spliced out.
   */
  ghost predicate StepLoop(before: set<(int, int)>, cur: set<(int, int)>, walls: seq<Wall>, r: seq<Wall>,
                           ds: seq<(int, int)>, x: int, y: int, k: int, done: bool, chosen: int, first: int)
    requires k <= |ds|
  {
    && (!done ==> r == walls && cur == before && EarlierOpen(before, ds, x, y, k) && k <= first)
    && (done ==> OpenedNeighbour(before, cur, walls, r, x, y) && OpenedStep(before, cur, ds, x, y, chosen))
  }

  lemma StepLoopNext(before: set<(int, int)>, cur: set<(int, int)>, walls: seq<Wall>, r: seq<Wall>,
                     ds: seq<(int, int)>, x: int, y: int, k: int, d: (int, int), hit: bool, first: int)
    requires 0 <= k < |ds| && d == ds[k] && EarlierOpen(before, ds, x, y, k) && k <= first
    requires 0 <= first < |ds| && (x + ds[first].0, y + ds[first].1) in before
    requires hit == ((x + d.0, y + d.1) in before)
    requires !hit ==> r == walls && cur == before
    requires hit ==> cur == before - {(x + d.0, y + d.1)} && OpenedNeighbour(before, cur, walls, r, x, y)
    ensures StepLoop(before, cur, walls, r, ds, x, y, k + 1, hit, k, first)
  {
    if !hit {
      EarlierOpenStep(before, ds, x, y, k);
    }
  }

  /**
   * The loop over the shuffled steps: the first blocked neighbour is
   * opened, then the loop stops. Step first is known to lead to a blocked
   * cell, so the loop always opens one.
   */
  method OpenFirstBlocked(g: array2<int>, walls: seq<Wall>, dirs: array<(int, int)>, x: int, y: int, ghost first: int)
    returns (r: seq<Wall>)
    requires Shaped(g) && Binary(g) && 1 <= x < GRID_W - 1 && 1 <= y < GRID_H - 1
    requires dirs.Length == 4 && forall j | 0 <= j < 4 :: dirs[j] in STEPS
    requires 0 <= first < 4 && (x + dirs[first].0, y + dirs[first].1) in Blocked(g)
    requires Layout(walls) && WallCells(walls) == Blocked(g)
    modifies g
    ensures Binary(g) && Layout(r) && WallCells(r) == Blocked(g)
    ensures OpenedNeighbour(old(Blocked(g)), Blocked(g), walls, r, x, y)
    ensures exists k :: OpenedStep(old(Blocked(g)), Blocked(g), dirs[..], x, y, k)
  {
    ghost var ds := dirs[..];
    ghost var before := Blocked(g);
    r := walls;
    var k := 0;
    var done := false;
    ghost var chosen := -1;
    ghost var cur := before;
    while k < 4 && !done
      invariant 0 <= k <= 4 && dirs[..] == ds
      invariant Binary(g) && Layout(r) && cur == Blocked(g) && WallCells(r) == cur
      invariant StepLoop(before, cur, walls, r, ds, x, y, k, done, chosen, first)
    {
      var d := dirs[k];
      assert d == ds[k] && cur == before && EarlierOpen(before, ds, x, y, k) && k <= first;
      r, done, cur := TryStep(g, walls, x, y, d, before);
      StepLoopNext(before, cur, walls, r, ds, x, y, k, d, done, first);
      chosen := k;
      k := k + 1;
    }
  }

  /**
   * The dead-end test at one inner cell: an open cell with three or more
   * blocked neighbours gets exactly one of them opened, and that
   * neighbour's wall removed; any other cell is left alone.
   */
  method DeadEndStep(g: array2<int>, walls: seq<Wall>, rng: Random, x: int, y: int) returns (r: seq<Wall>)
    requires Shaped(g) && Binary(g) && rng.Valid()
    requires 1 <= x < GRID_W - 1 && 1 <= y < GRID_H - 1
    requires Layout(walls) && WallCells(walls) == Blocked(g)
    modifies g, rng
    ensures Binary(g) && rng.Valid()
    ensures Layout(r) && WallCells(r) == Blocked(g)
    ensures !old(DeadEnd(g, x, y)) ==> r == walls && Blocked(g) == old(Blocked(g))
    ensures old(DeadEnd(g, x, y)) ==> OpenedNeighbour(old(Blocked(g)), Blocked(g), walls, r, x, y)
  {
    r := walls;
    if g[y, x] == 0 {
      var neighbors := [g[y - 1, x], g[y + 1, x], g[y, x - 1], g[y, x + 1]];
      if CountOnes(neighbors) >= 3 {
        var dirs := new (int, int)[4] [(0, 1), (1, 0), (0, -1), (-1, 0)];
        assert dirs[..] == STEPS;
        Shuffle(dirs, rng);
        ghost var first := SomeStepBlocked(g, x, y, dirs[..]);
        ShuffledSteps(dirs[..]);
        r := OpenFirstBlocked(g, walls, dirs, x, y, first);
      }
    }
  }

  /** The row-major dead-end pass over the inner cells. */
  method DeadEndPass(g: array2<int>, walls: seq<Wall>, rng: Random) returns (r: seq<Wall>)
    requires Shaped(g) && Binary(g) && rng.Valid()
    requires Layout(walls) && WallCells(walls) == Blocked(g)
    modifies g, rng
    ensures Binary(g) && rng.Valid()
    ensures Layout(r) && WallCells(r) == Blocked(g)
    ensures Blocked(g) <= old(Blocked(g))
    ensures |walls| - |r| == |old(Blocked(g))| - |Blocked(g)|
  {
    r := walls;
    var y := 1;
    while y < GRID_H - 1
      invariant 1 <= y <= GRID_H - 1
      invariant Binary(g) && rng.Valid() && Layout(r) && WallCells(r) == Blocked(g)
      invariant Blocked(g) <= old(Blocked(g))
      invariant |walls| - |r| == |old(Blocked(g))| - |Blocked(g)|
    {
      var x := 1;
      while x < GRID_W - 1
        invariant 1 <= x <= GRID_W - 1
        invariant Binary(g) && rng.Valid() && Layout(r) && WallCells(r) == Blocked(g)
        invariant Blocked(g) <= old(Blocked(g))
        invariant |walls| - |r| == |old(Blocked(g))| - |Blocked(g)|
      {
        r := DeadEndStep(g, r, rng, x, y);
        x := x + 1;
      }
      y := y + 1;
    }
  }

  // ---------------------------------------------------------------------
  // The opening rounds

  /** 20 < x < 760 and 20 < y < 560: off the ring and off the grid's outer rows and columns. */
  predicate NonEdge(w: Wall)
  {
    WALL_SIZE < w.x < SCREEN_WIDTH - 2 * WALL_SIZE && WALL_SIZE < w.y < SCREEN_HEIGHT - 2 * WALL_SIZE
  }

  /** No wall above or below the wall's cell, or none to its left or right. */
  predicate Removable(g: array2<int>, w: Wall)
    reads g
    requires Shaped(g)
  {
    var (gx, gy) := CellOf(w);
    !(BlockedAt(g, gx, gy - 1) || BlockedAt(g, gx, gy + 1)) || !(BlockedAt(g, gx - 1, gy) || BlockedAt(g, gx + 1, gy))
  }

  predicate Candidate(g: array2<int>, w: Wall)
    reads g
    requires Shaped(g)
  {
    NonEdge(w) && Removable(g, w)
  }

  ghost predicate AnyCandidate(g: array2<int>, walls: seq<Wall>)
    reads g
    requires Shaped(g)
  {
    exists i | 0 <= i < |walls| :: Candidate(g, walls[i])
  }

  /** No perimeter wall is a non-edge wall. */
  lemma PerimeterIsEdge(walls: seq<Wall>, i: int)
    requires Layout(walls) && 0 <= i < PERIMETER
    ensures !NonEdge(walls[i])
  {
    assert walls[i] == PerimeterWalls()[i];
    PerimeterOnRing(i);
  }

  /** walls.indexOf(w): the first index holding w, or -1. */
  method IndexOf<T(==)>(s: seq<T>, w: T) returns (k: int)
    ensures -1 <= k < |s|
    ensures k == -1 <==> w !in s
    ensures 0 <= k ==> s[k] == w && forall i | 0 <= i < k :: s[i] != w
  {
    k := 0;
    while k < |s|
      invariant 0 <= k <= |s|
      invariant forall i | 0 <= i < k :: s[i] != w
    {
      if s[k] == w {
        return;
      }
      k := k + 1;
    }
    k := -1;
  }

  /** The candidates among walls, in list order: the non-edge walls with a clear axis. */
  ghost function Candidates(g: array2<int>, walls: seq<Wall>): seq<Wall>
    reads g
    requires Shaped(g)
  {
    if |walls| == 0 then []
    else
      var last := walls[|walls| - 1];
      Candidates(g, walls[..|walls| - 1]) + if Candidate(g, last) then [last] else []
  }

  /** A wall is listed among the candidates exactly when it is a wall of the list and a candidate. */
  lemma {:induction false} CandidatesExact(g: array2<int>, walls: seq<Wall>)
    requires Shaped(g)
    ensures forall w :: w in Candidates(g, walls) <==> w in walls && Candidate(g, w)
    ensures |Candidates(g, walls)| == 0 <==> !AnyCandidate(g, walls)
  {
    if |walls| > 0 {
      var init := walls[..|walls| - 1];
      CandidatesExact(g, init);
      assert walls == init + [walls[|walls| - 1]];
      forall w
        ensures w in Candidates(g, walls) <==> w in walls && Candidate(g, w)
      {
        assert w in walls <==> w in init || w == walls[|walls| - 1];
      }
      if AnyCandidate(g, walls) {
        var i :| 0 <= i < |walls| && Candidate(g, walls[i]);
        assert walls[i] in Candidates(g, walls);
      }
    }
  }

  /** The removable-walls filter: every non-edge wall with a clear axis, in list order. */
  method CollectCandidates(g: array2<int>, walls: seq<Wall>) returns (removable: seq<Wall>)
    requires Shaped(g)
    ensures removable == Candidates(g, walls)
    ensures forall w | w in removable :: w in walls && Candidate(g, w)
    ensures forall w | w in walls && Candidate(g, w) :: w in removable
    ensures |removable| == 0 <==> !AnyCandidate(g, walls)
  {
    removable := [];
    var i := 0;
    while i < |walls|
      invariant 0 <= i <= |walls|
      invariant removable == Candidates(g, walls[..i])
    {
      var w := walls[i];
      assert walls[..i + 1][..i] == walls[..i];
      if NonEdge(w) && Removable(g, w) {
        removable := removable + [w];
      }
      i := i + 1;
    }
    assert walls[..i] == walls;
    CandidatesExact(g, walls);
  }

  /**
   * One opening round of html/script.js. When some non-edge wall has a clear
   * axis, one of them, picked by a draw, loses its wall and has the 2 x 2
   * patch at its cell opened; otherwise nothing changes. The follow-up that
   * would also remove an adjacent wall is guarded by a test that the
   * enclosing condition has already made false, so it never runs.
   */
  method OpeningRound(g: array2<int>, walls: seq<Wall>, rng: Random) returns (r: seq<Wall>, removed: bool)
    requires Shaped(g) && Binary(g) && rng.Valid()
    requires Layout(walls) && Blocked(g) <= WallCells(walls)
    modifies g, rng
    ensures Binary(g) && rng.Valid() && Layout(r) && Blocked(g) <= WallCells(r)
    ensures removed == old(AnyCandidate(g, walls))
    ensures !removed ==> r == walls && Blocked(g) == old(Blocked(g)) && rng.used == old(rng.used)
    ensures removed ==> rng.used == old(rng.used) + 1
    ensures removed ==>
      exists k | PERIMETER <= k < |walls| :: old(Candidate(g, walls[k])) && r == Splice(walls, k)
        && Blocked(g) == old(Blocked(g)) - Patch(CellOf(walls[k]).0, CellOf(walls[k]).1)
    ensures removed ==>
      var c := old(Candidates(g, walls));
      |c| > 0 && exists k | 0 <= k < |walls| ::
        && walls[k] == c[Scaled(rng.draws(old(rng.used)), |c|)]
        && (forall j | 0 <= j < k :: walls[j] != walls[k])
        && r == Splice(walls, k)
  {
    var removable := CollectCandidates(g, walls);
    removed := |removable| > 0;
    r := walls;
    if removed {
      var pick := rng.Next();
      var w := removable[Scaled(pick, |removable|)];
      var gx, gy := w.x / WALL_SIZE - 1, w.y / WALL_SIZE - 1;
      var k := IndexOf(walls, w);
      if k < PERIMETER {
        PerimeterIsEdge(walls, k);
      }
      OpenPatch(g, gx, gy);
      r := Splice(walls, k);
      SpliceInterior(walls, k);
      // The adjacency test after the patch: below and right are inside the patch.
      var reAbove := BlockedAt(g, gx, gy - 1);
      var reBelow := BlockedAt(g, gx, gy + 1);
      var reLeft := BlockedAt(g, gx - 1, gy);
      var reRight := BlockedAt(g, gx + 1, gy);
      assert !reBelow && !reRight;
      if !(reAbove || reBelow) {
        if gy - 1 >= 0 && g[gy - 1, gx] == 1 {
          assert false;
        } else if gy + 1 < GRID_H && g[gy + 1, gx] == 1 {
          assert false;
        }
      } else if !(reLeft || reRight) {
        if gx - 1 >= 0 && g[gy, gx - 1] == 1 {
          assert false;
        } else if gx + 1 < GRID_W && g[gy, gx + 1] == 1 {
          assert false;
        }
      }
    }
  }

  /** The thirty opening rounds: the layout holds and each round removes at most one wall. */
  method OpeningRounds(g: array2<int>, walls: seq<Wall>, rng: Random) returns (r: seq<Wall>)
    requires Shaped(g) && Binary(g) && rng.Valid()
    requires Layout(walls) && Blocked(g) <= WallCells(walls)
    modifies g, rng
    ensures Binary(g) && rng.Valid() && Layout(r) && Blocked(g) <= WallCells(r)
    ensures Blocked(g) <= old(Blocked(g))
    ensures |walls| - 30 <= |r| <= |walls|
  {
    r := walls;
    var round := 0;
    while round < 30
      invariant 0 <= round <= 30
      invariant Binary(g) && rng.Valid() && Layout(r) && Blocked(g) <= WallCells(r)
      invariant Blocked(g) <= old(Blocked(g))
      invariant |walls| - round <= |r| <= |walls|
    {
      var removed;
      r, removed := OpeningRound(g, r, rng);
      round := round + 1;
    }
  }

  // ---------------------------------------------------------------------
  // Normalisation

  /** A non-edge wall becomes type 2 and white; any other wall is kept as it is. */
  function Normalized(w: Wall): (v: Wall)
    ensures v.x == w.x && v.y == w.y
    ensures NonEdge(w) ==> v.wallType == 2 && v.color == Some(WHITE)
    ensures !NonEdge(w) ==> v == w
  {
    if NonEdge(w) then w.(wallType := 2, color := Some(WHITE)) else w
  }

  function NormalizedAll(walls: seq<Wall>): (r: seq<Wall>)
    ensures |r| == |walls|
  {
    seq(|walls|, i requires 0 <= i < |walls| => Normalized(walls[i]))
  }

  /** The final loop over the walls, rewriting non-edge walls in place. */
  method Normalize(walls: seq<Wall>) returns (r: seq<Wall>)
    ensures r == NormalizedAll(walls)
  {
    r := walls;
    var i := 0;
    while i < |r|
      invariant 0 <= i <= |r| && |r| == |walls|
      invariant forall j | 0 <= j < i :: r[j] == Normalized(walls[j])
      invariant forall j | i <= j < |r| :: r[j] == walls[j]
    {
      if NonEdge(r[i]) {
        r := r[i := r[i].(wallType := 2, color := Some(WHITE))];
      }
      i := i + 1;
    }
  }

  /**
   * Normalisation keeps the layout and the wall cells, leaves the perimeter
   * and the walls of the grid's outer rows and columns alone, and is
   * idempotent.
   */
  lemma NormalizedLayout(walls: seq<Wall>)
    requires Layout(walls)
    ensures Layout(NormalizedAll(walls)) && WallCells(NormalizedAll(walls)) == WallCells(walls)
    ensures NormalizedAll(NormalizedAll(walls)) == NormalizedAll(walls)
  {
    var r := NormalizedAll(walls);
    forall i | 0 <= i < PERIMETER
      ensures r[i] == walls[i]
    {
      PerimeterIsEdge(walls, i);
    }
    assert r[..PERIMETER] == walls[..PERIMETER];
    forall i | PERIMETER <= i < |walls|
      ensures CellOf(r[i]) == CellOf(walls[i])
    {
    }
    assert forall c | c in WallCells(walls) :: c in WallCells(r) by {
      forall c | c in WallCells(walls)
        ensures c in WallCells(r)
      {
        var i :| PERIMETER <= i < |walls| && CellOf(walls[i]) == c;
        assert CellOf(r[i]) == c;
      }
    }
  }
}
