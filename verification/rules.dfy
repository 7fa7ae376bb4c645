/**
 * The rules shared by the three copies of the game: screen and tile
 * constants, colours, walls, point-in-tile containment, the colour
 * hostility rule for territory walls, and the territory capture that a
 * detonating bullet performs on the wall list.
 */
module Rules {
  import opened Wrappers

  const SCREEN_WIDTH: int := 800
  const SCREEN_HEIGHT: int := 600
  const WALL_SIZE: int := 20

  /** Math.PI, kept as an uninterpreted-looking real constant: nothing below depends on its value. */
  const PI: real := 3.141592653589793

  /** The CSS colour strings 'rgb(r, g, b)' of the source; two strings are equal iff their triples are. */
  datatype Color = Rgb(r: int, g: int, b: int)

  const WHITE: Color := Rgb(255, 255, 255)
  const RED: Color := Rgb(255, 0, 0)
  const BLUE: Color := Rgb(0, 0, 255)
  const LIGHT_RED: Color := Rgb(255, 100, 100)
  const LIGHT_BLUE: Color := Rgb(100, 100, 255)

  /**
   * A wall tile: top-left corner, type code (1 solid, 2 territory,
   * 3 reflective; 0 is the generator's placeholder) and colour (null for
   * every type but 2).
   */
  datatype Wall = Wall(x: int, y: int, wallType: int, color: Option<Color>)

  /** The Wall constructor: type-2 walls start white, the others have no colour. */
  function NewWall(x: int, y: int, wallType: int): (w: Wall)
    ensures w.x == x && w.y == y && w.wallType == wallType
    ensures w.color.Some? <==> wallType == 2
    ensures w.color.Some? ==> w.color.value == WHITE
  {
    Wall(x, y, wallType, if wallType == 2 then Some(WHITE) else None)
  }

  /** The 12-player front end tests containment with strict bounds, the two-player one with closed bounds. */
  datatype Edges = Open | Closed

  /** Whether the point (px, py) lies in the tile of w. */
  predicate Inside(w: Wall, px: real, py: real, edges: Edges)
  {
    var x0, x1 := w.x as real, (w.x + WALL_SIZE) as real;
    var y0, y1 := w.y as real, (w.y + WALL_SIZE) as real;
    match edges
    case Open => x0 < px < x1 && y0 < py < y1
    case Closed => x0 <= px <= x1 && y0 <= py <= y1
  }

  /** A point inside a tile under the strict test is inside it under the closed test, not conversely. */
  lemma OpenInsideIsClosedInside(w: Wall, px: real, py: real)
    ensures Inside(w, px, py, Open) ==> Inside(w, px, py, Closed)
    ensures !Inside(w, w.x as real, w.y as real, Open) && Inside(w, w.x as real, w.y as real, Closed)
  {
  }

  /**
   * The territory rule: a blue entity is stopped by light-red and white
   * territory, a red one by light-blue and white territory; any other
   * colour is never stopped by a territory wall.
   */
  predicate Hostile(entity: Color, wallColor: Option<Color>)
  {
    (entity == BLUE && (wallColor == Some(LIGHT_RED) || wallColor == Some(WHITE))) ||
    (entity == RED && (wallColor == Some(LIGHT_BLUE) || wallColor == Some(WHITE)))
  }

  /** Only the two duel colours are ever stopped by territory, and neither by its own trail colour. */
  lemma HostileOnlyForDuelColours(entity: Color, wallColor: Option<Color>)
    ensures Hostile(entity, wallColor) ==> entity == BLUE || entity == RED
    ensures !Hostile(BLUE, Some(LIGHT_BLUE)) && !Hostile(RED, Some(LIGHT_RED))
    ensures Hostile(BLUE, Some(WHITE)) && Hostile(RED, Some(WHITE))
  {
  }

  /**
   * Whether a wall obstructs an entity of the given colour whose prospective
   * point is (px, py): types 1 and 3 always, type 2 when hostile. A player is
   * stopped by it; a bullet is stopped (types 1, 2) or bounced (type 3).
   */
  predicate Obstructs(w: Wall, color: Color, px: real, py: real, edges: Edges)
  {
    Inside(w, px, py, edges) &&
    (w.wallType == 1 || w.wallType == 3 || (w.wallType == 2 && Hostile(color, w.color)))
  }

  /** The bullet's trail colour: light blue for blue bullets, light red for every other colour. */
  function TrailColor(color: Color): (c: Color)
    ensures c == LIGHT_BLUE <==> color == BLUE
    ensures c == LIGHT_BLUE || c == LIGHT_RED
  {
    if color == BLUE then LIGHT_BLUE else LIGHT_RED
  }

  /** Squared distance from (px, py) to the centre of w's tile. */
  function CentreDist2(w: Wall, px: real, py: real): real
  {
    var dx := (w.x as real) + (WALL_SIZE as real) / 2.0 - px;
    var dy := (w.y as real) + (WALL_SIZE as real) / 2.0 - py;
    dx * dx + dy * dy
  }

  /** The capture radius test: hypot(...) <= 25, stated on squares. */
  predicate InCaptureRange(w: Wall, px: real, py: real)
  {
    CentreDist2(w, px, py) <= 625.0
  }

  /** Whether a detonation at (px, py) recolours w. */
  predicate Captured(w: Wall, px: real, py: real)
  {
    w.wallType == 2 && InCaptureRange(w, px, py)
  }

  /** One wall after a detonation at (px, py) painting with colour c. */
  function CaptureWall(w: Wall, px: real, py: real, c: Color): Wall
  {
    if Captured(w, px, py) then w.(color := Some(c)) else w
  }

  /** The wall list after a detonation: the specification of the explode loop. */
  function Recolor(walls: seq<Wall>, px: real, py: real, c: Color): (r: seq<Wall>)
    ensures |r| == |walls|
  {
    seq(|walls|, i requires 0 <= i < |walls| => CaptureWall(walls[i], px, py, c))
  }

  /**
   * Territory capture recolours exactly the type-2 walls whose tile centre is
   * within 25 units of the detonation point; no other wall changes, and no
   * position or type changes.
   */
  lemma RecolorExact(walls: seq<Wall>, px: real, py: real, c: Color, i: int)
    requires 0 <= i < |walls|
    ensures var r := Recolor(walls, px, py, c);
      && r[i].x == walls[i].x && r[i].y == walls[i].y && r[i].wallType == walls[i].wallType
      && (r[i].color != walls[i].color ==> Captured(walls[i], px, py))
      && (Captured(walls[i], px, py) ==> r[i].color == Some(c))
  {
  }

  /** Detonating twice at the same point with the same colour changes nothing further. */
  lemma RecolorIdempotent(walls: seq<Wall>, px: real, py: real, c: Color)
    ensures Recolor(Recolor(walls, px, py, c), px, py, c) == Recolor(walls, px, py, c)
  {
  }

  /** Two wall lists with the same tiles: only the colours of type-2 walls may differ. */
  predicate SameTiles(a: seq<Wall>, b: seq<Wall>)
  {
    |a| == |b| &&
    forall i | 0 <= i < |a| ::
      a[i].x == b[i].x && a[i].y == b[i].y && a[i].wallType == b[i].wallType
      && (a[i].wallType != 2 ==> a[i].color == b[i].color)
  }

  /** A detonation only repaints territory; any chain of them keeps the tiles. */
  lemma RecolorSameTiles(a: seq<Wall>, b: seq<Wall>, px: real, py: real, c: Color)
    requires SameTiles(a, b)
    ensures SameTiles(a, Recolor(b, px, py, c))
  {
  }

  lemma SameTilesTrans(a: seq<Wall>, b: seq<Wall>, c: seq<Wall>)
    requires SameTiles(a, b) && SameTiles(b, c)
    ensures SameTiles(a, c)
  {
  }
}
