/**
 * The Bullet class of both front ends. The twelve-player front end
 * (html/script.js) tests tile containment strictly, reflects off an
 * axis-aligned normal with an extra half turn and keeps the last 50 trail
 * points; the two-player one (script.js) tests containment on closed
 * tiles, reflects off the atan2 normal and keeps the whole trail.
 * cos, sin and atan2 are passed in; Date.now() is the parameter now (ms).
 */
module Shot {
  import opened Wrappers
  import opened Rules

  datatype FrontEnd = Multi | Duo

  function EdgesOf(front: FrontEnd): Edges
  {
    if front == Multi then Open else Closed
  }

  const SPEED: real := 10.0
  const RADIUS: real := 5.0
  const TRAIL_MAX: int := 50
  /** Seconds after firing before a bullet can hit anything. */
  const HIT_GATE: real := 0.2

  /** What the wall scan decides for a bullet's next point. */
  datatype Outcome = Free | Stop | Bounce(wall: Wall)

  /**
   * The first wall in list order containing (px, py) that is type 1, a
   * hostile type 2, or type 3 decides: the first two stop the bullet, the
   * last bounces it. With no such wall the move is free.
   */
  function Decide(walls: seq<Wall>, color: Color, px: real, py: real, edges: Edges): (o: Outcome)
    ensures o.Bounce? ==> o.wall in walls && o.wall.wallType == 3 && Inside(o.wall, px, py, edges)
  {
    if |walls| == 0 then Free
    else
      var w := walls[0];
      if Inside(w, px, py, edges) && w.wallType == 1 then Stop
      else if Inside(w, px, py, edges) && w.wallType == 2 && Hostile(color, w.color) then Stop
      else if Inside(w, px, py, edges) && w.wallType == 3 then Bounce(w)
      else Decide(walls[1..], color, px, py, edges)
  }

  /**
   * A bullet moves freely exactly where no wall would stop a player of its
   * colour, and it is stopped only by a type-1 or hostile type-2 wall there.
   */
  lemma {:induction false} DecideAgreesWithObstructs(walls: seq<Wall>, color: Color, px: real, py: real, edges: Edges)
    ensures Decide(walls, color, px, py, edges) == Free
        <==> forall i | 0 <= i < |walls| :: !Obstructs(walls[i], color, px, py, edges)
    ensures Decide(walls, color, px, py, edges) == Stop ==>
      exists i | 0 <= i < |walls| :: Inside(walls[i], px, py, edges)
        && (walls[i].wallType == 1 || (walls[i].wallType == 2 && Hostile(color, walls[i].color)))
  {
    if |walls| > 0 {
      DecideAgreesWithObstructs(walls[1..], color, px, py, edges);
      if Decide(walls, color, px, py, edges) == Stop && !Obstructs(walls[0], color, px, py, edges) {
        var i :| 0 <= i < |walls[1..]| && Inside(walls[1..][i], px, py, edges)
          && (walls[1..][i].wallType == 1 || (walls[1..][i].wallType == 2 && Hostile(color, walls[1..][i].color)));
        assert walls[i + 1] == walls[1..][i];
      }
      if Decide(walls, color, px, py, edges) == Free {
        forall i | 0 <= i < |walls|
          ensures !Obstructs(walls[i], color, px, py, edges)
        {
          if i > 0 {
            assert walls[i] == walls[1..][i - 1];
          }
        }
      }
    }
  }

  /** The twelve-player normal: horizontal when the point is further off the tile centre in x, else vertical. */
  function AxisNormal(w: Wall, px: real, py: real): (n: real)
    ensures n == PI || n == 0.0 || n == PI / 2.0 || n == -PI / 2.0
  {
    var cx := w.x as real + (WALL_SIZE as real) / 2.0;
    var cy := w.y as real + (WALL_SIZE as real) / 2.0;
    var ax := if px - cx < 0.0 then cx - px else px - cx;
    var ay := if py - cy < 0.0 then cy - py else py - cy;
    if ax > ay then (if px < cx then PI else 0.0)
    else (if py < cy then PI / 2.0 else -PI / 2.0)
  }

  /** The angle after bouncing off w at (px, py). */
  function Reflect(front: FrontEnd, w: Wall, px: real, py: real, a: real, atan2: (real, real) -> real): real
  {
    var cx := w.x as real + (WALL_SIZE as real) / 2.0;
    var cy := w.y as real + (WALL_SIZE as real) / 2.0;
    match front
    case Multi => 2.0 * AxisNormal(w, px, py) - a + PI
    case Duo => 2.0 * atan2(py - cy, px - cx) - a
  }

  /** Reflecting twice off the same normal gives back the original angle. */
  lemma ReflectTwice(front: FrontEnd, w: Wall, px: real, py: real, a: real, atan2: (real, real) -> real)
    ensures Reflect(front, w, px, py, Reflect(front, w, px, py, a, atan2), atan2) == a
  {
  }

  /** The trail after a free move: the floored point is appended, and in the twelve-player game the oldest is dropped past 50. */
  function Pushed(front: FrontEnd, trail: seq<(real, real)>, p: (real, real)): seq<(real, real)>
  {
    var s := trail + [p];
    if front == Multi && |s| > TRAIL_MAX then s[1..] else s
  }

  /**
   * The capped trail is a window: it holds the newest points of the
   * uncapped one, in order, ends with the new point, and never exceeds 50.
   */
  lemma PushedWindow(trail: seq<(real, real)>, p: (real, real))
    requires |trail| <= TRAIL_MAX
    ensures var s := Pushed(Multi, trail, p);
      && |s| == (if |trail| + 1 > TRAIL_MAX then TRAIL_MAX else |trail| + 1)
      && s == (trail + [p])[|trail| + 1 - |s|..]
      && s[|s| - 1] == p
  {
  }

  /** Floor of a real, as the real Math.floor returns. */
  function FloorOf(v: real): (r: real)
    ensures r <= v < r + 1.0
  {
    v.Floor as real
  }

  /** The part of a bullet that a move can change. */
  datatype Flight = Flight(x: real, y: real, angle: real, trail: seq<(real, real)>, active: bool)

  /**
   * A bullet's flight after one move against walls: an inactive bullet
   * stays put; otherwise the wall scan one speed ahead decides between
   * advancing with the floored point pushed onto the trail, stopping
   * (deactivated in place) and bouncing (only the angle changes).
   */
  function Stepped(f: Flight, walls: seq<Wall>, color: Color, front: FrontEnd,
                   cos: real -> real, sin: real -> real, atan2: (real, real) -> real): Flight
  {
    if !f.active then f
    else
      var nx, ny := f.x + cos(f.angle) * SPEED, f.y + sin(f.angle) * SPEED;
      match Decide(walls, color, nx, ny, EdgesOf(front))
      case Free => f.(x := nx, y := ny, trail := Pushed(front, f.trail, (FloorOf(nx), FloorOf(ny))))
      case Stop => f.(active := false)
      case Bounce(w) => f.(angle := Reflect(front, w, nx, ny, f.angle, atan2))
  }

  /**
   * A move never revives a bullet, leaves an inactive one as it is, and
   * either keeps the bullet's position or advances it by one speed step
   * along its old angle, in which case the trail ends with the floored
   * new point.
   */
  lemma SteppedFacts(f: Flight, walls: seq<Wall>, color: Color, front: FrontEnd,
                     cos: real -> real, sin: real -> real, atan2: (real, real) -> real)
    ensures var g := Stepped(f, walls, color, front, cos, sin, atan2);
      && (g.active ==> f.active)
      && (!f.active ==> g == f)
      && ((g.x, g.y) == (f.x, f.y) || (g.x, g.y) == (f.x + cos(f.angle) * SPEED, f.y + sin(f.angle) * SPEED))
      && ((g.x, g.y) != (f.x, f.y) ==> |g.trail| > 0 && g.trail[|g.trail| - 1] == (FloorOf(g.x), FloorOf(g.y)))
      && (g.angle != f.angle ==> g.active && (g.x, g.y) == (f.x, f.y) && g.trail == f.trail)
  {
  }

  /**
   * g is one move of f against a wall list with the same tiles as base:
   * only the colours of type-2 walls may have changed since base, as the
   * explosions of earlier bullets in the same pass repaint them.
   */
  ghost predicate SteppedOver(f: Flight, g: Flight, base: seq<Wall>, color: Color, front: FrontEnd,
                              cos: real -> real, sin: real -> real, atan2: (real, real) -> real)
  {
    exists ws: seq<Wall> | SameTiles(base, ws) :: g == Stepped(f, ws, color, front, cos, sin, atan2)
  }

  /**
   * Whatever the repainted colours, a move in a bullet pass keeps the
   * facts of a single move: no revival, inactive bullets unchanged, and
   * the position kept or advanced by one step along the old angle.
   */
  lemma SteppedOverFacts(f: Flight, g: Flight, base: seq<Wall>, color: Color, front: FrontEnd,
                         cos: real -> real, sin: real -> real, atan2: (real, real) -> real)
    requires SteppedOver(f, g, base, color, front, cos, sin, atan2)
    ensures g.active ==> f.active
    ensures !f.active ==> g == f
    ensures (g.x, g.y) == (f.x, f.y) || (g.x, g.y) == (f.x + cos(f.angle) * SPEED, f.y + sin(f.angle) * SPEED)
  {
  }

  /** The three outcomes of a move of an active bullet, field by field. */
  lemma SteppedOutcomes(f: Flight, walls: seq<Wall>, color: Color, front: FrontEnd,
                        cos: real -> real, sin: real -> real, atan2: (real, real) -> real)
    requires f.active
    ensures var g := Stepped(f, walls, color, front, cos, sin, atan2);
      var nx, ny := f.x + cos(f.angle) * SPEED, f.y + sin(f.angle) * SPEED;
      var o := Decide(walls, color, nx, ny, EdgesOf(front));
      && (o == Free ==>
            g.x == nx && g.y == ny && g.active && g.angle == f.angle
            && g.trail == Pushed(front, f.trail, (FloorOf(nx), FloorOf(ny))))
      && (o == Stop ==> g.x == f.x && g.y == f.y && !g.active && g.angle == f.angle && g.trail == f.trail)
      && (o.Bounce? ==>
            g.x == f.x && g.y == f.y && g.active && g.trail == f.trail
            && g.angle == Reflect(front, o.wall, nx, ny, f.angle, atan2))
  {
  }

  class Bullet {
    var x: real
    var y: real
    var angle: real
    const color: Color
    const trailColor: Color
    /** Date.now() when fired, in milliseconds. */
    const creationTime: real
    var trail: seq<(real, real)>
    var active: bool
    /** Index of the shooter among the players. */
    const owner: nat
    const front: FrontEnd
    /** Free moves made so far. */
    ghost var moves: nat

    /** The bullet's current flight. */
    ghost function State(): Flight
      reads this
    {
      Flight(x, y, angle, trail, active)
    }

    ghost predicate Valid()
      reads this
    {
      1 <= |trail| && trailColor == TrailColor(color)
      && (front == Multi ==> |trail| <= TRAIL_MAX)
      && (front == Duo ==> |trail| == 1 + moves)
    }

    constructor (x: real, y: real, angle: real, color: Color, owner: nat, now: real, front: FrontEnd)
      ensures Valid() && active && moves == 0
      ensures this.x == x && this.y == y && this.angle == angle && this.color == color
      ensures this.owner == owner && this.front == front && creationTime == now
      ensures trail == [(x, y)] && trailColor == TrailColor(color)
    {
      this.x := x;
      this.y := y;
      this.angle := angle;
      this.color := color;
      trailColor := TrailColor(color);
      creationTime := now;
      trail := [(x, y)];
      active := true;
      this.owner := owner;
      this.front := front;
      moves := 0;
    }

    /** At least 0.2 s old: only then can the bullet hit a shield or a player. */
    predicate IsActive(now: real)
      reads this
    {
      (now - creationTime) / 1000.0 >= HIT_GATE
    }

    /** Once a bullet can hit, it stays able to as time goes on. */
    lemma IsActiveMonotone(t: real, u: real)
      requires t <= u && IsActive(t)
      ensures IsActive(u)
    {
    }

    /** Detonation at the bullet's position: every type-2 wall whose centre is within 25 takes the trail colour. */
    method Explode(walls: seq<Wall>) returns (r: seq<Wall>)
      ensures r == Recolor(walls, x, y, trailColor)
    {
      r := walls;
      var i := 0;
      while i < |r|
        invariant 0 <= i <= |r| == |walls|
        invariant forall k | 0 <= k < i :: r[k] == CaptureWall(walls[k], x, y, trailColor)
        invariant forall k | i <= k < |r| :: r[k] == walls[k]
      {
        if r[i].wallType == 2 && CentreDist2(r[i], x, y) <= 625.0 {
          r := r[i := r[i].(color := Some(trailColor))];
        }
        i := i + 1;
      }
    }

    /**
     * One step. An inactive bullet does nothing. Otherwise the wall scan at
     * the point one speed ahead decides: a bounce changes only the angle, a
     * stop detonates at the current position and deactivates the bullet, a
     * free move advances it and records the floored point in the trail.
     * The new flight is Stepped of the old one (SteppedOutcomes spells out
     * the three cases field by field), and the walls change only by the
     * detonation of a stop.
     */
    method Move(walls: seq<Wall>, cos: real -> real, sin: real -> real, atan2: (real, real) -> real)
      returns (r: seq<Wall>)
      requires Valid()
      modifies this
      ensures Valid()
      ensures State() == Stepped(old(State()), walls, color, front, cos, sin, atan2)
      ensures r == if old(active) && Decide(walls, color, old(x) + cos(old(angle)) * SPEED, old(y) + sin(old(angle)) * SPEED, EdgesOf(front)) == Stop
                   then Recolor(walls, old(x), old(y), trailColor) else walls
    {
      r := walls;
      if active {
        var newX := x + cos(angle) * SPEED;
        var newY := y + sin(angle) * SPEED;
        var o := Scan(walls, newX, newY);
        match o
        case Bounce(wall) =>
          angle := Reflect(front, wall, newX, newY, angle, atan2);
        case Stop =>
          r := Explode(walls);
          active := false;
        case Free =>
          Advance(newX, newY);
      }
    }

    /** A free move to (nx, ny): the floored point joins the trail, which the twelve-player game caps at 50. */
    method Advance(nx: real, ny: real)
      requires Valid()
      modifies this
      ensures Valid()
      ensures State() == old(State()).(x := nx, y := ny, trail := Pushed(front, old(trail), (FloorOf(nx), FloorOf(ny))))
    {
      x := nx;
      y := ny;
      trail := trail + [(FloorOf(x), FloorOf(y))];
      if front == Multi && |trail| > TRAIL_MAX {
        trail := trail[1..];
      }
      moves := moves + 1;
    }

    /**
     * The wall loop of a move: walls are tried in list order at the point
     * (px, py), and the first solid, hostile territory or reflective wall
     * containing it ends the loop.
     */
    method Scan(walls: seq<Wall>, px: real, py: real) returns (o: Outcome)
      ensures o == Decide(walls, color, px, py, EdgesOf(front))
    {
      var edges := EdgesOf(front);
      var i := 0;
      while i < |walls|
        invariant 0 <= i <= |walls|
        invariant Decide(walls[i..], color, px, py, edges) == Decide(walls, color, px, py, edges)
      {
        var wall := walls[i];
        assert walls[i..][1..] == walls[i + 1..];
        if Inside(wall, px, py, edges) {
          if wall.wallType == 1 {
            return Stop;
          } else if wall.wallType == 2 {
            if Hostile(color, wall.color) {
              return Stop;
            }
          } else if wall.wallType == 3 {
            return Bounce(wall);
          }
        }
        i := i + 1;
      }
      return Free;
    }
  }

  /** The flights of a list of bullets, index by index. */
  ghost function Flights(bs: seq<Bullet>): (r: seq<Flight>)
    reads set b | b in bs
    ensures |r| == |bs| && forall k | 0 <= k < |bs| :: r[k] == bs[k].State()
  {
    if |bs| == 0 then [] else Flights(bs[..|bs| - 1]) + [bs[|bs| - 1].State()]
  }
}
