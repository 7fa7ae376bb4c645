/**
 * The Player class shared by both front ends: motion against the walls with
 * friction and screen clamping, the push that drives it, and the shield timer
 * with its depletable budget. Date.now() is the parameter now (milliseconds)
 * and cos/sin are passed in.
 */
module Pilot {
  import opened Wrappers
  import opened Rules

  /** shieldDuration, in seconds. */
  const SHIELD_DURATION: real := 5.0
  /** The cooldown, in seconds, set when a shield expires or absorbs a bullet. */
  const SHIELD_COOLDOWN: real := 1.0
  const FRICTION: real := 0.95

  /** The screen clamp: below 0 becomes 0, above hi becomes hi. */
  function Clamp(v: real, hi: real): (r: real)
    requires hi >= 0.0
    ensures 0.0 <= r <= hi
    ensures 0.0 <= v <= hi ==> r == v
    ensures v < 0.0 ==> r == 0.0
    ensures v > hi ==> r == hi
  {
    if v < 0.0 then 0.0 else if v > hi then hi else v
  }

  function Abs(v: real): real
  {
    if v < 0.0 then -v else v
  }

  /**
   * The shield start time set on activation: now for a fresh shield, or
   * back-dated by the part of the duration already used up.
   */
  function ShieldStart(now: real, remaining: real): real
  {
    if remaining <= 0.0 then now else now - (SHIELD_DURATION - remaining) * 1000.0
  }

  /** The budget stored on release: what is left of the duration, never negative. */
  function RemainingAt(start: real, now: real): (r: real)
    ensures r >= 0.0
  {
    var left := SHIELD_DURATION - (now - start) / 1000.0;
    if left < 0.0 then 0.0 else left
  }

  /**
   * Activating with a positive budget r and releasing later leaves what r
   * does not cover of the time held, so the budget never grows; a fresh
   * activation (r <= 0) gives back at most the full duration.
   */
  lemma BudgetNeverGrows(t0: real, t1: real, r: real)
    requires t0 <= t1
    ensures 0.0 < r ==> RemainingAt(ShieldStart(t0, r), t1) == (if r - (t1 - t0) / 1000.0 < 0.0 then 0.0 else r - (t1 - t0) / 1000.0)
    ensures 0.0 < r ==> RemainingAt(ShieldStart(t0, r), t1) <= r
    ensures r <= 0.0 ==> RemainingAt(ShieldStart(t0, r), t1) <= SHIELD_DURATION
  {
    if 0.0 < r {
      var start := ShieldStart(t0, r);
      assert (t1 - start) / 1000.0 == (t1 - t0) / 1000.0 + (SHIELD_DURATION - r);
    }
  }

  /** Right after activation the elapsed time is the part of the duration already spent. */
  lemma ActivationElapsed(now: real, r: real)
    ensures (now - ShieldStart(now, r)) / 1000.0 == if r <= 0.0 then 0.0 else SHIELD_DURATION - r
  {
  }

  /** The shield fields of a player. */
  datatype ShieldState = ShieldState(active: bool, pressed: bool, start: real, remaining: real, cooldown: real)

  /** Everything else a player holds that the shield code must leave alone. */
  datatype Body = Body(x: real, y: real, angle: real, speedX: real, speedY: real, health: int)

  /**
   * A body after one move: the prospective point (position plus speed)
   * unless the player is stopped there, clamped to the screen, with
   * friction applied to the speed.
   */
  function Moved(f: Body, stopped: bool): Body
  {
    f.(x := Clamp(if stopped then f.x else f.x + f.speedX, SCREEN_WIDTH as real),
       y := Clamp(if stopped then f.y else f.y + f.speedY, SCREEN_HEIGHT as real),
       speedX := f.speedX * FRICTION, speedY := f.speedY * FRICTION)
  }

  /** A shield after one frame's update: a positive cooldown drops by dt. */
  function Cooled(s: ShieldState, dt: real): ShieldState
  {
    if s.cooldown > 0.0 then s.(cooldown := s.cooldown - dt) else s
  }

  /** The shield protects: on, held, and younger than the duration. */
  predicate Up(s: ShieldState, now: real)
  {
    s.active && s.pressed && (now - s.start) / 1000.0 < SHIELD_DURATION
  }

  /** What the expiry check leaves: a shield that has run its duration is off, spent and cooling down. */
  function Expire(s: ShieldState, now: real): (r: ShieldState)
    ensures !Up(r, now) || r == s
  {
    if s.active && s.pressed && (now - s.start) / 1000.0 >= SHIELD_DURATION then
      s.(active := false, pressed := false, remaining := 0.0, cooldown := SHIELD_COOLDOWN)
    else s
  }

  /**
   * The expiry check changes a shield exactly when it is on, held and out of
   * time; it never changes whether the shield protects at that moment, and
   * a second check at the same time changes nothing further.
   */
  lemma ExpireFacts(s: ShieldState, now: real)
    ensures Expire(s, now) != s <==> s.active && s.pressed && !Up(s, now)
    ensures Up(Expire(s, now), now) == Up(s, now)
    ensures Expire(Expire(s, now), now) == Expire(s, now)
  {
  }

  class Player {
    var x: real
    var y: real
    var angle: real
    var speedX: real
    var speedY: real
    const color: Color
    var health: int
    var shieldActive: bool
    /** Date.now() at (back-dated) activation, in milliseconds. */
    var shieldStartTime: real
    var shieldRemainingTime: real
    var shieldCooldown: real
    var shieldButtonPressed: bool
    /** Strict tile containment in html/script.js, closed in script.js. */
    const edges: Edges

    constructor (x: real, y: real, color: Color, edges: Edges)
      ensures this.x == x && this.y == y && this.color == color && this.edges == edges
      ensures angle == 0.0 && speedX == 0.0 && speedY == 0.0 && health == 100
      ensures !shieldActive && !shieldButtonPressed
      ensures shieldStartTime == 0.0 && shieldRemainingTime == 0.0 && shieldCooldown == 0.0
    {
      this.x := x;
      this.y := y;
      this.color := color;
      this.edges := edges;
      angle := 0.0;
      health := 100;
      speedX := 0.0;
      speedY := 0.0;
      shieldActive := false;
      shieldStartTime := 0.0;
      shieldRemainingTime := 0.0;
      shieldCooldown := 0.0;
      shieldButtonPressed := false;
    }

    ghost function Shield(): ShieldState
      reads this
    {
      ShieldState(shieldActive, shieldButtonPressed, shieldStartTime, shieldRemainingTime, shieldCooldown)
    }

    ghost function Figure(): Body
      reads this
    {
      Body(x, y, angle, speedX, speedY, health)
    }

    /** Seconds since the shield (re)started. */
    function Elapsed(now: real): real
      reads this
    {
      (now - shieldStartTime) / 1000.0
    }

    /** Some wall stops this player at the point (px, py). */
    ghost predicate Stopped(walls: seq<Wall>, px: real, py: real)
    {
      exists i | 0 <= i < |walls| :: Obstructs(walls[i], color, px, py, edges)
    }

    /** Some wall stops this player at the prospective point of body f. */
    ghost predicate StoppedFrom(walls: seq<Wall>, f: Body)
    {
      Stopped(walls, f.x + f.speedX, f.y + f.speedY)
    }

    /**
     * One step: the prospective point is taken unless some wall stops the
     * player there, friction scales the speed, and the position is clamped
     * to the screen.
     */
    method Move(walls: seq<Wall>)
      modifies this
      ensures var nx, ny := old(x + speedX), old(y + speedY);
        x == Clamp(if Stopped(walls, nx, ny) then old(x) else nx, SCREEN_WIDTH as real)
        && y == Clamp(if Stopped(walls, nx, ny) then old(y) else ny, SCREEN_HEIGHT as real)
      ensures 0.0 <= x <= SCREEN_WIDTH as real && 0.0 <= y <= SCREEN_HEIGHT as real
      ensures speedX == old(speedX) * FRICTION && speedY == old(speedY) * FRICTION
      ensures Abs(speedX) <= Abs(old(speedX)) && Abs(speedY) <= Abs(old(speedY))
      ensures angle == old(angle) && health == old(health)
      ensures shieldActive == old(shieldActive) && shieldButtonPressed == old(shieldButtonPressed)
      ensures shieldStartTime == old(shieldStartTime) && shieldRemainingTime == old(shieldRemainingTime)
      ensures shieldCooldown == old(shieldCooldown)
      ensures Figure() == Moved(old(Figure()), StoppedFrom(walls, old(Figure())))
      ensures Shield() == old(Shield())
    {
      var newX := x + speedX;
      var newY := y + speedY;
      var collision := false;
      var i := 0;
      while i < |walls| && !collision
        invariant 0 <= i <= |walls|
        invariant collision <==> exists j | 0 <= j < i :: Obstructs(walls[j], color, newX, newY, edges)
      {
        var wall := walls[i];
        if Inside(wall, newX, newY, edges) {
          if wall.wallType == 1 || wall.wallType == 3 {
            collision := true;
          } else if wall.wallType == 2 {
            if Hostile(color, wall.color) {
              collision := true;
            }
          }
        }
        i := i + 1;
      }
      if !collision {
        x := newX;
        y := newY;
      }
      speedX := speedX * FRICTION;
      speedY := speedY * FRICTION;
      if x < 0.0 {
        x := 0.0;
      } else if x > SCREEN_WIDTH as real {
        x := SCREEN_WIDTH as real;
      }
      if y < 0.0 {
        y := 0.0;
      } else if y > SCREEN_HEIGHT as real {
        y := SCREEN_HEIGHT as real;
      }
    }

    /** The push along a direction: force times (cos, sin) of the angle is added to the speed. */
    method PushBack(force: real, angle: real, cos: real -> real, sin: real -> real)
      modifies this
      ensures speedX == old(speedX) + cos(angle) * force && speedY == old(speedY) + sin(angle) * force
      ensures x == old(x) && y == old(y) && this.angle == old(this.angle) && health == old(health)
      ensures shieldActive == old(shieldActive) && shieldButtonPressed == old(shieldButtonPressed)
      ensures shieldStartTime == old(shieldStartTime) && shieldRemainingTime == old(shieldRemainingTime)
      ensures shieldCooldown == old(shieldCooldown)
    {
      speedX := speedX + cos(angle) * force;
      speedY := speedY + sin(angle) * force;
    }

    /**
     * Switching the shield on: nothing happens while it is already on or
     * cooling down; otherwise it is on and its clock is set so that the time
     * already elapsed is the part of the duration the stored budget has used.
     */
    method ActivateShield(now: real)
      modifies this
      ensures old(shieldActive || shieldCooldown > 0.0) ==>
        shieldActive == old(shieldActive) && shieldButtonPressed == old(shieldButtonPressed)
        && shieldStartTime == old(shieldStartTime)
      ensures old(!shieldActive && shieldCooldown <= 0.0) ==>
        shieldActive && shieldButtonPressed && shieldStartTime == ShieldStart(now, old(shieldRemainingTime))
      ensures old(!shieldActive && shieldCooldown <= 0.0) ==>
        Elapsed(now) == if old(shieldRemainingTime) <= 0.0 then 0.0 else SHIELD_DURATION - old(shieldRemainingTime)
      ensures shieldRemainingTime == old(shieldRemainingTime) && shieldCooldown == old(shieldCooldown)
      ensures x == old(x) && y == old(y) && speedX == old(speedX) && speedY == old(speedY)
      ensures angle == old(angle) && health == old(health)
    {
      if !shieldActive && shieldCooldown <= 0.0 {
        shieldActive := true;
        shieldButtonPressed := true;
        if shieldRemainingTime <= 0.0 {
          shieldStartTime := now;
        } else {
          shieldStartTime := now - (SHIELD_DURATION - shieldRemainingTime) * 1000.0;
        }
        ActivationElapsed(now, shieldRemainingTime);
      }
    }

    /** Switching the shield off stores what is left of the duration as the budget. */
    method DeactivateShield(now: real)
      modifies this
      ensures old(shieldActive) ==>
        !shieldActive && !shieldButtonPressed && shieldRemainingTime == RemainingAt(old(shieldStartTime), now)
      ensures !old(shieldActive) ==>
        !shieldActive && shieldButtonPressed == old(shieldButtonPressed) && shieldRemainingTime == old(shieldRemainingTime)
      ensures old(shieldActive) && old(shieldStartTime) <= now ==> 0.0 <= shieldRemainingTime <= SHIELD_DURATION
      ensures shieldStartTime == old(shieldStartTime) && shieldCooldown == old(shieldCooldown)
      ensures x == old(x) && y == old(y) && speedX == old(speedX) && speedY == old(speedY)
      ensures angle == old(angle) && health == old(health)
    {
      if shieldActive {
        shieldActive := false;
        shieldButtonPressed := false;
        var left := SHIELD_DURATION - (now - shieldStartTime) / 1000.0;
        shieldRemainingTime := if 0.0 > left then 0.0 else left;
      }
    }

    /**
     * Whether the shield protects at time now: only while it is on, held,
     * and younger than the duration. Reaching the duration switches it off
     * with an empty budget and a one-second cooldown.
     */
    method IsShieldActive(now: real) returns (b: bool)
      modifies this
      ensures b == Up(old(Shield()), now)
      ensures Shield() == Expire(old(Shield()), now)
      ensures Figure() == old(Figure())
    {
      if !shieldActive || !shieldButtonPressed {
        return false;
      }
      var elapsedTime := (now - shieldStartTime) / 1000.0;
      if elapsedTime >= SHIELD_DURATION {
        DeactivateShield(now);
        shieldCooldown := SHIELD_COOLDOWN;
        return false;
      }
      return true;
    }

    /** The per-frame cooldown decrement, applied only while the cooldown is positive. */
    method Update(dt: real)
      modifies this
      ensures old(shieldCooldown) > 0.0 ==> shieldCooldown == old(shieldCooldown) - dt
      ensures old(shieldCooldown) <= 0.0 ==> shieldCooldown == old(shieldCooldown)
      ensures dt >= 0.0 ==> shieldCooldown <= old(shieldCooldown)
      ensures shieldActive == old(shieldActive) && shieldButtonPressed == old(shieldButtonPressed)
      ensures shieldStartTime == old(shieldStartTime) && shieldRemainingTime == old(shieldRemainingTime)
      ensures x == old(x) && y == old(y) && speedX == old(speedX) && speedY == old(speedY)
      ensures angle == old(angle) && health == old(health)
      ensures Shield() == Cooled(old(Shield()), dt) && Figure() == old(Figure())
    {
      if shieldCooldown > 0.0 {
        shieldCooldown := shieldCooldown - dt;
      }
    }
  }
}
