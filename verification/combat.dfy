/**
 * Pieces of the per-frame bullet resolution shared by both front ends:
 * distances compared on squares, the on-screen test, and the shield scan
 * that asks each player in turn whether its shield is up.
 */
module Combat {
  import opened Wrappers
  import opened Rules
  import opened Pilot
  import opened Shot

  const SHIELD_RADIUS: real := 25.0
  /** A player's size; a bullet touches a body within size plus bullet radius. */
  const PLAYER_SIZE: real := 15.0
  const DAMAGE: int := 10

  /** Squared distance between (x0, y0) and (x1, y1): hypot compared on squares. */
  function Dist2(x0: real, y0: real, x1: real, y1: real): (d: real)
    ensures d >= 0.0
  {
    (x0 - x1) * (x0 - x1) + (y0 - y1) * (y0 - y1)
  }

  /** A bullet at (qx, qy) is inside the shield circle of a player at (px, py). */
  predicate InShield(px: real, py: real, qx: real, qy: real)
  {
    Dist2(qx, qy, px, py) < SHIELD_RADIUS * SHIELD_RADIUS
  }

  /** A bullet at (qx, qy) touches the body of a player at (px, py). */
  predicate Touches(px: real, py: real, qx: real, qy: real)
  {
    Dist2(qx, qy, px, py) < (PLAYER_SIZE + RADIUS) * (PLAYER_SIZE + RADIUS)
  }

  /** Every point that touches a body is inside that player's shield circle. */
  lemma TouchesWithinShield(px: real, py: real, qx: real, qy: real)
    ensures Touches(px, py, qx, qy) ==> InShield(px, py, qx, qy)
  {
  }

  /** The screen rectangle, edges included; a bullet off it is removed. */
  predicate OnScreen(x: real, y: real)
  {
    0.0 <= x <= SCREEN_WIDTH as real && 0.0 <= y <= SCREEN_HEIGHT as real
  }

  ghost predicate DistinctPlayers(players: seq<Player>)
  {
    forall i, j | 0 <= i < j < |players| :: players[i] != players[j]
  }

  ghost predicate DistinctBullets(bullets: seq<Bullet>)
  {
    forall i, j | 0 <= i < j < |bullets| :: bullets[i] != bullets[j]
  }

  /** In a list of distinct bullets, a bullet does not recur after its own place. */
  lemma NotLater(bullets: seq<Bullet>, i: int)
    requires DistinctBullets(bullets) && 0 <= i < |bullets|
    ensures bullets[i] !in bullets[i + 1..]
  {
    var later := bullets[i + 1..];
    forall k | 0 <= k < |later|
      ensures later[k] != bullets[i]
    {
      assert later[k] == bullets[i + 1 + k];
    }
  }

  /** Removing one bullet keeps the rest distinct. */
  lemma SpliceDistinct(bullets: seq<Bullet>, i: int)
    requires DistinctBullets(bullets) && 0 <= i < |bullets|
    ensures DistinctBullets(bullets[..i] + bullets[i + 1..])
  {
    var r := bullets[..i] + bullets[i + 1..];
    forall a, b | 0 <= a < b < |r|
      ensures r[a] != r[b]
    {
      var a' := if a < i then a else a + 1;
      var b' := if b < i then b else b + 1;
      assert r[a] == bullets[a'] && r[b] == bullets[b'];
    }
  }

  /**
   * The shield loop of the hit test: players are asked in order whether
   * their shield is up, each question expiring a shield that has run its
   * five seconds, until one whose shield is up holds the bullet inside its
   * circle. k is that player, or |players| when none absorbs. Only the
   * asked players' shields change, and nobody moves.
   */
  method ScanShields(players: seq<Player>, qx: real, qy: real, now: real) returns (k: nat)
    requires DistinctPlayers(players)
    modifies players
    ensures k <= |players|
    ensures forall j | 0 <= j < k ::
      !(Up(old(players[j].Shield()), now) && InShield(players[j].x, players[j].y, qx, qy))
    ensures k < |players| ==>
      Up(old(players[k].Shield()), now) && InShield(players[k].x, players[k].y, qx, qy)
    ensures forall j | 0 <= j < |players| :: players[j].Figure() == old(players[j].Figure())
    ensures forall j | 0 <= j < |players| && j <= k :: players[j].Shield() == Expire(old(players[j].Shield()), now)
    ensures forall j | k < j < |players| :: players[j].Shield() == old(players[j].Shield())
  {
    k := 0;
    while k < |players|
      invariant 0 <= k <= |players|
      invariant forall j | 0 <= j < k ::
        !(Up(old(players[j].Shield()), now) && InShield(players[j].x, players[j].y, qx, qy))
      invariant forall j | 0 <= j < |players| :: players[j].Figure() == old(players[j].Figure())
      invariant forall j | 0 <= j < k :: players[j].Shield() == Expire(old(players[j].Shield()), now)
      invariant forall j | k <= j < |players| :: players[j].Shield() == old(players[j].Shield())
    {
      var up := players[k].IsShieldActive(now);
      if up && Dist2(qx, qy, players[k].x, players[k].y) < SHIELD_RADIUS * SHIELD_RADIUS {
        return;
      }
      k := k + 1;
    }
  }

  /** What the hit test did with one bullet. */
  datatype Resolution = Young | Absorbed(shield: nat) | Struck(target: nat) | Missed

  /** The bullets that stay after moving: still active and on the screen, in their order. */
  ghost function Survivors(bullets: seq<Bullet>): seq<Bullet>
    reads bullets
  {
    if |bullets| == 0 then []
    else
      var head := if bullets[0].active && OnScreen(bullets[0].x, bullets[0].y) then [bullets[0]] else [];
      head + Survivors(bullets[1..])
  }

  /** A survivor list is made of the given bullets, and each of them is active and on the screen. */
  lemma {:induction false} SurvivorsKept(bullets: seq<Bullet>)
    ensures forall b | b in Survivors(bullets) :: b in bullets && b.active && OnScreen(b.x, b.y)
  {
    if |bullets| > 0 {
      SurvivorsKept(bullets[1..]);
    }
  }
}
