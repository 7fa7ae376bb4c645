/**
 * The twelve-player front end (html/script.js): the map it builds, the
 * shot a player fires, and the per-frame update of players and bullets,
 * including the hit test where shields absorb first and a bullet hits at
 * most one body.
 */
module Arena {
  import opened Wrappers
  import opened Rules
  import opened Oracle
  import opened Maze
  import opened Pilot
  import opened Shot
  import opened Combat

  /**
   * generateMap of the twelve-player front end: perimeter, carve from a
   * random even start, weighted wall types, the dead-end pass, thirty
   * opening rounds and normalisation. The perimeter survives at the head of
   * the list, no two walls share a tile, and every non-edge wall is white
   * territory.
   */
  method GenerateMap(rng: Random) returns (walls: seq<Wall>)
    requires rng.Valid()
    modifies rng
    ensures Layout(walls) && walls[..PERIMETER] == PerimeterWalls()
    ensures forall i | 0 <= i < |walls| && NonEdge(walls[i]) :: walls[i].wallType == 2 && walls[i].color == Some(WHITE)
    ensures forall i | 0 <= i < |walls| :: 1 <= walls[i].wallType <= 3
  {
    var perimeter := LayPerimeter();
    var g := NewGrid();
    var rx := rng.Next();
    var ry := rng.Next();
    var startX := EvenStart(rx, (GRID_W / 2) as real);
    var startY := EvenStart(ry, (GRID_H / 2) as real);
    Dfs(g, rng, startX, startY);
    walls := PlaceWalls(g, perimeter, rng, Weighted);
    walls := DeadEndPass(g, walls, rng);
    walls := OpeningRounds(g, walls, rng);
    NormalizedLayout(walls);
    walls := Normalize(walls);
  }

  class Match {
    var walls: seq<Wall>
    const players: seq<Player>
    var bullets: seq<Bullet>
    var gameOver: bool
    /** Index of the winner, announced as player index + 1; None before anyone has won. */
    var winner: Option<nat>

    ghost predicate Valid()
      reads this, players, bullets
    {
      DistinctPlayers(players) && DistinctBullets(bullets)
      && (forall p | p in players :: p.edges == Open)
      && (forall b | b in bullets :: b.Valid() && b.front == Multi && b.active)
    }

    /** The tail of initGame: no bullets, a fresh map, no game over and no winner. */
    constructor (players: seq<Player>, walls: seq<Wall>)
      requires DistinctPlayers(players)
      requires forall p | p in players :: p.edges == Open
      ensures Valid()
      ensures this.players == players && this.walls == walls
      ensures bullets == [] && !gameOver && winner == None
    {
      this.players := players;
      this.walls := walls;
      bullets := [];
      gameOver := false;
      winner := None;
    }

    /** Player w is the first one still alive. */
    ghost predicate FirstAlive(w: nat)
      reads this, players
    {
      w < |players| && players[w].health > 0 && forall j | 0 <= j < w :: players[j].health <= 0
    }

    ghost predicate NoneAlive()
      reads this, players
    {
      forall j | 0 <= j < |players| :: players[j].health <= 0
    }

    /** Player t is the first one, other than the owner, whose body the bullet at (qx, qy) touches. */
    ghost predicate FirstTarget(t: nat, owner: nat, qx: real, qy: real)
      reads this, players
    {
      t < |players| && t != owner && Touches(players[t].x, players[t].y, qx, qy)
      && forall j | 0 <= j < t :: j == owner || !Touches(players[j].x, players[j].y, qx, qy)
    }

    ghost predicate NoTarget(owner: nat, qx: real, qy: real)
      reads this, players
    {
      forall j | 0 <= j < |players| :: j == owner || !Touches(players[j].x, players[j].y, qx, qy)
    }

    /** The winner loop: the first player whose health is positive, if any. */
    method FindWinner() returns (w: Option<nat>)
      ensures w.Some? ==> FirstAlive(w.value)
      ensures w.None? ==> NoneAlive()
    {
      var j := 0;
      while j < |players|
        invariant 0 <= j <= |players|
        invariant forall i | 0 <= i < j :: players[i].health <= 0
      {
        if players[j].health > 0 {
          return Some(j);
        }
        j := j + 1;
      }
      return None;
    }

    /** The body loop of the hit test: the first non-owner the bullet touches, if any. */
    method FindTarget(owner: nat, qx: real, qy: real) returns (t: Option<nat>)
      ensures t.Some? ==> FirstTarget(t.value, owner, qx, qy)
      ensures t.None? ==> NoTarget(owner, qx, qy)
    {
      var j := 0;
      while j < |players|
        invariant 0 <= j <= |players|
        invariant forall i | 0 <= i < j :: i == owner || !Touches(players[i].x, players[i].y, qx, qy)
      {
        if owner != j && Dist2(qx, qy, players[j].x, players[j].y) < (PLAYER_SIZE + RADIUS) * (PLAYER_SIZE + RADIUS) {
          return Some(j);
        }
        j := j + 1;
      }
      return None;
    }

    /**
     * A shot by player p: unless the game is over, a bullet leaves p's
     * position pointing backwards (angle plus pi) and p is pushed along its
     * facing with force 2. The shoot key passes checkShield and is refused
     * while p's shield is up, and asking for the shield may expire it; the
     * touch shoot button passes !checkShield and fires whatever the shield.
     */
    method Fire(p: nat, now: real, cos: real -> real, sin: real -> real, checkShield: bool) returns (fired: bool)
      requires Valid() && p < |players|
      modifies this, players[p]
      ensures Valid()
      ensures fired == (!old(gameOver) && !(checkShield && Up(old(players[p].Shield()), now)))
      ensures players[p].Shield() ==
        if old(gameOver) || !checkShield then old(players[p].Shield()) else Expire(old(players[p].Shield()), now)
      ensures walls == old(walls) && gameOver == old(gameOver) && winner == old(winner)
      ensures !fired ==> bullets == old(bullets) && players[p].Figure() == old(players[p].Figure())
      ensures fired ==>
        |bullets| == |old(bullets)| + 1 && bullets[..|old(bullets)|] == old(bullets)
        && var b := bullets[|old(bullets)|];
        && fresh(b) && b.active && b.owner == p && b.creationTime == now && b.color == players[p].color
        && b.x == old(players[p].x) && b.y == old(players[p].y) && b.angle == old(players[p].angle) + PI
        && b.trail == [(b.x, b.y)]
      ensures fired ==>
        players[p].Figure() == old(players[p].Figure()).(
          speedX := old(players[p].speedX) + cos(old(players[p].angle)) * 2.0,
          speedY := old(players[p].speedY) + sin(old(players[p].angle)) * 2.0)
    {
      fired := false;
      if !gameOver {
        var shooter := players[p];
        var up := false;
        if checkShield {
          up := shooter.IsShieldActive(now);
        }
        if !up {
          var b := new Bullet(shooter.x, shooter.y, shooter.angle + PI, shooter.color, p, now, Multi);
          bullets := bullets + [b];
          shooter.PushBack(2.0, shooter.angle, cos, sin);
          fired := true;
        }
      }
    }

    /**
     * The player loop of a frame: every player moves against the walls and
     * then lowers its cooldown.
     */
    method MovePlayers(dt: real)
      requires Valid()
      modifies players
      ensures Valid()
      ensures forall j | 0 <= j < |players| ::
        && players[j].Figure() == Moved(old(players[j].Figure()),
             players[j].StoppedFrom(walls, old(players[j].Figure())))
        && players[j].Shield() == Cooled(old(players[j].Shield()), dt)
    {
      var j := 0;
      while j < |players|
        invariant 0 <= j <= |players|
        invariant forall i | 0 <= i < j ::
          && players[i].Figure() == Moved(old(players[i].Figure()),
               players[i].StoppedFrom(walls, old(players[i].Figure())))
          && players[i].Shield() == Cooled(old(players[i].Shield()), dt)
        invariant forall i | j <= i < |players| :: players[i].Figure() == old(players[i].Figure()) && players[i].Shield() == old(players[i].Shield())
      {
        players[j].Move(walls);
        players[j].Update(dt);
        j := j + 1;
      }
    }

    /**
     * One pass of the bullet loop: bullet i moves and stays only while
     * active and on the screen. The bullets after it are the survivors of
     * tail, and then the bullets from i on are the survivors of bullet i
     * followed by tail.
     */
    method StepBullet(i: nat, cos: real -> real, sin: real -> real, atan2: (real, real) -> real,
                      ghost tail: seq<Bullet>, ghost base: seq<Wall>)
      requires Valid() && i < |bullets|
      requires bullets[i] !in tail && bullets[i + 1..] == Survivors(tail)
      requires SameTiles(base, walls)
      modifies this, bullets[i]
      ensures Valid()
      ensures |bullets| >= i && bullets[..i] == old(bullets[..i])
      ensures bullets[i..] == Survivors([old(bullets[i])] + tail)
      ensures SameTiles(base, walls)
      ensures var b := old(bullets[i]);
        b.State() == Stepped(old(b.State()), old(walls), b.color, b.front, cos, sin, atan2)
      ensures var b := old(bullets[i]);
        && (b.active ==> walls == old(walls))
        && (!b.active ==> walls == Recolor(old(walls), b.x, b.y, b.trailColor))
      ensures gameOver == old(gameOver) && winner == old(winner)
    {
      ghost var kept := Survivors(tail);
      Advance(i, cos, sin, atan2, base);
      assert Survivors(tail) == kept;
      Prune(i, tail);
    }

    /** The move half of a pass: bullet i moves against the walls, which change only if it detonates. */
    method Advance(i: nat, cos: real -> real, sin: real -> real, atan2: (real, real) -> real, ghost base: seq<Wall>)
      requires Valid() && i < |bullets| && SameTiles(base, walls)
      modifies this, bullets[i]
      ensures bullets == old(bullets) && gameOver == old(gameOver) && winner == old(winner)
      ensures bullets[i].Valid() && bullets[i].front == Multi
      ensures SameTiles(base, walls)
      ensures var b := bullets[i];
        b.State() == Stepped(old(b.State()), old(walls), b.color, b.front, cos, sin, atan2)
      ensures var b := bullets[i];
        && (b.active ==> walls == old(walls))
        && (!b.active ==> walls == Recolor(old(walls), b.x, b.y, b.trailColor))
    {
      var b := bullets[i];
      var before := walls;
      walls := b.Move(walls, cos, sin, atan2);
      RecolorSameTiles(base, before, b.x, b.y, b.trailColor);
    }

    /** The removal half of a pass: bullet i goes unless it is active and on the screen. */
    method Prune(i: nat, ghost tail: seq<Bullet>)
      requires i < |bullets| && bullets[i + 1..] == Survivors(tail)
      requires DistinctBullets(bullets) && DistinctPlayers(players) && forall p | p in players :: p.edges == Open
      requires forall j | 0 <= j < |bullets| && j != i :: bullets[j].Valid() && bullets[j].front == Multi && bullets[j].active
      requires bullets[i].Valid() && bullets[i].front == Multi
      modifies this
      ensures Valid()
      ensures |bullets| >= i && bullets[..i] == old(bullets[..i])
      ensures bullets[i..] == Survivors([old(bullets[i])] + tail)
      ensures walls == old(walls) && gameOver == old(gameOver) && winner == old(winner)
    {
      var b := bullets[i];
      assert ([b] + tail)[1..] == tail;
      if !b.active || !OnScreen(b.x, b.y) {
        SpliceDistinct(bullets, i);
        bullets := bullets[..i] + bullets[i + 1..];
      }
    }

    /**
     * The bullets of bs from index i on have made one move each from their
     * start flights, against walls with the same tiles as base, while those
     * before i still hold their start flights.
     */
    ghost predicate MovedFrom(i: nat, bs: seq<Bullet>, start: seq<Flight>, base: seq<Wall>,
                           cos: real -> real, sin: real -> real, atan2: (real, real) -> real)
      reads bs
    {
      && i <= |bs| == |start|
      && (forall k | 0 <= k < i :: bs[k].State() == start[k])
      && forall k | i <= k < |bs| ::
           SteppedOver(start[k], bs[k].State(), base, bs[k].color, bs[k].front, cos, sin, atan2)
    }

    /**
     * The state of the bullet loop before bullet i - 1 moves, for the list
     * bs it started from: the bullets before i are still those of bs, the
     * rest are the survivors of bs from i on, and the bullets of bs from i
     * on have made their move.
     */
    ghost predicate Pass(i: nat, bs: seq<Bullet>, start: seq<Flight>, base: seq<Wall>,
                         cos: real -> real, sin: real -> real, atan2: (real, real) -> real)
      reads this, players, bullets, bs
    {
      && Valid() && i <= |bullets| && i <= |bs|
      && bullets[..i] == bs[..i] && bullets[i..] == Survivors(bs[i..])
      && DistinctBullets(bs) && SameTiles(base, walls)
      && MovedFrom(i, bs, start, base, cos, sin, atan2)
    }

    /** One turn of the bullet loop: bullet i moves, and goes unless it is still in flight. */
    method StepNext(i: nat, cos: real -> real, sin: real -> real, atan2: (real, real) -> real,
                    ghost bs: seq<Bullet>, ghost start: seq<Flight>, ghost base: seq<Wall>)
      requires i < |bs| && Pass(i + 1, bs, start, base, cos, sin, atan2)
      modifies this, bs[i]
      ensures Pass(i, bs, start, base, cos, sin, atan2)
      ensures gameOver == old(gameOver) && winner == old(winner)
    {
      assert bullets[i] == bs[i];
      assert bullets[..i] == bs[..i];
      NotLater(bs, i);
      assert bs[i..] == [bs[i]] + bs[i + 1..];
      ghost var b, pre := bullets[i], walls;
      StepBullet(i, cos, sin, atan2, bs[i + 1..], base);
      assert b.State() == Stepped(start[i], pre, b.color, b.front, cos, sin, atan2);
      assert forall k | 0 <= k < |bs| && k != i :: bs[k] != b;
    }

    /**
     * The bullet loop of a frame, from the last bullet down: each one moves,
     * and is dropped when it is no longer active or has left the screen.
     * Dropping does not detonate; a detonation only happens inside a move.
     */
    method MoveBullets(cos: real -> real, sin: real -> real, atan2: (real, real) -> real)
      requires Valid()
      modifies this, bullets
      ensures Valid()
      ensures bullets == Survivors(old(bullets))
      ensures forall b | b in bullets :: b in old(bullets) && b.active && OnScreen(b.x, b.y)
      ensures SameTiles(old(walls), walls)
      ensures MovedFrom(0, old(bullets), old(Flights(bullets)), old(walls), cos, sin, atan2)
      ensures gameOver == old(gameOver) && winner == old(winner)
    {
      ghost var start := Flights(bullets);
      var i: nat := |bullets|;
      while i > 0
        invariant Pass(i, old(bullets), start, old(walls), cos, sin, atan2)
        invariant gameOver == old(gameOver) && winner == old(winner)
      {
        i := i - 1;
        StepNext(i, cos, sin, atan2, old(bullets), start, old(walls));
      }
      SurvivorsKept(old(bullets));
    }

    /** A shield absorbs bullet i: it detonates and goes, and the shield drops into a one-second cooldown. */
    method Absorb(i: nat, k: nat, now: real)
      requires Valid() && i < |bullets| && k < |players|
      modifies this, players[k]
      ensures Valid()
      ensures bullets == old(bullets[..i] + bullets[i + 1..])
      ensures walls == Recolor(old(walls), old(bullets[i].x), old(bullets[i].y), old(bullets[i].trailColor))
      ensures gameOver == old(gameOver) && winner == old(winner)
      ensures players[k].Figure() == old(players[k].Figure())
      ensures old(players[k].shieldActive) ==>
        players[k].Shield() == ShieldState(false, false, old(players[k].shieldStartTime),
          RemainingAt(old(players[k].shieldStartTime), now), SHIELD_COOLDOWN)
    {
      var b := bullets[i];
      walls := b.Explode(walls);
      SpliceDistinct(bullets, i);
      bullets := bullets[..i] + bullets[i + 1..];
      players[k].DeactivateShield(now);
      players[k].shieldCooldown := SHIELD_COOLDOWN;
    }

    /**
     * Bullet i strikes player t: ten health off, the bullet detonates and
     * goes, and when the target has nothing left the game is over and the
     * first player still alive, if any, becomes the winner.
     */
    method Strike(i: nat, t: nat)
      requires Valid() && i < |bullets| && t < |players|
      modifies this, players[t]
      ensures Valid()
      ensures bullets == old(bullets[..i] + bullets[i + 1..])
      ensures walls == Recolor(old(walls), old(bullets[i].x), old(bullets[i].y), old(bullets[i].trailColor))
      ensures players[t].Figure() == old(players[t].Figure()).(health := old(players[t].health) - DAMAGE)
      ensures players[t].Shield() == old(players[t].Shield())
      ensures gameOver == (old(gameOver) || players[t].health <= 0)
      ensures players[t].health > 0 ==> winner == old(winner)
      ensures players[t].health <= 0 && NoneAlive() ==> winner == old(winner)
      ensures players[t].health <= 0 && !NoneAlive() ==> winner.Some? && FirstAlive(winner.value)
    {
      var target := players[t];
      target.health := target.health - DAMAGE;
      var b := bullets[i];
      walls := b.Explode(walls);
      SpliceDistinct(bullets, i);
      bullets := bullets[..i] + bullets[i + 1..];
      if target.health <= 0 {
        gameOver := true;
        var w := FindWinner();
        if w.Some? {
          winner := w;
        }
      }
    }

    /**
     * The hit test for bullet i. A bullet younger than 0.2 s is skipped.
     * Otherwise the first player whose shield is up and holds the bullet
     * absorbs it, whoever fired it; failing that the first player other
     * than the shooter whose body it touches loses ten health; failing
     * that it flies on. Only the shields that were asked may expire, and
     * nobody moves.
     */
    method ResolveBullet(i: nat, now: real) returns (o: Resolution)
      requires Valid() && i < |bullets|
      modifies this, players
      ensures Valid()
      ensures o == Young <==> !old(bullets[i]).IsActive(now)
      ensures o == Young || o == Missed ==>
        bullets == old(bullets) && walls == old(walls) && gameOver == old(gameOver) && winner == old(winner)
      ensures o.Absorbed? || o.Struck? ==>
        bullets == old(bullets[..i] + bullets[i + 1..])
        && walls == Recolor(old(walls), old(bullets[i].x), old(bullets[i].y), old(bullets[i].trailColor))
      ensures o == Young ==> forall j | 0 <= j < |players| :: players[j].Shield() == old(players[j].Shield())
      ensures o.Absorbed? ==> gameOver == old(gameOver) && winner == old(winner)
      ensures o.Absorbed? ==>
        && o.shield < |players|
        && Up(old(players[o.shield].Shield()), now)
        && InShield(players[o.shield].x, players[o.shield].y, old(bullets[i].x), old(bullets[i].y))
        && players[o.shield].Shield() == ShieldState(false, false, old(players[o.shield].shieldStartTime),
             RemainingAt(old(players[o.shield].shieldStartTime), now), SHIELD_COOLDOWN)
      ensures o.Absorbed? ==> forall j | 0 <= j < o.shield ::
        !(Up(old(players[j].Shield()), now) && InShield(players[j].x, players[j].y, old(bullets[i].x), old(bullets[i].y)))
        && players[j].Shield() == Expire(old(players[j].Shield()), now)
      ensures o.Absorbed? ==> forall j | o.shield < j < |players| :: players[j].Shield() == old(players[j].Shield())
      ensures o.Struck? || o == Missed ==> forall j | 0 <= j < |players| ::
        !(Up(old(players[j].Shield()), now) && InShield(players[j].x, players[j].y, old(bullets[i].x), old(bullets[i].y)))
        && players[j].Shield() == Expire(old(players[j].Shield()), now)
      ensures o.Struck? ==> FirstTarget(o.target, old(bullets[i].owner), old(bullets[i].x), old(bullets[i].y))
      ensures o == Missed ==> NoTarget(old(bullets[i].owner), old(bullets[i].x), old(bullets[i].y))
      ensures forall j | 0 <= j < |players| ::
        players[j].Figure() == old(players[j].Figure()).(health := old(players[j].health) - (if o == Struck(j) then DAMAGE else 0))
      ensures o.Struck? ==> gameOver == (old(gameOver) || players[o.target].health <= 0)
      ensures o.Struck? && players[o.target].health > 0 ==> winner == old(winner)
      ensures o.Struck? && players[o.target].health <= 0 && NoneAlive() ==> winner == old(winner)
      ensures o.Struck? && players[o.target].health <= 0 && !NoneAlive() ==> winner.Some? && FirstAlive(winner.value)
    {
      var b := bullets[i];
      if !b.IsActive(now) {
        return Young;
      }
      var k := ScanShields(players, b.x, b.y, now);
      if k < |players| {
        Absorb(i, k, now);
        return Absorbed(k);
      }
      var t := FindTarget(b.owner, b.x, b.y);
      if t.Some? {
        Strike(i, t.value);
        return Struck(t.value);
      }
      return Missed;
    }

    /**
     * The hit test for bullet i, as the hit loop sees it: the bullet stays or
     * goes, a young one stays, the walls keep their tiles, a health falls by
     * ten or not at all, nobody moves, and a game that ends here has a
     * player out of health.
     */
    method HitStep(i: nat, now: real)
      requires Valid() && i < |bullets|
      modifies this, players
      ensures Valid()
      ensures bullets == old(bullets) || bullets == old(bullets[..i] + bullets[i + 1..])
      ensures !old(bullets[i]).IsActive(now) ==> bullets == old(bullets)
      ensures SameTiles(old(walls), walls)
      ensures forall j | 0 <= j < |players| ::
        players[j].health == old(players[j].health) || players[j].health == old(players[j].health) - DAMAGE
      ensures forall j | 0 <= j < |players| ::
        players[j].x == old(players[j].x) && players[j].y == old(players[j].y) && players[j].angle == old(players[j].angle)
      ensures old(gameOver) ==> gameOver
      ensures gameOver && !old(gameOver) ==> exists j | 0 <= j < |players| :: players[j].health <= 0
    {
      ghost var before := bullets;
      ghost var w := walls;
      var o := ResolveBullet(i, now);
      if o.Absorbed? || o.Struck? {
        RecolorSameTiles(w, w, before[i].x, before[i].y, before[i].trailColor);
      }
    }

    /**
     * The hit loop of a frame, from the last bullet down. Bullets only go,
     * young ones all stay, healths only fall and only in steps of ten, the
     * walls keep their tiles, and a game that is over stays over, with
     * some player out of health.
     */
    method ResolveHits(now: real)
      requires Valid()
      modifies this, players
      ensures Valid()
      ensures forall b | b in bullets :: b in old(bullets)
      ensures forall b | b in old(bullets) && !b.IsActive(now) :: b in bullets
      ensures SameTiles(old(walls), walls)
      ensures forall j | 0 <= j < |players| ::
        players[j].health <= old(players[j].health) && (old(players[j].health) - players[j].health) % DAMAGE == 0
      ensures forall j | 0 <= j < |players| ::
        players[j].x == old(players[j].x) && players[j].y == old(players[j].y) && players[j].angle == old(players[j].angle)
      ensures old(gameOver) ==> gameOver
      ensures gameOver && !old(gameOver) ==> exists j | 0 <= j < |players| :: players[j].health <= 0
    {
      var i := |bullets|;
      while i > 0
        invariant 0 <= i <= |bullets|
        invariant bullets[..i] == old(bullets)[..i]
        invariant Valid()
        invariant forall b | b in bullets :: b in old(bullets)
        invariant forall b | b in old(bullets)[i..] && !b.IsActive(now) :: b in bullets
        invariant SameTiles(old(walls), walls)
        invariant forall j | 0 <= j < |players| ::
          players[j].health <= old(players[j].health) && (old(players[j].health) - players[j].health) % DAMAGE == 0
        invariant forall j | 0 <= j < |players| ::
          players[j].x == old(players[j].x) && players[j].y == old(players[j].y) && players[j].angle == old(players[j].angle)
        invariant old(gameOver) ==> gameOver
        invariant gameOver && !old(gameOver) ==> exists j | 0 <= j < |players| :: players[j].health <= 0
      {
        i := i - 1;
        ghost var w := walls;
        HitStep(i, now);
        SameTilesTrans(old(walls), w, walls);
      }
    }

    /**
     * The part of a frame that runs while the game is on: players move and
     * cool down, bullets move, then the hit test runs.
     */
    method Play(dt: real, now: real, cos: real -> real, sin: real -> real, atan2: (real, real) -> real)
      requires Valid() && !gameOver
      modifies this, players, bullets
      ensures Valid()
      ensures SameTiles(old(walls), walls)
      ensures forall b | b in bullets :: b in old(bullets) && b.active
      ensures forall j | 0 <= j < |players| :: players[j].health <= old(players[j].health)
    {
      Motion(dt, cos, sin, atan2);
      ghost var w := walls;
      ResolveHits(now);
      SameTilesTrans(old(walls), w, walls);
    }

    /** The movement half of a frame: players, then bullets. Nobody is hurt yet. */
    method Motion(dt: real, cos: real -> real, sin: real -> real, atan2: (real, real) -> real)
      requires Valid()
      modifies this, players, bullets
      ensures Valid() && gameOver == old(gameOver)
      ensures SameTiles(old(walls), walls)
      ensures forall b | b in bullets :: b in old(bullets)
      ensures forall j | 0 <= j < |players| :: players[j].health == old(players[j].health)
    {
      MovePlayers(dt);
      assert forall j | 0 <= j < |players| :: players[j].health == old(players[j].health);
      MoveBullets(cos, sin, atan2);
    }

    /**
     * The player drawing loop of a frame: each player in index order asks
     * whether its shield is up, which switches off a shield that has
     * outlasted its duration. Bodies are left alone.
     */
    method DrawPlayers(now: real)
      requires Valid()
      modifies players
      ensures Valid()
      ensures forall j | 0 <= j < |players| ::
        players[j].Figure() == old(players[j].Figure()) && players[j].Shield() == Expire(old(players[j].Shield()), now)
    {
      var j := 0;
      while j < |players|
        invariant 0 <= j <= |players|
        invariant forall i | 0 <= i < j ::
          players[i].Figure() == old(players[i].Figure()) && players[i].Shield() == Expire(old(players[i].Shield()), now)
        invariant forall i | j <= i < |players| :: players[i].Figure() == old(players[i].Figure()) && players[i].Shield() == old(players[i].Shield())
      {
        var up := players[j].IsShieldActive(now);
        j := j + 1;
      }
    }

    /**
     * One frame: the game part while the game is on, then, finished or
     * not, the players are drawn, which expires every shield that has run
     * its course. A finished game changes nothing else.
     */
    method Tick(dt: real, now: real, cos: real -> real, sin: real -> real, atan2: (real, real) -> real)
      requires Valid()
      modifies this, players, bullets
      ensures Valid()
      ensures old(gameOver) ==> gameOver && walls == old(walls) && bullets == old(bullets) && winner == old(winner)
      ensures old(gameOver) ==> forall j | 0 <= j < |players| ::
        players[j].Figure() == old(players[j].Figure()) && players[j].Shield() == Expire(old(players[j].Shield()), now)
      ensures forall j | 0 <= j < |players| :: !players[j].shieldActive || !players[j].shieldButtonPressed || Up(players[j].Shield(), now)
      ensures SameTiles(old(walls), walls)
      ensures forall b | b in bullets :: b in old(bullets) && b.active
      ensures forall j | 0 <= j < |players| :: players[j].health <= old(players[j].health)
    {
      if !gameOver {
        Play(dt, now, cos, sin, atan2);
      }
      DrawPlayers(now);
    }
  }
}
