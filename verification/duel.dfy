/**
 * The older two-player front end (script.js): its map generator, whose
 * opening rounds fail as soon as one of them has a wall to remove, and the
 * per-frame update of its two players and their bullets.
 */
module Duel {
  import opened Wrappers
  import opened Rules
  import opened Oracle
  import opened Maze
  import opened Pilot
  import opened Shot
  import opened Combat

  /** The error the opening rounds throw: the adjacency test names flags declared in another block. */
  const REFERENCE_ERROR: string := "ReferenceError: hasWallAbove is not defined"

  /** No blocked cell above or below c, or none to its left or right. */
  ghost predicate ClearAxis(cells: set<(int, int)>, c: (int, int))
  {
    !((c.0, c.1 - 1) in cells || (c.0, c.1 + 1) in cells) || !((c.0 - 1, c.1) in cells || (c.0 + 1, c.1) in cells)
  }

  /** Some non-edge wall of the list has a clear axis among the blocked cells. */
  ghost predicate Stuck(walls: seq<Wall>, cells: set<(int, int)>)
  {
    exists i | 0 <= i < |walls| :: NonEdge(walls[i]) && ClearAxis(cells, CellOf(walls[i]))
  }

  /** The grid test of the removable-walls filter is the set test on the blocked cells. */
  lemma CandidateIsStuck(g: array2<int>, walls: seq<Wall>)
    requires Shaped(g)
    ensures AnyCandidate(g, walls) <==> Stuck(walls, Blocked(g))
  {
    forall x, y
      ensures BlockedAt(g, x, y) <==> (x, y) in Blocked(g)
    {
      if (x, y) in Blocked(g) {
        var x', y' :| 0 <= y' < g.Length0 && 0 <= x' < g.Length1 && g[y', x'] == 1 && (x, y) == (x', y');
      }
    }
    if AnyCandidate(g, walls) {
      var i :| 0 <= i < |walls| && Candidate(g, walls[i]);
      assert NonEdge(walls[i]) && ClearAxis(Blocked(g), CellOf(walls[i]));
    }
    if Stuck(walls, Blocked(g)) {
      var i :| 0 <= i < |walls| && NonEdge(walls[i]) && ClearAxis(Blocked(g), CellOf(walls[i]));
      assert Candidate(g, walls[i]);
    }
  }

  /**
   * The part of generateMap that always completes: perimeter, carve from a
   * random even start below 37 by 27, uniform wall types and the dead-end
   * pass. Every blocked cell carries exactly one interior wall.
   */
  method Carve(rng: Random) returns (g: array2<int>, walls: seq<Wall>)
    requires rng.Valid()
    modifies rng
    ensures fresh(g) && Shaped(g) && Binary(g) && rng.Valid()
    ensures Layout(walls) && WallCells(walls) == Blocked(g)
  {
    var perimeter := LayPerimeter();
    g := NewGrid();
    var rx := rng.Next();
    var ry := rng.Next();
    var startX := EvenStart(rx, (GRID_W - 1) as real / 2.0);
    var startY := EvenStart(ry, (GRID_H - 1) as real / 2.0);
    Dfs(g, rng, startX, startY);
    walls := PlaceWalls(g, perimeter, rng, Uniform);
    walls := DeadEndPass(g, walls, rng);
  }

  /**
   * The thirty opening rounds. A round that finds a removable wall draws
   * its pick, opens the patch and then throws, so either the first round
   * throws or no round finds anything and nothing changes.
   */
  method OpeningRounds(g: array2<int>, walls: seq<Wall>, rng: Random) returns (thrown: bool)
    requires Shaped(g) && Binary(g) && rng.Valid() && Layout(walls)
    modifies g, rng
    ensures rng.Valid()
    ensures thrown == old(AnyCandidate(g, walls))
    ensures !thrown ==> unchanged(g)
  {
    var round := 0;
    while round < 30
      invariant 0 <= round <= 30
      invariant rng.Valid() && unchanged(g)
      invariant round > 0 ==> !AnyCandidate(g, walls)
    {
      var removable := CollectCandidates(g, walls);
      if |removable| > 0 {
        var pick := rng.Next();
        var w := removable[Scaled(pick, |removable|)];
        var k := IndexOf(walls, w);
        if k < PERIMETER {
          PerimeterIsEdge(walls, k);
        }
        OpenPatch(g, w.x / WALL_SIZE - 1, w.y / WALL_SIZE - 1);
        return true;
      }
      round := round + 1;
    }
    return false;
  }

  /**
   * generateMap of the two-player front end. It fails with the reference
   * error exactly when, after the dead-end pass, some non-edge wall has a
   * clear axis; otherwise it returns the normalised list, in which no
   * non-edge wall has one. carved and cells are the wall list and blocked
   * cells the opening rounds start from.
   */
  method GenerateMap(rng: Random) returns (r: Result<seq<Wall>, string>, ghost carved: seq<Wall>, ghost cells: set<(int, int)>)
    requires rng.Valid()
    modifies rng
    ensures rng.Valid()
    ensures Layout(carved) && WallCells(carved) == cells
    ensures r.Failure? <==> Stuck(carved, cells)
    ensures r.Failure? ==> r.error == REFERENCE_ERROR
    ensures r.Success? ==> r.value == NormalizedAll(carved) && Layout(r.value) && WallCells(r.value) == cells
    ensures r.Success? ==> forall w | w in r.value && NonEdge(w) :: !ClearAxis(cells, CellOf(w))
  {
    var g, walls := Carve(rng);
    carved, cells := walls, Blocked(g);
    CandidateIsStuck(g, walls);
    var thrown := OpeningRounds(g, walls, rng);
    if thrown {
      return Failure(REFERENCE_ERROR), carved, cells;
    }
    NormalizedLayout(walls);
    var finished := Normalize(walls);
    r := Success(finished);
    NormalizedNotStuck(walls, cells);
  }

  /** Normalisation moves no wall, so a list that was not stuck stays free of clear-axis non-edge walls. */
  lemma NormalizedNotStuck(walls: seq<Wall>, cells: set<(int, int)>)
    requires !Stuck(walls, cells)
    ensures forall w | w in NormalizedAll(walls) && NonEdge(w) :: !ClearAxis(cells, CellOf(w))
  {
    var r := NormalizedAll(walls);
    forall w | w in r && NonEdge(w)
      ensures !ClearAxis(cells, CellOf(w))
    {
      var i :| 0 <= i < |r| && r[i] == w;
      assert CellOf(w) == CellOf(walls[i]) && NonEdge(walls[i]);
    }
  }

  class Match {
    var walls: seq<Wall>
    /** player1 and player2. */
    const players: seq<Player>
    var bullets: seq<Bullet>
    var gameOver: bool
    /** 0 for "Player 1", 1 for "Player 2"; None before anyone has won. */
    var winner: Option<nat>

    ghost predicate Valid()
      reads this, players, bullets
    {
      |players| == 2 && DistinctPlayers(players) && DistinctBullets(bullets)
      && (forall p | p in players :: p.edges == Closed)
      && (forall b | b in bullets :: b.Valid() && b.front == Duo && b.active && b.owner < 2)
    }

    /** The game has a winner, and the winner's opponent is out of health. */
    ghost predicate Decided()
      reads this, players
    {
      |players| == 2 && winner.Some? && winner.value < 2 && players[1 - winner.value].health <= 0
    }

    /** initGame: a blue player at a quarter of the width and a red one at three quarters, both mid-height. */
    constructor (walls: seq<Wall>)
      ensures Valid()
      ensures this.walls == walls && bullets == [] && !gameOver && winner == None
      ensures fresh(players[0]) && fresh(players[1])
      ensures players[0].x == 200.0 && players[0].y == 300.0 && players[0].color == BLUE
      ensures players[1].x == 600.0 && players[1].y == 300.0 && players[1].color == RED
      ensures forall j | 0 <= j < 2 :: players[j].health == 100 && !players[j].shieldActive && players[j].shieldCooldown == 0.0
    {
      var p1 := new Player(SCREEN_WIDTH as real / 4.0, SCREEN_HEIGHT as real / 2.0, BLUE, Closed);
      var p2 := new Player(3.0 * SCREEN_WIDTH as real / 4.0, SCREEN_HEIGHT as real / 2.0, RED, Closed);
      players := [p1, p2];
      this.walls := walls;
      bullets := [];
      gameOver := false;
      winner := None;
    }

    /**
     * A press of player p's shoot button while the game is on: a bullet
     * leaves p's position pointing backwards and p is pushed along its
     * facing with force 2. Unlike the twelve-player front end, a raised
     * shield does not prevent the shot.
     */
    method Fire(p: nat, now: real, cos: real -> real, sin: real -> real)
      requires Valid() && p < 2
      modifies this, players[p]
      ensures Valid()
      ensures walls == old(walls) && gameOver == old(gameOver) && winner == old(winner)
      ensures players[p].Shield() == old(players[p].Shield())
      ensures old(gameOver) ==> bullets == old(bullets) && players[p].Figure() == old(players[p].Figure())
      ensures !old(gameOver) ==>
        |bullets| == |old(bullets)| + 1 && bullets[..|old(bullets)|] == old(bullets)
        && var b := bullets[|old(bullets)|];
        && fresh(b) && b.active && b.owner == p && b.creationTime == now && b.color == players[p].color
        && b.x == old(players[p].x) && b.y == old(players[p].y) && b.angle == old(players[p].angle) + PI
        && b.trail == [(b.x, b.y)]
      ensures !old(gameOver) ==>
        players[p].Figure() == old(players[p].Figure()).(
          speedX := old(players[p].speedX) + cos(old(players[p].angle)) * 2.0,
          speedY := old(players[p].speedY) + sin(old(players[p].angle)) * 2.0)
    {
      if !gameOver {
        var shooter := players[p];
        var b := new Bullet(shooter.x, shooter.y, shooter.angle + PI, shooter.color, p, now, Duo);
        bullets := bullets + [b];
        shooter.PushBack(2.0, shooter.angle, cos, sin);
      }
    }

    /**
     * One pass of the bullet loop: bullet i moves, and goes unless it is
     * still active and on the screen. A bullet that goes while still active
     * detonates first, so a bullet that leaves play has detonated exactly
     * once: in its move if a wall stopped it, here otherwise.
     */
    method StepBullet(i: nat, cos: real -> real, sin: real -> real, atan2: (real, real) -> real,
                      ghost tail: seq<Bullet>, ghost base: seq<Wall>)
      requires Valid() && i < |bullets|
      requires bullets[i] !in tail && bullets[i + 1..] == Survivors(tail)
      requires SameTiles(base, walls)
      modifies this, bullets[i]
      ensures Valid()
      ensures |bullets| >= i && bullets[..i] == old(bullets[..i])
      ensures bullets[i..] == Survivors([old(bullets[i])] + tail)
      ensures SameTiles(base, walls)
      ensures var b := old(bullets[i]);
        b.State() == Stepped(old(b.State()), old(walls), b.color, b.front, cos, sin, atan2)
      ensures var b := old(bullets[i]);
        walls == if b.active && OnScreen(b.x, b.y) then old(walls) else Recolor(old(walls), b.x, b.y, b.trailColor)
      ensures gameOver == old(gameOver) && winner == old(winner)
    {
      ghost var kept := Survivors(tail);
      Advance(i, cos, sin, atan2, base);
      assert Survivors(tail) == kept;
      Prune(i, tail);
    }

    /** The move half of a pass: bullet i moves, and detonates if it is still active but off the screen. */
    method Advance(i: nat, cos: real -> real, sin: real -> real, atan2: (real, real) -> real, ghost base: seq<Wall>)
      requires Valid() && i < |bullets| && SameTiles(base, walls)
      modifies this, bullets[i]
      ensures bullets == old(bullets) && gameOver == old(gameOver) && winner == old(winner)
      ensures bullets[i].Valid() && bullets[i].front == Duo && bullets[i].owner < 2
      ensures SameTiles(base, walls)
      ensures var b := bullets[i];
        b.State() == Stepped(old(b.State()), old(walls), b.color, b.front, cos, sin, atan2)
      ensures var b := bullets[i];
        walls == if b.active && OnScreen(b.x, b.y) then old(walls) else Recolor(old(walls), b.x, b.y, b.trailColor)
    {
      var b := bullets[i];
      var before := walls;
      walls := b.Move(walls, cos, sin, atan2);
      RecolorSameTiles(base, before, b.x, b.y, b.trailColor);
      OffScreenBlast(b, base);
    }

    /** A bullet still in flight but past the screen edge detonates where it is. */
    method OffScreenBlast(b: Bullet, ghost base: seq<Wall>)
      requires SameTiles(base, walls)
      modifies this
      ensures SameTiles(base, walls)
      ensures walls == if b.active && !OnScreen(b.x, b.y) then Recolor(old(walls), b.x, b.y, b.trailColor) else old(walls)
      ensures bullets == old(bullets) && gameOver == old(gameOver) && winner == old(winner)
    {
      if b.active && !OnScreen(b.x, b.y) {
        var before := walls;
        walls := b.Explode(walls);
        RecolorSameTiles(base, before, b.x, b.y, b.trailColor);
      }
    }

    /** The removal half of a pass: bullet i goes unless it is active and on the screen. */
    method Prune(i: nat, ghost tail: seq<Bullet>)
      requires i < |bullets| && bullets[i + 1..] == Survivors(tail)
      requires |players| == 2 && DistinctBullets(bullets) && DistinctPlayers(players) && forall p | p in players :: p.edges == Closed
      requires forall j | 0 <= j < |bullets| && j != i :: bullets[j].Valid() && bullets[j].front == Duo && bullets[j].active && bullets[j].owner < 2
      requires bullets[i].Valid() && bullets[i].front == Duo && bullets[i].owner < 2
      modifies this
      ensures Valid()
      ensures |bullets| >= i && bullets[..i] == old(bullets[..i])
      ensures bullets[i..] == Survivors([old(bullets[i])] + tail)
      ensures walls == old(walls) && gameOver == old(gameOver) && winner == old(winner)
    {
      var b := bullets[i];
      assert ([b] + tail)[1..] == tail;
      if !b.active || !OnScreen(b.x, b.y) {
        SpliceDistinct(bullets, i);
        bullets := bullets[..i] + bullets[i + 1..];
      }
    }

    /**
     * The bullets of bs from index i on have made one move each from their
     * start flights, against walls with the same tiles as base, while those
     * before i still hold their start flights.
     */
    ghost predicate MovedFrom(i: nat, bs: seq<Bullet>, start: seq<Flight>, base: seq<Wall>,
                           cos: real -> real, sin: real -> real, atan2: (real, real) -> real)
      reads bs
    {
      && i <= |bs| == |start|
      && (forall k | 0 <= k < i :: bs[k].State() == start[k])
      && forall k | i <= k < |bs| ::
           SteppedOver(start[k], bs[k].State(), base, bs[k].color, bs[k].front, cos, sin, atan2)
    }

    /**
     * The state of the bullet loop before bullet i - 1 moves, for the list
     * bs it started from: the bullets before i are still those of bs, the
     * rest are the survivors of bs from i on, and the bullets of bs from i
     * on have made their move.
     */
    ghost predicate Pass(i: nat, bs: seq<Bullet>, start: seq<Flight>, base: seq<Wall>,
                         cos: real -> real, sin: real -> real, atan2: (real, real) -> real)
      reads this, players, bullets, bs
    {
      && Valid() && i <= |bullets| && i <= |bs|
      && bullets[..i] == bs[..i] && bullets[i..] == Survivors(bs[i..])
      && DistinctBullets(bs) && SameTiles(base, walls)
      && MovedFrom(i, bs, start, base, cos, sin, atan2)
    }

    /** One turn of the bullet loop: bullet i moves, and goes unless it is still in flight. */
    method StepNext(i: nat, cos: real -> real, sin: real -> real, atan2: (real, real) -> real,
                    ghost bs: seq<Bullet>, ghost start: seq<Flight>, ghost base: seq<Wall>)
      requires i < |bs| && Pass(i + 1, bs, start, base, cos, sin, atan2)
      modifies this, bs[i]
      ensures Pass(i, bs, start, base, cos, sin, atan2)
      ensures gameOver == old(gameOver) && winner == old(winner)
    {
      assert bullets[i] == bs[i];
      assert bullets[..i] == bs[..i];
      NotLater(bs, i);
      assert bs[i..] == [bs[i]] + bs[i + 1..];
      ghost var b, pre := bullets[i], walls;
      StepBullet(i, cos, sin, atan2, bs[i + 1..], base);
      assert b.State() == Stepped(start[i], pre, b.color, b.front, cos, sin, atan2);
      assert forall k | 0 <= k < |bs| && k != i :: bs[k] != b;
    }

    /** The bullet loop of a frame, from the last bullet down. */
    method MoveBullets(cos: real -> real, sin: real -> real, atan2: (real, real) -> real)
      requires Valid()
      modifies this, bullets
      ensures Valid()
      ensures bullets == Survivors(old(bullets))
      ensures forall b | b in bullets :: b in old(bullets) && b.active && OnScreen(b.x, b.y)
      ensures SameTiles(old(walls), walls)
      ensures MovedFrom(0, old(bullets), old(Flights(bullets)), old(walls), cos, sin, atan2)
      ensures gameOver == old(gameOver) && winner == old(winner)
    {
      ghost var start := Flights(bullets);
      var i: nat := |bullets|;
      while i > 0
        invariant Pass(i, old(bullets), start, old(walls), cos, sin, atan2)
        invariant gameOver == old(gameOver) && winner == old(winner)
      {
        i := i - 1;
        StepNext(i, cos, sin, atan2, old(bullets), start, old(walls));
      }
      SurvivorsKept(old(bullets));
    }

    /** Player k's shield absorbs bullet i: the bullet detonates and goes, and the shield drops into a one-second cooldown. */
    method Absorb(i: nat, k: nat, now: real)
      requires Valid() && i < |bullets| && k < 2
      modifies this, players[k]
      ensures Valid()
      ensures bullets == old(bullets[..i] + bullets[i + 1..])
      ensures walls == Recolor(old(walls), old(bullets[i].x), old(bullets[i].y), old(bullets[i].trailColor))
      ensures gameOver == old(gameOver) && winner == old(winner)
      ensures players[k].Figure() == old(players[k].Figure())
      ensures old(players[k].shieldActive) ==>
        players[k].Shield() == ShieldState(false, false, old(players[k].shieldStartTime),
          RemainingAt(old(players[k].shieldStartTime), now), SHIELD_COOLDOWN)
    {
      var b := bullets[i];
      walls := b.Explode(walls);
      SpliceDistinct(bullets, i);
      bullets := bullets[..i] + bullets[i + 1..];
      var shielded := players[k];
      shielded.DeactivateShield(now);
      shielded.shieldCooldown := SHIELD_COOLDOWN;
    }

    /**
     * Bullet i strikes the player who did not fire it: ten health off, the
     * bullet detonates and goes, and when the target has nothing left the
     * game is over and the shooter's side wins.
     */
    method Strike(i: nat)
      requires Valid() && i < |bullets|
      modifies this, players[1 - bullets[i].owner]
      ensures Valid()
      ensures var t, b := 1 - old(bullets[i].owner), old(bullets[i]);
        && bullets == old(bullets[..i] + bullets[i + 1..])
        && walls == Recolor(old(walls), old(b.x), old(b.y), b.trailColor)
        && players[t].Figure() == old(players[t].Figure()).(health := old(players[t].health) - DAMAGE)
        && players[t].Shield() == old(players[t].Shield())
        && gameOver == (old(gameOver) || players[t].health <= 0)
        && winner == if players[t].health <= 0 then Some(b.owner) else old(winner)
    {
      var b := bullets[i];
      var target := players[1 - b.owner];
      target.health := target.health - DAMAGE;
      walls := b.Explode(walls);
      SpliceDistinct(bullets, i);
      bullets := bullets[..i] + bullets[i + 1..];
      if target.health <= 0 {
        gameOver := true;
        winner := Some(b.owner);
      }
    }

    /**
     * The hit test for bullet i. A bullet younger than 0.2 s is skipped.
     * Otherwise player1's shield, then player2's, absorbs it when up and
     * holding it, whoever fired it; failing that it can only hurt the player
     * who did not fire it; failing that it flies on. Nobody moves.
     */
    method ResolveBullet(i: nat, now: real) returns (o: Resolution)
      requires Valid() && i < |bullets|
      modifies this, players
      ensures Valid()
      ensures o == Young <==> !old(bullets[i]).IsActive(now)
      ensures o == Young || o == Missed ==>
        bullets == old(bullets) && walls == old(walls) && gameOver == old(gameOver) && winner == old(winner)
      ensures o.Absorbed? || o.Struck? ==>
        bullets == old(bullets[..i] + bullets[i + 1..])
        && walls == Recolor(old(walls), old(bullets[i].x), old(bullets[i].y), old(bullets[i].trailColor))
      ensures o == Young ==> forall j | 0 <= j < 2 :: players[j].Shield() == old(players[j].Shield())
      ensures o.Absorbed? ==>
        && o.shield < 2 && gameOver == old(gameOver) && winner == old(winner)
        && Up(old(players[o.shield].Shield()), now)
        && InShield(players[o.shield].x, players[o.shield].y, old(bullets[i].x), old(bullets[i].y))
        && players[o.shield].Shield() == ShieldState(false, false, old(players[o.shield].shieldStartTime),
             RemainingAt(old(players[o.shield].shieldStartTime), now), SHIELD_COOLDOWN)
      ensures o == Absorbed(1) ==>
        !(Up(old(players[0].Shield()), now) && InShield(players[0].x, players[0].y, old(bullets[i].x), old(bullets[i].y)))
        && players[0].Shield() == Expire(old(players[0].Shield()), now)
      ensures o == Absorbed(0) ==> players[1].Shield() == old(players[1].Shield())
      ensures o.Struck? || o == Missed ==> forall j | 0 <= j < 2 ::
        !(Up(old(players[j].Shield()), now) && InShield(players[j].x, players[j].y, old(bullets[i].x), old(bullets[i].y)))
        && players[j].Shield() == Expire(old(players[j].Shield()), now)
      ensures o.Struck? ==>
        && o.target == 1 - old(bullets[i].owner)
        && Touches(players[o.target].x, players[o.target].y, old(bullets[i].x), old(bullets[i].y))
      ensures o == Missed ==>
        !Touches(players[1 - old(bullets[i].owner)].x, players[1 - old(bullets[i].owner)].y, old(bullets[i].x), old(bullets[i].y))
      ensures forall j | 0 <= j < 2 ::
        players[j].Figure() == old(players[j].Figure()).(health := old(players[j].health) - (if o == Struck(j) then DAMAGE else 0))
      ensures o.Struck? ==>
        && gameOver == (old(gameOver) || players[o.target].health <= 0)
        && winner == if players[o.target].health <= 0 then Some(old(bullets[i].owner)) else old(winner)
    {
      var b := bullets[i];
      if !b.IsActive(now) {
        return Young;
      }
      var k := ScanShields(players, b.x, b.y, now);
      if k < 2 {
        Absorb(i, k, now);
        return Absorbed(k);
      }
      var t := 1 - b.owner;
      if Dist2(b.x, b.y, players[t].x, players[t].y) < (PLAYER_SIZE + RADIUS) * (PLAYER_SIZE + RADIUS) {
        Strike(i);
        return Struck(t);
      }
      return Missed;
    }

    /**
     * The hit test for bullet i, as the hit loop sees it: the bullet stays or
     * goes, a young one stays, the walls keep their tiles, a health falls by
     * ten or not at all, nobody moves, and a decided game stays decided.
     */
    method HitStep(i: nat, now: real)
      requires Valid() && i < |bullets|
      modifies this, players
      ensures Valid()
      ensures bullets == old(bullets) || bullets == old(bullets[..i] + bullets[i + 1..])
      ensures !old(bullets[i]).IsActive(now) ==> bullets == old(bullets)
      ensures SameTiles(old(walls), walls)
      ensures forall j | 0 <= j < 2 ::
        players[j].health == old(players[j].health) || players[j].health == old(players[j].health) - DAMAGE
      ensures forall j | 0 <= j < 2 ::
        players[j].x == old(players[j].x) && players[j].y == old(players[j].y) && players[j].angle == old(players[j].angle)
      ensures old(gameOver) ==> gameOver
      ensures old(Decided()) ==> Decided()
      ensures gameOver && !old(gameOver) ==> Decided()
    {
      ghost var before := bullets;
      ghost var w := walls;
      var o := ResolveBullet(i, now);
      if o.Absorbed? || o.Struck? {
        RecolorSameTiles(w, w, before[i].x, before[i].y, before[i].trailColor);
      }
    }

    /**
     * The hit loop of a frame, from the last bullet down. Bullets only go,
     * young ones all stay, healths only fall and only in steps of ten, the
     * walls keep their tiles, and a game that ends here names as winner the
     * side whose opponent is out of health.
     */
    method ResolveHits(now: real)
      requires Valid()
      modifies this, players
      ensures Valid()
      ensures forall b | b in bullets :: b in old(bullets)
      ensures forall b | b in old(bullets) && !b.IsActive(now) :: b in bullets
      ensures SameTiles(old(walls), walls)
      ensures forall j | 0 <= j < 2 ::
        players[j].health <= old(players[j].health) && (old(players[j].health) - players[j].health) % DAMAGE == 0
      ensures forall j | 0 <= j < 2 ::
        players[j].x == old(players[j].x) && players[j].y == old(players[j].y) && players[j].angle == old(players[j].angle)
      ensures old(gameOver) ==> gameOver
      ensures gameOver && !old(gameOver) ==> Decided()
    {
      var i := |bullets|;
      while i > 0
        invariant 0 <= i <= |bullets|
        invariant bullets[..i] == old(bullets)[..i]
        invariant Valid()
        invariant forall b | b in bullets :: b in old(bullets)
        invariant forall b | b in old(bullets)[i..] && !b.IsActive(now) :: b in bullets
        invariant SameTiles(old(walls), walls)
        invariant forall j | 0 <= j < 2 ::
          players[j].health <= old(players[j].health) && (old(players[j].health) - players[j].health) % DAMAGE == 0
        invariant forall j | 0 <= j < 2 ::
          players[j].x == old(players[j].x) && players[j].y == old(players[j].y) && players[j].angle == old(players[j].angle)
        invariant old(gameOver) ==> gameOver
        invariant gameOver && !old(gameOver) ==> Decided()
      {
        i := i - 1;
        ghost var w := walls;
        HitStep(i, now);
        SameTilesTrans(old(walls), w, walls);
      }
    }

    /** player1 and then player2 move against the walls; nothing else changes. */
    method MovePair()
      requires Valid()
      modifies players
      ensures Valid()
      ensures forall j | 0 <= j < 2 ::
        && players[j].Figure() == Moved(old(players[j].Figure()),
             players[j].StoppedFrom(walls, old(players[j].Figure())))
        && players[j].Shield() == old(players[j].Shield())
    {
      players[0].Move(walls);
      players[1].Move(walls);
    }

    /**
     * The part of a frame that runs while the game is on: the players move,
     * the bullets move and the hit test runs.
     */
    method Play(now: real, cos: real -> real, sin: real -> real, atan2: (real, real) -> real)
      requires Valid() && !gameOver
      modifies this, players, bullets
      ensures Valid()
      ensures SameTiles(old(walls), walls)
      ensures forall b | b in bullets :: b in old(bullets)
      ensures forall j | 0 <= j < 2 :: players[j].health <= old(players[j].health)
      ensures gameOver ==> Decided()
    {
      MovePair();
      MoveBullets(cos, sin, atan2);
      ResolveHits(now);
    }

    /**
     * One frame: the game part while the game is on; then, finished or not,
     * player1 and player2 are drawn, which expires a shield that has run its
     * course, and both lower their cooldowns.
     */
    method Tick(dt: real, now: real, cos: real -> real, sin: real -> real, atan2: (real, real) -> real)
      requires Valid()
      modifies this, players, bullets
      ensures Valid()
      ensures old(gameOver) ==> gameOver && walls == old(walls) && bullets == old(bullets) && winner == old(winner)
      ensures old(gameOver) ==> forall j | 0 <= j < 2 ::
        players[j].Figure() == old(players[j].Figure())
        && players[j].Shield() == Cooled(Expire(old(players[j].Shield()), now), dt)
      ensures forall j | 0 <= j < 2 :: !players[j].shieldActive || !players[j].shieldButtonPressed || Up(players[j].Shield(), now)
      ensures SameTiles(old(walls), walls)
      ensures forall b | b in bullets :: b in old(bullets) && b.active
      ensures forall j | 0 <= j < 2 :: players[j].health <= old(players[j].health)
      ensures gameOver && !old(gameOver) ==> Decided()
    {
      if !gameOver {
        Play(now, cos, sin, atan2);
      }
      var up1 := players[0].IsShieldActive(now);
      var up2 := players[1].IsShieldActive(now);
      players[0].Update(dt);
      players[1].Update(dt);
    }
  }
}
