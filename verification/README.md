# shoot_to_move-game, modelled in Dafny

shoot_to_move-game is a top-down shooter played on an 800 x 600 canvas.
Players are triangles that move by recoil. Each shot pushes the shooter
backwards, and friction (0.95 per frame) slows them down again. The arena
is a maze of 20-pixel wall tiles. A wall has a type:

- Type 1 is solid.
- Type 2 is territory. It belongs to whoever recoloured it last, and stops
  players and bullets of the opposing colour.
- Type 3 reflects bullets.

A bullet that detonates recolours every territory tile whose centre is
within 25 pixels to its trail colour. A player's shield absorbs one bullet,
and a body hit costs 10 health.

The repository holds three copies of these rules, and this project models
all three:

- `html/script.js` is the twelve-player browser front end: modules `Arena`
  and `Controls`, together with the shared modules.
- `script.js` is the older two-player front end: module `Duel`.
- `html/server.js` is a WebSocket relay with one two-seat room and its own
  copy of the map generator: module `Relay`.

The shared modules:

- `Rules`: constants, colours, walls, containment, hostility and territory
  capture.
- `Oracle`: `Math.random` as a stream of draws.
- `Maze`: the generator pieces, which work on an `array2<int>` grid.
- `Pilot`: the `Player` class.
- `Shot`: the `Bullet` class.
- `Combat`: the hit geometry and the shield scan.

The model follows the source's form:

- State the source updates in place is a class with `modifies` clauses.
  This covers players, bullets, the match, the room and the maze grid.
- Each method is proved against specification functions such as `Recolor`,
  `Decide`, `Survivors`, `NormalizedAll` and `Deliveries`.
- Pure helpers are functions with lemmas.

Randomness, the clock and trigonometry are parameters:

- `Math.random` is the draw sequence of an `Oracle.Random` object.
- `Date.now()` is a `now` argument in milliseconds. One `now` stands for
  every clock reading within a frame or an event handler, although the
  source reads the clock afresh at each `isShieldActive` and `isActive`
  call; readings that far apart are taken to be equal.
- The frame time is `dt` in seconds.
- `Math.cos`, `Math.sin` and `Math.atan2` are function-valued arguments.
- Positions and timers are `real`.

The two front ends differ in several details, and the model keeps each
one:

- Containment: `html/script.js` tests tiles with strict bounds and
  `script.js` with closed bounds (`Rules.Edges`).
- Trail: the bullet trail is a 50-point window in `html/script.js` and
  unbounded in `script.js`.
- Bounce: the bounce normal is axis-dominant in `html/script.js`. In
  `script.js` it comes from `atan2`, with no added pi.
- Wall types: the generator's types are weighted 1:3:1 in `html/script.js`
  and `html/server.js`, and uniform in `script.js`.
- Targets: in the twelve-player game a bullet may hit any player but its
  shooter, and the winner is the first player still standing. In the
  two-player game a bullet can only hurt the opponent, and the shooter
  wins.

`script.js`'s opening pass reads `hasWallAbove` and `hasWallLeft` outside
the block that declares them (`script.js:530-535` against `561` and
`589`). A round with a non-empty list of removable walls therefore throws a
ReferenceError. `Duel.GenerateMap` models this as a `Failure` carrying that
error. It proves that the failure happens exactly when some non-edge wall
has a clear axis after the dead-end pass.

## Model

| member | source | states |
|---|---|---|
| Rules.NewWall | html/script.js:320-326 | a new wall keeps its position and type; it is white exactly when it is of type 2, and has no colour otherwise |
| Rules.OpenInsideIsClosedInside | script.js:218-219 | a point inside a tile under the strict test of html/script.js is inside it under the closed test of script.js; the tile's corner separates the two |
| Rules.HostileOnlyForDuelColours | html/script.js:133-134 | only BLUE and RED entities find a territory wall hostile; white is hostile to both, and each side's own light colour is not |
| Rules.TrailColor | html/script.js:211 | the trail colour is LIGHT_BLUE exactly for BLUE bullets, LIGHT_RED for every other colour |
| Rules.RecolorExact | html/script.js:300-315 | a capture keeps every wall's position and type; only type-2 walls whose centre is within 25 change colour, and those take the trail colour |
| Rules.RecolorIdempotent | html/script.js:308-314 | detonating again at the same point changes nothing further |
| Oracle.Random.Next | html/server.js:96 | a draw consumes one value of the stream and lies in [0, 1) |
| Oracle.Scaled | html/script.js:577 | floor(r * n) for a draw r is a valid index below n |
| Oracle.EvenStart | html/script.js:481-482 | the DFS start coordinate is even, non-negative and below twice the slot count |
| Maze.GridSize | html/script.js:427-428 | the grid is 800/20 - 2 = 38 cells wide and 600/20 - 2 = 28 high |
| Maze.NewGrid | html/script.js:429 | a fresh 28 x 38 grid with every cell blocked |
| Maze.Open | html/script.js:437 | opening one cell removes exactly that cell from the blocked set |
| Maze.OpenPatch | html/script.js:437-447 | opening the 2 x 2 patch at a cell removes exactly the in-grid patch cells from the blocked set |
| Maze.Shuffle | html/script.js:451-454 | the Fisher-Yates shuffle permutes the directions and consumes one draw per step |
| Maze.Dfs | html/script.js:432-478 | cells only go from blocked to open, the visited cell's patch ends open, and each recursive call opens a blocked cell, which gives termination |
| Maze.CellWall | html/script.js:502 | the wall for grid cell (x, y) sits on tile ((x + 1) * 20, (y + 1) * 20) with the given type, white when of type 2 |
| Maze.OnCellInsideRing | html/script.js:502 | a cell's wall lies strictly inside the perimeter ring |
| Maze.LayPerimeter | html/script.js:416-424 | the perimeter loops produce exactly the 136 perimeter walls |
| Maze.PerimeterWalls | html/script.js:416-424 | there are 136 perimeter walls |
| Maze.PerimeterOnRing | html/script.js:416-424 | each perimeter wall is type 1, colourless and on the outer ring |
| Maze.PerimeterDistinct | html/script.js:416-424 | no two perimeter walls share a tile |
| Maze.PerimeterCoversRing | html/script.js:416-424 | every tile of the outer ring has a perimeter wall |
| Maze.PerimeterLayout | html/script.js:416-424 | the perimeter alone is a well-formed layout: ring first, no shared tiles |
| Maze.SpliceInterior | html/script.js:534 | removing an interior wall keeps the layout and removes exactly its cell from the wall cells |
| Maze.WeightedChoice | html/server.js:92-103 | the weighted-choice loop computes the threshold choice `Choose` |
| Maze.WeightedThresholds | html/server.js:92-103 | with rand in [0, 5) and weights [1, 3, 1] the type is 1 iff rand < 1, 2 iff 1 <= rand < 4, 3 otherwise |
| Maze.TypeForRange | script.js:471 | the weighted and the uniform choice both give a type in 1..3, never the placeholder 0 |
| Maze.PickType | html/script.js:490-501 | one draw per wall, turned into a type by the front end's rule |
| Maze.PlaceRow | html/script.js:487-504 | one row of the placement scan appends the walls of that row's blocked cells in order |
| Maze.PlaceWalls | html/script.js:486-505 | after the perimeter, one wall per blocked cell in row-major order, typed by successive draws; wall cells equal the blocked cells |
| Maze.CountOnesFour | html/script.js:512-518 | the neighbour count is the number of blocked neighbours among the four |
| Maze.SomeStepBlocked | html/script.js:519-540 | a dead end has a blocked neighbour in every ordering of the four steps |
| Maze.RemoveLastAt | html/script.js:531-537 | the backward search finds the last wall on the tile and splices it out, or leaves the list alone |
| Maze.OpenCell | html/script.js:528-537 | opening a blocked neighbour removes its cell and exactly its wall |
| Maze.OpenFirstBlocked | html/script.js:525-540 | the neighbour opened is the one step k of the shuffled order leads to, it was blocked, no earlier step leads to a blocked cell, it alone is opened, and its wall alone is spliced out |
| Maze.DeadEndStep | html/script.js:510-541 | a cell with at least three blocked neighbours opens one of them; any other cell changes nothing |
| Maze.DeadEndPass | html/script.js:508-544 | the row-major pass keeps one wall per blocked cell, and the walls removed equal the cells opened |
| Maze.PerimeterIsEdge | html/script.js:549-552 | no perimeter wall passes the non-edge filter |
| Maze.IndexOf | html/script.js:590 | indexOf returns the first position of the wall, or -1 exactly when it is absent |
| Maze.CandidatesExact | html/script.js:549-573 | a wall is among `Candidates` exactly when it is in the list, off the edge, with a clear axis; the list is empty exactly when no wall is a candidate |
| Maze.CollectCandidates | html/script.js:549-573 | the removable list is `Candidates` of the walls: every non-edge wall with a clear axis, in wall order, and nothing else |
| Maze.OpeningRound | html/script.js:549-654 | a round removes one candidate wall and opens its 2 x 2 patch when a candidate exists, else changes nothing; the wall removed is the first occurrence of the candidate at the drawn index; the adjacent-wall cascade never fires |
| Maze.OpeningRounds | html/script.js:547-655 | thirty rounds remove at most thirty walls and keep the layout |
| Maze.Normalized | html/script.js:657-664 | a non-edge wall becomes type 2 and white; a wall at an edge is kept as it is |
| Maze.Normalize | html/script.js:657-664 | the normalisation loop computes `NormalizedAll` |
| Maze.NormalizedLayout | html/script.js:657-664 | normalisation keeps the layout and the wall cells, and applying it twice is the same as once |
| Arena.GenerateMap | html/script.js:414-667 | the perimeter survives at the head of the list, no two walls share a tile, every non-edge wall is white territory, and every type is in 1..3 |
| Pilot.Clamp | html/script.js:150-154 | the clamped coordinate lies in [0, hi] and equals the input when that already lies there |
| Pilot.RemainingAt | html/script.js:178 | the stored remaining shield time is never negative |
| Pilot.BudgetNeverGrows | html/script.js:162-180 | after an activate/deactivate pair the remaining time is max(0, r - elapsed), never more than before |
| Pilot.ActivationElapsed | html/script.js:166-170 | activation back-dates the start so that the elapsed time is 5 - r, or 0 for a fresh shield |
| Pilot.Expire | html/script.js:182-193 | expiry only changes a shield that is no longer up |
| Pilot.ExpireFacts | html/script.js:182-193 | expiry changes the shield exactly when both flags are set and 5 s have passed; it is idempotent and does not change whether the shield is up |
| Pilot.Player.constructor | html/script.js:42-59 | a new player has the given position and colour, zero speed, 100 health and an idle shield |
| Pilot.Player.Move | html/script.js:120-155 | the position takes the prospective point unless a solid, reflective or hostile tile contains it; speed is scaled by 0.95; the position ends clamped to the screen |
| Pilot.Player.PushBack | html/script.js:157-160 | the recoil adds force * (cos, sin) of the angle to the speed and nothing else |
| Pilot.Player.ActivateShield | html/script.js:162-172 | a no-op while active or cooling down; otherwise the shield starts so that elapsed = 5 - remaining |
| Pilot.Player.DeactivateShield | html/script.js:174-180 | an active shield stores max(0, 5 - elapsed) in [0, 5] and clears both flags; an inactive one is untouched |
| Pilot.Player.IsShieldActive | html/script.js:182-193 | the answer is whether the shield is up, and the state afterwards is the expiry of the old state |
| Pilot.Player.Update | html/script.js:195-199 | the cooldown drops by dt only while it is positive; nothing else changes |
| Shot.Decide | html/script.js:224-258 | a bounce outcome names a reflective wall, in the list, that contains the prospective point |
| Shot.DecideAgreesWithObstructs | html/script.js:224-258 | the move is free exactly when no wall obstructs the point; a stop names a solid or hostile territory wall that contains it |
| Shot.AxisNormal | html/script.js:244-251 | the bounce normal is pi, 0, pi/2 or -pi/2 |
| Shot.ReflectTwice | html/script.js:253 | reflecting twice off the same wall at the same point restores the angle |
| Shot.PushedWindow | html/script.js:266-270 | the trail keeps the last min(n + 1, 50) points, oldest dropped first, newest last |
| Shot.FloorOf | html/script.js:266 | the recorded point is the floor of the position |
| Shot.Bullet.constructor | html/script.js:204-216 | a new bullet is active, at the shooter's point, with a one-point trail and the trail colour of its colour |
| Shot.Bullet.IsActiveMonotone | html/script.js:296-298 | once a bullet is old enough to hit, it stays so |
| Shot.Bullet.Explode | html/script.js:300-315 | the wall list afterwards is the capture `Recolor` at the bullet's position |
| Shot.SteppedOutcomes | html/script.js:218-273 | for an active bullet: a free move advances by one step and pushes the floored point; a stop deactivates in place; a bounce changes only the angle, to the reflection off the named wall |
| Shot.SteppedFacts | html/script.js:218-273 | a move never revives a bullet, leaves an inactive one as it is, keeps the position or advances it one step, and a changed angle only happens in place |
| Shot.SteppedOverFacts | html/script.js:218-273 | a move against any repainting of the same tiles keeps those facts: no revival, inactive bullets unchanged, position kept or advanced one step |
| Shot.Bullet.Scan | html/script.js:224-258 | the outcome of the wall scan is `Decide` of the walls at the prospective point |
| Shot.Bullet.Advance | html/script.js:263-271 | only position and trail change: the bullet is at the new point and the floored point is pushed onto the trail |
| Shot.Bullet.Move | html/script.js:218-273 | the new flight is `Stepped` of the old one against the walls; the walls are recoloured at the unmoved point exactly when an active bullet stops, and are otherwise returned as they were |
| Combat.Dist2 | html/script.js:1534 | the squared distance is never negative |
| Combat.TouchesWithinShield | html/script.js:1534 | a point close enough to hit a body is within that body's shield radius |
| Combat.ScanShields | html/script.js:1532-1543 | the scan stops at the first player whose shield is up and covers the bullet; the players scanned have their shields expired; positions never change |
| Combat.SurvivorsKept | html/script.js:1515-1524 | every bullet kept by the removal pass is active and on screen |
| Arena.Match.constructor | html/script.js:1038-1041 | a new match holds the given players and walls, no bullets, and is not over |
| Arena.Match.FindWinner | html/script.js:1558-1564 | the winner is the first player whose health is above zero, or none |
| Arena.Match.FindTarget | html/script.js:1547-1550 | the target is the first non-owner whose body the bullet touches, or none |
| Arena.Match.Fire | html/script.js:1100-1272 | the shoot key (lines 1100-1102, checkShield) and the touch shoot button (lines 1270-1272, no check): when the game runs and, for the key, the shield is not up, a fresh active bullet leaves the shooter's point at angle + pi and the shooter recoils by 2; only the key asks for the shield, which may expire it |
| Arena.Match.MovePlayers | html/script.js:1505-1512 | each player moves by the movement rule and cools its shield down; nothing else changes |
| Arena.Match.Advance | html/script.js:1516-1518 | bullet i's new flight is `Stepped` of its old one against the walls; walls change only by its capture when it stops |
| Arena.Match.StepBullet | html/script.js:1516-1523 | bullet i's new flight is `Stepped` of its old one against the walls before the move; it stays in the list exactly when it is active and on screen; walls change only by that bullet's capture |
| Arena.Match.Prune | html/script.js:1519-1522 | the bullet is removed exactly when it is inactive or off the screen, without exploding |
| Arena.Match.StepNext | html/script.js:1515-1524 | one turn of the loop takes the pass from bullet i + 1 to bullet i: bullet i has made its `Stepped` move, the later ones keep theirs, the earlier ones are untouched |
| Arena.Match.MoveBullets | html/script.js:1515-1524 | every bullet of the old list has made one `Stepped` move of its old flight against a wall list with the same tiles as the old walls (`MovedFrom`); the surviving bullets are `Survivors` of the moved ones, all active and on screen; walls only change colour |
| Arena.Match.Absorb | html/script.js:1535-1538 | the bullet is removed after capturing at its position; the shield goes down with the stored remaining time and cooldown 1 |
| Arena.Match.Strike | html/script.js:1550-1565 | the target loses exactly 10; game over iff its health is now at most 0; the winner is then the first player still alive |
| Arena.Match.ResolveBullet | html/script.js:1527-1569 | young bullets are skipped; otherwise the first shield that covers the bullet absorbs it, else the first touched non-owner takes 10, else nothing happens |
| Arena.Match.HitStep | html/script.js:1527-1569 | one pass of the hit loop removes at most that bullet, costs each player 0 or 10 health, and sets game over only after some health reaches 0 |
| Arena.Match.ResolveHits | html/script.js:1526-1570 | after the pass, young bullets are all still there, health only drops in steps of 10, positions are unchanged, and game over is set only after some health reaches 0 |
| Arena.Match.Motion | html/script.js:1505-1524 | players then bullets move: walls only change colour, no bullet is added and no health changes |
| Arena.Match.Play | html/script.js:1496-1570 | one running frame: walls only change colour, the bullets kept are active, and health never rises |
| Arena.Match.DrawPlayers | html/script.js:1574-1579 | drawing each player asks for its shield, which expires every shield that has run its course and leaves bodies alone |
| Arena.Match.Tick | html/script.js:1486-1579 | a finished game keeps bodies, walls, bullets and winner and only expires shields; either way no shield is left on past its duration, walls only change colour, the bullets kept are active, and health never rises |
| Controls.NatToString | html/script.js:1233 | the decimal text of a number is never empty |
| Controls.TrimStart | html/script.js:1231 | parseInt's leading whitespace skip drops a prefix made only of whitespace and leaves a suffix that does not start with whitespace |
| Controls.LeadingDigits | html/script.js:1231 | the digit run is the longest prefix of digits in the radix |
| Controls.ParseNatToString | html/script.js:1231-1233 | parseInt reads back the decimal text of every number |
| Controls.NatToStringInjective | html/script.js:776-779 | different numbers have different decimal texts |
| Controls.MouseLabel | html/script.js:1232-1233 | a named button shows its name; any other shows the generic label followed by exactly its number, or NaN when no number was parsed |
| Controls.GetDisplayValue | html/script.js:1229-1240 | wheel values show their wheel labels, and values that are neither mouse nor wheel show themselves |
| Controls.MouseLabelRoundTrip | html/script.js:932-933 | the label getDisplayValue gives for a captured mouse button equals the label shown at capture time |
| Controls.WheelLabelRoundTrip | html/script.js:948-949 | the label getDisplayValue gives for a captured wheel direction equals the label shown at capture time |
| Controls.UnnumberedMouse | html/script.js:1231-1233 | a value that starts with mouse but has no number shows the generic label with NaN |
| Controls.NoLeadingDigit | html/script.js:1231 | text that starts with no sign, space or decimal digit parses to NaN |
| Controls.TouchButtonsDisjoint | html/script.js:1025-1032 | no touch presses two touch buttons, so a press names one player and one action |
| Controls.EdgeNotPressed | html/script.js:407-410 | a touch on a button's left or right edge does not press it |
| Controls.StrictPressIsClosedPress | script.js:388-391 | a press under the strict test is one under script.js's closed test; a button's corner presses it only under the closed test |
| Controls.LowerButtonsOffCanvas | html/script.js:1025-1032 | from the seventh player on, both touch buttons lie below the 600-pixel canvas |
| Controls.InitializePlayers | html/script.js:771-782 | slot i gets number i + 1, its name, and the colour and default keys at i in their tables, cycling |
| Controls.ColoursDistinct | html/script.js:670-683 | the twelve player colours are distinct, the first two are BLUE and RED, and no later one is BLUE or RED |
| Controls.SlotNamesDistinct | html/script.js:776-779 | the twelve slot names are distinct |
| Duel.CandidateIsStuck | script.js:523-541 | the removable list is non-empty exactly when some non-edge wall has no blocked cell above and below, or none left and right |
| Duel.Carve | script.js:397-512 | perimeter, carving from an even start, uniform types and the dead-end pass give one wall per blocked cell |
| Duel.OpeningRounds | script.js:515-561 | the first round throws exactly when its removable list is non-empty; a map with none is left unchanged |
| Duel.GenerateMap | script.js:395-628 | the generator fails with the ReferenceError exactly when a removable wall exists; otherwise it returns the normalised map, which keeps the wall cells |
| Duel.NormalizedNotStuck | script.js:619-626 | when no wall was removable, no non-edge wall of the normalised map has a clear axis |
| Duel.Match.constructor | script.js:647-668 | player 1 is BLUE at (200, 300) and player 2 is RED at (600, 300); no bullets; the game is not over |
| Duel.Match.Fire | script.js:864-872 | while the game runs, a fresh bullet leaves the shooter's point at angle + pi and the shooter recoils by 2; there is no shield check |
| Duel.Match.Advance | script.js:745-751 | bullet i's new flight is `Stepped` of its old one against the walls, and it is detonated once if it is still active but off the screen |
| Duel.Match.OffScreenBlast | script.js:747-751 | a bullet still active but off the screen detonates where it is; otherwise the walls stay |
| Duel.Match.StepBullet | script.js:744-754 | bullet i's new flight is `Stepped` of its old one against the walls before the move; it stays in the list exactly when it is active and on screen; a bullet already stopped by a wall is not exploded again |
| Duel.Match.Prune | script.js:747-753 | the bullet is removed exactly when it is inactive or off the screen |
| Duel.Match.StepNext | script.js:744-754 | one turn of the loop takes the pass from bullet i + 1 to bullet i: bullet i has made its `Stepped` move, the later ones keep theirs, the earlier ones are untouched |
| Duel.Match.MoveBullets | script.js:744-754 | every bullet of the old list has made one `Stepped` move of its old flight against a wall list with the same tiles as the old walls (`MovedFrom`); the kept bullets are `Survivors` of the moved ones, all active and on screen; walls only change colour |
| Duel.Match.Absorb | script.js:761-773 | the bullet is removed after capturing at its position; the shield goes down with cooldown 1 |
| Duel.Match.Strike | script.js:776-795 | the opponent of the shooter loses 10; at health 0 or less the game is over and the shooter's side wins |
| Duel.Match.ResolveBullet | script.js:759-796 | young bullets are ignored; player 1's shield is checked before player 2's; otherwise only the opponent can be hit |
| Duel.Match.HitStep | script.js:757-797 | one pass of the hit loop costs each player 0 or 10 health, and a game that ends is decided for the side whose opponent has fallen |
| Duel.Match.ResolveHits | script.js:757-797 | health only drops in steps of 10, positions are unchanged, young bullets remain, and an end is decided |
| Duel.Match.MovePair | script.js:740-741 | both players move by the movement rule of the closed-edge front end |
| Duel.Match.Play | script.js:739-798 | one running frame: walls only change colour, no bullet is created, health never rises, and an end is decided |
| Duel.Match.Tick | script.js:724-842 | a finished game keeps bodies, walls, bullets and winner, and each shield becomes its expiry at the frame's time, then cooled; either way no shield is left on past its duration and health never rises |
| Relay.GenerateMap | html/server.js:30-133 | the perimeter, then one wall per blocked cell in row-major order typed by successive draws, then normalisation |
| Relay.NormalizedIsServerMap | html/server.js:120-130 | the normalised map keeps the layout and has only white territory away from the edges |
| Relay.Deliveries | html/server.js:138-145 | a broadcast sends the message once to every client, in roster order |
| Relay.Without | html/server.js:191 | the filter keeps exactly the clients with other ids |
| Relay.WithoutAbsent | html/server.js:191 | closing a socket not in the roster leaves the roster unchanged |
| Relay.WithoutSeatedCount | html/server.js:191 | closing a seated socket shortens the roster by exactly one |
| Relay.Room.constructor | html/server.js:136 | a new room has no clients, an empty outbox and a generated map |
| Relay.Room.Broadcast | html/server.js:138-145 | the outbox grows by one delivery per client |
| Relay.Room.Connect | html/server.js:147-168 | with two clients a newcomer is told the room is full; otherwise it is seated as player1 iff the roster was empty, sent the map, and its join is broadcast |
| Relay.Room.OnMessage | html/server.js:170-188 | for a message on a seated connection, unparsable and unknown messages are dropped; state and event messages are broadcast stamped with the role of that connection's seat; restart replaces the map and broadcasts it |
| Relay.Room.OnClose | html/server.js:190-197 | the closing client is removed and the leave of the role its seat carried is broadcast; the map is kept unless the room is now empty |
| Relay.SeatAfterPlayer1Leaves | html/server.js:154 | after player1 leaves a full room, the next joiner is also player2 |

## Left out

- Drawing is not modelled: every `draw` method, the effect-canvas painting in
  `explode`, the status text and the pause overlay. Of `explode` only the
  wall recolouring is kept. Of a player's `draw` only its call to
  `isShieldActive` is kept, since that call can switch the shield off; the
  frames model it in `Arena.Match.DrawPlayers` and `Duel.Match.Tick`.
- The settings dialog and input plumbing are not modelled: `toggleSettings`,
  `updatePlayerSettings`, `startKeyCapture`, `captureKey`, `cleanupCapture`
  and `startGame`. The keyboard, mouse, wheel and touch listeners are not
  modelled either.
  - What a shoot handler does to the game is modelled by `Arena.Match.Fire`
    and `Duel.Match.Fire`. The twelve-player shoot key passes the shield
    check to `Arena.Match.Fire`; its touch shoot button does not, since the
    source fires from it without asking for the shield.
  - The capture handlers' labels appear only in the round-trip lemmas.
- Per-player lookups through `eval` and `getPlayerObject` are replaced by
  an indexed sequence of players.
- Aiming and rotation are not modelled: `rotate`, `atan2` aiming, and the
  `keys` rotation in `script.js`'s `gameLoop`.
  - That rotation reads an undefined `keys` (`script.js:726`).
  - That loop is never scheduled, since `script.js:949` only calls
    `initGame`.
  - Read as written, `keys['a']` at `script.js:726` throws a
    `ReferenceError` on every frame with `!game_over`, so nothing after it
    in that frame would run. `Duel.Match.Play` and `Duel.Match.Tick` model
    lines 738-842 as if that read did not throw, and leave the rotation at
    lines 725-737 out.
- Trigonometry and Pi are inputs, not computed:
  - `Math.cos`, `Math.sin` and `Math.atan2` are function-valued parameters.
  - Pi is the constant 3.141592653589793, and no proof depends on its value.
- `Joystick.update` is left out: it divides by a `hypot` norm, which is
  floating-point numerics.
- `Math.hypot` comparisons are modelled as squared-distance comparisons,
  which are equal on the reals.
- The `setTimeout` that releases a wheel-held shield after 100 ms is left
  out (`html/script.js:1203`).
- Real arithmetic stands in for IEEE-754 doubles. The 0.95 friction, the
  /1000 time conversions and the floor of trail points are exact here.
- `Controls.ParseInt`: precision limits for very long digit strings are not
  modelled. Whitespace is the ASCII set plus U+00A0, U+FEFF, U+2028
  and U+2029, not the other Unicode space separators JavaScript also skips.
- The network is not modelled: the WebSocket server, `send`, `close`,
  `JSON.stringify` and `JSON.parse`. An incoming message arrives already
  parsed, as `Option<Inbound>`.
  - A parsed value that is not an object (`null`, a number) is treated as
    an ignored message. The source would throw on `null`.
  - `readyState` is not modelled: every seated client counts as open.
  - The socket is identified by a numeric id.
- Walls are values in a sequence. In the source, the recolouring mutates
  Wall objects that the wall list shares, which is aliasing the model does
  not capture.
- Owners and winners are player indices rather than object references and
  display strings. Index 0 stands for "Player 1" or "玩家 1".
- Maze connectivity is not proved. Nothing is claimed about every open
  cell being reachable from every other.
- The twelve-player spawn table, the restart button and `initGame` are not
  modelled. `Arena.Match.constructor` takes the players as given.
- `Duel.GenerateMap`: when the ReferenceError is thrown, the grid and
  wall-list updates made earlier in that round are not part of the result.
  The caller never receives them.
- `Duel.OpeningRounds` models only the round that throws. A map with no
  removable wall runs all thirty rounds without change, and is left
  unchanged here.
