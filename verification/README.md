# Space Invaders simulation core in Dafny

This project models the simulation core of a browser Space Invaders game:
- the sprite entities of `src/app/game-objects`: `GameObject`, `MovableGameObject`, `Battleship`, `Bullet`, `Enemy` and `Explosion`;
- the orchestrator `GameLogicService` of `src/app/services/game-logic.service.ts`. It holds players, enemies, bullet queues and explosions. It moves them on a fixed canvas, detects hits, keeps scores and lives, and steers level and difficulty.

Each entity file is one module with two parts:
- A value datatype (`BattleshipState`, `BulletState`, …) with pure functions for its transition rules, and lemmas about them.
- A `class` with the entity's fields, whose methods update those fields. Each method's `ensures` ties the new state to the function of the old state.

The frame animation every entity inherits is the `Clock` of `GameObjects`.
Its lemmas give the frame shown after any number of updates, and the period.

The service state is the datatype `Scenes.Scene`. Its transitions are functions in four modules:
- `Scenes`: players, firing, levels, sound.
- `Formation`: enemy rows and the marching formation.
- `Volleys`: bullet sweeps and animation.
- `Collisions`: hits.

`GameLogic.GameLogicService` is the imperative service:
- fields hold the scene, and the loops of the source are `while` loops;
- each method's `ensures` says that the new state is the scene function applied to the old state;
- every public method keeps the invariant `Consistent`. That means:
  - the player order lists exactly the players, once each;
  - each player has a bullet queue;
  - the counters stay within the ranges the difficulty rules allow;
  - lives and scores are never negative;
  - every animation clock is well formed.

Where the code and its documented design differ, the model follows the code:

- **Enemies per row.** The loop runs while `i * (w + 10) < W - 2w`, so it places the ceiling of `(W - 2w) / (w + 10)` enemies, not the floor (`Formation.CeilingNotFloor`: 10 rather than 9 for a 64-pixel sprite on an 800-pixel field).
- **Difficulty caps.** The guards `<= 7`, `>= 50` and `>= 10` stop the settings at 8 rows, 40 shot ticks and 5 move ticks (`Scenes.Progression`, `Scenes.FullDifficulty`).
- **Enemy removal skips.** The player-bullet check walks the enemies with `for … of` and splices a hit enemy out, so the enemy that moves into the freed slot is not checked in that pass (`Collisions.ShiftedEnemySkipped`).
- **Bullet removal skips.** Removing a bullet inside a `for … of` walk skips the bullet that moves into the freed slot. A pass over a queue of stuck bullets therefore removes only every other one (`Volleys.SweepEdgeBacklog`).
- **A second hit on a removed enemy.** When a second bullet hits an enemy already removed in the same pass, `indexOf` gives -1 and `splice(-1, 1)` removes the last enemy instead (`Collisions.StaleEnemyRemovesLast`). Both hits score, and both explosions start at the first enemy's position.
- **Shot counter without enemies.** The enemy shot counter increases even when there is no enemy. Once it passes the threshold it never equals it again until the difficulty resets it (`Scenes.ShotCounterPastThreshold`).
- **Enemy boundaries.** An enemy moving down reports the lower boundary from its top edge, while its move tests the bottom edge. A refused downward move can therefore go unreported (`Enemies.DownRefusalUnreported`). An enemy moving up reports no boundary and does not move.
- **Boundary callbacks.** `Bullet.move` calls its boundary callback in the condition of an `else if` and again only when that call returns a truthy value. The service's callbacks return nothing, so each blocked bullet is spliced out once (`Bullets.MoveBullet` reports `AtBoundary` once).
- **Finished explosions.** An explosion on its last frame reports completion on every update and never advances (`Explosions.FrozenAtEnd`).

## Model

| member | source | states |
|---|---|---|
| GameObjects.FrameWidth | src/app/game-objects/GameObject.ts:24 | the frame width is the sheet width divided by the frame count, exactly: width times frames gives the sheet width back |
| GameObjects.StartClock | src/app/game-objects/GameObject.ts:4-5 | a new object shows frame 0 with no ticks counted, and its clock is well formed |
| GameObjects.Tick | src/app/game-objects/GameObject.ts:48-54 | one update keeps the clock well formed; either the tick count goes up by one on the same frame, or it resets to 0 on a new frame |
| GameObjects.TicksStayValid | src/app/game-objects/GameObject.ts:48-54 | any number of updates keeps the clock well formed (frame index below the frame count) and a non-negative tick count non-negative; after at least one update the tick count is 0 or at most the frame delay |
| GameObjects.TicksAdd | src/app/game-objects/GameObject.ts:48-54 | a+b updates equal a updates followed by b updates |
| GameObjects.TicksWithinFrame | src/app/game-objects/GameObject.ts:49-50 | from the start of a frame, up to ticksPerFrame updates only count ticks |
| GameObjects.TicksWholeFrame | src/app/game-objects/GameObject.ts:49-53 | ticksPerFrame+1 updates from the start of a frame move to the start of the next frame (wrapping after the last) |
| GameObjects.FrameStart | src/app/game-objects/GameObject.ts:48-54 | after q frames' worth of updates a fresh clock is at the start of frame q |
| GameObjects.ClockPhase | src/app/game-objects/GameObject.ts:48-54 | after q*(T+1)+r updates a fresh clock shows frame q with r ticks counted |
| GameObjects.ClockPeriod | src/app/game-objects/GameObject.ts:52 | after frames*(T+1) updates a fresh clock is back at its start: the animation loops |
| GameObjects.NoDelayAdvancesEveryUpdate | src/app/game-objects/GameObject.ts:21 | with the default delay of 0, update number q shows frame q |
| GameObjects.GameObject.constructor | src/app/game-objects/GameObject.ts:15-26 | position as given, frame width times frames equals the sheet width, height is the sheet height, fresh clock |
| GameObjects.GameObject.Update | src/app/game-objects/GameObject.ts:48-54 | the clock takes one tick and the position is unchanged |
| GameObjects.GameObject.SourceX | src/app/game-objects/GameObject.ts:31-43 | the source rectangle that render draws starts at frameIndex times the frame width and lies inside the sprite sheet |
| Battleships.NewBattleship | src/app/game-objects/Battleship.ts:17-28 | the ship is centred on x and stands on y; score 0, 3 lives, fresh clock |
| Battleships.ShipMoved | src/app/game-objects/Battleship.ts:34-47 | only x changes, by one step of 4; left is refused unless x-4 > 0, right unless x+4+width < canvas width; up and down do nothing |
| Battleships.MovesStayInField | src/app/game-objects/Battleship.ts:34-47 | a ship inside the field stays inside and on its row through any sequence of moves |
| Battleships.ScoreSubtracted | src/app/game-objects/Battleship.ts:61-68 | the score becomes exactly max(0, score - points): lowered by the points when that stays at or above 0, otherwise 0; nothing else changes |
| Battleships.LifeRemoved | src/app/game-objects/Battleship.ts:80-84 | a life is taken only while lives are above 0 |
| Battleships.ScoreNeverNegative | src/app/game-objects/Battleship.spec.ts:54-59 | from a non-negative score, any sequence of non-negative gains and of losses of any size leaves a non-negative score |
| Battleships.LivesRunOut | src/app/game-objects/Battleship.spec.ts:75-83 | n removals leave max(0, lives - n) and change nothing else |
| Battleships.Battleship.constructor | src/app/game-objects/Battleship.ts:17-28 | the ship's state is NewBattleship for the image, position and frames |
| Battleships.Battleship.Move | src/app/game-objects/Battleship.ts:34-47 | the new state is ShipMoved of the old one |
| Battleships.Battleship.AddToScore | src/app/game-objects/Battleship.ts:53-55 | the points are added to the score |
| Battleships.Battleship.SubtractFromScore | src/app/game-objects/Battleship.ts:61-68 | the new state is ScoreSubtracted of the old one |
| Battleships.Battleship.AddLife | src/app/game-objects/Battleship.ts:73-75 | one life is added |
| Battleships.Battleship.RemoveLife | src/app/game-objects/Battleship.ts:80-84 | the new state is LifeRemoved of the old one |
| Bullets.NewBullet | src/app/game-objects/Bullet.ts:13-20 | a single-frame bullet at the given position with the image's size |
| Bullets.MoveBullet | src/app/game-objects/Bullet.ts:27-44 | up reports the boundary iff y-2 <= 0 and down iff y+2 >= canvas height; otherwise the bullet moves 2 and stays inside; a blocked bullet and left/right leave it unchanged |
| Bullets.IntersectsSound | src/app/game-objects/Bullet.ts:53-61 | a reported intersection means the bullet and the box overlap |
| Bullets.IntersectsComplete | src/app/game-objects/Bullet.ts:53-61 | a bullet no larger than the box and overlapping it is reported |
| Bullets.CoveringBulletMisses | src/app/game-objects/Bullet.ts:53-61 | a bullet that wholly covers a smaller box is not reported, although they overlap |
| Bullets.ShortBulletMissesBoxBelow | src/app/game-objects/Bullet.spec.ts:55-58 | a bullet at (100, 600) shorter than 20 pixels does not meet the box at y 620 |
| Bullets.TravelUp | src/app/game-objects/Bullet.ts:27-44 | n unobstructed moves up lower y by 2n and change nothing else |
| Bullets.TravelDown | src/app/game-objects/Bullet.ts:27-44 | n unobstructed moves down raise y by 2n and change nothing else |
| Bullets.FourMovesFrom600 | src/app/game-objects/Bullet.spec.ts:21-45 | four moves from y 600 on an 800 canvas reach 592 going up and 608 going down, with x unchanged |
| Bullets.Bullet.constructor | src/app/game-objects/Bullet.ts:13-20 | the bullet's state is NewBullet |
| Bullets.Bullet.Move | src/app/game-objects/Bullet.ts:27-44 | the new state and the reported status are MoveBullet of the old state |
| Enemies.NewEnemy | src/app/game-objects/Enemy.ts:18-29 | position, hit score and direction as given; frame width times frames equals the sheet width; fresh clock |
| Enemies.MoveEnemy | src/app/game-objects/Enemy.ts:34-52 | one step of 6 sideways or 10 down in the enemy's direction, taken only when it stays inside the canvas; up never moves |
| Enemies.LateralBoundaryIsRefusedMove | src/app/game-objects/Enemy.ts:57-66 | moving left or right, the boundary is reported iff the move is refused |
| Enemies.DownBoundaryRefusesMove | src/app/game-objects/Enemy.ts:57-66 | moving down, a reported boundary means the move is refused |
| Enemies.DownRefusalUnreported | src/app/game-objects/Enemy.ts:46-64 | a downward move can be refused for the enemy's height while no boundary is reported |
| Enemies.MoveKeepsEdges | src/app/game-objects/Enemy.ts:34-52 | an enemy inside the canvas on a side stays inside on that side after a move |
| Enemies.RightMarch | src/app/game-objects/Enemy.spec.ts:38-58 | moving right, an enemy keeps its row, stays inside, moves 6n while room is left, and then stands at the edge and reports it |
| Enemies.LeftMarch | src/app/game-objects/Enemy.spec.ts:60-80 | the same to the left edge |
| Enemies.Enemy.constructor | src/app/game-objects/Enemy.ts:18-29 | the enemy's state is NewEnemy |
| Enemies.Enemy.Move | src/app/game-objects/Enemy.ts:34-52 | the new state is MoveEnemy of the old one |
| Enemies.Enemy.SetMovementDirection | src/app/game-objects/Enemy.ts:78-81 | only the direction changes |
| Explosions.NewExplosion | src/app/game-objects/Explosion.ts:5-14 | position as given, frame width from the sheet, fresh clock |
| Explosions.UpdateExplosion | src/app/game-objects/Explosion.ts:20-26 | completion is reported iff the last frame is shown, and then the explosion does not change; otherwise its clock ticks |
| Explosions.PlayPrefix | src/app/game-objects/Explosion.ts:20-26 | the statuses of m updates are a prefix of those of n >= m updates |
| Explosions.PlayFollowsClock | src/app/game-objects/Explosion.ts:20-26 | while the last frame is not reached, n updates all report progress and the clock has taken n ticks |
| Explosions.CompletionTiming | src/app/game-objects/Explosion.ts:20-26 | a fresh explosion first reports completion on update (frames-1)*(T+1)+1 and never before |
| Explosions.NoDelayFinishesOnLastUpdate | src/app/game-objects/Explosion.spec.ts:19-28 | with no delay, completion comes exactly on update number `frames` (32 updates for 32 frames) |
| Explosions.FrozenAtEnd | src/app/game-objects/Explosion.ts:21-22 | on its last frame an explosion reports completion on every update and stays as it is |
| Explosions.Explosion.constructor | src/app/game-objects/Explosion.ts:5-14 | the explosion's state is NewExplosion |
| Explosions.Explosion.Update | src/app/game-objects/Explosion.ts:20-26 | the new state and status are UpdateExplosion of the old state |
| Scenes.InitialScene | src/app/services/game-logic.service.ts:11-23 | the initial settings (4 rows, 20 move ticks, 90 shot ticks, level 1, no entities) satisfy the consistency invariant |
| Scenes.Remove | src/app/services/game-logic.service.ts:154-155 | splice(k, 1): one element fewer, those before k kept, those after shifted down by one |
| Scenes.SpawnPlayer | src/app/services/game-logic.service.ts:38-50 | the named ship is (re)placed centred on x, standing on y, with score 0, 3 lives and an empty bullet queue; a new name joins the order at the end; the invariant is kept |
| Scenes.TwoPlayers | src/app/services/game-logic.service.spec.ts:41-46 | spawning two names gives two players in spawn order |
| Scenes.UnloadedImageSpawn | src/app/services/game-logic.service.ts:38-50 | with a 0 by 0 image the ship stands exactly at the requested point |
| Scenes.MovePlayer | src/app/services/game-logic.service.ts:92-108 | the named ship takes one step; an unknown name changes nothing; the invariant is kept |
| Scenes.FireBullet | src/app/services/game-logic.service.ts:180-189 | a known player's queue gains exactly one bullet, NewBullet with its left edge on the ship's horizontal centre and its top on the ship's top; other queues are unchanged; an unknown name changes nothing |
| Scenes.FireMany | src/app/services/game-logic.service.spec.ts:65-73 | n shots by a known player add exactly n bullets to that player's queue and leave the players as they were |
| Scenes.FireEnemyShot | src/app/services/game-logic.service.ts:196-205 | the counter goes up; when it meets the threshold and enemies exist, it resets and the chosen enemy fires exactly one bullet, appended to the enemy bullets, whose left edge is on the enemy's horizontal centre and whose top is the enemy's top edge |
| Scenes.VolleyCounts | src/app/services/game-logic.service.ts:196-205 | calls that stay below the threshold only count |
| Scenes.ShotCadence | src/app/services/game-logic.service.spec.ts:75-84 | with enemies present, exactly one shot is fired in threshold-minus-counter calls, on the last call, which resets the counter |
| Scenes.VolleyPrefix | src/app/services/game-logic.service.ts:196-205 | a series of calls is its first part followed by the rest |
| Scenes.ShotCounterPastThreshold | src/app/services/game-logic.service.ts:197-198 | once past the threshold the counter only grows and no enemy ever fires |
| Scenes.NoEnemyAtThreshold | src/app/services/game-logic.service.ts:197-198 | reaching the threshold with no enemy fires nothing and does not reset the counter |
| Scenes.LevelUp | src/app/services/game-logic.service.ts:312-318 | the level goes up by one, every player queue is emptied and the enemy bullets are cleared; the invariant is kept |
| Scenes.Harder | src/app/services/game-logic.service.ts:323-335 | each setting moves at most one step towards its cap and never past it; a changed delay resets its counter |
| Scenes.Progression | src/app/services/game-logic.service.ts:323-335 | from the initial settings, level L has min(8, 4+L/2) rows, max(40, 90-10(L/3)) shot ticks and max(5, 20-5(L/5)) move ticks |
| Scenes.FullDifficulty | src/app/services/game-logic.service.ts:325-333 | from the 15th level on the settings are at their caps of 8, 40 and 5 |
| Scenes.SwitchSound | src/app/services/game-logic.service.ts:340-342 | only the mute flag changes, and it flips |
| Scenes.UniformScores | src/app/services/game-logic.service.ts:390-396 | with every listed player at score s the total is s times the number of players |
| Scenes.ScoreSumGain | src/app/services/game-logic.service.ts:390-396 | points added to one listed player raise the total by exactly those points |
| Formation.RowSizeIsLoopBound | src/app/services/game-logic.service.ts:76 | RowSize counts exactly the indices the spawning loop admits |
| Formation.CeilingNotFloor | src/app/services/game-logic.service.ts:76 | a 64-pixel sprite on an 800-pixel field gives 10 enemies, where the floor would give 9 |
| Formation.RowLayout | src/app/services/game-logic.service.ts:81-85 | enemy i of a row stands at x = i*(w+10) on the row's y, heads right with the row's hit score, lies inside the field with a sheet width to spare, and neighbours are w+10 apart so they never overlap |
| Formation.SpawnRow | src/app/services/game-logic.service.ts:75-86 | a row of RowSize enemies with the given hit score is appended on the row below the last enemy (or at the sheet height when there is none); earlier enemies are kept; the invariant is kept |
| Formation.SpawnRows | src/app/services/game-logic.service.ts:52-65 | rows are only appended and the invariant is kept |
| Formation.SpawnRowsCount | src/app/services/game-logic.service.ts:52-65 | the enemies added are the sum of the row sizes of the picked meta data |
| Formation.UniformRowsTotal | src/app/services/game-logic.service.ts:52-65 | with one sprite width, count rows give count times the row size |
| Formation.SpawnRowsAppend | src/app/services/game-logic.service.ts:52-65 | the enemies after spawning are the old enemies with the rows for indices i .. rowCount-1 appended in order, each row built from meta data entry index mod length one row below what came before |
| Formation.AppendRowsFirst | src/app/services/game-logic.service.ts:57-63 | the first row appended starts right after the existing enemies and is the Row of meta data entry i mod length at the next row's y |
| Formation.AppendRowsLayout | src/app/services/game-logic.service.ts:57-63 | row k starts after the existing enemies and the sizes of rows before it, and its j-th enemy is the j-th of the Row built from entry k mod length (sheet, hit score, frames, frame delay) one row below the enemies before it |
| Formation.FourEqualRows | src/app/services/game-logic.service.spec.ts:55-63 | a fresh service spawns four full rows |
| Formation.Descend | src/app/services/game-logic.service.ts:126-134 | the enemy steps down when it has room and turns round |
| Formation.March | src/app/services/game-logic.service.ts:125-143 | the formation keeps its size |
| Formation.MarchStep | src/app/services/game-logic.service.ts:113-145 | below the threshold only the counter changes; at it the counter resets and the formation marches, and the game is over iff it already was or some enemy was at a boundary and after the descent an enemy reaches a player's row; the invariant is kept |
| Formation.MarchLockstep | src/app/services/game-logic.service.ts:140-142 | with no enemy at an edge every enemy moves one step sideways |
| Formation.MarchDescent | src/app/services/game-logic.service.ts:126-134 | with an enemy at an edge every enemy keeps its column, steps down if it has room and turns round |
| Formation.MarchKeepsField | src/app/services/game-logic.service.ts:113-145 | enemies inside the field stay inside through a march |
| Formation.QuietUntilDue | src/app/services/game-logic.service.ts:114-116 | below the threshold the calls only count |
| Formation.MarchCadence | src/app/services/game-logic.service.ts:114-145 | the formation marches once in threshold-minus-counter calls, on the last one |
| Formation.InvadedSnoc | src/app/services/game-logic.service.ts:135-139 | the invasion test on a formation with one more enemy is the test on the rest or on that enemy |
| Volleys.Sweep | src/app/services/game-logic.service.ts:150-171 | a pass never adds bullets and leaves the already visited ones alone |
| Volleys.SweepMovesAll | src/app/services/game-logic.service.spec.ts:149-181 | when no bullet is blocked every bullet moves one step and none is removed |
| Volleys.SweepEdgeBacklog | src/app/services/game-logic.service.ts:154-157 | when every bullet is blocked one pass removes only every other one; the survivors stay where they were |
| Volleys.SecondBulletSkipped | src/app/services/game-logic.service.ts:154-157 | of two blocked bullets the second survives the pass |
| Volleys.SweepStaysInField | src/app/services/game-logic.service.ts:150-171 | a pass over bullets strictly inside the field leaves only bullets strictly inside it |
| Volleys.SweepKeepsClocks | src/app/services/game-logic.service.ts:150-171 | a pass keeps every bullet clock well formed |
| Volleys.MovePlayerVolleys | src/app/services/game-logic.service.ts:150-159 | each player queue is swept upwards; nothing else changes; the invariant is kept |
| Volleys.MoveEnemyVolley | src/app/services/game-logic.service.ts:164-171 | the enemy bullets become exactly the downward Sweep of the old ones, never more of them; nothing else changes; the invariant is kept |
| Volleys.PlayerVolleysAdvance | src/app/services/game-logic.service.spec.ts:149-164 | bullets above the speed each move up 2 and none is lost |
| Volleys.EnemyVolleyAdvance | src/app/services/game-logic.service.ts:164-171 | enemy bullets all more than a step above the bottom edge each move down 2, in order, and none is lost |
| Volleys.Fade | src/app/services/game-logic.service.ts:300-306 | the explosion walk never adds explosions and keeps every clock well formed |
| Volleys.FadeKeepsRunning | src/app/services/game-logic.service.ts:300-306 | explosions still in progress are all kept, each advanced by one tick |
| Volleys.FinishedRemoved | src/app/services/game-logic.service.ts:301-303 | a finished explosion is removed |
| Volleys.TickPlayers | src/app/services/game-logic.service.ts:282-286 | every ship's clock advances once |
| Volleys.TickEnemies | src/app/services/game-logic.service.ts:287-290 | every enemy's clock advances once |
| Volleys.TickAll | src/app/services/game-logic.service.ts:291-299 | every bullet's clock advances once |
| Volleys.Animate | src/app/services/game-logic.service.ts:281-307 | all clocks advance; the explosions become exactly the Fade walk of the old ones, never more of them; positions and everything else are unchanged; the invariant is kept |
| Collisions.JsRem | src/app/services/game-logic.service.ts:224 | the JavaScript remainder takes the sign of the dividend |
| Collisions.EarnsLifeOnCrossing | src/app/services/game-logic.service.ts:224-226 | for a non-negative score and points a hit earns a life iff the score crosses a multiple of 2000 |
| Collisions.OneLifePerHit | src/app/services/game-logic.service.ts:224-226 | a hit worth three multiples of 2000 still earns only one life |
| Collisions.Awarded | src/app/services/game-logic.service.ts:224-227 | the points are added, with one extra life exactly when the life rule holds |
| Collisions.RemoveEnemy | src/app/services/game-logic.service.ts:234 | one enemy goes: the hit one while it is still present, the last one once it was already removed |
| Collisions.PlayerHit | src/app/services/game-logic.service.ts:222-235 | a hit removes the bullet, scores the enemy for the player, starts an explosion at the enemy and removes an enemy; the invariant is kept |
| Collisions.QueueHits | src/app/services/game-logic.service.ts:220-236 | one queue's pass never adds enemies; without a hit the enemies are untouched; the invariant is kept |
| Collisions.NamesHits | src/app/services/game-logic.service.ts:217-237 | the same for all queues against one enemy |
| Collisions.EnemyHits | src/app/services/game-logic.service.ts:215-239 | the pass from one enemy on never adds enemies and keeps the invariant |
| Collisions.PlayerBulletHits | src/app/services/game-logic.service.ts:215-239 | the whole pass never adds enemies and keeps the invariant |
| Collisions.NoHitNoChange | src/app/services/game-logic.service.ts:215-239 | when no player bullet meets any enemy the pass changes nothing |
| Collisions.HitAccounting | src/app/services/game-logic.service.ts:215-239 | bullets removed equal explosions added; enemies removed never exceed explosions added (fewer when a second hit finds the enemy array already empty) |
| Collisions.ScoresNeverFall | src/app/services/game-logic.service.ts:224-227 | no player's score or lives go down in the pass |
| Collisions.SingleHit | src/app/services/game-logic.service.spec.ts:183-197 | one bullet on one enemy removes both, scores the enemy and starts one explosion |
| Collisions.DoubleHitOnLastEnemy | src/app/services/game-logic.service.ts:228-234 | two hits on the only enemy remove two bullets and start two explosions but remove one enemy, since the second splice finds the array empty |
| Collisions.ShiftedEnemySkipped | src/app/services/game-logic.service.ts:215-239 | with two enemies and two bullets, where the first bullet hits the first enemy and the second bullet the second enemy, only the first pair goes: the second enemy shifts into the freed slot and is not checked in that pass |
| Collisions.StaleEnemyRemovesLast | src/app/services/game-logic.service.ts:228-234 | a second hit on a removed enemy removes the last enemy, scores again and starts a second explosion at the first enemy |
| Collisions.ClampLands | src/app/services/game-logic.service.ts:255-262 | a clamped coordinate's far edge is the largest multiple of the bound below the original far edge, at least the bound and equal to it when within twice the bound |
| Collisions.ShotHit | src/app/services/game-logic.service.ts:252-271 | the enemy bullet goes, the player loses a life (never below 0), an explosion starts at the clamped position, and the game is over iff lives reach 0 or it already was; the invariant is kept |
| Collisions.ShotQueue | src/app/services/game-logic.service.ts:251-273 | one player's pass only removes enemy bullets (never adding one), takes lives and appends explosions after the earlier ones, and keeps the invariant |
| Collisions.EnemyBulletHits | src/app/services/game-logic.service.ts:249-276 | the whole pass only removes enemy bullets (never adding one), takes lives and appends explosions after the earlier ones, and keeps the invariant |
| Collisions.GameOverMeansNoLives | src/app/services/game-logic.service.ts:268-271 | if the pass ends the game some player has no lives left |
| Collisions.LastLifeEndsGame | src/app/services/game-logic.service.spec.ts:199-214 | a player on the last life hit by the only enemy bullet loses it, and the game ends |
| Collisions.NoShotNoChange | src/app/services/game-logic.service.ts:249-276 | when no enemy bullet meets any player the pass changes nothing |
| GameLogic.GameLogicService.constructor | src/app/services/game-logic.service.ts:11-26 | the service starts in the initial scene on its canvas and is consistent |
| GameLogic.GameLogicService.SpawnPlayer | src/app/services/game-logic.service.ts:38-50 | the new state is Scenes.SpawnPlayer of the old one |
| GameLogic.GameLogicService.BuildRow | src/app/services/game-logic.service.ts:81-85 | the loop builds exactly the row Row describes |
| GameLogic.GameLogicService.SpawnEnemyRow | src/app/services/game-logic.service.ts:75-86 | the new state is SpawnRow of the old one |
| GameLogic.GameLogicService.SpawnEnemies | src/app/services/game-logic.service.ts:52-65 | the new state is SpawnRows of the old one |
| GameLogic.GameLogicService.MovePlayerLeft | src/app/services/game-logic.service.ts:92-97 | the new state is MovePlayer to the left |
| GameLogic.GameLogicService.MovePlayerRight | src/app/services/game-logic.service.ts:103-108 | the new state is MovePlayer to the right |
| GameLogic.GameLogicService.BoundaryReachedByAny | src/app/services/game-logic.service.ts:119-123 | the loop reports whether any enemy is at a boundary |
| GameLogic.GameLogicService.ReachesAPlayer | src/app/services/game-logic.service.ts:135-139 | reports whether the bottom edge has reached some player's row |
| GameLogic.GameLogicService.MarchFormation | src/app/services/game-logic.service.ts:125-143 | the loop produces the marched formation and the invasion verdict |
| GameLogic.GameLogicService.MoveEnemies | src/app/services/game-logic.service.ts:113-145 | the new state is MarchStep of the old one |
| GameLogic.GameLogicService.SweepBullets | src/app/services/game-logic.service.ts:154-157 | the loop computes Sweep |
| GameLogic.GameLogicService.SweepQueues | src/app/services/game-logic.service.ts:150-159 | every queue is replaced by its upward sweep |
| GameLogic.GameLogicService.MovePlayerBullets | src/app/services/game-logic.service.ts:150-159 | the new state is MovePlayerVolleys of the old one |
| GameLogic.GameLogicService.MoveEnemyBullets | src/app/services/game-logic.service.ts:164-171 | the new state is MoveEnemyVolley of the old one |
| GameLogic.GameLogicService.FireBullet | src/app/services/game-logic.service.ts:180-189 | the new state is Scenes.FireBullet of the old one |
| GameLogic.GameLogicService.FireEnemyBullet | src/app/services/game-logic.service.ts:196-205 | the new state is FireEnemyShot of the old one |
| GameLogic.GameLogicService.HitEnemy | src/app/services/game-logic.service.ts:222-235 | the new state is PlayerHit of the old one |
| GameLogic.GameLogicService.HitsInQueue | src/app/services/game-logic.service.ts:220-236 | the loop computes QueueHits |
| GameLogic.GameLogicService.HitsOnEnemy | src/app/services/game-logic.service.ts:217-237 | the loop computes NamesHits |
| GameLogic.GameLogicService.CheckForPlayerBulletIntersections | src/app/services/game-logic.service.ts:215-239 | the new state is PlayerBulletHits of the old one |
| GameLogic.GameLogicService.HitPlayer | src/app/services/game-logic.service.ts:252-271 | the new state is ShotHit of the old one |
| GameLogic.GameLogicService.ShotsOnPlayer | src/app/services/game-logic.service.ts:251-273 | the loop computes ShotQueue |
| GameLogic.GameLogicService.CheckForEnemyBulletIntersections | src/app/services/game-logic.service.ts:249-276 | the new state is EnemyBulletHits of the old one |
| GameLogic.GameLogicService.TickBullets | src/app/services/game-logic.service.ts:291-299 | the loop computes TickAll |
| GameLogic.GameLogicService.FadeExplosions | src/app/services/game-logic.service.ts:300-306 | the loop computes Fade |
| GameLogic.GameLogicService.TickShips | src/app/services/game-logic.service.ts:282-286 | the loop computes TickPlayers |
| GameLogic.GameLogicService.TickInvaders | src/app/services/game-logic.service.ts:287-290 | the loop computes TickEnemies |
| GameLogic.GameLogicService.TickVolleys | src/app/services/game-logic.service.ts:291-299 | the loop computes TickQueues |
| GameLogic.GameLogicService.RenderGameObjects | src/app/services/game-logic.service.ts:281-307 | the new state is Animate of the old one |
| GameLogic.GameLogicService.IncreaseLevel | src/app/services/game-logic.service.ts:312-318 | the new state is LevelUp of the old one |
| GameLogic.GameLogicService.IncreaseDifficulty | src/app/services/game-logic.service.ts:323-335 | the new state is Harder of the old one |
| GameLogic.GameLogicService.SwitchSoundMuted | src/app/services/game-logic.service.ts:340-342 | the new state is SwitchSound of the old one |
| GameLogic.GameLogicService.GetPlayerScore | src/app/services/game-logic.service.ts:383-385 | the named player's score |
| GameLogic.GameLogicService.GetPlayerLives | src/app/services/game-logic.service.ts:402-404 | the named player's lives |
| GameLogic.GameLogicService.GetTotalScore | src/app/services/game-logic.service.ts:390-396 | the sum of the listed players' scores |

## Left out

- Drawing: `render` and `drawImage` are not modelled. Only the source rectangle (`GameObjects.GameObject.SourceX`) is kept.
- Sound: the `Howl` effects played on hits and shots are not modelled. The mute flag is kept.
- Randomness: the enemy picked by `Math.random` in `fireEnemyBullet` is the parameter `idx`.
- Floating point: coordinates and sizes are integers. Divisions the source performs on numbers carry divisibility preconditions instead:
  - the sheet width is divisible by the frame count;
  - ship widths and the canvas width are even;
  - enemy frame widths are even, since an enemy's shot starts at its width halved;
  - the explosion image width is a multiple of 32.
- Aliasing: the service holds values, not object references. The getters that hand out live arrays and objects, and mutation through them, are not captured.
- Inheritance: abstract classes and inheritance are flattened. Each class repeats the `GameObject` fields, and `MovableGameObject` becomes a constant movement speed in each class.
- Default arguments: the optional `frames` and `ticksPerFrame` are passed explicitly, as 1 and 0 where the source omits them. The frame count must be at least 1.
- Canvas: each service has one canvas size, fixed at construction.
- Callbacks: the callbacks of `Bullet.move` and `Explosion.update` become returned statuses. A bullet at the boundary, or an explosion on its last frame, updated without a callback throws in the source; that case is not modelled.
- The game component, the loader service, the high-score service and the navigation bar are not part of this model.
- `getPlayer` and the plain field getters are not modelled as separate members; their values are fields of the class.
- GameLogic.GameLogicService.GetPlayerScore and GameLogic.GameLogicService.GetPlayerLives: require a known name; the source reads a property of `undefined` and throws a TypeError for an unknown name, which is not modelled.
- Formation.SpawnRows and GameLogic.GameLogicService.SpawnEnemies: require non-empty enemy meta data; with none, the source's `i % 0` is NaN and reading a property of `metaData[NaN]` throws a TypeError, which is not modelled.
- The enemy constructor's default hit score (10) and direction (right) are not defaults in the model: callers pass them, and the spawning code passes the row's values and `Right` as the source does.
