/** The state the game-logic service keeps, as one value, and its simpler
    operations: spawning and steering players, firing, levels, difficulty,
    the sound switch and the score total. */
module Scenes {
  import opened GameObjects
  import opened Battleships
  import opened Bullets
  import opened Enemies
  import opened Explosions

  datatype Option<T> = None | Some(value: T)

  /** What one row of enemies is built from. */
  datatype EnemyMetaData = EnemyMetaData(image: Sprite, hitScore: int, frames: int, ticksPerFrame: int)

  /** The sheet and timing an explosion is built from. */
  datatype Blast = Blast(image: Sprite, frames: int, ticksPerFrame: int)

  /** Everything the service owns.  `names` lists the player names in the
      order the players map iterates them: the order of first insertion. */
  datatype Scene = Scene(
    names: seq<string>,
    players: map<string, BattleshipState>,
    playerBullets: map<string, seq<BulletState>>,
    enemies: seq<EnemyState>,
    enemyBullets: seq<BulletState>,
    explosions: seq<ExplosionState>,
    gameOver: bool,
    enemyRowCount: int,
    ticksBetweenMoves: int,
    movementTicksCount: int,
    ticksBetweenShots: int,
    shotTicksCount: int,
    level: int,
    soundMuted: bool)

  /** The service as its field initialisers leave it. */
  function InitialScene(): (sc: Scene)
    ensures Consistent(sc)
  {
    Scene([], map[], map[], [], [], [], false, 4, 20, 0, 90, 0, 1, false)
  }

  /** `s` without its element at `k`, as `splice(k, 1)` leaves an array. */
  function Remove<T>(s: seq<T>, k: nat): (r: seq<T>)
    requires k < |s|
    ensures |r| == |s| - 1
    ensures forall i :: 0 <= i < k ==> r[i] == s[i]
    ensures forall i :: k <= i < |r| ==> r[i] == s[i + 1]
  {
    s[..k] + s[k + 1..]
  }

  predicate Distinct(names: seq<string>)
  {
    forall i, j :: 0 <= i < j < |names| ==> names[i] != names[j]
  }

  /** Players and bullet queues are keyed by exactly the listed names. */
  ghost predicate Registered(sc: Scene)
  {
    Distinct(sc.names) &&
    (forall n :: n in sc.names <==> n in sc.players) &&
    (forall n :: n in sc.names <==> n in sc.playerBullets)
  }

  /** The counters stay where the initial values and the difficulty steps
      can take them; the cadence counter is always below its threshold. */
  predicate CountersInRange(sc: Scene)
  {
    4 <= sc.enemyRowCount <= 8 &&
    40 <= sc.ticksBetweenShots <= 90 &&
    5 <= sc.ticksBetweenMoves <= 20 &&
    0 <= sc.movementTicksCount < sc.ticksBetweenMoves &&
    0 <= sc.shotTicksCount &&
    sc.level >= 1
  }

  predicate PlayerOk(p: BattleshipState)
  {
    p.width % 2 == 0 && p.lives >= 0 && p.clock.Valid()
  }

  predicate EnemyOk(e: EnemyState)
  {
    e.width % 2 == 0 && e.clock.Valid()
  }

  predicate BulletsOk(bs: seq<BulletState>)
  {
    forall k :: 0 <= k < |bs| ==> bs[k].clock.Valid()
  }

  predicate ExplosionsOk(xs: seq<ExplosionState>)
  {
    forall i :: 0 <= i < |xs| ==> xs[i].clock.Valid()
  }

  /** Every object shows a frame of its own sheet; ships and enemies have
      even widths (so their centres are whole pixels); lives are never
      negative. */
  predicate EntitiesOk(sc: Scene)
  {
    (forall n :: n in sc.players ==> PlayerOk(sc.players[n])) &&
    (forall i :: 0 <= i < |sc.enemies| ==> EnemyOk(sc.enemies[i])) &&
    (forall n :: n in sc.playerBullets ==> BulletsOk(sc.playerBullets[n])) &&
    BulletsOk(sc.enemyBullets) &&
    ExplosionsOk(sc.explosions)
  }

  ghost predicate Consistent(sc: Scene)
  {
    Registered(sc) && CountersInRange(sc) && EntitiesOk(sc)
  }

  // ---------------------------------------------------------------- players

  /** `spawnPlayer`: a new ship under `name`, centred on x (half the field
      width by default) and standing on y (the field height less the ship's
      height by default), with an empty bullet queue.  A name spawned again
      keeps its place in the iteration order. */
  function SpawnPlayer(sc: Scene, name: string, image: Sprite, x: Option<int>, y: Option<int>,
                       frames: int, ticksPerFrame: int, fieldWidth: int, fieldHeight: int): (r: Scene)
    requires EvenFrames(image, frames)
    ensures name in r.players && r.playerBullets == sc.playerBullets[name := []]
    ensures r.players == sc.players[name := r.players[name]]
    ensures r.players[name].score == 0 && r.players[name].lives == InitialLives
    ensures 2 * r.players[name].x + r.players[name].width
            == 2 * (if x.Some? then x.value else fieldWidth / 2)
    ensures r.players[name].y + r.players[name].height
            == (if y.Some? then y.value else fieldHeight - image.height)
    ensures name in sc.names ==> r.names == sc.names
    ensures name !in sc.names ==> r.names == sc.names + [name]
    ensures r == sc.(names := r.names, players := r.players, playerBullets := r.playerBullets)
    ensures Consistent(sc) ==> Consistent(r)
  {
    var x0 := if x.Some? then x.value else fieldWidth / 2;
    var y0 := if y.Some? then y.value else fieldHeight - image.height;
    var ship := NewBattleship(image, x0, y0, frames, ticksPerFrame);
    var r := sc.(names := if name in sc.names then sc.names else sc.names + [name],
                 players := sc.players[name := ship],
                 playerBullets := sc.playerBullets[name := []]);
    assert Consistent(sc) ==> Consistent(r) by {
      if Consistent(sc) {
        AddedPlayerConsistent(sc, name, ship);
      }
    }
    r
  }

  /** Registering a sound ship under a name, new or old, keeps the scene
      consistent. */
  lemma AddedPlayerConsistent(sc: Scene, name: string, ship: BattleshipState)
    requires Consistent(sc) && PlayerOk(ship)
    ensures Consistent(sc.(names := if name in sc.names then sc.names else sc.names + [name],
                           players := sc.players[name := ship],
                           playerBullets := sc.playerBullets[name := []]))
  {
    var names := if name in sc.names then sc.names else sc.names + [name];
    if name !in sc.names {
      forall i, j | 0 <= i < j < |names| ensures names[i] != names[j] {
        if j == |sc.names| {
          assert names[i] == sc.names[i] && sc.names[i] in sc.names;
        }
      }
    }
  }

  /** Two different names make two players. */
  lemma TwoPlayers(image: Sprite, fieldWidth: int, fieldHeight: int)
    requires EvenFrames(image, 1)
    ensures var one := SpawnPlayer(InitialScene(), "playerOne", image, Some(50), Some(50), 1, 0, fieldWidth, fieldHeight);
            var two := SpawnPlayer(one, "playerTwo", image, Some(100), Some(100), 1, 0, fieldWidth, fieldHeight);
            two.names == ["playerOne", "playerTwo"] && |two.players.Keys| == 2
  {
    var one := SpawnPlayer(InitialScene(), "playerOne", image, Some(50), Some(50), 1, 0, fieldWidth, fieldHeight);
    var two := SpawnPlayer(one, "playerTwo", image, Some(100), Some(100), 1, 0, fieldWidth, fieldHeight);
    assert two.players.Keys == {"playerOne", "playerTwo"};
  }

  /** `movePlayerLeft` / `movePlayerRight`: the named ship takes one step;
      an unknown name changes nothing. */
  function MovePlayer(sc: Scene, name: string, d: Direction, fieldWidth: int): (r: Scene)
    ensures name !in sc.players ==> r == sc
    ensures name in sc.players ==>
              r == sc.(players := sc.players[name := ShipMoved(sc.players[name], d, fieldWidth)])
    ensures Consistent(sc) ==> Consistent(r)
  {
    if name in sc.players then sc.(players := sc.players[name := ShipMoved(sc.players[name], d, fieldWidth)])
    else sc
  }

  /** A ship spawned from an unloaded (0 by 0) image at (50, 50) stands
      exactly at (50, 50): only a zero-size sheet makes centring a no-op. */
  lemma UnloadedImageSpawn(sc: Scene, name: string, fieldWidth: int, fieldHeight: int)
    ensures var s := SpawnPlayer(sc, name, Sprite(0, 0), Some(50), Some(50), 1, 0, fieldWidth, fieldHeight);
            s.players[name].x == 50 && s.players[name].y == 50 && s.players[name].width == 0
  {
  }

  // ---------------------------------------------------------------- firing

  /** `fireBullet`: one bullet appended to the named player's queue, its
      left edge on the ship's centre and its top on the ship's top; other
      queues are untouched and an unknown name changes nothing. */
  function FireBullet(sc: Scene, name: string, image: Sprite): (r: Scene)
    requires FitsFrames(image, 1)
    requires name in sc.players ==> name in sc.playerBullets
    ensures name !in sc.players ==> r == sc
    ensures name in sc.players ==> name in r.playerBullets
    ensures name in sc.players ==>
              var q := sc.playerBullets[name];
              var p := sc.players[name];
              r == sc.(playerBullets := sc.playerBullets[name := r.playerBullets[name]]) &&
              |r.playerBullets[name]| == |q| + 1 && r.playerBullets[name][..|q|] == q &&
              r.playerBullets[name][|q|] == NewBullet(image, p.x + p.width / 2, p.y)
    ensures Consistent(sc) ==> Consistent(r)
  {
    if name in sc.players then
      var p := sc.players[name];
      var b := NewBullet(image, p.x + p.width / 2, p.y);
      sc.(playerBullets := sc.playerBullets[name := sc.playerBullets[name] + [b]])
    else sc
  }

  /** `n` shots from the same player: each lengthens a known player's
      queue by one, so four shots give four bullets. */
  function FireMany(sc: Scene, name: string, image: Sprite, n: nat): (r: Scene)
    requires FitsFrames(image, 1)
    requires name in sc.players ==> name in sc.playerBullets
    ensures r.players == sc.players && (name in r.players ==> name in r.playerBullets)
    ensures name in sc.players ==> |r.playerBullets[name]| == |sc.playerBullets[name]| + n
  {
    if n == 0 then sc else FireBullet(FireMany(sc, name, image, n - 1), name, image)
  }

  /** `fireEnemyBullet` with `idx` standing for the random pick: the shot
      counter is incremented; when it equals the threshold and enemies
      exist, it is reset and enemy `idx` fires one bullet whose left edge is
      on the enemy's centre and whose top is the enemy's top. */
  function FireEnemyShot(sc: Scene, image: Sprite, idx: nat): (r: Scene)
    requires FitsFrames(image, 1)
    requires |sc.enemies| > 0 ==> idx < |sc.enemies|
    ensures var c := sc.shotTicksCount + 1;
            if c == sc.ticksBetweenShots && |sc.enemies| > 0 then
              r == sc.(shotTicksCount := 0, enemyBullets := r.enemyBullets) &&
              |r.enemyBullets| == |sc.enemyBullets| + 1 &&
              r.enemyBullets[..|sc.enemyBullets|] == sc.enemyBullets &&
              r.enemyBullets[|sc.enemyBullets|]
                == NewBullet(image, sc.enemies[idx].x + sc.enemies[idx].width / 2, sc.enemies[idx].y)
            else r == sc.(shotTicksCount := c)
    ensures Consistent(sc) ==> Consistent(r)
  {
    var c := sc.shotTicksCount + 1;
    if c == sc.ticksBetweenShots && |sc.enemies| > 0 then
      var e := sc.enemies[idx];
      sc.(shotTicksCount := 0, enemyBullets := sc.enemyBullets + [NewBullet(image, e.x + e.width / 2, e.y)])
    else sc.(shotTicksCount := c)
  }

  predicate PicksFit(idxs: seq<nat>, count: int)
  {
    forall i :: 0 <= i < |idxs| ==> idxs[i] < count
  }

  /** One `fireEnemyBullet` call per pick, in order. */
  function Volley(sc: Scene, image: Sprite, idxs: seq<nat>): (r: Scene)
    requires FitsFrames(image, 1)
    requires |sc.enemies| > 0 ==> PicksFit(idxs, |sc.enemies|)
    ensures r.enemies == sc.enemies && r.ticksBetweenShots == sc.ticksBetweenShots
    decreases |idxs|
  {
    if idxs == [] then sc
    else Volley(FireEnemyShot(sc, image, idxs[0]), image, idxs[1..])
  }

  /** Below the threshold the calls only count. */
  lemma {:induction false} VolleyCounts(sc: Scene, image: Sprite, idxs: seq<nat>)
    requires FitsFrames(image, 1)
    requires |sc.enemies| > 0 ==> PicksFit(idxs, |sc.enemies|)
    requires 0 <= sc.shotTicksCount && sc.shotTicksCount + |idxs| < sc.ticksBetweenShots
    ensures Volley(sc, image, idxs) == sc.(shotTicksCount := sc.shotTicksCount + |idxs|)
    decreases |idxs|
  {
    if idxs != [] {
      VolleyCounts(FireEnemyShot(sc, image, idxs[0]), image, idxs[1..]);
    }
  }

  /** From a counter of c below the threshold t, with enemies present,
      exactly one bullet is fired in t - c calls, on the last one, which
      resets the counter: from a fresh service, 90 calls fire one bullet. */
  lemma ShotCadence(sc: Scene, image: Sprite, idxs: seq<nat>)
    requires FitsFrames(image, 1)
    requires |sc.enemies| > 0 && PicksFit(idxs, |sc.enemies|)
    requires 0 <= sc.shotTicksCount < sc.ticksBetweenShots
    requires |idxs| == sc.ticksBetweenShots - sc.shotTicksCount
    ensures var r := Volley(sc, image, idxs);
            |r.enemyBullets| == |sc.enemyBullets| + 1 && r.shotTicksCount == 0
  {
    var n := |idxs| - 1;
    VolleyCounts(sc, image, idxs[..n]);
    VolleyPrefix(sc, image, idxs, n);
  }

  /** A volley is its first part followed by the rest. */
  lemma {:induction false} VolleyPrefix(sc: Scene, image: Sprite, idxs: seq<nat>, n: nat)
    requires FitsFrames(image, 1)
    requires |sc.enemies| > 0 ==> PicksFit(idxs, |sc.enemies|)
    requires n <= |idxs|
    ensures Volley(sc, image, idxs) == Volley(Volley(sc, image, idxs[..n]), image, idxs[n..])
    decreases n
  {
    if n > 0 {
      assert idxs[..n][1..] == idxs[1..][..n - 1];
      assert idxs[1..][n - 1..] == idxs[n..];
      VolleyPrefix(FireEnemyShot(sc, image, idxs[0]), image, idxs[1..], n - 1);
    }
  }

  /** The counter is incremented even when there is no enemy to fire.  If it
      reaches the threshold then, it is not reset and runs past it, and from
      then on no call fires, whatever enemies appear, until a difficulty
      step resets it. */
  lemma {:induction false} ShotCounterPastThreshold(sc: Scene, image: Sprite, idxs: seq<nat>)
    requires FitsFrames(image, 1)
    requires |sc.enemies| > 0 ==> PicksFit(idxs, |sc.enemies|)
    requires sc.shotTicksCount >= sc.ticksBetweenShots
    ensures Volley(sc, image, idxs) == sc.(shotTicksCount := sc.shotTicksCount + |idxs|)
    decreases |idxs|
  {
    if idxs != [] {
      ShotCounterPastThreshold(FireEnemyShot(sc, image, idxs[0]), image, idxs[1..]);
    }
  }

  /** The stall in one step: with no enemies, the call that brings the
      counter to the threshold leaves it there instead of resetting it. */
  lemma NoEnemyAtThreshold(sc: Scene, image: Sprite, idx: nat)
    requires FitsFrames(image, 1)
    requires |sc.enemies| == 0 && sc.shotTicksCount + 1 == sc.ticksBetweenShots
    ensures FireEnemyShot(sc, image, idx).shotTicksCount == sc.ticksBetweenShots
    ensures FireEnemyShot(sc, image, idx).enemyBullets == sc.enemyBullets
  {
  }

  // ---------------------------------------------------------------- levels

  /** `increaseLevel`: one level up; every bullet queue and the enemies'
      bullets are emptied. */
  function LevelUp(sc: Scene): (r: Scene)
    ensures r.level == sc.level + 1 && r.enemyBullets == []
    ensures r.playerBullets.Keys == sc.playerBullets.Keys
    ensures forall n :: n in r.playerBullets ==> r.playerBullets[n] == []
    ensures r == sc.(level := r.level, playerBullets := r.playerBullets, enemyBullets := [])
    ensures Consistent(sc) ==> Consistent(r)
  {
    sc.(level := sc.level + 1, playerBullets := map n | n in sc.playerBullets :: [], enemyBullets := [])
  }

  /** `increaseDifficulty`: one more row on even levels while there are at
      most 7; ten fewer ticks between shots on levels divisible by 3 while
      there are at least 50; five fewer ticks between moves on levels
      divisible by 5 while there are at least 10.  A changed threshold
      restarts its counter. */
  function Harder(sc: Scene): (r: Scene)
    ensures sc.enemyRowCount <= r.enemyRowCount <= sc.enemyRowCount + 1
    ensures sc.ticksBetweenShots - 10 <= r.ticksBetweenShots <= sc.ticksBetweenShots
    ensures sc.ticksBetweenMoves - 5 <= r.ticksBetweenMoves <= sc.ticksBetweenMoves
    ensures sc.enemyRowCount <= 8 ==> r.enemyRowCount <= 8
    ensures sc.ticksBetweenShots >= 40 ==> r.ticksBetweenShots >= 40
    ensures sc.ticksBetweenMoves >= 5 ==> r.ticksBetweenMoves >= 5
    ensures r.ticksBetweenShots != sc.ticksBetweenShots ==> r.shotTicksCount == 0
    ensures r.ticksBetweenMoves != sc.ticksBetweenMoves ==> r.movementTicksCount == 0
    ensures r == sc.(enemyRowCount := r.enemyRowCount, ticksBetweenShots := r.ticksBetweenShots,
                     shotTicksCount := r.shotTicksCount, ticksBetweenMoves := r.ticksBetweenMoves,
                     movementTicksCount := r.movementTicksCount)
    ensures Consistent(sc) ==> Consistent(r)
  {
    var rows := if sc.enemyRowCount <= 7 && sc.level % 2 == 0 then sc.enemyRowCount + 1 else sc.enemyRowCount;
    var shotsDrop := sc.ticksBetweenShots >= 50 && sc.level % 3 == 0;
    var movesDrop := sc.ticksBetweenMoves >= 10 && sc.level % 5 == 0;
    sc.(enemyRowCount := rows,
        ticksBetweenShots := if shotsDrop then sc.ticksBetweenShots - 10 else sc.ticksBetweenShots,
        shotTicksCount := if shotsDrop then 0 else sc.shotTicksCount,
        ticksBetweenMoves := if movesDrop then sc.ticksBetweenMoves - 5 else sc.ticksBetweenMoves,
        movementTicksCount := if movesDrop then 0 else sc.movementTicksCount)
  }

  /** The game's step to the next level: level up, then difficulty. */
  function AfterLevels(sc: Scene, n: nat): Scene
  {
    if n == 0 then sc else Harder(LevelUp(AfterLevels(sc, n - 1)))
  }

  function Min(a: int, b: int): int { if a <= b then a else b }
  function Max(a: int, b: int): int { if a >= b then a else b }

  /** From the initial settings, level L = n + 1 has min(8, 4 + L/2) rows,
      max(40, 90 - 10*(L/3)) ticks between shots and max(5, 20 - 5*(L/5))
      ticks between moves: the caps 8, 40 and 5 are reached at levels 8,
      15 and 15 and kept from then on. */
  lemma {:induction false} Progression(sc: Scene, n: nat)
    requires sc.level == 1 && sc.enemyRowCount == 4
    requires sc.ticksBetweenShots == 90 && sc.ticksBetweenMoves == 20
    ensures var r := AfterLevels(sc, n);
            var L := n + 1;
            r.level == L &&
            r.enemyRowCount == Min(8, 4 + L / 2) &&
            r.ticksBetweenShots == Max(40, 90 - 10 * (L / 3)) &&
            r.ticksBetweenMoves == Max(5, 20 - 5 * (L / 5))
  {
    if n > 0 {
      Progression(sc, n - 1);
      var up := LevelUp(AfterLevels(sc, n - 1));
      HarderStep(up, n);
    }
  }

  /** One difficulty step from level k + 1 keeps the settings on the
      formulas' track. */
  lemma HarderStep(up: Scene, k: nat)
    requires up.level == k + 1
    requires up.enemyRowCount == Min(8, 4 + k / 2)
    requires up.ticksBetweenShots == Max(40, 90 - 10 * (k / 3))
    requires up.ticksBetweenMoves == Max(5, 20 - 5 * (k / 5))
    ensures var r := Harder(up);
            r.level == k + 1 &&
            r.enemyRowCount == Min(8, 4 + (k + 1) / 2) &&
            r.ticksBetweenShots == Max(40, 90 - 10 * ((k + 1) / 3)) &&
            r.ticksBetweenMoves == Max(5, 20 - 5 * ((k + 1) / 5))
  {
    RowsStep(k, up.enemyRowCount);
    ShotsStep(k, up.ticksBetweenShots);
    MovesStep(k, up.ticksBetweenMoves);
  }

  lemma RowsStep(k: nat, rows: int)
    requires rows == Min(8, 4 + k / 2)
    ensures (if rows <= 7 && (k + 1) % 2 == 0 then rows + 1 else rows) == Min(8, 4 + (k + 1) / 2)
  {
  }

  lemma ShotsStep(k: nat, t: int)
    requires t == Max(40, 90 - 10 * (k / 3))
    ensures (if t >= 50 && (k + 1) % 3 == 0 then t - 10 else t) == Max(40, 90 - 10 * ((k + 1) / 3))
  {
  }

  lemma MovesStep(k: nat, t: int)
    requires t == Max(5, 20 - 5 * (k / 5))
    ensures (if t >= 10 && (k + 1) % 5 == 0 then t - 5 else t) == Max(5, 20 - 5 * ((k + 1) / 5))
  {
  }

  /** The difficulty stops at level 15: 8 rows, 40 and 5 ticks. */
  lemma FullDifficulty(sc: Scene, n: nat)
    requires sc.level == 1 && sc.enemyRowCount == 4
    requires sc.ticksBetweenShots == 90 && sc.ticksBetweenMoves == 20
    requires n >= 14
    ensures var r := AfterLevels(sc, n);
            r.enemyRowCount == 8 && r.ticksBetweenShots == 40 && r.ticksBetweenMoves == 5
  {
    Progression(sc, n);
  }

  /** `switchSoundMuted`: flips the flag and nothing else. */
  function SwitchSound(sc: Scene): (r: Scene)
    ensures r.soundMuted != sc.soundMuted && r == sc.(soundMuted := r.soundMuted)
  {
    sc.(soundMuted := !sc.soundMuted)
  }

  // ---------------------------------------------------------------- scores

  /** The sum of the scores of the listed players. */
  function ScoreSum(players: map<string, BattleshipState>, names: seq<string>): int
    requires forall n :: n in names ==> n in players
  {
    if names == [] then 0 else players[names[0]].score + ScoreSum(players, names[1..])
  }

  /** Players that all hold the same score s add up to s per player. */
  lemma {:induction false} UniformScores(players: map<string, BattleshipState>, names: seq<string>, s: int)
    requires forall n :: n in names ==> n in players && players[n].score == s
    ensures ScoreSum(players, names) == |names| * s
  {
    if names != [] {
      UniformScores(players, names[1..], s);
    }
  }

  /** Points given to one player raise the total by exactly those points. */
  lemma {:induction false} ScoreSumGain(players: map<string, BattleshipState>, names: seq<string>,
                                        name: string, points: int)
    requires forall n :: n in names ==> n in players
    requires name in players && Distinct(names)
    ensures var after := players[name := ScoreAdded(players[name], points)];
            ScoreSum(after, names) == ScoreSum(players, names) + (if name in names then points else 0)
  {
    if names != [] {
      assert Distinct(names[1..]) by {
        forall i, j | 0 <= i < j < |names[1..]| ensures names[1..][i] != names[1..][j] {
          assert names[1..][i] == names[i + 1] && names[1..][j] == names[j + 1];
        }
      }
      forall j | 0 <= j < |names[1..]| ensures names[1..][j] != names[0] {
        assert names[1..][j] == names[j + 1];
      }
      ScoreSumGain(players, names[1..], name, points);
    }
  }
}
