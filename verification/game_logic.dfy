/** The game-logic service as an object: its fields are the parts of a
    `Scene`, and every method changes them step by step as the service
    does, proved equal to the scene function that specifies it. */
module GameLogic {
  import opened GameObjects
  import opened Battleships
  import opened Bullets
  import opened Enemies
  import opened Explosions
  import opened Scenes
  import opened Formation
  import opened Volleys
  import opened Collisions

  /** A sum built front to back can be extended at the back. */
  lemma {:induction false} ScoreSumSnoc(players: map<string, BattleshipState>, names: seq<string>, n: string)
    requires forall m :: m in names ==> m in players
    requires n in players
    ensures ScoreSum(players, names + [n]) == ScoreSum(players, names) + players[n].score
  {
    if names == [] {
      assert [n][1..] == [];
    } else {
      assert (names + [n])[1..] == names[1..] + [n];
      ScoreSumSnoc(players, names[1..], n);
    }
  }

  /** A consistent scene on a canvas of positive size and even width (so
      that the default spawn position, half the width, is a whole pixel). */
  ghost predicate Playable(sc: Scene, fieldWidth: int, fieldHeight: int)
  {
    fieldWidth > 0 && fieldHeight > 0 && fieldWidth % 2 == 0 && Consistent(sc)
  }

  /** The service with a canvas of fixed size. */
  class GameLogicService {
    var names: seq<string>
    var players: map<string, BattleshipState>
    var playerBullets: map<string, seq<BulletState>>
    var enemies: seq<EnemyState>
    var enemyBullets: seq<BulletState>
    var explosions: seq<ExplosionState>
    var gameOver: bool
    var enemyRowCount: int
    var ticksBetweenMoves: int
    var movementTicksCount: int
    var ticksBetweenShots: int
    var shotTicksCount: int
    var level: int
    var soundMuted: bool
    const fieldWidth: int
    const fieldHeight: int

    /** The fields as one value. */
    function State(): Scene
      reads this
    {
      Scene(names, players, playerBullets, enemies, enemyBullets, explosions, gameOver,
            enemyRowCount, ticksBetweenMoves, movementTicksCount, ticksBetweenShots, shotTicksCount,
            level, soundMuted)
    }

    ghost predicate Valid()
      reads this
    {
      Playable(State(), fieldWidth, fieldHeight)
    }

    /** The field initialisers. */
    constructor (fieldWidth: int, fieldHeight: int)
      requires fieldWidth > 0 && fieldHeight > 0 && fieldWidth % 2 == 0
      ensures Valid() && State() == InitialScene()
      ensures this.fieldWidth == fieldWidth && this.fieldHeight == fieldHeight
    {
      names, players, playerBullets := [], map[], map[];
      enemies, enemyBullets, explosions := [], [], [];
      gameOver := false;
      enemyRowCount := 4;
      ticksBetweenMoves, movementTicksCount := 20, 0;
      ticksBetweenShots, shotTicksCount := 90, 0;
      level := 1;
      soundMuted := false;
      this.fieldWidth, this.fieldHeight := fieldWidth, fieldHeight;
    }

    // ------------------------------------------------------------ spawning

    method SpawnPlayer(name: string, image: Sprite, x: Option<int>, y: Option<int>, frames: int, ticksPerFrame: int)
      requires Valid() && EvenFrames(image, frames)
      modifies this
      ensures Valid()
      ensures State() == Scenes.SpawnPlayer(old(State()), name, image, x, y, frames, ticksPerFrame, fieldWidth, fieldHeight)
    {
      ghost var before := State();
      ghost var r := Scenes.SpawnPlayer(before, name, image, x, y, frames, ticksPerFrame, fieldWidth, fieldHeight);
      assert Consistent(r);
      var x0 := if x.Some? then x.value else fieldWidth / 2;
      var y0 := if y.Some? then y.value else fieldHeight - image.height;
      var ship := NewBattleship(image, x0, y0, frames, ticksPerFrame);
      assert r.players[name] == ship;
      if name !in names {
        names := names + [name];
      }
      players, playerBullets := players[name := ship], playerBullets[name := []];
      assert State() == before.(names := names, players := players, playerBullets := playerBullets);
      assert State() == r;
    }

    /** The loop of `spawnEnemyRow`: the enemies it pushes, at
        x = i * (width + gap) for as long as that is below the field width
        less two enemy widths. */
    method BuildRow(image: Sprite, hitScore: int, frames: int, ticksPerFrame: int, y: int)
      returns (row: seq<EnemyState>)
      requires EvenFrames(image, frames)
      ensures row == Row(image, hitScore, frames, ticksPerFrame, y, fieldWidth)
    {
      ghost var full := Row(image, hitScore, frames, ticksPerFrame, y, fieldWidth);
      row := [];
      var i := 0;
      RowSizeIsLoopBound(image.width, fieldWidth, i);
      while i * (image.width + Gap) < fieldWidth - 2 * image.width
        invariant 0 <= i <= |full|
        invariant row == full[..i]
        decreases |full| - i
      {
        RowSizeIsLoopBound(image.width, fieldWidth, i);
        row := row + [NewEnemy(image, i * (image.width + Gap), y, hitScore, Right, frames, ticksPerFrame)];
        assert full[..i + 1] == full[..i] + [full[i]];
        i := i + 1;
      }
      RowSizeIsLoopBound(image.width, fieldWidth, i);
      assert full[..i] == full;
    }

    /** One row below the last enemy (or one image height from the top). */
    method SpawnEnemyRow(image: Sprite, hitScore: int, frames: int, ticksPerFrame: int)
      requires Valid() && EvenFrames(image, frames)
      modifies this
      ensures Valid()
      ensures State() == SpawnRow(old(State()), image, hitScore, frames, ticksPerFrame, fieldWidth)
    {
      ghost var r := SpawnRow(State(), image, hitScore, frames, ticksPerFrame, fieldWidth);
      var y := image.height;
      if |enemies| > 0 {
        y := enemies[|enemies| - 1].y + image.height + Gap;
      }
      var row := BuildRow(image, hitScore, frames, ticksPerFrame, y);
      enemies := enemies + row;
      assert State() == r;
    }

    /** As many rows as the row count says, cycling through the metadata. */
    method SpawnEnemies(md: seq<EnemyMetaData>)
      requires Valid() && MetaDataFits(md)
      modifies this
      ensures Valid()
      ensures State() == SpawnRows(old(State()), md, 0, fieldWidth)
    {
      var i := 0;
      while i < enemyRowCount
        invariant 0 <= i && Valid()
        invariant SpawnRows(State(), md, i, fieldWidth) == SpawnRows(old(State()), md, 0, fieldWidth)
        decreases enemyRowCount - i
      {
        var m := md[i % |md|];
        SpawnEnemyRow(m.image, m.hitScore, m.frames, m.ticksPerFrame);
        i := i + 1;
      }
    }

    // ------------------------------------------------------------ movement

    method MovePlayerLeft(name: string)
      requires Valid()
      modifies this
      ensures Valid() && State() == MovePlayer(old(State()), name, Left, fieldWidth)
    {
      ghost var r := MovePlayer(State(), name, Left, fieldWidth);
      if name in players {
        players := players[name := ShipMoved(players[name], Left, fieldWidth)];
      }
      assert State() == r;
    }

    method MovePlayerRight(name: string)
      requires Valid()
      modifies this
      ensures Valid() && State() == MovePlayer(old(State()), name, Right, fieldWidth)
    {
      ghost var r := MovePlayer(State(), name, Right, fieldWidth);
      if name in players {
        players := players[name := ShipMoved(players[name], Right, fieldWidth)];
      }
      assert State() == r;
    }

    /** The first loop of `moveEnemies`: does any enemy report a boundary? */
    method BoundaryReachedByAny() returns (reached: bool)
      ensures reached == AnyAtBoundary(enemies, fieldWidth, fieldHeight)
    {
      reached := false;
      var i := 0;
      while i < |enemies|
        invariant 0 <= i <= |enemies|
        invariant reached <==> exists j :: 0 <= j < i && BoundaryReached(enemies[j], fieldWidth, fieldHeight)
      {
        if BoundaryReached(enemies[i], fieldWidth, fieldHeight) {
          reached := true;
        }
        i := i + 1;
      }
    }

    /** The player loop of `moveEnemies`: does a bottom edge at `bottom`
        reach the top edge of some player? */
    method ReachesAPlayer(bottom: int) returns (reached: bool)
      requires forall n :: n in names <==> n in players
      ensures reached <==> exists n :: n in players && bottom >= players[n].y
    {
      reached := false;
      var j := 0;
      while j < |names|
        invariant 0 <= j <= |names|
        invariant reached <==> exists i :: 0 <= i < j && bottom >= players[names[i]].y
      {
        if bottom >= players[names[j]].y {
          reached := true;
        }
        j := j + 1;
      }
      if exists n :: n in players && bottom >= players[n].y {
        var n :| n in players && bottom >= players[n].y;
        assert n in names;
        var i :| 0 <= i < |names| && names[i] == n;
      }
    }

    /** The second loop of `moveEnemies`: every enemy steps down and turns
        round when `reached`, or takes its own step otherwise; `invaded`
        says whether a descending enemy reached the row of some player. */
    method MarchFormation(reached: bool) returns (es: seq<EnemyState>, invaded: bool)
      requires reached == AnyAtBoundary(enemies, fieldWidth, fieldHeight)
      requires forall n :: n in names <==> n in players
      ensures es == March(enemies, fieldWidth, fieldHeight)
      ensures invaded == (reached && Invaded(es, players))
    {
      ghost var marched := March(enemies, fieldWidth, fieldHeight);
      assert forall j :: 0 <= j < |enemies| ==>
               marched[j] == if reached then Descend(enemies[j], fieldWidth, fieldHeight)
                             else MoveEnemy(enemies[j], fieldWidth, fieldHeight);
      es := enemies;
      invaded := false;
      var i := 0;
      while i < |es|
        invariant 0 <= i <= |es| == |enemies|
        invariant forall j :: 0 <= j < i ==> es[j] == marched[j]
        invariant forall j :: i <= j < |es| ==> es[j] == enemies[j]
        invariant invaded == (reached && Invaded(es[..i], players))
      {
        var direction := es[i].direction;
        if reached {
          var e := MoveEnemy(es[i].(direction := Down), fieldWidth, fieldHeight);
          e := e.(direction := if direction == Right then Left else Right);
          es := es[i := e];
          var below := ReachesAPlayer(e.y + e.height);
          if below {
            invaded := true;
          }
        } else {
          es := es[i := MoveEnemy(es[i], fieldWidth, fieldHeight)];
        }
        assert es[..i + 1] == es[..i] + [es[i]];
        InvadedSnoc(es[..i], es[i], players);
        i := i + 1;
      }
      assert es == marched;
      assert es[..i] == es;
    }

    method MoveEnemies()
      requires Valid()
      modifies this
      ensures Valid() && State() == MarchStep(old(State()), fieldWidth, fieldHeight)
    {
      ghost var r := MarchStep(State(), fieldWidth, fieldHeight);
      assert Registered(State());
      movementTicksCount := movementTicksCount + 1;
      if movementTicksCount == ticksBetweenMoves {
        movementTicksCount := 0;
        var reached := BoundaryReachedByAny();
        var es, invaded := MarchFormation(reached);
        enemies := es;
        if invaded {
          gameOver := true;
        }
      }
      assert State() == r;
    }

    /** One sweep of a bullet array, removing in the middle of the walk as
        the source's `splice` does. */
    method SweepBullets(bs: seq<BulletState>, d: Direction) returns (r: seq<BulletState>)
      ensures r == Sweep(bs, 0, d, fieldHeight)
    {
      r := bs;
      var k := 0;
      while k < |r|
        invariant Sweep(r, k, d, fieldHeight) == Sweep(bs, 0, d, fieldHeight)
        decreases |r| - k
      {
        var o := MoveBullet(r[k], d, fieldHeight);
        if o.status == AtBoundary {
          r := r[..k] + r[k + 1..];
        } else {
          r := r[k := o.bullet];
        }
        k := k + 1;
      }
    }

    /** The loop of `movePlayerBullets`: the queue of each name of `order`
        swept upwards in turn. */
    method SweepQueues(queues: map<string, seq<BulletState>>, order: seq<string>)
      returns (r: map<string, seq<BulletState>>)
      requires Distinct(order) && forall n :: n in order <==> n in queues
      ensures r.Keys == queues.Keys
      ensures forall n :: n in queues ==> r[n] == Sweep(queues[n], 0, Up, fieldHeight)
    {
      ghost var swept := map n | n in queues :: Sweep(queues[n], 0, Up, fieldHeight);
      r := queues;
      var j := 0;
      while j < |order|
        invariant 0 <= j <= |order|
        invariant r.Keys == queues.Keys
        invariant forall i :: 0 <= i < j ==> r[order[i]] == swept[order[i]]
        invariant forall i :: j <= i < |order| ==> r[order[i]] == queues[order[i]]
      {
        var q := SweepBullets(r[order[j]], Up);
        r := r[order[j] := q];
        j := j + 1;
      }
      forall n | n in queues ensures r[n] == swept[n] {
        var i :| 0 <= i < |order| && order[i] == n;
      }
    }

    method MovePlayerBullets()
      requires Valid()
      modifies this
      ensures Valid() && State() == MovePlayerVolleys(old(State()), fieldHeight)
    {
      ghost var r := MovePlayerVolleys(State(), fieldHeight);
      assert Registered(State());
      playerBullets := SweepQueues(playerBullets, names);
      assert playerBullets == r.playerBullets;
      assert State() == r;
    }

    method MoveEnemyBullets()
      requires Valid()
      modifies this
      ensures Valid() && State() == MoveEnemyVolley(old(State()), fieldHeight)
    {
      ghost var r := MoveEnemyVolley(State(), fieldHeight);
      enemyBullets := SweepBullets(enemyBullets, Down);
      assert State() == r;
    }

    // ------------------------------------------------------------ firing

    method FireBullet(name: string, image: Sprite)
      requires Valid() && FitsFrames(image, 1)
      modifies this
      ensures Valid() && State() == Scenes.FireBullet(old(State()), name, image)
    {
      ghost var r := Scenes.FireBullet(State(), name, image);
      if name in players {
        var p := players[name];
        var b := NewBullet(image, p.x + p.width / 2, p.y);
        playerBullets := playerBullets[name := playerBullets[name] + [b]];
      }
      assert State() == r;
    }

    /** `idx` stands for the randomly picked enemy. */
    method FireEnemyBullet(image: Sprite, idx: nat)
      requires Valid() && FitsFrames(image, 1)
      requires |enemies| > 0 ==> idx < |enemies|
      modifies this
      ensures Valid() && State() == FireEnemyShot(old(State()), image, idx)
    {
      ghost var r := FireEnemyShot(State(), image, idx);
      shotTicksCount := shotTicksCount + 1;
      if shotTicksCount == ticksBetweenShots && |enemies| > 0 {
        shotTicksCount := 0;
        var e := enemies[idx];
        enemyBullets := enemyBullets + [NewBullet(image, e.x + e.width / 2, e.y)];
      }
      assert State() == r;
    }

    // ------------------------------------------------------------ collisions

    /** The body of the innermost loop of `checkForPlayerBulletIntersections`
        for a bullet that hit: the bullet is spliced out, the player scores
        (and may earn a life), an explosion starts at the enemy and an enemy
        is spliced out. */
    method HitEnemy(e: EnemyState, ei: nat, removed: bool, name: string, k: nat, blast: Blast)
      requires FitsFrames(blast.image, blast.frames)
      requires name in players && name in playerBullets && k < |playerBullets[name]|
      requires !removed ==> ei < |enemies|
      modifies this
      ensures State() == PlayerHit(old(State()), e, ei, removed, name, k, blast)
    {
      ghost var r := PlayerHit(State(), e, ei, removed, name, k, blast);
      var bullets := playerBullets[name];
      playerBullets := playerBullets[name := bullets[..k] + bullets[k + 1..]];
      var p := players[name];
      if JsRem(p.score, LifeEvery) + e.hitScore >= LifeEvery {
        p := LifeAdded(p);
      }
      p := ScoreAdded(p, e.hitScore);
      players := players[name := p];
      explosions := explosions + [NewExplosion(blast.image, e.x, e.y, blast.frames, blast.ticksPerFrame)];
      // indexOf finds the enemy only while it is still in the array
      var index := if removed then -1 else ei;
      if index >= 0 {
        enemies := enemies[..index] + enemies[index + 1..];
      } else if |enemies| > 0 {
        enemies := enemies[..|enemies| - 1];
      }
      assert State() == r;
    }

    /** The innermost loop: the bullets of `name` checked against enemy `e`. */
    method HitsInQueue(e: EnemyState, ei: nat, removed: bool, name: string, blast: Blast) returns (removedOut: bool)
      requires FitsFrames(blast.image, blast.frames)
      requires name in players && name in playerBullets
      requires !removed ==> ei < |enemies|
      modifies this
      ensures Progress(State(), removedOut) == QueueHits(old(State()), e, ei, removed, name, 0, blast)
    {
      ghost var r := QueueHits(State(), e, ei, removed, name, 0, blast);
      removedOut := removed;
      var k := 0;
      while k < |playerBullets[name]|
        invariant name in players && name in playerBullets
        invariant !removedOut ==> ei < |enemies|
        invariant QueueHits(State(), e, ei, removedOut, name, k, blast) == r
        decreases |playerBullets[name]| - k
      {
        if Hits(playerBullets[name][k], e) {
          HitEnemy(e, ei, removedOut, name, k, blast);
          removedOut := true;
        }
        k := k + 1;
      }
    }

    /** The middle loop: every queue checked against enemy `ei`. */
    method HitsOnEnemy(ei: nat, blast: Blast)
      requires Keyed(State()) && FitsFrames(blast.image, blast.frames)
      requires ei < |enemies|
      modifies this
      ensures State() == NamesHits(old(State()), old(enemies[ei]), ei, false, 0, blast).scene
    {
      ghost var r := NamesHits(State(), enemies[ei], ei, false, 0, blast);
      var e := enemies[ei];
      var removed := false;
      var j := 0;
      while j < |names|
        invariant 0 <= j && Keyed(State())
        invariant !removed ==> ei < |enemies|
        invariant NamesHits(State(), e, ei, removed, j, blast) == r
        decreases |names| - j
      {
        NamesHitsStep(State(), e, ei, removed, j, blast);
        removed := HitsInQueue(e, ei, removed, names[j], blast);
        j := j + 1;
      }
    }

    method CheckForPlayerBulletIntersections(blast: Blast)
      requires Valid() && FitsFrames(blast.image, blast.frames)
      modifies this
      ensures Valid() && State() == PlayerBulletHits(old(State()), blast)
    {
      assert Keyed(State());
      ghost var r := EnemyHits(State(), 0, blast);
      var ei := 0;
      while ei < |enemies|
        invariant Keyed(State())
        invariant EnemyHits(State(), ei, blast) == r
        decreases |enemies| - ei
      {
        HitsOnEnemy(ei, blast);
        ei := ei + 1;
      }
      assert Consistent(old(State()));
    }

    /** The body of the inner loop of `checkForEnemyBulletIntersections` for
        a bullet that hit: the bullet is spliced out, an explosion starts at
        the player (pulled back inside the field), the player loses a life
        and the game ends when none is left. */
    method HitPlayer(name: string, k: nat, blast: Blast)
      requires fieldWidth > 0 && fieldHeight > 0 && name in players && k < |enemyBullets|
      requires FitsFrames(blast.image, blast.frames) && blast.image.width % 32 == 0
      modifies this
      ensures State() == ShotHit(old(State()), name, k, blast, fieldWidth, fieldHeight)
    {
      ghost var r := ShotHit(State(), name, k, blast, fieldWidth, fieldHeight);
      enemyBullets := enemyBullets[..k] + enemyBullets[k + 1..];
      var p := players[name];
      var x := p.x;
      var y := p.y;
      if x + blast.image.width / 32 > fieldWidth {
        x := x - JsRem(x + blast.image.width / 32, fieldWidth);
      }
      if y + blast.image.height > fieldHeight {
        y := y - JsRem(y + blast.image.height, fieldHeight);
      }
      explosions := explosions + [NewExplosion(blast.image, x, y, blast.frames, blast.ticksPerFrame)];
      p := LifeRemoved(p);
      players := players[name := p];
      if p.lives == 0 {
        gameOver := true;
      }
      assert State() == r;
    }

    /** The inner loop: the enemy bullets checked against the player `name`. */
    method ShotsOnPlayer(name: string, blast: Blast)
      requires fieldWidth > 0 && fieldHeight > 0 && name in players
      requires FitsFrames(blast.image, blast.frames) && blast.image.width % 32 == 0
      modifies this
      ensures State() == ShotQueue(old(State()), name, 0, blast, fieldWidth, fieldHeight)
    {
      ghost var r := ShotQueue(State(), name, 0, blast, fieldWidth, fieldHeight);
      var k := 0;
      while k < |enemyBullets|
        invariant name in players
        invariant ShotQueue(State(), name, k, blast, fieldWidth, fieldHeight) == r
        decreases |enemyBullets| - k
      {
        var p := players[name];
        if Intersects(enemyBullets[k], p.x, p.width, p.y, p.height) {
          HitPlayer(name, k, blast);
        }
        k := k + 1;
      }
    }

    method CheckForEnemyBulletIntersections(blast: Blast)
      requires Valid()
      requires FitsFrames(blast.image, blast.frames) && blast.image.width % 32 == 0
      modifies this
      ensures Valid() && State() == EnemyBulletHits(old(State()), blast, fieldWidth, fieldHeight)
    {
      ghost var start := State();
      assert Consistent(start) && fieldWidth > 0 && fieldHeight > 0;
      ghost var r := ShotsAt(start, 0, blast, fieldWidth, fieldHeight);
      assert Consistent(r);
      var j := 0;
      while j < |names|
        invariant 0 <= j && forall n :: n in names ==> n in players
        invariant ShotsAt(State(), j, blast, fieldWidth, fieldHeight) == r
        decreases |names| - j
      {
        ShotsAtStep(State(), j, blast, fieldWidth, fieldHeight);
        ShotsOnPlayer(names[j], blast);
        j := j + 1;
      }
      assert State() == r;
    }

    // ------------------------------------------------------------ animation

    /** Every bullet of an array with its clock advanced once. */
    method TickBullets(bs: seq<BulletState>) returns (r: seq<BulletState>)
      requires forall i :: 0 <= i < |bs| ==> bs[i].clock.frames >= 1
      ensures r == TickAll(bs)
    {
      r := bs;
      var i := 0;
      while i < |r|
        invariant 0 <= i <= |r| == |bs|
        invariant forall j :: 0 <= j < i ==> r[j] == bs[j].(clock := Tick(bs[j].clock))
        invariant forall j :: i <= j < |r| ==> r[j] == bs[j]
      {
        r := r[i := r[i].(clock := Tick(r[i].clock))];
        i := i + 1;
      }
    }

    /** The explosion loop: each explosion advances, a finished one is
        spliced out and the walk goes on at the next index. */
    method FadeExplosions(xs: seq<ExplosionState>) returns (r: seq<ExplosionState>)
      requires ExplosionsOk(xs)
      ensures r == Fade(xs, 0)
    {
      r := xs;
      var k := 0;
      while k < |r|
        invariant ExplosionsOk(r)
        invariant Fade(r, k) == Fade(xs, 0)
        decreases |r| - k
      {
        var o := UpdateExplosion(r[k]);
        if o.status == Finished {
          r := r[..k] + r[k + 1..];
        } else {
          r := r[k := o.explosion];
        }
        k := k + 1;
      }
    }

    /** The ship loop of `renderGameObjects`. */
    method TickShips() returns (ships: map<string, BattleshipState>)
      requires Valid()
      ensures ships == TickPlayers(players)
    {
      assert Registered(State()) && EntitiesOk(State());
      ships := players;
      var j := 0;
      while j < |names|
        invariant 0 <= j <= |names|
        invariant ships.Keys == players.Keys
        invariant forall n :: n in ships ==>
                    ships[n] == if n in names[..j] then players[n].(clock := Tick(players[n].clock)) else players[n]
      {
        var n := names[j];
        assert n !in names[..j];
        assert PlayerOk(ships[n]);
        ships := ships[n := ships[n].(clock := Tick(ships[n].clock))];
        assert names[..j + 1] == names[..j] + [n];
        j := j + 1;
      }
      assert names[..j] == names;
    }

    /** The enemy loop of `renderGameObjects`. */
    method TickInvaders() returns (es: seq<EnemyState>)
      requires Valid()
      ensures es == TickEnemies(enemies)
    {
      assert EntitiesOk(State());
      es := enemies;
      var i := 0;
      while i < |es|
        invariant 0 <= i <= |es| == |enemies|
        invariant forall k :: 0 <= k < i ==> es[k] == enemies[k].(clock := Tick(enemies[k].clock))
        invariant forall k :: i <= k < |es| ==> es[k] == enemies[k]
      {
        assert EnemyOk(es[i]);
        es := es[i := es[i].(clock := Tick(es[i].clock))];
        i := i + 1;
      }
    }

    /** The player-bullet loop of `renderGameObjects`: the queue of each
        name of `order` with its bullets' clocks advanced. */
    method TickVolleys(queues: map<string, seq<BulletState>>, order: seq<string>)
      returns (r: map<string, seq<BulletState>>)
      requires Distinct(order) && forall n :: n in order <==> n in queues
      requires forall n, i :: n in queues && 0 <= i < |queues[n]| ==> queues[n][i].clock.frames >= 1
      ensures r == TickQueues(queues)
    {
      r := queues;
      var j := 0;
      while j < |order|
        invariant 0 <= j <= |order|
        invariant r.Keys == queues.Keys
        invariant forall n :: n in r ==> r[n] == if n in order[..j] then TickAll(queues[n]) else queues[n]
      {
        var n := order[j];
        assert n !in order[..j];
        var q := TickBullets(r[n]);
        r := r[n := q];
        assert order[..j + 1] == order[..j] + [n];
        j := j + 1;
      }
      assert order[..j] == order;
      assert r == TickQueues(queues);
    }

    /** `renderGameObjects` without the drawing. */
    method RenderGameObjects()
      requires Valid()
      modifies this
      ensures Valid() && State() == Animate(old(State()))
    {
      assert EntitiesOk(State());
      ghost var r := Animate(State());
      var ships := TickShips();
      var es := TickInvaders();
      assert Registered(State());
      forall n, i | n in playerBullets && 0 <= i < |playerBullets[n]|
        ensures playerBullets[n][i].clock.frames >= 1
      {
        assert BulletsOk(playerBullets[n]);
      }
      var queues := TickVolleys(playerBullets, names);
      var shots := TickBullets(enemyBullets);
      var xs := FadeExplosions(explosions);
      players, enemies, playerBullets, enemyBullets, explosions := ships, es, queues, shots, xs;
      assert State() == r;
    }

    // ------------------------------------------------------------ levels

    /** The loop of `increaseLevel`: the queue of each name of `order`
        replaced by an empty one. */
    method ClearQueues(queues: map<string, seq<BulletState>>, order: seq<string>)
      returns (r: map<string, seq<BulletState>>)
      requires forall n :: n in order <==> n in queues
      ensures r.Keys == queues.Keys
      ensures forall n :: n in r ==> r[n] == []
    {
      r := queues;
      var j := 0;
      while j < |order|
        invariant 0 <= j <= |order|
        invariant r.Keys == queues.Keys
        invariant forall n :: n in r ==> r[n] == if n in order[..j] then [] else queues[n]
      {
        r := r[order[j] := []];
        assert order[..j + 1] == order[..j] + [order[j]];
        j := j + 1;
      }
      assert order[..j] == order;
    }

    method IncreaseLevel()
      requires Valid()
      modifies this
      ensures Valid() && State() == LevelUp(old(State()))
    {
      ghost var r := LevelUp(State());
      assert Registered(State());
      level := level + 1;
      playerBullets := ClearQueues(playerBullets, names);
      enemyBullets := [];
      assert playerBullets == r.playerBullets;
      assert State() == r;
    }

    method IncreaseDifficulty()
      requires Valid()
      modifies this
      ensures Valid() && State() == Harder(old(State()))
    {
      ghost var s0 := State();
      ghost var r := Harder(s0);
      if enemyRowCount <= 7 && level % 2 == 0 {
        enemyRowCount := enemyRowCount + 1;
      }
      if ticksBetweenShots >= 50 && level % 3 == 0 {
        ticksBetweenShots := ticksBetweenShots - 10;
        shotTicksCount := 0;
      }
      if ticksBetweenMoves >= 10 && level % 5 == 0 {
        ticksBetweenMoves := ticksBetweenMoves - 5;
        movementTicksCount := 0;
      }
      assert State() == r;
    }

    method SwitchSoundMuted()
      requires Valid()
      modifies this
      ensures Valid() && State() == SwitchSound(old(State()))
    {
      ghost var r := SwitchSound(State());
      soundMuted := !soundMuted;
      assert State() == r;
    }

    // ------------------------------------------------------------ queries

    method GetPlayerScore(name: string) returns (score: int)
      requires name in players
      ensures score == players[name].score
    {
      score := players[name].score;
    }

    method GetPlayerLives(name: string) returns (lives: int)
      requires name in players
      ensures lives == players[name].lives
    {
      lives := players[name].lives;
    }

    /** The sum of every player's score, in iteration order. */
    method GetTotalScore() returns (score: int)
      requires forall n :: n in names ==> n in players
      ensures score == ScoreSum(players, names)
    {
      score := 0;
      var j := 0;
      while j < |names|
        invariant 0 <= j <= |names|
        invariant score == ScoreSum(players, names[..j])
      {
        assert names[..j + 1] == names[..j] + [names[j]];
        ScoreSumSnoc(players, names[..j], names[j]);
        score := score + players[names[j]].score;
        j := j + 1;
      }
      assert names[..j] == names;
    }
  }
}
