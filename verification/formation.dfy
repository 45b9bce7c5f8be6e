/** The enemy formation: rows spawned across the field, and the march in
    which every enemy steps together and, once any of them is at an edge,
    all step down and turn round. */
module Formation {
  import opened GameObjects
  import opened Battleships
  import opened Enemies
  import opened Scenes

  /** Pixels left between neighbours in a row and between rows. */
  const Gap: int := 10

  /** How many enemies `spawnEnemyRow` places for a sheet `imageWidth`
      wide: its loop runs while i < (W - 2*imageWidth) / (imageWidth + 10)
      over the reals, which is the ceiling of that quotient, not its floor. */
  function RowSize(imageWidth: int, fieldWidth: int): nat
    requires imageWidth >= 0
  {
    var room := fieldWidth - 2 * imageWidth;
    if room <= 0 then 0 else (room + imageWidth + Gap - 1) / (imageWidth + Gap)
  }

  lemma DivBound(n: int, d: int, k: int)
    requires n >= 0 && d > 0 && k >= 0
    ensures k <= n / d <==> k * d <= n
  {
    var q := n / d;
    assert n == q * d + n % d;
    if k <= q {
      MulMono(k, q, d);
    } else {
      MulMono(q + 1, k, d);
      assert (q + 1) * d == q * d + d;
    }
  }

  /** The loop condition holds for exactly the first RowSize indices. */
  lemma RowSizeIsLoopBound(imageWidth: int, fieldWidth: int, i: nat)
    requires imageWidth >= 0
    ensures i < RowSize(imageWidth, fieldWidth) <==> i * (imageWidth + Gap) < fieldWidth - 2 * imageWidth
  {
    var room := fieldWidth - 2 * imageWidth;
    var d := imageWidth + Gap;
    MulMono(0, i, d);
    if room > 0 {
      DivBound(room + d - 1, d, i + 1);
      assert (i + 1) * d == i * d + d;
    }
  }

  /** An 800-pixel field and a 64-pixel sheet give 10 enemies a row, where
      the floor of 672 / 74 would give 9. */
  lemma CeilingNotFloor()
    ensures RowSize(64, 800) == 10 && (800 - 2 * 64) / (64 + Gap) == 9
  {
  }

  /** The top edge of the next row: one sheet height down from the top of
      the field, or one sheet height and a gap below the last enemy. */
  function NextRowY(enemies: seq<EnemyState>, image: Sprite): int
  {
    if |enemies| > 0 then enemies[|enemies| - 1].y + image.height + Gap else image.height
  }

  /** The enemies of one row, left to right, all heading right. */
  function Row(image: Sprite, hitScore: int, frames: int, ticksPerFrame: int, y: int, fieldWidth: int): seq<EnemyState>
    requires FitsFrames(image, frames)
  {
    seq(RowSize(image.width, fieldWidth),
        i requires 0 <= i => NewEnemy(image, i * (image.width + Gap), y, hitScore, Right, frames, ticksPerFrame))
  }

  /** Every enemy of a row lies inside the field with at least a sheet
      width to spare on the right, neighbours are a sheet width and a gap
      apart (so they never overlap), and all share the row's top edge. */
  lemma RowLayout(image: Sprite, hitScore: int, frames: int, ticksPerFrame: int, y: int, fieldWidth: int, i: nat)
    requires FitsFrames(image, frames)
    requires i < RowSize(image.width, fieldWidth)
    ensures var row := Row(image, hitScore, frames, ticksPerFrame, y, fieldWidth);
            var e := row[i];
            e.x == i * (image.width + Gap) &&
            0 <= e.x && e.x + e.width + image.width < fieldWidth &&
            e.y == y && e.direction == Right && e.hitScore == hitScore &&
            (i + 1 < |row| ==> row[i + 1].x == e.x + image.width + Gap && e.x + e.width < row[i + 1].x)
  {
    RowSizeIsLoopBound(image.width, fieldWidth, i);
    MulMono(0, i, image.width + Gap);
    assert (i + 1) * (image.width + Gap) == i * (image.width + Gap) + image.width + Gap;
  }

  /** `spawnEnemyRow`: a row appended below the existing enemies, which are
      left as they were. */
  function SpawnRow(sc: Scene, image: Sprite, hitScore: int, frames: int, ticksPerFrame: int,
                    fieldWidth: int): (r: Scene)
    requires EvenFrames(image, frames)
    ensures r == sc.(enemies := r.enemies)
    ensures |r.enemies| == |sc.enemies| + RowSize(image.width, fieldWidth)
    ensures r.enemies[..|sc.enemies|] == sc.enemies
    ensures forall i :: |sc.enemies| <= i < |r.enemies| ==>
              r.enemies[i].y == NextRowY(sc.enemies, image) && r.enemies[i].hitScore == hitScore
    ensures Consistent(sc) ==> Consistent(r)
  {
    var row := Row(image, hitScore, frames, ticksPerFrame, NextRowY(sc.enemies, image), fieldWidth);
    sc.(enemies := sc.enemies + row)
  }

  predicate MetaDataFits(md: seq<EnemyMetaData>)
  {
    |md| > 0 && forall k :: 0 <= k < |md| ==> EvenFrames(md[k].image, md[k].frames)
  }

  /** Rows i, i+1, ... up to the row count, row k built from entry
      k mod |md| of the metadata. */
  function SpawnRows(sc: Scene, md: seq<EnemyMetaData>, i: nat, fieldWidth: int): (r: Scene)
    requires MetaDataFits(md)
    ensures r == sc.(enemies := r.enemies)
    ensures |r.enemies| >= |sc.enemies| && r.enemies[..|sc.enemies|] == sc.enemies
    ensures Consistent(sc) ==> Consistent(r)
    decreases sc.enemyRowCount - i
  {
    if i >= sc.enemyRowCount then sc
    else
      var m := md[i % |md|];
      SpawnRows(SpawnRow(sc, m.image, m.hitScore, m.frames, m.ticksPerFrame, fieldWidth), md, i + 1, fieldWidth)
  }

  /** The number of enemies rows i .. count-1 hold. */
  function RowsTotal(md: seq<EnemyMetaData>, i: nat, count: int, fieldWidth: int): nat
    requires MetaDataFits(md)
    decreases count - i
  {
    if i >= count then 0
    else RowSize(md[i % |md|].image.width, fieldWidth) + RowsTotal(md, i + 1, count, fieldWidth)
  }

  /** `spawnEnemies` adds exactly as many enemies as its rows hold. */
  lemma {:induction false} SpawnRowsCount(sc: Scene, md: seq<EnemyMetaData>, i: nat, fieldWidth: int)
    requires MetaDataFits(md)
    ensures |SpawnRows(sc, md, i, fieldWidth).enemies| == |sc.enemies| + RowsTotal(md, i, sc.enemyRowCount, fieldWidth)
    decreases sc.enemyRowCount - i
  {
    if i < sc.enemyRowCount {
      var m := md[i % |md|];
      SpawnRowsCount(SpawnRow(sc, m.image, m.hitScore, m.frames, m.ticksPerFrame, fieldWidth), md, i + 1, fieldWidth);
    }
  }

  /** With a single kind of enemy every row has the same size. */
  lemma {:induction false} UniformRowsTotal(md: seq<EnemyMetaData>, i: nat, count: int, fieldWidth: int)
    requires MetaDataFits(md) && |md| == 1 && i <= count
    ensures RowsTotal(md, i, count, fieldWidth) == (count - i) * RowSize(md[0].image.width, fieldWidth)
    decreases count - i
  {
    if i < count {
      UniformRowsTotal(md, i + 1, count, fieldWidth);
    }
  }

  /** One kind of enemy and the initial four rows give four equal rows. */
  lemma FourEqualRows(sc: Scene, md: seq<EnemyMetaData>, fieldWidth: int)
    requires MetaDataFits(md) && |md| == 1 && sc.enemyRowCount == 4
    ensures |SpawnRows(sc, md, 0, fieldWidth).enemies|
            == |sc.enemies| + 4 * RowSize(md[0].image.width, fieldWidth)
  {
    SpawnRowsCount(sc, md, 0, fieldWidth);
    UniformRowsTotal(md, 0, 4, fieldWidth);
  }

  /** The enemies after appending rows i .. count-1 to `es`, row k built
      from entry k mod |md| and placed one row below what is already there. */
  function AppendRows(es: seq<EnemyState>, md: seq<EnemyMetaData>, i: nat, count: int, fieldWidth: int): (r: seq<EnemyState>)
    requires MetaDataFits(md)
    ensures |r| >= |es| && r[..|es|] == es
    decreases count - i
  {
    if i >= count then es
    else
      var m := md[i % |md|];
      AppendRows(es + Row(m.image, m.hitScore, m.frames, m.ticksPerFrame, NextRowY(es, m.image), fieldWidth),
                 md, i + 1, count, fieldWidth)
  }

  /** `spawnEnemies` appends exactly those rows to the enemies. */
  lemma {:induction false} SpawnRowsAppend(sc: Scene, md: seq<EnemyMetaData>, i: nat, fieldWidth: int)
    requires MetaDataFits(md)
    ensures SpawnRows(sc, md, i, fieldWidth).enemies == AppendRows(sc.enemies, md, i, sc.enemyRowCount, fieldWidth)
    decreases sc.enemyRowCount - i
  {
    if i < sc.enemyRowCount {
      var m := md[i % |md|];
      SpawnRowsAppend(SpawnRow(sc, m.image, m.hitScore, m.frames, m.ticksPerFrame, fieldWidth), md, i + 1, fieldWidth);
    }
  }

  /** The enemy at `start + j` of `r` is the j-th of the row built from
      `m` (sheet, hit score, frames and frame delay) one row below the
      first `start` enemies of `r`. */
  predicate RowEnemyAt(r: seq<EnemyState>, start: nat, m: EnemyMetaData, fieldWidth: int, j: nat)
    requires EvenFrames(m.image, m.frames)
    requires j < RowSize(m.image.width, fieldWidth)
  {
    start + j < |r| &&
    r[start + j] == Row(m.image, m.hitScore, m.frames, m.ticksPerFrame, NextRowY(r[..start], m.image), fieldWidth)[j]
  }

  /** The first row appended, row i, comes straight after `es` and is
      the row built from entry i mod |md| one row below `es`. */
  lemma AppendRowsFirst(es: seq<EnemyState>, md: seq<EnemyMetaData>, i: nat, count: int, fieldWidth: int, j: nat)
    requires MetaDataFits(md)
    requires i < count && j < RowSize(md[i % |md|].image.width, fieldWidth)
    ensures RowEnemyAt(AppendRows(es, md, i, count, fieldWidth), |es|, md[i % |md|], fieldWidth, j)
  {
    var m := md[i % |md|];
    var row := Row(m.image, m.hitScore, m.frames, m.ticksPerFrame, NextRowY(es, m.image), fieldWidth);
    var es1 := es + row;
    var r := AppendRows(es1, md, i + 1, count, fieldWidth);
    assert r == AppendRows(es, md, i, count, fieldWidth);
    assert r[|es| + j] == es1[|es| + j] == row[j];
    assert r[..|es|] == es1[..|es|] == es;
  }

  /** Row k (for i <= k < count) of the appended rows starts after `es`
      and the rows i .. k-1, and is the row built from entry k mod |md|
      one row below the enemies before it. With SpawnRowsAppend (and
      i = 0) this is the layout `spawnEnemies` produces; RowLayout gives
      each enemy's place inside its row. */
  lemma {:induction false} AppendRowsLayout(es: seq<EnemyState>, md: seq<EnemyMetaData>, i: nat, count: int,
                                            fieldWidth: int, k: nat, j: nat)
    requires MetaDataFits(md)
    requires i <= k < count && j < RowSize(md[k % |md|].image.width, fieldWidth)
    ensures RowEnemyAt(AppendRows(es, md, i, count, fieldWidth), |es| + RowsTotal(md, i, k, fieldWidth),
                       md[k % |md|], fieldWidth, j)
    decreases k - i
  {
    if k == i {
      AppendRowsFirst(es, md, i, count, fieldWidth, j);
    } else {
      var m := md[i % |md|];
      var es1 := es + Row(m.image, m.hitScore, m.frames, m.ticksPerFrame, NextRowY(es, m.image), fieldWidth);
      assert AppendRows(es, md, i, count, fieldWidth) == AppendRows(es1, md, i + 1, count, fieldWidth);
      assert |es| + RowsTotal(md, i, k, fieldWidth) == |es1| + RowsTotal(md, i + 1, k, fieldWidth);
      AppendRowsLayout(es1, md, i + 1, count, fieldWidth, k, j);
    }
  }

  // ---------------------------------------------------------------- march

  /** Some enemy reports an edge in its own direction. */
  predicate AnyAtBoundary(es: seq<EnemyState>, fieldWidth: int, fieldHeight: int)
  {
    exists i :: 0 <= i < |es| && BoundaryReached(es[i], fieldWidth, fieldHeight)
  }

  /** One enemy's share of a descent: a step down (if there is room), then
      the opposite heading; anything not heading right ends heading right. */
  function Descend(e: EnemyState, fieldWidth: int, fieldHeight: int): (r: EnemyState)
    ensures r == e.(y := r.y, direction := r.direction)
    ensures r.direction == (if e.direction == Right then Left else Right)
    ensures e.y + VerticalSpeed + e.height < fieldHeight ==> r.y == e.y + VerticalSpeed
    ensures e.y + VerticalSpeed + e.height >= fieldHeight ==> r.y == e.y
  {
    var down := MoveEnemy(e.(direction := Down), fieldWidth, fieldHeight);
    down.(direction := if e.direction == Right then Left else Right)
  }

  /** The formation after one acting step: all descend if any is at an
      edge, otherwise each takes its own step. */
  function March(es: seq<EnemyState>, fieldWidth: int, fieldHeight: int): (r: seq<EnemyState>)
    ensures |r| == |es|
  {
    var reached := AnyAtBoundary(es, fieldWidth, fieldHeight);
    seq(|es|, i requires 0 <= i < |es| =>
      if reached then Descend(es[i], fieldWidth, fieldHeight) else MoveEnemy(es[i], fieldWidth, fieldHeight))
  }

  /** Some enemy's bottom edge is at or below some player's top edge. */
  predicate Invaded(es: seq<EnemyState>, players: map<string, BattleshipState>)
  {
    exists i, n :: 0 <= i < |es| && n in players && es[i].y + es[i].height >= players[n].y
  }

  /** An enemy added to a formation invades exactly when the formation
      did or the new enemy's bottom edge reaches some player's top edge. */
  lemma InvadedSnoc(es: seq<EnemyState>, e: EnemyState, players: map<string, BattleshipState>)
    ensures Invaded(es + [e], players) <==>
            Invaded(es, players) || exists n :: n in players && e.y + e.height >= players[n].y
  {
    var es' := es + [e];
    if exists n :: n in players && e.y + e.height >= players[n].y {
      var n :| n in players && e.y + e.height >= players[n].y;
      assert es'[|es|] == e;
    }
    if Invaded(es, players) {
      var i, n :| 0 <= i < |es| && n in players && es[i].y + es[i].height >= players[n].y;
      assert es'[i] == es[i];
    }
    if Invaded(es', players) {
      var i, n :| 0 <= i < |es'| && n in players && es'[i].y + es'[i].height >= players[n].y;
      if i < |es| {
        assert es'[i] == es[i];
      }
    }
  }

  /** `moveEnemies`: the move counter is incremented and, on reaching the
      threshold, reset while the formation marches; after a descent the game
      is over if an enemy has reached a player's row. */
  function MarchStep(sc: Scene, fieldWidth: int, fieldHeight: int): (r: Scene)
    ensures var c := sc.movementTicksCount + 1;
            if c == sc.ticksBetweenMoves then
              r.movementTicksCount == 0 && r.enemies == March(sc.enemies, fieldWidth, fieldHeight) &&
              r.gameOver == (sc.gameOver ||
                             (AnyAtBoundary(sc.enemies, fieldWidth, fieldHeight) && Invaded(r.enemies, sc.players)))
            else
              r == sc.(movementTicksCount := c)
    ensures r == sc.(movementTicksCount := r.movementTicksCount, enemies := r.enemies, gameOver := r.gameOver)
    ensures sc.gameOver ==> r.gameOver
    ensures r.gameOver && !sc.gameOver ==>
              AnyAtBoundary(sc.enemies, fieldWidth, fieldHeight) && Invaded(r.enemies, r.players)
    ensures Consistent(sc) ==> Consistent(r)
  {
    var c := sc.movementTicksCount + 1;
    if c != sc.ticksBetweenMoves then sc.(movementTicksCount := c)
    else
      var es := March(sc.enemies, fieldWidth, fieldHeight);
      var invaded := AnyAtBoundary(sc.enemies, fieldWidth, fieldHeight) && Invaded(es, sc.players);
      var r := sc.(movementTicksCount := 0, enemies := es, gameOver := sc.gameOver || invaded);
      assert Consistent(sc) ==> EntitiesOk(r) by {
        if Consistent(sc) {
          forall i | 0 <= i < |es| ensures EnemyOk(es[i]) {
            assert EnemyOk(sc.enemies[i]);
          }
        }
      }
      r
  }

  /** Without an enemy at an edge, every enemy heading sideways takes a
      full step in its own direction and keeps its row: the formation moves
      in lockstep. */
  lemma MarchLockstep(es: seq<EnemyState>, fieldWidth: int, fieldHeight: int, i: nat)
    requires !AnyAtBoundary(es, fieldWidth, fieldHeight)
    requires i < |es| && (es[i].direction == Left || es[i].direction == Right)
    ensures var r := March(es, fieldWidth, fieldHeight)[i];
            r.y == es[i].y && r.direction == es[i].direction &&
            r.x == (if es[i].direction == Right then es[i].x + Enemies.Speed else es[i].x - Enemies.Speed)
  {
    assert !BoundaryReached(es[i], fieldWidth, fieldHeight);
    LateralBoundaryIsRefusedMove(es[i], fieldWidth, fieldHeight);
  }

  /** With an enemy at an edge, every enemy keeps its column, steps down if
      it has room and turns round. */
  lemma MarchDescent(es: seq<EnemyState>, fieldWidth: int, fieldHeight: int, i: nat)
    requires AnyAtBoundary(es, fieldWidth, fieldHeight) && i < |es|
    ensures var r := March(es, fieldWidth, fieldHeight)[i];
            r.x == es[i].x &&
            r.y == (if es[i].y + VerticalSpeed + es[i].height < fieldHeight then es[i].y + VerticalSpeed else es[i].y) &&
            r.direction == (if es[i].direction == Right then Left else Right)
  {
  }

  /** Enemies inside the field stay inside it through any march. */
  lemma MarchKeepsField(es: seq<EnemyState>, fieldWidth: int, fieldHeight: int)
    requires forall i :: 0 <= i < |es| ==>
               0 < es[i].x && es[i].x + es[i].width < fieldWidth && es[i].y + es[i].height < fieldHeight
    ensures var r := March(es, fieldWidth, fieldHeight);
            forall i :: 0 <= i < |r| ==>
              0 < r[i].x && r[i].x + r[i].width < fieldWidth && r[i].y + r[i].height < fieldHeight
  {
    var r := March(es, fieldWidth, fieldHeight);
    forall i | 0 <= i < |r|
      ensures 0 < r[i].x && r[i].x + r[i].width < fieldWidth && r[i].y + r[i].height < fieldHeight
    {
      MoveKeepsEdges(es[i], fieldWidth, fieldHeight);
    }
  }

  /** `n` calls of `moveEnemies`. */
  function MarchSteps(sc: Scene, n: nat, fieldWidth: int, fieldHeight: int): Scene
  {
    if n == 0 then sc else MarchStep(MarchSteps(sc, n - 1, fieldWidth, fieldHeight), fieldWidth, fieldHeight)
  }

  /** Below the threshold the calls only count; the formation stands. */
  lemma {:induction false} QuietUntilDue(sc: Scene, n: nat, fieldWidth: int, fieldHeight: int)
    requires 0 <= sc.movementTicksCount && sc.movementTicksCount + n < sc.ticksBetweenMoves
    ensures MarchSteps(sc, n, fieldWidth, fieldHeight)
            == sc.(movementTicksCount := sc.movementTicksCount + n)
  {
    if n > 0 {
      QuietUntilDue(sc, n - 1, fieldWidth, fieldHeight);
    }
  }

  /** From a counter c below the threshold t, the formation marches exactly
      once in t - c calls, on the last one: with the initial threshold of
      20, twenty calls from a fresh service move every enemy once. */
  lemma MarchCadence(sc: Scene, fieldWidth: int, fieldHeight: int)
    requires 0 <= sc.movementTicksCount < sc.ticksBetweenMoves
    ensures var n := sc.ticksBetweenMoves - sc.movementTicksCount;
            var r := MarchSteps(sc, n, fieldWidth, fieldHeight);
            r.movementTicksCount == 0 && r.enemies == March(sc.enemies, fieldWidth, fieldHeight)
  {
    QuietUntilDue(sc, sc.ticksBetweenMoves - sc.movementTicksCount - 1, fieldWidth, fieldHeight);
  }
}
