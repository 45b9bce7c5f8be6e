/** Hit resolution: player bullets against enemies (score, extra lives,
    explosions, removals) and enemy bullets against players (lives, game
    over).  Both passes walk live arrays with `for…of` while splicing, so a
    bullet that shifts into a freed slot is not checked in that pass, and an
    enemy already spliced out is still the one the remaining bullets of its
    turn are checked against. */
module Collisions {
  import opened GameObjects
  import opened Battleships
  import opened Bullets
  import opened Enemies
  import opened Explosions
  import opened Scenes

  /** A score threshold whose every crossing earns a life. */
  const LifeEvery: int := 2000

  /** The remainder of JavaScript's `%`: it takes the sign of the dividend. */
  function JsRem(a: int, m: int): (r: int)
    requires m > 0
    ensures a >= 0 ==> 0 <= r < m
    ensures a < 0 ==> -m < r <= 0
  {
    if a >= 0 then a % m else -((-a) % m)
  }

  /** The extra-life test of a hit worth `points`. */
  predicate EarnsLife(score: int, points: int)
  {
    JsRem(score, LifeEvery) + points >= LifeEvery
  }

  /** For a non-negative score and worth, the test grants a life exactly
      when the new score passes a multiple of 2000 the old one had not. */
  lemma EarnsLifeOnCrossing(score: int, points: int)
    requires score >= 0 && points >= 0
    ensures EarnsLife(score, points) <==> score / LifeEvery < (score + points) / LifeEvery
  {
    var q, r := score / LifeEvery, score % LifeEvery;
    assert score == q * LifeEvery + r;
    assert score + points == q * LifeEvery + (r + points);
    if r + points >= LifeEvery {
      assert (score + points) / LifeEvery >= q + 1;
    } else {
      assert (score + points) / LifeEvery == q;
    }
  }

  /** Worth points big enough to pass two multiples still earn one life. */
  lemma OneLifePerHit()
    ensures EarnsLife(1990, 4020) && 1990 / LifeEvery + 3 == (1990 + 4020) / LifeEvery
  {
  }

  /** Where each of a player's scoring state ends after one hit. */
  function Awarded(p: BattleshipState, points: int): (r: BattleshipState)
    ensures r == p.(score := r.score, lives := r.lives)
    ensures r.score == p.score + points
    ensures EarnsLife(p.score, points) ==> r.lives == p.lives + 1
    ensures !EarnsLife(p.score, points) ==> r.lives == p.lives
  {
    ScoreAdded(if EarnsLife(p.score, points) then LifeAdded(p) else p, points)
  }

  // ------------------------------------------------- player bullets hit enemies

  /** The enemy removal of one hit: the enemy under test at its own index
      the first time; once it is gone `indexOf` gives -1 and `splice(-1, 1)`
      takes the last enemy, if any. */
  function RemoveEnemy(es: seq<EnemyState>, ei: nat, removed: bool): (r: seq<EnemyState>)
    requires !removed ==> ei < |es|
    ensures |es| > 0 ==> |r| == |es| - 1
    ensures |es| == 0 ==> r == []
    ensures forall x :: x in r ==> x in es
    ensures !removed ==> r == Remove(es, ei)
    ensures removed && |es| > 0 ==> r == es[..|es| - 1]
  {
    if !removed then Remove(es, ei)
    else if |es| > 0 then es[..|es| - 1]
    else es
  }

  /** Every bullet queue the names list is keyed, with its player. */
  predicate Keyed(sc: Scene)
  {
    forall n :: n in sc.names ==> n in sc.players && n in sc.playerBullets
  }

  /** The scene part of a hit pass and whether the enemy under test has
      been spliced out already. */
  datatype Progress = Progress(scene: Scene, removed: bool)

  /** One hit of bullet k of `name`'s queue on enemy `e`: the bullet leaves
      the queue, the player earns the enemy's worth (and a life when the
      test grants it), an explosion starts at the enemy's position and an
      enemy is removed. */
  function PlayerHit(sc: Scene, e: EnemyState, ei: nat, removed: bool, name: string, k: nat, blast: Blast): (r: Scene)
    requires name in sc.players && name in sc.playerBullets && k < |sc.playerBullets[name]|
    requires !removed ==> ei < |sc.enemies|
    requires FitsFrames(blast.image, blast.frames)
    ensures r == sc.(players := r.players, playerBullets := r.playerBullets, enemies := r.enemies,
                     explosions := r.explosions)
    ensures r.players == sc.players[name := Awarded(sc.players[name], e.hitScore)]
    ensures r.playerBullets == sc.playerBullets[name := Remove(sc.playerBullets[name], k)]
    ensures r.enemies == RemoveEnemy(sc.enemies, ei, removed)
    ensures r.explosions == sc.explosions + [NewExplosion(blast.image, e.x, e.y, blast.frames, blast.ticksPerFrame)]
    ensures Consistent(sc) ==> Consistent(r)
  {
    var q := sc.playerBullets[name];
    var r := sc.(players := sc.players[name := Awarded(sc.players[name], e.hitScore)],
                 playerBullets := sc.playerBullets[name := Remove(q, k)],
                 enemies := RemoveEnemy(sc.enemies, ei, removed),
                 explosions := sc.explosions + [NewExplosion(blast.image, e.x, e.y, blast.frames, blast.ticksPerFrame)]);
    assert Consistent(sc) ==> Consistent(r) by {
      if Consistent(sc) {
        assert PlayerOk(sc.players[name]);
        assert BulletsOk(q);
        assert BulletsOk(Remove(q, k)) by {
          forall i | 0 <= i < |Remove(q, k)| ensures Remove(q, k)[i].clock.Valid() {
            if i >= k { assert Remove(q, k)[i] == q[i + 1]; }
          }
        }
        forall i | 0 <= i < |r.enemies| ensures EnemyOk(r.enemies[i]) {
          assert r.enemies[i] in sc.enemies;
        }
      }
    }
    r
  }

  predicate Hits(b: BulletState, e: EnemyState)
  {
    Intersects(b, e.x, e.width, e.y, e.height)
  }

  /** The innermost loop: `name`'s bullets from index k on, checked against
      enemy `e`. */
  function QueueHits(sc: Scene, e: EnemyState, ei: nat, removed: bool, name: string, k: nat, blast: Blast): (r: Progress)
    requires name in sc.players && name in sc.playerBullets
    requires !removed ==> ei < |sc.enemies|
    requires FitsFrames(blast.image, blast.frames)
    ensures r.scene == sc.(players := r.scene.players, playerBullets := r.scene.playerBullets,
                           enemies := r.scene.enemies, explosions := r.scene.explosions)
    ensures r.scene.players.Keys == sc.players.Keys && r.scene.playerBullets.Keys == sc.playerBullets.Keys
    ensures |r.scene.enemies| <= |sc.enemies| && forall x :: x in r.scene.enemies ==> x in sc.enemies
    ensures removed ==> r.removed
    ensures !r.removed ==> r.scene.enemies == sc.enemies && ei < |sc.enemies|
    ensures Consistent(sc) ==> Consistent(r.scene)
    decreases |sc.playerBullets[name]| - k
  {
    var q := sc.playerBullets[name];
    if k >= |q| then Progress(sc, removed)
    else if Hits(q[k], e) then
      QueueHits(PlayerHit(sc, e, ei, removed, name, k, blast), e, ei, true, name, k + 1, blast)
    else
      QueueHits(sc, e, ei, removed, name, k + 1, blast)
  }

  /** The middle loop: the queues of names j, j+1, ... checked against `e`. */
  function NamesHits(sc: Scene, e: EnemyState, ei: nat, removed: bool, j: nat, blast: Blast): (r: Progress)
    requires Keyed(sc)
    requires !removed ==> ei < |sc.enemies|
    requires FitsFrames(blast.image, blast.frames)
    ensures r.scene == sc.(players := r.scene.players, playerBullets := r.scene.playerBullets,
                           enemies := r.scene.enemies, explosions := r.scene.explosions)
    ensures r.scene.players.Keys == sc.players.Keys && r.scene.playerBullets.Keys == sc.playerBullets.Keys
    ensures Keyed(r.scene)
    ensures |r.scene.enemies| <= |sc.enemies| && forall x :: x in r.scene.enemies ==> x in sc.enemies
    ensures removed ==> r.removed
    ensures !r.removed ==> r.scene.enemies == sc.enemies
    ensures Consistent(sc) ==> Consistent(r.scene)
    decreases |sc.names| - j
  {
    if j >= |sc.names| then Progress(sc, removed)
    else
      var p := QueueHits(sc, e, ei, removed, sc.names[j], 0, blast);
      NamesHits(p.scene, e, ei, p.removed, j + 1, blast)
  }

  /** One step of the middle loop: the queue of names[j], then the rest. */
  lemma NamesHitsStep(sc: Scene, e: EnemyState, ei: nat, removed: bool, j: nat, blast: Blast)
    requires Keyed(sc) && j < |sc.names|
    requires !removed ==> ei < |sc.enemies|
    requires FitsFrames(blast.image, blast.frames)
    ensures var p := QueueHits(sc, e, ei, removed, sc.names[j], 0, blast);
            Keyed(p.scene) && (!p.removed ==> ei < |p.scene.enemies|) &&
            NamesHits(sc, e, ei, removed, j, blast) == NamesHits(p.scene, e, ei, p.removed, j + 1, blast)
  {
  }

  /** The outer loop: enemies from index ei on, each checked against every
      queue.  After a removal the walk goes on at ei + 1 of the shortened
      array. */
  function EnemyHits(sc: Scene, ei: nat, blast: Blast): (r: Scene)
    requires Keyed(sc)
    requires FitsFrames(blast.image, blast.frames)
    ensures r == sc.(players := r.players, playerBullets := r.playerBullets, enemies := r.enemies,
                     explosions := r.explosions)
    ensures r.players.Keys == sc.players.Keys && r.playerBullets.Keys == sc.playerBullets.Keys
    ensures Keyed(r)
    ensures |r.enemies| <= |sc.enemies| && forall x :: x in r.enemies ==> x in sc.enemies
    ensures Consistent(sc) ==> Consistent(r)
    decreases |sc.enemies| - ei
  {
    if ei >= |sc.enemies| then sc
    else
      var p := NamesHits(sc, sc.enemies[ei], ei, false, 0, blast);
      EnemyHits(p.scene, ei + 1, blast)
  }

  /** `checkForPlayerBulletIntersections`. */
  function PlayerBulletHits(sc: Scene, blast: Blast): (r: Scene)
    requires Keyed(sc)
    requires FitsFrames(blast.image, blast.frames)
    ensures r == sc.(players := r.players, playerBullets := r.playerBullets, enemies := r.enemies,
                     explosions := r.explosions)
    ensures |r.enemies| <= |sc.enemies| && forall x :: x in r.enemies ==> x in sc.enemies
    ensures Consistent(sc) ==> Consistent(r)
  {
    EnemyHits(sc, 0, blast)
  }

  // ------------------------------------------------------------ no hit, no change

  predicate Misses(q: seq<BulletState>, e: EnemyState)
  {
    forall k :: 0 <= k < |q| ==> !Hits(q[k], e)
  }

  /** No bullet of any listed queue touches any enemy. */
  predicate AllMiss(sc: Scene)
    requires Keyed(sc)
  {
    forall i, j :: 0 <= i < |sc.enemies| && 0 <= j < |sc.names| ==>
      Misses(sc.playerBullets[sc.names[j]], sc.enemies[i])
  }

  lemma {:induction false} QueueMisses(sc: Scene, e: EnemyState, ei: nat, removed: bool, name: string, k: nat, blast: Blast)
    requires name in sc.players && name in sc.playerBullets
    requires !removed ==> ei < |sc.enemies|
    requires FitsFrames(blast.image, blast.frames)
    requires Misses(sc.playerBullets[name], e)
    ensures QueueHits(sc, e, ei, removed, name, k, blast) == Progress(sc, removed)
    decreases |sc.playerBullets[name]| - k
  {
    if k < |sc.playerBullets[name]| {
      QueueMisses(sc, e, ei, removed, name, k + 1, blast);
    }
  }

  lemma {:induction false} NamesMiss(sc: Scene, e: EnemyState, ei: nat, j: nat, blast: Blast)
    requires Keyed(sc) && ei < |sc.enemies|
    requires FitsFrames(blast.image, blast.frames)
    requires forall j' :: 0 <= j' < |sc.names| ==> Misses(sc.playerBullets[sc.names[j']], e)
    ensures NamesHits(sc, e, ei, false, j, blast) == Progress(sc, false)
    decreases |sc.names| - j
  {
    if j < |sc.names| {
      QueueMisses(sc, e, ei, false, sc.names[j], 0, blast);
      NamesMiss(sc, e, ei, j + 1, blast);
    }
  }

  /** When no bullet touches any enemy the pass changes nothing. */
  lemma {:induction false} NoHitNoChange(sc: Scene, ei: nat, blast: Blast)
    requires Keyed(sc) && AllMiss(sc)
    requires FitsFrames(blast.image, blast.frames)
    ensures EnemyHits(sc, ei, blast) == sc
    decreases |sc.enemies| - ei
  {
    if ei < |sc.enemies| {
      var e := sc.enemies[ei];
      assert forall j' :: 0 <= j' < |sc.names| ==> Misses(sc.playerBullets[sc.names[j']], e);
      NamesMiss(sc, e, ei, 0, blast);
      NoHitNoChange(sc, ei + 1, blast);
    }
  }

  // ------------------------------------------------------------ accounting

  /** The number of bullets in the queues of `names`. */
  function BulletCount(pb: map<string, seq<BulletState>>, names: seq<string>): nat
    requires forall n :: n in names ==> n in pb
  {
    if names == [] then 0 else |pb[names[0]]| + BulletCount(pb, names[1..])
  }

  /** Replacing one listed queue changes the count by the change in its
      length; replacing an unlisted one changes nothing. */
  lemma {:induction false} BulletCountUpdate(pb: map<string, seq<BulletState>>, names: seq<string>,
                                             name: string, q: seq<BulletState>)
    requires forall n :: n in names ==> n in pb
    requires name in pb && Distinct(names)
    ensures BulletCount(pb[name := q], names)
            == BulletCount(pb, names) + (if name in names then |q| - |pb[name]| else 0)
  {
    if names != [] {
      var tail := names[1..];
      assert Distinct(tail) by {
        forall i, j | 0 <= i < j < |tail| ensures tail[i] != tail[j] {
          assert tail[i] == names[i + 1] && tail[j] == names[j + 1];
        }
      }
      if names[0] == name {
        assert name !in tail by {
          forall j | 0 <= j < |tail| ensures tail[j] != names[0] {
            assert tail[j] == names[j + 1];
          }
        }
      }
      BulletCountUpdate(pb, tail, name, q);
    }
  }

  /** Every bullet a hit takes out of a queue starts one explosion, and an
      enemy disappears for at most one explosion each. */
  predicate Accounted(sc: Scene, r: Scene)
    requires Keyed(sc) && r.names == sc.names
    requires forall n :: n in sc.names ==> n in r.playerBullets
  {
    BulletCount(r.playerBullets, sc.names) + |r.explosions|
      == BulletCount(sc.playerBullets, sc.names) + |sc.explosions| &&
    |r.enemies| + |r.explosions| >= |sc.enemies| + |sc.explosions|
  }

  lemma {:induction false} QueueAccounting(sc: Scene, e: EnemyState, ei: nat, removed: bool, name: string, k: nat, blast: Blast)
    requires Keyed(sc) && Distinct(sc.names) && name in sc.names
    requires !removed ==> ei < |sc.enemies|
    requires FitsFrames(blast.image, blast.frames)
    ensures Accounted(sc, QueueHits(sc, e, ei, removed, name, k, blast).scene)
    decreases |sc.playerBullets[name]| - k
  {
    var q := sc.playerBullets[name];
    if k < |q| {
      if Hits(q[k], e) {
        var s1 := PlayerHit(sc, e, ei, removed, name, k, blast);
        BulletCountUpdate(sc.playerBullets, sc.names, name, Remove(q, k));
        QueueAccounting(s1, e, ei, true, name, k + 1, blast);
      } else {
        QueueAccounting(sc, e, ei, removed, name, k + 1, blast);
      }
    }
  }

  lemma {:induction false} NamesAccounting(sc: Scene, e: EnemyState, ei: nat, removed: bool, j: nat, blast: Blast)
    requires Keyed(sc) && Distinct(sc.names)
    requires !removed ==> ei < |sc.enemies|
    requires FitsFrames(blast.image, blast.frames)
    ensures Accounted(sc, NamesHits(sc, e, ei, removed, j, blast).scene)
    decreases |sc.names| - j
  {
    if j < |sc.names| {
      var p := QueueHits(sc, e, ei, removed, sc.names[j], 0, blast);
      QueueAccounting(sc, e, ei, removed, sc.names[j], 0, blast);
      NamesAccounting(p.scene, e, ei, p.removed, j + 1, blast);
    }
  }

  /** Over a whole pass, the bullets the queues lose are exactly the
      explosions started, and no more enemies disappear than that. */
  lemma {:induction false} HitAccounting(sc: Scene, ei: nat, blast: Blast)
    requires Keyed(sc) && Distinct(sc.names)
    requires FitsFrames(blast.image, blast.frames)
    ensures Accounted(sc, EnemyHits(sc, ei, blast))
    decreases |sc.enemies| - ei
  {
    if ei < |sc.enemies| {
      var p := NamesHits(sc, sc.enemies[ei], ei, false, 0, blast);
      NamesAccounting(sc, sc.enemies[ei], ei, false, 0, blast);
      HitAccounting(p.scene, ei + 1, blast);
    }
  }

  // ------------------------------------------------------------ scores

  /** Scores and lives of every player never fall in a hit pass, as long
      as no enemy has a negative worth. */
  predicate NoneLower(sc: Scene, r: Scene)
  {
    forall n :: n in sc.players && n in r.players ==>
      r.players[n].score >= sc.players[n].score && r.players[n].lives >= sc.players[n].lives
  }

  lemma {:induction false} QueueScores(sc: Scene, e: EnemyState, ei: nat, removed: bool, name: string, k: nat, blast: Blast)
    requires name in sc.players && name in sc.playerBullets
    requires !removed ==> ei < |sc.enemies|
    requires FitsFrames(blast.image, blast.frames)
    requires e.hitScore >= 0
    ensures NoneLower(sc, QueueHits(sc, e, ei, removed, name, k, blast).scene)
    decreases |sc.playerBullets[name]| - k
  {
    var q := sc.playerBullets[name];
    if k < |q| {
      if Hits(q[k], e) {
        QueueScores(PlayerHit(sc, e, ei, removed, name, k, blast), e, ei, true, name, k + 1, blast);
      } else {
        QueueScores(sc, e, ei, removed, name, k + 1, blast);
      }
    }
  }

  lemma {:induction false} NamesScores(sc: Scene, e: EnemyState, ei: nat, removed: bool, j: nat, blast: Blast)
    requires Keyed(sc)
    requires !removed ==> ei < |sc.enemies|
    requires FitsFrames(blast.image, blast.frames)
    requires e.hitScore >= 0
    ensures NoneLower(sc, NamesHits(sc, e, ei, removed, j, blast).scene)
    decreases |sc.names| - j
  {
    if j < |sc.names| {
      var p := QueueHits(sc, e, ei, removed, sc.names[j], 0, blast);
      QueueScores(sc, e, ei, removed, sc.names[j], 0, blast);
      NamesScores(p.scene, e, ei, p.removed, j + 1, blast);
    }
  }

  lemma {:induction false} ScoresNeverFall(sc: Scene, ei: nat, blast: Blast)
    requires Keyed(sc)
    requires FitsFrames(blast.image, blast.frames)
    requires forall x :: x in sc.enemies ==> x.hitScore >= 0
    ensures NoneLower(sc, EnemyHits(sc, ei, blast))
    decreases |sc.enemies| - ei
  {
    if ei < |sc.enemies| {
      var p := NamesHits(sc, sc.enemies[ei], ei, false, 0, blast);
      NamesScores(sc, sc.enemies[ei], ei, false, 0, blast);
      ScoresNeverFall(p.scene, ei + 1, blast);
    }
  }

  // ------------------------------------------------------------ scenarios

  /** One player, one bullet on the only enemy: the bullet and the enemy
      are gone, the player has the enemy's worth, and an explosion starts
      where the enemy stood. */
  lemma SingleHit(sc: Scene, name: string, b: BulletState, e: EnemyState, blast: Blast)
    requires sc.names == [name] && name in sc.players && name in sc.playerBullets
    requires sc.playerBullets[name] == [b] && sc.enemies == [e] && Hits(b, e)
    requires FitsFrames(blast.image, blast.frames)
    ensures var r := PlayerBulletHits(sc, blast);
            r.enemies == [] && r.playerBullets[name] == [] &&
            r.players[name].score == sc.players[name].score + e.hitScore &&
            r.explosions == sc.explosions + [NewExplosion(blast.image, e.x, e.y, blast.frames, blast.ticksPerFrame)]
  {
    var s1 := PlayerHit(sc, e, 0, false, name, 0, blast);
    assert Remove([b], 0) == [];
    assert QueueHits(s1, e, 0, true, name, 1, blast) == Progress(s1, true);
    assert QueueHits(sc, e, 0, false, name, 0, blast) == Progress(s1, true);
    assert NamesHits(s1, e, 0, true, 1, blast) == Progress(s1, true);
    assert NamesHits(sc, e, 0, false, 0, blast) == Progress(s1, true);
    assert EnemyHits(s1, 1, blast) == s1;
  }

  /** A second hit on an enemy already spliced out removes the last enemy
      instead: with two enemies and three bullets of one player all on the
      first, the first and third bullets hit (the second shifts into the
      freed slot and is skipped), both enemies go, and both explosions start
      at the first enemy's position. */
  lemma StaleEnemyRemovesLast(sc: Scene, name: string, b0: BulletState, b1: BulletState, b2: BulletState,
                              e0: EnemyState, e1: EnemyState, blast: Blast)
    requires sc.names == [name] && name in sc.players && name in sc.playerBullets
    requires sc.playerBullets[name] == [b0, b1, b2] && sc.enemies == [e0, e1]
    requires Hits(b0, e0) && Hits(b2, e0)
    requires FitsFrames(blast.image, blast.frames)
    ensures var r := PlayerBulletHits(sc, blast);
            var x := NewExplosion(blast.image, e0.x, e0.y, blast.frames, blast.ticksPerFrame);
            r.enemies == [] && r.playerBullets[name] == [b1] &&
            r.players[name].score == sc.players[name].score + 2 * e0.hitScore &&
            r.explosions == sc.explosions + [x, x]
  {
    var s1 := PlayerHit(sc, e0, 0, false, name, 0, blast);
    assert Remove([b0, b1, b2], 0) == [b1, b2];
    assert s1.enemies == [e1];
    var s2 := PlayerHit(s1, e0, 0, true, name, 1, blast);
    assert Remove([b1, b2], 1) == [b1];
    assert s2.enemies == [];
    assert QueueHits(s2, e0, 0, true, name, 2, blast) == Progress(s2, true);
    assert QueueHits(s1, e0, 0, true, name, 1, blast) == Progress(s2, true);
    assert QueueHits(sc, e0, 0, false, name, 0, blast) == Progress(s2, true);
    assert NamesHits(s2, e0, 0, true, 1, blast) == Progress(s2, true);
    assert NamesHits(sc, e0, 0, false, 0, blast) == Progress(s2, true);
    assert EnemyHits(s2, 1, blast) == s2;
  }

  /** With a single enemy the same double hit removes only that enemy:
      the second splice finds the array already empty, so two bullets
      go and two explosions start but one enemy is removed. */
  lemma DoubleHitOnLastEnemy(sc: Scene, name: string, b0: BulletState, b1: BulletState, b2: BulletState,
                             e0: EnemyState, blast: Blast)
    requires sc.names == [name] && name in sc.players && name in sc.playerBullets
    requires sc.playerBullets[name] == [b0, b1, b2] && sc.enemies == [e0]
    requires Hits(b0, e0) && Hits(b2, e0)
    requires FitsFrames(blast.image, blast.frames)
    ensures var r := PlayerBulletHits(sc, blast);
            var x := NewExplosion(blast.image, e0.x, e0.y, blast.frames, blast.ticksPerFrame);
            r.enemies == [] && r.playerBullets[name] == [b1] &&
            r.players[name].score == sc.players[name].score + 2 * e0.hitScore &&
            r.explosions == sc.explosions + [x, x]
  {
    var s1 := PlayerHit(sc, e0, 0, false, name, 0, blast);
    assert Remove([b0, b1, b2], 0) == [b1, b2];
    assert s1.enemies == [];
    var s2 := PlayerHit(s1, e0, 0, true, name, 1, blast);
    assert Remove([b1, b2], 1) == [b1];
    assert s2.enemies == [];
    assert QueueHits(s2, e0, 0, true, name, 2, blast) == Progress(s2, true);
    assert QueueHits(s1, e0, 0, true, name, 1, blast) == Progress(s2, true);
    assert QueueHits(sc, e0, 0, false, name, 0, blast) == Progress(s2, true);
    assert NamesHits(s2, e0, 0, true, 1, blast) == Progress(s2, true);
    assert NamesHits(sc, e0, 0, false, 0, blast) == Progress(s2, true);
    assert EnemyHits(s2, 1, blast) == s2;
  }
  /** The enemy walk skips the enemy that moves into a removed enemy's
      slot: with enemies [e0, e1] and one player's bullets [b0, b1], where
      b0 hits e0 and b1 hits e1, e0 and b0 go, but e1 is never checked in
      this pass, so e1 and b1 both survive. */
  lemma ShiftedEnemySkipped(sc: Scene, name: string, b0: BulletState, b1: BulletState,
                            e0: EnemyState, e1: EnemyState, blast: Blast)
    requires sc.names == [name] && name in sc.players && name in sc.playerBullets
    requires sc.playerBullets[name] == [b0, b1] && sc.enemies == [e0, e1]
    requires Hits(b0, e0) && Hits(b1, e1)
    requires FitsFrames(blast.image, blast.frames)
    ensures var r := PlayerBulletHits(sc, blast);
            r.enemies == [e1] && r.playerBullets[name] == [b1] &&
            r.players[name].score == sc.players[name].score + e0.hitScore &&
            r.explosions == sc.explosions + [NewExplosion(blast.image, e0.x, e0.y, blast.frames, blast.ticksPerFrame)]
  {
    var s1 := PlayerHit(sc, e0, 0, false, name, 0, blast);
    assert Remove([b0, b1], 0) == [b1];
    assert Remove([e0, e1], 0) == [e1];
    assert QueueHits(s1, e0, 0, true, name, 1, blast) == Progress(s1, true);
    assert QueueHits(sc, e0, 0, false, name, 0, blast) == Progress(s1, true);
    assert NamesHits(s1, e0, 0, true, 1, blast) == Progress(s1, true);
    assert NamesHits(sc, e0, 0, false, 0, blast) == Progress(s1, true);
    assert EnemyHits(s1, 1, blast) == s1;
  }


  // ------------------------------------------------- enemy bullets hit players

  /** The explosion's placement: a coordinate whose far edge passes the
      bound is pulled back by the (truncating) remainder of that edge. */
  function Clamp(v: int, extent: int, bound: int): int
    requires bound > 0
  {
    if v + extent > bound then v - JsRem(v + extent, bound) else v
  }

  /** A quotient of a dividend between one and two divisors. */
  lemma QuotientAtLeastOne(t: int, b: int)
    requires b > 0 && t >= b
    ensures t / b >= 1
    ensures t < 2 * b ==> t / b == 1
  {
    var q := t / b;
    assert t == q * b + t % b;
    if t < 2 * b && q >= 2 {
      MulMono(2, q, b);
    }
  }

  /** A clamped far edge lands on the largest multiple of the bound not
      past it, so never further out than before and never inside the
      first bound; when it was less than one bound past, it lands exactly
      on the bound. */
  lemma ClampLands(v: int, extent: int, bound: int)
    requires bound > 0 && v + extent > bound
    ensures var c := Clamp(v, extent, bound);
            c + extent == (v + extent) / bound * bound &&
            bound <= c + extent <= v + extent &&
            (v + extent < 2 * bound ==> c + extent == bound)
  {
    var t := v + extent;
    assert t == (t / bound) * bound + t % bound;
    QuotientAtLeastOne(t, bound);
    MulMono(1, t / bound, bound);
  }

  /** One enemy bullet k on player `name`: the bullet is gone, an explosion
      starts at the player's position pulled back inside the field, the
      player loses a life (none below zero) and the game is over if the
      player has none left. */
  function ShotHit(sc: Scene, name: string, k: nat, blast: Blast, fieldWidth: int, fieldHeight: int): (r: Scene)
    requires name in sc.players && k < |sc.enemyBullets|
    requires FitsFrames(blast.image, blast.frames) && blast.image.width % 32 == 0
    requires fieldWidth > 0 && fieldHeight > 0
    ensures r == sc.(players := r.players, enemyBullets := r.enemyBullets, explosions := r.explosions,
                     gameOver := r.gameOver)
    ensures r.players == sc.players[name := LifeRemoved(sc.players[name])]
    ensures r.enemyBullets == Remove(sc.enemyBullets, k)
    ensures var p := sc.players[name];
            r.explosions == sc.explosions + [NewExplosion(blast.image, Clamp(p.x, blast.image.width / 32, fieldWidth),
                                                          Clamp(p.y, blast.image.height, fieldHeight),
                                                          blast.frames, blast.ticksPerFrame)]
    ensures r.gameOver == (sc.gameOver || r.players[name].lives == 0)
    ensures Consistent(sc) ==> Consistent(r)
  {
    var p := sc.players[name];
    var x := Clamp(p.x, blast.image.width / 32, fieldWidth);
    var y := Clamp(p.y, blast.image.height, fieldHeight);
    var p' := LifeRemoved(p);
    var r := sc.(players := sc.players[name := p'],
                 enemyBullets := Remove(sc.enemyBullets, k),
                 explosions := sc.explosions + [NewExplosion(blast.image, x, y, blast.frames, blast.ticksPerFrame)],
                 gameOver := sc.gameOver || p'.lives == 0);
    assert Consistent(sc) ==> Consistent(r) by {
      if Consistent(sc) {
        assert PlayerOk(sc.players[name]);
        forall i | 0 <= i < |r.enemyBullets| ensures r.enemyBullets[i].clock.Valid() {
          if i >= k { assert r.enemyBullets[i] == sc.enemyBullets[i + 1]; }
        }
      }
    }
    r
  }

  /** Facts every shot pass keeps: lives never rise, a finished game stays
      finished, a newly finished one has a player without lives, enemy
      bullets only leave, explosions are only appended, and each bullet
      taken starts exactly one explosion. */
  predicate ShotEffects(sc: Scene, r: Scene)
  {
    r.players.Keys == sc.players.Keys &&
    (forall n :: n in sc.players ==> r.players[n] == sc.players[n].(lives := r.players[n].lives) &&
                                     r.players[n].lives <= sc.players[n].lives) &&
    (sc.gameOver ==> r.gameOver) &&
    (r.gameOver && !sc.gameOver ==> exists n :: n in r.players && r.players[n].lives <= 0) &&
    |r.enemyBullets| <= |sc.enemyBullets| &&
    (forall b :: b in r.enemyBullets ==> b in sc.enemyBullets) &&
    sc.explosions <= r.explosions &&
    |r.enemyBullets| + |r.explosions| == |sc.enemyBullets| + |sc.explosions|
  }

  /** The inner loop: enemy bullets from index k on, checked against the
      player `name` (whose position a hit does not change). */
  function ShotQueue(sc: Scene, name: string, k: nat, blast: Blast, fieldWidth: int, fieldHeight: int): (r: Scene)
    requires name in sc.players
    requires FitsFrames(blast.image, blast.frames) && blast.image.width % 32 == 0
    requires fieldWidth > 0 && fieldHeight > 0
    ensures r == sc.(players := r.players, enemyBullets := r.enemyBullets, explosions := r.explosions,
                     gameOver := r.gameOver)
    ensures ShotEffects(sc, r)
    ensures Consistent(sc) ==> Consistent(r)
    decreases |sc.enemyBullets| - k
  {
    if k >= |sc.enemyBullets| then sc
    else
      var p := sc.players[name];
      if Intersects(sc.enemyBullets[k], p.x, p.width, p.y, p.height) then
        var s1 := ShotHit(sc, name, k, blast, fieldWidth, fieldHeight);
        var r := ShotQueue(s1, name, k + 1, blast, fieldWidth, fieldHeight);
        assert r.gameOver && !sc.gameOver ==> exists n :: n in r.players && r.players[n].lives <= 0 by {
          if r.gameOver && !sc.gameOver && !s1.gameOver {
          } else if r.gameOver && !sc.gameOver {
            assert s1.players[name].lives == 0;
            assert r.players[name].lives <= 0;
          }
        }
        r
      else
        ShotQueue(sc, name, k + 1, blast, fieldWidth, fieldHeight)
  }

  /** The outer loop: the players of names j, j+1, ... in turn. */
  function ShotsAt(sc: Scene, j: nat, blast: Blast, fieldWidth: int, fieldHeight: int): (r: Scene)
    requires forall n :: n in sc.names ==> n in sc.players
    requires FitsFrames(blast.image, blast.frames) && blast.image.width % 32 == 0
    requires fieldWidth > 0 && fieldHeight > 0
    ensures r == sc.(players := r.players, enemyBullets := r.enemyBullets, explosions := r.explosions,
                     gameOver := r.gameOver)
    ensures ShotEffects(sc, r)
    ensures Consistent(sc) ==> Consistent(r)
    decreases |sc.names| - j
  {
    if j >= |sc.names| then sc
    else
      var s1 := ShotQueue(sc, sc.names[j], 0, blast, fieldWidth, fieldHeight);
      var r := ShotsAt(s1, j + 1, blast, fieldWidth, fieldHeight);
      assert r.gameOver && !sc.gameOver ==> exists n :: n in r.players && r.players[n].lives <= 0 by {
        if r.gameOver && !sc.gameOver && s1.gameOver {
          var n :| n in s1.players && s1.players[n].lives <= 0;
          assert r.players[n].lives <= 0;
        }
      }
      r
  }

  /** One step of the outer loop: the queue of names[j], then the rest. */
  lemma ShotsAtStep(sc: Scene, j: nat, blast: Blast, fieldWidth: int, fieldHeight: int)
    requires forall n :: n in sc.names ==> n in sc.players
    requires j < |sc.names|
    requires FitsFrames(blast.image, blast.frames) && blast.image.width % 32 == 0
    requires fieldWidth > 0 && fieldHeight > 0
    ensures var s1 := ShotQueue(sc, sc.names[j], 0, blast, fieldWidth, fieldHeight);
            (forall n :: n in s1.names ==> n in s1.players) &&
            ShotsAt(sc, j, blast, fieldWidth, fieldHeight) == ShotsAt(s1, j + 1, blast, fieldWidth, fieldHeight)
  {
  }

  /** `checkForEnemyBulletIntersections`. */
  function EnemyBulletHits(sc: Scene, blast: Blast, fieldWidth: int, fieldHeight: int): (r: Scene)
    requires forall n :: n in sc.names ==> n in sc.players
    requires FitsFrames(blast.image, blast.frames) && blast.image.width % 32 == 0
    requires fieldWidth > 0 && fieldHeight > 0
    ensures r == sc.(players := r.players, enemyBullets := r.enemyBullets, explosions := r.explosions,
                     gameOver := r.gameOver)
    ensures ShotEffects(sc, r)
    ensures Consistent(sc) ==> Consistent(r)
  {
    ShotsAt(sc, 0, blast, fieldWidth, fieldHeight)
  }

  /** With lives never negative, a game the pass ends has a player at
      exactly zero lives. */
  lemma GameOverMeansNoLives(sc: Scene, blast: Blast, fieldWidth: int, fieldHeight: int)
    requires Consistent(sc) && !sc.gameOver
    requires FitsFrames(blast.image, blast.frames) && blast.image.width % 32 == 0
    requires fieldWidth > 0 && fieldHeight > 0
    ensures var r := EnemyBulletHits(sc, blast, fieldWidth, fieldHeight);
            r.gameOver ==> exists n :: n in r.players && r.players[n].lives == 0
  {
    var r := EnemyBulletHits(sc, blast, fieldWidth, fieldHeight);
    if r.gameOver {
      var n :| n in r.players && r.players[n].lives <= 0;
      assert PlayerOk(r.players[n]);
    }
  }

  /** A player on the last life, hit by the only enemy bullet, ends the
      game; the bullet is gone and one explosion starts. */
  lemma LastLifeEndsGame(sc: Scene, name: string, b: BulletState, blast: Blast, fieldWidth: int, fieldHeight: int)
    requires sc.names == [name] && name in sc.players && sc.players[name].lives == 1
    requires sc.enemyBullets == [b]
    requires Intersects(b, sc.players[name].x, sc.players[name].width, sc.players[name].y, sc.players[name].height)
    requires FitsFrames(blast.image, blast.frames) && blast.image.width % 32 == 0
    requires fieldWidth > 0 && fieldHeight > 0
    ensures var r := EnemyBulletHits(sc, blast, fieldWidth, fieldHeight);
            r.gameOver && r.players[name].lives == 0 && r.enemyBullets == [] &&
            |r.explosions| == |sc.explosions| + 1
  {
    var s1 := ShotHit(sc, name, 0, blast, fieldWidth, fieldHeight);
    assert Remove([b], 0) == [];
    assert ShotQueue(s1, name, 1, blast, fieldWidth, fieldHeight) == s1;
    assert ShotQueue(sc, name, 0, blast, fieldWidth, fieldHeight) == s1;
    assert ShotsAt(s1, 1, blast, fieldWidth, fieldHeight) == s1;
  }

  /** When no enemy bullet touches any listed player the pass changes
      nothing. */
  lemma {:induction false} NoShotNoChange(sc: Scene, j: nat, blast: Blast, fieldWidth: int, fieldHeight: int)
    requires forall n :: n in sc.names ==> n in sc.players
    requires forall i, n :: 0 <= i < |sc.enemyBullets| && n in sc.names ==>
               var p := sc.players[n]; !Intersects(sc.enemyBullets[i], p.x, p.width, p.y, p.height)
    requires FitsFrames(blast.image, blast.frames) && blast.image.width % 32 == 0
    requires fieldWidth > 0 && fieldHeight > 0
    ensures ShotsAt(sc, j, blast, fieldWidth, fieldHeight) == sc
    decreases |sc.names| - j
  {
    if j < |sc.names| {
      QueueUntouched(sc, sc.names[j], 0, blast, fieldWidth, fieldHeight);
      NoShotNoChange(sc, j + 1, blast, fieldWidth, fieldHeight);
    }
  }

  lemma {:induction false} QueueUntouched(sc: Scene, name: string, k: nat, blast: Blast, fieldWidth: int, fieldHeight: int)
    requires name in sc.players
    requires forall i :: 0 <= i < |sc.enemyBullets| ==>
               var p := sc.players[name]; !Intersects(sc.enemyBullets[i], p.x, p.width, p.y, p.height)
    requires FitsFrames(blast.image, blast.frames) && blast.image.width % 32 == 0
    requires fieldWidth > 0 && fieldHeight > 0
    ensures ShotQueue(sc, name, k, blast, fieldWidth, fieldHeight) == sc
    decreases |sc.enemyBullets| - k
  {
    if k < |sc.enemyBullets| {
      QueueUntouched(sc, name, k + 1, blast, fieldWidth, fieldHeight);
    }
  }
}
