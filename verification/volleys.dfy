/** Bullet and explosion passes: a `for…of` walk over an array that moves
    (or animates) each element and splices out the ones that signal an edge
    (or completion).  The array iterator keeps its own index, so after a
    removal the element that shifted into the freed slot is not visited in
    that pass. */
module Volleys {
  import opened GameObjects
  import opened Battleships
  import opened Bullets
  import opened Enemies
  import opened Explosions
  import opened Scenes

  /** The walk from index k on: a bullet that signals the edge is spliced
      out where it stands (its `indexOf` is its own index), one still in
      flight is replaced by its moved self, and the walk goes on at k + 1
      either way. */
  function Sweep(bs: seq<BulletState>, k: nat, d: Direction, fieldHeight: int): (r: seq<BulletState>)
    ensures |r| <= |bs|
    ensures k <= |bs| ==> k <= |r| && r[..k] == bs[..k]
    decreases |bs| - k
  {
    if k >= |bs| then bs
    else
      var o := MoveBullet(bs[k], d, fieldHeight);
      if o.status == AtBoundary then Sweep(Remove(bs, k), k + 1, d, fieldHeight)
      else Sweep(bs[k := o.bullet], k + 1, d, fieldHeight)
  }

  /** When no bullet from k on is at the edge, every one of them takes its
      step and none is lost. */
  lemma {:induction false} SweepMovesAll(bs: seq<BulletState>, k: nat, d: Direction, fieldHeight: int)
    requires k <= |bs|
    requires forall i :: k <= i < |bs| ==> MoveBullet(bs[i], d, fieldHeight).status == InFlight
    ensures var r := Sweep(bs, k, d, fieldHeight);
            |r| == |bs| && forall i :: k <= i < |bs| ==> r[i] == MoveBullet(bs[i], d, fieldHeight).bullet
    decreases |bs| - k
  {
    if k < |bs| {
      var next := bs[k := MoveBullet(bs[k], d, fieldHeight).bullet];
      SweepMovesAll(next, k + 1, d, fieldHeight);
      var r := Sweep(next, k + 1, d, fieldHeight);
      assert r[..k + 1][k] == next[k];
    }
  }

  /** When every bullet from k on is stuck at the edge, one pass removes
      only every other one: the survivors are those at odd offsets from k,
      each left where it was. */
  lemma {:induction false} SweepEdgeBacklog(bs: seq<BulletState>, k: nat, d: Direction, fieldHeight: int)
    requires k <= |bs|
    requires forall i :: k <= i < |bs| ==> MoveBullet(bs[i], d, fieldHeight).status == AtBoundary
    ensures var r := Sweep(bs, k, d, fieldHeight);
            |r| == k + (|bs| - k) / 2 &&
            forall j :: 0 <= j < (|bs| - k) / 2 ==> r[k + j] == bs[k + 2 * j + 1]
    decreases |bs| - k
  {
    if k < |bs| {
      var rb := Remove(bs, k);
      var r := Sweep(rb, k + 1, d, fieldHeight);
      if k + 1 <= |rb| {
        SweepEdgeBacklog(rb, k + 1, d, fieldHeight);
        assert r[..k + 1][k] == rb[k];
        forall j | 0 <= j < (|bs| - k) / 2
          ensures r[k + j] == bs[k + 2 * j + 1]
        {
          if j > 0 {
            assert r[k + 1 + (j - 1)] == rb[k + 1 + 2 * (j - 1) + 1];
          }
        }
      }
    }
  }

  /** The skip in its smallest form: of two bullets, the first at the edge,
      the pass removes the first and leaves the second unmoved. */
  lemma SecondBulletSkipped(b0: BulletState, b1: BulletState, d: Direction, fieldHeight: int)
    requires MoveBullet(b0, d, fieldHeight).status == AtBoundary
    ensures Sweep([b0, b1], 0, d, fieldHeight) == [b1]
  {
    assert Remove([b0, b1], 0) == [b1];
  }

  /** Any property of single bullets that a move preserves holds of every
      bullet the pass leaves. */
  lemma {:induction false} SweepKeeps(bs: seq<BulletState>, k: nat, d: Direction, fieldHeight: int,
                                      P: BulletState -> bool)
    requires forall b :: P(b) ==> P(MoveBullet(b, d, fieldHeight).bullet)
    requires forall i :: 0 <= i < |bs| ==> P(bs[i])
    ensures var r := Sweep(bs, k, d, fieldHeight); forall i :: 0 <= i < |r| ==> P(r[i])
    decreases |bs| - k
  {
    if k < |bs| {
      var o := MoveBullet(bs[k], d, fieldHeight);
      if o.status == AtBoundary {
        var rb := Remove(bs, k);
        assert forall i :: 0 <= i < |rb| ==> P(rb[i]) by {
          forall i | 0 <= i < |rb| ensures P(rb[i]) {
            if i >= k { assert rb[i] == bs[i + 1]; } else { assert rb[i] == bs[i]; }
          }
        }
        SweepKeeps(rb, k + 1, d, fieldHeight, P);
        assert var r2 := Sweep(rb, k + 1, d, fieldHeight); forall i :: 0 <= i < |r2| ==> P(r2[i]);
        var r := Sweep(rb, k + 1, d, fieldHeight);
        assert forall i :: 0 <= i < |r| ==> P(r[i]);
        assert Sweep(bs, k, d, fieldHeight) == r;
      } else {
        var next := bs[k := o.bullet];
        assert forall i :: 0 <= i < |next| ==> P(next[i]) by {
          forall i | 0 <= i < |next| ensures P(next[i]) {
            if i != k { assert next[i] == bs[i]; }
          }
        }
        SweepKeeps(next, k + 1, d, fieldHeight, P);
        assert var r2 := Sweep(next, k + 1, d, fieldHeight); forall i :: 0 <= i < |r2| ==> P(r2[i]);
        var r := Sweep(next, k + 1, d, fieldHeight);
        assert forall i :: 0 <= i < |r| ==> P(r[i]);
        assert Sweep(bs, k, d, fieldHeight) == r;
      }
    }
  }

  /** Bullets strictly inside the field vertically stay inside it. */
  lemma SweepStaysInField(bs: seq<BulletState>, d: Direction, fieldHeight: int)
    requires forall i :: 0 <= i < |bs| ==> 0 < bs[i].y < fieldHeight
    ensures var r := Sweep(bs, 0, d, fieldHeight); forall i :: 0 <= i < |r| ==> 0 < r[i].y < fieldHeight
  {
    SweepKeeps(bs, 0, d, fieldHeight, (b: BulletState) => 0 < b.y < fieldHeight);
  }

  /** A pass keeps every bullet's animation clock showing a frame. */
  lemma SweepKeepsClocks(bs: seq<BulletState>, d: Direction, fieldHeight: int)
    requires BulletsOk(bs)
    ensures BulletsOk(Sweep(bs, 0, d, fieldHeight))
  {
    SweepKeeps(bs, 0, d, fieldHeight, (b: BulletState) => b.clock.Valid());
  }

  /** `movePlayerBullets`: every player's queue swept upwards. */
  function MovePlayerVolleys(sc: Scene, fieldHeight: int): (r: Scene)
    ensures r.playerBullets.Keys == sc.playerBullets.Keys
    ensures forall n :: n in sc.playerBullets ==> r.playerBullets[n] == Sweep(sc.playerBullets[n], 0, Up, fieldHeight)
    ensures r == sc.(playerBullets := r.playerBullets)
    ensures Consistent(sc) ==> Consistent(r)
  {
    var queues := map n | n in sc.playerBullets :: Sweep(sc.playerBullets[n], 0, Up, fieldHeight);
    var r := sc.(playerBullets := queues);
    assert Consistent(sc) ==> Consistent(r) by {
      if Consistent(sc) {
        forall n | n in queues ensures BulletsOk(queues[n]) {
          SweepKeepsClocks(sc.playerBullets[n], Up, fieldHeight);
        }
      }
    }
    r
  }

  /** `moveEnemyBullets`: the enemy bullets swept downwards. */
  function MoveEnemyVolley(sc: Scene, fieldHeight: int): (r: Scene)
    ensures r == sc.(enemyBullets := r.enemyBullets)
    ensures r.enemyBullets == Sweep(sc.enemyBullets, 0, Down, fieldHeight)
    ensures |r.enemyBullets| <= |sc.enemyBullets|
    ensures Consistent(sc) ==> Consistent(r)
  {
    var r := sc.(enemyBullets := Sweep(sc.enemyBullets, 0, Down, fieldHeight));
    assert Consistent(sc) ==> Consistent(r) by {
      if Consistent(sc) {
        SweepKeepsClocks(sc.enemyBullets, Down, fieldHeight);
      }
    }
    r
  }

  /** A queue far from the top edge moves up as a whole, in order. */
  lemma PlayerVolleysAdvance(sc: Scene, name: string, fieldHeight: int)
    requires name in sc.playerBullets
    requires forall i :: 0 <= i < |sc.playerBullets[name]| ==> sc.playerBullets[name][i].y > Bullets.Speed
    ensures var q := sc.playerBullets[name];
            var q' := MovePlayerVolleys(sc, fieldHeight).playerBullets[name];
            |q'| == |q| && forall i :: 0 <= i < |q| ==> q'[i] == q[i].(y := q[i].y - Bullets.Speed)
  {
    SweepMovesAll(sc.playerBullets[name], 0, Up, fieldHeight);
  }
  /** Enemy bullets all clear of the bottom edge move down as a whole, in
      order, and none is dropped. */
  lemma EnemyVolleyAdvance(sc: Scene, fieldHeight: int)
    requires forall i :: 0 <= i < |sc.enemyBullets| ==> sc.enemyBullets[i].y + Bullets.Speed < fieldHeight
    ensures var q := sc.enemyBullets;
            var q' := MoveEnemyVolley(sc, fieldHeight).enemyBullets;
            |q'| == |q| && forall i :: 0 <= i < |q| ==> q'[i] == q[i].(y := q[i].y + Bullets.Speed)
  {
    SweepMovesAll(sc.enemyBullets, 0, Down, fieldHeight);
  }


  // ------------------------------------------------------------ animation

  /** The explosion walk of `renderGameObjects`: a finished explosion is
      spliced out, one in progress is replaced by its advanced self. */
  function Fade(xs: seq<ExplosionState>, k: nat): (r: seq<ExplosionState>)
    requires ExplosionsOk(xs)
    ensures |r| <= |xs| && ExplosionsOk(r)
    ensures k <= |xs| ==> k <= |r| && r[..k] == xs[..k]
    decreases |xs| - k
  {
    if k >= |xs| then xs
    else
      var o := UpdateExplosion(xs[k]);
      if o.status == Finished then Fade(Remove(xs, k), k + 1)
      else Fade(xs[k := o.explosion], k + 1)
  }

  /** An explosion still in progress is never removed, and none is created:
      with nothing finished from k on, all are kept and advanced. */
  lemma {:induction false} FadeKeepsRunning(xs: seq<ExplosionState>, k: nat)
    requires ExplosionsOk(xs) && k <= |xs|
    requires forall i :: k <= i < |xs| ==> xs[i].clock.frameIndex != xs[i].clock.frames - 1
    ensures var r := Fade(xs, k);
            |r| == |xs| && forall i :: k <= i < |xs| ==> r[i] == xs[i].(clock := Tick(xs[i].clock))
    decreases |xs| - k
  {
    if k < |xs| {
      var next := xs[k := UpdateExplosion(xs[k]).explosion];
      FadeKeepsRunning(next, k + 1);
      var r := Fade(next, k + 1);
      assert r[..k + 1][k] == next[k];
    }
  }

  /** A lone finished explosion is removed by the pass. */
  lemma FinishedRemoved(x: ExplosionState)
    requires x.clock.Valid() && x.clock.frameIndex == x.clock.frames - 1
    ensures Fade([x], 0) == []
  {
  }

  /** Every ship with its clock advanced once. */
  function TickPlayers(players: map<string, BattleshipState>): (r: map<string, BattleshipState>)
    requires forall n :: n in players ==> players[n].clock.frames >= 1
    ensures r.Keys == players.Keys
    ensures forall n :: n in players ==> r[n] == players[n].(clock := Tick(players[n].clock))
    ensures (forall n :: n in players ==> PlayerOk(players[n])) ==> forall n :: n in r ==> PlayerOk(r[n])
  {
    map n | n in players :: players[n].(clock := Tick(players[n].clock))
  }

  /** Every enemy with its clock advanced once, in place. */
  function TickEnemies(es: seq<EnemyState>): (r: seq<EnemyState>)
    requires forall i :: 0 <= i < |es| ==> es[i].clock.frames >= 1
    ensures |r| == |es|
    ensures forall i :: 0 <= i < |es| ==> r[i] == es[i].(clock := Tick(es[i].clock))
    ensures (forall i :: 0 <= i < |es| ==> EnemyOk(es[i])) ==> forall i :: 0 <= i < |r| ==> EnemyOk(r[i])
  {
    seq(|es|, i requires 0 <= i < |es| => es[i].(clock := Tick(es[i].clock)))
  }

  /** Each bullet of a queue with its clock advanced once. */
  function TickAll(bs: seq<BulletState>): (r: seq<BulletState>)
    requires forall i :: 0 <= i < |bs| ==> bs[i].clock.frames >= 1
    ensures |r| == |bs|
    ensures forall i :: 0 <= i < |bs| ==> r[i] == bs[i].(clock := Tick(bs[i].clock))
    ensures BulletsOk(bs) ==> BulletsOk(r)
  {
    seq(|bs|, i requires 0 <= i < |bs| => bs[i].(clock := Tick(bs[i].clock)))
  }

  /** Every queue with its bullets' clocks advanced once. */
  function TickQueues(queues: map<string, seq<BulletState>>): (r: map<string, seq<BulletState>>)
    requires forall n, i :: n in queues && 0 <= i < |queues[n]| ==> queues[n][i].clock.frames >= 1
    ensures r.Keys == queues.Keys
    ensures forall n :: n in queues ==> r[n] == TickAll(queues[n])
    ensures (forall n :: n in queues ==> BulletsOk(queues[n])) ==> forall n :: n in r ==> BulletsOk(r[n])
  {
    map n | n in queues :: TickAll(queues[n])
  }

  /** The clock steps of `renderGameObjects` (drawing aside): every ship,
      enemy and bullet advances its clock once, and the explosions fade. */
  function Animate(sc: Scene): (r: Scene)
    requires EntitiesOk(sc)
    ensures r.players == TickPlayers(sc.players) && r.enemies == TickEnemies(sc.enemies)
    ensures r.playerBullets == TickQueues(sc.playerBullets) && r.enemyBullets == TickAll(sc.enemyBullets)
    ensures r.explosions == Fade(sc.explosions, 0) && |r.explosions| <= |sc.explosions|
    ensures r == sc.(players := r.players, enemies := r.enemies, playerBullets := r.playerBullets,
                     enemyBullets := r.enemyBullets, explosions := r.explosions)
    ensures Consistent(sc) ==> Consistent(r)
  {
    sc.(players := TickPlayers(sc.players), enemies := TickEnemies(sc.enemies),
        playerBullets := TickQueues(sc.playerBullets), enemyBullets := TickAll(sc.enemyBullets),
        explosions := Fade(sc.explosions, 0))
  }
}
