/** Explosions: a game object whose animation plays through its frames once
    and then reports, on every update, that it has finished. */
module Explosions {
  import opened GameObjects

  /** The state of one explosion. */
  datatype ExplosionState = ExplosionState(x: int, y: int, width: int, height: int, clock: Clock)

  /** What an update reports in place of the source's completion callback. */
  datatype AnimationStatus = InProgress | Finished

  datatype UpdateOutcome = UpdateOutcome(explosion: ExplosionState, status: AnimationStatus)

  /** A new explosion at (x, y) on its first frame. */
  function NewExplosion(image: Sprite, x: int, y: int, frames: int, ticksPerFrame: int): (e: ExplosionState)
    requires FitsFrames(image, frames)
    ensures e.x == x && e.y == y && e.width * frames == image.width && e.height == image.height
    ensures e.clock == StartClock(frames, ticksPerFrame)
  {
    ExplosionState(x, y, FrameWidth(image, frames), image.height, StartClock(frames, ticksPerFrame))
  }

  /** `update`: on the last frame, report completion and change nothing;
      otherwise advance the clock as any game object does. */
  function UpdateExplosion(e: ExplosionState): (r: UpdateOutcome)
    requires e.clock.frames >= 1
    ensures r.status == Finished <==> e.clock.frameIndex == e.clock.frames - 1
    ensures r.status == Finished ==> r.explosion == e
    ensures r.status == InProgress ==> r.explosion == e.(clock := Tick(e.clock))
  {
    if e.clock.frameIndex == e.clock.frames - 1 then UpdateOutcome(e, Finished)
    else UpdateOutcome(e.(clock := Tick(e.clock)), InProgress)
  }

  /** The explosion after `n` updates, with what each update reported. */
  datatype Playback = Playback(explosion: ExplosionState, statuses: seq<AnimationStatus>)

  function Play(e: ExplosionState, n: nat): (p: Playback)
    requires e.clock.frames >= 1
    ensures |p.statuses| == n
    ensures p.explosion == e.(clock := p.explosion.clock)
    ensures p.explosion.clock.frames == e.clock.frames
    ensures p.explosion.clock.ticksPerFrame == e.clock.ticksPerFrame
  {
    if n == 0 then Playback(e, [])
    else
      var before := Play(e, n - 1);
      var o := UpdateExplosion(before.explosion);
      Playback(o.explosion, before.statuses + [o.status])
  }

  /** The statuses of the first n updates do not depend on later ones. */
  lemma {:induction false} PlayPrefix(e: ExplosionState, m: nat, n: nat)
    requires e.clock.frames >= 1 && m <= n
    ensures Play(e, m).statuses == Play(e, n).statuses[..m]
  {
    if m < n {
      PlayPrefix(e, m, n - 1);
      assert Play(e, n).statuses[..n - 1] == Play(e, n - 1).statuses;
    }
  }

  /** While the last frame has not been reached, an explosion runs exactly
      like any game object's clock and reports nothing. */
  lemma {:induction false} PlayFollowsClock(e: ExplosionState, n: nat)
    requires e.clock.frames >= 1
    requires forall m :: 0 <= m < n ==> Ticks(e.clock, m).frameIndex != e.clock.frames - 1
    ensures Play(e, n).explosion.clock == Ticks(e.clock, n)
    ensures forall i :: 0 <= i < n ==> Play(e, n).statuses[i] == InProgress
  {
    if n > 0 {
      PlayFollowsClock(e, n - 1);
    }
  }

  /** Before update q*(T+1) with q < F-1, a fresh clock shows a frame
      before the last. */
  lemma EarlyFrames(frames: int, ticksPerFrame: int, m: nat)
    requires frames >= 1 && ticksPerFrame >= 0
    requires m < (frames - 1) * (ticksPerFrame + 1)
    ensures Ticks(StartClock(frames, ticksPerFrame), m).frameIndex < frames - 1
  {
    var d := ticksPerFrame + 1;
    var q, r := m / d, m % d;
    assert m == q * d + r;
    if q >= frames - 1 {
      MulMono(frames - 1, q, d);
      assert false;
    }
    ClockPhase(frames, ticksPerFrame, q, r);
  }

  /** A fresh explosion of F frames holding each for T extra ticks first
      reports completion on update (F-1)*(T+1)+1, and never before. */
  lemma CompletionTiming(e: ExplosionState, frames: int, ticksPerFrame: int)
    requires frames >= 1 && ticksPerFrame >= 0
    requires e.clock == StartClock(frames, ticksPerFrame)
    ensures var n := (frames - 1) * (ticksPerFrame + 1) + 1;
      var p := Play(e, n);
      (forall i :: 0 <= i < n - 1 ==> p.statuses[i] == InProgress) && p.statuses[n - 1] == Finished
  {
    var last := (frames - 1) * (ticksPerFrame + 1);
    MulMono(0, frames - 1, ticksPerFrame + 1);
    forall m | 0 <= m < last
      ensures Ticks(e.clock, m).frameIndex != frames - 1
    {
      EarlyFrames(frames, ticksPerFrame, m);
    }
    PlayFollowsClock(e, last);
    ClockPhase(frames, ticksPerFrame, frames - 1, 0);
    assert Play(e, last).explosion.clock.frameIndex == frames - 1;
  }

  /** With the default of no extra ticks, F frames finish on update F: the
      32-frame explosion reports nothing for 31 updates, then completion. */
  lemma NoDelayFinishesOnLastUpdate(e: ExplosionState, frames: int)
    requires frames >= 1 && e.clock == StartClock(frames, 0)
    ensures forall i :: 0 <= i < frames - 1 ==> Play(e, frames).statuses[i] == InProgress
    ensures Play(e, frames).statuses[frames - 1] == Finished
  {
    CompletionTiming(e, frames, 0);
  }

  /** On the last frame an explosion is frozen: every further update leaves
      it as it is and reports completion again. */
  lemma {:induction false} FrozenAtEnd(e: ExplosionState, n: nat)
    requires e.clock.frames >= 1 && e.clock.frameIndex == e.clock.frames - 1
    ensures Play(e, n).explosion == e
    ensures forall i :: 0 <= i < n ==> Play(e, n).statuses[i] == Finished
  {
    if n > 0 {
      FrozenAtEnd(e, n - 1);
    }
  }

  /** An explosion object: the game-object fields only. */
  class Explosion {
    var xPos: int
    var yPos: int
    const width: int
    const height: int
    const frames: int
    const ticksPerFrame: int
    var frameIndex: int
    var tickCount: int

    ghost predicate Valid()
      reads this
    {
      frames >= 1
    }

    function State(): ExplosionState
      reads this
    {
      ExplosionState(xPos, yPos, width, height, Clock(frames, ticksPerFrame, frameIndex, tickCount))
    }

    constructor (image: Sprite, x: int, y: int, frames: int, ticksPerFrame: int)
      requires FitsFrames(image, frames)
      ensures Valid() && State() == NewExplosion(image, x, y, frames, ticksPerFrame)
    {
      xPos, yPos := x, y;
      width, height := FrameWidth(image, frames), image.height;
      this.frames, this.ticksPerFrame := frames, ticksPerFrame;
      frameIndex, tickCount := 0, 0;
    }

    /** Returns `Finished` exactly when the source runs its callback. */
    method Update() returns (status: AnimationStatus)
      requires Valid()
      modifies this
      ensures Valid()
      ensures UpdateOutcome(State(), status) == UpdateExplosion(old(State()))
    {
      if frameIndex == frames - 1 {
        status := Finished;
      } else {
        status := InProgress;
        tickCount := tickCount + 1;
        if tickCount > ticksPerFrame {
          tickCount := 0;
          frameIndex := (frameIndex + 1) % frames;
        }
      }
    }
  }
}
