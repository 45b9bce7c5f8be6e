/** The state every game object shares: a position, a footprint cut from a
    sprite sheet, and a frame-based animation clock that `update` advances.
    Pixel sizes and positions are whole numbers here; a sprite sheet must
    divide evenly into its frames. */
module GameObjects {

  /** The four movement intents, in the source's enum order. */
  datatype Direction = Down | Up | Left | Right

  /** The pixel size of a sprite sheet whose frames lie side by side. */
  datatype Sprite = Sprite(width: int, height: int)

  /** A sheet that splits into `frames` frames of whole pixels. */
  predicate FitsFrames(image: Sprite, frames: int)
  {
    frames >= 1 && image.width >= 0 && image.height >= 0 && image.width % frames == 0
  }

  /** The footprint width of one frame: the sheet width over the frame count. */
  function FrameWidth(image: Sprite, frames: int): (w: int)
    requires FitsFrames(image, frames)
    ensures 0 <= w <= image.width
    ensures w * frames == image.width
  {
    ExactQuotient(image.width, frames);
    image.width / frames
  }

  /** A non-negative multiple of b divided by b. */
  lemma ExactQuotient(a: int, b: int)
    requires a >= 0 && b >= 1 && a % b == 0
    ensures 0 <= a / b <= a && a / b * b == a
  {
    var q := a / b;
    assert a == b * q;
    MulMono(1, b, q);
  }

  /** A sheet of whole frames of even width, so that half a frame (the
      offset to an object's centre) is a whole pixel. */
  predicate EvenFrames(image: Sprite, frames: int)
  {
    FitsFrames(image, frames) && FrameWidth(image, frames) % 2 == 0
  }

  /** The animation state: frames per sheet, ticks a frame is held beyond
      its first, the frame on show and the ticks counted towards the next. */
  datatype Clock = Clock(frames: int, ticksPerFrame: int, frameIndex: int, tickCount: int)
  {
    /** The frame on show is one of the sheet's frames. */
    predicate Valid()
    {
      frames >= 1 && 0 <= frameIndex < frames
    }
  }

  /** The clock of a freshly constructed object. */
  function StartClock(frames: int, ticksPerFrame: int): (c: Clock)
    requires frames >= 1
    ensures c.Valid() && c.frameIndex == 0 && c.tickCount == 0
    ensures c.frames == frames && c.ticksPerFrame == ticksPerFrame
  {
    Clock(frames, ticksPerFrame, 0, 0)
  }

  /** One `update`: count the tick and, once the count passes the
      threshold, reset it and show the next frame, wrapping after the last. */
  function Tick(c: Clock): (r: Clock)
    requires c.frames >= 1
    ensures r.frames == c.frames && r.ticksPerFrame == c.ticksPerFrame
    ensures c.Valid() ==> r.Valid()
    ensures r.tickCount == 0 || r.tickCount <= c.ticksPerFrame
    ensures r.frameIndex != c.frameIndex ==> r.tickCount == 0
    ensures r.tickCount != 0 ==> r.frameIndex == c.frameIndex && r.tickCount == c.tickCount + 1
  {
    if c.tickCount + 1 > c.ticksPerFrame then
      c.(tickCount := 0, frameIndex := (c.frameIndex + 1) % c.frames)
    else
      c.(tickCount := c.tickCount + 1)
  }

  /** The clock after `n` calls of `update`. */
  function Ticks(c: Clock, n: nat): Clock
    requires c.frames >= 1
    ensures Ticks(c, n).frames == c.frames && Ticks(c, n).ticksPerFrame == c.ticksPerFrame
  {
    if n == 0 then c else Tick(Ticks(c, n - 1))
  }

  /** However many updates run, the frame index stays in [0, frames), a
      count that starts non-negative stays so, and after any update the
      count is 0 or at most the frame delay. */
  lemma {:induction false} TicksStayValid(c: Clock, n: nat)
    requires c.Valid()
    ensures Ticks(c, n).Valid()
    ensures 0 <= c.tickCount ==> 0 <= Ticks(c, n).tickCount
    ensures n > 0 ==> Ticks(c, n).tickCount == 0 || Ticks(c, n).tickCount <= c.ticksPerFrame
  {
    if n > 0 {
      TicksStayValid(c, n - 1);
    }
  }

  /** Running a+b updates is running a, then b more. */
  lemma {:induction false} TicksAdd(c: Clock, a: nat, b: nat)
    requires c.frames >= 1
    ensures Ticks(c, a + b) == Ticks(Ticks(c, a), b)
  {
    if b > 0 {
      TicksAdd(c, a, b - 1);
    }
  }

  /** Within a frame, update r (r <= T) only counts ticks. */
  lemma {:induction false} TicksWithinFrame(c: Clock, r: nat)
    requires c.frames >= 1 && c.tickCount == 0 && r <= c.ticksPerFrame
    ensures Ticks(c, r) == c.(tickCount := r)
  {
    if r > 0 {
      TicksWithinFrame(c, r - 1);
    }
  }

  /** Update T+1 of a frame shows the next frame with a fresh count. */
  lemma TicksWholeFrame(c: Clock)
    requires c.frames >= 1 && c.tickCount == 0 && c.ticksPerFrame >= 0
    ensures Ticks(c, c.ticksPerFrame + 1)
         == c.(frameIndex := (c.frameIndex + 1) % c.frames)
  {
    TicksWithinFrame(c, c.ticksPerFrame);
  }

  /** The number of updates a fresh clock takes to reach frame q, frame by
      frame: T+1 for each, T = ticksPerFrame. */
  function UpdatesToFrame(q: nat, ticksPerFrame: nat): nat
  {
    if q == 0 then 0 else UpdatesToFrame(q - 1, ticksPerFrame) + ticksPerFrame + 1
  }

  lemma {:induction false} UpdatesToFrameIsProduct(q: nat, ticksPerFrame: nat)
    ensures UpdatesToFrame(q, ticksPerFrame) == q * (ticksPerFrame + 1)
  {
    if q > 0 {
      UpdatesToFrameIsProduct(q - 1, ticksPerFrame);
      NextMultiple(q, ticksPerFrame + 1);
    }
  }

  /** The update that starts frame q of a fresh clock. */
  lemma {:induction false} FrameStart(frames: int, ticksPerFrame: nat, q: nat)
    requires frames >= 1 && q < frames
    ensures Ticks(StartClock(frames, ticksPerFrame), UpdatesToFrame(q, ticksPerFrame))
         == Clock(frames, ticksPerFrame, q, 0)
  {
    if q > 0 {
      var start := StartClock(frames, ticksPerFrame);
      FrameStart(frames, ticksPerFrame, q - 1);
      TicksAdd(start, UpdatesToFrame(q - 1, ticksPerFrame), ticksPerFrame + 1);
      TicksWholeFrame(Clock(frames, ticksPerFrame, q - 1, 0));
      ModBelow(q, frames);
    }
  }

  /** Equal update counts give equal clocks. */
  lemma TicksCongruent(c: Clock, a: nat, b: nat)
    requires c.frames >= 1 && a == b
    ensures Ticks(c, a) == Ticks(c, b)
  {
  }

  /** From a fresh clock, update number q*(T+1)+r shows frame q with r ticks
      counted: each frame lasts exactly T+1 updates, T = ticksPerFrame. */
  lemma ClockPhase(frames: int, ticksPerFrame: int, q: nat, r: nat)
    requires frames >= 1 && ticksPerFrame >= 0
    requires q < frames && r <= ticksPerFrame
    ensures Ticks(StartClock(frames, ticksPerFrame), q * (ticksPerFrame + 1) + r)
         == Clock(frames, ticksPerFrame, q, r)
  {
    var start := StartClock(frames, ticksPerFrame);
    var base := UpdatesToFrame(q, ticksPerFrame);
    UpdatesToFrameIsProduct(q, ticksPerFrame);
    TicksCongruent(start, q * (ticksPerFrame + 1) + r, base + r);
    FrameStart(frames, ticksPerFrame, q);
    TicksAdd(start, base, r);
    TicksWithinFrame(Clock(frames, ticksPerFrame, q, 0), r);
  }

  /** After frames*(T+1) updates a fresh clock is back where it started. */
  lemma ClockPeriod(frames: int, ticksPerFrame: int)
    requires frames >= 1 && ticksPerFrame >= 0
    ensures Ticks(StartClock(frames, ticksPerFrame), frames * (ticksPerFrame + 1))
         == StartClock(frames, ticksPerFrame)
  {
    var start := StartClock(frames, ticksPerFrame);
    var last := UpdatesToFrame(frames - 1, ticksPerFrame);
    UpdatesToFrameIsProduct(frames, ticksPerFrame);
    assert UpdatesToFrame(frames, ticksPerFrame) == last + (ticksPerFrame + 1);
    TicksCongruent(start, frames * (ticksPerFrame + 1), last + (ticksPerFrame + 1));
    FrameStart(frames, ticksPerFrame, frames - 1);
    TicksAdd(start, last, ticksPerFrame + 1);
    TicksWholeFrame(Clock(frames, ticksPerFrame, frames - 1, 0));
    ModSelf(frames);
    assert frames - 1 + 1 == frames;
  }

  /** With the default `ticksPerFrame` of 0 every update shows the next
      frame: update number q shows frame q. */
  lemma NoDelayAdvancesEveryUpdate(frames: int, q: nat)
    requires frames >= 1 && q < frames
    ensures Ticks(StartClock(frames, 0), q).frameIndex == q
  {
    ClockPhase(frames, 0, q, 0);
  }

  lemma NextMultiple(q: int, m: int)
    ensures q * m == (q - 1) * m + m
  {
  }

  lemma ModBelow(i: int, n: int)
    requires 0 <= i < n
    ensures i % n == i
  {
  }

  lemma ModSelf(n: int)
    requires n >= 1
    ensures n % n == 0
  {
  }

  lemma MulMono(a: int, b: int, m: int)
    requires 0 <= a <= b && m >= 0
    ensures a * m <= b * m
  {
  }

  /** A game object: position, footprint and animation clock.  The source
      class is abstract; every concrete entity repeats these fields. */
  class GameObject {
    var xPos: int
    var yPos: int
    const width: int
    const height: int
    const frames: int
    const ticksPerFrame: int
    var frameIndex: int
    var tickCount: int

    ghost predicate Valid()
      reads this
    {
      ClockState().Valid() && width >= 0 && height >= 0
    }

    function ClockState(): Clock
      reads this
    {
      Clock(frames, ticksPerFrame, frameIndex, tickCount)
    }

    constructor (image: Sprite, x: int, y: int, frames: int, ticksPerFrame: int)
      requires FitsFrames(image, frames)
      ensures Valid()
      ensures xPos == x && yPos == y
      ensures width * frames == image.width && height == image.height
      ensures ClockState() == StartClock(frames, ticksPerFrame)
    {
      xPos, yPos := x, y;
      this.frames, this.ticksPerFrame := frames, ticksPerFrame;
      width := FrameWidth(image, frames);
      height := image.height;
      frameIndex, tickCount := 0, 0;
    }

    /** Advances the animation clock; the position never changes. */
    method Update()
      requires Valid()
      modifies this
      ensures Valid()
      ensures ClockState() == Tick(old(ClockState()))
      ensures xPos == old(xPos) && yPos == old(yPos)
    {
      tickCount := tickCount + 1;
      if tickCount > ticksPerFrame {
        tickCount := 0;
        frameIndex := (frameIndex + 1) % frames;
      }
    }

    /** The left edge of the current frame within the sheet, the source
        rectangle `render` hands to the canvas: always inside the sheet. */
    function SourceX(): (sx: int)
      reads this
      requires Valid()
      ensures sx == frameIndex * width
      ensures 0 <= sx && sx + width <= frames * width
    {
      MulMono(frameIndex + 1, frames, width);
      MulMono(0, frameIndex, width);
      frameIndex * width
    }
  }
}
