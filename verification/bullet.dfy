/** Shots: a one-frame object that travels straight up (players' shots) or
    straight down (enemies' shots), and an edge-based overlap test. */
module Bullets {
  import opened GameObjects

  /** Pixels per move, fixed when the bullet is built. */
  const Speed: int := 2

  /** The state of one bullet. */
  datatype BulletState = BulletState(x: int, y: int, width: int, height: int, clock: Clock)

  /** What a move reports in place of the source's boundary callback. */
  datatype MoveStatus = InFlight | AtBoundary

  datatype MoveOutcome = MoveOutcome(bullet: BulletState, status: MoveStatus)

  /** A new bullet: the whole sheet is its single frame. */
  function NewBullet(image: Sprite, x: int, y: int): (b: BulletState)
    requires FitsFrames(image, 1)
    ensures b.x == x && b.y == y && b.width == image.width && b.height == image.height
    ensures b.clock == StartClock(1, 0)
  {
    BulletState(x, y, FrameWidth(image, 1), image.height, StartClock(1, 0))
  }

  /** `move`: up while the top edge stays below 0, down while it stays above
      the field height; otherwise the bullet stays put and reports the
      boundary.  Sideways requests do nothing and report nothing. */
  function MoveBullet(b: BulletState, d: Direction, fieldHeight: int): (r: MoveOutcome)
    ensures r.bullet == b.(y := r.bullet.y)
    ensures r.status == AtBoundary ==> r.bullet == b
    ensures d == Up ==> (r.status == AtBoundary <==> b.y - Speed <= 0)
    ensures d == Down ==> (r.status == AtBoundary <==> b.y + Speed >= fieldHeight)
    ensures d == Up && r.status == InFlight ==> r.bullet.y == b.y - Speed && 0 < r.bullet.y
    ensures d == Down && r.status == InFlight ==> r.bullet.y == b.y + Speed && r.bullet.y < fieldHeight
    ensures d == Left || d == Right ==> r == MoveOutcome(b, InFlight)
  {
    match d
    case Up =>
      if b.y - Speed > 0 then MoveOutcome(b.(y := b.y - Speed), InFlight)
      else MoveOutcome(b, AtBoundary)
    case Down =>
      if b.y + Speed < fieldHeight then MoveOutcome(b.(y := b.y + Speed), InFlight)
      else MoveOutcome(b, AtBoundary)
    case _ => MoveOutcome(b, InFlight)
  }

  /** `intersectsWithObject`: the bullet's left or right edge lies in the
      closed span [X, X+w], and its top or bottom edge in [Y, Y+h]. */
  predicate Intersects(b: BulletState, X: int, w: int, Y: int, h: int)
  {
    ((b.x <= X + w && b.x >= X) || (b.x + b.width >= X && b.x + b.width <= X + w)) &&
    ((b.y <= Y + h && b.y >= Y) || (b.y + b.height >= Y && b.y + b.height <= Y + h))
  }

  /** The two closed boxes share at least one point. */
  predicate Overlap(b: BulletState, X: int, w: int, Y: int, h: int)
  {
    b.x <= X + w && X <= b.x + b.width && b.y <= Y + h && Y <= b.y + b.height
  }

  /** A reported hit is a real overlap: boxes that are apart never hit. */
  lemma IntersectsSound(b: BulletState, X: int, w: int, Y: int, h: int)
    requires b.width >= 0 && b.height >= 0
    ensures Intersects(b, X, w, Y, h) ==> Overlap(b, X, w, Y, h)
  {
  }

  /** A bullet no larger than its target hits whenever the boxes overlap;
      together with soundness the test is then exactly box overlap. */
  lemma IntersectsComplete(b: BulletState, X: int, w: int, Y: int, h: int)
    requires b.width <= w && b.height <= h
    ensures Overlap(b, X, w, Y, h) ==> Intersects(b, X, w, Y, h)
  {
  }

  /** Only edges are compared, so a bullet wider and taller than its target
      that covers it completely is not a hit. */
  lemma CoveringBulletMisses(clock: Clock)
    ensures var b := BulletState(0, 0, 10, 10, clock);
            Overlap(b, 2, 2, 2, 2) && !Intersects(b, 2, 2, 2, 2)
  {
  }

  /** The source's own negative case: a bullet at (100, 600) shorter than
      20 pixels does not touch the box at (100, 620) of size 40 by 19. */
  lemma ShortBulletMissesBoxBelow(b: BulletState)
    requires b.x == 100 && b.y == 600 && 0 <= b.height < 20
    ensures !Intersects(b, 100, 40, 620, 19)
  {
  }

  /** The bullet after `n` moves in direction `d`. */
  function Travel(b: BulletState, d: Direction, n: nat, fieldHeight: int): BulletState
  {
    if n == 0 then b else MoveBullet(Travel(b, d, n - 1, fieldHeight), d, fieldHeight).bullet
  }

  /** n moves up from y end at y - n*speed as long as that stays above 0,
      and the bullet never drifts sideways. */
  lemma {:induction false} TravelUp(b: BulletState, n: nat, fieldHeight: int)
    requires b.y - Speed * n > 0
    ensures Travel(b, Up, n, fieldHeight) == b.(y := b.y - Speed * n)
  {
    if n > 0 {
      TravelUp(b, n - 1, fieldHeight);
    }
  }

  /** n moves down from y end at y + n*speed as long as that stays below
      the field height. */
  lemma {:induction false} TravelDown(b: BulletState, n: nat, fieldHeight: int)
    requires b.y + Speed * n < fieldHeight
    ensures Travel(b, Down, n, fieldHeight) == b.(y := b.y + Speed * n)
  {
    if n > 0 {
      TravelDown(b, n - 1, fieldHeight);
    }
  }

  /** The source's scenario: four moves from y = 600 on an 800-high field
      end at 592 going up and at 608 going down. */
  lemma FourMovesFrom600(b: BulletState)
    requires b.y == 600
    ensures Travel(b, Up, 4, 800).y == 592 && Travel(b, Up, 4, 800).x == b.x
    ensures Travel(b, Down, 4, 800).y == 608 && Travel(b, Down, 4, 800).x == b.x
  {
    TravelUp(b, 4, 800);
    TravelDown(b, 4, 800);
  }

  /** A bullet object: the game-object fields, its speed and the height of
      the canvas it moves on. */
  class Bullet {
    var xPos: int
    var yPos: int
    const width: int
    const height: int
    const frames: int
    const ticksPerFrame: int
    var frameIndex: int
    var tickCount: int
    const movementSpeed: int := Speed
    const canvasHeight: int

    function State(): BulletState
      reads this
    {
      BulletState(xPos, yPos, width, height, Clock(frames, ticksPerFrame, frameIndex, tickCount))
    }

    constructor (image: Sprite, canvasHeight: int, x: int, y: int)
      requires FitsFrames(image, 1)
      ensures State() == NewBullet(image, x, y) && this.canvasHeight == canvasHeight
    {
      xPos, yPos := x, y;
      width, height := image.width, image.height;
      frames, ticksPerFrame := 1, 0;
      frameIndex, tickCount := 0, 0;
      this.canvasHeight := canvasHeight;
    }

    /** Moves the bullet and returns what the source reports through its
        callback: `AtBoundary` exactly when the callback would run. */
    method Move(d: Direction) returns (status: MoveStatus)
      modifies this
      ensures MoveOutcome(State(), status) == MoveBullet(old(State()), d, canvasHeight)
    {
      status := InFlight;
      match d {
        case Up =>
          if yPos - movementSpeed > 0 {
            yPos := yPos - movementSpeed;
          } else {
            status := AtBoundary;
          }
        case Down =>
          if yPos + movementSpeed < canvasHeight {
            yPos := yPos + movementSpeed;
          } else {
            status := AtBoundary;
          }
        case _ =>
      }
    }
  }
}
