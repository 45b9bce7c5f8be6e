/** Invaders: a sprite that steps sideways or down in its current
    direction, refusing any step that would touch the field's edge, and a
    look-ahead test for that edge. */
module Enemies {
  import opened GameObjects

  /** Horizontal pixels per move. */
  const Speed: int := 6
  /** Vertical pixels per move. */
  const VerticalSpeed: int := 10
  /** Points an enemy is worth unless told otherwise. */
  const DefaultHitScore: int := 10

  /** The state of one enemy. */
  datatype EnemyState = EnemyState(
    x: int, y: int, width: int, height: int, clock: Clock, hitScore: int, direction: Direction)

  /** A new enemy at (x, y) with the given worth and heading. */
  function NewEnemy(image: Sprite, x: int, y: int, hitScore: int, direction: Direction,
                    frames: int, ticksPerFrame: int): (e: EnemyState)
    requires FitsFrames(image, frames)
    ensures e.x == x && e.y == y && e.hitScore == hitScore && e.direction == direction
    ensures e.width * frames == image.width && e.height == image.height
    ensures e.clock == StartClock(frames, ticksPerFrame)
  {
    EnemyState(x, y, FrameWidth(image, frames), image.height,
               StartClock(frames, ticksPerFrame), hitScore, direction)
  }

  /** `move`: one step in the current direction unless the step would put
      the left edge at or before 0, the right edge at or past the field
      width, or the bottom edge at or past the field height. */
  function MoveEnemy(e: EnemyState, fieldWidth: int, fieldHeight: int): (r: EnemyState)
    ensures r == e.(x := r.x, y := r.y)
    ensures r.x != e.x ==>
              (e.direction == Right && r.x == e.x + Speed && r.x + e.width < fieldWidth) ||
              (e.direction == Left && r.x == e.x - Speed && 0 < r.x)
    ensures r.y != e.y ==>
              e.direction == Down && r.y == e.y + VerticalSpeed && r.y + e.height < fieldHeight
    ensures (e.direction == Right && e.x + Speed + e.width < fieldWidth) ||
            (e.direction == Left && e.x - Speed > 0) ||
            (e.direction == Down && e.y + VerticalSpeed + e.height < fieldHeight)
            ==> r != e
    ensures e.direction == Up ==> r == e
  {
    match e.direction
    case Right => if e.x + Speed + e.width < fieldWidth then e.(x := e.x + Speed) else e
    case Left => if e.x - Speed > 0 then e.(x := e.x - Speed) else e
    case Down => if e.y + VerticalSpeed + e.height < fieldHeight then e.(y := e.y + VerticalSpeed) else e
    case Up => e
  }

  /** `boundaryReached`: whether the next step in the current direction
      would touch an edge.  The downward test leaves out the enemy's height;
      an enemy heading up never reports an edge. */
  predicate BoundaryReached(e: EnemyState, fieldWidth: int, fieldHeight: int)
  {
    match e.direction
    case Right => e.x + e.width + Speed >= fieldWidth
    case Left => e.x - Speed <= 0
    case Down => e.y + VerticalSpeed >= fieldHeight
    case Up => false
  }

  /** Sideways, the edge test is exactly "the next move would be refused". */
  lemma LateralBoundaryIsRefusedMove(e: EnemyState, fieldWidth: int, fieldHeight: int)
    requires e.direction == Left || e.direction == Right
    ensures BoundaryReached(e, fieldWidth, fieldHeight) <==> MoveEnemy(e, fieldWidth, fieldHeight) == e
  {
  }

  /** Downwards, a reported edge does mean the move is refused ... */
  lemma DownBoundaryRefusesMove(e: EnemyState, fieldWidth: int, fieldHeight: int)
    requires e.direction == Down && e.height >= 0
    requires BoundaryReached(e, fieldWidth, fieldHeight)
    ensures MoveEnemy(e, fieldWidth, fieldHeight) == e
  {
  }

  /** ... but not conversely: within one step plus its own height of the
      bottom, the move is refused while no edge is reported. */
  lemma DownRefusalUnreported(e: EnemyState, fieldWidth: int, fieldHeight: int)
    requires e.direction == Down
    requires e.y + VerticalSpeed < fieldHeight <= e.y + VerticalSpeed + e.height
    ensures !BoundaryReached(e, fieldWidth, fieldHeight)
    ensures MoveEnemy(e, fieldWidth, fieldHeight) == e
  {
  }

  /** Each of the three edge conditions survives any move on its own. */
  lemma MoveKeepsEdges(e: EnemyState, fieldWidth: int, fieldHeight: int)
    ensures var r := MoveEnemy(e, fieldWidth, fieldHeight);
      (0 < e.x ==> 0 < r.x) &&
      (e.x + e.width < fieldWidth ==> r.x + r.width < fieldWidth) &&
      (e.y + e.height < fieldHeight ==> r.y + r.height < fieldHeight)
  {
  }

  /** The enemy after `n` moves. */
  function Steps(e: EnemyState, n: nat, fieldWidth: int, fieldHeight: int): EnemyState
  {
    if n == 0 then e else MoveEnemy(Steps(e, n - 1, fieldWidth, fieldHeight), fieldWidth, fieldHeight)
  }

  /** An enemy driven right from inside the field keeps its row and stays
      inside; it advances a full step each move while room is left, and
      once n steps would overshoot it stands at the edge and reports it. */
  lemma {:induction false} RightMarch(e: EnemyState, n: nat, fieldWidth: int, fieldHeight: int)
    requires e.direction == Right && e.x + e.width < fieldWidth
    ensures var r := Steps(e, n, fieldWidth, fieldHeight);
      r == e.(x := r.x) && r.x + r.width < fieldWidth &&
      (e.x + Speed * n + e.width < fieldWidth ==> r.x == e.x + Speed * n) &&
      (e.x + Speed * n + e.width >= fieldWidth ==> BoundaryReached(r, fieldWidth, fieldHeight))
  {
    if n > 0 {
      RightMarch(e, n - 1, fieldWidth, fieldHeight);
    }
  }

  /** The same to the left: the enemy stays right of 0 and reports the edge
      once n steps would reach it. */
  lemma {:induction false} LeftMarch(e: EnemyState, n: nat, fieldWidth: int, fieldHeight: int)
    requires e.direction == Left && 0 < e.x
    ensures var r := Steps(e, n, fieldWidth, fieldHeight);
      r == e.(x := r.x) && 0 < r.x &&
      (e.x - Speed * n > 0 ==> r.x == e.x - Speed * n) &&
      (e.x - Speed * n <= 0 ==> BoundaryReached(r, fieldWidth, fieldHeight))
  {
    if n > 0 {
      LeftMarch(e, n - 1, fieldWidth, fieldHeight);
    }
  }

  /** An enemy object: the game-object fields, its two speeds, its worth,
      its heading and the canvas it moves on. */
  class Enemy {
    var xPos: int
    var yPos: int
    const width: int
    const height: int
    const frames: int
    const ticksPerFrame: int
    var frameIndex: int
    var tickCount: int
    const movementSpeed: int := Speed
    const verticalMovementSpeed: int := VerticalSpeed
    const hitScore: int
    var movementDirection: Direction
    const canvasWidth: int
    const canvasHeight: int

    function State(): EnemyState
      reads this
    {
      EnemyState(xPos, yPos, width, height, Clock(frames, ticksPerFrame, frameIndex, tickCount),
                 hitScore, movementDirection)
    }

    constructor (image: Sprite, canvasWidth: int, canvasHeight: int, x: int, y: int,
                 hitScore: int, direction: Direction, frames: int, ticksPerFrame: int)
      requires FitsFrames(image, frames)
      ensures State() == NewEnemy(image, x, y, hitScore, direction, frames, ticksPerFrame)
      ensures this.canvasWidth == canvasWidth && this.canvasHeight == canvasHeight
    {
      xPos, yPos := x, y;
      width, height := FrameWidth(image, frames), image.height;
      this.frames, this.ticksPerFrame := frames, ticksPerFrame;
      frameIndex, tickCount := 0, 0;
      this.hitScore, movementDirection := hitScore, direction;
      this.canvasWidth, this.canvasHeight := canvasWidth, canvasHeight;
    }

    method Move()
      modifies this
      ensures State() == MoveEnemy(old(State()), canvasWidth, canvasHeight)
    {
      match movementDirection {
        case Right =>
          if xPos + movementSpeed + width < canvasWidth {
            xPos := xPos + movementSpeed;
          }
        case Left =>
          if xPos - movementSpeed > 0 {
            xPos := xPos - movementSpeed;
          }
        case Down =>
          if yPos + verticalMovementSpeed + height < canvasHeight {
            yPos := yPos + verticalMovementSpeed;
          }
        case Up =>
      }
    }

    /** The direction setter: the getter then returns `d`, and nothing else
        about the enemy changes. */
    method SetMovementDirection(d: Direction)
      modifies this
      ensures movementDirection == d
      ensures State() == old(State()).(direction := d)
    {
      movementDirection := d;
    }
  }
}
