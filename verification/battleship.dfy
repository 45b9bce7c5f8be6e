/** The player's ship: clamped horizontal moves, a score that never goes
    below zero and lives that never go below zero. */
module Battleships {
  import opened GameObjects

  /** Pixels per move, fixed when the ship is built. */
  const Speed: int := 4
  /** Lives a new ship starts with. */
  const InitialLives: int := 3

  /** The state of one ship. */
  datatype BattleshipState = BattleshipState(
    x: int, y: int, width: int, height: int, clock: Clock, score: int, lives: int)

  /** A new ship centred horizontally on `x`, standing with its bottom edge
      on `y`, with no score and three lives. */
  function NewBattleship(image: Sprite, x: int, y: int, frames: int, ticksPerFrame: int): (s: BattleshipState)
    requires EvenFrames(image, frames)
    ensures s.x + s.width / 2 == x && s.y + s.height == y
    ensures s.width * frames == image.width && s.height == image.height && s.width % 2 == 0
    ensures s.score == 0 && s.lives == InitialLives
    ensures s.clock == StartClock(frames, ticksPerFrame)
  {
    var w := FrameWidth(image, frames);
    BattleshipState(x - w / 2, y - image.height, w, image.height,
                    StartClock(frames, ticksPerFrame), 0, InitialLives)
  }

  /** Strictly inside the playfield horizontally. */
  predicate InField(s: BattleshipState, fieldWidth: int)
  {
    0 < s.x && s.x + s.width < fieldWidth
  }

  /** `move`: one step left or right, refused when the step would put the
      left edge at or before 0 or the right edge at or past the field width. */
  function ShipMoved(s: BattleshipState, d: Direction, fieldWidth: int): (r: BattleshipState)
    ensures r == s.(x := r.x)
    ensures d == Up || d == Down ==> r == s
    ensures r.x != s.x ==>
              (d == Left && r.x == s.x - Speed && 0 < r.x) ||
              (d == Right && r.x == s.x + Speed && r.x + s.width < fieldWidth)
    ensures (d == Left && 0 < s.x - Speed) || (d == Right && s.x + Speed + s.width < fieldWidth)
            ==> r.x != s.x
  {
    match d
    case Left => if s.x - Speed > 0 then s.(x := s.x - Speed) else s
    case Right => if s.x + Speed + s.width < fieldWidth then s.(x := s.x + Speed) else s
    case _ => s
  }

  /** The ship after a sequence of moves. */
  function MoveAll(s: BattleshipState, ds: seq<Direction>, fieldWidth: int): BattleshipState
    decreases |ds|
  {
    if ds == [] then s else MoveAll(ShipMoved(s, ds[0], fieldWidth), ds[1..], fieldWidth)
  }

  /** A ship inside the field stays inside it, whatever it is told to do,
      and never leaves its row. */
  lemma {:induction false} MovesStayInField(s: BattleshipState, ds: seq<Direction>, fieldWidth: int)
    requires InField(s, fieldWidth)
    ensures InField(MoveAll(s, ds, fieldWidth), fieldWidth)
    ensures MoveAll(s, ds, fieldWidth).y == s.y
    decreases |ds|
  {
    if ds != [] {
      MovesStayInField(ShipMoved(s, ds[0], fieldWidth), ds[1..], fieldWidth);
    }
  }

  function ScoreAdded(s: BattleshipState, points: int): BattleshipState
  {
    s.(score := s.score + points)
  }

  /** `subtractFromScore`: take the points off, but never below zero. */
  function ScoreSubtracted(s: BattleshipState, points: int): (r: BattleshipState)
    ensures r == s.(score := r.score)
    ensures r.score >= 0
    ensures s.score - points >= 0 ==> r.score == s.score - points
    ensures s.score - points < 0 ==> r.score == 0
  {
    if s.score - points >= 0 then s.(score := s.score - points) else s.(score := 0)
  }

  function LifeAdded(s: BattleshipState): BattleshipState
  {
    s.(lives := s.lives + 1)
  }

  /** `removeLife`: one life fewer, unless none is left. */
  function LifeRemoved(s: BattleshipState): (r: BattleshipState)
    ensures r == s.(lives := r.lives)
    ensures s.lives > 0 ==> r.lives == s.lives - 1
    ensures s.lives <= 0 ==> r.lives == s.lives
  {
    if s.lives > 0 then s.(lives := s.lives - 1) else s
  }

  /** A change to the score, as the orchestrator or a caller makes it. */
  datatype ScoreChange = Gain(points: int) | Loss(points: int)

  function ApplyScore(s: BattleshipState, changes: seq<ScoreChange>): BattleshipState
    decreases |changes|
  {
    if changes == [] then s
    else
      var next := match changes[0]
        case Gain(p) => ScoreAdded(s, p)
        case Loss(p) => ScoreSubtracted(s, p);
      ApplyScore(next, changes[1..])
  }

  /** From a non-negative score, no mix of (non-negative) gains and losses
      of any size drives the score below zero. */
  lemma {:induction false} ScoreNeverNegative(s: BattleshipState, changes: seq<ScoreChange>)
    requires s.score >= 0
    requires forall i :: 0 <= i < |changes| && changes[i].Gain? ==> changes[i].points >= 0
    ensures ApplyScore(s, changes).score >= 0
    decreases |changes|
  {
    if changes != [] {
      var next := match changes[0]
        case Gain(p) => ScoreAdded(s, p)
        case Loss(p) => ScoreSubtracted(s, p);
      ScoreNeverNegative(next, changes[1..]);
    }
  }

  function LivesRemoved(s: BattleshipState, n: nat): BattleshipState
  {
    if n == 0 then s else LifeRemoved(LivesRemoved(s, n - 1))
  }

  /** Removing n lives leaves max(0, lives - n): more removals than lives
      end at exactly zero, never below. */
  lemma {:induction false} LivesRunOut(s: BattleshipState, n: nat)
    requires s.lives >= 0
    ensures LivesRemoved(s, n).lives == if s.lives >= n then s.lives - n else 0
    ensures LivesRemoved(s, n) == s.(lives := LivesRemoved(s, n).lives)
  {
    if n > 0 {
      LivesRunOut(s, n - 1);
    }
  }

  /** The ship as the source builds it: the fields of a game object, a fixed
      speed, the canvas width it reads when moving, a score and lives. */
  class Battleship {
    var xPos: int
    var yPos: int
    const width: int
    const height: int
    const frames: int
    const ticksPerFrame: int
    var frameIndex: int
    var tickCount: int
    /** The fixed speed the source passes up to its movable base class. */
    const movementSpeed: int := Speed
    const canvasWidth: int
    var score: int
    var lives: int

    function State(): BattleshipState
      reads this
    {
      BattleshipState(xPos, yPos, width, height,
                      Clock(frames, ticksPerFrame, frameIndex, tickCount), score, lives)
    }

    constructor (image: Sprite, canvasWidth: int, x: int, y: int, frames: int, ticksPerFrame: int)
      requires EvenFrames(image, frames)
      ensures State() == NewBattleship(image, x, y, frames, ticksPerFrame)
      ensures this.canvasWidth == canvasWidth
    {
      var w := FrameWidth(image, frames);
      xPos, yPos := x, y;
      width, height := w, image.height;
      this.frames, this.ticksPerFrame := frames, ticksPerFrame;
      frameIndex, tickCount := 0, 0;
      this.canvasWidth := canvasWidth;
      score, lives := 0, InitialLives;
      new;
      xPos := xPos - width / 2;
      yPos := yPos - height;
    }

    method Move(d: Direction)
      modifies this
      ensures State() == ShipMoved(old(State()), d, canvasWidth)
    {
      match d {
        case Left =>
          if xPos - movementSpeed > 0 {
            xPos := xPos - movementSpeed;
          }
        case Right =>
          if xPos + movementSpeed + width < canvasWidth {
            xPos := xPos + movementSpeed;
          }
        case _ =>
      }
    }

    method AddToScore(points: int)
      modifies this
      ensures State() == ScoreAdded(old(State()), points)
    {
      score := score + points;
    }

    method SubtractFromScore(points: int)
      modifies this
      ensures State() == ScoreSubtracted(old(State()), points)
    {
      if score - points >= 0 {
        score := score - points;
      } else {
        score := 0;
      }
    }

    method AddLife()
      modifies this
      ensures State() == LifeAdded(old(State()))
    {
      lives := lives + 1;
    }

    method RemoveLife()
      modifies this
      ensures State() == LifeRemoved(old(State()))
    {
      if lives > 0 {
        lives := lives - 1;
      }
    }
  }
}
