/** The snake game: a sequence of grid cells that moves one cell per frame in
    the direction of its velocity, grows when the head reaches the food, and
    ends when the head leaves the square grid or runs into the body. */
module SnakeGame {

  /** A grid cell (x, y). */
  type Cell = (int, int)

  predicate InGrid(c: Cell, n: int) {
    0 <= c.0 < n && 0 <= c.1 < n
  }

  /** A velocity the game can have: standing still or one cell along an axis. */
  predicate UnitOrZero(v: Cell) {
    v == (0, 0) || v == (0, -1) || v == (0, 1) || v == (-1, 0) || v == (1, 0)
  }

  function Neg(v: Cell): Cell {
    (-v.0, -v.1)
  }

  /** Some cell of the n by n grid is not covered by s. */
  ghost predicate HasFreeCell(s: seq<Cell>, n: int) {
    exists x, y :: 0 <= x < n && 0 <= y < n && (x, y) !in s
  }

  /** The head of s ends the game: it is off the grid or on a later segment. */
  ghost predicate Collided(s: seq<Cell>, n: int)
    requires |s| >= 1
  {
    !InGrid(s[0], n) || exists i :: 1 <= i < |s| && s[i] == s[0]
  }

  /** The four directions of the arrow keys and the mobile buttons. */
  datatype Dir = Up | Down | Left | Right

  function DirVector(d: Dir): Cell {
    match d
    case Up => (0, -1)
    case Down => (0, 1)
    case Left => (-1, 0)
    case Right => (1, 0)
  }

  /** The direction guard of the key and button handlers: Up is ignored while
      moving down, Down while moving up, Left while moving right and Right
      while moving left; otherwise the velocity becomes the direction's unit
      vector. For a velocity the game can have, that means: the turn is
      taken unless it is the exact reverse of the current motion. */
  function Steer(v: Cell, d: Dir): (w: Cell)
    ensures w == v || w == DirVector(d)
    ensures UnitOrZero(v) ==> w == if v == Neg(DirVector(d)) then v else DirVector(d)
  {
    match d
    case Up => if v.1 != 1 then (0, -1) else v
    case Down => if v.1 != -1 then (0, 1) else v
    case Left => if v.0 != 1 then (-1, 0) else v
    case Right => if v.0 != -1 then (1, 0) else v
  }

  /** Steering keeps the velocity one the game can have. */
  lemma SteerKeepsUnit(v: Cell, d: Dir)
    requires UnitOrZero(v)
    ensures UnitOrZero(Steer(v, d))
  {
  }

  /** One press never turns a moving snake straight back onto itself. */
  lemma SteerNeverReverses(v: Cell, d: Dir)
    requires UnitOrZero(v) && v != (0, 0)
    ensures Steer(v, d) != Neg(v)
  {
  }

  /** The guard only looks at the current velocity, which changes at once
      while the snake moves only on the next frame: moving right, Up and then
      Left within one frame leave the snake moving left, the reverse of its
      last move. */
  lemma TwoPressesReverse()
    ensures Steer(Steer((1, 0), Up), Left) == Neg((1, 0))
  {
  }

  datatype Key = ArrowUp | ArrowDown | ArrowLeft | ArrowRight | OtherKey

  function KeyDir(k: Key): Dir
    requires k != OtherKey
  {
    match k
    case ArrowUp => Up
    case ArrowDown => Down
    case ArrowLeft => Left
    case ArrowRight => Right
  }

  datatype Button = StartButton | ResetButton | UpButton | DownButton | LeftButton | RightButton

  /** The start position of the snake. */
  const StartCell: Cell := (10, 10)

  class Snake {
    /** The side of the square grid in cells. */
    const tileCount: int
    /** The segments, head first. */
    var snake: seq<Cell>
    var velocityX: int
    var velocityY: int
    var foodX: int
    var foodY: int
    var score: int
    var gameStarted: bool
    var gameOver: bool
    /** Whether the frame loop is still scheduled: it stops for good when the
        game ends, and a reset does not restart it. */
    var looping: bool

    function Velocity(): Cell
      reads this`velocityX, this`velocityY
    {
      (velocityX, velocityY)
    }

    function Food(): Cell
      reads this`foodX, this`foodY
    {
      (foodX, foodY)
    }

    /** What holds between frames: a non-empty snake, a velocity the game can
        have, and food on the grid but off the snake. */
    ghost predicate Valid()
      reads this
    {
      && tileCount >= 1 && |snake| >= 1 && score >= 0
      && UnitOrZero(Velocity())
      && InGrid(Food(), tileCount) && Food() !in snake
    }

    /** The cell the head moves to on the next frame. */
    function NextHead(): Cell
      reads this`snake, this`velocityX, this`velocityY
      requires |snake| >= 1
    {
      (snake[0].0 + velocityX, snake[0].1 + velocityY)
    }

    /** The next frame eats the food and so needs a free cell for new food. */
    ghost predicate CanPlaceFood()
      reads this
      requires |snake| >= 1
    {
      NextHead() == Food() ==> HasFreeCell([NextHead()] + snake, tileCount)
    }

    /** The page load: the initial figures, resetGame and the first frame
        scheduled. The random first food is replaced by resetGame. */
    constructor (n: int)
      requires n >= 1
      ensures Valid() && tileCount == n
      ensures snake == [StartCell] && Velocity() == (0, 0) && score == 0
      ensures !gameStarted && !gameOver && looping
    {
      tileCount := n;
      snake := [StartCell];
      velocityX, velocityY := 0, 0;
      foodX, foodY := 0, 0;
      score := 0;
      gameStarted, gameOver := false, false;
      looping := true;
      new;
      ResetGame();
    }

    /** Places the food (generateFood): any cell of the grid that no segment
        covers. The script draws random cells until one is free, which never
        ends when none is. */
    method GenerateFood()
      requires HasFreeCell(snake, tileCount)
      modifies this`foodX, this`foodY
      ensures InGrid(Food(), tileCount) && Food() !in snake
    {
      var x, y :| 0 <= x < tileCount && 0 <= y < tileCount && (x, y) !in snake;
      foodX, foodY := x, y;
    }

    /** Starts a new session (resetGame): both flags down, score 0, the snake
        back to its start cell standing still and new food off it. The frame
        loop is left as it is. */
    method ResetGame()
      requires tileCount >= 1
      modifies this`snake, this`velocityX, this`velocityY, this`foodX, this`foodY
      modifies this`score, this`gameStarted, this`gameOver
      ensures Valid()
      ensures snake == [StartCell] && Velocity() == (0, 0) && score == 0
      ensures !gameStarted && !gameOver
    {
      gameStarted, gameOver := false, false;
      score := 0;
      snake := [StartCell];
      velocityX, velocityY := 0, 0;
      assert (0, 0) !in snake;
      GenerateFood();
    }

    /** Moves the snake one cell (updateSnake): the new head is the old head
        plus the velocity; on the food the snake keeps its tail, scores a
        point and gets new food, otherwise the tail cell is dropped. */
    method UpdateSnake()
      requires Valid() && CanPlaceFood()
      modifies this`snake, this`score, this`foodX, this`foodY
      ensures Valid()
      ensures old(NextHead()) == old(Food()) ==>
        snake == [old(NextHead())] + old(snake) && score == old(score) + 1
      ensures old(NextHead()) != old(Food()) ==>
        && snake == [old(NextHead())] + old(snake)[..|old(snake)| - 1]
        && score == old(score) && Food() == old(Food())
    {
      var head := NextHead();
      snake := [head] + snake;
      if snake[0] == Food() {
        score := score + 1;
        GenerateFood();
      } else {
        snake := snake[..|snake| - 1];
        assert forall c :: c in snake ==> c == head || c in old(snake);
      }
    }

    /** The wall and self test (checkCollision). */
    method CheckCollision() returns (hit: bool)
      requires |snake| >= 1
      ensures hit <==> Collided(snake, tileCount)
    {
      var head := snake[0];
      if head.0 < 0 || head.0 >= tileCount || head.1 < 0 || head.1 >= tileCount {
        return true;
      }
      for i := 1 to |snake|
        invariant forall j :: 1 <= j < i ==> snake[j] != head
      {
        if snake[i] == head {
          return true;
        }
      }
      return false;
    }

    /** The second food test of a frame (checkFoodCollision): a head on the
        food scores a point and gets new food. */
    method CheckFoodCollision()
      requires |snake| >= 1 && (snake[0] == Food() ==> HasFreeCell(snake, tileCount))
      modifies this`score, this`foodX, this`foodY
      ensures old(snake[0] == Food()) ==> score == old(score) + 1 && InGrid(Food(), tileCount) && Food() !in snake
      ensures old(snake[0] != Food()) ==> score == old(score) && Food() == old(Food())
    {
      if snake[0] == Food() {
        score := score + 1;
        GenerateFood();
      }
    }

    /** Between frames the head is never on the food, so the second food test
        of a frame never fires. */
    lemma HeadOffFood()
      requires Valid()
      ensures snake[0] != Food()
    {
      assert snake[0] in snake;
    }

    /** One frame of the game loop (gameLoop). Nothing happens once the loop
        has stopped; a game that is over stops it; a game that has not started
        waits; otherwise the snake moves, a collision ends the game and stops
        the loop, and the food test runs. A frame adds at most one point. */
    method Tick()
      requires Valid() && CanPlaceFood()
      modifies this`snake, this`score, this`foodX, this`foodY, this`gameOver, this`looping
      ensures Valid()
      ensures score == old(score) || score == old(score) + 1
      ensures looping == (old(looping) && !gameOver)
      ensures !old(looping) || !old(gameStarted) ==>
        snake == old(snake) && score == old(score) && Food() == old(Food()) && gameOver == old(gameOver)
      ensures old(looping) && old(gameOver) ==>
        !looping && snake == old(snake) && score == old(score) && Food() == old(Food())
      ensures old(looping) && old(gameStarted) && !old(gameOver) ==>
        && snake == [old(NextHead())] +
             (if old(NextHead()) == old(Food()) then old(snake) else old(snake)[..|old(snake)| - 1])
        && score == old(score) + (if old(NextHead()) == old(Food()) then 1 else 0)
        && (old(NextHead()) != old(Food()) ==> Food() == old(Food()))
        && gameOver == Collided(snake, tileCount) && looping == !gameOver
    {
      if !looping {
        return;
      }
      if gameOver {
        looping := false;
        return;
      }
      if !gameStarted {
        return;
      }
      UpdateSnake();
      var hit := CheckCollision();
      if hit {
        gameOver := true;
        looping := false;
        return;
      }
      HeadOffFood();
      CheckFoodCollision();
    }

    /** The keyboard handler: an arrow key starts a game that is neither
        running nor over, and every arrow key steers, whatever the state of
        the game. */
    method KeyPress(key: Key)
      requires Valid()
      modifies this`gameStarted, this`velocityX, this`velocityY
      ensures Valid()
      ensures gameStarted == (old(gameStarted) || (!gameOver && key != OtherKey))
      ensures Velocity() == if key == OtherKey then old(Velocity()) else Steer(old(Velocity()), KeyDir(key))
    {
      if !gameStarted && !gameOver && key != OtherKey {
        gameStarted := true;
      }
      if key != OtherKey {
        Turn(KeyDir(key));
      }
    }

    /** The direction guard applied to the velocity fields. */
    method Turn(d: Dir)
      requires UnitOrZero(Velocity())
      modifies this`velocityX, this`velocityY
      ensures Velocity() == Steer(old(Velocity()), d) && UnitOrZero(Velocity())
    {
      SteerKeepsUnit(Velocity(), d);
      match d {
        case Up =>
          if velocityY != 1 {
            velocityX, velocityY := 0, -1;
          }
        case Down =>
          if velocityY != -1 {
            velocityX, velocityY := 0, 1;
          }
        case Left =>
          if velocityX != 1 {
            velocityX, velocityY := -1, 0;
          }
        case Right =>
          if velocityX != -1 {
            velocityX, velocityY := 1, 0;
          }
      }
    }

    /** The buttons: Start starts a game that is neither running nor over,
        Reset starts a new session, and each arrow button steers and then
        starts such a game. */
    method Press(button: Button)
      requires Valid()
      modifies this`snake, this`velocityX, this`velocityY, this`foodX, this`foodY
      modifies this`score, this`gameStarted, this`gameOver
      ensures Valid()
      ensures button != ResetButton ==>
        && gameStarted == (old(gameStarted) || !old(gameOver))
        && snake == old(snake) && score == old(score) && gameOver == old(gameOver) && Food() == old(Food())
      ensures button == StartButton ==> Velocity() == old(Velocity())
      ensures button == UpButton ==> Velocity() == Steer(old(Velocity()), Up)
      ensures button == DownButton ==> Velocity() == Steer(old(Velocity()), Down)
      ensures button == LeftButton ==> Velocity() == Steer(old(Velocity()), Left)
      ensures button == RightButton ==> Velocity() == Steer(old(Velocity()), Right)
      ensures button == ResetButton ==>
        snake == [StartCell] && Velocity() == (0, 0) && score == 0 && !gameStarted && !gameOver
    {
      match button {
        case ResetButton =>
          ResetGame();
          return;
        case StartButton =>
        case UpButton => Turn(Up);
        case DownButton => Turn(Down);
        case LeftButton => Turn(Left);
        case RightButton => Turn(Right);
      }
      if !gameStarted && !gameOver {
        gameStarted := true;
      }
    }
  }
}
