/** The engine object: it owns the snake, the direction, the phase, the score
    and the food, and changes them in place. Each method is proved against the
    rules in module `Rules`. */
module Engine {
  import opened Models
  import opened Rules

  class GameEngine {
    /** The segments, tail first and head last. */
    var snake: seq<Cell>
    var areaWidth: int
    var areaHeight: int
    var squareSize: int
    var direction: Direction
    var state: GameState
    var score: int
    var food: Option<Cell>

    /** A snake exists only once a positive grid step has been recorded. */
    ghost predicate Valid()
      reads this
    {
      snake != [] ==> squareSize > 0
    }

    function Board(): Config
      reads this`areaWidth, this`areaHeight, this`squareSize
    {
      Config(areaWidth, areaHeight, squareSize)
    }

    ghost function Model(): Game
      reads this
    {
      Game(snake, direction, state, score, food)
    }

    /** A new engine holds the default value of every field. */
    constructor ()
      ensures Valid()
      ensures snake == [] && food == None && score == 0
      ensures direction == Left && state == NotStarted
      ensures areaWidth == 0 && areaHeight == 0 && squareSize == 0
    {
      snake := [];
      areaWidth, areaHeight, squareSize := 0, 0, 0;
      direction := Left;
      state := NotStarted;
      score := 0;
      food := None;
    }

    /** Starts a game: the snake lies on the middle row with its head on the
        right, heading right, and food is placed. */
    method Initialize(areaWidth: int, areaHeight: int, squareSize: int := 20, initialSnakeLength: int := 10)
      requires squareSize > 0
      modifies this
      ensures Valid()
      ensures Board() == Config(areaWidth, areaHeight, squareSize)
      ensures snake == InitialBody(initialSnakeLength, Board())
      ensures |snake| == Max(0, initialSnakeLength)
      ensures direction == Right && state == Playing && score == 0
      ensures FoodOk(food, snake, Board())
      ensures initialSnakeLength >= 1 && (initialSnakeLength - 1) * squareSize < areaWidth && areaHeight > 0 ==>
                WellFormed(Model(), Board())
    {
      this.areaWidth := areaWidth;
      this.areaHeight := areaHeight;
      this.squareSize := squareSize;
      direction := Right;
      state := Playing;
      score := 0;
      food := None;
      snake := [];

      var maxRow := TruncDiv(areaHeight, squareSize);
      var startY := TruncDiv(maxRow, 2) * squareSize;
      var i := 0;
      while i < initialSnakeLength
        modifies this`snake
        invariant 0 <= i <= Max(0, initialSnakeLength)
        invariant |snake| == i
        invariant forall j :: 0 <= j < i ==> snake[j] == Cell(j * squareSize, startY)
      {
        snake := snake + [Cell(i * squareSize, startY)];
        i := i + 1;
      }
      assert startY == StartY(Board());
      if initialSnakeLength > 0 {
        ghost var body := InitialBody(initialSnakeLength, Board());
        assert |body| == |snake|;
        assert forall j :: 0 <= j < |snake| ==> snake[j] == body[j];
        assert snake == body;
      }
      SpawnFood();
      if initialSnakeLength >= 1 && (initialSnakeLength - 1) * squareSize < areaWidth && areaHeight > 0 {
        InitialWellFormed(initialSnakeLength, Board(), food);
      }
    }

    /** Sets the phase; used to pause and resume. */
    method SetState(state: GameState)
      modifies this`state
      ensures this.state == state
    {
      this.state := state;
    }

    /** Advances one tick: the new state is `Tick` of the old one, and when
        the snake ate, the new food satisfies food placement's guarantee. */
    method Move(requestedDirection: Direction)
      requires Valid()
      requires state == GameOver || state == Paused || snake != []
      modifies this`snake, this`direction, this`state, this`score, this`food
      ensures Valid() && Board() == old(Board())
      ensures Model() == Tick(old(Model()), requestedDirection, Board(), food)
      ensures Eats(old(Model()), requestedDirection, Board()) ==> FoodOk(food, snake, Board())
      ensures WellFormed(old(Model()), old(Board())) ==> WellFormed(Model(), Board())
    {
      if state == GameOver || state == Paused {
        return;
      }
      ghost var g, cfg := Model(), Board();

      var forbidden := IsReversal(direction, requestedDirection);
      if !forbidden {
        direction := requestedDirection;
      }

      var head := snake[|snake| - 1];
      var newHead := Step(head, direction, squareSize);
      assert direction == Accept(g.direction, requestedDirection);

      if newHead.x < 0 || newHead.x >= areaWidth || newHead.y < 0 || newHead.y >= areaHeight {
        state := GameOver;
        TickEnds(g, requestedDirection, cfg, food);
        return;
      }

      var hit := CollidesWithBody(newHead);
      if hit {
        state := GameOver;
        TickEnds(g, requestedDirection, cfg, food);
        return;
      }

      if food == Some(newHead) {
        score := score + 1;
        snake := snake + [newHead];
        SpawnFood();
        TickEats(g, requestedDirection, cfg, food);
        return;
      }

      ShiftBody(newHead);
      TickAdvances(g, requestedDirection, cfg, food);
    }

    /** The body check of a tick: whether cell `c` is one of the segments
        before the head. The tail is scanned too. */
    method CollidesWithBody(c: Cell) returns (hit: bool)
      ensures hit <==> HitsBody(snake, c)
    {
      var i := 0;
      while i < |snake| - 1
        invariant 0 <= i <= Max(0, |snake| - 1)
        invariant forall j :: 0 <= j < i ==> snake[j] != c
      {
        if snake[i] == c {
          return true;
        }
        i := i + 1;
      }
      return false;
    }

    /** The body shift of a tick: each segment takes its successor's cell and
        the head takes `newHead`. */
    method ShiftBody(newHead: Cell)
      requires snake != []
      modifies this`snake
      ensures snake == Advance(old(snake), newHead)
    {
      var i := 0;
      while i < |snake| - 1
        invariant |snake| == |old(snake)|
        invariant 0 <= i <= |snake| - 1
        invariant forall j :: 0 <= j < i ==> snake[j] == old(snake)[j + 1]
        invariant forall j :: i <= j < |snake| ==> snake[j] == old(snake)[j]
      {
        snake := snake[i := snake[i + 1]];
        i := i + 1;
      }
      snake := snake[|snake| - 1 := newHead];
    }

    /** Food placement by rejection sampling: up to 100 random grid cells are
        drawn and the first one off the snake is taken; otherwise no food. */
    method SpawnFood()
      requires squareSize > 0
      modifies this`food
      ensures FoodOk(food, snake, Board())
      ensures MaxCol(Board()) == 0 || MaxRow(Board()) == 0 ==> food == None
    {
      var maxCol := Max(0, TruncDiv(areaWidth, squareSize));
      var maxRow := Max(0, TruncDiv(areaHeight, squareSize));

      if maxCol <= 0 || maxRow <= 0 {
        food := None;
        return;
      }

      var attempt := 0;
      while attempt < 100
        invariant 0 <= attempt <= 100
      {
        var col :| 0 <= col < maxCol;
        var row :| 0 <= row < maxRow;
        var candidate := Cell(col * squareSize, row * squareSize);

        var onSnake := IsPositionOnSnake(candidate);
        if onSnake {
          attempt := attempt + 1;
          continue;
        }

        MulModZero(col, squareSize);
        MulModZero(row, squareSize);
        MulMono(0, col, squareSize);
        MulMono(0, row, squareSize);
        MulStrictMono(col, maxCol, squareSize);
        MulStrictMono(row, maxRow, squareSize);
        food := Some(candidate);
        return;
      }

      food := None;
    }

    /** Whether a segment occupies cell `c`. */
    method IsPositionOnSnake(c: Cell) returns (found: bool)
      ensures found <==> c in snake
    {
      var i := 0;
      while i < |snake|
        invariant 0 <= i <= |snake|
        invariant c !in snake[..i]
      {
        if snake[i] == c {
          return true;
        }
        i := i + 1;
      }
      return false;
    }
  }
}
