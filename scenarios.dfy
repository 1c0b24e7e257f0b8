/** The engine's unit-test scenarios, stated for every food cell the random
    placement could have picked. */
module Scenarios {
  import opened Models
  import opened Rules

  /** The game right after `Initialize(width, height, squareSize, n)` with
      food at `food`. */
  function Started(n: int, cfg: Config, food: Option<Cell>): Game
    requires cfg.squareSize > 0
  {
    Game(InitialBody(n, cfg), Right, Playing, 0, food)
  }

  /** A 100 x 100 board with 20-pixel cells and four segments: the head is
      three cells right of the origin, on the middle row. */
  lemma HeadStartsRightmost()
    ensures InitialBody(4, Config(100, 100, 20)) == [Cell(0, 40), Cell(20, 40), Cell(40, 40), Cell(60, 40)]
    ensures Head(InitialBody(4, Config(100, 100, 20))) == Cell(60, 40)
  {
    assert StartY(Config(100, 100, 20)) == 40;
  }

  /** On a 200 x 100 board with three segments, the first move goes right
      whether `Right` or the reversal `Left` is requested. */
  lemma FirstMoveGoesRight(req: Direction, food: Option<Cell>, respawn: Option<Cell>)
    requires req == Right || req == Left
    ensures var cfg := Config(200, 100, 20);
      var r := Tick(Started(3, cfg, food), req, cfg, respawn);
      r.state == Playing && r.direction == Right && Head(r.snake) == Cell(60, 40)
  {
    var cfg := Config(200, 100, 20);
    var g := Started(3, cfg, food);
    assert StartY(cfg) == 40;
    assert g.snake == [Cell(0, 40), Cell(20, 40), Cell(40, 40)];
    assert NextHead(g, req, cfg) == Cell(60, 40);
    TickCases(g, req, cfg, respawn);
  }

  /** Up then Left from the same start: the head goes from (40, 40) to
      (40, 20) and then to (20, 20). */
  lemma UpThenLeft(food: Option<Cell>, respawn1: Option<Cell>, respawn2: Option<Cell>)
    ensures var cfg := Config(200, 100, 20);
      var g1 := Tick(Started(3, cfg, food), Up, cfg, respawn1);
      var g2 := Tick(g1, Left, cfg, respawn2);
      && Head(g1.snake) == Cell(40, 20) && g1.state == Playing
      && Head(g2.snake) == Cell(20, 20) && g2.state == Playing && g2.direction == Left
  {
    var cfg := Config(200, 100, 20);
    var g := Started(3, cfg, food);
    assert StartY(cfg) == 40;
    assert g.snake == [Cell(0, 40), Cell(20, 40), Cell(40, 40)];
    assert NextHead(g, Up, cfg) == Cell(40, 20);
    TickCases(g, Up, cfg, respawn1);
    var g1 := Tick(g, Up, cfg, respawn1);
    assert g1.snake == [Cell(20, 40), Cell(40, 40), Cell(40, 20)]
        || g1.snake == [Cell(0, 40), Cell(20, 40), Cell(40, 40), Cell(40, 20)];
    assert NextHead(g1, Left, cfg) == Cell(20, 20);
    TickCases(g1, Left, cfg, respawn2);
  }

  /** A 60 x 60 board with three segments: the head starts at (40, 20) and
      moving right hits the wall. */
  lemma RightIntoWall(food: Option<Cell>, respawn: Option<Cell>)
    ensures var cfg := Config(60, 60, 20);
      Tick(Started(3, cfg, food), Right, cfg, respawn).state == GameOver
  {
    var cfg := Config(60, 60, 20);
    var g := Started(3, cfg, food);
    assert StartY(cfg) == 20;
    assert Head(g.snake) == Cell(40, 20);
    assert NextHead(g, Right, cfg) == Cell(60, 20);
    TickCases(g, Right, cfg, respawn);
  }

  /** A 60 x 40 board with two segments, moves Up then Down. The game ends,
      but by the wall: Down reverses Up and is dropped, so the head leaves the
      board at (20, -20) instead of re-entering its own previous cell. */
  lemma UpThenDownEndsAtWall(food: Option<Cell>, respawn1: Option<Cell>, respawn2: Option<Cell>)
    ensures var cfg := Config(60, 40, 20);
      var g1 := Tick(Started(2, cfg, food), Up, cfg, respawn1);
      && g1.state == Playing
      && NextHead(g1, Down, cfg) == Cell(20, -20)
      && !InBoard(NextHead(g1, Down, cfg), cfg)
      && Tick(g1, Down, cfg, respawn2).state == GameOver
  {
    var cfg := Config(60, 40, 20);
    var g := Started(2, cfg, food);
    assert StartY(cfg) == 20;
    assert g.snake == [Cell(0, 20), Cell(20, 20)];
    assert NextHead(g, Up, cfg) == Cell(20, 0);
    TickCases(g, Up, cfg, respawn1);
    var g1 := Tick(g, Up, cfg, respawn1);
    assert Head(g1.snake) == Cell(20, 0) && g1.direction == Up;
    TickCases(g1, Down, cfg, respawn2);
  }

  /** After the wall ends the game, further moves change nothing. */
  lemma MovesAfterGameOver(food: Option<Cell>, respawns: seq<Option<Cell>>)
    requires |respawns| == 3
    ensures var cfg := Config(60, 60, 20);
      var over := Run(Started(3, cfg, food), [Right], cfg, respawns[..1]);
      && over.state == GameOver
      && Run(over, [Left, Up], cfg, respawns[1..]) == over
  {
    var cfg := Config(60, 60, 20);
    RightIntoWall(food, respawns[0]);
    var over := Run(Started(3, cfg, food), [Right], cfg, respawns[..1]);
    assert over == Tick(Started(3, cfg, food), Right, cfg, respawns[0]);
    RunFrozen(over, [Left, Up], cfg, respawns[1..]);
  }

  /** The body check scans the tail too. A well-formed snake bent into a
      square, head at (20, 0) heading up, turns left onto the tail's cell:
      the game ends although the tail would have moved out of that cell in
      the same tick. */
  lemma TailChaseEndsGame()
    ensures var cfg := Config(100, 100, 20);
      var g := Game([Cell(0, 0), Cell(0, 20), Cell(20, 20), Cell(20, 0)], Up, Playing, 0, None);
      && WellFormed(g, cfg)
      && NextHead(g, Left, cfg) == g.snake[0]
      && Tick(g, Left, cfg, None).state == GameOver
  {
    var cfg := Config(100, 100, 20);
    var s := [Cell(0, 0), Cell(0, 20), Cell(20, 20), Cell(20, 0)];
    var g := Game(s, Up, Playing, 0, None);
    assert Distinct(s) by {
      forall i, j | 0 <= i < j < 4 ensures s[i] != s[j] {
      }
    }
    assert AllAligned(s, 20) by {
      forall i | 0 <= i < 4 ensures Aligned(s[i], 20) {
      }
    }
    assert NextHead(g, Left, cfg) == Cell(0, 0);
    assert HitsBody(s, Cell(0, 0)) by {
      assert s[0] == Cell(0, 0);
    }
    TickCases(g, Left, cfg, None);
  }
}
