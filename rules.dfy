/** The rules of the snake engine as functions on values: the board
    configuration, direction filtering, the candidate head, the collision and
    food checks, one tick of the game, and the invariant every tick keeps.
    The class `Engine.GameEngine` is proved against these definitions. */
module Rules {
  import opened Models

  /** Board size and grid step in pixels, as recorded by `Initialize`. */
  datatype Config = Config(width: int, height: int, squareSize: int)

  /** The game state that `Move` reads and writes. The snake is listed tail
      first, head last. */
  datatype Game = Game(snake: seq<Cell>, direction: Direction, state: GameState,
                       score: int, food: Option<Cell>)

  // ---------------------------------------------------------------------
  // Arithmetic of the source
  // ---------------------------------------------------------------------

  /** Integer division that truncates toward zero, as a cast of a quotient
      to `int` and as `/` on `int` both do in the source language. */
  function TruncDiv(a: int, b: int): int
    requires b > 0
  {
    if a >= 0 then a / b else -((-a) / b)
  }

  function Max(a: int, b: int): int
  {
    if a < b then b else a
  }

  /** Euclidean division is unique: a quotient and a remainder in range are
      the ones `/` and `%` return. */
  lemma DivModUnique(a: int, sq: int, q: int, r: int)
    requires sq > 0 && 0 <= r < sq && a == q * sq + r
    ensures a / sq == q && a % sq == r
  {
    var q', r' := a / sq, a % sq;
    assert (q - q') * sq == r' - r;
    if q - q' >= 1 {
      MulMono(1, q - q', sq);
    } else if q - q' <= -1 {
      MulMono(q - q', -1, sq);
    }
  }

  lemma MulModZero(k: int, sq: int)
    requires sq > 0
    ensures (k * sq) % sq == 0
  {
    DivModUnique(k * sq, sq, k, 0);
  }

  lemma ModShift(x: int, sq: int)
    requires sq > 0
    ensures (x + sq) % sq == x % sq
    ensures (x - sq) % sq == x % sq
  {
    var q, r := x / sq, x % sq;
    DivModUnique(x + sq, sq, q + 1, r);
    DivModUnique(x - sq, sq, q - 1, r);
  }

  lemma MulStrictMono(a: int, b: int, sq: int)
    requires a < b && sq > 0
    ensures a * sq < b * sq
  {
  }

  lemma MulMono(a: int, b: int, sq: int)
    requires a <= b && sq > 0
    ensures a * sq <= b * sq
  {
  }

  // ---------------------------------------------------------------------
  // Board and grid
  // ---------------------------------------------------------------------

  /** Number of whole grid columns and rows on the board; never negative. */
  function MaxCol(cfg: Config): int
    requires cfg.squareSize > 0
  {
    Max(0, TruncDiv(cfg.width, cfg.squareSize))
  }

  function MaxRow(cfg: Config): int
    requires cfg.squareSize > 0
  {
    Max(0, TruncDiv(cfg.height, cfg.squareSize))
  }

  /** `MaxCol` and `MaxRow` count the whole cells that fit across and down a
      board; a negative extent holds none. */
  lemma GridSize(cfg: Config)
    requires cfg.squareSize > 0
    ensures MaxCol(cfg) >= 0 && MaxRow(cfg) >= 0
    ensures MaxCol(cfg) * cfg.squareSize <= Max(0, cfg.width) < (MaxCol(cfg) + 1) * cfg.squareSize
    ensures MaxRow(cfg) * cfg.squareSize <= Max(0, cfg.height) < (MaxRow(cfg) + 1) * cfg.squareSize
  {
  }

  /** Inside `[0, width) x [0, height)`: the negation of the wall test. */
  predicate InBoard(c: Cell, cfg: Config)
  {
    0 <= c.x < cfg.width && 0 <= c.y < cfg.height
  }

  predicate Aligned(c: Cell, sq: int)
    requires sq > 0
  {
    c.x % sq == 0 && c.y % sq == 0
  }

  /** `b` is one grid step away from `a` along exactly one axis. */
  predicate Adjacent(a: Cell, b: Cell, sq: int)
  {
    || (a.y == b.y && (b.x == a.x + sq || b.x == a.x - sq))
    || (a.x == b.x && (b.y == a.y + sq || b.y == a.y - sq))
  }

  // ---------------------------------------------------------------------
  // Direction and head movement
  // ---------------------------------------------------------------------

  /** The engine's test for a U-turn request, written as the four cases it
      lists. */
  predicate IsReversal(current: Direction, requested: Direction): (b: bool)
    ensures b <==> requested == Opposite(current)
  {
    || (current == Right && requested == Left)
    || (current == Left && requested == Right)
    || (current == Up && requested == Down)
    || (current == Down && requested == Up)
  }

  /** The direction the snake takes: a request for the opposite direction is
      dropped, any other request (the current direction included) is taken. */
  function Accept(current: Direction, requested: Direction): (d: Direction)
    ensures requested == Opposite(current) ==> d == current
    ensures requested != Opposite(current) ==> d == requested
    ensures d != Opposite(current)
  {
    if IsReversal(current, requested) then current else requested
  }

  /** The cell one grid step from `head` in direction `d`. */
  function Step(head: Cell, d: Direction, sq: int): (c: Cell)
    ensures Adjacent(head, c, sq)
    ensures (d == Left || d == Right) ==> c.y == head.y
    ensures (d == Up || d == Down) ==> c.x == head.x
    ensures sq > 0 ==> c != head
    ensures sq > 0 ==> (c.x > head.x <==> d == Right) && (c.x < head.x <==> d == Left)
    ensures sq > 0 ==> (c.y > head.y <==> d == Down) && (c.y < head.y <==> d == Up)
  {
    var dx := match d case Right => sq case Left => -sq case _ => 0;
    var dy := match d case Down => sq case Up => -sq case _ => 0;
    Cell(head.x + dx, head.y + dy)
  }

  lemma StepBack(head: Cell, d: Direction, sq: int)
    ensures Step(Step(head, d, sq), Opposite(d), sq) == head
  {
  }

  // ---------------------------------------------------------------------
  // Snake geometry
  // ---------------------------------------------------------------------

  function Head(snake: seq<Cell>): Cell
    requires |snake| > 0
  {
    snake[|snake| - 1]
  }

  /** The self-collision test: `c` equals a segment at index `0 .. |snake|-2`.
      The tail is scanned too; only the current head is skipped. */
  predicate HitsBody(snake: seq<Cell>, c: Cell): (b: bool)
    ensures b <==> |snake| > 0 && c in snake[..|snake| - 1]
  {
    exists i :: 0 <= i < |snake| - 1 && snake[i] == c
  }

  /** The body shift: every segment takes its successor's cell and the head
      moves to `c`. */
  function Advance(snake: seq<Cell>, c: Cell): (r: seq<Cell>)
    requires |snake| > 0
    ensures |r| == |snake| && Head(r) == c
    ensures forall i :: 0 <= i < |snake| - 1 ==> r[i] == snake[i + 1]
  {
    snake[1..] + [c]
  }

  /** The y coordinate of the middle grid row, rounded as the source does. */
  function StartY(cfg: Config): int
    requires cfg.squareSize > 0
  {
    TruncDiv(TruncDiv(cfg.height, cfg.squareSize), 2) * cfg.squareSize
  }

  /** The starting snake: `n` segments on the middle row, segment `i` at
      column `i`, so the head is the right-most. */
  function InitialBody(n: int, cfg: Config): seq<Cell>
    requires cfg.squareSize > 0
  {
    if n <= 0 then [] else seq(n, i => Cell(i * cfg.squareSize, StartY(cfg)))
  }

  ghost predicate Distinct(s: seq<Cell>)
  {
    forall i, j :: 0 <= i < j < |s| ==> s[i] != s[j]
  }

  ghost predicate Chain(s: seq<Cell>, sq: int)
  {
    forall i :: 0 <= i < |s| - 1 ==> Adjacent(s[i], s[i + 1], sq)
  }

  ghost predicate AllAligned(s: seq<Cell>, sq: int)
    requires sq > 0
  {
    forall i :: 0 <= i < |s| ==> Aligned(s[i], sq)
  }

  ghost predicate AllInBoard(s: seq<Cell>, cfg: Config)
  {
    forall i :: 0 <= i < |s| ==> InBoard(s[i], cfg)
  }

  // ---------------------------------------------------------------------
  // Food
  // ---------------------------------------------------------------------

  /** What food placement guarantees: either no food, or a grid-aligned cell
      of the grid `[0, MaxCol*sq) x [0, MaxRow*sq)` that no segment occupies. */
  predicate FoodOk(food: Option<Cell>, snake: seq<Cell>, cfg: Config)
    requires cfg.squareSize > 0
  {
    match food
    case None => true
    case Some(c) =>
      && Aligned(c, cfg.squareSize)
      && 0 <= c.x < MaxCol(cfg) * cfg.squareSize
      && 0 <= c.y < MaxRow(cfg) * cfg.squareSize
      && c !in snake
  }

  /** Placed food lies on the board, and a board without a whole column or
      row never holds food. */
  lemma FoodOnBoard(food: Option<Cell>, snake: seq<Cell>, cfg: Config)
    requires cfg.squareSize > 0 && FoodOk(food, snake, cfg)
    ensures food.Some? ==> InBoard(food.value, cfg)
    ensures MaxCol(cfg) == 0 || MaxRow(cfg) == 0 ==> food == None
  {
    if food.Some? {
      var sq := cfg.squareSize;
      assert MaxCol(cfg) > 0 && MaxRow(cfg) > 0;
      assert MaxCol(cfg) * sq <= cfg.width;
      assert MaxRow(cfg) * sq <= cfg.height;
    }
  }

  // ---------------------------------------------------------------------
  // One tick
  // ---------------------------------------------------------------------

  /** `Move` does nothing in these phases. */
  predicate Frozen(g: Game)
  {
    g.state == GameOver || g.state == Paused
  }

  /** The candidate head: one step from the head in the accepted direction. */
  function NextHead(g: Game, req: Direction, cfg: Config): Cell
    requires |g.snake| > 0
  {
    Step(Head(g.snake), Accept(g.direction, req), cfg.squareSize)
  }

  /** The tick ends on the food: no wall, no body, and the candidate head is
      the food cell. */
  predicate Eats(g: Game, req: Direction, cfg: Config)
  {
    && !Frozen(g)
    && |g.snake| > 0
    && InBoard(NextHead(g, req, cfg), cfg)
    && !HitsBody(g.snake, NextHead(g, req, cfg))
    && g.food == Some(NextHead(g, req, cfg))
  }

  /** One call of `Move(req)`. `respawn` is the cell food placement picked
      when the snake eats; it is ignored otherwise. Over or paused, nothing
      changes; otherwise the tick can only end the game, and the snake grows
      by exactly the point it scores, if any. */
  function Tick(g: Game, req: Direction, cfg: Config, respawn: Option<Cell>): (r: Game)
    requires Frozen(g) || |g.snake| > 0
    ensures Frozen(g) ==> r == g
    ensures r.state == g.state || r.state == GameOver
    ensures r.score == g.score || r.score == g.score + 1
    ensures |r.snake| - |g.snake| == r.score - g.score
  {
    if Frozen(g) then g
    else
      var d := Accept(g.direction, req);
      var nh := Step(Head(g.snake), d, cfg.squareSize);
      if !InBoard(nh, cfg) then g.(direction := d, state := GameOver)
      else if HitsBody(g.snake, nh) then g.(direction := d, state := GameOver)
      else if g.food == Some(nh) then
        g.(direction := d, snake := g.snake + [nh], score := g.score + 1, food := respawn)
      else g.(direction := d, snake := Advance(g.snake, nh))
  }

  /** The outcome of a tick, case by case: the accepted direction is taken
      even when the game ends; the wall and the body end the game and leave
      snake, score and food as they were; eating appends the candidate head,
      scores a point and takes the new food; otherwise every segment moves to
      its successor's cell and the head to the candidate. */
  lemma TickCases(g: Game, req: Direction, cfg: Config, respawn: Option<Cell>)
    requires !Frozen(g) && |g.snake| > 0
    ensures var r, nh := Tick(g, req, cfg, respawn), NextHead(g, req, cfg);
      && r.direction == Accept(g.direction, req)
      && (r.state == GameOver <==> !InBoard(nh, cfg) || HitsBody(g.snake, nh))
      && (r.state == GameOver ==> r.snake == g.snake && r.score == g.score && r.food == g.food)
      && (Eats(g, req, cfg) ==>
            && r.state == g.state
            && r.score == g.score + 1
            && |r.snake| == |g.snake| + 1
            && r.snake[..|g.snake|] == g.snake
            && Head(r.snake) == nh
            && r.food == respawn)
      && (r.state != GameOver && !Eats(g, req, cfg) ==>
            && r.state == g.state
            && r.score == g.score
            && r.food == g.food
            && |r.snake| == |g.snake|
            && (forall i :: 0 <= i < |g.snake| - 1 ==> r.snake[i] == g.snake[i + 1])
            && Head(r.snake) == nh)
  {
  }

  // ---------------------------------------------------------------------
  // The invariant
  // ---------------------------------------------------------------------

  /** The state of a game in progress: a non-empty snake of distinct,
      grid-aligned cells on the board, each one step from the next, food
      (if any) on a free grid cell, and a non-negative score. */
  ghost predicate WellFormed(g: Game, cfg: Config)
  {
    && cfg.squareSize > 0
    && |g.snake| > 0
    && Distinct(g.snake)
    && Chain(g.snake, cfg.squareSize)
    && AllAligned(g.snake, cfg.squareSize)
    && AllInBoard(g.snake, cfg)
    && FoodOk(g.food, g.snake, cfg)
    && g.score >= 0
  }

  /** What food placement must deliver for the tick to keep the invariant. */
  ghost predicate RespawnOk(g: Game, req: Direction, cfg: Config, respawn: Option<Cell>)
    requires cfg.squareSize > 0
  {
    Eats(g, req, cfg) ==> FoodOk(respawn, g.snake + [NextHead(g, req, cfg)], cfg)
  }

  /** The candidate head of a live snake is a free cell unless the tick ends
      the game: it is never the current head, and it is none of the other
      segments when the body check passes. */
  lemma FreshHead(g: Game, req: Direction, cfg: Config)
    requires WellFormed(g, cfg) && !HitsBody(g.snake, NextHead(g, req, cfg))
    ensures NextHead(g, req, cfg) !in g.snake
    ensures Adjacent(Head(g.snake), NextHead(g, req, cfg), cfg.squareSize)
    ensures Aligned(NextHead(g, req, cfg), cfg.squareSize)
  {
    var s, nh, sq := g.snake, NextHead(g, req, cfg), cfg.squareSize;
    assert nh != Head(s);
    var h := Head(s);
    assert Aligned(h, sq);
    ModShift(h.x, sq);
    ModShift(h.y, sq);
  }

  /** The body shift keeps the segments pairwise distinct when the new head
      is on none of the old segments. */
  lemma AdvanceKeepsDistinct(s: seq<Cell>, c: Cell)
    requires |s| > 0 && Distinct(s) && c !in s
    ensures Distinct(Advance(s, c))
  {
    var t := Advance(s, c);
    forall i, j | 0 <= i < j < |t| ensures t[i] != t[j] {
      assert t[i] == s[i + 1];
      if j < |t| - 1 {
        assert t[j] == s[j + 1];
      }
    }
  }

  /** The body shift keeps each segment one step from the next when the new
      head is one step from the old head. */
  lemma AdvanceKeepsChain(s: seq<Cell>, c: Cell, sq: int)
    requires |s| > 0 && Chain(s, sq) && Adjacent(Head(s), c, sq)
    ensures Chain(Advance(s, c), sq)
  {
    var t := Advance(s, c);
    forall i | 0 <= i < |t| - 1 ensures Adjacent(t[i], t[i + 1], sq) {
      assert t[i] == s[i + 1];
    }
  }

  /** A cell that no segment occupies and that is not the new head is still
      free after the body shift. */
  lemma AdvanceKeepsFree(s: seq<Cell>, c: Cell, f: Cell)
    requires |s| > 0 && f !in s && f != c
    ensures f !in Advance(s, c)
  {
    var t := Advance(s, c);
    forall i | 0 <= i < |t| ensures t[i] != f {
      if i < |t| - 1 {
        assert t[i] == s[i + 1];
      }
    }
  }

  lemma {:induction false} TickKeepsWellFormed(g: Game, req: Direction, cfg: Config, respawn: Option<Cell>)
    requires WellFormed(g, cfg)
    requires RespawnOk(g, req, cfg, respawn)
    ensures WellFormed(Tick(g, req, cfg, respawn), cfg)
  {
    var r := Tick(g, req, cfg, respawn);
    if Frozen(g) || r.state == GameOver {
      return;
    }
    var s, nh, sq := g.snake, NextHead(g, req, cfg), cfg.squareSize;
    FreshHead(g, req, cfg);
    if Eats(g, req, cfg) {
      assert r.snake == s + [nh];
    } else {
      assert r.snake == Advance(s, nh);
      AdvanceKeepsDistinct(s, nh);
      AdvanceKeepsChain(s, nh, sq);
      if g.food.Some? {
        AdvanceKeepsFree(s, nh, g.food.value);
      }
    }
  }

  /** A live tick whose candidate head is off the board or on the body ends
      the game: only the direction and the phase change, so the invariant
      carries over. */
  lemma TickEnds(g: Game, req: Direction, cfg: Config, respawn: Option<Cell>)
    requires !Frozen(g) && |g.snake| > 0
    requires !InBoard(NextHead(g, req, cfg), cfg) || HitsBody(g.snake, NextHead(g, req, cfg))
    ensures Tick(g, req, cfg, respawn) == g.(direction := Accept(g.direction, req), state := GameOver)
    ensures WellFormed(g, cfg) ==> WellFormed(Tick(g, req, cfg, respawn), cfg)
  {
  }

  /** A tick that eats appends the candidate head, scores a point and takes
      the new food; the invariant carries over when the new food is a free
      cell of the grown snake. */
  lemma TickEats(g: Game, req: Direction, cfg: Config, respawn: Option<Cell>)
    requires Eats(g, req, cfg)
    ensures Tick(g, req, cfg, respawn)
      == g.(direction := Accept(g.direction, req), snake := g.snake + [NextHead(g, req, cfg)],
            score := g.score + 1, food := respawn)
    ensures WellFormed(g, cfg) && FoodOk(respawn, g.snake + [NextHead(g, req, cfg)], cfg) ==>
              WellFormed(Tick(g, req, cfg, respawn), cfg)
  {
    if WellFormed(g, cfg) && FoodOk(respawn, g.snake + [NextHead(g, req, cfg)], cfg) {
      TickKeepsWellFormed(g, req, cfg, respawn);
    }
  }

  /** A tick that neither ends the game nor eats shifts the body one cell
      towards the candidate head and keeps the invariant. */
  lemma TickAdvances(g: Game, req: Direction, cfg: Config, respawn: Option<Cell>)
    requires !Frozen(g) && |g.snake| > 0
    requires InBoard(NextHead(g, req, cfg), cfg) && !HitsBody(g.snake, NextHead(g, req, cfg))
    requires g.food != Some(NextHead(g, req, cfg))
    ensures Tick(g, req, cfg, respawn) == g.(direction := Accept(g.direction, req), snake := Advance(g.snake, NextHead(g, req, cfg)))
    ensures WellFormed(g, cfg) ==> WellFormed(Tick(g, req, cfg, respawn), cfg)
  {
    if WellFormed(g, cfg) {
      TickKeepsWellFormed(g, req, cfg, respawn);
    }
  }

  /** The middle row lies on a board of positive height and on the grid. */
  lemma StartYOnBoard(cfg: Config)
    requires cfg.squareSize > 0 && cfg.height > 0
    ensures 0 <= StartY(cfg) < cfg.height
    ensures StartY(cfg) % cfg.squareSize == 0
  {
    var sq := cfg.squareSize;
    var rows := TruncDiv(cfg.height, sq);
    var mid := TruncDiv(rows, 2);
    assert 0 <= rows && 0 <= mid <= rows;
    assert rows * sq <= cfg.height;
    if rows > 0 {
      MulMono(mid, rows - 1, sq);
    }
    MulMono(0, mid, sq);
    MulModZero(mid, sq);
  }

  lemma InitialBodyAt(n: int, cfg: Config, i: int)
    requires cfg.squareSize > 0 && 0 <= i < n
    ensures |InitialBody(n, cfg)| == n
    ensures InitialBody(n, cfg)[i] == Cell(i * cfg.squareSize, StartY(cfg))
  {
  }

  /** A freshly initialised game satisfies the invariant when the snake fits
      on the board: positive height, and the head column inside the width. */
  lemma InitialWellFormed(n: int, cfg: Config, food: Option<Cell>)
    requires cfg.squareSize > 0 && n >= 1
    requires (n - 1) * cfg.squareSize < cfg.width && cfg.height > 0
    requires FoodOk(food, InitialBody(n, cfg), cfg)
    ensures WellFormed(Game(InitialBody(n, cfg), Right, Playing, 0, food), cfg)
  {
    var s, sq, y := InitialBody(n, cfg), cfg.squareSize, StartY(cfg);
    StartYOnBoard(cfg);
    InitialBodyAt(n, cfg, 0);
    forall i, j | 0 <= i < j < |s| ensures s[i] != s[j] {
      InitialBodyAt(n, cfg, i);
      InitialBodyAt(n, cfg, j);
      MulStrictMono(i, j, sq);
    }
    forall i | 0 <= i < |s| ensures Aligned(s[i], sq) && InBoard(s[i], cfg) {
      InitialBodyAt(n, cfg, i);
      MulModZero(i, sq);
      MulMono(0, i, sq);
      MulMono(i, n - 1, sq);
    }
    forall i | 0 <= i < |s| - 1 ensures Adjacent(s[i], s[i + 1], sq) {
      InitialBodyAt(n, cfg, i);
      InitialBodyAt(n, cfg, i + 1);
      assert (i + 1) * sq == i * sq + sq;
    }
  }

  // ---------------------------------------------------------------------
  // Runs of several ticks
  // ---------------------------------------------------------------------

  /** Successive calls of `Move`, one per request, with the food cell picked
      at each tick. */
  function Run(g: Game, reqs: seq<Direction>, cfg: Config, respawns: seq<Option<Cell>>): (r: Game)
    requires Frozen(g) || |g.snake| > 0
    requires |respawns| == |reqs|
    ensures Frozen(r) || |r.snake| > 0
    decreases |reqs|
  {
    if reqs == [] then g
    else Run(Tick(g, reqs[0], cfg, respawns[0]), reqs[1..], cfg, respawns[1..])
  }

  /** Once over or paused, any number of `Move` calls changes nothing. */
  lemma {:induction false} RunFrozen(g: Game, reqs: seq<Direction>, cfg: Config, respawns: seq<Option<Cell>>)
    requires Frozen(g) && |respawns| == |reqs|
    ensures Run(g, reqs, cfg, respawns) == g
    decreases |reqs|
  {
    if reqs != [] {
      RunFrozen(g, reqs[1..], cfg, respawns[1..]);
    }
  }

  /** Food placement delivered a valid cell at every tick of the run that
      ate. */
  ghost predicate RespawnsOk(g: Game, reqs: seq<Direction>, cfg: Config, respawns: seq<Option<Cell>>)
    requires WellFormed(g, cfg) && |respawns| == |reqs|
    decreases |reqs|
  {
    reqs != [] ==>
      && RespawnOk(g, reqs[0], cfg, respawns[0])
      && (TickKeepsWellFormed(g, reqs[0], cfg, respawns[0]);
          RespawnsOk(Tick(g, reqs[0], cfg, respawns[0]), reqs[1..], cfg, respawns[1..]))
  }

  /** Every state reached by `Move` calls from a well-formed state is well
      formed, and the snake grows by exactly the points scored. */
  lemma {:induction false} RunKeepsWellFormed(g: Game, reqs: seq<Direction>, cfg: Config, respawns: seq<Option<Cell>>)
    requires WellFormed(g, cfg) && |respawns| == |reqs|
    requires RespawnsOk(g, reqs, cfg, respawns)
    ensures WellFormed(Run(g, reqs, cfg, respawns), cfg)
    ensures |Run(g, reqs, cfg, respawns).snake| - |g.snake| == Run(g, reqs, cfg, respawns).score - g.score
    decreases |reqs|
  {
    if reqs != [] {
      var g' := Tick(g, reqs[0], cfg, respawns[0]);
      TickKeepsWellFormed(g, reqs[0], cfg, respawns[0]);
      RunKeepsWellFormed(g', reqs[1..], cfg, respawns[1..]);
    }
  }
}
