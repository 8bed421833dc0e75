/** The snake game as the page runs it: one object holding the module-level
    game variables, updated in place by the game's functions. Every method but
    the PlaceApple helper is proved to perform one SnakeSpec transition and to
    keep the board invariant: InitGame performs InitGame, UpdateDirectionFromKey
    PressKey, Step Step, SetGameOver SetGameOver and GameLoop Tick. PlaceApple
    is proved to put the apple on the first free draw. */
module SnakeGame {
  import opened SnakeSpec

  class Game {
    /** Grid size in cells (canvas size divided by the 24-pixel cell). */
    const cols: nat
    const rows: nat

    var snake: seq<Point>
    var apple: Point
    var dir: Point
    var nextDir: Point
    var pendingGrowth: int
    var score: int
    var lastStepAt: int
    var running: bool
    var gameOver: bool

    /** The fields as one value. */
    function State(): GameState
      reads this
    {
      GameState(cols, rows, snake, apple, dir, nextDir, pendingGrowth, score, lastStepAt, running, gameOver)
    }

    ghost predicate Valid()
      reads this
    {
      Inv(State())
    }

    /** The variables as the script declares them, before any game is started. */
    constructor (cols: nat, rows: nat)
      requires BoardFitsStart(cols, rows)
      ensures Valid() && State() == Loaded(cols, rows)
    {
      this.cols, this.rows := cols, rows;
      snake := [];
      apple := Point(0, 0);
      dir := Point(1, 0);
      nextDir := Point(1, 0);
      pendingGrowth := 0;
      score := 0;
      lastStepAt := 0;
      running := false;
      gameOver := false;
    }

    /** Retries random cells until one is off the body. `draws` is the stream
        of cells the random generator yields. */
    method PlaceApple(draws: seq<Point>)
      requires HasFreeDraw(draws, snake)
      modifies this`apple
      ensures apple == PlacedApple(draws, snake)
      ensures apple !in snake && (AllInGrid(draws, cols, rows) ==> InGrid(apple, cols, rows))
    {
      var i := 0;
      while i < |draws| && draws[i] in snake
        invariant 0 <= i <= FreeIndex(draws, snake)
      {
        i := i + 1;
      }
      apple := draws[i];
      if AllInGrid(draws, cols, rows) {
        PlacedAppleInGrid(draws, snake, cols, rows);
      }
    }

    method InitGame(draws: seq<Point>)
      requires Valid() && InitDefined(State(), draws) && AllInGrid(draws, cols, rows)
      modifies this
      ensures Valid() && State() == SnakeSpec.InitGame(old(State()), draws)
      ensures snake == [Point(cols / 2, rows / 2), Point(cols / 2 - 1, rows / 2), Point(cols / 2 - 2, rows / 2)]
      ensures dir == Right && nextDir == Right && pendingGrowth == 0 && score == 0 && lastStepAt == 0
      ensures running && !gameOver && apple !in snake && InGrid(apple, cols, rows)
    {
      ghost var s := State();
      InitEstablishesInv(s, draws);
      snake := [Point(cols / 2, rows / 2), Point(cols / 2 - 1, rows / 2), Point(cols / 2 - 2, rows / 2)];
      assert snake == StartBody(cols, rows);
      dir := Point(1, 0);
      nextDir := Point(1, 0);
      pendingGrowth := 0;
      score := 0;
      PlaceApple(draws);
      gameOver := false;
      running := true;
      lastStepAt := 0;
      assert State() == SnakeSpec.InitGame(s, draws);
    }

    method UpdateDirectionFromKey(code: string)
      requires Valid()
      modifies this`nextDir
      ensures Valid() && State() == PressKey(old(State()), code)
    {
      PressKeyPreservesInv(State(), code);
      if code == "ArrowUp" || code == "KeyW" {
        nextDir := Point(0, -1);
      } else if code == "ArrowDown" || code == "KeyS" {
        nextDir := Point(0, 1);
      } else if code == "ArrowLeft" || code == "KeyA" {
        nextDir := Point(-1, 0);
      } else if code == "ArrowRight" || code == "KeyD" {
        nextDir := Point(1, 0);
      }
    }

    method SetGameOver()
      requires Valid() && running && !gameOver
      modifies this`gameOver, this`running
      ensures Valid() && gameOver && !running
      ensures State() == SnakeSpec.SetGameOver(old(State()))
    {
      gameOver := true;
      running := false;
    }

    method Step(draws: seq<Point>)
      requires Valid() && StepDefined(State(), draws) && AllInGrid(draws, cols, rows)
      modifies this
      ensures Valid() && State() == SnakeSpec.Step(old(State()), draws)
    {
      StepPreservesInv(State(), draws);
      ghost var s := State();
      if !running || gameOver {
        return;
      }
      ghost var d := ResolveDirection(dir, nextDir);
      // the requested direction wins unless it reverses the current one
      if nextDir.x != -dir.x || nextDir.y != -dir.y {
        dir := nextDir;
      }
      assert dir == d;
      ResolvedIsNotReverse(s.dir, s.nextDir);
      var head := snake[0];
      var newHead := Point(head.x + dir.x, head.y + dir.y);
      assert newHead == Add(s.snake[0], d);
      // wall
      if newHead.x < 0 || newHead.x >= cols || newHead.y < 0 || newHead.y >= rows {
        assert Collides(s, newHead);
        SetGameOver();
        assert State() == SnakeSpec.SetGameOver(s.(dir := d));
        return;
      }
      // any segment but the head, the tail included
      if HitsBody(snake, newHead) {
        assert Collides(s, newHead);
        SetGameOver();
        assert State() == SnakeSpec.SetGameOver(s.(dir := d));
        return;
      }
      assert !Collides(s, newHead);
      ghost var moved := Advance(snake, newHead, pendingGrowth);
      snake := [newHead] + snake;
      if pendingGrowth > 0 {
        pendingGrowth := pendingGrowth - 1;
      } else {
        snake := snake[..|snake| - 1];
      }
      assert snake == moved;
      ghost var growth := if s.pendingGrowth > 0 then s.pendingGrowth - 1 else s.pendingGrowth;
      assert pendingGrowth == growth;
      if newHead.x == apple.x && newHead.y == apple.y {
        pendingGrowth := pendingGrowth + 1;
        score := score + 10;
        PlaceApple(draws);
        assert State() == s.(snake := moved, dir := d, pendingGrowth := growth + 1,
                             score := s.score + AppleReward, apple := PlacedApple(draws, moved));
      } else {
        assert State() == s.(snake := moved, dir := d, pendingGrowth := growth);
      }
    }

    /** One render-loop callback without the drawing: the fixed-timestep gate. */
    method GameLoop(timestamp: int, draws: seq<Point>)
      requires Valid() && TickDefined(State(), timestamp, draws) && AllInGrid(draws, cols, rows)
      modifies this
      ensures Valid() && State() == Tick(old(State()), timestamp, draws)
    {
      TickPreservesInv(State(), timestamp, draws);
      if running && !gameOver {
        if lastStepAt == 0 {
          lastStepAt := timestamp;
        }
        var elapsed := timestamp - lastStepAt;
        if elapsed >= StepMs {
          Step(draws);
          lastStepAt := timestamp;
        }
      }
    }
  }
}
