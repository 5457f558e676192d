/** The game engine as a state machine over values: the component's six pieces of state
    and one step function per handler (the timer tick, a key press and the start and
    restart actions it dispatches to). */
module Transitions {
  import opened Grid
  import opened Options
  import opened Keys
  import opened Food

  /** Points awarded per piece of food eaten. */
  const ScoreStep: int := 10

  /** Three segments in a vertical line, head first, travelling up. */
  const InitialSnake: seq<Point> := [Point(8, 8), Point(8, 9), Point(8, 10)]
  const InitialDirection: Point := Up

  /** Where the food sits before the first game is started. */
  const MountFood: Point := Point(5, 5)

  datatype GameState = GameState(
    snake: seq<Point>,     // segments, head first
    direction: Point,      // the direction the next tick moves in
    food: Point,
    score: int,
    gameOver: bool,
    gameStarted: bool)

  /** The state the component holds when it is first mounted. */
  const Mount: GameState := GameState(InitialSnake, InitialDirection, MountFood, 0, false, false)

  datatype Phase = NotStarted | Running | Over

  /** The phase as the key handler reads the two flags: game over is tested first. */
  function PhaseOf(s: GameState): Phase {
    if s.gameOver then Over else if !s.gameStarted then NotStarted else Running
  }

  /** The cell the head moves to on the next tick. */
  function NewHead(s: GameState): Point
    requires |s.snake| > 0
  {
    NextHead(s.snake[0], s.direction)
  }

  /** The new head hits the current body, the tail that would move away included. */
  predicate Collides(s: GameState)
    requires |s.snake| > 0
  {
    NewHead(s) in s.snake
  }

  /** The next tick eats the food. */
  predicate Eats(s: GameState)
    requires |s.snake| > 0
  {
    PhaseOf(s) == Running && !Collides(s) && NewHead(s) == s.food
  }

  /** The timer handler `moveSnake`. `foodChoice` is the cell `generateFood` returns; it
      is only consulted when the snake eats. */
  function TickStep(s: GameState, foodChoice: Point): (r: GameState)
    requires |s.snake| > 0
    // a tick never turns the snake and never leaves or enters the started phase
    ensures r.direction == s.direction && r.gameStarted == s.gameStarted
    // it ends the game exactly on a collision while running
    ensures r.gameOver <==> s.gameOver || (PhaseOf(s) == Running && Collides(s))
    // eating grows the snake by one, scores ScoreStep and places the new food
    ensures |r.snake| == |s.snake| + (if Eats(s) then 1 else 0)
    ensures r.score == s.score + (if Eats(s) then ScoreStep else 0)
    ensures r.food == (if Eats(s) then foodChoice else s.food)
    // a move puts the new head in front of the old body, the last cell vacated unless eating
    ensures PhaseOf(s) == Running && !Collides(s) ==>
      r.snake[0] == NewHead(s) && r.snake[1..] == s.snake[..|r.snake| - 1]
    ensures !(PhaseOf(s) == Running && !Collides(s)) ==> r.snake == s.snake
  {
    if s.gameOver || !s.gameStarted then s
    else
      var head := NewHead(s);
      if head in s.snake then s.(gameOver := true)
      else if head == s.food then
        s.(snake := [head] + s.snake, score := s.score + ScoreStep, food := foodChoice)
      else
        s.(snake := [head] + s.snake[..|s.snake| - 1])
  }

  /** What the tick demands of the food cell: `generateFood` closes over the snake as it
      was before the move, so the new food avoids that snake (it may land on the new head). */
  predicate TickFoodOk(s: GameState, foodChoice: Point)
    requires |s.snake| > 0
  {
    Eats(s) ==> FoodOk(s.snake, foodChoice)
  }

  /** `startGame`. Its `generateFood` call still sees the snake of the previous game, which
      is what `foodChoice` must avoid (it may land on the initial snake). */
  function StartStep(s: GameState, foodChoice: Point): (r: GameState)
    ensures PhaseOf(r) == Running
    ensures |r.snake| == 3 && r.snake[0] == Point(8, 8) && r.direction == Up
    ensures r.score == 0 && r.food == foodChoice
  {
    GameState(InitialSnake, InitialDirection, foodChoice, 0, false, true)
  }

  /** `resetGame`: back to the title screen; snake, score and food stay as they were. */
  function ResetStep(s: GameState): (r: GameState)
    ensures PhaseOf(r) == NotStarted
    ensures r.snake == s.snake && r.score == s.score && r.food == s.food && r.direction == s.direction
  {
    s.(gameStarted := false, gameOver := false)
  }

  /** The key handler: Enter or "5" restarts after game over and starts from the title
      screen; while running, a steering key sets the direction unless it asks for a
      U-turn; every other key is ignored. */
  function KeyStep(s: GameState, key: string, foodChoice: Point): (r: GameState)
    // Enter and "5" move to the next phase: over -> title screen -> running; a running
    // game ignores them
    ensures IsStartKey(key) ==> PhaseOf(r) == (if PhaseOf(s) == Over then NotStarted else Running)
    // every other key can change the direction and nothing else
    ensures !IsStartKey(key) ==> r == s.(direction := r.direction)
    // and only while running
    ensures !IsStartKey(key) && PhaseOf(s) != Running ==> r == s
  {
    if s.gameOver then
      (if IsStartKey(key) then ResetStep(s) else s)
    else if !s.gameStarted then
      (if IsStartKey(key) then StartStep(s, foodChoice) else s)
    else
      match KeyToDirection(key)
      case None => s
      case Some(d) => if IsOpposite(d, s.direction) then s else s.(direction := d)
  }

  /** What a key press demands of the food cell: only a start draws food. */
  predicate KeyFoodOk(s: GameState, key: string, foodChoice: Point) {
    PhaseOf(s) == NotStarted && IsStartKey(key) ==> FoodOk(s.snake, foodChoice)
  }

  // ---------------------------------------------------------------------------
  // The tick

  /** Outside the running phase the timer does nothing. */
  lemma TickIdle(s: GameState, foodChoice: Point)
    requires |s.snake| > 0 && PhaseOf(s) != Running
    ensures TickStep(s, foodChoice) == s
  {
  }

  /** Running into the body ends the game and freezes snake, score, food and direction. */
  lemma TickCollision(s: GameState, foodChoice: Point)
    requires |s.snake| > 0 && PhaseOf(s) == Running && Collides(s)
    ensures var r := TickStep(s, foodChoice);
      r.gameOver && PhaseOf(r) == Over &&
      r.snake == s.snake && r.score == s.score && r.food == s.food &&
      r.direction == s.direction && r.gameStarted
  {
  }

  /** Moving onto the current tail cell is a collision, although the tail would have moved
      away on this very tick. */
  lemma TailChaseCollides(s: GameState, foodChoice: Point)
    requires |s.snake| > 0 && PhaseOf(s) == Running && NewHead(s) == s.snake[|s.snake| - 1]
    ensures TickStep(s, foodChoice).gameOver
    ensures TickStep(s, foodChoice).snake == s.snake
  {
  }

  /** An ordinary move: the head advances, the last segment is dropped, and length,
      score and food stay the same. */
  lemma TickMove(s: GameState, foodChoice: Point)
    requires |s.snake| > 0 && PhaseOf(s) == Running && !Collides(s) && NewHead(s) != s.food
    ensures TickStep(s, foodChoice) == s.(snake := [NewHead(s)] + s.snake[..|s.snake| - 1])
    ensures |TickStep(s, foodChoice).snake| == |s.snake| && PhaseOf(TickStep(s, foodChoice)) == Running
  {
  }

  /** Eating: the head advances and the tail stays, so the snake grows by one segment, the
      score by ScoreStep, and the food moves to the drawn cell, which avoids the pre-move
      snake. */
  lemma TickEat(s: GameState, foodChoice: Point)
    requires |s.snake| > 0 && Eats(s) && TickFoodOk(s, foodChoice)
    ensures TickStep(s, foodChoice) ==
      s.(snake := [NewHead(s)] + s.snake, score := s.score + ScoreStep, food := foodChoice)
    ensures var r := TickStep(s, foodChoice);
      |r.snake| == |s.snake| + 1 && InGrid(r.food) && r.food !in r.snake[1..] &&
      PhaseOf(r) == Running
  {
    var r := TickStep(s, foodChoice);
    assert r.snake[1..] == s.snake;
  }

  /** A cell produced by `GenerateFood` from the snake the handler sees meets the food
      requirement of both the tick and a key press. */
  lemma GeneratedFoodAdmissible(s: GameState, key: string, draws: seq<Point>, foodChoice: Point)
    requires |s.snake| > 0
    requires forall i :: 0 <= i < |draws| ==> InGrid(draws[i])
    requires GenerateFood(s.snake, draws) == Some(foodChoice)
    ensures TickFoodOk(s, foodChoice) && KeyFoodOk(s, key, foodChoice)
  {
  }

  // ---------------------------------------------------------------------------
  // Key presses

  /** Enter or "5" on the title screen starts a fresh game. */
  lemma KeyStartsGame(s: GameState, key: string, foodChoice: Point)
    requires PhaseOf(s) == NotStarted && IsStartKey(key)
    ensures var r := KeyStep(s, key, foodChoice);
      r.snake == InitialSnake && r.direction == Up && r.score == 0 && r.food == foodChoice &&
      !r.gameOver && r.gameStarted && PhaseOf(r) == Running
  {
  }

  /** Enter or "5" after game over only returns to the title screen: snake, score, food and
      direction are kept. */
  lemma KeyRestarts(s: GameState, key: string, foodChoice: Point)
    requires PhaseOf(s) == Over && IsStartKey(key)
    ensures var r := KeyStep(s, key, foodChoice);
      r.snake == s.snake && r.score == s.score && r.food == s.food && r.direction == s.direction &&
      !r.gameOver && !r.gameStarted && PhaseOf(r) == NotStarted
  {
  }

  /** Outside the running phase every key but Enter and "5" is ignored; steering keys
      included. */
  lemma KeyIgnoredUnlessRunning(s: GameState, key: string, foodChoice: Point)
    requires PhaseOf(s) != Running && !IsStartKey(key)
    ensures KeyStep(s, key, foodChoice) == s
  {
  }

  /** While running, a key changes at most the direction. A steering key is accepted
      exactly when it does not ask for the reverse of the current direction (the same and
      the two perpendicular directions are accepted); any other key changes nothing. */
  lemma KeySteers(s: GameState, key: string, foodChoice: Point)
    requires PhaseOf(s) == Running && IsUnit(s.direction)
    ensures var r := KeyStep(s, key, foodChoice);
      r == s.(direction := r.direction) &&
      (KeyToDirection(key).None? ==> r == s) &&
      (KeyToDirection(key).Some? ==>
        r.direction == (if KeyToDirection(key).value == Negate(s.direction)
                        then s.direction else KeyToDirection(key).value))
  {
  }

  /** One key press never reverses the snake's direction. */
  lemma NoReversalInOnePress(s: GameState, key: string, foodChoice: Point)
    requires PhaseOf(s) == Running && IsUnit(s.direction)
    ensures KeyStep(s, key, foodChoice).direction != Negate(s.direction)
    ensures IsUnit(KeyStep(s, key, foodChoice).direction)
  {
    var r := KeyStep(s, key, foodChoice);
    match KeyToDirection(key)
    case None =>
      assert r == s;
    case Some(d) =>
      assert IsOpposite(d, s.direction) <==> d == Negate(s.direction);
      assert r.direction == (if IsOpposite(d, s.direction) then s.direction else d);
  }

  /** Two presses between ticks can chain into a reversal: each is checked against the
      direction the previous one set, not the direction the snake last moved in. */
  lemma TwoPressesReverse(s: GameState, foodChoice: Point)
    requires PhaseOf(s) == Running && s.direction == Up
    ensures KeyStep(KeyStep(s, "ArrowLeft", foodChoice), "ArrowDown", foodChoice).direction == Negate(s.direction)
  {
  }

  // ---------------------------------------------------------------------------
  // Scenarios

  /** A started game moves its head from (8, 8) up to (8, 7) and keeps three segments. */
  lemma FirstTickAfterStart(s: GameState, startFood: Point, foodChoice: Point)
    requires startFood != Point(8, 7)
    ensures var r := TickStep(StartStep(s, startFood), foodChoice);
      r.snake == [Point(8, 7), Point(8, 8), Point(8, 9)] && r.score == 0 && PhaseOf(r) == Running
  {
  }

  /** After game over, "5" leads back to the title screen and a second "5" starts a fresh
      game with score 0 and the initial snake. */
  lemma RestartThenStart(s: GameState, f1: Point, f2: Point)
    requires PhaseOf(s) == Over
    ensures var r := KeyStep(KeyStep(s, "5", f1), "5", f2);
      r.snake == InitialSnake && r.score == 0 && r.food == f2 && PhaseOf(r) == Running
  {
  }
}
