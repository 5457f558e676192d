/** What holds in every state the game can reach from the mount state: the segments are
    pairwise distinct and on the grid, the food is on the grid, the direction is a unit
    vector, the score is ScoreStep points per segment grown, and game over implies started. */
module Invariants {
  import opened Grid
  import opened Keys
  import opened Food
  import opened Transitions

  ghost predicate Inv(s: GameState)
    ensures Inv(s) ==> |s.snake| > 0 && s.score >= 0
  {
    |s.snake| >= |InitialSnake| &&
    Distinct(s.snake) && AllInGrid(s.snake) &&
    InGrid(s.food) && IsUnit(s.direction) &&
    s.score == ScoreStep * (|s.snake| - |InitialSnake|) &&
    (s.gameOver ==> s.gameStarted)
  }

  /** The component mounts on the title screen with score 0 and the invariant in force. */
  lemma MountInv()
    ensures Inv(Mount)
    ensures PhaseOf(Mount) == NotStarted && Mount.score == 0 && InGrid(Mount.food)
  {
  }

  lemma {:induction false} TickPreservesInv(s: GameState, foodChoice: Point)
    requires Inv(s) && TickFoodOk(s, foodChoice)
    ensures Inv(TickStep(s, foodChoice))
  {
    if PhaseOf(s) == Running && !Collides(s) {
      var head := NewHead(s);
      NextHeadInGrid(s.snake[0], s.direction);
      var body := if head == s.food then s.snake else s.snake[..|s.snake| - 1];
      var r := TickStep(s, foodChoice);
      assert r.snake == [head] + body;
      assert head !in body;
      assert forall i :: 0 <= i < |body| ==> body[i] == s.snake[i];
      forall i, j | 0 <= i < j < |r.snake| ensures r.snake[i] != r.snake[j] {
        if i > 0 {
          assert r.snake[i] == s.snake[i - 1] && r.snake[j] == s.snake[j - 1];
        } else {
          assert r.snake[j] == body[j - 1];
        }
      }
    }
  }

  lemma KeyPreservesInv(s: GameState, key: string, foodChoice: Point)
    requires Inv(s) && KeyFoodOk(s, key, foodChoice)
    ensures Inv(KeyStep(s, key, foodChoice))
  {
    if PhaseOf(s) == NotStarted && IsStartKey(key) {
      assert Distinct(InitialSnake);
    }
  }

  /** Food for the next tick always exists: the only tick that draws food is one whose new
      head is the food, and that cell is off the pre-move snake. */
  lemma TickFoodAvailable(s: GameState)
    requires Inv(s)
    ensures exists f :: TickFoodOk(s, f)
  {
    if Eats(s) {
      assert FoodOk(s.snake, s.food);
      assert TickFoodOk(s, s.food);
    } else {
      assert TickFoodOk(s, s.food);
    }
  }

  /** A start finds food exactly when the previous game's snake does not fill the grid;
      with all 651 cells covered, `generateFood` would keep drawing forever. */
  lemma StartFoodAvailable(s: GameState)
    requires Inv(s)
    ensures (exists f :: FoodOk(s.snake, f)) <==> |s.snake| < CellCount
  {
    FreeCellExists(s.snake);
    if |s.snake| < CellCount {
      var p :| InGrid(p) && p !in s.snake;
      assert FoodOk(s.snake, p);
    }
  }

  // ---------------------------------------------------------------------------
  // Runs: sequences of handler calls from a state

  datatype Event = TickEvent(tickFood: Point) | KeyEvent(key: string, keyFood: Point)

  predicate Admissible(s: GameState, e: Event)
    requires |s.snake| > 0
  {
    match e
    case TickEvent(f) => TickFoodOk(s, f)
    case KeyEvent(k, f) => KeyFoodOk(s, k, f)
  }

  function Step(s: GameState, e: Event): GameState
    requires |s.snake| > 0
  {
    match e
    case TickEvent(f) => TickStep(s, f)
    case KeyEvent(k, f) => KeyStep(s, k, f)
  }

  lemma StepPreservesInv(s: GameState, e: Event)
    requires Inv(s) && Admissible(s, e)
    ensures Inv(Step(s, e))
  {
    match e
    case TickEvent(f) => TickPreservesInv(s, f);
    case KeyEvent(k, f) => KeyPreservesInv(s, k, f);
  }

  /** Every event of the run meets the food requirement of the state it is applied in. */
  ghost predicate ValidRun(s: GameState, events: seq<Event>)
    requires Inv(s)
    decreases |events|
  {
    if |events| == 0 then true
    else if !Admissible(s, events[0]) then false
    else
      StepPreservesInv(s, events[0]);
      ValidRun(Step(s, events[0]), events[1..])
  }

  /** The state after applying the events in order; the invariant holds at its end. */
  function Run(s: GameState, events: seq<Event>): (r: GameState)
    requires Inv(s) && ValidRun(s, events)
    ensures Inv(r)
    decreases |events|
  {
    if |events| == 0 then s
    else
      StepPreservesInv(s, events[0]);
      Run(Step(s, events[0]), events[1..])
  }

  /** Every reachable state keeps the invariant; in particular the snake never outgrows
      the 651 cells of the grid and the score stays at most ScoreStep * 648. */
  lemma ReachableInv(events: seq<Event>)
    requires ValidRun(Mount, events)
    ensures var r := Run(Mount, events);
      Inv(r) && |r.snake| <= CellCount && 0 <= r.score <= ScoreStep * (CellCount - |InitialSnake|)
  {
    SnakeFitsGrid(Run(Mount, events).snake);
  }
}
