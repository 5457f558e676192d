/** The `GameBoard` component as an object: its six state variables are fields, and each
    handler is a method that updates them in place. Every method is proved to perform the
    corresponding step function of `Transitions` and to keep the invariant of `Invariants`. */
module Board {
  import opened Grid
  import opened Options
  import opened Keys
  import opened Food
  import opened Transitions
  import opened Invariants

  class GameBoard {
    var snake: seq<Point>
    var direction: Point
    var food: Point
    var score: int
    var gameOver: bool
    var gameStarted: bool

    /** The fields as one value. */
    function State(): GameState
      reads this
    {
      GameState(snake, direction, food, score, gameOver, gameStarted)
    }

    ghost predicate Valid()
      reads this
    {
      Inv(State())
    }

    /** Mounting the component: the initial snake, facing up, food at (5, 5), score 0,
        on the title screen. */
    constructor ()
      ensures State() == Mount && Valid()
    {
      snake := InitialSnake;
      direction := InitialDirection;
      food := MountFood;
      score := 0;
      gameOver := false;
      gameStarted := false;
      MountInv();
    }

    /** `moveSnake`, run by the timer. `foodChoice` stands for the result of
        `generateFood`, which the source calls only when the snake eats. */
    method Tick(foodChoice: Point)
      requires Valid() && TickFoodOk(State(), foodChoice)
      modifies this
      ensures State() == TickStep(old(State()), foodChoice)
      ensures Valid()
    {
      TickPreservesInv(State(), foodChoice);
      if gameOver || !gameStarted {
        return;
      }
      var newSnake := snake;
      var head := NextHead(newSnake[0], direction);
      if head in newSnake {
        gameOver := true;
        return;
      }
      newSnake := [head] + newSnake;
      if head == food {
        score := score + ScoreStep;
        food := foodChoice;
      } else {
        newSnake := newSnake[..|newSnake| - 1];
      }
      snake := newSnake;
    }

    /** `startGame`; `foodChoice` must avoid the snake of the previous game, which is the
        one `generateFood` sees. */
    method Start(foodChoice: Point)
      requires Valid() && FoodOk(snake, foodChoice)
      modifies this
      ensures State() == StartStep(old(State()), foodChoice)
      ensures Valid()
    {
      gameStarted := true;
      snake := InitialSnake;
      direction := InitialDirection;
      food := foodChoice;
      score := 0;
      gameOver := false;
      assert Distinct(InitialSnake);
    }

    /** `resetGame`. */
    method Reset()
      requires Valid()
      modifies this
      ensures State() == ResetStep(old(State()))
      ensures Valid()
    {
      gameStarted := false;
      gameOver := false;
    }

    /** The key handler `handleKeyPress`; `foodChoice` is used only when the key starts a
        game. */
    method KeyPress(key: string, foodChoice: Point)
      requires Valid() && KeyFoodOk(State(), key, foodChoice)
      modifies this
      ensures State() == KeyStep(old(State()), key, foodChoice)
      ensures Valid()
    {
      KeyPreservesInv(State(), key, foodChoice);
      if gameOver {
        if IsStartKey(key) {
          Reset();
        }
        return;
      }
      if !gameStarted {
        if IsStartKey(key) {
          Start(foodChoice);
        }
        return;
      }
      var newDirection := KeyToDirection(key);
      if newDirection.Some? {
        var isOpposite := IsOpposite(newDirection.value, direction);
        if !isOpposite {
          direction := newDirection.value;
        }
      }
    }
  }
}
