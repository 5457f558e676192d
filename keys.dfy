/** Keyboard input: which keys steer the snake, which start or restart the game, and
    when a requested direction counts as an illegal U-turn. */
module Keys {
  import opened Grid
  import opened Options

  /** The handler's `keyDirections` object: arrow keys and the numeric keypad. */
  const KeyDirections: map<string, Point> := map[
    "ArrowUp" := Up, "ArrowDown" := Down, "ArrowLeft" := Left, "ArrowRight" := Right,
    "8" := Up, "2" := Down, "4" := Left, "6" := Right
  ]

  /** Enter and "5" start a game from the title screen and restart after game over. */
  predicate IsStartKey(key: string): (r: bool)
    ensures r ==> key !in KeyDirections
  {
    key == "Enter" || key == "5"
  }

  /** The direction a key requests, if it is one of the eight steering keys. */
  function KeyToDirection(key: string): (r: Option<Point>)
    ensures r == Some(Up) <==> key == "ArrowUp" || key == "8"
    ensures r == Some(Down) <==> key == "ArrowDown" || key == "2"
    ensures r == Some(Left) <==> key == "ArrowLeft" || key == "4"
    ensures r == Some(Right) <==> key == "ArrowRight" || key == "6"
    ensures r.Some? ==> IsUnit(r.value)
    ensures IsStartKey(key) ==> r == None
  {
    if key in KeyDirections then Some(KeyDirections[key]) else None
  }

  /** The handler's `isOpposite` test, axis by axis. For unit vectors it holds exactly
      when the requested direction is the reverse of the current one, so turning to the
      same or a perpendicular direction is never rejected. */
  function IsOpposite(requested: Point, current: Point): (r: bool)
    ensures IsUnit(requested) && IsUnit(current) ==> (r <==> requested == Negate(current))
  {
    var opposite := (requested.x == -current.x && current.x != 0) || (requested.y == -current.y && current.y != 0);
    assert IsUnit(requested) && IsUnit(current) ==> (opposite <==> requested == Negate(current)) by {
      if IsUnit(requested) && IsUnit(current) {
        OppositeUnits(requested, current);
      }
    }
    opposite
  }

  lemma OppositeUnits(requested: Point, current: Point)
    requires IsUnit(requested) && IsUnit(current)
    ensures ((requested.x == -current.x && current.x != 0) || (requested.y == -current.y && current.y != 0))
            <==> requested == Negate(current)
  {
    if current == Up {
    } else if current == Down {
    } else if current == Left {
    } else {
    }
  }
}
