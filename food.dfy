/** Food placement. `generateFood` draws a random cell and draws again for as long as the
    cell lies on the snake it was created with. Randomness is replaced by the stream of
    cells `Math.floor(Math.random() * size)` would have produced. */
module Food {
  import opened Grid
  import opened Options

  /** A cell the game may place food on, given the snake `generateFood` sees. */
  predicate FoodOk(snake: seq<Point>, cell: Point) {
    InGrid(cell) && cell !in snake
  }

  /** Rejection sampling over the draws: the first draw off the snake, or None when every
      draw of the (finite) stream lands on the snake. */
  function GenerateFood(snake: seq<Point>, draws: seq<Point>): (r: Option<Point>)
    requires forall i :: 0 <= i < |draws| ==> InGrid(draws[i])
    ensures r.Some? ==> FoodOk(snake, r.value)
    ensures r.Some? ==> exists i :: 0 <= i < |draws| && draws[i] == r.value &&
                                  forall j :: 0 <= j < i ==> draws[j] in snake
    ensures r.None? <==> forall i :: 0 <= i < |draws| ==> draws[i] in snake
    decreases |draws|
  {
    if |draws| == 0 then None
    else if draws[0] in snake then
      var r := GenerateFood(snake, draws[1..]);
      assert r.Some? ==> exists i :: 0 <= i < |draws| && draws[i] == r.value &&
                                     forall j :: 0 <= j < i ==> draws[j] in snake by {
        if r.Some? {
          var i :| 0 <= i < |draws[1..]| && draws[1..][i] == r.value &&
                   forall j :: 0 <= j < i ==> draws[1..][j] in snake;
          assert draws[i + 1] == r.value;
          assert forall j :: 0 <= j < i + 1 ==> draws[j] in snake by {
            forall j | 0 <= j < i + 1 ensures draws[j] in snake {
              if j > 0 { assert draws[j] == draws[1..][j - 1]; }
            }
          }
        }
      }
      assert r.None? ==> forall i :: 0 <= i < |draws| ==> draws[i] in snake by {
        if r.None? {
          forall i | 0 <= i < |draws| ensures draws[i] in snake {
            if i > 0 { assert draws[i] == draws[1..][i - 1]; }
          }
        }
      }
      r
    else
      Some(draws[0])
  }

  /** A finite stream of draws that contains a free cell makes sampling succeed. */
  lemma GenerateFoodFindsFreeDraw(snake: seq<Point>, draws: seq<Point>, k: int)
    requires forall i :: 0 <= i < |draws| ==> InGrid(draws[i])
    requires 0 <= k < |draws| && draws[k] !in snake
    ensures GenerateFood(snake, draws).Some?
  {
  }
}
