/** The playing field: a fixed 31 x 21 grid of cells with toroidal (wrap-around) addressing. */
module Grid {

  /** A cell of the grid, or a direction vector; both are `{ x, y }` objects in the game. */
  datatype Point = Point(x: int, y: int)

  const Width: int := 31
  const Height: int := 21

  /** Number of cells on the board. */
  const CellCount: int := Width * Height

  predicate InGrid(p: Point) {
    0 <= p.x < Width && 0 <= p.y < Height
  }

  /** The four unit directions the snake can travel in. */
  const Up: Point := Point(0, -1)
  const Down: Point := Point(0, 1)
  const Left: Point := Point(-1, 0)
  const Right: Point := Point(1, 0)

  predicate IsUnit(d: Point) {
    d == Up || d == Down || d == Left || d == Right
  }

  function Negate(d: Point): Point {
    Point(-d.x, -d.y)
  }

  /** JavaScript's `%`: the remainder of a division truncated toward zero,
      so it takes the sign of the dividend (Dafny's own `%` never goes negative). */
  function JsRem(a: int, n: int): (r: int)
    requires n > 0
    ensures a >= 0 ==> 0 <= r < n && r == a % n
    ensures a < 0 ==> -n < r <= 0 && (r + n) % n == a % n
  {
    if a >= 0 then a % n
    else
      var q, m := (-a) / n, (-a) % n;
      assert -a == q * n + m;
      assert (-m + n) % n == a % n by {
        if m == 0 {
          ModUnique(a, n, -q, 0);
          ModUnique(n, n, 1, 0);
        } else {
          ModUnique(a, n, -q - 1, n - m);
          ModUnique(n - m, n, 0, n - m);
        }
      }
      -m
  }

  /** One wrapped coordinate step, `(v + dv + size) % size` with JavaScript's `%`.
      Whenever the sum stays above `-size` (in particular for an in-grid coordinate and a
      step of at most one) the result is the true residue of `v + dv`, hence on the board. */
  function Wrap(v: int, dv: int, size: int): (r: int)
    requires size > 0
    ensures v + dv + size >= 0 ==> 0 <= r < size && r == (v + dv) % size
    ensures v + dv + size < 0 ==> -size < r <= 0
  {
    if v + dv + size >= 0 then ModShift(v + dv, size); JsRem(v + dv + size, size)
    else JsRem(v + dv + size, size)
  }

  /** Adding the modulus does not change a residue. */
  lemma ModShift(a: int, n: int)
    requires n > 0
    ensures (a + n) % n == a % n
  {
    var q, r := a / n, a % n;
    assert a == q * n + r;
    assert a + n == (q + 1) * n + r;
    ModUnique(a + n, n, q + 1, r);
  }

  lemma ModUnique(a: int, n: int, q: int, r: int)
    requires n > 0 && 0 <= r < n && a == q * n + r
    ensures a % n == r
  {
    var q', r' := a / n, a % n;
    assert a == q' * n + r';
    assert (q - q') * n == r' - r;
    if q > q' {
      MulAtLeast(q - q', n);
    } else if q < q' {
      MulAtLeast(q' - q, n);
    }
  }

  lemma {:induction false} MulAtLeast(k: int, n: int)
    requires k >= 1 && n > 0
    ensures k * n >= n
    decreases k
  {
    if k > 1 {
      MulAtLeast(k - 1, n);
      assert k * n == (k - 1) * n + n;
    }
  }

  /** The cell the head moves to when it takes one step in direction `dir`: on each axis
      the residue of the sum, provided the sum does not fall below minus the grid's size. */
  function NextHead(head: Point, dir: Point): (r: Point)
    ensures head.x + dir.x >= -Width ==> 0 <= r.x < Width && r.x == (head.x + dir.x) % Width
    ensures head.y + dir.y >= -Height ==> 0 <= r.y < Height && r.y == (head.y + dir.y) % Height
  {
    Point(Wrap(head.x, dir.x, Width), Wrap(head.y, dir.y, Height))
  }

  /** A step from an in-grid cell in a unit direction lands on the grid, on the cell that
      is one step away modulo the grid's dimensions. */
  lemma NextHeadInGrid(head: Point, dir: Point)
    requires InGrid(head) && IsUnit(dir)
    ensures InGrid(NextHead(head, dir))
    ensures NextHead(head, dir) == Point((head.x + dir.x) % Width, (head.y + dir.y) % Height)
    ensures NextHead(head, dir) != head
  {
  }

  /** Leaving the board at one edge re-enters it at the opposite edge. */
  lemma WrapAtEdges(y: int, x: int)
    requires 0 <= y < Height && 0 <= x < Width
    ensures NextHead(Point(Width - 1, y), Right) == Point(0, y)
    ensures NextHead(Point(0, y), Left) == Point(Width - 1, y)
    ensures NextHead(Point(x, 0), Up) == Point(x, Height - 1)
    ensures NextHead(Point(x, Height - 1), Down) == Point(x, 0)
  {
  }

  // ---------------------------------------------------------------------------
  // Counting cells: a sequence of pairwise distinct in-grid cells has at most
  // CellCount entries, and a shorter one leaves some cell of the grid free.

  predicate Distinct(s: seq<Point>) {
    forall i, j :: 0 <= i < j < |s| ==> s[i] != s[j]
  }

  predicate AllInGrid(s: seq<Point>) {
    forall i :: 0 <= i < |s| ==> InGrid(s[i])
  }

  function Elements(s: seq<Point>): set<Point> {
    set p | p in s
  }

  /** The cell numbered `i` in row-major order. */
  function CellAt(i: int): Point {
    Point(i % Width, i / Width)
  }

  function AllCells(): (cells: seq<Point>)
    ensures |cells| == CellCount
    ensures forall i :: 0 <= i < CellCount ==> cells[i] == CellAt(i)
  {
    seq(CellCount, CellAt)
  }

  lemma AllCellsCoverGrid(p: Point)
    requires InGrid(p)
    ensures p in AllCells()
  {
    var i := p.y * Width + p.x;
    assert 0 <= i < CellCount;
    assert CellAt(i) == p;
    assert AllCells()[i] == p;
  }

  lemma AllCellsDistinct()
    ensures Distinct(AllCells())
  {
    var cells := AllCells();
    forall i, j | 0 <= i < j < |cells| ensures cells[i] != cells[j] {
      assert cells[i] == CellAt(i) && cells[j] == CellAt(j);
      assert i == (i / Width) * Width + i % Width;
      assert j == (j / Width) * Width + j % Width;
    }
  }

  lemma {:induction false} DistinctElements(s: seq<Point>)
    requires Distinct(s)
    ensures |Elements(s)| == |s|
  {
    if s != [] {
      var rest := s[1..];
      assert Distinct(rest);
      DistinctElements(rest);
      assert Elements(s) == {s[0]} + Elements(rest);
      assert s[0] !in Elements(rest);
    }
  }

  lemma {:induction false} SubsetCard(a: set<Point>, b: set<Point>)
    requires a <= b
    ensures |a| <= |b|
    decreases |a|
  {
    if a != {} {
      var p :| p in a;
      SubsetCard(a - {p}, b - {p});
    }
  }

  /** Pigeonhole: a snake of distinct in-grid cells cannot be longer than the grid. */
  lemma SnakeFitsGrid(s: seq<Point>)
    requires Distinct(s) && AllInGrid(s)
    ensures |s| <= CellCount
  {
    var cells := AllCells();
    assert Elements(s) <= Elements(cells) by {
      forall p | p in Elements(s) ensures p in Elements(cells) {
        AllCellsCoverGrid(p);
      }
    }
    DistinctElements(s);
    AllCellsDistinct();
    DistinctElements(cells);
    SubsetCard(Elements(s), Elements(cells));
  }

  /** A snake of distinct cells that is shorter than the grid leaves an in-grid cell free;
      conversely, when it covers every cell of the grid it has exactly CellCount segments. */
  lemma FreeCellExists(s: seq<Point>)
    requires Distinct(s) && AllInGrid(s)
    ensures (exists p :: InGrid(p) && p !in s) <==> |s| < CellCount
  {
    SnakeFitsGrid(s);
    var cells := AllCells();
    if forall p :: InGrid(p) ==> p in s {
      assert Elements(cells) <= Elements(s) by {
        forall p | p in Elements(cells) ensures p in Elements(s) {
          var i :| 0 <= i < |cells| && cells[i] == p;
          assert p == CellAt(i);
        }
      }
      AllCellsDistinct();
      DistinctElements(cells);
      DistinctElements(s);
      SubsetCard(Elements(cells), Elements(s));
    } else {
      var p :| InGrid(p) && p !in s;
      assert Elements(s) <= Elements(cells) - {p} by {
        forall q | q in Elements(s) ensures q in Elements(cells) - {p} {
          AllCellsCoverGrid(q);
        }
      }
      AllCellsCoverGrid(p);
      AllCellsDistinct();
      DistinctElements(cells);
      DistinctElements(s);
      SubsetCard(Elements(s), Elements(cells) - {p});
    }
  }
}
