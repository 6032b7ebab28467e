/**
  Building the hidden field of a new game: checking the requested size,
  placing the mines by rejection sampling, then writing each safe cell's
  neighbour-mine count.
 */
module Board {
  import opened Outcomes
  import opened Cells
  import opened Grids
  import opened Neighbours

  datatype NewGameError =
    | InvalidWidth       // width outside [2, 30]
    | InvalidHeight      // height outside [2, 30]
    | InvalidMinesCount  // mines_count outside [1, width * height - 1]
    | DrawsExhausted     // the supplied random draws ran out before every mine was placed

  const MinSide := 2
  const MaxSide := 30

  /** The request checks of new_game, in the order the source makes them; `None` when all pass. */
  function Validate(width: int, height: int, minesCount: int): (r: Option<NewGameError>)
    ensures r == Some(InvalidWidth) <==> !(MinSide <= width <= MaxSide)
    ensures r == Some(InvalidHeight) <==> MinSide <= width <= MaxSide && !(MinSide <= height <= MaxSide)
    ensures r == Some(InvalidMinesCount) <==>
      MinSide <= width <= MaxSide && MinSide <= height <= MaxSide && !(1 <= minesCount <= width * height - 1)
    ensures r == None <==> ValidRequest(width, height, minesCount)
  {
    if width > MaxSide || width < MinSide then Some(InvalidWidth)
    else if height > MaxSide || height < MinSide then Some(InvalidHeight)
    else
      var maxMines := width * height - 1;
      if minesCount > maxMines || minesCount < 1 then Some(InvalidMinesCount)
      else None
  }

  predicate ValidRequest(width: int, height: int, minesCount: int) {
    MinSide <= width <= MaxSide && MinSide <= height <= MaxSide && 1 <= minesCount <= width * height - 1
  }

  /**
    Sample requests: a 1-wide board, a 1-high board, a 5 by 5 board with 25
    mines and a 31 by 0 board are refused for the first check they fail; a 5
    by 5 board with 24 mines passes.
   */
  lemma ValidateExamples()
    ensures Validate(1, 5, 1) == Some(InvalidWidth)
    ensures Validate(5, 1, 1) == Some(InvalidHeight)
    ensures Validate(5, 5, 25) == Some(InvalidMinesCount)
    ensures Validate(5, 5, 24) == None
    ensures Validate(31, 0, 0) == Some(InvalidWidth)
  {
  }

  /** A draw is one pair `(x, y)` of the two randint calls: a column and a row of the field. */
  type Draw = (int, int)

  predicate DrawsInRange(draws: seq<Draw>, w: int, h: int) {
    forall k :: 0 <= k < |draws| ==> InBounds(w, h, draws[k].1, draws[k].0)
  }

  /**
    The placement loop: `n` more mines are to be placed. A draw that hits a
    non-blank cell is thrown away and the next one is taken, as the source's
    inner `while` does. `None` when the draws run out first, where the source
    would go on drawing.
   */
  function PlaceMines(f: Grid, w: int, h: int, draws: seq<Draw>, n: nat): (r: Option<Grid>)
    requires IsGrid(f, w, h) && DrawsInRange(draws, w, h)
    ensures r.Some? ==> IsGrid(r.value, w, h)
    ensures r.Some? ==> forall i, j :: InBounds(w, h, i, j) ==>
      r.value[i][j] == f[i][j] || (f[i][j] == Blank && r.value[i][j] == Mine)
    ensures r.Some? ==> CountOf(r.value, Mine) == CountOf(f, Mine) + n
    decreases |draws|
  {
    if n == 0 then Some(f)
    else if draws == [] then None
    else
      var (x, y) := draws[0];
      if f[y][x] != Blank then PlaceMines(f, w, h, draws[1..], n)
      else
        CountOfSet(f, y, x, Mine, Mine);
        PlaceMines(Set(f, y, x, Mine), w, h, draws[1..], n - 1)
  }

  /** The distinct blank cells the draws hit, as `(row, col)`. */
  function HitBlanks(f: Grid, w: int, h: int, draws: seq<Draw>): set<(int, int)>
    requires IsGrid(f, w, h) && DrawsInRange(draws, w, h)
  {
    set k | 0 <= k < |draws| && f[draws[k].1][draws[k].0] == Blank :: (draws[k].1, draws[k].0)
  }

  /** Placement finishes whenever the draws reach at least `n` distinct blank cells. */
  lemma {:induction false} PlaceMinesFinishes(f: Grid, w: int, h: int, draws: seq<Draw>, n: nat)
    requires IsGrid(f, w, h) && DrawsInRange(draws, w, h)
    requires |HitBlanks(f, w, h, draws)| >= n
    ensures PlaceMines(f, w, h, draws, n).Some?
    decreases |draws|
  {
    if n > 0 {
      var all := HitBlanks(f, w, h, draws);
      if draws != [] {
        var (x, y) := draws[0];
        var rest := draws[1..];
        if f[y][x] != Blank {
          assert HitBlanks(f, w, h, rest) == all by {
            forall p | p in all
              ensures p in HitBlanks(f, w, h, rest)
            {
              var k :| 0 <= k < |draws| && f[draws[k].1][draws[k].0] == Blank && p == (draws[k].1, draws[k].0);
              assert rest[k - 1] == draws[k];
            }
            forall p | p in HitBlanks(f, w, h, rest)
              ensures p in all
            {
              var k :| 0 <= k < |rest| && f[rest[k].1][rest[k].0] == Blank && p == (rest[k].1, rest[k].0);
              assert draws[k + 1] == rest[k];
            }
          }
          PlaceMinesFinishes(f, w, h, rest, n);
        } else {
          var f' := Set(f, y, x, Mine);
          var later := HitBlanks(f', w, h, rest);
          assert all - {(y, x)} <= later by {
            forall p | p in all - {(y, x)}
              ensures p in later
            {
              var k :| 0 <= k < |draws| && f[draws[k].1][draws[k].0] == Blank && p == (draws[k].1, draws[k].0);
              assert k != 0;
              assert rest[k - 1] == draws[k];
            }
          }
          SubsetSize(all - {(y, x)}, later);
          PlaceMinesFinishes(f', w, h, rest, n - 1);
        }
      }
    }
  }

  lemma {:induction false} SubsetSize<T>(s: set<T>, t: set<T>)
    requires s <= t
    ensures |s| <= |t|
    decreases |s|
  {
    if s != {} {
      var x :| x in s;
      SubsetSize(s - {x}, t - {x});
    }
  }

  /** The mine count the source's offset loop computes for the cell at row `i`, column `j`. */
  method CountAround(g: Grid, w: int, h: int, i: int, j: int) returns (cellVal: int)
    requires IsGrid(g, w, h)
    ensures cellVal == |MineNeighbours(g, w, h, i, j)|
  {
    cellVal := 0;
    var k := 0;
    while k < 8
      invariant 0 <= k <= 8
      invariant cellVal + OffsetMines(g, w, h, i, j, k) == OffsetMines(g, w, h, i, j, 0)
    {
      var (ny, nx) := Neighbour(i, j, k);
      if 0 <= ny < h && 0 <= nx < w && g[ny][nx] == Mine {
        cellVal := cellVal + 1;
      }
      k := k + 1;
    }
    OffsetMinesCountsNeighbours(g, w, h, i, j);
  }

  /** `g` holds mines exactly where `field` does. */
  ghost predicate SameMines(g: Grid, field: Grid, w: int, h: int)
    requires IsGrid(g, w, h) && IsGrid(field, w, h)
  {
    forall a, b :: InBounds(w, h, a, b) ==> (g[a][b] == Mine <==> field[a][b] == Mine)
  }

  /** The cell at row `a`, column `b` of `g` holds the count of mines around it in `field`. */
  ghost predicate CountedAt(g: Grid, field: Grid, w: int, h: int, a: int, b: int)
    requires IsGrid(g, w, h) && IsGrid(field, w, h) && InBounds(w, h, a, b)
  {
    g[a][b].Count? && g[a][b].n == |MineNeighbours(field, w, h, a, b)|
  }

  lemma SameMinesSameCounts(g: Grid, field: Grid, w: int, h: int, i: int, j: int)
    requires IsGrid(g, w, h) && IsGrid(field, w, h) && SameMines(g, field, w, h)
    ensures |MineNeighbours(g, w, h, i, j)| == |MineNeighbours(field, w, h, i, j)|
  {
    OffsetMinesSameMines(g, field, w, h, i, j, 0);
    OffsetMinesCountsNeighbours(g, w, h, i, j);
    OffsetMinesCountsNeighbours(field, w, h, i, j);
  }

  /** One row of the counting pass. */
  method CountRow(g: Grid, field: Grid, w: int, h: int, i: int) returns (r: Grid)
    requires IsGrid(g, w, h) && IsGrid(field, w, h) && SameMines(g, field, w, h) && 0 <= i < h
    ensures IsGrid(r, w, h) && SameMines(r, field, w, h)
    ensures forall a, b :: InBounds(w, h, a, b) && a != i ==> r[a][b] == g[a][b]
    ensures forall b :: 0 <= b < w && field[i][b] != Mine ==> CountedAt(r, field, w, h, i, b)
  {
    r := g;
    assert |r[i]| == w;
    var j := 0;
    while j < w
      invariant 0 <= j <= w
      invariant IsGrid(r, w, h) && SameMines(r, field, w, h)
      invariant forall a, b :: InBounds(w, h, a, b) && a != i ==> r[a][b] == g[a][b]
      invariant forall b :: 0 <= b < j && field[i][b] != Mine ==> CountedAt(r, field, w, h, i, b)
    {
      if r[i][j] != Mine {
        var cellVal := CountAround(r, w, h, i, j);
        SameMinesSameCounts(r, field, w, h, i, j);
        MineNeighboursBound(field, w, h, i, j);
        r := Set(r, i, j, Count(cellVal));
      }
      j := j + 1;
    }
  }

  /**
    The counting pass: every non-mine cell is overwritten, in place and in
    row-major order, with the number of mines the offset walk meets around it.
    The walk only asks whether a neighbour is a mine, and mines are never
    overwritten, so earlier writes do not disturb later counts.
   */
  method CountNeighbourMines(field: Grid, w: int, h: int) returns (counted: Grid)
    requires IsGrid(field, w, h)
    ensures IsGrid(counted, w, h)
    ensures forall i, j :: InBounds(w, h, i, j) ==> (counted[i][j] == Mine <==> field[i][j] == Mine)
    ensures forall i, j :: InBounds(w, h, i, j) && field[i][j] != Mine ==>
      counted[i][j].Count? && counted[i][j].n == |MineNeighbours(field, w, h, i, j)|
  {
    counted := field;
    var i := 0;
    while i < h
      invariant 0 <= i <= h
      invariant IsGrid(counted, w, h) && SameMines(counted, field, w, h)
      invariant forall a, b :: InBounds(w, h, a, b) && a < i && field[a][b] != Mine ==> CountedAt(counted, field, w, h, a, b)
    {
      counted := CountRow(counted, field, w, h, i);
      i := i + 1;
    }
  }
}
