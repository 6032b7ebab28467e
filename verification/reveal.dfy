/**
  The reveal engine: the flood fill from a 0 cell, the single-cell reveal,
  and the conversion of mines to X marks shown after a loss.
 */
module Reveal {
  import opened Cells
  import opened Grids
  import opened Neighbours

  /** convert_mines_to_x_marks: every mine becomes an X mark, every other cell is kept. */
  function MarkMines(f: Grid): (r: Grid)
    ensures |r| == |f| && forall i :: 0 <= i < |f| ==> |r[i]| == |f[i]|
    ensures forall i, j :: 0 <= i < |f| && 0 <= j < |f[i]| ==>
      r[i][j] == (if f[i][j] == Mine then XMark else f[i][j])
  {
    seq(|f|, i requires 0 <= i < |f| =>
      seq(|f[i]|, j requires 0 <= j < |f[i]| => if f[i][j] == Mine then XMark else f[i][j]))
  }

  /** Converting twice is converting once. */
  lemma MarkMinesIdempotent(f: Grid)
    ensures MarkMines(MarkMines(f)) == MarkMines(f)
  {
    var r := MarkMines(f);
    var rr := MarkMines(r);
    assert forall i :: 0 <= i < |f| ==> rr[i] == r[i];
  }

  /**
    After conversion no mine is left, and the X marks sit exactly where the
    mines (and any earlier X marks) were; there are as many X marks as there
    were mines when the grid had none before.
   */
  lemma MarkMinesShowsMines(f: Grid, w: int, h: int)
    requires IsGrid(f, w, h)
    ensures IsGrid(MarkMines(f), w, h)
    ensures forall i, j :: InBounds(w, h, i, j) ==> MarkMines(f)[i][j] != Mine
    ensures forall i, j :: InBounds(w, h, i, j) ==> (MarkMines(f)[i][j] == XMark <==> f[i][j] in {Mine, XMark})
    ensures CountOf(f, XMark) == 0 ==> CountOf(MarkMines(f), XMark) == CountOf(f, Mine)
  {
    var r := MarkMines(f);
    if CountOf(f, XMark) == 0 {
      forall i, j | InBounds(w, h, i, j)
        ensures f[i][j] != XMark
      {
        if f[i][j] == XMark {
          CountOfPositive(f, i, j, XMark, Mine);
        }
      }
      CountsAgree(r, f, w, h, XMark, Mine);
    }
  }

  /**
    `after` is `before` with some cells scouted: a cell changes only when it
    was blank and hides no mine, and then it shows its hidden value.
   */
  ghost predicate Reveals(f: Grid, before: Grid, after: Grid, w: int, h: int) {
    && IsGrid(f, w, h) && IsGrid(before, w, h) && IsGrid(after, w, h)
    && forall i, j :: InBounds(w, h, i, j) ==>
         after[i][j] == before[i][j] || (before[i][j] == Blank && f[i][j] != Mine && after[i][j] == f[i][j])
  }

  lemma RevealsTrans(f: Grid, a: Grid, b: Grid, c: Grid, w: int, h: int)
    requires Reveals(f, a, b, w, h) && Reveals(f, b, c, w, h)
    ensures Reveals(f, a, c, w, h)
  {
  }

  /**
    scout_empty_cells, from offset number `k` on: each in-grid neighbour of
    row `y`, column `x` that is still blank and hides no mine is set to its
    hidden value, and the fill goes on from it first when that value is 0.
    Every recursive call into a neighbour follows a reveal, so the number of
    blank cells has dropped; moving to the next offset keeps it from growing.
   */
  function Scout(ov: Grid, f: Grid, w: int, h: int, x: int, y: int, k: int): (r: Grid)
    requires IsGrid(ov, w, h) && IsGrid(f, w, h) && 0 <= k <= 8
    ensures Reveals(f, ov, r, w, h)
    ensures CountOf(r, Blank) <= CountOf(ov, Blank)
    decreases CountOf(ov, Blank), 8 - k
  {
    if k == 8 then ov
    else
      var (ny, nx) := Neighbour(y, x, k);
      if InBounds(w, h, ny, nx) && ov[ny][nx] == Blank && f[ny][nx] != Mine then
        var ov1 := Set(ov, ny, nx, f[ny][nx]);
        CountOfSet(ov, ny, nx, f[ny][nx], Blank);
        var ov2 := if f[ny][nx] == Count(0) then Scout(ov1, f, w, h, nx, ny, 0) else ov1;
        var r := Scout(ov2, f, w, h, x, y, k + 1);
        RevealsTrans(f, ov, ov1, ov2, w, h);
        RevealsTrans(f, ov, ov2, r, w, h);
        r
      else
        Scout(ov, f, w, h, x, y, k + 1)
  }

  /**
    Nothing is left for the flood to do at row `i`, column `j`: it is off the
    grid, already scouted, or hides a mine (or a blank, which no counted field
    holds).
   */
  ghost predicate Settled(ov: Grid, f: Grid, w: int, h: int, i: int, j: int)
    requires IsGrid(ov, w, h) && IsGrid(f, w, h)
  {
    InBounds(w, h, i, j) ==> ov[i][j] != Blank || f[i][j] == Mine || f[i][j] == Blank
  }

  /** Every neighbour of row `i`, column `j` reached by offsets numbered `k` or more is settled. */
  ghost predicate SettledAround(ov: Grid, f: Grid, w: int, h: int, i: int, j: int, k: int)
    requires IsGrid(ov, w, h) && IsGrid(f, w, h) && 0 <= k <= 8
  {
    forall d :: k <= d < 8 ==> Settled(ov, f, w, h, Neighbour(i, j, d).0, Neighbour(i, j, d).1)
  }

  /** Scouting more cells never unsettles a neighbourhood. */
  lemma SettledAroundGrows(f: Grid, a: Grid, b: Grid, w: int, h: int, i: int, j: int, k: int)
    requires Reveals(f, a, b, w, h) && 0 <= k <= 8
    requires SettledAround(a, f, w, h, i, j, k)
    ensures SettledAround(b, f, w, h, i, j, k)
  {
    forall d | k <= d < 8
      ensures Settled(b, f, w, h, Neighbour(i, j, d).0, Neighbour(i, j, d).1)
    {
      assert Settled(a, f, w, h, Neighbour(i, j, d).0, Neighbour(i, j, d).1);
    }
  }

  /**
    One step of the flood at offset number `k`: it leaves a grid `next`, from
    which the fill carries on with the next offset, and in which the
    neighbour at offset `k` is settled.
   */
  lemma ScoutStep(ov: Grid, f: Grid, w: int, h: int, x: int, y: int, k: int) returns (next: Grid)
    requires IsGrid(ov, w, h) && IsGrid(f, w, h) && 0 <= k < 8
    ensures Reveals(f, ov, next, w, h)
    ensures next == ov || CountOf(next, Blank) < CountOf(ov, Blank)
    ensures Scout(ov, f, w, h, x, y, k) == Scout(next, f, w, h, x, y, k + 1)
    ensures Settled(next, f, w, h, Neighbour(y, x, k).0, Neighbour(y, x, k).1)
    ensures var (ny, nx) := Neighbour(y, x, k);
      if InBounds(w, h, ny, nx) && ov[ny][nx] == Blank && f[ny][nx] != Mine then
        var ov1 := Set(ov, ny, nx, f[ny][nx]);
        next == if f[ny][nx] == Count(0) then Scout(ov1, f, w, h, nx, ny, 0) else ov1
      else next == ov
  {
    var (ny, nx) := Neighbour(y, x, k);
    if InBounds(w, h, ny, nx) && ov[ny][nx] == Blank && f[ny][nx] != Mine {
      var ov1 := Set(ov, ny, nx, f[ny][nx]);
      CountOfSet(ov, ny, nx, f[ny][nx], Blank);
      if f[ny][nx] == Blank {
        assert ov[ny][nx := Blank] == ov[ny];
      }
      next := if f[ny][nx] == Count(0) then Scout(ov1, f, w, h, nx, ny, 0) else ov1;
      RevealsTrans(f, ov, ov1, next, w, h);
    } else {
      next := ov;
    }
  }

  /**
    After the flood, every neighbour of the start cell reached by offsets
    numbered `k` or more is settled.
   */
  lemma {:induction false} ScoutSettlesStart(ov: Grid, f: Grid, w: int, h: int, x: int, y: int, k: int)
    requires IsGrid(ov, w, h) && IsGrid(f, w, h) && 0 <= k <= 8
    ensures SettledAround(Scout(ov, f, w, h, x, y, k), f, w, h, y, x, k)
    decreases 8 - k
  {
    if k < 8 {
      var next := ScoutStep(ov, f, w, h, x, y, k);
      var r := Scout(next, f, w, h, x, y, k + 1);
      ScoutSettlesStart(next, f, w, h, x, y, k + 1);
      var (ny, nx) := Neighbour(y, x, k);
      assert Settled(r, f, w, h, ny, nx) by {
        assert Reveals(f, next, r, w, h);
        assert Settled(next, f, w, h, ny, nx);
      }
      forall d | k <= d < 8
        ensures Settled(r, f, w, h, Neighbour(y, x, d).0, Neighbour(y, x, d).1)
      {
        if d > k {
          assert SettledAround(r, f, w, h, y, x, k + 1);
        }
      }
    }
  }

  /**
    After the flood, every neighbour of a cell the fill turned from blank to
    0 is settled.
   */
  lemma {:induction false} ScoutSettlesFlood(ov: Grid, f: Grid, w: int, h: int, x: int, y: int, k: int, i: int, j: int)
    requires IsGrid(ov, w, h) && IsGrid(f, w, h) && 0 <= k <= 8
    requires InBounds(w, h, i, j) && ov[i][j] == Blank
    ensures Scout(ov, f, w, h, x, y, k)[i][j] == Count(0) ==> SettledAround(Scout(ov, f, w, h, x, y, k), f, w, h, i, j, 0)
    decreases CountOf(ov, Blank), 8 - k
  {
    if k < 8 {
      var next := ScoutStep(ov, f, w, h, x, y, k);
      var r := Scout(next, f, w, h, x, y, k + 1);
      if next[i][j] == Blank {
        ScoutSettlesFlood(next, f, w, h, x, y, k + 1, i, j);
      } else if r[i][j] == Count(0) {
        // the step revealed row `i`, column `j`: it is the neighbour at offset `k` or was reached from it
        assert next[i][j] == Count(0);
        var ny, nx := Neighbour(y, x, k).0, Neighbour(y, x, k).1;
        var ov1 := Set(ov, ny, nx, f[ny][nx]);
        if ov1[i][j] == Blank {
          CountOfSet(ov, ny, nx, f[ny][nx], Blank);
          ScoutSettlesFlood(ov1, f, w, h, nx, ny, 0, i, j);
        } else {
          ScoutSettlesStart(ov1, f, w, h, nx, ny, 0);
        }
        SettledAroundGrows(f, next, r, w, h, i, j, 0);
      }
    }
  }

  /** Row `c`, column `d` was blank in `before` and shows 0 in `after`: a 0 the move uncovered. */
  ghost predicate Opened(before: Grid, after: Grid, w: int, h: int, c: int, d: int)
    requires IsGrid(before, w, h) && IsGrid(after, w, h)
  {
    InBounds(w, h, c, d) && before[c][d] == Blank && after[c][d] == Count(0)
  }

  /** The 0s a route passes through, in order from its start. */
  datatype Path = Arrive | Via(c: int, d: int, rest: Path)

  /**
    `p` leads from row `y`, column `x` to row `a`, column `b`, each step to an
    adjacent cell, every cell it passes through a 0 uncovered between `before`
    and `after`: the route a recursion of the flood takes.
   */
  ghost predicate Route(before: Grid, after: Grid, w: int, h: int, p: Path, y: int, x: int, a: int, b: int)
    requires IsGrid(before, w, h) && IsGrid(after, w, h)
  {
    match p
    case Arrive => Adjacent(y, x, a, b)
    case Via(c, d, rest) =>
      Adjacent(y, x, c, d) && Opened(before, after, w, h, c, d) && Route(before, after, w, h, rest, c, d, a, b)
  }

  /** Row `a`, column `b` is reached from row `y`, column `x` through uncovered 0s. */
  ghost predicate ReachedFrom(before: Grid, after: Grid, w: int, h: int, y: int, x: int, a: int, b: int)
    requires IsGrid(before, w, h) && IsGrid(after, w, h)
  {
    exists p :: Route(before, after, w, h, p, y, x, a, b)
  }

  /** A route through 0s uncovered over a shorter stretch of reveals is one over any longer one. */
  lemma {:induction false} RouteWidens(f: Grid, before: Grid, before': Grid, after': Grid, after: Grid, w: int, h: int, p: Path, y: int, x: int, a: int, b: int)
    requires Reveals(f, before, before', w, h) && Reveals(f, after', after, w, h)
    requires Route(before', after', w, h, p, y, x, a, b)
    ensures Route(before, after, w, h, p, y, x, a, b)
  {
    if p.Via? {
      RouteWidens(f, before, before', after', after, w, h, p.rest, p.c, p.d, a, b);
    }
  }

  /**
    A route the flood took while recursing from the neighbour at row `ny`,
    column `nx`, which the step uncovered as a 0, extends back to the start
    through that neighbour.
   */
  lemma RouteThroughZero(f: Grid, ov: Grid, next: Grid, r: Grid, w: int, h: int, y: int, x: int, ny: int, nx: int, a: int, b: int, q: Path)
    returns (p: Path)
    requires IsGrid(ov, w, h) && IsGrid(f, w, h) && InBounds(w, h, ny, nx) && Adjacent(y, x, ny, nx)
    requires ov[ny][nx] == Blank && f[ny][nx] == Count(0)
    requires Reveals(f, Set(ov, ny, nx, f[ny][nx]), next, w, h) && Reveals(f, next, r, w, h)
    requires Route(Set(ov, ny, nx, f[ny][nx]), next, w, h, q, ny, nx, a, b)
    ensures Route(ov, r, w, h, p, y, x, a, b)
  {
    var ov1 := Set(ov, ny, nx, f[ny][nx]);
    assert Reveals(f, ov, ov1, w, h);
    RouteWidens(f, ov, ov1, next, r, w, h, q, ny, nx, a, b);
    p := Via(ny, nx, q);
  }

  /** A cell the step left alone keeps the route the rest of the flood took to it. */
  lemma RouteSkip(f: Grid, ov: Grid, next: Grid, r: Grid, w: int, h: int, p: Path, y: int, x: int, a: int, b: int)
    requires Reveals(f, ov, next, w, h) && Reveals(f, next, r, w, h) && InBounds(w, h, a, b)
    requires next[a][b] == ov[a][b]
    requires r[a][b] != next[a][b] ==> Route(next, r, w, h, p, y, x, a, b)
    ensures r[a][b] != ov[a][b] ==> Route(ov, r, w, h, p, y, x, a, b)
  {
    if r[a][b] != ov[a][b] {
      assert Reveals(f, r, r, w, h);
      RouteWidens(f, ov, next, r, r, w, h, p, y, x, a, b);
    }
  }

  /** The flood from row `y`, column `x`, with the route it took to each cell it changed. */
  lemma {:induction false} ScoutRoute(ov: Grid, f: Grid, w: int, h: int, x: int, y: int, k: int, a: int, b: int)
    returns (r: Grid, p: Path)
    requires IsGrid(ov, w, h) && IsGrid(f, w, h) && 0 <= k <= 8 && InBounds(w, h, a, b)
    ensures r == Scout(ov, f, w, h, x, y, k)
    ensures r[a][b] != ov[a][b] ==> Route(ov, r, w, h, p, y, x, a, b)
    decreases CountOf(ov, Blank), 8 - k
  {
    r, p := ov, Arrive;
    if k < 8 {
      var next := ScoutStep(ov, f, w, h, x, y, k);
      r, p := ScoutRoute(next, f, w, h, x, y, k + 1, a, b);
      if next[a][b] == ov[a][b] {
        RouteSkip(f, ov, next, r, w, h, p, y, x, a, b);
      } else {
        var ny, nx := Neighbour(y, x, k).0, Neighbour(y, x, k).1;
        if a == ny && b == nx {
          p := Arrive;
        } else {
          var ov1 := Set(ov, ny, nx, f[ny][nx]);
          CountOfSet(ov, ny, nx, f[ny][nx], Blank);
          var _, q := ScoutRoute(ov1, f, w, h, nx, ny, 0, a, b);
          p := RouteThroughZero(f, ov, next, r, w, h, y, x, ny, nx, a, b, q);
        }
      }
    }
  }

  /**
    The flood reaches exactly as far as the source's recursion: each cell it
    changes is reached from the start cell through a chain of adjacent 0s the
    flood itself uncovered.
   */
  lemma ScoutReach(ov: Grid, f: Grid, w: int, h: int, x: int, y: int, k: int, a: int, b: int)
    requires IsGrid(ov, w, h) && IsGrid(f, w, h) && 0 <= k <= 8 && InBounds(w, h, a, b)
    ensures Scout(ov, f, w, h, x, y, k)[a][b] != ov[a][b] ==> ReachedFrom(ov, Scout(ov, f, w, h, x, y, k), w, h, y, x, a, b)
  {
    var r, p := ScoutRoute(ov, f, w, h, x, y, k, a, b);
  }

  /**
    The reveal of the blank, mine-free cell at row `y`, column `x`: it shows
    its hidden value, and a 0 then floods its neighbourhood.
   */
  function RevealCell(ov: Grid, f: Grid, w: int, h: int, x: int, y: int): (r: Grid)
    requires IsGrid(ov, w, h) && IsGrid(f, w, h) && InBounds(w, h, y, x)
    requires ov[y][x] == Blank && f[y][x] != Mine
    ensures Reveals(f, ov, r, w, h)
    ensures r[y][x] == f[y][x]
    ensures f[y][x] != Count(0) ==> forall i, j :: InBounds(w, h, i, j) && (i != y || j != x) ==> r[i][j] == ov[i][j]
    ensures f[y][x] != Blank ==> CountOf(r, Blank) < CountOf(ov, Blank)
  {
    var ov1 := Set(ov, y, x, f[y][x]);
    CountOfSet(ov, y, x, f[y][x], Blank);
    if f[y][x] == Count(0) then
      var r := Scout(ov1, f, w, h, x, y, 0);
      RevealsTrans(f, ov, ov1, r, w, h);
      r
    else ov1
  }

  /**
    A reveal uncovers nothing beyond the target and the cells reached from it
    through 0s the reveal uncovered: it stays inside the region the source's
    recursion visits.
   */
  lemma RevealReach(ov: Grid, f: Grid, w: int, h: int, x: int, y: int, a: int, b: int)
    requires IsGrid(ov, w, h) && IsGrid(f, w, h) && InBounds(w, h, y, x)
    requires ov[y][x] == Blank && f[y][x] != Mine && InBounds(w, h, a, b)
    ensures var r := RevealCell(ov, f, w, h, x, y);
      r[a][b] != ov[a][b] ==> (a == y && b == x) || ReachedFrom(ov, r, w, h, y, x, a, b)
  {
    var r := RevealCell(ov, f, w, h, x, y);
    if f[y][x] == Count(0) && r[a][b] != ov[a][b] && (a != y || b != x) {
      var ov1 := Set(ov, y, x, f[y][x]);
      assert r == Scout(ov1, f, w, h, x, y, 0);
      var _, p := ScoutRoute(ov1, f, w, h, x, y, 0, a, b);
      assert Reveals(f, ov, ov1, w, h);
      RouteWidens(f, ov, ov1, r, r, w, h, p, y, x, a, b);
    }
  }

  /** No in-grid neighbour of row `i`, column `j` is blank in `g`. */
  ghost predicate NoBlankAround(g: Grid, w: int, h: int, i: int, j: int)
    requires IsGrid(g, w, h)
  {
    forall a, b :: InBounds(w, h, a, b) && Adjacent(i, j, a, b) ==> g[a][b] != Blank
  }

  /** Around a 0 of a counted field, a settled neighbourhood is a fully scouted one. */
  lemma SettledZeroIsShown(r: Grid, f: Grid, w: int, h: int, i: int, j: int)
    requires IsGrid(r, w, h) && IsGrid(f, w, h) && Counted(f, w, h)
    requires InBounds(w, h, i, j) && f[i][j] == Count(0)
    requires SettledAround(r, f, w, h, i, j, 0)
    ensures NoBlankAround(r, w, h, i, j)
  {
    forall a, b | InBounds(w, h, a, b) && Adjacent(i, j, a, b)
      ensures r[a][b] != Blank
    {
      var d := OffsetOf(i, j, a, b);
      assert Settled(r, f, w, h, Neighbour(i, j, d).0, Neighbour(i, j, d).1);
      ZeroHasNoMineNeighbour(f, w, h, i, j, a, b);
    }
  }

  /**
    Revealing a 0 of a counted field leaves no blank cell next to the start
    cell or next to any other 0 the flood uncovered.
   */
  lemma FloodLeavesNoBlankNeighbour(ov: Grid, f: Grid, w: int, h: int, x: int, y: int)
    requires IsGrid(ov, w, h) && IsGrid(f, w, h) && Counted(f, w, h)
    requires InBounds(w, h, y, x) && ov[y][x] == Blank && f[y][x] == Count(0)
    ensures forall i, j :: InBounds(w, h, i, j) && ov[i][j] == Blank && RevealCell(ov, f, w, h, x, y)[i][j] == Count(0) ==>
      NoBlankAround(RevealCell(ov, f, w, h, x, y), w, h, i, j)
  {
    var ov1 := Set(ov, y, x, f[y][x]);
    var r := Scout(ov1, f, w, h, x, y, 0);
    assert r == RevealCell(ov, f, w, h, x, y);
    ScoutSettlesStart(ov1, f, w, h, x, y, 0);
    forall i, j | InBounds(w, h, i, j) && ov[i][j] == Blank && r[i][j] == Count(0)
      ensures NoBlankAround(r, w, h, i, j)
    {
      assert f[i][j] == Count(0);
      if i != y || j != x {
        ScoutSettlesFlood(ov1, f, w, h, x, y, 0, i, j);
      }
      SettledZeroIsShown(r, f, w, h, i, j);
    }
  }
}
