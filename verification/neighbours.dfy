/**
  The eight-neighbourhood of a cell, walked in the order of the source's
  SURROUND_MATRIX, and the count of mines around a cell.
 */
module Neighbours {
  import opened Cells
  import opened Grids

  /** SURROUND_MATRIX: `(dy, dx)` offsets, up-left first, down-right last. */
  const Offsets: seq<(int, int)> := [(-1, -1), (-1, 0), (-1, 1), (0, -1), (0, 1), (1, -1), (1, 0), (1, 1)]

  /** `(a, b)` is one of the eight cells around `(i, j)`. */
  predicate Adjacent(i: int, j: int, a: int, b: int) {
    (a != i || b != j) && -1 <= a - i <= 1 && -1 <= b - j <= 1
  }

  /** The cell at offset number `d` from `(i, j)`. */
  function Neighbour(i: int, j: int, d: int): (p: (int, int))
    requires 0 <= d < 8
    ensures Adjacent(i, j, p.0, p.1)
  {
    (i + Offsets[d].0, j + Offsets[d].1)
  }

  /** The offset number that leads from `(i, j)` to the adjacent `(a, b)`. */
  function OffsetOf(i: int, j: int, a: int, b: int): (d: int)
    requires Adjacent(i, j, a, b)
    ensures 0 <= d < 8 && Neighbour(i, j, d) == (a, b)
  {
    if a == i - 1 then b - j + 1
    else if a == i then (if b == j - 1 then 3 else 4)
    else b - j + 6
  }

  /** Each offset leads to a different cell, so walking the offsets visits no neighbour twice. */
  lemma OffsetsDistinct(i: int, j: int, d: int, e: int)
    requires 0 <= d < 8 && 0 <= e < 8
    ensures Neighbour(i, j, d) == Neighbour(i, j, e) ==> d == e
  {
    if Neighbour(i, j, d) == Neighbour(i, j, e) {
      assert OffsetOf(i, j, Neighbour(i, j, d).0, Neighbour(i, j, d).1) == d;
    }
  }

  /** The in-grid mines around `(i, j)`: the true neighbour count is the size of this set. */
  function MineNeighbours(f: Grid, w: int, h: int, i: int, j: int): set<(int, int)>
    requires IsGrid(f, w, h)
  {
    set a, b | 0 <= a < h && 0 <= b < w && Adjacent(i, j, a, b) && f[a][b] == Mine :: (a, b)
  }

  /**
    The inner loop of the source's counting pass: the mines met walking the
    offsets from number `k` on, out-of-grid neighbours skipped.
   */
  function OffsetMines(f: Grid, w: int, h: int, i: int, j: int, k: int): (n: nat)
    requires IsGrid(f, w, h) && 0 <= k <= 8
    ensures n <= 8 - k
    decreases 8 - k
  {
    if k == 8 then 0
    else
      var p := Neighbour(i, j, k);
      Ind(InBounds(w, h, p.0, p.1) && f[p.0][p.1] == Mine) + OffsetMines(f, w, h, i, j, k + 1)
  }

  /** The mines around `(i, j)` reached by offsets numbered `k` or more. */
  function MinesFrom(f: Grid, w: int, h: int, i: int, j: int, k: int): set<(int, int)>
    requires IsGrid(f, w, h) && 0 <= k <= 8
    decreases 8 - k
  {
    if k == 8 then {}
    else
      var p := Neighbour(i, j, k);
      (if InBounds(w, h, p.0, p.1) && f[p.0][p.1] == Mine then {p} else {}) + MinesFrom(f, w, h, i, j, k + 1)
  }

  lemma {:induction false} MinesFromMember(f: Grid, w: int, h: int, i: int, j: int, k: int, p: (int, int))
    requires IsGrid(f, w, h) && 0 <= k <= 8
    ensures p in MinesFrom(f, w, h, i, j, k) <==>
      Adjacent(i, j, p.0, p.1) && OffsetOf(i, j, p.0, p.1) >= k && InBounds(w, h, p.0, p.1) && f[p.0][p.1] == Mine
    decreases 8 - k
  {
    if k < 8 {
      MinesFromMember(f, w, h, i, j, k + 1, p);
      if p == Neighbour(i, j, k) {
        OffsetsDistinct(i, j, k, OffsetOf(i, j, p.0, p.1));
      }
    }
  }

  lemma {:induction false} OffsetMinesFrom(f: Grid, w: int, h: int, i: int, j: int, k: int)
    requires IsGrid(f, w, h) && 0 <= k <= 8
    ensures OffsetMines(f, w, h, i, j, k) == |MinesFrom(f, w, h, i, j, k)|
    decreases 8 - k
  {
    if k < 8 {
      OffsetMinesFrom(f, w, h, i, j, k + 1);
      var p := Neighbour(i, j, k);
      var rest := MinesFrom(f, w, h, i, j, k + 1);
      var mine := InBounds(w, h, p.0, p.1) && f[p.0][p.1] == Mine;
      var here: set<(int, int)> := if mine then {p} else {};
      assert MinesFrom(f, w, h, i, j, k) == here + rest;
      assert OffsetMines(f, w, h, i, j, k) == Ind(mine) + OffsetMines(f, w, h, i, j, k + 1);
      MinesFromMember(f, w, h, i, j, k + 1, p);
      OffsetsDistinct(i, j, k, OffsetOf(i, j, p.0, p.1));
      assert p !in rest;
      assert |here| == Ind(mine);
      assert |here + rest| == |here| + |rest|;
    }
  }

  lemma NeighboursWithinOffsets(f: Grid, w: int, h: int, i: int, j: int)
    requires IsGrid(f, w, h)
    ensures MineNeighbours(f, w, h, i, j) <= MinesFrom(f, w, h, i, j, 0)
  {
    forall p | p in MineNeighbours(f, w, h, i, j)
      ensures p in MinesFrom(f, w, h, i, j, 0)
    {
      var a, b :| 0 <= a < h && 0 <= b < w && Adjacent(i, j, a, b) && f[a][b] == Mine && p == (a, b);
      MinesFromMember(f, w, h, i, j, 0, p);
    }
  }

  lemma OffsetsWithinNeighbours(f: Grid, w: int, h: int, i: int, j: int)
    requires IsGrid(f, w, h)
    ensures MinesFrom(f, w, h, i, j, 0) <= MineNeighbours(f, w, h, i, j)
  {
    forall p | p in MinesFrom(f, w, h, i, j, 0)
      ensures p in MineNeighbours(f, w, h, i, j)
    {
      MinesFromMember(f, w, h, i, j, 0, p);
      var (a, b) := p;
      assert 0 <= a < h && 0 <= b < w && Adjacent(i, j, a, b) && f[a][b] == Mine;
    }
  }

  /** Walking the eight offsets counts exactly the in-grid mines adjacent to the cell. */
  lemma OffsetMinesCountsNeighbours(f: Grid, w: int, h: int, i: int, j: int)
    requires IsGrid(f, w, h)
    ensures OffsetMines(f, w, h, i, j, 0) == |MineNeighbours(f, w, h, i, j)|
  {
    OffsetMinesFrom(f, w, h, i, j, 0);
    NeighboursWithinOffsets(f, w, h, i, j);
    OffsetsWithinNeighbours(f, w, h, i, j);
    SubsetsEqual(MinesFrom(f, w, h, i, j, 0), MineNeighbours(f, w, h, i, j));
  }

  lemma SubsetsEqual<T>(s: set<T>, t: set<T>)
    requires s <= t && t <= s
    ensures |s| == |t|
  {
    assert s == t;
  }

  /** At most eight mines surround a cell. */
  lemma MineNeighboursBound(f: Grid, w: int, h: int, i: int, j: int)
    requires IsGrid(f, w, h)
    ensures |MineNeighbours(f, w, h, i, j)| <= 8
  {
    OffsetMinesCountsNeighbours(f, w, h, i, j);
  }

  /** The mine count around a cell depends only on where the mines are. */
  lemma {:induction false} OffsetMinesSameMines(f: Grid, g: Grid, w: int, h: int, i: int, j: int, k: int)
    requires IsGrid(f, w, h) && IsGrid(g, w, h) && 0 <= k <= 8
    requires forall a, b :: InBounds(w, h, a, b) ==> (f[a][b] == Mine <==> g[a][b] == Mine)
    ensures OffsetMines(f, w, h, i, j, k) == OffsetMines(g, w, h, i, j, k)
    decreases 8 - k
  {
    if k < 8 {
      OffsetMinesSameMines(f, g, w, h, i, j, k + 1);
    }
  }

  /**
    Every safe cell holds the number of mines around it: the field after the
    source's counting pass.
   */
  ghost predicate Counted(f: Grid, w: int, h: int)
    requires IsGrid(f, w, h)
  {
    forall i, j :: InBounds(w, h, i, j) ==>
      f[i][j] == Mine || (f[i][j].Count? && f[i][j].n == |MineNeighbours(f, w, h, i, j)|)
  }

  /** In a counted field no mine touches a cell that holds 0. */
  lemma ZeroHasNoMineNeighbour(f: Grid, w: int, h: int, i: int, j: int, a: int, b: int)
    requires IsGrid(f, w, h) && Counted(f, w, h)
    requires InBounds(w, h, i, j) && f[i][j] == Count(0)
    requires InBounds(w, h, a, b) && Adjacent(i, j, a, b)
    ensures f[a][b] != Mine
  {
    assert f[a][b] == Mine ==> (a, b) in MineNeighbours(f, w, h, i, j);
  }
}
