/**
  Rectangular grids of cells, indexed `g[row][col]`, and the per-value cell
  count the source computes with `row.count(' ')` summed over the rows.
 */
module Grids {
  import opened Cells

  type Grid = seq<seq<Cell>>

  /** `g` has `h` rows of `w` cells each. */
  predicate IsGrid(g: Grid, w: int, h: int) {
    |g| == h && forall i :: 0 <= i < |g| ==> |g[i]| == w
  }

  predicate InBounds(w: int, h: int, i: int, j: int) {
    0 <= i < h && 0 <= j < w
  }

  /** A `h` by `w` grid whose every cell is `c`. */
  function Fill(w: nat, h: nat, c: Cell): (g: Grid)
    ensures IsGrid(g, w, h)
    ensures forall i, j :: InBounds(w, h, i, j) ==> g[i][j] == c
  {
    seq(h, _ => seq(w, _ => c))
  }

  /** `g` with the one cell at row `i`, column `j` replaced by `c`. */
  function Set(g: Grid, i: int, j: int, c: Cell): (r: Grid)
    requires 0 <= i < |g| && 0 <= j < |g[i]|
    ensures |r| == |g| && forall k :: 0 <= k < |g| ==> |r[k]| == |g[k]|
    ensures r[i][j] == c
    ensures forall a, b :: 0 <= a < |g| && 0 <= b < |g[a]| && (a != i || b != j) ==> r[a][b] == g[a][b]
  {
    g[i := g[i][j := c]]
  }

  function Ind(b: bool): nat {
    if b then 1 else 0
  }

  /** How many cells of `row` equal `c`. */
  function RowCount(row: seq<Cell>, c: Cell): (n: nat)
    ensures n <= |row|
  {
    if row == [] then 0 else Ind(row[0] == c) + RowCount(row[1..], c)
  }

  /** How many cells of `g` equal `c`; `CountOf(g, Blank)` is count_uncleared_cells. */
  function CountOf(g: Grid, c: Cell): nat {
    if g == [] then 0 else RowCount(g[0], c) + CountOf(g[1..], c)
  }

  /** A grid of `h` rows of `w` cells holds at most `w * h` cells of any value. */
  lemma {:induction false} CountOfBound(g: Grid, w: int, h: int, c: Cell)
    requires IsGrid(g, w, h)
    ensures CountOf(g, c) <= w * h
  {
    if g != [] {
      CountOfBound(g[1..], w, h - 1, c);
      assert w * (h - 1) + w == w * h;
    }
  }

  lemma {:induction false} RowCountUpdate(row: seq<Cell>, j: int, v: Cell, c: Cell)
    requires 0 <= j < |row|
    ensures RowCount(row[j := v], c) == RowCount(row, c) - Ind(row[j] == c) + Ind(v == c)
  {
    if j == 0 {
      assert row[j := v][1..] == row[1..];
    } else {
      assert row[j := v][1..] == row[1..][j - 1 := v];
      RowCountUpdate(row[1..], j - 1, v, c);
    }
  }

  /** Replacing one cell changes the count of `c` by at most the one cell. */
  lemma {:induction false} CountOfSet(g: Grid, i: int, j: int, v: Cell, c: Cell)
    requires 0 <= i < |g| && 0 <= j < |g[i]|
    ensures CountOf(Set(g, i, j, v), c) == CountOf(g, c) - Ind(g[i][j] == c) + Ind(v == c)
  {
    if i == 0 {
      assert Set(g, i, j, v)[1..] == g[1..];
      RowCountUpdate(g[0], j, v, c);
    } else {
      assert Set(g, i, j, v)[1..] == Set(g[1..], i - 1, j, v);
      CountOfSet(g[1..], i - 1, j, v, c);
    }
  }

  /** A grid holding `c` somewhere has a positive count of `c`. */
  lemma CountOfPositive(g: Grid, i: int, j: int, c: Cell, d: Cell)
    requires 0 <= i < |g| && 0 <= j < |g[i]| && g[i][j] == c && d != c
    ensures CountOf(g, c) >= 1
  {
    CountOfSet(g, i, j, d, c);
  }

  lemma {:induction false} RowCountAbsent(row: seq<Cell>, c: Cell)
    requires forall k :: 0 <= k < |row| ==> row[k] != c
    ensures RowCount(row, c) == 0
  {
    if row != [] {
      assert forall k :: 0 <= k < |row| - 1 ==> row[1..][k] == row[k + 1];
      RowCountAbsent(row[1..], c);
    }
  }

  /** A grid with no cell equal to `c` counts no `c`. */
  lemma {:induction false} CountOfAbsent(g: Grid, w: int, h: int, c: Cell)
    requires IsGrid(g, w, h)
    requires forall i, j :: InBounds(w, h, i, j) ==> g[i][j] != c
    ensures CountOf(g, c) == 0
  {
    if g != [] {
      assert forall k :: 0 <= k < |g[0]| ==> InBounds(w, h, 0, k);
      RowCountAbsent(g[0], c);
      assert forall i, j :: InBounds(w, h - 1, i, j) ==> g[1..][i][j] == g[i + 1][j];
      CountOfAbsent(g[1..], w, h - 1, c);
    }
  }

  lemma {:induction false} RowCountFill(w: nat, c: Cell, d: Cell)
    ensures RowCount(seq(w, _ => c), d) == if c == d then w else 0
  {
    if w > 0 {
      assert seq(w, _ => c)[1..] == seq(w - 1, _ => c);
      RowCountFill(w - 1, c, d);
    }
  }

  /** A filled grid holds `w * h` cells of its fill value and none of any other. */
  lemma {:induction false} CountOfFill(w: nat, h: nat, c: Cell, d: Cell)
    ensures CountOf(Fill(w, h, c), d) == if c == d then w * h else 0
  {
    if h > 0 {
      assert Fill(w, h, c)[1..] == Fill(w, h - 1, c);
      assert Fill(w, h, c)[0] == seq(w, _ => c);
      RowCountFill(w, c, d);
      CountOfFill(w, h - 1, c, d);
      assert w * (h - 1) + w == w * h;
    }
  }

  lemma {:induction false} RowCountsAgree(a: seq<Cell>, b: seq<Cell>, ca: Cell, cb: Cell)
    requires |a| == |b|
    requires forall k :: 0 <= k < |a| ==> (a[k] == ca <==> b[k] == cb)
    ensures RowCount(a, ca) == RowCount(b, cb)
  {
    if a != [] {
      assert forall k :: 0 <= k < |a| - 1 ==> a[1..][k] == a[k + 1] && b[1..][k] == b[k + 1];
      RowCountsAgree(a[1..], b[1..], ca, cb);
    }
  }

  /** Two grids of one shape that hold `ca` and `cb` at the same places hold as many of each. */
  lemma {:induction false} CountsAgree(a: Grid, b: Grid, w: int, h: int, ca: Cell, cb: Cell)
    requires IsGrid(a, w, h) && IsGrid(b, w, h)
    requires forall i, j :: InBounds(w, h, i, j) ==> (a[i][j] == ca <==> b[i][j] == cb)
    ensures CountOf(a, ca) == CountOf(b, cb)
  {
    if a != [] {
      RowCountsAgree(a[0], b[0], ca, cb);
      assert forall i, j :: InBounds(w, h - 1, i, j) ==> a[1..][i][j] == a[i + 1][j] && b[1..][i][j] == b[i + 1][j];
      CountsAgree(a[1..], b[1..], w, h - 1, ca, cb);
    }
  }

  lemma {:induction false} RowDominance(a: seq<Cell>, b: seq<Cell>, ca: Cell, cb: Cell)
    requires |a| == |b|
    requires forall k :: 0 <= k < |a| && b[k] == cb ==> a[k] == ca
    ensures RowCount(a, ca) >= RowCount(b, cb)
    ensures RowCount(a, ca) == RowCount(b, cb) <==> forall k :: 0 <= k < |a| && a[k] == ca ==> b[k] == cb
  {
    if a != [] {
      assert forall k :: 0 <= k < |a| - 1 ==> a[1..][k] == a[k + 1] && b[1..][k] == b[k + 1];
      RowDominance(a[1..], b[1..], ca, cb);
      if RowCount(a, ca) == RowCount(b, cb) {
        forall k | 0 <= k < |a| && a[k] == ca
          ensures b[k] == cb
        {
          if k > 0 {
            assert a[1..][k - 1] == a[k];
          }
        }
      }
    }
  }

  /**
    When every `cb` cell of `b` is a `ca` cell of `a`, `a` has at least as many
    `ca` cells, and exactly as many only when the `ca` cells of `a` are all `cb`
    cells of `b`.
   */
  lemma {:induction false} CountDominance(a: Grid, b: Grid, w: int, h: int, ca: Cell, cb: Cell)
    requires IsGrid(a, w, h) && IsGrid(b, w, h)
    requires forall i, j :: InBounds(w, h, i, j) && b[i][j] == cb ==> a[i][j] == ca
    ensures CountOf(a, ca) >= CountOf(b, cb)
    ensures CountOf(a, ca) == CountOf(b, cb) <==> forall i, j :: InBounds(w, h, i, j) && a[i][j] == ca ==> b[i][j] == cb
  {
    if a != [] {
      RowDominance(a[0], b[0], ca, cb);
      assert forall i, j :: InBounds(w, h - 1, i, j) ==> a[1..][i][j] == a[i + 1][j] && b[1..][i][j] == b[i + 1][j];
      CountDominance(a[1..], b[1..], w, h - 1, ca, cb);
      if CountOf(a, ca) == CountOf(b, cb) {
        forall i, j | InBounds(w, h, i, j) && a[i][j] == ca
          ensures b[i][j] == cb
        {
          if i > 0 {
            assert a[1..][i - 1][j] == a[i][j];
          }
        }
      }
    }
  }
}
