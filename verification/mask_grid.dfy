/** The patch mask as a value: rows of integer cells, 0 for a visible patch and
    1 for a masked one, with the sums and the block update that the sampler uses. */
module MaskGrid {

  /** Row a, column b of a grid g is g[a][b]. */
  type Grid = seq<seq<int>>

  /** A rectangular block of h rows and w columns whose top-left cell is (top, left). */
  datatype Block = Block(h: nat, w: nat, top: nat, left: nat)

  function Min(x: int, y: int): int { if x <= y then x else y }

  /** Every row has exactly `width` cells. */
  predicate Rows(g: Grid, width: nat) {
    forall a :: 0 <= a < |g| ==> |g[a]| == width
  }

  /** g is a height x width grid. */
  predicate Shaped(g: Grid, height: nat, width: nat) {
    |g| == height && Rows(g, width)
  }

  /** Every cell is 0 or 1. */
  predicate Binary(g: Grid) {
    forall a, b :: 0 <= a < |g| && 0 <= b < |g[a]| ==> g[a][b] == 0 || g[a][b] == 1
  }

  /** g2 differs from g1 only by cells that went from 0 to 1. */
  predicate Grows(g1: Grid, g2: Grid) {
    |g2| == |g1| &&
    (forall a :: 0 <= a < |g1| ==> |g2[a]| == |g1[a]|) &&
    forall a, b :: 0 <= a < |g1| && 0 <= b < |g1[a]| ==>
      g2[a][b] == g1[a][b] || (g1[a][b] == 0 && g2[a][b] == 1)
  }

  /** Cell (a, b) lies in block c. */
  predicate InBlock(c: Block, a: int, b: int) {
    c.top <= a < c.top + c.h && c.left <= b < c.left + c.w
  }

  /** Block c lies entirely inside a height x width grid. */
  predicate Inside(c: Block, height: nat, width: nat) {
    c.top + c.h <= height && c.left + c.w <= width
  }

  /** A height x width grid of zeros: a fresh, unmasked window. Its ensures
      only spell out the comprehension for the proofs. */
  function Empty(height: nat, width: nat): (g: Grid)
    ensures Shaped(g, height, width) && Binary(g)
    ensures forall a, b :: 0 <= a < height && 0 <= b < width ==> g[a][b] == 0
  {
    seq(height, a => seq(width, b => 0))
  }

  /** Sum of row[lo..hi]; empty when hi <= lo. */
  function RowSum(row: seq<int>, lo: nat, hi: nat): int
    requires hi <= |row|
    decreases hi
  {
    if hi <= lo then 0 else RowSum(row, lo, hi - 1) + row[hi - 1]
  }

  /** Number of zero cells in row[lo..hi]; empty when hi <= lo. */
  function RowUnset(row: seq<int>, lo: nat, hi: nat): nat
    requires hi <= |row|
    decreases hi
  {
    if hi <= lo then 0 else RowUnset(row, lo, hi - 1) + (if row[hi - 1] == 0 then 1 else 0)
  }

  /** Sum of the cells in rows top..bottom, columns lo..hi. */
  function RegionSum(g: Grid, top: nat, bottom: nat, lo: nat, hi: nat): int
    requires bottom <= |g|
    requires forall a :: top <= a < bottom ==> hi <= |g[a]|
    decreases bottom
  {
    if bottom <= top then 0 else RegionSum(g, top, bottom - 1, lo, hi) + RowSum(g[bottom - 1], lo, hi)
  }

  /** Number of zero cells in rows top..bottom, columns lo..hi. */
  function RegionUnset(g: Grid, top: nat, bottom: nat, lo: nat, hi: nat): nat
    requires bottom <= |g|
    requires forall a :: top <= a < bottom ==> hi <= |g[a]|
    decreases bottom
  {
    if bottom <= top then 0 else RegionUnset(g, top, bottom - 1, lo, hi) + RowUnset(g[bottom - 1], lo, hi)
  }

  /** Sum of all cells of the first n rows. */
  function TotalRows(g: Grid, n: nat): int
    requires n <= |g|
  {
    if n == 0 then 0 else TotalRows(g, n - 1) + RowSum(g[n - 1], 0, |g[n - 1]|)
  }

  /** Sum of the whole grid: for a 0/1 grid, the number of masked cells. */
  function Count(g: Grid): int {
    TotalRows(g, |g|)
  }

  /** Sum of the cells of block c (numpy's mask[top:top+h, left:left+w].sum()). */
  function BlockSum(g: Grid, c: Block): int
    requires c.top + c.h <= |g| && forall a :: c.top <= a < c.top + c.h ==> c.left + c.w <= |g[a]|
  {
    RegionSum(g, c.top, c.top + c.h, c.left, c.left + c.w)
  }

  /** Number of zero cells of block c. */
  function BlockUnset(g: Grid, c: Block): nat
    requires c.top + c.h <= |g| && forall a :: c.top <= a < c.top + c.h ==> c.left + c.w <= |g[a]|
  {
    RegionUnset(g, c.top, c.top + c.h, c.left, c.left + c.w)
  }

  /** row with every zero cell in columns lo..hi set to 1. */
  function FillRow(row: seq<int>, lo: nat, hi: nat): (r: seq<int>)
    ensures |r| == |row|
  {
    seq(|row|, b requires 0 <= b < |row| => if lo <= b < hi && row[b] == 0 then 1 else row[b])
  }

  /** g with every zero cell of block c set to 1. */
  function Fill(g: Grid, c: Block): (r: Grid)
    ensures |r| == |g|
  {
    seq(|g|, a requires 0 <= a < |g| =>
      if c.top <= a < c.top + c.h then FillRow(g[a], c.left, c.left + c.w) else g[a])
  }

  /** Filling a block only turns cells inside it from 0 to 1: nothing outside the
      block changes, and on a 0/1 grid the whole block ends up masked. */
  lemma FillEffect(g: Grid, c: Block)
    ensures Grows(g, Fill(g, c))
    ensures forall a, b :: 0 <= a < |g| && 0 <= b < |g[a]| && !InBlock(c, a, b) ==> Fill(g, c)[a][b] == g[a][b]
    ensures Binary(g) ==> Binary(Fill(g, c))
    ensures Binary(g) ==> forall a, b :: 0 <= a < |g| && 0 <= b < |g[a]| && InBlock(c, a, b) ==> Fill(g, c)[a][b] == 1
  {
  }

  /** Filling a block keeps the grid's shape, keeps a 0/1 grid 0/1, and only
      turns cells from 0 to 1. */
  lemma FillShape(g: Grid, c: Block, height: nat, width: nat)
    requires Shaped(g, height, width) && Binary(g)
    ensures Shaped(Fill(g, c), height, width) && Binary(Fill(g, c)) && Grows(g, Fill(g, c))
  {
  }

  /** Two grids of the same shape that agree on every cell are equal. */
  lemma {:induction false} GridExt(g1: Grid, g2: Grid)
    requires |g1| == |g2|
    requires forall a :: 0 <= a < |g1| ==> |g1[a]| == |g2[a]|
    requires forall a, b :: 0 <= a < |g1| && 0 <= b < |g1[a]| ==> g1[a][b] == g2[a][b]
    ensures g1 == g2
  {
    forall a | 0 <= a < |g1|
      ensures g1[a] == g2[a]
    {
      assert forall b :: 0 <= b < |g1[a]| ==> g1[a][b] == g2[a][b];
    }
  }

  /** In a 0/1 row, the zeros and the sum of a range add up to its length. */
  lemma {:induction false} RowSumUnset(row: seq<int>, lo: nat, hi: nat)
    requires lo <= hi <= |row|
    requires forall b :: 0 <= b < |row| ==> row[b] == 0 || row[b] == 1
    ensures RowSum(row, lo, hi) + RowUnset(row, lo, hi) == hi - lo
    decreases hi
  {
    if lo < hi {
      RowSumUnset(row, lo, hi - 1);
    }
  }

  /** In a 0/1 region, the zeros and the sum add up to its area. */
  lemma {:induction false} RegionSumUnset(g: Grid, top: nat, bottom: nat, lo: nat, hi: nat)
    requires top <= bottom <= |g| && lo <= hi
    requires forall a :: top <= a < bottom ==> hi <= |g[a]|
    requires Binary(g)
    ensures RegionSum(g, top, bottom, lo, hi) + RegionUnset(g, top, bottom, lo, hi) == (bottom - top) * (hi - lo)
    decreases bottom
  {
    if top < bottom {
      RegionSumUnset(g, top, bottom - 1, lo, hi);
      RowSumUnset(g[bottom - 1], lo, hi);
      assert (bottom - top) * (hi - lo) == (bottom - 1 - top) * (hi - lo) + (hi - lo);
    }
  }

  /** The zeros of a block of a 0/1 grid are its area minus its sum: the number of
      cells the sampler's guard counts as newly masked. */
  lemma BlockUnsetIsAreaMinusSum(g: Grid, c: Block, height: nat, width: nat)
    requires Shaped(g, height, width) && Binary(g) && Inside(c, height, width)
    ensures BlockUnset(g, c) == c.h * c.w - BlockSum(g, c)
  {
    RegionSumUnset(g, c.top, c.top + c.h, c.left, c.left + c.w);
  }

  /** Filling columns lo..hi raises the sum of a row prefix by the zeros it covers. */
  lemma {:induction false} FillRowSum(row: seq<int>, lo: nat, hi: nat, n: nat)
    requires lo <= hi <= |row| && n <= |row|
    ensures RowSum(FillRow(row, lo, hi), 0, n) == RowSum(row, 0, n) + RowUnset(row, lo, Min(hi, n))
  {
    if n > 0 {
      FillRowSum(row, lo, hi, n - 1);
    }
  }

  /** When grid f differs from g by having each row in top..bottom raised by
      that row's zeros in columns lo..hi, the sum of the first n rows is raised
      by the zeros of that region within those rows. */
  lemma {:induction false} TotalRowsRaised(f: Grid, g: Grid, top: nat, bottom: nat, lo: nat, hi: nat, n: nat)
    requires |f| == |g| && n <= |g|
    requires forall a :: top <= a < bottom && a < |g| ==> hi <= |g[a]|
    requires forall a :: 0 <= a < |g| ==>
      RowSum(f[a], 0, |f[a]|) ==
      RowSum(g[a], 0, |g[a]|) + (if top <= a < bottom then RowUnset(g[a], lo, hi) else 0)
    ensures TotalRows(f, n) == TotalRows(g, n) + RegionUnset(g, top, Min(bottom, n), lo, hi)
  {
    if n > 0 {
      var row := n - 1;
      TotalRowsRaised(f, g, top, bottom, lo, hi, row);
      if row < top {
        assert Min(bottom, n) <= top && Min(bottom, row) <= top;
      } else if row < bottom {
        assert Min(bottom, n) == n && Min(bottom, row) == row;
      } else {
        assert Min(bottom, n) == bottom && Min(bottom, row) == bottom;
      }
    }
  }

  /** The whole-grid form of TotalRowsRaised. */
  lemma CountRaised(f: Grid, g: Grid, top: nat, bottom: nat, lo: nat, hi: nat)
    requires |f| == |g| && bottom <= |g|
    requires forall a :: top <= a < bottom && a < |g| ==> hi <= |g[a]|
    requires forall a :: 0 <= a < |g| ==>
      RowSum(f[a], 0, |f[a]|) ==
      RowSum(g[a], 0, |g[a]|) + (if top <= a < bottom then RowUnset(g[a], lo, hi) else 0)
    ensures Count(f) == Count(g) + RegionUnset(g, top, bottom, lo, hi)
  {
    TotalRowsRaised(f, g, top, bottom, lo, hi, |g|);
    assert Min(bottom, |g|) == bottom;
  }

  /** Filling block c raises each row it covers by that row's zeros in the
      block's columns, and leaves the sum of every other row as it was. */
  lemma FillRowsRaised(g: Grid, c: Block, width: nat)
    requires Rows(g, width) && c.left + c.w <= width
    ensures |Fill(g, c)| == |g|
    ensures forall a :: 0 <= a < |g| ==>
      RowSum(Fill(g, c)[a], 0, |Fill(g, c)[a]|) ==
      RowSum(g[a], 0, |g[a]|) + (if c.top <= a < c.top + c.h then RowUnset(g[a], c.left, c.left + c.w) else 0)
  {
    forall a | 0 <= a < |g|
      ensures RowSum(Fill(g, c)[a], 0, |Fill(g, c)[a]|) ==
              RowSum(g[a], 0, |g[a]|) + (if c.top <= a < c.top + c.h then RowUnset(g[a], c.left, c.left + c.w) else 0)
    {
      if c.top <= a < c.top + c.h {
        FillRowSum(g[a], c.left, c.left + c.w, width);
        assert Min(c.left + c.w, width) == c.left + c.w;
      }
    }
  }

  /** Filling block c raises the number of masked cells by exactly the block's zeros. */
  lemma FillCount(g: Grid, c: Block, height: nat, width: nat)
    requires Shaped(g, height, width) && Inside(c, height, width)
    ensures Count(Fill(g, c)) == Count(g) + RegionUnset(g, c.top, c.top + c.h, c.left, c.left + c.w)
  {
    FillRowsRaised(g, c, width);
    CountRaised(Fill(g, c), g, c.top, c.top + c.h, c.left, c.left + c.w);
  }

  /** A fresh window has no masked cell. */
  lemma EmptyCount(height: nat, width: nat)
    ensures Count(Empty(height, width)) == 0
  {
    var g := Empty(height, width);
    for n := 0 to height
      invariant TotalRows(g, n) == 0
    {
      ZeroRowSum(g[n], width);
    }
  }

  lemma {:induction false} ZeroRowSum(row: seq<int>, n: nat)
    requires n <= |row| && forall b :: 0 <= b < |row| ==> row[b] == 0
    ensures RowSum(row, 0, n) == 0
  {
    if n > 0 { ZeroRowSum(row, n - 1); }
  }
}
