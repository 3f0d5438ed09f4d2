/** The patch-mask sampler used for masked-image-modelling pretraining: starting
    from an all-zero height x width grid it adds rectangular blocks of masked
    patches until a target number of patches is masked or a round of attempts
    makes no progress.

    The random draws of the sampler are supplied by an oracle. One attempt draws
    a block size (h, w) and, only when the block fits, a top-left corner; a round
    of the sampler is the sequence of blocks its attempts draw. */
module ImageMasking {
  import opened MaskGrid

  /** Number of candidate blocks one round tries before giving up. */
  const Attempts: nat := 10

  /** The window size: a single number stands for a square window. */
  datatype WindowSize = Square(side: nat) | Rect(height: nat, width: nat)

  datatype Option<T> = None | Some(value: T)

  /** The block fits strictly inside the window in both directions (the size test
      that precedes drawing a corner). */
  predicate Fits(c: Block, height: nat, width: nat) {
    c.w < width && c.h < height
  }

  /** A block the sampler can draw: when it fits, its corner was drawn with
      top in [0, height - h] and left in [0, width - w]. */
  predicate Drawable(c: Block, height: nat, width: nat) {
    Fits(c, height, width) ==> Inside(c, height, width)
  }

  /** The blocks drawn by one round: one per attempt. */
  predicate RoundDraw(cs: seq<Block>, height: nat, width: nat) {
    |cs| == Attempts && forall k :: 0 <= k < |cs| ==> Drawable(cs[k], height, width)
  }

  /** The overlap guard: a fitting block is placed when the number of cells it
      would newly mask is positive and within the budget. */
  predicate Accepts(g: Grid, c: Block, budget: nat, height: nat, width: nat)
    requires Shaped(g, height, width) && Drawable(c, height, width)
  {
    Fits(c, height, width) && 0 < c.h * c.w - BlockSum(g, c) <= budget
  }

  /** What one call of the block placer leaves behind: the grid and the number
      of cells it masked. */
  datatype Round = Round(grid: Grid, delta: nat)

  /** One round of the block placer on grid g: the first block of cs that the
      guard accepts is filled; when none is accepted nothing changes. */
  function MaskRound(g: Grid, cs: seq<Block>, budget: nat, height: nat, width: nat): (r: Round)
    requires Shaped(g, height, width)
    requires forall k :: 0 <= k < |cs| ==> Drawable(cs[k], height, width)
    decreases |cs|
  {
    if cs == [] then Round(g, 0)
    else if Accepts(g, cs[0], budget, height, width) then Round(Fill(g, cs[0]), BlockUnset(g, cs[0]))
    else MaskRound(g, cs[1..], budget, height, width)
  }

  /** Filling a block the guard accepts keeps a 0/1 grid of the same shape and
      masks between 1 and `budget` new cells, which is what the count grows by. */
  lemma AcceptedBlock(g: Grid, c: Block, budget: nat, height: nat, width: nat)
    requires Shaped(g, height, width) && Binary(g) && Drawable(c, height, width)
    requires Accepts(g, c, budget, height, width)
    ensures Shaped(Fill(g, c), height, width) && Binary(Fill(g, c)) && Grows(g, Fill(g, c))
    ensures 0 < BlockUnset(g, c) <= budget
    ensures Count(Fill(g, c)) == Count(g) + BlockUnset(g, c)
  {
    BlockUnsetIsAreaMinusSum(g, c, height, width);
    FillShape(g, c, height, width);
    FillCount(g, c, height, width);
  }

  /** A round on a 0/1 grid leaves a 0/1 grid of the same shape, masks at most
      `budget` new cells, and the number of masked cells grows by exactly the
      reported delta; a round reporting 0 leaves the grid as it was, and cells
      only go from 0 to 1. */
  lemma {:induction false} MaskRoundCount(g: Grid, cs: seq<Block>, budget: nat, height: nat, width: nat)
    requires Shaped(g, height, width) && Binary(g)
    requires forall k :: 0 <= k < |cs| ==> Drawable(cs[k], height, width)
    ensures Shaped(MaskRound(g, cs, budget, height, width).grid, height, width)
    ensures Binary(MaskRound(g, cs, budget, height, width).grid)
    ensures MaskRound(g, cs, budget, height, width).delta <= budget
    ensures Count(MaskRound(g, cs, budget, height, width).grid) == Count(g) + MaskRound(g, cs, budget, height, width).delta
    ensures MaskRound(g, cs, budget, height, width).delta == 0 ==> MaskRound(g, cs, budget, height, width).grid == g
    ensures Grows(g, MaskRound(g, cs, budget, height, width).grid)
    decreases |cs|
  {
    if cs != [] {
      if Accepts(g, cs[0], budget, height, width) {
        AcceptedBlock(g, cs[0], budget, height, width);
      } else {
        MaskRoundCount(g, cs[1..], budget, height, width);
      }
    }
  }

  /** A round reports 0 exactly when none of its blocks passes the size test
      and the guard. */
  lemma {:induction false} MaskRoundStalls(g: Grid, cs: seq<Block>, budget: nat, height: nat, width: nat)
    requires Shaped(g, height, width) && Binary(g)
    requires forall k :: 0 <= k < |cs| ==> Drawable(cs[k], height, width)
    ensures MaskRound(g, cs, budget, height, width).delta == 0 <==>
            forall k :: 0 <= k < |cs| ==> !Accepts(g, cs[k], budget, height, width)
    decreases |cs|
  {
    if cs != [] {
      if Accepts(g, cs[0], budget, height, width) {
        BlockUnsetIsAreaMinusSum(g, cs[0], height, width);
      } else {
        MaskRoundStalls(g, cs[1..], budget, height, width);
        forall k | 0 <= k < |cs| && MaskRound(g, cs[1..], budget, height, width).delta == 0
          ensures !Accepts(g, cs[k], budget, height, width)
        {
          if k > 0 { assert cs[k] == cs[1..][k - 1]; }
        }
      }
    }
  }

  /** A round that reports a positive delta filled the first block that passes
      the size test and the guard; that block lies inside the window, and the
      delta is h * w minus the block's old sum. */
  lemma {:induction false} MaskRoundFirst(g: Grid, cs: seq<Block>, budget: nat, height: nat, width: nat)
    requires Shaped(g, height, width) && Binary(g)
    requires forall k :: 0 <= k < |cs| ==> Drawable(cs[k], height, width)
    requires MaskRound(g, cs, budget, height, width).delta > 0
    ensures exists k :: 0 <= k < |cs| && Accepts(g, cs[k], budget, height, width) &&
              (forall j :: 0 <= j < k ==> !Accepts(g, cs[j], budget, height, width)) &&
              Inside(cs[k], height, width) &&
              MaskRound(g, cs, budget, height, width) ==
                Round(Fill(g, cs[k]), cs[k].h * cs[k].w - BlockSum(g, cs[k]))
    decreases |cs|
  {
    if Accepts(g, cs[0], budget, height, width) {
      BlockUnsetIsAreaMinusSum(g, cs[0], height, width);
    } else {
      MaskRoundFirst(g, cs[1..], budget, height, width);
      var r := MaskRound(g, cs[1..], budget, height, width);
      var k :| 0 <= k < |cs[1..]| && Accepts(g, cs[1..][k], budget, height, width) &&
               (forall j :: 0 <= j < k ==> !Accepts(g, cs[1..][j], budget, height, width)) &&
               Inside(cs[1..][k], height, width) &&
               r == Round(Fill(g, cs[1..][k]), cs[1..][k].h * cs[1..][k].w - BlockSum(g, cs[1..][k]));
      assert cs[1..][k] == cs[k + 1];
      forall j | 0 <= j < k + 1
        ensures !Accepts(g, cs[j], budget, height, width)
      {
        if j > 0 { assert cs[j] == cs[1..][j - 1]; }
      }
    }
  }

  /** A round either changes nothing and reports 0, or fills exactly one drawn
      block, the first the guard accepts, and reports the positive number of
      cells it newly masked; cells only go from 0 to 1. */
  lemma MaskRoundPlacesOneBlock(g: Grid, cs: seq<Block>, budget: nat, height: nat, width: nat)
    requires Shaped(g, height, width) && Binary(g)
    requires forall k :: 0 <= k < |cs| ==> Drawable(cs[k], height, width)
    ensures Grows(g, MaskRound(g, cs, budget, height, width).grid)
    ensures MaskRound(g, cs, budget, height, width).delta == 0 <==>
            forall k :: 0 <= k < |cs| ==> !Accepts(g, cs[k], budget, height, width)
    ensures MaskRound(g, cs, budget, height, width).delta == 0 ==>
            MaskRound(g, cs, budget, height, width).grid == g
    ensures MaskRound(g, cs, budget, height, width).delta > 0 ==>
            exists k :: 0 <= k < |cs| && Accepts(g, cs[k], budget, height, width) &&
              (forall j :: 0 <= j < k ==> !Accepts(g, cs[j], budget, height, width)) &&
              Inside(cs[k], height, width) &&
              MaskRound(g, cs, budget, height, width) ==
                Round(Fill(g, cs[k]), cs[k].h * cs[k].w - BlockSum(g, cs[k]))
  {
    MaskRoundCount(g, cs, budget, height, width);
    MaskRoundStalls(g, cs, budget, height, width);
    if MaskRound(g, cs, budget, height, width).delta > 0 {
      MaskRoundFirst(g, cs, budget, height, width);
    }
  }

  /** The result of the sampler's outer loop: the grid, the running count, and
      whether the loop stopped because a round made no progress. */
  datatype Outcome = Outcome(grid: Grid, count: nat, stalled: bool)

  /** The sampler's outer loop from grid g with running count `count`, round
      `round` of the oracle `draws` being the next one to use. */
  function Run(g: Grid, count: nat, round: nat, draws: nat -> seq<Block>,
               height: nat, width: nat, target: nat, maxPatches: nat): (o: Outcome)
    requires Shaped(g, height, width) && Binary(g)
    requires forall r :: RoundDraw(draws(r), height, width)
    decreases target - count
  {
    if count >= target then Outcome(g, count, false)
    else
      var budget := Min(target - count, maxPatches);
      assert RoundDraw(draws(round), height, width);
      var step := MaskRound(g, draws(round), budget, height, width);
      MaskRoundCount(g, draws(round), budget, height, width);
      if step.delta == 0 then Outcome(g, count, true)
      else Run(step.grid, count + step.delta, round + 1, draws, height, width, target, maxPatches)
  }

  /** Run stops without a round once the target is reached. */
  lemma RunDone(g: Grid, count: nat, round: nat, draws: nat -> seq<Block>,
                height: nat, width: nat, target: nat, maxPatches: nat)
    requires Shaped(g, height, width) && Binary(g)
    requires forall r :: RoundDraw(draws(r), height, width)
    requires count >= target
    ensures Run(g, count, round, draws, height, width, target, maxPatches) == Outcome(g, count, false)
  {
  }

  /** Run stops, stalled, after a round that masks nothing, and otherwise goes
      on from that round's grid and count. */
  lemma RunStep(g: Grid, count: nat, round: nat, draws: nat -> seq<Block>,
                height: nat, width: nat, target: nat, maxPatches: nat, step: Round)
    requires Shaped(g, height, width) && Binary(g)
    requires forall r :: RoundDraw(draws(r), height, width)
    requires count < target
    requires RoundDraw(draws(round), height, width)
    requires step == MaskRound(g, draws(round), Min(target - count, maxPatches), height, width)
    ensures Shaped(step.grid, height, width) && Binary(step.grid)
    ensures step.delta == 0 ==> step.grid == g
    ensures step.delta == 0 ==> Run(g, count, round, draws, height, width, target, maxPatches) == Outcome(g, count, true)
    ensures step.delta > 0 ==>
      (Run(g, count, round, draws, height, width, target, maxPatches) ==
       Run(step.grid, count + step.delta, round + 1, draws, height, width, target, maxPatches))
  {
    MaskRoundCount(g, draws(round), Min(target - count, maxPatches), height, width);
  }

  /** What the outer loop guarantees about its outcome o, started from grid g
      with running count `count`. */
  ghost predicate RunResult(g: Grid, count: nat, o: Outcome, height: nat, width: nat, target: nat) {
    Shaped(o.grid, height, width) && Binary(o.grid) && Grows(g, o.grid) &&
    Count(o.grid) == o.count && count <= o.count <= target &&
    (o.stalled <==> o.count < target)
  }

  /** The outer loop keeps the running count equal to the number of masked
      cells and never above the target; it stops short of the target exactly
      when a round made no progress, and cells only ever go from 0 to 1. */
  lemma {:induction false} RunKeepsCount(g: Grid, count: nat, round: nat, draws: nat -> seq<Block>,
                                         height: nat, width: nat, target: nat, maxPatches: nat)
    requires Shaped(g, height, width) && Binary(g)
    requires forall r :: RoundDraw(draws(r), height, width)
    requires Count(g) == count <= target
    ensures RunResult(g, count, Run(g, count, round, draws, height, width, target, maxPatches), height, width, target)
    decreases target - count
  {
    if count < target {
      var budget := Min(target - count, maxPatches);
      assert RoundDraw(draws(round), height, width);
      var step := MaskRound(g, draws(round), budget, height, width);
      RunStep(g, count, round, draws, height, width, target, maxPatches, step);
      MaskRoundCount(g, draws(round), budget, height, width);
      if step.delta > 0 {
        var rest := Run(step.grid, count + step.delta, round + 1, draws, height, width, target, maxPatches);
        RunKeepsCount(step.grid, count + step.delta, round + 1, draws, height, width, target, maxPatches);
        GrowsTrans(g, step.grid, rest.grid);
      }
    } else {
      RunDone(g, count, round, draws, height, width, target, maxPatches);
    }
  }

  /** A call of the sampler from a fresh window ends with a 0/1 grid whose
      number of masked cells is the final count, at most the target; it falls
      short of the target only when it stopped on a round that made no progress. */
  lemma SamplerOutcome(draws: nat -> seq<Block>, height: nat, width: nat, target: nat, maxPatches: nat)
    requires forall r :: RoundDraw(draws(r), height, width)
    ensures var o := Run(Empty(height, width), 0, 0, draws, height, width, target, maxPatches);
      Shaped(o.grid, height, width) && Binary(o.grid) &&
      Count(o.grid) == o.count <= target &&
      (o.stalled <==> o.count < target) &&
      (!o.stalled ==> Count(o.grid) == target)
  {
    EmptyCount(height, width);
    RunKeepsCount(Empty(height, width), 0, 0, draws, height, width, target, maxPatches);
  }

  lemma GrowsTrans(g1: Grid, g2: Grid, g3: Grid)
    requires Grows(g1, g2) && Grows(g2, g3)
    ensures Grows(g1, g3)
  {
  }

  /** The sampler's configuration; the grid itself is created afresh by each call. */
  class MaskingGenerator {
    const height: nat
    const width: nat
    const numPatches: nat := height * width
    const numMaskingPatches: nat
    const minNumPatches: nat
    const maxNumPatches: nat

    /** A square window for a single size; maxNumPatches defaults to numMaskingPatches. */
    constructor (inputSize: WindowSize, numMaskingPatches: nat, minNumPatches: nat := 4,
                 maxNumPatches: Option<nat> := None)
      ensures inputSize.Square? ==> height == inputSize.side && width == inputSize.side
      ensures inputSize.Rect? ==> height == inputSize.height && width == inputSize.width
      ensures numPatches == height * width
      ensures this.numMaskingPatches == numMaskingPatches
      ensures this.minNumPatches == minNumPatches
      ensures this.maxNumPatches == if maxNumPatches.None? then numMaskingPatches else maxNumPatches.value
    {
      var size := match inputSize
        case Square(n) => (n, n)
        case Rect(h, w) => (h, w);
      height, width := size.0, size.1;
      this.numMaskingPatches := numMaskingPatches;
      this.minNumPatches := minNumPatches;
      this.maxNumPatches := if maxNumPatches.None? then numMaskingPatches else maxNumPatches.value;
    }

    /** The window's shape. */
    method GetShape() returns (h: nat, w: nat)
      ensures h == height && w == width
      ensures h * w == numPatches
    {
      h, w := height, width;
    }

    /** One round: try the drawn blocks in order and fill the first one the
        guard accepts, writing into `mask` (which holds grid g) in place;
        returns how many cells were newly masked. */
    method Mask(mask: array2<int>, maxMaskPatches: nat, cs: seq<Block>, ghost g: Grid) returns (delta: nat)
      requires mask.Length0 == height && mask.Length1 == width
      requires Holds(mask, g) && Binary(g)
      requires RoundDraw(cs, height, width)
      modifies mask
      ensures Holds(mask, MaskRound(g, cs, maxMaskPatches, height, width).grid)
      ensures delta == MaskRound(g, cs, maxMaskPatches, height, width).delta
    {
      delta := 0;
      for attempt := 0 to Attempts
        invariant Holds(mask, g) && delta == 0
        invariant MaskRound(g, cs, maxMaskPatches, height, width) ==
                  MaskRound(g, cs[attempt..], maxMaskPatches, height, width)
      {
        var c := cs[attempt];
        assert cs[attempt..][1..] == cs[attempt + 1..];
        if c.w < width && c.h < height {
          GridExt(Cells(mask), g);
          var numMasked := BlockSum(Cells(mask), c);
          if 0 < c.h * c.w - numMasked <= maxMaskPatches {
            var added := FillBlock(mask, c, g);
            FillHolds(mask, g, c);
            delta := delta + added;
            BlockUnsetIsAreaMinusSum(g, c, height, width);
          }
          if delta > 0 {
            break;
          }
        }
      }
    }

    /** The nested loops of one placement: every zero cell of block c is set to
        1 in place in `mask`, which holds grid g, so that it then holds Fill(g, c);
        returns how many cells changed. */
    method FillBlock(mask: array2<int>, c: Block, ghost g: Grid) returns (delta: nat)
      requires mask.Length0 == height && mask.Length1 == width
      requires Holds(mask, g) && Inside(c, height, width)
      modifies mask
      ensures forall a, b :: 0 <= a < height && 0 <= b < width ==>
        mask[a, b] == if InBlock(c, a, b) && g[a][b] == 0 then 1 else g[a][b]
      ensures delta == BlockUnset(g, c)
    {
      delta := 0;
      var top, bottom, left, right := c.top, c.top + c.h, c.left, c.left + c.w;
      for i := top to bottom
        invariant forall a, b :: 0 <= a < height && 0 <= b < width ==>
          mask[a, b] == if top <= a < i && left <= b < right && g[a][b] == 0 then 1 else g[a][b]
        invariant delta == RegionUnset(g, top, i, left, right)
      {
        var added := FillRowSpan(mask, i, left, right, g[i]);
        delta := delta + added;
      }
    }

    /** The inner loop of a placement: every zero cell of row i in columns
        left..right is set to 1 in place; returns how many cells changed. */
    method FillRowSpan(mask: array2<int>, i: nat, left: nat, right: nat, ghost row: seq<int>) returns (added: nat)
      requires i < mask.Length0 && left <= right <= mask.Length1
      requires |row| == mask.Length1 && forall b :: 0 <= b < |row| ==> row[b] == mask[i, b]
      modifies mask
      ensures forall a, b :: 0 <= a < mask.Length0 && 0 <= b < mask.Length1 ==>
        mask[a, b] == if a == i && left <= b < right && old(mask[a, b]) == 0 then 1 else old(mask[a, b])
      ensures added == RowUnset(row, left, right)
    {
      added := 0;
      for j := left to right
        invariant forall a, b :: 0 <= a < mask.Length0 && 0 <= b < mask.Length1 ==>
          mask[a, b] == if a == i && left <= b < j && old(mask[a, b]) == 0 then 1 else old(mask[a, b])
        invariant added == RowUnset(row, left, j)
      {
        if mask[i, j] == 0 {
          mask[i, j] := 1;
          added := added + 1;
        }
      }
    }

    /** One call of the sampler: a fresh window grid masked round by round,
        the draws of round r being draws(r). */
    method Generate(draws: nat -> seq<Block>) returns (mask: array2<int>)
      requires forall r :: RoundDraw(draws(r), height, width)
      ensures fresh(mask)
      ensures mask.Length0 == height && mask.Length1 == width
      ensures Holds(mask, Run(Empty(height, width), 0, 0, draws, height, width,
                              numMaskingPatches, maxNumPatches).grid)
    {
      mask := new int[height, width]((a, b) => 0);
      ghost var grid := Empty(height, width);
      ghost var final := Run(grid, 0, 0, draws, height, width, numMaskingPatches, maxNumPatches);
      var maskCount: nat := 0;
      var r: nat := 0;
      while maskCount < numMaskingPatches
        invariant Holds(mask, grid) && Shaped(grid, height, width) && Binary(grid)
        invariant Run(grid, maskCount, r, draws, height, width, numMaskingPatches, maxNumPatches) == final
        decreases numMaskingPatches - maskCount
      {
        var maxMaskPatches := numMaskingPatches - maskCount;
        maxMaskPatches := Min(maxMaskPatches, maxNumPatches);
        assert RoundDraw(draws(r), height, width);
        ghost var step := MaskRound(grid, draws(r), maxMaskPatches, height, width);
        RunStep(grid, maskCount, r, draws, height, width, numMaskingPatches, maxNumPatches, step);
        var delta := Mask(mask, maxMaskPatches, draws(r), grid);
        if delta == 0 {
          break;
        } else {
          maskCount := maskCount + delta;
          r := r + 1;
          grid := step.grid;
        }
      }
      if maskCount >= numMaskingPatches {
        RunDone(grid, maskCount, r, draws, height, width, numMaskingPatches, maxNumPatches);
      }
    }
  }

  /** The 2-D array m holds grid g. */
  ghost predicate Holds(m: array2<int>, g: Grid)
    reads m
  {
    |g| == m.Length0 && Rows(g, m.Length1) &&
    forall a, b :: 0 <= a < m.Length0 && 0 <= b < m.Length1 ==> m[a, b] == g[a][b]
  }

  /** An array whose cells are those of g with block c filled holds Fill(g, c). */
  lemma FillHolds(m: array2<int>, g: Grid, c: Block)
    requires Shaped(g, m.Length0, m.Length1)
    requires forall a, b :: 0 <= a < m.Length0 && 0 <= b < m.Length1 ==>
      m[a, b] == if InBlock(c, a, b) && g[a][b] == 0 then 1 else g[a][b]
    ensures Holds(m, Fill(g, c))
  {
  }

  /** The grid held by a 2-D array. Its ensures only spell out the
      comprehension for the proofs. */
  function Cells(m: array2<int>): (g: Grid)
    reads m
    ensures Shaped(g, m.Length0, m.Length1)
    ensures forall a, b :: 0 <= a < m.Length0 && 0 <= b < m.Length1 ==> g[a][b] == m[a, b]
  {
    seq(m.Length0, a requires 0 <= a < m.Length0 reads m =>
      seq(m.Length1, b requires 0 <= b < m.Length1 reads m => m[a, b]))
  }
}
