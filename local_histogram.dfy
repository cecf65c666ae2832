/** SourceAFIS.Extraction.LocalHistogram: a 256-bin intensity histogram per block, its
    sum over the (up to four) blocks around each block corner, and a 3x3 smoothing of
    the corner histograms. The parallel split over blocks or corners is a sequential
    row-by-row loop here: each iteration writes only the bins of its own block or
    corner. Histogram cells are C# `short`; `Analyze` requires every block to hold at
    most 32767 pixels so that no count can wrap. */
module LocalHistogram {
  import opened Geometry
  import opened BlockGrid
  import Neighborhood

  const ShortMax: int := 32767
  const BinCount: int := 256

  // ------------------------------------------------------------ counting

  predicate AreaInImage(area: RectangleC, image: array2<Byte>)
  {
    Inside(area, Size(image.Length1, image.Length0))
  }

  /** Pixels of row `y`, columns [x0, x1), whose intensity is `v`. */
  ghost function CountRow(image: array2<Byte>, y: int, x0: int, x1: int, v: int): nat
    reads image
    requires 0 <= y < image.Length0 && 0 <= x0 && x1 <= image.Length1
    decreases x1 - x0
  {
    if x1 <= x0 then 0
    else CountRow(image, y, x0, x1 - 1, v) + (if image[y, x1 - 1] == v then 1 else 0)
  }

  /** Pixels of `area` in rows [Bottom, top) whose intensity is `v`. */
  ghost function CountRows(image: array2<Byte>, area: RectangleC, top: int, v: int): nat
    reads image
    requires AreaInImage(area, image) && top <= area.Top()
    decreases top - area.Bottom()
  {
    if top <= area.Bottom() then 0
    else CountRows(image, area, top - 1, v) + CountRow(image, top - 1, area.Left(), area.Right(), v)
  }

  /** Pixels of `area` whose intensity is `v`: bin `v` of the area's histogram. */
  ghost function CountValue(image: array2<Byte>, area: RectangleC, v: int): nat
    reads image
    requires AreaInImage(area, image)
  {
    CountRows(image, area, area.Top(), v)
  }

  /** Sum of bins [0, n) of the histogram of row `y`, columns [x0, x1). */
  ghost function RowBinTotal(image: array2<Byte>, y: int, x0: int, x1: int, n: nat): nat
    reads image
    requires 0 <= y < image.Length0 && 0 <= x0 && x1 <= image.Length1
  {
    if n == 0 then 0 else RowBinTotal(image, y, x0, x1, n - 1) + CountRow(image, y, x0, x1, n - 1)
  }

  /** Sum of bins [0, n) of the histogram of rows [Bottom, top) of `area`. */
  ghost function RowsBinTotal(image: array2<Byte>, area: RectangleC, top: int, n: nat): nat
    reads image
    requires AreaInImage(area, image) && top <= area.Top()
  {
    if n == 0 then 0 else RowsBinTotal(image, area, top, n - 1) + CountRows(image, area, top, n - 1)
  }

  lemma {:induction false} RowBinTotalStep(image: array2<Byte>, y: int, x0: int, x1: int, n: nat)
    requires 0 <= y < image.Length0 && 0 <= x0 < x1 <= image.Length1
    ensures RowBinTotal(image, y, x0, x1, n)
         == RowBinTotal(image, y, x0, x1 - 1, n) + (if image[y, x1 - 1] < n then 1 else 0)
  {
    if n > 0 {
      RowBinTotalStep(image, y, x0, x1, n - 1);
    }
  }

  lemma {:induction false} RowBinTotalIsWidth(image: array2<Byte>, y: int, x0: int, x1: int)
    requires 0 <= y < image.Length0 && 0 <= x0 <= x1 <= image.Length1
    ensures RowBinTotal(image, y, x0, x1, BinCount) == x1 - x0
  {
    if x1 > x0 {
      RowBinTotalStep(image, y, x0, x1, BinCount);
      RowBinTotalIsWidth(image, y, x0, x1 - 1);
    } else {
      RowBinTotalOfEmpty(image, y, x0, x1, BinCount);
    }
  }

  lemma {:induction false} RowBinTotalOfEmpty(image: array2<Byte>, y: int, x0: int, x1: int, n: nat)
    requires 0 <= y < image.Length0 && 0 <= x0 && x1 <= image.Length1 && x1 <= x0
    ensures RowBinTotal(image, y, x0, x1, n) == 0
  {
    if n > 0 {
      RowBinTotalOfEmpty(image, y, x0, x1, n - 1);
    }
  }

  lemma {:induction false} RowsBinTotalStep(image: array2<Byte>, area: RectangleC, top: int, n: nat)
    requires AreaInImage(area, image) && area.Bottom() < top <= area.Top()
    ensures RowsBinTotal(image, area, top, n)
         == RowsBinTotal(image, area, top - 1, n) + RowBinTotal(image, top - 1, area.Left(), area.Right(), n)
  {
    if n > 0 {
      RowsBinTotalStep(image, area, top, n - 1);
    }
  }

  lemma {:induction false} RowsBinTotalOfEmpty(image: array2<Byte>, area: RectangleC, n: nat)
    requires AreaInImage(area, image)
    ensures RowsBinTotal(image, area, area.Bottom(), n) == 0
  {
    if n > 0 {
      RowsBinTotalOfEmpty(image, area, n - 1);
    }
  }

  lemma {:induction false} RowsBinTotalIsArea(image: array2<Byte>, area: RectangleC, top: int)
    requires AreaInImage(area, image) && area.Bottom() <= top <= area.Top()
    ensures RowsBinTotal(image, area, top, BinCount) == (top - area.Bottom()) * area.Width
    decreases top - area.Bottom()
  {
    if top > area.Bottom() {
      RowsBinTotalStep(image, area, top, BinCount);
      RowsBinTotalIsArea(image, area, top - 1);
      RowBinTotalIsWidth(image, top - 1, area.Left(), area.Right());
      OneMoreRow(top - area.Bottom(), area.Width);
    } else {
      RowsBinTotalOfEmpty(image, area, BinCount);
    }
  }

  lemma OneMoreRow(rows: int, width: int)
    ensures rows * width == (rows - 1) * width + width
  {
  }

  lemma {:induction false} BinAtMostTotal(image: array2<Byte>, area: RectangleC, n: nat, v: int)
    requires AreaInImage(area, image) && 0 <= v < n
    ensures CountValue(image, area, v) <= RowsBinTotal(image, area, area.Top(), n)
  {
    if v < n - 1 {
      BinAtMostTotal(image, area, n - 1, v);
    }
  }

  /** The 256 bins of an area's histogram add up to the number of pixels in the area. */
  lemma HistogramTotal(image: array2<Byte>, area: RectangleC)
    requires AreaInImage(area, image)
    ensures RowsBinTotal(image, area, area.Top(), BinCount) == area.TotalArea()
  {
    RowsBinTotalIsArea(image, area, area.Top());
  }

  /** Hence no bin exceeds the area, and with areas of at most 32767 pixels every bin
      fits in a `short`. */
  lemma BinAtMostArea(image: array2<Byte>, area: RectangleC, v: int)
    requires AreaInImage(area, image) && 0 <= v < BinCount
    ensures CountValue(image, area, v) <= area.TotalArea()
  {
    BinAtMostTotal(image, area, BinCount, v);
    HistogramTotal(image, area);
  }

  // ------------------------------------------------------------ Analyze

  /** One block's share of `Analyze`: count the pixels of `area` into the bins of
      `(blockY, blockX)`, which start at zero; nothing else is written. */
  method AnalyzeBlock(histogram: array3<int>, blockY: int, blockX: int, image: array2<Byte>, area: RectangleC)
    requires 0 <= blockY < histogram.Length0 && 0 <= blockX < histogram.Length1 && histogram.Length2 == BinCount
    requires AreaInImage(area, image)
    requires forall v :: 0 <= v < BinCount ==> histogram[blockY, blockX, v] == 0
    modifies histogram
    ensures forall v :: 0 <= v < BinCount ==> histogram[blockY, blockX, v] == CountValue(image, area, v)
    ensures forall y, x, v ::
      (0 <= y < histogram.Length0 && 0 <= x < histogram.Length1 && 0 <= v < BinCount && (y != blockY || x != blockX))
      ==> histogram[y, x, v] == old(histogram[y, x, v])
  {
    for y := area.Bottom() to area.Top()
      invariant forall v :: 0 <= v < BinCount ==> histogram[blockY, blockX, v] == CountRows(image, area, y, v)
      invariant forall y', x, v ::
        (0 <= y' < histogram.Length0 && 0 <= x < histogram.Length1 && 0 <= v < BinCount && (y' != blockY || x != blockX))
        ==> histogram[y', x, v] == old(histogram[y', x, v])
    {
      AnalyzeRow(histogram, blockY, blockX, image, y, area.Left(), area.Right());
    }
  }

  /** One row of a block: counts the pixels of row `y`, columns [x0, x1), into the bins of
      `(blockY, blockX)`; nothing else is written. */
  method AnalyzeRow(histogram: array3<int>, blockY: int, blockX: int, image: array2<Byte>, y: int, x0: int, x1: int)
    requires 0 <= blockY < histogram.Length0 && 0 <= blockX < histogram.Length1 && histogram.Length2 == BinCount
    requires 0 <= y < image.Length0 && 0 <= x0 <= x1 <= image.Length1
    modifies histogram
    ensures forall v :: 0 <= v < BinCount ==>
      histogram[blockY, blockX, v] == old(histogram[blockY, blockX, v]) + CountRow(image, y, x0, x1, v)
    ensures forall y', x, v ::
      (0 <= y' < histogram.Length0 && 0 <= x < histogram.Length1 && 0 <= v < BinCount && (y' != blockY || x != blockX))
      ==> histogram[y', x, v] == old(histogram[y', x, v])
  {
    for x := x0 to x1
      invariant forall v :: 0 <= v < BinCount ==>
        histogram[blockY, blockX, v] == old(histogram[blockY, blockX, v]) + CountRow(image, y, x0, x, v)
      invariant forall y', x', v ::
        (0 <= y' < histogram.Length0 && 0 <= x' < histogram.Length1 && 0 <= v < BinCount && (y' != blockY || x' != blockX))
        ==> histogram[y', x', v] == old(histogram[y', x', v])
    {
      histogram[blockY, blockX, image[y, x]] := histogram[blockY, blockX, image[y, x]] + 1;
    }
  }

  /** `Analyze`: bin `v` of block `(blockY, blockX)` is the number of pixels of that block's area
      whose intensity is `v`; every bin fits in a `short`. */
  method Analyze(blocks: BlockMap, image: array2<Byte>) returns (histogram: array3<int>)
    requires blocks.Valid()
    requires image.Length0 == blocks.PixelCount.Height && image.Length1 == blocks.PixelCount.Width
    requires forall y, x :: 0 <= y < blocks.BlockCount.Height && 0 <= x < blocks.BlockCount.Width ==>
      blocks.BlockAreas[y][x].TotalArea() <= ShortMax
    ensures fresh(histogram)
    ensures histogram.Length0 == blocks.BlockCount.Height && histogram.Length1 == blocks.BlockCount.Width
    ensures histogram.Length2 == BinCount
    ensures forall blockY, blockX, v :: 0 <= blockY < histogram.Length0 && 0 <= blockX < histogram.Length1 && 0 <= v < BinCount ==>
      histogram[blockY, blockX, v] == CountValue(image, blocks.BlockAreas[blockY][blockX], v) && 0 <= histogram[blockY, blockX, v] <= ShortMax
  {
    var count := blocks.BlockCount;
    histogram := new int[count.Height, count.Width, BinCount]((_, _, _) => 0);
    for blockY := 0 to count.Height
      invariant forall y, x, v :: 0 <= y < count.Height && 0 <= x < count.Width && 0 <= v < BinCount ==>
        histogram[y, x, v] == if y < blockY then CountValue(image, blocks.BlockAreas[y][x], v) else 0
    {
      for blockX := 0 to count.Width
        invariant forall y, x, v :: 0 <= y < count.Height && 0 <= x < count.Width && 0 <= v < BinCount ==>
          histogram[y, x, v] == if Before(y, x, blockY, blockX) then CountValue(image, blocks.BlockAreas[y][x], v) else 0
      {
        AnalyzeBlock(histogram, blockY, blockX, image, blocks.BlockAreas[blockY][blockX]);
      }
    }
    forall blockY, blockX, v | 0 <= blockY < count.Height && 0 <= blockX < count.Width && 0 <= v < BinCount
      ensures histogram[blockY, blockX, v] <= ShortMax
    {
      BinAtMostArea(image, blocks.BlockAreas[blockY][blockX], v);
    }
  }

  // ------------------------------------------------------------ SmoothAroundCorners

  /** Offsets from a corner to the blocks that touch it. */
  const BlocksAround: seq<Point> := [Point(0, 0), Point(-1, 0), Point(0, -1), Point(-1, -1)]

  predicate HasShape(h: array3<int>, size: Size)
  {
    h.Length0 == size.Height && h.Length1 == size.Width && h.Length2 == BinCount
  }

  /** Adds every bin of `source` at `from` into the bins of `target` at `to`; no other
      entry of `target` changes. */
  method AddBins(source: array3<int>, from: Point, target: array3<int>, to: Point)
    requires source.Length2 == BinCount && target.Length2 == BinCount && source != target
    requires 0 <= from.Y < source.Length0 && 0 <= from.X < source.Length1
    requires 0 <= to.Y < target.Length0 && 0 <= to.X < target.Length1
    modifies target
    ensures forall i :: 0 <= i < BinCount ==> target[to.Y, to.X, i] == old(target[to.Y, to.X, i]) + source[from.Y, from.X, i]
    ensures forall y, x, i ::
      (0 <= y < target.Length0 && 0 <= x < target.Length1 && 0 <= i < BinCount && (y != to.Y || x != to.X))
      ==> target[y, x, i] == old(target[y, x, i])
  {
    for i := 0 to BinCount
      invariant forall j :: 0 <= j < BinCount ==>
        target[to.Y, to.X, j] == old(target[to.Y, to.X, j]) + (if j < i then source[from.Y, from.X, j] else 0)
      invariant forall y, x, j ::
        (0 <= y < target.Length0 && 0 <= x < target.Length1 && 0 <= j < BinCount && (y != to.Y || x != to.X))
        ==> target[y, x, j] == old(target[y, x, j])
    {
      target[to.Y, to.X, i] := target[to.Y, to.X, i] + source[from.Y, from.X, i];
    }
  }

  /** Copies the bins of `source` at `at` onto those of `target` at the same place; no
      other entry of `target` changes. */
  method CopyBins(source: array3<int>, target: array3<int>, at: Point)
    requires source.Length2 == BinCount && target.Length2 == BinCount && source != target
    requires 0 <= at.Y < source.Length0 && 0 <= at.X < source.Length1
    requires 0 <= at.Y < target.Length0 && 0 <= at.X < target.Length1
    modifies target
    ensures forall i :: 0 <= i < BinCount ==> target[at.Y, at.X, i] == source[at.Y, at.X, i]
    ensures forall y, x, i ::
      (0 <= y < target.Length0 && 0 <= x < target.Length1 && 0 <= i < BinCount && (y != at.Y || x != at.X))
      ==> target[y, x, i] == old(target[y, x, i])
  {
    for i := 0 to BinCount
      invariant forall j :: 0 <= j < i ==> target[at.Y, at.X, j] == source[at.Y, at.X, j]
      invariant forall y, x, j ::
        (0 <= y < target.Length0 && 0 <= x < target.Length1 && 0 <= j < BinCount && (y != at.Y || x != at.X))
        ==> target[y, x, j] == old(target[y, x, j])
    {
      target[at.Y, at.X, i] := source[at.Y, at.X, i];
    }
  }

  /** Bin `i` summed over the first `k` entries of `BlocksAround` that fall inside the
      block grid. */
  ghost function AroundSum(blocks: BlockMap, input: array3<int>, corner: Point, i: int, k: nat): int
    reads input
    requires HasShape(input, blocks.BlockCount) && 0 <= i < BinCount && k <= |BlocksAround|
  {
    if k == 0 then 0
    else
      var block := AddPoints(corner, BlocksAround[k - 1]);
      AroundSum(blocks, input, corner, i, k - 1)
        + (if blocks.BlockRect().Contains(block) then input[block.Y, block.X, i] else 0)
  }

  /** One corner's share of `SmoothAroundCorners`: its bins start at zero and receive the
      bins of every block around it; nothing else is written. */
  method SmoothCorner(blocks: BlockMap, input: array3<int>, output: array3<int>, corner: Point)
    requires HasShape(input, blocks.BlockCount) && output.Length2 == BinCount && output != input
    requires 0 <= corner.Y < output.Length0 && 0 <= corner.X < output.Length1
    requires forall i :: 0 <= i < BinCount ==> output[corner.Y, corner.X, i] == 0
    modifies output
    ensures forall i :: 0 <= i < BinCount ==>
      output[corner.Y, corner.X, i] == AroundSum(blocks, input, corner, i, |BlocksAround|)
    ensures forall y, x, i ::
      (0 <= y < output.Length0 && 0 <= x < output.Length1 && 0 <= i < BinCount && (y != corner.Y || x != corner.X))
      ==> output[y, x, i] == old(output[y, x, i])
  {
    for k := 0 to |BlocksAround|
      invariant forall i :: 0 <= i < BinCount ==> output[corner.Y, corner.X, i] == AroundSum(blocks, input, corner, i, k)
      invariant forall y, x, i ::
        (0 <= y < output.Length0 && 0 <= x < output.Length1 && 0 <= i < BinCount && (y != corner.Y || x != corner.X))
        ==> output[y, x, i] == old(output[y, x, i])
    {
      AroundNext(blocks, input, output, corner, k);
    }
  }

  /** One step of `SmoothCorner`: adds the bins of the `k`-th block around the corner when
      that block lies in the grid. */
  method AroundNext(blocks: BlockMap, input: array3<int>, output: array3<int>, corner: Point, k: int)
    requires HasShape(input, blocks.BlockCount) && output.Length2 == BinCount && output != input
    requires 0 <= corner.Y < output.Length0 && 0 <= corner.X < output.Length1 && 0 <= k < |BlocksAround|
    requires forall i :: 0 <= i < BinCount ==> output[corner.Y, corner.X, i] == AroundSum(blocks, input, corner, i, k)
    modifies output
    ensures forall i :: 0 <= i < BinCount ==> output[corner.Y, corner.X, i] == AroundSum(blocks, input, corner, i, k + 1)
    ensures forall y, x, i ::
      (0 <= y < output.Length0 && 0 <= x < output.Length1 && 0 <= i < BinCount && (y != corner.Y || x != corner.X))
      ==> output[y, x, i] == old(output[y, x, i])
  {
    var block := AddPoints(corner, BlocksAround[k]);
    if blocks.BlockRect().Contains(block) {
      AddBins(input, block, output, corner);
    }
  }

  /** `SmoothAroundCorners`: bin `i` of every corner is the sum of bin `i` over the blocks
      around that corner that lie inside the block grid. The input is only read. */
  method SmoothAroundCorners(blocks: BlockMap, input: array3<int>) returns (output: array3<int>)
    requires blocks.Valid() && HasShape(input, blocks.BlockCount)
    ensures fresh(output) && HasShape(output, blocks.CornerCount)
    ensures forall cy, cx, i :: 0 <= cy < output.Length0 && 0 <= cx < output.Length1 && 0 <= i < BinCount ==>
      output[cy, cx, i] == AroundSum(blocks, input, Point(cx, cy), i, |BlocksAround|)
  {
    var count := blocks.CornerCount;
    output := new int[count.Height, count.Width, BinCount]((_, _, _) => 0);
    for cy := 0 to count.Height
      invariant forall y, x, i :: 0 <= y < count.Height && 0 <= x < count.Width && 0 <= i < BinCount ==>
        output[y, x, i] == if y < cy then AroundSum(blocks, input, Point(x, y), i, |BlocksAround|) else 0
    {
      for cx := 0 to count.Width
        invariant forall y, x, i :: 0 <= y < count.Height && 0 <= x < count.Width && 0 <= i < BinCount ==>
          output[y, x, i] == if Before(y, x, cy, cx) then AroundSum(blocks, input, Point(x, y), i, |BlocksAround|) else 0
      {
        SmoothCorner(blocks, input, output, Point(cx, cy));
      }
    }
  }

  /** A corner on the left edge of the grid touches only the blocks of the first column. */
  lemma {:induction false} AroundLeftEdge(blocks: BlockMap, input: array3<int>, corner: Point, i: int)
    requires HasShape(input, blocks.BlockCount) && 0 <= i < BinCount
    requires blocks.BlockCount.Width > 0 && corner.X == 0 && 0 < corner.Y < blocks.BlockCount.Height
    ensures AroundSum(blocks, input, corner, i, |BlocksAround|) == input[corner.Y, 0, i] + input[corner.Y - 1, 0, i]
  {
    var y := corner.Y;
    assert AroundSum(blocks, input, corner, i, 1) == input[y, 0, i];
    assert AroundSum(blocks, input, corner, i, 2) == AroundSum(blocks, input, corner, i, 1);
    assert AroundSum(blocks, input, corner, i, 3) == AroundSum(blocks, input, corner, i, 2) + input[y - 1, 0, i];
    assert AroundSum(blocks, input, corner, i, 4) == AroundSum(blocks, input, corner, i, 3);
  }

  /** Corner (0,0) touches only block (0,0), so it keeps that block's histogram. (The
      corner is pinned to the origin by bounds rather than equalities, which keep the
      solver from unfolding `AroundSum` on a constant corner.) */
  lemma {:induction false} AroundOrigin(blocks: BlockMap, input: array3<int>, corner: Point, i: int)
    requires HasShape(input, blocks.BlockCount) && 0 <= i < BinCount
    requires 0 <= corner.X < 1 <= blocks.BlockCount.Width && 0 <= corner.Y < 1 <= blocks.BlockCount.Height
    ensures AroundSum(blocks, input, corner, i, |BlocksAround|) == input[corner.Y, corner.X, i]
  {
    var x, y := corner.X, corner.Y;
    assert AroundSum(blocks, input, corner, i, 1) == input[y, x, i];
    assert AroundSum(blocks, input, corner, i, 2) == AroundSum(blocks, input, corner, i, 1);
    assert AroundSum(blocks, input, corner, i, 3) == AroundSum(blocks, input, corner, i, 2);
    assert AroundSum(blocks, input, corner, i, 4) == AroundSum(blocks, input, corner, i, 3);
  }

  /** A corner strictly inside the grid sums exactly the four blocks around it. */
  lemma {:induction false} AroundInteriorCorner(blocks: BlockMap, input: array3<int>, corner: Point, i: int)
    requires HasShape(input, blocks.BlockCount) && 0 <= i < BinCount
    requires 0 < corner.X < blocks.BlockCount.Width && 0 < corner.Y < blocks.BlockCount.Height
    ensures AroundSum(blocks, input, corner, i, |BlocksAround|)
         == input[corner.Y, corner.X, i] + input[corner.Y, corner.X - 1, i]
          + input[corner.Y - 1, corner.X, i] + input[corner.Y - 1, corner.X - 1, i]
  {
    var x, y := corner.X, corner.Y;
    assert AroundSum(blocks, input, corner, i, 1) == input[y, x, i];
    assert AroundSum(blocks, input, corner, i, 2) == AroundSum(blocks, input, corner, i, 1) + input[y, x - 1, i];
    assert AroundSum(blocks, input, corner, i, 3) == AroundSum(blocks, input, corner, i, 2) + input[y - 1, x, i];
    assert AroundSum(blocks, input, corner, i, 4) == AroundSum(blocks, input, corner, i, 3) + input[y - 1, x - 1, i];
  }

  // ------------------------------------------------------------ Smooth

  /** Bin `i` summed over the first `k` entries of the corner-neighbour table that fall
      inside the corner grid. */
  ghost function NeighborSum(blocks: BlockMap, input: array3<int>, corner: Point, i: int, k: nat): int
    reads input
    requires HasShape(input, blocks.CornerCount) && 0 <= i < BinCount && k <= |Neighborhood.CornerNeighbors|
  {
    if k == 0 then 0
    else
      var neighbor := AddPoints(corner, Neighborhood.CornerNeighbors[k - 1]);
      NeighborSum(blocks, input, corner, i, k - 1)
        + (if blocks.CornerRect().Contains(neighbor) then input[neighbor.Y, neighbor.X, i] else 0)
  }

  /** One corner's share of `Smooth`: its bins are its own input bins plus those of its
      in-range neighbours; nothing else is written. */
  method SmoothOne(blocks: BlockMap, input: array3<int>, output: array3<int>, corner: Point)
    requires HasShape(input, blocks.CornerCount) && HasShape(output, blocks.CornerCount) && output != input
    requires 0 <= corner.Y < output.Length0 && 0 <= corner.X < output.Length1
    modifies output
    ensures forall i :: 0 <= i < BinCount ==>
      output[corner.Y, corner.X, i] == input[corner.Y, corner.X, i] + NeighborSum(blocks, input, corner, i, |Neighborhood.CornerNeighbors|)
    ensures forall y, x, i ::
      (0 <= y < output.Length0 && 0 <= x < output.Length1 && 0 <= i < BinCount && (y != corner.Y || x != corner.X))
      ==> output[y, x, i] == old(output[y, x, i])
  {
    CopyBins(input, output, corner);
    for k := 0 to |Neighborhood.CornerNeighbors|
      invariant forall i :: 0 <= i < BinCount ==>
        output[corner.Y, corner.X, i] == input[corner.Y, corner.X, i] + NeighborSum(blocks, input, corner, i, k)
      invariant forall y, x, i ::
        (0 <= y < output.Length0 && 0 <= x < output.Length1 && 0 <= i < BinCount && (y != corner.Y || x != corner.X))
        ==> output[y, x, i] == old(output[y, x, i])
    {
      var neighbor := AddPoints(corner, Neighborhood.CornerNeighbors[k]);
      if blocks.CornerRect().Contains(neighbor) {
        AddBins(input, neighbor, output, corner);
      }
    }
  }

  /** `Smooth`: every corner's bins become its own plus those of its in-range 8
      neighbours. The input is only read. */
  method Smooth(blocks: BlockMap, input: array3<int>) returns (output: array3<int>)
    requires blocks.Valid() && HasShape(input, blocks.CornerCount)
    ensures fresh(output) && HasShape(output, blocks.CornerCount)
    ensures forall cy, cx, i :: 0 <= cy < output.Length0 && 0 <= cx < output.Length1 && 0 <= i < BinCount ==>
      output[cy, cx, i] == input[cy, cx, i] + NeighborSum(blocks, input, Point(cx, cy), i, |Neighborhood.CornerNeighbors|)
  {
    var count := blocks.CornerCount;
    output := new int[count.Height, count.Width, BinCount]((_, _, _) => 0);
    for cy := 0 to count.Height
      invariant forall y, x, i :: 0 <= y < cy && 0 <= x < count.Width && 0 <= i < BinCount ==>
        output[y, x, i] == input[y, x, i] + NeighborSum(blocks, input, Point(x, y), i, |Neighborhood.CornerNeighbors|)
    {
      for cx := 0 to count.Width
        invariant forall y, x, i :: (0 <= y < count.Height && 0 <= x < count.Width && 0 <= i < BinCount && Before(y, x, cy, cx)) ==>
          output[y, x, i] == input[y, x, i] + NeighborSum(blocks, input, Point(x, y), i, |Neighborhood.CornerNeighbors|)
      {
        SmoothOne(blocks, input, output, Point(cx, cy));
      }
    }
  }

  /** A corner away from the border of the corner grid sums all nine cells around it. */
  lemma {:induction false} SmoothInteriorCorner(blocks: BlockMap, input: array3<int>, corner: Point, i: int)
    requires HasShape(input, blocks.CornerCount) && 0 <= i < BinCount
    requires 0 < corner.X < blocks.CornerCount.Width - 1 && 0 < corner.Y < blocks.CornerCount.Height - 1
    ensures input[corner.Y, corner.X, i] + NeighborSum(blocks, input, corner, i, |Neighborhood.CornerNeighbors|)
         == SumOfSquare(input, corner, i)
  {
    var x, y := corner.X, corner.Y;
    assert NeighborSum(blocks, input, corner, i, 1) == input[y - 1, x - 1, i];
    assert NeighborSum(blocks, input, corner, i, 2) == NeighborSum(blocks, input, corner, i, 1) + input[y - 1, x, i];
    assert NeighborSum(blocks, input, corner, i, 3) == NeighborSum(blocks, input, corner, i, 2) + input[y - 1, x + 1, i];
    assert NeighborSum(blocks, input, corner, i, 4) == NeighborSum(blocks, input, corner, i, 3) + input[y, x - 1, i];
    assert NeighborSum(blocks, input, corner, i, 5) == NeighborSum(blocks, input, corner, i, 4) + input[y, x + 1, i];
    assert NeighborSum(blocks, input, corner, i, 6) == NeighborSum(blocks, input, corner, i, 5) + input[y + 1, x - 1, i];
    assert NeighborSum(blocks, input, corner, i, 7) == NeighborSum(blocks, input, corner, i, 6) + input[y + 1, x, i];
    assert NeighborSum(blocks, input, corner, i, 8) == NeighborSum(blocks, input, corner, i, 7) + input[y + 1, x + 1, i];
  }

  /** The nine cells of the 3x3 square centred on `corner`, written out. */
  ghost function SumOfSquare(input: array3<int>, corner: Point, i: int): int
    reads input
    requires 0 < corner.Y < input.Length0 - 1 && 0 < corner.X < input.Length1 - 1 && 0 <= i < input.Length2
  {
    var x, y := corner.X, corner.Y;
    input[y - 1, x - 1, i] + input[y - 1, x, i] + input[y - 1, x + 1, i]
      + input[y, x - 1, i] + input[y, x, i] + input[y, x + 1, i]
      + input[y + 1, x - 1, i] + input[y + 1, x, i] + input[y + 1, x + 1, i]
  }
}
