/** SourceAFIS.Extraction.Filters.ThresholdBinarizer: inside the blocks that the mask
    keeps, a pixel becomes a ridge pixel (bit one) when the image lies strictly above
    the local baseline there. Bitmaps (`BinaryMap`) are `bool` arrays indexed `[y, x]`;
    `float` pixels are reals. The parallel split over block rows is a sequential loop. */
module ThresholdBinarizer {
  import opened Geometry
  import opened BlockGrid

  /** The pixel lies in the area of a block whose mask bit is set. */
  ghost predicate InMaskedBlock(blocks: BlockMap, mask: array2<bool>, p: Point)
    reads mask
    requires blocks.Valid() && mask.Length0 >= blocks.BlockCount.Height && mask.Length1 >= blocks.BlockCount.Width
  {
    exists blockY, blockX ::
      && 0 <= blockY < blocks.BlockCount.Height && 0 <= blockX < blocks.BlockCount.Width
      && mask[blockY, blockX] && blocks.BlockAreas[blockY][blockX].Contains(p)
  }

  /** One masked block: sets the bit of every pixel of `area` that lies above the
      baseline; no other bit changes. */
  method BinarizeBlock(binarized: array2<bool>, area: RectangleC, input: array2<real>, baseline: array2<real>)
    requires Inside(area, Size(binarized.Length1, binarized.Length0))
    requires input.Length0 >= binarized.Length0 && input.Length1 >= binarized.Length1
    requires baseline.Length0 >= binarized.Length0 && baseline.Length1 >= binarized.Length1
    modifies binarized
    ensures forall y, x :: 0 <= y < binarized.Length0 && 0 <= x < binarized.Length1 ==>
      binarized[y, x] == (old(binarized[y, x]) || (area.Contains(Point(x, y)) && input[y, x] - baseline[y, x] > 0.0))
  {
    for y := area.Bottom() to area.Top()
      invariant forall y', x :: 0 <= y' < binarized.Length0 && 0 <= x < binarized.Length1 ==>
        binarized[y', x] == (old(binarized[y', x]) || (area.Contains(Point(x, y')) && y' < y && input[y', x] - baseline[y', x] > 0.0))
    {
      for x := area.Left() to area.Right()
        invariant forall y', x' :: 0 <= y' < binarized.Length0 && 0 <= x' < binarized.Length1 ==>
          binarized[y', x'] == (old(binarized[y', x']) ||
            (area.Contains(Point(x', y')) && (y' < y || (y' == y && x' < x)) && input[y', x'] - baseline[y', x'] > 0.0))
      {
        if input[y, x] - baseline[y, x] > 0.0 {
          binarized[y, x] := true;
        }
      }
    }
  }

  /** The input and baseline cover a `binarized`-sized image tiled by `blocks`. */
  predicate Fits(binarized: array2<bool>, input: array2<real>, baseline: array2<real>, mask: array2<bool>, blocks: BlockMap)
  {
    && blocks.Valid()
    && binarized != mask
    && binarized.Length0 == input.Length0 == blocks.PixelCount.Height
    && binarized.Length1 == input.Length1 == blocks.PixelCount.Width
    && baseline.Length0 >= input.Length0 && baseline.Length1 >= input.Length1
    && mask.Length0 >= blocks.BlockCount.Height && mask.Length1 >= blocks.BlockCount.Width
  }

  /** The pixel lies in a masked block that comes before `(blockY, blockX)` in row order. */
  ghost predicate InMaskedBlockBefore(blocks: BlockMap, mask: array2<bool>, p: Point, blockY: int, blockX: int)
    reads mask
    requires blocks.Valid() && mask.Length0 >= blocks.BlockCount.Height && mask.Length1 >= blocks.BlockCount.Width
  {
    exists blockY', blockX' ::
      && 0 <= blockY' < blocks.BlockCount.Height && 0 <= blockX' < blocks.BlockCount.Width
      && Before(blockY', blockX', blockY, blockX)
      && mask[blockY', blockX'] && blocks.BlockAreas[blockY'][blockX'].Contains(p)
  }

  /** Visiting one more block adds its area when its mask bit is set. */
  lemma MaskedBlockStep(blocks: BlockMap, mask: array2<bool>, p: Point, blockY: int, blockX: int)
    requires blocks.Valid() && mask.Length0 >= blocks.BlockCount.Height && mask.Length1 >= blocks.BlockCount.Width
    requires 0 <= blockY < blocks.BlockCount.Height && 0 <= blockX < blocks.BlockCount.Width
    ensures InMaskedBlockBefore(blocks, mask, p, blockY, blockX + 1) <==>
      (|| InMaskedBlockBefore(blocks, mask, p, blockY, blockX)
       || (mask[blockY, blockX] && blocks.BlockAreas[blockY][blockX].Contains(p)))
  {
    if InMaskedBlockBefore(blocks, mask, p, blockY, blockX + 1) && !InMaskedBlockBefore(blocks, mask, p, blockY, blockX) {
      var blockY', blockX' :| 
        && 0 <= blockY' < blocks.BlockCount.Height && 0 <= blockX' < blocks.BlockCount.Width
        && Before(blockY', blockX', blockY, blockX + 1)
        && mask[blockY', blockX'] && blocks.BlockAreas[blockY'][blockX'].Contains(p);
      assert blockY' == blockY && blockX' == blockX;
    }
  }

  /** No block comes before the first one, the end of a block row is the start of the
      next one, and the end of the last row covers every block. */
  lemma MaskedBlockRowEnd(blocks: BlockMap, mask: array2<bool>, p: Point, blockY: int)
    requires blocks.Valid() && mask.Length0 >= blocks.BlockCount.Height && mask.Length1 >= blocks.BlockCount.Width
    ensures !InMaskedBlockBefore(blocks, mask, p, 0, 0)
    ensures InMaskedBlockBefore(blocks, mask, p, blockY, blocks.BlockCount.Width) ==
      InMaskedBlockBefore(blocks, mask, p, blockY + 1, 0)
    ensures InMaskedBlockBefore(blocks, mask, p, blocks.BlockCount.Height, 0) == InMaskedBlock(blocks, mask, p)
  {
  }

  /** Every bit is set exactly when its pixel lies in a masked block visited so far and
      lies above the baseline. */
  ghost predicate BinarizedBefore(binarized: array2<bool>, input: array2<real>, baseline: array2<real>,
                                  mask: array2<bool>, blocks: BlockMap, blockY: int, blockX: int)
    reads binarized, input, baseline, mask
    requires Fits(binarized, input, baseline, mask, blocks)
  {
    forall y, x :: 0 <= y < binarized.Length0 && 0 <= x < binarized.Length1 ==>
      (binarized[y, x] <==> InMaskedBlockBefore(blocks, mask, Point(x, y), blockY, blockX) && input[y, x] - baseline[y, x] > 0.0)
  }

  /** One step of the walk over the blocks: the block at `(blockY, blockX)`. */
  method BinarizeNext(binarized: array2<bool>, input: array2<real>, baseline: array2<real>,
                      mask: array2<bool>, blocks: BlockMap, blockY: int, blockX: int)
    requires Fits(binarized, input, baseline, mask, blocks)
    requires 0 <= blockY < blocks.BlockCount.Height && 0 <= blockX < blocks.BlockCount.Width
    requires BinarizedBefore(binarized, input, baseline, mask, blocks, blockY, blockX)
    modifies binarized
    ensures BinarizedBefore(binarized, input, baseline, mask, blocks, blockY, blockX + 1)
  {
    if mask[blockY, blockX] {
      BinarizeBlock(binarized, blocks.BlockAreas[blockY][blockX], input, baseline);
    }
    forall y, x | 0 <= y < binarized.Length0 && 0 <= x < binarized.Length1
      ensures binarized[y, x] <==> InMaskedBlockBefore(blocks, mask, Point(x, y), blockY, blockX + 1) && input[y, x] - baseline[y, x] > 0.0
    {
      MaskedBlockStep(blocks, mask, Point(x, y), blockY, blockX);
    }
  }

  /** `Binarize`: a bitmap of the input's size whose bit at `(x, y)` is one exactly when
      the pixel lies in a masked block and the input exceeds the baseline there. */
  method Binarize(input: array2<real>, baseline: array2<real>, mask: array2<bool>, blocks: BlockMap)
    returns (binarized: array2<bool>)
    requires blocks.Valid()
    requires input.Length0 == blocks.PixelCount.Height && input.Length1 == blocks.PixelCount.Width
    requires baseline.Length0 >= input.Length0 && baseline.Length1 >= input.Length1
    requires mask.Length0 >= blocks.BlockCount.Height && mask.Length1 >= blocks.BlockCount.Width
    ensures fresh(binarized)
    ensures binarized.Length0 == input.Length0 && binarized.Length1 == input.Length1
    ensures forall y, x :: 0 <= y < binarized.Length0 && 0 <= x < binarized.Length1 ==>
      (binarized[y, x] <==> InMaskedBlock(blocks, mask, Point(x, y)) && input[y, x] - baseline[y, x] > 0.0)
  {
    binarized := new bool[input.Length0, input.Length1]((_, _) => false);
    var count := blocks.BlockCount;
    forall y, x | 0 <= y < binarized.Length0 && 0 <= x < binarized.Length1
      ensures !InMaskedBlockBefore(blocks, mask, Point(x, y), 0, 0)
    {
      MaskedBlockRowEnd(blocks, mask, Point(x, y), 0);
    }
    for blockY := 0 to count.Height
      invariant BinarizedBefore(binarized, input, baseline, mask, blocks, blockY, 0)
    {
      for blockX := 0 to count.Width
        invariant BinarizedBefore(binarized, input, baseline, mask, blocks, blockY, blockX)
      {
        BinarizeNext(binarized, input, baseline, mask, blocks, blockY, blockX);
      }
      forall y, x | 0 <= y < binarized.Length0 && 0 <= x < binarized.Length1
        ensures InMaskedBlockBefore(blocks, mask, Point(x, y), blockY, count.Width) ==
          InMaskedBlockBefore(blocks, mask, Point(x, y), blockY + 1, 0)
      {
        MaskedBlockRowEnd(blocks, mask, Point(x, y), blockY);
      }
    }
    forall y, x | 0 <= y < binarized.Length0 && 0 <= x < binarized.Length1
      ensures InMaskedBlockBefore(blocks, mask, Point(x, y), count.Height, 0) == InMaskedBlock(blocks, mask, Point(x, y))
    {
      MaskedBlockRowEnd(blocks, mask, Point(x, y), count.Height);
    }
  }
}
