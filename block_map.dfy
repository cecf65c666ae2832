/** The block grid the extraction stages iterate over. BlockMap itself is not part of
    this model: it is represented by what the stages read from it (pixel, block and
    corner counts, and the pixel area of every block and corner) together with the
    guarantees it gives (areas lie inside the image and do not overlap). */
module BlockGrid {
  import opened Geometry

  /** Two rectangles of non-negative size that share no point. */
  predicate Disjoint(a: RectangleC, b: RectangleC)
  {
    || a.Width == 0 || a.Height == 0 || b.Width == 0 || b.Height == 0
    || a.Right() <= b.Left() || b.Right() <= a.Left()
    || a.Top() <= b.Bottom() || b.Top() <= a.Bottom()
  }

  lemma DisjointShareNothing(a: RectangleC, b: RectangleC, p: Point)
    requires Disjoint(a, b) && a.Contains(p)
    ensures !b.Contains(p)
  {
  }

  /** `area` is a rectangle of non-negative size inside a `size`-sized image. */
  predicate Inside(area: RectangleC, size: Size)
  {
    && area.Width >= 0 && area.Height >= 0
    && 0 <= area.Left() && area.Right() <= size.Width
    && 0 <= area.Bottom() && area.Top() <= size.Height
  }

  /** A grid of `count` cells, each with its pixel area, stored row by row (`[y][x]`). */
  predicate IsAreaGrid(areas: seq<seq<RectangleC>>, count: Size, pixels: Size)
  {
    && count.Width >= 0 && count.Height >= 0
    && |areas| == count.Height
    && (forall y :: 0 <= y < count.Height ==> |areas[y]| == count.Width)
    && (forall y, x :: 0 <= y < count.Height && 0 <= x < count.Width ==> Inside(areas[y][x], pixels))
  }

  /** No two cells of the grid share a pixel. */
  predicate NoOverlap(areas: seq<seq<RectangleC>>, count: Size)
    requires |areas| == count.Height && forall y :: 0 <= y < count.Height ==> |areas[y]| == count.Width
  {
    forall y1, x1, y2, x2 ::
      (&& 0 <= y1 < count.Height && 0 <= x1 < count.Width
       && 0 <= y2 < count.Height && 0 <= x2 < count.Width
       && (y1 != y2 || x1 != x2))
      ==> Disjoint(areas[y1][x1], areas[y2][x2])
  }

  datatype BlockMap = BlockMap(
    PixelCount: Size,
    BlockCount: Size,
    CornerCount: Size,
    BlockAreas: seq<seq<RectangleC>>,
    CornerAreas: seq<seq<RectangleC>>)
  {
    function PixelRect(): RectangleC { RectangleC(0, 0, PixelCount.Width, PixelCount.Height) }
    function BlockRect(): RectangleC { RectangleC(0, 0, BlockCount.Width, BlockCount.Height) }
    function CornerRect(): RectangleC { RectangleC(0, 0, CornerCount.Width, CornerCount.Height) }

    predicate Valid()
    {
      && PixelCount.Width >= 0 && PixelCount.Height >= 0
      && IsAreaGrid(BlockAreas, BlockCount, PixelCount)
      && IsAreaGrid(CornerAreas, CornerCount, PixelCount)
      && NoOverlap(BlockAreas, BlockCount)
      && NoOverlap(CornerAreas, CornerCount)
    }
  }

  /** Blocks are visited row by row; `(y1, x1)` comes before `(y2, x2)`. */
  predicate Before(y1: int, x1: int, y2: int, x2: int)
  {
    y1 < y2 || (y1 == y2 && x1 < x2)
  }
}
