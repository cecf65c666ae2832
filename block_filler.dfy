/** SourceAFIS.Visualization.BlockFiller: paints a per-block (or per-corner) value over
    the pixel area of its block (or corner). The value type is any C# struct; `zero`
    stands for its `default(T)`, the value every pixel of a new array holds. The
    parallel split over blocks is a sequential row-by-row loop here. */
module BlockFiller {
  import opened Geometry
  import opened BlockGrid

  /** Some cell of the grid has `p` in its area. */
  ghost predicate Covered(areas: seq<seq<RectangleC>>, count: Size, p: Point)
    requires |areas| == count.Height && forall y :: 0 <= y < count.Height ==> |areas[y]| == count.Width
  {
    exists y, x :: 0 <= y < count.Height && 0 <= x < count.Width && areas[y][x].Contains(p)
  }

  /** Writes `fill` into every pixel of `area` and leaves every other pixel as it was. */
  method FillArea<T>(output: array2<T>, area: RectangleC, fill: T)
    requires Inside(area, Size(output.Length1, output.Length0))
    modifies output
    ensures forall y, x :: 0 <= y < output.Length0 && 0 <= x < output.Length1 ==>
      output[y, x] == if area.Contains(Point(x, y)) then fill else old(output[y, x])
  {
    for y := area.Bottom() to area.Top()
      invariant forall y', x :: 0 <= y' < output.Length0 && 0 <= x < output.Length1 ==>
        output[y', x] == if area.Contains(Point(x, y')) && y' < y then fill else old(output[y', x])
    {
      for x := area.Left() to area.Right()
        invariant forall y', x' :: 0 <= y' < output.Length0 && 0 <= x' < output.Length1 ==>
          output[y', x'] == if area.Contains(Point(x', y')) && (y' < y || (y' == y && x' < x)) then fill else old(output[y', x'])
      {
        output[y, x] := fill;
      }
    }
  }

  /** The loop shared by both fillers: a fresh `pixels`-sized array in which the area of
      every grid cell holds that cell's input value and every pixel outside all areas
      holds `zero`. Areas do not overlap, so each pixel gets at most one value. */
  method FillGrid<T>(input: array2<T>, areas: seq<seq<RectangleC>>, count: Size, pixels: Size, zero: T)
    returns (output: array2<T>)
    requires IsAreaGrid(areas, count, pixels) && NoOverlap(areas, count)
    requires pixels.Width >= 0 && pixels.Height >= 0
    requires input.Length0 >= count.Height && input.Length1 >= count.Width
    ensures fresh(output)
    ensures output.Length0 == pixels.Height && output.Length1 == pixels.Width
    ensures forall cy, cx, y, x ::
      (&& 0 <= cy < count.Height && 0 <= cx < count.Width
       && 0 <= y < pixels.Height && 0 <= x < pixels.Width
       && areas[cy][cx].Contains(Point(x, y)))
      ==> output[y, x] == input[cy, cx]
    ensures forall y, x :: 0 <= y < pixels.Height && 0 <= x < pixels.Width && !Covered(areas, count, Point(x, y)) ==>
      output[y, x] == zero
  {
    output := new T[pixels.Height, pixels.Width]((_, _) => zero);
    for cy := 0 to count.Height
      invariant forall cy', cx', y, x ::
        (&& 0 <= cy' < cy && 0 <= cx' < count.Width
         && 0 <= y < pixels.Height && 0 <= x < pixels.Width
         && areas[cy'][cx'].Contains(Point(x, y)))
        ==> output[y, x] == input[cy', cx']
      invariant forall y, x ::
        (&& 0 <= y < pixels.Height && 0 <= x < pixels.Width
         && (forall cy', cx' :: 0 <= cy' < cy && 0 <= cx' < count.Width ==> !areas[cy'][cx'].Contains(Point(x, y))))
        ==> output[y, x] == zero
    {
      for cx := 0 to count.Width
        invariant forall cy', cx', y, x ::
          (&& 0 <= cy' < count.Height && 0 <= cx' < count.Width && Before(cy', cx', cy, cx)
           && 0 <= y < pixels.Height && 0 <= x < pixels.Width
           && areas[cy'][cx'].Contains(Point(x, y)))
          ==> output[y, x] == input[cy', cx']
        invariant forall y, x ::
          (&& 0 <= y < pixels.Height && 0 <= x < pixels.Width
           && (forall cy', cx' :: 0 <= cy' < count.Height && 0 <= cx' < count.Width && Before(cy', cx', cy, cx) ==>
                 !areas[cy'][cx'].Contains(Point(x, y))))
          ==> output[y, x] == zero
      {
        FillArea(output, areas[cy][cx], input[cy, cx]);
      }
    }
  }

  /** `FillBlocks`: every pixel of a block's area shows that block's value. */
  method FillBlocks<T>(input: array2<T>, blocks: BlockMap, zero: T) returns (output: array2<T>)
    requires blocks.Valid()
    requires input.Length0 >= blocks.BlockCount.Height && input.Length1 >= blocks.BlockCount.Width
    ensures fresh(output)
    ensures output.Length0 == blocks.PixelCount.Height && output.Length1 == blocks.PixelCount.Width
    ensures forall blockY, blockX, y, x ::
      (&& 0 <= blockY < blocks.BlockCount.Height && 0 <= blockX < blocks.BlockCount.Width
       && 0 <= y < output.Length0 && 0 <= x < output.Length1
       && blocks.BlockAreas[blockY][blockX].Contains(Point(x, y)))
      ==> output[y, x] == input[blockY, blockX]
    ensures forall y, x ::
      0 <= y < output.Length0 && 0 <= x < output.Length1 && !Covered(blocks.BlockAreas, blocks.BlockCount, Point(x, y)) ==>
      output[y, x] == zero
  {
    output := FillGrid(input, blocks.BlockAreas, blocks.BlockCount, blocks.PixelCount, zero);
  }

  /** `FillCornerAreas`: every pixel of a corner's area shows that corner's value. */
  method FillCornerAreas<T>(input: array2<T>, blocks: BlockMap, zero: T) returns (output: array2<T>)
    requires blocks.Valid()
    requires input.Length0 >= blocks.CornerCount.Height && input.Length1 >= blocks.CornerCount.Width
    ensures fresh(output)
    ensures output.Length0 == blocks.PixelCount.Height && output.Length1 == blocks.PixelCount.Width
    ensures forall cornerY, cornerX, y, x ::
      (&& 0 <= cornerY < blocks.CornerCount.Height && 0 <= cornerX < blocks.CornerCount.Width
       && 0 <= y < output.Length0 && 0 <= x < output.Length1
       && blocks.CornerAreas[cornerY][cornerX].Contains(Point(x, y)))
      ==> output[y, x] == input[cornerY, cornerX]
    ensures forall y, x ::
      0 <= y < output.Length0 && 0 <= x < output.Length1 && !Covered(blocks.CornerAreas, blocks.CornerCount, Point(x, y)) ==>
      output[y, x] == zero
  {
    output := FillGrid(input, blocks.CornerAreas, blocks.CornerCount, blocks.PixelCount, zero);
  }
}
