/** Points and the half-open rectangle RectangleC of SourceAFIS.General.
    Coordinates follow the mathematical convention: Y grows upwards, so a rectangle
    spans columns [Left, Right) and rows [Bottom, Top).
    RectangleC is a C# struct: assigning it copies it, so it has no identity. It is a
    datatype here, and each of its mutating members is a method that returns the
    updated value. */
module Geometry {

  /** An unsigned 8-bit value (C# `byte`). */
  type Byte = x: int | 0 <= x < 256

  datatype Point = Point(X: int, Y: int)

  datatype Size = Size(Width: int, Height: int)

  /** `Calc.Add` on points. */
  function AddPoints(a: Point, b: Point): Point { Point(a.X + b.X, a.Y + b.Y) }

  /** C# `%` and `/`, which truncate toward zero. */
  function TruncDiv(a: int, b: int): int
    requires b != 0
  {
    if a >= 0 then (if b > 0 then a / b else -(a / -b))
    else (if b > 0 then -((-a) / b) else (-a) / (-b))
  }

  function TruncMod(a: int, b: int): int
    requires b != 0
  {
    a - TruncDiv(a, b) * b
  }

  datatype RectangleC = RectangleC(X: int, Y: int, Width: int, Height: int)
  {
    function Left(): int { X }
    function Bottom(): int { Y }
    function Right(): int { X + Width }
    function Top(): int { Y + Height }

    function Origin(): Point { Point(X, Y) }
    function GetSize(): Size { Size(Width, Height) }
    /** The midpoint, each coordinate halved with C#'s truncating division: it lies
        between the edges, and inside a non-empty rectangle whose origin is not negative. */
    function Center(): (r: Point)
      ensures Width >= 0 ==> Left() <= r.X <= Right()
      ensures Height >= 0 ==> Bottom() <= r.Y <= Top()
      ensures X >= 0 && Y >= 0 && Width > 0 && Height > 0 ==> Contains(r)
    {
      Point(TruncDiv(Right() + Left(), 2), TruncDiv(Bottom() + Top(), 2))
    }

    /** Width times height: zero exactly for a degenerate rectangle. */
    function TotalArea(): (r: int)
      ensures Width >= 0 && Height >= 0 ==> r >= 0
      ensures r == 0 <==> Width == 0 || Height == 0
    {
      Width * Height
    }

    /** The `Left` setter: moves the left edge and keeps the right one. */
    function WithLeft(value: int): (r: RectangleC)
      ensures r.Left() == value
      ensures r.Right() == Right() && r.Bottom() == Bottom() && r.Top() == Top()
    {
      this.(X := value, Width := Width + X - value)
    }

    /** The `Bottom` setter: moves the bottom edge and keeps the top one. */
    function WithBottom(value: int): (r: RectangleC)
      ensures r.Bottom() == value
      ensures r.Top() == Top() && r.Left() == Left() && r.Right() == Right()
    {
      this.(Y := value, Height := Height + Y - value)
    }

    /** The `Right` setter: moves the right edge and keeps the left one. */
    function WithRight(value: int): (r: RectangleC)
      ensures r.Right() == value
      ensures r.Left() == Left() && r.Bottom() == Bottom() && r.Top() == Top()
    {
      this.(Width := value - X)
    }

    /** The `Top` setter: moves the top edge and keeps the bottom one. */
    function WithTop(value: int): (r: RectangleC)
      ensures r.Top() == value
      ensures r.Bottom() == Bottom() && r.Left() == Left() && r.Right() == Right()
    {
      this.(Height := value - Y)
    }

    /** Half-open bounds: the left and bottom edges are inside, the right and top are not,
        so only a rectangle with positive width and height contains anything. */
    predicate Contains(point: Point)
      ensures Contains(point) ==> Width > 0 && Height > 0 && Count() > 0
    {
      point.X >= Left() && point.Y >= Bottom() && point.X < Right() && point.Y < Top()
    }

    /** Coordinates of `absolute` measured from the rectangle's origin: they fall within
        [0, Width) x [0, Height) exactly for the points the rectangle contains. */
    function GetRelative(absolute: Point): (r: Point)
      ensures Contains(absolute) <==> 0 <= r.X < Width && 0 <= r.Y < Height
    {
      Point(absolute.X - X, absolute.Y - Y)
    }

    /** `Shift`: moves the origin by `relative`, keeping the size. */
    method Shift(relative: Point) returns (r: RectangleC)
      ensures r.Origin() == AddPoints(Origin(), relative)
      ensures r.GetSize() == GetSize()
      ensures forall p :: r.Contains(p) <==> Contains(Point(p.X - relative.X, p.Y - relative.Y))
    {
      r := this;
      var origin := AddPoints(r.Origin(), relative);
      r := r.(X := origin.X, Y := origin.Y);
    }

    /** `GetShifted`: a shifted copy; the receiver, being a value, cannot change. */
    method GetShifted(relative: Point) returns (result: RectangleC)
      ensures result.Origin() == AddPoints(Origin(), relative)
      ensures result.GetSize() == GetSize()
    {
      var copy := this;
      result := copy.Shift(relative);
    }

    /** `Clip`: intersects with `other` by moving each edge inwards where needed. */
    method Clip(other: RectangleC) returns (r: RectangleC)
      ensures forall p :: r.Contains(p) <==> Contains(p) && other.Contains(p)
      ensures r.Left() == (if Left() < other.Left() then other.Left() else Left())
      ensures r.Right() == (if Right() > other.Right() then other.Right() else Right())
      ensures r.Bottom() == (if Bottom() < other.Bottom() then other.Bottom() else Bottom())
      ensures r.Top() == (if Top() > other.Top() then other.Top() else Top())
    {
      r := this;
      if r.Left() < other.Left() {
        r := r.WithLeft(other.Left());
      }
      if r.Right() > other.Right() {
        r := r.WithRight(other.Right());
      }
      if r.Bottom() < other.Bottom() {
        r := r.WithBottom(other.Bottom());
      }
      if r.Top() > other.Top() {
        r := r.WithTop(other.Top());
      }
    }

    /** `Include`: grows the rectangle just enough to contain `point`. */
    method Include(point: Point) returns (r: RectangleC)
      ensures r.Contains(point)
      ensures forall p :: Contains(p) ==> r.Contains(p)
      ensures r.Left() <= Left() && r.Bottom() <= Bottom()
      ensures Contains(point) ==> r == this
      ensures r.Left() == (if Left() > point.X then point.X else Left())
      ensures r.Right() == (if Right() <= point.X then point.X + 1 else Right())
      ensures r.Bottom() == (if Bottom() > point.Y then point.Y else Bottom())
      ensures r.Top() == (if Top() <= point.Y then point.Y + 1 else Top())
    {
      r := this;
      if r.Left() > point.X {
        r := r.WithLeft(point.X);
      }
      if r.Right() <= point.X {
        r := r.WithRight(point.X + 1);
      }
      if r.Bottom() > point.Y {
        r := r.WithBottom(point.Y);
      }
      if r.Top() <= point.Y {
        r := r.WithTop(point.Y + 1);
      }
    }

    /** `ICollection<Point>.Count`. */
    function Count(): (r: int)
      ensures Width > 0 && Height > 0 ==> r == RowMajorIndex(this, Point(Right() - 1, Top() - 1)) + 1
    {
      TotalArea()
    }

    /** The `IList<Point>` indexer: position `at` of a row-major walk, relative to the
        origin. */
    function ItemAt(at: int): (r: Point)
      requires Width != 0
      ensures Width > 0 && at >= 0 ==> 0 <= r.X < Width && 0 <= r.Y && r.Y * Width + r.X == at
    {
      Point(TruncMod(at, Width), TruncDiv(at, Width))
    }
  }

  /** With a negative origin, truncation toward zero can round the centre onto the
      excluded right edge: the one-pixel rectangle at (-3, 0) does not contain its centre. */
  lemma CenterOutsideNegativeRectangle()
    ensures RectangleC(-3, 0, 1, 1).Center() == Point(-2, 0)
    ensures !RectangleC(-3, 0, 1, 1).Contains(RectangleC(-3, 0, 1, 1).Center())
  {
  }

  /** Adding the origin back to relative coordinates recovers the absolute point, and
      relative coordinates of a shifted point are shifted likewise. */
  lemma GetRelativeInverse(rect: RectangleC, absolute: Point, relative: Point)
    ensures AddPoints(rect.Origin(), rect.GetRelative(absolute)) == absolute
    ensures rect.GetRelative(AddPoints(absolute, relative)) == AddPoints(rect.GetRelative(absolute), relative)
  {
  }

  /** The `at`-th point of the row-major walk over `rect` that starts at (Left, Bottom). */
  function RowMajorAt(rect: RectangleC, at: int): Point
    requires rect.Width > 0
  {
    Point(rect.Left() + at % rect.Width, rect.Bottom() + at / rect.Width)
  }

  /** Index of `p` in that walk. */
  function RowMajorIndex(rect: RectangleC, p: Point): int
  {
    (p.Y - rect.Bottom()) * rect.Width + (p.X - rect.Left())
  }

  /** The walk is a bijection between [0, Count) and the contained points. */
  lemma {:induction false} RowMajorCoversRect(rect: RectangleC, at: int)
    requires rect.Width > 0 && 0 <= at < rect.Count()
    ensures rect.Contains(RowMajorAt(rect, at))
    ensures RowMajorIndex(rect, RowMajorAt(rect, at)) == at
    ensures rect.GetRelative(RowMajorAt(rect, at)) == rect.ItemAt(at)
  {
    var w := rect.Width;
    var q, r := at / w, at % w;
    if q >= rect.Height {
      MulMonotone(rect.Height, q, w);
    }
    DivModUnique(RowMajorIndex(rect, RowMajorAt(rect, at)), w, q, r);
  }

  lemma {:induction false} RowMajorIndexInverse(rect: RectangleC, p: Point)
    requires rect.Contains(p)
    ensures 0 <= RowMajorIndex(rect, p) < rect.Count()
    ensures RowMajorAt(rect, RowMajorIndex(rect, p)) == p
  {
    var w, dy, dx := rect.Width, p.Y - rect.Bottom(), p.X - rect.Left();
    assert 0 <= dy < rect.Height && 0 <= dx < w;
    MulMonotone(dy, rect.Height - 1, w);
    assert (rect.Height - 1) * w + w == rect.Height * w;
    assert RowMajorIndex(rect, p) == dy * w + dx;
    DivModUnique(dy * w + dx, w, dy, dx);
  }

  lemma DivModUnique(n: int, m: int, q: int, r: int)
    requires m > 0 && 0 <= r < m && n == q * m + r
    ensures n / m == q && n % m == r
  {
    var q', r' := n / m, n % m;
    assert q' * m + r' == q * m + r;
    if q' > q {
      MulMonotone(1, q' - q, m);
    } else if q' < q {
      MulMonotone(1, q - q', m);
    }
  }

  lemma MulMonotone(a: int, b: int, m: int)
    requires a <= b && m > 0
    ensures a * m <= b * m
  {
  }

  /** Moving one step along the walk. */
  lemma {:induction false} RowMajorNext(rect: RectangleC, at: int)
    requires rect.Width > 0 && 0 <= at
    ensures var p := RowMajorAt(rect, at);
            RowMajorAt(rect, at + 1)
              == if p.X + 1 < rect.Right() then Point(p.X + 1, p.Y) else Point(rect.Left(), p.Y + 1)
  {
    var w := rect.Width;
    if at % w + 1 < w {
      DivModUnique(at + 1, w, at / w, at % w + 1);
    } else {
      DivModUnique(at + 1, w, at / w + 1, 0);
    }
  }

  /** The walk ends at the top-right corner. */
  lemma RowMajorLast(rect: RectangleC)
    requires rect.Width > 0 && rect.Height > 0
    ensures RowMajorAt(rect, rect.Count() - 1) == Point(rect.Right() - 1, rect.Top() - 1)
  {
    DivModUnique(rect.Count() - 1, rect.Width, rect.Height - 1, rect.Width - 1);
  }

  /** One `MoveNext` of the rectangle enumerator from position `at`, on any rectangle:
      the new position and the returned flag. The position moves right; past the
      right edge it moves up a row and back to the left edge, unless that row is at
      or past the top, in which case the step reports the end. */
  function EnumeratorStep(rect: RectangleC, at: Point): (Point, bool)
  {
    if at.X + 1 < rect.Right() then (Point(at.X + 1, at.Y), true)
    else if at.Y + 1 >= rect.Top() then (Point(at.X + 1, at.Y + 1), false)
    else (Point(rect.Left(), at.Y + 1), true)
  }

  /** The step never checks that the rectangle has points: from the starting position
      of an empty rectangle that is at least one column wide, or that has no columns
      but at least two rows, the first step still reports a point, and that point lies
      outside the rectangle. */
  lemma EmptyRectangleStillYields(rect: RectangleC)
    requires (rect.Width > 0 && rect.Height <= 0) || (rect.Width <= 0 && rect.Height > 1)
    ensures rect.Count() <= 0
    ensures var (p, more) := EnumeratorStep(rect, Point(rect.X - 1, rect.Y));
            more && !rect.Contains(p)
  {
    if rect.Width > 0 {
      MulMonotone(rect.Height, 0, rect.Width);
    } else {
      MulMonotone(rect.Width, 0, rect.Height);
      assert rect.Height * rect.Width <= 0;
    }
  }

  /** The rectangle of three columns and no rows produces (0, 0), (1, 0) and (2, 0)
      before it reports the end, although it contains no point. */
  lemma EmptyRowExample()
    ensures var rect := RectangleC(0, 0, 3, 0);
            && rect.Count() == 0
            && EnumeratorStep(rect, Point(-1, 0)) == (Point(0, 0), true)
            && EnumeratorStep(rect, Point(0, 0)) == (Point(1, 0), true)
            && EnumeratorStep(rect, Point(1, 0)) == (Point(2, 0), true)
            && EnumeratorStep(rect, Point(2, 0)) == (Point(3, 1), false)
  {
  }

  /** Where the enumerator of a non-empty rectangle stands after `yielded` points: before
      the first one, on the last point produced, or, once all were produced, at or beyond
      the top-right corner. */
  predicate WalkState(rect: RectangleC, at: Point, yielded: int)
    requires rect.Width > 0
  {
    && 0 <= yielded <= rect.Count()
    && (yielded == 0 ==> at == Point(rect.X - 1, rect.Y))
    && (0 < yielded < rect.Count() ==> at == RowMajorAt(rect, yielded - 1))
    && (yielded == rect.Count() ==> at.X >= rect.Right() - 1 && at.Y >= rect.Top() - 1)
  }

  /** On a non-empty rectangle one step produces the next point of the row-major walk
      exactly while some point is left, and keeps `WalkState`. */
  lemma StepAlongWalk(rect: RectangleC, at: Point, yielded: int)
    requires rect.Width > 0 && rect.Height > 0 && WalkState(rect, at, yielded)
    ensures var (next, more) := EnumeratorStep(rect, at);
            && (more <==> yielded < rect.Count())
            && (more ==> next == RowMajorAt(rect, yielded) && WalkState(rect, next, yielded + 1))
            && (!more ==> WalkState(rect, next, yielded))
  {
    if yielded < rect.Count() {
      RowMajorCoversRect(rect, yielded);
      if yielded > 0 {
        RowMajorNext(rect, yielded - 1);
      }
      if yielded + 1 == rect.Count() {
        RowMajorLast(rect);
      }
    }
  }

  /** The enumerator of a rectangle: `At` starts one step left of (Left, Bottom) and
      `MoveNext` advances it by `EnumeratorStep`. `Yielded` counts the steps that
      reported a point. */
  class RectEnumerator {
    const Rect: RectangleC
    var At: Point
    ghost var Yielded: nat

    /** For a non-empty rectangle, `At` is the last point produced, and once all have
        been produced it sits at or beyond the top-right corner. An empty rectangle
        constrains nothing. */
    ghost predicate Valid()
      reads this
    {
      Rect.Width > 0 && Rect.Height > 0 ==> WalkState(Rect, At, Yielded)
    }

    constructor (rect: RectangleC)
      ensures Rect == rect && At == Point(rect.X - 1, rect.Y) && Yielded == 0
      ensures Valid()
    {
      Rect := rect;
      At := Point(rect.X - 1, rect.Y);
      Yielded := 0;
    }

    /** Takes one step on any rectangle. On a non-empty one this produces the points
        of the rectangle one by one in row-major order, then reports `false` from then
        on. */
    method MoveNext() returns (more: bool)
      requires Valid()
      modifies this
      ensures Valid()
      ensures (At, more) == EnumeratorStep(Rect, old(At))
      ensures Yielded == if more then old(Yielded) + 1 else old(Yielded)
      ensures Rect.Width > 0 && Rect.Height > 0 ==> (more <==> old(Yielded) < Rect.Count())
      ensures Rect.Width > 0 && Rect.Height > 0 && more ==> At == RowMajorAt(Rect, old(Yielded))
    {
      if Rect.Width > 0 && Rect.Height > 0 {
        StepAlongWalk(Rect, At, Yielded);
      }
      At := At.(X := At.X + 1);
      if At.X >= Rect.Right() {
        At := At.(Y := At.Y + 1);
        if At.Y >= Rect.Top() {
          return false;
        }
        At := At.(X := Rect.Left());
      }
      more := true;
      Yielded := Yielded + 1;
    }

    /** Moves `At` back to the starting position, on any rectangle. */
    method Reset()
      modifies this
      ensures Valid() && Yielded == 0 && At == Point(Rect.X - 1, Rect.Y)
    {
      At := Point(Rect.X - 1, Rect.Y);
      Yielded := 0;
    }
  }
}
