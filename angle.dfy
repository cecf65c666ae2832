/** Byte-encoded angle arithmetic of SourceAFIS.General.Angle.
    An angle byte splits the full turn into 256 equal steps; `PIB` (128) is half a turn.
    A C# cast `(byte)v` keeps the low eight bits of `v`, which for every integer `v`
    is Dafny's Euclidean `v % 256`. */
module Angle {
  import opened Geometry

  /** Half a turn in byte units. */
  const PIB: Byte := 128
  const B180: Byte := PIB
  const B90: Byte := B180 / 2
  const B60: Byte := B180 / 3
  const B45: Byte := B180 / 4
  const B30: Byte := B180 / 6
  const B15: Byte := B180 / 12

  /** The C# `(byte)` cast of an int: its low eight bits. */
  function ToByte(v: int): Byte { v % 256 }

  /** Turning by `angle2` from `angle1`: the byte sum, wrapped once past a full turn. */
  function Add(angle1: Byte, angle2: Byte): (r: Byte)
    ensures angle1 + angle2 < 256 ==> r == angle1 + angle2
    ensures angle1 + angle2 >= 256 ==> r == angle1 + angle2 - 256
  { ToByte(angle1 + angle2) }

  /** The turn from `angle2` to `angle1`: the byte difference, wrapped once below zero. */
  function Difference(angle1: Byte, angle2: Byte): (r: Byte)
    ensures angle1 >= angle2 ==> r == angle1 - angle2
    ensures angle1 < angle2 ==> r == angle1 - angle2 + 256
  { ToByte(angle1 - angle2) }

  /** The angle that completes `angle` to a full turn. */
  function Complementary(angle: Byte): (r: Byte)
    ensures r == 0 <==> angle == 0
    ensures angle != 0 ==> r == 256 - angle
  { ToByte(-(angle as int)) }

  /** The angle half a turn away. */
  function Opposite(angle: Byte): (r: Byte)
    ensures angle < PIB ==> r == angle + PIB
    ensures angle >= PIB ==> r == angle - PIB
  { ToByte(angle + PIB) }

  /** Circular distance: the shorter way round, never more than half a turn,
      and zero exactly when the two angles coincide. */
  function Distance(first: Byte, second: Byte): (r: Byte)
    ensures r <= PIB
    ensures r == 0 <==> first == second
    ensures r == Difference(first, second) || r == Difference(second, first)
  {
    var diff := Difference(first, second);
    if diff <= PIB then diff else Complementary(diff)
  }

  /** A direction (full turn) doubled onto an orientation (half turn spread over the byte). */
  function ToOrientation(direction: Byte): (r: Byte)
    ensures direction < PIB ==> r == 2 * direction
    ensures direction >= PIB ==> r == 2 * (direction - PIB)
  { ToByte(2 * direction) }

  /** An orientation halved back into the first half turn of directions. */
  function ToDirection(orientation: Byte): (r: Byte)
    ensures r < PIB
    ensures orientation == 2 * r || orientation == 2 * r + 1
  { orientation / 2 }

  /** Whole degrees to a byte, rounding to the nearest step. */
  function FromDegreesB(degrees: int): (r: Byte)
    ensures 0 <= degrees < 360 ==> degrees * 256 - 180 < r * 360 <= degrees * 256 + 180
  { ToByte(TruncDiv(degrees * 256 + 180, 360)) }

  /** A byte to whole degrees, rounding to the nearest degree. */
  function ToDegrees(angle: Byte): (r: int)
    ensures 0 <= r < 360
    ensures angle * 360 - 128 < r * 256 <= angle * 360 + 128
  { (angle * 360 + 128) / 256 }

  /** The bucket of `angle` when the full turn is cut into `resolution` buckets. */
  function Quantize(angle: Byte, resolution: int): (r: int)
    ensures resolution >= 0 ==> r * 256 <= angle * resolution < r * 256 + 256
  {
    TruncDiv(angle * resolution, 256)
  }

  // ---------------------------------------------------------------- lemmas

  /** The cast of a value that lies `k` turns above a byte. */
  lemma ToByteShifted(v: int, k: int)
    requires 0 <= v - 256 * k < 256
    ensures ToByte(v) == v - 256 * k
  {
    DivModUnique(v, 256, k, v - 256 * k);
  }

  lemma AddUndoesDifference(a: Byte, b: Byte)
    ensures Add(Difference(a, b), b) == a
    ensures Difference(Add(a, b), b) == a
  {
    ToByteShifted(a, 0);
    if a >= b {
      ToByteShifted(a as int - b, 0);
    } else {
      ToByteShifted(a as int - b, -1);
      ToByteShifted(a as int + 256, 1);
    }
    if a + b < 256 {
      ToByteShifted(a as int + b, 0);
    } else {
      ToByteShifted(a as int + b, 1);
      ToByteShifted(a as int - 256, -1);
    }
  }

  lemma DistanceSymmetric(a: Byte, b: Byte)
    ensures Distance(a, b) == Distance(b, a)
  {
    if a > b {
      ToByteShifted(a as int - b, 0);
      ToByteShifted(b as int - a, -1);
      ToByteShifted(-(a as int - b), -1);
      assert Difference(b, a) == Complementary(Difference(a, b));
    } else if a < b {
      ToByteShifted(b as int - a, 0);
      ToByteShifted(a as int - b, -1);
      ToByteShifted(-(b as int - a), -1);
      assert Difference(a, b) == Complementary(Difference(b, a));
    }
  }

  lemma ComplementaryIsInverse(a: Byte)
    ensures Add(Complementary(a), a) == 0
    ensures Complementary(Complementary(a)) == a
    ensures Difference(0, a) == Complementary(a)
  {
    if a == 0 {
      ToByteShifted(0, 0);
    } else {
      ToByteShifted(-(a as int), -1);
      ToByteShifted(a as int - 256, -1);
      ToByteShifted(256, 1);
    }
  }

  lemma OppositeIsHalfTurn(a: Byte)
    ensures Opposite(Opposite(a)) == a
    ensures Distance(a, Opposite(a)) == PIB
    ensures Opposite(a) != a
  {
  }

  lemma OrientationRoundTrip(d: Byte)
    ensures ToOrientation(d) % 2 == 0
    ensures ToDirection(ToOrientation(d)) == d % 128
  {
  }

  /** Floor division pinned down by its two bounds. */
  lemma DivBetween(n: int, m: int, q: int)
    requires m > 0 && q * m <= n < q * m + m
    ensures n / m == q
  {
    DivModUnique(n, m, q, n - q * m);
  }

  lemma {:induction false} DegreesRoundTrip(b: Byte)
    ensures 0 <= ToDegrees(b) < 360
    ensures FromDegreesB(ToDegrees(b)) == b
  {
    var d := ToDegrees(b);
    var n := b * 360 + 128;
    assert 256 * d <= n < 256 * d + 256;
    DivBetween(d * 256 + 180, 360, b);
  }

  lemma {:induction false} DegreesNearlyRoundTrip(degrees: int)
    requires 0 <= degrees < 360
    ensures -1 <= ToDegrees(FromDegreesB(degrees)) - degrees <= 1
  {
    var n := degrees * 256 + 180;
    var b := n / 360;
    DivModUnique(n, 360, b, n % 360);
    assert 360 * b <= n < 360 * b + 360;
    assert b < 256;
    ToByteShifted(b, 0);
    assert FromDegreesB(degrees) == b;
    var d := ToDegrees(b);
    DivModUnique(b * 360 + 128, 256, d, (b * 360 + 128) % 256);
    assert 256 * d <= b * 360 + 128 < 256 * d + 256;
  }

  lemma {:induction false} QuantizeInRange(a: Byte, resolution: int)
    requires resolution > 0
    ensures 0 <= Quantize(a, resolution) < resolution
  {
    var n := a * resolution;
    assert 0 <= n <= 255 * resolution;
    var q := n / 256;
    assert 256 * q <= n < 256 * q + 256;
  }

  lemma {:induction false} QuantizeMonotone(a: Byte, b: Byte, resolution: int)
    requires resolution > 0 && a <= b
    ensures Quantize(a, resolution) <= Quantize(b, resolution)
  {
    assert a * resolution <= b * resolution;
    var qa, qb := a * resolution / 256, b * resolution / 256;
    assert 256 * qa <= a * resolution < 256 * qa + 256;
    assert 256 * qb <= b * resolution < 256 * qb + 256;
  }

  // ------------------------------------------------------------ polar cache

  /** One entry of the precomputed polar table: rounded length and byte angle of a
      vector whose both coordinates are below the cache radius. */
  datatype PolarPointB = PolarPointB(Distance: int, Angle: Byte)

  datatype PolarPoint = PolarPoint(Distance: int, Angle: Byte)

  const PolarCacheBits: nat := 8
  const PolarCacheRadius: nat := 256

  /** The polar table is filled from square roots and arc tangents; here it is any
      table of the right shape. */
  predicate IsPolarCache(cache: seq<seq<PolarPointB>>)
  {
    |cache| == PolarCacheRadius && forall y :: 0 <= y < |cache| ==> |cache[y]| == PolarCacheRadius
  }

  function Pow2(n: nat): (r: nat)
    ensures r > 0
  {
    if n == 0 then 1 else 2 * Pow2(n - 1)
  }

  /** `v >> n` on a non-negative int. */
  function ShiftRight(v: nat, n: nat): nat
  {
    if n == 0 then v else ShiftRight(v / 2, n - 1)
  }

  /** The number of halvings that bring `v` below the cache radius: the role played by
      `Calc.HighestBit((uint)(x | y) >> PolarCacheBits)` with `v` the larger coordinate. */
  function CacheShift(v: nat): nat
  {
    if v < PolarCacheRadius then 0 else 1 + CacheShift(v / 2)
  }

  lemma {:induction false} ShiftRightMonotone(u: nat, v: nat, n: nat)
    requires u <= v
    ensures ShiftRight(u, n) <= ShiftRight(v, n)
  {
    if n > 0 {
      ShiftRightMonotone(u / 2, v / 2, n - 1);
    }
  }

  lemma {:induction false} CacheShiftFits(v: nat)
    ensures ShiftRight(v, CacheShift(v)) < PolarCacheRadius
  {
    if v >= PolarCacheRadius {
      CacheShiftFits(v / 2);
    }
  }

  /** Counter-clockwise rotation by `quadrant` (a multiple of 64, i.e. of a right angle). */
  function Rotate(p: Point, quadrant: int): Point
  {
    if quadrant == 0 then p
    else if quadrant == 64 then Point(-p.Y, p.X)
    else if quadrant == 128 then Point(-p.X, -p.Y)
    else Point(p.Y, -p.X)
  }

  /** `(x, y)` lies in the half-open first quadrant reserved for `quadrant`, and turning it
      back by `quadrant` gives `point`. */
  ghost predicate IsFolding(point: Point, x: int, y: int, quadrant: int)
  {
    && x >= 0 && y >= 0
    && quadrant in {0, 64, 128, 192}
    && (quadrant != 0 ==> y > 0)
    && (quadrant == 192 ==> x > 0)
    && Rotate(Point(x, y), quadrant) == point
  }

  /** Every point has exactly one folding. */
  lemma FoldingUnique(point: Point, x1: int, y1: int, q1: int, x2: int, y2: int, q2: int)
    requires IsFolding(point, x1, y1, q1) && IsFolding(point, x2, y2, q2)
    ensures x1 == x2 && y1 == y2 && q1 == q2
  {
  }

  /** Polar form of `point`: reflect it into the first quadrant, look the (possibly
      down-shifted) vector up in the cache, scale the length back and turn the angle
      back by the quadrant. */
  method ToPolar(cache: seq<seq<PolarPointB>>, point: Point)
    returns (r: PolarPoint, ghost x: int, ghost y: int, ghost quadrant: int)
    requires IsPolarCache(cache)
    ensures IsFolding(point, x, y, quadrant)
    ensures var shift := CacheShift(if x < y then y else x);
            && ShiftRight(y, shift) < PolarCacheRadius && ShiftRight(x, shift) < PolarCacheRadius
            && var entry := cache[ShiftRight(y, shift)][ShiftRight(x, shift)];
               r == PolarPoint(entry.Distance * Pow2(shift), ToByte(entry.Angle + quadrant))
  {
    var q := 0;
    var px := point.X;
    var py := point.Y;

    if py < 0 {
      px := -px;
      py := -py;
      q := 128;
    }

    if px < 0 {
      var tmp := -px;
      px := py;
      py := tmp;
      q := q + 64;
    }

    var larger: nat := if px < py then py else px;
    var shift := CacheShift(larger);
    CacheShiftFits(larger);
    ShiftRightMonotone(px, larger, shift);
    ShiftRightMonotone(py, larger, shift);
    var polarB := cache[ShiftRight(py, shift)][ShiftRight(px, shift)];
    x, y, quadrant := px, py, q;
    r := PolarPoint(polarB.Distance * Pow2(shift), ToByte(polarB.Angle + q));
  }
}
