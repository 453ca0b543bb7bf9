/**
 * Display-to-pixel coordinate mapping. Both platforms compute
 * `scale = imageDim / displayDim`, truncate `coord * scale` toward zero and clamp the
 * result into `[0, pixelDim - 1]`; they differ only in how the clamp is written.
 * Floating point is modelled by exact reals.
 */
module Coordinates {

  /** One call's arguments: the image's URI, the display point and the displayed size. */
  datatype SampleRequest = SampleRequest(uri: string, x: real, y: real, displayWidth: real, displayHeight: real)
  {
    /** A finite scale factor exists only for a non-zero display size. */
    predicate HasDisplaySize() {
      displayWidth != 0.0 && displayHeight != 0.0
    }
  }

  /** Conversion of a real to an integer, truncating toward zero (`Int(_)` in Swift, `toInt()` in Kotlin). */
  function Trunc(v: real): (n: int)
    ensures 0.0 <= v ==> 0 <= n && n as real <= v < n as real + 1.0
    ensures v < 0.0 ==> n <= 0 && n as real - 1.0 < v <= n as real
  {
    if v >= 0.0 then v.Floor else -((-v).Floor)
  }

  /**
   * The unclamped image coordinate: `Int(coord * (imageDim / displayDim))`, the scaled
   * coordinate truncated toward zero.
   */
  function ScaledIndex(coord: real, imageDim: real, displayDim: real): (n: int)
    requires displayDim != 0.0
    ensures var v := coord * (imageDim / displayDim);
      (0.0 <= v ==> 0 <= n && n as real <= v < n as real + 1.0)
      && (v < 0.0 ==> n <= 0 && n as real - 1.0 < v <= n as real)
  {
    Trunc(coord * (imageDim / displayDim))
  }

  /** Swift's `max(0, min(v, last))`. */
  function ClampToLast(v: int, last: int): (r: int)
    ensures 0 <= r && (0 <= last ==> r <= last)
    ensures 0 <= v <= last ==> r == v
    ensures v < 0 ==> r == 0
    ensures 0 <= last < v ==> r == last
  {
    if v < last then (if v < 0 then 0 else v) else (if last < 0 then 0 else last)
  }

  /** Kotlin's `v.coerceIn(lo, hi)`, which throws when `lo > hi`. */
  function CoerceIn(v: int, lo: int, hi: int): (r: int)
    requires lo <= hi
    ensures lo <= r <= hi
    ensures lo <= v <= hi ==> r == v
    ensures v < lo ==> r == lo
    ensures v > hi ==> r == hi
  {
    if v < lo then lo else if v > hi then hi else v
  }

  /**
   * The pixel column (or row) the iOS code samples: truncation in `getPixelColorSync`
   * against the UIImage's point size, then the clamp in `pixelColor` against the
   * CGImage's pixel size.
   */
  function IosPixelIndex(coord: real, pointDim: real, displayDim: real, pixelDim: nat): (p: int)
    requires displayDim != 0.0 && pixelDim >= 1
    ensures 0 <= p < pixelDim
  {
    ClampToLast(ScaledIndex(coord, pointDim, displayDim), pixelDim - 1)
  }

  /** The pixel column (or row) the Android code samples, with the bitmap's own size on both sides. */
  function AndroidPixelIndex(coord: real, dim: nat, displayDim: real): (p: int)
    requires displayDim != 0.0 && dim >= 1
    ensures 0 <= p < dim
  {
    CoerceIn(ScaledIndex(coord, dim as real, displayDim), 0, dim - 1)
  }

  /** Position of texel (x, y) in a row-major buffer whose first row is the visual top. */
  function TexelIndex(x: int, y: int, width: nat, height: nat): (i: nat)
    requires 0 <= x < width && 0 <= y < height
    ensures i < width * height
    ensures i / width == y && i % width == x
  {
    RowMajorBound(x, y, width, height);
    y * width + x
  }

  lemma RowMajorBound(x: int, y: int, width: nat, height: nat)
    requires 0 <= x < width && 0 <= y < height
    ensures y * width + x < width * height
    ensures (y * width + x) / width == y && (y * width + x) % width == x
  {
    MulMonotone(y, height - 1, width);
    assert (height - 1) * width == height * width - width;
    DivModUnique(y * width + x, width, y, x);
  }

  lemma MulMonotone(a: int, b: int, c: nat)
    requires a <= b
    ensures a * c <= b * c
  {
  }

  lemma DivModUnique(i: int, w: nat, q: int, r: int)
    requires w > 0 && 0 <= r < w && i == q * w + r
    ensures i / w == q && i % w == r
  {
    var q', r' := i / w, i % w;
    assert i == q' * w + r' && 0 <= r' < w;
    if q' < q {
      MulMonotone(q' + 1, q, w);
    } else if q < q' {
      MulMonotone(q + 1, q', w);
    }
  }

  /** When a platform's image is as many points as pixels, both platforms sample the same index. */
  lemma PlatformsAgree(coord: real, dim: nat, displayDim: real)
    requires displayDim != 0.0 && dim >= 1
    ensures IosPixelIndex(coord, dim as real, displayDim, dim) == AndroidPixelIndex(coord, dim, displayDim)
  {
  }

  /**
   * A point inside the displayed image never needs the clamp: it lands on the pixel p with
   * p / dim <= coord / displayDim < (p + 1) / dim, the floor of the scaled coordinate.
   */
  lemma IndexWithinDisplay(coord: real, dim: nat, displayDim: real)
    requires displayDim > 0.0 && dim >= 1
    requires 0.0 <= coord < displayDim
    ensures AndroidPixelIndex(coord, dim, displayDim) == ScaledIndex(coord, dim as real, displayDim)
    ensures var p := AndroidPixelIndex(coord, dim, displayDim);
      p as real * displayDim <= coord * dim as real < (p + 1) as real * displayDim
  {
    var w := dim as real;
    var v := coord * (w / displayDim);
    var n := ScaledIndex(coord, w, displayDim);
    assert n == Trunc(v);
    ScaledBelow(coord, w, displayDim);
    assert 0 <= n < dim;
    assert AndroidPixelIndex(coord, dim, displayDim) == n;
    ScaleBack(coord, w, displayDim);
    FloorBracket(n, v, displayDim, coord * w);
  }

  /** Scaling a floor bracket `n <= v < n + 1` by a positive factor. */
  lemma FloorBracket(n: int, v: real, d: real, x: real)
    requires d > 0.0 && n as real <= v < (n + 1) as real && v * d == x
    ensures n as real * d <= x < (n + 1) as real * d
  {
    Unscale(n as real, v, d);
    Unscale(v, (n + 1) as real, d);
  }

  lemma ScaleBack(coord: real, w: real, d: real)
    requires d > 0.0
    ensures coord * (w / d) * d == coord * w
  {
    assert (w / d) * d == w;
  }

  /** A coordinate inside the display scales to a value inside the image. */
  lemma ScaledBelow(coord: real, w: real, displayDim: real)
    requires displayDim > 0.0 && w > 0.0 && 0.0 <= coord < displayDim
    ensures 0.0 <= coord * (w / displayDim) < w
  {
    var s := w / displayDim;
    assert s > 0.0;
    assert coord * s < displayDim * s;
    assert displayDim * s == w;
  }

  /** A strict inequality after scaling by a positive factor holds before it. */
  lemma Descale(a: real, b: real, d: real)
    requires d > 0.0 && a * d < b * d
    ensures a < b
  {
    if b <= a {
      Unscale(b, a, d);
    }
  }

  lemma Unscale(a: real, b: real, d: real)
    requires d > 0.0 && a <= b
    ensures a * d <= b * d
    ensures a < b ==> a * d < b * d
  {
  }

  /** Every point at or left of (above) the displayed image maps to the first column (row). */
  lemma IndexBeforeDisplay(coord: real, dim: nat, displayDim: real)
    requires displayDim > 0.0 && dim >= 1
    requires coord <= 0.0
    ensures AndroidPixelIndex(coord, dim, displayDim) == 0
  {
    var v := coord * (dim as real / displayDim);
    assert v <= 0.0;
  }

  /** Every point at or beyond the right (bottom) edge maps to the last column (row). */
  lemma IndexPastDisplay(coord: real, dim: nat, displayDim: real)
    requires displayDim > 0.0 && dim >= 1
    requires coord >= displayDim
    ensures AndroidPixelIndex(coord, dim, displayDim) == dim - 1
  {
    var w := dim as real;
    var v := coord * (w / displayDim);
    assert v == coord * w / displayDim;
    assert coord * w >= displayDim * w;
    assert v >= w;
    assert Trunc(v) >= dim;
  }

  /** On iOS too, every point at or left of (above) the displayed image samples the first column (row). */
  lemma IosIndexBeforeDisplay(coord: real, pointDim: real, displayDim: real, pixelDim: nat)
    requires displayDim > 0.0 && pointDim >= 0.0 && pixelDim >= 1
    requires coord <= 0.0
    ensures IosPixelIndex(coord, pointDim, displayDim, pixelDim) == 0
  {
    NonNegativeScale(pointDim, displayDim);
    ScaleMonotone(coord, 0.0, pointDim / displayDim);
  }

  /**
   * On iOS a point at or beyond the right (bottom) edge samples the last column (row) when the
   * image has at least as many points as pixels. With fewer points (an `@2x` image) the edge
   * itself maps to column `pointDim`, and points beyond it keep moving right until the clamp.
   */
  lemma IosIndexPastDisplay(coord: real, pointDim: real, displayDim: real, pixelDim: nat)
    requires displayDim > 0.0 && pixelDim >= 1 && pointDim >= pixelDim as real
    requires coord >= displayDim
    ensures IosPixelIndex(coord, pointDim, displayDim, pixelDim) == pixelDim - 1
  {
    var v := coord * (pointDim / displayDim);
    assert v == coord * pointDim / displayDim;
    assert coord * pointDim >= displayDim * pointDim;
    assert v >= pointDim;
    assert Trunc(v) >= pixelDim;
  }

  /**
   * On iOS the pixel sampled is fixed by the point size, not the pixel size: wherever the
   * scaled coordinate lands inside the CGImage, pixel p is the one with
   * p / pointDim <= coord / displayDim < (p + 1) / pointDim.
   */
  lemma IosIndexWithinDisplay(coord: real, pointDim: real, displayDim: real, pixelDim: nat)
    requires displayDim > 0.0 && pointDim > 0.0 && pixelDim >= 1
    requires 0.0 <= coord && coord * pointDim < pixelDim as real * displayDim
    ensures IosPixelIndex(coord, pointDim, displayDim, pixelDim) == ScaledIndex(coord, pointDim, displayDim)
    ensures var p := IosPixelIndex(coord, pointDim, displayDim, pixelDim);
      p as real * displayDim <= coord * pointDim < (p + 1) as real * displayDim
  {
    var v := coord * (pointDim / displayDim);
    var n := ScaledIndex(coord, pointDim, displayDim);
    NonNegativeScale(pointDim, displayDim);
    ScaleMonotone(0.0, coord, pointDim / displayDim);
    ScaleBack(coord, pointDim, displayDim);
    Descale(v, pixelDim as real, displayDim);
    assert 0 <= n < pixelDim;
    FloorBracket(n, v, displayDim, coord * pointDim);
  }

  /**
   * A 100-pixel `@2x` image is 50 points wide. Shown 100 wide, the point 60 is pixel 60 on
   * screen, but the code scales by the point size and samples pixel 30.
   */
  lemma ScenarioDoubleScale()
    ensures IosPixelIndex(60.0, 50.0, 100.0, 100) == 30
  {
    assert 60.0 * (50.0 / 100.0) == 30.0;
  }

  /** Moving the display point right (down) never moves the sampled pixel left (up). */
  lemma IndexMonotone(c1: real, c2: real, dim: nat, displayDim: real)
    requires displayDim > 0.0 && dim >= 1
    requires c1 <= c2
    ensures AndroidPixelIndex(c1, dim, displayDim) <= AndroidPixelIndex(c2, dim, displayDim)
  {
    ScaledMonotone(c1, c2, dim as real, displayDim);
    CoerceInMonotone(ScaledIndex(c1, dim as real, displayDim), ScaledIndex(c2, dim as real, displayDim), 0, dim - 1);
  }

  lemma ScaledMonotone(c1: real, c2: real, w: real, d: real)
    requires d > 0.0 && w >= 0.0 && c1 <= c2
    ensures ScaledIndex(c1, w, d) <= ScaledIndex(c2, w, d)
  {
    var s := w / d;
    NonNegativeScale(w, d);
    ScaleMonotone(c1, c2, s);
    TruncMonotone(c1 * s, c2 * s);
  }

  lemma NonNegativeScale(w: real, d: real)
    requires d > 0.0 && w >= 0.0
    ensures w / d >= 0.0
  {
  }

  lemma ScaleMonotone(a: real, b: real, s: real)
    requires a <= b && s >= 0.0
    ensures a * s <= b * s
  {
    assert (b - a) * s >= 0.0;
  }

  lemma CoerceInMonotone(u: int, v: int, lo: int, hi: int)
    requires u <= v && lo <= hi
    ensures CoerceIn(u, lo, hi) <= CoerceIn(v, lo, hi)
  {
  }

  lemma TruncMonotone(u: real, v: real)
    requires u <= v
    ensures Trunc(u) <= Trunc(v)
  {
    if 0.0 <= u {
      assert Trunc(u) as real <= u <= v < Trunc(v) as real + 1.0;
    } else if v < 0.0 {
      assert Trunc(u) as real - 1.0 < u <= v <= Trunc(v) as real;
    }
  }

  /** A 100x200 image shown at 100x200: the point (50, 100) samples pixel (50, 100). */
  lemma ScenarioUnitScale()
    ensures AndroidPixelIndex(50.0, 100, 100.0) == 50
    ensures AndroidPixelIndex(100.0, 200, 200.0) == 100
  {
    assert 50.0 * (100 as real / 100.0) == 50.0;
    assert 100.0 * (200 as real / 200.0) == 100.0;
  }

  /**
   * A negative display size is no error: the scale is finite and negative, so a point inside
   * maps to a negative index, which both clamps turn into the first pixel.
   */
  lemma ScenarioNegativeDisplay()
    ensures AndroidPixelIndex(50.0, 100, -100.0) == 0
    ensures IosPixelIndex(50.0, 100.0, -100.0, 100) == 0
  {
    assert 50.0 * (100 as real / -100.0) == -50.0;
    assert 50.0 * (100.0 / -100.0) == -50.0;
  }

  /** A 10x10 image shown at 100x100: the point (99, 99) is 9.9 pixels in and samples pixel (9, 9). */
  lemma ScenarioTenthScale()
    ensures AndroidPixelIndex(99.0, 10, 100.0) == 9
  {
    assert 99.0 * (10 as real / 100.0) == 9.9;
  }
}
