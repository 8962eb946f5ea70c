/**
 * Downscale: the target size truncates `size * percentage / 100` on each
 * axis; every target pixel maps back to a fractional source position, copies
 * the source pixel when both coordinates are whole, and otherwise mixes the
 * four surrounding pixels. The arithmetic is exact rational arithmetic here.
 * The helper reproduces the program exactly: blue is computed from the green
 * corners, and when exactly one coordinate is whole every weight is zero.
 */
module Downscale {
  import opened Wrappers
  import opened Images

  datatype DownscaleError = PercentageOutOfRange

  predicate ValidPercentage(p: int) {
    1 <= p <= 100
  }

  /** `(int) (size * ((double) percentage / 100))`. */
  function DownDim(n: nat, pct: int): (r: nat)
    requires ValidPercentage(pct)
    ensures r * 100 <= n * pct < r * 100 + 100
    ensures r == ((n * pct) as real / 100.0).Floor
    ensures r <= n
  {
    (n * pct) / 100
  }

  /** The source coordinate `i / (percentage / 100)` of target coordinate `i`. */
  function MapCoord(i: int, pct: int): real
    requires ValidPercentage(pct)
  {
    i as real / (pct as real / 100.0)
  }

  predicate Integral(x: real) {
    x == x.Floor as real
  }

  /** `Math.ceil`. */
  function Ceil(x: real): (r: int)
    ensures r as real >= x > r as real - 1.0
    ensures Integral(x) ==> r == x.Floor
    ensures !Integral(x) ==> r == x.Floor + 1
  {
    if Integral(x) then x.Floor else x.Floor + 1
  }

  /**
   * `averageValue`: interpolate along the row offset, then along the column
   * offset, truncating each of the two column terms separately.
   */
  function AverageValue(rm: real, cm: real, tl: int, tr: int, bl: int, br: int): (v: int)
    ensures Integral(rm) || Integral(cm) ==> v == 0
    ensures !Integral(rm) && !Integral(cm) &&
            ValidChannel(tl) && ValidChannel(tr) && ValidChannel(bl) && ValidChannel(br)
            ==> ValidChannel(v)
  {
    var fr := rm - rm.Floor as real;
    var gr := Ceil(rm) as real - rm;
    var m := tr as real * fr + tl as real * gr;
    var n := br as real * fr + bl as real * gr;
    var fc := cm - cm.Floor as real;
    var gc := Ceil(cm) as real - cm;
    assert Integral(rm) ==> fr == 0.0 && gr == 0.0 && m == 0.0 && n == 0.0;
    assert Integral(cm) ==> fc == 0.0 && gc == 0.0;
    assert !Integral(rm) ==> fr >= 0.0 && gr >= 0.0 && fr + gr == 1.0;
    assert !Integral(cm) ==> fc >= 0.0 && gc >= 0.0 && fc + gc == 1.0;
    if !Integral(rm) && !Integral(cm) &&
       ValidChannel(tl) && ValidChannel(tr) && ValidChannel(bl) && ValidChannel(br) then
      Mix(tr as real, tl as real, fr, gr);
      Mix(br as real, bl as real, fr, gr);
      Mix(n, m, fc, gc);
      Scale(n, fc);
      Scale(m, gc);
      Trunc(n * fc) + Trunc(m * gc)
    else
      Trunc(n * fc) + Trunc(m * gc)
  }

  lemma Scale(a: real, f: real)
    requires 0.0 <= a && f >= 0.0
    ensures 0.0 <= a * f
  {
  }

  /** A convex combination of two values in [0, 255] stays in [0, 255]. */
  lemma Mix(a: real, b: real, f: real, g: real)
    requires 0.0 <= a <= 255.0 && 0.0 <= b <= 255.0
    requires f >= 0.0 && g >= 0.0 && f + g == 1.0
    ensures 0.0 <= a * f + b * g <= 255.0
  {
    Scale(a, f);
    Scale(b, g);
    Scale(255.0 - a, f);
    Scale(255.0 - b, g);
    assert (255.0 - a) * f == 255.0 * f - a * f;
    assert (255.0 - b) * g == 255.0 * g - b * g;
  }

  /** The four corners around (rm, cm) lie inside an image of `h` rows and `w` columns. */
  predicate CornersIn(rm: real, cm: real, h: int, w: int) {
    0 <= rm.Floor && Ceil(rm) < h && 0 <= cm.Floor && Ceil(cm) < w
  }

  /** `mappedValues`: red from the red corners, green and blue both from the green corners. */
  function MappedValues(img: Image, rm: real, cm: real): Pixel
    requires Shaped(img) && CornersIn(rm, cm, img.height, img.width)
  {
    var tl := At(img, rm.Floor, cm.Floor);
    var tr := At(img, rm.Floor, Ceil(cm));
    var bl := At(img, Ceil(rm), cm.Floor);
    var br := At(img, Ceil(rm), Ceil(cm));
    Pixel(AverageValue(rm, cm, tl.red, tr.red, bl.red, br.red),
          AverageValue(rm, cm, tl.green, tr.green, bl.green, br.green),
          AverageValue(rm, cm, tl.green, tr.green, bl.green, br.green))
  }

  /**
   * Every target coordinate below the truncated size maps to a source
   * position whose floor and ceiling both index inside the source.
   */
  lemma MapCoordInBounds(n: nat, pct: int, i: int)
    requires ValidPercentage(pct) && 0 <= i < DownDim(n, pct)
    ensures 0 <= MapCoord(i, pct).Floor && Ceil(MapCoord(i, pct)) <= n - 1
  {
    var x := MapCoord(i, pct);
    MapCoordIsQuotient(i, pct);
    assert 100 * i <= (n - 1) * pct;
    QuotientAtMost(100 * i, pct, n - 1);
  }

  /** `i / (pct / 100)` is the rational `100 * i / pct`. */
  lemma MapCoordIsQuotient(i: int, pct: int)
    requires ValidPercentage(pct)
    ensures MapCoord(i, pct) == (100 * i) as real / pct as real
  {
  }

  lemma QuotientAtMost(a: int, p: int, c: int)
    requires p > 0 && 0 <= a <= c * p
    ensures 0.0 <= a as real / p as real <= c as real
  {
    assert (c * p) as real == c as real * p as real;
  }

  lemma ExactQuotient(a: int, p: int, f: int)
    requires p > 0 && a == f * p
    ensures a % p == 0 && a / p == f
  {
    var d := f - a / p;
    assert p * d == a % p;
    assert 0 <= p * d < p;
  }

  /** The source coordinate is whole exactly when `pct` divides `100 * i`, and then it is that quotient. */
  lemma MapCoordIntegral(i: nat, pct: int)
    requires ValidPercentage(pct)
    ensures Integral(MapCoord(i, pct)) <==> (100 * i) % pct == 0
    ensures (100 * i) % pct == 0 ==> MapCoord(i, pct).Floor == (100 * i) / pct
  {
    var a := 100 * i;
    var x := MapCoord(i, pct);
    MapCoordIsQuotient(i, pct);
    var qt := a / pct;
    if a % pct == 0 {
      assert a == qt * pct;
      assert a as real == qt as real * pct as real;
      assert x == qt as real;
    }
    if Integral(x) {
      var f := x.Floor;
      assert x * pct as real == a as real;
      assert f as real * pct as real == a as real;
      assert (f * pct) as real == f as real * pct as real;
      ExactQuotient(a, pct, f);
    }
  }

  /** `downscaleImage`'s loop body for target position (i, j). */
  function DownscalePixel(img: Image, hp: int, wp: int, i: int, j: int): Pixel
    requires Shaped(img) && ValidPercentage(hp) && ValidPercentage(wp)
    requires 0 <= i < DownDim(img.height, hp) && 0 <= j < DownDim(img.width, wp)
  {
    var rm := MapCoord(i, hp);
    var cm := MapCoord(j, wp);
    MapCoordInBounds(img.height, hp, i);
    MapCoordInBounds(img.width, wp, j);
    if Integral(rm) && Integral(cm) then At(img, rm.Floor, cm.Floor)
    else MappedValues(img, rm, cm)
  }

  /**
   * `downscaleImage`: a percentage outside [1, 100] fails before any pixel is
   * built; otherwise the result has the truncated dimensions.
   */
  function DownscaleImage(img: Image, hp: int, wp: int): (r: Result<Image, DownscaleError>)
    requires WellFormed(img)
    ensures r.Failure? <==> !ValidPercentage(hp) || !ValidPercentage(wp)
    ensures r.Success? ==> WellFormed(r.value)
    ensures r.Success? ==> r.value.height == DownDim(img.height, hp) && r.value.width == DownDim(img.width, wp)
  {
    if !ValidPercentage(hp) || !ValidPercentage(wp) then Failure(PercentageOutOfRange)
    else
      var dh := DownDim(img.height, hp);
      var dw := DownDim(img.width, wp);
      var out := Image(dh, dw, seq(dh, i requires 0 <= i < dh =>
                                 seq(dw, j requires 0 <= j < dw => DownscalePixel(img, hp, wp, i, j))));
      DownscaleValid(img, hp, wp, out);
      Success(out)
  }

  lemma DownscaleValid(img: Image, hp: int, wp: int, out: Image)
    requires WellFormed(img) && ValidPercentage(hp) && ValidPercentage(wp)
    requires Shaped(out) && out.height == DownDim(img.height, hp) && out.width == DownDim(img.width, wp)
    requires forall i, j :: 0 <= i < out.height && 0 <= j < out.width ==>
               out.px[i][j] == DownscalePixel(img, hp, wp, i, j)
    ensures WellFormed(out)
  {
    forall i, j | 0 <= i < out.height && 0 <= j < out.width
      ensures ValidPixel(out.px[i][j])
    {
      var rm := MapCoord(i, hp);
      var cm := MapCoord(j, wp);
      MapCoordInBounds(img.height, hp, i);
      MapCoordInBounds(img.width, wp, j);
    }
  }

  /** Where both source coordinates are whole, the target pixel is that source pixel. */
  lemma DownscaleCopiesWholePositions(img: Image, hp: int, wp: int, i: nat, j: nat)
    requires WellFormed(img) && ValidPercentage(hp) && ValidPercentage(wp)
    requires i < DownDim(img.height, hp) && j < DownDim(img.width, wp)
    requires (100 * i) % hp == 0 && (100 * j) % wp == 0
    ensures 0 <= (100 * i) / hp < img.height && 0 <= (100 * j) / wp < img.width
    ensures DownscaleImage(img, hp, wp).value.px[i][j] == At(img, (100 * i) / hp, (100 * j) / wp)
  {
    MapCoordIntegral(i, hp);
    MapCoordIntegral(j, wp);
    MapCoordInBounds(img.height, hp, i);
    MapCoordInBounds(img.width, wp, j);
  }

  /** In the interpolated branch the blue channel is a copy of the green one. */
  lemma DownscaleBlueIsGreen(img: Image, hp: int, wp: int, i: nat, j: nat)
    requires WellFormed(img) && ValidPercentage(hp) && ValidPercentage(wp)
    requires i < DownDim(img.height, hp) && j < DownDim(img.width, wp)
    requires (100 * i) % hp != 0 || (100 * j) % wp != 0
    ensures DownscaleImage(img, hp, wp).value.px[i][j].blue == DownscaleImage(img, hp, wp).value.px[i][j].green
  {
    MapCoordIntegral(i, hp);
    MapCoordIntegral(j, wp);
  }

  /** When exactly one source coordinate is whole, all interpolation weights vanish and the pixel is black. */
  lemma DownscaleOneWholeIsBlack(img: Image, hp: int, wp: int, i: nat, j: nat)
    requires WellFormed(img) && ValidPercentage(hp) && ValidPercentage(wp)
    requires i < DownDim(img.height, hp) && j < DownDim(img.width, wp)
    requires ((100 * i) % hp == 0) != ((100 * j) % wp == 0)
    ensures DownscaleImage(img, hp, wp).value.px[i][j] == Black
  {
    MapCoordIntegral(i, hp);
    MapCoordIntegral(j, wp);
  }

  /** At 100% on both axes the source comes back unchanged. */
  lemma DownscaleFullSize(img: Image)
    requires WellFormed(img)
    ensures DownscaleImage(img, 100, 100) == Success(img)
  {
    var out := DownscaleImage(img, 100, 100).value;
    forall i, j | 0 <= i < img.height && 0 <= j < img.width
      ensures out.px[i][j] == img.px[i][j]
    {
      DownscaleCopiesWholePositions(img, 100, 100, i, j);
    }
    SameImageIsEqual(out, img);
  }

  /** Truncation, not rounding: 67% of three rows leaves two. */
  lemma DownscaleTruncates()
    ensures DownDim(3, 67) == 2 && DownDim(3, 100) == 3 && DownDim(1, 50) == 0
  {
  }
}
