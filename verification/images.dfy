/**
 * Pixels, images and the integer helpers shared by all pixel operations.
 * A pixel stores three channels that a well-formed image keeps in [0, 255];
 * an image is a row-major grid with explicit height and width.
 */
module Images {

  const MaxChannel: int := 255

  datatype Pixel = Pixel(red: int, green: int, blue: int)

  const Black: Pixel := Pixel(0, 0, 0)
  const White: Pixel := Pixel(255, 255, 255)

  predicate ValidChannel(v: int) {
    0 <= v <= MaxChannel
  }

  predicate ValidPixel(p: Pixel) {
    ValidChannel(p.red) && ValidChannel(p.green) && ValidChannel(p.blue)
  }

  /** The three colour channels, so that per-channel arithmetic is written once. */
  datatype Channel = Red | Green | Blue

  function ChannelOf(p: Pixel, ch: Channel): int {
    match ch
    case Red => p.red
    case Green => p.green
    case Blue => p.blue
  }

  /** `Math.max(Math.min(x, 255), 0)`: the clamp every operation applies before storing a channel. */
  function Clamp(x: int): (r: int)
    ensures ValidChannel(r)
    ensures ValidChannel(x) ==> r == x
    ensures x < 0 ==> r == 0
    ensures x > MaxChannel ==> r == MaxChannel
  {
    if x < 0 then 0 else if x > MaxChannel then MaxChannel else x
  }

  function Abs(x: int): int {
    if x < 0 then -x else x
  }

  /**
   * Java's integer `/`, which rounds toward zero. Dafny's `/` is Euclidean,
   * so the two differ for a negative dividend.
   */
  function JavaDiv(a: int, b: int): (q: int)
    requires b != 0
    ensures a >= 0 ==> 0 <= a - q * b < Abs(b)
    ensures a < 0 ==> Abs(b) > q * b - a >= 0
  {
    var m := Abs(a) / Abs(b);
    DivBounds(Abs(a), Abs(b));
    SignedProduct(m, b);
    if (a >= 0) == (b > 0) then m else -m
  }

  /** Euclidean division of naturals leaves a remainder below the divisor. */
  lemma DivBounds(n: int, d: int)
    requires n >= 0 && d > 0
    ensures 0 <= n - (n / d) * d < d
  {
  }

  /** Multiplying by `b` or by its magnitude differs only in sign. */
  lemma SignedProduct(m: int, b: int)
    ensures m * b == (if b > 0 then m * Abs(b) else -(m * Abs(b)))
    ensures -m * b == -(m * b)
  {
  }

  /** For the non-negative channel values every filter divides, Java's and Dafny's division agree. */
  lemma JavaDivAgrees(a: int, b: int)
    requires a >= 0 && b != 0
    ensures JavaDiv(a, b) == a / b
  {
    if b < 0 {
      var q := a / -b;
      assert a == (-b) * q + a % -b;
      assert a == b * (-q) + a % -b;
    }
  }

  /** Java's `(int)` cast of a double: truncation toward zero. */
  function Trunc(x: real): (r: int)
    ensures x >= 0.0 ==> r >= 0 && r as real <= x < r as real + 1.0
    ensures x < 0.0 ==> r <= 0 && r as real - 1.0 < x <= r as real
  {
    if x >= 0.0 then x.Floor else -((-x).Floor)
  }

  datatype Image = Image(height: nat, width: nat, px: seq<seq<Pixel>>)

  /** The grid really has `height` rows of `width` pixels. */
  predicate Shaped(img: Image) {
    |img.px| == img.height && forall r :: 0 <= r < img.height ==> |img.px[r]| == img.width
  }

  predicate InBounds(img: Image, r: int, c: int) {
    0 <= r < img.height && 0 <= c < img.width
  }

  /** Shaped, and every channel lies in [0, 255]. */
  predicate WellFormed(img: Image) {
    Shaped(img) &&
    forall r, c :: 0 <= r < img.height && 0 <= c < img.width ==> ValidPixel(img.px[r][c])
  }

  /** `getPixelAt(row, col)`. */
  function At(img: Image, r: int, c: int): Pixel
    requires Shaped(img) && InBounds(img, r, c)
  {
    img.px[r][c]
  }

  /**
   * `fitsMask`: a position is affected by a masked operation exactly when the
   * mask pixel there is pure black; every other colour passes the source through.
   */
  predicate FitsMask(mask: Image, r: int, c: int)
    requires Shaped(mask) && InBounds(mask, r, c)
  {
    At(mask, r, c).red == 0 && At(mask, r, c).green == 0 && At(mask, r, c).blue == 0
  }

  lemma FitsMaskIsBlack(mask: Image, r: int, c: int)
    requires Shaped(mask) && InBounds(mask, r, c)
    ensures FitsMask(mask, r, c) <==> At(mask, r, c) == Black
  {
  }

  /**
   * Every position the row-major loop over `src` visits can be looked up in `mask`;
   * otherwise `fitsMask` indexes outside the mask.
   */
  predicate Covers(mask: Image, src: Image) {
    src.height == 0 || src.width == 0 || (src.height <= mask.height && src.width <= mask.width)
  }

  /** Two images of the same shape that agree at every position. */
  predicate SameImage(a: Image, b: Image)
    requires Shaped(a) && Shaped(b)
  {
    a.height == b.height && a.width == b.width &&
    forall r, c :: 0 <= r < a.height && 0 <= c < a.width ==> a.px[r][c] == b.px[r][c]
  }

  lemma SameImageIsEqual(a: Image, b: Image)
    requires Shaped(a) && Shaped(b) && SameImage(a, b)
    ensures a == b
  {
    assert |a.px| == |b.px|;
    forall r | 0 <= r < a.height
      ensures a.px[r] == b.px[r]
    {
      assert |a.px[r]| == |b.px[r]|;
    }
  }
}
