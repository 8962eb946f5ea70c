/**
 * Histogram buckets: for a histogram type ("red", "green", "blue" or
 * "intensity") the number of pixels whose value of that type is v, for each
 * v in 0 .. 255. Painting the chart is not modelled.
 */
module Histogram {
  import opened Wrappers
  import opened Images

  const BucketCount := 256

  predicate KnownType(kind: string) {
    kind == "red" || kind == "green" || kind == "blue" || kind == "intensity"
  }

  /** The bucket a pixel is counted in; an unknown type counts nothing. */
  function BucketOf(p: Pixel, kind: string): (b: Option<int>)
    ensures b.Some? <==> KnownType(kind)
    ensures ValidPixel(p) && b.Some? ==> 0 <= b.value < BucketCount
  {
    if kind == "red" then Some(p.red)
    else if kind == "green" then Some(p.green)
    else if kind == "blue" then Some(p.blue)
    else if kind == "intensity" then Some((p.red + p.green + p.blue) / 3)
    else None
  }

  /** Number of the first `n` pixels of row `i` that fall in bucket `v`. */
  function CountRow(img: Image, kind: string, v: int, i: int, n: int): nat
    requires Shaped(img) && 0 <= i < img.height && 0 <= n <= img.width
  {
    if n == 0 then 0
    else CountRow(img, kind, v, i, n - 1) + (if BucketOf(At(img, i, n - 1), kind) == Some(v) then 1 else 0)
  }

  /** Number of pixels in the first `m` rows that fall in bucket `v`. */
  function CountRows(img: Image, kind: string, v: int, m: int): nat
    requires Shaped(img) && 0 <= m <= img.height
  {
    if m == 0 then 0 else CountRows(img, kind, v, m - 1) + CountRow(img, kind, v, m - 1, img.width)
  }

  /** Number of pixels of the image that fall in bucket `v`. */
  function Count(img: Image, kind: string, v: int): nat
    requires Shaped(img)
  {
    CountRows(img, kind, v, img.height)
  }

  function Sum(s: seq<int>): int {
    if |s| == 0 then 0 else Sum(s[..|s| - 1]) + s[|s| - 1]
  }

  lemma {:induction false} SumIncrement(s: seq<int>, k: int)
    requires 0 <= k < |s|
    ensures Sum(s[k := s[k] + 1]) == Sum(s) + 1
  {
    var t := s[k := s[k] + 1];
    var n := |s| - 1;
    if k == n {
      assert t[..n] == s[..n];
    } else {
      assert t[..n] == s[..n][k := s[k] + 1];
      SumIncrement(s[..n], k);
    }
  }

  lemma {:induction false} SumZeros(n: nat)
    ensures Sum(seq(n, _ => 0)) == 0
  {
    if n > 0 {
      assert seq(n, _ => 0)[..n - 1] == seq(n - 1, _ => 0);
      SumZeros(n - 1);
    }
  }

  /** One row of the `getYCoords` loop: every pixel of row `i` adds one to its bucket. */
  method AddRow(img: Image, kind: string, i: int, y0: seq<int>) returns (y: seq<int>)
    requires WellFormed(img) && 0 <= i < img.height && |y0| == BucketCount
    ensures |y| == BucketCount
    ensures forall v :: 0 <= v < BucketCount ==> y[v] == y0[v] + CountRow(img, kind, v, i, img.width)
    ensures KnownType(kind) ==> Sum(y) == Sum(y0) + img.width
    ensures !KnownType(kind) ==> y == y0
  {
    y := y0;
    for j := 0 to img.width
      invariant |y| == BucketCount
      invariant forall v :: 0 <= v < BucketCount ==> y[v] == y0[v] + CountRow(img, kind, v, i, j)
      invariant KnownType(kind) ==> Sum(y) == Sum(y0) + j
      invariant !KnownType(kind) ==> y == y0
    {
      var b := BucketOf(At(img, i, j), kind);
      if b.Some? {
        SumIncrement(y, b.value);
        y := y[b.value := y[b.value] + 1];
      }
    }
  }

  /**
   * `getYCoords`: 256 zeros, then one increment per pixel in row-major order.
   * Bucket v ends up holding the number of pixels that fall in it; for a known
   * type every pixel is counted once, for an unknown type none is.
   */
  method GetYCoords(img: Image, kind: string) returns (y: seq<int>)
    requires WellFormed(img)
    ensures |y| == BucketCount
    ensures forall v :: 0 <= v < BucketCount ==> y[v] == Count(img, kind, v)
    ensures KnownType(kind) ==> Sum(y) == img.height * img.width
    ensures !KnownType(kind) ==> forall v :: 0 <= v < BucketCount ==> y[v] == 0
  {
    y := seq(BucketCount, _ => 0);
    SumZeros(BucketCount);
    for i := 0 to img.height
      invariant |y| == BucketCount
      invariant forall v :: 0 <= v < BucketCount ==> y[v] == CountRows(img, kind, v, i)
      invariant KnownType(kind) ==> Sum(y) == i * img.width
      invariant !KnownType(kind) ==> forall v :: 0 <= v < BucketCount ==> y[v] == 0
    {
      y := AddRow(img, kind, i, y);
      assert i * img.width + img.width == (i + 1) * img.width;
    }
  }

  /** Every pixel's intensity bucket lies in 0 .. 255. */
  lemma IntensityBucketInRange(p: Pixel)
    requires ValidPixel(p)
    ensures 0 <= (p.red + p.green + p.blue) / 3 <= MaxChannel
  {
  }

  /** `getMaxY`: the largest bucket, or 0 when there is none above 0. */
  method GetMaxY(y: seq<int>) returns (m: int)
    ensures m >= 0
    ensures forall i :: 0 <= i < |y| ==> y[i] <= m
    ensures m == 0 || m in y
  {
    m := 0;
    for k := 0 to |y|
      invariant m >= 0
      invariant forall i :: 0 <= i < k ==> y[i] <= m
      invariant m == 0 || m in y[..k]
    {
      if y[k] > m {
        m := y[k];
      }
    }
    assert y[..|y|] == y;
  }
}
