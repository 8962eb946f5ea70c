/**
 * Convolution filters. Every neighbour inside the grid contributes its own
 * channel divided (Java integer division, toward zero) by the divisor of the
 * set it belongs to: the centre, the "second set" or everything else in the
 * window. Neighbours outside the grid contribute nothing. The sum is clamped.
 */
module Filtering {
  import opened Images

  datatype FilterKind = Blur | Sharpen

  /** Half the side of the square window: 3x3 for blur, 5x5 for sharpen. */
  function KernelSize(k: FilterKind): nat {
    match k
    case Blur => 1
    case Sharpen => 2
  }

  function FirstDiv(k: FilterKind): int {
    match k
    case Blur => 4
    case Sharpen => 1
  }

  function SecondDiv(k: FilterKind): int {
    match k
    case Blur => 8
    case Sharpen => 4
  }

  function ThirdDiv(k: FilterKind): int {
    match k
    case Blur => 16
    case Sharpen => -8
  }

  /** `secondSetCond`: same row or column for blur, the inner 3x3 ring for sharpen. */
  predicate SecondSet(k: FilterKind, a: int, row: int, b: int, col: int) {
    match k
    case Blur => a == row || b == col
    case Sharpen => row - 1 <= a <= row + 1 && col - 1 <= b <= col + 1
  }

  /** The divisor applied to the neighbour at (a, b) of the pixel at (row, col). */
  function Divisor(k: FilterKind, row: int, col: int, a: int, b: int): (d: int)
    ensures d != 0
  {
    if a == row && b == col then FirstDiv(k)
    else if SecondSet(k, a, row, b, col) then SecondDiv(k)
    else ThirdDiv(k)
  }

  /** What the neighbour at (a, b) adds to one channel's running sum. */
  function Term(img: Image, k: FilterKind, row: int, col: int, a: int, b: int, ch: Channel): int
    requires Shaped(img)
  {
    if InBounds(img, a, b) then JavaDiv(ChannelOf(At(img, a, b), ch), Divisor(k, row, col, a, b))
    else 0
  }

  /** The inner loop: neighbours (a, lo) .. (a, hi - 1). */
  function SumCols(img: Image, k: FilterKind, row: int, col: int, a: int, lo: int, hi: int, ch: Channel): int
    requires Shaped(img)
    decreases hi - lo
  {
    if lo >= hi then 0 else Term(img, k, row, col, a, lo, ch) + SumCols(img, k, row, col, a, lo + 1, hi, ch)
  }

  /** The outer loop: rows lo .. hi - 1 of the window. */
  function SumRows(img: Image, k: FilterKind, row: int, col: int, lo: int, hi: int, ch: Channel): int
    requires Shaped(img)
    decreases hi - lo
  {
    if lo >= hi then 0
    else
      var n := KernelSize(k);
      SumCols(img, k, row, col, lo, col - n, col + n + 1, ch) + SumRows(img, k, row, col, lo + 1, hi, ch)
  }

  /** The unclamped kernel sum of one channel at (row, col). */
  function KernelSum(img: Image, k: FilterKind, row: int, col: int, ch: Channel): int
    requires Shaped(img)
  {
    var n := KernelSize(k);
    SumRows(img, k, row, col, row - n, row + n + 1, ch)
  }

  /** `filterPixel`: the three kernel sums, each clamped to [0, 255]. */
  function FilterPixel(img: Image, k: FilterKind, row: int, col: int): (p: Pixel)
    requires Shaped(img)
    ensures ValidPixel(p)
  {
    Pixel(Clamp(KernelSum(img, k, row, col, Red)),
          Clamp(KernelSum(img, k, row, col, Green)),
          Clamp(KernelSum(img, k, row, col, Blue)))
  }

  /** The neighbours within Chebyshev distance `n` of (row, col) that lie inside the grid. */
  predicate InWindow(img: Image, n: int, row: int, col: int, a: int, b: int) {
    InBounds(img, a, b) && row - n <= a <= row + n && col - n <= b <= col + n
  }

  /** Two images of one shape that agree on the in-grid part of a window. */
  ghost predicate AgreeOnWindow(img1: Image, img2: Image, n: int, row: int, col: int)
    requires Shaped(img1) && Shaped(img2)
  {
    img1.height == img2.height && img1.width == img2.width &&
    forall a, b :: InWindow(img1, n, row, col, a, b) ==> At(img1, a, b) == At(img2, a, b)
  }

  lemma {:induction false} SumColsLocal(img1: Image, img2: Image, k: FilterKind, row: int, col: int,
                                        a: int, lo: int, hi: int, ch: Channel)
    requires Shaped(img1) && Shaped(img2)
    requires AgreeOnWindow(img1, img2, KernelSize(k), row, col)
    requires row - KernelSize(k) <= a <= row + KernelSize(k)
    requires col - KernelSize(k) <= lo && hi <= col + KernelSize(k) + 1
    ensures SumCols(img1, k, row, col, a, lo, hi, ch) == SumCols(img2, k, row, col, a, lo, hi, ch)
    decreases hi - lo
  {
    if lo < hi {
      if InBounds(img1, a, lo) {
        assert InWindow(img1, KernelSize(k), row, col, a, lo);
      }
      SumColsLocal(img1, img2, k, row, col, a, lo + 1, hi, ch);
    }
  }

  lemma {:induction false} SumRowsLocal(img1: Image, img2: Image, k: FilterKind, row: int, col: int,
                                        lo: int, hi: int, ch: Channel)
    requires Shaped(img1) && Shaped(img2)
    requires AgreeOnWindow(img1, img2, KernelSize(k), row, col)
    requires row - KernelSize(k) <= lo && hi <= row + KernelSize(k) + 1
    ensures SumRows(img1, k, row, col, lo, hi, ch) == SumRows(img2, k, row, col, lo, hi, ch)
    decreases hi - lo
  {
    if lo < hi {
      var n := KernelSize(k);
      SumColsLocal(img1, img2, k, row, col, lo, col - n, col + n + 1, ch);
      SumRowsLocal(img1, img2, k, row, col, lo + 1, hi, ch);
    }
  }

  /**
   * A filtered pixel depends only on the in-grid pixels of its window
   * (3x3 for blur, 5x5 for sharpen): nothing outside the grid is read,
   * there is no padding and no wrap-around.
   */
  lemma FilterIsLocal(img1: Image, img2: Image, k: FilterKind, row: int, col: int)
    requires Shaped(img1) && Shaped(img2)
    requires AgreeOnWindow(img1, img2, KernelSize(k), row, col)
    ensures FilterPixel(img1, k, row, col) == FilterPixel(img2, k, row, col)
  {
    var n := KernelSize(k);
    SumRowsLocal(img1, img2, k, row, col, row - n, row + n + 1, Red);
    SumRowsLocal(img1, img2, k, row, col, row - n, row + n + 1, Green);
    SumRowsLocal(img1, img2, k, row, col, row - n, row + n + 1, Blue);
  }

  /**
   * Sharpen's three sets: the centre keeps its full value, the inner ring
   * adds a quarter, the outer ring subtracts a truncated eighth.
   */
  lemma SharpenTerms(img: Image, row: int, col: int, a: int, b: int, ch: Channel)
    requires WellFormed(img) && InBounds(img, a, b)
    requires row - 2 <= a <= row + 2 && col - 2 <= b <= col + 2
    ensures var v := ChannelOf(At(img, a, b), ch);
      Term(img, Sharpen, row, col, a, b, ch) ==
        if a == row && b == col then v
        else if row - 1 <= a <= row + 1 && col - 1 <= b <= col + 1 then v / 4
        else -(v / 8)
  {
    var v := ChannelOf(At(img, a, b), ch);
    assert ValidChannel(v);
    JavaDivAgrees(v, 1);
    JavaDivAgrees(v, 4);
    JavaDivAgrees(v, -8);
    JavaDivAgrees(v, 8);
  }

  /** Blur's three sets: centre / 4, same row or column / 8, diagonal / 16. */
  lemma BlurTerms(img: Image, row: int, col: int, a: int, b: int, ch: Channel)
    requires WellFormed(img) && InBounds(img, a, b)
    ensures var v := ChannelOf(At(img, a, b), ch);
      Term(img, Blur, row, col, a, b, ch) ==
        if a == row && b == col then v / 4
        else if a == row || b == col then v / 8
        else v / 16
  {
    var v := ChannelOf(At(img, a, b), ch);
    assert ValidChannel(v);
    JavaDivAgrees(v, 4);
    JavaDivAgrees(v, 8);
    JavaDivAgrees(v, 16);
  }

  /** The largest amount a blur neighbour at offset (da, db) can add. */
  function BlurCap(da: int, db: int): int {
    if da == 0 && db == 0 then 63 else if da == 0 || db == 0 then 31 else 15
  }

  lemma BlurTermBound(img: Image, row: int, col: int, a: int, b: int, ch: Channel)
    requires WellFormed(img)
    ensures 0 <= Term(img, Blur, row, col, a, b, ch) <= BlurCap(a - row, b - col)
  {
    if InBounds(img, a, b) {
      BlurTerms(img, row, col, a, b, ch);
    }
  }

  lemma BlurRowBound(img: Image, row: int, col: int, a: int, ch: Channel)
    requires WellFormed(img)
    ensures 0 <= SumCols(img, Blur, row, col, a, col - 1, col + 2, ch)
              <= BlurCap(a - row, -1) + BlurCap(a - row, 0) + BlurCap(a - row, 1)
  {
    BlurTermBound(img, row, col, a, col - 1, ch);
    BlurTermBound(img, row, col, a, col, ch);
    BlurTermBound(img, row, col, a, col + 1, ch);
    assert SumCols(img, Blur, row, col, a, col + 1, col + 2, ch) == Term(img, Blur, row, col, a, col + 1, ch);
    assert SumCols(img, Blur, row, col, a, col, col + 2, ch)
           == Term(img, Blur, row, col, a, col, ch) + SumCols(img, Blur, row, col, a, col + 1, col + 2, ch);
  }

  /**
   * The blur weights add up to one (1/4 + 4/8 + 4/16), so the truncated sum
   * already lies in [0, 255] and the clamp never changes it.
   */
  lemma BlurNeedsNoClamp(img: Image, row: int, col: int, ch: Channel)
    requires WellFormed(img)
    ensures 0 <= KernelSum(img, Blur, row, col, ch) <= MaxChannel
    ensures ChannelOf(FilterPixel(img, Blur, row, col), ch) == KernelSum(img, Blur, row, col, ch)
  {
    BlurRowBound(img, row, col, row - 1, ch);
    BlurRowBound(img, row, col, row, ch);
    BlurRowBound(img, row, col, row + 1, ch);
    assert SumRows(img, Blur, row, col, row + 1, row + 2, ch) == SumCols(img, Blur, row, col, row + 1, col - 1, col + 2, ch);
    assert SumRows(img, Blur, row, col, row, row + 2, ch)
           == SumCols(img, Blur, row, col, row, col - 1, col + 2, ch) + SumRows(img, Blur, row, col, row + 1, row + 2, ch);
  }

  lemma {:induction false} SumColsOutside(img: Image, k: FilterKind, row: int, col: int, a: int, lo: int, hi: int, ch: Channel)
    requires Shaped(img)
    requires forall b :: lo <= b < hi ==> !InBounds(img, a, b)
    ensures SumCols(img, k, row, col, a, lo, hi, ch) == 0
    decreases hi - lo
  {
    if lo < hi {
      SumColsOutside(img, k, row, col, a, lo + 1, hi, ch);
    }
  }

  /** On a 1x1 image only the centre is in the grid, and sharpen returns the pixel itself. */
  lemma SharpenSinglePixel(img: Image)
    requires WellFormed(img) && img.height == 1 && img.width == 1
    ensures FilterPixel(img, Sharpen, 0, 0) == At(img, 0, 0)
  {
    forall ch: Channel
      ensures KernelSum(img, Sharpen, 0, 0, ch) == ChannelOf(At(img, 0, 0), ch)
    {
      SumColsOutside(img, Sharpen, 0, 0, -2, -2, 3, ch);
      SumColsOutside(img, Sharpen, 0, 0, -1, -2, 3, ch);
      SumColsOutside(img, Sharpen, 0, 0, 1, -2, 3, ch);
      SumColsOutside(img, Sharpen, 0, 0, 2, -2, 3, ch);
      SumColsOutside(img, Sharpen, 0, 0, 0, -2, 0, ch);
      SumColsOutside(img, Sharpen, 0, 0, 0, 1, 3, ch);
      SharpenTerms(img, 0, 0, 0, 0, ch);
      assert SumCols(img, Sharpen, 0, 0, 0, 0, 3, ch) == ChannelOf(At(img, 0, 0), ch)
                                                           + SumCols(img, Sharpen, 0, 0, 0, 1, 3, ch);
      SumColsSplit(img, Sharpen, 0, 0, 0, -2, 0, 3, ch);
      assert SumRows(img, Sharpen, 0, 0, 3, 3, ch) == 0;
    }
    var p := At(img, 0, 0);
    assert ChannelOf(p, Red) == p.red && ChannelOf(p, Green) == p.green && ChannelOf(p, Blue) == p.blue;
  }

  lemma {:induction false} SumColsSplit(img: Image, k: FilterKind, row: int, col: int, a: int,
                                        lo: int, mid: int, hi: int, ch: Channel)
    requires Shaped(img) && lo <= mid <= hi
    ensures SumCols(img, k, row, col, a, lo, hi, ch)
            == SumCols(img, k, row, col, a, lo, mid, ch) + SumCols(img, k, row, col, a, mid, hi, ch)
    decreases mid - lo
  {
    if lo < mid {
      SumColsSplit(img, k, row, col, a, lo + 1, mid, hi, ch);
    }
  }
}
