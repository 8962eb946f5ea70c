/**
 * Brighten: every channel is shifted by an integer constant. A non-negative
 * constant is only capped at 255, a negative one only floored at 0.
 */
module Brightening {
  import opened Images
  import opened Parsing

  /** `brightenPixel` for one channel, with unbounded integers. */
  function BrightenChannel(v: int, c: int): (r: int)
    ensures ValidChannel(v) ==> ValidChannel(r)
    ensures c >= 0 ==> r <= MaxChannel
    ensures c < 0 ==> r >= 0
  {
    if c >= 0 then (if v + c > MaxChannel then MaxChannel else v + c)
    else (if v + c < 0 then 0 else v + c)
  }

  /** `brightenPixel`. */
  function BrightenPixel(p: Pixel, c: int): (r: Pixel)
    ensures ValidPixel(p) ==> ValidPixel(r)
    ensures ValidPixel(p) && c == 0 ==> r == p
  {
    Pixel(BrightenChannel(p.red, c), BrightenChannel(p.green, c), BrightenChannel(p.blue, c))
  }

  /**
   * For a channel already in [0, 255] the one-sided clamp equals the full
   * clamp of `v + c`: a positive shift cannot go below 0 and a negative one
   * cannot exceed 255.
   */
  lemma BrightenIsClampedShift(v: int, c: int)
    requires ValidChannel(v)
    ensures BrightenChannel(v, c) == Clamp(v + c)
  {
  }

  /** Shifting back by `-c` restores the channel whenever the first shift did not clamp. */
  lemma BrightenUndo(v: int, c: int)
    requires ValidChannel(v) && ValidChannel(v + c)
    ensures BrightenChannel(BrightenChannel(v, c), -c) == v
  {
  }

  /**
   * The program adds in 32-bit `int` arithmetic: `v + c` wraps around before
   * the cap is applied.
   */
  function BrightenChannelInt32(v: int, c: int): (r: int)
    requires IsInt32(v) && IsInt32(c)
    ensures IsInt32(r)
    ensures c >= 0 ==> r <= MaxChannel
    ensures c < 0 ==> r >= 0
  {
    var s := WrapInt32(v + c);
    if c >= 0 then (if s > MaxChannel then MaxChannel else s)
    else (if s < 0 then 0 else s)
  }

  /** Without overflow the 32-bit code and the model agree. */
  lemma BrightenInt32Agrees(v: int, c: int)
    requires ValidChannel(v) && IsInt32(c) && IsInt32(v + c)
    ensures BrightenChannelInt32(v, c) == BrightenChannel(v, c)
  {
  }

  /**
   * The largest constant `parseInt` accepts, 2147483647, added to a channel of 1
   * wraps to -2147483648: the result is not a channel value, where the
   * evidently intended cap gives 255.
   */
  lemma BrightenInt32Overflows()
    ensures BrightenChannelInt32(1, IntMax) == IntMin
    ensures !ValidChannel(BrightenChannelInt32(1, IntMax))
    ensures BrightenChannel(1, IntMax) == MaxChannel
  {
  }
}
