/**
 * Flips. The program does not read from the mirror position; it writes each
 * visited source pixel TO the mirror position, in row-major order. Under a
 * mask a position therefore receives its own source pixel when its own visit
 * is not masked, its mirror's source pixel when the mirror's visit is masked,
 * the later of the two when both happen, and nothing at all when neither does.
 */
module Flipping {
  import opened Wrappers
  import opened Images

  datatype Direction = Horizontal | Vertical

  function MirrorRow(dir: Direction, h: int, r: int): int {
    if dir == Vertical then h - 1 - r else r
  }

  function MirrorCol(dir: Direction, w: int, c: int): int {
    if dir == Horizontal then w - 1 - c else c
  }

  /** Row-major visiting order: (r1, c1) is visited before (r2, c2). */
  predicate Before(r1: int, c1: int, r2: int, c2: int) {
    r1 < r2 || (r1 == r2 && c1 < c2)
  }

  predicate MaskFits(src: Image, mask: Option<Image>)
  {
    Shaped(src) && (mask.Some? ==> Shaped(mask.value) && Covers(mask.value, src))
  }

  /** The visit of (r, c) flips its pixel: always without a mask, where the mask is black with one. */
  predicate Affected(src: Image, mask: Option<Image>, r: int, c: int)
    requires MaskFits(src, mask) && InBounds(src, r, c)
  {
    mask.None? || FitsMask(mask.value, r, c)
  }

  /**
   * The content of output position (r, c) once every position visited before
   * (i, j) has been processed; `None` while nothing has been written there.
   */
  function CellAfter(src: Image, mask: Option<Image>, dir: Direction, r: int, c: int, i: int, j: int): Option<Pixel>
    requires MaskFits(src, mask) && InBounds(src, r, c)
  {
    var mr := MirrorRow(dir, src.height, r);
    var mc := MirrorCol(dir, src.width, c);
    var own := Before(r, c, i, j) && !Affected(src, mask, r, c);
    var mir := Before(mr, mc, i, j) && Affected(src, mask, mr, mc);
    if own && mir then (if Before(r, c, mr, mc) then Some(At(src, mr, mc)) else Some(At(src, r, c)))
    else if mir then Some(At(src, mr, mc))
    else if own then Some(At(src, r, c))
    else None
  }

  /** The grid `flip` hands to the image constructor, as a closed form. */
  function FlipGrid(src: Image, mask: Option<Image>, dir: Direction): (g: seq<seq<Option<Pixel>>>)
    requires MaskFits(src, mask)
    ensures |g| == src.height && forall r :: 0 <= r < src.height ==> |g[r]| == src.width
  {
    seq(src.height, r requires 0 <= r < src.height =>
      seq(src.width, c requires 0 <= c < src.width => CellAfter(src, mask, dir, r, c, src.height, 0)))
  }

  /** The position the visit of (i, j) writes: its mirror when affected, itself otherwise. */
  function Target(src: Image, mask: Option<Image>, dir: Direction, i: int, j: int): (t: (int, int))
    requires MaskFits(src, mask) && InBounds(src, i, j)
    ensures InBounds(src, t.0, t.1)
  {
    if Affected(src, mask, i, j) then (MirrorRow(dir, src.height, i), MirrorCol(dir, src.width, j)) else (i, j)
  }

  /** The visit of (i, j) changes only the position it writes. */
  lemma VisitStep(src: Image, mask: Option<Image>, dir: Direction, i: int, j: int, r: int, c: int)
    requires MaskFits(src, mask) && InBounds(src, i, j) && InBounds(src, r, c)
    ensures CellAfter(src, mask, dir, r, c, i, j + 1) ==
        if (r, c) == Target(src, mask, dir, i, j) then Some(At(src, i, j)) else CellAfter(src, mask, dir, r, c, i, j)
  {
  }

  /** The grid holds, at every position, its content once the visits before (i, j) are done. */
  ghost predicate GridAfter(src: Image, mask: Option<Image>, dir: Direction, g: seq<seq<Option<Pixel>>>, i: int, j: int)
    requires MaskFits(src, mask)
  {
    |g| == src.height && (forall r :: 0 <= r < src.height ==> |g[r]| == src.width) &&
    forall r, c :: InBounds(src, r, c) ==> g[r][c] == CellAfter(src, mask, dir, r, c, i, j)
  }

  /** Performing the write of the visit of (i, j) advances the grid past that visit. */
  lemma WriteStep(src: Image, mask: Option<Image>, dir: Direction, g: seq<seq<Option<Pixel>>>, i: int, j: int)
    requires MaskFits(src, mask) && InBounds(src, i, j) && GridAfter(src, mask, dir, g, i, j)
    ensures var t := Target(src, mask, dir, i, j);
      GridAfter(src, mask, dir, g[t.0 := g[t.0][t.1 := Some(At(src, i, j))]], i, j + 1)
  {
    var t := Target(src, mask, dir, i, j);
    var g' := g[t.0 := g[t.0][t.1 := Some(At(src, i, j))]];
    forall r, c | InBounds(src, r, c)
      ensures g'[r][c] == CellAfter(src, mask, dir, r, c, i, j + 1)
    {
      VisitStep(src, mask, dir, i, j, r, c);
    }
  }

  /** Past the last column of row `i` is the same point as before row `i + 1`. */
  lemma RowDone(src: Image, mask: Option<Image>, dir: Direction, g: seq<seq<Option<Pixel>>>, i: int)
    requires MaskFits(src, mask) && GridAfter(src, mask, dir, g, i, src.width)
    ensures GridAfter(src, mask, dir, g, i + 1, 0)
  {
    forall r, c | InBounds(src, r, c)
      ensures CellAfter(src, mask, dir, r, c, i, src.width) == CellAfter(src, mask, dir, r, c, i + 1, 0)
    {
      var mr, mc := MirrorRow(dir, src.height, r), MirrorCol(dir, src.width, c);
      assert Before(r, c, i, src.width) == Before(r, c, i + 1, 0);
      assert Before(mr, mc, i, src.width) == Before(mr, mc, i + 1, 0);
    }
  }

  /** The visits of row `i`, in column order. */
  method FlipRow(src: Image, mask: Option<Image>, dir: Direction, i: int, g0: seq<seq<Option<Pixel>>>)
    returns (g: seq<seq<Option<Pixel>>>)
    requires MaskFits(src, mask) && 0 <= i < src.height
    requires GridAfter(src, mask, dir, g0, i, 0)
    ensures GridAfter(src, mask, dir, g, i + 1, 0)
  {
    var h, w := src.height, src.width;
    g := g0;
    for j := 0 to w
      invariant GridAfter(src, mask, dir, g, i, j)
    {
      var ti, tj := i, j;
      if mask.None? || FitsMask(mask.value, i, j) {
        ti, tj := MirrorRow(dir, h, i), MirrorCol(dir, w, j);
      }
      assert (ti, tj) == Target(src, mask, dir, i, j);
      WriteStep(src, mask, dir, g, i, j);
      g := g[ti := g[ti][tj := Some(At(src, i, j))]];
    }
    RowDone(src, mask, dir, g, i);
  }

  /**
   * `flip` as the program runs it: a row-major loop that writes each visited
   * pixel to its mirror position (or, where the mask is not black, to its own
   * position). The result is the closed form above.
   */
  method Flip(src: Image, mask: Option<Image>, dir: Direction) returns (g: seq<seq<Option<Pixel>>>)
    requires MaskFits(src, mask)
    ensures g == FlipGrid(src, mask, dir)
  {
    var h, w := src.height, src.width;
    g := seq(h, _ => seq(w, _ => None));
    for i := 0 to h
      invariant GridAfter(src, mask, dir, g, i, 0)
    {
      g := FlipRow(src, mask, dir, i, g);
    }
    var want := FlipGrid(src, mask, dir);
    forall r | 0 <= r < h
      ensures g[r] == want[r]
    {
      assert forall c :: 0 <= c < w ==> g[r][c] == want[r][c];
    }
  }

  /** Without a mask every position is written, with its mirror's source pixel. */
  lemma FlipUnmasked(src: Image, dir: Direction, r: int, c: int)
    requires Shaped(src) && InBounds(src, r, c)
    ensures FlipGrid(src, None, dir)[r][c] ==
              Some(At(src, MirrorRow(dir, src.height, r), MirrorCol(dir, src.width, c)))
  {
  }

  /** Where the mask is not black at a position nor at its mirror, the source pixel stays. */
  lemma FlipMaskedBothClear(src: Image, m: Image, dir: Direction, r: int, c: int)
    requires MaskFits(src, Some(m)) && InBounds(src, r, c)
    requires !FitsMask(m, r, c) && !FitsMask(m, MirrorRow(dir, src.height, r), MirrorCol(dir, src.width, c))
    ensures FlipGrid(src, Some(m), dir)[r][c] == Some(At(src, r, c))
  {
  }

  /** Where the mask is black at a position and at its mirror, the mirror's pixel arrives. */
  lemma FlipMaskedBothBlack(src: Image, m: Image, dir: Direction, r: int, c: int)
    requires MaskFits(src, Some(m)) && InBounds(src, r, c)
    requires FitsMask(m, r, c) && FitsMask(m, MirrorRow(dir, src.height, r), MirrorCol(dir, src.width, c))
    ensures FlipGrid(src, Some(m), dir)[r][c] ==
              Some(At(src, MirrorRow(dir, src.height, r), MirrorCol(dir, src.width, c)))
  {
  }

  /**
   * Black at a position but not at its mirror: the position's own visit
   * writes to the mirror and no visit writes to it, so it is left empty.
   */
  lemma FlipMaskedNeverWritten(src: Image, m: Image, dir: Direction, r: int, c: int)
    requires MaskFits(src, Some(m)) && InBounds(src, r, c)
    requires FitsMask(m, r, c) && !FitsMask(m, MirrorRow(dir, src.height, r), MirrorCol(dir, src.width, c))
    ensures FlipGrid(src, Some(m), dir)[r][c] == None
  {
  }

  /**
   * Black at the mirror but not at the position: both visits write here and
   * the one later in row-major order wins.
   */
  lemma FlipMaskedLaterWins(src: Image, m: Image, dir: Direction, r: int, c: int)
    requires MaskFits(src, Some(m)) && InBounds(src, r, c)
    requires !FitsMask(m, r, c) && FitsMask(m, MirrorRow(dir, src.height, r), MirrorCol(dir, src.width, c))
    ensures var mr, mc := MirrorRow(dir, src.height, r), MirrorCol(dir, src.width, c);
      FlipGrid(src, Some(m), dir)[r][c] == if Before(r, c, mr, mc) then Some(At(src, mr, mc)) else Some(At(src, r, c))
  {
  }

  /** The unmasked flip as an image. */
  function FlipImage(src: Image, dir: Direction): (r: Image)
    requires Shaped(src)
    ensures Shaped(r) && r.height == src.height && r.width == src.width
    ensures forall i, j :: 0 <= i < src.height && 0 <= j < src.width ==>
              r.px[i][j] == At(src, MirrorRow(dir, src.height, i), MirrorCol(dir, src.width, j))
  {
    Image(src.height, src.width,
      seq(src.height, i requires 0 <= i < src.height =>
        seq(src.width, j requires 0 <= j < src.width =>
          At(src, MirrorRow(dir, src.height, i), MirrorCol(dir, src.width, j)))))
  }

  /** The unmasked loop writes every position, and what it writes is `FlipImage`. */
  lemma FlipGridIsFlipImage(src: Image, dir: Direction)
    requires Shaped(src)
    ensures forall i, j :: 0 <= i < src.height && 0 <= j < src.width ==>
              FlipGrid(src, None, dir)[i][j] == Some(FlipImage(src, dir).px[i][j])
  {
  }

  /** Flipping twice in the same direction restores the source. */
  lemma FlipTwice(src: Image, dir: Direction)
    requires Shaped(src)
    ensures FlipImage(FlipImage(src, dir), dir) == src
  {
    var twice := FlipImage(FlipImage(src, dir), dir);
    SameImageIsEqual(twice, src);
  }

  /** A vertical flip keeps every pixel in its column and reverses the row order. */
  lemma VerticalFlipKeepsColumns(src: Image, i: int, j: int)
    requires Shaped(src) && InBounds(src, i, j)
    ensures FlipImage(src, Vertical).px[src.height - 1 - i][j] == At(src, i, j)
  {
  }

  /** With an odd number of rows the middle row does not move under a vertical flip. */
  lemma VerticalFlipMiddleRow(src: Image, j: int)
    requires Shaped(src) && src.height % 2 == 1 && 0 <= j < src.width
    ensures FlipImage(src, Vertical).px[src.height / 2][j] == At(src, src.height / 2, j)
  {
  }

  /** Every position of the grid received a pixel. */
  predicate AllWritten(g: seq<seq<Option<Pixel>>>) {
    forall r, c :: 0 <= r < |g| && 0 <= c < |g[r]| ==> g[r][c].Some?
  }

  /**
   * The image `flip` returns when every position was written; `None` when
   * some position was left empty (what the image constructor does with an
   * empty position is outside this model).
   */
  function FlipModel(src: Image, mask: Option<Image>, dir: Direction): (r: Option<Image>)
    requires MaskFits(src, mask)
    ensures r.Some? <==> AllWritten(FlipGrid(src, mask, dir))
    ensures r.Some? ==> Shaped(r.value) && r.value.height == src.height && r.value.width == src.width
    ensures r.Some? ==> forall i, j :: InBounds(src, i, j) ==> FlipGrid(src, mask, dir)[i][j] == Some(r.value.px[i][j])
  {
    var g := FlipGrid(src, mask, dir);
    if AllWritten(g) then
      Some(Image(src.height, src.width,
        seq(src.height, i requires 0 <= i < src.height =>
          seq(src.width, j requires 0 <= j < src.width => g[i][j].value))))
    else None
  }

  /** Every pixel `flip` outputs is a pixel of the source, so a valid source gives a valid image. */
  lemma FlipModelWellFormed(src: Image, mask: Option<Image>, dir: Direction)
    requires MaskFits(src, mask) && WellFormed(src) && FlipModel(src, mask, dir).Some?
    ensures WellFormed(FlipModel(src, mask, dir).value)
  {
    var out := FlipModel(src, mask, dir).value;
    forall i, j | InBounds(src, i, j)
      ensures ValidPixel(out.px[i][j])
    {
      var mr, mc := MirrorRow(dir, src.height, i), MirrorCol(dir, src.width, j);
      assert InBounds(src, mr, mc);
    }
  }

  /** Without a mask `flip` writes everything and returns `FlipImage`. */
  lemma FlipModelUnmasked(src: Image, dir: Direction)
    requires Shaped(src)
    ensures FlipModel(src, None, dir) == Some(FlipImage(src, dir))
  {
    FlipGridIsFlipImage(src, dir);
    SameImageIsEqual(FlipModel(src, None, dir).value, FlipImage(src, dir));
  }
}
