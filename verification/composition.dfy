/**
 * The loop shared by the transformation, filter, brighten and mosaic
 * commands: build a grid of the source's size; a position gets the
 * operation's pixel when there is no mask or the mask is black there, and
 * the source pixel otherwise.
 */
module Composition {
  import opened Wrappers
  import opened Images
  import opened Transformation
  import opened Filtering
  import opened Brightening
  import opened Mosaic

  /** The per-pixel operations that run inside the shared masked loop. */
  datatype PixelOp =
    | TransformOp(kind: Kind)
    | FilterOp(filter: FilterKind)
    | BrightenOp(constant: int)
    | MosaicOp(seeds: seq<Cell>)

  /** The source has the shape it claims, and a mosaic has at least one seed inside it. */
  predicate Applicable(op: PixelOp, src: Image) {
    Shaped(src) && (op.MosaicOp? ==> |op.seeds| > 0 && AllIn(op.seeds, src.height, src.width))
  }

  /** Every position of the source can be looked up in the mask, if there is one. */
  predicate MaskUsable(src: Image, mask: Option<Image>) {
    mask.Some? ==> Shaped(mask.value) && Covers(mask.value, src)
  }

  /** The operation's own pixel at (r, c), as the unmasked loop computes it. */
  function ApplyAt(op: PixelOp, src: Image, r: int, c: int): (p: Pixel)
    requires Applicable(op, src) && InBounds(src, r, c)
    ensures WellFormed(src) ==> ValidPixel(p)
  {
    match op
    case TransformOp(k) => TransformKind(At(src, r, c), k)
    case FilterOp(f) => FilterPixel(src, f, r, c)
    case BrightenOp(n) => BrightenPixel(At(src, r, c), n)
    case MosaicOp(seeds) =>
      var s := seeds[MosaicIndex(src.height, src.width, seeds, r, c)];
      assert CellIn(s, src.height, src.width);
      MosaicPixel(src, seeds, r, c)
  }

  /** Whether the loop applies the operation at (r, c). */
  predicate Selected(src: Image, mask: Option<Image>, r: int, c: int)
    requires Shaped(src) && MaskUsable(src, mask) && InBounds(src, r, c)
  {
    mask.None? || FitsMask(mask.value, r, c)
  }

  /** `transform`, `filter`, `brighten` and `mosaic` with an optional mask. */
  function Compose(op: PixelOp, src: Image, mask: Option<Image>): (r: Image)
    requires Applicable(op, src) && MaskUsable(src, mask)
    ensures Shaped(r) && r.height == src.height && r.width == src.width
    ensures WellFormed(src) ==> WellFormed(r)
    ensures forall i, j :: InBounds(src, i, j) && Selected(src, mask, i, j) ==> r.px[i][j] == ApplyAt(op, src, i, j)
    ensures forall i, j :: InBounds(src, i, j) && !Selected(src, mask, i, j) ==> r.px[i][j] == At(src, i, j)
  {
    Image(src.height, src.width,
      seq(src.height, i requires 0 <= i < src.height =>
        seq(src.width, j requires 0 <= j < src.width =>
          if Selected(src, mask, i, j) then ApplyAt(op, src, i, j) else At(src, i, j))))
  }

  /** An all-black mask selects everything: the result equals the unmasked run. */
  lemma BlackMaskIsNoMask(op: PixelOp, src: Image, mask: Image)
    requires Applicable(op, src) && MaskUsable(src, Some(mask))
    requires forall i, j :: InBounds(src, i, j) ==> At(mask, i, j) == Black
    ensures Compose(op, src, Some(mask)) == Compose(op, src, None)
  {
    SameImageIsEqual(Compose(op, src, Some(mask)), Compose(op, src, None));
  }

  /** A mask with no black pixel selects nothing: the result is the source. */
  lemma ClearMaskIsIdentity(op: PixelOp, src: Image, mask: Image)
    requires Applicable(op, src) && MaskUsable(src, Some(mask))
    requires forall i, j :: InBounds(src, i, j) ==> At(mask, i, j) != Black
    ensures Compose(op, src, Some(mask)) == src
  {
    forall i, j | InBounds(src, i, j)
      ensures !Selected(src, Some(mask), i, j)
    {
      FitsMaskIsBlack(mask, i, j);
    }
    SameImageIsEqual(Compose(op, src, Some(mask)), src);
  }

  /** A masked run equals the unmasked run on black mask pixels and the source elsewhere. */
  lemma MaskedAgreesWithUnmasked(op: PixelOp, src: Image, mask: Image, i: int, j: int)
    requires Applicable(op, src) && MaskUsable(src, Some(mask)) && InBounds(src, i, j)
    ensures var masked := Compose(op, src, Some(mask)).px[i][j];
      masked == if At(mask, i, j) == Black then Compose(op, src, None).px[i][j] else At(src, i, j)
  {
    FitsMaskIsBlack(mask, i, j);
  }

  /** Green-component greyscale, masked or not, is idempotent on a valid image. */
  lemma GreenGreyscaleIdempotent(src: Image, mask: Option<Image>)
    requires WellFormed(src) && MaskUsable(src, mask)
    ensures var once := Compose(TransformOp(GreenComponent), src, mask);
      Compose(TransformOp(GreenComponent), once, mask) == once
  {
    var once := Compose(TransformOp(GreenComponent), src, mask);
    var twice := Compose(TransformOp(GreenComponent), once, mask);
    forall i, j | InBounds(src, i, j)
      ensures twice.px[i][j] == once.px[i][j]
    {
      if Selected(src, mask, i, j) {
        GreenComponentIdempotent(At(src, i, j));
      }
    }
    SameImageIsEqual(twice, once);
  }

  /** Every selected pixel of a greyscale kind is grey; every other pixel is the source. */
  lemma GreyscaleImage(src: Image, mask: Option<Image>, k: Kind, i: int, j: int)
    requires Shaped(src) && MaskUsable(src, mask) && InBounds(src, i, j) && Greyscale(k)
    ensures var p := Compose(TransformOp(k), src, mask).px[i][j];
      Selected(src, mask, i, j) ==> p.red == p.green == p.blue
  {
    GreyscaleKindsGiveGrey(At(src, i, j), k);
  }

  /** Intensity greyscale makes each selected pixel the integer mean of its channels. */
  lemma IntensityImage(src: Image, mask: Option<Image>, i: int, j: int)
    requires WellFormed(src) && MaskUsable(src, mask) && InBounds(src, i, j)
    ensures var p := At(src, i, j);
      var v := (p.red + p.green + p.blue) / 3;
      Selected(src, mask, i, j) ==> Compose(TransformOp(Intensity), src, mask).px[i][j] == Pixel(v, v, v)
  {
    IntensityKind(At(src, i, j));
  }

  /** Brightening by zero leaves a valid image unchanged, under any mask. */
  lemma BrightenZeroIsIdentity(src: Image, mask: Option<Image>)
    requires WellFormed(src) && MaskUsable(src, mask)
    ensures Compose(BrightenOp(0), src, mask) == src
  {
    SameImageIsEqual(Compose(BrightenOp(0), src, mask), src);
  }

  /** Sharpening a one-pixel image changes nothing: its only neighbour is itself. */
  lemma SharpenSinglePixelImage(src: Image, mask: Option<Image>)
    requires WellFormed(src) && src.height == 1 && src.width == 1 && MaskUsable(src, mask)
    ensures Compose(FilterOp(Sharpen), src, mask) == src
  {
    SharpenSinglePixel(src);
    SameImageIsEqual(Compose(FilterOp(Sharpen), src, mask), src);
  }

  /** Every selected mosaic pixel carries the source colour of one of the seeds. */
  lemma MosaicColoursFromSeeds(src: Image, mask: Option<Image>, seeds: seq<Cell>, i: int, j: int)
    requires Applicable(MosaicOp(seeds), src) && MaskUsable(src, mask) && InBounds(src, i, j)
    requires Selected(src, mask, i, j)
    ensures exists t :: 0 <= t < |seeds| &&
              Compose(MosaicOp(seeds), src, mask).px[i][j] == At(src, seeds[t].row, seeds[t].col)
  {
    var t := MosaicIndex(src.height, src.width, seeds, i, j);
    assert CellIn(seeds[t], src.height, src.width);
  }

  /** A selected seed position keeps its own source colour. */
  lemma MosaicSeedPixel(src: Image, mask: Option<Image>, seeds: seq<Cell>, t: int)
    requires Applicable(MosaicOp(seeds), src) && MaskUsable(src, mask) && Distinct(seeds)
    requires 0 <= t < |seeds|
    ensures var s := seeds[t];
      Compose(MosaicOp(seeds), src, mask).px[s.row][s.col] == At(src, s.row, s.col)
  {
    var s := seeds[t];
    assert CellIn(s, src.height, src.width);
    MosaicSeedKeepsItself(src.height, src.width, seeds, s.row, s.col, t);
  }

  /** With as many seeds as pixels every pixel is a seed, so the mosaic is the source. */
  lemma MosaicAllSeedsIsIdentity(src: Image, mask: Option<Image>, seeds: seq<Cell>)
    requires Applicable(MosaicOp(seeds), src) && MaskUsable(src, mask) && Distinct(seeds)
    requires |seeds| == src.height * src.width
    ensures Compose(MosaicOp(seeds), src, mask) == src
  {
    var out := Compose(MosaicOp(seeds), src, mask);
    SeedsFillGrid(src.height, src.width, seeds);
    forall i, j | InBounds(src, i, j)
      ensures out.px[i][j] == src.px[i][j]
    {
      assert CellIn(Cell(i, j), src.height, src.width);
      var t :| 0 <= t < |seeds| && seeds[t] == Cell(i, j);
      MosaicSeedPixel(src, mask, seeds, t);
    }
    SameImageIsEqual(out, src);
  }

  /** No two positions of the image hold the same colour. */
  ghost predicate DistinctPixels(img: Image)
    requires Shaped(img)
  {
    forall a, b, c, d :: InBounds(img, a, b) && InBounds(img, c, d) && img.px[a][b] == img.px[c][d] ==>
      a == c && b == d
  }

  /** The colours occurring in an image. */
  ghost function Colours(img: Image): set<Pixel>
    requires Shaped(img)
  {
    set i, j | 0 <= i < img.height && 0 <= j < img.width :: img.px[i][j]
  }

  /** The source colours of the seeds. */
  ghost function SeedColours(src: Image, seeds: seq<Cell>): set<Pixel>
    requires Shaped(src) && AllIn(seeds, src.height, src.width)
  {
    set t | 0 <= t < |seeds| :: At(src, seeds[t].row, seeds[t].col)
  }

  /** Dropping the last seed removes exactly its colour. */
  lemma SeedColoursSnoc(src: Image, seeds: seq<Cell>)
    requires Shaped(src) && AllIn(seeds, src.height, src.width) && |seeds| > 0
    ensures var n := |seeds| - 1;
      AllIn(seeds[..n], src.height, src.width) && CellIn(seeds[n], src.height, src.width) &&
      SeedColours(src, seeds) == SeedColours(src, seeds[..n]) + {At(src, seeds[n].row, seeds[n].col)}
  {
    var n := |seeds| - 1;
    var init := seeds[..n];
    assert AllIn(init, src.height, src.width);
    assert CellIn(seeds[n], src.height, src.width);
    var p := At(src, seeds[n].row, seeds[n].col);
    forall q | q in SeedColours(src, seeds)
      ensures q in SeedColours(src, init) + {p}
    {
      var t :| 0 <= t < |seeds| && q == At(src, seeds[t].row, seeds[t].col);
      if t < n {
        assert seeds[t] == init[t];
      }
    }
    forall q | q in SeedColours(src, init)
      ensures q in SeedColours(src, seeds)
    {
      var t :| 0 <= t < |init| && q == At(src, init[t].row, init[t].col);
      assert init[t] == seeds[t];
    }
  }

  /** The last seed's colour is new when seeds and source pixels are distinct. */
  lemma LastSeedColourIsNew(src: Image, seeds: seq<Cell>)
    requires Shaped(src) && AllIn(seeds, src.height, src.width) && |seeds| > 0
    requires Distinct(seeds) && DistinctPixels(src)
    ensures var n := |seeds| - 1;
      AllIn(seeds[..n], src.height, src.width) && CellIn(seeds[n], src.height, src.width) &&
      At(src, seeds[n].row, seeds[n].col) !in SeedColours(src, seeds[..n])
  {
    var n := |seeds| - 1;
    var init := seeds[..n];
    var s := seeds[n];
    assert AllIn(init, src.height, src.width);
    assert CellIn(s, src.height, src.width);
    var p := At(src, s.row, s.col);
    forall t | 0 <= t < |init|
      ensures At(src, init[t].row, init[t].col) != p
    {
      assert init[t] == seeds[t] && seeds[t] != s;
      assert CellIn(seeds[t], src.height, src.width);
    }
  }

  lemma {:induction false} SeedColoursCard(src: Image, seeds: seq<Cell>)
    requires Shaped(src) && AllIn(seeds, src.height, src.width) && Distinct(seeds) && DistinctPixels(src)
    ensures |SeedColours(src, seeds)| == |seeds|
  {
    if |seeds| > 0 {
      var n := |seeds| - 1;
      SeedColoursSnoc(src, seeds);
      LastSeedColourIsNew(src, seeds);
      assert Distinct(seeds[..n]);
      SeedColoursCard(src, seeds[..n]);
    }
  }

  /**
   * Unmasked, with pairwise different source pixels, the mosaic holds exactly
   * as many different colours as there are seeds.
   */
  lemma MosaicColourCount(src: Image, seeds: seq<Cell>)
    requires Applicable(MosaicOp(seeds), src) && Distinct(seeds) && DistinctPixels(src)
    ensures |Colours(Compose(MosaicOp(seeds), src, None))| == |seeds|
  {
    var out := Compose(MosaicOp(seeds), src, None);
    assert Colours(out) == SeedColours(src, seeds) by {
      forall q | q in Colours(out)
        ensures q in SeedColours(src, seeds)
      {
        var i, j :| 0 <= i < src.height && 0 <= j < src.width && q == out.px[i][j];
        MosaicColoursFromSeeds(src, None, seeds, i, j);
      }
      forall q | q in SeedColours(src, seeds)
        ensures q in Colours(out)
      {
        var t :| 0 <= t < |seeds| && q == At(src, seeds[t].row, seeds[t].col);
        assert CellIn(seeds[t], src.height, src.width);
        MosaicSeedPixel(src, None, seeds, t);
        assert out.px[seeds[t].row][seeds[t].col] == q;
      }
    }
    SeedColoursCard(src, seeds);
  }
}
