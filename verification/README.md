# Image-Processor pixel engine in Dafny

A model of the pixel-transform engine of a Java image processor and of two
pure helpers of its preview window. Every command reads a source image and an
optional mask and builds a new image. Where the mask pixel is pure black, or
where there is no mask, the output position gets the operation's pixel. Every
other position gets the source pixel. The commands are:

- colour-matrix transforms: red, green, blue, max-value, luma, intensity and sepia;
- blur and sharpen convolutions;
- horizontal and vertical flips;
- brighten;
- mosaic;
- downscale.

The registry step `edit` looks images up by name, checks the mask size and
stores the result under a new name.

The model is functional:

- An image is a `seq<seq<Pixel>>` with its height and width. `WellFormed` says
  the grid has that shape and that every channel lies in [0, 255].
- The registry is a `map<string, Image>`.
- The pseudo-random generator of the mosaic is replaced by an explicit sequence
  of `(row, col)` draws.
- Java `double` arithmetic becomes exact `real` arithmetic, and `Math.sqrt`
  distances become squared integer distances.

Modules follow the program's classes:

| file | module | models |
|---|---|---|
| `wrappers.dfy` | `Wrappers` | `Option` and `Result` |
| `images.dfy` | `Images` | pixels, images, `fitsMask`, Java's truncating `/` and `(int)` cast |
| `parsing.dfy` | `Parsing` | `Integer.parseInt` on ASCII text, 32-bit wrap-around |
| `transformation.dfy` | `Transformation` | `transformationMatrix`, `createMatrix`, `transformPixel` |
| `filtering.dfy` | `Filtering` | `filterByType`, `filterPixel`, `secondSetCond` |
| `brighten.dfy` | `Brightening` | `brightenPixel` |
| `mosaic.dfy` | `Mosaic` | `generateSeedList`, `containsSeed`, `mosaicPixel` |
| `downscale.dfy` | `Downscale` | `downscaleImage`, `mappedValues`, `averageValue` |
| `composition.dfy` | `Composition` | the masked loop shared by `transform`, `filter`, `brighten` and `mosaic` |
| `flip.dfy` | `Flipping` | `flip` and `flipByDirection` |
| `commands.dfy` | `Commands` | every `newModel` and `edit` |
| `histogram.dfy` | `Histogram` | `getYCoords`, `getMaxY` |
| `preview.dfy` | `Preview` | `createNewMask`, `updateParameters` |

Behaviour of the code that a reader might not expect. In each case the model does
what the code does:

- The mask size check rejects a mask only when its height AND its width both
  differ from the source's (`src/commands/AbstractImageCommand.java:55-59`). A
  mask that is narrower but as tall passes the check. The pixel loop then reads
  outside the mask, and the index error is swallowed without a message. The
  refusal message itself (`src/commands/AbstractImageCommand.java:57-58`) asks
  for a mask of the same size.
- Mosaic starts from seed 0 with a distance threshold of max(h, w)
  (`src/commands/Mosaic.java:123-124`). A seed replaces seed 0 only when it is
  strictly closer than that threshold, so when every seed lies at least
  max(h, w) away the pixel takes seed 0 even if another seed is nearer. The
  method's documentation (`src/commands/Mosaic.java:115`) promises the nearest
  seed.
  `Mosaic.ThresholdKeepsFartherSeed` gives such an input. The operation keeps
  this behaviour; `Mosaic.NearestSeedIndex` is the nearest-seed search without
  the threshold.
- Downscale ignores the mask. In the interpolated branch it computes blue from
  the green corners. When exactly one mapped coordinate is whole, every
  interpolation weight is 0 and the pixel is black.
- A missing image name is not caught at the lookup. It fails at the first use of
  that image (`src/commands/AbstractImageCommand.java:50`, `74-76`). So a token
  that does not parse still raises, because commands parse their tokens before
  they touch the source. A one-token edit is silently ignored, because reading
  the missing second token fails first (`src/commands/AbstractImageCommand.java:64`).
- Sharpen divides the centre by 1, neighbours at distance 1 by 4 and those at
  distance 2 by -8. Each neighbour is divided separately, truncating toward zero.

## Model

| member | source | states |
|---|---|---|
| Images.Clamp | src/commands/AbstractTransformationCommand.java:91-93 | the result is a channel value; a value already in [0, 255] is unchanged, and values below or above saturate at 0 and 255 |
| Images.JavaDiv | src/commands/AbstractFilterCommand.java:107-118 | Java's `/` rounds toward zero: for a non-negative dividend the remainder lies in [0, abs(divisor)), and for a negative one it lies in (-abs(divisor), 0] |
| Images.JavaDivAgrees | src/commands/AbstractFilterCommand.java:107-118 | for the non-negative channel values every filter divides, Java's division equals Dafny's, including for the divisor -8 |
| Images.Trunc | src/commands/AbstractTransformationCommand.java:82-90 | the `(int)` cast of a real lies within 1 of it and toward zero from it |
| Images.FitsMaskIsBlack | src/commands/AbstractImageCommand.java:103-107 | a position is selected by the mask exactly when the mask pixel there is (0, 0, 0) |
| Transformation.Entries | src/commands/AbstractTransformationCommand.java:103-144 | every kind's matrix is given by exactly nine numbers |
| Transformation.CreateMatrix | src/commands/AbstractTransformationCommand.java:152-159 | the loop fills a 3x3 matrix row-major: entry (i, j) is value 3i + j, so it builds exactly the matrix `RowMajor` gives, which the transform uses |
| Transformation.KindMatrix | src/commands/AbstractTransformationCommand.java:103-144 | each kind yields a 3x3 matrix |
| Transformation.TransformKind | src/commands/AbstractTransformationCommand.java:73-95 | a pixel with channels in [0, 255] is transformed into one with channels in [0, 255] |
| Transformation.SentinelOnlyForMaxValue | src/commands/AbstractTransformationCommand.java:78-80 | the -1 entry that selects the max-value branch appears in the max-value matrix and in no other |
| Transformation.GreyscaleKindsGiveGrey | src/commands/AbstractTransformationCommand.java:107-132 | every kind except sepia gives three equal output channels |
| Transformation.ComponentKinds | src/commands/AbstractTransformationCommand.java:107-118 | red, green and blue components copy that one source channel into all three output channels |
| Transformation.MaxValueKind | src/commands/AbstractTransformationCommand.java:78-80 | max-value gives (m, m, m), where m is the largest source channel |
| Transformation.IntensityKind | src/commands/AbstractTransformationCommand.java:128-132 | intensity gives (v, v, v) with v the truncated mean of the channels, and v lies between the smallest and the largest channel |
| Transformation.LumaBelowMax | src/commands/AbstractTransformationCommand.java:123-127 | the luma value lies between 0 and the largest channel |
| Transformation.GreenComponentIdempotent | src/commands/GreenGreyscale.java:35-37 | green greyscale applied to its own output changes nothing |
| Filtering.Divisor | src/commands/AbstractFilterCommand.java:107-118 | no kernel position divides by zero |
| Filtering.FilterPixel | src/commands/AbstractFilterCommand.java:97-126 | every output channel lies in [0, 255] |
| Filtering.FilterIsLocal | src/commands/AbstractFilterCommand.java:103-106 | the filtered pixel depends only on the source pixels inside its window and the grid; nothing outside the grid contributes |
| Filtering.SumColsOutside | src/commands/AbstractFilterCommand.java:104-106 | window positions outside the grid add nothing, so there is no padding and no wrap-around |
| Filtering.SharpenTerms | src/commands/AbstractFilterCommand.java:75-77 | in sharpen, the centre contributes its full value, neighbours at distance 1 contribute v/4, and those at distance 2 subtract v/8 truncated |
| Filtering.BlurTerms | src/commands/AbstractFilterCommand.java:72-74 | in blur, the centre contributes v/4, same-row or same-column neighbours v/8, and diagonal ones v/16 |
| Filtering.BlurNeedsNoClamp | src/commands/AbstractFilterCommand.java:107-125 | the blur kernel sum already lies in [0, 255], so the clamp never changes it |
| Filtering.SharpenSinglePixel | src/commands/SharpenFilter.java:35-37 | sharpening a 1x1 image returns its pixel |
| Filtering.SumColsSplit | src/commands/AbstractFilterCommand.java:103-105 | a kernel row's sum splits at any column into the sums of the two parts |
| Parsing.WrapInt32 | src/commands/Brighten.java:94-103 | 32-bit wrap-around: the result is a 32-bit value congruent to the input modulo 2^32, and equal to it when it fits |
| Parsing.ParseInt | src/commands/Brighten.java:41-47 | a parsed value is a 32-bit integer, and empty text never parses |
| Parsing.ParseShowRoundTrip | src/commands/Brighten.java:41-47 | every 32-bit integer written in decimal parses back to itself |
| Parsing.NonNumericRejected | src/commands/Brighten.java:41-47 | text without a decimal digit is rejected, which the command turns into an IllegalArgumentException |
| Brightening.BrightenChannel | src/commands/Brighten.java:94-103 | a channel in [0, 255] stays in [0, 255]; a non-negative constant never lifts a channel above 255 and a negative one never takes it below 0 |
| Brightening.BrightenChannelInt32 | src/commands/Brighten.java:94-103 | with 32-bit addition the result is a 32-bit value, capped only at 255 for c >= 0 and only at 0 for c < 0, so an overflow can leave it outside [0, 255] |
| Brightening.BrightenPixel | src/commands/Brighten.java:90-105 | a valid pixel stays valid, and brightening by 0 returns it unchanged |
| Brightening.BrightenIsClampedShift | src/commands/Brighten.java:94-103 | for a channel in [0, 255], the one-sided caps (only 255 when c >= 0, only 0 when c < 0) equal the full clamp of v + c |
| Brightening.BrightenUndo | src/commands/Brighten.java:94-103 | brightening by c and then by -c restores a channel whenever the first shift did not clamp |
| Brightening.BrightenInt32Agrees | src/commands/Brighten.java:94-103 | when v + c fits in 32 bits, the wrapping arithmetic of the code gives the modelled channel |
| Brightening.BrightenInt32Overflows | src/commands/Brighten.java:94-98 | the constant 2147483647 on a channel of 1 wraps to -2147483648, which is not a channel value; the intended cap gives 255 |
| Mosaic.ContainsSeed | src/commands/Mosaic.java:180-186 | the scan reports true exactly when the list holds an equal coordinate pair |
| Mosaic.SeedsFrom | src/commands/Mosaic.java:157-168 | the rejection loop, continued from a partial list, keeps that list as a prefix, reaches k entries, and every seed it adds comes from the draws |
| Mosaic.DistinctCard | src/commands/Mosaic.java:163-166 | a list that never repeats a cell holds as many different cells as entries |
| Mosaic.GenerateSeedList | src/commands/Mosaic.java:153-171 | a generated list has exactly k pairwise distinct seeds, all inside the grid and all taken from the draws |
| Mosaic.SeedsFromSucceeds | src/commands/Mosaic.java:157-168 | the loop finishes whenever the in-grid draws, with the seeds already taken, offer at least k different cells |
| Mosaic.GenerateSucceeds | src/commands/Mosaic.java:153-171 | in-grid draws containing at least k different cells always give a seed list |
| Mosaic.ChooseFrom | src/commands/Mosaic.java:126-139 | the loop's choice is always an index of the seed list |
| Mosaic.ChooseFromSpec | src/commands/Mosaic.java:126-139 | continuing the scan with no seed yet below the threshold, or with the earliest nearest seed so far, ends on the earliest nearest seed when one lies under the threshold, and on seed 0 otherwise |
| Mosaic.MosaicIndex | src/commands/Mosaic.java:122-142 | the seed whose colour a pixel takes is an index of the seed list |
| Mosaic.MosaicChoice | src/commands/Mosaic.java:122-142 | when some seed lies strictly within max(h, w), the choice is a nearest seed, the earliest drawn among equally near ones; otherwise it is seed 0 |
| Mosaic.Dist2Zero | src/commands/Mosaic.java:129-132 | a seed is at distance 0 exactly when it is the pixel itself |
| Mosaic.MosaicSeedKeepsItself | src/commands/Mosaic.java:129-132 | a pixel that is a seed chooses that seed |
| Mosaic.NearestSeedIndex | src/commands/Mosaic.java:126-139 | the search without the initial threshold returns an index of the seed list |
| Mosaic.NearestSeedIsNearest | src/commands/Mosaic.java:133-138 | the search without the initial threshold always picks a nearest seed, the earliest drawn on ties |
| Mosaic.ThresholdKeepsFartherSeed | src/commands/Mosaic.java:123-124 | on a 10x10 image, with seeds (9,9) then (9,5), pixel (0,0) takes seed (9,9) although (9,5) is nearer |
| Mosaic.GridCellsCard | src/commands/Mosaic.java:90-93 | an h-by-w grid has exactly h*w cells, which is the upper bound on the seed count |
| Mosaic.SeedsFillGrid | src/commands/Mosaic.java:90-93 | h*w distinct seeds inside an h-by-w grid occupy every cell |
| Downscale.DownDim | src/commands/Downscale.java:70-71 | the output dimension is the truncation of n*pct/100, never more than n |
| Downscale.Ceil | src/commands/Downscale.java:107-114 | `Math.ceil`: the least integer at or above its argument |
| Downscale.AverageValue | src/commands/Downscale.java:136-145 | if either mapped coordinate is whole the channel is 0; otherwise, from corners in [0, 255], it lies in [0, 255] |
| Downscale.MapCoordInBounds | src/commands/Downscale.java:106-114 | the floor and ceiling of every mapped coordinate index inside the source |
| Downscale.MapCoordIsQuotient | src/commands/Downscale.java:81-82 | the mapped coordinate i/(pct/100) equals 100*i/pct exactly |
| Downscale.MapCoordIntegral | src/commands/Downscale.java:81-85 | the mapped coordinate i/(pct/100) is whole exactly when 100*i is divisible by pct, and it then equals 100*i/pct |
| Downscale.DownscaleImage | src/commands/Downscale.java:68-95 | it fails exactly when a percentage lies outside [1, 100]; otherwise the output is valid and has the truncated dimensions |
| Downscale.DownscaleValid | src/commands/Downscale.java:78-122 | every output pixel, copied or interpolated from a valid source, has channels in [0, 255] |
| Downscale.DownscaleCopiesWholePositions | src/commands/Downscale.java:81-85 | where both mapped coordinates are whole, the output pixel is that source pixel |
| Downscale.DownscaleBlueIsGreen | src/commands/Downscale.java:119-122 | in the interpolated branch the output blue equals the output green |
| Downscale.DownscaleOneWholeIsBlack | src/commands/Downscale.java:138-144 | when exactly one mapped coordinate is whole the output pixel is black |
| Downscale.DownscaleFullSize | test/commands/DownscaleCommandTest.java:123-139 | at 100% and 100% the output is the source |
| Downscale.DownscaleTruncates | test/commands/DownscaleCommandTest.java:69-121 | 67% of 3 rows is 2, 100% of 3 is 3, and 50% of 1 is 0 |
| Composition.ApplyAt | src/commands/AbstractTransformationCommand.java:49-59 | each operation's own pixel is valid when the source is valid |
| Composition.Compose | src/commands/AbstractTransformationCommand.java:42-64 | the output has the source's dimensions, is valid when the source is, holds the operation's pixel where the mask is black or absent, and holds the source pixel elsewhere |
| Composition.BlackMaskIsNoMask | src/commands/AbstractImageCommand.java:103-107 | an all-black mask gives the same image as no mask |
| Composition.ClearMaskIsIdentity | src/commands/AbstractImageCommand.java:103-107 | a mask with no black pixel returns the source unchanged |
| Composition.MaskedAgreesWithUnmasked | test/commands/MaskTest.java:240-263 | a masked run equals the unmasked run on black mask pixels and the source elsewhere |
| Composition.GreenGreyscaleIdempotent | src/commands/GreenGreyscale.java:35-37 | green greyscale, masked or not, applied twice equals applied once |
| Composition.GreyscaleImage | src/commands/AbstractTransformationCommand.java:107-132 | every selected pixel of a non-sepia kind is grey |
| Composition.IntensityImage | src/commands/IntensityGreyscale.java:37-39 | every selected pixel becomes (v, v, v) with v the integer mean of its source channels |
| Composition.BrightenZeroIsIdentity | src/commands/Brighten.java:59-79 | brightening a valid image by 0 returns it unchanged, under any mask |
| Composition.SharpenSinglePixelImage | src/commands/SharpenFilter.java:35-37 | sharpening a 1x1 image returns it unchanged |
| Composition.MosaicColoursFromSeeds | src/commands/Mosaic.java:122-142 | every selected mosaic pixel has the source colour of some seed |
| Composition.MosaicSeedPixel | test/commands/MosaicCommandTest.java:173-189 | a seed position keeps its own source colour |
| Composition.MosaicAllSeedsIsIdentity | test/commands/MosaicCommandTest.java:104-123 | with as many distinct seeds as pixels the mosaic returns the source |
| Composition.SeedColoursCard | test/commands/MosaicCommandTest.java:72-102 | distinct seeds on a source with pairwise different pixels have pairwise different colours |
| Composition.MosaicColourCount | test/commands/MosaicCommandTest.java:72-102 | on a source with pairwise different pixels, the unmasked mosaic has exactly k different colours |
| Flipping.FlipGrid | src/commands/AbstractFlipCommand.java:41-44 | the written grid has the source's dimensions |
| Flipping.Target | src/commands/AbstractFlipCommand.java:47-55 | each visit writes inside the grid: to the mirror position when selected, to its own position otherwise |
| Flipping.VisitStep | src/commands/AbstractFlipCommand.java:71-78 | a visit changes only the one position it writes |
| Flipping.FlipRow | src/commands/AbstractFlipCommand.java:46-57 | the column loop of one row advances the grid from before the row to after it |
| Flipping.Flip | src/commands/AbstractFlipCommand.java:40-60 | the row-major write loop produces the closed form: the later of a position's own unmasked visit and its mirror's masked visit wins, and a position nobody writes stays empty |
| Flipping.FlipUnmasked | src/commands/AbstractFlipCommand.java:71-78 | without a mask the pixel at a position is the source pixel at its mirror |
| Flipping.FlipMaskedBothClear | src/commands/AbstractFlipCommand.java:47-52 | where the mask is black neither at a position nor at its mirror, the source pixel stays |
| Flipping.FlipMaskedBothBlack | src/commands/AbstractFlipCommand.java:47-52 | where the mask is black at a position and its mirror, the mirror's source pixel arrives |
| Flipping.FlipMaskedNeverWritten | src/commands/AbstractFlipCommand.java:47-55 | a black position with a non-black mirror is never written |
| Flipping.FlipMaskedLaterWins | src/commands/AbstractFlipCommand.java:45-56 | a non-black position with a black mirror receives whichever write comes later in row-major order |
| Flipping.FlipImage | src/commands/AbstractFlipCommand.java:71-78 | the unmasked flip moves every source pixel to its mirror position, keeping the dimensions |
| Flipping.FlipGridIsFlipImage | src/commands/AbstractFlipCommand.java:45-56 | without a mask every position is written exactly with the flipped image's pixel |
| Flipping.FlipTwice | src/commands/AbstractFlipCommand.java:71-78 | flipping twice in the same direction restores the source |
| Flipping.VerticalFlipKeepsColumns | src/commands/AbstractFlipCommand.java:75-76 | a vertical flip keeps each pixel in its column and reverses the row order |
| Flipping.VerticalFlipMiddleRow | src/commands/AbstractFlipCommand.java:75-76 | with an odd height the middle row is unchanged |
| Flipping.FlipModel | src/commands/AbstractFlipCommand.java:59 | an image is produced exactly when every position was written; it has the source's dimensions and holds what was written |
| Flipping.FlipModelWellFormed | src/commands/AbstractFlipCommand.java:40-60 | a flip of a valid image is valid |
| Flipping.FlipModelUnmasked | src/commands/VerticalFlip.java:35-37 | without a mask the flip always produces the flipped image |
| Commands.NewModel | src/commands/AbstractImageCommand.java:86-93 | results are valid and keep the source size except for downscale; an IllegalArgumentException happens exactly when a parameter does not parse or is out of range; an index error happens exactly when the parameters pass but the mask is too small, and never for downscale; a downscale is undetermined exactly when its accepted percentages truncate a dimension to 0, so a downscaled image always has rows and columns |
| Commands.Edit | src/commands/AbstractImageCommand.java:44-84 | only a completed edit changes the registry, by storing under the target name and nothing else; every failure leaves it as it was; "not loaded" happens exactly when, with three tokens, the source or the mask is missing, or when, with two or more other than three, the source is missing and the tokens parse; one token is always ignored |
| Commands.MissingSource | src/commands/AbstractImageCommand.java:63-76 | with a missing source, the command raises exactly when its tokens do not parse, and "not loaded" follows otherwise; the registry is unchanged |
| Commands.EditStoresUnmasked | src/commands/AbstractImageCommand.java:63-65 | without a mask the new image is stored under the second token |
| Commands.EditStoresMasked | src/commands/AbstractImageCommand.java:53-62 | with a mask the new image is stored under the third token |
| Commands.EditRejectsMaskSize | src/commands/AbstractImageCommand.java:55-59 | a mask differing in both height and width is refused with a message and nothing changes |
| Commands.EditNarrowMaskIgnored | src/commands/AbstractImageCommand.java:70-72 | a mask as tall as the source but narrower passes the size check, and the index error that follows is swallowed with nothing stored |
| Commands.EditWithoutTargetIgnored | src/commands/AbstractImageCommand.java:63-65 | a single token names no result, so nothing is stored and nothing is reported, whether or not the source is loaded |
| Commands.EditBadConstantRaises | src/commands/AbstractImageCommand.java:68-69 | without a mask, a non-integer brighten constant raises an IllegalArgumentException and leaves the registry as it was, even when the source is missing |
| Commands.MosaicSeedCountRejected | test/commands/MosaicCommandTest.java:53-70 | a seed count below 1 or above h*w raises an IllegalArgumentException |
| Commands.MosaicSucceeds | src/commands/Mosaic.java:87-112 | a valid seed count with enough distinct in-grid draws and a usable mask always gives an image |
| Commands.DownscaleRangeRejected | test/commands/DownscaleCommandTest.java:51-67 | a percentage outside [1, 100] raises an IllegalArgumentException |
| Commands.DownscaleIgnoresMask | src/commands/Downscale.java:46-56 | the downscale result does not depend on the mask |
| Commands.DownscaleFullIsCopy | test/commands/DownscaleCommandTest.java:123-139 | downscaling an image with rows and columns by "100" and "100" stores the source unchanged |
| Commands.DownscaleToNothing | src/commands/Downscale.java:70-71 | 50% of a single row truncates to 0 rows, and the command reports an undetermined result instead of an image |
| Commands.VerticalFlipTwice | src/commands/VerticalFlip.java:35-37 | vertical flip applied to its own result gives back the source |
| Commands.BrightenZeroCommand | src/commands/Brighten.java:41-48 | brighten "0" returns the source unchanged under any usable mask |
| Histogram.BucketOf | src/view/HistogramPanel.java:169-190 | only "red", "green", "blue" and "intensity" count a pixel, and a valid pixel's bucket lies in 0..255 |
| Histogram.AddRow | src/view/HistogramPanel.java:168-192 | one row adds, to each bucket, the number of that row's pixels that fall in it |
| Histogram.GetYCoords | src/view/HistogramPanel.java:159-195 | there are 256 buckets; bucket v counts the pixels whose value is v; for a known type the buckets sum to h*w, and for an unknown type all are 0 |
| Histogram.IntensityBucketInRange | src/view/HistogramPanel.java:182-187 | the intensity bucket (r+g+b)/3 of a valid pixel lies in 0..255 |
| Histogram.GetMaxY | src/view/HistogramPanel.java:203-211 | the result is at least every bucket, and it is a bucket or 0 |
| Preview.NewMask | src/view/ImageModelViewImplExtra.java:272-283 | the mask is h by w; a pixel is black exactly when row < i < row+200 and col < j < col+200, and white otherwise |
| Preview.StoreNewMask | src/view/ImageModelViewImplExtra.java:283-285 | the mask is stored under "newMask", replacing any earlier one, and no other entry changes |
| Preview.BlackSpanBounded | src/view/ImageModelViewImplExtra.java:276 | black pixels span at most 199 rows and 199 columns |
| Preview.BlackSpanAttained | src/view/ImageModelViewImplExtra.java:276 | when the square fits in the image, both inner corners, 198 rows and columns apart, are black |
| Preview.UpdateParameters | src/view/ImageModelViewImplExtra.java:322-351 | with constants 0, 1 or 2, the appended list is the first `constants` tokens, the model name, the mask name unless it is "none", then the next token; too few tokens raise and append nothing; other constants append nothing |
| Preview.MaskNameInserted | src/view/ImageModelViewImplExtra.java:326-345 | showing a mask only inserts its name right after the model name |

## Left out

- Swing GUI, painting and scrolling: the rest of `src/view/`, `drawHistogram`,
  `drawLine` and `displayPreview`. They are presentation, not pixel logic.
- Program start-up and command registration (`src/ImageProgram.java`,
  `src/ImageProgramExtra.java`, `src/controller/ImageControllerImplExtra.java`).
  They read files and wire factories.
- Text I/O in `edit`: Scanner line reading, the leading-character strip and the
  `split(" ")`, the exact message texts and the IOException mapping. `Edit`
  takes the split tokens, and its outcome names which message or exception occurs.
- Preview.UpdateParameters: it takes tokens already split. The
  `split("\\s+")` of the typed text (`src/view/ImageModelViewImplExtra.java:323`)
  is not modelled. That split gives an empty first token for text with leading
  whitespace, and one empty token for empty text. So with the real split,
  `constants == 0` never raises.
- The command constructors' rejection of null arguments
  (`src/commands/AbstractImageCommand.java:27-29`). A Dafny value cannot be null.
- The registry, pixel and image classes (`ImageModelMapImpl`, `Pixel`,
  `ImageModelImpl`) are not part of this model. These assumptions stand in for them:
  - lookup of a missing name returns null, as `HashMap.get` does for the map the
    registry is built on (`src/ImageProgram.java:25`); the first use of the
    result raises the NullPointerException that `edit` reports as "not loaded";
  - `add` overwrites;
  - channels lie in [0, 255];
  - `getPixelAt(row, col)` indexes a row-major array, so a position outside
    the mask raises an index error.
- What the image constructor does with a grid where a masked flip wrote
  nothing. `NewModel` reports `Undetermined(EmptyCells)` there.
- Downscale.DownscaleImage: it builds the pixel grid even when a dimension
  truncates to 0, for example 50% of one row. What the image constructor does
  with a grid of no rows or no columns is not part of this model, so `NewModel`
  reports `Undetermined(ZeroDimension)` there instead of an image. For the
  same reason, `Commands.DownscaleFullIsCopy` is stated only for an image with
  rows and columns.
- `java.util.Random`: mosaic draws are an input sequence. When the draws run
  out, or leave the grid, before k distinct seeds are found, the result is
  `Undetermined(DrawsExhausted)`. The program's loop would keep drawing instead.
  Given the same draws, the model returns the same seeds and image, because it
  is a function.
- Floating point. Matrix products, downscale coordinates and weights are exact
  reals. Java doubles can differ at integer boundaries, for example `100*0.29`
  truncates to 28. The mosaic compares squared integer distances with max(h, w)
  squared instead of `Math.sqrt` distances with max(h, w).
- `Integer.parseInt` is modelled for ASCII digits with an optional sign. Other
  Unicode decimal digits, which Java also accepts, are not.
- Commands.NewModel: brighten uses the capped addition of `Brightening.BrightenChannel`
  on unbounded integers. The program adds in 32-bit `int`
  (`src/commands/Brighten.java:94-103`), so for a constant where v + c
  overflows, such as 2147483647, the program's result is not a valid pixel,
  while the model's result is. That defect is the Findings row below.
- Commands.NewModel: `h * w` in the mosaic seed-count check is an unbounded
  integer, and so are the histogram counts. The 32-bit overflow of these products for
  images above 2^31 pixels is not modelled.
- The default branches of the transformation and filter switches (an unknown
  enum value) are left out, because every enum value is handled.

## Findings

| source | as written | input that shows it | evidently intended | confidence | as-written member | corrected member |
|---|---|---|---|---|---|---|
| src/commands/Brighten.java:94-98 | the channel plus the constant is computed in 32-bit `int` before the cap at 255 | constant 2147483647 (accepted by `parseInt`) on a channel of 1 wraps to -2147483648, which is not capped | the channel is capped at 255 | high, not executed | Brightening.BrightenInt32Overflows | Brightening.BrightenIsClampedShift |
