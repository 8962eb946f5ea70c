/**
 * The commands and the registry step they share. Each command builds a new
 * image from a source and an optional mask (`newModel`); `edit` looks the
 * images up by name, checks the mask size and stores the result under a new
 * name, turning each failure into a message, a propagated exception or
 * nothing at all.
 */
module Commands {
  import opened Wrappers
  import opened Images
  import opened Parsing
  import opened Transformation
  import opened Filtering
  import opened Flipping
  import opened Brightening
  import opened Mosaic
  import opened Downscale
  import opened Composition

  /** The commands, with their parameter tokens as typed. */
  datatype Command =
    | TransformCmd(kind: Kind)
    | FilterCmd(filter: FilterKind)
    | FlipCmd(direction: Direction)
    | BrightenCmd(constant: string)
    | MosaicCmd(seedCount: string, draws: seq<Cell>)
    | DownscaleCmd(heightPct: string, widthPct: string)

  const GreenGreyscale := TransformCmd(GreenComponent)
  const IntensityGreyscale := TransformCmd(Intensity)
  const SharpenFilter := FilterCmd(Sharpen)
  const VerticalFlip := FlipCmd(Vertical)

  /** Why a command rejected its parameters (an `IllegalArgumentException`). */
  datatype ArgumentProblem = NotAnInteger | SeedCountOutOfRange | PercentageOutOfRange

  /** What this model cannot settle. */
  datatype Unknown =
    | EmptyCells      // a masked flip left a position unwritten
    | DrawsExhausted  // the draws ran out, or left the grid, before enough distinct seeds
    | ZeroDimension   // a downscale left no rows or no columns

  datatype CommandError =
    | IllegalArgument(problem: ArgumentProblem)
    | IndexOutOfBounds  // the mask is smaller than the source in some direction
    | Undetermined(why: Unknown)

  predicate MaskOk(src: Image, mask: Option<Image>) {
    mask.None? || Covers(mask.value, src)
  }

  /** The seed count a mosaic accepts: between 1 and the pixel count. */
  predicate ValidSeedCount(k: int, src: Image) {
    1 <= k <= src.height * src.width
  }

  /** The parameter tokens parse as integers and lie in the ranges the command accepts. */
  predicate ParametersAccepted(cmd: Command, src: Image) {
    match cmd
    case BrightenCmd(t) => ParseInt(t).Some?
    case MosaicCmd(t, _) => ParseInt(t).Some? && ValidSeedCount(ParseInt(t).value, src)
    case DownscaleCmd(th, tw) =>
      ParseInt(th).Some? && ParseInt(tw).Some? &&
      ValidPercentage(ParseInt(th).value) && ValidPercentage(ParseInt(tw).value)
    case _ => true
  }

  /**
   * The parameter tokens parse as integers. Every command parses its tokens
   * before it first touches the source image.
   */
  predicate ParametersParse(cmd: Command) {
    match cmd
    case BrightenCmd(t) => ParseInt(t).Some?
    case MosaicCmd(t, _) => ParseInt(t).Some?
    case DownscaleCmd(th, tw) => ParseInt(th).Some? && ParseInt(tw).Some?
    case _ => true
  }

  /** An accepted downscale whose truncated height or width is 0. */
  predicate DownscalesToNothing(cmd: Command, src: Image)
    requires ParametersAccepted(cmd, src)
  {
    cmd.DownscaleCmd? &&
    (DownDim(src.height, ParseInt(cmd.heightPct).value) == 0 || DownDim(src.width, ParseInt(cmd.widthPct).value) == 0)
  }

  /** A mosaic's draws yield the requested number of distinct seeds. */
  predicate SeedsDrawn(cmd: Command, src: Image)
    requires ParametersAccepted(cmd, src)
  {
    cmd.MosaicCmd? ==> GenerateSeedList(src.height, src.width, ParseInt(cmd.seedCount).value, cmd.draws).Some?
  }

  /**
   * `newModel` of every command. Parameters are checked first, in the order
   * the program checks them; the mask is consulted only while pixels are built.
   */
  function NewModel(cmd: Command, src: Image, mask: Option<Image>): (r: Result<Image, CommandError>)
    requires WellFormed(src) && (mask.Some? ==> Shaped(mask.value))
    ensures r.Success? ==> WellFormed(r.value)
    ensures r.Success? && !cmd.DownscaleCmd? ==> r.value.height == src.height && r.value.width == src.width
    ensures (r.Failure? && r.error.IllegalArgument?) <==> !ParametersAccepted(cmd, src)
    ensures r == Failure(IndexOutOfBounds) <==>
      !cmd.DownscaleCmd? && ParametersAccepted(cmd, src) && SeedsDrawn(cmd, src) && !MaskOk(src, mask)
    ensures r == Failure(Undetermined(ZeroDimension)) <==> ParametersAccepted(cmd, src) && DownscalesToNothing(cmd, src)
    ensures r.Success? && cmd.DownscaleCmd? ==> r.value.height > 0 && r.value.width > 0
  {
    match cmd
    case TransformCmd(k) =>
      if !MaskOk(src, mask) then Failure(IndexOutOfBounds) else Success(Compose(TransformOp(k), src, mask))
    case FilterCmd(f) =>
      if !MaskOk(src, mask) then Failure(IndexOutOfBounds) else Success(Compose(FilterOp(f), src, mask))
    case FlipCmd(dir) =>
      if !MaskOk(src, mask) then Failure(IndexOutOfBounds)
      else
        var out := FlipModel(src, mask, dir);
        if out.None? then Failure(Undetermined(EmptyCells))
        else
          FlipModelWellFormed(src, mask, dir);
          Success(out.value)
    case BrightenCmd(t) =>
      var c := ParseInt(t);
      if c.None? then Failure(IllegalArgument(NotAnInteger))
      else if !MaskOk(src, mask) then Failure(IndexOutOfBounds)
      else Success(Compose(BrightenOp(c.value), src, mask))
    case MosaicCmd(t, draws) =>
      var k := ParseInt(t);
      if k.None? then Failure(IllegalArgument(NotAnInteger))
      else if !ValidSeedCount(k.value, src) then Failure(IllegalArgument(SeedCountOutOfRange))
      else
        var seeds := GenerateSeedList(src.height, src.width, k.value, draws);
        if seeds.None? then Failure(Undetermined(DrawsExhausted))
        else if !MaskOk(src, mask) then Failure(IndexOutOfBounds)
        else Success(Compose(MosaicOp(seeds.value), src, mask))
    case DownscaleCmd(th, tw) =>
      var hp := ParseInt(th);
      var wp := ParseInt(tw);
      if hp.None? || wp.None? then Failure(IllegalArgument(NotAnInteger))
      else
        match DownscaleImage(src, hp.value, wp.value)
        case Success(out) =>
          if out.height == 0 || out.width == 0 then Failure(Undetermined(ZeroDimension)) else Success(out)
        case Failure(_) => Failure(IllegalArgument(ArgumentProblem.PercentageOutOfRange))
  }

  /** The registry: image names to images. */
  type Registry = map<string, Image>

  predicate RegistryOk(reg: Registry) {
    forall name :: name in reg ==> WellFormed(reg[name])
  }

  /** What `edit` reports besides the registry it leaves behind. */
  datatype Outcome =
    | Completed                               // "Edit completed."
    | NotLoaded                               // a missing image was dereferenced
    | MaskSizeRejected                        // the mask differs in both height and width
    | Ignored                                 // an index error was swallowed; nothing is written
    | Raises(problem: ArgumentProblem)        // the command's IllegalArgumentException propagates
    | RaisesIndexOutOfBounds                  // the parameter line is empty; the index error escapes
    | Unresolved(why: Unknown)

  datatype EditResult = EditResult(registry: Registry, outcome: Outcome)

  /** The name the result is stored under: the third token with a mask, the second without. */
  function TargetName(params: seq<string>): string
    requires |params| >= 2
  {
    if |params| == 3 then params[2] else params[1]
  }

  /** The mask size check: rejected only when the height AND the width differ. */
  predicate SizeRejected(mask: Image, src: Image) {
    mask.height != src.height && mask.width != src.width
  }

  /**
   * `newModel` handed a missing source: the registry lookup gave nothing, and
   * the first use of the source fails, which `edit` reports as "not loaded".
   * Tokens are parsed before that first use, so a token that does not parse
   * still raises.
   */
  function MissingSource(reg: Registry, cmd: Command): (res: EditResult)
    ensures res.registry == reg
    ensures res.outcome == NotLoaded <==> ParametersParse(cmd)
    ensures res.outcome != NotLoaded ==> res.outcome == Raises(NotAnInteger)
  {
    if ParametersParse(cmd) then EditResult(reg, NotLoaded) else EditResult(reg, Raises(NotAnInteger))
  }

  /** The registry change after `newModel` ran, under the name `target`. */
  function Store(reg: Registry, target: string, r: Result<Image, CommandError>): EditResult {
    match r
    case Success(img) => EditResult(reg[target := img], Completed)
    case Failure(IllegalArgument(a)) => EditResult(reg, Raises(a))
    case Failure(IndexOutOfBounds) => EditResult(reg, Ignored)
    case Failure(Undetermined(u)) => EditResult(reg, Unresolved(u))
  }

  /** `edit`, on the split parameter tokens. */
  function Edit(reg: Registry, cmd: Command, params: seq<string>): (res: EditResult)
    requires RegistryOk(reg)
    ensures RegistryOk(res.registry)
    ensures res.outcome != Completed ==> res.registry == reg
    ensures res.outcome == Completed ==>
      |params| >= 2 && res.registry.Keys == reg.Keys + {TargetName(params)} &&
      forall name :: name in reg && name != TargetName(params) ==> res.registry[name] == reg[name]
    ensures res.outcome == NotLoaded <==>
      || (|params| == 3 && (params[0] !in reg || params[1] !in reg))
      || (|params| >= 2 && |params| != 3 && params[0] !in reg && ParametersParse(cmd))
    ensures |params| == 1 ==> res == EditResult(reg, Ignored)
  {
    if |params| == 0 then EditResult(reg, RaisesIndexOutOfBounds)
    else if |params| == 3 then
      // The size check reads both images' dimensions before anything else.
      if params[0] !in reg || params[1] !in reg then EditResult(reg, NotLoaded)
      else
        var src, mask := reg[params[0]], reg[params[1]];
        if SizeRejected(mask, src) then EditResult(reg, MaskSizeRejected)
        else Store(reg, params[2], NewModel(cmd, src, Some(mask)))
    // Reading the missing second token fails before `newModel` runs.
    else if |params| < 2 then EditResult(reg, Ignored)
    else if params[0] !in reg then MissingSource(reg, cmd)
    else Store(reg, params[1], NewModel(cmd, reg[params[0]], None))
  }

  /** Without a mask, a successful command is stored under the second token. */
  lemma EditStoresUnmasked(reg: Registry, cmd: Command, params: seq<string>)
    requires RegistryOk(reg) && |params| >= 2 && |params| != 3 && params[0] in reg
    requires NewModel(cmd, reg[params[0]], None).Success?
    ensures var res := Edit(reg, cmd, params);
      res.outcome == Completed && res.registry == reg[params[1] := NewModel(cmd, reg[params[0]], None).value]
  {
  }

  /** With a mask of an accepted size, a successful command is stored under the third token. */
  lemma EditStoresMasked(reg: Registry, cmd: Command, params: seq<string>)
    requires RegistryOk(reg) && |params| == 3 && params[0] in reg && params[1] in reg
    requires !SizeRejected(reg[params[1]], reg[params[0]])
    requires NewModel(cmd, reg[params[0]], Some(reg[params[1]])).Success?
    ensures var res := Edit(reg, cmd, params);
      res.outcome == Completed &&
      res.registry == reg[params[2] := NewModel(cmd, reg[params[0]], Some(reg[params[1]])).value]
  {
  }

  /** A mask differing in both dimensions is refused with a message and nothing changes. */
  lemma EditRejectsMaskSize(reg: Registry, cmd: Command, params: seq<string>)
    requires RegistryOk(reg) && |params| == 3 && params[0] in reg && params[1] in reg
    requires SizeRejected(reg[params[1]], reg[params[0]])
    ensures Edit(reg, cmd, params) == EditResult(reg, MaskSizeRejected)
  {
  }

  /**
   * A mask with the source's height but fewer columns passes the size check;
   * the pixel loop then reads outside the mask, and the index error is swallowed.
   */
  lemma EditNarrowMaskIgnored(reg: Registry, k: Kind, params: seq<string>)
    requires RegistryOk(reg) && |params| == 3 && params[0] in reg && params[1] in reg
    requires var src, mask := reg[params[0]], reg[params[1]];
      mask.height == src.height && mask.width < src.width && src.height > 0
    ensures Edit(reg, TransformCmd(k), params) == EditResult(reg, Ignored)
  {
  }

  /** One token names no result: nothing is stored and nothing is reported, loaded or not. */
  lemma EditWithoutTargetIgnored(reg: Registry, cmd: Command, name: string)
    requires RegistryOk(reg)
    ensures Edit(reg, cmd, [name]) == EditResult(reg, Ignored)
  {
  }

  /**
   * Without a mask, a constant that is not an integer raises and leaves the
   * registry as it was, whether or not the source is loaded: the constant is
   * parsed before the source is first used.
   */
  lemma EditBadConstantRaises(reg: Registry, t: string, params: seq<string>)
    requires RegistryOk(reg) && |params| == 2 && ParseInt(t).None?
    ensures Edit(reg, BrightenCmd(t), params) == EditResult(reg, Raises(NotAnInteger))
  {
  }

  /**
   * A downscale of an accepted percentage that truncates a dimension to 0
   * (50% of a single row) has no image to report.
   */
  lemma DownscaleToNothing(src: Image, mask: Option<Image>)
    requires WellFormed(src) && (mask.Some? ==> Shaped(mask.value)) && src.height == 1
    ensures NewModel(DownscaleCmd("50", "100"), src, mask) == Failure(Undetermined(ZeroDimension))
  {
    ParseShowRoundTrip(50);
    ParseShowRoundTrip(100);
    assert ShowInt(50) == "50" && ShowInt(100) == "100";
  }

  /** A seed count outside 1 .. h*w raises before any seed is drawn. */
  lemma MosaicSeedCountRejected(src: Image, mask: Option<Image>, k: int, draws: seq<Cell>)
    requires WellFormed(src) && (mask.Some? ==> Shaped(mask.value))
    requires IsInt32(k) && (k < 1 || k > src.height * src.width)
    ensures NewModel(MosaicCmd(ShowInt(k), draws), src, mask) == Failure(IllegalArgument(SeedCountOutOfRange))
  {
    ParseShowRoundTrip(k);
  }

  /** With enough distinct in-grid draws and a usable mask, a mosaic always succeeds. */
  lemma MosaicSucceeds(src: Image, mask: Option<Image>, k: int, draws: seq<Cell>)
    requires WellFormed(src) && (mask.Some? ==> Shaped(mask.value)) && MaskOk(src, mask)
    requires IsInt32(k) && ValidSeedCount(k, src)
    requires AllIn(draws, src.height, src.width) && |set d | d in draws| >= k
    ensures NewModel(MosaicCmd(ShowInt(k), draws), src, mask).Success?
  {
    ParseShowRoundTrip(k);
    GenerateSucceeds(src.height, src.width, k, draws);
  }

  /** A percentage outside 1 .. 100 raises. */
  lemma DownscaleRangeRejected(src: Image, mask: Option<Image>, hp: int, wp: int)
    requires WellFormed(src) && (mask.Some? ==> Shaped(mask.value))
    requires IsInt32(hp) && IsInt32(wp) && (!ValidPercentage(hp) || !ValidPercentage(wp))
    ensures NewModel(DownscaleCmd(ShowInt(hp), ShowInt(wp)), src, mask) ==
              Failure(IllegalArgument(ArgumentProblem.PercentageOutOfRange))
  {
    ParseShowRoundTrip(hp);
    ParseShowRoundTrip(wp);
  }

  /** Downscale never looks at the mask, whatever its size. */
  lemma DownscaleIgnoresMask(src: Image, mask: Image, th: string, tw: string)
    requires WellFormed(src) && Shaped(mask)
    ensures NewModel(DownscaleCmd(th, tw), src, Some(mask)) == NewModel(DownscaleCmd(th, tw), src, None)
  {
  }

  /** Downscaling to 100% of both dimensions stores the source unchanged. */
  lemma DownscaleFullIsCopy(src: Image, mask: Option<Image>)
    requires WellFormed(src) && (mask.Some? ==> Shaped(mask.value)) && src.height > 0 && src.width > 0
    ensures NewModel(DownscaleCmd("100", "100"), src, mask) == Success(src)
  {
    ParseShowRoundTrip(100);
    assert ShowInt(100) == "100";
    DownscaleFullSize(src);
  }

  /** An unmasked vertical flip applied to its own result gives back the source. */
  lemma VerticalFlipTwice(src: Image)
    requires WellFormed(src)
    ensures NewModel(VerticalFlip, src, None).Success? &&
            NewModel(VerticalFlip, NewModel(VerticalFlip, src, None).value, None) == Success(src)
  {
    FlipModelUnmasked(src, Vertical);
    var once := FlipImage(src, Vertical);
    FlipModelUnmasked(once, Vertical);
    FlipTwice(src, Vertical);
  }

  /** Brightening by "0" stores the source unchanged, under any usable mask. */
  lemma BrightenZeroCommand(src: Image, mask: Option<Image>)
    requires WellFormed(src) && (mask.Some? ==> Shaped(mask.value)) && MaskOk(src, mask)
    ensures NewModel(BrightenCmd("0"), src, mask) == Success(src)
  {
    ParseShowRoundTrip(0);
    assert ShowInt(0) == "0";
    BrightenZeroIsIdentity(src, mask);
  }
}
