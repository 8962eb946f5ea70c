/**
 * The two pure helpers of the preview window: the mask that exposes a
 * square window of the image, and the splicing of the typed parameters with
 * the displayed image and mask names.
 */
module Preview {
  import opened Images

  /** The side of the preview square, borders included. */
  const Side := 200

  /** The name the preview mask is stored under. */
  const MaskName := "newMask"

  /** Strictly inside the square whose corner is (row, col). */
  predicate InWindowInterior(row: int, col: int, i: int, j: int) {
    row < i < row + Side && col < j < col + Side
  }

  /** `createNewMask`: black strictly inside the square at (row, col), white everywhere else. */
  function NewMask(h: nat, w: nat, row: int, col: int): (m: Image)
    ensures WellFormed(m) && m.height == h && m.width == w
    ensures forall i, j :: InBounds(m, i, j) ==> (FitsMask(m, i, j) <==> InWindowInterior(row, col, i, j))
    ensures forall i, j :: InBounds(m, i, j) && !InWindowInterior(row, col, i, j) ==> m.px[i][j] == White
  {
    Image(h, w,
      seq(h, i requires 0 <= i < h =>
        seq(w, j requires 0 <= j < w => if InWindowInterior(row, col, i, j) then Black else White)))
  }

  /** `createNewMask` stores the mask under "newMask", replacing any earlier one. */
  function StoreNewMask(reg: map<string, Image>, h: nat, w: nat, row: int, col: int): (r: map<string, Image>)
    ensures r.Keys == reg.Keys + {MaskName}
    ensures r[MaskName] == NewMask(h, w, row, col)
    ensures forall name :: name in reg && name != MaskName ==> r[name] == reg[name]
  {
    reg[MaskName := NewMask(h, w, row, col)]
  }

  /**
   * The black part never spans more than 199 rows or 199 columns: the square's
   * border rows and columns are white.
   */
  lemma BlackSpanBounded(h: nat, w: nat, row: int, col: int, i1: int, j1: int, i2: int, j2: int)
    requires var m := NewMask(h, w, row, col);
      InBounds(m, i1, j1) && InBounds(m, i2, j2) && FitsMask(m, i1, j1) && FitsMask(m, i2, j2)
    ensures -(Side - 1) < i1 - i2 < Side - 1 && -(Side - 1) < j1 - j2 < Side - 1
  {
  }

  /** When the square fits inside the image, its opposite inner corners are black. */
  lemma BlackSpanAttained(h: nat, w: nat, row: int, col: int)
    requires -1 <= row && row + Side - 1 < h && -1 <= col && col + Side - 1 < w
    ensures var m := NewMask(h, w, row, col);
      FitsMask(m, row + 1, col + 1) && FitsMask(m, row + Side - 1, col + Side - 1)
  {
  }

  /** The result of `updateParameters`: the list, and whether it raised before adding anything. */
  datatype Update = Update(list: seq<string>, raised: bool)

  /** The leading typed tokens that come before the model name for `constants`. */
  predicate SplicedCount(constants: int) {
    constants == 0 || constants == 1 || constants == 2
  }

  /**
   * `updateParameters`: the typed tokens (already split on whitespace) are
   * spliced with the displayed model name and, when one is shown, the mask name.
   */
  function UpdateParameters(list: seq<string>, tokens: seq<string>, model: string, mask: string, constants: int): (u: Update)
    ensures u.raised <==> SplicedCount(constants) && |tokens| <= constants
    ensures u.raised || !SplicedCount(constants) ==> u.list == list
    ensures !u.raised && SplicedCount(constants) ==>
      u.list == list + tokens[..constants] + [model] + (if mask != "none" then [mask] else []) + [tokens[constants]]
  {
    if !SplicedCount(constants) then Update(list, false)
    else if |tokens| <= constants then Update(list, true)
    else if mask != "none" then
      if constants == 2 then Update(list + [tokens[0], tokens[1], model, mask, tokens[2]], false)
      else if constants == 1 then Update(list + [tokens[0], model, mask, tokens[1]], false)
      else Update(list + [model, mask, tokens[0]], false)
    else
      if constants == 2 then Update(list + [tokens[0], tokens[1], model, tokens[2]], false)
      else if constants == 1 then Update(list + [tokens[0], model, tokens[1]], false)
      else Update(list + [model, tokens[0]], false)
  }

  /** Showing a mask inserts its name right after the model name and changes nothing else. */
  lemma MaskNameInserted(list: seq<string>, tokens: seq<string>, model: string, mask: string, constants: int)
    requires mask != "none" && SplicedCount(constants) && |tokens| > constants
    ensures var with := UpdateParameters(list, tokens, model, mask, constants).list;
      var without := UpdateParameters(list, tokens, model, "none", constants).list;
      var at := |list| + constants + 1;
      |with| == |without| + 1 && with[..at] == without[..at] && with[at] == mask && with[at + 1..] == without[at..]
  {
  }
}
