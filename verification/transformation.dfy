/**
 * The colour-matrix transform: each pixel's channel triple is multiplied by a
 * fixed 3x3 matrix per transformation kind, truncated toward zero and clamped.
 * Max-value greyscale is signalled by the sentinel -1 in the matrix's top-left
 * entry and handled by its own branch. Fractions are exact reals here.
 */
module Transformation {
  import opened Images

  datatype Kind = RedComponent | GreenComponent | BlueComponent | MaxValue | Luma | Intensity | Sepia

  /** The nine matrix entries of each kind, row by row, as the program lists them. */
  function Entries(k: Kind): (v: seq<real>)
    ensures |v| == 9
  {
    match k
    case RedComponent => [1.0, 0.0, 0.0, 1.0, 0.0, 0.0, 1.0, 0.0, 0.0]
    case GreenComponent => [0.0, 1.0, 0.0, 0.0, 1.0, 0.0, 0.0, 1.0, 0.0]
    case BlueComponent => [0.0, 0.0, 1.0, 0.0, 0.0, 1.0, 0.0, 0.0, 1.0]
    case MaxValue => [-1.0, 0.0, 0.0, 0.0, 0.0, 0.0, 0.0, 0.0, 0.0]
    case Luma => [0.2126, 0.7152, 0.0722, 0.2126, 0.7152, 0.0722, 0.2126, 0.7152, 0.0722]
    case Intensity =>
      var t := 1.0 / 3.0;
      [t, t, t, t, t, t, t, t, t]
    case Sepia => [0.393, 0.769, 0.189, 0.349, 0.686, 0.168, 0.272, 0.534, 0.131]
  }

  predicate IsMatrix(m: seq<seq<real>>) {
    |m| == 3 && forall i :: 0 <= i < 3 ==> |m[i]| == 3
  }

  /** A nine-element list read as a 3x3 matrix in row-major order. */
  function RowMajor(values: seq<real>): (m: seq<seq<real>>)
    requires |values| == 9
    ensures IsMatrix(m)
  {
    [values[0..3], values[3..6], values[6..9]]
  }

  /**
   * `createMatrix`: fills the matrix cell by cell while consuming the list
   * from its front, exactly as the program's nested loops do.
   */
  method CreateMatrix(values: seq<real>) returns (m: seq<seq<real>>)
    requires |values| == 9
    ensures IsMatrix(m)
    ensures forall i, j :: 0 <= i < 3 && 0 <= j < 3 ==> m[i][j] == values[3 * i + j]
    ensures m == RowMajor(values)
  {
    var rest := values;
    m := [];
    for i := 0 to 3
      invariant |m| == i
      invariant rest == values[3 * i..]
      invariant forall i' :: 0 <= i' < i ==> |m[i']| == 3
      invariant forall i', j :: 0 <= i' < i && 0 <= j < 3 ==> m[i'][j] == values[3 * i' + j]
    {
      var row := [];
      for j := 0 to 3
        invariant |row| == j
        invariant rest == values[3 * i + j..]
        invariant forall j' :: 0 <= j' < j ==> row[j'] == values[3 * i + j']
      {
        row := row + [rest[0]];
        rest := rest[1..];
      }
      m := m + [row];
    }
    assert m[0] == values[0..3] && m[1] == values[3..6] && m[2] == values[6..9];
  }

  /** The matrix `transformationMatrix(type)` builds. */
  function KindMatrix(k: Kind): (m: seq<seq<real>>)
    ensures IsMatrix(m)
  {
    RowMajor(Entries(k))
  }

  function Dot(row: seq<real>, p: Pixel): real
    requires |row| == 3
  {
    p.red as real * row[0] + p.green as real * row[1] + p.blue as real * row[2]
  }

  function Max3(a: int, b: int, c: int): (m: int)
    ensures m >= a && m >= b && m >= c
    ensures m == a || m == b || m == c
  {
    if a >= b && a >= c then a else if b >= c then b else c
  }

  /** `transformPixel`: the max-value branch or the truncated, clamped matrix product. */
  function TransformPixel(p: Pixel, m: seq<seq<real>>): Pixel
    requires IsMatrix(m)
  {
    if m[0][0] == -1.0 then
      var v := Max3(p.red, p.green, p.blue);
      Pixel(v, v, v)
    else
      Pixel(Clamp(Trunc(Dot(m[0], p))), Clamp(Trunc(Dot(m[1], p))), Clamp(Trunc(Dot(m[2], p))))
  }

  /** One pixel transformed by one kind; a valid pixel stays valid. */
  function TransformKind(p: Pixel, k: Kind): (r: Pixel)
    ensures ValidPixel(p) ==> ValidPixel(r)
  {
    TransformPixel(p, KindMatrix(k))
  }

  /** The -1 sentinel selects the max-value branch, and no linear kind carries it. */
  lemma SentinelOnlyForMaxValue(k: Kind)
    ensures KindMatrix(k)[0][0] == -1.0 <==> k == MaxValue
  {
  }

  /** Kinds whose three matrix rows coincide, so the output is grey. */
  predicate Greyscale(k: Kind) {
    k != Sepia
  }

  lemma GreyscaleKindsGiveGrey(p: Pixel, k: Kind)
    requires Greyscale(k)
    ensures TransformKind(p, k).red == TransformKind(p, k).green == TransformKind(p, k).blue
  {
    if k != MaxValue {
      var m := KindMatrix(k);
      assert m[0] == m[1] == m[2];
    }
  }

  /** A channel read through a unit weight comes back unchanged. */
  lemma UnitRow(p: Pixel, row: seq<real>, v: int)
    requires |row| == 3 && ValidChannel(v)
    requires Dot(row, p) == v as real
    ensures Clamp(Trunc(Dot(row, p))) == v
  {
  }

  /** Red-, green- and blue-component greyscale copy one source channel into all three. */
  lemma ComponentKinds(p: Pixel)
    requires ValidPixel(p)
    ensures TransformKind(p, RedComponent) == Pixel(p.red, p.red, p.red)
    ensures TransformKind(p, GreenComponent) == Pixel(p.green, p.green, p.green)
    ensures TransformKind(p, BlueComponent) == Pixel(p.blue, p.blue, p.blue)
  {
    var r := KindMatrix(RedComponent);
    assert r[0] == r[1] == r[2] == [1.0, 0.0, 0.0];
    UnitRow(p, r[0], p.red);
    var g := KindMatrix(GreenComponent);
    assert g[0] == g[1] == g[2] == [0.0, 1.0, 0.0];
    UnitRow(p, g[0], p.green);
    var b := KindMatrix(BlueComponent);
    assert b[0] == b[1] == b[2] == [0.0, 0.0, 1.0];
    UnitRow(p, b[0], p.blue);
  }

  /** Max-value greyscale replicates the largest channel. */
  lemma MaxValueKind(p: Pixel)
    ensures var v := TransformKind(p, MaxValue).red;
      TransformKind(p, MaxValue) == Pixel(v, v, v) &&
      v >= p.red && v >= p.green && v >= p.blue &&
      (v == p.red || v == p.green || v == p.blue)
  {
  }

  /**
   * Intensity greyscale is the integer mean of the channels; it lies between
   * the smallest and largest channel, so the clamp never changes it.
   */
  lemma IntensityKind(p: Pixel)
    requires ValidPixel(p)
    ensures var v := (p.red + p.green + p.blue) / 3;
      TransformKind(p, Intensity) == Pixel(v, v, v) &&
      (v >= p.red || v >= p.green || v >= p.blue) &&
      (v <= p.red || v <= p.green || v <= p.blue)
  {
    var m := KindMatrix(Intensity);
    var x := Dot(m[0], p);
    var s := p.red + p.green + p.blue;
    assert x == s as real / 3.0;
    assert Trunc(x) == s / 3 by {
      assert (s / 3) as real * 3.0 <= s as real < (s / 3 + 1) as real * 3.0;
    }
  }

  /** The luma weights sum to one, so luma never exceeds the largest channel. */
  lemma LumaBelowMax(p: Pixel)
    requires ValidPixel(p)
    ensures var v := TransformKind(p, Luma).red;
      0 <= v <= Max3(p.red, p.green, p.blue)
  {
    var mx := Max3(p.red, p.green, p.blue) as real;
    var x := Dot(KindMatrix(Luma)[0], p);
    assert x <= mx * 0.2126 + mx * 0.7152 + mx * 0.0722;
  }

  /** Green-component greyscale of a grey-by-green pixel changes nothing. */
  lemma GreenComponentIdempotent(p: Pixel)
    requires ValidPixel(p)
    ensures TransformKind(TransformKind(p, GreenComponent), GreenComponent) == TransformKind(p, GreenComponent)
  {
    ComponentKinds(p);
    ComponentKinds(TransformKind(p, GreenComponent));
  }
}
