/**
 * Mosaic: `k` distinct seed positions are drawn by rejection sampling from the
 * generator's (row, col) draws; every pixel then takes the colour of the seed
 * the search selects. The search starts from seed 0 with the threshold
 * max(height, width) and replaces the current choice only on a strictly
 * smaller distance; distances are compared squared, which orders them as the
 * program's square roots do.
 */
module Mosaic {
  import opened Wrappers
  import opened Images

  datatype Cell = Cell(row: int, col: int)

  predicate CellIn(s: Cell, h: int, w: int) {
    0 <= s.row < h && 0 <= s.col < w
  }

  predicate AllIn(seeds: seq<Cell>, h: int, w: int) {
    forall i :: 0 <= i < |seeds| ==> CellIn(seeds[i], h, w)
  }

  predicate Distinct(seeds: seq<Cell>) {
    forall i, j :: 0 <= i < j < |seeds| ==> seeds[i] != seeds[j]
  }

  /** `containsSeed`: the list already holds an equal coordinate pair. */
  function ContainsSeed(seed: Cell, list: seq<Cell>): (r: bool)
    ensures r <==> seed in list
  {
    if |list| == 0 then false
    else ContainsSeed(seed, list[..|list| - 1]) || list[|list| - 1] == seed
  }

  /**
   * The rejection loop of `generateSeedList`, continued from the seeds `acc`
   * already chosen. `None` when the draws run out first, or when a draw lies
   * outside the bounds `nextInt` guarantees.
   */
  function SeedsFrom(h: int, w: int, k: nat, acc: seq<Cell>, draws: seq<Cell>): (r: Option<seq<Cell>>)
    requires |acc| <= k
    ensures r.Some? ==> |r.value| == k && r.value[..|acc|] == acc
    ensures r.Some? && Distinct(acc) ==> Distinct(r.value)
    ensures r.Some? && AllIn(acc, h, w) ==> AllIn(r.value, h, w)
    ensures r.Some? ==> forall i :: |acc| <= i < k ==> r.value[i] in draws
    decreases |draws|
  {
    if |acc| == k then Some(acc)
    else if |draws| == 0 then None
    else
      var d := draws[0];
      if !CellIn(d, h, w) then None
      else if ContainsSeed(d, acc) then SeedsFrom(h, w, k, acc, draws[1..])
      else SeedsFrom(h, w, k, acc + [d], draws[1..])
  }

  /** `generateSeedList`: exactly `k` pairwise distinct in-bounds seeds, all taken from the draws. */
  function GenerateSeedList(h: int, w: int, k: nat, draws: seq<Cell>): (r: Option<seq<Cell>>)
    ensures r.Some? ==> |r.value| == k && Distinct(r.value) && AllIn(r.value, h, w)
    ensures r.Some? ==> forall i :: 0 <= i < k ==> r.value[i] in draws
  {
    SeedsFrom(h, w, k, [], draws)
  }

  lemma {:induction false} DistinctCard(s: seq<Cell>)
    requires Distinct(s)
    ensures |set x | x in s| == |s|
  {
    if |s| > 0 {
      var init := s[..|s| - 1];
      assert Distinct(init);
      DistinctCard(init);
      assert (set x | x in s) == (set x | x in init) + {s[|s| - 1]};
      assert s[|s| - 1] !in (set x | x in init);
    }
  }

  lemma SetOfCons(s: seq<Cell>)
    requires |s| > 0
    ensures (set x | x in s) == {s[0]} + (set x | x in s[1..])
  {
  }

  lemma SetOfSnoc(s: seq<Cell>, d: Cell)
    ensures (set x | x in s + [d]) == (set x | x in s) + {d}
  {
  }

  /** With no draws left, the seeds gathered so far must already number `k`. */
  lemma NoDrawsLeft(acc: seq<Cell>, draws: seq<Cell>, k: nat)
    requires Distinct(acc) && |draws| == 0
    requires |(set x | x in acc) + (set x | x in draws)| >= k
    ensures |acc| >= k
  {
    assert (set x | x in acc) + (set x | x in draws) == (set x | x in acc);
    DistinctCard(acc);
  }

  /** Skipping a draw already taken keeps the cells still available. */
  lemma SkipKeepsAvailable(acc: seq<Cell>, draws: seq<Cell>)
    requires |draws| > 0 && draws[0] in acc
    ensures (set x | x in acc) + (set x | x in draws[1..]) == (set x | x in acc) + (set x | x in draws)
  {
    SetOfCons(draws);
  }

  /** Taking a new draw moves it from the draws to the seeds. */
  lemma TakeKeepsAvailable(acc: seq<Cell>, draws: seq<Cell>)
    requires |draws| > 0
    ensures (set x | x in acc + [draws[0]]) + (set x | x in draws[1..]) == (set x | x in acc) + (set x | x in draws)
  {
    SetOfCons(draws);
    SetOfSnoc(acc, draws[0]);
  }

  lemma {:induction false} SeedsFromSucceeds(h: int, w: int, k: nat, acc: seq<Cell>, draws: seq<Cell>)
    requires |acc| <= k && Distinct(acc)
    requires AllIn(draws, h, w)
    requires |(set x | x in acc) + (set x | x in draws)| >= k
    ensures SeedsFrom(h, w, k, acc, draws).Some?
    decreases |draws|
  {
    if |acc| < k {
      if |draws| == 0 {
        NoDrawsLeft(acc, draws, k);
        assert false;
      }
      var d := draws[0];
      assert CellIn(d, h, w);
      var rest := draws[1..];
      assert AllIn(rest, h, w);
      if d in acc {
        SkipKeepsAvailable(acc, draws);
        SeedsFromSucceeds(h, w, k, acc, rest);
      } else {
        var acc' := acc + [d];
        assert Distinct(acc');
        TakeKeepsAvailable(acc, draws);
        SeedsFromSucceeds(h, w, k, acc', rest);
      }
    }
  }

  /**
   * The rejection loop ends with a seed list whenever the draws, all within
   * bounds, contain at least `k` different cells.
   */
  lemma GenerateSucceeds(h: int, w: int, k: nat, draws: seq<Cell>)
    requires AllIn(draws, h, w) && |set x | x in draws| >= k
    ensures GenerateSeedList(h, w, k, draws).Some?
  {
    assert (set x: Cell | x in []) == {};
    SeedsFromSucceeds(h, w, k, [], draws);
  }

  /** Squared Euclidean distance between a pixel and a seed. */
  function Dist2(r: int, c: int, s: Cell): nat {
    (r - s.row) * (r - s.row) + (c - s.col) * (c - s.col)
  }

  /**
   * The loop of `mosaicPixel` from seed `i` on, holding the index `best` of the
   * current choice and the squared distance `bound` it must beat.
   */
  function ChooseFrom(r: int, c: int, seeds: seq<Cell>, i: nat, best: nat, bound: int): (res: nat)
    requires i <= |seeds| && best < |seeds|
    ensures res < |seeds|
    decreases |seeds| - i
  {
    if i == |seeds| then best
    else if seeds[i] == Cell(r, c) then i
    else if Dist2(r, c, seeds[i]) < bound then ChooseFrom(r, c, seeds, i + 1, i, Dist2(r, c, seeds[i]))
    else ChooseFrom(r, c, seeds, i + 1, best, bound)
  }

  function Threshold(h: int, w: int): int {
    var t := if h >= w then h else w;
    t * t
  }

  /** The index of the seed whose colour `mosaicPixel` gives the pixel at (r, c). */
  function MosaicIndex(h: int, w: int, seeds: seq<Cell>, r: int, c: int): (res: nat)
    requires |seeds| > 0
    ensures res < |seeds|
  {
    ChooseFrom(r, c, seeds, 0, 0, Threshold(h, w))
  }

  /** `j` is a nearest seed and every earlier seed is strictly farther. */
  ghost predicate FirstNearest(seeds: seq<Cell>, r: int, c: int, j: int) {
    0 <= j < |seeds| &&
    (forall i :: 0 <= i < |seeds| ==> Dist2(r, c, seeds[j]) <= Dist2(r, c, seeds[i])) &&
    (forall i :: 0 <= i < j ==> Dist2(r, c, seeds[i]) > Dist2(r, c, seeds[j]))
  }

  lemma {:induction false} ChooseFromSpec(r: int, c: int, seeds: seq<Cell>, i: nat, best: nat, bound: int, limit: int)
    requires i <= |seeds| && best < |seeds| && limit > 0
    requires forall j :: 0 <= j < i ==> Dist2(r, c, seeds[j]) > 0
    requires
      || (best == 0 && bound == limit && forall j :: 0 <= j < i ==> Dist2(r, c, seeds[j]) >= limit)
      || (best < i && bound == Dist2(r, c, seeds[best]) && bound < limit &&
          (forall j :: 0 <= j < i ==> Dist2(r, c, seeds[j]) >= bound) &&
          (forall j :: 0 <= j < best ==> Dist2(r, c, seeds[j]) > bound))
    ensures (exists j :: 0 <= j < |seeds| && Dist2(r, c, seeds[j]) < limit) ==>
              FirstNearest(seeds, r, c, ChooseFrom(r, c, seeds, i, best, bound))
    ensures (forall j :: 0 <= j < |seeds| ==> Dist2(r, c, seeds[j]) >= limit) ==>
              ChooseFrom(r, c, seeds, i, best, bound) == 0
    decreases |seeds| - i
  {
    if i < |seeds| {
      var d := Dist2(r, c, seeds[i]);
      Dist2Zero(r, c, seeds[i]);
      if seeds[i] != Cell(r, c) {
        if d < bound {
          ChooseFromSpec(r, c, seeds, i + 1, i, d, limit);
        } else {
          ChooseFromSpec(r, c, seeds, i + 1, best, bound, limit);
        }
      }
    }
  }

  /**
   * The search as written: when some seed lies strictly within max(h, w) of
   * the pixel, the choice is a nearest seed, the earliest drawn among equally
   * near ones; otherwise it falls back to seed 0.
   */
  lemma MosaicChoice(h: int, w: int, seeds: seq<Cell>, r: int, c: int)
    requires |seeds| > 0 && 0 <= r < h && 0 <= c < w
    ensures (exists j :: 0 <= j < |seeds| && Dist2(r, c, seeds[j]) < Threshold(h, w)) ==>
              FirstNearest(seeds, r, c, MosaicIndex(h, w, seeds, r, c))
    ensures (forall j :: 0 <= j < |seeds| ==> Dist2(r, c, seeds[j]) >= Threshold(h, w)) ==>
              MosaicIndex(h, w, seeds, r, c) == 0
  {
    ChooseFromSpec(r, c, seeds, 0, 0, Threshold(h, w), Threshold(h, w));
  }

  lemma Dist2Zero(r: int, c: int, s: Cell)
    ensures Dist2(r, c, s) == 0 <==> s == Cell(r, c)
  {
    var a, b := r - s.row, c - s.col;
    if a != 0 {
      assert a * a > 0;
    }
    if b != 0 {
      assert b * b > 0;
    }
  }

  /** A pixel that is itself a seed takes that seed. */
  lemma MosaicSeedKeepsItself(h: int, w: int, seeds: seq<Cell>, r: int, c: int, j: int)
    requires 0 <= r < h && 0 <= c < w && Distinct(seeds)
    requires 0 <= j < |seeds| && seeds[j] == Cell(r, c)
    ensures MosaicIndex(h, w, seeds, r, c) == j
  {
    Dist2Zero(r, c, seeds[j]);
    assert Threshold(h, w) > 0;
    MosaicChoice(h, w, seeds, r, c);
    var m := MosaicIndex(h, w, seeds, r, c);
    assert Dist2(r, c, seeds[m]) <= Dist2(r, c, seeds[j]);
    Dist2Zero(r, c, seeds[m]);
    assert seeds[m] == seeds[j];
  }

  /**
   * The evidently intended search, with no initial threshold: it always picks
   * a nearest seed, the earliest drawn among equally near ones.
   */
  function NearestSeedIndex(seeds: seq<Cell>, r: int, c: int): (res: nat)
    requires |seeds| > 0
    ensures res < |seeds|
  {
    ChooseFrom(r, c, seeds, 0, 0, Dist2(r, c, seeds[0]) + 1)
  }

  lemma NearestSeedIsNearest(seeds: seq<Cell>, r: int, c: int)
    requires |seeds| > 0
    ensures FirstNearest(seeds, r, c, NearestSeedIndex(seeds, r, c))
  {
    ChooseFromSpec(r, c, seeds, 0, 0, Dist2(r, c, seeds[0]) + 1, Dist2(r, c, seeds[0]) + 1);
  }

  /**
   * On a 10x10 image with seeds (9,9) then (9,5), both at least 10 away from
   * (0,0), the pixel (0,0) keeps seed 0 although seed 1 is nearer.
   */
  lemma ThresholdKeepsFartherSeed()
    ensures var seeds := [Cell(9, 9), Cell(9, 5)];
      MosaicIndex(10, 10, seeds, 0, 0) == 0 &&
      NearestSeedIndex(seeds, 0, 0) == 1 &&
      Dist2(0, 0, seeds[1]) < Dist2(0, 0, seeds[0])
  {
    var seeds := [Cell(9, 9), Cell(9, 5)];
    assert ChooseFrom(0, 0, seeds, 2, 0, 100) == 0;
    assert ChooseFrom(0, 0, seeds, 1, 0, 100) == 0;
    assert ChooseFrom(0, 0, seeds, 2, 1, 106) == 1;
    assert ChooseFrom(0, 0, seeds, 1, 0, 162) == 1;
  }

  /** The cells of row `r` with a column below `w`. */
  ghost function RowCells(r: int, w: nat): set<Cell> {
    if w == 0 then {} else RowCells(r, w - 1) + {Cell(r, w - 1)}
  }

  lemma {:induction false} RowCellsMembers(r: int, w: nat)
    ensures forall x :: x in RowCells(r, w) <==> x.row == r && 0 <= x.col < w
  {
    if w > 0 {
      RowCellsMembers(r, w - 1);
    }
  }

  lemma {:induction false} RowCellsCard(r: int, w: nat)
    ensures |RowCells(r, w)| == w
  {
    if w > 0 {
      RowCellsCard(r, w - 1);
      RowCellsMembers(r, w - 1);
      assert Cell(r, w - 1) !in RowCells(r, w - 1);
    }
  }

  /** Every cell of an h-by-w grid. */
  ghost function GridCells(h: nat, w: nat): set<Cell> {
    if h == 0 then {} else GridCells(h - 1, w) + RowCells(h - 1, w)
  }

  lemma {:induction false} GridCellsMembers(h: nat, w: nat)
    ensures forall x :: x in GridCells(h, w) <==> CellIn(x, h, w)
  {
    if h > 0 {
      GridCellsMembers(h - 1, w);
      RowCellsMembers(h - 1, w);
    }
  }

  /** Row `h` shares no cell with the rows above it. */
  lemma NewRowDisjoint(h: nat, w: nat)
    ensures GridCells(h, w) !! RowCells(h, w)
  {
    RowCellsMembers(h, w);
    GridCellsMembers(h, w);
  }

  lemma {:induction false} GridCellsCard(h: nat, w: nat)
    ensures |GridCells(h, w)| == h * w
  {
    if h > 0 {
      var top, last := GridCells(h - 1, w), RowCells(h - 1, w);
      GridCellsCard(h - 1, w);
      RowCellsCard(h - 1, w);
      NewRowDisjoint(h - 1, w);
      MulStep(h, w);
    }
  }

  lemma MulStep(h: int, w: int)
    ensures (h - 1) * w + w == h * w
  {
  }

  /** A subset as large as its superset is the whole superset. */
  lemma {:induction false} FullSubset<T>(a: set<T>, b: set<T>)
    requires a <= b && |a| >= |b|
    ensures a == b
  {
    if x :| x in b && x !in a {
      assert a <= b - {x};
      assert |b - {x}| == |b| - 1;
      SubsetCard(a, b - {x});
      assert false;
    }
  }

  lemma {:induction false} SubsetCard<T>(a: set<T>, b: set<T>)
    requires a <= b
    ensures |a| <= |b|
    decreases a
  {
    if a != {} {
      var x :| x in a;
      SubsetCard(a - {x}, b - {x});
    }
  }

  /** h * w distinct seeds inside an h-by-w grid occupy every cell of it. */
  lemma SeedsFillGrid(h: nat, w: nat, seeds: seq<Cell>)
    requires Distinct(seeds) && AllIn(seeds, h, w) && |seeds| == h * w
    ensures forall x :: CellIn(x, h, w) ==> x in seeds
  {
    var s := set x | x in seeds;
    DistinctCard(seeds);
    GridCellsCard(h, w);
    GridCellsMembers(h, w);
    FullSubset(s, GridCells(h, w));
  }

  /** `mosaicPixel`: the colour of the chosen seed in the source. */
  function MosaicPixel(img: Image, seeds: seq<Cell>, r: int, c: int): Pixel
    requires Shaped(img) && |seeds| > 0 && AllIn(seeds, img.height, img.width)
  {
    var s := seeds[MosaicIndex(img.height, img.width, seeds, r, c)];
    At(img, s.row, s.col)
  }
}
