/**
 * The grid-point lookup of `read_imerg.py`: one precipitation granule is an
 * already-loaded latitude/longitude grid, and the value reported for a
 * coordinate is the nearest cell's, or, when that cell is the fill value or
 * NaN, the mean of the non-fill cells of the smallest square window around it
 * that has any.
 */
module ImergExtract {
  import opened Wrappers
  import opened SeqFacts

  /** The fill value the dataset writes into cells without a measurement. */
  const MissingValue: real := -9999.9

  /** `max_radius` when the caller gives none. */
  const DefaultMaxRadius: int := 5

  /**
   * A floating-point value as the grid stores it: a number (taken exactly)
   * or NaN. Infinities are not modelled.
   */
  datatype Float = Num(x: real) | NaN

  predicate IsMissing(v: Float) {
    v == Num(MissingValue)
  }

  /** The test the nearest cell must pass to be returned as it is. */
  predicate IsUsable(v: Float) {
    !IsMissing(v) && !v.NaN?
  }

  /**
   * Whether the window search keeps a cell: the code as written drops only
   * the fill value (`dropNaN` false); the corrected search also drops NaN.
   */
  predicate Kept(v: Float, dropNaN: bool) {
    !IsMissing(v) && (!dropNaN || !v.NaN?)
  }

  predicate Rectangular(p: seq<seq<Float>>) {
    forall i :: 0 <= i < |p| ==> |p[i]| == |p[0]|
  }

  /** The precipitation array as stored on its two grid axes: rows by latitude index. */
  type Matrix = p: seq<seq<Float>> | Rectangular(p) witness []

  function Cols(p: Matrix): nat {
    if |p| == 0 then 0 else |p[0]|
  }

  /**
   * `np.squeeze` drops every axis of size 1: a single row or a single column
   * leaves fewer than two dimensions, and indexing with two subscripts raises.
   */
  predicate Squeezed(p: Matrix) {
    |p| == 1 || Cols(p) == 1
  }

  /** The `Grid/lat`, `Grid/lon` and `Grid/precipitation` datasets of one file. */
  datatype Grid = Grid(lat: seq<real>, lon: seq<real>, precip: Matrix)

  /**
   * A granule, once opened: a file that cannot be read or lacks one of the
   * datasets ends in the exception handler, which makes the lookup give None.
   */
  datatype Granule = Unreadable | Loaded(grid: Grid)

  function Reverse<T>(s: seq<T>): (r: seq<T>)
    ensures |r| == |s|
    ensures forall i :: 0 <= i < |s| ==> r[i] == s[|s| - 1 - i]
  {
    seq(|s|, i requires 0 <= i < |s| => s[|s| - 1 - i])
  }

  /** `precip[::-1, :]`: the rows in reverse order, each row unchanged. */
  function ReverseRows(p: Matrix): (r: Matrix)
    ensures r == Reverse(p) && Cols(r) == Cols(p)
  {
    Reverse(p)
  }

  predicate Descending(lat: seq<real>)
    requires |lat| > 0
  {
    lat[0] > lat[|lat| - 1]
  }

  /**
   * A descending latitude axis is flipped together with the rows of the
   * precipitation array; afterwards the first latitude is at most the last.
   */
  function Orient(g: Grid): (o: Grid)
    requires |g.lat| > 0
    ensures o.lon == g.lon && |o.lat| == |g.lat|
    ensures |o.precip| == |g.precip| && Cols(o.precip) == Cols(g.precip)
    ensures o.lat[0] <= o.lat[|o.lat| - 1]
  {
    if Descending(g.lat) then Grid(Reverse(g.lat), g.lon, ReverseRows(g.precip)) else g
  }

  /**
   * Orientation keeps every latitude with its own row: row i of the oriented
   * grid is the row that latitude i had before.
   */
  lemma OrientKeepsRowsWithLatitudes(g: Grid, i: nat)
    requires |g.lat| > 0 && |g.precip| == |g.lat| && i < |g.lat|
    ensures var j := if Descending(g.lat) then |g.lat| - 1 - i else i;
            Orient(g).lat[i] == g.lat[j] && Orient(g).precip[i] == g.precip[j]
  {
  }

  /** `d` is a whole multiple of `m`. */
  predicate IsMultiple(d: real, m: real)
    requires m > 0.0
  {
    (d / m).Floor as real == d / m
  }

  /** Python's `x % m` on floats for a positive divisor: the floored remainder. */
  function FloorMod(x: real, m: real): (r: real)
    requires m > 0.0
    ensures 0.0 <= r < m
    ensures IsMultiple(x - r, m)
  {
    var q := (x / m).Floor;
    FloorModFacts(x, m, q);
    x - m * q as real
  }

  lemma FloorModFacts(x: real, m: real, q: int)
    requires m > 0.0 && q == (x / m).Floor
    ensures 0.0 <= x - m * q as real < m
    ensures (x - (x - m * q as real)) / m == q as real
  {
    var fq := q as real;
    var r := x - m * fq;
    QuotientShift(x, m, fq);
    FractionBounds(r, m);
    TimesDiv(fq, m);
    assert x - r == m * fq;
  }

  /** Dividing `x - m * a` by `m` takes `a` off the quotient. */
  lemma QuotientShift(x: real, m: real, a: real)
    requires m > 0.0
    ensures (x - m * a) / m == x / m - a
  {
  }

  /** A quotient in [0, 1) over a positive divisor means a dividend in [0, m). */
  lemma FractionBounds(r: real, m: real)
    requires m > 0.0 && 0.0 <= r / m < 1.0
    ensures 0.0 <= r < m
  {
  }

  lemma TimesDiv(a: real, m: real)
    requires m > 0.0
    ensures m * a / m == a
  {
  }

  /**
   * The query longitude: kept when it lies in [-180, 180], otherwise taken to
   * `((lon + 180) % 360) - 180`.
   */
  function NormalizeLon(lon: real): (r: real)
    ensures -180.0 <= lon <= 180.0 ==> r == lon
    ensures !(-180.0 <= lon <= 180.0) ==> -180.0 <= r < 180.0 && IsMultiple(lon - r, 360.0)
  {
    if lon < -180.0 || lon > 180.0 then FloorMod(lon + 180.0, 360.0) - 180.0 else lon
  }

  /** `abs(a - b)`. */
  function Dist(a: real, b: real): real {
    if a >= b then a - b else b - a
  }

  /**
   * `np.argmin(np.abs(axis - target))`: an index of least distance to the
   * target, and the first such index.
   */
  function NearestIndex(axis: seq<real>, target: real): (k: nat)
    requires |axis| > 0
    ensures k < |axis|
    ensures forall i :: 0 <= i < |axis| ==> Dist(axis[k], target) <= Dist(axis[i], target)
    ensures forall i :: 0 <= i < k ==> Dist(axis[i], target) > Dist(axis[k], target)
  {
    if |axis| == 1 then 0
    else
      var k := NearestIndex(axis[..|axis| - 1], target);
      if Dist(axis[|axis| - 1], target) < Dist(axis[k], target) then |axis| - 1 else k
  }

  /** `max(c - radius, 0)`. */
  function WindowLo(c: nat, radius: nat): (lo: nat)
    ensures lo <= c
    ensures c >= radius ==> lo == c - radius
    ensures c < radius ==> lo == 0
  {
    if c >= radius then c - radius else 0
  }

  /** `min(c + radius + 1, n)`. */
  function WindowHi(c: nat, radius: nat, n: nat): (hi: nat)
    ensures hi <= n
    ensures c < n ==> c < hi
    ensures c + radius + 1 <= n ==> hi == c + radius + 1
    ensures c + radius + 1 > n ==> hi == n
  {
    if c + radius + 1 <= n then c + radius + 1 else n
  }

  /** The radius-r window lies inside the radius-(r+1) window. */
  lemma WindowNested(c: nat, radius: nat, n: nat)
    ensures WindowLo(c, radius + 1) <= WindowLo(c, radius)
    ensures WindowHi(c, radius, n) <= WindowHi(c, radius + 1, n)
  {
  }

  /**
   * The boolean-mask filter: the kept cells in order, each as many times as
   * it occurs, and nothing else.
   */
  function KeptCells(row: seq<Float>, dropNaN: bool): (r: seq<Float>)
    ensures |r| <= |row|
    ensures forall v :: v in r <==> v in row && Kept(v, dropNaN)
  {
    if row == [] then []
    else if Kept(row[0], dropNaN) then [row[0]] + KeptCells(row[1..], dropNaN)
    else KeptCells(row[1..], dropNaN)
  }

  /** The filter keeps each kept value as often as it occurs, and drops the rest. */
  lemma {:induction false} KeptCellsCounts(row: seq<Float>, dropNaN: bool, v: Float)
    ensures multiset(KeptCells(row, dropNaN))[v] == if Kept(v, dropNaN) then multiset(row)[v] else 0
  {
    if row != [] {
      assert row == [row[0]] + row[1..];
      KeptCellsCounts(row[1..], dropNaN, v);
    }
  }

  lemma {:induction false} KeptCellsConcat(s: seq<Float>, t: seq<Float>, dropNaN: bool)
    ensures KeptCells(s + t, dropNaN) == KeptCells(s, dropNaN) + KeptCells(t, dropNaN)
  {
    if s == [] {
      assert s + t == t;
    } else {
      assert (s + t)[0] == s[0] && (s + t)[1..] == s[1..] + t;
      KeptCellsConcat(s[1..], t, dropNaN);
      if Kept(s[0], dropNaN) {
        var ku, kt := KeptCells(s[1..], dropNaN), KeptCells(t, dropNaN);
        assert [s[0]] + (ku + kt) == ([s[0]] + ku) + kt;
      }
    }
  }

  /** `precip[r0:r1, c0:c1]` flattened row by row, as a boolean mask flattens it. */
  function WindowSlice(p: Matrix, r0: nat, r1: nat, c0: nat, c1: nat): (w: seq<Float>)
    requires r0 <= r1 <= |p| && c0 <= c1 <= Cols(p)
    ensures forall a, b :: r0 <= a < r1 && c0 <= b < c1 ==> p[a][b] in w
    decreases r1 - r0
  {
    if r0 == r1 then []
    else
      assert forall b :: c0 <= b < c1 ==> p[r0][b] == p[r0][c0..c1][b - c0];
      p[r0][c0..c1] + WindowSlice(p, r0 + 1, r1, c0, c1)
  }

  /** Where row `k` of a flattened block with `m` columns starts. */
  function RowStart(k: nat, m: nat): nat {
    if k == 0 then 0 else m + RowStart(k - 1, m)
  }

  lemma {:induction false} RowStartIsProduct(k: nat, m: nat)
    ensures RowStart(k, m) == k * m
  {
    if k > 0 {
      RowStartIsProduct(k - 1, m);
      assert k * m == m + (k - 1) * m;
    }
  }

  /** A row that starts before row `rows` ends by the start of row `rows`. */
  lemma {:induction false} RowStartBound(i: nat, rows: nat, m: nat)
    requires i < rows
    ensures RowStart(i, m) + m <= RowStart(rows, m)
    decreases rows
  {
    if i + 1 < rows {
      RowStartBound(i, rows - 1, m);
    }
  }

  /** Cell `(a, b)` of `p` sits in `w` at the row-major position of row `a - r0`, column `b - c0`, in rows of `c1 - c0`. */
  predicate PlacedAt(w: seq<Float>, p: Matrix, r0: nat, c0: nat, c1: nat, a: nat, b: nat)
    requires r0 <= a < |p| && c0 <= b < c1 <= Cols(p)
  {
    RowStart(a - r0, c1 - c0) + (b - c0) < |w| && w[RowStart(a - r0, c1 - c0) + (b - c0)] == p[a][b]
  }

  /** Putting row `top` in front of the flattened rows `r0..r1` after it keeps the row-major layout. */
  lemma WindowSliceStep(p: Matrix, top: nat, r0: nat, r1: nat, c0: nat, c1: nat, rest: seq<Float>)
    requires top + 1 == r0 <= r1 <= |p| && c0 <= c1 <= Cols(p)
    requires |rest| == RowStart(r1 - r0, c1 - c0)
    requires forall a: nat, b: nat :: r0 <= a < r1 && c0 <= b < c1 ==> PlacedAt(rest, p, r0, c0, c1, a, b)
    ensures |p[top][c0..c1] + rest| == RowStart(r1 - top, c1 - c0)
    ensures forall a: nat, b: nat :: top <= a < r1 && c0 <= b < c1 ==> PlacedAt(p[top][c0..c1] + rest, p, top, c0, c1, a, b)
  {
    var m := c1 - c0;
    var row := p[top][c0..c1];
    var w := row + rest;
    assert RowStart(r1 - top, m) == m + RowStart(r1 - r0, m);
    forall a: nat, b: nat | top <= a < r1 && c0 <= b < c1 ensures PlacedAt(w, p, top, c0, c1, a, b) {
      if a == top {
        assert w[b - c0] == row[b - c0] == p[a][b];
      } else {
        assert PlacedAt(rest, p, r0, c0, c1, a, b);
        var k := RowStart(a - r0, m) + (b - c0);
        assert RowStart(a - top, m) + (b - c0) == m + k;
        assert w[m + k] == rest[k];
      }
    }
  }

  /** The slice has one entry per window cell, `(r1 - r0) * (c1 - c0)` in all, in row-major order. */
  lemma {:induction false} WindowSliceLayout(p: Matrix, r0: nat, r1: nat, c0: nat, c1: nat)
    requires r0 <= r1 <= |p| && c0 <= c1 <= Cols(p)
    ensures |WindowSlice(p, r0, r1, c0, c1)| == RowStart(r1 - r0, c1 - c0) == (r1 - r0) * (c1 - c0)
    ensures forall a: nat, b: nat :: r0 <= a < r1 && c0 <= b < c1 ==> PlacedAt(WindowSlice(p, r0, r1, c0, c1), p, r0, c0, c1, a, b)
    decreases r1 - r0
  {
    assert RowStart(r1 - r0, c1 - c0) == (r1 - r0) * (c1 - c0) by {
      RowStartIsProduct(r1 - r0, c1 - c0);
    }
    if r0 < r1 {
      WindowSliceLayout(p, r0 + 1, r1, c0, c1);
      WindowSliceStep(p, r0, r0 + 1, r1, c0, c1, WindowSlice(p, r0 + 1, r1, c0, c1));
    }
  }

  /** Rows `r0..r1`, columns `c0..c1`, flattened row by row and filtered. */
  function WindowCells(p: Matrix, r0: nat, r1: nat, c0: nat, c1: nat, dropNaN: bool): (r: seq<Float>)
    requires r0 <= r1 <= |p| && c0 <= c1 <= Cols(p)
    ensures forall v :: v in r ==> Kept(v, dropNaN)
    ensures forall a, b :: r0 <= a < r1 && c0 <= b < c1 && Kept(p[a][b], dropNaN) ==> p[a][b] in r
    decreases r1 - r0
  {
    if r0 == r1 then []
    else
      var here := KeptCells(p[r0][c0..c1], dropNaN);
      var rest := WindowCells(p, r0 + 1, r1, c0, c1, dropNaN);
      assert forall b :: c0 <= b < c1 ==> p[r0][b] == p[r0][c0..c1][b - c0];
      here + rest
  }

  /** The filtered window is the mask filter applied to the flattened window. */
  lemma {:induction false} WindowCellsIsMaskedSlice(p: Matrix, r0: nat, r1: nat, c0: nat, c1: nat, dropNaN: bool)
    requires r0 <= r1 <= |p| && c0 <= c1 <= Cols(p)
    ensures WindowCells(p, r0, r1, c0, c1, dropNaN) == KeptCells(WindowSlice(p, r0, r1, c0, c1), dropNaN)
    decreases r1 - r0
  {
    if r0 < r1 {
      WindowCellsIsMaskedSlice(p, r0 + 1, r1, c0, c1, dropNaN);
      MaskedRowStep(p[r0][c0..c1], WindowSlice(p, r0 + 1, r1, c0, c1), WindowCells(p, r0 + 1, r1, c0, c1, dropNaN),
                    WindowSlice(p, r0, r1, c0, c1), WindowCells(p, r0, r1, c0, c1, dropNaN), dropNaN);
    }
  }

  /** One row of the window: filtering the row and then the rows below is filtering them together. */
  lemma MaskedRowStep(row: seq<Float>, below: seq<Float>, rest: seq<Float>, whole: seq<Float>, cells: seq<Float>, dropNaN: bool)
    requires whole == row + below && rest == KeptCells(below, dropNaN)
    requires cells == KeptCells(row, dropNaN) + rest
    ensures cells == KeptCells(whole, dropNaN)
  {
    KeptCellsConcat(row, below, dropNaN);
  }

  /** Each kept value of the window is counted as often as it occurs there; the others not at all. */
  lemma WindowCellsCounts(p: Matrix, r0: nat, r1: nat, c0: nat, c1: nat, dropNaN: bool, v: Float)
    requires r0 <= r1 <= |p| && c0 <= c1 <= Cols(p)
    ensures multiset(WindowCells(p, r0, r1, c0, c1, dropNaN))[v] ==
            if Kept(v, dropNaN) then multiset(WindowSlice(p, r0, r1, c0, c1))[v] else 0
  {
    WindowCellsIsMaskedSlice(p, r0, r1, c0, c1, dropNaN);
    KeptCellsCounts(WindowSlice(p, r0, r1, c0, c1), dropNaN, v);
  }

  predicate InWindow(p: Matrix, i: nat, j: nat, radius: nat, a: nat, b: nat)
    requires i < |p| && j < Cols(p)
  {
    WindowLo(i, radius) <= a < WindowHi(i, radius, |p|) &&
    WindowLo(j, radius) <= b < WindowHi(j, radius, Cols(p))
  }

  /** `region[region != MISSING_VALUE]` for the window of the given radius. */
  function Region(p: Matrix, i: nat, j: nat, radius: nat, dropNaN: bool): seq<Float>
    requires i < |p| && j < Cols(p)
  {
    WindowCells(p, WindowLo(i, radius), WindowHi(i, radius, |p|),
                WindowLo(j, radius), WindowHi(j, radius, Cols(p)), dropNaN)
  }

  lemma {:induction false} WindowCellsEmpty(p: Matrix, r0: nat, r1: nat, c0: nat, c1: nat, dropNaN: bool)
    requires r0 <= r1 <= |p| && c0 <= c1 <= Cols(p)
    requires forall a, b :: r0 <= a < r1 && c0 <= b < c1 ==> !Kept(p[a][b], dropNaN)
    ensures WindowCells(p, r0, r1, c0, c1, dropNaN) == []
    decreases r1 - r0
  {
    if r0 < r1 {
      var row := p[r0][c0..c1];
      assert forall v :: v in row ==> !Kept(v, dropNaN);
      KeptCellsEmpty(row, dropNaN);
      WindowCellsEmpty(p, r0 + 1, r1, c0, c1, dropNaN);
    }
  }

  lemma {:induction false} KeptCellsEmpty(row: seq<Float>, dropNaN: bool)
    requires forall v :: v in row ==> !Kept(v, dropNaN)
    ensures KeptCells(row, dropNaN) == []
  {
    if row != [] {
      KeptCellsEmpty(row[1..], dropNaN);
    }
  }

  /** A window has a cell to average exactly when some cell in it survives the filter. */
  lemma RegionNonEmptyIff(p: Matrix, i: nat, j: nat, radius: nat, dropNaN: bool)
    requires i < |p| && j < Cols(p)
    ensures |Region(p, i, j, radius, dropNaN)| > 0 <==>
            exists a: nat, b: nat :: InWindow(p, i, j, radius, a, b) && Kept(p[a][b], dropNaN)
  {
    var lo, hi := WindowLo(i, radius), WindowHi(i, radius, |p|);
    var clo, chi := WindowLo(j, radius), WindowHi(j, radius, Cols(p));
    if !exists a: nat, b: nat :: InWindow(p, i, j, radius, a, b) && Kept(p[a][b], dropNaN) {
      WindowCellsEmpty(p, lo, hi, clo, chi, dropNaN);
    }
  }

  /** Once a window has a usable cell, every larger window has one too. */
  lemma RegionGrows(p: Matrix, i: nat, j: nat, radius: nat, dropNaN: bool)
    requires i < |p| && j < Cols(p)
    requires |Region(p, i, j, radius, dropNaN)| > 0
    ensures |Region(p, i, j, radius + 1, dropNaN)| > 0
  {
    RegionNonEmptyIff(p, i, j, radius, dropNaN);
    var a: nat, b: nat :| InWindow(p, i, j, radius, a, b) && Kept(p[a][b], dropNaN);
    WindowNested(i, radius, |p|);
    WindowNested(j, radius, Cols(p));
    assert InWindow(p, i, j, radius + 1, a, b);
    RegionNonEmptyIff(p, i, j, radius + 1, dropNaN);
  }

  /** `sum(w(v) for v in s)`. */
  function SumBy(s: seq<Float>, w: Float -> real): real {
    if s == [] then 0.0 else w(s[0]) + SumBy(s[1..], w)
  }

  lemma {:induction false} SumByConcat(s: seq<Float>, t: seq<Float>, w: Float -> real)
    ensures SumBy(s + t, w) == SumBy(s, w) + SumBy(t, w)
  {
    if s == [] {
      assert s + t == t;
    } else {
      assert (s + t)[1..] == s[1..] + t;
      SumByConcat(s[1..], t, w);
    }
  }

  /** Taking out the term at `k`. */
  lemma {:induction false} SumByRemove(t: seq<Float>, k: nat, w: Float -> real)
    requires k < |t|
    ensures SumBy(t, w) == w(t[k]) + SumBy(t[..k] + t[k + 1..], w)
    decreases k
  {
    if k == 0 {
      assert t[..0] + t[1..] == t[1..];
    } else {
      var u := t[1..];
      SumByRemove(u, k - 1, w);
      var rest := t[..k] + t[k + 1..];
      assert rest[0] == t[0];
      assert rest[1..] == u[..k - 1] + u[k..];
      assert u[k - 1] == t[k];
    }
  }

  /** A sum does not depend on the order of its terms. */
  lemma {:induction false} SumByPermutation(s: seq<Float>, t: seq<Float>, w: Float -> real)
    requires multiset(s) == multiset(t)
    ensures SumBy(s, w) == SumBy(t, w)
    decreases |s|
  {
    if s != [] {
      var k := MatchFirst(s, t);
      SumByPermutation(s[1..], t[..k] + t[k + 1..], w);
      SumByRemove(t, k, w);
    }
  }

  /** The number a value contributes to a sum: NaN contributes nothing. */
  function ValueOrZero(v: Float): real {
    if v.Num? then v.x else 0.0
  }

  function Total(s: seq<Float>): real {
    SumBy(s, ValueOrZero)
  }

  /** `np.mean`: NaN as soon as one value is NaN. */
  function Mean(s: seq<Float>): (m: Float)
    requires |s| > 0
    ensures m.NaN? <==> NaN in s
  {
    if NaN in s then NaN else Num(Total(s) / |s| as real)
  }

  /** Values within `[lo, hi]` have a total within `n * lo` and `n * hi`. */
  lemma {:induction false} TotalBounded(s: seq<Float>, lo: real, hi: real)
    requires NaN !in s && forall k :: 0 <= k < |s| ==> lo <= s[k].x <= hi
    ensures |s| as real * lo <= Total(s) <= |s| as real * hi
  {
    if s != [] {
      assert NaN !in s[1..] by { assert forall k :: 0 <= k < |s[1..]| ==> s[1..][k] == s[k + 1]; }
      TotalBounded(s[1..], lo, hi);
      assert s[0] in s;
      assert Total(s) == s[0].x + Total(s[1..]);
    }
  }

  /** The mean of values without NaN lies between their bounds. */
  lemma MeanBounded(s: seq<Float>, lo: real, hi: real)
    requires |s| > 0 && NaN !in s && forall k :: 0 <= k < |s| ==> lo <= s[k].x <= hi
    ensures Mean(s).Num? && lo <= Mean(s).x <= hi
  {
    TotalBounded(s, lo, hi);
    var n := |s| as real;
    var t := Total(s);
    assert Mean(s).x == t / n;
    assert t / n * n == t;
  }

  /** The `for radius in range(from, max_radius + 1)` search with its early return. */
  function Search(p: Matrix, i: nat, j: nat, radius: nat, maxRadius: int, dropNaN: bool): (r: Option<Float>)
    requires i < |p| && j < Cols(p)
    ensures r.Some? ==> radius <= maxRadius
    decreases maxRadius - radius
  {
    if radius > maxRadius then None
    else if Found(p, i, j, radius, dropNaN) then Some(Mean(Region(p, i, j, radius, dropNaN)))
    else Search(p, i, j, radius + 1, maxRadius, dropNaN)
  }

  /** The window of radius `q` has a kept cell. */
  predicate Found(p: Matrix, i: nat, j: nat, q: nat, dropNaN: bool)
    requires i < |p| && j < Cols(p)
  {
    |Region(p, i, j, q, dropNaN)| > 0
  }

  /** No radius in `from..to-1` has a window with a kept cell. */
  predicate NoneFound(p: Matrix, i: nat, j: nat, from: nat, to: int, dropNaN: bool)
    requires i < |p| && j < Cols(p)
  {
    forall q: nat :: from <= q < to ==> !Found(p, i, j, q, dropNaN)
  }

  /** The search gives None exactly when no radius in `from..maxRadius` has a kept cell. */
  lemma {:induction false} SearchNoneIff(p: Matrix, i: nat, j: nat, from: nat, maxRadius: int, dropNaN: bool)
    requires i < |p| && j < Cols(p)
    ensures Search(p, i, j, from, maxRadius, dropNaN).None? <==> NoneFound(p, i, j, from, maxRadius + 1, dropNaN)
    decreases maxRadius - from
  {
    if from <= maxRadius && !Found(p, i, j, from, dropNaN) {
      SearchNoneIff(p, i, j, from + 1, maxRadius, dropNaN);
      assert Search(p, i, j, from, maxRadius, dropNaN) == Search(p, i, j, from + 1, maxRadius, dropNaN);
      if NoneFound(p, i, j, from + 1, maxRadius + 1, dropNaN) {
        assert NoneFound(p, i, j, from, maxRadius + 1, dropNaN);
      }
    }
  }

  /**
   * When the search gives a value, it is the mean of the kept cells of the
   * smallest radius in `from..maxRadius` whose window has any.
   */
  lemma {:induction false} SearchFindsSmallestRadius(p: Matrix, i: nat, j: nat, from: nat, maxRadius: int, dropNaN: bool)
    returns (q: nat)
    requires i < |p| && j < Cols(p)
    requires Search(p, i, j, from, maxRadius, dropNaN).Some?
    ensures from <= q <= maxRadius && Found(p, i, j, q, dropNaN)
    ensures Search(p, i, j, from, maxRadius, dropNaN) == Some(Mean(Region(p, i, j, q, dropNaN)))
    ensures NoneFound(p, i, j, from, q, dropNaN)
    decreases maxRadius - from
  {
    if Found(p, i, j, from, dropNaN) {
      q := from;
    } else {
      assert Search(p, i, j, from, maxRadius, dropNaN) == Search(p, i, j, from + 1, maxRadius, dropNaN);
      q := SearchFindsSmallestRadius(p, i, j, from + 1, maxRadius, dropNaN);
      forall q': nat | from <= q' < q ensures !Found(p, i, j, q', dropNaN) {
        if q' > from {
          assert NoneFound(p, i, j, from + 1, q, dropNaN);
        }
      }
    }
  }

  /** The oriented array and the nearest indices, when the lookup gets that far without raising. */
  datatype Located = Located(p: Matrix, i: nat, j: nat)

  /**
   * Lines 18-35: squeeze, orient the latitude axis, normalise the longitude,
   * pick the nearest index on each axis. An empty axis (`lat[0]`, `argmin` of
   * nothing), a grid squeezed below two dimensions (the flip or the lookup
   * `precip[lat_idx, lon_idx]`) or an index outside the array raises, which
   * the handler turns into None.
   */
  function Locate(g: Grid, targetLat: real, targetLon: real): (r: Option<Located>)
    ensures r.Some? ==> r.value.i < |r.value.p| && r.value.j < Cols(r.value.p)
    ensures r.Some? ==> 2 <= |r.value.p| && 2 <= Cols(r.value.p)
    ensures r.Some? ==> |g.lat| > 0 && |g.lon| > 0 && r.value.p == Orient(g).precip
                        && r.value.i == NearestIndex(Orient(g).lat, targetLat)
                        && r.value.j == NearestIndex(g.lon, NormalizeLon(targetLon))
    ensures r.None? <==> |g.lat| == 0 || |g.lon| == 0 || Squeezed(g.precip)
                         || NearestIndex(Orient(g).lat, targetLat) >= |g.precip|
                         || NearestIndex(g.lon, NormalizeLon(targetLon)) >= Cols(g.precip)
  {
    if |g.lat| == 0 || |g.lon| == 0 || Squeezed(g.precip) then None
    else
      var o := Orient(g);
      var i := NearestIndex(o.lat, targetLat);
      var j := NearestIndex(o.lon, NormalizeLon(targetLon));
      if i < |o.precip| && j < Cols(o.precip) then Some(Located(o.precip, i, j)) else None
  }

  function ExtractWith(file: Granule, targetLat: real, targetLon: real, maxRadius: int, dropNaN: bool): (r: Option<Float>)
    ensures r.Some? ==> file.Loaded? && Locate(file.grid, targetLat, targetLon).Some?
  {
    if file.Unreadable? then None
    else
      match Locate(file.grid, targetLat, targetLon)
      case None => None
      case Some(loc) =>
        if IsUsable(loc.p[loc.i][loc.j]) then Some(loc.p[loc.i][loc.j])
        else Search(loc.p, loc.i, loc.j, 1, maxRadius, dropNaN)
  }

  /** `extract_precip_at_location` as written. */
  function Extract(file: Granule, targetLat: real, targetLon: real, maxRadius: int): (r: Option<Float>)
    ensures r.Some? ==> file.Loaded? && Locate(file.grid, targetLat, targetLon).Some?
  {
    ExtractWith(file, targetLat, targetLon, maxRadius, false)
  }

  /** The lookup with the window search also skipping NaN cells. */
  function ExtractCorrected(file: Granule, targetLat: real, targetLon: real, maxRadius: int): Option<Float>
  {
    ExtractWith(file, targetLat, targetLon, maxRadius, true)
  }

  /**
   * What the lookup returns: None when the file cannot be read or the lookup
   * raises; the nearest cell unchanged when it is usable, with no search; and
   * otherwise the result of the smallest window that has a kept cell, or None.
   */
  lemma ExtractMeaning(file: Granule, targetLat: real, targetLon: real, maxRadius: int, dropNaN: bool)
    ensures file.Unreadable? ==> ExtractWith(file, targetLat, targetLon, maxRadius, dropNaN) == None
    ensures file.Loaded? && Locate(file.grid, targetLat, targetLon).None? ==>
            ExtractWith(file, targetLat, targetLon, maxRadius, dropNaN) == None
    ensures file.Loaded? && Locate(file.grid, targetLat, targetLon).Some? ==>
            var loc := Locate(file.grid, targetLat, targetLon).value;
            var r := ExtractWith(file, targetLat, targetLon, maxRadius, dropNaN);
            && (IsUsable(loc.p[loc.i][loc.j]) ==> r == Some(loc.p[loc.i][loc.j]))
            && (!IsUsable(loc.p[loc.i][loc.j]) ==>
                  && (r.None? <==> NoneFound(loc.p, loc.i, loc.j, 1, maxRadius + 1, dropNaN))
                  && (r.Some? ==>
                        exists q: nat :: 1 <= q <= maxRadius && Found(loc.p, loc.i, loc.j, q, dropNaN) &&
                          r == Some(Mean(Region(loc.p, loc.i, loc.j, q, dropNaN))) &&
                          NoneFound(loc.p, loc.i, loc.j, 1, q, dropNaN)))
  {
    if file.Loaded? && Locate(file.grid, targetLat, targetLon).Some? {
      var loc := Locate(file.grid, targetLat, targetLon).value;
      SearchNoneIff(loc.p, loc.i, loc.j, 1, maxRadius, dropNaN);
      if Search(loc.p, loc.i, loc.j, 1, maxRadius, dropNaN).Some? {
        var q := SearchFindsSmallestRadius(loc.p, loc.i, loc.j, 1, maxRadius, dropNaN);
      }
    }
  }

  /**
   * As written, a NaN nearest cell is never replaced: the radius-1 window
   * contains the cell itself, the filter keeps NaN, and the mean is NaN.
   */
  lemma NaNNearestCellYieldsNaN(p: Matrix, i: nat, j: nat, maxRadius: int)
    requires i < |p| && j < Cols(p) && p[i][j] == NaN && maxRadius >= 1
    ensures Search(p, i, j, 1, maxRadius, false) == Some(NaN)
  {
    assert InWindow(p, i, j, 1, i, j);
    RegionNonEmptyIff(p, i, j, 1, false);
    WindowCellsMember(p, WindowLo(i, 1), WindowHi(i, 1, |p|), WindowLo(j, 1), WindowHi(j, 1, Cols(p)), false, i, j);
  }

  lemma WindowCellsMember(p: Matrix, r0: nat, r1: nat, c0: nat, c1: nat, dropNaN: bool, a: nat, b: nat)
    requires r0 <= r1 <= |p| && c0 <= c1 <= Cols(p)
    requires r0 <= a < r1 && c0 <= b < c1 && Kept(p[a][b], dropNaN)
    ensures p[a][b] in WindowCells(p, r0, r1, c0, c1, dropNaN)
  {
  }

  /** A 2 x 2 grid whose cell nearest the query holds NaN: the lookup reports NaN rather than None. */
  lemma NaNCellExample()
    ensures Extract(Loaded(Grid([0.0, 1.0], [0.0, 1.0], [[NaN, Num(1.0)], [Num(2.0), Num(3.0)]])), 0.0, 0.0, DefaultMaxRadius)
            == Some(NaN)
  {
    var p: Matrix := [[NaN, Num(1.0)], [Num(2.0), Num(3.0)]];
    var g := Grid([0.0, 1.0], [0.0, 1.0], p);
    assert Orient(g) == g;
    assert NormalizeLon(0.0) == 0.0;
    assert NearestIndex([0.0, 1.0], 0.0) == 0;
    assert Locate(g, 0.0, 0.0) == Some(Located(p, 0, 0));
    NaNNearestCellYieldsNaN(p, 0, 0, DefaultMaxRadius);
  }

  lemma {:induction false} SearchNeverNaN(p: Matrix, i: nat, j: nat, from: nat, maxRadius: int)
    requires i < |p| && j < Cols(p)
    ensures Search(p, i, j, from, maxRadius, true) != Some(NaN)
    decreases maxRadius - from
  {
    if from <= maxRadius {
      var region := Region(p, i, j, from, true);
      if |region| > 0 {
        assert NaN !in region;
      } else {
        SearchNeverNaN(p, i, j, from + 1, maxRadius);
      }
    }
  }

  /** The corrected lookup never reports NaN. */
  lemma ExtractCorrectedNeverNaN(file: Granule, targetLat: real, targetLon: real, maxRadius: int)
    ensures ExtractCorrected(file, targetLat, targetLon, maxRadius) != Some(NaN)
  {
    if file.Loaded? && Locate(file.grid, targetLat, targetLon).Some? {
      var loc := Locate(file.grid, targetLat, targetLon).value;
      SearchNeverNaN(loc.p, loc.i, loc.j, 1, maxRadius);
    }
  }

  predicate NoNaN(p: Matrix) {
    forall a, b :: 0 <= a < |p| && 0 <= b < |p[a]| ==> p[a][b] != NaN
  }

  lemma {:induction false} KeptCellsSame(row: seq<Float>)
    requires NaN !in row
    ensures KeptCells(row, true) == KeptCells(row, false)
  {
    if row != [] {
      KeptCellsSame(row[1..]);
    }
  }

  lemma {:induction false} WindowCellsSame(p: Matrix, r0: nat, r1: nat, c0: nat, c1: nat)
    requires r0 <= r1 <= |p| && c0 <= c1 <= Cols(p) && NoNaN(p)
    ensures WindowCells(p, r0, r1, c0, c1, true) == WindowCells(p, r0, r1, c0, c1, false)
    decreases r1 - r0
  {
    if r0 < r1 {
      var row := p[r0][c0..c1];
      assert NaN !in row;
      KeptCellsSame(row);
      WindowCellsSame(p, r0 + 1, r1, c0, c1);
    }
  }

  lemma {:induction false} SearchSame(p: Matrix, i: nat, j: nat, from: nat, maxRadius: int)
    requires i < |p| && j < Cols(p) && NoNaN(p)
    ensures Search(p, i, j, from, maxRadius, true) == Search(p, i, j, from, maxRadius, false)
    decreases maxRadius - from
  {
    if from <= maxRadius {
      WindowCellsSame(p, WindowLo(i, from), WindowHi(i, from, |p|), WindowLo(j, from), WindowHi(j, from, Cols(p)));
      SearchSame(p, i, j, from + 1, maxRadius);
    }
  }

  /** On a grid without NaN cells the correction changes nothing. */
  lemma ExtractCorrectedAgrees(g: Grid, targetLat: real, targetLon: real, maxRadius: int)
    requires NoNaN(g.precip)
    ensures ExtractCorrected(Loaded(g), targetLat, targetLon, maxRadius) == Extract(Loaded(g), targetLat, targetLon, maxRadius)
  {
    if Locate(g, targetLat, targetLon).Some? {
      var loc := Locate(g, targetLat, targetLon).value;
      assert NoNaN(loc.p) by {
        var o := Orient(g);
        assert loc.p == o.precip;
        forall a, b | 0 <= a < |o.precip| && 0 <= b < |o.precip[a]| ensures o.precip[a][b] != NaN {
          if Descending(g.lat) {
            assert o.precip[a] == g.precip[|g.precip| - 1 - a];
          }
        }
      }
      SearchSame(loc.p, loc.i, loc.j, 1, maxRadius);
    }
  }

  /**
   * `extract_precip_at_location(filepath, target_lat, target_lon, max_radius)`,
   * step by step: the axis and the rows are reassigned when flipped, the
   * query longitude when normalised, and the radius loop returns early.
   */
  method ExtractPrecipAtLocation(file: Granule, targetLat: real, targetLon: real, maxRadius: int)
    returns (r: Option<Float>)
    ensures r == Extract(file, targetLat, targetLon, maxRadius)
  {
    if file.Unreadable? {
      return None;
    }
    var loc := LocateCell(file.grid, targetLat, targetLon);
    if loc.None? {
      return None;
    }
    var precip, latIdx, lonIdx := loc.value.p, loc.value.i, loc.value.j;
    var value := precip[latIdx][lonIdx];
    if IsUsable(value) {
      return Some(value);
    }
    r := SearchWindows(precip, latIdx, lonIdx, maxRadius);
  }

  /** Lines 21-35: the axis flip, the longitude normalisation and the two argmins, in place. */
  method LocateCell(g: Grid, targetLat: real, targetLon: real) returns (r: Option<Located>)
    ensures r == Locate(g, targetLat, targetLon)
  {
    var lat, lon, precip := g.lat, g.lon, g.precip;
    var squeezed := Squeezed(precip);
    if |lat| == 0 {
      return None;
    }
    if lat[0] > lat[|lat| - 1] {
      if squeezed {
        return None;
      }
      lat := Reverse(lat);
      precip := ReverseRows(precip);
    }
    assert lat == Orient(g).lat && precip == Orient(g).precip;
    var queryLon := targetLon;
    if queryLon < -180.0 || queryLon > 180.0 {
      queryLon := FloorMod(queryLon + 180.0, 360.0) - 180.0;
    }
    assert queryLon == NormalizeLon(targetLon);
    if |lon| == 0 {
      return None;
    }
    var latIdx := NearestIndex(lat, targetLat);
    var lonIdx := NearestIndex(lon, queryLon);
    if squeezed || latIdx >= |precip| || lonIdx >= Cols(precip) {
      return None;
    }
    r := Some(Located(precip, latIdx, lonIdx));
  }

  /** Lines 42-54: the windows of radius 1..`maxRadius`, with the early return. */
  method SearchWindows(precip: Matrix, latIdx: nat, lonIdx: nat, maxRadius: int) returns (r: Option<Float>)
    requires latIdx < |precip| && lonIdx < Cols(precip)
    ensures r == Search(precip, latIdx, lonIdx, 1, maxRadius, false)
  {
    var radius: nat := 1;
    while radius <= maxRadius
      invariant radius >= 1
      invariant Search(precip, latIdx, lonIdx, radius, maxRadius, false) ==
                Search(precip, latIdx, lonIdx, 1, maxRadius, false)
      decreases maxRadius - radius
    {
      var region := Region(precip, latIdx, lonIdx, radius, false);
      if |region| > 0 {
        return Some(Mean(region));
      }
      radius := radius + 1;
    }
    return None;
  }
}
