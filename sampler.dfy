/** The sampler: reads the first band of a raster, finds the pixels holding a
    positive depth other than the no-data sentinel, keeps at most a fixed
    number of them (a random draw without replacement when there are more),
    and turns each kept pixel into a (longitude, latitude, depth) row. */
module Sampler {
  import opened Common

  /** The default cap on the number of pixels sampled per raster. */
  const SampleLimit: nat := 100000

  /** A grid position: row index, then column index. */
  datatype Pos = Pos(row: nat, col: nat)

  /** An opened raster: its first band, its declared no-data value (if any)
      and its pixel-to-geographic transform, taken as given. */
  datatype Raster = Raster(band: seq<seq<real>>, nodata: Option<real>, xy: (nat, nat) -> (real, real))

  /** The validity mask of one pixel: not the sentinel (when there is one) and
      strictly positive. Without a sentinel only positivity is tested. */
  predicate IsValidDepth(v: real, nodata: Option<real>) {
    (nodata.None? || v != nodata.value) && v > 0.0
  }

  predicate InGrid(band: seq<seq<real>>, p: Pos) {
    p.row < |band| && p.col < |band[p.row]|
  }

  /** Row-major order: `p` comes strictly before `q`. */
  predicate Before(p: Pos, q: Pos) {
    p.row < q.row || (p.row == q.row && p.col < q.col)
  }

  predicate RowMajorSorted(ps: seq<Pos>) {
    forall i, j :: 0 <= i < j < |ps| ==> Before(ps[i], ps[j])
  }

  /** The valid positions of row `r` among its first `c` columns, left to right. */
  function RowPositions(band: seq<seq<real>>, nodata: Option<real>, r: nat, c: nat): (ps: seq<Pos>)
    requires r < |band| && c <= |band[r]|
    ensures forall i :: 0 <= i < |ps| ==> ps[i].row == r && ps[i].col < c
    ensures forall i, j :: 0 <= i < j < |ps| ==> ps[i].col < ps[j].col
  {
    if c == 0 then []
    else
      RowPositions(band, nodata, r, c - 1)
      + (if IsValidDepth(band[r][c - 1], nodata) then [Pos(r, c - 1)] else [])
  }

  /** The valid positions of the first `r` rows, in row-major order. */
  function PositionsUpTo(band: seq<seq<real>>, nodata: Option<real>, r: nat): (ps: seq<Pos>)
    requires r <= |band|
    ensures forall i :: 0 <= i < |ps| ==> ps[i].row < r
    ensures RowMajorSorted(ps)
  {
    if r == 0 then []
    else
      var prev := PositionsUpTo(band, nodata, r - 1);
      var last := RowPositions(band, nodata, r - 1, |band[r - 1]|);
      assert forall i, j :: 0 <= i < |prev| && 0 <= j < |last| ==> Before(prev[i], last[j]);
      prev + last
  }

  /** The positions the validity mask selects, as `argwhere` lists them. */
  function ValidPositions(band: seq<seq<real>>, nodata: Option<real>): seq<Pos> {
    PositionsUpTo(band, nodata, |band|)
  }

  lemma {:induction false} RowPositionsMembers(band: seq<seq<real>>, nodata: Option<real>, r: nat, c: nat, p: Pos)
    requires r < |band| && c <= |band[r]|
    ensures p in RowPositions(band, nodata, r, c) <==>
      p.row == r && p.col < c && IsValidDepth(band[r][p.col], nodata)
  {
    if c > 0 {
      RowPositionsMembers(band, nodata, r, c - 1, p);
    }
  }

  lemma {:induction false} PositionsUpToMembers(band: seq<seq<real>>, nodata: Option<real>, r: nat, p: Pos)
    requires r <= |band|
    ensures p in PositionsUpTo(band, nodata, r) <==>
      p.row < r && InGrid(band, p) && IsValidDepth(band[p.row][p.col], nodata)
  {
    if r > 0 {
      PositionsUpToMembers(band, nodata, r - 1, p);
      RowPositionsMembers(band, nodata, r - 1, |band[r - 1]|, p);
    }
  }

  /** A position is listed exactly when it lies in the grid and passes the
      validity mask; the list is in row-major order, so no position repeats. */
  lemma ValidPositionsSpec(band: seq<seq<real>>, nodata: Option<real>)
    ensures forall p :: p in ValidPositions(band, nodata) <==>
      InGrid(band, p) && IsValidDepth(band[p.row][p.col], nodata)
    ensures RowMajorSorted(ValidPositions(band, nodata))
    ensures NoDuplicates(ValidPositions(band, nodata))
  {
    forall p
      ensures p in ValidPositions(band, nodata) <==>
        InGrid(band, p) && IsValidDepth(band[p.row][p.col], nodata)
    {
      PositionsUpToMembers(band, nodata, |band|, p);
    }
  }

  /** What `numpy.random.choice(n, k, replace=False)` returns: `k` distinct
      indices below `n`. */
  predicate IsDraw(draw: seq<nat>, n: nat, k: nat) {
    |draw| == k && NoDuplicates(draw) && forall i :: 0 <= i < |draw| ==> draw[i] < n
  }

  /** A random source honouring the contract of `numpy.random.choice` without
      replacement: for every population size n and sample size k < n it gives
      k distinct indices below n. */
  ghost predicate IsChoiceSource(choice: (nat, nat) -> seq<nat>) {
    forall n, k :: k < n ==> IsDraw(choice(n, k), n, k)
  }

  /** Fancy indexing: the positions at the drawn indices, in draw order. */
  function Pick(valid: seq<Pos>, draw: seq<nat>): (s: seq<Pos>)
    requires forall i :: 0 <= i < |draw| ==> draw[i] < |valid|
    ensures |s| == |draw|
    ensures forall i :: 0 <= i < |s| ==> s[i] in valid
  {
    seq(|draw|, i requires 0 <= i < |draw| => valid[draw[i]])
  }

  /** The draw contract the random source must honour for this raster and cap:
      when there are more valid positions than the cap, `choice` yields a
      draw of exactly `limit` distinct in-range indices. */
  predicate DrawFits(raster: Raster, limit: nat, choice: (nat, nat) -> seq<nat>) {
    var n := |ValidPositions(raster.band, raster.nodata)|;
    n > limit ==> IsDraw(choice(n, limit), n, limit)
  }

  /** The sample-size conditional: a draw of `limit` positions when there are
      more valid positions than that, otherwise all of them unchanged. */
  function Sample(valid: seq<Pos>, limit: nat, choice: (nat, nat) -> seq<nat>): (s: seq<Pos>)
    requires |valid| > limit ==> IsDraw(choice(|valid|, limit), |valid|, limit)
    ensures |s| == Min(|valid|, limit)
    ensures forall i :: 0 <= i < |s| ==> s[i] in valid
  {
    if |valid| > limit then Pick(valid, choice(|valid|, limit)) else valid
  }

  /** Sampled positions are pairwise distinct when the valid list is, and
      equal the valid list when it does not exceed the cap. */
  lemma SampleDistinct(valid: seq<Pos>, limit: nat, choice: (nat, nat) -> seq<nat>)
    requires |valid| > limit ==> IsDraw(choice(|valid|, limit), |valid|, limit)
    requires NoDuplicates(valid)
    ensures NoDuplicates(Sample(valid, limit, choice))
    ensures |valid| <= limit ==> Sample(valid, limit, choice) == valid
  {
    if |valid| > limit {
      var draw := choice(|valid|, limit);
      var s := Sample(valid, limit, choice);
      forall i, j | 0 <= i < j < |s| ensures s[i] != s[j] {
        assert s[i] == valid[draw[i]] && s[j] == valid[draw[j]];
        assert draw[i] != draw[j];
      }
    }
  }

  /** The sampled positions of a raster under a cap and a random source. */
  function SampledPositions(raster: Raster, limit: nat, choice: (nat, nat) -> seq<nat>): seq<Pos>
    requires DrawFits(raster, limit, choice)
  {
    Sample(ValidPositions(raster.band, raster.nodata), limit, choice)
  }

  /** Every sampled position is a valid pixel of the grid, no position is
      sampled twice, and there are min(valid count, cap) of them. */
  lemma SampledPositionsSpec(raster: Raster, limit: nat, choice: (nat, nat) -> seq<nat>)
    requires DrawFits(raster, limit, choice)
    ensures var s := SampledPositions(raster, limit, choice);
      && |s| == Min(|ValidPositions(raster.band, raster.nodata)|, limit)
      && NoDuplicates(s)
      && forall i :: 0 <= i < |s| ==>
           InGrid(raster.band, s[i]) && IsValidDepth(raster.band[s[i].row][s[i].col], raster.nodata)
  {
    var valid := ValidPositions(raster.band, raster.nodata);
    ValidPositionsSpec(raster.band, raster.nodata);
    SampleDistinct(valid, limit, choice);
  }

  /** The output row of one pixel: its geographic coordinates and raw value. */
  function DepthRow(raster: Raster, p: Pos): Row
    requires InGrid(raster.band, p)
  {
    var (x, y) := raster.xy(p.row, p.col);
    Row(x, y, raster.band[p.row][p.col])
  }

  /** The rows sampling yields for a raster: none when it cannot be opened or
      read, otherwise the depth row of each sampled position, in sampled order.
      There are min(valid count, cap) of them, each with a valid depth. */
  function SampleRows(raster: Option<Raster>, limit: nat, choice: (nat, nat) -> seq<nat>): (rows: seq<Row>)
    requires IsChoiceSource(choice)
    ensures raster.None? ==> rows == []
    ensures raster.Some? ==>
      |rows| == Min(|ValidPositions(raster.value.band, raster.value.nodata)|, limit)
    ensures raster.Some? ==>
      forall k :: 0 <= k < |rows| ==> IsValidDepth(rows[k].depth, raster.value.nodata)
  {
    if raster.None? then []
    else
      var src := raster.value;
      SampledPositionsSpec(src, limit, choice);
      var s := SampledPositions(src, limit, choice);
      seq(|s|, k requires 0 <= k < |s| => DepthRow(src, s[k]))
  }

  /** Samples one raster; `None` stands for a raster that could not be opened
      or read, which yields the empty table with the three columns. Otherwise
      the rows are the depth rows of the sampled positions, in sampled order:
      min(valid count, cap) of them, each with a depth that is positive and not
      the sentinel. */
  method ExtractSampledDepths(raster: Option<Raster>, limit: nat, choice: (nat, nat) -> seq<nat>)
    returns (t: Table)
    requires IsChoiceSource(choice)
    ensures t.columns == Header
    ensures t.rows == SampleRows(raster, limit, choice)
    ensures raster.None? ==> t.rows == []
    ensures raster.Some? ==>
      var s := SampledPositions(raster.value, limit, choice);
      |t.rows| == |s| &&
      forall k :: 0 <= k < |s| ==> InGrid(raster.value.band, s[k]) && t.rows[k] == DepthRow(raster.value, s[k])
    ensures raster.Some? ==>
      |t.rows| == Min(|ValidPositions(raster.value.band, raster.value.nodata)|, limit)
    ensures raster.Some? ==>
      forall k :: 0 <= k < |t.rows| ==> IsValidDepth(t.rows[k].depth, raster.value.nodata)
  {
    if raster.None? {
      return Table(Header, []);
    }
    var src := raster.value;
    var valid := ValidPositions(src.band, src.nodata);
    if |valid| == 0 {
      return Table(Header, []);
    }
    var sampled := Sample(valid, limit, choice);
    SampledPositionsSpec(src, limit, choice);
    var coords: seq<Row> := [];
    for k := 0 to |sampled|
      invariant |coords| == k
      invariant forall j :: 0 <= j < k ==> coords[j] == DepthRow(src, sampled[j])
      invariant forall j :: 0 <= j < k ==> IsValidDepth(coords[j].depth, src.nodata)
    {
      var p := sampled[k];
      var (x, y) := src.xy(p.row, p.col);
      var value := src.band[p.row][p.col];
      coords := coords + [Row(x, y, value)];
    }
    t := Table(Header, coords);
    assert coords == SampleRows(raster, limit, choice);
  }

  /** The validity mask on the sentinel, zero, a negative depth and a small
      positive depth. */
  lemma ValidityExamples()
    ensures !IsValidDepth(3.5, Some(3.5))
    ensures !IsValidDepth(0.0, None) && !IsValidDepth(-5.0, None)
    ensures IsValidDepth(0.01, None) && IsValidDepth(0.01, Some(-9999.0))
  {
  }
}
