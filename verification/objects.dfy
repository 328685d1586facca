/** Object extraction from a gridded field: threshold, connected components,
    size filters, per-object statistics and the sort by size
    (field_to_objects in Utilities/Scripts/asnie_utils.py). */
module Objects {
  import opened Wrappers
  import opened Matrix
  import opened Grid
  import opened Labelling

  /** A field value; Missing stands for NaN, which never passes a threshold. */
  datatype Sample = Missing | Value(v: real)

  datatype ExtractError = InvalidConnectivity | ZeroWeights

  /** Elongation and eccentricity. For objects of two or more pixels they come
      from the eigenvalues of a weighted covariance, which is not modelled. */
  datatype ShapeStats = Exact(elongation: real, eccentricity: real) | FromCovariance

  datatype ObjectRecord = ObjectRecord(
    labelNum: nat,
    latCentroid: real, lonCentroid: real,
    latMin: real, latMax: real, lonMin: real, lonMax: real,
    size: real, nPix: nat,
    meanVal: real, maxVal: real,
    shape: ShapeStats)

  /** The optional arguments of field_to_objects other than the name. */
  datatype Filters = Filters(threshold: real, minArea: real, minPixels: int)

  predicate Exceeds(s: Sample, threshold: real)
  {
    s.Value? && s.v >= threshold
  }

  /** field >= threshold, cell by cell. */
  function ThresholdMask(field: Matrix<Sample>, threshold: real): (mask: Matrix<bool>)
    ensures |mask| == |field|
    ensures forall i :: 0 <= i < |field| ==> |mask[i]| == |field[i]|
    ensures forall i, j :: 0 <= i < |field| && 0 <= j < |field[i]| ==> (mask[i][j] <==> Exceeds(field[i][j], threshold))
  {
    seq(|field|, i requires 0 <= i < |field| =>
      seq(|field[i]|, j requires 0 <= j < |field[i]| => Exceeds(field[i][j], threshold)))
  }

  /** np.any(mask). */
  predicate AnySet(mask: Matrix<bool>)
  {
    exists i, j | 0 <= i < |mask| && 0 <= j < |mask[i]| :: mask[i][j]
  }

  /** The structuring element chosen by the connectivity argument. */
  function ConnectivityOf(connectivity: int): (r: Option<Connectivity>)
    ensures r.Some? <==> connectivity == 4 || connectivity == 8
    ensures r == Some(Eight) <==> connectivity == 8
  {
    if connectivity == 8 then Some(Eight)
    else if connectivity == 4 then Some(Four)
    else None
  }

  // ---------------------------------------------------------------------------
  // Sums, extremes and averages of real sequences

  function Sum(xs: seq<real>): real
  {
    if xs == [] then 0.0 else Sum(xs[..|xs| - 1]) + xs[|xs| - 1]
  }

  /** The weighted sum of xs with weights ws. */
  function Dot(ws: seq<real>, xs: seq<real>): real
    requires |ws| == |xs|
  {
    if ws == [] then 0.0 else Dot(ws[..|ws| - 1], xs[..|xs| - 1]) + ws[|ws| - 1] * xs[|xs| - 1]
  }

  function MinOf(xs: seq<real>): (m: real)
    requires |xs| > 0
    ensures m in xs && forall i :: 0 <= i < |xs| ==> m <= xs[i]
  {
    if |xs| == 1 then xs[0]
    else
      var rest := MinOf(xs[1..]);
      assert forall i :: 1 <= i < |xs| ==> xs[i] == xs[1..][i - 1];
      if xs[0] <= rest then xs[0] else rest
  }

  function MaxOf(xs: seq<real>): (m: real)
    requires |xs| > 0
    ensures m in xs && forall i :: 0 <= i < |xs| ==> xs[i] <= m
  {
    if |xs| == 1 then xs[0]
    else
      var rest := MaxOf(xs[1..]);
      assert forall i :: 1 <= i < |xs| ==> xs[i] == xs[1..][i - 1];
      if xs[0] >= rest then xs[0] else rest
  }

  lemma {:induction false} SumNonNegative(xs: seq<real>)
    requires forall i :: 0 <= i < |xs| ==> xs[i] >= 0.0
    ensures Sum(xs) >= 0.0
    decreases |xs|
  {
    if xs != [] {
      SumNonNegative(xs[..|xs| - 1]);
    }
  }

  /** With non-negative weights, a weighted sum of values in [lo, hi] lies
      between lo and hi times the total weight. */
  lemma DotBetween(ws: seq<real>, xs: seq<real>, lo: real, hi: real)
    requires |ws| == |xs|
    requires forall i :: 0 <= i < |ws| ==> ws[i] >= 0.0 && lo <= xs[i] <= hi
    ensures lo * Sum(ws) <= Dot(ws, xs) <= hi * Sum(ws)
  {
    DotAtLeast(ws, xs, lo);
    DotAtMost(ws, xs, hi);
  }

  lemma {:induction false} DotAtLeast(ws: seq<real>, xs: seq<real>, lo: real)
    requires |ws| == |xs|
    requires forall i :: 0 <= i < |ws| ==> ws[i] >= 0.0 && lo <= xs[i]
    ensures lo * Sum(ws) <= Dot(ws, xs)
    decreases |ws|
  {
    if ws != [] {
      var n := |ws| - 1;
      DotAtLeast(ws[..n], xs[..n], lo);
      LowerStep(lo, Sum(ws[..n]), Dot(ws[..n], xs[..n]), ws[n], xs[n]);
    }
  }

  lemma {:induction false} DotAtMost(ws: seq<real>, xs: seq<real>, hi: real)
    requires |ws| == |xs|
    requires forall i :: 0 <= i < |ws| ==> ws[i] >= 0.0 && xs[i] <= hi
    ensures Dot(ws, xs) <= hi * Sum(ws)
    decreases |ws|
  {
    if ws != [] {
      var n := |ws| - 1;
      DotAtMost(ws[..n], xs[..n], hi);
      UpperStep(hi, Sum(ws[..n]), Dot(ws[..n], xs[..n]), ws[n], xs[n]);
    }
  }

  lemma LowerStep(lo: real, s: real, d: real, w: real, x: real)
    requires lo * s <= d && w >= 0.0 && lo <= x
    ensures lo * (s + w) <= d + w * x
  {
    assert w * x - w * lo == w * (x - lo);
  }

  lemma UpperStep(hi: real, s: real, d: real, w: real, x: real)
    requires d <= hi * s && w >= 0.0 && x <= hi
    ensures d + w * x <= hi * (s + w)
  {
    assert w * hi - w * x == w * (hi - x);
  }

  /** A quotient q = a / s with s > 0 lies in [lo, hi] when a lies in [lo * s, hi * s]. */
  lemma QuotientBetween(a: real, s: real, lo: real, hi: real)
    requires s > 0.0 && lo * s <= a <= hi * s
    ensures lo <= a / s <= hi
  {
    var q := a / s;
    assert (q - lo) * s == a - lo * s;
    assert (hi - q) * s == hi * s - a;
  }

  lemma QuotientAbove(a: real, s: real, lo: real)
    requires s > 0.0 && lo * s <= a
    ensures lo <= a / s
  {
    var q := a / s;
    assert (q - lo) * s == a - lo * s;
  }

  lemma QuotientBelow(a: real, s: real, hi: real)
    requires s > 0.0 && a <= hi * s
    ensures a / s <= hi
  {
    var q := a / s;
    assert (hi - q) * s == hi * s - a;
  }

  lemma WeightedAbove(ws: seq<real>, xs: seq<real>, lo: real)
    requires |ws| == |xs| && Sum(ws) > 0.0 && lo * Sum(ws) <= Dot(ws, xs)
    ensures lo <= Dot(ws, xs) / Sum(ws)
  {
    QuotientAbove(Dot(ws, xs), Sum(ws), lo);
  }

  lemma WeightedBelow(ws: seq<real>, xs: seq<real>, hi: real)
    requires |ws| == |xs| && Sum(ws) > 0.0 && Dot(ws, xs) <= hi * Sum(ws)
    ensures Dot(ws, xs) / Sum(ws) <= hi
  {
    QuotientBelow(Dot(ws, xs), Sum(ws), hi);
  }

  lemma MeanQuotient(xs: seq<real>, lo: real, hi: real)
    requires |xs| > 0 && lo * (|xs| as real) <= Sum(xs) <= hi * (|xs| as real)
    ensures lo <= Sum(xs) / (|xs| as real) <= hi
  {
    QuotientBetween(Sum(xs), |xs| as real, lo, hi);
  }

  /** np.average(xs, weights=ws) lies between the smallest and the largest value. */
  lemma AverageWithinRange(ws: seq<real>, xs: seq<real>)
    requires |ws| == |xs| > 0 && Sum(ws) > 0.0
    requires forall i :: 0 <= i < |ws| ==> ws[i] >= 0.0
    ensures MinOf(xs) <= Dot(ws, xs) / Sum(ws) <= MaxOf(xs)
  {
    var lo, hi := MinOf(xs), MaxOf(xs);
    assert forall i :: 0 <= i < |xs| ==> lo <= xs[i] <= hi;
    DotBetween(ws, xs, lo, hi);
    WeightedAbove(ws, xs, lo);
    WeightedBelow(ws, xs, hi);
  }

  lemma {:induction false} SumAtLeast(xs: seq<real>, lo: real)
    requires forall i :: 0 <= i < |xs| ==> lo <= xs[i]
    ensures lo * (|xs| as real) <= Sum(xs)
    decreases |xs|
  {
    if xs != [] {
      var n := |xs| - 1;
      SumAtLeast(xs[..n], lo);
      LowerStep(lo, n as real, Sum(xs[..n]), 1.0, xs[n]);
    }
  }

  lemma {:induction false} SumAtMost(xs: seq<real>, hi: real)
    requires forall i :: 0 <= i < |xs| ==> xs[i] <= hi
    ensures Sum(xs) <= hi * (|xs| as real)
    decreases |xs|
  {
    if xs != [] {
      var n := |xs| - 1;
      SumAtMost(xs[..n], hi);
      UpperStep(hi, n as real, Sum(xs[..n]), 1.0, xs[n]);
    }
  }

  /** np.mean of values that all reach lo lies between lo and their maximum. */
  lemma MeanWithinRange(xs: seq<real>, lo: real)
    requires |xs| > 0 && forall i :: 0 <= i < |xs| ==> lo <= xs[i]
    ensures lo <= Sum(xs) / (|xs| as real) <= MaxOf(xs)
  {
    var hi := MaxOf(xs);
    assert forall i :: 0 <= i < |xs| ==> xs[i] <= hi;
    SumAtLeast(xs, lo);
    SumAtMost(xs, hi);
    MeanQuotient(xs, lo, hi);
  }

  // ---------------------------------------------------------------------------
  // The cells of one component

  /** The cells of row i from column j on that carry label k, left to right. */
  function RowCells(lab: Matrix<nat>, h: nat, w: nat, k: nat, i: nat, j: nat): (cells: seq<Cell>)
    requires IsMatrix(lab, h, w) && i < h && j <= w
    ensures forall c :: c in cells <==> InGrid(c, h, w) && c.row == i && c.col >= j && LabelAt(lab, h, w, c) == k
    ensures forall a, b :: 0 <= a < b < |cells| ==> ScanBefore(cells[a], cells[b])
    decreases w - j
  {
    if j == w then []
    else
      var rest := RowCells(lab, h, w, k, i, j + 1);
      if lab[i][j] == k then [Cell(i, j)] + rest else rest
  }

  /** lab == k, as the list of its cells from row i on in row-major order:
      each cell with label k exactly once. */
  function CellsFrom(lab: Matrix<nat>, h: nat, w: nat, k: nat, i: nat): (cells: seq<Cell>)
    requires IsMatrix(lab, h, w) && i <= h
    ensures forall c :: c in cells <==> InGrid(c, h, w) && c.row >= i && LabelAt(lab, h, w, c) == k
    ensures forall a, b :: 0 <= a < b < |cells| ==> ScanBefore(cells[a], cells[b])
    decreases h - i
  {
    if i == h then []
    else
      var row, rest := RowCells(lab, h, w, k, i, 0), CellsFrom(lab, h, w, k, i + 1);
      assert forall a :: 0 <= a < |row| ==> row[a] in row;
      assert forall b :: 0 <= b < |rest| ==> rest[b] in rest;
      row + rest
  }

  function CellsWithLabel(lab: Matrix<nat>, h: nat, w: nat, k: nat): (cells: seq<Cell>)
    requires IsMatrix(lab, h, w)
    ensures forall c :: c in cells <==> InGrid(c, h, w) && LabelAt(lab, h, w, c) == k
    ensures forall a :: 0 <= a < |cells| ==> InGrid(cells[a], h, w) && LabelAt(lab, h, w, cells[a]) == k
    ensures forall a, b :: 0 <= a < b < |cells| ==> ScanBefore(cells[a], cells[b])
  {
    var cells := CellsFrom(lab, h, w, k, 0);
    assert forall a :: 0 <= a < |cells| ==> cells[a] in cells;
    cells
  }

  /** m[cells], numpy's boolean-mask selection, in row-major order. */
  function Gather(m: Matrix<real>, h: nat, w: nat, cells: seq<Cell>): (r: seq<real>)
    requires IsMatrix(m, h, w) && forall a :: 0 <= a < |cells| ==> InGrid(cells[a], h, w)
    ensures |r| == |cells|
    ensures forall a :: 0 <= a < |cells| ==> InGrid(cells[a], h, w) && r[a] == m[cells[a].row][cells[a].col]
  {
    seq(|cells|, a requires 0 <= a < |cells| => var c := cells[a]; assert InGrid(c, h, w); m[c.row][c.col])
  }

  /** field[cells] for cells that all pass the threshold. */
  function GatherValues(field: Matrix<Sample>, h: nat, w: nat, cells: seq<Cell>, threshold: real): (r: seq<real>)
    requires IsMatrix(field, h, w)
    requires forall a :: 0 <= a < |cells| ==> InGrid(cells[a], h, w) && Exceeds(field[cells[a].row][cells[a].col], threshold)
    ensures |r| == |cells|
    ensures forall a :: 0 <= a < |cells| ==>
      InGrid(cells[a], h, w) && Exceeds(field[cells[a].row][cells[a].col], threshold) && r[a] == field[cells[a].row][cells[a].col].v
  {
    seq(|cells|, a requires 0 <= a < |cells| =>
      var c := cells[a]; assert InGrid(c, h, w) && Exceeds(field[c.row][c.col], threshold); field[c.row][c.col].v)
  }

  // ---------------------------------------------------------------------------
  // One component

  datatype Outcome = Dropped | Emitted(rec: ObjectRecord) | Failed(error: ExtractError)

  /** The labelling is a labelling of the thresholded field on the grid. */
  ghost predicate Labels(field: Matrix<Sample>, grid: GeoGrid, f: Filters, lab: Matrix<nat>)
  {
    && grid.Valid() && IsMatrix(field, grid.Ny, grid.Nx) && IsMatrix(lab, grid.Ny, grid.Nx)
    && forall c :: InGrid(c, grid.Ny, grid.Nx) && LabelAt(lab, grid.Ny, grid.Nx, c) > 0 ==>
         Exceeds(field[c.row][c.col], f.threshold)
  }

  /** The cells of a component lie on the grid and pass the threshold. */
  ghost predicate ComponentCells(field: Matrix<Sample>, grid: GeoGrid, threshold: real, cells: seq<Cell>)
  {
    && grid.Valid() && IsMatrix(field, grid.Ny, grid.Nx)
    && forall a :: 0 <= a < |cells| ==>
         InGrid(cells[a], grid.Ny, grid.Nx) && Exceeds(field[cells[a].row][cells[a].col], threshold)
  }

  /** The record of component k, whose cells have a positive area sum: the
      area-weighted centroid (np.average), the bounding box, the area sum, the
      count, and the mean and maximum of the field. */
  function Summarize(field: Matrix<Sample>, grid: GeoGrid, threshold: real, k: nat, cells: seq<Cell>): ObjectRecord
    requires ComponentCells(field, grid, threshold, cells)
    requires Sum(Gather(grid.area, grid.Ny, grid.Nx, cells)) != 0.0
  {
    var h, w := grid.Ny, grid.Nx;
    var weights := Gather(grid.area, h, w, cells);
    var size := Sum(weights);
    assert cells != [];
    var lats, lons := Gather(grid.lats, h, w, cells), Gather(grid.lons, h, w, cells);
    var values := GatherValues(field, h, w, cells, threshold);
    ObjectRecord(
      k,
      Dot(weights, lats) / size, Dot(weights, lons) / size,
      MinOf(lats), MaxOf(lats), MinOf(lons), MaxOf(lons),
      size, |cells|,
      Sum(values) / (|cells| as real), MaxOf(values),
      if |cells| < 2 then Exact(1.0, 0.0) else FromCovariance)
  }

  /** One pass of the loop over labels: drop the component when it has fewer
      than minPixels cells or less than minArea area; np.average raises when
      the area weights sum to zero; otherwise its record. */
  function Describe(field: Matrix<Sample>, grid: GeoGrid, f: Filters, lab: Matrix<nat>, k: nat): Outcome
    requires Labels(field, grid, f, lab) && k > 0
  {
    var cells := CellsWithLabel(lab, grid.Ny, grid.Nx, k);
    if |cells| < f.minPixels then Dropped
    else
      var size := Sum(Gather(grid.area, grid.Ny, grid.Nx, cells));
      if size < f.minArea then Dropped
      else if size == 0.0 then Failed(ZeroWeights)
      else Emitted(Summarize(field, grid, f.threshold, k, cells))
  }

  /** Dropping and failing depend only on the cell count and the area sum. */
  lemma DescribeDecision(field: Matrix<Sample>, grid: GeoGrid, f: Filters, lab: Matrix<nat>, k: nat)
    requires Labels(field, grid, f, lab) && k > 0
    ensures var cells := CellsWithLabel(lab, grid.Ny, grid.Nx, k);
            var size := Sum(Gather(grid.area, grid.Ny, grid.Nx, cells));
            && (Describe(field, grid, f, lab, k) == Dropped <==> |cells| < f.minPixels || size < f.minArea)
            && (Describe(field, grid, f, lab, k) == Failed(ZeroWeights) <==>
                  |cells| >= f.minPixels && f.minArea <= size && size == 0.0)
  {
  }

  /** The summary's values are where they must be: the centroid inside the
      bounding box, the mean between the threshold and the maximum, a positive
      area, and the fixed shape of a one-pixel object. */
  lemma SummaryBounds(field: Matrix<Sample>, grid: GeoGrid, threshold: real, k: nat, cells: seq<Cell>)
    requires ComponentCells(field, grid, threshold, cells)
    requires Sum(Gather(grid.area, grid.Ny, grid.Nx, cells)) != 0.0
    ensures var rec := Summarize(field, grid, threshold, k, cells);
            && rec.labelNum == k && rec.nPix == |cells| > 0
            && rec.size == Sum(Gather(grid.area, grid.Ny, grid.Nx, cells)) > 0.0
            && rec.latMin <= rec.latCentroid <= rec.latMax
            && rec.lonMin <= rec.lonCentroid <= rec.lonMax
            && threshold <= rec.meanVal <= rec.maxVal
            && (rec.nPix == 1 ==> rec.shape == Exact(1.0, 0.0))
  {
    var h, w := grid.Ny, grid.Nx;
    var weights := Gather(grid.area, h, w, cells);
    forall a | 0 <= a < |weights| ensures weights[a] >= 0.0 {
      var c := cells[a];
      assert InGrid(c, h, w);
    }
    SumNonNegative(weights);
    AverageWithinRange(weights, Gather(grid.lats, h, w, cells));
    AverageWithinRange(weights, Gather(grid.lons, h, w, cells));
    var values := GatherValues(field, h, w, cells, threshold);
    MeanWithinRange(values, threshold);
  }

  /** What an emitted record says about its component: the filters hold, and
      the count and the area are those of the cells labelled k. */
  lemma EmittedRecord(field: Matrix<Sample>, grid: GeoGrid, f: Filters, lab: Matrix<nat>, k: nat)
    requires Labels(field, grid, f, lab) && k > 0
    requires Describe(field, grid, f, lab, k).Emitted?
    ensures var rec := Describe(field, grid, f, lab, k).rec;
            var cells := CellsWithLabel(lab, grid.Ny, grid.Nx, k);
            && rec == Summarize(field, grid, f.threshold, k, cells)
            && rec.labelNum == k
            && rec.nPix == |cells| && rec.nPix as int >= f.minPixels
            && rec.size == Sum(Gather(grid.area, grid.Ny, grid.Nx, cells)) && rec.size >= f.minArea
  {
    var cells := CellsWithLabel(lab, grid.Ny, grid.Nx, k);
    SummaryBounds(field, grid, f.threshold, k, cells);
  }

  /** Everything a record promises about the component it describes. */
  ghost predicate RecordFacts(field: Matrix<Sample>, grid: GeoGrid, f: Filters, lab: Matrix<nat>, rec: ObjectRecord)
    requires Labels(field, grid, f, lab)
  {
    var cells := CellsWithLabel(lab, grid.Ny, grid.Nx, rec.labelNum);
    && rec.nPix == |cells| && rec.nPix as int >= f.minPixels && rec.nPix > 0
    && rec.size == Sum(Gather(grid.area, grid.Ny, grid.Nx, cells)) && rec.size >= f.minArea && rec.size > 0.0
    && rec.latMin <= rec.latCentroid <= rec.latMax
    && rec.lonMin <= rec.lonCentroid <= rec.lonMax
    && f.threshold <= rec.meanVal <= rec.maxVal
    && (rec.nPix == 1 ==> rec.shape == Exact(1.0, 0.0))
  }

  lemma EmittedFacts(field: Matrix<Sample>, grid: GeoGrid, f: Filters, lab: Matrix<nat>, k: nat)
    requires Labels(field, grid, f, lab) && k > 0 && Describe(field, grid, f, lab, k).Emitted?
    ensures Describe(field, grid, f, lab, k).rec.labelNum == k
    ensures RecordFacts(field, grid, f, lab, Describe(field, grid, f, lab, k).rec)
  {
    EmittedRecord(field, grid, f, lab, k);
    SummaryBounds(field, grid, f.threshold, k, CellsWithLabel(lab, grid.Ny, grid.Nx, k));
  }

  // ---------------------------------------------------------------------------
  // The loop over labels

  /** The outcome of every label 1..n, in order. */
  function Outcomes(field: Matrix<Sample>, grid: GeoGrid, f: Filters, lab: Matrix<nat>, n: nat): (outs: seq<Outcome>)
    requires Labels(field, grid, f, lab)
    ensures |outs| == n && forall i :: 0 <= i < n ==> outs[i] == Describe(field, grid, f, lab, i + 1)
  {
    seq(n, i requires 0 <= i < n => Describe(field, grid, f, lab, i + 1))
  }

  /** The rows list after the loop has seen the given outcomes: the first
      failure ends the loop with that error. */
  function Collect(outs: seq<Outcome>): Result<seq<ObjectRecord>, ExtractError>
  {
    if outs == [] then Success([])
    else
      match Collect(outs[..|outs| - 1])
      case Failure(e) => Failure(e)
      case Success(rs) =>
        match outs[|outs| - 1]
        case Dropped => Success(rs)
        case Emitted(rec) => Success(rs + [rec])
        case Failed(e) => Failure(e)
  }

  lemma CollectSnoc(outs: seq<Outcome>, o: Outcome)
    ensures Collect(outs + [o]) ==
      match Collect(outs)
      case Failure(e) => Failure(e)
      case Success(rs) =>
        match o
        case Dropped => Success(rs)
        case Emitted(rec) => Success(rs + [rec])
        case Failed(e) => Failure(e)
  {
    assert (outs + [o])[..|outs|] == outs;
  }

  /** One more step of the loop over a prefix of the outcomes. */
  lemma CollectPrefix(outs: seq<Outcome>, k: nat)
    requires 1 <= k <= |outs|
    ensures Collect(outs[..k]) ==
      match Collect(outs[..k - 1])
      case Failure(e) => Failure(e)
      case Success(rs) =>
        match outs[k - 1]
        case Dropped => Success(rs)
        case Emitted(rec) => Success(rs + [rec])
        case Failed(e) => Failure(e)
  {
    assert outs[..k] == outs[..k - 1] + [outs[k - 1]];
    CollectSnoc(outs[..k - 1], outs[k - 1]);
  }

  lemma {:induction false} FailureSticks(outs: seq<Outcome>, k: nat)
    requires k <= |outs| && Collect(outs[..k]).Failure?
    ensures Collect(outs) == Collect(outs[..k])
    decreases |outs| - k
  {
    if k < |outs| {
      var prefix := outs[..|outs| - 1];
      assert prefix[..k] == outs[..k];
      FailureSticks(prefix, k);
    } else {
      assert outs[..k] == outs;
    }
  }

  /** The loop fails exactly when some outcome is a failure, and then with the
      first failure's error. */
  lemma {:induction false} CollectFailure(outs: seq<Outcome>)
    ensures Collect(outs).Failure? <==> exists i :: 0 <= i < |outs| && outs[i].Failed?
    ensures Collect(outs).Failure? ==>
      exists i :: 0 <= i < |outs| && outs[i] == Failed(Collect(outs).error)
                  && forall j :: 0 <= j < i ==> !outs[j].Failed?
    decreases |outs|
  {
    if outs != [] {
      var prefix := outs[..|outs| - 1];
      CollectFailure(prefix);
      assert forall i :: 0 <= i < |prefix| ==> prefix[i] == outs[i];
    }
  }

  /** Without failure, the rows are exactly the emitted records. */
  lemma {:induction false} CollectContent(outs: seq<Outcome>)
    requires Collect(outs).Success?
    ensures forall rec :: rec in Collect(outs).value <==> exists i :: 0 <= i < |outs| && outs[i] == Emitted(rec)
    decreases |outs|
  {
    if outs != [] {
      var prefix := outs[..|outs| - 1];
      CollectContent(prefix);
      assert forall i :: 0 <= i < |prefix| ==> prefix[i] == outs[i];
    }
  }

  /** The loop of field_to_objects over labels 1..n, appending one record per
      component that passes the filters. */
  method CollectRecords(field: Matrix<Sample>, grid: GeoGrid, f: Filters, lab: Matrix<nat>, n: nat)
    returns (r: Result<seq<ObjectRecord>, ExtractError>)
    requires Labels(field, grid, f, lab)
    ensures r == Collect(Outcomes(field, grid, f, lab, n))
  {
    ghost var outs := Outcomes(field, grid, f, lab, n);
    var rows: seq<ObjectRecord> := [];
    for k := 1 to n + 1
      invariant Collect(outs[..k - 1]) == Success(rows)
    {
      var d := Describe(field, grid, f, lab, k);
      CollectPrefix(outs, k);
      match d
      case Dropped =>
      case Emitted(rec) =>
        rows := rows + [rec];
      case Failed(e) =>
        FailureSticks(outs, k);
        return Failure(e);
    }
    assert outs[..n] == outs;
    return Success(rows);
  }

  // ---------------------------------------------------------------------------
  // Sorting by size, largest first

  predicate SortedBySize(rs: seq<ObjectRecord>)
  {
    forall i, j :: 0 <= i < j < |rs| ==> rs[i].size >= rs[j].size
  }

  function InsertBySize(rec: ObjectRecord, rs: seq<ObjectRecord>): (r: seq<ObjectRecord>)
    requires SortedBySize(rs)
    ensures SortedBySize(r) && multiset(r) == multiset(rs) + multiset{rec}
    ensures forall i :: 0 <= i < |r| ==> r[i] == rec || r[i] in rs
  {
    if rs == [] then [rec]
    else if rec.size >= rs[0].size then [rec] + rs
    else
      var rest := InsertBySize(rec, rs[1..]);
      assert rs == [rs[0]] + rs[1..];
      HeadAboveRest(rs[0], rec, rs[1..], rest);
      [rs[0]] + rest
  }

  lemma HeadAboveRest(head: ObjectRecord, rec: ObjectRecord, tail: seq<ObjectRecord>, rest: seq<ObjectRecord>)
    requires SortedBySize([head] + tail) && SortedBySize(rest) && rec.size < head.size
    requires forall i :: 0 <= i < |rest| ==> rest[i] == rec || rest[i] in tail
    ensures SortedBySize([head] + rest)
  {
    forall j | 0 <= j < |rest| ensures head.size >= rest[j].size {
      if rest[j] != rec {
        var t := [head] + tail;
        var m :| 0 <= m < |tail| && tail[m] == rest[j];
        assert t[0] == head && t[m + 1] == rest[j];
        assert t[0].size >= t[m + 1].size;
      }
    }
    var s := [head] + rest;
    forall i, j | 0 <= i < j < |s| ensures s[i].size >= s[j].size {
      if i > 0 {
        assert s[i] == rest[i - 1] && s[j] == rest[j - 1];
      }
    }
  }

  /** df.sort_values("size", ascending=False): a permutation in non-increasing
      size order. pandas' default sort is not stable, so the order of equal
      sizes is not promised; this insertion sort is one admissible result. */
  function SortBySize(rs: seq<ObjectRecord>): (r: seq<ObjectRecord>)
    ensures SortedBySize(r) && multiset(r) == multiset(rs)
  {
    if rs == [] then []
    else
      assert rs == [rs[0]] + rs[1..];
      InsertBySize(rs[0], SortBySize(rs[1..]))
  }

  // ---------------------------------------------------------------------------
  // field_to_objects

  /** field_to_objects: an all-below-threshold field gives no objects before
      the connectivity is looked at; a connectivity other than 4 or 8 is an
      error; otherwise the components of the thresholded mask (ghost results
      lab and n) are filtered and summarised by the loop over labels, and
      the records are sorted by size, largest first. */
  method FieldToObjects(field: Matrix<Sample>, grid: GeoGrid, f: Filters, connectivity: int)
    returns (r: Result<seq<ObjectRecord>, ExtractError>, ghost lab: Matrix<nat>, ghost n: nat)
    requires grid.Valid() && IsMatrix(field, grid.Ny, grid.Nx)
    ensures !AnySet(ThresholdMask(field, f.threshold)) ==> r == Success([])
    ensures AnySet(ThresholdMask(field, f.threshold)) && ConnectivityOf(connectivity).None? ==>
      r == Failure(InvalidConnectivity)
    ensures AnySet(ThresholdMask(field, f.threshold)) && ConnectivityOf(connectivity).Some? ==>
      && IsComponentLabelling(ThresholdMask(field, f.threshold), grid.Ny, grid.Nx, ConnectivityOf(connectivity).value, lab, n)
      && NumberedInScanOrder(grid.Ny, grid.Nx, lab)
      && Labels(field, grid, f, lab)
      && r == match Collect(Outcomes(field, grid, f, lab, n))
              case Failure(e) => Failure(e)
              case Success(rs) => Success(SortBySize(rs))
  {
    lab, n := [], 0;
    var mask := ThresholdMask(field, f.threshold);
    if !AnySet(mask) {
      return Success([]), lab, n;
    }
    var conn := ConnectivityOf(connectivity);
    if conn.None? {
      return Failure(InvalidConnectivity), lab, n;
    }
    var labels, count := Label(mask, grid.Ny, grid.Nx, conn.value);
    lab, n := labels, count;
    var rows := CollectRecords(field, grid, f, labels, count);
    match rows
    case Failure(e) =>
      r := Failure(e);
    case Success(rs) =>
      r := Success(SortBySize(rs));
  }

  /** The loop over labels fails only where np.average divides by a zero
      area sum. */
  lemma ExtractionFailsOnZeroWeights(field: Matrix<Sample>, grid: GeoGrid, f: Filters, lab: Matrix<nat>, n: nat)
    requires Labels(field, grid, f, lab)
    ensures Collect(Outcomes(field, grid, f, lab, n)).Failure? ==> Collect(Outcomes(field, grid, f, lab, n)).error == ZeroWeights
  {
    var outs := Outcomes(field, grid, f, lab, n);
    CollectFailure(outs);
    if Collect(outs).Failure? {
      var i :| 0 <= i < |outs| && outs[i] == Failed(Collect(outs).error);
      assert outs[i] == Describe(field, grid, f, lab, i + 1);
    }
  }

  /** The sorted rows are exactly the emitted records of the loop. */
  lemma SortedContent(outs: seq<Outcome>)
    requires Collect(outs).Success?
    ensures forall rec :: rec in SortBySize(Collect(outs).value) <==> exists i :: 0 <= i < |outs| && outs[i] == Emitted(rec)
  {
    var rs := Collect(outs).value;
    CollectContent(outs);
    forall rec ensures rec in SortBySize(rs) <==> rec in rs {
      assert rec in SortBySize(rs) <==> rec in multiset(SortBySize(rs));
    }
  }

  /** Every record of a successful extraction belongs to one of the n
      components and satisfies both filters, with its own pixel count and
      area, the centroid inside the bounding box and the mean between the
      threshold and the maximum. */
  lemma ExtractedSound(field: Matrix<Sample>, grid: GeoGrid, f: Filters, lab: Matrix<nat>, n: nat)
    requires Labels(field, grid, f, lab) && Collect(Outcomes(field, grid, f, lab, n)).Success?
    ensures forall rec :: rec in SortBySize(Collect(Outcomes(field, grid, f, lab, n)).value) ==>
              1 <= rec.labelNum <= n && RecordFacts(field, grid, f, lab, rec)
  {
    var outs := Outcomes(field, grid, f, lab, n);
    SortedContent(outs);
    forall rec | rec in SortBySize(Collect(outs).value)
      ensures 1 <= rec.labelNum <= n && RecordFacts(field, grid, f, lab, rec)
    {
      var i :| 0 <= i < n && outs[i] == Emitted(rec);
      EmittedFacts(field, grid, f, lab, i + 1);
    }
  }

  /** A component yields a record of a successful extraction exactly when it
      passes both filters. */
  lemma ExtractedComplete(field: Matrix<Sample>, grid: GeoGrid, f: Filters, lab: Matrix<nat>, n: nat, k: nat)
    requires Labels(field, grid, f, lab) && Collect(Outcomes(field, grid, f, lab, n)).Success? && 1 <= k <= n
    ensures Describe(field, grid, f, lab, k).Emitted? <==>
              exists rec :: rec in SortBySize(Collect(Outcomes(field, grid, f, lab, n)).value) && rec.labelNum == k
  {
    var outs := Outcomes(field, grid, f, lab, n);
    var out := SortBySize(Collect(outs).value);
    SortedContent(outs);
    var o := outs[k - 1];
    assert o == Describe(field, grid, f, lab, k);
    if o.Emitted? {
      EmittedLabel(field, grid, f, lab, k);
      assert o.rec in out;
    }
    if exists rec :: rec in out && rec.labelNum == k {
      var rec :| rec in out && rec.labelNum == k;
      var i :| 0 <= i < n && outs[i] == Emitted(rec);
      EmittedLabel(field, grid, f, lab, i + 1);
    }
  }

  /** An emitted record carries its own label. */
  lemma EmittedLabel(field: Matrix<Sample>, grid: GeoGrid, f: Filters, lab: Matrix<nat>, k: nat)
    requires Labels(field, grid, f, lab) && k > 0 && Describe(field, grid, f, lab, k).Emitted?
    ensures Describe(field, grid, f, lab, k).rec.labelNum == k
  {
  }
}
