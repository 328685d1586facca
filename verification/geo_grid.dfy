/** GeoGrid (Utilities/Scripts/asnie_utils.py): crops an irregular lat/lon grid
    to the rows and columns that contain a cell inside a lat/lon box, keeps the
    per-cell area of the cropped cells, and answers nearest-cell queries. */
module Grid {
  import opened Wrappers
  import opened Matrix

  /** The constructor's default fill_value, marking cells without geolocation. */
  const DefaultFillValue: real := -999.999

  /** The target region: lat_min, lat_max, lon_min, lon_max. */
  datatype Box = Box(latMin: real, latMax: real, lonMin: real, lonMax: real)

  /** Crop offsets in the original grid, both ends inclusive. */
  datatype Rect = Rect(y0: nat, y1: nat, x0: nat, x1: nat)

  /** IndexError from indexing an empty row/column selection; ValueError from
      np.gradient when the crop has fewer than two rows or columns. */
  datatype GridError = EmptySelection | TooSmallForGradient

  /** query_many is given coordinate arrays of different lengths (np.column_stack raises). */
  datatype QueryError = LengthMismatch

  /** A cell is in the box when neither coordinate is the fill value (those
      become NaN, which fails every comparison) and both lie in their ranges. */
  predicate InBox(lat: real, lon: real, box: Box, fill: real)
  {
    && lat != fill && lon != fill
    && box.latMin <= lat <= box.latMax
    && box.lonMin <= lon <= box.lonMax
  }

  /** lats and lons are two arrays of the same rectangular shape. */
  predicate Coordinates(lats: Matrix<real>, lons: Matrix<real>)
  {
    Rectangular(lats) && SameShape(lons, lats)
  }

  predicate InBoxAt(lats: Matrix<real>, lons: Matrix<real>, box: Box, fill: real, i: nat, j: nat)
    requires Coordinates(lats, lons) && i < |lats| && j < Width(lats)
  {
    InBox(lats[i][j], lons[i][j], box, fill)
  }

  /** mask.any(axis=1)[i]. */
  predicate RowHasInBox(lats: Matrix<real>, lons: Matrix<real>, box: Box, fill: real, i: nat)
    requires Coordinates(lats, lons) && i < |lats|
  {
    exists j :: 0 <= j < Width(lats) && InBoxAt(lats, lons, box, fill, i, j)
  }

  /** mask.any(axis=0)[j]. */
  predicate ColHasInBox(lats: Matrix<real>, lons: Matrix<real>, box: Box, fill: real, j: nat)
    requires Coordinates(lats, lons) && j < Width(lats)
  {
    exists i :: 0 <= i < |lats| && InBoxAt(lats, lons, box, fill, i, j)
  }

  /** np.where(mask.any(axis=1))[0], from row `from` on. */
  function SelectedRows(lats: Matrix<real>, lons: Matrix<real>, box: Box, fill: real, from: nat): (rows: seq<nat>)
    requires Coordinates(lats, lons)
    ensures forall k :: 0 <= k < |rows| ==> from <= rows[k] < |lats|
    ensures forall k, l :: 0 <= k < l < |rows| ==> rows[k] < rows[l]
    ensures forall i :: from <= i < |lats| ==> (i in rows <==> RowHasInBox(lats, lons, box, fill, i))
    decreases |lats| - from
  {
    if from >= |lats| then
      []
    else
      (if RowHasInBox(lats, lons, box, fill, from) then [from] else [])
        + SelectedRows(lats, lons, box, fill, from + 1)
  }

  /** np.where(mask.any(axis=0))[0], from column `from` on. */
  function SelectedCols(lats: Matrix<real>, lons: Matrix<real>, box: Box, fill: real, from: nat): (cols: seq<nat>)
    requires Coordinates(lats, lons)
    ensures forall k :: 0 <= k < |cols| ==> from <= cols[k] < Width(lats)
    ensures forall k, l :: 0 <= k < l < |cols| ==> cols[k] < cols[l]
    ensures forall j :: from <= j < Width(lats) ==> (j in cols <==> ColHasInBox(lats, lons, box, fill, j))
    decreases Width(lats) - from
  {
    if from >= Width(lats) then
      []
    else
      (if ColHasInBox(lats, lons, box, fill, from) then [from] else [])
        + SelectedCols(lats, lons, box, fill, from + 1)
  }

  /** The index part of _crop_with_area: first and last selected row and
      column; indexing the empty selection raises. */
  function CropBounds(lats: Matrix<real>, lons: Matrix<real>, box: Box, fill: real): Result<Rect, GridError>
    requires Coordinates(lats, lons)
  {
    var rows := SelectedRows(lats, lons, box, fill, 0);
    var cols := SelectedCols(lats, lons, box, fill, 0);
    if |rows| == 0 || |cols| == 0 then Failure(EmptySelection)
    else Success(Rect(rows[0], rows[|rows| - 1], cols[0], cols[|cols| - 1]))
  }

  ghost predicate SomeCellInBox(lats: Matrix<real>, lons: Matrix<real>, box: Box, fill: real)
    requires Coordinates(lats, lons)
  {
    exists i, j :: 0 <= i < |lats| && 0 <= j < Width(lats) && InBoxAt(lats, lons, box, fill, i, j)
  }

  /** The crop fails exactly when no cell is in the box. */
  lemma CropFailsIffNoCellInBox(lats: Matrix<real>, lons: Matrix<real>, box: Box, fill: real)
    requires Coordinates(lats, lons)
    ensures CropBounds(lats, lons, box, fill) == Failure(EmptySelection) <==> !SomeCellInBox(lats, lons, box, fill)
    ensures CropBounds(lats, lons, box, fill).Failure? ==> CropBounds(lats, lons, box, fill).error == EmptySelection
  {
    var rows := SelectedRows(lats, lons, box, fill, 0);
    var cols := SelectedCols(lats, lons, box, fill, 0);
    if SomeCellInBox(lats, lons, box, fill) {
      var i, j :| 0 <= i < |lats| && 0 <= j < Width(lats) && InBoxAt(lats, lons, box, fill, i, j);
      assert RowHasInBox(lats, lons, box, fill, i);
      assert ColHasInBox(lats, lons, box, fill, j);
      assert i in rows && j in cols;
    } else {
      forall i | 0 <= i < |lats| ensures !RowHasInBox(lats, lons, box, fill, i) {
      }
      NoRowSelected(lats, lons, box, fill, 0);
    }
  }

  lemma {:induction false} NoRowSelected(lats: Matrix<real>, lons: Matrix<real>, box: Box, fill: real, from: nat)
    requires Coordinates(lats, lons)
    requires forall i :: from <= i < |lats| ==> !RowHasInBox(lats, lons, box, fill, i)
    ensures SelectedRows(lats, lons, box, fill, from) == []
    decreases |lats| - from
  {
    if from < |lats| {
      NoRowSelected(lats, lons, box, fill, from + 1);
    }
  }

  /** The crop is the smallest rectangle holding every in-box cell: every
      in-box cell lies inside it and each of its four edges holds one. */
  lemma CropIsMinimal(lats: Matrix<real>, lons: Matrix<real>, box: Box, fill: real)
    requires Coordinates(lats, lons) && CropBounds(lats, lons, box, fill).Success?
    ensures var r := CropBounds(lats, lons, box, fill).value;
      && r.y0 <= r.y1 < |lats| && r.x0 <= r.x1 < Width(lats)
      && (forall i, j :: 0 <= i < |lats| && 0 <= j < Width(lats) && InBoxAt(lats, lons, box, fill, i, j) ==>
            r.y0 <= i <= r.y1 && r.x0 <= j <= r.x1)
      && RowHasInBox(lats, lons, box, fill, r.y0) && RowHasInBox(lats, lons, box, fill, r.y1)
      && ColHasInBox(lats, lons, box, fill, r.x0) && ColHasInBox(lats, lons, box, fill, r.x1)
  {
    var rows := SelectedRows(lats, lons, box, fill, 0);
    var cols := SelectedCols(lats, lons, box, fill, 0);
    forall i, j | 0 <= i < |lats| && 0 <= j < Width(lats) && InBoxAt(lats, lons, box, fill, i, j)
      ensures rows[0] <= i <= rows[|rows| - 1] && cols[0] <= j <= cols[|cols| - 1]
    {
      assert RowHasInBox(lats, lons, box, fill, i);
      assert ColHasInBox(lats, lons, box, fill, j);
      BetweenEnds(rows, i);
      BetweenEnds(cols, j);
    }
    BetweenEnds(rows, rows[0]);
    BetweenEnds(cols, cols[0]);
    assert rows[|rows| - 1] in rows && cols[|cols| - 1] in cols;
  }

  /** A member of a strictly increasing sequence lies between its ends. */
  lemma BetweenEnds(s: seq<nat>, x: nat)
    requires forall k, l :: 0 <= k < l < |s| ==> s[k] < s[l]
    requires x in s
    ensures s[0] <= x <= s[|s| - 1]
  {
    var k :| 0 <= k < |s| && s[k] == x;
    assert k == 0 || s[0] < s[k];
    assert k == |s| - 1 || s[k] < s[|s| - 1];
  }

  lemma CropInRange(lats: Matrix<real>, lons: Matrix<real>, box: Box, fill: real)
    requires Coordinates(lats, lons) && CropBounds(lats, lons, box, fill).Success?
    ensures var r := CropBounds(lats, lons, box, fill).value;
      r.y0 <= r.y1 < |lats| && r.x0 <= r.x1 < Width(lats)
  {
    var rows := SelectedRows(lats, lons, box, fill, 0);
    var cols := SelectedCols(lats, lons, box, fill, 0);
    assert |rows| == 1 || rows[0] < rows[|rows| - 1];
    assert |cols| == 1 || cols[0] < cols[|cols| - 1];
  }

  /** A cell whose latitude or longitude is the fill value is never in the box. */
  lemma FillValueNeverInBox(lat: real, lon: real, box: Box, fill: real)
    requires lat == fill || lon == fill
    ensures !InBox(lat, lon, box, fill)
  {
  }

  predicate NonNegative(m: Matrix<real>)
  {
    forall i, j :: 0 <= i < |m| && 0 <= j < |m[i]| ==> m[i][j] >= 0.0
  }

  lemma SubMatrixNonNegative(m: Matrix<real>, h: nat, w: nat, r0: nat, r1: nat, c0: nat, c1: nat)
    requires IsMatrix(m, h, w) && NonNegative(m) && r0 <= r1 <= h && c0 <= c1 <= w
    ensures NonNegative(SubMatrix(m, r0, r1, c0, c1))
  {
    SubMatrixWithin(m, h, w, r0, r1, c0, c1);
  }

  /** An immutable cropped grid. The per-cell area is an input of the model:
      the source derives it from the cropped coordinates by finite differences
      (not modelled); here it is given for every cell of the original grid and
      cropped with the coordinates, which allows any non-negative area array
      of the cropped shape. */
  class GeoGrid {
    const fillValue: real
    const lats: Matrix<real>
    const lons: Matrix<real>
    const area: Matrix<real>
    const y0: nat
    const y1: nat
    const x0: nat
    const x1: nat
    const Ny: nat
    const Nx: nat
    /** Shape of the grid the crop was taken from. */
    ghost const srcHeight: nat
    ghost const srcWidth: nat

    ghost predicate Valid()
    {
      && y0 <= y1 < srcHeight && x0 <= x1 < srcWidth
      && Ny == y1 - y0 + 1 && Nx == x1 - x0 + 1 && Ny >= 2 && Nx >= 2
      && IsMatrix(lats, Ny, Nx) && IsMatrix(lons, Ny, Nx) && IsMatrix(area, Ny, Nx)
      && NonNegative(area)
    }

    /** crop(field): the rows y0..y1 and columns x0..x1 of a field on the
        original grid. A field of the original shape gives an Ny x Nx array
        whose (i, j) entry is the field's (y0 + i, x0 + j) entry. */
    function Crop<T>(field: Matrix<T>): (r: Matrix<T>)
      requires Valid()
      ensures IsMatrix(field, srcHeight, srcWidth) ==>
        && IsMatrix(r, Ny, Nx)
        && forall i, j :: 0 <= i < Ny && 0 <= j < Nx ==> r[i][j] == field[y0 + i][x0 + j]
    {
      SubMatrixWithin(field, srcHeight, srcWidth, y0, y1 + 1, x0, x1 + 1);
      SubMatrix(field, y0, y1 + 1, x0, x1 + 1)
    }

    /** Stores a grid cropped to rect. Any rectangle of at least two rows and two
        columns is accepted here; that rect is the minimal one around the cells
        in the box (CropBounds) is established by Build, the only caller that
        models the source's __init__. */
    constructor (lats0: Matrix<real>, lons0: Matrix<real>, fill: real, area0: Matrix<real>, rect: Rect)
      requires IsMatrix(lats0, |lats0|, Width(lats0)) && IsMatrix(lons0, |lats0|, Width(lats0))
      requires IsMatrix(area0, |lats0|, Width(lats0)) && NonNegative(area0)
      requires rect.y0 < rect.y1 < |lats0| && rect.x0 < rect.x1 < Width(lats0)
      ensures Valid()
      ensures fillValue == fill && srcHeight == |lats0| && srcWidth == Width(lats0)
      ensures y0 == rect.y0 && y1 == rect.y1 && x0 == rect.x0 && x1 == rect.x1
      ensures lats == Crop(lats0) && lons == Crop(lons0) && area == Crop(area0)
    {
      var h, w := |lats0|, Width(lats0);
      var r0, r1, c0, c1 := rect.y0, rect.y1 + 1, rect.x0, rect.x1 + 1;
      SubMatrixShape(lats0, h, w, r0, r1, c0, c1);
      SubMatrixShape(lons0, h, w, r0, r1, c0, c1);
      SubMatrixShape(area0, h, w, r0, r1, c0, c1);
      SubMatrixNonNegative(area0, h, w, r0, r1, c0, c1);
      fillValue := fill;
      srcHeight, srcWidth := h, w;
      y0, y1, x0, x1 := rect.y0, rect.y1, rect.x0, rect.x1;
      Ny, Nx := rect.y1 - rect.y0 + 1, rect.x1 - rect.x0 + 1;
      lats, lons, area := SubMatrix(lats0, r0, r1, c0, c1), SubMatrix(lons0, r0, r1, c0, c1), SubMatrix(area0, r0, r1, c0, c1);
    }

    /** GeoGrid(lats, lons, *box, fill_value): raises IndexError when no cell is
        in the box and ValueError when the crop is a single row or column. */
    static method Build(lats0: Matrix<real>, lons0: Matrix<real>, box: Box, fill: real, area0: Matrix<real>)
      returns (r: Result<GeoGrid, GridError>)
      requires Coordinates(lats0, lons0) && SameShape(area0, lats0) && NonNegative(area0)
      ensures CropBounds(lats0, lons0, box, fill).Failure? ==> r == Failure(EmptySelection)
      ensures r == Failure(EmptySelection) <==> !SomeCellInBox(lats0, lons0, box, fill)
      ensures CropBounds(lats0, lons0, box, fill).Success? ==>
        var rect := CropBounds(lats0, lons0, box, fill).value;
        && (r == Failure(TooSmallForGradient) <==> rect.y0 == rect.y1 || rect.x0 == rect.x1)
        && (r.Success? ==>
              && fresh(r.value) && r.value.Valid() && r.value.fillValue == fill
              && r.value.y0 == rect.y0 && r.value.y1 == rect.y1
              && r.value.x0 == rect.x0 && r.value.x1 == rect.x1
              && r.value.srcHeight == |lats0| && r.value.srcWidth == Width(lats0)
              && r.value.lats == r.value.Crop(lats0) && r.value.lons == r.value.Crop(lons0)
              && r.value.area == r.value.Crop(area0))
    {
      CropFailsIffNoCellInBox(lats0, lons0, box, fill);
      var bounds := CropBounds(lats0, lons0, box, fill);
      if bounds.Failure? {
        return Failure(bounds.error);
      }
      var rect := bounds.value;
      if rect.y0 == rect.y1 || rect.x0 == rect.x1 {
        return Failure(TooSmallForGradient);
      }
      CropInRange(lats0, lons0, box, fill);
      assert IsMatrix(lats0, |lats0|, Width(lats0)) && IsMatrix(lons0, |lats0|, Width(lats0));
      assert IsMatrix(area0, |lats0|, Width(lats0));
      var g := new GeoGrid(lats0, lons0, fill, area0, rect);
      return Success(g);
    }

    /** Squared distance in degree space from (lat, lon) to cell (i, j). */
    function SqDist(lat: real, lon: real, i: nat, j: nat): real
      requires Valid() && i < Ny && j < Nx
    {
      (lats[i][j] - lat) * (lats[i][j] - lat) + (lons[i][j] - lon) * (lons[i][j] - lon)
    }

    /** (row, col) is a cell of the cropped grid whose centre is nearest to (lat, lon). */
    ghost predicate IsNearest(lat: real, lon: real, row: nat, col: nat)
      requires Valid()
    {
      && row < Ny && col < Nx
      && forall i, j :: 0 <= i < Ny && 0 <= j < Nx ==> SqDist(lat, lon, row, col) <= SqDist(lat, lon, i, j)
    }

    /** query(lat, lon): the nearest cell centre of the cropped grid, as the
        row-major unravel of its flat index. The source's k-d tree is replaced
        by a scan over all cells. */
    method Query(lat: real, lon: real) returns (row: nat, col: nat)
      requires Valid()
      ensures IsNearest(lat, lon, row, col)
      ensures row * Nx + col < Ny * Nx && Unravel(row * Nx + col, Nx) == (row, col)
    {
      row, col := 0, 0;
      var best := SqDist(lat, lon, 0, 0);
      var i := 0;
      while i < Ny
        invariant 0 <= i <= Ny && row < Ny && col < Nx
        invariant best == SqDist(lat, lon, row, col)
        invariant forall i', j' :: 0 <= i' < i && 0 <= j' < Nx ==> best <= SqDist(lat, lon, i', j')
      {
        var j := 0;
        while j < Nx
          invariant 0 <= j <= Nx && row < Ny && col < Nx
          invariant best == SqDist(lat, lon, row, col)
          invariant forall i', j' :: 0 <= i' < i && 0 <= j' < Nx ==> best <= SqDist(lat, lon, i', j')
          invariant forall j' :: 0 <= j' < j ==> best <= SqDist(lat, lon, i, j')
        {
          var d := SqDist(lat, lon, i, j);
          if d < best {
            row, col, best := i, j, d;
          }
          j := j + 1;
        }
        i := i + 1;
      }
      UnravelRowMajor(row, col, Ny, Nx);
    }

    /** query_many: query applied to parallel arrays of latitudes and longitudes,
        returned as an array of rows and an array of columns. */
    method QueryMany(qlats: seq<real>, qlons: seq<real>) returns (r: Result<(seq<nat>, seq<nat>), QueryError>)
      requires Valid()
      ensures |qlats| != |qlons| <==> r == Failure(LengthMismatch)
      ensures r.Success? ==>
        var (rows, cols) := r.value;
        && |rows| == |cols| == |qlats|
        && forall k :: 0 <= k < |qlats| ==> IsNearest(qlats[k], qlons[k], rows[k], cols[k])
    {
      if |qlats| != |qlons| {
        return Failure(LengthMismatch);
      }
      var rows: seq<nat> := [];
      var cols: seq<nat> := [];
      for k := 0 to |qlats|
        invariant |rows| == |cols| == k
        invariant forall m :: 0 <= m < k ==> IsNearest(qlats[m], qlons[m], rows[m], cols[m])
      {
        var row, col := Query(qlats[k], qlons[k]);
        rows, cols := rows + [row], cols + [col];
      }
      return Success((rows, cols));
    }
  }
}
