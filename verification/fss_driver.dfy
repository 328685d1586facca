/** The core-versus-ROA object extraction driver (Analysis/scripts/core_vs_roa_fss.py):
    its command line, its output folders and the decision taken for each
    time step. Loading the products and writing the tables are I/O and enter
    as parameters and as the outcome's contents. */
module FssDriver {
  import opened Wrappers
  import opened Strings
  import opened Matrix
  import opened Timestamp
  import opened Grid
  import opened Labelling
  import opened Objects

  /** The context region every product is cropped to: latitudes 5 to 20 and
      longitudes -20 to -4. */
  const ContextBox: Box := Box(5.0, 20.0, -20.0, -4.0)

  /** The connectivity passed to field_to_objects for both products. */
  const StepConnectivity: int := 8

  const OutputRoot: string := "/work/scratch-nopw2/mendrika/ASNIE"

  // ---------------------------------------------------------------------------
  // Command line

  /** All of these are ValueError in the script. */
  datatype ArgError = WrongArgCount | BadThreshold | BadMinPixels | BadTimestamp

  /** float(text) and the text f"{x}" prints for that float. */
  datatype Threshold = Threshold(value: real, text: string)

  datatype Config = Config(start: TimeDict, end: TimeDict, core: Threshold, roa: Threshold,
                           minPixels: int, outputCore: string, outputRoa: string)

  /** f"thr_{x}".replace(".", "p") for the printed text of x. */
  function ThresholdTag(text: string): (tag: string)
    ensures StartsWith(tag, "thr_") && '.' !in tag
    ensures |tag| == |text| + 4
  {
    ReplaceCharAppend("thr_", text, '.', 'p');
    ReplaceCharRemoves("thr_" + text, '.', 'p');
    ReplaceChar("thr_" + text, '.', 'p')
  }

  /** Printed floats never contain 'p', so different thresholds give
      different tags and hence different output folders. */
  lemma {:induction false} TagDistinguishes(a: string, b: string)
    requires 'p' !in a && 'p' !in b && ThresholdTag(a) == ThresholdTag(b)
    ensures a == b
  {
    ReplaceCharAppend("thr_", a, '.', 'p');
    ReplaceCharAppend("thr_", b, '.', 'p');
    var ta, tb := ReplaceChar(a, '.', 'p'), ReplaceChar(b, '.', 'p');
    assert ThresholdTag(a)[4..] == ta && ThresholdTag(b)[4..] == tb;
    forall i | 0 <= i < |a| ensures a[i] == b[i] {
      assert a[i] in a && b[i] in b;
      assert ta[i] == tb[i];
    }
  }

  /** The folder the tables of one product are written to. */
  function OutputFolder(product: string, t: Threshold): string
  {
    OutputRoot + "/" + product + "/" + ThresholdTag(t.text)
  }

  /** The two products, and within one product two thresholds that print
      differently, never share an output folder. */
  lemma OutputFoldersDistinct(p1: string, t1: Threshold, p2: string, t2: Threshold)
    requires p1 in {"core", "roa"} && p2 in {"core", "roa"} && 'p' !in t1.text && 'p' !in t2.text
    requires OutputFolder(p1, t1) == OutputFolder(p2, t2)
    ensures p1 == p2 && t1.text == t2.text
  {
    var d1, d2 := OutputFolder(p1, t1), OutputFolder(p2, t2);
    var k := |OutputRoot| + 1;
    assert d1[k] == p1[0] && d2[k] == p2[0];
    var prefix := OutputRoot + "/" + p1 + "/";
    assert d1 == prefix + ThresholdTag(t1.text) && d2 == prefix + ThresholdTag(t2.text);
    assert d1[|prefix|..] == ThresholdTag(t1.text) && d2[|prefix|..] == ThresholdTag(t2.text);
    TagDistinguishes(t1.text, t2.text);
  }

  /** The script's top level up to the loop: exactly five user arguments,
      then float, float and int in argument order, then the two timestamps.
      readFloat stands for float() together with the text the float prints as. */
  function ParseArgs(argv: seq<string>, readFloat: string -> Option<Threshold>): (r: Result<Config, ArgError>)
    ensures |argv| != 6 ==> r == Failure(WrongArgCount)
    ensures |argv| == 6 && readFloat(argv[3]).None? ==> r == Failure(BadThreshold)
    ensures r.Success? <==>
      && |argv| == 6 && readFloat(argv[3]).Some? && readFloat(argv[4]).Some? && ParseInt(argv[5]).Success?
      && StrToTimeDict(argv[1]).Success? && StrToTimeDict(argv[2]).Success?
    ensures r.Success? ==>
      && r.value.start == StrToTimeDict(argv[1]).value && r.value.end == StrToTimeDict(argv[2]).value
      && r.value.core == readFloat(argv[3]).value && r.value.roa == readFloat(argv[4]).value
      && r.value.minPixels == ParseInt(argv[5]).value
      && r.value.outputCore == OutputFolder("core", r.value.core)
      && r.value.outputRoa == OutputFolder("roa", r.value.roa)
  {
    if |argv| != 6 then Failure(WrongArgCount)
    else
      match (readFloat(argv[3]), readFloat(argv[4]))
      case (Some(core), Some(roa)) =>
        (match ParseInt(argv[5])
         case Failure(_) => Failure(BadMinPixels)
         case Success(minPixels) =>
           match (StrToTimeDict(argv[1]), StrToTimeDict(argv[2]))
           case (Success(start), Success(end)) =>
             Success(Config(start, end, core, roa, minPixels, OutputFolder("core", core), OutputFolder("roa", roa)))
           case _ => Failure(BadTimestamp))
      case _ => Failure(BadThreshold)
  }

  // ---------------------------------------------------------------------------
  // Saving

  /** os.path.join(directory, name) for a relative name. */
  function JoinPath(dir: string, name: string): (path: string)
    ensures EndsWith(path, name)
  {
    if dir == [] then name
    else if dir[|dir| - 1] == '/' then dir + name
    else dir + "/" + name
  }

  /** The file save_dataframe writes for time t. */
  function SavePath(dir: string, t: TimeDict): (path: string)
    ensures EndsWith(path, FileName(t))
  {
    JoinPath(dir, FileName(t))
  }

  /** Two steps whose instants print differently write different files. */
  lemma SavePathsDiffer(dir: string, t1: TimeDict, t2: TimeDict)
    requires InFormatRange(t1) && InFormatRange(t2) && t1 != t2
    ensures SavePath(dir, t1) != SavePath(dir, t2)
  {
    FileNameInjective(t1, t2);
    var p1, p2, n1, n2 := SavePath(dir, t1), SavePath(dir, t2), FileName(t1), FileName(t2);
    assert n1 == p1[|p1| - |n1|..] && n2 == p2[|p2| - |n2|..];
  }

  // ---------------------------------------------------------------------------
  // One time step

  /** A loaded product: its data and coordinates, and the cell areas (which
      GeoGrid derives from the coordinates; see README). */
  datatype Product = Product(field: Matrix<Sample>, lats: Matrix<real>, lons: Matrix<real>, area: Matrix<real>)

  /** What the loaders return: data and coordinate arrays of one shape. */
  ghost predicate WellFormed(p: Product)
  {
    Coordinates(p.lats, p.lons) && SameShape(p.area, p.lats) && NonNegative(p.area) && SameShape(p.field, p.lats)
  }

  /** Which exceptions the grid-construction handler catches. The script
      catches ValueError only; the message it prints, "Crop outside domain",
      is what an empty crop (IndexError) means. */
  datatype Handler = CatchValueError | CatchValueAndIndexError

  datatype Crash = UncaughtIndexError | ObjectsFailed(error: ExtractError)

  datatype StepOutcome =
    | MissingFile
    | CropOutside
    | NoExceedance
    | NoObjects
    | Saved(corePath: string, roaPath: string, coreRows: seq<ObjectRecord>, roaRows: seq<ObjectRecord>)
    | Crashed(crash: Crash)

  /** What one pass of the loop found, stage by stage. A stage after the
      first one that ends the pass is not looked at. */
  datatype Observation = Observation(
    loaded: bool,
    coreGrid: Result<GeoGrid, GridError>, roaGrid: Result<GeoGrid, GridError>,
    coreExceeds: bool, roaExceeds: bool,
    coreObjects: Result<seq<ObjectRecord>, ExtractError>, roaObjects: Result<seq<ObjectRecord>, ExtractError>)

  /** GeoGrid(lats, lons, *extent): the crop rectangle, or the error the constructor raises. */
  function GridCheck(p: Product): (r: Result<Rect, GridError>)
    requires Coordinates(p.lats, p.lons)
    ensures r == Failure(EmptySelection) <==> !SomeCellInBox(p.lats, p.lons, ContextBox, DefaultFillValue)
    ensures r.Success? ==> r.value.y0 < r.value.y1 && r.value.x0 < r.value.x1
  {
    CropFailsIffNoCellInBox(p.lats, p.lons, ContextBox, DefaultFillValue);
    match CropBounds(p.lats, p.lons, ContextBox, DefaultFillValue)
    case Failure(e) => Failure(e)
    case Success(rect) =>
      if rect.y0 == rect.y1 || rect.x0 == rect.x1 then Failure(TooSmallForGradient) else Success(rect)
  }

  /** The field as grid.crop returns it. */
  function CroppedField(p: Product, rect: Rect): Matrix<Sample>
    requires rect.y0 <= rect.y1 && rect.x0 <= rect.x1
  {
    SubMatrix(p.field, rect.y0, rect.y1 + 1, rect.x0, rect.x1 + 1)
  }

  function GridFailure(e: GridError, handler: Handler): (out: StepOutcome)
    ensures out == CropOutside || out == Crashed(UncaughtIndexError)
    ensures out == CropOutside <==> e == TooSmallForGradient || handler == CatchValueAndIndexError
  {
    if e == TooSmallForGradient || handler == CatchValueAndIndexError then CropOutside
    else Crashed(UncaughtIndexError)
  }

  /** The loop body's sequence of continue-guarded stages. */
  function Decide(obs: Observation, cfg: Config, t: TimeDict, handler: Handler): StepOutcome
  {
    if !obs.loaded then MissingFile
    else if obs.coreGrid.Failure? then GridFailure(obs.coreGrid.error, handler)
    else if obs.roaGrid.Failure? then GridFailure(obs.roaGrid.error, handler)
    else if !(obs.coreExceeds && obs.roaExceeds) then NoExceedance
    else if obs.coreObjects.Failure? then Crashed(ObjectsFailed(obs.coreObjects.error))
    else if obs.roaObjects.Failure? then Crashed(ObjectsFailed(obs.roaObjects.error))
    else if obs.coreObjects.value == [] || obs.roaObjects.value == [] then NoObjects
    else Saved(SavePath(cfg.outputCore, t), SavePath(cfg.outputRoa, t), obs.coreObjects.value, obs.roaObjects.value)
  }

  /** A step saves exactly when both products loaded, both grids were built,
      both cropped fields reach their thresholds and both object tables are
      non-empty; it then writes both tables under the step's file name. */
  lemma SkipRule(obs: Observation, cfg: Config, t: TimeDict, handler: Handler)
    ensures Decide(obs, cfg, t, handler).Saved? <==>
      && obs.loaded && obs.coreGrid.Success? && obs.roaGrid.Success? && obs.coreExceeds && obs.roaExceeds
      && obs.coreObjects.Success? && obs.roaObjects.Success?
      && obs.coreObjects.value != [] && obs.roaObjects.value != []
    ensures Decide(obs, cfg, t, handler).Saved? ==>
      Decide(obs, cfg, t, handler) ==
        Saved(SavePath(cfg.outputCore, t), SavePath(cfg.outputRoa, t), obs.coreObjects.value, obs.roaObjects.value)
    ensures Decide(obs, cfg, t, handler) == MissingFile <==> !obs.loaded
  {
  }

  /** As written, a product whose coordinates miss the context box ends the
      whole run instead of skipping the step. */
  lemma EmptyCropCrashes(obs: Observation, cfg: Config, t: TimeDict)
    requires obs.loaded && obs.coreGrid == Failure(EmptySelection)
    ensures Decide(obs, cfg, t, CatchValueError) == Crashed(UncaughtIndexError)
  {
  }

  /** Coordinates that are all at latitude 0 lie outside the context box, so
      building the grid fails with the error the script does not catch. */
  lemma EmptyCropReachable()
    ensures var p := Product([[Value(1.0), Value(1.0)]], [[0.0, 0.0]], [[-10.0, -9.0]], [[1.0, 1.0]]);
            WellFormed(p) && GridCheck(p) == Failure(EmptySelection)
  {
    var p := Product([[Value(1.0), Value(1.0)]], [[0.0, 0.0]], [[-10.0, -9.0]], [[1.0, 1.0]]);
    assert !InBoxAt(p.lats, p.lons, ContextBox, DefaultFillValue, 0, 0);
    assert !InBoxAt(p.lats, p.lons, ContextBox, DefaultFillValue, 0, 1);
    assert !SomeCellInBox(p.lats, p.lons, ContextBox, DefaultFillValue);
  }

  /** With the index error caught as well, no grid failure ends the run: a
      crash can only come from the object extraction. */
  lemma CorrectedSkipsEmptyCrop(obs: Observation, cfg: Config, t: TimeDict)
    ensures Decide(obs, cfg, t, CatchValueAndIndexError) != Crashed(UncaughtIndexError)
    ensures obs.loaded && obs.coreGrid.Failure? ==> Decide(obs, cfg, t, CatchValueAndIndexError) == CropOutside
    ensures Decide(obs, cfg, t, CatchValueAndIndexError).Crashed? ==>
      (obs.coreObjects.Failure? || obs.roaObjects.Failure?)
  {
  }

  /** The two handlers differ only on steps where building a grid raised IndexError. */
  lemma HandlersAgree(obs: Observation, cfg: Config, t: TimeDict)
    requires obs.coreGrid != Failure(EmptySelection) && obs.roaGrid != Failure(EmptySelection)
    ensures Decide(obs, cfg, t, CatchValueError) == Decide(obs, cfg, t, CatchValueAndIndexError)
  {
  }

  /** What the object table of one product promises: largest first, and
      every object passes both filters and reaches the threshold on average. */
  ghost predicate Promised(rows: seq<ObjectRecord>, f: Filters)
  {
    && SortedBySize(rows)
    && forall rec :: rec in rows ==> rec.nPix as int >= f.minPixels && rec.size >= f.minArea && f.threshold <= rec.meanVal
  }

  /** The filters the loop passes for one product: its threshold, no area
      minimum, and the min_pixels argument. */
  function StepFilters(cfg: Config, t: Threshold): Filters
  {
    Filters(t.value, 0.0, cfg.minPixels)
  }

  /** The grid GeoGrid(lats, lons, *extent) builds for product p with crop
      rectangle rect: its coordinate and area arrays are p's, cropped. */
  ghost predicate GridOf(g: GeoGrid, p: Product, rect: Rect)
  {
    && g.Valid() && g.fillValue == DefaultFillValue
    && g.y0 == rect.y0 && g.y1 == rect.y1 && g.x0 == rect.x0 && g.x1 == rect.x1
    && g.srcHeight == |p.lats| && g.srcWidth == Width(p.lats)
    && g.lats == g.Crop(p.lats) && g.lons == g.Crop(p.lons) && g.area == g.Crop(p.area)
  }

  /** What field_to_objects(field, threshold, grid, connectivity=8, min_pixels)
      returns when lab, n is the labelling of the thresholded field: no objects
      when nothing reaches the threshold, and otherwise the loop over the
      labels of the 8-connected components, sorted by size. */
  ghost predicate ObjectsResult(field: Matrix<Sample>, grid: GeoGrid, f: Filters, lab: Matrix<nat>, n: nat,
                                r: Result<seq<ObjectRecord>, ExtractError>)
    requires grid.Valid() && IsMatrix(field, grid.Ny, grid.Nx)
  {
    var mask := ThresholdMask(field, f.threshold);
    if !AnySet(mask) then r == Success([])
    else
      && IsComponentLabelling(mask, grid.Ny, grid.Nx, Eight, lab, n)
      && NumberedInScanOrder(grid.Ny, grid.Nx, lab)
      && Labels(field, grid, f, lab)
      && r == match Collect(Outcomes(field, grid, f, lab, n))
              case Failure(e) => Failure(e)
              case Success(rs) => Success(SortBySize(rs))
  }

  /** The outcome of GeoGrid(lats, lons, *extent) on product p: the error of
      the grid check, or p's grid cropped to the check's rectangle. */
  ghost predicate GridBuilt(p: Product, r: Result<GeoGrid, GridError>)
    requires WellFormed(p)
  {
    && (r.Failure? <==> GridCheck(p).Failure?)
    && (r.Failure? ==> r.error == GridCheck(p).error)
    && (r.Success? ==> GridOf(r.value, p, GridCheck(p).value))
  }

  /** The object table of a cropped field on its grid g: the extraction for
      some labelling of the thresholded field. */
  ghost predicate ExtractedFrom(field: Matrix<Sample>, g: GeoGrid, f: Filters, r: Result<seq<ObjectRecord>, ExtractError>)
  {
    && g.Valid() && IsMatrix(field, g.Ny, g.Nx)
    && exists lab: Matrix<nat>, n: nat :: ObjectsResult(field, g, f, lab, n, r)
  }

  /** GeoGrid(lats, lons, *extent) on a loaded product, and its crop of the data. */
  method BuildGrid(p: Product) returns (r: Result<GeoGrid, GridError>, ghost cropped: Matrix<Sample>)
    requires WellFormed(p)
    ensures GridBuilt(p, r)
    ensures r.Success? ==>
      && cropped == CroppedField(p, GridCheck(p).value)
      && IsMatrix(cropped, r.value.Ny, r.value.Nx) && r.value.Crop(p.field) == cropped
  {
    CropFailsIffNoCellInBox(p.lats, p.lons, ContextBox, DefaultFillValue);
    r := GeoGrid.Build(p.lats, p.lons, ContextBox, DefaultFillValue, p.area);
    cropped := [];
    var bounds := CropBounds(p.lats, p.lons, ContextBox, DefaultFillValue);
    if bounds.Success? && r.Failure? {
      assert r.error != EmptySelection;
    }
    if r.Success? {
      var g := r.value;
      assert IsMatrix(p.field, g.srcHeight, g.srcWidth);
      cropped := g.Crop(p.field);
      CropIsCroppedField(p, g, bounds.value);
    }
  }

  lemma CropIsCroppedField(p: Product, g: GeoGrid, rect: Rect)
    requires WellFormed(p) && g.Valid() && GridCheck(p) == Success(rect)
    requires g.y0 == rect.y0 && g.y1 == rect.y1 && g.x0 == rect.x0 && g.x1 == rect.x1
    requires g.srcHeight == |p.lats| && g.srcWidth == Width(p.lats)
    ensures IsMatrix(g.Crop(p.field), g.Ny, g.Nx) && g.Crop(p.field) == CroppedField(p, rect)
  {
    assert IsMatrix(p.field, g.srcHeight, g.srcWidth);
  }

  /** What one pass of the loop body sees on the loaded products (None when
      a loader raised FileNotFoundError): the core grid check, then the ROA
      one, then both exceedance tests on the cropped fields, then the core
      table and, when it did not raise, the ROA table. A stage after the
      first one that ends the pass is not constrained: Decide never looks at it. */
  ghost predicate Observed(cfg: Config, loaded: Option<(Product, Product)>, obs: Observation)
    requires loaded.Some? ==> WellFormed(loaded.value.0) && WellFormed(loaded.value.1)
  {
    && (obs.loaded <==> loaded.Some?)
    && (loaded.Some? ==>
          var (core, roa) := loaded.value;
          && GridBuilt(core, obs.coreGrid)
          && (obs.coreGrid.Success? ==> GridBuilt(roa, obs.roaGrid))
          && (obs.coreGrid.Success? && obs.roaGrid.Success? ==>
                && obs.coreExceeds == AnySet(ThresholdMask(CroppedField(core, GridCheck(core).value), cfg.core.value))
                && obs.roaExceeds == AnySet(ThresholdMask(CroppedField(roa, GridCheck(roa).value), cfg.roa.value))
                && (obs.coreExceeds && obs.roaExceeds ==>
                      && ExtractedFrom(CroppedField(core, GridCheck(core).value), obs.coreGrid.value,
                                       StepFilters(cfg, cfg.core), obs.coreObjects)
                      && (obs.coreObjects.Success? ==>
                            ExtractedFrom(CroppedField(roa, GridCheck(roa).value), obs.roaGrid.value,
                                          StepFilters(cfg, cfg.roa), obs.roaObjects)))))
  }

  /** Two grids with equal coordinates and areas describe every component
      alike: a record depends on its grid only through them. */
  lemma DescribeSameGrid(field: Matrix<Sample>, g1: GeoGrid, g2: GeoGrid, f: Filters, lab: Matrix<nat>, k: nat)
    requires Labels(field, g1, f, lab) && k > 0 && g2.Valid()
    requires g1.Ny == g2.Ny && g1.Nx == g2.Nx && g1.lats == g2.lats && g1.lons == g2.lons && g1.area == g2.area
    ensures Labels(field, g2, f, lab) && Describe(field, g1, f, lab, k) == Describe(field, g2, f, lab, k)
  {
  }

  /** Two grids built from one product with one rectangle hold the same arrays. */
  lemma GridsAgree(p: Product, g1: GeoGrid, g2: GeoGrid, rect: Rect)
    requires GridOf(g1, p, rect) && GridOf(g2, p, rect)
    ensures g1.Ny == g2.Ny && g1.Nx == g2.Nx && g1.lats == g2.lats && g1.lons == g2.lons && g1.area == g2.area
  {
  }

  /** field_to_objects on one field gives one table, whichever of two grids
      with the same arrays, and whichever labelling, it is described with. */
  lemma ExtractionUnique(field: Matrix<Sample>, g1: GeoGrid, g2: GeoGrid, f: Filters,
                         r1: Result<seq<ObjectRecord>, ExtractError>, r2: Result<seq<ObjectRecord>, ExtractError>)
    requires g1.Ny == g2.Ny && g1.Nx == g2.Nx && g1.lats == g2.lats && g1.lons == g2.lons && g1.area == g2.area
    requires ExtractedFrom(field, g1, f, r1) && ExtractedFrom(field, g2, f, r2)
    ensures r1 == r2
  {
    var lab1: Matrix<nat>, n1: nat :| ObjectsResult(field, g1, f, lab1, n1, r1);
    var lab2: Matrix<nat>, n2: nat :| ObjectsResult(field, g2, f, lab2, n2, r2);
    var mask := ThresholdMask(field, f.threshold);
    if AnySet(mask) {
      LabellingUnique(mask, g1.Ny, g1.Nx, Eight, lab1, n1, lab2, n2);
      var outs1, outs2 := Outcomes(field, g1, f, lab1, n1), Outcomes(field, g2, f, lab2, n2);
      forall i | 0 <= i < n1 ensures outs1[i] == outs2[i] {
        DescribeSameGrid(field, g1, g2, f, lab1, i + 1);
      }
      assert outs1 == outs2;
    }
  }

  /** The outcome of a step is determined by what was loaded: two passes that
      observe the same products take the same decision. */
  lemma ObservedDecides(cfg: Config, t: TimeDict, loaded: Option<(Product, Product)>, handler: Handler,
                        o1: Observation, o2: Observation)
    requires loaded.Some? ==> WellFormed(loaded.value.0) && WellFormed(loaded.value.1)
    requires Observed(cfg, loaded, o1) && Observed(cfg, loaded, o2)
    ensures Decide(o1, cfg, t, handler) == Decide(o2, cfg, t, handler)
  {
    if loaded.Some? {
      var (core, roa) := loaded.value;
      SameGridOutcome(core, o1.coreGrid, o2.coreGrid);
      if o1.coreGrid.Success? {
        SameGridOutcome(roa, o1.roaGrid, o2.roaGrid);
        if o1.roaGrid.Success? && o1.coreExceeds && o1.roaExceeds {
          GridsAgree(core, o1.coreGrid.value, o2.coreGrid.value, GridCheck(core).value);
          GridsAgree(roa, o1.roaGrid.value, o2.roaGrid.value, GridCheck(roa).value);
          ExtractionUnique(CroppedField(core, GridCheck(core).value), o1.coreGrid.value, o2.coreGrid.value,
                           StepFilters(cfg, cfg.core), o1.coreObjects, o2.coreObjects);
          if o1.coreObjects.Success? {
            ExtractionUnique(CroppedField(roa, GridCheck(roa).value), o1.roaGrid.value, o2.roaGrid.value,
                             StepFilters(cfg, cfg.roa), o1.roaObjects, o2.roaObjects);
          }
        }
      }
    }
    DecideAgrees(o1, o2, cfg, t, handler);
  }

  /** Decide looks at a stage only when every earlier stage let the pass go on. */
  lemma DecideAgrees(o1: Observation, o2: Observation, cfg: Config, t: TimeDict, handler: Handler)
    requires o1.loaded == o2.loaded
    requires o1.loaded ==> o1.coreGrid.Failure? == o2.coreGrid.Failure?
    requires o1.loaded && o1.coreGrid.Failure? ==> o1.coreGrid.error == o2.coreGrid.error
    requires o1.loaded && o1.coreGrid.Success? ==> o1.roaGrid.Failure? == o2.roaGrid.Failure?
    requires o1.loaded && o1.coreGrid.Success? && o1.roaGrid.Failure? ==> o1.roaGrid.error == o2.roaGrid.error
    requires o1.loaded && o1.coreGrid.Success? && o1.roaGrid.Success? ==>
      o1.coreExceeds == o2.coreExceeds && o1.roaExceeds == o2.roaExceeds
    requires o1.loaded && o1.coreGrid.Success? && o1.roaGrid.Success? && o1.coreExceeds && o1.roaExceeds ==>
      && o1.coreObjects == o2.coreObjects
      && (o1.coreObjects.Success? ==> o1.roaObjects == o2.roaObjects)
    ensures Decide(o1, cfg, t, handler) == Decide(o2, cfg, t, handler)
  {
  }

  /** Building a product's grid twice fails alike or succeeds alike. */
  lemma SameGridOutcome(p: Product, r1: Result<GeoGrid, GridError>, r2: Result<GeoGrid, GridError>)
    requires WellFormed(p) && GridBuilt(p, r1) && GridBuilt(p, r2)
    ensures r1.Failure? == r2.Failure? && (r1.Failure? ==> r1.error == r2.error)
  {
  }

  /** The stages of one pass of the loop body, in the script's order, up to
      the first one that ends the pass. A stage that did not run keeps its
      initial entry. */
  method Observe(cfg: Config, loaded: Option<(Product, Product)>) returns (obs: Observation)
    requires loaded.Some? ==> WellFormed(loaded.value.0) && WellFormed(loaded.value.1)
    ensures Observed(cfg, loaded, obs)
    ensures obs.coreObjects.Success? ==> Promised(obs.coreObjects.value, StepFilters(cfg, cfg.core))
    ensures obs.roaObjects.Success? ==> Promised(obs.roaObjects.value, StepFilters(cfg, cfg.roa))
  {
    obs := Observation(false, Failure(EmptySelection), Failure(EmptySelection), false, false, Success([]), Success([]));
    if loaded.None? {
      return;
    }
    var (core, roa) := loaded.value;
    var gridCore, dataCore := BuildGrid(core);
    obs := obs.(loaded := true, coreGrid := gridCore);
    if gridCore.Failure? {
      return;
    }
    var gridRoa, dataRoa := BuildGrid(roa);
    obs := obs.(roaGrid := gridRoa);
    if gridRoa.Failure? {
      return;
    }
    var gc, gr := gridCore.value, gridRoa.value;
    var cropCore, cropRoa := gc.Crop(core.field), gr.Crop(roa.field);
    var exceedCore := AnySet(ThresholdMask(cropCore, cfg.core.value));
    var exceedRoa := AnySet(ThresholdMask(cropRoa, cfg.roa.value));
    obs := obs.(coreExceeds := exceedCore, roaExceeds := exceedRoa);
    if !(exceedCore && exceedRoa) {
      return;
    }
    ghost var labCore, nCore, labRoa, nRoa;
    var dfCore;
    dfCore, labCore, nCore := ExtractTable(cropCore, gc, StepFilters(cfg, cfg.core));
    obs := obs.(coreObjects := dfCore);
    assert ObjectsResult(cropCore, gc, StepFilters(cfg, cfg.core), labCore, nCore, dfCore);
    if dfCore.Failure? {
      return;
    }
    var dfRoa;
    dfRoa, labRoa, nRoa := ExtractTable(cropRoa, gr, StepFilters(cfg, cfg.roa));
    obs := obs.(roaObjects := dfRoa);
    assert ObjectsResult(cropRoa, gr, StepFilters(cfg, cfg.roa), labRoa, nRoa, dfRoa);
  }

  /** One pass of the loop body: observe the stages, then take the decision.
      A step ends as missing exactly when a loader failed, and a saved step
      writes under its own file name in both output folders. */
  method ProcessStep(cfg: Config, t: TimeDict, loaded: Option<(Product, Product)>, handler: Handler)
    returns (out: StepOutcome, ghost obs: Observation)
    requires loaded.Some? ==> WellFormed(loaded.value.0) && WellFormed(loaded.value.1)
    ensures Observed(cfg, loaded, obs) && out == Decide(obs, cfg, t, handler)
    ensures out == MissingFile <==> loaded.None?
    ensures out.Saved? ==>
      && out.corePath == SavePath(cfg.outputCore, t) && out.roaPath == SavePath(cfg.outputRoa, t)
      && Promised(out.coreRows, StepFilters(cfg, cfg.core)) && Promised(out.roaRows, StepFilters(cfg, cfg.roa))
  {
    var o := Observe(cfg, loaded);
    obs := o;
    out := Decide(o, cfg, t, handler);
    SkipRule(o, cfg, t, handler);
  }

  /** field_to_objects with connectivity 8, as the loop calls it, with the
      labelling it computes as ghost results. */
  method ExtractTable(field: Matrix<Sample>, grid: GeoGrid, f: Filters)
    returns (r: Result<seq<ObjectRecord>, ExtractError>, ghost lab: Matrix<nat>, ghost n: nat)
    requires grid.Valid() && IsMatrix(field, grid.Ny, grid.Nx)
    ensures ObjectsResult(field, grid, f, lab, n, r)
    ensures r.Failure? ==> r.error == ZeroWeights
    ensures r.Success? ==> Promised(r.value, f)
  {
    r, lab, n := FieldToObjects(field, grid, f, StepConnectivity);
    if AnySet(ThresholdMask(field, f.threshold)) {
      if r.Success? {
        ExtractedSound(field, grid, f, lab, n);
      } else {
        ExtractionFailsOnZeroWeights(field, grid, f, lab, n);
      }
    }
  }

  /** Every step of the loads' products is well-formed. */
  ghost predicate AllWellFormed(loads: seq<Option<(Product, Product)>>)
  {
    forall i :: 0 <= i < |loads| && loads[i].Some? ==> WellFormed(loads[i].value.0) && WellFormed(loads[i].value.1)
  }

  /** Each recorded outcome is the decision on what its step observed. */
  ghost predicate StepsDecided(cfg: Config, times: seq<TimeDict>, loads: seq<Option<(Product, Product)>>, handler: Handler,
                               outcomes: seq<StepOutcome>, observed: seq<Observation>)
    requires |loads| == |times| && AllWellFormed(loads)
  {
    && |outcomes| == |observed| <= |times|
    && forall i :: 0 <= i < |outcomes| ==>
         Observed(cfg, loads[i], observed[i]) && outcomes[i] == Decide(observed[i], cfg, times[i], handler)
  }

  lemma StepsDecidedSnoc(cfg: Config, times: seq<TimeDict>, loads: seq<Option<(Product, Product)>>, handler: Handler,
                         outcomes: seq<StepOutcome>, observed: seq<Observation>, out: StepOutcome, obs: Observation)
    requires |loads| == |times| && AllWellFormed(loads)
    requires StepsDecided(cfg, times, loads, handler, outcomes, observed) && |outcomes| < |times|
    requires Observed(cfg, loads[|outcomes|], obs) && out == Decide(obs, cfg, times[|outcomes|], handler)
    ensures StepsDecided(cfg, times, loads, handler, outcomes + [out], observed + [obs])
  {
    var i := |outcomes|;
    forall k | 0 <= k < i + 1
      ensures Observed(cfg, loads[k], (observed + [obs])[k])
      ensures (outcomes + [out])[k] == Decide((observed + [obs])[k], cfg, times[k], handler)
    {
      if k < i {
        assert (observed + [obs])[k] == observed[k] && (outcomes + [out])[k] == outcomes[k];
      }
    }
  }

  /** One pass of the time loop: process the step after those already recorded
      and extend the record with its decision. */
  method NextStep(cfg: Config, times: seq<TimeDict>, loads: seq<Option<(Product, Product)>>, handler: Handler,
                  outcomes: seq<StepOutcome>, ghost observed: seq<Observation>)
    returns (out: StepOutcome, ghost obs: Observation)
    requires |loads| == |times| && AllWellFormed(loads)
    requires StepsDecided(cfg, times, loads, handler, outcomes, observed) && |outcomes| < |times|
    ensures StepsDecided(cfg, times, loads, handler, outcomes + [out], observed + [obs])
  {
    var i := |outcomes|;
    out, obs := ProcessStep(cfg, times[i], loads[i], handler);
    StepsDecidedSnoc(cfg, times, loads, handler, outcomes, observed, out, obs);
  }

  /** The loop over the time steps. A crash ends the run, so the outcomes
      cover a prefix of the steps, and only the last of them can be a crash.
      Each outcome is the decision on what its step observed (ghost results). */
  method Run(cfg: Config, times: seq<TimeDict>, loads: seq<Option<(Product, Product)>>, handler: Handler)
    returns (outcomes: seq<StepOutcome>, ghost observed: seq<Observation>)
    requires |loads| == |times| && AllWellFormed(loads)
    ensures |outcomes| <= |times| && |observed| == |outcomes|
    ensures forall i :: 0 <= i < |outcomes| - 1 ==> !outcomes[i].Crashed?
    ensures |outcomes| < |times| ==> outcomes != [] && outcomes[|outcomes| - 1].Crashed?
    ensures StepsDecided(cfg, times, loads, handler, outcomes, observed)
  {
    outcomes, observed := [], [];
    for i := 0 to |times|
      invariant |outcomes| == i && |observed| == i
      invariant forall k :: 0 <= k < i ==> !outcomes[k].Crashed?
      invariant StepsDecided(cfg, times, loads, handler, outcomes, observed)
    {
      var out;
      ghost var obs;
      out, obs := NextStep(cfg, times, loads, handler, outcomes, observed);
      outcomes, observed := outcomes + [out], observed + [obs];
      if out.Crashed? {
        return;
      }
    }
  }
}
