# ASNIE object extraction: a verified model

This project models the discrete core of the ASNIE convective-object pipeline.

The pipeline extracts "objects" from two gridded products, CORE and ROA. An object is a connected region of a field at or above a threshold. The pipeline writes one CSV table of objects per product and time step, then merges each product's tables into one parquet file.

The model covers the following parts of the source:

- **The `GeoGrid` class** of `Utilities/Scripts/asnie_utils.py` (module `Grid`, class `Grid.GeoGrid`).
  - Cropping to the rows and columns that hold a cell inside a lat/lon box.
  - Cropping any field to that rectangle.
  - Nearest-cell lookup for one point or many.
- **`field_to_objects`** (modules `Labelling` and `Objects`).
  - Thresholding.
  - Labelling the connected components of the mask with 4- or 8-connectivity. An explicit flood fill takes the place of `scipy.ndimage.label`.
  - Dropping small components.
  - The per-component record: count, area, area-weighted centroid, bounding box, mean and maximum.
  - Sorting by area, largest first.
- **`generate_time_steps`** (module `TimeSteps`).
- **The `save_dataframe` file name and its parse by `str_to_time_dict`** (module `Timestamp`).
- **The driver `Analysis/scripts/core_vs_roa_fss.py`** (module `FssDriver`).
  - The argument check and parsing.
  - The threshold tag and output folders.
  - The per-time-step decision to skip or save, and the loop over time steps.
- **The merge script `Utilities/Scripts/merge_dfs.py`** (module `MergeDfs`).
  - The argument and product checks.
  - Threshold-tag normalisation.
  - The input folder and its sorted `*.csv` listing.
  - The output path.
  - The two folder errors.

Arrays are modelled as follows:

- Arrays are `Matrix<T> = seq<seq<T>>` values.
- Instants are minute counts.
- A missing field value (NaN) is `Sample.Missing`, which never passes a threshold.
- Real numbers are exact `real`s.
- Loaders, `float()`, and the filesystem that `merge_dfs.py` sees enter the model as parameters.

The main results:

- **The crop is the minimal rectangle.** The grid fails to build exactly when no cell is in the box.
- **`crop` is a consistent slice.**
- **The lookup returns a nearest cell**, and the row-major unravel of its flat index.
- **The labels are exactly the connected components of the mask.** They are numbered in scan order.
- **Every record satisfies the filters and its value bounds.** The output is a size-sorted permutation of the records.
- **The time schedule is the unique inclusive arithmetic sequence.**
- **Formatting a time and parsing it back round-trips in both directions.**
- **The driver's skip rule holds, and the run stops only at an uncaught error.** Each recorded outcome is the decision on what the step's products give, and the labelling, the tables and hence the decision are determined by the step's inputs.
- **The merge's tag normalisation is idempotent and agrees with the driver's tag.** The merge reads exactly the folder the driver writes, and sees its files' stems as their times.

## Model

| member | source | states |
|---|---|---|
| Grid.CropBounds | Utilities/Scripts/asnie_utils.py:51-65 | the rectangle from the first to the last selected row and column, or `EmptySelection` where `rows[0]` raises on an empty selection |
| Grid.SelectedRows | Utilities/Scripts/asnie_utils.py:61 | `np.where(mask.any(axis=1))`: strictly increasing, in range, and containing a row exactly when the row holds an in-box cell |
| Grid.SelectedCols | Utilities/Scripts/asnie_utils.py:62 | the same for columns: increasing, in range, and containing exactly the columns that hold an in-box cell |
| Grid.CropFailsIffNoCellInBox | Utilities/Scripts/asnie_utils.py:61-64 | the crop fails, and only with `EmptySelection`, exactly when no cell lies in the box |
| Grid.CropIsMinimal | Utilities/Scripts/asnie_utils.py:51-65 | every in-box cell lies in [y0..y1]×[x0..x1], and each of the four edge lines holds an in-box cell |
| Grid.FillValueNeverInBox | Utilities/Scripts/asnie_utils.py:51-59 | a cell whose lat or lon equals the fill value is never in the box |
| Matrix.SubMatrix | Utilities/Scripts/asnie_utils.py:67-68 | numpy's clamped slice `m[r0:r1, c0:c1]`: the row count is the clamped difference |
| Matrix.SubMatrixWithin | Utilities/Scripts/asnie_utils.py:86-87 | an in-range slice has shape (r1-r0)×(c1-c0), and element (i, j) is `m[r0+i][c0+j]` |
| Matrix.UnravelRowMajor | Utilities/Scripts/asnie_utils.py:92 | `np.unravel_index` of `row*Nx+col` on an Ny×Nx grid gives back (row, col), and the flat index is in range |
| Grid.GeoGrid.constructor | Utilities/Scripts/asnie_utils.py:11-38 | the grid keeps the fill value, the crop rectangle, the cropped lats, lons and area, and Ny×Nx as their shape |
| Grid.GeoGrid.Crop | Utilities/Scripts/asnie_utils.py:86-87 | `crop(field)` has shape (y1-y0+1)×(x1-x0+1), the shape of the cropped coordinates, and `crop(field)[i][j] == field[y0+i][x0+j]` |
| Grid.GeoGrid.Build | Utilities/Scripts/asnie_utils.py:11-83 | construction fails with `EmptySelection` exactly when no cell is in the box, and with `TooSmallForGradient` when the crop is one row or one column wide (where `np.gradient` raises); otherwise a valid grid cropped to the minimal rectangle |
| Grid.GeoGrid.Query | Utilities/Scripts/asnie_utils.py:90-92 | returns (row, col) with row < Ny and col < Nx, the unravel of flat index row·Nx+col, that minimises the squared degree distance over all cropped cells |
| Grid.GeoGrid.QueryMany | Utilities/Scripts/asnie_utils.py:94-97 | unequal coordinate lengths are an error (`np.column_stack` raises); otherwise each point gets a nearest in-range cell |
| TimeSteps.GenerateTimeSteps | Utilities/Scripts/asnie_utils.py:101-131 | `EndBeforeStart` when end < start; otherwise a schedule that starts at start, steps by `step_minutes`, stays ≤ end and whose next step passes end |
| TimeSteps.ScheduleElements | Utilities/Scripts/asnie_utils.py:118-131 | element k of the schedule is start + k·step |
| TimeSteps.ScheduleLength | Utilities/Scripts/asnie_utils.py:121-131 | the schedule has (end-start) div step + 1 elements |
| TimeSteps.ScheduleUnique | Utilities/Scripts/asnie_utils.py:118-131 | two sequences satisfying the schedule's description are equal, so the description determines the loop's output |
| Timestamp.FileName | Utilities/Scripts/asnie_utils.py:253-258 | the saved file name ends in `.csv` |
| Timestamp.ZeroPadValue | Utilities/Scripts/asnie_utils.py:254-258 | a zero-padded `%0Nd` rendering reads back as its number, and has exactly N characters when the number fits |
| Timestamp.ZeroPadOfValue | Utilities/Scripts/asnie_utils.py:254-258 | re-padding the value of a digit string to its own width gives the string back |
| Timestamp.DigitsValue | Utilities/Scripts/asnie_utils.py:254-258 | the decimal digits of n read back as n |
| Timestamp.ParseIntDigits | Analysis/scripts/core_vs_roa_fss.py:40-44 | `int()` of a non-empty digit string is its decimal value |
| Timestamp.Slice | Analysis/scripts/core_vs_roa_fss.py:40-44 | Python's clamped slice `s[i:j]` has the clamped length |
| Timestamp.StemSlices | Analysis/scripts/core_vs_roa_fss.py:38-45 | the fixed slices [0:4], [4:6], [6:8], [8:10], [10:12] of a 12-character stem are its five fields |
| Timestamp.StrToTimeDictPieces | Analysis/scripts/core_vs_roa_fss.py:38-45 | `str_to_time_dict` reads the five fields of the stem with `int()` |
| Timestamp.FieldRoundTrip | Utilities/Scripts/asnie_utils.py:254-258 | one zero-padded field has its width, is all digits, and `int()` reads it back |
| Timestamp.FormatParseRoundTrip | Utilities/Scripts/asnie_utils.py:253-258 | for year < 10000 and other fields < 100, the stem has 12 digits and `str_to_time_dict` of it gives the time back |
| Timestamp.ParseFormatRoundTrip | Analysis/scripts/core_vs_roa_fss.py:38-45 | a 12-digit stem that `str_to_time_dict` reads is exactly the stem `save_dataframe` writes for the result |
| Timestamp.FileNameInjective | Utilities/Scripts/asnie_utils.py:253-258 | distinct times in range get distinct 16-character file names, so no step overwrites another |
| Labelling.Label | Utilities/Scripts/asnie_utils.py:158 | `label(mask, structure)`: the labels 1..n mark exactly the mask cells, every label is used, two mask cells share a label exactly when a path of mask cells joins them, and labels are numbered in row-major scan order |
| Labelling.Visit | Utilities/Scripts/asnie_utils.py:158 | looking at a neighbour q of a cell labelled n leaves q labelled n when it is a mask cell, pushing it when it was unlabelled, and keeps the fill's invariants |
| Labelling.VisitNeighbours | Utilities/Scripts/asnie_utils.py:149-158 | visits the 4 or 8 neighbours of the structuring element, after which the popped cell's mask neighbours carry its label |
| Labelling.Fill | Utilities/Scripts/asnie_utils.py:158 | the stack-driven fill ends with the component closed: every labelled cell's mask neighbours are labelled alike |
| Labelling.StartComponent | Utilities/Scripts/asnie_utils.py:158 | an unlabelled mask cell met by the scan gets the next label n+1; the fill only adds labels, keeps every label on a mask cell, leaves every component closed, and keeps the components' first cells in scan order |
| Labelling.ScanRow | Utilities/Scripts/asnie_utils.py:158 | scanning a row starts a new component at each unlabelled mask cell and leaves every mask cell of the row labelled |
| Labelling.SameLabelIffConnected | Utilities/Scripts/asnie_utils.py:158 | two mask cells share a label if and only if a path of mask cells joins them |
| Labelling.LabellingFromInvariants | Utilities/Scripts/asnie_utils.py:158 | the fill's final invariants make the labels the maximal connected components |
| Labelling.NumberingFromSeeds | Utilities/Scripts/asnie_utils.py:158 | labels given out in scan order of their first cell are numbered in scan order |
| Labelling.LabellingUnique | Utilities/Scripts/asnie_utils.py:158 | two component labellings of one mask that are both numbered in scan order are equal, so the labels `label` returns are determined by the mask |
| Labelling.PathKeepsLabel | Utilities/Scripts/asnie_utils.py:158 | along a path of mask cells the label does not change, once components are closed |
| Labelling.AdjacentSymmetric | Utilities/Scripts/asnie_utils.py:149-154 | both structuring elements are symmetric |
| Objects.ConnectivityOf | Utilities/Scripts/asnie_utils.py:149-156 | 8 and 4 choose a structuring element, and every other value is refused |
| Objects.MinOf | Utilities/Scripts/asnie_utils.py:182-185 | `np.min`: a member of the values, at most each of them |
| Objects.MaxOf | Utilities/Scripts/asnie_utils.py:183-188 | `np.max`: a member of the values, at least each of them |
| Objects.AverageWithinRange | Utilities/Scripts/asnie_utils.py:179-180 | an average with non-negative weights of positive sum lies between the minimum and the maximum of the values |
| Objects.MeanWithinRange | Utilities/Scripts/asnie_utils.py:187-188 | the mean of values that are all at least the threshold lies between the threshold and their maximum |
| Objects.CellsWithLabel | Utilities/Scripts/asnie_utils.py:164-165 | `labeled == lab`: exactly the cells with that label, each once, in scan order |
| Objects.DescribeDecision | Utilities/Scripts/asnie_utils.py:167-174 | a component is dropped exactly when it has fewer than `min_pixels` cells or less than `min_area_km2` area, and fails exactly when it passes both filters with a zero area sum |
| Objects.SummaryBounds | Utilities/Scripts/asnie_utils.py:176-192 | lat_min ≤ lat_centroid ≤ lat_max, lon_min ≤ lon_centroid ≤ lon_max, threshold ≤ mean ≤ max, positive size, and elongation 1.0 and eccentricity 0.0 for one pixel |
| Objects.EmittedRecord | Utilities/Scripts/asnie_utils.py:162-221 | an emitted record's `n_pix` is its component's cell count, at least `min_pixels`, and its `size` is the component's area sum, at least `min_area_km2` |
| Objects.EmittedFacts | Utilities/Scripts/asnie_utils.py:162-221 | an emitted record carries its label and every fact a record promises |
| Objects.CollectRecords | Utilities/Scripts/asnie_utils.py:160-221 | the loop over labels appends each emitted record, and stops at the first zero-weight failure |
| Objects.CollectContent | Utilities/Scripts/asnie_utils.py:160-221 | the collected rows are exactly the emitted records |
| Objects.CollectFailure | Utilities/Scripts/asnie_utils.py:179 | the loop fails exactly when some label fails, and with that label's error |
| Objects.SortBySize | Utilities/Scripts/asnie_utils.py:245 | `sort_values("size", ascending=False)`: a permutation in non-increasing size order |
| Objects.InsertBySize | Utilities/Scripts/asnie_utils.py:245 | inserting into a size-sorted list keeps it sorted and adds exactly the record |
| Objects.FieldToObjects | Utilities/Scripts/asnie_utils.py:134-245 | no exceedance gives an empty table before connectivity is checked; a connectivity other than 4 or 8 is an error; otherwise the mask's components are filtered, summarised and sorted by size |
| Objects.ExtractionFailsOnZeroWeights | Utilities/Scripts/asnie_utils.py:179 | the only way the loop fails is `np.average` with zero total weight |
| Objects.SortedContent | Utilities/Scripts/asnie_utils.py:245 | the sorted table holds exactly the emitted records |
| Objects.ExtractedSound | Utilities/Scripts/asnie_utils.py:162-245 | every output record belongs to a component 1..n and satisfies the filters and the value bounds |
| Objects.ExtractedComplete | Utilities/Scripts/asnie_utils.py:162-245 | a component appears in the output exactly when it passes both filters |
| FssDriver.ParseArgs | Analysis/scripts/core_vs_roa_fss.py:26-65 | anything but five user arguments is an error; the first float failure is an error; success exactly when every conversion succeeds, with the fields read from their positions and the output folders built from the tags |
| FssDriver.ThresholdTag | Analysis/scripts/core_vs_roa_fss.py:61-62 | the tag starts with `thr_`, has no `.`, and is four characters longer than the threshold text |
| FssDriver.TagDistinguishes | Analysis/scripts/core_vs_roa_fss.py:61-65 | two threshold texts without `p` that give the same tag are equal, so distinct thresholds write to distinct folders |
| FssDriver.OutputFoldersDistinct | Analysis/scripts/core_vs_roa_fss.py:61-65 | `core` and `roa` never share an output folder, and within one product two thresholds that print differently (without `p`) write to different folders |
| FssDriver.JoinPath | Utilities/Scripts/asnie_utils.py:261 | `os.path.join(output_dir, fname)` ends with the file name |
| FssDriver.SavePath | Utilities/Scripts/asnie_utils.py:249-261 | the saved path ends with the time's file name |
| FssDriver.SavePathsDiffer | Utilities/Scripts/asnie_utils.py:253-261 | in one folder, distinct times in range are saved to distinct paths |
| FssDriver.GridCheck | Analysis/scripts/core_vs_roa_fss.py:80-82 | building a product's grid fails with `EmptySelection` exactly when no cell is in the context box; on success the crop spans at least two rows and two columns |
| FssDriver.GridFailure | Analysis/scripts/core_vs_roa_fss.py:80-85 | the `ValueError` of a too-small crop is caught and skips the step; the `IndexError` of an empty selection is caught only by a handler that catches it |
| FssDriver.SkipRule | Analysis/scripts/core_vs_roa_fss.py:69-121 | a step saves exactly when both files load, both grids build, both crops exceed their thresholds and both tables are non-empty; it then saves the two tables at the two time-named paths; a missing file is reported exactly when loading fails |
| FssDriver.EmptyCropCrashes | Analysis/scripts/core_vs_roa_fss.py:80-85 | as written, a core product with no cell in the context box ends the run with an uncaught `IndexError` |
| FssDriver.EmptyCropReachable | Utilities/Scripts/asnie_utils.py:61-64 | a concrete well-formed product outside the context box makes the grid check fail with `EmptySelection` |
| FssDriver.CorrectedSkipsEmptyCrop | Analysis/scripts/core_vs_roa_fss.py:80-85 | catching `IndexError` too, a grid failure skips the step and only an object-extraction failure can end the run |
| FssDriver.HandlersAgree | Analysis/scripts/core_vs_roa_fss.py:80-85 | without an empty selection the two handlers decide every step alike |
| FssDriver.BuildGrid | Analysis/scripts/core_vs_roa_fss.py:80-88 | the `GeoGrid` builds exactly when the grid check passes, with the same error otherwise; a built grid holds the product's coordinates and area cropped to the check's minimal rectangle, and the cropped field is the product's field through that grid's `crop` |
| FssDriver.Observe | Analysis/scripts/core_vs_roa_fss.py:73-118 | records what one iteration sees, stage by stage, stopping at the first stage that fails: the grids built for the two products, whether each cropped field has a value at or above its threshold, and the table `field_to_objects` gives for each cropped field, which is the size-sorted records of the mask's scan-ordered 8-connected components or the zero-weight failure |
| FssDriver.ExtractTable | Analysis/scripts/core_vs_roa_fss.py:98-114 | `field_to_objects` with connectivity 8: no exceedance gives the empty table; otherwise the result is the size-sorted collection of the outcomes of the mask's 8-connected components, numbered in scan order (the labelling is a ghost result); it fails only on zero weights, and a success meets `min_pixels` and the threshold |
| FssDriver.ProcessStep | Analysis/scripts/core_vs_roa_fss.py:69-121 | the iteration's outcome is the skip-or-save decision on the observation of the loaded products (a ghost result); a missing file is reported exactly when loading fails; a saved step writes the two size-sorted tables at the two time-named paths |
| FssDriver.Run | Analysis/scripts/core_vs_roa_fss.py:67-121 | the loop runs over the time steps in order, never crashes before its last recorded outcome, stops early only at a crash, and each recorded outcome is the decision on an observation of its own step's products |
| FssDriver.NextStep | Analysis/scripts/core_vs_roa_fss.py:67-121 | one pass of the loop extends the record by the decision on the next step's observation |
| FssDriver.ObservedDecides | Analysis/scripts/core_vs_roa_fss.py:69-121 | any two observations of the same loaded products lead to the same decision, so each recorded outcome is a function of its step's inputs alone |
| FssDriver.ExtractionUnique | Utilities/Scripts/asnie_utils.py:134-245 | the table `field_to_objects` gives is determined by the field, the grid's cropped coordinates and area, and the filters |
| MergeDfs.PlanMerge | Utilities/Scripts/merge_dfs.py:7-35 | anything but three user arguments, or a product other than `core`/`roa` after strip and lower, is an error; on success the input folder is base/product/tag and exists, the files are its `*.csv` entries sorted, non-empty, and the output file is base/`parquet`/`{product}_{tag}.parquet` |
| MergeDfs.FolderFailures | Utilities/Scripts/merge_dfs.py:27-35 | a missing input folder is `FolderNotFound`, and an existing folder with no CSV entry is `NoCsvFiles` |
| MergeDfs.NormaliseTag | Utilities/Scripts/merge_dfs.py:20-25 | the normalised tag starts with `thr_` and contains no `.` |
| MergeDfs.TagValue | Utilities/Scripts/merge_dfs.py:20-23 | an optional leading `thr_` is stripped, otherwise the text is kept |
| MergeDfs.NormaliseIdempotent | Utilities/Scripts/merge_dfs.py:20-25 | normalising a normalised tag returns it unchanged |
| MergeDfs.PrefixOptional | Utilities/Scripts/merge_dfs.py:20-25 | `thr_X` and `X` give the same tag when X does not itself start with `thr_` |
| MergeDfs.SameTagAsDriver | Utilities/Scripts/merge_dfs.py:20-25 | for a threshold text, the merge's tag is the extraction driver's tag |
| MergeDfs.ReadsDriverFolder | Utilities/Scripts/merge_dfs.py:27 | with the driver's output root as the base, the folder the merge reads is the folder the driver wrote |
| MergeDfs.PathsUnderBase | Utilities/Scripts/merge_dfs.py:27-62 | the input folder is the base's parts, then the product, then the tag's parts; the output file lies in base/`parquet` |
| MergeDfs.PathOf | Utilities/Scripts/merge_dfs.py:14 | `Path(s)` is rooted when s starts with `/`, and its parts are non-empty, not `.`, and free of `/` |
| MergeDfs.Segments | Utilities/Scripts/merge_dfs.py:14 | splitting on `/` gives at least one segment, none containing `/` |
| MergeDfs.PathOfJoin | Utilities/Scripts/merge_dfs.py:27 | reading back "a/b" is joining b onto the path of a |
| MergeDfs.CsvNames | Utilities/Scripts/merge_dfs.py:32 | `glob("*.csv")`: the entries ending in `.csv`, each as often as listed, and no other |
| MergeDfs.SortNames | Utilities/Scripts/merge_dfs.py:32 | `sorted()`: a permutation in ascending string order |
| MergeDfs.InsertName | Utilities/Scripts/merge_dfs.py:32 | inserting into a sorted list of names keeps it sorted and adds exactly the name |
| MergeDfs.LexTotal | Utilities/Scripts/merge_dfs.py:32 | any two names are ordered one way or the other |
| MergeDfs.LexTrans | Utilities/Scripts/merge_dfs.py:32 | string order is transitive |
| MergeDfs.Stem | Utilities/Scripts/merge_dfs.py:48 | `Path.stem` is a prefix of the name |
| MergeDfs.CsvStem | Utilities/Scripts/merge_dfs.py:48 | the stem of a dot-free name followed by `.csv` is that name |
| MergeDfs.DriverFileStem | Utilities/Scripts/merge_dfs.py:48 | the stem of a file the driver saved is the time's 12-digit stem, which reads back as the time |

## Left out

- Per-cell area (Utilities/Scripts/asnie_utils.py:70-81). It uses `deg2rad`, `np.gradient` and `cos`, all floating point. The area is an input grid of non-negative reals, cropped with the coordinates. The one thing kept from `np.gradient` is that it raises on a crop one row or one column wide.
- Elongation and eccentricity of components with two or more pixels (Utilities/Scripts/asnie_utils.py:193-205). They need a weighted covariance and `np.linalg.eigh`. They are recorded only as `FromCovariance`; the one-pixel values are modelled.
- `compute_fss` (Utilities/Scripts/asnie_utils.py:267-274): floating-point numerics.
- The `cKDTree` internals. The lookup is a linear scan that returns the first nearest cell in row-major order. When several cells are equally near, the tree's choice is not specified.
- pandas, CSV and parquet: building the DataFrame, the column names, `to_csv`, `read_csv`, `concat`, `to_parquet`, `pd.to_datetime`, `os.makedirs`, and all printing. The merge's loop that reads and concatenates the tables is left out for the same reason. What the model does say about it is that the file stems read back as the driver's times.
- Utilities/Scripts/asnie_loaders.py is not part of this model. `load_core`/`load_roa` are a per-step parameter: a pair of products, or nothing for `FileNotFoundError`.
- The calendar. Instants in `generate_time_steps` are minute counts; `datetime` validation and month lengths are not modelled.
- TimeSteps.GenerateTimeSteps: requires a positive step. The driver only uses the default of 15 minutes; a step of zero or less would loop for ever in the source.
- `float()` and the way a float prints. `ParseArgs` takes `readFloat`, which gives the value and the printed text, or nothing when `float()` raises. `str(float)` of the tag is that text.
- Unicode case mapping. `Lower` maps ASCII letters only. No character outside ASCII lowers to one of the letters of `core` or `roa`, so the product check decides the same way.
- POSIX pathlib's special case of a path that starts with exactly two slashes. `Path.exists()` and the directory listing come from a `FileSystem` value.
- Floating-point rounding. Values, sums and averages are exact reals, so bounds such as "the centroid lies in the box" hold exactly here; in floating point they hold only up to rounding.
- Grid.GeoGrid.Build, FssDriver.Observe, FssDriver.ProcessStep, FssDriver.NextStep, FssDriver.Run: require field, coordinate and area matrices of matching rectangular shape (`WellFormed`). numpy would raise on mismatched shapes, and that error path is not modelled.
- Timestamp.ParseInt: accepts the ASCII digits 0-9 only. Python's `int()` also accepts every other Unicode decimal digit (`int("٢٠٢٤") == 2024`, full-width digits too), so `str_to_time_dict` and the `min_pixels` argument accept some inputs that the model rejects.
- Objects.SortBySize: pandas' default sort is not stable, so the order of records of equal size is not fixed. The model's insertion sort is one admissible order, and only the size order and the permutation are promised.
- Labelling.Label: the labels are a `seq` matrix value, not a numpy array updated in place.

## Findings

| source | as written | input that shows it | evidently intended | confidence | as-written member | corrected member |
|---|---|---|---|---|---|---|
| Analysis/scripts/core_vs_roa_fss.py:80-85 with Utilities/Scripts/asnie_utils.py:64 | `except ValueError` around the grid construction; a product with no cell in the context box raises `IndexError` at `rows[0]`, which propagates and ends the whole run | a CORE product whose cells all lie at lon -10..-9 but lat 0, e.g. one row `lats=[[0.0, 0.0]]`, `lons=[[-10.0, -9.0]]` against the box lat 5..20, lon -20..-4 | skip the step with "Crop outside domain", as the message says | not executed | FssDriver.EmptyCropCrashes | FssDriver.CorrectedSkipsEmptyCrop |
