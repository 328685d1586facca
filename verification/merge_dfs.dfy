/** The merge step (Utilities/Scripts/merge_dfs.py): its command line, the
    threshold-tag normalisation, the input folder and its CSV listing, and the
    output file. Reading, concatenating and writing the tables is I/O and is
    not modelled; the filesystem enters as the set of existing paths and the
    entry names of each directory. */
module MergeDfs {
  import opened Wrappers
  import opened Strings
  import opened Timestamp
  import FssDriver

  datatype MergeError = WrongArgCount | BadProduct | FolderNotFound(folder: FsPath) | NoCsvFiles(folder: FsPath)

  // ---------------------------------------------------------------------------
  // Paths

  /** A POSIX pathlib path: whether it is rooted, and its parts. */
  datatype FsPath = FsPath(absolute: bool, parts: seq<string>)

  /** The first position of c in s. */
  function IndexOf(s: string, c: char): (i: nat)
    requires c in s
    ensures i < |s| && s[i] == c && c !in s[..i]
  {
    if s[0] == c then 0
    else
      assert c in s[1..] by {
        var k :| 0 <= k < |s| && s[k] == c;
        assert s[1..][k - 1] == c;
      }
      var i := 1 + IndexOf(s[1..], c);
      assert s[..i] == [s[0]] + s[1..][..i - 1];
      i
  }

  /** s.split("/"). */
  function Segments(s: string): (r: seq<string>)
    ensures |r| >= 1
    ensures forall k :: 0 <= k < |r| ==> '/' !in r[k]
    decreases |s|
  {
    if '/' !in s then [s]
    else
      var i := IndexOf(s, '/');
      [s[..i]] + Segments(s[i + 1..])
  }

  /** A part pathlib keeps: not empty and not ".". */
  predicate Kept(seg: string)
  {
    seg != "" && seg != "."
  }

  function KeptParts(segs: seq<string>): (r: seq<string>)
    ensures forall k :: 0 <= k < |r| ==> Kept(r[k]) && r[k] in segs
  {
    if segs == [] then []
    else (if Kept(segs[0]) then [segs[0]] else []) + KeptParts(segs[1..])
  }

  /** Path(s): rooted when s starts with "/", with the empty and "." segments
      dropped. Every part is a proper name without "/". */
  function PathOf(s: string): (p: FsPath)
    ensures p.absolute <==> |s| > 0 && s[0] == '/'
    ensures forall k :: 0 <= k < |p.parts| ==> Kept(p.parts[k]) && '/' !in p.parts[k]
  {
    FsPath(|s| > 0 && s[0] == '/', KeptParts(Segments(s)))
  }

  /** p / name: an absolute name replaces p, a relative one is appended part by part. */
  function Join(p: FsPath, name: string): FsPath
  {
    var q := PathOf(name);
    if q.absolute then q else FsPath(p.absolute, p.parts + q.parts)
  }

  /** The first "/" of a + "/" + b is the first one of a, or the joining one. */
  lemma FirstSlash(a: string, b: string)
    ensures '/' in a + "/" + b
    ensures '/' in a ==> IndexOf(a + "/" + b, '/') == IndexOf(a, '/')
    ensures '/' !in a ==> IndexOf(a + "/" + b, '/') == |a|
  {
    var s := a + "/" + b;
    assert s[|a|] == '/';
    var i := IndexOf(s, '/');
    assert forall k :: 0 <= k < i ==> s[k] != '/' by {
      forall k | 0 <= k < i ensures s[k] != '/' { assert s[..i][k] == s[k]; }
    }
    assert forall k :: 0 <= k < |a| ==> s[k] == a[k];
    if '/' in a {
      var j := IndexOf(a, '/');
      assert forall k :: 0 <= k < j ==> a[k] != '/' by {
        forall k | 0 <= k < j ensures a[k] != '/' { assert a[..j][k] == a[k]; }
      }
    }
  }

  lemma {:induction false} SegmentsJoin(a: string, b: string)
    ensures Segments(a + "/" + b) == Segments(a) + Segments(b)
    decreases |a|
  {
    var s := a + "/" + b;
    FirstSlash(a, b);
    var i := IndexOf(s, '/');
    assert Segments(s) == [s[..i]] + Segments(s[i + 1..]);
    if '/' in a {
      assert s[..i] == a[..i];
      assert s[i + 1..] == a[i + 1..] + "/" + b;
      assert Segments(a) == [a[..i]] + Segments(a[i + 1..]);
      SegmentsJoin(a[i + 1..], b);
      assert [a[..i]] + (Segments(a[i + 1..]) + Segments(b)) == ([a[..i]] + Segments(a[i + 1..])) + Segments(b);
    } else {
      assert s[..i] == a;
      assert s[i + 1..] == b;
    }
  }

  lemma {:induction false} KeptPartsAppend(x: seq<string>, y: seq<string>)
    ensures KeptParts(x + y) == KeptParts(x) + KeptParts(y)
  {
    if x == [] {
      assert x + y == y;
    } else {
      var head := if Kept(x[0]) then [x[0]] else [];
      assert (x + y)[0] == x[0];
      assert (x + y)[1..] == x[1..] + y;
      assert KeptParts(x + y) == head + KeptParts(x[1..] + y);
      KeptPartsAppend(x[1..], y);
      assert head + (KeptParts(x[1..]) + KeptParts(y)) == (head + KeptParts(x[1..])) + KeptParts(y);
    }
  }

  /** Writing a path with "/" between a folder and a relative name, then
      reading it back, is joining the name onto the folder. */
  lemma PathOfJoin(a: string, b: string)
    requires |b| > 0 && b[0] != '/'
    ensures PathOf(a + "/" + b) == (if |a| > 0 then Join(PathOf(a), b) else Join(FsPath(true, []), b))
  {
    SegmentsJoin(a, b);
    KeptPartsAppend(Segments(a), Segments(b));
    if |a| > 0 {
      assert (a + "/" + b)[0] == a[0];
    } else {
      assert Segments(a) == [""];
    }
  }

  lemma NameIsOnePart(name: string)
    requires Kept(name) && '/' !in name
    ensures PathOf(name) == FsPath(false, [name])
  {
    assert name[0] != '/' by { assert name[0] in name; }
    assert Segments(name) == [name];
    assert [name][1..] == [];
    assert KeptParts([name]) == [name] + KeptParts([]);
  }

  // ---------------------------------------------------------------------------
  // Threshold tag

  /** thr_in[4:] when thr_in starts with "thr_", else thr_in. */
  function TagValue(thrIn: string): (v: string)
    ensures StartsWith(thrIn, "thr_") ==> thrIn == "thr_" + v
    ensures !StartsWith(thrIn, "thr_") ==> v == thrIn
  {
    if StartsWith(thrIn, "thr_") then thrIn[4..] else thrIn
  }

  /** f"thr_{thr_val}".replace(".", "p"). */
  function NormaliseTag(thrIn: string): (tag: string)
    ensures StartsWith(tag, "thr_") && '.' !in tag
  {
    ReplaceCharAppend("thr_", TagValue(thrIn), '.', 'p');
    ReplaceCharRemoves("thr_" + TagValue(thrIn), '.', 'p');
    ReplaceChar("thr_" + TagValue(thrIn), '.', 'p')
  }

  /** Normalising a normalised tag changes nothing. */
  lemma NormaliseIdempotent(thrIn: string)
    ensures NormaliseTag(NormaliseTag(thrIn)) == NormaliseTag(thrIn)
  {
    var tag := NormaliseTag(thrIn);
    var v := TagValue(tag);
    assert tag == "thr_" + v;
    assert '.' !in v by {
      forall k | 0 <= k < |v| ensures v[k] != '.' {
        assert v[k] == tag[k + 4];
        assert tag[k + 4] in tag;
      }
    }
    ReplaceCharAbsent("thr_" + v, '.', 'p');
  }

  /** "thr_X" and "X" name the same folder when X does not itself start with "thr_". */
  lemma PrefixOptional(x: string)
    requires !StartsWith(x, "thr_")
    ensures NormaliseTag("thr_" + x) == NormaliseTag(x)
  {
    assert ("thr_" + x)[..4] == "thr_";
    assert ("thr_" + x)[4..] == x;
  }

  /** For a printed threshold the tag is the one the extraction driver uses
      for its output folder. */
  lemma SameTagAsDriver(text: string)
    requires !StartsWith(text, "thr_")
    ensures NormaliseTag(text) == FssDriver.ThresholdTag(text)
  {
  }

  // ---------------------------------------------------------------------------
  // Listing

  /** Matches the pattern "*.csv". */
  predicate IsCsv(name: string)
  {
    EndsWith(name, ".csv")
  }

  /** The entries of a directory listing that match "*.csv", each as often
      as it is listed. */
  function CsvNames(names: seq<string>): (r: seq<string>)
    ensures forall k :: 0 <= k < |r| ==> IsCsv(r[k])
    ensures forall x :: multiset(r)[x] == (if IsCsv(x) then multiset(names)[x] else 0)
  {
    if names == [] then []
    else
      assert names == [names[0]] + names[1..];
      (if IsCsv(names[0]) then [names[0]] else []) + CsvNames(names[1..])
  }

  /** Python's string order: code point by code point, a proper prefix first. */
  predicate LexLe(a: string, b: string)
    decreases |a|
  {
    a == [] || (b != [] && (a[0] < b[0] || (a[0] == b[0] && LexLe(a[1..], b[1..]))))
  }

  lemma {:induction false} LexTotal(a: string, b: string)
    ensures LexLe(a, b) || LexLe(b, a)
    decreases |a|
  {
    if a != [] && b != [] && a[0] == b[0] {
      LexTotal(a[1..], b[1..]);
    }
  }

  lemma {:induction false} LexTrans(a: string, b: string, c: string)
    requires LexLe(a, b) && LexLe(b, c)
    ensures LexLe(a, c)
    decreases |a|
  {
    if a != [] && a[0] == b[0] && b[0] == c[0] {
      LexTrans(a[1..], b[1..], c[1..]);
    }
  }

  predicate SortedNames(s: seq<string>)
  {
    forall i, j :: 0 <= i < j < |s| ==> LexLe(s[i], s[j])
  }

  /** Inserts x before the first name it does not follow. */
  function InsertName(x: string, s: seq<string>): (r: seq<string>)
    requires SortedNames(s)
    ensures SortedNames(r) && multiset(r) == multiset(s) + multiset{x}
  {
    if s == [] then [x]
    else if LexLe(x, s[0]) then
      forall j | 0 <= j < |s| ensures LexLe(x, s[j]) {
        if j > 0 { LexTrans(x, s[0], s[j]); }
      }
      [x] + s
    else
      LexTotal(x, s[0]);
      var t := InsertName(x, s[1..]);
      assert s == [s[0]] + s[1..];
      assert forall y :: y in t ==> LexLe(s[0], y) by {
        forall y | y in t ensures LexLe(s[0], y) {
          assert y in multiset(t);
          if y != x {
            assert y in multiset(s[1..]);
            var j :| 0 <= j < |s[1..]| && s[1..][j] == y;
            assert s[j + 1] == y;
          }
        }
      }
      [s[0]] + t
  }

  /** sorted(): the names in ascending string order. */
  function SortNames(s: seq<string>): (r: seq<string>)
    ensures SortedNames(r) && multiset(r) == multiset(s)
  {
    if s == [] then []
    else
      assert s == [s[0]] + s[1..];
      InsertName(s[0], SortNames(s[1..]))
  }

  /** Path.stem: the name without its last suffix; a suffix is a final "."
      part that is neither the whole name's start nor its last character. */
  function Stem(name: string): (stem: string)
    ensures |stem| <= |name| && stem == name[..|stem|]
  {
    var i := LastIndex(name, '.');
    if 0 < i < |name| - 1 then name[..i] else name
  }

  /** The last position of c in s, or -1. */
  function LastIndex(s: string, c: char): (i: int)
    ensures -1 <= i < |s|
    ensures i >= 0 ==> s[i] == c && c !in s[i + 1..]
    ensures i == -1 ==> c !in s
  {
    if s == [] then -1
    else if s[|s| - 1] == c then |s| - 1
    else
      var i := LastIndex(s[..|s| - 1], c);
      assert s[i + 1..] == s[..|s| - 1][i + 1..] + [s[|s| - 1]];
      i
  }

  /** A name with one dot, before a csv suffix, has the part before it as its stem. */
  lemma CsvStem(stem: string)
    requires stem != [] && '.' !in stem
    ensures Stem(stem + ".csv") == stem
  {
    var name := stem + ".csv";
    var n := |stem|;
    var i := LastIndex(name, '.');
    assert name[n] == '.';
    assert i == n;
    assert name[..n] == stem;
  }

  /** The file the extraction driver writes for time t has t's stem, and the
      fixed-width reading of that stem gives t back. */
  lemma DriverFileStem(t: TimeDict)
    requires InFormatRange(t)
    ensures Stem(FileName(t)) == FileStem(t)
    ensures StrToTimeDict(Stem(FileName(t))) == Success(t)
  {
    FormatParseRoundTrip(t);
    var stem := FileStem(t);
    assert '.' !in stem by {
      forall k | 0 <= k < |stem| ensures stem[k] != '.' {
        assert IsDigit(stem[k]);
      }
    }
    CsvStem(stem);
  }

  // ---------------------------------------------------------------------------
  // The script up to the read loop

  /** The filesystem as the script sees it: the paths that exist, and the
      entry names of each directory. */
  datatype FileSystem = FileSystem(existing: set<FsPath>, listing: map<FsPath, seq<string>>)

  function Entries(fs: FileSystem, dir: FsPath): seq<string>
  {
    if dir in fs.listing then fs.listing[dir] else []
  }

  /** What the script has settled before reading: the product, the tag, the
      folder it reads, the CSV names in the order it reads them, and the file
      it writes. */
  datatype MergePlan = MergePlan(product: string, tag: string, inputFolder: FsPath,
                                 files: seq<string>, outputFile: FsPath)

  function InputFolder(base: FsPath, product: string, tag: string): FsPath
  {
    Join(Join(base, product), tag)
  }

  function OutputFile(base: FsPath, product: string, tag: string): FsPath
  {
    Join(Join(base, "parquet"), product + "_" + tag + ".parquet")
  }

  /** A file of the listing as a path in its folder. */
  function InFolder(dir: FsPath, name: string): (p: FsPath)
    ensures p.absolute == dir.absolute && p.parts == dir.parts + [name]
  {
    FsPath(dir.absolute, dir.parts + [name])
  }

  /** merge_dfs.py from the argument check to the sorted glob. */
  function PlanMerge(argv: seq<string>, fs: FileSystem): (r: Result<MergePlan, MergeError>)
    ensures |argv| != 4 <==> r == Failure(WrongArgCount)
    ensures |argv| == 4 ==>
      (Lower(Strip(argv[1])) !in {"core", "roa"} <==> r == Failure(BadProduct))
    ensures r.Success? ==>
      var base := PathOf(argv[3]);
      var p := r.value;
      && |argv| == 4
      && p.product == Lower(Strip(argv[1])) && p.product in {"core", "roa"}
      && p.tag == NormaliseTag(Strip(argv[2]))
      && p.inputFolder == InputFolder(base, p.product, p.tag)
      && p.inputFolder in fs.existing
      && p.files != []
      && SortedNames(p.files)
      && (forall x :: multiset(p.files)[x] == (if IsCsv(x) then multiset(Entries(fs, p.inputFolder))[x] else 0))
      && p.outputFile == OutputFile(base, p.product, p.tag)
  {
    if |argv| != 4 then Failure(WrongArgCount)
    else
      var product := Lower(Strip(argv[1]));
      var thrIn := Strip(argv[2]);
      var base := PathOf(argv[3]);
      if product !in {"core", "roa"} then Failure(BadProduct)
      else
        var tag := NormaliseTag(thrIn);
        var folder := InputFolder(base, product, tag);
        if folder !in fs.existing then Failure(FolderNotFound(folder))
        else
          var files := SortNames(CsvNames(Entries(fs, folder)));
          if files == [] then Failure(NoCsvFiles(folder))
          else Success(MergePlan(product, tag, folder, files, OutputFile(base, product, tag)))
  }

  /** The two checks on the folder, in the script's order: it must exist,
      then it must hold at least one CSV file. */
  lemma FolderFailures(argv: seq<string>, fs: FileSystem)
    requires |argv| == 4 && Lower(Strip(argv[1])) in {"core", "roa"}
    ensures var folder := InputFolder(PathOf(argv[3]), Lower(Strip(argv[1])), NormaliseTag(Strip(argv[2])));
      && (PlanMerge(argv, fs) == Failure(FolderNotFound(folder)) <==> folder !in fs.existing)
      && (PlanMerge(argv, fs) == Failure(NoCsvFiles(folder))
          <==> folder in fs.existing && forall k :: 0 <= k < |Entries(fs, folder)| ==> !IsCsv(Entries(fs, folder)[k]))
  {
    var folder := InputFolder(PathOf(argv[3]), Lower(Strip(argv[1])), NormaliseTag(Strip(argv[2])));
    var names := Entries(fs, folder);
    var files := SortNames(CsvNames(names));
    if files == [] {
      forall k | 0 <= k < |names| ensures !IsCsv(names[k]) {
        assert multiset(names)[names[k]] > 0;
        assert multiset(files)[names[k]] == 0;
      }
    } else {
      assert files[0] in multiset(files);
      var k :| 0 <= k < |names| && names[k] == files[0] by {
        assert files[0] in multiset(names);
      }
      assert IsCsv(names[k]) by {
        assert multiset(CsvNames(names))[files[0]] > 0;
      }
    }
  }

  /** The folder the merge reads for a product and a printed threshold is the
      folder the extraction driver writes for them, when the base argument is
      the driver's output root. */
  lemma ReadsDriverFolder(product: string, t: FssDriver.Threshold)
    requires product in {"core", "roa"} && !StartsWith(t.text, "thr_") && '/' !in t.text
    ensures PathOf(FssDriver.OutputFolder(product, t))
         == InputFolder(PathOf(FssDriver.OutputRoot), product, NormaliseTag(t.text))
  {
    var root := FssDriver.OutputRoot;
    var tag := FssDriver.ThresholdTag(t.text);
    SameTagAsDriver(t.text);
    assert tag[..4] == "thr_";
    assert root + "/" + product + "/" + tag == (root + "/" + product) + "/" + tag;
    PathOfJoin(root + "/" + product, tag);
    PathOfJoin(root, product);
  }

  /** Both paths hang under the base folder: the input folder one level below
      the product folder, the output file inside "parquet". */
  lemma PathsUnderBase(base: FsPath, product: string, thrIn: string)
    requires product in {"core", "roa"}
    ensures var tag := NormaliseTag(thrIn);
      && InputFolder(base, product, tag) == FsPath(base.absolute, base.parts + [product] + PathOf(tag).parts)
      && OutputFile(base, product, tag).parts[..|base.parts| + 1] == base.parts + ["parquet"]
  {
    var tag := NormaliseTag(thrIn);
    assert tag[..4] == "thr_";
    NameIsOnePart(product);
    NameIsOnePart("parquet");
    var name := product + "_" + tag + ".parquet";
    assert name[0] == product[0];
  }
}
