/** `load_all_datasets`: every sheet of every listed workbook is read, tagged
    with its file, sheet, region and theme, cleared of all-missing rows and
    collected, with one metadata record per sheet; the collected sheets are
    then concatenated into the analyzer's combined table. Reading is
    abstracted: a file is missing, cannot be opened, or is a sequence of
    sheet reads, each of which parses to a table or fails. */
module Ingest {
  import opened Wrappers
  import opened Frames
  import Classify
  import Grouping
  import Seqs

  const SourceFileColumn := "source_file"
  const SheetNameColumn := "sheet_name"
  const RegionColumn := "region"
  const ThemeColumn := "theme"

  /** The four columns ingestion adds to every sheet. */
  const TagColumns: seq<string> := [SourceFileColumn, SheetNameColumn, RegionColumn, ThemeColumn]

  datatype SheetRead = Parsed(name: string, frame: Frame) | Failed(name: string)

  datatype Source =
    | Missing                          // `os.path.exists` is false
    | Unopenable                       // `pd.ExcelFile` raises
    | Workbook(sheets: seq<SheetRead>) // the sheets, in `sheet_names` order

  datatype SourceFile = SourceFile(name: string, source: Source)

  /** One `file_metadata` entry. */
  datatype Meta = Meta(filename: string, sheetName: string, rows: nat, columns: nat,
                       region: string, theme: string)

  /** The analyzer's state: `combined_data` and `file_metadata`. */
  datatype Analyzer = Analyzer(combined: Frame, metadata: seq<Meta>)

  /** `__init__`: an empty DataFrame and no metadata. */
  function NewAnalyzer(): Analyzer {
    Analyzer(Frame([], []), [])
  }

  /** The values of the four tag columns for one sheet. */
  datatype Tags = Tags(sourceFile: string, sheetName: string, region: string, theme: string)

  /** Lines 72-75 and 84-89: the file name, the sheet name, and the region
      and theme classified from the file name. */
  function SheetTags(filename: string, sheetName: string): Tags {
    Tags(filename, sheetName, Classify.ExtractRegion(filename), Classify.ExtractTheme(filename))
  }

  /** `row` holds the four tags. */
  predicate CarriesTags(row: Row, tags: Tags) {
    && Get(row, SourceFileColumn) == Some(Str(tags.sourceFile))
    && Get(row, SheetNameColumn) == Some(Str(tags.sheetName))
    && Get(row, RegionColumn) == Some(Str(tags.region))
    && Get(row, ThemeColumn) == Some(Str(tags.theme))
  }

  /** Number of tag columns the sheet does not already have. */
  function NewTagColumns(raw: Frame): nat {
    (if SourceFileColumn in raw.columns then 0 else 1)
    + (if SheetNameColumn in raw.columns then 0 else 1)
    + (if RegionColumn in raw.columns then 0 else 1)
    + (if ThemeColumn in raw.columns then 0 else 1)
  }

  /** The four column assignments of lines 72-75. */
  function TagSheet(tags: Tags, raw: Frame): (t: Frame)
    ensures |t.rows| == |raw.rows|
    ensures forall i :: 0 <= i < |t.rows| ==> CarriesTags(t.rows[i], tags)
    ensures forall i, c :: 0 <= i < |t.rows| && c !in TagColumns ==> Get(t.rows[i], c) == Get(raw.rows[i], c)
    ensures forall c :: c in t.columns <==> c in raw.columns || c in TagColumns
    ensures |t.columns| == |raw.columns| + NewTagColumns(raw)
    ensures WellFormed(raw) ==> WellFormed(t)
  {
    var t1 := SetColumn(raw, SourceFileColumn, Str(tags.sourceFile));
    var t2 := SetColumn(t1, SheetNameColumn, Str(tags.sheetName));
    var t3 := SetColumn(t2, RegionColumn, Str(tags.region));
    SetColumn(t3, ThemeColumn, Str(tags.theme))
  }

  /** Lines 72-78: tag, then `dropna(how='all')`. */
  function PrepareSheet(tags: Tags, raw: Frame): Frame {
    DropAllMissing(TagSheet(tags, raw))
  }

  /** The tags are added before `dropna(how='all')`, so every row has a
      non-missing cell and the filter removes nothing. */
  lemma {:induction false} DropnaRemovesNothing(tags: Tags, raw: Frame)
    ensures PrepareSheet(tags, raw) == TagSheet(tags, raw)
  {
    var t := TagSheet(tags, raw);
    forall i | 0 <= i < |t.rows| ensures !Blank(t.rows[i]) {
      assert SourceFileColumn in t.rows[i];
    }
  }

  /** The metadata record of lines 83-90. */
  function SheetMeta(tags: Tags, df: Frame): Meta {
    Meta(tags.sourceFile, tags.sheetName, |df.rows|, |df.columns|, tags.region, tags.theme)
  }

  function MetaTags(m: Meta): Tags {
    Tags(m.filename, m.sheetName, m.region, m.theme)
  }

  /** `m` describes the loaded sheet `df`: row and column counts, and the
      tags every row of `df` carries. */
  ghost predicate Describes(m: Meta, df: Frame) {
    && m.rows == |df.rows|
    && m.columns == |df.columns|
    && AllCarryTags(df, MetaTags(m))
  }

  /** Every row of `df` carries `tags`. */
  ghost predicate AllCarryTags(df: Frame, tags: Tags) {
    forall j :: 0 <= j < |df.rows| ==> CarriesTags(df.rows[j], tags)
  }

  /** The region and theme of a record are those of its file name. */
  ghost predicate ClassifiedByName(m: Meta) {
    m.region == Classify.ExtractRegion(m.filename) && m.theme == Classify.ExtractTheme(m.filename)
  }

  /** The metadata of a loaded sheet counts the raw sheet's rows, and its
      columns plus the tag columns it lacked: four for a sheet without
      them. */
  lemma {:induction false} SheetMetaCounts(filename: string, sheetName: string, raw: Frame)
    ensures var tags := SheetTags(filename, sheetName);
      var m := SheetMeta(tags, PrepareSheet(tags, raw));
      && Describes(m, PrepareSheet(tags, raw))
      && ClassifiedByName(m)
      && m.rows == |raw.rows|
      && m.columns == |raw.columns| + NewTagColumns(raw)
      && ((forall c :: c in TagColumns ==> c !in raw.columns) ==> m.columns == |raw.columns| + 4)
  {
    DropnaRemovesNothing(SheetTags(filename, sheetName), raw);
  }

  // ---- one file ----------------------------------------------------------------

  /** Index of the first failing sheet, or the number of sheets. */
  function FirstFailure(sheets: seq<SheetRead>): (k: nat)
    ensures k <= |sheets|
    ensures forall i :: 0 <= i < k ==> sheets[i].Parsed?
    ensures k < |sheets| ==> sheets[k].Failed?
  {
    if |sheets| == 0 || sheets[0].Failed? then 0 else 1 + FirstFailure(sheets[1..])
  }

  /** Rows of the raw sheets, all of which parsed. */
  function RawRows(parsed: seq<SheetRead>): nat
    requires forall i :: 0 <= i < |parsed| ==> parsed[i].Parsed?
  {
    if |parsed| == 0 then 0
    else RawRows(parsed[..|parsed| - 1]) + |parsed[|parsed| - 1].frame.rows|
  }

  ghost predicate SheetsWellFormed(sheets: seq<SheetRead>) {
    forall i :: 0 <= i < |sheets| && sheets[i].Parsed? ==> WellFormed(sheets[i].frame)
  }

  /** Loading sheets that all parsed: each is tagged and cleaned, in
      order, and described by a metadata record. */
  function LoadParsed(filename: string, parsed: seq<SheetRead>): (r: (seq<Frame>, seq<Meta>))
    requires forall i :: 0 <= i < |parsed| ==> parsed[i].Parsed?
    ensures |r.0| == |r.1| == |parsed|
  {
    var frames := seq(|parsed|, i requires 0 <= i < |parsed| =>
                        PrepareSheet(SheetTags(filename, parsed[i].name), parsed[i].frame));
    var metas := seq(|parsed|, i requires 0 <= i < |parsed| =>
                       SheetMeta(SheetTags(filename, parsed[i].name), frames[i]));
    (frames, metas)
  }

  /** The sheet loop of lines 68-92 inside its `try`: the sheets read before
      the first failing read are loaded, in order, and that read abandons
      itself and every later sheet of the file. */
  function LoadSheets(filename: string, sheets: seq<SheetRead>): (r: (seq<Frame>, seq<Meta>))
    ensures |r.0| == |r.1| == FirstFailure(sheets)
  {
    LoadParsed(filename, sheets[..FirstFailure(sheets)])
  }

  /** The `i`-th loaded table is the `i`-th sheet, tagged; its metadata
      record names the file and the sheet, counts the raw sheet's rows and
      carries the file's classification, as every row of the table does. */
  lemma LoadSheetsDescribed(filename: string, sheets: seq<SheetRead>, i: nat)
    requires i < FirstFailure(sheets)
    ensures var r := LoadSheets(filename, sheets);
      && r.1[i].filename == filename
      && r.1[i].sheetName == sheets[i].name
      && r.1[i].rows == |sheets[i].frame.rows|
      && Describes(r.1[i], r.0[i])
      && ClassifiedByName(r.1[i])
      && (SheetsWellFormed(sheets) ==> WellFormed(r.0[i]))
  {
    assert sheets[..FirstFailure(sheets)][i] == sheets[i];
    SheetMetaCounts(filename, sheets[i].name, sheets[i].frame);
  }

  /** Tables with the row counts of the parsed sheets, one for one, have
      as many rows in all as those sheets. */
  lemma {:induction false} RowsMatch(fs: seq<Frame>, parsed: seq<SheetRead>)
    requires |fs| == |parsed|
    requires forall i :: 0 <= i < |parsed| ==> parsed[i].Parsed?
    requires forall i :: 0 <= i < |fs| ==> |fs[i].rows| == |parsed[i].frame.rows|
    ensures TotalRows(fs) == RawRows(parsed)
  {
    if |fs| > 0 {
      RowsMatch(fs[..|fs| - 1], parsed[..|parsed| - 1]);
    }
  }

  /** The sheets loaded from a file have as many rows as the raw sheets read
      before the first failure. */
  lemma LoadSheetsRows(filename: string, sheets: seq<SheetRead>)
    ensures TotalRows(LoadSheets(filename, sheets).0) == RawRows(sheets[..FirstFailure(sheets)])
  {
    var k := FirstFailure(sheets);
    var frames := LoadSheets(filename, sheets).0;
    forall i | 0 <= i < k ensures |frames[i].rows| == |sheets[..k][i].frame.rows| {
      LoadSheetsDescribed(filename, sheets, i);
    }
    RowsMatch(frames, sheets[..k]);
  }

  /** One loop iteration of lines 61-95 for one file. */
  function LoadFile(file: SourceFile): (seq<Frame>, seq<Meta>) {
    match file.source
    case Missing => ([], [])
    case Unopenable => ([], [])
    case Workbook(sheets) => LoadSheets(file.name, sheets)
  }

  /** Rows a file contributes: its raw sheets' rows up to the first failure. */
  function FileRows(file: SourceFile): nat {
    match file.source
    case Workbook(sheets) => RawRows(sheets[..FirstFailure(sheets)])
    case _ => 0
  }

  /** Rows all files contribute, file by file. */
  function ExpectedRows(files: seq<SourceFile>): nat {
    if |files| == 0 then 0 else FileRows(files[0]) + ExpectedRows(files[1..])
  }

  ghost predicate InputsWellFormed(files: seq<SourceFile>) {
    forall i :: 0 <= i < |files| && files[i].source.Workbook? ==> SheetsWellFormed(files[i].source.sheets)
  }

  lemma InputsWellFormedTail(files: seq<SourceFile>)
    requires |files| > 0
    ensures InputsWellFormed(files) ==> InputsWellFormed(files[1..])
  {
    assert forall j :: 1 <= j < |files| ==> files[1..][j - 1] == files[j];
  }

  /** The loop of lines 61-95: `all_data` and the new metadata entries. */
  function LoadFiles(files: seq<SourceFile>): (r: (seq<Frame>, seq<Meta>))
    ensures |r.0| == |r.1|
  {
    Seqs.GatherLockstep(files, LoadFile);
    Seqs.Gather(files, LoadFile)
  }

  /** One step of the loop: the first file's tables and records, then the
      rest's. */
  lemma LoadFilesCons(files: seq<SourceFile>)
    requires |files| > 0
    ensures LoadFiles(files).0 == LoadFile(files[0]).0 + LoadFiles(files[1..]).0
    ensures LoadFiles(files).1 == LoadFile(files[0]).1 + LoadFiles(files[1..]).1
  {
  }

  /** Every loaded table is described by the metadata record at the same
      position, whose region and theme come from its file name. */
  lemma {:induction false} LoadFilesDescribed(files: seq<SourceFile>, i: nat)
    requires i < |LoadFiles(files).0|
    ensures var r := LoadFiles(files);
      && Describes(r.1[i], r.0[i])
      && ClassifiedByName(r.1[i])
      && (InputsWellFormed(files) ==> WellFormed(r.0[i]))
  {
    assert |files| > 0;
    LoadFilesCons(files);
    var first := LoadFile(files[0]);
    if i < |first.0| {
      if files[0].source.Workbook? {
        LoadSheetsDescribed(files[0].name, files[0].source.sheets, i);
      }
    } else {
      LoadFilesDescribed(files[1..], i - |first.0|);
      InputsWellFormedTail(files);
    }
  }

  /** The loaded tables have as many rows as the files contribute. */
  lemma {:induction false} LoadFilesRows(files: seq<SourceFile>)
    ensures TotalRows(LoadFiles(files).0) == ExpectedRows(files)
  {
    if |files| > 0 {
      var first := LoadFile(files[0]);
      LoadFilesCons(files);
      TotalRowsAppend(first.0, LoadFiles(files[1..]).0);
      if files[0].source.Workbook? {
        LoadSheetsRows(files[0].name, files[0].source.sheets);
      }
      LoadFilesRows(files[1..]);
    }
  }

  /** Sum of `rows` over metadata records. */
  function MetaRows(m: Meta): nat {
    m.rows
  }

  function SumRows(ms: seq<Meta>): nat {
    Grouping.Total(ms, MetaRows)
  }

  /** Loaded tables and their metadata records count the same rows. */
  lemma {:induction false} LockstepRows(fs: seq<Frame>, ms: seq<Meta>)
    requires |fs| == |ms|
    requires forall i :: 0 <= i < |fs| ==> ms[i].rows == |fs[i].rows|
    ensures TotalRows(fs) == SumRows(ms)
  {
    if |fs| > 0 {
      LockstepRows(fs[..|fs| - 1], ms[..|ms| - 1]);
    }
  }

  /** `load_all_datasets`: returns the new state and `combined_data`. */
  function Load(a: Analyzer, files: seq<SourceFile>): (r: (Analyzer, Frame))
    ensures r.1 == r.0.combined
    ensures r.0.metadata == a.metadata + LoadFiles(files).1
    ensures |LoadFiles(files).0| > 0 ==> r.0.combined == Concat(LoadFiles(files).0)
    ensures a.metadata <= r.0.metadata
    ensures |r.0.metadata| == |a.metadata| ==> r.0.combined == a.combined
    ensures |r.0.metadata| > |a.metadata| ==>
      && |r.0.combined.rows| == SumRows(r.0.metadata[|a.metadata|..])
      && |r.0.combined.rows| == ExpectedRows(files)
  {
    var loaded := LoadFiles(files);
    var combined := if |loaded.0| > 0 then Concat(loaded.0) else a.combined;
    var b := Analyzer(combined, a.metadata + loaded.1);
    assert b.metadata[|a.metadata|..] == loaded.1;
    LoadFilesRows(files);
    forall i | 0 <= i < |loaded.0| ensures loaded.1[i].rows == |loaded.0[i].rows| {
      LoadFilesDescribed(files, i);
    }
    LockstepRows(loaded.0, loaded.1);
    (b, combined)
  }

  // ---- the combined table and the raw sheets ----------------------------------------

  /** The raw tables a file loads: those of the sheets read before the
      first failing read. */
  function RawSheetsOf(file: SourceFile): (raw: seq<Frame>)
    ensures |raw| == |LoadFile(file).0|
  {
    match file.source
    case Workbook(sheets) =>
      var k := FirstFailure(sheets);
      seq(k, i requires 0 <= i < k => sheets[i].frame)
    case _ => []
  }

  /** The raw tables of every loaded sheet, file by file. */
  function RawSheets(files: seq<SourceFile>): (raw: seq<Frame>)
    ensures |raw| == |LoadFiles(files).0|
  {
    if |files| == 0 then []
    else
      LoadFilesCons(files);
      RawSheetsOf(files[0]) + RawSheets(files[1..])
  }

  /** Loaded table `i` is raw table `i` with the tags of record `i` set. */
  lemma {:induction false} LoadedIsTaggedRaw(files: seq<SourceFile>, i: nat)
    requires i < |LoadFiles(files).0|
    ensures LoadFiles(files).0[i] == TagSheet(MetaTags(LoadFiles(files).1[i]), RawSheets(files)[i])
  {
    assert |files| > 0;
    LoadFilesCons(files);
    var first := LoadFile(files[0]);
    if i < |first.0| {
      assert files[0].source.Workbook?;
      var sheets := files[0].source.sheets;
      assert sheets[..FirstFailure(sheets)][i] == sheets[i];
      DropnaRemovesNothing(SheetTags(files[0].name, sheets[i].name), sheets[i].frame);
    } else {
      LoadedIsTaggedRaw(files[1..], i - |first.0|);
    }
  }

  /** Frames with the same row counts, one for one, have the same total. */
  lemma {:induction false} TotalRowsMatch(fs: seq<Frame>, gs: seq<Frame>)
    requires |fs| == |gs|
    requires forall i :: 0 <= i < |fs| ==> |fs[i].rows| == |gs[i].rows|
    ensures TotalRows(fs) == TotalRows(gs)
  {
    if |fs| > 0 {
      TotalRowsMatch(fs[..|fs| - 1], gs[..|gs| - 1]);
    }
  }

  /** After a load that read some sheet, the combined columns are the four
      tags and the columns of the raw sheets. */
  lemma CombinedColumns(a: Analyzer, files: seq<SourceFile>)
    requires |LoadFiles(files).0| > 0
    ensures forall c :: c in Load(a, files).0.combined.columns <==>
      c in TagColumns || ColumnOfSome(RawSheets(files), c)
  {
    var loaded := LoadFiles(files).0;
    var raw := RawSheets(files);
    forall c ensures ColumnOfSome(loaded, c) <==> c in TagColumns || ColumnOfSome(raw, c) {
      if ColumnOfSome(loaded, c) {
        var i :| 0 <= i < |loaded| && c in loaded[i].columns;
        LoadedIsTaggedRaw(files, i);
      }
      if c in TagColumns {
        LoadedIsTaggedRaw(files, 0);
        assert c in loaded[0].columns;
      }
      if ColumnOfSome(raw, c) {
        var i :| 0 <= i < |raw| && c in raw[i].columns;
        LoadedIsTaggedRaw(files, i);
        assert c in loaded[i].columns;
      }
    }
  }

  /** Row `j` of raw sheet `i` is in the combined table, after the rows of
      the earlier raw sheets: it carries its record's tags, every other
      cell is the raw one, and a column its sheet lacked is missing in it. */
  lemma CombinedRowFromRaw(a: Analyzer, files: seq<SourceFile>, i: nat, j: nat)
    requires i < |RawSheets(files)| && j < |RawSheets(files)[i].rows|
    ensures var raw := RawSheets(files);
      var combined := Load(a, files).0.combined;
      var k := TotalRows(raw[..i]) + j;
      && k < |combined.rows|
      && CarriesTags(combined.rows[k], MetaTags(LoadFiles(files).1[i]))
      && (forall c :: c !in TagColumns ==> Get(combined.rows[k], c) == Get(raw[i].rows[j], c))
      && (InputsWellFormed(files) ==>
            forall c :: c !in TagColumns && c !in raw[i].columns ==> c !in combined.rows[k])
  {
    var loaded := LoadFiles(files).0;
    var raw := RawSheets(files);
    TaggedRawRow(files, i, j);
    OffsetsMatch(files, i);
    ConcatRowOrigin(loaded, i, j);
    assert Load(a, files).0.combined == Concat(loaded);
  }

  /** Row `j` of loaded table `i` is raw row `j` of sheet `i` with the
      tags set. */
  lemma TaggedRawRow(files: seq<SourceFile>, i: nat, j: nat)
    requires i < |RawSheets(files)| && j < |RawSheets(files)[i].rows|
    ensures j < |LoadFiles(files).0[i].rows|
    ensures var row := LoadFiles(files).0[i].rows[j];
      var raw := RawSheets(files)[i];
      && CarriesTags(row, MetaTags(LoadFiles(files).1[i]))
      && (forall c :: c !in TagColumns ==> Get(row, c) == Get(raw.rows[j], c))
      && (InputsWellFormed(files) ==> forall c :: c !in TagColumns && c !in raw.columns ==> c !in row)
  {
    LoadedIsTaggedRaw(files, i);
    LoadFilesDescribed(files, i);
  }

  /** The loaded tables before table `i` have as many rows as the raw
      ones. */
  lemma OffsetsMatch(files: seq<SourceFile>, i: nat)
    requires i <= |RawSheets(files)|
    ensures TotalRows(LoadFiles(files).0[..i]) == TotalRows(RawSheets(files)[..i])
  {
    var loaded := LoadFiles(files).0;
    var raw := RawSheets(files);
    forall m | 0 <= m < i ensures |loaded[..i][m].rows| == |raw[..i][m].rows| {
      LoadedIsTaggedRaw(files, m);
    }
    TotalRowsMatch(loaded[..i], raw[..i]);
  }

  // ---- the analyzer's invariant ---------------------------------------------------

  /** A combined row holds the four tags, with a region and a theme that
      the classifiers can produce. */
  predicate TaggedRow(row: Row) {
    && HasString(row, SourceFileColumn)
    && HasString(row, SheetNameColumn)
    && HasString(row, RegionColumn) && row[RegionColumn].s in Classify.RegionLabels
    && HasString(row, ThemeColumn) && row[ThemeColumn].s in Classify.ThemeLabels
  }

  predicate HasString(row: Row, col: string) {
    col in row && row[col].Str?
  }

  /** What `load_all_datasets` keeps true of the analyzer: the combined
      table is well formed, every combined row is tagged, every metadata
      record is classified by its file name, and the combined table holds
      no more rows than the metadata records count (equality holds after
      one load; a reload keeps the earlier records). */
  ghost predicate Consistent(a: Analyzer) {
    && WellFormed(a.combined)
    && (forall k :: 0 <= k < |a.combined.rows| ==> TaggedRow(a.combined.rows[k]))
    && (forall i :: 0 <= i < |a.metadata| ==> ClassifiedByName(a.metadata[i]))
    && |a.combined.rows| <= SumRows(a.metadata)
  }

  lemma NewAnalyzerConsistent()
    ensures Consistent(NewAnalyzer())
    ensures IsEmpty(NewAnalyzer().combined)
  {
  }

  /** A row carrying the tags of a record classified by its file name is a
      tagged row. */
  lemma ClassifiedRowTagged(m: Meta, row: Row)
    requires ClassifiedByName(m) && CarriesTags(row, MetaTags(m))
    ensures TaggedRow(row)
  {
  }

  /** `load_all_datasets` keeps the invariant, for any files whose sheets
      parse to well-formed tables. */
  lemma LoadPreservesConsistent(a: Analyzer, files: seq<SourceFile>)
    requires Consistent(a)
    requires InputsWellFormed(files)
    ensures Consistent(Load(a, files).0)
  {
    var loaded := LoadFiles(files);
    var b := Load(a, files).0;
    Grouping.TotalAppend(a.metadata, loaded.1, MetaRows);
    assert b.metadata == a.metadata + loaded.1;
    forall i | 0 <= i < |b.metadata| ensures ClassifiedByName(b.metadata[i]) {
      if i >= |a.metadata| {
        LoadFilesDescribed(files, i - |a.metadata|);
      }
    }
    if |loaded.0| > 0 {
      forall i | 0 <= i < |loaded.0| ensures WellFormed(loaded.0[i]) {
        LoadFilesDescribed(files, i);
      }
      ConcatWellFormed(loaded.0);
      forall k | 0 <= k < |b.combined.rows| ensures TaggedRow(b.combined.rows[k]) {
        ConcatRowFrom(loaded.0, k);
        var i, j :| 0 <= i < |loaded.0| && 0 <= j < |loaded.0[i].rows|
                    && Concat(loaded.0).rows[k] == loaded.0[i].rows[j];
        LoadFilesDescribed(files, i);
        ClassifiedRowTagged(loaded.1[i], loaded.0[i].rows[j]);
      }
    }
  }

  // ---- how the loop composes ------------------------------------------------------

  /** The loop visits the files in order, so loading a list is loading its
      two halves one after the other. */
  lemma LoadFilesAppend(xs: seq<SourceFile>, ys: seq<SourceFile>)
    ensures LoadFiles(xs + ys).0 == LoadFiles(xs).0 + LoadFiles(ys).0
    ensures LoadFiles(xs + ys).1 == LoadFiles(xs).1 + LoadFiles(ys).1
  {
    Seqs.GatherAppend(xs, ys, LoadFile);
  }

  /** A file that does not exist or cannot be opened adds no table and no
      metadata record: the result is that of the list without it. */
  lemma SkippedFileContributesNothing(files: seq<SourceFile>, i: nat)
    requires i < |files| && !files[i].source.Workbook?
    ensures LoadFiles(files) == LoadFiles(files[..i] + files[i + 1..])
  {
    Seqs.GatherSkip(files, i, LoadFile);
  }

  lemma {:induction false} FirstFailurePrefix(sheets: seq<SheetRead>, k: nat)
    requires FirstFailure(sheets) <= k <= |sheets|
    ensures FirstFailure(sheets[..k]) == FirstFailure(sheets)
  {
    if |sheets| > 0 && sheets[0].Parsed? {
      assert sheets[..k][1..] == sheets[1..][..k - 1];
      FirstFailurePrefix(sheets[1..], k - 1);
    }
  }

  /** A failing read ends the file: what is loaded is what the sheets
      before it give, whatever follows. */
  lemma FailureEndsFile(filename: string, sheets: seq<SheetRead>, k: nat)
    requires k < |sheets| && sheets[k].Failed?
    ensures LoadSheets(filename, sheets) == LoadSheets(filename, sheets[..k])
  {
    FirstFailurePrefix(sheets, k);
    assert sheets[..k][..FirstFailure(sheets)] == sheets[..FirstFailure(sheets)];
  }

  /** Loading the same files again replaces the combined table by an equal
      one but appends their metadata records a second time. */
  lemma ReloadDuplicatesMetadata(a: Analyzer, files: seq<SourceFile>)
    ensures var b := Load(a, files).0;
      var c := Load(b, files).0;
      && c.metadata == b.metadata + LoadFiles(files).1
      && (|LoadFiles(files).1| > 0 ==> c.combined == b.combined)
  {
  }
}
