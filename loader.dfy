/** `get_newest_excel_file` (utilities/utils.py, lines 56-115): load the newest `.xlsx`
    workbook of a directory and turn one of its sheets into records. The directory
    listing with creation times and the opening of a workbook are inputs. */
module Loader {
  import opened Wrappers
  import opened Workbook
  import NewestFile
  import opened Records

  /** The exceptions the loader raises. */
  datatype LoadError =
    | FileNotFoundError(message: string)
    | ValueError(message: string)
    /** `wb.sheetnames[0]` on a workbook without sheets. */
    | IndexError

  datatype Result<T> = Ok(value: T) | Err(error: LoadError)

  /** What `load_workbook` did with the chosen file: returned a workbook, or raised an
      exception with the given text. */
  datatype OpenOutcome = Opened(book: Book) | OpenFailed(reason: string)

  /** `DEFAULT_SHEET`, the default value of the `sheet` argument (line 56). */
  const DefaultSheet: string := "Sheet"

  /** The sheet the loader reads: `sheet=None` means the first sheet of the workbook;
      a name must be one of the workbook's sheet names. */
  function ResolveSheet(b: Book, sheet: Option<string>): (r: Result<Sheet>)
    ensures r == Err(IndexError) <==> sheet.None? && SheetNames(b) == []
    ensures r.Err? ==> r.error == IndexError || r.error.ValueError?
    ensures sheet.None? && SheetNames(b) != [] ==> r == Ok(b.sheets[0].1)
  {
    match sheet
    case None =>
      if SheetNames(b) == [] then Err(IndexError)
      else NamedSheet(b, SheetNames(b)[0])
    case Some(name) => NamedSheet(b, name)
  }

  /** `wb[name]` after the membership test against `wb.sheetnames`. */
  function NamedSheet(b: Book, name: string): (r: Result<Sheet>)
    ensures r.Ok? <==> name in SheetNames(b)
    ensures r.Ok? ==> (name, r.value) in b.sheets
    ensures r.Err? ==> r.error.ValueError?
  {
    SheetNamedFindsListedNames(b, name);
    match SheetNamed(b, name)
    case None => Err(ValueError("Sheet '" + name + "' not found in workbook."))
    case Some(sh) => Ok(sh)
  }

  /** The records of a sheet: one per physical row from row 2 on, in row order. */
  function SheetRecords(sh: Sheet): seq<Record>
  {
    seq(RowCount(sh), k requires 0 <= k < RowCount(sh) => RowRecord(sh, k + 2))
  }

  /** What `get_newest_excel_file(folder, sheet)` returns or raises, given the folder's
      listing (names with creation times, in `os.listdir` order) and what
      `load_workbook` does with each file name. */
  function Loaded(folder: string, listing: seq<NewestFile.Entry>,
                  open: string -> OpenOutcome, sheet: Option<string> := Some(DefaultSheet)): (r: Result<seq<Record>>)
    ensures NewestFile.Newest(listing).None? ==> r.Err? && r.error.FileNotFoundError?
    ensures r.Err? && r.error == IndexError ==> sheet.None?
    ensures r.Ok? ==> NewestFile.Newest(listing).Some? && open(NewestFile.Newest(listing).value.name).Opened?
    ensures NewestFile.Newest(listing).Some? && open(NewestFile.Newest(listing).value.name).Opened? &&
            ResolveSheet(open(NewestFile.Newest(listing).value.name).book, sheet).Err? ==>
      r == Err(ResolveSheet(open(NewestFile.Newest(listing).value.name).book, sheet).error)
  {
    match NewestFile.Newest(listing)
    case None => Err(FileNotFoundError("No Excel files found in the specified folder: " + folder))
    case Some(latest) =>
      match open(latest.name)
      case OpenFailed(reason) => Err(FileNotFoundError("Failed to load the workbook: " + reason))
      case Opened(b) =>
        match ResolveSheet(b, sheet)
        case Err(e) => Err(e)
        case Ok(sh) => Ok(SheetRecords(sh))
  }

  /** The loader, step by step as the source runs it. */
  method GetNewestExcelFile(folder: string, listing: seq<NewestFile.Entry>,
                            open: string -> OpenOutcome, sheet: Option<string> := Some(DefaultSheet))
    returns (r: Result<seq<Record>>)
    ensures r == Loaded(folder, listing, open, sheet)
  {
    var files := NewestFile.Candidates(listing);
    if files == [] {
      return Err(FileNotFoundError("No Excel files found in the specified folder: " + folder));
    }
    var sortedFiles := NewestFile.SortNewestFirst(files);
    var latest := sortedFiles[0];
    var wb: Book;
    match open(latest.name) {
      case OpenFailed(reason) =>
        return Err(FileNotFoundError("Failed to load the workbook: " + reason));
      case Opened(b) =>
        wb := b;
    }
    var name: string;
    if sheet.None? {
      var names := SheetNames(wb);
      if names == [] {
        return Err(IndexError);
      }
      name := names[0];
    } else {
      name := sheet.value;
    }
    var sh: Sheet;
    match SheetNamed(wb, name) {
      case None =>
        return Err(ValueError("Sheet '" + name + "' not found in workbook."));
      case Some(s) =>
        sh := s;
    }
    var datalist := ExtractRecords(sh);
    assert datalist == SheetRecords(sh);
    return Ok(datalist);
  }

  /** With no `.xlsx` name in the listing the loader raises `FileNotFoundError`, and
      it does so before opening any workbook: the result is the same whatever
      `load_workbook` would do. */
  lemma NoCandidatesRaisesBeforeOpening(folder: string, listing: seq<NewestFile.Entry>,
                                        open1: string -> OpenOutcome, open2: string -> OpenOutcome,
                                        sheet: Option<string>)
    requires forall e :: e in listing ==> !NewestFile.IsXlsx(e)
    ensures Loaded(folder, listing, open1, sheet) ==
      Err(FileNotFoundError("No Excel files found in the specified folder: " + folder))
    ensures Loaded(folder, listing, open1, sheet) == Loaded(folder, listing, open2, sheet)
  {
    NewestFile.NewestIsEarliestLatest(listing);
  }

  /** Only the selected file is opened: two ways of opening files that agree on the
      newest `.xlsx` file give the same outcome. */
  lemma OnlyNewestFileIsOpened(folder: string, listing: seq<NewestFile.Entry>,
                               open1: string -> OpenOutcome, open2: string -> OpenOutcome,
                               sheet: Option<string>)
    requires NewestFile.Newest(listing).Some?
    requires open1(NewestFile.Newest(listing).value.name) == open2(NewestFile.Newest(listing).value.name)
    ensures Loaded(folder, listing, open1, sheet) == Loaded(folder, listing, open2, sheet)
  {
  }

  /** Any failure to open the chosen workbook is reported as `FileNotFoundError`,
      carrying the underlying message, and no records are returned. */
  lemma OpenFailureIsFileNotFound(folder: string, listing: seq<NewestFile.Entry>,
                                  open: string -> OpenOutcome, sheet: Option<string>)
    requires NewestFile.Newest(listing).Some?
    requires open(NewestFile.Newest(listing).value.name).OpenFailed?
    ensures Loaded(folder, listing, open, sheet) ==
      Err(FileNotFoundError("Failed to load the workbook: " + open(NewestFile.Newest(listing).value.name).reason))
  {
  }

  /** `sheet=None` reads the first sheet (and raises `IndexError` on a workbook without
      sheets); a named sheet is read when it exists, and otherwise `ValueError` is
      raised. */
  lemma SheetResolution(b: Book, sheet: Option<string>)
    ensures sheet.None? && SheetNames(b) != [] ==>
      ResolveSheet(b, sheet) == Ok(b.sheets[0].1)
    ensures sheet.None? && SheetNames(b) == [] ==> ResolveSheet(b, sheet) == Err(IndexError)
    ensures sheet.Some? ==>
      (ResolveSheet(b, sheet).Ok? <==> sheet.value in SheetNames(b))
    ensures sheet.Some? && sheet.value !in SheetNames(b) ==>
      ResolveSheet(b, sheet) == Err(ValueError("Sheet '" + sheet.value + "' not found in workbook."))
    ensures ResolveSheet(b, sheet).Ok? ==>
      exists name :: name in SheetNames(b) && (name, ResolveSheet(b, sheet).value) in b.sheets
  {
    if sheet.Some? {
      SheetNamedFindsListedNames(b, sheet.value);
    } else if SheetNames(b) != [] {
      SheetNamedFindsListedNames(b, SheetNames(b)[0]);
    }
  }

  /** Called without a `sheet` argument, as the test module calls it, the loader looks
      for the sheet literally named "Sheet": when the newest workbook has sheets but
      none of that name, it raises `ValueError` instead of reading the first sheet. */
  lemma DefaultSheetIsLiteralName(folder: string, listing: seq<NewestFile.Entry>,
                                  open: string -> OpenOutcome)
    requires NewestFile.Newest(listing).Some?
    requires open(NewestFile.Newest(listing).value.name).Opened?
    requires open(NewestFile.Newest(listing).value.name).book.sheets != []
    requires DefaultSheet !in SheetNames(open(NewestFile.Newest(listing).value.name).book)
    ensures Loaded(folder, listing, open) == Err(ValueError("Sheet '" + DefaultSheet + "' not found in workbook."))
  {
    SheetResolution(open(NewestFile.Newest(listing).value.name).book, Some(DefaultSheet));
  }

  /** Any sheet name missing from the newest workbook's `sheetnames` makes the loader
      raise `ValueError` naming that sheet. */
  lemma UnknownSheetIsValueError(folder: string, listing: seq<NewestFile.Entry>,
                                 open: string -> OpenOutcome, name: string)
    requires NewestFile.Newest(listing).Some?
    requires open(NewestFile.Newest(listing).value.name).Opened?
    requires name !in SheetNames(open(NewestFile.Newest(listing).value.name).book)
    ensures Loaded(folder, listing, open, Some(name)) == Err(ValueError("Sheet '" + name + "' not found in workbook."))
  {
    SheetResolution(open(NewestFile.Newest(listing).value.name).book, Some(name));
  }

  /** On success the loader returns exactly `max(max_row - 1, 0)` records; record k comes
      from physical row k + 2, has the row-1 headers as its keys, and holds under each
      header the cell of the rightmost column carrying it. */
  lemma LoadedRecords(folder: string, listing: seq<NewestFile.Entry>,
                      open: string -> OpenOutcome, sheet: Option<string>, k: int, c: int)
    requires Loaded(folder, listing, open, sheet).Ok?
    ensures var sh := ResolveSheet(open(NewestFile.Newest(listing).value.name).book, sheet).value;
      var rs := Loaded(folder, listing, open, sheet).value;
      |rs| == RowCount(sh) &&
      (0 <= k < |rs| ==> rs[k] == RowRecord(sh, k + 2)) &&
      (0 <= k < |rs| && 1 <= c <= sh.maxColumn &&
       (forall j :: c < j <= sh.maxColumn ==> Header(sh, j) != Header(sh, c)) ==>
         Header(sh, c) in rs[k] && rs[k][Header(sh, c)] == Cell(sh, k + 2, c))
  {
    var sh := ResolveSheet(open(NewestFile.Newest(listing).value.name).book, sheet).value;
    if 0 <= k < RowCount(sh) && 1 <= c <= sh.maxColumn {
      if forall j :: c < j <= sh.maxColumn ==> Header(sh, j) != Header(sh, c) {
        RecordValueIsRightmostCell(sh, k + 2, c);
      }
    }
  }

  /** The loader fails exactly when there is no `.xlsx` file, the newest one cannot be
      opened, or the sheet cannot be resolved; it never returns a partial result. */
  lemma LoadedSucceedsIff(folder: string, listing: seq<NewestFile.Entry>,
                          open: string -> OpenOutcome, sheet: Option<string>)
    ensures Loaded(folder, listing, open, sheet).Ok? <==>
      (exists e :: e in listing && NewestFile.IsXlsx(e)) &&
      open(NewestFile.Newest(listing).value.name).Opened? &&
      ResolveSheet(open(NewestFile.Newest(listing).value.name).book, sheet).Ok?
  {
    NewestFile.NewestIsEarliestLatest(listing);
  }
}
