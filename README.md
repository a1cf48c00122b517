# XpertBot test harness: the data loader and the screenshot hook, modelled in Dafny

The repository is a Selenium/pytest harness for the XpertBot Academy login page.
Apart from the browser calls, two parts of it have logic of their own, and this
project models and verifies both:

- **The newest-spreadsheet loader** `get_newest_excel_file` (utilities/utils.py). It
  lists a test-data folder and keeps the `.xlsx` names. It picks the file with the
  latest creation time, using a stable descending sort and taking its head. It opens
  that workbook, picks a sheet, and returns one header -> value dict per row after the
  header row.
- **The screenshot hook** `pytest_runtest_makereport` (tests/conftest.py). When the
  `call` phase of a test fails, it saves a screenshot. The file is named after the
  sanitised node id (`[`, `]`, `/`, `\`, `:` become `_`, then `.png` is appended). If
  the file exists afterwards, the hook appends one HTML snippet to the report's extras.
  A `WebDriverException` raised while capturing is swallowed.

Modules, one per component:

- `Wrappers` (wrappers.dfy): `Option`, for Python's value-or-`None`.
- `Workbook` (workbook.dfy): cell values, sheets with their `max_row`/`max_column` and
  cells, and workbooks as an ordered list of named sheets.
- `NewestFile` (newest_file.dfy): the `.xlsx` filter, the stable newest-first sort and
  the selection of its head.
- `Records` (records.dfy): the nested loops that turn a sheet into records, written as
  methods with loop invariants and proved against the function `RowRecord`.
- `Loader` (loader.dfy): the whole loader. The function `Loaded` states its result or
  exception. The method `GetNewestExcelFile` follows the source step by step and is
  proved equal to `Loaded`.
- `ScreenshotHook` (screenshot_hook.dfy): the sanitiser, the file name, the HTML
  snippet and the extras update as functions of the report and of what the capture
  did.

What the outside world does is passed in as an input:

- the folder listing is a sequence of (name, creation time) pairs in `os.listdir` order;
- `load_workbook` is a function from the chosen file name to a workbook or a failure
  message;
- the screenshot capture is its outcome: an exception, or "saved" with whether the
  file then exists;
- the presence of the pytest-html plugin is a boolean.

Behaviour worth noting:

- Any failure to open the chosen workbook is raised as `FileNotFoundError`.
- A sheet name missing from the workbook raises `ValueError`.
- An empty header cell contributes the key `None` to every record.
- The docstring of `get_newest_excel_file` says the sheet "defaults to the first
  sheet" (utilities/utils.py:64). The default argument is in fact the literal name
  `"Sheet"` (line 56). Only `sheet=None` selects the first sheet. The model gives
  `Loaded` and `GetNewestExcelFile` the same default, and
  `Loader.DefaultSheetIsLiteralName` shows what that means.
- The hook reads the report's `extra` attribute but writes `extras`. The model's input
  is therefore the `extra` list (absent means `[]`), and its output is the new value
  of `extras`.
- A `"` in a node id is not replaced by the sanitiser. It survives into the file name
  and ends the snippet's `src` attribute early (`ScreenshotHook.QuoteInNodeIdCutsSrc`).

## Model

| member | source | states |
|---|---|---|
| `NewestFile.Candidates` | utilities/utils.py:68 | an entry is a candidate iff it is listed and its name ends in `.xlsx` |
| `NewestFile.CandidatesKeepMultiplicity` | utilities/utils.py:68 | the filter keeps every `.xlsx` entry as many times as it is listed and drops every other entry |
| `NewestFile.SortNewestFirst` | utilities/utils.py:76-77 | the sorted list is a permutation of the candidates (same multiset) with creation times non-increasing |
| `NewestFile.InsertNewestFirst` | utilities/utils.py:76-77 | one stable insertion step adds exactly the new entry (multiset of the list plus the entry) |
| `NewestFile.InsertKeepsNewestFirst` | utilities/utils.py:76-77 | inserting into a newest-first list keeps it newest-first |
| `NewestFile.NewestIsEarliestLatest` | utilities/utils.py:68-81 | there is a selection iff some entry is `.xlsx`; the selected entry is a listed `.xlsx` entry whose ctime is at least that of every `.xlsx` entry, and every `.xlsx` entry listed before it is strictly older, so ties go to the earliest-listed file |
| `NewestFile.Newest` | utilities/utils.py:76-81 | `sorted_files[0]`: there is none iff there is no candidate, and otherwise it is a listed `.xlsx` entry. `NewestFile.NewestIsEarliestLatest` characterises which one |
| `Workbook.SheetNamedFindsListedNames` | utilities/utils.py:97-100 | `wb[name]` succeeds iff `name` is in `wb.sheetnames`, and yields a sheet registered under that name |
| `Workbook.SheetNamed` | utilities/utils.py:100 | `wb[name]`: a sheet it returns is registered under `name`. `Workbook.SheetNamedFindsListedNames` says when it succeeds |
| `Records.RightmostColumn` | utilities/utils.py:109-112 | the column whose value survives for header `h` is 0 iff no column 1..n has header `h`; otherwise it has header `h` and no column to its right does |
| `Records.RightmostRecordStep` | utilities/utils.py:110-112 | storing column n's value under its header into the record of columns 1..n-1 yields the record of columns 1..n, in which every header keeps its rightmost column's value |
| `Records.ColumnsRecordIsRightmost` | utilities/utils.py:108-112 | the dict built by storing `row_data[header] = value` column by column equals the direct definition, in which every header maps to its rightmost column's cell |
| `Records.ReadRow` | utilities/utils.py:108-112 | the inner loop produces the row's record over all `max_column` columns: every header maps to its rightmost column's cell |
| `Records.ExtractRecords` | utilities/utils.py:104-115 | the outer loop returns `max(max_row - 1, 0)` records, and record k is the record of physical row k + 2 (ascending row order) |
| `Records.RecordKeysAreHeaders` | utilities/utils.py:108-112 | a key is in a record iff it is the row-1 value of some column 1..max_column, `None` included |
| `Records.RecordValueIsRightmostCell` | utilities/utils.py:108-112 | under the header of column c the record holds that row's cell in column c when no column further right repeats the header (rightmost wins; empty cells stay `None`) |
| `Records.UniqueHeaderValue` | utilities/utils.py:110-112 | a header standing in exactly one column maps to that column's cell |
| `Loader.GetNewestExcelFile` | utilities/utils.py:59-115 | the loader, run step by step, returns or raises exactly what `Loaded` states |
| `Loader.Loaded` | utilities/utils.py:59-115 | the loader's result or exception: no candidate gives `FileNotFoundError`, `IndexError` arises only from `sheet=None`, success requires the newest file to open, and when that file opens but the sheet does not resolve the loader raises exactly the error sheet resolution gives (`ValueError` for a name not in `sheetnames`). `Loader.LoadedSucceedsIff` gives the exact success condition |
| `Loader.ResolveSheet` | utilities/utils.py:94-100 | `IndexError` iff `sheet=None` on a workbook without sheets; `sheet=None` otherwise gives the first sheet; any other failure is a `ValueError`. `Loader.SheetResolution` gives the full case split |
| `Loader.NamedSheet` | utilities/utils.py:97-100 | a name resolves iff it is in `sheetnames`, to a sheet registered under it; otherwise `ValueError` |
| `Loader.NoCandidatesRaisesBeforeOpening` | utilities/utils.py:68-73 | with no `.xlsx` name, the loader raises `FileNotFoundError` with the folder in the message, whatever `load_workbook` would do |
| `Loader.OnlyNewestFileIsOpened` | utilities/utils.py:81-91 | the outcome depends on `load_workbook` only through the selected file |
| `Loader.OpenFailureIsFileNotFound` | utilities/utils.py:88-91 | any failure to open the chosen workbook is raised as `FileNotFoundError` carrying the underlying message, and no records are returned |
| `Loader.SheetResolution` | utilities/utils.py:94-100 | `sheet=None` gives the first sheet (`IndexError` for a workbook without sheets); a name resolves iff it is in `sheetnames`, otherwise `ValueError` naming the sheet |
| `Loader.DefaultSheetIsLiteralName` | utilities/utils.py:56-98 | called with the default argument, when the newest workbook has sheets but none named "Sheet", the loader raises `ValueError` and does not fall back to the first sheet |
| `Loader.UnknownSheetIsValueError` | utilities/utils.py:97-98 | for every sheet name missing from the newest workbook's `sheetnames`, the loader raises `ValueError` with the message naming that sheet |
| `Loader.LoadedRecords` | utilities/utils.py:101-115 | on success there are `max(max_row - 1, 0)` records; record k is row k + 2's record, and each header holds the cell of the rightmost column carrying it |
| `Loader.LoadedSucceedsIff` | utilities/utils.py:68-115 | the loader succeeds iff an `.xlsx` file exists, the newest one opens and the sheet resolves; otherwise it raises, with no partial result |
| `ScreenshotHook.SafeNodeId` | tests/conftest.py:58 | the sanitised id has the node id's length; each of `[`, `]`, `/`, `\`, `:` becomes `_`, and every other character is kept at its position |
| `ScreenshotHook.SafeNodeIdHasNoForbiddenChars` | tests/conftest.py:58 | the sanitised id contains none of the five forbidden characters |
| `ScreenshotHook.SafeNodeIdIdempotent` | tests/conftest.py:58 | sanitising a sanitised id changes nothing |
| `ScreenshotHook.SafeNodeIdKeepsCleanIds` | tests/conftest.py:58 | an id with no forbidden character is left unchanged |
| `ScreenshotHook.SafeNodeIdMergesForbiddenChars` | tests/conftest.py:58-59 | ids that differ only in which forbidden character sits at a position get the same screenshot file name |
| `ScreenshotHook.ScreenshotFileName` | tests/conftest.py:59 | the file name is the sanitised id followed by `.png`; it is 4 characters longer than the node id and has no forbidden character |
| `ScreenshotHook.ScreenshotHtml` | tests/conftest.py:67-71 | for a file name without `"`, the `src` attribute read back from the snippet (the text after `src="` up to the next `"`) is exactly that file name |
| `ScreenshotHook.UpToQuote` | tests/conftest.py:67-71 | the raw `src` text is the longest prefix without `"`: a prefix, free of `"`, that ends at the end of the input or just before a `"` |
| `ScreenshotHook.UpToQuoteStopsAtQuote` | tests/conftest.py:67-71 | reading up to the next `"` recovers a text that contains no `"` |
| `ScreenshotHook.QuoteInNodeIdCutsSrc` | tests/conftest.py:58-71 | a `"` in the node id survives sanitising; the snippet's `src` attribute then stops at it and differs from the saved file's name |
| `ScreenshotHook.ExistingExtras` | tests/conftest.py:52 | `getattr(report, 'extra', [])`: the report's `extra` list, or `[]` when it has none |
| `ScreenshotHook.MakeReportExtras` | tests/conftest.py:50-77 | the hook sets `extras` to the existing list, possibly plus the one screenshot snippet. An exception escapes exactly when the call phase failed and either the capture raised something other than a `WebDriverException` or the saved file exists while the plugin is absent. When the call phase failed, the file was saved and exists and the plugin is loaded, the hook completes with the snippet appended to the existing list |
| `ScreenshotHook.NoCaptureUnlessFailedCall` | tests/conftest.py:52-54 | outside a failed `call` phase, `report.extras` is set to the existing `extra` list, whatever the capture or the plugin would do |
| `ScreenshotHook.AtMostOneExtraAppended` | tests/conftest.py:52-77 | when the hook completes, the extras are the existing list, or that list plus one HTML snippet. The snippet is appended iff the call phase failed, the screenshot exists and the plugin is loaded |
| `ScreenshotHook.WebDriverFailureIsSwallowed` | tests/conftest.py:74-77 | a `WebDriverException` during capture is swallowed, and `report.extras` is still set to the existing list |
| `ScreenshotHook.OnlyOtherExceptionsEscape` | tests/conftest.py:55-77 | an exception escapes the hook only from a failed `call` phase, and only one that is not a `WebDriverException` (a capture's own exception escapes unchanged) |

## Left out

- `AutomationLoggerClass.automation` (utilities/utils.py:13-51) is not modelled. It
  works through call-stack introspection, the process-wide `logging` registry,
  directory creation and file handlers.
- The real `os.listdir`, `os.path.getctime`, `os.path.join`, `load_workbook` and the
  `print` calls are inputs or are dropped. A failing `os.listdir` (missing folder) and
  a failing `getctime` raise the operating system's own error, which is not modelled.
  The hard-coded folder path `TESTDATA_FOLDER` is configuration.
- Cell values are modelled as `None`, text and numbers. Dates, booleans and formulas
  are not modelled, and neither is Python's key equality between `True` and `1`.
- openpyxl's `sh.cell()` creates empty cell objects in memory for coordinates that
  hold nothing. This is not modelled: the model treats the workbook as a read-only
  value, and no cell value changes in the source either.
- `NewestFile.Candidates`: the contract states which entries are kept and how often
  (`NewestFile.CandidatesKeepMultiplicity`), but not that they keep listing order.
  The effect of listing order on the selection is proved end to end by
  `NewestFile.NewestIsEarliestLatest`.
- `Records.Record` is a Dafny `map`, which has no key order. Python's `row_data` dict keeps
  its keys in first-insertion order (column order, first occurrence of each header);
  the model does not capture that order.
- `NewestFile.SortNewestFirst`: stability is proved only for the head of the sorted
  list, which is the only element the loader uses (`NewestFile.NewestIsEarliestLatest`).
  The relative order of equally new entries further down is not stated.
- The `sheet` argument is `Option<string>`. Python would also accept a non-string
  value here, which the model does not cover.
- The screenshot's directory (`os.path.dirname` of the HTML report path) and the
  `save_screenshot` and `os.path.exists` calls are summarised by the capture outcome.
  An exception from reading `item.cls.driver` or the report path is an "other
  exception" raised by the capture.
- `extra.append` mutates the list object that the report's `extra` attribute also
  refers to. The model returns the new list as a value, so this aliasing is not
  captured.
- The `launchbrowser` fixture, `pytest_configure`, utilities/functions.py (login and
  logout through Selenium), pages/framework_xpertbot_login_page.py, pages/creds.py and
  the test module are browser I/O or test orchestration, and are not part of this
  model.
