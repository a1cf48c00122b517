/** Turning a worksheet into records: row 1 holds the headers, and every later row
    becomes one header -> value mapping (utilities/utils.py, lines 100-113). */
module Records {
  import opened Workbook

  /** One output row: Python's `row_data` dict, keyed by header value. */
  type Record = map<Value, Value>

  /** The header of column `col`: the value in row 1. */
  function Header(sh: Sheet, col: int): Value
  {
    Cell(sh, 1, col)
  }

  /** The header values of columns 1..n, `None` included. */
  function HeadersUpTo(sh: Sheet, n: nat): set<Value>
  {
    set c | 1 <= c <= n :: Header(sh, c)
  }

  /** The number of records: one per physical row after the header row. */
  function RowCount(sh: Sheet): nat
  {
    if sh.maxRow >= 1 then sh.maxRow - 1 else 0
  }

  /** The last of columns 1..n whose header is `h`, or 0 when none is. */
  function RightmostColumn(sh: Sheet, h: Value, n: nat): (c: nat)
    ensures c <= n
    ensures c == 0 <==> forall k :: 1 <= k <= n ==> Header(sh, k) != h
    ensures c > 0 ==> Header(sh, c) == h && forall k :: c < k <= n ==> Header(sh, k) != h
  {
    if n == 0 then 0
    else if Header(sh, n) == h then n
    else RightmostColumn(sh, h, n - 1)
  }

  /** The record for `row` built from columns 1..n as the source builds it: start
      from an empty dict and store `row_data[header] = value` column by column. */
  function ColumnsRecord(sh: Sheet, row: int, n: nat): Record
  {
    if n == 0 then map[] else ColumnsRecord(sh, row, n - 1)[Header(sh, n) := Cell(sh, row, n)]
  }

  /** The record for `row` over columns 1..n, stated directly: each header of those
      columns maps to the row's value under the rightmost column carrying it. */
  function RightmostRecord(sh: Sheet, row: int, n: nat): Record
  {
    map h | h in HeadersUpTo(sh, n) :: Cell(sh, row, RightmostColumn(sh, h, n))
  }

  /** The record of physical row `row`, over all `max_column` columns. */
  function RowRecord(sh: Sheet, row: int): Record
  {
    RightmostRecord(sh, row, sh.maxColumn)
  }

  /** Over no columns the record is empty. */
  lemma RightmostRecordEmpty(sh: Sheet, row: int)
    ensures RightmostRecord(sh, row, 0) == map[]
  {
    assert HeadersUpTo(sh, 0) == {};
  }

  /** The headers of columns 1..n+1 are those of columns 1..n plus that of column n+1. */
  lemma HeadersUpToStep(sh: Sheet, n: nat)
    ensures HeadersUpTo(sh, n + 1) == HeadersUpTo(sh, n) + {Header(sh, n + 1)}
  {
    forall h | h in HeadersUpTo(sh, n + 1) ensures h in HeadersUpTo(sh, n) || h == Header(sh, n + 1) {
      var c :| 1 <= c <= n + 1 && Header(sh, c) == h;
      if c <= n { assert h in HeadersUpTo(sh, n); }
    }
    forall h | h in HeadersUpTo(sh, n) ensures h in HeadersUpTo(sh, n + 1) {
      var c :| 1 <= c <= n && Header(sh, c) == h;
    }
  }

  /** Storing column n into the direct record of columns 1..n-1 gives the direct
      record of columns 1..n: a later column with an already-seen header overwrites
      the earlier value. */
  lemma RightmostRecordStep(sh: Sheet, row: int, n: nat)
    requires n >= 1
    ensures RightmostRecord(sh, row, n) ==
      RightmostRecord(sh, row, n - 1)[Header(sh, n) := Cell(sh, row, n)]
  {
    var after := RightmostRecord(sh, row, n);
    var updated := RightmostRecord(sh, row, n - 1)[Header(sh, n) := Cell(sh, row, n)];
    HeadersUpToStep(sh, n - 1);
    assert after.Keys == updated.Keys;
    forall h | h in after.Keys ensures after[h] == updated[h] {
      if h != Header(sh, n) {
        assert RightmostColumn(sh, h, n) == RightmostColumn(sh, h, n - 1);
      }
    }
  }

  /** The dict the loop builds is the direct record: the overwrite-as-you-go
      construction keeps, for every header, the value of its rightmost column. */
  lemma {:induction false} ColumnsRecordIsRightmost(sh: Sheet, row: int, n: nat)
    ensures ColumnsRecord(sh, row, n) == RightmostRecord(sh, row, n)
  {
    if n == 0 {
      RightmostRecordEmpty(sh, row);
    } else {
      ColumnsRecordIsRightmost(sh, row, n - 1);
      RightmostRecordStep(sh, row, n);
    }
  }

  /** The inner loop of the extraction: a fresh `row_data` dict filled column by
      column with `row_data[header] = value`. */
  method ReadRow(sh: Sheet, row: int) returns (rowData: Record)
    ensures rowData == RowRecord(sh, row)
  {
    rowData := map[];
    var col := 1;
    while col <= sh.maxColumn
      invariant 1 <= col <= sh.maxColumn + 1
      invariant rowData == ColumnsRecord(sh, row, col - 1)
    {
      rowData := rowData[Header(sh, col) := Cell(sh, row, col)];
      col := col + 1;
    }
    ColumnsRecordIsRightmost(sh, row, sh.maxColumn);
  }

  /** `datalist`: one record per row 2..max_row, appended in ascending row order. */
  method ExtractRecords(sh: Sheet) returns (datalist: seq<Record>)
    ensures |datalist| == RowCount(sh)
    ensures forall k :: 0 <= k < |datalist| ==> datalist[k] == RowRecord(sh, k + 2)
  {
    datalist := [];
    var row := 2;
    while row <= sh.maxRow
      invariant 2 <= row <= if sh.maxRow >= 2 then sh.maxRow + 1 else 2
      invariant |datalist| == row - 2
      invariant forall k :: 0 <= k < |datalist| ==> datalist[k] == RowRecord(sh, k + 2)
    {
      var rowData := ReadRow(sh, row);
      datalist := datalist + [rowData];
      row := row + 1;
    }
  }

  /** A record's keys are exactly the header values of columns 1..max_column,
      including `None` for an empty header cell. */
  lemma RecordKeysAreHeaders(sh: Sheet, row: int, h: Value)
    ensures h in RowRecord(sh, row) <==> exists c :: 1 <= c <= sh.maxColumn && Header(sh, c) == h
  {
  }

  /** The value stored under a column's header is that column's cell in the row,
      provided no column further right repeats the header (the rightmost one wins);
      an empty cell is kept as `None`. */
  lemma RecordValueIsRightmostCell(sh: Sheet, row: int, c: int)
    requires 1 <= c <= sh.maxColumn
    requires forall k :: c < k <= sh.maxColumn ==> Header(sh, k) != Header(sh, c)
    ensures Header(sh, c) in RowRecord(sh, row)
    ensures RowRecord(sh, row)[Header(sh, c)] == Cell(sh, row, c)
  {
    assert Header(sh, c) in HeadersUpTo(sh, sh.maxColumn);
  }

  /** A header that stands in exactly one column maps to that column's cell. */
  lemma UniqueHeaderValue(sh: Sheet, row: int, c: int)
    requires 1 <= c <= sh.maxColumn
    requires forall k :: 1 <= k <= sh.maxColumn && k != c ==> Header(sh, k) != Header(sh, c)
    ensures RowRecord(sh, row)[Header(sh, c)] == Cell(sh, row, c)
  {
    RecordValueIsRightmostCell(sh, row, c);
  }
}
