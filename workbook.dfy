/** The part of an openpyxl workbook that the data loader reads: an ordered list of
    named sheets, each a grid of cells with its `max_row` and `max_column`. */
module Workbook {
  import opened Wrappers

  /** A cell value. `Empty` is Python's `None` (an empty cell, or an empty header). */
  datatype Value = Empty | Text(text: string) | Number(number: real)

  /** A worksheet: its reported dimensions and the cells that hold a value,
      keyed by (row, column), both 1-based. */
  datatype Sheet = Sheet(maxRow: nat, maxColumn: nat, cells: map<(int, int), Value>)

  /** A loaded workbook: its sheets in workbook order. */
  datatype Book = Book(sheets: seq<(string, Sheet)>)

  /** `sh.cell(row=r, column=c).value`: a cell that holds nothing reads as `None`. */
  function Cell(sh: Sheet, row: int, col: int): Value
  {
    if (row, col) in sh.cells then sh.cells[(row, col)] else Empty
  }

  /** `wb.sheetnames`: the sheet names in workbook order. */
  function SheetNames(b: Book): (names: seq<string>)
    ensures |names| == |b.sheets|
    ensures forall i :: 0 <= i < |b.sheets| ==> names[i] == b.sheets[i].0
  {
    seq(|b.sheets|, i requires 0 <= i < |b.sheets| => b.sheets[i].0)
  }

  /** `wb[name]`: the sheet called `name`, if the workbook has one. */
  function SheetNamed(b: Book, name: string): (r: Option<Sheet>)
    ensures r.Some? ==> (name, r.value) in b.sheets
    decreases |b.sheets|
  {
    if b.sheets == [] then None
    else if b.sheets[0].0 == name then Some(b.sheets[0].1)
    else SheetNamed(Book(b.sheets[1..]), name)
  }

  /** `wb[name]` succeeds exactly for the names listed in `wb.sheetnames`, and then
      yields a sheet registered under that name. */
  lemma {:induction false} SheetNamedFindsListedNames(b: Book, name: string)
    ensures SheetNamed(b, name).Some? <==> name in SheetNames(b)
    ensures SheetNamed(b, name).Some? ==> (name, SheetNamed(b, name).value) in b.sheets
    decreases |b.sheets|
  {
    if b.sheets != [] {
      var rest := Book(b.sheets[1..]);
      SheetNamedFindsListedNames(rest, name);
      assert SheetNames(b) == [b.sheets[0].0] + SheetNames(rest);
    }
  }
}
