/**
 * Structural operations of the table block: creation, cell and row lookup,
 * inserting and deleting rows and columns, toggling a section and the
 * emptiness tests they rely on. Every operation is a function of its inputs.
 * `InsertRow` and `ToggleSection` return their input table when they have
 * nothing to add; `DeleteRow` past the end returns the section unchanged, as
 * a partial update like every other row operation's result.
 */
module TableState {
  import opened Wrappers
  import opened TableModel

  // ---------------------------------------------------------------- creation

  /** A table with only a body of `rowCount` rows of `columnCount` blank data cells. */
  function CreateTable(rowCount: nat, columnCount: nat): (t: Table)
    ensures t.head == None && t.foot == None && t.body.Some?
    ensures |Rows(t, Body)| == rowCount
    ensures forall i :: 0 <= i < rowCount ==> Rows(t, Body)[i].cells.Some?
    ensures forall loc :: (GetCell(t, loc) ==
                            if loc.sectionName == Body && loc.rowIndex < rowCount && loc.columnIndex < columnCount
                            then Some(map["content" := "", "tag" := "td"])
                            else None)
  {
    Table(None, Some(seq(rowCount, _ => Row(Some(seq(columnCount, _ => BlankCell(Body)))))), None)
  }

  // ------------------------------------------------------------------ lookup

  /** The value of attribute `name` of the cell at `loc`, if both exist. */
  function GetCellAttribute(t: Table, loc: CellLocation, name: string): (r: Option<string>)
    ensures r.Some? <==> HasCell(t, loc) && name in GetCell(t, loc).value
    ensures r.Some? ==> r.value == GetCell(t, loc).value[name]
  {
    match GetCell(t, loc)
    case None => None
    case Some(cell) => if name in cell then Some(cell[name]) else None
  }

  /** The row a cell location points into; its column is ignored. */
  function GetRow(t: Table, loc: CellLocation): (r: Option<Row>)
    ensures r.Some? <==> loc.rowIndex < |Rows(t, loc.sectionName)|
    ensures r.Some? ==> r.value == Rows(t, loc.sectionName)[loc.rowIndex]
    ensures r.Some? ==> forall j: nat :: GetCell(t, loc.(columnIndex := j)) ==
                                         (if j < |CellsOf(r.value)| then Some(CellsOf(r.value)[j]) else None)
  {
    var rows := Rows(t, loc.sectionName);
    if loc.rowIndex < |rows| then Some(rows[loc.rowIndex]) else None
  }

  // --------------------------------------------------------------- emptiness

  /** A row is empty when it has no `cells` or a zero-length `cells`. */
  predicate IsEmptyRow(row: Row)
    ensures IsEmptyRow(row) <==> |CellsOf(row)| == 0
  {
    row.cells.None? || row.cells.value == []
  }

  /** A section is empty when it has no rows or only empty rows. */
  predicate IsEmptyTableSection(rows: seq<Row>)
    ensures IsEmptyTableSection(rows) <==> forall i :: 0 <= i < |rows| ==> IsEmptyRow(rows[i])
  {
    rows == [] || (IsEmptyRow(rows[0]) && IsEmptyTableSection(rows[1..]))
  }

  // -------------------------------------------------------------------- rows

  /**
   * Cells of a new row: `columnCount` when given, else as many as the table's
   * first row has (row 0 of the first section, in head, body, foot order, that
   * has rows), whichever section the row goes into.
   */
  function NewRowCellCount(t: Table, columnCount: Option<nat>): nat
  {
    match columnCount
    case Some(n) => n
    case None => |FirstRowCells(t)|
  }

  /** The `align` of the cell in column `j` of the table's first row, if it has one. */
  function FirstRowAlign(t: Table, j: nat): Option<string>
  {
    var cells := FirstRowCells(t);
    if j < |cells| && "align" in cells[j] then Some(cells[j]["align"]) else None
  }

  /**
   * The row `insertRow` adds to section `s`: `n` blank cells tagged for the
   * section, each inheriting the `align` of the cell in its column of the
   * table's first row.
   */
  function NewRow(t: Table, s: SectionName, n: nat): (row: Row)
    ensures row.cells.Some? && |CellsOf(row)| == n
    ensures forall j :: 0 <= j < n ==>
      && CellsOf(row)[j].Keys <= {"content", "tag", "align"}
      && "content" in CellsOf(row)[j] && CellsOf(row)[j]["content"] == ""
      && "tag" in CellsOf(row)[j] && CellsOf(row)[j]["tag"] == TagFor(s)
      && ("align" in CellsOf(row)[j] <==> FirstRowAlign(t, j).Some?)
      && ("align" in CellsOf(row)[j] ==> CellsOf(row)[j]["align"] == FirstRowAlign(t, j).value)
  {
    Row(Some(seq(n, j requires 0 <= j < n =>
      match FirstRowAlign(t, j)
      case None => BlankCell(s)
      case Some(a) => BlankCell(s)["align" := a])))
  }

  /** A position clamped to a sequence's length, as JavaScript `slice` does. */
  function Clamp(i: nat, len: nat): nat
  {
    if i <= len then i else len
  }

  /**
   * Inserts a row at `rowIndex` in section `s`. When the number of cells is
   * zero or cannot be determined the input table is returned; otherwise the
   * result holds only section `s` (the caller merges it into the block).
   */
  function InsertRow(t: Table, s: SectionName, rowIndex: nat, columnCount: Option<nat>): (r: Table)
    ensures NewRowCellCount(t, columnCount) == 0 ==> r == t
    ensures NewRowCellCount(t, columnCount) > 0 ==>
      var rows, k := Rows(t, s), Clamp(rowIndex, |Rows(t, s)|);
      && Section(r, s).Some?
      && (forall s' :: s' != s ==> Section(r, s') == None)
      && |Rows(r, s)| == |rows| + 1
      && Rows(r, s)[k] == NewRow(t, s, NewRowCellCount(t, columnCount))
      && (forall i :: 0 <= i < k ==> Rows(r, s)[i] == rows[i])
      && (forall i :: k <= i < |rows| ==> Rows(r, s)[i + 1] == rows[i])
  {
    var rows := Rows(t, s);
    var n := NewRowCellCount(t, columnCount);
    if n == 0 then t
    else
      var row := NewRow(t, s, n);
      InsertedRowPlacement(s, rows, rowIndex, row);
      Only(s, InsertAt(rows, rowIndex, row))
  }

  /** Where a row inserted into section `s` lands in the partial update. */
  lemma InsertedRowPlacement(s: SectionName, rows: seq<Row>, rowIndex: nat, row: Row)
    ensures var r, k := Only(s, InsertAt(rows, rowIndex, row)), Clamp(rowIndex, |rows|);
      && Rows(r, s) == InsertAt(rows, rowIndex, row)
      && |Rows(r, s)| == |rows| + 1
      && Rows(r, s)[k] == row
      && (forall i :: 0 <= i < k ==> Rows(r, s)[i] == rows[i])
      && (forall i :: k <= i < |rows| ==> Rows(r, s)[i + 1] == rows[i])
  {
  }

  /** Removes the row at `rowIndex` of section `s`; the result holds only that section. */
  function DeleteRow(t: Table, s: SectionName, rowIndex: nat): (r: Table)
    ensures forall s' :: s' != s ==> Section(r, s') == None
    ensures Section(r, s).Some?
    ensures rowIndex < |Rows(t, s)| ==> Rows(r, s) == Rows(t, s)[..rowIndex] + Rows(t, s)[rowIndex + 1..]
    ensures rowIndex >= |Rows(t, s)| ==> Rows(r, s) == Rows(t, s)
  {
    Only(s, RemoveAt(Rows(t, s), rowIndex))
  }

  // ----------------------------------------------------------------- columns

  /** A row gains a cell at column `c` when it has cells and at least `c` of them. */
  predicate TakesNewColumn(row: Row, c: nat)
  {
    !IsEmptyRow(row) && c <= |CellsOf(row)|
  }

  function InsertColumnInRow(row: Row, s: SectionName, c: nat): (r: Row)
    ensures !TakesNewColumn(row, c) ==> r == row
    ensures TakesNewColumn(row, c) ==>
      && r.cells.Some?
      && |CellsOf(r)| == |CellsOf(row)| + 1
      && CellsOf(r)[c] == BlankCell(s)
      && (forall j :: 0 <= j < c ==> CellsOf(r)[j] == CellsOf(row)[j])
      && (forall j :: c <= j < |CellsOf(row)| ==> CellsOf(r)[j + 1] == CellsOf(row)[j])
  {
    if TakesNewColumn(row, c) then Row(Some(InsertAt(CellsOf(row), c, BlankCell(s)))) else row
  }

  function InsertColumnInSection(section: Option<seq<Row>>, s: SectionName, c: nat): (r: Option<seq<Row>>)
    ensures r.Some? <==> section.Some?
    ensures section.Some? ==> |r.value| == |section.value|
    ensures section.Some? ==> forall i :: 0 <= i < |section.value| ==> r.value[i] == InsertColumnInRow(section.value[i], s, c)
  {
    match section
    case None => None
    case Some(rows) => Some(seq(|rows|, i requires 0 <= i < |rows| => InsertColumnInRow(rows[i], s, c)))
  }

  /**
   * Inserts a blank cell at column `c` of every row, in every section, that
   * has cells and at least `c` of them; all other rows are left as they are.
   */
  function InsertColumn(t: Table, c: nat): (r: Table)
    ensures forall s :: Section(r, s).Some? <==> Section(t, s).Some?
    ensures forall s :: |Rows(r, s)| == |Rows(t, s)|
    ensures forall s, i :: 0 <= i < |Rows(t, s)| ==> Rows(r, s)[i] == InsertColumnInRow(Rows(t, s)[i], s, c)
  {
    Table(InsertColumnInSection(t.head, Head, c),
          InsertColumnInSection(t.body, Body, c),
          InsertColumnInSection(t.foot, Foot, c))
  }

  /** Whether a row still has cells once column `c` is deleted from it. */
  predicate SurvivesDelete(row: Row, c: nat)
  {
    |CellsOf(row)| > 1 || (|CellsOf(row)| == 1 && c > 0)
  }

  /** The number of rows that keep at least one cell when column `c` is deleted. */
  function SurvivorCount(rows: seq<Row>, c: nat): nat
  {
    if rows == [] then 0 else (if SurvivesDelete(rows[0], c) then 1 else 0) + SurvivorCount(rows[1..], c)
  }

  function DeleteColumnInRow(row: Row, c: nat): (r: Row)
    ensures r.cells.Some?
    ensures c < |CellsOf(row)| ==> CellsOf(r) == CellsOf(row)[..c] + CellsOf(row)[c + 1..]
    ensures c >= |CellsOf(row)| ==> CellsOf(r) == CellsOf(row)
    ensures IsEmptyRow(r) <==> !SurvivesDelete(row, c)
  {
    Row(Some(RemoveAt(CellsOf(row), c)))
  }

  /** What one row contributes once column `c` is deleted: the shortened row, or nothing. */
  function KeptRow(row: Row, c: nat): (r: seq<Row>)
    ensures |r| == if SurvivesDelete(row, c) then 1 else 0
    ensures |r| == 1 ==> r[0] == DeleteColumnInRow(row, c) && !IsEmptyRow(r[0])
  {
    var shortened := DeleteColumnInRow(row, c);
    if IsEmptyRow(shortened) then [] else [shortened]
  }

  /**
   * Deletes column `c` from every row that has it and then drops every row
   * left without cells, keeping the order of the others.
   */
  function DeleteColumnInRows(rows: seq<Row>, c: nat): (r: seq<Row>)
    ensures forall i :: 0 <= i < |r| ==> !IsEmptyRow(r[i])
    ensures |r| == SurvivorCount(rows, c)
    decreases rows
  {
    if rows == [] then []
    else
      var kept, rest := KeptRow(rows[0], c), DeleteColumnInRows(rows[1..], c);
      NoEmptyRowInConcatenation(kept, rest);
      kept + rest
  }

  /** Joining two runs of rows that have no empty row gives a run with no empty row. */
  lemma NoEmptyRowInConcatenation(a: seq<Row>, b: seq<Row>)
    requires forall i :: 0 <= i < |a| ==> !IsEmptyRow(a[i])
    requires forall i :: 0 <= i < |b| ==> !IsEmptyRow(b[i])
    ensures forall i :: 0 <= i < |a + b| ==> !IsEmptyRow((a + b)[i])
  {
    forall i | 0 <= i < |a + b| ensures !IsEmptyRow((a + b)[i]) {
      if i < |a| {
        assert (a + b)[i] == a[i];
      } else {
        assert (a + b)[i] == b[i - |a|];
      }
    }
  }

  /** Unfolds one step of `DeleteColumnInRows`. */
  lemma DeleteColumnStep(rows: seq<Row>, c: nat)
    requires rows != []
    ensures DeleteColumnInRows(rows, c) == KeptRow(rows[0], c) + DeleteColumnInRows(rows[1..], c)
  {
  }

  /** Unfolds one step of `DeleteColumnInRows` at a row that keeps a cell. */
  lemma DeleteColumnStepAtSurvivor(rows: seq<Row>, c: nat)
    requires rows != [] && SurvivesDelete(rows[0], c)
    ensures DeleteColumnInRows(rows, c) == [DeleteColumnInRow(rows[0], c)] + DeleteColumnInRows(rows[1..], c)
  {
    DeleteColumnStep(rows, c);
  }

  /** When every row keeps a cell, each row is that row minus column `c`, in place. */
  lemma {:induction false} DeleteColumnWhenAllSurvive(rows: seq<Row>, c: nat)
    requires forall i :: 0 <= i < |rows| ==> SurvivesDelete(rows[i], c)
    ensures |DeleteColumnInRows(rows, c)| == |rows|
    ensures forall i :: 0 <= i < |rows| ==> DeleteColumnInRows(rows, c)[i] == DeleteColumnInRow(rows[i], c)
    decreases rows
  {
    if rows != [] {
      var tail := rows[1..];
      forall i | 0 <= i < |tail| ensures SurvivesDelete(tail[i], c) {
        assert tail[i] == rows[i + 1];
      }
      DeleteColumnWhenAllSurvive(tail, c);
      DeleteColumnStepAtSurvivor(rows, c);
      ConsIndex(DeleteColumnInRow(rows[0], c), DeleteColumnInRows(tail, c));
    }
  }

  function DeleteColumnInSection(section: Option<seq<Row>>, c: nat): (r: Option<seq<Row>>)
    ensures r.Some? <==> section.Some?
    ensures section.Some? ==> r.value == DeleteColumnInRows(section.value, c)
  {
    match section
    case None => None
    case Some(rows) => Some(DeleteColumnInRows(rows, c))
  }

  /** Deletes column `c` across all sections; a row left with no cells is removed. */
  function DeleteColumn(t: Table, c: nat): (r: Table)
    ensures forall s :: Section(r, s).Some? <==> Section(t, s).Some?
    ensures forall s :: Rows(r, s) == DeleteColumnInRows(Rows(t, s), c)
  {
    Table(DeleteColumnInSection(t.head, c),
          DeleteColumnInSection(t.body, c),
          DeleteColumnInSection(t.foot, c))
  }

  // ---------------------------------------------------------------- sections

  /** Cells of the row that toggling a section adds: as many as the body's first row has, else 1. */
  function ToggleColumnCount(t: Table): nat
  {
    var body := Rows(t, Body);
    if |body| == 0 then 1
    else match body[0].cells
      case None => 1
      case Some(cells) => |cells|
  }

  /**
   * Clears a section that has a non-empty row; otherwise adds one blank row
   * at its top (a no-op when the body's first row has zero cells).
   */
  function ToggleSection(t: Table, s: SectionName): (r: Table)
    ensures !IsEmptyTableSection(Rows(t, s)) ==> r == Only(s, [])
    ensures IsEmptyTableSection(Rows(t, s)) && ToggleColumnCount(t) == 0 ==> r == t
    ensures IsEmptyTableSection(Rows(t, s)) && ToggleColumnCount(t) > 0 ==>
      && Section(r, s).Some?
      && (forall s' :: s' != s ==> Section(r, s') == None)
      && |Rows(r, s)| == |Rows(t, s)| + 1
      && Rows(r, s)[1..] == Rows(t, s)
      && Rows(r, s)[0] == NewRow(t, s, ToggleColumnCount(t))
  {
    if !IsEmptyTableSection(Rows(t, s)) then Only(s, [])
    else InsertRow(t, s, 0, Some(ToggleColumnCount(t)))
  }
}
