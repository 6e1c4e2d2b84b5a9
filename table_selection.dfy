/**
 * Selections over a table (one cell, one column across all sections, or the
 * whole table) and the bulk update of the selected cells.
 */
module TableSelection {
  import opened Wrappers
  import opened TableModel

  datatype Selection =
    | CellSelection(sectionName: SectionName, rowIndex: nat, columnIndex: nat)
    | ColumnSelection(columnIndex: nat)
    | WholeTableSelection

  /**
   * Whether the cell at `loc` is selected: never without a location or a
   * selection; a column selection matches its column in every section and
   * row; a cell selection matches its own location only; a table selection
   * matches no cell.
   */
  predicate IsCellSelected(loc: Option<CellLocation>, selection: Option<Selection>)
    ensures IsCellSelected(loc, selection) ==> loc.Some? && selection.Some? && !selection.value.WholeTableSelection?
    ensures loc.Some? && selection.Some? && selection.value.ColumnSelection? ==>
      (IsCellSelected(loc, selection) <==> loc.value.columnIndex == selection.value.columnIndex)
    ensures loc.Some? && selection.Some? && selection.value.CellSelection? ==>
      (IsCellSelected(loc, selection) <==>
         loc.value == CellLocation(selection.value.sectionName, selection.value.rowIndex, selection.value.columnIndex))
  {
    match (loc, selection)
    case (Some(l), Some(ColumnSelection(c))) => l.columnIndex == c
    case (Some(l), Some(CellSelection(s, r, c))) => l.sectionName == s && l.rowIndex == r && l.columnIndex == c
    case _ => false
  }

  /** Two tables with the same sections, row counts and cell counts per row. */
  ghost predicate SameShape(a: Table, b: Table)
  {
    && (forall s :: Section(a, s).Some? <==> Section(b, s).Some?)
    && (forall s :: |Rows(a, s)| == |Rows(b, s)|)
    && (forall s, i :: 0 <= i < |Rows(a, s)| ==>
          && (Rows(a, s)[i].cells.Some? <==> Rows(b, s)[i].cells.Some?)
          && |CellsOf(Rows(a, s)[i])| == |CellsOf(Rows(b, s)[i])|)
  }

  function UpdateRow(row: Row, s: SectionName, i: nat, selection: Option<Selection>, update: Cell -> Cell): (r: Row)
    ensures r.cells.Some? <==> row.cells.Some?
    ensures |CellsOf(r)| == |CellsOf(row)|
    ensures forall j :: 0 <= j < |CellsOf(row)| ==>
      CellsOf(r)[j] == if IsCellSelected(Some(CellLocation(s, i, j)), selection) then update(CellsOf(row)[j]) else CellsOf(row)[j]
  {
    match row.cells
    case None => row
    case Some(cells) =>
      Row(Some(seq(|cells|, j requires 0 <= j < |cells| =>
        if IsCellSelected(Some(CellLocation(s, i, j)), selection) then update(cells[j]) else cells[j])))
  }

  function UpdateSection(section: Option<seq<Row>>, s: SectionName, selection: Option<Selection>, update: Cell -> Cell): (r: Option<seq<Row>>)
    ensures r.Some? <==> section.Some?
    ensures section.Some? ==> |r.value| == |section.value|
    ensures section.Some? ==> forall i :: 0 <= i < |section.value| ==> r.value[i] == UpdateRow(section.value[i], s, i, selection, update)
  {
    match section
    case None => None
    case Some(rows) => Some(seq(|rows|, i requires 0 <= i < |rows| => UpdateRow(rows[i], s, i, selection, update)))
  }

  /**
   * Replaces every selected cell by `update` of it and leaves every other
   * cell, row and section as it was; with no selection the input table is
   * returned.
   */
  function UpdateSelectedCellAttributes(t: Table, selection: Option<Selection>, update: Cell -> Cell): (r: Table)
    ensures selection.None? ==> r == t
    ensures SameShape(r, t)
    ensures forall loc :: (GetCell(r, loc) ==
                            match GetCell(t, loc)
                            case None => None
                            case Some(cell) => Some(if IsCellSelected(Some(loc), selection) then update(cell) else cell))
  {
    if selection.None? then t
    else
      var r := Table(UpdateSection(t.head, Head, selection, update),
                     UpdateSection(t.body, Body, selection, update),
                     UpdateSection(t.foot, Foot, selection, update));
      assert forall s :: Section(r, s) == UpdateSection(Section(t, s), s, selection, update);
      r
  }

  /** A table is determined by its shape and the cells at every location. */
  lemma {:induction false} ShapeAndCellsDetermineTable(a: Table, b: Table)
    requires SameShape(a, b)
    requires forall loc :: GetCell(a, loc) == GetCell(b, loc)
    ensures a == b
  {
    forall s ensures Section(a, s) == Section(b, s) {
      var ra, rb := Rows(a, s), Rows(b, s);
      forall i | 0 <= i < |ra| ensures ra[i] == rb[i] {
        var ca, cb := CellsOf(ra[i]), CellsOf(rb[i]);
        forall j | 0 <= j < |ca| ensures ca[j] == cb[j] {
          assert GetCell(a, CellLocation(s, i, j)) == GetCell(b, CellLocation(s, i, j));
        }
        assert ca == cb;
      }
      assert ra == rb;
    }
    assert Section(a, Head) == Section(b, Head);
    assert Section(a, Body) == Section(b, Body);
    assert Section(a, Foot) == Section(b, Foot);
  }

  /**
   * A selection that matches no cell of the table (a table selection, or a
   * cell selection outside its bounds) leaves the table equal to the input.
   */
  lemma UpdateWithoutMatchIsIdentity(t: Table, selection: Option<Selection>, update: Cell -> Cell)
    requires forall loc :: HasCell(t, loc) ==> !IsCellSelected(Some(loc), selection)
    ensures UpdateSelectedCellAttributes(t, selection, update) == t
  {
    ShapeAndCellsDetermineTable(UpdateSelectedCellAttributes(t, selection, update), t);
  }

  /** A cell selection outside the table's rows or columns matches nothing. */
  lemma OutOfBoundsCellSelection(t: Table, s: SectionName, row: nat, column: nat, update: Cell -> Cell)
    requires !HasCell(t, CellLocation(s, row, column))
    ensures UpdateSelectedCellAttributes(t, Some(CellSelection(s, row, column)), update) == t
  {
    UpdateWithoutMatchIsIdentity(t, Some(CellSelection(s, row, column)), update);
  }

  /** A column selection updates that column in every section and row, and nothing else. */
  lemma ColumnSelectionUpdatesColumn(t: Table, c: nat, update: Cell -> Cell, loc: CellLocation)
    requires HasCell(t, loc)
    ensures GetCell(UpdateSelectedCellAttributes(t, Some(ColumnSelection(c)), update), loc) ==
      Some(if loc.columnIndex == c then update(GetCell(t, loc).value) else GetCell(t, loc).value)
  {
  }
}
