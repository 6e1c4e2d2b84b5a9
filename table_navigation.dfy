/**
 * Location queries used for keyboard navigation: the cell above, below, to
 * the left and to the right of a cell, and the first and last row, cell in a
 * column, cell in a row and cell in the table. Sections are walked in the
 * fixed order head, body, foot. Every query is total: None means there is no
 * such location.
 */
module TableNavigation {
  import opened Wrappers
  import opened TableModel

  function PreviousSection(s: SectionName): (r: Option<SectionName>)
    ensures r.Some? <==> Position(s) > 0
    ensures r.Some? ==> Position(r.value) + 1 == Position(s)
  {
    match s
    case Head => None
    case Body => Some(Head)
    case Foot => Some(Body)
  }

  function NextSection(s: SectionName): (r: Option<SectionName>)
    ensures r.Some? <==> Position(s) < 2
    ensures r.Some? ==> Position(r.value) == Position(s) + 1
  {
    match s
    case Head => Some(Body)
    case Body => Some(Foot)
    case Foot => None
  }

  /** `loc` itself when the table has a cell there. */
  function CellIfExists(t: Table, loc: CellLocation): (r: Option<CellLocation>)
    ensures r.Some? <==> HasCell(t, loc)
    ensures r.Some? ==> r.value == loc
  {
    if HasCell(t, loc) then Some(loc) else None
  }

  /**
   * The cell in the same column of the row above: the previous row of the
   * section, or from the first row the last row of the previous section.
   */
  function CellAbove(t: Table, loc: CellLocation): (r: Option<CellLocation>)
    ensures r.Some? ==> HasCell(t, r.value) && r.value.columnIndex == loc.columnIndex
    ensures r.Some? && loc.rowIndex > 0 ==> r.value == loc.(rowIndex := loc.rowIndex - 1)
    ensures r.Some? && loc.rowIndex == 0 ==>
      && PreviousSection(loc.sectionName) == Some(r.value.sectionName)
      && r.value.rowIndex + 1 == |Rows(t, r.value.sectionName)|
    ensures loc.sectionName == Head && loc.rowIndex == 0 ==> r.None?
    ensures loc.rowIndex > 0 && HasCell(t, loc.(rowIndex := loc.rowIndex - 1)) ==> r.Some?
    ensures loc.rowIndex == 0 && PreviousSection(loc.sectionName).Some? ==>
      var p := PreviousSection(loc.sectionName).value;
      |Rows(t, p)| > 0 && HasCell(t, CellLocation(p, |Rows(t, p)| - 1, loc.columnIndex)) ==> r.Some?
  {
    if loc.rowIndex > 0 then
      CellIfExists(t, loc.(rowIndex := loc.rowIndex - 1))
    else
      match PreviousSection(loc.sectionName)
      case None => None
      case Some(p) =>
        var rows := Rows(t, p);
        if |rows| == 0 then None else CellIfExists(t, CellLocation(p, |rows| - 1, loc.columnIndex))
  }

  /**
   * The cell in the same column of the row below: the next row of the
   * section, or from its last row the first row of the next section.
   */
  function CellBelow(t: Table, loc: CellLocation): (r: Option<CellLocation>)
    ensures r.Some? ==> HasCell(t, r.value) && r.value.columnIndex == loc.columnIndex
    ensures r.Some? && loc.rowIndex + 1 < |Rows(t, loc.sectionName)| ==> r.value == loc.(rowIndex := loc.rowIndex + 1)
    ensures r.Some? && loc.rowIndex + 1 >= |Rows(t, loc.sectionName)| ==>
      NextSection(loc.sectionName) == Some(r.value.sectionName) && r.value.rowIndex == 0
    ensures loc.sectionName == Foot && loc.rowIndex + 1 >= |Rows(t, Foot)| ==> r.None?
    ensures loc.rowIndex + 1 < |Rows(t, loc.sectionName)| && HasCell(t, loc.(rowIndex := loc.rowIndex + 1)) ==> r.Some?
    ensures loc.rowIndex + 1 >= |Rows(t, loc.sectionName)| && NextSection(loc.sectionName).Some? ==>
      var n := NextSection(loc.sectionName).value;
      HasCell(t, CellLocation(n, 0, loc.columnIndex)) ==> r.Some?
  {
    var rows := Rows(t, loc.sectionName);
    if loc.rowIndex + 1 < |rows| then
      CellIfExists(t, loc.(rowIndex := loc.rowIndex + 1))
    else
      match NextSection(loc.sectionName)
      case None => None
      case Some(n) =>
        if |Rows(t, n)| == 0 then None else CellIfExists(t, CellLocation(n, 0, loc.columnIndex))
  }

  /** The position to the left; needs no table, only a column above 0. */
  function CellToLeft(loc: CellLocation): (r: Option<CellLocation>)
    ensures r.Some? <==> loc.columnIndex > 0
    ensures r.Some? ==> r.value == loc.(columnIndex := loc.columnIndex - 1)
  {
    if loc.columnIndex > 0 then Some(loc.(columnIndex := loc.columnIndex - 1)) else None
  }

  /** The cell to the right, when the row has one there. */
  function CellToRight(t: Table, loc: CellLocation): (r: Option<CellLocation>)
    ensures r.Some? <==> HasCell(t, loc.(columnIndex := loc.columnIndex + 1))
    ensures r.Some? ==> r.value == loc.(columnIndex := loc.columnIndex + 1)
  {
    CellIfExists(t, loc.(columnIndex := loc.columnIndex + 1))
  }

  /** The last row of the last section, in head, body, foot order, that has rows. */
  function LastRow(t: Table): (r: Option<RowLocation>)
    ensures r.Some? <==> exists s :: |Rows(t, s)| > 0
    ensures r.Some? ==> r.value.rowIndex + 1 == |Rows(t, r.value.sectionName)|
    ensures r.Some? ==> forall s :: Position(s) > Position(r.value.sectionName) ==> Rows(t, s) == []
  {
    if |Rows(t, Foot)| > 0 then Some(RowLocation(Foot, |Rows(t, Foot)| - 1))
    else if |Rows(t, Body)| > 0 then Some(RowLocation(Body, |Rows(t, Body)| - 1))
    else if |Rows(t, Head)| > 0 then Some(RowLocation(Head, |Rows(t, Head)| - 1))
    else None
  }

  /** The cell at `loc`'s column in the first row of the table, if that row has one. */
  function FirstCellInColumn(t: Table, loc: CellLocation): (r: Option<CellLocation>)
    ensures r.Some? ==> HasCell(t, r.value) && r.value.columnIndex == loc.columnIndex
    ensures r.Some? ==> FirstRow(t) == Some(RowLocation(r.value.sectionName, r.value.rowIndex))
    ensures FirstRow(t).Some? && HasCell(t, CellLocation(FirstRow(t).value.sectionName, 0, loc.columnIndex)) ==> r.Some?
  {
    match FirstRow(t)
    case None => None
    case Some(row) => CellIfExists(t, CellLocation(row.sectionName, row.rowIndex, loc.columnIndex))
  }

  /** The cell at `loc`'s column in the last row of the table, if that row has one. */
  function LastCellInColumn(t: Table, loc: CellLocation): (r: Option<CellLocation>)
    ensures r.Some? ==> HasCell(t, r.value) && r.value.columnIndex == loc.columnIndex
    ensures r.Some? ==> LastRow(t) == Some(RowLocation(r.value.sectionName, r.value.rowIndex))
    ensures LastRow(t).Some? && HasCell(t, CellLocation(LastRow(t).value.sectionName, LastRow(t).value.rowIndex, loc.columnIndex)) ==> r.Some?
  {
    match LastRow(t)
    case None => None
    case Some(row) => CellIfExists(t, CellLocation(row.sectionName, row.rowIndex, loc.columnIndex))
  }

  /** Column 0 of the same row; purely positional. */
  function FirstCellInRow(loc: CellLocation): (r: CellLocation)
    ensures r.sectionName == loc.sectionName && r.rowIndex == loc.rowIndex && r.columnIndex == 0
    ensures CellToLeft(r).None?
  {
    loc.(columnIndex := 0)
  }

  /** The last cell of the same row, when the row exists and has cells. */
  function LastCellInRow(t: Table, loc: CellLocation): (r: Option<CellLocation>)
    ensures r.Some? <==> loc.rowIndex < |Rows(t, loc.sectionName)| && |CellsOf(Rows(t, loc.sectionName)[loc.rowIndex])| > 0
    ensures r.Some? ==> r.value.sectionName == loc.sectionName && r.value.rowIndex == loc.rowIndex
    ensures r.Some? ==> HasCell(t, r.value) && CellToRight(t, r.value).None?
  {
    var rows := Rows(t, loc.sectionName);
    if loc.rowIndex < |rows| && |CellsOf(rows[loc.rowIndex])| > 0 then
      Some(loc.(columnIndex := |CellsOf(rows[loc.rowIndex])| - 1))
    else
      None
  }

  /** Column 0 of the table's first row. */
  function FirstCellInTable(t: Table): (r: Option<CellLocation>)
    ensures r.Some? <==> FirstRow(t).Some?
    ensures r.Some? ==> r.value == CellLocation(FirstRow(t).value.sectionName, 0, 0)
  {
    match FirstRow(t)
    case None => None
    case Some(row) => Some(FirstCellInRow(CellLocation(row.sectionName, row.rowIndex, 0)))
  }

  /** The last cell of the table's last row. */
  function LastCellInTable(t: Table): (r: Option<CellLocation>)
    ensures r.Some? <==>
      LastRow(t).Some? && |CellsOf(Rows(t, LastRow(t).value.sectionName)[LastRow(t).value.rowIndex])| > 0
    ensures r.Some? ==> LastRow(t) == Some(RowLocation(r.value.sectionName, r.value.rowIndex))
    ensures r.Some? ==> HasCell(t, r.value) && CellToRight(t, r.value).None?
  {
    match LastRow(t)
    case None => None
    case Some(row) => LastCellInRow(t, CellLocation(row.sectionName, row.rowIndex, 0))
  }

  // -------------------------------------------------------------- properties

  /** Moving down from a cell and moving up from a cell undo each other. */
  lemma AboveBelowSymmetric(t: Table, a: CellLocation, b: CellLocation)
    requires HasCell(t, a) && HasCell(t, b)
    ensures CellBelow(t, a) == Some(b) <==> CellAbove(t, b) == Some(a)
  {
    if CellBelow(t, a) == Some(b) {
      if a.rowIndex + 1 >= |Rows(t, a.sectionName)| {
        assert PreviousSection(b.sectionName) == Some(a.sectionName);
      }
    }
    if CellAbove(t, b) == Some(a) {
      if b.rowIndex == 0 {
        assert NextSection(a.sectionName) == Some(b.sectionName);
      }
    }
  }

  /** Moving right from a cell and moving left from a cell undo each other. */
  lemma LeftRightSymmetric(t: Table, a: CellLocation, b: CellLocation)
    requires HasCell(t, b)
    ensures CellToRight(t, a) == Some(b) <==> CellToLeft(b) == Some(a)
  {
  }

  /** Nothing is above the first row of the table, whichever section holds it. */
  lemma NothingAboveFirstRow(t: Table, c: nat)
    requires FirstRow(t).Some?
    ensures CellAbove(t, CellLocation(FirstRow(t).value.sectionName, 0, c)).None?
  {
    var s := FirstRow(t).value.sectionName;
    match PreviousSection(s)
    case None =>
    case Some(p) => assert Rows(t, p) == [];
  }

  /** Nothing is below the last row of the table, whichever section holds it. */
  lemma NothingBelowLastRow(t: Table, c: nat)
    requires LastRow(t).Some?
    ensures CellBelow(t, CellLocation(LastRow(t).value.sectionName, LastRow(t).value.rowIndex, c)).None?
  {
    var s := LastRow(t).value.sectionName;
    match NextSection(s)
    case None =>
    case Some(n) => assert Rows(t, n) == [];
  }

  /** The first cell of a column has nothing above it and the last nothing below it. */
  lemma ColumnEnds(t: Table, loc: CellLocation)
    ensures FirstCellInColumn(t, loc).Some? ==> CellAbove(t, FirstCellInColumn(t, loc).value).None?
    ensures LastCellInColumn(t, loc).Some? ==> CellBelow(t, LastCellInColumn(t, loc).value).None?
  {
    if FirstCellInColumn(t, loc).Some? {
      NothingAboveFirstRow(t, loc.columnIndex);
    }
    if LastCellInColumn(t, loc).Some? {
      NothingBelowLastRow(t, loc.columnIndex);
    }
  }

  /** The last cell of the table has no neighbour below or to its right. */
  lemma LastCellOfTableIsCorner(t: Table)
    requires LastCellInTable(t).Some?
    ensures CellBelow(t, LastCellInTable(t).value).None?
    ensures CellToRight(t, LastCellInTable(t).value).None?
  {
    NothingBelowLastRow(t, LastCellInTable(t).value.columnIndex);
  }

  /** The first cell of the table has no neighbour above or to its left. */
  lemma FirstCellOfTableIsCorner(t: Table)
    requires FirstCellInTable(t).Some?
    ensures CellAbove(t, FirstCellInTable(t).value).None?
    ensures CellToLeft(FirstCellInTable(t).value).None?
  {
    NothingAboveFirstRow(t, 0);
  }
}
