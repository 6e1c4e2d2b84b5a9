/**
 * Properties relating the table operations to each other: insert and delete
 * undo each other, deleting the last column collapses a section, toggling a
 * section off and on again leaves one blank row.
 */
module TableProperties {
  import opened Wrappers
  import opened TableModel
  import opened TableState

  lemma RemoveInserted<T>(s: seq<T>, i: nat, x: T)
    requires i <= |s|
    ensures RemoveAt(InsertAt(s, i, x), i) == s
  {
    var r := InsertAt(s, i, x);
    assert r[..i] == s[..i];
    assert r[i + 1..] == s[i..];
    assert s[..i] + s[i..] == s;
  }

  lemma SectionOfRows(t: Table, s: SectionName)
    requires Section(t, s).Some?
    ensures Section(t, s) == Some(Rows(t, s))
  {
  }

  /** Two tables with the same sections are equal. */
  lemma SectionsDetermineTable(a: Table, b: Table)
    requires forall s :: Section(a, s) == Section(b, s)
    ensures a == b
  {
    assert Section(a, Head) == Section(b, Head);
    assert Section(a, Body) == Section(b, Body);
    assert Section(a, Foot) == Section(b, Foot);
  }

  /** Creating a table gives an empty body exactly when it has no rows or no columns. */
  lemma CreateTableEmptiness(rowCount: nat, columnCount: nat)
    ensures IsEmptyTableSection(Rows(CreateTable(rowCount, columnCount), Body)) <==> rowCount == 0 || columnCount == 0
  {
    var t := CreateTable(rowCount, columnCount);
    if rowCount > 0 && columnCount > 0 {
      assert GetCell(t, CellLocation(Body, 0, 0)).Some?;
      assert !IsEmptyRow(Rows(t, Body)[0]);
    }
  }

  /** With no cell count to go by, inserting a row is a no-op. */
  lemma InsertRowNoOp(t: Table, s: SectionName, rowIndex: nat, columnCount: Option<nat>)
    requires columnCount == Some(0) || (columnCount.None? && FirstRowCells(t) == [])
    ensures InsertRow(t, s, rowIndex, columnCount) == t
  {
  }

  /**
   * Without a `columnCount`, a row inserted into an empty section is as wide
   * as the table's first row, which then lies in another section.
   */
  lemma InsertRowIntoEmptySection(t: Table, s: SectionName, rowIndex: nat)
    requires Rows(t, s) == []
    requires FirstRowCells(t) != []
    ensures FirstRow(t).value.sectionName != s
    ensures Rows(InsertRow(t, s, rowIndex, None), s) == [NewRow(t, s, |FirstRowCells(t)|)]
  {
  }

  /** A toggled-on section's new row inherits `align` from the table's first row. */
  lemma ToggleSectionInheritsAlign(t: Table, s: SectionName, j: nat)
    requires IsEmptyTableSection(Rows(t, s))
    requires j < ToggleColumnCount(t)
    requires FirstRowAlign(t, j).Some?
    ensures var cell := CellsOf(Rows(ToggleSection(t, s), s)[0])[j];
      "align" in cell && cell["align"] == FirstRowAlign(t, j).value
  {
  }

  /**
   * Inserting a row and then deleting the row at the same index, each merged
   * into the table, gives back the original table.
   */
  lemma {:induction false} InsertRowThenDeleteRow(t: Table, s: SectionName, rowIndex: nat, columnCount: Option<nat>)
    requires Section(t, s).Some?
    requires rowIndex <= |Rows(t, s)|
    requires NewRowCellCount(t, columnCount) > 0
    ensures var t1 := MergeAttributes(t, InsertRow(t, s, rowIndex, columnCount));
            MergeAttributes(t1, DeleteRow(t1, s, rowIndex)) == t
  {
    var rows := Rows(t, s);
    var n := NewRowCellCount(t, columnCount);
    var t1 := MergeAttributes(t, InsertRow(t, s, rowIndex, columnCount));
    RemoveInserted(rows, rowIndex, NewRow(t, s, n));
    assert Rows(t1, s) == InsertAt(rows, rowIndex, NewRow(t, s, n));
    var t2 := MergeAttributes(t1, DeleteRow(t1, s, rowIndex));
    assert Rows(DeleteRow(t1, s, rowIndex), s) == RemoveAt(Rows(t1, s), rowIndex);
    SectionOfRows(t, s);
    SectionsDetermineTable(t2, t);
  }

  /** Deleting the inserted column from a row that had cells gives back that row. */
  lemma DeleteInsertedColumnInRow(row: Row, s: SectionName, c: nat)
    requires !IsEmptyRow(row)
    ensures SurvivesDelete(InsertColumnInRow(row, s, c), c)
    ensures DeleteColumnInRow(InsertColumnInRow(row, s, c), c) == row
  {
    if TakesNewColumn(row, c) {
      RemoveInserted(CellsOf(row), c, BlankCell(s));
    }
  }

  lemma DeleteInsertedColumnInSection(section: Option<seq<Row>>, s: SectionName, c: nat)
    requires section.Some? ==> forall i :: 0 <= i < |section.value| ==> !IsEmptyRow(section.value[i])
    ensures DeleteColumnInSection(InsertColumnInSection(section, s, c), c) == section
  {
    if section.Some? {
      var rows := section.value;
      var inserted := InsertColumnInSection(section, s, c).value;
      forall i | 0 <= i < |rows|
        ensures SurvivesDelete(inserted[i], c) && DeleteColumnInRow(inserted[i], c) == rows[i]
      {
        DeleteInsertedColumnInRow(rows[i], s, c);
      }
      DeleteColumnWhenAllSurvive(inserted, c);
      assert DeleteColumnInRows(inserted, c) == rows;
    }
  }

  /**
   * When no row of the table is empty, deleting the column that was just
   * inserted gives back the original table.
   */
  lemma {:induction false} InsertColumnThenDeleteColumn(t: Table, c: nat)
    requires forall s, i :: 0 <= i < |Rows(t, s)| ==> !IsEmptyRow(Rows(t, s)[i])
    ensures DeleteColumn(InsertColumn(t, c), c) == t
  {
    assert forall i :: t.head.Some? && 0 <= i < |t.head.value| ==> t.head.value[i] == Rows(t, Head)[i];
    assert forall i :: t.body.Some? && 0 <= i < |t.body.value| ==> t.body.value[i] == Rows(t, Body)[i];
    assert forall i :: t.foot.Some? && 0 <= i < |t.foot.value| ==> t.foot.value[i] == Rows(t, Foot)[i];
    DeleteInsertedColumnInSection(t.head, Head, c);
    DeleteInsertedColumnInSection(t.body, Body, c);
    DeleteInsertedColumnInSection(t.foot, Foot, c);
  }

  /** Inserting a column never turns an empty section into a non-empty one, nor the reverse. */
  lemma InsertColumnKeepsEmptiness(t: Table, c: nat, s: SectionName)
    ensures IsEmptyTableSection(Rows(InsertColumn(t, c), s)) <==> IsEmptyTableSection(Rows(t, s))
  {
    var rows, r := Rows(t, s), Rows(InsertColumn(t, c), s);
    forall i | 0 <= i < |rows| ensures IsEmptyRow(r[i]) <==> IsEmptyRow(rows[i]) {
      assert r[i] == InsertColumnInRow(rows[i], s, c);
    }
  }

  lemma {:induction false} NoSurvivors(rows: seq<Row>, c: nat)
    requires forall i :: 0 <= i < |rows| ==> !SurvivesDelete(rows[i], c)
    ensures SurvivorCount(rows, c) == 0
    decreases rows
  {
    if rows != [] {
      NoSurvivors(rows[1..], c);
    }
  }

  /**
   * Deleting column 0 of a section whose rows have at most one cell each
   * leaves the section with no rows at all (not rows with empty cells).
   */
  lemma DeleteOnlyColumnCollapses(t: Table, s: SectionName)
    requires forall i :: 0 <= i < |Rows(t, s)| ==> |CellsOf(Rows(t, s)[i])| <= 1
    ensures Rows(DeleteColumn(t, 0), s) == []
    ensures Section(DeleteColumn(t, 0), s).Some? <==> Section(t, s).Some?
  {
    NoSurvivors(Rows(t, s), 0);
  }

  /** Rows that have cells but none at column `c` are kept as they are. */
  lemma DeleteMissingColumnKeepsRows(t: Table, c: nat, s: SectionName)
    requires forall i :: 0 <= i < |Rows(t, s)| ==> 0 < |CellsOf(Rows(t, s)[i])| <= c
    ensures Rows(DeleteColumn(t, c), s) == Rows(t, s)
  {
    var rows := Rows(t, s);
    forall i | 0 <= i < |rows| ensures SurvivesDelete(rows[i], c) && DeleteColumnInRow(rows[i], c) == rows[i] {
      assert rows[i].cells.Some?;
    }
    DeleteColumnWhenAllSurvive(rows, c);
  }

  /** Deleting a column from one row keeps that row, minus the column, exactly when it survives. */
  lemma DeleteColumnInOneRow(x: Row, c: nat)
    ensures DeleteColumnInRows([x], c) == if SurvivesDelete(x, c) then [DeleteColumnInRow(x, c)] else []
  {
    DeleteColumnStep([x], c);
    assert [x][1..] == [];
  }

  lemma DeleteColumnStepOfConcatenation(a: seq<Row>, b: seq<Row>, c: nat)
    requires a != []
    ensures DeleteColumnInRows(a + b, c) == KeptRow(a[0], c) + DeleteColumnInRows(a[1..] + b, c)
  {
    assert (a + b)[0] == a[0] && (a + b)[1..] == a[1..] + b;
    DeleteColumnStep(a + b, c);
  }

  lemma AppendAssociative<T>(x: seq<T>, y: seq<T>, z: seq<T>)
    ensures x + (y + z) == (x + y) + z
  {
  }

  /**
   * Deleting a column works row by row: the rows of a concatenation are the
   * rows kept from each part, in order. With `DeleteColumnInOneRow` this
   * fixes which rows remain, what they hold and their order.
   */
  lemma {:induction false} DeleteColumnInConcatenation(a: seq<Row>, b: seq<Row>, c: nat)
    ensures DeleteColumnInRows(a + b, c) == DeleteColumnInRows(a, c) + DeleteColumnInRows(b, c)
    decreases a
  {
    if a == [] {
      assert a + b == b;
    } else {
      DeleteColumnStepOfConcatenation(a, b, c);
      DeleteColumnStep(a, c);
      DeleteColumnInConcatenation(a[1..], b, c);
      AppendAssociative(KeptRow(a[0], c), DeleteColumnInRows(a[1..], c), DeleteColumnInRows(b, c));
    }
  }

  /**
   * Exactly the surviving rows remain: every row of the result is some
   * surviving input row minus column `c`, and every surviving input row
   * appears that way in the result.
   */
  lemma DeleteColumnKeepsExactlySurvivors(rows: seq<Row>, c: nat)
    ensures forall j :: 0 <= j < |rows| && SurvivesDelete(rows[j], c) ==>
      DeleteColumnInRow(rows[j], c) in DeleteColumnInRows(rows, c)
    ensures forall x :: x in DeleteColumnInRows(rows, c) ==>
      exists j :: 0 <= j < |rows| && SurvivesDelete(rows[j], c) && x == DeleteColumnInRow(rows[j], c)
  {
    DeleteColumnKeepsSurvivors(rows, c);
    DeleteColumnKeepsOnlySurvivors(rows, c);
  }

  lemma {:induction false} DeleteColumnKeepsSurvivors(rows: seq<Row>, c: nat)
    ensures forall j :: 0 <= j < |rows| && SurvivesDelete(rows[j], c) ==>
      DeleteColumnInRow(rows[j], c) in DeleteColumnInRows(rows, c)
    decreases rows
  {
    if rows != [] {
      var tail := rows[1..];
      DeleteColumnKeepsSurvivors(tail, c);
      DeleteColumnMembersStep(rows, c);
      forall j | 1 <= j < |rows| && SurvivesDelete(rows[j], c)
        ensures DeleteColumnInRow(rows[j], c) in DeleteColumnInRows(rows, c)
      {
        assert rows[j] == tail[j - 1];
      }
    }
  }

  lemma {:induction false} DeleteColumnKeepsOnlySurvivors(rows: seq<Row>, c: nat)
    ensures forall x :: x in DeleteColumnInRows(rows, c) ==>
      exists j :: 0 <= j < |rows| && SurvivesDelete(rows[j], c) && x == DeleteColumnInRow(rows[j], c)
    decreases rows
  {
    if rows != [] {
      var tail := rows[1..];
      DeleteColumnKeepsOnlySurvivors(tail, c);
      DeleteColumnMembersStep(rows, c);
      forall x | x in DeleteColumnInRows(rows, c)
        ensures exists j :: 0 <= j < |rows| && SurvivesDelete(rows[j], c) && x == DeleteColumnInRow(rows[j], c)
      {
        if x !in KeptRow(rows[0], c) {
          var j :| 0 <= j < |tail| && SurvivesDelete(tail[j], c) && x == DeleteColumnInRow(tail[j], c);
          assert rows[j + 1] == tail[j];
        }
      }
    }
  }

  /** The rows kept from a non-empty sequence are those kept from its head and from its tail. */
  lemma DeleteColumnMembersStep(rows: seq<Row>, c: nat)
    requires rows != []
    ensures forall x :: x in DeleteColumnInRows(rows, c) <==>
      x in KeptRow(rows[0], c) || x in DeleteColumnInRows(rows[1..], c)
  {
    DeleteColumnStep(rows, c);
  }

  /**
   * Toggling a section that has cells clears it; toggling it again adds back
   * exactly one blank row, as wide as the body's first row (or one cell).
   */
  lemma {:induction false} ToggleSectionTwice(t: Table, s: SectionName)
    requires !IsEmptyTableSection(Rows(t, s))
    ensures var t1 := MergeAttributes(t, ToggleSection(t, s));
            && Rows(t1, s) == []
            && ToggleColumnCount(t1) == (if s == Body then 1 else ToggleColumnCount(t))
            && (ToggleColumnCount(t1) > 0 ==>
                  Rows(MergeAttributes(t1, ToggleSection(t1, s)), s) == [NewRow(t1, s, ToggleColumnCount(t1))])
  {
    var t1 := MergeAttributes(t, ToggleSection(t, s));
    assert Rows(t1, s) == [];
    assert s != Body ==> Rows(t1, Body) == Rows(t, Body);
    if ToggleColumnCount(t1) > 0 {
      var r := ToggleSection(t1, s);
      assert IsEmptyTableSection(Rows(t1, s));
      var row := Rows(r, s)[0];
      assert Rows(MergeAttributes(t1, r), s) == Rows(r, s) == [row];
    }
  }
}
