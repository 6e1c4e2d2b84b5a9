/**
 * The data model of the table block: a table has up to three optional
 * sections (head, body, foot), each an ordered sequence of rows; a row has an
 * optional sequence of cells; a cell is an attribute map from names to
 * strings holding at least `content` and `tag` (`th` or `td`).
 */
module TableModel {
  import opened Wrappers

  datatype SectionName = Head | Body | Foot

  /** A cell's attributes: `content`, `tag` and any others (`align`, ...). */
  type Cell = map<string, string>

  /** `cells` is None when the row object has no `cells` key. */
  datatype Row = Row(cells: Option<seq<Cell>>)

  /** A section is None when the table object has no key for it. */
  datatype Table = Table(head: Option<seq<Row>>, body: Option<seq<Row>>, foot: Option<seq<Row>>)

  datatype CellLocation = CellLocation(sectionName: SectionName, rowIndex: nat, columnIndex: nat)

  datatype RowLocation = RowLocation(sectionName: SectionName, rowIndex: nat)

  /** The fixed order in which sections are walked: head, body, foot. */
  function Position(s: SectionName): nat
  {
    match s
    case Head => 0
    case Body => 1
    case Foot => 2
  }

  function Section(t: Table, s: SectionName): Option<seq<Row>>
  {
    match s
    case Head => t.head
    case Body => t.body
    case Foot => t.foot
  }

  /** The rows of a section; an absent section has none. */
  function Rows(t: Table, s: SectionName): seq<Row>
  {
    match Section(t, s)
    case None => []
    case Some(rows) => rows
  }

  function WithSection(t: Table, s: SectionName, rows: seq<Row>): (r: Table)
    ensures Section(r, s) == Some(rows)
    ensures forall s' :: s' != s ==> Section(r, s') == Section(t, s')
  {
    match s
    case Head => t.(head := Some(rows))
    case Body => t.(body := Some(rows))
    case Foot => t.(foot := Some(rows))
  }

  /** A table value that holds only section `s`: the partial update returned by row operations. */
  function Only(s: SectionName, rows: seq<Row>): (r: Table)
    ensures Section(r, s) == Some(rows)
    ensures forall s' :: s' != s ==> Section(r, s') == None
  {
    WithSection(Table(None, None, None), s, rows)
  }

  /**
   * The block's attribute update: every section present in `patch` replaces
   * the one in `t`; the others are kept.
   */
  function MergeAttributes(t: Table, patch: Table): (r: Table)
    ensures forall s :: Section(r, s) == if Section(patch, s).Some? then Section(patch, s) else Section(t, s)
  {
    Table(if patch.head.Some? then patch.head else t.head,
          if patch.body.Some? then patch.body else t.body,
          if patch.foot.Some? then patch.foot else t.foot)
  }

  /** The cells of a row; a row without `cells` has none. */
  function CellsOf(row: Row): seq<Cell>
  {
    match row.cells
    case None => []
    case Some(cells) => cells
  }

  /** Row 0 of the first section, in head, body, foot order, that has rows. */
  function FirstRow(t: Table): (r: Option<RowLocation>)
    ensures r.Some? <==> exists s :: |Rows(t, s)| > 0
    ensures r.Some? ==> r.value.rowIndex == 0 && |Rows(t, r.value.sectionName)| > 0
    ensures r.Some? ==> forall s :: Position(s) < Position(r.value.sectionName) ==> Rows(t, s) == []
  {
    if |Rows(t, Head)| > 0 then Some(RowLocation(Head, 0))
    else if |Rows(t, Body)| > 0 then Some(RowLocation(Body, 0))
    else if |Rows(t, Foot)| > 0 then Some(RowLocation(Foot, 0))
    else None
  }

  /** The cells of the table's first row; none when the table has no rows. */
  function FirstRowCells(t: Table): seq<Cell>
  {
    match FirstRow(t)
    case None => []
    case Some(loc) => CellsOf(Rows(t, loc.sectionName)[0])
  }

  /** New cells are header cells in the head and data cells elsewhere. */
  function TagFor(s: SectionName): string
  {
    if s == Head then "th" else "td"
  }

  /** A freshly created cell of section `s`. */
  function BlankCell(s: SectionName): Cell
  {
    map["content" := "", "tag" := TagFor(s)]
  }

  function GetCell(t: Table, loc: CellLocation): Option<Cell>
  {
    var rows := Rows(t, loc.sectionName);
    if loc.rowIndex < |rows| && loc.columnIndex < |CellsOf(rows[loc.rowIndex])| then
      Some(CellsOf(rows[loc.rowIndex])[loc.columnIndex])
    else
      None
  }

  predicate HasCell(t: Table, loc: CellLocation)
  {
    GetCell(t, loc).Some?
  }

  /** Inserts `x` before position `i`, or at the end when `i` is past it (JavaScript `slice` clamps). */
  function InsertAt<T>(s: seq<T>, i: nat, x: T): (r: seq<T>)
    ensures |r| == |s| + 1
    ensures i <= |s| ==> r[i] == x
    ensures i > |s| ==> r[|s|] == x
    ensures forall j :: 0 <= j < |s| && j < i ==> r[j] == s[j]
    ensures forall j :: i <= j < |s| ==> r[j + 1] == s[j]
  {
    var k := if i <= |s| then i else |s|;
    s[..k] + [x] + s[k..]
  }

  /** Indexing past the head of `[x] + s` indexes `s`. */
  lemma ConsIndex<T>(x: T, s: seq<T>)
    ensures forall i :: 1 <= i <= |s| ==> ([x] + s)[i] == s[i - 1]
  {
  }

  /** Keeps every element whose index is not `i`, as `filter((_, index) => index !== i)` does. */
  function RemoveAt<T>(s: seq<T>, i: nat): (r: seq<T>)
    ensures i < |s| ==> r == s[..i] + s[i + 1..]
    ensures i >= |s| ==> r == s
    decreases s
  {
    if s == [] then []
    else if i == 0 then s[1..]
    else [s[0]] + RemoveAt(s[1..], i - 1)
  }
}
