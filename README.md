# Table block state and format-type registration, in Dafny

This project models two self-contained pieces of a block-based editor:

1. **The table block's state engine.** A table has optional `head`, `body` and `foot` sections. Each section is a sequence of rows, a row has an optional `cells` sequence, and a cell is a map of string attributes. The map holds `content` and `tag` (`th` or `td`), and any other keys (`align`, custom attributes) are kept as they are. The engine covers:
   - creating a table and looking up cells, attributes and rows;
   - inserting and deleting rows and columns;
   - toggling a section on and off, and the emptiness tests that toggling relies on;
   - matching a cell, column or table selection against a cell location, and updating the selected cells;
   - the navigation queries: above, below, left, right, and first/last row, cell in a column, cell in a row and cell in the table. They walk the sections in the fixed order head, body, foot.

   Every operation is a total function over datatypes. `insertRow` with no cells to add and `toggleSection` with a zero-width body row return the table they were given. `deleteRow` with an index past the end instead returns the unchanged section alone, as the partial update described below.

2. **`registerFormatType`.** This is the ordered chain of guards over a rich-text format's settings and the current registry.
   - `Validate` returns either the merged settings or the reason for the first failing guard (`FormatError`), instead of logging and returning `undefined`.
   - `FormatRegistry` is a class holding three maps: formats by name, class name → format name, and bare tag name → format name.
   - Its `Register` method changes those maps only when every guard passes.

Modules and files:
- `wrappers.dfy`: `Option` and `Result`.
- `table_model.dfy`: datatypes and accessors.
- `table_state.dfy`: structural operations.
- `table_properties.dfy`: lemmas relating the operations.
- `table_selection.dfy`: selections and the bulk update.
- `table_navigation.dfy`: location queries and their lemmas.
- `format_names.dfy`: the two name patterns as character classes.
- `register_format_type.dfy`: the guard chain and the registry.

### How the table engine was pinned down

The engine's implementation module (`packages/block-library/src/table/state.js`) is not part of this model. Its behaviour is modelled from what its test file asserts, `packages/block-library/src/table/test/state.js`. Where the tests leave a case open, the model makes the choices below.

- **Row operations return a partial update.** `insertRow`, `toggleSection` and `deleteRow` return a table holding only the section they changed, and the block merges that into its attributes. The test at state.js:1014-1062 expects `{ head: [...] }` with no `body`, although its input has a body. The model returns that partial update. `TableModel.MergeAttributes` models the block's merge so that round trips can be stated.
- **Inputs the JavaScript would throw on.** In that case an absent section counts as an empty one.
- **Test input `{ body: {} }` (state.js:412).** The section is an object rather than an array. It is modelled as an absent section, which gives the same no-op.
- **`insertRow` takes its cell count and inherited `align` from the first row of the whole table.** This is row 0 of the first section, in head, body, foot order, that has rows, whichever section the new row goes into. The test titles at state.js:325 ("the first cell in the column") and state.js:411 ("the table has no existing rows") speak of the table, not the target section. Navigation uses the same `TableModel.FirstRow`. A section whose rows are all empty still holds the first row, so when that row has no cells the count is 0. A `rowIndex` past the end appends, because JavaScript `slice` clamps.
- **`toggleSection` tests "has rows" with `isEmptyTableSection`.** A section with a non-empty row is cleared. Otherwise one row is inserted at the top, as wide as the body's first row, and its cells inherit `align` from the table's first row as `insertRow`'s do. If there is no body row, or that row has no `cells` key, the new row has 1 cell. When the body's first row has `cells: []`, the cell count is 0, and inserting the row does nothing.
- **`insertColumn` and `deleteColumn`.** `insertColumn` adds a cell only to rows that have cells and at least `columnIndex` of them. `deleteColumn` then drops every row left without cells.
- **Navigation.**
  - `getLocationOfCellAbove` and `getLocationOfCellBelow` step to the adjacent section's last or first row. They return None when that section is empty, without skipping over it.
  - `getLocationOfFirstCellInColumn` and `getLocationOfLastCellInColumn` look at the first or last row of the whole table, and return None if that row has no cell in the column. The model takes this from the test titles at state.js:1429 and 1448, and does not search further rows for the column.
  - `getLocationOfFirstCellInTable` is positional: column 0 of the first row.
  - `getLocationOfLastCellInRow` returns None for a missing or empty row.

## Model

| member | source | states |
|---|---|---|
| `TableState.CreateTable` | packages/block-library/src/table/test/state.js:194-200 | only a body; `rowCount` rows; every location holds `{content:'', tag:'td'}` exactly when its row and column are below the counts, otherwise no cell |
| `TableProperties.CreateTableEmptiness` | packages/block-library/src/table/test/state.js:194-200 | the created body is an empty section iff there are no rows or no columns |
| `TableState.GetCellAttribute` | packages/block-library/src/table/test/state.js:202-213 | a value is returned iff the cell exists and carries that attribute, and it is the cell's value for it (`testAttr` survives) |
| `TableState.GetRow` | packages/block-library/src/table/test/state.js:1254-1276 | given a cell location, its column ignored: a row is returned iff the row index is within the section, and it is that row, whose cells are the cells at every column of that location |
| `TableState.IsEmptyRow` | packages/block-library/src/table/test/state.js:1112-1133 | a row is empty iff it has no cells (no `cells` key or a zero-length one) |
| `TableState.IsEmptyTableSection` | packages/block-library/src/table/test/state.js:1064-1110 | a section is empty iff every row in it is empty (so also when it has no rows) |
| `TableState.NewRow` | packages/block-library/src/table/test/state.js:325-409 | the inserted row has exactly the requested number of cells, each with empty content, tag `th` in the head and `td` elsewhere, `align` iff the table's first row (first section in head, body, foot order with rows) has a cell with `align` in that column (same value), and no other keys |
| `TableState.InsertRow` | packages/block-library/src/table/test/state.js:215-429 | with zero or undeterminable cell count the input table is returned; otherwise the result holds only that section, the new row sits at the (clamped) index and the old rows keep their order before and after it |
| `TableProperties.InsertRowNoOp` | packages/block-library/src/table/test/state.js:411-429 | `columnCount` 0, or no `columnCount` when the table has no first row (or it has no cells), returns the input table |
| `TableProperties.InsertRowIntoEmptySection` | packages/block-library/src/table/test/state.js:411-429 | without `columnCount`, a row inserted into an empty section is as wide as the table's first row, which lies in another section |
| `TableState.DeleteRow` | packages/block-library/src/table/test/state.js:753-779 | the section loses exactly the row at the index, the others stay in order; an index past the end changes nothing |
| `TableProperties.InsertRowThenDeleteRow` | packages/block-library/src/table/test/state.js:215-264 | inserting a row and deleting the row at that index, both merged into the block, restores the original table |
| `TableState.InsertColumnInRow` | packages/block-library/src/table/test/state.js:658-750 | a row with cells and at least `columnIndex` of them gains one blank cell of the section's tag at that index, cells before it unchanged and cells after it shifted by one; every other row is unchanged |
| `TableState.InsertColumn` | packages/block-library/src/table/test/state.js:432-751 | every section keeps its presence and row count, and each row is the row-level insertion for its own section (th in head) |
| `TableProperties.InsertColumnKeepsEmptiness` | packages/block-library/src/table/test/state.js:528-570 | inserting a column leaves each section empty iff it was empty (empty rows never gain a cell) |
| `TableState.DeleteColumnInRow` | packages/block-library/src/table/test/state.js:897-977 | the cell at the index is removed when present, shorter rows keep their cells, and the result is empty iff the row does not survive |
| `TableState.DeleteColumnInRows` | packages/block-library/src/table/test/state.js:781-978 | no resulting row is empty and there is one per surviving input row; which rows these are, in what order, is stated by the four lemmas below |
| `TableState.DeleteColumnWhenAllSurvive` | packages/block-library/src/table/test/state.js:781-809 | when every row keeps a cell, the section keeps its length and each row is that row minus the column, in place |
| `TableProperties.DeleteColumnInOneRow` | packages/block-library/src/table/test/state.js:781-978 | a single row gives that row minus the column when it keeps a cell, and nothing otherwise |
| `TableProperties.DeleteColumnInConcatenation` | packages/block-library/src/table/test/state.js:781-978 | deleting a column from two runs of rows in sequence gives the rows kept from each, in order; with the one-row lemma this fixes the whole result |
| `TableProperties.DeleteColumnKeepsExactlySurvivors` | packages/block-library/src/table/test/state.js:781-978 | every surviving input row appears, minus the column, in the result, and every result row is such a row |
| `TableState.DeleteColumn` | packages/block-library/src/table/test/state.js:781-978 | every section keeps its presence and its rows are the section-level deletion |
| `TableProperties.DeleteOnlyColumnCollapses` | packages/block-library/src/table/test/state.js:811-895 | deleting column 0 of a section whose rows have at most one cell leaves that section present with no rows |
| `TableProperties.DeleteMissingColumnKeepsRows` | packages/block-library/src/table/test/state.js:897-977 | rows that have cells but none at the deleted index are kept unchanged |
| `TableProperties.InsertColumnThenDeleteColumn` | packages/block-library/src/table/test/state.js:432-978 | when no row is empty, deleting the column just inserted gives back the original table |
| `TableState.ToggleSection` | packages/block-library/src/table/test/state.js:980-1062 | a section with a non-empty row becomes `[]` (only that section returned); an empty one gains a single blank row at its top as wide as the body's first row or 1, tagged th in head, with `align` inherited from the table's first row as `NewRow` states; zero width returns the input |
| `TableProperties.ToggleSectionInheritsAlign` | packages/block-library/src/table/test/state.js:325-409 | a toggled-on section's new cell in a column where the table's first row has `align` carries that same `align` |
| `TableProperties.ToggleSectionTwice` | packages/block-library/src/table/test/state.js:980-1062 | toggling a filled section off and on again leaves exactly one new row of the body-derived width (1 when the section is the body), built as `NewRow` builds it |
| `TableSelection.IsCellSelected` | packages/block-library/src/table/test/state.js:1135-1191 | false without a location or a selection and for a table selection; a column selection matches iff the column is equal, a cell selection iff section, row and column are all equal |
| `TableSelection.UpdateSelectedCellAttributes` | packages/block-library/src/table/test/state.js:1193-1252 | no selection returns the input; otherwise the shape is kept and each cell becomes `update(cell)` iff it is selected, every other cell unchanged |
| `TableSelection.ShapeAndCellsDetermineTable` | packages/block-library/src/table/test/state.js:1193-1252 | two tables with the same shape and the same cell at every location are equal |
| `TableSelection.UpdateWithoutMatchIsIdentity` | packages/block-library/src/table/test/state.js:1194-1203 | a selection matching no existing cell returns a table equal to the input |
| `TableSelection.OutOfBoundsCellSelection` | packages/block-library/src/table/test/state.js:1199-1203 | a cell selection outside the table returns a table equal to the input |
| `TableSelection.ColumnSelectionUpdatesColumn` | packages/block-library/src/table/test/state.js:1225-1252 | a column selection updates that column's cell in every section and row and leaves the others |
| `TableModel.FirstRow` | packages/block-library/src/table/test/state.js:1278-1296 | row 0 of a section with rows such that all earlier sections in head, body, foot order are empty; None iff no section has rows |
| `TableNavigation.LastRow` | packages/block-library/src/table/test/state.js:1298-1316 | the last row of a section with rows such that all later sections are empty; None iff no section has rows |
| `TableNavigation.CellAbove` | packages/block-library/src/table/test/state.js:1318-1355 | a result is an existing cell in the same column: the previous row of the section, or from row 0 the last row of the previous section, and it is returned whenever that cell exists; None at the top of head |
| `TableNavigation.CellBelow` | packages/block-library/src/table/test/state.js:1357-1394 | a result is an existing cell in the same column: the next row of the section, or from the last row row 0 of the next section, and it is returned whenever that cell exists; None at the bottom of foot |
| `TableNavigation.AboveBelowSymmetric` | packages/block-library/src/table/test/state.js:1318-1394 | for two existing cells, B is below A iff A is above B |
| `TableNavigation.NothingAboveFirstRow` | packages/block-library/src/table/test/state.js:1319-1328 | nothing is above the table's first row, whether it lies in head or in body with an empty head |
| `TableNavigation.NothingBelowLastRow` | packages/block-library/src/table/test/state.js:1358-1367 | nothing is below the table's last row, whether it lies in foot or in body with an empty foot |
| `TableNavigation.CellToRight` | packages/block-library/src/table/test/state.js:1396-1410 | the next column of the same row, present iff that cell exists |
| `TableNavigation.CellToLeft` | packages/block-library/src/table/test/state.js:1412-1426 | the previous column of the same row, present iff the column is above 0 |
| `TableNavigation.LeftRightSymmetric` | packages/block-library/src/table/test/state.js:1396-1426 | for an existing cell B, B is right of A iff A is left of B |
| `TableNavigation.FirstCellInColumn` | packages/block-library/src/table/test/state.js:1428-1445 | a result is an existing cell of the column in the table's first row, and exists whenever that row has the column |
| `TableNavigation.LastCellInColumn` | packages/block-library/src/table/test/state.js:1447-1464 | a result is an existing cell of the column in the table's last row, and exists whenever that row has the column |
| `TableNavigation.ColumnEnds` | packages/block-library/src/table/test/state.js:1428-1464 | the first cell of a column has nothing above it and the last nothing below it |
| `TableNavigation.FirstCellInRow` | packages/block-library/src/table/test/state.js:1466-1472 | column 0 of the same row, with nothing to its left |
| `TableNavigation.LastCellInRow` | packages/block-library/src/table/test/state.js:1474-1480 | present iff the row exists and has cells; an existing cell of that row with nothing to its right |
| `TableNavigation.FirstCellInTable` | packages/block-library/src/table/test/state.js:1482-1492 | column 0 of the table's first row, present iff the table has a row |
| `TableNavigation.LastCellInTable` | packages/block-library/src/table/test/state.js:1494-1504 | present iff the table has a row and its last row has cells; then an existing cell of that row with nothing to its right |
| `TableNavigation.FirstCellOfTableIsCorner` | packages/block-library/src/table/test/state.js:1482-1492 | the table's first cell has nothing above it and nothing to its left |
| `TableNavigation.LastCellOfTableIsCorner` | packages/block-library/src/table/test/state.js:1494-1504 | the table's last cell has nothing below it and nothing to its right |
| `FormatRegistration.MergeName` | packages/rich-text/src/register-format-type.js:36-39 | a `name` key in the settings wins over the argument; otherwise the argument is added |
| `FormatNames.IndexOf` | packages/rich-text/src/register-format-type.js:48 | the position of the first slash, None iff there is none |
| `FormatNames.MatchesFormatName` | packages/rich-text/src/register-format-type.js:48 | an accepted name has at least three characters, starts with a lower-case letter, does not end with a slash and uses only `[a-z0-9-]` and slashes |
| `FormatNames.MatchesFormatNameExactly` | packages/rich-text/src/register-format-type.js:48-53 | the name test accepts exactly `part/part` with each part `[a-z][a-z0-9-]*`, and an accepted name has exactly one slash |
| `FormatNames.LeadRun` | packages/rich-text/src/register-format-type.js:82 | the length of the longest prefix of `[_a-zA-Z]` characters |
| `FormatNames.MatchesClassNameExactly` | packages/rich-text/src/register-format-type.js:82-87 | the greedy class-name test accepts exactly the strings that split into a non-empty `[_a-zA-Z]` run followed by `[a-zA-Z0-9-]` characters |
| `FormatNames.MatchesClassName` | packages/rich-text/src/register-format-type.js:82 | an accepted class name is non-empty, starts with a letter or underscore and uses only letters, digits, hyphens and underscores |
| `FormatNames.NullTextPassesClassNameTest` | packages/rich-text/src/register-format-type.js:72-87 | `"null"`, the text a pattern reads from `null`, passes the class-name test |
| `FormatRegistration.Validate` | packages/rich-text/src/register-format-type.js:35-132 | success returns the merged settings, which are well formed and whose name and handled element are unclaimed |
| `FormatRegistration.ValidateAcceptsWhenGuardsPass` | packages/rich-text/src/register-format-type.js:41-130 | the chain accepts iff every guard, stated with the patterns' shapes, passes |
| `FormatRegistration.AcceptedPassesEveryGuard` | packages/rich-text/src/register-format-type.js:41-130 | an accepted format passes every guard |
| `FormatRegistration.ReportedGuardFails` | packages/rich-text/src/register-format-type.js:41-130 | the guard a refusal reports fails |
| `FormatRegistration.EarlierGuardsPass` | packages/rich-text/src/register-format-type.js:41-130 | every guard checked before the reported one passes |
| `FormatRegistration.ValidateReportsFirstFailure` | packages/rich-text/src/register-format-type.js:41-130 | a refusal's reason belongs to a guard that fails while every earlier guard (name string, name pattern, name free, tag, class type, class pattern, handler free, title present, keywords, title string) passes |
| `FormatRegistration.KeywordRefusalsNameTheirCause` | packages/rich-text/src/register-format-type.js:118-123 | a refusal as unreadable keywords means `keywords` is present and null or undefined (where `.length` throws); a refusal as too many keywords means it is present, readable and longer than 3 |
| `FormatRegistration.ConflictNamesOwner` | packages/rich-text/src/register-format-type.js:89-109 | for any store, a handler-conflict refusal names exactly the format the store records as handling that tag (class name null) or that class name |
| `FormatRegistration.GuardsMeanWellFormedAndUnclaimed` | packages/rich-text/src/register-format-type.js:41-130 | all guards pass iff the merged settings are well formed and unclaimed in the registry |
| `FormatRegistration.AddFormat` | packages/rich-text/src/register-format-type.js:132 | the format is stored under its name, and under its class name or (class name null) its bare tag name |
| `FormatRegistration.AddFormatKeepsConsistent` | packages/rich-text/src/register-format-type.js:89-132 | adding a well-formed, unclaimed format keeps the handler maps in agreement with the formats |
| `FormatRegistration.HandlersAreUnique` | packages/rich-text/src/register-format-type.js:89-109 | in a consistent registry no two formats handle the same class name or the same bare tag name |
| `FormatRegistration.SecondRegistrationRefused` | packages/rich-text/src/register-format-type.js:55-60 | after a registration succeeds, any settings with the same name are refused as already registered |
| `FormatRegistration.BareElementClaimRefused` | packages/rich-text/src/register-format-type.js:89-98 | after a format with class name null is registered for a tag, another otherwise valid bare format for that tag is refused, naming the first format |
| `FormatRegistration.ClassNameClaimRefused` | packages/rich-text/src/register-format-type.js:99-108 | after a format with a class name is registered, another otherwise valid format with that class name is refused, naming the first format |
| `FormatRegistration.FormatRegistry.Register` | packages/rich-text/src/register-format-type.js:35-204 | the outcome is the guard chain's on the registry before the call; a refusal changes nothing; a success stores the merged settings under their name and keeps the registry consistent |
| `FormatRegistration.FormatRegistry.GetFormatType` | packages/rich-text/src/register-format-type.js:55 | the format registered under the name, present iff the name is registered |
| `FormatRegistration.FormatRegistry.GetFormatTypeForBareElement` | packages/rich-text/src/register-format-type.js:89-98 | present iff some format has class name null and that tag name, and the result is such a format and is the very format stored under its own name |
| `FormatRegistration.FormatRegistry.GetFormatTypeForClassName` | packages/rich-text/src/register-format-type.js:99-108 | present iff some format has that class name, and the result is such a format and is the very format stored under its own name |

## Left out

- The table implementation module `packages/block-library/src/table/state.js` is not part of this model. The operations follow its test file, and where the tests are silent they follow the choices listed above.
- Reference identity (`toBe`): a no-op returns a value equal to its input. Dafny values have no identity.
- Row objects hold only `cells`. A row's other keys are not modelled.
- Selection types other than `cell`, `column` and `table` are not modelled. In the source they match nothing, as a table selection does.
- Indexes are natural numbers. Negative indexes have no specified meaning.
- `updateSelectedCellAttributes` takes any function from cell to cell, and its result replaces the cell. The shallow merge `{ ...cell, ...patch }` used by the tests is one such function.
- The React and hook wiring of `registerFormatType` (register-format-type.js:134-202): `addFilter`, `useSelect`, `useDispatchWithMap`, prop-name prefixing and rendering. It is user-interface plumbing over libraries that are not part of this model.
- `window.console.error` output. Each failure is a `FormatError` value instead, and that value names the owning format for the two handler conflicts.
- The `@wordpress/data` store behind `select` and `dispatch` is not part of this model. The registry is three maps.
  - A class-name lookup is exact equality. The selectors themselves are not modelled.
  - A format added to the store by any other route is not modelled.
- Settings keys other than `name`, `tagName`, `className`, `title` and `keywords` (for example `edit` and the experimental callbacks) are carried by the source but play no part in the guards, so they are not modelled.
- When `keywords` is present but `null` or `undefined`, the source throws a `TypeError` when it reads `.length`. The model returns the refusal `KeywordsUnreadable` at that point in the chain.
- `FormatRegistration.KeywordsOverLimit`: a string `keywords` is measured in characters, while JavaScript's `.length` counts UTF-16 code units, so a string with characters outside the Basic Multilingual Plane is measured shorter here than in the source.
- JavaScript values are reduced to what the guards tell apart: `undefined`, `null`, strings, arrays (by length) and other values. Other values have no `length`.
- `packages/block-editor/src/components/media-placeholder/index.native.js` is a presentational component whose only logic is defaulting its labels. It is not part of this model.
