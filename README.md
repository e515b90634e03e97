# TableManager: a verified model of a grid-layout table component

The component builds a table of text cells inside a UI rectangle. It has one
background row per table row and one text cell per column in each row. Rows are
stacked downwards from the top-left corner, `cellHeight` apart. A row gets the
second configured colour when alternation is on and its index is odd; otherwise it
gets the first. Columns are laid out in one of two ways:

- by a percentage vector: column `j` is `colPercent[j]` percent of the table width
  wide, and it starts at the running total of the percentages before it;
- uniformly: every column is `tableWidth / col` wide, and column `j` starts at
  `j` times that width.

After a table is built, the column resizer re-lays every cell's x and width in
place from a new percentage vector. The cell writer replaces the text of one cell.

The model has two modules:

- `Layout` (`layout.dfy`) holds the records and the layout arithmetic as pure
  functions. The records are `Row`, `Cell`, `Size` and a two-valued `Color`.
  The arithmetic gives the row-colour rule, the percentage cell, the uniform cell
  and the resized cell. The lemmas in this module state what the layout
  guarantees.
- `Tables` (`table_manager.dfy`) holds the class `TableManager`. Its fields are
  `tableRows: seq<Row>`, `tableCells: array2<Cell>` and the optional size of the
  component's own rectangle. Its methods use the source's nested loops and
  running `totalPercent` accumulator. Each method is proved against the
  `Layout` functions.

Geometry is exact `real` arithmetic. A rejected percentage vector is reported as
`ok == false` in place of the logged error.

The model follows the code on these points:

- The uniform builder does no validation: it writes the size, resets the rows and
  allocates the cells unconditionally.
- Row `i` is placed at y = `-i * cellHeight`. The y axis points up, so rows grow
  downwards.
- `SetColSize` lays out against the component's configured `tableWidth` and
  `cellHeight`. It does not use the values that were passed to the last
  `CreateTable`. It also rewrites each cell's height to `cellHeight`.
- An out-of-range index to `SetColData` is a fault in the code, not a checked
  error. The model states the in-range requirement as a precondition.

## Model

| member | source | states |
|---|---|---|
| `Layout.RowColor` | TableManager/TableManager.cs:60 | a row gets the second colour exactly when alternation is on and its index is odd; otherwise it gets the first |
| `Layout.RowAt` | TableManager/TableManager.cs:60-70 | row `i`: x = 0, y = `-i*cellHeight`, width `tableWidth`, height `cellHeight`, colour by the alternation rule |
| `Layout.RowsStackAndAlternate` | TableManager/TableManager.cs:60-70 | each row sits one cell height below the previous one; with alternation on, neighbouring rows differ in colour; with it off, every row has the first colour |
| `Layout.OffsetOf` | TableManager/TableManager.cs:74-94 | x of column `j`: the sum of the percentages before it, taken as a share of the width |
| `Layout.WidthOf` | TableManager/TableManager.cs:87 | width of column `j`: its own percentage, taken as a share of the width |
| `Layout.PercentCell` | TableManager/TableManager.cs:76-96 | cell `j` of the percentage layout: x = share of the earlier percentages, width = own share, y = 0, height = cell height, text of the prefab |
| `Layout.UniformCell` | TableManager/TableManager.cs:115-149 | cell `j` of the uniform layout: width `tableWidth/col`, x = `j * tableWidth/col`, y = 0, height = cell height, text of the prefab |
| `Layout.SumAppend` | TableManager/TableManager.cs:94 | adding one more percentage to the vector adds exactly that percentage to its sum |
| `Layout.PrefixSumStep` | TableManager/TableManager.cs:74-94 | the running total after column `j` is the total before it plus `colPercent[j]`, so the accumulator always holds the sum of the earlier percentages |
| `Layout.FirstOffsetZero` | TableManager/TableManager.cs:74-91 | the first column starts at x = 0 |
| `Layout.OffsetStep` | TableManager/TableManager.cs:87-94 | column `j+1` starts exactly where column `j` ends: x(j+1) = x(j) + width(j) |
| `Layout.OffsetMonotone` | TableManager/TableManager.cs:87-94 | with non-negative percentages and width, x-offsets never decrease from left to right |
| `Layout.WidthsTotal` | TableManager/TableManager.cs:87 | the widths of a row's cells add up to the sum of the percentages, taken as a share of the table width |
| `Layout.EndOffset` | TableManager/TableManager.cs:90-94 | after the last column the running total is the sum of all the percentages, taken as a share of the width |
| `Layout.LastCellEnd` | TableManager/TableManager.cs:87-94 | the last cell's right edge is at the percentages' total share of the width |
| `Layout.LastCellEndsAtWidth` | TableManager/TableManager.cs:87-94 | when the percentages sum to 100 the last cell ends exactly at `tableWidth` |
| `Layout.EvenPrefixSum` | TableManager/TableManager.cs:115-147 | the first `j` of `n` equal percentages sum to `j * 100 / n` |
| `Layout.UniformIsEvenPercent` | TableManager/TableManager.cs:115-147 | the uniform layout's cell `j` (width `tableWidth/col`, x = `j * tableWidth/col`) is the percentage layout's cell for `col` equal percentages |
| `Layout.EvenPercentagesSum` | TableManager/TableManager.cs:115 | the `col` equal shares of the uniform split add up to 100 percent, so with `UniformIsEvenPercent` the uniform layout meets the hypothesis of `LastCellEndsAtWidth` |
| `Layout.UniformLastCellEnd` | TableManager/TableManager.cs:144-147 | in the uniform layout the last cell ends exactly at `tableWidth` |
| `Layout.ResizedCell` | TableManager/TableManager.cs:176-183 | a resized cell has the builder's x, width and height for its column, and keeps its own y and text |
| `Layout.ResizeMatchesBuild` | TableManager/TableManager.cs:179-183 | resizing a freshly built cell with the vector it was built from leaves it unchanged |
| `Layout.ResizeIdempotent` | TableManager/TableManager.cs:169-187 | resizing twice with the same vector gives the same cell as resizing once |
| `Layout.SixtyFortyExample` | TableManager/TableManager.cs:69-94 | with width 200, cell height 20 and percentages 60/40, rows are at 0, -20 and -40; cell 0 is 120 wide at x 0, and cell 1 is 80 wide at x 120 |
| `Tables.TableManager.constructor` | TableManager/TableManager.cs:9-26 | the component starts with its configuration, no rows and a 0×0 cell table |
| `Tables.TableManager.CreateTable` | TableManager/TableManager.cs:45-101 | a vector whose length is not `col` is rejected, and the size, rows and cells stay as they were; otherwise: the rectangle (if any) becomes `tableWidth` × `cellHeight*row`; the cells are a fresh `row`×`col` array; row `i` is the `i`-th entry of `tableRows`; every cell is the percentage-layout cell of its column |
| `Tables.TableManager.CreateTableUniform` | TableManager/TableManager.cs:110-154 | no validation; the rectangle (if any) becomes `tableWidth` × `cellHeight*row`; the cells are a fresh `row`×`col` array; the rows are as for `CreateTable`; every cell is `tableWidth/col` wide at x = `j * tableWidth/col` |
| `Tables.TableManager.SetColSize` | TableManager/TableManager.cs:160-191 | a vector whose length is not the column count is rejected with no cell changed; otherwise every cell becomes its resized cell for the configured width and height, and keeps its y and text |
| `Tables.TableManager.SetColData` | TableManager/TableManager.cs:199-202 | for in-range indices, cell (`row`, `col`) gets the new text and keeps its geometry; every other cell is unchanged |

## Left out

- Engine object creation (`Instantiate`, `new GameObject`, `AddComponent`, `InstantiateRectTransform`, `InstantiateImage`) is modelled as a fresh `Row` or `Cell` record. Object names ("Row i") and parenting are not modelled; a cell's row is its first array index.
- Cells are values in the array, not separate objects. The source's cells are distinct fresh objects that are never shared, so no aliasing is lost.
- Pivot and anchor assignments are left out. They are constant writes, always the top-left corner.
- The logged messages (`Debug.LogError`, `print`) are not modelled. A rejection is the `false` result.
- `Awake` and `GetComponent` are engine lifecycle glue and are not modelled. The presence of the component's own rectangle is the `Option` field `frameSize`.
- The cell prefab is modelled only by its text. Every geometry field it carries is overwritten when a cell is created.
- Tables.TableManager.constructor: the source's `tableRows` and `tableCells` start as null, and `SetColSize` or `SetColData` would throw before the first build. The model starts from an empty 0×0 table instead.
- Tables.TableManager.CreateTable: `row` is a `nat`. A negative row count makes the source throw when it allocates the array, after it has already written the size and reset `tableRows`; that partial failure is not modelled.
- Tables.TableManager.SetColData: an out-of-range row or column makes the source throw `IndexOutOfRangeException`; that fault is not modelled, and the model requires in-range indices instead.
- Tables.TableManager.CreateTableUniform: `row` and `col` are `nat`, for the same reason. When `col` is 0 the source's `tableWidth / col` is a float division by zero whose result is never used; the model does not compute it.
- The configured `tableWidth`, `cellHeight`, `useAlternatingColors` and prefab are constants. The inspector can change them between calls; nothing in the component's code does.
- `float` rounding is not modelled; geometry is exact `real` arithmetic. As a result, the 100-percent and uniform "last cell ends at the width" results hold exactly here and only approximately in the source.
