/** The table component: it owns the list of row backgrounds and the
    row-by-column array of text cells, builds them with either layout,
    resizes the columns of an existing table in place, and writes the text
    of one cell. Creating the engine's objects is modelled as making a fresh
    record. */
module Tables {
  import opened Layout

  datatype Option<T> = None | Some(value: T)

  class TableManager {
    /** Size of the component's own rectangle; `None` when it has none. */
    var frameSize: Option<Size>
    /** The row backgrounds, in the order they were created. */
    var tableRows: seq<Row>
    /** The text cells, indexed by row and column. */
    var tableCells: array2<Cell>

    /** Configured table width and cell height; the column resizer lays out against these. */
    const tableWidth: real
    const cellHeight: real
    /** Whether odd rows get the second colour. */
    const useAlternatingColors: bool
    /** Text of the cell prefab; every new cell starts as a copy of it. */
    const prefabText: string

    /** One row background per row of cells. */
    ghost predicate Valid()
      reads this
    {
      |tableRows| == tableCells.Length0
    }

    /** The component before any table is built: no rows and no cells. */
    constructor (frame: Option<Size>, width: real, height: real, alternate: bool, text: string)
      ensures Valid()
      ensures frameSize == frame && tableRows == []
      ensures tableCells.Length0 == 0 && tableCells.Length1 == 0
      ensures tableWidth == width && cellHeight == height
      ensures useAlternatingColors == alternate && prefabText == text
    {
      frameSize := frame;
      tableRows := [];
      tableCells := new Cell[0, 0];
      tableWidth := width;
      cellHeight := height;
      useAlternatingColors := alternate;
      prefabText := text;
    }

    /** Builds a `row` by `col` table whose column widths are the percentages
        `colPercent` of `width`; rejects, changing nothing, a vector whose length
        is not `col`. */
    method CreateTable(row: nat, col: int, width: real, height: real, colPercent: seq<real>)
      returns (ok: bool)
      requires Valid()
      modifies this
      ensures Valid()
      ensures ok <==> |colPercent| == col
      ensures !ok ==> frameSize == old(frameSize) && tableRows == old(tableRows) && tableCells == old(tableCells)
      ensures ok ==> frameSize == (if old(frameSize).Some? then Some(Size(width, height * (row as real))) else None)
      ensures ok ==> fresh(tableCells) && tableCells.Length0 == row && tableCells.Length1 == col
      ensures ok ==> forall i :: 0 <= i < row ==> tableRows[i] == RowAt(i, width, height, useAlternatingColors)
      ensures ok ==> forall i, j :: 0 <= i < row && 0 <= j < col ==>
                       tableCells[i, j] == PercentCell(colPercent, j, width, height, prefabText)
    {
      if |colPercent| != col {
        return false;
      }
      if frameSize.Some? {
        frameSize := Some(Size(width, height * (row as real)));
      }
      tableRows := [];
      var cells := new Cell[row, col];
      tableCells := cells;

      var i := 0;
      while i < row
        invariant 0 <= i <= row
        invariant tableCells == cells
        invariant frameSize == (if old(frameSize).Some? then Some(Size(width, height * (row as real))) else None)
        invariant |tableRows| == i
        invariant forall k :: 0 <= k < i ==> tableRows[k] == RowAt(k, width, height, useAlternatingColors)
        invariant forall k, j :: 0 <= k < i && 0 <= j < col ==>
                    cells[k, j] == PercentCell(colPercent, j, width, height, prefabText)
      {
        var rowColor := if useAlternatingColors then (if i % 2 == 0 then Color0 else Color1) else Color0;
        tableRows := tableRows + [Row(0.0, height * -(i as real), width, height, rowColor)];

        var totalPercent := 0.0;
        var j := 0;
        while j < col
          modifies cells
          invariant 0 <= j <= col
          invariant totalPercent == Sum(colPercent[..j])
          invariant forall k, m :: 0 <= k < i && 0 <= m < col ==>
                      cells[k, m] == PercentCell(colPercent, m, width, height, prefabText)
          invariant forall m :: 0 <= m < j ==>
                      cells[i, m] == PercentCell(colPercent, m, width, height, prefabText)
        {
          var xPos := totalPercent / 100.0 * width;
          cells[i, j] := Cell(xPos, 0.0, colPercent[j] / 100.0 * width, height, prefabText);
          PrefixSumStep(colPercent, j);
          totalPercent := totalPercent + colPercent[j];
          j := j + 1;
        }
        i := i + 1;
      }
      return true;
    }

    /** Builds a `row` by `col` table of equal columns, `width / col` each. */
    method CreateTableUniform(row: nat, col: nat, width: real, height: real)
      requires Valid()
      modifies this
      ensures Valid()
      ensures frameSize == (if old(frameSize).Some? then Some(Size(width, height * (row as real))) else None)
      ensures fresh(tableCells) && tableCells.Length0 == row && tableCells.Length1 == col
      ensures forall i :: 0 <= i < row ==> tableRows[i] == RowAt(i, width, height, useAlternatingColors)
      ensures forall i, j :: 0 <= i < row && 0 <= j < col ==>
                tableCells[i, j] == UniformCell(col, j, width, height, prefabText)
    {
      if frameSize.Some? {
        frameSize := Some(Size(width, height * (row as real)));
      }
      tableRows := [];
      var cells := new Cell[row, col];
      tableCells := cells;
      // With no columns the width is never used (the component divides by zero there).
      var estCellWidth := if col > 0 then width / (col as real) else 0.0;

      var i := 0;
      while i < row
        invariant 0 <= i <= row
        invariant tableCells == cells
        invariant frameSize == (if old(frameSize).Some? then Some(Size(width, height * (row as real))) else None)
        invariant |tableRows| == i
        invariant forall k :: 0 <= k < i ==> tableRows[k] == RowAt(k, width, height, useAlternatingColors)
        invariant forall k, j :: 0 <= k < i && 0 <= j < col ==>
                    cells[k, j] == UniformCell(col, j, width, height, prefabText)
      {
        var rowColor := if useAlternatingColors then (if i % 2 == 0 then Color0 else Color1) else Color0;
        tableRows := tableRows + [Row(0.0, height * -(i as real), width, height, rowColor)];

        var j := 0;
        while j < col
          modifies cells
          invariant 0 <= j <= col
          invariant forall k, m :: 0 <= k < i && 0 <= m < col ==>
                      cells[k, m] == UniformCell(col, m, width, height, prefabText)
          invariant forall m :: 0 <= m < j ==>
                      cells[i, m] == UniformCell(col, m, width, height, prefabText)
        {
          assert estCellWidth == width / (col as real);
          cells[i, j] := Cell(estCellWidth * (j as real), 0.0, estCellWidth, height, prefabText);
          j := j + 1;
        }
        i := i + 1;
      }
    }

    /** Re-lays the columns of the existing table from the percentages `colPercent`
        of the configured width, in place, keeping every cell's y and text; rejects,
        changing nothing, a vector whose length is not the column count. */
    method SetColSize(colPercent: seq<real>) returns (ok: bool)
      requires Valid()
      modifies tableCells
      ensures Valid()
      ensures ok <==> |colPercent| == tableCells.Length1
      ensures forall i, j :: 0 <= i < tableCells.Length0 && 0 <= j < tableCells.Length1 ==>
                tableCells[i, j] == if ok then ResizedCell(old(tableCells[i, j]), colPercent, j, tableWidth, cellHeight)
                                    else old(tableCells[i, j])
    {
      if |colPercent| != tableCells.Length1 {
        return false;
      }
      var i := 0;
      while i < tableCells.Length0
        invariant 0 <= i <= tableCells.Length0
        invariant forall k, j :: 0 <= k < i && 0 <= j < tableCells.Length1 ==>
                    tableCells[k, j] == ResizedCell(old(tableCells[k, j]), colPercent, j, tableWidth, cellHeight)
        invariant forall k, j :: i <= k < tableCells.Length0 && 0 <= j < tableCells.Length1 ==>
                    tableCells[k, j] == old(tableCells[k, j])
      {
        var totalPercent := 0.0;
        var j := 0;
        while j < |colPercent|
          invariant 0 <= j <= |colPercent|
          invariant totalPercent == Sum(colPercent[..j])
          invariant forall k, m :: 0 <= k < i && 0 <= m < tableCells.Length1 ==>
                      tableCells[k, m] == ResizedCell(old(tableCells[k, m]), colPercent, m, tableWidth, cellHeight)
          invariant forall m :: 0 <= m < j ==>
                      tableCells[i, m] == ResizedCell(old(tableCells[i, m]), colPercent, m, tableWidth, cellHeight)
          invariant forall k, m :: 0 <= k < tableCells.Length0 && 0 <= m < tableCells.Length1 && (k > i || (k == i && m >= j)) ==>
                      tableCells[k, m] == old(tableCells[k, m])
        {
          var cell := tableCells[i, j];
          var xPos := totalPercent / 100.0 * tableWidth;
          tableCells[i, j] := cell.(x := xPos, w := colPercent[j] / 100.0 * tableWidth, h := cellHeight);
          PrefixSumStep(colPercent, j);
          totalPercent := totalPercent + colPercent[j];
          j := j + 1;
        }
        i := i + 1;
      }
      return true;
    }

    /** Sets the text of cell (`row`, `col`); nothing else in the table changes. */
    method SetColData(row: int, col: int, colString: string)
      requires 0 <= row < tableCells.Length0 && 0 <= col < tableCells.Length1
      modifies tableCells
      ensures tableCells[row, col] == old(tableCells[row, col]).(text := colString)
      ensures forall i, j :: 0 <= i < tableCells.Length0 && 0 <= j < tableCells.Length1 && (i != row || j != col) ==>
                tableCells[i, j] == old(tableCells[i, j])
    {
      tableCells[row, col] := tableCells[row, col].(text := colString);
    }
  }
}
