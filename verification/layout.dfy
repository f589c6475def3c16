/**
 * The spreadsheet written by `export_to_excel`, as an abstract grid of cell
 * texts and a width per column: the header row, one row per record, and
 * each column's width `min(longest cell + 2, 50)`.
 */
module Layout {
  import opened Fields

  /** The header row, which also fixes the column order. */
  const Headers: seq<string> := ["Company", "Location", "YardBrief", "Address"]

  /** The widest a column is ever made. */
  const MaxWidth: nat := 50

  /** A written sheet: its rows of cell texts (row 1 first) and its column widths (column A first). */
  datatype Sheet = Sheet(cells: seq<seq<string>>, widths: seq<nat>)

  /** The data row of one record, in header order. */
  function Row(l: Listing): (r: seq<string>)
    ensures |r| == |Headers|
  {
    [l.company, l.location, l.yardBrief, l.address]
  }

  /** The cell grid: the header row, then one row per record in record order. */
  function Grid(listings: seq<Listing>): (g: seq<seq<string>>)
    ensures |g| == |listings| + 1
    ensures forall i :: 0 <= i < |g| ==> |g[i]| == |Headers|
  {
    [Headers] + seq(|listings|, i requires 0 <= i < |listings| => Row(listings[i]))
  }

  /** The cell in 1-based `row` and `column`, as openpyxl numbers them. */
  function Cell(g: seq<seq<string>>, row: int, column: int): string
    requires 1 <= row <= |g| && 1 <= column <= |g[row - 1]|
  {
    g[row - 1][column - 1]
  }

  /** The length of the longest cell of column `c` (0 when there are no rows). */
  function ColumnMax(rows: seq<seq<string>>, c: nat): (m: nat)
    requires forall i :: 0 <= i < |rows| ==> c < |rows[i]|
  {
    if rows == [] then 0
    else
      var m := ColumnMax(rows[..|rows| - 1], c);
      var last := |rows[|rows| - 1][c]|;
      if last > m then last else m
  }

  /** ColumnMax is the maximum: no cell of the column is longer, and some cell is that long. */
  lemma {:induction false} ColumnMaxSpec(rows: seq<seq<string>>, c: nat)
    requires forall i :: 0 <= i < |rows| ==> c < |rows[i]|
    ensures forall i :: 0 <= i < |rows| ==> |rows[i][c]| <= ColumnMax(rows, c)
    ensures rows == [] ==> ColumnMax(rows, c) == 0
    ensures rows != [] ==> exists i :: 0 <= i < |rows| && |rows[i][c]| == ColumnMax(rows, c)
  {
    if rows != [] {
      var init := rows[..|rows| - 1];
      ColumnMaxSpec(init, c);
      assert forall i :: 0 <= i < |init| ==> init[i] == rows[i];
    }
  }

  /** The width given to column `c`: two more than its longest cell, but never over MaxWidth. */
  function ColumnWidth(rows: seq<seq<string>>, c: nat): (w: nat)
    requires forall i :: 0 <= i < |rows| ==> c < |rows[i]|
    ensures 2 <= w <= MaxWidth
  {
    var w := ColumnMax(rows, c) + 2;
    if w < MaxWidth then w else MaxWidth
  }

  /** The widths of the four columns of `rows`. */
  function ColumnWidths(rows: seq<seq<string>>): (ws: seq<nat>)
    requires forall i :: 0 <= i < |rows| ==> |Headers| <= |rows[i]|
    ensures |ws| == |Headers|
  {
    seq(|Headers|, c requires 0 <= c < |Headers| => ColumnWidth(rows, c))
  }

  /** The sheet written for a non-empty list of records. */
  function SheetFor(listings: seq<Listing>): (s: Sheet)
    ensures |s.cells| == |listings| + 1 && s.cells[0] == Headers
    ensures |s.widths| == |Headers|
  {
    Sheet(Grid(listings), ColumnWidths(Grid(listings)))
  }

  /**
   * Row 1 holds the headers; record i (0-based) is in row i + 2 with its
   * fields in header order; there are no other rows.
   */
  lemma GridPlacement(listings: seq<Listing>)
    ensures var g := Grid(listings);
            && |g| == |listings| + 1
            && (forall c :: 1 <= c <= 4 ==> Cell(g, 1, c) == Headers[c - 1])
            && (forall i :: 0 <= i < |listings| ==>
                  && Cell(g, i + 2, 1) == listings[i].company
                  && Cell(g, i + 2, 2) == listings[i].location
                  && Cell(g, i + 2, 3) == listings[i].yardBrief
                  && Cell(g, i + 2, 4) == listings[i].address)
  {
  }

  /**
   * Every column's width is `min(longest cell + 2, 50)`: it lies between its
   * header's length plus two and 50; it is at least `min(len + 2, 50)` for
   * every cell of the column; below 50 it is exactly two more than some
   * cell's length, and it is 50 only when some cell's length plus two
   * reaches 50.
   */
  lemma WidthBounds(listings: seq<Listing>, c: nat)
    requires c < |Headers|
    ensures var g := Grid(listings);
            var w := ColumnWidths(g)[c];
            && |Headers[c]| + 2 <= w <= MaxWidth
            && (forall i :: 0 <= i < |g| ==> w >= |g[i][c]| + 2 || w == MaxWidth)
            && (w < MaxWidth ==> exists i :: 0 <= i < |g| && w == |g[i][c]| + 2)
            && (w == MaxWidth ==> exists i :: 0 <= i < |g| && |g[i][c]| + 2 >= MaxWidth)
  {
    var g := Grid(listings);
    ColumnMaxSpec(g, c);
    assert g[0] == Headers;
    assert |Headers[c]| <= 9;
  }
}
