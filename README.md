# Blazor Minesweeper rules engine in Dafny

This project models the rules engine of the Blazor Minesweeper game. The engine lives in
`SweeperManager` and `Cell`. It keeps a fixed field of 40 columns by 20 rows, and offers five
operations:

- **Reset** places mines and then counts, for every cell, the mines its neighbour visit meets.
- **Click** reveals a cell. A mined cell blows up the field, which shows every mine. A safe
  cell with a count of zero clicks every hidden cell of its visit, recursively.
- **MouseDown** with the right button (button 2) moves a cell's marker through
  None → Mine → Query → None.
- **Class** and **Content** give the CSS class and the text a cell shows.

The model is literal about two quirks of the neighbour visit:

- Its bound test is `x > 0 && y > 0`, so column 0 and row 0 are never visited. A mine there
  is counted by no cell, and a cascade never reaches it.
- It does not skip the centre cell, so a mined cell counts itself, and counts run from 0 to 9.

Classic Minesweeper rules differ from this code. There, a cell's count covers its eight
grid-adjacent neighbours, including those in column 0 and row 0, so counts run from 0 to 8.
The model follows the code. The lemmas `Neighbourhood.EdgeMineNeverCounted`,
`Neighbourhood.CornerMineUncounted` and `Neighbourhood.MinedCellCountsItself` show the
difference. Classic rules also have a "chord" that reveals a numbered cell's remaining
neighbours once enough of them are flagged. The code has no such operation, so neither does
the model. Once a cell is shown, its class and text ignore its marker
(`Cells.ShownCellIgnoresMarker`). But the code neither clears the marker on reveal nor
refuses a right click on a shown cell, and the model does neither.

Modules:

- `Decimal`: the decimal label of a positive count (`NatToString`), with a parser
  (`DecimalValue`) as its inverse.
- `Cells`: the `Marker` enum, its integer cast, the glyph table, and the `Cell` record with
  its `CssClass` and `Content` getters.
- `Neighbourhood`: the field size, the neighbour visit as the list of coordinates it hands to
  its action (in loop order), and the mine count of a visit.
- `Field`: the field as a value (`Grid`). It holds the grid a reset produces, the grid after
  each kind of click, BlowAll and MouseDown as functions, and the lemmas that a click keeps
  the layout, only ever shows more cells, and terminates.
- `Sweeper`: `class SweeperManager`. It holds the field as an `array2<Cell>` that its methods
  update in place. Reset, BlowAll and MouseDown are proved to leave the grid that a function
  of `Field` gives. Click and its flood fill are proved against the relations of `Field`
  between the grid before and after: it grows, settles and cascades. Class and Content are
  proved against the getters of `Cells`.

The source's `Random` is replaced by a `draws` parameter of `Reset`, one number per cell in the
order the placement loop asks for them. A cell is mined when its draw exceeds 80. The
`MouseEventArgs` argument of `MouseDown` is reduced to its `Button` number. The mined cells of
the current game are kept in a ghost field `mines`, which the contracts use to state what
Reset and Click promise.

## Model

| member | source | states |
|---|---|---|
| Cells.Ordinal | BlazorMinesweeper/Client/SweeperManager.cs:9 | The enum's integer value lies in 0..2, in declaration order. |
| Cells.FromOrdinal | BlazorMinesweeper/Client/SweeperManager.cs:108 | The cast back from an integer in 0..2 gives the marker with that integer value. |
| Cells.OrdinalRoundTrip | BlazorMinesweeper/Client/SweeperManager.cs:9 | Casting a marker to its integer and back gives the same marker. |
| Cells.NextMarker | BlazorMinesweeper/Client/SweeperManager.cs:108 | Moving to the next marker always changes the marker. |
| Cells.NextMarkerCycle | BlazorMinesweeper/Client/SweeperManager.cs:105-109 | The step maps None to Mine, Mine to Query and Query to None. Three steps restore any marker; two never do. |
| Cells.Glyph | BlazorMinesweeper/Client/SweeperManager.cs:13 | A marker's glyph is one character, and no other marker has the same glyph. |
| Cells.Cell.CssClass | BlazorMinesweeper/Client/SweeperManager.cs:17-28 | The class is "mine-hidden" exactly when the cell is hidden, "mine-blown" exactly when it is shown and mined, and "mine-shown" exactly when it is shown and safe. |
| Cells.Cell.Content | BlazorMinesweeper/Client/SweeperManager.cs:30-39 | A hidden cell shows its marker glyph. A shown safe cell with a positive count shows a canonical numeral for that count. Any other shown cell shows "". |
| Cells.HiddenCellsLookAlike | BlazorMinesweeper/Client/SweeperManager.cs:17-39 | Two hidden cells with the same marker have the same class and text, whatever their mines and counts. |
| Cells.ShownCellIgnoresMarker | BlazorMinesweeper/Client/SweeperManager.cs:17-39 | Once a cell is shown, changing its marker changes neither its class nor its text. |
| Cells.ShownLabelIsCount | BlazorMinesweeper/Client/SweeperManager.cs:35 | A shown safe cell's text is empty exactly when its count is 0, and otherwise reads back as the count. |
| Decimal.NatToString | BlazorMinesweeper/Client/SweeperManager.cs:35 | The decimal form of a natural number is a canonical numeral that denotes that number. It has one digit exactly when the number is below 10. |
| Decimal.FormatParsed | BlazorMinesweeper/Client/SweeperManager.cs:35 | Formatting the value of any canonical numeral gives back that numeral, so formatting and parsing are inverse. |
| Neighbourhood.VisitColumn | BlazorMinesweeper/Client/SweeperManager.cs:83-87 | The inner loop yields exactly the rows from y to row+1 of column x that pass the bound test, in increasing order. |
| Neighbourhood.VisitFrom | BlazorMinesweeper/Client/SweeperManager.cs:81-88 | The outer loop yields exactly the coordinates of columns x..col+1 and rows row-1..row+1 that pass the bound test, in column-major order. |
| Neighbourhood.VisitNeighbours | BlazorMinesweeper/Client/SweeperManager.cs:79-89 | A coordinate is visited exactly when it passes the strict bound test and lies in the 3 x 3 block round (col, row), centre included. Every visited coordinate is on the field, no coordinate is visited twice, the order is column-major, and there are at most 9 visits. |
| Neighbourhood.CountIn | BlazorMinesweeper/Client/SweeperManager.cs:70-74 | The number of mined entries of a list is at most the list's length. |
| Neighbourhood.CountInStep | BlazorMinesweeper/Client/SweeperManager.cs:72-73 | One more visited entry adds one to the count exactly when that entry is mined. |
| Neighbourhood.NeighbourCount | BlazorMinesweeper/Client/SweeperManager.cs:66-76 | A cell's count after Reset is at most 9. |
| Neighbourhood.CountInZero | BlazorMinesweeper/Client/SweeperManager.cs:70-74 | A count is zero exactly when no entry of the list is mined. |
| Neighbourhood.CountInAgree | BlazorMinesweeper/Client/SweeperManager.cs:70-74 | Two mine sets that agree on a list's entries give that list the same count. |
| Neighbourhood.CountInIsCardinality | BlazorMinesweeper/Client/SweeperManager.cs:70-74 | On a list without repeats, the count is the number of distinct mined entries. |
| Neighbourhood.NeighbourCountIsBlockCount | BlazorMinesweeper/Client/SweeperManager.cs:66-89 | A cell's count is the number of mined cells at (x, y) with distance at most 1 in each direction, 0 < x < 40 and 0 < y < 20. That set includes the cell itself. |
| Neighbourhood.ZeroCountMeansNoVisitedMine | BlazorMinesweeper/Client/SweeperManager.cs:70-74 | A cell's count is zero exactly when no coordinate of its visit is mined. |
| Neighbourhood.MinedCellCountsItself | BlazorMinesweeper/Client/SweeperManager.cs:81-86 | A mined cell off column 0 and row 0 has a count of at least 1, because the visit includes the centre. |
| Neighbourhood.EdgeMineNeverCounted | BlazorMinesweeper/Client/SweeperManager.cs:85 | Adding or removing a mine in column 0 or row 0 changes no cell's count. |
| Neighbourhood.CornerMineUncounted | BlazorMinesweeper/Client/SweeperManager.cs:85 | With one mine at (0, 0), its diagonal neighbour (1, 1) has a count of 0. |
| Field.DrawnMines | BlazorMinesweeper/Client/SweeperManager.cs:58-64 | A coordinate is mined exactly when it is on the field and its draw exceeds 80. |
| Field.ResetGrid | BlazorMinesweeper/Client/SweeperManager.cs:54-77 | The grid a reset leaves has 40 columns of 20 cells. Each cell is the fresh cell for its draw, carrying its visit's mine count. |
| Field.ResetGridFacts | BlazorMinesweeper/Client/SweeperManager.cs:58-76 | After a reset, every cell is hidden, unmarked, at its own column and row, and mined as drawn. Its count is valid: it equals the number of mined cells in its 3 x 3 block that lie off column 0 and row 0, which is at most 9. |
| Field.ZeroCountVisitIsSafe | BlazorMinesweeper/Client/SweeperManager.cs:97-102 | With valid counts, no cell of a zero-count cell's visit is mined. |
| Field.GrowsTransitive | BlazorMinesweeper/Client/SweeperManager.cs:91-103 | Two steps of a click that each change only shown flags, and never hide a cell, together do the same. |
| Field.GrowsKeepsLayout | BlazorMinesweeper/Client/SweeperManager.cs:91-103 | A change of shown flags alone keeps the layout and the valid counts. |
| Field.UnshownShrinksOrStays | BlazorMinesweeper/Client/SweeperManager.cs:93 | Showing cells never adds to the set of hidden cells. |
| Field.UnshownShrinks | BlazorMinesweeper/Client/SweeperManager.cs:97-102 | Each recursive click is on a hidden cell while the clicking cell is already shown, so the hidden cells plus the clicked cell form a strictly smaller set. This makes the recursion terminate. |
| Field.ShownPrefixStep | BlazorMinesweeper/Client/SweeperManager.cs:97-102 | After its step of the flood fill, one more coordinate of the visit is shown. The ones before it stay shown. |
| Field.ShowCell | BlazorMinesweeper/Client/SweeperManager.cs:93 | Setting one cell's shown flag shows that cell, changes no other cell and no other field, and is a no-op on a shown cell. |
| Field.BlowAllOf | BlazorMinesweeper/Client/SweeperManager.cs:111-118 | BlowAll shows every mined cell, changes only shown flags, and leaves every safe cell unchanged. |
| Field.BlowAllIdempotent | BlazorMinesweeper/Client/SweeperManager.cs:111-118 | BlowAll changes nothing once every mine is shown, so a second BlowAll changes nothing. |
| Field.ClickOnMine | BlazorMinesweeper/Client/SweeperManager.cs:93-96 | Clicking a mine gives the same grid as BlowAll on the grid before the click. A cell is then shown exactly when it was shown before or is mined. The click settles, and repeating a settled click changes nothing. |
| Field.ClickOnSafeCount | BlazorMinesweeper/Client/SweeperManager.cs:93-97 | Clicking a safe cell with a non-zero count shows that cell alone. It shows no mine, and the click settles. |
| Field.ClickOnSafeZero | BlazorMinesweeper/Client/SweeperManager.cs:97-102 | A click on a safe zero-count cell, followed by its flood fill, settles: the cell and its whole visit are shown. Every newly shown cell has cascaded. With valid counts no mine is shown, and repeating a settled click changes nothing. |
| Field.CascadeStep | BlazorMinesweeper/Client/SweeperManager.cs:97-102 | One recursive click inside the flood fill keeps its loop invariant. The fill then never was a no-op. |
| Field.MouseDownOf | BlazorMinesweeper/Client/SweeperManager.cs:105-109 | A press changes at most the marker of the pressed cell. Button 2 moves that marker to the next one; any other button changes nothing. |
| Field.MouseDownKeepsLayout | BlazorMinesweeper/Client/SweeperManager.cs:105-109 | A press keeps the layout, the valid counts and every shown flag. |
| Field.ThreeRightClicksRestore | BlazorMinesweeper/Client/SweeperManager.cs:105-109 | Three right clicks on the same cell restore the whole grid. |
| Sweeper.SweeperManager.constructor | BlazorMinesweeper/Client/SweeperManager.cs:47-52 | Allocates the 40 x 20 field and resets it, with the outcome Reset promises. |
| Sweeper.SweeperManager.Reset | BlazorMinesweeper/Client/SweeperManager.cs:54-77 | Leaves the field equal to the reset grid of the draws, with valid counts and the drawn mines. |
| Sweeper.SweeperManager.PlaceMines | BlazorMinesweeper/Client/SweeperManager.cs:58-64 | The placement loop leaves a fresh cell at every coordinate: hidden, unmarked, count 0, at its own column and row, and mined as its draw says. |
| Sweeper.SweeperManager.CountColumn | BlazorMinesweeper/Client/SweeperManager.cs:68-75 | One pass of the outer counting loop gives every cell of column col its count, and it touches no other column. |
| Sweeper.SweeperManager.CountNeighbours | BlazorMinesweeper/Client/SweeperManager.cs:70-74 | The visit of (col, row) adds that cell's mine count to its count and changes no other cell. |
| Sweeper.SweeperManager.CountEach | BlazorMinesweeper/Client/SweeperManager.cs:70-74 | Running the counting action over a list of coordinates adds the list's mine count to (col, row) and changes no other cell. |
| Sweeper.SweeperManager.Bump | BlazorMinesweeper/Client/SweeperManager.cs:73 | `++Neighbours` on one cell, changing nothing else. |
| Sweeper.SweeperManager.BlowAll | BlazorMinesweeper/Client/SweeperManager.cs:111-118 | The field becomes BlowAll of the field before. |
| Sweeper.SweeperManager.Click | BlazorMinesweeper/Client/SweeperManager.cs:91-103 | Terminates. Leaves the cell shown and changes only shown flags, never hiding a cell. Keeps the layout and valid counts. A mine gives BlowAll of the grid before. A safe cell with a non-zero count is shown alone, and nothing else changes. With valid counts, a safe click shows no mine. The cell's visit is shown if it has a zero count. Every newly shown zero-count cell has had its own visit shown. A second click on the same cell changes nothing. |
| Sweeper.SweeperManager.ClickNeighbours | BlazorMinesweeper/Client/SweeperManager.cs:97-102 | The flood fill shows every cell of the visit and changes only shown flags. Every cell it shows has cascaded. With valid counts it shows no mine, and it changes nothing if the visit was already shown. |
| Sweeper.SweeperManager.MouseDown | BlazorMinesweeper/Client/SweeperManager.cs:105-109 | The field becomes MouseDownOf of the field before: button 2 moves the cell's marker to the next one, and nothing else changes. Valid counts are kept. |
| Sweeper.SweeperManager.Class | BlazorMinesweeper/Client/SweeperManager.cs:120-123 | The class is "mine-hidden" exactly when the cell is hidden, "mine-blown" exactly when it is shown and mined, and "mine-shown" exactly when it is shown and safe. |
| Sweeper.SweeperManager.Content | BlazorMinesweeper/Client/SweeperManager.cs:125-128 | A hidden cell shows its marker glyph and a shown mine shows "". A shown safe cell shows "" exactly when its count is at most 0, and otherwise a numeral for its count. |

## Left out

- `System.Random` and `rand.Next(100)`: the draws are a parameter of Reset and the
  constructor, one per cell in column-major order. The model does not say which numbers a
  random source would produce.
- `MouseEventArgs`: reduced to the button number.
- `Int32.ToString`: modelled by `Decimal.NatToString` for the positive counts that are ever
  formatted. Culture settings and negative numbers are not modelled, because a label is only
  formatted for a count above 0.
- Integer width: counts are unbounded integers. A count never exceeds 9, so 32-bit overflow
  cannot arise.
- `Cell` is a reference type in C#. The model stores cell values in the array. No cell object
  is shared between two coordinates, so aliasing does not arise.
- The closure passed to `VisitNeighbours` is modelled by two things: the coordinate list the
  visit produces, and a loop over that list that runs the closure's body (`CountEach`,
  `ClickNeighbours`).
- Sweeper.SweeperManager.Click: for a safe cell of count zero, the contract states closure but
  not minimality. Every newly shown safe zero-count cell has had its whole visit shown, but it
  is not stated that only cells reachable from the click through zero-count cells become
  shown. Stating that needs an inductive definition of reachability along the cascade, and a
  proof that the recursive clicks stay inside it, which the model does not have. The mined and
  the numbered cases are stated exactly.
- Out-of-range coordinates: the C# indexer throws `IndexOutOfRangeException` when Click,
  MouseDown, Class or Content gets a column or row off the field. The model requires the
  coordinates to be on the field and does not model the exception.
- Rendering, the page component and CSS beyond the three class names are not part of this
  model.
- Concurrency: the engine is single-threaded, and so is the model.
