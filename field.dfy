/** The sweeper's field as a value: a grid of cells indexed [column][row], the states that the
    engine's operations produce, and the facts those states satisfy. */
module Field {
  import opened Cells
  import opened Neighbourhood

  type Grid = seq<seq<Cell>>

  predicate IsGrid(g: Grid)
  {
    |g| == Width && forall x :: 0 <= x < Width ==> |g[x]| == Height
  }

  lemma GridExt(g: Grid, h: Grid)
    requires IsGrid(g) && IsGrid(h)
    requires forall x, y :: InGrid(x, y) ==> g[x][y] == h[x][y]
    ensures g == h
  {
    forall x | 0 <= x < Width
      ensures g[x] == h[x]
    {
      assert forall y :: 0 <= y < Height ==> g[x][y] == h[x][y];
    }
  }

  // ---------------------------------------------------------------------------------------
  // Mine placement and neighbour counts

  /** A cell is mined when its draw of `rand.Next(100)` exceeds this. */
  const MineThreshold: int := 80

  /** Where the draw for (x, y) sits among a reset's draws: the row loop runs inside the
      column loop. */
  function DrawIndex(x: int, y: int): (i: nat)
    requires InGrid(x, y)
    ensures i < Width * Height
  {
    x * Height + y
  }

  predicate IsDrawnMine(draws: seq<int>, x: int, y: int)
    requires |draws| == Width * Height && InGrid(x, y)
  {
    draws[DrawIndex(x, y)] > MineThreshold
  }

  /** The mine layout a reset's draws produce. */
  function DrawnMines(draws: seq<int>): (mines: set<Pos>)
    requires |draws| == Width * Height
    ensures forall x, y :: (x, y) in mines <==> InGrid(x, y) && IsDrawnMine(draws, x, y)
  {
    var mines := set x, y | 0 <= x < Width && 0 <= y < Height && IsDrawnMine(draws, x, y) :: (x, y);
    assert forall x, y :: InGrid(x, y) && IsDrawnMine(draws, x, y) ==> (x, y) in mines;
    mines
  }

  /** The cell the first loop of a reset builds at (x, y): nothing shown, no marker, count 0. */
  function FreshCell(draws: seq<int>, x: int, y: int): Cell
    requires |draws| == Width * Height && InGrid(x, y)
  {
    Cell(IsDrawnMine(draws, x, y), false, 0, x, y, None)
  }

  /** The cell at (x, y) once its neighbours have been counted as well. */
  function ResetCell(draws: seq<int>, x: int, y: int): Cell
    requires |draws| == Width * Height && InGrid(x, y)
  {
    FreshCell(draws, x, y).(neighbours := NeighbourCount(DrawnMines(draws), x, y))
  }

  /** The field a reset with these draws leaves behind. */
  function ResetGrid(draws: seq<int>): (g: Grid)
    requires |draws| == Width * Height
    ensures IsGrid(g)
    ensures forall x, y :: InGrid(x, y) ==> g[x][y] == ResetCell(draws, x, y)
  {
    seq(Width, x requires 0 <= x < Width =>
      seq(Height, y requires 0 <= y < Height => ResetCell(draws, x, y)))
  }

  /** Every cell stands at its own coordinates and is mined exactly when `mines` says so. */
  ghost predicate Placed(g: Grid, mines: set<Pos>)
    requires IsGrid(g)
  {
    forall x, y :: InGrid(x, y) ==>
      g[x][y].column == x && g[x][y].row == y && (g[x][y].mined <==> (x, y) in mines)
  }

  /** Every cell holds the count of mines its neighbour visit finds. */
  ghost predicate CountsValid(g: Grid, mines: set<Pos>)
    requires IsGrid(g)
  {
    forall x, y :: InGrid(x, y) ==> g[x][y].neighbours == NeighbourCount(mines, x, y)
  }

  /** After a reset: every cell hidden and unmarked at its own coordinates, mined as drawn, and
      holding the number of mined cells in its 3 x 3 block (itself included) that lie off
      column 0 and row 0, a number from 0 to 9. */
  lemma ResetGridFacts(draws: seq<int>)
    requires |draws| == Width * Height
    ensures Placed(ResetGrid(draws), DrawnMines(draws))
    ensures CountsValid(ResetGrid(draws), DrawnMines(draws))
    ensures forall x, y :: InGrid(x, y) ==>
              !ResetGrid(draws)[x][y].shown && ResetGrid(draws)[x][y].marker == None
    ensures forall x, y :: InGrid(x, y) ==>
              ResetGrid(draws)[x][y].neighbours == |MinesNear(DrawnMines(draws), x, y)| <= 9
  {
    forall x, y | InGrid(x, y)
      ensures ResetGrid(draws)[x][y].neighbours == |MinesNear(DrawnMines(draws), x, y)|
    {
      NeighbourCountIsBlockCount(DrawnMines(draws), x, y);
    }
  }

  /** With valid counts, a cell of count zero has no mine anywhere in its visit. */
  lemma ZeroCountVisitIsSafe(g: Grid, mines: set<Pos>, col: int, row: int)
    requires IsGrid(g) && InGrid(col, row) && Placed(g, mines) && CountsValid(g, mines)
    requires g[col][row].neighbours == 0
    ensures forall p :: p in VisitNeighbours(col, row) ==> !g[p.0][p.1].mined
  {
    ZeroCountMeansNoVisitedMine(mines, col, row);
  }

  // ---------------------------------------------------------------------------------------
  // How the grid may change during a click

  /** Only `shown` flags differ between g and h. */
  ghost predicate OnlyShownChanged(g: Grid, h: Grid)
    requires IsGrid(g) && IsGrid(h)
  {
    forall x, y :: InGrid(x, y) ==> h[x][y] == g[x][y].(shown := h[x][y].shown)
  }

  /** No cell shown in g is hidden in h. */
  ghost predicate ShownKept(g: Grid, h: Grid)
    requires IsGrid(g) && IsGrid(h)
  {
    forall x, y :: InGrid(x, y) && g[x][y].shown ==> h[x][y].shown
  }

  /** g may grow into h: shown flags only, and only from hidden to shown. */
  ghost predicate Grows(g: Grid, h: Grid)
    requires IsGrid(g) && IsGrid(h)
  {
    OnlyShownChanged(g, h) && ShownKept(g, h)
  }

  lemma GrowsTransitive(e: Grid, m: Grid, n: Grid)
    requires IsGrid(e) && IsGrid(m) && IsGrid(n)
    requires Grows(e, m) && Grows(m, n)
    ensures Grows(e, n)
  {
  }

  /** Growing keeps the layout and the counts. */
  lemma GrowsKeepsLayout(g: Grid, h: Grid, mines: set<Pos>)
    requires IsGrid(g) && IsGrid(h) && OnlyShownChanged(g, h)
    ensures Placed(g, mines) <==> Placed(h, mines)
    ensures CountsValid(g, mines) <==> CountsValid(h, mines)
  {
  }

  /** The coordinates of the hidden cells. */
  ghost function UnshownSet(g: Grid): set<Pos>
    requires IsGrid(g)
  {
    set x, y | 0 <= x < Width && 0 <= y < Height && !g[x][y].shown :: (x, y)
  }

  /** Showing cells never lets the measure of a click's recursion grow. */
  lemma UnshownShrinksOrStays(e: Grid, g: Grid, col: int, row: int)
    requires IsGrid(e) && IsGrid(g) && ShownKept(e, g)
    ensures UnshownSet(g) + {(col, row)} <= UnshownSet(e) + {(col, row)}
  {
    forall p | p in UnshownSet(g) ensures p in UnshownSet(e) {
      assert !g[p.0][p.1].shown;
    }
  }

  /** The measure that bounds a click's recursion drops at every recursive call: the hidden
      cells plus the clicked one lose the clicked cell and gain nothing. */
  lemma UnshownShrinks(e: Grid, g: Grid, col: int, row: int, q: Pos)
    requires IsGrid(e) && IsGrid(g) && InGrid(col, row) && InGrid(q.0, q.1)
    requires ShownKept(e, g) && g[col][row].shown && !g[q.0][q.1].shown
    ensures UnshownSet(g) + {q} < UnshownSet(e) + {(col, row)}
  {
    assert q in UnshownSet(g);
    forall p | p in UnshownSet(g) ensures p in UnshownSet(e) {
      assert !g[p.0][p.1].shown;
    }
    assert (col, row) !in UnshownSet(g);
  }

  // ---------------------------------------------------------------------------------------
  // The states a click produces

  /** A shown safe cell with count zero has had every cell of its visit shown. */
  predicate Cascaded(g: Grid, x: int, y: int)
    requires IsGrid(g) && InGrid(x, y)
  {
    g[x][y].shown && !g[x][y].mined && g[x][y].neighbours == 0 ==>
      forall p :: p in VisitNeighbours(x, y) ==> g[p.0][p.1].shown
  }

  /** Every coordinate of ps is shown in g. */
  ghost predicate AllShownIn(g: Grid, ps: seq<Pos>)
    requires IsGrid(g)
  {
    forall p :: p in ps && InGrid(p.0, p.1) ==> g[p.0][p.1].shown
  }

  /** One more coordinate of the visit is shown after its step of the flood fill. */
  lemma ShownPrefixStep(m: Grid, n: Grid, ps: seq<Pos>, i: nat)
    requires IsGrid(m) && IsGrid(n) && i < |ps| && forall p :: p in ps ==> InGrid(p.0, p.1)
    requires AllShownIn(m, ps[..i]) && ShownKept(m, n) && n[ps[i].0][ps[i].1].shown
    ensures AllShownIn(n, ps[..i + 1])
  {
    assert ps[..i + 1] == ps[..i] + [ps[i]];
  }

  ghost predicate AllMinesShown(g: Grid)
    requires IsGrid(g)
  {
    forall x, y :: InGrid(x, y) && g[x][y].mined ==> g[x][y].shown
  }

  /** What a click on (col, row) leaves behind: the cell shown, every mine shown if it is
      mined, its whole visit shown if it is safe with count zero. */
  ghost predicate ClickSettled(g: Grid, col: int, row: int)
    requires IsGrid(g) && InGrid(col, row)
  {
    g[col][row].shown && (g[col][row].mined ==> AllMinesShown(g)) && Cascaded(g, col, row)
  }

  /** Every cell that is shown in h but was hidden in g is Cascaded in h. */
  ghost predicate NewlyShownCascaded(g: Grid, h: Grid)
    requires IsGrid(g) && IsGrid(h)
  {
    forall x, y :: InGrid(x, y) && h[x][y].shown && !g[x][y].shown ==> Cascaded(h, x, y)
  }

  /** No mined cell turned from hidden to shown. */
  ghost predicate NoMineNewlyShown(g: Grid, h: Grid)
    requires IsGrid(g) && IsGrid(h)
  {
    forall x, y :: InGrid(x, y) && h[x][y].mined && h[x][y].shown ==> g[x][y].shown
  }

  /** The grid after `_field[col, row].Shown = true`. */
  function ShowCell(g: Grid, col: int, row: int): (h: Grid)
    requires IsGrid(g) && InGrid(col, row)
    ensures IsGrid(h) && Grows(g, h)
    ensures h[col][row].shown
    ensures forall x, y :: InGrid(x, y) && (x, y) != (col, row) ==> h[x][y] == g[x][y]
    ensures g[col][row].shown ==> h == g
  {
    assert g[col][row].shown ==> g[col][row := g[col][row].(shown := true)] == g[col];
    g[col := g[col][row := g[col][row].(shown := true)]]
  }

  /** The grid after BlowAll: every mined cell shown. */
  function BlowAllOf(g: Grid): (h: Grid)
    requires IsGrid(g)
    ensures IsGrid(h) && Grows(g, h)
    ensures AllMinesShown(h)
    ensures forall x, y :: InGrid(x, y) && !g[x][y].mined ==> h[x][y] == g[x][y]
  {
    seq(Width, x requires 0 <= x < Width =>
      seq(Height, y requires 0 <= y < Height =>
        if g[x][y].mined then g[x][y].(shown := true) else g[x][y]))
  }

  /** BlowAll changes nothing once every mine is shown; in particular it is idempotent. */
  lemma BlowAllIdempotent(g: Grid)
    requires IsGrid(g) && AllMinesShown(g)
    ensures BlowAllOf(g) == g
  {
    GridExt(BlowAllOf(g), g);
  }

  /** Clicking a mined cell: the result is that of BlowAll on the grid before the click,
      which shows every mined cell and leaves every safe cell's shown flag alone; it settles
      the click, and it changes nothing if the click had already settled. */
  lemma ClickOnMine(g: Grid, col: int, row: int)
    requires IsGrid(g) && InGrid(col, row) && g[col][row].mined
    ensures BlowAllOf(ShowCell(g, col, row)) == BlowAllOf(g)
    ensures forall x, y :: InGrid(x, y) ==>
              BlowAllOf(g)[x][y].shown == (g[x][y].shown || g[x][y].mined)
    ensures ClickSettled(BlowAllOf(g), col, row)
    ensures NewlyShownCascaded(g, BlowAllOf(g))
    ensures ClickSettled(g, col, row) ==> BlowAllOf(g) == g
  {
    GridExt(BlowAllOf(ShowCell(g, col, row)), BlowAllOf(g));
    if ClickSettled(g, col, row) {
      BlowAllIdempotent(g);
    }
  }

  /** Clicking a safe cell with a non-zero count shows that cell alone, which settles the click. */
  lemma ClickOnSafeCount(g: Grid, col: int, row: int)
    requires IsGrid(g) && InGrid(col, row) && !g[col][row].mined && g[col][row].neighbours != 0
    ensures ClickSettled(ShowCell(g, col, row), col, row)
    ensures NewlyShownCascaded(g, ShowCell(g, col, row))
    ensures NoMineNewlyShown(g, ShowCell(g, col, row))
  {
  }

  /** Clicking a safe cell of count zero: e is the grid before the click, s the grid with the
      cell shown, n the grid after its flood fill. The click settles, every cell it showed is
      Cascaded, with valid counts it shows no mine, and once settled it changes nothing. */
  lemma ClickOnSafeZero(e: Grid, s: Grid, n: Grid, mines: set<Pos>, col: int, row: int)
    requires IsGrid(e) && IsGrid(n) && InGrid(col, row)
    requires !e[col][row].mined && e[col][row].neighbours == 0 && s == ShowCell(e, col, row)
    requires Grows(s, n) && AllShownIn(n, VisitNeighbours(col, row))
    requires NewlyShownCascaded(s, n)
    requires CountsValid(n, mines) ==> NoMineNewlyShown(s, n)
    requires Cascaded(s, col, row) ==> n == s
    ensures Grows(e, n)
    ensures ClickSettled(n, col, row)
    ensures NewlyShownCascaded(e, n)
    ensures CountsValid(n, mines) ==> NoMineNewlyShown(e, n)
    ensures ClickSettled(e, col, row) ==> n == e
  {
    GrowsTransitive(e, s, n);
  }

  /** One recursive click on a hidden cell q of the visit of (col, row) keeps the flood fill's
      loop invariant: s is the grid when the flood fill starts, m the grid before the recursive
      click and n the grid after it. */
  lemma CascadeStep(s: Grid, m: Grid, n: Grid, mines: set<Pos>, col: int, row: int, q: Pos)
    requires IsGrid(s) && IsGrid(m) && IsGrid(n) && InGrid(col, row)
    requires Placed(s, mines) && q in VisitNeighbours(col, row)
    requires s[col][row].shown && !s[col][row].mined && s[col][row].neighbours == 0
    requires Grows(s, m) && !m[q.0][q.1].shown
    requires NewlyShownCascaded(s, m)
    requires CountsValid(s, mines) ==> NoMineNewlyShown(s, m)
    requires Cascaded(s, col, row) ==> m == s
    requires Grows(m, n) && NewlyShownCascaded(m, n)
    requires !m[q.0][q.1].mined && CountsValid(n, mines) ==> NoMineNewlyShown(m, n)
    ensures Grows(s, n)
    ensures NewlyShownCascaded(s, n)
    ensures CountsValid(s, mines) ==> NoMineNewlyShown(s, n)
    ensures !Cascaded(s, col, row)
  {
    GrowsTransitive(s, m, n);
    GrowsKeepsLayout(s, m, mines);
    GrowsKeepsLayout(m, n, mines);
    if CountsValid(s, mines) {
      ZeroCountVisitIsSafe(s, mines, col, row);
    }
    forall x, y | InGrid(x, y) && n[x][y].shown && !s[x][y].shown
      ensures Cascaded(n, x, y)
    {
      if m[x][y].shown {
        assert Cascaded(m, x, y);
      }
    }
  }

  // ---------------------------------------------------------------------------------------
  // Markers

  /** The grid after a press of `button` on (col, row). */
  function MouseDownOf(g: Grid, button: int, col: int, row: int): (h: Grid)
    requires IsGrid(g) && InGrid(col, row)
    ensures IsGrid(h)
    ensures forall x, y :: InGrid(x, y) && (x, y) != (col, row) ==> h[x][y] == g[x][y]
    ensures h[col][row] == g[col][row].(marker := h[col][row].marker)
    ensures button == 2 ==> h[col][row].marker == NextMarker(g[col][row].marker)
    ensures button != 2 ==> h == g
  {
    if button == 2 then g[col := g[col][row := g[col][row].(marker := NextMarker(g[col][row].marker))]]
    else g
  }

  /** A right click keeps the layout, the counts and every shown flag. */
  lemma MouseDownKeepsLayout(g: Grid, button: int, col: int, row: int, mines: set<Pos>)
    requires IsGrid(g) && InGrid(col, row)
    ensures Placed(g, mines) <==> Placed(MouseDownOf(g, button, col, row), mines)
    ensures CountsValid(g, mines) <==> CountsValid(MouseDownOf(g, button, col, row), mines)
    ensures forall x, y :: InGrid(x, y) ==> MouseDownOf(g, button, col, row)[x][y].shown == g[x][y].shown
  {
  }

  /** Three right clicks on the same cell restore the grid. */
  lemma ThreeRightClicksRestore(g: Grid, col: int, row: int)
    requires IsGrid(g) && InGrid(col, row)
    ensures MouseDownOf(MouseDownOf(MouseDownOf(g, 2, col, row), 2, col, row), 2, col, row) == g
  {
    var once := MouseDownOf(g, 2, col, row);
    var twice := MouseDownOf(once, 2, col, row);
    var thrice := MouseDownOf(twice, 2, col, row);
    NextMarkerCycle(g[col][row].marker);
    assert thrice[col][row] == g[col][row];
    GridExt(thrice, g);
  }
}
