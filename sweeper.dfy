/** The sweeper engine: a 40 x 20 field of cells that it resets, reveals, marks and renders. */
module Sweeper {
  import opened Cells
  import opened Neighbourhood
  import opened Field
  import opened Decimal

  class SweeperManager {
    const field: array2<Cell>

    /** The mined coordinates of the current game, fixed by the last Reset. */
    ghost var mines: set<Pos>

    /** The field as a value. */
    ghost function Board(): (g: Grid)
      reads this, field
      requires field.Length0 == Width && field.Length1 == Height
      ensures IsGrid(g)
      ensures forall x, y :: InGrid(x, y) ==> g[x][y] == field[x, y]
    {
      seq(Width, x requires 0 <= x < Width reads field =>
        seq(Height, y requires 0 <= y < Height reads field => field[x, y]))
    }

    /** The field has its fixed size, every cell knows its own coordinates and the cells
        carry the mine layout. */
    ghost predicate Valid()
      reads this, field
    {
      field.Length0 == Width && field.Length1 == Height && Placed(Board(), mines)
    }

    /** Allocates the field and resets it. */
    constructor (draws: seq<int>)
      requires |draws| == Width * Height
      ensures Valid() && fresh(field)
      ensures mines == DrawnMines(draws) && Board() == ResetGrid(draws)
      ensures CountsValid(Board(), mines)
    {
      field := new Cell[Width, Height];
      mines := {};
      new;
      Reset(draws);
    }

    /** Places the mines the draws give, then counts each cell's mined neighbours. */
    method Reset(draws: seq<int>)
      requires field.Length0 == Width && field.Length1 == Height
      requires |draws| == Width * Height
      modifies this, field
      ensures Valid()
      ensures mines == DrawnMines(draws) && Board() == ResetGrid(draws)
      ensures CountsValid(Board(), mines)
    {
      PlaceMines(draws);
      mines := DrawnMines(draws);
      for col := 0 to Width
        invariant mines == DrawnMines(draws)
        invariant forall x, y :: InGrid(x, y) ==>
                    field[x, y] == if x < col then ResetCell(draws, x, y) else FreshCell(draws, x, y)
      {
        CountColumn(draws, col);
      }
      GridExt(Board(), ResetGrid(draws));
      ResetGridFacts(draws);
    }

    /** One pass of the outer counting loop of Reset: counts every cell of column `col`. */
    method CountColumn(draws: seq<int>, col: int)
      requires field.Length0 == Width && field.Length1 == Height && 0 <= col < Width
      requires |draws| == Width * Height && mines == DrawnMines(draws)
      requires forall x, y :: InGrid(x, y) ==>
                 field[x, y] == if x < col then ResetCell(draws, x, y) else FreshCell(draws, x, y)
      modifies field
      ensures forall x, y :: InGrid(x, y) ==>
                field[x, y] == if x <= col then ResetCell(draws, x, y) else FreshCell(draws, x, y)
    {
      for row := 0 to Height
        invariant forall x, y :: InGrid(x, y) ==>
                    field[x, y] == if x < col || (x == col && y < row) then ResetCell(draws, x, y)
                                   else FreshCell(draws, x, y)
      {
        forall x, y | InGrid(x, y) ensures field[x, y].mined <==> (x, y) in mines {
          assert field[x, y].mined == IsDrawnMine(draws, x, y);
        }
        ghost var before := Board();
        CountNeighbours(col, row);
        forall x, y | InGrid(x, y)
          ensures field[x, y] == if x < col || (x == col && y <= row) then ResetCell(draws, x, y)
                                 else FreshCell(draws, x, y)
        {
          if (x, y) != (col, row) {
            assert field[x, y] == before[x][y];
          }
        }
      }
    }

    /** The first loop of Reset: a fresh cell at every coordinate, mined as its draw says. */
    method PlaceMines(draws: seq<int>)
      requires field.Length0 == Width && field.Length1 == Height
      requires |draws| == Width * Height
      modifies field
      ensures forall x, y :: InGrid(x, y) ==> field[x, y] == FreshCell(draws, x, y)
    {
      for col := 0 to Width
        invariant forall x, y :: 0 <= x < col && 0 <= y < Height ==> field[x, y] == FreshCell(draws, x, y)
      {
        for row := 0 to Height
          invariant forall x, y :: (0 <= x < col && 0 <= y < Height) || (x == col && 0 <= y < row) ==>
                      field[x, y] == FreshCell(draws, x, y)
        {
          field[col, row] := Cell(IsDrawnMine(draws, col, row), false, 0, col, row, None);
        }
      }
    }

    /** One step of Reset's second loop: the visit of (col, row) adds one to the cell's count
        for every mined cell it meets. */
    method CountNeighbours(col: int, row: int)
      requires field.Length0 == Width && field.Length1 == Height && InGrid(col, row)
      requires forall x, y :: InGrid(x, y) ==> (field[x, y].mined <==> (x, y) in mines)
      modifies field
      ensures field[col, row] ==
                old(field[col, row]).(neighbours := old(field[col, row].neighbours) + NeighbourCount(mines, col, row))
      ensures forall x, y :: InGrid(x, y) && (x, y) != (col, row) ==> field[x, y] == old(field[x, y])
    {
      CountEach(VisitNeighbours(col, row), col, row);
    }

    /** The action the counting visit applies to each coordinate `ps` lists: a mined cell there
        adds one to the count of (col, row). */
    method CountEach(ps: seq<Pos>, col: int, row: int)
      requires field.Length0 == Width && field.Length1 == Height && InGrid(col, row)
      requires forall p :: p in ps ==> InGrid(p.0, p.1)
      requires forall x, y :: InGrid(x, y) ==> (field[x, y].mined <==> (x, y) in mines)
      modifies field
      ensures field[col, row] ==
                old(field[col, row]).(neighbours := old(field[col, row].neighbours) + CountIn(ps, mines))
      ensures forall x, y :: InGrid(x, y) && (x, y) != (col, row) ==> field[x, y] == old(field[x, y])
    {
      ghost var c := field[col, row];
      for i := 0 to |ps|
        invariant forall x, y :: InGrid(x, y) && (x, y) != (col, row) ==> field[x, y] == old(field[x, y])
        invariant field[col, row] == c.(neighbours := c.neighbours + CountIn(ps[..i], mines))
      {
        CountInStep(ps, i, mines);
        var p := ps[i];
        assert field[p.0, p.1].mined == old(field[p.0, p.1].mined);
        if field[p.0, p.1].mined {
          Bump(col, row);
        }
      }
      assert ps[..|ps|] == ps;
    }

    /** Adds one to the count of (col, row). */
    method Bump(col: int, row: int)
      requires field.Length0 == Width && field.Length1 == Height && InGrid(col, row)
      modifies field
      ensures field[col, row] == old(field[col, row]).(neighbours := old(field[col, row].neighbours) + 1)
      ensures forall x, y :: InGrid(x, y) && (x, y) != (col, row) ==> field[x, y] == old(field[x, y])
    {
      field[col, row] := field[col, row].(neighbours := field[col, row].neighbours + 1);
    }

    /** Shows every mined cell and changes nothing else. */
    method BlowAll()
      requires Valid()
      modifies field
      ensures Valid()
      ensures Board() == BlowAllOf(old(Board()))
    {
      ghost var before := Board();
      ghost var after := BlowAllOf(before);
      for x := 0 to Width
        invariant forall a, b :: InGrid(a, b) ==> field[a, b] == if a < x then after[a][b] else before[a][b]
      {
        for y := 0 to Height
          invariant forall a, b :: InGrid(a, b) ==>
                      field[a, b] == if a < x || (a == x && b < y) then after[a][b] else before[a][b]
        {
          if field[x, y].mined {
            field[x, y] := field[x, y].(shown := true);
          }
        }
      }
      GridExt(Board(), after);
      GrowsKeepsLayout(before, after, mines);
    }

    /** Reveals (col, row): a mine blows up the field; a safe cell with count zero clicks every
        cell of its visit that is still hidden. */
    method Click(col: int, row: int)
      requires Valid() && InGrid(col, row)
      modifies field
      ensures Valid()
      ensures Grows(old(Board()), Board())
      ensures CountsValid(Board(), mines) == old(CountsValid(Board(), mines))
      ensures ClickSettled(Board(), col, row)
      ensures NewlyShownCascaded(old(Board()), Board())
      ensures old(Board()[col][row].mined) ==> Board() == BlowAllOf(old(Board()))
      ensures !old(Board()[col][row].mined) && old(Board()[col][row].neighbours) != 0 ==>
                Board() == ShowCell(old(Board()), col, row)
      ensures !old(Board()[col][row].mined) && CountsValid(Board(), mines) ==> NoMineNewlyShown(old(Board()), Board())
      ensures old(ClickSettled(Board(), col, row)) ==> Board() == old(Board())
      decreases UnshownSet(Board()) + {(col, row)}, 1
    {
      ghost var e := Board();
      field[col, row] := field[col, row].(shown := true);
      GridExt(Board(), ShowCell(e, col, row));
      GrowsKeepsLayout(e, Board(), mines);
      if field[col, row].mined {
        BlowAll();
        ClickOnMine(e, col, row);
      } else if field[col, row].neighbours == 0 {
        assert UnshownSet(Board()) + {(col, row)} <= UnshownSet(e) + {(col, row)} by {
          UnshownShrinksOrStays(e, Board(), col, row);
        }
        ClickNeighbours(col, row);
        ClickOnSafeZero(e, ShowCell(e, col, row), Board(), mines, col, row);
      } else {
        ClickOnSafeCount(e, col, row);
      }
      GrowsKeepsLayout(e, Board(), mines);
    }

    /** The flood fill of a click on the safe cell (col, row) of count zero, already shown:
        the visit of (col, row) clicks every cell it meets that is still hidden. */
    method ClickNeighbours(col: int, row: int)
      requires Valid() && InGrid(col, row)
      requires Board()[col][row].shown && !Board()[col][row].mined && Board()[col][row].neighbours == 0
      modifies field
      ensures Valid()
      ensures Grows(old(Board()), Board())
      ensures AllShownIn(Board(), VisitNeighbours(col, row))
      ensures NewlyShownCascaded(old(Board()), Board())
      ensures CountsValid(Board(), mines) ==> NoMineNewlyShown(old(Board()), Board())
      ensures old(Cascaded(Board(), col, row)) ==> Board() == old(Board())
      decreases UnshownSet(Board()) + {(col, row)}, 0
    {
      ghost var s := Board();
      var ps := VisitNeighbours(col, row);
      for i := 0 to |ps|
        invariant Valid()
        invariant Grows(s, Board())
        invariant AllShownIn(Board(), ps[..i])
        invariant NewlyShownCascaded(s, Board())
        invariant CountsValid(s, mines) ==> NoMineNewlyShown(s, Board())
        invariant Cascaded(s, col, row) ==> unchanged(field)
      {
        ghost var m := Board();
        var cell := field[ps[i].0, ps[i].1];
        if !cell.shown {
          UnshownShrinks(s, m, col, row, ps[i]);
          Click(cell.column, cell.row);
          CascadeStep(s, m, Board(), mines, col, row, ps[i]);
        }
        ShownPrefixStep(m, Board(), ps, i);
      }
      assert ps[..|ps|] == ps;
    }

    /** A press of mouse button `button` on (col, row): button 2, the right button, moves the
        cell's marker on to the next one. */
    method MouseDown(button: int, col: int, row: int)
      requires Valid() && InGrid(col, row)
      modifies field
      ensures Valid()
      ensures Board() == MouseDownOf(old(Board()), button, col, row)
      ensures button == 2 ==> field[col, row].marker == NextMarker(old(field[col, row].marker))
      ensures CountsValid(Board(), mines) == old(CountsValid(Board(), mines))
    {
      ghost var before := Board();
      if button == 2 {
        field[col, row] := field[col, row].(marker := FromOrdinal((Ordinal(field[col, row].marker) + 1) % 3));
      }
      GridExt(Board(), MouseDownOf(before, button, col, row));
      MouseDownKeepsLayout(before, button, col, row, mines);
    }

    /** The CSS class of (col, row). */
    function Class(col: int, row: int): (r: string)
      reads this, field
      requires Valid() && InGrid(col, row)
      ensures r == HiddenClass <==> !field[col, row].shown
      ensures r == BlownClass <==> field[col, row].shown && (col, row) in mines
      ensures r == ShownClass <==> field[col, row].shown && (col, row) !in mines
    {
      field[col, row].CssClass()
    }

    /** The text shown in (col, row). */
    function Content(col: int, row: int): (r: string)
      reads this, field
      requires Valid() && InGrid(col, row)
      ensures !field[col, row].shown ==> r == Glyph(field[col, row].marker)
      ensures field[col, row].shown && (col, row) in mines ==> r == ""
      ensures field[col, row].shown && (col, row) !in mines ==>
                (r == "" <==> field[col, row].neighbours <= 0)
      ensures field[col, row].shown && (col, row) !in mines && field[col, row].neighbours > 0 ==>
                IsCanonical(r) && DecimalValue(r) == field[col, row].neighbours
    {
      field[col, row].Content()
    }
  }
}
