/** The fixed 40 x 20 field and the neighbour visit that counting and the flood fill share. */
module Neighbourhood {

  const Width: int := 40
  const Height: int := 20

  /** A (column, row) coordinate. */
  type Pos = (int, int)

  predicate InGrid(x: int, y: int)
  {
    0 <= x < Width && 0 <= y < Height
  }

  /** The bound test of the visit loop. It is strict at 0, so column 0 and row 0 never pass. */
  predicate InVisitRange(x: int, y: int)
  {
    x > 0 && x < Width && y > 0 && y < Height
  }

  /** `p` lies in the 3 x 3 block centred on (col, row), the centre included. */
  predicate Near(p: Pos, col: int, row: int)
  {
    col - 1 <= p.0 <= col + 1 && row - 1 <= p.1 <= row + 1
  }

  /** Column-major order on coordinates: the order of an x-outer, y-inner loop. */
  predicate Before(p: Pos, q: Pos)
  {
    p.0 < q.0 || (p.0 == q.0 && p.1 < q.1)
  }

  predicate Increasing(ps: seq<Pos>)
  {
    forall i, j :: 0 <= i < j < |ps| ==> Before(ps[i], ps[j])
  }

  /** The inner loop of the visit: rows y .. row + 1 of column x that pass the bound test. */
  function VisitColumn(x: int, y: int, row: int): (ps: seq<Pos>)
    ensures forall p :: p in ps <==> p.0 == x && y <= p.1 <= row + 1 && InVisitRange(p.0, p.1)
    ensures Increasing(ps)
    ensures |ps| <= if y <= row + 1 then row + 2 - y else 0
    decreases row + 2 - y
  {
    if y > row + 1 then []
    else
      var rest := VisitColumn(x, y + 1, row);
      if InVisitRange(x, y) then
        assert forall j :: 0 <= j < |rest| ==> Before((x, y), rest[j]);
        [(x, y)] + rest
      else rest
  }

  /** The outer loop of the visit: columns x .. col + 1, each visited by VisitColumn. */
  function VisitFrom(x: int, col: int, row: int): (ps: seq<Pos>)
    ensures forall p :: p in ps <==> x <= p.0 <= col + 1 && row - 1 <= p.1 <= row + 1 && InVisitRange(p.0, p.1)
    ensures Increasing(ps)
    ensures |ps| <= if x <= col + 1 then 3 * (col + 2 - x) else 0
    decreases col + 2 - x
  {
    if x > col + 1 then []
    else
      var first := VisitColumn(x, row - 1, row);
      var rest := VisitFrom(x + 1, col, row);
      assert forall i, j :: 0 <= i < |first| && 0 <= j < |rest| ==> Before(first[i], rest[j]) by {
        forall i, j | 0 <= i < |first| && 0 <= j < |rest| ensures Before(first[i], rest[j]) {
          assert first[i] in first && rest[j] in rest;
        }
      }
      first + rest
  }

  /** The coordinates VisitNeighbours(col, row) hands to its action, in the order it does so:
      the 3 x 3 block round (col, row), centre included, that passes the bound test. */
  function VisitNeighbours(col: int, row: int): (ps: seq<Pos>)
    ensures forall p :: p in ps <==> InVisitRange(p.0, p.1) && Near(p, col, row)
    ensures forall p :: p in ps ==> InGrid(p.0, p.1)
    ensures Increasing(ps)
    ensures |ps| <= 9
  {
    VisitFrom(col - 1, col, row)
  }

  /** How many entries of `ps` are mined. */
  function CountIn(ps: seq<Pos>, mines: set<Pos>): (n: nat)
    ensures n <= |ps|
  {
    if ps == [] then 0
    else CountIn(ps[..|ps| - 1], mines) + (if ps[|ps| - 1] in mines then 1 else 0)
  }

  /** One more entry of the list adds one to the count exactly when it is mined. */
  lemma CountInStep(ps: seq<Pos>, i: nat, mines: set<Pos>)
    requires i < |ps|
    ensures CountIn(ps[..i + 1], mines) == CountIn(ps[..i], mines) + (if ps[i] in mines then 1 else 0)
  {
    assert ps[..i + 1][..i] == ps[..i];
  }

  /** The count a cell gets at reset: the mines among the coordinates its visit produces. */
  function NeighbourCount(mines: set<Pos>, col: int, row: int): (n: nat)
    ensures n <= 9
  {
    CountIn(VisitNeighbours(col, row), mines)
  }

  /** The mined coordinates that the visit of (col, row) can reach. */
  ghost function MinesNear(mines: set<Pos>, col: int, row: int): set<Pos>
  {
    set p | p in mines && InVisitRange(p.0, p.1) && Near(p, col, row)
  }

  lemma {:induction false} CountInZero(ps: seq<Pos>, mines: set<Pos>)
    ensures CountIn(ps, mines) == 0 <==> forall p :: p in ps ==> p !in mines
  {
    if ps != [] {
      var front := ps[..|ps| - 1];
      CountInZero(front, mines);
      assert ps == front + [ps[|ps| - 1]];
    }
  }

  /** The count only looks at the coordinates in the list. */
  lemma {:induction false} CountInAgree(ps: seq<Pos>, m1: set<Pos>, m2: set<Pos>)
    requires forall p :: p in ps ==> (p in m1 <==> p in m2)
    ensures CountIn(ps, m1) == CountIn(ps, m2)
  {
    if ps != [] {
      var front := ps[..|ps| - 1];
      assert forall p :: p in front ==> p in ps;
      CountInAgree(front, m1, m2);
    }
  }

  /** On a list without repeats the count is the size of the set of mined entries. */
  lemma {:induction false} CountInIsCardinality(ps: seq<Pos>, mines: set<Pos>)
    requires Increasing(ps)
    ensures CountIn(ps, mines) == |set p | p in ps && p in mines|
  {
    if ps == [] {
      assert (set p | p in ps && p in mines) == {};
    } else {
      var front, last := ps[..|ps| - 1], ps[|ps| - 1];
      assert Increasing(front);
      CountInIsCardinality(front, mines);
      var before := set p | p in front && p in mines;
      assert last !in front by {
        forall i | 0 <= i < |front| ensures front[i] != last {
          assert Before(ps[i], ps[|ps| - 1]);
        }
      }
      var after := set p | p in ps && p in mines;
      assert ps == front + [last];
      assert CountIn(ps, mines) == CountIn(front, mines) + (if last in mines then 1 else 0);
      if last in mines {
        assert after == before + {last};
        assert last !in before;
        assert |after| == |before| + 1;
      } else {
        assert after == before;
      }
    }
  }

  /** The reset count of (col, row) is the number of mined cells at distance at most 1 in each
      direction, the cell itself included, that lie strictly inside column 0 and row 0. */
  lemma NeighbourCountIsBlockCount(mines: set<Pos>, col: int, row: int)
    ensures NeighbourCount(mines, col, row) == |MinesNear(mines, col, row)|
  {
    var ps := VisitNeighbours(col, row);
    CountInIsCardinality(ps, mines);
    assert (set p | p in ps && p in mines) == MinesNear(mines, col, row);
  }

  /** A count is zero exactly when no visited coordinate is mined. */
  lemma ZeroCountMeansNoVisitedMine(mines: set<Pos>, col: int, row: int)
    ensures NeighbourCount(mines, col, row) == 0 <==> forall p :: p in VisitNeighbours(col, row) ==> p !in mines
  {
    CountInZero(VisitNeighbours(col, row), mines);
  }

  /** Because the visit includes the centre, a mined cell inside the bounds counts itself. */
  lemma MinedCellCountsItself(mines: set<Pos>, col: int, row: int)
    requires (col, row) in mines && InVisitRange(col, row)
    ensures NeighbourCount(mines, col, row) >= 1
  {
    ZeroCountMeansNoVisitedMine(mines, col, row);
    assert (col, row) in VisitNeighbours(col, row);
  }

  /** Because of the strict bound test, a mine in column 0 or row 0 is counted by no cell. */
  lemma EdgeMineNeverCounted(mines: set<Pos>, q: Pos, col: int, row: int)
    requires q.0 == 0 || q.1 == 0
    ensures NeighbourCount(mines + {q}, col, row) == NeighbourCount(mines - {q}, col, row)
  {
    CountInAgree(VisitNeighbours(col, row), mines + {q}, mines - {q});
  }

  /** An instance of the edge effect: the mine at the corner (0, 0) is a diagonal neighbour of
      (1, 1), yet (1, 1) counts nothing. */
  lemma CornerMineUncounted()
    ensures Near((0, 0), 1, 1)
    ensures NeighbourCount({(0, 0)}, 1, 1) == 0
  {
    var none: set<Pos> := {};
    EdgeMineNeverCounted(none, (0, 0), 1, 1);
    assert none + {(0, 0)} == {(0, 0)} && none - {(0, 0)} == none;
    ZeroCountMeansNoVisitedMine(none, 1, 1);
  }
}
