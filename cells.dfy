/** The `Marker` enum and the `Cell` record of the sweeper, with their display getters. */
module Cells {
  import opened Decimal

  /** A player's annotation on a cell; the order is that of the enum's integer values. */
  datatype Marker = None | Mine | Query

  /** The enum's integer value, `(int)Marker`. */
  function Ordinal(m: Marker): (i: nat)
    ensures i < 3
  {
    match m
    case None => 0
    case Mine => 1
    case Query => 2
  }

  /** The cast `(Marker)i` from an integer back to the enum. */
  function FromOrdinal(i: nat): (m: Marker)
    requires i < 3
    ensures Ordinal(m) == i
  {
    if i == 0 then None else if i == 1 then Mine else Query
  }

  lemma OrdinalRoundTrip(m: Marker)
    ensures FromOrdinal(Ordinal(m)) == m
  {
  }

  /** The marker a right click moves to: one step further through the enum, wrapping round. */
  function NextMarker(m: Marker): (r: Marker)
    ensures r != m
  {
    FromOrdinal((Ordinal(m) + 1) % 3)
  }

  /** Right clicks cycle None -> Mine -> Query -> None, so three of them restore any marker. */
  lemma NextMarkerCycle(m: Marker)
    ensures NextMarker(None) == Mine && NextMarker(Mine) == Query && NextMarker(Query) == None
    ensures NextMarker(NextMarker(NextMarker(m))) == m
    ensures NextMarker(NextMarker(m)) != m
  {
  }

  /** The glyph table indexed by a marker's integer value. */
  const MarkerGlyphs: seq<string> := [" ", "X", "?"]

  function Glyph(m: Marker): (g: string)
    ensures |g| == 1
    ensures forall k: Marker :: k != m ==> MarkerGlyphs[Ordinal(k)] != g
  {
    MarkerGlyphs[Ordinal(m)]
  }

  const HiddenClass: string := "mine-hidden"
  const BlownClass: string := "mine-blown"
  const ShownClass: string := "mine-shown"

  /** One square of the field, as the sweeper stores it. */
  datatype Cell = Cell(mined: bool, shown: bool, neighbours: int, column: int, row: int, marker: Marker)
  {
    /** The CSS class of the cell: hidden, a shown mine, or a shown safe square. */
    function CssClass(): (r: string)
      ensures r == HiddenClass <==> !shown
      ensures r == BlownClass <==> shown && mined
      ensures r == ShownClass <==> shown && !mined
    {
      if !shown then HiddenClass
      else if mined then BlownClass
      else ShownClass
    }

    /** The text in the cell: the marker glyph while hidden, the count once shown and safe. */
    function Content(): (r: string)
      ensures !shown ==> r == Glyph(marker)
      ensures shown && !mined && neighbours > 0 ==> IsCanonical(r) && DecimalValue(r) == neighbours
      ensures shown && (mined || neighbours <= 0) ==> r == ""
    {
      if shown then
        (if !mined && neighbours > 0 then NatToString(neighbours) else "")
      else Glyph(marker)
    }
  }

  /** A hidden cell shows nothing of its own contents: two hidden cells with the same marker
      look the same, whatever their mines and counts. */
  lemma HiddenCellsLookAlike(a: Cell, b: Cell)
    requires !a.shown && !b.shown && a.marker == b.marker
    ensures a.CssClass() == b.CssClass() == HiddenClass
    ensures a.Content() == b.Content()
  {
  }

  /** Once a cell is shown its marker no longer affects how it looks. */
  lemma ShownCellIgnoresMarker(c: Cell, m: Marker)
    requires c.shown
    ensures c.(marker := m).CssClass() == c.CssClass()
    ensures c.(marker := m).Content() == c.Content()
  {
  }

  /** A shown safe cell's label reads back as its count, and it is empty exactly when the count is 0. */
  lemma ShownLabelIsCount(c: Cell)
    requires c.shown && !c.mined && 0 <= c.neighbours
    ensures c.Content() == "" <==> c.neighbours == 0
    ensures c.neighbours > 0 ==> NatToString(DecimalValue(c.Content())) == c.Content()
  {
    if c.neighbours > 0 {
      FormatParsed(c.Content());
    }
  }
}
