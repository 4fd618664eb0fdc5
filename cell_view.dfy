/** One square of the board (CellViewModel): its position, its four state
    fields, and the text its button shows. */
module CellView {
  import opened Text

  /** The four state fields of a cell, taken together as one value. */
  datatype CellState = CellState(mine: bool, neighborMines: int, revealed: bool, flagged: bool)

  /** The state of a freshly created cell: every backing field at its default. */
  const Blank := CellState(false, 0, false, false)

  /** U+1F6A9 TRIANGULAR FLAG ON POST. */
  const FlagGlyph: string := "\U{1F6A9}"
  /** U+1F4A3 BOMB. */
  const MineGlyph: string := "\U{1F4A3}"

  class Cell {
    /** Position in the grid; assigned once by the object initializer. */
    const Row: int
    const Column: int

    var IsMine: bool
    var NeighborMines: int
    var IsRevealed: bool
    var IsFlagged: bool

    /** The four backing fields as one value. */
    function State(): CellState
      reads this
    {
      CellState(IsMine, NeighborMines, IsRevealed, IsFlagged)
    }

    /** `new CellViewModel { Row = r, Column = c }`. */
    constructor (row: int, column: int)
      ensures Row == row && Column == column
      ensures State() == Blank
    {
      Row, Column := row, column;
      IsMine, NeighborMines, IsRevealed, IsFlagged := false, 0, false, false;
    }

    /** The IsMine setter: only the mine field changes. */
    method SetMine(value: bool)
      modifies this
      ensures State() == old(State()).(mine := value)
    {
      IsMine := value;
    }

    /** The NeighborMines setter: only the count changes. */
    method SetNeighborMines(value: int)
      modifies this
      ensures State() == old(State()).(neighborMines := value)
    {
      NeighborMines := value;
    }

    /** The IsRevealed setter: only the revealed field changes. */
    method SetRevealed(value: bool)
      modifies this
      ensures State() == old(State()).(revealed := value)
    {
      IsRevealed := value;
    }

    /** The IsFlagged setter: only the flag changes. */
    method SetFlagged(value: bool)
      modifies this
      ensures State() == old(State()).(flagged := value)
    {
      IsFlagged := value;
    }

    /** The text on the cell's button. */
    function DisplayText(): string
      reads this
    {
      Display(State())
    }
  }

  /** What a cell in state `s` shows: a flag or nothing while hidden, a bomb
      for a revealed mine, otherwise its neighbour count when that is positive. */
  function Display(s: CellState): string {
    if !s.revealed then (if s.flagged then FlagGlyph else "")
    else if s.mine then MineGlyph
    else if s.neighborMines > 0 then DecimalText(s.neighborMines)
    else ""
  }

  /** A hidden cell shows only whether it is flagged: what it holds (mine or
      neighbour count) never changes its text, so a hidden mine is never exposed. */
  lemma HiddenCellConceals(s: CellState, mine: bool, count: int)
    requires !s.revealed
    ensures Display(s) == (if s.flagged then FlagGlyph else "")
    ensures Display(s) != MineGlyph
    ensures Display(s.(mine := mine, neighborMines := count)) == Display(s)
  {
  }

  /** A revealed mine shows the bomb whether or not it carries a flag. */
  lemma RevealedMineShowsBomb(s: CellState, flagged: bool)
    requires s.revealed && s.mine
    ensures Display(s) == MineGlyph
    ensures Display(s.(flagged := flagged)) == MineGlyph
  {
  }

  /** A revealed safe cell shows nothing when no neighbour is a mine, and
      otherwise a digit string that reads back as its neighbour count; a count
      of one to eight is a single digit. */
  lemma RevealedSafeShowsCount(s: CellState)
    requires s.revealed && !s.mine
    ensures s.neighborMines <= 0 ==> Display(s) == ""
    ensures s.neighborMines > 0 ==> AllDigits(Display(s)) && DigitsValue(Display(s)) == s.neighborMines
    ensures 0 < s.neighborMines <= 8 ==> |Display(s)| == 1
    ensures Display(s) != MineGlyph && Display(s) != FlagGlyph
  {
    if s.neighborMines > 0 {
      var t := DecimalText(s.neighborMines);
      assert IsDigit(t[0]);
      assert !IsDigit(MineGlyph[0]) && !IsDigit(FlagGlyph[0]);
    }
  }
}
