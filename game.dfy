/** The game engine (MainViewModel): the Cells collection of cell objects,
    the counters and flags the window binds to, the score log, and the
    operations SetupGame, RevealCell, ToggleFlag, CheckForWin, GameOver,
    SaveScore, LoadBestTime and the timer tick.

    The ghost field Grid mirrors the state of every cell object, so that the
    contracts can speak of the whole board as one value. */
module Game {
  import opened Text
  import opened CellView
  import opened Board
  import opened Scores

  /** Position of a cell object in the collection. */
  function IndexOf(cs: seq<Cell>, c: Cell): (i: nat)
    requires c in cs
    ensures i < |cs| && cs[i] == c
  {
    if cs[0] == c then 0 else 1 + IndexOf(cs[1..], c)
  }

  /** Appending keeps the first position of a cell already present. */
  lemma {:induction false} IndexOfAppend(cs: seq<Cell>, c: Cell, x: Cell)
    requires x in cs
    ensures IndexOf(cs + [c], x) == IndexOf(cs, x)
  {
    if cs[0] != x {
      assert (cs + [c])[1..] == cs[1..] + [c];
      IndexOfAppend(cs[1..], c, x);
    }
  }

  /** A cell appended to a sequence not holding it is found at the end. */
  lemma {:induction false} IndexOfLast(cs: seq<Cell>, c: Cell)
    requires c !in cs
    ensures IndexOf(cs + [c], c) == |cs|
  {
    if cs != [] {
      assert (cs + [c])[1..] == cs[1..] + [c];
      IndexOfLast(cs[1..], c);
    }
  }

  /** `after` is `before` followed by zero or more copies of `line`. */
  predicate AppendedCopies(before: seq<string>, after: seq<string>, line: string) {
    |before| <= |after| && after[..|before|] == before
    && forall k :: |before| <= k < |after| ==> after[k] == line
  }

  lemma AppendedCopiesTrans(a: seq<string>, b: seq<string>, c: seq<string>, line: string)
    requires AppendedCopies(a, b, line) && AppendedCopies(b, c, line)
    ensures AppendedCopies(a, c, line)
  {
    assert c[..|a|] == c[..|b|][..|a|];
  }

  /** The board after ToggleFlag on the hidden cell i. */
  function FlagToggled(g: seq<CellState>, i: nat): seq<CellState>
    requires i < |g|
  {
    g[i := g[i].(flagged := !g[i].flagged)]
  }

  /** Toggling a flag twice restores the board; a toggle changes neither what
      is revealed nor where the mines are, so it never decides the game. */
  lemma ToggleTwice(g: seq<CellState>, i: nat)
    requires i < |g|
    ensures FlagToggled(FlagToggled(g, i), i) == g
    ensures SameLayout(g, FlagToggled(g, i))
    ensures HiddenSet(FlagToggled(g, i)) == HiddenSet(g)
    ensures Won(FlagToggled(g, i)) == Won(g)
    ensures !g[i].revealed && ActiveInvariant(g) ==> ActiveInvariant(FlagToggled(g, i))
  {
    var t := FlagToggled(g, i);
    assert HiddenSet(t) == HiddenSet(g);
    assert MineSet(t) == MineSet(g);
  }

  /** A won game whose time is saved and then loaded back: the best time is
      the fastest of the earlier records and the new one. */
  lemma SavedWinIsLoadedBack(stamps: seq<Clock>, times: seq<nat>, now: Clock, elapsed: nat, current: Option<string>)
    requires |stamps| == |times|
    requires forall k :: 0 <= k < |times| ==> times[k] < 3600
    requires elapsed < 3600
    ensures LoadedBestTime(Records(stamps, times) + [RecordLine(now, FormatMmSs(elapsed))], current)
         == Some(FormatMmSs(MinOf(times + [elapsed])))
  {
    RecordsSnoc(stamps, times, now, elapsed);
    BestOfRecords(stamps + [now], times + [elapsed], current);
  }

  class MainViewModel {
    /** The Cells collection. */
    var cells: seq<Cell>
    /** The state of cells[j] is Grid[j]. */
    ghost var Grid: seq<CellState>

    var ElapsedTime: string
    /** The seconds (below one hour) that ElapsedTime shows. */
    ghost var Elapsed: nat
    var MinesLeft: int
    var IsGameActive: bool
    /** BestTime; None stands for null. */
    var BestTime: Option<string>
    /** Whether the one-second timer is enabled. */
    var TimerRunning: bool
    /** The lines of the best-times file; a missing file reads as no lines. */
    var ScoreFile: seq<string>

    /** Grid mirrors the cell objects, each of which sits at one position only. */
    ghost predicate Mirrors()
      reads this, cells
    {
      |Grid| == |cells|
      && (forall j :: 0 <= j < |cells| ==> cells[j].State() == Grid[j])
      && (forall j {:trigger cells[j]} :: 0 <= j < |cells| ==> IndexOf(cells, cells[j]) == j)
    }

    /** What holds at every step: before the first game there are no cells
        and no game; afterwards the board is a ready 10x10 board with
        MineTotal mines and correct counts, and MinesLeft is MineTotal. */
    ghost predicate Sound()
      reads this, cells
    {
      Mirrors()
      && (cells == [] ==> !IsGameActive && MinesLeft == 0)
      && (cells != [] ==> BoardReady(cells, Grid) && MinesLeft == MineTotal)
      && (TimerRunning ==> IsGameActive)
      && Elapsed < 3600 && ElapsedTime == FormatMmSs(Elapsed)
    }

    /** Between operations: in a running game no revealed cell is a mine or flagged. */
    ghost predicate Valid()
      reads this, cells
    {
      Sound() && (IsGameActive ==> ActiveInvariant(Grid))
    }

    /** The constructor: no cells, no game, and the best time loaded from the log. */
    constructor (file: seq<string>)
      ensures Valid() && cells == [] && !IsGameActive && !TimerRunning
      ensures ElapsedTime == "00:00" && MinesLeft == 0
      ensures ScoreFile == file && BestTime == LoadedBestTime(file, None)
    {
      cells, Grid := [], [];
      ElapsedTime, Elapsed := "00:00", 0;
      MinesLeft, IsGameActive, BestTime, TimerRunning := 0, false, None, false;
      ScoreFile := file;
      new;
      FormatZero();
      LoadBestTime();
    }

    /** LoadBestTime: BestTime becomes the fastest time in the log, unless
        the log holds no time or a line that does not parse. */
    method LoadBestTime()
      modifies this
      ensures BestTime == LoadedBestTime(ScoreFile, old(BestTime))
      ensures cells == old(cells) && Grid == old(Grid) && ScoreFile == old(ScoreFile)
      ensures ElapsedTime == old(ElapsedTime) && Elapsed == old(Elapsed) && MinesLeft == old(MinesLeft)
      ensures IsGameActive == old(IsGameActive) && TimerRunning == old(TimerRunning)
    {
      BestTime := LoadedBestTime(ScoreFile, BestTime);
    }

    /** SaveScore: one record line, stamped with `now`, appended to the log. */
    method SaveScore(time: string, now: Clock)
      modifies this
      ensures ScoreFile == old(ScoreFile) + [RecordLine(now, time)]
      ensures cells == old(cells) && Grid == old(Grid) && BestTime == old(BestTime)
      ensures ElapsedTime == old(ElapsedTime) && Elapsed == old(Elapsed) && MinesLeft == old(MinesLeft)
      ensures IsGameActive == old(IsGameActive) && TimerRunning == old(TimerRunning)
    {
      ScoreFile := ScoreFile + [RecordLine(now, time)];
    }

    /** A timer tick, `elapsed` seconds after the first reveal: while the
        timer runs, ElapsedTime shows the minutes and seconds. */
    method Tick(elapsed: nat)
      requires Valid()
      modifies this
      ensures Valid()
      ensures ElapsedTime == if old(TimerRunning) then FormatMmSs(elapsed) else old(ElapsedTime)
      ensures old(TimerRunning) ==> ParseMmSs(ElapsedTime) == Some(elapsed % 3600)
      ensures cells == old(cells) && Grid == old(Grid) && BestTime == old(BestTime) && ScoreFile == old(ScoreFile)
      ensures MinesLeft == old(MinesLeft) && IsGameActive == old(IsGameActive) && TimerRunning == old(TimerRunning)
    {
      if TimerRunning {
        ElapsedTime := FormatMmSs(elapsed);
        Elapsed := elapsed % 3600;
        FormatWraps(elapsed);
        ParseFormat(Elapsed);
      }
    }

    /** SetupGame, with `draws` standing for the successive values of
        `random.Next(Cells.Count)`: a fresh row-major 10x10 board, mines on
        the cells the draws pick (repeats skipped) until MineTotal are
        placed, then every cell's count of neighbouring mines. */
    method SetupGame(draws: seq<int>)
      requires forall k :: 0 <= k < |draws| ==> 0 <= draws[k] < Rows * Cols
      requires |Hits(draws)| >= MineTotal
      modifies this
      ensures Valid()
      ensures forall j :: 0 <= j < |cells| ==> fresh(cells[j])
      ensures RowMajor(cells) && CountsConsistent(cells, Grid)
      ensures MineSet(Grid) == Place(draws, {}) && |MineSet(Grid)| == MineTotal
      ensures Untouched(Grid)
      ensures ElapsedTime == "00:00" && MinesLeft == MineTotal && IsGameActive && !TimerRunning
      ensures BestTime == old(BestTime) && ScoreFile == old(ScoreFile)
    {
      TimerRunning := false;
      ElapsedTime, Elapsed := "00:00", 0;
      FormatZero();
      MinesLeft := MineTotal;
      IsGameActive := true;
      BuildBoard(draws);
    }

    /** The board part of SetupGame: Cells.Clear(), the cells, the mines and
        the counts. */
    method BuildBoard(draws: seq<int>)
      requires forall k :: 0 <= k < |draws| ==> 0 <= draws[k] < Rows * Cols
      requires |Hits(draws)| >= MineTotal
      modifies this`cells, this`Grid
      ensures Mirrors() && BoardReady(cells, Grid) && ActiveInvariant(Grid)
      ensures forall j :: 0 <= j < |cells| ==> fresh(cells[j])
      ensures MineSet(Grid) == Place(draws, {})
      ensures Untouched(Grid)
    {
      CreateCells();
      PlaceMines(draws);
      ghost var before := Grid;
      CountAllNeighbors();
      CountedBoardReady(cells, before, Grid);
    }

    /** Cells.Clear(), then one new cell per row and column, row by row. */
    method CreateCells()
      modifies this`cells, this`Grid
      ensures Mirrors() && RowMajor(cells)
      ensures forall j :: 0 <= j < |cells| ==> fresh(cells[j])
      ensures forall j :: 0 <= j < |Grid| ==> Grid[j] == Blank
    {
      cells, Grid := [], [];
      var r := 0;
      while r < Rows
        invariant 0 <= r <= Rows
        invariant Mirrors() && |cells| == r * Cols
        invariant forall j :: 0 <= j < |cells| ==> fresh(cells[j])
        invariant forall j :: 0 <= j < |cells| ==> cells[j].Row == j / Cols && cells[j].Column == j % Cols
        invariant forall j :: 0 <= j < |Grid| ==> Grid[j] == Blank
      {
        var c := 0;
        while c < Cols
          invariant 0 <= c <= Cols
          invariant Mirrors() && |cells| == r * Cols + c
          invariant forall j :: 0 <= j < |cells| ==> fresh(cells[j])
          invariant forall j :: 0 <= j < |cells| ==> cells[j].Row == j / Cols && cells[j].Column == j % Cols
          invariant forall j :: 0 <= j < |Grid| ==> Grid[j] == Blank
        {
          AddCell(r, c);
          c := c + 1;
        }
        r := r + 1;
      }
    }

    /** `Cells.Add(new CellViewModel { Row = r, Column = c })`. */
    method AddCell(r: nat, c: nat)
      requires Mirrors() && c < Cols && |cells| == r * Cols + c
      requires forall j :: 0 <= j < |cells| ==> cells[j].Row == j / Cols && cells[j].Column == j % Cols
      modifies this`cells, this`Grid
      ensures Mirrors() && |cells| == |old(cells)| + 1 && cells[..|old(cells)|] == old(cells)
      ensures fresh(cells[|old(cells)|]) && Grid == old(Grid) + [Blank]
      ensures forall j :: 0 <= j < |cells| ==> cells[j].Row == j / Cols && cells[j].Column == j % Cols
    {
      var cell := new Cell(r, c);
      DivModUnique(|cells|, r, c);
      forall x | x in cells
        ensures IndexOf(cells + [cell], x) == IndexOf(cells, x)
      {
        IndexOfAppend(cells, cell, x);
      }
      IndexOfLast(cells, cell);
      cells, Grid := cells + [cell], Grid + [Blank];
    }

    /** The placement loop: draw a cell; if it is not yet a mine, make it one;
        stop when MineTotal cells are mines. */
    method PlaceMines(draws: seq<int>)
      requires Mirrors() && |cells| == Rows * Cols
      requires forall j :: 0 <= j < |Grid| ==> Grid[j] == Blank
      requires forall k :: 0 <= k < |draws| ==> 0 <= draws[k] < Rows * Cols
      requires |Hits(draws)| >= MineTotal
      modifies this`Grid, cells
      ensures Mirrors()
      ensures MineSet(Grid) == Place(draws, {}) && |MineSet(Grid)| == MineTotal
      ensures Untouched(Grid)
      ensures Uncounted(Grid)
    {
      var placedMines := 0;
      var k := 0;
      ghost var placed: set<int> := {};
      assert MineSet(Grid) == {};
      PlacingStarts(draws);
      while placedMines < MineTotal
        invariant 0 <= placedMines <= MineTotal
        invariant Mirrors() && Untouched(Grid)
        invariant Uncounted(Grid)
        invariant placed == MineSet(Grid) && |placed| == placedMines
        invariant PlacingFrom(draws, k, placed)
        decreases |draws| - k
      {
        PlacingAdvances(draws, k, placed);
        var d := draws[k];
        var hit := PlaceOne(d, placed);
        if hit {
          placedMines := placedMines + 1;
        }
        placed := placed + {d};
        k := k + 1;
      }
      PlacingEnds(draws, k, placed);
    }

    /** One draw of the placement loop: the cell at `d` becomes a mine unless
        it already is one; `hit` says whether a new mine was placed. */
    method PlaceOne(d: int, ghost placed: set<int>) returns (hit: bool)
      requires Mirrors() && Untouched(Grid) && placed == MineSet(Grid)
      requires 0 <= d < |cells|
      modifies this`Grid, cells[d]
      ensures Mirrors() && Untouched(Grid)
      ensures Grid == old(Grid)[d := old(Grid)[d].(mine := true)]
      ensures Uncounted(old(Grid)) ==> Uncounted(Grid)
      ensures MineSet(Grid) == placed + {d}
      ensures hit <==> d !in placed
      ensures |MineSet(Grid)| == |placed| + (if hit then 1 else 0)
    {
      var cell := cells[d];
      hit := !cell.IsMine;
      if hit {
        MineSetAdd(Grid, d);
        UntouchedAfterMine(Grid, d);
        cell.SetMine(true);
        Grid := Grid[d := Grid[d].(mine := true)];
      } else {
        assert Grid[d] == Grid[d].(mine := true);
      }
    }

    /** `foreach (var cell in Cells) cell.NeighborMines = ...`. */
    method CountAllNeighbors()
      requires Mirrors()
      modifies this`Grid, cells
      ensures Mirrors() && CountsConsistent(cells, Grid)
      ensures forall j :: 0 <= j < |Grid| ==>
        Grid[j] == old(Grid)[j].(neighborMines := MinesAround(cells, MineSet(old(Grid)), j))
    {
      ghost var mines := MineSet(Grid);
      var i := 0;
      while i < |cells|
        invariant 0 <= i <= |cells|
        invariant Mirrors() && MineSet(Grid) == mines
        invariant forall j :: 0 <= j < i ==> Grid[j] == old(Grid)[j].(neighborMines := MinesAround(cells, mines, j))
        invariant forall j :: i <= j < |cells| ==> Grid[j] == old(Grid)[j]
      {
        CountOne(i, mines);
        i := i + 1;
      }
    }

    /** `cell.NeighborMines = ...` for cells[i], where the mines are the
        positions in `mines`. */
    method CountOne(i: nat, ghost mines: set<int>)
      requires Mirrors() && MineSet(Grid) == mines && i < |cells|
      modifies this`Grid, cells[i]
      ensures Mirrors() && MineSet(Grid) == mines
      ensures Grid == old(Grid)[i := old(Grid)[i].(neighborMines := MinesAround(cells, mines, i))]
    {
      var count := CountNeighborMines(i, mines);
      MineSetKeptByCount(Grid, i, count);
      cells[i].SetNeighborMines(count);
      Grid := Grid[i := Grid[i].(neighborMines := count)];
    }

    /** `GetNeighbors(cell).Count(c => c.IsMine)` for cells[i], where the
        mines are the positions in `mines`. */
    method CountNeighborMines(i: nat, ghost mines: set<int>) returns (count: nat)
      requires |Grid| == |cells| && i < |cells|
      requires forall j :: 0 <= j < |cells| ==> (cells[j].IsMine <==> j in mines)
      ensures count == MinesAround(cells, mines, i)
    {
      var ns := GetNeighbors(cells, i);
      count := 0;
      var m := 0;
      while m < |ns|
        invariant 0 <= m <= |ns|
        invariant count == CountIn(ns[..m], mines)
      {
        assert ns[..m + 1][..m] == ns[..m];
        if cells[ns[m]].IsMine {
          count := count + 1;
        }
        m := m + 1;
      }
      assert ns[..m] == ns;
      NeighborsIncreasing(cells, i);
      CountInIsCard(ns, mines);
    }

    /** `Cells.Count(c => !c.IsRevealed)`. */
    method CountHidden() returns (n: nat)
      requires Mirrors()
      ensures n == |HiddenSet(Grid)|
    {
      n := 0;
      var k := 0;
      while k < |cells|
        invariant 0 <= k <= |cells|
        invariant n == |HiddenBelow(Grid, k)|
      {
        HiddenBelowStep(Grid, k);
        if !cells[k].IsRevealed {
          n := n + 1;
        }
        k := k + 1;
      }
      assert HiddenBelow(Grid, k) == HiddenSet(Grid);
    }

    /** `Cells.Count(c => c.IsMine)`. */
    method CountMines() returns (n: nat)
      requires Mirrors()
      ensures n == |MineSet(Grid)|
    {
      n := 0;
      var k := 0;
      while k < |cells|
        invariant 0 <= k <= |cells|
        invariant n == |MinesBelow(Grid, k)|
      {
        MinesBelowStep(Grid, k);
        if cells[k].IsMine {
          n := n + 1;
        }
        k := k + 1;
      }
      assert MinesBelow(Grid, k) == MineSet(Grid);
    }

    /** GameOver: the timer stops and the game ends; a win saves the shown
        time and flags every mine, a loss reveals every mine. */
    method GameOver(win: bool, now: Clock)
      requires Sound()
      modifies this, cells
      ensures Valid()
      ensures !IsGameActive && !TimerRunning
      ensures Grid == if win then FlagMines(old(Grid)) else RevealMines(old(Grid))
      ensures ScoreFile == if win then old(ScoreFile) + [RecordLine(now, ElapsedTime)] else old(ScoreFile)
      ensures cells == old(cells) && BestTime == old(BestTime)
      ensures ElapsedTime == old(ElapsedTime) && Elapsed == old(Elapsed) && MinesLeft == old(MinesLeft)
    {
      TimerRunning := false;
      IsGameActive := false;
      ghost var g := Grid;
      if win {
        SaveScore(ElapsedTime, now);
        FlagEveryMine();
        WinFlagsEveryMine(g);
      } else {
        RevealEveryMine();
        LossRevealsEveryMine(g);
      }
      SameLayoutKeepsBoard(cells, g, Grid);
    }

    /** `foreach (var mine in Cells.Where(c => c.IsMine)) mine.IsFlagged = true`. */
    method FlagEveryMine()
      requires Mirrors()
      modifies this`Grid, cells
      ensures Mirrors() && Grid == FlagMines(old(Grid))
    {
      ghost var target := FlagMines(Grid);
      var k := 0;
      while k < |cells|
        invariant 0 <= k <= |cells|
        invariant Mirrors() && |Grid| == |target|
        invariant forall j :: 0 <= j < k ==> Grid[j] == target[j]
        invariant forall j :: k <= j < |cells| ==> Grid[j] == old(Grid)[j]
      {
        if cells[k].IsMine {
          FlagOne(k);
        }
        k := k + 1;
      }
    }

    /** `mine.IsFlagged = true` for cells[i]. */
    method FlagOne(i: nat)
      requires Mirrors() && i < |cells|
      modifies this`Grid, cells[i]
      ensures Mirrors() && Grid == old(Grid)[i := old(Grid)[i].(flagged := true)]
    {
      cells[i].SetFlagged(true);
      Grid := Grid[i := Grid[i].(flagged := true)];
    }

    /** `foreach (var mine in Cells.Where(c => c.IsMine)) mine.IsRevealed = true`. */
    method RevealEveryMine()
      requires Mirrors()
      modifies this`Grid, cells
      ensures Mirrors() && Grid == RevealMines(old(Grid))
    {
      ghost var target := RevealMines(Grid);
      var k := 0;
      while k < |cells|
        invariant 0 <= k <= |cells|
        invariant Mirrors() && |Grid| == |target|
        invariant forall j :: 0 <= j < k ==> Grid[j] == target[j]
        invariant forall j :: k <= j < |cells| ==> Grid[j] == old(Grid)[j]
      {
        if cells[k].IsMine {
          RevealOne(k);
        }
        k := k + 1;
      }
    }

    /** CheckForWin: the game is won when the hidden cells are exactly as
        many as the mines. */
    method CheckForWin(now: Clock)
      requires Sound()
      modifies this, cells
      ensures Sound()
      ensures if Won(old(Grid)) then
          Grid == FlagMines(old(Grid)) && !IsGameActive && !TimerRunning
          && ScoreFile == old(ScoreFile) + [RecordLine(now, ElapsedTime)]
        else
          Grid == old(Grid) && IsGameActive == old(IsGameActive) && TimerRunning == old(TimerRunning)
          && ScoreFile == old(ScoreFile)
      ensures cells == old(cells) && BestTime == old(BestTime)
      ensures ElapsedTime == old(ElapsedTime) && Elapsed == old(Elapsed) && MinesLeft == old(MinesLeft)
    {
      var hiddenCells := CountHidden();
      var totalMines := CountMines();
      if hiddenCells == totalMines {
        GameOver(true, now);
      }
    }

    /** ToggleFlag: in a running game a hidden cell's flag flips; anything
        else is ignored. MinesLeft does not follow the flags. */
    method ToggleFlag(cell: Cell)
      requires Valid() && cell in cells
      modifies this, cell
      ensures Valid()
      ensures cells == old(cells) && BestTime == old(BestTime) && ScoreFile == old(ScoreFile)
      ensures var i := IndexOf(cells, cell);
        Grid == if !old(IsGameActive) || old(Grid[i].revealed) then old(Grid) else FlagToggled(old(Grid), i)
      ensures ElapsedTime == old(ElapsedTime) && Elapsed == old(Elapsed) && MinesLeft == old(MinesLeft)
      ensures IsGameActive == old(IsGameActive) && TimerRunning == old(TimerRunning)
    {
      var i := IndexOf(cells, cell);
      if !IsGameActive || cell.IsRevealed {
        return;
      }
      cell.SetFlagged(!cell.IsFlagged);
      ghost var g := Grid;
      Grid := FlagToggled(Grid, i);
      ToggleTwice(g, i);
      SameLayoutKeepsBoard(cells, g, Grid);
    }

    /** RevealCell, called with the instant `now` that SaveScore stamps on a
        win. Ignored when the game is over or the cell is revealed or
        flagged; a mine ends the game as a loss; a safe cell is revealed,
        a cell with no mine around it reveals its neighbours in turn, and
        CheckForWin decides whether the game is won. */
    method RevealCell(cell: Cell, now: Clock)
      requires Valid() && cell in cells
      modifies this, cells
      decreases HiddenSet(Grid), 4
      ensures Valid()
      ensures cells == old(cells) && BestTime == old(BestTime)
      ensures ElapsedTime == old(ElapsedTime) && Elapsed == old(Elapsed) && MinesLeft == old(MinesLeft)
      ensures var i := IndexOf(cells, cell);
        if !old(IsGameActive) || old(Grid[i].revealed) || old(Grid[i].flagged) then
          Grid == old(Grid) && IsGameActive == old(IsGameActive) && TimerRunning == old(TimerRunning)
          && ScoreFile == old(ScoreFile)
        else if old(Grid[i].mine) then
          Grid == RevealMines(old(Grid)) && !IsGameActive && !TimerRunning && ScoreFile == old(ScoreFile)
        else
          SafeClickDone(old(Grid), i, old(ScoreFile), now)
    {
      var i := IndexOf(cells, cell);
      if !IsGameActive || cell.IsRevealed || cell.IsFlagged {
        return;
      }
      OpenHidden(i, now);
    }

    /** RevealCell past its guard, on the hidden unflagged cell cells[i] of a
        running game: the timer starts, the cell is revealed, and a mine ends
        the game as a loss while a safe cell goes on to RevealSafe. */
    method OpenHidden(i: nat, now: Clock)
      requires Valid() && i < |cells| && IsGameActive && !Grid[i].revealed && !Grid[i].flagged
      modifies this, cells
      decreases HiddenSet(Grid), 3
      ensures Valid()
      ensures cells == old(cells) && BestTime == old(BestTime)
      ensures ElapsedTime == old(ElapsedTime) && Elapsed == old(Elapsed) && MinesLeft == old(MinesLeft)
      ensures if old(Grid[i].mine) then
          Grid == RevealMines(old(Grid)) && !IsGameActive && !TimerRunning && ScoreFile == old(ScoreFile)
        else
          SafeClickDone(old(Grid), i, old(ScoreFile), now)
    {
      if !TimerRunning {
        TimerRunning := true;
      }
      ghost var o := Grid;
      RevealOne(i);
      SameLayoutKeepsBoard(cells, o, Grid);
      if cells[i].IsMine {
        GameOver(false, now);
        assert RevealMines(o[i := o[i].(revealed := true)]) == RevealMines(o);
        return;
      }
      RevealSafe(i, now, o);
    }

    /** What a click on the hidden, unflagged safe cell cells[i] of the board
        `o` has done, `file` being the log before it: a complete safe reveal
        of cells[i]; the timer runs exactly while the game does; and the log
        is unchanged unless the click won, in which case it has gained
        records of the elapsed time. */
    ghost predicate SafeClickDone(o: seq<CellState>, i: nat, file: seq<string>, now: Clock)
      reads this
    {
      SafeReveal(cells, o, Grid, i, !IsGameActive) && TimerRunning == IsGameActive
      && LogSince(file, RecordLine(now, ElapsedTime))
    }

    /** The log is `file` while the game runs; once it is over, the log is
        `file` followed by one or more copies of `line`. */
    ghost predicate LogSince(file: seq<string>, line: string)
      reads this
    {
      (IsGameActive ==> ScoreFile == file)
      && (!IsGameActive ==> |ScoreFile| > |file| && AppendedCopies(file, ScoreFile, line))
    }

    /** `cell.IsRevealed = true` for cells[i]. */
    method RevealOne(i: nat)
      requires Mirrors() && i < |cells|
      modifies this`Grid, cells[i]
      ensures Mirrors() && Grid == old(Grid)[i := old(Grid)[i].(revealed := true)]
      ensures cells == old(cells) && BestTime == old(BestTime) && ScoreFile == old(ScoreFile)
      ensures ElapsedTime == old(ElapsedTime) && Elapsed == old(Elapsed) && MinesLeft == old(MinesLeft)
      ensures IsGameActive == old(IsGameActive) && TimerRunning == old(TimerRunning)
    {
      cells[i].SetRevealed(true);
      Grid := Grid[i := Grid[i].(revealed := true)];
    }

    /** The rest of RevealCell once the safe cell cells[i] of the board `o`
        is revealed: its neighbours when no mine is around it, then
        CheckForWin. */
    method RevealSafe(i: nat, now: Clock, ghost o: seq<CellState>)
      requires Sound() && i < |cells| && IsGameActive && TimerRunning
      requires |o| == |cells| && ActiveInvariant(o) && !o[i].revealed && !o[i].flagged && !o[i].mine
      requires Grid == o[i := o[i].(revealed := true)]
      modifies this, cells
      decreases HiddenSet(o), 2
      ensures Valid()
      ensures cells == old(cells) && BestTime == old(BestTime)
      ensures ElapsedTime == old(ElapsedTime) && Elapsed == old(Elapsed) && MinesLeft == old(MinesLeft)
      ensures SafeClickDone(o, i, old(ScoreFile), now)
    {
      StartReveal(cells, o, i);
      if cells[i].NeighborMines == 0 {
        RevealNeighbors(i, now, o);
      } else {
        assert forall j :: Opened(o, Grid, j) ==> j == i;
      }
      ConcludeReveal(i, now, o, old(ScoreFile));
    }

    /** The closing `CheckForWin()` of a click on the safe cell cells[i] of
        the board `o`, `file` being the log before the click: it completes
        the reveal. */
    method ConcludeReveal(i: nat, now: Clock, ghost o: seq<CellState>, ghost file: seq<string>)
      requires Sound() && i < |cells| && ActiveInvariant(o)
      requires PartialReveal(cells, o, Grid, i, !IsGameActive) && TimerRunning == IsGameActive
      requires Grid[i].neighborMines == 0 ==> forall k :: 0 <= k < |cells| && IsNeighbor(cells[k], cells[i]) ==>
        Grid[k].revealed || Grid[k].flagged || !IsGameActive
      requires Grid[i].neighborMines != 0 ==> IsGameActive && forall j :: Opened(o, Grid, j) ==> j == i
      requires LogSince(file, RecordLine(now, ElapsedTime))
      modifies this, cells
      ensures Valid()
      ensures cells == old(cells) && BestTime == old(BestTime)
      ensures ElapsedTime == old(ElapsedTime) && Elapsed == old(Elapsed) && MinesLeft == old(MinesLeft)
      ensures SafeClickDone(o, i, file, now)
    {
      ghost var g := Grid;
      ghost var won := !IsGameActive;
      ghost var before := ScoreFile;
      CheckForWin(now);
      FinishReveal(cells, o, g, i, won);
      if Won(g) && won {
        AppendedCopiesTrans(file, before, ScoreFile, RecordLine(now, ElapsedTime));
      }
      if IsGameActive {
        SafeRevealKeepsActiveInvariant(cells, o, Grid, i);
      }
    }

    /** `foreach (var neighbor in GetNeighbors(cell)) RevealCell(neighbor)`
        for the revealed cell cells[i] with no mine around it, part way
        through a click on a board that was `o` before it. */
    method RevealNeighbors(i: nat, now: Clock, ghost o: seq<CellState>)
      requires Valid() && i < |cells| && IsGameActive && TimerRunning
      requires PartialReveal(cells, o, Grid, i, false) && Grid[i].neighborMines == 0
      modifies this, cells
      decreases HiddenSet(o), 1
      ensures Valid() && cells == old(cells) && BestTime == old(BestTime)
      ensures ElapsedTime == old(ElapsedTime) && Elapsed == old(Elapsed) && MinesLeft == old(MinesLeft)
      ensures PartialReveal(cells, o, Grid, i, !IsGameActive) && TimerRunning == IsGameActive
      ensures forall k :: 0 <= k < |cells| && IsNeighbor(cells[k], cells[i]) ==>
        Grid[k].revealed || Grid[k].flagged || !IsGameActive
      ensures LogSince(old(ScoreFile), RecordLine(now, ElapsedTime))
    {
      ghost var line := RecordLine(now, ElapsedTime);
      var ns := GetNeighbors(cells, i);
      var m := 0;
      while m < |ns|
        invariant 0 <= m <= |ns|
        invariant Valid() && cells == old(cells) && BestTime == old(BestTime)
        invariant ElapsedTime == old(ElapsedTime) && Elapsed == old(Elapsed) && MinesLeft == old(MinesLeft)
        invariant PartialReveal(cells, o, Grid, i, !IsGameActive) && TimerRunning == IsGameActive
        invariant IsGameActive ==> Covered(Grid, ns[..m])
        invariant LogSince(old(ScoreFile), line)
      {
        RevealNeighbor(i, ns, m, now, o, old(ScoreFile));
        m := m + 1;
      }
      assert ns[..m] == ns;
      NeighborsExactly(cells, i);
    }

    /** One turn of that loop: `RevealCell(neighbor)` for the neighbour
        cells[ns[m]] of cells[i], `file` being the log before the click. The
        partial reveal of cells[i] goes on, and afterwards the neighbours
        ns[..m + 1] are revealed or flagged unless the game is over. */
    method RevealNeighbor(i: nat, ns: seq<nat>, m: nat, now: Clock, ghost o: seq<CellState>, ghost file: seq<string>)
      requires Valid() && i < |cells| && m < |ns| && ns[m] < |cells| && IsNeighbor(cells[ns[m]], cells[i])
      requires PartialReveal(cells, o, Grid, i, !IsGameActive) && Grid[i].neighborMines == 0
      requires TimerRunning == IsGameActive
      requires IsGameActive ==> Covered(Grid, ns[..m])
      requires LogSince(file, RecordLine(now, ElapsedTime))
      modifies this, cells
      decreases HiddenSet(o), 0
      ensures Valid() && cells == old(cells) && BestTime == old(BestTime)
      ensures ElapsedTime == old(ElapsedTime) && Elapsed == old(Elapsed) && MinesLeft == old(MinesLeft)
      ensures PartialReveal(cells, o, Grid, i, !IsGameActive) && TimerRunning == IsGameActive
      ensures IsGameActive ==> Covered(Grid, ns[..m + 1])
      ensures LogSince(file, RecordLine(now, ElapsedTime))
    {
      var n := ns[m];
      ghost var g := Grid;
      ghost var won := !IsGameActive;
      OpeningShrinksHidden(o, Grid, i);
      ZeroCountNeighborSafe(cells, Grid, i, n);
      assert IndexOf(cells, cells[n]) == n;
      RevealCell(cells[n], now);
      ExtendReveal(cells, o, g, Grid, i, n, won, !IsGameActive);
      if IsGameActive {
        CoveredGrows(g, Grid, ns[..m], n);
        assert ns[..m + 1] == ns[..m] + [n];
      }
    }
  }
}
