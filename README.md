# Minesweeper game engine in Dafny

This project models the game engine of a WPF Minesweeper: the view model
`MainViewModel` (board setup, the neighbour relation, revealing cells with
the flood fill through cells that touch no mine, flags, the win test, the end
of the game, and the best-times log) and the cell view model `CellViewModel`
(its four state fields, their setters and the text its button shows).

Modules:

- `Text` (text.dfy) holds an `Option` type, decimal digits, and `Int32.ToString()` of a non-negative number.
- `CellView` (cell_view.dfy) holds the class `Cell`, which models `CellViewModel`. It has constant `Row`/`Column` and the four mutable fields `IsMine`, `NeighborMines`, `IsRevealed` and `IsFlagged`, with one setter each. It also holds `Display`, the pure case split behind `DisplayText`.
- `Board` (board.dfy) holds the value-level specification of the board. The state of the cells is a `seq<CellState>` in the order of the `Cells` collection. The module covers:
  - `GetNeighbors` as a filter over that order;
  - the neighbour-mine count;
  - rejection-sampled mine placement;
  - the win test;
  - `RevealMines` and `FlagMines`;
  - the predicates `PartialReveal` and `SafeReveal`, which describe a flood-fill reveal in progress and once finished.
- `Scores` (scores.dfy) holds the record line that `SaveScore` writes. It also holds the `LoadBestTime` pipeline: `Split` on the marker `"Čas: "`, take the last piece, drop empty pieces, `Trim`, parse as `mm:ss`, take the minimum.
- `Game` (game.dfy) holds the class `MainViewModel`. It has:
  - the `cells` collection of `Cell` objects;
  - the fields `ElapsedTime`, `MinesLeft`, `IsGameActive`, `BestTime` and `TimerRunning`;
  - the log `ScoreFile`;
  - a ghost `Grid` that mirrors the state of every cell object.

  Its methods change the cell objects in place, as the source does. The state-changing methods state their effect through the `Board` and `Scores` functions, and `Valid()` is preserved by every operation.

`RevealCell` is the source's recursion. The flood fill calls it back through
`OpenHidden`, `RevealSafe`, `RevealNeighbors` (the `foreach` over the
neighbours) and `RevealNeighbor` (one turn of that loop). Termination follows
the number of hidden cells: every nested call that does anything first reveals
a hidden cell.

## Model

| member | source | states |
|---|---|---|
| CellView.Cell.constructor | Minesweeper/ViewModel/CellViewModel.cs:12-19 | a new cell has the given row and column and every state field at its default (not a mine, count 0, hidden, unflagged) |
| CellView.Cell.SetMine | Minesweeper/ViewModel/CellViewModel.cs:22-26 | the IsMine setter changes the mine field and leaves the other three as they were |
| CellView.Cell.SetNeighborMines | Minesweeper/ViewModel/CellViewModel.cs:29-33 | the NeighborMines setter changes the count only |
| CellView.Cell.SetRevealed | Minesweeper/ViewModel/CellViewModel.cs:36-46 | the IsRevealed setter changes the revealed field only |
| CellView.Cell.SetFlagged | Minesweeper/ViewModel/CellViewModel.cs:49-58 | the IsFlagged setter changes the flag only |
| CellView.Cell.DisplayText | Minesweeper/ViewModel/CellViewModel.cs:61-69 | the button text of a cell is the Display of its four state fields, the ones the setters change |
| CellView.Display | Minesweeper/ViewModel/CellViewModel.cs:61-69 | the definition of the button text: a flag or nothing while hidden, the bomb for a revealed mine, otherwise the count when it is positive; its properties are the three lemmas below |
| CellView.HiddenCellConceals | Minesweeper/ViewModel/CellViewModel.cs:65 | a hidden cell shows the flag glyph or nothing, never the bomb, whatever its mine field and count are |
| CellView.RevealedMineShowsBomb | Minesweeper/ViewModel/CellViewModel.cs:66 | a revealed mine shows the bomb glyph whether or not it is flagged |
| CellView.RevealedSafeShowsCount | Minesweeper/ViewModel/CellViewModel.cs:67 | a revealed safe cell shows nothing for a count of 0, otherwise a digit string that reads back as its count, a single digit for counts 1 to 8, and never a glyph |
| Text.DecimalText | Minesweeper/ViewModel/CellViewModel.cs:67 | `ToString()` of a count is a digit string without a leading zero that reads back as the count, one character long exactly when the count is below ten |
| Board.IsNeighbor | Minesweeper/ViewModel/MainViewModel.cs:89-92 | the definition of the filter: the other cell is at most one row and one column away, and is not the same cell |
| Board.NeighborsFrom | Minesweeper/ViewModel/MainViewModel.cs:89-92 | scanning the collection from a position keeps exactly the later positions that pass the filter, each one below the board size |
| Board.GetNeighbors | Minesweeper/ViewModel/MainViewModel.cs:87-93 | the neighbours are positions in the collection; the lemmas below say which ones and in what order |
| Board.NeighborSymmetric | Minesweeper/ViewModel/MainViewModel.cs:89-92 | the neighbour filter is symmetric |
| Board.NeighborsExactly | Minesweeper/ViewModel/MainViewModel.cs:87-93 | GetNeighbors lists exactly the positions of the other cells at most one row and one column away |
| Board.NeighborsIncreasing | Minesweeper/ViewModel/MainViewModel.cs:89-92 | because it filters the collection, GetNeighbors lists positions in increasing order, so without repeats |
| Board.NeighborsInRowMajorOrder | Minesweeper/ViewModel/MainViewModel.cs:89-92 | on the row-major board the neighbours come back ordered by row, then by column |
| Board.NeighborsAreSurrounding | Minesweeper/ViewModel/MainViewModel.cs:87-93 | on the row-major board the neighbours of cell i are exactly the surrounding positions that lie on the board |
| Board.NeighborBound | Minesweeper/ViewModel/MainViewModel.cs:87-93 | a cell has at most eight neighbours, each listed once |
| Board.CornerNeighbors | Minesweeper/ViewModel/MainViewModel.cs:87-93 | the corner cell (0, 0) has exactly the neighbours at positions 1, 10 and 11, in that order |
| Board.InteriorNeighbors | Minesweeper/ViewModel/MainViewModel.cs:87-93 | a cell away from every edge has exactly eight neighbours |
| Board.MinesAround | Minesweeper/ViewModel/MainViewModel.cs:78 | the definition of a cell's count, the mines counted along GetNeighbors; MinesAroundMeaning states what it equals |
| Board.MinesAroundMeaning | Minesweeper/ViewModel/MainViewModel.cs:78 | the count is the number of mines among the cells that pass the neighbour filter; it is at most 8 on the row-major board, and it is 0 exactly when no neighbour is a mine |
| Board.CountInIsCard | Minesweeper/ViewModel/MainViewModel.cs:78 | counting the mines along the neighbour list (`Count(c => c.IsMine)`) gives the number of distinct mined neighbours |
| Board.Place | Minesweeper/ViewModel/MainViewModel.cs:67-73 | the definition of rejection sampling over the draws: a draw that is already a mine is skipped, and sampling stops at MineTotal mines; PlaceCount states its result |
| Board.PlaceCount | Minesweeper/ViewModel/MainViewModel.cs:69-73 | when the draws hit enough distinct cells, rejection sampling stops at exactly MineTotal mines, all of them drawn cells, keeping those already placed |
| Board.PlacingAdvances | Minesweeper/ViewModel/MainViewModel.cs:69-72 | while fewer than MineTotal mines are placed a draw is left, and taking it continues the same placement |
| Board.CountedBoardReady | Minesweeper/ViewModel/MainViewModel.cs:76-79 | setting every count on an untouched board with MineTotal mines keeps the mines and gives a ready board: row-major, MineTotal mines, every count consistent |
| Board.Won | Minesweeper/ViewModel/MainViewModel.cs:150 | the definition of CheckForWin's test, hidden cells as many as mines; WonIffSafeRevealed states what it means |
| Board.WonIffSafeRevealed | Minesweeper/ViewModel/MainViewModel.cs:142-150 | with every mine hidden, CheckForWin's test (hidden cells as many as mines) holds exactly when every safe cell is revealed |
| Board.RevealMines | Minesweeper/ViewModel/MainViewModel.cs:180-183 | the definition of the loss loop over the mines; LossRevealsEveryMine states its effect |
| Board.FlagMines | Minesweeper/ViewModel/MainViewModel.cs:171-174 | the definition of the win loop over the mines; WinFlagsEveryMine states its effect |
| Board.LossRevealsEveryMine | Minesweeper/ViewModel/MainViewModel.cs:180-183 | after a loss every mine is revealed, flags are unchanged, and every safe cell is exactly as it was |
| Board.WinFlagsEveryMine | Minesweeper/ViewModel/MainViewModel.cs:171-174 | after a win every mine is flagged, nothing is revealed or hidden anew, and flagging again changes nothing |
| Board.OpeningShrinksHidden | Minesweeper/ViewModel/MainViewModel.cs:102-111 | a nested reveal that opens a cell strictly shrinks the set of hidden cells, which is why the recursion terminates |
| Board.StartReveal | Minesweeper/ViewModel/MainViewModel.cs:111 | revealing a hidden, unflagged safe cell begins a partial reveal rooted at it |
| Board.ZeroCountNeighborSafe | Minesweeper/ViewModel/MainViewModel.cs:121-126 | a neighbour of a revealed cell with count 0 is not a mine, so the cascade never hits a mine |
| Board.ExtendReveal | Minesweeper/ViewModel/MainViewModel.cs:123-126 | a nested `RevealCell(neighbor)` that was ignored or was itself a complete safe reveal keeps the partial reveal of the outer cell |
| Board.FinishReveal | Minesweeper/ViewModel/MainViewModel.cs:121-130 | once the neighbours of a zero-count root are revealed or flagged, the final CheckForWin completes a safe reveal. The opened cells are safe, were unflagged, and can be listed in an opening order that starts at the clicked cell, each later cell touching an earlier zero-count cell. No zero-count opened cell has a hidden unflagged neighbour. The game is won exactly when the count test holds, and then every mine is flagged |
| Board.NumberedClickOpensOnlyIt | Minesweeper/ViewModel/MainViewModel.cs:111-130 | a safe reveal of a cell with a mine around it opens that cell and no other |
| Board.SafeRevealIsUnique | Minesweeper/ViewModel/MainViewModel.cs:99-131 | two complete safe reveals of the same cell from the same board give the same board and the same win verdict, so a click opens exactly the flood region of the clicked cell and nothing else |
| Board.SafeRevealKeepsActiveInvariant | Minesweeper/ViewModel/MainViewModel.cs:102-130 | a safe reveal that does not end the game leaves no revealed mine and no revealed flagged cell |
| Game.ToggleTwice | Minesweeper/ViewModel/MainViewModel.cs:136 | toggling a flag twice restores the board; a toggle changes neither the hidden cells, the mines nor the win test |
| Game.FlagToggled | Minesweeper/ViewModel/MainViewModel.cs:136 | the definition of one toggle, the flag of one cell negated; ToggleTwice states its properties |
| Game.MainViewModel.constructor | Minesweeper/ViewModel/MainViewModel.cs:41-51 | no cells, no game, "00:00" shown, and BestTime as loaded from the log |
| Game.MainViewModel.Tick | Minesweeper/ViewModel/MainViewModel.cs:47-48 | while the timer runs ElapsedTime shows the elapsed time as mm:ss, hours dropped, and parses back to it; otherwise nothing changes |
| Game.MainViewModel.SetupGame | Minesweeper/ViewModel/MainViewModel.cs:53-80 | fresh row-major 10x10 cells, the mines are the rejection-sampled placement of the draws (exactly 10), every count consistent, nothing revealed or flagged, timer stopped, "00:00", MinesLeft 10, game active, log and best time unchanged |
| Game.MainViewModel.BuildBoard | Minesweeper/ViewModel/MainViewModel.cs:57-79 | creates, mines and counts the cells: fresh row-major cells whose mines are the rejection-sampled placement, with consistent counts, nothing revealed or flagged |
| Game.MainViewModel.CreateCells | Minesweeper/ViewModel/MainViewModel.cs:57-64 | one fresh blank cell per row and column, row by row |
| Game.MainViewModel.AddCell | Minesweeper/ViewModel/MainViewModel.cs:64 | appends one fresh blank cell at the next row-major position and keeps the earlier ones |
| Game.MainViewModel.PlaceMines | Minesweeper/ViewModel/MainViewModel.cs:67-73 | the loop places exactly MineTotal mines, the cells chosen by rejection sampling over the draws; nothing is revealed or flagged and every count is still 0 |
| Game.MainViewModel.PlaceOne | Minesweeper/ViewModel/MainViewModel.cs:71-72 | the drawn cell becomes a mine and nothing else in the grid changes; a new mine is counted exactly when it was not one already |
| Game.MainViewModel.CountAllNeighbors | Minesweeper/ViewModel/MainViewModel.cs:76-79 | every cell's count becomes the number of mines around it and nothing else changes |
| Game.MainViewModel.CountOne | Minesweeper/ViewModel/MainViewModel.cs:78 | sets one cell's count to the number of mines around it |
| Game.MainViewModel.CountNeighborMines | Minesweeper/ViewModel/MainViewModel.cs:78 | the loop over GetNeighbors counting mines returns the number of mines around the cell |
| Game.MainViewModel.RevealCell | Minesweeper/ViewModel/MainViewModel.cs:99-131 | ignored when the game is over or the cell is revealed or flagged; a mine reveals every mine and ends the game without a record; a safe cell completes a safe reveal, the timer runs exactly while the game does, and the log gains records of the shown time only if the click won |
| Game.MainViewModel.OpenHidden | Minesweeper/ViewModel/MainViewModel.cs:105-128 | past the guard: a mine ends the game as a loss, a safe cell goes on to a complete safe reveal |
| Game.MainViewModel.RevealOne | Minesweeper/ViewModel/MainViewModel.cs:111 | reveals the one cell and nothing else |
| Game.MainViewModel.RevealSafe | Minesweeper/ViewModel/MainViewModel.cs:120-130 | after revealing a safe cell, the cascade and CheckForWin complete the safe reveal of the click |
| Game.MainViewModel.RevealNeighbors | Minesweeper/ViewModel/MainViewModel.cs:121-127 | after the loop every neighbour of the zero-count cell is revealed or flagged unless the game ended, and the partial reveal and the log relation are kept |
| Game.MainViewModel.RevealNeighbor | Minesweeper/ViewModel/MainViewModel.cs:123-126 | one nested RevealCell keeps the partial reveal and covers one more neighbour |
| Game.MainViewModel.ConcludeReveal | Minesweeper/ViewModel/MainViewModel.cs:130 | the closing CheckForWin turns the partial reveal into a complete one |
| Game.MainViewModel.ToggleFlag | Minesweeper/ViewModel/MainViewModel.cs:132-138 | ignored when the game is over or the cell is revealed; otherwise flips that cell's flag only; MinesLeft never changes |
| Game.MainViewModel.CheckForWin | Minesweeper/ViewModel/MainViewModel.cs:142-155 | when the hidden cells are as many as the mines the game ends as a win (mines flagged, timer stopped, one record appended); otherwise nothing changes |
| Game.MainViewModel.CountHidden | Minesweeper/ViewModel/MainViewModel.cs:145 | returns the number of hidden cells |
| Game.MainViewModel.CountMines | Minesweeper/ViewModel/MainViewModel.cs:148 | returns the number of mines |
| Game.MainViewModel.GameOver | Minesweeper/ViewModel/MainViewModel.cs:161-186 | the timer stops and the game ends; a win appends the record of the shown time and flags every mine, a loss reveals every mine |
| Game.MainViewModel.FlagEveryMine | Minesweeper/ViewModel/MainViewModel.cs:171-174 | the loop leaves the board as FlagMines of the old board |
| Game.MainViewModel.FlagOne | Minesweeper/ViewModel/MainViewModel.cs:173 | flags the one cell and nothing else |
| Game.MainViewModel.RevealEveryMine | Minesweeper/ViewModel/MainViewModel.cs:180-183 | the loop leaves the board as RevealMines of the old board |
| Game.MainViewModel.SaveScore | Minesweeper/ViewModel/MainViewModel.cs:188-199 | the log gains exactly one line, `dd.MM.yyyy HH:mm - Čas: <time>` |
| Game.MainViewModel.LoadBestTime | Minesweeper/ViewModel/MainViewModel.cs:208-231 | BestTime becomes the loaded best time of the log, or stays as it was |
| Scores.FormatClock | Minesweeper/ViewModel/MainViewModel.cs:195 | the `dd.MM.yyyy HH:mm` stamp is always 16 characters, each a digit, a dot, a space or a colon |
| Scores.StampReadsBack | Minesweeper/ViewModel/MainViewModel.cs:195 | for a clock whose fields lie in the ranges a DateTime keeps them in, each field reads back from its two (year: four) digits at its place in the stamp |
| Scores.RecordLine | Minesweeper/ViewModel/MainViewModel.cs:195 | the definition of a record, the stamp, " - ", the marker and the time; RecordRoundTrip states that the time reads back |
| Scores.Split | Minesweeper/ViewModel/MainViewModel.cs:219 | Split on the marker gives at least one piece; JoinSplit and SplitPiecesAreMarkerFree fix the pieces |
| Scores.Segment | Minesweeper/ViewModel/MainViewModel.cs:219 | the definition of `LastOrDefault()` of the pieces, the text after the last marker |
| Scores.RecordRoundTrip | Minesweeper/ViewModel/MainViewModel.cs:219 | the piece after the last marker of a record line is exactly the time written into it |
| Scores.JoinSplit | Minesweeper/ViewModel/MainViewModel.cs:219 | joining the pieces of Split with the marker gives back the line |
| Scores.SplitPiecesAreMarkerFree | Minesweeper/ViewModel/MainViewModel.cs:219 | no piece of Split contains the marker |
| Scores.SegmentOfMarkerFree | Minesweeper/ViewModel/MainViewModel.cs:219 | a line without the marker is one piece, its own segment |
| Scores.Trim | Minesweeper/ViewModel/MainViewModel.cs:221 | the definition of `Trim()`, leading then trailing white space removed; TrimKeepsMiddle states what is kept |
| Scores.TrimKeepsMiddle | Minesweeper/ViewModel/MainViewModel.cs:221 | Trim removes only leading and trailing white space |
| Scores.TrimOfUnpadded | Minesweeper/ViewModel/MainViewModel.cs:221 | a string that neither starts nor ends with white space is unchanged by Trim |
| Scores.ParseMmSs | Minesweeper/ViewModel/MainViewModel.cs:221 | a parsed time is below one hour |
| Scores.FormatMmSs | Minesweeper/ViewModel/MainViewModel.cs:227 | the definition of `ToString(@"mm\:ss")`; ParseFormat, FormatParse and FormatWraps state its properties |
| Scores.ParseFormat | Minesweeper/ViewModel/MainViewModel.cs:221-227 | formatting a time below one hour as mm:ss and parsing it gives the time back |
| Scores.FormatParse | Minesweeper/ViewModel/MainViewModel.cs:221-227 | a string that parses as mm:ss formats back to itself |
| Scores.FormatWraps | Minesweeper/ViewModel/MainViewModel.cs:48 | mm:ss shows the time modulo one hour |
| Scores.FormatZero | Minesweeper/ViewModel/MainViewModel.cs:56 | the reset text "00:00" is the rendering of zero seconds |
| Scores.FormattedTimeIsMarkerFree | Minesweeper/ViewModel/MainViewModel.cs:195 | a formatted time never contains the marker |
| Scores.ParseTimes | Minesweeper/ViewModel/MainViewModel.cs:218-222 | the extracted times are below one hour and no more than the lines; the lemmas below state when the extraction fails and what it keeps |
| Scores.ParseTimesFailsIffMalformed | Minesweeper/ViewModel/MainViewModel.cs:218-222 | the extraction fails exactly when some line has a non-empty segment that does not parse as mm:ss |
| Scores.EmptySegmentsIgnored | Minesweeper/ViewModel/MainViewModel.cs:220 | a line whose segment is empty contributes nothing to the extracted times |
| Scores.MinOf | Minesweeper/ViewModel/MainViewModel.cs:226 | the minimum is one of the times and no time is smaller |
| Scores.LoadedBestTime | Minesweeper/ViewModel/MainViewModel.cs:224-227 | the definition of the result of a load: the formatted minimum when there are times, otherwise (no times, or a malformed line) the old BestTime; the lemmas below state its cases |
| Scores.MalformedLineKeepsBestTime | Minesweeper/ViewModel/MainViewModel.cs:213-230 | a single malformed line anywhere leaves BestTime as it was |
| Scores.NoTimesKeepsBestTime | Minesweeper/ViewModel/MainViewModel.cs:211-224 | a log with no times (including the empty or missing file) leaves BestTime as it was |
| Scores.RecordsParseBack | Minesweeper/ViewModel/MainViewModel.cs:218-222 | the times written by a sequence of SaveScore calls are extracted back in order |
| Scores.BestOfRecords | Minesweeper/ViewModel/MainViewModel.cs:224-227 | over a log of records the best time is the formatted minimum of their times |
| Scores.RecordsSnoc | Minesweeper/ViewModel/MainViewModel.cs:195-199 | appending one more record extends the log by exactly its line |
| Game.SavedWinIsLoadedBack | Minesweeper/ViewModel/MainViewModel.cs:218-227 | a won time saved after earlier records is loaded back as the minimum of all of them |

## Left out

- `DispatcherTimer` and `DateTime.Now` in the tick handler are not modelled as a clock. The timer is the flag `TimerRunning`, and a tick is `Tick(elapsed)` with the elapsed seconds as a parameter. `_startTime` is not modelled.
- The moment `SaveScore` stamps on a record is the `now` parameter of `RevealCell`. It is read once per click, so repeated wins within one click carry the same stamp.
- `MessageBox.Show` is left out because it is presentation only.
- File I/O:
  - `best_times.txt` is the field `ScoreFile`, one entry per line.
  - A missing file reads as no lines.
  - The exceptions caught when writing or reading the file are not modelled.
  - Each record is taken to start a new line. A file whose last line lacks its newline, so that the next record would join it, is not modelled.
- `System.Random` is replaced by the `draws` parameter of `SetupGame`, the successive values of `random.Next(Cells.Count)`. `SetupGame` requires the draws to hit at least 10 distinct cells, without which the source loop never ends.
- The placement loop reads `MinesLeft` on each iteration. The model uses the constant `MineTotal` (10), the value `MinesLeft` holds throughout `SetupGame`.
- `RelayCommand` wiring and `OnPropertyChanged` notifications are left out. They carry no state.
- `Row` and `Column` of a cell have public setters in the source. Only the object initializer in `SetupGame` writes them, so the model makes them constants and does not model a later write.
- `DateTime.Now` is a `Clock`: day 1 to 31, month 1 to 12, year 1 to 9999, hour below 24, minute below 60. Whether a day exists in its month (30-day months, leap years) is not checked. The stamp does not depend on it.
- `Minesweeper/Model/CellModel.cs` is not part of this model. Nothing in the engine uses it.
- `TimeSpan.ParseExact(t, "mm\:ss")` is modelled as exactly two digits, a colon and two digits, each field at most 59. Any other text counts as a parse failure.
- `TimeSpan` values are compared and formatted as total seconds.
- `Char.IsWhiteSpace` is modelled by the list of Unicode white-space characters. There is no other Unicode processing.
- Game.MainViewModel.Tick: the text is computed from a given number of seconds rather than from the difference of two clock readings.

## Behaviour of the code that differs from a plain reading

- A malformed line aborts the whole load. `LoadBestTime` runs its pipeline inside one `try`, so any non-empty segment that fails to parse leaves `BestTime` as it was (`Scores.MalformedLineKeepsBestTime`). This includes a line with no marker, whose whole text is its segment. Malformed lines are not skipped one by one.
- The marker is `"Čas: "`, not an English word.
- A win can be recorded more than once per click. `CheckForWin` runs in every frame of the recursion. Once a nested call has won, outer frames still find the count test true, because the mines are flagged, not revealed. So `GameOver(true)` and `SaveScore` can run again. `RevealCell` states this: after a winning click the log is the old log followed by one or more copies of the record.
- The cascade calls `RevealCell` on every neighbour, flagged or revealed ones included. The guard then ignores those calls.
- `MinesLeft` does not follow the flags.
