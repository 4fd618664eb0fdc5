/** The board as the game engine sees it: the neighbour relation
    (GetNeighbors), rejection-sampled mine placement, neighbour mine counts,
    the win test of CheckForWin, the end-of-game effects of GameOver, and the
    relation between the grid before and after a flood-fill reveal. The state
    of the cells is a sequence of CellState values in the order of the Cells
    collection; positions come from the cells' constant Row and Column. */
module Board {
  import opened CellView

  const Rows := 10
  const Cols := 10
  /** The number of mines SetupGame places (MinesLeft). */
  const MineTotal := 10

  function Abs(x: int): nat {
    if x < 0 then -x else x
  }

  // ---------------------------------------------------------------------
  // Positions and neighbours

  /** The cells are laid out row by row: cell j sits at (j / Cols, j % Cols). */
  ghost predicate RowMajor(cs: seq<Cell>) {
    |cs| == Rows * Cols &&
    forall j {:trigger cs[j].Row} {:trigger cs[j].Column} :: 0 <= j < |cs| ==> cs[j].Row == j / Cols && cs[j].Column == j % Cols
  }

  /** GetNeighbors' filter: at most one row and one column away, and not the cell itself. */
  predicate IsNeighbor(c: Cell, cell: Cell) {
    Abs(c.Row - cell.Row) <= 1 && Abs(c.Column - cell.Column) <= 1 && c != cell
  }

  lemma NeighborSymmetric(a: Cell, b: Cell)
    ensures IsNeighbor(a, b) <==> IsNeighbor(b, a)
  {
  }

  /** The positions, from `from` on, of the cells that neighbour cs[i], in collection order. */
  function NeighborsFrom(cs: seq<Cell>, i: nat, from: nat): (ns: seq<nat>)
    requires i < |cs|
    decreases |cs| - from
    ensures forall k :: 0 <= k < |ns| ==> from <= ns[k] < |cs| && IsNeighbor(cs[ns[k]], cs[i])
    ensures forall j {:trigger IsNeighbor(cs[j], cs[i])} :: from <= j < |cs| && IsNeighbor(cs[j], cs[i]) ==> j in ns
  {
    if from >= |cs| then []
    else if IsNeighbor(cs[from], cs[i]) then [from] + NeighborsFrom(cs, i, from + 1)
    else NeighborsFrom(cs, i, from + 1)
  }

  /** GetNeighbors(cell) for cell cs[i]: the Cells collection filtered to the
      cell's neighbours, so the positions come back in increasing order. */
  function GetNeighbors(cs: seq<Cell>, i: nat): (ns: seq<nat>)
    requires i < |cs|
    ensures forall k :: 0 <= k < |ns| ==> ns[k] < |cs|
  {
    NeighborsFrom(cs, i, 0)
  }

  /** GetNeighbors lists exactly the cells that pass the neighbour filter. */
  lemma NeighborsExactly(cs: seq<Cell>, i: nat)
    requires i < |cs|
    ensures forall j :: j in GetNeighbors(cs, i) <==> 0 <= j < |cs| && IsNeighbor(cs[j], cs[i])
  {
  }

  /** No position occurs twice, and they come in increasing order. */
  predicate Increasing(ns: seq<nat>) {
    forall a, b :: 0 <= a < b < |ns| ==> ns[a] < ns[b]
  }

  /** The positions come back in increasing order, so without repeats. */
  lemma NeighborsIncreasing(cs: seq<Cell>, i: nat)
    requires i < |cs|
    ensures Increasing(GetNeighbors(cs, i))
  {
    assert GetNeighbors(cs, i) == NeighborsFrom(cs, i, 0);
    NeighborsFromIncreasing(cs, i, 0);
  }

  lemma {:induction false} NeighborsFromIncreasing(cs: seq<Cell>, i: nat, from: nat)
    requires i < |cs|
    decreases |cs| - from
    ensures Increasing(NeighborsFrom(cs, i, from))
  {
    if from < |cs| {
      NeighborsFromIncreasing(cs, i, from + 1);
      var rest := NeighborsFrom(cs, i, from + 1);
      if IsNeighbor(cs[from], cs[i]) {
        ConsIncreasing(from, rest);
      }
    }
  }

  /** A value below every element of an increasing sequence extends it at the front. */
  lemma ConsIncreasing(x: nat, rest: seq<nat>)
    requires Increasing(rest) && forall k :: 0 <= k < |rest| ==> x < rest[k]
    ensures Increasing([x] + rest)
  {
    var ns := [x] + rest;
    forall a, b | 0 <= a < b < |ns|
      ensures ns[a] < ns[b]
    {
      assert ns[b] == rest[b - 1];
      if a > 0 {
        assert ns[a] == rest[a - 1];
      }
    }
  }

  /** On the row-major board the neighbours come back in row-major order:
      by row, and by column within a row. */
  lemma NeighborsInRowMajorOrder(cs: seq<Cell>, i: nat)
    requires RowMajor(cs) && i < |cs|
    ensures var ns := GetNeighbors(cs, i);
      forall a, b :: 0 <= a < b < |ns| ==>
        cs[ns[a]].Row < cs[ns[b]].Row
        || (cs[ns[a]].Row == cs[ns[b]].Row && cs[ns[a]].Column < cs[ns[b]].Column)
  {
    var ns := GetNeighbors(cs, i);
    NeighborsIncreasing(cs, i);
    forall a, b | 0 <= a < b < |ns|
      ensures cs[ns[a]].Row < cs[ns[b]].Row
        || (cs[ns[a]].Row == cs[ns[b]].Row && cs[ns[a]].Column < cs[ns[b]].Column)
    {
      var x, y := ns[a], ns[b];
      assert x < y;
      DivModOrder(x, y);
    }
  }

  lemma DivModOrder(x: nat, y: nat)
    requires x < y
    ensures x / Cols < y / Cols || (x / Cols == y / Cols && x % Cols < y % Cols)
  {
  }

  /** The neighbour positions of cell i on the row-major board: the eight
      surrounding positions, minus those that fall off the board. */
  function Surrounding(i: int): set<int> {
    set j | j in Eight(i) && 0 <= j < Rows * Cols && Abs(j / Cols - i / Cols) <= 1 && Abs(j % Cols - i % Cols) <= 1
  }

  /** The distinct positions in a sequence. */
  function Members(ns: seq<nat>): set<int> {
    set j | j in ns
  }

  /** The eight positions around i in a row-major grid, before any are cut off by an edge. */
  function Eight(i: int): set<int> {
    {i - Cols - 1, i - Cols, i - Cols + 1, i - 1, i + 1, i + Cols - 1, i + Cols, i + Cols + 1}
  }

  /** On the row-major board the neighbours of cell i are exactly the
      surrounding positions that lie on the board. */
  lemma NeighborsAreSurrounding(cs: seq<Cell>, i: nat)
    requires RowMajor(cs) && i < |cs|
    ensures Members(GetNeighbors(cs, i)) == Surrounding(i)
  {
    var ns := GetNeighbors(cs, i);
    NeighborsExactly(cs, i);
    forall j | j in ns ensures j in Surrounding(i) {
      NeighborIsSurrounding(cs, i, j);
    }
    forall j | j in Surrounding(i) ensures j in ns {
      SurroundingIsNeighbor(cs, i, j);
    }
  }

  lemma NeighborIsSurrounding(cs: seq<Cell>, i: nat, j: nat)
    requires RowMajor(cs) && i < |cs| && j < |cs| && IsNeighbor(cs[j], cs[i])
    ensures j in Surrounding(i)
  {
    PositionOfNeighbor(cs, i, j);
    OffsetOfNeighbor(i, j);
  }

  lemma SurroundingIsNeighbor(cs: seq<Cell>, i: nat, j: int)
    requires RowMajor(cs) && i < |cs| && j in Surrounding(i)
    ensures 0 <= j < |cs| && IsNeighbor(cs[j], cs[i])
  {
    assert cs[j].Row == j / Cols && cs[j].Column == j % Cols;
    assert cs[i].Row == i / Cols && cs[i].Column == i % Cols;
    assert j != i;
    if cs[j] == cs[i] {
      SamePositionSameIndex(i, j);
    }
  }

  lemma PositionOfNeighbor(cs: seq<Cell>, i: nat, j: nat)
    requires RowMajor(cs) && i < |cs| && j < |cs| && IsNeighbor(cs[j], cs[i])
    ensures i != j && Abs(j / Cols - i / Cols) <= 1 && Abs(j % Cols - i % Cols) <= 1
  {
    assert cs[j].Row == j / Cols && cs[j].Column == j % Cols;
    assert cs[i].Row == i / Cols && cs[i].Column == i % Cols;
  }

  lemma OffsetOfNeighbor(i: int, j: int)
    requires 0 <= i < Rows * Cols && 0 <= j < Rows * Cols && i != j
    requires Abs(j / Cols - i / Cols) <= 1 && Abs(j % Cols - i % Cols) <= 1
    ensures j in Eight(i)
  {
    assert i == Cols * (i / Cols) + i % Cols;
    assert j == Cols * (j / Cols) + j % Cols;
  }

  lemma SamePositionSameIndex(i: int, j: int)
    requires 0 <= i && 0 <= j
    requires i / Cols == j / Cols && i % Cols == j % Cols
    ensures i == j
  {
    assert i == Cols * (i / Cols) + i % Cols;
    assert j == Cols * (j / Cols) + j % Cols;
  }

  /** Every cell has at most eight neighbours, each listed once. */
  lemma NeighborBound(cs: seq<Cell>, i: nat)
    requires RowMajor(cs) && i < |cs|
    ensures |GetNeighbors(cs, i)| == |Members(GetNeighbors(cs, i))| <= 8
  {
    var ns := GetNeighbors(cs, i);
    NeighborsAreSurrounding(cs, i);
    NeighborsIncreasing(cs, i);
    DistinctCard(ns);
    EightCard(i);
    SubsetCard(Members(ns), Eight(i));
  }

  /** The top-left corner has three neighbours: right, below, and diagonally below-right. */
  lemma CornerNeighbors(cs: seq<Cell>)
    requires RowMajor(cs)
    ensures GetNeighbors(cs, 0) == [1, Cols, Cols + 1]
  {
    var ns := GetNeighbors(cs, 0);
    NeighborsAreSurrounding(cs, 0);
    assert Members(ns) == {1, Cols, Cols + 1};
    NeighborsIncreasing(cs, 0);
    DistinctCard(ns);
    assert |ns| == 3;
    assert ns[0] < ns[1] < ns[2];
    assert ns[0] in Members(ns) && ns[1] in Members(ns) && ns[2] in Members(ns);
  }

  /** A cell away from every edge has all eight neighbours. */
  lemma InteriorNeighbors(cs: seq<Cell>, i: nat)
    requires RowMajor(cs) && i < |cs|
    requires 0 < i / Cols < Rows - 1 && 0 < i % Cols < Cols - 1
    ensures |GetNeighbors(cs, i)| == 8
  {
    var ns := GetNeighbors(cs, i);
    NeighborsAreSurrounding(cs, i);
    NeighborsIncreasing(cs, i);
    DistinctCard(ns);
    EightInside(i);
    assert Members(ns) == Eight(i);
    EightCard(i);
  }

  lemma EightCard(i: int)
    ensures |Eight(i)| == 8
  {
  }

  lemma EightInside(i: int)
    requires 0 <= i && 0 < i / Cols < Rows - 1 && 0 < i % Cols < Cols - 1
    ensures Eight(i) <= Surrounding(i)
  {
    var q, r := i / Cols, i % Cols;
    assert i == Cols * q + r;
    forall j | j in Eight(i) ensures j in Surrounding(i) {
      if j == i - Cols - 1 {
        InSurrounding(i, j, q - 1, r - 1);
      } else if j == i - Cols {
        InSurrounding(i, j, q - 1, r);
      } else if j == i - Cols + 1 {
        InSurrounding(i, j, q - 1, r + 1);
      } else if j == i - 1 {
        InSurrounding(i, j, q, r - 1);
      } else if j == i + 1 {
        InSurrounding(i, j, q, r + 1);
      } else if j == i + Cols - 1 {
        InSurrounding(i, j, q + 1, r - 1);
      } else if j == i + Cols {
        InSurrounding(i, j, q + 1, r);
      } else {
        InSurrounding(i, j, q + 1, r + 1);
      }
    }
  }

  /** A position of Eight(i) on the board, at row q and column r next to i's,
      is one of the surrounding positions. */
  lemma InSurrounding(i: int, j: int, q: int, r: int)
    requires 0 <= i && 0 <= r < Cols && j == Cols * q + r && j in Eight(i) && 0 <= j < Rows * Cols
    requires Abs(q - i / Cols) <= 1 && Abs(r - i % Cols) <= 1
    ensures j in Surrounding(i)
  {
    DivModUnique(j, q, r);
  }

  lemma DivModUnique(j: int, q: int, r: int)
    requires 0 <= r < Cols && j == Cols * q + r
    ensures j / Cols == q && j % Cols == r
  {
  }

  /** How many entries of ns lie in s, counted from the front. */
  function CountIn(ns: seq<nat>, s: set<int>): nat {
    if ns == [] then 0 else CountIn(ns[..|ns| - 1], s) + (if ns[|ns| - 1] in s then 1 else 0)
  }

  /** Counting a strictly increasing sequence's entries that lie in s is the
      size of the part of s it covers. */
  lemma {:induction false} CountInIsCard(ns: seq<nat>, s: set<int>)
    requires Increasing(ns)
    ensures CountIn(ns, s) == |Members(ns) * s|
  {
    if ns != [] {
      var init, last := ns[..|ns| - 1], ns[|ns| - 1];
      IncreasingInit(ns);
      CountInIsCard(init, s);
      assert ns == init + [last];
      assert Members(ns) == Members(init) + {last};
      CardAddOne(Members(init), s, last);
    } else {
      assert Members(ns) * s == {};
    }
  }

  /** Dropping the last entry keeps a sequence increasing, and that entry is
      not among the others. */
  lemma IncreasingInit(ns: seq<nat>)
    requires Increasing(ns) && ns != []
    ensures Increasing(ns[..|ns| - 1]) && ns[|ns| - 1] !in Members(ns[..|ns| - 1])
  {
    var init := ns[..|ns| - 1];
    assert forall k :: 0 <= k < |init| ==> init[k] == ns[k];
  }

  /** Adding a new element to a set grows its part in s by one exactly when
      the element lies in s. */
  lemma CardAddOne(a: set<int>, s: set<int>, x: int)
    requires x !in a
    ensures |(a + {x}) * s| == |a * s| + (if x in s then 1 else 0)
  {
    if x in s {
      assert (a + {x}) * s == a * s + {x};
    } else {
      assert (a + {x}) * s == a * s;
    }
  }

  /** A strictly increasing sequence has as many distinct elements as it is long. */
  lemma {:induction false} DistinctCard(ns: seq<nat>)
    requires Increasing(ns)
    ensures |Members(ns)| == |ns|
  {
    if ns != [] {
      var init, last := ns[..|ns| - 1], ns[|ns| - 1];
      IncreasingInit(ns);
      DistinctCard(init);
      assert ns == init + [last];
      assert Members(ns) == Members(init) + {last};
    } else {
      assert Members(ns) == {};
    }
  }

  lemma SubsetCard<T>(a: set<T>, b: set<T>)
    requires a <= b
    ensures |a| <= |b|
    ensures |a| == |b| ==> a == b
  {
    var d := b - a;
    assert a + d == b;
    assert a * d == {};
    if |a| == |b| {
      assert d == {};
    }
  }

  // ---------------------------------------------------------------------
  // Mine placement

  /** The distinct values a draw sequence hits. */
  function Hits(draws: seq<int>): set<int> {
    set k | 0 <= k < |draws| :: draws[k]
  }

  lemma HitsCons(draws: seq<int>)
    requires draws != []
    ensures Hits(draws) == {draws[0]} + Hits(draws[1..])
  {
    var rest := draws[1..];
    forall x | x in Hits(draws) ensures x in {draws[0]} + Hits(rest) {
      var k :| 0 <= k < |draws| && draws[k] == x;
      if k > 0 {
        assert rest[k - 1] == x;
      }
    }
    forall x | x in Hits(rest) ensures x in Hits(draws) {
      var k :| 0 <= k < |rest| && rest[k] == x;
      assert draws[k + 1] == x;
    }
  }

  /** While fewer than MineTotal mines are placed and the remaining draws
      can still complete them, a draw remains. */
  lemma DrawsLeft(draws: seq<int>, k: nat, placed: set<int>)
    requires k <= |draws| && |placed| < MineTotal
    requires |placed + Hits(draws[k..])| >= MineTotal
    ensures k < |draws|
  {
    var h := Hits(draws[k..]);
    assert placed + h != placed;
  }

  /** Rejection sampling: walk the draws, marking each drawn cell a mine, and
      stop as soon as MineTotal distinct cells are mines. */
  function Place(draws: seq<int>, placed: set<int>): set<int>
    decreases |draws|
  {
    if |placed| >= MineTotal || draws == [] then placed
    else Place(draws[1..], placed + {draws[0]})
  }

  /** One step of the placement loop, with fewer than MineTotal placed. */
  lemma PlaceStep(draws: seq<int>, k: nat, placed: set<int>)
    requires k < |draws| && |placed| < MineTotal
    ensures Place(draws[k..], placed) == Place(draws[k + 1..], placed + {draws[k]})
    ensures placed + {draws[k]} + Hits(draws[k + 1..]) == placed + Hits(draws[k..])
  {
    assert draws[k..][1..] == draws[k + 1..];
    HitsCons(draws[k..]);
  }

  /** What the placement loop keeps after k draws, `placed` being the mines
      so far: the remaining draws finish the same placement as the whole
      sequence, and they still hit enough cells. */
  predicate PlacingFrom(draws: seq<int>, k: nat, placed: set<int>) {
    k <= |draws| && Place(draws[k..], placed) == Place(draws, {}) && |placed + Hits(draws[k..])| >= MineTotal
  }

  lemma PlacingStarts(draws: seq<int>)
    requires |Hits(draws)| >= MineTotal
    ensures PlacingFrom(draws, 0, {})
  {
    assert draws[0..] == draws;
  }

  /** While fewer than MineTotal mines are placed there is a draw left, and
      taking it keeps the loop's promise. */
  lemma PlacingAdvances(draws: seq<int>, k: nat, placed: set<int>)
    requires PlacingFrom(draws, k, placed) && |placed| < MineTotal
    ensures k < |draws| && PlacingFrom(draws, k + 1, placed + {draws[k]})
  {
    DrawsLeft(draws, k, placed);
    PlaceStep(draws, k, placed);
  }

  /** Once MineTotal mines are placed, they are the whole placement. */
  lemma PlacingEnds(draws: seq<int>, k: nat, placed: set<int>)
    requires PlacingFrom(draws, k, placed) && |placed| >= MineTotal
    ensures placed == Place(draws, {})
  {
  }

  /** Placement stops at exactly MineTotal mines, all of them drawn cells, as
      long as the draws hit enough distinct cells. */
  lemma {:induction false} PlaceCount(draws: seq<int>, placed: set<int>)
    requires |placed| <= MineTotal
    requires |placed + Hits(draws)| >= MineTotal
    ensures |Place(draws, placed)| == MineTotal
    ensures placed <= Place(draws, placed) <= placed + Hits(draws)
    decreases |draws|
  {
    if |placed| < MineTotal {
      if draws != [] {
        var rest := draws[1..];
        var next := placed + {draws[0]};
        HitsCons(draws);
        assert next + Hits(rest) == placed + Hits(draws);
        PlaceCount(rest, next);
      }
    }
  }

  // ---------------------------------------------------------------------
  // Counts

  function MineSet(g: seq<CellState>): set<int> {
    set j | 0 <= j < |g| && g[j].mine
  }

  /** The cells not yet revealed (CheckForWin's hiddenCells). */
  function HiddenSet(g: seq<CellState>): set<int> {
    set j | 0 <= j < |g| && !g[j].revealed
  }

  /** The hidden cells, and the mines, among the first k cells. */
  function HiddenBelow(g: seq<CellState>, k: int): set<int> {
    set j | 0 <= j < k && j < |g| && !g[j].revealed
  }

  function MinesBelow(g: seq<CellState>, k: int): set<int> {
    set j | 0 <= j < k && j < |g| && g[j].mine
  }

  lemma HiddenBelowStep(g: seq<CellState>, k: nat)
    requires k < |g|
    ensures |HiddenBelow(g, k + 1)| == |HiddenBelow(g, k)| + (if g[k].revealed then 0 else 1)
  {
    if g[k].revealed {
      assert HiddenBelow(g, k + 1) == HiddenBelow(g, k);
    } else {
      assert HiddenBelow(g, k + 1) == HiddenBelow(g, k) + {k};
    }
  }

  lemma MinesBelowStep(g: seq<CellState>, k: nat)
    requires k < |g|
    ensures |MinesBelow(g, k + 1)| == |MinesBelow(g, k)| + (if g[k].mine then 1 else 0)
  {
    var before, after := MinesBelow(g, k), MinesBelow(g, k + 1);
    assert k !in before;
    if g[k].mine {
      assert after == before + {k};
    } else {
      assert after == before;
    }
  }

  /** `GetNeighbors(cell).Count(c => c.IsMine)` for cell cs[i], with the mines given by position. */
  function MinesAround(cs: seq<Cell>, mines: set<int>, i: nat): nat
    requires i < |cs|
  {
    |Members(GetNeighbors(cs, i)) * mines|
  }

  /** The count is the number of mines among the other cells at most one row
      and one column away, and on the row-major board it is at most eight. */
  lemma MinesAroundMeaning(cs: seq<Cell>, mines: set<int>, i: nat)
    requires i < |cs|
    ensures MinesAround(cs, mines, i) == |set j | 0 <= j < |cs| && j in mines && IsNeighbor(cs[j], cs[i])|
    ensures RowMajor(cs) ==> MinesAround(cs, mines, i) <= 8
    ensures MinesAround(cs, mines, i) == 0 <==> forall j :: 0 <= j < |cs| && IsNeighbor(cs[j], cs[i]) ==> j !in mines
  {
    var ns := GetNeighbors(cs, i);
    var around := Members(ns) * mines;
    assert around == set j | 0 <= j < |cs| && j in mines && IsNeighbor(cs[j], cs[i]);
    if RowMajor(cs) {
      NeighborBound(cs, i);
      SubsetCard(around, Members(ns));
    }
    if MinesAround(cs, mines, i) == 0 {
      assert around == {};
      forall j | 0 <= j < |cs| && IsNeighbor(cs[j], cs[i]) ensures j !in mines {
        assert j in ns;
        assert j !in around;
      }
    }
    if forall j :: 0 <= j < |cs| && IsNeighbor(cs[j], cs[i]) ==> j !in mines {
      assert around == {};
    }
  }

  /** Every cell's NeighborMines is its number of neighbouring mines. */
  ghost predicate CountsConsistent(cs: seq<Cell>, g: seq<CellState>)
    requires |cs| == |g|
  {
    forall i {:trigger MinesAround(cs, MineSet(g), i)} :: 0 <= i < |cs| ==> g[i].neighborMines == MinesAround(cs, MineSet(g), i)
  }

  /** A board as SetupGame leaves it, as far as what never changes afterwards:
      the layout, MineTotal mines and consistent neighbour counts. */
  ghost predicate BoardReady(cs: seq<Cell>, g: seq<CellState>) {
    |cs| == |g| && RowMajor(cs) && |MineSet(g)| == MineTotal && CountsConsistent(cs, g)
  }

  /** CheckForWin's test: as many hidden cells as mines. */
  predicate Won(g: seq<CellState>) {
    |HiddenSet(g)| == |MineSet(g)|
  }

  predicate MinesHidden(g: seq<CellState>) {
    forall j :: 0 <= j < |g| && g[j].mine ==> !g[j].revealed
  }

  /** While the game runs, a revealed cell is neither a mine nor flagged. */
  predicate ActiveInvariant(g: seq<CellState>) {
    forall j :: 0 <= j < |g| && g[j].revealed ==> !g[j].mine && !g[j].flagged
  }

  /** With every mine still hidden, CheckForWin's count test holds exactly
      when every safe cell is revealed. */
  lemma WonIffSafeRevealed(g: seq<CellState>)
    requires MinesHidden(g)
    ensures Won(g) <==> forall j :: 0 <= j < |g| && !g[j].mine ==> g[j].revealed
  {
    assert MineSet(g) <= HiddenSet(g);
    SubsetCard(MineSet(g), HiddenSet(g));
    if forall j :: 0 <= j < |g| && !g[j].mine ==> g[j].revealed {
      assert MineSet(g) == HiddenSet(g);
    }
    if Won(g) {
      forall j | 0 <= j < |g| && !g[j].mine ensures g[j].revealed {
        assert j !in MineSet(g);
      }
    }
  }

  // ---------------------------------------------------------------------
  // GameOver

  /** Loss: every mine is revealed. */
  function RevealMines(g: seq<CellState>): seq<CellState> {
    seq(|g|, j requires 0 <= j < |g| => if g[j].mine then g[j].(revealed := true) else g[j])
  }

  /** Win: every mine is flagged. */
  function FlagMines(g: seq<CellState>): seq<CellState> {
    seq(|g|, j requires 0 <= j < |g| => if g[j].mine then g[j].(flagged := true) else g[j])
  }

  /** Making cell d a mine adds d to the mines. */
  lemma MineSetAdd(g: seq<CellState>, d: nat)
    requires d < |g|
    ensures MineSet(g[d := g[d].(mine := true)]) == MineSet(g) + {d}
  {
  }

  /** Filling in every neighbour count of an untouched board with MineTotal
      mines gives a ready board on which a game can start. */
  lemma CountedBoardReady(cs: seq<Cell>, before: seq<CellState>, after: seq<CellState>)
    requires |cs| == |before| == |after| && RowMajor(cs)
    requires Untouched(before) && |MineSet(before)| == MineTotal
    requires forall j :: 0 <= j < |after| ==>
      after[j] == before[j].(neighborMines := MinesAround(cs, MineSet(before), j))
    ensures MineSet(after) == MineSet(before)
    ensures BoardReady(cs, after) && Untouched(after) && ActiveInvariant(after)
  {
    assert MineSet(after) == MineSet(before);
  }

  /** Rewriting a neighbour count moves no mine. */
  lemma MineSetKeptByCount(g: seq<CellState>, i: nat, c: int)
    requires i < |g|
    ensures MineSet(g[i := g[i].(neighborMines := c)]) == MineSet(g)
  {
  }

  /** No cell revealed and none flagged: a board as SetupGame leaves it. */
  predicate Untouched(g: seq<CellState>) {
    forall j :: 0 <= j < |g| ==> !g[j].revealed && !g[j].flagged
  }

  /** No neighbour count has been set yet: every count is still 0. */
  predicate Uncounted(g: seq<CellState>) {
    forall j :: 0 <= j < |g| ==> g[j].neighborMines == 0
  }

  lemma UntouchedAfterMine(g: seq<CellState>, d: nat)
    requires d < |g| && Untouched(g)
    ensures Untouched(g[d := g[d].(mine := true)])
  {
  }

  /** Mines and counts unchanged. */
  predicate SameLayout(o: seq<CellState>, g: seq<CellState>) {
    |o| == |g| && forall j :: 0 <= j < |g| ==> g[j].mine == o[j].mine && g[j].neighborMines == o[j].neighborMines
  }

  lemma SameLayoutKeepsBoard(cs: seq<Cell>, o: seq<CellState>, g: seq<CellState>)
    requires SameLayout(o, g)
    ensures MineSet(g) == MineSet(o)
    ensures BoardReady(cs, o) ==> BoardReady(cs, g)
  {
    assert MineSet(g) == MineSet(o);
  }

  /** A loss reveals exactly the mines: safe cells keep their state, and no flag moves. */
  lemma LossRevealsEveryMine(g: seq<CellState>)
    ensures var r := RevealMines(g);
      SameLayout(g, r) && forall j :: 0 <= j < |g| ==>
        r[j].revealed == (g[j].revealed || g[j].mine) && r[j].flagged == g[j].flagged
        && (!g[j].mine ==> r[j] == g[j])
  {
  }

  /** A win flags exactly the mines and reveals nothing: every mine stays
      hidden when it was, and flagging twice is flagging once. */
  lemma WinFlagsEveryMine(g: seq<CellState>)
    ensures var r := FlagMines(g);
      SameLayout(g, r) && HiddenSet(r) == HiddenSet(g) && FlagMines(r) == r
      && forall j :: 0 <= j < |g| ==>
        r[j].flagged == (g[j].flagged || g[j].mine) && r[j].revealed == g[j].revealed
  {
    var r := FlagMines(g);
    assert HiddenSet(r) == HiddenSet(g);
  }

  // ---------------------------------------------------------------------
  // RevealCell: the grid before (o) and after (g) one click

  /** Revealed and flagged cells stay so, and the layout does not change. */
  predicate Grows(o: seq<CellState>, g: seq<CellState>) {
    SameLayout(o, g) &&
    forall j :: 0 <= j < |g| ==> (o[j].revealed ==> g[j].revealed) && (o[j].flagged ==> g[j].flagged)
  }

  /** Cell j was hidden before and is revealed after. */
  predicate Opened(o: seq<CellState>, g: seq<CellState>, j: int) {
    0 <= j < |o| && j < |g| && !o[j].revealed && g[j].revealed
  }

  /** `order` lists the cells the reveal opened in an order the flood fill
      could have opened them: it starts at the clicked cell `root`, holds every
      opened cell, and each later entry is a neighbour of an earlier entry
      with no mine around it. */
  ghost predicate OpeningOrder(cs: seq<Cell>, o: seq<CellState>, g: seq<CellState>, root: int, order: seq<int>)
    requires |cs| == |g|
  {
    |order| > 0 && order[0] == root
    && (forall t :: 0 <= t < |order| ==> Opened(o, g, order[t]))
    && (forall j :: Opened(o, g, j) ==> j in order)
    && (forall t :: 0 < t < |order| ==> FedAt(cs, g, order, t))
  }

  /** Entry t of `order` is a neighbour of an earlier entry with no mine around it. */
  ghost predicate FedAt(cs: seq<Cell>, g: seq<CellState>, order: seq<int>, t: int)
    requires |cs| == |g| && 0 <= t < |order| && 0 <= order[t] < |g|
  {
    exists s :: 0 <= s < t && 0 <= order[s] < |g| && g[order[s]].neighborMines == 0 && IsNeighbor(cs[order[t]], cs[order[s]])
  }

  /** Every cell the reveal opened is safe and was not flagged, and the
      opened cells are reached from `root` through opened cells with no mine
      around them. */
  ghost predicate OnlyReachable(cs: seq<Cell>, o: seq<CellState>, g: seq<CellState>, root: int)
    requires |cs| == |g|
  {
    (forall j :: Opened(o, g, j) ==> !g[j].mine && !o[j].flagged)
    && exists order :: OpeningOrder(cs, o, g, root, order)
  }

  /** Every neighbour of an opened cell with no mine around it, except around
      `except`, is revealed or flagged: the flood fill left no gap. */
  ghost predicate ClosedExcept(cs: seq<Cell>, o: seq<CellState>, g: seq<CellState>, except: int)
    requires |cs| == |g|
  {
    forall j, k {:trigger IsNeighbor(cs[k], cs[j])} ::
      Opened(o, g, j) && j != except && g[j].neighborMines == 0 && 0 <= k < |cs| && IsNeighbor(cs[k], cs[j])
      ==> g[k].revealed || g[k].flagged
  }

  /** A flag changes only when the game is won, and then every mine gets one. */
  predicate FlagsAfter(o: seq<CellState>, g: seq<CellState>, won: bool)
    requires |o| == |g|
  {
    forall j :: 0 <= j < |g| ==> g[j].flagged == (o[j].flagged || (won && g[j].mine))
  }

  /** The state of a reveal of the safe cell `root` part way through its
      cascade; `won` is whether a nested reveal has already won the game. */
  ghost predicate PartialReveal(cs: seq<Cell>, o: seq<CellState>, g: seq<CellState>, root: int, won: bool)
  {
    |cs| == |o| && Grows(o, g) && Opened(o, g, root) && OnlyReachable(cs, o, g, root)
    && ClosedExcept(cs, o, g, root) && MinesHidden(g) && (won ==> Won(g)) && FlagsAfter(o, g, won)
  }

  /** What a completed reveal of the safe cell `root` does: it opens root and
      a flood-filled region around it (nothing outside it, no mine and no
      flagged cell), leaves no hidden unflagged neighbour of an opened
      zero-count cell, and wins exactly when CheckForWin's test holds, in
      which case every mine is flagged. */
  ghost predicate SafeReveal(cs: seq<Cell>, o: seq<CellState>, g: seq<CellState>, root: int, won: bool)
  {
    |cs| == |o| && Grows(o, g) && Opened(o, g, root) && OnlyReachable(cs, o, g, root)
    && ClosedExcept(cs, o, g, -1) && MinesHidden(g) && won == Won(g) && FlagsAfter(o, g, won)
  }

  /** Every cell listed in `ks` is revealed or flagged. */
  predicate Covered(g: seq<CellState>, ks: seq<nat>) {
    forall k :: k in ks ==> k < |g| && (g[k].revealed || g[k].flagged)
  }

  /** A growing board keeps covered cells covered. */
  lemma CoveredGrows(g1: seq<CellState>, g2: seq<CellState>, ks: seq<nat>, n: nat)
    requires Covered(g1, ks) && Grows(g1, g2) && n < |g2| && (g2[n].revealed || g2[n].flagged)
    ensures Covered(g2, ks + [n])
  {
  }

  /** Opening a hidden cell shrinks the hidden set: the cascade terminates. */
  lemma OpeningShrinksHidden(o: seq<CellState>, g: seq<CellState>, root: int)
    requires Grows(o, g) && Opened(o, g, root)
    ensures HiddenSet(g) < HiddenSet(o)
  {
    assert root in HiddenSet(o) && root !in HiddenSet(g);
  }

  /** Revealing the clicked safe cell starts a partial reveal. */
  lemma StartReveal(cs: seq<Cell>, o: seq<CellState>, root: nat)
    requires |cs| == |o| && root < |o| && ActiveInvariant(o)
    requires !o[root].revealed && !o[root].flagged && !o[root].mine
    ensures PartialReveal(cs, o, o[root := o[root].(revealed := true)], root, false)
  {
    var g := o[root := o[root].(revealed := true)];
    assert OpeningOrder(cs, o, g, root, [root]);
  }

  /** The neighbours of a cell with no mine around it are safe. */
  lemma ZeroCountNeighborSafe(cs: seq<Cell>, g: seq<CellState>, i: nat, n: nat)
    requires |cs| == |g| && CountsConsistent(cs, g) && i < |cs| && n < |cs|
    requires g[i].neighborMines == 0 && IsNeighbor(cs[n], cs[i])
    ensures !g[n].mine
  {
    MinesAroundMeaning(cs, MineSet(g), i);
  }

  /** A nested reveal of the neighbour n of the zero-count root extends the
      partial reveal of root: either it changed nothing, or it was itself a
      complete safe reveal starting while the game still ran. */
  lemma ExtendReveal(cs: seq<Cell>, o: seq<CellState>, g1: seq<CellState>, g2: seq<CellState>,
                     root: nat, n: nat, won1: bool, won2: bool)
    requires PartialReveal(cs, o, g1, root, won1)
    requires g1[root].neighborMines == 0 && n < |cs| && IsNeighbor(cs[n], cs[root])
    requires (g2 == g1 && won2 == won1) || (!won1 && SafeReveal(cs, g1, g2, n, won2))
    ensures PartialReveal(cs, o, g2, root, won2)
  {
    if g2 != g1 || won2 != won1 {
      assert Grows(o, g2);
      var order1 :| OpeningOrder(cs, o, g1, root, order1);
      var order2 :| OpeningOrder(cs, g1, g2, n, order2);
      OrderConcat(cs, o, g1, g2, root, n, order1, order2);
      forall j | Opened(o, g2, j)
        ensures !g2[j].mine && !o[j].flagged
      {
        if !Opened(o, g1, j) {
          assert Opened(g1, g2, j);
        }
      }
      forall j, k | Opened(o, g2, j) && j != root && g2[j].neighborMines == 0 && 0 <= k < |cs| && IsNeighbor(cs[k], cs[j])
        ensures g2[k].revealed || g2[k].flagged
      {
        if !Opened(o, g1, j) {
          assert Opened(g1, g2, j);
        }
      }
    }
  }

  /** The opening order of the outer reveal followed by that of a nested
      reveal of a neighbour n of the zero-count root is an opening order of
      the two together. */
  lemma OrderConcat(cs: seq<Cell>, o: seq<CellState>, g1: seq<CellState>, g2: seq<CellState>,
                    root: int, n: int, order1: seq<int>, order2: seq<int>)
    requires |cs| == |o| && Grows(o, g1) && Grows(g1, g2)
    requires OpeningOrder(cs, o, g1, root, order1) && OpeningOrder(cs, g1, g2, n, order2)
    requires g1[root].neighborMines == 0 && IsNeighbor(cs[n], cs[root])
    ensures OpeningOrder(cs, o, g2, root, order1 + order2)
  {
    var order := order1 + order2;
    forall t | 0 <= t < |order|
      ensures Opened(o, g2, order[t])
    {
      ConcatOpened(cs, o, g1, g2, root, n, order1, order2, t);
    }
    forall j | Opened(o, g2, j)
      ensures j in order
    {
      if g1[j].revealed {
        assert Opened(o, g1, j) && j in order1;
      } else {
        assert Opened(g1, g2, j) && j in order2;
      }
    }
    forall t | 0 < t < |order|
      ensures FedAt(cs, g2, order, t)
    {
      ConcatFed(cs, o, g1, g2, root, n, order1, order2, t);
    }
  }

  /** Each entry of the joined order is opened by the two reveals together. */
  lemma ConcatOpened(cs: seq<Cell>, o: seq<CellState>, g1: seq<CellState>, g2: seq<CellState>,
                     root: int, n: int, order1: seq<int>, order2: seq<int>, t: int)
    requires |cs| == |o| && Grows(o, g1) && Grows(g1, g2)
    requires OpeningOrder(cs, o, g1, root, order1) && OpeningOrder(cs, g1, g2, n, order2)
    requires 0 <= t < |order1 + order2|
    ensures Opened(o, g2, (order1 + order2)[t])
  {
    var m := |order1|;
    if t < m {
      assert (order1 + order2)[t] == order1[t] && Opened(o, g1, order1[t]);
    } else {
      assert (order1 + order2)[t] == order2[t - m] && Opened(g1, g2, order2[t - m]);
    }
  }

  /** Each later entry of the joined order has an earlier zero-count neighbour. */
  lemma ConcatFed(cs: seq<Cell>, o: seq<CellState>, g1: seq<CellState>, g2: seq<CellState>,
                  root: int, n: int, order1: seq<int>, order2: seq<int>, t: int)
    requires |cs| == |o| && Grows(o, g1) && Grows(g1, g2)
    requires OpeningOrder(cs, o, g1, root, order1) && OpeningOrder(cs, g1, g2, n, order2)
    requires g1[root].neighborMines == 0 && IsNeighbor(cs[n], cs[root])
    requires 0 < t < |order1 + order2| && 0 <= (order1 + order2)[t] < |g2|
    ensures FedAt(cs, g2, order1 + order2, t)
  {
    var order := order1 + order2;
    var m := |order1|;
    if t < m {
      assert FedAt(cs, g1, order1, t);
      var s :| 0 <= s < t && 0 <= order1[s] < |g1| && g1[order1[s]].neighborMines == 0 && IsNeighbor(cs[order1[t]], cs[order1[s]]);
      assert order[s] == order1[s] && order[t] == order1[t];
      assert g2[order[s]].neighborMines == 0;
    } else if t == m {
      assert order[0] == root && order[t] == n;
      assert Opened(o, g1, root) && g2[root].neighborMines == 0;
    } else {
      assert FedAt(cs, g2, order2, t - m);
      var s :| 0 <= s < t - m && 0 <= order2[s] < |g2| && g2[order2[s]].neighborMines == 0 && IsNeighbor(cs[order2[t - m]], cs[order2[s]]);
      assert order[s + m] == order2[s] && order[t] == order2[t - m];
    }
  }

  /** An opening order stays one when only flags change. */
  lemma OrderKeptByFlags(cs: seq<Cell>, o: seq<CellState>, g: seq<CellState>, r: seq<CellState>,
                         root: int, order: seq<int>)
    requires |cs| == |g| == |r| && OpeningOrder(cs, o, g, root, order)
    requires forall j :: 0 <= j < |g| ==> r[j].revealed == g[j].revealed && r[j].neighborMines == g[j].neighborMines
    ensures OpeningOrder(cs, o, r, root, order)
  {
    assert forall j :: Opened(o, r, j) <==> Opened(o, g, j);
    forall t | 0 < t < |order|
      ensures FedAt(cs, r, order, t)
    {
      assert FedAt(cs, g, order, t);
      var s :| 0 <= s < t && 0 <= order[s] < |g| && g[order[s]].neighborMines == 0 && IsNeighbor(cs[order[t]], cs[order[s]]);
      assert r[order[s]].neighborMines == 0;
    }
  }

  /** After the loop over root's neighbours (each revealed, flagged, or the
      game already won) and CheckForWin (which flags every mine on a win), the
      partial reveal of root is complete. */
  lemma FinishReveal(cs: seq<Cell>, o: seq<CellState>, g: seq<CellState>, root: nat, won: bool)
    requires PartialReveal(cs, o, g, root, won)
    requires g[root].neighborMines == 0 ==> CountsConsistent(cs, g)
    requires g[root].neighborMines == 0 ==>
      forall k :: 0 <= k < |cs| && IsNeighbor(cs[k], cs[root]) ==> g[k].revealed || g[k].flagged || won
    requires g[root].neighborMines != 0 ==> !won && forall j :: Opened(o, g, j) ==> j == root
    ensures SafeReveal(cs, o, if Won(g) then FlagMines(g) else g, root, Won(g))
  {
    WonIffSafeRevealed(g);
    forall k | 0 <= k < |cs| && IsNeighbor(cs[k], cs[root]) && g[root].neighborMines == 0
      ensures g[k].revealed || g[k].flagged
    {
      if won {
        ZeroCountNeighborSafe(cs, g, root, k);
      }
    }
    if Won(g) {
      var r := FlagMines(g);
      WinFlagsEveryMine(g);
      assert forall j :: Opened(o, r, j) <==> Opened(o, g, j);
      assert Grows(o, r);
      assert OnlyReachable(cs, o, r, root) by {
        var order :| OpeningOrder(cs, o, g, root, order);
        OrderKeptByFlags(cs, o, g, r, root, order);
      }
      assert MineSet(r) == MineSet(g);
      assert Won(r);
    }
  }

  /** A click on a safe cell with a mine around it opens that cell only. */
  lemma NumberedClickOpensOnlyIt(cs: seq<Cell>, o: seq<CellState>, g: seq<CellState>, root: int, won: bool)
    requires SafeReveal(cs, o, g, root, won) && g[root].neighborMines != 0
    ensures forall j :: Opened(o, g, j) <==> j == root
  {
    var order :| OpeningOrder(cs, o, g, root, order);
    OrderOfNumberedRoot(cs, o, g, root, order);
  }

  /** No cell follows a root with a mine around it in an opening order. */
  lemma OrderOfNumberedRoot(cs: seq<Cell>, o: seq<CellState>, g: seq<CellState>, root: int, order: seq<int>)
    requires |cs| == |g| && OpeningOrder(cs, o, g, root, order) && 0 <= root < |g| && g[root].neighborMines != 0
    ensures order == [root]
  {
    assert |order| > 1 ==> !FedAt(cs, g, order, 1);
    assert |order| == 1;
  }

  /** Every cell that one safe reveal of root opens, another safe reveal of
      root from the same board opens too: entry t of the first one's opening
      order is reached in the second by induction on t. */
  lemma {:induction false} OpenedInBoth(cs: seq<Cell>, o: seq<CellState>, g1: seq<CellState>, g2: seq<CellState>,
                                        root: int, won1: bool, won2: bool, order: seq<int>, t: int)
    requires SafeReveal(cs, o, g1, root, won1) && SafeReveal(cs, o, g2, root, won2)
    requires OpeningOrder(cs, o, g1, root, order) && 0 <= t < |order|
    ensures Opened(o, g2, order[t])
    decreases t
  {
    if t > 0 {
      assert FedAt(cs, g1, order, t);
      var s :| 0 <= s < t && 0 <= order[s] < |g1| && g1[order[s]].neighborMines == 0 && IsNeighbor(cs[order[t]], cs[order[s]]);
      OpenedInBoth(cs, o, g1, g2, root, won1, won2, order, s);
      var j, k := order[s], order[t];
      assert Opened(o, g1, j) && Opened(o, g1, k);
      assert g2[j].neighborMines == 0 && !g2[k].mine && !o[k].flagged;
      assert !g2[k].flagged;
    }
  }

  /** What a click on a safe cell does is determined by the board before it:
      two complete safe reveals of the same cell from the same board are the
      same board and agree on whether the game was won. So the flood region
      is all a click opens. */
  lemma SafeRevealIsUnique(cs: seq<Cell>, o: seq<CellState>, g1: seq<CellState>, g2: seq<CellState>,
                           root: int, won1: bool, won2: bool)
    requires SafeReveal(cs, o, g1, root, won1) && SafeReveal(cs, o, g2, root, won2)
    ensures g1 == g2 && won1 == won2
  {
    var order1 :| OpeningOrder(cs, o, g1, root, order1);
    var order2 :| OpeningOrder(cs, o, g2, root, order2);
    forall j | Opened(o, g1, j)
      ensures Opened(o, g2, j)
    {
      var t :| 0 <= t < |order1| && order1[t] == j;
      OpenedInBoth(cs, o, g1, g2, root, won1, won2, order1, t);
    }
    forall j | Opened(o, g2, j)
      ensures Opened(o, g1, j)
    {
      var t :| 0 <= t < |order2| && order2[t] == j;
      OpenedInBoth(cs, o, g2, g1, root, won2, won1, order2, t);
    }
    SameRevealedSameBoard(o, g1, g2, won1, won2);
  }

  /** Two boards grown from o that reveal the same cells agree everywhere. */
  lemma SameRevealedSameBoard(o: seq<CellState>, g1: seq<CellState>, g2: seq<CellState>, won1: bool, won2: bool)
    requires Grows(o, g1) && Grows(o, g2) && won1 == Won(g1) && won2 == Won(g2)
    requires FlagsAfter(o, g1, won1) && FlagsAfter(o, g2, won2)
    requires forall j :: Opened(o, g1, j) <==> Opened(o, g2, j)
    ensures g1 == g2 && won1 == won2
  {
    assert forall j :: 0 <= j < |g1| ==> g1[j].revealed == g2[j].revealed by {
      forall j | 0 <= j < |g1|
        ensures g1[j].revealed == g2[j].revealed
      {
        if !o[j].revealed {
          assert Opened(o, g1, j) <==> Opened(o, g2, j);
        }
      }
    }
    assert HiddenSet(g1) == HiddenSet(g2);
    assert MineSet(g1) == MineSet(g2);
    assert forall j :: 0 <= j < |g1| ==> g1[j] == g2[j];
  }

  /** A safe reveal that does not win keeps the running game's invariant. */
  lemma SafeRevealKeepsActiveInvariant(cs: seq<Cell>, o: seq<CellState>, g: seq<CellState>, root: int)
    requires ActiveInvariant(o) && SafeReveal(cs, o, g, root, false)
    ensures ActiveInvariant(g)
  {
  }
}
