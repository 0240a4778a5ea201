/**
 * The board rules of the tic-tac-toe service: the 3x3 board of integer cells, the
 * win test `endGame`, and the search the computer opponent runs to find a cell that
 * would complete a line (`obtainsMovement`), together with the move choice built on
 * it (`cpuPlay`).
 */
module Rules {
  import opened Wrappers

  const BOARD_SIZE: int := 3
  const X: int := 1
  const O: int := 2
  const EMPTY: int := 0

  /** A (row, column) position on the board. */
  type Coord = (int, int)

  /** The board as the service sees it: `board[row][column]`. */
  type Grid = seq<seq<int>>

  predicate IsGrid(g: Grid) {
    |g| == BOARD_SIZE && forall row :: 0 <= row < BOARD_SIZE ==> |g[row]| == BOARD_SIZE
  }

  predicate InRange(row: int, column: int) {
    0 <= row < BOARD_SIZE && 0 <= column < BOARD_SIZE
  }

  /** The board that `startBoard` builds: every cell EMPTY. */
  const EmptyGrid: Grid := [[EMPTY, EMPTY, EMPTY], [EMPTY, EMPTY, EMPTY], [EMPTY, EMPTY, EMPTY]]

  /** The board with `mark` written at (row, column) and every other cell kept. */
  function Place(g: Grid, row: int, column: int, mark: int): (r: Grid)
    requires IsGrid(g) && InRange(row, column)
    ensures IsGrid(r)
    ensures r[row][column] == mark
    ensures forall i, j {:trigger r[i][j]} :: InRange(i, j) && (i, j) != (row, column) ==> r[i][j] == g[i][j]
  {
    g[row := g[row][column := mark]]
  }

  /** Two boards that agree on every cell are the same board. */
  lemma GridsEqual(a: Grid, b: Grid)
    requires IsGrid(a) && IsGrid(b)
    requires forall i, j {:trigger a[i][j]} :: InRange(i, j) ==> a[i][j] == b[i][j]
    ensures a == b
  {
    forall i | 0 <= i < BOARD_SIZE
      ensures a[i] == b[i]
    {
      assert a[i][0] == b[i][0] && a[i][1] == b[i][1] && a[i][2] == b[i][2];
    }
  }

  /** A second write to a cell replaces the first. */
  lemma PlaceOverwrites(g: Grid, row: int, column: int, first: int, second: int)
    requires IsGrid(g) && InRange(row, column)
    ensures Place(Place(g, row, column, first), row, column, second) == Place(g, row, column, second)
  {
    GridsEqual(Place(Place(g, row, column, first), row, column, second), Place(g, row, column, second));
  }

  /** Writing a cell back to its former value restores the board. */
  lemma PlaceRestores(g: Grid, row: int, column: int, mark: int)
    requires IsGrid(g) && InRange(row, column)
    ensures Place(Place(g, row, column, mark), row, column, g[row][column]) == g
  {
    GridsEqual(Place(Place(g, row, column, mark), row, column, g[row][column]), g);
  }

  /** The player whose turn follows `player`'s. */
  function Toggle(player: int): (next: int)
    ensures next == X || next == O
    ensures player == X || player == O ==> next != player
    ensures player != X ==> next == X
  {
    if player == X then O else X
  }

  // ---------------------------------------------------------------------------
  // Lines and the win test
  // ---------------------------------------------------------------------------

  function RowLine(row: int): seq<Coord> {
    [(row, 0), (row, 1), (row, 2)]
  }

  function ColumnLine(column: int): seq<Coord> {
    [(0, column), (1, column), (2, column)]
  }

  const MainDiagonal: seq<Coord> := [(0, 0), (1, 1), (2, 2)]
  const AntiDiagonal: seq<Coord> := [(0, 2), (1, 1), (2, 0)]

  /** The eight lines of the board: three rows, three columns, two diagonals. */
  const WinningLines: seq<seq<Coord>> := [
    RowLine(0), RowLine(1), RowLine(2),
    ColumnLine(0), ColumnLine(1), ColumnLine(2),
    MainDiagonal, AntiDiagonal
  ]

  /** The four patterns `endGame` tests for a move at (row, column), in the order it tests them. */
  function Patterns(row: int, column: int): seq<seq<Coord>> {
    [RowLine(row), ColumnLine(column), MainDiagonal, AntiDiagonal]
  }

  /** A line of three cells that all lie on the board. */
  predicate IsLine(line: seq<Coord>) {
    |line| == 3 && forall k :: 0 <= k < 3 ==> InRange(line[k].0, line[k].1)
  }

  /** All three cells of `line` hold `player`. */
  predicate Filled(g: Grid, line: seq<Coord>, player: int)
    requires IsGrid(g) && IsLine(line)
  {
    g[line[0].0][line[0].1] == player &&
    g[line[1].0][line[1].1] == player &&
    g[line[2].0][line[2].1] == player
  }

  /**
   * endGame: tests, one after the other, the row of the move, its column, the main
   * diagonal and the anti-diagonal; each pattern filled with `player` replaces the
   * answer found so far, so the last filled one is returned.
   */
  function EndGame(row: int, column: int, g: Grid, player: int): (r: Option<seq<Coord>>)
    requires IsGrid(g) && InRange(row, column)
    ensures r.Some? ==> IsLine(r.value) && Filled(g, r.value, player)
  {
    var found := None;
    var found :=
      if g[row][0] == player && g[row][1] == player && g[row][2] == player
      then Some(RowLine(row)) else found;
    var found :=
      if g[0][column] == player && g[1][column] == player && g[2][column] == player
      then Some(ColumnLine(column)) else found;
    var found :=
      if g[0][0] == player && g[1][1] == player && g[2][2] == player
      then Some(MainDiagonal) else found;
    if g[0][2] == player && g[1][1] == player && g[2][0] == player
    then Some(AntiDiagonal) else found
  }

  /**
   * Reference reading of the override order: scanning a list of patterns from its
   * end, the first filled one.
   */
  function LastFilled(g: Grid, patterns: seq<seq<Coord>>, player: int): Option<seq<Coord>>
    requires IsGrid(g)
  {
    if patterns == [] then None
    else if IsLine(patterns[|patterns| - 1]) && Filled(g, patterns[|patterns| - 1], player) then Some(patterns[|patterns| - 1])
    else LastFilled(g, patterns[..|patterns| - 1], player)
  }

  /** A later filled pattern overrides an earlier one: endGame answers the last filled pattern. */
  lemma EndGameIsLastFilledPattern(row: int, column: int, g: Grid, player: int)
    requires IsGrid(g) && InRange(row, column)
    ensures EndGame(row, column, g, player) == LastFilled(g, Patterns(row, column), player)
  {
    var p4 := Patterns(row, column);
    var p3, p2, p1 := p4[..3], p4[..2], p4[..1];
    var f1 := if IsLine(RowLine(row)) && Filled(g, RowLine(row), player) then Some(RowLine(row)) else None;
    assert LastFilled(g, p1, player) == f1 by { assert p1[..0] == []; }
    var f2 := if IsLine(ColumnLine(column)) && Filled(g, ColumnLine(column), player) then Some(ColumnLine(column)) else f1;
    assert LastFilled(g, p2, player) == f2 by { assert p2[..1] == p1; }
    var f3 := if IsLine(MainDiagonal) && Filled(g, MainDiagonal, player) then Some(MainDiagonal) else f2;
    assert LastFilled(g, p3, player) == f3 by { assert p3[..2] == p2; }
    assert LastFilled(g, p4, player) == if IsLine(AntiDiagonal) && Filled(g, AntiDiagonal, player) then Some(AntiDiagonal) else f3;
  }

  /** endGame reports nothing exactly when none of its four patterns is filled with `player`. */
  lemma EndGameNoneIff(row: int, column: int, g: Grid, player: int)
    requires IsGrid(g) && InRange(row, column)
    ensures EndGame(row, column, g, player).None? <==>
      forall k :: 0 <= k < 4 ==> !(IsLine(Patterns(row, column)[k]) && Filled(g, Patterns(row, column)[k], player))
  {
    var ps := Patterns(row, column);
    assert ps[0] == RowLine(row) && ps[1] == ColumnLine(column);
    assert ps[2] == MainDiagonal && ps[3] == AntiDiagonal;
  }

  /** endGame answers one of the eight board lines, filled with `player`, or nothing. */
  lemma EndGameSound(row: int, column: int, g: Grid, player: int)
    requires IsGrid(g) && InRange(row, column)
    ensures var r := EndGame(row, column, g, player);
      r.Some? ==> r.value in WinningLines && Filled(g, r.value, player)
  {
    var r := EndGame(row, column, g, player);
    if r.Some? {
      assert row == 0 || row == 1 || row == 2;
      assert column == 0 || column == 1 || column == 2;
    }
  }

  /** Every board line through the played cell that `player` fills is detected. */
  lemma EndGameComplete(row: int, column: int, g: Grid, player: int, line: seq<Coord>)
    requires IsGrid(g) && InRange(row, column)
    requires line in WinningLines && (row, column) in line && Filled(g, line, player)
    ensures EndGame(row, column, g, player).Some?
  {
    var k :| 0 <= k < 8 && WinningLines[k] == line;
    if k < 3 {
      assert line[0].0 == k && line[1].0 == k && line[2].0 == k;
      assert row == k;
    } else if k < 6 {
      assert line[0].1 == k - 3 && line[1].1 == k - 3 && line[2].1 == k - 3;
      assert column == k - 3;
    }
  }

  /** A player holding a single cell completes no line: the three cells of a line are distinct. */
  lemma LoneMarkWinsNothing(g: Grid, player: int, cell: Coord, row: int, column: int)
    requires IsGrid(g) && InRange(row, column)
    requires forall i, j {:trigger g[i][j]} :: InRange(i, j) && g[i][j] == player ==> (i, j) == cell
    ensures EndGame(row, column, g, player).None?
  {
    EndGameSound(row, column, g, player);
  }

  /** A player holding at most two cells completes no line either. */
  lemma TwoMarksWinNothing(g: Grid, player: int, a: Coord, b: Coord, row: int, column: int)
    requires IsGrid(g) && InRange(row, column)
    requires forall i, j {:trigger g[i][j]} :: InRange(i, j) && g[i][j] == player ==> (i, j) == a || (i, j) == b
    ensures EndGame(row, column, g, player).None?
  {
    EndGameSound(row, column, g, player);
  }

  /** The first mark of a player on the board completes no line. */
  lemma FirstMarkWinsNothing(g: Grid, row: int, column: int, mark: int)
    requires IsGrid(g) && InRange(row, column)
    requires forall i, j {:trigger g[i][j]} :: InRange(i, j) ==> g[i][j] != mark
    ensures EndGame(row, column, Place(g, row, column, mark), mark).None?
  {
    LoneMarkWinsNothing(Place(g, row, column, mark), mark, (row, column), row, column);
  }

  // ---------------------------------------------------------------------------
  // The opponent's search: obtainsMovement
  // ---------------------------------------------------------------------------

  /** (r, c) comes strictly before (row, column) in row-major order. */
  predicate Before(r: int, c: int, row: int, column: int) {
    r < row || (r == row && c < column)
  }

  /** (row, column) is empty and writing `player` there makes endGame report a line. */
  predicate WinsAt(g: Grid, row: int, column: int, player: int)
    requires IsGrid(g) && InRange(row, column)
  {
    g[row][column] == EMPTY && EndGame(row, column, Place(g, row, column, player), player).Some?
  }

  /** The row-major scan of obtainsMovement, resumed at (row, column). */
  function FirstWinningFrom(g: Grid, player: int, row: int, column: int): (m: Option<Coord>)
    requires IsGrid(g) && 0 <= row <= BOARD_SIZE && 0 <= column <= BOARD_SIZE
    decreases BOARD_SIZE - row, BOARD_SIZE - column
    ensures m.None? ==>
      forall r, c {:trigger WinsAt(g, r, c, player)} :: InRange(r, c) && !Before(r, c, row, column) ==> !WinsAt(g, r, c, player)
    ensures m.Some? ==>
      InRange(m.value.0, m.value.1) && !Before(m.value.0, m.value.1, row, column) &&
      WinsAt(g, m.value.0, m.value.1, player) &&
      forall r, c {:trigger WinsAt(g, r, c, player)} ::
        InRange(r, c) && !Before(r, c, row, column) && Before(r, c, m.value.0, m.value.1)
        ==> !WinsAt(g, r, c, player)
  {
    if row == BOARD_SIZE then None
    else if column == BOARD_SIZE then FirstWinningFrom(g, player, row + 1, 0)
    else if WinsAt(g, row, column, player) then Some((row, column))
    else FirstWinningFrom(g, player, row, column + 1)
  }

  /**
   * The cell obtainsMovement settles on: the first empty cell in row-major order at
   * which `player` would complete a line, or None when there is none.
   */
  function FirstWinningCell(g: Grid, player: int): (m: Option<Coord>)
    requires IsGrid(g)
    ensures m.None? <==> forall r, c {:trigger WinsAt(g, r, c, player)} :: InRange(r, c) ==> !WinsAt(g, r, c, player)
    ensures m.Some? ==>
      InRange(m.value.0, m.value.1) && WinsAt(g, m.value.0, m.value.1, player) &&
      forall r, c {:trigger WinsAt(g, r, c, player)} :: InRange(r, c) && Before(r, c, m.value.0, m.value.1) ==> !WinsAt(g, r, c, player)
  {
    FirstWinningFrom(g, player, 0, 0)
  }

  /** The two properties of FirstWinningCell determine it: any cell that has them is the answer. */
  lemma FirstWinningCellUnique(g: Grid, player: int, row: int, column: int)
    requires IsGrid(g) && InRange(row, column) && WinsAt(g, row, column, player)
    requires forall r, c {:trigger WinsAt(g, r, c, player)} :: InRange(r, c) && Before(r, c, row, column) ==> !WinsAt(g, r, c, player)
    ensures FirstWinningCell(g, player) == Some((row, column))
  {
    var m := FirstWinningCell(g, player);
    assert m.Some?;
    if Before(m.value.0, m.value.1, row, column) {
    } else if Before(row, column, m.value.0, m.value.1) {
    } else {
      assert m.value == (row, column);
    }
  }

  // ---------------------------------------------------------------------------
  // Empty cells and the computer's move
  // ---------------------------------------------------------------------------

  /** The empty cells at or after (row, column), in row-major order. */
  function EmptyCellsFrom(g: Grid, row: int, column: int): (cells: seq<Coord>)
    requires IsGrid(g) && 0 <= row <= BOARD_SIZE && 0 <= column <= BOARD_SIZE
    decreases BOARD_SIZE - row, BOARD_SIZE - column
    ensures forall cell {:trigger cell in cells} :: cell in cells <==>
      InRange(cell.0, cell.1) && !Before(cell.0, cell.1, row, column) && g[cell.0][cell.1] == EMPTY
  {
    if row == BOARD_SIZE then []
    else if column == BOARD_SIZE then EmptyCellsFrom(g, row + 1, 0)
    else (if g[row][column] == EMPTY then [(row, column)] else []) + EmptyCellsFrom(g, row, column + 1)
  }

  /** The empty cells of the board in row-major order: the candidates of the random move. */
  function EmptyCells(g: Grid): (cells: seq<Coord>)
    requires IsGrid(g)
    ensures forall cell {:trigger cell in cells} :: cell in cells <==> InRange(cell.0, cell.1) && g[cell.0][cell.1] == EMPTY
  {
    EmptyCellsFrom(g, 0, 0)
  }

  function Unfilled(v: int): nat {
    if v == EMPTY then 1 else 0
  }

  /** The number of empty cells at or after (row, column) in row-major order. */
  function EmptyCountFrom(g: Grid, row: int, column: int): nat
    requires IsGrid(g) && 0 <= row <= BOARD_SIZE && 0 <= column <= BOARD_SIZE
    decreases BOARD_SIZE - row, BOARD_SIZE - column
  {
    if row == BOARD_SIZE then 0
    else if column == BOARD_SIZE then EmptyCountFrom(g, row + 1, 0)
    else Unfilled(g[row][column]) + EmptyCountFrom(g, row, column + 1)
  }

  /** The number of empty cells of the board, cell by cell. */
  function EmptyCount(g: Grid): nat
    requires IsGrid(g)
  {
    Unfilled(g[0][0]) + Unfilled(g[0][1]) + Unfilled(g[0][2]) +
    Unfilled(g[1][0]) + Unfilled(g[1][1]) + Unfilled(g[1][2]) +
    Unfilled(g[2][0]) + Unfilled(g[2][1]) + Unfilled(g[2][2])
  }

  /** The candidate list of the random move holds one entry per empty cell. */
  lemma {:induction false} EmptyCellsFromCount(g: Grid, row: int, column: int)
    requires IsGrid(g) && 0 <= row <= BOARD_SIZE && 0 <= column <= BOARD_SIZE
    decreases BOARD_SIZE - row, BOARD_SIZE - column
    ensures |EmptyCellsFrom(g, row, column)| == EmptyCountFrom(g, row, column)
  {
    if row == BOARD_SIZE {
    } else if column == BOARD_SIZE {
      EmptyCellsFromCount(g, row + 1, 0);
    } else {
      EmptyCellsFromCount(g, row, column + 1);
    }
  }

  /** The candidate list of the random move holds exactly one entry per empty cell. */
  lemma EmptyCellsCount(g: Grid)
    requires IsGrid(g)
    ensures |EmptyCells(g)| == EmptyCount(g)
  {
    EmptyCellsFromCount(g, 0, 0);
  }

  /** While some cell is empty, the random move has a candidate. */
  lemma EmptyCellsExist(g: Grid)
    requires IsGrid(g) && EmptyCount(g) > 0
    ensures EmptyCells(g) != []
  {
    EmptyCellsCount(g);
  }

  /**
   * Writing `mark` on an empty cell removes that cell from the empty ones when the
   * mark is not EMPTY and changes nothing otherwise.
   */
  lemma {:induction false} EmptyCountFromPlace(g: Grid, r0: int, c0: int, mark: int, row: int, column: int)
    requires IsGrid(g) && InRange(r0, c0) && g[r0][c0] == EMPTY
    requires 0 <= row <= BOARD_SIZE && 0 <= column <= BOARD_SIZE
    decreases BOARD_SIZE - row, BOARD_SIZE - column
    ensures EmptyCountFrom(Place(g, r0, c0, mark), row, column) ==
      EmptyCountFrom(g, row, column) - (if mark != EMPTY && !Before(r0, c0, row, column) then 1 else 0)
  {
    if row == BOARD_SIZE {
    } else if column == BOARD_SIZE {
      EmptyCountFromPlace(g, r0, c0, mark, row + 1, 0);
    } else {
      EmptyCountFromPlace(g, r0, c0, mark, row, column + 1);
    }
  }

  lemma EmptyCountPlace(g: Grid, row: int, column: int, mark: int)
    requires IsGrid(g) && InRange(row, column) && g[row][column] == EMPTY
    ensures EmptyCount(Place(g, row, column, mark)) == EmptyCount(g) - (if mark != EMPTY then 1 else 0)
  {
    EmptyCountFromPlace(g, row, column, mark, 0, 0);
  }

  /**
   * The cell cpuPlay marks: a cell where O would complete a line, else one where X
   * would (a block), else the empty cell the random source `choice` selects.
   */
  function CpuMove(g: Grid, choice: nat): (cell: Coord)
    requires IsGrid(g) && EmptyCells(g) != []
    ensures InRange(cell.0, cell.1) && g[cell.0][cell.1] == EMPTY
  {
    var win := FirstWinningCell(g, O);
    if win.Some? then win.value
    else
      var block := FirstWinningCell(g, X);
      if block.Some? then block.value
      else
        var movements := EmptyCells(g);
        var cell := movements[choice % |movements|];
        assert cell in movements;
        cell
  }

  /** When O can complete a line, the computer takes the first such cell, whatever X threatens. */
  lemma CpuTakesWin(g: Grid, choice: nat, row: int, column: int)
    requires IsGrid(g) && InRange(row, column) && WinsAt(g, row, column, O)
    ensures EmptyCells(g) != []
    ensures var cell := CpuMove(g, choice);
      WinsAt(g, cell.0, cell.1, O) && !Before(row, column, cell.0, cell.1) &&
      forall r, c {:trigger WinsAt(g, r, c, O)} :: InRange(r, c) && Before(r, c, cell.0, cell.1) ==> !WinsAt(g, r, c, O)
  {
    assert (row, column) in EmptyCells(g);
    var win := FirstWinningCell(g, O);
    assert win.Some?;
    assert CpuMove(g, choice) == win.value;
  }

  /** With no winning cell for O, the computer blocks the first cell where X would complete a line. */
  lemma CpuBlocks(g: Grid, choice: nat, row: int, column: int)
    requires IsGrid(g) && InRange(row, column) && WinsAt(g, row, column, X)
    requires forall r, c {:trigger WinsAt(g, r, c, O)} :: InRange(r, c) ==> !WinsAt(g, r, c, O)
    ensures EmptyCells(g) != []
    ensures var cell := CpuMove(g, choice);
      WinsAt(g, cell.0, cell.1, X) && !Before(row, column, cell.0, cell.1) &&
      forall r, c {:trigger WinsAt(g, r, c, X)} :: InRange(r, c) && Before(r, c, cell.0, cell.1) ==> !WinsAt(g, r, c, X)
  {
    assert (row, column) in EmptyCells(g);
    assert FirstWinningCell(g, O).None?;
    var block := FirstWinningCell(g, X);
    assert block.Some?;
    assert CpuMove(g, choice) == block.value;
  }

  /** With neither a win nor a block, the computer takes the empty cell the random source picks. */
  lemma CpuFallsBack(g: Grid, choice: nat)
    requires IsGrid(g) && EmptyCells(g) != []
    requires forall r, c {:trigger WinsAt(g, r, c, O)} :: InRange(r, c) ==> !WinsAt(g, r, c, O)
    requires forall r, c {:trigger WinsAt(g, r, c, X)} :: InRange(r, c) ==> !WinsAt(g, r, c, X)
    ensures CpuMove(g, choice) == EmptyCells(g)[choice % |EmptyCells(g)|]
  {
    assert FirstWinningCell(g, O).None? && FirstWinningCell(g, X).None?;
  }
}
