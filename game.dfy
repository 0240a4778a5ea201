/**
 * The tic-tac-toe service's state as a value, and its two moves as functions of that
 * value: the human move `jogar` and the computer's reply `cpuPlay`. The class in
 * service.dfy is proved to change its fields exactly as these functions say; the
 * lemmas here state what the moves promise.
 */
module Game {
  import opened Wrappers
  import opened Rules

  /** The fields of the service: board, move counter, winning line, active player, screens. */
  datatype State = State(
    grid: Grid,
    moves: nat,
    victory: Option<seq<Coord>>,
    player: int,
    showStart: bool,
    showEnd: bool,
    showBoard: bool)

  /**
   * The invariant every operation keeps: a 3x3 board on which no more cells have
   * been filled than moves have been counted. (A move made while the active player
   * is 0 writes EMPTY, so the count may exceed the number of marks.)
   */
  predicate Valid(s: State) {
    IsGrid(s.grid) && 9 <= EmptyCount(s.grid) + s.moves
  }

  /**
   * start(): the start screen alone, every cell EMPTY, X to play, no move counted
   * and no line recorded.
   */
  const Started: State := State(EmptyGrid, 0, None, X, true, false, false)

  /** startGame(): the start screen gives way to the board; nothing else changes. */
  function StartGame(s: State): (t: State)
    ensures Valid(s) ==> Valid(t)
    ensures t.grid == s.grid && t.moves == s.moves && t.victory == s.victory && t.player == s.player
    ensures t.showEnd == s.showEnd && !t.showStart && t.showBoard
  {
    s.(showStart := false, showBoard := true)
  }

  /** newGame(): start(), then the board shown with the start and end screens hidden. */
  function NewGame(): (t: State)
    ensures Valid(t) && EmptyCount(t.grid) == 9
    ensures t.grid == Started.grid && t.moves == Started.moves && t.victory == Started.victory && t.player == Started.player
    ensures !t.showStart && !t.showEnd && t.showBoard
  {
    Started.(showStart := false, showEnd := false, showBoard := true)
  }

  /**
   * One move at the empty cell (row, column), as jogar and cpuPlay both make it:
   * write the active player's mark, count the move, test for a win with that mark,
   * hand the turn over.
   */
  function Mark(s: State, row: int, column: int): (t: State)
    requires Valid(s) && InRange(row, column) && s.grid[row][column] == EMPTY
    ensures Valid(t)
  {
    var grid := Place(s.grid, row, column, s.player);
    EmptyCountPlace(s.grid, row, column, s.player);
    s.(grid := grid, moves := s.moves + 1,
       victory := EndGame(row, column, grid, s.player), player := Toggle(s.player))
  }

  /** cpuPlay: the active player's mark goes to the cell CpuMove chooses. */
  function CpuStep(s: State, choice: nat): (t: State)
    requires Valid(s) && EmptyCells(s.grid) != []
    ensures Valid(t)
  {
    var cell := CpuMove(s.grid, choice);
    Mark(s, cell.0, cell.1)
  }

  /**
   * jogar(posX, posY): ignored on an occupied cell or once a line is won; otherwise
   * the human move, the computer's reply while no line is won and fewer than nine
   * moves are counted, the end screen on a win, and the "draw" branch as written:
   * whenever no line is won after the move, the player becomes 0 and the end screen
   * is raised.
   */
  function Play(s: State, posX: int, posY: int, choice: nat): (t: State)
    requires Valid(s) && InRange(posX, posY)
    ensures Valid(t)
  {
    if s.grid[posX][posY] != EMPTY || s.victory.Some? then s
    else EndScreens(Reply(Mark(s, posX, posY), choice))
  }

  /** The computer's reply inside jogar: made only while no line is won and fewer than nine moves are counted. */
  function Reply(human: State, choice: nat): (t: State)
    requires Valid(human)
    ensures Valid(t)
  {
    if human.victory.None? && human.moves < 9 then
      EmptyCellsExist(human.grid);
      CpuStep(human, choice)
    else human
  }

  /**
   * The end of jogar: the end screen on a win, then the "draw" branch as written,
   * which fires whenever no line is won and the move counter is not zero.
   */
  function EndScreens(t: State): (u: State)
    ensures u.grid == t.grid && u.moves == t.moves && u.victory == t.victory
    ensures u.showStart == t.showStart && u.showBoard == t.showBoard
    ensures t.victory.Some? || t.moves != 0 ==> u.showEnd
    ensures t.victory.None? && t.moves != 0 ==> u.player == 0
    ensures t.victory.Some? || t.moves == 0 ==> u.player == t.player && u.showEnd == (t.showEnd || t.victory.Some?)
  {
    var won := if t.victory.Some? then t.(showEnd := true) else t;
    if won.victory.None? && won.moves != 0 then won.(player := 0, showEnd := true) else won
  }

  // ---------------------------------------------------------------------------
  // The lifecycle
  // ---------------------------------------------------------------------------

  /**
   * start() and newGame() both give a valid state with all nine cells empty, X to
   * play and no line; they differ in the screens only.
   */
  lemma StartsAreFresh()
    ensures Valid(Started) && Valid(NewGame())
    ensures EmptyCount(Started.grid) == 9 && |EmptyCells(Started.grid)| == 9
    ensures Started.player == X && Started.moves == 0 && Started.victory.None?
    ensures Started.showStart && !Started.showEnd && !Started.showBoard
    ensures var n := NewGame();
      n.grid == Started.grid && n.player == Started.player && n.moves == Started.moves &&
      n.victory == Started.victory && !n.showStart && !n.showEnd && n.showBoard
  {
    EmptyCellsCount(Started.grid);
  }

  /** The screen switch of startGame and a move commute: the game never reads the start and board screens. */
  lemma StartGameCommutesWithPlay(s: State, posX: int, posY: int, choice: nat)
    requires Valid(s) && InRange(posX, posY)
    ensures Valid(StartGame(s))
    ensures Play(StartGame(s), posX, posY, choice) == StartGame(Play(s, posX, posY, choice))
  {
    assert Valid(StartGame(s));
    if s.grid[posX][posY] == EMPTY && s.victory.None? {
      AcceptedCommutes(s, posX, posY, choice);
    }
  }

  /** The accepted-move case of StartGameCommutesWithPlay, taken step by step through PlayUnfold. */
  lemma AcceptedCommutes(s: State, posX: int, posY: int, choice: nat)
    requires Valid(s) && InRange(posX, posY)
    requires s.grid[posX][posY] == EMPTY && s.victory.None?
    ensures Valid(StartGame(s))
    ensures Play(StartGame(s), posX, posY, choice) == StartGame(Play(s, posX, posY, choice))
  {
    var u := StartGame(s);
    assert Valid(u);
    PlayUnfold(s, posX, posY, choice);
    PlayUnfold(u, posX, posY, choice);
    var h := Mark(s, posX, posY);
    assert Mark(u, posX, posY) == StartGame(h);
    ReplyCommutes(h, choice);
    var r := Reply(h, choice);
    assert EndScreens(StartGame(r)) == StartGame(EndScreens(r));
  }

  /** The computer's reply likewise ignores the start and board screens. */
  lemma ReplyCommutes(h: State, choice: nat)
    requires Valid(h)
    ensures Valid(StartGame(h))
    ensures Reply(StartGame(h), choice) == StartGame(Reply(h, choice))
  {
    var u := StartGame(h);
    assert Valid(u);
    if h.victory.None? && h.moves < 9 {
      EmptyCellsExist(h.grid);
      var cell := CpuMove(h.grid, choice);
      assert Reply(h, choice) == Mark(h, cell.0, cell.1);
      assert Reply(u, choice) == Mark(u, cell.0, cell.1);
    }
  }

  // ---------------------------------------------------------------------------
  // What jogar promises
  // ---------------------------------------------------------------------------

  /** A move on an occupied cell, or after a line is won, changes nothing at all. */
  lemma PlayRejected(s: State, posX: int, posY: int, choice: nat)
    requires Valid(s) && InRange(posX, posY)
    requires s.grid[posX][posY] != EMPTY || s.victory.Some?
    ensures Play(s, posX, posY, choice) == s
  {
  }

  /**
   * A human move that completes a line ends the game at once: the mark is written,
   * one move is counted, the line is recorded, the end screen is raised and no
   * computer move follows.
   */
  lemma PlayWinningMove(s: State, posX: int, posY: int, choice: nat)
    requires Valid(s) && InRange(posX, posY)
    requires s.grid[posX][posY] == EMPTY && s.victory.None?
    requires EndGame(posX, posY, Place(s.grid, posX, posY, s.player), s.player).Some?
    ensures var t := Play(s, posX, posY, choice);
      t.grid == Place(s.grid, posX, posY, s.player) &&
      t.moves == s.moves + 1 &&
      t.victory == EndGame(posX, posY, Place(s.grid, posX, posY, s.player), s.player) &&
      t.player == Toggle(s.player) && t.showEnd &&
      t.showStart == s.showStart && t.showBoard == s.showBoard
  {
  }

  /**
   * A human move that completes no line while fewer than nine moves are counted is
   * answered by one computer move, whatever the active player (0 included): the
   * computer's cell was empty, it receives the toggled mark, two moves are counted
   * and the line test is made for that mark.
   */
  lemma PlayRepliesForAnyPlayer(s: State, posX: int, posY: int, choice: nat)
    requires Valid(s) && InRange(posX, posY)
    requires s.grid[posX][posY] == EMPTY && s.victory.None?
    requires EndGame(posX, posY, Place(s.grid, posX, posY, s.player), s.player).None?
    requires s.moves + 1 < 9
    ensures var h := Place(s.grid, posX, posY, s.player);
      EmptyCells(h) != [] &&
      var cell := CpuMove(h, choice);
      var t := Play(s, posX, posY, choice);
      s.grid[cell.0][cell.1] == EMPTY &&
      t.grid == Place(h, cell.0, cell.1, Toggle(s.player)) &&
      t.moves == s.moves + 2 &&
      t.victory == EndGame(cell.0, cell.1, t.grid, Toggle(s.player)) &&
      t.showEnd
  {
    var h := Mark(s, posX, posY);
    EmptyCellsExist(h.grid);
    var cell := CpuMove(h.grid, choice);
    var r := Mark(h, cell.0, cell.1);
    assert Reply(h, choice) == r;
    assert Play(s, posX, posY, choice) == EndScreens(r);
  }

  /**
   * With X or O to play, the computer's cell is moreover a different one from the
   * human's, and the human's mark stays on the board.
   */
  lemma PlayComputerReplies(s: State, posX: int, posY: int, choice: nat)
    requires Valid(s) && InRange(posX, posY)
    requires s.grid[posX][posY] == EMPTY && s.victory.None? && s.player != EMPTY
    requires EndGame(posX, posY, Place(s.grid, posX, posY, s.player), s.player).None?
    requires s.moves + 1 < 9
    ensures var h := Place(s.grid, posX, posY, s.player);
      EmptyCells(h) != [] &&
      var cell := CpuMove(h, choice);
      var t := Play(s, posX, posY, choice);
      cell != (posX, posY) && s.grid[cell.0][cell.1] == EMPTY &&
      t.grid == Place(h, cell.0, cell.1, Toggle(s.player)) &&
      t.grid[posX][posY] == s.player &&
      t.moves == s.moves + 2 &&
      t.victory == EndGame(cell.0, cell.1, t.grid, Toggle(s.player)) &&
      t.showEnd
  {
    PlayRepliesForAnyPlayer(s, posX, posY, choice);
    var h := Place(s.grid, posX, posY, s.player);
    var cell := CpuMove(h, choice);
    assert cell != (posX, posY) by {
      assert h[posX][posY] == s.player;
    }
  }

  /**
   * Once the "draw" branch has set the player to 0, a human move writes 0, which is
   * EMPTY: the clicked cell stays empty, the computer answers with X, and that X is
   * the only change to the board.
   */
  lemma PlayWithPlayerZero(s: State, posX: int, posY: int, choice: nat)
    requires Valid(s) && InRange(posX, posY)
    requires s.grid[posX][posY] == EMPTY && s.victory.None? && s.player == 0
    requires EndGame(posX, posY, s.grid, 0).None?
    requires s.moves + 1 < 9
    ensures EmptyCells(s.grid) != []
    ensures var cell := CpuMove(s.grid, choice);
      var t := Play(s, posX, posY, choice);
      t.grid == Place(s.grid, cell.0, cell.1, X) &&
      t.moves == s.moves + 2 &&
      t.victory == EndGame(cell.0, cell.1, t.grid, X) &&
      (t.victory.None? ==> t.player == 0) && t.showEnd
  {
    GridsEqual(Place(s.grid, posX, posY, 0), s.grid);
    PlayRepliesForAnyPlayer(s, posX, posY, choice);
    PlayEndScreen(s, posX, posY, choice);
  }

  /**
   * With player 0 the win test looks for a line of 0s, that is of EMPTY cells: a move
   * in an empty row records a line of empty cells as the victory and ends the game,
   * with no mark added and X to play.
   */
  lemma PlayEmptyRowWins(s: State, posX: int, posY: int, choice: nat)
    requires Valid(s) && InRange(posX, posY) && s.victory.None? && s.player == 0
    requires s.grid[posX][0] == EMPTY && s.grid[posX][1] == EMPTY && s.grid[posX][2] == EMPTY
    ensures var t := Play(s, posX, posY, choice);
      t.grid == s.grid && t.moves == s.moves + 1 && t.player == X && t.showEnd &&
      t.victory.Some? && IsLine(t.victory.value) && Filled(t.grid, t.victory.value, EMPTY)
  {
    GridsEqual(Place(s.grid, posX, posY, 0), s.grid);
    PlayUnfold(s, posX, posY, choice);
    var h := Mark(s, posX, posY);
    assert h.victory.Some?;
    assert Reply(h, choice) == h;
  }

  /**
   * A move that completes no line once nine moves are counted gets no reply: only
   * the human mark is written and one move is counted.
   */
  lemma PlayLastMove(s: State, posX: int, posY: int, choice: nat)
    requires Valid(s) && InRange(posX, posY)
    requires s.grid[posX][posY] == EMPTY && s.victory.None?
    requires EndGame(posX, posY, Place(s.grid, posX, posY, s.player), s.player).None?
    requires s.moves + 1 >= 9
    ensures var t := Play(s, posX, posY, choice);
      t.grid == Place(s.grid, posX, posY, s.player) && t.moves == s.moves + 1 &&
      t.victory.None? && t.player == 0 && t.showEnd
  {
    PlayUnfold(s, posX, posY, choice);
    var h := Mark(s, posX, posY);
    assert Reply(h, choice) == h;
  }

  /**
   * When the move completes no line, the "draw" branch fires whatever the number of
   * moves: the active player becomes 0 and the end screen is raised. A recorded line
   * keeps the toggled player instead.
   */
  lemma PlayEndScreen(s: State, posX: int, posY: int, choice: nat)
    requires Valid(s) && InRange(posX, posY)
    requires s.grid[posX][posY] == EMPTY && s.victory.None?
    ensures var t := Play(s, posX, posY, choice);
      t.showEnd &&
      (t.victory.None? ==> t.player == 0) &&
      (t.victory.Some? ==> t.player == X || t.player == O)
  {
  }

  /**
   * One move never overwrites a mark, and the line it records lies on the board and
   * holds the mover's mark in all three cells.
   */
  lemma MarkKeepsMarks(s: State, row: int, column: int)
    requires Valid(s) && InRange(row, column) && s.grid[row][column] == EMPTY
    ensures var t := Mark(s, row, column);
      (forall i, j {:trigger t.grid[i][j]} :: InRange(i, j) && s.grid[i][j] != EMPTY ==> t.grid[i][j] == s.grid[i][j]) &&
      (t.victory.Some? ==> t.victory.value in WinningLines && Filled(t.grid, t.victory.value, s.player))
  {
    EndGameSound(row, column, Place(s.grid, row, column, s.player), s.player);
  }

  /** The three cells of `line` hold one and the same value. */
  predicate SameMark(g: Grid, line: seq<Coord>)
    requires IsGrid(g) && IsLine(line)
  {
    Filled(g, line, g[line[0].0][line[0].1])
  }

  /** The computer's reply never overwrites a mark and records a line only as Mark does. */
  lemma ReplyKeepsMarks(h: State, choice: nat)
    requires Valid(h)
    requires h.victory.Some? ==> h.victory.value in WinningLines && SameMark(h.grid, h.victory.value)
    ensures var r := Reply(h, choice);
      (forall i, j {:trigger r.grid[i][j]} :: InRange(i, j) && h.grid[i][j] != EMPTY ==> r.grid[i][j] == h.grid[i][j]) &&
      (r.victory.Some? ==> r.victory.value in WinningLines && SameMark(r.grid, r.victory.value)) &&
      r.showStart == h.showStart && r.showBoard == h.showBoard
  {
    if h.victory.None? && h.moves < 9 {
      EmptyCellsExist(h.grid);
      var cell := CpuMove(h.grid, choice);
      MarkKeepsMarks(h, cell.0, cell.1);
    }
  }

  /** An accepted move is the human mark, the computer's reply, then the end screens. */
  lemma PlayUnfold(s: State, posX: int, posY: int, choice: nat)
    requires Valid(s) && InRange(posX, posY)
    requires s.grid[posX][posY] == EMPTY && s.victory.None?
    ensures Play(s, posX, posY, choice) == EndScreens(Reply(Mark(s, posX, posY), choice))
  {
  }

  /** jogar never overwrites a mark and never touches the start and board screens. */
  lemma PlayKeepsMarks(s: State, posX: int, posY: int, choice: nat)
    requires Valid(s) && InRange(posX, posY)
    ensures var t := Play(s, posX, posY, choice);
      t.showStart == s.showStart && t.showBoard == s.showBoard &&
      forall i, j {:trigger t.grid[i][j]} :: InRange(i, j) && s.grid[i][j] != EMPTY ==> t.grid[i][j] == s.grid[i][j]
  {
    if s.grid[posX][posY] == EMPTY && s.victory.None? {
      var h := Mark(s, posX, posY);
      var r := Reply(h, choice);
      PlayUnfold(s, posX, posY, choice);
      MarkKeepsMarks(s, posX, posY);
      ReplyKeepsMarks(h, choice);
      var t := EndScreens(r);
      assert t.grid == r.grid && t.showStart == r.showStart && t.showBoard == r.showBoard;
    }
  }

  /** A line that jogar records is one of the eight board lines, with one mark in all three cells. */
  lemma PlayRecordsLine(s: State, posX: int, posY: int, choice: nat)
    requires Valid(s) && InRange(posX, posY) && s.victory.None?
    ensures var t := Play(s, posX, posY, choice);
      t.victory.Some? ==> t.victory.value in WinningLines && SameMark(t.grid, t.victory.value)
  {
    if s.grid[posX][posY] == EMPTY {
      var h := Mark(s, posX, posY);
      var r := Reply(h, choice);
      PlayUnfold(s, posX, posY, choice);
      MarkKeepsMarks(s, posX, posY);
      ReplyKeepsMarks(h, choice);
      var t := EndScreens(r);
      assert t.grid == r.grid && t.victory == r.victory;
    }
  }

  // ---------------------------------------------------------------------------
  // Scenarios
  // ---------------------------------------------------------------------------

  /**
   * After the first move of a new game, neither O nor X can complete a line with one
   * more mark, so both of cpuPlay's searches fail and its reply always comes from the
   * random fallback (lines 209-221 of the service, which as written never end; see
   * Rules.CpuMove).
   */
  lemma FirstReplyFallsBack(posX: int, posY: int)
    requires InRange(posX, posY)
    ensures var g := Place(EmptyGrid, posX, posY, X);
      FirstWinningCell(g, O).None? && FirstWinningCell(g, X).None?
  {
    var g := Place(EmptyGrid, posX, posY, X);
    forall r, c | InRange(r, c)
      ensures !WinsAt(g, r, c, O) && !WinsAt(g, r, c, X)
    {
      FirstMarkWinsNothing(g, r, c, O);
      TwoMarksWinNothing(Place(g, r, c, X), X, (posX, posY), (r, c), r, c);
    }
  }

  /**
   * After the first move of a new game the "draw" branch has already fired: the
   * computer has replied, the end screen is up and the active player is 0. The reply
   * is the fallback cell `choice` selects (FirstReplyFallsBack); the service's own
   * fallback loop does not terminate, so this state exists only with that cell given.
   */
  lemma FirstMoveScenario(posX: int, posY: int, choice: nat)
    requires InRange(posX, posY)
    ensures Valid(NewGame())
    ensures var t := Play(NewGame(), posX, posY, choice);
      t.moves == 2 && t.grid[posX][posY] == X && t.victory.None? && t.player == 0 && t.showEnd
  {
    StartsAreFresh();
    var s := NewGame();
    var g := Place(EmptyGrid, posX, posY, X);
    OpeningWinsNothing(posX, posY, posX, posY);
    PlayComputerReplies(s, posX, posY, choice);
    var cell := CpuMove(g, choice);
    OpeningWinsNothing(posX, posY, cell.0, cell.1);
    PlayEndScreen(s, posX, posY, choice);
  }

  /** On a board holding a single X, neither that X nor a first O completes a line. */
  lemma OpeningWinsNothing(posX: int, posY: int, row: int, column: int)
    requires InRange(posX, posY) && InRange(row, column)
    ensures EndGame(posX, posY, Place(EmptyGrid, posX, posY, X), X).None?
    ensures EndGame(row, column, Place(Place(EmptyGrid, posX, posY, X), row, column, O), O).None?
  {
    assert forall i, j {:trigger EmptyGrid[i][j]} :: InRange(i, j) ==> EmptyGrid[i][j] == EMPTY;
    FirstMarkWinsNothing(EmptyGrid, posX, posY, X);
    FirstMarkWinsNothing(Place(EmptyGrid, posX, posY, X), row, column, O);
  }

  /** O takes its own win at (1,2) although X threatens (0,2): winning comes before blocking. */
  lemma WinBeforeBlockScenario(choice: nat)
    ensures var g := [[X, X, EMPTY], [O, O, EMPTY], [X, EMPTY, EMPTY]];
      IsGrid(g) && WinsAt(g, 0, 2, X) && EmptyCells(g) != [] && CpuMove(g, choice) == (1, 2)
  {
    var g := [[X, X, EMPTY], [O, O, EMPTY], [X, EMPTY, EMPTY]];
    assert Place(g, 1, 2, O)[1] == [O, O, O];
    assert WinsAt(g, 1, 2, O);
    assert Place(g, 0, 2, X)[0] == [X, X, X];
    assert !WinsAt(g, 0, 2, O) by {
      var p := Place(g, 0, 2, O);
      assert p[0] == [X, X, O] && p[1] == g[1] && p[2] == g[2];
    }
    CpuTakesWin(g, choice, 1, 2);
  }

  /** X holds (0,0) and (0,1); playing (0,2) records the top row and no computer move follows. */
  lemma TopRowScenario(choice: nat)
    ensures var s := State([[X, X, EMPTY], [O, O, EMPTY], [EMPTY, EMPTY, EMPTY]], 4, None, X, false, false, true);
      var t := Play(s, 0, 2, choice);
      Valid(s) && (0, 2) in EmptyCells(s.grid) &&
      t.victory == Some([(0, 0), (0, 1), (0, 2)]) &&
      t.grid == [[X, X, X], [O, O, EMPTY], [EMPTY, EMPTY, EMPTY]] &&
      t.moves == 5 && t.showEnd
  {
    var s := State([[X, X, EMPTY], [O, O, EMPTY], [EMPTY, EMPTY, EMPTY]], 4, None, X, false, false, true);
    var h := Mark(s, 0, 2);
    assert h.grid[0] == [X, X, X];
    assert h.grid == [[X, X, X], [O, O, EMPTY], [EMPTY, EMPTY, EMPTY]];
    assert h.victory == Some(RowLine(0));
  }
}
