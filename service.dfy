/**
 * The tic-tac-toe service as the object it is: a 3x3 board array and the scalar
 * fields, updated in place by its methods. Each method is proved to leave the fields
 * exactly as the matching function of the Game module says, so every property proved
 * there holds of the object.
 */
module Service {
  import opened Wrappers
  import opened Rules
  import Game

  class TicTacToeService {
    var board: array2<int>
    var numberOfMoves: nat
    var victory: Option<seq<Coord>>
    var player: int
    var showStart: bool
    var showEnd: bool
    var showBoard: bool

    /** The board array is 3x3. */
    predicate Shaped()
      reads this
    {
      board.Length0 == BOARD_SIZE && board.Length1 == BOARD_SIZE
    }

    /** The contents of the board array, row by row. */
    function Cells(): (g: Grid)
      requires Shaped()
      reads this, board
      ensures IsGrid(g)
      ensures forall i, j {:trigger g[i][j]} :: InRange(i, j) ==> g[i][j] == board[i, j]
    {
      [[board[0, 0], board[0, 1], board[0, 2]],
       [board[1, 0], board[1, 1], board[1, 2]],
       [board[2, 0], board[2, 1], board[2, 2]]]
    }

    /** The fields of the object as a Game state. */
    function Model(): Game.State
      requires Shaped()
      reads this, board
    {
      Game.State(Cells(), numberOfMoves, victory, player, showStart, showEnd, showBoard)
    }

    /** The object invariant: a 3x3 board and the state invariant of the Game module. */
    predicate Valid()
      reads this, board
    {
      Shaped() && Game.Valid(Model())
    }

    /** The object comes out of construction started, so that every field is defined. */
    constructor ()
      ensures Valid() && fresh(board)
      ensures Model() == Game.Started
    {
      board := new int[BOARD_SIZE, BOARD_SIZE];
      new;
      Start();
    }

    /** `board[row][column] = mark`: one cell of the array is written. */
    method Put(row: int, column: int, mark: int)
      requires Shaped() && InRange(row, column)
      modifies board
      ensures Shaped() && Cells() == Place(old(Cells()), row, column, mark)
    {
      ghost var g := Cells();
      board[row, column] := mark;
      GridsEqual(Cells(), Place(g, row, column, mark));
    }

    /** start(): resets the counters and screens and builds an empty board. */
    method Start()
      modifies this
      ensures Valid() && fresh(board)
      ensures Model() == Game.Started
    {
      showStart := true;
      showEnd := false;
      showBoard := false;
      player := X;
      numberOfMoves := 0;
      victory := None;
      StartBoard();
      Game.StartsAreFresh();
    }

    /** startBoard(): a new board, filled row by row with EMPTY; no other field changes. */
    method StartBoard()
      modifies this
      ensures fresh(board) && Shaped() && Cells() == EmptyGrid
      ensures numberOfMoves == old(numberOfMoves) && victory == old(victory) && player == old(player)
      ensures showStart == old(showStart) && showEnd == old(showEnd) && showBoard == old(showBoard)
    {
      var rows := new int[BOARD_SIZE, BOARD_SIZE];
      for i := 0 to BOARD_SIZE
        modifies rows
        invariant forall r, c :: 0 <= r < i && 0 <= c < BOARD_SIZE ==> rows[r, c] == EMPTY
      {
        rows[i, 0], rows[i, 1], rows[i, 2] := EMPTY, EMPTY, EMPTY;
      }
      board := rows;
    }

    /** startGame(): hides the start screen and shows the board. */
    method StartGame()
      requires Shaped()
      modifies this
      ensures board == old(board) && Shaped()
      ensures Model() == Game.StartGame(old(Model()))
    {
      showStart := false;
      showBoard := true;
    }

    /** newGame(): start(), then the board is shown and the other screens hidden. */
    method NewGame()
      modifies this
      ensures Valid() && fresh(board)
      ensures Model() == Game.NewGame()
    {
      Start();
      showStart := false;
      showEnd := false;
      showBoard := true;
    }

    /**
     * jogar(posX, posY): the human move. `choice` stands for the random source the
     * computer's reply falls back on.
     */
    method Jogar(posX: int, posY: int, choice: nat)
      requires Valid() && InRange(posX, posY)
      modifies this, board
      ensures Valid() && board == old(board)
      ensures Model() == Game.Play(old(Model()), posX, posY, choice)
    {
      ghost var s := Model();
      if board[posX, posY] != EMPTY || victory.Some? {
        return;
      }
      Game.PlayUnfold(s, posX, posY, choice);
      ghost var h := Game.Mark(s, posX, posY);
      Put(posX, posY, player);
      numberOfMoves := numberOfMoves + 1;
      victory := EndGame(posX, posY, Cells(), player);
      player := Toggle(player);
      assert Model() == h;

      if victory.None? && numberOfMoves < 9 {
        EmptyCellsExist(Cells());
        CpuPlay(choice);
      }
      ghost var r := Game.Reply(h, choice);
      assert Model() == r;

      if victory.Some? {
        showEnd := true;
      }
      if victory.None? && numberOfMoves != 0 {
        player := 0;
        showEnd := true;
      }
      assert Model() == Game.EndScreens(r);
      assert Model() == Game.Play(s, posX, posY, choice);
    }

    /**
     * cpuPlay(): a winning cell for O, else a blocking cell against X, else the empty
     * cell `choice` selects; the active player's mark goes there.
     */
    method CpuPlay(choice: nat)
      requires Valid() && EmptyCells(Cells()) != []
      modifies this, board
      ensures Valid() && board == old(board)
      ensures Model() == Game.CpuStep(old(Model()), choice)
    {
      ghost var s := Model();
      ghost var t := Game.CpuStep(s, choice);
      var cell := ChooseMovement(choice);
      Put(cell.0, cell.1, player);
      numberOfMoves := numberOfMoves + 1;
      victory := EndGame(cell.0, cell.1, Cells(), player);
      player := Toggle(player);
      assert Model() == t;
    }

    /**
     * The choice half of cpuPlay: obtainsMovement for O, then for X, then the random
     * fallback. A successful search leaves its test mark on the chosen cell, which
     * cpuPlay then overwrites.
     */
    method ChooseMovement(choice: nat) returns (cell: Coord)
      requires Shaped() && EmptyCells(Cells()) != []
      modifies board
      ensures Shaped()
      ensures cell == CpuMove(old(Cells()), choice)
      ensures forall mark {:trigger Place(Cells(), cell.0, cell.1, mark)} ::
        Place(Cells(), cell.0, cell.1, mark) == Place(old(Cells()), cell.0, cell.1, mark)
    {
      ghost var g := Cells();
      ghost var tried := O;
      var movement := ObtainsMovement(O);
      if movement.None? {
        tried := X;
        movement := ObtainsMovement(X);
      }
      if movement.Some? {
        cell := movement.value;
        forall mark
          ensures Place(Cells(), cell.0, cell.1, mark) == Place(g, cell.0, cell.1, mark)
        {
          PlaceOverwrites(g, cell.0, cell.1, tried, mark);
        }
      } else {
        var movements := EmptyCells(Cells());
        cell := movements[choice % |movements|];
      }
    }

    /**
     * obtainsMovement(p): scans the board in row-major order, writing `p` into each
     * empty cell to test it and restoring EMPTY when it completes no line. The first
     * cell that completes a line is returned and keeps `p`.
     */
    method ObtainsMovement(p: int) returns (m: Option<Coord>)
      requires Shaped()
      modifies board
      ensures Shaped()
      ensures m == FirstWinningCell(old(Cells()), p)
      ensures m.None? ==> Cells() == old(Cells())
      ensures m.Some? ==> Cells() == Place(old(Cells()), m.value.0, m.value.1, p)
      ensures forall i, j {:trigger old(Cells())[i][j]} ::
        InRange(i, j) && old(Cells())[i][j] != EMPTY ==> Cells()[i][j] == old(Cells())[i][j]
    {
      ghost var g := Cells();
      for row := 0 to BOARD_SIZE
        invariant Cells() == g
        invariant forall r, c {:trigger WinsAt(g, r, c, p)} :: InRange(r, c) && Before(r, c, row, 0) ==> !WinsAt(g, r, c, p)
      {
        for column := 0 to BOARD_SIZE
          invariant Cells() == g
          invariant forall r, c {:trigger WinsAt(g, r, c, p)} :: InRange(r, c) && Before(r, c, row, column) ==> !WinsAt(g, r, c, p)
        {
          if board[row, column] != EMPTY {
            continue;
          }
          Put(row, column, p);
          if EndGame(row, column, Cells(), p).Some? {
            FirstWinningCellUnique(g, p, row, column);
            return Some((row, column));
          }
          Put(row, column, EMPTY);
          PlaceRestores(g, row, column, p);
        }
      }
      return None;
    }

    /** showX(posX, posY): the cell holds X. */
    function ShowX(posX: int, posY: int): (shown: bool)
      requires Shaped() && InRange(posX, posY)
      reads this, board
      ensures shown <==> Cells()[posX][posY] == X
    {
      board[posX, posY] == X
    }

    /** showO(posX, posY): the cell holds O. */
    function ShowO(posX: int, posY: int): (shown: bool)
      requires Shaped() && InRange(posX, posY)
      reads this, board
      ensures shown <==> Cells()[posX][posY] == O
    {
      board[posX, posY] == O
    }

    /** showVictory(posX, posY): the cell lies on the recorded line; false while none is recorded. */
    method ShowVictory(posX: int, posY: int) returns (show: bool)
      ensures show <==> victory.Some? && (posX, posY) in victory.value
    {
      show := false;
      if victory.None? {
        return;
      }
      var line := victory.value;
      for k := 0 to |line|
        invariant !show
        invariant forall i :: 0 <= i < k ==> line[i] != (posX, posY)
      {
        if line[k] == (posX, posY) {
          show := true;
          break;
        }
      }
    }
  }
}
