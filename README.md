# Tic-tac-toe service, modelled in Dafny

This project models `TicTacToeService`, the game engine behind an Angular
tic-tac-toe page. A new game starts with X to play, and the human's first move
writes X. As written, the computer's answer never comes. With a single X on the
board, neither O nor X can complete a line, so cpuPlay always reaches its random
fallback (`Game.FirstReplyFallsBack`), and that loop never ends (see
`Rules.CpuFallsBack` under "Left out"). The model gives the fallback its evident
meaning, an empty cell chosen by the parameter `choice`. Everything below about
later moves describes that model, not a game the code as written can reach:
with the fallback cell given, the computer answers with O, and after that the
active player is 0 (see the "draw" branch below), so the game does not go on as
a game of X against O.

The service's state is:
- a 3x3 integer board, with `EMPTY = 0`, `X = 1` and `O = 2`;
- the move counter `numberOfMoves`;
- the winning line `victory`, or `false` while there is none;
- the active player `_player`;
- three screen flags: start, board and end.

The model has four modules:

- `wrappers.dfy` (`Wrappers`): the `Option` type. `None` stands for the
  service's `false` (no line yet) and for the empty answer `[]` of
  `obtainsMovement`.
- `rules.dfy` (`Rules`): the board as `seq<seq<int>>` and the pure board rules:
  - `endGame` (`EndGame`);
  - the row-major search of `obtainsMovement` (`FirstWinningCell`);
  - the candidate list of the random fallback (`EmptyCells`);
  - the computer's choice of cell (`CpuMove`).

  Beside each of them sits a reference definition or a property, with a lemma
  connecting the two.
- `game.dfy` (`Game`): the service's fields as a `State` value. The operations
  are functions of it: `Started` (start), `StartGame`, `NewGame`, `Mark` (one
  move), `CpuStep` (cpuPlay) and `Play` (jogar). The lemmas state what a call
  to jogar promises.
- `service.dfy` (`Service`): the class `TicTacToeService`. Its board is an
  `array2<int>`, next to the scalar fields. `obtainsMovement` writes a test mark
  into each empty cell of that array and restores it, with nested loops, as the
  source does. Every method is proved to leave the fields exactly as the
  matching `Game` function says: `Model() == Game.Play(old(Model()), …)` and so
  on. So every lemma about `Game` holds of the object.

The object invariant is `Game.Valid`: a 3x3 board on which the number of empty
cells plus the move counter is at least nine. It is an inequality and not an
equality, because a move made while the player is 0 writes `EMPTY`. The
invariant guarantees an empty cell whenever fewer than nine moves are counted,
so the computer always has a cell to play.

The "draw" branch at the end of `jogar` is modelled as written. After every
accepted move that completes no line, it sets the player to 0 and raises the end
screen, not only when the board is full. `Game.PlayEndScreen` states this, and
`Game.FirstMoveScenario` shows that it fires after the first move of a new game,
with the computer's reply taken from the fallback cell `choice` selects. From then
on the player is 0, and the model follows what the code would then do:
- a human move writes 0, which is `EMPTY`, so the clicked cell stays empty;
- the toggle turns 0 into X, so the computer's reply writes X, and O is never
  written again (`Game.PlayWithPlayerZero`);
- `endGame` is asked about player 0, so an all-empty line is recorded as the
  victory: the clicked cell's row or column, or either diagonal wherever the
  click is, since `endGame` tests both diagonals for every cell
  (`Game.PlayEmptyRowWins` states the row case).

`Game.PlayRepliesForAnyPlayer` states the computer's reply for every player,
0 included; `Game.PlayComputerReplies` adds what holds only for X or O, that
the two moves land on different cells.

`Game.TopRowScenario` and `Game.WinBeforeBlockScenario` use hand-built example
boards: boards on which X and O alternate, as the game is evidently meant to go. Because
of the "draw" branch, a state like theirs cannot be reached from `start()`.

## Model

| member | source | states |
|---|---|---|
| Rules.EndGame | src/app/tic-tac-toe/shared/tic-tac-toe.service.ts:139-193 | endGame reads the board and changes nothing; a reported line lies on the board and holds `player` in all three cells |
| Rules.EndGameIsLastFilledPattern | src/app/tic-tac-toe/shared/tic-tac-toe.service.ts:139-193 | the four patterns are tested as row, column, main diagonal, anti-diagonal, and each later filled pattern overrides the earlier answer: the result is the last filled one |
| Rules.EndGameNoneIff | src/app/tic-tac-toe/shared/tic-tac-toe.service.ts:139-193 | endGame answers `false` if and only if none of the row, the column and the two diagonals is filled with `player` |
| Rules.EndGameSound | src/app/tic-tac-toe/shared/tic-tac-toe.service.ts:139-193 | the answer is one of the eight board lines, filled with `player` |
| Rules.EndGameComplete | src/app/tic-tac-toe/shared/tic-tac-toe.service.ts:139-193 | every board line through the played cell that `player` fills is detected |
| Rules.LoneMarkWinsNothing | src/app/tic-tac-toe/shared/tic-tac-toe.service.ts:139-193 | a player holding a single cell completes no line |
| Rules.TwoMarksWinNothing | src/app/tic-tac-toe/shared/tic-tac-toe.service.ts:139-193 | a player holding at most two cells completes no line |
| Rules.FirstMarkWinsNothing | src/app/tic-tac-toe/shared/tic-tac-toe.service.ts:139-193 | the first mark a player puts on the board completes no line |
| Rules.Place | src/app/tic-tac-toe/shared/tic-tac-toe.service.ts:109 | writing one cell sets that cell and keeps the other eight |
| Rules.PlaceOverwrites | src/app/tic-tac-toe/shared/tic-tac-toe.service.ts:223 | a cell that obtainsMovement left holding its test mark is overwritten by cpuPlay's own write: the second write alone decides the board |
| Rules.PlaceRestores | src/app/tic-tac-toe/shared/tic-tac-toe.service.ts:247-251 | writing a test mark and then restoring EMPTY on an empty cell gives back the board |
| Rules.FirstWinningFrom | src/app/tic-tac-toe/shared/tic-tac-toe.service.ts:242-253 | the scan resumed at (row, column) answers the first cell at or after it where `player` completes a line, or none if no such cell exists |
| Rules.FirstWinningCell | src/app/tic-tac-toe/shared/tic-tac-toe.service.ts:240-256 | the answer of obtainsMovement is none exactly when no empty cell completes a line for `player`; otherwise it is an empty cell that does, with no such cell before it in row-major order |
| Rules.FirstWinningCellUnique | src/app/tic-tac-toe/shared/tic-tac-toe.service.ts:240-256 | any winning cell with no winning cell before it is the answer: the row-major tie-break determines the cell |
| Rules.EmptyCellsFrom | src/app/tic-tac-toe/shared/tic-tac-toe.service.ts:211-218 | the candidates at or after (row, column) are exactly the empty cells there, with the inner loop's test read as `j < 3` (see Rules.CpuFallsBack under Left out) |
| Rules.EmptyCells | src/app/tic-tac-toe/shared/tic-tac-toe.service.ts:211-218 | the candidate list of the random move holds exactly the empty cells, with the inner loop's test read as `j < 3` |
| Rules.EmptyCellsFromCount | src/app/tic-tac-toe/shared/tic-tac-toe.service.ts:211-218 | the candidate list from (row, column) has one entry per empty cell from there (by induction; inner test read as `j < 3`) |
| Rules.EmptyCellsCount | src/app/tic-tac-toe/shared/tic-tac-toe.service.ts:211-218 | the candidate list has exactly as many entries as the board has empty cells (inner test read as `j < 3`) |
| Rules.EmptyCellsExist | src/app/tic-tac-toe/shared/tic-tac-toe.service.ts:114-115 | while some cell is empty, the random move has a candidate |
| Rules.EmptyCountFromPlace | src/app/tic-tac-toe/shared/tic-tac-toe.service.ts:109-110 | a mark written on an empty cell lowers the count of empty cells at or after the scan point by one if it is not EMPTY and lies there (by induction) |
| Rules.EmptyCountPlace | src/app/tic-tac-toe/shared/tic-tac-toe.service.ts:109-110 | a move on an empty cell removes one empty cell, unless the mark written is 0 |
| Rules.CpuMove | src/app/tic-tac-toe/shared/tic-tac-toe.service.ts:200-207 | the cell cpuPlay marks is on the board and empty |
| Rules.CpuTakesWin | src/app/tic-tac-toe/shared/tic-tac-toe.service.ts:200-207 | when O can complete a line, the computer takes the first such cell, even if X also threatens one |
| Rules.CpuBlocks | src/app/tic-tac-toe/shared/tic-tac-toe.service.ts:204-207 | with no win for O, the computer blocks the first cell where X would complete a line |
| Rules.CpuFallsBack | src/app/tic-tac-toe/shared/tic-tac-toe.service.ts:209-221 | with neither a win nor a block, the computer plays the empty cell picked by the random source (a parameter here, not the lines as written) |
| Rules.Toggle | src/app/tic-tac-toe/shared/tic-tac-toe.service.ts:112 | the next player is X or O, and differs from the mover when the mover is X or O; every mover other than X, 0 included, is followed by X (also line 231) |
| Game.StartGame | src/app/tic-tac-toe/shared/tic-tac-toe.service.ts:91-94 | startGame hides the start screen, shows the board, changes no board, counter, line or player, and keeps the invariant |
| Game.NewGame | src/app/tic-tac-toe/shared/tic-tac-toe.service.ts:312-317 | newGame gives an empty, valid board with the counter, line and player of `Started`, the board shown and the start and end screens hidden |
| Game.EndScreens | src/app/tic-tac-toe/shared/tic-tac-toe.service.ts:118-127 | a recorded line raises the end screen and keeps the player; with no line and a non-zero counter the player becomes 0 and the end screen is raised; board, counter and line are untouched |
| Game.Mark | src/app/tic-tac-toe/shared/tic-tac-toe.service.ts:109-112 | one move keeps the invariant: the counter still accounts for every filled cell |
| Game.CpuStep | src/app/tic-tac-toe/shared/tic-tac-toe.service.ts:223-231 | cpuPlay's move keeps the invariant |
| Game.Play | src/app/tic-tac-toe/shared/tic-tac-toe.service.ts:103-128 | jogar keeps the invariant |
| Game.Reply | src/app/tic-tac-toe/shared/tic-tac-toe.service.ts:114-116 | the reply, made only with no line and fewer than nine moves, keeps the invariant |
| Game.StartsAreFresh | src/app/tic-tac-toe/shared/tic-tac-toe.service.ts:28-48 | start gives all nine cells empty, X to play, 0 moves, no line, only the start screen; newGame gives the same game with the board shown and the start and end screens hidden (lines 312-317) |
| Game.StartGameCommutesWithPlay | src/app/tic-tac-toe/shared/tic-tac-toe.service.ts:91-94 | startGame only switches screens: a move after it equals startGame after the move |
| Game.AcceptedCommutes | src/app/tic-tac-toe/shared/tic-tac-toe.service.ts:91-94 | the same for an accepted move |
| Game.ReplyCommutes | src/app/tic-tac-toe/shared/tic-tac-toe.service.ts:91-94 | the computer's reply ignores the start and board screens |
| Game.PlayRejected | src/app/tic-tac-toe/shared/tic-tac-toe.service.ts:105-107 | a move on an occupied cell, or once a line is recorded, changes nothing |
| Game.PlayWinningMove | src/app/tic-tac-toe/shared/tic-tac-toe.service.ts:109-121 | a winning human move writes the mark, counts one move, records the line, toggles the player and raises the end screen, with no computer move |
| Game.PlayComputerReplies | src/app/tic-tac-toe/shared/tic-tac-toe.service.ts:109-116 | a non-winning human move with fewer than nine moves counted is answered by one computer move on a different, formerly empty cell with the other mark; two moves are counted and the line test is made for the computer's mark |
| Game.PlayRepliesForAnyPlayer | src/app/tic-tac-toe/shared/tic-tac-toe.service.ts:109-116 | for any active player, 0 included, a non-winning human move with fewer than nine moves counted is answered by one computer move on a formerly empty cell with the toggled mark; two moves are counted, the line test is made for that mark and the end screen is raised |
| Game.PlayWithPlayerZero | src/app/tic-tac-toe/shared/tic-tac-toe.service.ts:109-127 | with player 0, a human move writes EMPTY and leaves the board alone; the computer answers with X, which is the only change to the board; two moves are counted and, with no line, the player is 0 again |
| Game.PlayEmptyRowWins | src/app/tic-tac-toe/shared/tic-tac-toe.service.ts:109-121 | with player 0, a move in a row of empty cells records a line of empty cells as the victory, leaves the board unchanged, counts one move, makes X the player and raises the end screen |
| Game.PlayLastMove | src/app/tic-tac-toe/shared/tic-tac-toe.service.ts:114-127 | a non-winning move that brings the counter to nine gets no reply; the player becomes 0 and the end screen is raised |
| Game.PlayEndScreen | src/app/tic-tac-toe/shared/tic-tac-toe.service.ts:118-127 | every accepted move raises the end screen; with no line the player becomes 0, with a line it is X or O |
| Game.MarkKeepsMarks | src/app/tic-tac-toe/shared/tic-tac-toe.service.ts:109-112 | a move overwrites no mark, and the line it records is a board line filled with the mover's mark |
| Game.ReplyKeepsMarks | src/app/tic-tac-toe/shared/tic-tac-toe.service.ts:114-116 | the reply overwrites no mark, records only a board line with one mark in all three cells and leaves the start and board screens alone |
| Game.PlayUnfold | src/app/tic-tac-toe/shared/tic-tac-toe.service.ts:103-128 | an accepted move is the human mark, then the reply, then the end screens, in that order |
| Game.PlayKeepsMarks | src/app/tic-tac-toe/shared/tic-tac-toe.service.ts:103-128 | jogar never overwrites a mark and never touches the start and board screens |
| Game.PlayRecordsLine | src/app/tic-tac-toe/shared/tic-tac-toe.service.ts:103-128 | a line jogar records is one of the eight board lines, with one mark in all three cells |
| Game.FirstReplyFallsBack | src/app/tic-tac-toe/shared/tic-tac-toe.service.ts:200-213 | after a new game's first move, neither obtainsMovement(O) nor obtainsMovement(X) finds a cell, so cpuPlay's reply always comes from the random fallback |
| Game.FirstMoveScenario | src/app/tic-tac-toe/shared/tic-tac-toe.service.ts:103-128 | after the first move of a new game, with the computer's cell supplied by `choice` (the fallback as written never ends), the computer has replied, two moves are counted, the human's X is on the played cell, no line is recorded, the player is 0 and the end screen is up |
| Game.OpeningWinsNothing | src/app/tic-tac-toe/shared/tic-tac-toe.service.ts:139-193 | on a board holding a single X, neither that X nor a first O completes a line |
| Game.WinBeforeBlockScenario | src/app/tic-tac-toe/shared/tic-tac-toe.service.ts:200-207 | with X threatening (0,2) and O able to win at (1,2), the computer plays (1,2) |
| Game.TopRowScenario | src/app/tic-tac-toe/shared/tic-tac-toe.service.ts:103-121 | X completing the top row records that row, ends the game and gets no computer reply |
| Service.TicTacToeService.constructor | src/app/tic-tac-toe/shared/tic-tac-toe.service.ts:21 | the new object holds the started state (see Left out) |
| Service.TicTacToeService.Put | src/app/tic-tac-toe/shared/tic-tac-toe.service.ts:109 | writing one array cell changes the board as `Place` does |
| Service.TicTacToeService.Start | src/app/tic-tac-toe/shared/tic-tac-toe.service.ts:28-36 | start leaves a fresh empty board and the fields of `Game.Started` (defined in `Game` after lines 28-36: empty board, 0 moves, no line, X to play, only the start screen) |
| Service.TicTacToeService.StartBoard | src/app/tic-tac-toe/shared/tic-tac-toe.service.ts:43-48 | startBoard builds a fresh board, row by row, with every cell EMPTY, and changes no other field |
| Service.TicTacToeService.StartGame | src/app/tic-tac-toe/shared/tic-tac-toe.service.ts:91-94 | startGame hides the start screen, shows the board and changes nothing else |
| Service.TicTacToeService.NewGame | src/app/tic-tac-toe/shared/tic-tac-toe.service.ts:312-317 | newGame leaves the state `Game.NewGame`: start's game with the board shown |
| Service.TicTacToeService.Jogar | src/app/tic-tac-toe/shared/tic-tac-toe.service.ts:103-128 | jogar changes the fields exactly as `Game.Play` says, in place on the same board array, and keeps the invariant |
| Service.TicTacToeService.CpuPlay | src/app/tic-tac-toe/shared/tic-tac-toe.service.ts:200-231 | cpuPlay changes the fields exactly as `Game.CpuStep` says and keeps the invariant |
| Service.TicTacToeService.ChooseMovement | src/app/tic-tac-toe/shared/tic-tac-toe.service.ts:202-221 | the cell chosen is `CpuMove` of the board; the only trace the searches leave is a test mark on that cell |
| Service.TicTacToeService.ObtainsMovement | src/app/tic-tac-toe/shared/tic-tac-toe.service.ts:240-256 | the answer is `FirstWinningCell`; a failed search leaves the board as it was; a successful one leaves `p` on the found cell only; no originally filled cell changes |
| Service.TicTacToeService.ShowX | src/app/tic-tac-toe/shared/tic-tac-toe.service.ts:266-268 | true exactly when the cell holds X |
| Service.TicTacToeService.ShowO | src/app/tic-tac-toe/shared/tic-tac-toe.service.ts:278-280 | true exactly when the cell holds O |
| Service.TicTacToeService.ShowVictory | src/app/tic-tac-toe/shared/tic-tac-toe.service.ts:290-305 | false while no line is recorded; otherwise true exactly when (posX, posY) is one of the line's cells |

## Left out

- Rules.CpuFallsBack: the random fallback (lines 209-221) is modelled as the
  empty cell `EmptyCells(board)[choice % |EmptyCells(board)|]`, with `choice` a
  parameter standing for `Math.random`. The lines as written differ in three
  ways:
  - the inner loop tests `i` instead of `j`, so it never ends. Every new game
    reaches it on its first move (`Game.FirstReplyFallsBack`), so with the code
    as written `jogar` never returns from its first call;
  - line 220 reads `movement[k]` where `movements[k]` is meant;
  - `length - 1` never picks the last candidate.

  The model states only that the chosen cell is empty and is one of the
  candidates.
- Service.TicTacToeService.constructor: the source constructor leaves every
  field undefined until `start()` is called. The model's constructor runs
  `Start`, so the object is defined from the start.
- The getters `showStart`, `showEnd`, `showBoard` and `player` (lines 55-84)
  are the public fields of the class. They have no members of their own.
- The service's dynamically typed fields are modelled with fixed types:
  - `victory` (`false` or an array of pairs) is `Option<seq<(int, int)>>`;
  - the answer of `obtainsMovement` (`[]` or a pair) is `Option<(int, int)>`;
  - the board is a fixed 3x3 array.
- Moves outside the board: `jogar`, `showX` and `showO` require
  `0 <= posX, posY < 3`. The source does no bounds check. The model assumes that
  whatever calls `jogar` passes board cells. No caller of it is part of this
  model: the component (`tic-tac-toe.component.ts:59-60`) calls a `play`
  method that the service does not define, and its template is not available.
- `endGame` takes the board as an argument in the source. Here it is a pure
  function of a board value, which `jogar`, `cpuPlay` and `obtainsMovement`
  call on the current board.
- A "draw only when the board is full" property is not stated. The code does
  not guarantee it; see `Game.PlayEndScreen`.
- The Angular component, its templates and styles, the modules, the
  `@Injectable` decorator and the "should create" specs are not part of this
  model. They are framework wiring and presentation.
