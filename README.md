# Three board games, modelled and verified in Dafny

This project models the game logic of three browser games from one
personal website. It proves properties of each model.

- **9x9 Go against a computer** (`v2/script.js`, class `NineBoardGo`). The
  human plays Black (1) and the computer plays White (-1).
  - A move builds a new board, places the stone and removes the opponent
    groups it leaves without liberties.
  - It then refuses a suicide and, for a real move, a board equal to the
    history entry second from the end. That entry is the board from before
    the mover's own previous turn, so an immediate ko recapture is never
    refused. The engine is modelled with this test as written; the intended
    test is stated and proved beside it (see "## Findings").
  - Passes are counted, and two in a row end the game. The game ends with
    area scoring (stones plus territory) and a 40.5-point threshold for
    Black.
  - The computer rates every legal empty point (position, liberties,
    contact, random share) and plays one of the best.
  - Undo takes back the human's move and the reply.
- **Othello** (`OTHELLO-2/view.js`). The page keeps an 8x8 `color` array
  (1 Black, -1 White, 0 empty), the `OK` array of cells marked as legal,
  whose turn it is (`state`), and the two scores.
  - A stone is placed and the bracketed runs are flipped in all eight
    directions.
  - The marks are cleared, the turn changes, and the legal cells of the
    side to move are marked.
  - A side without a move passes, and the game ends when neither side can
    move.
  - The computer plays a random marked cell (easy) or the first
    heaviest marked cell by a weight table (hard).
- **Tic-Tac-Toe against a minimax computer** (`xo-vs-ai/script.js`). The
  human is X and the computer O.
  - Win detection runs over the eight lines, and the empty cells are
    listed in order.
  - Minimax writes each trial move into the live board and takes it back.
    It scores -10, 10 or 0 at the end of a game and keeps the first best
    move.
  - The click and reply handlers update the board, the turn and the
    running flag.

## Layout

Files and modules:

| file | module | contents |
|---|---|---|
| `go_board.dfy` | `GoBoard` | boards as `seq<seq<int>>` values; the neighbour list; groups (walks over same-coloured neighbours); liberties; a group's removal |
| `go_flood.dfy` | `GoFlood` | the three stack-driven flood fills of the engine, as methods over `array2<int>` with a visited set and stack |
| `go_capture.dfy` | `GoCapture` | capture of the dead opponent groups next to a new stone; neighbour-by-neighbour removal equals removing them all at once |
| `go_rules.dfy` | `GoRules` | the in-place trial move; the ko test; the verdict on a move |
| `go_score.dfy` | `GoScore` | empty regions and their owners; the region fill; area scoring |
| `go_ai.dfy` | `GoAi` | the rating of a move; the best-move list |
| `go_game.dfy` | `GoGame` | the class `NineBoardGo` with its turn handlers; the undo finding |
| `othello_rules.dfy` | `OthelloRules` | the board and the runs in a direction; flipping; counting; the outcome; the weight table |
| `othello_marks.dfy` | `OthelloMarks` | the legal-move marks; the scan that sets them; the list of marked cells; the hard-mode choice |
| `othello_opening.dfy` | `OthelloOpening` | Black's first move at (2, 4) worked out on concrete boards |
| `othello_game.dfy` | `OthelloGame` | the page state as class `Othello`, its operations, and the reset finding |
| `ttt_rules.dfy` | `TicTacToeRules` | the lines; the win test; the empty-cell list; the value of a position under minimax |
| `ttt_game.dfy` | `TicTacToeGame` | the in-place minimax method; the class `TicTacToe` with its handlers |

How the source becomes Dafny:

- Code that updates state in place becomes methods.
  - The Go flood fills work on `array2` boards.
  - Othello's page state is a class whose fields the operations reassign.
  - Tic-Tac-Toe's board is an `array` that minimax writes into and
    restores.
- Each method is proved against a specification function: `Search`,
  `Placed`, `Marked`, `Capture`, `Region`, and so on.
- The properties of those functions are proved as lemmas.

## Model

| member | source | states |
|---|---|---|
| GoBoard.GetNeighbors | v2/script.js:146-153 | every point returned is orthogonally adjacent (and on the board when the point is); every on-board orthogonal neighbour is returned |
| GoBoard.ConnectedSym | v2/script.js:100-120 | belonging to the same group is symmetric |
| GoBoard.ConnectedTrans | v2/script.js:100-120 | belonging to the same group is transitive |
| GoBoard.SameGroup | v2/script.js:100-120 | two stones of one group reach exactly the same stones |
| GoFlood.CheckLiberty | v2/script.js:100-120 | the fill answers true exactly when the group at (r, c) has an empty orthogonal neighbour |
| GoFlood.NoLibertyWhenClosed | v2/script.js:105-119 | a fill that closes its visited set without meeting an empty point proves the group has no liberty |
| GoFlood.CountLiberties | v2/script.js:264-279 | the count is the number of distinct empty points next to the group |
| GoFlood.RemoveGroup | v2/script.js:123-144 | afterwards exactly the stones of the group at (r, c) are empty; every other point keeps its value |
| GoFlood.RemoveDone | v2/script.js:128-143 | when the removal stack is empty, the removed set is exactly the group |
| GoCapture.CaptureEffect | v2/script.js:49-64 | the new stone stays; only opponent stones change, and only to empty; every stone of a dead adjacent opponent group is removed; every adjacent opponent stone left has a liberty |
| GoCapture.CaptureAmongAll | v2/script.js:57-64 | removing the dead neighbour groups one neighbour at a time, in neighbour order, equals removing all of them at once; a capture happened exactly when some neighbour group was dead |
| GoCapture.CaptureNone | v2/script.js:57-64 | with no dead neighbour group the board is unchanged |
| GoCapture.CaptureLiberty | v2/script.js:66-69 | after the captures, the new stone's group has a liberty exactly when something was captured or it had one already |
| GoCapture.RemovalStable | v2/script.js:57-64 | removing one dead group does not change the group or liberties of another opponent stone that survives |
| GoRules.CaptureAt | v2/script.js:222-227 | one neighbour step of the trial move removes that neighbour's group exactly when it is a dead opponent group |
| GoRules.SimulateMove | v2/script.js:216-232 | the board becomes the stone placed plus its captures; the answer is true exactly when the move is not suicide |
| GoRules.JudgeRefuses | v2/script.js:66-97 | exactly a move without liberty and without capture is refused as suicide; Ko comes exactly for a real move that is not suicide and whose board equals the history entry second from the end |
| GoRules.RecaptureAccepted | v2/script.js:66-97 | after the mover's turn from g0 to g1 and the reply, a legal move that brings back g1 is judged a success whenever g1 differs from g0 |
| GoRules.KoAsWrittenMissesRecapture | v2/script.js:87-98 | after the mover's turn from g0 to g1 and the reply, the test as written flags exactly a return to g0, so the immediate recapture that brings back g1 passes |
| GoRules.KoRefusesRecapture | v2/script.js:87-98 | after the mover's turn from g0 to g1 and the reply, the intended ko test refuses exactly the move that brings back g1 |
| GoRules.OutcomeBoard | v2/script.js:49-64 | a move keeps the board well formed and keeps its own stone; every other changed point was an opponent stone and is now empty |
| GoRules.NotSuicideLiberty | v2/script.js:66-69 | the suicide test passes exactly when the new stone has a liberty after the captures |
| GoScore.CalculateArea | v2/script.js:305-328 | the fill marks exactly the empty region of (r, c); the size is the region's size; the owner is 1 or -1 when the region touches only that colour and 0 otherwise |
| GoScore.OwnerSameRegion | v2/script.js:324-326 | every point of one empty region gets the same owner |
| GoScore.RegionDone | v2/script.js:311-322 | a finished region fill has seen exactly the region; its two flags are exactly "touches Black" and "touches White" |
| GoScore.AreaScore | v2/script.js:283-297 | each side's points are its stones plus the empty points of the regions it alone borders |
| GoScore.ScoreBound | v2/script.js:283-297 | the two totals together never exceed 81 |
| GoScore.BlackWinLeads | v2/script.js:299 | when Black passes 40.5 it is ahead of White; when White has more than 40, Black cannot win |
| GoScore.TalliedAfter | v2/script.js:287-297 | the row-by-row tally after k points equals the counting specification at k |
| GoAi.PlacementRange | v2/script.js:239-245 | the position part lies between -2 and 14; it is 14 exactly at the five star points and negative exactly on the first line |
| GoAi.CandidateValue | v2/script.js:247-259 | a legal move keeps a liberty, so it is rated at least its position part plus 2 plus its random share, and never below 0 |
| GoAi.CandidateJudged | v2/script.js:189-191 | a point the AI accepts is one the real move then plays |
| GoAi.BestAfterIsBest | v2/script.js:176-203 | the list the scan keeps holds exactly the candidates with the highest rating so far |
| GoAi.BestAfterOrdered | v2/script.js:176-203 | the kept list is in scan order: its points are among those scanned and strictly increase in row-major order |
| GoAi.BestMoves | v2/script.js:176-203 | after the whole board, every listed point is a candidate of maximal rating, and every candidate of maximal rating is listed |
| GoAi.WhiteChoice | v2/script.js:205-207 | any entry of the best list is a legal point whose rating is at least that of every candidate |
| GoAi.NoCandidate | v2/script.js:205-211 | an empty best list means White has no legal point |
| GoAi.HasContact | v2/script.js:252-255 | the answer is whether some orthogonal neighbour holds the given colour |
| GoGame.FinalScore | v2/script.js:281-299 | a declared Black win means Black has more points; the two totals never exceed 81 |
| GoGame.UndoInvertsRound | v2/script.js:378-401 | undoing right after a move and its reply gives back the board the human moved from and the history before them |
| GoGame.UndoAsWrittenOvershoots | v2/script.js:394-398 | the undo code as written loads a board one move earlier than the one the human moved from |
| GoGame.TryMove | v2/script.js:216-232 | the trial copy holds the board after the move and its captures; legal exactly when not suicide |
| GoGame.Play | v2/script.js:49-69 | the board after the move and its captures, with the suicide verdict |
| GoGame.EvaluateMove | v2/script.js:235-262 | the score is position part + 2 x liberties after the move + 5 for touching an opponent before it + the random share |
| GoGame.RateCell | v2/script.js:182-192 | a point counts exactly when it is empty, not suicide and not refused by the ko test as written (`!isKo(tempBoard)`), and then its rating is the move's value |
| GoGame.SearchBest | v2/script.js:176-203 | the double loop leaves exactly the best list and the best score of the specification |
| GoGame.ChooseMove | v2/script.js:205-212 | None exactly when there is no candidate; otherwise a candidate of maximal rating |
| GoGame.NineBoardGo.constructor | v2/script.js:2-11 | empty board, Black to move, no history, no passes, game running |
| GoGame.NineBoardGo.MakeMove | v2/script.js:47-97 | the result is the verdict of the rules, with the ko test as written; a committed move records the old board and installs the board after captures; anything else leaves the state unchanged |
| GoGame.NineBoardGo.NextTurn | v2/script.js:165-171 | the side to move changes and nothing else |
| GoGame.NineBoardGo.HandleMove | v2/script.js:31-44 | ignored when the game is over, the point is taken or it is White's turn; a successful move installs the new board, resets the passes and gives White the turn; a refused move changes nothing |
| GoGame.NineBoardGo.EndGame | v2/script.js:281-303 | the game is over and the verdict is the area score of the board |
| GoGame.NineBoardGo.Pass | v2/script.js:155-163 | the pass count grows by one; the second pass in a row ends the game with the area score; otherwise the board is recorded and the turn changes |
| GoGame.NineBoardGo.AiMove | v2/script.js:174-213 | when the game is running White plays a legal point of maximal rating, or passes exactly when no legal point exists; the pass then has the whole effect of Pass (the board recorded and the turn changed, or on the second pass the game ended with the area score as verdict) |
| GoGame.NineBoardGo.UndoMove | v2/script.js:378-408 | with two or more recorded turns the board and history become those from before the human's last move, Black to play; with one, the empty board |
| OthelloRules.BracketedIff | OTHELLO-2/view.js:153-167 | a direction brackets exactly when a run of one or more opponent stones is closed by a stone of the mover |
| OthelloRules.RunLenExact | OTHELLO-2/view.js:158-162 | the walk's run length is the number of consecutive opponent stones |
| OthelloRules.FlipAllRecolors | OTHELLO-2/view.js:228-240 | flipping in any set of directions only turns opponent stones into the mover's colour |
| OthelloRules.PlacedEffect | OTHELLO-2/view.js:83-96 | a move fills the chosen empty cell with the mover's colour, only turns opponent stones, and leaves one empty cell fewer |
| OthelloRules.CountTotal | OTHELLO-2/view.js:242-257 | black, white and empty counts add up to 64 |
| OthelloRules.InitialCounts | OTHELLO-2/view.js:6-15 | the opening position has two black, two white and sixty empty cells |
| OthelloRules.InitialMoves | OTHELLO-2/view.js:6-15 | Black can play at (2, 4), (3, 5), (4, 2) and (5, 3) in the opening |
| OthelloRules.Outcome | OTHELLO-2/view.js:192-208 | White wins exactly when it has more stones, Black exactly when it has more, a draw exactly when equal |
| OthelloRules.WeightsShape | OTHELLO-2/view.js:303-312 | the weight table is symmetric under the board's reflections and the diagonal, and its maximum 100 sits exactly at the corners |
| OthelloMarks.MarkedMeaning | OTHELLO-2/view.js:171-178 | after the scan a cell is marked exactly when it was marked before or is empty and playable; with no move the marks stay |
| OthelloMarks.SomeBeforeAll | OTHELLO-2/view.js:170-179 | the scan's flag is set exactly when the side has a move |
| OthelloMarks.MarkedCellsSound | OTHELLO-2/view.js:318-323 | every listed cell is on the board and marked |
| OthelloMarks.MarkedCellsComplete | OTHELLO-2/view.js:318-323 | every marked cell is listed |
| OthelloMarks.MarkedCellsOrdered | OTHELLO-2/view.js:318-323 | the list is in row-major order |
| OthelloMarks.Heaviest | OTHELLO-2/view.js:331-333 | the chosen cell has the greatest weight in the list, and every cell before it weighs strictly less |
| OthelloMarks.HeaviestCorner | OTHELLO-2/view.js:303-333 | whenever a corner is among the marked cells, the hard mode takes a corner |
| OthelloOpening.OpeningAt24 | OTHELLO-2/view.js:83-96 | Black at (2, 4) in the opening turns exactly the white stone at (3, 4) |
| OthelloOpening.WhiteAnswer23 | OTHELLO-2/view.js:169-178 | after that move, (2, 3) is marked for White |
| OthelloOpening.NotBlackOpening23 | OTHELLO-2/view.js:140-167 | (2, 3) is empty but not a legal Black move in the opening |
| OthelloGame.Othello.constructor | OTHELLO-2/view.js:6-30 | the opening position, Black to move, Black's four legal cells marked, two stones each, no result |
| OthelloGame.Othello.CheckDirection | OTHELLO-2/view.js:153-167 | true exactly when the direction brackets a run of opponent stones |
| OthelloGame.Othello.CanPut | OTHELLO-2/view.js:140-151 | true exactly when some direction brackets |
| OthelloGame.Othello.Reverse | OTHELLO-2/view.js:259-293 | the board becomes the one-direction flip of the old board; nothing else changes |
| OthelloGame.Othello.Flipped | OTHELLO-2/view.js:260-291 | the repainted copy is the one-direction flip |
| OthelloGame.Othello.RunEnd | OTHELLO-2/view.js:260-265 | the walk stops just after the run of opponent stones; the run brackets exactly when the run is non-empty and the stop cell holds the mover |
| OthelloGame.Othello.DirectionReverse | OTHELLO-2/view.js:228-240 | the board becomes the old board flipped in all eight directions in loop order; nothing else changes |
| OthelloGame.Othello.RemoveInfo | OTHELLO-2/view.js:122-132 | every mark is cleared; nothing else changes |
| OthelloGame.Othello.ChangeState | OTHELLO-2/view.js:112-121 | the side to move is negated; nothing else changes |
| OthelloGame.Othello.MarkMoves | OTHELLO-2/view.js:171-178 | the marks become the old marks plus every empty playable cell; the flag says whether one was found |
| OthelloGame.Othello.ScanCell | OTHELLO-2/view.js:173 | true exactly when the cell is empty and playable for the side to move |
| OthelloGame.Othello.OKDetect | OTHELLO-2/view.js:169-191 | with a move, the legal cells are marked; without one, the turn passes and the other side's cells are marked, or on the second level the result is declared |
| OthelloGame.Othello.GameEnd | OTHELLO-2/view.js:192-208 | the result is the comparison of the two scores |
| OthelloGame.Othello.Score | OTHELLO-2/view.js:242-257 | the scores become the numbers of black and white stones |
| OthelloGame.Othello.UpdateBoard | OTHELLO-2/view.js:216-226 | the scores are recounted; the marks are what the page shows as clickable |
| OthelloGame.Othello.Put | OTHELLO-2/view.js:83-110 | the board becomes the placed-and-flipped board; the scores are counted; the next side with a move is to play with exactly its legal cells marked, or the game has ended with the counted result and no marks |
| OthelloGame.Othello.PlaceStone | OTHELLO-2/view.js:83-96 | the stone is placed and flipped, the marks are cleared and the turn passes |
| OthelloGame.Othello.AfterPut | OTHELLO-2/view.js:99-103 | the timed continuation leaves the marks and turn as in Put |
| OthelloGame.Othello.HandleCellClick | OTHELLO-2/view.js:67-80 | a click plays only on a marked cell, and not on White's turn against the computer; a marked cell, when the marks are current, is empty and playable |
| OthelloGame.Othello.ChooseTarget | OTHELLO-2/view.js:318-334 | easy mode picks the marked cell at the given position modulo their number; hard mode picks the first heaviest marked cell |
| OthelloGame.Othello.MarkedMoves | OTHELLO-2/view.js:318-323 | the list is the marked cells in row-major order |
| OthelloGame.Othello.CheckAI | OTHELLO-2/view.js:314-338 | nothing happens exactly in the two-player mode, on Black's turn or with no marked cell; otherwise the easy mode plays the marked cell at `choice` modulo their number and the hard mode the first heaviest marked cell, which is empty and legal when the marks are current, with the effect of Put |
| OthelloGame.Othello.ResetGame | OTHELLO-2/view.js:339-380 | the opening position, Black to move, exactly Black's legal cells marked, two stones each |
| OthelloGame.Othello.ResetGameAsWritten | OTHELLO-2/view.js:339-380 | the reset as written: the marks are the old marks plus Black's legal cells |
| OthelloGame.Othello.ScanAndShow | OTHELLO-2/view.js:376-377 | the scan adds the legal cells to the marks and the scores are counted |
| OthelloGame.Tally | OTHELLO-2/view.js:242-257 | the two loops count exactly the black and the white stones |
| OthelloGame.PaintRun | OTHELLO-2/view.js:271-290 | the repaint loop colours exactly the cells between the new stone and the bracketing stone |
| OthelloGame.SettledMarks | OTHELLO-2/view.js:169-191 | after a move the marks are exactly the legal cells of the side to move, and that side is one of the two players |
| OthelloGame.ResetKeepsStaleMark | OTHELLO-2/view.js:339-380 | after Black opens at (2, 4) and the page is reset, the reset as written leaves (2, 3) marked, which is not a legal Black cell |
| TicTacToeRules.CheckWin | xo-vs-ai/script.js:36-40 | true exactly when the player holds all three cells of one of the eight lines |
| TicTacToeRules.AnyLineFrom | xo-vs-ai/script.js:37-39 | trying the lines in order finds one exactly when some line from there on is held |
| TicTacToeRules.EmptyIndices | xo-vs-ai/script.js:43-47 | the list holds exactly the empty cells, each once, in increasing order |
| TicTacToeRules.FillShrinks | xo-vs-ai/script.js:76 | filling an empty cell shortens the empty-cell list by one, so the search terminates |
| TicTacToeRules.Search | xo-vs-ai/script.js:50-118 | every score is -10, 0 or 10; a chosen move is an empty cell |
| TicTacToeRules.Trial | xo-vs-ai/script.js:75-87 | the score of one tried move is -10, 0 or 10 |
| TicTacToeRules.Pick | xo-vs-ai/script.js:96-115 | the kept score is not beaten by any other, and beats every score before it |
| TicTacToeRules.SearchEnds | xo-vs-ai/script.js:53-63 | the search stops exactly on a line or a full board; -10 exactly when X has a line, 10 exactly when only O has one |
| TicTacToeRules.SearchBest | xo-vs-ai/script.js:95-117 | the move returned is best for the mover among all empty cells (highest for O, lowest for X); every empty cell before it scores strictly worse |
| TicTacToeRules.PickBest | xo-vs-ai/script.js:95-117 | the kept move's score is the best over all empty cells, and strictly better than every empty cell before it |
| TicTacToeRules.FillKeepsOther | xo-vs-ai/script.js:36-40 | placing a stone gives no line to the other player |
| TicTacToeRules.ImmediateWin | xo-vs-ai/script.js:50-118 | on an unfinished board where the mover can complete a line, the search finds the win (10 for O, -10 for X) |
| TicTacToeGame.Minimax | xo-vs-ai/script.js:50-118 | the board is exactly as it was afterwards, and the outcome is the search value with the first best move |
| TicTacToeGame.TryMoves | xo-vs-ai/script.js:66-93 | each empty cell is tried in order with its score; the board is restored |
| TicTacToeGame.TryMove | xo-vs-ai/script.js:71-92 | the cell is written, searched and written back; the board is restored and the score is the move's value |
| TicTacToeGame.BestOf | xo-vs-ai/script.js:95-117 | the move kept is the first best for the mover |
| TicTacToeGame.Highest | xo-vs-ai/script.js:97-105 | the computer's scan from minus infinity keeps the first highest score |
| TicTacToeGame.Lowest | xo-vs-ai/script.js:106-115 | the human's scan from plus infinity keeps the first lowest score |
| TicTacToeGame.TicTacToe.constructor | xo-vs-ai/script.js:16-21 | a new empty board, X to move, game running |
| TicTacToeGame.TicTacToe.ResetGame | xo-vs-ai/script.js:196-198 | a new empty board, X to move, game running |
| TicTacToeGame.TicTacToe.EndGame | xo-vs-ai/script.js:190-193 | the game stops running; board and turn unchanged |
| TicTacToeGame.TicTacToe.HandlePlayerMove | xo-vs-ai/script.js:121-144 | ignored unless the game runs, the cell is empty and it is X's turn; otherwise X is placed and the game ends on an X line or full board, or else O is to move |
| TicTacToeGame.TicTacToe.ComputerMove | xo-vs-ai/script.js:147-168 | O is placed on the cell minimax picks on the live board; the game ends on an O line or full board, or else X is to move |

## Left out

- Rendering, status text, alerts, CSS classes, animations and the timers
  (`setTimeout`) of all three pages. Each timed continuation is modelled
  as the operation it runs, called in the order the timer would call it.
- Othello's `isAnimating` lock, `reverseColor` and `queryBoard` are page
  state only. `initializeBoard` builds the page. The `mode` select value is
  a parameter.
- Othello's initial scores are parsed from the page text. The model starts
  from the counts, which the startup `updateBoard` recomputes.
- Othello's `checkAI` is also chained from `put`'s continuation and from
  the pass branch of `OKdetect`. The model keeps it as its own operation
  (`CheckAI`): called right after a move, it sees the same state. In the
  pass branch it runs before the rescan, when the marks are already
  cleared, so it finds no marked cell and does nothing.
- Easy mode's `Math.random()` in Othello and the random pick among equal
  Go moves are a parameter `choice`. Go's `Math.random() * 2` term is a
  per-point parameter `noise`.
- Go's `render` and `updateStatusAndCheckAtari` count atari stones for
  display only. The `aiEnabled` flag, `toggleAI` and `newGame` are page
  switches. Boards are kept as values, so the JSON strings of the history
  become sequence equality.
- Tic-Tac-Toe's `updateBoard` is display only. When `computerMove` meets a
  finished board, minimax returns no index and the write goes to a property
  named `undefined`, which no cell sees; the model writes nothing.
- A reset pressed while a reply timer is pending is not modelled: the late
  reply would then play on the new board.
- Integer widths do not matter here: every count stays below 100.
- GoFlood.RemoveGroup requires a stone at its start point. The engine only
  calls `removeGroup` on a stone. Started on an empty point, the source's
  loop would not end: colour 0 matches every empty neighbour, nothing
  changes, and the same points are pushed again and again.

## Findings

| source | as written | input that shows it | evidently intended | confidence | as-written member | corrected member |
|---|---|---|---|---|---|---|
| v2/script.js:394-398 | after popping the reply's and the human's entries, undo loads the last entry still in the history (or the empty board) | Black (4, 4), White (2, 2), Black (6, 6), a White reply, then undo: the board with Black's (4, 4) stone alone comes back | the board from before the human's last move, which is the second entry popped | not executed | GoGame.UndoAsWrittenOvershoots | GoGame.NineBoardGo.UndoMove |
| OTHELLO-2/view.js:339-380 | reset clears the `info` classes on the page but not the `OK` array; the rescan only adds marks, and `updateBoard` shows every cell `OK` still holds as clickable | Black opens at (2, 4), then reset is pressed on White's turn: (2, 3) stays marked, and clicking it places a black stone where Black has no legal move | the marks cleared with the board, so that only Black's legal cells are marked | not executed | OthelloGame.ResetKeepsStaleMark | OthelloGame.Othello.ResetGame |
| v2/script.js:87-98 | `isKo` compares the new board with `history[len-2]`; the history holds the boards from before each move, so that is the board from before the mover's own previous turn | a ko: Black captures a single White stone, and White at once retakes it, bringing back the board Black moved from, which is `history[len-1]`; the retake is accepted | refuse a move that brings back the board from before the opponent's last turn, `history[len-1]` | not executed | GoRules.KoAsWrittenMissesRecapture | GoRules.KoRefusesRecapture |
