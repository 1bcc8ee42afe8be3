# Checkers with a Monte Carlo tree search opponent — a Dafny model

The system is a game of checkers played on an 8x8 board. A human plays white,
and a Monte Carlo tree search (MCTS) plays black. The model covers three parts
of the game:

- **The rules engine of the search** (`rules.dfy`, module `Rules`). This part
  generates the captures and simple steps of one piece. It generates every
  legal move of the side to move, with captures mandatory. It applies a move
  to a copy of the board, which includes crowning a piece and counting moves
  since the last capture. It also reports the end of a game as a code: 0 means
  the game goes on, 1 a white win, 2 a black win and 3 a draw.
- **The search tree** (`search.dfy`, module `Search`). This part builds the
  root and its children. It runs the iterations of selection, expansion,
  simulation and backpropagation, then picks the move to play.
- **The human side and the game manager** (`piece.dfy`, module `Pieces`, and
  `manager.dfy`, module `Manager`). `Piece.ValidMove` and `Piece.ForcedMove`
  work on the manager's 8x8 array of piece objects. The manager places the
  pieces, selects a piece, moves it and removes a captured piece. It ends a
  turn, which covers crowning, chained captures, passing the turn and
  recording the end of the game.

`board.dfy` (module `Board`) holds the value types the search uses: a piece
record, a move, and the board as a sequence of columns of optional pieces.

The search's positions are values (`seq<seq<Option<PieceObject>>>`). The C#
code copies them before every change, so values capture them exactly. Tree
nodes, the search itself, pieces and the manager are updated in place, so
they are classes. The manager's board is an `array2<Piece?>`.

## Behaviour the model keeps as the code has it

- **Which side moves.** The side the rules engine moves for is the search's
  `isAlgorithm` flag. The pieces that move are those whose `isWhite` differs
  from the flag. `StartMCTS` clears the flag, while `Backpropogation` and the
  initial value set it. `Rules.LegalMoves` and `Rules.EndGameResult` take the
  flag as an explicit `side` parameter.
- **The flag after the first iteration.** Backpropogation sets the flag, and ExecuteAlgorithm does not clear it again. So from the second iteration on, Expansion and Simulation start from black's moves, even on a child where white is to move.
- **Immutable node fields.** A node's position, move, parent and last moved piece are `const`. The code assigns them only in object initialisers (Assets/MCTS.cs:102-111, 145-154, 527-549).
- **The tree stays one level deep.** Backpropagation credits the result to the
  selected child of the root and clears that child's children, so the nodes
  added under it never survive an iteration.
- **The no-progress counter.** `CreateStateFromMove` treats a move as a
  capture when it changes y by two. The manager's human move counts one step
  once. The search's move counts a step twice: once in `MovePiece` and once in
  `MonteCarloMove`.
- **The end-of-game check after a turn.** It runs on the manager's board with
  the search's current flag. The flag decides whose moves count for a draw,
  so it is a parameter (`side`) of `EndTurn`, `HumanMove` and
  `MonteCarloMove`.
- **Chained captures.** The human's chain keeps the square the piece was
  first selected on (`startX`, `startY`). Both the second `ValidMove` and the
  square of the captured piece are computed from it. `MovePiece` moves the
  piece from the square it actually stands on. A piece crowned by a capture
  may go on capturing.
- **Steps while a capture exists.** `ValidMove` forbids a step up the board
  while the piece has a capture. It does not forbid a step down the board:
  black pieces and kings stepping down are never checked.

## Model

| member | source | states |
|---|---|---|
| Rules.ForcedMovesFromPiece | Assets/MCTS.cs:244-331 | one piece has at most four captures (JumpIfExact and ForcedMovesExact state which ones) |
| Rules.JumpIfExact | Assets/MCTS.cs:250-330 | one direction's test adds a move exactly when that direction is allowed for the piece, the far square is on the board and empty, and the square between holds a piece of colour `side` |
| Rules.ForcedMovesExact | Assets/MCTS.cs:244-331 | the captures generated for a piece are exactly the moves `IsCaptureFor` describes independently |
| Rules.OtherMovesFromPiece | Assets/MCTS.cs:334-406 | one piece has at most four simple steps |
| Rules.StepIfExact | Assets/MCTS.cs:341-403 | one direction's test adds a step exactly when the direction is allowed and the diagonal neighbour is on the board and empty |
| Rules.OtherMovesExact | Assets/MCTS.cs:334-406 | the steps generated for a piece are exactly the moves `IsStepFor` describes |
| Rules.ColumnPiecesMembers | Assets/MCTS.cs:212-216 | a piece is collected from a column exactly when it occupies one of the scanned squares |
| Rules.BoardPiecesMembers | Assets/MCTS.cs:208-217 | the board scan collects exactly the pieces on the board |
| Rules.MoversMembers | Assets/MCTS.cs:219-220 | the colour filter keeps exactly the pieces whose `isWhite` differs from the side flag |
| Rules.CapturesOfMembers | Assets/MCTS.cs:222-230 | the capture loop yields exactly the captures of the listed pieces |
| Rules.StepsOfMembers | Assets/MCTS.cs:231-239 | the step loop yields exactly the steps of the listed pieces |
| Rules.SidePiecesMembers | Assets/MCTS.cs:208-220 | the pieces that move are exactly the pieces on the board of the side to move |
| Rules.SidePieces | Assets/MCTS.cs:208-220 | every collected piece records a square on the board |
| Rules.PossibleMoves | Assets/MCTS.cs:206-241 | the method computes exactly `LegalMoves`: the captures of the side to move, or its steps when it has no capture |
| Rules.ScanPieces | Assets/MCTS.cs:208-217 | the scan loop collects the pieces in column-major order |
| Rules.KeepMovers | Assets/MCTS.cs:220 | the `Where` filter keeps the side's pieces in order |
| Rules.GatherCaptures | Assets/MCTS.cs:222-230 | the loop concatenates the captures of each piece |
| Rules.GatherSteps | Assets/MCTS.cs:231-239 | the loop concatenates the steps of each piece |
| Rules.CapturesAreLegalCaptures | Assets/MCTS.cs:206-230 | the captures found are exactly the captures by a piece of the side to move standing on the move's start |
| Rules.StepsAreLegalSteps | Assets/MCTS.cs:231-239 | the steps found are exactly the steps by a piece of the side to move |
| Rules.LegalMovesCharacterized | Assets/MCTS.cs:206-241 | mandatory capture, in both directions: a move is generated exactly when it is a legal capture, or it is a legal step and no capture is available |
| Rules.LegalMoveShape | Assets/MCTS.cs:206-406 | every generated move starts on an own piece and lands on an empty square of the board. It spans two squares when a capture is available and one otherwise. A jump passes over a piece of colour `side`. A non-king moves only forwards |
| Rules.NoLegalMoves | Assets/MCTS.cs:206-241 | no move is generated exactly when the side has neither a capture nor a step |
| Rules.CopyBoard | Assets/MCTS.cs:411-424 | the copy has the same colours and kings on the same squares, and every piece records its square |
| Rules.ApplyMove | Assets/MCTS.cs:409-449 | the board after a move is well-formed: every piece records its own square |
| Rules.MoveOnCopyApplies | Assets/MCTS.cs:426-447 | the source's update sequence on the copy (place, vacate, relabel, clear the jumped square, crown) gives the board `ApplyMove` describes square by square |
| Rules.MoveOnCopyCell | Assets/MCTS.cs:426-447 | the same, for one square |
| Rules.ApplyMoveFrame | Assets/MCTS.cs:426-441 | on a well-formed board, a move changes only its start and end squares and, for a jump, the square jumped over |
| Rules.CreateStateFromMove | Assets/MCTS.cs:409-449 | returns the board after the move and leaves the input unchanged. The counter is reset by a move that changes y by two and otherwise goes up by one |
| Rules.ApplyMoveCount | Assets/MCTS.cs:426-441 | a move onto an empty square keeps the number of pieces, except that a jump over a piece removes exactly one |
| Rules.LegalMoveCount | Assets/MCTS.cs:206-241 | a generated move can be applied, and afterwards the board has one piece fewer for a capture and as many otherwise |
| Rules.OngoingHasMoves | Assets/MCTS.cs:459-486 | when CheckEndGame reports 0, both colours are on the board, the side to move has a move, and the counter is at most 40 |
| Rules.ColoursRemaining | Assets/MCTS.cs:461-471 | the scan finds a white piece exactly when one is on the board, and likewise for black |
| Rules.CheckEndGame | Assets/MCTS.cs:459-486 | the result is `EndGameResult`: 2 with no white piece, else 1 with no black piece, else 3 when the side cannot move or more than 40 moves passed without a capture, else 0 |
| Search.Node.constructor | Assets/MCTS.cs:9-18 | a node holds its position, counts, move, parent and last moved piece, and has no children |
| Search.RandomMove | Assets/MCTS.cs:452-456 | the move is one of `PossibleMoves` drawn with `Random.Range(0, count - 1)`, so with two or more moves the last is never drawn. None stands for no moves |
| Search.FirstMinIndex | Assets/MCTS.cs:492 | the index of the first least value, which is what a stable `OrderBy(...).First()` returns |
| Search.FirstMaxIndex | Assets/MCTS.cs:491 | the index of the first greatest value |
| Search.LeastIsNotMost | Assets/MCTS.cs:489-496 | when counts differ, the child chosen as written has strictly fewer simulations than the most simulated one |
| Search.LeastVersusMostExample | Assets/MCTS.cs:492 | with counts [1, 2], the code takes child 0 while the intent is child 1 |
| Search.NextSideExact | Assets/MCTS.cs:113-115 | after a move, the side keeps the turn exactly when the moved piece has a capture from its new square, and otherwise the turn passes |
| Search.DrawableExact | Assets/MCTS.cs:452-456 | a move is one RandomMove can draw exactly when some index in `Random.Range(0, count - 1)` holds it |
| Search.LineExtend | Assets/MCTS.cs:127-131 | a line of play stays one when a new leaf is pushed on it: made from a position where the game goes on, by a drawable move of the side then to move, with the counter CreateStateFromMove gives |
| Search.LineCounterBound | Assets/MCTS.cs:127-131 | the loop only moves on from a game that goes on, so the counter at the end of a line of two or more positions is at most 41 |
| Search.SumSimulations | Assets/MCTS.cs:79 | the `Sum` loop gives the total simulations of the children |
| Search.LegalMovesApplicable | Assets/MCTS.cs:537-540 | every move PossibleMoves gives can be applied by CreateStateFromMove |
| Search.NewChildren | Assets/MCTS.cs:535-551 | one fresh, distinct child per move, in order, each on the position after its move, with one simulation and no win |
| Search.NewTree | Assets/MCTS.cs:523-551 | a fresh root on the position, with one child per legal move of the flag's side, in generation order |
| Search.Mcts.constructor | Assets/MCTS.cs:41-45 | the flag starts set, the counter at 0, and the algorithm not running; the root starts without children |
| Search.Mcts.StartMCTS | Assets/MCTS.cs:520-558 | the tree is built for the old flag, the tree invariant holds, the counter is reset, the flag cleared and the algorithm running |
| Search.Mcts.Selection | Assets/MCTS.cs:77-94 | over the children's UCB scores: the first greatest score when any score is positive, the last child when all are zero, and None without children |
| Search.Mcts.SimulateMove | Assets/MCTS.cs:138-160 | a fresh leaf under the node, made by a legal move of the flag's side that RandomMove can draw (never the last of two or more). The counter follows CreateStateFromMove. The flag flips unless the moved piece can capture again. The leaf has one piece fewer after a capture. None exactly when there is no move |
| Search.Mcts.Expansion | Assets/MCTS.cs:97-118 | the same as SimulateMove (a drawable legal move of the flag's side, the counter and the flag as the move leaves them), with the new node appended to the node's children |
| Search.Mcts.SimulationStep | Assets/MCTS.cs:127-132 | on a game that goes on, a move always exists; the new leaf is made by a drawable move of the flag's side, the flag and counter follow the move, and it removes a piece or raises the counter, which stays at most 41 |
| Search.Mcts.SimulationRound | Assets/MCTS.cs:127-131 | one pass of the loop: from a top where the game goes on, the node pushed extends the line by a drawable move of the side to move with the counter it leaves, the loop test is taken on it, and the position loses a piece or the counter rises while staying at most 41 |
| Search.Mcts.Simulation | Assets/MCTS.cs:121-135 | the loop ends. The stack starts at the node, and each later node is a new leaf made by a drawable legal move of the side the flag named at that point, from a position where the game was still going on. The flag then follows NextSide and the counter CreateStateFromMove. Sides and counters start at the flag and counter on entry and end at those on exit. The top is the first finished game, for that flag and counter |
| Search.Mcts.Backpropogation | Assets/MCTS.cs:163-190 | for a finished game, the parent of the bottom node gains one simulation and, when black won (code 2), one win, and loses its children. The flag is set again |
| Search.Mcts.ExecuteAlgorithm | Assets/MCTS.cs:67-74 | one iteration keeps the tree invariant and the root's children, and leaves the counter at 1 when it fails. Otherwise it plays out the child Selection chose under the UCB scores, from the flag it finds and the counter at 1: a drawable first move, then moves each from a game still going on, up to the first finished game. That child gains one simulation and one win exactly when the game played out ends in code 2, and it loses its subtree. The flag ends set, the counter is the one that game ended with, and every other child is unchanged. None and no node changed when there is no child or the chosen child has no move |
| Search.Mcts.PlayOutChild | Assets/MCTS.cs:69-73 | the counter is set to 1, then the rest of an iteration runs for a given child index, with the same guarantees |
| Search.Mcts.PlayOutAt | Assets/MCTS.cs:71-73 | the same, on the counter as it stands |
| Search.Mcts.PlayOut | Assets/MCTS.cs:71-73 | true exactly when the flag's side has a move at the node. Then the game played out from it, from the counter as it stands, is a line of fresh nodes made by drawable moves, each from a game still going on, ending at the first finished game. The node gains one simulation, one win exactly when that game ends in code 2, and no subtree, the flag ends set and the counter is the one the game ended with. When false, nothing changes, the flag and counter included |
| Search.Mcts.Rollout | Assets/MCTS.cs:71-72 | the stack is empty exactly when the flag's side has no move at the node. Otherwise it is the game played out from the node, from a new leaf under it, and the flag and counter are those at its end |
| Search.Mcts.SimulationFrom | Assets/MCTS.cs:72 | from the leaf Expansion made (a drawable move of the side, from a given counter), the line Simulation plays completes the game played out from the selected node, and the flag and counter are those at its end |
| Search.Mcts.Credit | Assets/MCTS.cs:73 | Backpropogation after a played-out game: the selected node gains one simulation, one win exactly when that game ends in code 2, and no subtree; the flag is set and the line is untouched |
| Search.Mcts.MakeBestMove | Assets/MCTS.cs:489-496 | as written: the first least-simulated child's move, and the piece on its start square |
| Search.Mcts.MostSimulatedMove | Assets/MCTS.cs:491-495 | as intended: the first most-simulated child's move, and the piece on its start square |
| Search.Mcts.Search | Assets/MCTS.cs:58-64 | the iterations keep the tree invariant, the root and its children, and the algorithm stops |
| Search.Mcts.CalculateBestMove | Assets/MCTS.cs:561-566 | as written: after the iterations, the root and children are the same nodes and the algorithm has stopped. The move handed over is that of the first child with the fewest simulations (MakeBestMove). None exactly when the root has no child |
| Search.Mcts.CalculateBestMoveIntended | Assets/MCTS.cs:561-566 | as the comment at Assets/MCTS.cs:491 intends: the same, with the move of the first child with the most simulations |
| Pieces.Piece.constructor | Assets/CheckersManager.cs:216-222 | a new piece has its colour, is not a king, and records its square |
| Pieces.Piece.ForcedMove | Assets/Piece.cs:49-94 | a capture needs two rows of room in a direction the piece may move, and an opposing piece on the board |
| Pieces.Piece.ForcedMoveExact | Assets/Piece.cs:49-94 | ForcedMove holds exactly when, in some direction the piece may move, the neighbour holds an opposing piece and the square beyond is on the board and empty |
| Pieces.Piece.ValidMove | Assets/Piece.cs:11-46 | an occupied destination is refused. A valid move is a step or a jump over an opposing piece in an allowed direction. A step up is refused while the piece has a capture. Conversely, each such move onto an empty square is valid |
| Manager.StartRowCount | Assets/CheckersManager.cs:179-202 | the layout puts four pieces on each of rows 0-2 and 5-7 and none elsewhere |
| Manager.ForcedInColumnMembers | Assets/CheckersManager.cs:245-248 | a piece is collected from a column exactly when it stands on a scanned square and has a capture there |
| Manager.ForcedScanMembers | Assets/CheckersManager.cs:244-248 | the scan collects exactly the pieces with a capture from where they stand |
| Manager.OfColourMembers | Assets/CheckersManager.cs:157 | the `Where` filter keeps exactly the pieces of the given colour |
| Manager.CheckersManager.constructor | Assets/CheckersManager.cs:12-28 | an empty board, white to move, nothing selected, no outcome, counter 0 |
| Manager.CheckersManager.Snapshot | Assets/MCTS.cs:499-517 | the conversion gives, square by square, the colour, kingship and recorded square of the piece there |
| Manager.CheckersManager.SnapshotWellFormed | Assets/MCTS.cs:499-517 | on a valid manager, the converted board has every piece recording its own square |
| Manager.CheckersManager.MovePiece | Assets/CheckersManager.cs:225-236 | nothing changes for a negative square. Otherwise the piece leaves its square and occupies and records (x, y), other squares are kept, and the counter rises by one |
| Manager.CheckersManager.GeneratePiece | Assets/CheckersManager.cs:205-222 | a fresh uncrowned piece of the given colour on (x, y), and all other squares kept |
| Manager.CheckersManager.GenerateRow | Assets/CheckersManager.cs:184-201 | one row of the layout: fresh pieces on the dark squares of row y, and nothing else changed |
| Manager.CheckersManager.Generate | Assets/CheckersManager.cs:179-202 | every starting square holds a fresh, uncrowned piece: white on rows 0-2 and black on rows 5-7. Other squares are kept |
| Manager.CheckersManager.CheckForcedMoves | Assets/CheckersManager.cs:239-250 | the list is exactly the pieces that have a capture from the square they stand on, in scan order |
| Manager.CheckersManager.NoneOfColourForced | Assets/CheckersManager.cs:155-157 | the filtered count is zero exactly when no piece of that colour has a capture |
| Manager.CheckersManager.ForcedHere | Assets/CheckersManager.cs:155-157 | the clicked piece is in the list exactly when it has a capture from its square |
| Manager.CheckersManager.CanSelect | Assets/CheckersManager.cs:154-158 | the test passes exactly when the clicked square holds a piece of the side to move that has a capture itself, or when no piece of that side has one |
| Manager.CheckersManager.SelectPiece | Assets/CheckersManager.cs:149-163 | nothing for a negative square. Otherwise the piece is selected, and its square recorded as the start, exactly when the selection test passes |
| Manager.CheckersManager.Promote | Assets/CheckersManager.cs:107-117 | the selected piece is crowned on reaching the far row (row 7 for white, row 0 for black) and is never uncrowned |
| Manager.CheckersManager.EndGameCode | Assets/CheckersManager.cs:125-127 | the code is CheckEndGame's result on the converted board with the search's flag |
| Manager.CheckersManager.PassTurn | Assets/CheckersManager.cs:121-145 | the turn flips, nothing is selected, and the game is over with outcome r exactly when r is 1, 2 or 3 |
| Manager.CheckersManager.Conclude | Assets/CheckersManager.cs:121-145 | the same, with r the end-of-game code of the board |
| Manager.CheckersManager.EndTurn | Assets/CheckersManager.cs:105-146 | the board is unchanged and the piece is crowned on its far row. After a capture with another capture available, the side keeps the turn and the piece stays selected. Otherwise the turn passes and the end of the game is recorded |
| Manager.CheckersManager.Capture | Assets/CheckersManager.cs:56-63 | the jumped square is emptied and the counter reset, and all other squares are kept |
| Manager.CheckersManager.Advance | Assets/CheckersManager.cs:51-63 | a valid human move relocates the piece (the captured square measured from the selection square), reports a capture exactly when it spans two columns, and sets the counter |
| Manager.CheckersManager.HumanMove | Assets/CheckersManager.cs:47-67 | the second click: nothing for a negative square. An invalid move drops the selection. A valid one relocates the piece, captures, crowns, and then chains or passes the turn with the end-of-game record |
| Manager.CheckersManager.Land | Assets/CheckersManager.cs:87-100 | the search's move relocates the piece and removes a jumped piece. The piece becomes selected. The counter is 0 after a capture and two higher otherwise |
| Manager.CheckersManager.MonteCarloMove | Assets/CheckersManager.cs:87-102 | the whole move of the search: the board after it, the crowning, the counter, and the chain-or-pass of EndTurn |

## Left out

- The Unity front end is not modelled: rendering, `Instantiate`, `Destroy`, transform rotation, the slider and text of `UpdateCalcTime`, and the result text. The text shown is kept as the outcome code (`outcome`).
- `GetMousePos` and the ray cast are not modelled. The clicked square is a parameter, where -1 means "off the board".
- The frame loops `CheckersManager.Update` and `MCTS.Update` are not modelled. They only dispatch to the operations modelled here: the click handling is `SelectPiece` and `HumanMove`, the search start is `StartMCTS`, and the polling is the loop of `CalculateBestMove`.
- `ReloadScene` (a timed scene reload) is not modelled.
- `InitPiece` is not modelled as such. A piece's transform position is modelled by its recorded square (`x`, `y`).
- `GetParentNode` is not modelled. Nothing calls it.
- `ConvertPieceArrayToPieceObjectArray` is modelled as the function `Snapshot`. The search's `StartMCTS` takes the converted board as input.
- Search.Mcts.Selection: the UCB1 score is computed in floating point, with a logarithm and a square root. It is an abstract non-negative parameter `ucb`, so the choice is proved for any such score, not for the float formula.
- Search.Mcts.CalculateBestMove: the wall-clock wait is replaced by a number of iterations.
- Search.RandomMove: `UnityEngine.Random` is a nondeterministic choice within the same index range.
- Search.Mcts.SimulateMove: the source fails when the position has no move. The model returns None instead.
- Search.Mcts.Selection, Search.Mcts.ExecuteAlgorithm: on a root without children, Selection returns an empty `new Node()`. The failure comes later: Expansion passes that node's null board to PossibleMoves, which fails on the first read. The model returns None from Selection, and ExecuteAlgorithm changes no node.
- Search.Mcts.constructor: the source starts with `rootNode` null (Assets/MCTS.cs:41) and its Update guards on it (Assets/MCTS.cs:62). The model starts with a root on an empty board without children. An iteration on that root finds no child and changes no node, though it still sets the counter to 1, where the source's guard skips the iteration altogether.
- Search.Mcts.MakeBestMove: the source fails on a root without children. The model returns None.
- Manager.CheckersManager.MonteCarloMove: the source fails with a null reference when no piece stands on the start square, or when a jump's middle square is empty. The model makes both a precondition.
- Manager.CheckersManager.HumanMove, Manager.CheckersManager.SelectPiece, Manager.CheckersManager.MovePiece: the clicked square is assumed below 8, as the ray cast onto the board gives.
- Manager.CheckersManager.EndTurn, Manager.CheckersManager.HumanMove, Manager.CheckersManager.MonteCarloMove: the search's flag is passed in as `side` rather than read from the search object.

## Findings

| source | as written | input that shows it | evidently intended | confidence | as-written member | corrected member |
|---|---|---|---|---|---|---|
| Assets/MCTS.cs:491-492 | `OrderBy(i => i.simulations).First()` picks the child with the fewest simulations | two children with 1 and 2 simulations: the child with 1 is played | the comment says the most simulated move is the likeliest best move, so the child with the most simulations | high (not executed) | Search.Mcts.MakeBestMove | Search.Mcts.MostSimulatedMove |

The lemmas `Search.LeastVersusMostExample` and `Search.LeastIsNotMost` state the discrepancy. `Search.Mcts.CalculateBestMove` keeps the code's choice. `Search.Mcts.CalculateBestMoveIntended` runs the same search and then makes the corrected choice.
