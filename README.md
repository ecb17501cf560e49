# Chess opponent move choice, modelled in Dafny

This project models the engine that chooses the computer's reply in a small
chess web app (`main.py`). It has three parts:

- **Material evaluator** (`evaluate_board`). It weighs piece counts: pawn 1, knight 3, bishop 3,
  rook 5, queen 9. White's pieces count positive and Black's negative. Kings count nothing.
- **Search driver** (`minimax_alpha_beta`). A depth-bounded minimax search with alpha-beta pruning.
  It applies and takes back moves on the board in place with push/pop.
- **Root move selector** (`get_best_move_alpha_beta`) and the computer's turn (`ai_move`). The
  selector scores every legal move with a full-window search. It keeps the first move whose
  score is strictly greater than the best so far.

The chess rules library is not modelled. A position is the move stack played from the initial
position. `Chess.Rules` supplies, for every such history, the legal moves in the library's order,
the game-over test and the piece counts. `Chess.Board` is the mutable board. `Push` appends to its
move stack and `Pop` removes the last move. A ghost log `pushed` records every position that
`Push` reaches, so the contracts can say which moves a search tries and in what order.

Scores are integers extended with minus and plus infinity (`Scores.Score`). The code uses
`float('-inf')` and `float('inf')` only as sentinels: the initial best value and the root window.

Pure specification functions sit next to the imperative code:

- `Search.Minimax` is the unpruned minimax value.
- `Search.AlphaBeta` is the value the pruned loop computes. `Search.Scan` is the loop state after
  `i` moves, and `Search.Examined` is the number of moves looked at before `beta <= alpha` stops
  the loop.
- `Search.Pushes` lists the positions the search pushes.
- `MoveSelector.RootScores`, `MoveSelector.Leading` and `MoveSelector.ChosenMove` describe the
  root loop.

The methods are proved equal to these functions. The lemmas prove what the functions promise:

- pruning is fail-soft, and exact in the full window;
- the loop stops at the first cutoff;
- the root picks the earliest strict maximum.

The two branches of `minimax_alpha_beta` (maximising and minimising) are the methods
`MaximizingMoves` and `MinimizingMoves`, which `MinimaxAlphaBeta` dispatches to. The root's
push/search/pop step is `ScoreMove`.

The model follows the code as written:

- ties at the root go to the first move in enumeration order;
- the evaluator scores material only, with no checkmate, stalemate, mobility, centre or king-safety term;
- the root always maximises White's score and searches the replies as the minimising side,
  whichever side is to move.

## Model

| member | source | states |
|---|---|---|
| `Scores.Max` | main.py:38-39 | Python's `max` of two scores is one of them and is at least both |
| `Scores.Le` | main.py:40 | Python's `<=` on scores: minus infinity is below and plus infinity above every integer |
| `Scores.Lt` | main.py:64 | Python's `<` on scores, the negation of `<=` with the arguments swapped |
| `Scores.Min` | main.py:49-50 | Python's `min` of two scores is one of them and is at most both |
| `Chess.Board.constructor` | main.py:12 | a fresh board has an empty move stack and has pushed nothing |
| `Chess.Board.LegalMoves` | main.py:34 | `board.legal_moves` of the current position, in the library's order |
| `Chess.Board.IsGameOver` | main.py:29 | `board.is_game_over()` of the current position |
| `Chess.Board.PieceCount` | main.py:24-25 | the number of pieces of a type and colour on the board |
| `Chess.Board.Push` | main.py:35 | push appends the move to the move stack and logs the new position |
| `Chess.Board.Pop` | main.py:37 | pop removes and returns the last move and logs nothing |
| `Evaluator.Material` | main.py:21-26 | the table `PieceValues` (pawn 1, knight 3, bishop 3, rook 5, queen 9, in that order) summed entry by entry, each weight times White's count minus Black's |
| `Evaluator.Evaluate` | main.py:20-26 | the material score of the position a move history reaches |
| `Evaluator.EvaluateBoard` | main.py:20-26 | the loop over the piece-value table returns the material score of the board's position |
| `Evaluator.MaterialWeights` | main.py:21-25 | the score is 1·pawns + 3·knights + 3·bishops + 5·rooks + 9·queens, each White minus Black |
| `Evaluator.KingsIgnored` | main.py:21-25 | positions that differ only in their kings score the same |
| `Evaluator.MaterialAntisymmetric` | main.py:23-26 | swapping White's and Black's counts negates the score |
| `Evaluator.BalancedMaterialIsZero` | main.py:23-26 | equal material for both sides, as in the initial position, scores 0 |
| `Search.Cut` | main.py:40 | the pruning test `beta <= alpha` on the loop's window |
| `Search.Update` | main.py:38-39 | one loop iteration: the window only narrows; a maximising node raises max_eval and alpha to at least the child's value with beta unchanged (main.py:49-50: the minimising mirror) |
| `Search.Scan` | main.py:33-41 | the loop state after i moves: a maximising node never changes beta and only raises alpha, a minimising node never changes alpha and only lowers beta (main.py:44-52) |
| `Search.AlphaBeta` | main.py:28-53 | the value `minimax_alpha_beta` returns: the evaluation at depth 0 or game over, else the best value of the loop stopped at `Examined` |
| `Search.MinimaxAlphaBeta` | main.py:28-53 | leaves the move stack as it found it; logs exactly the positions `Pushes` lists; returns `AlphaBeta`; at depth 0 or game over returns the evaluation and pushes nothing; fail-soft against `Minimax` whenever alpha < beta |
| `Search.MaximizingMoves` | main.py:32-42 | the maximising loop restores the board, logs `Pushes` and returns `AlphaBeta` |
| `Search.MinimizingMoves` | main.py:43-53 | the minimising loop restores the board, logs `Pushes` and returns `AlphaBeta` |
| `Search.Examined` | main.py:34-41 | the loop looks at one more move and never runs past the move list |
| `Search.ExaminedIsFirstCutoff` | main.py:40-41 | no iteration before the last one looked at ends with beta <= alpha, and if moves remain the last one does |
| `Search.MaxProgressStep` | main.py:36-41 | one maximising iteration keeps the relation between max_eval and the true best value, given a fail-soft child |
| `Search.MinProgressStep` | main.py:47-52 | one minimising iteration keeps the relation between min_eval and the true best value, given a fail-soft child |
| `Search.ScanMaximizing` | main.py:33-41 | before any cutoff, a maximising node's alpha is max(alpha, max_eval), beta is unchanged, and max_eval bounds or equals the unpruned best value |
| `Search.ScanMinimizing` | main.py:44-52 | before any cutoff, a minimising node's beta is min(beta, min_eval), alpha is unchanged, and min_eval bounds or equals the unpruned best value |
| `Search.AlphaBetaFailSoft` | main.py:28-53 | whenever alpha < beta, a result ≤ alpha bounds minimax from above, one ≥ beta from below, one strictly inside equals it |
| `Search.AlphaBetaFullWindow` | main.py:28-53 | with the window (−inf, +inf) the pruned search equals unpruned minimax |
| `Search.BestMonotone` | main.py:38-50 | considering more moves never makes the best value worse for the side to move |
| `Search.MinimaxFinite` | main.py:29-53 | when positions with no legal moves count as game over, every minimax value is finite |
| `Search.PushesWithin` | main.py:35-37 | a search only pushes positions that extend its own by between 1 and depth moves |
| `Search.VisitOrder` | main.py:34-41 | the positions one move deeper that a node pushes are those of the first k legal moves, in the library's order, where the k-th move is the first to make beta <= alpha |
| `MoveSelector.RootScores` | main.py:60-63 | the score of each legal move: minimax of the child one ply shallower with the minimising side to move |
| `MoveSelector.ChosenIndex` | main.py:60-67 | the position of the returned move, when there is one, lies within the legal-move list |
| `MoveSelector.ChosenMove` | main.py:60-67 | the move `get_best_move_alpha_beta` returns, when there is one, is a legal move |
| `MoveSelector.Leading` | main.py:64-66 | the leader after i moves is one of those i moves |
| `MoveSelector.LeadingIsFirstBest` | main.py:56-66 | the leader is the earliest strict maximum, and there is none exactly when every score is −inf |
| `MoveSelector.RootChoiceIsFirstBest` | main.py:55-67 | the returned index holds the greatest root score, every earlier score is strictly smaller, and `None` means every move scores −inf |
| `MoveSelector.RootValueIsMinimax` | main.py:57-65 | unless the root is game over, the chosen move's score is the root's minimax value with White maximising |
| `MoveSelector.BestMoveExists` | main.py:56-67 | with at least one legal move, the selector returns a legal move |
| `MoveSelector.ScoreMove` | main.py:61-63 | pushes the move, scores it with the full-window minimising search, pops it, and leaves the stack unchanged |
| `MoveSelector.GetBestMoveAlphaBeta` | main.py:55-67 | leaves the move stack unchanged, logs every root move and its search, and returns `ChosenMove` |
| `MoveSelector.AiMove` | main.py:15-17 | appends exactly the selector's move to the move stack |

## Left out

- The web page is not modelled: the title, session state, board rendering and base64 encoding (main.py:1-13, 69-77, 100-108). These are user interface and I/O.
- Move input is not modelled: UCI parsing, the legality check of the human move and the error messages (main.py:79-98). These are library calls and user interface.
- The chess rules are not modelled. Legal-move generation, `is_game_over`, `pieces` and the push/pop implementations are abstracted as `Chess.Rules` and `Chess.Board`. The only assumption, `Chess.WellFormed`, is that a position with no legal move is game over. It is used only by `MinimaxFinite`, `BestMoveExists` and `AiMove`.
- The stray token on main.py:109 is not modelled. It fails at run time and is not engine logic.
- Floating point is not modelled: scores are integers and the infinities are sentinels.
- GetBestMoveAlphaBeta: requires depth ≥ 1. With depth 0 the code searches the children at depth −1, which never reaches the depth-0 test, so only game over bounds that search.
- AiMove: requires a position that is not game over. Its caller checks this (main.py:93). Otherwise the selector may return `None` and pushing it fails.
- Chess.Board.Pop: requires a non-empty move stack, where the library raises an error instead. The search only pops moves it pushed.
