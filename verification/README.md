# Chess puzzle solver: search core in Dafny

This project models the game-search core of a small chess puzzle solver (`main.py`). It also models the mouse-driven board editor that sits beside that core.

- **Evaluator.** Each piece has a fixed material value: pawn 1, knight 3, bishop 3, rook 5, queen 9, king 0. White pieces count for, Black pieces against. A position scores the sum over all pieces on the board.
- **Search engine.** A depth-limited minimax with fail-soft alpha-beta pruning. It runs on one shared board, pushing and popping moves.
- **Move selector.** It scores every legal root move with a full-window search. It keeps the first move that is strictly best for the side to play and pushes that move onto the board.
- **Board editor.** It maps a pixel to a square. A left click selects a piece or moves the selected one. A right click removes a piece.

The chess rules come from an external library, which serves as the *rules oracle*. It is modelled abstractly in `oracle.dfy`. The positions reachable from a board form a game tree, `Node(placement, over, kids)`. The `kids` are the positions after each legal move, in the order the library enumerates them, and a move is its index in that order. `Board` is a class whose state is its move stack (`history`). `Push` and `Pop` change that stack, and the current position is `Follow(root, history)`. `WellFormed` states the one property of the oracle the proofs rely on: a game that is not over has a legal move.

The infinite float sentinels become the extended integer `Score = NegInf | Fin(int) | PosInf` (`scores.dfy`). Every real evaluation is an integer.

The search (`search.dfy`) has two parts:

- **Pure reference definitions.** `Minimax` is plain minimax without pruning. `AlphaBeta`, with its move scans `MaxLoop`/`MinLoop`, is the value the pruned search computes.
- **Imperative methods on the shared `Board`.** `Search` checks for a leaf or a finished game. Otherwise it hands over to `MaximizingScan` or `MinimizingScan`. These are the source's two loops: push a move, recurse, pop, update the running best and alpha (or beta), and break when `beta <= alpha`. The two branches of the source function are two methods only to keep each proof small. They do the same steps in the same order.

Each method is proved equal to its reference function. It also leaves the move stack exactly as it found it, including after a cutoff. The lemmas then prove the Knuth–Moore properties of alpha-beta against `Minimax`.

The selector (`selector.dfy`) is proved to do three things:

- commit exactly the first best move in enumeration order;
- leave a finished game untouched;
- push exactly one move whenever the game is not over and the oracle is well formed.

Two details of the model follow the source closely:

- **Alpha update.** The source raises alpha to each child's value (`alpha = max(alpha, eval)`, main.py:101), not to the running best. The model does the same. Both choices give the same values, because alpha is never below the running best.
- **Return value.** `make_best_move` returns nothing (main.py:149-171). `MakeBestMove` returns the pushed move as an out-parameter only so its contract can name it.

## Model

| member | source | states |
|---|---|---|
| `Material.PieceValue` | main.py:121-123 | the value has the table magnitude (pawn 1, knight 3, bishop 3, rook 5, queen 9, king 0), is non-negative for White and non-positive for Black, and is zero exactly for a king |
| `Material.PieceValueSwap` | main.py:121-123 | giving a piece to the other side negates its value |
| `Material.Evaluate` | main.py:118-119 | the sum of piece values over the board stays within 9 per square either way |
| `Material.EvaluateEmpty` | main.py:118-119 | an empty board scores 0 |
| `Material.EvaluateConcat` | main.py:118-119 | material is additive over any split of the squares, so the order in which pieces are summed does not matter |
| `Material.EvaluateSwapColors` | main.py:118-123 | swapping the colour of every piece negates the evaluation |
| `Material.EvaluateUpdate` | main.py:118-119 | changing one square changes the evaluation by exactly the new square value minus the old |
| `Material.StartingPlacementLevel` | main.py:175-177 | the starting position the solver opens with is materially level (score 0) |
| `Scores.Max` | main.py:100-101 | the running maximum is one of its two arguments and bounds both |
| `Scores.Min` | main.py:111-112 | the running minimum is one of its two arguments and is bounded by both |
| `SearchEngine.AlphaBeta` | main.py:90-115 | the value the pruned search computes; on a well-formed tree it is always a finite score; `AlphaBetaFailSoft` and `AlphaBetaBounds` fix its relation to plain minimax |
| `SearchEngine.MaxLoop` | main.py:94-104 | the maximizing scan's result is never below the running maximum it starts from, and is finite once a live move has been scored; `MaxLoopFailSoft` fixes its relation to the true maximum |
| `SearchEngine.MinLoop` | main.py:105-115 | the minimizing scan's result is never above the running minimum it starts from, and is finite once a live move has been scored; `MinLoopFailSoft` fixes its relation to the true minimum |
| `SearchEngine.Search` | main.py:90-115 | the search returns the pruned value `AlphaBeta` of the current position; it returns the static evaluation when depth is 0 or the game is over, whatever the window and flag; with the full window it returns plain minimax; the move stack is the same on exit as on entry |
| `SearchEngine.MaximizingScan` | main.py:94-104 | the maximizing loop pushes, searches and pops each move in order, keeps the running maximum, raises alpha, stops at the first move after which beta <= alpha, and restores the move stack |
| `SearchEngine.MinimizingScan` | main.py:105-115 | the minimizing loop does the same with the running minimum and beta |
| `SearchEngine.AlphaBetaFailSoft` | main.py:90-115 | for every window with alpha < beta the pruned value is a fail-soft bound of the true minimax value: exact inside the window, and between the true value and the crossed bound outside it |
| `SearchEngine.MaxLoopFailSoft` | main.py:94-104 | the maximizing scan keeps the fail-soft relation between its running maximum and the true maximum of the moves scanned so far |
| `SearchEngine.MinLoopFailSoft` | main.py:105-115 | the minimizing scan keeps the same relation for its running minimum |
| `SearchEngine.AlphaBetaBounds` | main.py:90-115 | the Knuth–Moore cases: true value v in (alpha, beta) gives v; v <= alpha gives a result in [v, alpha]; v >= beta gives a result in [beta, v] |
| `SearchEngine.AlphaBetaFullWindow` | main.py:158 | with the window (-inf, +inf) the pruned search equals unpruned minimax over the same move order |
| `SearchEngine.MinimaxIsExtreme` | main.py:94-115 | away from leaves and finished games, the true value is the maximum (or minimum) of the children's values and is attained by some move; with no legal move it is the starting sentinel |
| `SearchEngine.MinimaxFinite` | main.py:91-92 | if every live position has a legal move, every searched value is a finite score |
| `SearchEngine.MaxCutoffIgnoresLaterMoves` | main.py:102-103 | once the maximizing scan has cut off, moves after the cutoff are never searched: appending more moves does not change the result |
| `SearchEngine.MinCutoffIgnoresLaterMoves` | main.py:113-114 | the same for the minimizing scan |
| `Selector.Sentinel` | main.py:154 | the selector starts from the worst value there is for the side: NegInf (below every score) for White, PosInf (above every score) for Black |
| `Selector.Improves` | main.py:161 | a score improves on the running best only if it differs from it, and never by being the side's own sentinel |
| `Selector.RootScores` | main.py:156-159 | one score per legal root move, each the value of the full-window pruned search of that move with the maximizing flag `side != White`, one ply shallower; `BestSoFar` and `MakeBestMove` fix how they are used |
| `Selector.BestSoFar` | main.py:153-163 | the selection is the first score strictly better than the sentinel that no later score beats; every earlier score is strictly worse, so ties keep the earlier move; with no such score it stays at the sentinel |
| `Selector.SelectionCommits` | main.py:150-166 | when the game is not over and the oracle is well formed, some move is selected, because every score is finite and beats the infinite sentinel |
| `Selector.MakeBestMove` | main.py:149-166 | a finished game is left unchanged; otherwise each root move is searched with the full window and the maximizing flag set to `side != White`, and the first best move is chosen; the move stack afterwards is the original plus exactly that move |
| `Editor.SquareFromMouse` | main.py:81-87 | a click at y >= 600 gives no square; otherwise the square is in 0..63, its file is x // 75 and its rank is 7 - y // 75 |
| `Editor.SquareFromMouseCoversCell` | main.py:81-87 | every pixel of the 75-pixel cell in which a square is drawn (column = file, row = 7 - rank) maps back to that square |
| `Editor.Click` | main.py:179-195 | a click below the board or with another button changes nothing; a click changes only the clicked square and the selected square |
| `Editor.LeftClickSelects` | main.py:182-186 | with nothing selected, a left click selects the square exactly when a piece stands on it, and moves nothing |
| `Editor.LeftClickMoves` | main.py:187-193 | a left click on a square other than the selected one moves the selected content there, empties the source, clears the selection, and changes the evaluation by minus the value of what stood on the target |
| `Editor.LeftClickSameSquareDeselects` | main.py:188-193 | a left click on the selected square only clears the selection |
| `Editor.RightClickRemoves` | main.py:194-195 | a right click empties only the clicked square, keeps the selection, and changes the evaluation by minus the value of the removed piece |
| `Editor.StaleSelectionErasesTarget` | main.py:182-195 | after the selected square is emptied by a right click, the selection survives, and a left click on another square empties that square as well |
| `Editor.PuzzleSolver.constructor` | main.py:175-177 | a new solver holds the starting position with nothing selected |
| `Editor.PuzzleSolver.HandleClick` | main.py:179-195 | one click updates the placement and the selection in place exactly as `Click` describes |

## Left out

- Rendering and input plumbing are not modelled, because they are I/O with nothing to prove: pygame set-up, image loading, `piece_to_image_key`, `draw_board`, `draw_buttons`, `show_popup_message` and the `main` event loop. The event loop calls the selector with depth 5.
- The chess rules are not modelled. Legal-move generation, check, checkmate, stalemate and the other game-over conditions belong to the external library. Its game tree is taken as given, and no relation between a position's placement and its children's placements is assumed.
- `check_puzzle_solved` and the pop-up shown after the committed move (main.py:126-131, 168-171) are left out. They only turn two library predicates into messages.
- Floats are not modelled. The `±inf` sentinels are the `Score` datatype, and every evaluation is an integer.
- main.py:119 sums the pieces in the library's dictionary order. The model sums the 64 squares in index order. Integer addition makes the two equal, and `EvaluateConcat` proves the sum splits over any division of the squares.
- The editor and the search work on the same library board object in the source. In the model, the editor edits a `Placement`, and the search walks a game tree. The library's side to move, move stack and castling rights are not part of the editor model, and neither is the library's clearing of its move stack on edits.
- `Selector.MakeBestMove` requires `depth >= 1`, as the only call site (depth 5) does. With depth 0 the source starts the recursion at -1, which never reaches the depth-0 base case.
- Pixel positions are taken as the window reports them: 0 <= x < 600 and y >= 0.
- `if best_move:` in the source tests the library move's truth value. That value is false only for the null move, which is never legal, so the model tests for the presence of a chosen move.
- Recursion depth, stack usage and running time are not modelled.
