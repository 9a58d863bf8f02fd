# Chinese checkers engine: board, move rule and players

This project models the core of a Chinese-checkers engine played on an 81-cell axial-hex
diamond, and proves properties of the model. The model covers the following parts.

- **Board** (`Board`): the layout `init_gird` builds, with the two ten-cell apexes, and the only
  move rule, a single jump. `get_cors_by_distance` gives the six cells along the six axes, and
  `get_possible_cors` gives the landing cells of one piece.
- **Moves** (`Moves`): a side's pieces in the board dictionary's iteration order (`get_pieces`),
  `get_all_moves`, and `simulate_move` on a copy of the board. The three computer players define
  `get_pieces` with the same body. The MCTS and GRAVE nodes define `get_all_moves` with the same
  body, and the random player's `move` builds the same list inline. The MCTS and GRAVE players
  define `simulate_move` and `deepcopy_grid` with the same body.
- **Goals** (`Goals`): `hex_distance`, `is_terminal`, `get_n_pieces_corner`, `check_win`, and
  the rollout-free rewards of the two tree-search players.
- **Search tree** (`SearchTree`): the node record that MCTS and GRAVE share (`MCTSNode`,
  `GRAVENode`), the lazily cached move list (`is_fully_expanded`) and `expand`. The nodes of one
  search live in one arena, a `Tree` object whose `nodes` field the methods update in place. A
  node is named by its index, and a parent's index is smaller than its children's.
- **MCTS player** (`Mcts`): UCT selection (`best_child`), `tree_policy`, `default_policy`,
  `backup` along the parent links, and `move`.
- **GRAVE player** (`Grave`): the same search with an explicit path and a set of played moves
  in `tree_policy`, per-node AMAF ("all moves as first") tables, the blended `grave_score`, and
  the AMAF `backup`.
- **Random player** (`Random`): enumerating every move, then picking one.
- **Human player** (`Human`): a class whose `selected_piece` field is updated by clicks.

Modelling choices:

- A board is the source's dictionary as a value: `Grid(order, cells)`. `order` is the insertion
  order, which is also the iteration order, and `cells` maps each cell to its occupant. Because
  a board is a value, `deepcopy_grid` is the identity, and `simulate_move` is a function that
  leaves its input unchanged.
- `random.choice` is an arbitrary pick (`:|`).
- An exception becomes `Result.Raised` with `ValueError`, `IndexError` or `KeyError`.
- `max` returns the first maximum, which is what `FirstMax` picks.
- Rewards are exact `real`s, and the constant `1e-6` is `Epsilon`.
- The exploration term `c * sqrt(log(N + 1) / (v + 1))` is a parameter of type `Explore`, a
  function of the parent's and the child's visits. The final choice in `move` uses c = 0, which
  is `NoExplore()`.

Three behaviours of the code shape the model.

- `best_child` on a node without children calls `max` on an empty list and raises ValueError.
  In `tree_policy` this happens at a fully expanded node that is not terminal and has no move.
- The search players never return "no move". With zero simulations, or a terminal root, the root
  has no children and the final `best_child` raises ValueError. With at least one simulation and a
  root that is not terminal but has no legal move, the first round's `tree_policy` already raises
  ValueError at the root (players/mcts_player.py:62-65, players/grave_player.py:79-85). The random
  player's `random.choice` on an empty move list raises IndexError.
- `get_possible_cors` does not check that the selected cell exists or is occupied. It only looks
  at the cells one and two steps away, so a missing cell does not give an empty result.

## Model

| member | source | states |
|---|---|---|
| Board.InitGird | board.py:28-51 | The board's keys are exactly the 81 cells with -4 <= q <= 4 and -4 <= q + r <= 4, inserted in row-major order. `name1` stands exactly on the top apex (q > 0, r < -4), `name2` exactly on the bottom apex (q < 0, r > 4), and every other cell is empty. Each corner list is exactly its apex's ten cells, in row-major order, with no repeats. |
| Board.FillRow | board.py:36-49 | After the inner loop over row r, every board cell before row r + 1 has been inserted with its initial occupant, and every apex cell among them is listed in its corner list, in order. |
| Board.InsertCell | board.py:39-49 | One pass of the inner loop adds cell (q, r) empty, gives it to `name1` and appends it to `corner_cors1` exactly when it is in the top apex, and does the same with `name2` and `corner_cors2` for the bottom apex. |
| Board.FinishedGrid | board.py:35-51 | What the loops have built after row 8 is a well-formed dictionary over exactly the diamond, with the initial occupants, and corner lists equal to the two apex lists. |
| Board.CornerFinished | board.py:42-49 | A finished corner list holds exactly the apex cells of the board, equals the listed ten cells, and has no repeats. |
| Board.DiamondSize | board.py:35-38 | Rows -8..8, each running from max(-4, -r - 4) to min(4, -r + 4), hold 81 cells in all. |
| Board.TopCornerCellsExact | board.py:43-45 | The ten listed top cells are exactly the board cells with q > 0 and r < -4. |
| Board.BottomCornerCellsExact | board.py:47-49 | The ten listed bottom cells are exactly the board cells with q < 0 and r > 4. |
| Board.CornersReflect | board.py:35-49 | The diamond is closed under (q, r) -> (-q, -r), and this reflection maps the top apex onto the bottom apex and the top corner list onto the bottom one as sets. |
| Board.CornersDisjoint | board.py:42-49 | No cell is in both apexes. |
| Board.CorsByDistance | board.py:82-90 | There are six cells, and the i-th is p moved d steps along direction i, in the source's direction order. |
| Board.PivotIsMidpoint | board.py:82-90 | Along each axis, the distance-1 cell is the midpoint of p and the distance-2 cell. |
| Board.ShiftsDistinct | board.py:82-90 | For d != 0 the six cells differ from p and from each other. |
| Board.JumpsFromSpec | board.py:96-109 | The filtered list for axes i..5 holds exactly the legal landing cells along those axes, in strictly increasing axis order. |
| Board.PossibleCors | board.py:93-111 | There are at most six landing cells. |
| Board.PossibleCorsSpec | board.py:93-111 | The result is exactly the cells t for which the jump rule allows p -> t: t is two steps from p along some axis, the cell between is an occupied board cell, and t is an empty board cell. The cells come in increasing axis order, each once, and p itself is never one of them. |
| Board.PossibleCorsLegal | board.py:93-111 | A cell is listed if and only if the jump rule allows it. |
| Board.NoJumpToSelf | board.py:93-111 | No legal jump lands on its own starting cell. |
| Board.PossibleCorsLocal | board.py:93-111 | Two boards that agree on the occupancy of the six distance-1 cells and on the emptiness of the six distance-2 cells give the same result. |
| Board.SingleJump | board.py:93-111 | A piece with exactly one occupied neighbour, and an empty cell beyond it, has exactly that one landing cell. |
| Moves.Pieces | players/mcts_player.py:45-46 | On a well-formed board, these are exactly the cells holding the side's pieces, each once. |
| Moves.MovesFrom | players/mcts_player.py:19-20 | One move per landing cell, from the piece, in landing-cell order. A move is listed exactly when it starts on the piece and ends on one of the landing cells, and the list has no repeats when the landing cells have none. |
| Moves.MovesOfMembers | players/mcts_player.py:15-21 | A move is listed if and only if it starts on one of the pieces and ends on one of that piece's landing cells; the list has no repeats when the pieces have none. |
| Moves.AllMoves | players/mcts_player.py:15-21 | A side has at most six moves per piece. |
| Moves.AllMovesSpec | players/mcts_player.py:15-21 | `get_all_moves` lists exactly the pairs (p, t) where p holds a piece of the side and the jump rule allows p -> t, each once. |
| Moves.GetAllMoves | players/mcts_player.py:15-21 | The two nested loops build exactly `AllMoves`: piece by piece in iteration order, each piece's landing cells in axis order. |
| Moves.AppendMoves | players/mcts_player.py:19-20 | The inner loop appends one move per landing cell, in order, after the moves already listed. |
| Moves.SimulateMove | players/mcts_player.py:102-107 | The copy keeps the keys and their order. `to` gets `from`'s occupant, `from` becomes empty, and every other cell is unchanged. The lookup raises KeyError exactly when `from` or `to` is not a cell. |
| Moves.SimulateMoveWellFormed | players/mcts_player.py:118-119 | The copied and updated board is still a well-formed dictionary. |
| Moves.SimulateLegalMove | players/mcts_player.py:102-107 | A listed move never raises. Afterwards the side owns the same cells with `from` replaced by `to`, so its piece count is unchanged. |
| Moves.Relocate | players/grave_player.py:125-130 | Moving one of the side's pieces to a different, empty cell keeps the side's piece count and changes ownership of those two cells only. |
| Goals.HexDistance | players/mcts_player.py:113-116 | The distance is 0 exactly when a == b. |
| Goals.HexDistanceIsMax | players/mcts_player.py:113-116 | The floor division by 2 is exact: the distance is the largest of the three cube-coordinate differences. |
| Goals.HexDistanceSymmetric | players/mcts_player.py:113-116 | The distance is symmetric. |
| Goals.HexDistanceTriangle | players/grave_player.py:139-142 | The distance satisfies the triangle inequality. |
| Goals.HexDistanceAlongAxis | board.py:82-90 | Each cell of `get_cors_by_distance(p, d)` is at hex distance abs(d) from p. |
| Goals.MinDistance | players/mcts_player.py:89 | The `min` over a non-empty goal list is at most the distance to every goal cell, and equals the distance to one of them. |
| Goals.MinDistanceZero | players/grave_player.py:113 | A piece's distance to the goal is 0 exactly when it stands on a goal cell. |
| Goals.TotalDistanceZero | players/mcts_player.py:86-90 | The summed distance is 0 exactly when every piece stands on a goal cell. |
| Goals.SumDistances | players/mcts_player.py:86-90 | The loop raises ValueError exactly when there are pieces and no goal cells. Otherwise it returns the summed distance, or 0 without pieces. |
| Goals.CountIn | players/mcts_player.py:121-123 | The count is at most the number of pieces, and equals it exactly when every piece is in the corner. |
| Goals.IsTerminal | players/mcts_player.py:109-111 | On a well-formed board, the position is terminal exactly when every cell the side owns is in the goal corner (vacuously true without pieces). |
| Goals.PiecesInCorner | players/mcts_player.py:121-123 | On a well-formed board, `get_n_pieces_corner` is the number of corner cells the side owns. It is at most the side's piece count, with equality exactly when `is_terminal` holds. |
| Goals.CheckWin | players/random_player.py:27-30 | With the threshold at the side's piece count, `check_win` holds exactly when the position is terminal. A threshold above the piece count never wins, and one of 0 or less always does. The human player's `check_win` has the same body. |
| Goals.MctsRewardRange | players/mcts_player.py:84-94 | With pieces, the MCTS reward lies in (0, 1/1e-6], and reaches 1/1e-6 exactly when every piece is home. |
| Goals.GraveRewardRange | players/grave_player.py:106-115 | With pieces, the GRAVE reward lies in (0, 1], and is 1 exactly when every piece is home. |
| SearchTree.Tried | players/mcts_player.py:72 | `tried_moves` has one entry per child, that child's move, and a move is tried exactly when some child was reached by it. |
| SearchTree.Pending | players/mcts_player.py:73 | A move is untried exactly when it is in the cached list and no child has it. |
| SearchTree.FullIffNonePending | players/mcts_player.py:23-27 | With the invariants the tree keeps, there are never more children than moves, and `len(tried) >= len(untried_moves)` holds exactly when no move is untried. So the `random.choice(node.children)` fallback is unreachable from `tree_policy`. |
| SearchTree.Tree.constructor | players/mcts_player.py:5-13 | The tree is a single root node over the given board: no parent, no move, no children, no visits, and no cached move list. |
| SearchTree.Tree.Cache | players/mcts_player.py:24-25 | The node's move list is filled with `get_all_moves` on first use, and it is unchanged if already filled. No other node and no other field changes. |
| SearchTree.Tree.IsFullyExpanded | players/mcts_player.py:23-27 | After caching, the result is `len(children) >= len(untried_moves)`, which holds exactly when no move is untried. |
| SearchTree.Tree.Expand | players/mcts_player.py:68-82 | With an untried move, exactly one child is appended to the node and to the arena. Its move is untried, its board is `simulate_move` of the parent's, its parent is the node, and its counters are zero. Without an untried move, the method returns an existing child, or raises IndexError when there is none. Either way the tree stays consistent and child moves stay distinct. |
| SearchTree.Tree.ExpandIfPending | players/mcts_player.py:62-63 | At a node that is not fully expanded, `expand` always creates a fresh child whose move is a legal move of the node's board. Otherwise the node has at least as many children as moves, and nothing is added. |
| SearchTree.Tree.AddChild | players/mcts_player.py:78-82 | The new child is appended last, its parent's child list grows by it, and its board is the parent's board after the move. |
| SearchTree.AppendChildOk | players/mcts_player.py:78-82 | Appending the child of an untried move keeps every node consistent, including distinct child moves. |
| SearchTree.Mean | players/mcts_player.py:32 | The average is 0 before the first visit; otherwise average * visits = total reward. |
| SearchTree.Anc | players/mcts_player.py:97-100 | The nodes `backup` passes through start at the node, and none has a larger index. |
| SearchTree.RootInAnc | players/mcts_player.py:97-100 | Following the parent links from any node reaches the root. |
| SearchTree.BumpCover | players/mcts_player.py:96-100 | Adding one visit to a node and to each of its ancestors keeps every node's visits at least the sum of its children's visits. |
| SearchTree.GrownCover | players/mcts_player.py:78-82 | Filling move lists and appending unvisited children also keeps that invariant. |
| SearchTree.RootChildMove | players/mcts_player.py:56-58 | The move of any root child is a legal move of the side on the root board. |
| Mcts.Uct | players/mcts_player.py:29-33 | An unvisited child scores its exploration term alone. For a visited child, the score minus the exploration term, times the child's visits, is its total reward. |
| Mcts.BestChild | players/mcts_player.py:29-34 | The result raises ValueError exactly when there are no children. Otherwise it is a child with the highest score, the first one among equals. |
| Mcts.TreePolicy | players/mcts_player.py:60-66 | The tree stays consistent and only grows. The node returned is either the one new node, or an existing terminal node when nothing was added. A terminal root is returned and the tree is unchanged. ValueError is raised only when the tree holds a node that is not terminal and has no move, and then nothing was added. A root that is not terminal and has a move has a child afterwards. |
| Mcts.Descend | players/mcts_player.py:61-65 | At a node, `best_child` raises ValueError exactly when the node's board has no move for the side, and then a node that is not terminal is stuck. Otherwise the result is a later node and a child of the node, and it is the one new node exactly when `expand` created it. |
| Mcts.DefaultPolicy | players/mcts_player.py:84-94 | The result is the MCTS reward: 0 without pieces, ValueError with pieces and no goal cells, and otherwise 1 / (average distance + 1e-6). |
| Mcts.Backup | players/mcts_player.py:96-100 | Exactly the node and its ancestors get one visit more and the reward added; every other node and every other field is unchanged. The visits invariant is kept. |
| Mcts.Simulate | players/mcts_player.py:52-54 | One round keeps the tree consistent and the visits invariant, and adds at most one node. The root keeps its board and gets one visit more, and it gets no child while it is terminal; a root that is not terminal and has a move has a child afterwards. The round raises ValueError only with an empty goal list or when the tree holds a stuck node. |
| Mcts.Search | players/mcts_player.py:49-54 | After the loop, the root is over the given board and has `simulations` visits. It has no children when no round ran or when it is terminal, and has one after a round when it is not terminal and has a move. ValueError is raised only with an empty goal list or at a stuck node. |
| Mcts.Move | players/mcts_player.py:48-58 | ValueError is raised whenever there is no round, the root is terminal or the side has no move; besides these cases it is raised only with an empty goal list or at a stuck node. A returned move is a legal move of the side, and the root has `simulations` visits. The move is that of the first root child with the highest average reward: no root child has a higher one, and every earlier one a strictly lower one. |
| Mcts.FirstBestOfBestChild | players/mcts_player.py:56 | The child `best_child(c_param=0)` picks at the root is the first one with the highest average reward. |
| Grave.AmafVisits | players/grave_player.py:38 | `amaf_visits.get(move, 0)`: the recorded count of a credited move, 0 for any other, and a positive count only for a credited move. |
| Grave.AmafReward | players/grave_player.py:39 | `amaf_total_reward.get(move, 0)`: the recorded total of a credited move, and 0 for any other. |
| Grave.AmafMean | players/grave_player.py:40 | `q_amaf` is 0 while the move has no AMAF visit, and otherwise `q_amaf * amaf_v == amaf_w`. |
| Grave.Beta | players/grave_player.py:42 | β lies in [0, 1), and is 0 exactly for an unvisited child. |
| Grave.BlendBetween | players/grave_player.py:43 | The blended value lies between q and q_amaf. |
| Grave.GraveQ | players/grave_player.py:36-43 | `grave_q` lies between the child's own average and the AMAF average of its move, and is the AMAF average while the child is unvisited. |
| Grave.GraveScore | players/grave_player.py:35-45 | The score minus the exploration term lies between the child's own average and the AMAF average. An unvisited child scores the AMAF average plus its exploration term. |
| Grave.BestChild | players/grave_player.py:34-47 | The result raises ValueError exactly when there are no children. Otherwise it is a child with the highest GRAVE score, the first one among equals. |
| Grave.TreePolicy | players/grave_player.py:73-88 | The path runs down from the root and is empty exactly when the root is terminal. At most one node is created, and a new node is appended to the path and has empty AMAF tables. A terminal node reached by descent is returned but not appended. The played moves are exactly the moves of the nodes entered below the root. ValueError is raised only when the tree holds a node that is not terminal and has no move, and then nothing was added. |
| Grave.Enter | players/grave_player.py:77-86 | One pass of the loop appends the node to the path. It raises ValueError only at a stuck node, with nothing added; or it returns the new child, appended to the path with its move recorded; or it goes on at a deeper child, with its move recorded and the loop's invariant kept. |
| Grave.Descend | players/grave_player.py:79-86 | `best_child` raises ValueError exactly when the node's board has no move for the side, and then a node that is not terminal is stuck. Otherwise the result is a later node and a child of the node with its move set. When `expand` created it, it is the one new node and has empty AMAF tables; otherwise no node was added. |
| Grave.SelectedRootChild | players/grave_player.py:77-83 | A round that starts at a root that is not terminal leaves the root with a child. |
| Grave.SelectedFresh | players/grave_player.py:79-83 | `tree_policy` adds at most one node, and that node starts with empty AMAF tables. |
| Grave.PlayedStep | players/grave_player.py:85-86 | Entering a child below the path's end adds exactly that child's move to the played set. |
| Grave.ChainAnc | players/grave_player.py:73-88 | A path from the root holds exactly the nodes on the parent links from its last node, each once. |
| Grave.CreditSpec | players/grave_player.py:121-123 | Each played move gets one AMAF visit more and the reward added to its AMAF total; every other move's entries are unchanged. |
| Grave.CreditSeqIsCredit | players/grave_player.py:121-123 | Running the inner loop's body over distinct moves, in any order, credits exactly the set of them. |
| Grave.AddPlayed | players/grave_player.py:121-123 | The inner loop, over the played set in any order, gives exactly `Credit`. |
| Grave.BackedTimesCounts | players/grave_player.py:118-120 | A node that the path lists t times gets t visits and t times the reward. Its board, parent, move, children and move list stay. |
| Grave.BackedTimesAmaf | players/grave_player.py:121-123 | After t passes, each played move has t AMAF visits more and every other move has the same count. |
| Grave.Backup | players/grave_player.py:117-123 | Each node gets one pass per occurrence on the path, and nodes off the path are unchanged. The tree stays consistent, and the AMAF bound is kept. |
| Grave.BackupBounded | players/grave_player.py:117-123 | If no AMAF entry exceeds its node's visits before backup, none does after. |
| Grave.GrownBounded | players/grave_player.py:100-104 | Adding a node with empty AMAF tables keeps the AMAF bound. |
| Grave.ChainBackup | players/grave_player.py:117-120 | Backing up along a path from the root keeps every node's visits at least its children's total, and adds one visit to the root unless the path is empty. |
| Grave.DefaultPolicy | players/grave_player.py:106-115 | The result is the GRAVE reward: 0 without pieces, ValueError with pieces and no goal cells, and otherwise 1 / (1 + average distance). |
| Grave.Simulate | players/grave_player.py:65-67 | One round keeps the tree consistent, the visits invariant and the AMAF bound, and adds at most one node. The root keeps its board and gets one visit more unless it is terminal. It gets no child while it is terminal, and, when the round does not raise, it has a child otherwise. The round raises ValueError only with an empty goal list or when the tree holds a stuck node. |
| Grave.Search | players/grave_player.py:62-67 | After the loop, the root is over the given board, with `simulations` visits, or 0 if no round ran or the root is terminal; after a round at a root that is not terminal it has a child. Every node keeps the AMAF bound. ValueError is raised only with an empty goal list or at a stuck node. |
| Grave.Move | players/grave_player.py:61-71 | ValueError is raised whenever there is no round, the root is terminal or the side has no move; besides these cases it is raised only with an empty goal list or at a stuck node. A returned move is a legal move of the side. The move is that of the first root child with the highest blended value: no root child has a higher one, and every earlier one a strictly lower one. |
| Grave.FirstBestOfBestChild | players/grave_player.py:69 | The child `best_child(c_param=0)` picks at the root is the first one with the highest blended value. |
| Random.Move | players/random_player.py:16-25 | The list is exactly `get_all_moves` (pieces in iteration order, then axis order). The pick raises IndexError exactly when the list is empty, and is otherwise an element of it. |
| Random.PickedMoveLegal | players/random_player.py:17-22 | An enumerated move takes one of the side's pieces to a cell the jump rule allows, and simulating it keeps the side's piece count. |
| Human.HumanPlayer.constructor | human_player.py:5-10 | A new player has no selected piece. |
| Human.HumanPlayer.ResetSelectedPiece | human_player.py:12-13 | The selection is cleared. |
| Human.HumanPlayer.CheckMove | human_player.py:34-41 | True exactly when a piece is selected, the click is elsewhere, and the jump rule allows selected -> clicked. |
| Human.HumanPlayer.Move | human_player.py:15-32 | The transitions of the selection state machine. With no click, nothing changes. With nothing selected, a click on an own piece selects it, and a click on a missing cell raises KeyError. A click on the selected piece deselects it. A click on a legal landing cell returns (selected, clicked) and keeps the selection. Any other click returns (selected, None) and changes nothing. |
| Human.ProposedMoveListed | human_player.py:29-30 | A move proposed by clicks is one of the moves the computer players list for that side. |

## Left out

- Drawing and pixel geometry are not modelled: `hex_to_pixel`, `draw_board`, `get_cor_at_pos`, the cell's `'pos'` entry and the display-only global `NAME1`. They are floating-point trigonometry and pygame calls.
- game.py is not part of this model. It is the pygame event loop, rendering, CSV export and start-up.
- `print` calls and the unused `N_PIECES` constant are not modelled.
- The exploration term is an uninterpreted parameter, because `sqrt` and `log` are floating point. Selection is therefore proved for any bonus function, not for c = 1.4 in particular.
- Rewards and averages are exact reals. Python's float rounding is not modelled.
- `random.choice` is an arbitrary choice. Uniformity and other distributional claims are not modelled.
- Boards are values, so aliasing between the copied dictionaries of `deepcopy_grid` is not modelled. The copy is the identity, and `simulate_move` returns a new value.
- Grave.TreePolicy: does not state that each step down the path took the child with the highest score; it states only that each step took a child.
- Mcts.TreePolicy: does not state that the descent took the best child at each step, or that the returned node lies below the root on such a descent; it states only what the returned node is.
- Grave.Descend: does not state that a child it did not create is the one with the highest score; it states only that it is an existing child.
- Mcts.Descend: does not state that a child it did not create is the one with the highest score; that is Mcts.BestChild's contract.
- Mcts.Move: states that an empty goal list or a stuck node is needed for ValueError once the search has rounds, a root that is not terminal and a move, not that each of them causes it.
- Grave.Move: the same as Mcts.Move for the conditions of ValueError.
- Grave.Credit: carries no contract of its own, because a contract on it enters every proof about backup; Grave.CreditSpec states what it gives each move.
- Mcts.Search: states the root's visits and the tree invariants, not the statistics of the other nodes.
- Grave.Search: states the root's visits, the tree invariants and the AMAF bound, not the other statistics.
- Goals.MctsRewardRange: states nothing about how the reward compares across positions, as the reward is not monotone in a useful sense near 0.
- In the GRAVE search, a terminal node reached by descent is evaluated but not backed up, as in the source: it is not on the path, so its counters never grow.
