# Tic-tac-toe engine and adjacency-list graph, modelled in Dafny

This project models two parts of a small Python repository:

- **The N×N tic-tac-toe engine** of `tick_tack_toe.py`:
  - cells, results and moves;
  - the validity check a player's move must pass;
  - the board, which is written one cell at a time and classified by `check_state`;
  - the classic two-player game loop;
  - the bounded-memory variant, in which a player's oldest mark is removed once their move history reaches `l` moves.
- **The adjacency-list graph** `Graph` of `graph.py`:
  - adding vertices;
  - undirected edges with a bounds check, no self-loops and no duplicates;
  - the recursive depth-first bypass that prints every vertex.

Files:

- `py_index.dfy` (module `PyIndex`): Python's negative list indices.
- `tick_tack_toe_grid.dfy` (module `TickTackToeGrid`): the values and the specification of the engine.
  - It holds the grid as nested sequences, move validity, empty-cell counting and line detection.
  - `Classify` is the classification `check_state` computes.
  - `Legal`/`Replay` describe a game as a log of turns written on a starting grid.
- `tick_tack_toe_board.dfy` (module `TickTackToeBoard`): the board.
  - It is a `class Board` over an `array2<Cell>`.
  - Its methods `EqOnRow`, `CheckState` and `SetCell` are proved against the grid specification.
- `tick_tack_toe_game.dfy` (module `TickTackToeGame`): the two game classes.
  - `Memory` holds the board and the three move histories of the bounded game as values. `MemoryReplay` plays a log of turns on them, each on the history active at that point.
  - Their fields `curPlayer`, `curCell` and, in the bounded game, `curPlayerList` are updated in place.
  - A move history is a `MoveList` object, so two fields can name the same Python list.
  - Players are objects compared by identity, as `is` does.
- `graph.dfy` (module `Graphs`): the `Graph<T>` class and its specification.
  - The class has the fields `n`, `vertexes`, `matrix`, `visited` and `output`; `output` stands for what `dfs` prints.
  - The pure `Connect` describes `make_connections`.
  - The mutually recursive reference functions `DfsFrom`/`Explore` describe the DFS pre-order. The recursive `Dfs` method and the `BypassGraph` loop are proved against them.

Three behaviours of the code look unintended; the model follows the code as written:

- **A full board is a draw.** `check_state` returns `Pair` on a full board before it looks at any line (tick_tack_toe.py:224-225). A move that fills the board and completes a line is therefore a draw, not a win. `FullGridWithLineIsPair` proves this for every such board, and `FullGridWithLineExists` exhibits one.
- **At most l-1 marks per history.** Eviction fires when the history length reaches `l` (`>=`, tick_tack_toe.py:193), so each history keeps at most `l - 1` moves (`Cap(l)`), not `l`. Player 1 can have one more mark, in the initial list.
- **Player 1's first mark is never evicted.** `cur_player_list` starts as a fresh list that is neither player's history (tick_tack_toe.py:162). When `l >= 2`, player 1's first move is recorded only there and never evicted. `TickTackToeWithMaxCells.StartGame` states this.

## Model

| member | source | states |
|---|---|---|
| TickTackToeGrid.Position.IsValid | tick_tack_toe.py:47-48 | true exactly when both coordinates lie in [0, n) and the cell is empty; negative coordinates are not wrapped |
| TickTackToeGrid.ValidMoveFillsOneCell | tick_tack_toe.py:47-48 | a move that is valid (in range, on an empty cell) turns exactly one empty cell into a mark |
| TickTackToeGrid.NotFullHasValidMove | tick_tack_toe.py:47-48 | a grid that is not full has a valid move, so a player's retry loop can succeed |
| TickTackToeGrid.EmptyGrid | tick_tack_toe.py:205-207 | a fresh grid is square, has max(n, 0) rows and every cell is empty |
| TickTackToeBoard.Board.constructor | tick_tack_toe.py:205-207 | a new board has the given n and its cells are the empty grid of that size |
| TickTackToeBoard.Board.EqOnRow | tick_tack_toe.py:210-216 | the scan returns true exactly when every element equals the first (true for empty and one-element rows) |
| TickTackToeGrid.AllEqualPairwise | tick_tack_toe.py:210-216 | equal-to-the-first is the same as pairwise equal and as each element equal to the one before |
| TickTackToeBoard.Board.CountEmptyCells | tick_tack_toe.py:219-223 | the counter equals the number of empty cells and is zero exactly when the board is full |
| TickTackToeBoard.Board.CheckState | tick_tack_toe.py:218-235 | the result is the classification of the board (full first, then any uniform line) and never `Lose` |
| TickTackToeBoard.Board.RowOrColumnWins | tick_tack_toe.py:230-234 | true exactly when some row or column is one non-empty mark |
| TickTackToeGrid.ClassifyOutcomes | tick_tack_toe.py:14-18 | never `Lose`; `Pair` exactly when no cell is empty; `Win` exactly when a cell is empty and some line is uniform |
| TickTackToeGrid.FreshGridClassify | tick_tack_toe.py:219-225 | a fresh board is `Unknown` for n >= 1 and `Pair` for n <= 0 |
| TickTackToeGrid.FullGridWithLineIsPair | tick_tack_toe.py:224-225 | every full board is classified `Pair`, even when one of its lines is complete |
| TickTackToeGrid.FullGridWithLineExists | tick_tack_toe.py:224-225 | such boards exist: a full 3×3 board with a complete row |
| TickTackToeGrid.UniformRowWins | tick_tack_toe.py:230-232 | a uniform row on a board with an empty cell gives `Win` |
| TickTackToeGrid.UniformColumnWins | tick_tack_toe.py:233-234 | a uniform column on a board with an empty cell gives `Win` |
| TickTackToeBoard.Board.SetCell | tick_tack_toe.py:237-238 | only the addressed cell changes, negative coordinates counting from the end |
| TickTackToeGrid.CountEmptyUpdate | tick_tack_toe.py:237-238 | writing one cell changes the empty count by what that cell lost and gained |
| TickTackToeGrid.CountEmptyBound | tick_tack_toe.py:205-207 | an n×n board has at most n² empty cells |
| TickTackToeGame.SwitchTwice | tick_tack_toe.py:133-139 | with distinct players, switching twice restores the player and that player's mark |
| TickTackToeGame.SwitchSamePlayer | tick_tack_toe.py:133-139 | when both seats hold the same object, the switch yields that player with O exactly when the current player is that object |
| TickTackToeGame.TickTackToe.constructor | tick_tack_toe.py:113-119 | play starts with `player1` and X on an empty board of size n |
| TickTackToeGame.TickTackToe.ChangePlayer | tick_tack_toe.py:133-139 | from `player1` to `player2` with O, from anyone else to `player1` with X |
| TickTackToeGame.TickTackToe.PlayTurn | tick_tack_toe.py:145-148 | the move is the one the active player's source returned for the current board; it is valid, the active mark is written there and the other player becomes active |
| TickTackToeGrid.ReplayExtend | tick_tack_toe.py:145-146 | a legal log followed by a valid turn is legal and replays to one more write |
| TickTackToeGrid.ReplayConsumesEmpties | tick_tack_toe.py:143-149 | each legal turn consumes one empty cell, so a game lasts at most n² turns |
| TickTackToeGame.TickTackToe.PlayRound | tick_tack_toe.py:144-149 | one round appends one turn to the log, keeps the log replaying to the board with each move the one its player's source chose, and re-evaluates the board |
| TickTackToeGame.TickTackToe.PlayUntilDecided | tick_tack_toe.py:142-149 | the loop ends on a decided board reached by a legal log of alternating turns, each move chosen by its player's source |
| TickTackToeGame.TickTackToe.StartGame | tick_tack_toe.py:141-154 | the game ends as `Pair` or `Win` within n² legal alternating turns chosen by the players' sources; the board is the replay of those turns and the reported winner is the player who moved last |
| TickTackToeGame.TurnKeepsAgreement | tick_tack_toe.py:191-194 | a turn keeps every history's cells marked with its mark and every mark on the board recorded |
| TickTackToeGame.TurnKeepsBounds | tick_tack_toe.py:191-194 | whichever history is active, a turn keeps every history within l-1 moves and in agreement with the board |
| TickTackToeGame.TickTackToeWithMaxCells.constructor | tick_tack_toe.py:157-162 | three new, empty move lists on a fresh empty board; the active list is the third, which is neither player's |
| TickTackToeGame.ThreeByThreeWithTwoNeverEnds | tick_tack_toe.py:157-202 | a new 3×3 game with l = 2 is unfinished after any number of turns, and player 1's opening move stays in the initial list |
| TickTackToeGame.TickTackToeWithMaxCells.ChangePlayer | tick_tack_toe.py:176-184 | switches player and mark and makes the new player's own history active |
| TickTackToeGame.TickTackToeWithMaxCells.WriteAndEvict | tick_tack_toe.py:191-194 | the mark is written, the move appended, and at length >= l the oldest move is popped and its cell emptied |
| TickTackToeGame.TickTackToeWithMaxCells.PlaceAndEvict | tick_tack_toe.py:191-194 | the turn's write and eviction keep the histories bounded by l-1 and in agreement with the board |
| TickTackToeGame.TickTackToeWithMaxCells.PlayTurn | tick_tack_toe.py:189-196 | the move is the one the active player's source returned and is valid; board and histories become one write-and-evict step on the active history; the other player and their own history become active |
| TickTackToeGame.MemoryReplayExtend | tick_tack_toe.py:189-194 | a valid chosen move extends a log, and its replay takes one more write-and-evict step on the history active after the log |
| TickTackToeGame.PlayedExtend | tick_tack_toe.py:188-196 | the next player's chosen valid move extends a played log; afterwards the history of the player `change_player` switches to is active |
| TickTackToeGame.MemoryReplayBounded | tick_tack_toe.py:186-197 | replaying legal turns keeps every history within l-1 moves and in agreement with the board |
| TickTackToeGame.OpeningKeepsFirstMove | tick_tack_toe.py:162 | play that starts on the empty initial list with l >= 2 keeps exactly the first move there for the rest of the game |
| TickTackToeGame.LineNeedsMoves | tick_tack_toe.py:191-194 | a line of distinct cells with one mark needs as many remembered moves of that mark |
| TickTackToeGame.ShortMemoryUndecided | tick_tack_toe.py:186-197 | with bounded histories on an n×n board, n >= 1 and l < n, no line is uniform and the board is not full, so it is `Unknown` |
| TickTackToeGame.ShortMemoryNeverDecides | tick_tack_toe.py:186-197 | every board reached by legal turns from a fresh bounded game with l < n is `Unknown` |
| TickTackToeGame.TickTackToeWithMaxCells.PlayRound | tick_tack_toe.py:188-196 | one round appends one turn to the log, and the board and the three histories stay the replay of the log, each move chosen by its player's source |
| TickTackToeGame.TickTackToeWithMaxCells.PlayUntilDecided | tick_tack_toe.py:186-197 | the loop stops on a decided board or after `fuel` turns; the board and histories are the replay of the log |
| TickTackToeGame.TickTackToeWithMaxCells.StartGame | tick_tack_toe.py:186-202 | board and histories are the replay of the legal, chosen, alternating log; reports the decided result and the last mover as winner; player 1's first move stays in the initial list when l >= 2; never finishes when 1 <= n and l < n |
| Graphs.Graph.constructor | graph.py:9-14 | the vertices are the data in order, there are no edges, and n entries are unvisited |
| Graphs.Graph.AddVertex | graph.py:43-46 | appends the data and an empty adjacency list, adds 1 to n, keeps the graph well formed and leaves `visited` as it was |
| Graphs.Graph.ExtendVertex | graph.py:48-50 | adds every item in order, each with no edges |
| Graphs.ArrangeData | graph.py:52-56 | the result is sorted and is a permutation of the arguments |
| Graphs.SortedUnique | graph.py:52-56 | any sorted permutation of the arguments equals the result, so it does not depend on the sorting method |
| Graphs.ArrangePair | graph.py:59 | two arguments come back as their minimum then their maximum |
| Graphs.Graph.IsConnected | graph.py:40-41 | a listed neighbour is a vertex other than v itself |
| Graphs.Graph.ConnectedBothWays | graph.py:40-41 | between two vertices, connection holds in one direction exactly when it holds in the other |
| Graphs.Graph.MakeConnections | graph.py:58-64 | `IndexError` exactly when min < 0 or max >= the vertex count, and then nothing changes; otherwise the sorted pair is connected |
| Graphs.ConnectEdges | graph.py:62-64 | connecting adds exactly the edge between x and y in both directions, and nothing when x == y |
| Graphs.ConnectWellFormed | graph.py:62-64 | edges stay symmetric, in range, without self-loops and without duplicates |
| Graphs.ConnectIdempotent | graph.py:62-64 | connecting the same pair twice is connecting it once |
| Graphs.ConnectSymmetric | graph.py:59-64 | connecting (x, y) and (y, x) give the same adjacency |
| Graphs.DfsFromSpec | graph.py:72-77 | `dfs(v)` prints v first, then only newly visited vertices, each once; every printed vertex has all its neighbours visited |
| Graphs.ExploreSpec | graph.py:75-77 | the neighbour loop prints exactly the vertices it newly visits, once each, and leaves every root visited |
| Graphs.Graph.Dfs | graph.py:72-77 | `visited` and the printed data are those of the reference pre-order from v |
| Graphs.Graph.DfsEach | graph.py:67-69 | running `dfs` on each still-unvisited root in order gives the reference exploration of those roots |
| Graphs.Graph.BypassGraph | graph.py:66-70 | prints the reference pre-order over all vertices in index order, then resets `visited` to n false entries |
| Graphs.BypassVisitsEveryVertexOnce | graph.py:66-77 | from an all-unvisited list, the bypass prints every vertex exactly once and visits them all |

## Left out

- `RandomPlayer`, `HumanPlayer` and `get_move` (tick_tack_toe.py:65-87) use a random generator and console input.
  - They are a parameter `source` of the game. It receives the player, a snapshot of the board and the turn number.
  - `Trusted` assumes that every move it returns is valid. This is what the players' own retry loops guarantee, and the game never checks it again.
- `OutUI`, `ConsoleOutUI`, `Board.__str__` and the game's progress messages are printing only.
  - The final announcement of `start_game` is returned as a `Report`, not printed.
- A player receives a `Position` over the live `cells` list. The model passes a snapshot value instead; this is the same thing as long as players only read it.
- TickTackToeGame.TickTackToeWithMaxCells.StartGame and TickTackToeGame.TickTackToeWithMaxCells.PlayUntilDecided: take a `fuel` bound on the number of turns.
  - On a board of size n >= 1 with `l < n`, the Python loop never ends (`ShortMemoryNeverDecides`).
  - The reason is that each history keeps at most l-1 marks, and player 1 has at most one more in the initial list. That is too few to complete a line of n or to fill the board. For example, with n = 3 and l = 2 at most two X and one O ever stand on the board.
  - The model does not show what happens after `fuel` turns.
- TickTackToeGame.TickTackToe.StartGame: requires `Trusted` of the move source.
  - With an invalid move, the Python game does one of three things, and the model does not cover those runs:
    - it overwrites a marked cell;
    - it raises `IndexError`;
    - for a coordinate in [-n, 0), it writes the cell that the index wraps to.
- Graphs.Graph.BypassGraph: requires `|visited| == n`.
  - After `add_vertex` on a constructed graph, `visited` is shorter than `n`. The source then raises `IndexError` at graph.py:68, or at graph.py:76 when a `dfs` reaches a vertex at or beyond `len(visited)` first.
  - The model does not reproduce that failure.
- Graphs.Graph.Dfs: requires `0 <= v < n` and `|visited| == n`.
  - Python's negative indices and the `IndexError` of an out-of-range vertex are not modelled for `dfs`.
- TickTackToeBoard.Board.SetCell: requires both coordinates in [-n, n).
  - Python raises `IndexError` for other coordinates (tick_tack_toe.py:238); that error path is not modelled.
  - The games only write valid moves and popped history entries, which always lie on the board.
- Graphs.Graph.IsConnected: requires `v` in [-n, n).
  - Python raises `IndexError` for other `v` (graph.py:41); that error path is not modelled.
  - `make_connections` calls it only after its bounds check.
- Graphs.Graph.Dfs: `dfs` recurses once per tree edge (graph.py:77), and CPython stops at its default recursion limit of 1000 frames with `RecursionError`.
  - The model has no recursion limit. So `Dfs`, `BypassGraph` and `BypassVisitsEveryVertexOnce` promise a complete bypass even for depth-first paths of about a thousand vertices or more, where the Python run fails.
- Graphs.Graph.MakeConnections: Python raises `IndexError`; the model returns `IndexError` as a value, with the same conditions and no state change.
- `GraphNode`, `GraphVisualization` and vector.py are floating-point geometry and plotting.
- `TwoPlayerGame` and `Player.name` are plain holders. A player is an object with a name, compared by identity.
