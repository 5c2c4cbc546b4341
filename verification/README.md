# Connect Four: engine, minimax agent and game drivers in Dafny

This project models the core of a small Python Connect Four repository.
The repository holds six scripts; five of them repeat one engine class,
`Connect4Board`:

- a 6 × 7 grid of `' '`, `'R'` and `'Y'`;
- `is_valid_move`;
- a gravity `make_move`;
- a `check_winner` that scans every 4-cell window in four directions;
- `is_full`, which looks at the top row only.

Around the engine sit the following:

- **`LongTermAgent`** (`LongTearm.py`): depth-3 minimax with alpha-beta pruning. It maximises for its own token and minimises for `'R'`, and it scores a position +1, -1 or 0 by who holds a line.
- **Random agents**: `ShortTermAgent`, `RandomAgent.make_move`, `RandomAgent.select_move` and `random_agent`.
- **Five `Connect4Game` state machines**:
  - human against human (`hello.py`);
  - human against the random agent (`ShortTearm.py`);
  - human against minimax (`LongTearm.py`);
  - random against random (`RandomAgents.py`);
  - the AI-versus-AI tournament driver (`try.py`).
- **`main.py`**: a variant on a global integer grid with its own `drop_piece`, `check_winner(row, col, player)` and `is_board_full`.

## How the model is organised

| module (file) | what it models |
|---|---|
| `Wrappers` (wrappers.dfy) | `Option`, which stands for Python's `None` |
| `Board` (board.dfy) | the `Connect4Board` engine. Row 0 is the top row, as in the source. `HasLine` is the mathematical "some 4-window holds four pieces of `p`"; `CheckWinner` is the executable scan, proved equal to it |
| `BoardLemmas` (board_lemmas.dfy) | facts about the engine: a move succeeds iff the column is valid; gravity is preserved; lines persist; piece counts; full iff no valid move |
| `Agents` (agents.dfy) | `random.choice` and `random.randint`, as functions of an explicit roll |
| `Minimax` (minimax.dfy) | `LongTermAgent`: the tree of positions the recursion visits (`GameTree`) and the alpha-beta loops over it (`TreeSearch`, `MaxLoop`, `MinLoop`) |
| `PlainMinimax` (plain_minimax.dfy) | a reference minimax over the same tree and move order, without pruning |
| `MinimaxProofs` (minimax_proofs.dfy) | the pruned search agrees with the reference; the chosen column is the first best; the scenarios on the empty board and a one-ply win |
| `Rules` (rules.dfy) | the game record shared by the drivers; the win/draw judgement after a drop; the invariant of a reachable game |
| `HotSeat` (hot_seat.dfy) | the human-against-human `Connect4Game` of `hello.py`, whose `make_move` `try.py` repeats |
| `VsRandom`, `VsMinimax` (vs_random.dfy, vs_minimax.dfy) | the human-against-computer games |
| `RandomMatch` (random_match.dfy) | the two-random-agents game |
| `AiVsAi` (ai_vs_ai.dfy) | `update`, `reset_game` and `run_ai_vs_ai` of `try.py` |
| `GlobalGrid` (global_grid.dfy) | the functions of `main.py`, including its faulty `check_winner` (see Findings) |

Several source details are abstracted:

- Each `Connect4Game` mutates `self`. The model returns a new game record instead.
- The random agents read Python's random generator. The model takes a `roll: nat` parameter instead:
  - `random.choice(vs)` is `vs[roll % |vs|]`, and every element is reachable;
  - `random.randint(0, 6)` is `roll % 7`.
- The floats `-inf` and `+inf` of `minimax` become the integer sentinels -2 and 2. No score reaches them.
- The search depth is a Peano number. The agent's depth 3 is `Succ(Succ(Succ(Zero)))`.
- The opponent of `minimax` and `evaluate` is the constant `'R'`, as in the source, even when the agent plays `'R'` itself.

Two details of the code are worth stating plainly:

- The search cutoff (LongTearm.py:72) tests only for a line of the agent and a line of `'R'`.
- The class games keep the result in `winner`. main.py prints it and leaves the loop.

## Model

| member | source | states |
|---|---|---|
| Board.Blank | LongTearm.py:14-15 | a new board holds an empty cell at every row and column |
| Board.ScanColumn | LongTearm.py:25-30 | scanning a column upward from a row finds an empty cell with every cell below it (up to that row) filled, or reports that none of those cells is empty |
| Board.LowestEmpty | LongTearm.py:26-28 | a column has a landing row iff it holds an empty cell, and that row is the lowest empty one |
| Board.Place | LongTearm.py:28 | writing one cell changes that cell and no other |
| Board.MakeMove | LongTearm.py:25-30 | a drop succeeds iff the column holds an empty cell; on success only the lowest empty cell becomes the player's piece; on failure the board is unchanged |
| Board.ScanFrom | LongTearm.py:34-55 | the window scan from a start position returns true iff some window at or after it holds four pieces of the player |
| Board.CheckWinner | LongTearm.py:32-57 | `check_winner` returns true iff some horizontal, vertical or diagonal window of four holds only the player's pieces |
| Board.IsValidMove | LongTearm.py:22-23 | `is_valid_move`: the column exists and its top cell is empty (main.py:48-49 repeats it); BoardLemmas.ValidIffMoveSucceeds ties it to a successful drop |
| Board.IsFull | LongTearm.py:59-60 | `is_full`: every top cell is occupied; BoardLemmas.FullIffNoValidMove ties it to the absence of valid moves |
| Board.ValidMovesFrom | LongTearm.py:75 | the list holds exactly the valid columns from `c` on, strictly ascending |
| Board.ValidMoves | try.py:26-27 | `get_valid_moves` lists exactly the valid columns, strictly ascending |
| BoardLemmas.CountsPartition | LongTearm.py:13-15 | empty cells and pieces together always number 42 |
| BoardLemmas.BlankBoard | LongTearm.py:14-15 | a new board obeys gravity and holds no line for either player |
| BoardLemmas.BlankCounts | LongTearm.py:14-15 | a new board holds no piece and 42 empty cells |
| BoardLemmas.AllColumnsOpen | try.py:26-27 | when every top cell is empty, the valid moves from `c` are the columns `c`..6 in order |
| BoardLemmas.BlankMoves | try.py:15-27 | on a new board `get_valid_moves` lists every column in order |
| BoardLemmas.ValidIffMoveSucceeds | LongTearm.py:22-30 | on a board obeying gravity, `make_move` succeeds iff `is_valid_move` holds |
| BoardLemmas.MoveLandsLowest | LongTearm.py:25-30 | a valid drop succeeds and changes exactly the lowest empty cell of the column |
| BoardLemmas.MovePreservesSettled | LongTearm.py:25-30 | a drop keeps gravity: no empty cell lies under a piece |
| BoardLemmas.WinPersists | LongTearm.py:32-57 | a line of four survives any later drop |
| BoardLemmas.NoLineForOther | LongTearm.py:25-57 | a drop by one player cannot create a line for the other |
| BoardLemmas.FullIffNoValidMove | LongTearm.py:59-60 | `is_full` holds iff no column is valid, iff the valid-move list is empty |
| BoardLemmas.PlaceCounts | LongTearm.py:28 | filling an empty cell adds one piece of the mover, none of the other, and removes one empty cell |
| BoardLemmas.MoveCounts | LongTearm.py:25-30 | a valid drop adds one piece of the mover, none of the other, and removes one empty cell |
| BoardLemmas.LineNeedsFourPieces | LongTearm.py:32-57 | a player with a line has at least four pieces on the board |
| BoardLemmas.FullHasSevenPieces | LongTearm.py:59-60 | a board `is_full` reports full holds at least seven pieces |
| Agents.Choose | try.py:69-70 | `random.choice` returns an element of the list |
| Agents.ChooseCovers | try.py:69-70 | every element of the list is the choice for some roll |
| Agents.RandomMove | ShortTearm.py:68-71 | the random agent's column is valid whenever the board is not full |
| Agents.RandomMoveCovers | RandomAgents.py:63-65 | every valid column is chosen for some roll |
| Agents.RandomColumn | main.py:100-101 | `random_agent` returns a column in 0..6 |
| Agents.RandomColumnCovers | main.py:100-101 | every column 0..6 is returned for some roll |
| Minimax.Evaluate | LongTearm.py:108-115 | +1 iff the agent has a line; -1 iff only `'R'` has one; 0 iff neither has |
| Minimax.Cutoff | LongTearm.py:72 | a position past the cutoff still has plies to search, at least one valid column, and no line of the agent or of `'R'` |
| Minimax.Child | LongTearm.py:81-83 | the board copy with a move played differs from the board in exactly one cell: the lowest empty cell of the column, which now holds the mover's piece |
| Minimax.GameTree | LongTearm.py:71-75 | a leaf iff the cutoff holds (depth 0, full board, or a line for the agent or `'R'`), scored by `evaluate`; otherwise one branch per valid column, in ascending order |
| Minimax.Branches | LongTearm.py:80-84 | the branches list exactly the given moves, in order, and every subtree is well formed |
| MinimaxProofs.BranchSubtrees | LongTearm.py:80-84 | branch `i` holds the whole search of the board copy with `moves[i]` played by the side to move, one ply shallower, with the other side to move |
| Minimax.ExpandNode | LongTearm.py:72-75 | past the cutoff, the depth is positive and the node expands every valid move with depth minus one |
| Minimax.TreeSearch | LongTearm.py:71-106 | the search value lies in -1..1; a leaf yields its score and no move; a node yields one of its moves |
| Minimax.MaxLoop | LongTearm.py:77-91 | the maximising loop returns no move iff its value is still -inf; any move it returns is the incoming one or one of the loop's moves |
| Minimax.MinLoop | LongTearm.py:92-106 | the minimising loop returns no move iff its value is still +inf; any move it returns is the incoming one or one of the loop's moves |
| Minimax.Search | LongTearm.py:71-106 | `minimax` returns a value in -1..1; at a cutoff it returns `evaluate` and `None`; otherwise it returns a valid column |
| Minimax.AgentMove | LongTearm.py:67-69 | the agent returns no column iff the board is full or the agent or `'R'` already has a line; otherwise it returns a valid column |
| PlainMinimax.FullTree | LongTearm.py:71-106 | the unpruned search over the same tree yields a value in -1..1 and, at a node, one of its moves |
| PlainMinimax.FullMaxLoop | LongTearm.py:77-91 | the unpruned maximising loop never lowers its best value and returns a move of the loop or the incoming one |
| PlainMinimax.FullMinLoop | LongTearm.py:92-106 | the unpruned minimising loop never raises its best value and returns a move of the loop or the incoming one |
| PlainMinimax.FullSearch | LongTearm.py:71-106 | the unpruned search on a board: `evaluate` at a cutoff, otherwise a valid column |
| MinimaxProofs.TreeWindow | LongTearm.py:71-106 | on any window alpha < beta, the pruned and unpruned values agree once clamped to the window |
| MinimaxProofs.MaxLoopWindow | LongTearm.py:77-91 | the pruned maximising loop, `break` included, agrees with the unpruned loop once clamped to the window |
| MinimaxProofs.MinLoopWindow | LongTearm.py:92-106 | the pruned minimising loop agrees with the unpruned loop once clamped to the window |
| MinimaxProofs.MaxStep | LongTearm.py:85-90 | one maximising step keeps alpha equal to max(initial alpha, best) and the clamped agreement; a cutoff implies the unpruned best is at least beta |
| MinimaxProofs.MinStep | LongTearm.py:100-105 | one minimising step keeps beta equal to min(initial beta, best) and the clamped agreement; a cutoff implies the unpruned best is at most alpha |
| MinimaxProofs.TreeRootAgrees | LongTearm.py:67-68 | from the root window (-inf, +inf) the pruned search returns the same value and move as the unpruned one |
| MinimaxProofs.RootLoopAgrees | LongTearm.py:77-91 | with beta at +inf the maximising loop never breaks, so it equals the unpruned loop |
| MinimaxProofs.SearchWindow | LongTearm.py:71-106 | `minimax` on a board agrees with the unpruned search once clamped to any window |
| MinimaxProofs.RootAgrees | LongTearm.py:67-68 | the agent's root call returns exactly the value and column of the unpruned minimax |
| MinimaxProofs.FullMaxLoopBound | LongTearm.py:77-91 | the maximising loop's result is at least every child's value |
| MinimaxProofs.FullMaxLoopFirst | LongTearm.py:85-87 | the strict `>` keeps the first child reaching the maximum: every earlier child scores strictly less |
| MinimaxProofs.BranchValues | LongTearm.py:80-84 | the value of the branch for each move is the search of the board copy with that move played |
| MinimaxProofs.RootFirst | LongTearm.py:77-91 | the root loop returns the value and move of a child that is maximal and strictly better than every earlier child |
| MinimaxProofs.FirstBest | LongTearm.py:67-91 | the agent's column is valid, its child has the returned value, no valid column scores more, and every lower column scores strictly less |
| MinimaxProofs.ChooseColumn | LongTearm.py:75-87 | a first maximum in the list of valid moves is a first maximum over all valid columns |
| MinimaxProofs.ZeroSearch | LongTearm.py:77-106 | in a tree where every score is 0, the search returns 0 and the first move |
| MinimaxProofs.ZeroMaxLoop | LongTearm.py:77-91 | with all children scoring 0, the maximising loop settles on the first move |
| MinimaxProofs.ZeroMinLoop | LongTearm.py:92-106 | with all children scoring 0, the minimising loop settles on the first move |
| MinimaxProofs.NoLineYet | LongTearm.py:108-115 | a board with at most three pieces scores 0 and is not full |
| MinimaxProofs.QuietTree | LongTearm.py:71-75 | when pieces plus remaining plies are at most three, every score in the tree is 0 |
| MinimaxProofs.QuietNode | LongTearm.py:75-84 | the same for a node past the cutoff |
| MinimaxProofs.QuietLeaf | LongTearm.py:72-73 | a cutoff with at most three pieces is a leaf scoring 0 |
| MinimaxProofs.QuietBranches | LongTearm.py:80-84 | the same for the branches of a node |
| MinimaxProofs.QuietSearch | LongTearm.py:71-106 | in such positions `minimax` returns 0 and, with depth left, the lowest valid column |
| MinimaxProofs.OpeningMove | LongTearm.py:67-69 | on a board with no piece the agent plays the lowest valid column |
| MinimaxProofs.EmptyBoardPicksColumnZero | LongTearm.py:67-69 | on the empty board the agent plays column 0 |
| MinimaxProofs.DepthOneWin | LongTearm.py:71-91 | a one-ply search scores 1 iff some valid column wins at once, and then returns the lowest such column |
| Rules.NewGame | hello.py:70-73 | a new game: empty board, the given player to move, not over, no winner |
| Rules.Judge | hello.py:99-104 | after a drop: a win iff the mover has a line; a draw iff no line and the board is full; play on iff neither |
| Rules.NewGameConsistent | hello.py:70-73 | the opening record satisfies the game invariant |
| Rules.JudgedDrop | hello.py:97-104 | a judged drop keeps gravity and piece alternation, gives the other player no line, and its verdict matches the board |
| Rules.StillWins | hello.py:98-101 | a player who already has a line is judged the winner again after any drop |
| Rules.FullRefusesMoves | hello.py:22-23 | a full board accepts no column |
| HotSeat.InitReachable | hello.py:70-73 | the starting game satisfies the invariant of an alternating game started by `'R'` |
| HotSeat.MakeMove | hello.py:96-106 | an invalid column changes nothing; a valid one drops the current player's piece |
| HotSeat.MakeMoveReachable | hello.py:96-106 | a click keeps the invariant; a valid click adds one piece of the mover and either ends the game with the mover's win or a draw, or passes the turn |
| HotSeat.LateClickKeepsResult | hello.py:82-106 | once the game is over, a further click leaves it over with the same winner |
| HotSeat.AfterResult | hello.py:96-106 | a finished game whose result is the current player's line or a full board keeps that result under any click |
| VsRandom.ComputerMove | ShortTearm.py:124-136 | the computer drops a `'Y'` into some valid column |
| VsRandom.MakeMove | ShortTearm.py:109-136 | on the human's turn an invalid column changes nothing; a valid one is the hot-seat move, followed by the computer's reply only if the game goes on (then the board is not full and the computer is to move); a human line ends the game with the human as winner and no reply; on the computer's turn the computer moves |
| VsRandom.ComputerMoveReachable | ShortTearm.py:124-136 | the computer's reply keeps the invariant, adds one `'Y'`, and hands back to the human unless the game ended with its win or a draw |
| VsRandom.MakeMoveReachable | ShortTearm.py:109-123 | a human click keeps the invariant and, if play goes on, returns to the human with one `'R'` and one `'Y'` added |
| VsMinimax.ComputerMove | LongTearm.py:171-183 | the computer plays the minimax column when there is one, else nothing changes |
| VsMinimax.MakeMove | LongTearm.py:154-183 | on the human's turn an invalid column changes nothing; a valid one is the hot-seat move, followed by the computer's reply only if the game goes on; a human line ends the game with the human as winner and no reply; on the computer's turn the computer moves |
| VsMinimax.ComputerAlwaysMoves | LongTearm.py:172-174 | in an unfinished game the agent always returns a valid column, so `None` never reaches `is_valid_move` |
| VsMinimax.ComputerMoveReachable | LongTearm.py:171-183 | the computer's reply keeps the invariant, adds one `'Y'`, and hands back to the human unless the game ended with its win or a draw |
| VsMinimax.MakeMoveReachable | LongTearm.py:154-170 | a human click keeps the invariant and, if play goes on, returns to the human with one `'R'` and one `'Y'` added |
| RandomMatch.Init | RandomAgents.py:74-79 | the game starts on an empty board with agent `'R'` current |
| RandomMatch.MakeMove | RandomAgents.py:94-103 | the agent drops its piece into some valid column; the current agent does not change |
| RandomMatch.Update | RandomAgents.py:105-110 | the current agent switches, then the new current agent drops into some valid column |
| RandomMatch.InitReachable | RandomAgents.py:74-79 | the start satisfies the invariant of a game in which `'Y'` moves first |
| RandomMatch.UpdateReachable | RandomAgents.py:105-110 | an update of an unfinished game keeps the invariant, adds one piece of the new current agent, and any result is that agent's win or a draw |
| RandomMatch.FirstMove | RandomAgents.py:105-110 | from a pieceless game the first update makes `'Y'` current and drops one yellow piece |
| RandomMatch.FirstPieceIsYellow | RandomAgents.py:74-110 | although `agent1` is `'R'`, the first piece played is yellow |
| AiVsAi.Update | try.py:111-117 | a finished game is left alone; otherwise the current player plays some valid column through `make_move` |
| AiVsAi.ResetGame | try.py:177-181 | a reset gives an empty board, `'R'` to move, no result, and satisfies the game invariant |
| AiVsAi.UpdateFillsCell | try.py:111-117 | an update of an unfinished game keeps the invariant and fills exactly one more cell |
| AiVsAi.PlayOut | try.py:163-164 | the inner `while not game_over` loop ends, with the game over and a winner set |
| AiVsAi.PlayGame | try.py:162-164 | a reset followed by the inner loop always ends with a result |
| AiVsAi.FinalResultAgrees | try.py:163-166 | following the moves one by one gives the `winner` of the finished record |
| AiVsAi.TallyCountsGame | try.py:166-171 | each game raises the tally of the outcome its finished record names, and only that one |
| AiVsAi.TallyGames | try.py:161-171 | the counting loop's counters equal the number of games with each result, and together equal the number of games |
| AiVsAi.RunAiVsAi | try.py:156-171 | `run_ai_vs_ai` counts red wins, yellow wins and draws over games that each start from `reset_game`; the counts add up to `num_games` |
| GlobalGrid.DropPiece | main.py:51-55 | `drop_piece` returns a row iff the column holds an empty cell; the piece lands in the lowest empty cell and nothing else changes |
| GlobalGrid.DropMatchesEngine | main.py:51-55 | `drop_piece` changes the grid exactly as the engine's `make_move` does, and succeeds exactly when it does |
| GlobalGrid.ValidDropLands | main.py:48-55 | a drop into a valid column always returns a row |
| GlobalGrid.Probe | main.py:59-61 | a probing loop returns true iff one of its cells holds the player's piece |
| GlobalGrid.CheckWinnerAsWritten | main.py:57-80 | `check_winner` as written returns true iff ANY single probed cell holds the player's piece |
| GlobalGrid.AsWrittenAlwaysTrue | main.py:59-61 | as written it is true whenever the probed cell itself holds the player's piece |
| GlobalGrid.EarlyDropDeclaredWin | main.py:117-123 | a player with at most two pieces who drops into a valid column is declared the winner although they have no line |
| GlobalGrid.FirstDropCounterexample | main.py:57-80 | the first piece dropped into column 0 lands in row 5 and is declared a win without any line |
| GlobalGrid.CheckWinnerAt | main.py:57-80 | the corrected check is true iff some window of four through the cell holds the player's pieces, which implies a line |
| GlobalGrid.WindowTouchesChange | main.py:117-121 | a line that a one-cell change creates passes through that cell |
| GlobalGrid.CheckWinnerAtIffLine | main.py:117-123 | after a drop by a player without a line, the corrected check is true iff the player now has a line |
| GlobalGrid.IsBoardFull | main.py:82-83 | `is_board_full` holds iff no cell is empty; on a board obeying gravity this agrees with the engine's top-row `is_full` |
| GlobalGrid.FirstTurnCovers | main.py:104 | either player can be drawn to move first |
| GlobalGrid.AgentColumn | main.py:111-115 | the retry loop returns the first valid random column among the rolls, and returns none iff no roll gives a valid column |
| GlobalGrid.StepAsWritten | main.py:117-128 | one turn of the main loop as written: no column changes nothing; a column drops the player's piece |
| GlobalGrid.AsWrittenStepEndsGame | main.py:117-123 | as written, every drop into a valid column ends the game with the mover declared winner |
| GlobalGrid.Step | main.py:117-128 | one corrected turn: no column changes nothing; a column drops the piece, and a new win belongs to the mover who has a line |
| GlobalGrid.StepMatchesClassGame | main.py:117-128 | on a consistent unfinished game a corrected turn is exactly the hot-seat `make_move` |
| GlobalGrid.ChecksAgree | main.py:117-124 | after a drop by a player without a line, the grid functions agree with the engine: same board, same winner test, same fullness test |
| GlobalGrid.StepConsistent | main.py:117-128 | a corrected turn keeps the game invariant and passes the turn unless the game ended |

## Left out

- Drawing, windows, fonts, event polling, `clock.tick`, `time.sleep`, `pygame.time.wait`, `pygame.quit`, `sys.exit` and `display_board`: presentation and process control, outside the game logic.
- The mapping of mouse clicks and number keys to a column (`event.pos[0] // CELL_SIZE`, `event.key - K_1`, `get_column_from_mouse_click`): the model takes the column as an input.
- The `run` loops of the class games: the model covers one call of `make_move` or `update` and proves that each call keeps the game invariant. Termination of the on-screen loop is not modelled; the AI-versus-AI inner loop is, as `AiVsAi.PlayOut`.
- Random distributions: a choice is a function of an explicit roll; the model states which results are possible, not their probabilities.
- Columns outside 0..6 and Python's negative indexing in the engine's `make_move`: the engine requires a column in range; every caller in the source reaches it only after `is_valid_move`.
- The floats `-inf`/`+inf` of `minimax`: they are replaced by the sentinels -2 and 2, which compare the same way against the scores -1..1.
- VsMinimax.ComputerMove: when the agent returns `None` the source passes it to `is_valid_move` and raises a `TypeError`; the model leaves the game unchanged instead. `VsMinimax.ComputerAlwaysMoves` shows that this case never arises in a reachable unfinished game.
- Printing the tournament counts in `run_ai_vs_ai` and the win messages in `main.py`: output only.
- The `draw` method of `try.py`, which exits the process once a winner is set: it is never called by `run_ai_vs_ai`.
- In `main.py`, `main()` is never called (the `__main__` block only waits), and `handle_events` reads `turn`, which is local to `main`, so a human turn would raise `NameError`. The model treats the human's column as an input to `GlobalGrid.Step`.
- In `main.py`, a drop into a full column returns `None`, after which `check_winner(None, ...)` would raise. `GlobalGrid.Step` requires a valid column, and the random agent's retry loop only produces valid ones.
- GlobalGrid.AgentColumn: the source loop retries forever until it draws a valid column; the model draws from a finite sequence of rolls and reports `None` when none of them is valid.
- GlobalGrid.Step: its own contract states only the board after the turn and that a newly set win belongs to the mover, who has a line. That the turn ends the game exactly on a line or a full board is stated by `GlobalGrid.StepMatchesClassGame` and `GlobalGrid.StepConsistent`.

## Findings

| source | as written | input that shows it | evidently intended | confidence | as-written member | corrected member |
|---|---|---|---|---|---|---|
| main.py:57-80 | each of the four loops returns true as soon as ONE probed cell holds the player's piece; the horizontal and vertical ranges include the dropped cell itself, so the check is true after every drop | an empty board, the first piece dropped into column 0: it lands in row 5 and the game ends as a win with a single piece on the board | return true only when four consecutive cells through the dropped cell all hold the player's piece | not executed | GlobalGrid.CheckWinnerAsWritten (counterexample GlobalGrid.FirstDropCounterexample) | GlobalGrid.CheckWinnerAt (proved by GlobalGrid.CheckWinnerAtIffLine) |
