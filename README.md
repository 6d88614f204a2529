# Minesweeper bot: board merging, deduction rules and turn loop

This project models the decision core of a Minesweeper-playing bot (`bot.py`).
Each turn, the bot reads the game window and collects template detections. It
merges them into a board that maps each grid row to a dictionary of columns.
It then acts:

- On the first turn it makes one opening click at the centre of the board.
- After that it tries two completion rules ("basic logic"), then the subset
  rule ("advanced logic"), then a guess. The first of these that acts ends
  the turn.

The model covers:

- **Board** (`board.dfy`, module `BoardModel`).
  - The board is the value `Board(rows, cols, cells)`. `rows` lists the row
    keys in dictionary insertion order. `cols[r]` lists row `r`'s column keys
    in insertion order. `cells` gives the kind of every present cell: a digit
    1 to 8, closed, flagged, or empty.
  - `Valid` states the shape of a dictionary of dictionaries.
  - `Order` is the order in which the nested `items()` loops visit cells.
  - `Neighbors` is `get_neighbors`, proved to return the present cells of the
    3x3 block in row-major order.
  - A click is `Flag(p)` (right click) or `Reveal(p)` (left click).
- **Merge** (`merge.dfy`, module `BoardMerge`). This is the priority loop of
  `build_board`, which folds detections, already mapped to grid coordinates,
  into the board.
  - Each iteration is `Insert`, the whole loop is `MergeAll`, and the
    imperative `BuildBoard` is proved equal to `MergeAll`.
  - `MergeResolved` proves that the merge matches `Resolved`, a definition
    that uses no priorities: the first digit seen at a cell wins; failing
    that, a flag; failing that, the last detection there.
  - `MergeOrder` proves that the row and column keys come in the order in
    which the detections first show them.
  - The source's quirk is kept. A stored "empty" cell is not a key of the
    priority table, so it has priority 0 and a later "closed" detection
    replaces it.
  - The merge is modelled for detections in any order. `build_board` appends
    them grouped by template, in the order of its `cell_types` table
    (`bot.py:124-132`): digits 1 to 8, then closed, then
    "empty_zero_revealed", then flag. In that order a "closed" never comes
    after an "empty", so the quirk cannot change a cell in the real program.
    Likewise, "the first digit seen" is the smallest digit detected there.
- **Basic rules** (`basic.dfy`, module `BasicRules`): rule 1 flags, rule 2
  reveals, and the first numbered cell in board order where either applies
  acts. `DetStep` is the specification of one call. Lemmas about it prove:
  - which cell acts;
  - what changes;
  - which cells get clicked, and in which order;
  - that the clicks are sound under every mine placement that agrees with
    the acting cell.
- **Subset rule** (`subset.dfy`, module `SubsetRule`). `SubsetStep` picks the
  first acting pair (A, B) and gives its action and target set. Lemmas about
  it prove:
  - the rule's conditions;
  - the scan order;
  - the counting argument that makes its clicks sound.
- **Other moves** (`moves.dfy`, module `Moves`).
  - `OpeningCell` is the centre cell: the median row key, then the median
    column key of that row.
  - `Guess` is the first closed cell in board order.
- **The bot** (`player.dfy`, module `Player`). Class `Bot` holds the board of
  the current turn, the clicks sent so far, and `first_move_made`.
  - Each solver method scans in place with the source's loops and is proved
    against the specification functions above.
  - `Turn` is one pass of the main loop.
  - `TurnProgress` proves that after the opening click, a pass sends at least
    one click exactly when a closed cell remains.

Clicks are recorded as a sequence of commands. How a command becomes a mouse
click at pixel coordinates is outside the model.

## Model

| member | source | states |
|---|---|---|
| BoardModel.Neighbors | bot.py:153-159 | The result holds exactly the present cells at Chebyshev distance 1, the cell itself excluded. They come in strictly row-major order, with no repeats and at most 8 of them. |
| BoardModel.OrderIsKeys | bot.py:162-163 | The nested row/column iteration visits exactly the cells of the board. |
| BoardModel.ClosedNeighbors | bot.py:167 | Definition: the neighbours, in `get_neighbors` order, whose kind is closed. `ClosedCount` proves that they are exactly the closed cells around `p`, with no repeats. |
| BoardModel.FlaggedNeighbors | bot.py:168 | Definition: the neighbours, in `get_neighbors` order, whose kind is flagged. |
| BoardModel.Required | bot.py:200 | Definition (also used at bot.py:211): a numbered cell's number minus its count of flagged neighbours, that is, the mines still to find around it. |
| BoardMerge.StoredKind | bot.py:147 | Definition: the kind stored for a detected tile. "empty_zero_revealed" is stored as empty, and every other tile keeps its own kind. |
| BoardMerge.TilePriority | bot.py:143 | Definition: the priority of a detected tile: 9 for a digit, 7 for a flag, 5 for "empty_zero_revealed", 1 for closed. |
| BoardMerge.StoredPriority | bot.py:149 | Definition: the priority looked up for a stored kind: 9 for a digit, 7 for a flag, 1 for closed, and 0 for empty, because "empty" is not a key of the table and `priority.get` falls back to 0. |
| BoardMerge.Settle | bot.py:149-150 | Definition: a detection is stored when its cell is still absent, or when its tile's priority is strictly higher than the stored kind's. Otherwise the stored kind stays. |
| BoardMerge.Insert | bot.py:144-150 | One detection adds its coordinate to the keys and keeps the board well-formed. Every other cell is unchanged. A new row is appended to the row keys. A new coordinate's column is appended to its row's column keys, and an existing coordinate leaves all keys as they were. |
| BoardMerge.AddCell | bot.py:148-150 | A coordinate seen for the first time is stored with its detected kind. The row key is appended only when the row is absent. The column is appended at the end of its row's column keys. Every other row is unchanged. |
| BoardMerge.MergeAll | bot.py:142-151 | The merged board is well-formed. A cell is present exactly when some detection maps to it. |
| BoardMerge.MergeOrder | bot.py:142-151 | The merged board's row keys are the detected rows in the order each first appears, computed by an independent keep-the-first-occurrence function. Each row's column keys are the columns detected on that row, in the same first-appearance order. A row, and a cell, is present exactly when some detection names it. |
| BoardMerge.BuildBoard | bot.py:142-151 | The loop yields the fold of `Insert` over the detections. At every coordinate it yields the reference kind `Resolved`. |
| BoardMerge.MergeResolved | bot.py:143-150 | Priority merging settles each cell on: the first digit detected there; else "flag" if a flag was detected; else the last detection there. This includes the quirk that a stored "empty" has priority 0. |
| BasicRules.FlagRule | bot.py:164-171 | Definition of rule 1: a numbered cell with at least one closed neighbour, whose closed-neighbour count equals its number minus its flagged-neighbour count. |
| BasicRules.RevealRule | bot.py:164-179 | Definition of rule 2: a numbered cell with at least one closed neighbour, whose flagged-neighbour count equals its number. |
| BasicRules.ActAt | bot.py:171-183 | Definition: the acting cell's closed neighbours get one click each, in neighbour order. The click is a right click when rule 1 holds, else a left click. Only right clicks change the board, writing "flag". |
| BasicRules.DetStep | bot.py:161-184 | Definition: the first cell in board order where rule 1 or rule 2 holds acts as `ActAt` says. When there is none, nothing changes and the result is False. |
| BasicRules.DetStepFirst | bot.py:162-166 | When a cell acts, it is a numbered cell where a rule applies. No earlier cell in board order satisfies either rule. |
| BasicRules.DetStepNoMove | bot.py:161-184 | The solver returns False exactly when no numbered cell satisfies rule 1 or rule 2. In that case the board and the clicks are untouched. |
| BasicRules.DetStepFlags | bot.py:171-176 | Under rule 1, exactly the closed neighbours become "flag" and nothing else changes. Each of them gets one right click, in row-major order. |
| BasicRules.DetStepReveals | bot.py:179-183 | When rule 1 did not apply at the acting cell, rule 2 holds there. The board is unchanged, and each closed neighbour gets one left click, in row-major order. |
| BasicRules.DetStepTargetsClosed | bot.py:167-183 | Every click from the basic rules lands on a cell that was closed. |
| BasicRules.RulesSound | bot.py:170-179 | Under every mine placement that agrees with the cell's number, rule 1's cells are all mines and rule 2's cells are all safe. |
| BasicRules.DetStepSound | bot.py:170-183 | Every flag click from `solve_deterministic` hits a mine and every reveal click hits a safe cell, for every placement that agrees with the acting cell. |
| SubsetRule.DiffMines | bot.py:216 | Definition: B's mines still to find minus A's. |
| SubsetRule.PairFires | bot.py:195-229 | Definition of the subset rule on a pair: both cells are numbered, and both have closed neighbours. A's closed neighbours are a subset of B's, and the difference is non-empty. The difference's mine count equals its size or is 0. |
| SubsetRule.PairFiring | bot.py:215-233 | Definition: the targets are B's closed neighbours minus A's. The action is flagging when the mine count equals the difference's size, else revealing. |
| SubsetRule.SubsetStep | bot.py:195-236 | Definition: the first acting pair in scan order, with the action and targets `PairFiring` gives, or none. |
| SubsetRule.NumberedSpec | bot.py:189-193 | `numbered_cells` holds exactly the numbered cells of the board. |
| SubsetRule.SubsetStepNone | bot.py:195-236 | The subset solver finds nothing exactly when no ordered pair of adjacent cells satisfies the subset rule. |
| SubsetRule.SubsetStepFires | bot.py:196-229 | The acting pair is two adjacent numbered cells. A has closed neighbours, and they are a subset of B's. The targets are exactly the non-empty difference. The action is flagging exactly when the difference's mine count equals its size, and revealing only when that count is zero. |
| SubsetRule.SubsetTargetsClosed | bot.py:215-233 | Every target of the subset rule is a closed neighbour of B. |
| SubsetRule.SubsetSound | bot.py:214-229 | If U1 is a subset of U2 and they hold m1 and m2 mines, the difference holds m2 - m1 mines. So it is all mines when that equals its size, and all safe when that is 0. |
| SubsetRule.SubsetStepSound | bot.py:214-234 | The subset rule's flags hit mines and its reveals hit safe cells, for every placement that agrees with both cells of the pair. |
| SubsetRule.SubsetStepFirstCell | bot.py:195-204 | A is the first numbered cell in board order that has any acting partner. |
| SubsetRule.SubsetStepFirstPartner | bot.py:203-214 | B is A's first acting partner in row-major neighbour order. |
| Moves.Sort | bot.py:312-313 | `sorted`: an increasing list of the same length with the same elements as its input. |
| Moves.Median | bot.py:312-313 | Definition: element `len // 2` of the sorted keys. |
| Moves.OpeningCell | bot.py:311-313 | Definition: none for an empty board, else the median row key and then the median column key of that row. |
| Moves.SortRank | bot.py:312-313 | `sorted(keys)[k]` is a key with exactly k keys below it. |
| Moves.OpeningCellSpec | bot.py:311-314 | There is an opening cell exactly when the board is non-empty. It is a present cell. Its row has `len(rows) // 2` row keys below it, and its column has `len(cols) // 2` keys of that row below it. |
| Moves.Guess | bot.py:239-241 | Definition: the first closed cell in board order, or none. |
| Moves.GuessSpec | bot.py:238-245 | There is a guess exactly when some cell is closed. The guess is closed, and no cell before it in board order is closed. |
| Player.CollectNumbered | bot.py:189-193 | The collection loop yields the numbered cells in board order. |
| Player.FindPartner | bot.py:196-234 | The inner loop yields A's first acting neighbour, and none when A has no closed neighbour. |
| Player.TestPair | bot.py:204-229 | The nested conditions of one inner iteration hold exactly when the pair satisfies the subset rule. |
| Player.Bot.ClickEach | bot.py:172-182 | Clicking a list sends one click per cell, in list order. A right click writes "flag" into that cell. |
| Player.Enumerate | bot.py:221-233 | Iterating a set yields each of its cells exactly once, in some order. |
| Player.Bot.ClickSet | bot.py:221-233 | Clicking a set sends exactly one click to each of its cells and to no other cell. A right click writes "flag" into that cell. |
| Player.Bot.TryRules | bot.py:163-183 | At one cell, the rules act exactly when the cell is numbered and rule 1 or rule 2 holds. When one acts, the board and the clicks become what that cell's rule does. Otherwise nothing changes. |
| Player.Bot.SolveDeterministic | bot.py:161-184 | The scan leaves the board, the clicks and the returned flag exactly as `DetStep` describes. |
| Player.Bot.ActOnPair | bot.py:214-233 | For an acting pair, the difference of the closed neighbourhoods is clicked once per cell with the chosen button. A right click writes "flag" into that cell. |
| Player.Bot.SolveAdvancedDeterministic | bot.py:187-236 | The scan acts exactly as `SubsetStep` describes. If it acts, the board is updated and the set of targets is clicked once each with the chosen action. Otherwise it returns False with nothing changed. |
| Player.Bot.MakeRandomMove | bot.py:238-245 | A guess is made exactly when some cell is closed. It is one left click on `Guess`. |
| Player.Bot.OpeningMove | bot.py:311-317 | One left click on the centre cell, and `first_move_made` is set. |
| Player.Bot.Turn | bot.py:304-333 | One pass, in order: it builds the board, skips an empty board, makes the opening click, then falls through rules 1 and 2, the subset rule and the guess, and the first of these that acts ends the pass. |
| Player.Bot.RunSolvers | bot.py:320-333 | The first of rules 1 and 2, the subset rule and the guess that acts decides the new board and the clicks. The board stays well-formed. |
| Player.TurnProgress | bot.py:321-333 | After the opening click, a pass sends at least one click exactly when a closed cell remains. |

## Left out

- Screen capture, sprite extraction, template matching with non-maximum suppression, and calibration are left out (`bot.py:1-120`, `247-271`). These are OpenCV and OS calls. A detection enters the model already mapped to its grid coordinate.
- The order in which `build_board` collects detections (grouped by template, `bot.py:124-132`) is not modelled: the merge and its lemmas hold for detections in any order, which covers that one.
- The pixel-to-grid rounding in `build_board` is left out: it is floating-point arithmetic on calibration offsets.
- The two early returns before the merge loop (`not all_cells`, and no "closed" detection during first calibration) are left out, because they depend on calibration state. With no detections the merge yields the empty board, which the turn skips just as the source does.
- `click_center`, the pixel geometry stored with each cell, the click delay, the sleeps and the printed messages are left out. Clicks are recorded as `Flag`/`Reveal` commands on grid coordinates.
- `is_game_over`, the win/lose exit of the main loop, the timer, and the exception handlers are left out. They depend on screen state and on time. `Turn` models a single pass of the loop.
- Player.Bot.ClickSet: the order in which a Python set is iterated is not defined. `Enumerate` picks the cells in an arbitrary order, and the method promises only which cells are clicked, once each, and with which button. It does not promise their order.
- Player.Bot.SolveAdvancedDeterministic: the inner loop first finds B, then clicks. The source clicks from inside the inner loop. The observable behaviour is the same, because the source returns right after clicking.
- Player.TestPair: the source compares `diff_mines` with `len(diff)` and with 0 in two separate `if` statements. The model combines them into one condition, which behaves the same because a non-empty difference cannot satisfy both.
