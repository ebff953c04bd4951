# Tic-tac-toe: exhaustive search and the Q-learning value table

This project models the two game engines of a small tic-tac-toe repository, and proves properties of the model. Both engines share one board model: nine `int` cells in row-major order, where 0 is empty, 1 is the maximising player and 2 the minimising one.

- **`Board`** (`board.dfy`) holds the board model shared by both engines:
  - the eight-line win test, exactly as both Java files write it;
  - the ascending list of empty cells that both engines build;
  - the fact that a move removes exactly one empty cell, which is what makes the search terminate.
- **`NegaMax`** (`negamax.dfy`) models the exhaustive game-tree search `negaMax`.
  - `Search` is a recursive reference definition. It is mutually recursive with the candidate loop `Scan` and the child value `ChildValue`.
  - The method `NegaMax` keeps the source's form: a loop that lists the empty cells, then a max loop or a min loop over fresh board copies, each with a recursive call. It is proved to return exactly `Search`.
  - Lemmas characterise `Search`: the base case, the move is an empty cell, the value is the max or min over all children, and the lowest-index optimum wins ties.
- **`StateKey`** (`state_key.dfy`) models the value-table key, `Arrays.toString(state) + Integer.toString(player)`, as text. It proves the key injective, so distinct (board, player) pairs never share a table entry.
- **`QLearning`** (`qlearning.dfy`) models the value-table bookkeeping of the learning engine.
  - The `QTicTacToe` class has the field `qvalues`, a map from key to a slot map.
  - Its methods are `MakeKey` (lazy seeding), `GetQ`, `SetQ`, the argmax and argmin scans, `MaxQ`, `MinQ`, `UpdateQValue`, `RandomMove` and `ChooseAction`.
  - A ghost map records the board and player each key was made from.
  - The invariant `Valid()` (`TableValid`) says three things: every key is the key of its board, its slots are exactly that board's empty cells, and every value lies strictly between the scan thresholds -1.0 and 1.0.

Things the model takes as parameters or admits as nondeterminism:
- **Random draws.** The `nextDouble` values used for seeding are the `draws` parameter. The policy coin is `coin`, and the `nextInt` index of `randomMove` is `pick`. Each is constrained to its range.
- **HashMap iteration order.** The order of `entrySet()` is unspecified. The argmax and argmin loops therefore pick each next entry with a nondeterministic choice (`:|`). Their contracts hold for every order.
- **Slot values.** These are exact reals.

Points where the code's behaviour is easy to misread:
- **Tie-break of the argmax/argmin scans.** The code iterates a `HashMap`, whose order Java does not specify. `IsMaxAction`/`IsMinAction` therefore allow any slot that attains the extremum; a lower-index tie-break is not guaranteed.
- **Immediate wins.** When neither player has a line yet, player 1 is to move and has two in a row with the third cell empty, the search does not necessarily return that third cell. It returns the lowest-index empty cell whose child value is +1, which can be an earlier cell that also wins. `ImmediateWinFound` states what the code does: the value is 1 and the move is at or below the winning cell.
- **Evaluation mode.** `chooseAction` calls `getMaxQAction` for both players (QTicTacToe.java:135-144). The model keeps this.

## Model

| member | source | states |
|---|---|---|
| Board.IsWinner | NegaMax.java:166-179 | the eight-line win test of both engines (QTicTacToe.java:295-308 is the same test); it carries no contract of its own, and Board.WinnerIffOwnsLine states what it decides |
| Board.WinnerIffOwnsLine | NegaMax.java:166-179 | the win test holds exactly when one of the eight lines (three rows, three columns, two diagonals) is entirely the player's |
| Board.EmptyCellsBelow | NegaMax.java:83-87 | the candidate list holds exactly the empty cells, with no duplicates, in strictly ascending index order |
| Board.PlayRemovesOneEmpty | NegaMax.java:98-100 | writing a non-zero mark into an empty cell leaves one empty cell fewer, so each recursive call has a strictly smaller measure |
| NegaMax.Eval | NegaMax.java:156-164 | the reward is 1 exactly when player 1 has a line, -1 exactly when player 2 has one and player 1 does not, and 0 exactly when neither has one |
| NegaMax.Search | NegaMax.java:79-125 | the search value always lies in -1..1, so the integer sentinels are always replaced |
| NegaMax.Scan | NegaMax.java:95-123 | a candidate loop that starts from the sentinel and has work left returns a value in -1..1 |
| NegaMax.SearchSpec | NegaMax.java:84-124 | base case returns the reward and move -1; otherwise the move is an empty cell whose child value is the result, the result is the maximum over all children for player 1 and the minimum for other ids, and every lower-index empty cell is strictly worse |
| NegaMax.SearchIsOptimal | NegaMax.java:95-123 | on a non-terminal board, following the candidate loop iteration by iteration gives an optimal move under the first-seen tie-break |
| NegaMax.ScanStep | NegaMax.java:97-107 | one iteration of the candidate loop keeps its running best consistent with all candidates seen so far and does not change what the loop finally returns |
| NegaMax.ImmediateWinFound | NegaMax.java:95-107 | on a board where no one has a line yet (`Eval(s) == 0`), if player 1 can complete a line with one mark, the search value is 1 and the chosen move is an empty cell at or below the winning cell with child value 1 |
| NegaMax.ImmediateLossFound | NegaMax.java:110-123 | on a board where no one has a line yet (`Eval(s) == 0`), if player 2 can complete a line with one mark, the search value for player 2 is -1 and the chosen move is an empty cell at or below the winning cell with child value -1 |
| NegaMax.NegaMax | NegaMax.java:79-125 | the imperative search over arrays returns exactly the pair (value, move) of the reference definition, and never modifies the caller's board |
| NegaMax.EmptyCells | NegaMax.java:83-87 | the loop that lists the empty cells returns the ascending list of empty cells |
| NegaMax.CopyWith | NegaMax.java:98-100 | each candidate board is a fresh array equal to the current board with the player's mark in one cell |
| StateKey.KeyOf | QTicTacToe.java:163 | the table key, the `Arrays.toString` text of the board followed by the decimal text of the player; it carries no contract of its own, and StateKey.KeyInjective states that distinct (board, player) pairs get distinct keys |
| StateKey.ParseIntToString | QTicTacToe.java:163 | reading the decimal text of `Integer.toString` back gives the integer |
| StateKey.JoinInjective | QTicTacToe.java:163 | two cell lists printed as between the brackets of `Arrays.toString` are equal only when the lists are equal |
| StateKey.KeyInjective | QTicTacToe.java:163 | two (board, player) pairs yield the same table key only when both the boards and the players are equal |
| QLearning.Eval | QTicTacToe.java:279-308 | the learning engine's reward equals the search engine's reward, as a real |
| QLearning.SeedValue | QTicTacToe.java:171 | a slot seeded from a draw in [0, 1) lies in [-0.15, 0.15) |
| QLearning.SeedSlots | QTicTacToe.java:168-172 | a freshly seeded slot map has exactly the empty cells as slots, and every value lies in [-0.15, 0.15] |
| QLearning.SeedEntry | QTicTacToe.java:168-172 | the seeding loop builds exactly the seeded slot map, consuming one draw per empty cell in ascending order |
| QLearning.MaxOf | QTicTacToe.java:200-204 | the value that maxQ reports is attained by some slot and is at least every slot's value |
| QLearning.MinOf | QTicTacToe.java:206-210 | the value that minQ reports is attained by some slot and is at most every slot's value |
| QLearning.ExtremeActionIsSlot | QTicTacToe.java:223-249 | with every value strictly inside (-1, 1), the argmax and argmin scans of a non-empty slot map return a real slot, whose value is the greatest resp. least slot value |
| QLearning.TdUpdate | QTicTacToe.java:194 | the update moves q toward the target without overshooting it, leaves q fixed exactly when the target equals q, and keeps a value in (-1, 1) when the target is in [-1, 1] |
| QLearning.TargetInRange | QTicTacToe.java:184-190 | the discounted target of a non-final ply, with its zero reward, lies strictly inside (-1, 1) |
| QLearning.EntryOfKey | QTicTacToe.java:161-177 | in a valid table, the entry under the key of a board has exactly that board's empty cells as slots, whichever earlier call created it |
| QLearning.AddEntryValid | QTicTacToe.java:165-175 | adding the seeded entry for an absent key keeps the table invariant |
| QLearning.OverwriteValid | QTicTacToe.java:212-216 | overwriting an existing slot with a value in (-1, 1) keeps the table invariant |
| QLearning.GreedyActionIsEmptyCell | QTicTacToe.java:132-153 | on a valid table, any action that the argmax or argmin scan may return for the key of a board with an empty cell is an empty cell of that board |
| QLearning.QTicTacToe.constructor | QTicTacToe.java:46 | a new engine has an empty, valid table and starts in training mode |
| QLearning.QTicTacToe.MakeKey | QTicTacToe.java:161-177 | returns the key of (board, player); a known key leaves the whole table unchanged; an absent key is added with exactly the seeded slot map and nothing else changes; afterwards the key is present, its slots are the board's empty cells, and the invariant holds |
| QLearning.QTicTacToe.GetQ | QTicTacToe.java:218-221 | returns the stored value of the slot, which lies in (-1, 1) on a valid table |
| QLearning.QTicTacToe.SetQ | QTicTacToe.java:212-216 | overwrites slot (key, action) and no other slot or key; keeps the invariant when the slot exists and the value is in (-1, 1) |
| QLearning.QTicTacToe.GetMaxQAction | QTicTacToe.java:223-235 | returns -1 when no slot exceeds -1.0, and otherwise a slot above -1.0 whose value is at least every slot's value, whatever the iteration order |
| QLearning.QTicTacToe.GetMinQAction | QTicTacToe.java:237-249 | returns -1 when no slot is below 1.0, and otherwise a slot below 1.0 whose value is at most every slot's value, whatever the iteration order |
| QLearning.QTicTacToe.MaxQ | QTicTacToe.java:200-204 | whenever some slot of the key exceeds -1.0 (the only case in which the source reads a present value), returns the greatest slot value of the key |
| QLearning.QTicTacToe.MinQ | QTicTacToe.java:206-210 | whenever some slot of the key is below 1.0 (the only case in which the source reads a present value), returns the least slot value of the key |
| QLearning.QTicTacToe.UpdateQValue | QTicTacToe.java:179-198 | writes only slot (stateKey, action): it becomes the update of the old value toward the reward on the final ply, and otherwise toward the reward plus 0.9 times the opponent's best reply value (min after player 1, max otherwise); a valid table stays valid whenever the reward is in [-1, 1] on a final ply or 0 otherwise |
| QLearning.QTicTacToe.RandomMove | QTicTacToe.java:251-258 | returns the pick-th empty cell in ascending order, which is an empty cell |
| QLearning.QTicTacToe.ChooseAction | QTicTacToe.java:132-159 | evaluation mode takes the argmax for both players; training mode with coin below 0.5 takes the argmax for player 1 and the argmin otherwise; any other coin takes the random empty cell; the key must be in the table only when a greedy branch reads it; on a valid table and the key of a board with an empty cell the action is always an empty cell |

## Left out

- Console output: `printGrid`, `printGridMoves`, `printSymbol`, `getSymbol`, and all progress and verbose printing. These have no effect on the computed values.
- The interactive game loop of the search engine (NegaMax.java:27-77). It reads human moves from a `Scanner`, which is I/O.
- The training driver of the learning engine (QTicTacToe.java:41-130), which is the episode loop, the counters and the mode switch after 70000 games. It is driven by `java.util.Random` and printing. Within it, a finished game increments exactly one of wins, losses and ties: +1.0 counts as a win, -1.0 as a loss, and anything else as a tie (QTicTacToe.java:92-102).
- Floating point: slot values, ALPHA, GAMMA and the update are exact reals, not IEEE doubles. Rounding is not modelled.
- Randomness itself: `Random.nextDouble` and `Random.nextInt` appear only as parameters constrained to their ranges.
- A board (array) length other than nine is not modelled. Every Java board is `int[9]`; the methods over arrays require length 9.
- The root value 0 of the empty board is not proved. Evaluating the whole game tree inside the verifier is out of reach.
- QLearning.QTicTacToe.GetMaxQAction: states "some slot attaining the maximum" rather than a lower-index tie-break. Java leaves `HashMap` iteration order unspecified; in practice, keys 0..8 of a default-capacity `HashMap` iterate in ascending order.
- QLearning.QTicTacToe.GetMinQAction: weaker than the ascending-index tie-break, for the same reason.
- QLearning.QTicTacToe.MaxQ: requires some slot above -1.0. Otherwise the scan returns -1 and the source unboxes a missing map value (null) and throws; the model excludes exactly that failure path instead of modelling it.
- QLearning.QTicTacToe.MinQ: requires some slot below 1.0, for the same reason.
- QLearning.QTicTacToe.UpdateQValue: on a non-final ply, requires the next key to be present with a slot that `minQ` (after player 1) or `maxQ` (otherwise) can read, and, like GetQ, requires (stateKey, action) to be a slot of the table. Otherwise the source would throw on a missing value (in `getQ`, QTicTacToe.java:191 and 220, or in `minQ`/`maxQ`); the model excludes that failure path instead of modelling it.
- QLearning.QTicTacToe.RandomMove: requires `pick` to be a valid index. With no empty cell, `nextInt(0)` throws; the model excludes that case instead of modelling it.
- QLearning.QTicTacToe.constructor: models only the initialisation of the table and the mode flags. The training it then runs is listed above.
- QLearning.QTicTacToe.GetQ, QLearning.QTicTacToe.SetQ, QLearning.QTicTacToe.GetMaxQAction, QLearning.QTicTacToe.GetMinQAction: require the key to be in the table, and `GetQ` also requires the action to be one of its slots. With a missing key or slot the source dereferences or unboxes null and throws; every call site in the source passes a key just returned by `makeKey` and an action that is an empty cell of that board, hence one of the key's slots, so the excluded path is never reached there.
