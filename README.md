# Kalah (Mancala) rules engine and search, in Dafny

This project models the core of `mancala_engine.py`: a Kalah-style Mancala
rules engine and the two fixed-depth adversarial search policies built on it.

- `board.dfy` (module `Board`): the board value `MancalaState`, here the
  datatype `State`. It has fourteen slots in a ring: player 0's row is
  0..5 and its store is 6; player 1's row is 7..12 and its store is 13.
  The module also holds the index helpers (`side_range`, `mancala_index`,
  `opponent_mancala_index`, `opposite_index`), legal moves, the standard
  opening position, and sums of slots.
- `rules.dfy` (module `Rules`): `apply_move`. `Step` states one move as a
  function of values: sow, capture, end-of-game harvest, then hand over the
  turn. `ApplyMove` does the same move in place, on an array copy of the
  slots, with the sowing loop and the harvest loops the source uses, and is
  proved equal to `Step`. Lemmas state the following about a move:
  - the stones on the board are conserved;
  - no slot goes negative;
  - what a capture moves where;
  - what holds once the game ends;
  - whose turn it is next.
- `search.dfy` (module `Search`): `utility`, `_terminal_or_depth`, the
  mutually recursive evaluators and both policies.
  - `MaxValueOf` and `MinValueOf` define the minimax value as functions.
  - The methods `MaxValue`, `MinValue`, `AbMax` and `AbMin` run the
    source's loops over the legal moves, including the early returns of
    alpha-beta.
  - Plain minimax is proved to compute the minimax value exactly.
  - Alpha-beta is proved fail-soft with respect to that value: inside the
    window it is exact; at or below alpha it is an upper bound that does
    not exceed alpha; at or above beta it is a lower bound that is at least
    beta.
  - Both policies are proved to return the same move, `BestMove`: among the
    legal moves, the first whose child value is largest. So pruning never
    changes the choice.

The `±math.inf` sentinels of the search become the datatype
`Ext = NegInf | Fin(n) | PosInf`. Stone counts are unbounded integers, like
Python's.

A capture needs the landing pit to hold exactly one stone after sowing
(`mancala_engine.py:53`). That is not the same as "the pit was empty before
the move", and the two differ in both directions once a sowing laps the
ring:
- With 13 or more stones, the last stone can land back in the move's own
  start pit, which the move emptied. That pit then holds one stone and can
  capture, although it held stones before the move.
- With 14 or more stones, the last stone can land in an own pit that was
  empty before the move but already took a stone on the first lap. That
  pit then holds two stones and does not capture.

The model checks the count after sowing, as the code does.
`Rules.StepCapture` states the capture condition exactly and which landing
pits can never capture.

## Model

| member | source | states |
|---|---|---|
| Board.StandardStart | mancala_engine.py:13-15 | The opening position has `n` stones in each of the twelve pits and empty stores. Player 0 moves first, both flags are false, the board holds `12n` stones, and no slot is negative when `n >= 0`. |
| Board.StartMoves | mancala_engine.py:13-15 | From an opening with at least one stone per pit, player 0 may play pits 0..5 and player 1 pits 7..12, in that order. |
| Board.SideStart | mancala_engine.py:17-18 | A player's row is exactly the six slots from `SideStart` on, and they lie on the board below slot 13. |
| Board.MancalaIndex | mancala_engine.py:20-21 | A player's store is the slot just after the player's row, and it lies in neither row. |
| Board.OpponentMancalaIndex | mancala_engine.py:23-24 | The opponent's store is the other player's store and never the mover's own. |
| Board.OppositeIndex | mancala_engine.py:34-35 | `12 - i` maps each pit of one row onto a pit of the other row, in both directions. |
| Board.SlotsPartitionRing | mancala_engine.py:17-24 | Every slot is in exactly one of: player 0's row, player 1's row, one of the two stores. |
| Board.MovesFrom | mancala_engine.py:29 | The comprehension yields exactly the indices of the range that hold stones, strictly ascending and within the range. |
| Board.LegalMoves | mancala_engine.py:26-29 | The legal moves are exactly the player's row pits holding stones, in ascending order, at most six, and never a store. |
| Board.HasMovesIffRowNonEmpty | mancala_engine.py:26-29 | On a board with no negative slot, a player has a legal move exactly when the player's row sum is non-zero. |
| Rules.NextSlot | mancala_engine.py:45-48 | The next stone goes one step round the ring, or one more step when that step is the opponent's store, and never lands in that store. |
| Rules.Sow | mancala_engine.py:44-50 | The last stone lands on the board. When at least one stone is sown, it never lands in the opponent's store. |
| Rules.SowAddsStones | mancala_engine.py:44-50 | Sowing `k` stones adds exactly `k` to the board total. |
| Rules.SowOnlyAdds | mancala_engine.py:44-50 | Sowing never lowers a slot and never feeds the opponent's store. The slot of the last stone gains at least that stone. |
| Rules.SowStraight | mancala_engine.py:44-50 | Stones that neither wrap nor reach the opponent's store land one per slot after the start; the last lands `k` slots on. |
| Rules.Sown | mancala_engine.py:41-50 | The last stone of a legal move never lands in the opponent's store. |
| Rules.CaptureEffect | mancala_engine.py:52-60 | When the capture fires, the landing pit and the opposite pit are emptied, the mover's store gains the opposite stones plus one, and every other slot is unchanged. Otherwise the board is unchanged. |
| Rules.CaptureKeepsTotal | mancala_engine.py:52-60 | The capture check keeps the board total. |
| Rules.ThreeSlotsTotal | mancala_engine.py:57-59 | Clearing two slots and setting a third changes the board total by the difference. |
| Rules.HarvestSideEffect | mancala_engine.py:66-70 | Sweeping one row into its owner's store sets every pit of that row to zero, adds the row's former sum to that store, keeps the total and leaves the other row's sum alone. |
| Rules.SweptSums | mancala_engine.py:66-70 | A board whose one row was set to zero and added to its owner's store has the same total, a zero sum on that row, and the other row's sum unchanged. |
| Rules.HarvestEffect | mancala_engine.py:62-71 | The end-of-game harvest keeps the total and empties all twelve pits. Each store gains its own row's sum. |
| Rules.Step | mancala_engine.py:38-40 | A move succeeds exactly when the index is a pit of the mover's row holding stones. Otherwise it fails with `IllegalMove`. |
| Rules.StepConservesStones | mancala_engine.py:41-71 | A legal move leaves the total number of stones on the board unchanged. |
| Rules.StepKeepsNonNegative | mancala_engine.py:41-71 | A legal move on a board with no negative slot leaves no negative slot. |
| Rules.HarvestKeepsNonNegative | mancala_engine.py:62-71 | The harvest of a board with no negative slot leaves no negative slot. |
| Rules.StepCapture | mancala_engine.py:52-60 | The capture flag is set exactly when the last stone lands in the mover's own row, in a pit now holding one stone, opposite a non-empty pit. A landing pit other than the start pit that held stones before the move never captures. |
| Rules.StepEndOfGame | mancala_engine.py:62-71 | If a row is empty after sowing and capture, then the game is over, all row pits are zero, and each store holds its own row's sum in addition. Otherwise the board is the post-capture board and `game_over` is unchanged. |
| Rules.StepTurn | mancala_engine.py:73-77 | Once the game is over the turn stays put. Otherwise the mover keeps the turn exactly when the continuation rule is on and the last stone fell in the mover's store, and the turn passes to the opponent in every other case. |
| Rules.StepOverOrBothCanMove | mancala_engine.py:62-71 | After a move from a running game, the game is over exactly when every row pit is empty, and then neither player can move. While it runs, both players can move. |
| Rules.OpeningMoveIntoStore | mancala_engine.py:37-79 | From the four-stone opening, pit 2 sows into 3, 4, 5 and the store, with no capture. Player 0 moves again with the continuation rule and player 1 moves without it. |
| Rules.EmptyingRowEndsGame | mancala_engine.py:62-71 | Playing player 0's last stone into the store ends the game. Player 1's remaining stones go to player 1's store. |
| Rules.ApplyMove | mancala_engine.py:37-79 | The in-place move on a copy of the slots equals `Step`, including the `IllegalMove` failure. |
| Rules.SowInPlace | mancala_engine.py:44-50 | The sowing loop, which skips the opponent's store, leaves the slots and the last index that `Sow` gives. |
| Rules.CaptureInPlace | mancala_engine.py:52-60 | The in-place capture check writes exactly the board `Capture` gives and reports whether the capture fired. |
| Rules.HarvestRow | mancala_engine.py:66-70 | The row loop zeroes the player's row and adds its former sum to the player's store. |
| Search.ExtMax | mancala_engine.py:131 | `max` over scores with infinities: the result bounds both arguments from above and is one of them. |
| Search.ExtMin | mancala_engine.py:145 | `min` over scores with infinities: the result bounds both arguments from below and is one of them. |
| Search.Utility | mancala_engine.py:81-82 | On a board with no negative slot, the store difference lies between minus and plus the number of stones on the board. |
| Search.UtilityZeroSum | mancala_engine.py:81-82 | The game is zero-sum: the two players' utilities are always opposite. |
| Search.UtilityAtGameEnd | mancala_engine.py:81-82 | With both rows empty, the utility is twice the scorer's store minus the board total. |
| Search.TerminalScoresUtility | mancala_engine.py:117-122 | At a finished game or with no depth left, both the max and the min evaluator return the utility of the position. |
| Search.EmptyRowsAtDepthZero | mancala_engine.py:117-122 | A board with both rows empty gives neither side a move, so in a running game it is not `Live`. A depth-0 search of either kind still scores it by its utility, without passing the turn. |
| Search.PassHandsOver | mancala_engine.py:124-127 | In a running game where some player can move, a mover without moves passes to a player who has one, so the search never passes twice in a row. |
| Search.Child | mancala_engine.py:130 | The position a legal move leads to (continuation rule off) has no negative slot, and is finished or lets someone move. |
| Search.MaxOf | mancala_engine.py:128-132 | The running maximum is one of the values and is at least every value. |
| Search.MinOf | mancala_engine.py:142-146 | The running minimum is one of the values and is at most every value. |
| Search.FirstArgMax | mancala_engine.py:106-114 | The chosen index holds the largest value, and every earlier value is strictly smaller: the first maximum. |
| Search.ArgMaxScanStep | mancala_engine.py:111-113 | Replacing the candidate only on a strictly larger score keeps the scan equal to the first maximum of what it has seen. |
| Search.ChildValues | mancala_engine.py:129-131 | There is one child value per move. |
| Search.ChildValueAt | mancala_engine.py:129-131 | Entry `i` of the child values is the value of the position that move `i` leads to. |
| Search.ChildValue | mancala_engine.py:130-131 | Playing move `i` on a copy and searching the result one ply shallower gives entry `i` of the child values. |
| Search.MaxValue | mancala_engine.py:120-132 | `_max_value` returns the minimax value of the position. |
| Search.MaxOverMoves | mancala_engine.py:128-132 | The max loop returns the largest child value. |
| Search.MinValue | mancala_engine.py:134-146 | `_min_value` returns the minimax value of the position. |
| Search.MinOverMoves | mancala_engine.py:142-146 | The min loop returns the smallest child value. |
| Search.MinimaxPolicy | mancala_engine.py:104-115 | The policy returns one of the legal moves, namely the first one whose child has the largest minimax value. |
| Search.FullWindowExact | mancala_engine.py:150 | With the full window `(-inf, +inf)`, a fail-soft result is the exact value. |
| Search.MaxNodeStep | mancala_engine.py:172-177 | After one child of a max node, either a beta cutoff happens and its value is a sound lower bound, or the running value stays in step with the exact maximum, and the raised alpha is the larger of alpha and the running value. |
| Search.MinNodeStep | mancala_engine.py:189-194 | After one child of a min node, either an alpha cutoff happens and its value is a sound upper bound, or the running value stays in step with the exact minimum, and the lowered beta is the smaller of beta and the running value. |
| Search.CutoffAbove | mancala_engine.py:175-176 | A value at or above beta that does not exceed the exact value is a fail-soft answer. |
| Search.CutoffBelow | mancala_engine.py:192-193 | A value at or below alpha that is not below the exact value is a fail-soft answer. |
| Search.MaxWindowDone | mancala_engine.py:178 | A max node that finishes its loop without a cutoff returns a fail-soft answer. |
| Search.MinWindowDone | mancala_engine.py:195 | A min node that finishes its loop without a cutoff returns a fail-soft answer. |
| Search.MaxScanStep | mancala_engine.py:172-177 | One iteration of the `_ab_max` loop either returns a fail-soft answer for the whole node or keeps the scan invariant with the raised alpha. |
| Search.MinScanStep | mancala_engine.py:189-194 | One iteration of the `_ab_min` loop either returns a fail-soft answer for the whole node or keeps the scan invariant with the lowered beta. |
| Search.AbChildValue | mancala_engine.py:173-174 | Searching the child of move `i` with the window gives a fail-soft answer for that child's value. |
| Search.AbMax | mancala_engine.py:163-178 | `_ab_max` is fail-soft with respect to the minimax value of the position. |
| Search.AbMaxOverMoves | mancala_engine.py:171-178 | The `_ab_max` loop, with its beta cutoff, is fail-soft with respect to the largest child value. |
| Search.AbMin | mancala_engine.py:180-195 | `_ab_min` is fail-soft with respect to the minimax value of the position. |
| Search.AbMinOverMoves | mancala_engine.py:188-195 | The `_ab_min` loop, with its alpha cutoff, is fail-soft with respect to the smallest child value. |
| Search.AlphaBetaPolicy | mancala_engine.py:148-161 | The policy returns one of the legal moves, and it is the same move `MinimaxPolicy` returns (`BestMove`). |

## Left out

- `play_game` and `random_policy` are not modelled. The first is the game driver and seeds the process-wide random generator; the second wraps `random.choice`.
- The default arguments `standard_start(stones_per_pit=4)` and `apply_move(..., continuation_rule=False)` are not modelled. `StandardStart` and `Step` always take the argument explicitly; the search passes `false`, as the source does.
- Python's recursion limit is not modelled. It bounds how deep the source's search can go, and it turns a very deep search into a `RecursionError`. The model's search has no such limit.
- The `±math.inf` floats are modelled only as the two infinities of `Ext`. No floating-point arithmetic is modelled.
- `clone` has no member of its own. `State` is a value, so the caller's position can never be changed by a move. `ApplyMove` copies the slots into a fresh array and changes only that copy.
- The optional `player` argument of `legal_moves` is not modelled. Callers always pass the player explicitly, which is what the default (the mover) amounts to.
- `minimax_policy(depth)` and `alphabeta_policy(depth)` return closures. Here they are methods that take `depth` with the other arguments.
- Several loops of the source are factored into helper methods, each proved against its own specification: the move loops of the evaluators (`*OverMoves`, `ChildValue`, `AbChildValue`), and the phases of `apply_move` (`SowInPlace`, `CaptureInPlace`, `HarvestRow`). The order of the work is the same.
- The `assert` of `apply_move` is modelled as always active: an illegal index gives `Failure(IllegalMove)`. Under `python -O` the assert is stripped; that is not modelled.
- Search.MinimaxPolicy: requires `depth >= 1`. With depth 0 the source searches the children at depth -1, which never meets `depth == 0`, so the search runs until the game ends. That search is not modelled.
- Search.AlphaBetaPolicy: requires `depth >= 1`, for the same reason as `MinimaxPolicy`.
- Search.MinimaxPolicy: requires a non-empty list of moves, each legal for the mover. On an empty list the source fails indexing `legal_moves[0]`; on an illegal move it fails the `apply_move` assert.
- Search.MinimaxPolicy: requires a board with no negative slot. Every board that `StandardStart` with `n >= 0` and legal moves produce has none (`Rules.StepKeepsNonNegative`). The positions below the root then stay finished or movable (`Search.Child`).
- Search.AlphaBetaPolicy: requires a board with no negative slot, for the same reason as `MinimaxPolicy`.
- Search.AlphaBetaPolicy: requires a non-empty list of moves, each legal for the mover, for the same reasons as `MinimaxPolicy`.
- Search.MaxValue: requires a board with no negative slot. When `depth > 0` it also requires a position that is finished or where someone can move. Every position a move produces has both properties (`Search.Child`). The case left out is a running game with both rows empty searched at `depth >= 1`: there the source passes the turn back and forth forever. At depth 0 such a board is scored by its utility, as in the source.
- Search.MinValue: requires the same as `MaxValue`, for the same reason.
- Search.AbMax: requires the same as `MaxValue`, plus `alpha < beta`. Every window the source builds from `(-inf, +inf)` satisfies `alpha < beta`.
- Search.AbMin: requires the same as `AbMax`, for the same reason.
