# Mine as an extended action sequence

A Dafny model of the Mine card of the Dominion engine: a multi-step action
that first trashes a treasure from the acting player's hand and then gains a
treasure costing at most the trashed card's cost plus 3, straight into that
hand. While in progress, Mine tells the engine whose turn it is, builds the
menu of legal next choices, and is told of each action taken. It reports when
both steps are done, and it supports copying, value equality and hashing.

The progress of one Mine is an immutable record
`Mine(player, trashedCard, gainedCard, trashValue)`. The engine mutates the
object in place; here each such update is a function that returns the new
record. The game state is reduced to what Mine reads:

- the acting player's hand, a sequence of card kinds;
- the buyable kinds (`cardsToBuy`), also a sequence of card kinds.

A card kind carries its cost and treasure flag. The actions Mine offers or is
told about form a closed datatype: `TrashCard`, `GainCard`, `DoNothing`, and
`OtherAction` for every other action kind.

Files:

- `cards.dfy`: card kinds, zones and actions (module `Cards`).
- `seqs.dfy`: duplicate-freedom and the order-keeping `distinct` step (module `Seqs`).
- `hashing.dfy`: Java's `Boolean.hashCode` and `Arrays.hashCode`, with 32-bit wrap-around (module `Hashing`).
- `mine.dfy`: the Mine record and its operations (module `MineAction`).
- `mine_runs.dfy`: properties spanning several calls (module `MineRuns`).
- `mine_pass.dfy`: the finding below and its correction (module `MinePass`).

## Model

| member | source | states |
|---|---|---|
| MineAction.NewMine | src/main/java/games/dominion/actions/Mine.java:14-22 | A newly played Mine belongs to the given player, has neither trashed nor gained, and has captured value 0. |
| MineAction.Execute | src/main/java/games/dominion/actions/Mine.java:24-33 | It asks for more steps, and registers itself as the action in progress, exactly when the hand holds a treasure. In that case the record is unchanged. Otherwise both flags are set, so the action is immediately complete. This holds exactly when the trash menu would have no real choice. Player and captured value are never changed. |
| MineAction.TrashCandidates | src/main/java/games/dominion/actions/Mine.java:39-41 | Before de-duplication, every candidate is a `TrashCard` by the acting player of a treasure in hand. Every treasure in hand has a candidate. The list is empty exactly when the hand has no treasure. |
| MineAction.TrashCandidatesInHandOrder | src/main/java/games/dominion/actions/Mine.java:39-41 | The candidates follow hand order: the k-th candidate trashes the card at the k-th treasure position of the hand, one per position. |
| Seqs.Positions | src/main/java/games/dominion/actions/Mine.java:40 | The positions kept by a filter are in range, strictly increasing, all satisfy the filter, and include every position that does. |
| MineAction.TrashOptions | src/main/java/games/dominion/actions/Mine.java:38-42 | The trash choices have no duplicates. Each one is a `TrashCard` by the acting player of a treasure in hand. Every treasure in hand is offered. The list is empty exactly when the hand has no treasure. |
| MineAction.ComputeTrashOptions | src/main/java/games/dominion/actions/Mine.java:39-42 | The stream pipeline (filter treasures, map to `TrashCard`, `distinct` via a set of already-seen choices) yields exactly the trash choices. |
| Seqs.Distinct | src/main/java/games/dominion/actions/Mine.java:42 | `distinct` gives a duplicate-free list with the same members as its input. It is no longer than the input and is empty only when the input is. |
| Seqs.DistinctKeepsFirstOccurrenceOrder | src/main/java/games/dominion/actions/Mine.java:42 | `distinct` keeps values in the order of their first occurrence in the input. |
| MineAction.GainOptions | src/main/java/games/dominion/actions/Mine.java:43-47 | Every gain choice is a `GainCard` for the acting player, into the hand, of a buyable treasure whose cost is at most the ceiling. The menu is empty exactly when no buyable kind is an affordable treasure. |
| MineAction.GainOptionsCounts | src/main/java/games/dominion/actions/Mine.java:43-47 | The gain menu offers each kind exactly as many times as it appears among the buyable kinds when it is an affordable treasure, and never otherwise. |
| MineAction.GainOptionsInOrder | src/main/java/games/dominion/actions/Mine.java:44-47 | The gain menu follows supply order. It has one choice per supply position holding an affordable treasure, and its k-th choice gains the kind at the k-th such position. |
| MineAction.GainOptionsInSupplyOrder | src/main/java/games/dominion/actions/Mine.java:44-47 | For any single index k of the gain menu: the k-th choice gains the kind at the k-th supply position holding an affordable treasure. |
| MineAction.GainOptionsLength | src/main/java/games/dominion/actions/Mine.java:44-47 | The gain menu has exactly one choice per supply position holding an affordable treasure. |
| MineAction.FollowOnActions | src/main/java/games/dominion/actions/Mine.java:36-55 | It may only be asked before completion. The menu is never empty. It is `[DoNothing]` exactly when the pending step has no candidate: no treasure in hand for the trash step, or no buyable treasure within trashValue + 3 for the gain step. Otherwise it is the trash menu until a card has been trashed, and the gain menu after that. |
| MineAction.RegisterActionTaken | src/main/java/games/dominion/actions/Mine.java:62-71 | Both flags only go from false to true, and the player never changes. The acting player's first `TrashCard` sets the trash flag and captures that card's cost, and a later trash never overwrites it. The acting player's `GainCard` sets the gain flag. Any other action, or one by another player, changes nothing. No field changes other than in these cases. |
| MineAction.ExecutionComplete | src/main/java/games/dominion/actions/Mine.java:73-76 | The action is complete exactly when both the trash flag and the gain flag are set. Once it is complete, the progress callback leaves the record unchanged for every action. |
| MineAction.CurrentPlayer | src/main/java/games/dominion/actions/Mine.java:57-60 | The player who chooses next is the Mine's own player. The entry test and the progress callback never change it. |
| MineAction.Copy | src/main/java/games/dominion/actions/Mine.java:78-85 | The copy is equal to the original in both directions, with the same player, flags and captured value. |
| MineAction.Equals | src/main/java/games/dominion/actions/Mine.java:87-97 | A Mine is equal to something exactly when that thing is a Mine with the same player, captured value and flags. |
| MineAction.HashCode | src/main/java/games/dominion/actions/Mine.java:99-102 | The hash is always a Java `int`. It agrees on equal Mines; see `MineRuns.HashConsistentWithEquals`. |
| Hashing.ArraysHashCode | src/main/java/games/dominion/actions/Mine.java:101 | The `Objects.hash` fold always yields a value in Java's `int` range. |
| MineRuns.EqualsIsValueEquality | src/main/java/games/dominion/actions/Mine.java:87-97 | A Mine equals another Mine exactly when player, captured value and both flags agree. It never equals a non-Mine. |
| MineRuns.EqualsIsEquivalence | src/main/java/games/dominion/actions/Mine.java:87-97 | Equality is reflexive, symmetric and transitive. |
| MineRuns.HashConsistentWithEquals | src/main/java/games/dominion/actions/Mine.java:87-102 | Equal Mines hash equally, whatever the hash of the MINE tag is. |
| MineRuns.RunMonotone | src/main/java/games/dominion/actions/Mine.java:62-76 | Over any sequence of callbacks: the player is fixed, both flags are monotonic, a captured value is never overwritten, and a complete action stays complete. |
| MineRuns.CurrentPlayerIsActingPlayer | src/main/java/games/dominion/actions/Mine.java:57-60 | From the entry test on, through any sequence of callbacks, the player choosing next is the one who played Mine. |
| MineRuns.FirstTrashWins | src/main/java/games/dominion/actions/Mine.java:64-67 | If the action at position k is the acting player's first trash, then after the whole run the trash flag is set and the captured value is the cost of the card trashed at k. |
| MineRuns.NoOwnTrashKeepsValue | src/main/java/games/dominion/actions/Mine.java:64-67 | If the acting player trashes nothing, the trash flag stays clear and the captured value is unchanged. |
| MineRuns.ForeignActionsChangeNothing | src/main/java/games/dominion/actions/Mine.java:62-71 | Any number of actions that are not the acting player's trash or gain leave the record exactly as it was. |
| MineRuns.TrashMenuOneEntryPerKind | src/main/java/games/dominion/actions/Mine.java:38-42 | Before trashing, each treasure kind in hand appears exactly once in the menu, however many copies are held. A kind that is not a treasure in hand is never offered, for any player. |
| MineRuns.GainMenuKeepsRepeats | src/main/java/games/dominion/actions/Mine.java:43-47 | Once trashed, the menu offers each affordable treasure as often as it appears among the buyable kinds (no de-duplication). |
| MineRuns.MenuChoiceMatchesPendingStep | src/main/java/games/dominion/actions/Mine.java:36-55 | Every menu choice belongs to the pending step. Before the trash it is the acting player's trash of a treasure in hand. After the trash it is the acting player's gain of a treasure within trashValue + 3. Otherwise it is `DoNothing`. |
| MineRuns.MenuDrivenTrashesTreasures | src/main/java/games/dominion/actions/Mine.java:36-71 | When every choice is taken from the current menu, the card trashed at any position is a treasure that was in hand when it was chosen. |
| MineRuns.MenuDrivenGainsAfterTrash | src/main/java/games/dominion/actions/Mine.java:36-71 | When every choice is taken from the current menu, the gain flag is never set before the trash flag. |
| MineRuns.MenuDrivenRespectsCeiling | src/main/java/games/dominion/actions/Mine.java:36-71 | When every choice is taken from the current menu, the card gained at any position is a treasure. Its cost is at most the value captured by the earlier trash plus 3. |
| MinePass.Pending | src/main/java/games/dominion/actions/Mine.java:73-76 | The number of outstanding steps is at most 2 and is 0 exactly when the action is complete. |
| MinePass.AsWrittenPassStalls | src/main/java/games/dominion/actions/Mine.java:48-71 | As written: after a trash, with no affordable treasure buyable, a menu-following run of every length n exists, consisting only of passes. It leaves the record unchanged and incomplete. |
| MinePass.AsWrittenPassStallsOnGoldOnly | src/main/java/games/dominion/actions/Mine.java:43-71 | A concrete case: value 0 trashed and only Gold (cost 6) buyable. The menu is `[DoNothing]`, and taking it changes nothing. |
| MinePass.RegisterActionTakenResolvingPass | src/main/java/games/dominion/actions/Mine.java:62-71 | The corrected callback agrees with the original on every action except `DoNothing`. A `DoNothing` before completion resolves at least one outstanding step. Flags stay monotonic. |
| MinePass.MenuChoiceMakesProgress | src/main/java/games/dominion/actions/Mine.java:36-71 | With the corrected callback, every menu choice resolves at least one outstanding step. |
| MinePass.ResolvingPassCompletes | src/main/java/games/dominion/actions/Mine.java:36-76 | With the corrected callback, a menu-following run is no longer than the number of outstanding steps, and each of its steps resolves at least one of them. |
| MinePass.ResolvingPassCompletesAfterTwoSteps | src/main/java/games/dominion/actions/Mine.java:36-76 | With the corrected callback, any two menu-following steps from a newly played Mine complete the action. |

## Left out

- The effects of `TrashCard`, `GainCard` and `DoNothing` on hand, trash and supply. Their classes are not part of this model. They appear only as action values fed to the callback. A hand or supply that changes between steps is instead given afresh with each step of a run.
- The game state's `getDeck`, `cardsToBuy` and `setActionInProgress`. The first two become the hand and supply sequences. The third becomes the `registeredInProgress` flag of the entry test's result.
- The hash of the enumeration constant `CardType.MINE`. It is an identity hash that varies between runs, so it is a parameter of `HashCode`.
- `MineAction.GainOptions`: no 32-bit overflow in `trashValue + 3`. Costs are small non-negative numbers, so the ceiling is computed on unbounded integers.
- `TrashCard.equals`. Its class is not part of this model. The de-duplication of the trash menu (`distinct`, Mine.java:42) assumes that two `TrashCard` actions are equal exactly when they name the same card kind and the same player, which is how datatype equality compares them here.
- The class hierarchy and `instanceof` dispatch. They are replaced by the closed `Action` datatype and, for `equals`, by a `Comparand` that is either a Mine or not.
- Copy independence. Records are immutable values here, so a copy cannot share state with the original. `Copy` states only value equality.
- The executor loop is not modelled. Its protocol appears as the `MenuDriven` predicate: each chosen action comes from the current menu, and the action is not yet complete before each step.

## Findings

| source | as written | input that shows it | evidently intended | confidence | as-written member | corrected member |
|---|---|---|---|---|---|---|
| src/main/java/games/dominion/actions/Mine.java:51-53, 63-71 | In the gain step, when no buyable treasure costs at most trashValue + 3, the menu is `[DoNothing]`. The callback ignores `DoNothing`, so `gainedCard` is never set and the same menu comes back forever. | `Mine(player 0, trashed, not gained, trashValue 0)` with Gold (cost 6) as the only buyable treasure | The pass offered so that the player is never stalled should resolve the pending step, so that the sequence completes | medium: not executed; whether the engine's executor stops this loop some other way is not part of this model | MinePass.AsWrittenPassStalls | MinePass.RegisterActionTakenResolvingPass |

The per-call properties above (`RegisterActionTaken`, `RunMonotone` and the
rest) are stated for the callback as written. The corrected callback agrees
with it on every action except `DoNothing`, and the completion results
(`ResolvingPassCompletes`, `ResolvingPassCompletesAfterTwoSteps`) are proved
for the corrected callback.
