# Heroes battle core in Dafny

A model of the combat engine of the Heroes battle game. It covers four program classes:

- **UnitTargetPathFinderImpl.** Finds the shortest route from an attacking unit to its target on the 27 x 21 battlefield. Cells held by other living units are blocked. The search is Dijkstra's algorithm with unit steps and stops once the target cell leaves the queue.
- **SuitableForAttackUnitsFinderImpl.** Picks, row by row, the living unit that is foremost from the attacked side.
- **SimulateBattleImpl.** The battle loop. Each round it:
  - drops dead and missing units from the two working lists;
  - stops when a side has no units left;
  - sorts each side by base attack;
  - lets every living unit of the player, then of the computer, make its program call;
  - logs each reported target.
- **GeneratePresetImpl.** Builds the computer's army from unit templates and a point budget. It makes at most 11 copies per template and places them on random free cells of the 3 x 21 deployment area.

Modules:

- `Grid` (`grid.dfy`): the board, steps and walks.
- `Search` (`search.dfy`): the search invariant and the route lemmas, stated on values.
- `PathFinder` (`path_finder.dfy`): the path finder over `array2` tables.
- `SuitableUnits` (`attack_finder.dfy`): the attack finder.
- `Battle` (`battle.dfy`): the battle loop.
- `Preset` (`preset.dfy`): the army generator.
- `Units` (`units.dfy`): the `Unit` and `Army` classes.
- `Optional` (`option.dfy`): an option type.

The code and the design description of the system disagree in four places. The model follows the code in items 1, 3 and 4. For item 2 it keeps both versions: `PathFinder.BuildPathAsWritten` models the code, and `PathFinder.GetTargetPath` uses the corrected `PathFinder.BuildPath`, so its route is the intended one.

1. **Queue ties.** The design asks for first-in-first-out order among queue entries of equal distance. The code uses `java.util.PriorityQueue`, which promises no order among ties. The model lets any minimal entry come out first.
2. **Route rebuilding.** The design asks that both coordinates of a predecessor be read at once. The code does not do this; see "## Findings". The route `GetTargetPath` returns follows the design here, not the code.
3. **Dead entries.** The design says a dead entry is skipped. The code removes it from the working list, and the model does the same.
4. **Cancellation and outcomes.** The code has no cancellation token and no outcome states. The loop simply ends when a side is empty.

## Model

| member | source | states |
|---|---|---|
| Grid.NeighborIsAdjacent | src/programs/UnitTargetPathFinderImpl.java:108-110 | each of the four direction offsets leads to an orthogonal neighbour different from the cell |
| Grid.NeighborsAreAdjacent | src/programs/UnitTargetPathFinderImpl.java:17 | the four directions reach exactly the orthogonal neighbours of a cell, in both directions of the iff |
| Grid.CellsBound | src/programs/UnitTargetPathFinderImpl.java:15-16 | any set of cells on the board has at most 27 * 21 members (the visited set is bounded, so the search ends) |
| Grid.IsValid | src/programs/UnitTargetPathFinderImpl.java:126-128 | a cell may be entered iff it is one of the 27 x 21 cells of the board and not blocked |
| Search.RelaxStep | src/programs/UnitTargetPathFinderImpl.java:112-118 | before direction k the expanded cell and its k-th neighbour still hold their starting distances; direction k, tested on the current table, gives an enterable neighbour the expanded cell's distance + 1 when that is shorter and changes no other cell, and otherwise changes nothing |
| Search.RelaxAllDirections | src/programs/UnitTargetPathFinderImpl.java:106-121 | trying the four directions in turn gives the one-shot relaxation of all enterable neighbours, for distances and predecessors alike |
| Search.OffersAre | src/programs/UnitTargetPathFinderImpl.java:117 | the queue entries a relaxation adds are exactly the improved neighbours, each with its new distance |
| Search.InitialInv | src/programs/UnitTargetPathFinderImpl.java:30-38 | all distances infinite except 0 at the attacker, no predecessors, and only the attacker queued: this satisfies the search invariant |
| Search.WalkMeetsQueue | src/programs/UnitTargetPathFinderImpl.java:40-57 | every walk from the attacker to an unexpanded cell passes a queued entry whose distance is at most the walk's length |
| Search.PopFresh | src/programs/UnitTargetPathFinderImpl.java:41-49 | a minimal entry taken from the queue for an unvisited cell carries that cell's table distance, and no walk to the cell is shorter |
| Search.ExpandKeepsInv | src/programs/UnitTargetPathFinderImpl.java:49-56 | marking a non-target popped cell visited and relaxing its neighbours keeps the search invariant |
| Search.PopSkipKeepsInv | src/programs/UnitTargetPathFinderImpl.java:45-47 | dropping a queue entry of an already visited cell keeps the invariant |
| Search.TargetPopped | src/programs/UnitTargetPathFinderImpl.java:52-53 | when the target is popped, the search is done: the target's distance is shortest, or infinite only if it is unreachable |
| Search.QueueExhausted | src/programs/UnitTargetPathFinderImpl.java:40 | when the queue runs empty first, the target's distance is infinite and it is unreachable |
| Search.ChainDistances | src/programs/UnitTargetPathFinderImpl.java:138-142 | the j-th cell of a predecessor chain that ends at the target lies at distance j + 1, and the chain starts next to the attacker |
| Search.ChainIsWalk | src/programs/UnitTargetPathFinderImpl.java:133-145 | the attacker followed by the predecessor chain is a walk of enterable, adjacent cells to the target that never returns to the attacker |
| Search.ChainIsShortestWalk | src/programs/UnitTargetPathFinderImpl.java:133-145 | after a finished search that chain has length D[target] and no walk from the attacker to the target is shorter |
| Search.TreeRoute | src/programs/UnitTargetPathFinderImpl.java:28-60 | the route read off a finished search is empty exactly when the target is the attacker's cell or unreachable; otherwise it is a shortest walk after the attacker |
| PathFinder.GetBlockedCells | src/programs/UnitTargetPathFinderImpl.java:76-84 | a cell is blocked iff some alive unit other than the attacker and the target (by reference) stands on it |
| PathFinder.InitializeDistances | src/programs/UnitTargetPathFinderImpl.java:65-71 | a new 27 x 21 table holding Integer.MAX_VALUE in every cell |
| PathFinder.AddStartingPointToQueue | src/programs/UnitTargetPathFinderImpl.java:89-94 | the attacker's distance becomes 0, every other cell is unchanged, and one entry (attacker, 0) joins the queue |
| PathFinder.TargetReached | src/programs/UnitTargetPathFinderImpl.java:99-101 | the popped entry has reached the target iff its cell is the target unit's cell |
| PathFinder.Poll | src/programs/UnitTargetPathFinderImpl.java:41 | the entry taken has the smallest distance in the queue, and the rest of the queue is the queue minus that one entry |
| PathFinder.SetNeighbor | src/programs/UnitTargetPathFinderImpl.java:115-116 | the arrays now hold the neighbour's new distance and predecessor, with every other cell unchanged |
| PathFinder.RelaxDirection | src/programs/UnitTargetPathFinderImpl.java:108-120 | one direction of updateNeighbors: the arrays and queue advance from the first k directions' relaxation to the first k + 1 |
| PathFinder.UpdateNeighbors | src/programs/UnitTargetPathFinderImpl.java:106-121 | the arrays hold the relaxation of the current cell's enterable neighbours, and the queue gains exactly the improving offers |
| PathFinder.MarkVisited | src/programs/UnitTargetPathFinderImpl.java:49 | the visited array equals the old one with the popped cell set |
| PathFinder.PolledCell | src/programs/UnitTargetPathFinderImpl.java:42-45 | a queued entry lies on the board, and its visited flag is set exactly when its cell has been expanded |
| PathFinder.SearchStep | src/programs/UnitTargetPathFinderImpl.java:40-57 | one pass of the loop either finishes the search or keeps the invariant, and either shrinks the queue or grows the visited set |
| PathFinder.VisitCell | src/programs/UnitTargetPathFinderImpl.java:49-56 | an unvisited popped cell is marked; at the target the search is done, otherwise it is expanded and the visited set grows by it |
| PathFinder.ExpandCell | src/programs/UnitTargetPathFinderImpl.java:56 | expanding a popped non-target cell keeps the search invariant over the arrays |
| PathFinder.InitialSearching | src/programs/UnitTargetPathFinderImpl.java:30-38 | freshly set up arrays and queue are in the loop's starting state |
| PathFinder.SearchLoop | src/programs/UnitTargetPathFinderImpl.java:40-57 | the loop ends with a finished search whose predecessor table the array holds |
| PathFinder.BuildPath | src/programs/UnitTargetPathFinderImpl.java:133-145 | corrected buildPath: empty when the target has no predecessor, otherwise the predecessor chain to the target, as long as the distance it spans |
| PathFinder.BuildPathAsWritten | src/programs/UnitTargetPathFinderImpl.java:138-142 | buildPath as written (y read from the cell (new x, old y)): a returned route ends with the route built so far |
| PathFinder.AsWrittenCrashesBesideStart | src/programs/UnitTargetPathFinderImpl.java:138-141 | as written, a target next to the attacker on the same row whose cell is not blocked by another living unit ends in a null dereference (a blocked target cell is never reached, and buildPath returns the empty list) |
| PathFinder.AsWrittenSkipsCell | src/programs/UnitTargetPathFinderImpl.java:138-141 | as written, the chain (0,0)->(0,1)->(1,1) yields the route [(1,1)], which is not adjacent to the attacker |
| PathFinder.GetTargetPath | src/programs/UnitTargetPathFinderImpl.java:28-60 | with buildPath corrected (see "## Findings"), the result is a shortest route from the attacker to the target avoiding blocked cells; it is empty exactly when they share a cell or the target is unreachable |
| PathFinder.ConstantArray | src/programs/UnitTargetPathFinderImpl.java:66-69 | an array filled with one value holds the constant table |
| PathFinder.InitialState | src/programs/UnitTargetPathFinderImpl.java:30-32 | after initialisation the tables are the search's initial distance and predecessor tables |
| SuitableUnits.IsFirstUnitFromLeft | src/programs/SuitableForAttackUnitsFinderImpl.java:75-78 | the entry is first from the left iff no entry before it is occupied (at index 0 trivially) |
| SuitableUnits.IsLastUnitFromRight | src/programs/SuitableForAttackUnitsFinderImpl.java:83-86 | the entry is last from the right iff no entry after it is occupied (at the last index trivially) |
| SuitableUnits.IsValidUnitForAttack | src/programs/SuitableForAttackUnitsFinderImpl.java:68-70 | the left or the right test, as isLeftArmyTarget chooses: every entry on the attacked side of the index is empty |
| SuitableUnits.FirstOccupied | src/programs/SuitableForAttackUnitsFinderImpl.java:75-78 | the index of the first non-null entry of a row, or none exactly when every entry is null |
| SuitableUnits.LastOccupied | src/programs/SuitableForAttackUnitsFinderImpl.java:83-86 | the index of the last non-null entry of a row, or none exactly when every entry is null |
| SuitableUnits.ValidIffForemost | src/programs/SuitableForAttackUnitsFinderImpl.java:68-86 | for an occupied entry, the position test holds iff it is the foremost occupied entry from the attacked side |
| SuitableUnits.SelectedIff | src/programs/SuitableForAttackUnitsFinderImpl.java:52 | an entry is chosen iff it is a living unit and it is the foremost occupied entry seen from the attacked side (FirstOccupied for the left army, LastOccupied for the right) |
| SuitableUnits.DeadBlockerShields | src/programs/SuitableForAttackUnitsFinderImpl.java:75-86 | a dead unit in front of an entry, on the attacked side, stops that entry from being chosen |
| SuitableUnits.PickedUpTo | src/programs/SuitableForAttackUnitsFinderImpl.java:48-55 | the units picked from the first n entries are the foremost unit, if it lies among them and is alive |
| SuitableUnits.RowContribution | src/programs/SuitableForAttackUnitsFinderImpl.java:44-58 | a row contributes its foremost unit if alive, otherwise nothing, so at most one unit |
| SuitableUnits.FindSuitableUnitsInRow | src/programs/SuitableForAttackUnitsFinderImpl.java:44-58 | the loop returns the row's picked units: at most one, alive, and from the row |
| SuitableUnits.GetSuitableUnits | src/programs/SuitableForAttackUnitsFinderImpl.java:24-35 | the result is the concatenation, row by row, of each row's contribution |
| SuitableUnits.SuitableFacts | src/programs/SuitableForAttackUnitsFinderImpl.java:24-35 | the result has at most one unit per row; each is alive and foremost in some row |
| Battle.Programs.Attack | src/programs/SimulateBattleImpl.java:51 | one program call: the next outcome's units die, its target is reported, and the call and caller are recorded |
| Battle.BattleLog.PrintBattleLog | src/programs/SimulateBattleImpl.java:54 | the log gains the pair (attacker, target) |
| Battle.ActingIff | src/programs/SimulateBattleImpl.java:43-51 | an entry acts iff it is a unit, alive at the start, and not killed by a call made earlier in the same pass |
| Battle.WithoutDead | src/programs/SimulateBattleImpl.java:26-27 | removeIf keeps only living units of the list, every living entry among them, and no more than there were |
| Battle.WithoutDeadKeepsOrder | src/programs/SimulateBattleImpl.java:26-27 | the result is the list with exactly its non-null living entries kept, position by position (a unit listed twice stays twice), in their previous order |
| Battle.InsertByAttack | src/programs/SimulateBattleImpl.java:34 | inserting a unit adds exactly that unit to the list's multiset |
| Battle.InsertKeepsOrder | src/programs/SimulateBattleImpl.java:34 | inserting into a list ordered by attack, strongest first, keeps it ordered |
| Battle.SortByAttack | src/programs/SimulateBattleImpl.java:34-35 | the sort is ordered by base attack, strongest first, and is a permutation of its input |
| Battle.SortIsStable | src/programs/SimulateBattleImpl.java:34-35 | units with the same base attack keep their relative order |
| Battle.InsertKeepsTies | src/programs/SimulateBattleImpl.java:34 | inserting a unit leaves the other units of each attack value in order, with the new unit last among its equals |
| Battle.TurnsSkip | src/programs/SimulateBattleImpl.java:46-48 | removing a null or dead entry keeps the pass's bookkeeping, with a "did not act" flag |
| Battle.TurnsAct | src/programs/SimulateBattleImpl.java:51-55 | a living entry acts and stays, and the call's kills leave the living set |
| Battle.TurnsEnd | src/programs/SimulateBattleImpl.java:43 | at the end of the list the flags are Acting's, and the list is exactly the entries that acted |
| Battle.SimulateBattle.TakeTurn | src/programs/SimulateBattleImpl.java:51-55 | one call is made and recorded; its target is logged when non-null and a log exists; only the call's kills die |
| Battle.SimulateBattle.ActEntry | src/programs/SimulateBattleImpl.java:51-55 | the iterator passes a living entry after its turn, keeping the bookkeeping |
| Battle.SimulateBattle.SkipEntry | src/programs/SimulateBattleImpl.java:46-48 | it.remove() on an empty or dead entry keeps the bookkeeping and records nothing |
| Battle.SimulateBattle.ProcessTurns | src/programs/SimulateBattleImpl.java:42-57 | the remaining list is the entries that acted, one call each in list order; the log gains their reported targets; exactly the units killed by those calls die |
| Battle.SimulateBattle.BothSides | src/programs/SimulateBattleImpl.java:37-38 | the player's turns, then the computer's, where a computer unit killed by a player turn does not act |
| Battle.SimulateBattle.Round | src/programs/SimulateBattleImpl.java:25-38 | the loop stops iff a compacted side is empty, with no calls made; otherwise both sides are sorted and both take their turns |
| Battle.SimulateBattle.Simulate | src/programs/SimulateBattleImpl.java:19-40 | armies' lists untouched; when finished, one working list is empty and both hold only living units; units only ever die |
| Battle.SortedAlive | src/programs/SimulateBattleImpl.java:34-35 | sorting a list of living units yields living units only |
| Preset.FreeCellExists | src/programs/GeneratePresetImpl.java:59-62 | the area has WIDTH_ARMY * HEIGHT_ARMY = 3 * 21 = 63 cells (lines 15-16), so while fewer than 63 are taken it has a free cell for the retry loop to find |
| Preset.Random.NextInt | src/programs/GeneratePresetImpl.java:56 | nextInt(bound) returns the next stream value reduced into [0, bound) and advances the stream |
| Preset.IntToString | src/programs/GeneratePresetImpl.java:69 | the index is written as a non-empty string of decimal digits |
| Preset.DecimalRoundTrip | src/programs/GeneratePresetImpl.java:69 | reading the decimal string back gives the index |
| Preset.NameDeterminesTemplate | src/programs/GeneratePresetImpl.java:69 | two generated names are equal only if type and index are both equal |
| Preset.Copies | src/programs/GeneratePresetImpl.java:34-38 | a template ends with between its starting count and UNITS_TYPE_COUNT copies |
| Preset.CopiesStop | src/programs/GeneratePresetImpl.java:34-38 | one template's loop stops at 11 copies or when another copy would exceed the budget, and it spends within the budget |
| Preset.Plan | src/programs/GeneratePresetImpl.java:33-39 | the copy counts, one per template |
| Preset.PlanCapped | src/programs/GeneratePresetImpl.java:34 | no template gets more than UNITS_TYPE_COUNT copies |
| Preset.PlanStep | src/programs/GeneratePresetImpl.java:33-39 | template k's count is its loop's outcome from the points spent before it, and it adds count * cost points |
| Preset.PlanGreedy | src/programs/GeneratePresetImpl.java:34 | after each template, the plan holds 11 copies of it or has no room for one more |
| Preset.PlanWithinBudget | src/programs/GeneratePresetImpl.java:34-37 | with a non-negative budget, the points spent never exceed it |
| Preset.Layout | src/programs/GeneratePresetImpl.java:33-39 | the template index of each generated unit, in generation order, as many as the copies |
| Preset.LayoutBlocks | src/programs/GeneratePresetImpl.java:33-39 | the copies come in template order: unit j copies template k exactly when j lies in k's block |
| Preset.DistinctPairwise | src/programs/GeneratePresetImpl.java:34 | "each template is absent from the ones before it" iff the templates are pairwise different objects |
| Preset.IndexOf | src/programs/GeneratePresetImpl.java:34 | List.indexOf by reference: the first position holding the unit, or -1 exactly when it is absent |
| Preset.IndexOfDistinct | src/programs/GeneratePresetImpl.java:34-36 | with pairwise different templates, indexOf finds template k at k |
| Preset.CellsCount | src/programs/GeneratePresetImpl.java:65 | the occupied set holds every unit's cell; it has as many cells as units only when the cells are pairwise different |
| Preset.PlacedRoster | src/programs/GeneratePresetImpl.java:59-65 | the loop's counted form of the placement implies that all cells are different and in the area |
| Preset.PlacedGrow | src/programs/GeneratePresetImpl.java:65-82 | appending a copy of template k on a free cell of the area keeps the placement |
| Preset.BuiltStart | src/programs/GeneratePresetImpl.java:23-30 | before the loop, nothing is generated, spent or occupied |
| Preset.BuiltNext | src/programs/GeneratePresetImpl.java:33-34 | the next template's loop appends its greedy count to the plan, and the copies still fit the area |
| Preset.BuiltDone | src/programs/GeneratePresetImpl.java:39-42 | after the last template, the counts are the plan; the points are both the plan's price and the sum of the copies' costs; the copies form its roster |
| Preset.FillingStart | src/programs/GeneratePresetImpl.java:34 | a template's loop starts with no copies, aiming at its planned count |
| Preset.FillingRoom | src/programs/GeneratePresetImpl.java:34 | while the loop condition holds, the plan still asks for a copy and the area still has a free cell |
| Preset.FillingStep | src/programs/GeneratePresetImpl.java:35-37 | one more copy on a free cell, with its cost added, keeps the loop state |
| Preset.FillingDone | src/programs/GeneratePresetImpl.java:34 | when the loop condition fails, the template has exactly its planned count |
| Preset.GeneratePreset.Generate | src/programs/GeneratePresetImpl.java:21-45 | a new army whose units are the plan's copies in template order, each with name "type index", the template's attributes and its own cell of the area; its points are both the plan's price and the sum of the units' costs |
| Preset.GeneratePreset.CopyTemplates | src/programs/GeneratePresetImpl.java:33-39 | the loop over the templates yields the plan's counts, its price and a roster of copies |
| Preset.GeneratePreset.NextTemplate | src/programs/GeneratePresetImpl.java:33-39 | one template's turn extends the plan by one count and records it in unitCount, leaving later counters at 0 |
| Preset.GeneratePreset.AddCopies | src/programs/GeneratePresetImpl.java:34-38 | the inner loop makes exactly Copies(cost, points, maxPoints, 0) copies and changes only this template's counter |
| Preset.GeneratePreset.AddCopy | src/programs/GeneratePresetImpl.java:35-37 | one pass: one new unit appended, the counter of template k incremented and its cost added |
| Preset.GeneratePreset.AddUnit | src/programs/GeneratePresetImpl.java:54-83 | appends one new unit copying the template, named "type index", on a cell of the area that was free; the cell becomes occupied |
| Units.Unit.constructor | src/programs/GeneratePresetImpl.java:68-79 | a unit holds the given name, type, health, base attack, cost and position, and is alive iff its health is positive |
| Units.Army.constructor | src/programs/GeneratePresetImpl.java:22 | a new army has no units and no points |

## Left out

- Integer.MAX_VALUE is the "not reached" distance. Distances stay below 567, so `+ 1` never wraps, and the model uses unbounded integers.
- PathFinder.Poll: the order among queue entries of equal distance is left open, because `java.util.PriorityQueue` does not fix it. The route the model returns is therefore some shortest route, not a particular one.
- Blocked cells are a set of `Edge` values, not the `"x,y"` strings of a `HashSet<String>`. The strings are only a key encoding.
- `Unit.getProgram().attack()` belongs to the per-unit decision procedure, which is not part of this model. It is a script of outcomes: the units each call kills and the target it reports. Damage short of death and movement are not modelled.
- `PrintBattleLog` is an outside collaborator. It is a recorder of the lines it is asked to print.
- Battle.SimulateBattle.Simulate: the source's `while (true)` is bounded by a `maxRounds` argument, because whether the battle ends depends on the decision procedure. The flag `finished` says whether it ended within that bound.
- PathFinder.GetTargetPath: the source's crashes on bad input are excluded, not modelled. The requires keep the attacker and the target on the board, and `seq<Unit>` has no null entries. In the source, an attacker off the board throws ArrayIndexOutOfBoundsException at line 92. A target off the board lets the queue run empty, then fails at buildPath's first `cameFrom[x][y]` read (line 138). A null entry in `existingUnitList` throws NullPointerException at line 79.
- `InterruptedException` is only declared by the source. No interruption is modelled.
- Battle.SimulateBattle.Simulate: it does not state the whole final state of the two working lists. The per-round contract is on Round.
- Preset.GeneratePreset.Generate: the efficiency sort of line 28 is left out. It compares floating-point ratios, and the model takes the template list in the order it is given after that sort. That sort also reorders the caller's own list in place, so the caller sees its templates in a new order afterwards; the model does not change the caller's list.
- Preset.GeneratePreset.Generate: `java.util.Random` is an endless stream of values with a fairness assumption (`Fair`): every cell of the area is drawn again later. Without it the retry loop of addUnit need not stop.
- Preset.GeneratePreset.Generate: requires the planned copies to fit the 63 cells. With more, addUnit's retry loop never stops in the source.
- Preset.GeneratePreset.Generate: requires the templates to be pairwise different objects. `List.indexOf` compares with `equals`; assuming `Unit` does not override `equals` (its class is not part of this model), that is a comparison by reference, and with a repeated template the source counts copies against its first occurrence.
- Preset.GeneratePreset.Generate: Java `int` overflow is not modelled. Budgets and costs are taken to be small enough that `totalPoints + unit.getCost()` stays below 2^31. With maxPoints = 2147483647 and a template costing 2000000000, the source's test at line 34 wraps to a negative sum and keeps adding copies up to 11, and line 42 stores a wrapped total. The model plans one copy, and PlanWithinBudget's bound holds only under this assumption.
- Preset.GeneratePreset.Generate: does not state that the generated units are newly allocated. AddUnit states it for each unit it creates.
- `Coordinate` is a value with structural equality. The source compares coordinates by equals/hashCode, and its setter calls act on a coordinate that is not in the set yet.
- Attack types and the attack and defence bonus tables are passed through by addUnit. Only the decision procedure uses them, so they are left out.
- Units.Unit.constructor: health and position are constants. Only the decision procedure changes them, and it is not part of this model.
- Java lists are sequences that the methods reassign. Their identity and aliasing are not modelled, except for the armies' unit lists, which Simulate leaves unchanged.
- PathFinder.BuildPathAsWritten: bounded by a pass budget (`fuel`), because the route rebuilt as written need not follow the predecessor tree and so need not end.

## Findings

| source | as written | input that shows it | evidently intended | confidence | as-written member | corrected member |
|---|---|---|---|---|---|---|
| src/programs/UnitTargetPathFinderImpl.java:140-141 | `x` is set to the predecessor's x first, then `y` is read from `cameFrom[x][y]`, the predecessor entry of the cell (new x, old y) | The target is beside the attacker on the same row, on a cell no other living unit blocks, e.g. attacker (0,0) and target (1,0): the second read hits the attacker's cell, which has no predecessor, so it is a null dereference. Or the chain (0,0)->(0,1)->(1,1): the result is [(1,1)], not a walk | read the predecessor's (x, y) pair once, then move both coordinates | not executed | PathFinder.AsWrittenCrashesBesideStart, PathFinder.AsWrittenSkipsCell | PathFinder.BuildPath, Search.TreeRoute |
