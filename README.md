# Screeps bot core in Dafny

A model of the decision logic of a Screeps bot, with proofs. Two generations of the logic sit side by side in the repository:

- An object-style harvesting engine (`src/allocator.ts` and `src/creep.worker.ts`). It assigns worker creeps to energy sources from a history of deposit round-trip times.
- The older `role.*` modules. Each runs one kind of creep or structure per game tick.

The model also covers these supporting pieces:

- the room's spawn queue (`src/room.ts`);
- body construction (`src/role.spawn.ts`);
- the legacy targeting helpers (`src/harvest.source.ts`);
- the room scheduler (`src/role.room.ts`);
- a few utilities.

The model has one Dafny module per source file. `Screeps` holds the game vocabulary: error codes, body parts, positions, stores, structures and the creep object. `JsNumber` holds JavaScript arithmetic over exact reals with NaN.

Every game call becomes an input of the model, given as a value or as a function from the call's arguments to its answer:

- `harvest`, `transfer`, `withdraw`, `build`, `repair`, `attack`, `heal`;
- `moveTo`'s error code, `spawnCreep`;
- the market, `room.find`, `getObjectById`, terrain.

The model returns the calls a tick makes, or the new state of the objects it writes.

The source's form decides the model's form:

- **Memory the source updates in place** becomes a Dafny `class`: a creep's memory, the worker's task fields, the room's spawn queue, the allocator's history table and `Memory.creeps`. The methods that update it carry `modifies` clauses.
- **In-place sorts** work on an `array`: the bubble sorts by distance and by price.
- **Loops** become methods with loop invariants. Each is proved against a specification function.
- **Pure expressions** become functions with named results.

`room.find` results are sequences in find order. Distances are squared integer distances; they order positions as `Math.sqrt` distances do.

## Model

| member | source | states |
|---|---|---|
| Misc.ArrayToString | src/misc.ts:2-4 | the result opens with `[`, closes with `]`, and what lies between is the elements joined by `, ` |
| Misc.EmptyArrayToString | src/misc.ts:3 | an empty array prints as `[]` |
| Misc.SingletonArrayToString | src/misc.ts:3 | a one-element array `[x]` prints as `[` + x + `]` |
| Misc.ArrayToStringLength | src/misc.ts:3 | the printed length is the elements' total length plus two per separator plus the two brackets |
| Misc.JoinSnoc | src/misc.ts:3 | joining one more element appends the separator and that element to the previous join |
| Cleanup.CreepMemoryTable.Run | src/cleanup.ts:7-14 | afterwards every key names a live creep; a live creep's entry is unchanged; keys are only removed; the table equals the old table restricted to the live names |
| Cleanup.Restrict | src/cleanup.ts:8-13 | the restriction's keys are exactly the old keys that are alive, with their old values |
| Cleanup.RestrictIdempotent | src/cleanup.ts:8-13 | a second clean-up removes nothing |
| CreepBase.GenerateCreepName | src/creep.base.ts:50-52 | the name is the base name, a `-`, then decimal digits that read back as the tick |
| CreepBase.CreepNameInjective | src/creep.base.ts:50-52 | two ticks give the same name for one base only when they are the same tick |
| CreepBase.BaseCreep.SetTargetTask | src/creep.base.ts:32-37 | reading the target task back gives the value written; the current task is untouched |
| CreepBase.BaseCreep.SetCurrentTask | src/creep.base.ts:39-44 | reading the current task back gives the value written; the target task is untouched |
| CreepBase.BaseCreep.UpdateTask | src/creep.base.ts:23-25 | the current task becomes the target task, and the target task stays |
| CreepBase.TaskRoundTrip | src/creep.types.ts:14-31 | parsing the memory string of a task gives that task back |
| CreepBase.TaskNameInjective | src/creep.types.ts:14-31 | distinct tasks have distinct memory strings |
| Worker.HarvestCode | src/creep.worker.ts:60-87 | no code when the target is null or the source is missing; ERR_FULL exactly when a found source meets a full creep or a full answer; OK exactly when there is room and the harvest succeeds or the source is out of range |
| Worker.DepositCode | src/creep.worker.ts:89-103 | OK exactly when the creep holds energy and some storage has space, whatever the transfer answers; ERR_NOT_ENOUGH_RESOURCES when it is empty; ERR_FULL when nothing has space |
| Worker.HarvestingSwitch | src/creep.worker.ts:21-28 | a harvesting worker switches to depositing exactly when the harvest is not OK or it is full; only then is the deposit start stamped with the tick; otherwise nothing changes |
| Worker.SwitchDepositsSameTick | src/creep.worker.ts:21-34 | a worker that has just switched tries to deposit in the same tick; it emits no sample, because no time has passed |
| Worker.DepositingSwitch | src/creep.worker.ts:30-34 | a depositing worker switches back to harvesting exactly when the deposit is not OK or it holds nothing; the start time is kept |
| Worker.OtherTasksIdle | src/creep.worker.ts:20-58 | a task that is neither harvesting nor depositing leaves all state unchanged and emits nothing |
| Worker.SampleOnlyAtTripEnd | src/creep.worker.ts:35-55 | a sample is emitted only when a depositing trip ends with an assigned source; it names that source and carries a nonzero elapsed time |
| Worker.RoundTripReported | src/creep.worker.ts:42-55 | a trip started at another tick that ends now reports the tick minus the start for its source |
| Worker.ShouldUpdateTask | src/creep.worker.ts:108-114 | true exactly when a harvesting creep is full or the task is empty |
| Worker.WorkerCreep.SetDepositStartTime | src/creep.worker.ts:116-122 | the start time reads back as written; the assignment is untouched |
| Worker.WorkerCreep.Tick | src/creep.worker.ts:20-58 | the new task state and the emitted sample are those of the switch rules above; the source assignment and the target task are never written |
| Allocator.Pushed | src/allocator.ts:206-211 | the new record is at index 0, followed by the previous history's first min(length, 4) records in order; the history holds at most 5 |
| Allocator.PushAllKeepsNewest | src/allocator.ts:206-211 | after any run of pushes the history is the newest records, newest first, cut to at most 5 |
| Allocator.Allocator.AddSourceDepositTime | src/allocator.ts:206-211 | a source without a history array makes `unshift` throw, reported as `thrown`, and nothing changes; otherwise only that source's history changes, to the pushed history |
| Allocator.Mean | src/allocator.ts:195-197 | defined exactly for a non-empty history, and then it is the sum of the times divided by the count |
| Allocator.MeanBounds | src/allocator.ts:195-197 | the mean lies between any lower and upper bound of the times |
| Allocator.Allocator.AverageDepositTime | src/allocator.ts:195-197 | it is a number exactly when the source has a non-empty history, and then it is that history's mean |
| Allocator.ExtractionRate | src/allocator.ts:184-193 | with no average the rate is NaN; with no WORK parts it is 0, or NaN when the capacity is 0 too |
| Allocator.ExtractionRateBounds | src/allocator.ts:184-193 | with w > 0 WORK parts, capacity c > 0 and an average d >= 0, the rate is c / (c / (w * HARVEST_POWER) + d), which lies in (0, w * HARVEST_POWER] |
| Allocator.ExtractionPerCycleBounds | src/allocator.ts:173-175 | the per-cycle extraction is the rate times ENERGY_REGEN_TIME, in (0, w * HARVEST_POWER * ENERGY_REGEN_TIME] |
| Allocator.Assigned | src/allocator.ts:151-158 | the assigned workers are exactly the workers whose target is the source |
| Allocator.EstimateIsContributionSum | src/allocator.ts:138-146 | the estimate is the sum, over all workers, of each assigned worker's per-cycle extraction |
| Allocator.EstimateUnassign | src/allocator.ts:138-158 | unassigning one assigned worker lowers the estimate by that worker's rate |
| Allocator.EstimateAssign | src/allocator.ts:138-158 | assigning one idle worker raises the estimate by that worker's rate |
| Allocator.EstimateUnassignAll | src/allocator.ts:138-158 | unassigning a set of assigned workers lowers the estimate by the sum of their rates |
| Allocator.EstimateAssignAll | src/allocator.ts:138-158 | assigning a set of idle workers raises the estimate by the sum of their rates |
| Allocator.SortByRateOrders | src/allocator.ts:113-117 | sorting by rate gives non-increasing rates, the fastest first, when every rate is a number |
| Allocator.VisitListFacts | src/allocator.ts:111-117 | the visiting order is a permutation of the picked workers, each once, in non-increasing rate order |
| Allocator.RemovalKeepsMinimum | src/allocator.ts:108-131 | removing capacity that never exceeds the excess keeps an estimate at or above the minimum at or above it |
| Allocator.NegativeExcessRemovesNothing | src/allocator.ts:125-127 | when the estimate is below the minimum, the first worker already overshoots the excess |
| Allocator.AdditionOvershoot | src/allocator.ts:66-77 | a need that is met adds nobody; otherwise the workers before the last one added fell short of the need |
| Allocator.RemovalEstimate | src/allocator.ts:108-131 | the greedy removal lowers the estimate by the removed rates; an estimate at or above the minimum stays there; one below it removes nobody |
| Allocator.AdditionEstimate | src/allocator.ts:46-80 | the greedy addition raises the estimate by the added rates; nobody is added when the estimate already meets the minimum; the need is met unless every idle worker was added |
| Allocator.UnassignWithinExcess | src/allocator.ts:119-130 | a prefix of the order is unassigned, up to the first worker that would overshoot the excess; only those targets change, to null |
| Allocator.AssignWhileShort | src/allocator.ts:66-77 | a prefix of the order is assigned, until the added total meets the need; only those targets change, to the source |
| Allocator.AssignIdleWorkers | src/allocator.ts:47-80 | only workers with a null target are assigned, fastest first, by the greedy addition rule; nothing else changes |
| Allocator.Allocator.RemoveExcessHarvesters | src/allocator.ts:108-131 | it visits the source's workers fastest first and unassigns the greedy prefix; only their targets change, to null |
| Allocator.Allocator.AddRequiredHarvesters | src/allocator.ts:46-85 | it assigns idle workers by the greedy addition rule and appends exactly one worker spawn entry, whatever the shortfall |
| Allocator.Allocator.AllocateSource | src/allocator.ts:30-33 | the views become `SourceStep`: greedy removal, then greedy addition, against the target energyCapacity × harvestRatio and with the source's mean deposit time; workers only move between null and that source; exactly one worker entry is queued |
| Allocator.Allocator.AllocateHarvesters | src/allocator.ts:28-40 | the views end as `Passes`, the fold of the per-source steps over the sources in find order; every worker ends on its old target, null or one of the room's sources; one worker entry is queued per source |
| Allocator.Allocator.AllocateNext | src/allocator.ts:29-33 | one turn of the loop: the pass over source k extends the chain of views by that source's step, and the queue gains one more worker entry |
| Allocator.RemovalCountFrom | src/allocator.ts:119-130 | the number of workers the removal greedy unassigns is a stopping place of the greedy: every unassigned prefix stays within the excess and the next worker would overshoot it |
| Allocator.AdditionCountFrom | src/allocator.ts:66-77 | the number of workers the addition greedy assigns is a stopping place of the greedy: each was added while the total was short of the need, and it stops when the need is met or nobody is left |
| Allocator.GreedyRemovalUnique | src/allocator.ts:119-130 | the removal greedy has exactly one stopping place |
| Allocator.GreedyAdditionUnique | src/allocator.ts:66-77 | the addition greedy has exactly one stopping place |
| Allocator.RemovalPassIs | src/allocator.ts:108-131 | the removal the method performs is `RemovalPass`, the greedy removal on the views before it |
| Allocator.AdditionPassIs | src/allocator.ts:46-80 | the assignment the method performs is `AdditionPass`, the greedy addition on the views after the removal |
| Allocator.RemovalPassShape | src/allocator.ts:119-130 | the removal pass keeps the length, and each view is unchanged or was on the source and now has a null target |
| Allocator.RemovalPassAllocation | src/allocator.ts:108-131 | the removal pass moves workers only between the source and null |
| Allocator.RemovalPassEstimate | src/allocator.ts:108-131 | an estimate that met the target still meets it after the removal pass; one short of it, with a non-negative mean, leaves the views unchanged |
| Allocator.AdditionPassShape | src/allocator.ts:66-77 | the addition pass keeps the length, and each view is unchanged or was idle and now targets the source |
| Allocator.AdditionPassAllocation | src/allocator.ts:46-80 | the addition pass moves workers only between null and the source |
| Allocator.AdditionPassEstimate | src/allocator.ts:46-80 | a met need makes the addition pass change nothing; when an idle worker is left afterwards, the estimate meets the target |
| Allocator.AllVisitedNoneIdle | src/allocator.ts:66-77 | when the greedy assigns every idle worker, no worker is left idle |
| Allocator.SourcePassAllocation | src/allocator.ts:30-33 | removal then addition over one source moves workers only between null and that source |
| Allocator.SourcePassEstimate | src/allocator.ts:30-33 | when an idle worker is left after the pass over a source, the source's estimate meets its target |
| Allocator.AllocationChangesWiden | src/allocator.ts:29-33 | a change allowed for some sources is allowed for any larger set of them |
| Allocator.MeanDepositTime | src/allocator.ts:195-197 | the mean is a number exactly when the source has a non-empty history, and then it is that history's mean |
| Allocator.SourceStepOf | src/allocator.ts:30-33 | removal then addition with the target energyCapacity × harvestRatio and the source's mean deposit time is the step for that source, and changes only assignments to it |
| Allocator.SourceStepAllocation | src/allocator.ts:30-33 | the step for a source moves workers only between null and that source |
| Allocator.StepAllocation | src/allocator.ts:29-33 | a pass after passes that kept the workers within the room's sources keeps them there |
| Allocator.PassChainNext | src/allocator.ts:29-33 | the pass over source k extends a chain of k passes to one of k + 1, keeping its start |
| Allocator.PassChainEnd | src/allocator.ts:29-33 | a chain of passes over all sources ends in `Passes` from its start |
| Allocator.PassesAllocation | src/allocator.ts:28-40 | after all the passes every worker is on its old target, idle or on one of the room's sources |
| Allocator.FoldPreserves | src/allocator.ts:29-33 | a property kept by every pass holds after the fold of the passes |
| Allocator.ChainedFold | src/allocator.ts:29-33 | the end of a chain of passes is the fold of the passes from its start |
| Allocator.AllocationChangesCompose | src/allocator.ts:30-33 | the per-source passes compose into one allocation change over all sources |
| Allocator.DrainKeepsAllocation | src/allocator.ts:111-130 | retargeting a visited prefix keeps the workers within the allowed targets |
| JsNumber.SumByPermutation | src/allocator.ts:141-143 | the `_.sumBy` total does not depend on the order of the workers |
| Room.WithRole | src/room.ts:68-72 | the options' memory gets `role` set to the entry's role, created when absent, and keeps every other key |
| Room.InitializeMemory | src/room.ts:43-47 | the queue becomes empty only when it was undefined, and is kept otherwise |
| Room.InitializeMemoryIdempotent | src/room.ts:43-47 | initialising twice changes nothing |
| Room.DrainCountStops | src/room.ts:74-78 | the drain stops right after the first ERR_NOT_ENOUGH_ENERGY, or when the queue is empty |
| Room.DrainCountAll | src/room.ts:74-78 | without ERR_NOT_ENOUGH_ENERGY the whole queue is handed off |
| Room.DrainCountAt | src/room.ts:74-78 | the first ERR_NOT_ENOUGH_ENERGY, at position k, ends the drain after k + 1 hand-offs |
| Room.FirstFree | src/room.ts:84-92 | the first spawn in find order that is not spawning, or none when all are busy |
| Room.GetFreeSpawn | src/room.ts:84-92 | the loop returns the first spawn that is not spawning |
| Room.FindStorageWithSpace | src/room.ts:141-167 | found exactly when some structure of the three classes has free space; it is the first such structure, in find order, of the first class that has one |
| Room.AnyWithRole | src/room.ts:116-120 | true exactly when some queue entry has the role |
| Room.BaseRoom.HasRoleInSpawnQueue | src/room.ts:116-120 | true exactly when some entry of the room's queue has the role |
| Room.BaseRoom.AddCreepToSpawnQueue | src/room.ts:102-109 | the entry is appended at the end; earlier entries are unchanged |
| Room.BaseRoom.SpawnCreepsFromQueue | src/room.ts:56-79 | the queue is cut from the front, one entry per hand-off, and the rest is a suffix of the old queue; hand-offs go to the first free spawn in FIFO order; with no free spawn nothing happens; an entry refused with ERR_NOT_ENOUGH_ENERGY is gone |
| Room.BaseRoom.SpawnCreepsFromQueueKeepingRefused | src/room.ts:56-79 | as above, but the refused entry stays at the head; only accepted entries leave the queue |
| Room.AcceptedCount | src/room.ts:74-78 | the accepted entries are the hand-offs, or one fewer when the last was refused |
| Room.DroppedEntryExample | src/room.ts:63-77 | a one-entry queue refused for energy ends empty after one hand-off |
| Room.KeptEntryExample | src/room.ts:63-77 | with the corrected drain the refused entry is still queued |
| RoleSpawn.SegmentLength | src/role.spawn.ts:132-139 | the loop's total is the sum of the part counts |
| RoleSpawn.CalcSegmentCost | src/role.spawn.ts:93-101 | the loop's total is the sum of BODYPART_COST times count |
| RoleSpawn.BodyCostByCounts | src/role.spawn.ts:93-101 | a body's cost is the sum over part types of the part cost times its count |
| RoleSpawn.Copies | src/role.spawn.ts:112-113 | at most nSegments copies, and the copies never exceed MAX_CREEP_SIZE parts; for a segment without parts exactly nSegments; otherwise nSegments, or the most that fit, since one more copy would exceed MAX_CREEP_SIZE |
| RoleSpawn.CreateBody | src/role.spawn.ts:110-125 | the nested loops build exactly the specified body |
| RoleSpawn.BodyFacts | src/role.spawn.ts:110-125 | length = copies * segment length <= MAX_CREEP_SIZE; cost = copies * segment cost; each part occurs copies * its segment count times; names in descending string order |
| RoleSpawn.SegmentsFacts | src/role.spawn.ts:115-123 | n repetitions of a segment have n times its length, cost and part counts |
| RoleSpawn.ExpandFacts | src/role.spawn.ts:115-123 | one expanded segment has the segment's length, cost and part counts |
| RoleSpawn.SortDescendingOrders | src/role.spawn.ts:124 | `sort().reverse()` leaves the parts in descending rank |
| RoleSpawn.SortDescendingFacts | src/role.spawn.ts:124 | sorting keeps every part count and the cost, and orders the names descending |
| RoleSpawn.NameRankOrder | src/role.spawn.ts:124 | the rank order of the parts is the string order of their names |
| RoleSpawn.FirstFreeSpawn | src/role.spawn.ts:24-37 | the first structure in find order that is an active spawn not spawning, or none exactly when there is no such structure |
| RoleSpawn.AutoExpandAffordable | src/role.spawn.ts:45-60 | with AUTO_EXPAND, the body of floor(energy / segment cost) segments costs at most the energy available |
| RoleSpawn.FreeSegmentIsEmpty | src/role.spawn.ts:48-49 | a segment costs at least 10 per part, so a free segment has no parts |
| RoleSpawn.SpawnCreep | src/role.spawn.ts:21-86 | ERR_BUSY with no free spawn, checked before the config; ERR_INVALID_ARGS without config; ERR_NOT_ENOUGH_ENERGY for zero segments; otherwise one request, with name = role + tick and memory {role, home = room = spawn room, spawner, toRecycle = false}; the spawn's answer is returned unchanged |
| HarvestSource.Swap | src/harvest.source.ts:291-295 | exactly positions p1 and p2 exchange their elements; the contents are a permutation. The terminal's own `swap` (src/role.terminal.ts:123-127) is the same exchange and uses this member |
| HarvestSource.SortOnDist | src/harvest.source.ts:275-288 | the array ends in non-decreasing distance order and is a permutation of its old contents; the sort is stable: entries at equal distance keep the order of their original positions |
| HarvestSource.BubblePass | src/harvest.source.ts:282-286 | one inner pass moves the farthest of the unsorted prefix to its end, keeps the sorted tail, and keeps ties in their original order |
| HarvestSource.OrderPair | src/harvest.source.ts:283-284 | the neighbours are exchanged exactly when the left one is strictly farther; the contents stay a permutation and ties stay in their original order |
| HarvestSource.SwapKeepsTies | src/harvest.source.ts:283-284 | exchanging neighbours at different distances keeps ties in their original order |
| HarvestSource.GetNearest | src/harvest.source.ts:298-307 | none exactly for an empty list; otherwise the earliest position of minimal distance |
| HarvestSource.NearestAtUnique | src/harvest.source.ts:298-307 | the strict `<` makes the nearest index unique: ties go to the earlier element |
| HarvestSource.EmptySpace | src/harvest.source.ts:261-272 | 9 minus the walls of the 3x3 block, so always in [0, 9] |
| HarvestSource.GetEmptySpace | src/harvest.source.ts:261-272 | the counting loops give exactly 9 minus the walls around the source |
| HarvestSource.GetnTargetSources | src/harvest.source.ts:215-234 | maps exactly the given source ids, each to the number of creeps targeting it; other targets are ignored |
| HarvestSource.TargetCount | src/harvest.source.ts:223-232 | a count never exceeds the number of creeps |
| HarvestSource.GetAvailableTargetResources | src/harvest.source.ts:82-101 | the first non-excluded source in find order with fewer targeting creeps than free tiles, or "" when none qualifies |
| HarvestSource.GetTargetResource | src/harvest.source.ts:191-212 | the nearest non-excluded source with fewer targeting creeps than free tiles, and among equally near ones the earliest in find order, or "" when none qualifies |
| HarvestSource.NearestQualifyingUnique | src/harvest.source.ts:201-209 | the nearest qualifying source, earliest among ties, is one position only |
| HarvestSource.TargetChoiceUnique | src/harvest.source.ts:191-212 | the specified choice of target is one id only |
| HarvestSource.FirstQualifyingBeats | src/harvest.source.ts:201-209 | in the stably sorted ranking the first qualifying entry is no farther than any qualifying entry, and comes earlier in find order than any at the same distance |
| HarvestSource.RankSourcesMembers | src/harvest.source.ts:194-199 | an entry is in the ranked list exactly when it names a non-excluded source at its own position in find order, with its squared distance |
| HarvestSource.ChoiceFromSorted | src/harvest.source.ts:201-209 | the first qualifying entry of the stably sorted ranking is the specified choice: the nearest qualifying source, the earliest in find order among equally near ones |
| HarvestSource.NoChoiceFromSorted | src/harvest.source.ts:210-211 | when no entry qualifies, "" is the specified choice |
| HarvestSource.ClearTarget | src/harvest.source.ts:77-79 | the target becomes "", which is falsy; the room and the flag stay |
| HarvestSource.ReselectTarget | src/harvest.source.ts:10-33 | the creep retargets exactly when its target was falsy or ran dry, and then takes the specified choice; otherwise the target stays |
| HarvestSource.Receivers | src/harvest.source.ts:166 | exactly the structures of the type with free space for the resource |
| HarvestSource.DepositResources | src/harvest.source.ts:159-187 | ERR_INVALID_TARGET exactly when no deposit type has a structure with space; otherwise OK and the nearest such structure of the first type that has one; it moves exactly when out of range |
| HarvestSource.WithdrawAmount | src/harvest.source.ts:59-62 | min(free capacity, amount stored); an undefined amount keeps the free capacity |
| HarvestSource.EnergyStores | src/harvest.source.ts:54 | exactly the structures that hold energy |
| HarvestSource.PullFromStorage | src/harvest.source.ts:53-75 | no target exactly when nothing holds energy, and then ERR_INVALID_TARGET; otherwise the nearest energy store, the earliest in find order among equally near ones, with the withdraw amount above, OK unless the store is busy, and a move exactly when out of range |
| HarvestSource.NearestOfSorted | src/harvest.source.ts:58-63 | the head of the stably sorted candidates is a candidate at its own position, no farther than any other, and strictly nearer than every earlier one |
| HarvestSource.PickableDrops | src/harvest.source.ts:110 | exactly the drops of energy strictly inside the room border |
| HarvestSource.PickupResource | src/harvest.source.ts:108-118 | ERR_INVALID_TARGET exactly when nothing is pickable; otherwise the first pickable drop, moving exactly when out of range |
| HarvestSource.FirstPickable | src/harvest.source.ts:110-114 | the head of the filtered drops is the first pickable drop in find order |
| HarvestSource.ChooseTombstone | src/harvest.source.ts:130-137 | the chosen tombstone is the first that holds energy, or the last when none does |
| HarvestSource.PickupTombstoneAsWritten | src/harvest.source.ts:125-154 | withdraws from the chosen tombstone but moves towards the first one |
| HarvestSource.TombstoneDetour | src/harvest.source.ts:146-148 | with an empty first and a full second tombstone, the second is chosen, yet the creep is sent to the first |
| HarvestSource.PickupTombstone | src/harvest.source.ts:125-154 | withdraws from the chosen tombstone, min(free, energy) of it, and moves towards the same tombstone |
| HarvestSource.TombstoneTargetHolds | src/harvest.source.ts:132-137 | when some tombstone holds energy, the chosen one holds energy and comes no later |
| RoleRoom.CountHomeRolePositive | src/role.room.ts:196-205 | the count is positive exactly when some creep of that home has that role |
| RoleRoom.GetCreepsForRoom | src/role.room.ts:196-205 | the counting loop gives the number of creeps with that home and role |
| RoleRoom.SpawnWalkWanted | src/role.room.ts:107-123 | spawns are attempted only for roles below quota, in table order |
| RoleRoom.SpawnWalkEndsLast | src/role.room.ts:117-121 | every attempt but the last answered neither OK nor ERR_NOT_ENOUGH_ENERGY |
| RoleRoom.SpawnWalkComplete | src/role.room.ts:107-123 | every role below quota is attempted, unless an earlier attempt ended the walk |
| RoleRoom.SpawnCreeps | src/role.room.ts:102-124 | no attempt without room config; otherwise the attempts are those of the walk above |
| RoleRoom.Candidates | src/role.room.ts:164-170 | exactly the creeps of the home, still in it, with the role, in order |
| RoleRoom.SendCount | src/role.room.ts:179-183 | min(quota - already there, candidates), and none when the quota is met |
| RoleRoom.SendTo | src/role.room.ts:184-187 | the sent creeps get the room and a cleared target; nobody else changes; corrected half of Findings row 3: the target is cleared, where the code as written throws |
| RoleRoom.ExtraditeTypeStep | src/role.room.ts:164-188 | the memories become the specified extradition of one role; the flags stay; corrected half of Findings row 3: the target is cleared, where the code as written throws |
| RoleRoom.SendFirst | src/role.room.ts:179-188 | the first candidates, as many as are missing, get the room and a cleared target; corrected half of Findings row 3: the target is cleared, where the code as written throws |
| RoleRoom.SendOne | src/role.room.ts:184-187 | one creep gets the room and a cleared target; every other creep is untouched; corrected half of Findings row 3: the target is cleared, where the code as written throws |
| RoleRoom.SendExtraditions | src/role.room.ts:151-191 | nothing changes without config; otherwise the memories, and the throw for a role without extradition config, are those of the extradition table, in order; corrected half of Findings row 3: the target is cleared, where the code as written throws |
| RoleRoom.ExtraditeTypeAsWritten | src/role.room.ts:179-188 | it throws exactly when a sent creep has a target; no target is ever cleared |
| RoleRoom.ExtraditionThrows | src/role.room.ts:185-187 | one harvester with a target makes the code as written throw, where the corrected step sends it and clears the target |
| RoleRoom.ExtraditeTypeFacts | src/role.room.ts:164-188 | the target room gains exactly the sent count; home and role never change; a changed creep is a candidate now in the room without a target |
| RoleRoom.SentCount | src/role.room.ts:171-184 | sending distinct candidates raises the count in the room by their number |
| RoleRoom.OwnCreeps | src/role.room.ts:43 | exactly the home's creeps that are not spawning, in order |
| RoleRoom.TurnOf | src/role.room.ts:45-75 | a creep outside its room travels there; otherwise it runs its role when that is a role, and does nothing else |
| RoleRoom.RunCreeps | src/role.room.ts:42-76 | handles exactly the home's creeps that are not spawning, each with the turn above |
| RoleTerminal.SortByPrice | src/role.terminal.ts:110-118 | leaves a permutation in non-decreasing price order, the cheapest first; the sort is stable: orders at the same price keep their listed order |
| RoleTerminal.PricePass | src/role.terminal.ts:113-115 | one inner pass moves the dearest of the prefix to its end, keeps the sorted tail, and keeps ties in their listed order |
| RoleTerminal.OrderByPrice | src/role.terminal.ts:114 | the neighbours are exchanged exactly when the left one is strictly dearer; the contents stay a permutation and ties keep their listed order |
| RoleTerminal.SwapKeepsPriceTies | src/role.terminal.ts:114 | exchanging neighbours at different prices keeps ties in their listed order |
| RoleTerminal.Placements | src/role.terminal.ts:39-42 | each order is paired with its position in the filtered list |
| RoleTerminal.SortedByPrice | src/role.terminal.ts:44 | the sorted orders are in non-decreasing price order, a rearrangement of the listed orders, with ties in their listed order |
| RoleTerminal.SortedEnds | src/role.terminal.ts:44-45 | after the sort the first order is the first listed of the cheapest, and the last order the last listed of the dearest |
| RoleTerminal.CheapestAtUnique | src/role.terminal.ts:44-45 | the first listed cheapest order is one position only |
| RoleTerminal.DearestAtUnique | src/role.terminal.ts:89-90 | the last listed dearest order is one position only |
| RoleTerminal.Bids | src/role.terminal.ts:39-42 | exactly the buy orders at or above the minimum price |
| RoleTerminal.Asks | src/role.terminal.ts:84-87 | exactly the sell orders at or below the maximum price |
| RoleTerminal.SellAmount | src/role.terminal.ts:46-63 | min(stored - sell.min, order amount); for energy, cut to what remains after the fee when that does not cover amount + fee |
| RoleTerminal.BuyAmount | src/role.terminal.ts:92-95 | min(buy.max - stored, order amount) |
| RoleTerminal.TradeResource | src/role.terminal.ts:31-103 | sells only above sell.max, to the first listed of the cheapest qualifying bids; buys only otherwise, below buy.min, from the last listed of the dearest qualifying asks (after `reverse`); no deal without a qualifying order |
| RoleTerminal.Run | src/role.terminal.ts:13-105 | nothing without TERMINAL config; one deal decision per resource in table order; it throws at the first key without a value |
| RoleTerminal.TradeResourceIntended | src/role.terminal.ts:31-103 | sells only above sell.max, to the last listed of the dearest qualifying bids; buys only otherwise, below buy.min, from the first listed of the cheapest qualifying asks; no deal without a qualifying order |
| RoleTerminal.SellsToLowestBid | src/role.terminal.ts:39-45 | with a low and a high bid, the code as written sells to the low one; the intended one sells to the high one |
| RoleTerminal.BuysFromHighestAsk | src/role.terminal.ts:89-91 | with a low and a high ask, the code as written buys from the high one; the intended one buys from the low one |
| RoleTerminal.SellTieGoesToFirstListed | src/role.terminal.ts:44-45 | with two bids at the same price, the code as written sells to the one listed first |
| RoleLogistics.GetLowestStored | src/role.logistics.ts:87-95 | the earliest index with the least stored amount |
| RoleLogistics.HighestStoredAsWritten | src/role.logistics.ts:100-108 | for [5, 1, 9] the `<` test selects 1, the lowest |
| RoleLogistics.GetHighestStored | src/role.logistics.ts:97-108 | the earliest index with the most stored amount |
| RoleLogistics.Closest | src/role.logistics.ts:112-120 | the earliest index of minimal distance |
| RoleLogistics.ToStructuresMembers | src/role.logistics.ts:63-73 | exactly the TO-type structures with free space when AMOUNT is unset, or holding less than AMOUNT when it is set |
| RoleLogistics.FromStructuresMembers | src/role.logistics.ts:78-82 | exactly the FROM-type structures holding some of the resource |
| RoleLogistics.HoldingOfFrom | src/role.logistics.ts:42 | every FROM structure holds the resource, so the second filter keeps them all |
| RoleLogistics.DepositAmount | src/role.logistics.ts:26-29 | min(carried, target's free capacity), or null when the free capacity is null |
| RoleLogistics.CallOfFacts | src/role.logistics.ts:22-55 | a creep carrying the resource transfers to the closest structure that needs it; otherwise it withdraws min(free, stored) from the closest that provides it |
| RoleLogistics.RunCallsMade | src/role.logistics.ts:12-56 | every call made is the specified call for its table entry |
| RoleLogistics.RunCallsOrdered | src/role.logistics.ts:12-56 | calls follow the table order, and only the last may end the tick |
| RoleLogistics.RunCallsComplete | src/role.logistics.ts:12-56 | every entry that is not skipped gets its call, unless an earlier one ended the tick |
| RoleLogistics.TransferStep | src/role.logistics.ts:13-55 | one iteration makes exactly the specified call of its entry, or none for a skipped one |
| RoleLogistics.Turn | src/role.logistics.ts:13-55 | one iteration extends the calls made and reports whether the tick ends, moving exactly on out of range |
| RoleLogistics.Run | src/role.logistics.ts:10-57 | the calls are the walk of the table; the creep moves exactly when the last one was out of range |
| RoleLogistics.RunLoop | src/role.logistics.ts:12-56 | the loop makes exactly the walk's calls |
| RoleLogistics.WalkFacts | src/role.logistics.ts:12-56 | the walk's calls come from increasing entries, and all but the last go on |
| RoleLogistics.WalkComplete | src/role.logistics.ts:12-56 | the walk reaches every entry with a call, unless a stopping call came before it |
| RoleLink.GetType | src/role.link.ts:42-51 | PROVIDER when listed as provider, checked first; else REQUESTER when listed as requester; else undefined |
| RoleLink.GetLowestRequester | src/role.link.ts:57-73 | starts at the first requester; throws when the first is stale and a later one resolves; otherwise the earliest resolved requester with the least energy |
| RoleLink.LowestRequesterUnique | src/role.link.ts:57-73 | the lowest requester is unique: ties go to the earlier |
| RoleLink.StaleFirstRequesterThrows | src/role.link.ts:59-68 | a missing first requester followed by a live one makes the lookup throw |
| RoleLink.GetLowestResolvedRequester | src/role.link.ts:57-73 | the earliest resolved requester with the least energy, or none when no requester resolves |
| RoleLink.Run | src/role.link.ts:14-35 | only a provider acts; it transfers exactly when the first requester resolves, to the lowest requester |
| RoleClaim.HasCreepAssignedIff | src/role.claim.ts:93-96 | true exactly when some creep with role `reserve` has the room in memory |
| RoleClaim.FirstClaim | src/role.claim.ts:68-73 | the first CLAIM_ROOMS entry from i on that is neither assigned nor owned |
| RoleClaim.FirstUnassigned | src/role.claim.ts:74-80 | the first RESERVE_ROOMS entry from i on without an assigned creep |
| RoleClaim.ChooseRoom | src/role.claim.ts:65-81 | the first free claim room, else the first unassigned reserve room, else unchanged; a visible claim room without a controller throws |
| RoleClaim.SetRoom | src/role.claim.ts:65-81 | the creep's room becomes the chosen room, and is kept when nothing is chosen |
| RoleClaim.Run | src/role.claim.ts:12-60 | a room is chosen only from home or an owned room; outside its room the creep travels; without a controller it stops; in a claim room it claims, and reserves on ERR_GCL_NOT_ENOUGH; in a reserve room it reserves |
| RoleSecurity.HasHostilePart | src/role.security.ts:85-90 | true exactly when the body has an ATTACK, RANGED_ATTACK or CLAIM part |
| RoleSecurity.GetAttackCreeps | src/role.security.ts:81-93 | exactly the armed hostiles, in find order, each once |
| RoleSecurity.Run | src/role.security.ts:18-76 | armed hostiles first, then all hostiles when enabled, then hostile structures when enabled; the first loop that ends the tick decides; it parks only when none does |
| CreepRoles.EnergyFlag | src/role.constructor.ts:13-17 | true on zero energy, false on zero free capacity, otherwise unchanged. The repair (src/role.repair.ts:15-20), harvester (src/role.harvester.ts:11-16) and upgrader (src/role.upgrader.ts:11-16) roles use the same update |
| CreepRoles.FilterCounts | src/role.security.ts:81-93 | a filter keeps every copy of a qualifying element and no other |
| CreepRoles.FilterConcat | src/role.security.ts:81-93 | a filter keeps the order: it distributes over concatenation |
| CreepRoles.Engage | src/role.constructor.ts:21-36 | the loop ends at the first target acted on with OK or approached along a path; ERR_NO_PATH skips; otherwise it runs out |
| CreepRoles.DescribesUnique | src/role.security.ts:23-34 | the answers of the calls decide how the loop ends |
| RoleTower.AttemptsFacts | src/role.tower.ts:18-23 | one loop calls its action on the targets in order and stops at the first OK; it succeeds exactly when some target answers OK |
| RoleTower.TryEach | src/role.tower.ts:18-23 | the loop makes exactly those calls |
| RoleTower.TowerCallsShape | src/role.tower.ts:13-46 | attacks, then repairs when enabled and no attack succeeded, then heals when enabled and neither succeeded; only the last call can succeed |
| RoleTower.TowerCallsSucceed | src/role.tower.ts:13-46 | the tick succeeds exactly when some hostile, damaged structure or hurt creep answers OK, with repair and heal enabled |
| RoleTower.TowerCallsOrder | src/role.tower.ts:26-45 | a repair is tried only when enabled and no attack could succeed; a heal only when enabled and no attack or repair could |
| RoleTower.Run | src/role.tower.ts:13-46 | the three loops make exactly the calls above |
| RoleConstructor.Repair | src/role.constructor.ts:60-85 | works through damaged non-wall structures; ERR_NOT_FOUND exactly when none is repaired or approached |
| RoleConstructor.Run | src/role.constructor.ts:12-55 | not harvesting: clears its target, builds the first site it can, else repairs, else parks and sets the flag; harvesting: retargets, and without a target pulls from storage, stopping harvesting when that fails |
| RoleRepair.Run | src/role.repair.ts:14-52 | not harvesting: clears its target and repairs the first damaged structure it can, walls included, else parks and sets the flag; harvesting: retargets and pulls from storage without a target, stopping harvesting when that fails |
| RoleUpgrader.Run | src/role.upgrader.ts:10-33 | exactly one branch, chosen by the new flag: upgrade with a cleared target, moving when out of range; or harvest, parking and clearing the flag without a target |
| RoleHarvester.Run | src/role.harvester.ts:10-39 | harvesting: retargets, and without a target parks and clears the flag; otherwise clears its target and deposits, and upgrades only when nowhere can take the energy |
| RoleMineralHarvester.MineralFlag | src/role.mineralHarvester.ts:10-14 | false on zero free capacity, true when empty, otherwise unchanged |
| RoleMineralHarvester.GetMineral | src/role.mineralHarvester.ts:44-50 | the first resource in RESOURCES_ALL order held in a positive amount, or undefined when none is |
| RoleMineralHarvester.FirstHeldUnique | src/role.mineralHarvester.ts:44-50 | that first resource is unique |
| RoleMineralHarvester.Run | src/role.mineralHarvester.ts:9-39 | not harvesting: deposits its mineral, energy for none, and parks to harvest on failure; no mineral in the room: clears the flag; else harvests, moving when out of range |

## Left out

- `generateHarvesterBody` (src/allocator.ts:87-100) is an unfinished stub that returns nothing. The worker body is a parameter of `Allocator.Allocator.AddRequiredHarvesters`, `AllocateSource` and `AllocateHarvesters`.
- The computations at src/allocator.ts:34-38 are unused, and are not modelled.
- `Allocator.Instance`, called at src/creep.worker.ts:50-55, is not defined in src/allocator.ts. `Worker.WorkerCreep.Tick` returns the deposit-time sample instead of making that call.
- src/creep.worker.ts:50-55 passes `(id, creep, elapsed)`, against the signature `(source, time, amount)` at src/allocator.ts:206. The model pushes the elapsed time as the record's time.
- src/allocator.ts:84 passes `(body, ROLE_WORKER, {})` to `addCreepToSpawnQueue(role, body, name, opts)` (src/room.ts:102-107). The model enqueues the logical entry: the worker role, the body, the name generated at src/allocator.ts:83 and empty options. The source itself leaves that name unused.
- The pushed deposit record omits `workMoveRatio` (src/allocator.ts:10-14 against 207). The model's record has just the time and the amount.
- Allocator methods require the creeps to be distinct objects, as `room.find` returns them.
- Allocator.ExtractionRate: JavaScript numbers become exact reals plus NaN. An Infinity from a zero denominator is folded into NaN.
- Misc.ArrayToString: the elements are given as text. `Array.prototype.join`'s own conversion of each element is not modelled; it turns null and undefined into the empty string.
- The `Math.sqrt` distances become squared integer distances, which order positions the same way.
- Movement and pathing are left out: `moveTo`, `park`, `goToRoom`, `findExitTo` and src/utility.creep.ts. Only the error code of `moveTo` is an input.
- Engine and market calls are left out (`harvest`, `transfer`, `withdraw`, `pickup`, `build`, `repair`, `attack`, `heal`, `spawnCreep`, `claimController`, `reserveController`, `Game.market`, `calcTransactionCost`, `find`, `getObjectById`, terrain). Their answers are inputs.
- src/main.ts, src/creep.ts and src/pixel.generator.ts are the scheduler and dispatch, and are not part of this model.
- src/resourceMgr.ts, src/resourceTransfer.ts and src/allocater.ts are stubs, and are not part of this model.
- The type-only files are modelled only as the task and role datatypes: src/types.d.ts, src/creep.types.d.ts, src/creep.work.ts and src/creep.types.ts.
- `console.log` output is left out, including the log of a claim creep in a room without a controller.
- The persistence of `Memory` is left out. Memory is class fields and maps.
- HarvestSource.ReselectTarget: one reselection stands for the retry recursion of `harvestSource` (src/harvest.source.ts:10-33). The harvest call and the re-run are engine interplay.
- RESOURCES_ALL is a parameter of `RoleMineralHarvester.GetMineral`.
- `harvestMineral`, `getTargetMineral` and `getnTargetMinerals` are not part of this model.
- The room configuration lookup is not modelled when it throws on a missing room or key. Each role receives its configuration entry.
- JavaScript object keys are taken to iterate in insertion order. For `getnTargetSources` this means find order, so `HarvestSource.GetAvailableTargetResources`, `GetTargetResource` and `ReselectTarget` require distinct source ids.
- RoleLogistics.CallOfFacts, HarvestSource.Receivers and HarvestSource.DepositResources: a structure without a store makes `structure.store` throw in the source (src/role.logistics.ts:63-82, src/harvest.source.ts:166). The model's needs, provides and free-space tests ask for a store instead, so such a structure is passed over.
- RoleSpawn.SpawnCreep: it requires that AUTO_EXPAND with a zero-cost segment does not meet positive energy. The source divides by zero there, and the body loop does not end.
- HarvestSource.GetAvailableTargetResources: `getAvailableTargetResources` (src/harvest.source.ts:82-101) is neither exported (src/harvest.source.ts:316-324) nor called. It passes a RoomID string (src/types.d.ts:15) to `getnTargetSources`, which calls `room.find` on it. The model gives it the room's sources, as if it were handed the room object.
- RoleRoom.SendExtraditions: it and its steps model the corrected extradition, in which the target is cleared. As written, src/role.room.ts:186 throws at the first sent creep that has a target; `RoleRoom.ExtraditeTypeAsWritten` states that for one role only.
- Worker.WorkerCreep.Tick: it requires `storageFound` to be the storage search's answer on the given structures. The worker and its base creep are distinct objects.

## Findings

| source | as written | input that shows it | evidently intended | confidence | as-written member | corrected member |
|---|---|---|---|---|---|---|
| src/room.ts:63-77 | the queue head is shifted before the hand-off and not restored, so an entry refused with ERR_NOT_ENOUGH_ENERGY is lost | a one-entry queue and a spawn that answers ERR_NOT_ENOUGH_ENERGY | the refused entry stays at the head of the queue for the next tick | not executed | Room.DroppedEntryExample | Room.BaseRoom.SpawnCreepsFromQueueKeepingRefused |
| src/harvest.source.ts:146-148 | the creep withdraws from the chosen tombstone but moves towards `tombstones[0]` | an empty first tombstone and a second one holding 50 energy, out of range | it moves towards the tombstone it withdraws from | not executed | HarvestSource.TombstoneDetour | HarvestSource.PickupTombstone |
| src/role.room.ts:185-187 | `harvestSource` is bound to `./role.harvester` (src/role.room.ts:12), which exports only `run` (src/role.harvester.ts:41), so sending a creep with a target throws a TypeError | one home harvester with target `src`, extradited with quota 1 | the target is cleared and the creep is sent | not executed | RoleRoom.ExtraditionThrows | RoleRoom.ExtraditeTypeFacts |
| src/role.terminal.ts:44-45 | after the ascending sort, the sale goes to `orders[0]`, the cheapest bid, though the comment at 107-109 promises the dearest first | two bids above the minimum price, at different prices | it sells to the highest bid | not executed | RoleTerminal.SellsToLowestBid | RoleTerminal.TradeResourceIntended |
| src/role.terminal.ts:89-91 | after the same ascending sort and `reverse`, the purchase comes from `orders[0]`, the dearest ask, so the terminal buys at the highest price its limit allows | two asks below the maximum price, at different prices | it buys from the lowest ask | not executed | RoleTerminal.BuysFromHighestAsk | RoleTerminal.TradeResourceIntended |
| src/role.logistics.ts:100-108 | `getHighestStored` uses the same `<` test as `getLowestStored`, so it returns the lowest; neither is called (their uses at src/role.logistics.ts:24 and 41 are commented out), so the defect has no effect at run time | stored amounts [5, 1, 9] give index 1 | index 2, the highest | not executed | RoleLogistics.HighestStoredAsWritten | RoleLogistics.GetHighestStored |
| src/role.link.ts:59-68 | the loop starts from `getObjectById(REQUESTERS[0])` without a null check, so a stale first id makes `.store` throw once a later requester is compared | requesters ["gone", "l1"] where only l1 exists | stale ids are skipped throughout | not executed | RoleLink.StaleFirstRequesterThrows | RoleLink.GetLowestResolvedRequester |
