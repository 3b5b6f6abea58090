# TAS decoder, greedy baseline and hypervolume analysis — a Dafny model

The system solves a task-assignment-and-scheduling (TAS) problem. An instance has:

- tasks, each with a duration, predecessor ids, required skill levels and a release date;
- employees, each with skill levels and a capacity (available time);
- per-skill overqualification weights alpha and two prices: lambdaOver for overload and lambdaOverq for overqualification.

A solution is a priority ordering of task positions. The **decoder** turns an ordering into a schedule. It makes repeated left-to-right passes over the ordering. A task is placed only when all its predecessors are placed. Its earliest start is the later of its release date and its predecessors' finishes. The task goes to the qualified employee with the lowest local cost; the lowest employee position wins a tie. Decode fails in three ways:

- an ordering entry is outside `[0, n)` (`InvalidIndex`);
- a ready task has no qualified employee (`Infeasible(task id)`);
- a whole pass places nothing (`Stalled`).

After the last placement the schedule recomputes both objectives from the final assignment:

- makespan: the latest finish;
- dissatisfaction: weighted overload plus weighted overqualification.

The **greedy baseline** sorts task positions stably by release date, then by duration, and decodes that ordering. The **loader** turns parsed records into model values, mapping name-keyed skill maps onto a fixed five-entry skill vector. Three **analysis scripts** compute 2-D Pareto fronts, the hypervolume of a front and a reference point for minimisation.

Modules:

- `TasModel` (model.dfy): the value types `Task`, `Employee` and `Instance`, with their defaults, copies and id look-up.
- `InstanceLoader` (loader.dfy): `buildSkillVector` and the record-to-model conversion.
- `Skills` (skills.dfy): `hasSkills` and the overqualification sum.
- `Schedule` (schedule.dfy): `ScheduleValue`, the abstract state, and `class Schedule`, which updates its maps and objectives in place.
- `DecoderSpec` (decoder_spec.dfy): decode as a function of the ordering.
- `Decoder` (decoder.dfy): the imperative decode over `scheduled[]` and `cursor[]` arrays, proved equal to `DecoderSpec`.
- `DecoderProps` (decoder_props.dfy): what a failed or successful decode means.
- `Sorting` (sorting.dfy): a stable insertion sort on sequences. It stands for `Collections.sort` and Python's `sorted`.
- `GreedySolver` (greedy.dfy): the greedy ordering and `solve`.
- `Pareto` (pareto.dfy): the front and its properties.
- `HvStats`, `TuningHv` and `EvalHv`: the three scripts.
- `HvAgreement`: proves that the statistics script and the tuning script compute the same hypervolume.

Java `double` and Python `float` are `real`; Java `int` is the unbounded `int`. Java's `null` and exceptions become `Option.None` and error results. A `HashMap` that the code iterates is modelled as a map plus the list of its keys (`order`). Every quantity computed by iterating it is a sum or a maximum, so the iteration order does not matter.

## Model

| member | source | states |
|---|---|---|
| TasModel.NewTask | src/main/java/com/example/ae/model/Task.java:14-24 | The task has the given id, duration, predecessors and release date; its skill vector equals the array's contents at construction (a copy). |
| TasModel.NewTaskReleasedAtZero | src/main/java/com/example/ae/model/Task.java:26-31 | Same fields as given, with release date 0. |
| TasModel.RequiredSkillsCopy | src/main/java/com/example/ae/model/Task.java:47-49 | The accessor returns a freshly allocated array with the task's contents. |
| TasModel.RequiredSkill | src/main/java/com/example/ae/model/Task.java:51-53 | `requiredSkills[k]` for k in range, 0.0 for negative or too-large k. |
| TasModel.Round | src/main/java/com/example/ae/model/Task.java:56-58 | `Math.round`: the integer r with r <= x + 0.5 < r + 1. |
| TasModel.RequiredSkillRounded | src/main/java/com/example/ae/model/Task.java:56-58 | The rounded value of `requiredSkill(0)`; 0 for an empty vector. |
| TasModel.NewEmployee | src/main/java/com/example/ae/model/Employee.java:11-15 | The employee has the given id and capacity, and a copy of the skills array. |
| TasModel.SkillsCopy | src/main/java/com/example/ae/model/Employee.java:24-26 | `skills()` returns a freshly allocated array with the employee's contents. |
| TasModel.Skill | src/main/java/com/example/ae/model/Employee.java:28-30 | `skills[k]` in range, 0.0 for negative or too-large k. |
| TasModel.WithAvailableTime | src/main/java/com/example/ae/model/Employee.java:32-38 | After `setAvailableTime(v)` the capacity is v; id and skills are unchanged. |
| TasModel.IndexById | src/main/java/com/example/ae/decoder/TasDecoder.java:26-29 | Every stored position is a valid task position. |
| TasModel.BuildTaskById | src/main/java/com/example/ae/model/TasInstance.java:29-32 | The constructor's put loop builds exactly the id-to-task map in which later puts overwrite earlier ones. |
| TasModel.IndexByIdLastWins | src/main/java/com/example/ae/decoder/TasDecoder.java:26-29 | An id is a key iff some task has it, and it maps to the last position that has it. |
| TasModel.TaskByIdAtIndex | src/main/java/com/example/ae/model/TasInstance.java:29-32 | The task map and the index map have the same keys, and the stored task sits at the stored position. |
| TasModel.GetTaskByIdLastWins | src/main/java/com/example/ae/model/TasInstance.java:44-46 | `getTaskById(id)` is null iff no task has the id; otherwise it is the last task in the list with that id. |
| TasModel.GetTaskByIdOfMember | src/main/java/com/example/ae/model/TasInstance.java:44-46 | Every task of the list is found by its own id. |
| TasModel.IndexByIdOfUnique | src/main/java/com/example/ae/decoder/TasDecoder.java:26-29 | With distinct ids, a task's id maps back to its own position. |
| TasModel.NumberOfTasks | src/main/java/com/example/ae/model/TasInstance.java:48-50 | The length of the task list. |
| TasModel.NumberOfEmployees | src/main/java/com/example/ae/model/TasInstance.java:52-54 | The length of the employee list. |
| TasModel.NumberOfSkills | src/main/java/com/example/ae/model/TasInstance.java:56-58 | The length of the alpha vector. |
| TasModel.SkillWeightsAlphaCopy | src/main/java/com/example/ae/model/TasInstance.java:60-62 | `skillWeightsAlpha()` returns a freshly allocated copy of the weights. |
| TasModel.SkillWeightAlpha | src/main/java/com/example/ae/model/TasInstance.java:64-66 | `alpha[k]` in range, 0.0 otherwise. |
| InstanceLoader.BuildSkillVector | src/main/java/com/example/ae/io/TasInstanceLoader.java:82-93 | Returns a fresh array whose entry i is the skill level the map gives `SKILL_ORDER[i]`. |
| InstanceLoader.SkillVectorShape | src/main/java/com/example/ae/io/TasInstanceLoader.java:17-93 | The vector has 5 entries. A null map gives all zeros. Otherwise entry i is the map's non-null value for `SKILL_ORDER[i]`, or 0.0. |
| InstanceLoader.ForeignKeysIgnored | src/main/java/com/example/ae/io/TasInstanceLoader.java:87-91 | Adding or changing a key outside `SKILL_ORDER` does not change the vector. |
| InstanceLoader.FromRecord | src/main/java/com/example/ae/io/TasInstanceLoader.java:54-78 | Task and employee order and counts are kept. Ids, durations, predecessors, release dates, capacities, alpha and both lambdas are copied. Every skill map goes through the vector builder. |
| Skills.QualifiedIff | src/main/java/com/example/ae/decoder/TasDecoder.java:121-137 | The loop's qualification holds iff every dimension k with a positive requirement has level >= requirement; missing entries count as 0. |
| Skills.HasSkills | src/main/java/com/example/ae/decoder/TasDecoder.java:121-137 | `hasSkills` returns exactly that qualification. |
| Skills.OverqualificationOverRequired | src/main/java/com/example/ae/decoder/TasDecoder.java:153-169 | Dimensions past the task's requirement vector add nothing to the overqualification. |
| Skills.OverqPrefixNonNegative | src/main/java/com/example/ae/decoder/TasSchedule.java:113-125 | With non-negative weights every partial overqualification sum is >= 0. |
| Skills.OverqualificationNonNegative | src/main/java/com/example/ae/decoder/TasSchedule.java:113-125 | With non-negative weights the overqualification is >= 0. |
| Skills.AddOverqualification | src/main/java/com/example/ae/decoder/TasDecoder.java:153-169 | The overqualification loop adds the sum of alpha_k * (level_k - req_k) over the dimensions with req_k > 0 and level_k > req_k. |
| Schedule.Assign | src/main/java/com/example/ae/decoder/TasSchedule.java:36-43 | The task's employee, start and finish are recorded. Every other task's entries are kept. The makespan becomes max(old makespan, finish). Dissatisfaction and well-formedness are preserved. |
| Schedule.StartOf | src/main/java/com/example/ae/decoder/TasSchedule.java:45-47 | The recorded start, or 0 for a task with no entry. |
| Schedule.FinishOf | src/main/java/com/example/ae/decoder/TasSchedule.java:49-51 | The recorded finish, or 0 for a task with no entry. |
| Schedule.EmployeeOf | src/main/java/com/example/ae/decoder/TasSchedule.java:228-230 | The assigned employee id, or null iff the task has no entry. |
| Schedule.LoadWithoutTasks | src/main/java/com/example/ae/decoder/TasSchedule.java:55-66 | An employee with no task mapped to it has load 0. |
| Schedule.LoadNonNegative | src/main/java/com/example/ae/decoder/TasSchedule.java:55-66 | With non-negative durations every load is >= 0. |
| Schedule.LoadPrefixOverwrite | src/main/java/com/example/ae/decoder/TasSchedule.java:36-66 | Overwriting one key's entry changes a partial load only by that key's change of contribution. |
| Schedule.LoadAfterAssign | src/main/java/com/example/ae/decoder/TasSchedule.java:36-66 | After `assignTask`, the load loses the task's old contribution and gains the task's duration if it now goes to that employee, so a re-assigned task counts once. |
| Schedule.MaxFinishIsMax | src/main/java/com/example/ae/decoder/TasSchedule.java:75-84 | The recomputed makespan is >= 0 and >= every recorded finish. It is 0 or equal to some recorded finish, and 0 when nothing is recorded. |
| Schedule.DissatisfactionNonNegative | src/main/java/com/example/ae/decoder/TasSchedule.java:86-129 | With non-negative lambdaOver, lambdaOverq and alpha, the dissatisfaction is >= 0. |
| Schedule.Schedule.constructor | src/main/java/com/example/ae/decoder/TasSchedule.java:26-28 | A new schedule is empty: no entries, makespan 0 and dissatisfaction 0. |
| Schedule.Schedule.AssignTask | src/main/java/com/example/ae/decoder/TasSchedule.java:36-43 | The new state is `Assign` of the old one. |
| Schedule.Schedule.GetEmployeeLoad | src/main/java/com/example/ae/decoder/TasSchedule.java:55-66 | Returns the total duration of the tasks mapped to the employee, each assigned task counted once. |
| Schedule.Schedule.RecomputeObjectives | src/main/java/com/example/ae/decoder/TasSchedule.java:75-84 | The maps are unchanged. The makespan becomes the maximum recorded finish (0 if none). The dissatisfaction becomes the value computed from the assignment. |
| Schedule.Schedule.ComputeDissatisfaction | src/main/java/com/example/ae/decoder/TasSchedule.java:86-129 | Returns the sum over employees of lambdaOver * max(0, load - capacity) plus lambdaOverq times the overqualification summed over the employee's tasks. |
| DecoderSpec.PredScan | src/main/java/com/example/ae/decoder/TasDecoder.java:49-67 | A start is found iff every predecessor id names a task that is already scheduled. The start is >= the release date and every predecessor's finish, and is one of them. |
| DecoderSpec.BestUpToIsFirstCheapest | src/main/java/com/example/ae/decoder/TasDecoder.java:70-93 | There is no candidate iff no employee is qualified. Otherwise the chosen employee is qualified, costs no more than any qualified employee, and costs strictly less than every qualified employee before it (the first one wins a tie). |
| DecoderSpec.Run | src/main/java/com/example/ae/decoder/TasDecoder.java:34-113 | Its ensures states only that a successful run schedules all n tasks. The `Stalled` exit and the bound of at most n passes are in its body and its verified `decreases` clause. When a run succeeds is stated by `DecoderProps.DecodeSucceedsOnFeasible`. |
| Decoder.BuildIndexById | src/main/java/com/example/ae/decoder/TasDecoder.java:26-29 | The index map in which later positions overwrite earlier ones with the same id. |
| Decoder.LocalAssignmentCost | src/main/java/com/example/ae/decoder/TasDecoder.java:142-175 | Returns finish + lambdaOver * max(0, load so far + duration - capacity) + lambdaOverq * overqualification. |
| Decoder.PredecessorsReady | src/main/java/com/example/ae/decoder/TasDecoder.java:46-67 | Reports ready iff every predecessor is known and scheduled, and the earliest start that the specification gives. |
| Decoder.ChooseEmployee | src/main/java/com/example/ae/decoder/TasDecoder.java:70-93 | Selects the specification's choice: the first qualified employee of lowest local cost, or -1 when none qualifies. |
| Decoder.Decode | src/main/java/com/example/ae/decoder/TasDecoder.java:13-118 | On success, the returned fresh schedule equals the specification's final schedule with recomputed objectives. On failure, the error equals the specification's. |
| DecoderProps.DecodeErrorExplained | src/main/java/com/example/ae/decoder/TasDecoder.java:37-113 | Each error is explained by the input. `InvalidIndex(x)`: x is outside [0, n) and occurs among the first n ordering entries. `Infeasible(id)`: a task with that id has no qualified employee. `Stalled`: the ordering misses a task position, or the precedence relation is cyclic or names a missing task. |
| DecoderProps.DecodeRejectsInvalidIndex | src/main/java/com/example/ae/decoder/TasDecoder.java:37-41 | An ordering entry outside [0, n) makes decode fail, so no schedule is returned. |
| DecoderProps.DecodePlacesEachTaskOnce | src/main/java/com/example/ae/decoder/TasDecoder.java:42-107 | On success the commits place every task position exactly once. `FeasibleDecodeSchedulesEveryTask` shows that feasible inputs succeed. |
| DecoderProps.LeastUnscheduled | src/main/java/com/example/ae/decoder/TasDecoder.java:34-48 | Returns -1 exactly when every position below k is scheduled. Otherwise it returns an unscheduled position of least rank. |
| DecoderProps.LeastRankedIsReady | src/main/java/com/example/ae/decoder/TasDecoder.java:49-67 | Under a precedence rank, an unscheduled task of least rank passes the readiness check. Each of its predecessors ranks lower and so is already scheduled. |
| DecoderProps.PassReachesReadyTask | src/main/java/com/example/ae/decoder/TasDecoder.java:42-108 | A pass that has placed nothing yet and reaches a task that is unscheduled and ready either places it or fails. |
| DecoderProps.PassNotStalled | src/main/java/com/example/ae/decoder/TasDecoder.java:34-113 | Suppose tasks remain, the ordering covers every position and the precedence relation is acyclic. Then a completed pass places at least one task. |
| DecoderProps.PassFromOkOnStaffable | src/main/java/com/example/ae/decoder/TasDecoder.java:36-99 | A pass over valid entries never fails when every task has a qualified employee. |
| DecoderProps.RunSucceeds | src/main/java/com/example/ae/decoder/TasDecoder.java:34-113 | From any state, a feasible input runs to success. |
| DecoderProps.DecodeSucceedsOnFeasible | src/main/java/com/example/ae/decoder/TasDecoder.java:13-118 | Decode succeeds on every feasible input. Feasible means: valid entries that cover every task, an acyclic precedence relation over existing ids, and a qualified employee for every task. |
| DecoderProps.FeasibleDecodeSchedulesEveryTask | src/main/java/com/example/ae/decoder/TasDecoder.java:13-118 | With distinct ids and non-negative durations, a feasible input decodes to exactly one commit per task. Every task is recorded with its employee, start and finish. |
| DecoderProps.ChainFirstPlacements | src/main/java/com/example/ae/decoder/TasDecoder.java:42-107 | In the chain instance before anything is placed, task 1 is not ready and is skipped. Task 0 is ready at 0 and is committed to employee 0 over [0, 3). |
| DecoderProps.ChainSecondPlacements | src/main/java/com/example/ae/decoder/TasDecoder.java:42-107 | After task 0 is committed, task 1 is ready at 3 and is committed to employee 0 over [3, 5). Task 0 is then skipped as already scheduled. |
| DecoderProps.ChainObjectives | src/main/java/com/example/ae/decoder/TasDecoder.java:116-116 | The chain's final schedule has makespan 5 and dissatisfaction 0: load 5 is within capacity 10 and the skill levels match exactly. |
| DecoderProps.ReversedChainDecodes | src/main/java/com/example/ae/decoder/TasDecoder.java:13-118 | For ordering [1, 0] the first pass schedules only task 0 and the second pass schedules task 1. The commits are task 0 over [0, 3) and task 1 over [3, 5), both on employee 0, with makespan 5 and dissatisfaction 0. The result equals that of ordering [0, 1]. |
| DecoderProps.DecodeCommitOrder | src/main/java/com/example/ae/decoder/TasDecoder.java:23-107 | In commit order, each task gets a qualified employee and finishes at start + duration. It starts at or after its release date. Each predecessor was committed earlier and finished by the task's start. One employee's tasks do not overlap, and their starts do not decrease. |
| DecoderProps.DecodeScheduleSound | src/main/java/com/example/ae/decoder/TasDecoder.java:82-116 | On success every task's employee, start and finish are recorded under its id, with the same timing, precedence and qualification facts. Only task ids have entries. The dissatisfaction is the one computed from the final assignment. |
| DecoderProps.DecodeMakespan | src/main/java/com/example/ae/decoder/TasDecoder.java:116 | On success the makespan is >= 0 and >= every task's finish, and it is 0 or some task's finish. |
| DecoderProps.MissingPredecessorFails | src/main/java/com/example/ae/decoder/TasDecoder.java:53-56 | A predecessor id that no task has is never ready, so decode fails. |
| DecoderProps.MissingPredecessorStalls | src/main/java/com/example/ae/decoder/TasDecoder.java:53-113 | If every ordering entry is valid and every task has a qualified employee, a missing predecessor gives exactly `Stalled`. |
| DecoderProps.PrecedenceCycleFails | src/main/java/com/example/ae/decoder/TasDecoder.java:49-113 | Two tasks that are each other's predecessor (or one that is its own) make decode fail. |
| DecoderProps.PrecedenceCycleStalls | src/main/java/com/example/ae/decoder/TasDecoder.java:49-113 | If every ordering entry is valid and every task has a qualified employee, two tasks that are each other's predecessor (or one that is its own) give exactly `Stalled`. |
| DecoderProps.UnstaffableTaskFails | src/main/java/com/example/ae/decoder/TasDecoder.java:70-99 | A task that no employee is qualified for makes decode fail. |
| DecoderProps.UnstaffableTaskInfeasible | src/main/java/com/example/ae/decoder/TasDecoder.java:95-99 | If the ordering entries are valid and cover every task and the precedences are acyclic, a task no employee is qualified for gives an `Infeasible` error. |
| Sorting.SortBySorted | src/main/java/com/example/ae/TasGreedySolver.java:30-43 | The sort's result is sorted by the strict order. |
| Sorting.SortByStable | src/main/java/com/example/ae/TasGreedySolver.java:30 | The sort is stable: elements the order cannot tell apart keep their input order. |
| Sorting.SortByOfSorted | results/tuning_hv_analysis.py:62-63 | Sorting an already sorted sequence changes nothing. |
| GreedySolver.GreedyOrderIsPermutation | src/main/java/com/example/ae/TasGreedySolver.java:24-49 | The greedy ordering is a permutation of 0 .. n-1. |
| GreedySolver.GreedyOrderSorted | src/main/java/com/example/ae/TasGreedySolver.java:30-43 | Release dates do not decrease. Among equal release dates, durations do not decrease. Among tasks equal in both keys, positions increase. |
| GreedySolver.GreedyNeverInvalidIndex | src/main/java/com/example/ae/TasGreedySolver.java:46-52 | Decoding the greedy ordering never fails with `InvalidIndex`. |
| GreedySolver.Solve | src/main/java/com/example/ae/TasGreedySolver.java:19-53 | The outcome is exactly decode's outcome on the greedy ordering. |
| Pareto.FrontOfFacts | results/hv_and_stats.py:77-83 | The filtered list is no longer than the input, and empty only for an empty input. Along it f2 strictly decreases, and its last f2 is the input's minimum. |
| Pareto.LexFrontSubset | results/hv_and_stats.py:74-83 | Every returned point is an input point; the output is empty iff the input is. |
| Pareto.LexFrontMonotone | results/hv_and_stats.py:74-83 | Along the output f1 strictly increases and f2 strictly decreases, so no two output points weakly dominate each other. |
| Pareto.LexFrontCovers | results/hv_and_stats.py:74-83 | Every input point is weakly dominated by some output point. |
| Pareto.LexFrontIsNonDominated | results/hv_and_stats.py:74-83 | A point is in the output iff it is an input point and no other input point weakly dominates it. |
| Pareto.DominatedPointLeavesFront | results/tuning_hv_analysis.py:36-48 | Adding a point that an input point weakly dominates, a duplicate included, leaves the front unchanged. |
| Pareto.KeepBelowBest | results/hv_and_stats.py:77-83 | The filter loop keeps exactly the points whose f2 is below the best f2 kept so far, i.e. the front of its input. The loops of `pareto_nd_min` in the tuning and evaluation scripts are the same loop. |
| Pareto.MaxF1 | results/hv_and_stats.py:103-105 | The column maximum of f1: >= every f1, and attained. |
| Pareto.MaxF2 | results/hv_and_stats.py:103-105 | The column maximum of f2: >= every f2, and attained. |
| HvStats.NonDominated2D | results/hv_and_stats.py:74-83 | `nondominated_2d` returns the front (see the Pareto lemmas). |
| HvStats.InBoxPointsMembers | results/hv_and_stats.py:90 | The box filter keeps exactly the input points with f1 <= r1 and f2 <= r2. |
| HvStats.StatsSweepMonotone | results/hv_and_stats.py:95-101 | One step never raises `cur_y`, and an in-box point never decreases the area. |
| HvStats.StatsSweepBounds | results/hv_and_stats.py:95-101 | `cur_y` stays <= r2, and over in-box points the area stays >= 0. |
| HvStats.Hypervolume2DMin | results/hv_and_stats.py:85-101 | The method computes the specified hypervolume: box filter, 0.0 if empty, sort by f1, sweep. |
| HvStats.SweepRectangles | results/hv_and_stats.py:95-101 | The loop's total is the sweep's area. |
| HvStats.HypervolumeNonNegative | results/hv_and_stats.py:85-101 | The hypervolume is >= 0. |
| HvStats.HypervolumeEmptyBox | results/hv_and_stats.py:90-92 | With no point in the reference box the hypervolume is 0.0. |
| HvStats.OutOfBoxIgnored | results/hv_and_stats.py:90 | A point with f1 > r1 or f2 > r2 contributes nothing, wherever it is in the list. |
| HvStats.SinglePointHypervolume | results/hv_and_stats.py:94-101 | A single in-box point gives (r1 - f1) * (r2 - f2). |
| HvStats.ComputeReferencePoint | results/hv_and_stats.py:103-105 | The reference point is (max f1 + eps, max f2 + eps), each coordinate attained from some point. |
| HvStats.ReferencePointAboveAll | results/hv_and_stats.py:103-105 | With eps > 0 the reference point is strictly greater than every point in both objectives. |
| TuningHv.ParetoNdMin | results/tuning_hv_analysis.py:36-48 | `pareto_nd_min` returns the front (see the Pareto lemmas). |
| TuningHv.SkipSweepMonotone | results/tuning_hv_analysis.py:65-80 | `prev_f2` never rises and the area never shrinks. A point with f1 > R1 or f2 > `prev_f2` leaves the state unchanged. |
| TuningHv.SkipSweepBounds | results/tuning_hv_analysis.py:65-80 | `prev_f2` starts at R2 and stays <= R2; the area is always >= 0. |
| TuningHv.Hypervolume2DMin | results/tuning_hv_analysis.py:50-82 | The method computes the specified hypervolume: 0.0 for no points; otherwise front, sort by f1, sweep with skip rules. |
| TuningHv.SkipRectangles | results/tuning_hv_analysis.py:65-80 | The loop's total is the skip sweep's area. |
| TuningHv.HypervolumeNonNegative | results/tuning_hv_analysis.py:50-82 | The hypervolume is 0.0 for an empty list and never negative. |
| TuningHv.FrontResortIsIdentity | results/tuning_hv_analysis.py:60-63 | Re-sorting the front by f1 leaves it unchanged. |
| TuningHv.DominatedPointAddsNoArea | results/tuning_hv_analysis.py:59-63 | Adding a point that a listed point weakly dominates does not change the hypervolume. |
| TuningHv.DuplicatePointAddsNoArea | results/tuning_hv_analysis.py:59-63 | Adding a duplicate of a listed point does not change the hypervolume. |
| TuningHv.ReferencePoint | results/tuning_hv_analysis.py:25-30 | R = (max f1 + 1, max f2 + 1); each coordinate is attained, and every data point lies strictly below R in both objectives. |
| EvalHv.ParetoNdMin | results/eval_hv_analysis.py:31-40 | Returns the same front as the tuning script's filter. |
| EvalHv.Hypervolume2DMin | results/eval_hv_analysis.py:42-64 | On every input, the same value as the tuning script's hypervolume. |
| EvalHv.ReferencePoint | results/eval_hv_analysis.py:20-25 | Equal to the tuning script's reference point; every data point lies strictly below it. |
| HvAgreement.Agreement | results/tuning_hv_analysis.py:65-80 | On a front with strictly decreasing f2, the skip sweep equals the statistics sweep with the box filter applied point by point, after every prefix. |
| HvAgreement.BoxRunIsFilteredRun | results/hv_and_stats.py:90-101 | Filtering to the box and then sweeping equals sweeping with the filter applied point by point. |
| HvAgreement.SkipSweepMatchesBoxFilter | results/tuning_hv_analysis.py:50-82 | For non-empty input, the tuning script's hypervolume equals the statistics script's hypervolume of the Pareto front. |

## Left out

- Parsing the instance file with Jackson is not part of this model. The loader is modelled from the parsed records onward. A missing skill map and a null map value are both kept as `None`.
- The experiment drivers are left out: parameter tuning, final evaluation, single run and NSGA-II mains. They call the jMetal library, time runs and write CSV files.
- The jMetal problem adapter and the Swing schedule plotter are left out. They are foreign-library and GUI code.
- The analysis scripts' pandas, statistics, plotting and table code is left out. So are the CSV reading and writing and the per-run grouping. Only the Pareto, hypervolume and reference-point functions are modelled.
- `TasSchedule.toString`, `addTaskToEmployee`, `setMakespan` and `setDissatisfaction` are left out. So is the unused stub `getTaskRequiredSkillForEmployee`, which always returns 1. None of them affects decoding.
- IEEE-754 rounding, NaN and infinity are not modelled. All floating-point values are exact reals.
- The +infinity starting values of the best cost and `best_f2` are modelled as "no candidate yet": employee index -1 or `PlusInfinity`.
- Java `int` overflow is not modelled; integers are unbounded. This covers `start + duration`, the loads, and the `(int)` cast of `Math.round`'s `long` result in `Task.requiredSkill()` (Task.java:57), which wraps for values outside the `int` range (TasModel.RequiredSkillRounded).
- `HashMap` iteration order is fixed as first-insertion order. The results do not depend on it, because every iterated quantity is a sum or a maximum.
- `Collections.sort` and Python's `sorted` are modelled by one stable insertion sort on values, not by the libraries' in-place algorithms.
- The three scripts' identical filter loops are modelled once, as `Pareto.KeepBelowBest`; each script's own filter method calls it.
- The tuning and evaluation scripts' identical hypervolume loops are modelled once, as `TuningHv.SkipRectangles`; `EvalHv.Hypervolume2DMin` calls it.
- The loops of the scripts and of decode live in helper methods (`KeepBelowBest`, `SweepRectangles`, `SkipRectangles`, `DecodePass`, `PlaceTask`, `CommitChoice`). Each is proved against the specification function of its loop.
- TasModel.WithAvailableTime: models `setAvailableTime` as a functional update of an `Employee` value, not an in-place write. No core code calls it, so aliasing is not captured.
- Decoder.Decode: requires `pi.Length >= n`. The Java code reads `pi[0 .. n)` and throws `ArrayIndexOutOfBoundsException` on a shorter array; that exception is not modelled.
- Schedule.Schedule.GetEmployeeLoad: requires every assigned id to name a task of the instance. The Java code would dereference `null` otherwise. The same requirement sits on `RecomputeObjectives`, `ComputeDissatisfaction` and `Decoder.LocalAssignmentCost`; decode always meets it.
- Null fields from Jackson are not modelled. A missing `predecessors`, `skillWeightsAlpha`, `tasks` or `employees` makes the Java code throw `NullPointerException` (TasDecoder.java:52, TasInstanceLoader.java:53 and 63, TasInstance.java:57 and 65). The model's fields are plain sequences that are always present.
- A null element of a predecessor list is not modelled. Every predecessor is an integer id; an id that names no task is handled as the decoder handles a missing predecessor.
- Aliasing of the predecessor list and the alpha array is not captured. `Task` keeps the caller's list uncopied (Task.java:21 and 43-44) and `TasInstance` keeps the caller's alpha array uncopied (TasInstance.java:24). The model's value datatypes cannot observe later writes through those references.
- DecoderProps.DecodeCommitOrder: assumes distinct task ids and non-negative durations (`Sane`), which the Java code does not check. The same holds for DecodePlacesEachTaskOnce, DecodeScheduleSound, DecodeMakespan, MissingPredecessorFails, MissingPredecessorStalls, PrecedenceCycleFails, PrecedenceCycleStalls, UnstaffableTaskFails, UnstaffableTaskInfeasible and FeasibleDecodeSchedulesEveryTask. DecodeSucceedsOnFeasible needs no such assumption.
- HvStats.ComputeReferencePoint: requires a non-empty point list. pandas returns NaN for the maximum of an empty column.
- TuningHv.ReferencePoint: requires non-empty data, for the same reason. So does EvalHv.ReferencePoint.
- The tuning and evaluation scripts' second skip guard (`width < 0 or height < 0`) is modelled. After the first guard it can never fire.
