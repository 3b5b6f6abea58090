/** The decoder as the imperative algorithm: arrays for the scheduled flags and the employee
    cursors, the id-to-position map, the mutable schedule, and the pass / position / predecessor /
    employee loops. Each method is proved to compute what DecoderSpec defines. */
module Decoder {
  import opened TasModel
  import opened Skills
  import opened Schedule
  import opened DecoderSpec

  /** What `decode` returns: the schedule, or the exception it throws. */
  datatype DecodeOutcome = Decoded(schedule: Schedule) | Failed(error: DecodeError)

  /** The decoder's abstract state read off its arrays and its schedule. */
  ghost function Snapshot(scheduled: array<bool>, cursor: array<int>, schedule: Schedule, count: nat,
                          log: seq<Commit>): DState
    reads scheduled, cursor, schedule
  {
    DState(scheduled[..], cursor[..], schedule.Value(), count, log)
  }

  /** The `taskIndexById` loop: later positions overwrite earlier ones with the same id. */
  method BuildIndexById(tasks: seq<Task>) returns (m: map<int, nat>)
    ensures m == IndexById(tasks)
  {
    m := map[];
    for idx := 0 to |tasks|
      invariant m == IndexById(tasks[..idx])
    {
      assert tasks[..idx + 1][..idx] == tasks[..idx];
      m := m[tasks[idx].id := idx];
    }
    assert tasks[..|tasks|] == tasks;
  }

  /** `localAssignmentCost`: reads the employee's load from the schedule and adds the weighted
      overload and overqualification to the finish. */
  method LocalAssignmentCost(schedule: Schedule, inst: Instance, e: Employee, task: Task, start: int, finish: int)
    returns (cost: real)
    requires schedule.instance == inst && schedule.Valid() && KeysAreTasks(inst, schedule.Value())
    ensures cost == LocalCost(inst, schedule.Value(), e, task, finish)
  {
    var loadBefore := schedule.GetEmployeeLoad(e.id);
    var loadAfter := loadBefore + task.duration;
    var overload := Max0((loadAfter - e.availableTime) as real);
    var overqual := AddOverqualification(inst, e, task, 0.0);
    var weightedOverload := inst.lambdaOver * overload;
    var weightedOverqual := inst.lambdaOverq * overqual;
    cost := finish as real + weightedOverload + weightedOverqual;
  }

  /** The predecessor loop: stops at the first predecessor that is unknown or unscheduled,
      otherwise raises the earliest start to every predecessor's recorded finish. */
  method PredecessorsReady(inst: Instance, taskIndexById: map<int, nat>, scheduled: array<bool>, schedule: Schedule,
                           task: Task, ghost st: DState)
    returns (allPredScheduled: bool, earliestStart: int)
    requires taskIndexById == IndexById(inst.tasks) && Shape(inst, st)
    requires st.scheduled == scheduled[..] && st.sv == schedule.Value()
    ensures allPredScheduled <==> ReadyStart(inst, st, task).Some?
    ensures allPredScheduled ==> earliestStart == ReadyStart(inst, st, task).value
  {
    allPredScheduled := true;
    earliestStart := task.releaseDate;
    var preds := task.predecessors;
    for j := 0 to |preds|
      invariant ReadyStart(inst, st, task) == PredScan(inst, st, preds, j, earliestStart)
    {
      var predId := preds[j];
      if predId !in taskIndexById || !scheduled[taskIndexById[predId]] {
        allPredScheduled := false;
        break;
      }
      var predFinish := schedule.GetTaskFinishTime(predId);
      if predFinish > earliestStart {
        earliestStart := predFinish;
      }
    }
  }

  /** The employee loop: among the qualified employees keeps the first one of strictly lowest
      local cost; -1 when none is qualified (the cost +infinity of "no candidate yet" is the
      index -1). */
  method ChooseEmployee(inst: Instance, schedule: Schedule, cursor: array<int>, task: Task, earliestStart: int,
                        ghost st: DState)
    returns (bestEmpIndex: int, bestStart: int, bestFinish: int)
    requires schedule.instance == inst && schedule.Valid() && KeysAreTasks(inst, schedule.Value())
    requires Shape(inst, st) && st.cursor == cursor[..] && st.sv == schedule.Value()
    ensures bestEmpIndex == -1 <==> BestUpTo(inst, st, task, earliestStart, |inst.employees|).None?
    ensures bestEmpIndex != -1 ==>
      var c := BestUpTo(inst, st, task, earliestStart, |inst.employees|).value;
      bestEmpIndex == c.emp && bestStart == c.start && bestFinish == c.finish
  {
    var employees := inst.employees;
    bestEmpIndex, bestStart, bestFinish := -1, 0, 0;
    var bestCost := 0.0;
    for empIdx := 0 to |employees|
      invariant bestEmpIndex == -1 <==> BestUpTo(inst, st, task, earliestStart, empIdx).None?
      invariant bestEmpIndex != -1 ==>
        BestUpTo(inst, st, task, earliestStart, empIdx) == Some(Choice(bestEmpIndex, bestStart, bestFinish, bestCost))
    {
      var e := employees[empIdx];
      var qualified := HasSkills(e, task);
      if !qualified {
        continue;
      }
      var start := Max(earliestStart, cursor[empIdx]);
      var finish := start + task.duration;
      var cost := LocalAssignmentCost(schedule, inst, e, task, start, finish);
      assert Choice(empIdx, start, finish, cost) == Candidate(inst, st, task, earliestStart, empIdx);
      if bestEmpIndex == -1 || cost < bestCost {
        bestCost := cost;
        bestEmpIndex := empIdx;
        bestStart := start;
        bestFinish := finish;
      }
    }
  }

  /** One position of a pass, for a valid task position: skips a scheduled or not-ready task,
      fails when no employee is qualified, and otherwise assigns the task to the chosen employee
      and advances that employee's cursor. */
  method PlaceTask(inst: Instance, taskIndexById: map<int, nat>, scheduled: array<bool>, cursor: array<int>,
                   schedule: Schedule, taskIndex: int, count: nat, ghost log: seq<Commit>)
    returns (err: Option<DecodeError>, placed: bool, newCount: nat, ghost newLog: seq<Commit>)
    requires taskIndexById == IndexById(inst.tasks) && 0 <= taskIndex < |inst.tasks|
    requires schedule.instance == inst && schedule.Valid() && KeysAreTasks(inst, schedule.Value())
    requires Shape(inst, Snapshot(scheduled, cursor, schedule, count, log))
    modifies scheduled, cursor, schedule
    ensures schedule.instance == inst && schedule.Valid() && KeysAreTasks(inst, schedule.Value())
    ensures err.Some? ==> Place(inst, old(Snapshot(scheduled, cursor, schedule, count, log)), taskIndex) == Err(err.value)
    ensures err.None? ==>
      Place(inst, old(Snapshot(scheduled, cursor, schedule, count, log)), taskIndex) ==
      Ok(PassResult(Snapshot(scheduled, cursor, schedule, newCount, newLog), placed))
  {
    ghost var cur := Snapshot(scheduled, cursor, schedule, count, log);
    err, placed, newCount, newLog := None, false, count, log;
    if scheduled[taskIndex] {
      return;
    }
    var task := inst.tasks[taskIndex];
    var allPredScheduled, earliestStart := PredecessorsReady(inst, taskIndexById, scheduled, schedule, task, cur);
    if !allPredScheduled {
      return;
    }
    var bestEmpIndex, bestStart, bestFinish := ChooseEmployee(inst, schedule, cursor, task, earliestStart, cur);
    if bestEmpIndex == -1 {
      err := Some(Infeasible(task.id));
      return;
    }
    ghost var best := BestUpTo(inst, cur, task, earliestStart, |inst.employees|).value;
    newCount, newLog := CommitChoice(inst, scheduled, cursor, schedule, taskIndex, bestEmpIndex, bestStart, bestFinish,
                                     count, log, best);
    placed := true;
  }

  /** The commit at the end of one position: the schedule entry under the task's id, the chosen
      employee's cursor moved to the finish, and the task marked scheduled. */
  method CommitChoice(inst: Instance, scheduled: array<bool>, cursor: array<int>, schedule: Schedule,
                      taskIndex: int, bestEmpIndex: int, bestStart: int, bestFinish: int, count: nat,
                      ghost log: seq<Commit>, ghost best: Choice)
    returns (newCount: nat, ghost newLog: seq<Commit>)
    requires 0 <= taskIndex < |inst.tasks| && 0 <= bestEmpIndex < |inst.employees|
    requires best.emp == bestEmpIndex && best.start == bestStart && best.finish == bestFinish
    requires schedule.instance == inst && schedule.Valid() && KeysAreTasks(inst, schedule.Value())
    requires Shape(inst, Snapshot(scheduled, cursor, schedule, count, log)) && !scheduled[taskIndex]
    modifies scheduled, cursor, schedule
    ensures schedule.instance == inst && schedule.Valid() && KeysAreTasks(inst, schedule.Value())
    ensures Snapshot(scheduled, cursor, schedule, newCount, newLog) ==
      CommitTask(inst, old(Snapshot(scheduled, cursor, schedule, count, log)), taskIndex, best)
  {
    ghost var cur := Snapshot(scheduled, cursor, schedule, count, log);
    var task := inst.tasks[taskIndex];
    var chosen := inst.employees[bestEmpIndex];
    GetTaskByIdOfMember(inst, taskIndex);
    schedule.AssignTask(task.id, chosen.id, bestStart, bestFinish);
    cursor[bestEmpIndex] := bestFinish;
    scheduled[taskIndex] := true;
    newCount := count + 1;
    newLog := log + [Commit(taskIndex, bestEmpIndex, bestStart, bestFinish)];
  }

  /** One pass of `decode` over the ordering: fails on a position outside 0 .. n-1 or on a
      ready task nobody is qualified for, and otherwise places every ready task it meets. */
  method DecodePass(pi: seq<int>, inst: Instance, taskIndexById: map<int, nat>, scheduled: array<bool>,
                    cursor: array<int>, schedule: Schedule, count: nat, ghost log: seq<Commit>)
    returns (err: Option<DecodeError>, progress: bool, newCount: nat, ghost newLog: seq<Commit>)
    requires |pi| >= |inst.tasks| && taskIndexById == IndexById(inst.tasks)
    requires schedule.instance == inst && schedule.Valid() && KeysAreTasks(inst, schedule.Value())
    requires Shape(inst, Snapshot(scheduled, cursor, schedule, count, log))
    modifies scheduled, cursor, schedule
    ensures schedule.instance == inst && schedule.Valid() && KeysAreTasks(inst, schedule.Value())
    ensures err.Some? ==> PassFrom(inst, pi, old(Snapshot(scheduled, cursor, schedule, count, log)), 0, false) == Err(err.value)
    ensures err.None? ==>
      PassFrom(inst, pi, old(Snapshot(scheduled, cursor, schedule, count, log)), 0, false) ==
      Ok(PassResult(Snapshot(scheduled, cursor, schedule, newCount, newLog), progress))
  {
    ghost var stPass := Snapshot(scheduled, cursor, schedule, count, log);
    err, progress, newCount, newLog := None, false, count, log;
    for pos := 0 to |inst.tasks|
      invariant err.None?
      invariant schedule.instance == inst && schedule.Valid() && KeysAreTasks(inst, schedule.Value())
      invariant Shape(inst, Snapshot(scheduled, cursor, schedule, newCount, newLog))
      invariant PassFrom(inst, pi, stPass, 0, false) ==
        PassFrom(inst, pi, Snapshot(scheduled, cursor, schedule, newCount, newLog), pos, progress)
    {
      var taskIndex := pi[pos];
      if taskIndex < 0 || taskIndex >= |inst.tasks| {
        return Some(InvalidIndex(taskIndex)), progress, newCount, newLog;
      }
      var placed;
      err, placed, newCount, newLog := PlaceTask(inst, taskIndexById, scheduled, cursor, schedule, taskIndex, newCount, newLog);
      if err.Some? {
        return;
      }
      progress := progress || placed;
    }
  }

  /** `decode`: repeated passes over the ordering until every task is placed, then the
      objectives are recomputed. The outcome is exactly DecodeSpec's. */
  method Decode(pi: array<int>, inst: Instance) returns (r: DecodeOutcome)
    requires pi.Length >= |inst.tasks|
    ensures r.Decoded? ==> fresh(r.schedule) && r.schedule.instance == inst && r.schedule.Valid()
    ensures r.Decoded? ==> DecodeSpec(pi[..], inst) == Ok(r.schedule.Value())
    ensures r.Failed? ==> DecodeSpec(pi[..], inst) == Err(r.error)
  {
    var tasks := inst.tasks;
    var employees := inst.employees;
    var numTasks := |tasks|;
    var numEmployees := |employees|;
    var schedule := new Schedule(inst);
    var employeeAvailableTime := new int[numEmployees](_ => 0);
    var taskIndexById := BuildIndexById(tasks);
    var scheduled := new bool[numTasks](_ => false);
    var scheduledCount: nat := 0;
    ghost var log: seq<Commit> := [];
    ghost var st0 := Snapshot(scheduled, employeeAvailableTime, schedule, scheduledCount, log);
    assert st0 == Init(inst);

    while scheduledCount < numTasks
      invariant schedule.instance == inst && schedule.Valid() && KeysAreTasks(inst, schedule.Value())
      invariant fresh(schedule)
      invariant Shape(inst, Snapshot(scheduled, employeeAvailableTime, schedule, scheduledCount, log))
      invariant Run(inst, pi[..], st0) == Run(inst, pi[..], Snapshot(scheduled, employeeAvailableTime, schedule, scheduledCount, log))
      decreases numTasks - scheduledCount
    {
      var err, progress;
      err, progress, scheduledCount, log :=
        DecodePass(pi[..], inst, taskIndexById, scheduled, employeeAvailableTime, schedule, scheduledCount, log);
      if err.Some? {
        return Failed(err.value);
      }
      if !progress {
        return Failed(Stalled);
      }
    }

    schedule.RecomputeObjectives();
    return Decoded(schedule);
  }
}
