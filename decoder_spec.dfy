/** The decoder as a function of the priority ordering: repeated left-to-right passes over the
    ordering, each placing every unscheduled task whose predecessors are all placed, on the
    qualified employee of lowest local cost (lowest index on ties). DState is the decoder's
    working state; its `log` records the commits in order and exists only to state properties. */
module DecoderSpec {
  import opened TasModel
  import opened Skills
  import opened Schedule

  /** The three ways decode fails (Java exceptions): an ordering entry outside [0, n), a ready
      task no employee is qualified for, and a pass that places nothing. */
  datatype DecodeError = InvalidIndex(taskIndex: int) | Infeasible(taskId: int) | Stalled

  datatype Result<T> = Ok(value: T) | Err(error: DecodeError)

  /** One placement: task position, employee position, start and finish. */
  datatype Commit = Commit(index: nat, emp: nat, start: int, finish: int)

  /** `scheduled[]`, `employeeAvailableTime[]` (the per-employee cursor), the schedule,
      `scheduledCount`, and the commits made so far. */
  datatype DState = DState(scheduled: seq<bool>, cursor: seq<int>, sv: ScheduleValue, count: nat, log: seq<Commit>)

  /** A candidate employee position with its start, finish and local cost. */
  datatype Choice = Choice(emp: nat, start: int, finish: int, cost: real)

  /** The state after a pass (or part of one) and whether it placed a task. */
  datatype PassResult = PassResult(st: DState, progress: bool)

  /** Number of true entries. */
  function CountTrue(s: seq<bool>): (r: nat)
    ensures r <= |s|
  {
    if |s| == 0 then 0 else CountTrue(s[..|s| - 1]) + (if s[|s| - 1] then 1 else 0)
  }

  /** Setting one false entry to true adds one. */
  lemma {:induction false} CountTrueSet(s: seq<bool>, i: int)
    requires 0 <= i < |s| && !s[i]
    ensures CountTrue(s[i := true]) == CountTrue(s) + 1
  {
    var n := |s|;
    if i < n - 1 {
      assert s[i := true][..n - 1] == s[..n - 1][i := true];
      CountTrueSet(s[..n - 1], i);
    } else {
      assert s[i := true][..n - 1] == s[..n - 1];
    }
  }

  /** All entries are true when the count reaches the length. */
  lemma {:induction false} CountTrueAll(s: seq<bool>)
    requires CountTrue(s) == |s|
    ensures forall i :: 0 <= i < |s| ==> s[i]
  {
    if |s| > 0 {
      CountTrueAll(s[..|s| - 1]);
      assert forall i :: 0 <= i < |s| - 1 ==> s[..|s| - 1][i] == s[i];
    }
  }

  /** Array sizes match the instance and the count is the number of scheduled tasks. */
  ghost predicate Shape(inst: Instance, st: DState)
  {
    && |st.scheduled| == |inst.tasks|
    && |st.cursor| == |inst.employees|
    && st.count == CountTrue(st.scheduled)
  }

  /** The state before the first pass: nothing scheduled, every cursor at 0, an empty schedule. */
  function Init(inst: Instance): (st: DState)
    ensures Shape(inst, st)
  {
    var st := DState(seq(|inst.tasks|, _ => false), seq(|inst.employees|, _ => 0), EmptySchedule(), 0, []);
    CountTrueNone(st.scheduled);
    st
  }

  lemma {:induction false} CountTrueNone(s: seq<bool>)
    requires forall i :: 0 <= i < |s| ==> !s[i]
    ensures CountTrue(s) == 0
  {
    if |s| > 0 {
      CountTrueNone(s[..|s| - 1]);
    }
  }

  /** A predecessor id counts as placed when some task has it and the task at its (last)
      position is scheduled; an id no task has is never placed. */
  ghost predicate PredPlaced(inst: Instance, st: DState, p: int)
  {
    var idx := IndexById(inst.tasks);
    p in idx && idx[p] < |st.scheduled| && st.scheduled[idx[p]]
  }

  /** The predecessor loop from position j with running earliest start: None when some
      remaining predecessor is not placed (the loop breaks), otherwise the maximum of the running
      value and the remaining predecessors' recorded finishes. */
  ghost function PredScan(inst: Instance, st: DState, preds: seq<int>, j: nat, earliest: int): (r: Option<int>)
    requires j <= |preds|
    ensures r.Some? <==> forall q :: j <= q < |preds| ==> PredPlaced(inst, st, preds[q])
    ensures r.Some? ==> r.value >= earliest && forall q :: j <= q < |preds| ==> r.value >= FinishOf(st.sv, preds[q])
    ensures r.Some? ==> r.value == earliest || exists q :: j <= q < |preds| && r.value == FinishOf(st.sv, preds[q])
    decreases |preds| - j
  {
    if j == |preds| then Some(earliest)
    else
      var p := preds[j];
      if !PredPlaced(inst, st, p) then None
      else PredScan(inst, st, preds, j + 1, Max(earliest, FinishOf(st.sv, p)))
  }

  /** The earliest start of a task when it is ready: release date and predecessors' finishes. */
  ghost function ReadyStart(inst: Instance, st: DState, t: Task): Option<int>
  {
    PredScan(inst, st, t.predecessors, 0, t.releaseDate)
  }

  /** `localAssignmentCost`: the finish, plus lambdaOver times the overload the task would cause
      (load so far plus its duration beyond the capacity), plus lambdaOverq times the weighted
      overqualification. */
  ghost function LocalCost(inst: Instance, sv: ScheduleValue, e: Employee, t: Task, finish: int): real
  {
    finish as real
    + inst.lambdaOver * Max0((Load(inst, sv, e.id) + t.duration - e.availableTime) as real)
    + inst.lambdaOverq * Overqualification(inst, e, t)
  }

  /** Employee position j as a candidate: it starts at the later of the earliest start and its
      cursor. */
  ghost function Candidate(inst: Instance, st: DState, t: Task, earliest: int, j: nat): (c: Choice)
    requires j < |inst.employees| && Shape(inst, st)
    ensures c.emp == j && c.finish == c.start + t.duration
    ensures c.start >= earliest && c.start >= st.cursor[j]
  {
    var start := Max(earliest, st.cursor[j]);
    var finish := start + t.duration;
    Choice(j, start, finish, LocalCost(inst, st.sv, inst.employees[j], t, finish))
  }

  /** The employee loop over positions 0 .. j-1: a qualified candidate replaces the best so far
      only if its cost is strictly lower. */
  ghost function BestUpTo(inst: Instance, st: DState, t: Task, earliest: int, j: nat): (r: Option<Choice>)
    requires j <= |inst.employees| && Shape(inst, st)
    ensures r.Some? ==> r.value.emp < j && Qualified(inst.employees[r.value.emp], t)
    ensures r.Some? ==> r.value == Candidate(inst, st, t, earliest, r.value.emp)
  {
    if j == 0 then None
    else
      var prev := BestUpTo(inst, st, t, earliest, j - 1);
      if !Qualified(inst.employees[j - 1], t) then prev
      else
        var c := Candidate(inst, st, t, earliest, j - 1);
        if prev.None? || c.cost < prev.value.cost then Some(c) else prev
  }

  /** The employee loop finds no candidate exactly when no employee among the first j is
      qualified; otherwise its choice costs no more than any qualified employee among them and
      strictly less than every qualified employee before it, so ties go to the lowest position. */
  lemma {:induction false} BestUpToIsFirstCheapest(inst: Instance, st: DState, t: Task, earliest: int, j: nat)
    requires j <= |inst.employees| && Shape(inst, st)
    ensures var r := BestUpTo(inst, st, t, earliest, j);
      r.None? <==> forall k :: 0 <= k < j ==> !Qualified(inst.employees[k], t)
    ensures var r := BestUpTo(inst, st, t, earliest, j);
      r.Some? ==> forall k :: 0 <= k < j && Qualified(inst.employees[k], t) ==>
        Candidate(inst, st, t, earliest, k).cost >= r.value.cost
    ensures var r := BestUpTo(inst, st, t, earliest, j);
      r.Some? ==> forall k :: 0 <= k < r.value.emp && Qualified(inst.employees[k], t) ==>
        Candidate(inst, st, t, earliest, k).cost > r.value.cost
  {
    if j > 0 {
      BestUpToIsFirstCheapest(inst, st, t, earliest, j - 1);
    }
  }

  /** The updates made when task position i goes to candidate c: the schedule entry, the
      employee's cursor, the scheduled flag, the count, and the log. */
  ghost function CommitTask(inst: Instance, st: DState, i: nat, c: Choice): (r: DState)
    requires Shape(inst, st) && i < |inst.tasks| && !st.scheduled[i] && c.emp < |inst.employees|
    ensures Shape(inst, r) && r.count == st.count + 1
  {
    var t := inst.tasks[i];
    CountTrueSet(st.scheduled, i);
    DState(st.scheduled[i := true], st.cursor[c.emp := c.finish],
           Assign(st.sv, t.id, inst.employees[c.emp].id, c.start, c.finish),
           st.count + 1, st.log + [Commit(i, c.emp, c.start, c.finish)])
  }

  /** One position of a pass, for a valid task position i: a scheduled or not-ready task is
      skipped, a ready task with no qualified employee fails, otherwise the best candidate is
      committed. */
  ghost function Place(inst: Instance, st: DState, i: nat): (r: Result<PassResult>)
    requires Shape(inst, st) && i < |inst.tasks|
    ensures r.Ok? ==> Shape(inst, r.value.st)
    ensures r.Ok? && r.value.progress ==> r.value.st.count == st.count + 1
    ensures r.Ok? && !r.value.progress ==> r.value.st == st
  {
    if st.scheduled[i] then Ok(PassResult(st, false))
    else
      var t := inst.tasks[i];
      var ready := ReadyStart(inst, st, t);
      if ready.None? then Ok(PassResult(st, false))
      else
        var best := BestUpTo(inst, st, t, ready.value, |inst.employees|);
        if best.None? then Err(Infeasible(t.id))
        else Ok(PassResult(CommitTask(inst, st, i, best.value), true))
  }

  /** The rest of a pass from ordering position pos. */
  ghost function PassFrom(inst: Instance, pi: seq<int>, st: DState, pos: nat, progress: bool): (r: Result<PassResult>)
    requires Shape(inst, st) && |pi| >= |inst.tasks| && pos <= |inst.tasks|
    ensures r.Ok? ==> Shape(inst, r.value.st) && r.value.st.count >= st.count
    ensures r.Ok? ==> (r.value.progress <==> progress || r.value.st.count > st.count)
    decreases |inst.tasks| - pos
  {
    if pos == |inst.tasks| then Ok(PassResult(st, progress))
    else
      var i := pi[pos];
      if i < 0 || i >= |inst.tasks| then Err(InvalidIndex(i))
      else
        match Place(inst, st, i)
        case Err(e) => Err(e)
        case Ok(pr) => PassFrom(inst, pi, pr.st, pos + 1, progress || pr.progress)
  }

  /** Passes until every task is scheduled; a pass without progress fails with Stalled. Each
      other pass schedules at least one more task, so there are at most n passes. */
  ghost function Run(inst: Instance, pi: seq<int>, st: DState): (r: Result<DState>)
    requires Shape(inst, st) && |pi| >= |inst.tasks|
    ensures r.Ok? ==> Shape(inst, r.value) && r.value.count == |inst.tasks|
    decreases |inst.tasks| - st.count
  {
    if st.count >= |inst.tasks| then Ok(st)
    else
      match PassFrom(inst, pi, st, 0, false)
      case Err(e) => Err(e)
      case Ok(pr) => if !pr.progress then Err(Stalled) else Run(inst, pi, pr.st)
  }

  /** The final decoder state for ordering pi (the ordering must cover the n positions read). */
  ghost function DecodeTrace(pi: seq<int>, inst: Instance): Result<DState>
    requires |pi| >= |inst.tasks|
  {
    Run(inst, pi, Init(inst))
  }

  /** `decode`: the final schedule with its objectives recomputed, or the error. */
  ghost function DecodeSpec(pi: seq<int>, inst: Instance): Result<ScheduleValue>
    requires |pi| >= |inst.tasks|
  {
    match DecodeTrace(pi, inst)
    case Ok(st) => Ok(Recomputed(inst, st.sv))
    case Err(e) => Err(e)
  }
}
