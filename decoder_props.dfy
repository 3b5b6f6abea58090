/** Properties of the decoder specification: why it fails, that it succeeds on every feasible
    input, and what a successful decode guarantees (each task placed once, release dates and precedence respected, qualified
    employees, no overlap per employee, makespan the latest finish). */
module DecoderProps {
  import opened TasModel
  import opened Skills
  import opened Schedule
  import opened DecoderSpec

  // ---------------------------------------------------------------- failures

  /** Every task position occurs among the first n entries of the ordering (n the number of
      tasks), as it does when those entries are a permutation of 0 .. n-1. */
  ghost predicate CoversAll(inst: Instance, pi: seq<int>)
  {
    forall i :: 0 <= i < |inst.tasks| ==> Occurs(pi, |inst.tasks|, i)
  }

  /** Value i is one of the first n entries of pi. */
  ghost predicate Occurs(pi: seq<int>, n: nat, i: int)
  {
    exists q :: 0 <= q < n && q < |pi| && pi[q] == i
  }

  /** A rank per task position under which every predecessor id names a task whose position (the
      last one with that id, as the decoder looks it up) ranks strictly below the dependent task. */
  ghost predicate Ranked(tasks: seq<Task>, rank: seq<int>)
  {
    && |rank| == |tasks|
    && forall i, p :: 0 <= i < |tasks| && p in tasks[i].predecessors ==>
         p in IndexById(tasks) && rank[IndexById(tasks)[p]] < rank[i]
  }

  /** Every predecessor id names a task and the precedence relation has no cycle. */
  ghost predicate Acyclic(tasks: seq<Task>)
  {
    exists rank :: Ranked(tasks, rank)
  }

  /** What each error says about the input: an invalid index occurs in the ordering, an
      infeasible task id belongs to a task no employee is qualified for, and a stall means the
      ordering misses a task position or the precedence relation is cyclic or names a missing
      task. */
  ghost predicate Explained(inst: Instance, pi: seq<int>, e: DecodeError)
  {
    match e
    case InvalidIndex(x) => (x < 0 || x >= |inst.tasks|) && exists q :: 0 <= q < |inst.tasks| && q < |pi| && pi[q] == x
    case Infeasible(x) => exists i :: 0 <= i < |inst.tasks| && inst.tasks[i].id == x &&
                            forall k :: 0 <= k < |inst.employees| ==> !Qualified(inst.employees[k], inst.tasks[i])
    case Stalled => !(CoversAll(inst, pi) && Acyclic(inst.tasks))
  }

  lemma PlaceErrorExplained(inst: Instance, pi: seq<int>, st: DState, i: nat)
    requires Shape(inst, st) && i < |inst.tasks|
    requires Place(inst, st, i).Err?
    ensures Explained(inst, pi, Place(inst, st, i).error) && !Place(inst, st, i).error.InvalidIndex?
  {
    var t := inst.tasks[i];
    if !st.scheduled[i] && ReadyStart(inst, st, t).Some? {
      BestUpToIsFirstCheapest(inst, st, t, ReadyStart(inst, st, t).value, |inst.employees|);
    }
  }

  lemma {:induction false} PassFromErrorExplained(inst: Instance, pi: seq<int>, st: DState, pos: nat, progress: bool)
    requires Shape(inst, st) && |pi| >= |inst.tasks| && pos <= |inst.tasks|
    requires PassFrom(inst, pi, st, pos, progress).Err?
    ensures Explained(inst, pi, PassFrom(inst, pi, st, pos, progress).error)
    decreases |inst.tasks| - pos
  {
    var i := pi[pos];
    if 0 <= i < |inst.tasks| {
      var pl := Place(inst, st, i);
      if pl.Err? {
        PlaceErrorExplained(inst, pi, st, i);
      } else {
        PassFromErrorExplained(inst, pi, pl.value.st, pos + 1, progress || pl.value.progress);
      }
    }
  }

  lemma {:induction false} RunErrorExplained(inst: Instance, pi: seq<int>, st: DState)
    requires Shape(inst, st) && |pi| >= |inst.tasks|
    requires Run(inst, pi, st).Err?
    ensures Explained(inst, pi, Run(inst, pi, st).error)
    decreases |inst.tasks| - st.count
  {
    var pr := PassFrom(inst, pi, st, 0, false);
    if pr.Err? {
      PassFromErrorExplained(inst, pi, st, 0, false);
    } else if pr.value.progress {
      RunErrorExplained(inst, pi, pr.value.st);
    } else {
      PassNotStalled(inst, pi, st);
    }
  }

  /** Every decode error is explained by the input. */
  lemma DecodeErrorExplained(pi: seq<int>, inst: Instance)
    requires |pi| >= |inst.tasks| && DecodeSpec(pi, inst).Err?
    ensures Explained(inst, pi, DecodeSpec(pi, inst).error)
  {
    RunErrorExplained(inst, pi, Init(inst));
  }

  // ---------------------------------------------------------------- progress and success

  /** A sequence that is true everywhere counts its whole length. */
  lemma {:induction false} CountTrueFull(s: seq<bool>)
    ensures (forall i :: 0 <= i < |s| ==> s[i]) ==> CountTrue(s) == |s|
  {
    if |s| > 0 {
      CountTrueFull(s[..|s| - 1]);
      assert forall i :: 0 <= i < |s| - 1 ==> s[..|s| - 1][i] == s[i];
    }
  }

  /** Among positions 0 .. k-1 not yet scheduled, one of least rank; -1 when all are scheduled. */
  ghost function LeastUnscheduled(s: seq<bool>, rank: seq<int>, k: nat): (m: int)
    requires k <= |s| == |rank|
    ensures m == -1 <==> forall j :: 0 <= j < k ==> s[j]
    ensures m != -1 ==> 0 <= m < k && !s[m] && forall j :: 0 <= j < k && !s[j] ==> rank[m] <= rank[j]
  {
    if k == 0 then -1
    else
      var m := LeastUnscheduled(s, rank, k - 1);
      if s[k - 1] then m
      else if m == -1 || rank[k - 1] < rank[m] then k - 1
      else m
  }

  /** An unscheduled task of least rank is ready: every predecessor ranks lower, so it is
      scheduled already. */
  lemma LeastRankedIsReady(inst: Instance, st: DState, rank: seq<int>, m: int)
    requires Shape(inst, st) && Ranked(inst.tasks, rank) && 0 <= m < |inst.tasks| && !st.scheduled[m]
    requires forall j :: 0 <= j < |inst.tasks| && !st.scheduled[j] ==> rank[m] <= rank[j]
    ensures ReadyStart(inst, st, inst.tasks[m]).Some?
  {
    var preds := inst.tasks[m].predecessors;
    forall q | 0 <= q < |preds|
      ensures PredPlaced(inst, st, preds[q])
    {
      assert preds[q] in inst.tasks[m].predecessors;
    }
  }

  /** While a pass has placed nothing its state is still st0; once it reaches the position of a
      task that is unscheduled and ready in st0, it places that task or fails. */
  lemma {:induction false} PassReachesReadyTask(inst: Instance, pi: seq<int>, st0: DState, m: int,
                                               st: DState, pos: nat, progress: bool)
    requires Shape(inst, st) && |pi| >= |inst.tasks| && pos <= |inst.tasks|
    requires 0 <= m < |inst.tasks| && |st0.scheduled| == |inst.tasks| && !st0.scheduled[m]
    requires ReadyStart(inst, st0, inst.tasks[m]).Some?
    requires progress || (st == st0 && exists q :: pos <= q < |inst.tasks| && pi[q] == m)
    ensures PassFrom(inst, pi, st, pos, progress).Err? || PassFrom(inst, pi, st, pos, progress).value.progress
    decreases |inst.tasks| - pos
  {
    if pos < |inst.tasks| {
      var i := pi[pos];
      if 0 <= i < |inst.tasks| {
        var pl := Place(inst, st, i);
        if pl.Ok? {
          PassReachesReadyTask(inst, pi, st0, m, pl.value.st, pos + 1, progress || pl.value.progress);
        }
      }
    }
  }

  /** With tasks left to place, an ordering that covers every task position and an acyclic
      precedence relation, a pass that completes places at least one task. */
  lemma PassNotStalled(inst: Instance, pi: seq<int>, st: DState)
    requires Shape(inst, st) && |pi| >= |inst.tasks| && st.count < |inst.tasks|
    ensures CoversAll(inst, pi) && Acyclic(inst.tasks) ==>
      PassFrom(inst, pi, st, 0, false).Err? || PassFrom(inst, pi, st, 0, false).value.progress
  {
    if CoversAll(inst, pi) && Acyclic(inst.tasks) {
      var rank :| Ranked(inst.tasks, rank);
      CountTrueFull(st.scheduled);
      var m := LeastUnscheduled(st.scheduled, rank, |inst.tasks|);
      LeastRankedIsReady(inst, st, rank, m);
      assert Occurs(pi, |inst.tasks|, m);
      PassReachesReadyTask(inst, pi, st, m, st, 0, false);
    }
  }

  /** Every task has at least one qualified employee. */
  ghost predicate Staffable(inst: Instance)
  {
    forall i :: 0 <= i < |inst.tasks| ==> exists k :: 0 <= k < |inst.employees| && Qualified(inst.employees[k], inst.tasks[i])
  }

  /** A pass over valid entries of a staffable instance never fails. */
  lemma {:induction false} PassFromOkOnStaffable(inst: Instance, pi: seq<int>, st: DState, pos: nat, progress: bool)
    requires Shape(inst, st) && |pi| >= |inst.tasks| && pos <= |inst.tasks|
    requires forall q :: pos <= q < |inst.tasks| ==> 0 <= pi[q] < |inst.tasks|
    requires Staffable(inst)
    ensures PassFrom(inst, pi, st, pos, progress).Ok?
    decreases |inst.tasks| - pos
  {
    if pos < |inst.tasks| {
      var i := pi[pos];
      var t := inst.tasks[i];
      if !st.scheduled[i] && ReadyStart(inst, st, t).Some? {
        BestUpToIsFirstCheapest(inst, st, t, ReadyStart(inst, st, t).value, |inst.employees|);
      }
      var pl := Place(inst, st, i);
      PassFromOkOnStaffable(inst, pi, pl.value.st, pos + 1, progress || pl.value.progress);
    }
  }

  /** The inputs the decoder is meant for: the first n ordering entries are valid positions that
      cover every task, the precedence relation is acyclic over existing task ids, and every task
      has a qualified employee. */
  ghost predicate Feasible(inst: Instance, pi: seq<int>)
  {
    && |pi| >= |inst.tasks|
    && (forall q :: 0 <= q < |inst.tasks| ==> 0 <= pi[q] < |inst.tasks|)
    && CoversAll(inst, pi)
    && Acyclic(inst.tasks)
    && Staffable(inst)
  }

  lemma {:induction false} RunSucceeds(inst: Instance, pi: seq<int>, st: DState)
    requires Shape(inst, st) && Feasible(inst, pi)
    ensures Run(inst, pi, st).Ok?
    decreases |inst.tasks| - st.count
  {
    if st.count < |inst.tasks| {
      PassFromOkOnStaffable(inst, pi, st, 0, false);
      PassNotStalled(inst, pi, st);
      RunSucceeds(inst, pi, PassFrom(inst, pi, st, 0, false).value.st);
    }
  }

  /** Decode succeeds on every feasible input: no ordering that covers every task of an acyclic,
      staffable instance stalls or fails. */
  lemma DecodeSucceedsOnFeasible(pi: seq<int>, inst: Instance)
    requires Feasible(inst, pi)
    ensures DecodeSpec(pi, inst).Ok?
  {
    RunSucceeds(inst, pi, Init(inst));
  }

  /** On a feasible input with distinct ids and non-negative durations decode produces a complete
      schedule: each task position committed exactly once, and every task recorded with its
      employee, start and finish under the guarantees of DecodeScheduleSound. */
  lemma FeasibleDecodeSchedulesEveryTask(pi: seq<int>, inst: Instance)
    requires Sane(inst) && Feasible(inst, pi)
    ensures DecodeSpec(pi, inst).Ok? && DecodeTrace(pi, inst).Ok?
    ensures var log := DecodeTrace(pi, inst).value.log;
      && |log| == |inst.tasks|
      && (forall k, l :: 0 <= k < l < |log| ==> log[k].index != log[l].index)
      && (forall i :: 0 <= i < |inst.tasks| ==> i in Indices(log))
    ensures forall i :: 0 <= i < |inst.tasks| ==> TaskScheduled(inst, DecodeSpec(pi, inst).value, inst.tasks[i])
  {
    DecodeSucceedsOnFeasible(pi, inst);
    DecodePlacesEachTaskOnce(pi, inst);
    DecodeScheduleSound(pi, inst);
  }

  /** A two-task chain: task 1 (duration 2) waits for task 0 (duration 3); one employee of
      capacity 10 whose skill level matches both requirements exactly. */
  function ChainInstance(): (inst: Instance)
    ensures |inst.tasks| == 2 && inst.tasks[1].predecessors == [inst.tasks[0].id]
  {
    Instance([Task(0, 3, [], [1.0], 0), Task(1, 2, [0], [1.0], 0)], [Employee(0, [1.0], 10)], [1.0], 1.0, 1.0)
  }

  /** The chain's state once task 0 is committed: employee 0 over [0, 3). */
  function ChainAfterFirst(): DState
  {
    DState([true, false], [3], ScheduleValue([0], map[0 := 0], map[0 := 0], map[0 := 3], 3, 0.0), 1,
           [Commit(0, 0, 0, 3)])
  }

  /** The chain's state once both tasks are committed: task 1 on employee 0 over [3, 5). */
  function ChainAfterBoth(): DState
  {
    DState([true, true], [5], ScheduleValue([0, 1], map[0 := 0, 1 := 0], map[0 := 0, 1 := 3], map[0 := 3, 1 := 5], 5, 0.0), 2,
           [Commit(0, 0, 0, 3), Commit(1, 0, 3, 5)])
  }

  /** Before task 0 is placed task 1 is not ready and is skipped; task 0 is ready at 0 and goes to
      employee 0 over [0, 3). */
  lemma ChainFirstPlacements()
    ensures Place(ChainInstance(), Init(ChainInstance()), 1) == Ok(PassResult(Init(ChainInstance()), false))
    ensures Place(ChainInstance(), Init(ChainInstance()), 0) == Ok(PassResult(ChainAfterFirst(), true))
  {
    var inst := ChainInstance();
    var st := Init(inst);
    assert st.scheduled == [false, false] && st.cursor == [0];
    IndexByIdOfUnique(inst.tasks, 0);
    assert !PredPlaced(inst, st, 0);
    assert ReadyStart(inst, st, inst.tasks[1]).None?;
    assert ReadyStart(inst, st, inst.tasks[0]) == Some(0);
    assert CoversSkill(inst.employees[0], inst.tasks[0], 0);
    assert BestUpTo(inst, st, inst.tasks[0], 0, 1) == Some(Candidate(inst, st, inst.tasks[0], 0, 0));
    assert CommitTask(inst, st, 0, Candidate(inst, st, inst.tasks[0], 0, 0)) == ChainAfterFirst();
  }

  /** Once task 0 is committed, task 1 is ready at task 0's finish 3 and goes to employee 0 over
      [3, 5); task 0 is then skipped as scheduled. */
  lemma ChainSecondPlacements()
    ensures Shape(ChainInstance(), ChainAfterFirst()) && Shape(ChainInstance(), ChainAfterBoth())
    ensures Place(ChainInstance(), ChainAfterFirst(), 1) == Ok(PassResult(ChainAfterBoth(), true))
    ensures Place(ChainInstance(), ChainAfterBoth(), 0) == Ok(PassResult(ChainAfterBoth(), false))
  {
    var inst := ChainInstance();
    var st := ChainAfterFirst();
    assert CountTrue([true]) == 1;
    assert Shape(inst, st);
    assert CountTrue([true, true]) == 2;
    IndexByIdOfUnique(inst.tasks, 0);
    assert PredPlaced(inst, st, 0);
    assert ReadyStart(inst, st, inst.tasks[1]) == Some(3);
    assert CoversSkill(inst.employees[0], inst.tasks[1], 0);
    assert BestUpTo(inst, st, inst.tasks[1], 3, 1) == Some(Candidate(inst, st, inst.tasks[1], 3, 0));
    assert CommitTask(inst, st, 1, Candidate(inst, st, inst.tasks[1], 3, 0)) == ChainAfterBoth();
  }

  /** The chain's final schedule has makespan 5 and, with no overload (load 5 within capacity 10)
      and no overqualification, dissatisfaction 0. */
  lemma ChainObjectives()
    ensures Recomputed(ChainInstance(), ChainAfterBoth().sv) == ChainAfterBoth().sv
  {
    var inst := ChainInstance();
    var sv := ChainAfterBoth().sv;
    assert MaxFinish(sv) == 5;
    IndexByIdOfUnique(inst.tasks, 0);
    IndexByIdOfUnique(inst.tasks, 1);
    TaskByIdAtIndex(inst.tasks, 0);
    TaskByIdAtIndex(inst.tasks, 1);
    assert DurationOf(inst, 0) == 3 && DurationOf(inst, 1) == 2;
    assert Load(inst, sv, 0) == 5;
    assert Overqualification(inst, inst.employees[0], inst.tasks[0]) == 0.0;
    assert Overqualification(inst, inst.employees[0], inst.tasks[1]) == 0.0;
    assert TasksOverq(inst, sv.taskToEmployee, inst.employees[0], 2) == 0.0;
    assert Dissatisfaction(inst, sv) == 0.0;
  }

  /** The ordering [1, 0] lists the dependent task first. The first pass skips it and commits only
      task 0; the second pass commits task 1. The outcome is the one of the forward ordering [0, 1]:
      task 0 on employee 0 over [0, 3), task 1 on employee 0 over [3, 5), makespan 5 and
      dissatisfaction 0. */
  lemma ReversedChainDecodes()
    ensures var first := PassFrom(ChainInstance(), [1, 0], Init(ChainInstance()), 0, false);
      first.Ok? && first.value.st.scheduled == [true, false]
    ensures DecodeTrace([1, 0], ChainInstance()).Ok?
    ensures DecodeTrace([1, 0], ChainInstance()).value.log == [Commit(0, 0, 0, 3), Commit(1, 0, 3, 5)]
    ensures DecodeSpec([1, 0], ChainInstance()).Ok?
    ensures var sv := DecodeSpec([1, 0], ChainInstance()).value;
      && EmployeeOf(sv, 0) == Some(0) && StartOf(sv, 0) == 0 && FinishOf(sv, 0) == 3
      && EmployeeOf(sv, 1) == Some(0) && StartOf(sv, 1) == 3 && FinishOf(sv, 1) == 5
      && sv.makespan == 5 && sv.dissatisfaction == 0.0
    ensures DecodeSpec([1, 0], ChainInstance()) == DecodeSpec([0, 1], ChainInstance())
  {
    var inst := ChainInstance();
    ChainFirstPlacements();
    ChainSecondPlacements();
    ChainObjectives();
    var s0, s1, s2 := Init(inst), ChainAfterFirst(), ChainAfterBoth();
    // reversed ordering: two passes
    assert PassFrom(inst, [1, 0], s0, 0, false) == Ok(PassResult(s1, true));
    assert PassFrom(inst, [1, 0], s1, 0, false) == Ok(PassResult(s2, true));
    assert Run(inst, [1, 0], s1) == Ok(s2);
    assert Run(inst, [1, 0], s0) == Ok(s2);
    // forward ordering: one pass
    assert PassFrom(inst, [0, 1], s0, 0, false) == Ok(PassResult(s2, true));
    assert Run(inst, [0, 1], s0) == Ok(s2);
  }

  /** A pass that completes has read only valid positions. */
  lemma {:induction false} PassFromOkValid(inst: Instance, pi: seq<int>, st: DState, pos: nat, progress: bool)
    requires Shape(inst, st) && |pi| >= |inst.tasks| && pos <= |inst.tasks|
    requires PassFrom(inst, pi, st, pos, progress).Ok?
    ensures forall q :: pos <= q < |inst.tasks| ==> 0 <= pi[q] < |inst.tasks|
    decreases |inst.tasks| - pos
  {
    if pos < |inst.tasks| {
      var pl := Place(inst, st, pi[pos]);
      PassFromOkValid(inst, pi, pl.value.st, pos + 1, progress || pl.value.progress);
    }
  }

  /** An ordering entry outside [0, n) among the first n makes decode fail: no schedule. */
  lemma DecodeRejectsInvalidIndex(pi: seq<int>, inst: Instance, q: int)
    requires |pi| >= |inst.tasks| && 0 <= q < |inst.tasks|
    requires pi[q] < 0 || pi[q] >= |inst.tasks|
    ensures DecodeSpec(pi, inst).Err?
  {
    var st := Init(inst);
    if PassFrom(inst, pi, st, 0, false).Ok? {
      PassFromOkValid(inst, pi, st, 0, false);
    }
  }

  // ---------------------------------------------------------------- the invariant of a run

  /** Task ids are distinct and durations non-negative: the Java code does not check these, and
      the scheduling guarantees rest on them. */
  ghost predicate Sane(inst: Instance)
  {
    UniqueIds(inst.tasks) && forall i :: 0 <= i < |inst.tasks| ==> inst.tasks[i].duration >= 0
  }

  /** The log has one entry per scheduled task, with valid and distinct task positions. */
  ghost predicate LogShape(inst: Instance, st: DState)
  {
    && |st.log| == st.count
    && (forall k :: 0 <= k < |st.log| ==> st.log[k].index < |inst.tasks| && st.log[k].emp < |inst.employees|)
    && (forall k, l :: 0 <= k < l < |st.log| ==> st.log[k].index != st.log[l].index)
    && (forall i :: 0 <= i < |st.scheduled| ==> (st.scheduled[i] <==> exists k :: 0 <= k < |st.log| && st.log[k].index == i))
  }

  /** Predecessor id p of entry k's task was committed earlier, and finished by entry k's start. */
  ghost predicate PredBefore(inst: Instance, log: seq<Commit>, k: int, p: int)
    requires 0 <= k < |log|
  {
    var idx := IndexById(inst.tasks);
    p in idx && exists a :: 0 <= a < k && log[a].index == idx[p] && log[a].finish <= log[k].start
  }

  /** Entry k: a qualified employee, finish = start + duration, start at or after the release,
      every predecessor committed before it and finished by its start. */
  ghost predicate EntryOk(inst: Instance, log: seq<Commit>, k: int)
    requires 0 <= k < |log| && log[k].index < |inst.tasks| && log[k].emp < |inst.employees|
  {
    var c := log[k];
    var t := inst.tasks[c.index];
    && Qualified(inst.employees[c.emp], t)
    && c.finish == c.start + t.duration
    && c.start >= t.releaseDate
    && forall p :: p in t.predecessors ==> PredBefore(inst, log, k, p)
  }

  ghost predicate EntriesOk(inst: Instance, st: DState)
    requires LogShape(inst, st)
  {
    forall k :: 0 <= k < |st.log| ==> EntryOk(inst, st.log, k)
  }

  /** Two commits to the same employee: the earlier one finishes by the later one's start. */
  ghost predicate NoOverlap(log: seq<Commit>)
  {
    forall k, l :: 0 <= k < l < |log| && log[k].emp == log[l].emp ==> log[k].finish <= log[l].start
  }

  /** An employee's cursor is at or after the finish of each task committed to it. */
  ghost predicate CursorBound(st: DState)
  {
    forall k :: 0 <= k < |st.log| && st.log[k].emp < |st.cursor| ==> st.log[k].finish <= st.cursor[st.log[k].emp]
  }

  /** The schedule holds each commit under its task's id. */
  ghost predicate Agrees(inst: Instance, st: DState)
    requires LogShape(inst, st)
  {
    forall k :: 0 <= k < |st.log| ==>
      var c := st.log[k];
      var id := inst.tasks[c.index].id;
      && id in st.sv.taskToEmployee && st.sv.taskToEmployee[id] == inst.employees[c.emp].id
      && id in st.sv.taskStart && st.sv.taskStart[id] == c.start
      && id in st.sv.taskFinish && st.sv.taskFinish[id] == c.finish
  }

  /** Every id with an entry in the schedule belongs to a committed task. */
  ghost predicate KeysLogged(inst: Instance, st: DState)
  {
    forall id :: id in st.sv.order ==>
      exists k :: 0 <= k < |st.log| && st.log[k].index < |inst.tasks| && inst.tasks[st.log[k].index].id == id
  }

  ghost predicate Good(inst: Instance, st: DState)
  {
    && Shape(inst, st) && LogShape(inst, st) && EntriesOk(inst, st) && NoOverlap(st.log)
    && CursorBound(st) && Agrees(inst, st) && KeysLogged(inst, st) && WellFormed(st.sv)
  }

  lemma InitGood(inst: Instance)
    ensures Good(inst, Init(inst))
  {
  }

  // ---------------------------------------------------------------- one commit keeps the invariant

  /** The situation in which Place commits task position i to candidate c. */
  ghost predicate Commits(inst: Instance, st: DState, i: int, c: Choice)
  {
    && Shape(inst, st) && 0 <= i < |inst.tasks| && !st.scheduled[i]
    && ReadyStart(inst, st, inst.tasks[i]).Some?
    && BestUpTo(inst, st, inst.tasks[i], ReadyStart(inst, st, inst.tasks[i]).value, |inst.employees|) == Some(c)
  }

  /** What Place knows about candidate c when it commits task position i. */
  ghost predicate ChoiceFacts(inst: Instance, st: DState, i: int, c: Choice)
  {
    && Shape(inst, st) && 0 <= i < |inst.tasks| && !st.scheduled[i] && c.emp < |inst.employees|
    && var t := inst.tasks[i];
    && Qualified(inst.employees[c.emp], t)
    && c.finish == c.start + t.duration && c.start >= t.releaseDate && c.start >= st.cursor[c.emp]
    && forall q :: 0 <= q < |t.predecessors| ==>
         PredPlaced(inst, st, t.predecessors[q]) && FinishOf(st.sv, t.predecessors[q]) <= c.start
  }

  lemma CommitsChoiceFacts(inst: Instance, st: DState, i: int, c: Choice)
    requires Commits(inst, st, i, c)
    ensures ChoiceFacts(inst, st, i, c)
  {
    var t := inst.tasks[i];
    var earliest := ReadyStart(inst, st, t).value;
    assert c == Candidate(inst, st, t, earliest, c.emp);
  }

  lemma CommitLogShape(inst: Instance, st: DState, i: int, c: Choice)
    requires Shape(inst, st) && LogShape(inst, st)
    requires 0 <= i < |inst.tasks| && !st.scheduled[i] && c.emp < |inst.employees|
    ensures LogShape(inst, CommitTask(inst, st, i, c))
  {
    var st' := CommitTask(inst, st, i, c);
    var entry := Commit(i, c.emp, c.start, c.finish);
    assert st'.log == st.log + [entry];
    forall i' | 0 <= i' < |st'.scheduled|
      ensures st'.scheduled[i'] <==> exists k :: 0 <= k < |st'.log| && st'.log[k].index == i'
    {
      if i' == i {
        assert st'.log[|st.log|].index == i;
      } else if st.scheduled[i'] {
        var k :| 0 <= k < |st.log| && st.log[k].index == i';
        assert st'.log[k].index == i';
      }
    }
  }

  /** The new commit's facts: qualified employee, finish, release date and predecessors. */
  lemma CommitEntryOk(inst: Instance, st: DState, i: int, c: Choice)
    requires Shape(inst, st) && LogShape(inst, st) && Agrees(inst, st) && ChoiceFacts(inst, st, i, c)
    ensures LogShape(inst, CommitTask(inst, st, i, c))
    ensures EntryOk(inst, CommitTask(inst, st, i, c).log, |st.log|)
  {
    CommitLogShape(inst, st, i, c);
    var log' := CommitTask(inst, st, i, c).log;
    var preds := inst.tasks[i].predecessors;
    var idx := IndexById(inst.tasks);
    assert log'[|st.log|] == Commit(i, c.emp, c.start, c.finish);
    forall p | p in preds
      ensures PredBefore(inst, log', |st.log|, p)
    {
      var q :| 0 <= q < |preds| && preds[q] == p;
      assert PredPlaced(inst, st, preds[q]);
      var a :| 0 <= a < |st.log| && st.log[a].index == idx[p];
      IndexByIdLastWins(inst.tasks, p);
      assert FinishOf(st.sv, p) == st.log[a].finish;
      assert log'[a] == st.log[a];
    }
  }

  /** The old commits' facts survive appending a commit. */
  lemma CommitOldEntriesOk(inst: Instance, st: DState, i: int, c: Choice)
    requires Shape(inst, st) && LogShape(inst, st) && EntriesOk(inst, st)
    requires 0 <= i < |inst.tasks| && !st.scheduled[i] && c.emp < |inst.employees|
    ensures LogShape(inst, CommitTask(inst, st, i, c))
    ensures forall k :: 0 <= k < |st.log| ==> EntryOk(inst, CommitTask(inst, st, i, c).log, k)
  {
    CommitLogShape(inst, st, i, c);
    var log' := CommitTask(inst, st, i, c).log;
    forall k | 0 <= k < |st.log|
      ensures EntryOk(inst, log', k)
    {
      assert EntryOk(inst, st.log, k);
      var t := inst.tasks[st.log[k].index];
      forall p | p in t.predecessors
        ensures PredBefore(inst, log', k, p)
      {
        assert PredBefore(inst, st.log, k, p);
        var a :| 0 <= a < k && st.log[a].index == IndexById(inst.tasks)[p] && st.log[a].finish <= st.log[k].start;
        assert log'[a] == st.log[a] && log'[k] == st.log[k];
      }
    }
  }

  /** The new start is at or after the employee's cursor, which bounds its earlier finishes. */
  lemma CommitTiming(inst: Instance, st: DState, i: int, c: Choice)
    requires NoOverlap(st.log) && CursorBound(st)
    requires Shape(inst, st) && 0 <= i < |inst.tasks| && !st.scheduled[i] && c.emp < |inst.employees|
    requires c.start >= st.cursor[c.emp] && c.finish >= c.start
    ensures NoOverlap(CommitTask(inst, st, i, c).log) && CursorBound(CommitTask(inst, st, i, c))
  {
    var st' := CommitTask(inst, st, i, c);
    assert st'.log == st.log + [Commit(i, c.emp, c.start, c.finish)];
  }

  /** The schedule entry written for the new commit is under an id no earlier commit has. */
  lemma CommitAgrees(inst: Instance, st: DState, i: int, c: Choice)
    requires UniqueIds(inst.tasks) && Shape(inst, st) && LogShape(inst, st) && Agrees(inst, st) && KeysLogged(inst, st)
    requires 0 <= i < |inst.tasks| && !st.scheduled[i] && c.emp < |inst.employees|
    ensures LogShape(inst, CommitTask(inst, st, i, c))
    ensures Agrees(inst, CommitTask(inst, st, i, c)) && KeysLogged(inst, CommitTask(inst, st, i, c))
  {
    CommitLogShape(inst, st, i, c);
    var st' := CommitTask(inst, st, i, c);
    var t := inst.tasks[i];
    assert st'.log == st.log + [Commit(i, c.emp, c.start, c.finish)];
    forall k | 0 <= k < |st.log|
      ensures inst.tasks[st.log[k].index].id != t.id
    {
      assert st.log[k].index != i;
    }
    forall id | id in st'.sv.order
      ensures exists k :: 0 <= k < |st'.log| && st'.log[k].index < |inst.tasks| && inst.tasks[st'.log[k].index].id == id
    {
      if id == t.id {
        assert st'.log[|st.log|].index == i;
      } else {
        assert id in st.sv.order;
        var k :| 0 <= k < |st.log| && st.log[k].index < |inst.tasks| && inst.tasks[st.log[k].index].id == id;
        assert st'.log[k] == st.log[k];
      }
    }
  }

  /** After a commit with those facts every commit's facts hold, old and new alike. */
  lemma CommitEntriesOk(inst: Instance, st: DState, i: int, c: Choice)
    requires Good(inst, st) && ChoiceFacts(inst, st, i, c)
    ensures LogShape(inst, CommitTask(inst, st, i, c)) && EntriesOk(inst, CommitTask(inst, st, i, c))
  {
    var log' := CommitTask(inst, st, i, c).log;
    CommitEntryOk(inst, st, i, c);
    CommitOldEntriesOk(inst, st, i, c);
    assert |log'| == |st.log| + 1;
  }

  /** A commit with those facts keeps the whole invariant. */
  lemma CommitGood(inst: Instance, st: DState, i: int, c: Choice)
    requires Sane(inst) && Good(inst, st) && ChoiceFacts(inst, st, i, c)
    ensures Good(inst, CommitTask(inst, st, i, c))
  {
    assert inst.tasks[i].duration >= 0;
    CommitEntriesOk(inst, st, i, c);
    CommitTiming(inst, st, i, c);
    CommitAgrees(inst, st, i, c);
  }

  /** The commit Place makes keeps the invariant. */
  lemma CommitsGood(inst: Instance, st: DState, i: int, c: Choice)
    requires Sane(inst) && Good(inst, st) && Commits(inst, st, i, c)
    ensures Good(inst, CommitTask(inst, st, i, c))
  {
    CommitsChoiceFacts(inst, st, i, c);
    CommitGood(inst, st, i, c);
  }

  // ---------------------------------------------------------------- passes keep the invariant

  lemma PlaceGood(inst: Instance, st: DState, i: nat)
    requires Sane(inst) && Good(inst, st) && i < |inst.tasks| && Place(inst, st, i).Ok?
    ensures Good(inst, Place(inst, st, i).value.st)
  {
    if !st.scheduled[i] {
      var t := inst.tasks[i];
      var ready := ReadyStart(inst, st, t);
      if ready.Some? {
        var best := BestUpTo(inst, st, t, ready.value, |inst.employees|);
        CommitsGood(inst, st, i, best.value);
      }
    }
  }

  lemma {:induction false} PassFromGood(inst: Instance, pi: seq<int>, st: DState, pos: nat, progress: bool)
    requires Sane(inst) && Good(inst, st) && |pi| >= |inst.tasks| && pos <= |inst.tasks|
    requires PassFrom(inst, pi, st, pos, progress).Ok?
    ensures Good(inst, PassFrom(inst, pi, st, pos, progress).value.st)
    decreases |inst.tasks| - pos
  {
    if pos < |inst.tasks| {
      var pl := Place(inst, st, pi[pos]);
      PlaceGood(inst, st, pi[pos]);
      PassFromGood(inst, pi, pl.value.st, pos + 1, progress || pl.value.progress);
    }
  }

  lemma {:induction false} RunGood(inst: Instance, pi: seq<int>, st: DState)
    requires Sane(inst) && Good(inst, st) && |pi| >= |inst.tasks| && Run(inst, pi, st).Ok?
    ensures Good(inst, Run(inst, pi, st).value)
    decreases |inst.tasks| - st.count
  {
    if st.count < |inst.tasks| {
      var pr := PassFrom(inst, pi, st, 0, false);
      PassFromGood(inst, pi, st, 0, false);
      RunGood(inst, pi, pr.value.st);
    }
  }

  /** The final state of a successful decode satisfies the invariant, with every task scheduled. */
  lemma DecodeTraceGood(pi: seq<int>, inst: Instance)
    requires Sane(inst) && |pi| >= |inst.tasks| && DecodeTrace(pi, inst).Ok?
    ensures Good(inst, DecodeTrace(pi, inst).value)
    ensures forall i :: 0 <= i < |inst.tasks| ==> DecodeTrace(pi, inst).value.scheduled[i]
  {
    InitGood(inst);
    RunGood(inst, pi, Init(inst));
    CountTrueAll(DecodeTrace(pi, inst).value.scheduled);
  }

  // ---------------------------------------------------------------- what a successful decode guarantees

  /** The task positions of the commits, in commit order. */
  function Indices(log: seq<Commit>): (r: seq<nat>)
    ensures |r| == |log| && forall k :: 0 <= k < |log| ==> r[k] == log[k].index
  {
    seq(|log|, k requires 0 <= k < |log| => log[k].index)
  }

  /** On success the commits place every task position exactly once: the log is a permutation
      of 0 .. n-1. */
  lemma DecodePlacesEachTaskOnce(pi: seq<int>, inst: Instance)
    requires Sane(inst) && |pi| >= |inst.tasks| && DecodeTrace(pi, inst).Ok?
    ensures var log := DecodeTrace(pi, inst).value.log;
      && |log| == |inst.tasks|
      && (forall k :: 0 <= k < |log| ==> log[k].index < |inst.tasks| && log[k].emp < |inst.employees|)
      && (forall k, l :: 0 <= k < l < |log| ==> log[k].index != log[l].index)
      && (forall i :: 0 <= i < |inst.tasks| ==> i in Indices(log))
  {
    DecodeTraceGood(pi, inst);
    var st := DecodeTrace(pi, inst).value;
    forall i | 0 <= i < |inst.tasks|
      ensures i in Indices(st.log)
    {
      assert st.scheduled[i];
      var k :| 0 <= k < |st.log| && st.log[k].index == i;
      assert Indices(st.log)[k] == i;
    }
  }

  /** On success, in commit order: each task goes to a qualified employee, finishes at start plus
      duration, starts no earlier than its release date, and each of its predecessors was
      committed before it and finished by its start; an employee's tasks do not overlap and
      their starts do not decrease. */
  lemma DecodeCommitOrder(pi: seq<int>, inst: Instance)
    requires Sane(inst) && |pi| >= |inst.tasks| && DecodeTrace(pi, inst).Ok?
    ensures var log := DecodeTrace(pi, inst).value.log;
      forall k :: 0 <= k < |log| ==>
        log[k].index < |inst.tasks| && log[k].emp < |inst.employees| &&
        var t := inst.tasks[log[k].index];
        && Qualified(inst.employees[log[k].emp], t)
        && log[k].finish == log[k].start + t.duration
        && log[k].start >= t.releaseDate
        && forall p :: p in t.predecessors ==>
             p in IndexById(inst.tasks) &&
             exists a :: 0 <= a < k && log[a].index == IndexById(inst.tasks)[p] && log[a].finish <= log[k].start
    ensures var log := DecodeTrace(pi, inst).value.log;
      forall k, l :: 0 <= k < l < |log| && log[k].emp == log[l].emp ==>
        log[k].finish <= log[l].start && log[k].start <= log[l].start
  {
    DecodeTraceGood(pi, inst);
    var st := DecodeTrace(pi, inst).value;
    forall k | 0 <= k < |st.log|
      ensures st.log[k].start <= st.log[k].finish
      ensures var t := inst.tasks[st.log[k].index];
        && Qualified(inst.employees[st.log[k].emp], t)
        && st.log[k].finish == st.log[k].start + t.duration
        && st.log[k].start >= t.releaseDate
        && forall p :: p in t.predecessors ==>
             p in IndexById(inst.tasks) &&
             exists a :: 0 <= a < k && st.log[a].index == IndexById(inst.tasks)[p] && st.log[a].finish <= st.log[k].start
    {
      assert EntryOk(inst, st.log, k);
      var t := inst.tasks[st.log[k].index];
      forall p | p in t.predecessors
        ensures p in IndexById(inst.tasks) &&
          exists a :: 0 <= a < k && st.log[a].index == IndexById(inst.tasks)[p] && st.log[a].finish <= st.log[k].start
      {
        assert PredBefore(inst, st.log, k, p);
      }
    }
  }

  /** The per-task facts of the final schedule, read through the task ids. */
  ghost predicate TaskScheduled(inst: Instance, sv: ScheduleValue, t: Task)
  {
    && t.id in sv.taskToEmployee && t.id in sv.taskStart && t.id in sv.taskFinish
    && FinishOf(sv, t.id) == StartOf(sv, t.id) + t.duration
    && StartOf(sv, t.id) >= t.releaseDate
    && (exists k :: 0 <= k < |inst.employees| && inst.employees[k].id == sv.taskToEmployee[t.id] &&
                    Qualified(inst.employees[k], t))
    && forall p :: p in t.predecessors ==>
         (exists j :: 0 <= j < |inst.tasks| && inst.tasks[j].id == p) && FinishOf(sv, p) <= StartOf(sv, t.id)
  }

  /** A predecessor of a committed task was committed earlier; the schedule holds its finish, by
      the task's start, under its id, and the id names a task. */
  lemma CommittedPredecessorDone(inst: Instance, st: DState, k: int, p: int)
    requires Good(inst, st) && 0 <= k < |st.log|
    requires p in inst.tasks[st.log[k].index].predecessors
    ensures (exists j :: 0 <= j < |inst.tasks| && inst.tasks[j].id == p)
    ensures p in st.sv.taskFinish && FinishOf(st.sv, p) <= st.log[k].start
  {
    assert EntryOk(inst, st.log, k);
    assert PredBefore(inst, st.log, k, p);
    var idx := IndexById(inst.tasks);
    var a :| 0 <= a < k && st.log[a].index == idx[p] && st.log[a].finish <= st.log[k].start;
    IndexByIdLastWins(inst.tasks, p);
    assert inst.tasks[idx[p]].id == p;
  }

  /** The per-task facts hold for the task of every commit of a good state. */
  lemma CommittedTaskScheduled(inst: Instance, st: DState, k: int)
    requires Good(inst, st) && 0 <= k < |st.log|
    ensures TaskScheduled(inst, st.sv, inst.tasks[st.log[k].index])
  {
    var c := st.log[k];
    var t := inst.tasks[c.index];
    assert EntryOk(inst, st.log, k);
    assert inst.employees[c.emp].id == st.sv.taskToEmployee[t.id];
    forall p | p in t.predecessors
      ensures (exists j :: 0 <= j < |inst.tasks| && inst.tasks[j].id == p) && FinishOf(st.sv, p) <= StartOf(st.sv, t.id)
    {
      CommittedPredecessorDone(inst, st, k, p);
    }
  }

  lemma FinalTaskScheduled(pi: seq<int>, inst: Instance, i: int)
    requires Sane(inst) && |pi| >= |inst.tasks| && DecodeTrace(pi, inst).Ok? && 0 <= i < |inst.tasks|
    ensures TaskScheduled(inst, DecodeTrace(pi, inst).value.sv, inst.tasks[i])
  {
    DecodeTraceGood(pi, inst);
    var st := DecodeTrace(pi, inst).value;
    assert st.scheduled[i];
    var k :| 0 <= k < |st.log| && st.log[k].index == i;
    CommittedTaskScheduled(inst, st, k);
  }

  /** Every id with an entry in the final schedule is a task's id. */
  lemma FinalKeysAreTaskIds(pi: seq<int>, inst: Instance, id: int)
    requires Sane(inst) && |pi| >= |inst.tasks| && DecodeTrace(pi, inst).Ok?
    requires id in DecodeTrace(pi, inst).value.sv.order
    ensures exists k :: 0 <= k < |inst.tasks| && DecodeTrace(pi, inst).value.scheduled[k] && inst.tasks[k].id == id
  {
    DecodeTraceGood(pi, inst);
    var st := DecodeTrace(pi, inst).value;
    var k :| 0 <= k < |st.log| && st.log[k].index < |inst.tasks| && inst.tasks[st.log[k].index].id == id;
    assert st.scheduled[st.log[k].index];
  }

  /** The recomputed makespan of a successful decode is the latest task finish, 0 if none is
      positive. */
  lemma DecodeMakespan(pi: seq<int>, inst: Instance)
    requires Sane(inst) && |pi| >= |inst.tasks| && DecodeSpec(pi, inst).Ok?
    ensures var sv := DecodeSpec(pi, inst).value;
      && sv.makespan >= 0
      && (forall i :: 0 <= i < |inst.tasks| ==> FinishOf(sv, inst.tasks[i].id) <= sv.makespan)
      && (sv.makespan == 0 || exists i :: 0 <= i < |inst.tasks| && FinishOf(sv, inst.tasks[i].id) == sv.makespan)
  {
    DecodeTraceGood(pi, inst);
    var st := DecodeTrace(pi, inst).value;
    var sv := DecodeSpec(pi, inst).value;
    assert sv.taskFinish == st.sv.taskFinish && sv.makespan == MaxFinish(st.sv);
    MaxFinishIsMax(st.sv);
    if sv.makespan != 0 {
      var id :| id in st.sv.taskFinish && st.sv.taskFinish[id] == sv.makespan;
      FinalKeysAreTaskIds(pi, inst, id);
    }
  }

  /** On success every task has its employee, start and finish recorded under its id; it
      finishes at its start plus its duration, starts no earlier than its release date and no
      earlier than every predecessor's finish, every predecessor id names a task, and its employee
      is qualified for it. Only task ids have entries, and the dissatisfaction is the one computed
      from the final assignment. */
  lemma DecodeScheduleSound(pi: seq<int>, inst: Instance)
    requires Sane(inst) && |pi| >= |inst.tasks| && DecodeSpec(pi, inst).Ok?
    ensures var sv := DecodeSpec(pi, inst).value;
      forall i :: 0 <= i < |inst.tasks| ==> TaskScheduled(inst, sv, inst.tasks[i])
    ensures var sv := DecodeSpec(pi, inst).value;
      forall id :: id in sv.taskToEmployee ==> exists i :: 0 <= i < |inst.tasks| && inst.tasks[i].id == id
    ensures var sv := DecodeSpec(pi, inst).value;
      sv.dissatisfaction == Dissatisfaction(inst, sv)
  {
    DecodeTraceGood(pi, inst);
    var st := DecodeTrace(pi, inst).value;
    var sv := DecodeSpec(pi, inst).value;
    assert sv == Recomputed(inst, st.sv);
    forall i | 0 <= i < |inst.tasks|
      ensures TaskScheduled(inst, sv, inst.tasks[i])
    {
      FinalTaskScheduled(pi, inst, i);
    }
    forall id | id in sv.taskToEmployee
      ensures exists i :: 0 <= i < |inst.tasks| && inst.tasks[i].id == id
    {
      FinalKeysAreTaskIds(pi, inst, id);
    }
  }

  /** A predecessor id that no task has is never ready, so decode cannot succeed. */
  lemma MissingPredecessorFails(pi: seq<int>, inst: Instance, i: int, p: int)
    requires Sane(inst) && |pi| >= |inst.tasks| && 0 <= i < |inst.tasks| && p in inst.tasks[i].predecessors
    requires forall j :: 0 <= j < |inst.tasks| ==> inst.tasks[j].id != p
    ensures DecodeSpec(pi, inst).Err?
  {
    if DecodeSpec(pi, inst).Ok? {
      DecodeScheduleSound(pi, inst);
    }
  }

  /** Two tasks each listing the other as a predecessor (or one listing itself) can never both
      be committed after each other, so decode cannot succeed. */
  lemma PrecedenceCycleFails(pi: seq<int>, inst: Instance, i: int, j: int)
    requires Sane(inst) && |pi| >= |inst.tasks| && 0 <= i < |inst.tasks| && 0 <= j < |inst.tasks|
    requires inst.tasks[j].id in inst.tasks[i].predecessors && inst.tasks[i].id in inst.tasks[j].predecessors
    ensures DecodeSpec(pi, inst).Err?
  {
    if DecodeTrace(pi, inst).Ok? {
      DecodePlacesEachTaskOnce(pi, inst);
      DecodeCommitOrder(pi, inst);
      var log := DecodeTrace(pi, inst).value.log;
      assert i in Indices(log) && j in Indices(log);
      var ki :| 0 <= ki < |log| && log[ki].index == i;
      var kj :| 0 <= kj < |log| && log[kj].index == j;
      IndexByIdOfUnique(inst.tasks, i);
      IndexByIdOfUnique(inst.tasks, j);
    }
  }

  /** When every ordering entry is valid and every task has a qualified employee, the only way
      decode can fail is by stalling; with a missing predecessor it does. */
  lemma MissingPredecessorStalls(pi: seq<int>, inst: Instance, i: int, p: int)
    requires Sane(inst) && |pi| >= |inst.tasks| && 0 <= i < |inst.tasks| && p in inst.tasks[i].predecessors
    requires forall j :: 0 <= j < |inst.tasks| ==> inst.tasks[j].id != p
    requires forall q :: 0 <= q < |inst.tasks| ==> 0 <= pi[q] < |inst.tasks|
    requires forall j :: 0 <= j < |inst.tasks| ==> exists k :: 0 <= k < |inst.employees| && Qualified(inst.employees[k], inst.tasks[j])
    ensures DecodeSpec(pi, inst) == Err(Stalled)
  {
    MissingPredecessorFails(pi, inst, i, p);
    DecodeErrorExplained(pi, inst);
  }
  /** Under the same conditions a two-task precedence cycle (or a task listing itself) gives
      exactly `Stalled`: the tasks on the cycle are never ready, so no `Infeasible` is raised
      for them, and some pass places nothing. */
  lemma PrecedenceCycleStalls(pi: seq<int>, inst: Instance, i: int, j: int)
    requires Sane(inst) && |pi| >= |inst.tasks| && 0 <= i < |inst.tasks| && 0 <= j < |inst.tasks|
    requires inst.tasks[j].id in inst.tasks[i].predecessors && inst.tasks[i].id in inst.tasks[j].predecessors
    requires forall q :: 0 <= q < |inst.tasks| ==> 0 <= pi[q] < |inst.tasks|
    requires forall k :: 0 <= k < |inst.tasks| ==> exists e :: 0 <= e < |inst.employees| && Qualified(inst.employees[e], inst.tasks[k])
    ensures DecodeSpec(pi, inst) == Err(Stalled)
  {
    PrecedenceCycleFails(pi, inst, i, j);
    DecodeErrorExplained(pi, inst);
  }
  /** A task that no employee is qualified for can never be committed, so decode cannot
      succeed. */
  lemma UnstaffableTaskFails(pi: seq<int>, inst: Instance, i: int)
    requires Sane(inst) && |pi| >= |inst.tasks| && 0 <= i < |inst.tasks|
    requires forall k :: 0 <= k < |inst.employees| ==> !Qualified(inst.employees[k], inst.tasks[i])
    ensures DecodeSpec(pi, inst).Err?
  {
    if DecodeSpec(pi, inst).Ok? {
      DecodeScheduleSound(pi, inst);
    }
  }

  /** With valid entries covering every task and an acyclic precedence relation, a task no
      employee is qualified for gives exactly an `Infeasible` error. */
  lemma UnstaffableTaskInfeasible(pi: seq<int>, inst: Instance, i: int)
    requires Sane(inst) && |pi| >= |inst.tasks| && 0 <= i < |inst.tasks|
    requires forall k :: 0 <= k < |inst.employees| ==> !Qualified(inst.employees[k], inst.tasks[i])
    requires forall q :: 0 <= q < |inst.tasks| ==> 0 <= pi[q] < |inst.tasks|
    requires CoversAll(inst, pi) && Acyclic(inst.tasks)
    ensures DecodeSpec(pi, inst).Err? && DecodeSpec(pi, inst).error.Infeasible?
  {
    UnstaffableTaskFails(pi, inst, i);
    DecodeErrorExplained(pi, inst);
  }


}
