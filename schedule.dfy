/** The schedule a decode call builds: per task id the assigned employee id, start and finish,
    plus the makespan and dissatisfaction objectives. ScheduleValue is its abstract state; the
    class Schedule holds it in mutable fields, as the decoder updates it in place. */
module Schedule {
  import opened TasModel
  import opened Skills

  /** The three hash maps keyed by task id, the two objectives, and `order`: the ids that have
      entries, in the order the maps iterate them (modelled as first-insertion order; every
      quantity computed by iterating the maps is a sum or a maximum, so the order is immaterial). */
  datatype ScheduleValue = ScheduleValue(order: seq<int>, taskToEmployee: map<int, int>, taskStart: map<int, int>,
                                         taskFinish: map<int, int>, makespan: int, dissatisfaction: real)

  function EmptySchedule(): ScheduleValue
  {
    ScheduleValue([], map[], map[], map[], 0, 0.0)
  }

  function Max(a: int, b: int): int { if a < b then b else a }

  function Max0(x: real): real { if x > 0.0 then x else 0.0 }

  ghost predicate Distinct(s: seq<int>)
  {
    forall i, j :: 0 <= i < j < |s| ==> s[i] != s[j]
  }

  /** `order` lists each key once, and the three maps have exactly the keys it lists. */
  ghost predicate WellFormed(sv: ScheduleValue)
  {
    && Distinct(sv.order)
    && (forall id :: id in sv.order <==> id in sv.taskToEmployee)
    && (forall id :: id in sv.order <==> id in sv.taskStart)
    && (forall id :: id in sv.order <==> id in sv.taskFinish)
  }

  /** `assignTask`: the task's three entries are (over)written, every other task's entries are
      kept, and the makespan grows to the finish if that is later. */
  function Assign(sv: ScheduleValue, taskId: int, empId: int, start: int, finish: int): (r: ScheduleValue)
    ensures taskId in r.taskToEmployee && r.taskToEmployee[taskId] == empId
    ensures taskId in r.taskStart && r.taskStart[taskId] == start
    ensures taskId in r.taskFinish && r.taskFinish[taskId] == finish
    ensures forall id :: id != taskId ==>
      && (id in r.taskToEmployee <==> id in sv.taskToEmployee)
      && (id in r.taskStart <==> id in sv.taskStart)
      && (id in r.taskFinish <==> id in sv.taskFinish)
      && (id in sv.taskToEmployee ==> r.taskToEmployee[id] == sv.taskToEmployee[id])
      && (id in sv.taskStart ==> r.taskStart[id] == sv.taskStart[id])
      && (id in sv.taskFinish ==> r.taskFinish[id] == sv.taskFinish[id])
    ensures r.makespan >= sv.makespan && r.makespan >= finish
    ensures r.makespan == sv.makespan || r.makespan == finish
    ensures r.dissatisfaction == sv.dissatisfaction
    ensures WellFormed(sv) ==> WellFormed(r)
  {
    ScheduleValue(if taskId in sv.order then sv.order else sv.order + [taskId],
                  sv.taskToEmployee[taskId := empId], sv.taskStart[taskId := start], sv.taskFinish[taskId := finish],
                  if finish > sv.makespan then finish else sv.makespan, sv.dissatisfaction)
  }

  /** `getTaskStartTime`: the recorded start, 0 for a task with no entry. */
  function StartOf(sv: ScheduleValue, taskId: int): (r: int)
    ensures taskId in sv.taskStart ==> r == sv.taskStart[taskId]
    ensures taskId !in sv.taskStart ==> r == 0
  {
    if taskId in sv.taskStart then sv.taskStart[taskId] else 0
  }

  /** `getTaskFinishTime`: the recorded finish, 0 for a task with no entry. */
  function FinishOf(sv: ScheduleValue, taskId: int): (r: int)
    ensures taskId in sv.taskFinish ==> r == sv.taskFinish[taskId]
    ensures taskId !in sv.taskFinish ==> r == 0
  {
    if taskId in sv.taskFinish then sv.taskFinish[taskId] else 0
  }

  /** `getEmployeeOfTask`: the assigned employee id, None (Java null) for a task with no entry. */
  function EmployeeOf(sv: ScheduleValue, taskId: int): (r: Option<int>)
    ensures r.Some? <==> taskId in sv.taskToEmployee
    ensures r.Some? ==> r.value == sv.taskToEmployee[taskId]
  {
    if taskId in sv.taskToEmployee then Some(sv.taskToEmployee[taskId]) else None
  }

  // ---------------------------------------------------------------- employee load

  /** Every assigned task id names a task of the instance (otherwise the load loop would
      dereference Java's null). */
  ghost predicate KeysAreTasks(inst: Instance, sv: ScheduleValue)
  {
    forall id :: id in sv.taskToEmployee ==> GetTaskById(inst, id).Some?
  }

  /** The duration of the task an id names (0 for an id no task has). */
  function DurationOf(inst: Instance, id: int): int
  {
    match GetTaskById(inst, id)
    case Some(t) => t.duration
    case None => 0
  }

  /** What task id adds to emp's load: its duration if it is mapped to emp, else nothing. */
  function Contribution(inst: Instance, m: map<int, int>, emp: int, id: int): int
  {
    if id in m && m[id] == emp then DurationOf(inst, id) else 0
  }

  /** Sum of the contributions of order[0 .. i-1]. */
  function LoadPrefix(inst: Instance, order: seq<int>, m: map<int, int>, emp: int, i: nat): int
    requires i <= |order|
  {
    if i == 0 then 0 else LoadPrefix(inst, order, m, emp, i - 1) + Contribution(inst, m, emp, order[i - 1])
  }

  /** The load of employee id emp: the total duration of the tasks mapped to emp, each key of
      the assignment map counted once. */
  function Load(inst: Instance, sv: ScheduleValue, emp: int): int
  {
    LoadPrefix(inst, sv.order, sv.taskToEmployee, emp, |sv.order|)
  }

  lemma {:induction false} LoadPrefixZero(inst: Instance, order: seq<int>, m: map<int, int>, emp: int, i: nat)
    requires i <= |order|
    requires forall id :: id in m ==> m[id] != emp
    ensures LoadPrefix(inst, order, m, emp, i) == 0
  {
    if i > 0 {
      LoadPrefixZero(inst, order, m, emp, i - 1);
    }
  }

  /** An employee with no task mapped to it has load 0. */
  lemma LoadWithoutTasks(inst: Instance, sv: ScheduleValue, emp: int)
    requires forall id :: id in sv.taskToEmployee ==> sv.taskToEmployee[id] != emp
    ensures Load(inst, sv, emp) == 0
  {
    LoadPrefixZero(inst, sv.order, sv.taskToEmployee, emp, |sv.order|);
  }

  lemma {:induction false} LoadPrefixNonNegative(inst: Instance, order: seq<int>, m: map<int, int>, emp: int, i: nat)
    requires i <= |order|
    requires forall k :: 0 <= k < |inst.tasks| ==> inst.tasks[k].duration >= 0
    ensures LoadPrefix(inst, order, m, emp, i) >= 0
  {
    if i > 0 {
      LoadPrefixNonNegative(inst, order, m, emp, i - 1);
      var id := order[i - 1];
      if GetTaskById(inst, id).Some? {
        GetTaskByIdLastWins(inst, id);
      }
    }
  }

  /** With non-negative durations every load is non-negative. */
  lemma LoadNonNegative(inst: Instance, sv: ScheduleValue, emp: int)
    requires forall k :: 0 <= k < |inst.tasks| ==> inst.tasks[k].duration >= 0
    ensures Load(inst, sv, emp) >= 0
  {
    LoadPrefixNonNegative(inst, sv.order, sv.taskToEmployee, emp, |sv.order|);
  }

  /** Appending keys does not change the sum over a prefix. */
  lemma {:induction false} LoadPrefixExtend(inst: Instance, order: seq<int>, more: seq<int>, m: map<int, int>, emp: int, i: nat)
    requires i <= |order|
    ensures LoadPrefix(inst, order + more, m, emp, i) == LoadPrefix(inst, order, m, emp, i)
  {
    if i > 0 {
      LoadPrefixExtend(inst, order, more, m, emp, i - 1);
    }
  }

  /** Overwriting the entry of a key that occurs at most once changes the sum by that key's
      change of contribution, and only if the key lies in the prefix. */
  lemma {:induction false} LoadPrefixOverwrite(inst: Instance, order: seq<int>, m: map<int, int>, emp: int,
                                               taskId: int, empId: int, i: nat)
    requires i <= |order| && Distinct(order)
    ensures LoadPrefix(inst, order, m[taskId := empId], emp, i) ==
      LoadPrefix(inst, order, m, emp, i) +
      (if taskId in order[..i] then Contribution(inst, m[taskId := empId], emp, taskId) - Contribution(inst, m, emp, taskId) else 0)
  {
    if i > 0 {
      LoadPrefixOverwrite(inst, order, m, emp, taskId, empId, i - 1);
      assert order[..i] == order[..i - 1] + [order[i - 1]];
    }
  }

  /** Re-assigning a task overwrites its entry: its old contribution is replaced by the new one,
      so every task is counted once; a new task adds its duration to its employee's load. */
  lemma LoadAfterAssign(inst: Instance, sv: ScheduleValue, taskId: int, empId: int, start: int, finish: int, emp: int)
    requires WellFormed(sv)
    ensures Load(inst, Assign(sv, taskId, empId, start, finish), emp) ==
      Load(inst, sv, emp)
      - (if taskId in sv.taskToEmployee && sv.taskToEmployee[taskId] == emp then DurationOf(inst, taskId) else 0)
      + (if empId == emp then DurationOf(inst, taskId) else 0)
  {
    var m, m' := sv.taskToEmployee, sv.taskToEmployee[taskId := empId];
    var r := Assign(sv, taskId, empId, start, finish);
    assert sv.order[..|sv.order|] == sv.order;
    if taskId in sv.order {
      LoadPrefixOverwrite(inst, sv.order, m, emp, taskId, empId, |sv.order|);
    } else {
      var n := |sv.order|;
      LoadPrefixExtend(inst, sv.order, [taskId], m', emp, n);
      LoadPrefixOverwrite(inst, sv.order, m, emp, taskId, empId, n);
      assert r.order == sv.order + [taskId];
    }
  }

  // ---------------------------------------------------------------- makespan

  /** The largest of 0 and the finishes of order[0 .. i-1] (a key without a finish entry adds 0). */
  function MaxFinishPrefix(order: seq<int>, fin: map<int, int>, i: nat): int
    requires i <= |order|
  {
    if i == 0 then 0
    else
      var f := if order[i - 1] in fin then fin[order[i - 1]] else 0;
      Max(MaxFinishPrefix(order, fin, i - 1), f)
  }

  /** The largest recorded finish, 0 when none is later than 0. */
  function MaxFinish(sv: ScheduleValue): int
  {
    MaxFinishPrefix(sv.order, sv.taskFinish, |sv.order|)
  }

  lemma {:induction false} MaxFinishPrefixBounds(order: seq<int>, fin: map<int, int>, i: nat)
    requires i <= |order|
    ensures MaxFinishPrefix(order, fin, i) >= 0
    ensures forall j :: 0 <= j < i && order[j] in fin ==> fin[order[j]] <= MaxFinishPrefix(order, fin, i)
    ensures MaxFinishPrefix(order, fin, i) == 0 ||
      exists j :: 0 <= j < i && order[j] in fin && fin[order[j]] == MaxFinishPrefix(order, fin, i)
  {
    if i > 0 {
      MaxFinishPrefixBounds(order, fin, i - 1);
    }
  }

  /** The makespan recomputation yields 0 or more, at least every recorded finish, and either 0
      or a recorded finish: the maximum over the recorded finishes, 0 when there are none. */
  lemma MaxFinishIsMax(sv: ScheduleValue)
    requires WellFormed(sv)
    ensures MaxFinish(sv) >= 0
    ensures forall id :: id in sv.taskFinish ==> sv.taskFinish[id] <= MaxFinish(sv)
    ensures MaxFinish(sv) == 0 || exists id :: id in sv.taskFinish && sv.taskFinish[id] == MaxFinish(sv)
    ensures (forall id :: id !in sv.taskFinish) ==> MaxFinish(sv) == 0
  {
    MaxFinishPrefixBounds(sv.order, sv.taskFinish, |sv.order|);
    forall id | id in sv.taskFinish ensures sv.taskFinish[id] <= MaxFinish(sv) {
      var j :| 0 <= j < |sv.order| && sv.order[j] == id;
    }
  }

  // ---------------------------------------------------------------- dissatisfaction

  /** Overqualification of employee e summed over the instance's tasks 0 .. j-1 mapped to e's id. */
  function TasksOverq(inst: Instance, m: map<int, int>, e: Employee, j: nat): real
    requires j <= |inst.tasks|
  {
    if j == 0 then 0.0
    else
      var t := inst.tasks[j - 1];
      TasksOverq(inst, m, e, j - 1) + (if t.id in m && m[t.id] == e.id then Overqualification(inst, e, t) else 0.0)
  }

  /** lambdaOver * max(0, load - capacity) + lambdaOverq * (overqualification over e's tasks). */
  function EmployeeDissatisfaction(inst: Instance, order: seq<int>, m: map<int, int>, e: Employee): real
  {
    inst.lambdaOver * Max0((LoadPrefix(inst, order, m, e.id, |order|) - e.availableTime) as real)
    + inst.lambdaOverq * TasksOverq(inst, m, e, |inst.tasks|)
  }

  function DissPrefix(inst: Instance, order: seq<int>, m: map<int, int>, i: nat): real
    requires i <= |inst.employees|
  {
    if i == 0 then 0.0 else DissPrefix(inst, order, m, i - 1) + EmployeeDissatisfaction(inst, order, m, inst.employees[i - 1])
  }

  /** The dissatisfaction objective: the sum over employees; it depends on the assignment only. */
  function Dissatisfaction(inst: Instance, sv: ScheduleValue): real
  {
    DissPrefix(inst, sv.order, sv.taskToEmployee, |inst.employees|)
  }

  lemma {:induction false} TasksOverqNonNegative(inst: Instance, m: map<int, int>, e: Employee, j: nat)
    requires j <= |inst.tasks| && NonNegativeWeights(inst)
    ensures TasksOverq(inst, m, e, j) >= 0.0
  {
    if j > 0 {
      TasksOverqNonNegative(inst, m, e, j - 1);
      OverqualificationNonNegative(inst, e, inst.tasks[j - 1]);
    }
  }

  lemma {:induction false} DissPrefixNonNegative(inst: Instance, order: seq<int>, m: map<int, int>, i: nat)
    requires i <= |inst.employees| && NonNegativeWeights(inst)
    ensures DissPrefix(inst, order, m, i) >= 0.0
  {
    if i > 0 {
      DissPrefixNonNegative(inst, order, m, i - 1);
      var e := inst.employees[i - 1];
      TasksOverqNonNegative(inst, m, e, |inst.tasks|);
      var over := Max0((LoadPrefix(inst, order, m, e.id, |order|) - e.availableTime) as real);
      assert inst.lambdaOver * over >= 0.0;
      assert inst.lambdaOverq * TasksOverq(inst, m, e, |inst.tasks|) >= 0.0;
    }
  }

  /** With non-negative lambdaOver, lambdaOverq and alpha, every term is a weight times a
      non-negative amount, so the dissatisfaction is non-negative. */
  lemma DissatisfactionNonNegative(inst: Instance, sv: ScheduleValue)
    requires NonNegativeWeights(inst)
    ensures Dissatisfaction(inst, sv) >= 0.0
  {
    DissPrefixNonNegative(inst, sv.order, sv.taskToEmployee, |inst.employees|);
  }

  /** `recomputeObjectives`: the makespan becomes the maximum finish and the dissatisfaction is
      computed from the assignment; the maps are unchanged. */
  function Recomputed(inst: Instance, sv: ScheduleValue): ScheduleValue
  {
    sv.(makespan := MaxFinish(sv), dissatisfaction := Dissatisfaction(inst, sv))
  }

  // ---------------------------------------------------------------- the mutable container

  class Schedule {
    const instance: Instance
    var order: seq<int>
    var taskToEmployee: map<int, int>
    var taskStart: map<int, int>
    var taskFinish: map<int, int>
    var makespan: int
    var dissatisfaction: real

    function Value(): ScheduleValue
      reads this
    {
      ScheduleValue(order, taskToEmployee, taskStart, taskFinish, makespan, dissatisfaction)
    }

    ghost predicate Valid()
      reads this
    {
      WellFormed(Value())
    }

    constructor (instance: Instance)
      ensures this.instance == instance && Value() == EmptySchedule() && Valid()
    {
      this.instance := instance;
      order := [];
      taskToEmployee, taskStart, taskFinish := map[], map[], map[];
      makespan, dissatisfaction := 0, 0.0;
    }

    method AssignTask(taskId: int, empId: int, startTime: int, finishTime: int)
      modifies this
      ensures Value() == Assign(old(Value()), taskId, empId, startTime, finishTime)
    {
      if taskId !in order {
        order := order + [taskId];
      }
      taskToEmployee := taskToEmployee[taskId := empId];
      taskStart := taskStart[taskId := startTime];
      taskFinish := taskFinish[taskId := finishTime];
      if finishTime > makespan {
        makespan := finishTime;
      }
    }

    function GetTaskStartTime(taskId: int): int
      reads this
    {
      StartOf(Value(), taskId)
    }

    function GetTaskFinishTime(taskId: int): int
      reads this
    {
      FinishOf(Value(), taskId)
    }

    function GetEmployeeOfTask(taskId: int): Option<int>
      reads this
    {
      EmployeeOf(Value(), taskId)
    }

    function GetMakespan(): int
      reads this
    {
      makespan
    }

    function GetDissatisfaction(): real
      reads this
    {
      dissatisfaction
    }

    /** `getEmployeeLoad`: walks the task-to-employee entries, adding the duration of every task
        mapped to empId. */
    method GetEmployeeLoad(empId: int) returns (load: int)
      requires Valid() && KeysAreTasks(instance, Value())
      ensures load == Load(instance, Value(), empId)
    {
      load := 0;
      for i := 0 to |order|
        invariant load == LoadPrefix(instance, order, taskToEmployee, empId, i)
      {
        var taskId := order[i];
        var assignedEmp := taskToEmployee[taskId];
        if assignedEmp != empId {
          continue;
        }
        var task := GetTaskById(instance, taskId).value;
        load := load + task.duration;
      }
    }

    /** `recomputeObjectives`. */
    method RecomputeObjectives()
      requires Valid() && KeysAreTasks(instance, Value())
      modifies this
      ensures Value() == Recomputed(instance, old(Value())) && Valid()
    {
      var maxFinish := 0;
      for i := 0 to |order|
        invariant maxFinish == MaxFinishPrefix(order, taskFinish, i)
      {
        var finish := taskFinish[order[i]];
        if finish > maxFinish {
          maxFinish := finish;
        }
      }
      var total := ComputeDissatisfaction();
      makespan := maxFinish;
      dissatisfaction := total;
    }

    /** `computeDissatisfaction`: per employee, its load's overload and the overqualification over
        the instance's tasks mapped to it, weighted and summed. */
    method ComputeDissatisfaction() returns (total: real)
      requires Valid() && KeysAreTasks(instance, Value())
      ensures total == Dissatisfaction(instance, Value())
    {
      total := 0.0;
      for i := 0 to |instance.employees|
        invariant total == DissPrefix(instance, order, taskToEmployee, i)
      {
        var e := instance.employees[i];
        var empId := e.id;
        var load := GetEmployeeLoad(empId);
        var overload := Max0((load - e.availableTime) as real);
        var overqual := 0.0;
        for j := 0 to |instance.tasks|
          invariant overqual == TasksOverq(instance, taskToEmployee, e, j)
        {
          var t := instance.tasks[j];
          var assignedTo := EmployeeOf(Value(), t.id);
          if assignedTo.None? || assignedTo.value != empId {
            continue;
          }
          overqual := AddOverqualification(instance, e, t, overqual);
        }
        var empDiss := instance.lambdaOver * overload + instance.lambdaOverq * overqual;
        total := total + empDiss;
      }
    }
  }
}
