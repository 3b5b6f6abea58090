/** Value types of a task-assignment-and-scheduling (TAS) instance: tasks, employees and the
    instance that groups them with the penalty weights. Java's `double` is modelled as `real`
    and Java's `int` as the unbounded `int`. */
module TasModel {

  datatype Option<T> = None | Some(value: T)

  /** A task: identifier, duration, predecessor identifiers, required skill levels (one entry per
      skill dimension) and the earliest permitted start. */
  datatype Task = Task(id: int, duration: int, predecessors: seq<int>, requiredSkills: seq<real>, releaseDate: int)

  /** An employee: identifier, skill levels and capacity (total work-time budget). */
  datatype Employee = Employee(id: int, skills: seq<real>, availableTime: int)

  /** An instance: the task list, the employee list, the per-skill overqualification weights alpha,
      the overload price lambdaOver and the overqualification price lambdaOverq. */
  datatype Instance = Instance(tasks: seq<Task>, employees: seq<Employee>, skillWeightsAlpha: seq<real>,
                               lambdaOver: real, lambdaOverq: real)

  // ---------------------------------------------------------------- Task

  /** The five-argument constructor: the skill array is copied, so later writes to it do not
      reach the task. */
  method NewTask(id: int, duration: int, predecessors: seq<int>, requiredSkills: array<real>, releaseDate: int)
    returns (t: Task)
    ensures t.id == id && t.duration == duration && t.predecessors == predecessors
    ensures t.requiredSkills == requiredSkills[..] && t.releaseDate == releaseDate
  {
    var copy := new real[requiredSkills.Length];
    for i := 0 to requiredSkills.Length
      invariant copy[..i] == requiredSkills[..i]
    {
      copy[i] := requiredSkills[i];
    }
    t := Task(id, duration, predecessors, copy[..], releaseDate);
  }

  /** The four-argument constructor delegates with release date 0. */
  method NewTaskReleasedAtZero(id: int, duration: int, predecessors: seq<int>, requiredSkills: array<real>)
    returns (t: Task)
    ensures t.id == id && t.duration == duration && t.predecessors == predecessors
    ensures t.requiredSkills == requiredSkills[..] && t.releaseDate == 0
  {
    t := NewTask(id, duration, predecessors, requiredSkills, 0);
  }

  /** The accessor `requiredSkills()` hands out a fresh copy with the same contents. */
  method RequiredSkillsCopy(t: Task) returns (a: array<real>)
    ensures fresh(a) && a[..] == t.requiredSkills
  {
    a := new real[|t.requiredSkills|](i requires 0 <= i < |t.requiredSkills| => t.requiredSkills[i]);
  }

  /** Required level in dimension k; a missing dimension (negative or past the end) counts as 0. */
  function RequiredSkill(t: Task, k: int): (r: real)
    ensures 0 <= k < |t.requiredSkills| ==> r == t.requiredSkills[k]
    ensures (k < 0 || k >= |t.requiredSkills|) ==> r == 0.0
  {
    if 0 <= k < |t.requiredSkills| then t.requiredSkills[k] else 0.0
  }

  /** Java's Math.round: the nearest integer, halves rounded up. */
  function Round(x: real): (r: int)
    ensures r as real <= x + 0.5 < r as real + 1.0
  {
    (x + 0.5).Floor
  }

  /** The backwards-compatible single-skill accessor: the first requirement, rounded. */
  function RequiredSkillRounded(t: Task): (r: int)
    ensures |t.requiredSkills| == 0 ==> r == 0
    ensures |t.requiredSkills| > 0 ==> r as real <= t.requiredSkills[0] + 0.5 < r as real + 1.0
  {
    Round(RequiredSkill(t, 0))
  }

  // ---------------------------------------------------------------- Employee

  /** The constructor copies the skill array. */
  method NewEmployee(id: int, skills: array<real>, availableTime: int) returns (e: Employee)
    ensures e.id == id && e.skills == skills[..] && e.availableTime == availableTime
  {
    var copy := new real[skills.Length];
    for i := 0 to skills.Length
      invariant copy[..i] == skills[..i]
    {
      copy[i] := skills[i];
    }
    e := Employee(id, copy[..], availableTime);
  }

  /** The accessor `skills()` hands out a fresh copy with the same contents. */
  method SkillsCopy(e: Employee) returns (a: array<real>)
    ensures fresh(a) && a[..] == e.skills
  {
    a := new real[|e.skills|](i requires 0 <= i < |e.skills| => e.skills[i]);
  }

  /** Skill level in dimension k; a missing dimension counts as 0. */
  function Skill(e: Employee, k: int): (r: real)
    ensures 0 <= k < |e.skills| ==> r == e.skills[k]
    ensures (k < 0 || k >= |e.skills|) ==> r == 0.0
  {
    if 0 <= k < |e.skills| then e.skills[k] else 0.0
  }

  /** `setAvailableTime(v)`: the capacity becomes v; id and skills are final. */
  function WithAvailableTime(e: Employee, v: int): (r: Employee)
    ensures r.availableTime == v
    ensures r.id == e.id && r.skills == e.skills
  {
    e.(availableTime := v)
  }

  // ---------------------------------------------------------------- Instance

  /** Map from task id to the position of the LAST task carrying that id (later puts overwrite). */
  function IndexById(tasks: seq<Task>): (r: map<int, nat>)
    ensures forall id :: id in r ==> r[id] < |tasks|
  {
    if |tasks| == 0 then map[]
    else IndexById(tasks[..|tasks| - 1])[tasks[|tasks| - 1].id := |tasks| - 1]
  }

  /** The id-to-task map the instance constructor builds. */
  function TaskById(tasks: seq<Task>): map<int, Task>
  {
    if |tasks| == 0 then map[]
    else TaskById(tasks[..|tasks| - 1])[tasks[|tasks| - 1].id := tasks[|tasks| - 1]]
  }

  /** The constructor's loop `for (Task t : tasks) taskById.put(t.id(), t)`. */
  method BuildTaskById(tasks: seq<Task>) returns (m: map<int, Task>)
    ensures m == TaskById(tasks)
  {
    m := map[];
    for i := 0 to |tasks|
      invariant m == TaskById(tasks[..i])
    {
      assert tasks[..i + 1][..i] == tasks[..i];
      m := m[tasks[i].id := tasks[i]];
    }
    assert tasks[..|tasks|] == tasks;
  }

  /** An id is a key iff some task has it, and it maps to the last such position. */
  lemma {:induction false} IndexByIdLastWins(tasks: seq<Task>, id: int)
    ensures id in IndexById(tasks) <==> exists i :: 0 <= i < |tasks| && tasks[i].id == id
    ensures id in IndexById(tasks) ==>
      var i := IndexById(tasks)[id];
      i < |tasks| && tasks[i].id == id && forall j :: i < j < |tasks| ==> tasks[j].id != id
  {
    if |tasks| > 0 {
      var init := tasks[..|tasks| - 1];
      IndexByIdLastWins(init, id);
      if id != tasks[|tasks| - 1].id {
        if exists i :: 0 <= i < |tasks| && tasks[i].id == id {
          var i :| 0 <= i < |tasks| && tasks[i].id == id;
          assert init[i].id == id;
        }
      }
    }
  }

  /** The task map and the index map agree: the task stored for an id sits at the stored index. */
  lemma {:induction false} TaskByIdAtIndex(tasks: seq<Task>, id: int)
    ensures id in TaskById(tasks) <==> id in IndexById(tasks)
    ensures id in IndexById(tasks) ==> IndexById(tasks)[id] < |tasks| && TaskById(tasks)[id] == tasks[IndexById(tasks)[id]]
  {
    if |tasks| > 0 {
      var init := tasks[..|tasks| - 1];
      TaskByIdAtIndex(init, id);
      IndexByIdLastWins(init, id);
    }
  }

  /** `getTaskById`: the task map lookup; None plays the role of Java's null. */
  function GetTaskById(inst: Instance, id: int): Option<Task>
  {
    if id in TaskById(inst.tasks) then Some(TaskById(inst.tasks)[id]) else None
  }

  /** `getTaskById(id)` is the last task of the list with that id, and None when no task has it. */
  lemma GetTaskByIdLastWins(inst: Instance, id: int)
    ensures GetTaskById(inst, id).None? <==> forall i :: 0 <= i < |inst.tasks| ==> inst.tasks[i].id != id
    ensures GetTaskById(inst, id).Some? ==>
      exists i :: 0 <= i < |inst.tasks| && GetTaskById(inst, id).value == inst.tasks[i] && inst.tasks[i].id == id &&
        forall j :: i < j < |inst.tasks| ==> inst.tasks[j].id != id
  {
    TaskByIdAtIndex(inst.tasks, id);
    IndexByIdLastWins(inst.tasks, id);
    if id in IndexById(inst.tasks) {
      var i := IndexById(inst.tasks)[id];
      assert GetTaskById(inst, id).value == inst.tasks[i];
    }
  }

  /** Every task of the list is found by its own id. */
  lemma GetTaskByIdOfMember(inst: Instance, i: int)
    requires 0 <= i < |inst.tasks|
    ensures GetTaskById(inst, inst.tasks[i].id).Some?
    ensures GetTaskById(inst, inst.tasks[i].id).value.id == inst.tasks[i].id
  {
    GetTaskByIdLastWins(inst, inst.tasks[i].id);
  }

  /** Task identifiers are pairwise distinct. */
  ghost predicate UniqueIds(tasks: seq<Task>)
  {
    forall i, j :: 0 <= i < j < |tasks| ==> tasks[i].id != tasks[j].id
  }

  /** With distinct ids the index map inverts the list. */
  lemma IndexByIdOfUnique(tasks: seq<Task>, i: int)
    requires UniqueIds(tasks) && 0 <= i < |tasks|
    ensures tasks[i].id in IndexById(tasks) && IndexById(tasks)[tasks[i].id] == i
  {
    IndexByIdLastWins(tasks, tasks[i].id);
  }

  function NumberOfTasks(inst: Instance): (r: nat)
    ensures r == |inst.tasks|
  {
    |inst.tasks|
  }

  function NumberOfEmployees(inst: Instance): (r: nat)
    ensures r == |inst.employees|
  {
    |inst.employees|
  }

  function NumberOfSkills(inst: Instance): (r: nat)
    ensures r == |inst.skillWeightsAlpha|
  {
    |inst.skillWeightsAlpha|
  }

  /** `skillWeightsAlpha()` hands out a fresh copy; writing to it does not change the instance. */
  method SkillWeightsAlphaCopy(inst: Instance) returns (a: array<real>)
    ensures fresh(a) && a[..] == inst.skillWeightsAlpha
  {
    a := new real[|inst.skillWeightsAlpha|](i requires 0 <= i < |inst.skillWeightsAlpha| => inst.skillWeightsAlpha[i]);
  }

  /** Weight alpha_k; 0 outside the vector. */
  function SkillWeightAlpha(inst: Instance, k: int): (r: real)
    ensures 0 <= k < |inst.skillWeightsAlpha| ==> r == inst.skillWeightsAlpha[k]
    ensures (k < 0 || k >= |inst.skillWeightsAlpha|) ==> r == 0.0
  {
    if 0 <= k < |inst.skillWeightsAlpha| then inst.skillWeightsAlpha[k] else 0.0
  }
}
