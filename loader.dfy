/** The part of the instance loader that turns the parsed declarative description into model
    values: named skill maps become fixed-order skill vectors, and the records become tasks,
    employees and the instance. Parsing the file itself is not part of this model. */
module InstanceLoader {
  import opened TasModel

  /** The instance-wide order of skill dimensions. */
  const SkillOrder: seq<string> := ["csharp_dotnet9", "blazor_mudblazor_apexcharts", "pwa", "ms_sql", "visual_studio"]

  /** A parsed skill map: a missing map is None (Java null), and a key may map to a null value. */
  type SkillMap = Option<map<string, Option<real>>>

  datatype TaskRecord = TaskRecord(id: int, duration: int, predecessors: seq<int>, requiredSkills: SkillMap, releaseDate: int)
  datatype EmployeeRecord = EmployeeRecord(id: int, skills: SkillMap, availableTime: int)
  datatype InstanceRecord = InstanceRecord(skillWeightsAlpha: seq<real>, lambdaOver: real, lambdaOverq: real,
                                           tasks: seq<TaskRecord>, employees: seq<EmployeeRecord>)

  /** The level a skill map gives a name: its value when present and non-null, 0 otherwise. */
  function Level(byName: SkillMap, name: string): real
  {
    match byName
    case None => 0.0
    case Some(m) => if name in m && m[name].Some? then m[name].value else 0.0
  }

  /** The vector `buildSkillVector` produces, entry i being the level of SkillOrder[i]. */
  function SkillVector(byName: SkillMap): seq<real>
  {
    seq(|SkillOrder|, i requires 0 <= i < |SkillOrder| => Level(byName, SkillOrder[i]))
  }

  /** `buildSkillVector`: a fresh zero-initialised array of |SkillOrder| entries, filled in order. */
  method BuildSkillVector(byName: SkillMap) returns (v: array<real>)
    ensures fresh(v) && v[..] == SkillVector(byName)
  {
    v := new real[|SkillOrder|](_ => 0.0);
    if byName.None? {
      return;
    }
    var m := byName.value;
    for i := 0 to |SkillOrder|
      invariant v[..i] == SkillVector(byName)[..i]
    {
      var skillName := SkillOrder[i];
      var value := if skillName in m then m[skillName] else None;
      v[i] := if value.Some? then value.value else 0.0;
    }
  }

  /** The vector always has five entries, entry i being the map's value for SkillOrder[i] when
      present and 0 otherwise; a missing map gives all zeros. */
  lemma SkillVectorShape(byName: SkillMap)
    ensures |SkillVector(byName)| == 5
    ensures byName.None? ==> forall i :: 0 <= i < 5 ==> SkillVector(byName)[i] == 0.0
    ensures byName.Some? ==> forall i :: 0 <= i < 5 ==>
      SkillVector(byName)[i] == (if SkillOrder[i] in byName.value && byName.value[SkillOrder[i]].Some?
                                 then byName.value[SkillOrder[i]].value else 0.0)
  {
  }

  /** Keys outside SkillOrder have no effect on the vector. */
  lemma ForeignKeysIgnored(m: map<string, Option<real>>, k: string, x: Option<real>)
    requires k !in SkillOrder
    ensures SkillVector(Some(m[k := x])) == SkillVector(Some(m))
  {
    forall i | 0 <= i < |SkillOrder|
      ensures Level(Some(m[k := x]), SkillOrder[i]) == Level(Some(m), SkillOrder[i])
    {
      assert SkillOrder[i] != k;
    }
  }

  function ToTask(r: TaskRecord): Task
  {
    Task(r.id, r.duration, r.predecessors, SkillVector(r.requiredSkills), r.releaseDate)
  }

  function ToEmployee(r: EmployeeRecord): Employee
  {
    Employee(r.id, SkillVector(r.skills), r.availableTime)
  }

  /** The record-to-model conversion of `fromJson`: order is kept, scalar fields are copied and
      every skill map goes through the skill-vector builder. */
  function FromRecord(dto: InstanceRecord): (inst: Instance)
    ensures |inst.tasks| == |dto.tasks| && |inst.employees| == |dto.employees|
    ensures forall i :: 0 <= i < |dto.tasks| ==>
      var t, d := inst.tasks[i], dto.tasks[i];
      t.id == d.id && t.duration == d.duration && t.predecessors == d.predecessors &&
      t.releaseDate == d.releaseDate && t.requiredSkills == SkillVector(d.requiredSkills)
    ensures forall i :: 0 <= i < |dto.employees| ==>
      var e, d := inst.employees[i], dto.employees[i];
      e.id == d.id && e.availableTime == d.availableTime && e.skills == SkillVector(d.skills)
    ensures inst.skillWeightsAlpha == dto.skillWeightsAlpha
    ensures inst.lambdaOver == dto.lambdaOver && inst.lambdaOverq == dto.lambdaOverq
  {
    Instance(seq(|dto.tasks|, i requires 0 <= i < |dto.tasks| => ToTask(dto.tasks[i])),
             seq(|dto.employees|, i requires 0 <= i < |dto.employees| => ToEmployee(dto.employees[i])),
             dto.skillWeightsAlpha, dto.lambdaOver, dto.lambdaOverq)
  }
}
