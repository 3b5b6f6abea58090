/** Skill feasibility and overqualification, compared dimension by dimension over
    max(|employee skills|, |task requirements|) dimensions, a missing entry counting as 0. */
module Skills {
  import opened TasModel

  function Dim(e: Employee, t: Task): nat
  {
    if |e.skills| < |t.requiredSkills| then |t.requiredSkills| else |e.skills|
  }

  /** Dimension k is satisfied: it is not required, or the employee's level reaches it. */
  predicate CoversSkill(e: Employee, t: Task, k: int)
  {
    RequiredSkill(t, k) <= 0.0 || Skill(e, k) >= RequiredSkill(t, k)
  }

  /** The loop's notion of qualification: every compared dimension is satisfied. */
  predicate Qualified(e: Employee, t: Task)
  {
    forall k :: 0 <= k < Dim(e, t) ==> CoversSkill(e, t, k)
  }

  /** Qualification means: for every k with a positive requirement, the level reaches it. */
  lemma QualifiedIff(e: Employee, t: Task)
    ensures Qualified(e, t) <==> forall k :: RequiredSkill(t, k) > 0.0 ==> Skill(e, k) >= RequiredSkill(t, k)
  {
    if Qualified(e, t) {
      forall k | RequiredSkill(t, k) > 0.0 ensures Skill(e, k) >= RequiredSkill(t, k) {
        assert 0 <= k < Dim(e, t);
        assert CoversSkill(e, t, k);
      }
    }
  }

  /** `hasSkills`: scans the dimensions and fails at the first level below a positive requirement. */
  method HasSkills(e: Employee, t: Task) returns (b: bool)
    ensures b == Qualified(e, t)
  {
    var dim := if |e.skills| < |t.requiredSkills| then |t.requiredSkills| else |e.skills|;
    for k := 0 to dim
      invariant forall j :: 0 <= j < k ==> CoversSkill(e, t, j)
    {
      var required := if k < |t.requiredSkills| then t.requiredSkills[k] else 0.0;
      if required <= 0.0 {
        continue;
      }
      var level := if k < |e.skills| then e.skills[k] else 0.0;
      if level < required {
        assert !CoversSkill(e, t, k);
        return false;
      }
    }
    return true;
  }

  /** Dimension k's weighted excess: alpha_k times the positive part of level minus requirement,
      counted only where the requirement is positive. */
  function OverqTerm(inst: Instance, e: Employee, t: Task, k: int): real
  {
    if RequiredSkill(t, k) <= 0.0 then 0.0
    else
      var diff := Skill(e, k) - RequiredSkill(t, k);
      if diff > 0.0 then SkillWeightAlpha(inst, k) * diff else 0.0
  }

  /** Sum of the terms of dimensions 0 .. k-1. */
  function OverqPrefix(inst: Instance, e: Employee, t: Task, k: nat): real
  {
    if k == 0 then 0.0 else OverqPrefix(inst, e, t, k - 1) + OverqTerm(inst, e, t, k - 1)
  }

  /** Overqualification of e for t: sum over the compared dimensions. */
  function Overqualification(inst: Instance, e: Employee, t: Task): real
  {
    OverqPrefix(inst, e, t, Dim(e, t))
  }

  /** Dimensions past the task's requirement vector add nothing: the sum runs over the
      required dimensions only. */
  lemma {:induction false} OverqualificationOverRequired(inst: Instance, e: Employee, t: Task, k: nat)
    requires |t.requiredSkills| <= k
    ensures OverqPrefix(inst, e, t, k) == OverqPrefix(inst, e, t, |t.requiredSkills|)
  {
    if k > |t.requiredSkills| {
      OverqualificationOverRequired(inst, e, t, k - 1);
    }
  }

  /** Weights are non-negative: alpha entries, lambdaOver and lambdaOverq. */
  ghost predicate NonNegativeWeights(inst: Instance)
  {
    && (forall k :: 0 <= k < |inst.skillWeightsAlpha| ==> inst.skillWeightsAlpha[k] >= 0.0)
    && inst.lambdaOver >= 0.0 && inst.lambdaOverq >= 0.0
  }

  lemma {:induction false} OverqPrefixNonNegative(inst: Instance, e: Employee, t: Task, k: nat)
    requires NonNegativeWeights(inst)
    ensures OverqPrefix(inst, e, t, k) >= 0.0
  {
    if k > 0 {
      OverqPrefixNonNegative(inst, e, t, k - 1);
      var j := k - 1;
      if RequiredSkill(t, j) > 0.0 && Skill(e, j) - RequiredSkill(t, j) > 0.0 {
        assert SkillWeightAlpha(inst, j) >= 0.0;
      }
    }
  }

  /** With non-negative weights the overqualification is non-negative. */
  lemma OverqualificationNonNegative(inst: Instance, e: Employee, t: Task)
    requires NonNegativeWeights(inst)
    ensures Overqualification(inst, e, t) >= 0.0
  {
    OverqPrefixNonNegative(inst, e, t, Dim(e, t));
  }

  /** The overqualification loop shared by the local cost and the dissatisfaction: adds
      alpha_k * (level - required) for every required dimension where the level is higher. */
  method AddOverqualification(inst: Instance, e: Employee, t: Task, acc: real) returns (r: real)
    ensures r == acc + Overqualification(inst, e, t)
  {
    r := acc;
    var dim := if |e.skills| < |t.requiredSkills| then |t.requiredSkills| else |e.skills|;
    for k := 0 to dim
      invariant r == acc + OverqPrefix(inst, e, t, k)
    {
      var required := if k < |t.requiredSkills| then t.requiredSkills[k] else 0.0;
      if required <= 0.0 {
        continue;
      }
      var level := if k < |e.skills| then e.skills[k] else 0.0;
      var diff := level - required;
      if diff > 0.0 {
        var alpha := if 0 <= k < |inst.skillWeightsAlpha| then inst.skillWeightsAlpha[k] else 0.0;
        r := r + alpha * diff;
      }
    }
  }
}
