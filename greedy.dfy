/** The greedy baseline: the task positions 0 .. n-1 sorted stably by release date, then by
    duration, and handed to the decoder as the priority ordering. */
module GreedySolver {
  import opened TasModel
  import opened Sorting
  import opened DecoderSpec
  import opened DecoderProps
  import opened Decoder

  /** The sort keys of position a: its task's release date and duration. The comparator is only
      applied to valid positions; outside the list the keys are 0. */
  function ReleaseKey(tasks: seq<Task>, a: int): int
  {
    if 0 <= a < |tasks| then tasks[a].releaseDate else 0
  }

  function DurationKey(tasks: seq<Task>, a: int): int
  {
    if 0 <= a < |tasks| then tasks[a].duration else 0
  }

  /** The comparator: position a comes strictly before position b when its task is released
      earlier, or released at the same time and shorter (Integer.compare on each key). */
  function TaskLess(tasks: seq<Task>, a: int, b: int): bool
  {
    || ReleaseKey(tasks, a) < ReleaseKey(tasks, b)
    || (ReleaseKey(tasks, a) == ReleaseKey(tasks, b) && DurationKey(tasks, a) < DurationKey(tasks, b))
  }

  function Range(n: nat): (r: seq<int>)
    ensures |r| == n && forall i :: 0 <= i < n ==> r[i] == i
  {
    seq(n, i => i)
  }

  /** The greedy ordering: Collections.sort of [0, ..., n-1] with the comparator (a stable sort). */
  function GreedyOrder(tasks: seq<Task>): seq<int>
  {
    SortBy(Range(|tasks|), (a, b) => TaskLess(tasks, a, b))
  }

  lemma TaskLessIsStrictWeakOrder(tasks: seq<Task>)
    ensures StrictWeakOrder((a, b) => TaskLess(tasks, a, b))
  {
    var less := (a, b) => TaskLess(tasks, a, b);
    forall x, y, z | less(x, z) ensures less(x, y) || less(y, z) {
      assert TaskLess(tasks, x, z);
    }
    forall x, y, z | less(x, y) && less(y, z) ensures less(x, z) {
      assert TaskLess(tasks, x, y) && TaskLess(tasks, y, z);
    }
  }

  /** The greedy ordering is a permutation of 0 .. n-1. */
  lemma GreedyOrderIsPermutation(tasks: seq<Task>)
    ensures |GreedyOrder(tasks)| == |tasks|
    ensures forall k :: 0 <= k < |tasks| ==> 0 <= GreedyOrder(tasks)[k] < |tasks|
    ensures forall k, l :: 0 <= k < l < |tasks| ==> GreedyOrder(tasks)[k] != GreedyOrder(tasks)[l]
    ensures forall i :: 0 <= i < |tasks| ==> i in GreedyOrder(tasks)
  {
    var less := (a, b) => TaskLess(tasks, a, b);
    var g := GreedyOrder(tasks);
    var r := Range(|tasks|);
    TaskLessIsStrictWeakOrder(tasks);
    SortByStable(r, less, (a: int, b: int) => a < b);
    forall k | 0 <= k < |tasks| ensures 0 <= g[k] < |tasks| {
      assert g[k] in multiset(g);
      assert g[k] in multiset(r);
      var m :| 0 <= m < |r| && r[m] == g[k];
    }
    forall i | 0 <= i < |tasks| ensures i in g {
      assert r[i] == i;
      assert i in multiset(r);
      assert i in multiset(g);
    }
  }

  /** Non-decreasing release dates, and non-decreasing durations among equal release dates;
      tasks equal in both keys stay in ascending position order (the sort is stable). */
  lemma GreedyOrderSorted(tasks: seq<Task>)
    ensures var g := GreedyOrder(tasks);
      forall k, l :: 0 <= k < l < |g| && 0 <= g[k] < |tasks| && 0 <= g[l] < |tasks| ==>
        var a, b := tasks[g[k]], tasks[g[l]];
        && a.releaseDate <= b.releaseDate
        && (a.releaseDate == b.releaseDate ==> a.duration <= b.duration)
        && (a.releaseDate == b.releaseDate && a.duration == b.duration ==> g[k] < g[l])
  {
    TaskLessIsStrictWeakOrder(tasks);
    SortByStable(Range(|tasks|), (a, b) => TaskLess(tasks, a, b), (a: int, b: int) => a < b);
  }

  /** The ordering Solve hands to decode reads only valid positions, so the greedy baseline
      never fails with an invalid index. */
  lemma GreedyNeverInvalidIndex(inst: Instance)
    ensures |GreedyOrder(inst.tasks)| == |inst.tasks|
    ensures DecodeSpec(GreedyOrder(inst.tasks), inst).Err? ==> !DecodeSpec(GreedyOrder(inst.tasks), inst).error.InvalidIndex?
  {
    GreedyOrderIsPermutation(inst.tasks);
    if DecodeSpec(GreedyOrder(inst.tasks), inst).Err? {
      DecodeErrorExplained(GreedyOrder(inst.tasks), inst);
    }
  }

  /** `solve`: builds [0, ..., n-1], sorts it, copies it into an array and decodes it; the
      outcome is decode's on the greedy ordering. */
  method Solve(inst: Instance) returns (r: DecodeOutcome)
    ensures r.Decoded? ==> fresh(r.schedule) && DecodeSpec(GreedyOrder(inst.tasks), inst) == Ok(r.schedule.Value())
    ensures r.Failed? ==> DecodeSpec(GreedyOrder(inst.tasks), inst) == Err(r.error)
  {
    var tasks := inst.tasks;
    var n := |tasks|;
    var order: seq<int> := [];
    for i := 0 to n
      invariant order == Range(i)
    {
      order := order + [i];
    }
    order := SortBy(order, (a, b) => TaskLess(tasks, a, b));
    var pi := new int[n];
    for i := 0 to n
      invariant pi[..i] == order[..i]
    {
      pi[i] := order[i];
    }
    assert pi[..] == order;
    r := Decode(pi, inst);
  }
}
