/** A stable insertion sort on sequences, ordered by a strict "less" relation. It stands for the
    library sorts the system calls (Java's Collections.sort, Python's sorted): both are stable,
    and a stable sort's result is determined by its input and its comparison. */
module Sorting {

  /** `less` is irreflexive and transitive. */
  ghost predicate StrictOrder<T(!new)>(less: (T, T) -> bool)
  {
    && (forall x :: !less(x, x))
    && (forall x, y, z :: less(x, y) && less(y, z) ==> less(x, z))
  }

  /** No later element is strictly less than an earlier one. */
  ghost predicate Sorted<T>(s: seq<T>, less: (T, T) -> bool)
  {
    forall i, j :: 0 <= i < j < |s| ==> !less(s[j], s[i])
  }

  /** Inserts x before the first element strictly greater than it (after every equal one). */
  function InsertBy<T>(t: seq<T>, x: T, less: (T, T) -> bool): (r: seq<T>)
    ensures multiset(r) == multiset(t) + multiset{x}
    ensures |r| == |t| + 1
  {
    if |t| == 0 then [x]
    else if less(x, t[0]) then [x] + t
    else
      assert t == [t[0]] + t[1..];
      [t[0]] + InsertBy(t[1..], x, less)
  }

  /** Insertion sort: sort all but the last element, then insert the last one. */
  function SortBy<T>(s: seq<T>, less: (T, T) -> bool): (r: seq<T>)
    ensures multiset(r) == multiset(s)
    ensures |r| == |s|
  {
    if |s| == 0 then []
    else
      assert s == s[..|s| - 1] + [s[|s| - 1]];
      InsertBy(SortBy(s[..|s| - 1], less), s[|s| - 1], less)
  }

  lemma {:induction false} InsertBySorted<T(!new)>(t: seq<T>, x: T, less: (T, T) -> bool)
    requires StrictOrder(less) && Sorted(t, less)
    ensures Sorted(InsertBy(t, x, less), less)
  {
    if |t| == 0 {
    } else if less(x, t[0]) {
      var r := [x] + t;
      forall i, j | 0 <= i < j < |r| ensures !less(r[j], r[i]) {
        if i == 0 && j > 1 {
          assert !less(t[j - 1], t[0]);
        }
      }
    } else {
      var rest := InsertBy(t[1..], x, less);
      InsertBySorted(t[1..], x, less);
      var r := [t[0]] + rest;
      forall i, j | 0 <= i < j < |r| ensures !less(r[j], r[i]) {
        if i == 0 {
          var y := rest[j - 1];
          assert y in multiset(rest);
          assert y == x || y in multiset(t[1..]);
          if y != x {
            var k :| 0 <= k < |t[1..]| && t[1..][k] == y;
            assert t[k + 1] == y;
          }
        }
      }
    }
  }

  /** The result of SortBy is sorted. */
  lemma {:induction false} SortBySorted<T(!new)>(s: seq<T>, less: (T, T) -> bool)
    requires StrictOrder(less)
    ensures Sorted(SortBy(s, less), less)
  {
    if |s| > 0 {
      SortBySorted(s[..|s| - 1], less);
      InsertBySorted(SortBy(s[..|s| - 1], less), s[|s| - 1], less);
    }
  }

  /** Membership is kept by sorting. */
  lemma SortByMembers<T>(s: seq<T>, less: (T, T) -> bool, x: T)
    ensures x in SortBy(s, less) <==> x in s
  {
    assert x in SortBy(s, less) <==> x in multiset(SortBy(s, less));
    assert x in s <==> x in multiset(s);
  }

  /** A strict weak order: a strict order in which incomparability is transitive, i.e. whenever
      x < z, any y lies above x or below z. Comparators built from integer keys are of this kind. */
  ghost predicate StrictWeakOrder<T(!new)>(less: (T, T) -> bool)
  {
    StrictOrder(less) && forall x, y, z :: less(x, z) ==> less(x, y) || less(y, z)
  }

  /** Sorted by `less`, and elements that `less` cannot tell apart appear in `before` order. */
  ghost predicate StableSorted<T>(s: seq<T>, less: (T, T) -> bool, before: (T, T) -> bool)
  {
    forall i, j :: 0 <= i < j < |s| ==> less(s[i], s[j]) || (!less(s[j], s[i]) && before(s[i], s[j]))
  }

  lemma {:induction false} InsertByStable<T(!new)>(t: seq<T>, x: T, less: (T, T) -> bool, before: (T, T) -> bool)
    requires StrictWeakOrder(less) && StableSorted(t, less, before)
    requires forall k :: 0 <= k < |t| ==> before(t[k], x)
    ensures StableSorted(InsertBy(t, x, less), less, before)
  {
    if |t| == 0 {
    } else if less(x, t[0]) {
      var r := [x] + t;
      forall i, j | 0 <= i < j < |r| ensures less(r[i], r[j]) || (!less(r[j], r[i]) && before(r[i], r[j])) {
        if i == 0 && j > 1 {
          assert !less(t[j - 1], t[0]);
          assert less(x, t[j - 1]);
        }
      }
    } else {
      var rest := InsertBy(t[1..], x, less);
      InsertByStable(t[1..], x, less, before);
      var r := [t[0]] + rest;
      forall i, j | 0 <= i < j < |r| ensures less(r[i], r[j]) || (!less(r[j], r[i]) && before(r[i], r[j])) {
        if i == 0 {
          var y := rest[j - 1];
          assert y in multiset(rest);
          assert y == x || y in multiset(t[1..]);
          if y != x {
            var k :| 0 <= k < |t[1..]| && t[1..][k] == y;
            assert t[k + 1] == y;
          }
        }
      }
    }
  }

  /** SortBy is stable: if the input is in `before` order, then elements that `less` cannot tell
      apart keep that order in the result. */
  lemma {:induction false} SortByStable<T(!new)>(s: seq<T>, less: (T, T) -> bool, before: (T, T) -> bool)
    requires StrictWeakOrder(less)
    requires forall i, j :: 0 <= i < j < |s| ==> before(s[i], s[j])
    ensures StableSorted(SortBy(s, less), less, before)
  {
    if |s| > 0 {
      var init := s[..|s| - 1];
      var x := s[|s| - 1];
      SortByStable(init, less, before);
      var sorted := SortBy(init, less);
      forall k | 0 <= k < |sorted| ensures before(sorted[k], x) {
        var y := sorted[k];
        assert y in multiset(sorted);
        assert y in multiset(init);
        var m :| 0 <= m < |init| && init[m] == y;
      }
      InsertByStable(sorted, x, less, before);
    }
  }

  /** Sorting an already sorted sequence changes nothing: each element goes at the end. */
  lemma {:induction false} SortByOfSorted<T>(s: seq<T>, less: (T, T) -> bool)
    requires Sorted(s, less)
    ensures SortBy(s, less) == s
  {
    if |s| > 0 {
      var init := s[..|s| - 1];
      var x := s[|s| - 1];
      assert Sorted(init, less);
      SortByOfSorted(init, less);
      InsertAtEnd(init, x, less);
      assert init + [x] == s;
    }
  }

  lemma {:induction false} InsertAtEnd<T>(t: seq<T>, x: T, less: (T, T) -> bool)
    requires forall k :: 0 <= k < |t| ==> !less(x, t[k])
    ensures InsertBy(t, x, less) == t + [x]
  {
    if |t| > 0 {
      InsertAtEnd(t[1..], x, less);
      assert [t[0]] + (t[1..] + [x]) == t + [x];
    }
  }
}
