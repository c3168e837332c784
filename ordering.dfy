/** The natural ("OS") sort order the project index uses for its pages
    (natsort.os_sorted in crow/project.py).

    The library's key is OS-dependent, so the model takes the order as a
    comparator `leq` (a total preorder: "key(a) <= key(b)") and sorts
    stably with it, as Python's `sorted(..., key=...)` does. */
module Ordering {

  /** `leq` compares every pair and is transitive: what a sort key gives. */
  ghost predicate TotalPreorder<T(!new)>(leq: (T, T) -> bool) {
    && (forall a, b :: leq(a, b) || leq(b, a))
    && (forall a, b, c :: leq(a, b) && leq(b, c) ==> leq(a, c))
  }

  ghost predicate Sorted<T>(s: seq<T>, leq: (T, T) -> bool) {
    forall i, j :: 0 <= i < j < |s| ==> leq(s[i], s[j])
  }

  /** Puts `x` in front of the first element it is `leq` to: elements that
      tie with `x` but come later in the input stay after it (stability). */
  function Insert<T>(x: T, s: seq<T>, leq: (T, T) -> bool): (r: seq<T>)
    ensures multiset(r) == multiset(s) + multiset{x}
  {
    if |s| == 0 || leq(x, s[0]) then [x] + s
    else
      assert s == [s[0]] + s[1..];
      [s[0]] + Insert(x, s[1..], leq)
  }

  /** os_sorted: a stable insertion sort, a permutation of its input. */
  function SortBy<T>(s: seq<T>, leq: (T, T) -> bool): (r: seq<T>)
    ensures multiset(r) == multiset(s)
  {
    if |s| == 0 then []
    else
      assert s == [s[0]] + s[1..];
      Insert(s[0], SortBy(s[1..], leq), leq)
  }

  lemma {:induction false} InsertSorted<T(!new)>(x: T, s: seq<T>, leq: (T, T) -> bool)
    requires TotalPreorder(leq) && Sorted(s, leq)
    ensures Sorted(Insert(x, s, leq), leq)
  {
    if |s| == 0 || leq(x, s[0]) {
      var r := [x] + s;
      forall i, j | 0 <= i < j < |r| ensures leq(r[i], r[j]) {
        if i == 0 && j > 1 { assert leq(s[0], s[j - 1]); }
      }
    } else {
      assert leq(s[0], x);
      InsertSorted(x, s[1..], leq);
      var tail := Insert(x, s[1..], leq);
      var r := [s[0]] + tail;
      forall j | 0 <= j < |tail| ensures leq(s[0], tail[j]) {
        assert tail[j] in multiset(tail);
        assert tail[j] in multiset(s[1..]) + multiset{x};
        if tail[j] != x {
          assert tail[j] in s[1..];
          var k :| 0 <= k < |s[1..]| && s[1..][k] == tail[j];
          assert s[k + 1] == tail[j];
        }
      }
      forall i, j | 0 <= i < j < |r| ensures leq(r[i], r[j]) {
        if i == 0 { assert r[j] == tail[j - 1]; } else { assert r[i] == tail[i - 1] && r[j] == tail[j - 1]; }
      }
    }
  }

  /** Under a total preorder the result of SortBy is in order. */
  lemma {:induction false} SortBySorted<T(!new)>(s: seq<T>, leq: (T, T) -> bool)
    requires TotalPreorder(leq)
    ensures Sorted(SortBy(s, leq), leq)
  {
    if |s| > 0 {
      SortBySorted(s[1..], leq);
      InsertSorted(s[0], SortBy(s[1..], leq), leq);
    }
  }
}
