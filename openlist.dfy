/** Removing a sealed room from the list of rooms with available
    connections: the removal as the generator performs it, and the removal
    it evidently means. */
module OpenList {

  predicate Distinct<T(==)>(s: seq<T>) {
    forall i, j :: 0 <= i < j < |s| ==> s[i] != s[j]
  }

  /** `list.splice(list.find(...), 1)`. `find` yields the room record itself
      (or undefined), which splice's integer conversion turns into NaN and
      then 0, so the first entry is removed whichever room was meant. */
  function SpliceAtFound<T>(s: seq<T>): (r: seq<T>)
    ensures |r| == if s == [] then 0 else |s| - 1
    ensures forall k :: 0 <= k < |r| ==> r[k] == s[k + 1]
  {
    if s == [] then [] else s[1..]
  }

  /** The intended removal: drop the first entry equal to `x`, if any. */
  function RemoveFirst<T(==)>(s: seq<T>, x: T): seq<T> {
    if s == [] then []
    else if s[0] == x then s[1..]
    else [s[0]] + RemoveFirst(s[1..], x)
  }

  /** The intended removal takes `x` out of a duplicate-free list and keeps
      every other entry, without introducing duplicates. */
  lemma {:induction false} RemoveFirstRemovesOnlyIt<T>(s: seq<T>, x: T)
    requires Distinct(s)
    ensures forall y :: y in RemoveFirst(s, x) <==> y in s && y != x
    ensures |RemoveFirst(s, x)| == if x in s then |s| - 1 else |s|
    ensures Distinct(RemoveFirst(s, x))
  {
    if s != [] {
      assert s == [s[0]] + s[1..];
      assert Distinct(s[1..]);
      if s[0] == x {
        assert x !in s[1..];
      } else {
        RemoveFirstRemovesOnlyIt(s[1..], x);
        assert s[0] !in s[1..];
      }
    }
  }

  lemma SpliceAtFoundKeepsDistinct<T>(s: seq<T>)
    requires Distinct(s)
    ensures Distinct(SpliceAtFound(s))
    ensures forall y :: y in SpliceAtFound(s) ==> y in s
  {
  }

  /** The removal as written misses the room it was asked to remove whenever
      that room is not at the head of the list, and drops the head instead. */
  lemma SpliceAtFoundMissesTarget<T>(s: seq<T>, x: T)
    requires Distinct(s) && x in s && s[0] != x
    ensures x in SpliceAtFound(s)
    ensures s[0] !in SpliceAtFound(s)
    ensures RemoveFirst(s, x) != SpliceAtFound(s)
  {
    RemoveFirstRemovesOnlyIt(s, x);
    assert s[0] in RemoveFirst(s, x);
  }
}
