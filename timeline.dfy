/**
 * The live keyframes of a store seen as a sequence: the ordering discipline
 * callers keep, order-preserving removal, and what a correct answer to a
 * nearest-preceding query is.
 */
module Timeline {
  import opened Keyframes

  /** Times never decrease along the sequence (the order callers append in). */
  ghost predicate Sorted(s: seq<Keyframe>)
  {
    forall i, j :: 0 <= i < j < |s| ==> s[i].time <= s[j].time
  }

  /** The sequence with the element at position `i` deleted. */
  function RemoveAt<T>(s: seq<T>, i: nat): (r: seq<T>)
    requires i < |s|
    ensures |r| == |s| - 1
    ensures forall j :: 0 <= j < i ==> r[j] == s[j]
    ensures forall j :: i <= j < |r| ==> r[j] == s[j + 1]
    ensures multiset(r) + multiset{s[i]} == multiset(s)
  {
    assert s == s[..i] + [s[i]] + s[i + 1..];
    s[..i] + s[i + 1..]
  }

  /** Appending a keyframe no earlier than the last one keeps the times ordered. */
  lemma AppendKeepsSorted(s: seq<Keyframe>, k: Keyframe)
    requires Sorted(s)
    requires |s| == 0 || s[|s| - 1].time <= k.time
    ensures Sorted(s + [k])
  {
    var t := s + [k];
    forall i, j | 0 <= i < j < |t|
      ensures t[i].time <= t[j].time
    {
      if j == |s| {
        assert s[i].time <= s[|s| - 1].time;
      }
    }
  }

  /** Deleting any element keeps the survivors ordered. */
  lemma RemoveKeepsSorted(s: seq<Keyframe>, i: nat)
    requires Sorted(s)
    requires i < |s|
    ensures Sorted(RemoveAt(s, i))
  {
    var r := RemoveAt(s, i);
    forall a, b | 0 <= a < b < |r|
      ensures r[a].time <= r[b].time
    {
      var a', b' := if a < i then a else a + 1, if b < i then b else b + 1;
      assert r[a] == s[a'] && r[b] == s[b'];
    }
  }

  /**
   * `k` is an acceptable answer to a query at time `q` on the sequence `s`:
   * its time does not exceed `q`, and either it hits `q` exactly or every
   * later keyframe lies strictly after `q`. On a sorted sequence this is the
   * last keyframe not after `q`, except that an exact hit may be any keyframe
   * whose time equals `q`.
   */
  ghost predicate NearestPreceding(s: seq<Keyframe>, q: real, k: int)
  {
    && 0 <= k < |s|
    && s[k].time <= q
    && (s[k].time == q || forall j :: k < j < |s| ==> q < s[j].time)
  }

  /** On a sorted sequence an acceptable answer has the largest time not after `q`. */
  lemma NearestPrecedingIsLatest(s: seq<Keyframe>, q: real, k: int, j: int)
    requires Sorted(s)
    requires NearestPreceding(s, q, k)
    requires 0 <= j < |s| && s[j].time <= q
    ensures s[j].time <= s[k].time
  {
    if k < j {
      assert s[k].time <= s[j].time;
    }
  }

  /** Querying the exact time of some keyframe yields a keyframe with exactly that time. */
  lemma ExactQueryHitsExactTime(s: seq<Keyframe>, q: real, k: int, i: int)
    requires Sorted(s)
    requires NearestPreceding(s, q, k)
    requires 0 <= i < |s| && s[i].time == q
    ensures s[k].time == q
  {
    NearestPrecedingIsLatest(s, q, k, i);
  }

  /** Without an exact hit the answer is unique: there is one last keyframe before `q`. */
  lemma NearestPrecedingUnique(s: seq<Keyframe>, q: real, k1: int, k2: int)
    requires Sorted(s)
    requires NearestPreceding(s, q, k1) && NearestPreceding(s, q, k2)
    requires s[k1].time < q
    ensures k1 == k2
  {
    NearestPrecedingIsLatest(s, q, k2, k1);
  }
}
