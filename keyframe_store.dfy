/**
 * The keyframe manager: an append-ordered, resizable array of keyframes with
 * order-preserving removal, a quarter-full shrink policy and a binary search
 * for the last keyframe not after a given time.
 */
module KeyframeStore {
  import opened Keyframes
  import opened Timeline

  /**
   * The capacity a bulk load of `bulk` keyframes pre-sizes to: unchanged when
   * the free slots suffice, otherwise the current capacity plus the shortfall,
   * doubled. It always leaves room for the whole bulk load.
   */
  function BulkCapacity(capacity: nat, count: nat, bulk: nat): (r: nat)
    requires count <= capacity
    ensures count + bulk <= r
    ensures capacity <= r
    ensures bulk <= capacity - count <==> r == capacity
  {
    var extra := bulk - (capacity - count);
    if extra > 0 then (capacity + extra) * 2 else capacity
  }

  /** Copies every element of `src` to the same index of `dst` (`Array.CopyTo(dst, 0)`). */
  method CopyTo<T>(src: array<T>, dst: array<T>)
    requires src.Length <= dst.Length
    modifies dst
    ensures forall i :: 0 <= i < src.Length ==> dst[i] == old(src[i])
    ensures forall i :: src.Length <= i < dst.Length ==> dst[i] == old(dst[i])
  {
    forall i | 0 <= i < src.Length {
      dst[i] := src[i];
    }
  }

  /**
   * Moves the elements at positions `index + 1 .. n - 1` of `a` down by one
   * position, overwriting the element at `index`; the rest of `a` is untouched.
   */
  method ShiftLeft<T>(a: array<T>, index: nat, n: nat)
    requires index < n <= a.Length
    modifies a
    ensures forall j :: 0 <= j < index ==> a[j] == old(a[j])
    ensures forall j :: index <= j < n - 1 ==> a[j] == old(a[j + 1])
    ensures forall j :: n - 1 <= j < a.Length ==> a[j] == old(a[j])
  {
    var i := index;
    while i < n - 1
      invariant index <= i <= n - 1
      invariant forall j :: 0 <= j < index ==> a[j] == old(a[j])
      invariant forall j :: index <= j < i ==> a[j] == old(a[j + 1])
      invariant forall j :: i <= j < a.Length ==> a[j] == old(a[j])
    {
      a[i] := a[i + 1];
      i := i + 1;
    }
  }

  class KeyframeManager {
    static const DefaultArraySize: nat := 4
    static const ReduceArraySizeFactor: nat := 2

    // public view: the live keyframes, in order
    ghost var Live: seq<Keyframe>

    // implementation: a backing array whose first `count` slots are in use
    var keyframes: array<Option<Keyframe>>
    var count: nat

    /**
     * The object invariant: the first `count` slots hold the live keyframes,
     * the remaining slots are cleared, and the capacity is at least 2.
     */
    ghost predicate Valid()
      reads this, keyframes
    {
      && 2 <= keyframes.Length
      && count <= keyframes.Length
      && |Live| == count
      && (forall i :: 0 <= i < count ==> keyframes[i] == Some(Live[i]))
      && (forall i :: count <= i < keyframes.Length ==> keyframes[i] == None)
    }

    constructor ()
      ensures Valid() && fresh(keyframes)
      ensures keyframes.Length == DefaultArraySize && Live == []
    {
      keyframes := new Option<Keyframe>[DefaultArraySize](_ => None);
      count := 0;
      Live := [];
    }

    /** Whether a removal has left the array less than a quarter full. */
    predicate CanReduceKeyframesArraySize(): (r: bool)
      reads this
      ensures r ==> 4 <= keyframes.Length && count < keyframes.Length / 2
    {
      count < keyframes.Length / 4
    }

    /**
     * Appends a keyframe, doubling the capacity first when the array is full.
     * Callers are expected to append in time order; doing so keeps the live
     * times sorted.
     */
    method AddKeyframe(x: real, y: real, z: real, time: real)
      requires Valid()
      modifies this, keyframes
      ensures Valid()
      ensures Live == old(Live) + [Keyframe(x, y, z, time)]
      ensures old(count) < old(keyframes.Length) ==> keyframes == old(keyframes)
      ensures old(count) == old(keyframes.Length) ==>
                fresh(keyframes) && keyframes.Length == 2 * old(keyframes.Length)
      ensures Sorted(old(Live)) && (old(count) == 0 || old(Live)[old(count) - 1].time <= time) ==>
                Sorted(Live)
    {
      if count == keyframes.Length {
        DoubleArraySize();
      }
      var k := Keyframe(x, y, z, time);
      keyframes[count] := Some(k);
      count := count + 1;
      if Sorted(Live) && (|Live| == 0 || Live[|Live| - 1].time <= time) {
        AppendKeepsSorted(Live, k);
      }
      Live := Live + [k];
    }

    /** Moves the keyframes into a fresh array of twice the capacity, at the same indices. */
    method DoubleArraySize()
      requires Valid()
      modifies this
      ensures Valid()
      ensures fresh(keyframes) && keyframes.Length == 2 * old(keyframes.Length)
      ensures count == old(count) && Live == old(Live)
    {
      var newKeyframes := new Option<Keyframe>[keyframes.Length * 2](_ => None);
      CopyTo(keyframes, newKeyframes);
      keyframes := newKeyframes;
    }

    /**
     * Appends `samples` in order after growing the array at most once, to a
     * capacity that holds them all, so none of the appends has to grow it.
     */
    method AddKeyframesInBulk(samples: seq<Keyframe>)
      requires Valid()
      modifies this, keyframes
      ensures Valid()
      ensures Live == old(Live) + samples
      ensures keyframes.Length == BulkCapacity(old(keyframes.Length), old(count), |samples|)
      ensures |samples| <= old(keyframes.Length) - old(count) ==> keyframes == old(keyframes)
      ensures |samples| > old(keyframes.Length) - old(count) ==> fresh(keyframes)
    {
      var extraArraySize := |samples| - (keyframes.Length - count);
      if extraArraySize > 0 {
        var finalArray := new Option<Keyframe>[(keyframes.Length + extraArraySize) * 2](_ => None);
        CopyTo(keyframes, finalArray);
        keyframes := finalArray;
      }
      ghost var presized := keyframes;
      for i := 0 to |samples|
        invariant Valid()
        invariant keyframes == presized
        invariant Live == old(Live) + samples[..i]
        invariant count + (|samples| - i) <= keyframes.Length
      {
        AddKeyframe(samples[i].x, samples[i].y, samples[i].z, samples[i].time);
        assert samples[..i + 1] == samples[..i] + [samples[i]];
      }
      assert samples[..|samples|] == samples;
    }

    /**
     * Deletes the keyframe at `index`, shifting the later ones down by one and
     * clearing the freed slot, then shrinks the array if it is under a quarter
     * full. An index outside the live range changes nothing.
     */
    method RemoveKeyframe(index: int)
      requires Valid()
      modifies this, keyframes
      ensures Valid()
      ensures !(0 <= index < old(count)) ==>
                count == old(count) && Live == old(Live) && keyframes == old(keyframes) && keyframes[..] == old(keyframes[..])
      ensures 0 <= index < old(count) ==> Live == RemoveAt(old(Live), index)
      ensures 0 <= index < old(count) && count < old(keyframes.Length) / 4 ==>
                fresh(keyframes) && keyframes.Length == old(keyframes.Length) / 2
      ensures 0 <= index < old(count) && old(keyframes.Length) / 4 <= count ==>
                keyframes == old(keyframes)
      ensures Sorted(old(Live)) ==> Sorted(Live)
    {
      if index < 0 || index >= count {
        return;
      }
      ShiftLeft(keyframes, index, count);
      count := count - 1;
      keyframes[count] := None;
      if Sorted(Live) {
        RemoveKeepsSorted(Live, index);
      }
      Live := RemoveAt(Live, index);
      ReduceKeyframesArraySize();
    }

    /**
     * Halves the capacity when the array is under a quarter full, keeping the
     * live keyframes at their indices; otherwise leaves the array alone.
     */
    method ReduceKeyframesArraySize()
      requires Valid()
      modifies this
      ensures Valid()
      ensures count == old(count) && Live == old(Live)
      ensures old(CanReduceKeyframesArraySize()) ==>
                fresh(keyframes) && keyframes.Length == old(keyframes.Length) / ReduceArraySizeFactor
      ensures !old(CanReduceKeyframesArraySize()) ==> keyframes == old(keyframes)
    {
      if !CanReduceKeyframesArraySize() {
        return;
      }
      var newArray := new Option<Keyframe>[keyframes.Length / ReduceArraySizeFactor](_ => None);
      for i := 0 to count
        modifies newArray
        invariant forall j :: 0 <= j < i ==> newArray[j] == keyframes[j]
        invariant forall j :: i <= j < newArray.Length ==> newArray[j] == None
      {
        newArray[i] := keyframes[i];
      }
      keyframes := newArray;
    }

    /**
     * The last keyframe whose time does not exceed `nearestToTime`, found by
     * binary search; a query at or before the first keyframe gets the first
     * keyframe, and only an empty store answers None. The search is only
     * correct when the live times are sorted.
     */
    method FindNearestKeyframe(nearestToTime: real) returns (r: Option<Keyframe>)
      requires Valid()
      ensures r.None? <==> |Live| == 0
      ensures r.Some? ==> r.value in Live
      ensures |Live| > 0 && nearestToTime <= Live[0].time ==> r == Some(Live[0])
      ensures Sorted(Live) && |Live| > 0 && Live[0].time < nearestToTime ==>
                exists k :: NearestPreceding(Live, nearestToTime, k) && r == Some(Live[k])
    {
      if count == 0 {
        return None;
      }
      if nearestToTime <= keyframes[0].value.time {
        return keyframes[0];
      }
      var low, high := 0, count - 1;
      while low <= high
        invariant 0 <= low <= high + 1 <= count
        invariant Sorted(Live) ==> forall j :: 0 <= j < low ==> Live[j].time < nearestToTime
        invariant Sorted(Live) ==> forall j :: high < j < count ==> nearestToTime < Live[j].time
        decreases high - low
      {
        var mid := (low + high) / 2;
        var midTime := keyframes[mid].value.time;
        if midTime == nearestToTime {
          assert NearestPreceding(Live, nearestToTime, mid);
          return keyframes[mid];
        }
        if midTime < nearestToTime {
          low := mid + 1;
        } else {
          high := mid - 1;
        }
      }
      if high >= 0 {
        assert Sorted(Live) ==> NearestPreceding(Live, nearestToTime, high);
        r := keyframes[high];
      } else {
        r := keyframes[0];
      }
    }
  }
}
