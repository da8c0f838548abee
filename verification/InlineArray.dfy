/** The arrays of include/uacpi/internal/dynamic_array.h: the first elements live
    inside the structure, the others in a heap block that grows on demand. */
module InlineArray {

  /** `size` elements spread over a full inline part and a heap part. */
  function Join<T>(inl: seq<T>, dyn: seq<T>, size: nat): (s: seq<T>)
    requires size <= |inl| + |dyn|
    ensures |s| == size
    ensures forall k: nat | k < size :: s[k] == if k < |inl| then inl[k] else dyn[k - |inl|]
  {
    if size <= |inl| then inl[..size] else inl + dyn[..size - |inl|]
  }

  /** The first `n` elements without element `i`; the place it frees keeps its value. */
  function Closed<T>(s: seq<T>, i: nat, n: nat): (t: seq<T>)
    requires i < n <= |s|
    ensures |t| == |s|
  {
    s[..i] + s[i + 1..n] + s[n - 1..]
  }

  /** `memmove` of elements `i + 1 .. n` one place down. */
  method CloseGap<T>(a: array<T>, i: nat, n: nat)
    requires i < n <= a.Length
    modifies a
    ensures a[..] == Closed(old(a[..]), i, n)
  {
    forall k | i <= k < n - 1 {
      a[k] := a[k + 1];
    }
  }

  // The three ways an element can leave: within the inline part, within the heap
  // part, and across the split, when the first heap element moves inline.

  lemma InlineWithout<T>(inl: seq<T>, dyn: seq<T>, size: nat, i: nat)
    requires i < size <= |inl|
    ensures Join(Closed(inl, i, size), dyn, size - 1) == Join(inl, dyn, size)[..i] + Join(inl, dyn, size)[i + 1..]
  {
    assert Join(inl, dyn, size)[i + 1..] == inl[i + 1..size];
  }

  lemma HeapWithout<T>(inl: seq<T>, dyn: seq<T>, count: nat, j: nat)
    requires j < count <= |dyn|
    ensures Join(inl, Closed(dyn, j, count), |inl| + count - 1) ==
            Join(inl, dyn, |inl| + count)[..|inl| + j] + Join(inl, dyn, |inl| + count)[|inl| + j + 1..]
  {
    var s := Join(inl, dyn, |inl| + count);
    assert s[..|inl| + j] == inl + dyn[..j];
    assert s[|inl| + j + 1..] == dyn[j + 1..count];
    assert Closed(dyn, j, count)[..count - 1] == dyn[..j] + dyn[j + 1..count];
  }

  lemma AcrossWithout<T>(inl: seq<T>, dyn: seq<T>, count: nat, i: nat)
    requires i < |inl| && 0 < count <= |dyn|
    ensures Join(Closed(inl, i, |inl|)[|inl| - 1 := dyn[0]], Closed(dyn, 0, count), |inl| + count - 1) ==
            Join(inl, dyn, |inl| + count)[..i] + Join(inl, dyn, |inl| + count)[i + 1..]
  {
    hide Closed;
    var inl', dyn' := Closed(inl, i, |inl|)[|inl| - 1 := dyn[0]], Closed(dyn, 0, count);
    PulledInline(inl, dyn[0], i);
    PulledHeap(dyn, count);
    assert Join(inl', dyn', |inl| + count - 1) == inl' + dyn'[..count - 1];
    SplitAt(inl, dyn[..count], i);
    assert Join(inl, dyn, |inl| + count) == inl + dyn[..count];
  }

  lemma PulledInline<T>(inl: seq<T>, x: T, i: nat)
    requires i < |inl|
    ensures Closed(inl, i, |inl|)[|inl| - 1 := x] == inl[..i] + inl[i + 1..] + [x]
  {
  }

  lemma PulledHeap<T>(dyn: seq<T>, count: nat)
    requires 0 < count <= |dyn|
    ensures Closed(dyn, 0, count)[..count - 1] == dyn[1..count]
  {
  }

  lemma SplitAt<T>(a: seq<T>, b: seq<T>, i: nat)
    requires i < |a| && 0 < |b|
    ensures (a + b)[..i] + (a + b)[i + 1..] == (a[..i] + a[i + 1..] + [b[0]]) + b[1..]
  {
  }

  class InlineArray<T(0)> {
    const inlineStorage: array<T>
    var dynamicStorage: array?<T>
    var dynamicCapacity: nat
    var sizeIncludingInline: nat

    ghost predicate Valid()
      reads this
    {
      && 0 < inlineStorage.Length
      && dynamicStorage != inlineStorage
      && dynamicCapacity == (if dynamicStorage == null then 0 else dynamicStorage.Length)
      && sizeIncludingInline <= inlineStorage.Length + dynamicCapacity
    }

    /** The one sequence the two storages stand for. */
    ghost function Contents(): (s: seq<T>)
      reads this, inlineStorage, dynamicStorage
      requires Valid()
      ensures |s| == sizeIncludingInline
    {
      Join(inlineStorage[..], if dynamicStorage == null then [] else dynamicStorage[..], sizeIncludingInline)
    }

    constructor (inlineCapacity: nat)
      requires 0 < inlineCapacity
      ensures Valid() && fresh(inlineStorage) && dynamicStorage == null && Contents() == []
    {
      inlineStorage := new T[inlineCapacity];
      dynamicStorage, dynamicCapacity, sizeIncludingInline := null, 0, 0;
    }

    method At(idx: nat) returns (found: bool, value: T)
      requires Valid()
      ensures found == (idx < |Contents()|)
      ensures found ==> value == Contents()[idx]
    {
      value := inlineStorage[0];
      if idx >= sizeIncludingInline {
        return false, value;
      }
      if idx < inlineStorage.Length {
        return true, inlineStorage[idx];
      }
      return true, dynamicStorage[idx - inlineStorage.Length];
    }

    method Last() returns (found: bool, value: T)
      requires Valid()
      ensures found == (Contents() != [])
      ensures found ==> value == Contents()[|Contents()| - 1]
    {
      if sizeIncludingInline == 0 {
        // `size - 1` wraps to the largest index, which is out of range.
        return false, inlineStorage[0];
      }
      found, value := At(sizeIncludingInline - 1);
    }

    method Pop()
      requires Valid()
      modifies this
      ensures Valid() && dynamicStorage == old(dynamicStorage)
      ensures sizeIncludingInline == if old(sizeIncludingInline) == 0 then 0 else old(sizeIncludingInline) - 1
      ensures Contents() == if old(Contents()) == [] then [] else old(Contents())[..|old(Contents())| - 1]
    {
      if sizeIncludingInline == 0 {
        return;
      }
      sizeIncludingInline := sizeIncludingInline - 1;
    }

    /** The heap block grows by half, and by one element at least. */
    static function GrownCapacity(dynamicCapacity: nat, inlineCapacity: nat): (c: nat)
      requires 0 < inlineCapacity
      ensures dynamicCapacity < c
    {
      if dynamicCapacity == 0 then inlineCapacity
      else dynamicCapacity + if dynamicCapacity / 2 == 0 then 1 else dynamicCapacity / 2
    }

    /** Appends a slot and stores `value` in it. Without room the heap block is
        replaced, which may fail (`canAllocate` is the allocator's answer). */
    method Push(value: T, canAllocate: bool) returns (ok: bool)
      requires Valid()
      modifies this, inlineStorage, dynamicStorage
      ensures Valid() && (dynamicStorage == old(dynamicStorage) || fresh(dynamicStorage))
      ensures ok == (canAllocate || old(sizeIncludingInline) < inlineStorage.Length + old(dynamicCapacity))
      ensures Contents() == if ok then old(Contents()) + [value] else old(Contents())
    {
      if sizeIncludingInline >= inlineStorage.Length {
        var dynamicSize := sizeIncludingInline - inlineStorage.Length;
        if dynamicSize == dynamicCapacity {
          if !canAllocate {
            return false;
          }
          var grown := new T[GrownCapacity(dynamicCapacity, inlineStorage.Length)];
          if dynamicStorage != null {
            forall k | 0 <= k < dynamicSize {
              grown[k] := dynamicStorage[k];
            }
          }
          dynamicCapacity := grown.Length;
          dynamicStorage := grown;
        }
        dynamicStorage[dynamicSize] := value;
      } else {
        inlineStorage[sizeIncludingInline] := value;
      }
      sizeIncludingInline := sizeIncludingInline + 1;
      return true;
    }

    /** `held_mutexes_array_remove_idx`: deletes element `i`, whichever storage holds it. */
    method RemoveIdx(i: nat)
      requires Valid() && i < |Contents()|
      modifies this, inlineStorage, dynamicStorage
      ensures Valid() && dynamicStorage == old(dynamicStorage)
      ensures Contents() == old(Contents())[..i] + old(Contents())[i + 1..]
    {
      if i >= inlineStorage.Length {
        RemoveFromHeap(i);
      } else {
        RemoveFromInline(i);
      }
    }

    /** Only the heap part is affected. */
    method RemoveFromHeap(i: nat)
      requires Valid() && inlineStorage.Length <= i < |Contents()|
      modifies this, dynamicStorage
      ensures Valid() && dynamicStorage == old(dynamicStorage)
      ensures Contents() == old(Contents())[..i] + old(Contents())[i + 1..]
    {
      hide Join, Closed;
      var j, count := i - inlineStorage.Length, sizeIncludingInline - inlineStorage.Length;
      HeapWithout(inlineStorage[..], dynamicStorage[..], count, j);
      CloseGap(dynamicStorage, j, count);
      Pop();
    }

    /** The inline part closes the gap, and the first heap element, if there is one,
        moves to its top. */
    method RemoveFromInline(i: nat)
      requires Valid() && i < inlineStorage.Length && i < |Contents()|
      modifies this, inlineStorage, dynamicStorage
      ensures Valid() && dynamicStorage == old(dynamicStorage)
      ensures Contents() == old(Contents())[..i] + old(Contents())[i + 1..]
    {
      hide Join, Closed;
      if sizeIncludingInline > inlineStorage.Length {
        AcrossWithout(inlineStorage[..], dynamicStorage[..], sizeIncludingInline - inlineStorage.Length, i);
        PullInline(i);
      } else {
        InlineWithout(inlineStorage[..], if dynamicStorage == null then [] else dynamicStorage[..],
                      sizeIncludingInline, i);
        CloseGap(inlineStorage, i, sizeIncludingInline);
      }
      Pop();
    }

    /** Closes the gap in both parts, with the first heap element moved across. */
    method PullInline(i: nat)
      requires Valid() && i < inlineStorage.Length < sizeIncludingInline
      modifies inlineStorage, dynamicStorage
      ensures Valid()
      ensures var n := inlineStorage.Length;
              inlineStorage[..] == Closed(old(inlineStorage[..]), i, n)[n - 1 := old(dynamicStorage[0])]
      ensures dynamicStorage[..] == Closed(old(dynamicStorage[..]), 0, sizeIncludingInline - inlineStorage.Length)
    {
      hide Join, Closed;
      var inlineCapacity := inlineStorage.Length;
      CloseGap(inlineStorage, i, inlineCapacity);
      ghost var closed := inlineStorage[..];
      inlineStorage[inlineCapacity - 1] := dynamicStorage[0];
      assert inlineStorage[..] == closed[inlineCapacity - 1 := dynamicStorage[0]];
      CloseGap(dynamicStorage, 0, sizeIncludingInline - inlineCapacity);
    }
  }
}
