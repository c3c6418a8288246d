/**
  A growable array of integers with a positional cursor (Array.h).

  The array owns a buffer `data` of `capacity` cells whose first `size` cells are the live
  elements; the ghost field `Contents` is that live prefix.  Mutators shift elements inside the
  buffer and grow it by doubling when it is full.  The loops here are the intended ones (the
  index-preserving copy and the size - index - 1 element shift of the commented-out memcpy and
  memmove); the loops as they are written are modelled in module ArrayDefects.
*/
module GrowableArray {
  import opened Sequences

  /** The doubling loop of reserve: double c until it reaches n (the starting c is never compared with n). */
  function Doubled(c: nat, n: nat): (r: nat)
    requires c > 0
    ensures r >= n && r >= 2 * c
    decreases n - c
  {
    if 2 * c >= n then 2 * c else Doubled(2 * c, n)
  }

  /** The capacity reserve(n) leaves behind, starting from capacity cap: unchanged when cap
      already covers n, otherwise the first doubling of max(cap, 2) that covers n. */
  function Grown(cap: nat, n: nat): (r: nat)
    ensures r >= n && r >= cap
    ensures cap < n ==> r >= 2 * cap && (cap == 0 ==> r >= 4)
  {
    if cap < n then Doubled(if cap == 0 then 2 else cap, n) else cap
  }

  /** The doubling stops as soon as it covers n: the result is the first doubling, or less
      than twice n. */
  lemma {:induction false} DoubledIsFirstCover(c: nat, n: nat)
    requires c > 0
    ensures Doubled(c, n) == 2 * c || Doubled(c, n) < 2 * n
    decreases n - c
  {
    if 2 * c < n {
      DoubledIsFirstCover(2 * c, n);
    }
  }

  /** Growth is never more than one doubling past what was asked for. */
  lemma GrownIsTight(cap: nat, n: nat)
    requires cap < n
    ensures Grown(cap, n) == 2 * (if cap == 0 then 2 else cap) || Grown(cap, n) < 2 * n
  {
    DoubledIsFirstCover(if cap == 0 then 2 else cap, n);
  }

  /** Reserving again for a size already covered changes nothing. */
  lemma GrownIdempotent(cap: nat, n: nat)
    ensures Grown(Grown(cap, n), n) == Grown(cap, n)
  {
  }

  class Array {
    ghost var Contents: seq<int>
    ghost var Repr: set<object>

    var data: array<int>
    var size: nat
    var capacity: nat

    ghost predicate Valid()
      reads this, Repr
      ensures Valid() ==> this in Repr
    {
      this in Repr && data in Repr &&
      data.Length == capacity && size <= capacity &&
      Contents == data[..size]
    }

    /** Array(): no elements and no buffer yet. */
    constructor ()
      ensures Valid() && fresh(Repr)
      ensures Contents == [] && capacity == 0
    {
      data := new int[0];
      size, capacity := 0, 0;
      Contents := [];
      Repr := {this, data};
    }

    /** Array(capacity) as intended: no elements and a buffer of the requested capacity. */
    constructor WithCapacity(n: nat)
      ensures Valid() && fresh(Repr)
      ensures Contents == [] && capacity == n
    {
      data := new int[n];
      size, capacity := 0, n;
      Contents := [];
      Repr := {this, data};
    }

    /** reserve(n): make room for n elements, keeping the elements where they are. */
    method Reserve(n: nat)
      requires Valid()
      modifies Repr
      ensures Valid() && fresh(Repr - old(Repr))
      ensures Contents == old(Contents) && capacity == Grown(old(capacity), n)
    {
      if capacity < n {
        var newCapacity := if capacity == 0 then 2 else capacity;
        ghost var goal := Doubled(newCapacity, n);
        newCapacity := 2 * newCapacity;
        while newCapacity < n
          invariant newCapacity > 0
          invariant goal == if newCapacity >= n then newCapacity else Doubled(newCapacity, n)
          decreases n - newCapacity
        {
          newCapacity := 2 * newCapacity;
        }
        var newData := new int[newCapacity];
        if capacity != 0 {
          var i := 0;
          while i < size
            invariant 0 <= i <= size
            invariant newData[..i] == data[..i]
            modifies newData
          {
            newData[i] := data[i];
            i := i + 1;
          }
        }
        capacity := newCapacity;
        data := newData;
        Repr := {this, newData};
      }
    }

    /** insert(index, value): value goes to index, later elements move up by one. */
    method Insert(index: int, value: int)
      requires Valid() && 0 <= index <= |Contents|
      modifies Repr
      ensures Valid() && fresh(Repr - old(Repr))
      ensures Contents == InsertAt(old(Contents), index, value)
      ensures capacity == Grown(old(capacity), |old(Contents)| + 1)
    {
      Reserve(size + 1);
      ghost var c := Contents;
      var i := size;
      while i > index
        invariant index <= i <= size
        invariant forall k :: 0 <= k < i ==> data[k] == c[k]
        invariant forall k :: i < k <= size ==> data[k] == c[k - 1]
        modifies data
      {
        data[i] := data[i - 1];
        i := i - 1;
      }
      data[index] := value;
      size := size + 1;
      Contents := InsertAt(c, index, value);
    }

    /** insert(value): append at the end. */
    method Append(value: int)
      requires Valid()
      modifies Repr
      ensures Valid() && fresh(Repr - old(Repr))
      ensures Contents == old(Contents) + [value]
      ensures capacity == Grown(old(capacity), |old(Contents)| + 1)
    {
      InsertAtEnds(Contents, value);
      Insert(size, value);
    }

    /** remove(index): drop the element at index, later elements move down by one. */
    method Remove(index: int)
      requires Valid() && 0 <= index < |Contents|
      modifies Repr
      ensures Valid() && Repr == old(Repr)
      ensures Contents == RemoveAt(old(Contents), index) && capacity == old(capacity)
    {
      ghost var c := Contents;
      var i := index;
      while i < size - 1
        invariant index <= i <= size - 1
        invariant forall k :: 0 <= k < index ==> data[k] == c[k]
        invariant forall k :: index <= k < i ==> data[k] == c[k + 1]
        invariant forall k :: i <= k < size ==> data[k] == c[k]
        modifies data
      {
        data[i] := data[i + 1];
        i := i + 1;
      }
      size := size - 1;
      Contents := RemoveAt(c, index);
    }

    /** operator[] read. */
    method At(index: int) returns (x: int)
      requires Valid() && 0 <= index < |Contents|
      ensures x == Contents[index]
    {
      x := data[index];
    }

    /** operator[] write through the returned reference. */
    method Set(index: int, value: int)
      requires Valid() && 0 <= index < |Contents|
      modifies Repr
      ensures Valid() && Repr == old(Repr)
      ensures Contents == old(Contents)[index := value] && capacity == old(capacity)
    {
      data[index] := value;
      Contents := Contents[index := value];
    }

    /** size(). */
    method Size() returns (n: int)
      requires Valid()
      ensures n == |Contents|
    {
      n := size;
    }

    /** data(): the buffer itself, whose first size cells are the elements. */
    method Data() returns (d: array<int>)
      requires Valid()
      ensures d.Length == capacity && |Contents| <= d.Length && d[..|Contents|] == Contents
    {
      d := data;
    }

    /** iterator(): a cursor at the first position. */
    method Iterator() returns (it: ArrayIterator)
      requires Valid()
      ensures fresh(it) && it.Valid() && it.owner == this && it.pos == 0
    {
      it := new ArrayIterator(this);
    }
  }

  /** Array::Iterator: a position in an array; every access goes through the owner. */
  class ArrayIterator {
    var owner: Array
    var pos: nat

    ghost predicate Valid()
      reads this, owner, owner.Repr
    {
      owner.Valid() && this !in owner.Repr
    }

    constructor (owner: Array)
      requires owner.Valid()
      ensures Valid() && this.owner == owner && pos == 0
    {
      this.owner := owner;
      pos := 0;
    }

    /** get(): the element under the cursor. */
    method Get() returns (x: int)
      requires Valid() && pos < |owner.Contents|
      ensures x == owner.Contents[pos]
    {
      x := owner.At(pos);
    }

    /** set(value): overwrite the element under the cursor. */
    method Set(value: int)
      requires Valid() && pos < |owner.Contents|
      modifies owner.Repr
      ensures Valid() && owner.Contents == old(owner.Contents)[pos := value]
      ensures owner.Repr == old(owner.Repr) && owner.capacity == old(owner.capacity)
    {
      owner.Set(pos, value);
    }

    /** insert(value): insert before the cursor; the cursor keeps its index and so now
        stands on the new element. */
    method Insert(value: int)
      requires Valid() && pos <= |owner.Contents|
      modifies owner.Repr
      ensures Valid() && owner.Contents == InsertAt(old(owner.Contents), pos, value)
      ensures fresh(owner.Repr - old(owner.Repr))
      ensures owner.capacity == Grown(old(owner.capacity), |old(owner.Contents)| + 1)
      ensures pos < |owner.Contents| && owner.Contents[pos] == value
    {
      owner.Insert(pos, value);
    }

    /** remove(): remove the element under the cursor; the cursor keeps its index and so now
        stands on the element that followed. */
    method Remove()
      requires Valid() && pos < |owner.Contents|
      modifies owner.Repr
      ensures Valid() && owner.Contents == RemoveAt(old(owner.Contents), pos)
      ensures owner.Repr == old(owner.Repr) && owner.capacity == old(owner.capacity)
      ensures pos + 1 < |old(owner.Contents)| ==> owner.Contents[pos] == old(owner.Contents)[pos + 1]
    {
      owner.Remove(pos);
    }

    /** next(): step forward; the new position must be inside the array. */
    method Next()
      requires Valid() && pos + 1 < |owner.Contents|
      modifies this
      ensures Valid() && owner == old(owner) && pos == old(pos) + 1
    {
      pos := pos + 1;
    }

    /** prev(): step back; the cursor must not be at the first position. */
    method Prev()
      requires Valid() && pos > 0
      modifies this
      ensures Valid() && owner == old(owner) && pos == old(pos) - 1
    {
      pos := pos - 1;
    }

    /** toIndex(index): jump to a position inside the array. */
    method ToIndex(index: int)
      requires Valid() && 0 <= index < |owner.Contents|
      modifies this
      ensures Valid() && owner == old(owner) && pos == index
    {
      pos := index;
    }

    /** hasNext(): a further position exists. */
    method HasNext() returns (b: bool)
      requires Valid()
      ensures b <==> pos + 1 < |owner.Contents|
    {
      var n := owner.Size();
      b := pos + 1 < n;
    }

    /** hasPrev(): the cursor is past the first position. */
    method HasPrev() returns (b: bool)
      requires Valid()
      ensures b <==> pos > 0
    {
      b := pos > 0;
    }
  }
}
