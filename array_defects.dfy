/**
  The buffer operations of Array.h exactly as they are written, on values.

  A buffer state records the cells (None for a null mData), the live size and the recorded
  capacity.  An operation yields None when the code as written would read or write outside the
  buffer or through the null pointer.  Each defect is shown by a lemma with a concrete input;
  the corrected operations are the methods of GrowableArray.Array.
*/
module ArrayDefects {
  import opened Sequences
  import opened GrowableArray

  datatype Option<T> = None | Some(value: T)

  datatype Buffer = Buffer(cells: Option<seq<int>>, size: nat, capacity: nat)

  /** Cells, when present, match the recorded capacity; no cells means no elements. */
  predicate Consistent(b: Buffer)
  {
    b.size <= b.capacity &&
    match b.cells
    case Some(c) => |c| == b.capacity
    case None => b.size == 0
  }

  /** The live elements. */
  function Live(b: Buffer): seq<int>
    requires Consistent(b)
  {
    match b.cells
    case Some(c) => c[..b.size]
    case None => []
  }

  /** The copy loop of reserve as written: new cell i receives old cell i + 1, for i below
      size.  None when that reads one past the end of the old cells, which happens exactly
      when there is at least one element and the old cells are full. */
  function MigrateAsWritten(cells: seq<int>, size: nat): (r: Option<seq<int>>)
    requires size <= |cells|
    ensures r.None? <==> 0 < size == |cells|
    ensures r.Some? ==> |r.value| == size && forall i :: 0 <= i < size ==> r.value[i] == cells[i + 1]
  {
    if size == 0 then Some([]) else if size < |cells| then Some(cells[1..size + 1]) else None
  }

  /** reserve(n) as written.  Fresh cells are modelled as 0.  Without cells there are no
      elements, so the copy loop reads nothing. */
  function ReserveAsWritten(b: Buffer, n: nat): (r: Option<Buffer>)
    requires Consistent(b)
    ensures r.Some? ==> Consistent(r.value) && r.value.size == b.size
    ensures r.Some? ==> r.value.capacity == Grown(b.capacity, n)
  {
    if b.capacity < n then
      var newCapacity := Grown(b.capacity, n);
      if b.capacity != 0 then
        match b.cells
        case None => Some(Buffer(Some(seq(newCapacity, _ => 0)), b.size, newCapacity))
        case Some(c) =>
          match MigrateAsWritten(c, b.size)
          case None => None
          case Some(m) => Some(Buffer(Some(m + seq(newCapacity - b.size, _ => 0)), b.size, newCapacity))
      else
        Some(Buffer(Some(seq(newCapacity, _ => 0)), b.size, newCapacity))
    else
      Some(b)
  }

  /** insert(index, value) as written: reserve(size + 1), then the (correct) shift loop and
      the store. */
  function InsertAsWritten(b: Buffer, index: int, value: int): (r: Option<Buffer>)
    requires Consistent(b) && 0 <= index <= b.size
    ensures r.Some? ==> Consistent(r.value) && r.value.size == b.size + 1
  {
    match ReserveAsWritten(b, b.size + 1)
    case None => None
    case Some(g) =>
      match g.cells
      case None => None
      case Some(c) =>
        Some(Buffer(Some(c[..index] + [value] + c[index..b.size] + c[b.size + 1..]), b.size + 1, g.capacity))
  }

  /** remove(index) as written: the loop runs while i < size + 1 and copies cell i + 1 into
      cell i, so it reads cell size + 1 and writes cell size.  None when that leaves the
      buffer. */
  function RemoveAsWritten(b: Buffer, index: int): (r: Option<Buffer>)
    requires Consistent(b) && 0 <= index < b.size
    ensures r.None? <==> b.size + 2 > b.capacity
    ensures r.Some? ==> Consistent(r.value) && r.value.size == b.size - 1
  {
    var c := b.cells.value;
    if b.size + 2 <= b.capacity then
      Some(Buffer(Some(c[..index] + c[index + 1..b.size + 2] + c[b.size + 1..]), b.size - 1, b.capacity))
    else
      None
  }

  /** Array(capacity) as written: the capacity is recorded before reserve(capacity) runs,
      which then finds nothing to do, so no cells are allocated. */
  function ConstructAsWritten(n: nat): (b: Buffer)
    ensures Consistent(b) && Live(b) == []
    ensures b.cells.None? && b.capacity == n
  {
    Buffer(None, 0, n)
  }

  /** When the first size + 1 cells are all there, the as-written removal leaves the right
      live elements: only its bound is wrong. */
  lemma RemoveAsWrittenLiveAgrees(b: Buffer, index: int)
    requires Consistent(b) && 0 <= index < b.size && b.size + 2 <= b.capacity
    ensures RemoveAsWritten(b, index).Some?
    ensures Live(RemoveAsWritten(b, index).value) == RemoveAt(Live(b), index)
  {
    var c := b.cells.value;
    var r := RemoveAsWritten(b, index).value;
    assert Live(r) == (c[..index] + c[index + 1..b.size + 2] + c[b.size + 1..])[..b.size - 1];
    assert forall k :: 0 <= k < b.size - 1 ==> Live(r)[k] == RemoveAt(Live(b), index)[k];
  }

  /** When the buffer need not grow, the as-written insertion leaves the right live
      elements. */
  lemma InsertAsWrittenLiveAgrees(b: Buffer, index: int, value: int)
    requires Consistent(b) && 0 <= index <= b.size && b.size < b.capacity && b.cells.Some?
    ensures InsertAsWritten(b, index, value).Some?
    ensures Live(InsertAsWritten(b, index, value).value) == InsertAt(Live(b), index, value)
  {
    var c := b.cells.value;
    var r := InsertAsWritten(b, index, value).value;
    assert Live(r) == (c[..index] + [value] + c[index..b.size] + c[b.size + 1..])[..b.size + 1];
    assert forall k :: 0 <= k < b.size + 1 ==> Live(r)[k] == InsertAt(Live(b), index, value)[k];
  }

  /** Appending to a full buffer makes reserve read one past its end. */
  lemma InsertIntoFullAsWrittenFails(b: Buffer, index: int, value: int)
    requires Consistent(b) && 0 < b.size == b.capacity && 0 <= index <= b.size
    ensures InsertAsWritten(b, index, value).None?
  {
  }

  /** Four appends to an empty array fill the four cells of the first buffer; the fifth
      append fails, where the intended reserve keeps all four elements in a buffer of 8. */
  lemma FifthAppendAsWrittenFails(x0: int, x1: int, x2: int, x3: int, x4: int)
    ensures var b := ConstructAsWritten(0);
      var b1 := InsertAsWritten(b, 0, x0);
      b1.Some? &&
      var b2 := InsertAsWritten(b1.value, 1, x1);
      b2.Some? &&
      var b3 := InsertAsWritten(b2.value, 2, x2);
      b3.Some? &&
      var b4 := InsertAsWritten(b3.value, 3, x3);
      b4.Some? && Live(b4.value) == [x0, x1, x2, x3] && b4.value.capacity == 4 &&
      InsertAsWritten(b4.value, 4, x4).None?
  {
    var b1 := InsertAsWritten(ConstructAsWritten(0), 0, x0).value;
    assert b1.capacity == 4 && Live(b1) == [x0];
    var b2 := InsertAsWritten(b1, 1, x1).value;
    assert Live(b2) == [x0, x1];
    var b3 := InsertAsWritten(b2, 2, x2).value;
    assert Live(b3) == [x0, x1, x2];
    var b4 := InsertAsWritten(b3, 3, x3).value;
    assert Live(b4) == [x0, x1, x2, x3];
    InsertIntoFullAsWrittenFails(b4, 4, x4);
  }

  /** An explicit reserve on a buffer that is not full shifts the elements down by one: the
      first element is lost. */
  lemma ReserveAsWrittenLosesFirst()
    ensures var r := ReserveAsWritten(Buffer(Some([1, 2, 0, 0]), 2, 4), 5);
      r.Some? && Live(r.value) == [2, 0] && r.value.capacity == 8
  {
    var r := ReserveAsWritten(Buffer(Some([1, 2, 0, 0]), 2, 4), 5).value;
    assert r.cells.value == [2, 0] + seq(6, _ => 0);
  }

  /** Three appends and then remove(0), as in the "remove from begin" scenario: the loop
      reads cell 4 of a four-cell buffer. */
  lemma RemoveAfterThreeAppendsAsWrittenFails(x0: int, x1: int, x2: int)
    ensures var b1 := InsertAsWritten(ConstructAsWritten(0), 0, x0);
      b1.Some? &&
      var b2 := InsertAsWritten(b1.value, 1, x1);
      b2.Some? &&
      var b3 := InsertAsWritten(b2.value, 2, x2);
      b3.Some? && Live(b3.value) == [x0, x1, x2] &&
      RemoveAsWritten(b3.value, 0).None?
  {
    var b1 := InsertAsWritten(ConstructAsWritten(0), 0, x0).value;
    assert b1.capacity == 4 && Live(b1) == [x0];
    var b2 := InsertAsWritten(b1, 1, x1).value;
    assert Live(b2) == [x0, x1];
    var b3 := InsertAsWritten(b2, 2, x2).value;
    assert Live(b3) == [x0, x1, x2];
  }

  /** After Array(n) with n > 0 the first insertion stores through the null buffer. */
  lemma ConstructAsWrittenFirstInsertFails(n: nat, value: int)
    requires n > 0
    ensures InsertAsWritten(ConstructAsWritten(n), 0, value).None?
  {
  }
}
