/** The ring deque of infra/util/BoundedDeque.hpp. Elements that are not constructed are cells whose
    value does not matter. */
module BoundedDeque {

  /** index(): at most one wrap around. */
  function Index(start: nat, capacity: nat, i: nat): (r: nat)
    requires start < capacity && i <= capacity
    ensures r < capacity
  {
    if start + i < capacity then start + i else start + i - capacity
  }

  function Rotated<T>(ring: seq<T>, k: nat): (r: seq<T>)
    requires k <= |ring|
    ensures |r| == |ring|
  {
    ring[k..] + ring[..k]
  }

  /** Inserting values in the middle. */
  function Inserted<T>(s: seq<T>, at: nat, values: seq<T>): seq<T>
    requires at <= |s|
  {
    s[..at] + values + s[at..]
  }

  function Erased<T>(s: seq<T>, first: nat, last: nat): seq<T>
    requires first <= last <= |s|
  {
    s[..first] + s[last..]
  }

  // ---------------------------------------------------------------------------------------------
  // Steps on the ring of cells
  // ---------------------------------------------------------------------------------------------

  lemma RotatedCell<T>(cells: seq<T>, start: nat, i: nat)
    requires start < |cells| && i < |cells|
    ensures Rotated(cells, start)[i] == cells[Index(start, |cells|, i)]
  {
  }

  lemma RotatedUpdate<T>(cells: seq<T>, start: nat, i: nat, value: T)
    requires start < |cells| && i < |cells|
    ensures Rotated(cells[Index(start, |cells|, i) := value], start) == Rotated(cells, start)[i := value]
  {
  }

  lemma RotatedAgain<T>(cells: seq<T>, start: nat, k: nat)
    requires start < |cells| && k <= |cells|
    ensures Rotated(cells, Index(start, |cells|, k)) == Rotated(Rotated(cells, start), k)
  {
    var a, b := Rotated(cells, Index(start, |cells|, k)), Rotated(Rotated(cells, start), k);
    if start + k < |cells| {
      assert a == cells[start + k..] + cells[..start + k];
      assert Rotated(cells, start)[k..] == cells[start + k..] + cells[..start];
    } else {
      assert Rotated(cells, start)[k..] == cells[start + k - |cells|..start];
      assert Rotated(cells, start)[..k] == cells[start..] + cells[..start + k - |cells|];
    }
  }

  lemma SideBySide<T>(cells: seq<T>, start: nat, from: nat, count: nat)
    requires start < |cells| && from <= |cells|
    requires Index(start, |cells|, from) + count <= |cells| && from + count <= |cells|
    ensures Rotated(cells, start)[from..from + count]
         == cells[Index(start, |cells|, from)..Index(start, |cells|, from) + count]
  {
    var i := Index(start, |cells|, from);
    var a, b := Rotated(cells, start)[from..from + count], cells[i..i + count];
    forall k | 0 <= k < count ensures a[k] == b[k] {
      RotatedCell(cells, start, from + k);
    }
  }

  /** The cells from `low` to `size` have been moved up by n. */
  ghost predicate MovedUp<T>(ring: seq<T>, now: seq<T>, low: nat, size: nat, n: nat) {
    && low <= size && size + n <= |ring| == |now|
    && now[..low] == ring[..low] && now[low + n..size + n] == ring[low..size]
  }

  lemma MoveUpStart<T>(ring: seq<T>, size: nat, n: nat)
    requires size + n <= |ring|
    ensures MovedUp(ring, ring, size, size, n)
  {
  }

  lemma MoveUpStep<T>(ring: seq<T>, now: seq<T>, low: nat, size: nat, n: nat)
    requires MovedUp(ring, now, low, size, n) && low > 0
    ensures MovedUp(ring, now[low - 1 + n := now[low - 1]], low - 1, size, n)
  {
    var next := now[low - 1 + n := now[low - 1]];
    assert now[low - 1] == now[..low][low - 1] == ring[low - 1];
    assert next[low - 1 + n..size + n] == [ring[low - 1]] + now[low + n..size + n];
    assert ring[low - 1..size] == [ring[low - 1]] + ring[low..size];
    assert next[..low - 1] == now[..low][..low - 1];
  }

  /** The cells from `last` to `from` have been moved down to `first`. */
  ghost predicate MovedDown<T>(ring: seq<T>, now: seq<T>, first: nat, last: nat, from: nat) {
    && first <= last <= from <= |ring| == |now|
    && now[..first + (from - last)] == ring[..first] + ring[last..from] && now[from..] == ring[from..]
  }

  lemma MoveDownStart<T>(ring: seq<T>, first: nat, last: nat)
    requires first <= last <= |ring|
    ensures MovedDown(ring, ring, first, last, last)
  {
  }

  lemma MoveDownEnd<T>(ring: seq<T>, now: seq<T>, first: nat, last: nat, size: nat)
    requires MovedDown(ring, now, first, last, size)
    ensures now[..size - (last - first)] == Erased(ring[..size], first, last)
  {
    assert ring[..size][last..] == ring[last..size];
  }

  lemma MoveDownStep<T>(ring: seq<T>, now: seq<T>, first: nat, last: nat, from: nat)
    requires MovedDown(ring, now, first, last, from) && from < |ring|
    ensures MovedDown(ring, now[first + (from - last) := now[from]], first, last, from + 1)
  {
    var at := first + (from - last);
    var next := now[at := now[from]];
    assert now[from] == now[from..][0] == ring[from];
    assert next[..at + 1] == now[..at] + [now[from]];
    assert ring[last..from + 1] == ring[last..from] + [ring[from]];
    assert next[from + 1..] == now[from..][1..] == ring[from + 1..];
  }

  function Filled<T>(ring: seq<T>, at: nat, values: seq<T>, i: nat): seq<T>
    requires at + |values| <= |ring| && i <= |values|
  {
    ring[..at] + values[..i] + ring[at + i..]
  }

  lemma FillStep<T>(ring: seq<T>, at: nat, values: seq<T>, i: nat)
    requires at + |values| <= |ring| && i < |values|
    ensures Filled(ring, at, values, i)[at + i := values[i]] == Filled(ring, at, values, i + 1)
  {
    assert values[..i + 1] == values[..i] + [values[i]];
  }

  /** Room at the front: the ring starts earlier, and what was there follows. */
  lemma InsertedFront<T>(ring: seq<T>, size: nat, values: seq<T>)
    requires size + |values| <= |ring|
    ensures Filled(Rotated(ring, |ring| - |values|), 0, values, |values|)[..size + |values|] == values + ring[..size]
  {
    var rotated := Rotated(ring, |ring| - |values|);
    assert rotated[|values|..] == ring[..|ring| - |values|];
    assert Filled(rotated, 0, values, |values|) == values + ring[..|ring| - |values|];
  }

  lemma InsertedMiddle<T>(ring: seq<T>, moved: seq<T>, at: nat, size: nat, values: seq<T>)
    requires MovedUp(ring, moved, at, size, |values|)
    ensures Filled(moved, at, values, |values|)[..size + |values|] == Inserted(ring[..size], at, values)
  {
    var n := |values|;
    assert Filled(moved, at, values, n)[..size + n] == moved[..at] + values + moved[at + n..size + n];
    assert ring[..size][at..] == ring[at..size];
  }

  class Deque<T> {
    const storage: array<T>
    var start: nat
    var numAllocated: nat

    ghost predicate Valid()
      reads this
    {
      && numAllocated <= storage.Length
      && (start < storage.Length || (storage.Length == 0 && start == 0))
    }

    /** All cells, beginning with the first element. */
    ghost function Ring(): (r: seq<T>)
      reads this, storage
      requires Valid()
      ensures |r| == storage.Length
    {
      Rotated(storage[..], start)
    }

    ghost function Contents(): (r: seq<T>)
      reads this, storage
      requires Valid()
      ensures |r| == numAllocated
    {
      Ring()[..numAllocated]
    }

    constructor (storage: array<T>)
      ensures this.storage == storage && Valid() && Contents() == []
    {
      this.storage, start, numAllocated := storage, 0, 0;
    }

    /** *storage[index(i)] */
    method Get(i: nat) returns (value: T)
      requires Valid() && i < storage.Length
      ensures value == Ring()[i]
    {
      hide Rotated;
      RotatedCell(storage[..], start, i);
      value := storage[Index(start, storage.Length, i)];
    }

    /** Writes or constructs the i-th cell. */
    method Set(i: nat, value: T)
      requires Valid() && i < storage.Length
      modifies storage
      ensures Ring() == old(Ring())[i := value]
    {
      hide Rotated;
      RotatedUpdate(storage[..], start, i, value);
      ghost var cells := storage[..];
      storage[Index(start, storage.Length, i)] := value;
      assert storage[..] == cells[Index(start, storage.Length, i) := value];
    }

    /** start = index(k) */
    method MoveStart(k: nat)
      requires Valid() && k <= storage.Length && storage.Length > 0
      modifies this`start
      ensures Valid() && Ring() == Rotated(old(Ring()), k)
      ensures start == old(Index(start, storage.Length, k))
    {
      hide Rotated;
      RotatedAgain(storage[..], start, k);
      start := Index(start, storage.Length, k);
    }

    method PushBack(value: T)
      requires Valid() && numAllocated < storage.Length
      modifies this`numAllocated, storage
      ensures Valid() && Contents() == old(Contents()) + [value]
    {
      hide Rotated;
      Set(numAllocated, value);
      numAllocated := numAllocated + 1;
    }

    method PushFront(value: T)
      requires Valid() && numAllocated < storage.Length
      modifies this`start, this`numAllocated, storage
      ensures Valid() && Contents() == [value] + old(Contents())
    {
      MoveStart(storage.Length - 1);
      Set(0, value);
      numAllocated := numAllocated + 1;
    }

    method PopFront() returns (value: T)
      requires Valid() && numAllocated > 0
      modifies this`start, this`numAllocated
      ensures Valid() && old(Contents()) == [value] + Contents()
      ensures start == old(Index(start, storage.Length, 1))
    {
      value := Get(0);
      MoveStart(1);
      numAllocated := numAllocated - 1;
    }

    method PopBack() returns (value: T)
      requires Valid() && numAllocated > 0
      modifies this`numAllocated
      ensures Valid() && old(Contents()) == Contents() + [value]
    {
      hide Rotated;
      value := Get(numAllocated - 1);
      numAllocated := numAllocated - 1;
    }

    /** move_up: the elements from `position` on go up by n cells, last one first. */
    method MoveUp(position: nat, n: nat)
      requires Valid() && position <= numAllocated && numAllocated + n <= storage.Length
      modifies this`numAllocated, storage
      ensures Valid() && numAllocated == old(numAllocated) + n
      ensures MovedUp(old(Ring()), Ring(), position, old(numAllocated), n)
    {
      ghost var ring := Ring();
      hide Rotated, MovedUp;
      MoveUpStart(ring, numAllocated, n);
      var copies := numAllocated - position;
      ghost var low, size := numAllocated, numAllocated;
      while copies != 0
        invariant Valid() && numAllocated == size && 0 <= copies && position <= low == position + copies <= size
        invariant MovedUp(ring, Ring(), low, size, n)
        decreases copies
      {
        MoveUpStep(ring, Ring(), low, size, n);
        var copyPosition := position + copies - 1;
        var value := Get(copyPosition);
        Set(copyPosition + n, value);
        copies := copies - 1;
        low := low - 1;
      }
      numAllocated := numAllocated + n;
    }

    /** Writes a range of cells. */
    method Fill(at: nat, values: seq<T>)
      requires Valid() && at + |values| <= storage.Length
      modifies storage
      ensures Ring() == Filled(old(Ring()), at, values, |values|)
    {
      ghost var ring := Ring();
      assert Filled(ring, at, values, 0) == ring;
      hide Rotated, Filled;
      for i := 0 to |values|
        invariant Ring() == Filled(ring, at, values, i)
      {
        FillStep(ring, at, values, i);
        Set(at + i, values[i]);
      }
    }

    method InsertRange(at: nat, values: seq<T>)
      requires Valid() && at <= numAllocated && numAllocated + |values| <= storage.Length
      modifies this`start, this`numAllocated, storage
      ensures Valid() && Contents() == Inserted(old(Contents()), at, values)
    {
      hide Rotated, Filled, MovedUp;
      var n := |values|;
      ghost var ring, size := Ring(), numAllocated;
      if at == 0 && numAllocated != 0 {
        InsertedFront(ring, size, values);
        MoveStart(storage.Length - n);
        numAllocated := numAllocated + n;
        Fill(0, values);
      } else {
        MoveUp(at, n);
        InsertedMiddle(ring, Ring(), at, size, values);
        Fill(at, values);
      }
    }

    /** Erases from the front by moving the start, and elsewhere by moving elements down. */
    method Erase(first: nat, last: nat)
      requires Valid() && first <= last <= numAllocated
      modifies this`start, this`numAllocated, storage
      ensures Valid() && Contents() == Erased(old(Contents()), first, last)
    {
      hide Rotated;
      ghost var contents := Contents();
      if first == 0 {
        EraseFront(last);
      } else {
        MoveDown(first, last);
        numAllocated := numAllocated - (last - first);
      }
    }

    method EraseFront(last: nat)
      requires Valid() && last <= numAllocated
      modifies this`start, this`numAllocated
      ensures Valid() && Contents() == old(Contents())[last..]
      ensures start == if last == 0 then old(start) else old(Index(start, storage.Length, last))
    {
      hide Rotated;
      ghost var contents := Contents();
      var left := last;
      while left != 0
        invariant 0 <= left <= last && Valid() && Contents() == contents[last - left..]
        invariant start == if left == last then old(start) else old(Index(start, storage.Length, last - left))
        decreases left
      {
        var _ := PopFront();
        left := left - 1;
      }
    }

    method MoveDown(first: nat, last: nat)
      requires Valid() && first <= last <= numAllocated
      modifies storage
      ensures Ring()[..numAllocated - (last - first)] == Erased(old(Contents()), first, last)
    {
      ghost var ring := Ring();
      hide Rotated, MovedDown, Erased;
      MoveDownStart(ring, first, last);
      var lower, upper := first, last;
      while upper != numAllocated
        invariant first <= lower && lower + (last - first) == upper <= numAllocated
        invariant MovedDown(ring, Ring(), first, last, upper)
        decreases numAllocated - upper
      {
        MoveDownStep(ring, Ring(), first, last, upper);
        var value := Get(upper);
        Set(lower, value);
        lower, upper := lower + 1, upper + 1;
      }
      MoveDownEnd(ring, Ring(), first, last, numAllocated);
    }

    /** The elements from a position on, as far as they lie side by side. */
    method ContiguousRange(from: nat) returns (range: seq<T>)
      requires Valid() && from <= numAllocated
      ensures from + |range| <= numAllocated && range == Contents()[from..from + |range|]
      ensures |range| == ContiguousSize(start, storage.Length, numAllocated, from)
    {
      hide Rotated;
      if numAllocated == 0 {
        return [];
      }
      var i := Index(start, storage.Length, from);
      var end := if i + numAllocated - from < storage.Length then i + numAllocated - from else storage.Length;
      range := storage[i..end];
      SideBySide(storage[..], start, from, |range|);
      assert storage[..][i..end] == range;
      assert Ring()[..numAllocated][from..from + |range|] == Ring()[from..from + |range|];
    }
  }

  function ContiguousSize(start: nat, capacity: nat, size: nat, from: nat): nat
    requires from <= size <= capacity && (start < capacity || size == 0)
  {
    if size == 0 then 0
    else
      var i := Index(start, capacity, from);
      if i + size - from < capacity then size - from else capacity - i
  }

  /** At most two contiguous ranges cover everything from a position on. */
  lemma TwoRangesCover(start: nat, capacity: nat, size: nat, from: nat)
    requires from <= size <= capacity && (start < capacity || size == 0)
    ensures var first := ContiguousSize(start, capacity, size, from);
            && from + first <= size
            && first + ContiguousSize(start, capacity, size, from + first) == size - from
  {
  }

  // ---------------------------------------------------------------------------------------------
  // Whole runs
  // ---------------------------------------------------------------------------------------------

  datatype Operation<+T> =
    | DoPushFront(value: T) | DoPushBack(value: T) | DoPopFront | DoPopBack
    | DoInsert(at: nat, values: seq<T>) | DoErase(first: nat, last: nat)

  /** What an operation does to a plain sequence; operations that the deque does not allow are skipped. */
  function Apply<T>(s: seq<T>, capacity: nat, op: Operation<T>): seq<T> {
    match op
    case DoPushFront(value) => if |s| < capacity then [value] + s else s
    case DoPushBack(value) => if |s| < capacity then s + [value] else s
    case DoPopFront => if s != [] then s[1..] else s
    case DoPopBack => if s != [] then s[..|s| - 1] else s
    case DoInsert(at, values) => if at <= |s| && |s| + |values| <= capacity then Inserted(s, at, values) else s
    case DoErase(first, last) => if first <= last <= |s| then Erased(s, first, last) else s
  }

  function ApplyAll<T>(s: seq<T>, capacity: nat, ops: seq<Operation<T>>): seq<T>
    decreases |ops|
  {
    if ops == [] then s else Apply(ApplyAll(s, capacity, ops[..|ops| - 1]), capacity, ops[|ops| - 1])
  }

  method Perform<T>(deque: Deque<T>, op: Operation<T>)
    requires deque.Valid()
    modifies deque, deque.storage
    ensures deque.Valid() && deque.Contents() == Apply(old(deque.Contents()), deque.storage.Length, op)
  {
    hide Rotated, Inserted, Erased;
    match op
    case DoPushFront(value) => if deque.numAllocated < deque.storage.Length { deque.PushFront(value); }
    case DoPushBack(value) => if deque.numAllocated < deque.storage.Length { deque.PushBack(value); }
    case DoPopFront => if deque.numAllocated > 0 { var _ := deque.PopFront(); }
    case DoPopBack => if deque.numAllocated > 0 { var _ := deque.PopBack(); }
    case DoInsert(at, values) =>
      if at <= deque.numAllocated && deque.numAllocated + |values| <= deque.storage.Length {
        deque.InsertRange(at, values);
      }
    case DoErase(first, last) =>
      if first <= last <= deque.numAllocated {
        deque.Erase(first, last);
      }
  }

  /** Every sequence of operations acts on the deque as on a plain sequence. */
  method Run<T>(deque: Deque<T>, ops: seq<Operation<T>>)
    requires deque.Valid()
    modifies deque, deque.storage
    ensures deque.Valid() && deque.Contents() == ApplyAll(old(deque.Contents()), deque.storage.Length, ops)
  {
    hide Rotated, Apply;
    ghost var s := deque.Contents();
    for i := 0 to |ops|
      invariant deque.Valid() && deque.Contents() == ApplyAll(s, deque.storage.Length, ops[..i])
    {
      Perform(deque, ops[i]);
      assert ops[..i + 1][..i] == ops[..i];
    }
    assert ops[..|ops|] == ops;
  }
}
