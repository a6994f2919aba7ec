/** erase_heap of infra/util/BoundedPriorityQueue.hpp: an element is removed from any position of a
    binary heap by letting a hole travel up or down until the last element fits into it. */
module BoundedPriorityQueue {

  /** What std::less and every other Compare must be. */
  ghost predicate StrictWeakOrder<T(!new)>(less: (T, T) -> bool) {
    && (forall x :: !less(x, x))
    && (forall x, y, z :: less(x, y) && less(y, z) ==> less(x, z))
    && (forall x, y, z :: less(x, z) ==> less(x, y) || less(y, z))
  }

  function Parent(i: int): int { (i - 1) / 2 }

  /** No element of the first `size` compares greater than its parent. */
  ghost predicate Heap<T>(s: seq<T>, size: int, less: (T, T) -> bool) {
    size <= |s| && forall i :: 0 < i < size ==> 0 <= Parent(i) < i && !less(s[Parent(i)], s[i])
  }

  /** A heap but for the hole at `hole`: across the hole the order still holds. */
  ghost predicate HeapWithHole<T>(s: seq<T>, size: int, hole: int, less: (T, T) -> bool) {
    && 0 <= hole && size <= |s|
    && (forall i :: 0 < i < size && i != hole && Parent(i) != hole ==> 0 <= Parent(i) < i && !less(s[Parent(i)], s[i]))
    && (forall i :: 0 < i < size && Parent(i) == hole && 0 < hole ==>
          0 <= Parent(hole) < size && !less(s[Parent(hole)], s[i]))
  }

  /** Filling the hole with an element no greater than the parent and no smaller than the children
      gives a heap. */
  lemma FillHole<T(!new)>(s: seq<T>, size: nat, hole: nat, x: T, less: (T, T) -> bool)
    requires HeapWithHole(s, size, hole, less) && hole < |s|
    requires 0 < hole < size ==> !less(s[Parent(hole)], x)
    requires forall i :: 0 < i < size && Parent(i) == hole ==> !less(x, s[i])
    ensures Heap(s[hole := x], size, less)
  {
  }

  /** The hole moves to its parent, whose element moves down. */
  lemma HoleUp<T(!new)>(s: seq<T>, size: nat, hole: nat, x: T, less: (T, T) -> bool)
    requires StrictWeakOrder(less) && HeapWithHole(s, size, hole, less) && 0 < hole < size
    requires less(s[Parent(hole)], x)
    ensures var p := Parent(hole); var s' := s[hole := s[p]];
      && 0 <= p < hole && HeapWithHole(s', size, p, less)
      && forall i :: 0 < i < size && Parent(i) == p ==> !less(x, s'[i])
  {
    var p := Parent(hole);
    var s' := s[hole := s[p]];
    forall i | 0 < i < size && Parent(i) == p ensures !less(x, s'[i]) {
      if i != hole { assert !less(s[p], s[i]); }
    }
    forall i | 0 < i < size && Parent(i) == p && 0 < p ensures !less(s'[Parent(p)], s'[i]) {
      assert !less(s[Parent(p)], s[p]);
      if i != hole { assert !less(s[p], s[i]); }
    }
  }

  /** The hole moves to its greater child, which moves up. */
  lemma HoleDown<T(!new)>(s: seq<T>, size: nat, hole: nat, child: nat, x: T, less: (T, T) -> bool)
    requires StrictWeakOrder(less) && HeapWithHole(s, size, hole, less) && hole < child < size && Parent(child) == hole
    requires less(x, s[child])
    requires forall i :: 0 < i < size && Parent(i) == hole ==> !less(s[child], s[i])
    ensures var s' := s[hole := s[child]];
      && HeapWithHole(s', size, child, less) && !less(s'[Parent(child)], x)
  {
    var s' := s[hole := s[child]];
    forall i | 0 < i < size && Parent(i) == child ensures !less(s'[Parent(child)], s'[i]) {
      assert !less(s[child], s[i]);
    }
    forall i | 0 < i < size && i != child && Parent(i) != child
      ensures 0 <= Parent(i) < i && !less(s'[Parent(i)], s'[i]) {
      if i == hole { assert !less(s[Parent(hole)], s[child]); }
    }
  }

  /** A heap without its last element, with a hole anywhere. */
  lemma StartHole<T(!new)>(s: seq<T>, size: nat, hole: nat, less: (T, T) -> bool)
    requires StrictWeakOrder(less) && Heap(s, size + 1, less) && hole <= size
    ensures HeapWithHole(s, size, hole, less)
  {
    forall i | 0 < i < size && Parent(i) == hole && 0 < hole
      ensures 0 <= Parent(hole) < size && !less(s[Parent(hole)], s[i]) {
      assert !less(s[Parent(hole)], s[hole]) && !less(s[hole], s[i]);
    }
  }

  /** The elements of the heap: those of the first `size` cells with `x` in the hole. */
  ghost function Filled<T>(s: seq<T>, size: nat, hole: nat, x: T): multiset<T>
    requires hole < size <= |s|
  {
    multiset(s[..size][hole := x])
  }

  /** Moving an element into the hole and the hole to where it was keeps the elements. */
  lemma MoveKeepsElements<T>(s: seq<T>, size: nat, hole: nat, from: nat, x: T)
    requires hole < size <= |s| && from < size && from != hole
    ensures Filled(s[hole := s[from]], size, from, x) == Filled(s, size, hole, x)
  {
    var v := s[..size][hole := x];
    var v' := s[hole := s[from]][..size][from := x];
    assert v' == v[hole := v[from]][from := v[hole]];
  }

  lemma StartElements<T>(s: seq<T>, size: nat, position: nat)
    requires position < size < |s|
    ensures Filled(s, size, position, s[size]) == multiset(s[..size + 1]) - multiset{s[position]}
  {
    assert s[..size + 1] == s[..size] + [s[size]];
    assert multiset(s[..size][position := s[size]]) == multiset(s[..size]) - multiset{s[position]} + multiset{s[size]};
  }

  datatype Direction = Undecided | Up | Down

  /** The loop of erase_heap under way: `x`, the last element, is to replace the element that was at
      `position` of `start`, and the hole is at `hole`. Once it has moved up its children are no greater
      than `x`, and once it has moved down its parent is no smaller: it never turns round. */
  ghost predicate Travelling<T>(s: seq<T>, start: seq<T>, n: nat, position: nat, hole: nat, less: (T, T) -> bool,
      direction: Direction) {
    && n < |start| && |s| == |start| && position <= n && hole <= n && s[n..] == start[n..]
    && HeapWithHole(s, n, hole, less)
    && (hole == n ==> position == n && s == start && direction.Undecided?)
    && (hole < n ==> position < n && Filled(s, n, hole, start[n]) == Filled(start, n, position, start[n]))
    && (direction.Up? ==> forall i :: 0 < i < n && Parent(i) == hole ==> !less(start[n], s[i]))
    && (direction.Down? ==> 0 < hole < n && 0 <= Parent(hole) < n && !less(s[Parent(hole)], start[n]))
  }

  lemma TravelUp<T(!new)>(s: seq<T>, start: seq<T>, n: nat, position: nat, hole: nat, less: (T, T) -> bool,
      direction: Direction)
    requires StrictWeakOrder(less) && Heap(start, n + 1, less)
    requires Travelling(s, start, n, position, hole, less, direction) && 0 < hole && less(s[Parent(hole)], start[n])
    ensures !direction.Down? && 0 <= Parent(hole) < hole < n
    ensures Travelling(s[hole := s[Parent(hole)]], start, n, position, Parent(hole), less, Up)
  {
    assert hole < n;
    HoleUp(s, n, hole, start[n], less);
    MoveKeepsElements(s, n, hole, Parent(hole), start[n]);
    hide HeapWithHole, StrictWeakOrder, Heap, Filled;
  }

  lemma TravelDown<T(!new)>(s: seq<T>, start: seq<T>, n: nat, position: nat, hole: nat, child: nat,
      less: (T, T) -> bool, direction: Direction)
    requires StrictWeakOrder(less)
    requires Travelling(s, start, n, position, hole, less, direction) && Greatest(s, n, hole, child, less)
    requires less(start[n], s[child])
    ensures !direction.Up?
    ensures Travelling(s[hole := s[child]], start, n, position, child, less, Down)
  {
    HoleDown(s, n, hole, child, start[n], less);
    MoveKeepsElements(s, n, hole, child, start[n]);
    hide HeapWithHole, StrictWeakOrder, Filled;
  }

  lemma TravelEnd<T(!new)>(s: seq<T>, start: seq<T>, n: nat, position: nat, hole: nat, less: (T, T) -> bool,
      direction: Direction)
    requires Travelling(s, start, n, position, hole, less, direction)
    requires 0 < hole < n ==> !less(s[Parent(hole)], start[n])
    requires forall i :: 0 < i < n && Parent(i) == hole ==> !less(start[n], s[i])
    ensures Erased(s[hole := start[n]], start, n, position, less)
  {
    FillHole(s, n, hole, start[n], less);
    var s' := s[hole := start[n]];
    if hole < n {
      StartElements(start, n, position);
      assert s'[..n] == s[..n][hole := start[n]];
    } else {
      assert start[..n + 1] == start[..n] + [start[n]];
      assert s'[..n] == start[..n];
    }
  }

  /** No child of the hole is greater than `child`. */
  ghost predicate Greatest<T>(s: seq<T>, n: nat, hole: nat, child: nat, less: (T, T) -> bool) {
    && hole < child < n <= |s| && Parent(child) == hole
    && forall i :: 0 < i < n && Parent(i) == hole ==> !less(s[child], s[i])
  }

  /** The choice between the two children, when one of them is greater than `x`. */
  lemma GreaterChild<T(!new)>(s: seq<T>, n: nat, hole: nat, x: T, less: (T, T) -> bool)
    requires n <= |s| && StrictWeakOrder(less)
    ensures var c1, c2 := hole * 2 + 1, hole * 2 + 2;
      && (c2 < n && less(x, s[c1]) && less(s[c1], s[c2]) ==> less(x, s[c2]) && Greatest(s, n, hole, c2, less))
      && (c1 < n && less(x, s[c1]) && !(c2 < n && less(s[c1], s[c2])) ==> Greatest(s, n, hole, c1, less))
      && (c2 < n && !less(x, s[c1]) && less(x, s[c2]) ==> Greatest(s, n, hole, c2, less))
      && ((c1 < n ==> !less(x, s[c1])) && (c2 < n ==> !less(x, s[c2])) ==>
            forall i :: 0 < i < n && Parent(i) == hole ==> !less(x, s[i]))
  {
    assert forall i :: 0 < i < n && Parent(i) == hole ==> i == hole * 2 + 1 || i == hole * 2 + 2;
  }

  /** What erase_heap leaves behind. */
  ghost predicate Erased<T>(s: seq<T>, start: seq<T>, n: nat, position: nat, less: (T, T) -> bool) {
    && position <= n < |start| && |s| == |start|
    && Heap(s, n, less) && s[n..] == start[n..]
    && multiset(s[..n]) == multiset(start[..n + 1]) - multiset{start[position]}
  }

  method Move<T>(a: array<T>, from: nat, to: nat)
    requires from < a.Length && to < a.Length
    modifies a
    ensures a[..] == old(a[..])[to := old(a[from])]
  {
    a[to] := a[from];
  }

  /** One turn of the loop of erase_heap. */
  method MoveHole<T(!new)>(a: array<T>, n: nat, hole: nat, less: (T, T) -> bool, ghost start: seq<T>,
      ghost position: nat, ghost direction: Direction)
    returns (done: bool, hole': nat, ghost direction': Direction)
    requires StrictWeakOrder(less) && n < |start| == a.Length && Heap(start, n + 1, less) && position <= n
    requires hole <= n && Travelling(a[..], start, n, position, hole, less, direction)
    modifies a
    ensures done ==> Erased(a[..], start, n, position, less)
    ensures !done ==> hole' <= n && Travelling(a[..], start, n, position, hole', less, direction')
    ensures !done && direction'.Up? ==> !direction.Down? && hole' < hole
    ensures !done && direction'.Down? ==> !direction.Up? && hole' > hole
    ensures !done ==> !direction'.Undecided?
  {
    ghost var s := a[..];
    assert a[n] == start[n] by { assert s[n..][0] == start[n..][0]; }
    hide Travelling, Heap, Parent, Greatest;
    GreaterChild(s, n, hole, a[n], less);
    ParentIsHalf(hole);
    hide StrictWeakOrder;
    done, hole', direction' := false, hole, direction;
    var parent: nat := if hole > 0 then (hole - 1) / 2 else 0;
    var child1, child2 := hole * 2 + 1, hole * 2 + 2;
    if hole > 0 && less(a[parent], a[n]) {
      TravelUp(s, start, n, position, hole, less, direction);
      Move(a, parent, hole);
      hole', direction' := parent, Up;
    } else if child1 < n && less(a[n], a[child1]) {
      var child := if child2 < n && less(a[child1], a[child2]) then child2 else child1;
      TravelDown(s, start, n, position, hole, child, less, direction);
      Move(a, child, hole);
      hole', direction' := child, Down;
    } else if child2 < n && less(a[n], a[child2]) {
      TravelDown(s, start, n, position, hole, child2, less, direction);
      Move(a, child2, hole);
      hole', direction' := child2, Down;
    } else {
      TravelEnd(s, start, n, position, hole, less, direction);
      Move(a, n, hole);
      done := true;
    }
  }

  /** erase_heap(begin, begin + size, begin + position, less): the order is kept on the remaining
      elements, and exactly the element at `position` is gone from them. */
  method EraseHeap<T(!new)>(a: array<T>, size: nat, position: nat, less: (T, T) -> bool)
    requires StrictWeakOrder(less) && position < size <= a.Length && Heap(a[..], size, less)
    modifies a
    ensures Heap(a[..], size - 1, less)
    ensures multiset(a[..][..size - 1]) == multiset(old(a[..][..size])) - multiset{old(a[position])}
    ensures a[..][size - 1..] == old(a[..][size - 1..])
  {
    ghost var start := a[..];
    if size > 1 {
      var n := size - 1;
      var hole: nat, done := position, false;
      ghost var direction := Undecided;
      StartHole(start, n, position, less);
      assert Travelling(start, start, n, position, hole, less, direction);
      while !done
        invariant if done then Erased(a[..], start, n, position, less)
                  else hole <= n && Travelling(a[..], start, n, position, hole, less, direction)
        decreases !done, direction.Undecided?, if direction.Up? then hole else n - hole
      {
        hide Travelling, Heap, StrictWeakOrder, Erased;
        done, hole, direction := MoveHole(a, n, hole, less, start, position, direction);
      }
    } else {
      assert start[..1] == [start[0]];
    }
  }

  lemma ParentIsHalf(i: nat)
    ensures i > 0 ==> Parent(i) == (i - 1) / 2 && 0 <= Parent(i) < i
  {
  }

  /** The element at the front of a heap is a greatest one. */
  lemma {:induction false} TopIsGreatest<T(!new)>(s: seq<T>, size: nat, i: nat, less: (T, T) -> bool)
    requires StrictWeakOrder(less) && Heap(s, size, less) && i < size
    ensures !less(s[0], s[i])
    decreases i
  {
    if i > 0 {
      ParentIsHalf(i);
      TopIsGreatest(s, size, Parent(i), less);
    }
  }

  class PriorityQueue<T(!new)> {
    const values: array<T>
    const less: (T, T) -> bool
    var size: nat

    ghost predicate Valid()
      reads this, values
    {
      size <= values.Length && StrictWeakOrder(less) && Heap(values[..], size, less)
    }

    ghost function Contents(): multiset<T>
      reads this, values
      requires size <= values.Length
    {
      multiset(values[..][..size])
    }

    /** BoundedPriorityQueue::erase, followed by a look at top(). */
    method Erase(position: nat)
      requires Valid() && position < size
      modifies this, values
      ensures Valid() && size == old(size) - 1
      ensures Contents() == old(Contents()) - multiset{old(values[position])}
      ensures size > 0 ==> forall i :: 0 <= i < size ==> !less(values[0], values[i])
    {
      EraseHeap(values, size, position, less);
      size := size - 1;
      forall i | 0 <= i < size ensures !less(values[0], values[i]) {
        TopIsGreatest(values[..], size, i, less);
      }
    }
  }
}
