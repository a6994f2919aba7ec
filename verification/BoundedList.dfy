/** The doubly linked list of infra/util/BoundedList.hpp. A node is an index into the storage; nodes
    that are not in the list hold no value. */
module BoundedList {
  import opened Common

  /** The null pointer. */
  const NULL := -1

  datatype Node<+T> = Node(value: Option<T>, next: int, previous: int)

  // ---------------------------------------------------------------------------------------------
  // Chains of nodes
  // ---------------------------------------------------------------------------------------------

  /** The k-th node, or null outside of the sequence. */
  function At(order: seq<nat>, k: int): int { if 0 <= k < |order| then order[k] else NULL }

  ghost predicate Apart(s: seq<nat>, t: seq<nat>) { forall i, j :: 0 <= i < |s| && 0 <= j < |t| ==> s[i] != t[j] }
  ghost predicate Below(s: seq<nat>, n: nat) { forall i :: 0 <= i < |s| ==> s[i] < n }

  /** The k-th node holds a value, and its links agree with the order of the nodes. */
  ghost predicate LinkedAt<T>(nodes: seq<Node<T>>, order: seq<nat>, k: nat)
    requires k < |order|
  {
    && order[k] < |nodes| && nodes[order[k]].value.Some?
    && nodes[order[k]].next == At(order, k + 1) && nodes[order[k]].previous == At(order, k - 1)
  }

  ghost predicate Linked<T>(nodes: seq<Node<T>>, order: seq<nat>) {
    Below(order, |nodes|) && forall k :: 0 <= k < |order| ==> LinkedAt(nodes, order, k)
  }

  /** The free list: forward links only, and no values. */
  ghost predicate Chained<T>(nodes: seq<Node<T>>, free: seq<nat>) {
    && Below(free, |nodes|)
    && forall k :: 0 <= k < |free| ==> nodes[free[k]].value.None? && nodes[free[k]].next == At(free, k + 1)
  }

  ghost function Values<T>(nodes: seq<Node<T>>, order: seq<nat>): (r: seq<T>)
    requires Linked(nodes, order)
    ensures |r| == |order|
  {
    seq(|order|, k requires 0 <= k < |order| => (assert LinkedAt(nodes, order, k); nodes[order[k]].value.value))
  }

  function Inserted<T>(s: seq<T>, k: nat, x: T): seq<T>
    requires k <= |s|
  {
    s[..k] + [x] + s[k..]
  }

  function Erased<T>(s: seq<T>, k: nat): seq<T>
    requires k < |s|
  {
    s[..k] + s[k + 1..]
  }

  /** The nodes after a new node was spliced in before the k-th. */
  ghost predicate SplicedIn<T>(nodes: seq<Node<T>>, now: seq<Node<T>>, order: seq<nat>, k: nat, n: nat, value: T)
    requires Below(order, |nodes|) && k <= |order| && n < |nodes|
  {
    && |now| == |nodes|
    && now[n] == Node(Some(value), At(order, k), At(order, k - 1))
    && (k < |order| ==> now[order[k]] == nodes[order[k]].(previous := n))
    && (k > 0 ==> now[order[k - 1]] == nodes[order[k - 1]].(next := n))
    && forall i :: 0 <= i < |nodes| && i != n && i != At(order, k) && i != At(order, k - 1) ==> now[i] == nodes[i]
  }

  lemma SpliceInAt<T>(nodes: seq<Node<T>>, now: seq<Node<T>>, order: seq<nat>, k: nat, n: nat, value: T, j: nat)
    requires Linked(nodes, order) && Distinct(order) && k <= |order| && n < |nodes| && n !in order
    requires SplicedIn(nodes, now, order, k, n, value) && j < |order|
    ensures var i := if j < k then j else j + 1;
            LinkedAt(now, Inserted(order, k, n), i) && now[order[j]].value == nodes[order[j]].value
  {
    assert LinkedAt(nodes, order, j);
    assert order[j] != n;
    var order' := Inserted(order, k, n);
    var i := if j < k then j else j + 1;
    assert order'[i] == order[j];
    if j < k {
      assert At(order', j - 1) == At(order, j - 1);
      assert At(order', j + 1) == if j + 1 == k then n else At(order, j + 1);
    } else {
      assert At(order', i + 1) == At(order, j + 1);
      assert At(order', i - 1) == if j == k then n else At(order, j - 1);
    }
  }

  lemma SpliceInNew<T>(nodes: seq<Node<T>>, now: seq<Node<T>>, order: seq<nat>, k: nat, n: nat, value: T)
    requires Below(order, |nodes|) && k <= |order| && n < |nodes| && SplicedIn(nodes, now, order, k, n, value)
    ensures |now| == |nodes| && now[n].value == Some(value)
    ensures LinkedAt(now, Inserted(order, k, n), k) && Below(Inserted(order, k, n), |now|)
  {
    var order' := Inserted(order, k, n);
    assert order'[k] == n && At(order', k - 1) == At(order, k - 1) && At(order', k + 1) == At(order, k);
    forall i | 0 <= i < |order'| ensures order'[i] == if i < k then order[i] else if i == k then n else order[i - 1] {}
  }

  lemma SpliceIn<T>(nodes: seq<Node<T>>, now: seq<Node<T>>, order: seq<nat>, k: nat, n: nat, value: T)
    requires Linked(nodes, order) && Distinct(order) && k <= |order| && n < |nodes| && n !in order
    requires SplicedIn(nodes, now, order, k, n, value)
    ensures Linked(now, Inserted(order, k, n))
    ensures Values(now, Inserted(order, k, n)) == Inserted(Values(nodes, order), k, value)
  {
    var order' := Inserted(order, k, n);
    SpliceInNew(nodes, now, order, k, n, value);
    hide LinkedAt, SplicedIn, Distinct, At;
    forall i | 0 <= i < |order'| ensures LinkedAt(now, order', i) {
      if i != k { SpliceInAt(nodes, now, order, k, n, value, if i < k then i else i - 1); }
    }
    var values := Values(now, order');
    forall i | 0 <= i < |order'| ensures values[i] == Inserted(Values(nodes, order), k, value)[i] {
      if i != k {
        var j := if i < k then i else i - 1;
        SpliceInAt(nodes, now, order, k, n, value, j);
        assert order'[i] == order[j];
      }
    }
  }

  /** The nodes after the k-th node was taken out; what becomes of that node itself is open. */
  ghost predicate SplicedOut<T>(nodes: seq<Node<T>>, now: seq<Node<T>>, order: seq<nat>, k: nat)
    requires Below(order, |nodes|) && k < |order|
  {
    && |now| == |nodes|
    && (k + 1 < |order| ==> now[order[k + 1]] == nodes[order[k + 1]].(previous := At(order, k - 1)))
    && (k > 0 ==> now[order[k - 1]] == nodes[order[k - 1]].(next := At(order, k + 1)))
    && forall i :: 0 <= i < |nodes| && i != order[k] && i != At(order, k + 1) && i != At(order, k - 1) ==>
         now[i] == nodes[i]
  }

  lemma SpliceOutAt<T>(nodes: seq<Node<T>>, now: seq<Node<T>>, order: seq<nat>, k: nat, j: nat)
    requires Linked(nodes, order) && Distinct(order) && k < |order| && SplicedOut(nodes, now, order, k)
    requires j < |order| && j != k
    ensures var i := if j < k then j else j - 1;
            LinkedAt(now, Erased(order, k), i) && now[order[j]].value == nodes[order[j]].value
  {
    assert LinkedAt(nodes, order, j);
    assert order[j] != order[k];
    var order' := Erased(order, k);
    var i := if j < k then j else j - 1;
    assert order'[i] == order[j];
    if j < k {
      assert At(order', j - 1) == At(order, j - 1);
      assert At(order', j + 1) == if j + 1 == k then At(order, k + 1) else At(order, j + 1);
    } else {
      assert At(order', i + 1) == At(order, j + 1);
      assert At(order', i - 1) == if j - 1 == k then At(order, k - 1) else At(order, j - 1);
    }
  }

  lemma SpliceOut<T>(nodes: seq<Node<T>>, now: seq<Node<T>>, order: seq<nat>, k: nat)
    requires Linked(nodes, order) && Distinct(order) && k < |order| && SplicedOut(nodes, now, order, k)
    ensures Linked(now, Erased(order, k)) && Values(now, Erased(order, k)) == Erased(Values(nodes, order), k)
  {
    var order' := Erased(order, k);
    assert Below(order', |now|);
    hide LinkedAt, SplicedOut, Distinct, At;
    forall i | 0 <= i < |order'| ensures LinkedAt(now, order', i) {
      SpliceOutAt(nodes, now, order, k, if i < k then i else i + 1);
    }
    var values := Values(now, order');
    forall i | 0 <= i < |order'| ensures values[i] == Erased(Values(nodes, order), k)[i] {
      var j := if i < k then i else i + 1;
      SpliceOutAt(nodes, now, order, k, j);
      assert order'[i] == order[j];
    }
  }

  /** A pointer into the storage, or null. */
  predicate Pointer(p: int, size: nat) { p == NULL || 0 <= p < size }

  function SetPrevious<T>(nodes: seq<Node<T>>, at: int, p: int): (r: seq<Node<T>>)
    requires Pointer(at, |nodes|)
    ensures |r| == |nodes|
  {
    if at == NULL then nodes else nodes[at := nodes[at].(previous := p)]
  }

  function SetNext<T>(nodes: seq<Node<T>>, at: int, p: int): (r: seq<Node<T>>)
    requires Pointer(at, |nodes|)
    ensures |r| == |nodes|
  {
    if at == NULL then nodes else nodes[at := nodes[at].(next := p)]
  }

  /** The writes that link a new node between two others. */
  function Link<T>(nodes: seq<Node<T>>, node: nat, value: T, next: int, previous: int): (r: seq<Node<T>>)
    requires node < |nodes| && Pointer(next, |nodes|) && Pointer(previous, |nodes|)
    ensures |r| == |nodes|
  {
    SetNext(SetPrevious(nodes[node := Node(Some(value), next, previous)], next, node), previous, node)
  }

  /** The writes that link the neighbours of a node to each other and put the node on the free list. */
  function Unlink<T>(nodes: seq<Node<T>>, node: nat, next: int, previous: int, freeList: int): (r: seq<Node<T>>)
    requires node < |nodes| && Pointer(next, |nodes|) && Pointer(previous, |nodes|)
    ensures |r| == |nodes|
  {
    var linked := SetNext(SetPrevious(nodes, next, previous), previous, next);
    linked[node := Node(None, freeList, linked[node].previous)]
  }

  lemma LinkSplices<T>(nodes: seq<Node<T>>, order: seq<nat>, k: nat, n: nat, value: T)
    requires Below(order, |nodes|) && Distinct(order) && n < |nodes| && n !in order && k <= |order|
    ensures Pointer(At(order, k), |nodes|) && Pointer(At(order, k - 1), |nodes|)
    ensures SplicedIn(nodes, Link(nodes, n, value, At(order, k), At(order, k - 1)), order, k, n, value)
  {
    assert At(order, k) != NULL && At(order, k - 1) != NULL ==> order[k - 1] != order[k];
  }

  lemma UnlinkSplices<T>(nodes: seq<Node<T>>, order: seq<nat>, k: nat, freeList: int)
    requires Below(order, |nodes|) && Distinct(order) && k < |order|
    ensures Pointer(At(order, k + 1), |nodes|) && Pointer(At(order, k - 1), |nodes|)
    ensures var now := Unlink(nodes, order[k], At(order, k + 1), At(order, k - 1), freeList);
            SplicedOut(nodes, now, order, k) && now[order[k]].value.None? && now[order[k]].next == freeList
  {
    assert k + 1 < |order| ==> order[k] != order[k + 1];
    assert k > 0 ==> order[k - 1] != order[k];
    assert 0 < k && k + 1 < |order| ==> order[k - 1] != order[k + 1];
  }

  lemma ChainKept<T>(nodes: seq<Node<T>>, now: seq<Node<T>>, free: seq<nat>)
    requires Chained(nodes, free) && |now| == |nodes|
    requires forall k :: 0 <= k < |free| ==> now[free[k]] == nodes[free[k]]
    ensures Chained(now, free)
  {
  }

  lemma ChainPush<T>(nodes: seq<Node<T>>, now: seq<Node<T>>, free: seq<nat>, n: nat)
    requires Chained(nodes, free) && |now| == |nodes| && n < |nodes|
    requires now[n].value.None? && now[n].next == At(free, 0)
    requires forall k :: 0 <= k < |free| ==> now[free[k]] == nodes[free[k]]
    ensures Chained(now, [n] + free)
  {
    var free' := [n] + free;
    forall k | 0 <= k < |free'|
      ensures free'[k] < |now| && now[free'[k]].value.None? && now[free'[k]].next == At(free', k + 1)
    {
      if k > 0 { assert free'[k] == free[k - 1]; }
    }
  }

  // ---------------------------------------------------------------------------------------------
  // The list
  // ---------------------------------------------------------------------------------------------

  /** Live and free nodes, and perhaps one that is being moved, are exactly the initialized ones. */
  ghost predicate Owned(order: seq<nat>, free: seq<nat>, moving: seq<nat>, numInitialized: nat) {
    && Distinct(order) && Distinct(free) && Distinct(moving)
    && Apart(order, free) && Apart(order, moving) && Apart(free, moving)
    && Below(order, numInitialized) && Below(free, numInitialized) && Below(moving, numInitialized)
    && |order| + |free| + |moving| == numInitialized
  }

  lemma InsertKeeps<T>(nodes: seq<Node<T>>, now: seq<Node<T>>, order: seq<nat>, free: seq<nat>, k: nat, n: nat,
      value: T, numInitialized: nat)
    requires Owned(order, free, [n], numInitialized) && numInitialized <= |nodes| && n < |nodes|
    requires Linked(nodes, order) && Chained(nodes, free) && k <= |order|
    requires Pointer(At(order, k), |nodes|) && Pointer(At(order, k - 1), |nodes|)
    requires now == Link(nodes, n, value, At(order, k), At(order, k - 1))
    ensures var order' := Inserted(order, k, n);
            && Owned(order', free, [], numInitialized) && Linked(now, order') && Chained(now, free)
            && Values(now, order') == Inserted(Values(nodes, order), k, value)
  {
    OwnedFacts(order, free, n, numInitialized);
    LinkSplices(nodes, order, k, n, value);
    LinkKeepsFree(nodes, order, free, k, n, value, numInitialized);
    hide Linked, Link, SplicedIn, Owned;
    SpliceIn(nodes, now, order, k, n, value);
    ChainKept(nodes, now, free);
    OwnedInsert(order, free, k, n, numInitialized);
  }

  lemma OwnedTake(order: seq<nat>, free: seq<nat>, numInitialized: nat)
    requires Owned(order, free, [], numInitialized) && free != []
    ensures Owned(order, free[1..], [free[0]], numInitialized)
  {
    forall i | 0 <= i < |free[1..]| ensures free[1..][i] == free[i + 1] {}
  }

  lemma ChainPop<T>(nodes: seq<Node<T>>, free: seq<nat>)
    requires Chained(nodes, free) && free != []
    ensures Chained(nodes, free[1..]) && free[0] < |nodes| && nodes[free[0]].next == At(free[1..], 0)
  {
    forall i | 0 <= i < |free[1..]| ensures free[1..][i] == free[i + 1] {}
  }

  lemma OwnedNew(order: seq<nat>, numInitialized: nat)
    requires Owned(order, [], [], numInitialized)
    ensures Owned(order, [], [numInitialized], numInitialized + 1)
  {
  }

  lemma OwnedFacts(order: seq<nat>, free: seq<nat>, n: nat, numInitialized: nat)
    requires Owned(order, free, [n], numInitialized)
    ensures n < numInitialized && n !in order && Distinct(order)
  {
    assert [n][0] == n;
  }

  lemma OwnedInsert(order: seq<nat>, free: seq<nat>, k: nat, n: nat, numInitialized: nat)
    requires Owned(order, free, [n], numInitialized) && k <= |order|
    ensures Owned(Inserted(order, k, n), free, [], numInitialized)
  {
    var order' := Inserted(order, k, n);
    assert [n][0] == n;
    forall i | 0 <= i < |order'| ensures order'[i] == if i < k then order[i] else if i == k then n else order[i - 1] {}
    hide Inserted;
  }

  lemma EraseKeeps<T>(nodes: seq<Node<T>>, now: seq<Node<T>>, order: seq<nat>, free: seq<nat>, k: nat,
      numInitialized: nat)
    requires Owned(order, free, [], numInitialized) && numInitialized <= |nodes|
    requires Linked(nodes, order) && Chained(nodes, free) && k < |order|
    requires Pointer(At(order, k + 1), |nodes|) && Pointer(At(order, k - 1), |nodes|)
    requires now == Unlink(nodes, order[k], At(order, k + 1), At(order, k - 1), At(free, 0))
    ensures var order', free' := Erased(order, k), [order[k]] + free;
            && Owned(order', free', [], numInitialized) && Linked(now, order') && Chained(now, free')
            && Values(now, order') == Erased(Values(nodes, order), k)
  {
    OwnedDistinct(order, free, numInitialized);
    UnlinkSplices(nodes, order, k, At(free, 0));
    UnlinkKeepsFree(nodes, order, free, k, numInitialized);
    hide Linked, Unlink, SplicedOut, Owned;
    SpliceOut(nodes, now, order, k);
    ChainPush(nodes, now, free, order[k]);
    OwnedErase(order, free, k, numInitialized);
  }

  lemma LinkKeepsFree<T>(nodes: seq<Node<T>>, order: seq<nat>, free: seq<nat>, k: nat, n: nat, value: T,
      numInitialized: nat)
    requires Owned(order, free, [n], numInitialized) && numInitialized <= |nodes| && n < |nodes|
    requires k <= |order| && Pointer(At(order, k), |nodes|) && Pointer(At(order, k - 1), |nodes|)
    ensures var now := Link(nodes, n, value, At(order, k), At(order, k - 1));
            forall i :: 0 <= i < |free| ==> now[free[i]] == nodes[free[i]]
  {
    assert [n][0] == n;
  }

  lemma UnlinkKeepsFree<T>(nodes: seq<Node<T>>, order: seq<nat>, free: seq<nat>, k: nat, numInitialized: nat)
    requires Owned(order, free, [], numInitialized) && numInitialized <= |nodes| && k < |order|
    requires Pointer(At(order, k + 1), |nodes|) && Pointer(At(order, k - 1), |nodes|)
    ensures var now := Unlink(nodes, order[k], At(order, k + 1), At(order, k - 1), At(free, 0));
            forall i :: 0 <= i < |free| ==> now[free[i]] == nodes[free[i]]
  {
  }

  lemma OwnedErase(order: seq<nat>, free: seq<nat>, k: nat, numInitialized: nat)
    requires Owned(order, free, [], numInitialized) && k < |order|
    ensures Owned(Erased(order, k), [order[k]] + free, [], numInitialized)
  {
    var order', free' := Erased(order, k), [order[k]] + free;
    forall i | 0 <= i < |order'| ensures order'[i] == if i < k then order[i] else order[i + 1] {}
    forall i | 0 < i < |free'| ensures free'[i] == free[i - 1] {}
    hide Erased;
  }

  class List<T> {
    var nodes: seq<Node<T>>
    var firstNode: int
    var lastNode: int
    var freeList: int
    var numAllocated: nat
    var numInitialized: nat
    ghost var order: seq<nat>
    ghost var free: seq<nat>

    /** Everything but the ends of the list, which a splice updates last. */
    ghost predicate Consistent(moving: seq<nat>)
      reads this
    {
      && numInitialized <= |nodes| && Owned(order, free, moving, numInitialized)
      && Linked(nodes, order) && Chained(nodes, free) && freeList == At(free, 0)
    }

    ghost predicate Valid()
      reads this
    {
      && Consistent([]) && numAllocated == |order|
      && firstNode == At(order, 0) && lastNode == At(order, |order| - 1)
    }

    ghost function Contents(): (r: seq<T>)
      reads this
      requires Valid()
      ensures |r| == numAllocated
    {
      Values(nodes, order)
    }

    constructor (capacity: nat)
      ensures Valid() && Contents() == [] && |nodes| == capacity
    {
      nodes := seq(capacity, _ => Node(None, NULL, NULL));
      firstNode, lastNode, freeList, numAllocated, numInitialized := NULL, NULL, NULL, 0, 0;
      order, free := [], [];
    }

    /** Takes the first free node, or the next one never used. Only a full list has neither. */
    method AllocateNode() returns (node: nat)
      requires Valid() && numAllocated < |nodes|
      modifies this`freeList, this`numInitialized, this`free
      ensures node < |nodes| && Consistent([node])
      ensures node !in order && Distinct(order) && Below(order, |nodes|)
    {
      assert |order| + |free| == numInitialized;
      hide LinkedAt, Chained, Owned;
      if freeList != NULL {
        OwnedTake(order, free, numInitialized);
        ChainPop(nodes, free);
        node := freeList;
        freeList := nodes[freeList].next;
        free := free[1..];
      } else {
        assert free == [];
        OwnedNew(order, numInitialized);
        node := numInitialized;
        numInitialized := numInitialized + 1;
      }
      OwnedFacts(order, free, node, numInitialized);
    }

    /** Writes a new node and links its neighbours to it. */
    method LinkNode(node: nat, value: T, next: int, previous: int)
      requires node < |nodes| && Pointer(next, |nodes|) && Pointer(previous, |nodes|)
      modifies this`nodes
      ensures nodes == Link(old(nodes), node, value, next, previous)
    {
      nodes := nodes[node := Node(Some(value), next, previous)];
      if next != NULL {
        nodes := nodes[next := nodes[next].(previous := node)];
      }
      if previous != NULL {
        nodes := nodes[previous := nodes[previous].(next := node)];
      }
    }

    /** Links the neighbours of a node to each other, destructs its value and frees it. */
    method UnlinkNode(node: nat, next: int, previous: int)
      requires node < |nodes| && Pointer(next, |nodes|) && Pointer(previous, |nodes|)
      modifies this`nodes, this`freeList
      ensures nodes == Unlink(old(nodes), node, next, previous, old(freeList)) && freeList == node
    {
      if next != NULL {
        nodes := nodes[next := nodes[next].(previous := previous)];
      }
      if previous != NULL {
        nodes := nodes[previous := nodes[previous].(next := next)];
      }
      nodes := nodes[node := Node(None, freeList, nodes[node].previous)];
      freeList := node;
    }

    method PushFront(value: T)
      requires Valid() && numAllocated < |nodes|
      modifies this
      ensures Valid() && |nodes| == old(|nodes|) && Contents() == [value] + old(Contents())
    {
      hide Linked, Chained, Owned, Inserted, Values, At, Link;
      var node := AllocateNode();
      ghost var before := nodes;
      Pointers(order, |nodes|, 0);
      LinkNode(node, value, firstNode, NULL);
      if firstNode == NULL {
        lastNode := node;
      }
      firstNode := node;
      numAllocated := numAllocated + 1;
      InsertKeeps(before, nodes, order, free, 0, node, value, numInitialized);
      InsertedEnds(order, 0, node);
      InsertedAtEnds(Values(before, order), value);
      order := Inserted(order, 0, node);
    }

    method PushBack(value: T)
      requires Valid() && numAllocated < |nodes|
      modifies this
      ensures Valid() && |nodes| == old(|nodes|) && Contents() == old(Contents()) + [value]
    {
      hide Linked, Chained, Owned, Inserted, Values, At, Link;
      var node := AllocateNode();
      ghost var before := nodes;
      Pointers(order, |nodes|, |order|);
      LinkNode(node, value, NULL, lastNode);
      if lastNode == NULL {
        firstNode := node;
      }
      lastNode := node;
      numAllocated := numAllocated + 1;
      InsertKeeps(before, nodes, order, free, |order|, node, value, numInitialized);
      InsertedEnds(order, |order|, node);
      InsertedAtEnds(Values(before, order), value);
      order := Inserted(order, |order|, node);
    }

    /** Inserts before a node of the list, or at the end for the null position. */
    method Insert(position: int, value: T, ghost k: nat)
      requires Valid() && numAllocated < |nodes| && k <= |order| && position == At(order, k)
      modifies this
      ensures Valid() && |nodes| == old(|nodes|) && Contents() == Inserted(old(Contents()), k, value)
    {
      if position == NULL {
        ghost var contents := Contents();
        PushBack(value);
        InsertedAtEnds(contents, value);
        return;
      }
      InsertBefore(position, value, k);
    }

    method InsertBefore(position: nat, value: T, ghost k: nat)
      requires Valid() && numAllocated < |nodes| && k < |order| && position == order[k]
      modifies this
      ensures Valid() && |nodes| == old(|nodes|) && Contents() == Inserted(old(Contents()), k, value)
    {
      hide Linked, Chained, Owned, Inserted, Values, At, Link;
      LinkedThere(nodes, order, k);
      var node := AllocateNode();
      ghost var before := nodes;
      Pointers(order, |nodes|, k);
      var previous := nodes[position].previous;
      LinkNode(node, value, position, previous);
      if previous == NULL {
        firstNode := node;
      }
      numAllocated := numAllocated + 1;
      InsertKeeps(before, nodes, order, free, k, node, value, numInitialized);
      InsertedEnds(order, k, node);
      order := Inserted(order, k, node);
    }

    /** Takes a node of the list out of it and puts it in front of the free list. */
    method Erase(position: nat, ghost k: nat)
      requires Valid() && k < |order| && position == order[k]
      modifies this
      ensures Valid() && |nodes| == old(|nodes|) && Contents() == Erased(old(Contents()), k)
    {
      hide Linked, Chained, Owned, Erased, Values, At, Unlink;
      LinkedThere(nodes, order, k);
      ghost var before := nodes;
      Pointers(order, |nodes|, k);
      var next, previous := nodes[position].next, nodes[position].previous;
      UnlinkNode(position, next, previous);
      if next == NULL {
        lastNode := previous;
      }
      if previous == NULL {
        firstNode := next;
      }
      numAllocated := numAllocated - 1;
      EraseKeeps(before, nodes, order, free, k, numInitialized);
      ErasedEnds(order, free, k);
      order, free := Erased(order, k), [position] + free;
    }

    method PopFront()
      requires Valid() && numAllocated > 0
      modifies this
      ensures Valid() && |nodes| == old(|nodes|) && Contents() == old(Contents())[1..]
    {
      hide Linked, Chained, Owned, Erased, Values, At, Unlink;
      LinkedThere(nodes, order, 0);
      ErasedAtEnds(Contents());
      ghost var before := nodes;
      Pointers(order, |nodes|, 0);
      var oldStart := firstNode;
      firstNode := nodes[firstNode].next;
      UnlinkNode(oldStart, firstNode, NULL);
      if firstNode == NULL {
        lastNode := NULL;
      }
      numAllocated := numAllocated - 1;
      EraseKeeps(before, nodes, order, free, 0, numInitialized);
      ErasedEnds(order, free, 0);
      order, free := Erased(order, 0), [order[0]] + free;
    }

    method PopBack()
      requires Valid() && numAllocated > 0
      modifies this
      ensures Valid() && |nodes| == old(|nodes|) && Contents() == old(Contents())[..|old(Contents())| - 1]
    {
      ghost var k := |order| - 1;
      hide Linked, Chained, Owned, Erased, Values, At, Unlink;
      LinkedThere(nodes, order, k);
      ErasedAtEnds(Contents());
      ghost var before := nodes;
      Pointers(order, |nodes|, k);
      var oldEnd := lastNode;
      lastNode := nodes[lastNode].previous;
      UnlinkNode(oldEnd, NULL, lastNode);
      if lastNode == NULL {
        firstNode := NULL;
      }
      numAllocated := numAllocated - 1;
      EraseKeeps(before, nodes, order, free, k, numInitialized);
      ErasedEnds(order, free, k);
      order, free := Erased(order, k), [order[k]] + free;
    }

    /** begin() incremented k times. */
    method Position(k: nat) returns (node: int)
      requires Valid() && k <= numAllocated
      ensures node == At(order, k)
    {
      hide Chained, Owned, Values;
      node := firstNode;
      for i := 0 to k
        invariant node == At(order, i)
      {
        LinkedThere(nodes, order, i);
        node := nodes[node].next;
      }
    }

    /** Erases everything behind the k-th node. */
    method EraseAllAfter(position: nat, ghost k: nat)
      requires Valid() && k < |order| && position == order[k]
      modifies this
      ensures Valid() && |nodes| == old(|nodes|) && Contents() == old(Contents())[..k + 1]
    {
      hide Linked, Chained, Owned, Values, At, TailChained;
      LinkedThere(nodes, order, k);
      ghost var values := Values(nodes, order)[..k + 1];
      CutBehind(nodes, order, free, k, numInitialized);
      var node := nodes[position].next;
      nodes := nodes[position := nodes[position].(next := NULL)];
      lastNode := position;
      ghost var rest := order[k + 1..];
      order := order[..k + 1];
      CutEnds(old(order), k);
      assert Freeing(rest, node, values) && firstNode == At(order, 0) && lastNode == At(order, |order| - 1);
      while node != NULL
        invariant |nodes| == old(|nodes|) && Freeing(rest, node, values)
        invariant firstNode == At(order, 0) && lastNode == At(order, |order| - 1)
        decreases |rest|
      {
        TailPointer(nodes, rest, node);
        FreeStep(nodes, order, free, rest, numInitialized);
        var oldFreeList := freeList;
        freeList := node;
        var next := nodes[node].next;
        nodes := nodes[node := Node(None, oldFreeList, nodes[node].previous)];
        node := next;
        free := [freeList] + free;
        rest := rest[1..];
        numAllocated := numAllocated - 1;
      }
      TailEnd(rest, node);
    }

    /** While the nodes behind the new end are being freed: `rest` is left, starting with `node`. */
    ghost predicate Freeing(rest: seq<nat>, node: int, values: seq<T>)
      reads this
    {
      && Consistent(rest) && TailChained(nodes, rest) && node == At(rest, 0)
      && numAllocated == |order| + |rest| && Values(nodes, order) == values
    }
  }

  /** Nodes that still hold values and are linked forward only. */
  ghost predicate TailChained<T>(nodes: seq<Node<T>>, rest: seq<nat>) {
    && Below(rest, |nodes|)
    && forall k :: 0 <= k < |rest| ==> nodes[rest[k]].next == At(rest, k + 1)
  }

  lemma TailPointer<T>(nodes: seq<Node<T>>, rest: seq<nat>, node: int)
    requires TailChained(nodes, rest) && node == At(rest, 0) && node != NULL
    ensures rest != [] && node == rest[0] && 0 <= node < |nodes|
  {
  }

  lemma TailEnd(rest: seq<nat>, node: int)
    requires node == At(rest, 0) == NULL
    ensures rest == []
  {
  }

  lemma CutEnds(order: seq<nat>, k: nat)
    requires k < |order|
    ensures At(order[..k + 1], 0) == At(order, 0) && At(order[..k + 1], k) == order[k]
    ensures At(order[k + 1..], 0) == At(order, k + 1)
  {
  }

  lemma CutBehind<T>(nodes: seq<Node<T>>, order: seq<nat>, free: seq<nat>, k: nat, numInitialized: nat)
    requires Linked(nodes, order) && Chained(nodes, free) && Owned(order, free, [], numInitialized)
    requires numInitialized <= |nodes| && k < |order|
    ensures order[k] < |nodes|
    ensures var now := nodes[order[k] := nodes[order[k]].(next := NULL)];
            && Linked(now, order[..k + 1]) && Values(now, order[..k + 1]) == Values(nodes, order)[..k + 1]
            && Chained(now, free) && TailChained(now, order[k + 1..])
            && Owned(order[..k + 1], free, order[k + 1..], numInitialized)
  {
    var now := nodes[order[k] := nodes[order[k]].(next := NULL)];
    var kept, rest := order[..k + 1], order[k + 1..];
    forall i | 0 <= i < |kept| ensures LinkedAt(now, kept, i) && now[kept[i]].value == nodes[order[i]].value {
      LinkedThere(nodes, order, i);
      assert i != k ==> order[i] != order[k];
    }
    forall i | 0 <= i < |rest| ensures rest[i] == order[k + 1 + i] && now[rest[i]].next == At(rest, i + 1) {
      LinkedThere(nodes, order, k + 1 + i);
      assert order[k + 1 + i] != order[k];
    }
    ChainKept(nodes, now, free);
    OwnedCut(order, free, k, numInitialized);
  }

  lemma OwnedCut(order: seq<nat>, free: seq<nat>, k: nat, numInitialized: nat)
    requires Owned(order, free, [], numInitialized) && k < |order|
    ensures Owned(order[..k + 1], free, order[k + 1..], numInitialized)
  {
    var rest := order[k + 1..];
    forall i | 0 <= i < |rest| ensures rest[i] == order[k + 1 + i] {}
  }

  lemma OwnedFree(order: seq<nat>, free: seq<nat>, rest: seq<nat>, numInitialized: nat)
    requires Owned(order, free, rest, numInitialized) && rest != []
    ensures Owned(order, [rest[0]] + free, rest[1..], numInitialized)
  {
    var free', rest' := [rest[0]] + free, rest[1..];
    forall i | 0 <= i < |rest'| ensures rest'[i] == rest[i + 1] {}
    forall i | 0 < i < |free'| ensures free'[i] == free[i - 1] {}
  }

  /** Freeing the first of the remaining nodes. */
  lemma FreeStep<T>(nodes: seq<Node<T>>, order: seq<nat>, free: seq<nat>, rest: seq<nat>, numInitialized: nat)
    requires Linked(nodes, order) && Chained(nodes, free) && TailChained(nodes, rest) && rest != []
    requires Owned(order, free, rest, numInitialized) && numInitialized <= |nodes|
    ensures rest[0] < |nodes|
    ensures var n := rest[0];
            var now := nodes[n := Node(None, At(free, 0), nodes[n].previous)];
            && Linked(now, order) && Values(now, order) == Values(nodes, order)
            && Chained(now, [n] + free) && TailChained(now, rest[1..]) && At(rest[1..], 0) == nodes[n].next
            && Owned(order, [n] + free, rest[1..], numInitialized)
            && At([n] + free, 0) == n
  {
    var n := rest[0];
    var now := nodes[n := Node(None, At(free, 0), nodes[n].previous)];
    forall i | 0 <= i < |order| ensures LinkedAt(now, order, i) && now[order[i]] == nodes[order[i]] {
      LinkedThere(nodes, order, i);
    }
    ChainPush(nodes, now, free, n);
    var rest' := rest[1..];
    forall i | 0 <= i < |rest'|
      ensures rest'[i] == rest[i + 1] && rest'[i] < |now| && now[rest'[i]].next == At(rest', i + 1) {
    }
    OwnedFree(order, free, rest, numInitialized);
  }

  /** There is no node to allocate exactly if the list is full. */
  lemma OnlyFullFails<T>(list: List<T>)
    requires list.Valid()
    ensures list.freeList == NULL && list.numInitialized == |list.nodes| <==> list.numAllocated == |list.nodes|
  {
    hide Linked, Chained;
    assert list.free == [] <==> At(list.free, 0) == NULL;
  }

  // ---------------------------------------------------------------------------------------------
  // Whole runs
  // ---------------------------------------------------------------------------------------------

  datatype Operation<+T> =
    | DoPushFront(value: T) | DoPushBack(value: T) | DoPopFront | DoPopBack
    | DoInsert(k: nat, value: T) | DoErase(k: nat) | DoEraseAllAfter(k: nat)

  /** What an operation does to a plain sequence; operations that the list does not allow are skipped. */
  function Apply<T>(s: seq<T>, capacity: nat, op: Operation<T>): seq<T> {
    match op
    case DoPushFront(value) => if |s| < capacity then [value] + s else s
    case DoPushBack(value) => if |s| < capacity then s + [value] else s
    case DoPopFront => if s != [] then s[1..] else s
    case DoPopBack => if s != [] then s[..|s| - 1] else s
    case DoInsert(k, value) => if |s| < capacity && k <= |s| then Inserted(s, k, value) else s
    case DoErase(k) => if k < |s| then Erased(s, k) else s
    case DoEraseAllAfter(k) => if k < |s| then s[..k + 1] else s
  }

  function ApplyAll<T>(s: seq<T>, capacity: nat, ops: seq<Operation<T>>): seq<T>
    decreases |ops|
  {
    if ops == [] then s else Apply(ApplyAll(s, capacity, ops[..|ops| - 1]), capacity, ops[|ops| - 1])
  }

  method Perform<T>(list: List<T>, op: Operation<T>)
    requires list.Valid()
    modifies list
    ensures list.Valid() && |list.nodes| == old(|list.nodes|)
    ensures list.Contents() == Apply(old(list.Contents()), |list.nodes|, op)
  {
    hide Linked, Chained, Owned, Values, Inserted, Erased;
    match op
    case DoPushFront(value) => if list.numAllocated < |list.nodes| { list.PushFront(value); }
    case DoPushBack(value) => if list.numAllocated < |list.nodes| { list.PushBack(value); }
    case DoPopFront => if list.numAllocated > 0 { list.PopFront(); }
    case DoPopBack => if list.numAllocated > 0 { list.PopBack(); }
    case DoInsert(k, value) =>
      if list.numAllocated < |list.nodes| && k <= list.numAllocated {
        var position := list.Position(k);
        list.Insert(position, value, k);
      }
    case DoErase(k) =>
      if k < list.numAllocated {
        var position := list.Position(k);
        list.Erase(position, k);
      }
    case DoEraseAllAfter(k) =>
      if k < list.numAllocated {
        var position := list.Position(k);
        list.EraseAllAfter(position, k);
      }
  }

  /** Every sequence of operations acts on the list as on a plain sequence. */
  method Run<T>(list: List<T>, ops: seq<Operation<T>>)
    requires list.Valid()
    modifies list
    ensures list.Valid() && |list.nodes| == old(|list.nodes|)
    ensures list.Contents() == ApplyAll(old(list.Contents()), |list.nodes|, ops)
  {
    hide Linked, Chained, Owned, Values, Apply;
    ghost var s, capacity := list.Contents(), |list.nodes|;
    for i := 0 to |ops|
      invariant list.Valid() && |list.nodes| == capacity && list.Contents() == ApplyAll(s, capacity, ops[..i])
    {
      Perform(list, ops[i]);
      assert ops[..i + 1][..i] == ops[..i];
    }
    assert ops[..|ops|] == ops;
  }

  lemma LinkedThere<T>(nodes: seq<Node<T>>, order: seq<nat>, k: nat)
    requires Linked(nodes, order) && k < |order|
    ensures LinkedAt(nodes, order, k) && Below(order, |nodes|)
  {
  }

  lemma OwnedDistinct(order: seq<nat>, free: seq<nat>, numInitialized: nat)
    requires Owned(order, free, [], numInitialized)
    ensures Distinct(order)
  {
  }

  /** What the links around the k-th node are. */
  lemma Pointers(order: seq<nat>, size: nat, k: nat)
    requires Below(order, size) && k <= |order|
    ensures Pointer(At(order, k - 1), size) && Pointer(At(order, k), size) && Pointer(At(order, k + 1), size)
    ensures k < |order| ==> At(order, k) == order[k]
    ensures At(order, -1) == NULL && At(order, |order|) == NULL
    ensures At(order, k - 1) == NULL <==> k == 0
    ensures At(order, k + 1) == NULL <==> k + 1 >= |order|
    ensures At(order, 0) == NULL <==> order == []
    ensures At(order, |order| - 1) == NULL <==> order == []
  {
  }

  lemma InsertedEnds(order: seq<nat>, k: nat, n: nat)
    requires k <= |order|
    ensures var order' := Inserted(order, k, n);
            && |order'| == |order| + 1
            && At(order', 0) == (if k == 0 then n else At(order, 0))
            && At(order', |order|) == (if k == |order| then n else At(order, |order| - 1))
  {
  }

  lemma ErasedEnds(order: seq<nat>, free: seq<nat>, k: nat)
    requires k < |order|
    ensures var order' := Erased(order, k);
            && |order'| == |order| - 1
            && At(order', 0) == (if k == 0 then At(order, 1) else At(order, 0))
            && At(order', |order| - 2) == (if k == |order| - 1 then At(order, k - 1) else At(order, |order| - 1))
    ensures At([order[k]] + free, 0) == order[k]
  {
  }

  lemma InsertedAtEnds<T>(s: seq<T>, x: T)
    ensures Inserted(s, 0, x) == [x] + s && Inserted(s, |s|, x) == s + [x]
  {
  }

  lemma ErasedAtEnds<T>(s: seq<T>)
    requires s != []
    ensures Erased(s, 0) == s[1..] && Erased(s, |s| - 1) == s[..|s| - 1]
  {
  }
}
