/** infra/event/ClaimableResource.cpp and .hpp: claimers queue for a resource, are granted it one at a
    time by a scheduled re-evaluation, and may be released, destroyed and moved in any state. */
module ClaimableResource {
  import opened Common

  type Id = nat

  /** `waiting` says that the claimer holds an onGranted callback. */
  datatype Claimer = Claimer(isGranted: bool, isQueued: bool, waiting: bool)

  /** An operation on a resource by its users or by the event dispatcher. */
  datatype Operation =
    | Claim(id: Id, urgent: bool)
    | Release(id: Id)
    | Construct(id: Id)
    | MoveConstruct(id: Id, from: Id)
    | MoveAssign(id: Id, from: Id)
    | Destroy(id: Id)
    | Dispatch

  /** Inserting a new member before an old one and erasing the old one replaces it in its place. */
  lemma {:induction false} InsertThenErase(ids: seq<Id>, i: nat, id: Id)
    requires Distinct(ids) && i < |ids| && id !in ids
    ensures Without(ids[..i] + [id] + ids[i..], ids[i]) == ids[i := id]
    decreases i
  {
    hide Without;
    if i == 0 {
      assert ids == [ids[0]] + ids[1..] && ids[0] !in ids[1..];
      WithoutAbsent(ids[1..], ids[0]);
      WithoutStep(ids[0], ids[1..], ids[0]);
      WithoutStep(id, ids, ids[0]);
      assert ids[..0] + [id] + ids[0..] == [id] + ids;
      assert ids[0 := id] == [id] + ids[1..];
    } else {
      var tail := ids[1..];
      var list := tail[..i - 1] + [id] + tail[i - 1..];
      assert ids[..i] + [id] + ids[i..] == [ids[0]] + list && tail[i - 1] == ids[i];
      WithoutStep(ids[0], list, ids[i]);
      InsertThenErase(tail, i - 1, id);
      assert ids[i := id] == [ids[0]] + tail[i - 1 := id];
    }
  }

  lemma WithoutStep(first: Id, ids: seq<Id>, id: Id)
    ensures Without([first] + ids, id) == if first == id then Without(ids, id) else [first] + Without(ids, id)
  {
    assert ([first] + ids)[1..] == ids;
  }

  /** The queue lists exactly the queued claimers, each once, and the current claim is the one granted
      claimer. */
  ghost predicate QueueOk(claimers: map<Id, Claimer>, pending: seq<Id>, current: Option<Id>) {
    && Distinct(pending)
    && (forall id :: id in pending <==> id in claimers && claimers[id].isQueued)
    && (forall id :: current == Some(id) <==> id in claimers && claimers[id].isGranted)
  }

  /** A callback is held exactly while queued. */
  ghost predicate CallbacksOk(claimers: map<Id, Claimer>) {
    forall id :: id in claimers ==> claimers[id].waiting == claimers[id].isQueued
  }

  /** A grant is given back first, and only otherwise is everything given up. */
  function Released(c: Claimer): Claimer {
    if c.isGranted then c.(isGranted := false) else Claimer(false, false, false)
  }

  class Resource {
    var claimers: map<Id, Claimer>
    var pending: seq<Id>
    var current: Option<Id>
    var reEvaluateScheduled: bool
    var events: nat

    /** A free resource that somebody waits for has its re-evaluation scheduled, once. */
    ghost predicate Consistent()
      reads this
    {
      && QueueOk(claimers, pending, current)
      && events == (if reEvaluateScheduled then 1 else 0)
      && (current.None? && pending != [] ==> reEvaluateScheduled)
    }

    ghost predicate Valid()
      reads this
    {
      Consistent() && CallbacksOk(claimers)
    }

    constructor ()
      ensures Valid() && claimers == map[] && pending == [] && current.None?
    {
      claimers, pending, current, reEvaluateScheduled, events := map[], [], None, false, 0;
    }

    method ScheduleReEvaluateClaim()
      requires events == (if reEvaluateScheduled then 1 else 0)
      modifies this`reEvaluateScheduled, this`events
      ensures reEvaluateScheduled && events == 1
    {
      if !reEvaluateScheduled {
        reEvaluateScheduled := true;
        events := events + 1;
      }
    }

    /** The scheduled event: the claimer that waits at the front is granted a free resource. */
    method ReEvaluateClaim()
      requires Valid() && events > 0
      modifies this
      ensures Valid() && !reEvaluateScheduled
      ensures if old(current).None? && old(pending) != [] then
          && current == Some(old(pending)[0]) && pending == old(pending)[1..]
          && claimers == old(claimers)[old(pending)[0] := Claimer(true, false, false)]
        else current == old(current) && pending == old(pending) && claimers == old(claimers)
    {
      events := events - 1;
      reEvaluateScheduled := false;
      if current.None? && pending != [] {
        var front := pending[0];
        assert front in pending && front !in pending[1..];
        current := Some(front);
        pending := pending[1..];
        claimers := claimers[front := Claimer(true, false, false)];
      }
    }

    /** Claim and ClaimUrgent, for a claimer that is not already waiting; it may be granted already. */
    method AddClaim(id: Id, urgent: bool)
      requires Valid() && id in claimers && !claimers[id].waiting
      modifies this
      ensures Valid() && current == old(current)
      ensures pending == if urgent then [id] + old(pending) else old(pending) + [id]
      ensures claimers == old(claimers)[id := old(claimers)[id].(isQueued := true, waiting := true)]
    {
      claimers := claimers[id := claimers[id].(isQueued := true, waiting := true)];
      if urgent {
        pending := [id] + pending;
      } else {
        pending := pending + [id];
      }
      if current.None? {
        ScheduleReEvaluateClaim();
      }
    }

    /** ClaimerBase::Release and RemoveClaim: a grant is given back first, and only otherwise is a
        queued claim withdrawn; an idle claimer may be released without effect. */
    method ReleaseBase(id: Id)
      requires Consistent() && id in claimers
      modifies this
      ensures Consistent()
      ensures var c := old(claimers)[id];
              claimers == old(claimers)[id := if c.isGranted then c.(isGranted := false) else c.(isQueued := false)]
      ensures current == if old(current) == Some(id) then None else old(current)
      ensures pending == if old(claimers)[id].isGranted then old(pending) else Without(old(pending), id)
    {
      WithoutDistinct(pending, id);
      var claimer := claimers[id];
      if !claimer.isGranted {
        claimers := claimers[id := claimer.(isQueued := false)];
      }
      claimers := claimers[id := claimers[id].(isGranted := false)];
      if current == Some(id) {
        current := None;
        ScheduleReEvaluateClaim();
      } else if pending != [] {
        pending := Without(pending, id);
      }
    }

    /** ClaimerWithSize::Release. */
    method ReleaseClaim(id: Id)
      requires Valid() && id in claimers
      modifies this
      ensures Valid()
      ensures claimers == old(claimers)[id := Released(old(claimers)[id])]
      ensures current == if old(current) == Some(id) then None else old(current)
      ensures pending == if old(claimers)[id].isGranted then old(pending) else Without(old(pending), id)
    {
      hide QueueOk, Without, CallbacksOk;
      ghost var before := claimers;
      ReleasedCallbacks(before, id);
      if !claimers[id].isGranted {
        ResetCallback(id);
      }
      ReleaseBase(id);
      assert claimers == before[id := Released(before[id])];
    }

    method ResetCallback(id: Id)
      requires Consistent() && id in claimers
      modifies this`claimers
      ensures Consistent() && claimers == old(claimers)[id := old(claimers)[id].(waiting := false)]
    {
      claimers := claimers[id := claimers[id].(waiting := false)];
    }

    /** ReleaseAllClaims: of a claimer that is granted and queued again, both. The callback is left to
        the derived class. */
    method ReleaseAllClaims(id: Id)
      requires Consistent() && id in claimers
      modifies this
      ensures Consistent()
      ensures claimers == old(claimers)[id := Claimer(false, false, old(claimers)[id].waiting)]
      ensures current == if old(current) == Some(id) then None else old(current)
      ensures pending == Without(old(pending), id)
    {
      if claimers[id].isGranted {
        ReleaseBase(id);
      }
      if claimers[id].isQueued {
        ReleaseBase(id);
      } else {
        WithoutAbsent(pending, id);
      }
    }

    /** ReplaceClaim: `id` takes the place of `from`, as current claim and in the queue. */
    method ReplaceClaim(from: Id, id: Id)
      requires Distinct(pending) && id !in pending && id != from
      modifies this`current, this`pending
      ensures current == if old(current) == Some(from) then Some(id) else old(current)
      ensures |pending| == |old(pending)|
      ensures forall i :: 0 <= i < |pending| ==> pending[i] == if old(pending)[i] == from then id else old(pending)[i]
    {
      if current == Some(from) {
        current := Some(id);
      }
      for i := 0 to |pending|
        invariant pending == old(pending) && forall k :: 0 <= k < i ==> pending[k] != from
      {
        if pending[i] == from {
          InsertThenErase(pending, i, id);
          pending := Without(pending[..i] + [id] + pending[i..], from);
          return;
        }
      }
    }

    /** Moves the state and the place of `from` to `id`, which has released everything. */
    method TakeOver(id: Id, from: Id)
      requires Consistent() && id in claimers && from in claimers && id != from
      requires CallbacksOk(claimers - {id}) && !claimers[id].isGranted && !claimers[id].isQueued
      modifies this
      ensures Valid()
      ensures claimers == old(claimers)[id := old(claimers)[from]][from := Claimer(false, false, false)]
      ensures current == if old(current) == Some(from) then Some(id) else old(current)
      ensures |pending| == |old(pending)|
      ensures forall i :: 0 <= i < |pending| ==> pending[i] == if old(pending)[i] == from then id else old(pending)[i]
    {
      var moved := claimers[from];
      claimers := claimers[id := moved][from := Claimer(false, false, false)];
      assert moved.waiting == moved.isQueued by { assert from in old(claimers) - {id}; }
      if moved.isQueued || moved.isGranted {
        ReplaceClaim(from, id);
      }
      ReplacedMembers(old(pending), pending, from, id);
      forall x | x in claimers ensures claimers[x].waiting == claimers[x].isQueued {
        assert x != id && x != from ==> x in old(claimers) - {id};
      }
    }

    /** The move constructor: a new claimer takes over. */
    method MoveConstructClaimer(id: Id, from: Id)
      requires Valid() && from in claimers && id !in claimers
      modifies this
      ensures Valid()
      ensures claimers == old(claimers)[id := old(claimers)[from]][from := Claimer(false, false, false)]
      ensures current == if old(current) == Some(from) then Some(id) else old(current)
      ensures |pending| == |old(pending)|
      ensures forall i :: 0 <= i < |pending| ==> pending[i] == if old(pending)[i] == from then id else old(pending)[i]
    {
      claimers := claimers[id := Claimer(false, false, false)];
      TakeOver(id, from);
    }

    /** Move assignment: the claimer first gives up its own claims. */
    method MoveAssignClaimer(id: Id, from: Id)
      requires Valid() && from in claimers && id in claimers && id != from
      modifies this
      ensures Valid()
      ensures claimers == old(claimers)[id := old(claimers)[from]][from := Claimer(false, false, false)]
      ensures current == if old(current) == Some(from) then Some(id)
                         else if old(current) == Some(id) then None else old(current)
      ensures |pending| == |Without(old(pending), id)|
      ensures forall i :: 0 <= i < |pending| ==>
                pending[i] == if Without(old(pending), id)[i] == from then id else Without(old(pending), id)[i]
    {
      hide QueueOk, Without;
      CallbacksWithout(claimers, id, Claimer(false, false, claimers[id].waiting));
      ReleaseAllClaims(id);
      hide CallbacksOk;
      TakeOver(id, from);
    }

    /** The destructor. */
    method DestroyClaimer(id: Id)
      requires Valid() && id in claimers
      modifies this
      ensures Valid() && claimers == old(claimers) - {id} && pending == Without(old(pending), id)
      ensures current == if old(current) == Some(id) then None else old(current)
    {
      ReleaseAllClaims(id);
      claimers := claimers - {id};
    }

    method Apply(op: Operation)
      requires Valid()
      modifies this
      ensures Valid()
    {
      match op {
        case Claim(id, urgent) => if id in claimers && !claimers[id].waiting { AddClaim(id, urgent); }
        case Release(id) => if id in claimers { ReleaseClaim(id); }
        case Construct(id) => if id !in claimers { claimers := claimers[id := Claimer(false, false, false)]; }
        case MoveConstruct(id, from) => if from in claimers && id !in claimers { MoveConstructClaimer(id, from); }
        case MoveAssign(id, from) =>
          if from in claimers && id in claimers && id != from { MoveAssignClaimer(id, from); }
        case Destroy(id) => if id in claimers { DestroyClaimer(id); }
        case Dispatch => if events > 0 { ReEvaluateClaim(); }
      }
    }

    /** Every run, from a resource without claimers: at most one claimer is granted, each queued
        claimer is listed exactly once, and a free resource with pending claims has exactly one
        re-evaluation scheduled. */
    method Run(operations: seq<Operation>)
      requires Valid()
      modifies this
      ensures Valid()
      ensures forall a, b :: a in claimers && b in claimers && claimers[a].isGranted && claimers[b].isGranted ==> a == b
      ensures forall id :: id in claimers ==>
                (claimers[id].isQueued <==> multiset(pending)[id] == 1) && multiset(pending)[id] <= 1
      ensures events <= 1 && (current.None? && pending != [] ==> events == 1)
    {
      for i := 0 to |operations|
        invariant Valid()
      {
        Apply(operations[i]);
      }
      assert forall a :: a in claimers && claimers[a].isGranted ==> current == Some(a);
      forall id | id in claimers
        ensures (claimers[id].isQueued <==> multiset(pending)[id] == 1) && multiset(pending)[id] <= 1 {
        DistinctCounts(pending, id);
      }
    }
  }

  lemma {:induction false} DistinctCounts(ids: seq<Id>, id: Id)
    requires Distinct(ids)
    ensures multiset(ids)[id] == if id in ids then 1 else 0
  {
    if ids != [] {
      assert ids == [ids[0]] + ids[1..];
      assert ids[0] !in ids[1..];
      DistinctCounts(ids[1..], id);
    }
  }

  lemma ReleasedCallbacks(claimers: map<Id, Claimer>, id: Id)
    requires CallbacksOk(claimers) && id in claimers
    ensures CallbacksOk(claimers[id := Released(claimers[id])])
  {
  }

  lemma CallbacksWithout(claimers: map<Id, Claimer>, id: Id, c: Claimer)
    requires CallbacksOk(claimers)
    ensures CallbacksOk(claimers[id := c] - {id})
  {
  }

  lemma ReplacedMembers(before: seq<Id>, after: seq<Id>, from: Id, id: Id)
    requires |after| == |before| && id !in before && Distinct(before)
    requires forall i :: 0 <= i < |after| ==> after[i] == if before[i] == from then id else before[i]
    ensures Distinct(after)
    ensures forall x :: x in after <==> (x in before && x != from) || (x == id && from in before)
  {
    forall x ensures x in after <==> (x in before && x != from) || (x == id && from in before) {
      if x in before && x != from {
        var i :| 0 <= i < |before| && before[i] == x;
        assert after[i] == x;
      }
      if x == id && from in before {
        var i :| 0 <= i < |before| && before[i] == from;
        assert after[i] == id;
      }
    }
  }
}
