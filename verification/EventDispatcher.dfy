/** The event queue of infra/event/EventDispatcher.cpp: any number of producers reserve slots with a
    compare-exchange on the push index and fill them later, one consumer executes and clears slots in
    order. Steps are the single loads, compare-exchanges and stores. */
module EventDispatcher {
  import opened Common

  datatype Slot<A> = Slot(action: Option<A>, filled: bool)

  datatype Producer<A> =
    | Idle
      // In the compare-exchange loop, `expected` being the push index last seen.
    | Trying(action: A, expected: nat)
      // The exchange succeeded: slot `slot` is this producer's, nothing is stored yet.
    | Reserved(action: A, slot: nat, ticket: nat)
      // The action is stored, the flag is not.
    | Stored(action: A, slot: nat, ticket: nat)

  datatype Consumer =
    | Waiting
    | Executing       // inside the action of the slot at the pop index
    | ActionCleared   // the slot's action is reset, its flag is still set
    | FlagCleared     // the slot is free again, the pop index still points at it

  /** History: which action the successful exchange reserved for, by whom, and whether its flag has
      been set since. */
  datatype Ticket<A> = Ticket(action: A, producer: nat, filled: bool)

  /** `cleared` tickets have been executed and cleared. `overflow` records a reservation made while
      all slots were taken, `aborted` a failed assertion of Schedule. */
  datatype Dispatcher<A> = Dispatcher(
    slots: seq<Slot<A>>, push: nat, pop: nat,
    producers: seq<Producer<A>>, consumer: Consumer,
    tickets: seq<Ticket<A>>, cleared: nat, executed: seq<A>, overflow: bool, aborted: bool)

  datatype Action<A> =
    | StartSchedule(producer: nat, action: A)
    | Exchange(producer: nat, spurious: bool)
    | StoreAction(producer: nat)
    | SetFlag(producer: nat)
    | TryExecute
    | ClearAction
    | ClearFlag
    | AdvancePop

  function Next(i: nat, size: nat): nat
    requires size > 0
  {
    (i + 1) % size
  }

  function Initial<A>(size: nat, producers: nat): Dispatcher<A> {
    Dispatcher(seq(size, i => Slot(None, false)), 0, 0, seq(producers, i => Idle), Waiting, [], 0, [], false, false)
  }

  function WithProducer<A>(d: Dispatcher<A>, p: nat, producer: Producer<A>): Dispatcher<A>
    requires p < |d.producers|
  {
    d.(producers := d.producers[p := producer])
  }

  /** One step; an action that is not enabled leaves the dispatcher alone. */
  function Step<A>(d: Dispatcher<A>, a: Action<A>): Dispatcher<A>
    requires d.slots != []
  {
    match a
    case StartSchedule(p, action) =>
      if p < |d.producers| && d.producers[p].Idle? then WithProducer(d, p, Trying(action, d.push)) else d
    case Exchange(p, spurious) =>
      if p < |d.producers| && d.producers[p].Trying? then
        var t := d.producers[p];
        if d.push == t.expected && !spurious then
          WithProducer(d, p, Reserved(t.action, t.expected, |d.tickets|))
          .(push := Next(t.expected, |d.slots|),
            tickets := d.tickets + [Ticket(t.action, p, false)],
            overflow := d.overflow || |d.tickets| - d.cleared >= |d.slots|)
        else WithProducer(d, p, Trying(t.action, d.push))
      else d
    case StoreAction(p) =>
      if p < |d.producers| && d.producers[p].Reserved? && d.producers[p].slot < |d.slots| then
        var t := d.producers[p];
        WithProducer(d, p, Stored(t.action, t.slot, t.ticket))
        .(slots := d.slots[t.slot := d.slots[t.slot].(action := Some(t.action))])
      else d
    case SetFlag(p) =>
      if && p < |d.producers| && d.producers[p].Stored?
         && d.producers[p].slot < |d.slots| && d.producers[p].ticket < |d.tickets| then
        var t := d.producers[p];
        if d.slots[t.slot].filled then d.(aborted := true)
        else
          WithProducer(d, p, Idle)
          .(slots := d.slots[t.slot := d.slots[t.slot].(filled := true)],
            tickets := d.tickets[t.ticket := d.tickets[t.ticket].(filled := true)])
      else d
    case TryExecute =>
      if d.consumer.Waiting? && d.pop < |d.slots| && d.slots[d.pop].filled && d.slots[d.pop].action.Some? then
        d.(consumer := Executing, executed := d.executed + [d.slots[d.pop].action.value])
      else d
    case ClearAction =>
      if d.consumer.Executing? && d.pop < |d.slots| then
        d.(consumer := ActionCleared, slots := d.slots[d.pop := d.slots[d.pop].(action := None)])
      else d
    case ClearFlag =>
      if d.consumer.ActionCleared? && d.pop < |d.slots| then
        d.(consumer := FlagCleared, slots := d.slots[d.pop := d.slots[d.pop].(filled := false)],
          cleared := d.cleared + 1)
      else d
    case AdvancePop =>
      if d.consumer.FlagCleared? then d.(consumer := Waiting, pop := Next(d.pop, |d.slots|)) else d
  }

  function Run<A>(d: Dispatcher<A>, actions: seq<Action<A>>): (r: Dispatcher<A>)
    requires d.slots != []
    decreases |actions|
  {
    if actions == [] then d
    else
      StepKeepsSize(d, actions[0]);
      Run(Step(d, actions[0]), actions[1..])
  }

  lemma StepKeepsSize<A>(d: Dispatcher<A>, a: Action<A>)
    requires d.slots != []
    ensures |Step(d, a).slots| == |d.slots|
  {
  }

  // ---------------------------------------------------------------------------------------------
  // Invariant
  // ---------------------------------------------------------------------------------------------

  /** The slot of the first ticket that is not cleared. */
  function Head<A>(d: Dispatcher<A>): nat
    requires d.slots != []
  {
    if d.consumer.FlagCleared? then Next(d.pop, |d.slots|) else d.pop
  }

  function Wrap(head: nat, offset: int, size: nat): int {
    if head + offset < size then head + offset else head + offset - size
  }

  lemma NextIsWrap(i: nat, size: nat)
    requires i < size
    ensures Next(i, size) == Wrap(i, 1, size) && Next(i, size) < size
  {
    if i + 1 < size { assert (i + 1) % size == i + 1; } else { assert size % size == 0; }
  }

  function SlotOf<A>(d: Dispatcher<A>, ticket: int): (slot: int)
    requires d.pop < |d.slots|
    ensures d.cleared <= ticket <= d.cleared + |d.slots| ==> 0 <= slot < |d.slots|
  {
    NextIsWrap(d.pop, |d.slots|);
    Wrap(Head(d), ticket - d.cleared, |d.slots|)
  }

  predicate Holds<A>(p: Producer<A>, ticket: nat) { (p.Reserved? || p.Stored?) && p.ticket == ticket }

  predicate IndicesOk<A>(d: Dispatcher<A>) {
    && d.slots != [] && d.pop < |d.slots| && d.push < |d.slots|
    && d.cleared <= |d.tickets| <= d.cleared + |d.slots|
    && d.push == SlotOf(d, |d.tickets|)
  }

  /** What a taken slot holds. */
  predicate SlotOk<A(==)>(d: Dispatcher<A>, t: nat)
    requires IndicesOk(d) && d.cleared <= t < |d.tickets|
  {
    var slot := d.slots[SlotOf(d, t)];
    var ticket := d.tickets[t];
    && slot.filled == ticket.filled
    && (ticket.filled && !(t == d.cleared && d.consumer.ActionCleared?) ==> slot.action == Some(ticket.action))
    && (!ticket.filled ==> ticket.producer < |d.producers| && Holds(d.producers[ticket.producer], t))
  }

  predicate Free<A>(d: Dispatcher<A>, t: nat)
    requires IndicesOk(d) && d.cleared <= t < d.cleared + |d.slots|
  {
    !d.slots[SlotOf(d, t)].filled
  }

  predicate SlotsOk<A(==)>(d: Dispatcher<A>)
    requires IndicesOk(d)
  {
    && (forall t :: d.cleared <= t < |d.tickets| ==> SlotOk(d, t))
    && (forall t :: |d.tickets| <= t < d.cleared + |d.slots| ==> Free(d, t))
  }

  /** A producer that has reserved a slot owns it until it sets the flag. */
  predicate ProducerOk<A(==)>(d: Dispatcher<A>, p: nat)
    requires IndicesOk(d) && p < |d.producers|
  {
    var x := d.producers[p];
    x.Reserved? || x.Stored? ==>
      && d.cleared <= x.ticket < |d.tickets| && x.slot == SlotOf(d, x.ticket)
      && d.tickets[x.ticket] == Ticket(x.action, p, false)
      && (x.Stored? ==> d.slots[x.slot].action == Some(x.action))
  }

  predicate ConsumerOk<A(==)>(d: Dispatcher<A>)
    requires IndicesOk(d)
  {
    var started := d.cleared + if d.consumer.Executing? || d.consumer.ActionCleared? then 1 else 0;
    && started <= |d.tickets|
    && (started > d.cleared ==> d.tickets[d.cleared].filled)
    && |d.executed| == started
    && forall i :: 0 <= i < started ==> d.executed[i] == d.tickets[i].action
  }

  predicate Inv<A(==)>(d: Dispatcher<A>) {
    && IndicesOk(d) && SlotsOk(d)
    && (forall p :: 0 <= p < |d.producers| ==> ProducerOk(d, p))
    && ConsumerOk(d) && !d.aborted
  }

  // ---------------------------------------------------------------------------------------------
  // Every step keeps the invariant
  // ---------------------------------------------------------------------------------------------

  /** Moving the head by one ticket moves no slot. */
  lemma WrapShift(head: nat, offset: nat, size: nat)
    requires head < size && 1 <= offset <= size
    ensures 0 <= Wrap(head, 1, size) < size
    ensures Wrap(Wrap(head, 1, size), offset - 1, size) == Wrap(head, offset, size)
  {
  }

  lemma WrapInjective(head: nat, i: nat, j: nat, size: nat)
    requires head < size && i < j < size
    ensures 0 <= Wrap(head, i, size) < size && 0 <= Wrap(head, j, size) < size
    ensures Wrap(head, i, size) != Wrap(head, j, size)
  {
  }

  /** Different tickets have different slots. */
  lemma SlotsDiffer<A>(d: Dispatcher<A>, t: nat, u: nat)
    requires IndicesOk(d) && d.cleared <= t < d.cleared + |d.slots| && d.cleared <= u < d.cleared + |d.slots| && t != u
    ensures 0 <= SlotOf(d, t) < |d.slots| && 0 <= SlotOf(d, u) < |d.slots| && SlotOf(d, t) != SlotOf(d, u)
  {
    NextIsWrap(d.pop, |d.slots|);
    hide Wrap, Next;
    if t < u {
      WrapInjective(Head(d), t - d.cleared, u - d.cleared, |d.slots|);
    } else {
      WrapInjective(Head(d), u - d.cleared, t - d.cleared, |d.slots|);
    }
  }

  lemma StartKeepsInv<A>(d: Dispatcher<A>, p: nat, action: A)
    requires Inv(d)
    ensures Inv(Step(d, StartSchedule(p, action)))
  {
    hide Wrap, Next;
    var d' := Step(d, StartSchedule(p, action));
    TryingKeepsInv(d, d', p);
  }

  /** Entering or repeating the compare-exchange loop changes nothing that others see. */
  lemma TryingKeepsInv<A>(d: Dispatcher<A>, d': Dispatcher<A>, p: nat)
    requires Inv(d)
    requires
      || d' == d
      || (&& p < |d.producers| && (d.producers[p].Idle? || d.producers[p].Trying?)
          && exists x: Producer<A> :: x.Trying? && d' == WithProducer(d, p, x))
    ensures Inv(d')
  {
    hide Wrap, Next;
    if d' != d {
      forall q | 0 <= q < |d'.producers| ensures ProducerOk(d', q) { assert ProducerOk(d, q); }
      forall t | d.cleared <= t < |d.tickets| ensures SlotOk(d', t) { assert SlotOk(d, t); }
      forall t | |d.tickets| <= t < d.cleared + |d.slots| ensures Free(d', t) {
        assert Free(d, t);
      }
    }
  }

  lemma ReserveIndices<A>(d: Dispatcher<A>, p: nat)
    requires IndicesOk(d) && p < |d.producers| && d.producers[p].Trying? && d.push == d.producers[p].expected
    requires |d.tickets| - d.cleared < |d.slots|
    ensures IndicesOk(Step(d, Exchange(p, false)))
  {
    NextIsWrap(d.push, |d.slots|);
    NextIsWrap(d.pop, |d.slots|);
    hide Next;
  }

  /** A reservation moves no slot. */
  lemma ReserveSlotOf<A>(d: Dispatcher<A>, p: nat, t: int)
    requires IndicesOk(d) && p < |d.producers| && d.producers[p].Trying?
    ensures SlotOf(Step(d, Exchange(p, false)), t) == SlotOf(d, t)
  {
    StepKeepsSize(d, Exchange(p, false));
    hide Next, Wrap;
  }

  /** A successful exchange with a slot to spare: the slot is free, and now this producer's. */
  lemma ReserveKeepsInv<A>(d: Dispatcher<A>, p: nat)
    requires Inv(d) && p < |d.producers| && d.producers[p].Trying? && d.push == d.producers[p].expected
    requires |d.tickets| - d.cleared < |d.slots|
    ensures Inv(Step(d, Exchange(p, false)))
  {
    var d' := Step(d, Exchange(p, false));
    ReserveIndices(d, p);
    hide SlotOf, Next;
    assert Free(d, |d.tickets|);
    forall q | 0 <= q < |d'.producers| ensures ProducerOk(d', q) {
      assert ProducerOk(d, q);
      var holds := d.producers[q].Reserved? || d.producers[q].Stored?;
      ReserveSlotOf(d, p, if q == p then |d.tickets| else if holds then d.producers[q].ticket else 0);
    }
    forall t | d'.cleared <= t < |d'.tickets| ensures SlotOk(d', t) {
      ReserveSlotOf(d, p, t);
      assert t < |d.tickets| ==> SlotOk(d, t);
    }
    forall t | |d'.tickets| <= t < d.cleared + |d.slots| ensures Free(d', t) {
      ReserveSlotOf(d, p, t);
      assert Free(d, t);
    }
  }

  lemma StoreKeepsInv<A>(d: Dispatcher<A>, p: nat)
    requires Inv(d)
    ensures Inv(Step(d, StoreAction(p)))
  {
    hide Wrap, Next;
    var d' := Step(d, StoreAction(p));
    if d' != d {
      var x := d.producers[p];
      assert ProducerOk(d, p);
      forall q | 0 <= q < |d'.producers| ensures ProducerOk(d', q) {
        assert ProducerOk(d, q);
        var y := d.producers[q];
        if q != p && (y.Reserved? || y.Stored?) { SlotsDiffer(d, x.ticket, y.ticket); }
      }
      forall t | d.cleared <= t < |d.tickets| ensures SlotOk(d', t) {
        assert SlotOk(d, t);
        if t != x.ticket { SlotsDiffer(d, t, x.ticket); }
      }
      forall t | |d.tickets| <= t < d.cleared + |d.slots| ensures Free(d', t) {
        assert Free(d, t);
      }
    }
  }

  /** Setting the flag: the assertion of Schedule holds. */
  lemma SetFlagKeepsInv<A>(d: Dispatcher<A>, p: nat)
    requires Inv(d)
    ensures Inv(Step(d, SetFlag(p)))
  {
    hide Wrap, Next;
    var d' := Step(d, SetFlag(p));
    if p < |d.producers| && d.producers[p].Stored? {
      var x := d.producers[p];
      assert ProducerOk(d, p);
      assert SlotOk(d, x.ticket);
      forall q | 0 <= q < |d'.producers| ensures ProducerOk(d', q) { assert ProducerOk(d, q); }
      forall t | d.cleared <= t < |d.tickets| ensures SlotOk(d', t) {
        assert SlotOk(d, t);
        if t != x.ticket { SlotsDiffer(d, t, x.ticket); }
      }
      forall t | |d.tickets| <= t < d.cleared + |d.slots| ensures Free(d', t) {
        assert Free(d, t);
        SlotsDiffer(d, t, x.ticket);
      }
    }
  }

  lemma HeadIsFirstTicket<A>(d: Dispatcher<A>)
    requires IndicesOk(d) && !d.consumer.FlagCleared?
    ensures SlotOf(d, d.cleared) == d.pop
  {
  }

  /** The consumer executes the oldest ticket, as soon as it is filled and never before. */
  lemma ExecuteKeepsInv<A>(d: Dispatcher<A>)
    requires Inv(d)
    ensures Inv(Step(d, TryExecute))
  {
    var d' := Step(d, TryExecute);
    if d' != d {
      HeadIsFirstTicket(d);
      hide Wrap, Next;
      assert d.cleared < |d.tickets| by {
        assert d.cleared == |d.tickets| ==> Free(d, d.cleared);
      }
      assert SlotOk(d, d.cleared);
      forall q | 0 <= q < |d'.producers| ensures ProducerOk(d', q) { assert ProducerOk(d, q); }
      forall t | d.cleared <= t < |d.tickets| ensures SlotOk(d', t) { assert SlotOk(d, t); }
      forall t | |d.tickets| <= t < d.cleared + |d.slots| ensures Free(d', t) {
        assert Free(d, t);
      }
    }
  }

  lemma ClearActionKeepsInv<A>(d: Dispatcher<A>)
    requires Inv(d)
    ensures Inv(Step(d, ClearAction))
  {
    var d' := Step(d, ClearAction);
    if d' != d {
      HeadIsFirstTicket(d);
      hide Wrap, Next;
      assert SlotOk(d, d.cleared);
      forall q | 0 <= q < |d'.producers| ensures ProducerOk(d', q) {
        assert ProducerOk(d, q);
        var y := d.producers[q];
        if y.Reserved? || y.Stored? { SlotsDiffer(d, d.cleared, y.ticket); }
      }
      forall t | d.cleared <= t < |d.tickets| ensures SlotOk(d', t) {
        assert SlotOk(d, t);
        if t != d.cleared { SlotsDiffer(d, t, d.cleared); }
      }
      forall t | |d.tickets| <= t < d.cleared + |d.slots| ensures Free(d', t) {
        assert Free(d, t);
        SlotsDiffer(d, t, d.cleared);
      }
    }
  }

  /** After the flag is cleared the head is one slot further, and every slot where it was. */
  lemma SlotOfAfterClear<A>(d: Dispatcher<A>, t: nat)
    requires IndicesOk(d) && d.consumer.ActionCleared? && d.cleared < t <= d.cleared + |d.slots|
    ensures SlotOf(Step(d, ClearFlag), t) == SlotOf(d, t)
    ensures t == d.cleared + |d.slots| ==> SlotOf(d, t) == d.pop
  {
    NextIsWrap(d.pop, |d.slots|);
    WrapShift(d.pop, t - d.cleared, |d.slots|);
    hide Next;
  }

  lemma ClearFlagKeepsInv<A>(d: Dispatcher<A>)
    requires Inv(d)
    ensures Inv(Step(d, ClearFlag))
  {
    var d' := Step(d, ClearFlag);
    if d' != d {
      HeadIsFirstTicket(d);
      SlotOfAfterClear(d, |d.tickets|);
      hide SlotOf;
      assert SlotOk(d, d.cleared);
      forall q | 0 <= q < |d'.producers| ensures ProducerOk(d', q) {
        assert ProducerOk(d, q);
        var y := d.producers[q];
        if y.Reserved? || y.Stored? {
          SlotsDiffer(d, d.cleared, y.ticket);
          SlotOfAfterClear(d, y.ticket);
        }
      }
      forall t | d'.cleared <= t < |d'.tickets| ensures SlotOk(d', t) {
        assert SlotOk(d, t);
        SlotsDiffer(d, t, d.cleared);
        SlotOfAfterClear(d, t);
      }
      forall t | |d'.tickets| <= t < d'.cleared + |d'.slots| ensures Free(d', t) {
        SlotOfAfterClear(d, t);
        if t < d.cleared + |d.slots| {
          SlotsDiffer(d, t, d.cleared);
          assert Free(d, t);
        }
      }
    }
  }

  lemma AdvanceKeepsInv<A>(d: Dispatcher<A>)
    requires Inv(d)
    ensures Inv(Step(d, AdvancePop))
  {
    var d' := Step(d, AdvancePop);
    if d' != d {
      NextIsWrap(d.pop, |d.slots|);
      hide Next, Wrap;
      forall q | 0 <= q < |d'.producers| ensures ProducerOk(d', q) { assert ProducerOk(d, q); }
      forall t | d.cleared <= t < |d.tickets| ensures SlotOk(d', t) { assert SlotOk(d, t); }
      forall t | |d.tickets| <= t < d.cleared + |d.slots| ensures Free(d', t) {
        assert Free(d, t);
      }
    }
  }

  lemma StepKeepsInv<A>(d: Dispatcher<A>, a: Action<A>)
    requires Inv(d)
    ensures Step(d, a).overflow || Inv(Step(d, a))
  {
    hide Inv;
    match a
    case StartSchedule(p, action) => StartKeepsInv(d, p, action);
    case Exchange(p, spurious) => ExchangeKeepsInv(d, p, spurious);
    case StoreAction(p) => StoreKeepsInv(d, p);
    case SetFlag(p) => SetFlagKeepsInv(d, p);
    case TryExecute => ExecuteKeepsInv(d);
    case ClearAction => ClearActionKeepsInv(d);
    case ClearFlag => ClearFlagKeepsInv(d);
    case AdvancePop => AdvanceKeepsInv(d);
  }

  lemma ExchangeKeepsInv<A>(d: Dispatcher<A>, p: nat, spurious: bool)
    requires Inv(d)
    ensures Step(d, Exchange(p, spurious)).overflow || Inv(Step(d, Exchange(p, spurious)))
  {
    if p < |d.producers| && d.producers[p].Trying? {
      if d.push == d.producers[p].expected && !spurious {
        if |d.tickets| - d.cleared < |d.slots| { ReserveKeepsInv(d, p); }
      } else {
        assert Trying(d.producers[p].action, d.push).Trying?;
        TryingKeepsInv(d, Step(d, Exchange(p, spurious)), p);
      }
    }
  }

  lemma OverflowStays<A>(d: Dispatcher<A>, a: Action<A>)
    requires d.slots != [] && d.overflow
    ensures Step(d, a).overflow
  {
  }

  lemma {:induction false} RunKeepsInv<A>(d: Dispatcher<A>, actions: seq<Action<A>>)
    requires d.slots != [] && (d.overflow || Inv(d))
    ensures Run(d, actions).overflow || Inv(Run(d, actions))
    decreases |actions|
  {
    if actions != [] {
      if d.overflow { OverflowStays(d, actions[0]); } else { StepKeepsInv(d, actions[0]); }
      StepKeepsSize(d, actions[0]);
      hide Step, Inv;
      RunKeepsInv(Step(d, actions[0]), actions[1..]);
    }
  }

  /** No producer is between its exchange and its flag, and the consumer finds nothing to do. */
  predicate Quiescent<A>(d: Dispatcher<A>) {
    && (forall p :: 0 <= p < |d.producers| ==> !d.producers[p].Reserved? && !d.producers[p].Stored?)
    && d.consumer.Waiting? && d.pop < |d.slots| && !d.slots[d.pop].filled
  }

  /** In every interleaving that never reserves a slot while all are taken: no assertion fails, the
      actions executed are those of the first successful exchanges, in that order, each once; and when
      nothing is in progress any more, all of them have been executed. */
  lemma ExecutedInOrder<A>(size: nat, producers: nat, actions: seq<Action<A>>)
    requires size > 0
    ensures var d := Run(Initial<A>(size, producers), actions);
      !d.overflow ==>
        && !d.aborted
        && |d.executed| <= |d.tickets| && (forall i :: 0 <= i < |d.executed| ==> d.executed[i] == d.tickets[i].action)
        && (Quiescent(d) ==> |d.executed| == |d.tickets|)
  {
    var start := Initial<A>(size, producers);
    assert Inv(start);
    RunKeepsInv(start, actions);
    var d := Run(start, actions);
    if !d.overflow && Quiescent(d) {
      HeadIsFirstTicket(d);
      assert d.cleared < |d.tickets| ==> SlotOk(d, d.cleared);
    }
  }

  // ---------------------------------------------------------------------------------------------
  // Everything that is scheduled is executed
  // ---------------------------------------------------------------------------------------------

  /** The actions that a run gives to idle producers to schedule. */
  function Given<A>(d: Dispatcher<A>, actions: seq<Action<A>>): seq<A>
    requires d.slots != []
    decreases |actions|
  {
    if actions == [] then []
    else
      StepKeepsSize(d, actions[0]);
      GivenNow(d, actions[0]) + Given(Step(d, actions[0]), actions[1..])
  }

  function GivenNow<A>(d: Dispatcher<A>, a: Action<A>): seq<A> {
    if a.StartSchedule? && a.producer < |d.producers| && d.producers[a.producer].Idle? then [a.action] else []
  }

  function IsTrying<A(==)>(p: Producer<A>, x: A): nat { if p.Trying? && p.action == x then 1 else 0 }

  /** How many producers have the action `x` and no slot for it yet. */
  function Pending<A(==)>(producers: seq<Producer<A>>, x: A): nat {
    if producers == [] then 0 else IsTrying(producers[0], x) + Pending(producers[1..], x)
  }

  function Ticketed<A>(tickets: seq<Ticket<A>>): seq<A> {
    seq(|tickets|, i requires 0 <= i < |tickets| => tickets[i].action)
  }

  lemma {:induction false} PendingUpdate<A>(producers: seq<Producer<A>>, p: nat, y: Producer<A>, x: A)
    requires p < |producers|
    ensures Pending(producers[p := y], x) == Pending(producers, x) - IsTrying(producers[p], x) + IsTrying(y, x)
    decreases |producers|
  {
    if p == 0 {
      assert producers[p := y][1..] == producers[1..];
    } else {
      assert producers[p := y][1..] == producers[1..][p - 1 := y];
      PendingUpdate(producers[1..], p - 1, y, x);
    }
  }

  /** How often `x` has a ticket or is being tried. */
  function Taken<A(==)>(d: Dispatcher<A>, x: A): nat { multiset(Ticketed(d.tickets))[x] + Pending(d.producers, x) }

  /** What is given to the producers is, at every time, what has a ticket and what is still being tried. */
  lemma StepConserves<A>(d: Dispatcher<A>, a: Action<A>, x: A)
    requires d.slots != []
    ensures Taken(Step(d, a), x) == Taken(d, x) + multiset(GivenNow(d, a))[x]
  {
    hide Pending, Ticketed, Next;
    var d' := Step(d, a);
    match a
    case StartSchedule(p, action) =>
      if p < |d.producers| { PendingUpdate(d.producers, p, Trying(action, d.push), x); }
    case Exchange(p, _) => ExchangeConserves(d, a, x);
    case StoreAction(p) =>
      if p < |d.producers| { PendingUpdate(d.producers, p, d'.producers[p], x); }
    case SetFlag(p) => FlagConserves(d, a, x);
    case _ =>
  }

  lemma FlagConserves<A>(d: Dispatcher<A>, a: Action<A>, x: A)
    requires d.slots != [] && a.SetFlag?
    ensures Taken(Step(d, a), x) == Taken(d, x)
  {
    hide Pending, Ticketed, Next;
    if a.producer < |d.producers| {
      PendingUpdate(d.producers, a.producer, Idle, x);
      SameTicketed(d.tickets, Step(d, a).tickets);
    }
  }

  lemma SameTicketed<A>(before: seq<Ticket<A>>, after: seq<Ticket<A>>)
    requires |after| == |before| && forall i :: 0 <= i < |after| ==> after[i].action == before[i].action
    ensures Ticketed(after) == Ticketed(before)
  {
  }

  lemma ExchangeConserves<A>(d: Dispatcher<A>, a: Action<A>, x: A)
    requires d.slots != [] && a.Exchange?
    ensures Taken(Step(d, a), x) == Taken(d, x)
  {
    hide Pending, Next;
    var p := a.producer;
    if p < |d.producers| && d.producers[p].Trying? {
      var t := d.producers[p];
      PendingUpdate(d.producers, p, Trying(t.action, d.push), x);
      PendingUpdate(d.producers, p, Reserved(t.action, t.expected, |d.tickets|), x);
      assert Ticketed(d.tickets + [Ticket(t.action, p, false)]) == Ticketed(d.tickets) + [t.action];
    }
  }

  lemma {:induction false} RunConserves<A>(d: Dispatcher<A>, actions: seq<Action<A>>, x: A)
    requires d.slots != []
    ensures Taken(Run(d, actions), x) == Taken(d, x) + multiset(Given(d, actions))[x]
    decreases |actions|
  {
    if actions != [] {
      hide Step, Taken;
      StepKeepsSize(d, actions[0]);
      StepConserves(d, actions[0], x);
      RunConserves(Step(d, actions[0]), actions[1..], x);
    }
  }

  lemma {:induction false} NonePending<A>(producers: seq<Producer<A>>, x: A)
    requires forall p :: 0 <= p < |producers| ==> !producers[p].Trying?
    ensures Pending(producers, x) == 0
    decreases |producers|
  {
    if producers != [] { NonePending(producers[1..], x); }
  }

  /** In every interleaving, each action given to a producer has a ticket or is still being tried; and when
      no slot was ever reserved while all were taken and nothing is in progress any more, the actions
      executed are exactly those given to the producers, each as often. */
  lemma ScheduledIsExecuted<A(!new)>(size: nat, producers: nat, actions: seq<Action<A>>)
    requires size > 0
    ensures var start := Initial<A>(size, producers);
      var d := Run(start, actions);
      && (forall x :: multiset(Given(start, actions))[x] == multiset(Ticketed(d.tickets))[x] + Pending(d.producers, x))
      && (!d.overflow && Quiescent(d) && (forall p :: 0 <= p < |d.producers| ==> !d.producers[p].Trying?) ==>
            multiset(d.executed) == multiset(Given(start, actions)))
  {
    hide Step, Run, Given, Pending, Ticketed;
    var start := Initial<A>(size, producers);
    var d := Run(start, actions);
    forall x ensures multiset(Given(start, actions))[x] == multiset(Ticketed(d.tickets))[x] + Pending(d.producers, x) {
      GivenIsTaken(size, producers, actions, x);
    }
    if !d.overflow && Quiescent(d) && (forall p :: 0 <= p < |d.producers| ==> !d.producers[p].Trying?) {
      ExecutedIsTicketed(size, producers, actions);
      forall x ensures multiset(d.executed)[x] == multiset(Given(start, actions))[x] {
        NonePending(d.producers, x);
      }
      assert multiset(d.executed) == multiset(Given(start, actions));
    }
  }

  lemma GivenIsTaken<A>(size: nat, producers: nat, actions: seq<Action<A>>, x: A)
    requires size > 0
    ensures var start := Initial<A>(size, producers);
      multiset(Given(start, actions))[x] == Taken(Run(start, actions), x)
  {
    hide Step, Run, Given, Pending;
    var start := Initial<A>(size, producers);
    RunConserves(start, actions, x);
    NonePending(start.producers, x);
    assert Ticketed(start.tickets) == [];
  }

  lemma ExecutedIsTicketed<A>(size: nat, producers: nat, actions: seq<Action<A>>)
    requires size > 0 && !Run(Initial<A>(size, producers), actions).overflow
    requires Quiescent(Run(Initial<A>(size, producers), actions))
    ensures var d := Run(Initial<A>(size, producers), actions); d.executed == Ticketed(d.tickets)
  {
    hide Step, Run;
    ExecutedInOrder(size, producers, actions);
  }

  // ---------------------------------------------------------------------------------------------
  // When slots run out
  // ---------------------------------------------------------------------------------------------

  /** Overflow is recorded only at a successful exchange that finds all slots taken. */
  lemma OverflowIsReal<A>(d: Dispatcher<A>, a: Action<A>)
    requires Inv(d) && !d.overflow && Step(d, a).overflow
    ensures a.Exchange? && |d.tickets| == d.cleared + |d.slots|
  {
    hide Next, Wrap;
  }

  function TryingCount<A>(producers: seq<Producer<A>>): nat {
    if producers == [] then 0 else (if producers[0].Trying? then 1 else 0) + TryingCount(producers[1..])
  }

  lemma {:induction false} CountUpdate<A>(producers: seq<Producer<A>>, p: nat, y: Producer<A>)
    requires p < |producers|
    ensures TryingCount(producers[p := y])
         == TryingCount(producers) - (if producers[p].Trying? then 1 else 0) + (if y.Trying? then 1 else 0)
    decreases |producers|
  {
    if p == 0 {
      assert producers[p := y][1..] == producers[1..];
    } else {
      assert producers[p := y][1..] == producers[1..][p - 1 := y];
      CountUpdate(producers[1..], p - 1, y);
    }
  }

  lemma StepCounts<A>(d: Dispatcher<A>, a: Action<A>)
    requires d.slots != []
    ensures var d' := Step(d, a);
      |d'.tickets| + TryingCount(d'.producers) == |d.tickets| + TryingCount(d.producers) + |GivenNow(d, a)|
  {
    hide TryingCount, Next;
    var d' := Step(d, a);
    if (a.StartSchedule? || a.Exchange? || a.StoreAction? || a.SetFlag?) && a.producer < |d.producers| {
      var p := a.producer;
      assert d'.producers == d.producers[p := d'.producers[p]];
      CountUpdate(d.producers, p, d'.producers[p]);
    }
  }

  /** As long as no more actions were given than there are slots, they never run out. */
  lemma {:induction false} FewNeverOverflow<A>(d: Dispatcher<A>, actions: seq<Action<A>>)
    requires Inv(d) && !d.overflow
    requires |d.tickets| + TryingCount(d.producers) + |Given(d, actions)| <= d.cleared + |d.slots|
    ensures !Run(d, actions).overflow
    decreases |actions|
  {
    if actions != [] {
      var d' := Step(d, actions[0]);
      StepCounts(d, actions[0]);
      StepKeepsInv(d, actions[0]);
      StepKeepsSize(d, actions[0]);
      assert d'.cleared >= d.cleared;
      if actions[0].Exchange? { TryingCounts(d.producers, actions[0].producer); }
      hide Inv, TryingCount, Next;
      assert !d'.overflow;
      hide Step;
      FewNeverOverflow(d', actions[1..]);
    }
  }

  lemma {:induction false} TryingCounts<A>(producers: seq<Producer<A>>, p: nat)
    ensures p < |producers| && producers[p].Trying? ==> TryingCount(producers) >= 1
    decreases |producers|
  {
    if 0 < p < |producers| { TryingCounts(producers[1..], p - 1); }
  }

  // ---------------------------------------------------------------------------------------------
  // Progress
  // ---------------------------------------------------------------------------------------------

  lemma RunFirst<A>(d: Dispatcher<A>, a: Action<A>, rest: seq<Action<A>>)
    requires d.slots != []
    ensures Step(d, a).slots != [] && Run(d, [a] + rest) == Run(Step(d, a), rest)
  {
    hide Step;
    StepKeepsSize(d, a);
    assert ([a] + rest)[1..] == rest;
  }

  lemma {:induction false} RunConcat<A>(d: Dispatcher<A>, a: seq<Action<A>>, b: seq<Action<A>>)
    requires d.slots != []
    ensures Run(d, a).slots != [] && Run(d, a + b) == Run(Run(d, a), b)
    decreases |a|
  {
    hide Step;
    if a == [] {
      assert a + b == b;
    } else {
      StepKeepsSize(d, a[0]);
      assert (a + b)[1..] == a[1..] + b;
      RunConcat(Step(d, a[0]), a[1..], b);
    }
  }

  /** Given to an idle producer, an action is being tried. */
  lemma StartIsTrying<A>(d: Dispatcher<A>, p: nat, action: A)
    requires d.slots != [] && p < |d.producers| && d.producers[p].Idle?
    ensures Step(d, StartSchedule(p, action)) == WithProducer(d, p, Trying(action, d.push))
  {
  }

  /** An exchange reserves one ticket for the action, or sees the current index; the next one then
      succeeds unless it is spurious. */
  lemma ExchangeReserves<A>(d: Dispatcher<A>, p: nat, spurious: bool)
    requires d.slots != [] && p < |d.producers| && d.producers[p].Trying?
    ensures var d' := Step(d, Exchange(p, spurious));
      if d.push == d.producers[p].expected && !spurious then
        && d'.tickets == d.tickets + [Ticket(d.producers[p].action, p, false)]
        && d'.producers == d.producers[p := Reserved(d.producers[p].action, d.push, |d.tickets|)]
        && d'.slots == d.slots && d'.executed == d.executed && d'.cleared == d.cleared
      else d' == WithProducer(d, p, Trying(d.producers[p].action, d.push))
  {
  }

  lemma TwoExchangesReserve<A>(d: Dispatcher<A>, p: nat)
    requires d.slots != [] && p < |d.producers| && d.producers[p].Trying?
    ensures var d' := Run(d, [Exchange(p, false), Exchange(p, false)]);
      && d'.tickets == d.tickets + [Ticket(d.producers[p].action, p, false)]
      && p < |d'.producers| && d'.producers[p] == Reserved(d.producers[p].action, d.push, |d.tickets|)
  {
    var a: Action<A> := Exchange(p, false);
    assert [a, a] == [a] + [a] && [a] == [a] + [];
    RunFirst(d, a, [a]);
    RunFirst(Step(d, a), a, []);
    hide Next;
  }

  /** A producer that has reserved a slot finishes, whatever the others do. */
  lemma ProducerFinishes<A>(d: Dispatcher<A>, p: nat)
    requires Inv(d) && p < |d.producers| && (d.producers[p].Reserved? || d.producers[p].Stored?)
    ensures var d' := Run(d, [StoreAction(p), SetFlag(p)]);
      && Inv(d') && d'.producers == d.producers[p := Idle] && d.producers[p].ticket < |d.tickets|
      && d'.tickets == d.tickets[d.producers[p].ticket := Ticket(d.producers[p].action, p, true)]
      && d'.cleared == d.cleared && d'.consumer == d.consumer && d'.executed == d.executed
  {
    var a: Action<A> := StoreAction(p);
    var b: Action<A> := SetFlag(p);
    assert [a, b] == [a] + [b] && [b] == [b] + [];
    RunFirst(d, a, [b]);
    RunFirst(Step(d, a), b, []);
    assert ProducerOk(d, p);
    StoreKeepsInv(d, p);
    var d1 := Step(d, a);
    SetFlagKeepsInv(d1, p);
    hide SlotOf;
    assert ProducerOk(d1, p);
    assert SlotOk(d1, d.producers[p].ticket);
  }

  /** A waiting consumer executes the oldest action as soon as it is filled, and frees its slot. */
  lemma ConsumerExecutes<A>(d: Dispatcher<A>)
    requires Inv(d) && d.consumer.Waiting? && d.cleared < |d.tickets| && d.tickets[d.cleared].filled
    ensures var d' := Run(d, [TryExecute, ClearAction, ClearFlag, AdvancePop]);
      && Inv(d') && d'.consumer.Waiting? && d'.cleared == d.cleared + 1
      && d'.executed == d.executed + [d.tickets[d.cleared].action]
      && d'.tickets == d.tickets && d'.producers == d.producers
  {
    var a: Action<A> := TryExecute;
    var b: Action<A> := ClearAction;
    var c: Action<A> := ClearFlag;
    var e: Action<A> := AdvancePop;
    assert [a, b, c, e] == [a] + [b, c, e] && [b, c, e] == [b] + [c, e] && [c, e] == [c] + [e] && [e] == [e] + [];
    hide Inv, Step, SlotOf;
    var d1 := Step(d, a);
    ExecuteStep(d);
    var d2 := Step(d1, b);
    ClearStep(d1);
    var d3 := Step(d2, c);
    FreeStep(d2);
    AdvanceStep(d3);
    RunFirst(d, a, [b, c, e]);
    RunFirst(d1, b, [c, e]);
    RunFirst(d2, c, [e]);
    RunFirst(d3, e, []);
  }

  lemma ExecuteStep<A>(d: Dispatcher<A>)
    requires Inv(d) && d.consumer.Waiting? && d.cleared < |d.tickets| && d.tickets[d.cleared].filled
    ensures var d' := Step(d, TryExecute);
      && Inv(d') && d'.slots != []
      && d' == d.(consumer := Executing, executed := d.executed + [d.tickets[d.cleared].action])
  {
    ExecuteKeepsInv(d);
    HeadIsFirstTicket(d);
    assert SlotOk(d, d.cleared);
  }

  lemma ClearStep<A>(d: Dispatcher<A>)
    requires Inv(d) && d.consumer.Executing?
    ensures var d' := Step(d, ClearAction);
      Inv(d') && d'.slots != [] && d' == d.(consumer := ActionCleared, slots := d'.slots)
  {
    ClearActionKeepsInv(d);
  }

  lemma FreeStep<A>(d: Dispatcher<A>)
    requires Inv(d) && d.consumer.ActionCleared?
    ensures var d' := Step(d, ClearFlag);
      && Inv(d') && d'.slots != []
      && d' == d.(consumer := FlagCleared, slots := d'.slots, cleared := d.cleared + 1)
  {
    ClearFlagKeepsInv(d);
  }

  lemma AdvanceStep<A>(d: Dispatcher<A>)
    requires Inv(d) && d.consumer.FlagCleared?
    ensures var d' := Step(d, AdvancePop);
      Inv(d') && d'.slots != [] && d' == d.(consumer := Waiting, pop := d'.pop)
  {
    AdvanceKeepsInv(d);
  }

  /** Once no producer holds a slot, the consumer alone executes everything that is left. */
  lemma {:induction false} ConsumerDrains<A>(d: Dispatcher<A>) returns (actions: seq<Action<A>>)
    requires Inv(d) && d.consumer.Waiting?
    requires forall p :: 0 <= p < |d.producers| ==> !d.producers[p].Reserved? && !d.producers[p].Stored?
    ensures var d' := Run(d, actions);
      && Inv(d') && Quiescent(d') && d'.executed == Ticketed(d.tickets)
      && d'.tickets == d.tickets && d'.producers == d.producers
    decreases |d.tickets| - d.cleared
  {
    if d.cleared == |d.tickets| {
      actions := [];
      HeadIsFirstTicket(d);
      assert Free(d, d.cleared);
      assert d.executed == Ticketed(d.tickets);
    } else {
      assert SlotOk(d, d.cleared);
      var turn: seq<Action<A>> := [TryExecute, ClearAction, ClearFlag, AdvancePop];
      ConsumerExecutes(d);
      var rest := ConsumerDrains(Run(d, turn));
      actions := turn + rest;
      RunConcat(d, turn, rest);
    }
  }
}
