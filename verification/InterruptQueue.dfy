/** The ring between one reader and one writing interrupt, infra/event/QueueForOneReaderOneIrqWriter.hpp,
    as a machine whose steps are the single loads and stores of the two sides. The elements accepted
    and the elements read so far are kept as history. */
module InterruptQueue {

  datatype Writer<T> =
    | WriterIdle
      // The range fits; `done` of its elements are stored, none is published yet.
    | Storing(data: seq<T>, done: nat, single: bool)
      // contentsEnd has been stored, NotifyDataAvailable has yet to look.
    | Notifying
      // The queue was not empty, the flag has yet to be exchanged.
    | Exchanging
      // The flag was clear and is now set, the event has yet to be scheduled.
    | Scheduling

  datatype Reader<T> =
    | ReaderIdle
      // Get has read its element, contentsBegin has yet to move.
    | Getting(element: T)
      // `size` elements were available at a look at contentsEnd; `seen` of them are read in place, and
      // any number of those may then be consumed.
    | Reading(size: nat, seen: seq<T>)
      // Consume has stored buffer.begin() into contentsBegin and has `amount` left to add.
    | Consuming(seen: seq<T>, amount: nat)

  datatype Queue<T> = Queue(
    buffer: seq<T>, begin: nat, end: nat, notificationScheduled: bool,
    writer: Writer<T>, reader: Reader<T>,
    accepted: seq<T>, read: seq<T>, events: nat, announced: nat)

  datatype Action<T> =
    | StartAdd(element: T)
    | StartAddRange(data: seq<T>)
    | StoreElement
    | PublishEnd
    | CheckEmpty
    | ExchangeFlag
    | ScheduleEvent
    | GetElement
    | GetAdvance
    | LookAtEnd
    | ReadElement
    | Consume(amount: nat)
    | ConsumeRest
    | DataAvailable

  // ---------------------------------------------------------------------------------------------
  // The arithmetic of the source
  // ---------------------------------------------------------------------------------------------

  predicate Full(begin: nat, end: nat, size: nat) {
    (end == size - 1 || begin == end + 1) && (end != size - 1 || begin == 0)
  }

  function Size(begin: nat, end: nat, size: nat): int {
    if Full(begin, end, size) then size - 1
    else if end >= begin then end - begin
    else (size - begin) + end
  }

  /** The room that AddFromInterruptUnchecked of a range computes. */
  function Available(begin: nat, end: nat, size: nat): int {
    if begin <= end then size - 1 - (end - begin) else begin - end - 1
  }

  /** Where a range add stores its element `i`: up to the end of the buffer, then from its start. */
  function StoreIndex(end: nat, i: nat, length: nat, size: nat): int {
    var copySize := if length < size - end then length else size - end;
    if i < copySize then end + i
    else (if end == size - copySize then 0 else end + copySize) + (i - copySize)
  }

  function EndAfterRange(end: nat, length: nat, size: nat): int {
    var copySize := if length < size - end then length else size - end;
    (if end == size - copySize then 0 else end + copySize) + (length - copySize)
  }

  function Next(i: nat, size: nat): int { if i == size - 1 then 0 else i + 1 }

  /** The cell of operator[] and ContiguousRange, `offset` elements after `begin`. */
  function Cell(begin: nat, offset: nat, size: nat): int {
    if begin + offset >= size then offset - (size - begin) else begin + offset
  }

  /** ContiguousRange, as a lower and an upper cell index. */
  function ContiguousRange(begin: nat, end: nat, offset: nat, size: nat): (int, int) {
    var low := Cell(begin, offset, size);
    if end < low then (low, size) else (low, end)
  }

  // ---------------------------------------------------------------------------------------------
  // Steps
  // ---------------------------------------------------------------------------------------------

  function Initial<T>(buffer: seq<T>): Queue<T> {
    Queue(buffer, 0, 0, false, WriterIdle, ReaderIdle, [], [], 0, 0)
  }

  /** One step; an action that is not enabled leaves the queue alone. Actions of the writer and of
      the reader may alternate in any way. */
  function Step<T>(q: Queue<T>, a: Action<T>): Queue<T> {
    var size := |q.buffer|;
    match a
    case StartAdd(element) =>
      if q.writer.WriterIdle? && !Full(q.begin, q.end, size) then q.(writer := Storing([element], 0, true)) else q
    case StartAddRange(data) =>
      if q.writer.WriterIdle? && |data| <= Available(q.begin, q.end, size) then
        q.(writer := Storing(data, 0, false))
      else q
    case StoreElement =>
      if q.writer.Storing? && q.writer.done < |q.writer.data| then
        var i := if q.writer.single then q.end else StoreIndex(q.end, q.writer.done, |q.writer.data|, size);
        if 0 <= i < size then
          q.(buffer := q.buffer[i := q.writer.data[q.writer.done]], writer := q.writer.(done := q.writer.done + 1))
        else q
      else q
    case PublishEnd =>
      if q.writer.Storing? && q.writer.done == |q.writer.data| then
        var end := if q.writer.single then Next(q.end, size) else EndAfterRange(q.end, |q.writer.data|, size);
        if 0 <= end then q.(end := end, accepted := q.accepted + q.writer.data, writer := Notifying) else q
      else q
    case CheckEmpty =>
      if q.writer.Notifying? then q.(writer := if q.begin == q.end then WriterIdle else Exchanging) else q
    case ExchangeFlag =>
      if q.writer.Exchanging? then
        q.(notificationScheduled := true, writer := if q.notificationScheduled then WriterIdle else Scheduling)
      else q
    case ScheduleEvent =>
      if q.writer.Scheduling? then q.(events := q.events + 1, writer := WriterIdle) else q
    case GetElement =>
      if q.reader.ReaderIdle? && q.begin != q.end && q.begin < size then q.(reader := Getting(q.buffer[q.begin])) else q
    case GetAdvance =>
      if q.reader.Getting? && Next(q.begin, size) >= 0 then
        q.(begin := Next(q.begin, size), read := q.read + [q.reader.element], reader := ReaderIdle)
      else q
    case LookAtEnd =>
      if q.reader.ReaderIdle? && Size(q.begin, q.end, size) >= 0 then
        q.(reader := Reading(Size(q.begin, q.end, size), []))
      else q
    case ReadElement =>
      if q.reader.Reading? && |q.reader.seen| < q.reader.size then
        var i := Cell(q.begin, |q.reader.seen|, size);
        if 0 <= i < size then q.(reader := Reading(q.reader.size, q.reader.seen + [q.buffer[i]])) else q
      else q
    case Consume(amount) =>
      if q.reader.Reading? && amount <= |q.reader.seen| then
        if q.begin + amount >= size && q.begin <= size then
          q.(begin := 0, reader := Consuming(q.reader.seen[..amount], amount - (size - q.begin)))
        else
          q.(begin := q.begin + amount, read := q.read + q.reader.seen[..amount], reader := ReaderIdle)
      else q
    case ConsumeRest =>
      if q.reader.Consuming? then
        q.(begin := q.begin + q.reader.amount, read := q.read + q.reader.seen, reader := ReaderIdle)
      else q
    case DataAvailable =>
      if q.reader.ReaderIdle? && q.events > 0 then
        q.(events := q.events - 1, notificationScheduled := false, announced := |q.accepted|)
      else q
  }

  function Run<T>(q: Queue<T>, actions: seq<Action<T>>): Queue<T>
    decreases |actions|
  {
    if actions == [] then q else Run(Step(q, actions[0]), actions[1..])
  }

  // ---------------------------------------------------------------------------------------------
  // Invariant
  // ---------------------------------------------------------------------------------------------

  /** How many elements contentsBegin has passed: in the middle of a Consume, not yet all of them. */
  function Passed<T>(q: Queue<T>): int {
    |q.read| + if q.reader.Consuming? then |q.reader.seen| - q.reader.amount else 0
  }

  function Unread<T>(q: Queue<T>): int { |q.accepted| - Passed(q) }

  /** The ring: the accepted elements that contentsBegin has not passed, in order, between the two
      indices, with one cell always free. */
  predicate Ring<T(==)>(q: Queue<T>) {
    var size := |q.buffer|;
    && q.begin < size && q.end < size
    && 0 <= Passed(q) && 0 <= Unread(q) < size
    && q.end == Cell(q.begin, Unread(q), size)
    && forall i :: 0 <= i < Unread(q) ==> q.buffer[Cell(q.begin, i, size)] == q.accepted[Passed(q) + i]
  }

  /** The elements stored but not published fit behind the unread ones. */
  predicate WriterOk<T(==)>(q: Queue<T>)
    requires Ring(q)
  {
    q.writer.Storing? ==>
      && Unread(q) + |q.writer.data| < |q.buffer|
      && q.writer.done <= |q.writer.data| && (q.writer.single ==> |q.writer.data| == 1)
      && forall i :: 0 <= i < q.writer.done ==> q.buffer[Cell(q.begin, Unread(q) + i, |q.buffer|)] == q.writer.data[i]
  }

  /** What has been read, also in part, is a prefix of what was accepted. */
  predicate ReaderOk<T(==)>(q: Queue<T>) {
    match q.reader
    case ReaderIdle => q.read <= q.accepted
    case Getting(element) => q.read + [element] <= q.accepted
    case Reading(n, seen) => n <= Unread(q) && |seen| <= n && q.read + seen <= q.accepted
    case Consuming(seen, amount) =>
      q.begin == 0 && amount <= |seen| && amount <= Unread(q) && q.read + seen <= q.accepted
  }

  /** One event is pending or about to be scheduled exactly when the flag is set, and what was
      published since the last call of onDataAvailable is announced, about to be, or already read. */
  predicate NotificationOk<T>(q: Queue<T>) {
    && q.events + (if q.writer.Scheduling? then 1 else 0) == (if q.notificationScheduled then 1 else 0)
    && q.announced <= |q.accepted|
    && (!q.notificationScheduled && !q.writer.Notifying? && !q.writer.Exchanging? && q.announced < |q.accepted| ==>
          Unread(q) == 0)
  }

  predicate Inv<T(==)>(q: Queue<T>) {
    Ring(q) && WriterOk(q) && ReaderOk(q) && NotificationOk(q)
  }

  // ---------------------------------------------------------------------------------------------
  // The source's arithmetic against the ring
  // ---------------------------------------------------------------------------------------------

  /** Full, Size and the room for a range are exact: they follow from the number of elements. */
  lemma SizeIsExact(begin: nat, count: nat, size: nat)
    requires begin < size && count < size
    ensures var end := Cell(begin, count, size);
      && 0 <= end < size
      && Size(begin, end, size) == count
      && (Full(begin, end, size) <==> count == size - 1)
      && Available(begin, end, size) == size - 1 - count
  {
  }

  /** The two copies of a range add fill consecutive cells of the ring. */
  lemma RangeIsConsecutive(begin: nat, count: nat, length: nat, size: nat)
    requires begin < size && count + length < size
    ensures var end := Cell(begin, count, size);
      && (forall i :: 0 <= i < length ==> StoreIndex(end, i, length, size) == Cell(begin, count + i, size))
      && EndAfterRange(end, length, size) == Cell(begin, count + length, size)
  {
  }

  /** ContiguousRange yields consecutive elements, and from the first element on at most two of them
      cover the queue. */
  lemma ContiguousRangeCovers(begin: nat, count: nat, offset: nat, size: nat)
    requires begin < size && count < size && offset <= count
    ensures var end := Cell(begin, count, size);
      var (low, high) := ContiguousRange(begin, end, offset, size);
      && 0 <= low <= high <= size && offset + (high - low) <= count
      && (forall i :: offset <= i < offset + (high - low) ==> Cell(begin, i, size) == low + (i - offset))
      && (offset + (high - low) < count ==>
            ContiguousRange(begin, end, offset + (high - low), size) == (0, count - (offset + (high - low))))
  {
  }

  lemma CellShift(begin: nat, k: nat, i: nat, size: nat)
    requires begin < size && k + i < size
    ensures 0 <= Cell(begin, k, size) < size && Cell(Cell(begin, k, size), i, size) == Cell(begin, k + i, size)
  {
  }

  // ---------------------------------------------------------------------------------------------
  // Every step keeps the invariant
  // ---------------------------------------------------------------------------------------------

  /** contentsBegin moves over `k` elements: the rest of the ring, and what is being stored behind it,
      stay where they are. */
  lemma Advance<T>(q: Queue<T>, q': Queue<T>, k: nat)
    requires Inv(q) && k <= Unread(q)
    requires q' == q.(begin := Cell(q.begin, k, |q.buffer|), read := q'.read, reader := q'.reader)
    requires Passed(q') == Passed(q) + k
    ensures Ring(q') && WriterOk(q') && NotificationOk(q')
  {
    var size := |q.buffer|;
    CellShift(q.begin, k, Unread(q'), size);
    forall i | 0 <= i < Unread(q') ensures q'.buffer[Cell(q'.begin, i, size)] == q'.accepted[Passed(q') + i] {
      CellShift(q.begin, k, i, size);
      assert q.buffer[Cell(q.begin, k + i, size)] == q.accepted[Passed(q) + (k + i)];
    }
    if q.writer.Storing? {
      forall i | 0 <= i < q.writer.done ensures q'.buffer[Cell(q'.begin, Unread(q') + i, size)] == q'.writer.data[i] {
        CellShift(q.begin, k, Unread(q') + i, size);
        assert q.buffer[Cell(q.begin, Unread(q) + i, size)] == q.writer.data[i];
      }
    }
  }

  lemma StoreStep<T>(q: Queue<T>)
    requires Inv(q) && q.writer.Storing? && q.writer.done < |q.writer.data|
    ensures var i := Cell(q.begin, Unread(q) + q.writer.done, |q.buffer|);
      && 0 <= i < |q.buffer|
      && Step(q, StoreElement) == q.(buffer := q.buffer[i := q.writer.data[q.writer.done]],
                                     writer := q.writer.(done := q.writer.done + 1))
  {
    RangeIsConsecutive(q.begin, Unread(q), |q.writer.data|, |q.buffer|);
  }

  lemma CellsDiffer(begin: nat, i: nat, j: nat, size: nat)
    requires begin < size && i < j < size
    ensures Cell(begin, i, size) != Cell(begin, j, size)
  {
  }

  /** A store by the writer changes no cell that is still to be read. */
  lemma StoreKeepsUnread<T>(q: Queue<T>)
    requires Inv(q)
    ensures var q' := Step(q, StoreElement);
      |q'.buffer| == |q.buffer| && forall i :: 0 <= i < Unread(q) ==>
           q'.buffer[Cell(q.begin, i, |q.buffer|)] == q.buffer[Cell(q.begin, i, |q.buffer|)]
    ensures Inv(Step(q, StoreElement))
  {
    var q' := Step(q, StoreElement);
    if q.writer.Storing? && q.writer.done < |q.writer.data| {
      StoreStep(q);
      StoreKeepsInv(q, q');
    }
  }

  lemma StoreKeepsInv<T>(q: Queue<T>, q': Queue<T>)
    requires Inv(q) && q.writer.Storing? && q.writer.done < |q.writer.data|
    requires var i := Cell(q.begin, Unread(q) + q.writer.done, |q.buffer|);
      && 0 <= i < |q.buffer|
      && q' == q.(buffer := q.buffer[i := q.writer.data[q.writer.done]], writer := q.writer.(done := q.writer.done + 1))
    ensures forall i :: 0 <= i < Unread(q) ==>
              q'.buffer[Cell(q.begin, i, |q.buffer|)] == q.buffer[Cell(q.begin, i, |q.buffer|)]
    ensures Inv(q')
  {
    var size := |q.buffer|;
    var k := q.writer.done;
    forall i | 0 <= i < Unread(q) + k
      ensures 0 <= Cell(q.begin, i, size) < size && Cell(q.begin, i, size) != Cell(q.begin, Unread(q) + k, size)
    {
      CellsDiffer(q.begin, i, Unread(q) + k, size);
    }
    hide Cell;
    forall i | 0 <= i < q'.writer.done ensures q'.buffer[Cell(q.begin, Unread(q) + i, size)] == q.writer.data[i] {
    }
  }

  lemma PublishStep<T>(q: Queue<T>)
    requires Inv(q) && q.writer.Storing? && q.writer.done == |q.writer.data|
    ensures var end := Cell(q.begin, Unread(q) + |q.writer.data|, |q.buffer|);
      && 0 <= end < |q.buffer|
      && Step(q, PublishEnd) == q.(end := end, accepted := q.accepted + q.writer.data, writer := Notifying)
  {
    RangeIsConsecutive(q.begin, Unread(q), |q.writer.data|, |q.buffer|);
  }

  lemma PublishKeepsInv<T>(q: Queue<T>)
    requires Inv(q)
    ensures Inv(Step(q, PublishEnd))
  {
    if q.writer.Storing? && q.writer.done == |q.writer.data| {
      PublishStep(q);
      PublishedInv(q, Step(q, PublishEnd));
    }
  }

  lemma PublishedInv<T>(q: Queue<T>, q': Queue<T>)
    requires Inv(q) && q.writer.Storing? && q.writer.done == |q.writer.data|
    requires var end := Cell(q.begin, Unread(q) + |q.writer.data|, |q.buffer|);
      && 0 <= end < |q.buffer|
      && q' == q.(end := end, accepted := q.accepted + q.writer.data, writer := Notifying)
    ensures Inv(q')
  {
    var size := |q.buffer|;
    forall i | 0 <= i < Unread(q') ensures q'.buffer[Cell(q.begin, i, size)] == q'.accepted[Passed(q') + i] {
      if i >= Unread(q) {
        assert q.buffer[Cell(q.begin, Unread(q) + (i - Unread(q)), size)] == q.writer.data[i - Unread(q)];
      }
    }
    assert q.accepted <= q'.accepted;
  }

  lemma GetKeepsInv<T>(q: Queue<T>)
    requires Inv(q)
    ensures Inv(Step(q, GetElement)) && Inv(Step(q, GetAdvance))
  {
    if q.reader.ReaderIdle? && q.begin != q.end {
      assert q.buffer[Cell(q.begin, 0, |q.buffer|)] == q.accepted[Passed(q) + 0];
      assert q.read + [q.accepted[|q.read|]] <= q.accepted;
    }
    if q.reader.Getting? {
      Advance(q, Step(q, GetAdvance), 1);
    }
  }

  lemma LookKeepsInv<T>(q: Queue<T>)
    requires Inv(q)
    ensures Inv(Step(q, LookAtEnd))
  {
    SizeIsExact(q.begin, Unread(q), |q.buffer|);
    hide Cell, Size;
    if q.reader.ReaderIdle? {
      assert q.read + [] == q.read;
    }
  }

  lemma ReadKeepsInv<T>(q: Queue<T>)
    requires Inv(q)
    ensures Inv(Step(q, ReadElement))
  {
    if q.reader.Reading? && |q.reader.seen| < q.reader.size {
      var k := |q.reader.seen|;
      assert 0 <= Cell(q.begin, k, |q.buffer|) < |q.buffer|;
      hide Cell;
      assert q.buffer[Cell(q.begin, k, |q.buffer|)] == q.accepted[Passed(q) + k];
      assert q.read + (q.reader.seen + [q.accepted[Passed(q) + k]]) <= q.accepted;
    }
  }

  /** Consume, also when it wraps and stores contentsBegin twice: the value in between passes only
      elements that were read. */
  lemma ConsumeKeepsInv<T>(q: Queue<T>, amount: nat)
    requires Inv(q)
    ensures Inv(Step(q, Consume(amount))) && Inv(Step(q, ConsumeRest))
  {
    if q.reader.Reading? && amount <= |q.reader.seen| {
      assert q.read + q.reader.seen[..amount] <= q.read + q.reader.seen;
      if q.begin + amount >= |q.buffer| {
        Advance(q, Step(q, Consume(amount)), |q.buffer| - q.begin);
      } else {
        Advance(q, Step(q, Consume(amount)), amount);
      }
    }
    ConsumeRestKeepsInv(q);
  }

  lemma ConsumeRestKeepsInv<T>(q: Queue<T>)
    requires Inv(q)
    ensures Inv(Step(q, ConsumeRest))
  {
    if q.reader.Consuming? {
      Advance(q, Step(q, ConsumeRest), q.reader.amount);
    }
  }

  lemma StepKeepsInv<T>(q: Queue<T>, a: Action<T>)
    requires Inv(q)
    ensures Inv(Step(q, a))
  {
    hide Step, Inv;
    match a
    case StartAdd(_) => StartKeepsInv(q, a);
    case StartAddRange(_) => StartKeepsInv(q, a);
    case StoreElement => StoreKeepsUnread(q);
    case PublishEnd => PublishKeepsInv(q);
    case GetElement => GetKeepsInv(q);
    case GetAdvance => GetKeepsInv(q);
    case LookAtEnd => LookKeepsInv(q);
    case ReadElement => ReadKeepsInv(q);
    case Consume(amount) => ConsumeKeepsInv(q, amount);
    case ConsumeRest => ConsumeKeepsInv(q, 0);
    case _ => NotifyKeepsInv(q, a);
  }

  lemma StartKeepsInv<T>(q: Queue<T>, a: Action<T>)
    requires Inv(q) && (a.StartAdd? || a.StartAddRange?)
    ensures Inv(Step(q, a))
  {
    SizeIsExact(q.begin, Unread(q), |q.buffer|);
    hide Cell, Full, Available;
  }

  lemma NotifyKeepsInv<T>(q: Queue<T>, a: Action<T>)
    requires Inv(q) && (a.CheckEmpty? || a.ExchangeFlag? || a.ScheduleEvent? || a.DataAvailable?)
    ensures Inv(Step(q, a))
  {
    assert q.begin == q.end ==> Unread(q) == 0;
    hide Cell;
  }

  lemma StepOnlyAppends<T>(q: Queue<T>, a: Action<T>)
    ensures |Step(q, a).buffer| == |q.buffer|
    ensures q.accepted <= Step(q, a).accepted && q.read <= Step(q, a).read
  {
  }

  /** Every interleaving from an empty queue. */
  lemma {:induction false} RunKeepsInv<T>(q: Queue<T>, actions: seq<Action<T>>)
    requires Inv(q)
    ensures Inv(Run(q, actions)) && q.accepted <= Run(q, actions).accepted && q.read <= Run(q, actions).read
    decreases |actions|
  {
    if actions != [] {
      hide Step, Inv;
      StepKeepsInv(q, actions[0]);
      StepOnlyAppends(q, actions[0]);
      RunKeepsInv(Step(q, actions[0]), actions[1..]);
    }
  }

  /** In every interleaving the elements read are, in order, a prefix of the elements accepted; and a
      queue at rest that still holds something not yet announced has an event pending. */
  lemma ReadIsPrefixOfAccepted<T>(buffer: seq<T>, actions: seq<Action<T>>)
    requires buffer != []
    ensures var q := Run(Initial(buffer), actions);
      && q.read <= q.accepted
      && (q.reader.ReaderIdle? ==> |q.accepted| - |q.read| < |buffer|)
      && q.events <= 1
      && (q.writer.WriterIdle? && q.announced < |q.accepted| && q.begin != q.end ==> q.events == 1)
  {
    RunKeepsInv(Initial(buffer), actions);
    RunKeepsSize(Initial(buffer), actions);
    var q := Run(Initial(buffer), actions);
    match q.reader {
      case Getting(e) => assert q.read <= q.read + [e];
      case Reading(_, seen) => assert q.read <= q.read + seen;
      case Consuming(seen, _) => assert q.read <= q.read + seen;
      case ReaderIdle =>
    }
  }

  // ---------------------------------------------------------------------------------------------
  // What is offered is accepted, and what is accepted can be read and is announced
  // ---------------------------------------------------------------------------------------------

  /** An element is taken exactly if one more fits; otherwise nothing happens at all. */
  lemma AddAccepts<T>(q: Queue<T>, element: T)
    requires Inv(q) && q.writer.WriterIdle?
    ensures var q' := Run(q, [StartAdd(element), StoreElement, PublishEnd]);
      if Unread(q) < |q.buffer| - 1 then
        q'.accepted == q.accepted + [element] && q'.writer.Notifying? &&
        q'.read == q.read && Unread(q') == Unread(q) + 1
      else q' == q
  {
    SizeIsExact(q.begin, Unread(q), |q.buffer|);
    var q1 := Step(q, StartAdd(element));
    StartKeepsInv(q, StartAdd(element));
    RunThree(q, StartAdd(element), StoreElement, PublishEnd);
    if Unread(q) < |q.buffer| - 1 {
      assert q1 == q.(writer := Storing([element], 0, true));
      StoreStep(q1);
      StoreKeepsUnread(q1);
      PublishStep(Step(q1, StoreElement));
    }
  }

  /** What is offered to an idle writer over a run, as far as there is room for it. */
  function Offered<T>(q: Queue<T>, actions: seq<Action<T>>): seq<T>
    decreases |actions|
  {
    if actions == [] then []
    else
      var taken :=
        match actions[0]
        case StartAdd(element) => if q.writer.WriterIdle? && Unread(q) + 1 < |q.buffer| then [element] else []
        case StartAddRange(data) => if q.writer.WriterIdle? && Unread(q) + |data| < |q.buffer| then data else []
        case _ => [];
      taken + Offered(Step(q, actions[0]), actions[1..])
  }

  /** What has been taken and is not published yet. */
  function InFlight<T>(q: Queue<T>): seq<T> { if q.writer.Storing? then q.writer.data else [] }

  /** In every interleaving exactly what was offered and had room is accepted, in order, as a whole. */
  lemma {:induction false} AcceptedIsOffered<T>(q: Queue<T>, actions: seq<Action<T>>)
    requires Inv(q)
    ensures var q' := Run(q, actions);
      q'.accepted + InFlight(q') == q.accepted + InFlight(q) + Offered(q, actions)
    decreases |actions|
  {
    if actions != [] {
      hide Inv, Step;
      StepKeepsInv(q, actions[0]);
      OfferedStep(q, actions[0]);
      AcceptedIsOffered(Step(q, actions[0]), actions[1..]);
      assert Offered(q, actions) == Offered(q, [actions[0]]) + Offered(Step(q, actions[0]), actions[1..]) by {
        assert [actions[0]][1..] == [];
      }
    }
  }

  lemma OfferedStep<T>(q: Queue<T>, a: Action<T>)
    requires Inv(q)
    ensures var q' := Step(q, a);
      q'.accepted + InFlight(q') == q.accepted + InFlight(q) + Offered(q, [a])
  {
    hide Inv, Full, Available, Size, Cell, StoreIndex, EndAfterRange, Unread;
    RoomIsExact(q);
    assert [a][1..] == [];
    assert Offered(Step(q, a), [a][1..]) == [];
    if a.PublishEnd? && q.writer.Storing? && q.writer.done == |q.writer.data| {
      PublishStep(q);
    }
  }

  lemma RoomIsExact<T>(q: Queue<T>)
    requires Inv(q)
    ensures Full(q.begin, q.end, |q.buffer|) <==> Unread(q) + 1 >= |q.buffer|
    ensures Available(q.begin, q.end, |q.buffer|) == |q.buffer| - 1 - Unread(q)
  {
    SizeIsExact(q.begin, Unread(q), |q.buffer|);
  }

  lemma RunTwo<T>(q: Queue<T>, a: Action<T>, b: Action<T>)
    ensures Run(q, [a, b]) == Step(Step(q, a), b)
  {
    hide Step;
    assert [a, b] == [a] + [b];
    RunConcat(q, [a], [b]);
    RunOne(q, a);
    RunOne(Step(q, a), b);
  }

  lemma RunThree<T>(q: Queue<T>, a: Action<T>, b: Action<T>, c: Action<T>)
    ensures Run(q, [a, b, c]) == Step(Step(Step(q, a), b), c)
  {
    hide Step;
    assert [a, b, c] == [a] + [b, c];
    RunConcat(q, [a], [b, c]);
    RunOne(q, a);
    RunTwo(Step(q, a), b, c);
  }

  /** The stores of one range. */
  function Stores<T>(n: nat): seq<Action<T>> { seq(n, i => StoreElement) }

  lemma {:induction false} StoresAll<T>(q: Queue<T>, n: nat)
    requires Inv(q) && q.writer.Storing? && q.writer.done + n == |q.writer.data|
    ensures var q' := Run(q, Stores(n));
      && Inv(q') && q' == q.(buffer := q'.buffer, writer := q.writer.(done := |q.writer.data|))
      && |q'.buffer| == |q.buffer|
    decreases n
  {
    if n > 0 {
      assert Stores<T>(n)[1..] == Stores<T>(n - 1);
      StoreStep(q);
      StoreKeepsUnread(q);
      hide Step, Inv;
      StoresAll(Step(q, StoreElement), n - 1);
    } else {
      assert Stores<T>(n) == [];
    }
  }

  lemma {:induction false} RunConcat<T>(q: Queue<T>, a: seq<Action<T>>, b: seq<Action<T>>)
    ensures Run(q, a + b) == Run(Run(q, a), b)
    decreases |a|
  {
    hide Step;
    if a == [] {
      assert a + b == b;
    } else {
      assert (a + b)[1..] == a[1..] + b;
      RunConcat(Step(q, a[0]), a[1..], b);
    }
  }

  lemma RunOne<T>(q: Queue<T>, a: Action<T>)
    ensures Run(q, [a]) == Step(q, a)
  {
    hide Step;
    assert [a][1..] == [];
  }

  /** A range is taken as a whole exactly if all of it fits; otherwise nothing happens at all. */
  lemma AddRangeAccepts<T>(q: Queue<T>, data: seq<T>)
    requires Inv(q) && q.writer.WriterIdle?
    ensures var q' := Run(q, [StartAddRange(data)] + Stores(|data|) + [PublishEnd]);
      if Unread(q) + |data| <= |q.buffer| - 1 then
        q'.accepted == q.accepted + data && q'.writer.Notifying? && q'.read == q.read
        && Unread(q') == Unread(q) + |data|
      else q' == q
  {
    var n := |data|;
    SizeIsExact(q.begin, Unread(q), |q.buffer|);
    StartKeepsInv(q, StartAddRange(data));
    var q1 := Step(q, StartAddRange(data));
    RunConcat(q, [StartAddRange(data)] + Stores(n), [PublishEnd]);
    RunConcat(q, [StartAddRange(data)], Stores(n));
    RunOne(q, StartAddRange(data));
    var q2 := Run(q1, Stores(n));
    RunOne(q2, PublishEnd);
    if Unread(q) + n <= |q.buffer| - 1 {
      assert q1 == q.(writer := Storing(data, 0, false));
      StoresAll(q1, n);
      PublishStep(q2);
    } else {
      StoresIdle(q, n);
    }
  }

  lemma {:induction false} StoresIdle<T>(q: Queue<T>, n: nat)
    requires q.writer.WriterIdle?
    ensures Run(q, Stores(n)) == q
    decreases n
  {
    if n > 0 {
      assert Stores<T>(n)[1..] == Stores<T>(n - 1);
      StoresIdle(q, n - 1);
    } else {
      assert Stores<T>(n) == [];
    }
  }

  /** Get of a queue that is not empty takes the oldest element. */
  lemma GetReads<T>(q: Queue<T>)
    requires Inv(q) && q.reader.ReaderIdle?
    ensures var q' := Run(q, [GetElement, GetAdvance]);
      if Unread(q) > 0 then
        q'.read == q.read + [q.accepted[|q.read|]] && q'.reader.ReaderIdle? && q'.accepted == q.accepted
      else q' == q
  {
    RunTwo(q, GetElement, GetAdvance);
    if Unread(q) > 0 {
      assert q.buffer[Cell(q.begin, 0, |q.buffer|)] == q.accepted[Passed(q) + 0];
    }
  }

  /** The steps that read the first `n` elements in place. */
  function Reads<T>(n: nat): seq<Action<T>> { seq(n, i => ReadElement) }

  lemma {:induction false} ReadsAll<T>(q: Queue<T>, n: nat)
    requires Inv(q) && q.reader.Reading? && |q.reader.seen| + n <= q.reader.size
    ensures var q' := Run(q, Reads(n));
      && Inv(q') && q' == q.(reader := q'.reader) && q'.reader.Reading? && q'.reader.size == q.reader.size
      && q'.reader.seen == q.accepted[|q.read|..|q.read| + |q.reader.seen| + n]
    decreases n
  {
    if n > 0 {
      assert Reads<T>(n)[1..] == Reads<T>(n - 1);
      ReadKeepsInv(q);
      OneRead(q);
      hide Step, Inv;
      ReadsAll(Step(q, ReadElement), n - 1);
    } else {
      assert Reads<T>(n) == [];
      SeenIs(q.accepted, q.read, q.reader.seen);
    }
  }

  lemma OneRead<T>(q: Queue<T>)
    requires Inv(q) && q.reader.Reading? && |q.reader.seen| < q.reader.size
    ensures var q' := Step(q, ReadElement);
      && q' == q.(reader := q'.reader) && q'.reader.Reading? && q'.reader.size == q.reader.size
      && |q'.reader.seen| == |q.reader.seen| + 1
  {
    assert 0 <= Cell(q.begin, |q.reader.seen|, |q.buffer|) < |q.buffer|;
  }

  lemma SeenIs<T>(accepted: seq<T>, read: seq<T>, seen: seq<T>)
    requires read + seen <= accepted
    ensures seen == accepted[|read|..|read| + |seen|]
  {
    assert seen == (read + seen)[|read|..];
  }

  /** Everything that is unread can be read in place and consumed, as much of it as the reader likes. */
  lemma ConsumeReads<T>(q: Queue<T>, n: nat, amount: nat)
    requires Inv(q) && q.reader.ReaderIdle? && amount <= n <= Unread(q)
    ensures var q' := Run(q, [LookAtEnd] + Reads(n) + [Consume(amount), ConsumeRest]);
      && q'.read == q.read + q.accepted[|q.read|..|q.read| + amount] && q'.reader.ReaderIdle?
      && q'.accepted == q.accepted && Unread(q') == Unread(q) - amount
  {
    SizeIsExact(q.begin, Unread(q), |q.buffer|);
    LookKeepsInv(q);
    hide Cell, Size;
    var q1 := Step(q, LookAtEnd);
    assert q1 == q.(reader := Reading(Unread(q), []));
    RunConcat(q, [LookAtEnd] + Reads(n), [Consume(amount), ConsumeRest]);
    RunConcat(q, [LookAtEnd], Reads(n));
    RunOne(q, LookAtEnd);
    ReadsAll(q1, n);
    var q2 := Run(q1, Reads(n));
    RunTwo(q2, Consume(amount), ConsumeRest);
    assert q2.reader.seen[..amount] == q.accepted[|q.read|..|q.read| + amount];
    ConsumeTakes(q2, amount);
  }

  /** Consume moves past exactly the elements that are consumed, also when it wraps. */
  lemma ConsumeTakes<T>(q: Queue<T>, amount: nat)
    requires Inv(q) && q.reader.Reading? && amount <= |q.reader.seen|
    ensures var q' := Step(Step(q, Consume(amount)), ConsumeRest);
      q'.read == q.read + q.reader.seen[..amount] && q'.reader.ReaderIdle? && q'.accepted == q.accepted
  {
    hide Ring, WriterOk, ReaderOk, NotificationOk;
  }

  /** After an addition the event is scheduled, unless one is pending already or all has been read. */
  lemma NotificationIsScheduled<T>(q: Queue<T>)
    requires Inv(q) && q.writer.Notifying?
    ensures var q' := Run(q, [CheckEmpty, ExchangeFlag, ScheduleEvent]);
      && q'.writer.WriterIdle? && (Unread(q) > 0 ==> q'.events == 1)
      && q' == q.(writer := WriterIdle, events := q'.events, notificationScheduled := q'.notificationScheduled)
  {
    RunThree(q, CheckEmpty, ExchangeFlag, ScheduleEvent);
    assert q.begin == q.end <==> Unread(q) == 0;
  }

  /** The event that was scheduled announces everything that has been accepted. */
  lemma AnnouncesAll<T>(q: Queue<T>)
    requires Inv(q) && q.reader.ReaderIdle? && q.events > 0
    ensures var q' := Step(q, DataAvailable);
      q' == q.(events := 0, notificationScheduled := false, announced := |q.accepted|)
  {
  }

  lemma {:induction false} RunKeepsSize<T>(q: Queue<T>, actions: seq<Action<T>>)
    ensures |Run(q, actions).buffer| == |q.buffer|
    decreases |actions|
  {
    if actions != [] { StepOnlyAppends(q, actions[0]); RunKeepsSize(Step(q, actions[0]), actions[1..]); }
  }
}
