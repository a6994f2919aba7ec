/** The buffering stream writer and reader of infra/stream/BufferingStreamWriter.cpp and
    infra/stream/BufferingStreamReader.cpp, on top of the ring deque. */
module BufferingStreams {
  import opened Common
  import opened BoundedDeque

  function Min(a: nat, b: nat): nat { if a < b then a else b }

  // ---------------------------------------------------------------------------------------------
  // Writing
  // ---------------------------------------------------------------------------------------------

  /** An output whose room may change between calls, as when its other end is read. `written` is
      everything it ever took. */
  class OutputWriter {
    var available: nat
    var written: seq<Byte>

    constructor (available: nat)
      ensures written == [] && this.available == available
    {
      this.available, written := available, [];
    }

    method Insert(range: seq<Byte>)
      requires |range| <= available
      modifies this
      ensures written == old(written) + range && available == old(available) - |range|
    {
      written, available := written + range, available - |range|;
    }

    method SetRoom(room: nat)
      modifies this
      ensures available == room && written == old(written)
    {
      available := room;
    }
  }

  class BufferingStreamWriter {
    const buffer: Deque<Byte>
    const output: OutputWriter
    var index: nat

    ghost predicate Valid()
      reads this, buffer
    {
      buffer.Valid()
    }

    /** Everything that has been written, whether it has left the buffer or not. */
    ghost function All(): seq<Byte>
      reads this, buffer, buffer.storage, output
      requires Valid()
    {
      output.written + buffer.Contents()
    }

    function Available(): nat
      reads this, buffer, output
      requires Valid()
    {
      output.available + buffer.storage.Length - buffer.numAllocated
    }

    constructor (buffer: Deque<Byte>, output: OutputWriter)
      requires buffer.Valid()
      modifies buffer, buffer.storage, output
      ensures Valid() && this.buffer == buffer && this.output == output
      ensures All() == old(output.written + buffer.Contents()) && index == buffer.numAllocated
      ensures buffer.numAllocated == 0 || output.available == 0
      ensures WriteState(output.written, buffer.Contents(), output.available, [], true)
           == Loaded(old(output.written), old(buffer.Contents()), old(output.available))
    {
      this.buffer, this.output, index := buffer, output, 0;
      new;
      LoadRemainder();
    }

    /** Moves the first contiguous range of the buffer to the output, as far as it has room. */
    method LoadRange() returns (ghost moved: nat)
      requires Valid()
      modifies buffer, buffer.storage, output
      ensures Valid()
      ensures moved <= old(buffer.numAllocated)
      ensures moved == Min(old(ContiguousSize(buffer.start, buffer.storage.Length, buffer.numAllocated, 0)),
                           old(output.available))
      ensures output.written == old(output.written) + old(buffer.Contents())[..moved]
      ensures output.available == old(output.available) - moved
      ensures buffer.Contents() == old(buffer.Contents())[moved..]
      ensures buffer.start
           == if moved > 0 then old(Index(buffer.start, buffer.storage.Length, moved)) else old(buffer.start)
    {
      hide Rotated, ContiguousSize, Index;
      var range := buffer.ContiguousRange(0);
      var from := Head(range, output.available);
      ghost var contents, written := buffer.Contents(), output.written;
      Moved(written, contents, |range|, |from|);
      output.Insert(from);
      buffer.EraseFront(|from|);
      moved := |from|;
    }

    /** As much of the buffer as there is room for moves to the output. */
    method LoadRemainder()
      requires Valid()
      modifies this, buffer, buffer.storage, output
      ensures Valid() && All() == old(All()) && index == buffer.numAllocated
      ensures buffer.numAllocated == 0 || output.available == 0
      ensures WriteState(output.written, buffer.Contents(), output.available, [], true)
           == Loaded(old(output.written), old(buffer.Contents()), old(output.available))
    {
      hide Rotated, ContiguousSize, Index, Loaded;
      ghost var contents, written, room := buffer.Contents(), output.written, output.available;
      LoadCounts(buffer.start, buffer.storage.Length, |contents|, room);
      ghost var first := LoadRange();
      ghost var second := LoadRange();
      LoadSlices(written, contents, room, first, second);
      index := buffer.numAllocated;
    }

    /** Whatever the output has room for goes there, even when bytes are buffered, and the rest is
        buffered. So the order of all bytes is kept exactly if what goes to the output commutes with
        what was buffered. */
    method Insert(range: seq<Byte>)
      requires Valid() && |range| <= Available()
      modifies this, buffer, buffer.storage, output
      ensures Valid() && index == old(index) + |range|
      ensures var n := Min(|range|, old(output.available));
              && output.written == old(output.written) + range[..n] && output.available == old(output.available) - n
              && buffer.Contents() == old(buffer.Contents()) + range[n..]
      ensures All() == old(All()) + range
         <==> Commute(Head(range, old(output.available)), old(buffer.Contents()))
    {
      hide Rotated, Inserted;
      var first := Head(range, output.available);
      assert first == range[..Min(|range|, output.available)];
      ghost var written, contents := output.written, buffer.Contents();
      output.Insert(first);
      index := index + |first|;
      var rest := range[|first|..];
      buffer.InsertRange(buffer.numAllocated, rest);
      index := index + |rest|;
      InsertedEnd(contents, rest);
      KeptIfCommuting(written, contents, range, |first|);
    }
  }

  /** The bytes written and buffered and the room, the bytes accepted since, and whether every write
      since was guarded. */
  datatype WriteState = WriteState(written: seq<Byte>, contents: seq<Byte>, room: nat, accepted: seq<Byte>,
      guarded: bool)

  /** What loading does to the bytes written and buffered, and to the room. */
  function Loaded(written: seq<Byte>, contents: seq<Byte>, room: nat): WriteState {
    var n := Min(|contents|, room);
    WriteState(written + contents[..n], contents[n..], room - n, [], true)
  }

  /** Two contiguous ranges are enough to move all that there is room for. */
  lemma LoadCounts(start: nat, capacity: nat, size: nat, room: nat)
    requires size <= capacity && (start < capacity || size == 0)
    ensures var first := Min(ContiguousSize(start, capacity, size, 0), room);
            && first <= size && (first > 0 ==> start < capacity)
            && var start' := if first > 0 then Index(start, capacity, first) else start;
               && (start' < capacity || size - first == 0)
               && first + Min(ContiguousSize(start', capacity, size - first, 0), room - first) == Min(size, room)
  {
  }

  lemma LoadSlices(written: seq<Byte>, contents: seq<Byte>, room: nat, first: nat, second: nat)
    requires first + second == Min(|contents|, room)
    ensures var written' := (written + contents[..first]) + contents[first..][..second];
            var contents' := contents[first..][second..];
            && WriteState(written', contents', room - first - second, [], true) == Loaded(written, contents, room)
            && written' + contents' == written + contents
  {
    var n := first + second;
    assert contents[first..][second..] == contents[n..];
    assert contents[..first] + contents[first..][..second] == contents[..n];
    assert contents[..n] + contents[n..] == contents;
    assert (written + contents[..first]) + contents[first..][..second]
         == written + (contents[..first] + contents[first..][..second]);
    assert (written + contents[..n]) + contents[n..] == written + (contents[..n] + contents[n..]);
  }

  /** Moving bytes from the front of the buffer to the output keeps all of them in order. */
  lemma Moved(written: seq<Byte>, contents: seq<Byte>, size: nat, n: nat)
    requires n <= size <= |contents|
    ensures contents[0..size][..n] == contents[..n]
    ensures (written + contents[..n]) + contents[n..] == written + contents
  {
  }

  // ---------------------------------------------------------------------------------------------
  // When the order is kept
  // ---------------------------------------------------------------------------------------------

  predicate Commute(a: seq<Byte>, b: seq<Byte>) { a + b == b + a }

  /** Order is kept exactly if what overtakes the buffer commutes with it. */
  lemma KeptIfCommuting(written: seq<Byte>, contents: seq<Byte>, range: seq<Byte>, n: nat)
    requires n <= |range|
    ensures (written + range[..n]) + (contents + range[n..]) == (written + contents) + range
       <==> Commute(range[..n], contents)
  {
    var first, rest := range[..n], range[n..];
    assert range == first + rest;
    var got, want := (written + first) + (contents + rest), (written + contents) + range;
    assert got == written + ((first + contents) + rest) && want == written + ((contents + first) + rest);
    if got == want {
      assert got[|written|..|written| + n + |contents|] == first + contents;
      assert want[|written|..|written| + n + |contents|] == contents + first;
    }
  }

  /** What a caller can check: nothing is buffered, or the output is full, or nothing is inserted. */
  predicate Guarded(range: seq<Byte>, contents: seq<Byte>, room: nat) { contents == [] || room == 0 || range == [] }

  lemma GuardKeepsOrder(range: seq<Byte>, contents: seq<Byte>, room: nat)
    requires Guarded(range, contents, room)
    ensures Commute(Head(range, room), contents)
  {
    var first := Head(range, room);
    assert contents == [] ==> first + contents == first && contents + first == first;
    assert first == [] ==> first + contents == contents && contents + first == contents;
  }

  /** Where the guard fails, some byte is reordered: any but the one at the front of the buffer. */
  lemma UnguardedReorders(contents: seq<Byte>, room: nat, b: Byte)
    requires contents != [] && room > 0 && b != contents[0]
    ensures !Commute(Head([b], room), contents)
  {
    assert Head([b], room) == [b];
    assert ([b] + contents)[0] == b && (contents + [b])[0] == contents[0];
  }

  /** One byte buffered, room for one, and another byte inserted: they change places. */
  lemma ReorderedInput()
    ensures !Commute(Head([2], 1), [1])
    ensures ([] + Head([2], 1)) + ([1] + [2][1..]) == [2, 1]
  {
    UnguardedReorders([1], 1, 2);
  }

  // ---------------------------------------------------------------------------------------------
  // Reading
  // ---------------------------------------------------------------------------------------------

  /** An input whose bytes lie side by side. */
  class InputReader {
    const data: seq<Byte>
    var position: nat

    ghost predicate Valid() reads this { position <= |data| }

    constructor (data: seq<Byte>)
      ensures Valid() && this.data == data && position == 0
    {
      this.data, position := data, 0;
    }

    method ExtractContiguousRange(max: nat) returns (range: seq<Byte>)
      requires Valid()
      modifies this
      ensures Valid() && range == Head(old(data[position..]), max) && position == old(position) + |range|
    {
      range := Head(data[position..], max);
      position := position + |range|;
    }

    method Rewind(marker: nat)
      requires marker <= |data|
      modifies this
      ensures Valid() && position == marker
    {
      position := marker;
    }
  }

  class BufferingStreamReader {
    const buffer: Deque<Byte>
    const input: InputReader
    var index: nat
    var bufferIndex: nat
    ghost const base: nat

    /** The buffer is read before the input, and nothing changes it until the remainder is stored. */
    ghost predicate Valid()
      reads this, buffer, input
    {
      && buffer.Valid() && input.Valid() && base <= |input.data|
      && index <= buffer.numAllocated + (|input.data| - base)
      && bufferIndex == Min(index, buffer.numAllocated)
      && input.position == base + (index - bufferIndex)
    }

    /** Everything there was to read at the beginning. */
    ghost function Origin(): (r: seq<Byte>)
      reads buffer, buffer.storage
      requires buffer.Valid() && base <= |input.data|
      ensures |r| == buffer.numAllocated + (|input.data| - base)
    {
      buffer.Contents() + input.data[base..]
    }

    ghost function Unread(): seq<Byte>
      reads this, buffer, buffer.storage, input
      requires Valid()
    {
      Origin()[index..]
    }

    constructor (buffer: Deque<Byte>, input: InputReader)
      requires buffer.Valid() && input.Valid()
      ensures Valid() && this.buffer == buffer && this.input == input && index == 0 && base == input.position
      ensures Unread() == buffer.Contents() + input.data[input.position..]
    {
      this.buffer, this.input, index, bufferIndex, base := buffer, input, 0, 0, input.position;
    }

    /** Reads from the buffer, as far as it is contiguous. */
    method ReadContiguous(n: nat) returns (bytes: seq<Byte>)
      requires Valid() && index <= buffer.numAllocated
      modifies this
      ensures Valid()
      ensures index <= buffer.numAllocated
      ensures index == old(index)
           + Min(n, ContiguousSize(buffer.start, buffer.storage.Length, buffer.numAllocated, old(index)))
      ensures bytes == Origin()[old(index)..index]
    {
      hide Rotated, ContiguousSize;
      var range := buffer.ContiguousRange(index);
      bytes := Head(range, n);
      index := index + |bytes|;
      bufferIndex := bufferIndex + |bytes|;
      Cut(buffer.Contents(), input.data[base..], old(index), |range|, |bytes|);
    }

    /** Reads from the buffer. The deque may wrap around, so this takes two attempts. */
    method ReadBuffer(n: nat) returns (bytes: seq<Byte>)
      requires Valid() && index <= buffer.numAllocated
      modifies this
      ensures Valid() && index == Min(old(index) + n, buffer.numAllocated) && bytes == Origin()[old(index)..index]
    {
      hide Rotated, ContiguousSize, Origin;
      ghost var origin := Origin();
      TwoRangesCover(buffer.start, buffer.storage.Length, buffer.numAllocated, index);
      bytes := ReadContiguous(n);
      ghost var middle := index;
      var second := ReadContiguous(n - |bytes|);
      Rejoined(origin, old(index), middle, index);
      bytes := bytes + second;
    }

    method ReadInput(n: nat) returns (bytes: seq<Byte>)
      requires Valid() && index >= buffer.numAllocated
      modifies this, input
      ensures Valid() && index == Min(old(index) + n, |Origin()|) && bytes == Origin()[old(index)..index]
    {
      hide Rotated;
      bytes := input.ExtractContiguousRange(n);
      index := index + |bytes|;
      Continued(buffer.Contents(), input.data, base, old(index), |bytes|);
    }

    /** Extract: fills as much of a range of n bytes as there is, and reports whether that is all. */
    method Extract(n: nat) returns (bytes: seq<Byte>, ok: bool)
      requires Valid()
      modifies this, input
      ensures Valid() && bytes == Head(old(Unread()), n) && index == old(index) + |bytes|
      ensures ok == (n <= |old(Unread())|)
    {
      ghost var origin, from := Origin(), index;
      assert buffer.numAllocated <= |origin|;
      hide Rotated, Origin;
      bytes := [];
      if index < buffer.numAllocated {
        bytes := ReadBuffer(n);
      }
      ghost var middle := index;
      assert bytes == origin[from..middle];
      if |bytes| != n {
        var more := ReadInput(n - |bytes|);
        Rejoined(origin, from, middle, index);
        bytes := bytes + more;
      }
      ok := |bytes| == n;
      HeadIs(origin, from, index, n);
    }

    method ExtractContiguousRange(max: nat) returns (range: seq<Byte>)
      requires Valid()
      modifies this, input
      ensures Valid() && |range| <= max && index == old(index) + |range| && |range| <= |old(Unread())|
      ensures range == old(Unread())[..|range|]
      ensures max > 0 && old(Unread()) != [] ==> range != []
    {
      if index < buffer.numAllocated {
        range := ReadContiguous(max);
      } else {
        range := ReadInput(max);
      }
    }

    /** Rewind to a marker that was saved earlier. */
    method Rewind(marker: nat)
      requires Valid() && marker <= index
      modifies this, input
      ensures Valid() && index == marker
    {
      if index > buffer.numAllocated {
        var rewindAmount := Min(index - marker, index - buffer.numAllocated);
        input.Rewind(input.position - rewindAmount);
        index := index - rewindAmount;
      }
      if marker < buffer.numAllocated {
        index := marker;
        bufferIndex := index;
      }
    }

    /** The destructor: what was not read is in the buffer afterwards. */
    method StoreRemainder()
      requires Valid() && |Unread()| <= buffer.storage.Length
      modifies buffer, buffer.storage, input
      ensures buffer.Valid() && buffer.Contents() == old(Unread())
    {
      hide Rotated, Inserted;
      ghost var contents := buffer.Contents();
      var bufferDecrease := Min(buffer.numAllocated, index);
      Remainder(contents, input.data, base, index, input.position);
      buffer.EraseFront(bufferDecrease);
      if input.position != |input.data| {
        var range := input.ExtractContiguousRange(|input.data|);
        buffer.InsertRange(buffer.numAllocated, range);
        InsertedEnd(contents[bufferDecrease..], range);
      }
    }
  }

  lemma Cut(contents: seq<Byte>, data: seq<Byte>, from: nat, size: nat, n: nat)
    requires n <= size && from + size <= |contents|
    ensures contents[from..from + size][..n] == (contents + data)[from..from + n]
  {
  }

  lemma Rejoined(origin: seq<Byte>, from: nat, middle: nat, end: nat)
    requires from <= middle <= end <= |origin|
    ensures origin[from..middle] + origin[middle..end] == origin[from..end]
  {
  }

  lemma Continued(contents: seq<Byte>, data: seq<Byte>, base: nat, at: nat, n: nat)
    requires base <= |data| && |contents| <= at && base + (at - |contents|) + n <= |data|
    ensures data[base + (at - |contents|)..][..n] == (contents + data[base..])[at..at + n]
  {
  }

  lemma HeadIs(origin: seq<Byte>, from: nat, end: nat, n: nat)
    requires from <= end <= |origin| && end == Min(from + n, |origin|)
    ensures Head(origin[from..], n) == origin[from..end]
  {
  }

  lemma Remainder(contents: seq<Byte>, data: seq<Byte>, base: nat, index: nat, position: nat)
    requires base <= position <= |data| && position == base + (index - Min(index, |contents|))
    ensures index <= |contents| + |data[base..]|
    ensures (contents + data[base..])[index..] == contents[Min(|contents|, index)..] + data[position..]
  {
  }

  lemma InsertedEnd(contents: seq<Byte>, range: seq<Byte>)
    ensures Inserted(contents, |contents|, range) == contents + range
  {
  }

  // ---------------------------------------------------------------------------------------------
  // Whole runs
  // ---------------------------------------------------------------------------------------------

  datatype WriteOperation = Write(range: seq<Byte>) | Room(room: nat)

  /** A write is refused if it does not fit into the output and the buffer together. */
  function WriteStep(s: WriteState, capacity: nat, op: WriteOperation): WriteState {
    match op
    case Room(room) => s.(room := room)
    case Write(range) =>
      var n := Min(|range|, s.room);
      if |s.contents| + |range| > s.room + capacity then s
      else WriteState(s.written + range[..n], s.contents + range[n..], s.room - n, s.accepted + range,
                      s.guarded && Guarded(range, s.contents, s.room))
  }

  function WriteSteps(s: WriteState, capacity: nat, ops: seq<WriteOperation>): WriteState
    decreases |ops|
  {
    if ops == [] then s else WriteStep(WriteSteps(s, capacity, ops[..|ops| - 1]), capacity, ops[|ops| - 1])
  }

  /** Where all bytes are, in no order. */
  ghost function Bag(s: WriteState): multiset<Byte> { multiset(s.written) + multiset(s.contents) }

  lemma WriteStepConserves(s: WriteState, capacity: nat, op: WriteOperation) returns (added: seq<Byte>)
    ensures var s' := WriteStep(s, capacity, op);
            && s'.accepted == s.accepted + added && Bag(s') == Bag(s) + multiset(added)
            && (s'.guarded ==> s.guarded && s'.written + s'.contents == (s.written + s.contents) + added)
  {
    added := [];
    if op.Write? && |s.contents| + |op.range| <= s.room + capacity {
      added := op.range;
      var n := Min(|op.range|, s.room);
      var first, rest := op.range[..n], op.range[n..];
      assert op.range == first + rest;
      if Guarded(op.range, s.contents, s.room) {
        GuardKeepsOrder(op.range, s.contents, s.room);
        KeptIfCommuting(s.written, s.contents, op.range, n);
      }
    }
  }

  /** Over any run no byte is lost or repeated, and while every write is guarded none is reordered. */
  lemma {:induction false} WriteStepsKeep(s: WriteState, capacity: nat, ops: seq<WriteOperation>)
    requires s.accepted == [] && s.guarded
    ensures var s' := WriteSteps(s, capacity, ops);
            && Bag(s') == Bag(s) + multiset(s'.accepted)
            && (s'.guarded ==> s'.written + s'.contents == (s.written + s.contents) + s'.accepted)
    decreases |ops|
  {
    hide WriteStep, Bag;
    if ops != [] {
      var before := WriteSteps(s, capacity, ops[..|ops| - 1]);
      WriteStepsKeep(s, capacity, ops[..|ops| - 1]);
      var added := WriteStepConserves(before, capacity, ops[|ops| - 1]);
      assert multiset(before.accepted + added) == multiset(before.accepted) + multiset(added);
      assert ((s.written + s.contents) + before.accepted) + added
           == (s.written + s.contents) + (before.accepted + added);
    }
  }

  /** The bytes of all writes, in order. */
  function Ordered(ops: seq<WriteOperation>): seq<Byte>
    decreases |ops|
  {
    if ops == [] then []
    else Ordered(ops[..|ops| - 1]) + if ops[|ops| - 1].Write? then ops[|ops| - 1].range else []
  }

  /** However the room changes, nothing is refused as long as the buffer could hold all of it. */
  lemma {:induction false} AcceptsAll(s: WriteState, capacity: nat, ops: seq<WriteOperation>)
    requires |s.contents| + |Ordered(ops)| <= capacity
    ensures var s' := WriteSteps(s, capacity, ops);
            s'.accepted == s.accepted + Ordered(ops) && |s'.contents| <= |s.contents| + |Ordered(ops)|
    decreases |ops|
  {
    if ops != [] {
      hide WriteSteps;
      AcceptsAll(s, capacity, ops[..|ops| - 1]);
      StepsSnoc(s, capacity, ops);
    }
  }

  lemma StepsSnoc(s: WriteState, capacity: nat, ops: seq<WriteOperation>)
    requires ops != []
    ensures WriteSteps(s, capacity, ops)
         == WriteStep(WriteSteps(s, capacity, ops[..|ops| - 1]), capacity, ops[|ops| - 1])
  {
  }

  /** While the room does not change, every write is guarded: something is buffered only when the output
      is full. */
  lemma {:induction false} SteadyIsGuarded(s: WriteState, capacity: nat, ops: seq<WriteOperation>)
    requires s.guarded && (s.contents == [] || s.room == 0) && forall op :: op in ops ==> op.Write?
    ensures var s' := WriteSteps(s, capacity, ops); s'.guarded && (s'.contents == [] || s'.room == 0)
    decreases |ops|
  {
    if ops != [] {
      SteadyIsGuarded(s, capacity, ops[..|ops| - 1]);
    }
  }

  lemma LoadedKeeps(written: seq<Byte>, contents: seq<Byte>, room: nat)
    ensures var s := Loaded(written, contents, room);
            && s.written + s.contents == written + contents && |s.contents| <= |contents|
            && s.accepted == [] && s.guarded && (s.contents == [] || s.room == 0)
  {
  }

  /** So writes into an output of a given size that the buffer could hold all end up in order, those that
      the output has room for in the output and the others in the buffer. */
  lemma SteadyWrites(written: seq<Byte>, contents: seq<Byte>, room: nat, capacity: nat, ops: seq<WriteOperation>)
    requires |contents| + |Ordered(ops)| <= capacity && forall op :: op in ops ==> op.Write?
    ensures var s := WriteSteps(Loaded(written, contents, room), capacity, ops);
            && s.written + s.contents == written + contents + Ordered(ops) && (s.contents == [] || s.room == 0)
  {
    hide Loaded, WriteSteps, Bag, Ordered;
    LoadedKeeps(written, contents, room);
    var s := Loaded(written, contents, room);
    AcceptsAll(s, capacity, ops);
    SteadyIsGuarded(s, capacity, ops);
    WriteStepsKeep(s, capacity, ops);
  }

  /** A run of writes during which the room of the output changes in any way. */
  method WriteRun(buffer: Deque<Byte>, output: OutputWriter, ops: seq<WriteOperation>) returns (ghost end: WriteState)
    requires buffer.Valid()
    modifies buffer, buffer.storage, output
    ensures buffer.Valid()
    ensures output.written == end.written && buffer.Contents() == end.contents && output.available == end.room
    ensures end == WriteSteps(Loaded(old(output.written), old(buffer.Contents()), old(output.available)),
                              buffer.storage.Length, ops)
    ensures multiset(output.written) + multiset(buffer.Contents())
         == multiset(old(output.written)) + multiset(old(buffer.Contents())) + multiset(end.accepted)
    ensures end.guarded ==> output.written + buffer.Contents() == old(output.written + buffer.Contents()) + end.accepted
  {
    hide Rotated, WriteStep;
    ghost var all := output.written + buffer.Contents();
    ghost var written, contents := output.written, buffer.Contents();
    var writer := new BufferingStreamWriter(buffer, output);
    ghost var start := WriteState(output.written, buffer.Contents(), output.available, [], true);
    assert multiset(all) == multiset(written) + multiset(contents);
    assert multiset(all)
         == multiset(start.written) + multiset(start.contents) by { assert all == start.written + start.contents; }
    ghost var s := start;
    for i := 0 to |ops|
      invariant writer.Valid() && s == WriteSteps(start, buffer.storage.Length, ops[..i])
      invariant output.written == s.written && buffer.Contents() == s.contents && output.available == s.room
    {
      ghost var before := s;
      s := WriteStep(s, buffer.storage.Length, ops[i]);
      assert ops[..i + 1][..i] == ops[..i];
      WriteOne(writer, ops[i], before);
    }
    assert ops[..|ops|] == ops;
    end := s;
    WriteStepsKeep(start, buffer.storage.Length, ops);
  }

  method WriteOne(writer: BufferingStreamWriter, op: WriteOperation, ghost s: WriteState)
    requires writer.Valid()
    requires writer.output.written == s.written && writer.buffer.Contents() == s.contents
    requires writer.output.available == s.room
    modifies writer, writer.buffer, writer.buffer.storage, writer.output
    ensures writer.Valid()
    ensures var s' := WriteStep(s, writer.buffer.storage.Length, op);
            && writer.output.written == s'.written && writer.output.available == s'.room
            && writer.buffer.Contents() == s'.contents
  {
    hide Rotated;
    match op
    case Room(room) => writer.output.SetRoom(room);
    case Write(range) =>
      if |range| <= writer.Available() {
        writer.Insert(range);
      }
  }

  datatype ReadOperation = ReadBytes(n: nat) | ReadRange(max: nat) | RewindTo(marker: nat)

  /** One operation of a run: where it started and ended, and what it read. */
  datatype ReadStep = ReadStep(operation: ReadOperation, from: nat, end: nat, bytes: seq<Byte>)

  /** Reads return what lies between the two positions; rewinding goes back to an earlier position. */
  ghost predicate StepOk(step: ReadStep, origin: seq<Byte>) {
    && step.from <= |origin| && step.end <= |origin|
    && match step.operation
       case RewindTo(marker) => step.bytes == [] && step.end == if marker <= step.from then marker else step.from
       case ReadBytes(n) =>
         step.from <= step.end == Min(step.from + n, |origin|) && step.bytes == origin[step.from..step.end]
       case ReadRange(max) => step.from <= step.end <= step.from + max && step.bytes == origin[step.from..step.end]
  }

  ghost predicate StepsOk(steps: seq<ReadStep>, origin: seq<Byte>, position: nat) {
    && (forall i :: 0 <= i < |steps| ==> StepOk(steps[i], origin))
    && (forall i :: 0 < i < |steps| ==> steps[i].from == steps[i - 1].end)
    && position == (if steps == [] then 0 else steps[|steps| - 1].end) && (steps != [] ==> steps[0].from == 0)
  }

  lemma AddStep(steps: seq<ReadStep>, origin: seq<Byte>, step: ReadStep)
    requires StepsOk(steps, origin, step.from) && StepOk(step, origin)
    ensures StepsOk(steps + [step], origin, step.end)
  {
  }

  method ReadOne(reader: BufferingStreamReader, operation: ReadOperation) returns (step: ReadStep)
    requires reader.Valid()
    modifies reader, reader.input
    ensures reader.Valid() && step.operation == operation && step.from == old(reader.index) && step.end == reader.index
    ensures StepOk(step, reader.Origin())
  {
    hide Rotated, reader.Origin;
    ghost var origin := reader.Origin();
    var from := reader.index;
    match operation
    case ReadBytes(n) =>
      var bytes, _ := reader.Extract(n);
      HeadIs(origin, from, Min(from + n, |origin|), n);
      step := ReadStep(operation, from, reader.index, bytes);
    case ReadRange(max) =>
      var bytes := reader.ExtractContiguousRange(max);
      HeadIs(origin, from, from + |bytes|, |bytes|);
      step := ReadStep(operation, from, reader.index, bytes);
    case RewindTo(marker) =>
      if marker <= reader.index {
        reader.Rewind(marker);
      }
      step := ReadStep(operation, from, reader.index, []);
  }

  /** After any reads and rewinds, every read returned the bytes at its position, and the buffer holds
      exactly what was not read. */
  method ReadRun(buffer: Deque<Byte>, input: InputReader, operations: seq<ReadOperation>)
      returns (steps: seq<ReadStep>, position: nat)
    requires buffer.Valid() && input.Valid()
    requires buffer.numAllocated + (|input.data| - input.position) <= buffer.storage.Length
    modifies buffer, buffer.storage, input
    ensures var origin := old(buffer.Contents() + input.data[input.position..]);
            && |steps| == |operations| && (forall i :: 0 <= i < |steps| ==> steps[i].operation == operations[i])
            && StepsOk(steps, origin, position)
            && position <= |origin| && buffer.Valid() && buffer.Contents() == origin[position..]
  {
    hide Rotated;
    var reader := new BufferingStreamReader(buffer, input);
    ghost var origin := reader.Origin();
    steps := [];
    for i := 0 to |operations|
      invariant reader.Valid() && reader.Origin() == origin
      invariant buffer.numAllocated == old(buffer.numAllocated)
      invariant |steps| == i && (forall k :: 0 <= k < i ==> steps[k].operation == operations[k])
      invariant StepsOk(steps, origin, reader.index)
    {
      var step := ReadOne(reader, operations[i]);
      AddStep(steps, origin, step);
      steps := steps + [step];
    }
    position := reader.index;
    reader.StoreRemainder();
  }
}
