/** infra/stream/ByteOutputStream.cpp and SavedMarkerStream.cpp: a writer on a byte range, and how text
    is inserted at an earlier marker by moving what follows to the end of the range and back. */
module ByteOutputStream {
  import opened Common

  lemma OverwrittenNext(s: seq<Byte>, at: nat, data: seq<Byte>, i: nat)
    requires i < |data| && at + i < |s|
    ensures Overwritten(s, at, data[..i])[at + i := data[i]] == Overwritten(s, at, data[..i + 1])
  {
  }

  lemma OverwrittenPart(s: seq<Byte>, begin: nat, at: nat, data: seq<Byte>)
    requires begin <= at && at + |data| <= |s|
    ensures Overwritten(s, at, data)[begin..at + |data|] == s[begin..at] + data
  {
  }

  /** `s1` is `s0` with the bytes [from, from + size) moved to the end of the range; the bytes between
      are arbitrary. */
  ghost predicate Saved(s0: seq<Byte>, s1: seq<Byte>, from: nat, size: nat, end: nat) {
    && |s1| == |s0| && from + size <= end <= |s0|
    && s1[..from] == s0[..from] && s1[end - size..end] == s0[from..from + size] && s1[end..] == s0[end..]
  }

  lemma SavedCells(s0: seq<Byte>, s1: seq<Byte>, from: nat, size: nat, end: nat)
    requires |s1| == |s0| && from + size <= end <= |s0|
    requires forall k :: 0 <= k < from ==> s1[k] == s0[k]
    requires forall k :: end - size <= k < end ==> s1[k] == s0[k - (end - size - from)]
    requires forall k :: end <= k < |s0| ==> s1[k] == s0[k]
    ensures Saved(s0, s1, from, size, end)
  {
  }

  /** `s1` is `s0` with the last `size` bytes of the range moved to follow `from`. */
  ghost predicate Restored(s0: seq<Byte>, s1: seq<Byte>, from: nat, size: nat, end: nat) {
    && |s1| == |s0| && from + size <= end <= |s0|
    && s1[..from] == s0[..from] && s1[from..from + size] == s0[end - size..end] && s1[end..] == s0[end..]
  }

  /** ByteOutputStreamWriter on the bytes [begin, end) of a storage array. */
  class Writer {
    const storage: array<Byte>
    const begin: nat
    const end: nat
    var offset: nat
    var failed: bool

    ghost predicate Valid()
      reads this
    {
      begin + offset <= end <= storage.Length
    }

    /** The bytes written so far. */
    ghost function Processed(): seq<Byte>
      requires Valid()
      reads this, storage
    {
      storage[..][begin..begin + offset]
    }

    ghost function Room(): nat
      requires Valid()
      reads this
    {
      end - (begin + offset)
    }

    constructor (storage: array<Byte>, begin: nat, end: nat)
      requires begin <= end <= storage.Length
      ensures Valid() && this.storage == storage && this.begin == begin && this.end == end && offset == 0 && !failed
    {
      this.storage, this.begin, this.end := storage, begin, end;
      offset, failed := 0, false;
    }

    /** Insert: what does not fit is cut off and reported. */
    method Insert(data: seq<Byte>)
      requires Valid()
      modifies this, storage
      ensures Valid()
      ensures var n := if |data| <= old(Room()) then |data| else old(Room());
        && offset == old(offset) + n && failed == (old(failed) || n < |data|)
        && storage[..] == Overwritten(old(storage[..]), begin + old(offset), data[..n])
        && Processed() == old(Processed()) + data[..n]
    {
      var room := end - (begin + offset);
      var n := if |data| <= room then |data| else room;
      var at := begin + offset;
      ghost var before := storage[..];
      failed := failed || n < |data|;
      assert storage[..] == Overwritten(before, at, data[..0]);
      hide Overwritten;
      for i := 0 to n
        modifies storage
        invariant storage[..] == Overwritten(before, at, data[..i])
      {
        OverwrittenNext(before, at, data, i);
        ghost var s := storage[..];
        storage[at + i] := data[i];
        assert storage[..] == s[at + i := data[i]];
      }
      offset := offset + n;
      OverwrittenPart(before, begin, at, data[..n]);
    }

    /** SaveState: the bytes after `marker` are moved, overlapping, to the end of the range. What is
        between is the caller's to write. */
    method SaveState(marker: nat) returns (rangeBegin: nat, rangeEnd: nat)
      requires Valid() && marker <= offset
      modifies storage
      ensures rangeBegin == begin + marker && rangeEnd == end - (offset - marker) && rangeBegin <= rangeEnd
      ensures Saved(old(storage[..]), storage[..], rangeBegin, offset - marker, end)
    {
      var from, size := begin + marker, offset - marker;
      var base := end - size;
      hide Saved;
      ghost var before := storage[..];
      var i := size;
      while i > 0
        invariant 0 <= i <= size
        invariant forall k :: 0 <= k < from + i ==> storage[k] == before[k]
        invariant forall k :: base + i <= k < end ==> storage[k] == before[k - (base - from)]
        invariant forall k :: end <= k < storage.Length ==> storage[k] == before[k]
      {
        i := i - 1;
        storage[base + i] := storage[from + i];
      }
      rangeBegin, rangeEnd := from, base;
      SavedCells(before, storage[..], from, size, end);
    }

    /** RestoreState: the saved bytes are moved back, to follow what was written in front of them. */
    method RestoreState(rangeBegin: nat, rangeEnd: nat)
      requires Valid() && begin <= rangeBegin <= rangeEnd <= end
      modifies this, storage
      ensures Valid() && failed == old(failed) && offset == rangeBegin - begin + (end - rangeEnd)
      ensures Restored(old(storage[..]), storage[..], rangeBegin, end - rangeEnd, end)
    {
      ghost var before := storage[..];
      var n := end - rangeEnd;
      for i := 0 to n
        modifies storage
        invariant forall k :: 0 <= k < rangeBegin ==> storage[k] == before[k]
        invariant forall k :: rangeBegin <= k < rangeBegin + i ==> storage[k] == before[k + (rangeEnd - rangeBegin)]
        invariant forall k :: rangeEnd + i <= k < storage.Length ==> storage[k] == before[k]
      {
        storage[rangeBegin + i] := storage[rangeEnd + i];
      }
      offset := rangeBegin - begin + n;
    }
  }
}
