/** infra/syntax/ProtoFormatter.cpp and ProtoParser.cpp: fields of Protocol Buffers messages, written to
    a byte stream with length prefixes inserted afterwards, and read back through limited readers. */
module ProtoBuf {
  import opened Common
  import opened ByteOutputStream


  // ---------------------------------------------------------------------------------------------
  // Messages and their encoding
  // ---------------------------------------------------------------------------------------------

  datatype Field =
    | VarIntField(number: nat, value: nat)
    | Fixed32Field(number: nat, value: nat)
    | Fixed64Field(number: nat, value: nat)
    | BytesField(number: nat, bytes: seq<Byte>)
    | Message(number: nat, fields: seq<Field>)

  /** A number in groups of seven bits, the lowest first, all but the last marked by the high bit. */
  function VarInt(value: nat): (r: seq<Byte>)
    ensures r != []
  {
    if value > 127 then [value % 128 + 128] + VarInt(value / 128) else [value]
  }

  /** The lowest `size` bytes of a number, the lowest first. */
  function LittleEndian(value: nat, size: nat): (r: seq<Byte>)
    ensures |r| == size
  {
    if size == 0 then [] else [value % 256] + LittleEndian(value / 256, size - 1)
  }

  function Key(number: nat, wireType: nat): nat { number * 8 + wireType }

  function FieldBytes(f: Field): seq<Byte>
    decreases f, 1
  {
    match f
    case VarIntField(n, v) => VarInt(Key(n, 0)) + VarInt(v)
    case Fixed64Field(n, v) => VarInt(Key(n, 1)) + LittleEndian(v, 8)
    case BytesField(n, b) => VarInt(Key(n, 2)) + (VarInt(|b|) + b)
    case Message(n, fs) => VarInt(Key(n, 2)) + (VarInt(|Bytes(fs)|) + Bytes(fs))
    case Fixed32Field(n, v) => VarInt(Key(n, 5)) + LittleEndian(v, 4)
  }

  function Bytes(fs: seq<Field>): seq<Byte>
    decreases fs, 0
  {
    if fs == [] then [] else FieldBytes(fs[0]) + Bytes(fs[1..])
  }

  /** Values of the formatter's parameter types; field numbers below 2^29, lengths below 2^32. */
  predicate FieldOk(f: Field)
    decreases f, 1
  {
    && f.number < 0x2000_0000
    && match f
       case VarIntField(_, v) => v < UINT64
       case Fixed32Field(_, v) => v < UINT32
       case Fixed64Field(_, v) => v < UINT64
       case BytesField(_, b) => |b| < UINT32
       case Message(_, fs) => |Bytes(fs)| < UINT32 && FieldsOk(fs)
  }

  predicate FieldsOk(fs: seq<Field>)
    decreases fs, 0
  {
    fs == [] || (FieldOk(fs[0]) && FieldsOk(fs[1..]))
  }

  // ---------------------------------------------------------------------------------------------
  // The formatter
  // ---------------------------------------------------------------------------------------------

  /** MaxVarIntSize is the exact number of bytes. */
  method MaxVarIntSize(value: nat) returns (result: nat)
    ensures result == |VarInt(value)|
  {
    result := 1;
    var v := value;
    while v > 127
      invariant result + |VarInt(v)| == 1 + |VarInt(value)|
    {
      v := v / 128;
      result := result + 1;
    }
  }

  /** `s'` is `s` with `data` at `at`, and nothing else changed. */
  ghost predicate Wrote(s: seq<Byte>, s': seq<Byte>, at: nat, data: seq<Byte>) {
    at + |data| <= |s| && s' == Overwritten(s, at, data)
  }

  lemma WroteTwice(s: seq<Byte>, s1: seq<Byte>, s2: seq<Byte>, at: nat, a: seq<Byte>, b: seq<Byte>)
    requires Wrote(s, s1, at, a) && Wrote(s1, s2, at + |a|, b)
    ensures Wrote(s, s2, at, a + b)
  {
  }

  method PutByte(w: Writer, b: Byte)
    requires w.Valid()
    modifies w, w.storage
    ensures w.Valid()
    ensures old(w.Room()) > 0 ==>
              && w.failed == old(w.failed) && w.offset == old(w.offset) + 1
              && Wrote(old(w.storage[..]), w.storage[..], w.begin + old(w.offset), [b])
    ensures old(w.Room()) == 0 ==> w.failed && w.offset == old(w.offset)
  {
    hide Overwritten;
    assert [b][..1] == [b];
    w.Insert([b]);
  }

  /** What PutVarInt has written when `v` is left. */
  ghost predicate VarIntPartly(value: nat, v: nat, done: seq<Byte>) { done + VarInt(v) == VarInt(value) }

  lemma VarIntNext(value: nat, v: nat, done: seq<Byte>)
    requires VarIntPartly(value, v, done)
    ensures var b := if v > 127 then v % 128 + 128 else v;
      |done| + 1 <= |VarInt(value)|
      && (if v / 128 == 0 then done + [b] == VarInt(value) else VarIntPartly(value, v / 128, done + [b]))
  {
    if v > 127 {
      assert done + VarInt(v) == (done + [v % 128 + 128]) + VarInt(v / 128);
    }
  }

  /** What is left of a stream that has taken `done` since it was at `at`: either all of it, or the
      stream is full and has failed. */
  ghost predicate Taken(s: seq<Byte>, s': seq<Byte>, at: nat, done: seq<Byte>, position: nat, end: nat, before: bool,
      failed: bool) {
    if at + |done| <= end then position == at + |done| && failed == before && Wrote(s, s', at, done)
    else position == end && failed
  }

  lemma VarIntStart(value: nat, start: seq<Byte>, at: nat, done: seq<Byte>)
    requires at <= |start| && done == []
    ensures Wrote(start, start, at, done) && VarIntPartly(value, value, done)
  {
    assert start == Overwritten(start, at, []);
    assert done + VarInt(value) == VarInt(value);
  }

  /** PutVarInt writes all groups if there is room for them, and otherwise fails. */
  method PutVarInt(w: Writer, value: nat)
    requires w.Valid()
    modifies w, w.storage
    ensures w.Valid() && w.offset >= old(w.offset) && (old(w.failed) ==> w.failed)
    ensures |VarInt(value)| <= old(w.Room()) ==>
              && w.failed == old(w.failed) && w.offset == old(w.offset) + |VarInt(value)|
              && Wrote(old(w.storage[..]), w.storage[..], w.begin + old(w.offset), VarInt(value))
    ensures |VarInt(value)| > old(w.Room()) ==> w.failed
  {
    hide Wrote, VarInt, VarIntPartly;
    var v := value;
    ghost var start := w.storage[..];
    ghost var at := w.begin + w.offset;
    ghost var done: seq<Byte> := [];
    VarIntStart(value, start, at, done);
    while true
      invariant w.Valid() && VarIntPartly(value, v, done)
      invariant Taken(start, w.storage[..], at, done, w.begin + w.offset, w.end, old(w.failed), w.failed)
      decreases v
    {
      VarIntNext(value, v, done);
      var b: Byte := if v > 127 then v % 128 + 128 else v;
      ghost var s := w.storage[..];
      PutByte(w, b);
      if at + |done| < w.end { WroteTwice(start, s, w.storage[..], at, done, [b]); }
      done := done + [b];
      v := v / 128;
      if v == 0 {
        break;
      }
    }
  }

  /** `s3` is `s0` with `p` inserted before the bytes [at, at + size). */
  ghost predicate Inserted(s0: seq<Byte>, s3: seq<Byte>, at: nat, size: nat, p: seq<Byte>) {
    |s3| == |s0| && at + size + |p| <= |s0| && s3[..at + |p| + size] == s0[..at] + (p + s0[at..at + size])
  }

  /** The four states of the storage around an insertion. */
  lemma PrefixInserted(s0: seq<Byte>, s1: seq<Byte>, s2: seq<Byte>, s3: seq<Byte>, end: nat, at: nat, size: nat,
      p: seq<Byte>)
    requires at + size + |p| <= end
    requires Saved(s0, s1, at, size, end) && Wrote(s1, s2, at, p) && Restored(s2, s3, at + |p|, size, end)
    ensures Inserted(s0, s3, at, size, p)
  {
    assert s2[..at + |p|] == s1[..at] + p;
    assert s2[end - size..end] == s1[end - size..end];
    hide Overwritten;
    assert s3[..at + |p| + size] == s3[..at + |p|] + s3[at + |p|..at + |p| + size];
    assert s0[..at] + p + s0[at..at + size] == s0[..at] + (p + s0[at..at + size]);
  }

  /** The destructor of ProtoLengthDelimitedFormatter: the length of everything since the marker is
      inserted in front of it. The stream for the length has an error policy of its own, which ends the
      program if there is no room. */
  method InsertLength(w: Writer, marker: nat) returns (aborted: bool)
    requires w.Valid() && marker <= w.offset
    modifies w, w.storage
    ensures aborted == (|VarInt(old(w.offset) - marker)| > old(w.Room()))
    ensures w.Valid() && w.failed == old(w.failed) && w.offset >= old(w.offset)
    ensures !aborted ==>
              && w.offset == old(w.offset) + |VarInt(old(w.offset) - marker)|
              && Inserted(old(w.storage[..]), w.storage[..], w.begin + marker, old(w.offset) - marker,
                          VarInt(old(w.offset) - marker))
  {
    hide Wrote, VarInt, Saved, Restored, Inserted;
    var size := w.offset - marker;
    ghost var s0 := w.storage[..];
    var rangeBegin, rangeEnd := w.SaveState(marker);
    ghost var s1 := w.storage[..];
    var saved := new Writer(w.storage, rangeBegin, rangeEnd);
    PutVarInt(saved, size);
    if saved.failed {
      return true;
    }
    ghost var s2 := w.storage[..];
    w.RestoreState(rangeBegin + saved.offset, rangeEnd);
    PrefixInserted(s0, s1, s2, w.storage[..], w.end, w.begin + marker, size, VarInt(size));
    aborted := false;
  }

  /** `s'` is `s` with `data` written at `at`; what follows is arbitrary. */
  ghost predicate Extends(s: seq<Byte>, s': seq<Byte>, at: nat, data: seq<Byte>) {
    |s'| == |s| && at + |data| <= |s| && s'[..at + |data|] == s[..at] + data
  }

  lemma ExtendsTwice(s: seq<Byte>, s1: seq<Byte>, s2: seq<Byte>, at: nat, a: seq<Byte>, b: seq<Byte>)
    requires Extends(s, s1, at, a) && Extends(s1, s2, at + |a|, b)
    ensures Extends(s, s2, at, a + b)
  {
    assert s[..at] + a + b == s[..at] + (a + b);
  }

  lemma WroteExtends(s: seq<Byte>, s': seq<Byte>, at: nat, data: seq<Byte>)
    requires Wrote(s, s', at, data)
    ensures Extends(s, s', at, data)
  {
  }

  /** Writing `data` and then inserting `p` in front of it. */
  lemma InsertedExtends(s: seq<Byte>, s0: seq<Byte>, s3: seq<Byte>, at: nat, data: seq<Byte>, p: seq<Byte>)
    requires Extends(s, s0, at, data) && Inserted(s0, s3, at, |data|, p)
    ensures Extends(s, s3, at, p + data)
  {
    var size := |data|;
    assert s0[..at] == s0[..at + size][..at];
    assert s0[at..at + size] == s0[..at + size][at..];
  }

  method PutBytes(w: Writer, data: seq<Byte>)
    requires w.Valid()
    modifies w, w.storage
    ensures w.Valid() && w.offset >= old(w.offset) && (old(w.failed) ==> w.failed)
    ensures |data| <= old(w.Room()) ==>
              && w.failed == old(w.failed) && w.offset == old(w.offset) + |data|
              && Extends(old(w.storage[..]), w.storage[..], w.begin + old(w.offset), data)
    ensures |data| > old(w.Room()) ==> w.failed
  {
    hide Overwritten, Extends;
    ghost var s := w.storage[..];
    ghost var at := w.begin + w.offset;
    assert data[..|data|] == data;
    w.Insert(data);
    if |data| <= old(w.Room()) { WroteExtends(s, w.storage[..], at, data); }
  }

  method PutNumber(w: Writer, value: nat)
    requires w.Valid()
    modifies w, w.storage
    ensures w.Valid() && w.offset >= old(w.offset) && (old(w.failed) ==> w.failed)
    ensures |VarInt(value)| <= old(w.Room()) ==>
              && w.failed == old(w.failed) && w.offset == old(w.offset) + |VarInt(value)|
              && Extends(old(w.storage[..]), w.storage[..], w.begin + old(w.offset), VarInt(value))
    ensures |VarInt(value)| > old(w.Room()) ==> w.failed
  {
    hide Wrote, Extends, VarInt;
    ghost var s := w.storage[..];
    ghost var at := w.begin + w.offset;
    PutVarInt(w, value);
    if |VarInt(value)| <= old(w.Room()) { WroteExtends(s, w.storage[..], at, VarInt(value)); }
  }

  /** The field writers of ProtoFormatter; a nested message is written first and its length after. All
      bytes are written exactly if there is room for them; otherwise the stream has failed, or the
      program has ended on a length for which there was no room. */
  method WriteField(w: Writer, f: Field) returns (aborted: bool)
    requires w.Valid()
    modifies w, w.storage
    ensures w.Valid() && w.offset >= old(w.offset) && (old(w.failed) ==> w.failed)
    ensures |FieldBytes(f)| <= old(w.Room()) ==>
              && !aborted && w.failed == old(w.failed) && w.offset == old(w.offset) + |FieldBytes(f)|
              && Extends(old(w.storage[..]), w.storage[..], w.begin + old(w.offset), FieldBytes(f))
    ensures |FieldBytes(f)| > old(w.Room()) ==> aborted || w.failed
    decreases f, 1
  {
    aborted := false;
    match f
    case VarIntField(n, v) => WriteVarInt(w, Key(n, 0), v);
    case Fixed64Field(n, v) => WriteScalar(w, Key(n, 1), LittleEndian(v, 8));
    case BytesField(n, b) => WriteBytes(w, Key(n, 2), b);
    case Fixed32Field(n, v) => WriteScalar(w, Key(n, 5), LittleEndian(v, 4));
    case Message(n, fs) => aborted := WriteMessage(w, Key(n, 2), fs);
  }

  /** A number, a key or a length, and then bytes. */
  method WriteScalar(w: Writer, key: nat, data: seq<Byte>)
    requires w.Valid()
    modifies w, w.storage
    ensures w.Valid() && w.offset >= old(w.offset) && (old(w.failed) ==> w.failed)
    ensures |VarInt(key) + data| <= old(w.Room()) ==>
              && w.failed == old(w.failed) && w.offset == old(w.offset) + |VarInt(key) + data|
              && Extends(old(w.storage[..]), w.storage[..], w.begin + old(w.offset), VarInt(key) + data)
    ensures |VarInt(key) + data| > old(w.Room()) ==> w.failed
  {
    hide Extends, VarInt;
    ghost var s0 := w.storage[..];
    ghost var at := w.begin + w.offset;
    PutNumber(w, key);
    ghost var s1 := w.storage[..];
    PutBytes(w, data);
    if |VarInt(key) + data| <= old(w.Room()) { ExtendsTwice(s0, s1, w.storage[..], at, VarInt(key), data); }
  }

  /** PutVarIntField */
  method WriteVarInt(w: Writer, key: nat, value: nat)
    requires w.Valid()
    modifies w, w.storage
    ensures w.Valid() && w.offset >= old(w.offset) && (old(w.failed) ==> w.failed)
    ensures |VarInt(key) + VarInt(value)| <= old(w.Room()) ==>
              && w.failed == old(w.failed) && w.offset == old(w.offset) + |VarInt(key) + VarInt(value)|
              && Extends(old(w.storage[..]), w.storage[..], w.begin + old(w.offset), VarInt(key) + VarInt(value))
    ensures |VarInt(key) + VarInt(value)| > old(w.Room()) ==> w.failed
  {
    hide Extends, VarInt;
    ghost var s0 := w.storage[..];
    ghost var at := w.begin + w.offset;
    PutNumber(w, key);
    ghost var s1 := w.storage[..];
    PutNumber(w, value);
    if |VarInt(key) + VarInt(value)| <= old(w.Room()) {
      ExtendsTwice(s0, s1, w.storage[..], at, VarInt(key), VarInt(value));
    }
  }

  /** PutBytesField and PutLengthDelimitedField */
  method WriteBytes(w: Writer, key: nat, bytes: seq<Byte>)
    requires w.Valid()
    modifies w, w.storage
    ensures w.Valid() && w.offset >= old(w.offset) && (old(w.failed) ==> w.failed)
    ensures var data := VarInt(key) + (VarInt(|bytes|) + bytes);
            && (|data| <= old(w.Room()) ==>
                  && w.failed == old(w.failed) && w.offset == old(w.offset) + |data|
                  && Extends(old(w.storage[..]), w.storage[..], w.begin + old(w.offset), data))
            && (|data| > old(w.Room()) ==> w.failed)
  {
    hide Extends, VarInt;
    ghost var s0 := w.storage[..];
    ghost var at := w.begin + w.offset;
    PutNumber(w, key);
    ghost var s1 := w.storage[..];
    WriteScalar(w, |bytes|, bytes);
    if |VarInt(key) + (VarInt(|bytes|) + bytes)| <= old(w.Room()) {
      ExtendsTwice(s0, s1, w.storage[..], at, VarInt(key), VarInt(|bytes|) + bytes);
    }
  }

  method WriteMessage(w: Writer, key: nat, fs: seq<Field>) returns (aborted: bool)
    requires w.Valid()
    modifies w, w.storage
    ensures w.Valid() && w.offset >= old(w.offset) && (old(w.failed) ==> w.failed)
    ensures var data := VarInt(key) + (VarInt(|Bytes(fs)|) + Bytes(fs));
            && (|data| <= old(w.Room()) ==>
                  && !aborted && w.failed == old(w.failed) && w.offset == old(w.offset) + |data|
                  && Extends(old(w.storage[..]), w.storage[..], w.begin + old(w.offset), data))
            && (|data| > old(w.Room()) ==> aborted || w.failed)
    decreases fs, 1
  {
    hide Extends, VarInt, Bytes, Inserted;
    ghost var s0 := w.storage[..];
    ghost var at := w.begin + w.offset;
    ghost var fits := |VarInt(key) + (VarInt(|Bytes(fs)|) + Bytes(fs))| <= w.Room();
    PutNumber(w, key);
    ghost var s1 := w.storage[..];
    var marker := w.offset;
    aborted := WriteFields(w, fs);
    if aborted {
      return;
    }
    ghost var s2 := w.storage[..];
    aborted := InsertLength(w, marker);
    if fits {
      InsertedExtends(s1, s2, w.storage[..], w.begin + marker, Bytes(fs), VarInt(|Bytes(fs)|));
      ExtendsTwice(s0, s1, w.storage[..], at, VarInt(key), VarInt(|Bytes(fs)|) + Bytes(fs));
    }
  }

  method WriteFields(w: Writer, fs: seq<Field>) returns (aborted: bool)
    requires w.Valid()
    modifies w, w.storage
    ensures w.Valid() && w.offset >= old(w.offset) && (old(w.failed) ==> w.failed)
    ensures |Bytes(fs)| <= old(w.Room()) ==>
              && !aborted && w.failed == old(w.failed) && w.offset == old(w.offset) + |Bytes(fs)|
              && Extends(old(w.storage[..]), w.storage[..], w.begin + old(w.offset), Bytes(fs))
    ensures |Bytes(fs)| > old(w.Room()) ==> aborted || w.failed
    decreases fs, 0
  {
    ghost var s0 := w.storage[..];
    ghost var at := w.begin + w.offset;
    aborted := false;
    if fs == [] {
      assert s0[..at] + [] == s0[..at];
    } else {
      hide Extends, FieldBytes;
      aborted := WriteField(w, fs[0]);
      if aborted {
        return;
      }
      ghost var s1 := w.storage[..];
      aborted := WriteFields(w, fs[1..]);
      if |Bytes(fs)| <= old(w.Room()) {
        ExtendsTwice(s0, s1, w.storage[..], at, FieldBytes(fs[0]), Bytes(fs[1..]));
      }
    }
  }
}
