/** infra/syntax/ProtoParser.cpp and infra/stream/LimitedInputStream.cpp: reading fields back. A nested
    message is read through two further limited readers, which all count down together. */
module ProtoParser {
  import opened Common
  import opened ByteOutputStream
  import opened ProtoBuf

  datatype Parsed<+T> = Failed | Parsed(value: T, rest: seq<Byte>)

  /** Which length-delimited fields are messages, as generated code knows it. */
  datatype Schema = Schema(nested: map<nat, Schema>)

  // ---------------------------------------------------------------------------------------------
  // Parsing, as a function of the bytes
  // ---------------------------------------------------------------------------------------------

  function Pow128(i: nat): nat { if i == 0 then 1 else 128 * Pow128(i - 1) }

  /** GetVarInt after `index` bytes: 64-bit arithmetic, at most ten bytes. The tenth byte ends the
      number whatever its high bit says: the source only queries its error policy there. */
  function VarIntFrom(s: seq<Byte>, result: nat, index: nat): (r: Parsed<nat>)
    requires index < 10
    ensures r.Parsed? ==> |r.rest| < |s|
    decreases 10 - index
  {
    if s == [] then Failed
    else
      var sum := AddGroup(result, s[0], index);
      if s[0] >= 128 && index + 1 != 10 then VarIntFrom(s[1..], sum, index + 1) else Parsed(sum, s[1..])
  }

  /** Seven more bits, in 64-bit arithmetic. */
  function AddGroup(result: nat, b: Byte, index: nat): nat { (result + b % 128 * Pow128(index)) % UINT64 }

  function FromLittleEndian(s: seq<Byte>): nat {
    if s == [] then 0 else s[0] + 256 * FromLittleEndian(s[1..])
  }

  /** One field: its key, cut to 32 bits, decides what follows. */
  function ParseField(s: seq<Byte>, schema: Schema): (r: Parsed<Field>)
    ensures r.Parsed? ==> |r.rest| < |s|
    decreases |s|, 0
  {
    match VarIntFrom(s, 0, 0)
    case Failed => Failed
    case Parsed(x, s1) =>
      var wireType := x % UINT32 % 8;
      var number := x % UINT32 / 8;
      if wireType == 0 then
        match VarIntFrom(s1, 0, 0)
        case Failed => Failed
        case Parsed(v, s2) => Parsed(VarIntField(number, v), s2)
      else if wireType == 1 then
        if |s1| < 8 then Failed else Parsed(Fixed64Field(number, FromLittleEndian(s1[..8])), s1[8..])
      else if wireType == 2 then ParseDelimited(s1, number, schema)
      else if wireType == 5 then
        if |s1| < 4 then Failed else Parsed(Fixed32Field(number, FromLittleEndian(s1[..4])), s1[4..])
      else Failed
  }

  /** What follows the key of a length-delimited field. */
  function ParseDelimited(s: seq<Byte>, number: nat, schema: Schema): (r: Parsed<Field>)
    ensures r.Parsed? ==> |r.rest| < |s|
    decreases |s|, 0
  {
    match VarIntFrom(s, 0, 0)
    case Failed => Failed
    case Parsed(v, rest) => ParseBody(rest, v % UINT32, number, schema)
  }

  function ParseBody(s: seq<Byte>, length: nat, number: nat, schema: Schema): (r: Parsed<Field>)
    ensures r.Parsed? ==> |r.rest| <= |s|
    decreases |s|, 2
  {
    if |s| < length then Failed
    else if number !in schema.nested then Parsed(BytesField(number, s[..length]), s[length..])
    else
      match ParseFields(s[..length], schema.nested[number])
      case None => Failed
      case Some(fs) => Parsed(Message(number, fs), s[length..])
  }

  function ParseFields(s: seq<Byte>, schema: Schema): Option<seq<Field>>
    decreases |s|, 1
  {
    if s == [] then Some([])
    else
      match ParseField(s, schema)
      case Failed => None
      case Parsed(f, rest) =>
        match ParseFields(rest, schema)
        case None => None
        case Some(fs) => Some([f] + fs)
  }

  // ---------------------------------------------------------------------------------------------
  // Round trip
  // ---------------------------------------------------------------------------------------------

  /** One group of seven bits. */
  lemma ReadGroup(low: nat, s: seq<Byte>, result: nat, index: nat, more: bool)
    requires low < 128 && index < 10 && (more ==> index + 1 < 10) && result + low * Pow128(index) < UINT64
    ensures VarIntFrom([if more then low + 128 else low] + s, result, index) ==
      var sum := result + low * Pow128(index); if more then VarIntFrom(s, sum, index + 1) else Parsed(sum, s)
  {
    var b := if more then low + 128 else low;
    AddGroupExact(result, b, low, index);
    hide AddGroup;
    assert ([b] + s)[1..] == s;
  }

  lemma AddGroupExact(result: nat, b: Byte, low: nat, index: nat)
    requires b % 128 == low && result + low * Pow128(index) < UINT64
    ensures AddGroup(result, b, index) == result + low * Pow128(index)
  {
    hide Pow128;
    var sum := result + low * Pow128(index);
    assert sum % UINT64 == sum;
  }

  lemma RoomForGroup(v: nat, index: nat)
    requires index < 10 && 128 <= v < Pow128(10 - index)
    ensures index + 1 < 10 && v / 128 < Pow128(10 - (index + 1))
  {
    assert Pow128(10 - index) == 128 * Pow128(10 - index - 1);
  }

  lemma {:induction false} ReadVarInt(v: nat, rest: seq<Byte>, result: nat, index: nat)
    requires index < 10 && v < Pow128(10 - index) && result + v * Pow128(index) < UINT64
    ensures VarIntFrom(VarInt(v) + rest, result, index) == Parsed(result + v * Pow128(index), rest)
    decreases v
  {
    hide VarIntFrom;
    if v <= 127 {
      ReadGroup(v, rest, result, index, false);
    } else {
      var low, high := v % 128, v / 128;
      RoomForGroup(v, index);
      assert VarInt(v) + rest == [low + 128] + (VarInt(high) + rest);
      assert Pow128(index + 1) == 128 * Pow128(index);
      hide VarInt, Pow128;
      GroupSum(v, Pow128(index));
      ReadGroup(low, VarInt(high) + rest, result, index, true);
      ReadVarInt(high, rest, result + low * Pow128(index), index + 1);
    }
  }

  lemma GroupSum(v: nat, p: nat)
    ensures v * p == v % 128 * p + v / 128 * (128 * p) && v % 128 * p <= v * p
  {
    assert v == v % 128 + 128 * (v / 128);
    assert v * p == v % 128 * p + 128 * (v / 128) * p;
    assert 128 * (v / 128) * p == v / 128 * (128 * p);
    assert 0 <= 128 * (v / 128) * p;
  }

  /** Every 64-bit number is read back from its bytes. */
  lemma ReadNumber(v: nat, rest: seq<Byte>)
    requires v < UINT64
    ensures VarIntFrom(VarInt(v) + rest, 0, 0) == Parsed(v, rest)
  {
    assert Pow128(10) >= UINT64 && Pow128(0) == 1 by {
      assert Pow128(2) == 16384;
      assert Pow128(4) == 16384 * 16384;
      assert Pow128(6) == 16384 * Pow128(4);
      assert Pow128(8) == 16384 * Pow128(6);
      assert Pow128(10) == 16384 * Pow128(8);
    }
    ReadVarInt(v, rest, 0, 0);
  }

  /** Every byte announces another one. */
  predicate AllMarked(s: seq<Byte>, n: nat)
    requires n <= |s|
  {
    forall i :: 0 <= i < n ==> s[i] >= 128
  }

  lemma {:induction false} VarIntFromEnds(s: seq<Byte>, result: nat, index: nat)
    requires index < 10
    ensures VarIntFrom(s, result, index).Failed? <==> |s| < 10 - index && AllMarked(s, |s|)
    ensures VarIntFrom(s, result, index).Parsed? ==>
              var n := |s| - |VarIntFrom(s, result, index).rest|;
              && 0 < n <= 10 - index && VarIntFrom(s, result, index).rest == s[n..] && AllMarked(s, n - 1)
              && (s[n - 1] >= 128 ==> n == 10 - index)
    decreases 10 - index
  {
    if s != [] && s[0] >= 128 && index + 1 != 10 {
      VarIntFromEnds(s[1..], AddGroup(result, s[0], index), index + 1);
      hide VarIntFrom;
      assert forall i :: 0 < i < |s| ==> s[i] == s[1..][i - 1];
      assert forall i :: 0 <= i < |s[1..]| ==> s[1..][i] == s[i + 1];
    }
  }

  /** A varint is reported as missing exactly if there are fewer than ten bytes and all of them
      announce another one. An accepted one ended on a byte that announces none exactly if there is
      such a byte among the first ten: ten marked bytes are accepted as a number. */
  lemma OverlongIsAccepted(s: seq<Byte>)
    ensures VarIntFrom(s, 0, 0).Failed? <==> |s| < 10 && AllMarked(s, |s|)
    ensures VarIntFrom(s, 0, 0).Parsed? ==>
              var n := |s| - |VarIntFrom(s, 0, 0).rest|;
              && 0 < n <= 10 && VarIntFrom(s, 0, 0).rest == s[n..]
              && (s[n - 1] < 128 <==> exists i :: 0 <= i < 10 && i < |s| && s[i] < 128)
              && (s[n - 1] >= 128 ==> n == 10)
  {
    hide VarIntFrom;
    VarIntFromEnds(s, 0, 0);
  }

  function Pow256(i: nat): nat { if i == 0 then 1 else 256 * Pow256(i - 1) }

  lemma {:induction false} ReadLittleEndian(v: nat, size: nat)
    requires v < Pow256(size)
    ensures FromLittleEndian(LittleEndian(v, size)) == v
    decreases size
  {
    if size > 0 {
      assert LittleEndian(v, size)[1..] == LittleEndian(v / 256, size - 1);
      ReadLittleEndian(v / 256, size - 1);
    }
  }

  /** The message fields are those the schema names. */
  predicate FieldConforms(f: Field, schema: Schema)
    decreases f, 1
  {
    match f
    case Message(n, fs) => n in schema.nested && Conforms(fs, schema.nested[n])
    case BytesField(n, _) => n !in schema.nested
    case _ => true
  }

  predicate Conforms(fs: seq<Field>, schema: Schema)
    decreases fs, 0
  {
    fs == [] || (FieldConforms(fs[0], schema) && Conforms(fs[1..], schema))
  }

  lemma KeyParts(n: nat, wireType: nat)
    requires n < 0x2000_0000 && wireType < 8
    ensures Key(n, wireType) < UINT32 && Key(n, wireType) % UINT32 % 8 == wireType && Key(n, wireType) % UINT32 / 8 == n
  {
  }

  lemma ReadDelimited(n: nat, data: seq<Byte>, rest: seq<Byte>) returns (s1: seq<Byte>, s2: seq<Byte>)
    requires n < 0x2000_0000 && |data| < UINT32
    ensures VarIntFrom(VarInt(Key(n, 2)) + (VarInt(|data|) + data) + rest, 0, 0) == Parsed(Key(n, 2), s1)
    ensures VarIntFrom(s1, 0, 0) == Parsed(|data|, s2) && |data| % UINT32 == |data|
    ensures |s2| >= |data| && s2[..|data|] == data && s2[|data|..] == rest
  {
    hide VarIntFrom, VarInt;
    s2 := data + rest;
    s1 := VarInt(|data|) + s2;
    KeyParts(n, 2);
    assert VarInt(Key(n, 2)) + (VarInt(|data|) + data) + rest == VarInt(Key(n, 2)) + s1;
    ReadNumber(Key(n, 2), s1);
    ReadNumber(|data|, s2);
  }

  lemma {:induction false} FieldRoundTrip(f: Field, rest: seq<Byte>, schema: Schema)
    requires FieldOk(f) && FieldConforms(f, schema)
    ensures ParseField(FieldBytes(f) + rest, schema) == Parsed(f, rest)
    decreases f, 1
  {
    hide VarIntFrom, VarInt, LittleEndian, FromLittleEndian;
    var n := f.number;
    match f
    case VarIntField(_, v) =>
      KeyParts(n, 0);
      var s1 := VarInt(v) + rest;
      assert FieldBytes(f) + rest == VarInt(Key(n, 0)) + s1;
      ReadNumber(Key(n, 0), s1);
      ReadNumber(v, rest);
    case Fixed64Field(_, v) =>
      FixedRoundTrip(n, 1, v, 8, rest);
    case Fixed32Field(_, v) =>
      FixedRoundTrip(n, 5, v, 4, rest);
    case BytesField(_, data) =>
      KeyParts(n, 2);
      var s1, s2 := ReadDelimited(n, data, rest);
      assert ParseBody(s2, |data|, n, schema) == Parsed(f, rest);
      assert ParseDelimited(s1, n, schema) == Parsed(f, rest);
    case Message(_, fs) =>
      KeyParts(n, 2);
      var s1, s2 := ReadDelimited(n, Bytes(fs), rest);
      RoundTrip(fs, schema.nested[n]);
      assert ParseBody(s2, |Bytes(fs)|, n, schema) == Parsed(f, rest);
      assert ParseDelimited(s1, n, schema) == Parsed(f, rest);
  }

  lemma FixedRoundTrip(n: nat, wireType: nat, v: nat, size: nat, rest: seq<Byte>)
    requires n < 0x2000_0000 && wireType < 8 && ((size == 4 && v < UINT32) || (size == 8 && v < UINT64))
    ensures VarIntFrom(VarInt(Key(n, wireType)) + LittleEndian(v, size) + rest, 0, 0)
         == Parsed(Key(n, wireType), LittleEndian(v, size) + rest)
    ensures Key(n, wireType) % UINT32 % 8 == wireType && Key(n, wireType) % UINT32 / 8 == n
    ensures FromLittleEndian((LittleEndian(v, size) + rest)[..size]) == v
    ensures (LittleEndian(v, size) + rest)[size..] == rest
  {
    var d := LittleEndian(v, size);
    KeyParts(n, wireType);
    assert VarInt(Key(n, wireType)) + d + rest == VarInt(Key(n, wireType)) + (d + rest);
    ReadNumber(Key(n, wireType), d + rest);
    assert Pow256(2) == 65536 && Pow256(4) == 65536 * 65536 && Pow256(8) == Pow256(4) * Pow256(4) by {
      assert Pow256(6) == 65536 * Pow256(4) && Pow256(8) == 65536 * Pow256(6);
    }
    hide VarIntFrom, VarInt;
    ReadLittleEndian(v, size);
    assert (d + rest)[..size] == d;
  }

  /** Any list of fields, nested as deep as it may be, is parsed back from its bytes. */
  lemma {:induction false} RoundTrip(fs: seq<Field>, schema: Schema)
    requires FieldsOk(fs) && Conforms(fs, schema)
    ensures ParseFields(Bytes(fs), schema) == Some(fs)
    decreases fs, 0
  {
    if fs != [] {
      hide ParseField, VarInt, VarIntFrom;
      FieldRoundTrip(fs[0], Bytes(fs[1..]), schema);
      RoundTrip(fs[1..], schema);
      FieldNotEmpty(fs[0]);
      assert [fs[0]] + fs[1..] == fs;
    }
  }

  lemma FieldNotEmpty(f: Field)
    ensures FieldBytes(f) != []
  {
  }

  // ---------------------------------------------------------------------------------------------
  // The readers
  // ---------------------------------------------------------------------------------------------

  /** LimitedStreamReader::Available of the innermost of a chain of limited readers. */
  function Visible(remaining: nat, limits: seq<nat>): (v: nat)
    ensures v <= remaining
  {
    if limits == [] then remaining
    else
      var length := limits[|limits| - 1];
      var inner := Visible(remaining, limits[..|limits| - 1]);
      if length < inner then length else inner
  }

  function Minus(limits: seq<nat>, n: nat): (r: seq<nat>)
    requires forall i :: 0 <= i < |limits| ==> n <= limits[i]
    ensures |r| == |limits| && forall i :: 0 <= i < |r| ==> r[i] == limits[i] - n
  {
    seq(|limits|, i requires 0 <= i < |limits| => limits[i] - n)
  }

  /** What all limits and the data leave room for is visible, and nothing more. */
  lemma {:induction false} VisibleBounds(remaining: nat, limits: seq<nat>, n: nat)
    ensures n <= Visible(remaining, limits) <==> n <= remaining && forall i :: 0 <= i < |limits| ==> n <= limits[i]
    decreases |limits|
  {
    if limits != [] {
      var outer := limits[..|limits| - 1];
      VisibleBounds(remaining, outer, n);
      assert forall i :: 0 <= i < |outer| ==> limits[i] == outer[i];
    }
  }

  lemma VisibleMinus(remaining: nat, limits: seq<nat>, n: nat)
    requires n <= Visible(remaining, limits)
    ensures n <= remaining && (forall i :: 0 <= i < |limits| ==> n <= limits[i])
    ensures Visible(remaining - n, Minus(limits, n)) == Visible(remaining, limits) - n
  {
    VisibleBounds(remaining, limits, n);
    var v, w := Visible(remaining, limits), Visible(remaining - n, Minus(limits, n));
    VisibleBounds(remaining, limits, v);
    VisibleBounds(remaining - n, Minus(limits, n), v - n);
    VisibleBounds(remaining - n, Minus(limits, n), w);
    VisibleBounds(remaining, limits, w + n);
  }

  /** The bytes that a chain of limited readers lets through. */
  function RestOf(data: seq<Byte>, position: nat, limits: seq<nat>): (r: seq<Byte>)
    requires position <= |data|
    ensures |r| == Visible(|data| - position, limits)
  {
    data[position..position + Visible(|data| - position, limits)]
  }

  /** Position and limits `n` bytes on. */
  predicate Moved(p0: nat, l0: seq<nat>, p1: nat, l1: seq<nat>, n: nat) {
    p1 == p0 + n && |l1| == |l0| && forall i :: 0 <= i < |l1| ==> l1[i] == l0[i] - n
  }

  lemma MovedRest(data: seq<Byte>, p0: nat, l0: seq<nat>, p1: nat, l1: seq<nat>, n: nat)
    requires p0 <= |data| && n <= |RestOf(data, p0, l0)| && Moved(p0, l0, p1, l1, n)
    ensures p1 <= |data| && RestOf(data, p1, l1) == RestOf(data, p0, l0)[n..]
  {
    VisibleMinus(|data| - p0, l0, n);
    assert l1 == Minus(l0, n);
  }

  lemma MovedTwice(p0: nat, l0: seq<nat>, p1: nat, l1: seq<nat>, p2: nat, l2: seq<nat>, n: nat, k: nat)
    requires Moved(p0, l0, p1, l1, n) && Moved(p1, l1, p2, l2, k)
    ensures Moved(p0, l0, p2, l2, n + k)
  {
  }

  lemma MovedPop(p0: nat, l0: seq<nat>, length: nat, p1: nat, l1: seq<nat>, n: nat)
    requires Moved(p0, l0 + [length], p1, l1, n)
    ensures l1 != [] && Moved(p0, l0, p1, l1[..|l1| - 1], n)
  {
    assert forall i :: 0 <= i < |l0| ==> (l0 + [length])[i] == l0[i];
  }

  /** A limit of `length` on top, inside what is visible, shows exactly that many bytes. */
  lemma LimitedRest(data: seq<Byte>, position: nat, limits: seq<nat>, length: nat)
    requires position <= |data| && length <= |RestOf(data, position, limits)|
    ensures RestOf(data, position, limits + [length]) == RestOf(data, position, limits)[..length]
  {
    assert (limits + [length])[..|limits|] == limits;
  }

  /** A reader of bytes below a chain of limited readers, the innermost last. */
  class Reader {
    const data: seq<Byte>
    var position: nat
    var limits: seq<nat>
    var failed: bool

    ghost predicate Valid()
      reads this
    {
      position <= |data|
    }

    ghost function Rest(): seq<Byte>
      requires Valid()
      reads this
    {
      RestOf(data, position, limits)
    }

    constructor (data: seq<Byte>)
      ensures Valid() && this.data == data && position == 0 && limits == [] && !failed && Rest() == data
    {
      this.data := data;
      position, limits, failed := 0, [], false;
    }

    /** Extract: each limit in turn cuts the request, reports it and counts down. */
    method Extract(size: nat) returns (bytes: seq<Byte>)
      requires Valid() && !failed
      modifies this
      ensures Valid() && |limits| == |old(limits)| && failed == (size > |old(Rest())|)
      ensures !failed ==> Moved(old(position), old(limits), position, limits, size)
      ensures !failed ==> bytes == old(Rest())[..size] && Rest() == old(Rest())[size..]
    {
      VisibleBounds(|data| - position, limits, size);
      var n := size;
      var i := |limits|;
      ghost var ok := size <= Visible(|data| - position, limits);
      while i > 0
        invariant 0 <= i <= |limits| == |old(limits)| && position == old(position) && 0 <= n <= size
        invariant n < size ==> failed
        invariant n == size ==> forall k :: i <= k < |limits| ==> size <= old(limits)[k]
        invariant ok ==> n == size && !failed
        invariant ok ==> forall k :: i <= k < |limits| ==> limits[k] == old(limits)[k] - size
        invariant forall k :: 0 <= k < i ==> limits[k] == old(limits)[k]
      {
        i := i - 1;
        if limits[i] < n {
          failed := true;
          n := limits[i];
        }
        limits := limits[i := limits[i] - n];
      }
      if |data| - position < n {
        failed := true;
        n := |data| - position;
      }
      bytes := data[position..position + n];
      position := position + n;
      if ok {
        MovedRest(data, old(position), old(limits), position, limits, size);
      }
    }

    method GetVarInt() returns (result: nat)
      requires Valid() && !failed
      modifies this
      ensures Valid() && |limits| == |old(limits)| && failed == VarIntFrom(old(Rest()), 0, 0).Failed?
      ensures !failed ==> position > old(position)
      ensures !failed ==> VarIntFrom(old(Rest()), 0, 0) == Parsed(result, Rest())
      ensures !failed ==> |Rest()| < |old(Rest())|
      ensures !failed ==> Moved(old(position), old(limits), position, limits, |old(Rest())| - |Rest()|)
    {
      hide AddGroup, RestOf;
      result := 0;
      var index := 0;
      ghost var rest := Rest();
      while true
        invariant Valid() && !failed && 0 <= index < 10 && index <= |rest| && Rest() == rest[index..]
        invariant Moved(old(position), old(limits), position, limits, index)
        invariant VarIntFrom(Rest(), result, index) == VarIntFrom(rest, 0, 0)
        decreases 10 - index
      {
        ghost var p1, l1 := position, limits;
        var bytes := Extract(1);
        if failed {
          return;
        }
        MovedTwice(old(position), old(limits), p1, l1, position, limits, index, 1);
        result := AddGroup(result, bytes[0], index);
        index := index + 1;
        if bytes[0] < 128 || index == 10 {
          return;
        }
      }
    }

    /** GetField, and what generated code does with the field: a length-delimited field is read through
        a limited reader of its length, a message through a parser with a further one. */
    method ReadField(schema: Schema) returns (field: Field)
      requires Valid() && !failed
      modifies this
      ensures Valid() && |limits| == |old(limits)| && failed == ParseField(old(Rest()), schema).Failed?
      ensures !failed ==> ParseField(old(Rest()), schema) == Parsed(field, Rest())
      ensures !failed ==> |Rest()| < |old(Rest())|
      ensures !failed ==> Moved(old(position), old(limits), position, limits, |old(Rest())| - |Rest()|)
      decreases |data| - position, 0
    {
      hide VarIntFrom, RestOf, Moved;
      field := VarIntField(0, 0);
      ghost var p0, l0, r0 := position, limits, Rest();
      var key := GetVarInt();
      if failed {
        return;
      }
      ghost var p1, l1, r1 := position, limits, Rest();
      var wireType, number := key % UINT32 % 8, key % UINT32 / 8;
      if wireType == 0 {
        var value := GetVarInt();
        field := VarIntField(number, value);
      } else if wireType == 1 {
        var bytes := Extract(8);
        field := Fixed64Field(number, FromLittleEndian(bytes));
      } else if wireType == 2 {
        field := ReadDelimitedField(number, schema);
      } else if wireType == 5 {
        var bytes := Extract(4);
        field := Fixed32Field(number, FromLittleEndian(bytes));
      } else {
        failed := true;
      }
      if !failed {
        MovedTwice(p0, l0, p1, l1, position, limits, |r0| - |r1|, |r1| - |Rest()|);
      }
    }

    method ReadDelimitedField(number: nat, schema: Schema) returns (field: Field)
      requires Valid() && !failed
      modifies this
      ensures Valid() && |limits| == |old(limits)| && failed == ParseDelimited(old(Rest()), number, schema).Failed?
      ensures !failed ==> ParseDelimited(old(Rest()), number, schema) == Parsed(field, Rest())
      ensures !failed ==> |Rest()| < |old(Rest())|
      ensures !failed ==> Moved(old(position), old(limits), position, limits, |old(Rest())| - |Rest()|)
      decreases |data| - position, 0
    {
      field := VarIntField(0, 0);
      ghost var p0, l0, r0 := position, limits, Rest();
      var size := GetVarInt();
      if failed {
        return;
      }
      ghost var p1, l1, r1 := position, limits, Rest();
      hide VarIntFrom, RestOf, Moved, ParseBody;
      field := ReadBody(size % UINT32, number, schema);
      if !failed {
        MovedTwice(p0, l0, p1, l1, position, limits, |r0| - |r1|, |r1| - |Rest()|);
      }
    }

    /** ProtoLengthDelimited: a further limit, of the length read, for bytes or for a parser. */
    method ReadBody(length: nat, number: nat, schema: Schema) returns (field: Field)
      requires Valid() && !failed
      modifies this
      ensures Valid() && |limits| == |old(limits)| && failed == ParseBody(old(Rest()), length, number, schema).Failed?
      ensures !failed ==> ParseBody(old(Rest()), length, number, schema) == Parsed(field, Rest())
      ensures !failed ==> |Rest()| <= |old(Rest())|
      ensures !failed ==> Moved(old(position), old(limits), position, limits, |old(Rest())| - |Rest()|)
      decreases |data| - position, 2
    {
      field := VarIntField(0, 0);
      ghost var p0, l0, r0 := position, limits, Rest();
      if Visible(|data| - position, limits) < length {
        failed := true;
        return;
      }
      LimitedRest(data, position, limits, length);
      hide RestOf, Moved;
      limits := limits + [length];
      ghost var l1 := limits;
      if number !in schema.nested {
        var bytes := Extract(length);
        field := BytesField(number, bytes);
        assert r0[..length][..length] == r0[..length];
      } else {
        LimitedRest(data, position, limits, length);
        limits := limits + [length];
        assert Rest() == r0[..length][..length] == r0[..length];
        var fields := ReadFields(schema.nested[number]);
        field := Message(number, fields);
        if !failed { MovedPop(p0, l1, length, position, limits, length); }
        limits := limits[..|limits| - 1];
      }
      if !failed {
        MovedPop(p0, l0, length, position, limits, length);
        MovedRest(data, p0, l0, position, limits[..|limits| - 1], length);
      }
      limits := limits[..|limits| - 1];
    }

    /** while (!parser.Empty()) parser.GetField(). */
    method ReadFields(schema: Schema) returns (fields: seq<Field>)
      requires Valid() && !failed
      modifies this
      ensures Valid() && |limits| == |old(limits)| && failed == ParseFields(old(Rest()), schema).None?
      ensures !failed ==> ParseFields(old(Rest()), schema) == Some(fields) && Rest() == []
      ensures !failed ==> Moved(old(position), old(limits), position, limits, |old(Rest())|)
      decreases |data| - position, 1
    {
      hide RestOf, ParseField;
      fields := [];
      ghost var p0, l0, r0 := position, limits, Rest();
      ghost var n: nat := 0;
      assert ParseFields(r0, schema) == After([], ParseFields(r0, schema)) by {
        if ParseFields(r0, schema).Some? { assert [] + ParseFields(r0, schema).value == ParseFields(r0, schema).value; }
      }
      while !failed && Visible(|data| - position, limits) > 0
        invariant Valid() && |limits| == |l0|
        invariant failed ==> ParseFields(r0, schema).None?
        invariant !failed ==> n <= |r0| && Moved(p0, l0, position, limits, n) && Rest() == r0[n..]
        invariant !failed ==> ParseFields(r0, schema) == After(fields, ParseFields(Rest(), schema))
        decreases !failed, |data| - position
      {
        ghost var p1, l1, r1 := position, limits, Rest();
        var field := ReadField(schema);
        if !failed {
          MovedTwice(p0, l0, p1, l1, position, limits, n, |r1| - |Rest()|);
          n := n + (|r1| - |Rest()|);
          MovedRest(data, p0, l0, position, limits, n);
          AfterNext(fields, field, ParseFields(Rest(), schema));
          fields := fields + [field];
        }
      }
      assert fields + [] == fields;
    }
  }

  /** The fields read so far, before those that are still to come. */
  function After(fields: seq<Field>, rest: Option<seq<Field>>): Option<seq<Field>> {
    if rest.None? then None else Some(fields + rest.value)
  }

  lemma AfterNext(fields: seq<Field>, field: Field, rest: Option<seq<Field>>)
    ensures After(fields, if rest.None? then None else Some([field] + rest.value)) == After(fields + [field], rest)
  {
    if rest.Some? {
      assert fields + ([field] + rest.value) == (fields + [field]) + rest.value;
    }
  }

  /** The end to end statement: what is written to a byte stream is read back if there is room for it,
      and otherwise writing fails or ends the program. */
  method WriteThenRead(fs: seq<Field>, schema: Schema, storage: array<Byte>) returns (result: seq<Field>, ok: bool)
    requires FieldsOk(fs) && Conforms(fs, schema)
    modifies storage
    ensures ok == (|Bytes(fs)| <= storage.Length)
    ensures ok ==> result == fs
  {
    hide Bytes, ParseFields;
    var writer := new Writer(storage, 0, storage.Length);
    ghost var before := storage[..];
    var aborted := WriteFields(writer, fs);
    ok := !aborted && !writer.failed;
    if !ok {
      return [], false;
    }
    var data := storage[..][..writer.offset];
    assert data == before[..0] + Bytes(fs) == Bytes(fs);
    var reader := new Reader(data);
    RoundTrip(fs, schema);
    result := reader.ReadFields(schema);
    ok := !reader.failed;
  }
}
