/** Which bytes the parser of infra/syntax/ProtoParser.cpp takes for a message: exactly those of the wire
    format, with numbers of up to ten bytes that need not be the shortest. */
module ProtoWire {
  import opened Common
  import opened ProtoBuf
  import opened ProtoParser

  // ---------------------------------------------------------------------------------------------
  // The wire format
  // ---------------------------------------------------------------------------------------------

  /** A field as it is on the wire; `key`, `length` and the value of a number are bytes. */
  datatype Wire =
    | WireNumber(key: seq<Byte>, value: seq<Byte>)
    | WireFixed(key: seq<Byte>, data: seq<Byte>)
    | WireBytes(key: seq<Byte>, length: seq<Byte>, data: seq<Byte>)
    | WireMessage(key: seq<Byte>, length: seq<Byte>, fields: seq<Wire>)

  /** Groups of seven bits: all but the last are marked, and the tenth is the last one in any case. */
  predicate IsNumber(s: seq<Byte>) {
    && 1 <= |s| <= 10 && (s[|s| - 1] < 128 || |s| == 10)
    && forall i :: 0 <= i < |s| - 1 ==> s[i] >= 128
  }

  function Groups(s: seq<Byte>, index: nat): nat {
    if s == [] then 0 else s[0] % 128 * Pow128(index) + Groups(s[1..], index + 1)
  }

  /** The number that bytes stand for, in 64 bits. */
  function NumberOf(s: seq<Byte>): nat { Groups(s, 0) % UINT64 }

  function TypeOf(key: seq<Byte>): nat { NumberOf(key) % UINT32 % 8 }
  function FieldNumberOf(key: seq<Byte>): nat { NumberOf(key) % UINT32 / 8 }
  function LengthOf(length: seq<Byte>): nat { NumberOf(length) % UINT32 }

  /** The wire type says what follows, and a length is that of what follows it. */
  predicate WireOk(w: Wire, schema: Schema)
    decreases w, 1
  {
    && IsNumber(w.key)
    && match w
       case WireNumber(key, value) => TypeOf(key) == 0 && IsNumber(value)
       case WireFixed(key, data) => (TypeOf(key) == 1 && |data| == 8) || (TypeOf(key) == 5 && |data| == 4)
       case WireBytes(key, length, data) =>
         && TypeOf(key) == 2 && IsNumber(length) && LengthOf(length) == |data|
         && FieldNumberOf(key) !in schema.nested
       case WireMessage(key, length, fields) =>
         && TypeOf(key) == 2 && IsNumber(length) && LengthOf(length) == |AllWireBytes(fields)|
         && FieldNumberOf(key) in schema.nested && AllWireOk(fields, schema.nested[FieldNumberOf(key)])
  }

  predicate AllWireOk(ws: seq<Wire>, schema: Schema)
    decreases ws, 0
  {
    ws == [] || (WireOk(ws[0], schema) && AllWireOk(ws[1..], schema))
  }

  function BytesOf(w: Wire): seq<Byte>
    decreases w, 1
  {
    match w
    case WireNumber(key, value) => key + value
    case WireFixed(key, data) => key + data
    case WireBytes(key, length, data) => key + (length + data)
    case WireMessage(key, length, fields) => key + (length + AllWireBytes(fields))
  }

  function AllWireBytes(ws: seq<Wire>): seq<Byte>
    decreases ws, 0
  {
    if ws == [] then [] else BytesOf(ws[0]) + AllWireBytes(ws[1..])
  }

  function FieldOf(w: Wire): Field
    decreases w, 1
  {
    var number := FieldNumberOf(w.key);
    match w
    case WireNumber(_, value) => VarIntField(number, NumberOf(value))
    case WireFixed(key, data) =>
      if TypeOf(key) == 1 then Fixed64Field(number, FromLittleEndian(data))
      else Fixed32Field(number, FromLittleEndian(data))
    case WireBytes(_, _, data) => BytesField(number, data)
    case WireMessage(_, _, fields) => Message(number, FieldsOf(fields))
  }

  function FieldsOf(ws: seq<Wire>): seq<Field>
    decreases ws, 0
  {
    if ws == [] then [] else [FieldOf(ws[0])] + FieldsOf(ws[1..])
  }

  // ---------------------------------------------------------------------------------------------
  // Numbers
  // ---------------------------------------------------------------------------------------------

  lemma ModTwice(a: nat, b: nat)
    ensures (a % UINT64 + b) % UINT64 == (a + b) % UINT64
  {
  }

  /** From a turn of the loop on. */
  predicate EndsNumber(s: seq<Byte>, index: nat) {
    && 1 <= |s| <= 10 - index && (s[|s| - 1] < 128 || |s| == 10 - index)
    && forall i :: 0 <= i < |s| - 1 ==> s[i] >= 128
  }

  lemma {:induction false} NumberForward(s: seq<Byte>, rest: seq<Byte>, result: nat, index: nat)
    requires index < 10 && EndsNumber(s, index)
    ensures VarIntFrom(s + rest, result, index) == Parsed((result + Groups(s, index)) % UINT64, rest)
    decreases |s|
  {
    hide Pow128;
    var sum := AddGroup(result, s[0], index);
    assert (s + rest)[1..] == s[1..] + rest;
    if |s| == 1 {
      assert s[1..] == [] && s[1..] + rest == rest;
      assert Groups(s[1..], index + 1) == 0;
    } else {
      NumberForward(s[1..], rest, sum, index + 1);
      ModTwice(result + s[0] % 128 * Pow128(index), Groups(s[1..], index + 1));
    }
  }

  lemma {:induction false} NumberBack(s: seq<Byte>, result: nat, index: nat) returns (bytes: seq<Byte>)
    requires index < 10 && VarIntFrom(s, result, index).Parsed?
    ensures EndsNumber(bytes, index) && s == bytes + VarIntFrom(s, result, index).rest
    decreases 10 - index
  {
    if s[0] >= 128 && index + 1 != 10 {
      bytes := NumberBack(s[1..], AddGroup(result, s[0], index), index + 1);
      bytes := [s[0]] + bytes;
      assert s == [s[0]] + s[1..];
    } else {
      bytes := [s[0]];
    }
  }

  /** Reading a number succeeds exactly on the bytes of one, and gives what they stand for. */
  lemma ReadsNumber(s: seq<Byte>) returns (bytes: seq<Byte>)
    requires VarIntFrom(s, 0, 0).Parsed?
    ensures IsNumber(bytes) && s == bytes + VarIntFrom(s, 0, 0).rest && VarIntFrom(s, 0, 0).value == NumberOf(bytes)
  {
    hide VarIntFrom, Groups;
    bytes := NumberBack(s, 0, 0);
    NumberForward(bytes, VarIntFrom(s, 0, 0).rest, 0, 0);
  }

  lemma ReadsNumberForward(bytes: seq<Byte>, rest: seq<Byte>)
    requires IsNumber(bytes)
    ensures VarIntFrom(bytes + rest, 0, 0) == Parsed(NumberOf(bytes), rest)
  {
    NumberForward(bytes, rest, 0, 0);
  }

  // ---------------------------------------------------------------------------------------------
  // Fields
  // ---------------------------------------------------------------------------------------------

  /** What follows the length of a field. */
  function Delimited(s: seq<Byte>, length: nat, number: nat, schema: Schema): Parsed<Field> {
    if |s| < length then Failed
    else if number !in schema.nested then Parsed(BytesField(number, s[..length]), s[length..])
    else if ParseFields(s[..length], schema.nested[number]).None? then Failed
    else Parsed(Message(number, ParseFields(s[..length], schema.nested[number]).value), s[length..])
  }

  lemma DelimitedUnfold(s: seq<Byte>, key: seq<Byte>, length: seq<Byte>, rest: seq<Byte>, schema: Schema)
    requires IsNumber(key) && IsNumber(length) && TypeOf(key) == 2 && s == key + (length + rest)
    ensures ParseField(s, schema) == Delimited(rest, LengthOf(length), FieldNumberOf(key), schema)
  {
    hide VarIntFrom, IsNumber, NumberOf, ParseFields;
    ReadsNumberForward(key, length + rest);
    ReadsNumberForward(length, rest);
    var number := FieldNumberOf(key);
    assert ParseField(s, schema) == ParseDelimited(length + rest, number, schema);
    assert ParseDelimited(length + rest, number, schema) == ParseBody(rest, LengthOf(length), number, schema);
  }

  lemma {:induction false} FieldForward(w: Wire, schema: Schema, rest: seq<Byte>)
    requires WireOk(w, schema)
    ensures ParseField(BytesOf(w) + rest, schema) == Parsed(FieldOf(w), rest)
    decreases w, 1
  {
    hide VarIntFrom, IsNumber, NumberOf, FromLittleEndian, ParseFields, AllWireBytes, AllWireOk, FieldsOf;
    var s := BytesOf(w) + rest;
    match w
    case WireNumber(key, value) =>
      assert s == key + (value + rest);
      ReadsNumberForward(key, value + rest);
      ReadsNumberForward(value, rest);
    case WireFixed(key, data) =>
      assert s == key + (data + rest);
      ReadsNumberForward(key, data + rest);
      Cut(data, rest);
    case WireBytes(key, length, data) =>
      assert s == key + (length + (data + rest));
      DelimitedUnfold(s, key, length, data + rest, schema);
      Cut(data, rest);
    case WireMessage(key, length, fields) =>
      var data := AllWireBytes(fields);
      assert s == key + (length + (data + rest));
      DelimitedUnfold(s, key, length, data + rest, schema);
      FieldsForward(fields, schema.nested[FieldNumberOf(key)]);
      Cut(data, rest);
  }

  lemma Cut(data: seq<Byte>, rest: seq<Byte>)
    ensures (data + rest)[..|data|] == data && (data + rest)[|data|..] == rest
  {
  }

  lemma {:induction false} FieldsForward(ws: seq<Wire>, schema: Schema)
    requires AllWireOk(ws, schema)
    ensures ParseFields(AllWireBytes(ws), schema) == Some(FieldsOf(ws))
    decreases ws, 0
  {
    hide ParseField, WireOk, BytesOf, FieldOf;
    if ws != [] {
      FieldForward(ws[0], schema, AllWireBytes(ws[1..]));
      FieldsForward(ws[1..], schema);
      SomeBytes(ws[0], schema);
    }
  }

  lemma SomeBytes(w: Wire, schema: Schema)
    requires WireOk(w, schema)
    ensures BytesOf(w) != []
  {
  }

  lemma {:induction false} FieldBack(s: seq<Byte>, schema: Schema) returns (w: Wire)
    requires ParseField(s, schema).Parsed?
    ensures WireOk(w, schema) && s == BytesOf(w) + ParseField(s, schema).rest
    ensures FieldOf(w) == ParseField(s, schema).value
    decreases |s|, 1
  {
    hide VarIntFrom, IsNumber, NumberOf, FromLittleEndian, ParseFields, AllWireBytes, AllWireOk, FieldsOf;
    var key := ReadsNumber(s);
    var s1 := VarIntFrom(s, 0, 0).rest;
    var rest := ParseField(s, schema).rest;
    if TypeOf(key) == 0 {
      var value := ReadsNumber(s1);
      w := WireNumber(key, value);
      assert key + (value + rest) == (key + value) + rest;
    } else if TypeOf(key) == 1 || TypeOf(key) == 5 {
      var n := if TypeOf(key) == 1 then 8 else 4;
      w := WireFixed(key, s1[..n]);
      assert s1 == s1[..n] + s1[n..];
      assert key + (s1[..n] + rest) == (key + s1[..n]) + rest;
    } else {
      assert TypeOf(key) == 2 && ParseField(s, schema) == ParseDelimited(s1, FieldNumberOf(key), schema);
      var length := ReadsNumber(s1);
      var s2 := VarIntFrom(s1, 0, 0).rest;
      DelimitedUnfold(s, key, length, s2, schema);
      var data := s2[..LengthOf(length)];
      assert s2 == data + rest;
      assert key + (length + (data + rest)) == (key + (length + data)) + rest;
      if FieldNumberOf(key) !in schema.nested {
        w := WireBytes(key, length, data);
      } else {
        var fields := FieldsBack(data, schema.nested[FieldNumberOf(key)]);
        w := WireMessage(key, length, fields);
      }
    }
  }

  lemma {:induction false} FieldsBack(s: seq<Byte>, schema: Schema) returns (ws: seq<Wire>)
    requires ParseFields(s, schema).Some?
    ensures AllWireOk(ws, schema) && s == AllWireBytes(ws) && FieldsOf(ws) == ParseFields(s, schema).value
    decreases |s|, 2
  {
    hide ParseField, WireOk, BytesOf, FieldOf;
    if s == [] {
      ws := [];
    } else {
      var w := FieldBack(s, schema);
      var tail := FieldsBack(ParseField(s, schema).rest, schema);
      ws := [w] + tail;
      assert ws[1..] == tail;
    }
  }

  /** A message is read exactly if its bytes are those of fields on the wire, and as what they denote.
      Otherwise, at a length that is too large, a number that does not end, an unknown wire type or bytes
      that are missing, reading fails. */
  lemma ReadsExactlyWire(s: seq<Byte>, schema: Schema, fs: seq<Field>)
    ensures ParseFields(s, schema) == Some(fs)
       <==> exists ws :: AllWireOk(ws, schema) && AllWireBytes(ws) == s && FieldsOf(ws) == fs
  {
    hide ParseFields, AllWireOk, AllWireBytes, FieldsOf;
    if ParseFields(s, schema) == Some(fs) {
      var ws := FieldsBack(s, schema);
      assert AllWireOk(ws, schema) && AllWireBytes(ws) == s && FieldsOf(ws) == fs;
    }
    if ws :| AllWireOk(ws, schema) && AllWireBytes(ws) == s && FieldsOf(ws) == fs {
      FieldsForward(ws, schema);
    }
  }

  /** Some messages that are not read: an unknown wire type, a length beyond the end, a number that is cut. */
  lemma NotRead(schema: Schema)
    ensures ParseFields([8 + 3], schema) == None
    ensures ParseFields([8 + 2, 5, 1, 2], schema) == None
    ensures ParseFields([8 + 0, 200], schema) == None
  {
    hide ParseFields, VarIntFrom;
    OneByte(11, []);
    assert [11] + [] == [11];
    OneByte(10, [5, 1, 2]);
    OneByte(5, [1, 2]);
    assert [10] + [5, 1, 2] == [10, 5, 1, 2] && [5] + [1, 2] == [5, 1, 2];
    OneByte(8, [200]);
    assert [8] + [200] == [8, 200];
    Unfinished();
    NoField([11], schema);
    NoField([10, 5, 1, 2], schema);
    NoField([8, 200], schema);
    assert ParseDelimited([5, 1, 2], 1, schema) == ParseBody([1, 2], 5, 1, schema) == Failed;
  }

  lemma NoField(s: seq<Byte>, schema: Schema)
    requires s != []
    ensures ParseField(s, schema).Failed? ==> ParseFields(s, schema) == None
  {
  }

  lemma OneByte(b: Byte, rest: seq<Byte>)
    requires b < 128
    ensures VarIntFrom([b] + rest, 0, 0) == Parsed(b, rest)
  {
    assert ([b] + rest)[1..] == rest && Pow128(0) == 1;
  }

  lemma Unfinished()
    ensures VarIntFrom([200], 0, 0) == Failed
  {
    assert [200][1..] == [];
  }
}
