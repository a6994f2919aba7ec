/** Base64 (section 4 of RFC 4648): the encoder of infra/stream/OutputStream.cpp, which takes its
    bytes in pieces, and the decoder of infra/stream/InputStream.cpp. */
module Base64 {
  import opened Common
  import opened TextStream

  type Six = b: int | 0 <= b < 64

  // ---------------------------------------------------------------------------------------------
  // The alphabet
  // ---------------------------------------------------------------------------------------------

  /** base64Table: A-Z, a-z, 0-9, plus and slash. */
  function Letter(v: Six): char {
    if v < 26 then ('A' as int + v) as char
    else if v < 52 then ('a' as int + v - 26) as char
    else if v < 62 then ('0' as int + v - 52) as char
    else if v == 62 then '+'
    else '/'
  }

  /** The alphabet of section 4 of RFC 4648. */
  const ALPHABET := CAPITALS + SMALL_LETTERS + DIGITS + "+/"

  lemma LetterIsAlphabet(v: Six)
    ensures |ALPHABET| == 64 && Letter(v) == ALPHABET[v] && Letter(v) != '='
  {
    LettersInOrder(v);
    LettersInOrder(if v >= 26 then v - 26 else 0);
    DigitsInOrder(if v >= 52 then v - 52 else 0);
  }

  /** std::find over the table: the first index of the character, or 64. */
  function Find(c: char, from: nat): (i: nat)
    requires from <= 64
    ensures from <= i <= 64 && (i < 64 ==> Letter(i) == c)
    ensures forall k :: from <= k < i ==> Letter(k) != c
    decreases 64 - from
  {
    if from == 64 || Letter(from) == c then from else Find(c, from + 1)
  }

  function DecodeBase64Byte(c: char): nat { Find(c, 0) }

  lemma LetterOnce(v: Six, w: Six)
    requires Letter(v) == Letter(w)
    ensures v == w
  {
  }

  /** Decoding undoes the table. */
  lemma DecodesLetter(v: Six)
    ensures DecodeBase64Byte(Letter(v)) == v
  {
    var i := DecodeBase64Byte(Letter(v));
    if i < v { LetterOnce(i, v); }
  }

  // ---------------------------------------------------------------------------------------------
  // Specification: groups of three bytes
  // ---------------------------------------------------------------------------------------------

  function Group(a: Byte, b: Byte, c: Byte): seq<Six> {
    [a / 4, a % 4 * 16 + b / 16, b % 16 * 4 + c / 64, c % 64]
  }

  function Letters(values: seq<Six>): (r: string)
    ensures |r| == |values|
  {
    seq(|values|, i requires 0 <= i < |values| => Letter(values[i]))
  }

  /** The text of a byte string, padded to groups of four characters. */
  function Encoded(bytes: seq<Byte>): string {
    if |bytes| == 0 then ""
    else if |bytes| == 1 then Letters(Group(bytes[0], 0, 0)[..2]) + "=="
    else if |bytes| == 2 then Letters(Group(bytes[0], bytes[1], 0)[..3]) + "="
    else Letters(Group(bytes[0], bytes[1], bytes[2])) + Encoded(bytes[3..])
  }

  /** Three bytes are one number of 24 bits; its four digits of six bits are the letters' values. */
  lemma GroupIsNumber(a: Byte, b: Byte, c: Byte)
    ensures var g: seq<int> := Group(a, b, c);
      ((g[0] * 64 + g[1]) * 64 + g[2]) * 64 + g[3] == (a * 256 + b) * 256 + c
  {
    assert a == a / 4 * 4 + a % 4 && b == b / 16 * 16 + b % 16 && c == c / 64 * 64 + c % 64;
  }

  /** What the encoder has written so far. */
  function Written(bytes: seq<Byte>): string {
    if |bytes| == 0 then ""
    else if |bytes| == 1 then [Letter(bytes[0] / 4)]
    else if |bytes| == 2 then [Letter(bytes[0] / 4), Letter(bytes[0] % 4 * 16 + bytes[1] / 16)]
    else Letters(Group(bytes[0], bytes[1], bytes[2])) + Written(bytes[3..])
  }

  /** What the encoder keeps of the last byte: its low bits, in place for the next character. */
  function Kept(bytes: seq<Byte>): (r: Six) {
    if |bytes| == 0 then 0
    else if |bytes| == 1 then bytes[0] % 4 * 16
    else if |bytes| == 2 then bytes[1] % 16 * 4
    else Kept(bytes[3..])
  }

  /** byte >> bitIndex */
  function High(bitIndex: nat, byte: Byte): Six
    requires bitIndex in {2, 4, 6}
  {
    if bitIndex == 2 then byte / 4 else if bitIndex == 4 then byte / 16 else byte / 64
  }

  /** (byte << (8 - bitIndex)) >> 2, where the shift to the left is cut to eight bits */
  function Low(bitIndex: nat, byte: Byte): Six
    requires bitIndex in {2, 4, 6}
  {
    if bitIndex == 2 then byte * 64 % 256 / 4 else if bitIndex == 4 then byte * 16 % 256 / 4 else byte * 4 % 256 / 4
  }

  lemma LowIs(byte: Byte)
    ensures Low(2, byte) == byte % 4 * 16 && Low(4, byte) == byte % 16 * 4 && Low(6, byte) == byte % 64
  {
    CutTwo(byte);
    CutFour(byte);
    CutSix(byte);
  }

  lemma CutTwo(byte: Byte)
    ensures byte * 64 % 256 == byte % 4 * 64
  {
    assert byte * 64 == 256 * (byte / 4) + byte % 4 * 64;
  }

  lemma CutFour(byte: Byte)
    ensures byte * 16 % 256 == byte % 16 * 16
  {
    assert byte * 16 == 256 * (byte / 16) + byte % 16 * 16;
  }

  lemma CutSix(byte: Byte)
    ensures byte * 4 % 256 == byte % 64 * 4
  {
    assert byte * 4 == 256 * (byte / 64) + byte % 64 * 4;
  }

  function BitIndex(bytes: seq<Byte>): (r: nat)
    ensures r in {2, 4, 6}
  {
    2 + 2 * (|bytes| % 3)
  }

  lemma BitIndexStep(bytes: seq<Byte>, b: Byte)
    ensures BitIndex(bytes + [b]) == if BitIndex(bytes) == 6 then 2 else BitIndex(bytes) + 2
    ensures |bytes| >= 3 ==> BitIndex(bytes[3..]) == BitIndex(bytes)
  {
  }

  /** The number of characters written, in 32 bits; only its last two bits matter. */
  function Increment(size: nat): (r: nat)
    requires size < 0x1_0000_0000
    ensures r < 0x1_0000_0000 && r % 4 == if size % 4 == 3 then 0 else size % 4 + 1
  {
    if size == 0xffff_ffff then 0 else size + 1
  }

  /** One byte more: a character from the kept bits and the new ones, and the last byte of a group
      gives another one. */
  ghost predicate ByteWritten(bytes: seq<Byte>, b: Byte) {
    var i := BitIndex(bytes);
    && Kept(bytes) + High(i, b) < 64
    && Written(bytes + [b])
       == Written(bytes) + [Letter(Kept(bytes) + High(i, b))] + (if i == 6 then [Letter(Low(i, b))] else [])
    && Kept(bytes + [b]) == if i == 6 then 0 else Low(i, b)
  }

  lemma WriteFirst(bytes: seq<Byte>, b: Byte)
    requires |bytes| < 3
    ensures ByteWritten(bytes, b)
  {
    LowIs(b);
    hide Letter, Low;
    if |bytes| == 0 {
      assert bytes + [b] == [b];
    } else if |bytes| == 1 {
      assert bytes + [b] == [bytes[0], b];
    } else {
      assert bytes + [b] == [bytes[0], bytes[1], b];
      assert [bytes[0], bytes[1], b][3..] == [];
      assert Written([]) == "" && Kept([]) == 0;
      assert Letters(Group(bytes[0], bytes[1], b))
          == [Letter(bytes[0] / 4), Letter(bytes[0] % 4 * 16 + bytes[1] / 16),
              Letter(bytes[1] % 16 * 4 + b / 64), Letter(b % 64)];
    }
  }

  lemma {:induction false} WriteByte(bytes: seq<Byte>, b: Byte)
    ensures ByteWritten(bytes, b)
    decreases |bytes|, 1
  {
    if |bytes| < 3 {
      WriteFirst(bytes, b);
    } else {
      hide ByteWritten;
      WriteLater(bytes, b);
    }
  }

  lemma WriteUnfold(bytes: seq<Byte>)
    requires |bytes| >= 3
    ensures Written(bytes) == Letters(Group(bytes[0], bytes[1], bytes[2])) + Written(bytes[3..])
    ensures Kept(bytes) == Kept(bytes[3..])
  {
  }

  lemma {:induction false} WriteLater(bytes: seq<Byte>, b: Byte)
    requires |bytes| >= 3
    ensures ByteWritten(bytes, b)
    decreases |bytes|, 0
  {
    hide Letter, High, Low, Group, Letters, BitIndex, Written, Kept;
    WriteByte(bytes[3..], b);
    BitIndexStep(bytes, b);
    WriteUnfold(bytes);
    WriteUnfold(bytes + [b]);
    assert (bytes + [b])[3..] == bytes[3..] + [b];
  }

  /** Padding completes the last group. */
  ghost predicate Completes(bytes: seq<Byte>) {
    var i := BitIndex(bytes);
    Encoded(bytes) == Written(bytes) + (if i == 2 then "" else [Letter(Kept(bytes))] + (if i == 4 then "==" else "="))
  }

  lemma FinishFirst(bytes: seq<Byte>)
    requires |bytes| < 3
    ensures Completes(bytes)
  {
    hide Letter;
  }

  lemma {:induction false} Finish(bytes: seq<Byte>)
    ensures Completes(bytes)
    decreases |bytes|
  {
    if |bytes| < 3 {
      FinishFirst(bytes);
    } else {
      hide Letter, Letters, Group, BitIndex;
      Finish(bytes[3..]);
      BitIndexStep(bytes, 0);
    }
  }

  class Base64Encoder {
    const stream: TextOutputStream
    var bitIndex: nat
    var encodedByte: nat
    var size: nat
    ghost var before: string
    ghost var fed: seq<Byte>

    /** The fields are determined by the bytes so far; only the last two bits of size matter. */
    ghost predicate Valid()
      reads this, stream
    {
      && stream.Valid() && stream.wanted == before + Written(fed)
      && bitIndex == BitIndex(fed)
      && encodedByte == Kept(fed)
      && size < 0x1_0000_0000
      && size % 4 == BitIndex(fed) / 2 - 1
    }

    constructor (stream: TextOutputStream)
      requires stream.Valid()
      ensures this.stream == stream && Valid() && fed == [] && before == stream.wanted
    {
      this.stream, bitIndex, encodedByte, size, before, fed := stream, 2, 0, 0, stream.wanted, [];
    }

    /** Encodes a piece. The kept bits and the new bits have no bit in common, so that adding them
        is the bitwise or. */
    method Encode(data: seq<Byte>)
      requires Valid()
      modifies this, stream
      ensures Valid() && before == old(before) && fed == old(fed) + data
    {
      ghost var start := fed;
      for i := 0 to |data|
        invariant Valid() && before == old(before) && fed == start + data[..i]
      {
        EncodeByte(data[i]);
        assert data[..i + 1] == data[..i] + [data[i]];
      }
      assert data[..|data|] == data;
    }

    method EncodeByte(byte: Byte)
      requires Valid()
      modifies this, stream
      ensures Valid() && before == old(before) && fed == old(fed) + [byte]
    {
      WriteByte(fed, byte);
      BitIndexStep(fed, byte);
      hide Written, Kept, Letter, Head, High, Low, BitIndex, Increment;
      encodedByte := encodedByte + High(bitIndex, byte);
      stream.Insert([Letter(encodedByte)]);
      size := Increment(size);
      encodedByte := Low(bitIndex, byte);
      bitIndex := bitIndex + 2;
      if bitIndex == 8 {
        stream.Insert([Letter(encodedByte)]);
        size := Increment(size);
        encodedByte := 0;
        bitIndex := 2;
      }
      fed := fed + [byte];
    }

    /** The destructor. */
    method Close()
      requires Valid()
      modifies this, stream
      ensures stream.Valid() && stream.wanted == old(before) + Encoded(old(fed))
    {
      Finish(fed);
      hide Written, Encoded, Letter, Head, Kept;
      if size % 4 != 0 {
        stream.Insert([Letter(encodedByte)]);
        size := Increment(size);
      }
      if size % 4 != 0 {
        stream.Insert("=");
        size := Increment(size);
      }
      if size % 4 != 0 {
        stream.Insert("=");
        size := Increment(size);
      }
    }
  }

  /** Encoding any pieces equals encoding their concatenation. */
  method EncodePieces(stream: TextOutputStream, pieces: seq<seq<Byte>>)
    requires stream.Valid()
    modifies stream
    ensures stream.Valid() && stream.wanted == old(stream.wanted) + Encoded(Joined(pieces))
  {
    hide Written, Encoded;
    var encoder := new Base64Encoder(stream);
    for i := 0 to |pieces|
      invariant encoder.Valid() && encoder.before == old(stream.wanted) && encoder.fed == Joined(pieces[..i])
    {
      encoder.Encode(pieces[i]);
      assert pieces[..i + 1][..i] == pieces[..i];
    }
    assert pieces[..|pieces|] == pieces;
    encoder.Close();
  }

  // ---------------------------------------------------------------------------------------------
  // The decoder
  // ---------------------------------------------------------------------------------------------

  /** What decoding yields: Bytes, the text that is left, and whether an error was reported. */
  datatype Decoding = Decoding(bytes: seq<Byte>, rest: string, failed: bool)

  /** decodedWord >> bits, cut to a byte */
  function Top(word: nat, bits: nat): Byte {
    (if bits == 0 then word else if bits == 2 then word / 4 else word / 16) % 256
  }

  /** The numbers of bits that can be left over. */
  predicate LeftOver(bits: int) { bits == 0 || bits == 2 || bits == 4 || bits == 6 }

  /** Shifts six bits into the 16-bit word. */
  function Shifted(word: nat, value: nat): nat { (word * 64 + value) % 0x1_0000 }

  /** Every two bits that are left stand for one padding character. */
  function SkipPadding(s: string, wanted: nat, bits: nat): Decoding {
    if bits < 2 || s == [] then Decoding([], s, wanted != 0)
    else
      var next := SkipPadding(s[1..], wanted, bits - 2);
      Decoding([], next.rest, next.failed || s[0] != '=')
  }

  /** Decodes until enough bytes are there; `word` holds the last characters, of which `bits` bits
      are not yet used. */
  function DecodeFrom(s: string, wanted: nat, word: nat, bits: nat): Decoding
    requires LeftOver(bits)
    decreases |s|
  {
    if wanted == 0 || s == [] then SkipPadding(s, wanted, bits)
    else
      var value := DecodeBase64Byte(s[0]);
      if value >= 64 then Decoding([], s[1..], true)
      else if bits == 0 then DecodeFrom(s[1..], wanted, Shifted(word, value), 6)
      else
        var next := DecodeFrom(s[1..], wanted - 1, Shifted(word, value), bits - 2);
        Decoding([Top(Shifted(word, value), bits - 2)] + next.bytes, next.rest, next.failed)
  }

  class TextInputStream {
    const text: string
    var position: nat
    var failed: bool

    ghost predicate Valid() reads this { position <= |text| }

    ghost function Rest(): string
      reads this
      requires Valid()
    {
      text[position..]
    }

    constructor (text: string)
      ensures Valid() && Rest() == text && !failed && this.text == text && position == 0
    {
      this.text, position, failed := text, 0, false;
    }

    /** Takes the next character of a stream that is not empty. */
    method Extract() returns (c: char)
      requires Valid() && position < |text|
      modifies this
      ensures Valid() && failed == old(failed) && c == old(Rest())[0] && Rest() == old(Rest())[1..]
      ensures position == old(position) + 1
    {
      c := text[position];
      position := position + 1;
    }
  }

  /** operator>> for FromBase64: fills `data`. */
  method FromBase64(stream: TextInputStream, data: array<Byte>)
    requires stream.Valid()
    modifies stream, data
    ensures stream.Valid()
    ensures var d := DecodeFrom(old(stream.Rest()), data.Length, 0, 0);
            && |d.bytes| <= data.Length && data[..|d.bytes|] == d.bytes
            && stream.Rest() == d.rest && stream.failed == (old(stream.failed) || d.failed)
  {
    hide DecodeFrom, SkipPadding;
    ghost var all := DecodeFrom(stream.Rest(), data.Length, 0, 0);
    ghost var before := stream.failed;
    var bitIndex, decodedWord, filled := 0, 0, 0;
    while filled != data.Length && stream.position != |stream.text|
      invariant stream.Valid() && stream.failed == before && 0 <= filled <= data.Length && 0 <= decodedWord
      invariant LeftOver(bitIndex)
      invariant all == Prefixed(data[..filled], DecodeFrom(stream.Rest(), data.Length - filled, decodedWord, bitIndex))
      decreases |stream.text| - stream.position
    {
      var valid;
      valid, filled, decodedWord, bitIndex := DecodeCharacter(stream, data, filled, decodedWord, bitIndex);
      if !valid {
        return;
      }
    }
    DecodeLast(stream.Rest(), data.Length - filled, decodedWord, bitIndex);
    ReadPadding(stream, data.Length - filled, bitIndex);
  }

  /** One turn of the loop. */
  method DecodeCharacter(stream: TextInputStream, data: array<Byte>, filled: nat, word: nat, bits: nat)
    returns (valid: bool, filled': nat, word': nat, bits': nat)
    requires stream.Valid() && filled < data.Length && stream.position < |stream.text| && LeftOver(bits)
    modifies stream, data
    ensures stream.Valid() && filled' <= data.Length && stream.position == old(stream.position) + 1 && LeftOver(bits')
    ensures var d := old(DecodeFrom(stream.Rest(), data.Length - filled, word, bits));
            if valid then
              && stream.failed == old(stream.failed)
              && Prefixed(old(data[..filled]), d)
                 == Prefixed(data[..filled'], DecodeFrom(stream.Rest(), data.Length - filled', word', bits'))
            else
              stream.failed && d == Decoding([], stream.Rest(), true) && data[..] == old(data[..])
  {
    hide Shifted, Top, Find, DecodeFrom, DecodeBase64Byte;
    DecodeStep(stream.Rest(), data.Length - filled, word, bits);
    var currentChar := stream.Extract();
    var decodedValue := DecodeBase64Byte(currentChar);
    filled', word', bits' := filled, word, bits;
    valid := decodedValue < 64;
    if !valid {
      stream.failed := true;
      return;
    }
    word' := Shifted(word, decodedValue);
    bits' := bits + 6;
    if bits' >= 8 {
      data[filled] := Top(word', bits' - 8);
      filled' := filled + 1;
      bits' := bits' - 8;
      assert data[..filled'] == old(data[..filled]) + [data[filled]];
    }
  }

  function Prefixed(bytes: seq<Byte>, d: Decoding): Decoding {
    Decoding(bytes + d.bytes, d.rest, d.failed)
  }

  /** Decoding goes on behind the first character, which is already in the word. */
  function AfterLetter(s: string, wanted: nat, word: nat, bits: nat): Decoding
    requires LeftOver(bits) && wanted > 0 && s != []
  {
    if DecodeBase64Byte(s[0]) >= 64 then Decoding([], s[1..], true)
    else if bits == 0 then DecodeFrom(s[1..], wanted, word, 6)
    else Prefixed([Top(word, bits - 2)], DecodeFrom(s[1..], wanted - 1, word, bits - 2))
  }

  lemma DecodeStep(s: string, wanted: nat, word: nat, bits: nat)
    requires LeftOver(bits) && wanted > 0 && s != []
    ensures DecodeFrom(s, wanted, word, bits) == AfterLetter(s, wanted, Shifted(word, DecodeBase64Byte(s[0])), bits)
  {
  }

  lemma DecodeLast(s: string, wanted: nat, word: nat, bits: nat)
    requires LeftOver(bits) && (wanted == 0 || s == [])
    ensures DecodeFrom(s, wanted, word, bits) == SkipPadding(s, wanted, bits)
  {
  }

  method ReadPadding(stream: TextInputStream, wanted: nat, bits: nat)
    requires stream.Valid() && LeftOver(bits)
    modifies stream
    ensures stream.Valid()
    ensures var d := SkipPadding(old(stream.Rest()), wanted, bits);
            d.bytes == [] && stream.Rest() == d.rest && stream.failed == (old(stream.failed) || d.failed)
  {
    ghost var all := SkipPadding(stream.Rest(), wanted, bits);
    var bitIndex := bits;
    while bitIndex != 0 && stream.position != |stream.text|
      invariant stream.Valid() && LeftOver(bitIndex)
      invariant all.rest == SkipPadding(stream.Rest(), wanted, bitIndex).rest && all.bytes == []
      invariant (old(stream.failed) || all.failed)
           == (stream.failed || SkipPadding(stream.Rest(), wanted, bitIndex).failed)
      decreases |stream.text| - stream.position
    {
      var currentChar := stream.Extract();
      stream.failed := stream.failed || currentChar != '=';
      bitIndex := bitIndex - 2;
    }
    stream.failed := stream.failed || wanted != 0;
  }

  // ---------------------------------------------------------------------------------------------
  // Decoding undoes encoding
  // ---------------------------------------------------------------------------------------------

  /** The last two characters are the low twelve bits of the word. */
  lemma ShiftedBits(word: nat, a: Six, b: Six)
    requires word % 64 == a
    ensures Shifted(word, b) % 4096 == a * 64 + b && Shifted(word, b) % 64 == b
  {
    var p, x := word / 64, word * 64 + b;
    assert x == 4096 * p + 64 * a + b;
    var q := x / 0x1_0000;
    assert Shifted(word, b) == x - 0x1_0000 * q;
    hide Shifted;
    Remainder4096(Shifted(word, b), p - 16 * q, 64 * a + b);
    Remainder64(Shifted(word, b), 64 * (p - 16 * q) + a, b);
  }

  lemma Remainder4096(x: int, k: int, r: nat)
    requires x == 4096 * k + r && r < 4096
    ensures x % 4096 == r
  {
  }

  lemma Remainder64(x: int, k: int, r: nat)
    requires x == 64 * k + r && r < 64
    ensures x % 64 == r
  {
  }

  lemma Remainder256(x: int, k: int, r: nat)
    requires x == 256 * k + r && r < 256
    ensures x % 256 == r
  {
  }

  lemma TopBits(word: nat, a: Six, b: Six)
    requires word % 4096 == a * 64 + b
    ensures Top(word, 4) == a * 4 + b / 16 && Top(word, 2) == a % 16 * 16 + b / 4 && Top(word, 0) == a % 4 * 64 + b
  {
    var q := word / 4096;
    TopFour(word, q, a, b);
    TopTwo(word, q, a, b);
    Remainder256(word, 16 * q + a / 4, a % 4 * 64 + b);
  }

  lemma TopFour(word: nat, q: nat, a: Six, b: Six)
    requires word == 4096 * q + a * 64 + b
    ensures word / 16 % 256 == a * 4 + b / 16
  {
    assert word / 16 == 256 * q + a * 4 + b / 16;
    Remainder256(word / 16, q, a * 4 + b / 16);
  }

  lemma TopTwo(word: nat, q: nat, a: Six, b: Six)
    requires word == 4096 * q + a * 64 + b
    ensures word / 4 % 256 == a % 16 * 16 + b / 4
  {
    assert word / 4 == 1024 * q + a * 16 + b / 4;
    Remainder256(word / 4, 4 * q + a / 16, a % 16 * 16 + b / 4);
  }

  /** One letter of the alphabet, when the previous one was `a`. */
  lemma LetterStep(a: Six, b: Six, rest: string, wanted: nat, word: nat, bits: nat)
    requires wanted > 0 && bits in {2, 4, 6} && word % 64 == a
    ensures Shifted(word, b) % 64 == b
    ensures DecodeFrom([Letter(b)] + rest, wanted, word, bits)
         == Prefixed([if bits == 6 then a * 4 + b / 16 else if bits == 4 then a % 16 * 16 + b / 4 else a % 4 * 64 + b],
                     DecodeFrom(rest, wanted - 1, Shifted(word, b), bits - 2))
  {
    DecodesLetter(b);
    ShiftedBits(word, a, b);
    TopBits(Shifted(word, b), a, b);
    hide Letter, Find, Shifted, Top;
    var s := [Letter(b)] + rest;
    assert s[1..] == rest;
    DecodeStep(s, wanted, word, bits);
    hide DecodeFrom;
  }

  lemma FirstLetter(a: Six, rest: string, wanted: nat, word: nat)
    requires wanted > 0
    ensures Shifted(word, a) % 64 == a
    ensures DecodeFrom([Letter(a)] + rest, wanted, word, 0) == DecodeFrom(rest, wanted, Shifted(word, a), 6)
  {
    DecodesLetter(a);
    ShiftedBits(word, word % 64, a);
    hide Letter, Find, Shifted;
    var s := [Letter(a)] + rest;
    assert s[1..] == rest;
    DecodeStep(s, wanted, word, 0);
    hide DecodeFrom;
  }

  /** Two letters give the first byte of a group. */
  lemma DecodesFirst(a: Byte, low: nat, rest: string, wanted: nat, word: nat) returns (word': nat)
    requires wanted > 0 && low < 16
    ensures word' % 64 == a % 4 * 16 + low
    ensures DecodeFrom([Letter(a / 4)] + ([Letter(a % 4 * 16 + low)] + rest), wanted, word, 0)
         == Prefixed([a], DecodeFrom(rest, wanted - 1, word', 4))
  {
    hide Letter, Shifted, DecodeFrom;
    var v0, v1 := a / 4, a % 4 * 16 + low;
    FirstLetter(v0, [Letter(v1)] + rest, wanted, word);
    var word1 := Shifted(word, v0);
    LetterStep(v0, v1, rest, wanted, word1, 6);
    word' := Shifted(word1, v1);
    assert v0 * 4 + v1 / 16 == a;
  }

  /** A third letter gives the second byte. */
  lemma DecodesSecond(a: Byte, b: Byte, low: nat, rest: string, wanted: nat, word: nat) returns (word': nat)
    requires wanted > 0 && low < 4 && word % 64 == a % 4 * 16 + b / 16
    ensures word' % 64 == b % 16 * 4 + low
    ensures DecodeFrom([Letter(b % 16 * 4 + low)] + rest, wanted, word, 4)
         == Prefixed([b], DecodeFrom(rest, wanted - 1, word', 2))
  {
    hide Letter, Shifted, DecodeFrom;
    var v1, v2 := a % 4 * 16 + b / 16, b % 16 * 4 + low;
    LetterStep(v1, v2, rest, wanted, word, 4);
    word' := Shifted(word, v2);
    assert v1 % 16 * 16 + v2 / 4 == b;
  }

  lemma DecodesThird(b: Byte, c: Byte, rest: string, wanted: nat, word: nat) returns (word': nat)
    requires wanted > 0 && word % 64 == b % 16 * 4 + c / 64
    ensures DecodeFrom([Letter(c % 64)] + rest, wanted, word, 2)
         == Prefixed([c], DecodeFrom(rest, wanted - 1, word', 0))
  {
    hide Letter, Shifted, DecodeFrom;
    var v2, v3 := b % 16 * 4 + c / 64, c % 64;
    LetterStep(v2, v3, rest, wanted, word, 2);
    word' := Shifted(word, v3);
    assert v2 % 4 * 64 + v3 == c;
  }

  lemma DecodesGroup(a: Byte, b: Byte, c: Byte, rest: string, wanted: nat, word: nat) returns (word': nat)
    requires wanted >= 3
    ensures DecodeFrom(Letters(Group(a, b, c)) + rest, wanted, word, 0)
         == Prefixed([a, b, c], DecodeFrom(rest, wanted - 3, word', 0))
  {
    hide Letter, DecodeFrom;
    var v1, v2, v3 := a % 4 * 16 + b / 16, b % 16 * 4 + c / 64, c % 64;
    var s3 := [Letter(v3)] + rest;
    var s2 := [Letter(v2)] + s3;
    assert Letters(Group(a, b, c)) + rest == [Letter(a / 4)] + ([Letter(v1)] + s2);
    hide Letters, Group;
    var word1 := DecodesFirst(a, b / 16, s2, wanted, word);
    var word2 := DecodesSecond(a, b, c / 64, s3, wanted - 1, word1);
    word' := DecodesThird(b, c, rest, wanted - 2, word2);
  }

  lemma DecodesOne(a: Byte, rest: string, word: nat)
    ensures DecodeFrom(Encoded([a]) + rest, 1, word, 0) == Decoding([a], rest, false)
  {
    hide Letter, DecodeFrom;
    var pad := "==" + rest;
    assert Encoded([a]) + rest == [Letter(a / 4)] + ([Letter(a % 4 * 16 + 0)] + pad);
    var word' := DecodesFirst(a, 0, pad, 1, word);
    DecodeLast(pad, 0, word', 4);
    assert pad[1..] == "=" + rest && ("=" + rest)[1..] == rest;
    assert SkipPadding("=" + rest, 0, 2) == Decoding([], rest, false);
  }

  lemma DecodesTwo(a: Byte, b: Byte, rest: string, word: nat)
    ensures DecodeFrom(Encoded([a, b]) + rest, 2, word, 0) == Decoding([a, b], rest, false)
  {
    hide Letter, DecodeFrom;
    var pad := "=" + rest;
    var s2 := [Letter(b % 16 * 4 + 0)] + pad;
    assert Encoded([a, b]) + rest == [Letter(a / 4)] + ([Letter(a % 4 * 16 + b / 16)] + s2);
    var word1 := DecodesFirst(a, b / 16, s2, 2, word);
    var word2 := DecodesSecond(a, b, 0, pad, 1, word1);
    DecodeLast(pad, 0, word2, 2);
    assert pad[1..] == rest;
  }

  lemma EncodedUnfold(bytes: seq<Byte>)
    requires |bytes| >= 3
    ensures Encoded(bytes) == Letters(Group(bytes[0], bytes[1], bytes[2])) + Encoded(bytes[3..])
  {
  }

  lemma DecodesNone(rest: string, word: nat)
    ensures DecodeFrom(Encoded([]) + rest, 0, word, 0) == Decoding([], rest, false)
  {
    assert Encoded([]) + rest == rest;
    DecodeLast(rest, 0, word, 0);
  }

  /** Decoding as many bytes as were encoded gives them back, reports no error, and consumes exactly
      the encoded text. */
  lemma {:induction false} DecodesEncoded(bytes: seq<Byte>, rest: string, word: nat)
    ensures DecodeFrom(Encoded(bytes) + rest, |bytes|, word, 0) == Decoding(bytes, rest, false)
    decreases |bytes|, 1
  {
    hide Letters, Group, DecodeFrom, Encoded, SkipPadding;
    if |bytes| == 0 {
      assert bytes == [];
      DecodesNone(rest, word);
    } else if |bytes| == 1 {
      assert bytes == [bytes[0]];
      DecodesOne(bytes[0], rest, word);
    } else if |bytes| == 2 {
      assert bytes == [bytes[0], bytes[1]];
      DecodesTwo(bytes[0], bytes[1], rest, word);
    } else {
      DecodesMore(bytes, rest, word);
    }
  }

  lemma {:induction false} DecodesMore(bytes: seq<Byte>, rest: string, word: nat)
    requires |bytes| >= 3
    ensures DecodeFrom(Encoded(bytes) + rest, |bytes|, word, 0) == Decoding(bytes, rest, false)
    decreases |bytes|, 0
  {
    hide Letters, Group, DecodeFrom, Encoded, SkipPadding;
    EncodedUnfold(bytes);
    var tail := Encoded(bytes[3..]) + rest;
    assert Encoded(bytes) + rest == Letters(Group(bytes[0], bytes[1], bytes[2])) + tail;
    var word' := DecodesGroup(bytes[0], bytes[1], bytes[2], tail, |bytes|, word);
    DecodesEncoded(bytes[3..], rest, word');
    assert [bytes[0], bytes[1], bytes[2]] + bytes[3..] == bytes;
  }

  // ---------------------------------------------------------------------------------------------
  // Exactly which texts are decoded
  // ---------------------------------------------------------------------------------------------

  /** Padding characters, as many as `count`, or fewer if the text ends there; and then `rest`. */
  predicate Padded(s: string, count: nat, rest: string) {
    && |rest| <= |s| <= |rest| + count && s[|s| - |rest|..] == rest
    && (|s| < |rest| + count ==> rest == [])
    && forall i :: 0 <= i < |s| - |rest| ==> s[i] == '='
  }

  /** A letter with the given upper bits; those below `unit` are any. */
  ghost predicate Upper(c: char, bits: nat, unit: nat)
    requires unit > 0
  {
    exists v: Six :: c == Letter(v) && v / unit == bits
  }

  /** A text of these bytes. In the letter that ends an incomplete group, the bits behind the last byte
      may be any, and at the end of the text padding may be missing. */
  ghost predicate Coded(s: string, bytes: seq<Byte>, rest: string) {
    if |bytes| == 0 then s == rest
    else if |bytes| == 1 then
      |s| >= 2 && s[0] == Letter(bytes[0] / 4) && Upper(s[1], bytes[0] % 4, 16) && Padded(s[2..], 2, rest)
    else if |bytes| == 2 then
      && |s| >= 3 && s[0] == Letter(bytes[0] / 4) && s[1] == Letter(bytes[0] % 4 * 16 + bytes[1] / 16)
      && Upper(s[2], bytes[1] % 16, 4) && Padded(s[3..], 1, rest)
    else
      |s| >= 4 && s[..4] == Letters(Group(bytes[0], bytes[1], bytes[2])) && Coded(s[4..], bytes[3..], rest)
  }

  lemma PaddedStep(s: string, count: nat, rest: string)
    requires s != [] && count > 0
    ensures Padded(s, count, rest) <==> s[0] == '=' && Padded(s[1..], count - 1, rest)
  {
    var n, m := |s| - |rest|, |s[1..]| - |rest|;
    if Padded(s, count, rest) {
      assert n > 0;
      assert s[1..][m..] == s[n..];
    }
    if s[0] == '=' && Padded(s[1..], count - 1, rest) {
      assert s[n..] == s[1..][m..];
      assert forall i :: 0 < i < n ==> s[i] == s[1..][i - 1];
    }
  }

  lemma PaddedEnd(s: string, count: nat, rest: string)
    requires s == [] || count == 0
    ensures Padded(s, count, rest) <==> s == rest
  {
    if Padded(s, count, rest) { assert s[|s| - |rest|..] == s; }
    assert s[0..] == s;
  }

  lemma {:induction false} PaddingIs(s: string, count: nat, rest: string)
    ensures SkipPadding(s, 0, 2 * count) == Decoding([], rest, false) <==> Padded(s, count, rest)
    decreases count
  {
    if count == 0 || s == [] {
      PaddedEnd(s, count, rest);
    } else {
      PaddedStep(s, count, rest);
      PaddingIs(s[1..], count - 1, rest);
      hide Padded;
      NoBytes(s[1..], 0, 2 * (count - 1));
      assert 2 * (count - 1) == 2 * count - 2;
    }
  }

  lemma LetterBack(s: string, wanted: nat, word: nat, bits: nat) returns (v: Six, rest: string)
    requires wanted > 0 && LeftOver(bits) && !DecodeFrom(s, wanted, word, bits).failed
    ensures s == [Letter(v)] + rest
  {
    hide Letter, Find;
    if s == [] {
      assert false;
    }
    hide DecodeFrom;
    DecodeStep(s, wanted, word, bits);
    v, rest := DecodeBase64Byte(s[0]), s[1..];
  }

  lemma FirstBack(s: string, wanted: nat, word: nat) returns (v0: Six, v1: Six, rest: string, word': nat)
    requires wanted > 0 && !DecodeFrom(s, wanted, word, 0).failed
    ensures s == [Letter(v0)] + ([Letter(v1)] + rest) && word' % 64 == v1
    ensures DecodeFrom(s, wanted, word, 0)
         == Prefixed([v0 * 4 + v1 / 16], DecodeFrom(rest, wanted - 1, word', 4))
  {
    hide Letter, Shifted, DecodeFrom;
    var tail;
    v0, tail := LetterBack(s, wanted, word, 0);
    FirstLetter(v0, tail, wanted, word);
    var word1 := Shifted(word, v0);
    v1, rest := LetterBack(tail, wanted, word1, 6);
    LetterStep(v0, v1, rest, wanted, word1, 6);
    word' := Shifted(word1, v1);
  }

  lemma NextBack(s: string, wanted: nat, word: nat, a: Six, bits: nat) returns (v: Six, rest: string, word': nat)
    requires wanted > 0 && bits in {2, 4} && word % 64 == a && !DecodeFrom(s, wanted, word, bits).failed
    ensures s == [Letter(v)] + rest && word' % 64 == v
    ensures DecodeFrom(s, wanted, word, bits)
         == Prefixed([if bits == 4 then a % 16 * 16 + v / 4 else a % 4 * 64 + v],
                     DecodeFrom(rest, wanted - 1, word', bits - 2))
  {
    hide Letter, Shifted, DecodeFrom;
    v, rest := LetterBack(s, wanted, word, bits);
    LetterStep(a, v, rest, wanted, word, bits);
    word' := Shifted(word, v);
  }

  /** Four letters are those of three bytes. */
  lemma GroupOfLetters(v0: Six, v1: Six, v2: Six, v3: Six)
    ensures Group(v0 * 4 + v1 / 16, v1 % 16 * 16 + v2 / 4, v2 % 4 * 64 + v3) == [v0, v1, v2, v3]
  {
  }

  lemma OneBack(s: string, word: nat)
    requires !DecodeFrom(s, 1, word, 0).failed
    ensures var d := DecodeFrom(s, 1, word, 0); |d.bytes| == 1 && Coded(s, d.bytes, d.rest)
  {
    hide Letter, DecodeFrom, Padded, SkipPadding;
    var v0, v1, tail, word' := FirstBack(s, 1, word);
    DecodeLast(tail, 0, word', 4);
    var d := SkipPadding(tail, 0, 4);
    NoBytes(tail, 0, 4);
    PaddingIs(tail, 2, d.rest);
    assert s[2..] == tail;
    GroupOfLetters(v0, v1, 0, 0);
    var a := DecodeFrom(s, 1, word, 0).bytes[0];
    assert a / 4 == v0 && v1 / 16 == a % 4;
    assert Upper(s[1], a % 4, 16);
  }

  lemma NoBytes(s: string, wanted: nat, bits: nat)
    ensures SkipPadding(s, wanted, bits).bytes == []
  {
  }

  lemma TwoBack(s: string, word: nat)
    requires !DecodeFrom(s, 2, word, 0).failed
    ensures var d := DecodeFrom(s, 2, word, 0); |d.bytes| == 2 && Coded(s, d.bytes, d.rest)
  {
    hide Letter, DecodeFrom, Padded, SkipPadding;
    var v0, v1, tail, word1 := FirstBack(s, 2, word);
    var v2, tail2, word2 := NextBack(tail, 1, word1, v1, 4);
    DecodeLast(tail2, 0, word2, 2);
    var d := SkipPadding(tail2, 0, 2);
    NoBytes(tail2, 0, 2);
    PaddingIs(tail2, 1, d.rest);
    assert s[3..] == tail2;
    GroupOfLetters(v0, v1, v2, 0);
    var b := DecodeFrom(s, 2, word, 0).bytes[1];
    assert v2 / 4 == b % 16;
    assert Upper(s[2], b % 16, 4);
  }

  lemma GroupBack(s: string, wanted: nat, word: nat)
      returns (a: Byte, b: Byte, c: Byte, rest: string, word': nat)
    requires wanted >= 3 && !DecodeFrom(s, wanted, word, 0).failed
    ensures s == Letters(Group(a, b, c)) + rest
    ensures DecodeFrom(s, wanted, word, 0) == Prefixed([a, b, c], DecodeFrom(rest, wanted - 3, word', 0))
  {
    hide Letter, DecodeFrom;
    var v0, v1, tail, word1 := FirstBack(s, wanted, word);
    var v2, tail2, word2 := NextBack(tail, wanted - 1, word1, v1, 4);
    var v3;
    v3, rest, word' := NextBack(tail2, wanted - 2, word2, v2, 2);
    GroupOfLetters(v0, v1, v2, v3);
    var bytes := DecodeFrom(s, wanted, word, 0).bytes;
    a, b, c := bytes[0], bytes[1], bytes[2];
    assert Letters([v0, v1, v2, v3]) == [Letter(v0), Letter(v1), Letter(v2), Letter(v3)];
  }

  /** What is decoded without an error is such a text. */
  lemma {:induction false} DecodedIsCoded(s: string, wanted: nat, word: nat)
    requires !DecodeFrom(s, wanted, word, 0).failed
    ensures var d := DecodeFrom(s, wanted, word, 0); |d.bytes| == wanted && Coded(s, d.bytes, d.rest)
    decreases wanted
  {
    hide Letters, Group, DecodeFrom, SkipPadding, Padded;
    if wanted == 0 {
      DecodeLast(s, 0, word, 0);
      NoneIs(s);
    } else if wanted == 1 {
      OneBack(s, word);
    } else if wanted == 2 {
      TwoBack(s, word);
    } else {
      var a, b, c, rest, word' := GroupBack(s, wanted, word);
      DecodedIsCoded(rest, wanted - 3, word');
      var d := DecodeFrom(s, wanted, word, 0);
      FourLetters(a, b, c);
      assert d.bytes[3..] == DecodeFrom(rest, wanted - 3, word', 0).bytes;
      assert s[..4] == Letters(Group(a, b, c)) && s[4..] == rest;
    }
  }

  lemma FourLetters(a: Byte, b: Byte, c: Byte)
    ensures |Letters(Group(a, b, c))| == 4
  {
  }

  lemma NoneIs(s: string)
    ensures SkipPadding(s, 0, 0) == Decoding([], s, false)
  {
  }

  lemma CodedOne(s: string, a: Byte, rest: string, word: nat)
    requires Coded(s, [a], rest)
    ensures DecodeFrom(s, 1, word, 0) == Decoding([a], rest, false)
  {
    hide Letter, DecodeFrom, SkipPadding, Padded;
    var v: Six :| s[1] == Letter(v) && v / 16 == a % 4;
    var low := v % 16;
    assert v == a % 4 * 16 + low;
    assert s == [Letter(a / 4)] + ([Letter(a % 4 * 16 + low)] + s[2..]);
    var word' := DecodesFirst(a, low, s[2..], 1, word);
    DecodeLast(s[2..], 0, word', 4);
    PaddingIs(s[2..], 2, rest);
  }

  lemma CodedTwo(s: string, a: Byte, b: Byte, rest: string, word: nat)
    requires Coded(s, [a, b], rest)
    ensures DecodeFrom(s, 2, word, 0) == Decoding([a, b], rest, false)
  {
    hide Letter, DecodeFrom, SkipPadding, Padded;
    var v: Six :| s[2] == Letter(v) && v / 4 == b % 16;
    var low := v % 4;
    assert v == b % 16 * 4 + low;
    var tail := [Letter(b % 16 * 4 + low)] + s[3..];
    assert s == [Letter(a / 4)] + ([Letter(a % 4 * 16 + b / 16)] + tail);
    var word1 := DecodesFirst(a, b / 16, tail, 2, word);
    var word2 := DecodesSecond(a, b, low, s[3..], 1, word1);
    DecodeLast(s[3..], 0, word2, 2);
    PaddingIs(s[3..], 1, rest);
  }

  lemma {:induction false} CodedDecodes(s: string, bytes: seq<Byte>, rest: string, word: nat)
    requires Coded(s, bytes, rest)
    ensures DecodeFrom(s, |bytes|, word, 0) == Decoding(bytes, rest, false)
    decreases |bytes|
  {
    hide Letters, Group, DecodeFrom, SkipPadding, Padded, Upper, Letter;
    if |bytes| == 0 {
      DecodeLast(s, 0, word, 0);
      NoneIs(s);
    } else if |bytes| == 1 {
      assert bytes == [bytes[0]];
      CodedOne(s, bytes[0], rest, word);
    } else if |bytes| == 2 {
      assert bytes == [bytes[0], bytes[1]];
      CodedTwo(s, bytes[0], bytes[1], rest, word);
    } else {
      assert s == Letters(Group(bytes[0], bytes[1], bytes[2])) + s[4..];
      var word' := DecodesGroup(bytes[0], bytes[1], bytes[2], s[4..], |bytes|, word);
      CodedDecodes(s[4..], bytes[3..], rest, word');
      assert [bytes[0], bytes[1], bytes[2]] + bytes[3..] == bytes;
    }
  }

  /** Decoding succeeds exactly on the texts of as many bytes as are wanted, with those bytes. */
  lemma DecodesExactly(s: string, wanted: nat, bytes: seq<Byte>, rest: string)
    ensures DecodeFrom(s, wanted, 0, 0) == Decoding(bytes, rest, false) <==>
            |bytes| == wanted && Coded(s, bytes, rest)
  {
    hide DecodeFrom, Coded;
    if |bytes| == wanted && Coded(s, bytes, rest) {
      CodedDecodes(s, bytes, rest, 0);
    } else if !DecodeFrom(s, wanted, 0, 0).failed {
      DecodedIsCoded(s, wanted, 0);
    }
  }

  /** Encodes pieces and decodes the text into a range of the right size. */
  method EncodeThenDecode(pieces: seq<seq<Byte>>, max: nat) returns (failed: bool, data: array<Byte>)
    ensures failed == (|Encoded(Joined(pieces))| > max)
    ensures !failed ==> data[..] == Joined(pieces)
  {
    hide Encoded, DecodeFrom;
    var output := new TextOutputStream(max);
    EncodePieces(output, pieces);
    var bytes := Joined(pieces);
    failed := output.failed;
    data := new Byte[|bytes|](i => 0);
    if !failed {
      var input := new TextInputStream(output.text);
      DecodesEncoded(bytes, "", 0);
      assert Encoded(bytes) + "" == Encoded(bytes);
      FromBase64(input, data);
      assert data[..|bytes|] == data[..];
    }
  }

  // ---------------------------------------------------------------------------------------------
  // The decoded size
  // ---------------------------------------------------------------------------------------------

  function Trailing(s: string): (n: nat)
    ensures n <= |s|
  {
    if s == [] || s[|s| - 1] != '=' then 0 else 1 + Trailing(s[..|s| - 1])
  }

  /** Base64DecodedSize, whose size wraps at 64 bits. The loop looks at a character before it tests for
      the end, so in a text of padding only it looks at `before`, whatever lies in front of the text:
      this makes no difference to the result. */
  method Base64DecodedSize(s: string, before: char) returns (size: nat)
    requires |s| < UINT64
    ensures size == if |s| < 4 then 0 else (|s| / 4 * 3 - Trailing(s)) % UINT64
  {
    if |s| < 4 {
      return 0;
    }
    size := |s| / 4 * 3;
    ghost var full := size;
    var i := |s|;
    assert s[..i] == s;
    while (if i == 0 then before else s[i - 1]) == '=' && i != 0
      invariant 0 <= i <= |s| && Trailing(s) == |s| - i + Trailing(s[..i])
      invariant size == (full - (|s| - i)) % UINT64
      decreases i
    {
      assert s[..i][..i - 1] == s[..i - 1];
      WrappedDecrement(full - (|s| - i));
      size := if size == 0 then UINT64 - 1 else size - 1;
      i := i - 1;
    }
  }

  lemma WrappedDecrement(x: int)
    ensures (x - 1) % UINT64 == if x % UINT64 == 0 then UINT64 - 1 else x % UINT64 - 1
  {
  }

  lemma {:induction false} TrailingAppend(s: string, t: string)
    requires Trailing(t) < |t|
    ensures Trailing(s + t) == Trailing(t)
    decreases |t|
  {
    if t[|t| - 1] == '=' {
      assert (s + t)[..|s + t| - 1] == s + t[..|t| - 1];
      TrailingAppend(s, t[..|t| - 1]);
    }
  }

  lemma LetterIsNoPadding(v: Six)
    ensures Letter(v) != '='
  {
  }

  ghost predicate Sized(s: string, n: nat) {
    && |s| / 4 * 3 - Trailing(s) == n && |s| % 4 == 0
    && (n > 0 ==> |s| >= 4 && Trailing(s) < |s|)
  }

  lemma SizedMore(letters: string, s: string, n: nat)
    requires |letters| == 4 && Trailing(letters) == 0 && Sized(s, n) && (n == 0 ==> s == "")
    ensures Sized(letters + s, n + 3)
  {
    if n > 0 {
      TrailingAppend(letters, s);
    } else {
      assert letters + s == letters;
    }
    hide Trailing;
    assert |letters + s| / 4 == 1 + |s| / 4;
  }

  lemma SizedOne(values: seq<Six>)
    requires |values| == 2
    ensures Sized(Letters(values) + "==", 1)
  {
    hide Trailing, Letters;
    OneTrailing(values);
    assert |Letters(values) + "=="| == 4;
  }

  lemma SizedTwo(values: seq<Six>)
    requires |values| == 3
    ensures Sized(Letters(values) + "=", 2)
  {
    hide Trailing, Letters;
    OneTrailing(values);
    assert |Letters(values) + "="| == 4;
  }

  lemma SizedFirst(bytes: seq<Byte>)
    requires |bytes| < 3
    ensures Sized(Encoded(bytes), |bytes|)
  {
    hide Sized, Letters, Letter;
    if |bytes| == 0 {
      SizedNone();
    } else if |bytes| == 1 {
      SizedOne(Group(bytes[0], 0, 0)[..2]);
    } else {
      SizedTwo(Group(bytes[0], bytes[1], 0)[..3]);
    }
  }

  lemma SizedNone()
    ensures Sized("", 0)
  {
  }

  /** The size computed from the text is the number of bytes that were encoded. */
  lemma {:induction false} SizeOfEncoded(bytes: seq<Byte>)
    ensures Sized(Encoded(bytes), |bytes|)
    decreases |bytes|
  {
    if |bytes| < 3 {
      SizedFirst(bytes);
    } else {
      hide Encoded, Trailing, Letter, Sized;
      EncodedUnfold(bytes);
      SizeOfEncoded(bytes[3..]);
      OneTrailing(Group(bytes[0], bytes[1], bytes[2]));
      NothingEncoded();
      SizedMore(Letters(Group(bytes[0], bytes[1], bytes[2])), Encoded(bytes[3..]), |bytes| - 3);
    }
  }

  lemma NothingEncoded()
    ensures Encoded([]) == "" && Trailing("") == 0
  {
  }

  lemma OneTrailing(values: seq<Six>)
    requires values != []
    ensures Trailing(Letters(values)) == 0 && Trailing(Letters(values) + "=") == 1
    ensures Trailing(Letters(values) + "==") == 2
  {
    var s := Letters(values);
    LetterIsNoPadding(values[|values| - 1]);
    hide Letter;
    assert (s + "=")[..|s|] == s;
    assert (s + "==")[..|s| + 1] == s + "=";
  }
}
