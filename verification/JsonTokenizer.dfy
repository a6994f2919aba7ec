/** The pull tokenizer of infra/syntax/Json.cpp and the decoding of its strings. Bracket tokens carry
    no index here: it is always the read index just behind the bracket, minus one. */
module JsonTokenizer {
  import opened Common
  import opened JsonSyntax
  import opened TextStream

  const NANO_WIDTH := 9

  datatype Token =
    | End | Error | Colon | Comma | Dot | NullToken
    | LeftBrace | RightBrace | LeftBracket | RightBracket
    | StringToken(raw: string)
    | BooleanToken(flag: bool)
    | IntToken(value: nat, negative: bool)
    | FloatToken(value: nat, nano: nat, negative: bool)

  datatype Scanned = Scanned(token: Token, rest: string)

  // ---------------------------------------------------------------------------------------------
  // Specification: the first token of a text and what follows it
  // ---------------------------------------------------------------------------------------------

  /** The length of the longest prefix whose characters are all in the class `p`. */
  function Span(p: char -> bool, s: string): (n: nat)
    ensures n <= |s|
  {
    if s != [] && p(s[0]) then 1 + Span(p, s[1..]) else 0
  }

  /** The index of the quote that closes a string, or the length if there is none. */
  function Closing(s: string, escaped: bool): (n: nat)
    ensures n <= |s|
  {
    if s == [] || (!escaped && s[0] == '\"') then 0
    else 1 + Closing(s[1..], !escaped && s[0] == '\\')
  }

  /** The digits behind the dot in units of 10^-9; further digits are dropped. */
  function Nano(digits: string): int {
    if |digits| >= NANO_WIDTH then DigitsValue(0, digits[..NANO_WIDTH])
    else DigitsValue(0, digits) * Power(10, NANO_WIDTH - |digits|)
  }

  function Punctuation(c: char): Option<Token> {
    if c == ':' then Some(Colon)
    else if c == ',' then Some(Comma)
    else if c == '.' then Some(Dot)
    else if c == '{' then Some(LeftBrace)
    else if c == '}' then Some(RightBrace)
    else if c == '[' then Some(LeftBracket)
    else if c == ']' then Some(RightBracket)
    else None
  }

  function Identifier(word: string): Token {
    if word == "true" then BooleanToken(true)
    else if word == "false" then BooleanToken(false)
    else if word == "null" then NullToken
    else Error
  }

  function Unsigned(i: int): nat { if i < 0 then 0 else i }

  function ScanString(s: string): Scanned {
    var n := Closing(s, false);
    if n == |s| then Scanned(Error, []) else Scanned(StringToken(s[..n]), s[n + 1..])
  }

  function ScanFraction(value: nat, negative: bool, s: string): Scanned {
    if s != [] && s[0] == '-' then Scanned(Error, s)
    else
      var n := Span(IsDigit, s);
      Scanned(FloatToken(value, Unsigned(Nano(s[..n])), negative), s[n..])
  }

  function ScanNumber(s: string): Scanned {
    var negative := s != [] && s[0] == '-';
    var body := if negative then s[1..] else s;
    var n := Span(IsDigit, body);
    var value := DigitsValue(0, body[..n]) % UINT64;
    var rest := body[n..];
    if rest == [] || rest[0] != '.' then Scanned(IntToken(value, negative), rest)
    else ScanFraction(value, negative, rest[1..])
  }

  function ScanIdentifier(s: string): Scanned {
    var n := Span(IsAlpha, s);
    Scanned(Identifier(s[..n]), s[n..])
  }

  /** The token at the start of a text that does not start with white space. */
  function ScanToken(s: string): Scanned {
    if s == [] then Scanned(End, s)
    else if s[0] == '\"' then ScanString(s[1..])
    else if Punctuation(s[0]).Some? then Scanned(Punctuation(s[0]).value, s[1..])
    else if IsDigit(s[0]) || s[0] == '-' then ScanNumber(s)
    else if IsAlpha(s[0]) then ScanIdentifier(s)
    else Scanned(Error, s)
  }

  function Scan(s: string): (r: Scanned)
    ensures |r.rest| <= |s| && (r.token != End && r.token != Error ==> |r.rest| < |s|)
  {
    ScanToken(s[Span(IsSpace, s)..])
  }

  // ---------------------------------------------------------------------------------------------
  // Lemmas about the parts of a token
  // ---------------------------------------------------------------------------------------------

  lemma {:induction false} SpanAt(p: char -> bool, s: string, n: nat)
    requires n <= |s| && (n == |s| || !p(s[n]))
    requires forall i :: 0 <= i < n ==> p(s[i])
    ensures Span(p, s) == n
    decreases n
  {
    if n > 0 { SpanAt(p, s[1..], n - 1); }
  }

  lemma {:induction false} SpanHolds(p: char -> bool, s: string)
    ensures forall i :: 0 <= i < Span(p, s) ==> p(s[i])
    ensures Span(p, s) == |s| || !p(s[Span(p, s)])
    decreases |s|
  {
    if s != [] && p(s[0]) {
      SpanHolds(p, s[1..]);
      forall i | 0 <= i < Span(p, s) ensures p(s[i]) {
        if i > 0 { assert s[i] == s[1..][i - 1]; }
      }
    }
  }

  /** One digit more at the end. */
  lemma {:induction false} DigitsSnoc(prefix: int, digits: string, c: char)
    ensures DigitsValue(prefix, digits + [c]) == DigitsValue(prefix, digits) * 10 + (c as int - '0' as int)
    decreases |digits|
  {
    if digits == [] {
      assert digits + [c] == [c];
    } else {
      assert (digits + [c])[1..] == digits[1..] + [c];
      DigitsSnoc(prefix * 10 + (digits[0] as int - '0' as int), digits[1..], c);
    }
  }

  lemma {:induction false} DigitsBound(digits: string)
    requires forall i :: 0 <= i < |digits| ==> IsDigit(digits[i])
    ensures 0 <= DigitsValue(0, digits) < Power(10, |digits|)
    decreases |digits|
  {
    if digits != [] {
      var n := |digits| - 1;
      DigitsBound(digits[..n]);
      DigitsSnoc(0, digits[..n], digits[n]);
      assert digits[..n] + [digits[n]] == digits;
    }
  }

  lemma {:induction false} PowerAdd(a: nat, b: nat)
    ensures Power(10, a + b) == Power(10, a) * Power(10, b)
  {
    if a > 0 { PowerAdd(a - 1, b); }
  }

  lemma NanoBound(digits: string)
    requires forall i :: 0 <= i < |digits| ==> IsDigit(digits[i])
    ensures 0 <= Nano(digits) < 1_000_000_000
  {
    PowersOfTen();
    if |digits| >= NANO_WIDTH {
      DigitsBound(digits[..NANO_WIDTH]);
    } else {
      DigitsBound(digits);
      PowerAdd(|digits|, NANO_WIDTH - |digits|);
      var p := Power(10, NANO_WIDTH - |digits|);
      assert DigitsValue(0, digits) * p <= (Power(10, |digits|) - 1) * p;
    }
  }

  // ---------------------------------------------------------------------------------------------
  // The tokenizer
  // ---------------------------------------------------------------------------------------------

  /** infra::BoundedConstString::size_type arithmetic does not overflow: sizes are below 2^64. */
  class Tokenizer {
    const storage: array<char>
    const begin: nat
    const size: nat
    var parseIndex: nat

    ghost predicate Valid() reads this { begin + size <= storage.Length && parseIndex <= size }

    /** What is still to be read. */
    ghost function Rest(): string
      reads this, storage
      requires Valid()
    {
      storage[begin + parseIndex..begin + size]
    }

    constructor (storage: array<char>, begin: nat, size: nat)
      requires begin + size <= storage.Length
      ensures this.storage == storage && this.begin == begin && this.size == size && parseIndex == 0 && Valid()
    {
      this.storage, this.begin, this.size, parseIndex := storage, begin, size, 0;
    }

    ghost predicate DigitsAt(from: nat, to: nat)
      reads storage
    {
      from <= to <= storage.Length && forall i :: from <= i < to ==> IsDigit(storage[i])
    }

    method SkipWhitespace()
      requires Valid()
      modifies this`parseIndex
      ensures Valid() && Rest() == old(Rest())[Span(IsSpace, old(Rest()))..]
    {
      hide Span;
      ghost var s := Rest();
      ghost var from := parseIndex;
      while parseIndex != size && IsSpace(storage[begin + parseIndex])
        invariant Valid() && from <= parseIndex
        invariant forall i :: 0 <= i < parseIndex - from ==> IsSpace(s[i])
        decreases size - parseIndex
      {
        assert s[parseIndex - from] == storage[begin + parseIndex];
        parseIndex := parseIndex + 1;
      }
      SpanAt(IsSpace, s, parseIndex - from);
    }

    method SkipDigits()
      requires Valid()
      modifies this`parseIndex
      ensures Valid() && Rest() == old(Rest())[Span(IsDigit, old(Rest()))..]
      ensures parseIndex == old(parseIndex) + Span(IsDigit, old(Rest()))
      ensures storage[begin + old(parseIndex)..begin + parseIndex] == old(Rest())[..Span(IsDigit, old(Rest()))]
      ensures DigitsAt(begin + old(parseIndex), begin + parseIndex)
    {
      hide Span;
      ghost var s := Rest();
      ghost var from := parseIndex;
      while parseIndex != size && IsDigit(storage[begin + parseIndex])
        invariant Valid() && from <= parseIndex
        invariant forall i :: 0 <= i < parseIndex - from ==> IsDigit(s[i])
        invariant DigitsAt(begin + from, begin + parseIndex)
        decreases size - parseIndex
      {
        assert s[parseIndex - from] == storage[begin + parseIndex];
        parseIndex := parseIndex + 1;
      }
      SpanAt(IsDigit, s, parseIndex - from);
    }

    /** Moves to the quote that closes a string, or to the end of the text. */
    method FindClosing()
      requires Valid()
      modifies this`parseIndex
      ensures Valid() && parseIndex == old(parseIndex) + Closing(old(Rest()), false)
    {
      ghost var s := Rest();
      var tokenStart := parseIndex;
      var escape := false;
      while parseIndex != size && (escape || storage[begin + parseIndex] != '\"')
        invariant Valid() && tokenStart <= parseIndex
        invariant Closing(s, false) == parseIndex - tokenStart + Closing(Rest(), escape)
        decreases size - parseIndex
      {
        assert Rest()[0] == storage[begin + parseIndex];
        ghost var before := Rest();
        escape := !escape && storage[begin + parseIndex] == '\\';
        parseIndex := parseIndex + 1;
        assert Rest() == before[1..];
      }
      assert Rest() != [] ==> Rest()[0] == storage[begin + parseIndex];
    }

    method TryCreateStringToken() returns (token: Token)
      requires Valid() && parseIndex < size
      modifies this`parseIndex
      ensures Valid() && Scanned(token, Rest()) == ScanString(old(Rest()[1..]))
      ensures InPlace(token)
    {
      hide Closing;
      ghost var s := Rest()[1..];
      parseIndex := parseIndex + 1;
      var tokenStart := parseIndex;
      assert Rest() == s;
      FindClosing();
      if parseIndex == size {
        return Error;
      }
      token := StringToken(storage[begin + tokenStart..begin + parseIndex]);
      assert token.raw == s[..parseIndex - tokenStart];
      parseIndex := parseIndex + 1;
      assert Rest() == s[parseIndex - tokenStart..];
    }

    /** The value of the digits in `storage[from..to]`, as an unsigned integer of the given modulus. */
    method ToInt(from: nat, to: nat, modulus: nat) returns (value: nat)
      requires DigitsAt(from, to) && modulus > 1
      ensures value == DigitsValue(0, storage[from..to]) % modulus
    {
      value := 0;
      for i := from to to
        invariant value == DigitsValue(0, storage[from..i]) % modulus
      {
        DigitsSnoc(0, storage[from..i], storage[i]);
        assert storage[from..i + 1] == storage[from..i] + [storage[i]];
        var digit := storage[i] as int - '0' as int;
        WrappedDigit(DigitsValue(0, storage[from..i]), digit, modulus);
        value := (value * 10 + digit) % modulus;
      }
    }

    /** A fraction cut to nine digits, or multiplied up to them. */
    method Fractional(from: nat, to: nat) returns (fractional: nat)
      requires DigitsAt(from, to)
      ensures fractional == Nano(storage[from..to])
    {
      hide DigitsValue, Power;
      ghost var digits := storage[from..to];
      var width := if to - from > NANO_WIDTH then NANO_WIDTH else to - from;
      assert storage[from..from + width] == digits[..width];
      NanoBound(digits);
      fractional := ToInt(from, from + width, UINT32);
      if width < NANO_WIDTH {
        assert digits[..width] == digits;
        fractional := Scaled(digits, width, fractional);
      }
    }

    method TryCreateFloatToken(integer: nat, sign: bool) returns (token: Token)
      requires Valid()
      modifies this`parseIndex
      ensures Valid() && Scanned(token, Rest()) == ScanFraction(integer, sign, old(Rest()))
    {
      hide Span, Nano, IsDigit;
      ghost var s := Rest();
      assert s != [] ==> s[0] == storage[begin + parseIndex];
      if parseIndex != size && storage[begin + parseIndex] == '-' {
        return Error;
      }
      var tokenStart := parseIndex;
      SkipDigits();
      var fractional := Fractional(begin + tokenStart, begin + parseIndex);
      token := FloatToken(integer, fractional, sign);
    }

    method TryCreateIntegerOrFloatToken() returns (token: Token)
      requires Valid() && parseIndex < size
      requires (IsDigit(storage[begin + parseIndex]) || storage[begin + parseIndex] == '-')
      modifies this`parseIndex
      ensures Valid() && Scanned(token, Rest()) == ScanNumber(old(Rest()))
    {
      hide Span, DigitsValue, ScanFraction, IsDigit;
      ghost var s := Rest();
      var sign := false;
      assert s[0] == storage[begin + parseIndex];
      if parseIndex != size && storage[begin + parseIndex] == '-' {
        sign := true;
        parseIndex := parseIndex + 1;
      }
      ghost var body := Rest();
      assert body == if sign then s[1..] else s;
      var digitsStart := parseIndex;
      SkipDigits();
      var value := ToInt(begin + digitsStart, begin + parseIndex, UINT64);
      ghost var rest := Rest();
      assert rest != [] ==> rest[0] == storage[begin + parseIndex];
      if parseIndex == size || storage[begin + parseIndex] != '.' {
        return IntToken(value, sign);
      }
      parseIndex := parseIndex + 1;
      assert Rest() == rest[1..];
      token := TryCreateFloatToken(value, sign);
    }

    method SkipLetters()
      requires Valid()
      modifies this`parseIndex
      ensures Valid() && Rest() == old(Rest())[Span(IsAlpha, old(Rest()))..]
      ensures parseIndex == old(parseIndex) + Span(IsAlpha, old(Rest()))
    {
      hide Span;
      ghost var s := Rest();
      ghost var from := parseIndex;
      while parseIndex != size && IsAlpha(storage[begin + parseIndex])
        invariant Valid() && from <= parseIndex
        invariant forall i :: 0 <= i < parseIndex - from ==> IsAlpha(s[i])
        decreases size - parseIndex
      {
        assert s[parseIndex - from] == storage[begin + parseIndex];
        parseIndex := parseIndex + 1;
      }
      SpanAt(IsAlpha, s, parseIndex - from);
    }

    method TryCreateIdentifierToken() returns (token: Token)
      requires Valid()
      modifies this`parseIndex
      ensures Valid() && Scanned(token, Rest()) == ScanIdentifier(old(Rest()))
    {
      hide Span, Identifier;
      ghost var s := Rest();
      var tokenStart := parseIndex;
      SkipLetters();
      var identifier := storage[begin + tokenStart..begin + parseIndex];
      assert identifier == s[..parseIndex - tokenStart];
      token := Identifier(identifier);
    }

    /** A bracket lies just before the read index, and the text of a string just before its closing quote. */
    ghost predicate InPlace(token: Token)
      reads this, storage
      requires Valid()
    {
      && (token.StringToken? ==>
            && |token.raw| + 2 <= parseIndex
            && storage[begin + parseIndex - 1 - |token.raw|..begin + parseIndex - 1] == token.raw)
      && (token.LeftBrace? ==> parseIndex > 0 && storage[begin + parseIndex - 1] == '{')
      && (token.LeftBracket? ==> parseIndex > 0 && storage[begin + parseIndex - 1] == '[')
    }

    /** The branches of Token() that follow the white space. */
    method CreateToken() returns (token: Token)
      requires Valid()
      modifies this`parseIndex
      ensures Valid() && Scanned(token, Rest()) == ScanToken(old(Rest()))
      ensures InPlace(token)
    {
      hide ScanString, ScanNumber, ScanIdentifier, Span, Identifier;
      if parseIndex == size {
        return End;
      }
      var c := storage[begin + parseIndex];
      ghost var s := Rest();
      assert c == s[0];
      if c == '\"' {
        token := TryCreateStringToken();
      } else if Punctuation(c).Some? {
        parseIndex := parseIndex + 1;
        assert Rest() == s[1..];
        token := Punctuation(c).value;
      } else if IsDigit(c) || c == '-' {
        token := TryCreateIntegerOrFloatToken();
        NumberIsInPlace(s);
      } else if IsAlpha(c) {
        token := TryCreateIdentifierToken();
        IdentifierIsInPlace(s);
      } else {
        token := Error;
      }
    }

    method NextToken() returns (token: Token)
      requires Valid()
      modifies this`parseIndex
      ensures Valid() && Scanned(token, Rest()) == Scan(old(Rest()))
      ensures InPlace(token)
    {
      hide ScanToken, Span;
      SkipWhitespace();
      token := CreateToken();
    }
  }

  lemma NumberIsInPlace(s: string)
    ensures var t := ScanNumber(s).token; !t.StringToken? && !t.LeftBrace? && !t.LeftBracket?
  {
  }

  lemma IdentifierIsInPlace(s: string)
    ensures var t := ScanIdentifier(s).token; !t.StringToken? && !t.LeftBrace? && !t.LeftBracket?
  {
  }

  lemma WrappedDigit(v: int, digit: int, modulus: nat)
    requires modulus > 1
    ensures ((v % modulus) * 10 + digit) % modulus == (v * 10 + digit) % modulus
  {
    var q := v / modulus;
    assert v == q * modulus + v % modulus;
    assert v * 10 + digit == (v % modulus) * 10 + digit + (q * 10) * modulus;
    ModAdd((v % modulus) * 10 + digit, q * 10, modulus);
  }

  lemma ModAdd(x: int, k: int, m: nat)
    requires m > 0
    ensures (x + k * m) % m == x % m
  {
    var q, r := x / m, x % m;
    var q', r' := (x + k * m) / m, (x + k * m) % m;
    assert (q + k - q') * m == r' - r;
    Multiple(q + k - q', m);
  }

  lemma Multiple(d: int, m: int)
    requires -m < d * m < m
    ensures d == 0
  {
  }

  lemma ScaledStart(digits: string)
    requires |digits| < NANO_WIDTH && forall i :: 0 <= i < |digits| ==> IsDigit(digits[i])
    ensures 0 <= DigitsValue(0, digits) < UINT32 && 0 <= Nano(digits) < 1_000_000_000
  {
    var v, p := DigitsValue(0, digits), Power(10, NANO_WIDTH - |digits|);
    assert Nano(digits) == v * p;
    hide Power, DigitsValue, Nano;
    DigitsBound(digits);
    NanoBound(digits);
    Grows(v, p);
  }

  lemma ScaledStep(value: nat, left: nat, target: nat)
    requires left > 0 && value * Power(10, left) == target < UINT32
    ensures (value * 10 % UINT32) * Power(10, left - 1) == target
  {
    var p := Power(10, left - 1);
    assert value * (10 * p) == (value * 10) * p;
    Grows(value * 10, p);
  }

  /** The loop that multiplies a fraction of fewer than nine digits up to 10^-9 units. */
  method Scaled(ghost digits: string, width: nat, value: nat) returns (fractional: nat)
    requires |digits| == width < NANO_WIDTH && forall i :: 0 <= i < |digits| ==> IsDigit(digits[i])
    requires value == DigitsValue(0, digits) % UINT32
    ensures fractional == Nano(digits)
  {
    ScaledStart(digits);
    ghost var target: nat := Nano(digits);
    assert value * Power(10, NANO_WIDTH - width) == target;
    hide Nano, Power, DigitsValue;
    fractional := value;
    var count := width;
    while count != NANO_WIDTH
      invariant width <= count <= NANO_WIDTH
      invariant fractional * Power(10, NANO_WIDTH - count) == target
      decreases NANO_WIDTH - count
    {
      ScaledStep(fractional, NANO_WIDTH - count, target);
      fractional := fractional * 10 % UINT32;
      count := count + 1;
    }
    PowerStart(10);
  }
}
