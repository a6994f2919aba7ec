/** The tokens of a well-formed text without exponents, and what its strings decode to. */
module JsonTokens {
  import opened Common
  import opened JsonSyntax
  import opened JsonTokenizer

  // ---------------------------------------------------------------------------------------------
  // Strings: JsonStringIterator
  // ---------------------------------------------------------------------------------------------

  /** How many hexadecimal digits a text starts with, up to a limit. */
  function HexCount(s: string, limit: nat): (n: nat)
    ensures n <= |s| && n <= limit
  {
    if limit == 0 || s == [] || HexValue(s[0]).None? then 0 else 1 + HexCount(s[1..], limit - 1)
  }

  /** The digits are accumulated in a char. */
  function HexChar(prefix: nat, digits: string): (r: nat)
    requires prefix < 256
    ensures r < 256
    decreases |digits|
  {
    if digits == [] then prefix else HexChar((prefix * 16 + Hex(digits[0])) % 256, digits[1..])
  }

  /** What the iterator steps over at the start of a text. */
  function Step(s: string): (n: nat)
    requires s != []
    ensures 0 < n <= |s|
  {
    if s[0] != '\\' || |s| == 1 then 1
    else if s[1] == 'u' then 2 + HexCount(s[2..], 4)
    else 2
  }

  /** What the iterator points at. A string token never ends in an escaping backslash. */
  function First(s: string): char
    requires s != []
  {
    if s[0] != '\\' || |s| == 1 then s[0]
    else if s[1] == 'u' then HexChar(0, s[2..2 + HexCount(s[2..], 4)]) as char
    else Unescaped(s[1])
  }

  function Decode(raw: string): string {
    if raw == [] then [] else [First(raw)] + Decode(raw[Step(raw)..])
  }

  class StringIterator {
    const source: string
    var position: nat

    ghost predicate Valid() reads this { position <= |source| }

    constructor (source: string)
      ensures this.source == source && position == 0 && Valid()
    {
      this.source, position := source, 0;
    }

    /** The loop over the digits of a Unicode escape. */
    method HexCode(from: nat) returns (result: nat)
      requires from <= |source|
      ensures result == HexChar(0, source[from..][..HexCount(source[from..], 4)])
    {
      ghost var s := source[from..];
      var next, skipCode := from, 0;
      result := 0;
      while skipCode != 4 && next != |source| && HexValue(source[next]).Some?
        invariant 0 <= skipCode <= 4 && next == from + skipCode <= |source| && result < 256
        invariant HexChar(0, s[..HexCount(s, 4)])
               == HexChar(result, source[next..][..HexCount(source[next..], 4 - skipCode)])
        decreases 4 - skipCode
      {
        ghost var t := source[next..];
        assert t[1..] == source[next + 1..];
        assert t[..HexCount(t, 4 - skipCode)][1..] == t[1..][..HexCount(t[1..], 3 - skipCode)];
        result := (result * 16 + HexValue(source[next]).value) % 256;
        next := next + 1;
        skipCode := skipCode + 1;
      }
      assert source[next..] != [] ==> source[next..][0] == source[next];
    }

    /** operator*, for an iterator that is not on a backslash at the very end. */
    method Current() returns (c: char)
      requires Valid() && position < |source|
      requires source[position] == '\\' ==> position + 1 < |source|
      ensures c == First(source[position..])
    {
      hide HexChar, HexCount;
      if source[position] != '\\' {
        return source[position];
      }
      var next := position + 1;
      if source[next] != 'u' {
        return Unescaped(source[next]);
      }
      ghost var s := source[position..];
      assert s[2..] == source[next + 1..];
      assert s[2..2 + HexCount(s[2..], 4)] == s[2..][..HexCount(s[2..], 4)];
      var result := HexCode(next + 1);
      c := result as char;
    }

    /** operator++ */
    method Advance()
      requires Valid() && position < |source|
      modifies this`position
      ensures Valid() && position == old(position) + Step(source[old(position)..])
    {
      if source[position] != '\\' {
        position := position + 1;
        return;
      }
      position := position + 1;
      if position == |source| {
        return;
      }
      if source[position] != 'u' {
        position := position + 1;
        return;
      }
      position := position + 1;
      var from, skipCode := position, 0;
      ghost var s := source[from..];
      assert source[old(position)..][2..] == s;
      while skipCode != 4 && position != |source| && HexValue(source[position]).Some?
        invariant 0 <= skipCode <= 4 && position == from + skipCode <= |source|
        invariant HexCount(s, 4) == skipCode + HexCount(source[position..], 4 - skipCode)
        decreases 4 - skipCode
      {
        assert source[position..][1..] == source[position + 1..];
        position := position + 1;
        skipCode := skipCode + 1;
      }
      assert source[position..] != [] ==> source[position..][0] == source[position];
    }
  }

  /** No backslash is the last character unless another one escapes it. */
  predicate Complete(raw: string) {
    raw != [] ==> (raw[0] == '\\' ==> |raw| > 1) && Complete(raw[Step(raw)..])
  }

  method ToStdString(source: string) returns (result: string)
    requires Complete(source)
    ensures result == Decode(source)
  {
    hide Step, First;
    result := [];
    var i := new StringIterator(source);
    assert source[0..] == source;
    while i.position != |source|
      invariant i.Valid() && i.source == source
      invariant Complete(source[i.position..])
      invariant Decode(source) == result + Decode(source[i.position..])
      decreases |source| - i.position
    {
      ghost var s := source[i.position..];
      var c := i.Current();
      i.Advance();
      assert source[i.position..] == s[Step(s)..];
      result := result + [c];
    }
    assert source[i.position..] == [];
  }

  /** Neither quote nor backslash. */
  predicate Unquoted(run: string) { forall i :: 0 <= i < |run| ==> run[i] != '\"' && run[i] != '\\' }

  lemma HexUnquoted(s: string, limit: nat)
    ensures Unquoted(s[..HexCount(s, limit)])
  {
    if limit > 0 && s != [] && HexValue(s[0]).Some? {
      HexUnquoted(s[1..], limit - 1);
      assert s[..HexCount(s, limit)] == [s[0]] + s[1..][..HexCount(s[1..], limit - 1)];
    }
  }

  lemma UnicodeClosing(s: string, n: nat, h: nat)
    requires 2 <= n < |s| && n == 2 + Closing(s[2..], false) && h == HexCount(s[2..n], 4)
    ensures h <= n - 2 && Closing(s[2 + h..], false) == n - 2 - h
  {
    hide Closing, HexCount;
    var run := s[2..n][..h];
    HexUnquoted(s[2..n], 4);
    PlainClosing(run, s[2 + h..]);
    assert run + s[2 + h..] == s[2..];
  }

  lemma EscapeStep(s: string)
    requires Closing(s, false) < |s| && s[0] == '\\'
    ensures Closing(s, false) > 1 && Closing(s[2..], false) == Closing(s, false) - 2
  {
    assert Closing(s, false) == 1 + Closing(s[1..], true);
    assert s[1..][1..] == s[2..];
  }

  lemma PlainStep(s: string)
    requires Closing(s, false) < |s| && s[0] != '\"' && s[0] != '\\'
    ensures Closing(s[1..], false) == Closing(s, false) - 1
  {
  }

  lemma StepClosing(s: string)
    requires Closing(s, false) < |s| && s[0] != '\"'
    ensures s[0] == '\\' ==> Closing(s, false) > 1
    ensures var raw := s[..Closing(s, false)];
            raw != [] && Closing(s[Step(raw)..], false) == Closing(s, false) - Step(raw)
  {
    hide Closing, HexCount;
    var n := Closing(s, false);
    if s[0] != '\\' {
      PlainStep(s);
    } else {
      EscapeStep(s);
      assert s[..n][1] == s[1];
      if s[1] == 'u' {
        assert s[..n][2..] == s[2..n];
        UnicodeClosing(s, n, HexCount(s[2..n], 4));
      }
    }
  }

  /** A string token never ends inside an escape. */
  lemma {:induction false} ClosingComplete(s: string)
    requires Closing(s, false) < |s|
    ensures Complete(s[..Closing(s, false)])
    decreases |s|
  {
    var raw := s[..Closing(s, false)];
    if s[0] != '\"' {
      StepClosing(s);
      hide Closing, Step;
      ClosingComplete(s[Step(raw)..]);
      assert raw[Step(raw)..] == s[Step(raw)..][..Closing(s, false) - Step(raw)];
    }
  }

  /** The text of every string token can be decoded. */
  lemma TokenComplete(s: string)
    ensures Scan(s).token.StringToken? ==> Complete(Scan(s).token.raw)
  {
    hide Closing, Complete, ScanNumber, ScanIdentifier;
    var t := s[Span(IsSpace, s)..];
    if t != [] {
      NumberIsInPlace(t);
      IdentifierIsInPlace(t);
      if t[0] == '\"' && Closing(t[1..], false) < |t[1..]| {
        ClosingComplete(t[1..]);
      }
    }
  }

  // ---------------------------------------------------------------------------------------------
  // The first token of a well-formed text
  // ---------------------------------------------------------------------------------------------

  lemma ItemAppend(x: Item, rest: string)
    ensures ItemText(x, rest) == ItemText(x, []) + rest
  {
  }

  lemma {:induction false} ItemsAppend(items: seq<Item>, rest: string)
    ensures ItemsText(items, rest) == ItemsText(items, []) + rest
    decreases |items|
  {
    if items != [] {
      hide ItemText;
      ItemsAppend(items[1..], rest);
      var tail := ItemsText(items[1..], []);
      ItemAppend(items[0], tail + rest);
      ItemAppend(items[0], tail);
    }
  }

  /** The length of the text of an item, which is also what the iterator steps over. */
  lemma ItemStep(x: Item, rest: string)
    requires ItemOk(x) || (x.Short? && |x.digits| < 4 && AllHex(x.digits) && (rest != [] ==> HexValue(rest[0]).None?))
    ensures var s := ItemText(x, rest);
            s != [] && (s[0] == '\\' ==> |s| > 1) && s[Step(s)..] == rest && First(s) == Decoded(x)
  {
    var s := ItemText(x, rest);
    match x
    case Plain(c) =>
      assert s[1..] == rest;
    case Escape(c) =>
      assert s[1] == c && s[2..] == rest;
    case Unicode(h0, h1, h2, h3) =>
      HexStep(h0, h1, h2, h3, rest);
      UnicodeStep([h0, h1, h2, h3], rest);
      assert s == ['\\'] + (['u'] + ([h0, h1, h2, h3] + rest));
    case Short(digits) =>
      ShortStep(digits, rest);
      UnicodeStep(digits, rest);
  }

  lemma UnicodeStep(digits: string, rest: string)
    requires HexCount(digits + rest, 4) == |digits|
    ensures var s := ['\\'] + (['u'] + (digits + rest));
            s[Step(s)..] == rest && First(s) == HexChar(0, digits) as char
  {
    hide HexCount, HexChar;
    var s := ['\\'] + (['u'] + (digits + rest));
    assert s[1] == 'u' && s[2..] == digits + rest;
    assert s[2..2 + |digits|] == (digits + rest)[..|digits|] == digits;
    assert s[2 + |digits|..] == (digits + rest)[|digits|..] == rest;
  }

  lemma {:induction false} HexCountShort(digits: string, rest: string, limit: nat)
    requires AllHex(digits) && |digits| <= limit && (rest != [] ==> HexValue(rest[0]).None?)
    ensures HexCount(digits + rest, limit) == |digits|
    decreases |digits|
  {
    if digits == [] {
      assert digits + rest == rest;
    } else {
      assert (digits + rest)[1..] == digits[1..] + rest;
      HexCountShort(digits[1..], rest, limit - 1);
    }
  }

  lemma {:induction false} HexCharIs(prefix: nat, digits: string)
    ensures HexChar(prefix % 256, digits) == HexNumber(prefix, digits) % 256
    decreases |digits|
  {
    if digits != [] {
      HexCharStep(prefix % 256, prefix, digits);
      HexCharIs(prefix * 16 + Hex(digits[0]), digits[1..]);
    }
  }

  lemma ShortStep(digits: string, rest: string)
    requires |digits| < 4 && AllHex(digits) && (rest != [] ==> HexValue(rest[0]).None?)
    ensures HexCount(digits + rest, 4) == |digits|
    ensures HexChar(0, digits) as char == Decoded(Short(digits))
  {
    HexCountShort(digits, rest, 4);
    HexCharIs(0, digits);
  }

  lemma {:induction false} HexCountAll(digits: string, rest: string)
    requires forall i :: 0 <= i < |digits| ==> HexValue(digits[i]).Some?
    ensures HexCount(digits + rest, |digits|) == |digits|
    decreases |digits|
  {
    if digits != [] {
      assert (digits + rest)[1..] == digits[1..] + rest;
      HexCountAll(digits[1..], rest);
    }
  }

  /** The accumulator keeps only the last two digits. */
  lemma HexCharStep(prefix: nat, code: nat, digits: string)
    requires prefix == code % 256 && digits != []
    ensures HexChar(prefix, digits) == HexChar((code * 16 + Hex(digits[0])) % 256, digits[1..])
  {
    var q := code / 256;
    assert code * 16 + Hex(digits[0]) == prefix * 16 + Hex(digits[0]) + (q * 16) * 256;
    ModAdd(prefix * 16 + Hex(digits[0]), q * 16, 256);
  }

  lemma HexStep(h0: char, h1: char, h2: char, h3: char, rest: string)
    requires ItemOk(Unicode(h0, h1, h2, h3))
    ensures HexCount([h0, h1, h2, h3] + rest, 4) == 4
    ensures HexChar(0, [h0, h1, h2, h3]) as char == Decoded(Unicode(h0, h1, h2, h3))
  {
    HexCountAll([h0, h1, h2, h3], rest);
    var a := Hex(h0);
    var b := a * 16 + Hex(h1);
    var c := b * 16 + Hex(h2);
    var d := c * 16 + Hex(h3);
    assert HexChar(d % 256, []) == d % 256;
    hide HexChar, HexCount, Hex;
    var digits := [h0, h1, h2, h3];
    HexCharStep(0, 0, digits);
    assert digits[1..] == [h1, h2, h3];
    HexCharStep(a % 256, a, [h1, h2, h3]);
    assert [h1, h2, h3][1..] == [h2, h3];
    HexCharStep(b % 256, b, [h2, h3]);
    assert [h2, h3][1..] == [h3];
    HexCharStep(c % 256, c, [h3]);
    assert [h3][1..] == [];
  }

  /** The iterator decodes a string item by item. */
  lemma {:induction false} DecodeItems(items: seq<Item>)
    requires ItemsLoose(items)
    ensures Complete(ItemsText(items, [])) && Decode(ItemsText(items, [])) == Contents(items)
    decreases |items|
  {
    if items != [] {
      var tail := ItemsText(items[1..], []);
      if items[0].Short? { ItemsStart(items[1..], []); }
      hide Step, First, ItemText;
      ItemStep(items[0], tail);
      DecodeItems(items[1..]);
      assert Contents(items) == [Decoded(items[0])] + Contents(items[1..]);
    }
  }

  /** Only a plain item makes a text start with a hexadecimal digit. */
  lemma ItemsStart(items: seq<Item>, rest: string)
    requires items == [] && rest != [] ==> HexValue(rest[0]).None?
    requires items != [] && items[0].Plain? ==> HexValue(items[0].c).None?
    ensures var s := ItemsText(items, rest); s != [] ==> HexValue(s[0]).None?
  {
  }

  lemma {:induction false} PlainClosing(run: string, rest: string)
    requires Unquoted(run)
    ensures Closing(run + rest, false) == |run| + Closing(rest, false)
    decreases |run|
  {
    if run == [] {
      assert run + rest == rest;
    } else {
      assert (run + rest)[1..] == run[1..] + rest;
      PlainClosing(run[1..], rest);
    }
  }

  lemma EscapeClosing(c: char, rest: string)
    ensures Closing(['\\'] + ([c] + rest), false) == 2 + Closing(rest, false)
  {
    var s := ['\\'] + ([c] + rest);
    assert s[1..] == [c] + rest && ([c] + rest)[1..] == rest;
    assert Closing([c] + rest, true) == 1 + Closing(rest, false);
  }

  lemma ItemClosing(x: Item, rest: string)
    requires ItemOk(x) || (x.Short? && AllHex(x.digits))
    ensures Closing(ItemText(x, rest), false) == |ItemText(x, [])| + Closing(rest, false)
  {
    hide Closing;
    match x
    case Plain(c) =>
      PlainClosing([c], rest);
    case Escape(c) =>
      EscapeClosing(c, rest);
    case Unicode(h0, h1, h2, h3) =>
      var digits := [h0, h1, h2, h3];
      assert [h0] + ([h1] + ([h2] + ([h3] + rest))) == digits + rest;
      EscapeClosing('u', digits + rest);
      PlainClosing(digits, rest);
    case Short(digits) =>
      EscapeClosing('u', digits + rest);
      PlainClosing(digits, rest);
  }

  lemma {:induction false} ItemsClosing(items: seq<Item>, rest: string)
    requires ItemsLoose(items)
    ensures Closing(ItemsText(items, ['\"'] + rest), false) == |ItemsText(items, [])|
    decreases |items|
  {
    if items != [] {
      ItemClosing(items[0], ItemsText(items[1..], ['\"'] + rest));
      ItemsClosing(items[1..], rest);
      ItemAppend(items[0], ItemsText(items[1..], []));
    }
  }

  lemma ScanItems(items: seq<Item>, rest: string)
    requires ItemsLoose(items)
    ensures Scan(StringText(items, rest)) == Scanned(StringToken(ItemsText(items, [])), rest)
  {
    hide ItemsText, Closing;
    var raw := ItemsText(items, []);
    ItemsClosing(items, rest);
    ItemsAppend(items, ['\"'] + rest);
    var s := StringText(items, rest);
    assert Span(IsSpace, s) == 0;
    assert s[0] == '\"' && s[1..] == raw + (['\"'] + rest);
    assert s[1..][..|raw|] == raw && s[1..][|raw| + 1..] == rest;
  }

  lemma ScanQuote(t: string)
    ensures Scan(['\"'] + t) == ScanString(t)
  {
    hide ScanString, ScanNumber, ScanIdentifier;
    var s := ['\"'] + t;
    assert Span(IsSpace, s) == 0 && s[1..] == t;
  }

  lemma ScanSpace(space: string, s: string)
    requires Space(space)
    ensures Scan(space + s) == Scan(s)
  {
    hide ScanToken, Span, IsSpace;
    var t := space + s;
    SpanHolds(IsSpace, s);
    var n := Span(IsSpace, s);
    forall i | 0 <= i < |space| + n ensures IsSpace(t[i]) {
      assert t[i] == if i < |space| then space[i] else s[i - |space|];
    }
    SpanAt(IsSpace, t, |space| + n);
    assert t[|space| + n..] == s[n..];
  }

  lemma ScanPunctuation(c: char, rest: string)
    requires Punctuation(c).Some?
    ensures Scan([c] + rest) == Scanned(Punctuation(c).value, rest)
  {
    var s := [c] + rest;
    assert Span(IsSpace, s) == 0;
    assert s[1..] == rest;
  }

  /** A text that cannot continue a number or a literal. */
  predicate Delimited(rest: string) {
    rest != [] ==> !IsDigit(rest[0]) && !IsAlpha(rest[0]) && rest[0] != '.' && rest[0] != '-'
  }

  /** A text that cannot continue the digits of a number, or add a fraction to them. */
  predicate EndsNumber(rest: string) { rest != [] ==> !IsDigit(rest[0]) && rest[0] != '.' }

  /** The token of a number without its exponent: the value wraps at 64 bits. */
  function NumberToken(v: Json): Token
    requires v.Num?
  {
    var value := DigitsValue(0, v.digits) % UINT64;
    if v.fraction.Some? then FloatToken(value, Unsigned(Nano(v.fraction.value)), v.negative)
    else IntToken(value, v.negative)
  }

  lemma DigitSpan(digits: string, rest: string)
    requires forall i :: 0 <= i < |digits| ==> IsDigit(digits[i])
    requires rest != [] ==> !IsDigit(rest[0])
    ensures var s := digits + rest; Span(IsDigit, s) == |digits| && s[..|digits|] == digits && s[|digits|..] == rest
  {
    SpanAt(IsDigit, digits + rest, |digits|);
  }

  lemma ScanNumberText(v: Json, rest: string)
    requires v.Num? && LooseNumber(v) && EndsNumber(ExponentText(v.exponent, rest))
    requires v.fraction == Some([]) && ExponentText(v.exponent, rest) != [] ==> ExponentText(v.exponent, rest)[0] != '-'
    ensures Scan(Text(v, rest)) == Scanned(NumberToken(v), ExponentText(v.exponent, rest))
  {
    hide DigitsValue, Nano, ScanFraction, ExponentText;
    var after := ExponentText(v.exponent, rest);
    var tail := FractionText(v.fraction, after);
    var body := v.digits + tail;
    var s := Text(v, rest);
    assert s == if v.negative then ['-'] + body else body;
    assert v.digits != [] ==> IsDigit(v.digits[0]) && body[0] == v.digits[0];
    assert Span(IsSpace, s) == 0;
    assert v.negative ==> s[1..] == body;
    DigitSpan(v.digits, tail);
    if v.fraction.Some? {
      assert tail[1..] == v.fraction.value + after;
      ScanFractionText(DigitsValue(0, v.digits) % UINT64, v.negative, v.fraction.value, after);
    }
  }

  lemma ScanFractionText(value: nat, negative: bool, fraction: string, rest: string)
    requires AllDigits(fraction) && EndsNumber(rest) && (fraction == [] && rest != [] ==> rest[0] != '-')
    ensures ScanFraction(value, negative, fraction + rest)
         == Scanned(FloatToken(value, Unsigned(Nano(fraction)), negative), rest)
  {
    hide Nano;
    DigitSpan(fraction, rest);
    if fraction != [] { assert IsDigit(fraction[0]) && (fraction + rest)[0] == fraction[0]; }
  }

  lemma ScanLiteral(word: string, rest: string)
    requires word in {"null", "true", "false"} && Delimited(rest)
    ensures Scan(word + rest) == Scanned(Identifier(word), rest)
  {
    var s := word + rest;
    assert Span(IsSpace, s) == 0;
    SpanAt(IsAlpha, s, |word|);
    assert s[..|word|] == word && s[|word|..] == rest;
  }

  /** The tokenizer knows no exponents: behind the digits it finds a word that is no literal. */
  lemma ScanExponent(exponent: ExponentPart, rest: string)
    requires exponent.letter in {'e', 'E'} && Exponent(exponent.text)
    ensures Scan(ExponentText(Some(exponent), rest)).token == Error && EndsNumber(ExponentText(Some(exponent), rest))
  {
    var s := [exponent.letter] + (exponent.text + rest);
    assert s[1] == exponent.text[0] && !IsAlpha(s[1]);
    assert Span(IsSpace, s) == 0;
    SpanAt(IsAlpha, s, 1);
    assert s[..1] == [exponent.letter];
  }

  // ---------------------------------------------------------------------------------------------
  // Texts that are cut, and what is left of a text
  // ---------------------------------------------------------------------------------------------

  /** Where a string is closed does not depend on what follows. */
  lemma {:induction false} ClosingPrefix(raw: string, a: string, b: string, escaped: bool)
    requires Closing(raw + ['\"'] + a, escaped) == |raw|
    ensures Closing(raw + ['\"'] + b, escaped) == |raw|
    decreases |raw|
  {
    var s, t := raw + ['\"'] + a, raw + ['\"'] + b;
    assert s[0] == t[0];
    if raw != [] {
      assert s[1..] == raw[1..] + ['\"'] + a && t[1..] == raw[1..] + ['\"'] + b;
      ClosingPrefix(raw[1..], a, b, !escaped && raw[0] == '\\');
    }
  }

  /** What is left of a text is its end. */
  lemma ScanSuffix(s: string)
    ensures Suffix(Scan(s).rest, s)
  {
    hide ScanToken, Suffix, Span;
    TokenSuffix(s[Span(IsSpace, s)..]);
    SuffixTail(Scan(s).rest, s, Span(IsSpace, s));
  }

  lemma TokenSuffix(t: string)
    ensures Suffix(ScanToken(t).rest, t)
  {
    hide ScanString, ScanNumber, ScanIdentifier, Punctuation;
    if t != [] {
      StringSuffix(t[1..]);
      SuffixTail(ScanString(t[1..]).rest, t, 1);
      NumberSuffix(t);
      IdentifierSuffix(t);
    }
  }

  lemma StringSuffix(s: string)
    ensures Suffix(ScanString(s).rest, s)
  {
    hide Closing;
  }

  lemma IdentifierSuffix(s: string)
    ensures Suffix(ScanIdentifier(s).rest, s)
  {
    hide Span, Identifier;
  }

  lemma FractionSuffix(value: nat, negative: bool, s: string)
    ensures Suffix(ScanFraction(value, negative, s).rest, s)
  {
    hide Span, Nano;
  }

  lemma NumberSuffix(t: string)
    ensures Suffix(ScanNumber(t).rest, t)
  {
    hide Span, DigitsValue, ScanFraction;
    var negative := t != [] && t[0] == '-';
    var body := if negative then t[1..] else t;
    var n := Span(IsDigit, body);
    var rest := body[n..];
    var value := DigitsValue(0, body[..n]) % UINT64;
    var r := ScanNumber(t).rest;
    if rest != [] && rest[0] == '.' {
      FractionSuffix(value, negative, rest[1..]);
      SuffixTail(r, rest, 1);
      SuffixTail(r, body, n);
    }
    if negative { SuffixTail(r, t, 1); }
  }

  lemma {:induction false} ClosingAt(s: string, escaped: bool)
    ensures Closing(s, escaped) < |s| ==> s[Closing(s, escaped)] == '\"'
    decreases |s|
  {
    if s != [] && (escaped || s[0] != '\"') { ClosingAt(s[1..], !escaped && s[0] == '\\'); }
  }
}
