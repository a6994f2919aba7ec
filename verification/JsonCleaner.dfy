/** CleanJsonContents of infra/syntax/Json.cpp: a text is rewritten without white space into the very
    buffer its tokenizer is still reading. */
module JsonCleaner {
  import opened Common
  import opened JsonSyntax
  import opened JsonTokenizer
  import opened JsonTokens
  import opened JsonTree
  import opened TextStream
  import opened JsonFormatter

  // ---------------------------------------------------------------------------------------------
  // Specification
  // ---------------------------------------------------------------------------------------------

  datatype Trimmed = Trimmed(fractional: nat, width: nat)

  /** A fraction without trailing zeros; one digit is always left. */
  function Trim(fractional: nat, width: nat): Trimmed
    decreases width
  {
    if width > 1 && fractional % 10 == 0 then Trim(fractional / 10, width - 1) else Trimmed(fractional, width)
  }

  function FractionDigits(nano: nat): string {
    var trimmed := Trim(nano, NANO_WIDTH);
    Padded(10, trimmed.fractional, trimmed.width)
  }

  /** CopyToken */
  function Copy(token: Token): string {
    match token
    case Colon => ":"
    case Comma => ","
    case Dot => "."
    case NullToken => "null"
    case LeftBrace => "{"
    case RightBrace => "}"
    case LeftBracket => "["
    case RightBracket => "]"
    case StringToken(raw) => Quoted(raw)
    case IntToken(value, negative) => NumberText(value, negative)
    case FloatToken(value, nano, negative) => NumberText(value, negative) + "." + FractionDigits(nano)
    case BooleanToken(flag) => if flag then "true" else "false"
    case End => ""
    case Error => ""
  }

  predicate Last(token: Token) { token == End || token == Error }

  /** The tokens of a text up to its end or the first error. */
  function Tokens(s: string): seq<Token>
    decreases |s|
  {
    var next := Scan(s);
    if Last(next.token) then [] else [next.token] + Tokens(next.rest)
  }

  function Render(tokens: seq<Token>): string {
    if tokens == [] then "" else Copy(tokens[0]) + Render(tokens[1..])
  }

  /** Cleaning into a separate buffer. */
  function Clean(s: string): string { Render(Tokens(s)) }

  // ---------------------------------------------------------------------------------------------
  // Tokens are read back from what is rendered
  // ---------------------------------------------------------------------------------------------

  /** What the tokenizer can produce. */
  predicate Genuine(token: Token) {
    match token
    case StringToken(raw) => Closing(raw + ['\"'], false) == |raw|
    case IntToken(value, _) => value < UINT64
    case FloatToken(value, nano, _) => value < UINT64 && nano < 1_000_000_000
    case _ => true
  }

  /** Tokens that end only where another character begins. */
  predicate Word(token: Token) {
    token.IntToken? || token.FloatToken? || token.BooleanToken? || token.NullToken?
  }

  /** No number or literal is directly followed by another one or by a dot: without the white space
      between them they would be read as one. */
  predicate Separated(tokens: seq<Token>) {
    |tokens| > 1 ==>
      && (Word(tokens[0]) ==> !Word(tokens[1]) && !tokens[1].Dot?)
      && Separated(tokens[1..])
  }

  lemma {:induction false} TrimKeeps(fractional: nat, width: nat)
    requires width >= 1 && fractional < Power(10, width)
    ensures var t := Trim(fractional, width);
            && 1 <= t.width <= width && t.fractional < Power(10, t.width)
            && t.fractional * Power(10, width - t.width) == fractional
    decreases width
  {
    PowerStart(10);
    hide Power;
    if width > 1 && fractional % 10 == 0 {
      PowerStep(10, width - 1);
      TrimKeeps(fractional / 10, width - 1);
      var t := Trim(fractional, width);
      var p := Power(10, width - 1 - t.width);
      PowerStep(10, width - 1 - t.width);
      assert t.fractional * (10 * p) == 10 * (t.fractional * p);
    }
  }

  /** Trailing zeros are dropped as far as there are any. */
  lemma {:induction false} TrimDrops(x: nat, zeros: nat, width: nat)
    requires zeros < width
    ensures Trim(x * Power(10, zeros), width).width <= width - zeros
    decreases zeros
  {
    if zeros > 0 {
      var p := Power(10, zeros - 1);
      TrimDrops(x, zeros - 1, width - 1);
      hide Power, Trim;
      PowerStep(10, zeros - 1);
      assert x * (10 * p) == 10 * (x * p);
      TrimZero(x * p, width);
    } else {
      TrimNarrows(x * Power(10, zeros), width);
    }
  }

  lemma TrimZero(x: nat, width: nat)
    requires width > 1
    ensures Trim(10 * x, width) == Trim(x, width - 1)
  {
    assert (10 * x) % 10 == 0 && (10 * x) / 10 == x;
  }

  lemma TrimNarrows(x: nat, width: nat)
    ensures Trim(x, width).width <= width
    decreases width
  {
    if width > 1 && x % 10 == 0 { TrimNarrows(x / 10, width - 1); }
  }

  /** A trimmed fraction denotes the same number of nano units. */
  lemma FractionRead(nano: nat)
    requires nano < 1_000_000_000
    ensures Digits(FractionDigits(nano)) && Nano(FractionDigits(nano)) == nano
    ensures |FractionDigits(nano)| == Trim(nano, NANO_WIDTH).width
  {
    PowersOfTen();
    TrimKeeps(nano, NANO_WIDTH);
    var t := Trim(nano, NANO_WIDTH);
    hide Power, Width, LowDigits, DigitsValue, Trim;
    WidthAtMost(t.fractional, t.width);
    PaddedRead(t.fractional, t.width);
    assert |FractionDigits(nano)| == t.width;
    if t.width == NANO_WIDTH {
      PowerStart(10);
      assert FractionDigits(nano)[..NANO_WIDTH] == FractionDigits(nano);
    }
  }

  lemma IntScanned(value: nat, negative: bool, rest: string)
    requires value < UINT64 && Delimited(rest)
    ensures Scan(NumberText(value, negative) + rest) == Scanned(IntToken(value, negative), rest)
  {
    hide Scan, Padded, DigitsValue, Text;
    PaddedRead(value, 0);
    var v := Num(negative, Padded(10, value, 0), None, None);
    ScanNumberText(v, rest);
    TextAppend(v, rest);
    NumberLayout(negative, Padded(10, value, 0));
  }

  lemma FloatScanned(value: nat, negative: bool, fraction: string, rest: string)
    requires value < UINT64 && Delimited(rest) && Digits(fraction)
    ensures Scan(NumberText(value, negative) + "." + fraction + rest)
         == Scanned(FloatToken(value, Unsigned(Nano(fraction)), negative), rest)
  {
    hide Scan, Padded, DigitsValue, Nano, Text;
    PaddedRead(value, 0);
    var v := Num(negative, Padded(10, value, 0), Some(fraction), None);
    ScanNumberText(v, rest);
    TextAppend(v, rest);
    FloatLayout(negative, Padded(10, value, 0), fraction);
  }

  /** Whatever is rendered for a token is scanned as that token. */
  lemma CopyScanned(token: Token, rest: string)
    requires Genuine(token) && !Last(token) && (Word(token) ==> Delimited(rest))
    ensures Scan(Copy(token) + rest) == Scanned(token, rest)
  {
    hide Scan, NumberText, FractionDigits;
    match token
    case StringToken(raw) => StringScanned(raw, rest);
    case IntToken(value, negative) =>  IntScanned(value, negative, rest);
    case FloatToken(value, nano, negative) =>
      FractionRead(nano);
      FloatScanned(value, negative, FractionDigits(nano), rest);
    case BooleanToken(flag) => ScanLiteral(if flag then "true" else "false", rest);
    case NullToken => ScanLiteral("null", rest);
    case Colon => ScanPunctuation(':', rest);
    case Comma => ScanPunctuation(',', rest);
    case Dot => ScanPunctuation('.', rest);
    case LeftBrace => ScanPunctuation('{', rest);
    case RightBrace => ScanPunctuation('}', rest);
    case LeftBracket => ScanPunctuation('[', rest);
    case RightBracket => ScanPunctuation(']', rest);
  }

  lemma StringScanned(raw: string, rest: string)
    requires Closing(raw + ['\"'], false) == |raw|
    ensures Scan(Quoted(raw) + rest) == Scanned(StringToken(raw), rest)
  {
    hide Closing, Scan;
    var t := raw + ['\"'] + rest;
    assert Quoted(raw) + rest == ['\"'] + t;
    hide Quoted;
    assert raw + ['\"'] + [] == raw + ['\"'];
    ClosingPrefix(raw, [], rest, false);
    ScanQuote(t);
    SliceQuote(raw, rest);
  }

  lemma SliceQuote(raw: string, rest: string)
    ensures var t := raw + ['\"'] + rest; t[..|raw|] == raw && t[|raw| + 1..] == rest
  {
  }

  /** What a token renders to starts with a character that does not continue a word before it. */
  lemma CopyDelimits(token: Token, rest: string)
    requires !Word(token) && !token.Dot? && !Last(token)
    ensures Delimited(Copy(token) + rest)
  {
  }

  predicate AllGenuine(tokens: seq<Token>) {
    forall i :: 0 <= i < |tokens| ==> Genuine(tokens[i]) && !Last(tokens[i])
  }

  /** Scanning what was rendered gives the tokens back. */
  lemma {:induction false} RenderScanned(tokens: seq<Token>)
    requires AllGenuine(tokens) && Separated(tokens)
    ensures Tokens(Render(tokens)) == tokens
    decreases |tokens|
  {
    if tokens == [] {
      NoTokens();
    } else {
      hide Copy, Scan;
      RenderScanned(tokens[1..]);
      var rest := Render(tokens[1..]);
      if |tokens| > 1 && Word(tokens[0]) {
        CopyDelimits(tokens[1], Render(tokens[2..]));
        assert tokens[1..][1..] == tokens[2..];
      }
      CopyScanned(tokens[0], rest);
    }
  }

  lemma NoTokens()
    ensures Tokens("") == []
  {
    assert Scan("").token == End;
  }

  // ---------------------------------------------------------------------------------------------
  // The tokenizer produces genuine tokens, and complete numbers do not print longer than they read
  // ---------------------------------------------------------------------------------------------

  /** A number with digits before the dot, and behind it if there is one. */
  predicate CompleteNumber(s: string) {
    var body := if s != [] && s[0] == '-' then s[1..] else s;
    var n := Span(IsDigit, body);
    n > 0 && (n < |body| && body[n] == '.' ==> Span(IsDigit, body[n + 1..]) > 0)
  }

  /** All numbers that the tokenizer meets are complete. */
  predicate CompleteNumbers(s: string)
    decreases |s|
  {
    var next := Scan(s);
    Last(next.token) ||
    (&& (next.token.IntToken? || next.token.FloatToken? ==> CompleteNumber(s[Span(IsSpace, s)..]))
     && CompleteNumbers(next.rest))
  }

  lemma StringGenuine(s: string)
    ensures var r := ScanString(s);
            && Genuine(r.token) && (r.token.StringToken? || r.token == Error)
            && (r.token.StringToken? ==> |Copy(r.token)| + |r.rest| == |s| + 1)
  {
    var n := Closing(s, false);
    if n < |s| {
      ClosingAt(s, false);
      assert s == s[..n] + ['\"'] + s[n + 1..];
      ClosingPrefix(s[..n], s[n + 1..], [], false);
      assert s[..n] + ['\"'] + [] == s[..n] + ['\"'];
    }
  }

  /** Leading zeros and wrapping at 64 bits only make a number shorter. */
  lemma NumberShrinks(digits: string)
    requires Digits(digits)
    ensures |Padded(10, DigitsValue(0, digits) % UINT64, 0)| <= |digits|
  {
    DigitsBound(digits);
    hide Power, DigitsValue, LowDigits, Width;
    var v := DigitsValue(0, digits);
    assert v % UINT64 <= v;
    WidthAtMost(v % UINT64, |digits|);
  }

  lemma FractionShrinks(digits: string)
    requires Digits(digits)
    ensures Nano(digits) >= 0 && |FractionDigits(Nano(digits))| <= |digits|
  {
    NanoBound(digits);
    FractionRead(Nano(digits));
    if |digits| >= NANO_WIDTH {
      TrimNarrows(Nano(digits), NANO_WIDTH);
    } else {
      DigitsBound(digits);
      TrimDrops(DigitsValue(0, digits), NANO_WIDTH - |digits|, NANO_WIDTH);
    }
  }

  lemma DigitPrefix(s: string) returns (d: string)
    ensures d == s[..Span(IsDigit, s)] && forall i :: 0 <= i < |d| ==> IsDigit(d[i])
  {
    d := s[..Span(IsDigit, s)];
    SpanHolds(IsDigit, s);
  }

  lemma FractionScan(value: nat, negative: bool, s: string)
    requires value < UINT64
    ensures var r := ScanFraction(value, negative, s);
            && Genuine(r.token) && (r.token.FloatToken? || r.token == Error)
            && (r.token.FloatToken? && Span(IsDigit, s) > 0 ==>
                  && |FractionDigits(r.token.nano)| + |r.rest| <= |s|
                  && r.token.value == value && r.token.negative == negative)
  {
    hide Nano, FractionDigits, Span;
    var digits := DigitPrefix(s);
    NanoBound(digits);
    if Span(IsDigit, s) > 0 { FractionShrinks(digits); }
  }

  lemma NumberScan(s: string)
    requires s != []
    ensures var r := ScanNumber(s);
            && Genuine(r.token) && (r.token.IntToken? || r.token.FloatToken? || r.token == Error)
            && (!Last(r.token) && CompleteNumber(s) ==> |Copy(r.token)| + |r.rest| <= |s|)
  {
    hide DigitsValue, FractionDigits, Padded, Span, ScanFraction;
    var body := if s[0] == '-' then s[1..] else s;
    var n := Span(IsDigit, body);
    var digits := DigitPrefix(body);
    var value := DigitsValue(0, digits) % UINT64;
    if n > 0 { NumberShrinks(digits); }
    var rest := body[n..];
    if rest != [] && rest[0] == '.' {
      assert rest[1..] == body[n + 1..];
      FractionScan(value, s[0] == '-', rest[1..]);
    }
  }

  lemma IdentifierScan(s: string)
    ensures var r := ScanIdentifier(s); Genuine(r.token) && (!Last(r.token) ==> |Copy(r.token)| + |r.rest| <= |s|)
  {
    hide Span;
  }

  /** One token: it is genuine, and it does not print longer than it was. */
  lemma TokenScan(s: string)
    ensures var r := ScanToken(s);
            && Genuine(r.token)
            && (!Last(r.token) && (r.token.IntToken? || r.token.FloatToken? ==> CompleteNumber(s)) ==>
                  |Copy(r.token)| + |r.rest| <= |s|)
  {
    hide ScanString, ScanNumber, ScanIdentifier, Copy, CompleteNumber, Closing;
    if s != [] {
      StringGenuine(s[1..]);
      NumberScan(s);
      IdentifierScan(s);
      PunctuationSize(s[0]);
    }
  }

  lemma PunctuationSize(c: char)
    ensures Punctuation(c).Some? ==> |Copy(Punctuation(c).value)| == 1 && Genuine(Punctuation(c).value)
  {
  }

  lemma {:induction false} TokensGenuine(s: string)
    ensures AllGenuine(Tokens(s))
    decreases |s|
  {
    hide ScanToken, Genuine;
    TokenScan(s[Span(IsSpace, s)..]);
    var next := Scan(s);
    if !Last(next.token) {
      TokensGenuine(next.rest);
    }
  }

  // ---------------------------------------------------------------------------------------------
  // Main results for cleaning into a separate buffer
  // ---------------------------------------------------------------------------------------------

  /** Cleaning keeps the token sequence, so cleaning again changes nothing. */
  lemma CleanKeepsTokens(s: string)
    requires Separated(Tokens(s))
    ensures Tokens(Clean(s)) == Tokens(s)
    ensures Clean(Clean(s)) == Clean(s)
  {
    TokensGenuine(s);
    RenderScanned(Tokens(s));
  }

  // ---------------------------------------------------------------------------------------------
  // Well-formed texts meet both conditions
  // ---------------------------------------------------------------------------------------------

  /** What cleaning needs of a text. */
  predicate Good(s: string) { Separated(Tokens(s)) && CompleteNumbers(s) }

  /** The first token, if any, is neither a word nor a dot. */
  predicate Soft(s: string) {
    var first := Scan(s).token;
    Last(first) || (!Word(first) && !first.Dot?)
  }

  lemma GoodStep(s: string)
    requires !Last(Scan(s).token) && Good(Scan(s).rest)
    requires Word(Scan(s).token) ==> Soft(Scan(s).rest)
    requires Scan(s).token.IntToken? || Scan(s).token.FloatToken? ==> CompleteNumber(s[Span(IsSpace, s)..])
    ensures Good(s)
  {
    hide Scan, CompleteNumber;
    var next := Scan(s);
    assert Tokens(s) == [next.token] + Tokens(next.rest);
    assert Tokens(s)[1..] == Tokens(next.rest);
  }

  lemma GoodSpace(space: string, s: string)
    requires Space(space)
    ensures Good(space + s) == Good(s) && Soft(space + s) == Soft(s)
  {
    ScanSpace(space, s);
    SkippedSpace(space, s);
    hide Scan, CompleteNumber, Separated;
    assert Tokens(space + s) == Tokens(s);
    assert CompleteNumbers(space + s) == CompleteNumbers(s);
  }

  lemma SkippedSpace(space: string, s: string)
    requires Space(space)
    ensures (space + s)[Span(IsSpace, space + s)..] == s[Span(IsSpace, s)..]
  {
    hide Span, IsSpace;
    var t := space + s;
    SpanHolds(IsSpace, s);
    var n := Span(IsSpace, s);
    forall i | 0 <= i < |space| + n ensures IsSpace(t[i]) {
      assert t[i] == if i < |space| then space[i] else s[i - |space|];
    }
    SpanAt(IsSpace, t, |space| + n);
  }

  lemma GoodPunctuation(c: char, rest: string)
    requires Punctuation(c).Some? && c != '.' && Good(rest)
    ensures Good([c] + rest) && Soft([c] + rest)
  {
    hide Scan, CompleteNumber, Good, Punctuation;
    ScanPunctuation(c, rest);
    PunctuationIsSoft(c);
    GoodStep([c] + rest);
  }

  lemma PunctuationIsSoft(c: char)
    requires Punctuation(c).Some? && c != '.'
    ensures var token := Punctuation(c).value; !Word(token) && !token.Dot? && !Last(token)
  {
  }

  lemma GoodString(items: seq<Item>, rest: string)
    requires ItemsOk(items) && Good(rest)
    ensures Good(StringText(items, rest)) && Soft(StringText(items, rest))
  {
    OkItemsAreLoose(items);
    ScanItems(items, rest);
    hide Scan, CompleteNumber, Good, StringText;
    GoodStep(StringText(items, rest));
  }

  lemma NumberComplete(v: Json, rest: string)
    requires v.Num? && Ok(v) && v.exponent.None? && Delimited(rest)
    ensures CompleteNumber(Text(v, rest)) && Span(IsSpace, Text(v, rest)) == 0
  {
    hide DigitsValue;
    var tail := FractionText(v.fraction, rest);
    var body := v.digits + tail;
    var s := Text(v, rest);
    assert s == if v.negative then ['-'] + body else body;
    assert IsDigit(v.digits[0]) && body[0] == v.digits[0];
    assert v.negative ==> s[1..] == body;
    DigitSpan(v.digits, tail);
    if v.fraction.Some? {
      assert body[|v.digits| + 1..] == v.fraction.value + rest;
      DigitSpan(v.fraction.value, rest);
    }
  }

  lemma GoodScalar(v: Json, rest: string)
    requires Ok(v) && JsonTree.Plain(v) && (v.Null? || v.Bool? || v.Num? || v.Str?) && Good(rest) && Soft(rest)
    requires Delimited(rest)
    ensures Good(Text(v, rest))
  {
    hide Scan, CompleteNumber, Good, Soft, StringText, Span, NumberToken;
    match v
    case Null =>
      ScanLiteral("null", rest);
      GoodStep(Text(v, rest));
    case Bool(flag) =>
      ScanLiteral(if flag then "true" else "false", rest);
      GoodStep(Text(v, rest));
    case Num(_, _, _, _) =>
      ScanNumberText(v, rest);
      NumberComplete(v, rest);
      NumberIsWord(v);
      GoodStep(Text(v, rest));
    case Str(items) => GoodString(items, rest);
  }

  lemma NumberIsWord(v: Json)
    requires v.Num?
    ensures NumberToken(v).IntToken? || NumberToken(v).FloatToken?
  {
  }

  lemma {:induction false} GoodValue(v: Json, rest: string)
    requires Ok(v) && JsonTree.Plain(v) && Good(rest) && Soft(rest) && Delimited(rest)
    ensures Good(Text(v, rest))
    decreases v, 1
  {
    hide Good, Soft, MembersText, ElementsText, StringText;
    match v
    case EmptyObj(space) =>
      GoodPunctuation('}', rest);
      GoodSpace(space, ['}'] + rest);
      GoodPunctuation('{', space + (['}'] + rest));
    case EmptyArr(space) =>
      GoodPunctuation(']', rest);
      GoodSpace(space, [']'] + rest);
      GoodPunctuation('[', space + ([']'] + rest));
    case Obj(members) =>
      GoodPunctuation('}', rest);
      GoodMembers(members, ['}'] + rest);
      GoodPunctuation('{', MembersText(members, ['}'] + rest));
    case Arr(elements) =>
      GoodPunctuation(']', rest);
      GoodElements(elements, [']'] + rest);
      GoodPunctuation('[', ElementsText(elements, [']'] + rest));
    case _ => GoodScalar(v, rest);
  }

  lemma SpaceDelimited(space: string, rest: string)
    requires Space(space) && Delimited(rest)
    ensures Delimited(space + rest)
  {
    if space != [] { assert IsSpace(space[0]) && (space + rest)[0] == space[0]; }
    else { assert space + rest == rest; }
  }

  lemma {:induction false} GoodMember(m: Member, rest: string)
    requires MemberOk(m) && JsonTree.Plain(m.value) && Good(rest) && Soft(rest) && Delimited(rest)
    ensures Good(MemberText(m, rest))
    decreases m, 0
  {
    hide Good, Soft, Text, StringText;
    var s3 := m.s3 + rest;
    var s2 := m.s2 + Text(m.value, s3);
    GoodSpace(m.s3, rest);
    SpaceDelimited(m.s3, rest);
    GoodValue(m.value, s3);
    GoodSpace(m.s2, Text(m.value, s3));
    GoodPunctuation(':', s2);
    GoodSpace(m.s1, [':'] + s2);
    GoodString(m.key, m.s1 + ([':'] + s2));
    GoodSpace(m.s0, StringText(m.key, m.s1 + ([':'] + s2)));
  }

  lemma {:induction false} GoodMembers(ms: Members, rest: string)
    requires MembersOk(ms) && MembersPlain(ms) && Good(rest) && Soft(rest) && Delimited(rest)
    ensures Good(MembersText(ms, rest))
    decreases ms, 0
  {
    hide Good, Soft, MemberText;
    match ms
    case LastMember(m) => GoodMember(m, rest);
    case MoreMembers(m, tail) =>
      GoodMembers(tail, rest);
      GoodPunctuation(',', MembersText(tail, rest));
      GoodMember(m, [','] + MembersText(tail, rest));
  }

  lemma {:induction false} GoodElement(e: Element, rest: string)
    requires ElementOk(e) && JsonTree.Plain(e.value) && Good(rest) && Soft(rest) && Delimited(rest)
    ensures Good(ElementText(e, rest))
    decreases e, 0
  {
    hide Good, Soft, Text;
    GoodSpace(e.s1, rest);
    SpaceDelimited(e.s1, rest);
    GoodValue(e.value, e.s1 + rest);
    GoodSpace(e.s0, Text(e.value, e.s1 + rest));
  }

  lemma {:induction false} GoodElements(es: Elements, rest: string)
    requires ElementsOk(es) && ElementsPlain(es) && Good(rest) && Soft(rest) && Delimited(rest)
    ensures Good(ElementsText(es, rest))
    decreases es, 0
  {
    hide Good, Soft, ElementText;
    match es
    case LastElement(e) => GoodElement(e, rest);
    case MoreElements(e, tail) =>
      GoodElements(tail, rest);
      GoodPunctuation(',', ElementsText(tail, rest));
      GoodElement(e, [','] + ElementsText(tail, rest));
  }

  lemma GoodNothing()
    ensures Good("") && Soft("")
  {
    NoTokens();
    assert Scan("").token == End;
  }

  /** Every well-formed text without exponents can be cleaned in place, keeps its tokens, and cleaning
      it again changes nothing. */
  lemma WellFormedCleans(v: Json, before: string, after: string)
    requires Ok(v) && JsonTree.Plain(v) && Space(before) && Space(after)
    ensures var s := before + Text(v, after);
            Fits(s, 0) && CompleteNumbers(s) && Tokens(Clean(s)) == Tokens(s) && Clean(Clean(s)) == Clean(s)
  {
    var s := before + Text(v, after);
    GoodNothing();
    GoodSpace(after, "");
    assert after + "" == after;
    SpaceDelimited(after, "");
    GoodValue(v, after);
    GoodSpace(before, Text(v, after));
    CompleteFits(s, 0);
    CleanKeepsTokens(s);
  }

  // ---------------------------------------------------------------------------------------------
  // Specification of cleaning in place, for every text
  // ---------------------------------------------------------------------------------------------

  /** Copying within the buffer, character by character from the front. */
  function Forward(cells: string, at: nat, from: nat, n: nat): (r: string)
    requires at + n <= |cells| && from + n <= |cells|
    ensures |r| == |cells|
    decreases n
  {
    if n == 0 then cells else Forward(cells[at := cells[from]], at + 1, from + 1, n - 1)
  }

  /** The buffer after a token was copied to `at`. The contents of a string are taken from the buffer,
      just before the quote that the tokenizer has read last. */
  function PutToken(cells: string, at: nat, token: Token, read: nat): (r: string)
    requires at + |Copy(token)| <= |cells| && read <= |cells| && (token.StringToken? ==> |token.raw| + 2 <= read)
    ensures |r| == |cells|
  {
    match token
    case StringToken(raw) => PutString(cells, at, read - 1 - |raw|, |raw|)
    case _ => Overwritten(cells, at, Copy(token))
  }

  function PutString(cells: string, at: nat, view: nat, n: nat): (r: string)
    requires at + n + 2 <= |cells| && view + n <= |cells|
    ensures |r| == |cells|
  {
    Overwritten(Forward(Overwritten(cells, at, "\""), at + 1, view, n), at + 1 + n, "\"")
  }

  /** Running out of room is a failure. */
  datatype Cleaning = Cleaning(failed: bool, cells: string, length: nat)

  /** Where the tokenizer is behind the next token. */
  function ReadIndex(cells: string, size: nat, read: nat): (r: nat)
    requires read <= size <= |cells|
    ensures read <= r <= size && (!Last(Scan(cells[read..size]).token) ==> read < r)
    ensures Scan(cells[read..size]).token.StringToken? ==> |Scan(cells[read..size]).token.raw| + 2 <= r - read
  {
    StringExtent(cells[read..size]);
    size - |Scan(cells[read..size]).rest|
  }

  lemma StringExtent(s: string)
    ensures var next := Scan(s); next.token.StringToken? ==> |next.token.raw| + 2 + |next.rest| <= |s|
  {
    hide Closing, ScanNumber, ScanIdentifier, Span;
    var t := s[Span(IsSpace, s)..];
    if t != [] {
      NumberIsInPlace(t);
      IdentifierIsInPlace(t);
    }
  }

  /** Cleaning from a write and a read index on, in one buffer of which `size` characters are text. */
  function CleanFrom(cells: string, size: nat, write: nat, read: nat): Cleaning
    requires read <= size <= |cells| && write <= |cells|
    decreases size - read
  {
    var token := Scan(cells[read..size]).token;
    var read' := ReadIndex(cells, size, read);
    if Last(token) then Cleaning(false, cells, write)
    else if write + |Copy(token)| > |cells| then Cleaning(true, cells, write)
    else CleanFrom(PutToken(cells, write, token, read'), size, write + |Copy(token)|, read')
  }

  // ---------------------------------------------------------------------------------------------
  // When writing does not overtake reading
  // ---------------------------------------------------------------------------------------------

  /** At every token, what is rendered so far is no longer than what is read so far; `slack` is the
      difference before the text. */
  predicate Fits(s: string, slack: nat)
    decreases |s|
  {
    var next := Scan(s);
    Last(next.token) ||
    (&& |Copy(next.token)| <= slack + (|s| - |next.rest|)
     && Fits(next.rest, slack + (|s| - |next.rest|) - |Copy(next.token)|))
  }

  /** The write index stays at or below the read index throughout. */
  predicate NeverOvertakes(cells: string, size: nat, write: nat, read: nat)
    requires read <= size <= |cells| && write <= |cells|
    decreases size - read
  {
    var token := Scan(cells[read..size]).token;
    var read' := ReadIndex(cells, size, read);
    Last(token) ||
    (&& write + |Copy(token)| <= read'
     && NeverOvertakes(PutToken(cells, write, token, read'), size, write + |Copy(token)|, read'))
  }

  lemma {:induction false} ForwardKeeps(cells: string, at: nat, from: nat, n: nat)
    requires at + n <= |cells| && from + n <= |cells|
    ensures Forward(cells, at, from, n)[..at] == cells[..at] && Forward(cells, at, from, n)[at + n..] == cells[at + n..]
    ensures at <= from ==> Forward(cells, at, from, n)[at..at + n] == cells[from..from + n]
    decreases n
  {
    if n > 0 {
      var next := cells[at := cells[from]];
      ForwardKeeps(next, at + 1, from + 1, n - 1);
      var r := Forward(cells, at, from, n);
      assert r == Forward(next, at + 1, from + 1, n - 1);
      hide Forward;
      assert r[..at] == r[..at + 1][..at] == next[..at] == cells[..at];
      assert next[at + n..] == cells[at + n..];
      assert r[at] == r[..at + 1][at] == cells[from];
      if at <= from {
        assert next[from + 1..from + n] == cells[from + 1..from + n];
        assert r[at..at + n] == [r[at]] + r[at + 1..at + n];
      }
    }
  }

  lemma OverwrittenFits(cells: string, at: nat, text: string, read: nat)
    requires at + |text| <= read <= |cells|
    ensures var r := Overwritten(cells, at, text); r[..at + |text|] == cells[..at] + text && r[read..] == cells[read..]
  {
  }

  lemma StringCopy(raw: string)
    ensures Copy(StringToken(raw)) == Quoted(raw) && |Quoted(raw)| == |raw| + 2
  {
  }

  /** A token that fits is copied, and what is yet to be read stays as it is. */
  lemma PutTokenFits(cells: string, at: nat, token: Token, read: nat)
    requires at + |Copy(token)| <= read <= |cells| && (token.StringToken? ==> |token.raw| + 2 <= read)
    requires token.StringToken? ==> cells[read - 1 - |token.raw|..read - 1] == token.raw
    ensures var r := PutToken(cells, at, token, read);
            r[..at + |Copy(token)|] == cells[..at] + Copy(token) && r[read..] == cells[read..]
  {
    hide Copy, Overwritten, PutString, Quoted;
    if token.StringToken? {
      StringCopy(token.raw);
      PutStringFits(cells, at, read - 1 - |token.raw|, |token.raw|);
    } else {
      OverwrittenFits(cells, at, Copy(token), read);
    }
  }

  lemma PutStringFits(cells: string, at: nat, view: nat, n: nat)
    requires at < view && view + n < |cells|
    ensures var r := PutString(cells, at, view, n);
            r[..at + n + 2] == cells[..at] + Quoted(cells[view..view + n]) && r[view + n + 1..] == cells[view + n + 1..]
  {
    hide Forward;
    var quoted := Overwritten(cells, at, "\"");
    var copied := Forward(quoted, at + 1, view, n);
    ForwardKeeps(quoted, at + 1, view, n);
    assert quoted[view..view + n] == cells[view..view + n];
    assert copied[..at + 1 + n] == copied[..at + 1] + copied[at + 1..at + 1 + n];
    assert quoted[..at + 1] == cells[..at] + "\"";
    assert copied[view + n + 1..] == copied[at + 1 + n..][view - at..];
    assert quoted[view + n + 1..] == cells[view + n + 1..];
    assert quoted[at + 1 + n..][view - at..] == quoted[view + n + 1..];
  }

  /** The contents of a string token lie just before its closing quote. */
  lemma StringInPlace(cells: string, size: nat, read: nat)
    requires read <= size <= |cells|
    ensures var token := Scan(cells[read..size]).token;
            var read' := ReadIndex(cells, size, read);
            token.StringToken? ==> cells[read' - 1 - |token.raw|..read' - 1] == token.raw
  {
    hide Scan;
    var s := cells[read..size];
    StringSlice(s);
    var next := Scan(s);
    if next.token.StringToken? {
      var end := |s| - |next.rest|;
      SliceOfSlice(cells, read, size, end - 1 - |next.token.raw|, end - 1);
    }
  }

  lemma SliceOfSlice(cells: string, a: nat, b: nat, i: nat, j: nat)
    requires a <= b <= |cells| && i <= j <= b - a
    ensures cells[a..b][i..j] == cells[a + i..a + j]
  {
    var x, y := cells[a..b][i..j], cells[a + i..a + j];
    assert |x| == |y| && forall k :: 0 <= k < |x| ==> x[k] == y[k];
  }

  lemma StringSlice(s: string)
    ensures var next := Scan(s);
            next.token.StringToken? ==>
              && |next.token.raw| + 2 + |next.rest| <= |s|
              && s[|s| - |next.rest| - 1 - |next.token.raw|..|s| - |next.rest| - 1] == next.token.raw
  {
    hide Closing, ScanNumber, ScanIdentifier, Span;
    var n := Span(IsSpace, s);
    var t := s[n..];
    if t != [] {
      NumberIsInPlace(t);
      IdentifierIsInPlace(t);
      if t[0] == '\"' {
        var k := Closing(t[1..], false);
        assert k < |t[1..]| ==> t[1..][..k] == s[n + 1..n + 1 + k];
      }
    }
  }

  /** One step of an overtaking-free run: the text that is left to read has not changed. */
  lemma FitsStep(cells: string, size: nat, write: nat, read: nat)
    requires read <= size <= |cells| && write <= |cells| && !Last(Scan(cells[read..size]).token)
    requires write + |Copy(Scan(cells[read..size]).token)| <= ReadIndex(cells, size, read)
    ensures var next := Scan(cells[read..size]);
            var read' := ReadIndex(cells, size, read);
            var cells' := PutToken(cells, write, next.token, read');
            && cells'[read'..size] == next.rest && cells'[size..] == cells[size..]
            && cells'[..write + |Copy(next.token)|] == cells[..write] + Copy(next.token)
  {
    hide Scan, Copy, PutToken;
    var next := Scan(cells[read..size]);
    var read' := ReadIndex(cells, size, read);
    StringInPlace(cells, size, read);
    PutTokenFits(cells, write, next.token, read');
    ScanSuffix(cells[read..size]);
    assert next.rest == cells[read..size][|cells[read..size]| - |next.rest|..];
    var cells' := PutToken(cells, write, next.token, read');
    assert cells'[read'..size] == cells'[read'..][..size - read'] == cells[read'..size];
    assert cells'[size..] == cells'[read'..][size - read'..];
    assert cells[read'..size] == cells[read..size][|cells[read..size]| - |next.rest|..];
  }

  /** The write index stays at or below the read index exactly if the text fits. */
  lemma {:induction false} OvertakesUnlessFits(cells: string, size: nat, write: nat, read: nat)
    requires write <= read <= size <= |cells|
    ensures NeverOvertakes(cells, size, write, read) <==> Fits(cells[read..size], read - write)
    decreases size - read
  {
    hide Scan, Copy, PutToken;
    var next := Scan(cells[read..size]);
    if !Last(next.token) {
      var read' := ReadIndex(cells, size, read);
      if write + |Copy(next.token)| <= read' {
        FitsStep(cells, size, write, read);
        OvertakesUnlessFits(PutToken(cells, write, next.token, read'), size, write + |Copy(next.token)|, read');
      }
    }
  }

  /** If the text fits, cleaning in place gives what cleaning into a separate buffer gives. */
  lemma {:induction false} FittingCleans(cells: string, size: nat, write: nat, read: nat)
    requires write <= read <= size <= |cells| && Fits(cells[read..size], read - write)
    ensures var c := CleanFrom(cells, size, write, read);
            && !c.failed && write <= c.length <= size && |c.cells| == |cells|
            && c.cells[..c.length] == cells[..write] + Clean(cells[read..size])
            && c.cells[size..] == cells[size..]
    decreases size - read
  {
    hide Scan, Copy, PutToken, Clean;
    var next := Scan(cells[read..size]);
    if Last(next.token) {
      CleanLast(cells[read..size]);
    } else {
      var read' := ReadIndex(cells, size, read);
      FitsStep(cells, size, write, read);
      CleanStep(cells[read..size]);
      FittingCleans(PutToken(cells, write, next.token, read'), size, write + |Copy(next.token)|, read');
    }
  }

  lemma CleanStep(s: string)
    requires !Last(Scan(s).token)
    ensures Clean(s) == Copy(Scan(s).token) + Clean(Scan(s).rest)
    ensures CompleteNumbers(s) ==> CompleteNumbers(Scan(s).rest) && |Copy(Scan(s).token)| + |Scan(s).rest| <= |s|
  {
    TokenScan(s[Span(IsSpace, s)..]);
    hide ScanToken, Copy, CompleteNumber;
    var next := Scan(s);
    assert Tokens(s)[0] == next.token && Tokens(s)[1..] == Tokens(next.rest);
  }

  lemma CleanLast(s: string)
    requires Last(Scan(s).token)
    ensures Clean(s) == ""
  {
  }

  /** Texts whose numbers have their digits fit. */
  lemma {:induction false} CompleteFits(s: string, slack: nat)
    requires CompleteNumbers(s)
    ensures Fits(s, slack)
    decreases |s|
  {
    hide Scan, Copy, Clean, CompleteNumbers;
    var next := Scan(s);
    if !Last(next.token) {
      CleanStep(s);
      CompleteFits(next.rest, slack + (|s| - |next.rest|) - |Copy(next.token)|);
    }
  }

  // ---------------------------------------------------------------------------------------------
  // When cleaning in place gives the right result
  // ---------------------------------------------------------------------------------------------

  /** The tokenizer reaches the end of the text without an error. */
  predicate ErrorFree(s: string)
    decreases |s|
  {
    var next := Scan(s);
    next.token != Error && (next.token == End || ErrorFree(next.rest))
  }

  /** As Fits, but a token with nothing at all behind it may outgrow what was read, if there is room for
      it: `behind` is the room behind the text. */
  predicate FitsOrEnds(s: string, slack: nat, behind: nat)
    decreases |s|
  {
    var next := Scan(s);
    Last(next.token) ||
    var gained := slack + (|s| - |next.rest|);
    if |Copy(next.token)| <= gained then FitsOrEnds(next.rest, gained - |Copy(next.token)|, behind)
    else next.rest == [] && |Copy(next.token)| <= gained + behind
  }

  lemma {:induction false} FitsEnds(s: string, slack: nat, behind: nat)
    requires Fits(s, slack)
    ensures FitsOrEnds(s, slack, behind)
    decreases |s|
  {
    hide Scan, Copy;
    var next := Scan(s);
    if !Last(next.token) { FitsEnds(next.rest, slack + (|s| - |next.rest|) - |Copy(next.token)|, behind); }
  }

  lemma PutTokenKeeps(cells: string, at: nat, token: Token, read: nat)
    requires at + |Copy(token)| <= |cells| && read <= |cells| && (token.StringToken? ==> |token.raw| + 2 <= read)
    ensures PutToken(cells, at, token, read)[..at] == cells[..at]
    ensures !token.StringToken? ==> PutToken(cells, at, token, read)[..at + |Copy(token)|] == cells[..at] + Copy(token)
    ensures !token.StringToken? ==>
              PutToken(cells, at, token, read)[at + |Copy(token)|..] == cells[at + |Copy(token)|..]
  {
    hide Copy, Forward;
    if token.StringToken? {
      StringCopy(token.raw);
      var n := |token.raw|;
      var quoted := Overwritten(cells, at, "\"");
      var copied := Forward(quoted, at + 1, read - 1 - n, n);
      ForwardKeeps(quoted, at + 1, read - 1 - n, n);
      assert copied[..at + 1][..at] == quoted[..at + 1][..at];
      assert Overwritten(copied, at + 1 + n, "\"")[..at] == copied[..at] == cells[..at];
    }
  }

  /** What is written is never touched again, whatever is read. */
  lemma {:induction false} WrittenStays(cells: string, size: nat, write: nat, read: nat)
    requires read <= size <= |cells| && write <= |cells|
    ensures var c := CleanFrom(cells, size, write, read);
            |c.cells| == |cells| && write <= c.length <= |cells| && c.cells[..write] == cells[..write]
    decreases size - read
  {
    hide Scan, Copy, PutToken, CleanFrom;
    var next := Scan(cells[read..size]);
    if Last(next.token) {
      CleanFromLast(cells, size, write, read);
    } else {
      CleanFromStep(cells, size, write, read);
      if write + |Copy(next.token)| <= |cells| {
        var read' := ReadIndex(cells, size, read);
        PutTokenKeeps(cells, write, next.token, read');
        var cells' := PutToken(cells, write, next.token, read');
        WrittenStays(cells', size, write + |Copy(next.token)|, read');
        var c := CleanFrom(cells', size, write + |Copy(next.token)|, read');
        assert c.cells[..write] == c.cells[..write + |Copy(next.token)|][..write];
        assert cells'[..write] == cells'[..write + |Copy(next.token)|][..write];
      }
    }
  }

  /** What a number prints behind its first character. */
  predicate NumberTail(c: char) { IsDigit(c) || c == '.' }

  /** A number prints digits and a dot behind its first character, and a digit there unless it is
      negative. */
  lemma NumberPrints(token: Token)
    requires token.IntToken? || token.FloatToken?
    ensures |Copy(token)| > 0 && forall i :: 1 <= i < |Copy(token)| ==> NumberTail(Copy(token)[i])
    ensures !token.negative ==> IsDigit(Copy(token)[0])
  {
    hide LowDigits, Width, Trim;
    var digits := Padded(10, token.value, 0);
    PaddedRead(token.value, 0);
    if token.FloatToken? {
      var trimmed := Trim(token.nano, NANO_WIDTH);
      PaddedRead(trimmed.fractional, trimmed.width);
    }
    hide Padded;
  }

  /** A token that outgrows what was read is a number. */
  lemma OvertakerIsNumber(s: string)
    requires !Last(Scan(s).token) && |Copy(Scan(s).token)| > |s| - |Scan(s).rest|
    ensures Scan(s).token.IntToken? || Scan(s).token.FloatToken?
  {
    hide ScanToken, Copy, CompleteNumber;
    TokenScan(s[Span(IsSpace, s)..]);
  }

  /** A text that starts with a digit or a dot has a number or a dot as its first token, or an error
      before a sign. */
  lemma TailScanned(s: string)
    requires s != [] && NumberTail(s[0])
    ensures var token := Scan(s).token;
            && token != End
            && (token != Error ==> |Copy(token)| > 0 && NumberTail(Copy(token)[0]) && !token.StringToken?)
            && ((forall i :: 0 <= i < |s| ==> s[i] != '-') ==> token != Error)
  {
    hide Copy, DigitsValue, Nano;
    assert Span(IsSpace, s) == 0 && s[0..] == s;
    if s[0] == '.' {
      DotCopy();
    } else {
      var n := Span(IsDigit, s);
      var token := Scan(s).token;
      if token != Error { NumberPrints(token); }
    }
  }

  lemma DotCopy()
    ensures Copy(Dot) == "."
  {
  }

  /** Cleaning from a read index at a digit or a dot on writes a digit or a dot, or ends at once with an
      error. */
  lemma ResumedInTail(cells: string, size: nat, write: nat, read: nat)
    requires read < size <= |cells| && write <= |cells| && NumberTail(cells[read])
    ensures var c := CleanFrom(cells, size, write, read);
            && |c.cells| == |cells| && write <= c.length <= |cells| && c.cells[..write] == cells[..write]
            && (!c.failed && c.length > write ==> NumberTail(c.cells[write]))
            && (!c.failed && c.length == write ==> exists i :: read <= i < size && cells[i] == '-')
  {
    hide Scan, Copy, PutToken, CleanFrom;
    WrittenStays(cells, size, write, read);
    var s := cells[read..size];
    TailScanned(s);
    var token := Scan(s).token;
    if token == Error {
      CleanFromLast(cells, size, write, read);
      var i :| 0 <= i < |s| && s[i] == '-';
      assert cells[read + i] == '-';
    } else {
      CleanFromStep(cells, size, write, read);
      var read' := ReadIndex(cells, size, read);
      if write + |Copy(token)| <= |cells| {
        PutTokenKeeps(cells, write, token, read');
        var cells' := PutToken(cells, write, token, read');
        WrittenStays(cells', size, write + |Copy(token)|, read');
        var c := CleanFrom(cells, size, write, read);
        assert c.cells[write] == c.cells[..write + |Copy(token)|][write] == Copy(token)[0];
      }
    }
  }

  /** The cells after a number has overtaken the read index: reading goes on inside of the number. */
  lemma OvertakenCellsAre(cells: string, size: nat, write: nat, read: nat)
    requires write <= read <= size <= |cells| && !Last(Scan(cells[read..size]).token)
    requires var token := Scan(cells[read..size]).token;
             ReadIndex(cells, size, read) < write + |Copy(token)| <= |cells|
    ensures var next := Scan(cells[read..size]);
            var read' := ReadIndex(cells, size, read);
            var cells' := PutToken(cells, write, next.token, read');
            && Word(next.token) && next.rest == cells[read'..size]
            && cells'[..write + |Copy(next.token)|] == cells[..write] + Copy(next.token)
            && (forall i :: read' <= i < size && i < write + |Copy(next.token)| ==> NumberTail(cells'[i]))
            && (forall i :: write + |Copy(next.token)| <= i < size ==> cells'[i] == cells[i])
  {
    hide Scan, Copy, PutToken;
    var s := cells[read..size];
    var next := Scan(s);
    var read' := ReadIndex(cells, size, read);
    OvertakerIsNumber(s);
    NumberPrints(next.token);
    ScanSuffix(s);
    assert next.rest == s[|s| - |next.rest|..];
    SliceOfSlice(cells, read, size, read' - read, size - read);
    PutTokenKeeps(cells, write, next.token, read');
    var end := write + |Copy(next.token)|;
    var cells' := PutToken(cells, write, next.token, read');
    forall i | read' <= i < end ensures cells'[i] == Copy(next.token)[i - write] {
      assert cells'[i] == cells'[..end][i];
    }
    forall i | end <= i < size ensures cells'[i] == cells[i] {
      assert cells'[i] == cells'[end..][i - end] && cells[i] == cells[end..][i - end];
    }
  }

  /** If something is left to read behind a token that overtakes, the result is wrong. */
  lemma OvertakingSpoils(cells: string, size: nat, write: nat, read: nat)
    requires write <= read <= size <= |cells| && !Last(Scan(cells[read..size]).token)
    requires write + |Copy(Scan(cells[read..size]).token)| > ReadIndex(cells, size, read)
    requires Scan(cells[read..size]).rest != []
    requires Separated(Tokens(cells[read..size])) && ErrorFree(cells[read..size])
    ensures !CleanedTo(CleanFrom(cells, size, write, read), cells[..write] + Clean(cells[read..size]))
  {
    hide Scan, Copy, PutToken, CleanFrom, Clean, CleanedTo;
    var s := cells[read..size];
    var next := Scan(s);
    var read' := ReadIndex(cells, size, read);
    CleanFromStep(cells, size, write, read);
    if write + |Copy(next.token)| > |cells| {
      FailedIsWrong(CleanFrom(cells, size, write, read), cells[..write] + Clean(s));
    } else {
      OvertakenCellsAre(cells, size, write, read);
      CleanStep(s);
      var cells' := PutToken(cells, write, next.token, read');
      var end := write + |Copy(next.token)|;
      ResumedInTail(cells', size, end, read');
      AfterWord(s);
      if Clean(next.rest) == "" {
        NoSignBehind(cells, cells', size, end, read', next.rest);
      }
      WrongResult(CleanFrom(cells', size, end, read'), cells[..write], Copy(next.token), Clean(next.rest));
    }
  }

  /** Nothing but a number and white space: there is no sign. */
  lemma NoSignBehind(cells: string, cells': string, size: nat, end: nat, read: nat, rest: string)
    requires read <= size <= |cells| == |cells'| && rest == cells[read..size] && Space(rest)
    requires forall i :: read <= i < size && i < end ==> NumberTail(cells'[i])
    requires forall i :: end <= i < size ==> cells'[i] == cells[i]
    ensures forall i :: read <= i < size ==> cells'[i] != '-'
  {
    forall i | read <= i < size ensures cells'[i] != '-' {
      assert IsSpace(rest[i - read]) && rest[i - read] == cells[i];
    }
  }

  lemma FailedIsWrong(c: Cleaning, text: string)
    requires c.failed
    ensures !CleanedTo(c, text)
  {
  }

  lemma WrongResult(c: Cleaning, before: string, text: string, after: string)
    requires |before + text| <= c.length <= |c.cells|
    requires if after == "" then c.failed || c.length > |before + text|
             else
               && !NumberTail(after[0])
               && (!c.failed && c.length > |before + text| ==> NumberTail(c.cells[|before + text|]))
    ensures !CleanedTo(c, before + (text + after))
  {
    var wanted := before + (text + after);
    if after != "" && c.length > |before + text| {
      assert wanted[|before + text|] == after[0];
      assert c.cells[..c.length][|before + text|] == c.cells[|before + text|];
    }
  }

  /** What is cleaned behind a word starts with punctuation or a quote, or there is only white space. */
  lemma AfterWord(s: string)
    requires Word(Scan(s).token) && Separated(Tokens(s)) && ErrorFree(s)
    ensures var rest := Scan(s).rest;
            if Clean(rest) == "" then Space(rest) else !NumberTail(Clean(rest)[0])
  {
    hide Scan, Copy, Clean;
    var rest := Scan(s).rest;
    var after := Scan(rest).token;
    assert Tokens(s) == [Scan(s).token] + Tokens(rest);
    if after == End {
      CleanLast(rest);
      EndIsSpace(rest);
    } else {
      assert Tokens(s)[1] == after;
      CleanStep(rest);
      SoftStarts(after);
    }
  }

  lemma EndIsSpace(s: string)
    requires Scan(s).token == End
    ensures Space(s)
  {
    hide ScanToken;
    SpanHolds(IsSpace, s);
    if Span(IsSpace, s) < |s| { NeverEnd(s[Span(IsSpace, s)..]); }
  }

  lemma NeverEnd(t: string)
    requires t != []
    ensures ScanToken(t).token != End
  {
    hide Span, Closing, DigitsValue, Nano;
  }

  lemma SoftStarts(token: Token)
    requires !Word(token) && !token.Dot? && !Last(token)
    ensures |Copy(token)| > 0 && !NumberTail(Copy(token)[0])
  {
  }

  predicate CleanedTo(c: Cleaning, text: string) {
    !c.failed && c.length <= |c.cells| && c.cells[..c.length] == text
  }

  /** Cleaning in place gives what cleaning into a separate buffer gives exactly if the text fits, but for
      a last token with room behind it. */
  lemma {:induction false} CleansExactly(cells: string, size: nat, write: nat, read: nat)
    requires write <= read <= size <= |cells|
    requires Separated(Tokens(cells[read..size])) && ErrorFree(cells[read..size])
    ensures CleanedTo(CleanFrom(cells, size, write, read), cells[..write] + Clean(cells[read..size]))
       <==> FitsOrEnds(cells[read..size], read - write, |cells| - size)
    decreases size - read
  {
    hide Scan, Copy, PutToken, Clean, CleanFrom, CleanedTo;
    var s := cells[read..size];
    var next := Scan(s);
    if Last(next.token) {
      CleanLast(s);
      CleanFromLast(cells, size, write, read);
      CleanedAll(cells, write);
    } else {
      var read' := ReadIndex(cells, size, read);
      var end := write + |Copy(next.token)|;
      CleanStep(s);
      CleanFromStep(cells, size, write, read);
      if end <= read' {
        FitsStep(cells, size, write, read);
        assert Tokens(s)[1..] == Tokens(next.rest);
        CleansExactly(PutToken(cells, write, next.token, read'), size, end, read');
        assert cells[..write] + Clean(s) == cells[..write] + Copy(next.token) + Clean(next.rest);
      } else if next.rest == [] {
        LastMayOvertake(cells, size, write, read);
      } else {
        OvertakingSpoils(cells, size, write, read);
      }
    }
  }

  lemma CleanedAll(cells: string, write: nat)
    requires write <= |cells|
    ensures CleanedTo(Cleaning(false, cells, write), cells[..write] + "")
  {
  }

  lemma LastMayOvertake(cells: string, size: nat, write: nat, read: nat)
    requires write <= read <= size <= |cells| && !Last(Scan(cells[read..size]).token)
    requires write + |Copy(Scan(cells[read..size]).token)| > ReadIndex(cells, size, read)
    requires Scan(cells[read..size]).rest == []
    ensures CleanedTo(CleanFrom(cells, size, write, read), cells[..write] + Clean(cells[read..size]))
       <==> write + |Copy(Scan(cells[read..size]).token)| <= |cells|
  {
    hide Scan, Copy, PutToken, CleanFrom, Clean;
    var s := cells[read..size];
    var next := Scan(s);
    CleanFromStep(cells, size, write, read);
    if write + |Copy(next.token)| <= |cells| {
      OvertakenCellsAre(cells, size, write, read);
      CleanStep(s);
      ScanEmpty();
      var cells' := PutToken(cells, write, next.token, size);
      assert cells'[size..size] == "";
      CleanFromLast(cells', size, write + |Copy(next.token)|, size);
    }
  }

  // ---------------------------------------------------------------------------------------------
  // Cleaning in place
  // ---------------------------------------------------------------------------------------------

  method AppendText(contents: array<char>, length: nat, text: string)
    requires length + |text| <= contents.Length
    modifies contents
    ensures contents[..] == Overwritten(old(contents[..]), length, text)
  {
    ghost var cells := contents[..];
    for i := 0 to |text|
      invariant forall k :: 0 <= k < i ==> contents[length + k] == text[k]
      invariant contents[..length] == cells[..length] && contents[length + i..] == cells[length + i..]
    {
      contents[length + i] := text[i];
      assert contents[length + i + 1..] == cells[length + i..][1..];
    }
    assert contents[length..length + |text|] == text;
    assert contents[..] == contents[..length] + contents[length..length + |text|] + contents[length + |text|..];
  }

  /** Appends a part of the same buffer. */
  method AppendView(contents: array<char>, length: nat, view: nat, count: nat)
    requires length + count <= contents.Length && view + count <= contents.Length
    modifies contents
    ensures contents[..] == Forward(old(contents[..]), length, view, count)
  {
    ghost var cells := contents[..];
    for i := 0 to count
      invariant Forward(contents[..], length + i, view + i, count - i) == Forward(cells, length, view, count)
    {
      ghost var before := contents[..];
      contents[length + i] := contents[view + i];
      assert contents[..] == before[length + i := before[view + i]];
    }
  }

  /** Strips the trailing zeros of a fraction. */
  method TrimZeros(nano: nat) returns (fractional: nat, width: nat)
    ensures Trimmed(fractional, width) == Trim(nano, NANO_WIDTH)
  {
    fractional, width := nano, NANO_WIDTH;
    while width != 1 && fractional % 10 == 0
      invariant 1 <= width && Trim(nano, NANO_WIDTH) == Trim(fractional, width)
      decreases width
    {
      fractional := fractional / 10;
      width := width - 1;
    }
  }

  /** The text of a token that is not a string. */
  method TokenText(token: Token) returns (text: string)
    requires !token.StringToken? && !Last(token)
    ensures text == Copy(token)
  {
    hide Padded, Trim;
    match token
    case Colon => text := ":";
    case Comma => text := ",";
    case Dot => text := ".";
    case NullToken => text := "null";
    case LeftBrace => text := "{";
    case RightBrace => text := "}";
    case LeftBracket => text := "[";
    case RightBracket => text := "]";
    case BooleanToken(flag) => text := if flag then "true" else "false";
    case IntToken(value, negative) =>
      text := if negative then "-" else "";
      text := text + Padded(10, value, 0);
    case FloatToken(value, nano, negative) =>
      text := if negative then "-" else "";
      var fractional, width := TrimZeros(nano);
      text := text + Padded(10, value, 0) + "." + Padded(10, fractional, width);
  }

  method CopyString(contents: array<char>, length: nat, view: nat, count: nat)
    requires length + count + 2 <= contents.Length && view + count <= contents.Length
    modifies contents
    ensures contents[..] == PutString(old(contents[..]), length, view, count)
  {
    hide Forward, Overwritten;
    AppendText(contents, length, "\"");
    AppendView(contents, length + 1, view, count);
    AppendText(contents, length + 1 + count, "\"");
  }

  /** Copies a token to the end of the cleaned text; `read` is where the tokenizer is. */
  method CopyToken(contents: array<char>, length: nat, token: Token, read: nat) returns (failed: bool, newLength: nat)
    requires length <= contents.Length && read <= contents.Length && !Last(token)
    requires token.StringToken? ==> |token.raw| + 2 <= read
    modifies contents
    ensures failed == (length + |Copy(token)| > contents.Length)
    ensures failed ==> newLength == length && contents[..] == old(contents[..])
    ensures !failed ==>
              newLength == length + |Copy(token)| && contents[..] == PutToken(old(contents[..]), length, token, read)
  {
    hide Copy, Overwritten, PutString, Quoted;
    if token.StringToken? {
      StringCopy(token.raw);
      var count := |token.raw|;
      if length + count + 2 > contents.Length {
        return true, length;
      }
      CopyString(contents, length, read - 1 - count, count);
      failed, newLength := false, length + count + 2;
    } else {
      var text := TokenText(token);
      if length + |text| > contents.Length {
        return true, length;
      }
      AppendText(contents, length, text);
      failed, newLength := false, length + |text|;
    }
  }

  /** One turn of the loop, with the tokenizer just behind its token. */
  method CleanToken(tokenizer: Tokenizer, write: nat, token: Token, ghost read: nat)
      returns (failed: bool, newLength: nat)
    requires tokenizer.Valid() && tokenizer.begin == 0 && read <= tokenizer.size && write <= tokenizer.storage.Length
    requires !Last(token)
    requires Scan(tokenizer.storage[..][read..tokenizer.size]) == Scanned(token, tokenizer.Rest())
    modifies tokenizer.storage
    ensures newLength <= tokenizer.storage.Length && read < tokenizer.parseIndex
    ensures old(CleanFrom(tokenizer.storage[..], tokenizer.size, write, read))
         == if failed then Cleaning(true, tokenizer.storage[..], newLength)
            else CleanFrom(tokenizer.storage[..], tokenizer.size, newLength, tokenizer.parseIndex)
  {
    hide Scan, Copy, CleanFrom, PutToken;
    CleanFromStep(tokenizer.storage[..], tokenizer.size, write, read);
    assert ReadIndex(tokenizer.storage[..], tokenizer.size, read) == tokenizer.parseIndex;
    failed, newLength := CopyToken(tokenizer.storage, write, token, tokenizer.parseIndex);
  }

  /** The loop, for every text. */
  method CleanTokens(contents: array<char>, length: nat) returns (failed: bool, newLength: nat)
    requires length <= contents.Length
    modifies contents
    ensures Cleaning(failed, contents[..], newLength) == CleanFrom(old(contents[..]), length, 0, 0)
  {
    hide Scan, CleanFrom;
    ghost var cells := contents[..];
    var tokenizer := new Tokenizer(contents, 0, length);
    newLength := 0;
    ghost var read := 0;
    SameRest(tokenizer, read);
    var token := tokenizer.NextToken();
    while !Last(token)
      invariant tokenizer.Valid() && newLength <= contents.Length && 0 <= read <= length
      invariant Scan(contents[..][read..length]) == Scanned(token, tokenizer.Rest())
      invariant CleanFrom(contents[..], length, newLength, read) == CleanFrom(cells, length, 0, 0)
      decreases length - read
    {
      failed, newLength := CleanToken(tokenizer, newLength, token, read);
      if failed {
        return;
      }
      read := tokenizer.parseIndex;
      SameRest(tokenizer, read);
      token := tokenizer.NextToken();
    }
    failed := false;
    CleanFromLast(contents[..], length, newLength, read);
  }

  lemma SameRest(tokenizer: Tokenizer, read: nat)
    requires tokenizer.Valid() && tokenizer.begin == 0 && tokenizer.parseIndex == read
    ensures tokenizer.Rest() == tokenizer.storage[..][read..tokenizer.size]
  {
  }

  /** Cleans the first `length` characters in place. For a text that fits, writing never overtakes
      reading, and the result is that of cleaning into a separate buffer. Of the texts without errors
      whose words are separated, no others are cleaned rightly, but for those that end in a number which
      overtakes when there is nothing left to read. */
  method CleanJsonContents(contents: array<char>, length: nat) returns (failed: bool, newLength: nat)
    requires length <= contents.Length
    modifies contents
    ensures Cleaning(failed, contents[..], newLength) == CleanFrom(old(contents[..]), length, 0, 0)
    ensures Fits(old(contents[..length]), 0) ==>
              && !failed && newLength <= length
              && contents[..newLength] == Clean(old(contents[..length]))
              && contents[length..] == old(contents[length..])
    ensures Separated(Tokens(old(contents[..length]))) && ErrorFree(old(contents[..length])) ==>
              (CleanedTo(Cleaning(failed, contents[..], newLength), Clean(old(contents[..length])))
               <==> FitsOrEnds(old(contents[..length]), 0, contents.Length - length))
  {
    hide Clean, Tokens, Separated, ErrorFree, Fits, FitsOrEnds, CleanFrom, CleanedTo;
    ghost var cells := contents[..];
    assert cells[0..length] == contents[..length] && cells[..0] + Clean(cells[0..length]) == Clean(cells[0..length]);
    if Fits(contents[..length], 0) {
      FittingCleans(cells, length, 0, 0);
    }
    if Separated(Tokens(contents[..length])) && ErrorFree(contents[..length]) {
      CleansExactly(cells, length, 0, 0);
    }
    failed, newLength := CleanTokens(contents, length);
  }

  /** Cleaning goes on with copying a token that ends at `read`. */
  function AfterToken(cells: string, size: nat, write: nat, token: Token, read: nat): Cleaning
    requires read <= size <= |cells| && write <= |cells| && (token.StringToken? ==> |token.raw| + 2 <= read)
  {
    if write + |Copy(token)| > |cells| then Cleaning(true, cells, write)
    else CleanFrom(PutToken(cells, write, token, read), size, write + |Copy(token)|, read)
  }

  lemma CleanFromStep(cells: string, size: nat, write: nat, read: nat)
    requires read <= size <= |cells| && write <= |cells| && !Last(Scan(cells[read..size]).token)
    ensures CleanFrom(cells, size, write, read)
         == AfterToken(cells, size, write, Scan(cells[read..size]).token, ReadIndex(cells, size, read))
  {
    hide Scan, Copy, PutToken;
  }

  lemma CleanFromLast(cells: string, size: nat, write: nat, read: nat)
    requires read <= size <= |cells| && write <= |cells| && Last(Scan(cells[read..size]).token)
    ensures CleanFrom(cells, size, write, read) == Cleaning(false, cells, write)
  {
    hide Scan, Copy, PutToken;
  }

  // ---------------------------------------------------------------------------------------------
  // Incomplete numbers
  // ---------------------------------------------------------------------------------------------

  lemma PrintedZeroAndOne()
    ensures Copy(IntToken(0, true)) == "-0" && Copy(IntToken(1, false)) == "1" && Copy(FloatToken(1, 0, false)) == "1.0"
  {
    TrimAll(NANO_WIDTH);
    assert Power(10, 0) == 1;
    assert LowDigits(10, 1, 1) == "1" && LowDigits(10, 0, 1) == "0";
  }

  lemma TrimAll(width: nat)
    requires width >= 1
    ensures Trim(0, width) == Trimmed(0, 1)
    decreases width
  {
    if width > 1 { TrimAll(width - 1); }
  }

  /** A sign without digits reads as zero. */
  lemma ScanSign(rest: string)
    requires Delimited(rest)
    ensures Scan("-" + rest) == Scanned(IntToken(0, true), rest)
  {
    var s := "-" + rest;
    assert Span(IsSpace, s) == 0 && s[0..] == s && s[1..] == rest;
    assert Span(IsDigit, rest) == 0;
    assert rest[..0] == "" && DigitsValue(0, "") == 0 && rest[0..] == rest;
  }

  /** A dot without digits behind it reads as a fraction of zero. */
  lemma ScanDot(rest: string)
    requires Delimited(rest) && (rest != [] ==> rest[0] != '-')
    ensures Scan("1." + rest) == Scanned(FloatToken(1, 0, false), rest)
  {
    var s := "1." + rest;
    var t := s[1..];
    assert t == "." + rest && t[1..] == rest;
    assert Span(IsSpace, s) == 0 && s[0..] == s;
    SpanAt(IsDigit, s, 1);
    assert Span(IsDigit, rest) == 0;
    assert s[..1] == "1" && "1"[1..] == "" && DigitsValue(0, "1") == 1;
    assert rest[..0] == "" && DigitsValue(0, "") == 0 && rest[0..] == rest;
    assert Nano("") == 0;
  }

  lemma ScanDigits(digits: string, rest: string)
    requires Digits(digits) && Delimited(rest)
    ensures Scan(digits + rest) == Scanned(IntToken(DigitsValue(0, digits) % UINT64, false), rest)
  {
    ScanNumberText(Num(false, digits, None, None), rest);
  }

  lemma ScanEmpty()
    ensures Scan("").token == End && Clean("") == ""
  {
    NoTokens();
  }

  lemma PunctuationCopies()
    ensures Copy(LeftBracket) == "[" && Copy(RightBracket) == "]" && Copy(Comma) == ","
  {
  }

  /** The first token of a text decides what cleaning and fitting make of it. */
  lemma TextStep(s: string, token: Token, rest: string, slack: nat)
    requires Scan(s) == Scanned(token, rest) && !Last(token) && |rest| <= |s|
    ensures Clean(s) == Copy(token) + Clean(rest)
    ensures Fits(s, slack)
       <==> |Copy(token)| <= slack + (|s| - |rest|) && Fits(rest, slack + (|s| - |rest|) - |Copy(token)|)
  {
    hide Scan, Copy, Clean;
    CleanStep(s);
  }

  lemma TextEnd(s: string, slack: nat)
    requires s == ""
    ensures Clean(s) == "" && Fits(s, slack)
  {
    hide Clean;
    ScanEmpty();
  }

  /** A step of cleaning in place with a token that is not a string. */
  lemma CellsStep(cells: string, size: nat, write: nat, read: nat, token: Token, rest: string, text: string)
    requires read <= size <= |cells| && Scan(cells[read..size]) == Scanned(token, rest) && !Last(token)
    requires !token.StringToken?
    requires text == Copy(token) && write + |text| <= |cells| && |rest| <= size
    ensures CleanFrom(cells, size, write, read)
         == CleanFrom(Overwritten(cells, write, text), size, write + |text|, size - |rest|)
  {
    hide Scan, Copy, CleanFrom, Overwritten;
    CleanFromStep(cells, size, write, read);
  }

  /** Here writing overtakes reading: the comma is overwritten before it is read, and a list of two
      numbers becomes a list of one. */
  lemma CleaningOvertakes(s: string)
    requires s == "[-,1]"
    ensures Clean(s) == "[-0,1]" && !Fits(s, 0)
    ensures CleanFrom(s, 5, 0, 0) == Cleaning(false, "[-01]", 5)
  {
    OvertakenText(s);
    OvertakenRun(s);
  }

  lemma OvertakenText(s: string)
    requires s == "[-,1]"
    ensures Clean(s) == "[-0,1]" && !Fits(s, 0)
  {
    hide Scan, Copy, Clean, Fits, DigitsValue;
    PrintedZeroAndOne();
    PunctuationCopies();
    var s4 := s[4..];
    var s3 := s[3..];
    var s2 := s[2..];
    var s1 := s[1..];
    assert s == ['['] + s1 && s1 == "-" + s2 && s2 == [','] + s3 && s3 == "1" + s4 && s4 == [']'] + "";
    ScanPunctuation('[', s1);
    ScanSign(s2);
    ScanPunctuation(',', s3);
    ScanDigits("1", s4);
    DigitsOfOne();
    ScanPunctuation(']', "");
    TextStep(s, LeftBracket, s1, 0);
    TextStep(s1, IntToken(0, true), s2, 0);
    TextStep(s2, Comma, s3, 0);
    TextStep(s3, IntToken(1, false), s4, 0);
    TextStep(s4, RightBracket, "", 0);
    TextEnd("", 0);
  }

  lemma DigitsOfOne()
    ensures DigitsValue(0, "1") == 1 && DigitsValue(0, "01") == 1
  {
    assert "01"[1..] == "1" && "1"[1..] == "";
  }

  lemma OvertakenRun(s: string)
    requires s == "[-,1]"
    ensures CleanFrom(s, 5, 0, 0) == Cleaning(false, "[-01]", 5)
  {
    hide Scan, Copy, CleanFrom, DigitsValue, Overwritten;
    PrintedZeroAndOne();
    PunctuationCopies();
    DigitsOfOne();
    var over := "[-01]";
    var s1, s2, t4 := s[1..5], s[2..5], over[4..5];
    OvertakenCells(s, over);
    ScanPunctuation('[', s1);
    CellsStep(s, 5, 0, 0, LeftBracket, s1, "[");
    ScanSign(s2);
    CellsStep(s, 5, 1, 1, IntToken(0, true), s2, "-0");
    ScanDigits("01", t4);
    CellsStep(over, 5, 3, 2, IntToken(1, false), t4, "1");
    ScanPunctuation(']', "");
    CellsStep(over, 5, 4, 4, RightBracket, "", "]");
    ScanEmpty();
    assert over[5..5] == "";
    CleanFromLast(over, 5, 5, 5);
  }

  lemma OvertakenCells(s: string, over: string)
    requires s == "[-,1]" && over == "[-01]"
    ensures s[0..5] == ['['] + s[1..5] && s[1..5] == "-" + s[2..5] && Delimited(s[2..5])
    ensures over[2..5] == "01" + over[4..5] && Delimited(over[4..5]) && over[4..5] == [']'] + ""
    ensures Overwritten(s, 0, "[") == s && Overwritten(s, 1, "-0") == over
    ensures Overwritten(over, 3, "1") == over && Overwritten(over, 4, "]") == over
  {
  }

  /** Overtaking does no harm when nothing is left to read, and there is room. */
  lemma OvertakingAtTheEnd(s: string, cells: string)
    requires s == "1." && |cells| == 3 && cells[..2] == s
    ensures !Fits(s, 0) && Clean(s) == "1.0" && FitsOrEnds(s, 0, 1) && !FitsOrEnds(s, 0, 0)
    ensures CleanedTo(CleanFrom(cells, 2, 0, 0), "1.0") && CleanFrom(s, 2, 0, 0).failed
  {
    hide Scan, Copy, Clean, CleanFrom, CleanedTo;
    PrintedZeroAndOne();
    assert s == "1." + "";
    ScanDot("");
    ScanEmpty();
    CleanStep(s);
    assert cells[0..2] == s && s[0..2] == s && cells[..0] + Clean(s) == Clean(s);
    assert Tokens(s) == [FloatToken(1, 0, false)] + Tokens("");
    NoTokens();
    CleansExactly(cells, 2, 0, 0);
    CleanFromStep(s, 2, 0, 0);
  }

  /** White space before it can make up for a number that grows. */
  lemma GrowingNumberMayFit(s: string, t: string)
    requires s == "[ 1.]" && t == "[1.]"
    ensures Fits(s, 0) && Clean(s) == "[1.0]" && !Fits(t, 0)
  {
    hide Scan, Copy, Clean, Fits;
    PrintedZeroAndOne();
    PunctuationCopies();
    var t1, t3 := t[1..], t[3..];
    var s1 := s[1..];
    assert s == ['['] + s1 && s1 == " " + t1 && t == ['['] + t1 && t1 == "1." + t3 && t3 == [']'] + "";
    ScanPunctuation('[', s1);
    ScanPunctuation('[', t1);
    ScanSpace(" ", t1);
    ScanDot(t3);
    ScanPunctuation(']', "");
    TextStep(s, LeftBracket, s1, 0);
    TextStep(s1, FloatToken(1, 0, false), t3, 0);
    TextStep(t3, RightBracket, "", 0);
    TextEnd("", 0);
    TextStep(t, LeftBracket, t1, 0);
    TextStep(t1, FloatToken(1, 0, false), t3, 0);
  }
}
