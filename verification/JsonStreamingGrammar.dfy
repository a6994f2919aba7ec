/** What the streaming parser of infra/syntax/JsonStreamingParser.cpp accepts: a text that it reads to its
    end without a parse error is one of its grammar, and the callbacks are those that the grammar calls for. */
module JsonStreamingGrammar {
  import opened Common
  import opened JsonSyntax
  import opened JsonStreamingParser
  import opened JsonStreamingMeaning

  // ---------------------------------------------------------------------------------------------
  // The grammar: which values the parser takes, at a level and after some callbacks
  // ---------------------------------------------------------------------------------------------

  /** Literals fit the value buffer, and so do the Unicode escapes of strings; objects and arrays are
      entered, or else skipped. */
  predicate Streamed(v: Json, config: Config, level: nat, tag: Option<string>, log: seq<Event>) {
    match v
    case Null => LiteralAccepted("null", config.maxValue)
    case Bool(flag) => LiteralAccepted(if flag then "true" else "false", config.maxValue)
    case Num(_, _, _, _) => StreamedNumber(v)
    case Str(items) => ItemsOk(items) && StringAccepted(items, config.maxValue)
    case EmptyObj(space) => Space(space) && Entered(v, config, level, tag, log)
    case EmptyArr(space) => Space(space) && Entered(v, config, level, tag, log)
    case Obj(members) =>
      Entered(v, config, level, tag, log) && MembersStreamed(members, config, level + 1, Asked(v, level, tag, log))
    case Arr(elements) =>
      Entered(v, config, level, tag, log) && ElementsStreamed(elements, config, level + 1, Asked(v, level, tag, log))
    case Skipped(isObject, pieces) => !Entered(v, config, level, tag, log) && Balanced(isObject, pieces, 0)
  }

  predicate MembersStreamed(ms: Members, config: Config, level: nat, log: seq<Event>) {
    var m := ms.member;
    var tag := Some(Tag(m.key, config));
    && Space(m.s0) && Space(m.s1) && Space(m.s2) && Space(m.s3)
    && ItemsOk(m.key) && StringAccepted(m.key, config.maxValue)
    && Streamed(m.value, config, level, tag, log)
    && (ms.MoreMembers? ==> MembersStreamed(ms.members, config, level, Events(m.value, config, level, tag, log)))
  }

  predicate ElementsStreamed(es: Elements, config: Config, level: nat, log: seq<Event>) {
    var e := es.element;
    && Space(e.s0) && Space(e.s1) && Streamed(e.value, config, level, None, log)
    && (es.MoreElements? ==> ElementsStreamed(es.elements, config, level, Events(e.value, config, level, None, log)))
  }

  /** A whole text has an object or array at its root, which is always entered. */
  predicate TextStreamed(v: Json, isObject: bool, config: Config) {
    match v
    case EmptyObj(space) => isObject && Space(space)
    case EmptyArr(space) => !isObject && Space(space)
    case Obj(members) => isObject && MembersStreamed(members, config, 0, [])
    case Arr(elements) => !isObject && ElementsStreamed(elements, config, 0, [])
    case _ => false
  }

  // ---------------------------------------------------------------------------------------------
  // From a token back to its text
  // ---------------------------------------------------------------------------------------------

  lemma {:induction false} SpaceBack(l: Lexer, data: string, maxValue: nat) returns (space: string, t: string)
    requires l.state.TokenOpen?
    ensures data == space + t && Space(space) && (t != [] ==> !IsSpace(t[0]))
    ensures FeedLexer(l, data, true, maxValue) == FeedLexer(l, t, true, maxValue)
    decreases |data|
  {
    if data != [] && IsSpace(data[0]) {
      space, t := SpaceBack(l, data[1..], maxValue);
      space := [data[0]] + space;
      assert data == [data[0]] + data[1..];
    } else {
      space, t := [], data;
    }
  }

  lemma {:induction false} ExponentBack(l: Lexer, data: string, maxValue: nat) returns (text: string, rest: string)
    requires l.state.NumberExponentOpen? && FeedLexer(l, data, true, maxValue).lexer.state.TokenDone?
    ensures data == text + rest && forall i :: 0 <= i < |text| ==> ExponentByte(text[i])
    ensures FeedLexer(l, data, true, maxValue) == Fed(FoundToken(l, NumberToken), rest)
    decreases |data|
  {
    if data != [] && ExponentByte(data[0]) {
      text, rest := ExponentBack(l, data[1..], maxValue);
      text := [data[0]] + text;
      assert data == [data[0]] + data[1..];
    } else {
      text, rest := [], data;
    }
  }

  lemma {:induction false} FractionBack(l: Lexer, data: string, maxValue: nat)
      returns (digits: string, exponent: Option<ExponentPart>, rest: string)
    requires l.state.NumberFractionalOpen? && FeedLexer(l, data, true, maxValue).lexer.state.TokenDone?
    ensures data == digits + ExponentText(exponent, rest) && AllDigits(digits)
    ensures exponent.Some? ==> exponent.value.letter in {'e', 'E'}
    ensures exponent.Some? ==> forall i :: 0 <= i < |exponent.value.text| ==> ExponentByte(exponent.value.text[i])
    ensures FeedLexer(l, data, true, maxValue) == Fed(FoundToken(l, NumberToken), rest)
    decreases |data|
  {
    if data != [] && IsDigit(data[0]) {
      digits, exponent, rest := FractionBack(l, data[1..], maxValue);
      digits := [data[0]] + digits;
      assert data == [data[0]] + data[1..];
    } else if data != [] && data[0] in {'e', 'E'} {
      var text;
      text, rest := ExponentBack(l.(state := NumberExponentOpen), data[1..], maxValue);
      digits, exponent := [], Some(ExponentPart(data[0], text));
      assert data == [data[0]] + data[1..];
    } else {
      digits, exponent, rest := [], None, data;
    }
  }

  lemma {:induction false} DigitsBack(l: Lexer, data: string, maxValue: nat)
      returns (digits: string, fraction: Option<string>, exponent: Option<ExponentPart>, rest: string)
    requires l.state.NumberOpen? && FeedLexer(l, data, true, maxValue).lexer.state.TokenDone?
    ensures data == digits + FractionText(fraction, ExponentText(exponent, rest)) && AllDigits(digits)
    ensures fraction.Some? ==> AllDigits(fraction.value)
    ensures exponent.Some? ==> fraction.Some? && exponent.value.letter in {'e', 'E'}
    ensures exponent.Some? ==> forall i :: 0 <= i < |exponent.value.text| ==> ExponentByte(exponent.value.text[i])
    ensures FeedLexer(l, data, true, maxValue)
         == Fed(FoundToken(l.(number := DigitsValue(l.number, digits)), NumberToken), rest)
    decreases |data|
  {
    hide FeedLexer, DigitsValue;
    FeedStop(l, data, true, maxValue);
    if IsDigit(data[0]) {
      var d := data[0] as int - '0' as int;
      assert data == [data[0]] + data[1..];
      FeedOne(l, data[0], data[1..], true, maxValue);
      digits, fraction, exponent, rest := DigitsBack(l.(number := l.number * 10 + d), data[1..], maxValue);
      DigitsFirst(l.number, data[0], digits);
      digits := [data[0]] + digits;
    } else if data[0] == '.' {
      assert data == [data[0]] + data[1..];
      FeedOne(l, data[0], data[1..], true, maxValue);
      var f;
      f, exponent, rest := FractionBack(l.(state := NumberFractionalOpen), data[1..], maxValue);
      digits, fraction := [], Some(f);
      DigitsNone(l.number);
    } else {
      digits, fraction, exponent, rest := [], None, None, data;
      DigitsNone(l.number);
    }
  }

  lemma DigitsFirst(prefix: int, c: char, digits: string)
    ensures DigitsValue(prefix, [c] + digits) == DigitsValue(prefix * 10 + (c as int - '0' as int), digits)
  {
    assert ([c] + digits)[1..] == digits;
  }

  lemma DigitsNone(prefix: int)
    ensures DigitsValue(prefix, []) == prefix
  {
  }

  /** Without a byte nothing happens; a byte that is not consumed ends the token. */
  lemma FeedStop(l: Lexer, data: string, saveValue: bool, maxValue: nat)
    requires !l.state.TokenDone?
    ensures data == [] ==> FeedLexer(l, data, saveValue, maxValue) == Fed(l, data)
    ensures data != [] && !LexByte(l, data[0], saveValue, maxValue).consumed ==>
              FeedLexer(l, data, saveValue, maxValue) == Fed(LexByte(l, data[0], saveValue, maxValue).lexer, data)
  {
  }

  /** A number token: its text, and that the lexer holds its value. */
  lemma NumberBack(l: Lexer, t: string, maxValue: nat) returns (v: Json, l': Lexer, rest: string)
    requires Fresh(l) && t != [] && (t[0] == '-' || IsDigit(t[0]))
    requires FeedLexer(l, t, true, maxValue).lexer.state.TokenDone?
    ensures v.Num? && StreamedNumber(v) && t == Text(v, rest) && FeedLexer(l, t, true, maxValue) == Fed(l', rest)
    ensures l'.token.NumberToken? && l'.sign * l'.number == NumberValue(v)
    ensures l'.unicodeIndex == 0 && l'.unicode == 0
  {
    hide FeedLexer;
    assert t == [t[0]] + t[1..];
    FeedOne(l, t[0], t[1..], true, maxValue);
    var l1 := OpenByte(l, t[0]);
    var digits, fraction, exponent;
    digits, fraction, exponent, rest := DigitsBack(l1, t[1..], maxValue);
    l' := FoundToken(l1.(number := DigitsValue(l1.number, digits)), NumberToken);
    if t[0] == '-' {
      v := Num(true, digits, fraction, exponent);
    } else {
      v := Num(false, [t[0]] + digits, fraction, exponent);
      assert ([t[0]] + digits)[1..] == digits;
      assert [t[0]] + (digits + FractionText(fraction, ExponentText(exponent, rest)))
          == ([t[0]] + digits) + FractionText(fraction, ExponentText(exponent, rest));
    }
  }

  lemma {:induction false} LettersBack(l: Lexer, data: string, maxValue: nat) returns (letters: string, rest: string)
    requires l.state.IdentifierOpen? && |l.value| <= maxValue
    requires FeedLexer(l, data, true, maxValue).lexer.state.TokenDone?
    requires !FeedLexer(l, data, true, maxValue).lexer.token.ErrorToken?
    ensures data == letters + rest && |l.value + letters| <= maxValue
    ensures FeedLexer(l, data, true, maxValue)
         == Fed(FoundToken(l.(value := l.value + letters), IdentifierToken(l.value + letters)), rest)
    decreases |data|
  {
    if data != [] && IsAlpha(data[0]) {
      assert |l.value| < maxValue;
      var l1 := l.(value := l.value + [data[0]]);
      letters, rest := LettersBack(l1, data[1..], maxValue);
      assert l.value + ([data[0]] + letters) == l1.value + letters;
      letters := [data[0]] + letters;
      assert data == [data[0]] + data[1..];
    } else {
      letters, rest := [], data;
      assert l.value + letters == l.value;
    }
  }

  /** A literal. */
  lemma WordBack(l: Lexer, t: string, maxValue: nat) returns (v: Json, l': Lexer, rest: string)
    requires Fresh(l) && t != [] && IsAlpha(t[0]) && 1 <= maxValue
    requires FeedLexer(l, t, true, maxValue).lexer.state.TokenDone?
    requires !FeedLexer(l, t, true, maxValue).lexer.token.ErrorToken?
    ensures (v.Null? && LiteralAccepted("null", maxValue))
         || (v.Bool? && LiteralAccepted(if v.flag then "true" else "false", maxValue))
    ensures t == Text(v, rest) && FeedLexer(l, t, true, maxValue) == Fed(l', rest) && l'.state.TokenDone?
    ensures l'.token == if v.Null? then NullToken else if v.flag then TrueToken else FalseToken
    ensures l'.unicodeIndex == 0 && l'.unicode == 0
  {
    hide FeedLexer;
    assert t == [t[0]] + t[1..];
    FeedOne(l, t[0], t[1..], true, maxValue);
    var l1 := OpenByte(l, t[0]);
    var letters;
    letters, rest := LettersBack(l1, t[1..], maxValue);
    var word := [t[0]] + letters;
    assert l1.value + letters == word;
    l' := FoundToken(l1.(value := word), IdentifierToken(word));
    v := if word == "null" then Null else Bool(word == "true");
    assert t == word + rest;
  }

  /** The digits of a Unicode escape: all that are due, or as many as there are before another character. */
  lemma {:induction false} UnicodeBack(l: Lexer, data: string, saveValue: bool, maxValue: nat)
      returns (digits: string, tail: string)
    requires l.state.UnicodeValueOpen? && l.unicodeIndex < 4
    requires FeedLexer(l, data, saveValue, maxValue).lexer.state.TokenDone?
    ensures data == digits + tail && AllHex(digits) && |digits| <= 4 - l.unicodeIndex
    ensures |digits| < 4 - l.unicodeIndex ==> tail != [] && HexValue(tail[0]).None?
    ensures |digits| < 4 - l.unicodeIndex ==>
              FeedLexer(l, data, saveValue, maxValue)
              == Fed(FoundToken(l.(unicodeIndex := 0, unicode := 0), ErrorToken), tail[1..])
    decreases 4 - l.unicodeIndex
  {
    hide FeedLexer;
    FeedStop(l, data, saveValue, maxValue);
    var c, after := data[0], data[1..];
    assert data == [c] + after;
    FeedOne(l, c, after, saveValue, maxValue);
    if HexValue(c).None? {
      digits, tail := [], data;
      FeedDone(FoundToken(l.(unicodeIndex := 0, unicode := 0), ErrorToken), after, saveValue, maxValue);
    } else if l.unicodeIndex == 3 {
      digits, tail := [c], after;
    } else {
      digits, tail := UnicodeBack(LexByte(l, c, saveValue, maxValue).lexer, after, saveValue, maxValue);
      digits := [c] + digits;
    }
  }

  /** The text of a string that ends inside of a Unicode escape. */
  function TornText(digits: string, last: char, rest: string): string {
    ['\\'] + (['u'] + (digits + ([last] + rest)))
  }

  predicate Torn(digits: string, last: char) { |digits| < 4 && AllHex(digits) && HexValue(last).None? }

  /** The next item of a string, or a Unicode escape with too few digits, which ends it. */
  lemma ItemBack(l: Lexer, data: string, saveValue: bool, maxValue: nat)
      returns (x: Option<Item>, tail: string, digits: string, last: char)
    requires InString(l) && data != [] && data[0] != '\"'
    requires FeedLexer(l, data, saveValue, maxValue).lexer.state.TokenDone?
    ensures x.Some? ==> ItemOk(x.value) && data == ItemText(x.value, tail) && |tail| < |data|
    ensures x.None? ==> Torn(digits, last) && data == TornText(digits, last, tail)
    ensures x.None? ==>
              FeedLexer(l, data, saveValue, maxValue)
              == Fed(FoundToken(l.(state := UnicodeValueOpen), ErrorToken), tail)
  {
    hide FeedLexer;
    digits, last := [], data[0];
    assert data == [data[0]] + data[1..];
    if data[0] != '\\' {
      x, tail := Some(Plain(data[0])), data[1..];
    } else {
      var l1 := l.(state := StringOpenAndEscaped);
      FeedOne(l, data[0], data[1..], saveValue, maxValue);
      FeedStop(l1, data[1..], saveValue, maxValue);
      var c, after := data[1..][0], data[1..][1..];
      assert data[1..] == [c] + after;
      if c != 'u' {
        x, tail := Some(Escape(c)), after;
      } else {
        FeedOne(l1, c, after, saveValue, maxValue);
        digits, tail := UnicodeBack(l.(state := UnicodeValueOpen), after, saveValue, maxValue);
        if |digits| == 4 {
          x := Some(Unicode(digits[0], digits[1], digits[2], digits[3]));
          assert digits + tail == [digits[0]] + ([digits[1]] + ([digits[2]] + ([digits[3]] + tail)));
        } else {
          x, last := None, tail[0];
          assert tail == [last] + tail[1..];
          tail := tail[1..];
        }
      }
    }
  }

  /** The items of a string that is read. */
  lemma {:induction false} ItemsBack(l: Lexer, data: string, maxValue: nat) returns (items: seq<Item>, rest: string)
    requires InString(l) && FeedLexer(l, data, true, maxValue).lexer.state.TokenDone?
    requires !FeedLexer(l, data, true, maxValue).lexer.token.ErrorToken?
    ensures ItemsOk(items) && data == ItemsText(items, ['\"'] + rest)
    decreases |data|
  {
    if data[0] == '\"' {
      items, rest := [], data[1..];
      assert data == ['\"'] + rest;
    } else {
      hide FeedLexer, AfterItem;
      var x, tail, digits, last := ItemBack(l, data, true, maxValue);
      if x.value.Unicode? && |l.value| >= maxValue {
        var l' := LexUnicodeFull(l, x.value, tail, maxValue);
      }
      LexItem(l, x.value, tail, true, maxValue);
      var more;
      more, rest := ItemsBack(AfterItem(l, x.value, true, maxValue), tail, maxValue);
      items := [x.value] + more;
      assert items[1..] == more;
    }
  }

  /** A string token: its items fit, and the lexer holds what fits of its contents. */
  lemma StringBack(l: Lexer, t: string, maxValue: nat) returns (items: seq<Item>, l': Lexer, rest: string)
    requires Fresh(l) && t != [] && t[0] == '\"' && FeedLexer(l, t, true, maxValue).lexer.state.TokenDone?
    requires !FeedLexer(l, t, true, maxValue).lexer.token.ErrorToken?
    ensures ItemsOk(items) && StringAccepted(items, maxValue) && t == StringText(items, rest)
    ensures FeedLexer(l, t, true, maxValue) == Fed(l', rest) && l'.state.TokenDone?
    ensures l'.unicodeIndex == 0 && l'.unicode == 0 && l'.value == Head(Contents(items), maxValue)
    ensures l'.token == if |items| <= maxValue then StringToken else StringOverflowToken
  {
    hide FeedLexer;
    assert t == ['\"'] + t[1..];
    FeedOne(l, t[0], t[1..], true, maxValue);
    items, rest := ItemsBack(OpenByte(l, '\"'), t[1..], maxValue);
    if !StringAccepted(items, maxValue) {
      var l1, r1 := LexStringTextFails(l, items, rest, maxValue);
    }
    l' := LexStringText(l, items, rest, maxValue);
  }

  /** A string in a value that is skipped: it ends with its quote, or in a Unicode escape. */
  lemma {:induction false} SkippedStringBack(l: Lexer, data: string, maxValue: nat)
      returns (items: seq<Item>, torn: bool, digits: string, last: char, l': Lexer, rest: string)
    requires InString(l) && l.value == "" && 1 <= maxValue
    requires FeedLexer(l, data, false, maxValue).lexer.state.TokenDone?
    ensures ItemsOk(items) && FeedLexer(l, data, false, maxValue) == Fed(l', rest) && |rest| < |data|
    ensures if torn then Torn(digits, last) && data == ItemsText(items, TornText(digits, last, rest))
            else data == ItemsText(items, ['\"'] + rest)
    ensures l'.state.TokenDone? && l'.unicodeIndex == 0 && l'.unicode == 0 && l'.value == ""
    ensures l'.token in {StringToken, StringOverflowToken, ErrorToken}
    decreases |data|
  {
    if data[0] == '\"' {
      items, torn, digits, last, rest := [], false, [], data[0], data[1..];
      assert data == ['\"'] + rest;
      l' := StringByte(l, '\"', false, maxValue);
    } else {
      hide FeedLexer;
      var x, tail;
      x, tail, digits, last := ItemBack(l, data, false, maxValue);
      if x.None? {
        items, torn, rest := [], true, tail;
        l' := FoundToken(l.(state := UnicodeValueOpen), ErrorToken);
      } else {
        LexItem(l, x.value, tail, false, maxValue);
        var behind := AfterItem(l, x.value, false, maxValue);
        var more;
        more, torn, digits, last, l', rest := SkippedStringBack(behind, tail, maxValue);
        items := [x.value] + more;
        assert items[1..] == more;
      }
    }
  }

  // ---------------------------------------------------------------------------------------------
  // Back from the end of a run
  // ---------------------------------------------------------------------------------------------

  /** The parser has come to its end, and reported no parse error. */
  ghost predicate Finished(m: Machine) { m.levels == [] && forall e :: e in m.log ==> !e.ParseErrorEvent? }

  lemma DeadIsNotFinished(config: Config, log: seq<Event>, level: nat, rest: string)
    ensures !Finished(Run(Dead(config, log, level), rest))
  {
    RunDead(Dead(config, log, level), rest);
    assert ParseErrors(level + 1)[0] == ParseErrorEvent(level);
    assert (log + ParseErrors(level + 1))[|log|] == ParseErrorEvent(level);
    assert ParseErrorEvent(level) in Dead(config, log, level).log;
  }

  lemma NotAtEnd(m: Machine, data: string)
    requires m.levels != [] && Finished(Run(m, data))
    ensures data != []
  {
  }

  // ---------------------------------------------------------------------------------------------
  // A value that is skipped
  // ---------------------------------------------------------------------------------------------

  lemma SkipLeftWraps(m: Machine, base: Machine, depth: nat)
    requires Skipping(m, base, depth)
    ensures Skipping(StepByte(m, LeftMark(base)), base, (depth + 1) % SKIP_MODULUS)
  {
    hide StepByte, Flush;
    SkipBracket(m, base, depth, LeftMark(base));
  }

  /** What is skipped up to the closing bracket. */
  lemma {:induction false} PiecesBack(m: Machine, base: Machine, depth: nat, data: string)
      returns (pieces: seq<Piece>, m': Machine, rest: string)
    requires base.levels != [] && Skipping(m, base, depth) && Finished(Run(m, data))
    ensures var isObject := Top(base).state.SkipNestedObject?;
      Balanced(isObject, pieces, depth) && data == PiecesText(pieces, [CloseBracket(isObject)] + rest)
    ensures Run(m, data) == Run(m', rest) && |rest| < |data| && m'.levels != [] && Fresh(Top(m').lexer)
    ensures m' == WithTop(base, Top(base).(state := Closed, lexer := Top(m').lexer))
    decreases |data|
  {
    hide StepByte, Balanced;
    var isObject := Top(base).state.SkipNestedObject?;
    NotAtEnd(m, data);
    var c := data[0];
    assert data == [c] + data[1..];
    if c == RightMark(base) && depth == 0 {
      SkipRight(m, base, depth);
      pieces, m', rest := [], StepByte(m, c), data[1..];
      BalancedNone(isObject);
    } else if c == '\"' {
      var piece, m1, tail := StringPieceBack(m, base, depth, data);
      pieces, m', rest := PiecesBack(m1, base, depth, tail);
      PiecesFirst(piece, pieces, [CloseBracket(isObject)] + rest);
      BalancedString(isObject, piece, pieces, depth);
      pieces := [piece] + pieces;
    } else {
      var depth' := if c == LeftMark(base) then (depth + 1) % SKIP_MODULUS
                    else if c == RightMark(base) then depth - 1 else depth;
      if c == LeftMark(base) {
        SkipLeftWraps(m, base, depth);
      } else if c == RightMark(base) {
        SkipRight(m, base, depth);
      } else {
        SkipHarmless(m, base, depth, c);
      }
      pieces, m', rest := PiecesBack(StepByte(m, c), base, depth', data[1..]);
      PiecesFirst(Single(c), pieces, [CloseBracket(isObject)] + rest);
      BalancedSingle(isObject, c, pieces, depth);
      pieces := [Single(c)] + pieces;
    }
  }

  lemma BalancedNone(isObject: bool)
    ensures Balanced(isObject, [], 0)
  {
  }

  lemma PiecesFirst(p: Piece, pieces: seq<Piece>, rest: string)
    ensures PiecesText([p] + pieces, rest) == PieceText(p, PiecesText(pieces, rest))
  {
    assert ([p] + pieces)[1..] == pieces;
  }

  lemma BalancedSingle(isObject: bool, c: char, pieces: seq<Piece>, depth: nat)
    requires c != '\"' && (c == CloseBracket(isObject) ==> depth > 0)
    requires Balanced(isObject, pieces, if c == OpenBracket(isObject) then (depth + 1) % UINT32
                                        else if c == CloseBracket(isObject) then depth - 1 else depth)
    ensures Balanced(isObject, [Single(c)] + pieces, depth)
  {
    assert ([Single(c)] + pieces)[1..] == pieces;
  }

  lemma BalancedString(isObject: bool, p: Piece, pieces: seq<Piece>, depth: nat)
    requires !p.Single? && ItemsOk(p.items) && (p.TornString? ==> Torn(p.digits, p.last))
    requires Balanced(isObject, pieces, depth)
    ensures Balanced(isObject, [p] + pieces, depth)
  {
    assert ([p] + pieces)[1..] == pieces;
  }

  lemma StringPieceBack(m: Machine, base: Machine, depth: nat, data: string)
      returns (p: Piece, m': Machine, tail: string)
    requires base.levels != [] && Skipping(m, base, depth) && data != [] && data[0] == '\"' && Finished(Run(m, data))
    ensures !p.Single? && ItemsOk(p.items) && (p.TornString? ==> Torn(p.digits, p.last))
    ensures data == PieceText(p, tail) && |tail| < |data|
    ensures Run(m, data) == Run(m', tail) && Skipping(m', base, depth)
  {
    hide HandleToken, LexByte, FeedLexer;
    SkipQuote(m, base, depth);
    var m1 := Flush(m, '\"');
    var m2 := StepByte(m, '\"');
    var after := data[1..];
    assert data == ['\"'] + after;
    FeedLexerIsRun(m2, after);
    var l2 := Top(m2).lexer;
    var items, torn, digits, last, l, rest := SkippedStringBack(l2, after, base.config.maxValue);
    SkipOtherToken(m1, base, depth, l);
    m', tail := HandleToken(WithTop(m2, Top(m2).(lexer := l))), rest;
    assert WithTop(m2, Top(m2).(lexer := l)) == WithTop(m1, Top(m1).(lexer := l));
    p := if torn then TornString(items, digits, last) else WholeString(items);
  }

  // ---------------------------------------------------------------------------------------------
  // One token of a level
  // ---------------------------------------------------------------------------------------------

  predicate ScalarToken(token: Token) {
    token in {StringToken, StringOverflowToken, NumberToken, NullToken, TrueToken, FalseToken}
  }

  predicate ValueToken(token: Token) { ScalarToken(token) || token.LeftBrace? || token.LeftBracket? }

  /** Which tokens the grammar has in each state of an object or an array. */
  predicate Expected(isObject: bool, state: State, token: Token) {
    match state
    case Init => if isObject then token.LeftBrace? else token.LeftBracket?
    case InitialOpen =>
      if isObject then token in {StringToken, StringOverflowToken, RightBrace}
      else ValueToken(token) || token.RightBracket?
    case Open => if isObject then token in {StringToken, StringOverflowToken} else ValueToken(token)
    case TagClosed => isObject && token.Colon?
    case ValueExpected => isObject && ValueToken(token)
    case Closed => token.Comma? || (if isObject then token.RightBrace? else token.RightBracket?)
    case _ => false
  }

  predicate Awaiting(isObject: bool, state: State) {
    state in {Init, InitialOpen, Open, Closed} || (isObject && state in {TagClosed, ValueExpected})
  }

  /** Any other token is a parse error to every level. */
  lemma Refused(m: Machine, config: Config, below: seq<SubParser>, isObject: bool, state: State, tag: string,
      log: seq<Event>, l: Lexer)
    requires At(m, config, below, isObject, state, tag, log) && Awaiting(isObject, state)
    requires l.state.TokenDone? && !Expected(isObject, state, l.token)
    ensures HandleToken(WithTop(m, Top(m).(lexer := l))) == Dead(config, log, |below|)
  {
    hide At, OpenNested, Call, ParseErrors;
    AtElim(m, config, below, isObject, state, tag, log);
  }

  /** A run that finishes finds a token that is expected, and goes on behind it. */
  lemma NextToken(m: Machine, config: Config, below: seq<SubParser>, isObject: bool, state: State, tag: string,
      log: seq<Event>, data: string) returns (l: Lexer, rest: string)
    requires At(m, config, below, isObject, state, tag, log) && Awaiting(isObject, state) && Finished(Run(m, data))
    ensures FeedLexer(Top(m).lexer, data, true, config.maxValue) == Fed(l, rest) && l.state.TokenDone?
    ensures Expected(isObject, state, l.token)
    ensures Run(m, data) == Run(HandleToken(WithTop(m, Top(m).(lexer := l))), rest)
  {
    hide Run, HandleToken, FeedLexer, At, Finished, Dead;
    AtElim(m, config, below, isObject, state, tag, log);
    AtIsValid(m, config, below, isObject, state, tag, log);
    FeedLexerIsRun(m, data);
    var fed := FeedLexer(Top(m).lexer, data, true, config.maxValue);
    l, rest := fed.lexer, fed.rest;
    if !l.state.TokenDone? {
      LevelsNotFinished(Run(m, data));
    }
    if !Expected(isObject, state, l.token) {
      Refused(m, config, below, isObject, state, tag, log, l);
      DeadIsNotFinished(config, log, |below|, rest);
    }
  }

  lemma LevelsNotFinished(m: Machine)
    ensures m.levels != [] ==> !Finished(m)
  {
  }

  // ---------------------------------------------------------------------------------------------
  // Back from the tokens to the value
  // ---------------------------------------------------------------------------------------------

  /** A token of one character. */
  lemma MarkBack(l: Lexer, data: string, maxValue: nat, c: char) returns (space: string)
    requires Fresh(l) && 1 <= maxValue && c in {':', ',', '{', '}', '[', ']'}
    requires var fed := FeedLexer(l, data, true, maxValue);
      fed.lexer.state.TokenDone? && fed.lexer.token == OpenByte(l, c).token
    ensures var fed := FeedLexer(l, data, true, maxValue);
      Space(space) && data == space + ([c] + fed.rest) && fed.lexer == OpenByte(l, c)
  {
    var t;
    space, t := SpaceBack(l, data, maxValue);
    TokenStart(l, t, maxValue);
    hide FeedLexer;
    FeedOne(l, t[0], t[1..], true, maxValue);
    FeedDone(OpenByte(l, t[0]), t[1..], true, maxValue);
    assert t == [t[0]] + t[1..];
  }

  /** The first character decides what kind of token there is. */
  lemma TokenStart(l: Lexer, t: string, maxValue: nat)
    requires Fresh(l) && 1 <= maxValue && (t != [] ==> !IsSpace(t[0]))
    requires FeedLexer(l, t, true, maxValue).lexer.state.TokenDone?
    ensures t != []
    ensures var token := FeedLexer(l, t, true, maxValue).lexer.token;
      && (t[0] in {':', ',', '{', '}', '[', ']'} ==> token == OpenByte(l, t[0]).token)
      && (token in {Colon, Comma, LeftBrace, RightBrace, LeftBracket, RightBracket} ==>
            t[0] in {':', ',', '{', '}', '[', ']'})
      && (ScalarToken(token) ==> t[0] == '\"' || t[0] == '-' || IsDigit(t[0]) || IsAlpha(t[0]))
      && (token in {StringToken, StringOverflowToken} ==> t[0] == '\"')
  {
    FeedStop(l, t, true, maxValue);
    var c := t[0];
    assert t == [c] + t[1..];
    FeedOne(l, c, t[1..], true, maxValue);
    if c == '\"' {
      StringTokens(OpenByte(l, c), t[1..], maxValue);
    } else if c == '-' || IsDigit(c) {
      var digits, fraction, exponent, rest := DigitsBack(OpenByte(l, c), t[1..], maxValue);
    } else if IsAlpha(c) {
      WordTokens(OpenByte(l, c), t[1..], maxValue);
    } else {
      FeedDone(OpenByte(l, c), t[1..], true, maxValue);
    }
  }

  lemma {:induction false} StringTokens(l: Lexer, data: string, maxValue: nat)
    requires l.state in {StringOpen, StringOverflowOpen, StringOpenAndEscaped, UnicodeValueOpen}
    requires FeedLexer(l, data, true, maxValue).lexer.state.TokenDone?
    ensures FeedLexer(l, data, true, maxValue).lexer.token in {StringToken, StringOverflowToken, ErrorToken}
    decreases |data|
  {
    FeedStop(l, data, true, maxValue);
    var l1 := LexByte(l, data[0], true, maxValue).lexer;
    if !l1.state.TokenDone? { StringTokens(l1, data[1..], maxValue); }
  }

  lemma {:induction false} WordTokens(l: Lexer, data: string, maxValue: nat)
    requires l.state.IdentifierOpen? && FeedLexer(l, data, true, maxValue).lexer.state.TokenDone?
    ensures FeedLexer(l, data, true, maxValue).lexer.token in {TrueToken, FalseToken, NullToken, ErrorToken}
    decreases |data|
  {
    FeedStop(l, data, true, maxValue);
    var l1 := LexByte(l, data[0], true, maxValue).lexer;
    if !l1.state.TokenDone? { WordTokens(l1, data[1..], maxValue); }
  }

  /** A token that is a value by itself: its text, and its callback. */
  lemma ScalarBack(l: Lexer, data: string, config: Config, level: nat, tag: Option<string>, log: seq<Event>)
      returns (space: string, v: Json, l': Lexer, rest: string)
    requires Fresh(l) && 1 <= config.maxValue
    requires var fed := FeedLexer(l, data, true, config.maxValue);
      fed.lexer.state.TokenDone? && ScalarToken(fed.lexer.token)
    ensures FeedLexer(l, data, true, config.maxValue) == Fed(l', rest)
    ensures Space(space) && data == space + Text(v, rest) && Streamed(v, config, level, tag, log)
    ensures Events(v, config, level, tag, log) == log + [ScalarEvent(l', level, tag)]
    ensures l'.unicodeIndex == 0 && l'.unicode == 0
  {
    hide FeedLexer, StringAccepted, ItemsOk;
    var t;
    space, t := SpaceBack(l, data, config.maxValue);
    TokenStart(l, t, config.maxValue);
    if t[0] == '\"' {
      var items;
      items, l', rest := StringBack(l, t, config.maxValue);
      v := Str(items);
    } else if IsAlpha(t[0]) {
      v, l', rest := WordBack(l, t, config.maxValue);
    } else {
      v, l', rest := NumberBack(l, t, config.maxValue);
    }
  }

  /** A value, where one is expected. */
  lemma {:induction false} ValueBack(m: Machine, config: Config, below: seq<SubParser>, isObject: bool, state: State,
      tag: string, log: seq<Event>, data: string)
      returns (space: string, v: Json, m': Machine, rest: string)
    requires At(m, config, below, isObject, state, tag, log) && ValueState(isObject, state) && Finished(Run(m, data))
    requires ValueToken(FeedLexer(Top(m).lexer, data, true, config.maxValue).lexer.token)
    ensures Space(space) && data == space + Text(v, rest) && |rest| < |data|
    ensures Streamed(v, config, |below|, TagOf(isObject, tag), log)
    ensures Run(m, data) == Run(m', rest)
    ensures At(m', config, below, isObject, Closed, "", Events(v, config, |below|, TagOf(isObject, tag), log))
    decreases |data|, 2
  {
    hide Run, HandleToken, FeedLexer, At, Finished, Streamed, Events, Text;
    AtElim(m, config, below, isObject, state, tag, log);
    var l;
    l, rest := NextToken(m, config, below, isObject, state, tag, log, data);
    if ScalarToken(l.token) {
      var l';
      space, v, l', rest := ScalarBack(Top(m).lexer, data, config, |below|, TagOf(isObject, tag), log);
      ScalarHandled(m, config, below, isObject, state, tag, log, l);
      m' := HandleToken(WithTop(m, Top(m).(lexer := l)));
      FeedStop(Top(m).lexer, data, true, config.maxValue);
      FeedLexerProgress(Top(m).lexer, data, true, config.maxValue);
    } else {
      space, v, m', rest := NestedBack(m, config, below, isObject, state, tag, log, data, l.token.LeftBrace?);
    }
  }

  lemma {:induction false} NestedBack(m: Machine, config: Config, below: seq<SubParser>, isObject: bool, state: State,
      tag: string, log: seq<Event>, data: string, nested: bool)
      returns (space: string, v: Json, m': Machine, rest: string)
    requires At(m, config, below, isObject, state, tag, log) && ValueState(isObject, state) && Finished(Run(m, data))
    requires var fed := FeedLexer(Top(m).lexer, data, true, config.maxValue);
      fed.lexer.state.TokenDone? && fed.lexer.token == if nested then LeftBrace else LeftBracket
    ensures Space(space) && data == space + Text(v, rest) && |rest| < |data|
    ensures Streamed(v, config, |below|, TagOf(isObject, tag), log)
    ensures Run(m, data) == Run(m', rest)
    ensures At(m', config, below, isObject, Closed, "", Events(v, config, |below|, TagOf(isObject, tag), log))
    decreases |data|, 1
  {
    hide Run, HandleToken, FeedLexer, At, Finished, Text, MembersEvents, ElementsEvents;
    hide MembersStreamed, ElementsStreamed, Balanced;
    AtElim(m, config, below, isObject, state, tag, log);
    var c := OpenBracket(nested);
    var l, inner := NextToken(m, config, below, isObject, state, tag, log, data);
    space := MarkBack(Top(m).lexer, data, config.maxValue, c);
    var m1, parent := OpenHandled(m, config, below, isObject, state, tag, log, nested);
    var t := TagOf(isObject, tag);
    var asked := log + [if nested then VisitObject(|below|, t) else VisitArray(|below|, t)];
    if |below| + 1 >= config.maxNesting {
      v, m', rest := SkippedBack(m1, config, below, isObject, nested, log, inner);
    } else if !config.visitor(asked).accept {
      v, m', rest := SkippedBack(m1, config, below, isObject, nested, asked, inner);
    } else {
      v, m', rest := EnteredBack(m1, config, below, parent, isObject, nested, asked, inner);
    }
    BodyText(v, rest);
  }

  lemma BodyText(v: Json, rest: string)
    requires IsObject(v) || IsArray(v)
    ensures v.Skipped? ==>
              Text(v, rest) == [OpenBracket(IsObject(v))] + PiecesText(v.pieces, [CloseBracket(IsObject(v))] + rest)
    ensures !v.Skipped? ==> Text(v, rest) == [OpenBracket(IsObject(v))] + Body(v, rest)
  {
  }

  lemma SkippedBack(m: Machine, config: Config, below: seq<SubParser>, isObject: bool, nested: bool, log: seq<Event>,
      data: string) returns (v: Json, m': Machine, rest: string)
    requires At(m, config, below, isObject, if nested then SkipNestedObject else SkipNestedArray, "", log)
    requires Finished(Run(m, data))
    ensures v.Skipped? && v.isObject == nested && Balanced(nested, v.pieces, 0) && |rest| < |data|
    ensures data == PiecesText(v.pieces, [CloseBracket(nested)] + rest)
    ensures Run(m, data) == Run(m', rest) && At(m', config, below, isObject, Closed, "", log)
  {
    hide Run, Balanced, Finished;
    AtIsValid(m, config, below, isObject, Top(m).state, "", log);
    assert m == WithTop(m, Top(m));
    assert Skipping(m, m, 0);
    var pieces;
    pieces, m', rest := PiecesBack(m, m, 0, data);
    v := Skipped(nested, pieces);
  }

  /** The callbacks and the grammar of what is between the brackets of an object or array. */
  function BodyEvents(v: Json, config: Config, level: nat, log: seq<Event>): seq<Event> {
    match v
    case Obj(members) => MembersEvents(members, config, level, log)
    case Arr(elements) => ElementsEvents(elements, config, level, log)
    case _ => log
  }

  predicate BodyStreamed(v: Json, nested: bool, config: Config, level: nat, log: seq<Event>) {
    match v
    case EmptyObj(space) => nested && Space(space)
    case EmptyArr(space) => !nested && Space(space)
    case Obj(members) => nested && MembersStreamed(members, config, level, log)
    case Arr(elements) => !nested && ElementsStreamed(elements, config, level, log)
    case _ => false
  }

  /** What is between the brackets of an object or array that is entered; its closing bracket is next. */
  lemma {:induction false} InsideBack(m: Machine, config: Config, below: seq<SubParser>, nested: bool, log: seq<Event>,
      data: string) returns (v: Json, state: State, m': Machine, rest: string)
    requires At(m, config, below, nested, InitialOpen, "", log) && Finished(Run(m, data))
    ensures BodyStreamed(v, nested, config, |below|, log) && data == Body(v, rest) && |rest| < |data|
    ensures Run(m, data) == Run(m', [CloseBracket(nested)] + rest) && (state.InitialOpen? || state.Closed?)
    ensures At(m', config, below, nested, state, "", BodyEvents(v, config, |below|, log))
    decreases |data|, 4
  {
    hide Run, At, Finished, MembersEvents, ElementsEvents, MembersStreamed, ElementsStreamed, MembersText, ElementsText;
    if nested {
      var gap, ms;
      gap, ms, m', rest := MembersBack(m, config, below, InitialOpen, log, data);
      v := if ms.None? then EmptyObj(gap) else Obj(ms.value);
      state := if ms.None? then InitialOpen else Closed;
    } else {
      var gap, es;
      gap, es, m', rest := ElementsBack(m, config, below, InitialOpen, log, data);
      v := if es.None? then EmptyArr(gap) else Arr(es.value);
      state := if es.None? then InitialOpen else Closed;
    }
  }

  lemma {:induction false} EnteredBack(m: Machine, config: Config, below: seq<SubParser>, parent: SubParser,
      isObject: bool, nested: bool, log: seq<Event>, data: string) returns (v: Json, m': Machine, rest: string)
    requires At(m, config, below + [parent], nested, InitialOpen, "", log) && Parent(parent, isObject)
    requires Finished(Run(m, data))
    ensures BodyStreamed(v, nested, config, |below| + 1, log) && data == Body(v, rest) && |rest| < |data|
    ensures Run(m, data) == Run(m', rest)
    ensures
      var events := BodyEvents(v, config, |below| + 1, log);
      At(m', config, below, isObject, Closed, "", events + [CloseEvent(|below| + 1)])
    decreases |data|, 5
  {
    hide Run, At, Finished, BodyEvents, BodyStreamed, Body;
    var state, m1;
    v, state, m1, rest := InsideBack(m, config, below + [parent], nested, log, data);
    var events := BodyEvents(v, config, |below| + 1, log);
    m' := CloseRun(m1, config, below, parent, isObject, nested, state, "", events, rest);
  }

  /** A key and its colon. */
  lemma KeyBack(m: Machine, config: Config, below: seq<SubParser>, state: State, log: seq<Event>, data: string)
      returns (s0: string, key: seq<Item>, s1: string, m': Machine, rest: string)
    requires At(m, config, below, true, state, "", log) && (state.InitialOpen? || state.Open?)
    requires Finished(Run(m, data))
    requires FeedLexer(Top(m).lexer, data, true, config.maxValue).lexer.token in {StringToken, StringOverflowToken}
    ensures Space(s0) && Space(s1) && ItemsOk(key) && StringAccepted(key, config.maxValue)
    ensures data == s0 + StringText(key, s1 + ([':'] + rest)) && |rest| < |data|
    ensures Run(m, data) == Run(m', rest) && At(m', config, below, true, ValueExpected, Tag(key, config), log)
  {
    hide Run, FeedLexer, Finished, ItemsOk, StringAccepted, HandleToken, At;
    AtElim(m, config, below, true, state, "", log);
    var l, r := NextToken(m, config, below, true, state, "", log, data);
    var t;
    s0, t := SpaceBack(Top(m).lexer, data, config.maxValue);
    TokenStart(Top(m).lexer, t, config.maxValue);
    var l', r';
    key, l', r' := StringBack(Top(m).lexer, t, config.maxValue);
    KeyHandled(m, config, below, state, log, l, key);
    var m1 := HandleToken(WithTop(m, Top(m).(lexer := l)));
    AtElim(m1, config, below, true, TagClosed, Tag(key, config), log);
    var l1, r1 := NextToken(m1, config, below, true, TagClosed, Tag(key, config), log, r);
    s1 := MarkBack(Top(m1).lexer, r, config.maxValue, ':');
    ColonHandled(m1, config, below, Tag(key, config), log);
    m', rest := HandleToken(WithTop(m1, Top(m1).(lexer := l1))), r1;
    StringLonger(key, s1 + ([':'] + rest));
  }

  lemma StringLonger(items: seq<Item>, rest: string)
    ensures |StringText(items, rest)| > |rest|
  {
    ItemsLonger(items, ['\"'] + rest);
  }

  lemma {:induction false} ItemsLonger(items: seq<Item>, rest: string)
    ensures |ItemsText(items, rest)| >= |rest|
    decreases |items|
  {
    if items != [] { ItemsLonger(items[1..], rest); }
  }

  lemma KeyHandled(m: Machine, config: Config, below: seq<SubParser>, state: State, log: seq<Event>, l: Lexer,
      key: seq<Item>)
    requires At(m, config, below, true, state, "", log) && (state.InitialOpen? || state.Open?)
    requires l.state.TokenDone? && l.token in {StringToken, StringOverflowToken} && l.unicodeIndex == 0
    requires l.unicode == 0
    requires l.value == Head(Contents(key), config.maxValue)
    ensures At(HandleToken(WithTop(m, Top(m).(lexer := l))), config, below, true, TagClosed, Tag(key, config), log)
  {
  }

  lemma ColonHandled(m: Machine, config: Config, below: seq<SubParser>, tag: string, log: seq<Event>)
    requires At(m, config, below, true, TagClosed, tag, log)
    ensures At(HandleToken(WithTop(m, Top(m).(lexer := OpenByte(Top(m).lexer, ':')))),
               config, below, true, ValueExpected, tag, log)
  {
  }

  /** Behind a value: a comma, or the closing bracket, which is left for later. */
  lemma ClosedBack(m: Machine, config: Config, below: seq<SubParser>, isObject: bool, log: seq<Event>, data: string)
      returns (space: string, more: bool, m': Machine, rest: string)
    requires At(m, config, below, isObject, Closed, "", log) && Finished(Run(m, data))
    ensures Space(space) && |rest| < |data|
    ensures data == space + ([if more then ',' else CloseBracket(isObject)] + rest)
    ensures if more then Run(m, data) == Run(m', rest) && At(m', config, below, isObject, Open, "", log)
            else Run(m, data) == Run(m', [CloseBracket(isObject)] + rest) && m' == m
  {
    hide Run, FeedLexer, Finished, HandleToken, At;
    AtElim(m, config, below, isObject, Closed, "", log);
    var l;
    l, rest := NextToken(m, config, below, isObject, Closed, "", log, data);
    more := l.token.Comma?;
    var c := if more then ',' else CloseBracket(isObject);
    space := MarkBack(Top(m).lexer, data, config.maxValue, c);
    SpaceRun(m, space, [c] + rest);
    m' := m;
    if more { m' := CommaRun(m, config, below, isObject, "", log, rest); }
  }

  /** The members of an object up to its closing bracket. */
  lemma {:induction false} MembersBack(m: Machine, config: Config, below: seq<SubParser>, state: State, log: seq<Event>,
      data: string) returns (gap: string, ms: Option<Members>, m': Machine, rest: string)
    requires At(m, config, below, true, state, "", log) && (state.InitialOpen? || state.Open?)
    requires Finished(Run(m, data))
    ensures |rest| < |data| && Run(m, data) == Run(m', ['}'] + rest)
    ensures ms.None? ==> state.InitialOpen? && Space(gap) && data == gap + (['}'] + rest) && m' == m
    ensures ms.Some? ==> MembersStreamed(ms.value, config, |below|, log) && data == MembersText(ms.value, ['}'] + rest)
    ensures ms.Some? ==> At(m', config, below, true, Closed, "", MembersEvents(ms.value, config, |below|, log))
    decreases |data|, 3
  {
    hide Run, FeedLexer, Finished, HandleToken, At, Streamed, Events, Text, StringText, ItemsOk, StringAccepted;
    AtElim(m, config, below, true, state, "", log);
    var l, r := NextToken(m, config, below, true, state, "", log, data);
    if l.token.RightBrace? {
      gap := MarkBack(Top(m).lexer, data, config.maxValue, '}');
      ms, m', rest := None, m, r;
      SpaceRun(m, gap, ['}'] + rest);
    } else {
      var s0, key, s1, m1, r1 := KeyBack(m, config, below, state, log, data);
      var tag := Tag(key, config);
      AtElim(m1, config, below, true, ValueExpected, tag, log);
      var l1, r2 := NextToken(m1, config, below, true, ValueExpected, tag, log, r1);
      var s2, v, m2, r3 := ValueBack(m1, config, below, true, ValueExpected, tag, log, r1);
      var log' := Events(v, config, |below|, Some(tag), log);
      var s3, more;
      s3, more, m', rest := ClosedBack(m2, config, below, true, log', r3);
      var x := Member(s0, key, s1, s2, v, s3);
      gap := [];
      if more {
        var tail;
        gap, tail, m', rest := MembersBack(m', config, below, Open, log', rest);
        ms := Some(MoreMembers(x, tail.value));
      } else {
        ms := Some(LastMember(x));
      }
    }
  }

  /** The elements of an array up to its closing bracket. */
  lemma {:induction false} ElementsBack(m: Machine, config: Config, below: seq<SubParser>, state: State,
      log: seq<Event>,
      data: string) returns (gap: string, es: Option<Elements>, m': Machine, rest: string)
    requires At(m, config, below, false, state, "", log) && (state.InitialOpen? || state.Open?)
    requires Finished(Run(m, data))
    ensures |rest| < |data| && Run(m, data) == Run(m', [']'] + rest)
    ensures es.None? ==> state.InitialOpen? && Space(gap) && data == gap + ([']'] + rest) && m' == m
    ensures es.Some? ==>
              ElementsStreamed(es.value, config, |below|, log) && data == ElementsText(es.value, [']'] + rest)
    ensures es.Some? ==> At(m', config, below, false, Closed, "", ElementsEvents(es.value, config, |below|, log))
    decreases |data|, 3
  {
    hide Run, FeedLexer, Finished, HandleToken, At, Streamed, Events, Text;
    AtElim(m, config, below, false, state, "", log);
    var l, r := NextToken(m, config, below, false, state, "", log, data);
    if l.token.RightBracket? {
      gap := MarkBack(Top(m).lexer, data, config.maxValue, ']');
      es, m', rest := None, m, r;
      SpaceRun(m, gap, [']'] + rest);
    } else {
      var s0, v, m1, r1 := ValueBack(m, config, below, false, state, "", log, data);
      var log' := Events(v, config, |below|, None, log);
      var s1, more;
      s1, more, m', rest := ClosedBack(m1, config, below, false, log', r1);
      var x := Element(s0, v, s1);
      gap := [];
      if more {
        var tail;
        gap, tail, m', rest := ElementsBack(m', config, below, Open, log', rest);
        es := Some(MoreElements(x, tail.value));
      } else {
        es := Some(LastElement(x));
      }
    }
  }

  // ---------------------------------------------------------------------------------------------
  // Main results
  // ---------------------------------------------------------------------------------------------

  /** Whatever text the parser reads to its end without a parse error is one of the grammar, with white
      space before it and anything behind it, and the callbacks are those that the grammar calls for. */
  lemma TextBack(config: Config, isObject: bool, data: string) returns (space: string, v: Json, rest: string)
    requires 1 <= config.maxValue && Quiet(config) && Finished(Run(Initial(config, isObject), data))
    ensures Space(space) && TextStreamed(v, isObject, config) && data == space + Text(v, rest)
    ensures Run(Initial(config, isObject), data) == Machine(config, [], TextEvents(v, config))
  {
    hide Run, FeedLexer, Finished, HandleToken, At, Text, MembersEvents, ElementsEvents, MembersStreamed;
    hide ElementsStreamed;
    var start := Initial(config, isObject);
    InitialAt(config, isObject);
    var l, inner := NextToken(start, config, [], isObject, Init, "", [], data);
    space := MarkBack(Top(start).lexer, data, config.maxValue, OpenBracket(isObject));
    SpaceRun(start, space, [OpenBracket(isObject)] + inner);
    var m := StartRun(config, isObject, inner);
    var state, m';
    v, state, m', rest := InsideBack(m, config, [], isObject, [], inner);
    FinishRun(m', config, isObject, state, "", BodyEvents(v, config, 0, []), rest);
    BodyText(v, rest);
  }

  lemma InitialAt(config: Config, isObject: bool)
    requires 1 <= config.maxValue && Quiet(config)
    ensures At(Initial(config, isObject), config, [], isObject, Init, "", [])
  {
  }

  // ---------------------------------------------------------------------------------------------
  // Every text of the grammar is read
  // ---------------------------------------------------------------------------------------------

  lemma {:induction false} TornDigits(l: Lexer, digits: string, last: char, rest: string, maxValue: nat)
    requires l.state.UnicodeValueOpen? && l.unicodeIndex + |digits| < 4 && AllHex(digits) && HexValue(last).None?
    ensures FeedLexer(l, digits + ([last] + rest), false, maxValue)
         == Fed(FoundToken(l.(unicodeIndex := 0, unicode := 0), ErrorToken), rest)
    decreases |digits|
  {
    hide FeedLexer;
    if digits == [] {
      assert digits + ([last] + rest) == [last] + rest;
      FeedOne(l, last, rest, false, maxValue);
      FeedDone(FoundToken(l.(unicodeIndex := 0, unicode := 0), ErrorToken), rest, false, maxValue);
    } else {
      var tail := digits[1..] + ([last] + rest);
      assert digits + ([last] + rest) == [digits[0]] + tail;
      FeedOne(l, digits[0], tail, false, maxValue);
      TornDigits(LexByte(l, digits[0], false, maxValue).lexer, digits[1..], last, rest, maxValue);
    }
  }

  lemma {:induction false} LexTorn(l: Lexer, items: seq<Item>, digits: string, last: char, rest: string, maxValue: nat)
      returns (l': Lexer)
    requires InString(l) && ItemsOk(items) && l.value == "" && 1 <= maxValue && Torn(digits, last)
    ensures FeedLexer(l, ItemsText(items, TornText(digits, last, rest)), false, maxValue) == Fed(l', rest)
    ensures l'.state.TokenDone? && l'.unicodeIndex == 0 && l'.unicode == 0 && l'.value == "" && l'.token.ErrorToken?
    decreases |items|
  {
    hide FeedLexer;
    if items == [] {
      var tail := digits + ([last] + rest);
      FeedOne(l, '\\', ['u'] + tail, false, maxValue);
      FeedOne(l.(state := StringOpenAndEscaped), 'u', tail, false, maxValue);
      var l1 := l.(state := UnicodeValueOpen);
      TornDigits(l1, digits, last, rest, maxValue);
      l' := FoundToken(l1, ErrorToken);
    } else {
      LexItem(l, items[0], ItemsText(items[1..], TornText(digits, last, rest)), false, maxValue);
      l' := LexTorn(AfterItem(l, items[0], false, maxValue), items[1..], digits, last, rest, maxValue);
    }
  }

  lemma TornRun(m: Machine, base: Machine, depth: nat, p: Piece, rest: string) returns (m': Machine)
    requires base.levels != [] && Skipping(m, base, depth) && p.TornString? && ItemsOk(p.items)
    requires Torn(p.digits, p.last)
    ensures Run(m, PieceText(p, rest)) == Run(m', rest) && Skipping(m', base, depth)
  {
    hide HandleToken, LexByte, FeedLexer;
    SkipQuote(m, base, depth);
    var m1 := Flush(m, '\"');
    var m2 := StepByte(m, '\"');
    var text := ItemsText(p.items, TornText(p.digits, p.last, rest));
    assert PieceText(p, rest)[1..] == text;
    var l := LexTorn(Top(m2).lexer, p.items, p.digits, p.last, rest, base.config.maxValue);
    FeedLexerIsRun(m2, text);
    SkipOtherToken(m1, base, depth, l);
    m' := HandleToken(WithTop(m2, Top(m2).(lexer := l)));
    assert WithTop(m2, Top(m2).(lexer := l)) == WithTop(m1, Top(m1).(lexer := l));
  }

  lemma {:induction false} PiecesRun(m: Machine, base: Machine, depth: nat, pieces: seq<Piece>, rest: string)
      returns (m': Machine)
    requires base.levels != [] && Skipping(m, base, depth)
    requires Balanced(Top(base).state.SkipNestedObject?, pieces, depth)
    ensures var c := CloseBracket(Top(base).state.SkipNestedObject?);
      Run(m, PiecesText(pieces, [c] + rest)) == Run(m', rest)
    ensures m'.levels != [] && Fresh(Top(m').lexer)
    ensures m' == WithTop(base, Top(base).(state := Closed, lexer := Top(m').lexer))
    decreases |pieces|
  {
    hide StepByte;
    var end := [CloseBracket(Top(base).state.SkipNestedObject?)] + rest;
    if pieces == [] {
      SkipRight(m, base, depth);
      m' := StepByte(m, end[0]);
      assert end[1..] == rest;
    } else {
      var tail := PiecesText(pieces[1..], end);
      match pieces[0]
      case Single(c) =>
        assert ([c] + tail)[1..] == tail;
        if c == LeftMark(base) {
          SkipLeftWraps(m, base, depth);
          m' := PiecesRun(StepByte(m, c), base, (depth + 1) % SKIP_MODULUS, pieces[1..], rest);
        } else if c == RightMark(base) {
          SkipRight(m, base, depth);
          m' := PiecesRun(StepByte(m, c), base, depth - 1, pieces[1..], rest);
        } else {
          SkipHarmless(m, base, depth, c);
          m' := PiecesRun(StepByte(m, c), base, depth, pieces[1..], rest);
        }
      case WholeString(items) =>
        var m1 := SkipString(m, base, depth, items, tail);
        m' := PiecesRun(m1, base, depth, pieces[1..], rest);
      case TornString(_, _, _) =>
        var m1 := TornRun(m, base, depth, pieces[0], tail);
        m' := PiecesRun(m1, base, depth, pieces[1..], rest);
    }
  }

  /** A value of the grammar makes its callbacks, and the parser goes on behind it. */
  lemma {:induction false} StreamedRun(m: Machine, config: Config, below: seq<SubParser>, isObject: bool, state: State,
      tag: string, log: seq<Event>, v: Json, rest: string) returns (m': Machine)
    requires At(m, config, below, isObject, state, tag, log) && ValueState(isObject, state) && Ends(rest)
    requires Streamed(v, config, |below|, TagOf(isObject, tag), log)
    ensures Run(m, Text(v, rest)) == Run(m', rest)
    ensures At(m', config, below, isObject, Closed, "", Events(v, config, |below|, TagOf(isObject, tag), log))
    decreases v, 3
  {
    hide Run, HandleToken, At, Events, Text;
    if Scalar(v) {
      m' := ScalarStreamedRun(m, config, below, isObject, state, tag, log, v, rest);
    } else {
      m' := NestedStreamedRun(m, config, below, isObject, state, tag, log, v, rest);
    }
  }

  lemma ScalarStreamedRun(m: Machine, config: Config, below: seq<SubParser>, isObject: bool, state: State,
      tag: string, log: seq<Event>, v: Json, rest: string) returns (m': Machine)
    requires At(m, config, below, isObject, state, tag, log) && ValueState(isObject, state) && Ends(rest)
    requires Streamed(v, config, |below|, TagOf(isObject, tag), log) && Scalar(v)
    ensures Run(m, Text(v, rest)) == Run(m', rest)
    ensures At(m', config, below, isObject, Closed, "", Events(v, config, |below|, TagOf(isObject, tag), log))
  {
    hide HandleToken, FeedLexer, Run, At;
    AtElim(m, config, below, isObject, state, tag, log);
    AtIsValid(m, config, below, isObject, state, tag, log);
    var l: Lexer;
    match v {
      case Null => l := LexLiteral(Top(m).lexer, "null", rest, config.maxValue);
      case Bool(flag) => l := LexLiteral(Top(m).lexer, if flag then "true" else "false", rest, config.maxValue);
      case Num(_, _, _, _) => l := LexNumber(Top(m).lexer, v, rest, config.maxValue);
      case Str(items) => l := LexStringText(Top(m).lexer, items, rest, config.maxValue);
    }
    RunToken(m, Text(v, rest), l, rest);
    ScalarHandled(m, config, below, isObject, state, tag, log, l);
    m' := HandleToken(WithTop(m, Top(m).(lexer := l)));
  }

  lemma {:induction false} NestedStreamedRun(m: Machine, config: Config, below: seq<SubParser>, isObject: bool,
      state: State, tag: string, log: seq<Event>, v: Json, rest: string) returns (m': Machine)
    requires At(m, config, below, isObject, state, tag, log) && ValueState(isObject, state) && !Scalar(v)
    requires Streamed(v, config, |below|, TagOf(isObject, tag), log)
    ensures Run(m, Text(v, rest)) == Run(m', rest)
    ensures At(m', config, below, isObject, Closed, "", Events(v, config, |below|, TagOf(isObject, tag), log))
    decreases v, 2
  {
    hide Run, HandleToken, At, Text, MembersEvents, ElementsEvents, MembersStreamed, ElementsStreamed, Balanced;
    var nested := IsObject(v);
    var inner := if v.Skipped? then PiecesText(v.pieces, [CloseBracket(nested)] + rest) else Body(v, rest);
    BodyText(v, rest);
    AtFresh(m, config, below, isObject, state, tag, log);
    PunctuationRun(m, OpenBracket(nested), inner);
    var m1, parent := OpenHandled(m, config, below, isObject, state, tag, log, nested);
    var asked := Asked(v, |below|, TagOf(isObject, tag), log);
    if v.Skipped? {
      m' := SkippedPiecesRun(m1, config, below, isObject, nested,
                             if |below| + 1 >= config.maxNesting then log else asked, v.pieces, rest);
    } else {
      m' := EnteredStreamedRun(m1, config, below, parent, isObject, asked, v, rest);
    }
  }

  lemma SkippedPiecesRun(m: Machine, config: Config, below: seq<SubParser>, isObject: bool, nested: bool,
      log: seq<Event>, pieces: seq<Piece>, rest: string) returns (m': Machine)
    requires At(m, config, below, isObject, if nested then SkipNestedObject else SkipNestedArray, "", log)
    requires Balanced(nested, pieces, 0)
    ensures Run(m, PiecesText(pieces, [CloseBracket(nested)] + rest)) == Run(m', rest)
    ensures At(m', config, below, isObject, Closed, "", log)
  {
    hide Run, Balanced;
    AtIsValid(m, config, below, isObject, Top(m).state, "", log);
    assert m == WithTop(m, Top(m));
    assert Skipping(m, m, 0);
    m' := PiecesRun(m, m, 0, pieces, rest);
  }

  /** What is between the brackets, up to the closing one. */
  lemma {:induction false} InsideRun(m: Machine, config: Config, below: seq<SubParser>, log: seq<Event>, v: Json,
      rest: string) returns (state: State, m': Machine)
    requires IsObject(v) || IsArray(v)
    requires At(m, config, below, IsObject(v), InitialOpen, "", log)
    requires BodyStreamed(v, IsObject(v), config, |below|, log)
    ensures Run(m, Body(v, rest)) == Run(m', [CloseBracket(IsObject(v))] + rest)
    ensures (state.InitialOpen? || state.Closed?)
    ensures At(m', config, below, IsObject(v), state, "", BodyEvents(v, config, |below|, log))
    decreases v, 0
  {
    hide Run, At, MembersEvents, ElementsEvents, MembersStreamed, ElementsStreamed;
    AtFresh(m, config, below, IsObject(v), InitialOpen, "", log);
    state, m' := InitialOpen, m;
    match v
    case EmptyObj(space) => SpaceRun(m, space, ['}'] + rest);
    case EmptyArr(space) => SpaceRun(m, space, [']'] + rest);
    case Obj(members) =>
      m' := MembersStreamedRun(m, config, below, InitialOpen, log, members, ['}'] + rest);
      state := Closed;
    case Arr(elements) =>
      m' := ElementsStreamedRun(m, config, below, InitialOpen, log, elements, [']'] + rest);
      state := Closed;
  }

  lemma {:induction false} EnteredStreamedRun(m: Machine, config: Config, below: seq<SubParser>, parent: SubParser,
      isObject: bool, log: seq<Event>, v: Json, rest: string) returns (m': Machine)
    requires At(m, config, below + [parent], IsObject(v), InitialOpen, "", log) && Parent(parent, isObject)
    requires (IsObject(v) || IsArray(v)) && BodyStreamed(v, IsObject(v), config, |below| + 1, log)
    ensures Run(m, Body(v, rest)) == Run(m', rest)
    ensures
      var events := BodyEvents(v, config, |below| + 1, log);
      At(m', config, below, isObject, Closed, "", events + [CloseEvent(|below| + 1)])
    decreases v, 1
  {
    hide Run, At, BodyEvents, BodyStreamed, Body;
    var state, m1 := InsideRun(m, config, below + [parent], log, v, rest);
    m' := CloseRun(m1, config, below, parent, isObject, IsObject(v), state, "",
                   BodyEvents(v, config, |below| + 1, log), rest);
  }

  lemma {:induction false} MembersStreamedRun(m: Machine, config: Config, below: seq<SubParser>, state: State,
      log: seq<Event>, ms: Members, rest: string) returns (m': Machine)
    requires At(m, config, below, true, state, "", log) && (state.InitialOpen? || state.Open?) && Ends(rest)
    requires MembersStreamed(ms, config, |below|, log)
    ensures Run(m, MembersText(ms, rest)) == Run(m', rest)
    ensures At(m', config, below, true, Closed, "", MembersEvents(ms, config, |below|, log))
    decreases ms
  {
    hide Run, At, Text, Streamed, Events;
    var x := ms.member;
    var after := if ms.LastMember? then rest else [','] + MembersText(ms.members, rest);
    var m1 := KeyRun(m, config, below, state, log, x, Text(x.value, x.s3 + after));
    EndsAfterSpace(x.s3, after);
    var tag := Tag(x.key, config);
    m' := StreamedRun(m1, config, below, true, ValueExpected, tag, log, x.value, x.s3 + after);
    var log' := Events(x.value, config, |below|, Some(tag), log);
    AtFresh(m', config, below, true, Closed, "", log');
    SpaceRun(m', x.s3, after);
    if ms.MoreMembers? {
      m' := CommaRun(m', config, below, true, "", log', MembersText(ms.members, rest));
      m' := MembersStreamedRun(m', config, below, Open, log', ms.members, rest);
    }
  }

  lemma {:induction false} ElementsStreamedRun(m: Machine, config: Config, below: seq<SubParser>, state: State,
      log: seq<Event>, es: Elements, rest: string) returns (m': Machine)
    requires At(m, config, below, false, state, "", log) && (state.InitialOpen? || state.Open?) && Ends(rest)
    requires ElementsStreamed(es, config, |below|, log)
    ensures Run(m, ElementsText(es, rest)) == Run(m', rest)
    ensures At(m', config, below, false, Closed, "", ElementsEvents(es, config, |below|, log))
    decreases es
  {
    hide Run, At, Text, Streamed, Events;
    var x := es.element;
    var after := if es.LastElement? then rest else [','] + ElementsText(es.elements, rest);
    AtFresh(m, config, below, false, state, "", log);
    SpaceRun(m, x.s0, Text(x.value, x.s1 + after));
    EndsAfterSpace(x.s1, after);
    m' := StreamedRun(m, config, below, false, state, "", log, x.value, x.s1 + after);
    var log' := Events(x.value, config, |below|, None, log);
    AtFresh(m', config, below, false, Closed, "", log');
    SpaceRun(m', x.s1, after);
    if es.MoreElements? {
      m' := CommaRun(m', config, below, false, "", log', ElementsText(es.elements, rest));
      m' := ElementsStreamedRun(m', config, below, Open, log', es.elements, rest);
    }
  }

  lemma TextStreamedRun(config: Config, isObject: bool, space: string, v: Json, rest: string)
    requires 1 <= config.maxValue && Quiet(config) && Space(space) && TextStreamed(v, isObject, config)
    ensures Run(Initial(config, isObject), space + Text(v, rest)) == Machine(config, [], TextEvents(v, config))
  {
    hide Run, HandleToken, At, Text, MembersEvents, ElementsEvents, MembersStreamed, ElementsStreamed, Body;
    BodyText(v, rest);
    SpaceRun(Initial(config, isObject), space, Text(v, rest));
    var m := StartRun(config, isObject, Body(v, rest));
    var state, m' := InsideRun(m, config, [], [], v, rest);
    FinishRun(m', config, isObject, state, "", BodyEvents(v, config, 0, []), rest);
  }

  /** `data` is a text of the grammar, with white space before it and anything behind it. */
  predicate IsTextOf(data: string, isObject: bool, config: Config, space: string, v: Json, rest: string) {
    Space(space) && TextStreamed(v, isObject, config) && data == space + Text(v, rest)
  }

  ghost predicate NoError(log: seq<Event>) { forall e :: e in log ==> !e.ParseErrorEvent? }

  /** The callbacks of a value are no parse errors. */
  lemma {:induction false} EventsAreNoErrors(v: Json, config: Config, level: nat, tag: Option<string>, log: seq<Event>)
    requires NoError(log)
    ensures NoError(Events(v, config, level, tag, log))
    decreases v
  {
    match v
    case Obj(members) => MembersEventsAreNoErrors(members, config, level + 1, log + [VisitObject(level, tag)]);
    case Arr(elements) => ElementsEventsAreNoErrors(elements, config, level + 1, log + [VisitArray(level, tag)]);
    case _ =>
  }

  lemma {:induction false} MembersEventsAreNoErrors(ms: Members, config: Config, level: nat, log: seq<Event>)
    requires NoError(log)
    ensures NoError(MembersEvents(ms, config, level, log))
    decreases ms
  {
    hide NoError;
    var tag := Some(Tag(ms.member.key, config));
    EventsAreNoErrors(ms.member.value, config, level, tag, log);
    if ms.MoreMembers? {
      MembersEventsAreNoErrors(ms.members, config, level, Events(ms.member.value, config, level, tag, log));
    }
  }

  lemma {:induction false} ElementsEventsAreNoErrors(es: Elements, config: Config, level: nat, log: seq<Event>)
    requires NoError(log)
    ensures NoError(ElementsEvents(es, config, level, log))
    decreases es
  {
    hide NoError;
    EventsAreNoErrors(es.element.value, config, level, None, log);
    if es.MoreElements? {
      ElementsEventsAreNoErrors(es.elements, config, level, Events(es.element.value, config, level, None, log));
    }
  }

  lemma TextEventsAreNoErrors(v: Json, config: Config)
    ensures Finished(Machine(config, [], TextEvents(v, config)))
  {
    hide MembersEvents, ElementsEvents;
    match v
    case Obj(members) => MembersEventsAreNoErrors(members, config, 0, []);
    case Arr(elements) => ElementsEventsAreNoErrors(elements, config, 0, []);
    case _ =>
  }

  /** The parser reads exactly the texts of the grammar: it comes to its end without a parse error if and
      only if it was fed one, and then it has made the callbacks that the grammar calls for. */
  lemma ReadsExactlyGrammar(config: Config, isObject: bool, data: string)
    requires 1 <= config.maxValue && Quiet(config)
    ensures var m := Run(Initial(config, isObject), data);
      && (Finished(m) <==> exists space, v, rest :: IsTextOf(data, isObject, config, space, v, rest))
      && (forall space, v, rest :: IsTextOf(data, isObject, config, space, v, rest) ==>
            m == Machine(config, [], TextEvents(v, config)))
  {
    hide Run, Finished, Text, TextStreamed, TextEvents;
    var m := Run(Initial(config, isObject), data);
    forall space, v, rest | IsTextOf(data, isObject, config, space, v, rest)
      ensures m == Machine(config, [], TextEvents(v, config)) && Finished(m)
    {
      TextStreamedRun(config, isObject, space, v, rest);
      TextEventsAreNoErrors(v, config);
    }
    if Finished(m) {
      var space, v, rest := TextBack(config, isObject, data);
      assert IsTextOf(data, isObject, config, space, v, rest);
    }
  }

  // ---------------------------------------------------------------------------------------------
  // Every other text is refused, or not complete
  // ---------------------------------------------------------------------------------------------

  /** No level has raised a semantic error, and no parse error is reported. */
  ghost predicate Healthy(m: Machine) {
    && Quiet(m.config) && NoError(m.log)
    && forall i :: 0 <= i < |m.levels| ==> !m.levels[i].state.SemanticError?
  }

  /** Healthy, or at its end with a parse error to every level that was open. */
  ghost predicate HealthyOrDead(m: Machine) {
    Healthy(m) || exists log, level :: NoError(log) && m == Dead(m.config, log, level)
  }

  lemma ReportOutcome(m: Machine)
    requires Healthy(m)
    ensures HealthyOrDead(Report(m)) && Report(m).config == m.config
  {
    hide ParseErrors;
    if m.levels != [] && Top(m).state.ParseError? {
      assert Report(m) == Dead(m.config, m.log, |m.levels| - 1);
    }
  }

  lemma HandledIsHealthy(m: Machine)
    requires Healthy(m) && m.levels != []
    ensures Healthy(HandleTokenUnreported(m).machine) && HandleTokenUnreported(m).machine.config == m.config
  {
    HandledObjectIsHealthy(m);
    HandledArrayIsHealthy(m);
  }

  lemma CallIsHealthy(m: Machine, e: Event)
    requires Healthy(m) && !e.ParseErrorEvent?
    ensures Healthy(Call(m, e)) && Call(m, e) == m.(log := m.log + [e])
  {
    QuietCall(m, e);
  }

  lemma OpenIsHealthy(m: Machine, nested: bool, tag: Option<string>)
    requires Healthy(m) && m.levels != []
    ensures Healthy(OpenNested(m, nested, tag)) && OpenNested(m, nested, tag).config == m.config
    ensures |OpenNested(m, nested, tag).levels| >= |m.levels|
  {
    var below := m.levels[..|m.levels| - 1];
    assert m.levels == below + [Top(m)];
    OpenNestedLevels(m, below, Top(m), nested, tag);
  }

  lemma HandledObjectIsHealthy(m: Machine)
    requires Healthy(m) && m.levels != []
    ensures Healthy(HandleObjectToken(m).machine) && HandleObjectToken(m).machine.config == m.config
  {
    hide OpenNested, Call, Quiet;
    var level := |m.levels| - 1;
    var tag := Some(Top(m).tag);
    var lexer := Top(m).lexer;
    var closed := WithTop(m, Top(m).(state := Closed, tag := ""));
    assert Healthy(closed);
    CallIsHealthy(closed, VisitString(level, tag, lexer.value));
    CallIsHealthy(closed, StringOverflowEvent(level));
    CallIsHealthy(closed, VisitNumber(level, tag, lexer.sign * lexer.number));
    CallIsHealthy(closed, VisitBoolean(level, tag, false));
    CallIsHealthy(closed, VisitBoolean(level, tag, true));
    CallIsHealthy(closed, VisitNull(level, tag));
    CallIsHealthy(m, CloseEvent(level));
    OpenIsHealthy(m, true, tag);
    OpenIsHealthy(m, false, tag);
  }

  lemma HandledArrayIsHealthy(m: Machine)
    requires Healthy(m) && m.levels != []
    ensures Healthy(HandleArrayToken(m).machine) && HandleArrayToken(m).machine.config == m.config
  {
    hide OpenNested, Call, Quiet;
    var level := |m.levels| - 1;
    var lexer := Top(m).lexer;
    var closed := WithTop(m, Top(m).(state := Closed));
    var cleared := WithTop(m, Top(m).(state := Closed, tag := ""));
    assert Healthy(closed) && Healthy(cleared);
    CallIsHealthy(closed, VisitString(level, None, lexer.value));
    CallIsHealthy(closed, StringOverflowEvent(level));
    CallIsHealthy(closed, VisitBoolean(level, None, false));
    CallIsHealthy(closed, VisitBoolean(level, None, true));
    CallIsHealthy(closed, VisitNull(level, None));
    CallIsHealthy(cleared, VisitNumber(level, None, lexer.sign * lexer.number));
    CallIsHealthy(closed, CloseEvent(level));
    OpenIsHealthy(m, true, None);
    OpenIsHealthy(m, false, None);
  }

  lemma HandleOutcome(m: Machine)
    requires Healthy(m) && m.levels != []
    ensures HealthyOrDead(HandleToken(m)) && HandleToken(m).config == m.config
  {
    hide HandleTokenUnreported, Report, Healthy;
    HandledIsHealthy(m);
    ReportOutcome(HandleTokenUnreported(m).machine);
  }

  lemma LexedIsHealthy(m: Machine, l: Lexer)
    requires Healthy(m) && m.levels != []
    ensures Healthy(WithTop(m, Top(m).(lexer := l)))
  {
  }

  lemma StepOutcome(m: Machine, c: char)
    requires HealthyOrDead(m)
    ensures HealthyOrDead(StepByte(m, c)) && StepByte(m, c).config == m.config
  {
    hide HandleToken, LexByte, ParseErrors;
    if m.levels != [] {
      assert !Top(m).state.SemanticError?;
      hide Healthy;
      LexedIsHealthy(m, LexTop(m, c).lexer);
      HandleOutcome(WithTop(m, Top(m).(lexer := LexTop(m, c).lexer)));
      var m1 := Flush(m, c);
      if m1.levels != [] {
        LexedIsHealthy(m1, LexTop(m1, c).lexer);
        HandleOutcome(WithTop(m1, Top(m1).(lexer := LexTop(m1, c).lexer)));
      }
    }
  }

  lemma {:induction false} RunOutcome(m: Machine, data: string)
    requires HealthyOrDead(m)
    ensures HealthyOrDead(Run(m, data)) && Run(m, data).config == m.config
    decreases |data|
  {
    hide StepByte, HealthyOrDead;
    if data != [] {
      StepOutcome(m, data[0]);
      RunOutcome(StepByte(m, data[0]), data[1..]);
    }
  }

  /** What becomes of any text whatever: it is not complete yet, or it is one of the grammar, or a parse
      error is reported to every level that is open, after callbacks that are no errors. */
  lemma AnyText(config: Config, isObject: bool, data: string)
    requires 1 <= config.maxValue && Quiet(config)
    ensures var m := Run(Initial(config, isObject), data);
      || m.levels != []
      || (exists space, v, rest :: IsTextOf(data, isObject, config, space, v, rest))
      || (exists log, level :: NoError(log) && m == Dead(config, log, level))
  {
    hide Run, ParseErrors, Text, TextStreamed;
    var start := Initial(config, isObject);
    assert Healthy(start);
    RunOutcome(start, data);
    ReadsExactlyGrammar(config, isObject, data);
  }

  // ---------------------------------------------------------------------------------------------
  // Some texts that are refused
  // ---------------------------------------------------------------------------------------------

  /** The first token of a value of the grammar. */
  lemma ValueTokenOf(m: Machine, v: Json, rest: string, config: Config, level: nat, tag: Option<string>,
      log: seq<Event>)
      returns (l: Lexer, rest': string)
    requires m.levels != [] && Fresh(Top(m).lexer) && 1 <= config.maxValue && Ends(rest)
    requires Streamed(v, config, level, tag, log)
    ensures FeedLexer(Top(m).lexer, Text(v, rest), true, config.maxValue) == Fed(l, rest')
    ensures l.state.TokenDone? && ValueToken(l.token)
  {
    hide FeedLexer, Streamed;
    var l0 := Top(m).lexer;
    if Scalar(v) {
      StreamedScalar(v, config, level, tag, log);
      rest' := rest;
      match v {
        case Null => l := LexLiteral(l0, "null", rest, config.maxValue);
        case Bool(flag) => l := LexLiteral(l0, if flag then "true" else "false", rest, config.maxValue);
        case Num(_, _, _, _) => l := LexNumber(l0, v, rest, config.maxValue);
        case Str(items) => l := LexStringText(l0, items, rest, config.maxValue);
      }
    } else {
      BodyText(v, rest);
      rest' := Text(v, rest)[1..];
      var c := OpenBracket(IsObject(v));
      FeedOne(l0, c, rest', true, config.maxValue);
      l := OpenByte(l0, c);
      FeedDone(l, rest', true, config.maxValue);
    }
  }

  lemma StreamedScalar(v: Json, config: Config, level: nat, tag: Option<string>, log: seq<Event>)
    requires Streamed(v, config, level, tag, log)
    ensures v.Null? ==> LiteralAccepted("null", config.maxValue)
    ensures v.Bool? ==> LiteralAccepted(if v.flag then "true" else "false", config.maxValue)
    ensures v.Num? ==> StreamedNumber(v)
    ensures v.Str? ==> ItemsOk(v.items) && StringAccepted(v.items, config.maxValue)
  {
  }

  /** A token that is not expected ends the run, whatever follows. */
  lemma RefusedRun(m: Machine, config: Config, below: seq<SubParser>, isObject: bool, state: State, tag: string,
      log: seq<Event>, text: string, l: Lexer, rest: string)
    requires At(m, config, below, isObject, state, tag, log) && Awaiting(isObject, state)
    requires FeedLexer(Top(m).lexer, text, true, config.maxValue) == Fed(l, rest) && l.state.TokenDone?
    requires !Expected(isObject, state, l.token)
    ensures Run(m, text) == Dead(config, log, |below|)
  {
    hide HandleToken, FeedLexer, Run, At, Dead;
    AtElim(m, config, below, isObject, state, tag, log);
    AtIsValid(m, config, below, isObject, state, tag, log);
    RunToken(m, text, l, rest);
    Refused(m, config, below, isObject, state, tag, log, l);
    DeadStays(config, log, |below|, rest);
  }

  lemma DeadStays(config: Config, log: seq<Event>, level: nat, rest: string)
    ensures Run(Dead(config, log, level), rest) == Dead(config, log, level)
  {
    RunDead(Dead(config, log, level), rest);
  }

  /** Two values in an array without a comma between them: the first is reported, then the error. */
  lemma MissingComma(config: Config, v: Json, space: string, w: Json, rest: string)
    requires 1 <= config.maxValue && Quiet(config) && Streamed(v, config, 0, None, []) && Space(space) && space != []
    requires Streamed(w, config, 0, None, Events(v, config, 0, None, [])) && Ends(rest)
    ensures Run(Initial(config, false), ['['] + Text(v, space + Text(w, rest)))
         == Dead(config, Events(v, config, 0, None, []), 0)
  {
    hide Run, FeedLexer, Text, Streamed, Events, At, Dead;
    var after := space + Text(w, rest);
    assert after[0] == space[0];
    var m := StartRun(config, false, Text(v, after));
    var m1 := StreamedRun(m, config, [], false, InitialOpen, "", [], v, after);
    var log := Events(v, config, 0, None, []);
    AtElim(m1, config, [], false, Closed, "", log);
    SpaceRun(m1, space, Text(w, rest));
    var l, r := ValueTokenOf(m1, w, rest, config, 0, None, log);
    RefusedRun(m1, config, [], false, Closed, "", log, Text(w, rest), l, r);
  }

  /** A comma without a value behind it. */
  lemma TrailingComma(config: Config, v: Json, space: string, rest: string)
    requires 1 <= config.maxValue && Quiet(config) && Streamed(v, config, 0, None, []) && Space(space)
    ensures Run(Initial(config, false), ['['] + Text(v, [','] + (space + ([']'] + rest))))
         == Dead(config, Events(v, config, 0, None, []), 0)
  {
    hide Run, FeedLexer, Text, Streamed, Events, At, Dead;
    var after := [','] + (space + ([']'] + rest));
    var m := StartRun(config, false, Text(v, after));
    var m1 := StreamedRun(m, config, [], false, InitialOpen, "", [], v, after);
    var log := Events(v, config, 0, None, []);
    var m2 := CommaRun(m1, config, [], false, "", log, space + ([']'] + rest));
    AtElim(m2, config, [], false, Open, "", log);
    SpaceRun(m2, space, [']'] + rest);
    var l0 := Top(m2).lexer;
    FeedOne(l0, ']', rest, true, config.maxValue);
    FeedDone(OpenByte(l0, ']'), rest, true, config.maxValue);
    RefusedRun(m2, config, [], false, Open, "", log, [']'] + rest, OpenByte(l0, ']'), rest);
  }

  /** A key without a colon behind it. */
  lemma MissingColon(config: Config, key: seq<Item>, space: string, v: Json, rest: string)
    requires 1 <= config.maxValue && Quiet(config) && ItemsOk(key) && StringAccepted(key, config.maxValue)
    requires Space(space) && Streamed(v, config, 0, None, []) && Ends(rest)
    ensures Run(Initial(config, true), ['{'] + StringText(key, space + Text(v, rest))) == Dead(config, [], 0)
  {
    hide Run, FeedLexer, Text, Streamed, At, Dead, HandleToken, StringText, ItemsOk, StringAccepted;
    var after := space + Text(v, rest);
    var m := StartRun(config, true, StringText(key, after));
    AtElim(m, config, [], true, InitialOpen, "", []);
    AtIsValid(m, config, [], true, InitialOpen, "", []);
    var l := LexStringText(Top(m).lexer, key, after, config.maxValue);
    RunToken(m, StringText(key, after), l, after);
    KeyHandled(m, config, [], InitialOpen, [], l, key);
    var m1 := HandleToken(WithTop(m, Top(m).(lexer := l)));
    AtElim(m1, config, [], true, TagClosed, Tag(key, config), []);
    SpaceRun(m1, space, Text(v, rest));
    var l1, r1 := ValueTokenOf(m1, v, rest, config, 0, None, []);
    RefusedRun(m1, config, [], true, TagClosed, Tag(key, config), [], Text(v, rest), l1, r1);
  }
}
