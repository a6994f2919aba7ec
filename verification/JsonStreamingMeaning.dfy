/** What the streaming parser makes of a well-formed JSON text (RFC 8259): which callbacks a visitor
    receives, and that a value nobody wants is skipped exactly. */
module JsonStreamingMeaning {
  import opened Common
  import opened JsonSyntax
  import opened JsonStreamingParser

  // ---------------------------------------------------------------------------------------------
  // The specification: the callbacks a text causes
  // ---------------------------------------------------------------------------------------------

  function NumberValue(v: Json): int
    requires v.Num?
  {
    (if v.negative then -1 else 1) * DigitsValue(0, v.digits)
  }

  /** The callbacks so far after a value at `level` was read, given those before it. */
  function Events(v: Json, config: Config, level: nat, tag: Option<string>, log: seq<Event>): seq<Event> {
    match v
    case Null => log + [VisitNull(level, tag)]
    case Bool(flag) => log + [VisitBoolean(level, tag, flag)]
    case Num(_, _, _, _) => log + [VisitNumber(level, tag, NumberValue(v))]
    case Str(items) =>
      log + [if |items| <= config.maxValue then VisitString(level, tag, Contents(items))
             else StringOverflowEvent(level)]
    case EmptyObj(_) =>
      var asked := log + [VisitObject(level, tag)];
      if level + 1 >= config.maxNesting then log
      else if !config.visitor(asked).accept then asked
      else asked + [CloseEvent(level + 1)]
    case Obj(members) =>
      var asked := log + [VisitObject(level, tag)];
      if level + 1 >= config.maxNesting then log
      else if !config.visitor(asked).accept then asked
      else MembersEvents(members, config, level + 1, asked) + [CloseEvent(level + 1)]
    case EmptyArr(_) =>
      var asked := log + [VisitArray(level, tag)];
      if level + 1 >= config.maxNesting then log
      else if !config.visitor(asked).accept then asked
      else asked + [CloseEvent(level + 1)]
    case Arr(elements) =>
      var asked := log + [VisitArray(level, tag)];
      if level + 1 >= config.maxNesting then log
      else if !config.visitor(asked).accept then asked
      else ElementsEvents(elements, config, level + 1, asked) + [CloseEvent(level + 1)]
    case Skipped(isObject, _) =>
      if level + 1 >= config.maxNesting then log
      else log + [if isObject then VisitObject(level, tag) else VisitArray(level, tag)]
  }

  /** A key is cut to the value buffer and then to the tag buffer. */
  function Tag(key: seq<Item>, config: Config): string {
    Head(Head(Contents(key), config.maxValue), config.maxTag)
  }

  function MembersEvents(ms: Members, config: Config, level: nat, log: seq<Event>): seq<Event> {
    var log' := Events(ms.member.value, config, level, Some(Tag(ms.member.key, config)), log);
    match ms
    case LastMember(_) => log'
    case MoreMembers(_, tail) => MembersEvents(tail, config, level, log')
  }

  function ElementsEvents(es: Elements, config: Config, level: nat, log: seq<Event>): seq<Event> {
    var log' := Events(es.element.value, config, level, None, log);
    match es
    case LastElement(_) => log'
    case MoreElements(_, tail) => ElementsEvents(tail, config, level, log')
  }

  // ---------------------------------------------------------------------------------------------
  // Which texts the parser accepts, and what the others do
  // ---------------------------------------------------------------------------------------------

  /** Decoding a Unicode escape into a full value buffer is an error; other characters are dropped. */
  predicate StringAccepted(items: seq<Item>, maxValue: nat) {
    forall i :: maxValue <= i < |items| ==> !items[i].Unicode?
  }

  /** A literal must fit the value buffer. */
  predicate LiteralAccepted(literal: string, maxValue: nat) { |literal| <= maxValue }

  /** An exponent is only recognized after a fraction. */
  predicate NumberAccepted(v: Json)
    requires v.Num?
  {
    v.exponent.Some? ==> v.fraction.Some?
  }

  /** Whether a nested object or array is entered: there is room for a level, and a visitor for it. */
  predicate Entered(v: Json, config: Config, level: nat, tag: Option<string>, log: seq<Event>) {
    level + 1 < config.maxNesting && config.visitor(Asked(v, level, tag, log)).accept
  }

  function Asked(v: Json, level: nat, tag: Option<string>, log: seq<Event>): seq<Event> {
    log + [if IsObject(v) then VisitObject(level, tag) else VisitArray(level, tag)]
  }

  /** The exact condition under which a value is read: on literals, strings and numbers, and on
      nested values only if they are entered. What is entered depends on the callbacks so far. */
  predicate Accepted(v: Json, config: Config, level: nat, tag: Option<string>, log: seq<Event>) {
    match v
    case Null => LiteralAccepted("null", config.maxValue)
    case Bool(flag) => LiteralAccepted(if flag then "true" else "false", config.maxValue)
    case Num(_, _, _, _) => NumberAccepted(v)
    case Str(items) => StringAccepted(items, config.maxValue)
    case Obj(members) =>
      Entered(v, config, level, tag, log) ==> MembersAccepted(members, config, level + 1, Asked(v, level, tag, log))
    case Arr(elements) =>
      Entered(v, config, level, tag, log) ==> ElementsAccepted(elements, config, level + 1, Asked(v, level, tag, log))
    case _ => true
  }

  predicate MembersAccepted(ms: Members, config: Config, level: nat, log: seq<Event>) {
    var tag := Some(Tag(ms.member.key, config));
    && StringAccepted(ms.member.key, config.maxValue)
    && Accepted(ms.member.value, config, level, tag, log)
    && (ms.MoreMembers? ==>
          MembersAccepted(ms.members, config, level, Events(ms.member.value, config, level, tag, log)))
  }

  predicate ElementsAccepted(es: Elements, config: Config, level: nat, log: seq<Event>) {
    && Accepted(es.element.value, config, level, None, log)
    && (es.MoreElements? ==>
          ElementsAccepted(es.elements, config, level, Events(es.element.value, config, level, None, log)))
  }

  /** Reading ends behind the value, or with a parse error at the level where it happens. */
  datatype Outcome = Fine(log: seq<Event>) | Broken(log: seq<Event>, level: nat)

  function Reading(v: Json, config: Config, level: nat, tag: Option<string>, log: seq<Event>): Outcome {
    match v
    case Null => Checked(LiteralAccepted("null", config.maxValue), v, config, level, tag, log)
    case Bool(flag) =>
      Checked(LiteralAccepted(if flag then "true" else "false", config.maxValue), v, config, level, tag, log)
    case Num(_, _, _, _) =>
      // The digits before the letter are reported before the error.
      var log' := Events(v, config, level, tag, log);
      if NumberAccepted(v) then Fine(log') else Broken(log', level)
    case Str(items) => Checked(StringAccepted(items, config.maxValue), v, config, level, tag, log)
    case Obj(members) =>
      if !Entered(v, config, level, tag, log) then Fine(Events(v, config, level, tag, log))
      else Closing(MembersReading(members, config, level + 1, Asked(v, level, tag, log)), level + 1)
    case Arr(elements) =>
      if !Entered(v, config, level, tag, log) then Fine(Events(v, config, level, tag, log))
      else Closing(ElementsReading(elements, config, level + 1, Asked(v, level, tag, log)), level + 1)
    case _ => Fine(Events(v, config, level, tag, log))
  }

  function Checked(accepted: bool, v: Json, config: Config, level: nat, tag: Option<string>, log: seq<Event>): Outcome {
    if accepted then Fine(Events(v, config, level, tag, log)) else Broken(log, level)
  }

  function Closing(outcome: Outcome, level: nat): Outcome {
    if outcome.Fine? then Fine(outcome.log + [CloseEvent(level)]) else outcome
  }

  function MembersReading(ms: Members, config: Config, level: nat, log: seq<Event>): Outcome {
    if !StringAccepted(ms.member.key, config.maxValue) then Broken(log, level)
    else
      var outcome := Reading(ms.member.value, config, level, Some(Tag(ms.member.key, config)), log);
      if outcome.Fine? && ms.MoreMembers? then MembersReading(ms.members, config, level, outcome.log) else outcome
  }

  function ElementsReading(es: Elements, config: Config, level: nat, log: seq<Event>): Outcome {
    var outcome := Reading(es.element.value, config, level, None, log);
    if outcome.Fine? && es.MoreElements? then ElementsReading(es.elements, config, level, outcome.log) else outcome
  }

  /** Reading is fine exactly if the value is accepted, and then makes the callbacks of `Events`. */
  lemma {:induction false} AcceptedIsFine(v: Json, config: Config, level: nat, tag: Option<string>, log: seq<Event>)
    ensures if Accepted(v, config, level, tag, log)
            then Reading(v, config, level, tag, log) == Fine(Events(v, config, level, tag, log))
            else Reading(v, config, level, tag, log).Broken?
    decreases v
  {
    match v
    case Obj(members) => MembersAcceptedIsFine(members, config, level + 1, Asked(v, level, tag, log));
    case Arr(elements) => ElementsAcceptedIsFine(elements, config, level + 1, Asked(v, level, tag, log));
    case _ =>
  }

  lemma {:induction false} MembersAcceptedIsFine(ms: Members, config: Config, level: nat, log: seq<Event>)
    ensures if MembersAccepted(ms, config, level, log)
            then MembersReading(ms, config, level, log) == Fine(MembersEvents(ms, config, level, log))
            else MembersReading(ms, config, level, log).Broken?
    decreases ms
  {
    var tag := Some(Tag(ms.member.key, config));
    AcceptedIsFine(ms.member.value, config, level, tag, log);
    if ms.MoreMembers? {
      MembersAcceptedIsFine(ms.members, config, level, Events(ms.member.value, config, level, tag, log));
    }
  }

  lemma {:induction false} ElementsAcceptedIsFine(es: Elements, config: Config, level: nat, log: seq<Event>)
    ensures if ElementsAccepted(es, config, level, log)
            then ElementsReading(es, config, level, log) == Fine(ElementsEvents(es, config, level, log))
            else ElementsReading(es, config, level, log).Broken?
    decreases es
  {
    AcceptedIsFine(es.element.value, config, level, None, log);
    if es.MoreElements? {
      ElementsAcceptedIsFine(es.elements, config, level, Events(es.element.value, config, level, None, log));
    }
  }

  // ---------------------------------------------------------------------------------------------
  // The tokenizer on the text of one token
  // ---------------------------------------------------------------------------------------------

  predicate Fresh(l: Lexer) { l.state.TokenOpen? && l.value == "" && l.unicodeIndex == 0 && l.unicode == 0 }

  predicate InString(l: Lexer) {
    (l.state.StringOpen? || l.state.StringOverflowOpen?) && l.unicodeIndex == 0 && l.unicode == 0
  }

  /** The tokenizer after one string item, outside a skipped value. */
  function AfterItem(l: Lexer, x: Item, saveValue: bool, maxValue: nat): Lexer {
    AddToValueBuffer(if x.Plain? then l else l.(state := StringOpen), Decoded(x), saveValue, true, maxValue)
  }

  /** One byte that is consumed. */
  lemma FeedOne(l: Lexer, c: char, rest: string, saveValue: bool, maxValue: nat)
    requires !l.state.TokenDone? && LexByte(l, c, saveValue, maxValue).consumed
    ensures FeedLexer(l, [c] + rest, saveValue, maxValue)
         == FeedLexer(LexByte(l, c, saveValue, maxValue).lexer, rest, saveValue, maxValue)
  {
    assert ([c] + rest)[1..] == rest;
  }

  lemma FeedDone(l: Lexer, rest: string, saveValue: bool, maxValue: nat)
    requires l.state.TokenDone?
    ensures FeedLexer(l, rest, saveValue, maxValue) == Fed(l, rest)
  {
  }

  lemma LexItem(l: Lexer, x: Item, rest: string, saveValue: bool, maxValue: nat)
    requires InString(l) && ItemOk(x)
    requires x.Unicode? ==> |l.value| < maxValue
    ensures FeedLexer(l, ItemText(x, rest), saveValue, maxValue)
         == FeedLexer(AfterItem(l, x, saveValue, maxValue), rest, saveValue, maxValue)
    ensures InString(AfterItem(l, x, saveValue, maxValue))
  {
    match x
    case Plain(c) =>
      assert ItemText(x, rest)[1..] == rest;
    case Escape(c) =>
      var t := [c] + rest;
      assert t[1..] == rest;
      assert (['\\'] + t)[1..] == t;
    case Unicode(h0, h1, h2, h3) =>
      LexUnicode(l.(state := UnicodeValueOpen), h0, h1, h2, h3, rest, saveValue, maxValue);
      var t := [h0] + ([h1] + ([h2] + ([h3] + rest)));
      assert (['u'] + t)[1..] == t;
      assert (['\\'] + (['u'] + t))[1..] == ['u'] + t;
  }

  /** Three of the four digits of a Unicode escape. */
  lemma LexThreeDigits(l: Lexer, h0: char, h1: char, h2: char, rest: string, saveValue: bool, maxValue: nat)
    requires l.state.UnicodeValueOpen? && l.unicodeIndex == 0 && l.unicode == 0
    requires HexValue(h0).Some? && HexValue(h1).Some? && HexValue(h2).Some?
    ensures FeedLexer(l, [h0] + ([h1] + ([h2] + rest)), saveValue, maxValue)
         == FeedLexer(l.(unicodeIndex := 3, unicode := (Hex(h0) * 16 + Hex(h1)) * 16 + Hex(h2)),
                      rest, saveValue, maxValue)
  {
    hide FeedLexer, HexValue;
    FeedOne(l, h0, [h1] + ([h2] + rest), saveValue, maxValue);
    FeedOne(l.(unicodeIndex := 1, unicode := Hex(h0)), h1, [h2] + rest, saveValue, maxValue);
    FeedOne(l.(unicodeIndex := 2, unicode := Hex(h0) * 16 + Hex(h1)), h2, rest, saveValue, maxValue);
  }

  lemma LexUnicode(l: Lexer, h0: char, h1: char, h2: char, h3: char, rest: string, saveValue: bool, maxValue: nat)
    requires l.state.UnicodeValueOpen? && l.unicodeIndex == 0 && l.unicode == 0 && |l.value| < maxValue
    requires ItemOk(Unicode(h0, h1, h2, h3))
    ensures FeedLexer(l, [h0] + ([h1] + ([h2] + ([h3] + rest))), saveValue, maxValue)
         == FeedLexer(AddToValueBuffer(l.(state := StringOpen), Decoded(Unicode(h0, h1, h2, h3)),
                                       saveValue, true, maxValue),
                      rest, saveValue, maxValue)
  {
    hide FeedLexer, HexValue;
    LexThreeDigits(l, h0, h1, h2, [h3] + rest, saveValue, maxValue);
    FeedOne(l.(unicodeIndex := 3, unicode := (Hex(h0) * 16 + Hex(h1)) * 16 + Hex(h2)), h3, rest, saveValue, maxValue);
  }

  /** A Unicode escape into a full buffer. */
  lemma LexUnicodeFull(l: Lexer, x: Item, rest: string, maxValue: nat) returns (l': Lexer)
    requires InString(l) && ItemOk(x) && x.Unicode? && |l.value| >= maxValue
    ensures FeedLexer(l, ItemText(x, rest), true, maxValue) == Fed(l', rest)
    ensures l'.state.TokenDone? && l'.token.ErrorToken?
  {
    hide FeedLexer, HexValue;
    var t0 := [x.h0] + ([x.h1] + ([x.h2] + ([x.h3] + rest)));
    FeedOne(l, '\\', ['u'] + t0, true, maxValue);
    FeedOne(l.(state := StringOpenAndEscaped), 'u', t0, true, maxValue);
    var l0 := l.(state := UnicodeValueOpen);
    LexThreeDigits(l0, x.h0, x.h1, x.h2, [x.h3] + rest, true, maxValue);
    FeedOne(l0.(unicodeIndex := 3, unicode := (Hex(x.h0) * 16 + Hex(x.h1)) * 16 + Hex(x.h2)),
            x.h3, rest, true, maxValue);
    l' := FoundToken(l.(state := StringOpen), ErrorToken);
    FeedDone(l', rest, true, maxValue);
  }

  /** The items from here on that must not be Unicode escapes: those that find the buffer full. */
  predicate TailAccepted(items: seq<Item>, maxValue: nat, used: nat) {
    forall i :: 0 <= i < |items| && maxValue <= used + i ==> !items[i].Unicode?
  }

  /** What the value buffer holds after more contents: no more than fits. */
  lemma {:induction false} LexString(l: Lexer, items: seq<Item>, rest: string, maxValue: nat) returns (l': Lexer)
    requires InString(l) && ItemsOk(items) && |l.value| <= maxValue && TailAccepted(items, maxValue, |l.value|)
    requires l.state.StringOverflowOpen? ==> |l.value| == maxValue
    ensures FeedLexer(l, ItemsText(items, ['\"'] + rest), true, maxValue) == Fed(l', rest)
    ensures l'.state.TokenDone? && l'.unicodeIndex == 0 && l'.unicode == 0
    ensures l'.value == Head(l.value + Contents(items), maxValue)
    ensures l'.token == if |l.value| + |items| <= maxValue && l.state.StringOpen? then StringToken
                        else StringOverflowToken
    decreases |items|
  {
    if items == [] {
      assert (['\"'] + rest)[1..] == rest;
      l' := StringByte(l, '\"', true, maxValue);
      assert l.value + Contents(items) == l.value;
    } else {
      hide FeedLexer;
      var x := items[0];
      var tail := ItemsText(items[1..], ['\"'] + rest);
      LexItem(l, x, tail, true, maxValue);
      var l1 := AfterItem(l, x, true, maxValue);
      l' := LexString(l1, items[1..], rest, maxValue);
      assert Contents(items) == [Decoded(x)] + Contents(items[1..]);
      if |l.value| < maxValue {
        assert l1.value + Contents(items[1..]) == l.value + Contents(items);
      } else {
        assert Head(l1.value + Contents(items[1..]), maxValue) == l.value;
        assert Head(l.value + Contents(items), maxValue) == l.value;
      }
    }
  }

  /** A string with a Unicode escape behind a full buffer. */
  lemma {:induction false} LexStringFails(l: Lexer, items: seq<Item>, rest: string, maxValue: nat)
      returns (l': Lexer, rest': string)
    requires InString(l) && ItemsOk(items) && |l.value| <= maxValue && !TailAccepted(items, maxValue, |l.value|)
    requires l.state.StringOverflowOpen? ==> |l.value| == maxValue
    ensures FeedLexer(l, ItemsText(items, ['\"'] + rest), true, maxValue) == Fed(l', rest')
    ensures l'.state.TokenDone? && l'.token.ErrorToken?
    decreases |items|
  {
    hide FeedLexer;
    var x := items[0];
    var tail := ItemsText(items[1..], ['\"'] + rest);
    if x.Unicode? && |l.value| >= maxValue {
      l' := LexUnicodeFull(l, x, tail, maxValue);
      rest' := tail;
    } else {
      LexItem(l, x, tail, true, maxValue);
      var l1 := AfterItem(l, x, true, maxValue);
      var i :| 0 <= i < |items| && maxValue <= |l.value| + i && items[i].Unicode?;
      assert items[1..][i - 1] == items[i];
      l', rest' := LexStringFails(l1, items[1..], rest, maxValue);
    }
  }

  lemma {:induction false} LexSkippedString(l: Lexer, items: seq<Item>, rest: string, maxValue: nat) returns (l': Lexer)
    requires InString(l) && ItemsOk(items) && l.value == "" && 1 <= maxValue
    ensures FeedLexer(l, ItemsText(items, ['\"'] + rest), false, maxValue) == Fed(l', rest)
    ensures l'.state.TokenDone? && l'.unicodeIndex == 0 && l'.unicode == 0 && l'.value == ""
    ensures l'.token in {StringToken, StringOverflowToken}
    decreases |items|
  {
    if items == [] {
      assert (['\"'] + rest)[1..] == rest;
      l' := StringByte(l, '\"', false, maxValue);
    } else {
      LexItem(l, items[0], ItemsText(items[1..], ['\"'] + rest), false, maxValue);
      l' := LexSkippedString(AfterItem(l, items[0], false, maxValue), items[1..], rest, maxValue);
    }
  }

  /** A byte that ends a number or a literal in a well-formed text. */
  predicate Ends(rest: string) {
    rest != [] && (IsSpace(rest[0]) || rest[0] in {',', '}', ']'})
  }

  lemma {:induction false} LexLetters(l: Lexer, letters: string, rest: string, maxValue: nat)
    requires l.state.IdentifierOpen? && |l.value| + |letters| <= maxValue && Ends(rest)
    requires forall i :: 0 <= i < |letters| ==> IsAlpha(letters[i])
    ensures FeedLexer(l, letters + rest, true, maxValue)
         == Fed(l.(state := TokenDone, value := l.value + letters, token := IdentifierToken(l.value + letters)), rest)
    decreases |letters|
  {
    if letters == [] {
      assert letters + rest == rest && l.value + letters == l.value;
    } else {
      var l1 := l.(value := l.value + [letters[0]]);
      assert (letters + rest)[1..] == letters[1..] + rest;
      LexLetters(l1, letters[1..], rest, maxValue);
      assert l1.value + letters[1..] == l.value + letters;
    }
  }

  lemma {:induction false} LexDigits(l: Lexer, digits: string, rest: string, saveValue: bool, maxValue: nat)
    requires l.state.NumberOpen? || l.state.NumberFractionalOpen? || l.state.NumberExponentOpen?
    requires forall i :: 0 <= i < |digits| ==> IsDigit(digits[i])
    ensures FeedLexer(l, digits + rest, saveValue, maxValue)
         == FeedLexer(if l.state.NumberOpen? then l.(number := DigitsValue(l.number, digits)) else l,
                      rest, saveValue, maxValue)
    decreases |digits|
  {
    if digits == [] {
      assert digits + rest == rest;
    } else {
      assert (digits + rest)[1..] == digits[1..] + rest;
      LexDigits(LexByte(l, digits[0], saveValue, maxValue).lexer, digits[1..], rest, saveValue, maxValue);
    }
  }

  lemma {:induction false} LexExponentBytes(l: Lexer, text: string, rest: string, saveValue: bool, maxValue: nat)
    requires l.state.NumberExponentOpen? && Ends(rest) && forall i :: 0 <= i < |text| ==> ExponentByte(text[i])
    ensures FeedLexer(l, text + rest, saveValue, maxValue) == Fed(l.(state := TokenDone, token := NumberToken), rest)
    decreases |text|
  {
    if text == [] {
      assert text + rest == rest;
      assert LexByte(l, rest[0], saveValue, maxValue) == LexStep(FoundToken(l, NumberToken), false);
    } else {
      assert (text + rest)[1..] == text[1..] + rest;
      LexExponentBytes(l, text[1..], rest, saveValue, maxValue);
    }
  }

  lemma LexExponent(l: Lexer, letter: char, exponent: string, rest: string, saveValue: bool, maxValue: nat)
    requires l.state.NumberFractionalOpen? && letter in {'e', 'E'} && Ends(rest)
    requires forall i :: 0 <= i < |exponent| ==> ExponentByte(exponent[i])
    ensures FeedLexer(l, [letter] + (exponent + rest), saveValue, maxValue)
         == Fed(l.(state := TokenDone, token := NumberToken), rest)
  {
    assert ([letter] + (exponent + rest))[1..] == exponent + rest;
    LexExponentBytes(l.(state := NumberExponentOpen), exponent, rest, saveValue, maxValue);
  }

  /** Well-formed numbers are among those the parser takes, unless an exponent lacks its fraction. */
  lemma OkIsStreamed(v: Json)
    requires v.Num? && Ok(v) && NumberAccepted(v)
    ensures StreamedNumber(v)
  {
    if v.exponent.Some? {
      var text := v.exponent.value.text;
      forall i | 0 <= i < |text| ensures ExponentByte(text[i]) {
        if !Digits(text) && i > 0 { assert text[i] == text[1..][i - 1]; }
      }
    }
  }

  lemma LexNumberTail(l: Lexer, v: Json, rest: string, saveValue: bool, maxValue: nat) returns (l': Lexer)
    requires v.Num? && StreamedNumber(v) && l.state.NumberOpen? && Ends(rest)
    ensures FeedLexer(l, FractionText(v.fraction, ExponentText(v.exponent, rest)), saveValue, maxValue) == Fed(l', rest)
    ensures l' == l.(state := TokenDone, token := NumberToken)
  {
    l' := l.(state := TokenDone, token := NumberToken);
    if v.fraction.Some? {
      var tail := ExponentText(v.exponent, rest);
      assert (['.'] + (v.fraction.value + tail))[1..] == v.fraction.value + tail;
      var l1 := l.(state := NumberFractionalOpen);
      LexDigits(l1, v.fraction.value, tail, saveValue, maxValue);
      if v.exponent.Some? {
        LexExponent(l1, v.exponent.value.letter, v.exponent.value.text, rest, saveValue, maxValue);
      }
    }
  }

  lemma LexNumber(l: Lexer, v: Json, rest: string, maxValue: nat) returns (l': Lexer)
    requires v.Num? && StreamedNumber(v) && Fresh(l) && Ends(rest)
    ensures FeedLexer(l, Text(v, rest), true, maxValue) == Fed(l', rest)
    ensures l'.state.TokenDone? && l'.token.NumberToken? && l'.sign * l'.number == NumberValue(v)
    ensures l'.value == "" && l'.unicodeIndex == 0 && l'.unicode == 0
  {
    hide FeedLexer;
    var tail := FractionText(v.fraction, ExponentText(v.exponent, rest));
    var text := v.digits + tail;
    if v.negative {
      var l1 := l.(state := NumberOpen, number := 0, sign := -1);
      FeedOne(l, '-', text, true, maxValue);
      LexDigits(l1, v.digits, tail, true, maxValue);
      l' := LexNumberTail(l1.(number := DigitsValue(0, v.digits)), v, rest, true, maxValue);
    } else {
      var l1 := l.(state := NumberOpen, number := v.digits[0] as int - '0' as int, sign := 1);
      assert text == [v.digits[0]] + (v.digits[1..] + tail);
      FeedOne(l, v.digits[0], v.digits[1..] + tail, true, maxValue);
      LexDigits(l1, v.digits[1..], tail, true, maxValue);
      l' := LexNumberTail(l1.(number := DigitsValue(0, v.digits)), v, rest, true, maxValue);
    }
  }

  lemma LexLiteral(l: Lexer, literal: string, rest: string, maxValue: nat) returns (l': Lexer)
    requires literal in {"null", "true", "false"} && Fresh(l) && Ends(rest) && LiteralAccepted(literal, maxValue)
    ensures FeedLexer(l, literal + rest, true, maxValue) == Fed(l', rest)
    ensures l'.state.TokenDone? && l'.token == IdentifierToken(literal) && l'.unicodeIndex == 0 && l'.unicode == 0
  {
    assert (literal + rest)[1..] == literal[1..] + rest;
    LexLetters(l.(state := IdentifierOpen, value := [literal[0]]), literal[1..], rest, maxValue);
    assert [literal[0]] + literal[1..] == literal;
    l' := l.(state := TokenDone, value := literal, token := IdentifierToken(literal));
  }

  lemma {:induction false} LexLettersFail(l: Lexer, letters: string, rest: string, maxValue: nat)
      returns (l': Lexer, rest': string)
    requires l.state.IdentifierOpen? && |l.value| <= maxValue < |l.value| + |letters|
    requires forall i :: 0 <= i < |letters| ==> IsAlpha(letters[i])
    ensures FeedLexer(l, letters + rest, true, maxValue) == Fed(l', rest')
    ensures l'.state.TokenDone? && l'.token.ErrorToken?
    decreases |letters|
  {
    assert (letters + rest)[1..] == letters[1..] + rest;
    if |l.value| == maxValue {
      l', rest' := FoundToken(l, ErrorToken), letters[1..] + rest;
    } else {
      l', rest' := LexLettersFail(l.(value := l.value + [letters[0]]), letters[1..], rest, maxValue);
    }
  }

  /** A literal that is longer than the value buffer. */
  lemma LexLiteralFails(l: Lexer, literal: string, rest: string, maxValue: nat) returns (l': Lexer, rest': string)
    requires literal in {"null", "true", "false"} && Fresh(l) && 1 <= maxValue && !LiteralAccepted(literal, maxValue)
    ensures FeedLexer(l, literal + rest, true, maxValue) == Fed(l', rest')
    ensures l'.state.TokenDone? && l'.token.ErrorToken?
  {
    assert (literal + rest)[1..] == literal[1..] + rest;
    l', rest' := LexLettersFail(l.(state := IdentifierOpen, value := [literal[0]]), literal[1..], rest, maxValue);
  }

  lemma LexStringText(l: Lexer, items: seq<Item>, rest: string, maxValue: nat) returns (l': Lexer)
    requires Fresh(l) && ItemsOk(items) && StringAccepted(items, maxValue)
    ensures FeedLexer(l, StringText(items, rest), true, maxValue) == Fed(l', rest)
    ensures l'.state.TokenDone? && l'.unicodeIndex == 0 && l'.unicode == 0
    ensures l'.value == Head(Contents(items), maxValue)
    ensures l'.token == if |items| <= maxValue then StringToken else StringOverflowToken
  {
    assert StringText(items, rest)[1..] == ItemsText(items, ['\"'] + rest);
    var l1 := l.(state := StringOpen);
    l' := LexString(l1, items, rest, maxValue);
    assert l1.value + Contents(items) == Contents(items);
  }

  lemma LexStringTextFails(l: Lexer, items: seq<Item>, rest: string, maxValue: nat) returns (l': Lexer, rest': string)
    requires Fresh(l) && ItemsOk(items) && !StringAccepted(items, maxValue)
    ensures FeedLexer(l, StringText(items, rest), true, maxValue) == Fed(l', rest')
    ensures l'.state.TokenDone? && l'.token.ErrorToken?
  {
    assert StringText(items, rest)[1..] == ItemsText(items, ['\"'] + rest);
    l', rest' := LexStringFails(l.(state := StringOpen), items, rest, maxValue);
  }

  // ---------------------------------------------------------------------------------------------
  // Skipping a value
  // ---------------------------------------------------------------------------------------------

  /** Not inside a string: the tokenizer is between tokens or inside a number or an identifier. */
  predicate Neutral(l: Lexer) {
    && l.unicodeIndex == 0 && l.unicode == 0
    && (l.state in {NumberOpen, NumberFractionalOpen, NumberExponentOpen} || l.state.IdentifierOpen?
       || l.state.TokenOpen?)
    && (!l.state.IdentifierOpen? ==> l.value == "")
  }

  /** `base` is a parser that has just begun to skip a nested value of its top level. */
  predicate SkipBase(base: Machine) {
    && Valid(base) && base.levels != [] && Fresh(Top(base).lexer)
    && (Top(base).state.SkipNestedObject? || Top(base).state.SkipNestedArray?) && Top(base).skipped == 0
  }

  /** `m` is `base` further on, with `depth` brackets of the skipped kind open inside the value. */
  ghost predicate Skipping(m: Machine, base: Machine, depth: nat) {
    && SkipBase(base) && |m.levels| == |base.levels| && Neutral(Top(m).lexer)
    && m == WithTop(base, Top(base).(skipped := depth, lexer := Top(m).lexer))
  }

  function LeftMark(base: Machine): char
    requires base.levels != []
  {
    if Top(base).state.SkipNestedObject? then '{' else '['
  }

  function RightMark(base: Machine): char
    requires base.levels != []
  {
    if Top(base).state.SkipNestedObject? then '}' else ']'
  }

  predicate Harmless(base: Machine, c: char)
    requires base.levels != []
  {
    c != '\"' && c != LeftMark(base) && c != RightMark(base)
  }

  /** A finished token that is not a bracket of the skipped kind changes nothing. */
  lemma SkipOtherToken(m: Machine, base: Machine, depth: nat, l: Lexer)
    requires Skipping(m, base, depth) && l.state.TokenDone? && l.unicodeIndex == 0 && l.unicode == 0
    requires Top(base).state.SkipNestedObject? ==> l.token != LeftBrace && l.token != RightBrace
    requires Top(base).state.SkipNestedArray? ==> l.token != LeftBracket && l.token != RightBracket
    ensures var m' := HandleToken(WithTop(m, Top(m).(lexer := l)));
      Skipping(m', base, depth) && Fresh(Top(m').lexer)
  {
  }

  lemma SkipFlush(m: Machine, base: Machine, depth: nat, c: char)
    requires Skipping(m, base, depth)
    ensures Skipping(Flush(m, c), base, depth)
    ensures !LexTop(m, c).consumed ==> Fresh(Top(Flush(m, c)).lexer)
    ensures Flush(m, c).levels != [] && LexTop(Flush(m, c), c).consumed
  {
    hide HandleToken;
    var l := LexTop(m, c).lexer;
    if !LexTop(m, c).consumed {
      SkipOtherToken(m, base, depth, l);
    }
  }

  lemma SkipHarmless(m: Machine, base: Machine, depth: nat, c: char)
    requires Skipping(m, base, depth) && Harmless(base, c)
    ensures Skipping(StepByte(m, c), base, depth)
  {
    hide HandleToken;
    SkipFlush(m, base, depth, c);
    var m1 := Flush(m, c);
    var l := LexTop(m1, c).lexer;
    if l.state.TokenDone? {
      SkipOtherToken(m1, base, depth, l);
    }
  }

  lemma {:induction false} SkipHarmlessText(m: Machine, base: Machine, depth: nat, s: string, rest: string)
      returns (m': Machine)
    requires Skipping(m, base, depth)
    requires forall i :: 0 <= i < |s| ==> Harmless(base, s[i])
    ensures Run(m, s + rest) == Run(m', rest) && Skipping(m', base, depth)
    decreases |s|
  {
    hide StepByte;
    if s == [] {
      assert s + rest == rest;
      m' := m;
    } else {
      SkipHarmless(m, base, depth, s[0]);
      assert (s + rest)[1..] == s[1..] + rest;
      m' := SkipHarmlessText(StepByte(m, s[0]), base, depth, s[1..], rest);
    }
  }

  lemma SkipQuote(m: Machine, base: Machine, depth: nat)
    requires Skipping(m, base, depth)
    ensures var m1 := Flush(m, '\"');
      Skipping(m1, base, depth) && Fresh(Top(m1).lexer)
      && StepByte(m, '\"') == WithTop(m1, Top(m1).(lexer := Top(m1).lexer.(state := StringOpen)))
  {
    hide HandleToken;
    SkipFlush(m, base, depth, '\"');
  }

  lemma SkipString(m: Machine, base: Machine, depth: nat, items: seq<Item>, rest: string) returns (m': Machine)
    requires Skipping(m, base, depth) && ItemsOk(items)
    ensures Run(m, StringText(items, rest)) == Run(m', rest) && Skipping(m', base, depth)
  {
    hide HandleToken, LexByte;
    SkipQuote(m, base, depth);
    var m1 := Flush(m, '\"');
    var m2 := StepByte(m, '\"');
    assert StringText(items, rest)[1..] == ItemsText(items, ['\"'] + rest);
    var l := LexSkippedString(Top(m2).lexer, items, rest, base.config.maxValue);
    FeedLexerIsRun(m2, ItemsText(items, ['\"'] + rest));
    SkipOtherToken(m1, base, depth, l);
    m' := HandleToken(WithTop(m2, Top(m2).(lexer := l)));
    assert WithTop(m2, Top(m2).(lexer := l)) == WithTop(m1, Top(m1).(lexer := l));
  }

  /** The next token when a bracket byte arrives: numbers and identifiers before it are finished. */
  lemma SkipBracket(m: Machine, base: Machine, depth: nat, c: char)
    requires Skipping(m, base, depth) && (c == LeftMark(base) || c == RightMark(base))
    ensures var m1 := Flush(m, c);
      && Skipping(m1, base, depth)
      && StepByte(m, c) == HandleToken(WithTop(m1, Top(m1).(lexer := OpenByte(Top(m1).lexer, c))))
  {
    hide HandleToken;
    SkipFlush(m, base, depth, c);
  }

  lemma SkipLeft(m: Machine, base: Machine, depth: nat)
    requires Skipping(m, base, depth) && depth + 1 < SKIP_MODULUS
    ensures Skipping(StepByte(m, LeftMark(base)), base, depth + 1)
  {
    hide StepByte, Flush;
    SkipBracket(m, base, depth, LeftMark(base));
  }

  lemma SkipRight(m: Machine, base: Machine, depth: nat)
    requires Skipping(m, base, depth)
    ensures var m' := StepByte(m, RightMark(base));
      if depth > 0 then Skipping(m', base, depth - 1)
      else
        && m'.levels != [] && Fresh(Top(m').lexer)
        && m' == WithTop(base, Top(base).(state := Closed, lexer := Top(m').lexer))
  {
    hide StepByte, Flush;
    SkipBracket(m, base, depth, RightMark(base));
  }

  lemma NumberHarmless(base: Machine, v: Json)
    requires base.levels != [] && v.Num? && Ok(v)
    ensures forall c :: c in v.digits ==> Harmless(base, c)
    ensures v.fraction.Some? ==> forall c :: c in v.fraction.value ==> Harmless(base, c)
    ensures v.exponent.Some? ==> forall c :: c in v.exponent.value.text ==> Harmless(base, c)
    ensures v.exponent.Some? ==> Harmless(base, v.exponent.value.letter)
  {
    if v.exponent.Some? && !Digits(v.exponent.value.text) {
      var text := v.exponent.value.text;
      assert text == [text[0]] + text[1..];
    }
  }

  lemma SkipNumber(m: Machine, base: Machine, depth: nat, v: Json, rest: string) returns (m': Machine)
    requires base.levels != [] && Skipping(m, base, depth) && v.Num? && Ok(v)
    ensures Run(m, Text(v, rest)) == Run(m', rest) && Skipping(m', base, depth)
  {
    hide Run, Skipping;
    NumberHarmless(base, v);
    var exponent := ExponentText(v.exponent, rest);
    var fraction := FractionText(v.fraction, exponent);
    m' := m;
    if v.negative {
      m' := SkipHarmlessText(m', base, depth, ['-'], v.digits + fraction);
    }
    m' := SkipHarmlessText(m', base, depth, v.digits, fraction);
    if v.fraction.Some? {
      m' := SkipHarmlessText(m', base, depth, ['.'], v.fraction.value + exponent);
      m' := SkipHarmlessText(m', base, depth, v.fraction.value, exponent);
    }
    if v.exponent.Some? {
      m' := SkipHarmlessText(m', base, depth, [v.exponent.value.letter], v.exponent.value.text + rest);
      m' := SkipHarmlessText(m', base, depth, v.exponent.value.text, rest);
    }
  }

  /** An opening bracket inside a skipped value: it counts only if it is of the skipped kind. */
  lemma SkipOpening(m: Machine, base: Machine, depth: nat, isObject: bool, rest: string)
      returns (m': Machine, depth': nat)
    requires base.levels != [] && Skipping(m, base, depth) && depth + 1 < SKIP_MODULUS
    ensures depth' == if isObject == Top(base).state.SkipNestedObject? then depth + 1 else depth
    ensures Run(m, [if isObject then '{' else '['] + rest) == Run(m', rest) && Skipping(m', base, depth')
  {
    var c := if isObject then '{' else '[';
    assert ([c] + rest)[1..] == rest;
    m' := StepByte(m, c);
    if isObject == Top(base).state.SkipNestedObject? {
      SkipLeft(m, base, depth);
      depth' := depth + 1;
    } else {
      SkipHarmless(m, base, depth, c);
      depth' := depth;
    }
  }

  lemma SkipClosing(m: Machine, base: Machine, depth: nat, isObject: bool, rest: string) returns (m': Machine)
    requires base.levels != []
    requires Skipping(m, base, if isObject == Top(base).state.SkipNestedObject? then depth + 1 else depth)
    ensures Run(m, [if isObject then '}' else ']'] + rest) == Run(m', rest) && Skipping(m', base, depth)
  {
    var c := if isObject then '}' else ']';
    assert ([c] + rest)[1..] == rest;
    m' := StepByte(m, c);
    if isObject == Top(base).state.SkipNestedObject? {
      SkipRight(m, base, depth + 1);
    } else {
      SkipHarmless(m, base, depth, c);
    }
  }

  /** A whole value inside a skipped value leaves the parser skipping at the same depth. */
  lemma {:induction false} SkipValue(m: Machine, base: Machine, depth: nat, v: Json, rest: string) returns (m': Machine)
    requires base.levels != [] && Skipping(m, base, depth) && Ok(v) && depth + Depth(v) < SKIP_MODULUS
    ensures Run(m, Text(v, rest)) == Run(m', rest) && Skipping(m', base, depth)
    decreases v
  {
    hide Run, Skipping;
    match v
    case Null => m' := SkipHarmlessText(m, base, depth, "null", rest);
    case Bool(flag) => m' := SkipHarmlessText(m, base, depth, if flag then "true" else "false", rest);
    case Num(_, _, _, _) => m' := SkipNumber(m, base, depth, v, rest);
    case Str(items) => m' := SkipString(m, base, depth, items, rest);
    case EmptyObj(space) =>
      var m1, d1 := SkipOpening(m, base, depth, true, space + (['}'] + rest));
      var m2 := SkipHarmlessText(m1, base, d1, space, ['}'] + rest);
      m' := SkipClosing(m2, base, depth, true, rest);
    case Obj(members) =>
      var m1, d1 := SkipOpening(m, base, depth, true, MembersText(members, ['}'] + rest));
      var m2 := SkipMembers(m1, base, d1, members, ['}'] + rest);
      m' := SkipClosing(m2, base, depth, true, rest);
    case EmptyArr(space) =>
      var m1, d1 := SkipOpening(m, base, depth, false, space + ([']'] + rest));
      var m2 := SkipHarmlessText(m1, base, d1, space, [']'] + rest);
      m' := SkipClosing(m2, base, depth, false, rest);
    case Arr(elements) =>
      var m1, d1 := SkipOpening(m, base, depth, false, ElementsText(elements, [']'] + rest));
      var m2 := SkipElements(m1, base, d1, elements, [']'] + rest);
      m' := SkipClosing(m2, base, depth, false, rest);
  }

  lemma {:induction false} SkipMembers(m: Machine, base: Machine, depth: nat, ms: Members, rest: string)
      returns (m': Machine)
    requires base.levels != [] && Skipping(m, base, depth) && MembersOk(ms) && depth + MembersDepth(ms) < SKIP_MODULUS
    ensures Run(m, MembersText(ms, rest)) == Run(m', rest) && Skipping(m', base, depth)
    decreases ms
  {
    hide Run, Skipping;
    var x := ms.member;
    var after := if ms.LastMember? then rest else [','] + MembersText(ms.members, rest);
    var t3 := x.s3 + after;
    var t2 := x.s2 + Text(x.value, t3);
    var t1 := x.s1 + ([':'] + t2);
    var m0 := SkipHarmlessText(m, base, depth, x.s0, StringText(x.key, t1));
    var m1 := SkipString(m0, base, depth, x.key, t1);
    var m2 := SkipHarmlessText(m1, base, depth, x.s1, [':'] + t2);
    var m3 := SkipHarmlessText(m2, base, depth, [':'], t2);
    var m4 := SkipHarmlessText(m3, base, depth, x.s2, Text(x.value, t3));
    var m5 := SkipValue(m4, base, depth, x.value, t3);
    m' := SkipHarmlessText(m5, base, depth, x.s3, after);
    if ms.MoreMembers? {
      m' := SkipHarmlessText(m', base, depth, [','], MembersText(ms.members, rest));
      m' := SkipMembers(m', base, depth, ms.members, rest);
    }
  }

  lemma {:induction false} SkipElements(m: Machine, base: Machine, depth: nat, es: Elements, rest: string)
      returns (m': Machine)
    requires base.levels != [] && Skipping(m, base, depth) && ElementsOk(es) && depth + ElementsDepth(es) < SKIP_MODULUS
    ensures Run(m, ElementsText(es, rest)) == Run(m', rest) && Skipping(m', base, depth)
    decreases es
  {
    hide Run, Skipping;
    var x := es.element;
    var after := if es.LastElement? then rest else [','] + ElementsText(es.elements, rest);
    var m0 := SkipHarmlessText(m, base, depth, x.s0, Text(x.value, x.s1 + after));
    var m1 := SkipValue(m0, base, depth, x.value, x.s1 + after);
    m' := SkipHarmlessText(m1, base, depth, x.s1, after);
    if es.MoreElements? {
      m' := SkipHarmlessText(m', base, depth, [','], ElementsText(es.elements, rest));
      m' := SkipElements(m', base, depth, es.elements, rest);
    }
  }

  /** The text of an object or array after its opening bracket. */
  function Body(v: Json, rest: string): string {
    match v
    case EmptyObj(space) => space + (['}'] + rest)
    case Obj(members) => MembersText(members, ['}'] + rest)
    case EmptyArr(space) => space + ([']'] + rest)
    case Arr(elements) => ElementsText(elements, [']'] + rest)
    case _ => rest
  }

  predicate IsObject(v: Json) { v.Obj? || v.EmptyObj? || (v.Skipped? && v.isObject) }
  predicate IsArray(v: Json) { v.Arr? || v.EmptyArr? || (v.Skipped? && !v.isObject) }

  /** A skipped object or array is consumed exactly: up to its own closing bracket the parser keeps
      skipping, and then the level is closed with the counter at zero and no callback made. */
  lemma SkipExactly(base: Machine, v: Json, rest: string) returns (last: Machine, m': Machine)
    requires SkipBase(base) && Ok(v) && Depth(v) < SKIP_MODULUS
    requires if Top(base).state.SkipNestedObject? then IsObject(v) else IsArray(v)
    ensures Run(base, Body(v, rest)) == Run(last, [RightMark(base)] + rest) && Skipping(last, base, 0)
    ensures m' == StepByte(last, RightMark(base)) && Run(base, Body(v, rest)) == Run(m', rest)
    ensures m'.levels != [] && Fresh(Top(m').lexer)
    ensures m' == WithTop(base, Top(base).(state := Closed, lexer := Top(m').lexer))
  {
    hide StepByte;
    assert Skipping(base, base, 0) by { assert base == WithTop(base, Top(base)); }
    match v {
      case EmptyObj(space) => last := SkipHarmlessText(base, base, 0, space, ['}'] + rest);
      case Obj(members) => last := SkipMembers(base, base, 0, members, ['}'] + rest);
      case EmptyArr(space) => last := SkipHarmlessText(base, base, 0, space, [']'] + rest);
      case Arr(elements) => last := SkipElements(base, base, 0, elements, [']'] + rest);
    }
    SkipRight(last, base, 0);
    m' := StepByte(last, RightMark(base));
    assert ([RightMark(base)] + rest)[1..] == rest;
  }

  // ---------------------------------------------------------------------------------------------
  // Reading a value
  // ---------------------------------------------------------------------------------------------

  /** A visitor that never raises a semantic error. */
  ghost predicate Quiet(config: Config) {
    forall log :: config.visitor(log).semanticErrors == {}
  }

  /** The parser is between tokens of its top level, above `below`. */
  ghost predicate At(m: Machine, config: Config, below: seq<SubParser>, isObject: bool, state: State, tag: string,
      log: seq<Event>) {
    && m.config == config && 1 <= config.maxValue && Quiet(config)
    && |m.levels| == |below| + 1 && m.levels[..|below|] == below && CalmBelow(below, |below|)
    && Top(m).isObject == isObject && Top(m).state == state && Top(m).skipped == 0 && Fresh(Top(m).lexer)
    && (isObject ==> Top(m).tag == tag)
    && m.log == log
  }

  lemma QuietCall(m: Machine, e: Event)
    requires Quiet(m.config)
    ensures Call(m, e) == m.(log := m.log + [e])
  {
    assert Marked(m.levels, {}) == m.levels;
  }

  /** A token's text runs the tokenizer and then the level's reaction to the token. */
  lemma RunToken(m: Machine, data: string, l: Lexer, rest: string)
    requires Valid(m) && m.levels != [] && !Top(m).state.SemanticError? && SaveValue(Top(m))
    requires FeedLexer(Top(m).lexer, data, true, m.config.maxValue) == Fed(l, rest) && l.state.TokenDone?
    ensures Run(m, data) == Run(HandleToken(WithTop(m, Top(m).(lexer := l))), rest)
  {
    hide HandleToken, FeedLexer;
    FeedLexerIsRun(m, data);
  }

  lemma AtIsValid(m: Machine, config: Config, below: seq<SubParser>, isObject: bool, state: State, tag: string,
      log: seq<Event>)
    requires At(m, config, below, isObject, state, tag, log) && !state.ParseError?
    ensures Valid(m) && m.levels != []
  {
    assert forall i :: 0 <= i < |below| ==> m.levels[i] == below[i];
  }

  lemma {:induction false} SpaceRun(m: Machine, space: string, rest: string)
    requires m.levels != [] && Fresh(Top(m).lexer) && !Top(m).state.SemanticError? && Space(space)
    ensures Run(m, space + rest) == Run(m, rest)
    decreases |space|
  {
    if space == [] {
      assert space + rest == rest;
    } else {
      assert (space + rest)[1..] == space[1..] + rest;
      assert StepByte(m, space[0]) == m by { assert m == WithTop(m, Top(m)); }
      SpaceRun(m, space[1..], rest);
    }
  }

  predicate ValueState(isObject: bool, state: State) {
    if isObject then state.ValueExpected? else state.InitialOpen? || state.Open?
  }

  function TagOf(isObject: bool, tag: string): Option<string> { if isObject then Some(tag) else None }

  /** The callback of a scalar token. */
  function ScalarEvent(l: Lexer, level: nat, tag: Option<string>): Event {
    if l.token.StringToken? then VisitString(level, tag, l.value)
    else if l.token.StringOverflowToken? then StringOverflowEvent(level)
    else if l.token.NumberToken? then VisitNumber(level, tag, l.sign * l.number)
    else if l.token.NullToken? then VisitNull(level, tag)
    else VisitBoolean(level, tag, l.token.TrueToken?)
  }

  lemma ScalarHandled(m: Machine, config: Config, below: seq<SubParser>, isObject: bool, state: State, tag: string,
      log: seq<Event>, l: Lexer)
    requires At(m, config, below, isObject, state, tag, log) && ValueState(isObject, state)
    requires l.state.TokenDone? && l.unicodeIndex == 0 && l.unicode == 0
    requires l.token in {StringToken, StringOverflowToken, NumberToken, NullToken, TrueToken, FalseToken}
    ensures At(HandleToken(WithTop(m, Top(m).(lexer := l))), config, below, isObject, Closed, "",
               log + [ScalarEvent(l, |below|, TagOf(isObject, tag))])
  {
    var e := ScalarEvent(l, |below|, TagOf(isObject, tag));
    var fed := WithTop(m, Top(m).(lexer := l));
    QuietCall(WithTop(fed, Top(fed).(state := Closed, tag := "")), e);
    QuietCall(WithTop(fed, Top(fed).(state := Closed)), e);
  }

  /** A parser that has reported a parse error to every level from `level` down. */
  function Dead(config: Config, log: seq<Event>, level: nat): Machine {
    Machine(config, [], log + ParseErrors(level + 1))
  }

  /** Running over a text leads to the outcome: behind the text with the level closed, or dead. */
  ghost predicate Leads(m: Machine, text: string, outcome: Outcome, m': Machine, config: Config, below: seq<SubParser>,
      isObject: bool, rest: string) {
    if outcome.Fine? then Run(m, text) == Run(m', rest) && At(m', config, below, isObject, Closed, "", outcome.log)
    else Run(m, text) == Dead(config, outcome.log, outcome.level)
  }

  /** An error token is a parse error wherever a key, a value or punctuation is expected. */
  lemma ErrorHandled(m: Machine, config: Config, below: seq<SubParser>, isObject: bool, state: State, tag: string,
      log: seq<Event>, l: Lexer)
    requires At(m, config, below, isObject, state, tag, log) && state in {InitialOpen, Open, ValueExpected, Closed}
    requires l.state.TokenDone? && l.token.ErrorToken?
    ensures HandleToken(WithTop(m, Top(m).(lexer := l))) == Dead(config, log, |below|)
  {
    hide At, OpenNested, Call, ParseErrors;
    AtElim(m, config, below, isObject, state, tag, log);
  }

  lemma ErrorRun(m: Machine, config: Config, below: seq<SubParser>, isObject: bool, state: State, tag: string,
      log: seq<Event>, text: string, l: Lexer, rest: string)
    requires At(m, config, below, isObject, state, tag, log) && state in {InitialOpen, Open, ValueExpected, Closed}
    requires FeedLexer(Top(m).lexer, text, true, config.maxValue) == Fed(l, rest) && l.state.TokenDone?
    requires l.token.ErrorToken?
    ensures Run(m, text) == Dead(config, log, |below|)
  {
    hide HandleToken, FeedLexer, Run;
    AtIsValid(m, config, below, isObject, state, tag, log);
    RunToken(m, text, l, rest);
    ErrorHandled(m, config, below, isObject, state, tag, log, l);
    RunDead(Dead(config, log, |below|), rest);
  }

  predicate Scalar(v: Json) { v.Null? || v.Bool? || v.Num? || v.Str? }

  lemma ScalarFine(m: Machine, config: Config, below: seq<SubParser>, isObject: bool, state: State, tag: string,
      log: seq<Event>, v: Json, rest: string) returns (m': Machine)
    requires At(m, config, below, isObject, state, tag, log) && ValueState(isObject, state)
    requires Ok(v) && Scalar(v) && Accepted(v, config, |below|, TagOf(isObject, tag), log) && Ends(rest)
    ensures Run(m, Text(v, rest)) == Run(m', rest)
    ensures At(m', config, below, isObject, Closed, "", Events(v, config, |below|, TagOf(isObject, tag), log))
  {
    hide HandleToken, FeedLexer, Run;
    AtIsValid(m, config, below, isObject, state, tag, log);
    var l: Lexer;
    match v {
      case Null => l := LexLiteral(Top(m).lexer, "null", rest, config.maxValue);
      case Bool(flag) => l := LexLiteral(Top(m).lexer, if flag then "true" else "false", rest, config.maxValue);
      case Num(_, _, _, _) =>
        OkIsStreamed(v);
        l := LexNumber(Top(m).lexer, v, rest, config.maxValue);
      case Str(items) => l := LexStringText(Top(m).lexer, items, rest, config.maxValue);
    }
    RunToken(m, Text(v, rest), l, rest);
    ScalarHandled(m, config, below, isObject, state, tag, log, l);
    m' := HandleToken(WithTop(m, Top(m).(lexer := l)));
  }

  lemma ScalarBroken(m: Machine, config: Config, below: seq<SubParser>, isObject: bool, state: State, tag: string,
      log: seq<Event>, v: Json, rest: string)
    requires At(m, config, below, isObject, state, tag, log) && ValueState(isObject, state)
    requires Ok(v) && Scalar(v) && !v.Num? && !Accepted(v, config, |below|, TagOf(isObject, tag), log)
    ensures Run(m, Text(v, rest)) == Dead(config, log, |below|)
  {
    hide HandleToken, FeedLexer, Run, Dead;
    AtElim(m, config, below, isObject, state, tag, log);
    var l: Lexer, rest': string;
    match v {
      case Null => l, rest' := LexLiteralFails(Top(m).lexer, "null", rest, config.maxValue);
      case Bool(flag) =>
        l, rest' := LexLiteralFails(Top(m).lexer, if flag then "true" else "false", rest, config.maxValue);
      case Str(items) => l, rest' := LexStringTextFails(Top(m).lexer, items, rest, config.maxValue);
    }
    ErrorRun(m, config, below, isObject, state, tag, log, Text(v, rest), l, rest');
  }

  lemma ScalarRun(m: Machine, config: Config, below: seq<SubParser>, isObject: bool, state: State, tag: string,
      log: seq<Event>, v: Json, rest: string) returns (m': Machine)
    requires At(m, config, below, isObject, state, tag, log) && ValueState(isObject, state)
    requires Ok(v) && Scalar(v) && Ends(rest)
    ensures Leads(m, Text(v, rest), Reading(v, config, |below|, TagOf(isObject, tag), log),
                  m', config, below, isObject, rest)
  {
    hide At, Run, Events, Dead;
    m' := m;
    if Accepted(v, config, |below|, TagOf(isObject, tag), log) {
      m' := ScalarFine(m, config, below, isObject, state, tag, log, v, rest);
    } else if v.Num? {
      BareExponentIsAParseError(m, config, below, isObject, state, tag, log, v, rest);
    } else {
      ScalarBroken(m, config, below, isObject, state, tag, log, v, rest);
    }
  }

  /** A punctuation byte between tokens. */
  lemma PunctuationRun(m: Machine, c: char, rest: string)
    requires m.levels != [] && Fresh(Top(m).lexer) && !Top(m).state.SemanticError?
    requires c in {':', ',', '{', '}', '[', ']'}
    ensures Run(m, [c] + rest) == Run(HandleToken(WithTop(m, Top(m).(lexer := OpenByte(Top(m).lexer, c)))), rest)
  {
    hide HandleToken;
    assert ([c] + rest)[1..] == rest;
  }

  /** The level below a nested one, waiting for it to close. */
  predicate Parent(p: SubParser, isObject: bool) {
    p.isObject == isObject && p.state.Closed? && p.skipped == 0 && Fresh(p.lexer) && (isObject ==> p.tag == "")
  }

  /** What an opening bracket token does in a level that expects a value. */
  lemma OpenToken(m: Machine, config: Config, below: seq<SubParser>, isObject: bool, state: State, tag: string,
      log: seq<Event>, nested: bool)
    requires At(m, config, below, isObject, state, tag, log) && ValueState(isObject, state)
    ensures
      var fed := WithTop(m, Top(m).(lexer := OpenByte(Top(m).lexer, if nested then '{' else '[')));
      var entered := OpenNested(fed, nested, TagOf(isObject, tag));
      && |entered.levels| > |below|
      && HandleToken(fed) == if isObject then ClearTag(entered, |below|) else entered
  {
    hide OpenNested;
    var fed := WithTop(m, Top(m).(lexer := OpenByte(Top(m).lexer, if nested then '{' else '[')));
    AtIsValid(m, config, below, isObject, state, tag, log);
    OpenNestedCalm(fed, nested, TagOf(isObject, tag));
  }

  /** OpenNested with a quiet visitor, level by level. */
  lemma OpenNestedLevels(m: Machine, below: seq<SubParser>, top: SubParser, nested: bool, tag: Option<string>)
    requires m.levels == below + [top] && Quiet(m.config)
    ensures
      var asked := m.log + [if nested then VisitObject(|below|, tag) else VisitArray(|below|, tag)];
      var closed := top.(lexer := top.lexer.(state := TokenOpen), state := Closed);
      var skipping := closed.(state := if nested then SkipNestedObject else SkipNestedArray);
      OpenNested(m, nested, tag) ==
      if |below| + 1 >= m.config.maxNesting then m.(levels := below + [skipping])
      else if !m.config.visitor(asked).accept then m.(levels := below + [skipping], log := asked)
      else m.(levels := below + [closed] + [NewLevel(closed, nested)], log := asked)
  {
    var e := if nested then VisitObject(|below|, tag) else VisitArray(|below|, tag);
    var closed := top.(lexer := top.lexer.(state := TokenOpen), state := Closed);
    var m1 := WithTop(m, closed);
    assert m1.levels == below + [closed];
    var m2 := m1.(levels := m1.levels + [NewLevel(closed, nested)]);
    QuietCall(m2, e);
    var m3 := Pop(Call(m2, e));
    assert m3.levels == below + [closed];
    var skipping := closed.(state := if nested then SkipNestedObject else SkipNestedArray);
    assert WithTop(m3, skipping).levels == below + [skipping];
    assert WithTop(m, skipping).levels == below + [skipping];
  }

  /** The outcomes of a value that opens: skipped for lack of room, refused, or entered. */
  lemma OpenHandled(m: Machine, config: Config, below: seq<SubParser>, isObject: bool, state: State, tag: string,
      log: seq<Event>, nested: bool)
    returns (m': Machine, parent: SubParser)
    requires At(m, config, below, isObject, state, tag, log) && ValueState(isObject, state)
    ensures m' == HandleToken(WithTop(m, Top(m).(lexer := OpenByte(Top(m).lexer, if nested then '{' else '['))))
    ensures
      var asked := log + [if nested then VisitObject(|below|, TagOf(isObject, tag))
                          else VisitArray(|below|, TagOf(isObject, tag))];
      var skip := if nested then SkipNestedObject else SkipNestedArray;
      if |below| + 1 >= config.maxNesting then At(m', config, below, isObject, skip, "", log)
      else if !config.visitor(asked).accept then At(m', config, below, isObject, skip, "", asked)
      else Parent(parent, isObject) && At(m', config, below + [parent], nested, InitialOpen, "", asked)
  {
    hide HandleToken, OpenNested, At, Quiet;
    AtElim(m, config, below, isObject, state, tag, log);
    var l := OpenByte(Top(m).lexer, if nested then '{' else '[');
    var top := Top(m).(lexer := l);
    var fed := WithTop(m, top);
    assert fed.levels == below + [top];
    OpenNestedLevels(fed, below, top, nested, TagOf(isObject, tag));
    OpenToken(m, config, below, isObject, state, tag, log, nested);
    m' := HandleToken(fed);
    var closed := top.(lexer := l.(state := TokenOpen), state := Closed);
    var skipping := closed.(state := if nested then SkipNestedObject else SkipNestedArray);
    parent := if isObject then closed.(tag := "") else closed;
    var child := NewLevel(closed, nested);
    if isObject {
      assert (below + [skipping])[|below| := skipping.(tag := "")] == below + [skipping.(tag := "")];
      assert (below + [closed] + [child])[|below| := parent] == below + [parent] + [child];
    }
    var skipped := if isObject then skipping.(tag := "") else skipping;
    if m'.levels == below + [skipped] {
      AtIntro(m', below, skipped, "");
    } else {
      assert Parent(parent, isObject) && Calm(parent);
      AtIntro(m', below + [parent], child, "");
    }
  }

  lemma AtIntro(m: Machine, below: seq<SubParser>, top: SubParser, tag: string)
    requires m.levels == below + [top] && CalmBelow(below, |below|) && 1 <= m.config.maxValue && Quiet(m.config)
    requires top.skipped == 0 && Fresh(top.lexer) && (top.isObject ==> top.tag == tag)
    ensures At(m, m.config, below, top.isObject, top.state, tag, m.log)
  {
  }

  lemma AtElim(m: Machine, config: Config, below: seq<SubParser>, isObject: bool, state: State, tag: string,
      log: seq<Event>)
    requires At(m, config, below, isObject, state, tag, log)
    ensures m.config == config && 1 <= config.maxValue && Quiet(config) && m.log == log
    ensures m.levels != [] && m.levels == below + [Top(m)] && CalmBelow(below, |below|)
    ensures Top(m).isObject == isObject && Top(m).state == state && Top(m).skipped == 0 && Fresh(Top(m).lexer)
    ensures isObject ==> Top(m).tag == tag
  {
  }

  lemma CloseHandled(m: Machine, config: Config, below: seq<SubParser>, parent: SubParser, isObject: bool, nested: bool,
      state: State, tag: string, log: seq<Event>)
    requires At(m, config, below + [parent], nested, state, tag, log) && Parent(parent, isObject)
    requires state.InitialOpen? || state.Closed?
    ensures At(HandleToken(WithTop(m, Top(m).(lexer := OpenByte(Top(m).lexer, if nested then '}' else ']')))),
               config, below, isObject, Closed, "", log + [CloseEvent(|below| + 1)])
  {
    var l := OpenByte(Top(m).lexer, if nested then '}' else ']');
    var fed := WithTop(m, Top(m).(lexer := l));
    QuietCall(fed, CloseEvent(|below| + 1));
    QuietCall(WithTop(fed, Top(fed).(state := Closed)), CloseEvent(|below| + 1));
    var m' := HandleToken(fed);
    assert m'.levels == below + [parent];
    assert forall i :: 0 <= i < |below| ==> below[i] == (below + [parent])[i];
  }

  /** A key and its colon. */
  lemma KeyRun(m: Machine, config: Config, below: seq<SubParser>, state: State, log: seq<Event>, x: Member,
      rest: string) returns (m': Machine)
    requires At(m, config, below, true, state, "", log) && (state.InitialOpen? || state.Open?)
    requires Space(x.s0) && Space(x.s1) && Space(x.s2) && ItemsOk(x.key) && StringAccepted(x.key, config.maxValue)
    ensures Run(m, x.s0 + StringText(x.key, x.s1 + ([':'] + (x.s2 + rest)))) == Run(m', rest)
    ensures At(m', config, below, true, ValueExpected, Tag(x.key, config), log)
  {
    hide FeedLexer, Run;
    var t := x.s1 + ([':'] + (x.s2 + rest));
    AtIsValid(m, config, below, true, state, "", log);
    SpaceRun(m, x.s0, StringText(x.key, t));
    var l := LexStringText(Top(m).lexer, x.key, t, config.maxValue);
    RunToken(m, StringText(x.key, t), l, t);
    var m1 := HandleToken(WithTop(m, Top(m).(lexer := l)));
    assert At(m1, config, below, true, TagClosed, Tag(x.key, config), log);
    SpaceRun(m1, x.s1, [':'] + (x.s2 + rest));
    PunctuationRun(m1, ':', x.s2 + rest);
    m' := HandleToken(WithTop(m1, Top(m1).(lexer := OpenByte(Top(m1).lexer, ':'))));
    assert At(m', config, below, true, ValueExpected, Tag(x.key, config), log);
    SpaceRun(m', x.s2, rest);
  }

  /** A key whose Unicode escapes do not fit the value buffer. */
  lemma KeyFails(m: Machine, config: Config, below: seq<SubParser>, state: State, log: seq<Event>, x: Member,
      rest: string)
    requires At(m, config, below, true, state, "", log) && (state.InitialOpen? || state.Open?)
    requires Space(x.s0) && ItemsOk(x.key) && !StringAccepted(x.key, config.maxValue)
    ensures Run(m, x.s0 + StringText(x.key, rest)) == Dead(config, log, |below|)
  {
    hide FeedLexer, Run, HandleToken, Dead;
    AtElim(m, config, below, true, state, "", log);
    SpaceRun(m, x.s0, StringText(x.key, rest));
    var l, rest' := LexStringTextFails(Top(m).lexer, x.key, rest, config.maxValue);
    ErrorRun(m, config, below, true, state, "", log, StringText(x.key, rest), l, rest');
  }

  lemma CommaRun(m: Machine, config: Config, below: seq<SubParser>, isObject: bool, tag: string, log: seq<Event>,
      rest: string) returns (m': Machine)
    requires At(m, config, below, isObject, Closed, tag, log)
    ensures Run(m, [','] + rest) == Run(m', rest) && At(m', config, below, isObject, Open, tag, log)
  {
    hide Run;
    PunctuationRun(m, ',', rest);
    m' := HandleToken(WithTop(m, Top(m).(lexer := OpenByte(Top(m).lexer, ','))));
  }

  lemma CloseRun(m: Machine, config: Config, below: seq<SubParser>, parent: SubParser, isObject: bool, nested: bool,
      state: State, tag: string, log: seq<Event>, rest: string) returns (m': Machine)
    requires At(m, config, below + [parent], nested, state, tag, log) && Parent(parent, isObject)
    requires state.InitialOpen? || state.Closed?
    ensures Run(m, [if nested then '}' else ']'] + rest) == Run(m', rest)
    ensures At(m', config, below, isObject, Closed, "", log + [CloseEvent(|below| + 1)])
  {
    hide Run, HandleToken;
    CloseHandled(m, config, below, parent, isObject, nested, state, tag, log);
    PunctuationRun(m, if nested then '}' else ']', rest);
    m' := HandleToken(WithTop(m, Top(m).(lexer := OpenByte(Top(m).lexer, if nested then '}' else ']'))));
  }

  /** An object or array that is skipped, for lack of room or of a visitor. */
  lemma SkippedRun(m: Machine, config: Config, below: seq<SubParser>, isObject: bool, log: seq<Event>, v: Json,
      rest: string) returns (m': Machine)
    requires IsObject(v) || IsArray(v)
    requires At(m, config, below, isObject, if IsObject(v) then SkipNestedObject else SkipNestedArray, "", log)
    requires Ok(v) && Depth(v) < SKIP_MODULUS
    ensures Run(m, Body(v, rest)) == Run(m', rest) && At(m', config, below, isObject, Closed, "", log)
  {
    hide Run;
    AtIsValid(m, config, below, isObject, Top(m).state, "", log);
    var last;
    last, m' := SkipExactly(m, v, rest);
  }

  /** Reading a value leads to the outcome of `Reading`, whatever the value. */
  lemma {:induction false} ValueRun(m: Machine, config: Config, below: seq<SubParser>, isObject: bool, state: State,
      tag: string, log: seq<Event>, v: Json, rest: string) returns (m': Machine)
    requires At(m, config, below, isObject, state, tag, log) && ValueState(isObject, state)
    requires Ok(v) && Ends(rest) && Depth(v) < SKIP_MODULUS
    ensures Leads(m, Text(v, rest), Reading(v, config, |below|, TagOf(isObject, tag), log),
                  m', config, below, isObject, rest)
    decreases v, 2
  {
    hide Run, HandleToken, At, Leads;
    if Scalar(v) {
      m' := ScalarRun(m, config, below, isObject, state, tag, log, v, rest);
    } else {
      m' := NestedRun(m, config, below, isObject, state, tag, log, v, rest);
    }
  }

  lemma {:induction false} NestedRun(m: Machine, config: Config, below: seq<SubParser>, isObject: bool, state: State,
      tag: string, log: seq<Event>, v: Json, rest: string) returns (m': Machine)
    requires At(m, config, below, isObject, state, tag, log) && ValueState(isObject, state)
    requires Ok(v) && !Scalar(v) && Depth(v) < SKIP_MODULUS
    ensures Leads(m, Text(v, rest), Reading(v, config, |below|, TagOf(isObject, tag), log),
                  m', config, below, isObject, rest)
    decreases v, 1
  {
    hide Run, HandleToken, At, Dead;
    var nested := IsObject(v);
    var c := if nested then '{' else '[';
    assert Text(v, rest) == [c] + Body(v, rest);
    AtFresh(m, config, below, isObject, state, tag, log);
    PunctuationRun(m, c, Body(v, rest));
    var m1, parent := OpenHandled(m, config, below, isObject, state, tag, log, nested);
    var t := TagOf(isObject, tag);
    var asked := Asked(v, |below|, t, log);
    if |below| + 1 >= config.maxNesting {
      m' := SkippedRun(m1, config, below, isObject, log, v, rest);
    } else if !config.visitor(asked).accept {
      m' := SkippedRun(m1, config, below, isObject, asked, v, rest);
    } else {
      m' := EnteredRun(m1, config, below, parent, isObject, asked, v, rest);
    }
  }

  /** The outcome of what is inside an entered object or array. */
  function BodyReading(v: Json, config: Config, level: nat, log: seq<Event>): Outcome {
    match v
    case Obj(members) => MembersReading(members, config, level, log)
    case Arr(elements) => ElementsReading(elements, config, level, log)
    case _ => Fine(log)
  }

  lemma {:induction false} EnteredRun(m: Machine, config: Config, below: seq<SubParser>, parent: SubParser,
      isObject: bool, log: seq<Event>, v: Json, rest: string) returns (m': Machine)
    requires Ok(v) && !Scalar(v) && Depth(v) < SKIP_MODULUS && Parent(parent, isObject)
    requires At(m, config, below + [parent], IsObject(v), InitialOpen, "", log)
    ensures Leads(m, Body(v, rest), Closing(BodyReading(v, config, |below| + 1, log), |below| + 1),
                  m', config, below, isObject, rest)
    decreases v, 0
  {
    hide Run, HandleToken, At, Dead;
    var levels := below + [parent];
    AtFresh(m, config, levels, IsObject(v), InitialOpen, "", log);
    match v
    case EmptyObj(space) =>
      SpaceRun(m, space, ['}'] + rest);
      m' := CloseRun(m, config, below, parent, isObject, true, InitialOpen, "", log, rest);
    case EmptyArr(space) =>
      SpaceRun(m, space, [']'] + rest);
      m' := CloseRun(m, config, below, parent, isObject, false, InitialOpen, "", log, rest);
    case Obj(members) =>
      m' := MembersRun(m, config, levels, InitialOpen, log, members, ['}'] + rest);
      var outcome := MembersReading(members, config, |levels|, log);
      if outcome.Fine? {
        m' := CloseRun(m', config, below, parent, isObject, true, Closed, "", outcome.log, rest);
      }
    case Arr(elements) =>
      m' := ElementsRun(m, config, levels, InitialOpen, log, elements, [']'] + rest);
      var outcome := ElementsReading(elements, config, |levels|, log);
      if outcome.Fine? {
        m' := CloseRun(m', config, below, parent, isObject, false, Closed, "", outcome.log, rest);
      }
  }

  lemma AtFresh(m: Machine, config: Config, below: seq<SubParser>, isObject: bool, state: State, tag: string,
      log: seq<Event>)
    requires At(m, config, below, isObject, state, tag, log)
    ensures m.levels != [] && Fresh(Top(m).lexer) && Top(m).state == state && m.config == config
    ensures isObject ==> Top(m).tag == tag
  {
  }

  lemma {:induction false} MembersRun(m: Machine, config: Config, below: seq<SubParser>, state: State, log: seq<Event>,
      ms: Members, rest: string) returns (m': Machine)
    requires At(m, config, below, true, state, "", log) && (state.InitialOpen? || state.Open?)
    requires MembersOk(ms) && Ends(rest) && MembersDepth(ms) < SKIP_MODULUS
    ensures Leads(m, MembersText(ms, rest), MembersReading(ms, config, |below|, log), m', config, below, true, rest)
    decreases ms
  {
    hide Run, At, Dead, Text, Reading;
    var x := ms.member;
    var after := if ms.LastMember? then rest else [','] + MembersText(ms.members, rest);
    var text := Text(x.value, x.s3 + after);
    m' := m;
    if !StringAccepted(x.key, config.maxValue) {
      KeyFails(m, config, below, state, log, x, x.s1 + ([':'] + (x.s2 + text)));
    } else {
      AtFresh(m, config, below, true, state, "", log);
      var m1 := KeyRun(m, config, below, state, log, x, text);
      EndsAfterSpace(x.s3, after);
      m' := ValueRun(m1, config, below, true, ValueExpected, Tag(x.key, config), log, x.value, x.s3 + after);
      var outcome := Reading(x.value, config, |below|, Some(Tag(x.key, config)), log);
      if outcome.Fine? {
        AtFresh(m', config, below, true, Closed, "", outcome.log);
        SpaceRun(m', x.s3, after);
        if ms.MoreMembers? {
          m' := CommaRun(m', config, below, true, "", outcome.log, MembersText(ms.members, rest));
          m' := MembersRun(m', config, below, Open, outcome.log, ms.members, rest);
        }
      }
    }
  }

  lemma EndsAfterSpace(space: string, after: string)
    requires Space(space) && Ends(after)
    ensures Ends(space + after)
  {
    if space != [] { assert (space + after)[0] == space[0]; } else { assert space + after == after; }
  }

  lemma {:induction false} ElementsRun(m: Machine, config: Config, below: seq<SubParser>, state: State, log: seq<Event>,
      es: Elements, rest: string) returns (m': Machine)
    requires At(m, config, below, false, state, "", log) && (state.InitialOpen? || state.Open?)
    requires ElementsOk(es) && Ends(rest) && ElementsDepth(es) < SKIP_MODULUS
    ensures Leads(m, ElementsText(es, rest), ElementsReading(es, config, |below|, log), m', config, below, false, rest)
    decreases es
  {
    hide Run, At, Dead, Text, Reading;
    var x := es.element;
    var after := if es.LastElement? then rest else [','] + ElementsText(es.elements, rest);
    AtFresh(m, config, below, false, state, "", log);
    SpaceRun(m, x.s0, Text(x.value, x.s1 + after));
    EndsAfterSpace(x.s1, after);
    m' := ValueRun(m, config, below, false, state, "", log, x.value, x.s1 + after);
    var outcome := Reading(x.value, config, |below|, None, log);
    if outcome.Fine? {
      AtFresh(m', config, below, false, Closed, "", outcome.log);
      SpaceRun(m', x.s1, after);
      if es.MoreElements? {
        m' := CommaRun(m', config, below, false, "", outcome.log, ElementsText(es.elements, rest));
        m' := ElementsRun(m', config, below, Open, outcome.log, es.elements, rest);
      }
    }
  }

  // ---------------------------------------------------------------------------------------------
  // The whole parser
  // ---------------------------------------------------------------------------------------------

  /** A parser as constructed. */
  function Initial(config: Config, isObject: bool): Machine {
    Machine(config, [SubParser(isObject, Init, 0, Lexer(TokenOpen, ErrorToken, "", 0, 1, 0, 0), "")], [])
  }

  /** The callbacks of a whole text, all below the first level's visitor. */
  function TextEvents(v: Json, config: Config): seq<Event> {
    (match v
     case Obj(members) => MembersEvents(members, config, 0, [])
     case Arr(elements) => ElementsEvents(elements, config, 0, [])
     case _ => []) + [CloseEvent(0)]
  }

  lemma StartRun(config: Config, isObject: bool, rest: string) returns (m: Machine)
    requires 1 <= config.maxValue && Quiet(config)
    ensures Run(Initial(config, isObject), [if isObject then '{' else '['] + rest) == Run(m, rest)
    ensures At(m, config, [], isObject, InitialOpen, "", [])
  {
    hide Run;
    var start := Initial(config, isObject);
    var c := if isObject then '{' else '[';
    PunctuationRun(start, c, rest);
    m := HandleToken(WithTop(start, Top(start).(lexer := OpenByte(Top(start).lexer, c))));
  }

  lemma FinishRun(m: Machine, config: Config, isObject: bool, state: State, tag: string, log: seq<Event>, rest: string)
    requires At(m, config, [], isObject, state, tag, log) && (state.InitialOpen? || state.Closed?)
    ensures Run(m, [if isObject then '}' else ']'] + rest) == Machine(config, [], log + [CloseEvent(0)])
  {
    hide Run;
    var c := if isObject then '}' else ']';
    PunctuationRun(m, c, rest);
    var fed := WithTop(m, Top(m).(lexer := OpenByte(Top(m).lexer, c)));
    QuietCall(fed, CloseEvent(0));
    QuietCall(WithTop(fed, Top(fed).(state := Closed)), CloseEvent(0));
    assert HandleToken(fed) == Machine(config, [], log + [CloseEvent(0)]);
    RunDead(HandleToken(fed), rest);
  }

  /** The exact condition for a whole text. */
  predicate TextAccepted(v: Json, config: Config) {
    match v
    case Obj(members) => MembersAccepted(members, config, 0, [])
    case Arr(elements) => ElementsAccepted(elements, config, 0, [])
    case _ => true
  }

  lemma TextOutcome(v: Json, config: Config)
    ensures if TextAccepted(v, config) then Closing(BodyReading(v, config, 0, []), 0) == Fine(TextEvents(v, config))
            else BodyReading(v, config, 0, []).Broken?
  {
    match v
    case Obj(members) => MembersAcceptedIsFine(members, config, 0, []);
    case Arr(elements) => ElementsAcceptedIsFine(elements, config, 0, []);
    case _ =>
  }

  /** Where a text that is not accepted breaks. */
  function Breaking(v: Json, config: Config): (r: Outcome)
    requires !TextAccepted(v, config)
    ensures r.Broken?
  {
    TextOutcome(v, config);
    BodyReading(v, config, 0, [])
  }

  /** What the parser does with any well-formed text whose root is an object or an array: the
      callbacks of `TextEvents`, in that order, if the text is accepted, and otherwise those before
      the break and then a parse error to every level. Nothing after it is looked at. */
  lemma TextOutcomeRun(config: Config, space: string, v: Json, rest: string)
    requires 1 <= config.maxValue && Quiet(config) && Space(space) && (IsObject(v) || IsArray(v))
    requires Ok(v) && Depth(v) <= SKIP_MODULUS
    ensures Run(Initial(config, IsObject(v)), space + Text(v, rest))
         == if TextAccepted(v, config) then Machine(config, [], TextEvents(v, config))
            else Dead(config, Breaking(v, config).log, Breaking(v, config).level)
  {
    hide Run, At, Dead;
    TextOutcome(v, config);
    var isObject := IsObject(v);
    var start := Initial(config, isObject);
    SpaceRun(start, space, Text(v, rest));
    var m := StartRun(config, isObject, Body(v, rest));
    assert Text(v, rest) == [if isObject then '{' else '['] + Body(v, rest);
    AtFresh(m, config, [], isObject, InitialOpen, "", []);
    match v
    case EmptyObj(s) =>
      SpaceRun(m, s, ['}'] + rest);
      FinishRun(m, config, true, InitialOpen, "", [], rest);
    case EmptyArr(s) =>
      SpaceRun(m, s, [']'] + rest);
      FinishRun(m, config, false, InitialOpen, "", [], rest);
    case Obj(members) =>
      var m1 := MembersRun(m, config, [], InitialOpen, [], members, ['}'] + rest);
      if TextAccepted(v, config) {
        FinishRun(m1, config, true, Closed, "", BodyReading(v, config, 0, []).log, rest);
      }
    case Arr(elements) =>
      var m1 := ElementsRun(m, config, [], InitialOpen, [], elements, [']'] + rest);
      if TextAccepted(v, config) {
        FinishRun(m1, config, false, Closed, "", BodyReading(v, config, 0, []).log, rest);
      }
  }

  /** A well-formed text makes exactly the callbacks of `TextEvents` if and only if it is accepted. */
  lemma TextRun(config: Config, space: string, v: Json, rest: string)
    requires 1 <= config.maxValue && Quiet(config) && Space(space) && (IsObject(v) || IsArray(v))
    requires Ok(v) && Depth(v) <= SKIP_MODULUS
    ensures Run(Initial(config, IsObject(v)), space + Text(v, rest)) == Machine(config, [], TextEvents(v, config))
       <==> TextAccepted(v, config)
  {
    hide Run;
    TextOutcomeRun(config, space, v, rest);
    if !TextAccepted(v, config) {
      var broken := Breaking(v, config);
      LastParseError(broken.level + 1);
      var events := broken.log + ParseErrors(broken.level + 1);
      assert events[|events| - 1] == ParseErrorEvent(0);
    }
  }

  lemma {:induction false} LastParseError(count: nat)
    requires count > 0
    ensures |ParseErrors(count)| == count && ParseErrors(count)[count - 1] == ParseErrorEvent(0)
  {
    if count > 1 { LastParseError(count - 1); }
  }

  /** The end to end statement about the parser object, however the text is cut into Feed calls. */
  method ReadText(config: Config, space: string, v: Json, rest: string, chunks: seq<string>) returns (log: seq<Event>)
    requires 1 <= config.maxValue && Quiet(config) && Space(space) && (IsObject(v) || IsArray(v))
    requires Ok(v) && Depth(v) <= SKIP_MODULUS
    requires Joined(chunks) == space + Text(v, rest)
    ensures log == if TextAccepted(v, config) then TextEvents(v, config)
                   else Breaking(v, config).log + ParseErrors(Breaking(v, config).level + 1)
  {
    hide Run;
    var parser := new StreamingParser(config, IsObject(v));
    assert parser.Abstract() == Initial(config, IsObject(v));
    parser.FeedAll(chunks);
    TextOutcomeRun(config, space, v, rest);
    log := parser.log;
  }

  /** An exponent without a fraction is well formed in RFC 8259, but wherever a value is expected it
      makes the parser report the digits before the letter and then a parse error to every level. */
  lemma BareExponentIsAParseError(m: Machine, config: Config, below: seq<SubParser>, isObject: bool, state: State,
      tag: string, log: seq<Event>, v: Json, rest: string)
    requires At(m, config, below, isObject, state, tag, log) && ValueState(isObject, state)
    requires v.Num? && Ok(v) && !NumberAccepted(v)
    ensures Run(m, Text(v, rest)) == Dead(config, Events(v, config, |below|, TagOf(isObject, tag), log), |below|)
  {
    hide Run, HandleToken, FeedLexer;
    var letter := v.exponent.value.letter;
    var exponent := v.exponent.value.text + rest;
    var tail := [letter] + exponent;
    AtIsValid(m, config, below, isObject, state, tag, log);
    var l := LexBareNumber(Top(m).lexer, v, tail, config.maxValue);
    RunToken(m, Text(v, rest), l, tail);
    ScalarHandled(m, config, below, isObject, state, tag, log, l);
    var m1 := HandleToken(WithTop(m, Top(m).(lexer := l)));
    var log' := Events(v, config, |below|, TagOf(isObject, tag), log);
    AtElim(m1, config, below, isObject, Closed, "", log');
    var l1 := Top(m1).lexer.(state := TokenDone, value := [letter], token := ErrorToken);
    LexBareE(Top(m1).lexer, letter, exponent, config.maxValue);
    ErrorRun(m1, config, below, isObject, Closed, "", log', tail, l1, exponent);
  }

  /** Texts of one element on which acceptance is decided by an exponent, by the size of the value
      buffer, and by where a Unicode escape stands. */
  lemma AcceptanceAtInputs(config: Config)
    ensures !TextAccepted(OneElement(Num(false, "1", None, Some(ExponentPart('e', "5")))), config)
    ensures TextAccepted(OneElement(Num(false, "1", Some("5"), Some(ExponentPart('E', "3")))), config)
    ensures TextAccepted(OneElement(Null), config) <==> 4 <= config.maxValue
    ensures TextAccepted(OneElement(Bool(false)), config) <==> 5 <= config.maxValue
    ensures config.maxValue == 1 ==> TextAccepted(OneElement(Str([Unicode('0', '0', '4', '1'), Plain('b')])), config)
    ensures config.maxValue == 1 ==> !TextAccepted(OneElement(Str([Plain('b'), Unicode('0', '0', '4', '1')])), config)
  {
    OneElementAccepted(Num(false, "1", None, Some(ExponentPart('e', "5"))), config);
    OneElementAccepted(Num(false, "1", Some("5"), Some(ExponentPart('E', "3"))), config);
    OneElementAccepted(Null, config);
    OneElementAccepted(Bool(false), config);
    var items := [Plain('b'), Unicode('0', '0', '4', '1')];
    OneElementAccepted(Str([Unicode('0', '0', '4', '1'), Plain('b')]), config);
    OneElementAccepted(Str(items), config);
    assert items[1].Unicode?;
  }

  lemma OneElementAccepted(v: Json, config: Config)
    ensures TextAccepted(OneElement(v), config) == Accepted(v, config, 0, None, [])
  {
  }

  function OneElement(v: Json): Json { Arr(LastElement(Element("", v, ""))) }

  lemma LexBareNumber(l: Lexer, v: Json, rest: string, maxValue: nat) returns (l': Lexer)
    requires v.Num? && Ok(v) && v.fraction.None? && Fresh(l) && rest != [] && IsAlpha(rest[0])
    ensures FeedLexer(l, (if v.negative then ['-'] + (v.digits + rest) else v.digits + rest), true, maxValue)
         == Fed(l', rest)
    ensures l'.state.TokenDone? && l'.token.NumberToken? && l'.sign * l'.number == NumberValue(v)
    ensures l'.unicodeIndex == 0 && l'.unicode == 0
  {
    var text := v.digits + rest;
    if v.negative {
      assert (['-'] + text)[1..] == text;
      LexDigits(l.(state := NumberOpen, number := 0, sign := -1), v.digits, rest, true, maxValue);
      l' := l.(state := TokenDone, token := NumberToken, number := DigitsValue(0, v.digits), sign := -1);
    } else {
      assert text[0] == v.digits[0] && text[1..] == v.digits[1..] + rest;
      LexDigits(l.(state := NumberOpen, number := v.digits[0] as int - '0' as int, sign := 1),
                v.digits[1..], rest, true, maxValue);
      l' := l.(state := TokenDone, token := NumberToken, number := DigitsValue(0, v.digits), sign := 1);
    }
  }

  lemma LexBareE(l: Lexer, letter: char, rest: string, maxValue: nat)
    requires Fresh(l) && letter in {'e', 'E'} && rest != [] && !IsAlpha(rest[0])
    ensures FeedLexer(l, [letter] + rest, true, maxValue)
         == Fed(l.(state := TokenDone, value := [letter], token := ErrorToken), rest)
  {
    assert ([letter] + rest)[1..] == rest;
  }

  // ---------------------------------------------------------------------------------------------
  // Error reports
  // ---------------------------------------------------------------------------------------------

  /** A parse error is reported to every open level, from the innermost out. */
  lemma {:induction false} ParseErrorsAre(count: nat, i: nat)
    requires i < count
    ensures |ParseErrors(count)| == count && ParseErrors(count)[i] == ParseErrorEvent(count - 1 - i)
    decreases count
  {
    if count > 1 { ParseErrorsAre(count - 1, if i > 0 then i - 1 else 0); }
  }

  lemma {:induction false} SemanticErrorsAre(count: nat, i: nat)
    requires i < count
    ensures |SemanticErrors(count)| == count && SemanticErrors(count)[i] == SemanticErrorEvent(count - 1 - i)
    decreases count
  {
    if count > 1 { SemanticErrorsAre(count - 1, if i > 0 then i - 1 else 0); }
  }

  /** A visitor that raises a semantic error on its own level in the callback of a scalar value ends the
      parser: the error is reported to every level below, and not to the one that raised it. */
  lemma SemanticErrorEnds(m: Machine, l: Lexer)
    requires m.levels != [] && ValueState(Top(m).isObject, Top(m).state)
    requires l.token in {StringToken, StringOverflowToken, NumberToken, NullToken, TrueToken, FalseToken}
    requires var level := |m.levels| - 1;
      m.config.visitor(m.log + [ScalarEvent(l, level, TagOf(Top(m).isObject, Top(m).tag))]).semanticErrors == {level}
    ensures var level := |m.levels| - 1;
      HandleToken(WithTop(m, Top(m).(lexer := l)))
      == Machine(m.config, [],
           m.log + [ScalarEvent(l, level, TagOf(Top(m).isObject, Top(m).tag))] + SemanticErrors(level))
  {
    hide SemanticErrors, ParseErrors, OpenNested;
    var level := |m.levels| - 1;
    var e := ScalarEvent(l, level, TagOf(Top(m).isObject, Top(m).tag));
    var fed := WithTop(m, Top(m).(lexer := l));
    assert Top(Call(WithTop(fed, Top(fed).(state := Closed, tag := "")), e)).state == SemanticError;
    assert Top(Call(WithTop(fed, Top(fed).(state := Closed)), e)).state == SemanticError;
  }
}
