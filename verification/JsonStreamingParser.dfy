/** The streaming (push) JSON parser of infra/syntax/JsonStreamingParser.cpp: a byte-fed
    tokenizer per nesting level and a bounded stack of object and array state machines. */
module JsonStreamingParser {
  import opened Common
  import opened JsonSyntax

  // ---------------------------------------------------------------------------------------------
  // Data model
  // ---------------------------------------------------------------------------------------------

  datatype TokenState =
    | TokenOpen
    | TokenDone
    | StringOpen
    | StringOpenAndEscaped
    | StringOverflowOpen
    | UnicodeValueOpen
    | NumberOpen
    | NumberFractionalOpen
    | NumberExponentOpen
    | IdentifierOpen

  datatype Token =
    | ErrorToken | Colon | Comma | LeftBrace | RightBrace | LeftBracket | RightBracket
    | StringToken | StringOverflowToken | NumberToken | TrueToken | FalseToken | NullToken

  /** The tokenizer fields of one nesting level; `value` is the value buffer. */
  datatype Lexer = Lexer(
    state: TokenState, token: Token, value: string,
    number: int, sign: int, unicodeIndex: nat, unicode: nat)

  datatype State =
    | Init | InitialOpen | Open | TagClosed | ValueExpected | Closed
    | SkipNestedObject | SkipNestedArray | ParseError | SemanticError

  /** One nesting level: an object parser or an array parser. */
  datatype SubParser = SubParser(isObject: bool, state: State, skipped: nat, lexer: Lexer, tag: string)

  /** A callback, with the nesting level whose visitor receives it. Members of arrays have no tag. */
  datatype Event =
    | VisitString(level: nat, tag: Option<string>, text: string)
    | VisitNumber(level: nat, tag: Option<string>, number: int)
    | VisitBoolean(level: nat, tag: Option<string>, flag: bool)
    | VisitNull(level: nat, tag: Option<string>)
    | VisitObject(level: nat, tag: Option<string>)
    | VisitArray(level: nat, tag: Option<string>)
    | CloseEvent(level: nat)
    | ParseErrorEvent(level: nat)
    | SemanticErrorEvent(level: nat)
    | StringOverflowEvent(level: nat)

  /** What a visitor does in a callback: return a nested visitor or none, and call SemanticError()
      on any of the sub-parsers it was handed before. */
  datatype Response = Response(accept: bool, semanticErrors: set<nat>)

  /** Any deterministic visitor: its behaviour is a function of all callbacks so far. */
  type Visitor = seq<Event> -> Response

  datatype Config = Config(maxTag: nat, maxValue: nat, maxNesting: nat, visitor: Visitor)

  datatype Machine = Machine(config: Config, levels: seq<SubParser>, log: seq<Event>)

  const SKIP_MODULUS := 0x1_0000_0000

  // ---------------------------------------------------------------------------------------------
  // Tokenizer: one byte
  // ---------------------------------------------------------------------------------------------

  function FoundToken(l: Lexer, token: Token): Lexer {
    l.(state := TokenDone, token := token)
  }

  function AddToValueBuffer(l: Lexer, c: char, saveValue: bool, inString: bool, maxValue: nat): Lexer {
    if |l.value| >= maxValue then
      if inString then l.(state := StringOverflowOpen) else FoundToken(l, ErrorToken)
    else if saveValue then l.(value := l.value + [c])
    else l
  }

  function ProcessEscapedData(l: Lexer, c: char, saveValue: bool, maxValue: nat): Lexer {
    if c == 'u' then l.(state := UnicodeValueOpen)
    else AddToValueBuffer(l, Unescaped(c), saveValue, true, maxValue)
  }

  function IdentifierToken(value: string): Token {
    if value == "true" then TrueToken
    else if value == "false" then FalseToken
    else if value == "null" then NullToken
    else ErrorToken
  }

  /** The tokenizer's reaction, between tokens, to a byte that is not white space. */
  function OpenByte(l: Lexer, c: char): Lexer {
    if c == ':' then FoundToken(l, Colon)
    else if c == ',' then FoundToken(l, Comma)
    else if c == '{' then FoundToken(l, LeftBrace)
    else if c == '}' then FoundToken(l, RightBrace)
    else if c == '[' then FoundToken(l, LeftBracket)
    else if c == ']' then FoundToken(l, RightBracket)
    else if c == '\"' then l.(state := StringOpen)
    else if c == '-' then l.(state := NumberOpen, number := 0, sign := -1)
    else if IsAlpha(c) then l.(state := IdentifierOpen, value := [c])
    else if IsDigit(c) then l.(state := NumberOpen, number := c as int - '0' as int, sign := 1)
    else FoundToken(l, ErrorToken)
  }

  function StringByte(l: Lexer, c: char, saveValue: bool, maxValue: nat): Lexer {
    if c == '\\' then l.(state := StringOpenAndEscaped)
    else if c == '\"' then FoundToken(l, if l.state.StringOpen? then StringToken else StringOverflowToken)
    else AddToValueBuffer(l, c, saveValue, true, maxValue)
  }

  function UnicodeByte(l: Lexer, c: char, saveValue: bool, maxValue: nat): Lexer {
    match HexValue(c)
    case None => FoundToken(l.(unicodeIndex := 0, unicode := 0), ErrorToken)
    case Some(digit) =>
      var unicode := l.unicode * 16 + digit;
      if l.unicodeIndex + 1 != 4 then
        l.(unicodeIndex := l.unicodeIndex + 1, unicode := unicode)
      else
        var closed := l.(state := StringOpen, unicodeIndex := 0, unicode := 0);
        if |l.value| >= maxValue then FoundToken(closed, ErrorToken)
        else AddToValueBuffer(closed, (unicode % 256) as char, saveValue, true, maxValue)
  }

  /** A byte that ends a number or an identifier is not consumed: it also starts what follows. */
  datatype LexStep = LexStep(lexer: Lexer, consumed: bool)

  function LexByte(l: Lexer, c: char, saveValue: bool, maxValue: nat): LexStep {
    match l.state
    case TokenDone => LexStep(l, false)
    case NumberOpen =>
      if IsDigit(c) then LexStep(l.(number := l.number * 10 + (c as int - '0' as int)), true)
      else if c == '.' then LexStep(l.(state := NumberFractionalOpen), true)
      else LexStep(FoundToken(l, NumberToken), false)
    case NumberFractionalOpen =>
      if IsDigit(c) then LexStep(l, true)
      else if c == 'e' || c == 'E' then LexStep(l.(state := NumberExponentOpen), true)
      else LexStep(FoundToken(l, NumberToken), false)
    case NumberExponentOpen =>
      if IsDigit(c) || c == '+' || c == '-' then LexStep(l, true)
      else LexStep(FoundToken(l, NumberToken), false)
    case IdentifierOpen =>
      if IsAlpha(c) then LexStep(AddToValueBuffer(l, c, saveValue, false, maxValue), true)
      else LexStep(FoundToken(l, IdentifierToken(l.value)), false)
    case TokenOpen => LexStep(if IsSpace(c) then l else OpenByte(l, c), true)
    case StringOpen => LexStep(StringByte(l, c, saveValue, maxValue), true)
    case StringOverflowOpen => LexStep(StringByte(l, c, saveValue, maxValue), true)
    case StringOpenAndEscaped =>
      LexStep(ProcessEscapedData(l.(state := StringOpen), c, saveValue, maxValue), true)
    case UnicodeValueOpen => LexStep(UnicodeByte(l, c, saveValue, maxValue), true)
  }

  datatype Fed = Fed(lexer: Lexer, rest: string)

  /** Feeds bytes one at a time until a token is done or the bytes run out. */
  function FeedLexer(l: Lexer, data: string, saveValue: bool, maxValue: nat): Fed
    decreases |data|
  {
    if data == [] || l.state.TokenDone? then Fed(l, data)
    else
      var step := LexByte(l, data[0], saveValue, maxValue);
      if step.consumed then FeedLexer(step.lexer, data[1..], saveValue, maxValue)
      else Fed(step.lexer, data)
  }

  /** JsonSubParser::FeedToken, with its inner loops over white space and over string contents:
      it does to the tokenizer exactly what feeding single bytes does. */
  method FeedToken(l: Lexer, data: string, saveValue: bool, maxValue: nat) returns (lexer: Lexer, rest: string)
    ensures Fed(lexer, rest) == FeedLexer(l, data, saveValue, maxValue)
  {
    lexer, rest := l, data;
    while rest != [] && !lexer.state.TokenDone?
      invariant FeedLexer(lexer, rest, saveValue, maxValue) == FeedLexer(l, data, saveValue, maxValue)
      decreases |rest|, if lexer.state.TokenDone? then 0 else 1
    {
      ghost var before := |rest|;
      var c := rest[0];
      if lexer.state.TokenOpen? {
        rest := rest[1..];
        if IsSpace(c) {
          while rest != [] && IsSpace(rest[0])
            invariant lexer.state.TokenOpen? && |rest| < before
            invariant FeedLexer(lexer, rest, saveValue, maxValue) == FeedLexer(l, data, saveValue, maxValue)
          {
            rest := rest[1..];
          }
        } else {
          lexer := OpenByte(lexer, c);
        }
      } else if lexer.state.StringOpen? || lexer.state.StringOverflowOpen? {
        rest := rest[1..];
        while true
          invariant lexer.state.StringOpen? || lexer.state.StringOverflowOpen?
          invariant |rest| < before
          invariant FeedLexer(StringByte(lexer, c, saveValue, maxValue), rest, saveValue, maxValue)
               == FeedLexer(l, data, saveValue, maxValue)
          decreases |rest|
        {
          lexer := StringByte(lexer, c, saveValue, maxValue);
          if (!lexer.state.StringOpen? && !lexer.state.StringOverflowOpen?) || rest == [] {
            break;
          }
          c := rest[0];
          rest := rest[1..];
        }
      } else {
        var step := LexByte(lexer, c, saveValue, maxValue);
        lexer := step.lexer;
        if step.consumed {
          rest := rest[1..];
        }
      }
    }
  }

  // ---------------------------------------------------------------------------------------------
  // Levels: one token
  // ---------------------------------------------------------------------------------------------

  function Top(m: Machine): SubParser
    requires m.levels != []
  {
    m.levels[|m.levels| - 1]
  }

  function WithTop(m: Machine, top: SubParser): Machine
    requires m.levels != []
  {
    m.(levels := m.levels[|m.levels| - 1 := top])
  }

  function Pop(m: Machine): Machine
    requires m.levels != []
  {
    m.(levels := m.levels[..|m.levels| - 1])
  }

  function SaveValue(p: SubParser): bool {
    !p.state.SkipNestedObject? && !p.state.SkipNestedArray?
  }

  /** SemanticError() called by the visitor on the levels in `marks`. */
  function Marked(levels: seq<SubParser>, marks: set<nat>): (r: seq<SubParser>)
    ensures |r| == |levels|
  {
    seq(|levels|, i requires 0 <= i < |levels| =>
      if i in marks then levels[i].(state := SemanticError) else levels[i])
  }

  function Call(m: Machine, e: Event): (r: Machine)
    ensures |r.levels| == |m.levels|
  {
    var log := m.log + [e];
    m.(log := log, levels := Marked(m.levels, m.config.visitor(log).semanticErrors))
  }

  function NewLexer(parent: Lexer): Lexer {
    Lexer(TokenOpen, ErrorToken, parent.value, 0, 1, 0, 0)
  }

  /** A constructor of a nested parser: the object parser clears its copy of the tag. */
  function NewLevel(parent: SubParser, isObject: bool): SubParser {
    SubParser(isObject, InitialOpen, 0, NewLexer(parent.lexer), if isObject then "" else parent.tag)
  }

  /** A nested value opens: push a level and ask the visitor, or skip the value. `tag` is cleared
      by the caller's level afterwards in objects. */
  function OpenNested(m: Machine, isObject: bool, tag: Option<string>): (r: Machine)
    requires m.levels != []
    ensures r.levels != []
  {
    var top := Top(m);
    var skip := if isObject then SkipNestedObject else SkipNestedArray;
    var level := |m.levels| - 1;
    if |m.levels| >= m.config.maxNesting then
      WithTop(m, top.(lexer := top.lexer.(state := TokenOpen), state := skip))
    else
      var closed := WithTop(m, top.(lexer := top.lexer.(state := TokenOpen), state := Closed));
      var pushed := closed.(levels := closed.levels + [NewLevel(Top(closed), isObject)]);
      var called := Call(pushed, if isObject then VisitObject(level, tag) else VisitArray(level, tag));
      if called.config.visitor(called.log).accept then called
      else
        var popped := Pop(called);
        WithTop(popped, Top(popped).(state := skip))
  }

  function ClearTag(m: Machine, level: nat): Machine
    requires level < |m.levels|
  {
    m.(levels := m.levels[level := m.levels[level].(tag := "")])
  }

  /** A token while a nested value is being skipped; the counter is a 32-bit unsigned number. */
  function SkipToken(p: SubParser): SubParser {
    var left := if p.state.SkipNestedObject? then LeftBrace else LeftBracket;
    var right := if p.state.SkipNestedObject? then RightBrace else RightBracket;
    if p.lexer.token == right then
      if p.skipped == 0 then p.(state := Closed) else p.(skipped := p.skipped - 1)
    else if p.lexer.token == left then p.(skipped := (p.skipped + 1) % SKIP_MODULUS)
    else p
  }

  /** What a token does: `leave` says that the level's Feed returns at once. */
  datatype Handled = Handled(machine: Machine, leave: bool)

  function Value(m: Machine, e: Event): Handled
    requires m.levels != []
  {
    Handled(Call(WithTop(m, Top(m).(state := Closed, tag := "")), e), false)
  }

  function Close(m: Machine): Handled
    requires m.levels != []
  {
    Handled(Pop(Call(m, CloseEvent(|m.levels| - 1))), true)
  }

  function HandleObjectToken(m: Machine): (r: Handled)
    requires m.levels != []
    ensures r.leave || |r.machine.levels| == |m.levels|
  {
    var top := Top(m);
    var token := top.lexer.token;
    var level := |m.levels| - 1;
    var tag := Some(top.tag);
    if (top.state.InitialOpen? || top.state.Open?) && (token.StringToken? || token.StringOverflowToken?) then
      Handled(WithTop(m, top.(state := TagClosed, tag := Head(top.lexer.value, m.config.maxTag))), false)
    else if top.state.TagClosed? && token.Colon? then
      Handled(WithTop(m, top.(state := ValueExpected)), false)
    else if top.state.ValueExpected? && token.StringToken? then
      Value(m, VisitString(level, tag, top.lexer.value))
    else if top.state.ValueExpected? && token.StringOverflowToken? then
      Value(m, StringOverflowEvent(level))
    else if top.state.Closed? && token.Comma? then
      Handled(WithTop(m, top.(state := Open)), false)
    else if top.state.Init? then
      Handled(WithTop(m, top.(state := if token.LeftBrace? then InitialOpen else ParseError)), false)
    else if top.state.ValueExpected? && token.LeftBrace? then
      Handled(ClearTag(OpenNested(m, true, tag), level), true)
    else if top.state.ValueExpected? && token.LeftBracket? then
      Handled(ClearTag(OpenNested(m, false, tag), level), true)
    else if top.state.ValueExpected? && token.NumberToken? then
      Value(m, VisitNumber(level, tag, top.lexer.sign * top.lexer.number))
    else if top.state.ValueExpected? && token.FalseToken? then
      Value(m, VisitBoolean(level, tag, false))
    else if top.state.ValueExpected? && token.TrueToken? then
      Value(m, VisitBoolean(level, tag, true))
    else if top.state.ValueExpected? && token.NullToken? then
      Value(m, VisitNull(level, tag))
    else if (top.state.InitialOpen? || top.state.Closed?) && token.RightBrace? then
      Close(m)
    else if top.state.SkipNestedObject? || top.state.SkipNestedArray? then
      Handled(WithTop(m, SkipToken(top)), false)
    else
      Handled(WithTop(m, top.(state := ParseError)), false)
  }

  function ArrayValue(m: Machine, e: Event): Handled
    requires m.levels != []
  {
    Handled(Call(WithTop(m, Top(m).(state := Closed)), e), false)
  }

  function HandleArrayToken(m: Machine): (r: Handled)
    requires m.levels != []
    ensures r.leave || |r.machine.levels| == |m.levels|
  {
    var top := Top(m);
    var token := top.lexer.token;
    var level := |m.levels| - 1;
    var open := top.state.InitialOpen? || top.state.Open?;
    if open && token.StringToken? then
      ArrayValue(m, VisitString(level, None, top.lexer.value))
    else if open && token.StringOverflowToken? then
      ArrayValue(m, StringOverflowEvent(level))
    else if open && token.FalseToken? then
      ArrayValue(m, VisitBoolean(level, None, false))
    else if open && token.TrueToken? then
      ArrayValue(m, VisitBoolean(level, None, true))
    else if open && token.NullToken? then
      ArrayValue(m, VisitNull(level, None))
    else if open && token.NumberToken? then
      Value(m, VisitNumber(level, None, top.lexer.sign * top.lexer.number))
    else if (top.state.InitialOpen? || top.state.Closed?) && token.RightBracket? then
      Close(WithTop(m, top.(state := Closed)))
    else if open && token.LeftBrace? then
      Handled(OpenNested(m, true, None), true)
    else if open && token.LeftBracket? then
      Handled(OpenNested(m, false, None), true)
    else if top.state.Init? then
      Handled(WithTop(m, top.(state := if token.LeftBracket? then InitialOpen else ParseError)), false)
    else if top.state.SkipNestedObject? || top.state.SkipNestedArray? then
      Handled(WithTop(m, SkipToken(top)), false)
    else if top.state.Closed? && token.Comma? then
      Handled(WithTop(m, top.(state := Open)), false)
    else
      Handled(WithTop(m, top.(state := ParseError)), false)
  }

  /** The end of the token loop's body: the value buffer is cleared and a new token may start. */
  function Reopen(m: Machine): Machine
    requires m.levels != []
  {
    var top := Top(m);
    WithTop(m, top.(lexer := top.lexer.(value := "", state := TokenOpen)))
  }

  function ParseErrors(count: nat): seq<Event> {
    if count == 0 then [] else [ParseErrorEvent(count - 1)] + ParseErrors(count - 1)
  }

  function SemanticErrors(count: nat): seq<Event> {
    if count == 0 then [] else [SemanticErrorEvent(count - 1)] + SemanticErrors(count - 1)
  }

  /** The error reports after the token loop. A semantic error is not reported to the level that
      raised it. */
  function Report(m: Machine): Machine {
    if m.levels == [] then m
    else if Top(m).state.ParseError? then m.(levels := [], log := m.log + ParseErrors(|m.levels|))
    else if Top(m).state.SemanticError? then m.(levels := [], log := m.log + SemanticErrors(|m.levels| - 1))
    else m
  }

  function HandleTokenUnreported(m: Machine): Handled
    requires m.levels != []
  {
    var h := if Top(m).isObject then HandleObjectToken(m) else HandleArrayToken(m);
    if h.leave then h else Handled(Reopen(h.machine), false)
  }

  function HandleToken(m: Machine): Machine
    requires m.levels != []
  {
    var h := HandleTokenUnreported(m);
    if h.leave then h.machine else Report(h.machine)
  }

  // ---------------------------------------------------------------------------------------------
  // The specification: one byte at a time
  // ---------------------------------------------------------------------------------------------

  function LexTop(m: Machine, c: char): LexStep
    requires m.levels != []
  {
    LexByte(Top(m).lexer, c, SaveValue(Top(m)), m.config.maxValue)
  }

  /** Consumes a byte and completes the token it completes. */
  function Consume(m: Machine, c: char): Machine {
    if m.levels == [] then m
    else
      var step := LexTop(m, c);
      var fed := WithTop(m, Top(m).(lexer := step.lexer));
      if step.lexer.state.TokenDone? then HandleToken(fed) else fed
  }

  /** Completes the number or identifier that this byte ends, if there is one. */
  function Flush(m: Machine, c: char): Machine
    requires m.levels != []
  {
    var step := LexTop(m, c);
    if step.consumed then m else HandleToken(WithTop(m, Top(m).(lexer := step.lexer)))
  }

  function StepByte(m: Machine, c: char): Machine {
    if m.levels == [] || Top(m).state.SemanticError? then Report(m)
    else Consume(Flush(m, c), c)
  }

  function Run(m: Machine, data: string): Machine
    decreases |data|
  {
    if data == [] then m else Run(StepByte(m, data[0]), data[1..])
  }

  /** A level that is not inside a token and has no error left to report. */
  predicate Calm(p: SubParser) { p.lexer.state.TokenOpen? && !p.state.ParseError? }

  predicate CalmBelow(levels: seq<SubParser>, count: int) {
    forall i :: 0 <= i < |levels| && i < count ==> Calm(levels[i])
  }

  /** What holds between Feed calls: only the top level is inside a token, and no token or parse
      error is left unhandled. */
  predicate Valid(m: Machine) {
    && 1 <= m.config.maxValue
    && CalmBelow(m.levels, |m.levels| - 1)
    && (m.levels != [] ==> !Top(m).lexer.state.TokenDone? && !Top(m).state.ParseError?)
  }

  // ---------------------------------------------------------------------------------------------
  // Lemmas
  // ---------------------------------------------------------------------------------------------

  lemma OpenNestedCalm(m: Machine, isObject: bool, tag: Option<string>)
    requires m.levels != [] && CalmBelow(m.levels, |m.levels| - 1)
    ensures var r := OpenNested(m, isObject, tag);
      r.config == m.config && |r.levels| >= |m.levels| && CalmBelow(r.levels, |r.levels|)
  {
  }

  lemma HandleObjectTokenCalm(m: Machine)
    requires m.levels != [] && CalmBelow(m.levels, |m.levels| - 1)
    ensures var r := HandleObjectToken(m);
      && r.machine.config == m.config
      && CalmBelow(r.machine.levels, if r.leave then |r.machine.levels| else |m.levels| - 1)
  {
    hide OpenNested;
    OpenNestedCalm(m, true, Some(Top(m).tag));
    OpenNestedCalm(m, false, Some(Top(m).tag));
  }

  lemma HandleArrayTokenCalm(m: Machine)
    requires m.levels != [] && CalmBelow(m.levels, |m.levels| - 1)
    ensures var r := HandleArrayToken(m);
      && r.machine.config == m.config
      && CalmBelow(r.machine.levels, if r.leave then |r.machine.levels| else |m.levels| - 1)
  {
    hide OpenNested;
    OpenNestedCalm(m, true, None);
    OpenNestedCalm(m, false, None);
  }

  lemma HandleTokenCalm(m: Machine)
    requires m.levels != [] && CalmBelow(m.levels, |m.levels| - 1)
    ensures var r := HandleTokenUnreported(m);
      && r.machine.config == m.config
      && CalmBelow(r.machine.levels, if r.leave then |r.machine.levels| else |m.levels| - 1)
      && (!r.leave ==> |r.machine.levels| == |m.levels| && Top(r.machine).lexer.state.TokenOpen?)
    ensures var h := HandleToken(m);
      h.config == m.config && CalmBelow(h.levels, |h.levels|)
  {
    HandleObjectTokenCalm(m);
    HandleArrayTokenCalm(m);
  }

  lemma {:induction false} RunDead(m: Machine, data: string)
    requires m.levels == []
    ensures Run(m, data) == m
    decreases |data|
  {
    if data != [] { RunDead(m, data[1..]); }
  }

  /** Between tokens, a byte only needs to be consumed: there is nothing to flush. */
  lemma StepByteBetweenTokens(m: Machine, c: char)
    requires m.levels != [] ==> Top(m).lexer.state.TokenOpen?
    ensures StepByte(m, c) == if m.levels != [] && Top(m).state.SemanticError? then Report(m) else Consume(m, c)
  {
  }

  /** Numbers and identifiers never make a level's Feed return. */
  lemma ScalarTokenStays(m: Machine)
    requires m.levels != []
    requires Top(m).lexer.token in {NumberToken, TrueToken, FalseToken, NullToken, ErrorToken}
    ensures !HandleTokenUnreported(m).leave
    ensures HandleToken(m).levels != [] ==> !Top(HandleToken(m)).state.SemanticError?
  {
  }

  lemma NotConsumedIsDone(l: Lexer, c: char, saveValue: bool, maxValue: nat)
    ensures LexByte(l, c, saveValue, maxValue).consumed || LexByte(l, c, saveValue, maxValue).lexer.state.TokenDone?
  {
  }

  /** A byte that ends a number or an identifier acts as if it came after the finished token. */
  lemma StepFlushes(m: Machine, c: char)
    requires Valid(m) && m.levels != [] && !Top(m).state.SemanticError? && !LexTop(m, c).consumed
    ensures StepByte(m, c) == StepByte(HandleToken(WithTop(m, Top(m).(lexer := LexTop(m, c).lexer))), c)
  {
    var m1 := WithTop(m, Top(m).(lexer := LexTop(m, c).lexer));
    ScalarTokenStays(m1);
    HandleTokenCalm(m1);
    StepByteBetweenTokens(HandleToken(m1), c);
  }

  /** One run of the tokenizer, up to the end of a token or of the data, is a run of single bytes. */
  lemma {:induction false} FeedLexerIsRun(m: Machine, data: string)
    requires Valid(m) && m.levels != [] && !Top(m).state.SemanticError?
    ensures
      var fed := FeedLexer(Top(m).lexer, data, SaveValue(Top(m)), m.config.maxValue);
      var m' := WithTop(m, Top(m).(lexer := fed.lexer));
      if fed.lexer.state.TokenDone? then Run(m, data) == Run(HandleToken(m'), fed.rest)
      else fed.rest == [] && Run(m, data) == m'
    decreases |data|
  {
    hide HandleToken, LexByte;
    if data == [] {
      assert WithTop(m, Top(m).(lexer := Top(m).lexer)) == m;
    } else {
      var c := data[0];
      var step := LexTop(m, c);
      var m1 := WithTop(m, Top(m).(lexer := step.lexer));
      NotConsumedIsDone(Top(m).lexer, c, SaveValue(Top(m)), m.config.maxValue);
      if !step.consumed {
        StepFlushes(m, c);
      } else {
        assert StepByte(m, c) == if step.lexer.state.TokenDone? then HandleToken(m1) else m1;
        if !step.lexer.state.TokenDone? {
          FeedLexerIsRun(m1, data[1..]);
          var fed := FeedLexer(step.lexer, data[1..], SaveValue(Top(m)), m.config.maxValue);
          assert WithTop(m1, Top(m1).(lexer := fed.lexer)) == WithTop(m, Top(m).(lexer := fed.lexer));
        }
      }
    }
  }

  /** Running over a concatenation is running over its parts. */
  lemma {:induction false} RunConcat(m: Machine, a: string, b: string)
    ensures Run(m, a + b) == Run(Run(m, a), b)
    decreases |a|
  {
    hide StepByte;
    if a == [] {
      assert a + b == b;
    } else {
      assert (a + b)[0] == a[0] && (a + b)[1..] == a[1..] + b;
      RunConcat(StepByte(m, a[0]), a[1..], b);
    }
  }

  lemma {:induction false} RunValid(m: Machine, data: string)
    requires Valid(m)
    ensures Valid(Run(m, data))
    decreases |data|
  {
    if data != [] {
      StepByteValid(m, data[0]);
      RunValid(StepByte(m, data[0]), data[1..]);
    }
  }

  lemma ConsumeValid(m: Machine, c: char)
    requires Valid(m)
    requires m.levels != [] ==> LexTop(m, c).consumed
    ensures Valid(Consume(m, c))
  {
    hide HandleToken, LexByte;
    if m.levels != [] {
      HandleTokenCalm(WithTop(m, Top(m).(lexer := LexTop(m, c).lexer)));
    }
  }

  lemma StepByteValid(m: Machine, c: char)
    requires Valid(m)
    ensures Valid(StepByte(m, c))
  {
    hide HandleToken, Consume;
    if m.levels != [] && !Top(m).state.SemanticError? {
      HandleTokenCalm(WithTop(m, Top(m).(lexer := LexTop(m, c).lexer)));
      ConsumeValid(Flush(m, c), c);
    }
  }

  /** A run of the tokenizer consumes something, or ends a number or identifier. */
  lemma {:induction false} FeedLexerProgress(l: Lexer, data: string, saveValue: bool, maxValue: nat)
    requires data != [] && !l.state.TokenDone?
    ensures var fed := FeedLexer(l, data, saveValue, maxValue);
      || (|fed.rest| < |data| && Suffix(fed.rest, data))
      || (&& fed.rest == data && !l.state.TokenOpen? && fed.lexer.state.TokenDone?
          && fed.lexer.token in {NumberToken, TrueToken, FalseToken, NullToken, ErrorToken})
  {
    hide Suffix;
    FeedLexerShortens(LexByte(l, data[0], saveValue, maxValue).lexer, data[1..], saveValue, maxValue);
    var rest := FeedLexer(LexByte(l, data[0], saveValue, maxValue).lexer, data[1..], saveValue, maxValue).rest;
    SuffixLength(rest, data[1..]);
    SuffixTail(rest, data, 1);
  }

  lemma {:induction false} FeedLexerShortens(l: Lexer, data: string, saveValue: bool, maxValue: nat)
    ensures Suffix(FeedLexer(l, data, saveValue, maxValue).rest, data)
    decreases |data|
  {
    hide LexByte, Suffix;
    SuffixEnds(data);
    if data != [] {
      var next := LexByte(l, data[0], saveValue, maxValue).lexer;
      FeedLexerShortens(next, data[1..], saveValue, maxValue);
      SuffixTail(FeedLexer(next, data[1..], saveValue, maxValue).rest, data, 1);
    }
  }

  lemma RunEnd(m: Machine, rest: string)
    requires rest == [] || m.levels == []
    ensures Run(m, rest) == m
  {
    if rest != [] { RunDead(m, rest); }
  }

  /** An error that a callback left behind is reported before the next byte is looked at. */
  lemma PendingReport(m: Machine, data: string)
    requires data != [] && Valid(m)
    ensures Run(Report(m), data) == Run(m, data)
  {
    if m.levels != [] && Top(m).state.SemanticError? {
      RunDead(Report(m), data[1..]);
    }
  }

  /** Two machines that do the same from here on. A token that is ended by a byte behind it may be
      handled in one of them already. */
  ghost predicate Agree(p: Machine, m: Machine, rest: string) {
    if rest == [] then p == m else StepByte(p, rest[0]) == StepByte(m, rest[0])
  }

  lemma AgreeRun(p: Machine, m: Machine, rest: string, data: string)
    requires Agree(p, m, rest) && rest != [] && data != [] && data[0] == rest[0]
    ensures Run(p, data) == Run(m, data)
  {
  }

  /** What has been consumed when `rest` is left. */
  function Used(data: string, rest: string): string
    requires |rest| <= |data|
  {
    data[..|data| - |rest|]
  }

  lemma UsedTogether(data: string, before: string, rest: string)
    requires Suffix(before, data) && Suffix(rest, before)
    ensures Suffix(rest, data) && Used(data, rest) == Used(data, before) + Used(before, rest)
  {
    SuffixTrans(rest, before, data);
    assert before == data[|data| - |before|..];
  }

  lemma AgreeStart(m: Machine, data: string)
    requires Valid(m) && data != []
    ensures Agree(Run(m, Used(data, data)), Report(m), data)
  {
    RunEnd(m, []);
    assert Used(data, data) == [];
    PendingReport(m, data[..1]);
    RunOne(m, data[..1]);
    RunOne(Report(m), data[..1]);
  }

  lemma RunOne(m: Machine, data: string)
    requires |data| == 1
    ensures Run(m, data) == StepByte(m, data[0])
  {
    RunEnd(StepByte(m, data[0]), data[1..]);
  }

  /** At the end of a level's loop, everything is consumed or reported. */
  lemma AgreeEnd(start: Machine, data: string, m: Machine, rest: string)
    requires Suffix(rest, data) && Agree(Run(start, Used(data, rest)), Report(m), rest)
    requires rest == [] || Report(m).levels == []
    ensures Run(start, data) == Report(m) && Used(data, []) == data
  {
    hide Run, Report, Suffix;
    SuffixSplits(rest, data);
    RunConcat(start, Used(data, rest), rest);
    RunEnd(Report(m), rest);
    if rest != [] {
      AgreeRun(Run(start, Used(data, rest)), Report(m), rest, rest);
    } else {
      RunEnd(Run(start, Used(data, rest)), rest);
    }
  }

  /** What the tokenizer makes of just the bytes it has consumed, or of those and the byte that ended
      its token. */
  lemma {:induction false} FeedLexerCut(l: Lexer, data: string, saveValue: bool, maxValue: nat)
    ensures var fed := FeedLexer(l, data, saveValue, maxValue);
      && |fed.rest| <= |data|
      && var used := data[..|data| - |fed.rest|];
      || FeedLexer(l, used, saveValue, maxValue) == Fed(fed.lexer, [])
      || (&& fed.rest != [] && fed.lexer.token in {NumberToken, TrueToken, FalseToken, NullToken, ErrorToken}
          && FeedLexer(l, used + [fed.rest[0]], saveValue, maxValue) == Fed(fed.lexer, [fed.rest[0]]))
    decreases |data|
  {
    hide LexByte;
    if data != [] && !l.state.TokenDone? {
      var step := LexByte(l, data[0], saveValue, maxValue);
      if step.consumed {
        FeedLexerCut(step.lexer, data[1..], saveValue, maxValue);
        var rest := FeedLexer(l, data, saveValue, maxValue).rest;
        var used, inner := data[..|data| - |rest|], data[1..][..|data| - 1 - |rest|];
        assert used == [data[0]] + inner && used[1..] == inner;
        if rest != [] { assert (used + [rest[0]])[1..] == inner + [rest[0]]; }
      } else {
        NotConsumedIsScalar(l, data[0], saveValue, maxValue);
        assert data[..0] + [data[0]] == [data[0]];
      }
    }
  }

  lemma NotConsumedIsScalar(l: Lexer, c: char, saveValue: bool, maxValue: nat)
    ensures var step := LexByte(l, c, saveValue, maxValue);
      step.consumed || l.state.TokenDone? ||
      (step.lexer.state.TokenDone? && step.lexer.token in {NumberToken, TrueToken, FalseToken, NullToken, ErrorToken})
  {
  }

  /** One token of a level, against the machine that has taken the bytes before it one at a time. */
  lemma AgreeStep(p: Machine, m: Machine, data: string)
    requires Valid(m) && m.levels != [] && !Top(m).state.SemanticError? && data != [] && Agree(p, m, data)
    ensures
      var fed := FeedLexer(Top(m).lexer, data, SaveValue(Top(m)), m.config.maxValue);
      var m' := WithTop(m, Top(m).(lexer := fed.lexer));
      && |fed.rest| <= |data|
      && var used := data[..|data| - |fed.rest|];
      if !fed.lexer.state.TokenDone? then fed.rest == [] && Run(p, used) == m'
      else
        && Agree(Run(p, used), HandleToken(m'), fed.rest)
        && (fed.lexer.token in {NumberToken, TrueToken, FalseToken, NullToken, ErrorToken}
            || Run(p, used) == HandleToken(m'))
  {
    hide StepByte, HandleToken, FeedLexer, Valid;
    var l := Top(m).lexer;
    var save := SaveValue(Top(m));
    var fed := FeedLexer(l, data, save, m.config.maxValue);
    FeedLexerIsRun(m, data);
    FeedLexerCut(l, data, save, m.config.maxValue);
    var used := data[..|data| - |fed.rest|];
    if !fed.lexer.state.TokenDone? {
      AgreeRun(p, m, data, data);
      assert used == data;
    } else {
      FeedLexerShortens(l, data, save, m.config.maxValue);
      SuffixSplits(fed.rest, data);
      AgreeToken(p, m, data, used, fed);
    }
  }

  lemma AgreeToken(p: Machine, m: Machine, data: string, used: string, fed: Fed)
    requires Valid(m) && m.levels != [] && !Top(m).state.SemanticError? && data != [] && Agree(p, m, data)
    requires fed == FeedLexer(Top(m).lexer, data, SaveValue(Top(m)), m.config.maxValue) && fed.lexer.state.TokenDone?
    requires |fed.rest| <= |data| && used == data[..|data| - |fed.rest|] && (fed.rest != [] ==> data == used + fed.rest)
    ensures
      var h := HandleToken(WithTop(m, Top(m).(lexer := fed.lexer)));
      && Agree(Run(p, used), h, fed.rest)
      && (fed.lexer.token in {NumberToken, TrueToken, FalseToken, NullToken, ErrorToken} || Run(p, used) == h)
  {
    hide StepByte, HandleToken, FeedLexer, LexByte, SaveValue;
    var l := Top(m).lexer;
    var save := SaveValue(Top(m));
    FeedLexerCut(l, data, save, m.config.maxValue);
    FeedNothing(l, save, m.config.maxValue);
    if used != [] && FeedLexer(l, used, save, m.config.maxValue) == Fed(fed.lexer, []) {
      FeedLexerIsRun(m, used);
      AgreeRun(p, m, data, used);
    } else {
      var next := [fed.rest[0]];
      FeedLexerIsRun(m, used + next);
      AgreeRun(p, m, data, used + next);
      RunConcat(p, used, next);
      RunOne(Run(p, used), next);
      RunOne(HandleToken(WithTop(m, Top(m).(lexer := fed.lexer))), next);
    }
  }

  lemma FeedNothing(l: Lexer, saveValue: bool, maxValue: nat)
    ensures FeedLexer(l, [], saveValue, maxValue) == Fed(l, [])
  {
  }

  // ---------------------------------------------------------------------------------------------
  // The parser object
  // ---------------------------------------------------------------------------------------------

  class StreamingParser {
    const config: Config
    var levels: seq<SubParser>
    var log: seq<Event>

    ghost function Abstract(): Machine
      reads this
    {
      Machine(config, levels, log)
    }

    /** Both streaming parsers: a first level that expects `{` or `[`. */
    constructor (config: Config, isObject: bool)
      requires 1 <= config.maxValue
      ensures this.config == config && log == []
      ensures levels == [SubParser(isObject, Init, 0, Lexer(TokenOpen, ErrorToken, "", 0, 1, 0, 0), "")]
      ensures Valid(Abstract())
    {
      this.config := config;
      levels := [SubParser(isObject, Init, 0, Lexer(TokenOpen, ErrorToken, "", 0, 1, 0, 0), "")];
      log := [];
    }

    /** JsonStreamingObjectParser::Feed and JsonStreamingArrayParser::Feed. */
    method Feed(data: string)
      requires Valid(Abstract())
      modifies this
      ensures Valid(Abstract()) && Abstract() == Run(old(Abstract()), data)
    {
      hide Run, Valid;
      var rest := data;
      RunEnd(Abstract(), []);
      assert data[..0] == [];
      SuffixEnds(data);
      while rest != [] && levels != []
        invariant Valid(Abstract()) && Suffix(rest, data) && Abstract() == Run(old(Abstract()), Used(data, rest))
        decreases |rest|
      {
        ghost var before, m := rest, Abstract();
        rest := FeedLevel(rest);
        UsedTogether(data, before, rest);
        RunConcat(old(Abstract()), Used(data, before), Used(before, rest));
      }
      RunConcat(old(Abstract()), Used(data, rest), rest);
      assert Used(data, rest) + rest == data;
      RunEnd(Abstract(), rest);
    }

    /** JsonSubObjectParser::Feed and JsonSubArrayParser::Feed of the top level: it consumes a part of the
        data, and acts as the single bytes of that part do. */
    method FeedLevel(data: string) returns (rest: string)
      requires Valid(Abstract()) && levels != [] && data != []
      modifies this
      ensures |rest| < |data| && Suffix(rest, data)
      ensures Valid(Abstract()) && Abstract() == Run(old(Abstract()), Used(data, rest))
    {
      hide Run, Suffix, SaveValue, HandleTokenUnreported, FeedLexer, ParseErrors, SemanticErrors, Agree;
      rest := data;
      SuffixEnds(data);
      AgreeStart(Abstract(), data);
      while rest != [] && !levels[|levels| - 1].state.ParseError? && !levels[|levels| - 1].state.SemanticError?
        invariant levels != [] && config.maxValue >= 1
        invariant CalmBelow(levels, |levels| - 1) && !Top(Abstract()).lexer.state.TokenDone?
        invariant |rest| <= |data| && Suffix(rest, data)
        invariant Agree(Run(old(Abstract()), Used(data, rest)), Report(Abstract()), rest)
        decreases |rest|, if Top(Abstract()).lexer.state.TokenOpen? then 0 else 1
      {
        var top := levels[|levels| - 1];
        ghost var p, before := Run(old(Abstract()), Used(data, rest)), rest;
        AgreeStep(p, Abstract(), rest);
        var lexer, r := FeedToken(top.lexer, rest, SaveValue(top), config.maxValue);
        FeedLexerProgress(top.lexer, rest, SaveValue(top), config.maxValue);
        levels := levels[|levels| - 1 := top.(lexer := lexer)];
        SuffixTrans(r, rest, data);
        rest := r;
        UsedTogether(data, before, rest);
        RunConcat(old(Abstract()), Used(data, before), Used(before, rest));
        if !lexer.state.TokenDone? {
          return;
        }
        HandleTokenCalm(Abstract());
        if lexer.token in {NumberToken, TrueToken, FalseToken, NullToken, ErrorToken} {
          ScalarTokenStays(Abstract());
        }
        var handled := HandleTokenUnreported(Machine(config, levels, log));
        levels, log := handled.machine.levels, handled.machine.log;
        assert Abstract() == handled.machine;
        if handled.leave {
          return;
        }
      }
      AgreeEnd(old(Abstract()), data, Abstract(), rest);
      if levels[|levels| - 1].state.ParseError? || levels[|levels| - 1].state.SemanticError? {
        var reported := Report(Machine(config, levels, log));
        levels, log, rest := reported.levels, reported.log, [];
        assert Abstract() == reported;
      }
    }

    /** Any sequence of Feed calls. */
    method FeedAll(chunks: seq<string>)
      requires Valid(Abstract())
      modifies this
      ensures Valid(Abstract()) && Abstract() == Run(old(Abstract()), Joined(chunks))
    {
      hide Run, Valid;
      for i := 0 to |chunks|
        invariant Valid(Abstract()) && Abstract() == RunChunks(old(Abstract()), chunks[..i])
      {
        Feed(chunks[i]);
        assert chunks[..i + 1][..i] == chunks[..i];
      }
      assert chunks[..|chunks|] == chunks;
      ChunksDoNotMatter(old(Abstract()), chunks);
    }
  }

  /** The parser after a sequence of Feed calls. */
  function RunChunks(m: Machine, chunks: seq<string>): Machine
    decreases |chunks|
  {
    if chunks == [] then m else Run(RunChunks(m, chunks[..|chunks| - 1]), chunks[|chunks| - 1])
  }

  /** Where the input is cut into Feed calls makes no difference: not to the callbacks, not to what
      later input will do. */
  lemma {:induction false} ChunksDoNotMatter(m: Machine, chunks: seq<string>)
    ensures RunChunks(m, chunks) == Run(m, Joined(chunks))
    decreases |chunks|
  {
    if chunks != [] {
      var last := |chunks| - 1;
      ChunksDoNotMatter(m, chunks[..last]);
      RunConcat(m, Joined(chunks[..last]), chunks[last]);
    }
  }
}
