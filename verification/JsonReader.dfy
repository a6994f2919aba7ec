/** The object and array iterators of infra/syntax/Json.cpp, and the tree a caller collects with them. */
module JsonReader {
  import opened Common
  import opened JsonSyntax
  import opened JsonTokenizer
  import opened JsonTokens

  datatype Kind = ObjectKind | ArrayKind

  function Opener(kind: Kind): Token { if kind.ObjectKind? then LeftBrace else LeftBracket }
  function Closer(kind: Kind): Token { if kind.ObjectKind? then RightBrace else RightBracket }
  function Bracket(kind: Kind): char { if kind.ObjectKind? then '{' else '[' }

  /** A JsonValue. Nested objects and arrays stay text; an implementation holds a view on it. */
  datatype Value<+V> =
    | StringValue(raw: string)
    | Integer(n: int)
    | BiggerInt(value: nat, negative: bool)
    | FloatValue(value: nat, nano: nat, negative: bool)
    | Boolean(flag: bool)
    | NestedValue(kind: Kind, text: V)

  datatype View = View(begin: nat, size: nat)

  datatype State =
    | ReadStart | ReadKeyOrEnd | ReadKey | ReadColon | ReadValueOrEnd | ReadValue | ReadCommaOrEnd | AtEnd

  datatype Entry = Entry(key: string, value: Value<string>)

  /** What an iteration yields, and whether it sets the error flag of the object or array. */
  datatype Listing = Listing(entries: seq<Entry>, error: bool)

  // ---------------------------------------------------------------------------------------------
  // Specification
  // ---------------------------------------------------------------------------------------------

  /** The magnitude times plus or minus one in 64 bits, then cut to 32 bits. */
  function Signed32(value: nat, negative: bool): int {
    var product := value * (if negative then UINT64 - 1 else 1) % UINT64;
    var low := product % UINT32;
    if low < 0x8000_0000 then low else low - UINT32
  }

  function ReadInteger<V>(value: nat, negative: bool): Value<V> {
    if value <= (if negative then 0x8000_0000 else 0x7fff_ffff) then Integer(Signed32(value, negative))
    else BiggerInt(value, negative)
  }

  /** The unsigned counter of open brackets: it starts at zero and an opening bracket decrements it. */
  function Count(kind: Kind, token: Token, nested: nat): nat {
    if token == Opener(kind) then (nested + UINT64 - 1) % UINT64
    else if token == Closer(kind) then (nested + 1) % UINT64
    else nested
  }

  /** The text behind the bracket that closes the current object or array. */
  function SearchEnd(kind: Kind, s: string, nested: nat): (r: Option<string>)
    ensures r.Some? ==> |r.value| < |s|
    decreases |s|
  {
    var next := Scan(s);
    if nested == 0 && next.token == Closer(kind) then Some(next.rest)
    else if next.token == End || next.token == Error then None
    else SearchEnd(kind, next.rest, Count(kind, next.token, nested))
  }

  datatype Converted = Converted(value: Option<Value<string>>, rest: string)

  function Extent(v: Value<string>): nat { if v.NestedValue? then |v.text| else 0 }

  function ConvertNested(kind: Kind, rest: string): (r: Converted)
    ensures r.value.Some? ==> Extent(r.value.value) + |r.rest| <= |rest| + 1
  {
    var end := SearchEnd(kind, rest, 0);
    if end.None? then Converted(None, rest)
    else Converted(Some(NestedValue(kind, [Bracket(kind)] + rest[..|rest| - |end.value|])), end.value)
  }

  function ConvertValue(token: Token, rest: string): (r: Converted)
    ensures r.value.Some? ==> Extent(r.value.value) + |r.rest| <= |rest| + 1
  {
    match token
    case StringToken(raw) => Converted(Some(StringValue(raw)), rest)
    case IntToken(value, negative) => Converted(Some(ReadInteger(value, negative)), rest)
    case FloatToken(value, nano, negative) => Converted(Some(FloatValue(value, nano, negative)), rest)
    case BooleanToken(flag) => Converted(Some(Boolean(flag)), rest)
    case LeftBrace => ConvertNested(ObjectKind, rest)
    case LeftBracket => ConvertNested(ArrayKind, rest)
    case NullToken => Converted(Some(NestedValue(ObjectKind, [])), rest)
    case _ => Converted(None, rest)
  }

  datatype Progress = Failed | Finished | Next(state: State, key: string, rest: string) | Found(value: Value<string>,
      rest: string)

  function ParseValue(token: Token, rest: string): Progress {
    var converted := ConvertValue(token, rest);
    if converted.value.Some? then Found(converted.value.value, converted.rest) else Failed
  }

  /** One step of the iterator's state machine. */
  function ParseNext(kind: Kind, state: State, key: string, s: string): (p: Progress)
    requires state != AtEnd
    ensures p.Next? ==> |p.rest| < |s| && p.state != AtEnd && p.state != ReadCommaOrEnd
    ensures p.Found? ==> |p.rest| < |s| && Extent(p.value) <= |s|
  {
    var next := Scan(s);
    match state
    case ReadStart =>
      if next.token != Opener(kind) then Failed
      else Next(if kind.ObjectKind? then ReadKeyOrEnd else ReadValueOrEnd, key, next.rest)
    case ReadKeyOrEnd =>
      if next.token.RightBrace? then Finished
      else if next.token.StringToken? then Next(ReadColon, next.token.raw, next.rest)
      else Failed
    case ReadKey =>
      if next.token.StringToken? then Next(ReadColon, next.token.raw, next.rest) else Failed
    case ReadColon =>
      if next.token.Colon? then Next(ReadValue, key, next.rest) else Failed
    case ReadValueOrEnd =>
      if next.token.RightBracket? then Finished else ParseValue(next.token, next.rest)
    case ReadValue => ParseValue(next.token, next.rest)
    case ReadCommaOrEnd =>
      if next.token.Comma? then Next(if kind.ObjectKind? then ReadKey else ReadValue, key, next.rest)
      else if next.token == Closer(kind) then Finished
      else Failed
  }

  /** Everything an iterator yields from a state on. */
  function List(kind: Kind, state: State, key: string, s: string): (r: Listing)
    requires state != AtEnd
    ensures forall e :: e in r.entries ==> Extent(e.value) <= |s|
    decreases |s|
  {
    var p := ParseNext(kind, state, key, s);
    match p
    case Failed => Listing([], true)
    case Finished => Listing([], false)
    case Next(state', key', rest) => List(kind, state', key', rest)
    case Found(value, rest) =>
      var tail := List(kind, ReadCommaOrEnd, key, rest);
      Listing([Entry(key, value)] + tail.entries, tail.error)
  }

  /** Iterating over a whole object or array. */
  function ListText(kind: Kind, text: string): (r: Listing)
    ensures forall e :: e in r.entries ==> Extent(e.value) < |text|
  {
    var next := Scan(text);
    if next.token != Opener(kind) then Listing([], true)
    else List(kind, if kind.ObjectKind? then ReadKeyOrEnd else ReadValueOrEnd, [], next.rest)
  }

  lemma ListFailed(kind: Kind, state: State, key: string, s: string)
    requires state != AtEnd && ParseNext(kind, state, key, s).Failed?
    ensures List(kind, state, key, s) == Listing([], true)
  {
  }

  lemma ListTextIsList(kind: Kind, text: string)
    ensures ListText(kind, text) == List(kind, ReadStart, [], text)
  {
  }

  // ---------------------------------------------------------------------------------------------
  // The iterators
  // ---------------------------------------------------------------------------------------------

  function Within(v: Value<View>, length: nat): bool {
    && (v.NestedValue? ==> v.text.begin + v.text.size <= length)
    && (v.StringValue? ==> Complete(v.raw))
  }

  /** The value that a view on the given text stands for. */
  function Resolve(v: Value<View>, contents: string): (r: Value<string>)
    requires Within(v, |contents|)
    ensures Extent(r) == if v.NestedValue? then v.text.size else 0
  {
    match v
    case StringValue(raw) => StringValue(raw)
    case Integer(n) => Integer(n)
    case BiggerInt(value, negative) => BiggerInt(value, negative)
    case FloatValue(value, nano, negative) => FloatValue(value, nano, negative)
    case Boolean(flag) => Boolean(flag)
    case NestedValue(kind, text) => NestedValue(kind, contents[text.begin..text.begin + text.size])
  }

  method SearchClosing(tokenizer: Tokenizer, kind: Kind) returns (found: bool)
    requires tokenizer.Valid()
    modifies tokenizer`parseIndex
    ensures tokenizer.Valid()
    ensures var end := SearchEnd(kind, old(tokenizer.Rest()), 0);
            found == end.Some? && (found ==> tokenizer.Rest() == end.value)
  {
    hide Scan;
    ghost var s := tokenizer.Rest();
    var nested := 0;
    ghost var before := s;
    var token := tokenizer.NextToken();
    while (nested != 0 || token != Closer(kind)) && token != End && token != Error
      invariant tokenizer.Valid() && 0 <= nested
      invariant Scan(before) == Scanned(token, tokenizer.Rest())
      invariant SearchEnd(kind, s, 0) == SearchEnd(kind, before, nested)
      decreases |before|
    {
      nested := Count(kind, token, nested);
      before := tokenizer.Rest();
      token := tokenizer.NextToken();
    }
    found := token == Closer(kind);
  }

  method ReadNested(tokenizer: Tokenizer, kind: Kind) returns (value: Option<Value<View>>)
    requires tokenizer.Valid() && 0 < tokenizer.parseIndex
    requires tokenizer.storage[tokenizer.begin + tokenizer.parseIndex - 1] == Bracket(kind)
    modifies tokenizer`parseIndex
    ensures tokenizer.Valid()
    ensures Matches(value, tokenizer, ConvertNested(kind, old(tokenizer.Rest())))
  {
    hide SearchEnd;
    ghost var s := tokenizer.Rest();
    var start := tokenizer.begin + tokenizer.parseIndex - 1;
    var found := SearchClosing(tokenizer, kind);
    if !found {
      return None;
    }
    ghost var end := SearchEnd(kind, s, 0).value;
    var size := tokenizer.begin + tokenizer.parseIndex - start;
    assert |s| - |end| == size - 1;
    assert tokenizer.storage[..][start..start + size] == [Bracket(kind)] + s[..|s| - |end|];
    value := Some(NestedValue(kind, View(start, size)));
  }

  /** A converted value, and where the tokenizer is behind it. */
  ghost predicate Matches(value: Option<Value<View>>, tokenizer: Tokenizer, c: Converted)
    reads tokenizer, tokenizer.storage
    requires tokenizer.Valid()
  {
    && value.Some? == c.value.Some?
    && (value.Some? ==>
          && Within(value.value, tokenizer.storage.Length)
          && Resolve(value.value, tokenizer.storage[..]) == c.value.value
          && tokenizer.Rest() == c.rest)
  }

  method Convert(tokenizer: Tokenizer, token: Token) returns (value: Option<Value<View>>)
    requires tokenizer.Valid() && tokenizer.InPlace(token) && (token.StringToken? ==> Complete(token.raw))
    modifies tokenizer`parseIndex
    ensures tokenizer.Valid()
    ensures Matches(value, tokenizer, ConvertValue(token, old(tokenizer.Rest())))
  {
    hide ConvertNested, Complete;
    match token
    case StringToken(raw) => value := Some(StringValue(raw));
    case IntToken(v, negative) => value := Some(ReadInteger(v, negative));
    case FloatToken(v, nano, negative) => value := Some(FloatValue(v, nano, negative));
    case BooleanToken(flag) => value := Some(Boolean(flag));
    case LeftBrace => value := ReadNested(tokenizer, ObjectKind);
    case LeftBracket => value := ReadNested(tokenizer, ArrayKind);
    case NullToken => value := Some(NestedValue(ObjectKind, View(0, 0)));
    case _ => value := None;
  }

  /** A JsonObjectIterator or JsonArrayIterator; `error` is the flag of the object or array. */
  class JsonIterator {
    const kind: Kind
    const tokenizer: Tokenizer
    var state: State
    var key: string
    var value: Value<View>
    var error: bool

    ghost predicate Valid()
      reads this, tokenizer
    {
      && tokenizer.Valid() && Complete(key) && Within(value, tokenizer.storage.Length)
      && (error ==> state == AtEnd)
    }

    /** What the iterator stands for: the entry it points at and everything behind it. */
    ghost function Remaining(): Listing
      reads this, tokenizer, tokenizer.storage
      requires Valid()
    {
      if state == AtEnd then Listing([], error)
      else
        var tail := List(kind, ReadCommaOrEnd, key, tokenizer.Rest());
        Listing([Entry(key, Resolve(value, tokenizer.storage[..]))] + tail.entries, tail.error)
    }

    constructor (storage: array<char>, begin: nat, size: nat, kind: Kind)
      requires begin + size <= storage.Length
      ensures Valid() && fresh(tokenizer) && tokenizer.storage == storage && this.kind == kind
      ensures Remaining() == ListText(kind, storage[begin..begin + size])
      ensures state == ReadCommaOrEnd || state == AtEnd
    {
      this.kind, state, key, value, error := kind, ReadStart, [], Integer(0), false;
      tokenizer := new Tokenizer(storage, begin, size);
      new;
      assert tokenizer.Rest() == storage[begin..begin + size];
      ListTextIsList(kind, storage[begin..begin + size]);
      Advance();
    }

    /** The state after a step of the state machine. */
    ghost predicate Stepped(p: Progress, key': string)
      reads this, tokenizer, tokenizer.storage
      requires Valid()
    {
      match p
      case Failed => state == AtEnd && error
      case Finished => state == AtEnd && !error
      case Next(s, k, rest) => state == s && key == k && tokenizer.Rest() == rest && !error
      case Found(v, rest) =>
        && state == ReadCommaOrEnd && key == key' && tokenizer.Rest() == rest && !error
        && Resolve(value, tokenizer.storage[..]) == v
    }

    method SetError()
      requires Valid()
      modifies this`error, this`state
      ensures Valid() && error && state == AtEnd
    {
      error := true;
      state := AtEnd;
    }

    method ReadCurrentValue(token: Token)
      requires Valid() && !error && tokenizer.InPlace(token) && (token.StringToken? ==> Complete(token.raw))
      modifies this, tokenizer`parseIndex
      ensures Valid() && Stepped(ParseValue(token, old(tokenizer.Rest())), old(key))
    {
      hide ConvertValue, Complete;
      state := ReadCommaOrEnd;
      var converted := Convert(tokenizer, token);
      if converted.Some? {
        value := converted.value;
      } else {
        SetError();
      }
    }

    method ParseNextToken()
      requires Valid() && state != AtEnd
      modifies this, tokenizer`parseIndex
      ensures Valid() && Stepped(ParseNext(kind, old(state), old(key), old(tokenizer.Rest())), old(key))
    {
      hide ParseValue, Scan, Complete, Resolve;
      TokenComplete(tokenizer.Rest());
      var token := tokenizer.NextToken();
      match state
      case ReadStart =>
        state := if kind.ObjectKind? then ReadKeyOrEnd else ReadValueOrEnd;
        if token != Opener(kind) {
          SetError();
        }
      case ReadKeyOrEnd =>
        state := ReadColon;
        if token.RightBrace? {
          state := AtEnd;
        } else if token.StringToken? {
          key := token.raw;
        } else {
          SetError();
        }
      case ReadKey =>
        state := ReadColon;
        if token.StringToken? {
          key := token.raw;
        } else {
          SetError();
        }
      case ReadColon =>
        state := ReadValue;
        if !token.Colon? {
          SetError();
        }
      case ReadValueOrEnd =>
        if token.RightBracket? {
          state := AtEnd;
        } else {
          ReadCurrentValue(token);
        }
      case ReadValue =>
        ReadCurrentValue(token);
      case ReadCommaOrEnd =>
        if token.Comma? {
          state := if kind.ObjectKind? then ReadKey else ReadValue;
        } else if token == Closer(kind) {
          state := AtEnd;
        } else {
          SetError();
        }
    }

    /** operator++ */
    method Advance()
      requires Valid() && (state == ReadStart || state == ReadCommaOrEnd)
      modifies this, tokenizer`parseIndex
      ensures Valid() && (state == ReadCommaOrEnd || state == AtEnd)
      ensures Remaining() == List(kind, old(state), old(key), old(tokenizer.Rest()))
    {
      hide ParseNext, Resolve, Complete;
      ghost var listing := List(kind, state, key, tokenizer.Rest());
      ParseNextToken();
      while state != ReadCommaOrEnd && state != AtEnd
        invariant Valid()
        invariant listing == if state == ReadCommaOrEnd || state == AtEnd then Remaining()
                             else List(kind, state, key, tokenizer.Rest())
        decreases if state == ReadCommaOrEnd || state == AtEnd then 0 else |tokenizer.Rest()| + 1
      {
        ParseNextToken();
      }
    }
  }
}
