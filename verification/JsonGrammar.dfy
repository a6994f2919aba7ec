/** What the iterators of infra/syntax/Json.cpp read without an error: exactly the texts of a grammar. */
module JsonGrammar {
  import opened Common
  import opened JsonSyntax
  import opened JsonTokenizer
  import opened JsonTokens
  import opened JsonReader
  import opened JsonTree

  // ---------------------------------------------------------------------------------------------
  // From a token back to its text
  // ---------------------------------------------------------------------------------------------

  lemma SplitSpace(s: string) returns (space: string, t: string)
    ensures s == space + t && Space(space) && (t != [] ==> !IsSpace(t[0])) && Scan(s) == ScanToken(t)
  {
    hide ScanToken;
    SpanHolds(IsSpace, s);
    var n := Span(IsSpace, s);
    space, t := s[..n], s[n..];
  }

  /** What a string token was scanned from. */
  lemma {:induction false} RawItems(raw: string) returns (items: seq<Item>)
    requires Closing(raw + ['\"'], false) == |raw|
    ensures ItemsText(items, []) == raw && ItemsLoose(items)
    decreases |raw|
  {
    if raw == [] {
      return [];
    }
    var s := raw + ['\"'];
    assert s[..|raw|] == raw;
    StepClosing(s);
    var n := Step(raw);
    assert s[n..] == raw[n..] + ['\"'];
    hide Closing;
    var tail := RawItems(raw[n..]);
    if raw[0] != '\\' {
      items := [Plain(raw[0])] + tail;
      assert raw == [raw[0]] + raw[1..];
    } else if raw[1] != 'u' {
      items := [Escape(raw[1])] + tail;
      assert raw == ['\\'] + ([raw[1]] + raw[2..]);
    } else {
      var x := UnicodeItem(raw, tail);
      items := [x] + tail;
    }
    assert items[1..] == tail;
  }

  lemma UnicodeItem(raw: string, tail: seq<Item>) returns (x: Item)
    requires |raw| > 1 && raw[0] == '\\' && raw[1] == 'u' && ItemsText(tail, []) == raw[Step(raw)..]
    ensures ItemText(x, raw[Step(raw)..]) == raw && LooseItem(x, tail)
  {
    var h := HexCount(raw[2..], 4);
    var digits, rest := raw[2..][..h], raw[2 + h..];
    HexPrefix(raw[2..], 4);
    hide HexCount, ItemsText;
    assert raw[2..] == digits + rest;
    assert raw == ['\\'] + (['u'] + (digits + rest));
    if h == 4 {
      x := Unicode(digits[0], digits[1], digits[2], digits[3]);
      FourThenRest(digits, rest);
    } else {
      x := Short(digits);
      if tail != [] && tail[0].Plain? {
        PlainStart(tail);
        assert raw[2..][h] == rest[0];
      }
    }
  }

  lemma FourThenRest(digits: string, rest: string)
    requires |digits| == 4
    ensures digits + rest == [digits[0]] + ([digits[1]] + ([digits[2]] + ([digits[3]] + rest)))
  {
  }

  lemma PlainStart(items: seq<Item>)
    requires items != [] && items[0].Plain?
    ensures ItemsText(items, []) != [] && ItemsText(items, [])[0] == items[0].c
  {
  }

  lemma HexPrefix(s: string, limit: nat)
    ensures var h := HexCount(s, limit);
            AllHex(s[..h]) && (h < limit && h < |s| ==> HexValue(s[h]).None?)
  {
    if HexCount(s, limit) > 0 {
      HexPrefix(s[1..], limit - 1);
      var h := HexCount(s, limit);
      assert s[..h] == [s[0]] + s[1..][..h - 1];
    }
  }

  lemma StringBack(t: string) returns (items: seq<Item>)
    requires t != [] && t[0] == '\"' && ScanToken(t).token.StringToken?
    ensures ItemsLoose(items) && t == StringText(items, ScanToken(t).rest)
    ensures ItemsText(items, []) == ScanToken(t).token.raw
  {
    hide ScanNumber, ScanIdentifier, Closing, ItemsLoose, ItemsText;
    var s := t[1..];
    var n := Closing(s, false);
    var raw, rest := s[..n], s[n + 1..];
    ClosingAt(s, false);
    assert s == raw + ['\"'] + rest;
    ClosingPrefix(raw, rest, [], false);
    assert raw + ['\"'] + [] == raw + ['\"'];
    items := RawItems(raw);
    ItemsAppend(items, ['\"'] + rest);
    assert raw + (['\"'] + rest) == s;
  }

  lemma NumberBack(t: string) returns (v: Json)
    requires t != [] && (t[0] == '-' || IsDigit(t[0])) && ScanNumber(t).token != Error
    ensures v.Num? && Loose(v) && t == Text(v, ScanNumber(t).rest) && NumberToken(v) == ScanNumber(t).token
  {
    hide ScanNumber, Text, Loose;
    var negative := t[0] == '-';
    var body := if negative then t[1..] else t;
    var n := Span(IsDigit, body);
    if n == |body| || body[n] != '.' {
      v := IntegerBack(t, negative, body);
    } else {
      v := FractionBack(t, negative, body);
    }
  }

  lemma IntegerBack(t: string, negative: bool, body: string) returns (v: Json)
    requires t != [] && (t[0] == '-' || IsDigit(t[0]))
    requires negative == (t[0] == '-') && body == if negative then t[1..] else t
    requires Span(IsDigit, body) == |body| || body[Span(IsDigit, body)] != '.'
    ensures v.Num? && Loose(v) && t == Text(v, ScanNumber(t).rest) && NumberToken(v) == ScanNumber(t).token
  {
    hide DigitsValue, Text, Loose, Span, AllDigits;
    var n := Span(IsDigit, body);
    SpanIsDigits(body);
    v := Num(negative, body[..n], None, None);
    assert body == body[..n] + body[n..];
    NumberSplits(t, v, body[n..]);
    LooseNumberIs(v);
  }

  lemma FractionBack(t: string, negative: bool, body: string) returns (v: Json)
    requires t != [] && (t[0] == '-' || IsDigit(t[0])) && ScanNumber(t).token != Error
    requires negative == (t[0] == '-') && body == if negative then t[1..] else t
    requires Span(IsDigit, body) < |body| && body[Span(IsDigit, body)] == '.'
    ensures v.Num? && Loose(v) && t == Text(v, ScanNumber(t).rest) && NumberToken(v) == ScanNumber(t).token
  {
    hide DigitsValue, Nano, Text, Loose, Span, AllDigits, ScanFraction;
    var n := Span(IsDigit, body);
    SpanIsDigits(body);
    var s := body[n..][1..];
    var k := Span(IsDigit, s);
    SpanIsDigits(s);
    FractionIs(DigitsValue(0, body[..n]) % UINT64, negative, s);
    v := Num(negative, body[..n], Some(s[..k]), None);
    FractionSplits(body, n, s, k);
    NumberSplits(t, v, s[k..]);
    LooseNumberIs(v);
  }

  lemma FractionSplits(body: string, n: nat, s: string, k: nat)
    requires n < |body| && body[n] == '.' && s == body[n..][1..] && k <= |s|
    ensures body == body[..n] + (['.'] + (s[..k] + s[k..]))
  {
    assert s == s[..k] + s[k..];
    assert body[n..] == ['.'] + s;
  }

  lemma SpanIsDigits(s: string)
    ensures AllDigits(s[..Span(IsDigit, s)]) && (s != [] && IsDigit(s[0]) ==> s[..Span(IsDigit, s)] != [])
  {
    SpanHolds(IsDigit, s);
  }

  lemma FractionIs(value: nat, negative: bool, s: string)
    ensures var r := ScanFraction(value, negative, s);
      var k := Span(IsDigit, s);
      r.token == Error || r == Scanned(FloatToken(value, Unsigned(Nano(s[..k])), negative), s[k..])
  {
    hide Span, Nano;
  }

  lemma LooseNumberIs(v: Json)
    requires v.Num? && v.exponent.None? && LooseNumber(v)
    ensures Loose(v)
  {
  }

  lemma NumberSplits(t: string, v: Json, rest: string)
    requires v.Num? && v.exponent.None? && t != [] && v.negative == (t[0] == '-')
    requires (if v.negative then t[1..] else t) == v.digits + FractionText(v.fraction, rest)
    ensures t == Text(v, rest)
  {
    if v.negative { assert t == ['-'] + t[1..]; }
  }

  lemma WordBack(t: string) returns (v: Json)
    requires t != [] && IsAlpha(t[0]) && ScanIdentifier(t).token != Error
    ensures v.Null? || v.Bool?
    ensures t == Text(v, ScanIdentifier(t).rest)
    ensures ScanIdentifier(t).token == if v.Null? then NullToken else BooleanToken(v.flag)
  {
    var n := Span(IsAlpha, t);
    var word := t[..n];
    assert t == word + t[n..];
    v := if word == "null" then Null else Bool(word == "true");
  }

  predicate ScalarToken(token: Token) {
    token.StringToken? || token.IntToken? || token.FloatToken? || token.BooleanToken? || token.NullToken?
  }

  /** A token that is a value by itself. */
  lemma ScalarBack(s: string) returns (space: string, v: Json)
    requires ScalarToken(Scan(s).token)
    ensures Space(space) && Loose(v) && s == space + Text(v, Scan(s).rest) && !Container(v)
    ensures ParseValue(Scan(s).token, Scan(s).rest) == Found(ValueOf(v), Scan(s).rest)
  {
    hide ScanToken, Text, Loose, ValueOf, ParseValue, Scan;
    var t;
    space, t := SplitSpace(s);
    TokenStart(t);
    if t[0] == '\"' {
      v := StringValueBack(t);
    } else if t[0] == '-' || IsDigit(t[0]) {
      v := NumberValueBack(t);
    } else {
      v := WordValueBack(t);
    }
  }

  predicate ScalarFrom(t: string, v: Json) {
    var r := ScanToken(t);
    && Loose(v) && !Container(v) && t == Text(v, r.rest)
    && ParseValue(r.token, r.rest) == Found(ValueOf(v), r.rest)
  }

  lemma StringValueBack(t: string) returns (v: Json)
    requires t != [] && t[0] == '\"' && ScanToken(t).token.StringToken?
    ensures ScalarFrom(t, v)
  {
    hide ScanToken, ItemsLoose, StringText, ItemsText;
    var items := StringBack(t);
    v := Str(items);
  }

  lemma NumberValueBack(t: string) returns (v: Json)
    requires t != [] && (t[0] == '-' || IsDigit(t[0])) && ScalarToken(ScanToken(t).token)
    ensures ScalarFrom(t, v)
  {
    hide ScanString, ScanNumber, ScanIdentifier, DigitsValue, Nano, Text, Loose, ReadInteger;
    v := NumberBack(t);
  }

  lemma WordValueBack(t: string) returns (v: Json)
    requires t != [] && IsAlpha(t[0]) && ScalarToken(ScanToken(t).token)
    ensures ScalarFrom(t, v)
  {
    hide ScanString, ScanNumber, ScanIdentifier, Text;
    v := WordBack(t);
  }

  /** The first character decides what kind of token there is. */
  lemma TokenStart(t: string)
    ensures var token := ScanToken(t).token;
      && (ScalarToken(token) ==> t != [] && Punctuation(t[0]).None?)
      && (token.StringToken? ==> t[0] == '\"')
      && (token.IntToken? || token.FloatToken? ==> t[0] == '-' || IsDigit(t[0]))
      && (token.BooleanToken? || token.NullToken? ==> IsAlpha(t[0]))
      && (!ScalarToken(token) && token != End && token != Error ==>
            && t != [] && Punctuation(t[0]) == Some(token) && ScanToken(t).rest == t[1..])
  {
    hide Closing, Span, DigitsValue, Nano;
  }

  /** A token that is punctuation. */
  lemma PunctuationBack(s: string, c: char) returns (space: string)
    requires Punctuation(c).Some? && Scan(s).token == Punctuation(c).value
    ensures Space(space) && s == space + ([c] + Scan(s).rest)
  {
    hide ScanToken, Punctuation;
    var t;
    space, t := SplitSpace(s);
    PunctuationIs(c);
    TokenStart(t);
    PunctuationDiffers(t[0], c);
    assert t == [t[0]] + t[1..];
  }

  lemma PunctuationIs(c: char)
    ensures Punctuation(c).Some? ==>
      !ScalarToken(Punctuation(c).value) && Punctuation(c).value != End && Punctuation(c).value != Error
  {
  }

  lemma PunctuationDiffers(a: char, b: char)
    ensures Punctuation(a).Some? && Punctuation(a) == Punctuation(b) ==> a == b
  {
  }

  // ---------------------------------------------------------------------------------------------
  // From a tree back to the value
  // ---------------------------------------------------------------------------------------------

  /** Behind an opening bracket, the search finds the end of the value, whatever follows. */
  lemma ValueEnd(v: Json, rest: string, inner: string)
    requires Loose(v) && Container(v) && Depth(v) < UINT64 && Text(v, rest) == [Bracket(KindOf(v))] + inner
    ensures SearchEnd(KindOf(v), inner, 0) == Some(rest)
  {
    hide SearchEnd, Text, MembersText, ElementsText;
    var kind := KindOf(v);
    var body := ContainerOpens(v, rest);
    assert body == ([Bracket(kind)] + body)[1..] == inner;
    SearchStops(kind, rest);
    match v
    case EmptyObj(space) => SearchSpace(kind, space, ['}'] + rest, 0);
    case EmptyArr(space) => SearchSpace(kind, space, [']'] + rest, 0);
    case Obj(members) => SearchMembers(kind, members, rest, 0);
    case Arr(elements) => SearchElements(kind, elements, rest, 0);
  }

  /** Whatever is read as an object or array is the text of one. */
  lemma {:induction false} TextBack(kind: Kind, s: string) returns (space: string, v: Json, rest: string)
    requires TextTree(kind, s).Some? && |s| < UINT64
    ensures Space(space) && Loose(v) && Container(v) && KindOf(v) == kind && s == space + Text(v, rest)
    ensures TextTree(kind, s) == Some(Meaning(v))
    decreases |s|, 0
  {
    hide List, FieldsTree, ItemsTree, Meaning, Text, Loose, Scan;
    var listing := ListText(kind, s);
    if Scan(s).token != Opener(kind) {
      ErrorTrees(listing, |s|);
    }
    space := PunctuationBack(s, Bracket(kind));
    var inner := Scan(s).rest;
    if kind.ObjectKind? {
      var gap, ms;
      gap, ms, rest := FieldsBack(ReadKeyOrEnd, [], inner, |s|);
      v := if ms.None? then EmptyObj(gap) else Obj(ms.value);
    } else {
      var gap, es;
      gap, es, rest := ItemsBack(ReadValueOrEnd, inner, |s|);
      v := if es.None? then EmptyArr(gap) else Arr(es.value);
    }
    ContainerIs(v, rest);
  }

  lemma ErrorTrees(listing: Listing, bound: nat)
    requires listing == Listing([], true)
    ensures FieldsTree(listing, bound) == None && ItemsTree(listing, bound) == None
  {
  }

  lemma ContainerIs(v: Json, rest: string)
    requires Container(v)
    ensures v.EmptyObj? ==> Text(v, rest) == ['{'] + (v.space + (['}'] + rest))
    ensures v.EmptyObj? ==> Meaning(v) == Object(NoFields) && Loose(v) == Space(v.space)
    ensures v.EmptyArr? ==> Text(v, rest) == ['['] + (v.space + ([']'] + rest))
    ensures v.EmptyArr? ==> Meaning(v) == Array(NoItems) && Loose(v) == Space(v.space)
    ensures v.Obj? ==> Text(v, rest) == ['{'] + MembersText(v.members, ['}'] + rest)
    ensures v.Obj? ==> Meaning(v) == Object(MembersMeaning(v.members)) && Loose(v) == MembersLoose(v.members)
    ensures v.Arr? ==> Text(v, rest) == ['['] + ElementsText(v.elements, [']'] + rest)
    ensures v.Arr? ==> Meaning(v) == Array(ElementsMeaning(v.elements)) && Loose(v) == ElementsLoose(v.elements)
  {
  }

  /** Whatever is found as a value is the text of one. */
  lemma {:induction false} ValueBack(s: string) returns (space: string, v: Json)
    requires var p := ParseValue(Scan(s).token, Scan(s).rest); p.Found? && ValueTree(p.value).Some?
    requires |s| < UINT64
    ensures var p := ParseValue(Scan(s).token, Scan(s).rest);
      Space(space) && Loose(v) && s == space + Text(v, p.rest) && ValueTree(p.value) == Some(Meaning(v))
    decreases |s|, 2
  {
    hide TextTree, SearchEnd, Text, Loose, Meaning, ValueOf;
    var token := Scan(s).token;
    if ScalarToken(token) {
      space, v := ScalarBack(s);
      ScalarDepth(v);
      ValueTreeIs(v);
    } else {
      space, v := NestedBack(if token.LeftBrace? then ObjectKind else ArrayKind, s);
    }
  }

  lemma ScalarDepth(v: Json)
    requires !Container(v)
    ensures Depth(v) == 0
  {
  }

  lemma {:induction false} NestedBack(kind: Kind, s: string) returns (space: string, v: Json)
    requires Scan(s).token == Opener(kind) && |s| < UINT64
    requires var c := ConvertNested(kind, Scan(s).rest); c.value.Some? && ValueTree(c.value.value).Some?
    ensures var c := ConvertNested(kind, Scan(s).rest);
      Space(space) && Loose(v) && s == space + Text(v, c.rest) && ValueTree(c.value.value) == Some(Meaning(v))
    decreases |s|, 1
  {
    hide TextTree, SearchEnd, Text, Loose, Meaning, Scan, Suffix;
    var inner := Scan(s).rest;
    var end := SearchEnd(kind, inner, 0).value;
    space := PunctuationBack(s, Bracket(kind));
    SearchSuffix(kind, inner, 0);
    SuffixSplits(end, inner);
    var body := inner[..|inner| - |end|];
    var n := [Bracket(kind)] + body;
    var gap, tail;
    gap, v, tail := TextBack(kind, n);
    NoGap(gap, Text(v, tail), n, Bracket(kind));
    NestedEnds(kind, v, tail, body, end);
    assert n + end == [Bracket(kind)] + inner;
    TextAppend(v, end);
    TextAppend(v, tail);
    assert Text(v, []) + [] == Text(v, []);
  }

  lemma NoGap(gap: string, text: string, n: string, c: char)
    requires gap + text == n && Space(gap) && n != [] && n[0] == c && !IsSpace(c)
    ensures gap == [] && text == n
  {
    if gap != [] { FirstOf(gap, text); }
  }

  lemma FirstOf(a: string, b: string)
    requires a != []
    ensures (a + b)[0] == a[0]
  {
  }

  /** The value takes the whole text that the search has found. */
  lemma NestedEnds(kind: Kind, v: Json, tail: string, body: string, end: string)
    requires Loose(v) && Container(v) && KindOf(v) == kind && |body| + 1 < UINT64
    requires Text(v, tail) == [Bracket(kind)] + body && SearchEnd(kind, body + end, 0) == Some(end)
    ensures |tail| == 0
  {
    hide *;
    TextTwice(v, tail, end);
    DepthFits(v, tail);
    Regroup(Text(v, tail + end), Bracket(kind), body, end);
    ValueEnd(v, tail + end, body + end);
    Lengths(tail, end);
  }

  lemma Regroup(text: string, c: char, body: string, end: string)
    requires text == ([c] + body) + end
    ensures text == [c] + (body + end)
  {
  }

  lemma Lengths(a: string, b: string)
    ensures |a + b| == |a| + |b|
  {
  }

  lemma TextTwice(v: Json, tail: string, end: string)
    ensures Text(v, tail + end) == Text(v, tail) + end
  {
    hide Text;
    TextAppend(v, tail);
    TextAppend(v, tail + end);
    assert Text(v, []) + (tail + end) == (Text(v, []) + tail) + end;
  }

  /** What one entry of an iteration consists of: behind the value comes a comma or the end. */
  lemma FieldsStep(entry: Entry, behind: Listing, bound: nat)
    requires Bounded(Prepend(entry, behind), bound) && FieldsTree(Prepend(entry, behind), bound).Some?
    ensures Bounded(behind, bound) && ValueTree(entry.value).Some? && FieldsTree(behind, bound).Some?
    ensures FieldsTree(Prepend(entry, behind), bound)
         == Some(Field(Decode(entry.key), ValueTree(entry.value).value, FieldsTree(behind, bound).value))
  {
    hide ValueTree, Decode;
    var listing := Prepend(entry, behind);
    assert Behind(listing) == behind;
    assert listing.entries[0] == entry;
    forall e | e in behind.entries ensures Extent(e.value) < bound { assert e in listing.entries; }
  }

  lemma ItemsStep(entry: Entry, behind: Listing, bound: nat)
    requires Bounded(Prepend(entry, behind), bound) && ItemsTree(Prepend(entry, behind), bound).Some?
    ensures Bounded(behind, bound) && ValueTree(entry.value).Some? && ItemsTree(behind, bound).Some?
    ensures ItemsTree(Prepend(entry, behind), bound)
         == Some(AnItem(ValueTree(entry.value).value, ItemsTree(behind, bound).value))
  {
    hide ValueTree;
    var listing := Prepend(entry, behind);
    assert Behind(listing) == behind;
    assert listing.entries[0] == entry;
    forall e | e in behind.entries ensures Extent(e.value) < bound { assert e in listing.entries; }
  }

  /** The key and the colon of a member. */
  lemma KeyBack(state: State, key: string, s: string) returns (s0: string, items: seq<Item>, s1: string, rest: string)
    requires state == ReadKeyOrEnd || state == ReadKey
    requires !(state == ReadKeyOrEnd && Scan(s).token.RightBrace?)
    requires List(ObjectKind, state, key, s) != Listing([], true)
    ensures Space(s0) && Space(s1) && ItemsLoose(items) && s == s0 + StringText(items, s1 + ([':'] + rest))
    ensures List(ObjectKind, state, key, s) == List(ObjectKind, ReadValue, ItemsText(items, []), rest)
    ensures |rest| < |s|
  {
    hide List, ItemsLoose, ItemsText, Scan, ParseValue;
    ListNext(ObjectKind, state, key, s);
    if ParseNext(ObjectKind, state, key, s).Failed? { ListFailed(ObjectKind, state, key, s); }
    var t;
    s0, t := SplitSpace(s);
    TokenStart(t);
    items := StringBack(t);
    var r := Scan(s).rest;
    var raw := Scan(s).token.raw;
    ListNext(ObjectKind, ReadColon, raw, r);
    if ParseNext(ObjectKind, ReadColon, raw, r).Failed? { ListFailed(ObjectKind, ReadColon, raw, r); }
    s1 := PunctuationBack(r, ':');
    rest := Scan(r).rest;
  }

  /** The members of an object that is read without an error. */
  lemma {:induction false} FieldsBack(state: State, key: string, s: string, bound: nat)
      returns (gap: string, ms: Option<Members>, rest: string)
    requires (state == ReadKeyOrEnd || state == ReadKey) && |s| < UINT64
    requires Bounded(List(ObjectKind, state, key, s), bound)
    requires FieldsTree(List(ObjectKind, state, key, s), bound).Some?
    ensures ms.None? ==> state == ReadKeyOrEnd && Space(gap) && s == gap + (['}'] + rest)
    ensures ms.None? ==> FieldsTree(List(ObjectKind, state, key, s), bound) == Some(NoFields)
    ensures ms.Some? ==> MembersLoose(ms.value) && s == MembersText(ms.value, ['}'] + rest)
    ensures ms.Some? ==> FieldsTree(List(ObjectKind, state, key, s), bound) == Some(MembersMeaning(ms.value))
    decreases |s|, 0
  {
    hide List, FieldsTree, ValueTree, Scan, Text, Loose, Meaning, ItemsLoose, ItemsText, StringText, Contents;
    hide ParseValue;
    var listing := List(ObjectKind, state, key, s);
    ErrorTrees(Listing([], true), bound);
    if state == ReadKeyOrEnd && Scan(s).token.RightBrace? {
      gap := PunctuationBack(s, '}');
      rest := Scan(s).rest;
      ms := None;
      ListNext(ObjectKind, state, key, s);
      EmptyTrees(bound);
    } else {
      var s0, items, s1, r := KeyBack(state, key, s);
      var raw := ItemsText(items, []);
      var s2, v, after := MemberValueBack(raw, r, bound);
      var s3, tail;
      s3, tail, rest := FieldsBehind(raw, after, bound);
      var m := Member(s0, items, s1, s2, v, s3);
      DecodeItems(items);
      ms := Some(if tail.None? then LastMember(m) else MoreMembers(m, tail.value));
      gap := [];
    }
  }

  lemma MemberValueBack(key: string, s: string, bound: nat) returns (s2: string, v: Json, after: string)
    requires |s| < UINT64 && Bounded(List(ObjectKind, ReadValue, key, s), bound)
    requires FieldsTree(List(ObjectKind, ReadValue, key, s), bound).Some?
    ensures Space(s2) && Loose(v) && s == s2 + Text(v, after) && |after| < |s|
    ensures Bounded(List(ObjectKind, ReadCommaOrEnd, key, after), bound)
    ensures var behind := FieldsTree(List(ObjectKind, ReadCommaOrEnd, key, after), bound);
      && behind.Some?
      && FieldsTree(List(ObjectKind, ReadValue, key, s), bound) == Some(Field(Decode(key), Meaning(v), behind.value))
    decreases |s|, 3
  {
    hide List, FieldsTree, ValueTree, Text, Loose, Meaning, ParseValue, Decode, Scan;
    ErrorTrees(Listing([], true), bound);
    EntryFound(ObjectKind, ReadValue, key, s);
    var p := ParseValue(Scan(s).token, Scan(s).rest);
    after := p.rest;
    FieldsStep(Entry(key, p.value), List(ObjectKind, ReadCommaOrEnd, key, after), bound);
    s2, v := ValueBack(s);
  }

  lemma EntryFound(kind: Kind, state: State, key: string, s: string)
    requires state == ReadValue || (state == ReadValueOrEnd && kind.ArrayKind? && !Scan(s).token.RightBracket?)
    requires List(kind, state, key, s) != Listing([], true)
    ensures var p := ParseValue(Scan(s).token, Scan(s).rest);
      && p.Found? && |p.rest| < |s|
      && List(kind, state, key, s) == Prepend(Entry(key, p.value), List(kind, ReadCommaOrEnd, key, p.rest))
  {
    hide List, Scan;
    ListNext(kind, state, key, s);
    if ParseNext(kind, state, key, s).Failed? { ListFailed(kind, state, key, s); }
  }

  /** Behind a member: a comma and more members, or the end. */
  lemma {:induction false} FieldsBehind(key: string, s: string, bound: nat)
      returns (s3: string, tail: Option<Members>, rest: string)
    requires |s| < UINT64 && Bounded(List(ObjectKind, ReadCommaOrEnd, key, s), bound)
    requires FieldsTree(List(ObjectKind, ReadCommaOrEnd, key, s), bound).Some?
    ensures Space(s3)
    ensures tail.None? ==> s == s3 + (['}'] + rest)
    ensures tail.None? ==> FieldsTree(List(ObjectKind, ReadCommaOrEnd, key, s), bound) == Some(NoFields)
    ensures tail.Some? ==> MembersLoose(tail.value) && s == s3 + ([','] + MembersText(tail.value, ['}'] + rest))
    ensures tail.Some? ==>
              FieldsTree(List(ObjectKind, ReadCommaOrEnd, key, s), bound) == Some(MembersMeaning(tail.value))
    decreases |s|, 1
  {
    hide List, FieldsTree, Scan, MembersText, MembersLoose, MembersMeaning;
    ErrorTrees(Listing([], true), bound);
    EmptyTrees(bound);
    ListNext(ObjectKind, ReadCommaOrEnd, key, s);
    if ParseNext(ObjectKind, ReadCommaOrEnd, key, s).Failed? { ListFailed(ObjectKind, ReadCommaOrEnd, key, s); }
    rest := Scan(s).rest;
    if Scan(s).token.Comma? {
      s3 := PunctuationBack(s, ',');
      var gap;
      gap, tail, rest := FieldsBack(ReadKey, key, rest, bound);
    } else {
      s3 := PunctuationBack(s, '}');
      tail := None;
    }
  }

  /** The elements of an array that is read without an error. */
  lemma {:induction false} ItemsBack(state: State, s: string, bound: nat)
      returns (gap: string, es: Option<Elements>, rest: string)
    requires (state == ReadValueOrEnd || state == ReadValue) && |s| < UINT64
    requires Bounded(List(ArrayKind, state, [], s), bound)
    requires ItemsTree(List(ArrayKind, state, [], s), bound).Some?
    ensures es.None? ==> state == ReadValueOrEnd && Space(gap) && s == gap + ([']'] + rest)
    ensures es.None? ==> ItemsTree(List(ArrayKind, state, [], s), bound) == Some(NoItems)
    ensures es.Some? ==> ElementsLoose(es.value) && s == ElementsText(es.value, [']'] + rest)
    ensures es.Some? ==> ItemsTree(List(ArrayKind, state, [], s), bound) == Some(ElementsMeaning(es.value))
    decreases |s|, 3
  {
    hide List, ItemsTree, ValueTree, Scan, Text, Loose, Meaning, ParseValue;
    ErrorTrees(Listing([], true), bound);
    if state == ReadValueOrEnd && Scan(s).token.RightBracket? {
      gap := PunctuationBack(s, ']');
      rest := Scan(s).rest;
      es := None;
      ListNext(ArrayKind, state, [], s);
      EmptyTrees(bound);
    } else {
      EntryFound(ArrayKind, state, [], s);
      var p := ParseValue(Scan(s).token, Scan(s).rest);
      ItemsStep(Entry([], p.value), List(ArrayKind, ReadCommaOrEnd, [], p.rest), bound);
      var s0, v := ValueBack(s);
      var s1, tail;
      s1, tail, rest := ItemsBehind(p.rest, bound);
      var e := Element(s0, v, s1);
      es := Some(if tail.None? then LastElement(e) else MoreElements(e, tail.value));
      gap := [];
    }
  }

  lemma {:induction false} ItemsBehind(s: string, bound: nat) returns (s1: string, tail: Option<Elements>, rest: string)
    requires |s| < UINT64 && Bounded(List(ArrayKind, ReadCommaOrEnd, [], s), bound)
    requires ItemsTree(List(ArrayKind, ReadCommaOrEnd, [], s), bound).Some?
    ensures Space(s1)
    ensures tail.None? ==> s == s1 + ([']'] + rest)
    ensures tail.None? ==> ItemsTree(List(ArrayKind, ReadCommaOrEnd, [], s), bound) == Some(NoItems)
    ensures tail.Some? ==> ElementsLoose(tail.value) && s == s1 + ([','] + ElementsText(tail.value, [']'] + rest))
    ensures tail.Some? ==> ItemsTree(List(ArrayKind, ReadCommaOrEnd, [], s), bound) == Some(ElementsMeaning(tail.value))
    decreases |s|, 1
  {
    hide List, ItemsTree, Scan, ElementsText, ElementsLoose, ElementsMeaning;
    ErrorTrees(Listing([], true), bound);
    EmptyTrees(bound);
    ListNext(ArrayKind, ReadCommaOrEnd, [], s);
    if ParseNext(ArrayKind, ReadCommaOrEnd, [], s).Failed? { ListFailed(ArrayKind, ReadCommaOrEnd, [], s); }
    rest := Scan(s).rest;
    if Scan(s).token.Comma? {
      s1 := PunctuationBack(s, ',');
      var gap;
      gap, tail, rest := ItemsBack(ReadValue, rest, bound);
    } else {
      s1 := PunctuationBack(s, ']');
      tail := None;
    }
  }

  // ---------------------------------------------------------------------------------------------
  // Main results
  // ---------------------------------------------------------------------------------------------

  /** `s` is the text of `v`, which is an object or an array, with white space before it and anything
      behind it. */
  predicate IsTextOf(kind: Kind, s: string, space: string, v: Json, rest: string) {
    Space(space) && Loose(v) && Container(v) && KindOf(v) == kind && s == space + Text(v, rest)
  }

  /** The iterators read exactly the texts of the grammar, as what they denote. */
  lemma ReadsExactlyGrammar(kind: Kind, s: string, t: Tree)
    requires |s| < UINT64
    ensures TextTree(kind, s) == Some(t)
       <==> exists space, v, rest :: IsTextOf(kind, s, space, v, rest) && Meaning(v) == t
  {
    hide TextTree, Text, Loose, Meaning, Depth;
    if TextTree(kind, s) == Some(t) {
      var space, v, rest := TextBack(kind, s);
      assert IsTextOf(kind, s, space, v, rest);
    }
    if space, v, rest :| IsTextOf(kind, s, space, v, rest) && Meaning(v) == t {
      DepthFits(v, rest);
      ReadsText(v, space, rest);
    }
  }

  /** Two values with the same text before and behind them end at the same place. */
  lemma SameEnd(v: Json, w: Json, rest: string, more: string)
    requires Loose(v) && Container(v) && Loose(w) && Container(w) && KindOf(v) == KindOf(w)
    requires Text(v, rest) == Text(w, more) && |Text(v, rest)| < UINT64
    ensures rest == more
  {
    hide Text, Loose, Depth, SearchEnd;
    DepthFits(v, rest);
    DepthFits(w, more);
    var body := ContainerOpens(v, rest);
    var inner := ContainerOpens(w, more);
    assert body == Text(v, rest)[1..] == inner;
    ValueEnd(v, rest, body);
    ValueEnd(w, more, body);
  }

  /** A text that is cut before the closing bracket is not read. */
  lemma CutIsNotRead(v: Json, n: nat)
    requires Loose(v) && Container(v) && |Text(v, [])| < UINT64 && n < |Text(v, [])|
    ensures TextTree(KindOf(v), Text(v, [])[..n]) == None
  {
    hide TextTree, Text, Loose, Meaning, Depth, SearchEnd;
    var kind := KindOf(v);
    var text := Text(v, []);
    if TextTree(kind, text[..n]).Some? {
      var space, w, tail := TextBack(kind, text[..n]);
      var end := text[n..];
      var body := ContainerOpens(v, []);
      assert text[..n] != [] ==> text[..n][0] == text[0];
      var head := ContainerOpens(w, tail);
      assert text[..n] != [];
      NoGap(space, Text(w, tail), text[..n], Bracket(kind));
      TextTwice(w, tail, end);
      assert text[..n] + end == text;
      SameEnd(v, w, [], tail + end);
    }
  }

  /** The first token of a value is none of those that separate values. */
  lemma ValueStarts(v: Json, rest: string)
    requires Loose(v) && Delimited(rest) && Depth(v) < UINT64
    ensures Scan(Text(v, rest)).token !in {Comma, Colon, RightBrace, RightBracket, End, Error}
  {
    hide Scan, Text, Loose, Depth, ValueOf, SearchEnd;
    ValueFound(v, rest);
  }

  /** Two values without a comma between them are not read. */
  lemma MissingComma(v: Json, space: string, w: Json, rest: string)
    requires Loose(v) && Space(space) && space != [] && Loose(w) && Delimited(rest)
    requires Depth(v) < UINT64 && Depth(w) < UINT64
    ensures TextTree(ArrayKind, ['['] + Text(v, space + Text(w, rest))) == None
  {
    hide Scan, Text, Loose, Depth, ValueOf, List, FieldsTree, ItemsTree;
    var after := space + Text(w, rest);
    var s := ['['] + Text(v, after);
    assert IsSpace(space[0]) && after[0] == space[0];
    ScanPunctuation('[', Text(v, after));
    assert [] + Text(v, after) == Text(v, after);
    ListValue(ArrayKind, ReadValueOrEnd, [], [], v, after);
    ScanSpace(space, Text(w, rest));
    ValueStarts(w, rest);
    ListFailed(ArrayKind, ReadCommaOrEnd, [], after);
    NoTree(ArrayKind, s);
  }

  lemma NoTree(kind: Kind, s: string)
    requires ListText(kind, s).error
    ensures TextTree(kind, s) == None
  {
    hide ListText;
    assert Bounded(ListText(kind, s), |s|);
    ErrorHasNoTree(ListText(kind, s), |s|);
  }

  /** A comma without a value behind it is not read. */
  lemma TrailingComma(v: Json, space: string, rest: string)
    requires Loose(v) && Space(space) && Depth(v) < UINT64
    ensures TextTree(ArrayKind, ['['] + Text(v, [','] + (space + ([']'] + rest)))) == None
  {
    hide Scan, Text, Loose, Depth, ValueOf, List, FieldsTree, ItemsTree;
    var end := space + ([']'] + rest);
    var after := [','] + end;
    ScanPunctuation('[', Text(v, after));
    assert [] + Text(v, after) == Text(v, after) && [] + after == after;
    ListValue(ArrayKind, ReadValueOrEnd, [], [], v, after);
    ListComma(ArrayKind, [], [], end);
    ScanSpace(space, [']'] + rest);
    ScanPunctuation(']', rest);
    ListFailed(ArrayKind, ReadValue, [], end);
    NoTree(ArrayKind, ['['] + Text(v, after));
  }

  /** A key without a colon behind it is not read. */
  lemma MissingColon(key: seq<Item>, space: string, v: Json, rest: string)
    requires ItemsLoose(key) && Space(space) && Loose(v) && Delimited(rest) && Depth(v) < UINT64
    ensures TextTree(ObjectKind, ['{'] + StringText(key, space + Text(v, rest))) == None
  {
    hide Scan, Text, Loose, Depth, List, FieldsTree, ItemsTree, StringText, ItemsText, ItemsLoose;
    var after := space + Text(v, rest);
    var text := StringText(key, after);
    ScanPunctuation('{', text);
    ScanItems(key, after);
    ListNext(ObjectKind, ReadKeyOrEnd, [], text);
    ScanSpace(space, Text(v, rest));
    ValueStarts(v, rest);
    ListFailed(ObjectKind, ReadColon, ItemsText(key, []), after);
    NoTree(ObjectKind, ['{'] + text);
  }
}
