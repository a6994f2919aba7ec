/** The concrete syntax of JSON texts (RFC 8259), with their white space and escapes, as shared by
    the streaming parser, the iterators and the formatters. */
module JsonSyntax {
  import opened Common

  const BACKSPACE := 8 as char
  const FORM_FEED := 12 as char

  // ---------------------------------------------------------------------------------------------
  // Character classes of the C locale
  // ---------------------------------------------------------------------------------------------

  predicate IsDigit(c: char) { '0' <= c <= '9' }
  predicate IsAlpha(c: char) { 'a' <= c <= 'z' || 'A' <= c <= 'Z' }
  predicate IsSpace(c: char) { c == ' ' || 9 <= c as int <= 13 }

  function HexValue(c: char): Option<nat> {
    if '0' <= c <= '9' then Some(c as int - '0' as int)
    else if 'a' <= c <= 'f' then Some(c as int - 'a' as int + 10)
    else if 'A' <= c <= 'F' then Some(c as int - 'A' as int + 10)
    else None
  }

  function Unescaped(c: char): char {
    if c == 'b' then BACKSPACE
    else if c == 'f' then FORM_FEED
    else if c == 'n' then '\n'
    else if c == 'r' then '\r'
    else if c == 't' then '\t'
    else c
  }

  const HEX_DIGITS := "0123456789abcdef"
  const HEX_CAPITALS := "0123456789ABCDEF"

  /** The classes, character by character: white space also has the vertical tab and the form feed. */
  lemma CharacterClasses(c: char)
    ensures IsDigit(c) <==> c in DIGITS
    ensures IsAlpha(c) <==> c in CAPITALS || c in SMALL_LETTERS
    ensures IsSpace(c) <==> c in {' ', '\t', '\n', '\r', 11 as char, 12 as char}
  {
    if IsDigit(c) { DigitsInOrder(c as int - '0' as int); }
    if 'a' <= c <= 'z' { LettersInOrder(c as int - 'a' as int); }
    if 'A' <= c <= 'Z' { LettersInOrder(c as int - 'A' as int); }
    if c in CAPITALS {
      var i :| 0 <= i < |CAPITALS| && CAPITALS[i] == c;
      LettersInOrder(i);
    }
    if c in SMALL_LETTERS {
      var i :| 0 <= i < |SMALL_LETTERS| && SMALL_LETTERS[i] == c;
      LettersInOrder(i);
    }
  }

  /** Hexadecimal digits, of either case. */
  lemma HexDigits(c: char, k: nat)
    ensures HexValue(c) == Some(k) <==> k < 16 && (c == HEX_DIGITS[k] || c == HEX_CAPITALS[k])
  {
  }

  /** The short escapes of RFC 8259; any other character stands for itself. */
  lemma ShortEscapes(c: char)
    ensures Unescaped('b') as int == 8 && Unescaped('t') as int == 9 && Unescaped('n') as int == 10
    ensures Unescaped('f') as int == 12 && Unescaped('r') as int == 13
    ensures c !in {'b', 't', 'n', 'f', 'r'} ==> Unescaped(c) == c
  {
  }

  // ---------------------------------------------------------------------------------------------
  // Concrete syntax: every well-formed text, with its white space and its escapes
  // ---------------------------------------------------------------------------------------------

  /** A character of a string. `Short` is a Unicode escape of fewer than four digits, which only the pull
      tokenizer accepts. */
  datatype Item =
    | Plain(c: char) | Escape(c: char) | Unicode(h0: char, h1: char, h2: char, h3: char) | Short(digits: string)

  datatype Json =
    | Null
    | Bool(flag: bool)
    | Num(negative: bool, digits: string, fraction: Option<string>, exponent: Option<ExponentPart>)
    | Str(items: seq<Item>)
    | EmptyObj(space: string)
    | Obj(members: Members)
    | EmptyArr(space: string)
    | Arr(elements: Elements)
      // An object or array that the streaming parser skips, with what is between its brackets.
    | Skipped(isObject: bool, pieces: seq<Piece>)

  /** What the streaming parser tells apart in a value that it skips: strings, strings that end in a
      Unicode escape with too few digits, and all other characters. */
  datatype Piece =
    | Single(c: char) | WholeString(items: seq<Item>) | TornString(items: seq<Item>, digits: string, last: char)

  /** `e` or `E`, and what follows it. */
  datatype ExponentPart = ExponentPart(letter: char, text: string)

  datatype Members = LastMember(member: Member) | MoreMembers(member: Member, members: Members)
  datatype Member = Member(s0: string, key: seq<Item>, s1: string, s2: string, value: Json, s3: string)
  datatype Elements = LastElement(element: Element) | MoreElements(element: Element, elements: Elements)
  datatype Element = Element(s0: string, value: Json, s1: string)

  predicate Space(s: string) { forall i :: 0 <= i < |s| ==> IsSpace(s[i]) }
  predicate Digits(s: string) { s != [] && forall i :: 0 <= i < |s| ==> IsDigit(s[i]) }

  /** The part of an exponent after `e` or `E`: an optional sign and digits. */
  predicate Exponent(s: string) {
    Digits(s) || (|s| > 1 && (s[0] == '+' || s[0] == '-') && Digits(s[1..]))
  }

  predicate ItemOk(x: Item) {
    match x
    case Plain(c) => c != '\"' && c != '\\'
    case Escape(c) => c != 'u'
    case Unicode(h0, h1, h2, h3) => HexValue(h0).Some? && HexValue(h1).Some? && HexValue(h2).Some? && HexValue(h3).Some?
    case Short(_) => false
  }

  predicate ItemsOk(items: seq<Item>) { forall x :: x in items ==> ItemOk(x) }

  predicate Ok(v: Json) {
    match v
    case Null => true
    case Bool(_) => true
    case Num(_, digits, fraction, exponent) =>
      && Digits(digits)
      && (fraction.Some? ==> Digits(fraction.value))
      && (exponent.Some? ==> exponent.value.letter in {'e', 'E'} && Exponent(exponent.value.text))
    case Str(items) => ItemsOk(items)
    case EmptyObj(space) => Space(space)
    case Obj(members) => MembersOk(members)
    case EmptyArr(space) => Space(space)
    case Arr(elements) => ElementsOk(elements)
    case Skipped(_, _) => false
  }

  predicate MemberOk(m: Member) {
    Space(m.s0) && Space(m.s1) && Space(m.s2) && Space(m.s3) && ItemsOk(m.key) && Ok(m.value)
  }

  predicate MembersOk(ms: Members) {
    MemberOk(ms.member) && (ms.MoreMembers? ==> MembersOk(ms.members))
  }

  predicate ElementOk(e: Element) { Space(e.s0) && Space(e.s1) && Ok(e.value) }

  predicate ElementsOk(es: Elements) {
    ElementOk(es.element) && (es.MoreElements? ==> ElementsOk(es.elements))
  }

  // ---------------------------------------------------------------------------------------------
  // RFC 8259 to the letter. What is called well-formed above also has other white space, control
  // characters in strings, escapes of any character and numbers with leading zeros
  // ---------------------------------------------------------------------------------------------

  predicate RfcSpace(s: string) { forall i :: 0 <= i < |s| ==> s[i] in {' ', '\t', '\n', '\r'} }

  predicate RfcItem(x: Item) {
    match x
    case Plain(c) => c as int >= 0x20 && c != '\"' && c != '\\'
    case Escape(c) => c in {'\"', '\\', '/', 'b', 'f', 'n', 'r', 't'}
    case Unicode(h0, h1, h2, h3) => AllHex([h0, h1, h2, h3])
    case Short(_) => false
  }

  predicate RfcItems(items: seq<Item>) { forall x :: x in items ==> RfcItem(x) }

  predicate Rfc(v: Json) {
    match v
    case Null => true
    case Bool(_) => true
    case Num(_, digits, fraction, exponent) =>
      && Digits(digits) && (digits[0] == '0' ==> |digits| == 1)
      && (fraction.Some? ==> Digits(fraction.value))
      && (exponent.Some? ==> exponent.value.letter in {'e', 'E'} && Exponent(exponent.value.text))
    case Str(items) => RfcItems(items)
    case EmptyObj(space) => RfcSpace(space)
    case Obj(members) => RfcMembers(members)
    case EmptyArr(space) => RfcSpace(space)
    case Arr(elements) => RfcElements(elements)
    case Skipped(_, _) => false
  }

  predicate RfcMembers(ms: Members) {
    var m := ms.member;
    && RfcSpace(m.s0) && RfcSpace(m.s1) && RfcSpace(m.s2) && RfcSpace(m.s3) && RfcItems(m.key) && Rfc(m.value)
    && (ms.MoreMembers? ==> RfcMembers(ms.members))
  }

  predicate RfcElements(es: Elements) {
    var e := es.element;
    && RfcSpace(e.s0) && RfcSpace(e.s1) && Rfc(e.value)
    && (es.MoreElements? ==> RfcElements(es.elements))
  }

  lemma RfcItemsAreOk(items: seq<Item>)
    requires RfcItems(items)
    ensures ItemsOk(items)
  {
    forall x | x in items ensures ItemOk(x) {
      if x.Unicode? {
        var digits := [x.h0, x.h1, x.h2, x.h3];
        assert digits[0] == x.h0 && digits[1] == x.h1 && digits[2] == x.h2 && digits[3] == x.h3;
        assert forall i :: 0 <= i < 4 ==> HexValue(digits[i]).Some?;
      }
    }
  }

  /** Every value of RFC 8259 is well-formed. */
  lemma {:induction false} RfcIsOk(v: Json)
    requires Rfc(v)
    ensures Ok(v)
    decreases v
  {
    match v
    case Str(items) => RfcItemsAreOk(items);
    case Obj(members) => RfcMembersAreOk(members);
    case Arr(elements) => RfcElementsAreOk(elements);
    case _ =>
  }

  lemma {:induction false} RfcMembersAreOk(ms: Members)
    requires RfcMembers(ms)
    ensures MembersOk(ms)
    decreases ms
  {
    RfcItemsAreOk(ms.member.key);
    RfcIsOk(ms.member.value);
    if ms.MoreMembers? { RfcMembersAreOk(ms.members); }
  }

  lemma {:induction false} RfcElementsAreOk(es: Elements)
    requires RfcElements(es)
    ensures ElementsOk(es)
    decreases es
  {
    RfcIsOk(es.element.value);
    if es.MoreElements? { RfcElementsAreOk(es.elements); }
  }

  // ---------------------------------------------------------------------------------------------
  // What the pull tokenizer takes for a value: numbers may lack their digits, and Unicode escapes some of
  // theirs; exponents it does not know
  // ---------------------------------------------------------------------------------------------

  predicate AllDigits(s: string) { forall i :: 0 <= i < |s| ==> IsDigit(s[i]) }
  predicate AllHex(s: string) { forall i :: 0 <= i < |s| ==> HexValue(s[i]).Some? }

  /** A sign or a digit, and perhaps a dot, each followed by any number of digits. */
  predicate LooseNumber(v: Json)
    requires v.Num?
  {
    (v.negative || v.digits != []) && AllDigits(v.digits) && (v.fraction.Some? ==> AllDigits(v.fraction.value))
  }

  /** A short Unicode escape ends where no hexadecimal digit follows. */
  predicate LooseItem(x: Item, behind: seq<Item>) {
    ItemOk(x) ||
    (x.Short? && |x.digits| < 4 && AllHex(x.digits) &&
     (behind != [] && behind[0].Plain? ==> HexValue(behind[0].c).None?))
  }

  predicate ItemsLoose(items: seq<Item>) {
    items != [] ==> LooseItem(items[0], items[1..]) && ItemsLoose(items[1..])
  }

  predicate Loose(v: Json) {
    match v
    case Null => true
    case Bool(_) => true
    case Num(_, _, _, exponent) => LooseNumber(v) && exponent.None?
    case Str(items) => ItemsLoose(items)
    case EmptyObj(space) => Space(space)
    case Obj(members) => MembersLoose(members)
    case EmptyArr(space) => Space(space)
    case Arr(elements) => ElementsLoose(elements)
    case Skipped(_, _) => false
  }

  predicate MemberLoose(m: Member) {
    Space(m.s0) && Space(m.s1) && Space(m.s2) && Space(m.s3) && ItemsLoose(m.key) && Loose(m.value)
  }

  predicate MembersLoose(ms: Members) {
    MemberLoose(ms.member) && (ms.MoreMembers? ==> MembersLoose(ms.members))
  }

  predicate ElementLoose(e: Element) { Space(e.s0) && Space(e.s1) && Loose(e.value) }

  predicate ElementsLoose(es: Elements) {
    ElementLoose(es.element) && (es.MoreElements? ==> ElementsLoose(es.elements))
  }

  lemma {:induction false} OkItemsAreLoose(items: seq<Item>)
    requires ItemsOk(items)
    ensures ItemsLoose(items)
    decreases |items|
  {
    if items != [] { OkItemsAreLoose(items[1..]); }
  }

  // ---------------------------------------------------------------------------------------------
  // What the streaming parser takes for a value: numbers may lack their digits, and in a value that is
  // skipped only brackets of its own kind and strings count
  // ---------------------------------------------------------------------------------------------

  /** As LooseNumber; behind a fraction there may be an exponent of any digits and signs. */
  predicate StreamedNumber(v: Json)
    requires v.Num?
  {
    && LooseNumber(v)
    && (v.exponent.Some? ==>
          && v.fraction.Some? && v.exponent.value.letter in {'e', 'E'}
          && forall i :: 0 <= i < |v.exponent.value.text| ==> ExponentByte(v.exponent.value.text[i]))
  }

  predicate ExponentByte(c: char) { IsDigit(c) || c == '+' || c == '-' }

  /** The brackets of one kind are balanced; open ones are counted in 32 bits. */
  predicate Balanced(isObject: bool, pieces: seq<Piece>, depth: nat) {
    if pieces == [] then depth == 0
    else
      match pieces[0]
      case Single(c) =>
        && c != '\"'
        && (if c == OpenBracket(isObject) then Balanced(isObject, pieces[1..], (depth + 1) % UINT32)
            else if c == CloseBracket(isObject) then depth > 0 && Balanced(isObject, pieces[1..], depth - 1)
            else Balanced(isObject, pieces[1..], depth))
      case WholeString(items) => ItemsOk(items) && Balanced(isObject, pieces[1..], depth)
      case TornString(items, digits, last) =>
        && ItemsOk(items) && |digits| < 4 && AllHex(digits) && HexValue(last).None?
        && Balanced(isObject, pieces[1..], depth)
  }

  // The text of a value, followed by `rest`.

  function ItemText(x: Item, rest: string): string {
    match x
    case Plain(c) => [c] + rest
    case Escape(c) => ['\\'] + ([c] + rest)
    case Unicode(h0, h1, h2, h3) => ['\\'] + (['u'] + ([h0] + ([h1] + ([h2] + ([h3] + rest)))))
    case Short(digits) => ['\\'] + (['u'] + (digits + rest))
  }

  function ItemsText(items: seq<Item>, rest: string): string {
    if items == [] then rest else ItemText(items[0], ItemsText(items[1..], rest))
  }

  function StringText(items: seq<Item>, rest: string): string {
    ['\"'] + ItemsText(items, ['\"'] + rest)
  }

  function ExponentText(exponent: Option<ExponentPart>, rest: string): string {
    if exponent.Some? then [exponent.value.letter] + (exponent.value.text + rest) else rest
  }

  function FractionText(fraction: Option<string>, rest: string): string {
    if fraction.Some? then ['.'] + (fraction.value + rest) else rest
  }

  function Text(v: Json, rest: string): string {
    match v
    case Null => "null" + rest
    case Bool(flag) => (if flag then "true" else "false") + rest
    case Num(negative, digits, fraction, exponent) =>
      var number := digits + FractionText(fraction, ExponentText(exponent, rest));
      if negative then ['-'] + number else number
    case Str(items) => StringText(items, rest)
    case EmptyObj(space) => ['{'] + (space + (['}'] + rest))
    case Obj(members) => ['{'] + MembersText(members, ['}'] + rest)
    case EmptyArr(space) => ['['] + (space + ([']'] + rest))
    case Arr(elements) => ['['] + ElementsText(elements, [']'] + rest)
    case Skipped(isObject, pieces) => [OpenBracket(isObject)] + PiecesText(pieces, [CloseBracket(isObject)] + rest)
  }

  function OpenBracket(isObject: bool): char { if isObject then '{' else '[' }
  function CloseBracket(isObject: bool): char { if isObject then '}' else ']' }

  function PieceText(p: Piece, rest: string): string {
    match p
    case Single(c) => [c] + rest
    case WholeString(items) => StringText(items, rest)
    case TornString(items, digits, last) => ['\"'] + ItemsText(items, ['\\'] + (['u'] + (digits + ([last] + rest))))
  }

  function PiecesText(pieces: seq<Piece>, rest: string): string {
    if pieces == [] then rest else PieceText(pieces[0], PiecesText(pieces[1..], rest))
  }

  function MemberText(m: Member, rest: string): string {
    m.s0 + StringText(m.key, m.s1 + ([':'] + (m.s2 + Text(m.value, m.s3 + rest))))
  }

  function MembersText(ms: Members, rest: string): string {
    match ms
    case LastMember(m) => MemberText(m, rest)
    case MoreMembers(m, tail) => MemberText(m, [','] + MembersText(tail, rest))
  }

  function ElementText(e: Element, rest: string): string {
    e.s0 + Text(e.value, e.s1 + rest)
  }

  function ElementsText(es: Elements, rest: string): string {
    match es
    case LastElement(e) => ElementText(e, rest)
    case MoreElements(e, tail) => ElementText(e, [','] + ElementsText(tail, rest))
  }

  // ---------------------------------------------------------------------------------------------
  // The meaning of strings and digits, and nesting
  // ---------------------------------------------------------------------------------------------

  function Decoded(x: Item): char {
    match x
    case Plain(c) => c
    case Escape(c) => Unescaped(c)
    case Unicode(h0, h1, h2, h3) =>
      var code := ((Hex(h0) * 16 + Hex(h1)) * 16 + Hex(h2)) * 16 + Hex(h3);
      (code % 256) as char
    case Short(digits) => (HexNumber(0, digits) % 256) as char
  }

  function HexNumber(prefix: nat, digits: string): nat
    decreases |digits|
  {
    if digits == [] then prefix else HexNumber(prefix * 16 + Hex(digits[0]), digits[1..])
  }

  function Hex(c: char): nat { if HexValue(c).Some? then HexValue(c).value else 0 }

  function Contents(items: seq<Item>): (r: string)
    ensures |r| == |items|
  {
    seq(|items|, i requires 0 <= i < |items| => Decoded(items[i]))
  }

  function DigitsValue(prefix: int, digits: string): int
    decreases |digits|
  {
    if digits == [] then prefix else DigitsValue(prefix * 10 + (digits[0] as int - '0' as int), digits[1..])
  }

  /** How deep objects and arrays nest in a value. */
  function Depth(v: Json): nat {
    match v
    case EmptyObj(_) => 1
    case EmptyArr(_) => 1
    case Obj(members) => 1 + MembersDepth(members)
    case Arr(elements) => 1 + ElementsDepth(elements)
    case _ => 0
  }

  function Max(a: nat, b: nat): nat { if a < b then b else a }

  function MembersDepth(ms: Members): nat {
    Max(Depth(ms.member.value), if ms.MoreMembers? then MembersDepth(ms.members) else 0)
  }

  function ElementsDepth(es: Elements): nat {
    Max(Depth(es.element.value), if es.MoreElements? then ElementsDepth(es.elements) else 0)
  }
}
