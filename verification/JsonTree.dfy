/** What the iterators of infra/syntax/Json.cpp make of a well-formed text: the tree that it denotes. */
module JsonTree {
  import opened Common
  import opened JsonSyntax
  import opened JsonTokenizer
  import opened JsonTokens
  import opened JsonReader

  datatype Tree =
    | Nothing
    | Truth(flag: bool)
    | Number(n: int)
    | Fraction(value: nat, nano: nat, negative: bool)
    | Chars(text: string)
    | Object(fields: Fields)
    | Array(items: Items)

  datatype Fields = NoFields | Field(key: string, value: Tree, fields: Fields)
  datatype Items = NoItems | AnItem(value: Tree, items: Items)

  // ---------------------------------------------------------------------------------------------
  // Collecting a tree with the iterators
  // ---------------------------------------------------------------------------------------------

  function Signed(value: nat, negative: bool): int { if negative then 0 - value else value }

  /** An empty object text is how the iterators present null. */
  function ValueTree(v: Value<string>): Option<Tree>
    decreases Extent(v), 3, 0
  {
    match v
    case StringValue(raw) => Some(Chars(Decode(raw)))
    case Integer(n) => Some(Number(n))
    case BiggerInt(value, negative) => Some(Number(Signed(value, negative)))
    case FloatValue(value, nano, negative) => Some(Fraction(value, nano, negative))
    case Boolean(flag) => Some(Truth(flag))
    case NestedValue(kind, text) => if text == [] then Some(Nothing) else TextTree(kind, text)
  }

  /** The tree of a whole object or array, or none if an iterator reports an error. */
  function TextTree(kind: Kind, text: string): Option<Tree>
    decreases |text|, 2, 0
  {
    if kind.ObjectKind? then ObjectTree(FieldsTree(ListText(kind, text), |text|))
    else ArrayTree(ItemsTree(ListText(kind, text), |text|))
  }

  function ObjectTree(fields: Option<Fields>): Option<Tree> {
    if fields.None? then None else Some(Object(fields.value))
  }

  function ArrayTree(items: Option<Items>): Option<Tree> {
    if items.None? then None else Some(Array(items.value))
  }

  ghost predicate Bounded(listing: Listing, bound: nat) {
    forall e :: e in listing.entries ==> Extent(e.value) < bound
  }

  function AddField(key: string, value: Option<Tree>, fields: Option<Fields>): Option<Fields> {
    if value.None? || fields.None? then None else Some(Field(key, value.value, fields.value))
  }

  function AddItem(value: Option<Tree>, items: Option<Items>): Option<Items> {
    if value.None? || items.None? then None else Some(AnItem(value.value, items.value))
  }

  function Behind(listing: Listing): Listing
    requires listing.entries != []
  {
    Listing(listing.entries[1..], listing.error)
  }

  function FieldsTree(listing: Listing, ghost bound: nat): Option<Fields>
    requires Bounded(listing, bound)
    decreases bound, 1, |listing.entries|
  {
    if listing.entries == [] then if listing.error then None else Some(NoFields)
    else
      var entry := listing.entries[0];
      AddField(Decode(entry.key), ValueTree(entry.value), FieldsTree(Behind(listing), bound))
  }

  function ItemsTree(listing: Listing, ghost bound: nat): Option<Items>
    requires Bounded(listing, bound)
    decreases bound, 1, |listing.entries|
  {
    if listing.entries == [] then if listing.error then None else Some(NoItems)
    else AddItem(ValueTree(listing.entries[0].value), ItemsTree(Behind(listing), bound))
  }

  method CollectValue(storage: array<char>, v: Value<View>) returns (tree: Option<Tree>)
    requires Within(v, storage.Length)
    ensures tree == ValueTree(Resolve(v, storage[..]))
    decreases if v.NestedValue? then v.text.size else 0, 3, 0
  {
    hide Decode, Complete, TextTree;
    match v
    case StringValue(raw) =>
      var text := ToStdString(raw);
      tree := Some(Chars(text));
    case Integer(n) => tree := Some(Number(n));
    case BiggerInt(value, negative) => tree := Some(Number(Signed(value, negative)));
    case FloatValue(value, nano, negative) => tree := Some(Fraction(value, nano, negative));
    case Boolean(flag) => tree := Some(Truth(flag));
    case NestedValue(kind, view) =>
      if view.size == 0 {
        tree := Some(Nothing);
      } else {
        assert storage[..][view.begin..view.begin + view.size] == storage[view.begin..view.begin + view.size];
        tree := CollectText(storage, view.begin, view.size, kind);
      }
  }

  /** Collects an object or array, iterating over its text and over every text nested in it. */
  method CollectText(storage: array<char>, begin: nat, size: nat, kind: Kind) returns (tree: Option<Tree>)
    requires begin + size <= storage.Length
    ensures tree == TextTree(kind, storage[begin..begin + size])
    decreases size, 2, 0
  {
    hide ListText, FieldsTree, ItemsTree, List, Resolve, Complete;
    var it := new JsonIterator(storage, begin, size, kind);
    if kind.ObjectKind? {
      var fields := CollectFields(it, size);
      tree := ObjectTree(fields);
    } else {
      var items := CollectItems(it, size);
      tree := ArrayTree(items);
    }
  }

  method CollectFields(it: JsonIterator, ghost bound: nat) returns (fields: Option<Fields>)
    requires it.Valid() && (it.state == ReadCommaOrEnd || it.state == AtEnd)
    requires Bounded(it.Remaining(), bound)
    modifies it, it.tokenizer`parseIndex
    ensures fields == old(FieldsTree(it.Remaining(), bound))
    decreases bound, 1, |it.Remaining().entries|
  {
    hide Resolve, List, Complete, ValueTree;
    if it.state == AtEnd {
      return if it.error then None else Some(NoFields);
    }
    ghost var listing := it.Remaining();
    var key := ToStdString(it.key);
    assert Extent(listing.entries[0].value) < bound;
    var value := CollectValue(it.tokenizer.storage, it.value);
    it.Advance();
    assert it.Remaining() == Behind(listing);
    var rest := CollectFields(it, bound);
    fields := AddField(key, value, rest);
  }

  method CollectItems(it: JsonIterator, ghost bound: nat) returns (items: Option<Items>)
    requires it.Valid() && (it.state == ReadCommaOrEnd || it.state == AtEnd)
    requires Bounded(it.Remaining(), bound)
    modifies it, it.tokenizer`parseIndex
    ensures items == old(ItemsTree(it.Remaining(), bound))
    decreases bound, 1, |it.Remaining().entries|
  {
    hide Resolve, List, Complete, ValueTree;
    if it.state == AtEnd {
      return if it.error then None else Some(NoItems);
    }
    ghost var listing := it.Remaining();
    assert Extent(listing.entries[0].value) < bound;
    var value := CollectValue(it.tokenizer.storage, it.value);
    it.Advance();
    assert it.Remaining() == Behind(listing);
    var rest := CollectItems(it, bound);
    items := AddItem(value, rest);
  }

  // ---------------------------------------------------------------------------------------------
  // The tree a well-formed text denotes
  // ---------------------------------------------------------------------------------------------

  /** The tokenizer knows no exponents. */
  predicate Plain(v: Json) {
    match v
    case Num(_, _, _, exponent) => exponent.None?
    case Obj(members) => MembersPlain(members)
    case Arr(elements) => ElementsPlain(elements)
    case _ => true
  }

  predicate MembersPlain(ms: Members) {
    Plain(ms.member.value) && (ms.MoreMembers? ==> MembersPlain(ms.members))
  }

  predicate ElementsPlain(es: Elements) {
    Plain(es.element.value) && (es.MoreElements? ==> ElementsPlain(es.elements))
  }

  /** What is well-formed and has no exponents is also what the tokenizer takes for a value. */
  lemma {:induction false} OkIsLoose(v: Json)
    requires Ok(v) && Plain(v)
    ensures Loose(v)
    decreases v
  {
    match v
    case Str(items) => OkItemsAreLoose(items);
    case Obj(members) => OkMembersAreLoose(members);
    case Arr(elements) => OkElementsAreLoose(elements);
    case _ =>
  }

  lemma {:induction false} OkMembersAreLoose(ms: Members)
    requires MembersOk(ms) && MembersPlain(ms)
    ensures MembersLoose(ms)
    decreases ms
  {
    OkItemsAreLoose(ms.member.key);
    OkIsLoose(ms.member.value);
    if ms.MoreMembers? { OkMembersAreLoose(ms.members); }
  }

  lemma OkMemberIsLoose(m: Member)
    requires MemberOk(m) && Plain(m.value)
    ensures MemberLoose(m)
  {
    OkItemsAreLoose(m.key);
    OkIsLoose(m.value);
  }

  lemma {:induction false} OkElementsAreLoose(es: Elements)
    requires ElementsOk(es) && ElementsPlain(es)
    ensures ElementsLoose(es)
    decreases es
  {
    OkIsLoose(es.element.value);
    if es.MoreElements? { OkElementsAreLoose(es.elements); }
  }

  /** Integer parts wrap at 2^64, fractions are cut to nine digits. */
  function Meaning(v: Json): Tree {
    match v
    case Null => Nothing
    case Bool(flag) => Truth(flag)
    case Num(negative, digits, fraction, _) =>
      var value := DigitsValue(0, digits) % UINT64;
      if fraction.Some? then Fraction(value, Unsigned(Nano(fraction.value)), negative)
      else Number(Signed(value, negative))
    case Str(items) => Chars(Contents(items))
    case EmptyObj(_) => Object(NoFields)
    case Obj(members) => Object(MembersMeaning(members))
    case EmptyArr(_) => Array(NoItems)
    case Arr(elements) => Array(ElementsMeaning(elements))
    case Skipped(_, _) => Nothing
  }

  function MembersMeaning(ms: Members): Fields {
    Field(Contents(ms.member.key), Meaning(ms.member.value),
          if ms.MoreMembers? then MembersMeaning(ms.members) else NoFields)
  }

  function ElementsMeaning(es: Elements): Items {
    AnItem(Meaning(es.element.value), if es.MoreElements? then ElementsMeaning(es.elements) else NoItems)
  }

  // ---------------------------------------------------------------------------------------------
  // What follows a value comes behind its text
  // ---------------------------------------------------------------------------------------------

  lemma StringAppend(items: seq<Item>, rest: string)
    ensures StringText(items, rest) == StringText(items, []) + rest
  {
    ItemsAppend(items, ['\"'] + rest);
    ItemsAppend(items, ['\"'] + []);
  }

  lemma ExponentAppend(exponent: Option<ExponentPart>, rest: string)
    ensures ExponentText(exponent, rest) == ExponentText(exponent, []) + rest
  {
  }

  lemma FractionAppend(fraction: Option<string>, tail: string, rest: string)
    ensures FractionText(fraction, tail + rest) == FractionText(fraction, tail) + rest
  {
    match fraction
    case None =>
    case Some(digits) =>
      assert digits + (tail + rest) == (digits + tail) + rest;
      assert ['.'] + ((digits + tail) + rest) == (['.'] + (digits + tail)) + rest;
  }

  lemma NumberAppend(v: Json, rest: string)
    requires v.Num?
    ensures Text(v, rest) == Text(v, []) + rest
  {
    hide ExponentText, FractionText;
    ExponentAppend(v.exponent, rest);
    FractionAppend(v.fraction, ExponentText(v.exponent, []), rest);
    var tail := FractionText(v.fraction, ExponentText(v.exponent, []));
    assert v.digits + (tail + rest) == (v.digits + tail) + rest;
  }

  lemma {:induction false} TextAppend(v: Json, rest: string)
    ensures Text(v, rest) == Text(v, []) + rest
  {
    hide StringText, MembersText, ElementsText;
    match v
    case Null =>
    case Bool(flag) =>
    case Num(_, _, _, _) => NumberAppend(v, rest);
    case Str(items) => StringAppend(items, rest);
    case EmptyObj(space) => assert space + (['}'] + rest) == (space + ['}']) + rest;
    case EmptyArr(space) => assert space + ([']'] + rest) == (space + [']']) + rest;
    case Obj(members) =>
      MembersAppend(members, ['}'] + rest);
      MembersAppend(members, ['}'] + []);
    case Arr(elements) =>
      ElementsAppend(elements, [']'] + rest);
      ElementsAppend(elements, [']'] + []);
    case Skipped(isObject, pieces) =>
      PiecesAppend(pieces, [CloseBracket(isObject)] + rest);
      PiecesAppend(pieces, [CloseBracket(isObject)] + []);
      assert [CloseBracket(isObject)] + rest == ([CloseBracket(isObject)] + []) + rest;
  }

  lemma PieceAppend(p: Piece, rest: string)
    ensures PieceText(p, rest) == PieceText(p, []) + rest
  {
    match p
    case Single(_) =>
    case WholeString(items) => StringAppend(items, rest);
    case TornString(items, digits, last) =>
      var tail := ['\\'] + (['u'] + (digits + ([last] + [])));
      ItemsAppend(items, tail + rest);
      ItemsAppend(items, tail);
      assert ['\\'] + (['u'] + (digits + ([last] + rest))) == tail + rest;
  }

  lemma {:induction false} PiecesAppend(pieces: seq<Piece>, rest: string)
    ensures PiecesText(pieces, rest) == PiecesText(pieces, []) + rest
    decreases |pieces|
  {
    if pieces != [] {
      hide PieceText;
      PiecesAppend(pieces[1..], rest);
      var tail := PiecesText(pieces[1..], []);
      PieceAppend(pieces[0], tail + rest);
      PieceAppend(pieces[0], tail);
    }
  }

  lemma {:induction false} MemberAppend(m: Member, rest: string)
    ensures MemberText(m, rest) == MemberText(m, []) + rest
  {
    hide Text, StringText;
    TextAppend(m.value, m.s3 + rest);
    TextAppend(m.value, m.s3 + []);
    var tail := Text(m.value, []) + m.s3;
    assert Text(m.value, m.s3 + rest) == tail + rest && Text(m.value, m.s3 + []) == tail;
    StringAppend(m.key, m.s1 + ([':'] + (m.s2 + (tail + rest))));
    StringAppend(m.key, m.s1 + ([':'] + (m.s2 + tail)));
  }

  lemma {:induction false} MembersAppend(ms: Members, rest: string)
    ensures MembersText(ms, rest) == MembersText(ms, []) + rest
  {
    MemberAppend(ms.member, rest);
    if ms.MoreMembers? {
      hide MemberText;
      MembersAppend(ms.members, rest);
      MemberAppend(ms.member, [','] + MembersText(ms.members, rest));
      MemberAppend(ms.member, [','] + MembersText(ms.members, []));
    }
  }

  lemma {:induction false} ElementAppend(e: Element, rest: string)
    ensures ElementText(e, rest) == ElementText(e, []) + rest
  {
    hide Text;
    TextAppend(e.value, e.s1 + rest);
    TextAppend(e.value, e.s1 + []);
  }

  lemma {:induction false} ElementsAppend(es: Elements, rest: string)
    ensures ElementsText(es, rest) == ElementsText(es, []) + rest
  {
    ElementAppend(es.element, rest);
    if es.MoreElements? {
      hide ElementText;
      ElementsAppend(es.elements, rest);
      ElementAppend(es.element, [','] + ElementsText(es.elements, rest));
      ElementAppend(es.element, [','] + ElementsText(es.elements, []));
    }
  }

  // ---------------------------------------------------------------------------------------------
  // The search for the matching bracket passes over a whole value
  // ---------------------------------------------------------------------------------------------

  /** The wrapped counter at a nesting depth. */
  function Nested(depth: nat): nat { if depth == 0 then 0 else (UINT64 - depth) % UINT64 }

  lemma SpaceDelimits(space: string, c: char, rest: string)
    requires Space(space) && c in {',', '}', ']'}
    ensures Delimited(space + ([c] + rest))
  {
    var s := space + ([c] + rest);
    assert s[0] == if space == [] then c else space[0];
    if space != [] { assert IsSpace(space[0]); }
  }

  lemma SearchToken(kind: Kind, s: string, nested: nat)
    requires Scan(s).token != End && Scan(s).token != Error
    requires nested == 0 ==> Scan(s).token != Closer(kind)
    ensures SearchEnd(kind, s, nested) == SearchEnd(kind, Scan(s).rest, Count(kind, Scan(s).token, nested))
  {
  }

  lemma SearchSpace(kind: Kind, space: string, s: string, nested: nat)
    requires Space(space)
    ensures SearchEnd(kind, space + s, nested) == SearchEnd(kind, s, nested)
  {
    ScanSpace(space, s);
  }

  /** The punctuation that does not change the counter. */
  lemma SearchNeutral(kind: Kind, c: char, rest: string, nested: nat)
    requires c in {':', ','}
    ensures SearchEnd(kind, [c] + rest, nested) == SearchEnd(kind, rest, nested)
  {
    hide Scan;
    ScanPunctuation(c, rest);
    SearchToken(kind, [c] + rest, nested);
  }

  lemma SearchString(kind: Kind, items: seq<Item>, rest: string, nested: nat)
    requires ItemsLoose(items)
    ensures SearchEnd(kind, StringText(items, rest), nested) == SearchEnd(kind, rest, nested)
  {
    hide Scan, StringText;
    ScanItems(items, rest);
    SearchToken(kind, StringText(items, rest), nested);
  }

  /** What the search leaves is the end of the text. */
  lemma {:induction false} SearchSuffix(kind: Kind, s: string, nested: nat)
    ensures SearchEnd(kind, s, nested).Some? ==> Suffix(SearchEnd(kind, s, nested).value, s)
    decreases |s|
  {
    hide Scan, Suffix;
    ScanSuffix(s);
    var next := Scan(s);
    if SearchEnd(kind, s, nested).Some? && !(nested == 0 && next.token == Closer(kind)) {
      SearchSuffix(kind, next.rest, Count(kind, next.token, nested));
      SuffixTrans(SearchEnd(kind, s, nested).value, next.rest, s);
    }
  }

  function Inner(kind: Kind, opening: Kind, depth: nat): nat { if kind == opening then depth + 1 else depth }

  lemma CountOpen(kind: Kind, opening: Kind, depth: nat)
    requires depth + 1 < UINT64
    ensures Count(kind, Opener(opening), Nested(depth)) == Nested(Inner(kind, opening, depth))
  {
  }

  lemma CountClose(kind: Kind, closing: Kind, depth: nat)
    requires depth + 1 < UINT64
    ensures Count(kind, Closer(closing), Nested(Inner(kind, closing, depth))) == Nested(depth)
    ensures kind == closing ==> Nested(Inner(kind, closing, depth)) != 0
  {
  }

  lemma SearchOpen(kind: Kind, opening: Kind, rest: string, depth: nat)
    requires depth + 1 < UINT64
    ensures SearchEnd(kind, [Bracket(opening)] + rest, Nested(depth))
         == SearchEnd(kind, rest, Nested(Inner(kind, opening, depth)))
  {
    hide Scan, SearchEnd, Nested, Count, Inner;
    ScanPunctuation(Bracket(opening), rest);
    SearchToken(kind, [Bracket(opening)] + rest, Nested(depth));
    CountOpen(kind, opening, depth);
  }

  function EndBracket(kind: Kind): char { if kind.ObjectKind? then '}' else ']' }

  lemma SearchClose(kind: Kind, closing: Kind, rest: string, depth: nat)
    requires depth + 1 < UINT64
    ensures SearchEnd(kind, [EndBracket(closing)] + rest, Nested(Inner(kind, closing, depth)))
         == SearchEnd(kind, rest, Nested(depth))
  {
    hide Scan, SearchEnd, Nested, Count;
    ScanPunctuation(EndBracket(closing), rest);
    CountClose(kind, closing, depth);
    SearchToken(kind, [EndBracket(closing)] + rest, Nested(Inner(kind, closing, depth)));
  }

  /** A value is passed over, whatever brackets are in it. */
  lemma {:induction false} SearchValue(kind: Kind, v: Json, rest: string, depth: nat)
    requires Loose(v) && Delimited(rest) && depth + Depth(v) < UINT64
    ensures SearchEnd(kind, Text(v, rest), Nested(depth)) == SearchEnd(kind, rest, Nested(depth))
    decreases v, 1
  {
    hide Scan, SearchEnd, Nested;
    match v
    case Null =>
      ScanLiteral("null", rest);
      SearchToken(kind, Text(v, rest), Nested(depth));
    case Bool(flag) =>
      ScanLiteral(if flag then "true" else "false", rest);
      SearchToken(kind, Text(v, rest), Nested(depth));
    case Num(_, _, _, _) =>
      ScanNumberText(v, rest);
      SearchToken(kind, Text(v, rest), Nested(depth));
    case Str(items) => SearchString(kind, items, rest, Nested(depth));
    case EmptyObj(space) =>
      SearchOpen(kind, ObjectKind, space + (['}'] + rest), depth);
      SearchSpace(kind, space, ['}'] + rest, Nested(Inner(kind, ObjectKind, depth)));
      SearchClose(kind, ObjectKind, rest, depth);
    case EmptyArr(space) =>
      SearchOpen(kind, ArrayKind, space + ([']'] + rest), depth);
      SearchSpace(kind, space, [']'] + rest, Nested(Inner(kind, ArrayKind, depth)));
      SearchClose(kind, ArrayKind, rest, depth);
    case Obj(members) =>
      SearchOpen(kind, ObjectKind, MembersText(members, ['}'] + rest), depth);
      SearchMembers(kind, members, rest, Inner(kind, ObjectKind, depth));
      SearchClose(kind, ObjectKind, rest, depth);
    case Arr(elements) =>
      SearchOpen(kind, ArrayKind, ElementsText(elements, [']'] + rest), depth);
      SearchElements(kind, elements, rest, Inner(kind, ArrayKind, depth));
      SearchClose(kind, ArrayKind, rest, depth);
  }

  lemma {:induction false} SearchMember(kind: Kind, m: Member, c: char, rest: string, depth: nat)
    requires MemberLoose(m) && c in {',', '}'} && depth + Depth(m.value) < UINT64
    ensures SearchEnd(kind, MemberText(m, [c] + rest), Nested(depth)) == SearchEnd(kind, [c] + rest, Nested(depth))
    decreases m, 0
  {
    hide Scan, SearchEnd, Nested, Text, StringText;
    var nested := Nested(depth);
    var s3 := m.s3 + ([c] + rest);
    var s2 := Text(m.value, s3);
    var s1 := [':'] + (m.s2 + s2);
    SearchSpace(kind, m.s0, StringText(m.key, m.s1 + s1), nested);
    SearchString(kind, m.key, m.s1 + s1, nested);
    SearchSpace(kind, m.s1, s1, nested);
    SearchNeutral(kind, ':', m.s2 + s2, nested);
    SearchSpace(kind, m.s2, s2, nested);
    SpaceDelimits(m.s3, c, rest);
    SearchValue(kind, m.value, s3, depth);
    SearchSpace(kind, m.s3, [c] + rest, nested);
  }

  lemma {:induction false} SearchMembers(kind: Kind, ms: Members, rest: string, depth: nat)
    requires MembersLoose(ms) && depth + MembersDepth(ms) < UINT64
    ensures SearchEnd(kind, MembersText(ms, ['}'] + rest), Nested(depth))
         == SearchEnd(kind, ['}'] + rest, Nested(depth))
    decreases ms, 0
  {
    hide Scan, SearchEnd, Nested, MemberText;
    match ms
    case LastMember(m) => SearchMember(kind, m, '}', rest, depth);
    case MoreMembers(m, tail) =>
      SearchMember(kind, m, ',', MembersText(tail, ['}'] + rest), depth);
      SearchNeutral(kind, ',', MembersText(tail, ['}'] + rest), Nested(depth));
      SearchMembers(kind, tail, rest, depth);
  }

  lemma {:induction false} SearchElement(kind: Kind, e: Element, c: char, rest: string, depth: nat)
    requires ElementLoose(e) && c in {',', ']'} && depth + Depth(e.value) < UINT64
    ensures SearchEnd(kind, ElementText(e, [c] + rest), Nested(depth)) == SearchEnd(kind, [c] + rest, Nested(depth))
    decreases e, 0
  {
    hide Scan, SearchEnd, Nested, Text;
    var s1 := e.s1 + ([c] + rest);
    SearchSpace(kind, e.s0, Text(e.value, s1), Nested(depth));
    SpaceDelimits(e.s1, c, rest);
    SearchValue(kind, e.value, s1, depth);
    SearchSpace(kind, e.s1, [c] + rest, Nested(depth));
  }

  lemma {:induction false} SearchElements(kind: Kind, es: Elements, rest: string, depth: nat)
    requires ElementsLoose(es) && depth + ElementsDepth(es) < UINT64
    ensures SearchEnd(kind, ElementsText(es, [']'] + rest), Nested(depth))
         == SearchEnd(kind, [']'] + rest, Nested(depth))
    decreases es, 0
  {
    hide Scan, SearchEnd, Nested, ElementText;
    match es
    case LastElement(e) => SearchElement(kind, e, ']', rest, depth);
    case MoreElements(e, tail) =>
      SearchElement(kind, e, ',', ElementsText(tail, [']'] + rest), depth);
      SearchNeutral(kind, ',', ElementsText(tail, [']'] + rest), Nested(depth));
      SearchElements(kind, tail, rest, depth);
  }

  // ---------------------------------------------------------------------------------------------
  // Iterating over a well-formed object or array
  // ---------------------------------------------------------------------------------------------

  /** How an iterator presents a value. */
  function ValueOf(v: Json): Value<string> {
    match v
    case Null => NestedValue(ObjectKind, [])
    case Bool(flag) => Boolean(flag)
    case Num(negative, digits, fraction, _) =>
      var value := DigitsValue(0, digits) % UINT64;
      if fraction.Some? then FloatValue(value, Unsigned(Nano(fraction.value)), negative)
      else ReadInteger(value, negative)
    case Str(items) => StringValue(ItemsText(items, []))
    case EmptyObj(_) => NestedValue(ObjectKind, Text(v, []))
    case Obj(_) => NestedValue(ObjectKind, Text(v, []))
    case EmptyArr(_) => NestedValue(ArrayKind, Text(v, []))
    case Arr(_) => NestedValue(ArrayKind, Text(v, []))
    case Skipped(_, _) => NestedValue(ObjectKind, [])
  }

  lemma NestedFound(kind: Kind, v: Json, inner: string, rest: string)
    requires Text(v, rest) == [Bracket(kind)] + inner
    requires SearchEnd(kind, inner, Nested(0)) == SearchEnd(kind, [EndBracket(kind)] + rest, Nested(0))
    ensures ParseValue(Scan(Text(v, rest)).token, Scan(Text(v, rest)).rest)
         == Found(NestedValue(kind, Text(v, [])), rest)
  {
    hide Scan, Text, SearchEnd;
    ScanPunctuation(Bracket(kind), inner);
    SearchStops(kind, rest);
    TextAppend(v, rest);
    Peel(Bracket(kind), inner, Text(v, []), rest);
  }

  lemma SearchStops(kind: Kind, rest: string)
    ensures SearchEnd(kind, [EndBracket(kind)] + rest, 0) == Some(rest)
  {
    hide Scan;
    ScanPunctuation(EndBracket(kind), rest);
  }

  lemma Peel(c: char, inner: string, body: string, rest: string)
    requires [c] + inner == body + rest && |rest| <= |inner|
    ensures [c] + inner[..|inner| - |rest|] == body
  {
    var n := |inner| - |rest|;
    assert ([c] + inner)[..n + 1] == [c] + inner[..n];
    assert (body + rest)[..n + 1] == body;
  }

  /** The first token of a value makes the iterator find the value and move behind it. */
  lemma ValueFound(v: Json, rest: string)
    requires Loose(v) && Delimited(rest) && Depth(v) < UINT64
    ensures ParseValue(Scan(Text(v, rest)).token, Scan(Text(v, rest)).rest) == Found(ValueOf(v), rest)
    ensures !Scan(Text(v, rest)).token.RightBracket?
  {
    hide Scan, SearchEnd, Nested, DigitsValue, Nano, MembersText, ElementsText, ReadInteger, StringText, ItemsText;
    hide MembersLoose, ElementsLoose, ItemsLoose, LooseNumber;
    match v
    case Null => ScanLiteral("null", rest);
    case Bool(flag) => ScanLiteral(if flag then "true" else "false", rest);
    case Num(_, _, _, _) => ScanNumberText(v, rest);
    case Str(items) => ScanItems(items, rest);
    case EmptyObj(space) =>
      SearchSpace(ObjectKind, space, ['}'] + rest, Nested(0));
      NestedFound(ObjectKind, v, space + (['}'] + rest), rest);
      ScanPunctuation('{', space + (['}'] + rest));
    case EmptyArr(space) =>
      SearchSpace(ArrayKind, space, [']'] + rest, Nested(0));
      NestedFound(ArrayKind, v, space + ([']'] + rest), rest);
      ScanPunctuation('[', space + ([']'] + rest));
    case Obj(members) =>
      SearchMembers(ObjectKind, members, rest, 0);
      NestedFound(ObjectKind, v, MembersText(members, ['}'] + rest), rest);
      ScanPunctuation('{', MembersText(members, ['}'] + rest));
    case Arr(elements) =>
      SearchElements(ArrayKind, elements, rest, 0);
      NestedFound(ArrayKind, v, ElementsText(elements, [']'] + rest), rest);
      ScanPunctuation('[', ElementsText(elements, [']'] + rest));
  }

  lemma ListNext(kind: Kind, state: State, key: string, s: string)
    requires state != AtEnd
    ensures var p := ParseNext(kind, state, key, s);
            && (p.Next? ==> List(kind, state, key, s) == List(kind, p.state, p.key, p.rest))
            && (p.Finished? ==> List(kind, state, key, s) == Listing([], false))
            && (p.Found? ==>
                  List(kind, state, key, s) == Prepend(Entry(key, p.value), List(kind, ReadCommaOrEnd, key, p.rest)))
  {
  }

  function Prepend(entry: Entry, listing: Listing): Listing {
    Listing([entry] + listing.entries, listing.error)
  }

  /** Behind a value: a comma leads to the next entry, the closing bracket ends the iteration. */
  lemma ListComma(kind: Kind, key: string, space: string, rest: string)
    requires Space(space)
    ensures List(kind, ReadCommaOrEnd, key, space + ([','] + rest))
         == List(kind, if kind.ObjectKind? then ReadKey else ReadValue, key, rest)
  {
    hide Scan, List;
    ScanSpace(space, [','] + rest);
    ScanPunctuation(',', rest);
    ListNext(kind, ReadCommaOrEnd, key, space + ([','] + rest));
  }

  lemma ListEnd(kind: Kind, state: State, key: string, space: string, rest: string)
    requires Space(space)
    requires
      || state == ReadCommaOrEnd
      || (kind.ObjectKind? && state == ReadKeyOrEnd) || (kind.ArrayKind? && state == ReadValueOrEnd)
    ensures List(kind, state, key, space + ([EndBracket(kind)] + rest)) == Listing([], false)
  {
    hide Scan, List;
    ScanSpace(space, [EndBracket(kind)] + rest);
    ScanPunctuation(EndBracket(kind), rest);
    ListNext(kind, state, key, space + ([EndBracket(kind)] + rest));
  }

  lemma ListKey(state: State, key: string, m: Member, rest: string)
    requires Space(m.s0) && Space(m.s1) && ItemsLoose(m.key) && (state == ReadKeyOrEnd || state == ReadKey)
    ensures List(ObjectKind, state, key, m.s0 + StringText(m.key, m.s1 + ([':'] + rest)))
         == List(ObjectKind, ReadValue, ItemsText(m.key, []), rest)
  {
    hide Scan, List, StringText, ItemsText;
    var s1 := m.s1 + ([':'] + rest);
    var s0 := m.s0 + StringText(m.key, s1);
    ScanSpace(m.s0, StringText(m.key, s1));
    ScanItems(m.key, s1);
    ListNext(ObjectKind, state, key, s0);
    ScanSpace(m.s1, [':'] + rest);
    ScanPunctuation(':', rest);
    ListNext(ObjectKind, ReadColon, ItemsText(m.key, []), s1);
  }

  lemma ListValue(kind: Kind, state: State, key: string, space: string, v: Json, rest: string)
    requires Space(space) && Loose(v) && Delimited(rest) && Depth(v) < UINT64
    requires state == ReadValue || (kind.ArrayKind? && state == ReadValueOrEnd)
    ensures List(kind, state, key, space + Text(v, rest))
         == Prepend(Entry(key, ValueOf(v)), List(kind, ReadCommaOrEnd, key, rest))
  {
    hide Scan, List, Text, ParseValue, ValueOf;
    ScanSpace(space, Text(v, rest));
    ValueFound(v, rest);
    ListNext(kind, state, key, space + Text(v, rest));
  }

  function MembersEntries(ms: Members): seq<Entry> {
    [Entry(ItemsText(ms.member.key, []), ValueOf(ms.member.value))]
    + (if ms.MoreMembers? then MembersEntries(ms.members) else [])
  }

  function ElementsEntries(es: Elements): seq<Entry> {
    [Entry([], ValueOf(es.element.value))] + (if es.MoreElements? then ElementsEntries(es.elements) else [])
  }

  lemma ListMember(state: State, key: string, m: Member, c: char, rest: string)
    requires MemberLoose(m) && Depth(m.value) < UINT64 && c in {',', '}'}
    requires state == ReadKeyOrEnd || state == ReadKey
    ensures List(ObjectKind, state, key, MemberText(m, [c] + rest))
         == Prepend(Entry(ItemsText(m.key, []), ValueOf(m.value)),
                    List(ObjectKind, ReadCommaOrEnd, ItemsText(m.key, []), m.s3 + ([c] + rest)))
  {
    hide List, StringText, ItemsText, Text, ValueOf;
    SpaceDelimits(m.s3, c, rest);
    var behind := m.s3 + ([c] + rest);
    ListKey(state, key, m, m.s2 + Text(m.value, behind));
    ListValue(ObjectKind, ReadValue, ItemsText(m.key, []), m.s2, m.value, behind);
  }

  lemma {:induction false} ListMembers(state: State, key: string, ms: Members, rest: string)
    requires MembersLoose(ms) && MembersDepth(ms) < UINT64
    requires state == ReadKeyOrEnd || state == ReadKey
    ensures List(ObjectKind, state, key, MembersText(ms, ['}'] + rest)) == Listing(MembersEntries(ms), false)
    decreases ms
  {
    hide List, MemberText, ItemsText, ValueOf;
    var key' := ItemsText(ms.member.key, []);
    match ms
    case LastMember(m) =>
      ListMember(state, key, m, '}', rest);
      ListEnd(ObjectKind, ReadCommaOrEnd, key', m.s3, rest);
    case MoreMembers(m, tail) =>
      ListMember(state, key, m, ',', MembersText(tail, ['}'] + rest));
      ListComma(ObjectKind, key', m.s3, MembersText(tail, ['}'] + rest));
      ListMembers(ReadKey, key', tail, rest);
  }

  lemma {:induction false} ListElements(state: State, es: Elements, rest: string)
    requires ElementsLoose(es) && ElementsDepth(es) < UINT64
    requires state == ReadValueOrEnd || state == ReadValue
    ensures List(ArrayKind, state, [], ElementsText(es, [']'] + rest)) == Listing(ElementsEntries(es), false)
    decreases es
  {
    hide List, Text, ValueOf;
    match es
    case LastElement(e) =>
      SpaceDelimits(e.s1, ']', rest);
      ListValue(ArrayKind, state, [], e.s0, e.value, e.s1 + ([']'] + rest));
      ListEnd(ArrayKind, ReadCommaOrEnd, [], e.s1, rest);
    case MoreElements(e, tail) =>
      var next := ElementsText(tail, [']'] + rest);
      SpaceDelimits(e.s1, ',', next);
      ListValue(ArrayKind, state, [], e.s0, e.value, e.s1 + ([','] + next));
      ListComma(ArrayKind, [], e.s1, next);
      ListElements(ReadValue, tail, rest);
  }

  predicate Container(v: Json) { v.EmptyObj? || v.Obj? || v.EmptyArr? || v.Arr? }

  function KindOf(v: Json): Kind { if v.EmptyObj? || v.Obj? then ObjectKind else ArrayKind }

  function EntriesOf(v: Json): seq<Entry> {
    if v.Obj? then MembersEntries(v.members) else if v.Arr? then ElementsEntries(v.elements) else []
  }

  lemma ContainerOpens(v: Json, rest: string) returns (inner: string)
    requires Container(v)
    ensures Text(v, rest) == [Bracket(KindOf(v))] + inner
    ensures v.EmptyObj? || v.EmptyArr? ==> inner == v.space + ([EndBracket(KindOf(v))] + rest)
    ensures v.Obj? ==> inner == MembersText(v.members, ['}'] + rest)
    ensures v.Arr? ==> inner == ElementsText(v.elements, [']'] + rest)
  {
    match v
    case EmptyObj(space) => inner := space + (['}'] + rest);
    case EmptyArr(space) => inner := space + ([']'] + rest);
    case Obj(members) => inner := MembersText(members, ['}'] + rest);
    case Arr(elements) => inner := ElementsText(elements, [']'] + rest);
  }

  /** Iterating over a well-formed object or array yields its entries in order, without error. */
  lemma ListsText(v: Json, space: string, rest: string)
    requires Loose(v) && Container(v) && Depth(v) < UINT64 && Space(space)
    ensures ListText(KindOf(v), space + Text(v, rest)) == Listing(EntriesOf(v), false)
  {
    hide Scan, List, MembersText, ElementsText, Text;
    var kind := KindOf(v);
    ScanSpace(space, Text(v, rest));
    var inner := ContainerOpens(v, rest);
    ScanPunctuation(Bracket(kind), inner);
    match v
    case EmptyObj(gap) => ListEnd(kind, ReadKeyOrEnd, [], gap, rest);
    case EmptyArr(gap) => ListEnd(kind, ReadValueOrEnd, [], gap, rest);
    case Obj(members) => ListMembers(ReadKeyOrEnd, [], members, rest);
    case Arr(elements) => ListElements(ReadValueOrEnd, elements, rest);
  }

  // ---------------------------------------------------------------------------------------------
  // The tree
  // ---------------------------------------------------------------------------------------------

  /** Both the 32-bit and the bigger integers keep the value. */
  lemma IntegerIsExact(value: nat, negative: bool)
    requires value < UINT64
    ensures ReadInteger<string>(value, negative) in {Integer(Signed(value, negative)), BiggerInt(value, negative)}
    ensures ReadInteger<string>(value, negative).Integer? <==> -0x8000_0000 <= Signed(value, negative) <= 0x7fff_ffff
  {
    if negative && 0 < value <= 0x8000_0000 {
      NegativeIsExact(value);
      hide Signed32;
    }
  }

  lemma NegativeIsExact(value: nat)
    requires 0 < value <= 0x8000_0000
    ensures Signed32(value, true) == 0 - value
  {
    assert value * (UINT64 - 1) == (UINT64 - value) + (value - 1) * UINT64;
    ModAdd(UINT64 - value, value - 1, UINT64);
    assert (UINT64 - value) % UINT32 == UINT32 - value;
  }

  lemma {:induction false} ValueTreeIs(v: Json)
    requires Loose(v) && Depth(v) < UINT64
    ensures ValueTree(ValueOf(v)) == Some(Meaning(v))
    decreases v, 2
  {
    hide ReadInteger, DigitsValue, Nano, ItemsText, TextTree;
    match v
    case Null =>
    case Bool(_) =>
    case Num(negative, digits, _, _) => IntegerIsExact(DigitsValue(0, digits) % UINT64, negative);
    case Str(items) => DecodeItems(items);
    case EmptyObj(_) => ReadsText(v, [], []); assert [] + Text(v, []) == Text(v, []);
    case Obj(_) => ReadsText(v, [], []); assert [] + Text(v, []) == Text(v, []);
    case EmptyArr(_) => ReadsText(v, [], []); assert [] + Text(v, []) == Text(v, []);
    case Arr(_) => ReadsText(v, [], []); assert [] + Text(v, []) == Text(v, []);
  }

  lemma {:induction false} FieldsTreeIs(ms: Members, bound: nat)
    requires MembersLoose(ms) && MembersDepth(ms) < UINT64
    requires Bounded(Listing(MembersEntries(ms), false), bound)
    ensures FieldsTree(Listing(MembersEntries(ms), false), bound) == Some(MembersMeaning(ms))
    decreases ms, 0
  {
    hide ValueTree, ValueOf, Meaning, ItemsText, Decode;
    var listing := Listing(MembersEntries(ms), false);
    var m := ms.member;
    DecodeItems(m.key);
    ValueTreeIs(m.value);
    assert listing.entries[0] == Entry(ItemsText(m.key, []), ValueOf(m.value));
    if ms.MoreMembers? {
      assert Behind(listing) == Listing(MembersEntries(ms.members), false);
      FieldsTreeIs(ms.members, bound);
    } else {
      assert Behind(listing) == Listing([], false);
    }
  }

  lemma {:induction false} ItemsTreeIs(es: Elements, bound: nat)
    requires ElementsLoose(es) && ElementsDepth(es) < UINT64
    requires Bounded(Listing(ElementsEntries(es), false), bound)
    ensures ItemsTree(Listing(ElementsEntries(es), false), bound) == Some(ElementsMeaning(es))
    decreases es, 0
  {
    hide ValueTree, ValueOf, Meaning;
    var listing := Listing(ElementsEntries(es), false);
    ValueTreeIs(es.element.value);
    assert listing.entries[0] == Entry([], ValueOf(es.element.value));
    if es.MoreElements? {
      assert Behind(listing) == Listing(ElementsEntries(es.elements), false);
      ItemsTreeIs(es.elements, bound);
    } else {
      assert Behind(listing) == Listing([], false);
    }
  }

  /** Every well-formed object or array without exponents is read as the tree it denotes, whatever
      white space precedes it and whatever follows it. */
  lemma {:induction false} ReadsText(v: Json, space: string, rest: string)
    requires Loose(v) && Container(v) && Depth(v) < UINT64 && Space(space)
    ensures TextTree(KindOf(v), space + Text(v, rest)) == Some(Meaning(v))
    decreases v, 1
  {
    hide ListText, FieldsTree, ItemsTree, Text, MembersMeaning, ElementsMeaning;
    var text := space + Text(v, rest);
    ListsText(v, space, rest);
    assert Bounded(ListText(KindOf(v), text), |text|);
    match v
    case EmptyObj(_) => EmptyTrees(|text|);
    case EmptyArr(_) => EmptyTrees(|text|);
    case Obj(members) => FieldsTreeIs(members, |text|);
    case Arr(elements) => ItemsTreeIs(elements, |text|);
  }

  lemma EmptyTrees(bound: nat)
    ensures FieldsTree(Listing([], false), bound) == Some(NoFields)
    ensures ItemsTree(Listing([], false), bound) == Some(NoItems)
  {
  }

  // ---------------------------------------------------------------------------------------------
  // Every level of nesting takes characters
  // ---------------------------------------------------------------------------------------------

  lemma {:induction false} DepthFits(v: Json, rest: string)
    ensures Depth(v) + |rest| <= |Text(v, rest)|
    decreases v, 1
  {
    hide MembersText, ElementsText, StringText;
    match v
    case Null =>
    case Bool(_) =>
    case Num(_, _, _, _) =>
    case Str(items) => StringAppend(items, rest);
    case EmptyObj(_) =>
    case EmptyArr(_) =>
    case Obj(members) => MembersFit(members, ['}'] + rest);
    case Arr(elements) => ElementsFit(elements, [']'] + rest);
    case Skipped(isObject, pieces) => PiecesAppend(pieces, [CloseBracket(isObject)] + rest);
  }

  lemma {:induction false} MembersFit(ms: Members, rest: string)
    ensures MembersDepth(ms) + |rest| <= |MembersText(ms, rest)|
    decreases ms, 0
  {
    hide Text, StringText;
    var m := ms.member;
    var tail := if ms.MoreMembers? then [','] + MembersText(ms.members, rest) else rest;
    assert MembersText(ms, rest) == MemberText(m, tail);
    if ms.MoreMembers? { MembersFit(ms.members, rest); }
    DepthFits(m.value, m.s3 + tail);
    StringAppend(m.key, m.s1 + ([':'] + (m.s2 + Text(m.value, m.s3 + tail))));
  }

  lemma {:induction false} ElementsFit(es: Elements, rest: string)
    ensures ElementsDepth(es) + |rest| <= |ElementsText(es, rest)|
    decreases es, 0
  {
    hide Text;
    var tail := if es.MoreElements? then [','] + ElementsText(es.elements, rest) else rest;
    assert ElementsText(es, rest) == ElementText(es.element, tail);
    if es.MoreElements? { ElementsFit(es.elements, rest); }
    DepthFits(es.element.value, es.element.s1 + tail);
  }

  // ---------------------------------------------------------------------------------------------
  // Texts with exponents
  // ---------------------------------------------------------------------------------------------

  /** A number with an exponent stops the bracket search. */
  lemma SearchExponent(kind: Kind, v: Json, rest: string, nested: nat)
    requires v.Num? && Ok(v) && !Plain(v)
    ensures SearchEnd(kind, Text(v, rest), nested) == None
  {
    hide Scan, Text, ExponentText;
    ScanExponent(v.exponent.value, rest);
    ScanNumberText(v, rest);
    SearchToken(kind, Text(v, rest), nested);
    SearchError(kind, ExponentText(v.exponent, rest), nested);
  }

  lemma SearchError(kind: Kind, s: string, nested: nat)
    requires Scan(s).token == Error
    ensures SearchEnd(kind, s, nested) == None
  {
  }

  /** A value with an exponent anywhere in it stops the bracket search, wherever it began. */
  lemma {:induction false} SearchFails(kind: Kind, v: Json, rest: string, depth: nat)
    requires Ok(v) && !Plain(v) && depth + Depth(v) < UINT64
    ensures SearchEnd(kind, Text(v, rest), Nested(depth)) == None
    decreases v, 1
  {
    hide Scan, SearchEnd, Nested;
    match v
    case Num(_, _, _, _) => SearchExponent(kind, v, rest, Nested(depth));
    case Obj(members) =>
      SearchOpen(kind, ObjectKind, MembersText(members, ['}'] + rest), depth);
      SearchMembersFails(kind, members, rest, Inner(kind, ObjectKind, depth));
    case Arr(elements) =>
      SearchOpen(kind, ArrayKind, ElementsText(elements, [']'] + rest), depth);
      SearchElementsFails(kind, elements, rest, Inner(kind, ArrayKind, depth));
  }

  lemma {:induction false} SearchMemberFails(kind: Kind, m: Member, rest: string, depth: nat)
    requires MemberOk(m) && !Plain(m.value) && depth + Depth(m.value) < UINT64
    ensures SearchEnd(kind, MemberText(m, rest), Nested(depth)) == None
    decreases m, 0
  {
    hide Scan, SearchEnd, Nested, Text, StringText;
    var nested := Nested(depth);
    var s2 := Text(m.value, m.s3 + rest);
    var s1 := [':'] + (m.s2 + s2);
    SearchSpace(kind, m.s0, StringText(m.key, m.s1 + s1), nested);
    OkItemsAreLoose(m.key);
    SearchString(kind, m.key, m.s1 + s1, nested);
    SearchSpace(kind, m.s1, s1, nested);
    SearchNeutral(kind, ':', m.s2 + s2, nested);
    SearchSpace(kind, m.s2, s2, nested);
    SearchFails(kind, m.value, m.s3 + rest, depth);
  }

  lemma {:induction false} SearchMembersFails(kind: Kind, ms: Members, rest: string, depth: nat)
    requires MembersOk(ms) && !MembersPlain(ms) && depth + MembersDepth(ms) < UINT64
    ensures SearchEnd(kind, MembersText(ms, ['}'] + rest), Nested(depth)) == None
    decreases ms, 0
  {
    hide Scan, SearchEnd, Nested, MemberText;
    var after := if ms.LastMember? then ['}'] + rest else [','] + MembersText(ms.members, ['}'] + rest);
    if !Plain(ms.member.value) {
      SearchMemberFails(kind, ms.member, after, depth);
    } else {
      OkMemberIsLoose(ms.member);
      SearchMember(kind, ms.member, ',', MembersText(ms.members, ['}'] + rest), depth);
      SearchNeutral(kind, ',', MembersText(ms.members, ['}'] + rest), Nested(depth));
      SearchMembersFails(kind, ms.members, rest, depth);
    }
  }

  lemma {:induction false} SearchElementsFails(kind: Kind, es: Elements, rest: string, depth: nat)
    requires ElementsOk(es) && !ElementsPlain(es) && depth + ElementsDepth(es) < UINT64
    ensures SearchEnd(kind, ElementsText(es, [']'] + rest), Nested(depth)) == None
    decreases es, 0
  {
    hide Scan, SearchEnd, Nested, Text;
    var e := es.element;
    var after := if es.LastElement? then [']'] + rest else [','] + ElementsText(es.elements, [']'] + rest);
    if !Plain(e.value) {
      SearchSpace(kind, e.s0, Text(e.value, e.s1 + after), Nested(depth));
      SearchFails(kind, e.value, e.s1 + after, depth);
    } else {
      OkIsLoose(e.value);
      SearchElement(kind, e, ',', ElementsText(es.elements, [']'] + rest), depth);
      SearchNeutral(kind, ',', ElementsText(es.elements, [']'] + rest), Nested(depth));
      SearchElementsFails(kind, es.elements, rest, depth);
    }
  }

  /** An object or array with an exponent in it is not found. */
  lemma NestedNotFound(v: Json, rest: string)
    requires Ok(v) && !Plain(v) && Container(v) && Depth(v) < UINT64
    ensures ParseValue(Scan(Text(v, rest)).token, Scan(Text(v, rest)).rest) == Failed
  {
    hide Scan, SearchEnd, Nested, MembersText, ElementsText;
    match v
    case Obj(members) =>
      SearchMembersFails(ObjectKind, members, rest, 0);
      ScanPunctuation('{', MembersText(members, ['}'] + rest));
      assert Nested(0) == 0 by { NestedZero(); }
    case Arr(elements) =>
      SearchElementsFails(ArrayKind, elements, rest, 0);
      ScanPunctuation('[', ElementsText(elements, [']'] + rest));
      assert Nested(0) == 0 by { NestedZero(); }
  }

  lemma NestedZero()
    ensures Nested(0) == 0
  {
  }

  /** Iterating past a value with an exponent sets the error flag: a number is listed and then what
      follows it is wrong, an object or array is not found. */
  lemma ListValueFails(kind: Kind, state: State, key: string, space: string, v: Json, rest: string)
    requires Space(space) && Ok(v) && !Plain(v) && Depth(v) < UINT64
    requires state == ReadValue || (kind.ArrayKind? && state == ReadValueOrEnd)
    ensures List(kind, state, key, space + Text(v, rest)).error
  {
    hide Scan, Text, ExponentText, ParseValue;
    ScanSpace(space, Text(v, rest));
    var s := space + Text(v, rest);
    if v.Num? {
      ScanExponent(v.exponent.value, rest);
      ScanNumberText(v, rest);
      NumberParsed(v, ExponentText(v.exponent, rest));
      ListError(kind, key, ExponentText(v.exponent, rest));
    } else {
      NestedNotFound(v, rest);
      NestedOpens(v, rest);
    }
  }

  lemma NumberParsed(v: Json, rest: string)
    requires v.Num?
    ensures !NumberToken(v).RightBracket? && ParseValue(NumberToken(v), rest) == Found(ValueOf(v), rest)
  {
    hide DigitsValue, Nano, ReadInteger;
  }

  lemma ListError(kind: Kind, key: string, s: string)
    requires Scan(s).token == Error
    ensures List(kind, ReadCommaOrEnd, key, s) == Listing([], true)
  {
  }

  lemma NestedOpens(v: Json, rest: string)
    requires Container(v)
    ensures !Scan(Text(v, rest)).token.RightBracket?
  {
    hide Scan, Text;
    var inner := ContainerOpens(v, rest);
    ScanPunctuation(Bracket(KindOf(v)), inner);
  }

  lemma {:induction false} ListMembersFails(state: State, key: string, ms: Members, rest: string)
    requires MembersOk(ms) && !MembersPlain(ms) && MembersDepth(ms) < UINT64
    requires state == ReadKeyOrEnd || state == ReadKey
    ensures List(ObjectKind, state, key, MembersText(ms, ['}'] + rest)).error
    decreases ms
  {
    hide List, StringText, ItemsText, Text, ValueOf;
    var m := ms.member;
    var after := if ms.LastMember? then ['}'] + rest else [','] + MembersText(ms.members, ['}'] + rest);
    if !Plain(m.value) {
      OkItemsAreLoose(m.key);
      ListKey(state, key, m, m.s2 + Text(m.value, m.s3 + after));
      ListValueFails(ObjectKind, ReadValue, ItemsText(m.key, []), m.s2, m.value, m.s3 + after);
    } else {
      var next := MembersText(ms.members, ['}'] + rest);
      OkMemberIsLoose(m);
      ListMember(state, key, m, ',', next);
      ListComma(ObjectKind, ItemsText(m.key, []), m.s3, next);
      ListMembersFails(ReadKey, ItemsText(m.key, []), ms.members, rest);
    }
  }

  lemma {:induction false} ListElementsFails(state: State, es: Elements, rest: string)
    requires ElementsOk(es) && !ElementsPlain(es) && ElementsDepth(es) < UINT64
    requires state == ReadValueOrEnd || state == ReadValue
    ensures List(ArrayKind, state, [], ElementsText(es, [']'] + rest)).error
    decreases es
  {
    hide List, Text, ValueOf;
    var e := es.element;
    var after := if es.LastElement? then [']'] + rest else [','] + ElementsText(es.elements, [']'] + rest);
    if !Plain(e.value) {
      ListValueFails(ArrayKind, state, [], e.s0, e.value, e.s1 + after);
    } else {
      var next := ElementsText(es.elements, [']'] + rest);
      SpaceDelimits(e.s1, ',', next);
      OkIsLoose(e.value);
      ListValue(ArrayKind, state, [], e.s0, e.value, e.s1 + ([','] + next));
      ListComma(ArrayKind, [], e.s1, next);
      ListElementsFails(ReadValue, es.elements, rest);
    }
  }

  lemma ListsTextFails(v: Json, space: string, rest: string)
    requires Ok(v) && !Plain(v) && Container(v) && Depth(v) < UINT64 && Space(space)
    ensures ListText(KindOf(v), space + Text(v, rest)).error
  {
    hide Scan, List, MembersText, ElementsText, Text;
    ScanSpace(space, Text(v, rest));
    var inner := ContainerOpens(v, rest);
    ScanPunctuation(Bracket(KindOf(v)), inner);
    match v
    case Obj(members) => ListMembersFails(ReadKeyOrEnd, [], members, rest);
    case Arr(elements) => ListElementsFails(ReadValueOrEnd, elements, rest);
  }

  lemma {:induction false} ErrorHasNoTree(listing: Listing, bound: nat)
    requires listing.error && Bounded(listing, bound)
    ensures FieldsTree(listing, bound) == None && ItemsTree(listing, bound) == None
    decreases |listing.entries|
  {
    if listing.entries != [] {
      hide ValueTree, Decode;
      ErrorHasNoTree(Behind(listing), bound);
    }
  }

  /** What the iterators make of any well-formed object or array: the tree that it denotes if there
      is no exponent in it, and an error otherwise. */
  lemma ReadsExactly(v: Json, space: string, rest: string)
    requires Ok(v) && Container(v) && Depth(v) < UINT64 && Space(space)
    ensures TextTree(KindOf(v), space + Text(v, rest)) == if Plain(v) then Some(Meaning(v)) else None
  {
    if Plain(v) {
      OkIsLoose(v);
      ReadsText(v, space, rest);
    } else {
      hide ListText, FieldsTree, ItemsTree, Text;
      var text := space + Text(v, rest);
      ListsTextFails(v, space, rest);
      assert Bounded(ListText(KindOf(v), text), |text|);
      ErrorHasNoTree(ListText(KindOf(v), text), |text|);
    }
  }

  /** The well-formed array `[1e5]` is not read. */
  lemma ExponentIsNotRead(s: string)
    requires s == "[1e5]"
    ensures TextTree(ArrayKind, s) == None
  {
    hide TextTree;
    var number := Num(false, "1", None, Some(ExponentPart('e', "5")));
    var element := Element("", number, "");
    var v := Arr(LastElement(element));
    assert Text(number, "]") == "1e5]";
    assert "" + ([']'] + "") == "]";
    assert ElementText(element, [']'] + "") == "1e5]";
    assert ElementsText(LastElement(element), [']'] + "") == "1e5]";
    assert Text(v, "") == ['['] + "1e5]" == s;
    assert [] + Text(v, "") == s;
    ReadsExactly(v, "", "");
  }
}
