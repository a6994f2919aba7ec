/** Printing a tree with the formatters of infra/syntax/JsonFormatter.cpp and reading it with the
    iterators of infra/syntax/Json.cpp: exactly which trees come back. */
module JsonRoundTrip {
  import opened Common
  import opened JsonSyntax
  import opened JsonTokenizer
  import opened JsonTokens
  import opened JsonReader
  import opened JsonTree
  import opened TextStream
  import opened JsonEscape
  import opened JsonReadBack
  import opened JsonFormatter

  const BILLION := 1_000_000_000

  // ---------------------------------------------------------------------------------------------
  // Where a tree goes wrong first
  // ---------------------------------------------------------------------------------------------

  /** Strings are bytes. */
  predicate Bytewise(t: Tree) {
    match t
    case Chars(text) => Bytes(text)
    case Object(fields) => FieldsBytewise(fields)
    case Array(items) => ItemsBytewise(items)
    case _ => true
  }

  predicate FieldsBytewise(fields: Fields) { fields.Field? ==> Bytewise(fields.value) && FieldsBytewise(fields.fields) }
  predicate ItemsBytewise(items: Items) { items.AnItem? ==> Bytewise(items.value) && ItemsBytewise(items.items) }

  /** Fractions are below one. */
  predicate Small(t: Tree) {
    match t
    case Fraction(_, nano, _) => nano < BILLION
    case Object(fields) => FieldsSmall(fields)
    case Array(items) => ItemsSmall(items)
    case _ => true
  }

  predicate FieldsSmall(fields: Fields) { fields.Field? ==> Small(fields.value) && FieldsSmall(fields.fields) }
  predicate ItemsSmall(items: Items) { items.AnItem? ==> Small(items.value) && ItemsSmall(items.items) }

  /** What can be added, apart from fractions that are none. */
  predicate Fair(t: Tree, member: bool) { Addable(t, member) && Bytewise(t) && Small(t) }
  predicate FieldsFair(fields: Fields) { FieldsAddable(fields) && FieldsBytewise(fields) && FieldsSmall(fields) }
  predicate ItemsFair(items: Items) { ItemsAddable(items) && ItemsBytewise(items) && ItemsSmall(items) }

  /** Whatever is printable is among what can be added. */
  lemma {:induction false} PrintableIsFair(t: Tree, member: bool)
    requires Printable(t, member)
    ensures Fair(t, member)
    decreases t
  {
    match t
    case Object(fields) => FieldsPrintableAreFair(fields);
    case Array(items) => ItemsPrintableAreFair(items);
    case _ =>
  }

  lemma {:induction false} FieldsPrintableAreFair(fields: Fields)
    requires FieldsPrintable(fields)
    ensures FieldsFair(fields)
    decreases fields
  {
    if fields.Field? {
      PrintableIsFair(fields.value, true);
      FieldsPrintableAreFair(fields.fields);
    }
  }

  lemma {:induction false} ItemsPrintableAreFair(items: Items)
    requires ItemsPrintable(items)
    ensures ItemsFair(items)
    decreases items
  {
    if items.AnItem? {
      PrintableIsFair(items.value, false);
      ItemsPrintableAreFair(items.items);
    }
  }

  /** A string or key that is not read back, and how it is printed. */
  datatype Flaw = Flaw(p: Printing, contents: string)

  /** The first flaw of a tree that is not printable. */
  function FlawOf(signedChar: bool, t: Tree): Flaw {
    match t
    case Chars(text) => Flaw(Escaping(signedChar), text)
    case Object(fields) => FieldsFlaw(signedChar, fields)
    case Array(items) => ItemsFlaw(signedChar, items)
    case _ => Flaw(Verbatim, [])
  }

  function FieldsFlaw(signedChar: bool, fields: Fields): Flaw {
    match fields
    case NoFields => Flaw(Verbatim, [])
    case Field(key, value, rest) =>
      if !Unquoted(key) then Flaw(Verbatim, key)
      else if !Printable(value, true) then FlawOf(signedChar, value)
      else FieldsFlaw(signedChar, rest)
  }

  function ItemsFlaw(signedChar: bool, items: Items): Flaw {
    match items
    case NoItems => Flaw(Verbatim, [])
    case AnItem(value, rest) =>
      if !Printable(value, false) then FlawOf(signedChar, value) else ItemsFlaw(signedChar, rest)
  }

  /** What is printed up to the flaw, and then `z`. */
  function Upto(signedChar: bool, t: Tree, z: string): string
    decreases t, 0
  {
    match t
    case Object(fields) => ['{'] + (" " + FieldsUpto(signedChar, fields, z))
    case Array(items) => ['['] + (" " + ItemsUpto(signedChar, items, z))
    case _ => z
  }

  function FieldsUpto(signedChar: bool, fields: Fields, z: string): string
    decreases fields, 0
  {
    match fields
    case NoFields => z
    case Field(key, value, rest) =>
      if !Unquoted(key) then z
      else (Quoted(key) + ":") + ValueUpto(signedChar, value, true, FieldsUpto(signedChar, rest, z), z)
  }

  function ItemsUpto(signedChar: bool, items: Items, z: string): string
    decreases items, 0
  {
    match items
    case NoItems => z
    case AnItem(value, rest) => ValueUpto(signedChar, value, false, ItemsUpto(signedChar, rest, z), z)
  }

  function ValueUpto(signedChar: bool, value: Tree, member: bool, tail: string, z: string): string
    decreases value, 1
  {
    if !Printable(value, member) then Upto(signedChar, value, z)
    else TreeText(signedChar, value) + ([','] + (" " + tail))
  }

  /** What is printed behind the flaw and its closing quote. */
  function After(signedChar: bool, t: Tree): string {
    match t
    case Object(fields) => FieldsAfter(signedChar, fields) + " }"
    case Array(items) => ItemsAfter(signedChar, items) + " ]"
    case _ => []
  }

  function FieldsAfter(signedChar: bool, fields: Fields): string {
    match fields
    case NoFields => []
    case Field(key, value, rest) =>
      if !Unquoted(key) then ":" + TreeText(signedChar, value) + FieldsText(signedChar, rest, false)
      else if !Printable(value, true) then After(signedChar, value) + FieldsText(signedChar, rest, false)
      else FieldsAfter(signedChar, rest)
  }

  function ItemsAfter(signedChar: bool, items: Items): string {
    match items
    case NoItems => []
    case AnItem(value, rest) =>
      if !Printable(value, false) then After(signedChar, value) + ItemTexts(signedChar, rest, false)
      else ItemsAfter(signedChar, rest)
  }

  /** The flaw as it is printed, with its quotes, before some text. */
  function FlawText(flaw: Flaw, after: string): string { ['\"'] + Placed(flaw.p, flaw.contents, after) }

  /** A tree with a flaw is printed as the text up to it, the flaw, and the text behind it. */
  lemma {:induction false} Splits(signedChar: bool, t: Tree, member: bool, rest: string)
    requires Fair(t, member) && !Printable(t, member)
    ensures TreeText(signedChar, t) + rest
         == Upto(signedChar, t, FlawText(FlawOf(signedChar, t), After(signedChar, t) + rest))
    decreases t, 1
  {
    hide FieldsUpto, ItemsUpto, FieldsText, ItemTexts, FieldsAfter, ItemsAfter, FieldsFlaw, ItemsFlaw, EscapedText;
    match t
    case Chars(text) =>
      assert Quoted(EscapedText(signedChar, text)) + rest == ['\"'] + (EscapedText(signedChar, text) + (['\"'] + rest));
      assert [] + rest == rest;
    case Object(fields) =>
      FieldsSplit(signedChar, fields, " }" + rest);
      var text := FieldsText(signedChar, fields, true);
      assert ("{ " + text + " }") + rest == ['{'] + (" " + (text + (" }" + rest)));
      assert (FieldsAfter(signedChar, fields) + " }") + rest == FieldsAfter(signedChar, fields) + (" }" + rest);
    case Array(items) =>
      ItemsSplit(signedChar, items, " ]" + rest);
      var text := ItemTexts(signedChar, items, true);
      assert ("[ " + text + " ]") + rest == ['['] + (" " + (text + (" ]" + rest)));
      assert (ItemsAfter(signedChar, items) + " ]") + rest == ItemsAfter(signedChar, items) + (" ]" + rest);
  }

  lemma {:induction false} FieldsSplit(signedChar: bool, fields: Fields, rest: string)
    requires FieldsFair(fields) && !FieldsPrintable(fields)
    ensures FieldsText(signedChar, fields, true) + rest
         == FieldsUpto(signedChar, fields,
                       FlawText(FieldsFlaw(signedChar, fields), FieldsAfter(signedChar, fields) + rest))
    decreases fields, 0
  {
    hide TreeText, Upto, After, FlawOf, Placed;
    var value := TreeText(signedChar, fields.value);
    var key := Quoted(fields.key) + ":";
    var tail := FieldsText(signedChar, fields.fields, false);
    FieldsUnfold(signedChar, fields);
    assert FieldsText(signedChar, fields, true) == (key + value) + tail;
    assert ((key + value) + tail) + rest == key + (value + (tail + rest));
    if !Unquoted(fields.key) {
      KeyPlaced(fields.key, value, tail, rest);
    } else if !Printable(fields.value, true) {
      Splits(signedChar, fields.value, true, tail + rest);
      assert (After(signedChar, fields.value) + tail) + rest == After(signedChar, fields.value) + (tail + rest);
    } else {
      FieldsSplit(signedChar, fields.fields, rest);
      FieldsUnfold(signedChar, fields.fields);
      CommaBetween(value, FieldsText(signedChar, fields.fields, true), rest);
    }
  }

  lemma KeyPlaced(key: string, value: string, tail: string, rest: string)
    ensures (Quoted(key) + ":") + (value + (tail + rest)) == ['\"'] + Placed(Verbatim, key, (":" + value + tail) + rest)
  {
  }

  lemma CommaBetween(value: string, tail: string, rest: string)
    ensures value + ((", " + tail) + rest) == value + ([','] + (" " + (tail + rest)))
  {
  }

  lemma {:induction false} ItemsSplit(signedChar: bool, items: Items, rest: string)
    requires ItemsFair(items) && !ItemsPrintable(items)
    ensures ItemTexts(signedChar, items, true) + rest
         == ItemsUpto(signedChar, items, FlawText(ItemsFlaw(signedChar, items), ItemsAfter(signedChar, items) + rest))
    decreases items, 0
  {
    hide TreeText, Upto, After, FlawOf, Placed;
    var value := TreeText(signedChar, items.value);
    var tail := ItemTexts(signedChar, items.items, false);
    ItemsUnfold(signedChar, items);
    assert (value + tail) + rest == value + (tail + rest);
    if !Printable(items.value, false) {
      Splits(signedChar, items.value, false, tail + rest);
      assert (After(signedChar, items.value) + tail) + rest == After(signedChar, items.value) + (tail + rest);
    } else {
      ItemsSplit(signedChar, items.items, rest);
      ItemsUnfold(signedChar, items.items);
      CommaBetween(value, ItemTexts(signedChar, items.items, true), rest);
    }
  }

  /** The flaw is one. */
  lemma {:induction false} FlawIsOne(signedChar: bool, t: Tree, member: bool)
    requires Fair(t, member) && !Printable(t, member)
    ensures var flaw := FlawOf(signedChar, t); Characters(flaw.p, flaw.contents) && !Faithful(flaw.p, flaw.contents)
    decreases t, 1
  {
    match t
    case Chars(text) =>
    case Object(fields) => FieldsFlawIsOne(signedChar, fields);
    case Array(items) => ItemsFlawIsOne(signedChar, items);
  }

  lemma {:induction false} FieldsFlawIsOne(signedChar: bool, fields: Fields)
    requires FieldsFair(fields) && !FieldsPrintable(fields)
    ensures var flaw := FieldsFlaw(signedChar, fields);
            Characters(flaw.p, flaw.contents) && !Faithful(flaw.p, flaw.contents)
    decreases fields, 0
  {
    hide FlawOf;
    if Unquoted(fields.key) {
      if !Printable(fields.value, true) {
        FlawIsOne(signedChar, fields.value, true);
      } else {
        FieldsFlawIsOne(signedChar, fields.fields);
      }
    }
  }

  lemma {:induction false} ItemsFlawIsOne(signedChar: bool, items: Items)
    requires ItemsFair(items) && !ItemsPrintable(items)
    ensures var flaw := ItemsFlaw(signedChar, items);
            Characters(flaw.p, flaw.contents) && !Faithful(flaw.p, flaw.contents)
    decreases items, 0
  {
    hide FlawOf;
    if !Printable(items.value, false) {
      FlawIsOne(signedChar, items.value, false);
    } else {
      ItemsFlawIsOne(signedChar, items.items);
    }
  }

  // ---------------------------------------------------------------------------------------------
  // Behind a flaw there is no backslash before a quote
  // ---------------------------------------------------------------------------------------------

  lemma {:induction false} CalmRun(y: string, s: string)
    requires Unquoted(y) && Calm(s)
    ensures Calm(y + s)
    decreases |y|
  {
    if y == [] {
      assert y + s == s;
    } else {
      assert (y + s)[1..] == y[1..] + s;
      CalmRun(y[1..], s);
    }
  }

  lemma CalmQuote(y: string, s: string, rest: string)
    requires Unquoted(y)
    ensures Calm(y + (Quoted(s) + rest))
  {
    assert (Quoted(s) + rest)[0] == '\"';
    CalmRun(y, Quoted(s) + rest);
  }

  lemma NumberUnquoted(value: nat, negative: bool)
    ensures Unquoted(NumberText(value, negative))
  {
    PaddedRead(value, 0);
  }

  lemma FloatUnquoted(value: nat, nano: nat, negative: bool)
    requires nano < BILLION
    ensures Unquoted(FloatText(value, nano, negative))
  {
    hide NumberText;
    NumberUnquoted(value, negative);
    FloatRead(nano);
    hide FloatDigits;
  }

  lemma {:induction false} TreeCalm(signedChar: bool, t: Tree, member: bool, rest: string)
    requires Fair(t, member) && Calm(rest)
    ensures Calm(TreeText(signedChar, t) + rest)
    decreases t, 1
  {
    hide NumberText, FloatText, FieldsText, ItemTexts, EscapedText, Calm;
    match t
    case Truth(flag) => CalmRun(if flag then "true" else "false", rest);
    case Number(n) =>
      NumberUnquoted(Magnitude(n), n < 0);
      CalmRun(NumberText(Magnitude(n), n < 0), rest);
    case Fraction(value, nano, negative) =>
      FloatUnquoted(value, nano, negative);
      CalmRun(FloatText(value, nano, negative), rest);
    case Chars(text) =>
      CalmQuote([], EscapedText(signedChar, text), rest);
      assert [] + (Quoted(EscapedText(signedChar, text)) + rest) == Quoted(EscapedText(signedChar, text)) + rest;
    case Object(fields) =>
      CalmRun(" }", rest);
      FieldsCalm(signedChar, fields, true, " }" + rest);
      CalmRun("{ ", FieldsText(signedChar, fields, true) + (" }" + rest));
      assert "{ " + (FieldsText(signedChar, fields, true) + (" }" + rest)) == TreeText(signedChar, t) + rest;
    case Array(items) =>
      CalmRun(" ]", rest);
      ItemsCalm(signedChar, items, true, " ]" + rest);
      CalmRun("[ ", ItemTexts(signedChar, items, true) + (" ]" + rest));
      assert "[ " + (ItemTexts(signedChar, items, true) + (" ]" + rest)) == TreeText(signedChar, t) + rest;
  }

  lemma FieldsCalm(signedChar: bool, fields: Fields, first: bool, rest: string)
    requires Calm(rest)
    ensures Calm(FieldsText(signedChar, fields, first) + rest)
  {
    hide Calm, TreeText, Quoted;
    match fields
    case NoFields => assert "" + rest == rest;
    case Field(key, value, tail) =>
      var behind := ":" + TreeText(signedChar, value) + FieldsText(signedChar, tail, false) + rest;
      CalmQuote(Separator(first), key, behind);
      assert FieldsText(signedChar, fields, first) + rest == Separator(first) + (Quoted(key) + behind);
  }

  lemma {:induction false} ItemsCalm(signedChar: bool, items: Items, first: bool, rest: string)
    requires ItemsFair(items) && Calm(rest)
    ensures Calm(ItemTexts(signedChar, items, first) + rest)
    decreases items, 0
  {
    hide Calm, TreeText;
    match items
    case NoItems => assert "" + rest == rest;
    case AnItem(value, tail) =>
      ItemsCalm(signedChar, tail, false, rest);
      var behind := ItemTexts(signedChar, tail, false) + rest;
      TreeCalm(signedChar, value, false, behind);
      CalmRun(Separator(first), TreeText(signedChar, value) + behind);
      assert ItemTexts(signedChar, items, first) + rest == Separator(first) + (TreeText(signedChar, value) + behind);
  }

  lemma {:induction false} AfterCalm(signedChar: bool, t: Tree, member: bool, rest: string)
    requires Fair(t, member) && !Printable(t, member) && Calm(rest)
    ensures Calm(After(signedChar, t) + rest)
    decreases t, 1
  {
    hide Calm, FieldsAfter, ItemsAfter;
    match t
    case Chars(_) => assert [] + rest == rest;
    case Object(fields) =>
      CalmRun(" }", rest);
      FieldsAfterCalm(signedChar, fields, " }" + rest);
      assert FieldsAfter(signedChar, fields) + (" }" + rest) == After(signedChar, t) + rest;
    case Array(items) =>
      CalmRun(" ]", rest);
      ItemsAfterCalm(signedChar, items, " ]" + rest);
      assert ItemsAfter(signedChar, items) + (" ]" + rest) == After(signedChar, t) + rest;
  }

  lemma {:induction false} FieldsAfterCalm(signedChar: bool, fields: Fields, rest: string)
    requires FieldsFair(fields) && !FieldsPrintable(fields) && Calm(rest)
    ensures Calm(FieldsAfter(signedChar, fields) + rest)
    decreases fields, 0
  {
    hide Calm, After, TreeText, FieldsText;
    var value := TreeText(signedChar, fields.value);
    var tail := FieldsText(signedChar, fields.fields, false);
    FieldsCalm(signedChar, fields.fields, false, rest);
    if !Unquoted(fields.key) {
      TreeCalm(signedChar, fields.value, true, tail + rest);
      CalmRun(":", value + (tail + rest));
      assert ":" + (value + (tail + rest)) == (":" + value + tail) + rest;
    } else if !Printable(fields.value, true) {
      AfterCalm(signedChar, fields.value, true, tail + rest);
      assert After(signedChar, fields.value) + (tail + rest) == (After(signedChar, fields.value) + tail) + rest;
    } else {
      FieldsAfterCalm(signedChar, fields.fields, rest);
    }
  }

  lemma {:induction false} ItemsAfterCalm(signedChar: bool, items: Items, rest: string)
    requires ItemsFair(items) && !ItemsPrintable(items) && Calm(rest)
    ensures Calm(ItemsAfter(signedChar, items) + rest)
    decreases items, 0
  {
    hide Calm, After, ItemTexts;
    if !Printable(items.value, false) {
      var tail := ItemTexts(signedChar, items.items, false);
      ItemsCalm(signedChar, items.items, false, rest);
      AfterCalm(signedChar, items.value, false, tail + rest);
      assert After(signedChar, items.value) + (tail + rest) == (After(signedChar, items.value) + tail) + rest;
    } else {
      ItemsAfterCalm(signedChar, items.items, rest);
    }
  }

  // ---------------------------------------------------------------------------------------------
  // The bracket search reaches the flaw
  // ---------------------------------------------------------------------------------------------

  /** What is printed for a printable tree is a value of the grammar. */
  lemma GoodText(signedChar: bool, t: Tree, member: bool, rest: string)
    requires Printable(t, member)
    ensures TreeText(signedChar, t) + rest == Text(Layout(signedChar, t), rest)
    ensures Loose(Layout(signedChar, t)) && Meaning(Layout(signedChar, t)) == t
    ensures Depth(Layout(signedChar, t)) <= |TreeText(signedChar, t)|
  {
    hide TreeText, Text, Layout, Ok, JsonTree.Plain, Loose, Meaning, Depth;
    LayoutText(signedChar, t, member);
    LayoutMeans(signedChar, t, member);
    OkIsLoose(Layout(signedChar, t));
    TextAppend(Layout(signedChar, t), rest);
    DepthFits(Layout(signedChar, t), []);
  }

  lemma KeyText(key: string, rest: string)
    requires Unquoted(key)
    ensures (Quoted(key) + ":") + rest == StringText(PlainItems(key), [':'] + rest)
    ensures ItemsLoose(PlainItems(key)) && ItemsText(PlainItems(key), []) == key
  {
    KeyMeans(key);
    OkItemsAreLoose(PlainItems(key));
    PlainText(key, ['\"'] + ([':'] + rest));
    PlainText(key, []);
    assert key + [] == key;
  }

  /** The search passes over what is printed before the flaw. */
  lemma {:induction false} SearchUpto(signedChar: bool, kind: Kind, t: Tree, member: bool, z: string, depth: nat)
      returns (inner: nat)
    requires Fair(t, member) && !Printable(t, member) && depth + |Upto(signedChar, t, z)| < UINT64
    ensures SearchEnd(kind, Upto(signedChar, t, z), Nested(depth)) == SearchEnd(kind, z, Nested(inner))
    decreases t, 1
  {
    hide SearchEnd, Nested, FieldsUpto, ItemsUpto;
    match t
    case Chars(_) => inner := depth;
    case Object(fields) =>
      var text := FieldsUpto(signedChar, fields, z);
      SearchOpen(kind, ObjectKind, " " + text, depth);
      SearchSpace(kind, " ", text, Nested(Inner(kind, ObjectKind, depth)));
      inner := SearchFieldsUpto(signedChar, kind, fields, z, Inner(kind, ObjectKind, depth));
    case Array(items) =>
      var text := ItemsUpto(signedChar, items, z);
      SearchOpen(kind, ArrayKind, " " + text, depth);
      SearchSpace(kind, " ", text, Nested(Inner(kind, ArrayKind, depth)));
      inner := SearchItemsUpto(signedChar, kind, items, z, Inner(kind, ArrayKind, depth));
  }

  lemma {:induction false} SearchFieldsUpto(signedChar: bool, kind: Kind, fields: Fields, z: string, depth: nat)
      returns (inner: nat)
    requires FieldsFair(fields) && !FieldsPrintable(fields) && depth + |FieldsUpto(signedChar, fields, z)| < UINT64
    ensures SearchEnd(kind, FieldsUpto(signedChar, fields, z), Nested(depth)) == SearchEnd(kind, z, Nested(inner))
    decreases fields, 0
  {
    hide SearchEnd, Nested, Printable, ValueUpto;
    if !Unquoted(fields.key) {
      inner := depth;
    } else {
      var tail := FieldsUpto(signedChar, fields.fields, z);
      var text := ValueUpto(signedChar, fields.value, true, tail, z);
      SearchKey(kind, fields.key, text, Nested(depth));
      if !Printable(fields.value, true) {
        FlawedValue(signedChar, fields.value, true, tail, z);
        inner := SearchUpto(signedChar, kind, fields.value, true, z, depth);
      } else {
        SearchGood(signedChar, kind, fields.value, true, tail, z, depth);
        inner := SearchFieldsUpto(signedChar, kind, fields.fields, z, depth);
      }
    }
  }

  lemma {:induction false} SearchItemsUpto(signedChar: bool, kind: Kind, items: Items, z: string, depth: nat)
      returns (inner: nat)
    requires ItemsFair(items) && !ItemsPrintable(items) && depth + |ItemsUpto(signedChar, items, z)| < UINT64
    ensures SearchEnd(kind, ItemsUpto(signedChar, items, z), Nested(depth)) == SearchEnd(kind, z, Nested(inner))
    decreases items, 0
  {
    hide SearchEnd, Nested, Printable, ValueUpto;
    var tail := ItemsUpto(signedChar, items.items, z);
    if !Printable(items.value, false) {
      FlawedValue(signedChar, items.value, false, tail, z);
      inner := SearchUpto(signedChar, kind, items.value, false, z, depth);
    } else {
      SearchGood(signedChar, kind, items.value, false, tail, z, depth);
      inner := SearchItemsUpto(signedChar, kind, items.items, z, depth);
    }
  }

  lemma FlawedValue(signedChar: bool, value: Tree, member: bool, tail: string, z: string)
    requires !Printable(value, member)
    ensures ValueUpto(signedChar, value, member, tail, z) == Upto(signedChar, value, z)
  {
  }

  lemma SearchKey(kind: Kind, key: string, rest: string, nested: nat)
    requires Unquoted(key)
    ensures SearchEnd(kind, (Quoted(key) + ":") + rest, nested) == SearchEnd(kind, rest, nested)
  {
    hide SearchEnd, StringText, Quoted;
    KeyText(key, rest);
    SearchString(kind, PlainItems(key), [':'] + rest, nested);
    SearchNeutral(kind, ':', rest, nested);
  }

  lemma SearchGood(signedChar: bool, kind: Kind, value: Tree, member: bool, tail: string, z: string, depth: nat)
    requires Printable(value, member) && depth + |ValueUpto(signedChar, value, member, tail, z)| < UINT64
    ensures SearchEnd(kind, ValueUpto(signedChar, value, member, tail, z), Nested(depth))
         == SearchEnd(kind, tail, Nested(depth))
    ensures |tail| <= |ValueUpto(signedChar, value, member, tail, z)|
  {
    hide SearchEnd, Nested, Printable, TreeText, Text, Layout, Loose, Depth;
    var rest := [','] + (" " + tail);
    GoodText(signedChar, value, member, rest);
    SearchValue(kind, Layout(signedChar, value), rest, depth);
    SearchNeutral(kind, ',', " " + tail, Nested(depth));
    SearchSpace(kind, " ", tail, Nested(depth));
  }

  /** A text that starts with a quote: cut behind its string, it still starts with that string. */
  lemma CutString(t: string, end: string)
    requires Scan(['\"'] + t).token.StringToken? && Suffix(end, Scan(['\"'] + t).rest)
    ensures |end| <= |t| && Scan(['\"'] + t[..|t| - |end|]).token == Scan(['\"'] + t).token
    ensures Suffix(end, t)
  {
    hide Closing, Scan, Suffix;
    ScanQuote(t);
    var n := Closing(t, false);
    var rest := t[n + 1..];
    SuffixTail(end, t, n + 1);
    SuffixLength(end, rest);
    var cut := t[..|t| - |end|];
    ScanQuote(cut);
    ClosingAt(t, false);
    assert t == t[..n] + ['\"'] + rest;
    assert cut == t[..n] + ['\"'] + rest[..|rest| - |end|];
    ClosingPrefix(t[..n], rest, rest[..|rest| - |end|], false);
    assert cut[..n] == t[..n];
  }

  lemma StringOrError(t: string)
    ensures Scan(['\"'] + t).token.StringToken? || Scan(['\"'] + t).token == Error
  {
    hide Closing;
    ScanQuote(t);
  }

  // ---------------------------------------------------------------------------------------------
  // The text up to a flaw, cut behind the flaw
  // ---------------------------------------------------------------------------------------------

  lemma {:induction false} UptoAppend(signedChar: bool, t: Tree, member: bool, z: string, end: string)
    requires Fair(t, member) && !Printable(t, member)
    ensures Upto(signedChar, t, z + end) == Upto(signedChar, t, z) + end
    decreases t, 1
  {
    hide FieldsUpto, ItemsUpto;
    match t
    case Chars(_) =>
    case Object(fields) =>
      FieldsUptoAppend(signedChar, fields, z, end);
      var text := FieldsUpto(signedChar, fields, z);
      assert ['{'] + (" " + (text + end)) == (['{'] + (" " + text)) + end;
    case Array(items) =>
      ItemsUptoAppend(signedChar, items, z, end);
      var text := ItemsUpto(signedChar, items, z);
      assert ['['] + (" " + (text + end)) == (['['] + (" " + text)) + end;
  }

  lemma {:induction false} FieldsUptoAppend(signedChar: bool, fields: Fields, z: string, end: string)
    requires FieldsFair(fields) && !FieldsPrintable(fields)
    ensures FieldsUpto(signedChar, fields, z + end) == FieldsUpto(signedChar, fields, z) + end
    decreases fields, 0
  {
    hide TreeText, Quoted, Upto;
    if Unquoted(fields.key) {
      var key := Quoted(fields.key) + ":";
      if !Printable(fields.value, true) {
        UptoAppend(signedChar, fields.value, true, z, end);
        assert key + (Upto(signedChar, fields.value, z) + end) == (key + Upto(signedChar, fields.value, z)) + end;
      } else {
        FieldsUptoAppend(signedChar, fields.fields, z, end);
        var value, tail := TreeText(signedChar, fields.value), FieldsUpto(signedChar, fields.fields, z);
        assert key + (value + ([','] + (" " + (tail + end)))) == (key + (value + ([','] + (" " + tail)))) + end;
      }
    }
  }

  lemma {:induction false} ItemsUptoAppend(signedChar: bool, items: Items, z: string, end: string)
    requires ItemsFair(items) && !ItemsPrintable(items)
    ensures ItemsUpto(signedChar, items, z + end) == ItemsUpto(signedChar, items, z) + end
    decreases items, 0
  {
    hide TreeText, Upto;
    if !Printable(items.value, false) {
      UptoAppend(signedChar, items.value, false, z, end);
    } else {
      ItemsUptoAppend(signedChar, items.items, z, end);
      var value, tail := TreeText(signedChar, items.value), ItemsUpto(signedChar, items.items, z);
      assert value + ([','] + (" " + (tail + end))) == (value + ([','] + (" " + tail))) + end;
    }
  }

  // ---------------------------------------------------------------------------------------------
  // A tree with a flaw is not read back
  // ---------------------------------------------------------------------------------------------

  /** The string that a text starts with, if it is one, is read as something else. */
  predicate Spoils(t: string, contents: string) {
    var token := Scan(['\"'] + t).token;
    token.StringToken? ==> Decode(token.raw) != contents
  }

  lemma {:induction false} NotRead(signedChar: bool, t: Tree, member: bool, z: string)
    requires Fair(t, member) && !Printable(t, member) && (t.Object? || t.Array?)
    requires Spoils(z, FlawOf(signedChar, t).contents) && |Upto(signedChar, t, ['\"'] + z)| < UINT64
    ensures TextTree(TreeKind(t), Upto(signedChar, t, ['\"'] + z)) != Some(t)
    decreases t, 1
  {
    hide Scan, List, Decode, Spoils, FieldsUpto, ItemsUpto, FieldsTree, ItemsTree, FieldsFlaw, ItemsFlaw;
    var text := Upto(signedChar, t, ['\"'] + z);
    var kind := TreeKind(t);
    assert Bounded(ListText(kind, text), |text|);
    match t
    case Object(fields) =>
      ScanPunctuation('{', " " + FieldsUpto(signedChar, fields, ['\"'] + z));
      FieldsNotRead(signedChar, fields, ReadKeyOrEnd, [], z, |text|);
    case Array(items) =>
      ScanPunctuation('[', " " + ItemsUpto(signedChar, items, ['\"'] + z));
      ItemsNotRead(signedChar, items, ReadValueOrEnd, z, |text|);
  }

  /** A value with a flaw is not found, or found as something else. */
  lemma {:induction false} ValueNotRead(signedChar: bool, t: Tree, member: bool, z: string)
    requires Fair(t, member) && !Printable(t, member)
    requires Spoils(z, FlawOf(signedChar, t).contents) && |Upto(signedChar, t, ['\"'] + z)| < UINT64
    ensures var next := Scan(Upto(signedChar, t, ['\"'] + z));
            var p := ParseValue(next.token, next.rest);
            && !next.token.RightBracket?
            && (p.Failed? || (p.Found? && ValueTree(p.value) != Some(t)))
    decreases t, 3
  {
    hide Scan, Decode, Upto, SearchEnd, TextTree;
    var text := Upto(signedChar, t, ['\"'] + z);
    if t.Chars? {
      CharsUpto(signedChar, t, ['\"'] + z);
      StringOrError(z);
    } else {
      var kind := TreeKind(t);
      var inner := UptoOpens(signedChar, t, member, ['\"'] + z);
      ScanPunctuation(Bracket(kind), inner);
      NestedNotRead(signedChar, t, member, z, inner);
    }
  }

  lemma CharsUpto(signedChar: bool, t: Tree, z: string)
    requires t.Chars?
    ensures Upto(signedChar, t, z) == z
  {
  }

  lemma UptoOpens(signedChar: bool, t: Tree, member: bool, z: string) returns (inner: string)
    requires Fair(t, member) && !Printable(t, member) && !t.Chars?
    ensures (t.Object? || t.Array?) && Upto(signedChar, t, z) == [Bracket(TreeKind(t))] + inner
  {
    inner := Upto(signedChar, t, z)[1..];
  }

  lemma {:induction false} NestedNotRead(signedChar: bool, t: Tree, member: bool, z: string, inner: string)
    requires Fair(t, member) && !Printable(t, member) && (t.Object? || t.Array?)
    requires Spoils(z, FlawOf(signedChar, t).contents) && |Upto(signedChar, t, ['\"'] + z)| < UINT64
    requires Upto(signedChar, t, ['\"'] + z) == [Bracket(TreeKind(t))] + inner
    ensures var c := ConvertNested(TreeKind(t), inner); c.value.None? || ValueTree(c.value.value) != Some(t)
    decreases t, 2
  {
    hide Scan, Decode, Upto, SearchEnd, TextTree, Suffix;
    var kind := TreeKind(t);
    var depth := SearchInner(signedChar, t, member, ['\"'] + z, inner);
    var next := Scan(['\"'] + z);
    StringOrError(z);
    if next.token == Error {
      SearchError(kind, ['\"'] + z, Nested(depth));
    } else {
      SearchToken(kind, ['\"'] + z, Nested(depth));
      SearchSuffix(kind, next.rest, Nested(depth));
      var found := SearchEnd(kind, inner, 0);
      if found.Some? {
        var end := found.value;
        CutString(z, end);
        var cut := z[..|z| - |end|];
        SuffixSplits(end, z);
        assert (['\"'] + cut) + end == ['\"'] + z;
        UptoAppend(signedChar, t, member, ['\"'] + cut, end);
        Peel(Bracket(kind), inner, Upto(signedChar, t, ['\"'] + cut), end);
        NotRead(signedChar, t, member, cut);
      }
    }
  }

  lemma SearchInner(signedChar: bool, t: Tree, member: bool, z: string, inner: string) returns (depth: nat)
    requires Fair(t, member) && !Printable(t, member) && (t.Object? || t.Array?)
    requires |Upto(signedChar, t, z)| < UINT64 && Upto(signedChar, t, z) == [Bracket(TreeKind(t))] + inner
    ensures SearchEnd(TreeKind(t), inner, 0) == SearchEnd(TreeKind(t), z, Nested(depth))
  {
    hide SearchEnd, FieldsUpto, ItemsUpto;
    assert inner == Upto(signedChar, t, z)[1..] && Nested(0) == 0;
    match t
    case Object(fields) =>
      SearchSpace(ObjectKind, " ", FieldsUpto(signedChar, fields, z), 0);
      depth := SearchFieldsUpto(signedChar, ObjectKind, fields, z, 0);
    case Array(items) =>
      SearchSpace(ArrayKind, " ", ItemsUpto(signedChar, items, z), 0);
      depth := SearchItemsUpto(signedChar, ArrayKind, items, z, 0);
  }

  /** Once a key is read, the next entry has it, or there is an error. */
  lemma KeyStays(key: string, s: string)
    ensures var listing := List(ObjectKind, ReadColon, key, s);
            if listing.entries == [] then listing.error else listing.entries[0].key == key
  {
    hide Scan, ParseValue, List;
    ListNext(ObjectKind, ReadColon, key, s);
    var colon := ParseNext(ObjectKind, ReadColon, key, s);
    if colon.Failed? {
      ListFailed(ObjectKind, ReadColon, key, s);
    } else {
      ListNext(ObjectKind, ReadValue, key, colon.rest);
      ValueProgress(Scan(colon.rest).token, Scan(colon.rest).rest);
      if ParseNext(ObjectKind, ReadValue, key, colon.rest).Failed? {
        ListFailed(ObjectKind, ReadValue, key, colon.rest);
      }
    }
  }

  lemma ValueProgress(token: Token, rest: string)
    ensures ParseValue(token, rest).Failed? || ParseValue(token, rest).Found?
  {
  }

  lemma FieldsDiffer(listing: Listing, bound: nat, fields: Fields)
    requires Bounded(listing, bound) && fields.Field?
    requires if listing.entries == [] then listing.error else
               || Decode(listing.entries[0].key) != fields.key
               || ValueTree(listing.entries[0].value) != Some(fields.value)
               || FieldsTree(Behind(listing), bound) != Some(fields.fields)
    ensures FieldsTree(listing, bound) != Some(fields)
  {
    hide ValueTree, Decode;
  }

  lemma ItemsDiffer(listing: Listing, bound: nat, items: Items)
    requires Bounded(listing, bound) && items.AnItem?
    requires if listing.entries == [] then listing.error else
               || ValueTree(listing.entries[0].value) != Some(items.value)
               || ItemsTree(Behind(listing), bound) != Some(items.items)
    ensures ItemsTree(listing, bound) != Some(items)
  {
    hide ValueTree;
  }

  /** Iterating from a value with a flaw on. */
  lemma {:induction false} ListFlawed(signedChar: bool, kind: Kind, state: State, key: string, t: Tree, member: bool,
      space: string, z: string)
    requires Fair(t, member) && !Printable(t, member) && Space(space)
    requires Spoils(z, FlawOf(signedChar, t).contents) && |Upto(signedChar, t, ['\"'] + z)| < UINT64
    requires state == ReadValue || (kind.ArrayKind? && state == ReadValueOrEnd)
    ensures var listing := List(kind, state, key, space + Upto(signedChar, t, ['\"'] + z));
            if listing.entries == [] then listing.error else ValueTree(listing.entries[0].value) != Some(t)
    decreases t, 4
  {
    hide Scan, List, Upto, Spoils, ParseValue, ValueTree, Printable, Addable;
    var text := Upto(signedChar, t, ['\"'] + z);
    ValueNotRead(signedChar, t, member, z);
    ScanSpace(space, text);
    ListNext(kind, state, key, space + text);
    if ParseNext(kind, state, key, space + text).Failed? { ListFailed(kind, state, key, space + text); }
  }

  /** Iterating from a printable value on, when another one follows. */
  lemma ListGood(signedChar: bool, kind: Kind, state: State, key: string, value: Tree, member: bool, space: string,
      tail: string, z: string)
    requires Printable(value, member) && Space(space) && |ValueUpto(signedChar, value, member, tail, z)| < UINT64
    requires state == ReadValue || (kind.ArrayKind? && state == ReadValueOrEnd)
    ensures List(kind, state, key, space + ValueUpto(signedChar, value, member, tail, z))
         == Prepend(Entry(key, ValueOf(Layout(signedChar, value))),
                    List(kind, if kind.ObjectKind? then ReadKey else ReadValue, key, " " + tail))
  {
    hide List, TreeText, Text, Layout, Loose, Depth, Printable, ValueOf;
    var rest := [','] + (" " + tail);
    GoodText(signedChar, value, member, rest);
    ListValue(kind, state, key, space, Layout(signedChar, value), rest);
    ListComma(kind, key, "", " " + tail);
    assert "" + rest == rest;
  }

  lemma ListGoodKey(state: State, key: string, next: string, rest: string)
    requires Unquoted(next) && (state == ReadKeyOrEnd || state == ReadKey)
    ensures List(ObjectKind, state, key, " " + ((Quoted(next) + ":") + rest)) == List(ObjectKind, ReadValue, next, rest)
  {
    hide List, Quoted, StringText, ItemsText, PlainItems;
    KeyText(next, rest);
    var m := Member(" ", PlainItems(next), "", "", Null, "");
    assert "" + ([':'] + rest) == [':'] + rest;
    ListKey(state, key, m, rest);
  }

  lemma ListFlawedKey(state: State, key: string, z: string)
    requires state == ReadKeyOrEnd || state == ReadKey
    ensures var token := Scan(['\"'] + z).token;
            var listing := List(ObjectKind, state, key, " " + (['\"'] + z));
            if listing.entries == [] then listing.error else token.StringToken? && listing.entries[0].key == token.raw
  {
    hide Scan, List;
    ScanSpace(" ", ['\"'] + z);
    StringOrError(z);
    ListNext(ObjectKind, state, key, " " + (['\"'] + z));
    var next := Scan(['\"'] + z);
    if next.token == Error {
      ListFailed(ObjectKind, state, key, " " + (['\"'] + z));
    } else {
      KeyStays(next.token.raw, next.rest);
    }
  }

  lemma {:induction false} FieldsNotRead(signedChar: bool, fields: Fields, state: State, key: string, z: string,
      bound: nat)
    requires FieldsFair(fields) && !FieldsPrintable(fields) && (state == ReadKeyOrEnd || state == ReadKey)
    requires Spoils(z, FieldsFlaw(signedChar, fields).contents) && |FieldsUpto(signedChar, fields, ['\"'] + z)| < UINT64
    requires Bounded(List(ObjectKind, state, key, " " + FieldsUpto(signedChar, fields, ['\"'] + z)), bound)
    ensures FieldsTree(List(ObjectKind, state, key, " " + FieldsUpto(signedChar, fields, ['\"'] + z)), bound)
         != Some(fields)
    decreases fields, 0
  {
    hide Scan, List, Decode, FieldsTree, ValueTree, Upto, TreeText, Quoted, Printable, Addable, FlawOf, ValueOf, Layout;
    hide ValueUpto;
    var listing := List(ObjectKind, state, key, " " + FieldsUpto(signedChar, fields, ['\"'] + z));
    if !Unquoted(fields.key) {
      ListFlawedKey(state, key, z);
    } else {
      var tail := FieldsUpto(signedChar, fields.fields, ['\"'] + z);
      var text := ValueUpto(signedChar, fields.value, true, tail, ['\"'] + z);
      ListGoodKey(state, key, fields.key, text);
      assert "" + text == text;
      if !Printable(fields.value, true) {
        FlawedValue(signedChar, fields.value, true, tail, ['\"'] + z);
        ListFlawed(signedChar, ObjectKind, ReadValue, fields.key, fields.value, true, "", z);
      } else {
        ListGood(signedChar, ObjectKind, ReadValue, fields.key, fields.value, true, "", tail, ['\"'] + z);
        TailShorter(signedChar, fields.value, true, tail, ['\"'] + z);
        var behind := List(ObjectKind, ReadKey, fields.key, " " + tail);
        assert Behind(listing) == behind;
        BoundedBehind(listing, bound);
        FieldsNotRead(signedChar, fields.fields, ReadKey, fields.key, z, bound);
      }
    }
    FieldsDiffer(listing, bound, fields);
  }

  lemma TailShorter(signedChar: bool, value: Tree, member: bool, tail: string, z: string)
    requires Printable(value, member)
    ensures |tail| <= |ValueUpto(signedChar, value, member, tail, z)|
  {
  }

  lemma BoundedBehind(listing: Listing, bound: nat)
    requires Bounded(listing, bound) && listing.entries != []
    ensures Bounded(Behind(listing), bound)
  {
  }

  lemma {:induction false} ItemsNotRead(signedChar: bool, items: Items, state: State, z: string, bound: nat)
    requires ItemsFair(items) && !ItemsPrintable(items) && (state == ReadValueOrEnd || state == ReadValue)
    requires Spoils(z, ItemsFlaw(signedChar, items).contents) && |ItemsUpto(signedChar, items, ['\"'] + z)| < UINT64
    requires Bounded(List(ArrayKind, state, [], " " + ItemsUpto(signedChar, items, ['\"'] + z)), bound)
    ensures ItemsTree(List(ArrayKind, state, [], " " + ItemsUpto(signedChar, items, ['\"'] + z)), bound) != Some(items)
    decreases items, 0
  {
    hide Scan, List, ItemsTree, ValueTree, Upto, TreeText, Printable, Addable, FlawOf, ValueOf, Layout, ValueUpto;
    hide Spoils;
    var listing := List(ArrayKind, state, [], " " + ItemsUpto(signedChar, items, ['\"'] + z));
    var tail := ItemsUpto(signedChar, items.items, ['\"'] + z);
    if !Printable(items.value, false) {
      FlawedValue(signedChar, items.value, false, tail, ['\"'] + z);
      ListFlawed(signedChar, ArrayKind, state, [], items.value, false, " ", z);
    } else {
      ListGood(signedChar, ArrayKind, state, [], items.value, false, " ", tail, ['\"'] + z);
      TailShorter(signedChar, items.value, false, tail, ['\"'] + z);
      assert Behind(listing) == List(ArrayKind, ReadValue, [], " " + tail);
      BoundedBehind(listing, bound);
      ItemsNotRead(signedChar, items.items, ReadValue, z, bound);
    }
    ItemsDiffer(listing, bound, items);
  }

  // ---------------------------------------------------------------------------------------------
  // Fractions that are read are below one
  // ---------------------------------------------------------------------------------------------

  predicate SmallValue(v: Value<string>) { v.FloatValue? ==> v.nano < BILLION }

  lemma NumberSmall(s: string)
    ensures var token := ScanNumber(s).token; token.FloatToken? ==> token.nano < BILLION
  {
    hide Span, DigitsValue, Nano;
    var body := if s != [] && s[0] == '-' then s[1..] else s;
    var rest := body[Span(IsDigit, body)..];
    if rest != [] {
      SpanHolds(IsDigit, rest[1..]);
      NanoBound(rest[1..][..Span(IsDigit, rest[1..])]);
    }
  }

  lemma TokenSmall(s: string)
    ensures var token := Scan(s).token; token.FloatToken? ==> token.nano < BILLION
  {
    hide Span, Closing, ScanNumber;
    NumberSmall(s[Span(IsSpace, s)..]);
  }

  lemma {:induction false} ListSmall(kind: Kind, state: State, key: string, s: string)
    requires state != AtEnd
    ensures forall e :: e in List(kind, state, key, s).entries ==> SmallValue(e.value)
    decreases |s|
  {
    hide Scan, SearchEnd;
    TokenSmall(s);
    var p := ParseNext(kind, state, key, s);
    match p
    case Failed =>
    case Finished =>
    case Next(state', key', rest) => ListSmall(kind, state', key', rest);
    case Found(_, rest) => ListSmall(kind, ReadCommaOrEnd, key, rest);
  }

  lemma {:induction false} ValueTreeSmall(v: Value<string>)
    requires SmallValue(v)
    ensures ValueTree(v).Some? ==> Small(ValueTree(v).value)
    decreases Extent(v), 3, 0
  {
    hide TextTree, Decode;
    match v
    case NestedValue(kind, text) => if text != [] { TextTreeSmall(kind, text); }
    case _ =>
  }

  /** Whatever the iterators read has no other fractions. */
  lemma {:induction false} TextTreeSmall(kind: Kind, text: string)
    ensures TextTree(kind, text).Some? ==> Small(TextTree(kind, text).value)
    decreases |text|, 2, 0
  {
    hide List, FieldsTree, ItemsTree;
    ListTextIsList(kind, text);
    ListSmall(kind, ReadStart, [], text);
    var listing := ListText(kind, text);
    assert Bounded(listing, |text|);
    FieldsTreeSmall(listing, |text|);
    ItemsTreeSmall(listing, |text|);
  }

  lemma {:induction false} FieldsTreeSmall(listing: Listing, bound: nat)
    requires Bounded(listing, bound) && forall e :: e in listing.entries ==> SmallValue(e.value)
    ensures FieldsTree(listing, bound).Some? ==> FieldsSmall(FieldsTree(listing, bound).value)
    decreases bound, 1, |listing.entries|
  {
    hide ValueTree, Decode, Small;
    if listing.entries != [] {
      assert listing.entries[0] in listing.entries;
      ValueTreeSmall(listing.entries[0].value);
      FieldsTreeSmall(Behind(listing), bound);
    }
  }

  lemma {:induction false} ItemsTreeSmall(listing: Listing, bound: nat)
    requires Bounded(listing, bound) && forall e :: e in listing.entries ==> SmallValue(e.value)
    ensures ItemsTree(listing, bound).Some? ==> ItemsSmall(ItemsTree(listing, bound).value)
    decreases bound, 1, |listing.entries|
  {
    hide ValueTree, Small;
    if listing.entries != [] {
      assert listing.entries[0] in listing.entries;
      ValueTreeSmall(listing.entries[0].value);
      ItemsTreeSmall(Behind(listing), bound);
    }
  }

  // ---------------------------------------------------------------------------------------------
  // Main result
  // ---------------------------------------------------------------------------------------------

  /** Whatever object or array the formatters print, the iterators read it back as the same tree if and
      only if it is printable: strings have no backslash, keys neither backslash nor quote, and
      fractions are below one. */
  lemma RoundTripExactly(signedChar: bool, t: Tree)
    requires Addable(t, false) && Bytewise(t) && (t.Object? || t.Array?) && |TreeText(signedChar, t)| < UINT64
    ensures TextTree(TreeKind(t), TreeText(signedChar, t)) == Some(t) <==> Printable(t, false)
  {
    hide TreeText, TextTree, Printable, Addable, Bytewise, Small, Scan, Decode, Placed, Calm, Left, Read, FlawOf;
    hide Faithful, After, Upto;
    var text := TreeText(signedChar, t);
    TextTreeSmall(TreeKind(t), text);
    if Printable(t, false) {
      RoundTrip(signedChar, t);
    } else if Small(t) {
      var flaw := FlawOf(signedChar, t);
      var after := After(signedChar, t) + [];
      FlawIsOne(signedChar, t, false);
      Splits(signedChar, t, false, []);
      assert text + [] == text;
      NothingIsCalm();
      AfterCalm(signedChar, t, false, []);
      FlawSpoils(flaw, after);
      NotRead(signedChar, t, false, Placed(flaw.p, flaw.contents, after));
    }
  }

  lemma NothingIsCalm()
    ensures Calm([])
  {
  }

  lemma FlawSpoils(flaw: Flaw, after: string)
    requires Characters(flaw.p, flaw.contents) && !Faithful(flaw.p, flaw.contents) && Calm(after)
    ensures Spoils(Placed(flaw.p, flaw.contents, after), flaw.contents)
  {
    hide Scan, Decode, Placed, Calm, Left, Read, Faithful;
    ScanPlaced(flaw.p, flaw.contents, after);
    if Scan(['\"'] + Placed(flaw.p, flaw.contents, after)).token.StringToken? {
      NotReadBack(flaw.p, flaw.contents, after);
    }
  }

  /** Keys are printed as they are, so a quote in one is taken for its end. */
  lemma QuoteInKey(signedChar: bool, t: Tree)
    requires t == Object(Field("\"", Truth(true), NoFields))
    ensures TextTree(ObjectKind, TreeText(signedChar, t)) != Some(t)
  {
    hide TextTree;
    var none := FieldsText(signedChar, NoFields, false);
    var fields := FieldsText(signedChar, t.fields, true);
    assert none == "" && fields == "" + (Quoted("\"") + ":") + "true" + none;
    assert TreeText(signedChar, t) == "{ " + fields + " }";
    assert "\""[0] == '\"';
    RoundTripExactly(signedChar, t);
  }

  /** Prints a tree into a string of `max` characters and reads it back. */
  method PrintThenRead(signedChar: bool, t: Tree, max: nat) returns (failed: bool, tree: Option<Tree>)
    requires Addable(t, false) && Bytewise(t) && (t.Object? || t.Array?) && max < UINT64
    ensures failed == (|TreeText(signedChar, t)| > max)
    ensures !failed ==> (tree == Some(t) <==> Printable(t, false))
  {
    hide TextTree, Printable, Addable, Bytewise, TreeText;
    var stream := new TextOutputStream(max);
    Print(stream, signedChar, t);
    failed := stream.failed;
    if failed {
      return true, None;
    }
    var text := stream.text;
    var storage := new char[|text|](i requires 0 <= i < |text| => text[i]);
    assert storage[0..|text|] == text;
    RoundTripExactly(signedChar, t);
    tree := CollectText(storage, 0, |text|, TreeKind(t));
  }
}
