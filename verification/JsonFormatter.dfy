/** The object and array formatters of infra/syntax/JsonFormatter.cpp, and that the iterators of
    infra/syntax/Json.cpp undo them. */
module JsonFormatter {
  import opened Common
  import opened JsonSyntax
  import opened JsonTokenizer
  import opened JsonTokens
  import opened JsonReader
  import opened JsonTree
  import opened TextStream
  import opened JsonEscape

  const MILLION := 1_000_000
  const INT64_LIMIT := 0x8000_0000_0000_0000

  // ---------------------------------------------------------------------------------------------
  // What the formatters print for a tree
  // ---------------------------------------------------------------------------------------------

  function Sign(negative: bool): string { if negative then "-" else "" }
  function Magnitude(n: int): nat { if n < 0 then 0 - n else n }
  function NumberText(value: nat, negative: bool): string { Sign(negative) + Padded(10, value, 0) }

  /** Three digits if that is exact, or nine. */
  function FloatDigits(nano: nat): string {
    if nano % MILLION == 0 then Padded(10, nano / MILLION, 3) else Padded(10, nano, 9)
  }

  function FloatText(value: nat, nano: nat, negative: bool): string {
    NumberText(value, negative) + "." + FloatDigits(nano)
  }

  function Quoted(s: string): string { "\"" + s + "\"" }
  function Separator(first: bool): string { if first then "" else ", " }

  function TreeText(signedChar: bool, t: Tree): string {
    match t
    case Nothing => ""
    case Truth(flag) => if flag then "true" else "false"
    case Number(n) => NumberText(Magnitude(n), n < 0)
    case Fraction(value, nano, negative) => FloatText(value, nano, negative)
    case Chars(text) => Quoted(EscapedText(signedChar, text))
    case Object(fields) => "{ " + FieldsText(signedChar, fields, true) + " }"
    case Array(items) => "[ " + ItemTexts(signedChar, items, true) + " ]"
  }

  function FieldsText(signedChar: bool, fields: Fields, first: bool): string {
    match fields
    case NoFields => ""
    case Field(key, value, rest) =>
      Separator(first) + (Quoted(key) + ":") + TreeText(signedChar, value) + FieldsText(signedChar, rest, false)
  }

  function ItemTexts(signedChar: bool, items: Items, first: bool): string {
    match items
    case NoItems => ""
    case AnItem(value, rest) => Separator(first) + TreeText(signedChar, value) + ItemTexts(signedChar, rest, false)
  }

  // ---------------------------------------------------------------------------------------------
  // What they can print, and what can be read back
  // ---------------------------------------------------------------------------------------------

  /** What the formatters have an Add for: integers have 64-bit magnitudes, floats are members of
      objects, and there is no null. */
  predicate Addable(t: Tree, member: bool) {
    match t
    case Nothing => false
    case Truth(_) => true
    case Number(n) => Magnitude(n) < UINT64
    case Fraction(value, nano, _) => member && value < UINT64 && nano < UINT32
    case Chars(_) => true
    case Object(fields) => FieldsAddable(fields)
    case Array(items) => ItemsAddable(items)
  }

  predicate FieldsAddable(fields: Fields) {
    fields.Field? ==> Addable(fields.value, true) && FieldsAddable(fields.fields)
  }

  predicate ItemsAddable(items: Items) {
    items.AnItem? ==> Addable(items.value, false) && ItemsAddable(items.items)
  }

  /** What is also read back: strings are bytes without backslashes, fractions are below one. */
  predicate Printable(t: Tree, member: bool) {
    match t
    case Nothing => false
    case Truth(_) => true
    case Number(n) => Magnitude(n) < UINT64
    case Fraction(value, nano, _) => member && value < UINT64 && nano < 1_000_000_000
    case Chars(text) => Bytes(text) && '\\' !in text
    case Object(fields) => FieldsPrintable(fields)
    case Array(items) => ItemsPrintable(items)
  }

  /** Keys are printed as they are. */
  predicate FieldsPrintable(fields: Fields) {
    fields.Field? ==> Unquoted(fields.key) && Printable(fields.value, true) && FieldsPrintable(fields.fields)
  }

  predicate ItemsPrintable(items: Items) {
    items.AnItem? ==> Printable(items.value, false) && ItemsPrintable(items.items)
  }

  // ---------------------------------------------------------------------------------------------
  // The formatters
  // ---------------------------------------------------------------------------------------------

  method OutputFloat(stream: TextOutputStream, value: nat, fractional: nat, negative: bool, width: nat)
    requires stream.Valid() && value < UINT64 && fractional < UINT32
    modifies stream
    ensures stream.Valid()
    ensures stream.wanted == old(stream.wanted) + (NumberText(value, negative) + "." + Padded(10, fractional, width))
  {
    hide Padded, Head;
    if negative {
      stream.Insert("-");
    }
    stream.Output(10, value, false, 0);
    assert stream.wanted == old(stream.wanted) + NumberText(value, negative);
    stream.Insert(".");
    stream.Output(10, fractional, false, width);
  }

  class ObjectFormatter {
    const stream: TextOutputStream
    const signedChar: bool
    var empty: bool

    constructor (stream: TextOutputStream, signedChar: bool)
      requires stream.Valid()
      modifies stream
      ensures this.stream == stream && this.signedChar == signedChar && empty
      ensures stream.Valid() && stream.wanted == old(stream.wanted) + "{ "
    {
      this.stream, this.signedChar, empty := stream, signedChar, true;
      new;
      stream.Insert("{ ");
    }

    /** The destructor. */
    method Close()
      requires stream.Valid()
      modifies stream
      ensures stream.Valid() && stream.wanted == old(stream.wanted) + " }"
    {
      stream.Insert(" }");
    }

    /** InsertSeparation and the key. */
    method InsertKey(key: string)
      requires stream.Valid()
      modifies this, stream
      ensures stream.Valid() && !empty
      ensures stream.wanted == old(stream.wanted) + Separator(old(empty)) + (Quoted(key) + ":")
    {
      if !empty {
        stream.Insert(", ");
      }
      empty := false;
      stream.Insert("\"");
      stream.Insert(key);
      stream.Insert("\":");
    }

    method AddBoolean(key: string, tag: bool)
      requires stream.Valid()
      modifies this, stream
      ensures stream.Valid() && !empty
      ensures stream.wanted
           == old(stream.wanted) + Separator(old(empty)) + (Quoted(key) + ":") + TreeText(signedChar, Truth(tag))
    {
      InsertKey(key);
      stream.Insert(if tag then "true" else "false");
    }

    /** Add(int64_t): the minimum cannot be negated. */
    method AddInteger(key: string, tag: int)
      requires stream.Valid() && -INT64_LIMIT < tag < INT64_LIMIT
      modifies this, stream
      ensures stream.Valid() && !empty
      ensures stream.wanted
           == old(stream.wanted) + Separator(old(empty)) + (Quoted(key) + ":") + TreeText(signedChar, Number(tag))
    {
      hide Padded;
      InsertKey(key);
      stream.Output(10, Magnitude(tag), tag < 0, 0);
    }

    method AddBiggerInt(key: string, value: nat, negative: bool)
      requires stream.Valid() && value < UINT64
      modifies this, stream
      ensures stream.Valid() && !empty
      ensures stream.wanted
           == old(stream.wanted) + Separator(old(empty)) + (Quoted(key) + ":") + NumberText(value, negative)
    {
      hide Padded;
      InsertKey(key);
      if negative {
        stream.Insert("-");
      }
      stream.Output(10, value, false, 0);
    }

    method AddFractionalFloat(key: string, value: nat, fractional: nat, negative: bool, width: nat)
      requires stream.Valid() && value < UINT64 && fractional < UINT32
      modifies this, stream
      ensures stream.Valid() && !empty
      ensures stream.wanted == old(stream.wanted) + Separator(old(empty)) + (Quoted(key) + ":")
                             + (NumberText(value, negative) + "." + Padded(10, fractional, width))
    {
      hide Padded, Quoted, Separator, Head;
      InsertKey(key);
      OutputFloat(stream, value, fractional, negative, width);
    }

    method AddFloat(key: string, value: nat, nano: nat, negative: bool)
      requires stream.Valid() && value < UINT64 && nano < UINT32
      modifies this, stream
      ensures stream.Valid() && !empty
      ensures stream.wanted
           == old(stream.wanted) + Separator(old(empty)) + (Quoted(key) + ":") + FloatText(value, nano, negative)
    {
      hide Padded, Quoted, Separator, NumberText, Head;
      if nano % MILLION == 0 {
        AddFractionalFloat(key, value, nano / MILLION, negative, 3);
      } else {
        AddFractionalFloat(key, value, nano, negative, 9);
      }
    }

    method AddString(key: string, tag: string)
      requires stream.Valid()
      modifies this, stream
      ensures stream.Valid() && !empty
      ensures stream.wanted
           == old(stream.wanted) + Separator(old(empty)) + (Quoted(key) + ":") + TreeText(signedChar, Chars(tag))
    {
      hide EscapedText, Separator;
      InsertKey(key);
      ghost var start := stream.wanted;
      stream.Insert("\"");
      InsertEscaped(stream, signedChar, tag);
      stream.Insert("\"");
      assert stream.wanted == start + Quoted(EscapedText(signedChar, tag));
    }

    method SubObject(key: string) returns (sub: ObjectFormatter)
      requires stream.Valid()
      modifies this, stream
      ensures stream.Valid() && !empty && fresh(sub) && sub.stream == stream && sub.signedChar == signedChar
      ensures sub.empty
      ensures stream.wanted == old(stream.wanted) + Separator(old(empty)) + (Quoted(key) + ":") + "{ "
    {
      InsertKey(key);
      sub := new ObjectFormatter(stream, signedChar);
    }

    method SubArray(key: string) returns (sub: ArrayFormatter)
      requires stream.Valid()
      modifies this, stream
      ensures stream.Valid() && !empty && fresh(sub) && sub.stream == stream && sub.signedChar == signedChar
      ensures sub.empty
      ensures stream.wanted == old(stream.wanted) + Separator(old(empty)) + (Quoted(key) + ":") + "[ "
    {
      InsertKey(key);
      sub := new ArrayFormatter(stream, signedChar);
    }
  }

  class ArrayFormatter {
    const stream: TextOutputStream
    const signedChar: bool
    var empty: bool

    constructor (stream: TextOutputStream, signedChar: bool)
      requires stream.Valid()
      modifies stream
      ensures this.stream == stream && this.signedChar == signedChar && empty
      ensures stream.Valid() && stream.wanted == old(stream.wanted) + "[ "
    {
      this.stream, this.signedChar, empty := stream, signedChar, true;
      new;
      stream.Insert("[ ");
    }

    /** The destructor. */
    method Close()
      requires stream.Valid()
      modifies stream
      ensures stream.Valid() && stream.wanted == old(stream.wanted) + " ]"
    {
      stream.Insert(" ]");
    }

    method InsertSeparation()
      requires stream.Valid()
      modifies this, stream
      ensures stream.Valid() && !empty && stream.wanted == old(stream.wanted) + Separator(old(empty))
    {
      if !empty {
        stream.Insert(", ");
      }
      empty := false;
    }

    method AddBoolean(tag: bool)
      requires stream.Valid()
      modifies this, stream
      ensures stream.Valid() && !empty
      ensures stream.wanted == old(stream.wanted) + Separator(old(empty)) + TreeText(signedChar, Truth(tag))
    {
      InsertSeparation();
      stream.Insert(if tag then "true" else "false");
    }

    method AddInteger(tag: int)
      requires stream.Valid() && -INT64_LIMIT < tag < INT64_LIMIT
      modifies this, stream
      ensures stream.Valid() && !empty
      ensures stream.wanted == old(stream.wanted) + Separator(old(empty)) + TreeText(signedChar, Number(tag))
    {
      hide Padded;
      InsertSeparation();
      stream.Output(10, Magnitude(tag), tag < 0, 0);
    }

    method AddBiggerInt(value: nat, negative: bool)
      requires stream.Valid() && value < UINT64
      modifies this, stream
      ensures stream.Valid() && !empty
      ensures stream.wanted == old(stream.wanted) + Separator(old(empty)) + NumberText(value, negative)
    {
      hide Padded;
      InsertSeparation();
      if negative {
        stream.Insert("-");
      }
      stream.Output(10, value, false, 0);
    }

    method AddString(tag: string)
      requires stream.Valid()
      modifies this, stream
      ensures stream.Valid() && !empty
      ensures stream.wanted == old(stream.wanted) + Separator(old(empty)) + TreeText(signedChar, Chars(tag))
    {
      hide EscapedText, Separator;
      InsertSeparation();
      ghost var start := stream.wanted;
      stream.Insert("\"");
      InsertEscaped(stream, signedChar, tag);
      stream.Insert("\"");
      assert stream.wanted == start + Quoted(EscapedText(signedChar, tag));
    }

    method SubObject() returns (sub: ObjectFormatter)
      requires stream.Valid()
      modifies this, stream
      ensures stream.Valid() && !empty && fresh(sub) && sub.stream == stream && sub.signedChar == signedChar
      ensures sub.empty
      ensures stream.wanted == old(stream.wanted) + Separator(old(empty)) + "{ "
    {
      InsertSeparation();
      sub := new ObjectFormatter(stream, signedChar);
    }

    method SubArray() returns (sub: ArrayFormatter)
      requires stream.Valid()
      modifies this, stream
      ensures stream.Valid() && !empty && fresh(sub) && sub.stream == stream && sub.signedChar == signedChar
      ensures sub.empty
      ensures stream.wanted == old(stream.wanted) + Separator(old(empty)) + "[ "
    {
      InsertSeparation();
      sub := new ArrayFormatter(stream, signedChar);
    }
  }

  // ---------------------------------------------------------------------------------------------
  // Printing a tree
  // ---------------------------------------------------------------------------------------------

  /** Adds every field, opening a nested formatter for each nested object or array. */
  method PrintFields(formatter: ObjectFormatter, fields: Fields)
    requires formatter.stream.Valid() && FieldsAddable(fields)
    modifies formatter, formatter.stream
    ensures formatter.stream.Valid()
    ensures formatter.stream.wanted
         == old(formatter.stream.wanted) + FieldsText(formatter.signedChar, fields, old(formatter.empty))
    decreases fields, 0
  {
    hide Padded, Quoted, Separator, Head, TreeText;
    if fields.Field? {
      PrintField(formatter, fields.key, fields.value);
      PrintFields(formatter, fields.fields);
    }
  }

  method PrintField(formatter: ObjectFormatter, key: string, value: Tree)
    requires formatter.stream.Valid() && Addable(value, true)
    modifies formatter, formatter.stream
    ensures formatter.stream.Valid() && !formatter.empty
    ensures formatter.stream.wanted
         == old(formatter.stream.wanted) + Separator(old(formatter.empty)) + (Quoted(key) + ":")
          + TreeText(formatter.signedChar, value)
    decreases value, 0
  {
    hide Padded, Quoted, Separator, Head, FloatText, NumberText, FieldsText, ItemTexts;
    match value
    case Truth(flag) => formatter.AddBoolean(key, flag);
    case Number(n) =>
      if -INT64_LIMIT < n < INT64_LIMIT {
        formatter.AddInteger(key, n);
      } else {
        formatter.AddBiggerInt(key, Magnitude(n), n < 0);
      }
    case Fraction(v, nano, negative) => formatter.AddFloat(key, v, nano, negative);
    case Chars(text) => formatter.AddString(key, text);
    case Object(fields) => PrintObjectField(formatter, key, fields);
    case Array(items) => PrintArrayField(formatter, key, items);
  }

  method PrintObjectField(formatter: ObjectFormatter, key: string, fields: Fields)
    requires formatter.stream.Valid() && FieldsAddable(fields)
    modifies formatter, formatter.stream
    ensures formatter.stream.Valid() && !formatter.empty
    ensures formatter.stream.wanted
         == old(formatter.stream.wanted) + Separator(old(formatter.empty)) + (Quoted(key) + ":")
          + ("{ " + FieldsText(formatter.signedChar, fields, true) + " }")
    decreases fields, 1
  {
    hide Quoted, Separator, Head, FieldsText, FieldsAddable;
    var sub := formatter.SubObject(key);
    PrintFields(sub, fields);
    sub.Close();
  }

  method PrintArrayField(formatter: ObjectFormatter, key: string, items: Items)
    requires formatter.stream.Valid() && ItemsAddable(items)
    modifies formatter, formatter.stream
    ensures formatter.stream.Valid() && !formatter.empty
    ensures formatter.stream.wanted
         == old(formatter.stream.wanted) + Separator(old(formatter.empty)) + (Quoted(key) + ":")
          + ("[ " + ItemTexts(formatter.signedChar, items, true) + " ]")
    decreases items, 1
  {
    hide Quoted, Separator, Head, ItemTexts, ItemsAddable;
    var sub := formatter.SubArray(key);
    PrintItems(sub, items);
    sub.Close();
  }

  method PrintItems(formatter: ArrayFormatter, items: Items)
    requires formatter.stream.Valid() && ItemsAddable(items)
    modifies formatter, formatter.stream
    ensures formatter.stream.Valid()
    ensures formatter.stream.wanted
         == old(formatter.stream.wanted) + ItemTexts(formatter.signedChar, items, old(formatter.empty))
    decreases items, 0
  {
    hide Padded, Separator, Head, TreeText;
    if items.AnItem? {
      PrintItem(formatter, items.value);
      PrintItems(formatter, items.items);
    }
  }

  method PrintItem(formatter: ArrayFormatter, value: Tree)
    requires formatter.stream.Valid() && Addable(value, false)
    modifies formatter, formatter.stream
    ensures formatter.stream.Valid() && !formatter.empty
    ensures formatter.stream.wanted
         == old(formatter.stream.wanted) + Separator(old(formatter.empty)) + TreeText(formatter.signedChar, value)
    decreases value, 0
  {
    hide Padded, Separator, Head, NumberText, FieldsText, ItemTexts;
    match value
    case Truth(flag) => formatter.AddBoolean(flag);
    case Number(n) =>
      if -INT64_LIMIT < n < INT64_LIMIT {
        formatter.AddInteger(n);
      } else {
        formatter.AddBiggerInt(Magnitude(n), n < 0);
      }
    case Chars(text) => formatter.AddString(text);
    case Object(fields) => PrintObjectItem(formatter, fields);
    case Array(items) => PrintArrayItem(formatter, items);
  }

  method PrintObjectItem(formatter: ArrayFormatter, fields: Fields)
    requires formatter.stream.Valid() && FieldsAddable(fields)
    modifies formatter, formatter.stream
    ensures formatter.stream.Valid() && !formatter.empty
    ensures formatter.stream.wanted
         == old(formatter.stream.wanted) + Separator(old(formatter.empty))
          + ("{ " + FieldsText(formatter.signedChar, fields, true) + " }")
    decreases fields, 1
  {
    hide Separator, Head, FieldsText, FieldsAddable;
    var sub := formatter.SubObject();
    PrintFields(sub, fields);
    sub.Close();
  }

  method PrintArrayItem(formatter: ArrayFormatter, items: Items)
    requires formatter.stream.Valid() && ItemsAddable(items)
    modifies formatter, formatter.stream
    ensures formatter.stream.Valid() && !formatter.empty
    ensures formatter.stream.wanted
         == old(formatter.stream.wanted) + Separator(old(formatter.empty))
          + ("[ " + ItemTexts(formatter.signedChar, items, true) + " ]")
    decreases items, 1
  {
    hide Separator, Head, ItemTexts, ItemsAddable;
    var sub := formatter.SubArray();
    PrintItems(sub, items);
    sub.Close();
  }

  // ---------------------------------------------------------------------------------------------
  // What is printed is a well-formed text
  // ---------------------------------------------------------------------------------------------

  function PlainItems(key: string): seq<Item> { seq(|key|, i requires 0 <= i < |key| => Item.Plain(key[i])) }

  /** The concrete syntax of what is printed. */
  function Layout(signedChar: bool, t: Tree): Json {
    match t
    case Nothing => Null
    case Truth(flag) => Bool(flag)
    case Number(n) => Num(n < 0, Padded(10, Magnitude(n), 0), None, None)
    case Fraction(value, nano, negative) => Num(negative, Padded(10, value, 0), Some(FloatDigits(nano)), None)
    case Chars(text) => Str(Escaped(signedChar, text))
    case Object(fields) => if fields.NoFields? then EmptyObj("  ") else Obj(FieldsLayout(signedChar, fields))
    case Array(items) => if items.NoItems? then EmptyArr("  ") else Arr(ItemsLayout(signedChar, items))
  }

  function FieldsLayout(signedChar: bool, fields: Fields): Members
    requires fields.Field?
  {
    var key, value := PlainItems(fields.key), Layout(signedChar, fields.value);
    if fields.fields.NoFields? then LastMember(Member(" ", key, "", "", value, " "))
    else MoreMembers(Member(" ", key, "", "", value, ""), FieldsLayout(signedChar, fields.fields))
  }

  function ItemsLayout(signedChar: bool, items: Items): Elements
    requires items.AnItem?
  {
    var value := Layout(signedChar, items.value);
    if items.items.NoItems? then LastElement(Element(" ", value, " "))
    else MoreElements(Element(" ", value, ""), ItemsLayout(signedChar, items.items))
  }

  lemma {:induction false} PlainText(key: string, rest: string)
    ensures ItemsText(PlainItems(key), rest) == key + rest
    decreases |key|
  {
    if key == [] {
      assert key + rest == rest;
    } else {
      assert PlainItems(key)[1..] == PlainItems(key[1..]);
      PlainText(key[1..], rest);
      assert [key[0]] + (key[1..] + rest) == key + rest;
    }
  }

  lemma {:induction false} LayoutText(signedChar: bool, t: Tree, member: bool)
    requires Printable(t, member)
    ensures Text(Layout(signedChar, t), []) == TreeText(signedChar, t)
    decreases t, 1
  {
    hide Padded, EscapedText, FloatDigits, MembersText, ElementsText, FieldsText, ItemTexts, FieldsLayout, ItemsLayout;
    hide Escaped, StringText, Quoted;
    match t
    case Truth(flag) =>
    case Number(n) => NumberLayout(n < 0, Padded(10, Magnitude(n), 0));
    case Fraction(value, nano, negative) => FloatLayout(negative, Padded(10, value, 0), FloatDigits(nano));
    case Chars(text) => StringLayout(signedChar, text);
    case Object(fields) =>
      if fields.NoFields? {
        NoText(signedChar);
      } else {
        FieldsLayoutText(signedChar, fields, ['}'] + []);
      }
    case Array(items) =>
      if items.NoItems? {
        NoText(signedChar);
      } else {
        ItemsLayoutText(signedChar, items, [']'] + []);
      }
  }

  lemma NumberLayout(negative: bool, digits: string)
    ensures Text(Num(negative, digits, None, None), []) == Sign(negative) + digits
  {
    assert digits + [] == digits;
  }

  lemma FloatLayout(negative: bool, digits: string, fraction: string)
    ensures Text(Num(negative, digits, Some(fraction), None), []) == Sign(negative) + digits + "." + fraction
  {
    assert fraction + [] == fraction;
  }

  lemma StringLayout(signedChar: bool, text: string)
    ensures StringText(Escaped(signedChar, text), []) == Quoted(EscapedText(signedChar, text))
  {
    ItemsAppend(Escaped(signedChar, text), ['\"'] + []);
  }

  lemma NoText(signedChar: bool)
    ensures FieldsText(signedChar, NoFields, true) == "" && ItemTexts(signedChar, NoItems, true) == ""
  {
  }

  function HeadText(signedChar: bool, fields: Fields): string
    requires fields.Field?
  {
    (Quoted(fields.key) + ":") + TreeText(signedChar, fields.value)
  }

  lemma FieldsUnfold(signedChar: bool, fields: Fields)
    requires fields.Field?
    ensures FieldsText(signedChar, fields, true)
         == HeadText(signedChar, fields) + FieldsText(signedChar, fields.fields, false)
    ensures FieldsText(signedChar, fields, false) == ", " + FieldsText(signedChar, fields, true)
  {
    hide Quoted, TreeText;
  }

  /** The comma and space between two entries, as the text of the grammar has them. */
  lemma EntriesMeet(head: string, tail: string, rest: string)
    ensures " " + head + "" + ([','] + (" " + tail + " " + rest)) == " " + (head + (", " + tail)) + " " + rest
  {
  }

  lemma {:induction false} FieldsLayoutText(signedChar: bool, fields: Fields, rest: string)
    requires fields.Field? && FieldsPrintable(fields)
    ensures MembersText(FieldsLayout(signedChar, fields), rest)
         == " " + FieldsText(signedChar, fields, true) + " " + rest
    decreases fields, 0
  {
    var m := FieldsLayout(signedChar, fields).member;
    LayoutText(signedChar, fields.value, true);
    FieldsUnfold(signedChar, fields);
    NoText(signedChar);
    hide MemberText, TreeText, HeadText, Layout, FieldsText;
    if fields.fields.NoFields? {
      MemberLayoutText(signedChar, fields, m, rest);
    } else {
      var tail := FieldsLayout(signedChar, fields.fields);
      FieldsLayoutText(signedChar, fields.fields, rest);
      FieldsUnfold(signedChar, fields.fields);
      MemberLayoutText(signedChar, fields, m, [','] + MembersText(tail, rest));
      EntriesMeet(HeadText(signedChar, fields), FieldsText(signedChar, fields.fields, true), rest);
    }
  }

  lemma MemberLayoutText(signedChar: bool, fields: Fields, m: Member, rest: string)
    requires fields.Field? && m.s0 == " " && m.s1 == "" && m.s2 == ""
    requires m.key == PlainItems(fields.key) && Text(m.value, []) == TreeText(signedChar, fields.value)
    ensures MemberText(m, rest) == " " + HeadText(signedChar, fields) + m.s3 + rest
  {
    hide Text, TreeText, ItemsText, PlainItems;
    TextAppend(m.value, m.s3 + rest);
    var value := Text(m.value, m.s3 + rest);
    PlainText(fields.key, ['\"'] + ("" + ([':'] + ("" + value))));
  }

  lemma ItemsUnfold(signedChar: bool, items: Items)
    requires items.AnItem?
    ensures ItemTexts(signedChar, items, true)
         == TreeText(signedChar, items.value) + ItemTexts(signedChar, items.items, false)
    ensures ItemTexts(signedChar, items, false) == ", " + ItemTexts(signedChar, items, true)
  {
    hide TreeText;
  }

  lemma {:induction false} ItemsLayoutText(signedChar: bool, items: Items, rest: string)
    requires items.AnItem? && ItemsPrintable(items)
    ensures ElementsText(ItemsLayout(signedChar, items), rest) == " " + ItemTexts(signedChar, items, true) + " " + rest
    decreases items, 0
  {
    LayoutText(signedChar, items.value, false);
    var e := ItemsLayout(signedChar, items).element;
    ItemsUnfold(signedChar, items);
    NoText(signedChar);
    hide ElementText, TreeText, Layout, ItemTexts;
    if items.items.NoItems? {
      ElementLayoutText(e, TreeText(signedChar, items.value), rest);
    } else {
      var tail := ItemsLayout(signedChar, items.items);
      ItemsLayoutText(signedChar, items.items, rest);
      ItemsUnfold(signedChar, items.items);
      ElementLayoutText(e, TreeText(signedChar, items.value), [','] + ElementsText(tail, rest));
      EntriesMeet(TreeText(signedChar, items.value), ItemTexts(signedChar, items.items, true), rest);
    }
  }

  lemma ElementLayoutText(e: Element, text: string, rest: string)
    requires e.s0 == " " && Text(e.value, []) == text
    ensures ElementText(e, rest) == " " + text + e.s1 + rest
  {
    hide Text;
    TextAppend(e.value, e.s1 + rest);
  }

  // ---------------------------------------------------------------------------------------------
  // Printed numbers are read back
  // ---------------------------------------------------------------------------------------------

  lemma SplitDigit(v: nat, p: nat)
    requires p > 0
    ensures (v / p % 10) * p + v % p == v % (10 * p)
  {
    var q, r := v / p, v % p;
    var d, q' := q % 10, q / 10;
    assert q == 10 * q' + d;
    assert v == q * p + r;
    assert q * p == q' * (10 * p) + d * p;
    Reduce(d, p, r);
    ModAdd(d * p + r, q', 10 * p);
  }

  lemma Reduce(d: nat, p: nat, r: nat)
    requires d < 10 && r < p
    ensures d * p + r < 10 * p && (d * p + r) % (10 * p) == d * p + r
  {
    assert (9 - d) * p >= 0;
    assert (9 - d) * p == 9 * p - d * p;
    SmallMod(d * p + r, 10 * p);
  }

  lemma SmallMod(x: nat, m: nat)
    requires x < m
    ensures x % m == x
  {
  }

  lemma FirstDigit(prefix: int, v: nat, n: nat)
    requires n > 0
    ensures DigitsValue(prefix, LowDigits(10, v, n))
         == DigitsValue(prefix * 10 + v / Power(10, n - 1) % 10, LowDigits(10, v, n - 1))
  {
    hide Power;
    var d := v / Power(10, n - 1) % 10;
    assert LowDigits(10, v, n) == [DigitChar(d)] + LowDigits(10, v, n - 1);
    assert DigitChar(d) as int - '0' as int == d;
    hide LowDigits;
  }

  lemma ShiftPrefix(prefix: int, d: nat, p: nat)
    ensures (prefix * 10 + d) * p == prefix * (10 * p) + d * p
  {
  }

  lemma {:induction false} DigitsRead(prefix: int, v: nat, n: nat)
    ensures DigitsValue(prefix, LowDigits(10, v, n)) == prefix * Power(10, n) + v % Power(10, n)
    decreases n
  {
    if n > 0 {
      hide Power, LowDigits, DigitsValue;
      var p := Power(10, n - 1);
      var d := v / p % 10;
      FirstDigit(prefix, v, n);
      DigitsRead(prefix * 10 + d, v, n - 1);
      SplitDigit(v, p);
      PowerStep(10, n - 1);
      ShiftPrefix(prefix, d, p);
    }
  }

  lemma {:induction false} DigitsOnly(v: nat, n: nat)
    ensures forall i :: 0 <= i < n ==> IsDigit(LowDigits(10, v, n)[i])
  {
    if n > 0 {
      DigitsOnly(v, n - 1);
      assert LowDigits(10, v, n)[1..] == LowDigits(10, v, n - 1);
    }
  }

  /** A number is printed as decimal digits that denote it. */
  lemma PaddedRead(v: nat, width: nat)
    ensures Digits(Padded(10, v, width)) && DigitsValue(0, Padded(10, v, width)) == v
    ensures width <= |Padded(10, v, width)|
  {
    WidthIs(10, v);
    hide Power, Width, LowDigits, DigitsValue;
    var n := if Width(10, v) < width then width else Width(10, v);
    PowerMonotone(10, Width(10, v), n);
    DigitsOnly(v, n);
    DigitsRead(0, v, n);
    SmallMod(v, Power(10, n));
  }

  lemma WidthAtMost(v: nat, n: nat)
    requires n > 0 && v < Power(10, n)
    ensures Width(10, v) <= n
  {
    WidthIs(10, v);
    PowerStart(10);
    hide Power, Width;
    PowerMonotone(10, 1, n);
    if Width(10, v) > n { PowerMonotone(10, n, Width(10, v) - 1); }
  }

  lemma FloatRead(nano: nat)
    requires nano < 1_000_000_000
    ensures Digits(FloatDigits(nano)) && Nano(FloatDigits(nano)) == nano
  {
    hide Power, Width, LowDigits, DigitsValue;
    PowersOfTen();
    if nano % MILLION == 0 {
      WidthAtMost(nano / MILLION, 3);
      PaddedRead(nano / MILLION, 3);
      assert |FloatDigits(nano)| == 3;
    } else {
      WidthAtMost(nano, 9);
      PaddedRead(nano, 9);
      assert |FloatDigits(nano)| == 9;
      assert FloatDigits(nano)[..NANO_WIDTH] == FloatDigits(nano);
    }
  }

  // ---------------------------------------------------------------------------------------------
  // Round trip
  // ---------------------------------------------------------------------------------------------

  lemma KeyMeans(key: string)
    requires Unquoted(key)
    ensures ItemsOk(PlainItems(key)) && Contents(PlainItems(key)) == key
  {
    var items := PlainItems(key);
    forall x | x in items ensures ItemOk(x) {
      var i :| 0 <= i < |items| && items[i] == x;
      assert x == Item.Plain(key[i]);
    }
  }

  /** What is printed is well-formed, has no exponents and denotes the tree. */
  lemma {:induction false} LayoutMeans(signedChar: bool, t: Tree, member: bool)
    requires Printable(t, member)
    ensures Ok(Layout(signedChar, t)) && JsonTree.Plain(Layout(signedChar, t)) && Meaning(Layout(signedChar, t)) == t
    decreases t, 1
  {
    hide Padded, FloatDigits, Nano, DigitsValue, Digits, Escaped, Contents, FieldsLayout, ItemsLayout;
    match t
    case Truth(_) =>
    case Number(n) => PaddedRead(Magnitude(n), 0);
    case Fraction(value, nano, _) =>
      PaddedRead(value, 0);
      FloatRead(nano);
    case Chars(text) => EscapedDenotes(signedChar, text);
    case Object(fields) => if fields.Field? { FieldsMean(signedChar, fields); }
    case Array(items) => if items.AnItem? { ItemsMean(signedChar, items); }
  }

  lemma {:induction false} FieldsMean(signedChar: bool, fields: Fields)
    requires fields.Field? && FieldsPrintable(fields)
    ensures var ms := FieldsLayout(signedChar, fields);
            MembersOk(ms) && MembersPlain(ms) && MembersMeaning(ms) == fields
    decreases fields, 0
  {
    hide Layout, Meaning, Ok, JsonTree.Plain, PlainItems, Contents;
    KeyMeans(fields.key);
    LayoutMeans(signedChar, fields.value, true);
    if fields.fields.Field? { FieldsMean(signedChar, fields.fields); }
  }

  lemma {:induction false} ItemsMean(signedChar: bool, items: Items)
    requires items.AnItem? && ItemsPrintable(items)
    ensures var es := ItemsLayout(signedChar, items);
            ElementsOk(es) && ElementsPlain(es) && ElementsMeaning(es) == items
    decreases items, 0
  {
    hide Layout, Meaning, Ok, JsonTree.Plain;
    LayoutMeans(signedChar, items.value, false);
    if items.items.AnItem? { ItemsMean(signedChar, items.items); }
  }

  function TreeKind(t: Tree): Kind { if t.Object? then ObjectKind else ArrayKind }

  /** Every printable object or array is read back as it was, without error. */
  lemma RoundTrip(signedChar: bool, t: Tree)
    requires Printable(t, false) && (t.Object? || t.Array?) && |TreeText(signedChar, t)| < UINT64
    ensures TextTree(TreeKind(t), TreeText(signedChar, t)) == Some(t)
  {
    hide TreeText, Text, Ok, JsonTree.Plain, Meaning, TextTree, Depth;
    var v := Layout(signedChar, t);
    LayoutText(signedChar, t, false);
    LayoutMeans(signedChar, t, false);
    DepthFits(v, []);
    OkIsLoose(v);
    ReadsText(v, [], []);
    assert [] + Text(v, []) == Text(v, []);
  }

  /** Prints an object or array with one formatter for each level. */
  method Print(stream: TextOutputStream, signedChar: bool, t: Tree)
    requires stream.Valid() && Addable(t, false) && (t.Object? || t.Array?)
    modifies stream
    ensures stream.Valid() && stream.wanted == old(stream.wanted) + TreeText(signedChar, t)
  {
    hide FieldsText, ItemTexts, Head;
    if t.Object? {
      var formatter := new ObjectFormatter(stream, signedChar);
      PrintFields(formatter, t.fields);
      formatter.Close();
    } else {
      var formatter := new ArrayFormatter(stream, signedChar);
      PrintItems(formatter, t.items);
      formatter.Close();
    }
  }
}
