/** Escaping of string contents (infra/syntax/EscapeCharacterHelper.cpp and the escape functions of
    infra/syntax/JsonFormatter.cpp). Characters are bytes. */
module JsonEscape {
  import opened Common
  import opened JsonSyntax
  import opened JsonTokenizer
  import opened JsonTokens
  import opened TextStream

  /** The characters that are escaped: five special ones, and those that compare below a space.
      Where char is signed, the latter include the bytes from 128 on. The backslash is not among them. */
  predicate MustEscape(signedChar: bool, c: char) {
    Special(c) || Control(signedChar, c)
  }

  predicate Special(c: char) { c == '<' || c == '>' || c == '&' || c == '\'' || c == '\"' }
  predicate Control(signedChar: bool, c: char) { c as int < 0x20 || (signedChar && c as int >= 0x80) }

  /** ReplaceEscapeCharacter: a short escape where there is one, or four hexadecimal digits. */
  function Replacement(c: char): Item {
    if c == '\"' || c == '\\' then Escape(c)
    else if c == BACKSPACE then Escape('b')
    else if c == FORM_FEED then Escape('f')
    else if c == '\n' then Escape('n')
    else if c == '\r' then Escape('r')
    else if c == '\t' then Escape('t')
    else
      var byte := c as int % 256;
      Unicode('0', '0', DigitChar(byte / 16), DigitChar(byte % 16))
  }

  function EscapedItem(signedChar: bool, c: char): Item {
    if MustEscape(signedChar, c) then Replacement(c) else Plain(c)
  }

  function Escaped(signedChar: bool, s: string): seq<Item> {
    seq(|s|, i requires 0 <= i < |s| => EscapedItem(signedChar, s[i]))
  }

  /** What is printed for the contents of a string. */
  function EscapedText(signedChar: bool, s: string): string {
    ItemsText(Escaped(signedChar, s), [])
  }

  predicate Bytes(s: string) { forall i :: 0 <= i < |s| ==> s[i] as int < 256 }

  // ---------------------------------------------------------------------------------------------
  // What is printed denotes the contents
  // ---------------------------------------------------------------------------------------------

  lemma HexDigit(d: nat)
    requires d < 16
    ensures HexValue(DigitChar(d)) == Some(d)
  {
  }

  lemma ReplacementDecodes(c: char)
    requires c as int < 256
    ensures ItemOk(Replacement(c)) && Decoded(Replacement(c)) == c
  {
    if Replacement(c).Unicode? {
      UnicodeDecodes(c as int);
      hide DigitChar, Decoded;
    }
  }

  lemma UnicodeDecodes(byte: nat)
    requires byte < 256
    ensures var x := Unicode('0', '0', DigitChar(byte / 16), DigitChar(byte % 16));
            ItemOk(x) && Decoded(x) == byte as char
  {
    HexDigit(byte / 16);
    HexDigit(byte % 16);
    HexDigit(0);
    var high, low := DigitChar(byte / 16), DigitChar(byte % 16);
    assert DigitChar(0) == '0';
    hide DigitChar, HexValue;
    assert Hex('0') == 0 && Hex(high) == byte / 16 && Hex(low) == byte % 16;
    hide Hex;
    assert ((0 * 16 + 0) * 16 + byte / 16) * 16 + byte % 16 == byte;
  }

  /** The printed items always stand for the contents, and they are well-formed exactly if there is
      no backslash among them. */
  lemma EscapedDenotes(signedChar: bool, s: string)
    requires Bytes(s)
    ensures Contents(Escaped(signedChar, s)) == s
    ensures ItemsOk(Escaped(signedChar, s)) <==> '\\' !in s
  {
    hide Replacement, Decoded;
    var items := Escaped(signedChar, s);
    forall i | 0 <= i < |s|
      ensures Decoded(items[i]) == s[i] && (ItemOk(items[i]) <==> s[i] != '\\')
    {
      OneDenotes(signedChar, s[i]);
    }
    if '\\' in s {
      var i :| 0 <= i < |s| && s[i] == '\\';
      assert items[i] in items;
    }
  }

  lemma OneDenotes(signedChar: bool, c: char)
    requires c as int < 256
    ensures var x := EscapedItem(signedChar, c); Decoded(x) == c && (ItemOk(x) <==> c != '\\')
  {
    ReplacementDecodes(c);
  }

  /** Decoding what was printed for a string without backslashes gives the string back. */
  lemma DecodesEscaped(signedChar: bool, s: string)
    requires Bytes(s) && '\\' !in s
    ensures Decode(EscapedText(signedChar, s)) == s
  {
    EscapedDenotes(signedChar, s);
    OkItemsAreLoose(Escaped(signedChar, s));
    DecodeItems(Escaped(signedChar, s));
  }

  /** A backslash is printed as it is and taken for an escape when it is read. */
  lemma BackslashIsNotEscaped(signedChar: bool)
    ensures Decode(EscapedText(signedChar, ['\\', 'n'])) == ['\n']
  {
    var s := ['\\', 'n'];
    var items := Escaped(signedChar, s);
    assert items == [Plain('\\'), Plain('n')];
    assert items[1..] == [Plain('n')] && [Plain('n')][1..] == [];
    assert ItemsText(items, []) == s;
    assert s[Step(s)..] == [];
  }

  // ---------------------------------------------------------------------------------------------
  // Pieces
  // ---------------------------------------------------------------------------------------------

  lemma {:induction false} ItemsConcat(a: seq<Item>, b: seq<Item>, rest: string)
    ensures ItemsText(a + b, rest) == ItemsText(a, ItemsText(b, rest))
    decreases |a|
  {
    if a == [] {
      assert a + b == b;
    } else {
      assert (a + b)[1..] == a[1..] + b;
      ItemsConcat(a[1..], b, rest);
    }
  }

  lemma OneItem(x: Item)
    ensures ItemsText([x], []) == ItemText(x, [])
  {
    assert [x][1..] == [];
  }

  /** One character more. */
  lemma EscapedSnoc(signedChar: bool, s: string, c: char)
    ensures EscapedText(signedChar, s + [c]) == EscapedText(signedChar, s) + ItemText(EscapedItem(signedChar, c), [])
  {
    hide ItemsText, ItemText, EscapedItem;
    var x := EscapedItem(signedChar, c);
    assert Escaped(signedChar, s + [c]) == Escaped(signedChar, s) + [x];
    ItemsConcat(Escaped(signedChar, s), [x], []);
    OneItem(x);
    ItemsAppend(Escaped(signedChar, s), ItemText(x, []));
  }

  /** Neither a control character nor one that HTML gives a meaning. */
  predicate Safe(signedChar: bool, c: char) {
    c !in "<>&'" && c >= ' ' && (signedChar ==> c as int < 0x80)
  }

  lemma ItemIsSafe(signedChar: bool, c: char)
    ensures var text := ItemText(EscapedItem(signedChar, c), []);
      && text != [] && (forall d :: d in text ==> Safe(signedChar, d))
      && (Safe(signedChar, c) && c != '\"' <==> text == [c])
      && (text != [c] ==> |text| >= 2)
  {
  }

  /** What is printed has only safe characters, and it is the contents themselves exactly if these are
      safe and have no quote. */
  lemma {:induction false} PrintedIsSafe(signedChar: bool, s: string)
    ensures var text := EscapedText(signedChar, s);
      && (forall d :: d in text ==> Safe(signedChar, d)) && |text| >= |s|
      && (text == s <==> forall c :: c in s ==> Safe(signedChar, c) && c != '\"')
    decreases |s|
  {
    hide EscapedText, EscapedItem, ItemText, Safe;
    if s == [] {
      EscapedEmpty(signedChar);
    } else {
      var front, c := s[..|s| - 1], s[|s| - 1];
      var text := ItemText(EscapedItem(signedChar, c), []);
      assert s == front + [c];
      PrintedIsSafe(signedChar, front);
      ItemIsSafe(signedChar, c);
      EscapedSnoc(signedChar, front, c);
      if EscapedText(signedChar, s) == s {
        assert |text| == 1 && EscapedText(signedChar, s)[..|front|] == front;
      }
    }
  }

  /** A run of characters that are printed as they are. */
  predicate Run(signedChar: bool, s: string, from: nat, end: nat) {
    from <= end <= |s| && forall i :: from <= i < end ==> !MustEscape(signedChar, s[i])
  }

  lemma {:induction false} EscapedRun(signedChar: bool, s: string, from: nat, end: nat)
    requires Run(signedChar, s, from, end)
    ensures EscapedText(signedChar, s[..end]) == EscapedText(signedChar, s[..from]) + s[from..end]
    decreases end
  {
    if from < end {
      hide EscapedText, MustEscape;
      EscapedRun(signedChar, s, from, end - 1);
      EscapedSnoc(signedChar, s[..end - 1], s[end - 1]);
      assert s[..end] == s[..end - 1] + [s[end - 1]];
      assert s[from..end] == s[from..end - 1] + [s[end - 1]];
    } else {
      assert s[from..end] == [];
    }
  }

  lemma EscapedNext(signedChar: bool, s: string, at: nat)
    requires at < |s| && MustEscape(signedChar, s[at])
    ensures EscapedText(signedChar, s[..at + 1]) == EscapedText(signedChar, s[..at]) + ItemText(Replacement(s[at]), [])
  {
    EscapedSnoc(signedChar, s[..at], s[at]);
    assert s[..at + 1] == s[..at] + [s[at]];
  }

  /** Finds the end of the run that starts at `start`. */
  method NonEscapedSubString(signedChar: bool, s: string, start: nat) returns (escape: nat, run: string)
    requires start <= |s|
    ensures Run(signedChar, s, start, escape) && run == s[start..escape]
    ensures escape < |s| ==> MustEscape(signedChar, s[escape])
  {
    escape := start;
    while escape != |s| && !Special(s[escape])
      invariant start <= escape <= |s| && forall i :: start <= i < escape ==> !Special(s[i])
    {
      escape := escape + 1;
    }
    var control := start;
    while control != escape && !Control(signedChar, s[control])
      invariant start <= control <= escape && forall i :: start <= i < control ==> !Control(signedChar, s[i])
    {
      control := control + 1;
    }
    escape := control;
    run := s[start..escape];
  }

  /** InsertEscapedContent */
  method InsertEscaped(stream: TextOutputStream, signedChar: bool, content: string)
    requires stream.Valid()
    modifies stream
    ensures stream.Valid() && stream.wanted == old(stream.wanted) + EscapedText(signedChar, content)
  {
    hide EscapedText, Replacement, Head, ItemText, MustEscape;
    var start := 0;
    ghost var before := stream.wanted;
    EscapedEmpty(signedChar);
    assert content[..0] == [];
    while start != |content|
      invariant 0 <= start <= |content|
      invariant stream.Valid() && stream.wanted == before + EscapedText(signedChar, content[..start])
      decreases |content| - start
    {
      start := InsertStep(stream, signedChar, content, start, before);
    }
    assert content[..start] == content;
  }

  /** One turn of the loop: a run, and the replacement of the character that ends it. */
  method InsertStep(stream: TextOutputStream, signedChar: bool, content: string, start: nat, ghost before: string)
      returns (next: nat)
    requires stream.Valid() && start < |content| && stream.wanted == before + EscapedText(signedChar, content[..start])
    modifies stream
    ensures stream.Valid() && start < next <= |content|
    ensures stream.wanted == before + EscapedText(signedChar, content[..next])
  {
    hide EscapedText, Replacement, Head, ItemText;
    var escape, run := NonEscapedSubString(signedChar, content, start);
    EscapedRun(signedChar, content, start, escape);
    next := escape;
    if run != [] {
      stream.Insert(run);
    }
    assert stream.wanted == before + EscapedText(signedChar, content[..escape]);
    if escape != |content| {
      EscapedNext(signedChar, content, escape);
      ReplaceEscapeCharacter(stream, content[escape]);
      next := next + 1;
    }
  }

  lemma EscapedEmpty(signedChar: bool)
    ensures EscapedText(signedChar, []) == []
  {
  }

  method ReplaceEscapeCharacter(stream: TextOutputStream, c: char)
    requires stream.Valid()
    modifies stream
    ensures stream.Valid() && stream.wanted == old(stream.wanted) + ItemText(Replacement(c), [])
  {
    hide Head, DigitChar;
    if c == '\"' {
      stream.Insert(['\\', '\"']);
    } else if c == '\\' {
      stream.Insert(['\\', '\\']);
    } else if c == BACKSPACE {
      stream.Insert(['\\', 'b']);
    } else if c == FORM_FEED {
      stream.Insert(['\\', 'f']);
    } else if c == '\n' {
      stream.Insert(['\\', 'n']);
    } else if c == '\r' {
      stream.Insert(['\\', 'r']);
    } else if c == '\t' {
      stream.Insert(['\\', 't']);
    } else {
      InsertUnicode(stream, c as int % 256);
    }
  }

  method InsertUnicode(stream: TextOutputStream, byte: nat)
    requires stream.Valid() && byte < 256
    modifies stream
    ensures stream.Valid()
    ensures stream.wanted
         == old(stream.wanted) + ItemText(Unicode('0', '0', DigitChar(byte / 16), DigitChar(byte % 16)), [])
  {
    hide Padded, Head, DigitChar;
    stream.Insert(['\\', 'u']);
    FourDigits(byte);
    stream.Output(16, byte, false, 4);
  }

  lemma FourDigits(byte: nat)
    requires byte < 256
    ensures Padded(16, byte, 4) == ['0', '0', DigitChar(byte / 16), DigitChar(byte % 16)]
  {
    hide DigitChar, HexValue;
    assert DigitChar(0) == '0' by { ZeroDigit(); }
    assert Width(16, byte) <= 2;
    assert Power(16, 0) == 1 && Power(16, 1) == 16 && Power(16, 2) == 256 && Power(16, 3) == 4096;
    assert byte / 4096 % 16 == 0 && byte / 256 % 16 == 0 && byte / 16 % 16 == byte / 16 && byte / 1 % 16 == byte % 16;
    hide Power, Width;
    assert LowDigits(16, byte, 1) == [DigitChar(byte % 16)];
    assert LowDigits(16, byte, 2) == [DigitChar(byte / 16)] + LowDigits(16, byte, 1);
    assert LowDigits(16, byte, 3) == ['0'] + LowDigits(16, byte, 2);
    assert LowDigits(16, byte, 4) == ['0'] + LowDigits(16, byte, 3);
  }

  lemma ZeroDigit()
    ensures DigitChar(0) == '0'
  {
  }

  // ---------------------------------------------------------------------------------------------
  // Sizes
  // ---------------------------------------------------------------------------------------------

  function EscapedCharacterSize(c: char): nat {
    if c in {'\"', '\\', BACKSPACE, FORM_FEED, '\n', '\r', '\t'} then 2 else 6
  }

  lemma ReplacementSize(c: char)
    ensures |ItemText(Replacement(c), [])| == EscapedCharacterSize(c)
  {
  }

  method JsonEscapedStringSize(signedChar: bool, s: string) returns (size: nat)
    ensures size == |EscapedText(signedChar, s)|
  {
    hide EscapedText, Replacement, EscapedCharacterSize;
    var start := 0;
    size := 0;
    EscapedEmpty(signedChar);
    assert s[..0] == [];
    while start != |s|
      invariant 0 <= start <= |s| && size == |EscapedText(signedChar, s[..start])|
      decreases |s| - start
    {
      var escape, run := NonEscapedSubString(signedChar, s, start);
      EscapedRun(signedChar, s, start, escape);
      start := escape;
      if run != [] {
        size := size + |run|;
      }
      if start != |s| {
        EscapedNext(signedChar, s, start);
        ReplacementSize(s[start]);
        size := size + EscapedCharacterSize(s[start]);
        start := start + 1;
      }
    }
    assert s[..start] == s;
  }

  lemma {:induction false} EscapedMonotone(signedChar: bool, s: string, a: nat, b: nat)
    requires a <= b <= |s|
    ensures |EscapedText(signedChar, s[..a])| <= |EscapedText(signedChar, s[..b])|
    decreases b
  {
    if a < b {
      hide EscapedText;
      EscapedMonotone(signedChar, s, a, b - 1);
      EscapedSnoc(signedChar, s[..b - 1], s[b - 1]);
      assert s[..b] == s[..b - 1] + [s[b - 1]];
    }
  }

  /** A prefix that fits, when the next longer one does not. */
  ghost predicate Longest(signedChar: bool, s: string, n: nat, max: nat) {
    && n <= |s| && |EscapedText(signedChar, s[..n])| <= max
    && forall m :: n < m <= |s| ==> |EscapedText(signedChar, s[..m])| > max
  }

  lemma LongestIf(signedChar: bool, s: string, n: nat, max: nat)
    requires n <= |s| && |EscapedText(signedChar, s[..n])| <= max
    requires n < |s| ==> |EscapedText(signedChar, s[..n + 1])| > max
    ensures Longest(signedChar, s, n, max)
  {
    forall m | n < m <= |s| ensures |EscapedText(signedChar, s[..m])| > max {
      EscapedMonotone(signedChar, s, n + 1, m);
    }
  }

  lemma StepCosts(signedChar: bool, s: string, n: nat)
    requires n < |s|
    ensures |EscapedText(signedChar, s[..n + 1])| == |EscapedText(signedChar, s[..n])|
         + if MustEscape(signedChar, s[n]) then EscapedCharacterSize(s[n]) else 1
  {
    hide EscapedText, Replacement;
    EscapedSnoc(signedChar, s[..n], s[n]);
    assert s[..n + 1] == s[..n] + [s[n]];
    ReplacementSize(s[n]);
  }

  /** The longest prefix whose printed form has at most `max` characters. */
  method JsonSubStringOfMaxEscapedSize(signedChar: bool, s: string, max: nat) returns (r: string)
    ensures |r| <= |s| && r == s[..|r|] && Longest(signedChar, s, |r|, max)
  {
    hide EscapedText, Longest;
    var start, size := 0, 0;
    EscapedEmpty(signedChar);
    assert s[..0] == [];
    while start != |s| && size < max
      invariant 0 <= start <= |s| && size == |EscapedText(signedChar, s[..start])| <= max
      decreases |s| - start
    {
      var escape, run := NonEscapedSubString(signedChar, s, start);
      if run != [] {
        var increment := if |run| < max - size then |run| else max - size;
        EscapedRun(signedChar, s, start, start + increment);
        size := size + increment;
        start := start + increment;
      }
      if start != |s| {
        var escapedSize := EscapedCharacterSize(s[start]);
        StepCosts(signedChar, s, start);
        if escapedSize > max - size {
          break;
        }
        size := size + escapedSize;
        start := start + 1;
      }
    }
    r := s[..start];
    if start < |s| {
      StepCosts(signedChar, s, start);
    }
    LongestIf(signedChar, s, start, max);
  }
}
