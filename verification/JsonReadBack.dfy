/** How the tokenizer of infra/syntax/Json.cpp reads the strings and keys that the formatters of
    infra/syntax/JsonFormatter.cpp print: exactly which of them come back as they were. */
module JsonReadBack {
  import opened Common
  import opened JsonSyntax
  import opened JsonTokenizer
  import opened JsonTokens
  import opened TextStream
  import opened JsonEscape

  /** Keys are printed as they are, the contents of strings are escaped. */
  datatype Printing = Verbatim | Escaping(signedChar: bool)

  function Printed(p: Printing, s: string): string { if p.Verbatim? then s else EscapedText(p.signedChar, s) }

  predicate Replaced(p: Printing, c: char) { p.Escaping? && MustEscape(p.signedChar, c) }

  predicate Characters(p: Printing, s: string) { p.Escaping? ==> Bytes(s) }

  /** What is printed, its closing quote, and what follows. */
  function Placed(p: Printing, s: string, after: string): string { Printed(p, s) + (['\"'] + after) }

  /** What is read of a text, up to the quote that closes it. */
  function Read(t: string): string { Decode(t[..Closing(t, false)]) }

  /** How much of a text is left at the quote that closes it; nothing if there is none. */
  function Left(t: string): nat { |t| - Closing(t, false) }

  /** No backslash comes before the next quote. */
  predicate Calm(s: string) {
    s == [] || s[0] == '\"' || (s[0] != '\\' && Calm(s[1..]))
  }

  /** The string is closed, at the latest by its own quote, or else within a calm text. */
  predicate Closes(t: string, after: string) {
    Left(t) > |after| || (Left(t) > 0 && Calm(after))
  }

  /** Every character is read back as itself. */
  predicate Faithful(p: Printing, s: string) {
    forall i :: 0 <= i < |s| ==> s[i] != '\\' && (s[i] == '\"' ==> Replaced(p, s[i]))
  }

  // ---------------------------------------------------------------------------------------------
  // Reading, one step at a time
  // ---------------------------------------------------------------------------------------------

  lemma ReadStep(t: string)
    requires Left(t) > 0 && t[0] != '\"'
    ensures var raw := t[..Closing(t, false)];
            && raw != [] && (t[0] == '\\' ==> |raw| > 1)
            && Read(t) == [First(raw)] + Read(t[Step(raw)..]) && Left(t[Step(raw)..]) == Left(t)
  {
    hide Closing, Step, First;
    StepClosing(t);
    var n := Closing(t, false);
    var raw := t[..n];
    assert raw[Step(raw)..] == t[Step(raw)..][..n - Step(raw)];
  }

  lemma ReadPlain(c: char, t: string)
    requires Left([c] + t) > 0 && c != '\"' && c != '\\'
    ensures Read([c] + t) == [c] + Read(t) && Left(t) == Left([c] + t)
  {
    hide Closing, Decode, Read, Left;
    ReadStep([c] + t);
    assert ([c] + t)[1..] == t;
  }

  lemma {:induction false} ReadRun(y: string, t: string)
    requires Unquoted(y) && Left(y + t) > 0
    ensures Read(y + t) == y + Read(t) && Left(t) == Left(y + t)
    decreases |y|
  {
    hide Read, Left;
    if y == [] {
      assert y + t == t;
    } else {
      assert y + t == [y[0]] + (y[1..] + t);
      ReadPlain(y[0], y[1..] + t);
      ReadRun(y[1..], t);
    }
  }

  lemma ReadEscape(c: char, t: string)
    requires c != 'u' && Left(['\\'] + ([c] + t)) > 0
    ensures Read(['\\'] + ([c] + t)) == [Unescaped(c)] + Read(t) && Left(t) == Left(['\\'] + ([c] + t))
  {
    hide Closing, Decode, Read, Left, Unescaped;
    var s := ['\\'] + ([c] + t);
    ReadStep(s);
    assert s[1] == c && s[2..] == t;
  }

  lemma ReadUnicode(t: string) returns (x: char, h: nat)
    requires Left(['\\'] + (['u'] + t)) > 0
    ensures h <= |t| && forall i :: 0 <= i < h ==> HexValue(t[i]).Some?
    ensures Read(['\\'] + (['u'] + t)) == [x] + Read(t[h..]) && Left(t[h..]) == Left(['\\'] + (['u'] + t))
  {
    hide Closing, Decode, Read, Left, HexCount;
    var s := ['\\'] + (['u'] + t);
    ReadStep(s);
    var raw := s[..Closing(s, false)];
    x, h := First(raw), HexCount(raw[2..], 4);
    HexHolds(raw[2..], 4);
    assert s[1] == 'u' && s[2..] == t && s[2 + h..] == t[h..];
    assert forall i :: 0 <= i < h ==> raw[2..][i] == t[i];
  }

  lemma HexHolds(s: string, limit: nat)
    ensures forall i :: 0 <= i < HexCount(s, limit) ==> HexValue(s[i]).Some?
  {
    if HexCount(s, limit) > 0 {
      HexHolds(s[1..], limit - 1);
      forall i | 0 <= i < HexCount(s, limit) ensures HexValue(s[i]).Some? {
        if i > 0 { assert s[i] == s[1..][i - 1]; }
      }
    }
  }

  lemma ReadItem(x: Item, t: string)
    requires ItemOk(x)
    ensures Read(ItemText(x, t)) == [Decoded(x)] + Read(t) && Left(ItemText(x, t)) == Left(t)
  {
    hide Closing, Step, First, Decoded, ItemText;
    ItemClosing(x, t);
    ItemAppend(x, t);
    var n := Closing(t, false);
    ItemAppend(x, t[..n]);
    assert ItemText(x, t)[..|ItemText(x, [])| + n] == ItemText(x, t[..n]);
    ItemStep(x, t[..n]);
  }

  lemma ReadQuote(t: string)
    ensures Read(['\"'] + t) == []
  {
  }

  // ---------------------------------------------------------------------------------------------
  // Printing, one step at a time
  // ---------------------------------------------------------------------------------------------

  /** What a replacement prints behind its backslash. */
  function EscapeTail(c: char): string {
    var x := Replacement(c);
    if x.Escape? then [x.c]
    else ['u', '0', '0', DigitChar(c as int % 256 / 16), DigitChar(c as int % 256 % 16)]
  }

  lemma EscapeTailIs(p: Printing, c: char)
    requires Replaced(p, c)
    ensures c != '\\' && EscapeTail(c) != []
    ensures (c as int < 256 && c != '\"' ==> Unquoted(EscapeTail(c)) && EscapeTail(c)[0] != c)
    ensures c == '\"' ==> EscapeTail(c) == ['\"']
  {
    if Replacement(c).Unicode? { HexUnescaped(c as int % 256); }
  }

  lemma HexUnescaped(byte: nat)
    requires byte < 256
    ensures Unquoted([DigitChar(byte / 16), DigitChar(byte % 16)])
  {
  }

  lemma PlacedNone(p: Printing, after: string)
    ensures Placed(p, [], after) == ['\"'] + after
  {
    if p.Escaping? { EscapedEmpty(p.signedChar); }
  }

  lemma PlacedHead(p: Printing, s: string, after: string)
    requires s != []
    ensures var tail := Placed(p, s[1..], after);
            && (Replaced(p, s[0]) ==> Placed(p, s, after) == ['\\'] + (EscapeTail(s[0]) + tail))
            && (Replaced(p, s[0]) ==> Placed(p, s, after) == ItemText(Replacement(s[0]), tail))
            && (!Replaced(p, s[0]) ==> Placed(p, s, after) == [s[0]] + tail)
  {
    hide MustEscape, EscapedText, Replacement, ItemText;
    if p.Escaping? {
      var c := s[0];
      var tail := EscapedText(p.signedChar, s[1..]);
      EscapedHead(p.signedChar, s);
      if MustEscape(p.signedChar, c) {
        ReplacementText(c, tail);
        ReplacementText(c, tail + (['\"'] + after));
        assert ['\\'] + (EscapeTail(c) + (tail + (['\"'] + after)))
             == (['\\'] + (EscapeTail(c) + tail)) + (['\"'] + after);
      } else {
        PlainItemText(p.signedChar, c, tail);
        assert [c] + (tail + (['\"'] + after)) == ([c] + tail) + (['\"'] + after);
      }
    } else {
      assert s == [s[0]] + s[1..];
    }
  }

  lemma PlainItemText(signedChar: bool, c: char, rest: string)
    requires !MustEscape(signedChar, c)
    ensures ItemText(EscapedItem(signedChar, c), rest) == [c] + rest
  {
  }

  lemma ReplacementText(c: char, rest: string)
    ensures ItemText(Replacement(c), rest) == ['\\'] + (EscapeTail(c) + rest)
  {
  }

  lemma EscapedHead(signedChar: bool, s: string)
    requires s != []
    ensures EscapedText(signedChar, s) == ItemText(EscapedItem(signedChar, s[0]), EscapedText(signedChar, s[1..]))
  {
    hide ItemText, EscapedItem;
    assert Escaped(signedChar, s)[1..] == Escaped(signedChar, s[1..]);
  }

  /** Hexadecimal digits are printed as they are, and nothing else begins with one. */
  lemma {:induction false} HexInPlace(p: Printing, s: string, after: string, h: nat)
    requires h <= |Placed(p, s, after)| && forall i :: 0 <= i < h ==> HexValue(Placed(p, s, after)[i]).Some?
    ensures h <= |s| && Placed(p, s, after)[h..] == Placed(p, s[h..], after)
    decreases h
  {
    hide Placed, Replacement, EscapeTail;
    var t := Placed(p, s, after);
    if h > 0 {
      var first := t[0];
      assert HexValue(first).Some?;
      PlacedNone(p, after);
      if s != [] {
        PlacedHead(p, s, after);
        var tail := Placed(p, s[1..], after);
        forall i | 0 <= i < h - 1 ensures HexValue(tail[i]).Some? { assert tail[i] == t[i + 1]; }
        HexInPlace(p, s[1..], after, h - 1);
        assert t[h..] == tail[h - 1..] && s[h..] == s[1..][h - 1..];
      }
    }
  }

  // ---------------------------------------------------------------------------------------------
  // Reading what is printed
  // ---------------------------------------------------------------------------------------------

  /** A character other than a backslash is read back, unless it is a quote that is not replaced. */
  lemma ReadHead(p: Printing, s: string, after: string)
    requires s != [] && Characters(p, s) && s[0] != '\\' && (s[0] == '\"' ==> Replaced(p, s[0]))
    requires Left(Placed(p, s, after)) > 0
    ensures Read(Placed(p, s, after)) == [s[0]] + Read(Placed(p, s[1..], after))
    ensures Left(Placed(p, s[1..], after)) == Left(Placed(p, s, after))
  {
    hide Read, Left, Placed, Replacement, Decoded, ItemText, EscapeTail;
    PlacedHead(p, s, after);
    var tail := Placed(p, s[1..], after);
    if Replaced(p, s[0]) {
      ReplacementDecodes(s[0]);
      ReadItem(Replacement(s[0]), tail);
    } else {
      ReadPlain(s[0], tail);
    }
  }

  /** Reading a backslash that was printed, and what follows it: `taken` characters are read as `decoded`. */
  datatype Lead = Lead(decoded: string, taken: nat)

  /** Either one character is read for at least two, or the backslash itself and then the text of a
      replacement, whose own backslash was taken for the second half of the escape. */
  lemma ReadBackslash(p: Printing, s: string, after: string) returns (lead: Lead)
    requires |s| > 1 && s[0] == '\\' && Characters(p, s) && !(s[1] == '\"' && Replaced(p, s[1]))
    requires Left(Placed(p, s, after)) > 0
    ensures 2 <= lead.taken <= |s|
    ensures Read(Placed(p, s, after)) == lead.decoded + Read(Placed(p, s[lead.taken..], after))
    ensures Left(Placed(p, s[lead.taken..], after)) == Left(Placed(p, s, after))
    ensures if Replaced(p, s[1]) then lead == Lead(['\\'] + EscapeTail(s[1]), 2) else |lead.decoded| == 1
  {
    hide Read, Left, Placed, EscapeTail, MustEscape, Replacement;
    var t := s[1..];
    PlacedHead(p, s, after);
    PlacedHead(p, t, after);
    BackslashIsPlain(p);
    assert t[1..] == s[2..];
    var tail := Placed(p, s[2..], after);
    if Replaced(p, s[1]) {
      EscapeTailIs(p, s[1]);
      ReadEscape('\\', EscapeTail(s[1]) + tail);
      ReadRun(EscapeTail(s[1]), tail);
      lead := Lead(['\\'] + EscapeTail(s[1]), 2);
    } else if s[1] == 'u' {
      var x, h := ReadUnicode(tail);
      HexInPlace(p, s[2..], after, h);
      assert s[2..][h..] == s[2 + h..];
      lead := Lead([x], 2 + h);
    } else {
      ReadEscape(s[1], tail);
      lead := Lead([Unescaped(s[1])], 2);
    }
  }

  lemma BackslashIsPlain(p: Printing)
    ensures !Replaced(p, '\\')
  {
  }

  /** A quote that is not replaced ends the string, and so does the quote of a replacement whose backslash
      was taken for the second half of an escape. */
  lemma ReadsNothing(p: Printing, s: string, after: string)
    requires s == [] || (s[0] == '\"' && !Replaced(p, s[0]))
    ensures Read(Placed(p, s, after)) == []
  {
    hide Read, Placed;
    if s == [] {
      PlacedNone(p, after);
      ReadQuote(after);
    } else {
      PlacedHead(p, s, after);
      ReadQuote(Placed(p, s[1..], after));
    }
  }

  lemma ReadsOne(p: Printing, s: string, after: string)
    requires |s| > 1 && s[0] == '\\' && s[1] == '\"' && Replaced(p, s[1]) && Left(Placed(p, s, after)) > 0
    ensures |Read(Placed(p, s, after))| == 1
  {
    hide Read, Left, Placed, EscapeTail, Replacement, Unescaped;
    PlacedHead(p, s, after);
    PlacedHead(p, s[1..], after);
    BackslashIsPlain(p);
    EscapeTailIs(p, s[1]);
    var tail := ['\"'] + Placed(p, s[1..][1..], after);
    ReadEscape('\\', tail);
    ReadQuote(Placed(p, s[1..][1..], after));
  }

  lemma {:induction false} CalmRead(s: string)
    requires Calm(s) && Left(s) > 0
    ensures forall i :: 0 <= i < |Read(s)| ==> Read(s)[i] != '\\'
    decreases |s|
  {
    hide Read, Left;
    if s != [] && s[0] != '\"' {
      assert s == [s[0]] + s[1..];
      ReadPlain(s[0], s[1..]);
      CalmRead(s[1..]);
    } else {
      NothingLeft();
      assert s == ['\"'] + s[1..];
      ReadQuote(s[1..]);
    }
  }

  lemma NothingLeft()
    ensures Left([]) == 0
  {
  }

  /** A backslash at the very end takes the closing quote, and none is read behind it. */
  lemma LoneBackslash(p: Printing, s: string, after: string, owed: string)
    requires s == ['\\'] && Closes(Placed(p, s, after), after)
    ensures Read(Placed(p, s, after)) != owed + s
  {
    hide Read, Placed, Closing;
    PlacedHead(p, s, after);
    PlacedNone(p, after);
    BackslashIsPlain(p);
    assert s[1..] == [];
    var t := ['\\'] + (['\"'] + after);
    EscapeClosing('\"', after);
    ReadEscape('\"', after);
    CalmRead(after);
    var read := ['\"'] + Read(after);
    assert read[|read| - 1] != '\\';
    assert (owed + s)[|owed + s| - 1] == '\\';
  }

  // ---------------------------------------------------------------------------------------------
  // What is read lags behind for ever
  // ---------------------------------------------------------------------------------------------

  /** A step that decodes less than was owed and taken leaves the difference owed. */
  lemma Owing(owed: string, u: string, decoded: string, taken: nat, rest: string)
    requires decoded + rest == owed + u && taken <= |u| && |decoded| < |owed| + taken
    ensures rest == (owed + u[..taken])[|decoded|..] + u[taken..] && (owed + u[..taken])[|decoded|..] != []
  {
    assert owed + u == (owed + u[..taken]) + u[taken..];
    assert rest == (decoded + rest)[|decoded|..];
  }

  /** The text of a replacement has no backslash, so that it cannot reach the one that was taken. */
  lemma OwedIsLonger(owed: string, u: string, y: string, rest: string)
    requires |u| >= 2 && u[0] == '\\' && Unquoted(y) && owed != []
    requires (['\\'] + y) + rest == owed + u
    ensures |y| + 1 < |owed| + 2
  {
    var all := owed + u;
    assert all[|owed|] == u[0];
    forall i | 0 <= i < |y| ensures all[i + 1] == y[i] {
      assert ((['\\'] + y) + rest)[i + 1] == y[i];
    }
    assert forall i :: 1 <= i <= |y| ==> all[i] == y[i - 1];
  }

  /** Once what is read lags behind by some characters that are still owed, it never catches up: each
      step owes at least what it took beyond what it read. */
  lemma {:induction false} NeverCatchesUp(p: Printing, u: string, after: string, owed: string)
    requires Characters(p, u) && owed != [] && Closes(Placed(p, u, after), after)
    ensures Read(Placed(p, u, after)) != owed + u
    decreases |u|
  {
    hide Read, Left, Placed, EscapeTail, MustEscape, Calm;
    if u == [] || (u[0] == '\"' && !Replaced(p, u[0])) {
      ReadsNothing(p, u, after);
    } else if u[0] != '\\' {
      ReadHead(p, u, after);
      if Read(Placed(p, u, after)) == owed + u {
        Owing(owed, u, [u[0]], 1, Read(Placed(p, u[1..], after)));
        NeverCatchesUp(p, u[1..], after, (owed + u[..1])[1..]);
      }
    } else if |u| == 1 {
      LoneBackslash(p, u, after, owed);
    } else if u[1] == '\"' && Replaced(p, u[1]) {
      ReadsOne(p, u, after);
    } else {
      var lead := ReadBackslash(p, u, after);
      if Read(Placed(p, u, after)) == owed + u {
        if Replaced(p, u[1]) {
          EscapeTailIs(p, u[1]);
          OwedIsLonger(owed, u, EscapeTail(u[1]), Read(Placed(p, u[2..], after)));
        }
        Owing(owed, u, lead.decoded, lead.taken, Read(Placed(p, u[lead.taken..], after)));
        NeverCatchesUp(p, u[lead.taken..], after, (owed + u[..lead.taken])[|lead.decoded|..]);
      }
    }
  }

  /** The first character that is not read back as itself spoils the whole string. */
  lemma Spoiled(p: Printing, s: string, after: string)
    requires Characters(p, s) && s != [] && !Faithful(p, s[..1]) && Closes(Placed(p, s, after), after)
    ensures Read(Placed(p, s, after)) != s
  {
    hide Read, Left, Placed, EscapeTail, MustEscape, Calm;
    assert s[..1] == [s[0]];
    if s[0] == '\"' {
      ReadsNothing(p, s, after);
    } else if |s| == 1 {
      LoneBackslash(p, s, after, []);
      assert [] + s == s;
    } else if s[1] == '\"' && Replaced(p, s[1]) {
      ReadsOne(p, s, after);
    } else {
      var lead := ReadBackslash(p, s, after);
      var rest := Read(Placed(p, s[lead.taken..], after));
      if Replaced(p, s[1]) {
        EscapeTailIs(p, s[1]);
        assert (lead.decoded + rest)[1] == EscapeTail(s[1])[0];
      } else if Read(Placed(p, s, after)) == s {
        assert rest == (lead.decoded + rest)[1..] == s[1..];
        assert s[1..] == s[1..lead.taken] + s[lead.taken..];
        NeverCatchesUp(p, s[lead.taken..], after, s[1..lead.taken]);
      }
    }
  }

  /** A string with such a character anywhere is not read back. */
  lemma {:induction false} NotReadBack(p: Printing, s: string, after: string)
    requires Characters(p, s) && !Faithful(p, s) && Closes(Placed(p, s, after), after)
    ensures Read(Placed(p, s, after)) != s
    decreases |s|
  {
    hide Read, Left, Placed, MustEscape, Calm;
    if !Faithful(p, s[..1]) {
      Spoiled(p, s, after);
    } else {
      assert s[..1] == [s[0]];
      ReadHead(p, s, after);
      NotReadBack(p, s[1..], after);
    }
  }

  /** All others are, and end at their own quote. */
  lemma {:induction false} ReadsBack(p: Printing, s: string, after: string)
    requires Characters(p, s) && Faithful(p, s)
    ensures Read(Placed(p, s, after)) == s && Left(Placed(p, s, after)) == |after| + 1
    decreases |s|
  {
    hide Read, Left, Placed, MustEscape, Replacement, EscapeTail, ItemText, Decoded;
    if s == [] {
      PlacedNone(p, after);
      ReadsNothing(p, s, after);
      QuoteLeft(after);
    } else {
      ReadsBack(p, s[1..], after);
      PlacedHead(p, s, after);
      HeadLeft(p, s, after);
      ReadHead(p, s, after);
    }
  }

  lemma QuoteLeft(after: string)
    ensures Left(['\"'] + after) == |after| + 1
  {
  }

  lemma HeadLeft(p: Printing, s: string, after: string)
    requires s != [] && Characters(p, s) && s[0] != '\\' && (s[0] == '\"' ==> Replaced(p, s[0]))
    ensures Left(Placed(p, s, after)) == Left(Placed(p, s[1..], after))
  {
    hide Read, Placed, Replacement, Decoded, ItemText, EscapeTail, Closing;
    PlacedHead(p, s, after);
    var tail := Placed(p, s[1..], after);
    if Replaced(p, s[0]) {
      ReplacementDecodes(s[0]);
      ReadItem(Replacement(s[0]), tail);
    } else {
      PlainClosing([s[0]], tail);
    }
  }

  // ---------------------------------------------------------------------------------------------
  // Main results for strings and keys
  // ---------------------------------------------------------------------------------------------

  lemma ScanPlaced(p: Printing, s: string, after: string)
    ensures var r := Scan(['\"'] + Placed(p, s, after));
            var t := Placed(p, s, after);
            && (r.token.StringToken? || r.token == Error)
            && (r.token.StringToken? ==> Decode(r.token.raw) == Read(t) && Left(t) == |r.rest| + 1)
            && (Left(t) > 0 ==> r.token.StringToken?)
            && (Left(t) == |after| + 1 ==> r.rest == after)
  {
    hide Closing, Decode, Scan, Printed;
    ScanQuote(Placed(p, s, after));
  }

  lemma ReadBack(p: Printing, s: string, after: string)
    requires Characters(p, s)
    ensures var r := Scan(['\"'] + Placed(p, s, after));
            r.token.StringToken? && r.rest == after && Decode(r.token.raw) == s <==> Faithful(p, s)
  {
    hide Scan, Placed, Read, Left, MustEscape, Decode;
    ScanPlaced(p, s, after);
    if Faithful(p, s) {
      ReadsBack(p, s, after);
    } else if Left(Placed(p, s, after)) == |after| + 1 {
      NotReadBack(p, s, after);
    }
  }

  /** What is printed for a string, in its quotes, is read as one string token with the same contents
      if and only if the string has no backslash. */
  lemma ReadBackExactly(signedChar: bool, s: string, rest: string)
    requires Bytes(s)
    ensures var r := Scan(['\"'] + (EscapedText(signedChar, s) + (['\"'] + rest)));
            r.token.StringToken? && r.rest == rest && Decode(r.token.raw) == s <==> '\\' !in s
  {
    hide Scan, Decode, EscapedText;
    ReadBack(Escaping(signedChar), s, rest);
    assert Faithful(Escaping(signedChar), s) <==> '\\' !in s;
  }

  /** A printed key is read back if and only if it has neither quote nor backslash. */
  lemma KeyReadBackExactly(key: string, rest: string)
    ensures var r := Scan(['\"'] + (key + (['\"'] + rest)));
            r.token.StringToken? && r.rest == rest && Decode(r.token.raw) == key <==> '\"' !in key && '\\' !in key
  {
    hide Scan, Decode;
    ReadBack(Verbatim, key, rest);
    assert Faithful(Verbatim, key) <==> '\"' !in key && '\\' !in key;
  }
}
