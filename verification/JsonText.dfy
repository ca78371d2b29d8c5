/** Two rules about the printed text itself: canonical text has no insignificant white space, and the
    styles that escape keep to ASCII. */
module JsonText {
  import opened Json
  import opened JsonRoundTrip
  import opened JsonCanonical

  /* ---------- no white space outside strings ---------- */

  /** Reading from outside any string, white space occurs only inside strings. */
  predicate Gapless(t: string)
    decreases |t|
  {
    if t == "" then true
    else if t[0] == '"' then ParseString(t[1..]).Ok? && Gapless(ParseString(t[1..]).rest)
    else !IsSpace(t[0]) && Gapless(t[1..])
  }

  predicate Solid(s: string) {
    forall i | 0 <= i < |s| :: !IsSpace(s[i]) && s[i] != '"'
  }

  lemma {:induction false} SolidThenGapless(s: string, rest: string)
    requires Solid(s) && Gapless(rest)
    ensures Gapless(s + rest)
  {
    if s == "" {
      assert s + rest == rest;
    } else {
      SolidThenGapless(s[1..], rest);
      assert (s + rest)[1..] == s[1..] + rest;
    }
  }

  lemma QuoteThenGapless(s: string, ascii: bool, rest: string)
    requires Gapless(rest)
    ensures Gapless(Quote(s, ascii) + rest)
  {
    hide Escape, ParseString;
    StringRoundTrip(s, ascii, rest);
    assert (Quote(s, ascii) + rest)[1..] == Escape(s, ascii) + ("\"" + rest);
  }

  lemma {:induction false} NatTextIsDigits(n: nat)
    ensures AllDigits(NatText(n))
  {
    if n >= 10 { NatTextIsDigits(n / 10); }
  }

  lemma DigitsAreSolid(s: string)
    requires AllDigits(s)
    ensures Solid(s)
  {}

  lemma SolidAppend(a: string, b: string)
    requires Solid(a) && Solid(b)
    ensures Solid(a + b)
  {}

  lemma ScalarIsSolid(v: Json, style: Style, depth: nat)
    requires WellFormed(v) && !v.Str? && !v.Arr? && !v.Obj?
    ensures Solid(Print(v, style, depth))
  {
    match v
    case Int(n) =>
      NatTextIsDigits(if n < 0 then -n else n);
      DigitsAreSolid(NatText(if n < 0 then -n else n));
    case Float(f) =>
      DigitsAreSolid(f.whole);
      DigitsAreSolid(f.fraction);
      ExponentIsSolid(f.exponent);
      SolidAppend(f.whole, LexemeTail(f.fraction, f.exponent));
    case _ =>
  }

  lemma ExponentIsSolid(e: string)
    requires e == "" || IsExponent(e)
    ensures Solid(e)
  {
    if e != "" && (e[0] == '+' || e[0] == '-') {
      DigitsAreSolid(e[1..]);
      assert e == [e[0]] + e[1..];
    }
  }

  /** Canonical text has no insignificant white space. */
  lemma CanonicalIsGapless(v: Json)
    requires WellFormed(v)
    ensures Gapless(Canonicalize(v))
  {
    SortKeysFacts(v);
    CompactIsGapless(SortKeys(v), CANONICAL, 0, "");
    assert Print(SortKeys(v), CANONICAL, 0) + "" == Canonicalize(v);
  }

  lemma {:induction false} CompactIsGapless(v: Json, style: Style, depth: nat, rest: string)
    requires WellFormed(v) && style.layout.Compact? && Gapless(rest)
    ensures Gapless(Print(v, style, depth) + rest)
    decreases v, 1
  {
    match v
    case Str(s) => QuoteThenGapless(s, style.ascii, rest);
    case Arr(items) =>
      if items == [] {
        SolidThenGapless("[]", rest);
      } else {
        SolidThenGapless("]", rest);
        ItemsAreGapless(items, style, depth + 1, "]" + rest);
        ArrayText(items, style, depth, rest);
        CompactBreaks(style, depth, "]" + rest);
        CompactBreaks(style, depth + 1, PrintItems(items, style, depth + 1) + ("]" + rest));
        SolidThenGapless("[", PrintItems(items, style, depth + 1) + ("]" + rest));
      }
    case Obj(entries) =>
      if entries == [] {
        SolidThenGapless("{}", rest);
      } else {
        SolidThenGapless("}", rest);
        EntriesAreGapless(entries, style, depth + 1, "}" + rest);
        ObjectText(entries, style, depth, rest);
        CompactBreaks(style, depth, "}" + rest);
        CompactBreaks(style, depth + 1, PrintEntries(entries, style, depth + 1) + ("}" + rest));
        SolidThenGapless("{", PrintEntries(entries, style, depth + 1) + ("}" + rest));
      }
    case _ =>
      ScalarIsSolid(v, style, depth);
      SolidThenGapless(Print(v, style, depth), rest);
  }

  lemma CompactBreaks(style: Style, depth: nat, rest: string)
    requires style.layout.Compact?
    ensures Break(style, depth) + rest == rest
  {}

  lemma {:induction false} ItemsAreGapless(items: seq<Json>, style: Style, depth: nat, rest: string)
    requires items != [] && style.layout.Compact? && Gapless(rest)
    requires forall i | 0 <= i < |items| :: WellFormed(items[i])
    ensures Gapless(PrintItems(items, style, depth) + rest)
    decreases items, 2
  {
    hide Gapless, Print, WellFormed;
    if |items| == 1 {
      CompactIsGapless(items[0], style, depth, rest);
    } else {
      var body := PrintItems(items[1..], style, depth) + rest;
      ItemsAreGapless(items[1..], style, depth, rest);
      SolidThenGapless(",", body);
      CompactBreaks(style, depth, body);
      CompactIsGapless(items[0], style, depth, "," + body);
      ItemsText(items, style, depth, rest);
    }
  }

  lemma {:induction false} EntriesAreGapless(entries: seq<Entry>, style: Style, depth: nat, rest: string)
    requires entries != [] && style.layout.Compact? && Gapless(rest)
    requires forall i | 0 <= i < |entries| :: WellFormed(entries[i].value)
    ensures Gapless(PrintEntries(entries, style, depth) + rest)
    decreases entries, 2
  {
    hide Gapless, PrintEntry, WellFormed;
    if |entries| == 1 {
      EntryIsGapless(entries[0], style, depth, rest);
    } else {
      var body := PrintEntries(entries[1..], style, depth) + rest;
      EntriesAreGapless(entries[1..], style, depth, rest);
      SolidThenGapless(",", body);
      CompactBreaks(style, depth, body);
      EntryIsGapless(entries[0], style, depth, "," + body);
      EntriesText(entries, style, depth, rest);
    }
  }

  lemma {:induction false} EntryIsGapless(e: Entry, style: Style, depth: nat, rest: string)
    requires style.layout.Compact? && WellFormed(e.value) && Gapless(rest)
    ensures Gapless(PrintEntry(e, style, depth) + rest)
    decreases e, 2
  {
    hide Gapless, Print, Quote, WellFormed;
    var printed := Print(e.value, style, depth) + rest;
    CompactIsGapless(e.value, style, depth, rest);
    SolidThenGapless(":", printed);
    QuoteThenGapless(e.key, style.ascii, ":" + printed);
    assert PrintEntry(e, style, depth) + rest == Quote(e.key, style.ascii) + (":" + printed);
  }

  /* ---------- ASCII ---------- */

  predicate Ascii(s: string) {
    forall i | 0 <= i < |s| :: s[i] <= '~'
  }

  lemma AsciiAppend(a: string, b: string)
    requires Ascii(a) && Ascii(b)
    ensures Ascii(a + b)
  {}

  lemma HexIsAscii(d: nat)
    requires d < 16
    ensures HexDigit(d) <= '~'
  {}

  lemma UnitIsAscii(unit: nat)
    requires unit < 0x1_0000
    ensures Ascii(UnicodeEscape(unit))
  {
    Nibbles(unit);
    HexIsAscii(unit / 0x1000);
    HexIsAscii(unit / 0x100 % 16);
    HexIsAscii(unit / 16 % 16);
    HexIsAscii(unit % 16);
  }

  lemma EscapedCharIsAscii(c: char)
    ensures Ascii(EscapeChar(c, true))
  {
    hide UnicodeEscape, HighSurrogate, LowSurrogate;
    if c as int < 0x1_0000 {
      UnitIsAscii(c as int);
    } else {
      SurrogatesRoundTrip(c as int);
      UnitIsAscii(HighSurrogate(c as int));
      UnitIsAscii(LowSurrogate(c as int));
    }
  }

  lemma {:induction false} EscapeIsAscii(s: string)
    ensures Ascii(Escape(s, true))
  {
    if s != "" {
      EscapedCharIsAscii(s[0]);
      EscapeIsAscii(s[1..]);
    }
  }

  lemma ScalarIsAscii(v: Json, style: Style, depth: nat)
    requires WellFormed(v) && !v.Str? && !v.Arr? && !v.Obj?
    ensures Ascii(Print(v, style, depth))
  {
    match v
    case Int(n) => NatTextIsDigits(if n < 0 then -n else n);
    case Float(f) => LexemeIsAscii(f);
    case _ =>
  }

  lemma LexemeIsAscii(f: Lexeme)
    requires IsLexeme(f)
    ensures Ascii(LexemeText(f))
  {
    assert f.exponent != "" ==> f.exponent == [f.exponent[0]] + f.exponent[1..];
  }

  lemma BreakIsAscii(style: Style, depth: nat)
    ensures Ascii(Break(style, depth))
  {}

  lemma QuoteIsAscii(s: string)
    ensures Ascii(Quote(s, true))
  {
    hide Escape;
    EscapeIsAscii(s);
  }

  lemma BracketsAreAscii(open: string, style: Style, depth: nat, body: string, close: string)
    requires Ascii(open) && Ascii(body) && Ascii(close)
    ensures Ascii(open + (Break(style, depth + 1) + body + Break(style, depth) + close))
  {
    hide Ascii, Break;
    BreakIsAscii(style, depth);
    BreakIsAscii(style, depth + 1);
    AsciiAppend(Break(style, depth + 1), body);
    AsciiAppend(Break(style, depth + 1) + body, Break(style, depth));
    AsciiAppend(Break(style, depth + 1) + body + Break(style, depth), close);
    AsciiAppend(open, Break(style, depth + 1) + body + Break(style, depth) + close);
  }

  lemma CommaIsAscii(head: string, style: Style, depth: nat, tail: string)
    requires Ascii(head) && Ascii(tail)
    ensures Ascii(head + ("," + Break(style, depth) + tail))
  {
    hide Break;
    BreakIsAscii(style, depth);
  }

  /** A style that escapes prints ASCII whatever the value. */
  lemma {:induction false} EscapedPrintIsAscii(v: Json, style: Style, depth: nat)
    requires WellFormed(v) && style.ascii
    ensures Ascii(Print(v, style, depth))
    decreases v, 1
  {
    hide Ascii, Break, PrintItems, PrintEntries, Quote;
    match v
    case Str(s) => QuoteIsAscii(s);
    case Arr(items) =>
      AsciiBrackets();
      if items != [] {
        ItemsAreAscii(items, style, depth + 1);
        BracketsAreAscii("[", style, depth, PrintItems(items, style, depth + 1), "]");
      }
    case Obj(entries) =>
      AsciiBrackets();
      if entries != [] {
        EntriesAreAscii(entries, style, depth + 1);
        BracketsAreAscii("{", style, depth, PrintEntries(entries, style, depth + 1), "}");
      }
    case _ => ScalarIsAscii(v, style, depth);
  }

  lemma AsciiBrackets()
    ensures Ascii("[") && Ascii("]") && Ascii("[]") && Ascii("{") && Ascii("}") && Ascii("{}")
  {}

  lemma {:induction false} ItemsAreAscii(items: seq<Json>, style: Style, depth: nat)
    requires items != [] && style.ascii && forall i | 0 <= i < |items| :: WellFormed(items[i])
    ensures Ascii(PrintItems(items, style, depth))
    decreases items, 2
  {
    hide Print, WellFormed, Ascii, Break;
    EscapedPrintIsAscii(items[0], style, depth);
    if |items| > 1 {
      ItemsAreAscii(items[1..], style, depth);
      CommaIsAscii(Print(items[0], style, depth), style, depth, PrintItems(items[1..], style, depth));
    }
  }

  lemma {:induction false} EntriesAreAscii(entries: seq<Entry>, style: Style, depth: nat)
    requires entries != [] && style.ascii && forall i | 0 <= i < |entries| :: WellFormed(entries[i].value)
    ensures Ascii(PrintEntries(entries, style, depth))
    decreases entries, 2
  {
    hide PrintEntry, WellFormed, Ascii, Break;
    EntryIsAscii(entries[0], style, depth);
    if |entries| > 1 {
      EntriesAreAscii(entries[1..], style, depth);
      CommaIsAscii(PrintEntry(entries[0], style, depth), style, depth, PrintEntries(entries[1..], style, depth));
    }
  }

  lemma {:induction false} EntryIsAscii(e: Entry, style: Style, depth: nat)
    requires style.ascii && WellFormed(e.value)
    ensures Ascii(PrintEntry(e, style, depth))
    decreases e, 2
  {
    hide Print, WellFormed, Quote;
    QuoteIsAscii(e.key);
    EscapedPrintIsAscii(e.value, style, depth);
    AsciiAppend(Colon(style), Print(e.value, style, depth));
    AsciiAppend(Quote(e.key, true), Colon(style) + Print(e.value, style, depth));
  }

  /** What the report file holds, printed with its keys sorted or not, is ASCII. */
  lemma ReportTextIsAscii(v: Json)
    requires WellFormed(v)
    ensures Ascii(Dumps(v, PRETTY)) && Ascii(Dumps(v, PRETTY_SORTED))
  {
    SortKeysFacts(v);
    EscapedPrintIsAscii(v, PRETTY, 0);
    EscapedPrintIsAscii(SortKeys(v), PRETTY_SORTED, 0);
  }
}
