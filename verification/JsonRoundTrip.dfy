/** The parser undoes the printer, for every value, every style and every nesting depth. */
module JsonRoundTrip {
  import opened Text
  import opened Json

  /** What may follow a printed value: nothing, white space, or the punctuation of a container. */
  predicate Delimits(rest: string) {
    rest == "" || IsSpace(rest[0]) || rest[0] == ',' || rest[0] == ']' || rest[0] == '}'
  }

  predicate AllSpace(s: string) {
    forall i | 0 <= i < |s| :: IsSpace(s[i])
  }

  /* ---------- characters ---------- */

  lemma HexRoundTrip(d: nat)
    requires d < 16
    ensures IsHex(HexDigit(d)) && HexValue(HexDigit(d)) == d
  {}

  lemma Nibbles(unit: nat)
    requires unit < 0x1_0000
    ensures unit / 0x1000 < 16
    ensures (unit / 0x1000) * 0x1000 + (unit / 0x100 % 16) * 0x100 + (unit / 16 % 16) * 16 + unit % 16 == unit
  {}

  lemma UnitRoundTrip(unit: nat, rest: string)
    requires unit < 0x1_0000
    ensures ParseUnit(UnicodeEscape(unit)[1..] + rest) == Some(unit)
  {
    Nibbles(unit);
    var a, b, c, d := unit / 0x1000, unit / 0x100 % 16, unit / 16 % 16, unit % 16;
    HexRoundTrip(a);
    HexRoundTrip(b);
    HexRoundTrip(c);
    HexRoundTrip(d);
    var t := UnicodeEscape(unit)[1..] + rest;
    assert t[0] == 'u' && t[1] == HexDigit(a) && t[2] == HexDigit(b) && t[3] == HexDigit(c) && t[4] == HexDigit(d);
  }

  lemma SurrogatesRoundTrip(c: nat)
    requires 0x1_0000 <= c < 0x11_0000
    ensures 0xD800 <= HighSurrogate(c) < 0xDC00 <= LowSurrogate(c) < 0xE000
    ensures 0x1_0000 + (HighSurrogate(c) - 0xD800) * 0x400 + (LowSurrogate(c) - 0xDC00) == c
  {}

  lemma EscapedUnit(c: char, rest: string)
    requires c as int < 0x1_0000
    ensures ParseUnicode(UnicodeEscape(c as int) + rest) == Ok(c, rest)
  {
    var t := UnicodeEscape(c as int) + rest;
    UnitRoundTrip(c as int, rest);
    assert t[1..] == UnicodeEscape(c as int)[1..] + rest;
    assert t[6..] == rest;
  }

  lemma ParsePair(t: string, high: nat, low: nat)
    requires |t| >= 12 && t[6] == '\\'
    requires ParseUnit(t[1..]) == Some(high) && ParseUnit(t[7..]) == Some(low)
    requires 0xD800 <= high < 0xDC00 <= low < 0xE000
    ensures ParseUnicode(t) == Ok((0x1_0000 + (high - 0xD800) * 0x400 + (low - 0xDC00)) as char, t[12..])
  {}

  lemma PairShape(high: nat, low: nat, rest: string)
    requires high < 0x1_0000 && low < 0x1_0000
    ensures
      var first, second := UnicodeEscape(high), UnicodeEscape(low);
      var t := first + second + rest;
      && |t| >= 12 && t[6] == '\\'
      && t[1..] == first[1..] + (second + rest) && t[7..] == second[1..] + rest && t[12..] == rest
  {}

  lemma EscapedPair(c: char, rest: string)
    requires 0x1_0000 <= c as int
    ensures ParseUnicode(UnicodeEscape(HighSurrogate(c as int)) + UnicodeEscape(LowSurrogate(c as int)) + rest)
         == Ok(c, rest)
  {
    hide ParseUnicode, ParseUnit, UnicodeEscape, HighSurrogate, LowSurrogate;
    SurrogatesRoundTrip(c as int);
    var high, low := HighSurrogate(c as int), LowSurrogate(c as int);
    UnitRoundTrip(high, UnicodeEscape(low) + rest);
    UnitRoundTrip(low, rest);
    PairShape(high, low, rest);
    ParsePair(UnicodeEscape(high) + UnicodeEscape(low) + rest, high, low);
  }

  lemma UnicodeIsParsed(t: string)
    requires |t| > 1 && t[0] == '\\' && t[1] == 'u'
    ensures ParseChar(t) == ParseUnicode(t)
  {}

  lemma CharRoundTrip(c: char, ascii: bool, rest: string)
    ensures EscapeChar(c, ascii) != "" && EscapeChar(c, ascii)[0] != '"'
    ensures ParseChar(EscapeChar(c, ascii) + rest) == Ok(c, rest)
  {
    var e := EscapeChar(c, ascii);
    if |e| == 12 {
      EscapedPair(c, rest);
      UnicodeIsParsed(e + rest);
    } else if |e| == 6 {
      EscapedUnit(c, rest);
      UnicodeIsParsed(e + rest);
    } else if |e| == 2 {
      assert (e + rest)[2..] == rest;
    } else {
      assert (e + rest)[1..] == rest;
    }
  }

  /* ---------- strings ---------- */

  lemma ParseStringStep(t: string, c: char, tail: string, s: string, rest: string)
    requires t != "" && t[0] != '"' && ParseChar(t) == Ok(c, tail) && ParseString(tail) == Ok(s, rest)
    ensures ParseString(t) == Ok([c] + s, rest)
  {}

  lemma EscapeCons(s: string, ascii: bool, close: string)
    requires s != ""
    ensures Escape(s, ascii) + close == EscapeChar(s[0], ascii) + (Escape(s[1..], ascii) + close)
  {}

  lemma CharThenString(c: char, ascii: bool, tail: string, s: string, rest: string)
    requires ParseString(tail) == Ok(s, rest)
    ensures ParseString(EscapeChar(c, ascii) + tail) == Ok([c] + s, rest)
  {
    CharRoundTrip(c, ascii, tail);
    ParseStringStep(EscapeChar(c, ascii) + tail, c, tail, s, rest);
  }

  lemma {:induction false} StringRoundTrip(s: string, ascii: bool, rest: string)
    ensures ParseString(Escape(s, ascii) + ("\"" + rest)) == Ok(s, rest)
  {
    var close := "\"" + rest;
    assert close[1..] == rest;
    if s == "" {
      assert Escape(s, ascii) + close == close;
    } else {
      StringRoundTrip(s[1..], ascii, rest);
      CharThenString(s[0], ascii, Escape(s[1..], ascii) + close, s[1..], rest);
      EscapeCons(s, ascii, close);
      assert [s[0]] + s[1..] == s;
    }
  }

  /* ---------- numbers ---------- */

  lemma {:induction false} NatRoundTrip(n: nat)
    ensures IsWhole(NatText(n)) && NatValue(NatText(n)) == n
    ensures n > 0 ==> NatText(n)[0] != '0'
  {
    if n >= 10 {
      NatRoundTrip(n / 10);
      assert NatText(n)[..|NatText(n)| - 1] == NatText(n / 10);
    }
  }

  lemma {:induction false} SpanOfDigits(digits: string, rest: string)
    requires AllDigits(digits) && (rest == "" || !IsDigit(rest[0]))
    ensures DigitSpan(digits + rest) == |digits|
  {
    if digits == "" {
      assert digits + rest == rest;
    } else {
      SpanOfDigits(digits[1..], rest);
      assert (digits + rest)[1..] == digits[1..] + rest;
    }
  }

  function ExponentText(exponent: string): string {
    if exponent == "" then "" else "e" + exponent
  }

  lemma ExponentSpan(u: string, exponent: string, rest: string)
    requires u == exponent + rest && IsExponent(exponent) && Delimits(rest)
    ensures
      var sign := if Starts(u, '+') || Starts(u, '-') then 1 else 0;
      DigitSpan(u[sign..]) == |exponent| - sign > 0
  {
    var sign := if exponent[0] == '+' || exponent[0] == '-' then 1 else 0;
    assert u[sign..] == exponent[sign..] + rest;
    SpanOfDigits(exponent[sign..], rest);
  }

  lemma ExponentRoundTrip(exponent: string, rest: string)
    requires exponent == "" || IsExponent(exponent)
    requires Delimits(rest)
    ensures ParseExponent(ExponentText(exponent) + rest) == (exponent, rest)
  {
    if exponent == "" {
      assert "" + rest == rest;
    } else {
      hide DigitSpan, IsExponent;
      var t := ExponentText(exponent) + rest;
      var u := exponent + rest;
      assert t[0] == 'e' && t[1..] == u;
      ExponentSpan(u, exponent, rest);
      assert u[..|exponent|] == exponent && u[|exponent|..] == rest;
    }
  }

  lemma FractionRoundTrip(fraction: string, after: string)
    requires AllDigits(fraction) && (after == "" || (after[0] != '.' && !IsDigit(after[0])))
    ensures ParseFraction((if fraction == "" then "" else "." + fraction) + after) == (fraction, after)
  {
    var t := (if fraction == "" then "" else "." + fraction) + after;
    if fraction == "" {
      assert t == after;
    } else {
      assert t[1..] == fraction + after;
      SpanOfDigits(fraction, after);
      assert t[1..][..|fraction|] == fraction && t[1..][|fraction|..] == after;
    }
  }

  /** A number without its sign, as the number pattern takes it apart. */
  lemma UnsignedRoundTrip(x: Number, rest: string)
    requires IsWhole(x.whole) && AllDigits(x.fraction) && (x.exponent == "" || IsExponent(x.exponent)) && Delimits(rest)
    ensures ParseUnsigned(x.whole + LexemeTail(x.fraction, x.exponent) + rest) == Ok(x, rest)
  {
    var after := ExponentText(x.exponent) + rest;
    var dotted := (if x.fraction == "" then "" else "." + x.fraction) + after;
    var u := x.whole + LexemeTail(x.fraction, x.exponent) + rest;
    assert u == x.whole + dotted;
    SpanOfDigits(x.whole, dotted);
    assert u[..|x.whole|] == x.whole && u[|x.whole|..] == dotted;
    FractionRoundTrip(x.fraction, after);
    ExponentRoundTrip(x.exponent, rest);
  }

  lemma NumberIsNotAWord(t: string)
    requires t != "" && (t[0] == '-' || IsDigit(t[0]))
    ensures ParseScalar(t) == ParseNumber(t)
  {
    assert "null"[0] == 'n' && "true"[0] == 't' && "false"[0] == 'f';
  }

  function Signed(negative: bool, u: string): string {
    if negative then "-" + u else u
  }

  lemma NumberRoundTrip(negative: bool, x: Number, rest: string)
    requires IsWhole(x.whole) && AllDigits(x.fraction) && (x.exponent == "" || IsExponent(x.exponent)) && Delimits(rest)
    ensures ParseScalar(Signed(negative, x.whole + LexemeTail(x.fraction, x.exponent) + rest))
         == Ok(NumberValue(negative, x), rest)
  {
    var u := x.whole + LexemeTail(x.fraction, x.exponent) + rest;
    UnsignedRoundTrip(x, rest);
    assert u[0] == x.whole[0];
    assert ("-" + u)[1..] == u;
    NumberIsNotAWord(Signed(negative, u));
  }

  lemma IntTextIsSigned(n: int, m: nat, rest: string)
    requires m == if n < 0 then -n else n
    ensures IntText(n) + rest == Signed(n < 0, NatText(m) + LexemeTail("", "") + rest)
  {
    assert NatText(m) + LexemeTail("", "") == NatText(m);
  }

  lemma LexemeTextIsSigned(f: Lexeme, rest: string)
    ensures LexemeText(f) + rest == Signed(f.negative, f.whole + LexemeTail(f.fraction, f.exponent) + rest)
  {
    var tail := LexemeTail(f.fraction, f.exponent);
    assert LexemeText(f) == if f.negative then "-" + (f.whole + tail) else f.whole + tail;
  }

  lemma IntRoundTrip(n: int, rest: string)
    requires Delimits(rest)
    ensures ParseScalar(IntText(n) + rest) == Ok(Int(n), rest)
  {
    var m: nat := if n < 0 then -n else n;
    NatRoundTrip(m);
    NumberRoundTrip(n < 0, Number(NatText(m), "", ""), rest);
    IntTextIsSigned(n, m, rest);
  }

  lemma FloatRoundTrip(f: Lexeme, rest: string)
    requires IsLexeme(f) && Delimits(rest)
    ensures ParseScalar(LexemeText(f) + rest) == Ok(Float(f), rest)
  {
    NumberRoundTrip(f.negative, Number(f.whole, f.fraction, f.exponent), rest);
    LexemeTextIsSigned(f, rest);
  }

  lemma WordsRoundTrip(rest: string)
    ensures ParseScalar("null" + rest) == Ok(Null, rest)
    ensures ParseScalar("true" + rest) == Ok(Bool(true), rest)
    ensures ParseScalar("false" + rest) == Ok(Bool(false), rest)
  {
    var n, t, f := "null" + rest, "true" + rest, "false" + rest;
    assert n[4..] == rest && t[4..] == rest && f[5..] == rest;
    assert "null" <= n;
    assert t[0] == 't' && "null"[0] == 'n' && "true" <= t;
    assert f[0] == 'f' && "true"[0] == 't' && "false" <= f;
  }

  lemma ScalarRoundTrip(v: Json, style: Style, depth: nat, rest: string)
    requires WellFormed(v) && Delimits(rest) && !v.Str? && !v.Arr? && !v.Obj?
    ensures ParseScalar(Print(v, style, depth) + rest) == Ok(v, rest)
  {
    match v
    case Int(n) => IntRoundTrip(n, rest);
    case Float(f) => FloatRoundTrip(f, rest);
    case _ => WordsRoundTrip(rest);
  }

  /* ---------- white space ---------- */

  lemma {:induction false} SkipSpaces(space: string, t: string)
    requires AllSpace(space) && (t == "" || !IsSpace(t[0]))
    ensures SkipSpace(space + t) == t
  {
    if space == "" {
      assert space + t == t;
    } else {
      SkipSpaces(space[1..], t);
      assert (space + t)[1..] == space[1..] + t;
    }
  }

  lemma BreakIsSpace(style: Style, depth: nat)
    ensures AllSpace(Break(style, depth))
  {}

  /** A printed value starts with nothing that a container's parser skips or takes for its end. */
  lemma PrintedStart(v: Json, style: Style, depth: nat)
    requires WellFormed(v)
    ensures Print(v, style, depth) != "" && !IsSpace(Print(v, style, depth)[0]) && Print(v, style, depth)[0] != ']'
    ensures !v.Str? && !v.Arr? && !v.Obj? ==> Print(v, style, depth)[0] !in "\"[{"
  {
    match v
    case Int(n) => NatRoundTrip(if n < 0 then -n else n);
    case _ =>
  }

  /* ---------- what the parser does, one step at a time ---------- */

  lemma LastItem(t: string, v: Json, gap: string, rest: string)
    requires AllSpace(gap) && ParseValue(t) == Ok(v, gap + ("]" + rest))
    ensures ParseItems(t) == Ok([v], rest)
  {
    SkipSpaces(gap, "]" + rest);
    assert ("]" + rest)[1..] == rest;
  }

  lemma NextItem(t: string, v: Json, gap: string, more: string, items: seq<Json>, rest: string)
    requires AllSpace(gap) && more != "" && !IsSpace(more[0])
    requires ParseValue(t) == Ok(v, "," + (gap + more)) && ParseItems(more) == Ok(items, rest)
    ensures ParseItems(t) == Ok([v] + items, rest)
  {
    hide ParseValue;
    SkipSpaces("", "," + (gap + more));
    assert "" + ("," + (gap + more)) == "," + (gap + more);
    assert ("," + (gap + more))[1..] == gap + more;
    SkipSpaces(gap, more);
  }

  lemma LastEntry(t: string, e: Entry, gap: string, rest: string)
    requires AllSpace(gap) && ParseEntry(t) == Ok(e, gap + ("}" + rest))
    ensures ParseEntries(t) == Ok([e], rest)
  {
    SkipSpaces(gap, "}" + rest);
    assert ("}" + rest)[1..] == rest;
  }

  lemma NextEntry(t: string, e: Entry, gap: string, more: string, entries: seq<Entry>, rest: string)
    requires AllSpace(gap) && more != "" && !IsSpace(more[0])
    requires ParseEntry(t) == Ok(e, "," + (gap + more)) && ParseEntries(more) == Ok(entries, rest)
    ensures ParseEntries(t) == Ok([e] + entries, rest)
  {
    hide ParseEntry;
    SkipSpaces("", "," + (gap + more));
    assert "" + ("," + (gap + more)) == "," + (gap + more);
    assert ("," + (gap + more))[1..] == gap + more;
    SkipSpaces(gap, more);
  }

  lemma OneEntry(t: string, key: string, after: string, gap: string, printed: string, v: Json, rest: string)
    requires Starts(t, '"') && ParseString(t[1..]) == Ok(key, after) && after == ":" + (gap + printed)
    requires AllSpace(gap) && printed != "" && !IsSpace(printed[0]) && ParseValue(printed) == Ok(v, rest)
    ensures ParseEntry(t) == Ok(Entry(key, v), rest)
  {
    SkipSpaces("", after);
    assert "" + after == after && after[1..] == gap + printed;
    SkipSpaces(gap, printed);
  }

  lemma WholeArray(t: string, gap: string, body: string, items: seq<Json>, rest: string)
    requires t == "[" + (gap + body) && AllSpace(gap) && body != "" && !IsSpace(body[0]) && body[0] != ']'
    requires ParseItems(body) == Ok(items, rest)
    ensures ParseValue(t) == Ok(Arr(items), rest)
  {
    assert t[1..] == gap + body;
    SkipSpaces(gap, body);
  }

  lemma WholeObject(t: string, gap: string, body: string, entries: seq<Entry>, rest: string)
    requires t == "{" + (gap + body) && AllSpace(gap) && Starts(body, '"')
    requires ParseEntries(body) == Ok(entries, rest) && UniqueKeys(entries)
    ensures ParseValue(t) == Ok(Obj(entries), rest)
  {
    assert t[1..] == gap + body;
    SkipSpaces(gap, body);
    DictOfUnique(entries);
  }

  lemma {:induction false} PutNewKey(entries: seq<Entry>, key: string, value: Json)
    requires forall i | 0 <= i < |entries| :: entries[i].key != key
    ensures Put(entries, key, value) == entries + [Entry(key, value)]
  {
    if entries != [] {
      PutNewKey(entries[1..], key, value);
      assert entries == [entries[0]] + entries[1..];
    }
  }

  lemma {:induction false} DictOfUnique(entries: seq<Entry>)
    requires UniqueKeys(entries)
    ensures Dict(entries) == entries
  {
    if entries != [] {
      var last := entries[|entries| - 1];
      DictOfUnique(entries[..|entries| - 1]);
      PutNewKey(entries[..|entries| - 1], last.key, last.value);
      assert entries == entries[..|entries| - 1] + [last];
    }
  }

  /* ---------- how printed containers are put together ---------- */

  lemma ArrayText(items: seq<Json>, style: Style, depth: nat, rest: string)
    requires items != []
    ensures Print(Arr(items), style, depth) + rest
         == "[" + (Break(style, depth + 1)
                   + (PrintItems(items, style, depth + 1) + (Break(style, depth) + ("]" + rest))))
  {
    hide Break, PrintItems;
    Brackets("[", Break(style, depth + 1), PrintItems(items, style, depth + 1), Break(style, depth), "]", rest);
  }

  lemma Brackets(open: string, before: string, body: string, after: string, close: string, rest: string)
    ensures open + (before + body + after + close) + rest == open + (before + (body + (after + (close + rest))))
  {}

  lemma ObjectText(entries: seq<Entry>, style: Style, depth: nat, rest: string)
    requires entries != []
    ensures Print(Obj(entries), style, depth) + rest
         == "{" + (Break(style, depth + 1)
                   + (PrintEntries(entries, style, depth + 1) + (Break(style, depth) + ("}" + rest))))
  {
    hide Break, PrintEntries;
    Brackets("{", Break(style, depth + 1), PrintEntries(entries, style, depth + 1), Break(style, depth), "}", rest);
  }

  lemma ItemsText(items: seq<Json>, style: Style, depth: nat, close: string)
    requires |items| > 1
    ensures PrintItems(items, style, depth) + close
         == Print(items[0], style, depth)
            + ("," + (Break(style, depth) + (PrintItems(items[1..], style, depth) + close)))
  {}

  lemma EntriesText(entries: seq<Entry>, style: Style, depth: nat, close: string)
    requires |entries| > 1
    ensures PrintEntries(entries, style, depth) + close
         == PrintEntry(entries[0], style, depth)
            + ("," + (Break(style, depth) + (PrintEntries(entries[1..], style, depth) + close)))
  {}

  lemma EntryText(e: Entry, style: Style, depth: nat, rest: string)
    ensures PrintEntry(e, style, depth) + rest
         == "\"" + (Escape(e.key, style.ascii)
                    + ("\"" + (":" + (ColonGap(style) + (Print(e.value, style, depth) + rest)))))
  {}

  function ColonGap(style: Style): string {
    if style.layout.Compact? then "" else " "
  }

  lemma EmptyContainers(rest: string)
    ensures ParseValue("[]" + rest) == Ok(Arr([]), rest)
    ensures ParseValue("{}" + rest) == Ok(Obj([]), rest)
  {
    var a, o := "[]" + rest, "{}" + rest;
    assert a[1..] == "]" + rest && a[2..] == rest && o[1..] == "}" + rest && o[2..] == rest;
    SkipSpaces("", "]" + rest);
    SkipSpaces("", "}" + rest);
    assert "" + ("]" + rest) == "]" + rest && "" + ("}" + rest) == "}" + rest;
  }

  lemma PrintedItemsStart(items: seq<Json>, style: Style, depth: nat)
    requires items != [] && WellFormed(items[0])
    ensures var p := PrintItems(items, style, depth); p != "" && !IsSpace(p[0]) && p[0] != ']'
  {
    PrintedStart(items[0], style, depth);
  }

  lemma PrintedEntriesStart(entries: seq<Entry>, style: Style, depth: nat)
    requires entries != []
    ensures Starts(PrintEntries(entries, style, depth), '"')
  {}

  lemma QuotedValue(s: string, ascii: bool, rest: string)
    ensures ParseValue(Quote(s, ascii) + rest) == Ok(Str(s), rest)
  {
    hide Escape, ParseString;
    StringRoundTrip(s, ascii, rest);
    assert (Quote(s, ascii) + rest)[1..] == Escape(s, ascii) + ("\"" + rest);
  }

  lemma ScalarValue(v: Json, style: Style, depth: nat, rest: string)
    requires WellFormed(v) && Delimits(rest) && !v.Str? && !v.Arr? && !v.Obj?
    ensures ParseValue(Print(v, style, depth) + rest) == Ok(v, rest)
  {
    PrintedStart(v, style, depth);
    ScalarRoundTrip(v, style, depth, rest);
    var t := Print(v, style, depth) + rest;
    assert t[0] == Print(v, style, depth)[0];
  }

  /* ---------- values ---------- */

  lemma {:induction false} ValueRoundTrip(v: Json, style: Style, depth: nat, rest: string)
    requires WellFormed(v) && Delimits(rest)
    ensures ParseValue(Print(v, style, depth) + rest) == Ok(v, rest)
    decreases v, 1
  {
    match v
    case Str(s) => QuotedValue(s, style.ascii, rest);
    case Arr(items) =>
      if items == [] {
        EmptyContainers(rest);
      } else {
        ArrayRoundTrip(items, style, depth, rest);
      }
    case Obj(entries) =>
      if entries == [] {
        EmptyContainers(rest);
      } else {
        ObjectRoundTrip(entries, style, depth, rest);
      }
    case _ => ScalarValue(v, style, depth, rest);
  }

  lemma {:induction false} ArrayRoundTrip(items: seq<Json>, style: Style, depth: nat, rest: string)
    requires items != [] && forall i | 0 <= i < |items| :: WellFormed(items[i])
    ensures ParseValue(Print(Arr(items), style, depth) + rest) == Ok(Arr(items), rest)
    decreases items, 3
  {
    hide Print, PrintItems, ParseValue, ParseItems, Break;
    var gap := Break(style, depth + 1);
    var close := Break(style, depth) + ("]" + rest);
    BreakIsSpace(style, depth);
    ItemsRoundTrip(items, style, depth + 1, Break(style, depth), rest);
    PrintedItemsStart(items, style, depth + 1);
    BreakIsSpace(style, depth + 1);
    ArrayText(items, style, depth, rest);
    WholeArray(Print(Arr(items), style, depth) + rest, gap, PrintItems(items, style, depth + 1) + close, items, rest);
  }

  lemma {:induction false} ObjectRoundTrip(entries: seq<Entry>, style: Style, depth: nat, rest: string)
    requires entries != [] && UniqueKeys(entries) && forall i | 0 <= i < |entries| :: WellFormed(entries[i].value)
    ensures ParseValue(Print(Obj(entries), style, depth) + rest) == Ok(Obj(entries), rest)
    decreases entries, 3
  {
    hide Print, PrintEntries, ParseValue, ParseEntries, Break;
    var gap := Break(style, depth + 1);
    var close := Break(style, depth) + ("}" + rest);
    BreakIsSpace(style, depth);
    EntriesRoundTrip(entries, style, depth + 1, Break(style, depth), rest);
    PrintedEntriesStart(entries, style, depth + 1);
    BreakIsSpace(style, depth + 1);
    ObjectText(entries, style, depth, rest);
    WholeObject(Print(Obj(entries), style, depth) + rest, gap, PrintEntries(entries, style, depth + 1) + close,
                entries, rest);
  }

  lemma {:induction false} ItemsRoundTrip(items: seq<Json>, style: Style, depth: nat, gap: string, rest: string)
    requires items != [] && AllSpace(gap) && forall i | 0 <= i < |items| :: WellFormed(items[i])
    ensures ParseItems(PrintItems(items, style, depth) + (gap + ("]" + rest))) == Ok(items, rest)
    decreases items, 2
  {
    var close := gap + ("]" + rest);
    var first := Print(items[0], style, depth);
    assert items == [items[0]] + items[1..];
    if |items| == 1 {
      ValueRoundTrip(items[0], style, depth, close);
      LastItem(first + close, items[0], gap, rest);
      assert items == [items[0]];
    } else {
      var body := PrintItems(items[1..], style, depth) + close;
      var tail := "," + (Break(style, depth) + body);
      ValueRoundTrip(items[0], style, depth, tail);
      ItemsRoundTrip(items[1..], style, depth, gap, rest);
      PrintedItemsStart(items[1..], style, depth);
      BreakIsSpace(style, depth);
      NextItem(first + tail, items[0], Break(style, depth), body, items[1..], rest);
      ItemsText(items, style, depth, close);
    }
  }

  lemma {:induction false} EntriesRoundTrip(entries: seq<Entry>, style: Style, depth: nat, gap: string, rest: string)
    requires entries != [] && AllSpace(gap) && forall i | 0 <= i < |entries| :: WellFormed(entries[i].value)
    ensures ParseEntries(PrintEntries(entries, style, depth) + (gap + ("}" + rest))) == Ok(entries, rest)
    decreases entries, 2
  {
    var close := gap + ("}" + rest);
    var first := PrintEntry(entries[0], style, depth);
    assert entries == [entries[0]] + entries[1..];
    if |entries| == 1 {
      EntryRoundTrip(entries[0], style, depth, close);
      LastEntry(first + close, entries[0], gap, rest);
      assert entries == [entries[0]];
    } else {
      var body := PrintEntries(entries[1..], style, depth) + close;
      var tail := "," + (Break(style, depth) + body);
      EntryRoundTrip(entries[0], style, depth, tail);
      EntriesRoundTrip(entries[1..], style, depth, gap, rest);
      PrintedEntriesStart(entries[1..], style, depth);
      BreakIsSpace(style, depth);
      NextEntry(first + tail, entries[0], Break(style, depth), body, entries[1..], rest);
      EntriesText(entries, style, depth, close);
    }
  }

  lemma {:induction false} EntryRoundTrip(e: Entry, style: Style, depth: nat, rest: string)
    requires WellFormed(e.value) && Delimits(rest)
    ensures ParseEntry(PrintEntry(e, style, depth) + rest) == Ok(e, rest)
    decreases e, 2
  {
    var printed := Print(e.value, style, depth) + rest;
    var after := ":" + (ColonGap(style) + printed);
    var t := PrintEntry(e, style, depth) + rest;
    EntryText(e, style, depth, rest);
    assert t[1..] == Escape(e.key, style.ascii) + ("\"" + after);
    StringRoundTrip(e.key, style.ascii, after);
    ValueRoundTrip(e.value, style, depth, rest);
    PrintedStart(e.value, style, depth);
    OneEntry(t, e.key, after, ColonGap(style), printed, e.value, rest);
  }

  /** Main result: what any style prints, with any white space around it, loads as the value printed. */
  lemma LoadsOfPrint(v: Json, style: Style, before: string, after: string)
    requires WellFormed(v) && AllSpace(before) && AllSpace(after)
    ensures Loads(before + Print(v, style, 0) + after) == Some(v)
  {
    PrintedStart(v, style, 0);
    SkipSpaces(before, Print(v, style, 0) + after);
    assert before + Print(v, style, 0) + after == before + (Print(v, style, 0) + after);
    ValueRoundTrip(v, style, 0, after);
    SkipSpaces(after, "");
    assert after + "" == after;
  }
}
