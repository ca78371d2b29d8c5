/** The printed text itself, character by character: what a string, a list and a dict become in canonical
    text and in a report file. */
module PrintedText {
  import opened Text
  import opened Json
  import opened JsonCanonical

  /* ---------- strings ---------- */

  predicate IsLowerHex(c: char) {
    '0' <= c <= '9' || 'a' <= c <= 'f'
  }

  function HexPlace(c: char): nat
    requires IsLowerHex(c)
  {
    if c <= '9' then c as int - '0' as int else c as int - 'a' as int + 10
  }

  /** The value of a hexadecimal numeral. */
  function HexNumber(s: string): nat
    requires forall i | 0 <= i < |s| :: IsLowerHex(s[i])
  {
    if s == "" then 0 else HexNumber(s[..|s| - 1]) * 16 + HexPlace(s[|s| - 1])
  }

  /** A backslash, a `u` and four lower-case hexadecimal digits for this UTF-16 unit. */
  predicate IsUnit(t: string, unit: nat) {
    && |t| == 6 && t[..2] == "\\u"
    && (forall i | 0 <= i < 4 :: IsLowerHex(t[2..][i]))
    && HexNumber(t[2..]) == unit
  }

  lemma HexDigitIs(d: nat)
    requires d < 16
    ensures IsLowerHex(HexDigit(d)) && HexNumber([HexDigit(d)]) == d
  {
    assert [HexDigit(d)][..0] == "";
  }

  lemma {:induction false} HexNumberAppend(s: string, d: nat)
    requires d < 16 && forall i | 0 <= i < |s| :: IsLowerHex(s[i])
    ensures IsLowerHex(HexDigit(d)) && HexNumber(s + [HexDigit(d)]) == HexNumber(s) * 16 + d
  {
    HexDigitIs(d);
    assert (s + [HexDigit(d)])[..|s|] == s;
  }

  lemma UnicodeEscapeIsUnit(unit: nat)
    requires unit < 0x1_0000
    ensures IsUnit(UnicodeEscape(unit), unit)
  {
    var a, b, c, d := unit / 0x1000, unit / 0x100 % 16, unit / 16 % 16, unit % 16;
    hide HexDigit, HexNumber;
    FourHexDigits(a, b, c, d);
    UnitDigits(unit);
    assert UnicodeEscape(unit)[2..] == [HexDigit(a), HexDigit(b), HexDigit(c), HexDigit(d)];
  }

  lemma FourHexDigits(a: nat, b: nat, c: nat, d: nat)
    requires a < 16 && b < 16 && c < 16 && d < 16
    ensures
      var s := [HexDigit(a), HexDigit(b), HexDigit(c), HexDigit(d)];
      (forall i | 0 <= i < 4 :: IsLowerHex(s[i])) && HexNumber(s) == ((a * 16 + b) * 16 + c) * 16 + d
  {
    hide HexDigit, HexNumber;
    HexDigitIs(a);
    HexNumberAppend([HexDigit(a)], b);
    HexNumberAppend([HexDigit(a), HexDigit(b)], c);
    HexNumberAppend([HexDigit(a), HexDigit(b), HexDigit(c)], d);
    assert [HexDigit(a)] + [HexDigit(b)] == [HexDigit(a), HexDigit(b)];
    assert [HexDigit(a), HexDigit(b)] + [HexDigit(c)] == [HexDigit(a), HexDigit(b), HexDigit(c)];
    var three := [HexDigit(a), HexDigit(b), HexDigit(c)];
    assert three + [HexDigit(d)] == [HexDigit(a), HexDigit(b), HexDigit(c), HexDigit(d)];
  }

  lemma UnitDigits(unit: nat)
    requires unit < 0x1_0000
    ensures ((unit / 0x1000 * 16 + unit / 0x100 % 16) * 16 + unit / 16 % 16) * 16 + unit % 16 == unit
  {
    assert unit / 0x100 == unit / 0x1000 * 16 + unit / 0x100 % 16;
    assert unit / 16 == unit / 0x100 * 16 + unit / 16 % 16;
  }

  /** Characters that JSON lets stand for themselves. */
  predicate IsPlain(c: char) {
    ' ' <= c && c != '"' && c != '\\'
  }

  /** What a character becomes: itself, one of seven short escapes, or one or two units. */
  ghost predicate IsPrinted(c: char, ascii: bool, t: string) {
    if c == '"' then t == "\\\""
    else if c == '\\' then t == "\\\\"
    else if c == '\n' then t == "\\n"
    else if c == '\r' then t == "\\r"
    else if c == '\t' then t == "\\t"
    else if c as int == 8 then t == "\\b"
    else if c as int == 12 then t == "\\f"
    else if c < ' ' then IsUnit(t, c as int)
    else if !ascii || c as int < 127 then t == [c]
    else if c as int < 0x1_0000 then IsUnit(t, c as int)
    else exists high: nat, low: nat :: IsPair(t, c, high, low)
  }

  /** The two units of a surrogate pair. */
  predicate IsPair(t: string, c: char, high: nat, low: nat) {
    && high < 0x400 && low < 0x400 && c as int == 0x1_0000 + high * 0x400 + low
    && |t| == 12 && IsUnit(t[..6], 0xD800 + high) && IsUnit(t[6..], 0xDC00 + low)
  }

  lemma EscapeCharIsPrinted(c: char, ascii: bool)
    ensures IsPrinted(c, ascii, EscapeChar(c, ascii))
  {
    hide UnicodeEscape, IsUnit;
    if c as int < 0x1_0000 {
      UnicodeEscapeIsUnit(c as int);
    } else {
      AstralIsPrinted(c);
    }
  }

  lemma AstralIsPrinted(c: char)
    requires c as int >= 0x1_0000
    ensures IsPrinted(c, true, UnicodeEscape(HighSurrogate(c as int)) + UnicodeEscape(LowSurrogate(c as int)))
  {
    hide UnicodeEscape, IsUnit;
    var high, low := (c as int - 0x1_0000) / 0x400, (c as int - 0x1_0000) % 0x400;
    UnicodeEscapeIsUnit(0xD800 + high);
    UnicodeEscapeIsUnit(0xDC00 + low);
    PairOfUnits(UnicodeEscape(0xD800 + high), UnicodeEscape(0xDC00 + low), c, high, low);
  }

  lemma PairOfUnits(a: string, b: string, c: char, high: nat, low: nat)
    requires high < 0x400 && low < 0x400 && c as int == 0x1_0000 + high * 0x400 + low
    requires IsUnit(a, 0xD800 + high) && IsUnit(b, 0xDC00 + low)
    ensures IsPair(a + b, c, high, low)
  {
    assert |a| == 6 && |b| == 6;
    hide HexNumber;
    assert (a + b)[..6] == a && (a + b)[6..] == b;
  }

  /** The texts of the characters of a string, in order. */
  ghost predicate ArePrinted(s: string, ascii: bool, texts: seq<string>) {
    |texts| == |s| && forall i | 0 <= i < |s| :: IsPrinted(s[i], ascii, texts[i])
  }

  function Concat(texts: seq<string>): string {
    if texts == [] then "" else texts[0] + Concat(texts[1..])
  }

  lemma {:induction false} EscapeIsConcat(s: string, ascii: bool) returns (texts: seq<string>)
    ensures ArePrinted(s, ascii, texts) && Escape(s, ascii) == Concat(texts)
  {
    hide IsPrinted, EscapeChar;
    if s == "" {
      texts := [];
    } else {
      EscapeCharIsPrinted(s[0], ascii);
      var rest := EscapeIsConcat(s[1..], ascii);
      texts := [EscapeChar(s[0], ascii)] + rest;
      assert texts[1..] == rest;
    }
  }

  /** Canonical text of a string: a quote, what each character becomes with nothing escaped that need not
      be, and a quote. */
  lemma CanonicalString(s: string)
    ensures exists texts :: ArePrinted(s, false, texts) && Canonicalize(Str(s)) == "\"" + Concat(texts) + "\""
  {
    var texts := EscapeIsConcat(s, false);
  }

  /** So a string without controls, quotes and backslashes is only put in quotes. */
  lemma {:induction false} PlainStringIsQuoted(s: string)
    requires forall i | 0 <= i < |s| :: IsPlain(s[i])
    ensures Canonicalize(Str(s)) == "\"" + s + "\""
  {
    PlainIsKept(s);
  }

  lemma {:induction false} PlainIsKept(s: string)
    requires forall i | 0 <= i < |s| :: IsPlain(s[i])
    ensures Escape(s, false) == s
  {
    if s != "" {
      PlainIsKept(s[1..]);
      assert s == [s[0]] + s[1..];
    }
  }

  /** In a report file all characters beyond ASCII are escaped. */
  lemma ReportString(s: string, depth: nat)
    ensures exists texts :: ArePrinted(s, true, texts) && Print(Str(s), PRETTY, depth) == "\"" + Concat(texts) + "\""
    ensures Print(Str(s), PRETTY_SORTED, depth) == Print(Str(s), PRETTY, depth)
  {
    var texts := EscapeIsConcat(s, true);
  }

  /* ---------- lists and dicts ---------- */

  function Joined(parts: seq<string>, separator: string): string {
    if parts == [] then "" else if |parts| == 1 then parts[0] else parts[0] + separator + Joined(parts[1..], separator)
  }

  /** The texts of the items of a list. */
  function ItemTexts(items: seq<Json>, style: Style, depth: nat): seq<string> {
    if items == [] then [] else [Print(items[0], style, depth)] + ItemTexts(items[1..], style, depth)
  }

  function EntryTexts(entries: seq<Entry>, colon: string, style: Style, depth: nat): seq<string> {
    if entries == [] then []
    else
      [Print(Str(entries[0].key), style, depth) + colon + Print(entries[0].value, style, depth)]
      + EntryTexts(entries[1..], colon, style, depth)
  }

  lemma JoinedCons(first: string, rest: seq<string>, separator: string)
    ensures Joined([first] + rest, separator)
         == if rest == [] then first else first + separator + Joined(rest, separator)
  {
    assert ([first] + rest)[1..] == rest;
  }

  lemma Comma(first: string, br: string, rest: string)
    ensures first + ("," + br + rest) == first + ("," + br) + rest
  {}

  lemma {:induction false} ItemsAreJoined(items: seq<Json>, style: Style, depth: nat)
    requires items != []
    ensures PrintItems(items, style, depth) == Joined(ItemTexts(items, style, depth), "," + Break(style, depth))
  {
    hide Print, Break, Joined;
    var first, br := Print(items[0], style, depth), Break(style, depth);
    JoinedCons(first, ItemTexts(items[1..], style, depth), "," + br);
    if |items| > 1 {
      ItemsAreJoined(items[1..], style, depth);
      Comma(first, br, PrintItems(items[1..], style, depth));
    }
  }

  lemma {:induction false} EntriesAreJoined(entries: seq<Entry>, style: Style, depth: nat)
    requires entries != []
    ensures PrintEntries(entries, style, depth)
         == Joined(EntryTexts(entries, Colon(style), style, depth), "," + Break(style, depth))
  {
    EntryIsText(entries[0], style, depth);
    hide Print, Break, PrintEntry, Colon, Joined;
    var first, br := PrintEntry(entries[0], style, depth), Break(style, depth);
    JoinedCons(first, EntryTexts(entries[1..], Colon(style), style, depth), "," + br);
    if |entries| > 1 {
      EntriesAreJoined(entries[1..], style, depth);
      Comma(first, br, PrintEntries(entries[1..], style, depth));
    }
  }

  lemma EntryIsText(e: Entry, style: Style, depth: nat)
    ensures PrintEntry(e, style, depth) == Print(Str(e.key), style, depth) + Colon(style) + Print(e.value, style, depth)
  {}

  /** A new line and two blanks for each level. */
  predicate IsLine(t: string, depth: nat) {
    |t| == 1 + 2 * depth && t[0] == '\n' && forall i | 1 <= i < |t| :: t[i] == ' '
  }

  /** How a report file lays out a list: one item a line, two blanks deeper than its brackets. */
  lemma ReportList(items: seq<Json>, depth: nat) returns (inner: string, outer: string)
    ensures IsLine(inner, depth + 1) && IsLine(outer, depth)
    ensures Print(Arr(items), PRETTY, depth)
         == if items == [] then "[]"
            else "[" + inner + Joined(ItemTexts(items, PRETTY, depth + 1), "," + inner) + outer + "]"
  {
    inner, outer := Break(PRETTY, depth + 1), Break(PRETTY, depth);
    if items != [] {
      ItemsAreJoined(items, PRETTY, depth + 1);
      hide PrintItems, Joined, Break;
      var body := PrintItems(items, PRETTY, depth + 1);
      assert "[" + (inner + body + outer + "]") == "[" + inner + body + outer + "]";
    }
  }

  /** And a dict: one entry a line, in the order of the dict, with a colon and a blank behind the key. */
  lemma ReportDict(entries: seq<Entry>, depth: nat) returns (inner: string, outer: string)
    ensures IsLine(inner, depth + 1) && IsLine(outer, depth)
    ensures Print(Obj(entries), PRETTY, depth)
         == if entries == [] then "{}"
            else "{" + inner + Joined(EntryTexts(entries, ": ", PRETTY, depth + 1), "," + inner) + outer + "}"
  {
    inner, outer := Break(PRETTY, depth + 1), Break(PRETTY, depth);
    if entries != [] {
      EntriesAreJoined(entries, PRETTY, depth + 1);
      hide PrintEntries, Joined, Break;
      var body := PrintEntries(entries, PRETTY, depth + 1);
      assert "{" + (inner + body + outer + "}") == "{" + inner + body + outer + "}";
    }
  }

  /** The one style keeps the order of dicts and the other sorts them; they differ in nothing else. */
  lemma {:induction false} ReportStyles(v: Json)
    ensures Dumps(v, PRETTY) == Print(v, PRETTY, 0)
    ensures Dumps(v, PRETTY_SORTED) == Dumps(SortKeys(v), PRETTY)
  {
    SameLayout(SortKeys(v), 0);
  }

  lemma {:induction false} SameLayout(v: Json, depth: nat)
    ensures Print(v, PRETTY_SORTED, depth) == Print(v, PRETTY, depth)
    decreases v, 1
  {
    match v
    case Arr(items) => if items != [] { SameItems(items, depth + 1); }
    case Obj(entries) => if entries != [] { SameEntries(entries, depth + 1); }
    case _ =>
  }

  lemma {:induction false} SameItems(items: seq<Json>, depth: nat)
    requires items != []
    ensures PrintItems(items, PRETTY_SORTED, depth) == PrintItems(items, PRETTY, depth)
    decreases items, 2
  {
    hide Print;
    SameLayout(items[0], depth);
    if |items| > 1 { SameItems(items[1..], depth); }
  }

  lemma {:induction false} SameEntries(entries: seq<Entry>, depth: nat)
    requires entries != []
    ensures PrintEntries(entries, PRETTY_SORTED, depth) == PrintEntries(entries, PRETTY, depth)
    decreases entries, 2
  {
    hide Print, Quote;
    SameLayout(entries[0].value, depth);
    if |entries| > 1 { SameEntries(entries[1..], depth); }
  }

  /* ---------- canonical lists and dicts ---------- */

  lemma {:induction false} NoDepth(v: Json, depth: nat)
    ensures Print(v, CANONICAL, depth) == Print(v, CANONICAL, 0)
    decreases v, 1
  {
    match v
    case Arr(items) =>
      if items != [] {
        ItemsNoDepth(items, depth + 1);
        ItemsNoDepth(items, 1);
      }
    case Obj(entries) =>
      if entries != [] {
        EntriesNoDepth(entries, depth + 1);
        EntriesNoDepth(entries, 1);
      }
    case _ =>
  }

  lemma {:induction false} ItemsNoDepth(items: seq<Json>, depth: nat)
    requires items != []
    ensures PrintItems(items, CANONICAL, depth) == PrintItems(items, CANONICAL, 0)
    decreases items, 2
  {
    hide Print;
    NoDepth(items[0], depth);
    if |items| > 1 { ItemsNoDepth(items[1..], depth); }
  }

  lemma {:induction false} EntriesNoDepth(entries: seq<Entry>, depth: nat)
    requires entries != []
    ensures PrintEntries(entries, CANONICAL, depth) == PrintEntries(entries, CANONICAL, 0)
    decreases entries, 2
  {
    hide Print, Quote;
    NoDepth(entries[0].value, depth);
    if |entries| > 1 { EntriesNoDepth(entries[1..], depth); }
  }

  function CanonicalItems(items: seq<Json>): seq<string> {
    if items == [] then [] else [Canonicalize(items[0])] + CanonicalItems(items[1..])
  }

  function CanonicalEntries(entries: seq<Entry>): seq<string> {
    if entries == [] then []
    else [Canonicalize(Str(entries[0].key)) + ":" + Canonicalize(entries[0].value)] + CanonicalEntries(entries[1..])
  }

  lemma {:induction false} SortedItemTexts(items: seq<Json>)
    ensures ItemTexts(SortItems(items), CANONICAL, 0) == CanonicalItems(items)
  {
    hide Print;
    if items != [] {
      SortedItemTexts(items[1..]);
      assert SortItems(items)[1..] == SortItems(items[1..]);
    }
  }

  /** Canonical text of a list: the canonical texts of its items between commas. */
  lemma CanonicalList(items: seq<Json>)
    ensures Canonicalize(Arr(items)) == "[" + Joined(CanonicalItems(items), ",") + "]"
  {
    SortedItemTexts(items);
    var sorted := SortItems(items);
    if sorted != [] {
      ItemsNoDepth(sorted, 1);
      ItemsAreJoined(sorted, CANONICAL, 0);
      hide PrintItems, ItemTexts, CanonicalItems, Joined;
      CompactBrackets("[", PrintItems(sorted, CANONICAL, 0), "]");
    } else {
      assert items == [];
    }
  }

  lemma CompactBrackets(open: string, body: string, close: string)
    ensures open + (Break(CANONICAL, 1) + body + Break(CANONICAL, 0) + close) == open + body + close
    ensures "," + Break(CANONICAL, 0) == ","
  {}

  lemma {:induction false} AscendingStays(entries: seq<Entry>)
    requires KeysAscend(entries)
    ensures EntryTexts(SortEntries(entries), ":", CANONICAL, 0) == CanonicalEntries(entries)
    ensures |SortEntries(entries)| == |entries|
    ensures entries != [] ==> SortEntries(entries)[0].key == entries[0].key
  {
    CanonicalIsPrint(entries);
    hide Print, SortKeys, Canonicalize;
    if entries != [] {
      AscendingStays(entries[1..]);
      var e, rest := Entry(entries[0].key, SortKeys(entries[0].value)), SortEntries(entries[1..]);
      if rest != [] {
        assert Less(entries[0].key, entries[1].key);
      }
      assert SortEntries(entries) == [e] + rest;
      assert ([e] + rest)[1..] == rest;
    }
  }

  lemma CanonicalIsPrint(entries: seq<Entry>)
    ensures entries != [] ==> Canonicalize(Str(entries[0].key)) == Print(Str(entries[0].key), CANONICAL, 0)
    ensures entries != [] ==> Canonicalize(entries[0].value) == Print(SortKeys(entries[0].value), CANONICAL, 0)
  {}

  /** Canonical text of a dict whose keys are in order: key, colon and value of each entry between commas. */
  lemma CanonicalDict(entries: seq<Entry>)
    requires KeysAscend(entries)
    ensures Canonicalize(Obj(entries)) == "{" + Joined(CanonicalEntries(entries), ",") + "}"
  {
    AscendingStays(entries);
    var sorted := SortEntries(entries);
    if sorted != [] {
      EntriesNoDepth(sorted, 1);
      EntriesAreJoined(sorted, CANONICAL, 0);
      hide PrintEntries, EntryTexts, CanonicalEntries, Joined;
      CompactBrackets("{", PrintEntries(sorted, CANONICAL, 0), "}");
    }
  }

  /** Canonical text of everything else. */
  lemma CanonicalScalar(n: int)
    ensures Canonicalize(Null) == "null" && Canonicalize(Bool(true)) == "true" && Canonicalize(Bool(false)) == "false"
    ensures Canonicalize(Int(n)) == if n < 0 then "-" + NatText(-n) else NatText(n)
  {}
}
