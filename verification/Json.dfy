/** JSON values, the two printers (`json.dumps` as `canonicalize` and as the report renderer call it)
    and the one parser (`json.loads`) that has to undo them both. */
module Json {
  import opened Text

  /** A finite float as its number lexeme: whole part, fraction digits, exponent without the 'e'. */
  datatype Lexeme = Lexeme(negative: bool, whole: string, fraction: string, exponent: string)

  datatype Json =
    | Null
    | Bool(b: bool)
    | Int(n: int)
    | Float(lexeme: Lexeme)
    | Str(s: string)
    | Arr(items: seq<Json>)
    | Obj(entries: seq<Entry>)

  /** A dict entry; a dict is its entries in insertion order. */
  datatype Entry = Entry(key: string, value: Json)

  predicate UniqueKeys(entries: seq<Entry>) {
    forall i, j | 0 <= i < j < |entries| :: entries[i].key != entries[j].key
  }

  /** Dicts have unique keys and float lexemes are number lexemes. */
  predicate WellFormed(v: Json) {
    match v
    case Float(lexeme) => IsLexeme(lexeme)
    case Arr(items) => forall i | 0 <= i < |items| :: WellFormed(items[i])
    case Obj(entries) => UniqueKeys(entries) && forall i | 0 <= i < |entries| :: WellFormed(entries[i].value)
    case _ => true
  }

  /* ---------- digits ---------- */

  predicate IsDigit(c: char) { '0' <= c <= '9' }

  predicate AllDigits(s: string) { forall i | 0 <= i < |s| :: IsDigit(s[i]) }

  predicate IsWhole(s: string) {
    s != "" && AllDigits(s) && (s[0] == '0' ==> s == "0")
  }

  predicate IsExponent(s: string) {
    s != "" && if s[0] == '+' || s[0] == '-' then |s| > 1 && AllDigits(s[1..]) else AllDigits(s)
  }

  predicate IsLexeme(f: Lexeme) {
    && IsWhole(f.whole)
    && AllDigits(f.fraction)
    && (f.exponent == "" || IsExponent(f.exponent))
    && (f.fraction != "" || f.exponent != "")
  }

  function Digit(d: nat): char
    requires d < 10
  {
    ('0' as int + d) as char
  }

  function NatText(n: nat): string {
    if n < 10 then [Digit(n)] else NatText(n / 10) + [Digit(n % 10)]
  }

  function IntText(n: int): string {
    if n < 0 then "-" + NatText(-n) else NatText(n)
  }

  function LexemeText(f: Lexeme): string {
    (if f.negative then "-" else "") + f.whole + LexemeTail(f.fraction, f.exponent)
  }

  function LexemeTail(fraction: string, exponent: string): string {
    (if fraction == "" then "" else "." + fraction) + (if exponent == "" then "" else "e" + exponent)
  }

  /* ---------- strings ---------- */

  function HexDigit(d: nat): char
    requires d < 16
  {
    if d < 10 then ('0' as int + d) as char else ('a' as int + d - 10) as char
  }

  /** A four-digit escape of one UTF-16 unit, lower-case hex. */
  function UnicodeEscape(unit: nat): string
    requires unit < 0x1_0000
  {
    ['\\', 'u', HexDigit(unit / 0x1000), HexDigit(unit / 0x100 % 16), HexDigit(unit / 16 % 16), HexDigit(unit % 16)]
  }

  function HighSurrogate(c: nat): nat
    requires 0x1_0000 <= c < 0x11_0000
  {
    0xD800 + (c - 0x1_0000) / 0x400
  }

  function LowSurrogate(c: nat): nat
    requires 0x1_0000 <= c < 0x11_0000
  {
    0xDC00 + (c - 0x1_0000) % 0x400
  }

  function EscapeChar(c: char, ascii: bool): string {
    if c == '"' then "\\\""
    else if c == '\\' then "\\\\"
    else if c == '\n' then "\\n"
    else if c == '\r' then "\\r"
    else if c == '\t' then "\\t"
    else if c == 8 as char then "\\b"
    else if c == 12 as char then "\\f"
    else if c < ' ' then UnicodeEscape(c as int)
    else if !ascii || c <= '~' then [c]
    else if c as int < 0x1_0000 then UnicodeEscape(c as int)
    else UnicodeEscape(HighSurrogate(c as int)) + UnicodeEscape(LowSurrogate(c as int))
  }

  function Escape(s: string, ascii: bool): string {
    if s == "" then "" else EscapeChar(s[0], ascii) + Escape(s[1..], ascii)
  }

  function Quote(s: string, ascii: bool): string {
    "\"" + Escape(s, ascii) + "\""
  }

  /* ---------- printing ---------- */

  datatype Layout = Compact | Indented(width: nat)

  /** The arguments of `json.dumps` the program uses. */
  datatype Style = Style(ascii: bool, sortKeys: bool, layout: Layout)

  const CANONICAL := Style(false, true, Compact)
  const PRETTY := Style(true, false, Indented(2))
  const PRETTY_SORTED := Style(true, true, Indented(2))

  function Spaces(n: nat): string { seq(n, _ => ' ') }

  function Break(style: Style, depth: nat): string {
    match style.layout
    case Compact => ""
    case Indented(width) => "\n" + Spaces(width * depth)
  }

  function Colon(style: Style): string {
    if style.layout.Compact? then ":" else ": "
  }

  function Print(v: Json, style: Style, depth: nat): string
    decreases v
  {
    match v
    case Null => "null"
    case Bool(b) => if b then "true" else "false"
    case Int(n) => IntText(n)
    case Float(lexeme) => LexemeText(lexeme)
    case Str(s) => Quote(s, style.ascii)
    case Arr(items) =>
      if items == [] then "[]"
      else "[" + (Break(style, depth + 1) + PrintItems(items, style, depth + 1) + Break(style, depth) + "]")
    case Obj(entries) =>
      if entries == [] then "{}"
      else "{" + (Break(style, depth + 1) + PrintEntries(entries, style, depth + 1) + Break(style, depth) + "}")
  }

  function PrintItems(items: seq<Json>, style: Style, depth: nat): string
    requires items != []
    decreases items
  {
    if |items| == 1 then Print(items[0], style, depth)
    else Print(items[0], style, depth) + ("," + Break(style, depth) + PrintItems(items[1..], style, depth))
  }

  function PrintEntry(e: Entry, style: Style, depth: nat): string
    decreases e
  {
    Quote(e.key, style.ascii) + (Colon(style) + Print(e.value, style, depth))
  }

  function PrintEntries(entries: seq<Entry>, style: Style, depth: nat): string
    requires entries != []
    decreases entries
  {
    if |entries| == 1 then PrintEntry(entries[0], style, depth)
    else PrintEntry(entries[0], style, depth) + ("," + Break(style, depth) + PrintEntries(entries[1..], style, depth))
  }

  /* ---------- key order ---------- */

  function InsertEntry(e: Entry, entries: seq<Entry>): seq<Entry> {
    if entries == [] || Leq(e.key, entries[0].key) then [e] + entries
    else [entries[0]] + InsertEntry(e, entries[1..])
  }

  /** What `sort_keys=True` prints instead of the value: every dict in code point order of its keys. */
  function SortKeys(v: Json): Json
    decreases v
  {
    match v
    case Arr(items) => Arr(SortItems(items))
    case Obj(entries) => Obj(SortEntries(entries))
    case _ => v
  }

  function SortItems(items: seq<Json>): seq<Json>
    decreases items
  {
    if items == [] then [] else [SortKeys(items[0])] + SortItems(items[1..])
  }

  function SortEntries(entries: seq<Entry>): seq<Entry>
    decreases entries
  {
    if entries == [] then []
    else InsertEntry(Entry(entries[0].key, SortKeys(entries[0].value)), SortEntries(entries[1..]))
  }

  function Arranged(v: Json, style: Style): Json {
    if style.sortKeys then SortKeys(v) else v
  }

  function Dumps(v: Json, style: Style): string {
    Print(Arranged(v, style), style, 0)
  }

  function Canonicalize(v: Json): string {
    Dumps(v, CANONICAL)
  }

  /* ---------- parsing ---------- */

  datatype Parsed<+T> = Fail | Ok(value: T, rest: string)

  predicate IsSpace(c: char) { c == ' ' || c == '\t' || c == '\n' || c == '\r' }

  function SkipSpace(t: string): (r: string)
    ensures |r| <= |t|
  {
    if t != "" && IsSpace(t[0]) then SkipSpace(t[1..]) else t
  }

  predicate Starts(t: string, c: char) { t != "" && t[0] == c }

  function DigitSpan(t: string): (n: nat)
    ensures n <= |t|
  {
    if t != "" && IsDigit(t[0]) then 1 + DigitSpan(t[1..]) else 0
  }

  function NatValue(s: string): nat
    requires AllDigits(s)
  {
    if s == "" then 0 else NatValue(s[..|s| - 1]) * 10 + (s[|s| - 1] as int - '0' as int)
  }

  lemma {:induction false} SpanIsDigits(t: string)
    ensures AllDigits(t[..DigitSpan(t)])
  {
    if t != "" && IsDigit(t[0]) {
      SpanIsDigits(t[1..]);
      assert t[..DigitSpan(t)] == [t[0]] + t[1..][..DigitSpan(t[1..])];
    }
  }

  function ParseFraction(t: string): (r: (string, string))
    ensures |r.1| <= |t|
  {
    if |t| > 1 && t[0] == '.' && IsDigit(t[1]) then
      var n := DigitSpan(t[1..]);
      (t[1..][..n], t[1..][n..])
    else ("", t)
  }

  function ParseExponent(t: string): (r: (string, string))
    ensures |r.1| <= |t|
  {
    if Starts(t, 'e') || Starts(t, 'E') then
      var u := t[1..];
      var sign := if Starts(u, '+') || Starts(u, '-') then 1 else 0;
      var n := DigitSpan(u[sign..]);
      if n == 0 then ("", t) else (u[..sign + n], u[sign + n..])
    else ("", t)
  }

  /** The digits, fraction and exponent of a number, then what follows it. */
  datatype Number = Number(whole: string, fraction: string, exponent: string)

  function ParseUnsigned(u: string): (r: Parsed<Number>)
    ensures r.Ok? ==> |r.rest| < |u| && AllDigits(r.value.whole)
  {
    var n := if Starts(u, '0') then 1 else DigitSpan(u);
    if n == 0 then Fail
    else
      var (fraction, u1) := ParseFraction(u[n..]);
      var (exponent, u2) := ParseExponent(u1);
      SpanIsDigits(u);
      Ok(Number(u[..n], fraction, exponent), u2)
  }

  function NumberValue(negative: bool, x: Number): Json
    requires AllDigits(x.whole)
  {
    if x.fraction == "" && x.exponent == "" then
      var n: int := NatValue(x.whole);
      Int(if negative then -n else n)
    else Float(Lexeme(negative, x.whole, x.fraction, x.exponent))
  }

  /** The number pattern of `json.scanner`: no leading zeros, no bare dot or exponent mark. */
  function ParseNumber(t: string): (r: Parsed<Json>)
    ensures r.Ok? ==> |r.rest| < |t|
  {
    var negative := Starts(t, '-');
    match ParseUnsigned(if negative then t[1..] else t)
    case Fail => Fail
    case Ok(x, rest) => Ok(NumberValue(negative, x), rest)
  }

  predicate IsHex(c: char) { '0' <= c <= '9' || 'a' <= c <= 'f' || 'A' <= c <= 'F' }

  function HexValue(c: char): (d: nat)
    requires IsHex(c)
    ensures d < 16
  {
    if c <= '9' then c as int - '0' as int
    else if 'a' <= c then c as int - 'a' as int + 10
    else c as int - 'A' as int + 10
  }

  /** The unit of a `uXXXX` escape, without its backslash. */
  function ParseUnit(t: string): (r: Option<nat>)
    ensures r.Some? ==> |t| >= 5 && r.value < 0x1_0000
  {
    if |t| < 5 || t[0] != 'u' || !IsHex(t[1]) || !IsHex(t[2]) || !IsHex(t[3]) || !IsHex(t[4]) then None
    else Some(HexValue(t[1]) * 0x1000 + HexValue(t[2]) * 0x100 + HexValue(t[3]) * 16 + HexValue(t[4]))
  }

  /** One character of a string body, escaped or plain. */
  function ParseChar(t: string): (r: Parsed<char>)
    requires t != ""
    ensures r.Ok? ==> |r.rest| < |t|
  {
    if t[0] != '\\' then (if t[0] < ' ' || t[0] == '"' then Fail else Ok(t[0], t[1..]))
    else if |t| == 1 then Fail
    else if t[1] == '"' || t[1] == '\\' || t[1] == '/' then Ok(t[1], t[2..])
    else if t[1] == 'b' then Ok(8 as char, t[2..])
    else if t[1] == 'f' then Ok(12 as char, t[2..])
    else if t[1] == 'n' then Ok('\n', t[2..])
    else if t[1] == 'r' then Ok('\r', t[2..])
    else if t[1] == 't' then Ok('\t', t[2..])
    else ParseUnicode(t)
  }

  /** A `uXXXX` escape, or two that form a surrogate pair. */
  function ParseUnicode(t: string): (r: Parsed<char>)
    requires t != ""
    ensures r.Ok? ==> |r.rest| < |t|
  {
    match ParseUnit(t[1..])
    case None => Fail
    case Some(unit) =>
      if unit < 0xD800 || 0xE000 <= unit then Ok(unit as char, t[6..])
      else if 0xDC00 <= unit || !Starts(t[6..], '\\') then Fail
      else
        match ParseUnit(t[7..])
        case None => Fail
        case Some(low) =>
          if low < 0xDC00 || 0xE000 <= low then Fail
          else Ok((0x1_0000 + (unit - 0xD800) * 0x400 + (low - 0xDC00)) as char, t[12..])
  }

  /** A string body up to and including its closing quote. */
  function ParseString(t: string): (r: Parsed<string>)
    ensures r.Ok? ==> |r.rest| < |t|
    decreases |t|
  {
    if t == "" then Fail
    else if t[0] == '"' then Ok("", t[1..])
    else
      match ParseChar(t)
      case Fail => Fail
      case Ok(c, t1) =>
        match ParseString(t1)
        case Fail => Fail
        case Ok(s, t2) => Ok([c] + s, t2)
  }

  /** A dict keeps a repeated key at its first place with its last value. */
  function Put(entries: seq<Entry>, key: string, value: Json): seq<Entry> {
    if entries == [] then [Entry(key, value)]
    else if entries[0].key == key then [Entry(key, value)] + entries[1..]
    else [entries[0]] + Put(entries[1..], key, value)
  }

  function Dict(pairs: seq<Entry>): seq<Entry> {
    if pairs == [] then []
    else Put(Dict(pairs[..|pairs| - 1]), pairs[|pairs| - 1].key, pairs[|pairs| - 1].value)
  }

  function ParseScalar(t: string): (r: Parsed<Json>)
    ensures r.Ok? ==> |r.rest| < |t|
  {
    if "null" <= t then Ok(Null, t[4..])
    else if "true" <= t then Ok(Bool(true), t[4..])
    else if "false" <= t then Ok(Bool(false), t[5..])
    else ParseNumber(t)
  }

  function ParseValue(t: string): (r: Parsed<Json>)
    ensures r.Ok? ==> |r.rest| < |t|
    decreases |t|, 1
  {
    if Starts(t, '"') then
      match ParseString(t[1..])
      case Fail => Fail
      case Ok(s, rest) => Ok(Str(s), rest)
    else if Starts(t, '[') then ParseArray(SkipSpace(t[1..]))
    else if Starts(t, '{') then ParseObject(SkipSpace(t[1..]))
    else ParseScalar(t)
  }

  function ParseArray(t: string): (r: Parsed<Json>)
    ensures r.Ok? ==> |r.rest| < |t|
    decreases |t|, 3
  {
    if Starts(t, ']') then Ok(Arr([]), t[1..])
    else
      match ParseItems(t)
      case Fail => Fail
      case Ok(items, rest) => Ok(Arr(items), rest)
  }

  function ParseObject(t: string): (r: Parsed<Json>)
    ensures r.Ok? ==> |r.rest| < |t|
    decreases |t|, 3
  {
    if Starts(t, '}') then Ok(Obj([]), t[1..])
    else
      match ParseEntries(t)
      case Fail => Fail
      case Ok(pairs, rest) => Ok(Obj(Dict(pairs)), rest)
  }

  /** Array items up to and including the closing bracket. */
  function ParseItems(t: string): (r: Parsed<seq<Json>>)
    ensures r.Ok? ==> |r.rest| < |t|
    decreases |t|, 2
  {
    match ParseValue(t)
    case Fail => Fail
    case Ok(v, t1) =>
      var u := SkipSpace(t1);
      if Starts(u, ']') then Ok([v], u[1..])
      else if Starts(u, ',') then
        (match ParseItems(SkipSpace(u[1..]))
         case Fail => Fail
         case Ok(items, rest) => Ok([v] + items, rest))
      else Fail
  }

  /** One dict entry. */
  function ParseEntry(t: string): (r: Parsed<Entry>)
    ensures r.Ok? ==> |r.rest| < |t|
    decreases |t|, 0
  {
    if !Starts(t, '"') then Fail
    else
      match ParseString(t[1..])
      case Fail => Fail
      case Ok(key, t1) =>
        var u := SkipSpace(t1);
        if !Starts(u, ':') then Fail
        else
          match ParseValue(SkipSpace(u[1..]))
          case Fail => Fail
          case Ok(v, rest) => Ok(Entry(key, v), rest)
  }

  /** Dict entries up to and including the closing brace. */
  function ParseEntries(t: string): (r: Parsed<seq<Entry>>)
    ensures r.Ok? ==> |r.rest| < |t|
    decreases |t|, 2
  {
    match ParseEntry(t)
    case Fail => Fail
    case Ok(e, t1) =>
      var u := SkipSpace(t1);
      if Starts(u, '}') then Ok([e], u[1..])
      else if Starts(u, ',') then
        (match ParseEntries(SkipSpace(u[1..]))
         case Fail => Fail
         case Ok(pairs, rest) => Ok([e] + pairs, rest))
      else Fail
  }

  /** `json.loads`: one value, nothing but white space around it. */
  function Loads(t: string): Option<Json> {
    match ParseValue(SkipSpace(t))
    case Fail => None
    case Ok(v, rest) => if SkipSpace(rest) == "" then Some(v) else None
  }
}
