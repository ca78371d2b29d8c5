/** JSON texts as sections 2 to 7 of RFC 8259 describe them, with no parser in sight, and what `json.loads`
    reads: exactly these. */
module JsonGrammar {
  import opened Text
  import opened Json
  import opened JsonRoundTrip
  import opened JsonLoads

  /* ---------- the grammar ---------- */

  /** Blanks, tabs, line feeds and carriage returns. */
  predicate Blank(s: string) {
    forall i | 0 <= i < |s| :: s[i] as int in {32, 9, 10, 13}
  }

  /** White space, any amount of it, before `u`. */
  predicate Gap(t: string, u: string) {
    |u| <= |t| && t[|t| - |u|..] == u && Blank(t[..|t| - |u|])
  }

  predicate HasDigit(c: char, d: nat) {
    d < 16 && (c == "0123456789abcdef"[d] || c == "0123456789ABCDEF"[d])
  }

  /** A backslash, a `u` and four hexadecimal digits of either case. */
  predicate IsHexEscape(p: string, unit: nat) {
    && |p| == 6 && p[..2] == "\\u" && unit < 0x1_0000
    && HasDigit(p[2], unit / 0x1000) && HasDigit(p[3], unit / 0x100 % 16)
    && HasDigit(p[4], unit / 16 % 16) && HasDigit(p[5], unit % 16)
  }

  predicate IsShortEscape(p: string, c: char) {
    && |p| == 2 && p[0] == '\\'
    && (|| (p[1] == c && c in "\"\\/")
        || (p[1] == 'b' && c as int == 8) || (p[1] == 'f' && c as int == 12)
        || (p[1] == 'n' && c as int == 10) || (p[1] == 'r' && c as int == 13) || (p[1] == 't' && c as int == 9))
  }

  predicate IsEscapedPair(p: string, c: char, high: nat, low: nat) {
    && |p| == 12 && high < 0x400 && low < 0x400 && c as int == 0x1_0000 + high * 0x400 + low
    && IsHexEscape(p[..6], 0xD800 + high) && IsHexEscape(p[6..], 0xDC00 + low)
  }

  /** The ways to write one character of a string. */
  ghost predicate IsPiece(p: string, c: char) {
    || (p == [c] && ' ' <= c && c != '"' && c != '\\')
    || IsShortEscape(p, c)
    || IsHexEscape(p, c as int)
    || exists high: nat, low: nat :: IsEscapedPair(p, c, high, low)
  }

  /** The first n characters write `c`. */
  ghost predicate PieceAt(t: string, n: nat, c: char) {
    0 < n <= |t| && IsPiece(t[..n], c)
  }

  /** The inside of a string, its closing quote, and `rest`. */
  ghost predicate ReadsBody(t: string, s: string, rest: string)
    decreases |t|
  {
    if s == "" then t == "\"" + rest
    else exists n: nat :: PieceAt(t, n, s[0]) && ReadsBody(t[n..], s[1..], rest)
  }

  function Unsigned(x: Number, mark: char): string {
    x.whole + (if x.fraction == "" then "" else "." + x.fraction)
    + (if x.exponent == "" then "" else [mark] + x.exponent)
  }

  /** Sign, whole part without leading zeros, fraction and exponent. */
  predicate IsNumberAs(t: string, v: Json, negative: bool, x: Number, mark: char) {
    && IsWhole(x.whole) && AllDigits(x.fraction) && (x.exponent == "" || IsExponent(x.exponent))
    && (mark == 'e' || mark == 'E')
    && t == (if negative then "-" else "") + Unsigned(x, mark)
    && v == NumberValue(negative, x)
  }

  ghost predicate IsNumber(t: string, v: Json) {
    exists negative, x, mark :: IsNumberAs(t, v, negative, x, mark)
  }

  ghost predicate ReadsNumber(t: string, v: Json, rest: string) {
    |rest| <= |t| && t[|t| - |rest|..] == rest && IsNumber(t[..|t| - |rest|], v)
  }

  /** `t` is a text of `v` and then `rest`. */
  ghost predicate Reads(t: string, v: Json, rest: string)
    decreases |t|, 1
  {
    match v
    case Null => t == "null" + rest
    case Bool(b) => t == (if b then "true" else "false") + rest
    case Int(_) => ReadsNumber(t, v, rest)
    case Float(_) => ReadsNumber(t, v, rest)
    case Str(s) => Starts(t, '"') && ReadsBody(t[1..], s, rest)
    case Arr(items) =>
      && Starts(t, '[')
      && exists u :: Gap(t[1..], u) && if items == [] then u == "]" + rest else ReadsItems(u, items, rest)
    case Obj(entries) =>
      && Starts(t, '{')
      && exists u, pairs :: Gap(t[1..], u) && IsDict(entries, pairs)
                         && if pairs == [] then u == "}" + rest else ReadsPairs(u, pairs, rest)
  }

  /** A dict keeps of repeated keys the last value. */
  predicate IsDict(entries: seq<Entry>, pairs: seq<Entry>) { entries == Dict(pairs) }

  predicate Shorter(u: string, t: string) { |u| < |t| }

  /** Items between commas, and the closing bracket. */
  ghost predicate ReadsItems(t: string, items: seq<Json>, rest: string)
    requires items != []
    decreases |t|, 2
  {
    exists after, u ::
      Shorter(after, t) && Reads(t, items[0], after) && Gap(after, u) && ItemsGoOn(u, items[1..], rest)
  }

  ghost predicate ItemsGoOn(u: string, more: seq<Json>, rest: string)
    decreases |u|, 3
  {
    if more == [] then u == "]" + rest
    else Starts(u, ',') && exists w :: Gap(u[1..], w) && ReadsItems(w, more, rest)
  }

  ghost predicate ReadsPairs(t: string, pairs: seq<Entry>, rest: string)
    requires pairs != []
    decreases |t|, 2
  {
    exists after, u ::
      Shorter(after, t) && ReadsPair(t, pairs[0], after) && Gap(after, u) && PairsGoOn(u, pairs[1..], rest)
  }

  ghost predicate PairsGoOn(u: string, more: seq<Entry>, rest: string)
    decreases |u|, 3
  {
    if more == [] then u == "}" + rest
    else Starts(u, ',') && exists w :: Gap(u[1..], w) && ReadsPairs(w, more, rest)
  }

  /** A key, a colon and a value. */
  ghost predicate ReadsPair(t: string, e: Entry, rest: string)
    decreases |t|, 0
  {
    && Starts(t, '"')
    && exists after, u, w ::
         && Shorter(after, t) && ReadsBody(t[1..], e.key, after) && Gap(after, u)
         && Starts(u, ':') && Gap(u[1..], w) && Reads(w, e.value, rest)
  }

  /** A JSON text of `v`: one value and nothing but white space around it. */
  ghost predicate IsJsonText(t: string, v: Json) {
    exists u, rest :: Gap(t, u) && Reads(u, v, rest) && Blank(rest)
  }

  /* ---------- what is read is such a text ---------- */

  lemma {:induction false} SkipIsGap(t: string)
    ensures Gap(t, SkipSpace(t))
  {
    if t != "" && IsSpace(t[0]) {
      SkipIsGap(t[1..]);
      var u := SkipSpace(t);
      assert t[..|t| - |u|] == [t[0]] + t[1..][..|t| - 1 - |u|];
    } else {
      assert t[..0] == "";
    }
  }

  lemma HexValueIsDigit(c: char)
    requires IsHex(c)
    ensures HasDigit(c, HexValue(c))
  {}

  lemma FourNibbles(a: nat, b: nat, c: nat, d: nat)
    requires a < 16 && b < 16 && c < 16 && d < 16
    ensures
      var unit := a * 0x1000 + b * 0x100 + c * 16 + d;
      && unit / 0x1000 == a && unit / 0x100 % 16 == b && unit / 16 % 16 == c && unit % 16 == d
  {
    var unit := a * 0x1000 + b * 0x100 + c * 16 + d;
    assert unit / 16 == a * 0x100 + b * 16 + c;
    assert unit / 0x100 == a * 16 + b;
  }

  lemma UnitDigits(u: string) returns (a: nat, b: nat, c: nat, d: nat)
    requires ParseUnit(u).Some?
    ensures |u| >= 5 && u[0] == 'u' && HasDigit(u[1], a) && HasDigit(u[2], b) && HasDigit(u[3], c) && HasDigit(u[4], d)
    ensures ParseUnit(u) == Some(a * 0x1000 + b * 0x100 + c * 16 + d)
  {
    hide HasDigit, HexValue, IsHex;
    a, b, c, d := HexValue(u[1]), HexValue(u[2]), HexValue(u[3]), HexValue(u[4]);
    HexValueIsDigit(u[1]);
    HexValueIsDigit(u[2]);
    HexValueIsDigit(u[3]);
    HexValueIsDigit(u[4]);
  }

  lemma DigitIsSmall(c: char, d: nat)
    requires HasDigit(c, d)
    ensures d < 16
  {}

  lemma UnitIsEscape(t: string)
    requires |t| > 1 && t[0] == '\\' && ParseUnit(t[1..]).Some?
    ensures |t| >= 6 && IsHexEscape(t[..6], ParseUnit(t[1..]).value)
  {
    hide ParseUnit, HasDigit;
    var a, b, c, d := UnitDigits(t[1..]);
    DigitIsSmall(t[2], a);
    DigitIsSmall(t[3], b);
    DigitIsSmall(t[4], c);
    DigitIsSmall(t[5], d);
    FourNibbles(a, b, c, d);
    assert t[..6][..2] == "\\u";
  }

  lemma UnicodeIsPiece(t: string)
    requires |t| > 1 && t[0] == '\\' && ParseUnicode(t).Ok?
    ensures
      var r := ParseUnicode(t);
      var n := |t| - |r.rest|;
      0 < n <= |t| && t[n..] == r.rest && IsPiece(t[..n], r.value)
  {
    hide ParseUnit, IsHexEscape;
    var r := ParseUnicode(t);
    UnitIsEscape(t);
    var unit := ParseUnit(t[1..]).value;
    if 0xD800 <= unit < 0xE000 {
      assert t[7..] == t[6..][1..];
      UnitIsEscape(t[6..]);
      var low := ParseUnit(t[7..]).value;
      assert t[..12][..6] == t[..6] && t[..12][6..] == t[6..][..6];
      assert IsEscapedPair(t[..12], r.value, unit - 0xD800, low - 0xDC00);
    }
  }

  lemma CharIsPiece(t: string)
    requires t != "" && ParseChar(t).Ok?
    ensures
      var r := ParseChar(t);
      var n := |t| - |r.rest|;
      0 < n <= |t| && t[n..] == r.rest && IsPiece(t[..n], r.value)
  {
    hide ParseUnicode;
    var r := ParseChar(t);
    if t[0] == '\\' {
      if t[1] in "\"\\/bfnrt" {
        assert IsShortEscape(t[..2], r.value);
      } else {
        UnicodeIsPiece(t);
      }
    } else {
      assert t[..1] == [t[0]];
    }
  }

  lemma {:induction false} StringIsBody(t: string)
    requires ParseString(t).Ok?
    ensures ReadsBody(t, ParseString(t).value, ParseString(t).rest)
    decreases |t|
  {
    hide ParseChar, IsPiece;
    var r := ParseString(t);
    if t[0] == '"' {
      assert t == "\"" + t[1..];
    } else {
      CharIsPiece(t);
      var c := ParseChar(t);
      var n := |t| - |c.rest|;
      StringIsBody(c.rest);
      assert r.value[1..] == ParseString(c.rest).value;
      assert PieceAt(t, n, r.value[0]) && ReadsBody(t[n..], r.value[1..], r.rest);
    }
  }

  /* numbers */

  lemma FractionIsTaken(t: string)
    ensures
      var r := ParseFraction(t);
      t == (if r.0 == "" then "" else "." + r.0) + r.1
  {
    if |t| > 1 && t[0] == '.' && IsDigit(t[1]) {
      var n := DigitSpan(t[1..]);
      assert n > 0;
      assert t == "." + t[1..][..n] + t[1..][n..];
    } else {
      assert "" + t == t;
    }
  }

  lemma ExponentIsTaken(t: string) returns (mark: char)
    ensures
      var r := ParseExponent(t);
      (mark == 'e' || mark == 'E') && t == (if r.0 == "" then "" else [mark] + r.0) + r.1
  {
    mark := 'e';
    assert "" + t == t;
    if Starts(t, 'e') || Starts(t, 'E') {
      mark := t[0];
      var u := t[1..];
      var sign := if Starts(u, '+') || Starts(u, '-') then 1 else 0;
      var n := DigitSpan(u[sign..]);
      assert t == [mark] + u[..sign + n] + u[sign + n..];
    }
  }

  lemma UnsignedIsTaken(u: string) returns (mark: char)
    requires ParseUnsigned(u).Ok?
    ensures (mark == 'e' || mark == 'E') && u == Unsigned(ParseUnsigned(u).value, mark) + ParseUnsigned(u).rest
  {
    hide DigitSpan;
    var n := if Starts(u, '0') then 1 else DigitSpan(u);
    FractionIsTaken(u[n..]);
    var f := ParseFraction(u[n..]);
    mark := ExponentIsTaken(f.1);
    var e := ParseExponent(f.1);
    hide ParseFraction, ParseExponent;
    ThreeParts(u, u[..n], if f.0 == "" then "" else "." + f.0, if e.0 == "" then "" else [mark] + e.0, e.1);
  }

  lemma ThreeParts(u: string, whole: string, f: string, e: string, rest: string)
    requires |whole| <= |u| && u[..|whole|] == whole && u[|whole|..] == f + (e + rest)
    ensures u == whole + f + e + rest
  {
    assert u == whole + u[|whole|..];
  }

  lemma NumberIsTaken(t: string)
    requires ParseNumber(t).Ok?
    ensures ReadsNumber(t, ParseNumber(t).value, ParseNumber(t).rest)
  {
    hide ParseUnsigned, Unsigned;
    var negative := Starts(t, '-');
    var u := if negative then t[1..] else t;
    var r := ParseUnsigned(u);
    UnsignedIsNumber(u);
    var mark := UnsignedIsTaken(u);
    var number := (if negative then "-" else "") + Unsigned(r.value, mark);
    assert t == number + r.rest by {
      if negative { assert t == "-" + u; }
    }
    assert t[..|t| - |r.rest|] == number;
    assert IsNumberAs(number, NumberValue(negative, r.value), negative, r.value, mark);
  }

  /* values */

  lemma ScalarIsText(t: string)
    requires ParseScalar(t).Ok?
    ensures Reads(t, ParseScalar(t).value, ParseScalar(t).rest)
  {
    if "null" <= t {
      assert t == "null" + t[4..];
    } else if "true" <= t {
      assert t == "true" + t[4..];
    } else if "false" <= t {
      assert t == "false" + t[5..];
    } else {
      NumberIsTaken(t);
    }
  }

  lemma {:induction false} ValueIsText(t: string)
    requires ParseValue(t).Ok?
    ensures Reads(t, ParseValue(t).value, ParseValue(t).rest)
    decreases |t|, 1
  {
    hide ReadsBody, ReadsItems, ReadsPairs, ParseString, ParseItems, ParseEntries, ParseScalar, Gap, SkipSpace;
    if Starts(t, '"') {
      StringIsBody(t[1..]);
    } else if Starts(t, '[') {
      SkipIsGap(t[1..]);
      ListIsText(t, SkipSpace(t[1..]));
    } else if Starts(t, '{') {
      SkipIsGap(t[1..]);
      DictIsText(t, SkipSpace(t[1..]));
    } else {
      ScalarIsText(t);
    }
  }

  lemma {:induction false} ListIsText(t: string, u: string)
    requires Starts(t, '[') && |u| < |t| && Gap(t[1..], u) && ParseArray(u).Ok?
    ensures Reads(t, ParseArray(u).value, ParseArray(u).rest)
    decreases |u|, 3
  {
    hide ReadsItems, ParseItems, Gap;
    if Starts(u, ']') {
      assert u == "]" + u[1..];
    } else {
      ItemsAreText(u);
    }
  }

  lemma {:induction false} DictIsText(t: string, u: string)
    requires Starts(t, '{') && |u| < |t| && Gap(t[1..], u) && ParseObject(u).Ok?
    ensures Reads(t, ParseObject(u).value, ParseObject(u).rest)
    decreases |u|, 3
  {
    hide ReadsPairs, ParseEntries, Gap, Dict;
    var r := ParseObject(u);
    if Starts(u, '}') {
      assert u == "}" + u[1..];
      assert IsDict([], []) by { NoPairs(); }
    } else {
      PairsAreText(u);
      assert IsDict(r.value.entries, ParseEntries(u).value);
    }
  }

  lemma NoPairs()
    ensures Dict([]) == []
  {}

  lemma {:induction false} ItemsAreText(t: string)
    requires ParseItems(t).Ok?
    ensures ParseItems(t).value != [] && ReadsItems(t, ParseItems(t).value, ParseItems(t).rest)
    decreases |t|, 2
  {
    hide Reads, Gap, SkipSpace, ParseValue;
    var first := ParseValue(t);
    var u := SkipSpace(first.rest);
    ValueIsText(t);
    SkipIsGap(first.rest);
    var r := ParseItems(t);
    if Starts(u, ']') {
      assert u == "]" + u[1..];
      assert r.value[1..] == [];
      assert Shorter(first.rest, t) && ItemsGoOn(u, r.value[1..], r.rest);
    } else {
      var w := SkipSpace(u[1..]);
      SkipIsGap(u[1..]);
      ItemsAreText(w);
      assert r.value[1..] == ParseItems(w).value;
      assert Shorter(first.rest, t) && ItemsGoOn(u, r.value[1..], r.rest);
    }
  }

  lemma {:induction false} PairIsText(t: string)
    requires ParseEntry(t).Ok?
    ensures ReadsPair(t, ParseEntry(t).value, ParseEntry(t).rest)
    decreases |t|, 0
  {
    hide Reads, ReadsBody, Gap, SkipSpace, ParseValue, ParseString;
    var key := ParseString(t[1..]);
    StringIsBody(t[1..]);
    var u := SkipSpace(key.rest);
    SkipIsGap(key.rest);
    var w := SkipSpace(u[1..]);
    SkipIsGap(u[1..]);
    ValueIsText(w);
    assert Shorter(key.rest, t);
  }

  lemma {:induction false} PairsAreText(t: string)
    requires ParseEntries(t).Ok?
    ensures ParseEntries(t).value != [] && ReadsPairs(t, ParseEntries(t).value, ParseEntries(t).rest)
    decreases |t|, 2
  {
    hide ReadsPair, Gap, SkipSpace, ParseEntry;
    var first := ParseEntry(t);
    var u := SkipSpace(first.rest);
    PairIsText(t);
    SkipIsGap(first.rest);
    var r := ParseEntries(t);
    if Starts(u, '}') {
      assert u == "}" + u[1..];
      assert r.value[1..] == [];
      assert Shorter(first.rest, t) && PairsGoOn(u, r.value[1..], r.rest);
    } else {
      var w := SkipSpace(u[1..]);
      SkipIsGap(u[1..]);
      PairsAreText(w);
      assert r.value[1..] == ParseEntries(w).value;
      assert Shorter(first.rest, t) && PairsGoOn(u, r.value[1..], r.rest);
    }
  }

  /* ---------- and every such text is read ---------- */

  lemma {:induction false} GapIsSkipped(t: string, u: string)
    requires Gap(t, u) && (u == "" || !IsSpace(u[0]))
    ensures SkipSpace(t) == u
  {
    if |t| == |u| {
      assert t[0..] == t;
    } else {
      assert t[..|t| - |u|][0] == t[0];
      assert t[1..][..|t| - 1 - |u|] == t[..|t| - |u|][1..];
      assert t[1..][|t| - 1 - |u|..] == t[|t| - |u|..];
      GapIsSkipped(t[1..], u);
    }
  }

  /** Before a comma, colon or bracket there is white space or nothing. */
  lemma GapDelimits(t: string, u: string)
    requires Gap(t, u) && u != "" && (u[0] == ',' || u[0] == ']' || u[0] == '}')
    ensures Delimits(t) && SkipSpace(t) == u
  {
    GapIsSkipped(t, u);
    if |t| > |u| {
      assert t[..|t| - |u|][0] == t[0];
    } else {
      assert t[0..] == t;
    }
  }

  lemma DigitHasValue(c: char, d: nat)
    requires HasDigit(c, d)
    ensures IsHex(c) && HexValue(c) == d
  {}

  lemma DigitsAreUnit(u: string, a: nat, b: nat, c: nat, d: nat)
    requires |u| >= 5 && u[0] == 'u'
    requires HasDigit(u[1], a) && HasDigit(u[2], b) && HasDigit(u[3], c) && HasDigit(u[4], d)
    ensures ParseUnit(u) == Some(a * 0x1000 + b * 0x100 + c * 16 + d)
  {
    hide HasDigit, HexValue, IsHex;
    DigitHasValue(u[1], a);
    DigitHasValue(u[2], b);
    DigitHasValue(u[3], c);
    DigitHasValue(u[4], d);
  }

  lemma EscapeIsUnit(t: string, unit: nat)
    requires |t| >= 6 && IsHexEscape(t[..6], unit)
    ensures t[0] == '\\' && t[1] == 'u' && ParseUnit(t[1..]) == Some(unit)
  {
    hide HasDigit, ParseUnit;
    var p := t[..6];
    assert p[..2][0] == t[0] && p[..2][1] == t[1];
    DigitsAreUnit(t[1..], unit / 0x1000, unit / 0x100 % 16, unit / 16 % 16, unit % 16);
    Nibbles(unit);
  }

  lemma PairParts(t: string, c: char, high: nat, low: nat)
    requires |t| >= 12 && IsEscapedPair(t[..12], c, high, low)
    ensures high < 0x400 && low < 0x400 && c as int == 0x1_0000 + high * 0x400 + low
    ensures IsHexEscape(t[..6], 0xD800 + high) && IsHexEscape(t[6..][..6], 0xDC00 + low)
  {
    hide IsHexEscape;
    assert t[..12][..6] == t[..6] && t[..12][6..] == t[6..][..6];
  }

  lemma PairIsParsed(t: string, c: char, high: nat, low: nat)
    requires |t| >= 12 && IsEscapedPair(t[..12], c, high, low)
    ensures t[0] == '\\' && ParseChar(t) == Ok(c, t[12..])
  {
    hide IsHexEscape, ParseUnit, ParseChar, ParseUnicode, IsEscapedPair;
    PairParts(t, c, high, low);
    EscapeIsUnit(t, 0xD800 + high);
    EscapeIsUnit(t[6..], 0xDC00 + low);
    assert t[6..][1..] == t[7..] && t[6..][0] == t[6];
    UnicodeIsParsed(t);
    ParsePair(t, 0xD800 + high, 0xDC00 + low);
  }

  lemma PieceIsParsed(t: string, n: nat, c: char)
    requires PieceAt(t, n, c)
    ensures t[0] != '"' && ParseChar(t) == Ok(c, t[n..])
  {
    var p := t[..n];
    hide IsHexEscape, IsEscapedPair, ParseUnicode;
    if p == [c] && ' ' <= c && c != '"' && c != '\\' {
      assert t[0] == p[0];
    } else if IsShortEscape(p, c) {
      assert t[0] == p[0] && t[1] == p[1];
    } else if IsHexEscape(p, c as int) {
      HexIsParsed(t, c);
    } else {
      var high: nat, low: nat :| IsEscapedPair(p, c, high, low);
      assert n == 12 by { PairLength(p, c, high, low); }
      PairIsParsed(t, c, high, low);
    }
  }

  lemma PairLength(p: string, c: char, high: nat, low: nat)
    requires IsEscapedPair(p, c, high, low)
    ensures |p| == 12
  {}

  lemma HexIsParsed(t: string, c: char)
    requires |t| >= 6 && IsHexEscape(t[..6], c as int)
    ensures t[0] == '\\' && ParseChar(t) == Ok(c, t[6..])
  {
    hide IsHexEscape, ParseUnit;
    EscapeIsUnit(t, c as int);
    UnicodeIsParsed(t);
  }

  lemma {:induction false} BodyIsParsed(t: string, s: string, rest: string)
    requires ReadsBody(t, s, rest)
    ensures ParseString(t) == Ok(s, rest)
    decreases |t|
  {
    hide IsPiece, ParseChar;
    if s == "" {
      assert t[1..] == rest;
    } else {
      var n: nat :| PieceAt(t, n, s[0]) && ReadsBody(t[n..], s[1..], rest);
      PieceIsParsed(t, n, s[0]);
      BodyIsParsed(t[n..], s[1..], rest);
      ParseStringStep(t, s[0], t[n..], s[1..], rest);
      assert [s[0]] + s[1..] == s;
    }
  }

  /* numbers */

  lemma ExponentIsParsed(exponent: string, mark: char, rest: string)
    requires (exponent == "" || IsExponent(exponent)) && (mark == 'e' || mark == 'E') && Delimits(rest)
    ensures ParseExponent((if exponent == "" then "" else [mark] + exponent) + rest) == (exponent, rest)
  {
    if exponent == "" {
      assert "" + rest == rest;
    } else {
      hide ParseExponent, IsExponent;
      MarkedExponent([mark] + exponent + rest, exponent, rest);
    }
  }

  lemma MarkedExponent(t: string, exponent: string, rest: string)
    requires t != "" && (t[0] == 'e' || t[0] == 'E') && t[1..] == exponent + rest
    requires IsExponent(exponent) && Delimits(rest)
    ensures ParseExponent(t) == (exponent, rest)
  {
    hide DigitSpan, IsExponent;
    var u := exponent + rest;
    ExponentSpan(u, exponent, rest);
    assert u[..|exponent|] == exponent && u[|exponent|..] == rest;
  }

  lemma UnsignedIsParsed(x: Number, mark: char, rest: string)
    requires IsWhole(x.whole) && AllDigits(x.fraction) && (x.exponent == "" || IsExponent(x.exponent))
    requires (mark == 'e' || mark == 'E') && Delimits(rest)
    ensures ParseUnsigned(Unsigned(x, mark) + rest) == Ok(x, rest)
  {
    hide ParseExponent, IsExponent;
    var e := (if x.exponent == "" then "" else [mark] + x.exponent) + rest;
    var dotted := (if x.fraction == "" then "" else "." + x.fraction) + e;
    var u := Unsigned(x, mark) + rest;
    assert u == x.whole + dotted;
    SpanOfDigits(x.whole, dotted);
    assert u[..|x.whole|] == x.whole && u[|x.whole|..] == dotted;
    FractionRoundTrip(x.fraction, e);
    ExponentIsParsed(x.exponent, mark, rest);
  }

  lemma NumberIsParsed(t: string, v: Json, rest: string)
    requires ReadsNumber(t, v, rest) && Delimits(rest)
    ensures t != "" && (t[0] == '-' || IsDigit(t[0])) && ParseScalar(t) == Ok(v, rest)
  {
    hide Unsigned, ParseUnsigned, NumberValue, IsExponent;
    var number := t[..|t| - |rest|];
    var negative, x, mark :| IsNumberAs(number, v, negative, x, mark);
    assert t == number + rest;
    UnsignedStart(x, mark);
    UnsignedIsParsed(x, mark, rest);
    var u := Unsigned(x, mark) + rest;
    if negative {
      assert t == "-" + u && t[1..] == u;
    } else {
      assert t == u;
    }
    NumberIsNotAWord(t);
  }

  lemma UnsignedStart(x: Number, mark: char)
    requires IsWhole(x.whole)
    ensures Unsigned(x, mark) != "" && IsDigit(Unsigned(x, mark)[0])
  {
    assert Unsigned(x, mark)[0] == x.whole[0];
  }

  /* values */

  /** A text starts with no white space and no closing bracket, and says with its first character what it is. */
  lemma ReadsStart(t: string, v: Json, rest: string)
    requires Reads(t, v, rest) && Delimits(rest)
    ensures t != "" && !IsSpace(t[0]) && t[0] != ']' && t[0] != '}'
    ensures (t[0] == '"' <==> v.Str?) && (t[0] == '[' <==> v.Arr?) && (t[0] == '{' <==> v.Obj?)
  {
    hide ReadsBody, ReadsItems, ReadsPairs, ReadsNumber, ParseScalar;
    match v
    case Int(_) => NumberIsParsed(t, v, rest);
    case Float(_) => NumberIsParsed(t, v, rest);
    case Null => assert t[0] == "null"[0];
    case Bool(b) => assert t[0] == if b then "true"[0] else "false"[0];
    case _ =>
  }

  lemma WordIsParsed(t: string, v: Json, rest: string)
    requires Reads(t, v, rest) && Delimits(rest) && (v.Null? || v.Bool?)
    ensures ParseScalar(t) == Ok(v, rest)
  {
    WordsRoundTrip(rest);
  }

  lemma {:induction false} ValueIsParsed(t: string, v: Json, rest: string)
    requires Reads(t, v, rest) && Delimits(rest)
    ensures ParseValue(t) == Ok(v, rest)
    decreases |t|, 1
  {
    hide ReadsBody, ReadsItems, ReadsPairs, ReadsNumber, ParseScalar, ParseArray, ParseObject, ParseString, Gap;
    ReadsStart(t, v, rest);
    match v
    case Str(s) => BodyIsParsed(t[1..], s, rest);
    case Arr(items) => ListIsParsed(t, items, rest);
    case Obj(entries) => DictIsParsed(t, entries, rest);
    case Int(_) => NumberIsParsed(t, v, rest);
    case Float(_) => NumberIsParsed(t, v, rest);
    case _ => WordIsParsed(t, v, rest);
  }

  lemma {:induction false} ListIsParsed(t: string, items: seq<Json>, rest: string)
    requires Reads(t, Arr(items), rest)
    ensures Starts(t, '[') && ParseArray(SkipSpace(t[1..])) == Ok(Arr(items), rest)
    decreases |t|, 0
  {
    hide ReadsItems, ParseItems, Gap;
    var u :| Gap(t[1..], u) && if items == [] then u == "]" + rest else ReadsItems(u, items, rest);
    if items == [] {
      assert u[1..] == rest;
      GapIsSkipped(t[1..], u);
    } else {
      GapLength(t[1..], u);
      ItemsAreParsed(u, items, rest);
      GapIsSkipped(t[1..], u);
    }
  }

  lemma GapLength(t: string, u: string)
    requires Gap(t, u)
    ensures |u| <= |t|
  {}

  lemma {:induction false} DictIsParsed(t: string, entries: seq<Entry>, rest: string)
    requires Reads(t, Obj(entries), rest)
    ensures Starts(t, '{') && ParseObject(SkipSpace(t[1..])) == Ok(Obj(entries), rest)
    decreases |t|, 0
  {
    hide ReadsPairs, ParseEntries, Gap, Dict;
    var u, pairs :| Gap(t[1..], u) && IsDict(entries, pairs)
                    && if pairs == [] then u == "}" + rest else ReadsPairs(u, pairs, rest);
    if pairs == [] {
      assert u[1..] == rest;
      NoPairs();
      GapIsSkipped(t[1..], u);
    } else {
      GapLength(t[1..], u);
      PairsAreParsed(u, pairs, rest);
      GapIsSkipped(t[1..], u);
    }
  }

  lemma {:induction false} ItemsAreParsed(t: string, items: seq<Json>, rest: string)
    requires items != [] && ReadsItems(t, items, rest)
    ensures ParseItems(t) == Ok(items, rest) && !IsSpace(t[0]) && t[0] != ']'
    decreases |t|, 2
  {
    hide Reads, ParseValue, Gap, SkipSpace;
    var after, u :| Shorter(after, t) && Reads(t, items[0], after) && Gap(after, u) && ItemsGoOn(u, items[1..], rest);
    GapDelimits(after, u);
    ReadsStart(t, items[0], after);
    ValueIsParsed(t, items[0], after);
    GapLength(after, u);
    if items[1..] == [] {
      assert items == [items[0]] && u[1..] == rest;
    } else {
      var w :| Gap(u[1..], w) && ReadsItems(w, items[1..], rest);
      GapLength(u[1..], w);
      ItemsAreParsed(w, items[1..], rest);
      GapIsSkipped(u[1..], w);
      assert items == [items[0]] + items[1..];
    }
  }

  lemma {:induction false} PairIsRead(t: string, e: Entry, rest: string)
    requires ReadsPair(t, e, rest) && Delimits(rest)
    ensures Starts(t, '"') && ParseEntry(t) == Ok(e, rest)
    decreases |t|, 0
  {
    hide Reads, ReadsBody, ParseValue, ParseString, Gap, SkipSpace;
    var after, u, w :| && Shorter(after, t) && ReadsBody(t[1..], e.key, after) && Gap(after, u)
                       && Starts(u, ':') && Gap(u[1..], w) && Reads(w, e.value, rest);
    BodyIsParsed(t[1..], e.key, after);
    GapIsSkipped(after, u);
    GapLength(after, u);
    GapLength(u[1..], w);
    ReadsStart(w, e.value, rest);
    GapIsSkipped(u[1..], w);
    ValueIsParsed(w, e.value, rest);
  }

  lemma {:induction false} PairsAreParsed(t: string, pairs: seq<Entry>, rest: string)
    requires pairs != [] && ReadsPairs(t, pairs, rest)
    ensures ParseEntries(t) == Ok(pairs, rest) && Starts(t, '"')
    decreases |t|, 2
  {
    hide ReadsPair, ParseEntry, Gap, SkipSpace;
    var after, u :| && Shorter(after, t) && ReadsPair(t, pairs[0], after) && Gap(after, u)
                    && PairsGoOn(u, pairs[1..], rest);
    GapDelimits(after, u);
    PairIsRead(t, pairs[0], after);
    GapLength(after, u);
    if pairs[1..] == [] {
      assert pairs == [pairs[0]] && u[1..] == rest;
    } else {
      var w :| Gap(u[1..], w) && ReadsPairs(w, pairs[1..], rest);
      GapLength(u[1..], w);
      PairsAreParsed(w, pairs[1..], rest);
      GapIsSkipped(u[1..], w);
      assert pairs == [pairs[0]] + pairs[1..];
    }
  }

  /* ---------- main result ---------- */

  /** `json.loads` reads exactly the JSON texts, and as what they are. */
  lemma LoadsIff(t: string, v: Json)
    ensures Loads(t) == Some(v) <==> IsJsonText(t, v)
  {
    hide Reads, ParseValue, Gap, SkipSpace;
    if Loads(t) == Some(v) {
      var u := SkipSpace(t);
      var rest := ParseValue(u).rest;
      SkipIsGap(t);
      ValueIsText(u);
      SkipIsGap(rest);
      NothingButSpace(rest);
    }
    if u, rest :| Gap(t, u) && Reads(u, v, rest) && Blank(rest) {
      BlankDelimits(rest);
      ReadsStart(u, v, rest);
      GapIsSkipped(t, u);
      ValueIsParsed(u, v, rest);
    }
  }

  lemma NothingButSpace(rest: string)
    requires Gap(rest, "")
    ensures Blank(rest)
  {
    assert rest[..|rest|] == rest;
  }

  lemma BlankDelimits(rest: string)
    requires Blank(rest)
    ensures Delimits(rest) && SkipSpace(rest) == ""
  {
    assert rest[..|rest|] == rest && rest[|rest|..] == "";
    GapIsSkipped(rest, "");
  }

  /** There is one value at most. */
  lemma OneValue(t: string, v: Json, w: Json)
    requires IsJsonText(t, v) && IsJsonText(t, w)
    ensures v == w
  {
    LoadsIff(t, v);
    LoadsIff(t, w);
  }

  /** Of repeated keys the last value counts. */
  lemma {:induction false} LastValueCounts(pairs: seq<Entry>, i: nat)
    requires i < |pairs| && forall j | i < j < |pairs| :: pairs[j].key != pairs[i].key
    ensures exists k :: 0 <= k < |Dict(pairs)| && Dict(pairs)[k] == pairs[i]
  {
    var n := |pairs| - 1;
    var before, last := Dict(pairs[..n]), pairs[n];
    PutHolds(before, last.key, last.value);
    assert Dict(pairs) == Put(before, last.key, last.value);
    hide Put, Dict;
    if i < n {
      LastValueCounts(pairs[..n], i);
      var k :| 0 <= k < |before| && before[k] == pairs[i];
      PutKeeps(before, last.key, last.value, k);
    }
  }

  lemma {:induction false} PutHolds(entries: seq<Entry>, key: string, value: Json)
    ensures exists k :: 0 <= k < |Put(entries, key, value)| && Put(entries, key, value)[k] == Entry(key, value)
  {
    if entries == [] || entries[0].key == key {
      assert Put(entries, key, value)[0] == Entry(key, value);
    } else {
      PutHolds(entries[1..], key, value);
      var k :| 0 <= k < |Put(entries[1..], key, value)| && Put(entries[1..], key, value)[k] == Entry(key, value);
      assert Put(entries, key, value)[k + 1] == Entry(key, value);
    }
  }

  lemma {:induction false} PutKeeps(entries: seq<Entry>, key: string, value: Json, k: nat)
    requires k < |entries| && entries[k].key != key
    ensures exists m :: 0 <= m < |Put(entries, key, value)| && Put(entries, key, value)[m] == entries[k]
  {
    if entries[0].key == key {
      assert Put(entries, key, value)[k] == entries[k];
    } else if k == 0 {
      assert Put(entries, key, value)[0] == entries[0];
    } else {
      PutKeeps(entries[1..], key, value, k - 1);
      var m :| 0 <= m < |Put(entries[1..], key, value)| && Put(entries[1..], key, value)[m] == entries[k];
      assert Put(entries, key, value)[m + 1] == entries[k];
    }
  }
}
