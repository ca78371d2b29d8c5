/** UTC instants and their `isoformat` text, the key the snapshot table is ordered by. */
module Instants {
  import opened Text
  import opened Json

  datatype Moment = Moment(year: nat, month: nat, day: nat, hour: nat, minute: nat, second: nat, micro: nat)

  predicate Leap(year: nat) {
    year % 4 == 0 && (year % 100 != 0 || year % 400 == 0)
  }

  function DaysIn(year: nat, month: nat): nat {
    if month == 2 then (if Leap(year) then 29 else 28)
    else if month == 4 || month == 6 || month == 9 || month == 11 then 30
    else 31
  }

  /** A `datetime` in UTC. */
  type Instant = t: Moment |
    && 1 <= t.year <= 9999 && 1 <= t.month <= 12 && 1 <= t.day <= DaysIn(t.year, t.month)
    && t.hour < 24 && t.minute < 60 && t.second < 60 && t.micro < 1_000_000
    witness Moment(1, 1, 1, 0, 0, 0, 0)

  predicate Before(a: Instant, b: Instant) {
    || a.year < b.year
    || (a.year == b.year &&
        (|| a.month < b.month
         || (a.month == b.month &&
             (|| a.day < b.day
              || (a.day == b.day &&
                  (|| a.hour < b.hour
                   || (a.hour == b.hour &&
                       (|| a.minute < b.minute
                        || (a.minute == b.minute &&
                            (|| a.second < b.second
                             || (a.second == b.second && a.micro < b.micro)))))))))))
  }

  /** The last `width` digits of `n`, zero padded. */
  function Pad(width: nat, n: nat): string {
    if width == 0 then "" else Pad(width - 1, n / 10) + [Digit(n % 10)]
  }

  /** The fraction is left out when there are no microseconds. */
  function FractionAndZone(micro: nat): string {
    (if micro == 0 then "" else "." + Pad(6, micro)) + "+00:00"
  }

  function IsoTime(t: Moment): string {
    Pad(2, t.hour) + (":" + (Pad(2, t.minute) + (":" + (Pad(2, t.second) + FractionAndZone(t.micro)))))
  }

  function Iso(t: Moment): string {
    Pad(4, t.year) + ("-" + (Pad(2, t.month) + ("-" + (Pad(2, t.day) + ("T" + IsoTime(t))))))
  }

  function Pow10(n: nat): nat {
    if n == 0 then 1 else 10 * Pow10(n - 1)
  }

  lemma {:induction false} PadOrder(width: nat, a: nat, b: nat)
    requires a < Pow10(width) && b < Pow10(width)
    ensures |Pad(width, a)| == |Pad(width, b)| == width
    ensures Less(Pad(width, a), Pad(width, b)) <==> a < b
    ensures Pad(width, a) == Pad(width, b) <==> a == b
  {
    if width > 0 {
      PadOrder(width - 1, a / 10, b / 10);
      var p, q := Pad(width - 1, a / 10), Pad(width - 1, b / 10);
      LessByHeads(p, q, [Digit(a % 10)], [Digit(b % 10)]);
      assert (p + [Digit(a % 10)])[..width - 1] == p && (q + [Digit(b % 10)])[..width - 1] == q;
      assert (p + [Digit(a % 10)])[width - 1] == Digit(a % 10) && (q + [Digit(b % 10)])[width - 1] == Digit(b % 10);
    }
  }

  /** Padded fields decide before what follows them. */
  lemma FieldOrder(width: nat, a: nat, b: nat, s: string, t: string)
    requires a < Pow10(width) && b < Pow10(width)
    ensures Less(Pad(width, a) + s, Pad(width, b) + t) <==> a < b || (a == b && Less(s, t))
  {
    PadOrder(width, a, b);
    LessByHeads(Pad(width, a), Pad(width, b), s, t);
  }

  lemma SeparatorOrder(c: char, s: string, t: string)
    ensures Less([c] + s, [c] + t) <==> Less(s, t)
  {
    LessByHeads([c], [c], s, t);
    LessIsTotal([c], [c]);
  }

  /** '+' sorts before '.', so the missing fraction sorts as zero. */
  lemma FractionOrder(a: nat, b: nat)
    requires a < 1_000_000 && b < 1_000_000
    ensures Less(FractionAndZone(a), FractionAndZone(b)) <==> a < b
  {
    var zone := "+00:00";
    assert Pow10(6) == 1_000_000;
    assert FractionAndZone(a) == if a == 0 then zone else ['.'] + (Pad(6, a) + zone);
    assert FractionAndZone(b) == if b == 0 then zone else ['.'] + (Pad(6, b) + zone);
    LessIsTotal(zone, zone);
    if a != 0 && b != 0 {
      SeparatorOrder('.', Pad(6, a) + zone, Pad(6, b) + zone);
      FieldOrder(6, a, b, zone, zone);
    }
  }

  lemma IsoTimeOrder(a: Instant, b: Instant)
    ensures Less(IsoTime(a), IsoTime(b))
       <==> || a.hour < b.hour
            || (a.hour == b.hour &&
                (|| a.minute < b.minute
                 || (a.minute == b.minute &&
                     (|| a.second < b.second
                      || (a.second == b.second && a.micro < b.micro)))))
  {
    assert Pow10(2) == 100;
    var s, t := FractionAndZone(a.micro), FractionAndZone(b.micro);
    FractionOrder(a.micro, b.micro);
    FieldOrder(2, a.second, b.second, s, t);
    s, t := Pad(2, a.second) + s, Pad(2, b.second) + t;
    SeparatorOrder(':', s, t);
    FieldOrder(2, a.minute, b.minute, ":" + s, ":" + t);
    s, t := Pad(2, a.minute) + (":" + s), Pad(2, b.minute) + (":" + t);
    SeparatorOrder(':', s, t);
    FieldOrder(2, a.hour, b.hour, ":" + s, ":" + t);
  }

  /** Text order is time order, which is what makes `ORDER BY recorded_at DESC` newest first. */
  lemma IsoOrder(a: Instant, b: Instant)
    ensures Less(Iso(a), Iso(b)) <==> Before(a, b)
  {
    assert Pow10(2) == 100 && Pow10(4) == 10000;
    IsoTimeOrder(a, b);
    SeparatorOrder('T', IsoTime(a), IsoTime(b));
    var s, t := "T" + IsoTime(a), "T" + IsoTime(b);
    FieldOrder(2, a.day, b.day, s, t);
    s, t := Pad(2, a.day) + s, Pad(2, b.day) + t;
    SeparatorOrder('-', s, t);
    FieldOrder(2, a.month, b.month, "-" + s, "-" + t);
    s, t := Pad(2, a.month) + ("-" + s), Pad(2, b.month) + ("-" + t);
    SeparatorOrder('-', s, t);
    FieldOrder(4, a.year, b.year, "-" + s, "-" + t);
  }

  /** Different instants have different texts. */
  lemma IsoIsInjective(a: Instant, b: Instant)
    ensures Iso(a) == Iso(b) <==> a == b
  {
    IsoOrder(a, b);
    IsoOrder(b, a);
    LessIsTotal(Iso(a), Iso(b));
  }

  /* ---------- what the text says ---------- */

  predicate IsNumeral(s: string, width: nat, n: nat) {
    |s| == width && AllDigits(s) && NatValue(s) == n
  }

  lemma {:induction false} PadIsNumeral(width: nat, n: nat)
    requires n < Pow10(width)
    ensures IsNumeral(Pad(width, n), width, n)
  {
    if width > 0 {
      PadIsNumeral(width - 1, n / 10);
      var front := Pad(width - 1, n / 10);
      assert Pad(width, n)[..width - 1] == front;
    }
  }

  lemma NumeralFirst(width: nat, n: nat, c: char, rest: string)
    requires n < Pow10(width)
    ensures
      var t := Pad(width, n) + ([c] + rest);
      |t| > width && IsNumeral(t[..width], width, n) && t[width] == c && t[width + 1..] == rest
  {
    PadIsNumeral(width, n);
    var t := Pad(width, n) + ([c] + rest);
    assert t[..width] == Pad(width, n);
  }

  /** Two digits each for hour, minute and second, six for the microseconds if there are any, and the zone. */
  lemma TimeReads(t: Instant)
    ensures
      var s := IsoTime(t);
      && |s| == (if t.micro == 0 then 14 else 21)
      && IsNumeral(s[..2], 2, t.hour) && s[2] == ':' && IsNumeral(s[3..][..2], 2, t.minute) && s[5] == ':'
      && IsNumeral(s[6..][..2], 2, t.second)
      && if t.micro == 0 then s[8..] == "+00:00"
         else s[8] == '.' && IsNumeral(s[9..][..6], 6, t.micro) && s[15..] == "+00:00"
  {
    assert Pow10(2) == 100 && Pow10(6) == 1_000_000;
    hide Pad, Pow10, IsNumeral;
    var end := FractionAndZone(t.micro);
    var seconds := Pad(2, t.second) + end;
    NumeralFirst(2, t.hour, ':', Pad(2, t.minute) + (":" + seconds));
    NumeralFirst(2, t.minute, ':', seconds);
    var s := IsoTime(t);
    assert s[3..][3..] == s[6..] == seconds;
    EndReads(t);
    SecondsFirst(t.second, end);
    assert s[8..] == end;
    if t.micro != 0 {
      assert s[9..] == end[1..] && s[15..] == end[7..];
    }
  }

  lemma SecondsFirst(second: nat, end: string)
    requires second < 100
    ensures
      var t := Pad(2, second) + end;
      |t| == 2 + |end| && IsNumeral(t[..2], 2, second) && t[2..] == end
  {
    assert Pow10(2) == 100;
    PadIsNumeral(2, second);
    assert (Pad(2, second) + end)[..2] == Pad(2, second);
  }

  lemma EndReads(t: Instant)
    ensures
      var end := FractionAndZone(t.micro);
      if t.micro == 0 then end == "+00:00"
      else |end| == 13 && end[0] == '.' && IsNumeral(end[1..][..6], 6, t.micro) && end[7..] == "+00:00"
  {
    if t.micro == 0 {
      assert "" + "+00:00" == "+00:00";
    } else {
      assert Pow10(6) == 1_000_000;
      PadIsNumeral(6, t.micro);
      var end := FractionAndZone(t.micro);
      assert end[1..][..6] == Pad(6, t.micro);
    }
  }

  /** `isoformat` of an instant: every field can be read at its place. */
  lemma IsoReads(t: Instant)
    ensures
      var s := Iso(t);
      && |s| == (if t.micro == 0 then 25 else 32)
      && IsNumeral(s[..4], 4, t.year) && s[4] == '-' && IsNumeral(s[5..][..2], 2, t.month) && s[7] == '-'
      && IsNumeral(s[8..][..2], 2, t.day) && s[10] == 'T'
      && s[11..] == IsoTime(t)
  {
    assert Pow10(2) == 100 && Pow10(4) == 10_000;
    hide Pad, Pow10, IsNumeral, IsoTime;
    var day := Pad(2, t.day) + ("T" + IsoTime(t));
    var month := Pad(2, t.month) + ("-" + day);
    NumeralFirst(4, t.year, '-', month);
    NumeralFirst(2, t.month, '-', day);
    NumeralFirst(2, t.day, 'T', IsoTime(t));
    var s := Iso(t);
    assert s[5..] == month && s[8..] == day && s[11..] == IsoTime(t);
    TimeReads(t);
  }

  /** A year has 365 days, or 366 if it can be divided by 4 and not by 100, or by 400. */
  lemma YearLength(year: nat)
    ensures
      DaysIn(year, 1) + DaysIn(year, 2) + DaysIn(year, 3) + DaysIn(year, 4) + DaysIn(year, 5) + DaysIn(year, 6)
      + DaysIn(year, 7) + DaysIn(year, 8) + DaysIn(year, 9) + DaysIn(year, 10) + DaysIn(year, 11) + DaysIn(year, 12)
      == if year % 400 == 0 || (year % 100 != 0 && year % 4 == 0) then 366 else 365
  {}
}
