/**
 UTC date-times and their ISO text, as `isoformat` writes it: six fraction digits, or none at all when
 the microsecond is zero.  The main result is that text order is time order; section 5.1 of RFC 3339
 promises this only for fractions of equal width.
 */
module IsoTime {
  import opened Text

  datatype Utc = Utc(year: int, month: int, day: int, hour: int, minute: int, second: int, micro: int) {
    predicate Valid() {
      && 1 <= year <= 9999 && 1 <= month <= 12 && 1 <= day <= DaysInMonth(year, month)
      && 0 <= hour < 24 && 0 <= minute < 60 && 0 <= second < 60 && 0 <= micro < 1_000_000
    }
  }

  predicate IsLeap(year: int) {
    year % 4 == 0 && (year % 100 != 0 || year % 400 == 0)
  }

  function DaysInMonth(year: int, month: int): int {
    if month == 2 then (if IsLeap(year) then 29 else 28)
    else if month in {4, 6, 9, 11} then 30
    else 31
  }

  /** Python's order on UTC date-times: field by field. */
  predicate Earlier(a: Utc, b: Utc) {
    if a.year != b.year then a.year < b.year
    else if a.month != b.month then a.month < b.month
    else if a.day != b.day then a.day < b.day
    else EarlierClock(a, b)
  }

  predicate EarlierClock(a: Utc, b: Utc) {
    if a.hour != b.hour then a.hour < b.hour
    else if a.minute != b.minute then a.minute < b.minute
    else if a.second != b.second then a.second < b.second
    else a.micro < b.micro
  }

  lemma EarlierTotal(a: Utc, b: Utc)
    ensures Earlier(a, b) || a == b || Earlier(b, a)
    ensures !(Earlier(a, b) && Earlier(b, a)) && !Earlier(a, a)
  {
  }

  lemma EarlierTransitive(a: Utc, b: Utc, c: Utc)
    requires Earlier(a, b) && Earlier(b, c)
    ensures Earlier(a, c)
  {
  }

  // ----- instants

  function DaysBeforeYear(year: int): int {
    var y := year - 1;
    y * 365 + y / 4 - y / 100 + y / 400
  }

  function DaysBeforeMonth(year: int, month: int): int
    requires 1 <= month <= 13
    decreases month
  {
    if month == 1 then 0 else DaysBeforeMonth(year, month - 1) + DaysInMonth(year, month - 1)
  }

  /** Days since the start of year 1, in the proleptic Gregorian calendar. */
  function DayNumber(u: Utc): int
    requires u.Valid()
  {
    DaysBeforeYear(u.year) + DaysBeforeMonth(u.year, u.month) + u.day
  }

  /** Microseconds since the start of year 1. */
  function Instant(u: Utc): int
    requires u.Valid()
  {
    (((DayNumber(u) * 24 + u.hour) * 60 + u.minute) * 60 + u.second) * 1_000_000 + u.micro
  }

  lemma YearLength(year: int)
    requires year >= 1
    ensures DaysBeforeYear(year + 1) == DaysBeforeYear(year) + if IsLeap(year) then 366 else 365
  {
    var y := year;
    assert y / 4 == (y - 1) / 4 + if y % 4 == 0 then 1 else 0;
    assert y / 100 == (y - 1) / 100 + if y % 100 == 0 then 1 else 0;
    assert y / 400 == (y - 1) / 400 + if y % 400 == 0 then 1 else 0;
  }

  lemma {:induction false} YearsAccumulate(a: int, b: int)
    requires 1 <= a < b
    ensures DaysBeforeYear(a) + (if IsLeap(a) then 366 else 365) <= DaysBeforeYear(b)
    decreases b - a
  {
    YearLength(a);
    if a + 1 < b {
      YearsAccumulate(a + 1, b);
    }
  }

  lemma {:induction false} MonthsAccumulate(year: int, a: int, b: int)
    requires 1 <= a < b <= 13
    ensures DaysBeforeMonth(year, a) + DaysInMonth(year, a) <= DaysBeforeMonth(year, b)
    decreases b
  {
    if a + 1 < b {
      MonthsAccumulate(year, a, b - 1);
    }
  }

  lemma YearEnd(year: int)
    ensures DaysBeforeMonth(year, 13) == if IsLeap(year) then 366 else 365
  {
    assert DaysBeforeMonth(year, 4) == 59 + 31 + if IsLeap(year) then 1 else 0;
    assert DaysBeforeMonth(year, 7) == DaysBeforeMonth(year, 4) + 91;
    assert DaysBeforeMonth(year, 10) == DaysBeforeMonth(year, 7) + 92;
  }

  lemma EarlierDayHasSmallerNumber(a: Utc, b: Utc)
    requires a.Valid() && b.Valid()
    requires a.year < b.year || (a.year == b.year && (a.month < b.month || (a.month == b.month && a.day < b.day)))
    ensures DayNumber(a) < DayNumber(b)
  {
    if a.year < b.year {
      YearsAccumulate(a.year, b.year);
      MonthsAccumulate(a.year, a.month, 13);
      YearEnd(a.year);
      assert DaysBeforeMonth(b.year, b.month) >= 0 by {
        if b.month > 1 {
          MonthsAccumulate(b.year, 1, b.month);
        }
      }
    } else if a.month < b.month {
      MonthsAccumulate(a.year, a.month, b.month);
    }
  }

  lemma EarlierIsBefore(a: Utc, b: Utc)
    requires a.Valid() && b.Valid() && Earlier(a, b)
    ensures Instant(a) < Instant(b)
  {
    if (a.year, a.month, a.day) != (b.year, b.month, b.day) {
      EarlierDayHasSmallerNumber(a, b);
    } else {
      assert DayNumber(a) == DayNumber(b);
    }
  }

  /** The field order is the order of instants. */
  lemma FieldOrderIsInstantOrder(a: Utc, b: Utc)
    requires a.Valid() && b.Valid()
    ensures Earlier(a, b) <==> Instant(a) < Instant(b)
    ensures a == b <==> Instant(a) == Instant(b)
  {
    EarlierTotal(a, b);
    if Earlier(a, b) {
      EarlierIsBefore(a, b);
    } else if Earlier(b, a) {
      EarlierIsBefore(b, a);
    }
  }

  // ----- text

  function Digit(n: int): char
    requires 0 <= n < 10
  {
    ('0' as int + n) as char
  }

  function Pow10(w: nat): int {
    if w == 0 then 1 else 10 * Pow10(w - 1)
  }

  /** `n` in decimal, zero-padded to `w` digits. */
  function Pad(n: int, w: nat): (s: string)
    requires 0 <= n < Pow10(w)
    ensures |s| == w
  {
    if w == 0 then "" else Pad(n / 10, w - 1) + [Digit(n % 10)]
  }

  /** Equal-width decimals compare as their numbers. */
  lemma {:induction false} PadOrder(n: int, m: int, w: nat)
    requires 0 <= n < Pow10(w) && 0 <= m < Pow10(w)
    ensures Less(Pad(n, w), Pad(m, w)) <==> n < m
    ensures Pad(n, w) == Pad(m, w) <==> n == m
  {
    if w > 0 {
      PadOrder(n / 10, m / 10, w - 1);
      LessOfConcat(Pad(n / 10, w - 1), [Digit(n % 10)], Pad(m / 10, w - 1), [Digit(m % 10)]);
      assert Pad(n, w)[..w - 1] == Pad(n / 10, w - 1) && Pad(m, w)[..w - 1] == Pad(m / 10, w - 1);
      assert Pad(n, w)[w - 1] == Digit(n % 10) && Pad(m, w)[w - 1] == Digit(m % 10);
      assert Less([Digit(n % 10)], [Digit(m % 10)]) <==> n % 10 < m % 10;
    }
  }

  const UTC_OFFSET := "+00:00"

  function Fraction(micro: int): string
    requires 0 <= micro < 1_000_000
  {
    if micro == 0 then UTC_OFFSET else "." + (Pad(micro, 6) + UTC_OFFSET)
  }

  lemma Widths()
    ensures Pow10(2) == 100 && Pow10(4) == 10_000 && Pow10(6) == 1_000_000
  {
    assert Pow10(3) == 1_000 && Pow10(5) == 100_000;
  }

  /** `isoformat` of a UTC date-time. */
  function Iso(u: Utc): string
    requires u.Valid()
  {
    Widths();
    Pad(u.year, 4) + ("-" + (Pad(u.month, 2) + ("-" + (Pad(u.day, 2) + ("T" +
    (Pad(u.hour, 2) + (":" + (Pad(u.minute, 2) + (":" + (Pad(u.second, 2) + Fraction(u.micro)))))))))))
  }

  lemma Separated(sep: string, a: string, b: string)
    requires |sep| == 1
    ensures Less(sep + a, sep + b) <==> Less(a, b)
  {
    LessOfConcat(sep, a, sep, b);
    LessIrreflexive(sep);
  }

  /** One zero-padded field followed by the rest. */
  lemma FieldThenRest(n: int, m: int, w: nat, a: string, b: string)
    requires 0 <= n < Pow10(w) && 0 <= m < Pow10(w)
    ensures Less(Pad(n, w) + a, Pad(m, w) + b) <==> n < m || (n == m && Less(a, b))
  {
    PadOrder(n, m, w);
    LessOfConcat(Pad(n, w), a, Pad(m, w), b);
  }

  /** A missing fraction sorts first because '+' comes before '.'. */
  lemma FractionOrder(n: int, m: int)
    requires 0 <= n < 1_000_000 && 0 <= m < 1_000_000
    ensures Less(Fraction(n), Fraction(m)) <==> n < m
  {
    Widths();
    LessIrreflexive(UTC_OFFSET);
    if n > 0 && m > 0 {
      Separated(".", Pad(n, 6) + UTC_OFFSET, Pad(m, 6) + UTC_OFFSET);
      FieldThenRest(n, m, 6, UTC_OFFSET, UTC_OFFSET);
    }
  }

  function ClockText(u: Utc): string
    requires u.Valid()
  {
    Widths();
    Pad(u.hour, 2) + (":" + (Pad(u.minute, 2) + (":" + (Pad(u.second, 2) + Fraction(u.micro)))))
  }

  lemma ClockOrder(a: Utc, b: Utc)
    requires a.Valid() && b.Valid()
    ensures Less(ClockText(a), ClockText(b)) <==> EarlierClock(a, b)
  {
    Widths();
    var a3, b3 := Pad(a.second, 2) + Fraction(a.micro), Pad(b.second, 2) + Fraction(b.micro);
    var a2, b2 := Pad(a.minute, 2) + (":" + a3), Pad(b.minute, 2) + (":" + b3);
    FractionOrder(a.micro, b.micro);
    FieldThenRest(a.second, b.second, 2, Fraction(a.micro), Fraction(b.micro));
    Separated(":", a3, b3);
    FieldThenRest(a.minute, b.minute, 2, ":" + a3, ":" + b3);
    Separated(":", a2, b2);
    FieldThenRest(a.hour, b.hour, 2, ":" + a2, ":" + b2);
  }

  /** Text order is time order, and the text determines the time. */
  lemma IsoOrder(a: Utc, b: Utc)
    requires a.Valid() && b.Valid()
    ensures Less(Iso(a), Iso(b)) <==> Earlier(a, b)
    ensures Iso(a) == Iso(b) <==> a == b
  {
    IsoCompare(a, b);
    EarlierTotal(a, b);
    if a != b && Iso(a) == Iso(b) {
      IsoCompare(b, a);
      LessIrreflexive(Iso(a));
    }
  }

  lemma IsoCompare(a: Utc, b: Utc)
    requires a.Valid() && b.Valid()
    ensures Less(Iso(a), Iso(b)) <==> Earlier(a, b)
  {
    Widths();
    ClockOrder(a, b);
    var a3, b3 := Pad(a.day, 2) + ("T" + ClockText(a)), Pad(b.day, 2) + ("T" + ClockText(b));
    var a2, b2 := Pad(a.month, 2) + ("-" + a3), Pad(b.month, 2) + ("-" + b3);
    Separated("T", ClockText(a), ClockText(b));
    FieldThenRest(a.day, b.day, 2, "T" + ClockText(a), "T" + ClockText(b));
    Separated("-", a3, b3);
    FieldThenRest(a.month, b.month, 2, "-" + a3, "-" + b3);
    Separated("-", a2, b2);
    FieldThenRest(a.year, b.year, 4, "-" + a2, "-" + b2);
    assert Iso(a) == Pad(a.year, 4) + ("-" + a2) && Iso(b) == Pad(b.year, 4) + ("-" + b2);
  }
  // ----- the text, read back

  lemma {:induction false} PadReadsBack(n: int, w: nat)
    requires 0 <= n < Pow10(w)
    ensures IsDecimal(Pad(n, w)) && Number(Pad(n, w)) == n
  {
    if w > 0 {
      PadReadsBack(n / 10, w - 1);
      assert Pad(n, w)[..w - 1] == Pad(n / 10, w - 1);
    }
  }

  /** `s` is the number in decimal, in exactly `w` digits. */
  ghost predicate Writes(s: string, w: nat, n: int) {
    |s| == w && IsDecimal(s) && Number(s) == n
  }

  /** The text is the date, the time and the offset, each number in its fixed width, and six fraction digits or none. */
  ghost predicate IsIsoText(s: string, u: Utc, date: seq<string>, clock: seq<string>, fraction: string) {
    && |date| == |clock| == 3
    && Writes(date[0], 4, u.year) && Writes(date[1], 2, u.month) && Writes(date[2], 2, u.day)
    && Writes(clock[0], 2, u.hour) && Writes(clock[1], 2, u.minute) && Writes(clock[2], 2, u.second)
    && s == date[0] + ("-" + (date[1] + ("-" + (date[2] + ("T" +
            (clock[0] + (":" + (clock[1] + (":" + (clock[2] + fraction))))))))))
    && if u.micro == 0 then fraction == "+00:00"
       else exists digits :: Writes(digits, 6, u.micro) && fraction == "." + (digits + "+00:00")
  }

  /** Every field of the text reads back as the field of the date-time. */
  lemma IsoReadsBack(u: Utc) returns (date: seq<string>, clock: seq<string>, fraction: string)
    requires u.Valid()
    ensures IsIsoText(Iso(u), u, date, clock, fraction)
  {
    Widths();
    PadReadsBack(u.year, 4);
    PadReadsBack(u.month, 2);
    PadReadsBack(u.day, 2);
    PadReadsBack(u.hour, 2);
    PadReadsBack(u.minute, 2);
    PadReadsBack(u.second, 2);
    date, clock := [Pad(u.year, 4), Pad(u.month, 2), Pad(u.day, 2)],
        [Pad(u.hour, 2), Pad(u.minute, 2), Pad(u.second, 2)];
    fraction := Fraction(u.micro);
    if u.micro != 0 {
      PadReadsBack(u.micro, 6);
      assert Writes(Pad(u.micro, 6), 6, u.micro);
    }
  }

  // ----- the calendar

  /** The day after: within the month, the month after, or the year after. */
  ghost predicate IsNextDay(a: Utc, b: Utc) {
    || (b.year == a.year && b.month == a.month && b.day == a.day + 1)
    || (b.year == a.year && b.month == a.month + 1 && b.day == 1 && a.day == DaysInMonth(a.year, a.month))
    || (b.year == a.year + 1 && b.month == 1 && b.day == 1 && a.month == 12 && a.day == 31)
  }

  /** Days are numbered one after the other, as the calendar runs. */
  lemma NextDayHasNextNumber(a: Utc, b: Utc)
    requires a.Valid() && b.Valid() && IsNextDay(a, b)
    ensures DayNumber(b) == DayNumber(a) + 1
  {
    if b.year == a.year + 1 {
      YearLength(a.year);
      YearEnd(a.year);
      assert DaysBeforeMonth(a.year, 13) == DaysBeforeMonth(a.year, 12) + 31;
    }
  }

  /** The calendar is the Gregorian one: its month lengths, its leap years, and its count of days from a known one. */
  lemma GregorianAnchors(year: int)
    ensures DaysInMonth(year, 1) == DaysInMonth(year, 3) == DaysInMonth(year, 5) == DaysInMonth(year, 7) == 31
    ensures DaysInMonth(year, 8) == DaysInMonth(year, 10) == DaysInMonth(year, 12) == 31
    ensures DaysInMonth(year, 4) == DaysInMonth(year, 6) == DaysInMonth(year, 9) == DaysInMonth(year, 11) == 30
    ensures year % 400 == 0 ==> DaysInMonth(year, 2) == 29
    ensures year % 100 == 0 && year % 400 != 0 ==> DaysInMonth(year, 2) == 28
    ensures year % 4 == 0 && year % 100 != 0 ==> DaysInMonth(year, 2) == 29
    ensures year % 4 != 0 ==> DaysInMonth(year, 2) == 28
    ensures DayNumber(Utc(1970, 1, 1, 0, 0, 0, 0)) == 719_163
    ensures forall clock: Utc | clock.Valid() ::
              Instant(clock) - Instant(clock.(hour := 0, minute := 0, second := 0, micro := 0))
              == 3_600_000_000 * clock.hour + 60_000_000 * clock.minute + 1_000_000 * clock.second + clock.micro
  {
    forall clock: Utc | clock.Valid()
      ensures DayNumber(clock.(hour := 0, minute := 0, second := 0, micro := 0)) == DayNumber(clock)
    {
    }
  }
}
