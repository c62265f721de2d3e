/** UTC timestamps in ISO 8601 text, where a zero microsecond part is left out. */
module IsoTime {
  import opened Text
  import opened Numerals

  datatype DateTime = DateTime(year: nat, month: nat, day: nat, hour: nat, minute: nat, second: nat, micro: nat)

  predicate Leap(y: nat) {
    y % 4 == 0 && (y % 100 != 0 || y % 400 == 0)
  }

  function DaysIn(y: nat, m: nat): nat {
    if m == 2 then (if Leap(y) then 29 else 28) else if m in {4, 6, 9, 11} then 30 else 31
  }

  function YearLength(y: nat): nat {
    if Leap(y) then 366 else 365
  }

  predicate Proper(t: DateTime) {
    && 1 <= t.year <= 9999 && 1 <= t.month <= 12 && 1 <= t.day <= DaysIn(t.year, t.month)
    && t.hour < 24 && t.minute < 60 && t.second < 60 && t.micro < 1000000
  }

  // ---- Instants: microseconds since the start of year 1 ----

  function DaysBeforeYear(y: nat): nat {
    if y <= 1 then 0 else DaysBeforeYear(y - 1) + YearLength(y - 1)
  }

  function DaysBeforeMonth(y: nat, m: nat): nat {
    if m <= 1 then 0 else DaysBeforeMonth(y, m - 1) + DaysIn(y, m - 1)
  }

  const MICROS_PER_DAY := 86400000000

  function MicroOfDay(t: DateTime): nat {
    ((t.hour * 60 + t.minute) * 60 + t.second) * 1000000 + t.micro
  }

  function DayNumber(t: DateTime): int {
    DaysBeforeYear(t.year) + DaysBeforeMonth(t.year, t.month) + t.day - 1
  }

  function Instant(t: DateTime): int {
    DayNumber(t) * MICROS_PER_DAY + MicroOfDay(t)
  }

  lemma {:induction false} MonthsAdd(y: nat, m: nat, n: nat)
    requires 1 <= m < n
    ensures DaysBeforeMonth(y, m) + DaysIn(y, m) <= DaysBeforeMonth(y, n)
  {
    if m + 1 < n { MonthsAdd(y, m, n - 1); }
  }

  lemma QuarterLength(y: nat, m: nat)
    requires m > 0
    ensures DaysBeforeMonth(y, m + 3) == DaysBeforeMonth(y, m) + DaysIn(y, m) + DaysIn(y, m + 1) + DaysIn(y, m + 2)
  {
    assert DaysBeforeMonth(y, m + 2) == DaysBeforeMonth(y, m + 1) + DaysIn(y, m + 1);
  }

  lemma YearIsTwelveMonths(y: nat)
    ensures DaysBeforeMonth(y, 13) == YearLength(y)
  {
    assert DaysBeforeMonth(y, 2) == 31;
    assert DaysBeforeMonth(y, 3) == 31 + DaysIn(y, 2);
    QuarterLength(y, 3);
    QuarterLength(y, 6);
    QuarterLength(y, 9);
    assert DaysBeforeMonth(y, 13) == DaysBeforeMonth(y, 12) + 31;
  }

  lemma {:induction false} YearsAdd(y: nat, z: nat)
    requires 1 <= y < z
    ensures DaysBeforeYear(y) + YearLength(y) <= DaysBeforeYear(z)
  {
    if y + 1 < z { YearsAdd(y, z - 1); }
  }

  // ---- Field order is time order ----

  predicate DateBefore(a: DateTime, b: DateTime) {
    a.year < b.year || (a.year == b.year && (a.month < b.month || (a.month == b.month && a.day < b.day)))
  }

  predicate SameDate(a: DateTime, b: DateTime) {
    a.year == b.year && a.month == b.month && a.day == b.day
  }

  predicate ClockBefore(a: DateTime, b: DateTime) {
    a.hour < b.hour || (a.hour == b.hour && (a.minute < b.minute || (a.minute == b.minute &&
      (a.second < b.second || (a.second == b.second && a.micro < b.micro)))))
  }

  predicate FieldsBefore(a: DateTime, b: DateTime) {
    DateBefore(a, b) || (SameDate(a, b) && ClockBefore(a, b))
  }

  lemma DateOrder(a: DateTime, b: DateTime)
    requires Proper(a) && Proper(b) && DateBefore(a, b)
    ensures DayNumber(a) < DayNumber(b)
  {
    if a.year < b.year {
      YearsAdd(a.year, b.year);
      YearIsTwelveMonths(a.year);
      MonthsAdd(a.year, a.month, 13);
    } else if a.month < b.month {
      MonthsAdd(a.year, a.month, b.month);
    }
  }

  lemma FieldsOrder(a: DateTime, b: DateTime)
    requires Proper(a) && Proper(b) && FieldsBefore(a, b)
    ensures Instant(a) < Instant(b)
  {
    hide DaysIn, Leap, DaysBeforeYear, DaysBeforeMonth;
    assert 0 <= MicroOfDay(a) < MICROS_PER_DAY && 0 <= MicroOfDay(b) < MICROS_PER_DAY;
    if DateBefore(a, b) { DateOrder(a, b); }
  }

  // ---- Text ----

  function MicroText(micro: nat): string {
    (if micro == 0 then "" else "." + Numeral(micro, 10, 6)) + "+00:00"
  }

  function ClockText(t: DateTime): string {
    Numeral(t.hour, 10, 2) +
      (":" + (Numeral(t.minute, 10, 2) + (":" + (Numeral(t.second, 10, 2) + MicroText(t.micro)))))
  }

  /** `isoformat()` of a UTC time. */
  function Iso(t: DateTime): string {
    Numeral(t.year, 10, 4) + ("-" + (Numeral(t.month, 10, 2) + ("-" + (Numeral(t.day, 10, 2) + ("T" + ClockText(t))))))
  }

  lemma Widths()
    ensures Power(10, 2) == 100 && Power(10, 4) == 10000 && Power(10, 6) == 1000000
  {
  }

  lemma MicroTextOrder(m: nat, n: nat)
    requires m < n < 1000000
    ensures Before(MicroText(m), MicroText(n))
  {
    Widths();
    if m == 0 {
      FirstDiffers('+', '.', "00:00", Numeral(n, 10, 6) + "+00:00");
      assert MicroText(n) == "." + (Numeral(n, 10, 6) + "+00:00") && MicroText(m) == "+" + "00:00";
    } else {
      NumeralOrdered(m, n, 10, 6, "+00:00", "+00:00");
      BeforePrefixed(".", Numeral(m, 10, 6) + "+00:00", Numeral(n, 10, 6) + "+00:00");
      assert MicroText(m) == "." + (Numeral(m, 10, 6) + "+00:00")
             && MicroText(n) == "." + (Numeral(n, 10, 6) + "+00:00");
    }
  }

  /** One fixed-width field, then the text that follows it. */
  lemma FieldThen(m: nat, n: nat, width: nat, s: string, t: string)
    requires m <= n < Power(10, width) && (m == n ==> Before(s, t))
    ensures Before(Numeral(m, 10, width) + s, Numeral(n, 10, width) + t)
  {
    if m < n { NumeralOrdered(m, n, 10, width, s, t); } else { BeforePrefixed(Numeral(m, 10, width), s, t); }
  }

  lemma ClockTextOrder(a: DateTime, b: DateTime)
    requires Proper(a) && Proper(b) && ClockBefore(a, b)
    ensures Before(ClockText(a), ClockText(b))
  {
    Widths();
    hide Numeral, MicroText, Power, Before, DaysIn;
    var a2, b2 := Numeral(a.second, 10, 2) + MicroText(a.micro), Numeral(b.second, 10, 2) + MicroText(b.micro);
    var a1, b1 := Numeral(a.minute, 10, 2) + (":" + a2), Numeral(b.minute, 10, 2) + (":" + b2);
    if a.hour == b.hour {
      if a.minute == b.minute {
        if a.second == b.second { MicroTextOrder(a.micro, b.micro); }
        FieldThen(a.second, b.second, 2, MicroText(a.micro), MicroText(b.micro));
        BeforePrefixed(":", a2, b2);
      }
      FieldThen(a.minute, b.minute, 2, ":" + a2, ":" + b2);
      BeforePrefixed(":", a1, b1);
    }
    FieldThen(a.hour, b.hour, 2, ":" + a1, ":" + b1);
  }

  lemma IsoFieldsOrder(a: DateTime, b: DateTime)
    requires Proper(a) && Proper(b) && FieldsBefore(a, b)
    ensures Before(Iso(a), Iso(b))
  {
    Widths();
    hide Numeral, ClockText, Power, Before, ClockBefore;
    var a2, b2 := Numeral(a.day, 10, 2) + ("T" + ClockText(a)), Numeral(b.day, 10, 2) + ("T" + ClockText(b));
    var a1, b1 := Numeral(a.month, 10, 2) + ("-" + a2), Numeral(b.month, 10, 2) + ("-" + b2);
    if a.year == b.year {
      if a.month == b.month {
        if a.day == b.day {
          ClockTextOrder(a, b);
          BeforePrefixed("T", ClockText(a), ClockText(b));
        }
        FieldThen(a.day, b.day, 2, "T" + ClockText(a), "T" + ClockText(b));
        BeforePrefixed("-", a2, b2);
      }
      FieldThen(a.month, b.month, 2, "-" + a2, "-" + b2);
      BeforePrefixed("-", a1, b1);
    }
    FieldThen(a.year, b.year, 4, "-" + a1, "-" + b1);
  }

  /** The text order of two timestamps is their order in time, also when only one of them shows microseconds. */
  lemma IsoOrderIsTimeOrder(a: DateTime, b: DateTime)
    requires Proper(a) && Proper(b)
    ensures Before(Iso(a), Iso(b)) <==> Instant(a) < Instant(b)
    ensures AtMost(Iso(a), Iso(b)) <==> Instant(a) <= Instant(b)
    ensures Iso(a) == Iso(b) <==> a == b
  {
    hide Iso, Instant, DaysIn;
    if FieldsBefore(a, b) {
      IsoFieldsOrder(a, b);
      FieldsOrder(a, b);
      BeforeIrreflexive(Iso(a));
      NotBefore(Iso(a), Iso(b));
    } else if FieldsBefore(b, a) {
      IsoFieldsOrder(b, a);
      FieldsOrder(b, a);
      BeforeIrreflexive(Iso(a));
      NotBefore(Iso(b), Iso(a));
    } else {
      assert a == b;
      BeforeIrreflexive(Iso(a));
    }
  }

  // ---- From instants back to calendar fields ----

  function YearOf(days: nat, y: nat): (r: (nat, nat))
    requires y >= 1
    ensures r.0 >= y && r.1 < YearLength(r.0) && DaysBeforeYear(y) + days == DaysBeforeYear(r.0) + r.1
    decreases days
  {
    if days < YearLength(y) then (y, days) else YearOf(days - YearLength(y), y + 1)
  }

  function MonthOf(y: nat, days: nat, m: nat): (r: (nat, nat))
    requires 1 <= m <= 12 && DaysBeforeMonth(y, m) + days < DaysBeforeMonth(y, 13)
    ensures m <= r.0 <= 12 && r.1 < DaysIn(y, r.0) && DaysBeforeMonth(y, m) + days == DaysBeforeMonth(y, r.0) + r.1
    decreases 12 - m
  {
    if days < DaysIn(y, m) then (m, days) else MonthOf(y, days - DaysIn(y, m), m + 1)
  }

  function AtInstant(i: nat): DateTime {
    var (y, dayOfYear) := YearOf(i / MICROS_PER_DAY, 1);
    YearIsTwelveMonths(y);
    FirstDay(y);
    var (m, d) := MonthOf(y, dayOfYear, 1);
    var clock := i % MICROS_PER_DAY;
    var seconds := clock / 1000000;
    DateTime(y, m, d + 1, seconds / 3600, seconds / 60 % 60, seconds % 60, clock % 1000000)
  }

  lemma FirstDay(y: nat)
    ensures DaysBeforeYear(1) == 0 && DaysBeforeMonth(y, 1) == 0
  {
  }

  function LeapsBefore(y: nat): int {
    (y - 1) / 4 - (y - 1) / 100 + (y - 1) / 400
  }

  /** Leap years, counted by divisibility. */
  function Multiple(y: nat, d: nat): nat
    requires d > 0
  {
    if y % d == 0 then 1 else 0
  }

  lemma LeapByMultiples(y: nat)
    ensures (if Leap(y) then 1 else 0) == Multiple(y, 4) - Multiple(y, 100) + Multiple(y, 400)
  {
    assert y % 400 == 0 ==> y % 100 == 0;
    assert y % 100 == 0 ==> y % 4 == 0;
  }

  lemma LeapStep(y: nat)
    requires y >= 1
    ensures LeapsBefore(y + 1) == LeapsBefore(y) + if Leap(y) then 1 else 0
  {
    LeapByMultiples(y);
    QuotientStep(y, 4);
    QuotientStep(y, 100);
    QuotientStep(y, 400);
    hide Leap, Multiple;
  }

  lemma QuotientStep(y: nat, d: nat)
    requires y >= 1 && d in {4, 100, 400}
    ensures y / d == (y - 1) / d + Multiple(y, d)
  {
  }

  /** The Gregorian count of days before a year, in closed form. */
  lemma {:induction false} DaysBeforeYearClosed(y: nat)
    requires y >= 1
    ensures DaysBeforeYear(y) == 365 * (y - 1) + LeapsBefore(y)
  {
    if y > 1 {
      DaysBeforeYearClosed(y - 1);
      LeapStep(y - 1);
      hide LeapsBefore, Leap;
    }
  }

  /** The instants before year 10000, past which a timestamp cannot be represented. */
  const END := 3652059 * MICROS_PER_DAY

  predicate Representable(i: int) {
    0 <= i < END
  }

  /** Computing the calendar fields of an instant inverts reading the instant off the fields. */
  lemma InstantRoundTrip(i: nat)
    ensures Instant(AtInstant(i)) == i
    ensures Proper(AtInstant(i)) <==> Representable(i)
  {
    hide DaysIn, YearLength, DaysBeforeYear, DaysBeforeMonth;
    var (y, dayOfYear) := YearOf(i / MICROS_PER_DAY, 1);
    YearIsTwelveMonths(y);
    FirstDay(y);
    var (m, d) := MonthOf(y, dayOfYear, 1);
    var clock := i % MICROS_PER_DAY;
    var seconds := clock / 1000000;
    assert (seconds / 3600 * 60 + seconds / 60 % 60) * 60 + seconds % 60 == seconds;
    YearWithin(y, dayOfYear);
  }

  lemma LastDay()
    ensures DaysBeforeYear(10000) == 3652059
  {
    DaysBeforeYearClosed(10000);
    hide DaysBeforeYear;
  }

  lemma YearWithin(y: nat, dayOfYear: nat)
    requires y >= 1 && dayOfYear < YearLength(y)
    ensures y <= 9999 <==> DaysBeforeYear(y) + dayOfYear < 3652059
  {
    hide YearLength, DaysBeforeYear;
    LastDay();
    if y < 10000 { YearsAdd(y, 10000); } else if y > 10000 { YearsAdd(10000, y); }
  }

  lemma InstantWithin(t: DateTime)
    requires Proper(t)
    ensures Representable(Instant(t))
  {
    hide Leap, DaysIn, YearLength, DaysBeforeYear, DaysBeforeMonth;
    YearIsTwelveMonths(t.year);
    MonthsAdd(t.year, t.month, 13);
    YearWithin(t.year, DaysBeforeMonth(t.year, t.month) + t.day - 1);
    assert 0 <= MicroOfDay(t) < MICROS_PER_DAY;
  }

  lemma FieldsRoundTrip(t: DateTime)
    requires Proper(t)
    ensures Representable(Instant(t)) && AtInstant(Instant(t)) == t
  {
    InstantWithin(t);
    hide AtInstant, DaysIn, Iso, Instant, Representable, Proper;
    InstantRoundTrip(Instant(t));
    IsoOrderIsTimeOrder(AtInstant(Instant(t)), t);
  }

  /** The days before each month of a year. */
  lemma MonthTable(y: nat, m: nat)
    requires 1 <= m <= 12
    ensures DaysBeforeMonth(y, m) ==
            [0, 31, 59, 90, 120, 151, 181, 212, 243, 273, 304, 334][m - 1] + if m > 2 && Leap(y) then 1 else 0
  {
    hide Leap;
    assert DaysBeforeMonth(y, 2) == 31;
    assert DaysBeforeMonth(y, 3) == 31 + DaysIn(y, 2);
    QuarterLength(y, 3);
    QuarterLength(y, 6);
    QuarterLength(y, 9);
    if m in {4, 7, 10} {
      assert DaysBeforeMonth(y, m) == DaysBeforeMonth(y, m - 1) + DaysIn(y, m - 1);
    } else if m in {5, 8, 11} {
      assert DaysBeforeMonth(y, m - 1) == DaysBeforeMonth(y, m - 2) + DaysIn(y, m - 2);
    }
  }

  lemma ClockFlat(t: DateTime)
    ensures ClockText(t) == Numeral(t.hour, 10, 2) + ":" + Numeral(t.minute, 10, 2) + ":" + Numeral(t.second, 10, 2)
                            + (if t.micro == 0 then "" else "." + Numeral(t.micro, 10, 6)) + "+00:00"
  {
    hide Numeral;
    var head := Numeral(t.hour, 10, 2) + ":" + Numeral(t.minute, 10, 2) + ":" + Numeral(t.second, 10, 2);
    assert ClockText(t) == head + MicroText(t.micro);
  }

  /** The fields in the order year, month, day, hour, minute, second, in four and two digits, six for microseconds. */
  lemma IsoFlat(t: DateTime)
    ensures Iso(t) == Numeral(t.year, 10, 4) + "-" + Numeral(t.month, 10, 2) + "-" + Numeral(t.day, 10, 2) + "T"
                      + (Numeral(t.hour, 10, 2) + ":" + Numeral(t.minute, 10, 2) + ":" + Numeral(t.second, 10, 2)
                         + (if t.micro == 0 then "" else "." + Numeral(t.micro, 10, 6)) + "+00:00")
  {
    ClockFlat(t);
    hide Numeral, ClockText;
    var head := Numeral(t.year, 10, 4) + "-" + Numeral(t.month, 10, 2) + "-" + Numeral(t.day, 10, 2) + "T";
    assert Iso(t) == head + ClockText(t);
  }
}
