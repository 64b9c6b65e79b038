/** What the comparison of two MessageTimes means for the calendar. */
module TimeOrder {
  import opened Text
  import opened MessageTime

  /** A moment of the calendar (a day past the end of a short month is not excluded). */
  ghost predicate Valid(t: Time) {
    1 <= t.month <= 12 && 1 <= t.day <= 31 && 0 <= t.hour < 24 && 0 <= t.minute < 60 && 0 <= t.second < 60 &&
    0.0 <= t.frac < 1.0
  }

  /** The day number the code works with: month lengths are multiplied, not accumulated. */
  function DayNumber(t: Time): int {
    t.month * MonthLength(t.month) + t.day
  }

  /** Lexicographic order on (day number, hour, minute, second, fraction). */
  ghost predicate LexGreater(a: Time, b: Time) {
    DayNumber(a) > DayNumber(b) || (DayNumber(a) == DayNumber(b) && ClockGreater(a, b))
  }

  ghost predicate ClockGreater(a: Time, b: Time) {
    a.hour > b.hour || (a.hour == b.hour && (
    a.minute > b.minute || (a.minute == b.minute && (
    a.second > b.second || (a.second == b.second && a.frac > b.frac)))))
  }

  /** Lexicographic order on (day, hour, minute, second, fraction). */
  ghost predicate DayGreater(a: Time, b: Time) {
    a.day > b.day || (a.day == b.day && ClockGreater(a, b))
  }

  function ClockSeconds(t: Time): real {
    (t.hour * 3600 + t.minute * 60 + t.second) as real + t.frac
  }

  lemma ClockOrder(a: Time, b: Time)
    requires Valid(a) && Valid(b)
    ensures ClockSeconds(a) > ClockSeconds(b) <==> ClockGreater(a, b)
    ensures 0.0 <= ClockSeconds(a) < 86400.0
  {
    var wa, wb := a.hour * 3600 + a.minute * 60 + a.second, b.hour * 3600 + b.minute * 60 + b.second;
    assert wa >= wb + 1 ==> wa as real >= wb as real + 1.0;
    assert wb >= wa + 1 ==> wb as real >= wa as real + 1.0;
    assert 0 <= wa <= 86399;
  }

  lemma SecondsSplit(t: Time)
    ensures Seconds(t) == (Bytes.Wrap32(t.year * 31536000) + LeapSeconds(t.year)) as real
                          + (DayNumber(t) * 86400) as real + ClockSeconds(t)
  {
    assert t.month * (86400 * MonthLength(t.month)) == t.month * MonthLength(t.month) * 86400;
  }

  /** Within one year the comparison is the lexicographic order on the code's day number and
      the clock. */
  lemma SameYearOrder(a: Time, b: Time)
    requires Valid(a) && Valid(b) && a.year == b.year
    ensures Greater(a, b) <==> LexGreater(a, b)
  {
    SecondsSplit(a);
    SecondsSplit(b);
    ClockOrder(a, b);
    ClockOrder(b, a);
    var da, db := DayNumber(a), DayNumber(b);
    assert da > db ==> (da * 86400) as real >= (db * 86400) as real + 86400.0;
    assert db > da ==> (db * 86400) as real >= (da * 86400) as real + 86400.0;
  }

  /** In figures: the days the code counts for the month, in front of those of the month. */
  lemma MonthTable(month: int)
    requires 1 <= month <= 12
    ensures month * MonthLength(month) ==
            [31, 56, 93, 120, 155, 180, 217, 248, 270, 310, 330, 372][month - 1]
  {
  }

  /** Two times of one year, whatever their months, compare by the day counted this way and then
      by hour, minute, second and fraction. */
  lemma YearTable(a: Time, b: Time, da: int, db: int)
    requires Valid(a) && Valid(b) && a.year == b.year
    requires da == [31, 56, 93, 120, 155, 180, 217, 248, 270, 310, 330, 372][a.month - 1] + a.day
    requires db == [31, 56, 93, 120, 155, 180, 217, 248, 270, 310, 330, 372][b.month - 1] + b.day
    ensures Greater(a, b) <==>
            da > db || (da == db && (a.hour > b.hour || (a.hour == b.hour && (
            a.minute > b.minute || (a.minute == b.minute && (
            a.second > b.second || (a.second == b.second && a.frac > b.frac)))))))
  {
    hide Greater, MonthLength;
    SameYearOrder(a, b);
    MonthTable(a.month);
    MonthTable(b.month);
  }

  /** So a day of a month compares later than one of the next month exactly if it is later in
      its month by more than so many days, or by just as many and later on the clock. */
  lemma NextMonth(a: Time, b: Time, k: int)
    requires Valid(a) && Valid(b) && a.year == b.year && b.month == a.month + 1
    requires k == [25, 37, 27, 35, 25, 37, 31, 22, 40, 20, 42][a.month - 1]
    ensures Greater(a, b) <==> a.day - b.day > k || (a.day - b.day == k && ClockGreater(a, b))
  {
    hide Greater, MonthLength;
    SameYearOrder(a, b);
    MonthTable(a.month);
    MonthTable(b.month);
  }

  /** Within one month that is the order of the calendar. */
  lemma SameMonthOrder(a: Time, b: Time)
    requires Valid(a) && Valid(b) && a.year == b.year && a.month == b.month
    ensures Greater(a, b) <==> DayGreater(a, b)
  {
    SameYearOrder(a, b);
  }

  /** Every moment of month m that exists is before every moment of month n, to the code. */
  ghost predicate MonthsOrdered(m: int, n: int) {
    forall a, b | Valid(a) && Valid(b) && a.year == b.year && a.month == m && b.month == n && a.day <= MonthLength(m) ::
      Greater(b, a)
  }

  /** Across the months of a year the comparison is not chronological: it fails exactly for
      the five pairs of neighbouring months whose day numbers overlap. */
  lemma MonthsOrderedIff(m: int, n: int)
    requires 1 <= m < n <= 12
    ensures MonthsOrdered(m, n) <==> !(n == m + 1 && m in {1, 3, 5, 8, 10})
  {
    var last := Time(2018, m, MonthLength(m), 0, 0, 0, 0.0, "");
    var first := Time(2018, n, 1, 0, 0, 0, 0.0, "");
    if n == m + 1 && m in {1, 3, 5, 8, 10} {
      SameYearOrder(first, last);
      assert Valid(last) && Valid(first) && !Greater(first, last);
    } else {
      assert DayNumber(last) < DayNumber(first);
      forall a, b | Valid(a) && Valid(b) && a.year == b.year && a.month == m && b.month == n &&
                    a.day <= MonthLength(m)
        ensures Greater(b, a)
      {
        assert DayNumber(a) <= DayNumber(last) && DayNumber(first) <= DayNumber(b);
        SameYearOrder(b, a);
      }
    }
  }

  /** How often the product with the year has wrapped around the 32-bit range. */
  function Wraps(year: int): int {
    (year * 31536000 + 0x8000_0000) / 0x1_0000_0000
  }

  lemma YearProduct(y: int)
    ensures Bytes.Wrap32(y * 31536000) == y * 31536000 - Wraps(y) * 0x1_0000_0000
  {
    Bytes.Wrap32Quotient(y * 31536000);
  }

  /** From 1975 to 2110 the product keeps equal distances. */
  lemma NoWrap(y: int)
    ensures Wraps(y) == 15 <==> 1975 <= y <= 2110
  {
  }

  function LeapDays(year: int): nat {
    if year % 400 == 0 then 1 else 0
  }

  /** The last days of a year and the first days of the next whose numbers overlap: more than
      24 days of the month apart, leap days counted, or 24 and not yet as late on the clock. */
  ghost predicate NewYearOverlap(a: Time, b: Time) {
    var d := a.day + LeapDays(a.year) - b.day - LeapDays(b.year);
    b.year == a.year + 1 && a.month == 12 && b.month == 1 && (d > 24 || (d == 24 && !ClockGreater(b, a)))
  }

  /** The seconds of a time, split into whole days behind the start of its year and the clock. */
  lemma YearSplit(t: Time)
    ensures Seconds(t) == (t.year * 31536000 - Wraps(t.year) * 0x1_0000_0000
                           + (DayNumber(t) + LeapDays(t.year)) * 86400) as real + ClockSeconds(t)
  {
    SecondsSplit(t);
    YearProduct(t.year);
    LeapYears(t.year);
  }

  lemma DayNumberRange(t: Time)
    requires Valid(t)
    ensures 32 <= DayNumber(t) <= 403
    ensures t.month == 1 ==> DayNumber(t) == 31 + t.day
    ensures t.month > 1 ==> DayNumber(t) >= 57
    ensures t.month == 12 ==> DayNumber(t) == 372 + t.day
    ensures t.month < 12 ==> DayNumber(t) <= 361
  {
  }

  /** Whole days decide, and between equal ones the clock. */
  lemma DaysThenClock(a: Time, b: Time, da: int, db: int)
    requires Valid(a) && Valid(b)
    ensures (db * 86400) as real + ClockSeconds(b) > (da * 86400) as real + ClockSeconds(a) <==>
            db > da || (db == da && ClockGreater(b, a))
  {
    ClockOrder(a, b);
    ClockOrder(b, a);
    assert da > db ==> (da * 86400) as real >= (db * 86400) as real + 86400.0;
    assert db > da ==> (db * 86400) as real >= (da * 86400) as real + 86400.0;
  }

  lemma YearsWithoutWrap(a: Time, b: Time)
    requires Valid(a) && Valid(b) && a.year < b.year && Wraps(a.year) == Wraps(b.year)
    ensures Seconds(b) > Seconds(a) <==> !NewYearOverlap(a, b)
  {
    YearSplit(a);
    YearSplit(b);
    var da, db := DayNumber(a) + LeapDays(a.year), (b.year - a.year) * 365 + DayNumber(b) + LeapDays(b.year);
    DaysThenClock(a, b, da, db);
    DayNumberRange(a);
    DayNumberRange(b);
    hide Seconds, DayNumber, ClockSeconds, ClockGreater;
    var base := a.year * 31536000 - Wraps(a.year) * 0x1_0000_0000;
    assert Seconds(a) == base as real + ((da * 86400) as real + ClockSeconds(a));
    assert Seconds(b) == base as real + ((db * 86400) as real + ClockSeconds(b));
  }

  lemma YearsWithWrap(a: Time, b: Time)
    requires Valid(a) && Valid(b) && a.year < b.year <= a.year + 135 && Wraps(a.year) != Wraps(b.year)
    ensures Wraps(b.year) == Wraps(a.year) + 1 && Seconds(b) < Seconds(a)
  {
    YearSplit(a);
    YearSplit(b);
    DayNumberRange(a);
    DayNumberRange(b);
    ClockOrder(a, b);
    ClockOrder(b, a);
  }

  /** Across years the comparison is not chronological either. For two times of different
      years, at most 135 years apart, it is right exactly when the 32-bit product does not wrap
      around between the years and the times are not in the overlap around one New Year. */
  lemma YearsOrderedIff(a: Time, b: Time)
    requires Valid(a) && Valid(b) && a.year < b.year <= a.year + 135
    ensures Greater(b, a) <==> Wraps(a.year) == Wraps(b.year) && !NewYearOverlap(a, b)
  {
    if Wraps(a.year) == Wraps(b.year) {
      YearsWithoutWrap(a, b);
    } else {
      YearsWithWrap(a, b);
    }
  }

  /** For instance any moment of the last day of a year counts as later than any moment of the
      first day of the next. */
  lemma NewYearInversion(a: Time, b: Time)
    requires Valid(a) && Valid(b) && b.year == a.year + 1 && 1975 <= a.year < 2110
    requires a.month == 12 && a.day == 31 && b.month == 1 && b.day == 1
    ensures Greater(a, b) && !Greater(b, a)
  {
    YearsOrderedIff(a, b);
    NoWrap(a.year);
    NoWrap(b.year);
    YearSplit(a);
    YearSplit(b);
    ClockOrder(a, b);
    ClockOrder(b, a);
  }

  /** A cut-off too short to hold a year is taken as the start of 1970, which lies in front of a
      wrap-around: no time of the years 1975 to 2105 passes it. */
  lemma ShortCutOff(s: string, t: Time)
    requires |s| < 4 && Valid(t) && 1975 <= t.year <= 2105
    ensures Parse(s) == Time(1970, 1, 1, 0, 0, 0, 0.0, "") && !Greater(t, Parse(s))
  {
    assert Parse(s) == EPOCH;
    NoWrap(1970);
    NoWrap(t.year);
    YearsOrderedIff(EPOCH, t);
  }

  // ---------- cutting the text of a time short ----------

  /** A stamp, then nothing or a point and digits. */
  predicate KeyTime(s: string) {
    Stamped(s) && (|s| > 19 ==> s[19] == '.' && AllDigits(s[20..]))
  }

  lemma {:induction false} FractionPrefix(ds: string, n: nat)
    requires AllDigits(ds) && n <= |ds|
    ensures Fraction(ds[..n]) <= Fraction(ds)
    decreases ds
  {
    if n > 0 {
      assert ds[..n][1..] == ds[1..][..n - 1];
      FractionPrefix(ds[1..], n - 1);
    }
  }

  lemma AtofPoint(s: string)
    requires |s| >= 1 && s[0] == '.' && AllDigits(s[1..])
    ensures Atof(s) == Fraction(s[1..])
  {
    LeadingDigitsAll(s[1..]);
    assert LeadingDigits(s) == "";
    assert s[0..] == s;
  }

  lemma CutFraction(s: string, n: nat)
    requires KeyTime(s) && 20 <= n <= |s|
    ensures 0.0 <= Parse(s[..n]).frac <= Parse(s).frac
  {
    var tail, cut := s[19..], s[..n][19..];
    assert cut == tail[..n - 19];
    assert tail[1..] == s[20..] && cut[1..] == tail[1..][..n - 20];
    AtofPoint(tail);
    AtofPoint(cut);
    FractionPrefix(tail[1..], n - 20);
  }

  lemma CutFields(s: string, n: nat)
    requires |s| >= 19 && 4 <= n <= |s|
    ensures var t, c := Parse(s), Parse(s[..n]);
            && c.year == t.year
            && c.month == (if n < 7 then 1 else t.month)
            && c.day == (if n < 10 then 1 else t.day)
            && c.hour == (if n < 13 then 0 else t.hour)
            && c.minute == (if n < 16 then 0 else t.minute)
            && c.second == (if n < 19 then 0 else t.second)
            && (n < 20 ==> c.frac == 0.0)
  {
    hide Atoi, Atof;
    CutSlice(s, n, 0, 4);
    if n >= 7 { CutSlice(s, n, 5, 7); }
    if n >= 10 { CutSlice(s, n, 8, 10); }
    if n >= 13 { CutSlice(s, n, 11, 13); }
    if n >= 16 { CutSlice(s, n, 14, 16); }
    if n >= 19 { CutSlice(s, n, 17, 19); }
  }

  lemma CutSlice(s: string, n: nat, i: nat, j: nat)
    requires i <= j <= n <= |s|
    ensures s[..n][i..j] == s[i..j]
  {
  }

  /** A cut-off time written as any prefix of at least the year: a key of that year, month,
      ... passes the filter exactly when it is not the very time the prefix parses to. No
      key the prefix was cut from is ever taken to be earlier. */
  lemma CutOffPasses(s: string, n: nat)
    requires KeyTime(s) && Valid(Parse(s)) && 4 <= n <= |s|
    ensures Greater(Parse(s), Parse(s[..n])) <==> !Same(Parse(s), Parse(s[..n]))
  {
    hide Parse, Seconds;
    var t, c := Parse(s), Parse(s[..n]);
    CutFields(s, n);
    if n >= 20 {
      CutFraction(s, n);
    }
    assert Valid(c);
    SameYearOrder(t, c);
    assert t.month > 1 ==> DayNumber(t) > 32;
  }
}
