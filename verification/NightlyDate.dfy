/** The date test of nightly versions: the fields go through a JavaScript date and must come back unchanged. */
module NightlyDate {
  import opened UpdateVersion
  import Decimal

  // ---- Days and dates of ECMA-262, section 21.4.1.

  /** The number of the first day of a year, counted from the first day of 1970. */
  function DayFromYear(y: int): int { 365 * (y - 1970) + (y - 1969) / 4 - (y - 1901) / 100 + (y - 1601) / 400 }

  function DaysInYear(y: int): int { DayFromYear(y + 1) - DayFromYear(y) }

  /** The first day of a month within its year; months count from zero, and month twelve is the end of the year. */
  function MonthStart(y: int, m: nat): int
    requires m <= 12
  {
    var extra := DaysInYear(y) - 365;
    if m <= 1 then 31 * m else [59, 90, 120, 151, 181, 212, 243, 273, 304, 334, 365][m - 2] + extra
  }

  /** `Date.UTC`, in days: two-digit years belong to the twentieth century, months beyond the year roll over. */
  function Utc(year: nat, month: int, day: nat): int {
    var y := (if year <= 99 then 1900 + year else year) + month / 12;
    DayFromYear(y) + MonthStart(y, month % 12) + day - 1
  }

  /** The fields `getUTCFullYear`, `getUTCMonth` and `getUTCDate` of a day are these. */
  predicate Fields(t: int, y: int, m: int, d: int) {
    && DayFromYear(y) <= t < DayFromYear(y + 1) && 0 <= m < 12
    && MonthStart(y, m) <= t - DayFromYear(y) < MonthStart(y, m + 1)
    && d == t - DayFromYear(y) - MonthStart(y, m) + 1
  }

  /** `isValidNightlyDate`: the parsed fields, with the month counted from zero, against those of the date they make. */
  predicate RoundTrips(year: nat, month: nat, day: nat) { Fields(Utc(year, month - 1, day), year, month - 1, day) }

  // ---- The calendar behind it.

  lemma LeapDays(y: int)
    ensures (y - 1968) / 4 - (y - 1969) / 4 == if y % 4 == 0 then 1 else 0
    ensures (y - 1900) / 100 - (y - 1901) / 100 == if y % 100 == 0 then 1 else 0
    ensures (y - 1600) / 400 - (y - 1601) / 400 == if y % 400 == 0 then 1 else 0
  {
    Steps4(y - 1969);
    Steps100(y - 1901);
    Steps400(y - 1601);
  }

  lemma Steps4(n: int)
    ensures (n + 1) / 4 - n / 4 == if (n + 1) % 4 == 0 then 1 else 0
  {
  }

  lemma Steps100(n: int)
    ensures (n + 1) / 100 - n / 100 == if (n + 1) % 100 == 0 then 1 else 0
  {
  }

  lemma Steps400(n: int)
    ensures (n + 1) / 400 - n / 400 == if (n + 1) % 400 == 0 then 1 else 0
  {
  }

  lemma Centuries(y: nat)
    ensures y % 400 == 0 ==> y % 100 == 0
    ensures y % 100 == 0 ==> y % 4 == 0
  {
    if y % 400 == 0 { assert y == 100 * (4 * (y / 400)); }
    if y % 100 == 0 { assert y == 4 * (25 * (y / 100)); }
  }

  /** A year has 366 days in a leap year and 365 otherwise. */
  lemma YearLength(y: nat)
    ensures DaysInYear(y) == if LeapYear(y) then 366 else 365
  {
    LeapDays(y);
    Centuries(y);
    var a, b, c := (y - 1969) / 4, (y - 1901) / 100, (y - 1601) / 400;
    var a', b', c' := (y - 1968) / 4, (y - 1900) / 100, (y - 1600) / 400;
    YearDiffers(y, a, b, c, a', b', c');
  }

  lemma YearDiffers(y: nat, a: int, b: int, c: int, a': int, b': int, c': int)
    requires a == (y - 1969) / 4 && b == (y - 1901) / 100 && c == (y - 1601) / 400
    requires a' == (y - 1968) / 4 && b' == (y - 1900) / 100 && c' == (y - 1600) / 400
    ensures DaysInYear(y) == 365 + (a' - a) - (b' - b) + (c' - c)
  {
  }

  lemma MonthLength(y: nat, m: nat)
    requires m < 12
    ensures MonthStart(y, m + 1) - MonthStart(y, m) == DaysInMonth(y, m + 1)
    ensures 0 <= MonthStart(y, m) && MonthStart(y, m + 1) <= DaysInYear(y)
  {
    hide DaysInYear, LeapYear;
    YearLength(y);
  }

  lemma {:induction false} YearsAscend(y: nat, z: nat)
    requires y <= z
    ensures DayFromYear(y) + 365 * (z - y) <= DayFromYear(z)
    decreases z - y
  {
    if y < z {
      YearLength(z - 1);
      YearsAscend(y, z - 1);
    }
  }

  /** A day has only one year, month and date. */
  lemma FieldsAreUnique(t: int, y: nat, m: nat, d: int, y': nat, m': nat, d': int)
    requires Fields(t, y, m, d) && Fields(t, y', m', d')
    ensures y == y' && m == m' && d == d'
  {
    hide DayFromYear, MonthStart;
    if y < y' { YearsAscend(y + 1, y'); }
    if y' < y { YearsAscend(y' + 1, y); }
    if m < m' { MonthsAscend(y, m + 1, m'); }
    if m' < m { MonthsAscend(y, m' + 1, m); }
  }

  lemma {:induction false} MonthsAscend(y: nat, m: nat, m': nat)
    requires m <= m' <= 12
    ensures MonthStart(y, m) <= MonthStart(y, m')
  {
    hide MonthStart, DayFromYear;
    if m < m' {
      MonthLength(y, m' - 1);
      MonthsAscend(y, m, m' - 1);
    }
  }

  /** The test accepts exactly the dates of the calendar from the year 100 on. */
  lemma RoundTripsIff(year: nat, month: nat, day: nat)
    ensures RoundTrips(year, month, day) <==> 100 <= year && 1 <= month <= 12 && 1 <= day <= DaysInMonth(year, month)
  {
    hide DayFromYear, MonthStart;
    if 1 <= month <= 12 {
      MonthLength(year, month - 1);
      if year <= 99 {
        MonthLength(1900 + year, month - 1);
        YearsAscend(year + 1, 1900 + year);
      }
    }
  }

  /** So the date in a nightly version is valid exactly when its fields come back from a JavaScript date. */
  lemma DateTest(s: string)
    requires |s| == 8 && Decimal.AllDigits(s)
    ensures ValidDate(s) <==> RoundTrips(Decimal.Number(s[..4]), Decimal.Number(s[4..6]), Decimal.Number(s[6..]))
  {
    hide RoundTrips, DaysInMonth;
    RoundTripsIff(Decimal.Number(s[..4]), Decimal.Number(s[4..6]), Decimal.Number(s[6..]));
  }
}
