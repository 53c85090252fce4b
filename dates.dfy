/** Calendar dates as stored in the `session_date`, `from_date` and `to_date`
    columns, their chronological order, and the two `strftime` renderings the
    course report uses (`%Y-%m-%d` and `%b %d`, in the C locale). */
module Dates {

  datatype Date = Date(year: int, month: int, day: int)

  predicate IsLeapYear(year: int) {
    year % 4 == 0 && (year % 100 != 0 || year % 400 == 0)
  }

  function DaysInMonth(year: int, month: int): (n: int)
    requires 1 <= month <= 12
    ensures 28 <= n <= 31
  {
    if month == 2 then (if IsLeapYear(year) then 29 else 28)
    else if month == 4 || month == 6 || month == 9 || month == 11 then 30
    else 31
  }

  /** A date the host language's `date` type can hold (years 1 to 9999). */
  predicate ValidDate(d: Date) {
    1 <= d.year <= 9999 && 1 <= d.month <= 12 && 1 <= d.day <= DaysInMonth(d.year, d.month)
  }

  /** `a < b` on dates: year first, then month, then day. */
  predicate Before(a: Date, b: Date) {
    a.year < b.year
    || (a.year == b.year && a.month < b.month)
    || (a.year == b.year && a.month == b.month && a.day < b.day)
  }

  /** `a <= b` on dates. */
  predicate OnOrBefore(a: Date, b: Date) {
    !Before(b, a)
  }

  function Digit(n: int): (c: char)
    requires 0 <= n < 10
    ensures '0' <= c <= '9'
  {
    (('0' as int) + n) as char
  }

  /** Zero-padded two-digit rendering (`%m`, `%d`). */
  function TwoDigits(n: int): (s: string)
    requires 0 <= n < 100
    ensures |s| == 2 && forall i :: 0 <= i < 2 ==> '0' <= s[i] <= '9'
  {
    [Digit(n / 10), Digit(n % 10)]
  }

  /** Zero-padded four-digit rendering (`%Y`). */
  function FourDigits(n: int): (s: string)
    requires 0 <= n < 10000
    ensures |s| == 4 && forall i :: 0 <= i < 4 ==> '0' <= s[i] <= '9'
  {
    TwoDigits(n / 100) + TwoDigits(n % 100)
  }

  /** `strftime('%Y-%m-%d')`. */
  function IsoFormat(d: Date): (s: string)
    requires ValidDate(d)
    ensures |s| == 10 && s[4] == '-' && s[7] == '-'
    ensures s[..4] == FourDigits(d.year) && s[5..7] == TwoDigits(d.month) && s[8..] == TwoDigits(d.day)
  {
    FourDigits(d.year) + "-" + TwoDigits(d.month) + "-" + TwoDigits(d.day)
  }

  lemma TwoDigitsInjective(m: int, n: int)
    requires 0 <= m < 100 && 0 <= n < 100
    requires TwoDigits(m) == TwoDigits(n)
    ensures m == n
  {
  }

  lemma FourDigitsInjective(m: int, n: int)
    requires 0 <= m < 10000 && 0 <= n < 10000
    requires FourDigits(m) == FourDigits(n)
    ensures m == n
  {
    assert FourDigits(m)[..2] == TwoDigits(m / 100) && FourDigits(n)[..2] == TwoDigits(n / 100);
    assert FourDigits(m)[2..] == TwoDigits(m % 100) && FourDigits(n)[2..] == TwoDigits(n % 100);
    TwoDigitsInjective(m / 100, n / 100);
    TwoDigitsInjective(m % 100, n % 100);
  }

  /** Distinct dates render to distinct `%Y-%m-%d` strings. */
  lemma IsoFormatInjective(a: Date, b: Date)
    requires ValidDate(a) && ValidDate(b)
    requires IsoFormat(a) == IsoFormat(b)
    ensures a == b
  {
    FourDigitsInjective(a.year, b.year);
    TwoDigitsInjective(a.month, b.month);
    TwoDigitsInjective(a.day, b.day);
  }

  const MonthAbbreviations: seq<string> :=
    ["Jan", "Feb", "Mar", "Apr", "May", "Jun", "Jul", "Aug", "Sep", "Oct", "Nov", "Dec"]

  /** `strftime('%b %d')`, e.g. "Mar 07". */
  function MonthDay(d: Date): (s: string)
    requires ValidDate(d)
    ensures |s| == 6 && s[3] == ' '
    ensures s[..3] == MonthAbbreviations[d.month - 1] && s[4..] == TwoDigits(d.day)
  {
    MonthAbbreviations[d.month - 1] + " " + TwoDigits(d.day)
  }
}
