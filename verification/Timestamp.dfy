/** Unix timestamps as calendar fields (cli/src/format/time.rs). */
module Timestamp {
  datatype Fields = Fields(year: nat, month: nat, day: nat, hour: nat, minute: nat, second: nat)

  predicate IsLeapYear(year: nat) {
    (year % 4 == 0 && year % 100 != 0) || year % 400 == 0
  }

  function DaysInYear(year: nat): nat {
    if IsLeapYear(year) then 366 else 365
  }

  /** Month lengths, January first. */
  function MonthLengths(leap: bool): (r: seq<nat>)
    ensures |r| == 12
  {
    [31, if leap then 29 else 28, 31, 30, 31, 30, 31, 31, 30, 31, 30, 31]
  }

  // ---------- counting back ----------

  /** Days from 1 January 1970 to 1 January of `year`. */
  function DaysBeforeYear(year: nat): nat
    requires year >= 1970
  {
    if year == 1970 then 0 else DaysBeforeYear(year - 1) + DaysInYear(year - 1)
  }

  /** Days of the first `m` months. */
  function DaysBeforeMonth(leap: bool, m: nat): nat
    requires m <= 12
  {
    if m == 0 then 0 else DaysBeforeMonth(leap, m - 1) + MonthLengths(leap)[m - 1]
  }

  predicate ValidDate(f: Fields) {
    1970 <= f.year && 1 <= f.month <= 12 && 1 <= f.day <= MonthLengths(IsLeapYear(f.year))[f.month - 1]
  }

  predicate Valid(f: Fields) {
    ValidDate(f) && f.hour < 24 && f.minute < 60 && f.second < 60
  }

  function DayNumber(f: Fields): nat
    requires ValidDate(f)
  {
    DaysBeforeYear(f.year) + DaysBeforeMonth(IsLeapYear(f.year), f.month - 1) + (f.day - 1)
  }

  function ToSeconds(f: Fields): nat
    requires Valid(f)
  {
    DayNumber(f) * 86400 + f.hour * 3600 + f.minute * 60 + f.second
  }

  lemma YearLength(leap: bool)
    ensures DaysBeforeMonth(leap, 12) == if leap then 366 else 365
  {
    var february := if leap then 29 else 28;
    assert DaysBeforeMonth(leap, 1) == 31;
    assert DaysBeforeMonth(leap, 2) == 31 + february;
    assert DaysBeforeMonth(leap, 4) == 92 + february;
    assert DaysBeforeMonth(leap, 6) == 153 + february;
    assert DaysBeforeMonth(leap, 8) == 215 + february;
    assert DaysBeforeMonth(leap, 10) == 276 + february;
  }

  // ---------- the calendar as a formula ----------

  /** The leap years up to `y`: every fourth, but not every hundredth, though every four hundredth. */
  function Leaps(y: nat): int {
    y / 4 - y / 100 + y / 400
  }

  lemma DivIs(a: nat, n: nat, q: nat, r: nat)
    requires n > 0 && a == n * q + r && r < n
    ensures a / n == q && a % n == r
  {
    var d := a / n - q;
    assert n * d == r - a % n;
  }

  /** Going one up reaches the next multiple of `n` exactly at a multiple of `n`. */
  lemma EveryNth(y: nat, n: nat)
    requires y > 0 && n > 1
    ensures y / n == (y - 1) / n + if y % n == 0 then 1 else 0
  {
    var q, r := (y - 1) / n, (y - 1) % n;
    assert y == n * q + (r + 1);
    if r + 1 == n {
      assert y == n * (q + 1);
      DivIs(y, n, q + 1, 0);
    } else {
      DivIs(y, n, q, r + 1);
    }
  }

  lemma MultipleOf(y: nat, n: nat, k: nat)
    requires n > 0 && k > 0 && y % (n * k) == 0
    ensures y % n == 0
  {
    assert y == n * (k * (y / (n * k)));
    DivIs(y, n, k * (y / (n * k)), 0);
  }

  lemma LeapsStep(y: nat)
    requires y > 0
    ensures Leaps(y) == Leaps(y - 1) + if IsLeapYear(y) then 1 else 0
  {
    EveryNth(y, 4);
    EveryNth(y, 100);
    EveryNth(y, 400);
    if y % 100 == 0 { MultipleOf(y, 4, 25); }
    if y % 400 == 0 { MultipleOf(y, 100, 4); }
  }

  lemma {:induction false} YearFormula(year: nat)
    requires year >= 1970
    ensures DaysBeforeYear(year) == 365 * (year - 1970) + Leaps(year - 1) - 477
  {
    if year > 1970 {
      YearFormula(year - 1);
      LeapsStep(year - 1);
    }
  }

  /** Days from the first of March to the first of the month `m` months later. */
  function FromMarch(m: nat): nat {
    (153 * m + 2) / 5
  }

  lemma FirstMonths(leap: bool)
    ensures DaysBeforeMonth(leap, 0) == 0 && DaysBeforeMonth(leap, 1) == 31
    ensures DaysBeforeMonth(leap, 2) == 59 + if leap then 1 else 0
  {
    assert DaysBeforeMonth(leap, 1) == 31;
  }

  lemma {:induction false} MonthsFromMarch(leap: bool, m: nat)
    requires m < 10
    ensures DaysBeforeMonth(leap, m + 2) == FromMarch(m) + 59 + if leap then 1 else 0
  {
    if m == 0 { FirstMonths(leap); } else { MonthsFromMarch(leap, m - 1); }
  }

  lemma DayInYear(f: Fields)
    requires ValidDate(f)
    ensures DayNumber(f) == 365 * f.year + Leaps(f.year - 1) + DaysBeforeMonth(IsLeapYear(f.year), f.month - 1)
                            + f.day - 1 - 719527
  {
    YearFormula(f.year);
  }

  lemma EarlyFormula(f: Fields)
    requires ValidDate(f) && f.month <= 2
    ensures DayNumber(f) == 365 * (f.year - 1) + Leaps(f.year - 1) + FromMarch(f.month + 9) + f.day - 1 - 719468
  {
    DayInYear(f);
    FirstMonths(IsLeapYear(f.year));
    assert FromMarch(f.month + 9) == 306 + 31 * (f.month - 1);
  }

  lemma LateFormula(f: Fields)
    requires ValidDate(f) && f.month > 2
    ensures DayNumber(f) == 365 * f.year + Leaps(f.year) + FromMarch(f.month - 3) + f.day - 1 - 719468
  {
    DayInYear(f);
    LeapsStep(f.year);
    MonthsFromMarch(IsLeapYear(f.year), f.month - 3);
  }

  /** The day number is the Gregorian formula for years that begin in March, with 153 days in any five months. */
  lemma DayFormula(f: Fields, y: nat, m: nat)
    requires ValidDate(f) && (f.month <= 2 ==> y == f.year - 1 && m == f.month + 9)
    requires f.month > 2 ==> y == f.year && m == f.month - 3
    ensures DayNumber(f) == 365 * y + Leaps(y) + FromMarch(m) + f.day - 1 - 719468
  {
    if f.month <= 2 { EarlyFormula(f); } else { LateFormula(f); }
  }

  method SplitYears(days: nat) returns (year: nat, left: nat)
    ensures 1970 <= year && left < DaysInYear(year) && days == DaysBeforeYear(year) + left
  {
    year, left := 1970, days;
    while left >= DaysInYear(year)
      invariant 1970 <= year && days == DaysBeforeYear(year) + left
      decreases left
    {
      left := left - DaysInYear(year);
      year := year + 1;
    }
  }

  method SplitMonths(leap: bool, days: nat) returns (month: nat, left: nat)
    requires days < if leap then 366 else 365
    ensures 1 <= month <= 12 && left < MonthLengths(leap)[month - 1]
    ensures days == DaysBeforeMonth(leap, month - 1) + left
  {
    YearLength(leap);
    var lengths := MonthLengths(leap);
    month, left := 1, days;
    for i := 0 to 12
      invariant month == i + 1 && days == DaysBeforeMonth(leap, i) + left
    {
      if left < lengths[i] {
        break;
      }
      left := left - lengths[i];
      month := month + 1;
    }
  }

  /** The calendar fields are valid and count back to the timestamp; before the epoch it is clamped. */
  method FormatFields(timestamp: int) returns (f: Fields)
    ensures Valid(f) && ToSeconds(f) == if timestamp < 0 then 0 else timestamp
  {
    var secs: nat := if timestamp < 0 then 0 else timestamp;
    var days, today := secs / 86400, secs % 86400;
    var year, inYear := SplitYears(days);
    var month, inMonth := SplitMonths(IsLeapYear(year), inYear);
    f := Fields(year, month, inMonth + 1, today / 3600, today % 3600 / 60, today % 60);
    TimeOfDay(today);
  }

  lemma TimeOfDay(today: nat)
    requires today < 86400
    ensures today / 3600 < 24 && today % 3600 / 60 < 60
    ensures today == today / 3600 * 3600 + today % 3600 / 60 * 60 + today % 60
  {
  }

  // ---------- the calendar orders fields as it orders instants ----------

  predicate EarlierDate(a: Fields, b: Fields) {
    a.year < b.year || (a.year == b.year && (a.month < b.month || (a.month == b.month && a.day < b.day)))
  }

  predicate SameDate(a: Fields, b: Fields) {
    a.year == b.year && a.month == b.month && a.day == b.day
  }

  predicate Earlier(a: Fields, b: Fields) {
    EarlierDate(a, b) ||
    (SameDate(a, b) && (a.hour < b.hour || (a.hour == b.hour && (a.minute < b.minute ||
                       (a.minute == b.minute && a.second < b.second)))))
  }

  lemma {:induction false} LaterYear(a: nat, b: nat)
    requires 1970 <= a < b
    ensures DaysBeforeYear(a) + DaysInYear(a) <= DaysBeforeYear(b)
  {
    if a < b - 1 { LaterYear(a, b - 1); }
  }

  lemma {:induction false} LaterMonth(leap: bool, a: nat, b: nat)
    requires a < b <= 12
    ensures DaysBeforeMonth(leap, a) + MonthLengths(leap)[a] <= DaysBeforeMonth(leap, b)
  {
    if a < b - 1 { LaterMonth(leap, a, b - 1); }
  }

  lemma DayWithinYear(f: Fields)
    requires ValidDate(f)
    ensures DaysBeforeYear(f.year) <= DayNumber(f) < DaysBeforeYear(f.year) + DaysInYear(f.year)
  {
    var leap := IsLeapYear(f.year);
    YearLength(leap);
    if f.month < 12 {
      LaterMonth(leap, f.month - 1, f.month);
      LaterMonth(leap, f.month, 12);
    }
  }

  lemma EarlierDateFewerDays(a: Fields, b: Fields)
    requires ValidDate(a) && ValidDate(b) && EarlierDate(a, b)
    ensures DayNumber(a) < DayNumber(b)
  {
    DayWithinYear(a);
    DayWithinYear(b);
    if a.year < b.year {
      LaterYear(a.year, b.year);
    } else if a.month < b.month {
      LaterMonth(IsLeapYear(a.year), a.month - 1, b.month - 1);
    }
  }

  lemma EarlierFewerSeconds(a: Fields, b: Fields)
    requires Valid(a) && Valid(b) && Earlier(a, b)
    ensures ToSeconds(a) < ToSeconds(b)
  {
    if EarlierDate(a, b) {
      EarlierDateFewerDays(a, b);
    }
  }

  /** Valid fields compare exactly as their instants, so different instants never share fields. */
  lemma OrderPreserving(a: Fields, b: Fields)
    requires Valid(a) && Valid(b)
    ensures Earlier(a, b) <==> ToSeconds(a) < ToSeconds(b)
    ensures a == b <==> ToSeconds(a) == ToSeconds(b)
  {
    if Earlier(a, b) { EarlierFewerSeconds(a, b); }
    if Earlier(b, a) { EarlierFewerSeconds(b, a); }
  }
}
