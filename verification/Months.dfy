/** Months and the names that carry their bounds. A date is its proleptic Gregorian ordinal, 0001-01-01
    being 1; a month is counted from that one, 0-based. */
module Months {
  import opened Options
  import opened Text

  // ---- calendar ----

  predicate IsLeap(year: nat) { year % 4 == 0 && (year % 100 != 0 || year % 400 == 0) }

  function MonthDays(year: nat, month: nat): (n: nat)
    ensures 28 <= n <= 31
  {
    if month == 2 then (if IsLeap(year) then 29 else 28)
    else if month in {4, 6, 9, 11} then 30 else 31
  }

  /** Python's last representable month is December 9999. */
  const LAST_MONTH: nat := 9998 * 12 + 11

  function YearOf(k: nat): nat { k / 12 + 1 }

  function MonthOf(k: nat): (m: nat)
    ensures 1 <= m <= 12
  {
    k % 12 + 1
  }

  function IndexOf(year: nat, month: nat): nat
    requires 1 <= year && 1 <= month <= 12
  {
    (year - 1) * 12 + month - 1
  }

  function FirstDay(k: nat): int {
    if k == 0 then 1 else FirstDay(k - 1) + MonthDays(YearOf(k - 1), MonthOf(k - 1))
  }

  lemma {:induction false} MonthFollows(k: nat)
    ensures FirstDay(k) < FirstDay(k + 1)
  {
  }

  // ---- the calendar in plain terms ----

  /** The days of whole years before a year. */
  lemma {:induction false} YearsBefore(y: nat)
    ensures FirstDay(12 * y) == 1 + 365 * y + y / 4 - y / 100 + y / 400
    decreases y
  {
    if y > 0 {
      YearsBefore(y - 1);
      MonthsBefore(y - 1, 12);
      LeapDays(y);
    }
  }

  lemma {:induction false} LeapDays(y: nat)
    requires y > 0
    ensures y / 4 - y / 100 + y / 400 ==
            (y - 1) / 4 - (y - 1) / 100 + (y - 1) / 400 + (if y % 4 == 0 && (y % 100 != 0 || y % 400 == 0) then 1 else 0)
  {
    Multiples(y, 4);
    Multiples(y, 100);
    Multiples(y, 400);
    Divides(y, 4, 25);
    Divides(y, 100, 4);
  }

  lemma {:induction false} Divides(y: nat, d: nat, c: nat)
    requires d > 0 && c > 0
    ensures y % (d * c) == 0 ==> y % d == 0
  {
    if y % (d * c) == 0 {
      var q := y / (d * c);
      assert y == d * c * q == d * (c * q);
      QuotientIs(y, d, c * q, 0);
    }
  }

  lemma {:induction false} Multiples(y: nat, d: nat)
    requires y > 0 && d > 0
    ensures y / d == (y - 1) / d + (if y % d == 0 then 1 else 0)
  {
    if y % d == 0 {
      assert y - 1 == d * (y / d - 1) + (d - 1);
      QuotientIs(y - 1, d, y / d - 1, d - 1);
    } else {
      assert y - 1 == d * (y / d) + (y % d - 1);
      QuotientIs(y - 1, d, y / d, y % d - 1);
    }
  }

  lemma {:induction false} QuotientIs(x: int, d: nat, q: int, r: int)
    requires d > 0 && x == d * q + r && 0 <= r < d
    ensures x / d == q
  {
    var e := x / d - q;
    assert d * e == r - x % d;
    TimesAtLeast(d, e);
    TimesAtLeast(d, -e);
  }

  lemma {:induction false} TimesAtLeast(d: int, e: int)
    requires d > 0
    ensures e >= 1 ==> d * e >= d
  {
  }

  /** The days of the whole months before a month, in a common year and in a leap year. */
  function DaysBefore(m: nat, leap: bool): int
    requires m <= 12
  {
    [0, 31, 59, 90, 120, 151, 181, 212, 243, 273, 304, 334, 365][m] + (if leap && m >= 2 then 1 else 0)
  }

  lemma {:induction false} MonthsBefore(y: nat, m: nat)
    requires m <= 12
    ensures FirstDay(12 * y + m) == FirstDay(12 * y) + DaysBefore(m, IsLeap(y + 1))
    decreases m
  {
    if m > 0 {
      MonthsBefore(y, m - 1);
      MonthStep(12 * y + m - 1, y, m);
      DaysStep(y + 1, m);
    }
  }

  lemma {:induction false} MonthStep(k: nat, y: nat, m: nat)
    requires 1 <= m <= 12 && k == 12 * y + (m - 1)
    ensures FirstDay(k + 1) == FirstDay(k) + MonthDays(y + 1, m)
  {
    assert YearOf(k) == y + 1 && MonthOf(k) == m;
  }

  lemma {:induction false} DaysStep(year: nat, m: nat)
    requires 1 <= m <= 12
    ensures DaysBefore(m, IsLeap(year)) == DaysBefore(m - 1, IsLeap(year)) + MonthDays(year, m)
  {
  }

  /** The first of a month is its proleptic Gregorian ordinal: whole years, with a leap day every
      fourth, but not every hundredth, but every four hundredth, and whole months. */
  lemma {:induction false} FirstDayIsTheOrdinal(year: nat, month: nat)
    requires year >= 1 && 1 <= month <= 12
    ensures var y := year - 1;
            FirstDay(IndexOf(year, month)) ==
            1 + 365 * y + y / 4 - y / 100 + y / 400 +
            [0, 31, 59, 90, 120, 151, 181, 212, 243, 273, 304, 334][month - 1] +
            (if month > 2 && year % 4 == 0 && (year % 100 != 0 || year % 400 == 0) then 1 else 0)
  {
    OrdinalParts(year - 1, month - 1, IndexOf(year, month));
    TableAt(year, month);
  }

  lemma {:induction false} OrdinalParts(y: nat, m: nat, k: nat)
    requires m <= 12 && k == 12 * y + m
    ensures FirstDay(k) == 1 + 365 * y + y / 4 - y / 100 + y / 400 + DaysBefore(m, IsLeap(y + 1))
  {
    YearsBefore(y);
    MonthsBefore(y, m);
  }

  lemma {:induction false} TableAt(year: nat, month: nat)
    requires 1 <= month <= 12
    ensures DaysBefore(month - 1, IsLeap(year)) ==
            [0, 31, 59, 90, 120, 151, 181, 212, 243, 273, 304, 334][month - 1] +
            (if month > 2 && year % 4 == 0 && (year % 100 != 0 || year % 400 == 0) then 1 else 0)
  {
  }

  // ---- names ----

  function Zeros(n: nat): string { if n == 0 then "" else "0" + Zeros(n - 1) }

  /** `{n:0{w}d}`. */
  function Padded(n: nat, w: nat): string {
    var d := Decimal(n);
    if |d| < w then Zeros(w - |d|) + d else d
  }

  const TABLE := "analytics_events"

  function NameOf(k: nat): string {
    TABLE + "_" + Padded(YearOf(k), 4) + "_" + Padded(MonthOf(k), 2)
  }

  function AddMonth(year: nat, month: nat): (nat, nat) {
    if month == 12 then (year + 1, 1) else (year, month + 1)
  }

  /** `date(year, month, 1)`; `None` is a ValueError. */
  function DateOf(year: nat, month: nat): Option<int> {
    if 1 <= year <= 9999 && 1 <= month <= 12 then Some(FirstDay(IndexOf(year, month))) else None
  }

  /** The last underscore: what is before it and what is after. */
  function RSplit(s: string): Option<(string, string)> {
    if s == "" then None
    else if s[|s| - 1] == '_' then Some((s[..|s| - 1], ""))
    else match RSplit(s[..|s| - 1])
      case None => None
      case Some((head, tail)) => Some((head, tail + [s[|s| - 1]]))
  }

  function ParseInt(s: string): Option<nat> {
    if s != "" && AllDigits(s) then Some(DecimalValue(s)) else None
  }

  /** The exclusive upper bound a partition's name stands for. */
  function PartitionMonthEnd(name: string): Option<int> {
    match RSplit(name)
    case None => None
    case Some((rest, month)) =>
      match RSplit(rest)
      case None => None
      case Some((_, year)) =>
        var y, m := ParseInt(year), ParseInt(month);
        if y.None? || m.None? then None else
          var (ny, nm) := AddMonth(y.value, m.value);
          DateOf(ny, nm)
  }

  lemma {:induction false} RSplitLast(a: string, b: string)
    requires '_' !in b
    ensures RSplit(a + "_" + b) == Some((a, b))
    decreases |b|
  {
    var s := a + "_" + b;
    if b == "" {
      assert s[..|s| - 1] == a;
    } else {
      var init, last := b[..|b| - 1], b[|b| - 1];
      assert last in b && s[|s| - 1] == last && s[..|s| - 1] == a + "_" + init;
      RSplitLast(a, init);
      assert init + [last] == b;
    }
  }

  lemma {:induction false} ZerosAddNothing(n: nat, s: string)
    requires AllDigits(s)
    ensures AllDigits(Zeros(n) + s) && DecimalValue(Zeros(n) + s) == DecimalValue(s)
    decreases n + |s|
  {
    var t := Zeros(n) + s;
    if s == "" {
      if n > 0 {
        ZerosAreDigits(n);
        assert t == Zeros(n) && t[..n - 1] == Zeros(n - 1) + "";
        ZerosAddNothing(n - 1, "");
      }
    } else {
      assert t[..|t| - 1] == Zeros(n) + s[..|s| - 1];
      ZerosAddNothing(n, s[..|s| - 1]);
      assert t == t[..|t| - 1] + [s[|s| - 1]];
    }
  }

  lemma {:induction false} ZerosAreDigits(n: nat)
    ensures |Zeros(n)| == n && forall i :: 0 <= i < n ==> Zeros(n)[i] == '0'
    ensures n > 0 ==> Zeros(n)[..n - 1] == Zeros(n - 1)
  {
    if n > 0 {
      ZerosAreDigits(n - 1);
    }
  }

  lemma {:induction false} PaddedParses(n: nat, w: nat)
    ensures ParseInt(Padded(n, w)) == Some(n) && '_' !in Padded(n, w)
  {
    var d := Decimal(n);
    DecimalRoundTrip(n);
    if |d| < w {
      ZerosAddNothing(w - |d|, d);
      assert AllDigits(Padded(n, w));
    }
  }

  lemma {:induction false} NextMonth(k: nat)
    ensures var (ny, nm) := AddMonth(YearOf(k), MonthOf(k));
            ny == YearOf(k + 1) && nm == MonthOf(k + 1) && IndexOf(ny, nm) == k + 1
  {
  }

  lemma {:induction false} NameParts(table: string, year: string, month: string)
    requires '_' !in year && '_' !in month
    ensures RSplit(table + "_" + year + "_" + month) == Some((table + "_" + year, month))
    ensures RSplit(table + "_" + year) == Some((table, year))
  {
    RSplitLast(table + "_" + year, month);
    RSplitLast(table, year);
  }

  lemma {:induction false} EndOfParts(name: string, rest: string, table: string, year: string, month: string, y: nat, m: nat)
    requires RSplit(name) == Some((rest, month)) && RSplit(rest) == Some((table, year))
    requires ParseInt(year) == Some(y) && ParseInt(month) == Some(m)
    ensures PartitionMonthEnd(name) == DateOf(AddMonth(y, m).0, AddMonth(y, m).1)
  {
  }

  /** A partition's name parses back to its own upper bound. */
  lemma {:induction false} NameParsesBack(k: nat)
    requires k < LAST_MONTH
    ensures PartitionMonthEnd(NameOf(k)) == Some(FirstDay(k + 1))
  {
    var year, month := Padded(YearOf(k), 4), Padded(MonthOf(k), 2);
    PaddedParses(YearOf(k), 4);
    PaddedParses(MonthOf(k), 2);
    NameParts(TABLE, year, month);
    EndOfParts(NameOf(k), TABLE + "_" + year, TABLE, year, month, YearOf(k), MonthOf(k));
    NextMonth(k);
    assert YearOf(k + 1) <= 9999;
  }

  // ---- names in plain terms ----

  /** `w` digits. */
  function Fixed(n: nat, w: nat): string {
    if w == 0 then "" else Fixed(n / 10, w - 1) + [DigitChar(n % 10)]
  }

  function Pow10(w: nat): nat { if w == 0 then 1 else 10 * Pow10(w - 1) }

  lemma {:induction false} FixedZero(w: nat)
    ensures Fixed(0, w) == Zeros(w)
  {
    if w > 0 {
      FixedZero(w - 1);
      ZerosEnd(w);
    }
  }

  lemma {:induction false} ZerosEnd(n: nat)
    requires n > 0
    ensures Zeros(n) == Zeros(n - 1) + "0"
  {
    if n > 1 { ZerosEnd(n - 1); }
  }

  lemma {:induction false} DecimalFits(n: nat, w: nat)
    requires n < Pow10(w) && w >= 1
    ensures |Decimal(n)| <= w
  {
    if n >= 10 { DecimalFits(n / 10, w - 1); }
  }

  lemma {:induction false} PaddedIsFixed(n: nat, w: nat)
    requires n < Pow10(w) && w >= 1
    ensures Padded(n, w) == Fixed(n, w)
  {
    DecimalFits(n, w);
    if n < 10 {
      FixedZero(w - 1);
      assert Zeros(0) == "";
    } else {
      PaddedIsFixed(n / 10, w - 1);
      DecimalFits(n / 10, w - 1);
      assert Decimal(n) == Decimal(n / 10) + [DigitChar(n % 10)];
      var zeros, d := Zeros(w - |Decimal(n)|), Decimal(n / 10);
      assert zeros + (d + [DigitChar(n % 10)]) == (zeros + d) + [DigitChar(n % 10)];
      assert Zeros(0) == "" && "" + d == d;
    }
  }

  function Digit(d: nat): char
    requires d < 10
  {
    "0123456789"[d]
  }

  lemma DigitIsDigitChar(d: nat)
    requires d < 10
    ensures DigitChar(d) == Digit(d)
  {
  }

  lemma {:induction false} TwoDigits(n: nat)
    requires n < 100
    ensures Padded(n, 2) == [Digit(n / 10), Digit(n % 10)]
  {
    assert Pow10(0) == 1 && Pow10(1) == 10;
    PaddedIsFixed(n, 2);
    DigitIsDigitChar(n / 10);
    DigitIsDigitChar(n % 10);
    assert Fixed(n / 10, 1) == [Digit(n / 10)];
  }

  lemma {:induction false} FourDigits(n: nat)
    requires n < 10000
    ensures Padded(n, 4) == [Digit(n / 1000), Digit(n / 100 % 10), Digit(n / 10 % 10), Digit(n % 10)]
  {
    assert Pow10(2) == 100 && Pow10(3) == 1000;
    PaddedIsFixed(n, 4);
    DigitIsDigitChar(n / 1000);
    DigitIsDigitChar(n / 100 % 10);
    DigitIsDigitChar(n / 10 % 10);
    DigitIsDigitChar(n % 10);
    assert n / 10 / 10 == n / 100 && n / 100 / 10 == n / 1000;
    assert Fixed(n / 1000, 1) == [Digit(n / 1000)];
    assert Fixed(n / 100, 2) == [Digit(n / 1000), Digit(n / 100 % 10)];
    assert Fixed(n / 10, 3) == [Digit(n / 1000), Digit(n / 100 % 10), Digit(n / 10 % 10)];
  }

  /** `analytics_events_YYYY_MM`: four digits of the year and two of the month. */
  lemma {:induction false} NameInPlainTerms(year: nat, month: nat)
    requires 1 <= year <= 9999 && 1 <= month <= 12
    ensures NameOf(IndexOf(year, month)) ==
            "analytics_events_" + [Digit(year / 1000), Digit(year / 100 % 10), Digit(year / 10 % 10), Digit(year % 10)] +
            "_" + [Digit(month / 10), Digit(month % 10)]
  {
    FourDigits(year);
    TwoDigits(month);
    var k := IndexOf(year, month);
    assert YearOf(k) == year && MonthOf(k) == month;
    assert TABLE + "_" == "analytics_events_";
  }

  /** What any name stands for: if it ends in two numbers, the date the month after them starts on,
      when there is such a date. Month 0, which no created name has, counts as the one before January. */
  lemma {:induction false} EndInPlainTerms(table: string, year: string, month: string)
    requires '_' !in year && '_' !in month
    ensures PartitionMonthEnd(table + "_" + year + "_" + month) ==
            if !AllDigits(year) || !AllDigits(month) || year == "" || month == "" then None else
              var y, m := DecimalValue(year), DecimalValue(month);
              if m == 12 && y <= 9998 then Some(FirstDay(12 * y))
              else if m <= 11 && 1 <= y <= 9999 then Some(FirstDay(12 * (y - 1) + m))
              else None
  {
    NameParts(table, year, month);
  }

  lemma {:induction false} NoUnderscore(s: string)
    requires '_' !in s
    ensures RSplit(s) == None
  {
    if s != "" { NoUnderscore(s[..|s| - 1]); }
  }

  /** A name with fewer than two underscores is no bound. */
  lemma {:induction false} TooFewParts(a: string, b: string)
    requires '_' !in a && '_' !in b
    ensures PartitionMonthEnd(a) == None && PartitionMonthEnd(a + "_" + b) == None
  {
    NoUnderscore(a);
    RSplitLast(a, b);
  }
}
