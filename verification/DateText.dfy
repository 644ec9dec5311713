/** Calendar dates as the "2006-01-02" strings that guards, flags and data rows carry. */
module DateText {
  import opened Wrappers
  import opened Text
  import opened Calendar

  const DIGITS := "0123456789"

  /** n in decimal, in at least `width` digits. */
  function Decimal(n: nat, width: nat): string
    decreases n, width
  {
    if n == 0 && width == 0 then ""
    else Decimal(n / 10, if width == 0 then 0 else width - 1) + [DIGITS[n % 10]]
  }

  function Signed(n: int, width: nat): string {
    if n < 0 then "-" + Decimal(-n, width) else Decimal(n, width)
  }

  function FormatDate(d: Date): string
    requires ValidDate(d)
  {
    Signed(d.year, 4) + "-" + Decimal(d.month, 2) + "-" + Decimal(d.day, 2)
  }

  function FormatDay(n: int): string {
    FormatDate(Civil(n))
  }

  function DigitValue(c: char): (v: int)
    ensures 0 <= v <= 9 ==> DIGITS[v] == c
    ensures -1 <= v <= 9
  {
    if '0' <= c <= '9' then c as int - '0' as int else -1
  }

  function ParseDecimal(s: string): Option<nat> {
    if s == "" then Some(0)
    else
      var high := ParseDecimal(s[..|s| - 1]);
      var low := DigitValue(s[|s| - 1]);
      if high.None? || low < 0 then None else Some(10 * high.value + low)
  }

  /** time.Parse("2006-01-02", s): exactly four, two and two digits naming a real date. */
  function ParseDay(s: string): Option<int> {
    if |s| != 10 || s[4] != '-' || s[7] != '-' then None
    else
      var year, month, day := ParseDecimal(s[..4]), ParseDecimal(s[5..7]), ParseDecimal(s[8..]);
      if year.None? || month.None? || day.None? then None
      else
        var d := Date(year.value, month.value, day.value);
        if ValidDate(d) then Some(DayOf(d)) else None
  }

  /** The days whose dates fit the layout: 0000-01-01 to 9999-12-31. */
  predicate FourDigitYear(n: int) {
    -719528 <= n <= 2932896
  }

  lemma FourDigitYears(n: int)
    ensures FourDigitYear(n) <==> 0 <= Civil(n).year <= 9999
  {
    YearBounds(Civil(n));
  }

  lemma YearBounds(d: Date)
    requires ValidDate(d)
    ensures FourDigitYear(DayOf(d)) <==> 0 <= d.year <= 9999
  {
    assert DaysBeforeYear(0) == -719528 && DaysBeforeYear(10000) == 2932897;
    DayOfNormalDate(d);
    MonthSteps(d.year, d.month);
    if d.year < 0 {
      YearsAscend(d.year, 0);
    } else if 0 < d.year {
      YearsAscend(0, d.year);
    }
    if d.year < 10000 {
      YearsAscend(d.year, 10000);
    } else if 10000 < d.year {
      YearsAscend(10000, d.year);
    }
  }

  function Pow10(k: nat): (p: nat)
    ensures p >= 1
  {
    if k == 0 then 1 else 10 * Pow10(k - 1)
  }

  lemma {:induction false} DecimalRoundTrips(n: nat, width: nat)
    requires n < Pow10(width)
    ensures |Decimal(n, width)| == width
    ensures ParseDecimal(Decimal(n, width)) == Some(n)
  {
    if width > 0 {
      DecimalRoundTrips(n / 10, width - 1);
      var s := Decimal(n, width);
      assert s[..|s| - 1] == Decimal(n / 10, width - 1);
    }
  }

  lemma {:induction false} DecimalOrder(n: nat, m: nat, width: nat)
    requires n < Pow10(width) && m < Pow10(width)
    ensures LexLess(Decimal(n, width), Decimal(m, width)) <==> n < m
  {
    if width > 0 {
      var (high, low, high', low') := (n / 10, n % 10, m / 10, m % 10);
      DecimalOrder(high, high', width - 1);
      DecimalRoundTrips(high, width - 1);
      DecimalRoundTrips(high', width - 1);
      DigitOrder(low, low');
      assert Decimal(n, width) == Decimal(high, width - 1) + [DIGITS[low]];
      assert Decimal(m, width) == Decimal(high', width - 1) + [DIGITS[low']];
      hide Decimal, LexLess, ParseDecimal, Pow10;
      LexFields(Decimal(high, width - 1), [DIGITS[low]], Decimal(high', width - 1), [DIGITS[low']]);
      assert n < m <==> high < high' || (high == high' && low < low');
    }
  }

  lemma DigitOrder(i: nat, j: nat)
    requires i < 10 && j < 10
    ensures LexLess([DIGITS[i]], [DIGITS[j]]) <==> i < j
  {
    assert forall k | 0 <= k < 10 :: DIGITS[k] as int == '0' as int + k;
    assert [DIGITS[i]][1..] == "" && [DIGITS[j]][1..] == "";
  }

  lemma Fields(d: Date)
    requires ValidDate(d) && 0 <= d.year <= 9999
    ensures |Decimal(d.year, 4)| == 4 && |Decimal(d.month, 2)| == 2 && |Decimal(d.day, 2)| == 2
    ensures ParseDecimal(Decimal(d.year, 4)) == Some(d.year)
    ensures ParseDecimal(Decimal(d.month, 2)) == Some(d.month)
    ensures ParseDecimal(Decimal(d.day, 2)) == Some(d.day)
  {
    assert Pow10(2) == 100 && Pow10(4) == 100 * Pow10(2);
    DecimalRoundTrips(d.year, 4);
    DecimalRoundTrips(d.month, 2);
    DecimalRoundTrips(d.day, 2);
  }

  lemma FormattedDateParses(d: Date)
    requires ValidDate(d) && 0 <= d.year <= 9999
    ensures ParseDay(FormatDate(d)) == Some(DayOf(d))
    ensures |FormatDate(d)| == 10
  {
    Fields(d);
    var s := FormatDate(d);
    assert s[..4] == Decimal(d.year, 4) && s[5..7] == Decimal(d.month, 2) && s[8..] == Decimal(d.day, 2);
  }

  /** A formatted day parses back to itself, so equal guard strings mean equal days. */
  lemma FormattedDayParses(n: int)
    requires FourDigitYear(n)
    ensures ParseDay(FormatDay(n)) == Some(n)
    ensures |FormatDay(n)| == 10
  {
    FourDigitYears(n);
    FormattedDateParses(Civil(n));
  }

  lemma {:induction false} DigitsParse(s: string)
    requires ParseDecimal(s).Some?
    ensures ParseDecimal(s).value < Pow10(|s|) && Decimal(ParseDecimal(s).value, |s|) == s
  {
    if s != "" {
      var init := s[..|s| - 1];
      DigitsParse(init);
      assert s == init + [s[|s| - 1]];
      var (high, low) := (ParseDecimal(init).value, DigitValue(s[|s| - 1]));
      assert (10 * high + low) / 10 == high && (10 * high + low) % 10 == low;
    }
  }

  /** Only the ten characters of a real date parse: what parses is what its day is written as. */
  lemma ParsedDayFormats(s: string)
    requires ParseDay(s).Some?
    ensures FourDigitYear(ParseDay(s).value) && FormatDay(ParseDay(s).value) == s
  {
    hide DayOf, Decimal, ParseDecimal, Pow10, MonthLength;
    var (y, m, d) := (s[..4], s[5..7], s[8..]);
    var date := Date(ParseDecimal(y).value, ParseDecimal(m).value, ParseDecimal(d).value);
    FieldsParse(y, m, d);
    CalendarIsAnOrderIsomorphism(date, date);
    YearBounds(date);
    assert s == y + "-" + m + "-" + d;
  }

  lemma FieldsParse(y: string, m: string, d: string)
    requires |y| == 4 && |m| == 2 && |d| == 2
    requires ParseDecimal(y).Some? && ParseDecimal(m).Some? && ParseDecimal(d).Some?
    ensures ParseDecimal(y).value <= 9999 && Decimal(ParseDecimal(y).value, 4) == y
    ensures Decimal(ParseDecimal(m).value, 2) == m && Decimal(ParseDecimal(d).value, 2) == d
  {
    assert Pow10(2) == 100 && Pow10(4) == 100 * Pow10(2);
    hide Pow10, Decimal, ParseDecimal;
    DigitsParse(y);
    DigitsParse(m);
    DigitsParse(d);
  }

  /** Digits beyond the width are written out, without leading zeros. */
  lemma {:induction false} NoLeadingZero(n: nat, width: nat)
    requires n >= Pow10(width)
    ensures |Decimal(n, width)| > 0 && Decimal(n, width)[0] != '0'
    decreases n, width
  {
    assert forall k | 0 < k < 10 :: DIGITS[k] != '0';
    var rest := if width == 0 then 0 else width - 1;
    assert Decimal(n, width) == Decimal(n / 10, rest) + [DIGITS[n % 10]];
    if n < 10 {
      assert width == 0 && Decimal(0, 0) == "";
    } else {
      NoLeadingZero(n / 10, rest);
    }
  }

  /** Years before the year 0 carry a sign. */
  lemma EarlyYears(n: int)
    ensures n < 0 ==> Signed(n, 4) == "-" + Signed(-n, 4)
    ensures n >= 0 ==> Signed(n, 4) == Decimal(n, 4)
  {
  }

  lemma ThreeFields(a: string, b: string, c: string, x: string, y: string, z: string)
    requires |a| == |x| && |b| == |y|
    ensures LexLess(a + "-" + b + "-" + c, x + "-" + y + "-" + z)
       <==> LexLess(a, x) || (a == x && (LexLess(b, y) || (b == y && LexLess(c, z))))
  {
    LexIrreflexive("-");
    hide LexLess;
    assert a + "-" + b + "-" + c == a + ("-" + (b + ("-" + c)));
    assert x + "-" + y + "-" + z == x + ("-" + (y + ("-" + z)));
    LexFields(a, "-" + (b + ("-" + c)), x, "-" + (y + ("-" + z)));
    LexFields("-", b + ("-" + c), "-", y + ("-" + z));
    LexFields(b, "-" + c, y, "-" + z);
    LexFields("-", c, "-", z);
  }

  lemma DateOrder(a: Date, b: Date)
    requires ValidDate(a) && ValidDate(b) && 0 <= a.year <= 9999 && 0 <= b.year <= 9999
    ensures LexLess(FormatDate(a), FormatDate(b)) <==> DateLess(a, b)
  {
    Fields(a);
    Fields(b);
    assert Pow10(2) == 100 && Pow10(4) == 100 * Pow10(2);
    DecimalOrder(a.year, b.year, 4);
    DecimalOrder(a.month, b.month, 2);
    DecimalOrder(a.day, b.day, 2);
    hide Decimal, LexLess, ParseDecimal, Pow10;
    ThreeFields(Decimal(a.year, 4), Decimal(a.month, 2), Decimal(a.day, 2),
                Decimal(b.year, 4), Decimal(b.month, 2), Decimal(b.day, 2));
  }

  /** Comparing date strings compares days. */
  lemma TextOrderIsDayOrder(n: int, m: int)
    requires FourDigitYear(n) && FourDigitYear(m)
    ensures LexLess(FormatDay(n), FormatDay(m)) <==> n < m
  {
    FourDigitYears(n);
    FourDigitYears(m);
    DateOrder(Civil(n), Civil(m));
    CalendarIsAnOrderIsomorphism(Civil(n), Civil(m));
  }

  /** A window given and tested as date strings is a range of days. */
  lemma WindowIsARangeOfDays(start: int, end: int, day: int)
    requires FourDigitYear(start) && FourDigitYear(end) && FourDigitYear(day)
    ensures InWindow(FormatDay(start), FormatDay(end), FormatDay(day)) <==> start <= day <= end
    ensures InWindow("", FormatDay(end), FormatDay(day)) <==> day <= end
    ensures InWindow(FormatDay(start), "", FormatDay(day)) <==> start <= day
  {
    FormattedDayParses(start);
    FormattedDayParses(end);
    TextOrderIsDayOrder(day, start);
    TextOrderIsDayOrder(end, day);
    hide FormatDay, LexLess;
  }
}
