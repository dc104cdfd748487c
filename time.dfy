/** src/time.rs: the diary's clock and its fixed-offset JST calendar.
    The host clock (`js_sys::Date::now`) is the integer `millis` parameter. */
module Time {
  import opened Wrappers
  import opened Strings
  import opened Calendar
  import opened RustInt

  const SECONDS_PER_DAY: int := 86_400
  const MILLIS_PER_DAY: int := 86_400_000
  /** Asia/Tokyo is UTC+09:00 all year round: Japan has no daylight saving time. */
  const JST_OFFSET_SECONDS: int := 9 * 3600
  const JST_OFFSET_MILLIS: int := 9 * 3_600_000
  /** The last millisecond whose JST date, 9999-12-31, still has a four-digit year. */
  const LAST_FOUR_DIGIT_MILLIS: int := 253_402_268_399_999
  /** The day number of 9999-12-31. */
  const LAST_FOUR_DIGIT_DAY: int := 2_932_896

  /** An instant as chrono's `DateTime<Utc>` holds it. */
  datatype Instant = Instant(secs: int, nanos: nat)

  /** `DateTime::from_timestamp(secs, nsecs).unwrap()` succeeds: a negative
      reading that is not a whole second leaves a negative remainder, which
      wraps to more than 2 * 10^9 nanoseconds when cast to `u32`, and the
      `unwrap` panics. */
  predicate ClockReadable(millis: int)
  {
    millis >= 0 || millis % 1000 == 0
  }

  /** `now_utc`: Rust's truncating `millis / 1000` seconds and
      `(millis % 1000) * 1_000_000` nanoseconds. */
  function NowUtc(millis: int): (t: Instant)
    requires ClockReadable(millis)
    ensures t.nanos < 1_000_000_000 && t.nanos % 1_000_000 == 0
    ensures t.secs == millis / 1000 && t.nanos == (millis % 1000) * 1_000_000
    ensures t.secs * 1000 + t.nanos / 1_000_000 == millis
  {
    var r := TruncRem(millis, 1000);
    assert millis < 0 ==> r == 0;
    Instant(TruncDiv(millis, 1000), (r * 1_000_000) as nat)
  }

  /** The JST day number of an instant: the UTC seconds shifted by +09:00,
      counted in whole days from 1970-01-01 (floor, as chrono does). */
  function JstDayNumber(t: Instant): int
  {
    (t.secs + JST_OFFSET_SECONDS) / SECONDS_PER_DAY
  }

  /** chrono's `%Y`: four zero-padded digits inside 0..=9999, otherwise a
      sign followed by at least four digits. */
  function FormatYear(y: int): string
  {
    if 0 <= y <= 9999 then ZeroPad(y, 4)
    else if y < 0 then "-" + ZeroPad(-y, 4)
    else "+" + ZeroPad(y, 4)
  }

  /** chrono's `%Y-%m-%d`. */
  function FormatDate(d: Date): string
    requires ValidDate(d)
  {
    FormatYear(d.year) + "-" + ZeroPad(d.month, 2) + "-" + ZeroPad(d.day, 2)
  }

  /** `today_jst`: today's date in Japan as `YYYY-MM-DD`. */
  function TodayJst(millis: int): string
    requires ClockReadable(millis)
  {
    FormatDate(CivilFromDays(JstDayNumber(NowUtc(millis))))
  }

  /** `HH:MM:SS` of a second of the day. */
  function ClockText(tod: int): string
    requires 0 <= tod < SECONDS_PER_DAY
  {
    ZeroPad(tod / 3600, 2) + ":" + ZeroPad(tod / 60 % 60, 2) + ":" + ZeroPad(tod % 60, 2)
  }

  /** chrono's automatic sub-second digits: none for a whole second, else
      three, six or nine digits, as few as show every non-zero digit. */
  function Fraction(nanos: nat): string
  {
    if nanos == 0 then ""
    else if nanos % 1_000_000 == 0 then "." + ZeroPad(nanos / 1_000_000, 3)
    else if nanos % 1000 == 0 then "." + ZeroPad(nanos / 1000, 6)
    else "." + ZeroPad(nanos, 9)
  }

  /** `now_iso8601`: `to_rfc3339()` of the UTC instant,
      `YYYY-MM-DDTHH:MM:SS[.fff]+00:00`. */
  function NowIso8601(millis: int): string
    requires ClockReadable(millis)
  {
    var t := NowUtc(millis);
    FormatDate(CivilFromDays(t.secs / SECONDS_PER_DAY)) + "T" + ClockText(t.secs % SECONDS_PER_DAY)
      + Fraction(t.nanos) + "+00:00"
  }

  /** `is_today`. */
  function IsToday(date: string, millis: int): bool
    requires ClockReadable(millis)
  {
    date == TodayJst(millis)
  }

  /** `parse_date`: a strict `YYYY-MM-DD` that names a real Gregorian date. */
  function ParseDate(s: string): (r: Option<Date>)
    ensures r.Some? ==> ValidDate(r.value) && 0 <= r.value.year <= 9999
  {
    if |s| == 10 && s[4] == '-' && s[7] == '-'
       && AllDigits(s[..4]) && AllDigits(s[5..7]) && AllDigits(s[8..])
    then
      var d := Date(Value(s[..4]), Value(s[5..7]), Value(s[8..]));
      ValueBound(s[..4]);
      assert Pow10(4) == 10000;
      if ValidDate(d) then Some(d) else None
    else None
  }

  /** `is_valid_date`. */
  function IsValidDate(s: string): bool
  {
    ParseDate(s).Some?
  }

  // ---------------------------------------------------------------------
  // Date strings
  // ---------------------------------------------------------------------

  lemma Pow10Values()
    ensures Pow10(2) == 100 && Pow10(4) == 10000
  {
    assert Pow10(1) == 10;
    assert Pow10(3) == 1000;
  }

  /** Every accepted date string is the canonical spelling of its date. */
  lemma ParseDateCanonical(s: string)
    requires ParseDate(s).Some?
    ensures FormatDate(ParseDate(s).value) == s
  {
    var d := ParseDate(s).value;
    ZeroPadExact(s[..4]);
    ZeroPadExact(s[5..7]);
    ZeroPadExact(s[8..]);
    assert s == s[..4] + "-" + s[5..7] + "-" + s[8..];
  }

  lemma FormatDateShape(d: Date)
    requires ValidDate(d) && 0 <= d.year <= 9999
    ensures |ZeroPad(d.year, 4)| == 4 && |ZeroPad(d.month, 2)| == 2 && |ZeroPad(d.day, 2)| == 2
    ensures |FormatDate(d)| == 10
  {
    Pow10Values();
    ZeroPadWidth(d.year, 4);
    ZeroPadWidth(d.month, 2);
    ZeroPadWidth(d.day, 2);
  }

  /** Formatting a date with a four-digit year and parsing it back gives the date. */
  lemma FormatParseRoundTrip(d: Date)
    requires ValidDate(d) && 0 <= d.year <= 9999
    ensures ParseDate(FormatDate(d)) == Some(d)
  {
    FormatDateShape(d);
    var s := FormatDate(d);
    var y, m, dd := ZeroPad(d.year, 4), ZeroPad(d.month, 2), ZeroPad(d.day, 2);
    assert s == y + "-" + m + "-" + dd;
    assert s[..4] == y && s[5..7] == m && s[8..] == dd;
  }

  lemma LexDash(p: string, q: string)
    ensures LexLess("-" + p, "-" + q) <==> LexLess(p, q)
  {
    assert ("-" + p)[1..] == p && ("-" + q)[1..] == q;
  }

  /** A leading digit field of fixed width decides the order by its value,
      and on a tie the rest decides. */
  lemma LexAppendDigits(p: string, q: string, p': string, q': string)
    requires AllDigits(p) && AllDigits(p') && |p| == |p'|
    ensures LexLess(p + q, p' + q') <==> Value(p) < Value(p') || (Value(p) == Value(p') && LexLess(q, q'))
  {
    LexAppend(p, q, p', q');
    LexDigits(p, p');
    if Value(p) == Value(p') { ValueInjective(p, p'); }
  }

  /** Two dash-separated digit fields of fixed widths compare, as strings,
      field by field by their values. */
  lemma LexTwoFields(ma: string, da: string, mb: string, db: string)
    requires AllDigits(ma) && AllDigits(da) && AllDigits(mb) && AllDigits(db)
    requires |ma| == |mb| && |da| == |db|
    ensures LexLess(ma + ("-" + da), mb + ("-" + db))
            <==> Value(ma) < Value(mb) || (Value(ma) == Value(mb) && Value(da) < Value(db))
  {
    LexAppendDigits(ma, "-" + da, mb, "-" + db);
    LexDash(da, db);
    LexDigits(da, db);
  }

  /** The same for three fields. */
  lemma LexThreeFields(ya: string, ma: string, da: string, yb: string, mb: string, db: string)
    requires AllDigits(ya) && AllDigits(ma) && AllDigits(da) && AllDigits(yb) && AllDigits(mb) && AllDigits(db)
    requires |ya| == |yb| && |ma| == |mb| && |da| == |db|
    ensures LexLess(ya + ("-" + (ma + ("-" + da))), yb + ("-" + (mb + ("-" + db))))
            <==> Value(ya) < Value(yb)
                 || (Value(ya) == Value(yb) && Value(ma) < Value(mb))
                 || (Value(ya) == Value(yb) && Value(ma) == Value(mb) && Value(da) < Value(db))
  {
    var ra, rb := ma + ("-" + da), mb + ("-" + db);
    LexAppendDigits(ya, "-" + ra, yb, "-" + rb);
    LexDash(ra, rb);
    LexTwoFields(ma, da, mb, db);
  }

  /** On dates with four-digit years, string order is chronological order:
      the zero padding makes `YYYY-MM-DD` sort like the date it names. */
  lemma FormatDateOrder(a: Date, b: Date)
    requires ValidDate(a) && 0 <= a.year <= 9999
    requires ValidDate(b) && 0 <= b.year <= 9999
    ensures LexLess(FormatDate(a), FormatDate(b)) <==> DateLess(a, b)
  {
    FormatDateShape(a);
    FormatDateShape(b);
    var ya, ma, da := ZeroPad(a.year, 4), ZeroPad(a.month, 2), ZeroPad(a.day, 2);
    var yb, mb, db := ZeroPad(b.year, 4), ZeroPad(b.month, 2), ZeroPad(b.day, 2);
    assert FormatDate(a) == ya + ("-" + (ma + ("-" + da)));
    assert FormatDate(b) == yb + ("-" + (mb + ("-" + db)));
    LexThreeFields(ya, ma, da, yb, mb, db);
  }

  /** For strings `is_valid_date` accepts, string order is date order. */
  lemma DateStringOrder(s: string, t: string)
    requires IsValidDate(s) && IsValidDate(t)
    ensures LexLess(s, t) <==> DateLess(ParseDate(s).value, ParseDate(t).value)
  {
    ParseDateCanonical(s);
    ParseDateCanonical(t);
    FormatDateOrder(ParseDate(s).value, ParseDate(t).value);
  }

  lemma Value2(s: string)
    requires |s| == 2 && AllDigits(s)
    ensures Value(s) == 10 * DigitValue(s[0]) + DigitValue(s[1])
  {
    assert s[..1][..0] == [] && s[..1][0] == s[0];
    assert Value(s[..1]) == DigitValue(s[0]);
  }

  lemma Value4(s: string)
    requires |s| == 4 && AllDigits(s)
    ensures Value(s) == 1000 * DigitValue(s[0]) + 100 * DigitValue(s[1]) + 10 * DigitValue(s[2]) + DigitValue(s[3])
  {
    assert s[..3][..2] == s[..2];
    Value2(s[..2]);
  }

  /** The fields `parse_date` reads from a well-shaped string. */
  lemma ParseDateFields(s: string)
    requires |s| == 10 && s[4] == '-' && s[7] == '-'
    requires AllDigits(s[..4]) && AllDigits(s[5..7]) && AllDigits(s[8..])
    ensures ParseDate(s) == (
      var d := Date(1000 * DigitValue(s[0]) + 100 * DigitValue(s[1]) + 10 * DigitValue(s[2]) + DigitValue(s[3]),
                    10 * DigitValue(s[5]) + DigitValue(s[6]),
                    10 * DigitValue(s[8]) + DigitValue(s[9]));
      if ValidDate(d) then Some(d) else None)
  {
    Value4(s[..4]);
    Value2(s[5..7]);
    Value2(s[8..]);
  }

  /** 2024 and 2000 are leap years. */
  lemma LeapDayExamples()
    ensures IsValidDate("2024-02-29") && IsValidDate("2000-02-29")
  {
    ParseDateFields("2024-02-29");
    ParseDateFields("2000-02-29");
  }

  /** 2025 and 1900 are not. */
  lemma NoLeapDayExamples()
    ensures !IsValidDate("2025-02-29") && !IsValidDate("1900-02-29")
  {
    ParseDateFields("2025-02-29");
    ParseDateFields("1900-02-29");
  }

  /** A zero-padded real date is accepted; an unpadded month is not. */
  lemma FieldRangeExamples()
    ensures IsValidDate("2025-01-15")
    ensures !IsValidDate("2025-1-15")
  {
    ParseDateFields("2025-01-15");
  }

  /** Months run from 01 to 12 and days to the month's length. */
  lemma OutOfRangeExamples()
    ensures !IsValidDate("2025-13-01") && !IsValidDate("2025-00-15")
  {
    ParseDateFields("2025-13-01");
    ParseDateFields("2025-00-15");
  }

  lemma ShortMonthExample()
    ensures !IsValidDate("2025-04-31")
  {
    ParseDateFields("2025-04-31");
  }

  // ---------------------------------------------------------------------
  // Today in Japan
  // ---------------------------------------------------------------------

  lemma NestedDivision(x: int)
    ensures (x / 1000) / 86_400 == x / 86_400_000
  {
    var q, r := x / 86_400_000, x % 86_400_000;
    assert x == 86_400_000 * q + r;
    assert x / 1000 == 86_400 * q + r / 1000;
  }

  /** The JST day number is the number of whole days since 1970-01-01 of
      the instant plus nine hours. */
  lemma JstDayOfMillis(millis: int)
    requires ClockReadable(millis)
    ensures JstDayNumber(NowUtc(millis)) == (millis + JST_OFFSET_MILLIS) / MILLIS_PER_DAY
  {
    var x := millis + JST_OFFSET_MILLIS;
    assert x / 1000 == millis / 1000 + JST_OFFSET_SECONDS;
    NestedDivision(x);
  }

  /** `today_jst` is the civil date of the current instant shifted by +09:00. */
  lemma TodayJstIsJstDate(millis: int)
    requires ClockReadable(millis)
    ensures TodayJst(millis) == FormatDate(CivilFromDays((millis + JST_OFFSET_MILLIS) / MILLIS_PER_DAY))
  {
    JstDayOfMillis(millis);
  }

  /** The JST day number of an instant in range, and its bounds. */
  lemma JstDayBounds(millis: int)
    requires 0 <= millis <= LAST_FOUR_DIGIT_MILLIS
    ensures JstDayNumber(NowUtc(millis)) == (millis + JST_OFFSET_MILLIS) / MILLIS_PER_DAY
    ensures 0 <= JstDayNumber(NowUtc(millis)) <= LAST_FOUR_DIGIT_DAY
  {
    JstDayOfMillis(millis);
  }

  lemma DayYearInRange(n: int)
    requires 0 <= n <= LAST_FOUR_DIGIT_DAY
    ensures 1970 <= CivilFromDays(n).year <= 9999
  {
    var d := CivilFromDays(n);
    if n > 0 {
      CivilFromDaysMonotone(0, n);
    }
    var last := Date(9999, 12, 31);
    assert DaysFromCivil(last) == LAST_FOUR_DIGIT_DAY;
    DaysFromCivilInverse(n);
    if d.year > 9999 {
      DaysFromCivilStrict(last, d);
    }
  }

  /** Distinct day numbers in range are spelled differently, and a later
      one sorts after an earlier one. */
  lemma DayTextOrder(n: int, n': int)
    requires 0 <= n <= LAST_FOUR_DIGIT_DAY && 0 <= n' <= LAST_FOUR_DIGIT_DAY
    ensures n < n' ==> LexLess(FormatDate(CivilFromDays(n)), FormatDate(CivilFromDays(n')))
    ensures FormatDate(CivilFromDays(n)) == FormatDate(CivilFromDays(n')) ==> n == n'
  {
    DayYearInRange(n);
    DayYearInRange(n');
    if n < n' {
      CivilFromDaysMonotone(n, n');
      FormatDateOrder(CivilFromDays(n), CivilFromDays(n'));
    } else if n' < n {
      CivilFromDaysMonotone(n', n);
      FormatDateOrder(CivilFromDays(n'), CivilFromDays(n));
    }
    if n != n' {
      LexIrreflexive(FormatDate(CivilFromDays(n)));
    }
  }

  /** Every date `today_jst` produces (up to year 9999) passes `is_valid_date`. */
  lemma TodayJstIsValidDate(millis: int)
    requires 0 <= millis <= LAST_FOUR_DIGIT_MILLIS
    ensures IsValidDate(TodayJst(millis))
    ensures ParseDate(TodayJst(millis)) == Some(CivilFromDays(JstDayNumber(NowUtc(millis))))
  {
    JstDayBounds(millis);
    DayYearInRange(JstDayNumber(NowUtc(millis)));
    FormatParseRoundTrip(CivilFromDays(JstDayNumber(NowUtc(millis))));
  }

  /** Two instants have the same `today_jst` exactly when they fall on the
      same JST day. */
  lemma SameTodayIffSameJstDay(t: int, t': int)
    requires 0 <= t <= LAST_FOUR_DIGIT_MILLIS && 0 <= t' <= LAST_FOUR_DIGIT_MILLIS
    ensures TodayJst(t) == TodayJst(t')
            <==> (t + JST_OFFSET_MILLIS) / MILLIS_PER_DAY == (t' + JST_OFFSET_MILLIS) / MILLIS_PER_DAY
  {
    JstDayBounds(t);
    JstDayBounds(t');
    DayTextOrder(JstDayNumber(NowUtc(t)), JstDayNumber(NowUtc(t')));
  }

  /** Across one millisecond the JST day number moves exactly when the
      later instant is 15:00:00.000 UTC. */
  lemma JstDayStep(t: int)
    ensures (t + JST_OFFSET_MILLIS) / MILLIS_PER_DAY != (t - 1 + JST_OFFSET_MILLIS) / MILLIS_PER_DAY
            <==> t % MILLIS_PER_DAY == 15 * 3_600_000
  {
    var x := t + JST_OFFSET_MILLIS;
    var q, r := x / MILLIS_PER_DAY, x % MILLIS_PER_DAY;
    assert x == MILLIS_PER_DAY * q + r;
    if r == 0 {
      assert x - 1 == MILLIS_PER_DAY * (q - 1) + (MILLIS_PER_DAY - 1);
      assert t == MILLIS_PER_DAY * (q - 1) + 15 * 3_600_000;
    } else {
      assert x - 1 == MILLIS_PER_DAY * q + (r - 1);
      if r < JST_OFFSET_MILLIS {
        assert t == MILLIS_PER_DAY * (q - 1) + (r + 15 * 3_600_000);
      } else {
        assert t == MILLIS_PER_DAY * q + (r - JST_OFFSET_MILLIS);
      }
    }
  }

  /** `today_jst` changes value exactly when UTC passes 15:00:00.000, which
      is midnight in Japan: the editing cutoff "0時（JST）". */
  lemma TodayJstChangesAtJstMidnight(t: int)
    requires 1 <= t <= LAST_FOUR_DIGIT_MILLIS
    ensures TodayJst(t) != TodayJst(t - 1) <==> t % MILLIS_PER_DAY == 15 * 3_600_000
  {
    SameTodayIffSameJstDay(t, t - 1);
    JstDayStep(t);
  }

  lemma DayDivMonotone(x: int, y: int)
    requires x <= y
    ensures x / MILLIS_PER_DAY <= y / MILLIS_PER_DAY
  {
  }

  /** `today_jst` never goes backwards: a later instant gives the same date
      or a later one, in string order as well as in date order. */
  lemma TodayJstMonotone(t: int, t': int)
    requires 0 <= t <= t' <= LAST_FOUR_DIGIT_MILLIS
    ensures TodayJst(t) == TodayJst(t') || LexLess(TodayJst(t), TodayJst(t'))
  {
    JstDayBounds(t);
    JstDayBounds(t');
    DayDivMonotone(t + JST_OFFSET_MILLIS, t' + JST_OFFSET_MILLIS);
    DayTextOrder(JstDayNumber(NowUtc(t)), JstDayNumber(NowUtc(t')));
  }

  /** A date is "today" only if it is a valid date, and then exactly when it
      names the JST calendar day of the instant. */
  lemma IsTodayMeansJstDate(date: string, millis: int)
    requires 0 <= millis <= LAST_FOUR_DIGIT_MILLIS
    ensures IsToday(date, millis) ==> IsValidDate(date)
    ensures IsValidDate(date) ==>
      (IsToday(date, millis) <==> ParseDate(date).value == CivilFromDays((millis + JST_OFFSET_MILLIS) / MILLIS_PER_DAY))
  {
    TodayJstIsValidDate(millis);
    JstDayOfMillis(millis);
    if IsValidDate(date) {
      ParseDateCanonical(date);
    }
  }
}
