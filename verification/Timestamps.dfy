/**
 Fixed-width UTC timestamps (apps/orbit-openeo/src/job_store.rs, `iso8601`) and their
 comparison as strings, as section 5.1 of RFC 3339 permits.
 */
module Timestamps {
  import opened Arithmetic
  import opened Calendar
  import opened TextOrder

  const SECONDS_PER_DAY: int := 86400

  function Digit(n: nat): char
    requires n < 10
  {
    '0' + n as char
  }

  function Decimal(n: nat): string {
    if n < 10 then [Digit(n)] else Decimal(n / 10) + [Digit(n % 10)]
  }

  function Zeros(n: nat): string {
    seq(n, _ => '0')
  }

  /** Decimal digits, zero-padded on the left to at least `width` characters. */
  function Padded(n: nat, width: nat): string {
    var s := Decimal(n);
    if |s| >= width then s else Zeros(width - |s|) + s
  }

  function Joined(a: string, sep: char, b: string): string {
    a + [sep] + b
  }

  function DateText(t: Date): string
    requires t.y >= 0 && t.m >= 0 && t.d >= 0
  {
    Joined(Padded(t.y, 4), '-', Joined(Padded(t.m, 2), '-', Padded(t.d, 2)))
  }

  function TimeText(secs: nat): string {
    Joined(Padded(secs / 3600, 2), ':', Joined(Padded(secs / 60 % 60, 2), ':', Padded(secs % 60, 2)))
  }

  /** The day of an instant given in seconds since 1970-01-01. */
  function DayOf(secs: nat): Date {
    DaysToYmd(secs / SECONDS_PER_DAY)
  }

  function Iso8601(secs: nat): string {
    DayIsPrintable(secs);
    Joined(DateText(DayOf(secs)), 'T', TimeText(secs % SECONDS_PER_DAY)) + "Z"
  }

  lemma DayIsPrintable(secs: nat)
    ensures IsDate(DayOf(secs)) && DayOf(secs).y >= 1970
  {
    hide DaysToYmd;
    DaysRoundTrip(secs / SECONDS_PER_DAY);
    EpochDate();
    DaysOrderedAsDates(0, secs / SECONDS_PER_DAY);
  }

  // ------------------------------------------------------- order of the texts

  /** Exactly `width` digits. */
  function Fixed(n: nat, width: nat): string {
    if width == 0 then "" else Fixed(n / 10, width - 1) + [Digit(n % 10)]
  }

  function Pow10(k: nat): nat {
    if k == 0 then 1 else 10 * Pow10(k - 1)
  }

  lemma {:induction false} FixedZero(width: nat)
    ensures Fixed(0, width) == Zeros(width)
  {
    if width > 0 {
      FixedZero(width - 1);
    }
  }

  lemma {:induction false} PaddedIsFixed(n: nat, width: nat)
    requires width > 0 && n < Pow10(width)
    ensures Padded(n, width) == Fixed(n, width)
    ensures |Decimal(n)| <= width
  {
    if n < 10 {
      FixedZero(width - 1);
    } else {
      assert n / 10 < Pow10(width - 1);
      PaddedIsFixed(n / 10, width - 1);
      var s := Decimal(n / 10);
      assert Decimal(n) == s + [Digit(n % 10)];
      assert Zeros(width - 1 - |s|) + (s + [Digit(n % 10)]) == (Zeros(width - 1 - |s|) + s) + [Digit(n % 10)];
      assert Zeros(0) + s == s;
    }
  }

  lemma {:induction false} FixedOrder(a: nat, b: nat, width: nat)
    requires a < Pow10(width) && b < Pow10(width)
    ensures |Fixed(a, width)| == |Fixed(b, width)| == width
    ensures LexLess(Fixed(a, width), Fixed(b, width)) <==> a < b
    ensures Fixed(a, width) == Fixed(b, width) <==> a == b
  {
    if width > 0 {
      FixedOrder(a / 10, b / 10, width - 1);
      var x, y := Fixed(a / 10, width - 1), Fixed(b / 10, width - 1);
      LexConcat(x, [Digit(a % 10)], y, [Digit(b % 10)]);
      ConcatInjective(x, [Digit(a % 10)], y, [Digit(b % 10)]);
    }
  }

  lemma Powers()
    ensures Pow10(2) == 100 && Pow10(4) == 10000
  {
    assert Pow10(1) == 10;
    assert Pow10(3) == 1000;
  }

  /** Two zero-padded numbers that fit their width compare as numbers. */
  lemma PaddedOrder(a: nat, b: nat, width: nat)
    requires width > 0 && a < Pow10(width) && b < Pow10(width)
    ensures |Padded(a, width)| == |Padded(b, width)| == width
    ensures LexLess(Padded(a, width), Padded(b, width)) <==> a < b
    ensures Padded(a, width) == Padded(b, width) <==> a == b
  {
    PaddedIsFixed(a, width);
    PaddedIsFixed(b, width);
    FixedOrder(a, b, width);
  }

  /** Texts joined by the same separator compare as pairs. */
  lemma JoinedOrder(a: string, b: string, c: string, d: string, sep: char)
    requires |a| == |c|
    ensures LexLess(Joined(a, sep, b), Joined(c, sep, d)) <==> LexLess(a, c) || (a == c && LexLess(b, d))
    ensures Joined(a, sep, b) == Joined(c, sep, d) <==> a == c && b == d
  {
    LexConcat(a, [sep], c, [sep]);
    LexIrreflexive([sep]);
    ConcatInjective(a, [sep], c, [sep]);
    hide LexLess;
    LexConcat(a + [sep], b, c + [sep], d);
    ConcatInjective(a + [sep], b, c + [sep], d);
  }

  predicate FourDigitDate(t: Date) {
    IsDate(t) && 0 <= t.y <= 9999
  }

  lemma DateTextOrder(s: Date, t: Date)
    requires FourDigitDate(s) && FourDigitDate(t)
    ensures |DateText(s)| == |DateText(t)| == 10
    ensures LexLess(DateText(s), DateText(t)) <==> Before(s, t)
    ensures DateText(s) == DateText(t) <==> s == t
  {
    Powers();
    PaddedOrder(s.y, t.y, 4);
    PaddedOrder(s.m, t.m, 2);
    PaddedOrder(s.d, t.d, 2);
    hide Padded, Pow10, LexLess;
    JoinedOrder(Padded(s.m, 2), Padded(s.d, 2), Padded(t.m, 2), Padded(t.d, 2), '-');
    JoinedOrder(Padded(s.y, 4), Joined(Padded(s.m, 2), '-', Padded(s.d, 2)),
                Padded(t.y, 4), Joined(Padded(t.m, 2), '-', Padded(t.d, 2)), '-');
  }

  lemma TimeTextOrder(a: nat, b: nat)
    requires a < SECONDS_PER_DAY && b < SECONDS_PER_DAY
    ensures |TimeText(a)| == |TimeText(b)| == 8
    ensures LexLess(TimeText(a), TimeText(b)) <==> a < b
    ensures TimeText(a) == TimeText(b) <==> a == b
  {
    Powers();
    PaddedOrder(a / 3600, b / 3600, 2);
    PaddedOrder(a / 60 % 60, b / 60 % 60, 2);
    PaddedOrder(a % 60, b % 60, 2);
    hide Padded, Pow10, LexLess;
    JoinedOrder(Padded(a / 60 % 60, 2), Padded(a % 60, 2), Padded(b / 60 % 60, 2), Padded(b % 60, 2), ':');
    JoinedOrder(Padded(a / 3600, 2), Joined(Padded(a / 60 % 60, 2), ':', Padded(a % 60, 2)),
                Padded(b / 3600, 2), Joined(Padded(b / 60 % 60, 2), ':', Padded(b % 60, 2)), ':');
    ClockParts(a);
    ClockParts(b);
  }

  lemma ClockParts(a: nat)
    ensures a == a / 3600 * 3600 + a / 60 % 60 * 60 + a % 60
  {
    assert a / 60 / 60 == a / 3600;
  }

  /** The first second of the year 10000. */
  const YEAR_10000: nat := 253402300800

  predicate BeforeYear10000(secs: nat) {
    secs < YEAR_10000
  }

  lemma YearsBefore10000(secs: nat)
    ensures BeforeYear10000(secs) <==> DayOf(secs).y <= 9999
  {
    LastDayOf9999();
    var days := secs / SECONDS_PER_DAY;
    assert BeforeYear10000(secs) <==> days <= 2932896;
    hide DaysToYmd;
    DaysAreOrdered(days, 2932896);
    DaysAreOrdered(days, 2932897);
    DaysAreOrdered(2932897, days);
    DaysRoundTrip(days);
    hide DaysFromCivil;
  }

  /** Up to the year 9999 the texts of two instants compare as the instants do. */
  lemma Iso8601Order(a: nat, b: nat)
    requires BeforeYear10000(a) && BeforeYear10000(b)
    ensures LexLess(Iso8601(a), Iso8601(b)) <==> a < b
    ensures Iso8601(a) == Iso8601(b) <==> a == b
    ensures |Iso8601(a)| == 20
  {
    YearsBefore10000(a);
    YearsBefore10000(b);
    hide DaysToYmd, DateText, TimeText, LexLess;
    DayIsPrintable(a);
    DayIsPrintable(b);
    DateTextOrder(DayOf(a), DayOf(b));
    TimeTextOrder(a % SECONDS_PER_DAY, b % SECONDS_PER_DAY);
    var d1, d2 := DateText(DayOf(a)), DateText(DayOf(b));
    var t1, t2 := TimeText(a % SECONDS_PER_DAY), TimeText(b % SECONDS_PER_DAY);
    JoinedOrder(d1, t1, d2, t2, 'T');
    LexConcat(Joined(d1, 'T', t1), "Z", Joined(d2, 'T', t2), "Z");
    LexIrreflexive("Z");
    ConcatInjective(Joined(d1, 'T', t1), "Z", Joined(d2, 'T', t2), "Z");
    DaysAreOrdered(a / SECONDS_PER_DAY, b / SECONDS_PER_DAY);
  }

  lemma DaysAreOrdered(a: int, b: int)
    ensures Before(DaysToYmd(a), DaysToYmd(b)) <==> a < b
    ensures DaysToYmd(a) == DaysToYmd(b) <==> a == b
  {
    hide DaysToYmd, DaysFromCivil;
    DaysOrderedAsDates(a, b);
    DaysRoundTrip(a);
    DaysRoundTrip(b);
  }

  /** Beyond four-digit years the order of the texts breaks: the first second of 10000 sorts before the last of 9999. */
  lemma OrderBreaksAtYear10000()
    ensures BeforeYear10000(YEAR_10000 - 1) && DayOf(YEAR_10000) == Date(10000, 1, 1)
    ensures LexLess(Iso8601(YEAR_10000), Iso8601(YEAR_10000 - 1))
  {
    var a, b := 253402300799, 253402300800;
    assert a / SECONDS_PER_DAY == 2932896 && b / SECONDS_PER_DAY == 2932897;
    LastDayOf9999();
    FirstDigit(10000, 1);
    FirstDigit(9999, 9);
    hide DaysToYmd, Decimal, TimeText, IsDate, LexLess;
    DayIsPrintable(a);
    DayIsPrintable(b);
    assert DateText(DayOf(a))[0] == '9' && DateText(DayOf(b))[0] == '1';
    FirstCharacterDecides(Iso8601(b), Iso8601(a));
  }

  /** The texts compare as the instants up to a given one exactly when it is before the year 10000. */
  lemma OrderHoldsIff(n: nat)
    ensures BeforeYear10000(n) <==> forall a: nat, b: nat :: a <= n && b <= n ==> (LexLess(Iso8601(a), Iso8601(b)) <==> a < b)
  {
    OrderBreaksAtYear10000();
    hide Iso8601, LexLess, DayOf;
    if BeforeYear10000(n) {
      forall a: nat, b: nat | a <= n && b <= n
        ensures LexLess(Iso8601(a), Iso8601(b)) <==> a < b
      {
        Iso8601Order(a, b);
      }
    }
  }

  // ------------------------------------------------------- reading a text back

  predicate IsDigit(c: char) {
    '0' <= c <= '9'
  }

  predicate IsNumeral(s: string) {
    s != "" && forall i :: 0 <= i < |s| ==> IsDigit(s[i])
  }

  /** The number that a text of decimal digits stands for. */
  function Reading(s: string): nat
    requires forall i :: 0 <= i < |s| ==> IsDigit(s[i])
  {
    if s == "" then 0
    else
      var last := s[|s| - 1];
      assert IsDigit(last);
      10 * Reading(s[..|s| - 1]) + (last as nat - '0' as nat)
  }

  lemma {:induction false} DecimalReads(n: nat)
    ensures IsNumeral(Decimal(n)) && Reading(Decimal(n)) == n
    ensures n > 0 ==> Decimal(n)[0] != '0'
  {
    if n >= 10 {
      DecimalReads(n / 10);
      var s := Decimal(n / 10);
      assert Decimal(n)[..|s|] == s;
    } else {
      assert Decimal(n)[..0] == "";
    }
  }

  lemma {:induction false} FixedReads(n: nat, width: nat)
    requires n < Pow10(width)
    ensures |Fixed(n, width)| == width && (width > 0 ==> IsNumeral(Fixed(n, width)))
    ensures Reading(Fixed(n, width)) == n
  {
    if width > 0 {
      FixedReads(n / 10, width - 1);
      assert Fixed(n, width)[..width - 1] == Fixed(n / 10, width - 1);
    }
  }

  lemma PaddedReads(n: nat, width: nat)
    requires width > 0 && n < Pow10(width)
    ensures |Padded(n, width)| == width && IsNumeral(Padded(n, width)) && Reading(Padded(n, width)) == n
  {
    PaddedIsFixed(n, width);
    FixedReads(n, width);
  }

  lemma DateTextReads(t: Date)
    requires FourDigitDate(t)
    ensures var s := DateText(t);
            && |s| == 10 && s[4] == s[7] == '-'
            && IsNumeral(s[..4]) && IsNumeral(s[5..7]) && IsNumeral(s[8..])
            && Date(Reading(s[..4]), Reading(s[5..7]), Reading(s[8..])) == t
  {
    Powers();
    PaddedReads(t.y, 4);
    PaddedReads(t.m, 2);
    PaddedReads(t.d, 2);
    var y, m, d, s := Padded(t.y, 4), Padded(t.m, 2), Padded(t.d, 2), DateText(t);
    hide Padded, Pow10, Reading, IsNumeral;
    assert s[..4] == y && s[5..7] == m && s[8..] == d;
  }

  lemma TimeTextReads(secs: nat)
    requires secs < SECONDS_PER_DAY
    ensures var s := TimeText(secs);
            && |s| == 8 && s[2] == s[5] == ':'
            && IsNumeral(s[..2]) && IsNumeral(s[3..5]) && IsNumeral(s[6..])
            && Reading(s[..2]) < 24 && Reading(s[3..5]) < 60 && Reading(s[6..]) < 60
            && Reading(s[..2]) * 3600 + Reading(s[3..5]) * 60 + Reading(s[6..]) == secs
  {
    Powers();
    PaddedReads(secs / 3600, 2);
    PaddedReads(secs / 60 % 60, 2);
    PaddedReads(secs % 60, 2);
    ClockParts(secs);
    var h, m, c, s := Padded(secs / 3600, 2), Padded(secs / 60 % 60, 2), Padded(secs % 60, 2), TimeText(secs);
    hide Padded, Pow10, Reading, IsNumeral;
    assert s[..2] == h && s[3..5] == m && s[6..] == c;
  }

  /** Up to the year 9999 the text has the form `YYYY-MM-DDThh:mm:ssZ` and reads back as the instant. */
  lemma Iso8601ReadsBack(t: nat)
    requires BeforeYear10000(t)
    ensures var s := Iso8601(t);
            && |s| == 20 && s[4] == s[7] == '-' && s[10] == 'T' && s[13] == s[16] == ':' && s[19] == 'Z'
            && IsNumeral(s[..4]) && IsNumeral(s[5..7]) && IsNumeral(s[8..10])
            && IsNumeral(s[11..13]) && IsNumeral(s[14..16]) && IsNumeral(s[17..19])
            && var day := Date(Reading(s[..4]), Reading(s[5..7]), Reading(s[8..10]));
            && IsDate(day) && Reading(s[11..13]) < 24 && Reading(s[14..16]) < 60 && Reading(s[17..19]) < 60
            && t == 86400 * DaysFromCivil(day) + 3600 * Reading(s[11..13]) + 60 * Reading(s[14..16]) + Reading(s[17..19])
  {
    YearsBefore10000(t);
    DayIsPrintable(t);
    DaysRoundTrip(t / SECONDS_PER_DAY);
    DateTextReads(DayOf(t));
    TimeTextReads(t % SECONDS_PER_DAY);
    hide DaysToYmd, DaysFromCivil, IsDate, DateText, TimeText, Reading, IsNumeral;
    PartsOfText(DateText(DayOf(t)), TimeText(t % SECONDS_PER_DAY));
    hide Joined;
  }

  lemma PartsOfText(d: string, c: string)
    requires |d| == 10 && |c| == 8
    ensures var s := Joined(d, 'T', c) + "Z";
            && |s| == 20 && s[4] == d[4] && s[7] == d[7] && s[10] == 'T' && s[13] == c[2] && s[16] == c[5] && s[19] == 'Z'
            && s[..4] == d[..4] && s[5..7] == d[5..7] && s[8..10] == d[8..]
            && s[11..13] == c[..2] && s[14..16] == c[3..5] && s[17..19] == c[6..]
  {
  }

  // ------------------------------------------------ the text of a provenance record

  /** The provenance record's own formatting of the clock (apps/orbit-openeo/src/provenance.rs). */
  function NowRfc3339(now: nat): string {
    hide DaysToYmd, DaysToYmdShifted, Padded;
    var days := now / 86400;
    var secsOfDay := now % 86400;
    RecordDayIsPrintable(now);
    var t := DaysToYmdShifted(days + 719468);
    var (h, mn, s) := (secsOfDay / 3600, secsOfDay / 60 % 60, secsOfDay % 60);
    Padded(t.y, 4) + "-" + Padded(t.m, 2) + "-" + Padded(t.d, 2) + "T" + Padded(h, 2) + ":" + Padded(mn, 2) + ":" + Padded(s, 2) + "Z"
  }

  lemma RecordDayIsPrintable(now: nat)
    ensures DaysToYmdShifted(now / 86400 + 719468) == DayOf(now)
    ensures IsDate(DayOf(now)) && DayOf(now).y >= 1970
  {
    hide DaysToYmd, DaysToYmdShifted;
    CopiesAgree(now / 86400);
    DayIsPrintable(now);
  }

  /** At every second both files write the same timestamp, so up to the year 9999 theirs compare with each other. */
  lemma RecordsAreStampedAlike(now: nat)
    ensures NowRfc3339(now) == Iso8601(now)
  {
    RecordDayIsPrintable(now);
    hide DaysToYmd, DaysToYmdShifted, Padded, IsDate;
  }

  lemma LastDayOf9999()
    ensures DaysToYmd(2932896) == Date(9999, 12, 31) && DaysToYmd(2932897) == Date(10000, 1, 1)
  {
    hide DaysToYmd;
    LastDayCount();
    hide DaysFromCivil;
    DateRoundTrip(Date(9999, 12, 31));
    ConsecutiveDays(2932896);
  }

  lemma LastDayCount()
    ensures DaysFromCivil(Date(9999, 12, 31)) == 2932896
  {
    var t := Date(9999, 12, 31);
    assert MarchYear(t) == 9999 && DayOfMarchYear(t) == 305;
    assert YearStart(399) == 145731;
  }

  lemma FirstDigit(n: nat, d: nat)
    requires (n == 10000 && d == 1) || (n == 9999 && d == 9)
    ensures Decimal(n)[0] == Digit(d)
    ensures |Decimal(n)| == if n == 9999 then 4 else 5
  {
    assert Decimal(n / 10 / 10 / 10) == if n == 9999 then [Digit(9)] else Decimal(1) + [Digit(0)];
    assert Decimal(n / 10 / 10) == Decimal(n / 10 / 10 / 10) + [Digit(n / 10 / 10 % 10)];
    assert Decimal(n / 10) == Decimal(n / 10 / 10) + [Digit(n / 10 % 10)];
  }
}
