/** Instants and the UTC, second-precision RFC 3339 text in which the database
    and the identity file keep them.

    An instant counts nanoseconds from 0000-01-01T00:00:00Z in the proleptic
    Gregorian calendar, so that the instants of the type below are exactly those
    with a four-digit year. Go's zero time is 0001-01-01T00:00:00Z. */
module Timestamps {
  import opened Wrappers
  import opened Text

  const NS: int := 1_000_000_000
  const DAY: int := 86_400
  const DAYS_TO_YEAR_10000: int := 3_652_425
  const SECONDS_TO_YEAR_10000: int := DAYS_TO_YEAR_10000 * DAY

  /** time.Time{}, the value for which IsZero holds. */
  const GO_ZERO: int := 366 * DAY * NS

  /** Seconds from year 0 to 1970-01-01T00:00:00Z. */
  const UNIX_EPOCH: int := 62_167_219_200

  type Second = s: int | 0 <= s < SECONDS_TO_YEAR_10000 witness 0
  type Instant = t: int | 0 <= t < SECONDS_TO_YEAR_10000 * NS witness 0

  /** time.Time.Unix, which rounds towards the past. */
  function ToUnix(t: int): int {
    t / NS - UNIX_EPOCH
  }

  /** time.Unix(u, 0). */
  function FromUnix(u: int): int {
    (u + UNIX_EPOCH) * NS
  }

  // ---------------------------------------------------------------- calendar

  predicate Leap(y: nat) {
    y % 4 == 0 && (y % 100 != 0 || y % 400 == 0)
  }

  function YearDays(y: nat): nat {
    if Leap(y) then 366 else 365
  }

  function MonthDays(y: nat, m: nat): nat
    requires 1 <= m <= 12
  {
    if m == 2 then (if Leap(y) then 29 else 28)
    else if m == 4 || m == 6 || m == 9 || m == 11 then 30
    else 31
  }

  function DaysBeforeYear(y: nat): nat {
    if y == 0 then 0 else DaysBeforeYear(y - 1) + YearDays(y - 1)
  }

  function DaysBeforeMonth(y: nat, m: nat): nat
    requires 1 <= m <= 13
  {
    if m == 1 then 0 else DaysBeforeMonth(y, m - 1) + MonthDays(y, m - 1)
  }

  /** Leap years before year `y`. */
  function LeapsBefore(y: nat): int {
    (y + 3) / 4 - (y + 99) / 100 + (y + 399) / 400
  }

  lemma {:induction false} CountOfFours(y: nat)
    ensures (y + 4) / 4 == (y + 3) / 4 + (if y % 4 == 0 then 1 else 0)
  {
    var q, r := y / 4, y % 4;
    assert y == 4 * q + r;
  }

  lemma {:induction false} CountOfHundreds(y: nat)
    ensures (y + 100) / 100 == (y + 99) / 100 + (if y % 100 == 0 then 1 else 0)
    ensures y % 100 == 0 ==> y % 4 == 0
  {
    var q, r := y / 100, y % 100;
    assert y == 100 * q + r;
    assert y % 100 == 0 ==> y == 4 * (25 * q);
  }

  lemma {:induction false} CountOfFourHundreds(y: nat)
    ensures (y + 400) / 400 == (y + 399) / 400 + (if y % 400 == 0 then 1 else 0)
    ensures y % 400 == 0 ==> y % 100 == 0
  {
    var q, r := y / 400, y % 400;
    assert y == 400 * q + r;
    assert y % 400 == 0 ==> y == 100 * (4 * q);
  }

  lemma {:induction false} LeapsBeforeStep(y: nat)
    ensures LeapsBefore(y + 1) == LeapsBefore(y) + (if Leap(y) then 1 else 0)
  {
    CountOfFours(y);
    CountOfHundreds(y);
    CountOfFourHundreds(y);
  }

  lemma {:induction false} DaysBeforeYearClosedForm(y: nat)
    ensures DaysBeforeYear(y) == 365 * y + LeapsBefore(y)
  {
    if y != 0 {
      DaysBeforeYearClosedForm(y - 1);
      LeapsBeforeStep(y - 1);
    }
  }

  lemma {:induction false} DaysBeforeYearMonotone(x: nat, y: nat)
    requires x <= y
    ensures DaysBeforeYear(x) <= DaysBeforeYear(y)
    decreases y
  {
    if x < y {
      DaysBeforeYearMonotone(x, y - 1);
    }
  }

  lemma {:induction false} DaysBeforeMonthMonotone(y: nat, m: nat, n: nat)
    requires 1 <= m <= n <= 13
    ensures DaysBeforeMonth(y, m) <= DaysBeforeMonth(y, n)
    decreases n
  {
    if m < n {
      DaysBeforeMonthMonotone(y, m, n - 1);
    }
  }

  lemma {:induction false} MonthsFillYear(y: nat)
    ensures DaysBeforeMonth(y, 13) == YearDays(y)
  {
    var feb := MonthDays(y, 2);
    assert DaysBeforeMonth(y, 2) == 31;
    assert DaysBeforeMonth(y, 3) == 31 + feb;
    assert DaysBeforeMonth(y, 4) == 62 + feb;
    assert DaysBeforeMonth(y, 5) == 92 + feb;
    assert DaysBeforeMonth(y, 6) == 123 + feb;
    assert DaysBeforeMonth(y, 7) == 153 + feb;
    assert DaysBeforeMonth(y, 8) == 184 + feb;
    assert DaysBeforeMonth(y, 9) == 215 + feb;
    assert DaysBeforeMonth(y, 10) == 245 + feb;
    assert DaysBeforeMonth(y, 11) == 276 + feb;
    assert DaysBeforeMonth(y, 12) == 306 + feb;
  }

  /** The year that day number `days` falls in, searched upwards from `y`. */
  function YearOf(days: nat, y: nat): (r: nat)
    requires DaysBeforeYear(y) <= days
    ensures DaysBeforeYear(r) <= days < DaysBeforeYear(r + 1)
    decreases days - DaysBeforeYear(y)
  {
    if days < DaysBeforeYear(y + 1) then y else YearOf(days, y + 1)
  }

  /** The month of year `y` that day `d` (from 0) of it falls in, searched from `m`. */
  function MonthOf(y: nat, d: nat, m: nat): (r: nat)
    requires 1 <= m <= 12 && DaysBeforeMonth(y, m) <= d < DaysBeforeMonth(y, 13)
    ensures 1 <= r <= 12 && DaysBeforeMonth(y, r) <= d < DaysBeforeMonth(y, r + 1)
    decreases 12 - m
  {
    if d < DaysBeforeMonth(y, m + 1) then m else MonthOf(y, d, m + 1)
  }

  datatype Civil = Civil(year: nat, month: nat, day: nat, hour: nat, minute: nat, second: nat)

  predicate ValidCivil(c: Civil) {
    && c.year < 10000
    && 1 <= c.month <= 12
    && 1 <= c.day <= MonthDays(c.year, c.month)
    && c.hour < 24 && c.minute < 60 && c.second < 60
  }

  function CivilDays(c: Civil): nat
    requires ValidCivil(c)
  {
    DaysBeforeYear(c.year) + DaysBeforeMonth(c.year, c.month) + (c.day - 1)
  }

  lemma {:induction false} CivilDaysBound(c: Civil)
    requires ValidCivil(c)
    ensures DaysBeforeYear(c.year) <= CivilDays(c) < DaysBeforeYear(c.year + 1) <= DAYS_TO_YEAR_10000
  {
    MonthsFillYear(c.year);
    DaysBeforeMonthMonotone(c.year, c.month + 1, 13);
    DaysBeforeYearMonotone(c.year + 1, 10000);
    DaysBeforeYearClosedForm(10000);
  }

  function ToSeconds(c: Civil): (s: Second)
    requires ValidCivil(c)
  {
    CivilDaysBound(c);
    CivilDays(c) * DAY + c.hour * 3600 + c.minute * 60 + c.second
  }

  function FromSeconds(s: Second): (c: Civil)
    ensures ValidCivil(c)
    ensures CivilDays(c) == s / DAY
  {
    var days: nat := s / DAY;
    var rest: nat := s % DAY;
    var y := YearOf(days, 0);
    assert y < 10000 by {
      DaysBeforeYearClosedForm(10000);
      if y >= 10000 { DaysBeforeYearMonotone(10000, y); }
    }
    var d: nat := days - DaysBeforeYear(y);
    MonthsFillYear(y);
    var m := MonthOf(y, d, 1);
    Civil(y, m, d - DaysBeforeMonth(y, m) + 1, rest / 3600, rest % 3600 / 60, rest % 60)
  }

  lemma SecondsOfCivil(s: Second)
    ensures ToSeconds(FromSeconds(s)) == s
  {
  }

  // ---------------------------------------------------------------- order of fields

  predicate DateLess(a: Civil, b: Civil) {
    a.year < b.year || (a.year == b.year
      && (a.month < b.month || (a.month == b.month && a.day < b.day)))
  }

  predicate SameDate(a: Civil, b: Civil) {
    a.year == b.year && a.month == b.month && a.day == b.day
  }

  predicate ClockLess(a: Civil, b: Civil) {
    a.hour < b.hour || (a.hour == b.hour
      && (a.minute < b.minute || (a.minute == b.minute && a.second < b.second)))
  }

  predicate CivilLess(a: Civil, b: Civil) {
    DateLess(a, b) || (SameDate(a, b) && ClockLess(a, b))
  }

  lemma {:induction false} DateOrder(a: Civil, b: Civil)
    requires ValidCivil(a) && ValidCivil(b)
    requires DateLess(a, b)
    ensures CivilDays(a) < CivilDays(b)
  {
    if a.year < b.year {
      CivilDaysBound(a);
      CivilDaysBound(b);
      DaysBeforeYearMonotone(a.year + 1, b.year);
    } else if a.month < b.month {
      DaysBeforeMonthMonotone(a.year, a.month + 1, b.month);
    }
  }

  lemma {:induction false} CivilOrder(a: Civil, b: Civil)
    requires ValidCivil(a) && ValidCivil(b)
    ensures CivilLess(a, b) <==> ToSeconds(a) < ToSeconds(b)
    ensures a == b <==> ToSeconds(a) == ToSeconds(b)
  {
    if DateLess(a, b) {
      DateOrder(a, b);
    } else if DateLess(b, a) {
      DateOrder(b, a);
    } else {
      assert SameDate(a, b);
    }
  }

  // ---------------------------------------------------------------- text

  function Concat(parts: seq<string>): string {
    if parts == [] then "" else parts[0] + Concat(parts[1..])
  }

  /** The layout 2006-01-02T15:04:05Z. */
  function CivilText(c: Civil): string {
    Concat([Digits(c.year, 4), "-", Digits(c.month, 2), "-", Digits(c.day, 2), "T",
            Digits(c.hour, 2), ":", Digits(c.minute, 2), ":", Digits(c.second, 2), "Z"])
  }

  lemma {:induction false} ConcatTwo(parts: seq<string>, a: string, b: string, rest: string)
    requires |parts| >= 2 && parts[0] == a && parts[1] == b && Concat(parts[2..]) == rest
    ensures Concat(parts) == a + (b + rest)
  {
    assert parts[1..][1..] == parts[2..];
  }

  lemma {:induction false} CivilTextForm(c: Civil)
    ensures CivilText(c) == Digits(c.year, 4) + ("-" + (Digits(c.month, 2) + ("-" + (Digits(c.day, 2) + ("T" +
      (Digits(c.hour, 2) + (":" + (Digits(c.minute, 2) + (":" + (Digits(c.second, 2) + "Z"))))))))))
  {
    hide Digits, Concat;
    var y, m, d := Digits(c.year, 4), Digits(c.month, 2), Digits(c.day, 2);
    var h, mi, s := Digits(c.hour, 2), Digits(c.minute, 2), Digits(c.second, 2);
    var parts := [y, "-", m, "-", d, "T", h, ":", mi, ":", s, "Z"];
    ConcatNone();
    assert parts[10..][2..] == [];
    ConcatTwo(parts[10..], s, "Z", "");
    assert "Z" + "" == "Z";
    ConcatStep(parts, 8, mi, ":", s + "Z");
    ConcatStep(parts, 6, h, ":", mi + (":" + (s + "Z")));
    var clock := h + (":" + (mi + (":" + (s + "Z"))));
    ConcatStep(parts, 4, d, "T", clock);
    ConcatStep(parts, 2, m, "-", d + ("T" + clock));
    ConcatStep(parts, 0, y, "-", m + ("-" + (d + ("T" + clock))));
    assert parts[0..] == parts;
  }

  lemma ConcatNone()
    ensures Concat([]) == ""
  {
  }

  lemma {:induction false} ConcatStep(parts: seq<string>, i: nat, a: string, b: string, rest: string)
    requires i + 2 <= |parts| && parts[i] == a && parts[i + 1] == b && Concat(parts[i + 2..]) == rest
    ensures Concat(parts[i..]) == a + (b + rest)
  {
    assert parts[i..][2..] == parts[i + 2..];
    ConcatTwo(parts[i..], a, b, rest);
  }

  /** time.Time.UTC().Format(time.RFC3339) on a whole second. */
  function Format(s: Second): string {
    CivilText(FromSeconds(s))
  }

  /** The stored text of an instant; fractions of a second are cut off. */
  function Stamp(t: Instant): string {
    Format(t / NS)
  }

  /** Whether `c` may stand at place i of the layout. */
  predicate Fits(i: int, c: char) {
    if i == 4 || i == 7 then c == '-'
    else if i == 10 then c == 'T'
    else if i == 13 || i == 16 then c == ':'
    else if i == 19 then c == 'Z'
    else IsDigit(c)
  }

  predicate Shaped(t: string) {
    |t| == 20 && forall i :: 0 <= i < 20 ==> Fits(i, t[i])
  }

  /** The number in places from, ..., from + len - 1. */
  function Number(t: string, from: nat, len: nat): nat
    requires from + len <= |t| && forall i :: from <= i < from + len ==> IsDigit(t[i])
  {
    if len == 0 then 0 else 10 * Number(t, from, len - 1) + DigitValue(t[from + len - 1])
  }

  lemma {:induction false} NumberIsValue(t: string, from: nat, len: nat)
    requires from + len <= |t| && forall i :: from <= i < from + len ==> IsDigit(t[i])
    ensures Number(t, from, len) == DigitsValue(t[from..from + len])
  {
    if len > 0 {
      NumberIsValue(t, from, len - 1);
      assert t[from..from + len][..len - 1] == t[from..from + len - 1];
    }
  }

  function Fields(t: string): Civil
    requires Shaped(t)
  {
    Civil(Number(t, 0, 4), Number(t, 5, 2), Number(t, 8, 2), Number(t, 11, 2), Number(t, 14, 2), Number(t, 17, 2))
  }

  lemma {:induction false} FieldsAreValues(t: string)
    requires Shaped(t)
    ensures Fields(t) == Civil(DigitsValue(t[0..4]), DigitsValue(t[5..7]), DigitsValue(t[8..10]),
                               DigitsValue(t[11..13]), DigitsValue(t[14..16]), DigitsValue(t[17..19]))
  {
    hide DigitsValue, Number;
    NumberIsValue(t, 0, 4);
    NumberIsValue(t, 5, 2);
    NumberIsValue(t, 8, 2);
    NumberIsValue(t, 11, 2);
    NumberIsValue(t, 14, 2);
    NumberIsValue(t, 17, 2);
  }

  /** time.Parse(time.RFC3339, t), for texts in UTC without fractional seconds. */
  function Parse(t: string): (r: Option<Second>) {
    if Shaped(t) && ValidCivil(Fields(t)) then Some(ToSeconds(Fields(t))) else None
  }

  lemma {:induction false} Widths()
    ensures Pow10(2) == 100 && Pow10(4) == 10000
  {
    assert Pow10(1) == 10;
    assert Pow10(3) == 1000;
  }

  /** The fixed positions of the six fields. */
  lemma {:induction false} Positions(y: string, m: string, d: string, h: string, mi: string, s: string, t: string)
    requires |y| == 4 && |m| == |d| == |h| == |mi| == |s| == 2
    requires t == y + ("-" + (m + ("-" + (d + ("T" + (h + (":" + (mi + (":" + (s + "Z"))))))))))
    ensures t[..4] == y && t[5..7] == m && t[8..10] == d
    ensures t[11..13] == h && t[14..16] == mi && t[17..19] == s
    ensures t[4] == '-' && t[7] == '-' && t[10] == 'T' && t[13] == ':' && t[16] == ':' && t[19] == 'Z'
  {
    var clock := h + (":" + (mi + (":" + (s + "Z"))));
    assert t[11..] == clock;
    assert clock[..2] == h && clock[3..5] == mi && clock[6..8] == s;
    assert clock[2] == ':' && clock[5] == ':' && clock[8] == 'Z';
  }

  lemma {:induction false} CivilTextIsShaped(c: Civil)
    ensures Shaped(CivilText(c))
  {
    hide Digits, Concat;
    CivilTextForm(c);
    var t := CivilText(c);
    var y, m, d := Digits(c.year, 4), Digits(c.month, 2), Digits(c.day, 2);
    var h, mi, s := Digits(c.hour, 2), Digits(c.minute, 2), Digits(c.second, 2);
    Positions(y, m, d, h, mi, s, t);
    assert |t| == 20;
    forall i | 0 <= i < 20
      ensures Fits(i, t[i])
    {
      if i < 4 { assert t[..4][i] == t[i]; }
      else if 5 <= i < 7 { assert t[5..7][i - 5] == t[i]; }
      else if 8 <= i < 10 { assert t[8..10][i - 8] == t[i]; }
      else if 11 <= i < 13 { assert t[11..13][i - 11] == t[i]; }
      else if 14 <= i < 16 { assert t[14..16][i - 14] == t[i]; }
      else if 17 <= i < 19 { assert t[17..19][i - 17] == t[i]; }
    }
  }

  lemma {:induction false} CivilTextFields(c: Civil)
    requires ValidCivil(c)
    ensures Shaped(CivilText(c)) && Fields(CivilText(c)) == c
  {
    hide Digits, DigitsValue, Concat, Fields, Fits;
    Widths();
    CivilTextForm(c);
    CivilTextIsShaped(c);
    FieldsAreValues(CivilText(c));
    Positions(Digits(c.year, 4), Digits(c.month, 2), Digits(c.day, 2),
              Digits(c.hour, 2), Digits(c.minute, 2), Digits(c.second, 2), CivilText(c));
    DigitsValueOfDigits(c.year, 4);
    DigitsValueOfDigits(c.month, 2);
    DigitsValueOfDigits(c.day, 2);
    DigitsValueOfDigits(c.hour, 2);
    DigitsValueOfDigits(c.minute, 2);
    DigitsValueOfDigits(c.second, 2);
  }

  lemma {:induction false} FieldsCivilText(t: string)
    requires Shaped(t)
    ensures CivilText(Fields(t)) == t
  {
    hide Digits, DigitsValue, Concat, Fields;
    FieldsAreValues(t);
    CivilTextForm(Fields(t));
    DigitsOfDigitsValue(t[0..4]);
    DigitsOfDigitsValue(t[5..7]);
    DigitsOfDigitsValue(t[8..10]);
    DigitsOfDigitsValue(t[11..13]);
    DigitsOfDigitsValue(t[14..16]);
    DigitsOfDigitsValue(t[17..19]);
    SlicesMakeUp(t);
  }

  lemma {:induction false} SlicesMakeUp(t: string)
    requires Shaped(t)
    ensures t == t[0..4] + ("-" + (t[5..7] + ("-" + (t[8..10] + ("T" +
      (t[11..13] + (":" + (t[14..16] + (":" + (t[17..19] + "Z"))))))))))
  {
    assert Fits(4, t[4]) && Fits(7, t[7]) && Fits(10, t[10]) && Fits(13, t[13]) && Fits(16, t[16]) && Fits(19, t[19]);
    var clock := t[11..13] + (":" + (t[14..16] + (":" + (t[17..19] + "Z"))));
    assert t[11..] == clock;
    assert t[..11] == t[0..4] + ("-" + (t[5..7] + ("-" + (t[8..10] + "T"))));
    assert t == t[..11] + t[11..];
  }

  /** Formatting a whole second and parsing the text gives the second back, and a
      text that parses is the text of its own instant: no second spelling exists. */
  lemma {:induction false} RoundTrip(s: Second, t: string)
    ensures Parse(Format(s)) == Some(s) && |Format(s)| == 20
    ensures Parse(t) == Some(s) <==> t == Format(s)
  {
    CivilTextFields(FromSeconds(s));
    SecondsOfCivil(s);
    if Parse(t) == Some(s) {
      FieldsCivilText(t);
      CivilOrder(Fields(t), FromSeconds(s));
    }
  }

  lemma {:induction false} SeparatorOrder(p: string, q: string, c: char, s: string, t: string)
    requires |p| == |q|
    ensures Less(p + ([c] + s), q + ([c] + t)) <==> Less(p, q) || (p == q && Less(s, t))
  {
    LessConcat(p, q, [c] + s, [c] + t);
    LessConcat([c], [c], s, t);
    LessIrreflexive([c]);
  }

  lemma {:induction false} ClockTextOrder(a: Civil, b: Civil)
    requires ValidCivil(a) && ValidCivil(b)
    ensures Less(Digits(a.hour, 2) + (":" + (Digits(a.minute, 2) + (":" + (Digits(a.second, 2) + "Z")))),
                 Digits(b.hour, 2) + (":" + (Digits(b.minute, 2) + (":" + (Digits(b.second, 2) + "Z")))))
       <==> ClockLess(a, b)
  {
    Widths();
    var sa, sb := Digits(a.second, 2) + "Z", Digits(b.second, 2) + "Z";
    LessConcat(Digits(a.second, 2), Digits(b.second, 2), "Z", "Z");
    LessIrreflexive("Z");
    DigitsOrder(a.second, b.second, 2);
    var ma, mb := Digits(a.minute, 2) + (":" + sa), Digits(b.minute, 2) + (":" + sb);
    SeparatorOrder(Digits(a.minute, 2), Digits(b.minute, 2), ':', sa, sb);
    DigitsOrder(a.minute, b.minute, 2);
    SeparatorOrder(Digits(a.hour, 2), Digits(b.hour, 2), ':', ma, mb);
    DigitsOrder(a.hour, b.hour, 2);
  }

  lemma {:induction false} CivilTextOrder(a: Civil, b: Civil)
    requires ValidCivil(a) && ValidCivil(b)
    ensures Less(CivilText(a), CivilText(b)) <==> CivilLess(a, b)
  {
    Widths();
    var ha := Digits(a.hour, 2) + (":" + (Digits(a.minute, 2) + (":" + (Digits(a.second, 2) + "Z"))));
    var hb := Digits(b.hour, 2) + (":" + (Digits(b.minute, 2) + (":" + (Digits(b.second, 2) + "Z"))));
    ClockTextOrder(a, b);
    SeparatorOrder(Digits(a.day, 2), Digits(b.day, 2), 'T', ha, hb);
    DigitsOrder(a.day, b.day, 2);
    var da, db := Digits(a.day, 2) + ("T" + ha), Digits(b.day, 2) + ("T" + hb);
    SeparatorOrder(Digits(a.month, 2), Digits(b.month, 2), '-', da, db);
    DigitsOrder(a.month, b.month, 2);
    var ma, mb := Digits(a.month, 2) + ("-" + da), Digits(b.month, 2) + ("-" + db);
    SeparatorOrder(Digits(a.year, 4), Digits(b.year, 4), '-', ma, mb);
    DigitsOrder(a.year, b.year, 4);
    CivilTextForm(a);
    CivilTextForm(b);
  }

  lemma {:induction false} CivilTextOrderIsTimeOrder(a: Civil, b: Civil)
    requires ValidCivil(a) && ValidCivil(b)
    ensures Less(CivilText(a), CivilText(b)) <==> ToSeconds(a) < ToSeconds(b)
  {
    CivilTextOrder(a, b);
    CivilOrder(a, b);
  }

  /** The stored texts compare exactly as the seconds they stand for. */
  lemma {:induction false} TextOrderIsTimeOrder(a: Second, b: Second)
    ensures Less(Format(a), Format(b)) <==> a < b
    ensures Format(a) == Format(b) <==> a == b
  {
    SecondsOfCivil(a);
    SecondsOfCivil(b);
    CivilTextOrderIsTimeOrder(FromSeconds(a), FromSeconds(b));
    RoundTrip(a, Format(a));
    RoundTrip(b, Format(b));
  }

  // ---------------------------------------------------------------- the calendar by formula

  /** Days of years 0, ..., y - 1: a leap day every fourth year, but not in three of four
      centuries. */
  function DaysOfYearsBefore(y: nat): int {
    365 * y + (y + 3) / 4 - (y + 99) / 100 + (y + 399) / 400
  }

  /** Days of year y before month m, by the rule of 153 days in five months from March on. */
  function DaysOfMonthsBefore(y: nat, m: nat): int {
    if m == 1 then 0
    else if m == 2 then 31
    else 59 + (if y % 4 == 0 && (y % 100 != 0 || y % 400 == 0) then 1 else 0) + (153 * (m - 3) + 2) / 5
  }

  lemma {:induction false} MonthsByFormula(y: nat, m: nat)
    requires 1 <= m <= 13
    ensures DaysBeforeMonth(y, m) == DaysOfMonthsBefore(y, m)
  {
    if m > 1 {
      MonthsByFormula(y, m - 1);
      assert m == 2 || m == 3 || m == 4 || m == 5 || m == 6 || m == 7 || m == 8 || m == 9 || m == 10 || m == 11
          || m == 12 || m == 13;
    }
  }

  /** A date and time of day of the Gregorian calendar. */
  predicate OnCalendar(y: nat, m: nat, d: nat, hour: nat, minute: nat, second: nat) {
    && y < 10000 && 1 <= m <= 12
    && 1 <= d <= DaysOfMonthsBefore(y, m + 1) - DaysOfMonthsBefore(y, m)
    && hour < 24 && minute < 60 && second < 60
  }

  function SecondNumber(y: nat, m: nat, d: nat, hour: nat, minute: nat, second: nat): int {
    (DaysOfYearsBefore(y) + DaysOfMonthsBefore(y, m) + d - 1) * 86_400 + hour * 3_600 + minute * 60 + second
  }

  /** The text of a second is its date and time in the Gregorian calendar, spelled year, month
      and day, hour, minute and second with their separators; every second has one. */
  lemma {:induction false} FormatSpells(y: nat, m: nat, d: nat, hour: nat, minute: nat, second: nat)
    requires OnCalendar(y, m, d, hour, minute, second)
    ensures 0 <= SecondNumber(y, m, d, hour, minute, second) < SECONDS_TO_YEAR_10000
    ensures Format(SecondNumber(y, m, d, hour, minute, second))
         == Digits(y, 4) + ("-" + (Digits(m, 2) + ("-" + (Digits(d, 2) + ("T" +
            (Digits(hour, 2) + (":" + (Digits(minute, 2) + (":" + (Digits(second, 2) + "Z"))))))))))
  {
    hide DaysOfMonthsBefore, Digits, Concat, FromSeconds;
    MonthsByFormula(y, m);
    MonthsByFormula(y, m + 1);
    DaysBeforeYearClosedForm(y);
    var c := Civil(y, m, d, hour, minute, second);
    assert DaysBeforeMonth(y, m + 1) == DaysBeforeMonth(y, m) + MonthDays(y, m);
    var s := ToSeconds(c);
    assert s == SecondNumber(y, m, d, hour, minute, second);
    SecondsOfCivil(s);
    CivilOrder(FromSeconds(s), c);
    CivilTextForm(c);
  }

  lemma {:induction false} EverySecondIsOnCalendar(s: Second)
    ensures var c := FromSeconds(s);
            && OnCalendar(c.year, c.month, c.day, c.hour, c.minute, c.second)
            && SecondNumber(c.year, c.month, c.day, c.hour, c.minute, c.second) == s
  {
    hide DaysOfMonthsBefore, FromSeconds;
    var c := FromSeconds(s);
    SecondsOfCivil(s);
    MonthsByFormula(c.year, c.month);
    MonthsByFormula(c.year, c.month + 1);
    DaysBeforeYearClosedForm(c.year);
    assert DaysBeforeMonth(c.year, c.month + 1) == DaysBeforeMonth(c.year, c.month) + MonthDays(c.year, c.month);
  }

  /** Second 0 of Unix time and Go's zero time, spelled out. */
  lemma {:induction false} Epochs()
    ensures Format(UNIX_EPOCH) == "1970-01-01T00:00:00Z"
    ensures Stamp(GO_ZERO) == "0001-01-01T00:00:00Z"
    ensures ToUnix(UNIX_EPOCH * 1_000_000_000) == 0 && FromUnix(0) == UNIX_EPOCH * 1_000_000_000
  {
    hide Format, Digits, OnCalendar, SecondNumber;
    EpochSeconds();
    EpochDigits();
    FormatSpells(1970, 1, 1, 0, 0, 0);
    assert "1970" + ("-" + ("01" + ("-" + ("01" + ("T" + ("00" + (":" + ("00" + (":" + ("00" + "Z"))))))))))
        == "1970-01-01T00:00:00Z";
    FormatSpells(1, 1, 1, 0, 0, 0);
    assert "0001" + ("-" + ("01" + ("-" + ("01" + ("T" + ("00" + (":" + ("00" + (":" + ("00" + "Z"))))))))))
        == "0001-01-01T00:00:00Z";
  }

  /** Unix time counts whole seconds towards the past, and a stored text has no fractions. */
  lemma {:induction false} UnixCounts(t: Instant)
    ensures ToUnix(t) * 1_000_000_000 <= t - UNIX_EPOCH * 1_000_000_000 < (ToUnix(t) + 1) * 1_000_000_000
    ensures FromUnix(ToUnix(t)) <= t < FromUnix(ToUnix(t)) + 1_000_000_000
    ensures Stamp(t) == Format(t / 1_000_000_000)
  {
    hide Format;
  }

  lemma {:induction false} EpochSeconds()
    ensures OnCalendar(1970, 1, 1, 0, 0, 0) && SecondNumber(1970, 1, 1, 0, 0, 0) == UNIX_EPOCH
    ensures OnCalendar(1, 1, 1, 0, 0, 0) && SecondNumber(1, 1, 1, 0, 0, 0) == GO_ZERO / NS
  {
  }

  lemma {:induction false} EpochDigits()
    ensures Digits(1970, 4) == "1970" && Digits(1, 4) == "0001" && Digits(1, 2) == "01" && Digits(0, 2) == "00"
  {
    assert Digits(0, 0) == "" && Digits(0, 1) == "0" && Digits(0, 3) == "000";
    assert Digits(1, 1) == "1" && Digits(19, 2) == "19" && Digits(197, 3) == "197";
  }
}
