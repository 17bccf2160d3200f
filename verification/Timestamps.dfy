/** Times as the billing code uses them: civil UTC times, their order, adding a month, and the
    fixed-width strings under which the database keeps and compares them. */
module Timestamps {
  import Strings

  datatype CivilTime = CivilTime(
    year: nat, month: nat, day: nat, hour: nat, minute: nat, second: nat, nano: nat)

  predicate IsLeap(year: nat) {
    year % 4 == 0 && (year % 100 != 0 || year % 400 == 0)
  }

  function DaysIn(year: nat, month: nat): (r: nat)
    requires 1 <= month <= 12
    ensures 28 <= r <= 31
  {
    if month == 2 then (if IsLeap(year) then 29 else 28)
    else if month in {4, 6, 9, 11} then 30
    else 31
  }

  lemma LeapYears(year: nat)
    ensures IsLeap(year) <==> (year % 4 == 0 && year % 100 != 0) || year % 400 == 0
  {
    if year % 400 == 0 {
      var k := year / 400;
      assert year == 4 * (100 * k);
    }
  }

  predicate IsCivil(t: CivilTime) {
    && 1 <= t.month <= 12 && 1 <= t.day <= DaysIn(t.year, t.month)
    && t.hour < 24 && t.minute < 60 && t.second < 60 && t.nano < 1_000_000_000
  }

  type Time = t: CivilTime | IsCivil(t) witness CivilTime(1970, 1, 1, 0, 0, 0, 0)

  /** Go's zero time. */
  const ZERO_TIME: Time := CivilTime(1, 1, 1, 0, 0, 0, 0)

  // ----- The time line

  function DaysBeforeYear(year: nat): nat {
    if year == 0 then 0 else DaysBeforeYear(year - 1) + (if IsLeap(year - 1) then 366 else 365)
  }

  function DaysBeforeMonth(year: nat, month: nat): nat
    requires 1 <= month <= 13
  {
    if month == 1 then 0 else DaysBeforeMonth(year, month - 1) + DaysIn(year, month - 1)
  }

  function DayNumber(t: Time): nat {
    DaysBeforeYear(t.year) + DaysBeforeMonth(t.year, t.month) + t.day - 1
  }

  function SecondOfDay(t: Time): (r: nat)
    ensures r < 86_400
  {
    (t.hour * 60 + t.minute) * 60 + t.second
  }

  function Nanos(t: Time): nat {
    (DayNumber(t) * 86_400 + SecondOfDay(t)) * 1_000_000_000 + t.nano
  }

  function Millis(t: Time): nat {
    (DayNumber(t) * 86_400 + SecondOfDay(t)) * 1_000 + t.nano / 1_000_000
  }

  predicate Before(a: Time, b: Time) {
    Nanos(a) < Nanos(b)
  }

  /** The time as the database keeps it, to the millisecond. */
  function Truncate(t: Time): Time {
    var ms := t.nano / 1_000_000;
    t.(nano := ms * 1_000_000)
  }

  lemma WholeMillis(ms: nat)
    ensures ms * 1_000_000 / 1_000_000 == ms
  {
  }

  lemma TruncateKeepsMillis(t: Time)
    ensures Millis(Truncate(t)) == Millis(t)
    ensures Nanos(Truncate(t)) <= Nanos(t)
    ensures Truncate(Truncate(t)) == Truncate(t)
  {
    WholeMillis(t.nano / 1_000_000);
  }

  lemma MillisFollowNanos(a: Time, b: Time)
    requires Nanos(a) <= Nanos(b)
    ensures Millis(a) <= Millis(b)
  {
  }

  lemma {:induction false} YearsGrow(a: nat, b: nat)
    requires a < b
    ensures DaysBeforeYear(a) + (if IsLeap(a) then 366 else 365) <= DaysBeforeYear(b)
    decreases b
  {
    if a < b - 1 {
      YearsGrow(a, b - 1);
    }
  }

  lemma {:induction false} MonthsGrow(year: nat, a: nat, b: nat)
    requires 1 <= a < b <= 13
    ensures DaysBeforeMonth(year, a) + DaysIn(year, a) <= DaysBeforeMonth(year, b)
    decreases b
  {
    if a < b - 1 {
      MonthsGrow(year, a, b - 1);
    }
  }

  /** On which day of the year the months begin, and how long the year is. */
  lemma MonthsBegin(year: nat)
    ensures var leap := if (year % 4 == 0 && year % 100 != 0) || year % 400 == 0 then 1 else 0;
            && DaysBeforeMonth(year, 2) == 31 && DaysBeforeMonth(year, 3) == 59 + leap
            && DaysBeforeMonth(year, 4) == 90 + leap && DaysBeforeMonth(year, 5) == 120 + leap
            && DaysBeforeMonth(year, 6) == 151 + leap && DaysBeforeMonth(year, 7) == 181 + leap
            && DaysBeforeMonth(year, 8) == 212 + leap && DaysBeforeMonth(year, 9) == 243 + leap
            && DaysBeforeMonth(year, 10) == 273 + leap && DaysBeforeMonth(year, 11) == 304 + leap
            && DaysBeforeMonth(year, 12) == 334 + leap && DaysBeforeMonth(year, 13) == 365 + leap
  {
    LeapYears(year);
    var leap := if IsLeap(year) then 1 else 0;
    assert DaysBeforeMonth(year, 2) == 31;
    assert DaysBeforeMonth(year, 3) == 59 + leap;
    assert DaysBeforeMonth(year, 5) == 120 + leap;
    assert DaysBeforeMonth(year, 7) == 181 + leap;
    assert DaysBeforeMonth(year, 9) == 243 + leap;
    assert DaysBeforeMonth(year, 11) == 304 + leap;
  }

  lemma YearHasItsDays(year: nat)
    ensures DaysBeforeMonth(year, 13) == if IsLeap(year) then 366 else 365
  {
    LeapYears(year);
    MonthsBegin(year);
  }

  /** An earlier date has a smaller day number. */
  lemma DaysGrow(a: Time, b: Time)
    requires a.year < b.year
             || (a.year == b.year && (a.month < b.month || (a.month == b.month && a.day < b.day)))
    ensures DayNumber(a) < DayNumber(b)
  {
    if a.year < b.year {
      YearsGrow(a.year, b.year);
      YearHasItsDays(a.year);
      MonthsGrow(a.year, a.month, 13);
    } else if a.month < b.month {
      MonthsGrow(a.year, a.month, b.month);
    }
  }

  // ----- Adding a month

  /** The date overflows into the following month when the next month is too short. */
  function AddMonth(t: Time): (r: Time)
    ensures r.year <= t.year + 1
  {
    var y := if t.month == 12 then t.year + 1 else t.year;
    var m := if t.month == 12 then 1 else t.month + 1;
    if t.day <= DaysIn(y, m) then
      t.(year := y, month := m)
    else
      t.(year := y, month := m + 1, day := t.day - DaysIn(y, m))
  }

  lemma NextMonthBegins(year: nat, month: nat)
    requires 1 <= month <= 12
    ensures var y, m := if month == 12 then year + 1 else year, if month == 12 then 1 else month + 1;
            DaysBeforeYear(y) + DaysBeforeMonth(y, m) == DaysBeforeYear(year) + DaysBeforeMonth(year, month) + DaysIn(year, month)
  {
    if month == 12 {
      YearHasItsDays(year);
      assert DaysBeforeMonth(year, 13) == DaysBeforeMonth(year, 12) + 31;
    }
  }

  /** Adding a month moves a time ahead by exactly the length of the month it is in. */
  lemma AddMonthAdvances(t: Time)
    ensures DayNumber(AddMonth(t)) == DayNumber(t) + DaysIn(t.year, t.month)
    ensures SecondOfDay(AddMonth(t)) == SecondOfDay(t) && AddMonth(t).nano == t.nano
    ensures Truncate(t) == t ==> Truncate(AddMonth(t)) == AddMonth(t)
  {
    var y, m := if t.month == 12 then t.year + 1 else t.year, if t.month == 12 then 1 else t.month + 1;
    NextMonthBegins(t.year, t.month);
    assert DaysBeforeMonth(y, m + 1) == DaysBeforeMonth(y, m) + DaysIn(y, m);
  }

  const DAY := 86_400 * 1_000_000_000

  lemma AddMonthIsLater(t: Time)
    ensures Nanos(t) + 28 * DAY <= Nanos(AddMonth(t)) <= Nanos(t) + 31 * DAY
  {
    AddMonthAdvances(t);
  }

  // ----- Timestamps as strings

  /** The order by which the database compares strings. */
  predicate Less(s: string, t: string) {
    t != "" && (s == "" || s[0] < t[0] || (s[0] == t[0] && Less(s[1..], t[1..])))
  }

  lemma {:induction false} LessConcat(a: string, b: string, s: string, t: string)
    requires |a| == |b|
    ensures Less(a + s, b + t) <==> Less(a, b) || (a == b && Less(s, t))
  {
    if a == "" {
      assert a + s == s && b + t == t;
    } else {
      assert (a + s)[1..] == a[1..] + s && (b + t)[1..] == b[1..] + t;
      LessConcat(a[1..], b[1..], s, t);
      assert a == b <==> a[0] == b[0] && a[1..] == b[1..];
    }
  }

  lemma {:induction false} LessIsTotal(s: string, t: string)
    ensures !(Less(s, t) && Less(t, s))
    ensures Less(s, t) || Less(t, s) || s == t
    ensures !Less(s, s)
  {
    if s != "" && t != "" {
      LessIsTotal(s[1..], t[1..]);
      assert s == [s[0]] + s[1..] && t == [t[0]] + t[1..];
    }
    if s != "" {
      LessIsTotal(s[1..], s[1..]);
    }
  }

  function Pow10(w: nat): (r: nat)
    ensures r > 0
  {
    if w == 0 then 1 else 10 * Pow10(w - 1)
  }

  /** The last `w` decimal digits of `n`. */
  function Digits(n: nat, w: nat): (s: string)
    ensures |s| == w
  {
    if w == 0 then "" else Digits(n / 10, w - 1) + [('0' as int + n % 10) as char]
  }

  lemma {:induction false} DigitsOrder(m: nat, n: nat, w: nat)
    requires m < Pow10(w) && n < Pow10(w)
    ensures Less(Digits(m, w), Digits(n, w)) <==> m < n
    ensures Digits(m, w) == Digits(n, w) <==> m == n
  {
    if w > 0 {
      DigitsOrder(m / 10, n / 10, w - 1);
      var c, d := ('0' as int + m % 10) as char, ('0' as int + n % 10) as char;
      var a, b := Digits(m / 10, w - 1), Digits(n / 10, w - 1);
      LessConcat(a, b, [c], [d]);
      assert Less([c], [d]) <==> c < d;
      assert (a + [c])[..w - 1] == a && (b + [d])[..w - 1] == b;
      assert (a + [c])[w - 1] == c && (b + [d])[w - 1] == d;
    }
  }

  /** One numeric field with its width and the character after it. */
  datatype Field = Field(value: nat, width: nat, mark: char)

  function Render(fields: seq<Field>): string {
    if fields == [] then ""
    else Digits(fields[0].value, fields[0].width) + [fields[0].mark] + Render(fields[1..])
  }

  predicate SameLayout(a: seq<Field>, b: seq<Field>) {
    |a| == |b| && forall i :: 0 <= i < |a| ==> a[i].width == b[i].width && a[i].mark == b[i].mark
  }

  predicate Fits(a: seq<Field>) {
    forall i :: 0 <= i < |a| ==> a[i].value < Pow10(a[i].width)
  }

  /** The fields in turn decide the order. */
  predicate FieldsLess(a: seq<Field>, b: seq<Field>)
    requires |a| == |b|
  {
    a != [] && (a[0].value < b[0].value || (a[0].value == b[0].value && FieldsLess(a[1..], b[1..])))
  }

  lemma FieldInFront(d: string, e: string, c: char, s: string, t: string)
    requires |d| == |e|
    ensures Less(d + [c] + s, e + [c] + t) <==> Less(d, e) || (d == e && Less(s, t))
    ensures d + [c] + s == e + [c] + t <==> d == e && s == t
  {
    assert d + [c] + s == d + ([c] + s) && e + [c] + t == e + ([c] + t);
    LessConcat(d, e, [c] + s, [c] + t);
    LessConcat([c], [c], s, t);
    LessIsTotal([c], [c]);
    assert (d + [c] + s)[..|d|] == d && (e + [c] + t)[..|d|] == e;
    assert (d + [c] + s)[|d| + 1..] == s && (e + [c] + t)[|d| + 1..] == t;
  }

  lemma {:induction false} RenderOrder(a: seq<Field>, b: seq<Field>)
    requires SameLayout(a, b) && Fits(a) && Fits(b)
    ensures Less(Render(a), Render(b)) <==> FieldsLess(a, b)
    ensures Render(a) == Render(b) <==> a == b
  {
    if a != [] {
      RenderOrder(a[1..], b[1..]);
      var w, c := a[0].width, a[0].mark;
      var d, e := Digits(a[0].value, w), Digits(b[0].value, w);
      DigitsOrder(a[0].value, b[0].value, w);
      FieldInFront(d, e, c, Render(a[1..]), Render(b[1..]));
      assert a == [a[0]] + a[1..] && b == [b[0]] + b[1..];
    }
  }

  function Fields(t: Time): seq<Field> {
    [Field(t.year, 4, '-'), Field(t.month, 2, '-'), Field(t.day, 2, 'T'), Field(t.hour, 2, ':'),
     Field(t.minute, 2, ':'), Field(t.second, 2, '.'), Field(t.nano / 1_000_000, 3, 'Z')]
  }

  function TimeToISO8601(t: Time): string {
    Render(Fields(t))
  }

  lemma FieldsLessStep(v: nat, w: nat, width: nat, mark: char, a: seq<Field>, b: seq<Field>)
    requires |a| == |b|
    ensures FieldsLess([Field(v, width, mark)] + a, [Field(w, width, mark)] + b) <==> v < w || (v == w && FieldsLess(a, b))
  {
    assert ([Field(v, width, mark)] + a)[1..] == a && ([Field(w, width, mark)] + b)[1..] == b;
  }

  predicate DateLess(a: Time, b: Time) {
    a.year < b.year || (a.year == b.year && (a.month < b.month || (a.month == b.month && a.day < b.day)))
  }

  predicate ClockLess(a: Time, b: Time) {
    || a.hour < b.hour
    || (a.hour == b.hour
        && (a.minute < b.minute
            || (a.minute == b.minute
                && (a.second < b.second
                    || (a.second == b.second && a.nano / 1_000_000 < b.nano / 1_000_000)))))
  }

  function ClockFields(t: Time): seq<Field> {
    [Field(t.hour, 2, ':')] + ([Field(t.minute, 2, ':')] + ([Field(t.second, 2, '.')] + ([Field(t.nano / 1_000_000, 3, 'Z')] + [])))
  }

  lemma ClockFieldsOrder(a: Time, b: Time)
    ensures FieldsLess(ClockFields(a), ClockFields(b)) <==> ClockLess(a, b)
  {
    var a4, b4 := [Field(a.nano / 1_000_000, 3, 'Z')] + [], [Field(b.nano / 1_000_000, 3, 'Z')] + [];
    var a3, b3 := [Field(a.second, 2, '.')] + a4, [Field(b.second, 2, '.')] + b4;
    var a2, b2 := [Field(a.minute, 2, ':')] + a3, [Field(b.minute, 2, ':')] + b3;
    FieldsLessStep(a.nano / 1_000_000, b.nano / 1_000_000, 3, 'Z', [], []);
    FieldsLessStep(a.second, b.second, 2, '.', a4, b4);
    FieldsLessStep(a.minute, b.minute, 2, ':', a3, b3);
    FieldsLessStep(a.hour, b.hour, 2, ':', a2, b2);
  }

  lemma FieldsOrder(a: Time, b: Time)
    ensures FieldsLess(Fields(a), Fields(b)) <==>
            DateLess(a, b) || (a.year == b.year && a.month == b.month && a.day == b.day && ClockLess(a, b))
  {
    ClockFieldsOrder(a, b);
    var a2, b2 := [Field(a.day, 2, 'T')] + ClockFields(a), [Field(b.day, 2, 'T')] + ClockFields(b);
    var a1, b1 := [Field(a.month, 2, '-')] + a2, [Field(b.month, 2, '-')] + b2;
    FieldsLessStep(a.day, b.day, 2, 'T', ClockFields(a), ClockFields(b));
    FieldsLessStep(a.month, b.month, 2, '-', a2, b2);
    FieldsLessStep(a.year, b.year, 4, '-', a1, b1);
    assert Fields(a) == [Field(a.year, 4, '-')] + a1 && Fields(b) == [Field(b.year, 4, '-')] + b1;
  }

  lemma FieldsLessMeansEarlier(a: Time, b: Time)
    requires FieldsLess(Fields(a), Fields(b))
    ensures Millis(a) < Millis(b)
  {
    FieldsOrder(a, b);
    if DateLess(a, b) {
      DaysGrow(a, b);
    }
  }

  lemma FieldsEqualMeansSame(a: Time, b: Time)
    requires !FieldsLess(Fields(a), Fields(b)) && !FieldsLess(Fields(b), Fields(a))
    ensures Fields(a) == Fields(b) && Millis(a) == Millis(b)
  {
    FieldsOrder(a, b);
    FieldsOrder(b, a);
  }

  lemma FieldsFit(t: Time)
    requires t.year <= 9999
    ensures Fits(Fields(t))
  {
    assert Pow10(2) == 100;
    assert Pow10(3) == 10 * Pow10(2);
    assert Pow10(4) == 10 * Pow10(3);
  }

  /** Up to the year 9999 the strings sort exactly like the times, to the millisecond. */
  lemma TimestampsSortLikeTimes(a: Time, b: Time)
    requires a.year <= 9999 && b.year <= 9999
    ensures Less(TimeToISO8601(a), TimeToISO8601(b)) <==> Millis(a) < Millis(b)
    ensures TimeToISO8601(a) == TimeToISO8601(b) <==> Millis(a) == Millis(b)
  {
    FieldsFit(a);
    FieldsFit(b);
    RenderOrder(Fields(a), Fields(b));
    RenderOrder(Fields(b), Fields(a));
    if FieldsLess(Fields(a), Fields(b)) {
      FieldsLessMeansEarlier(a, b);
    } else if FieldsLess(Fields(b), Fields(a)) {
      FieldsLessMeansEarlier(b, a);
    } else {
      FieldsEqualMeansSame(a, b);
    }
    LessIsTotal(TimeToISO8601(a), TimeToISO8601(b));
  }

  // ----- Reading a timestamp

  lemma {:induction false} DigitsReadBack(n: nat, w: nat)
    requires n < Pow10(w)
    ensures Strings.Decimal(Digits(n, w)) == n
  {
    if w > 0 {
      DigitsReadBack(n / 10, w - 1);
      assert Digits(n, w)[..w - 1] == Digits(n / 10, w - 1);
    }
  }

  /** Where a field starts. */
  function Offset(fields: seq<Field>, k: nat): nat
    requires k <= |fields|
  {
    if k == 0 then 0 else Offset(fields, k - 1) + fields[k - 1].width + 1
  }

  lemma {:induction false} OffsetAfterFirst(fields: seq<Field>, k: nat)
    requires 0 < k <= |fields|
    ensures Offset(fields, k) == fields[0].width + 1 + Offset(fields[1..], k - 1)
  {
    if k > 1 {
      OffsetAfterFirst(fields, k - 1);
    }
  }

  lemma {:induction false} FieldStandsAt(fields: seq<Field>, k: nat)
    requires k < |fields|
    ensures var i, w := Offset(fields, k), fields[k].width;
            && i + w < |Render(fields)|
            && Render(fields)[i..i + w] == Digits(fields[k].value, w) && Render(fields)[i + w] == fields[k].mark
  {
    var d := Digits(fields[0].value, fields[0].width) + [fields[0].mark];
    var rest := Render(fields[1..]);
    assert Render(fields) == d + rest;
    if k > 0 {
      FieldStandsAt(fields[1..], k - 1);
      OffsetAfterFirst(fields, k);
      var i, w := Offset(fields[1..], k - 1), fields[k].width;
      assert (d + rest)[|d| + i..|d| + i + w] == rest[i..i + w];
    }
  }

  lemma {:induction false} RenderedLength(fields: seq<Field>)
    ensures |Render(fields)| == Offset(fields, |fields|)
  {
    if fields != [] {
      RenderedLength(fields[1..]);
      OffsetAfterFirst(fields, |fields|);
    }
  }

  lemma FieldOffsets(t: Time)
    ensures var f := Fields(t);
            && |f| == 7 && Offset(f, 0) == 0 && Offset(f, 1) == 5 && Offset(f, 2) == 8 && Offset(f, 3) == 11
            && Offset(f, 4) == 14 && Offset(f, 5) == 17 && Offset(f, 6) == 20 && Offset(f, 7) == 24
  {
    var f := Fields(t);
    assert Offset(f, 1) == 5;
    assert Offset(f, 2) == 8;
    assert Offset(f, 3) == 11;
    assert Offset(f, 4) == 14;
    assert Offset(f, 5) == 17;
    assert Offset(f, 6) == 20;
  }

  /** A timestamp is a date and a time of day in the layout of section 5.6 of RFC 3339, with three digits of a second, in
      UTC, and its numbers are those of the time. */
  lemma TimestampReadsBack(t: Time)
    requires t.year <= 9999
    ensures var s := TimeToISO8601(t);
            && |s| == 24
            && s[4] == '-' && s[7] == '-' && s[10] == 'T' && s[13] == ':' && s[16] == ':' && s[19] == '.' && s[23] == 'Z'
            && Strings.Decimal(s[0..4]) == t.year && Strings.Decimal(s[5..7]) == t.month && Strings.Decimal(s[8..10]) == t.day
            && Strings.Decimal(s[11..13]) == t.hour && Strings.Decimal(s[14..16]) == t.minute && Strings.Decimal(s[17..19]) == t.second
            && Strings.Decimal(s[20..23]) == t.nano / 1_000_000
  {
    var f := Fields(t);
    FieldsFit(t);
    FieldOffsets(t);
    RenderedLength(f);
    forall k | 0 <= k < 7
      ensures var i, w := Offset(f, k), f[k].width;
              && i + w < |Render(f)| && Strings.Decimal(Render(f)[i..i + w]) == f[k].value && Render(f)[i + w] == f[k].mark
    {
      FieldStandsAt(f, k);
      DigitsReadBack(f[k].value, f[k].width);
    }
    assert Offset(f, 0) == 0 && f[0].width == 4;
    assert Offset(f, 1) == 5 && f[1].width == 2;
    assert Offset(f, 2) == 8 && f[2].width == 2;
    assert Offset(f, 3) == 11 && f[3].width == 2;
    assert Offset(f, 4) == 14 && f[4].width == 2;
    assert Offset(f, 5) == 17 && f[5].width == 2;
    assert Offset(f, 6) == 20 && f[6].width == 3;
  }
}
