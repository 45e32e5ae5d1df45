/**
 Nanosecond timestamps as text: the Gregorian date, the time of day and the millisecond, all but
 the year of fixed width. From the year 1000 on the text sorts as the instants do.
 */
module Timestamps {
  import opened Options
  import opened Text

  // ---- the calendar ----

  datatype Date = Date(year: int, month: int, day: int)

  predicate IsLeap(year: int) { year % 4 == 0 && (year % 100 != 0 || year % 400 == 0) }

  function DaysInMonth(year: int, month: int): (n: int)
    ensures 28 <= n <= 31
  {
    if month == 2 then (if IsLeap(year) then 29 else 28)
    else if month == 4 || month == 6 || month == 9 || month == 11 then 30
    else 31
  }

  predicate ValidDate(d: Date) {
    1 <= d.year && 1 <= d.month <= 12 && 1 <= d.day <= DaysInMonth(d.year, d.month)
  }

  function NextDay(d: Date): (n: Date)
    requires ValidDate(d)
    ensures ValidDate(n)
  {
    if d.day < DaysInMonth(d.year, d.month) then Date(d.year, d.month, d.day + 1)
    else if d.month < 12 then Date(d.year, d.month + 1, 1)
    else Date(d.year + 1, 1, 1)
  }

  /** The calendar itself: day 0 is 1 January of year 1, and each day follows the one before. */
  function DateOf(n: nat): (d: Date)
    ensures ValidDate(d)
  {
    if n == 0 then Date(1, 1, 1) else NextDay(DateOf(n - 1))
  }

  // ---- the same in closed form ----

  function DaysBeforeYear(year: int): int {
    var y := year - 1;
    y * 365 + y / 4 - y / 100 + y / 400
  }

  function DaysBeforeMonth(year: int, month: int): int
    requires 1 <= month <= 12
    decreases month
  {
    if month == 1 then 0 else DaysBeforeMonth(year, month - 1) + DaysInMonth(year, month - 1)
  }

  function DayNumber(d: Date): int
    requires ValidDate(d)
  {
    DaysBeforeYear(d.year) + DaysBeforeMonth(d.year, d.month) + d.day - 1
  }

  lemma EveryFourth(y: int)
    ensures (y + 1) / 4 - y / 4 == if (y + 1) % 4 == 0 then 1 else 0
  {
  }

  lemma EveryHundredth(y: int)
    ensures (y + 1) / 100 - y / 100 == if (y + 1) % 100 == 0 then 1 else 0
    ensures (y + 1) % 100 == 0 ==> (y + 1) % 4 == 0
  {
  }

  lemma EveryFourHundredth(y: int)
    ensures (y + 1) / 400 - y / 400 == if (y + 1) % 400 == 0 then 1 else 0
    ensures (y + 1) % 400 == 0 ==> (y + 1) % 100 == 0
  {
  }

  lemma YearLength(year: int)
    requires year >= 1
    ensures DaysBeforeYear(year + 1) == DaysBeforeYear(year) + 337 + DaysInMonth(year, 2)
  {
    EveryFourth(year - 1);
    EveryHundredth(year - 1);
    EveryFourHundredth(year - 1);
  }

  lemma December(year: int)
    ensures DaysBeforeMonth(year, 12) == 306 + DaysInMonth(year, 2)
  {
    assert DaysBeforeMonth(year, 3) == 31 + DaysInMonth(year, 2);
    assert DaysBeforeMonth(year, 6) == DaysBeforeMonth(year, 3) + 92;
    assert DaysBeforeMonth(year, 9) == DaysBeforeMonth(year, 6) + 92;
    assert DaysBeforeMonth(year, 12) == DaysBeforeMonth(year, 9) + 91;
  }

  lemma NextDayNumber(d: Date)
    requires ValidDate(d)
    ensures DayNumber(NextDay(d)) == DayNumber(d) + 1
  {
    if d.day == DaysInMonth(d.year, d.month) && d.month == 12 {
      YearLength(d.year);
      December(d.year);
    }
  }

  /** Counting days forward to a day and taking its number in closed form gives the day back. */
  lemma {:induction false} DayNumberOfDate(n: nat)
    ensures DayNumber(DateOf(n)) == n
  {
    if n == 0 {
      assert DaysBeforeYear(1) == 0;
    } else {
      DayNumberOfDate(n - 1);
      NextDayNumber(DateOf(n - 1));
    }
  }

  lemma {:induction false} YearsAscend(y: int, z: int)
    requires 1 <= y <= z
    ensures DaysBeforeYear(y) <= DaysBeforeYear(z)
    decreases z
  {
    if y < z {
      YearsAscend(y, z - 1);
      YearLength(z - 1);
    }
  }

  lemma {:induction false} MonthsAscend(year: int, m: int, n: int)
    requires 1 <= m <= n <= 12
    ensures 0 <= DaysBeforeMonth(year, m) <= DaysBeforeMonth(year, n)
    ensures m < n ==> DaysBeforeMonth(year, m) + DaysInMonth(year, m) <= DaysBeforeMonth(year, n)
    decreases n
  {
    if m < n { MonthsAscend(year, m, n - 1); }
    else if m > 1 { MonthsAscend(year, m - 1, m - 1); }
  }

  lemma DayOfYearBound(d: Date)
    requires ValidDate(d)
    ensures 0 <= DaysBeforeMonth(d.year, d.month) + d.day - 1 < 337 + DaysInMonth(d.year, 2)
  {
    December(d.year);
    MonthsAscend(d.year, d.month, 12);
  }

  /** A date lies in a year or later iff its day number is not below that of the first day of the year. */
  lemma YearOfDay(d: Date, year: int)
    requires ValidDate(d) && year >= 1
    ensures d.year >= year <==> DayNumber(d) >= DaysBeforeYear(year)
  {
    hide DaysBeforeYear, DaysInMonth, DaysBeforeMonth;
    DayOfYearBound(d);
    YearLength(d.year);
    if d.year >= year { YearsAscend(year, d.year); } else { YearsAscend(d.year + 1, year); }
  }

  /** Day numbers are ordered as dates are. */
  lemma NumbersAscend(a: Date, b: Date)
    requires ValidDate(a) && ValidDate(b) && DateLess(a, b)
    ensures DayNumber(a) < DayNumber(b)
  {
    hide DaysBeforeYear, DaysInMonth, DaysBeforeMonth;
    if a.year < b.year {
      YearOfDay(a, b.year);
      YearOfDay(b, b.year);
    } else if a.month < b.month {
      MonthsAscend(a.year, a.month, b.month);
    }
  }

  /** And the other way round: every date is that of its day number. */
  lemma DateOfDayNumber(d: Date)
    requires ValidDate(d)
    ensures DayNumber(d) >= 0 && DateOf(DayNumber(d)) == d
  {
    hide DateOf, DayNumber, ValidDate;
    DayNumberIsNatural(d);
    var e := DateOf(DayNumber(d));
    DayNumberOfDate(DayNumber(d));
    if DateLess(e, d) { NumbersAscend(e, d); }
    if DateLess(d, e) { NumbersAscend(d, e); }
  }

  lemma DayNumberIsNatural(d: Date)
    requires ValidDate(d)
    ensures DayNumber(d) >= 0
  {
    hide DaysBeforeMonth;
    YearOfDay(d, 1);
  }

  predicate DateLess(a: Date, b: Date) {
    a.year < b.year || (a.year == b.year && (a.month < b.month || (a.month == b.month && a.day < b.day)))
  }

  /** Later days have later dates. */
  lemma {:induction false} DatesAscend(m: nat, n: nat)
    requires m < n
    ensures DateLess(DateOf(m), DateOf(n))
    decreases n
  {
    if m < n - 1 { DatesAscend(m, n - 1); }
  }

  // ---- instants ----

  const NS_PER_S := 1_000_000_000
  const NS_PER_MS := 1_000_000

  /** Days from 1 January of year 1 to 1 January 1970. */
  const EPOCH_DAY := 719162

  function DayOf(ns: int): int { EPOCH_DAY + ns / NS_PER_S / 86400 }

  /** The milliseconds since 1970 that the text keeps. */
  function Millis(ns: int): int { ns / NS_PER_MS }

  /** A number printed with a fixed width, and the text that follows it. */
  datatype Field = Field(value: int, width: nat, separator: string)

  function Power10(w: nat): (p: nat)
    ensures p > 0
  {
    if w == 0 then 1 else 10 * Power10(w - 1)
  }

  function Digit(n: int): char
    requires 0 <= n <= 9
  {
    ('0' as int + n) as char
  }

  function Pad(n: int, w: nat): (s: string)
    ensures |s| == w
    decreases w
  {
    if w == 0 then "" else Pad(n / 10, w - 1) + [Digit(n % 10)]
  }

  function Printed(f: Field): string { Pad(f.value, f.width) + f.separator }

  function Render(fields: seq<Field>): string {
    if fields == [] then "" else Printed(fields[0]) + Render(fields[1..])
  }

  /** The library prints a year with as many digits as it has. */
  function YearWidth(year: int): nat {
    if year < 10 then 1 else if year < 100 then 2 else if year < 1000 then 3 else 4
  }

  function FieldsOf(ns: int): seq<Field>
    requires DayOf(ns) >= 0
  {
    var seconds := ns / NS_PER_S;
    var d, time := DateOf(DayOf(ns)), seconds % 86400;
    [ Field(d.year, YearWidth(d.year), "-"), Field(d.month, 2, "-"), Field(d.day, 2, " "),
      Field(time / 3600, 2, ":"), Field(time / 60 % 60, 2, ":"), Field(time % 60, 2, "."),
      Field(ns % NS_PER_S / NS_PER_MS, 3, "") ]
  }

  /** `ns_to_dt64` after the conversion to an integer. Years outside 1 to 9999 are an error of the library. */
  function NsToDt64(ns: int): Option<string> {
    if DayOf(ns) < 0 || DateOf(DayOf(ns)).year > 9999 then None else Some(Render(FieldsOf(ns)))
  }

  /** The instants that have a text, in closed form: from year 1 up to the end of year 9999. */
  lemma Representable(ns: int)
    ensures NsToDt64(ns).Some? <==> -62_135_596_800 * NS_PER_S <= ns < 253_402_300_800 * NS_PER_S
  {
    hide DateOf, FieldsOf, Render;
    assert DayOf(ns) >= 0 <==> -62_135_596_800 * NS_PER_S <= ns;
    assert DayOf(ns) < DaysBeforeYear(10000) <==> ns < 253_402_300_800 * NS_PER_S;
    if DayOf(ns) >= 0 { YearOfInstant(ns, 10000); }
  }

  lemma YearOfInstant(ns: int, year: int)
    requires DayOf(ns) >= 0 && year >= 1
    ensures DateOf(DayOf(ns)).year >= year <==> DayOf(ns) >= DaysBeforeYear(year)
  {
    hide DateOf, DaysBeforeYear, DayOf;
    DayNumberOfDate(DayOf(ns));
    YearOfDay(DateOf(DayOf(ns)), year);
  }

  lemma PadStep(n: int, w: nat)
    requires w > 0
    ensures Pad(n, w) == Pad(n / 10, w - 1) + [Digit(n % 10)]
  {
  }

  lemma PadTwo(n: int)
    ensures Pad(n, 2) == [Digit(n / 10 % 10), Digit(n % 10)]
  {
    PadStep(n, 2);
    PadStep(n / 10, 1);
  }

  lemma PadThree(n: int)
    ensures Pad(n, 3) == [Digit(n / 10 / 10 % 10), Digit(n / 10 % 10), Digit(n % 10)]
  {
    hide Pad;
    PadStep(n, 3);
    PadTwo(n / 10);
  }

  lemma PadFour(n: int)
    ensures Pad(n, 4) == [Digit(n / 10 / 10 / 10 % 10), Digit(n / 10 / 10 % 10), Digit(n / 10 % 10), Digit(n % 10)]
  {
    hide Pad;
    PadStep(n, 4);
    PadThree(n / 10);
  }

  /** The fields of the text of an instant on a known day. */
  lemma FieldsOn(ns: int, d: Date)
    requires ValidDate(d) && DayNumber(d) == DayOf(ns)
    ensures DayOf(ns) >= 0 && DateOf(DayOf(ns)) == d
    ensures d.year <= 9999 ==> NsToDt64(ns) == Some(Render(FieldsOf(ns)))
  {
    hide Render;
    DateOfDayNumber(d);
  }

  /** Counting starts at 1 January 1970. */
  lemma EpochText()
    ensures NsToDt64(0) == Some("1970-01-01 00:00:00.000")
  {
    hide DateOf, Render, Pad, Printed, DaysBeforeMonth;
    JanuaryFirst(1970);
    FieldsOn(0, Date(1970, 1, 1));
    assert FieldsOf(0) == StartOf(1970);
    StartOfYear();
  }

  /** The fields of the first instant of a year of four digits. */
  function StartOf(year: int): seq<Field> {
    [ Field(year, 4, "-"), Field(1, 2, "-"), Field(1, 2, " "),
      Field(0, 2, ":"), Field(0, 2, ":"), Field(0, 2, "."), Field(0, 3, "") ]
  }

  lemma StartOfYear()
    ensures Render(StartOf(1970)) == "1970-01-01 00:00:00.000"
    ensures Render(StartOf(1000)) == "1000-01-01 00:00:00.000"
  {
    hide Render, Pad, Digit;
    PadFour(1970);
    PadFour(1000);
    ZeroPadded();
    Digits();
    Joined();
    Assemble(StartOf(1970), "1970-", "01-", "01 ", "00:", "00:", "00.", "000");
    Assemble(StartOf(1000), "1000-", "01-", "01 ", "00:", "00:", "00.", "000");
  }

  lemma Joined()
    ensures "1970-" + "01-" + "01 " + "00:" + "00:" + "00." + "000" == "1970-01-01 00:00:00.000"
    ensures "1000-" + "01-" + "01 " + "00:" + "00:" + "00." + "000" == "1000-01-01 00:00:00.000"
    ensures "999-" + "12-" + "31 " + "23:" + "59:" + "59." + "000" == "999-12-31 23:59:59.000"
  {
  }

  lemma ZeroPadded()
    ensures Pad(0, 2) == "00" && Pad(0, 3) == "000" && Pad(1, 2) == "01"
  {
    hide Pad;
    PadTwo(0);
    PadTwo(1);
    PadThree(0);
  }

  lemma Digits()
    ensures Digit(0) == '0' && Digit(1) == '1' && Digit(2) == '2' && Digit(3) == '3' && Digit(5) == '5'
    ensures Digit(7) == '7' && Digit(9) == '9'
  {
  }

  lemma Assemble(f: seq<Field>, p0: string, p1: string, p2: string, p3: string, p4: string, p5: string, p6: string)
    requires |f| == 7
    requires Printed(f[0]) == p0 && Printed(f[1]) == p1 && Printed(f[2]) == p2 && Printed(f[3]) == p3
    requires Printed(f[4]) == p4 && Printed(f[5]) == p5 && Printed(f[6]) == p6
    ensures Render(f) == p0 + p1 + p2 + p3 + p4 + p5 + p6
  {
    hide Render, Printed;
    RenderSeven(f);
    assert p0 + p1 + p2 + p3 + p4 + p5 + p6 == p0 + (p1 + (p2 + (p3 + (p4 + (p5 + p6)))));
  }

  lemma JanuaryFirst(year: int)
    ensures DaysBeforeMonth(year, 1) == 0
  {
  }

  lemma RenderSeven(f: seq<Field>)
    requires |f| == 7
    ensures Render(f) == Printed(f[0]) + (Printed(f[1]) + (Printed(f[2]) + (Printed(f[3]) + (Printed(f[4]) +
      (Printed(f[5]) + Printed(f[6]))))))
  {
    hide Pad;
    assert f[6..] == [f[6]] && Render(f[6..]) == Printed(f[6]);
    assert Render(f[5..]) == Printed(f[5]) + Render(f[6..]) by { assert f[5..][1..] == f[6..]; }
    assert Render(f[4..]) == Printed(f[4]) + Render(f[5..]) by { assert f[4..][1..] == f[5..]; }
    assert Render(f[3..]) == Printed(f[3]) + Render(f[4..]) by { assert f[3..][1..] == f[4..]; }
    assert Render(f[2..]) == Printed(f[2]) + Render(f[3..]) by { assert f[2..][1..] == f[3..]; }
    assert Render(f[1..]) == Printed(f[1]) + Render(f[2..]) by { assert f[1..][1..] == f[2..]; }
  }

  // ---- the order of texts ----

  lemma {:induction false} LeqConcat(x: string, y: string, s: string, t: string)
    requires |x| == |y|
    ensures Leq(x + s, y + t) <==> if x == y then Leq(s, t) else Leq(x, y)
  {
    if x == [] {
      assert x + s == s && y + t == t;
    } else {
      assert (x + s)[1..] == x[1..] + s && (y + t)[1..] == y[1..] + t;
      assert x == [x[0]] + x[1..] && y == [y[0]] + y[1..];
      LeqConcat(x[1..], y[1..], s, t);
    }
  }

  /** Numbers of one width are ordered like their texts. */
  lemma {:induction false} PadOrder(a: int, b: int, w: nat)
    requires 0 <= a < Power10(w) && 0 <= b < Power10(w)
    ensures Leq(Pad(a, w), Pad(b, w)) <==> a <= b
    ensures Pad(a, w) == Pad(b, w) <==> a == b
  {
    if w > 0 {
      var pa, pb := Pad(a / 10, w - 1), Pad(b / 10, w - 1);
      var da, db := Digit(a % 10), Digit(b % 10);
      PadOrder(a / 10, b / 10, w - 1);
      LeqConcat(pa, pb, [da], [db]);
      assert (pa + [da])[..w - 1] == pa && (pb + [db])[..w - 1] == pb;
      assert (pa + [da])[w - 1] == da && (pb + [db])[w - 1] == db;
      assert Leq([da], [db]) <==> a % 10 <= b % 10;
    }
  }

  ghost predicate Fits(fields: seq<Field>) {
    forall f :: f in fields ==> 0 <= f.value < Power10(f.width)
  }

  ghost predicate SameLayout(a: seq<Field>, b: seq<Field>) {
    |a| == |b| && forall k :: 0 <= k < |a| ==> a[k].width == b[k].width && a[k].separator == b[k].separator
  }

  ghost predicate FieldsLeq(a: seq<Field>, b: seq<Field>)
    requires |a| == |b|
  {
    a == [] || a[0].value < b[0].value || (a[0].value == b[0].value && FieldsLeq(a[1..], b[1..]))
  }

  /** Texts of one layout are ordered like the values of their fields, the first field first. */
  lemma {:induction false} RenderOrder(a: seq<Field>, b: seq<Field>)
    requires SameLayout(a, b) && Fits(a) && Fits(b)
    ensures Leq(Render(a), Render(b)) <==> FieldsLeq(a, b)
  {
    if a != [] {
      var pa, pb := Pad(a[0].value, a[0].width), Pad(b[0].value, b[0].width);
      assert a[0] in a && b[0] in b;
      PadOrder(a[0].value, b[0].value, a[0].width);
      var sep := a[0].separator;
      LeqConcat(pa, pb, sep + Render(a[1..]), sep + Render(b[1..]));
      assert pa + sep + Render(a[1..]) == pa + (sep + Render(a[1..]));
      assert pb + sep + Render(b[1..]) == pb + (sep + Render(b[1..]));
      LeqConcat(sep, sep, Render(a[1..]), Render(b[1..]));
      RenderOrder(a[1..], b[1..]);
    }
  }

  lemma FieldsFit(ns: int)
    requires NsToDt64(ns).Some?
    ensures Fits(FieldsOf(ns))
  {
    assert Power10(2) == 100 && Power10(3) == 1000 && Power10(4) == 10000;
  }

  lemma SevenFields(a: seq<Field>, b: seq<Field>)
    requires |a| == |b| == 7
    ensures FieldsLeq(a, b) <==>
      a[0].value < b[0].value || (a[0].value == b[0].value && (
      a[1].value < b[1].value || (a[1].value == b[1].value && (
      a[2].value < b[2].value || (a[2].value == b[2].value && (
      a[3].value < b[3].value || (a[3].value == b[3].value && (
      a[4].value < b[4].value || (a[4].value == b[4].value && (
      a[5].value < b[5].value || (a[5].value == b[5].value &&
      a[6].value <= b[6].value)))))))))))
  {
    var a1, b1 := a[1..], b[1..];
    var a2, b2 := a1[1..], b1[1..];
    var a3, b3 := a2[1..], b2[1..];
    var a4, b4 := a3[1..], b3[1..];
    var a5, b5 := a4[1..], b4[1..];
    var a6, b6 := a5[1..], b5[1..];
    assert FieldsLeq(a6, b6) <==> a[6].value <= b[6].value;
    assert FieldsLeq(a5, b5) <==> a[5].value < b[5].value || (a[5].value == b[5].value && FieldsLeq(a6, b6));
    assert FieldsLeq(a4, b4) <==> a[4].value < b[4].value || (a[4].value == b[4].value && FieldsLeq(a5, b5));
    assert FieldsLeq(a3, b3) <==> a[3].value < b[3].value || (a[3].value == b[3].value && FieldsLeq(a4, b4));
    assert FieldsLeq(a2, b2) <==> a[2].value < b[2].value || (a[2].value == b[2].value && FieldsLeq(a3, b3));
    assert FieldsLeq(a1, b1) <==> a[1].value < b[1].value || (a[1].value == b[1].value && FieldsLeq(a2, b2));
  }

  /** Hour, minute and second order the seconds of a day. */
  lemma TimeOrder(x: int, y: int)
    requires 0 <= x && 0 <= y
    ensures x < y <==>
      x / 3600 < y / 3600 || (x / 3600 == y / 3600 && (
      x / 60 % 60 < y / 60 % 60 || (x / 60 % 60 == y / 60 % 60 && x % 60 < y % 60)))
  {
    assert x == 3600 * (x / 3600) + 60 * (x / 60 % 60) + x % 60 by { assert x / 60 / 60 == x / 3600; }
    assert y == 3600 * (y / 3600) + 60 * (y / 60 % 60) + y % 60 by { assert y / 60 / 60 == y / 3600; }
  }

  /** Day, second of the day and millisecond order the instants. */
  lemma MillisOrder(a: int, b: int)
    ensures Millis(a) <= Millis(b) <==>
      DayOf(a) < DayOf(b) || (DayOf(a) == DayOf(b) && (
      var x, y := a / NS_PER_S % 86400, b / NS_PER_S % 86400;
      x < y || (x == y && a % NS_PER_S / NS_PER_MS <= b % NS_PER_S / NS_PER_MS)))
  {
    MillisParts(a);
    MillisParts(b);
  }

  lemma MillisParts(a: int)
    ensures Millis(a) == (a / NS_PER_S / 86400) * 86_400_000 + (a / NS_PER_S % 86400) * 1000 + a % NS_PER_S / NS_PER_MS
    ensures 0 <= a / NS_PER_S % 86400 < 86400 && 0 <= a % NS_PER_S / NS_PER_MS < 1000
  {
  }

  function YearOf(ns: int): int
    requires DayOf(ns) >= 0
  {
    DateOf(DayOf(ns)).year
  }

  /** The years of two instants have the same number of digits. */
  predicate SameYearWidth(a: int, b: int)
    requires DayOf(a) >= 0 && DayOf(b) >= 0
  {
    YearWidth(YearOf(a)) == YearWidth(YearOf(b))
  }

  /** The texts of two instants compare as their milliseconds do. */
  predicate OrderKept(a: int, b: int)
    requires NsToDt64(a).Some? && NsToDt64(b).Some?
  {
    Leq(NsToDt64(a).value, NsToDt64(b).value) <==> Millis(a) <= Millis(b)
  }

  /** With years of the same number of digits, texts compare as milliseconds do. */
  lemma TextLeq(a: int, b: int)
    requires NsToDt64(a).Some? && NsToDt64(b).Some? && SameYearWidth(a, b)
    ensures OrderKept(a, b)
  {
    hide Render, Fits, FieldsLeq, DateOf, FieldsOf;
    FieldsFit(a);
    FieldsFit(b);
    SameFields(a, b);
    RenderOrder(FieldsOf(a), FieldsOf(b));
    FieldsOrder(a, b);
  }

  lemma SameFields(a: int, b: int)
    requires DayOf(a) >= 0 && DayOf(b) >= 0 && SameYearWidth(a, b)
    ensures SameLayout(FieldsOf(a), FieldsOf(b))
  {
  }

  lemma TextLength(ns: int)
    requires NsToDt64(ns).Some?
    ensures |NsToDt64(ns).value| == YearWidth(YearOf(ns)) + 19
  {
    hide Render, DateOf;
    RenderSeven(FieldsOf(ns));
  }

  /** Texts are the same iff the milliseconds are, for all instants that have one. */
  lemma TextsEqualIff(a: int, b: int)
    requires NsToDt64(a).Some? && NsToDt64(b).Some?
    ensures NsToDt64(a) == NsToDt64(b) <==> Millis(a) == Millis(b)
  {
    hide Render, DateOf, FieldsOf;
    TextLength(a);
    TextLength(b);
    if Millis(a) == Millis(b) { SameDay(a, b); }
    if SameYearWidth(a, b) {
      TextLeq(a, b);
      TextLeq(b, a);
      if NsToDt64(a) == NsToDt64(b) {
        LeqReflexive(NsToDt64(a).value);
      } else if Millis(a) == Millis(b) {
        LeqAntisymmetric(NsToDt64(a).value, NsToDt64(b).value);
      }
    }
  }

  lemma SameDay(a: int, b: int)
    requires Millis(a) == Millis(b)
    ensures DayOf(a) == DayOf(b)
  {
    MillisParts(a);
    MillisParts(b);
  }

  // ---- the first year of four digits ----

  /** 1 January 1000. */
  const YEAR_1000 := -30_610_224_000 * NS_PER_S

  lemma FourDigits(ns: int)
    requires DayOf(ns) >= 0
    ensures ns >= YEAR_1000 <==> YearOf(ns) >= 1000
  {
    hide DateOf;
    YearOfInstant(ns, 1000);
  }

  /**
   From the year 1000 on, the texts of all instants compare as the milliseconds do. So texts are
   equal iff the milliseconds are, and a minimum or maximum over texts is one over instants.
   */
  lemma TextOrder(a: int, b: int)
    requires NsToDt64(a).Some? && NsToDt64(b).Some? && YEAR_1000 <= a && YEAR_1000 <= b
    ensures OrderKept(a, b)
    ensures NsToDt64(a) == NsToDt64(b) <==> Millis(a) == Millis(b)
  {
    hide DateOf, OrderKept;
    FourDigits(a);
    FourDigits(b);
    TextLeq(a, b);
    TextsEqualIff(a, b);
  }

  /** At the turn of that year the text gets longer, and sorts before that of the day before. */
  lemma TurnOfTheYear(a: int, b: int)
    requires YEAR_1000 - 86400 * NS_PER_S <= a < YEAR_1000 <= b < YEAR_1000 + 86400 * NS_PER_S
    ensures NsToDt64(a).Some? && NsToDt64(b).Some?
    ensures !Leq(NsToDt64(a).value, NsToDt64(b).value) && Leq(NsToDt64(b).value, NsToDt64(a).value)
  {
    hide DateOf, Render, Pad, DaysBeforeMonth, FieldsOf, Leq;
    JanuaryFirst(1000);
    December(999);
    FieldsOn(a, Date(999, 12, 31));
    FieldsOn(b, Date(1000, 1, 1));
    FirstDigit(a);
    FirstDigit(b);
    PadThree(999);
    PadFour(1000);
    DifferentStart(NsToDt64(a).value, NsToDt64(b).value);
  }

  lemma FirstDigit(ns: int)
    requires NsToDt64(ns).Some?
    ensures |NsToDt64(ns).value| > 0
    ensures NsToDt64(ns).value[0] == Pad(YearOf(ns), YearWidth(YearOf(ns)))[0]
  {
    hide DateOf, Render, Pad;
    RenderSeven(FieldsOf(ns));
  }

  lemma DifferentStart(s: string, t: string)
    requires s != "" && t != "" && t[0] < s[0]
    ensures !Leq(s, t) && Leq(t, s)
  {
  }

  /** For example, a second apart. */
  lemma SecondsApart()
    ensures NsToDt64(-30_610_224_001 * NS_PER_S) == Some("999-12-31 23:59:59.000")
    ensures NsToDt64(-30_610_224_000 * NS_PER_S) == Some("1000-01-01 00:00:00.000")
  {
    LastSecond();
    FirstSecond();
  }

  /** The fields of the last second of the year 999. */
  const LAST_SECOND := [
    Field(999, 3, "-"), Field(12, 2, "-"), Field(31, 2, " "),
    Field(23, 2, ":"), Field(59, 2, ":"), Field(59, 2, "."), Field(0, 3, "") ]

  lemma LastSecond()
    ensures NsToDt64(-30_610_224_001 * NS_PER_S) == Some("999-12-31 23:59:59.000")
  {
    hide DateOf, Render, Pad, Printed, DaysBeforeMonth;
    December(999);
    FieldsOn(-30_610_224_001 * NS_PER_S, Date(999, 12, 31));
    assert FieldsOf(-30_610_224_001 * NS_PER_S) == LAST_SECOND;
    LastSecondText();
  }

  lemma LastSecondText()
    ensures Render(LAST_SECOND) == "999-12-31 23:59:59.000"
  {
    hide Render, Pad, Digit;
    PadThree(999);
    PadTwo(12);
    PadTwo(31);
    PadTwo(23);
    PadTwo(59);
    ZeroPadded();
    Digits();
    Joined();
    Assemble(LAST_SECOND, "999-", "12-", "31 ", "23:", "59:", "59.", "000");
  }

  lemma FirstSecond()
    ensures NsToDt64(-30_610_224_000 * NS_PER_S) == Some("1000-01-01 00:00:00.000")
  {
    hide DateOf, Render, Pad, Printed, DaysBeforeMonth;
    JanuaryFirst(1000);
    FieldsOn(-30_610_224_000 * NS_PER_S, Date(1000, 1, 1));
    assert FieldsOf(-30_610_224_000 * NS_PER_S) == StartOf(1000);
    StartOfYear();
  }

  ghost predicate OrderKeptFrom(start: int) {
    forall a, b :: start <= a && start <= b && NsToDt64(a).Some? && NsToDt64(b).Some? ==> OrderKept(a, b)
  }

  /** The exact condition: the order of all instants from `start` on is kept iff `start` is not before the year 1000. */
  lemma OrderKeptIff(start: int)
    ensures OrderKeptFrom(start) <==> start >= YEAR_1000
  {
    hide NsToDt64, Leq;
    if start >= YEAR_1000 {
      forall a, b | start <= a && start <= b && NsToDt64(a).Some? && NsToDt64(b).Some? ensures OrderKept(a, b) {
        TextOrder(a, b);
      }
    } else {
      var a, b := YEAR_1000 - 1, YEAR_1000;
      TurnOfTheYear(a, b);
      assert !OrderKept(a, b);
    }
  }

  lemma FieldsOrder(a: int, b: int)
    requires DayOf(a) >= 0 && DayOf(b) >= 0
    ensures |FieldsOf(a)| == |FieldsOf(b)| && (FieldsLeq(FieldsOf(a), FieldsOf(b)) <==> Millis(a) <= Millis(b))
  {
    hide FieldsLeq, DateOf, DayOf, Millis;
    var x, y := a / NS_PER_S % 86400, b / NS_PER_S % 86400;
    SevenFields(FieldsOf(a), FieldsOf(b));
    MillisOrder(a, b);
    DateOrder(DayOf(a), DayOf(b));
    OrderedTime(x, y, FieldsOf(a)[3..6], FieldsOf(b)[3..6]);
  }

  lemma DateOrder(m: nat, n: nat)
    ensures m < n <==> DateLess(DateOf(m), DateOf(n))
    ensures m == n <==> DateOf(m) == DateOf(n)
  {
    if m < n { DatesAscend(m, n); }
    if n < m { DatesAscend(n, m); }
  }

  lemma OrderedTime(x: int, y: int, a: seq<Field>, b: seq<Field>)
    requires 0 <= x && 0 <= y && |a| == |b| == 3
    requires a[0].value == x / 3600 && a[1].value == x / 60 % 60 && a[2].value == x % 60
    requires b[0].value == y / 3600 && b[1].value == y / 60 % 60 && b[2].value == y % 60
    ensures x == y <==> a[0].value == b[0].value && a[1].value == b[1].value && a[2].value == b[2].value
    ensures x < y <==>
      a[0].value < b[0].value || (a[0].value == b[0].value && (
      a[1].value < b[1].value || (a[1].value == b[1].value && a[2].value < b[2].value)))
  {
    TimeOrder(x, y);
    TimeOrder(y, x);
  }
}
