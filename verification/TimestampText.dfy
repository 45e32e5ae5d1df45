/**
 The text of every instant, written out: from the year, the month, the day and the time of day, with
 the calendar as a table.
 */
module TimestampText {
  import opened Options
  import opened Text
  import opened Timestamps

  /** How many days of a common year come before each month. */
  const BEFORE: seq<int> := [0, 31, 59, 90, 120, 151, 181, 212, 243, 273, 304, 334]

  const LENGTHS: seq<int> := [31, 28, 31, 30, 31, 30, 31, 31, 30, 31, 30, 31]

  ghost predicate Leap(y: int) { (y % 4 == 0 && y % 100 != 0) || y % 400 == 0 }

  ghost predicate InCalendar(y: int, mo: int, d: int) {
    && 1 <= y <= 9999 && 1 <= mo <= 12
    && 1 <= d <= LENGTHS[mo - 1] + if mo == 2 && Leap(y) then 1 else 0
  }

  /** The days from 1 January 1970 on. */
  ghost function Days(y: int, mo: int, d: int): int
    requires 1 <= mo <= 12
  {
    365 * (y - 1970) + (y - 1) / 4 - (y - 1) / 100 + (y - 1) / 400 - 477
      + BEFORE[mo - 1] + (if mo > 2 && Leap(y) then 1 else 0) + d - 1
  }

  ghost predicate InDay(h: int, mi: int, s: int, ms: int, rest: int) {
    0 <= h < 24 && 0 <= mi < 60 && 0 <= s < 60 && 0 <= ms < 1000 && 0 <= rest < 1_000_000
  }

  ghost function Instant(y: int, mo: int, d: int, h: int, mi: int, s: int, ms: int, rest: int): int
    requires 1 <= mo <= 12
  {
    ((((Days(y, mo, d) * 24 + h) * 60 + mi) * 60 + s) * 1000 + ms) * 1_000_000 + rest
  }

  /** The number that decimal digits stand for. */
  ghost function ValueOf(digits: string): int {
    if digits == "" then 0 else 10 * ValueOf(digits[..|digits| - 1]) + (digits[|digits| - 1] as int - '0' as int)
  }

  ghost predicate IsNumeral(digits: string, n: int, width: nat) {
    |digits| == width && (forall c :: c in digits ==> '0' <= c <= '9') && ValueOf(digits) == n
  }

  lemma {:induction false} PadIsNumeral(n: int, w: nat)
    requires 0 <= n < Power10(w)
    ensures IsNumeral(Pad(n, w), n, w)
    decreases w
  {
    if w > 0 {
      PadIsNumeral(n / 10, w - 1);
      var front, last := Pad(n / 10, w - 1), Digit(n % 10);
      assert (front + [last])[..w - 1] == front;
    }
  }

  lemma MonthLength(y: int, mo: int)
    requires 1 <= mo <= 12
    ensures DaysInMonth(y, mo) == LENGTHS[mo - 1] + if mo == 2 && Leap(y) then 1 else 0
  {
  }

  lemma TableAdvances(mo: int)
    requires 1 < mo <= 12
    ensures BEFORE[mo - 1] == BEFORE[mo - 2] + LENGTHS[mo - 2]
  {
  }

  lemma {:induction false} BeforeMonths(y: int, mo: int)
    requires 1 <= mo <= 12
    ensures DaysBeforeMonth(y, mo) == BEFORE[mo - 1] + if mo > 2 && Leap(y) then 1 else 0
    decreases mo
  {
    hide DaysInMonth, Leap;
    if mo > 1 {
      BeforeMonths(y, mo - 1);
      MonthLength(y, mo - 1);
      TableAdvances(mo);
    }
  }

  lemma DateNumber(y: int, mo: int, d: int)
    requires InCalendar(y, mo, d)
    ensures ValidDate(Date(y, mo, d)) && DayNumber(Date(y, mo, d)) == Days(y, mo, d) + 719162
  {
    hide DaysBeforeMonth;
    BeforeMonths(y, mo);
    MonthLength(y, mo);
  }

  lemma TimeOfDay(days: int, h: int, mi: int, s: int, ms: int, rest: int)
    requires InDay(h, mi, s, ms, rest)
    ensures var ns := ((((days * 24 + h) * 60 + mi) * 60 + s) * 1000 + ms) * 1_000_000 + rest;
      var seconds := ns / 1_000_000_000;
      && seconds / 86400 == days
      && seconds % 86400 / 3600 == h && seconds % 86400 / 60 % 60 == mi && seconds % 86400 % 60 == s
      && ns % 1_000_000_000 / 1_000_000 == ms
  {
    var seconds := ((days * 24 + h) * 60 + mi) * 60 + s;
    BelowTheSecond(seconds, ms, rest);
    WholeDays(days, (h * 60 + mi) * 60 + s);
    HoursAndMinutes(h, mi, s);
  }

  lemma BelowTheSecond(seconds: int, ms: int, rest: int)
    requires 0 <= ms < 1000 && 0 <= rest < 1_000_000
    ensures var ns := (seconds * 1000 + ms) * 1_000_000 + rest;
      ns / 1_000_000_000 == seconds && ns % 1_000_000_000 / 1_000_000 == ms
  {
    assert (seconds * 1000 + ms) * 1_000_000 + rest == seconds * 1_000_000_000 + (ms * 1_000_000 + rest);
  }

  lemma WholeDays(days: int, time: int)
    requires 0 <= time < 86400
    ensures (days * 86400 + time) / 86400 == days && (days * 86400 + time) % 86400 == time
  {
  }

  lemma HoursAndMinutes(h: int, mi: int, s: int)
    requires 0 <= mi < 60 && 0 <= s < 60
    ensures var time := (h * 60 + mi) * 60 + s; time / 3600 == h && time / 60 % 60 == mi && time % 60 == s
  {
  }

  /**
   The text of an instant: year, month, day, hour, minute, second and millisecond, all but the year
   with leading zeros; what is below the millisecond is cut off.
   */
  lemma InstantText(y: int, mo: int, d: int, h: int, mi: int, s: int, ms: int, rest: int)
      returns (ty: string, tmo: string, td: string, th: string, tmi: string, ts: string, tms: string)
    requires InCalendar(y, mo, d) && InDay(h, mi, s, ms, rest)
    ensures NsToDt64(Instant(y, mo, d, h, mi, s, ms, rest)) ==
      Some(ty + "-" + tmo + "-" + td + " " + th + ":" + tmi + ":" + ts + "." + tms)
    ensures IsNumeral(ty, y, if y < 10 then 1 else if y < 100 then 2 else if y < 1000 then 3 else 4)
    ensures IsNumeral(tmo, mo, 2) && IsNumeral(td, d, 2)
    ensures IsNumeral(th, h, 2) && IsNumeral(tmi, mi, 2) && IsNumeral(ts, s, 2) && IsNumeral(tms, ms, 3)
  {
    hide DateOf, Pad, IsNumeral, Render, DayNumber, ValidDate;
    var ns := Instant(y, mo, d, h, mi, s, ms, rest);
    var f := FieldsAre(y, mo, d, h, mi, s, ms, rest);
    ty, tmo, td := Pad(y, YearWidth(y)), Pad(mo, 2), Pad(d, 2);
    th, tmi, ts, tms := Pad(h, 2), Pad(mi, 2), Pad(s, 2), Pad(ms, 3);
    Assemble(f, ty + "-", tmo + "-", td + " ", th + ":", tmi + ":", ts + ".", tms + "");
    PowersOfTen();
    PadIsNumeral(y, YearWidth(y));
    PadIsNumeral(mo, 2);
    PadIsNumeral(d, 2);
    PadIsNumeral(h, 2);
    PadIsNumeral(mi, 2);
    PadIsNumeral(s, 2);
    PadIsNumeral(ms, 3);
    Grouped(ty, tmo, td, th, tmi, ts, tms);
  }

  lemma Grouped(a: string, b: string, c: string, d: string, e: string, f: string, g: string)
    ensures (a + "-") + (b + "-") + (c + " ") + (d + ":") + (e + ":") + (f + ".") + (g + "") ==
      a + "-" + b + "-" + c + " " + d + ":" + e + ":" + f + "." + g
  {
  }

  lemma PowersOfTen()
    ensures Power10(1) == 10 && Power10(2) == 100 && Power10(3) == 1000 && Power10(4) == 10000
  {
  }

  lemma FieldsAre(y: int, mo: int, d: int, h: int, mi: int, s: int, ms: int, rest: int) returns (f: seq<Field>)
    requires InCalendar(y, mo, d) && InDay(h, mi, s, ms, rest)
    ensures f == [
      Field(y, YearWidth(y), "-"), Field(mo, 2, "-"), Field(d, 2, " "),
      Field(h, 2, ":"), Field(mi, 2, ":"), Field(s, 2, "."), Field(ms, 3, "")]
    ensures NsToDt64(Instant(y, mo, d, h, mi, s, ms, rest)) == Some(Render(f))
  {
    hide DateOf, Render, DayNumber, ValidDate;
    var ns := Instant(y, mo, d, h, mi, s, ms, rest);
    DateNumber(y, mo, d);
    TimeOfDay(Days(y, mo, d), h, mi, s, ms, rest);
    FieldsOn(ns, Date(y, mo, d));
    f := FieldsOf(ns);
  }

  /** And every instant that has a text is one of these. */
  lemma EveryInstant(ns: int)
      returns (y: int, mo: int, d: int, h: int, mi: int, s: int, ms: int, rest: int)
    requires NsToDt64(ns).Some?
    ensures InCalendar(y, mo, d) && InDay(h, mi, s, ms, rest) && ns == Instant(y, mo, d, h, mi, s, ms, rest)
  {
    hide DateOf, Render, DayNumber, DayOf, Days, FieldsOf;
    var date := DateOf(DayOf(ns));
    y, mo, d := date.year, date.month, date.day;
    DayNumberOfDate(DayOf(ns));
    MonthLength(y, mo);
    DateNumber(y, mo, d);
    h, mi, s, ms, rest := TimeParts(ns, Days(y, mo, d));
  }

  lemma TimeParts(ns: int, days: int) returns (h: int, mi: int, s: int, ms: int, rest: int)
    requires DayOf(ns) == days + 719162
    ensures InDay(h, mi, s, ms, rest)
    ensures ns == ((((days * 24 + h) * 60 + mi) * 60 + s) * 1000 + ms) * 1_000_000 + rest
  {
    var seconds, below := ns / 1_000_000_000, ns % 1_000_000_000;
    var time := seconds % 86400;
    h, mi, s := time / 3600, time / 60 % 60, time % 60;
    ms, rest := below / 1_000_000, below % 1_000_000;
    SplitTime(time);
    assert seconds == days * 86400 + time;
    assert ns == seconds * 1_000_000_000 + below;
    assert below == ms * 1_000_000 + rest;
  }

  lemma SplitTime(time: int)
    requires 0 <= time < 86400
    ensures 0 <= time / 3600 < 24 && time == (time / 3600 * 60 + time / 60 % 60) * 60 + time % 60
  {
  }
}
