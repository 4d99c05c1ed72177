/** Go's RFC 3339 time stamps in a fixed zone: the calendar, the text, and that the text can be read back. */
module Stamps {
  import opened Division
  import opened Lex
  import opened Options

  // ---------- the calendar ----------

  predicate Leap(year: nat) {
    year % 4 == 0 && (year % 100 != 0 || year % 400 == 0)
  }

  function MonthDays(year: nat, month: nat): (days: nat)
    ensures 28 <= days <= 31
  {
    if month == 2 then (if Leap(year) then 29 else 28)
    else if month == 4 || month == 6 || month == 9 || month == 11 then 30
    else 31
  }

  /** The days of a year before the end of the given month. */
  function DaysTo(year: nat, month: nat): nat {
    if month == 0 then 0 else DaysTo(year, month - 1) + MonthDays(year, month)
  }

  function YearLength(year: nat): (days: nat)
    ensures days >= 365
  {
    if Leap(year) then 366 else 365
  }

  /** The days before a year, counted from the year zero. */
  function DaysBefore(year: nat): nat {
    if year == 0 then 0 else DaysBefore(year - 1) + YearLength(year - 1)
  }

  /** A year is as long as its months. */
  lemma YearDays(year: nat)
    ensures DaysTo(year, 12) == YearLength(year)
  {
    var leap := if Leap(year) then 1 else 0;
    assert DaysTo(year, 0) == 0;
    assert DaysTo(year, 2) == 59 + leap;
    assert DaysTo(year, 4) == 120 + leap;
    assert DaysTo(year, 6) == 181 + leap;
    assert DaysTo(year, 8) == 243 + leap;
    assert DaysTo(year, 10) == 304 + leap;
  }

  lemma {:induction false} AtLeast365(year: nat)
    ensures DaysBefore(year) >= 365 * year
  {
    if year > 0 { AtLeast365(year - 1); }
  }

  datatype Date = Date(year: nat, month: nat, day: nat)

  predicate ValidDate(d: Date) {
    1 <= d.month <= 12 && 1 <= d.day <= MonthDays(d.year, d.month)
  }

  function DaysOf(d: Date): nat
    requires ValidDate(d)
  {
    DaysBefore(d.year) + DaysTo(d.year, d.month - 1) + (d.day - 1)
  }

  lemma {:induction false} DaysToMonotone(year: nat, a: nat, b: nat)
    requires a <= b
    ensures DaysTo(year, a) <= DaysTo(year, b)
    decreases b
  {
    if a < b { DaysToMonotone(year, a, b - 1); }
  }

  lemma {:induction false} DaysBeforeMonotone(a: nat, b: nat)
    requires a <= b
    ensures DaysBefore(a) <= DaysBefore(b)
    decreases b
  {
    if a < b { DaysBeforeMonotone(a, b - 1); }
  }

  /** A date lies inside its month. */
  lemma DateInMonth(d: Date)
    requires ValidDate(d)
    ensures DaysTo(d.year, d.month - 1) <= DaysOf(d) - DaysBefore(d.year) < DaysTo(d.year, d.month)
  {
  }

  /** A date lies inside its year. */
  lemma DateInYear(d: Date)
    requires ValidDate(d)
    ensures DaysBefore(d.year) <= DaysOf(d) < DaysBefore(d.year + 1)
  {
    DateInMonth(d);
    DaysToMonotone(d.year, d.month, 12);
    YearDays(d.year);
  }

  lemma SameYear(a: Date, b: Date)
    requires ValidDate(a) && ValidDate(b) && DaysOf(a) == DaysOf(b)
    ensures a.year == b.year
  {
    DateInYear(a);
    DateInYear(b);
    if a.year < b.year { DaysBeforeMonotone(a.year + 1, b.year); }
    if b.year < a.year { DaysBeforeMonotone(b.year + 1, a.year); }
  }

  lemma SameMonth(year: nat, a: nat, b: nat, day: nat)
    requires a >= 1 && b >= 1
    requires DaysTo(year, a - 1) <= day < DaysTo(year, a) && DaysTo(year, b - 1) <= day < DaysTo(year, b)
    ensures a == b
  {
    if a < b { DaysToMonotone(year, a, b - 1); }
    if b < a { DaysToMonotone(year, b, a - 1); }
  }

  lemma SameMonthOf(a: Date, b: Date, day: nat)
    requires ValidDate(a) && ValidDate(b) && a.year == b.year
    requires day + DaysBefore(a.year) == DaysOf(a) && day + DaysBefore(b.year) == DaysOf(b)
    ensures a.month == b.month
  {
    DateInMonth(a);
    DateInMonth(b);
    SameMonth(a.year, a.month, b.month, day);
  }

  /** Different dates are different days. */
  lemma DaysOfInjective(a: Date, b: Date)
    requires ValidDate(a) && ValidDate(b) && DaysOf(a) == DaysOf(b)
    ensures a == b
  {
    SameYear(a, b);
    SameMonthOf(a, b, DaysTo(a.year, a.month - 1) + (a.day - 1));
  }

  /** The date `rest` days into the year, from the given month on. */
  function FindMonth(rest: nat, year: nat, month: nat): (d: Date)
    requires 1 <= month <= 12 && DaysTo(year, month - 1) + rest < DaysTo(year, 12)
    ensures ValidDate(d) && DaysOf(d) == DaysBefore(year) + DaysTo(year, month - 1) + rest
    decreases 12 - month
  {
    if rest < MonthDays(year, month) then Date(year, month, rest + 1)
    else FindMonth(rest - MonthDays(year, month), year, month + 1)
  }

  /** The date `rest` days after the start of a year. */
  function FindYear(rest: nat, year: nat): (d: Date)
    ensures ValidDate(d) && DaysOf(d) == DaysBefore(year) + rest
    decreases rest
  {
    YearDays(year);
    if rest < YearLength(year) then FindMonth(rest, year, 1) else FindYear(rest - YearLength(year), year + 1)
  }

  // ---------- the text ----------

  /** A local time of day on a date with a year of four digits. */
  datatype Time = Time(date: Date, hour: nat, minute: nat, second: nat)

  predicate ValidTime(t: Time) {
    ValidDate(t.date) && t.date.year < 10000 && t.hour < 24 && t.minute < 60 && t.second < 60
  }

  /** A zone is an offset from UTC in minutes. */
  type Zone = z: int | -1440 < z < 1440

  /** The digits of a number below a hundred. */
  function Tens(n: nat): (c: char)
    requires n < 100
    ensures IsDigit(c)
  {
    Digit(n / 10)
  }

  function Ones(n: nat): (c: char)
    ensures IsDigit(c)
  {
    Digit(n % 10)
  }

  lemma TwoDigits(a: nat, b: nat)
    requires a < 100 && b < 100 && Tens(a) == Tens(b) && Ones(a) == Ones(b)
    ensures a == b
  {
    assert a / 10 == b / 10 && a % 10 == b % 10;
  }

  /** `Z` for UTC, else sign, hours and minutes. */
  function Suffix(zone: Zone): (s: string)
    ensures zone == 0 ==> s == "Z"
    ensures zone != 0 ==> |s| == 6 && s[0] == (if zone < 0 then '-' else '+') && IsDigit(s[5])
  {
    var n := if zone < 0 then -zone else zone;
    if zone == 0 then "Z"
    else [if zone < 0 then '-' else '+', Tens(n / 60), Ones(n / 60), ':', Tens(n % 60), Ones(n % 60)]
  }

  lemma SuffixInjective(a: Zone, b: Zone)
    requires Suffix(a) == Suffix(b)
    ensures a == b
  {
    if a != 0 && b != 0 {
      var m, n := if a < 0 then -a else a, if b < 0 then -b else b;
      assert Suffix(a)[0] == Suffix(b)[0];
      assert Suffix(a)[1] == Suffix(b)[1] && Suffix(a)[2] == Suffix(b)[2];
      assert Suffix(a)[4] == Suffix(b)[4] && Suffix(a)[5] == Suffix(b)[5];
      TwoDigits(m / 60, n / 60);
      TwoDigits(m % 60, n % 60);
      assert m == 60 * (m / 60) + m % 60 && n == 60 * (n / 60) + n % 60;
    }
  }

  function DateText(d: Date): (s: string)
    requires d.year < 10000 && d.month < 100 && d.day < 100
    ensures |s| == 10
  {
    [Tens(d.year / 100), Ones(d.year / 100), Tens(d.year % 100), Ones(d.year % 100), '-',
     Tens(d.month), Ones(d.month), '-', Tens(d.day), Ones(d.day)]
  }

  function TimeText(t: Time): (s: string)
    requires t.hour < 100 && t.minute < 100 && t.second < 100
    ensures |s| == 8
  {
    [Tens(t.hour), Ones(t.hour), ':', Tens(t.minute), Ones(t.minute), ':', Tens(t.second), Ones(t.second)]
  }

  lemma DateTextInjective(a: Date, b: Date)
    requires a.year < 10000 && a.month < 100 && a.day < 100 && b.year < 10000 && b.month < 100 && b.day < 100
    requires DateText(a) == DateText(b)
    ensures a == b
  {
    var s, r := DateText(a), DateText(b);
    assert s[0] == r[0] && s[1] == r[1] && s[2] == r[2] && s[3] == r[3];
    assert s[5] == r[5] && s[6] == r[6] && s[8] == r[8] && s[9] == r[9];
    TwoDigits(a.year / 100, b.year / 100);
    TwoDigits(a.year % 100, b.year % 100);
    assert a.year == 100 * (a.year / 100) + a.year % 100 && b.year == 100 * (b.year / 100) + b.year % 100;
    TwoDigits(a.month, b.month);
    TwoDigits(a.day, b.day);
  }

  lemma TimeTextInjective(a: Time, b: Time)
    requires a.hour < 100 && a.minute < 100 && a.second < 100 && b.hour < 100 && b.minute < 100 && b.second < 100
    requires TimeText(a) == TimeText(b)
    ensures a.hour == b.hour && a.minute == b.minute && a.second == b.second
  {
    var s, r := TimeText(a), TimeText(b);
    assert s[0] == r[0] && s[1] == r[1] && s[3] == r[3] && s[4] == r[4] && s[6] == r[6] && s[7] == r[7];
    TwoDigits(a.hour, b.hour);
    TwoDigits(a.minute, b.minute);
    TwoDigits(a.second, b.second);
  }

  /** The nineteen characters of date and time. */
  function Clock(t: Time): (s: string)
    requires ValidTime(t)
    ensures |s| == 19
  {
    DateText(t.date) + "T" + TimeText(t)
  }

  lemma ClockInjective(t: Time, u: Time)
    requires ValidTime(t) && ValidTime(u) && Clock(t) == Clock(u)
    ensures t == u
  {
    assert Clock(t)[..10] == DateText(t.date) && Clock(u)[..10] == DateText(u.date);
    assert Clock(t)[11..] == TimeText(t) && Clock(u)[11..] == TimeText(u);
    DateTextInjective(t.date, u.date);
    TimeTextInjective(t, u);
  }

  /** `Format(time.RFC3339)`. */
  function Text(t: Time, zone: Zone): (s: string)
    requires ValidTime(t)
    ensures |s| == 19 + |Suffix(zone)|
  {
    Clock(t) + Suffix(zone)
  }

  lemma TextInjective(t: Time, z: Zone, u: Time, y: Zone)
    requires ValidTime(t) && ValidTime(u) && Text(t, z) == Text(u, y)
    ensures t == u && z == y
  {
    assert Text(t, z)[..19] == Clock(t) && Text(u, y)[..19] == Clock(u);
    assert Text(t, z)[19..] == Suffix(z) && Text(u, y)[19..] == Suffix(y);
    ClockInjective(t, u);
    SuffixInjective(z, y);
  }

  /** The last character tells how long the stamp is. */
  lemma TextEnd(t: Time, z: Zone, a: string)
    requires ValidTime(t)
    ensures var s := a + (":" + Text(t, z));
      && |s| == |a| + 1 + |Text(t, z)| && (s[|s| - 1] == 'Z' <==> |Text(t, z)| == 20) && |Text(t, z)| in {20, 25}
      && s[..|a|] == a && s[|a| + 1..] == Text(t, z)
  {
    assert Text(t, z)[|Text(t, z)| - 1] == Suffix(z)[|Suffix(z)| - 1];
  }

  /** A name, a colon and a stamp are read back from the end. */
  lemma StampedInjective(a: string, t: Time, z: Zone, b: string, u: Time, y: Zone)
    requires ValidTime(t) && ValidTime(u) && a + (":" + Text(t, z)) == b + (":" + Text(u, y))
    ensures a == b && t == u && z == y
  {
    TextEnd(t, z, a);
    TextEnd(u, y, b);
    TextInjective(t, z, u, y);
  }

  // ---------- seconds since 1970 ----------

  const DAY: int := 86400

  /** The days from the start of the year zero to the start of 1970. */
  const EPOCH: int := 719528

  /** The local day of an instant, counted from the year zero. */
  function LocalDay(second: int, zone: Zone): int {
    (second + 60 * zone) / DAY + EPOCH
  }

  /** The years 0 to 9999 in local time, which RFC 3339 can write. */
  predicate Writable(second: int, zone: Zone) {
    LocalDay(second, zone) >= 0 && FindYear(LocalDay(second, zone), 0).year < 10000
  }

  lemma FirstHoursWritable(zone: Zone, second: int)
    requires 0 <= second < DAY
    ensures Writable(second, zone)
  {
    var day := LocalDay(second, zone);
    assert EPOCH - 1 <= day <= EPOCH + 1;
    AtLeast365(FindYear(day, 0).year);
    DateInYear(FindYear(day, 0));
  }

  lemma DaySeconds(rest: nat)
    requires rest < DAY
    ensures rest / 3600 < 24 && rest / 3600 * 3600 + rest / 60 % 60 * 60 + rest % 60 == rest
  {
    assert rest / 60 / 60 == rest / 3600;
  }

  /** The local time of an instant. */
  function TimeOf(second: int, zone: Zone): (t: Time)
    requires Writable(second, zone)
    ensures ValidTime(t) && Instant(t, zone) == second
  {
    var date, rest := FindYear(LocalDay(second, zone), 0), (second + 60 * zone) % DAY;
    DaySeconds(rest);
    Time(date, rest / 3600, rest / 60 % 60, rest % 60)
  }

  /** The instant of a local time. */
  function Instant(t: Time, zone: Zone): int
    requires ValidDate(t.date)
  {
    (DaysOf(t.date) - EPOCH) * DAY + t.hour * 3600 + t.minute * 60 + t.second - 60 * zone
  }

  lemma ClockDivides(hour: nat, minute: nat, second: nat)
    requires minute < 60 && second < 60
    ensures var rest := hour * 3600 + minute * 60 + second;
      rest / 3600 == hour && rest / 60 % 60 == minute && rest % 60 == second
  {
    var rest := hour * 3600 + minute * 60 + second;
    SplitIsDivision(rest, 3600, hour, minute * 60 + second);
    SplitIsDivision(rest, 60, hour * 60 + minute, second);
    SplitIsDivision(hour * 60 + minute, 60, hour, minute);
  }

  /** The local day and the seconds into it. */
  lemma InstantSplits(t: Time, zone: Zone)
    requires ValidTime(t)
    ensures LocalDay(Instant(t, zone), zone) == DaysOf(t.date)
    ensures (Instant(t, zone) + 60 * zone) % DAY == t.hour * 3600 + t.minute * 60 + t.second
  {
    var rest := t.hour * 3600 + t.minute * 60 + t.second;
    SplitIsDivision(Instant(t, zone) + 60 * zone, DAY, DaysOf(t.date) - EPOCH, rest);
  }

  /** Every valid local time is the time of its instant, so stamps are exactly the texts of valid times. */
  lemma TimeOfInstant(t: Time, zone: Zone)
    requires ValidTime(t)
    ensures Writable(Instant(t, zone), zone) && TimeOf(Instant(t, zone), zone) == t
  {
    InstantSplits(t, zone);
    ClockDivides(t.hour, t.minute, t.second);
    DaysOfInjective(FindYear(DaysOf(t.date), 0), t.date);
  }

  /** The stamp of an instant in a zone. */
  function Stamp(second: int, zone: Zone): string
    requires Writable(second, zone)
  {
    Text(TimeOf(second, zone), zone)
  }

  // ---------- what the characters and the days are ----------

  /** The number a digit string writes. */
  function ReadNumber(s: string): int {
    if s == "" then 0 else 10 * ReadNumber(s[..|s| - 1]) + (s[|s| - 1] as int - '0' as int)
  }

  lemma ReadTwo(n: nat)
    requires n < 100
    ensures ReadNumber([Tens(n), Ones(n)]) == n
  {
    var s := [Tens(n), Ones(n)];
    assert s[..1] == [Tens(n)] && [Tens(n)][..0] == "";
    assert ReadNumber([Tens(n)]) == n / 10;
    assert n == 10 * (n / 10) + n % 10;
  }

  lemma {:induction false} ReadConcat(a: string, b: string)
    requires |b| == 2
    ensures ReadNumber(a + b) == 100 * ReadNumber(a) + ReadNumber(b)
  {
    assert (a + b)[..|a| + 1] == a + b[..1];
    assert (a + b[..1])[..|a|] == a;
    assert b[..1][..0] == "";
    assert (a + b)[|a| + 1] == b[1] && (a + b[..1])[|a|] == b[0];
    assert ReadNumber(b[..1]) == b[0] as int - '0' as int;
  }

  lemma ReadYear(year: nat)
    requires year < 10000
    ensures ReadNumber([Tens(year / 100), Ones(year / 100), Tens(year % 100), Ones(year % 100)]) == year
  {
    var century, rest := [Tens(year / 100), Ones(year / 100)], [Tens(year % 100), Ones(year % 100)];
    ReadConcat(century, rest);
    ReadTwo(year / 100);
    ReadTwo(year % 100);
    assert century + rest == [Tens(year / 100), Ones(year / 100), Tens(year % 100), Ones(year % 100)];
  }

  /** By position, the date text is year, month and day between dashes. */
  lemma DateReads(d: Date)
    requires d.year < 10000 && d.month < 100 && d.day < 100
    ensures var s := DateText(d);
      && ReadNumber(s[0..4]) == d.year && s[4] == '-' && ReadNumber(s[5..7]) == d.month && s[7] == '-'
      && ReadNumber(s[8..10]) == d.day
  {
    var s := DateText(d);
    ReadYear(d.year);
    ReadTwo(d.month);
    ReadTwo(d.day);
    assert s[0..4] == [Tens(d.year / 100), Ones(d.year / 100), Tens(d.year % 100), Ones(d.year % 100)];
    assert s[5..7] == [Tens(d.month), Ones(d.month)] && s[8..10] == [Tens(d.day), Ones(d.day)];
  }

  lemma TimeReads(t: Time)
    requires t.hour < 100 && t.minute < 100 && t.second < 100
    ensures var s := TimeText(t);
      && ReadNumber(s[0..2]) == t.hour && s[2] == ':' && ReadNumber(s[3..5]) == t.minute && s[5] == ':'
      && ReadNumber(s[6..8]) == t.second
  {
    var s := TimeText(t);
    ReadTwo(t.hour);
    ReadTwo(t.minute);
    ReadTwo(t.second);
    assert s[0..2] == [Tens(t.hour), Ones(t.hour)] && s[3..5] == [Tens(t.minute), Ones(t.minute)];
    assert s[6..8] == [Tens(t.second), Ones(t.second)];
  }

  /** The zone is `Z`, or a sign and the offset in hours and minutes. */
  lemma SuffixReads(zone: Zone)
    ensures zone == 0 ==> Suffix(zone) == "Z"
    ensures zone != 0 ==> var s := Suffix(zone);
      && |s| == 6 && s[3] == ':' && (s[0] == '-' <==> zone < 0) && (s[0] == '+' <==> zone > 0)
      && 60 * ReadNumber(s[1..3]) + ReadNumber(s[4..6]) == (if zone < 0 then -zone else zone) && ReadNumber(s[4..6]) < 60
  {
    if zone != 0 {
      var n := if zone < 0 then -zone else zone;
      ReadTwo(n / 60);
      ReadTwo(n % 60);
      assert Suffix(zone)[1..3] == [Tens(n / 60), Ones(n / 60)] && Suffix(zone)[4..6] == [Tens(n % 60), Ones(n % 60)];
    }
  }

  /** RFC 3339, read by position: `yyyy-mm-ddThh:mm:ss` and the zone. */
  predicate ReadsAs(s: string, t: Time, zone: Zone) {
    && |s| >= 19
    && ReadNumber(s[0..4]) == t.date.year && s[4] == '-' && ReadNumber(s[5..7]) == t.date.month && s[7] == '-'
    && ReadNumber(s[8..10]) == t.date.day && s[10] == 'T'
    && ReadNumber(s[11..13]) == t.hour && s[13] == ':' && ReadNumber(s[14..16]) == t.minute && s[16] == ':'
    && ReadNumber(s[17..19]) == t.second && s[19..] == Suffix(zone)
  }

  lemma TextReads(t: Time, zone: Zone)
    requires ValidTime(t)
    ensures ReadsAs(Text(t, zone), t, zone)
  {
    var s, d, c := Text(t, zone), DateText(t.date), TimeText(t);
    DateReads(t.date);
    TimeReads(t);
    assert s == d + "T" + c + Suffix(zone);
    assert s[0..4] == d[0..4] && s[5..7] == d[5..7] && s[8..10] == d[8..10];
    assert s[11..13] == c[0..2] && s[14..16] == c[3..5] && s[17..19] == c[6..8];
    assert s[4] == d[4] && s[7] == d[7] && s[13] == c[2] && s[16] == c[5];
  }

  /** The date after a date. */
  function NextDate(d: Date): Date
    requires ValidDate(d)
  {
    if d.day < MonthDays(d.year, d.month) then Date(d.year, d.month, d.day + 1)
    else if d.month < 12 then Date(d.year, d.month + 1, 1)
    else Date(d.year + 1, 1, 1)
  }

  /** Days are numbered one by one. */
  lemma NextDateIsNextDay(d: Date)
    requires ValidDate(d)
    ensures ValidDate(NextDate(d)) && DaysOf(NextDate(d)) == DaysOf(d) + 1
  {
    if d.day == MonthDays(d.year, d.month) && d.month == 12 {
      YearDays(d.year);
      assert DaysTo(d.year + 1, 0) == 0;
    }
  }

  /** The months end after these days of the year. */
  lemma MonthTable(year: nat)
    ensures var leap := if year % 4 == 0 && (year % 100 != 0 || year % 400 == 0) then 1 else 0;
      && DaysTo(year, 1) == 31 && DaysTo(year, 2) == 59 + leap && DaysTo(year, 3) == 90 + leap
      && DaysTo(year, 4) == 120 + leap && DaysTo(year, 5) == 151 + leap && DaysTo(year, 6) == 181 + leap
      && DaysTo(year, 7) == 212 + leap && DaysTo(year, 8) == 243 + leap && DaysTo(year, 9) == 273 + leap
      && DaysTo(year, 10) == 304 + leap && DaysTo(year, 11) == 334 + leap && DaysTo(year, 12) == 365 + leap
  {
    var leap := if Leap(year) then 1 else 0;
    assert DaysTo(year, 0) == 0;
    assert DaysTo(year, 2) == 59 + leap;
    assert DaysTo(year, 4) == 120 + leap;
    assert DaysTo(year, 6) == 181 + leap;
    assert DaysTo(year, 8) == 243 + leap;
    assert DaysTo(year, 10) == 304 + leap;
  }

  lemma Divisible(year: nat)
    ensures year % 400 == 0 ==> year % 100 == 0
    ensures year % 100 == 0 ==> year % 4 == 0
  {
    MultipleOfMultiple(year, 100, 4, 400);
    MultipleOfMultiple(year, 4, 25, 100);
  }

  /** Every fourth year is a day longer, but not the hundredth, but the four hundredth. */
  lemma LeapRule(year: nat)
    ensures YearLength(year) == 365
      + (if year % 4 == 0 then 1 else 0) - (if year % 100 == 0 then 1 else 0) + (if year % 400 == 0 then 1 else 0)
  {
    Divisible(year);
  }

  /** The multiples of m below a bound, zero included. */
  function Multiples(bound: nat, m: nat): nat
    requires m > 0
  {
    if bound == 0 then 0 else Multiples(bound - 1, m) + if (bound - 1) % m == 0 then 1 else 0
  }

  lemma {:induction false} MultiplesClosed(bound: nat, m: nat)
    requires m > 0
    ensures Multiples(bound, m) == (bound + m - 1) / m
  {
    if bound == 0 {
      SplitIsDivision(m - 1, m, 0, m - 1);
    } else {
      MultiplesClosed(bound - 1, m);
      CeilingStep(bound - 1, m);
    }
  }

  lemma CeilingStep(n: nat, m: nat)
    requires m > 0
    ensures (n + m) / m == (n + m - 1) / m + if n % m == 0 then 1 else 0
  {
    DivisionSplits(n, m);
    var q, r := n / m, n % m;
    assert (q + 1) * m == q * m + m;
    SplitIsDivision(n + m, m, q + 1, r);
    if r == 0 {
      SplitIsDivision(n + m - 1, m, q, m - 1);
    } else {
      SplitIsDivision(n + m - 1, m, q + 1, r - 1);
    }
  }

  /** What the leap rule adds up to. */
  ghost function Counted(year: nat): int {
    365 * year + Multiples(year, 4) - Multiples(year, 100) + Multiples(year, 400)
  }

  lemma CountedStep(year: nat)
    ensures Counted(year + 1) == Counted(year) + YearLength(year)
  {
    LeapRule(year);
    assert Multiples(year + 1, 4) == Multiples(year, 4) + if year % 4 == 0 then 1 else 0;
    assert Multiples(year + 1, 100) == Multiples(year, 100) + if year % 100 == 0 then 1 else 0;
    assert Multiples(year + 1, 400) == Multiples(year, 400) + if year % 400 == 0 then 1 else 0;
  }

  lemma {:induction false} YearCount(year: nat)
    ensures DaysBefore(year) == Counted(year)
  {
    if year > 0 {
      YearCount(year - 1);
      assert DaysBefore(year) == DaysBefore(year - 1) + YearLength(year - 1);
      assert Counted(year) == Counted(year - 1) + YearLength(year - 1) by { CountedStep(year - 1); }
    }
  }

  /** The days before a year, in closed form. */
  lemma DaysBeforeClosed(year: nat)
    ensures DaysBefore(year) == 365 * year + (year + 3) / 4 - (year + 99) / 100 + (year + 399) / 400
  {
    YearCount(year);
    MultiplesClosed(year, 4);
    MultiplesClosed(year, 100);
    MultiplesClosed(year, 400);
  }

  /** Day 719528 is the first of January of the year 1970. */
  lemma EpochIs1970(year: nat)
    requires year - 70 == 1900
    ensures DaysOf(Date(year, 1, 1)) == 719528 == EPOCH
  {
    DaysBeforeClosed(year);
    assert DaysTo(year, 0) == 0;
  }

  /** The instant zero in UTC is midnight of that day. */
  lemma ZeroIs1970(year: nat)
    requires year - 70 == 1900
    ensures Writable(0, 0) && TimeOf(0, 0) == Time(Date(year, 1, 1), 0, 0, 0)
  {
    EpochIs1970(year);
    var t := Time(Date(year, 1, 1), 0, 0, 0);
    assert Instant(t, 0) == 0;
    TimeOfInstant(t, 0);
  }

  /** A second later is a second later, and the zone shifts the local time by its minutes. */
  lemma InstantCounts(t: Time, u: Time, zone: Zone)
    requires ValidTime(t) && ValidTime(u)
    ensures Instant(u, zone) - Instant(t, zone)
      == 86400 * (DaysOf(u.date) - DaysOf(t.date)) + 3600 * (u.hour - t.hour) + 60 * (u.minute - t.minute) + u.second - t.second
    ensures Instant(t, 0) - Instant(t, zone) == 60 * zone
  {
  }

  // ---------- formatters ----------

  /** A way to write an instant as seen from a zone; `None` when it has no text. */
  type Formatter = (int, Zone) -> Option<string>

  function Rfc3339(): Formatter {
    (second: int, zone: Zone) => if Writable(second, zone) then Some(Stamp(second, zone)) else None
  }

  predicate Written(f: Formatter, second: int, zone: Zone) {
    f(second, zone).Some?
  }

  /** A name, a colon and the stamp. */
  function Stamped(f: Formatter, name: string, second: int, zone: Zone): string
    requires Written(f, second, zone)
  {
    name + (":" + f(second, zone).value)
  }

  /** Name, second and zone can be read back, and the first day of 1970 can be written. */
  ghost predicate Readable(f: Formatter) {
    && (forall a, s, z, b, r, y ::
         Written(f, s, z) && Written(f, r, y) && Stamped(f, a, s, z) == Stamped(f, b, r, y) ==> a == b && s == r && z == y)
    && (forall s, z :: 0 <= s < DAY ==> Written(f, s, z))
  }

  /** RFC 3339 stamps can be read back after any name. */
  lemma Rfc3339Readable()
    ensures Readable(Rfc3339())
  {
    var f := Rfc3339();
    forall a, s: int, z: Zone, b, r: int, y: Zone
      | Written(f, s, z) && Written(f, r, y) && Stamped(f, a, s, z) == Stamped(f, b, r, y)
      ensures a == b && s == r && z == y {
      StampedInjective(a, TimeOf(s, z), z, b, TimeOf(r, y), y);
    }
    forall s: int, z: Zone | 0 <= s < DAY ensures Written(f, s, z) { FirstHoursWritable(z, s); }
  }

  /** The zone that is in force at each second; daylight saving changes it. */
  type Zones = int -> Zone

  /** The name ends in a colon and a stamp of the zone in force at its second. */
  ghost predicate EndsStamped(f: Formatter, name: string, zones: Zones) {
    exists task, second :: Written(f, second, zones(second)) && name == Stamped(f, task, second, zones(second))
  }

  /** The text test: the name ends in a colon, a valid date and time and the offset in force at that instant. */
  ghost predicate ReadsStamped(name: string, zones: Zones) {
    exists task, t, z: Zone :: ValidTime(t) && zones(Instant(t, z)) == z && name == task + (":" + Text(t, z))
  }

  /** For RFC 3339 a stamp can be seen from the text. */
  lemma EndsStampedExactly(name: string, zones: Zones)
    ensures EndsStamped(Rfc3339(), name, zones) <==> ReadsStamped(name, zones)
  {
    var f := Rfc3339();
    if EndsStamped(f, name, zones) {
      var task, second :| Written(f, second, zones(second)) && name == Stamped(f, task, second, zones(second));
      var t, z := TimeOf(second, zones(second)), zones(second);
      assert ValidTime(t) && zones(Instant(t, z)) == z && name == task + (":" + Text(t, z));
    }
    if ReadsStamped(name, zones) {
      var task, t, z: Zone :| ValidTime(t) && zones(Instant(t, z)) == z && name == task + (":" + Text(t, z));
      TimeOfInstant(t, z);
      assert Written(f, Instant(t, z), zones(Instant(t, z)));
      assert name == Stamped(f, task, Instant(t, z), zones(Instant(t, z)));
    }
  }
}
