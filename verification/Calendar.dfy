/**
  * The fixed-width UTC timestamps that the Redis store compares as strings
  * (internal/syncstatus/redis.go, redisTimeLayout "2006-01-02T15:04:05.000000000Z").
  */
module Calendar {
  import opened Prelude

  const NANOS_PER_SECOND := 1_000_000_000
  const NANOS_PER_DAY := 86_400 * NANOS_PER_SECOND

  // ---------------------------------------------------------------------------
  // Strings of fixed-width decimal fields
  // ---------------------------------------------------------------------------

  predicate SeqLess(a: seq<nat>, b: seq<nat>) {
    b != [] && (a == [] || a[0] < b[0] || (a[0] == b[0] && SeqLess(a[1..], b[1..])))
  }

  function Pow10(w: nat): (r: nat)
    ensures r > 0
  {
    if w == 0 then 1 else 10 * Pow10(w - 1)
  }

  function Digit(d: nat): char
    requires d < 10
  {
    '0' + d as char
  }

  /** n in decimal, zero padded to w digits. */
  function Pad(n: nat, w: nat): (s: string)
    ensures |s| == w
  {
    if w == 0 then [] else Pad(n / 10, w - 1) + [Digit(n % 10)]
  }

  function Unpad(s: string): Option<nat> {
    if s == [] then Some(0)
    else
      var c, hi := s[|s| - 1], Unpad(s[..|s| - 1]);
      if hi.Some? && '0' <= c <= '9' then Some(hi.value * 10 + (c - '0') as nat) else None
  }

  datatype Field = Field(width: nat, separator: char)

  predicate Fits(layout: seq<Field>, vs: seq<nat>) {
    |layout| == |vs| && forall i :: 0 <= i < |vs| ==> vs[i] < Pow10(layout[i].width)
  }

  function Render(layout: seq<Field>, vs: seq<nat>): string
    requires |layout| == |vs|
  {
    if layout == [] then []
    else Pad(vs[0], layout[0].width) + [layout[0].separator] + Render(layout[1..], vs[1..])
  }

  function Scan(layout: seq<Field>, s: string): Option<seq<nat>> {
    if layout == [] then (if s == [] then Some([]) else None)
    else
      var w := layout[0].width;
      if |s| <= w || s[w] != layout[0].separator then None
      else
        var v, rest := Unpad(s[..w]), Scan(layout[1..], s[w + 1..]);
        if v.Some? && rest.Some? then Some([v.value] + rest.value) else None
  }

  lemma {:induction false} StrLessConcat(a: string, b: string, x: string, y: string)
    requires |a| == |b|
    ensures StrLess(a + x, b + y) <==> StrLess(a, b) || (a == b && StrLess(x, y))
  {
    if a == [] {
      assert a + x == x && b + y == y;
    } else {
      assert (a + x)[1..] == a[1..] + x && (b + y)[1..] == b[1..] + y;
      StrLessConcat(a[1..], b[1..], x, y);
      assert a == [a[0]] + a[1..] && b == [b[0]] + b[1..];
    }
  }

  lemma {:induction false} PadOrder(n: nat, m: nat, w: nat)
    requires n < Pow10(w) && m < Pow10(w)
    ensures StrLess(Pad(n, w), Pad(m, w)) <==> n < m
    ensures Pad(n, w) == Pad(m, w) <==> n == m
  {
    if w > 0 {
      PadOrder(n / 10, m / 10, w - 1);
      var (a, b) := (Pad(n / 10, w - 1), Pad(m / 10, w - 1));
      var (x, y) := ([Digit(n % 10)], [Digit(m % 10)]);
      StrLessConcat(a, b, x, y);
      assert Pad(n, w)[..w - 1] == a && Pad(m, w)[..w - 1] == b;
      assert Pad(n, w)[w - 1] == x[0] && Pad(m, w)[w - 1] == y[0];
    }
  }

  lemma {:induction false} UnpadPad(n: nat, w: nat)
    requires n < Pow10(w)
    ensures Unpad(Pad(n, w)) == Some(n)
  {
    if w > 0 {
      UnpadPad(n / 10, w - 1);
      assert Pad(n, w)[..w - 1] == Pad(n / 10, w - 1);
    }
  }

  lemma FieldOrder(p: string, q: string, sep: char, x: string, y: string)
    requires |p| == |q|
    ensures StrLess(p + [sep] + x, q + [sep] + y) <==> StrLess(p, q) || (p == q && StrLess(x, y))
    ensures p + [sep] + x == q + [sep] + y <==> p == q && x == y
  {
    var (s, t) := (p + [sep] + x, q + [sep] + y);
    assert s == p + ([sep] + x) && t == q + ([sep] + y);
    StrLessConcat(p, q, [sep] + x, [sep] + y);
    assert ([sep] + x)[1..] == x && ([sep] + y)[1..] == y;
    assert s[..|p|] == p && t[..|p|] == q && s[|p| + 1..] == x && t[|p| + 1..] == y;
  }

  /** Fixed-width rendering turns string order into field-by-field numeric order. */
  lemma {:induction false} RenderOrder(layout: seq<Field>, a: seq<nat>, b: seq<nat>)
    requires Fits(layout, a) && Fits(layout, b)
    ensures StrLess(Render(layout, a), Render(layout, b)) <==> SeqLess(a, b)
    ensures Render(layout, a) == Render(layout, b) <==> a == b
  {
    if layout != [] {
      var w := layout[0].width;
      RenderOrder(layout[1..], a[1..], b[1..]);
      PadOrder(a[0], b[0], w);
      FieldOrder(Pad(a[0], w), Pad(b[0], w), layout[0].separator, Render(layout[1..], a[1..]),
        Render(layout[1..], b[1..]));
      assert a == [a[0]] + a[1..] && b == [b[0]] + b[1..];
    }
  }

  lemma {:induction false} ScanRender(layout: seq<Field>, a: seq<nat>)
    requires Fits(layout, a)
    ensures Scan(layout, Render(layout, a)) == Some(a)
  {
    if layout != [] {
      var s, w := Render(layout, a), layout[0].width;
      UnpadPad(a[0], w);
      ScanRender(layout[1..], a[1..]);
      assert s[..w] == Pad(a[0], w) && s[w + 1..] == Render(layout[1..], a[1..]);
      assert a == [a[0]] + a[1..];
    }
  }

  // ---------------------------------------------------------------------------
  // The proleptic Gregorian calendar
  // ---------------------------------------------------------------------------

  predicate Leap(y: int) {
    y % 4 == 0 && (y % 100 != 0 || y % 400 == 0)
  }

  /** Days from 0001-01-01 to January 1 of year y. */
  function DaysBeforeYear(y: int): int {
    365 * (y - 1) + (y - 1) / 4 - (y - 1) / 100 + (y - 1) / 400
  }

  /** Days from January 1 of year y to day 1 of month m; month 13 is the next January. */
  function DaysBeforeMonth(y: int, m: nat): nat
    requires 1 <= m <= 13
  {
    [0, 31, 59, 90, 120, 151, 181, 212, 243, 273, 304, 334, 365][m - 1] + if m > 2 && Leap(y) then 1 else 0
  }

  /** Whole 400-, 100-, 4- and 1-year cycles before a day, and the days left over. */
  datatype Cycles = Cycles(n400: int, n100: int, n4: int, n1: int, rest: int) {
    predicate Valid() {
      && 0 <= n100 <= 3 && 0 <= n4 <= 24 && 0 <= n1 <= 3 && 0 <= rest <= 365
      && (rest == 365 ==> n1 == 3 && (n4 == 24 ==> n100 == 3))
    }

    function Days(): int { 146097 * n400 + 36524 * n100 + 1461 * n4 + 365 * n1 + rest }

    function Year(): int { 1 + 400 * n400 + 100 * n100 + 4 * n4 + n1 }
  }

  /** The cycles of a day number, found as Go's time package finds them. */
  function CyclesOf(day: int): (c: Cycles)
    ensures c.Valid() && c.Days() == day
  {
    var n400 := day / 146097;
    var r400 := day - 146097 * n400;
    var q100 := r400 / 36524;
    var n100 := q100 - q100 / 4;
    assert n100 == if q100 == 4 then 3 else q100;
    var r100 := r400 - 36524 * n100;
    var n4 := r100 / 1461;
    var r4 := r100 - 1461 * n4;
    var q1 := r4 / 365;
    var n1 := q1 - q1 / 4;
    assert n1 == if q1 == 4 then 3 else q1;
    Cycles(n400, n100, n4, n1, r4 - 365 * n1)
  }

  function YearOf(day: int): (y: int)
    ensures DaysBeforeYear(y) <= day < DaysBeforeYear(y) + DaysBeforeMonth(y, 13)
  {
    CycleStart(CyclesOf(day));
    CyclesOf(day).Year()
  }

  function MonthOf(y: int, yday: nat): (m: nat)
    requires yday < DaysBeforeMonth(y, 13)
    ensures 1 <= m <= 12 && DaysBeforeMonth(y, m) <= yday < DaysBeforeMonth(y, m + 1)
  {
    if yday < DaysBeforeMonth(y, 2) then 1
    else if yday < DaysBeforeMonth(y, 3) then 2
    else if yday < DaysBeforeMonth(y, 4) then 3
    else if yday < DaysBeforeMonth(y, 5) then 4
    else if yday < DaysBeforeMonth(y, 6) then 5
    else if yday < DaysBeforeMonth(y, 7) then 6
    else if yday < DaysBeforeMonth(y, 8) then 7
    else if yday < DaysBeforeMonth(y, 9) then 8
    else if yday < DaysBeforeMonth(y, 10) then 9
    else if yday < DaysBeforeMonth(y, 11) then 10
    else if yday < DaysBeforeMonth(y, 12) then 11
    else 12
  }

  lemma NextQuotients(p: int)
    ensures (p + 1) / 4 == p / 4 + if (p + 1) % 4 == 0 then 1 else 0
    ensures (p + 1) / 100 == p / 100 + if (p + 1) % 100 == 0 then 1 else 0
    ensures (p + 1) / 400 == p / 400 + if (p + 1) % 400 == 0 then 1 else 0
  {
  }

  lemma HundredsAreFours(k: int)
    ensures 100 * k % 4 == 0
  {
    assert 100 * k == 4 * (25 * k);
  }

  lemma FourHundredsAreHundreds(k: int)
    ensures 400 * k % 100 == 0
  {
    assert 400 * k == 100 * (4 * k);
  }

  lemma YearLength(y: int)
    ensures DaysBeforeYear(y + 1) - DaysBeforeYear(y) == DaysBeforeMonth(y, 13)
  {
    NextQuotients(y - 1);
    HundredsAreFours(y / 100);
    FourHundredsAreHundreds(y / 400);
  }

  lemma YearsIncrease(y: int, z: int)
    requires y < z
    ensures DaysBeforeYear(y) + DaysBeforeMonth(y, 13) <= DaysBeforeYear(z)
  {
    YearLength(y);
    var k := z - (y + 1);
    assert (z - 1) / 100 - y / 100 <= k / 100 + 1;
    assert k == 0 ==> z == y + 1;
  }

  lemma LastYearOfCycleIsLeap(c: Cycles)
    requires c.Valid() && c.rest == 365
    ensures Leap(c.Year())
  {
    var y := c.Year();
    assert y == 4 * (100 * c.n400 + 25 * c.n100 + c.n4 + 1);
    if c.n4 == 24 {
      assert y == 400 * (c.n400 + 1);
    } else {
      assert y == 100 * (4 * c.n400 + c.n100) + 4 * (c.n4 + 1);
    }
  }

  /** The leftover days fall in the year reached by whole cycles. */
  lemma CycleStart(c: Cycles)
    requires c.Valid()
    ensures DaysBeforeYear(c.Year()) + c.rest == c.Days()
    ensures c.rest < DaysBeforeMonth(c.Year(), 13)
  {
    var p := c.Year() - 1;
    assert p / 4 == 100 * c.n400 + 25 * c.n100 + c.n4;
    assert p / 100 == 4 * c.n400 + c.n100;
    assert p / 400 == c.n400;
    if c.rest == 365 {
      LastYearOfCycleIsLeap(c);
    }
  }

  // ---------------------------------------------------------------------------
  // Broken-down time
  // ---------------------------------------------------------------------------

  /** day*NANOS_PER_DAY + second*NANOS_PER_SECOND + nano, the instant of a day, second and nanosecond. */
  function Assemble(day: int, second: int, nano: int): Instant {
    day * NANOS_PER_DAY + second * NANOS_PER_SECOND + nano
  }

  lemma AssembleOrder(day: int, second: int, nano: int, day': int, second': int, nano': int)
    requires 0 <= second < 86_400 && 0 <= second' < 86_400
    requires 0 <= nano < NANOS_PER_SECOND && 0 <= nano' < NANOS_PER_SECOND
    requires day < day' || (day == day' && (second < second' || (second == second' && nano < nano')))
    ensures Assemble(day, second, nano) < Assemble(day', second', nano')
  {
  }

  datatype Civil = Civil(year: int, month: nat, day: nat, hour: nat, minute: nat, second: nat, nano: nat) {
    predicate Valid() {
      && 1 <= month <= 12
      && 1 <= day <= DaysBeforeMonth(year, month + 1) - DaysBeforeMonth(year, month)
      && hour < 24 && minute < 60 && second < 60 && nano < NANOS_PER_SECOND
    }

    function DayNumber(): int
      requires Valid()
    {
      DaysBeforeYear(year) + DaysBeforeMonth(year, month) + day - 1
    }

    function SecondOfDay(): int { hour * 3600 + minute * 60 + second }

    function Instant(): Instant
      requires Valid()
    {
      Assemble(DayNumber(), SecondOfDay(), nano)
    }

    function Magnitude(): nat { if year < 0 then -year else year }

    /** The numbers that are written out, after the sign. */
    function Fields(): seq<nat> {
      [Magnitude(), month, day, hour, minute, second, nano]
    }
  }

  function DateOf(day: int): (c: Civil)
    ensures c.Valid() && c.DayNumber() == day
  {
    var y := YearOf(day);
    var yday := day - DaysBeforeYear(y);
    var m := MonthOf(y, yday);
    Civil(y, m, yday - DaysBeforeMonth(y, m) + 1, 0, 0, 0, 0)
  }

  lemma ClockParts(secs: int)
    requires 0 <= secs < 86_400
    ensures secs / 3600 < 24 && secs == secs / 3600 * 3600 + secs / 60 % 60 * 60 + secs % 60
  {
    assert secs / 3600 == secs / 60 / 60;
  }

  lemma AssembleParts(t: Instant)
    ensures var r := t % NANOS_PER_DAY;
            && 0 <= r / NANOS_PER_SECOND < 86_400
            && Assemble(t / NANOS_PER_DAY, r / NANOS_PER_SECOND, r % NANOS_PER_SECOND) == t
  {
  }

  /** The calendar reading of an instant; Instant is its inverse. */
  function ToCivil(t: Instant): (c: Civil)
    ensures c.Valid() && c.Instant() == t
  {
    AssembleParts(t);
    var date, r := DateOf(t / NANOS_PER_DAY), t % NANOS_PER_DAY;
    var secs := r / NANOS_PER_SECOND;
    ClockParts(secs);
    date.(hour := secs / 3600, minute := secs / 60 % 60, second := secs % 60, nano := r % NANOS_PER_SECOND)
  }

  lemma DayNumberOrder(c: Civil, d: Civil)
    requires c.Valid() && d.Valid()
    requires c.year < d.year || (c.year == d.year && (c.month < d.month || (c.month == d.month && c.day < d.day)))
    ensures c.DayNumber() < d.DayNumber()
  {
    if c.year < d.year {
      YearsIncrease(c.year, d.year);
      if c.month < 12 {
        MonthsIncrease(c.year, c.month, 13);
      }
    } else if c.month < d.month {
      MonthsIncrease(c.year, c.month, d.month);
    }
  }

  lemma InstantOrder(c: Civil, d: Civil)
    requires c.Valid() && d.Valid()
    requires
      || c.DayNumber() < d.DayNumber()
      || (c.DayNumber() == d.DayNumber()
          && (c.SecondOfDay() < d.SecondOfDay() || (c.SecondOfDay() == d.SecondOfDay() && c.nano < d.nano)))
    ensures c.Instant() < d.Instant()
  {
    AssembleOrder(c.DayNumber(), c.SecondOfDay(), c.nano, d.DayNumber(), d.SecondOfDay(), d.nano);
  }

  /** Field-by-field order of calendar readings is chronological order, from year 0 on and within any one year. */
  lemma {:induction false} CivilOrder(c: Civil, d: Civil)
    requires c.Valid() && d.Valid() && (c.year == d.year || (c.year >= 0 && d.year >= 0))
    requires SeqLess(c.Fields(), d.Fields())
    ensures c.Instant() < d.Instant()
  {
    var (a, b) := (c.Fields(), d.Fields());
    var k := FirstDifference(a, b);
    assert k > 0 ==> a[0] == b[0];
    assert k > 1 ==> a[1] == b[1];
    assert k > 2 ==> a[2] == b[2];
    assert k > 3 ==> a[3] == b[3];
    assert k > 4 ==> a[4] == b[4];
    assert k > 5 ==> a[5] == b[5];
    if k <= 2 {
      DayNumberOrder(c, d);
    } else {
      assert c.DayNumber() == d.DayNumber();
    }
    InstantOrder(c, d);
  }

  lemma MonthsIncrease(y: int, m: nat, n: nat)
    requires 1 <= m < n <= 13
    ensures DaysBeforeMonth(y, m + 1) <= DaysBeforeMonth(y, n)
  {
  }

  lemma {:induction false} FirstDifference(a: seq<nat>, b: seq<nat>) returns (k: nat)
    requires |a| == |b| && SeqLess(a, b)
    ensures k < |a| && a[k] < b[k] && forall i :: 0 <= i < k ==> a[i] == b[i]
  {
    if a[0] < b[0] {
      k := 0;
    } else {
      k := FirstDifference(a[1..], b[1..]);
      assert forall i :: 0 < i <= k ==> a[i] == a[1..][i - 1] && b[i] == b[1..][i - 1];
      k := k + 1;
    }
  }

  // ---------------------------------------------------------------------------
  // time.Time.Format and time.Parse with redisTimeLayout
  // ---------------------------------------------------------------------------

  function Layout(yearWidth: nat): seq<Field> {
    [Field(yearWidth, '-'), Field(2, '-'), Field(2, 'T'), Field(2, ':'), Field(2, ':'), Field(2, '.'), Field(9, 'Z')]
  }

  const YEAR_0 := -366 * NANOS_PER_DAY
  const YEAR_10000 := 3_652_059 * NANOS_PER_DAY

  /** The instants of years 0-9999. */
  predicate FourDigitYear(t: Instant) {
    YEAR_0 <= t < YEAR_10000
  }

  lemma DayBounds(c: Civil)
    requires c.Valid()
    ensures DaysBeforeYear(c.year) <= c.DayNumber() < DaysBeforeYear(c.year + 1)
  {
    YearLength(c.year);
    if c.month < 12 {
      MonthsIncrease(c.year, c.month, 13);
    }
  }

  lemma AssembleDay(day: int, second: int, nano: int)
    requires 0 <= second < 86_400 && 0 <= nano < NANOS_PER_SECOND
    ensures day * NANOS_PER_DAY <= Assemble(day, second, nano) < (day + 1) * NANOS_PER_DAY
  {
  }

  lemma EndpointDays()
    ensures DaysBeforeYear(0) == -366 && DaysBeforeYear(10_000) == 3_652_059
  {
  }

  /** The numeric range of years 0-9999. */
  lemma {:induction false} YearRange(t: Instant)
    ensures YEAR_0 <= t <==> 0 <= ToCivil(t).year
    ensures t < YEAR_10000 <==> ToCivil(t).year <= 9999
    ensures FourDigitYear(t) <==> 0 <= ToCivil(t).year <= 9999
  {
    hide DaysBeforeYear, ToCivil, Civil.DayNumber, Assemble;
    var c := ToCivil(t);
    DayBounds(c);
    AssembleDay(c.DayNumber(), c.SecondOfDay(), c.nano);
    EndpointDays();
    var y := c.year;
    YearsIncreaseWeakly(if y < 0 then y + 1 else 0, if y < 0 then 0 else y);
    YearsIncreaseWeakly(if y <= 9999 then y + 1 else 10_000, if y <= 9999 then 10_000 else y);
  }

  lemma YearsIncreaseWeakly(y: int, z: int)
    requires y <= z
    ensures DaysBeforeYear(y) <= DaysBeforeYear(z)
  {
    if y < z {
      YearsIncrease(y, z);
    }
  }

  /** At least four digits: a year of 10000 or more is written with all of its digits. */
  function YearWidth(y: nat): (w: nat)
    ensures w >= 4
  {
    if y < 10_000 then 4 else 1 + YearWidth(y / 10)
  }

  /** A year before 0 is written with a minus sign. */
  function Format(t: Instant): string {
    if ToCivil(t).year < 0 then ['-'] + Unsigned(t) else Unsigned(t)
  }

  function Unsigned(t: Instant): string {
    var c := ToCivil(t);
    Render(Layout(YearWidth(c.Magnitude())), c.Fields())
  }

  function Parse(s: string): Option<Instant> {
    var vs := Scan(Layout(4), s);
    if vs.None? || |vs.value| != 7 then None
    else
      var c := Civil(vs.value[0], vs.value[1], vs.value[2], vs.value[3], vs.value[4], vs.value[5], vs.value[6]);
      if c.Valid() then Some(c.Instant()) else None
  }

  lemma CivilFits(c: Civil, yearWidth: nat)
    requires c.Valid() && c.Magnitude() < Pow10(yearWidth)
    ensures Fits(Layout(yearWidth), c.Fields())
  {
    hide DaysBeforeMonth;
    assert Pow10(2) == 100;
    Pow10Nine();
    MonthLength(c.year, c.month);
  }

  lemma MonthLength(y: int, m: nat)
    requires 1 <= m <= 12
    ensures DaysBeforeMonth(y, m + 1) - DaysBeforeMonth(y, m) <= 31
  {
  }

  lemma Pow10Nine()
    ensures Pow10(4) == 10_000 && Pow10(9) == NANOS_PER_SECOND
  {
    assert Pow10(3) == 1000;
    assert Pow10(6) == 1_000_000;
    assert Pow10(8) == 100_000_000;
  }

  lemma {:induction false} YearFits(y: nat)
    ensures y < Pow10(YearWidth(y))
  {
    Pow10Nine();
    if y >= 10_000 {
      YearFits(y / 10);
    }
  }

  lemma {:induction false} WidthsIncrease(y: nat, z: nat)
    requires y <= z
    ensures YearWidth(y) <= YearWidth(z)
  {
    if y >= 10_000 {
      WidthsIncrease(y / 10, z / 10);
    }
  }

  /** Years of the same width: string order is field-by-field order. */
  lemma {:induction false} SameWidthFields(t: Instant, u: Instant)
    requires YearWidth(ToCivil(t).Magnitude()) == YearWidth(ToCivil(u).Magnitude())
    ensures StrLess(Unsigned(t), Unsigned(u)) <==> SeqLess(ToCivil(t).Fields(), ToCivil(u).Fields())
    ensures Unsigned(t) == Unsigned(u) <==> ToCivil(t).Fields() == ToCivil(u).Fields()
  {
    hide ToCivil, StrLess, SeqLess, Civil.Valid, Civil.Instant, Civil.Fields, Render, Layout, YearWidth, DaysBeforeYear;
    var (c, d) := (ToCivil(t), ToCivil(u));
    var w := YearWidth(c.Magnitude());
    YearFits(c.Magnitude());
    YearFits(d.Magnitude());
    CivilFits(c, w);
    CivilFits(d, w);
    RenderOrder(Layout(w), c.Fields(), d.Fields());
  }

  /** Years of the same width: string comparison is chronological comparison, from year 0 on and within any one year. */
  lemma {:induction false} SameWidthOrder(t: Instant, u: Instant)
    requires YearWidth(ToCivil(t).Magnitude()) == YearWidth(ToCivil(u).Magnitude())
    requires ToCivil(t).year == ToCivil(u).year || (ToCivil(t).year >= 0 && ToCivil(u).year >= 0)
    ensures StrLess(Unsigned(t), Unsigned(u)) <==> t < u
    ensures Unsigned(t) == Unsigned(u) <==> t == u
  {
    hide ToCivil, StrLess, Civil.Valid, Civil.Instant, Unsigned, YearWidth, DaysBeforeYear;
    var (c, d) := (ToCivil(t), ToCivil(u));
    SameWidthFields(t, u);
    Trichotomy(c.Fields(), d.Fields());
    if SeqLess(c.Fields(), d.Fields()) {
      CivilOrder(c, d);
    } else if SeqLess(d.Fields(), c.Fields()) {
      CivilOrder(d, c);
    } else {
      SameFields(c, d);
    }
  }

  lemma SameFields(c: Civil, d: Civil)
    requires c.year == d.year || (c.year >= 0 && d.year >= 0)
    requires c.Fields() == d.Fields()
    ensures c == d
  {
    var (a, b) := (c.Fields(), d.Fields());
    assert a[0] == b[0] && a[1] == b[1] && a[2] == b[2] && a[3] == b[3] && a[4] == b[4] && a[5] == b[5] && a[6] == b[6];
  }

  /** String comparison of formatted timestamps is chronological comparison, for every instant of years 0-9999. */
  lemma {:induction false} FormatOrder(t: Instant, u: Instant)
    requires FourDigitYear(t) && FourDigitYear(u)
    ensures StrLess(Format(t), Format(u)) <==> t < u
    ensures Format(t) == Format(u) <==> t == u
  {
    hide ToCivil, StrLess, Unsigned;
    YearRange(t);
    YearRange(u);
    SameWidthOrder(t, u);
  }

  lemma {:induction false} Trichotomy(a: seq<nat>, b: seq<nat>)
    requires |a| == |b|
    ensures SeqLess(a, b) || SeqLess(b, a) || a == b
  {
    if a != [] {
      Trichotomy(a[1..], b[1..]);
      assert a == [a[0]] + a[1..] && b == [b[0]] + b[1..];
    }
  }

  /** Reading back a formatted timestamp loses nothing. */
  lemma {:induction false} ParseFormat(t: Instant)
    requires FourDigitYear(t)
    ensures Parse(Format(t)) == Some(t)
  {
    YearRange(t);
    Pow10Nine();
    CivilFits(ToCivil(t), 4);
    ScanRender(Layout(4), ToCivil(t).Fields());
  }

  // ---------------------------------------------------------------------------
  // Years of different widths
  // ---------------------------------------------------------------------------

  lemma DivideTwice(n: nat, p: nat)
    requires p > 0
    ensures n / 10 / p == n / (10 * p)
  {
    var (q, r) := (n / (10 * p), n % (10 * p));
    assert n == 10 * (p * q) + r;
    assert n / 10 == p * q + r / 10;
    assert r / 10 < p;
    DivisionIs(n / 10, p, q, r / 10);
  }

  lemma DivisionIs(n: nat, p: nat, q: nat, r: nat)
    requires p > 0 && r < p && n == p * q + r
    ensures n / p == q
  {
    var d: int := n / p - q;
    assert n == p * (n / p) + n % p;
    assert p * d == r - n % p;
    MultipleOutside(p, d);
  }

  lemma MultipleOutside(p: nat, d: int)
    requires p > 0
    ensures d >= 1 ==> p * d >= p
    ensures d <= -1 ==> p * d + p <= 0
  {
  }

  lemma {:induction false} QuotientFits(n: nat, w: nat, d: nat)
    requires n < Pow10(w) && d <= w
    ensures n / Pow10(d) < Pow10(w - d)
  {
    if d > 0 {
      QuotientFits(n / 10, w - 1, d - 1);
      DivideTwice(n, Pow10(d - 1));
    }
  }

  /** The leading digits of a padded number are its quotient by a power of ten, and a digit follows them. */
  lemma {:induction false} PadPrefix(n: nat, w: nat, d: nat)
    requires d <= w
    ensures Pad(n, w)[..w - d] == Pad(n / Pow10(d), w - d)
    ensures d > 0 ==> '0' <= Pad(n, w)[w - d] <= '9'
  {
    if d == 0 {
      assert Pad(n, w)[..w] == Pad(n, w);
    } else {
      PadPrefix(n / 10, w - 1, d - 1);
      DivideTwice(n, Pow10(d - 1));
      assert Pad(n, w)[..w - d] == Pad(n / 10, w - 1)[..w - d];
      assert d > 1 ==> Pad(n, w)[w - d] == Pad(n / 10, w - 1)[w - d];
    }
  }

  /** A narrower field that ends in a hyphen against a wider one: the wider one's leading digits decide. */
  lemma WidthDecides(n: nat, v: nat, x: string, m: nat, w: nat, y: string)
    requires v < w && n < Pow10(v) && m < Pow10(w)
    ensures StrLess(Pad(n, v) + ['-'] + x, Pad(m, w) + y) <==> n <= m / Pow10(w - v)
    ensures Pad(n, v) + ['-'] + x != Pad(m, w) + y
  {
    hide StrLess, Pad, Pow10;
    var q, whole := m / Pow10(w - v), Pad(m, w);
    PadPrefix(m, w, w - v);
    QuotientFits(m, w, w - v);
    PadOrder(n, q, v);
    var tail := whole[v..] + y;
    assert whole + y == Pad(q, v) + tail;
    ConcatAssoc(Pad(n, v), ['-'], x);
    StrLessConcat(Pad(n, v), Pad(q, v), ['-'] + x, tail);
    assert tail[0] == whole[v];
    FirstCharDecides(['-'] + x, tail);
    assert (Pad(n, v) + ['-'] + x)[v] == '-' && (whole + y)[v] == whole[v];
  }

  lemma FirstCharDecides(a: string, b: string)
    requires a != [] && b != [] && a[0] < b[0]
    ensures StrLess(a, b)
  {
  }

  lemma UnsignedBegins(t: Instant) returns (rest: string)
    ensures Unsigned(t) == Pad(ToCivil(t).Magnitude(), YearWidth(ToCivil(t).Magnitude())) + ['-'] + rest
  {
    hide ToCivil, YearWidth, Pad;
    var c := ToCivil(t);
    var layout := Layout(YearWidth(c.Magnitude()));
    rest := Render(layout[1..], c.Fields()[1..]);
  }

  /** A year with fewer digits against one with more: the leading digits of the longer one decide. */
  lemma {:induction false} NarrowAgainstWide(t: Instant, u: Instant)
    requires YearWidth(ToCivil(t).Magnitude()) < YearWidth(ToCivil(u).Magnitude())
    ensures var (y, z) := (ToCivil(t).Magnitude(), ToCivil(u).Magnitude());
            StrLess(Unsigned(t), Unsigned(u)) <==> y <= z / Pow10(YearWidth(z) - YearWidth(y))
    ensures Unsigned(t) != Unsigned(u)
  {
    hide ToCivil, StrLess, Pad, Unsigned, YearWidth;
    var (y, z) := (ToCivil(t).Magnitude(), ToCivil(u).Magnitude());
    var (v, w) := (YearWidth(y), YearWidth(z));
    YearFits(y);
    YearFits(z);
    var x := UnsignedBegins(t);
    var x' := UnsignedBegins(u);
    ConcatAssoc(Pad(z, w), ['-'], x');
    WidthDecides(y, v, x, z, w, ['-'] + x');
  }

  /** A number with no more digits than another is at most the leading digits of the other, as many as it has. */
  predicate Leads(y: nat, z: nat)
    requires YearWidth(y) <= YearWidth(z)
  {
    y <= z / Pow10(YearWidth(z) - YearWidth(y))
  }

  /** For an earlier year y and a later or equal year z. */
  predicate OrdersAgree(y: int, z: int)
    requires y <= z
  {
    if y >= 0 then WidthsIncrease(y, z); Leads(y, z)
    else z >= 0 || y == z || (WidthsIncrease(-z, -y); !Leads(-z, -y))
  }

  lemma {:induction false} FromYearZero(t: Instant, u: Instant)
    requires t < u && 0 <= ToCivil(t).year <= ToCivil(u).year
    ensures StrLess(Unsigned(t), Unsigned(u)) <==> OrdersAgree(ToCivil(t).year, ToCivil(u).year)
    ensures Unsigned(t) != Unsigned(u)
  {
    hide ToCivil, StrLess, Unsigned, YearWidth;
    var (y, z) := (ToCivil(t).year, ToCivil(u).year);
    WidthsIncrease(y, z);
    if YearWidth(y) == YearWidth(z) {
      SameWidthOrder(t, u);
      assert Pow10(0) == 1;
    } else {
      NarrowAgainstWide(t, u);
    }
  }

  lemma {:induction false} BeforeYearZero(t: Instant, u: Instant)
    requires t < u && ToCivil(t).year <= ToCivil(u).year < 0
    ensures StrLess(Unsigned(t), Unsigned(u)) <==> OrdersAgree(ToCivil(t).year, ToCivil(u).year)
    ensures Unsigned(t) != Unsigned(u)
  {
    hide ToCivil, StrLess, Unsigned, YearWidth;
    var (c, d) := (ToCivil(t), ToCivil(u));
    var (y, z) := (c.Magnitude(), d.Magnitude());
    WidthsIncrease(z, y);
    StrOrder(Unsigned(t), Unsigned(u));
    if y == z {
      SameWidthOrder(t, u);
    } else if YearWidth(y) == YearWidth(z) {
      SameWidthFields(u, t);
      assert Pow10(0) == 1;
      assert d.Fields()[0] < c.Fields()[0];
    } else {
      NarrowAgainstWide(u, t);
    }
  }

  lemma YearsInOrder(t: Instant, u: Instant)
    requires t < u
    ensures ToCivil(t).year <= ToCivil(u).year
  {
    hide ToCivil;
    if ToCivil(u).year < ToCivil(t).year {
      YearOrder(ToCivil(u), ToCivil(t));
    }
  }

  /**
    * For all instants, exactly when the string order of an earlier and a later one is chronological: from year 0 on, if
    * the earlier year is at most the leading digits of the later one, as many as the earlier has; across year 0 always;
    * and before it, if the years are the same or the later year's digits exceed the leading ones of the earlier year.
    * Different instants never have the same string.
    */
  lemma {:induction false} OrderExactly(t: Instant, u: Instant)
    requires t < u
    ensures ToCivil(t).year <= ToCivil(u).year
    ensures StrLess(Format(t), Format(u)) <==> OrdersAgree(ToCivil(t).year, ToCivil(u).year)
    ensures Format(t) != Format(u)
  {
    hide ToCivil, StrLess, Unsigned, YearWidth, Leads;
    YearsInOrder(t, u);
    var (y, z) := (ToCivil(t).year, ToCivil(u).year);
    if y >= 0 {
      FromYearZero(t, u);
    } else if z < 0 {
      BeforeYearZero(t, u);
      StrLessConcat(['-'], ['-'], Unsigned(t), Unsigned(u));
      StrOrder(['-'], ['-']);
      assert Format(t)[1..] == Unsigned(t) && Format(u)[1..] == Unsigned(u);
    } else {
      DigitFirst(u);
      FirstCharDecides(Format(t), Format(u));
    }
  }

  lemma DigitFirst(t: Instant)
    ensures Unsigned(t) != [] && '0' <= Unsigned(t)[0] <= '9'
  {
    hide ToCivil, Pow10;
    var y := ToCivil(t).Magnitude();
    var w := YearWidth(y);
    var rest := UnsignedBegins(t);
    PadPrefix(y, w, w);
    assert Unsigned(t)[0] == Pad(y, w)[0];
  }

  /** For example, every instant of years 10000-19999 sorts before every one of years 2000-9999. */
  lemma {:induction false} OrderFailsPastYear9999(t: Instant, u: Instant)
    requires 2000 <= ToCivil(t).year <= 9999 && 10_000 <= ToCivil(u).year < 20_000
    ensures t < u && !StrLess(Format(t), Format(u)) && Format(t) != Format(u)
  {
    hide ToCivil, StrLess, Format;
    YearOrder(ToCivil(t), ToCivil(u));
    OrderExactly(t, u);
    assert YearWidth(ToCivil(u).year) == 5 && Pow10(1) == 10;
  }

  lemma YearOrder(c: Civil, d: Civil)
    requires c.Valid() && d.Valid() && c.year < d.year
    ensures c.Instant() < d.Instant()
  {
    DayNumberOrder(c, d);
    InstantOrder(c, d);
  }

  // ---------------------------------------------------------------------------
  // The calendar, day by day
  // ---------------------------------------------------------------------------

  /** The number of days of a month, as every calendar prints it. */
  function MonthDays(y: int, m: nat): nat {
    if m == 2 then (if y % 400 == 0 || (y % 4 == 0 && y % 100 != 0) then 29 else 28)
    else if m == 4 || m == 6 || m == 9 || m == 11 then 30
    else 31
  }

  /** The date after a date. */
  function NextDay(c: Civil): Civil {
    if c.day < MonthDays(c.year, c.month) then c.(day := c.day + 1)
    else if c.month < 12 then c.(month := c.month + 1, day := 1)
    else c.(year := c.year + 1, month := 1, day := 1)
  }

  lemma SameDate(c: Civil, d: Civil)
    requires c.Valid() && d.Valid() && c.DayNumber() == d.DayNumber()
    ensures c.year == d.year && c.month == d.month && c.day == d.day
  {
    hide Civil.DayNumber, Civil.Valid;
    var before := (a: Civil, b: Civil) =>
      a.year < b.year || (a.year == b.year && (a.month < b.month || (a.month == b.month && a.day < b.day)));
    if before(c, d) {
      DayNumberOrder(c, d);
    } else if before(d, c) {
      DayNumberOrder(d, c);
    }
  }

  lemma MonthDaysIs(y: int, m: nat)
    requires 1 <= m <= 12
    ensures MonthDays(y, m) == DaysBeforeMonth(y, m + 1) - DaysBeforeMonth(y, m)
  {
  }

  lemma NextDayIs(c: Civil)
    requires c.Valid()
    ensures NextDay(c).Valid() && NextDay(c).DayNumber() == c.DayNumber() + 1
  {
    hide DaysBeforeYear, Leap;
    var (y, m) := (c.year, c.month);
    MonthDaysIs(y, m);
    YearLength(y);
    YearBegins(y + 1);
    MonthLength(y, m);
    if m < 12 {
      MonthLength(y, m + 1);
    }
  }

  lemma YearBegins(y: int)
    ensures DaysBeforeMonth(y, 1) == 0 && DaysBeforeMonth(y, 2) == 31
  {
  }

  /** A day later every reading is the next date at the same time of day. */
  lemma {:induction false} DatesFollow(c: Civil)
    requires c.Valid()
    ensures NextDay(c).Valid() && NextDay(c).Instant() == c.Instant() + NANOS_PER_DAY
  {
    hide Civil.DayNumber, Civil.Valid;
    NextDayIs(c);
  }

  /** The first midnight of a year; of year 1 it is instant 0. */
  lemma YearStart(c: Civil)
    requires c.month == c.day == 1 && c.hour == c.minute == c.second == c.nano == 0
    ensures c.Valid() && c.Instant() == DaysBeforeYear(c.year) * NANOS_PER_DAY
  {
    hide DaysBeforeYear, DaysBeforeMonth;
    YearBegins(c.year);
  }

  /** No two readings share an instant. */
  lemma {:induction false} SameReading(c: Civil, d: Civil)
    requires c.Valid() && d.Valid() && c.Instant() == d.Instant()
    ensures c == d
  {
    hide Civil.DayNumber, Civil.Instant;
    if c.DayNumber() < d.DayNumber() || (c.DayNumber() == d.DayNumber()
        && (c.SecondOfDay() < d.SecondOfDay() || (c.SecondOfDay() == d.SecondOfDay() && c.nano < d.nano))) {
      InstantOrder(c, d);
    } else if d.DayNumber() < c.DayNumber() || d.SecondOfDay() < c.SecondOfDay() || d.nano < c.nano {
      InstantOrder(d, c);
    } else {
      SameDate(c, d);
    }
  }

  /** The text of every reading of years 0-9999, written out. */
  lemma {:induction false} FormatIs(c: Civil)
    requires c.Valid() && 0 <= c.year <= 9999
    ensures Format(c.Instant()) ==
            Pad(c.year, 4) + ("-" + (Pad(c.month, 2) + ("-" + (Pad(c.day, 2) + ("T" + (Pad(c.hour, 2) + (":"
            + (Pad(c.minute, 2) + (":" + (Pad(c.second, 2) + ("." + (Pad(c.nano, 9) + "Z"))))))))))))
  {
    hide ToCivil, Civil.Valid, Civil.Instant, Pad, Render;
    SameReading(ToCivil(c.Instant()), c);
    RenderIs(Layout(4), c.Fields());
  }

  lemma RenderIs(l: seq<Field>, v: seq<nat>)
    requires |l| == |v| == 7 && l == Layout(4)
    ensures Render(l, v) ==
            Pad(v[0], 4) + ("-" + (Pad(v[1], 2) + ("-" + (Pad(v[2], 2) + ("T" + (Pad(v[3], 2) + (":"
            + (Pad(v[4], 2) + (":" + (Pad(v[5], 2) + ("." + (Pad(v[6], 9) + "Z"))))))))))))
  {
    hide Render, Pad;
    RenderFrom(l, v, 6);
    RenderFrom(l, v, 5);
    RenderFrom(l, v, 4);
    RenderFrom(l, v, 3);
    RenderFrom(l, v, 2);
    RenderFrom(l, v, 1);
    RenderFrom(l, v, 0);
    assert l[0..] == l && v[0..] == v;
  }

  lemma RenderFrom(l: seq<Field>, v: seq<nat>, k: nat)
    requires k < |l| == |v|
    ensures Render(l[k..], v[k..]) ==
            Pad(v[k], l[k].width) + ([l[k].separator] + Render(l[k + 1..], v[k + 1..]))
    ensures k + 1 == |l| ==> Render(l[k..], v[k..]) == Pad(v[k], l[k].width) + [l[k].separator]
  {
    hide Pad;
    DropDrop(l, k, 1);
    DropDrop(v, k, 1);
  }
}
