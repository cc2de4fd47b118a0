/** The closed-form calendar arithmetic of get_fattime in src/fatfs_disk.c,
    against the Gregorian calendar stepped one day at a time. */
module Calendar {
  datatype Date = Date(year: int, month: int, mday: int)

  // ---- The closed form ----

  const EPOCH_SHIFT: int := 719468
  const DAYS_PER_ERA: nat := 146097

  /** Division as C does it, towards zero. */
  function TruncDiv(a: int, n: nat): int
    requires n > 0
  {
    if a >= 0 then a / n else -(-a / n)
  }

  function EraOf(days: int): int {
    TruncDiv(if days >= 0 then days else days - 146096, DAYS_PER_ERA)
  }

  function YearOfEra(doe: int): int {
    (doe - doe / 1460 + doe / 36524 - doe / 146096) / 365
  }

  function YearStart(yoe: int): int { 365 * yoe + yoe / 4 - yoe / 100 }

  function MonthOf(doy: int): int { (5 * doy + 2) / 153 }

  function MonthStart(mp: int): int { (153 * mp + 2) / 5 }

  /** The date of day n, counted from 1970-01-01. */
  function Civil(n: int): Date {
    var days := n + EPOCH_SHIFT;
    var era := EraOf(days);
    var doe := days - era * DAYS_PER_ERA;
    var yoe := YearOfEra(doe);
    DateAt(era, yoe, doe - YearStart(yoe))
  }

  /** The date of day doy of the March-based year yoe of an era. */
  function DateAt(era: int, yoe: int, doy: int): Date {
    var mp := MonthOf(doy);
    var month := if mp < 10 then mp + 3 else mp - 9;
    Date(yoe + era * 400 + if month <= 2 then 1 else 0, month, doy - MonthStart(mp) + 1)
  }

  // ---- The calendar itself ----

  predicate Leap(year: int) {
    year % 4 == 0 && (year % 100 != 0 || year % 400 == 0)
  }

  function MonthLength(year: int, month: int): (r: int)
    ensures 28 <= r <= 31
  {
    if month == 2 then (if Leap(year) then 29 else 28)
    else if month == 4 || month == 6 || month == 9 || month == 11 then 30
    else 31
  }

  predicate ValidDate(d: Date) {
    1 <= d.month <= 12 && 1 <= d.mday <= MonthLength(d.year, d.month)
  }

  function Next(d: Date): Date {
    if d.mday < MonthLength(d.year, d.month) then d.(mday := d.mday + 1)
    else if d.month < 12 then Date(d.year, d.month + 1, 1)
    else Date(d.year + 1, 1, 1)
  }

  function Previous(d: Date): Date {
    if d.mday > 1 then d.(mday := d.mday - 1)
    else if d.month > 1 then Date(d.year, d.month - 1, MonthLength(d.year, d.month - 1))
    else Date(d.year - 1, 12, 31)
  }

  const EPOCH: Date := Date(1970, 1, 1)

  /** Day n, by stepping. */
  function DayByDay(n: int): Date
    decreases if n < 0 then -n else n
  {
    if n == 0 then EPOCH
    else if n > 0 then Next(DayByDay(n - 1))
    else Previous(DayByDay(n + 1))
  }

  // ---- A day of an era, split into century, four-year cycle, year and day ----

  datatype Split = Split(c: int, q: int, k: int, r: int) {
    function Year(): int { 100 * c + 4 * q + k }

    function Length(): int { if k == 3 && (q < 24 || c == 3) then 366 else 365 }

    predicate Ok() { 0 <= c < 4 && 0 <= q < 25 && 0 <= k < 4 && 0 <= r < Length() }

    function Day(): int { 36524 * c + 1461 * q + 365 * k + r }
  }

  lemma Decompose(doe: int) returns (s: Split)
    requires 0 <= doe < DAYS_PER_ERA
    ensures s.Ok() && s.Day() == doe
  {
    var c := if doe < 146096 then doe / 36524 else 3;
    var inCentury := doe - 36524 * c;
    var q := inCentury / 1461;
    var inCycle := inCentury - 1461 * q;
    var k := if inCycle < 1460 then inCycle / 365 else 3;
    s := Split(c, q, k, inCycle - 365 * k);
  }

  lemma SplitYear(s: Split)
    requires s.Ok()
    ensures YearOfEra(s.Day()) == s.Year()
    ensures YearStart(s.Year()) == s.Day() - s.r
    ensures 0 <= s.Day() < DAYS_PER_ERA
  {
    var doe := s.Day();
    var late := if 24 * s.c + s.q + 365 * s.k + s.r >= 1460 then 1 else 0;
    assert doe / 1460 == 25 * s.c + s.q + late;
    var last := if doe == 146096 then 1 else 0;
    assert doe / 36524 == s.c + last;
    assert doe / 146096 == last;
  }

  /** The closed form of a day given by its split. */
  lemma CivilOfSplit(era: int, s: Split)
    requires s.Ok()
    ensures Civil(era * DAYS_PER_ERA + s.Day() - EPOCH_SHIFT) == DateAt(era, s.Year(), s.r)
  {
    hide EraOf, YearOfEra, YearStart, DateAt, Split.Day, Split.Year, Split.Ok;
    SplitYear(s);
    var days := era * DAYS_PER_ERA + s.Day();
    EraUnique(days, era, s.Day());
  }

  lemma EraUnique(days: int, era: int, doe: int)
    requires days == era * DAYS_PER_ERA + doe && 0 <= doe < DAYS_PER_ERA
    ensures EraOf(days) == era
  {}

  lemma SplitOf(n: int) returns (era: int, s: Split)
    ensures s.Ok() && n == era * DAYS_PER_ERA + s.Day() - EPOCH_SHIFT
    ensures Civil(n) == DateAt(era, s.Year(), s.r)
  {
    hide Civil, DateAt, Split.Day, Split.Ok;
    var days := n + EPOCH_SHIFT;
    era := days / DAYS_PER_ERA;
    s := Decompose(days - era * DAYS_PER_ERA);
    CivilOfSplit(era, s);
  }

  lemma Residues(a: int, x: int, b: int, y: int, c: int, z: int)
    ensures (4 * a + x) % 4 == x % 4
    ensures (100 * b + y) % 100 == y % 100
    ensures (400 * c + z) % 400 == z % 400
  {}

  lemma LeapOfSplit(era: int, s: Split)
    requires s.Ok()
    ensures Leap(s.Year() + era * 400 + 1) <==> s.Length() == 366
  {
    var y, k := s.Year() + era * 400 + 1, s.k + 1;
    Residues(25 * s.c + s.q + 100 * era, k, s.c + 4 * era, 4 * s.q + k, era, 100 * s.c + 4 * s.q + k);
    assert y == 4 * (25 * s.c + s.q + 100 * era) + k;
  }

  /** The twelve months of a year that begins in March. */
  lemma MonthTable(doy: int)
    requires 0 <= doy < 366
    ensures var mp := MonthOf(doy); 0 <= mp <= 11 && MonthStart(mp) == March(mp) && March(mp) <= doy < March(mp + 1)
  {}

  /** Where month mp of such a year starts. */
  function March(mp: int): int {
    if mp <= 0 then 0
    else if mp == 1 then 31
    else if mp == 2 then 61
    else if mp == 3 then 92
    else if mp == 4 then 122
    else if mp == 5 then 153
    else if mp == 6 then 184
    else if mp == 7 then 214
    else if mp == 8 then 245
    else if mp == 9 then 275
    else if mp == 10 then 306
    else if mp == 11 then 337
    else 366
  }

  lemma ValidAt(era: int, s: Split)
    requires s.Ok()
    ensures ValidDate(DateAt(era, s.Year(), s.r))
  {
    hide Leap, MonthOf, MonthStart;
    LeapOfSplit(era, s);
    MonthTable(s.r);
  }

  /** Every day has a proper date. */
  lemma CivilIsValid(n: int)
    ensures ValidDate(Civil(n))
  {
    hide Civil, ValidDate, DateAt;
    var era, s := SplitOf(n);
    ValidAt(era, s);
  }

  /** Within a March-based year, the day after. */
  lemma NextInYear(era: int, s: Split)
    requires s.Ok() && s.r + 1 < s.Length()
    ensures DateAt(era, s.Year(), s.r + 1) == Next(DateAt(era, s.Year(), s.r))
  {
    hide Leap, MonthOf, MonthStart;
    LeapOfSplit(era, s);
    MonthTable(s.r);
    MonthTable(s.r + 1);
  }

  /** From the last of February to the first of March. */
  lemma NextYear(era: int, s: Split)
    requires s.Ok() && s.r + 1 == s.Length()
    ensures DateAt(era, s.Year() + 1, 0) == Next(DateAt(era, s.Year(), s.r))
  {
    hide Leap, MonthOf, MonthStart;
    MonthTable(0);
    MonthTable(s.r);
    LeapOfSplit(era, s);
  }

  lemma SameYear(era: int)
    ensures DateAt(era + 1, 0, 0) == DateAt(era, 400, 0)
  {}

  /** The first day of the year after that of `s`, within its era. */
  lemma LaterInEra(s: Split) returns (s': Split)
    requires s.Ok() && s.r + 1 == s.Length() && (s.k < 3 || s.q < 24 || s.c < 3)
    ensures s'.Ok() && s'.r == 0 && s'.Day() == s.Day() + 1 && s'.Year() == s.Year() + 1
  {
    if s.k < 3 {
      s' := Split(s.c, s.q, s.k + 1, 0);
    } else if s.q < 24 {
      s' := Split(s.c, s.q + 1, 0, 0);
    } else {
      s' := Split(s.c + 1, 0, 0, 0);
    }
  }

  /** The first day of the year after that of `s`. */
  lemma FollowingYear(era: int, s: Split) returns (era': int, s': Split)
    requires s.Ok() && s.r + 1 == s.Length()
    ensures s'.Ok() && s'.r == 0
    ensures era' * DAYS_PER_ERA + s'.Day() == era * DAYS_PER_ERA + s.Day() + 1
    ensures DateAt(era', s'.Year(), 0) == DateAt(era, s.Year() + 1, 0)
  {
    hide DateAt, Split.Day, Split.Year, Split.Ok, Split.Length;
    if s.k < 3 || s.q < 24 || s.c < 3 {
      era' := era;
      s' := LaterInEra(s);
    } else {
      era', s' := era + 1, Split(0, 0, 0, 0);
      EraTurns(s);
      SameYear(era);
    }
  }

  /** The last day of an era, and the first. */
  lemma EraTurns(s: Split)
    requires s.Ok() && s.r + 1 == s.Length() && s.k >= 3 && s.q >= 24 && s.c >= 3
    ensures s.Day() == DAYS_PER_ERA - 1 && s.Year() == 399
    ensures var f := Split(0, 0, 0, 0); f.Ok() && f.Day() == 0 && f.Year() == 0
  {}

  /** The closed form takes each day to the calendar's next. */
  lemma CivilSteps(n: int)
    ensures Civil(n + 1) == Next(Civil(n))
  {
    hide Civil, DateAt, Next;
    var era, s := SplitOf(n);
    if s.r + 1 < s.Length() {
      CivilOfSplit(era, s.(r := s.r + 1));
      NextInYear(era, s);
    } else {
      var era', s' := FollowingYear(era, s);
      CivilOfSplit(era', s');
      NextYear(era, s);
    }
  }

  lemma NextPrevious(d: Date)
    requires ValidDate(d)
    ensures ValidDate(Next(d)) && Previous(Next(d)) == d
    ensures ValidDate(Previous(d)) && Next(Previous(d)) == d
  {}

  /** The closed form is the calendar, stepped day by day from the epoch in
      either direction. */
  lemma {:induction false} CivilIsDayByDay(n: int)
    ensures Civil(n) == DayByDay(n)
    decreases if n < 0 then -n else n
  {
    hide Next, Previous;
    if n == 0 {
      assert Civil(0) == EPOCH;
    } else if n > 0 {
      CivilIsDayByDay(n - 1);
      CivilSteps(n - 1);
    } else {
      CivilIsDayByDay(n + 1);
      CivilSteps(n);
      CivilIsValid(n);
      NextPrevious(Civil(n));
    }
  }

  // ---- The way back ----

  /** Days in the months of `year` before `month`. */
  function DaysBeforeMonth(year: int, month: int): int
    decreases month
  {
    if month <= 1 then 0 else DaysBeforeMonth(year, month - 1) + MonthLength(year, month - 1)
  }

  /** Days from 1970-01-01 to the first of January of `year`. */
  function DaysBeforeYear(year: int): int
    decreases if year < 1970 then 1970 - year else year - 1970
  {
    if year == 1970 then 0
    else if year > 1970 then DaysBeforeYear(year - 1) + DaysBeforeMonth(year - 1, 13)
    else DaysBeforeYear(year + 1) - DaysBeforeMonth(year, 13)
  }

  function DayNumber(d: Date): int {
    DaysBeforeYear(d.year) + DaysBeforeMonth(d.year, d.month) + d.mday - 1
  }

  lemma DayNumberNext(d: Date)
    requires ValidDate(d)
    ensures DayNumber(Next(d)) == DayNumber(d) + 1
  {
    hide MonthLength, DaysBeforeMonth, DaysBeforeYear;
    if d.mday == MonthLength(d.year, d.month) {
      NextMonth(d.year, d.month);
      if d.month == 12 { NewYear(d.year); }
    }
  }

  lemma NextMonth(year: int, month: int)
    requires month >= 1
    ensures DaysBeforeMonth(year, month + 1) == DaysBeforeMonth(year, month) + MonthLength(year, month)
  {}

  lemma NewYear(year: int)
    ensures DaysBeforeYear(year + 1) == DaysBeforeYear(year) + DaysBeforeMonth(year, 13)
    ensures DaysBeforeMonth(year + 1, 1) == 0
  {
    hide MonthLength;
  }

  /** Counting the days up to a date undoes the closed form. */
  lemma {:induction false} DayNumberOfCivil(n: int)
    ensures DayNumber(Civil(n)) == n
    decreases if n < 0 then -n else n
  {
    hide Civil, DayNumber, Next;
    if n == 0 {
      CivilIsDayByDay(0);
      EpochIsDayZero();
    } else if n > 0 {
      DayNumberOfCivil(n - 1);
      CivilSteps(n - 1);
      CivilIsValid(n - 1);
      DayNumberNext(Civil(n - 1));
    } else {
      DayNumberOfCivil(n + 1);
      CivilSteps(n);
      CivilIsValid(n);
      DayNumberNext(Civil(n));
    }
  }

  lemma EpochIsDayZero()
    ensures DayNumber(EPOCH) == 0
  {}

  /** No two proper dates are the same day. */
  lemma CivilOfDayNumber(d: Date)
    requires ValidDate(d)
    ensures Civil(DayNumber(d)) == d
  {
    hide Civil, DayNumber;
    var n := DayNumber(d);
    DayNumberOfCivil(n);
    CivilIsValid(n);
    KeyTells(Civil(n), d);
  }

  /** A later date has a larger day number. */
  lemma {:induction false} LaterMonth(year: int, m: int, m': int)
    requires 1 <= m < m' <= 13
    ensures DaysBeforeMonth(year, m) + MonthLength(year, m) <= DaysBeforeMonth(year, m')
    decreases m'
  {
    if m + 1 < m' { LaterMonth(year, m, m' - 1); }
  }

  lemma {:induction false} LaterYear(y: int, y': int)
    requires y < y'
    ensures DaysBeforeYear(y) + DaysBeforeMonth(y, 13) <= DaysBeforeYear(y')
    decreases y' - y
  {
    assert DaysBeforeYear(y + 1) == DaysBeforeYear(y) + DaysBeforeMonth(y, 13);
    if y + 1 < y' {
      LaterYear(y + 1, y');
      LaterMonth(y + 1, 1, 13);
    }
  }

  ghost predicate Before(d: Date, e: Date) {
    d.year < e.year || (d.year == e.year && (d.month < e.month || (d.month == e.month && d.mday < e.mday)))
  }

  /** Day numbers order dates as the calendar does. */
  lemma DayNumberOrders(d: Date, e: Date)
    requires ValidDate(d) && ValidDate(e)
    ensures DayNumber(d) < DayNumber(e) <==> Before(d, e)
  {
    if Before(d, e) {
      BeforeIsLess(d, e);
    } else if Before(e, d) {
      BeforeIsLess(e, d);
    }
  }

  lemma BeforeIsLess(d: Date, e: Date)
    requires ValidDate(d) && ValidDate(e) && Before(d, e)
    ensures DayNumber(d) < DayNumber(e)
  {
    hide MonthLength;
    if d.year < e.year {
      LaterYear(d.year, e.year);
      LaterMonth(d.year, d.month, 13);
      if e.month > 1 { LaterMonth(e.year, 1, e.month); }
    } else if d.month < e.month {
      LaterMonth(d.year, d.month, e.month);
    }
  }

  lemma KeyTells(d: Date, e: Date)
    requires ValidDate(d) && ValidDate(e) && DayNumber(d) == DayNumber(e)
    ensures d == e
  {
    hide DayNumber;
    DayNumberOrders(d, e);
    DayNumberOrders(e, d);
  }
}
