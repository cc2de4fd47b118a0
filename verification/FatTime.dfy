/** get_fattime of src/fatfs_disk.c: the real-time clock's nanoseconds as a
    packed FAT timestamp. */
module FatTime {
  import opened Words
  import opened Bits
  import opened Calendar

  datatype Stamp = Stamp(date: Date, hour: int, min: int, sec: int)

  const NS: nat := 1_000_000_000
  const DAY: nat := 86400

  /** Midnight of 1980-01-01 and of 2108-01-01. */
  const FROM_1980: nat := 3652 * DAY
  const UNTIL_2108: nat := 50403 * DAY

  // ---- What the source computes ----

  function Wallclock(ns: u64): Stamp {
    var secs := ns / NS;
    var secOfDay := secs % DAY;
    Stamp(Civil(secs / DAY), secOfDay / 3600, secOfDay / 60 % 60, secOfDay % 60)
  }

  /** Years a FAT timestamp cannot hold. */
  function Clamp(t: Stamp): Stamp {
    if t.date.year < 1980 then Stamp(Date(1980, 1, 1), 0, 0, 0)
    else if t.date.year > 2107 then t.(date := t.date.(year := 2107))
    else t
  }

  /** A 32-bit left shift. */
  function Shl(x: nat, k: nat): u32 { x * Pow2(k) % 0x1_0000_0000 }

  function Pack(t: Stamp): nat
    requires FitsFat(t)
  {
    var w := Or(Shl(t.date.year - 1980, 25), Shl(t.date.month, 21));
    var w := Or(w, Shl(t.date.mday, 16));
    var w := Or(w, Shl(t.hour, 11));
    var w := Or(w, Shl(t.min, 5));
    Or(w, t.sec / 2)
  }

  function FatTime(ns: u64): nat {
    StampFits(ns);
    Pack(Clamp(Wallclock(ns)))
  }

  // ---- What a timestamp means ----

  predicate ValidTime(t: Stamp) { 0 <= t.hour < 24 && 0 <= t.min < 60 && 0 <= t.sec < 60 }

  /** What the fields can hold. */
  predicate FitsFat(t: Stamp) {
    && 1980 <= t.date.year <= 2107 && 1 <= t.date.month <= 12 && 1 <= t.date.mday <= 31
    && ValidTime(t)
  }

  /** Seconds since 1970 of a date and time, counted day by day. */
  function SecondsOf(t: Stamp): int { DayNumber(t.date) * 86400 + t.hour * 3600 + t.min * 60 + t.sec }

  /** A FAT timestamp read field by field. */
  function Unpack(w: u32): Stamp {
    Stamp(Date(w / 0x200_0000 + 1980, w / 0x20_0000 % 16, w / 0x1_0000 % 32),
          w / 0x800 % 32, w / 0x20 % 64, w % 32 * 2)
  }

  lemma WallclockIsValid(ns: u64)
    ensures var t := Wallclock(ns); ValidDate(t.date) && ValidTime(t) && SecondsOf(t) == ns / 1_000_000_000
  {
    hide Civil, DayNumber;
    CivilIsValid(ns / NS / DAY);
    DayNumberOfCivil(ns / NS / DAY);
  }

  lemma StampFits(ns: u64)
    ensures FitsFat(Clamp(Wallclock(ns)))
  {
    hide Civil;
    WallclockIsValid(ns);
  }

  // ---- The fields do not overlap ----

  lemma Shifted(x: nat, k: nat, p: nat)
    requires Pow2(k) == p && x * p < 0x1_0000_0000
    ensures Shl(x, k) == x * p
  {
    assert x * Pow2(k) == x * p;
  }

  lemma Powers()
    ensures Pow2(5) == 0x20 && Pow2(11) == 0x800 && Pow2(16) == 0x1_0000
    ensures Pow2(21) == 0x20_0000 && Pow2(25) == 0x200_0000
  {
    Pow2Sum(16, 5);
    Pow2Sum(21, 4);
  }

  /** The packed word as a sum of its fields. */
  function Sum(t: Stamp): int {
    (t.date.year - 1980) * 0x200_0000 + t.date.month * 0x20_0000 + t.date.mday * 0x1_0000
    + t.hour * 0x800 + t.min * 0x20 + t.sec / 2
  }

  lemma PackIsSum(t: Stamp)
    requires FitsFat(t)
    ensures Pack(t) == Sum(t) < 0x1_0000_0000
  {
    hide Or, Shl, Pow2;
    Powers();
    var y, m, d := t.date.year - 1980, t.date.month, t.date.mday;
    Shifted(y, 25, 0x200_0000);
    Shifted(m, 21, 0x20_0000);
    Shifted(d, 16, 0x1_0000);
    Shifted(t.hour, 11, 0x800);
    Shifted(t.min, 5, 0x20);
    OrField(y, 25, 0x200_0000, m * 0x20_0000);
    OrField(y * 16 + m, 21, 0x20_0000, d * 0x1_0000);
    OrField((y * 16 + m) * 32 + d, 16, 0x1_0000, t.hour * 0x800);
    OrField(((y * 16 + m) * 32 + d) * 32 + t.hour, 11, 0x800, t.min * 0x20);
    OrField((((y * 16 + m) * 32 + d) * 32 + t.hour) * 64 + t.min, 5, 0x20, t.sec / 2);
  }

  lemma DivField(hi: nat, p: nat, lo: nat)
    requires lo < p
    ensures (hi * p + lo) / p == hi && (hi * p + lo) % p == lo
  {
    ModUnique(hi * p + lo, p, hi, lo);
  }

  /** Reading the fields back gives the time packed, its second made even. */
  lemma UnpackPack(t: Stamp)
    requires FitsFat(t)
    ensures Pack(t) < 0x1_0000_0000
    ensures Unpack(Pack(t)) == t.(sec := t.sec - t.sec % 2)
  {
    hide Pack;
    PackIsSum(t);
    var date := (t.date.year - 1980) * 16 + t.date.month;
    var day := date * 32 + t.date.mday;
    var hour := day * 32 + t.hour;
    var min := hour * 64 + t.min;
    DivField(min, 32, t.sec / 2);
    DivField(hour, 0x800, t.min * 0x20 + t.sec / 2);
    DivField(day, 0x1_0000, t.hour * 0x800 + t.min * 0x20 + t.sec / 2);
    DivField(date, 0x20_0000, t.date.mday * 0x1_0000 + t.hour * 0x800 + t.min * 0x20 + t.sec / 2);
    DivField(t.date.year - 1980, 0x200_0000,
             t.date.month * 0x20_0000 + t.date.mday * 0x1_0000 + t.hour * 0x800 + t.min * 0x20 + t.sec / 2);
    DivField(hour, 64, t.min);
    DivField(day, 32, t.hour);
    DivField(date, 32, t.date.mday);
    DivField(t.date.year - 1980, 16, t.date.month);
    assert Pack(t) == min * 32 + t.sec / 2;
  }

  lemma EvenSecond(days: int, hour: int, min: int, sec: int)
    ensures (days * DAY + hour * 3600 + min * 60 + sec) % 2 == sec % 2
  {}

  /** From 1980 to 2107 the timestamp is the time of the clock rounded down to
      an even second. */
  lemma FatTimeTellsTime(ns: u64)
    requires 3652 * 86400 <= ns / 1_000_000_000 < 50403 * 86400
    ensures FatTime(ns) < 0x1_0000_0000
    ensures ValidDate(Unpack(FatTime(ns)).date) && ValidTime(Unpack(FatTime(ns)))
    ensures SecondsOf(Unpack(FatTime(ns))) == ns / 1_000_000_000 - ns / 1_000_000_000 % 2
  {
    hide Wallclock, Civil, DayNumber, Pack, Unpack, ValidDate;
    StampFits(ns);
    InRange(ns);
    WallclockIsValid(ns);
    var t := Wallclock(ns);
    UnpackPack(t);
    EvenSecond(DayNumber(t.date), t.hour, t.min, t.sec);
    assert t.(sec := t.sec - t.sec % 2).date == t.date;
  }

  /** Before 1980 the timestamp is 1980-01-01 at midnight. */
  lemma EarlyClock(ns: u64)
    requires ns / 1_000_000_000 < 3652 * 86400
    ensures FatTime(ns) == 0x0021_0000
  {
    hide Civil, Wallclock, Pack;
    StampFits(ns);
    InRange(ns);
    PackIsSum(Stamp(Date(1980, 1, 1), 0, 0, 0));
  }

  /** From 2108 on only the year is cut back. */
  lemma LateClock(ns: u64)
    requires ns / 1_000_000_000 >= 50403 * 86400
    ensures FatTime(ns) < 0x1_0000_0000
    ensures var t := Wallclock(ns);
      Unpack(FatTime(ns)) == Stamp(Date(2107, t.date.month, t.date.mday), t.hour, t.min, t.sec - t.sec % 2)
  {
    hide Civil, Wallclock, Pack, Unpack;
    StampFits(ns);
    InRange(ns);
    UnpackPack(Clamp(Wallclock(ns)));
  }

  // ---- Order ----

  lemma CivilOrders(m: int, n: int)
    ensures m < n <==> Before(Civil(m), Civil(n))
  {
    hide Civil, DayNumber, Before;
    CivilIsValid(m);
    CivilIsValid(n);
    DayNumberOfCivil(m);
    DayNumberOfCivil(n);
    DayNumberOrders(Civil(m), Civil(n));
  }

  /** The dates on which the range of a FAT timestamp begins and ends. */
  lemma Bounds()
    ensures Civil(3652) == Date(1980, 1, 1)
    ensures Civil(50402) == Date(2107, 12, 31) && Civil(50403) == Date(2108, 1, 1)
  {
    hide Civil;
    CivilOfSplit(4, Split(3, 19, 3, 306));
    CivilOfSplit(5, Split(1, 1, 3, 305));
    CivilOfSplit(5, Split(1, 1, 3, 306));
  }

  lemma InRange(ns: u64)
    ensures 1980 <= Wallclock(ns).date.year <==> FROM_1980 <= ns / NS
    ensures Wallclock(ns).date.year <= 2107 <==> ns / NS < UNTIL_2108
  {
    hide Civil;
    var d := ns / NS / DAY;
    Bounds();
    CivilIsValid(d);
    CivilOrders(d, 3652);
    CivilOrders(d, 50403);
  }

  /** The clock's 64 bits of nanoseconds end in 2554: no 32-bit quantity of the
      conversion wraps around. */
  lemma ClockEnds(ns: u64)
    ensures 1970 <= Wallclock(ns).date.year <= 2554
  {
    hide Civil;
    var d := ns / NS / DAY;
    CivilOfSplit(6, Split(1, 13, 2, 306));
    CivilOfSplit(4, Split(3, 17, 1, 306));
    CivilIsValid(d);
    CivilOrders(d, 0);
    CivilOrders(d, 213667);
  }

  function DateKey(d: Date): int { ((d.year - 1980) * 16 + d.month) * 32 + d.mday }

  function TimeKey(t: Stamp): int { t.hour * 0x800 + t.min * 0x20 + t.sec / 2 }

  lemma KeysOrder(s: Stamp, t: Stamp)
    requires FitsFat(s) && FitsFat(t)
    ensures Before(s.date, t.date) ==> DateKey(s.date) < DateKey(t.date)
    ensures 0 <= TimeKey(s) < 0x1_0000 && 0 <= TimeKey(t)
  {}

  lemma TimesOrder(s: Stamp, t: Stamp)
    requires ValidTime(s) && ValidTime(t)
    requires s.hour * 3600 + s.min * 60 + s.sec <= t.hour * 3600 + t.min * 60 + t.sec
    ensures TimeKey(s) <= TimeKey(t)
  {
    if s.hour == t.hour && s.min == t.min { assert s.sec / 2 <= t.sec / 2; }
  }

  lemma PackOrders(s: Stamp, t: Stamp)
    requires FitsFat(s) && FitsFat(t)
    requires Before(s.date, t.date) ||
             (s.date == t.date && s.hour * 3600 + s.min * 60 + s.sec <= t.hour * 3600 + t.min * 60 + t.sec)
    ensures Pack(s) <= Pack(t)
  {
    hide Pack, Before, DateKey, TimeKey;
    PackIsKeys(s);
    PackIsKeys(t);
    KeysOrder(s, t);
    if !Before(s.date, t.date) { TimesOrder(s, t); }
  }

  lemma PackIsKeys(t: Stamp)
    requires FitsFat(t)
    ensures Pack(t) == DateKey(t.date) * 0x1_0000 + TimeKey(t)
  {
    hide Pack;
    PackIsSum(t);
  }

  lemma SameDayOrder(x: nat, y: nat)
    requires x <= y
    ensures x / DAY < y / DAY || (x / DAY == y / DAY && x % DAY <= y % DAY)
  {}

  lemma TimeOfDay(x: nat)
    ensures x / 3600 * 3600 + x / 60 % 60 * 60 + x % 60 == x
  {}

  lemma ClockOrder(a: u64, b: u64)
    requires a <= b
    ensures var s, t := Wallclock(a), Wallclock(b);
            Before(s.date, t.date) ||
            (s.date == t.date && s.hour * 3600 + s.min * 60 + s.sec <= t.hour * 3600 + t.min * 60 + t.sec)
  {
    hide Civil, Before;
    SameDayOrder(a / NS, b / NS);
    TimeOfDay(a / NS % DAY);
    TimeOfDay(b / NS % DAY);
    CivilOrders(a / NS / DAY, b / NS / DAY);
  }

  /** A later clock never packs to an earlier timestamp before 2108. */
  lemma Monotone(a: u64, b: u64)
    requires a <= b && b / NS < UNTIL_2108
    ensures FatTime(a) <= FatTime(b)
  {
    hide Civil, Wallclock, Pack;
    StampFits(a);
    StampFits(b);
    InRange(b);
    ClockOrder(a, b);
    PackOrders(Clamp(Wallclock(a)), Clamp(Wallclock(b)));
  }

  /** The last second of 2107 packs to a later timestamp than the first of
      2108, whose year is cut back. */
  lemma Turn()
    ensures FatTime((UNTIL_2108 - 1) * NS) > FatTime(UNTIL_2108 * NS)
  {
    hide Civil, Pack;
    var a, b := (UNTIL_2108 - 1) * NS, UNTIL_2108 * NS;
    Bounds();
    DivField(50402, DAY, DAY - 1);
    assert Wallclock(a) == Stamp(Date(2107, 12, 31), 23, 59, 59);
    assert Wallclock(b) == Stamp(Date(2108, 1, 1), 0, 0, 0);
    PackIsSum(Wallclock(a));
    PackIsSum(Clamp(Wallclock(b)));
  }

  /** Timestamps follow the clock up to `limit` exactly when it is before
      2108. */
  lemma MonotoneIff(limit: u64)
    ensures (forall a: u64, b: u64 {:trigger FatTime(a), FatTime(b)} :: a <= b <= limit ==> FatTime(a) <= FatTime(b))
      <==> limit / 1_000_000_000 < 50403 * 86400
  {
    hide FatTime;
    if limit / NS < UNTIL_2108 {
      forall a: u64, b: u64 | a <= b <= limit ensures FatTime(a) <= FatTime(b) {
        assert b / NS <= limit / NS;
        Monotone(a, b);
      }
    } else {
      Turn();
      assert (UNTIL_2108 - 1) * NS <= UNTIL_2108 * NS <= limit;
    }
  }
}
