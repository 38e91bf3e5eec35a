/** Writing and reading the meter clock: the Jalali date of the COSEM clock object is stored as a
    Gregorian BCD date in the DS1307 chip and converted back on every read. */
module RealTimeClock {
  import opened Bytes
  import opened Calendar

  /** The date-time fields the server exchanges: years from 1900, months from 0, Jalali calendar. */
  datatype Tm = Tm(year: int, mon: int, mday: int, hour: int, min: int, sec: int)

  /** The fields of DS1307_I2C_STRUCT_TYPEDEF that hold time. */
  datatype Clock = Clock(second: Byte, minute: Byte, hour: Byte, day: Byte, date: Byte, month: Byte, year: Byte, h12: bool)

  function JalaliDate(tm: Tm): Date { Date(1900 + tm.year, 1 + tm.mon, tm.mday) }

  predicate ValidTm(tm: Tm) {
    ValidJalali(JalaliDate(tm)) && JalaliDate(tm).y >= 0
    && 0 <= tm.hour < 24 && 0 <= tm.min < 60 && 0 <= tm.sec < 60
  }

  // ---------- the register image ----------

  /** Two decimal digits in the nibbles of a byte; tens past 15 lose their upper bits. */
  function Bcd(v: Byte): Byte { (v / 10 * 16 + v % 10) % 256 }

  function SetBit(x: nat, weight: nat): nat
    requires weight > 0
  {
    if x / weight % 2 == 1 then x else x + weight
  }

  /** The mask 0x64 that the source combines with the hour when H_12 is set. */
  function With0x64(x: nat): nat { SetBit(SetBit(SetBit(x, 4), 32), 64) }

  predicate Has0x64(x: nat) { x / 4 % 2 == 1 || x / 32 % 2 == 1 || x / 64 % 2 == 1 }

  function Registers(c: Clock): (r: seq<Byte>)
    ensures |r| == 7
  {
    [Bcd(c.second), Bcd(c.minute),
     if c.h12 then With0x64(Bcd(c.hour)) % 256 else Bcd(c.hour),
     c.day % 8, Bcd(c.date), Bcd(c.month), Bcd(c.year)]
  }

  /** A BCD byte read through a mask that keeps `bits` bits of the upper nibble. */
  function FromBcd(r: Byte, bits: nat): Byte
    requires 1 <= bits <= 4
  {
    (if bits == 1 then r / 16 % 2 else if bits == 2 then r / 16 % 4 else if bits == 3 then r / 16 % 8 else r / 16)
    * 10 + r % 16
  }

  function FromRegisters(r: seq<Byte>): Clock
    requires |r| == 7
  {
    Clock(FromBcd(r[0], 3), FromBcd(r[1], 3), FromBcd(r[2], 2), r[3] % 8, FromBcd(r[4], 2), FromBcd(r[5], 1),
          FromBcd(r[6], 4), Has0x64(r[2]))
  }

  // ---------- what a write stores and a read returns ----------

  /** The chip fields computed from a date-time; `g` is the Gregorian date. */
  function Stored(g: Date, tm: Tm, day: Byte): Clock
    requires 0 <= g.m < 256 && 0 <= g.d < 256
  {
    Clock(tm.sec % 256, tm.min % 256, tm.hour % 256, day, g.d, g.m, (g.y % 65536 - 2000) % 256, false)
  }

  lemma MonthDays(g: Date)
    requires ValidGregorian(g)
    ensures 1 <= g.m <= 12 && 1 <= g.d <= 31
  {
    hide GregorianLeap;
  }

  /** SH2M counts the date from year 0 on, valid or not. */
  predicate Convertible(tm: Tm) { 1900 + tm.year + 1595 >= 0 && Sh2mCounter(1900 + tm.year, 1 + tm.mon, tm.mday) >= 0 }

  /** The Gregorian date of any such date-time. */
  ghost function GregorianDate(tm: Tm): (g: Date)
    requires Convertible(tm)
    ensures ValidGregorian(g) && 1 <= g.m <= 12 && 1 <= g.d <= 31
  {
    var g := GregorianOf(Sh2mCounter(1900 + tm.year, 1 + tm.mon, tm.mday) + YEAR_ZERO_DAY);
    MonthDays(g);
    g
  }

  ghost function Written(tm: Tm, day: Byte): Clock
    requires Convertible(tm)
  {
    Stored(GregorianDate(tm), tm, day)
  }

  /** On a valid date-time it is the Gregorian date of the same day. */
  lemma ValidIsConvertible(tm: Tm)
    requires ValidTm(tm)
    ensures Convertible(tm) && GregorianDate(tm) == ToGregorian(JalaliDate(tm))
  {
    hide Sh2mCounter, ToGregorian, GregorianOf, JalaliLeap;
    Sh2mComputesToGregorian(JalaliDate(tm));
  }

  /** The date-time shown for the chip fields. */
  ghost function Shown(c: Clock): Tm {
    TmOf(StoredJalali(Date(c.year + 2000, c.month, c.date)), c)
  }

  function TmOf(j: Date, c: Clock): Tm { Tm(j.y - 1900, j.m - 1, j.d, c.hour, c.minute, c.second) }

  ghost function ReadBack(r: seq<Byte>): Tm
    requires |r| == 7
  {
    Shown(FromRegisters(r))
  }

  /** The call of SH2M in svr_postWrite. */
  method GregorianFields(tm: Tm) returns (my: int, mm: Byte, md: Byte)
    requires Convertible(tm)
    ensures var g := GregorianDate(tm); my == g.y % 65536 && mm == g.m && md == g.d
  {
    hide Sh2mCounter, GregorianOf;
    ghost var g := GregorianDate(tm);
    my, mm, md := SH2M(1900 + tm.year, 1 + tm.mon, tm.mday);
  }

  class Ds1307 {
    var second: Byte
    var minute: Byte
    var hour: Byte
    var day: Byte
    var date: Byte
    var month: Byte
    var year: Byte
    var h12: bool
    /** The time registers of the chip behind the I2C bus. */
    const registers: array<Byte>

    ghost predicate Valid() { registers.Length == 7 }

    ghost function Fields(): Clock
      reads this
    {
      Clock(second, minute, hour, day, date, month, year, h12)
    }

    constructor ()
      ensures Valid() && fresh(registers)
    {
      registers := new Byte[7];
      second, minute, hour, day, date, month, year, h12 := 0, 0, 0, 0, 0, 0, 0, false;
    }

    /** DS1307_Set_Time */
    method SetTime()
      requires Valid()
      modifies registers
      ensures registers[..] == Registers(Fields())
    {
      var time := new Byte[7];
      time[6] := Bcd(year);
      time[5] := Bcd(month);
      time[4] := Bcd(date);
      time[3] := day % 8;
      time[2] := Bcd(hour);
      if h12 { time[2] := With0x64(time[2]) % 256; }
      time[1] := Bcd(minute);
      time[0] := Bcd(second);
      forall i | 0 <= i < 7 { registers[i] := time[i]; }
    }

    /** DS1307_Get_Time */
    method GetTime()
      requires Valid()
      modifies this
      ensures Fields() == FromRegisters(registers[..])
    {
      year := FromBcd(registers[6], 4);
      month := FromBcd(registers[5], 1);
      date := FromBcd(registers[4], 2);
      day := registers[3] % 8;
      h12 := Has0x64(registers[2]);
      hour := FromBcd(registers[2], 2);
      minute := FromBcd(registers[1], 3);
      second := FromBcd(registers[0], 3);
    }

    /** The clock branch of svr_postWrite. */
    method PostWrite(tm: Tm)
      requires Valid() && Convertible(tm)
      modifies this, registers
      ensures registers[..] == Registers(Written(tm, old(day)))
      ensures Fields() == FromRegisters(registers[..])
    {
      var my, mm, md := GregorianFields(tm);
      year := (my - 2000) % 256;
      month := mm;
      date := md;
      hour := tm.hour % 256;
      minute := tm.min % 256;
      second := tm.sec % 256;
      h12 := false;
      assert Fields() == Written(tm, day);
      SetTime();
      GetTime();
    }

    /** The date path of time_now. */
    method TimeNow() returns (tm: Tm)
      requires Valid()
      modifies this
      ensures tm == ReadBack(registers[..]) && Fields() == FromRegisters(registers[..])
    {
      GetTime();
      var jYear, jMonth, jDay := M2Sh(year + 2000, month, date);
      tm := Tm(jYear - 1900, jMonth - 1, jDay, hour, minute, second);
    }
  }

  // ---------- write then read ----------

  lemma BcdNibbles(v: Byte)
    requires v < 160
    ensures Bcd(v) / 16 == v / 10 && Bcd(v) % 16 == v % 10
  {
    assert v / 10 * 16 + v % 10 < 256;
  }

  lemma BcdInverse(v: Byte, bits: nat)
    requires 1 <= bits <= 4 && v < (if bits == 1 then 20 else if bits == 2 then 40 else if bits == 3 then 80 else 160)
    ensures FromBcd(Bcd(v), bits) == v
  {
    BcdNibbles(v);
  }

  /** Which hours make the H_12 mask read back as set. */
  lemma HourMask(hour: Byte)
    requires hour < 24
    ensures Has0x64(Bcd(hour)) <==> hour >= 20 || hour % 10 / 4 == 1
  {
    BcdNibbles(hour);
    var r := Bcd(hour);
    assert r == 16 * (hour / 10) + hour % 10;
    assert hour / 10 <= 2;
  }

  /** Every field survives the registers, except that H_12 comes back set at some hours. */
  lemma RegistersInverse(c: Clock)
    requires c.second < 60 && c.minute < 60 && c.hour < 24 && c.day < 8 && c.date < 40 && c.month < 20 && c.year < 160
    requires !c.h12
    ensures FromRegisters(Registers(c)) == c.(h12 := c.hour >= 20 || c.hour % 10 / 4 == 1)
  {
    hide FromBcd, Bcd, Has0x64;
    BcdInverse(c.second, 3);
    BcdInverse(c.minute, 3);
    BcdInverse(c.hour, 2);
    BcdInverse(c.date, 2);
    BcdInverse(c.month, 1);
    BcdInverse(c.year, 4);
    HourMask(c.hour);
  }

  lemma YearByte(y: int)
    requires 2000 <= y <= 2100
    ensures (y % 65536 - 2000) % 256 == y - 2000
  {
  }

  lemma StoredFields(g: Date, tm: Tm, day: Byte)
    requires 1 <= g.m <= 12 && 1 <= g.d <= 31 && 2000 <= g.y <= 2100
    requires 0 <= tm.hour < 24 && 0 <= tm.min < 60 && 0 <= tm.sec < 60
    ensures Stored(g, tm, day) == Clock(tm.sec, tm.min, tm.hour, day, g.d, g.m, g.y - 2000, false)
  {
    YearByte(g.y);
  }

  lemma ShownDate(g: Date, c: Clock)
    requires c.year == g.y - 2000 && c.month == g.m && c.date == g.d
    ensures Shown(c) == TmOf(StoredJalali(g), c)
  {
    hide StoredJalali, TmOf;
    assert Date(c.year + 2000, c.month, c.date) == g;
  }

  /** What is shown for an accepted Gregorian date and any H_12. */
  lemma ShownOf(g: Date, tm: Tm, day: Byte, h12: bool)
    requires ValidGregorian(g) && 2000 <= g.y <= 2100
    requires 0 <= tm.hour < 24 && 0 <= tm.min < 60 && 0 <= tm.sec < 60
    ensures 1 <= g.m <= 12 && 1 <= g.d <= 31
    ensures Shown(Stored(g, tm, day).(h12 := h12)) == TmOf(StoredJalali(g), Stored(g, tm, day))
  {
    hide StoredJalali, GregorianLeap, Stored, Shown;
    MonthDays(g);
    StoredFields(g, tm, day);
    ShownDate(g, Stored(g, tm, day).(h12 := h12));
  }

  /** What is read back after writing a date whose Gregorian form is `g`. */
  lemma ReadBackOf(g: Date, tm: Tm, day: Byte)
    requires ValidGregorian(g) && 2000 <= g.y <= 2100 && day < 8
    requires 0 <= tm.hour < 24 && 0 <= tm.min < 60 && 0 <= tm.sec < 60
    ensures ReadBack(Registers(Stored(g, tm, day))) == TmOf(StoredJalali(g), Stored(g, tm, day))
  {
    hide StoredJalali, ValidGregorian, Registers, FromRegisters, TmOf, Stored, Shown;
    MonthDays(g);
    StoredFields(g, tm, day);
    RegistersInverse(Stored(g, tm, day));
    ShownOf(g, tm, day, tm.hour >= 20 || tm.hour % 10 / 4 == 1);
  }

  /** The Jalali date survives M2Sh when its Gregorian year is not clamped. */
  lemma DateSurvives(j: Date, g: Date)
    requires ValidJalali(j) && j.y >= 0 && g == ToGregorian(j) && 2000 <= g.y <= 2100
    ensures StoredJalali(g) == j
  {
    hide JalaliLeap, ToGregorian, GregorianYearDay, JalaliYearDay;
    assert Clamp(g) == g;
    SameJalali(StoredJalali(g), j);
  }

  /** A Jalali date outside the accepted years is never shown, whatever the chip holds. */
  lemma DateLost(j: Date, g: Date, seen: Date)
    requires ValidJalali(j) && j.y >= 0 && g == ToGregorian(j) && !(2000 <= g.y <= 2100)
    requires 0 <= seen.m && 0 <= seen.d
    ensures StoredJalali(seen) != j
  {
    ClampedDayInRange(seen);
    YearOfDay(g, 2000, 2100);
  }

  lemma SameDate(j: Date, c: Clock, tm: Tm)
    ensures TmOf(j, c) == tm ==> j == JalaliDate(tm)
  {
  }

  lemma LostOnReading(j: Date, g: Date, c: Clock, tm: Tm)
    requires ValidJalali(j) && j.y >= 0 && g == ToGregorian(j) && !(2000 <= g.y <= 2100) && j == JalaliDate(tm)
    ensures Shown(c) != tm
  {
    hide StoredJalali, ToGregorian, ValidJalali;
    var seen := Date(c.year + 2000, c.month, c.date);
    DateLost(j, g, seen);
    SameDate(StoredJalali(seen), c, tm);
  }

  /** The clock returns what was written exactly when the Gregorian year is one that M2Sh accepts. */
  lemma WriteThenRead(tm: Tm, day: Byte)
    requires ValidTm(tm) && day < 8
    ensures Convertible(tm)
    ensures ReadBack(Registers(Written(tm, day))) == tm <==> 2000 <= ToGregorian(JalaliDate(tm)).y <= 2100
  {
    hide StoredJalali, ToGregorian, GregorianDate, ValidGregorian, ValidJalali, Registers, FromRegisters, Convertible, Stored, Shown;
    ValidIsConvertible(tm);
    var g := ToGregorian(JalaliDate(tm));
    if 2000 <= g.y <= 2100 {
      MonthDays(g);
      StoredFields(g, tm, day);
      ReadBackOf(g, tm, day);
      DateSurvives(JalaliDate(tm), g);
    } else {
      LostOnReading(JalaliDate(tm), g, FromRegisters(Registers(Written(tm, day))), tm);
    }
  }

  // ---------- the chip's own layout ----------

  /** The two decimal digits of a number, the tens in the upper nibble. */
  predicate IsDigits(b: Byte, n: int) { 0 <= n < 100 && b / 16 == n / 10 && b % 16 == n % 10 }

  lemma DigitsOf(v: Byte)
    requires v < 160
    ensures IsDigits(Bcd(v), v) <==> v < 100
  {
    BcdNibbles(v);
  }

  /** Where the chip keeps what: seconds, minutes, hours, day of the week, date, month and year, in this
      order and in decimal digits; only the year 100 has none. */
  lemma ChipLayout(c: Clock)
    requires c.second < 60 && c.minute < 60 && c.hour < 24 && c.day < 8 && c.date < 40 && c.month < 20 && c.year <= 100 && !c.h12
    ensures var r := Registers(c);
            && IsDigits(r[0], c.second) && IsDigits(r[1], c.minute) && IsDigits(r[2], c.hour) && r[3] == c.day
            && IsDigits(r[4], c.date) && IsDigits(r[5], c.month)
            && (IsDigits(r[6], c.year) <==> c.year < 100) && (c.year == 100 ==> r[6] == 0xA0)
  {
    hide IsDigits;
    DigitsOf(c.second);
    DigitsOf(c.minute);
    DigitsOf(c.hour);
    DigitsOf(c.date);
    DigitsOf(c.month);
    DigitsOf(c.year);
  }

  /** What a write leaves in the chip for a valid time of a year that M2Sh accepts: the clock time and the
      Gregorian date, each in its own register. */
  lemma WrittenLayout(tm: Tm, day: Byte)
    requires ValidTm(tm) && day < 8 && 2000 <= ToGregorian(JalaliDate(tm)).y <= 2100
    ensures Convertible(tm)
    ensures var r, g := Registers(Written(tm, day)), ToGregorian(JalaliDate(tm));
            && IsDigits(r[0], tm.sec) && IsDigits(r[1], tm.min) && IsDigits(r[2], tm.hour) && r[3] == day
            && IsDigits(r[4], g.d) && IsDigits(r[5], g.m) && (IsDigits(r[6], g.y - 2000) <==> g.y < 2100)
  {
    hide ToGregorian, GregorianDate, ValidGregorian, ValidJalali, Registers, Convertible, Stored, IsDigits;
    ValidIsConvertible(tm);
    var g := ToGregorian(JalaliDate(tm));
    MonthDays(g);
    StoredFields(g, tm, day);
    ChipLayout(Stored(g, tm, day));
  }
}
