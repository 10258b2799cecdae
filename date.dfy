/** The date engine: a calendar date packed into one signed 32-bit word,
    its constructors (calendar, ordinal, ISO week and Julian day forms), its
    accessors, and the arithmetic over it. */
module Dates {
  import opened Ints
  import opened Wrappers
  import opened Calendar
  import opened Durations

  // ---------------------------------------------------------------------
  // Representation
  // ---------------------------------------------------------------------

  /** The packed word: the year shifted left by 10 bits, the leap-year flag
      at bit 9 and the ordinal in the low 9 bits. The shifts and masks of
      the two's-complement word are written arithmetically: `v >> k` is
      floor division by 2^k, `v & 0x1FF` the Euclidean remainder by 512,
      and the `|` of the three disjoint bit fields is their sum. */
  datatype PackedDate = PackedDate(value: int)

  /** `value >> 10` */
  function YearField(value: int): int { value / 1024 }

  /** `(value >> 9) & 1` */
  function LeapField(value: int): int { (value / 512) % 2 }

  /** `value & 0x1FF` */
  function OrdinalField(value: int): int { value % 512 }

  /** A year in range with an ordinal that exists in it. */
  predicate ValidParts(year: int, ordinal: int) {
    MIN_YEAR <= year <= MAX_YEAR && 1 <= ordinal <= DaysInYear(year)
  }

  predicate ValidValue(value: int) {
    && ValidParts(YearField(value), OrdinalField(value))
    && (LeapField(value) == 1 <==> IsLeapYear(YearField(value)))
  }

  /** Every `Date` value keeps the invariant of the packed word. */
  type Date = d: PackedDate | ValidValue(d.value) witness PackedDate(1970 * 1024 + 1)

  /** `(year << 10) | ((is_leap_year as i32) << 9) | ordinal as i32` */
  function Pack(year: int, isLeapYear: bool, ordinal: int): int {
    year * 1024 + (if isLeapYear then 512 else 0) + ordinal
  }

  lemma PackFields(year: int, isLeapYear: bool, ordinal: int)
    requires 0 <= ordinal < 512
    ensures YearField(Pack(year, isLeapYear, ordinal)) == year
    ensures OrdinalField(Pack(year, isLeapYear, ordinal)) == ordinal
    ensures LeapField(Pack(year, isLeapYear, ordinal)) == if isLeapYear then 1 else 0
  {
    var v := Pack(year, isLeapYear, ordinal);
    var l := if isLeapYear then 1 else 0;
    assert v / 1024 == year by {
      assert v == 1024 * year + (512 * l + ordinal) && 0 <= 512 * l + ordinal < 1024;
    }
    assert v / 512 == 2 * year + l && v % 512 == ordinal by {
      assert v == 512 * (2 * year + l) + ordinal;
    }
    assert (2 * year + l) % 2 == l;
  }

  /** The safety contract of the unchecked constructor: the ordinal exists in
      the year and the flag is the year's leap status. */
  function FromParts(year: int, isLeapYear: bool, ordinal: int): (d: Date)
    requires ValidParts(year, ordinal) && isLeapYear == IsLeapYear(year)
    ensures Year(d) == year && Ordinal(d) == ordinal
    ensures IsInLeapYear(d) == isLeapYear
  {
    PackFields(year, isLeapYear, ordinal);
    PackedDate(Pack(year, isLeapYear, ordinal))
  }

  function FromOrdinalDateUnchecked(year: int, ordinal: int): (d: Date)
    requires ValidParts(year, ordinal)
    ensures Year(d) == year && Ordinal(d) == ordinal
  {
    FromParts(year, IsLeapYear(year), ordinal)
  }

  const UNIX_EPOCH: Date := FromOrdinalDateUnchecked(1970, 1)
  const MIN: Date := FromOrdinalDateUnchecked(MIN_YEAR, 1)
  const MAX: Date := FromOrdinalDateUnchecked(MAX_YEAR, DaysInYear(MAX_YEAR))

  function IsInLeapYear(d: Date): (b: bool)
    ensures b == IsLeapYear(Year(d))
  {
    LeapField(d.value) == 1
  }

  function Year(d: Date): (y: i32)
    ensures MIN_YEAR <= y <= MAX_YEAR
  {
    YearField(d.value)
  }

  function Ordinal(d: Date): (o: u16)
    ensures 1 <= o <= DaysInYear(Year(d))
  {
    OrdinalField(d.value)
  }

  function ToOrdinalDate(d: Date): (r: (i32, u16))
    ensures ValidParts(r.0, r.1)
    ensures FromOrdinalDateUnchecked(r.0, r.1) == d
  {
    DateFromFields(d);
    (Year(d), Ordinal(d))
  }

  /** The packed word is determined by the year and the ordinal. */
  lemma DateFromFields(d: Date)
    ensures d.value == Pack(Year(d), IsInLeapYear(d), Ordinal(d))
    ensures d == FromOrdinalDateUnchecked(Year(d), Ordinal(d))
  {
    var v := d.value;
    assert v == 1024 * (v / 1024) + v % 1024;
    assert v % 1024 == 512 * ((v % 1024) / 512) + v % 512;
    assert (v % 1024) / 512 == (v / 512) % 2;
  }

  lemma DatesEqualByFields(a: Date, b: Date)
    requires Year(a) == Year(b) && Ordinal(a) == Ordinal(b)
    ensures a == b
  {
    DateFromFields(a);
    DateFromFields(b);
  }

  /** The packed word of a valid date fits an i32 and is never zero. */
  lemma {:induction false} PackedValueInvariant(d: Date)
    ensures d.value != 0
    ensures I32_MIN <= d.value <= I32_MAX
    ensures YearField(d.value) == Year(d) && OrdinalField(d.value) == Ordinal(d)
    ensures LeapField(d.value) == 1 <==> IsLeapYear(Year(d))
  {
    DateFromFields(d);
  }

  /** Comparing packed words is comparing (year, ordinal) lexicographically. */
  lemma {:induction false} PackedOrderIsLexicographic(a: Date, b: Date)
    ensures a.value < b.value <==>
      Year(a) < Year(b) || (Year(a) == Year(b) && Ordinal(a) < Ordinal(b))
    ensures a.value == b.value <==> Year(a) == Year(b) && Ordinal(a) == Ordinal(b)
  {
    DateFromFields(a);
    DateFromFields(b);
  }

  // ---------------------------------------------------------------------
  // Julian day numbers
  // ---------------------------------------------------------------------

  /** The body of `to_julian_day`, on the year and ordinal fields. The year
      is made non-negative first, so Rust's truncating `/` is floor division. */
  function JulianDayOf(year: int, ordinal: int): int {
    var adjYear := year + 999_999;
    var century := adjYear / 100;
    var daysBeforeYear := 1461 * adjYear / 4 - century + century / 4;
    daysBeforeYear + ordinal - 363_521_075
  }

  const JULIAN_DAY_MIN: int := JulianDayOf(MIN_YEAR, 1)
  const JULIAN_DAY_MAX: int := JulianDayOf(MAX_YEAR, DaysInYear(MAX_YEAR))

  lemma JulianDayBounds()
    ensures JULIAN_DAY_MIN == -1_930_999 && JULIAN_DAY_MAX == 5_373_484
    ensures JulianDayOf(1970, 1) == 2_440_588
  {
  }

  /** The day count between consecutive New Year's days is the year length. */
  lemma DaysBeforeYearStep(year: int)
    ensures DaysBeforeYear(year + 1) == DaysBeforeYear(year) + DaysInYear(year)
  {
    var y := year - 1;
    var d4, d100, d400 := year / 4 - y / 4, year / 100 - y / 100, year / 400 - y / 400;
    assert DaysBeforeYear(year + 1) - DaysBeforeYear(year) == 365 + d4 - d100 + d400;
    MultipleStep4(year);
    MultipleStep100(year);
    MultipleStep400(year);
    MultipleOf400Of100(year);
    MultipleOf100Of4(year);
  }

  /** A multiple of 400 is one of 100. */
  lemma MultipleOf400Of100(x: int)
    ensures x % 400 == 0 ==> x % 100 == 0
  {
    if x % 400 == 0 {
      var q := x / 400;
      assert x == 100 * (4 * q) + 0;
    }
  }

  /** A multiple of 100 is one of 4. */
  lemma MultipleOf100Of4(x: int)
    ensures x % 100 == 0 ==> x % 4 == 0
  {
    if x % 100 == 0 {
      var p := x / 100;
      assert x == 4 * (25 * p) + 0;
    }
  }

  /** Passing a multiple of 4 (100, 400) raises the quotient by one. */
  lemma MultipleStep4(x: int)
    ensures x / 4 - (x - 1) / 4 == if x % 4 == 0 then 1 else 0
  {
    var q, r := (x - 1) / 4, (x - 1) % 4;
    assert x == 4 * q + r + 1;
    if r == 3 {
      assert x / 4 == q + 1 && x % 4 == 0;
    } else {
      assert x / 4 == q && x % 4 == r + 1;
    }
  }

  lemma MultipleStep100(x: int)
    ensures x / 100 - (x - 1) / 100 == if x % 100 == 0 then 1 else 0
  {
    var q, r := (x - 1) / 100, (x - 1) % 100;
    assert x == 100 * q + r + 1;
    if r == 99 {
      assert x / 100 == q + 1 && x % 100 == 0;
    } else {
      assert x / 100 == q && x % 100 == r + 1;
    }
  }

  lemma MultipleStep400(x: int)
    ensures x / 400 - (x - 1) / 400 == if x % 400 == 0 then 1 else 0
  {
    var q, r := (x - 1) / 400, (x - 1) % 400;
    assert x == 400 * q + r + 1;
    if r == 399 {
      assert x / 400 == q + 1 && x % 400 == 0;
    } else {
      assert x / 400 == q && x % 400 == r + 1;
    }
  }

  /** 10^6 years are 2500 whole 400-year cycles of 146097 days. */
  lemma DaysBeforeYearShift(year: int)
    ensures DaysBeforeYear(year + 1_000_000) == DaysBeforeYear(year) + 365_242_500
    ensures IsLeapYear(year + 1_000_000) == IsLeapYear(year)
  {
    var y := year - 1;
    assert (y + 1_000_000) / 4 == y / 4 + 250_000;
    assert (y + 1_000_000) / 100 == y / 100 + 10_000;
    assert (y + 1_000_000) / 400 == y / 400 + 2_500;
  }

  /** `to_julian_day` is the proleptic Gregorian day count, offset so that
      0001-01-01 is Julian day 1721426. */
  lemma JulianDayOfDaysBeforeYear(year: int, ordinal: int)
    requires year >= -999_999
    ensures JulianDayOf(year, ordinal) == DaysBeforeYear(year) + ordinal + 1_721_425
  {
    var a := year + 999_999;
    var y := year - 1;
    assert a == y + 1_000_000;
    assert 1461 * a / 4 == 365 * a + a / 4;
    assert a / 100 / 4 == a / 400;
    assert a / 4 == y / 4 + 250_000;
    assert a / 100 == y / 100 + 10_000;
    assert a / 400 == y / 400 + 2_500;
  }

  lemma DaysBeforeYearGrows(y1: int, y2: int)
    requires y1 <= y2
    ensures DaysBeforeYear(y2) - DaysBeforeYear(y1) >= 365 * (y2 - y1)
    decreases y2 - y1
  {
    if y1 < y2 {
      DaysBeforeYearGrows(y1, y2 - 1);
      DaysBeforeYearStep(y2 - 1);
    }
  }

  /** Julian day numbers follow (year, ordinal) order. */
  lemma {:induction false} JulianDayOfMonotone(y1: int, o1: int, y2: int, o2: int)
    requires ValidParts(y1, o1) && ValidParts(y2, o2)
    ensures JulianDayOf(y1, o1) < JulianDayOf(y2, o2) <==>
      y1 < y2 || (y1 == y2 && o1 < o2)
  {
    JulianDayOfDaysBeforeYear(y1, o1);
    JulianDayOfDaysBeforeYear(y2, o2);
    if y1 < y2 {
      DaysBeforeYearStep(y1);
      DaysBeforeYearGrows(y1 + 1, y2);
    } else if y2 < y1 {
      DaysBeforeYearStep(y2);
      DaysBeforeYearGrows(y2 + 1, y1);
    }
  }

  function ToJulianDay(d: Date): (j: i32)
    ensures JULIAN_DAY_MIN <= j <= JULIAN_DAY_MAX
    ensures j == JulianDayOf(Year(d), Ordinal(d))
  {
    JulianDayOfDaysBeforeYear(Year(d), Ordinal(d));
    JulianDayOfMonotone(MIN_YEAR, 1, Year(d), Ordinal(d));
    JulianDayOfMonotone(Year(d), Ordinal(d), MAX_YEAR, DaysInYear(MAX_YEAR));
    JulianDayOf(Year(d), Ordinal(d))
  }

  /** Ordering packed words is chronological order. */
  lemma {:induction false} PackedOrderIsChronological(a: Date, b: Date)
    ensures a.value < b.value <==> ToJulianDay(a) < ToJulianDay(b)
  {
    PackedOrderIsLexicographic(a, b);
    JulianDayOfMonotone(Year(a), Ordinal(a), Year(b), Ordinal(b));
  }

  /** Peter Baum's algorithm (the body of `from_julian_day_unchecked`),
      returning the year, its leap flag and the ordinal. `p2 as u32`
      truncates to the low 32 bits; every other intermediate fits its
      unsigned width for days in range (BaumIntermediatesFit). */
  function BaumDecode(julianDay: int): (int, bool, int) {
    var (c, nc) := BaumCentury(julianDay);
    var (z, ny) := BaumYearOfCentury(nc);
    BaumGregorian(c, z, ny)
  }

  /** The first division: the century `c` of the shifted calendar and the
      day `nc` within it. */
  function BaumCentury(julianDay: int): (int, int) {
    var s := 2_500;
    var k := 719_468 + 146_097 * s;
    var jd := julianDay - 2_440_588;
    var n := jd + k;
    var n1 := 4 * n + 3;
    (n1 / 146_097, n1 % 146_097 / 4)
  }

  /** The multiply-and-shift: the year `z` within the century and the day
      `ny` within the March-based year. */
  function BaumYearOfCentury(nc: int): (int, int) {
    var n2 := 4 * nc + 3;
    var p2 := 2_939_745 * n2;
    (p2 / 0x1_0000_0000, p2 % 0x1_0000_0000 / 2_939_745 / 4)
  }

  /** Back from the March-based year of the shifted calendar to the
      Gregorian year, its leap flag and the ordinal. */
  function BaumGregorian(c: int, z: int, ny: int): (int, bool, int) {
    var l := 400 * 2_500;
    var y := 100 * c + z;
    var j := ny >= 306;
    var yg := y - l + (if j then 1 else 0);
    var isLeapYear := IsLeapYear(yg);
    var ordinal := if j then ny - 305 else ny + 60 + (if isLeapYear then 1 else 0);
    (yg, isLeapYear, ordinal)
  }

  lemma BaumIntermediatesFit(julianDay: int)
    requires JULIAN_DAY_MIN <= julianDay <= JULIAN_DAY_MAX
    ensures var n := julianDay - 2_440_588 + 719_468 + 146_097 * 2_500;
      && 0 <= n && 4 * n + 3 < 0x1_0000_0000
      && 2_939_745 * (4 * ((4 * n + 3) % 146_097 / 4) + 3) < 0x1_0000_0000_0000_0000
  {
  }

  /** Splitting a March-based year count into centuries: the first step of
      Baum's algorithm recovers the century and the day within it. */
  lemma {:induction false} CenturyStep(y: int, dm: int)
    requires y >= 0 && 0 <= dm
    requires dm <= 364 + (if IsLeapYear(y + 1) then 1 else 0)
    ensures var n1 := 4 * (DaysBeforeYear(y + 1) + dm) + 3;
      && n1 / 146_097 == y / 100
      && n1 % 146_097 / 4 == 365 * (y % 100) + (y % 100) / 4 + dm
  {
    var c := y / 100;
    var z := y % 100;
    assert y == 100 * c + z;
    DaysBeforeCentury(c, z);
    var m := 365 * z + z / 4 + dm;
    var rem := 4 * m + 3 - c % 4;
    CenturyRemainderBound(c, z, dm);
    var n1 := 4 * (DaysBeforeYear(y + 1) + dm) + 3;
    assert n1 == 146_097 * c + rem by {
      assert 4 * (c / 4) == c - c % 4;
    }
    assert n1 / 146_097 == c && n1 % 146_097 == rem;
    assert rem / 4 == m;
  }

  /** The days before a year counted as whole centuries and the years of
      the century after them. */
  lemma DaysBeforeCentury(c: int, z: int)
    requires c >= 0 && 0 <= z < 100
    ensures DaysBeforeYear(100 * c + z + 1) == 36524 * c + c / 4 + 365 * z + z / 4
  {
    var y := 100 * c + z;
    assert y / 100 == c;
    assert y / 4 == 25 * c + z / 4 by {
      assert y == 4 * (25 * c + z / 4) + z % 4;
    }
    assert y / 400 == c / 4 by {
      assert y == 400 * (c / 4) + (100 * (c % 4) + z);
    }
  }

  /** The day within the century, in quarter days, stays below a 400-year
      cycle's 146097 days. */
  lemma CenturyRemainderBound(c: int, z: int, dm: int)
    requires c >= 0 && 0 <= z < 100 && 0 <= dm
    requires dm <= 364 + (if IsLeapYear(100 * c + z + 1) then 1 else 0)
    ensures 0 <= 4 * (365 * z + z / 4 + dm) + 3 - c % 4 < 146_097
  {
    if z == 99 {
      assert 100 * c + z + 1 == 100 * (c + 1);
      assert IsLeapYear(100 * (c + 1)) ==> (c + 1) % 4 == 0;
    } else {
      assert (100 * c + z + 1) % 100 != 0;
    }
  }

  /** The multiply-and-shift by 2939745 / 2^32 divides by 1461 (a four-year
      cycle in quarter days), recovering the year within the century and
      the day within the March-based year. 2939745 * 1461 == 2^32 + 149. */
  lemma {:induction false} YearOfCenturyStep(z: int, dm: int)
    requires 0 <= z <= 99 && 0 <= dm
    requires dm <= 364 || (dm == 365 && z % 4 == 3)
    ensures var p2 := 2_939_745 * (4 * (365 * z + z / 4 + dm) + 3);
      && p2 / 0x1_0000_0000 == z
      && p2 % 0x1_0000_0000 / 2_939_745 / 4 == dm
  {
    var r := 4 * dm + 3 - z % 4;
    assert 4 * (z / 4) == z - z % 4;
    assert 4 * (365 * z + z / 4 + dm) + 3 == 1461 * z + r;
    assert 0 <= r < 1461;
    var big := 149 * z + 2_939_745 * r;
    assert 2_939_745 * (1461 * z + r) == 0x1_0000_0000 * z + big;
    assert 0 <= big < 0x1_0000_0000;
    assert big / 2_939_745 == r;
    assert r / 4 == dm;
  }

  /** A date as a day of a March-based year of the shifted calendar (years
      counted from 10^6 years before year 0, starting on March 1st): the
      day count Baum's algorithm starts from. */
  lemma {:induction false} MarchBasedDay(year: int, ordinal: int) returns (y: int, dm: int)
    requires ValidParts(year, ordinal)
    ensures y >= 0 && 0 <= dm <= 364 + (if IsLeapYear(y + 1) then 1 else 0)
    ensures JulianDayOf(year, ordinal) - 2_440_588 + 719_468 + 146_097 * 2_500
      == DaysBeforeYear(y + 1) + dm
    ensures dm >= 306 ==> y - 1_000_000 + 1 == year && dm - 305 == ordinal
    ensures dm < 306 ==>
      y - 1_000_000 == year && dm + 60 + (if IsLeapYear(year) then 1 else 0) == ordinal
  {
    var l := 1_000_000;
    var leap := if IsLeapYear(year) then 1 else 0;
    JulianDayOfDaysBeforeYear(year, ordinal);
    DaysBeforeYearShift(year);
    if ordinal <= 59 + leap {
      y, dm := year + l - 1, ordinal + 305;
    } else {
      y, dm := year + l, ordinal - 60 - leap;
      DaysBeforeYearStep(year + l);
    }
  }

  /** Baum's algorithm inverts `to_julian_day` on every valid date. */
  lemma {:induction false} BaumInvertsJulianDay(year: int, ordinal: int)
    requires ValidParts(year, ordinal)
    ensures BaumDecode(JulianDayOf(year, ordinal)) == (year, IsLeapYear(year), ordinal)
  {
    var y, dm := MarchBasedDay(year, ordinal);
    var jd := JulianDayOf(year, ordinal);
    var n := jd - 2_440_588 + 719_468 + 146_097 * 2_500;
    CenturyStep(y, dm);
    var nc := 365 * (y % 100) + (y % 100) / 4 + dm;
    assert BaumCentury(jd) == (y / 100, nc);
    LastDayOfMarchYear(y, dm);
    YearOfCenturyStep(y % 100, dm);
    assert BaumYearOfCentury(nc) == (y % 100, dm);
    assert y == 100 * (y / 100) + y % 100;
  }

  /** A March-based year of 366 days ends before a leap February, so its
      year within the century is 3 modulo 4. */
  lemma LastDayOfMarchYear(y: int, dm: int)
    requires y >= 0 && 0 <= dm <= 364 + (if IsLeapYear(y + 1) then 1 else 0)
    ensures dm <= 364 || (dm == 365 && (y % 100) % 4 == 3)
  {
    if dm == 365 {
      assert (y + 1) % 4 == 0;
      assert y == 100 * (y / 100) + y % 100;
    }
  }

  /** Every Julian day in range is the day number of some valid date. */
  lemma {:induction false} JulianDaySurjective(julianDay: int)
    requires JULIAN_DAY_MIN <= julianDay <= JULIAN_DAY_MAX
    ensures exists y, o :: ValidParts(y, o) && JulianDayOf(y, o) == julianDay
    decreases julianDay - JULIAN_DAY_MIN
  {
    if julianDay == JULIAN_DAY_MIN {
      assert ValidParts(MIN_YEAR, 1) && JulianDayOf(MIN_YEAR, 1) == julianDay;
    } else {
      JulianDaySurjective(julianDay - 1);
      var y, o :| ValidParts(y, o) && JulianDayOf(y, o) == julianDay - 1;
      JulianDayOfDaysBeforeYear(y, o);
      if o < DaysInYear(y) {
        JulianDayOfDaysBeforeYear(y, o + 1);
        assert ValidParts(y, o + 1) && JulianDayOf(y, o + 1) == julianDay;
      } else {
        assert y < MAX_YEAR;
        DaysBeforeYearStep(y);
        JulianDayOfDaysBeforeYear(y + 1, 1);
        assert ValidParts(y + 1, 1) && JulianDayOf(y + 1, 1) == julianDay;
      }
    }
  }

  lemma BaumDecodesEveryDay(julianDay: int)
    requires JULIAN_DAY_MIN <= julianDay <= JULIAN_DAY_MAX
    ensures var (y, leap, o) := BaumDecode(julianDay);
      ValidParts(y, o) && leap == IsLeapYear(y) && JulianDayOf(y, o) == julianDay
  {
    JulianDaySurjective(julianDay);
    var y, o :| ValidParts(y, o) && JulianDayOf(y, o) == julianDay;
    BaumInvertsJulianDay(y, o);
  }

  function FromJulianDayUnchecked(julianDay: int): (d: Date)
    requires JULIAN_DAY_MIN <= julianDay <= JULIAN_DAY_MAX
    ensures ToJulianDay(d) == julianDay
  {
    BaumDecodesEveryDay(julianDay);
    var (year, isLeapYear, ordinal) := BaumDecode(julianDay);
    FromParts(year, isLeapYear, ordinal)
  }

  /** Fails, naming the Julian day and its bounds, outside the day numbers
      of MIN and MAX. */
  function FromJulianDay(julianDay: i32): (r: Result<Date, ComponentRange>)
    ensures r.Ok? <==> JULIAN_DAY_MIN <= julianDay <= JULIAN_DAY_MAX
    ensures r.Ok? ==> ToJulianDay(r.value) == julianDay
    ensures r.Err? ==>
      r.error == ComponentRange("julian_day", JULIAN_DAY_MIN, JULIAN_DAY_MAX, julianDay, None)
  {
    if JULIAN_DAY_MIN <= julianDay <= JULIAN_DAY_MAX then Ok(FromJulianDayUnchecked(julianDay))
    else Err(ComponentRange("julian_day", JULIAN_DAY_MIN, JULIAN_DAY_MAX, julianDay, None))
  }

  /** The Julian day round trip, and with it injectivity of `to_julian_day`. */
  lemma {:induction false} JulianDayRoundTrip(d: Date)
    ensures FromJulianDay(ToJulianDay(d)) == Ok(d)
  {
    BaumInvertsJulianDay(Year(d), Ordinal(d));
    DateFromFields(d);
  }

  lemma {:induction false} JulianDayInjective(a: Date, b: Date)
    requires ToJulianDay(a) == ToJulianDay(b)
    ensures a == b
  {
    JulianDayRoundTrip(a);
    JulianDayRoundTrip(b);
  }

  // ---------------------------------------------------------------------
  // Calendar dates
  // ---------------------------------------------------------------------

  /** Days in the months before `month`, in a common or a leap year: the
      table `DAYS_CUMULATIVE_COMMON_LEAP` of `from_calendar_date`. */
  function DaysBeforeMonth(isLeapYear: bool, month: Month): (n: int)
    ensures 0 <= n <= 335
  {
    var table := [
      [0, 31, 59, 90, 120, 151, 181, 212, 243, 273, 304, 334],
      [0, 31, 60, 91, 121, 152, 182, 213, 244, 274, 305, 335]];
    table[if isLeapYear then 1 else 0][month.Number() - 1]
  }

  /** The table is the running sum of the month lengths, ending at the year length. */
  lemma DaysBeforeMonthSumsLengths(year: int, month: Month)
    ensures month != December ==>
      DaysBeforeMonth(IsLeapYear(year), MonthFromNumber(month.Number() + 1).value)
      == DaysBeforeMonth(IsLeapYear(year), month) + month.Length(year)
    ensures month == December ==>
      DaysBeforeMonth(IsLeapYear(year), month) + month.Length(year) == DaysInYear(year)
  {
  }

  /** The multiply-and-shift month and day of `month`, `day` and
      `to_calendar_date`: January and February are counted directly, later
      months from March 1st, where `(o * 268 + 8031) >> 13` is the month and
      `(m * 3917 - 3866) >> 7` the days before it. Returns the month number
      and the day. */
  function MonthDayOfOrdinal(isLeapYear: bool, ordinal: int): (int, int)
    requires 1 <= ordinal
  {
    var janFebLen := 59 + (if isLeapYear then 1 else 0);
    var (monthAdj, ordinalAdj) := if ordinal <= janFebLen then (0, 0) else (2, janFebLen);
    var o := ordinal - ordinalAdj;
    var month := (o * 268 + 8031) / 8192;
    var daysInPrecedingMonths := (month * 3917 - 3866) / 128;
    (month + monthAdj, o - daysInPrecedingMonths)
  }

  lemma ShiftRight13Is(x: int, q: int)
    requires 8192 * q <= x < 8192 * q + 8192
    ensures x / 8192 == q
  {
  }

  lemma ShiftRight7Is(x: int, q: int)
    requires 128 * q <= x < 128 * q + 128
    ensures x / 128 == q
  {
  }

  /** The shifts of the count, month by month: month `m` of the count
      (January = 1 before March, March = 1 from then on) covers the days
      after `before` up to `before + length`. */
  lemma MonthShift(isLeapYear: bool, ordinal: int, m: int, before: int, length: int)
    requires 1 <= ordinal
    requires var janFebLen := 59 + (if isLeapYear then 1 else 0);
      var o := if ordinal <= janFebLen then ordinal else ordinal - janFebLen;
      && 1 <= m <= 10 && before < o <= before + length
      && 8192 * m <= before * 268 + 268 + 8031
      && (before + length) * 268 + 8031 < 8192 * (m + 1)
      && 128 * before <= m * 3917 - 3866 < 128 * (before + 1)
    ensures var janFebLen := 59 + (if isLeapYear then 1 else 0);
      MonthDayOfOrdinal(isLeapYear, ordinal) ==
        if ordinal <= janFebLen then (m, ordinal - before)
        else (m + 2, ordinal - janFebLen - before)
  {
    var janFebLen := 59 + (if isLeapYear then 1 else 0);
    var o := if ordinal <= janFebLen then ordinal else ordinal - janFebLen;
    ShiftRight13Is(o * 268 + 8031, m);
    ShiftRight7Is(m * 3917 - 3866, before);
  }

  /** The formula recovers the month and day of every calendar date. */
  lemma {:induction false} MonthDayOfOrdinalCorrect(year: int, month: Month, day: int)
    requires 1 <= day <= month.Length(year)
    ensures var leap := IsLeapYear(year);
      MonthDayOfOrdinal(leap, DaysBeforeMonth(leap, month) + day) == (month.Number(), day)
  {
    var leap := IsLeapYear(year);
    var l := if leap then 1 else 0;
    var o := DaysBeforeMonth(leap, month) + day;
    match month
    case January => MonthShift(leap, o, 1, 0, 31);
    case February => MonthShift(leap, o, 2, 31, 28 + l);
    case March => MonthShift(leap, o, 1, 0, 31);
    case April => MonthShift(leap, o, 2, 31, 30);
    case May => MonthShift(leap, o, 3, 61, 31);
    case June => MonthShift(leap, o, 4, 92, 30);
    case July => MonthShift(leap, o, 5, 122, 31);
    case August => MonthShift(leap, o, 6, 153, 31);
    case September => MonthShift(leap, o, 7, 184, 30);
    case October => MonthShift(leap, o, 8, 214, 31);
    case November => MonthShift(leap, o, 9, 245, 30);
    case December => MonthShift(leap, o, 10, 275, 31);
  }

  /** Every day of the year falls in exactly one month. */
  lemma {:induction false} OrdinalInMonth(year: int, ordinal: int) returns (month: Month, day: int)
    requires 1 <= ordinal <= DaysInYear(year)
    ensures 1 <= day <= month.Length(year)
    ensures DaysBeforeMonth(IsLeapYear(year), month) + day == ordinal
  {
    var leap := IsLeapYear(year);
    var m := 1;
    while m < 12 && DaysBeforeMonth(leap, MonthFromNumber(m + 1).value) < ordinal
      invariant 1 <= m <= 12
      invariant DaysBeforeMonth(leap, MonthFromNumber(m).value) < ordinal
      decreases 12 - m
    {
      m := m + 1;
    }
    month := MonthFromNumber(m).value;
    day := ordinal - DaysBeforeMonth(leap, month);
    DaysBeforeMonthSumsLengths(year, month);
  }

  lemma MonthDaysUnique(year: int, m1: Month, d1: int, m2: Month, d2: int)
    requires 1 <= d1 <= m1.Length(year) && 1 <= d2 <= m2.Length(year)
    requires DaysBeforeMonth(IsLeapYear(year), m1) + d1 == DaysBeforeMonth(IsLeapYear(year), m2) + d2
    ensures m1 == m2 && d1 == d2
  {
    MonthDayOfOrdinalCorrect(year, m1, d1);
    MonthDayOfOrdinalCorrect(year, m2, d2);
    assert (m1.Number(), d1) == (m2.Number(), d2);
    MonthNumbering(m1, m2);
  }

  /** The formula lands in the month table: the month and day it gives add
      up to the ordinal. */
  lemma {:induction false} MonthDayOfOrdinalInTable(year: int, ordinal: int)
    requires 1 <= ordinal <= DaysInYear(year)
    ensures var (m, day) := MonthDayOfOrdinal(IsLeapYear(year), ordinal);
      && 1 <= m <= 12
      && 1 <= day <= MonthFromNumber(m).value.Length(year)
      && DaysBeforeMonth(IsLeapYear(year), MonthFromNumber(m).value) + day == ordinal
  {
    var month, day := OrdinalInMonth(year, ordinal);
    MonthDayOfOrdinalCorrect(year, month, day);
    assert MonthFromNumber(month.Number()) == Some(month);
  }

  /** `to_calendar_date`: the year, and the month and day whose table
      entry and day add up to the ordinal. */
  function ToCalendarDate(d: Date): (r: (i32, Month, u8))
    ensures r.0 == Year(d)
    ensures 1 <= r.2 <= r.1.Length(r.0)
    ensures DaysBeforeMonth(IsLeapYear(r.0), r.1) + r.2 == Ordinal(d)
  {
    MonthDayOfOrdinalInTable(Year(d), Ordinal(d));
    var (m, day) := MonthDayOfOrdinal(IsInLeapYear(d), Ordinal(d));
    (Year(d), MonthFromNumber(m).value, day)
  }

  /** The month of the date, by the same multiply-and-shift as the day. */
  function Month(d: Date): (m: Month)
    ensures m == ToCalendarDate(d).1
  {
    MonthDayOfOrdinalInTable(Year(d), Ordinal(d));
    MonthFromNumber(MonthDayOfOrdinal(IsInLeapYear(d), Ordinal(d)).0).value
  }

  /** The day of the month, always in `1..=31`. */
  function Day(d: Date): (day: u8)
    ensures day == ToCalendarDate(d).2
    ensures 1 <= day <= 31
  {
    MonthDayOfOrdinalInTable(Year(d), Ordinal(d));
    MonthDayOfOrdinal(IsInLeapYear(d), Ordinal(d)).1
  }

  /** The error `ensure_ranged!(Year: year)` gives for an out-of-range year. */
  function YearOutOfRange(year: int): ComponentRange {
    ComponentRange("year", MIN_YEAR, MAX_YEAR, year, None)
  }

  /** Days 1 to 28 exist in every month; 29 to 31 only up to the month's length. */
  predicate DayExists(year: int, month: Month, day: int) {
    (1 <= day <= 28) || (29 <= day <= 31 && day <= month.Length(year))
  }

  function DayOutOfRange(year: int, month: Month, day: int): ComponentRange {
    ComponentRange("day", 1, month.Length(year), day, Some("for the given month and year"))
  }

  /** `from_calendar_date`: the year is checked first, then the day against
      the month's length in that year. */
  function FromCalendarDate(year: i32, month: Month, day: u8): (r: Result<Date, ComponentRange>)
    ensures r.Ok? <==> MIN_YEAR <= year <= MAX_YEAR && 1 <= day <= month.Length(year)
    ensures r.Ok? ==> ToCalendarDate(r.value) == (year, month, day)
    ensures !(MIN_YEAR <= year <= MAX_YEAR) ==> r == Err(YearOutOfRange(year))
    ensures MIN_YEAR <= year <= MAX_YEAR && r.Err? ==> r == Err(DayOutOfRange(year, month, day))
  {
    if !(MIN_YEAR <= year <= MAX_YEAR) then Err(YearOutOfRange(year))
    else if !DayExists(year, month, day) then Err(DayOutOfRange(year, month, day))
    else
      var leap := IsLeapYear(year);
      var d := FromOrdinalDateUnchecked(year, DaysBeforeMonth(leap, month) + day);
      MonthDaysUnique(year, ToCalendarDate(d).1, ToCalendarDate(d).2, month, day);
      Ok(d)
  }

  /** A date's calendar form builds the date back. */
  lemma {:induction false} CalendarDateRoundTrip(d: Date)
    ensures var (y, m, day) := ToCalendarDate(d); FromCalendarDate(y, m, day) == Ok(d)
  {
    var (y, m, day) := ToCalendarDate(d);
    DatesEqualByFields(FromCalendarDate(y, m, day).value, d);
  }

  // ---------------------------------------------------------------------
  // Ordinal dates
  // ---------------------------------------------------------------------

  function OrdinalOutOfRange(year: int, ordinal: int): ComponentRange {
    ComponentRange("ordinal", 1, DaysInYear(year), ordinal, Some("for the given year"))
  }

  /** `from_ordinal_date`: the year is checked first, then the ordinal;
      day 366 exists in leap years only. */
  function FromOrdinalDate(year: i32, ordinal: u16): (r: Result<Date, ComponentRange>)
    ensures r.Ok? <==> ValidParts(year, ordinal)
    ensures r.Ok? ==> ToOrdinalDate(r.value) == (year, ordinal)
    ensures !(MIN_YEAR <= year <= MAX_YEAR) ==> r == Err(YearOutOfRange(year))
    ensures MIN_YEAR <= year <= MAX_YEAR && r.Err? ==> r == Err(OrdinalOutOfRange(year, ordinal))
  {
    if !(MIN_YEAR <= year <= MAX_YEAR) then Err(YearOutOfRange(year))
    else if 1 <= ordinal <= 365 || (ordinal == 366 && IsLeapYear(year)) then
      Ok(FromOrdinalDateUnchecked(year, ordinal))
    else Err(OrdinalOutOfRange(year, ordinal))
  }

  /** A date's ordinal form builds the date back. */
  lemma {:induction false} OrdinalDateRoundTrip(d: Date)
    ensures FromOrdinalDate(Year(d), Ordinal(d)) == Ok(d)
  {
    DateFromFields(d);
  }

  /** `replace_ordinal`: the same year with another day of it. */
  function ReplaceOrdinal(d: Date, ordinal: u16): (r: Result<Date, ComponentRange>)
    ensures r.Ok? <==> 1 <= ordinal <= DaysInYear(Year(d))
    ensures r.Ok? ==> ToOrdinalDate(r.value) == (Year(d), ordinal)
    ensures r.Err? ==> r.error == OrdinalOutOfRange(Year(d), ordinal)
  {
    if 1 <= ordinal <= 365 || (ordinal == 366 && IsInLeapYear(d)) then
      Ok(FromOrdinalDateUnchecked(Year(d), ordinal))
    else Err(OrdinalOutOfRange(Year(d), ordinal))
  }

  // ---------------------------------------------------------------------
  // Weekdays and neighbouring days
  // ---------------------------------------------------------------------

  /** `weekday`: the Julian day's remainder by 7 (Rust's `%`, which keeps
      the sign of the dividend) names the weekday, day 0 being a Monday. */
  function WeekdayOf(d: Date): (w: Weekday)
    ensures w.NumberDaysFromMonday() == ToJulianDay(d) % 7
  {
    var jd := ToJulianDay(d);
    TruncRem7Congruent(jd);
    match TruncRem(jd, 7)
    case -6 | 1 => Tuesday
    case -5 | 2 => Wednesday
    case -4 | 3 => Thursday
    case -3 | 4 => Friday
    case -2 | 5 => Saturday
    case -1 | 6 => Sunday
    case _ => Monday
  }

  /** The weekday counted on from New Year's Day. */
  lemma WeekdayOfNewYear(d: Date)
    ensures WeekdayOf(d).NumberDaysFromMonday() == (NewYearWeekday(Year(d)) + Ordinal(d) - 1) % 7
  {
    JulianDayOfDaysBeforeYear(Year(d), Ordinal(d));
    WeekdayFromNewYear(ToJulianDay(d), DaysBeforeYear(Year(d)), Ordinal(d));
  }

  /** Julian day 1721426 (0001-01-01) is a Monday. */
  lemma WeekdayFromNewYear(jd: int, daysBeforeYear: int, ordinal: int)
    requires jd == daysBeforeYear + ordinal + 1_721_425
    ensures jd % 7 == (daysBeforeYear % 7 + ordinal - 1) % 7
  {
    assert jd == (daysBeforeYear + ordinal - 1) + 7 * 245_918;
  }

  /** Within a year the next day's packed word is one more. */
  lemma {:induction false} NextInYear(d: Date)
    requires Ordinal(d) < DaysInYear(Year(d))
    ensures ValidValue(d.value + 1)
    ensures YearField(d.value + 1) == Year(d) && OrdinalField(d.value + 1) == Ordinal(d) + 1
  {
    DateFromFields(d);
    PackFields(Year(d), IsInLeapYear(d), Ordinal(d) + 1);
    assert d.value + 1 == Pack(Year(d), IsInLeapYear(d), Ordinal(d) + 1);
  }

  lemma {:induction false} PreviousInYear(d: Date)
    requires Ordinal(d) > 1
    ensures ValidValue(d.value - 1)
    ensures YearField(d.value - 1) == Year(d) && OrdinalField(d.value - 1) == Ordinal(d) - 1
  {
    DateFromFields(d);
    PackFields(Year(d), IsInLeapYear(d), Ordinal(d) - 1);
    assert d.value - 1 == Pack(Year(d), IsInLeapYear(d), Ordinal(d) - 1);
  }

  /** December 31st and the next January 1st are consecutive Julian days. */
  lemma NewYearFollows(year: int)
    requires MIN_YEAR <= year < MAX_YEAR
    ensures JulianDayOf(year + 1, 1) == JulianDayOf(year, DaysInYear(year)) + 1
  {
    JulianDayOfDaysBeforeYear(year, DaysInYear(year));
    JulianDayOfDaysBeforeYear(year + 1, 1);
    DaysBeforeYearStep(year);
  }

  /** The last day of a year is MAX exactly in the last year. */
  lemma {:induction false} IsMax(d: Date)
    requires Ordinal(d) == DaysInYear(Year(d))
    ensures d.value == MAX.value <==> Year(d) == MAX_YEAR
    ensures d == MAX <==> Year(d) == MAX_YEAR
  {
    PackedOrderIsLexicographic(d, MAX);
  }

  lemma {:induction false} IsMin(d: Date)
    requires Ordinal(d) == 1
    ensures d.value == MIN.value <==> Year(d) == MIN_YEAR
    ensures d == MIN <==> Year(d) == MIN_YEAR
  {
    PackedOrderIsLexicographic(d, MIN);
  }

  /** `next_day`: the following day, or none after MAX. Within a year the
      packed word is incremented; the last day of a year moves to January
      1st of the next. */
  function NextDay(d: Date): (r: Option<Date>)
    ensures r.Some? <==> d != MAX
    ensures r.Some? ==> ToJulianDay(r.value) == ToJulianDay(d) + 1
  {
    if Ordinal(d) == 366 || (Ordinal(d) == 365 && !IsInLeapYear(d)) then
      IsMax(d);
      if d.value == MAX.value then None
      else
        NewYearFollows(Year(d));
        Some(FromOrdinalDateUnchecked(Year(d) + 1, 1))
    else
      NextInYear(d);
      var next: Date := PackedDate(d.value + 1);
      Some(next)
  }

  /** `previous_day`: the preceding day, or none before MIN. */
  function PreviousDay(d: Date): (r: Option<Date>)
    ensures r.Some? <==> d != MIN
    ensures r.Some? ==> ToJulianDay(r.value) == ToJulianDay(d) - 1
  {
    if Ordinal(d) != 1 then
      PreviousInYear(d);
      var prev: Date := PackedDate(d.value - 1);
      Some(prev)
    else
      IsMin(d);
      if d.value == MIN.value then None
      else
        NewYearFollows(Year(d) - 1);
        Some(FromOrdinalDateUnchecked(Year(d) - 1, DaysInYear(Year(d) - 1)))
  }

  /** `next_day` and `previous_day` undo each other. */
  lemma {:induction false} NextPreviousDayInverse(d: Date)
    ensures NextDay(d).Some? ==> PreviousDay(NextDay(d).value) == Some(d)
    ensures PreviousDay(d).Some? ==> NextDay(PreviousDay(d).value) == Some(d)
  {
    if NextDay(d).Some? {
      JulianDayInjective(PreviousDay(NextDay(d).value).value, d);
    }
    if PreviousDay(d).Some? {
      JulianDayInjective(NextDay(PreviousDay(d).value).value, d);
    }
  }

  /** The weekday advances by one from each day to the next. */
  lemma {:induction false} NextDayWeekday(d: Date)
    requires NextDay(d).Some?
    ensures WeekdayOf(NextDay(d).value).NumberDaysFromMonday()
      == (WeekdayOf(d).NumberDaysFromMonday() + 1) % 7
  {
    var next := NextDay(d).value;
    Mod7Shift(ToJulianDay(d), ToJulianDay(next), 1);
  }



  // ---------------------------------------------------------------------
  // ISO 8601 week dates
  // ---------------------------------------------------------------------

  function DaysInYearOf(isLeapYear: bool): int {
    if isLeapYear then 366 else 365
  }

  /** The weekday of a New Year's Day follows from the previous one and the
      length of the year between them. */
  lemma NewYearWeekdayStep(year: int)
    ensures NewYearWeekday(year + 1) == (NewYearWeekday(year) + DaysInYear(year)) % 7
  {
    DaysBeforeYearStep(year);
    Mod7Shift(DaysBeforeYear(year), DaysBeforeYear(year + 1), DaysInYear(year));
  }

  lemma Mod7Shift(a: int, b: int, c: int)
    requires b == a + c
    ensures b % 7 == (a % 7 + c) % 7
  {
  }

  lemma NewYearWeekdayBounds()
    ensures NewYearWeekday(MIN_YEAR) == 0 && NewYearWeekday(MAX_YEAR) == 4
    ensures !IsLeapYear(MAX_YEAR)
  {
  }

  /** The `jan_4` offset of `from_iso_week_date`, from Rust's remainder of
      the day count before the year. */
  function JanFourthOffset(raw: int): int {
    match TruncRem(raw, 7)
    case -6 | 1 => 8
    case -5 | 2 => 9
    case -4 | 3 => 10
    case -3 | 4 => 4
    case -2 | 5 => 5
    case -1 | 6 => 6
    case _ => 7
  }

  /** Monday of ISO week 1 is on ordinal `8 - jan_4` (January 4th always
      falls in week 1): the offset is the New Year's weekday, plus 7 when
      the year starts on Monday to Thursday. */
  function Jan4(newYearWeekday: int): int {
    if newYearWeekday <= 3 then newYearWeekday + 7 else newYearWeekday
  }

  lemma {:induction false} JanFourthOffsetClosedForm(year: int)
    ensures JanFourthOffset(DaysBeforeYear(year)) == Jan4(NewYearWeekday(year))
  {
    TruncRem7Congruent(DaysBeforeYear(year));
  }

  /** The ISO calendar, as arithmetic on the New Year's weekday `j` and the
      leap flag, going from (week, weekday) to a day: week 1 may start in
      the previous year and the last week may end in the next one. */
  lemma IsoWeekToDay(j: int, leap: bool, jp: int, leapPrev: bool, w: int, k: int)
    requires 0 <= j < 7 && 0 <= jp < 7 && j == (jp + DaysInYearOf(leapPrev)) % 7
    requires 1 <= k <= 7 && 1 <= w <= WeeksOfYearStarting(j, leap)
    ensures var o := 7 * w + k - Jan4(j);
      && (o <= 0 ==> var o2 := o + DaysInYearOf(leapPrev);
            w == 1 && 1 <= o2 && (jp + o2 - 1) % 7 + 1 == k && (o2 + 10 - k) / 7 == 53
            && WeeksOfYearStarting(jp, leapPrev) == 52)
      && (o > DaysInYearOf(leap) ==> var o2 := o - DaysInYearOf(leap);
            1 <= o2 <= 7 && ((j + DaysInYearOf(leap)) % 7 + o2 - 1) % 7 + 1 == k
            && (o2 + 10 - k) / 7 == 0 && w == WeeksOfYearStarting(j, leap))
      && (1 <= o <= DaysInYearOf(leap) ==> (j + o - 1) % 7 + 1 == k && (o + 10 - k) / 7 == w)
  {
  }

  /** The same arithmetic from a day to its (week, weekday). */
  lemma IsoDayToWeek(j: int, leap: bool, jp: int, leapPrev: bool, o: int)
    requires 0 <= j < 7 && 0 <= jp < 7 && j == (jp + DaysInYearOf(leapPrev)) % 7
    requires 1 <= o <= DaysInYearOf(leap)
    ensures var k := (j + o - 1) % 7 + 1; var week := (o + 10 - k) / 7;
      var weeks := WeeksOfYearStarting(j, leap);
      && 0 <= week <= 53
      && (week == 0 ==> (j != 0 &&
            var o2 := 7 * WeeksOfYearStarting(jp, leapPrev) + k - Jan4(jp);
            o2 > DaysInYearOf(leapPrev) && o2 - DaysInYearOf(leapPrev) == o))
      && (week == 53 && weeks == 52 ==> (!(j == 4 && !leap) &&
            var o2 := 7 + k - Jan4((j + DaysInYearOf(leap)) % 7);
            o2 <= 0 && o2 + DaysInYearOf(leap) == o))
      && (1 <= week && !(week == 53 && weeks == 52) ==>
            week <= weeks && 7 * week + k - Jan4(j) == o)
  {
  }

  /** The week number `iso_year_week` computes stays in range: week 0 never
      occurs in MIN_YEAR, an unreal week 53 never in MAX_YEAR. */
  lemma IsoWeekOfOrdinalBounds(d: Date)
    ensures var year := Year(d);
      var week := (Ordinal(d) + 10 - WeekdayOf(d).NumberFromMonday()) / 7;
      && 0 <= week <= 53
      && (week == 0 ==> MIN_YEAR < year)
      && (week == 53 && WeeksInYear(year) == 52 ==> year < MAX_YEAR)
      && (week != 0 && !(week == 53 && WeeksInYear(year) == 52) ==> week <= WeeksInYear(year))
  {
    var year := Year(d);
    WeekdayOfNewYear(d);
    NewYearWeekdayStep(year - 1);
    NewYearWeekdayBounds();
    IsoDayToWeek(NewYearWeekday(year), IsLeapYear(year),
      NewYearWeekday(year - 1), IsLeapYear(year - 1), Ordinal(d));
  }

  /** The ISO year and week of a date (`iso_year_week`): from the ordinal and
      the weekday; week 0 belongs to the previous year's last week, and a
      week 53 the year does not have is week 1 of the next. */
  function IsoYearWeek(d: Date): (r: (i32, u8))
    ensures MIN_YEAR <= r.0 <= MAX_YEAR && 1 <= r.1 <= WeeksInYear(r.0)
    ensures r.0 == Year(d) - 1 || r.0 == Year(d) || r.0 == Year(d) + 1
  {
    var year, ordinal := Year(d), Ordinal(d);
    var k := WeekdayOf(d).NumberFromMonday();
    IsoWeekOfOrdinalBounds(d);
    var week := (ordinal + 10 - k) / 7;
    if week == 0 then (year - 1, WeeksInYear(year - 1))
    else if week == 53 && WeeksInYear(year) == 52 then (year + 1, 1)
    else (year, week)
  }

  /** `iso_week`, always in `1..=53`. */
  function IsoWeek(d: Date): (w: u8)
    ensures 1 <= w <= 53
  {
    IsoYearWeek(d).1
  }

  /** `to_iso_week_date`: the ISO year, week and the weekday. */
  function ToIsoWeekDate(d: Date): (r: (i32, u8, Weekday))
    ensures (r.0, r.1) == IsoYearWeek(d) && r.2 == WeekdayOf(d)
  {
    var (year, week) := IsoYearWeek(d);
    (year, week, WeekdayOf(d))
  }

  function WeekOutOfRange(year: int, week: int): ComponentRange {
    ComponentRange("week", 1, WeeksInYear(year), week, Some("for the given year"))
  }

  /** Where the ordinal `7 * week + weekday - jan_4` of a valid ISO week
      date falls: at most nine days before the year, or at most a week into
      the next; the year before MIN_YEAR is never reached, the year after
      MAX_YEAR is reached by two days. */
  lemma {:induction false} IsoOrdinalPlacement(year: int, week: int, weekday: Weekday)
    requires MIN_YEAR <= year <= MAX_YEAR && 1 <= week <= WeeksInYear(year)
    ensures var o := 7 * week + weekday.NumberFromMonday() - Jan4(NewYearWeekday(year));
      && -9 <= o
      && (o <= 0 ==> MIN_YEAR < year && 1 <= o + DaysInYear(year - 1) <= DaysInYear(year - 1))
      && (o > DaysInYear(year) ==> 1 <= o - DaysInYear(year) <= 7)
      && (year == MAX_YEAR ==> (o > DaysInYear(year) <==> week == 52 && weekday.NumberFromMonday() >= 6))
  {
    NewYearWeekdayStep(year - 1);
    NewYearWeekdayBounds();
    IsoWeekToDay(NewYearWeekday(year), IsLeapYear(year), NewYearWeekday(year - 1),
      IsLeapYear(year - 1), week, weekday.NumberFromMonday());
  }

  /** `(ordinal as u16).wrapping_add(days)` for the small non-positive ordinals here. */
  lemma WrappingAddSmall(ordinal: int, days: int)
    requires -0x1_0000 < ordinal <= 0 && 0 < ordinal + days < 0x1_0000
    ensures (ordinal % 0x1_0000 + days) % 0x1_0000 == ordinal + days
  {
    if ordinal < 0 {
      assert ordinal % 0x1_0000 == ordinal + 0x1_0000;
    }
  }

  /** `from_iso_week_date` as written, returning the year and the ordinal it
      hands to the unchecked constructor. The ordinal always exists in that
      year, but the year is one past MAX_YEAR for the last two days of ISO
      week 52 of 9999. */
  function FromIsoWeekDateAsWritten(year: i32, week: u8, weekday: Weekday)
    : (r: Result<(int, int), ComponentRange>)
    ensures r.Ok? <==> MIN_YEAR <= year <= MAX_YEAR && 1 <= week <= WeeksInYear(year)
    ensures !(MIN_YEAR <= year <= MAX_YEAR) ==> r == Err(YearOutOfRange(year))
    ensures MIN_YEAR <= year <= MAX_YEAR && r.Err? ==> r == Err(WeekOutOfRange(year, week))
    ensures r.Ok? ==> 1 <= r.value.1 <= DaysInYear(r.value.0)
    ensures r.Ok? ==> MIN_YEAR <= r.value.0 <= MAX_YEAR + 1
    ensures r.Ok? ==> (r.value.0 == MAX_YEAR + 1 <==>
      year == MAX_YEAR && week == 52 && weekday.NumberFromMonday() >= 6)
  {
    if !(MIN_YEAR <= year <= MAX_YEAR) then Err(YearOutOfRange(year))
    else if !(1 <= week <= 52 || (week == 53 && week <= WeeksInYear(year))) then
      Err(WeekOutOfRange(year, week))
    else
      // `raw` is the day count before the year, with floor divisions.
      var raw := DaysBeforeYear(year);
      var jan4 := JanFourthOffset(raw);
      var ordinal := week * 7 + weekday.NumberFromMonday() - jan4;
      JanFourthOffsetClosedForm(year);
      IsoOrdinalPlacement(year, week, weekday);
      if ordinal <= 0 then
        WrappingAddSmall(ordinal, DaysInYear(year - 1));
        Ok((year - 1, (ordinal % 0x1_0000 + DaysInYear(year - 1)) % 0x1_0000))
      else if ordinal > DaysInYear(year) then
        Ok((year + 1, ordinal - DaysInYear(year)))
      else
        Ok((year, ordinal))
  }

  /** The last two days of ISO week 52 of 9999 (Saturday and Sunday,
      10000-01-01 and -02) are handed to the unchecked constructor with year
      10000, outside the representable range. */
  lemma IsoWeekDateBeyondMax()
    ensures FromIsoWeekDateAsWritten(MAX_YEAR, 52, Saturday) == Ok((MAX_YEAR + 1, 1))
    ensures FromIsoWeekDateAsWritten(MAX_YEAR, 52, Sunday) == Ok((MAX_YEAR + 1, 2))
    ensures WeeksInYear(MAX_YEAR) == 52
  {
    NewYearWeekdayBounds();
    JanFourthOffsetClosedForm(MAX_YEAR);
  }

  /** `from_iso_week_date`, corrected so that a week date past MAX is a
      year range error (year 10000) instead of an invalid date. */
  function FromIsoWeekDate(year: i32, week: u8, weekday: Weekday): (r: Result<Date, ComponentRange>)
    ensures r.Ok? <==>
      && MIN_YEAR <= year <= MAX_YEAR && 1 <= week <= WeeksInYear(year)
      && !(year == MAX_YEAR && week == 52 && weekday.NumberFromMonday() >= 6)
    ensures r.Ok? ==> ToIsoWeekDate(r.value) == (year, week, weekday)
    ensures !(MIN_YEAR <= year <= MAX_YEAR) ==> r == Err(YearOutOfRange(year))
    ensures MIN_YEAR <= year <= MAX_YEAR && !(1 <= week <= WeeksInYear(year)) ==>
      r == Err(WeekOutOfRange(year, week))
    ensures year == MAX_YEAR && week == 52 && weekday.NumberFromMonday() >= 6 ==>
      r == Err(YearOutOfRange(MAX_YEAR + 1))
  {
    match FromIsoWeekDateAsWritten(year, week, weekday)
    case Err(e) => Err(e)
    case Ok((y, o)) =>
      if y > MAX_YEAR then Err(YearOutOfRange(y))
      else
        FromIsoWeekDateInverse(year, week, weekday);
        Ok(FromOrdinalDateUnchecked(y, o))
  }

  /** `iso_year_week` on the New Year's weekday and the ordinal. */
  lemma {:induction false} IsoYearWeekOf(d: Date)
    ensures var k := (NewYearWeekday(Year(d)) + Ordinal(d) - 1) % 7 + 1;
      var week := (Ordinal(d) + 10 - k) / 7;
      && WeekdayOf(d).NumberFromMonday() == k
      && IsoYearWeek(d) ==
        if week == 0 then (Year(d) - 1, WeeksInYear(Year(d) - 1))
        else if week == 53 && WeeksInYear(Year(d)) == 52 then (Year(d) + 1, 1)
        else (Year(d), week)
  {
    WeekdayOfNewYear(d);
  }

  /** `from_iso_week_date` on the New Year's weekday. */
  lemma {:induction false} FromIsoWeekDateAsWrittenOf(year: int, week: int, weekday: Weekday)
    requires MIN_YEAR <= year <= MAX_YEAR && 1 <= week <= WeeksInYear(year)
    ensures var o := IsoOrdinal(year, week, weekday);
      FromIsoWeekDateAsWritten(year, week, weekday) == Ok(
        if o <= 0 then (year - 1, o + DaysInYear(year - 1))
        else if o > DaysInYear(year) then (year + 1, o - DaysInYear(year))
        else (year, o))
  {
    var o := IsoOrdinal(year, week, weekday);
    if o <= 0 {
      AsWrittenInPreviousYear(year, week, weekday);
    } else {
      AsWrittenFromYear(year, week, weekday);
    }
  }

  /** The previous-year branch, where `wrapping_add` does not wrap. */
  lemma AsWrittenInPreviousYear(year: int, week: int, weekday: Weekday)
    requires MIN_YEAR <= year <= MAX_YEAR && 1 <= week <= WeeksInYear(year)
    requires IsoOrdinal(year, week, weekday) <= 0
    ensures FromIsoWeekDateAsWritten(year, week, weekday)
         == Ok((year - 1, IsoOrdinal(year, week, weekday) + DaysInYear(year - 1)))
  {
    var o := IsoOrdinal(year, week, weekday);
    JanFourthOffsetClosedForm(year);
    IsoOrdinalPlacement(year, week, weekday);
    WrappingAddSmall(o, DaysInYear(year - 1));
    assert FromIsoWeekDateAsWritten(year, week, weekday)
      == Ok((year - 1, (o % 0x1_0000 + DaysInYear(year - 1)) % 0x1_0000));
  }

  /** The same-year and next-year branches. */
  lemma AsWrittenFromYear(year: int, week: int, weekday: Weekday)
    requires MIN_YEAR <= year <= MAX_YEAR && 1 <= week <= WeeksInYear(year)
    requires IsoOrdinal(year, week, weekday) > 0
    ensures var o := IsoOrdinal(year, week, weekday);
      FromIsoWeekDateAsWritten(year, week, weekday)
        == Ok(if o > DaysInYear(year) then (year + 1, o - DaysInYear(year)) else (year, o))
  {
    JanFourthOffsetClosedForm(year);
  }

  /** The date built from a valid ISO week date has that ISO week date. */
  lemma {:induction false} FromIsoWeekDateInverse(year: int, week: int, weekday: Weekday)
    requires MIN_YEAR <= year <= MAX_YEAR && 1 <= week <= WeeksInYear(year)
    requires FromIsoWeekDateAsWritten(year, week, weekday).value.0 <= MAX_YEAR
    ensures var (y, o) := FromIsoWeekDateAsWritten(year, week, weekday).value;
      ToIsoWeekDate(FromOrdinalDateUnchecked(y, o)) == (year, week, weekday)
  {
    FromIsoWeekDateAsWrittenOf(year, week, weekday);
    var (y, o) := FromIsoWeekDateAsWritten(year, week, weekday).value;
    IsoWeekDateOfPlacedDay(year, week, weekday, FromOrdinalDateUnchecked(y, o));
  }

  /** The day placed by `from_iso_week_date`'s arithmetic has the ISO week date
      it was placed from. */
  lemma {:induction false} IsoWeekDateOfPlacedDay(year: int, week: int, weekday: Weekday, d: Date)
    requires MIN_YEAR <= year <= MAX_YEAR && 1 <= week <= WeeksInYear(year)
    requires var o := IsoOrdinal(year, week, weekday);
      (Year(d), Ordinal(d)) ==
        if o <= 0 then (year - 1, o + DaysInYear(year - 1))
        else if o > DaysInYear(year) then (year + 1, o - DaysInYear(year))
        else (year, o)
    ensures ToIsoWeekDate(d) == (year, week, weekday)
  {
    var o := IsoOrdinal(year, week, weekday);
    if o <= 0 {
      PlacedInPreviousYear(year, week, weekday, d);
    } else if o > DaysInYear(year) {
      PlacedInNextYear(year, week, weekday, d);
    } else {
      PlacedInYear(year, week, weekday, d);
    }
    WeekdayNumbering(WeekdayOf(d), weekday);
  }

  /** The ordinal `from_iso_week_date` computes, before it is moved into the
      neighbouring year. */
  function IsoOrdinal(year: int, week: int, weekday: Weekday): int {
    7 * week + weekday.NumberFromMonday() - Jan4(NewYearWeekday(year))
  }

  lemma PlacedInPreviousYear(year: int, week: int, weekday: Weekday, d: Date)
    requires MIN_YEAR <= year <= MAX_YEAR && 1 <= week <= WeeksInYear(year)
    requires IsoOrdinal(year, week, weekday) <= 0
    requires Year(d) == year - 1
    requires Ordinal(d) == IsoOrdinal(year, week, weekday) + DaysInYear(year - 1)
    ensures IsoYearWeek(d) == (year, week)
    ensures WeekdayOf(d).NumberFromMonday() == weekday.NumberFromMonday()
  {
    NewYearWeekdayStep(year - 1);
    IsoWeekToDay(NewYearWeekday(year), IsLeapYear(year), NewYearWeekday(year - 1),
      IsLeapYear(year - 1), week, weekday.NumberFromMonday());
    IsoYearWeekOf(d);
  }

  lemma PlacedInNextYear(year: int, week: int, weekday: Weekday, d: Date)
    requires MIN_YEAR <= year <= MAX_YEAR && 1 <= week <= WeeksInYear(year)
    requires IsoOrdinal(year, week, weekday) > DaysInYear(year)
    requires Year(d) == year + 1
    requires Ordinal(d) == IsoOrdinal(year, week, weekday) - DaysInYear(year)
    ensures IsoYearWeek(d) == (year, week)
    ensures WeekdayOf(d).NumberFromMonday() == weekday.NumberFromMonday()
  {
    NextYearWeekArithmetic(year, week, weekday.NumberFromMonday(), Ordinal(d));
    IsoYearWeekOf(d);
    assert IsoYearWeek(d) == (Year(d) - 1, WeeksInYear(Year(d) - 1));
  }

  /** A week date past the end of its year falls in the last week, on the
      same weekday, counted from the next New Year's Day. */
  lemma NextYearWeekArithmetic(year: int, week: int, k: int, o: int)
    requires MIN_YEAR <= year <= MAX_YEAR && 1 <= week <= WeeksInYear(year) && 1 <= k <= 7
    requires o >= 1 && o == 7 * week + k - Jan4(NewYearWeekday(year)) - DaysInYear(year)
    ensures (NewYearWeekday(year + 1) + o - 1) % 7 + 1 == k
    ensures (o + 10 - k) / 7 == 0 && week == WeeksInYear(year)
  {
    NewYearWeekdayStep(year - 1);
    NewYearWeekdayStep(year);
    IsoWeekToDay(NewYearWeekday(year), IsLeapYear(year), NewYearWeekday(year - 1),
      IsLeapYear(year - 1), week, k);
  }

  lemma PlacedInYear(year: int, week: int, weekday: Weekday, d: Date)
    requires MIN_YEAR <= year <= MAX_YEAR && 1 <= week <= WeeksInYear(year)
    requires 1 <= IsoOrdinal(year, week, weekday) <= DaysInYear(year)
    requires Year(d) == year && Ordinal(d) == IsoOrdinal(year, week, weekday)
    ensures IsoYearWeek(d) == (year, week)
    ensures WeekdayOf(d).NumberFromMonday() == weekday.NumberFromMonday()
  {
    NewYearWeekdayStep(year - 1);
    IsoWeekToDay(NewYearWeekday(year), IsLeapYear(year), NewYearWeekday(year - 1),
      IsLeapYear(year - 1), week, weekday.NumberFromMonday());
    IsoYearWeekOf(d);
  }

  /** A day's ISO week date builds the day back. */
  lemma {:induction false} IsoWeekDateRoundTrip(d: Date)
    ensures var (y, w, wd) := ToIsoWeekDate(d); FromIsoWeekDate(y, w, wd) == Ok(d)
  {
    var (y, w, wd) := ToIsoWeekDate(d);
    if y == Year(d) - 1 {
      DayInPreviousIsoYear(d);
    } else if y == Year(d) + 1 {
      DayInNextIsoYear(d);
    } else {
      DayInIsoYear(d);
    }
    assert FromIsoWeekDateAsWritten(y, w, wd) == Ok((Year(d), Ordinal(d)));
    DateFromFields(d);
  }

  /** The ISO 8601 rule: a week belongs to the year that holds its Thursday,
      and its number is that Thursday's week within the year, so week 1 is
      the week of the year's first Thursday. `t` is the ordinal of the
      Thursday of d's week, counted from d's own New Year. */
  lemma IsoWeekIsThursdayWeek(d: Date)
    ensures var (y, w, wd) := ToIsoWeekDate(d);
      var t := Ordinal(d) - WeekdayOf(d).NumberFromMonday() + 4;
      && (y == Year(d) - 1 <==> t <= 0)
      && (y == Year(d) + 1 <==> t > DaysInYear(Year(d)))
      && (y == Year(d) ==> w == (t - 1) / 7 + 1)
      && (y == Year(d) - 1 ==> w == (t + DaysInYear(y) - 1) / 7 + 1)
      && (y == Year(d) + 1 ==> w == 1)
  {
    IsoYearWeekOf(d);
    var (y, w) := IsoYearWeek(d);
    ThursdayWeekOfYear(Year(d), Ordinal(d), WeekdayOf(d).NumberFromMonday(), y, w);
  }

  /** `IsoWeekIsThursdayWeek` for day `o` of `year` with weekday number `k`,
      `(y, w)` being what `iso_year_week` computes from them. */
  lemma ThursdayWeekOfYear(year: int, o: int, k: int, y: int, w: int)
    requires 1 <= o <= DaysInYear(year) && k == (NewYearWeekday(year) + o - 1) % 7 + 1
    requires var week := (o + 10 - k) / 7;
      (y, w) == if week == 0 then (year - 1, WeeksInYear(year - 1))
        else if week == 53 && WeeksInYear(year) == 52 then (year + 1, 1)
        else (year, week)
    ensures var t := o - k + 4;
      && (y == year - 1 <==> t <= 0)
      && (y == year + 1 <==> t > DaysInYear(year))
      && (y == year ==> w == (t - 1) / 7 + 1)
      && (y == year - 1 ==> w == (t + DaysInYear(year - 1) - 1) / 7 + 1)
      && (y == year + 1 ==> w == 1)
  {
    NewYearWeekdayStep(year - 1);
    ThursdayWeekArithmetic(year, o, k, NewYearWeekday(year - 1), IsLeapYear(year - 1),
      NewYearWeekday(year), IsLeapYear(year), y, w);
  }

  /** `IsoWeekIsThursdayWeek` on integers: `j0` and `j` are the New Year
      weekdays of the previous year and of the year, `k` the weekday number
      of day `o`, and `(y, w)` what `iso_year_week` computes from them. */
  lemma ThursdayWeekArithmetic(year: int, o: int, k: int, j0: int, leap0: bool, j: int, leap: bool, y: int, w: int)
    requires 0 <= j0 < 7 && j == (j0 + (if leap0 then 366 else 365)) % 7
    requires 1 <= o <= (if leap then 366 else 365) && k == (j + o - 1) % 7 + 1
    requires var week := (o + 10 - k) / 7;
      (y, w) == if week == 0 then (year - 1, WeeksOfYearStarting(j0, leap0))
        else if week == 53 && WeeksOfYearStarting(j, leap) == 52 then (year + 1, 1)
        else (year, week)
    ensures var t := o - k + 4;
      && (y == year - 1 <==> t <= 0)
      && (y == year + 1 <==> t > (if leap then 366 else 365))
      && (y == year ==> w == (t - 1) / 7 + 1)
      && (y == year - 1 ==> w == (t + (if leap0 then 366 else 365) - 1) / 7 + 1)
      && (y == year + 1 ==> w == 1)
  {
    var t := o - k + 4;
    ThursdayResidue(j, o, k);
    if t <= 0 {
      ThursdayInPreviousYear(j0, leap0, t);
    } else {
      ThursdayNearYearEnd(j, leap, o, t);
    }
  }

  /** The day `4 - k` days after a day of weekday number `k` is a Thursday. */
  lemma ThursdayResidue(j: int, o: int, k: int)
    requires 0 <= j < 7 && k == (j + o - 1) % 7 + 1
    ensures (j + (o - k + 4) - 1) % 7 == 3
  {
    var q := (j + o - 1) / 7;
    assert j + (o - k + 4) - 1 == 7 * q + 3;
  }

  /** A Thursday in the last three days of the previous year falls in that
      year's last ISO week. `t + days` is its ordinal there. */
  lemma ThursdayInPreviousYear(j0: int, leap: bool, t: int)
    requires 0 <= j0 < 7 && -2 <= t <= 0
    requires ((j0 + (if leap then 366 else 365)) % 7 + t - 1) % 7 == 3
    ensures WeeksOfYearStarting(j0, leap) == (t + (if leap then 366 else 365) - 1) / 7 + 1
  {
    if leap {
      assert (j0 + 366) % 7 == (j0 + 2) % 7;
      assert j0 == 2 - t;
    } else {
      assert (j0 + 365) % 7 == (j0 + 1) % 7;
      assert j0 == 3 - t;
    }
  }

  /** The formula's week 53 is cut to week 1 of the next year exactly when
      the Thursday of the week lies past the year's end. */
  lemma ThursdayNearYearEnd(j: int, leap: bool, o: int, t: int)
    requires 0 <= j < 7 && 1 <= o <= (if leap then 366 else 365) && o - 3 <= t
    requires 1 <= t <= o + 3 && (j + t - 1) % 7 == 3
    ensures ((t + 6) / 7 == 53 && WeeksOfYearStarting(j, leap) == 52) <==> t > (if leap then 366 else 365)
  {
    if t >= 365 {
      var q := (j + t - 1) / 7;
      assert j + t - 1 == 7 * q + 3;
      assert q == 52 || q == 53;
    }
  }

  /** Days of ISO week 53 of the previous year (week 0 by the formula). */
  lemma DayInPreviousIsoYear(d: Date)
    requires IsoYearWeek(d).0 == Year(d) - 1
    ensures var (y, w) := IsoYearWeek(d);
      FromIsoWeekDateAsWritten(y, w, WeekdayOf(d)) == Ok((Year(d), Ordinal(d)))
  {
    var (y, w) := IsoYearWeek(d);
    IsoYearWeekOf(d);
    WeekZeroInPreviousYear(d);
    FromIsoWeekDateAsWrittenOf(y, w, WeekdayOf(d));
  }

  /** A day in week 0 by the formula lies past the end of the previous
      year's last week, counted from that year. */
  lemma WeekZeroInPreviousYear(d: Date)
    requires (Ordinal(d) + 10 - WeekdayOf(d).NumberFromMonday()) / 7 == 0
    ensures MIN_YEAR < Year(d)
    ensures var y := Year(d) - 1;
      var o := IsoOrdinal(y, WeeksInYear(y), WeekdayOf(d));
      o > DaysInYear(y) && o - DaysInYear(y) == Ordinal(d)
  {
    WeekdayOfNewYear(d);
    NewYearWeekdayStep(Year(d) - 1);
    NewYearWeekdayBounds();
    IsoDayToWeek(NewYearWeekday(Year(d)), IsLeapYear(Year(d)),
      NewYearWeekday(Year(d) - 1), IsLeapYear(Year(d) - 1), Ordinal(d));
  }

  /** Days of ISO week 1 of the next year. */
  lemma DayInNextIsoYear(d: Date)
    requires IsoYearWeek(d).0 == Year(d) + 1
    ensures var (y, w) := IsoYearWeek(d);
      FromIsoWeekDateAsWritten(y, w, WeekdayOf(d)) == Ok((Year(d), Ordinal(d)))
  {
    var (y, w) := IsoYearWeek(d);
    NewYearWeekdayStep(Year(d) - 1);
    NewYearWeekdayStep(Year(d));
    NewYearWeekdayBounds();
    IsoDayToWeek(NewYearWeekday(Year(d)), IsLeapYear(Year(d)),
      NewYearWeekday(Year(d) - 1), IsLeapYear(Year(d) - 1), Ordinal(d));
    IsoYearWeekOf(d);
    FromIsoWeekDateAsWrittenOf(y, w, WeekdayOf(d));
  }

  lemma DayInIsoYear(d: Date)
    requires IsoYearWeek(d).0 == Year(d)
    ensures var (y, w) := IsoYearWeek(d);
      FromIsoWeekDateAsWritten(y, w, WeekdayOf(d)) == Ok((Year(d), Ordinal(d)))
  {
    var (y, w) := IsoYearWeek(d);
    NewYearWeekdayStep(Year(d) - 1);
    NewYearWeekdayBounds();
    IsoDayToWeek(NewYearWeekday(Year(d)), IsLeapYear(Year(d)),
      NewYearWeekday(Year(d) - 1), IsLeapYear(Year(d) - 1), Ordinal(d));
    IsoYearWeekOf(d);
    FromIsoWeekDateAsWrittenOf(y, w, WeekdayOf(d));
  }

  // ---------------------------------------------------------------------
  // Sunday- and Monday-based week numbers
  // ---------------------------------------------------------------------

  /** How many of the days 1 to `ordinal` of a year starting on weekday
      `newYearWeekday` are the weekday `start` (all counted from Monday = 0):
      the week number when weeks begin on that weekday, week 1 starting on
      its first occurrence. */
  function WeekStartsThrough(newYearWeekday: int, ordinal: nat, start: int): nat {
    if ordinal == 0 then 0
    else
      var here := if (newYearWeekday + ordinal - 1) % 7 == start then 1 else 0;
      WeekStartsThrough(newYearWeekday, ordinal - 1, start) + here
  }

  /** The closed form `(ordinal - days since the week start + 6) / 7` counts
      the week starts so far. */
  lemma {:induction false} WeekStartsClosedForm(newYearWeekday: int, ordinal: nat, start: int)
    requires 0 <= start < 7
    ensures (ordinal - (newYearWeekday + ordinal - 1 - start) % 7 + 6) / 7
      == WeekStartsThrough(newYearWeekday, ordinal, start)
  {
    if ordinal > 0 {
      WeekStartsClosedForm(newYearWeekday, ordinal - 1, start);
      var a := newYearWeekday + ordinal - 1 - start;
      ClosedFormStep(ordinal, a);
      ModShiftStart(newYearWeekday + ordinal - 1, start);
    }
  }

  /** One more day adds a week start exactly when it falls on one. */
  lemma ClosedFormStep(ordinal: int, a: int)
    ensures (ordinal - a % 7 + 6) / 7
      == (ordinal - 1 - (a - 1) % 7 + 6) / 7 + (if a % 7 == 0 then 1 else 0)
  {
    var r := a % 7;
    var r' := (a - 1) % 7;
    assert a == 7 * (a / 7) + r;
    assert r == 0 ==> r' == 6;
    assert r != 0 ==> r' == r - 1;
  }

  lemma ModShiftStart(x: int, start: int)
    requires 0 <= start < 7
    ensures x % 7 == start <==> (x - start) % 7 == 0
  {
    assert x == 7 * (x / 7) + x % 7;
  }

  lemma Mod7Back(a: int)
    ensures (a % 7 + 1) % 7 == (a - 6) % 7
  {
  }

  /** `sunday_based_week`: week 1 begins on the year's first Sunday, the
      days before it are week 0. */
  function SundayBasedWeek(d: Date): (w: u8)
    ensures w == WeekStartsThrough(NewYearWeekday(Year(d)), Ordinal(d), Sunday.NumberDaysFromMonday())
    ensures 0 <= w <= 53
  {
    var daysFromSunday := WeekdayOf(d).NumberDaysFromSunday();
    WeekdayOfNewYear(d);
    WeekStartsClosedForm(NewYearWeekday(Year(d)), Ordinal(d), 6);
    Mod7Back(NewYearWeekday(Year(d)) + Ordinal(d) - 1);
    (Ordinal(d) - daysFromSunday + 6) / 7
  }

  /** `monday_based_week`: week 1 begins on the year's first Monday. */
  function MondayBasedWeek(d: Date): (w: u8)
    ensures w == WeekStartsThrough(NewYearWeekday(Year(d)), Ordinal(d), Monday.NumberDaysFromMonday())
    ensures 0 <= w <= 53
  {
    var daysFromMonday := WeekdayOf(d).NumberDaysFromMonday();
    WeekdayOfNewYear(d);
    WeekStartsClosedForm(NewYearWeekday(Year(d)), Ordinal(d), 0);
    (Ordinal(d) - daysFromMonday + 6) / 7
  }

  // ---------------------------------------------------------------------
  // Arithmetic
  // ---------------------------------------------------------------------

  /** The date a given number of days away, when it is in range: the day
      count must fit an i32, the sum must fit an i32 (`checked_add`), and
      the Julian day must be a representable date. */
  function DaysAway(d: Date, days: int): (r: Option<Date>)
    ensures r.Some? <==> JULIAN_DAY_MIN <= ToJulianDay(d) + days <= JULIAN_DAY_MAX
    ensures r.Some? ==> ToJulianDay(r.value) == ToJulianDay(d) + days
  {
    if days < I32_MIN || days > I32_MAX then None
    else
      var julianDay := ToJulianDay(d) + days;
      if julianDay < I32_MIN || julianDay > I32_MAX then None
      else
        match FromJulianDay(julianDay)
        case Ok(date) => Some(date)
        case Err(_) => None
  }

  /** `checked_add`: the whole days of the duration are added; the part of
      a day left over is ignored. */
  function CheckedAdd(d: Date, duration: Duration): (r: Option<Date>)
    ensures r.Some? <==> JULIAN_DAY_MIN <= ToJulianDay(d) + WholeDays(duration) <= JULIAN_DAY_MAX
    ensures r.Some? ==> ToJulianDay(r.value) == ToJulianDay(d) + WholeDays(duration)
  {
    DaysAway(d, WholeDays(duration))
  }

  /** `checked_sub`, with the i32 checks on the negated direction: the
      whole days must fit an i32 before they are subtracted. */
  function CheckedSub(d: Date, duration: Duration): (r: Option<Date>)
    ensures r.Some? <==> JULIAN_DAY_MIN <= ToJulianDay(d) - WholeDays(duration) <= JULIAN_DAY_MAX
    ensures r.Some? ==> ToJulianDay(r.value) == ToJulianDay(d) - WholeDays(duration)
  {
    var wholeDays := WholeDays(duration);
    if wholeDays < I32_MIN || wholeDays > I32_MAX then None
    else
      var julianDay := ToJulianDay(d) - wholeDays;
      if julianDay < I32_MIN || julianDay > I32_MAX then None
      else
        match FromJulianDay(julianDay)
        case Ok(date) => Some(date)
        case Err(_) => None
  }

  /** `checked_add_std`: whole days of an unsigned duration. */
  function CheckedAddStd(d: Date, duration: StdDuration): (r: Option<Date>)
    ensures r.Some? <==> ToJulianDay(d) + StdWholeDays(duration) <= JULIAN_DAY_MAX
    ensures r.Some? ==> ToJulianDay(r.value) == ToJulianDay(d) + StdWholeDays(duration)
  {
    var wholeDays := StdWholeDays(duration);
    if wholeDays > I32_MAX then None else DaysAway(d, wholeDays)
  }

  function CheckedSubStd(d: Date, duration: StdDuration): (r: Option<Date>)
    ensures r.Some? <==> JULIAN_DAY_MIN <= ToJulianDay(d) - StdWholeDays(duration)
    ensures r.Some? ==> ToJulianDay(r.value) == ToJulianDay(d) - StdWholeDays(duration)
  {
    var wholeDays := StdWholeDays(duration);
    if wholeDays > I32_MAX then None
    else
      var julianDay := ToJulianDay(d) - wholeDays;
      if julianDay < I32_MIN || julianDay > I32_MAX then None
      else
        match FromJulianDay(julianDay)
        case Ok(date) => Some(date)
        case Err(_) => None
  }

  /** Subtracting a duration undoes adding it. */
  lemma {:induction false} CheckedAddSubInverse(d: Date, duration: Duration)
    requires CheckedAdd(d, duration).Some?
    ensures CheckedSub(CheckedAdd(d, duration).value, duration) == Some(d)
  {
    var e := CheckedAdd(d, duration).value;
    JulianDayInjective(CheckedSub(e, duration).value, d);
  }

  lemma {:induction false} CheckedAddSubStdInverse(d: Date, duration: StdDuration)
    requires CheckedAddStd(d, duration).Some?
    ensures CheckedSubStd(CheckedAddStd(d, duration).value, duration) == Some(d)
  {
    var e := CheckedAddStd(d, duration).value;
    JulianDayInjective(CheckedSubStd(e, duration).value, d);
  }

  function Clamp(x: int, lo: int, hi: int): int {
    if x < lo then lo else if x > hi then hi else x
  }

  lemma JulianDaysOfMinMax()
    ensures ToJulianDay(MIN) == JULIAN_DAY_MIN && ToJulianDay(MAX) == JULIAN_DAY_MAX
  {
  }

  /** `saturating_add`: out of range, a negative duration gives MIN and
      any other gives MAX, so the Julian day is clamped to the range. */
  function SaturatingAdd(d: Date, duration: Duration): (r: Date)
    ensures ToJulianDay(r) == Clamp(ToJulianDay(d) + WholeDays(duration), JULIAN_DAY_MIN, JULIAN_DAY_MAX)
  {
    JulianDaysOfMinMax();
    match CheckedAdd(d, duration)
    case Some(date) => date
    case None => if IsNegative(duration) then MIN else MAX
  }

  /** `saturating_sub`: out of range, a negative duration gives MAX. */
  function SaturatingSub(d: Date, duration: Duration): (r: Date)
    ensures ToJulianDay(r) == Clamp(ToJulianDay(d) - WholeDays(duration), JULIAN_DAY_MIN, JULIAN_DAY_MAX)
  {
    JulianDaysOfMinMax();
    match CheckedSub(d, duration)
    case Some(date) => date
    case None => if IsNegative(duration) then MAX else MIN
  }

  /** `Sub for Date`: the signed number of days from `other` to `d`. */
  function DateDifference(d: Date, other: Date): (r: Duration)
    ensures WholeDays(r) == ToJulianDay(d) - ToJulianDay(other) && r.nanoseconds == 0
  {
    Days(ToJulianDay(d) - ToJulianDay(other))
  }

  /** Adding the difference of two dates to the second gives the first. */
  lemma {:induction false} DateDifferenceAdds(d: Date, other: Date)
    ensures CheckedAdd(other, DateDifference(d, other)) == Some(d)
    ensures IsNegative(DateDifference(d, other)) <==> d.value < other.value
  {
    JulianDayInjective(CheckedAdd(other, DateDifference(d, other)).value, d);
    PackedOrderIsChronological(d, other);
  }

  /** `Add<Duration>`, which panics when `checked_add` has no result. */
  function Add(d: Date, duration: Duration): (r: Date)
    requires CheckedAdd(d, duration).Some?
    ensures ToJulianDay(r) == ToJulianDay(d) + WholeDays(duration)
  {
    CheckedAdd(d, duration).value
  }

  function AddStd(d: Date, duration: StdDuration): (r: Date)
    requires CheckedAddStd(d, duration).Some?
    ensures ToJulianDay(r) == ToJulianDay(d) + StdWholeDays(duration)
  {
    CheckedAddStd(d, duration).value
  }

  function Sub(d: Date, duration: Duration): (r: Date)
    requires CheckedSub(d, duration).Some?
    ensures ToJulianDay(r) == ToJulianDay(d) - WholeDays(duration)
  {
    CheckedSub(d, duration).value
  }

  function SubStd(d: Date, duration: StdDuration): (r: Date)
    requires CheckedSubStd(d, duration).Some?
    ensures ToJulianDay(r) == ToJulianDay(d) - StdWholeDays(duration)
  {
    CheckedSubStd(d, duration).value
  }

  // ---------------------------------------------------------------------
  // Weekday occurrences
  // ---------------------------------------------------------------------

  /** The weekday number (Monday = 0) of a Julian day. */
  function JulianWeekday(julianDay: int): int {
    julianDay % 7
  }

  /** The match of `checked_next_occurrence` on the difference of the
      weekday discriminants: days forward to the target weekday, a whole
      week when it is today's. */
  function ForwardDays(diff: int): int {
    match diff
    case 1 | -6 => 1
    case 2 | -5 => 2
    case 3 | -4 => 3
    case 4 | -3 => 4
    case 5 | -2 => 5
    case 6 | -1 => 6
    case _ => 7
  }

  /** The match of `checked_prev_occurrence`: days back to the target weekday. */
  function BackwardDays(diff: int): int {
    match diff
    case 1 | -6 => 6
    case 2 | -5 => 5
    case 3 | -4 => 4
    case 4 | -3 => 3
    case 5 | -2 => 2
    case 6 | -1 => 1
    case _ => 7
  }

  /** Going forward `ForwardDays` from a Julian day reaches the first later
      day with the target weekday. */
  lemma ForwardDaysReachWeekday(julianDay: int, target: int)
    requires 0 <= target < 7
    ensures var n := ForwardDays(target - JulianWeekday(julianDay));
      && 1 <= n <= 7
      && JulianWeekday(julianDay + n) == target
      && forall j :: julianDay < j < julianDay + n ==> JulianWeekday(j) != target
  {
  }

  /** Going back `BackwardDays` reaches the last earlier day with the target weekday. */
  lemma BackwardDaysReachWeekday(julianDay: int, target: int)
    requires 0 <= target < 7
    ensures var n := BackwardDays(target - JulianWeekday(julianDay));
      && 1 <= n <= 7
      && JulianWeekday(julianDay - n) == target
      && forall j :: julianDay - n < j < julianDay ==> JulianWeekday(j) != target
  {
  }

  /** `checked_next_occurrence`: the first day strictly after `d` falling on
      `weekday`, when there is one up to MAX. */
  function CheckedNextOccurrence(d: Date, weekday: Weekday): (r: Option<Date>)
    ensures r.Some? ==> WeekdayOf(r.value) == weekday
    ensures r.Some? ==> ToJulianDay(d) < ToJulianDay(r.value) <= ToJulianDay(d) + 7
    ensures r.Some? ==> forall j :: ToJulianDay(d) < j < ToJulianDay(r.value) ==>
      JulianWeekday(j) != weekday.NumberDaysFromMonday()
    ensures r.None? ==> forall j :: ToJulianDay(d) < j <= JULIAN_DAY_MAX ==>
      JulianWeekday(j) != weekday.NumberDaysFromMonday()
  {
    var jd := ToJulianDay(d);
    ForwardDaysReachWeekday(jd, weekday.NumberDaysFromMonday());
    assert WeekdayOf(d).NumberDaysFromMonday() == JulianWeekday(jd);
    var n := ForwardDays(weekday.NumberDaysFromMonday() - WeekdayOf(d).NumberDaysFromMonday());
    assert WholeDays(Days(n)) == n;
    var r := CheckedAdd(d, Days(n));
    if r.Some? then WeekdayNumbering(WeekdayOf(r.value), weekday); r
    else assert jd + n > JULIAN_DAY_MAX; r
  }

  /** `checked_prev_occurrence`: the last day strictly before `d` falling on
      `weekday`, when there is one down to MIN. */
  function CheckedPrevOccurrence(d: Date, weekday: Weekday): (r: Option<Date>)
    ensures r.Some? ==> WeekdayOf(r.value) == weekday
    ensures r.Some? ==> ToJulianDay(d) - 7 <= ToJulianDay(r.value) < ToJulianDay(d)
    ensures r.Some? ==> forall j :: ToJulianDay(r.value) < j < ToJulianDay(d) ==>
      JulianWeekday(j) != weekday.NumberDaysFromMonday()
    ensures r.None? ==> forall j :: JULIAN_DAY_MIN <= j < ToJulianDay(d) ==>
      JulianWeekday(j) != weekday.NumberDaysFromMonday()
  {
    var jd := ToJulianDay(d);
    BackwardDaysReachWeekday(jd, weekday.NumberDaysFromMonday());
    assert WeekdayOf(d).NumberDaysFromMonday() == JulianWeekday(jd);
    var n := BackwardDays(weekday.NumberDaysFromMonday() - WeekdayOf(d).NumberDaysFromMonday());
    assert WholeDays(Days(n)) == n;
    var r := CheckedSub(d, Days(n));
    if r.Some? then WeekdayNumbering(WeekdayOf(r.value), weekday); r
    else assert jd - n < JULIAN_DAY_MIN; r
  }

  /** `checked_nth_next_occurrence`: none for `n == 0`; otherwise the next
      occurrence moved on by `n - 1` weeks, the `n`-th `weekday` after `d`,
      and none only when that day would lie past MAX. */
  function CheckedNthNextOccurrence(d: Date, weekday: Weekday, n: u8): (r: Option<Date>)
    ensures n == 0 ==> r.None?
    ensures r.Some? ==> WeekdayOf(r.value) == weekday
    ensures r.Some? ==> 7 * (n - 1) < ToJulianDay(r.value) - ToJulianDay(d) <= 7 * n
    ensures n >= 1 && r.None? ==> forall j ::
      7 * (n - 1) < j - ToJulianDay(d) <= 7 * n && JulianWeekday(j) == weekday.NumberDaysFromMonday()
      ==> j > JULIAN_DAY_MAX
  {
    if n == 0 then None
    else
      match CheckedNextOccurrence(d, weekday)
      case None => None
      case Some(first) =>
        var r := CheckedAdd(first, Weeks(n - 1));
        if r.Some? then SameWeekdayWeeksApart(first, r.value, n - 1); r
        else
          var target := ToJulianDay(first) + 7 * (n - 1);
          Mod7Weeks(ToJulianDay(first), target, n - 1);
          OnlyOccurrenceInWindow(ToJulianDay(d) + 7 * (n - 1), target);
          r
  }

  /** `checked_nth_prev_occurrence`: the mirror image, none only when the
      `n`-th `weekday` before `d` would lie before MIN. */
  function CheckedNthPrevOccurrence(d: Date, weekday: Weekday, n: u8): (r: Option<Date>)
    ensures n == 0 ==> r.None?
    ensures r.Some? ==> WeekdayOf(r.value) == weekday
    ensures r.Some? ==> 7 * (n - 1) < ToJulianDay(d) - ToJulianDay(r.value) <= 7 * n
    ensures n >= 1 && r.None? ==> forall j ::
      7 * (n - 1) < ToJulianDay(d) - j <= 7 * n && JulianWeekday(j) == weekday.NumberDaysFromMonday()
      ==> j < JULIAN_DAY_MIN
  {
    if n == 0 then None
    else
      match CheckedPrevOccurrence(d, weekday)
      case None => None
      case Some(first) =>
        var r := CheckedSub(first, Weeks(n - 1));
        if r.Some? then SameWeekdayWeeksApart(r.value, first, n - 1); r
        else
          var target := ToJulianDay(first) - 7 * (n - 1);
          Mod7Weeks(target, ToJulianDay(first), n - 1);
          OnlyOccurrenceInWindow(ToJulianDay(d) - 7 * n - 1, target);
          r
  }

  /** Seven consecutive days hold each weekday once. */
  lemma OnlyOccurrenceInWindow(lo: int, x: int)
    requires lo < x <= lo + 7
    ensures forall y :: lo < y <= lo + 7 && JulianWeekday(y) == JulianWeekday(x) ==> y == x
  {
    forall y | lo < y <= lo + 7 && JulianWeekday(y) == JulianWeekday(x)
      ensures y == x
    {
      assert y - x == 7 * (y / 7 - x / 7);
    }
  }

  /** Days a whole number of weeks apart share their weekday. */
  lemma SameWeekdayWeeksApart(a: Date, b: Date, weeks: int)
    requires ToJulianDay(b) == ToJulianDay(a) + 7 * weeks
    ensures WeekdayOf(a) == WeekdayOf(b)
  {
    Mod7Weeks(ToJulianDay(a), ToJulianDay(b), weeks);
    WeekdayNumbering(WeekdayOf(a), WeekdayOf(b));
  }

  lemma Mod7Weeks(a: int, b: int, weeks: int)
    requires b == a + 7 * weeks
    ensures b % 7 == a % 7
  {
    var q := weeks + a / 7 - b / 7;
    assert b % 7 - a % 7 == 7 * q;
  }

  /** The first occurrence is `checked_next_occurrence`, and each further
      one is the next occurrence after the one before. */
  lemma {:induction false} NthNextOccurrenceSteps(d: Date, weekday: Weekday, n: u8)
    requires 1 <= n < 255
    ensures CheckedNthNextOccurrence(d, weekday, 1) == CheckedNextOccurrence(d, weekday)
    ensures CheckedNthNextOccurrence(d, weekday, n).Some? ==>
      CheckedNthNextOccurrence(d, weekday, n + 1)
        == CheckedNextOccurrence(CheckedNthNextOccurrence(d, weekday, n).value, weekday)
  {
    var first := CheckedNextOccurrence(d, weekday);
    if first.Some? {
      assert CheckedNthNextOccurrence(d, weekday, 1) == CheckedAdd(first.value, Weeks(0));
      JulianDayInjective(CheckedAdd(first.value, Weeks(0)).value, first.value);
      var r := CheckedNthNextOccurrence(d, weekday, n);
      if r.Some? {
        assert r == CheckedAdd(first.value, Weeks(n - 1));
        NextOccurrenceOnItsWeekday(r.value, weekday);
        var next := DaysAway(r.value, 7);
        var r' := CheckedNthNextOccurrence(d, weekday, n + 1);
        assert r' == CheckedAdd(first.value, Weeks(n));
        if next.Some? {
          JulianDayInjective(r'.value, next.value);
        }
      }
    }
  }

  /** The first of the `n`-th previous occurrences is
      `checked_prev_occurrence`, and each further one is the previous
      occurrence before the one found so far. */
  lemma {:induction false} NthPrevOccurrenceSteps(d: Date, weekday: Weekday, n: u8)
    requires 1 <= n < 255
    ensures CheckedNthPrevOccurrence(d, weekday, 1) == CheckedPrevOccurrence(d, weekday)
    ensures CheckedNthPrevOccurrence(d, weekday, n).Some? ==>
      CheckedNthPrevOccurrence(d, weekday, n + 1)
        == CheckedPrevOccurrence(CheckedNthPrevOccurrence(d, weekday, n).value, weekday)
  {
    FirstPrevOccurrence(d, weekday);
    if CheckedNthPrevOccurrence(d, weekday, n).Some? {
      PrevOccurrenceStep(d, weekday, n);
    }
  }

  lemma FirstPrevOccurrence(d: Date, weekday: Weekday)
    ensures CheckedNthPrevOccurrence(d, weekday, 1) == CheckedPrevOccurrence(d, weekday)
  {
    var first := CheckedPrevOccurrence(d, weekday);
    if first.Some? {
      SubNoWeeks(first.value);
      assert CheckedNthPrevOccurrence(d, weekday, 1) == CheckedSub(first.value, Weeks(0));
    }
  }

  lemma PrevOccurrenceStep(d: Date, weekday: Weekday, n: u8)
    requires 1 <= n < 255 && CheckedNthPrevOccurrence(d, weekday, n).Some?
    ensures CheckedNthPrevOccurrence(d, weekday, n + 1)
      == CheckedPrevOccurrence(CheckedNthPrevOccurrence(d, weekday, n).value, weekday)
  {
    var first := CheckedPrevOccurrence(d, weekday).value;
    var r := CheckedNthPrevOccurrence(d, weekday, n);
    assert r == CheckedSub(first, Weeks(n - 1));
    PrevOccurrenceOnItsWeekday(r.value, weekday);
    SubOneMoreWeek(first, n);
    assert CheckedNthPrevOccurrence(d, weekday, n + 1) == CheckedSub(first, Weeks(n));
  }

  lemma SubNoWeeks(d: Date)
    ensures CheckedSub(d, Weeks(0)) == Some(d)
  {
    JulianDayInjective(CheckedSub(d, Weeks(0)).value, d);
  }

  /** Going back `n - 1` weeks and then seven days is going back `n` weeks. */
  lemma SubOneMoreWeek(d: Date, n: int)
    requires 1 <= n < 255 && CheckedSub(d, Weeks(n - 1)).Some?
    ensures CheckedSub(CheckedSub(d, Weeks(n - 1)).value, Days(7)) == CheckedSub(d, Weeks(n))
  {
    var a := CheckedSub(CheckedSub(d, Weeks(n - 1)).value, Days(7));
    var b := CheckedSub(d, Weeks(n));
    if a.Some? {
      JulianDayInjective(a.value, b.value);
    }
  }

  /** From a day already on the weekday, the previous occurrence is a week back. */
  lemma PrevOccurrenceOnItsWeekday(d: Date, weekday: Weekday)
    requires WeekdayOf(d) == weekday
    ensures CheckedPrevOccurrence(d, weekday) == CheckedSub(d, Days(7))
  {
    var diff := weekday.NumberDaysFromMonday() - WeekdayOf(d).NumberDaysFromMonday();
    assert diff == 0 && BackwardDays(diff) == 7;
  }

  /** From a day already on the weekday, the next occurrence is a week on. */
  lemma NextOccurrenceOnItsWeekday(d: Date, weekday: Weekday)
    requires WeekdayOf(d) == weekday
    ensures CheckedNextOccurrence(d, weekday) == DaysAway(d, 7)
  {
    var diff := weekday.NumberDaysFromMonday() - WeekdayOf(d).NumberDaysFromMonday();
    assert diff == 0 && ForwardDays(diff) == 7;
    assert CheckedAdd(d, Days(7)) == DaysAway(d, 7);
  }

  /** `next_occurrence`, which panics when `checked_next_occurrence` has no result. */
  function NextOccurrence(d: Date, weekday: Weekday): (r: Date)
    requires CheckedNextOccurrence(d, weekday).Some?
    ensures WeekdayOf(r) == weekday
    ensures ToJulianDay(d) < ToJulianDay(r) <= ToJulianDay(d) + 7
  {
    CheckedNextOccurrence(d, weekday).value
  }

  function PrevOccurrence(d: Date, weekday: Weekday): (r: Date)
    requires CheckedPrevOccurrence(d, weekday).Some?
    ensures WeekdayOf(r) == weekday
    ensures ToJulianDay(d) - 7 <= ToJulianDay(r) < ToJulianDay(d)
  {
    CheckedPrevOccurrence(d, weekday).value
  }

  function NthNextOccurrence(d: Date, weekday: Weekday, n: u8): (r: Date)
    requires CheckedNthNextOccurrence(d, weekday, n).Some?
    ensures WeekdayOf(r) == weekday
    ensures 7 * (n - 1) < ToJulianDay(r) - ToJulianDay(d) <= 7 * n
  {
    CheckedNthNextOccurrence(d, weekday, n).value
  }

  function NthPrevOccurrence(d: Date, weekday: Weekday, n: u8): (r: Date)
    requires CheckedNthPrevOccurrence(d, weekday, n).Some?
    ensures WeekdayOf(r) == weekday
    ensures 7 * (n - 1) < ToJulianDay(d) - ToJulianDay(r) <= 7 * n
  {
    CheckedNthPrevOccurrence(d, weekday, n).value
  }

  // ---------------------------------------------------------------------
  // Replacing a component
  // ---------------------------------------------------------------------

  /** From March on, a leap year's table entries are one day later. */
  lemma DaysBeforeMonthLeapShift(month: Month)
    ensures DaysBeforeMonth(true, month) == DaysBeforeMonth(false, month)
      + (if month.Number() >= 3 then 1 else 0)
    ensures month.Number() >= 3 ==> DaysBeforeMonth(false, month) >= 59
  {
  }

  /** `replace_year`: the same month and day in another year; February 29th
      does not exist in a common year. Ordinals up to 59 (January and
      February 1-28) are kept, later ones move by a day when the leap status
      changes. */
  function ReplaceYear(d: Date, year: i32): (r: Result<Date, ComponentRange>)
    ensures r.Ok? <==>
      && MIN_YEAR <= year <= MAX_YEAR
      && !(Month(d) == February && Day(d) == 29 && !IsLeapYear(year))
    ensures r.Ok? ==> ToCalendarDate(r.value) == (year, Month(d), Day(d))
    ensures !(MIN_YEAR <= year <= MAX_YEAR) ==> r == Err(YearOutOfRange(year))
    ensures MIN_YEAR <= year <= MAX_YEAR && r.Err? ==>
      r == Err(ComponentRange("day", 1, 28, 29, Some("for the given month and year")))
  {
    if !(MIN_YEAR <= year <= MAX_YEAR) then Err(YearOutOfRange(year))
    else
      var (_, month, day) := ToCalendarDate(d);
      var ordinal := Ordinal(d);
      ReplacedOrdinal(d, year);
      if ordinal <= 59 then
        OrdinalOfCalendarDate(year, month, day, ordinal);
        Ok(FromOrdinalDateUnchecked(year, ordinal))
      else if IsInLeapYear(d) == IsLeapYear(year) then
        OrdinalOfCalendarDate(year, month, day, ordinal);
        Ok(FromOrdinalDateUnchecked(year, ordinal))
      else if IsInLeapYear(d) && ordinal == 60 then
        Err(ComponentRange("day", 1, 28, 29, Some("for the given month and year")))
      else if !IsInLeapYear(d) then
        OrdinalOfCalendarDate(year, month, day, ordinal + 1);
        Ok(FromOrdinalDateUnchecked(year, ordinal + 1))
      else
        OrdinalOfCalendarDate(year, month, day, ordinal - 1);
        Ok(FromOrdinalDateUnchecked(year, ordinal - 1))
  }

  /** The ordinal of the same month and day in another year: unchanged up
      to February 28th or when the leap status agrees, one later when only
      the target year is a leap year, one earlier when only the source year
      is, where February 29th has no counterpart. */
  lemma ReplacedOrdinal(d: Date, year: int)
    ensures var (_, month, day) := ToCalendarDate(d);
      var ordinal := Ordinal(d);
      var leap := IsLeapYear(year);
      && (ordinal <= 59 || IsInLeapYear(d) == leap ==>
           day <= month.Length(year) && ordinal == DaysBeforeMonth(leap, month) + day)
      && (ordinal > 59 && !IsInLeapYear(d) && leap ==>
           day <= month.Length(year) && ordinal + 1 == DaysBeforeMonth(leap, month) + day)
      && (ordinal > 59 && IsInLeapYear(d) && !leap ==>
           && (ordinal == 60 <==> month == February && day == 29)
           && (ordinal != 60 ==> day <= month.Length(year) && ordinal - 1 == DaysBeforeMonth(leap, month) + day))
  {
    var (_, month, day) := ToCalendarDate(d);
    DaysBeforeMonthLeapShift(month);
    if month.Number() < 3 {
      assert month == January || month == February;
    }
  }

  /** The table entry plus the day is a valid ordinal with that calendar date. */
  lemma {:induction false} OrdinalOfCalendarDate(year: int, month: Month, day: int, ordinal: int)
    requires MIN_YEAR <= year <= MAX_YEAR && 1 <= day <= month.Length(year)
    requires ordinal == DaysBeforeMonth(IsLeapYear(year), month) + day
    ensures ValidParts(year, ordinal)
    ensures ToCalendarDate(FromOrdinalDateUnchecked(year, ordinal)) == (year, month, day)
  {
    var r := FromCalendarDate(year, month, day).value;
    DatesEqualByFields(r, FromOrdinalDateUnchecked(year, ordinal));
  }

  /** `replace_month`: the same year and day in another month. */
  function ReplaceMonth(d: Date, month: Month): (r: Result<Date, ComponentRange>)
    ensures r.Ok? <==> Day(d) <= month.Length(Year(d))
    ensures r.Ok? ==> ToCalendarDate(r.value) == (Year(d), month, Day(d))
    ensures r.Err? ==> r.error == DayOutOfRange(Year(d), month, Day(d))
  {
    var (year, _, day) := ToCalendarDate(d);
    FromCalendarDate(year, month, day)
  }

  /** `replace_day`: the same year and month, another day of it. */
  function ReplaceDay(d: Date, day: u8): (r: Result<Date, ComponentRange>)
    ensures r.Ok? <==> 1 <= day <= Month(d).Length(Year(d))
    ensures r.Ok? ==> ToCalendarDate(r.value) == (Year(d), Month(d), day)
    ensures r.Err? ==> r.error == DayOutOfRange(Year(d), Month(d), day)
  {
    if !DayExists(Year(d), Month(d), day) then Err(DayOutOfRange(Year(d), Month(d), day))
    else
      var ordinal := Ordinal(d) - Day(d) + day;
      var r := FromOrdinalDateUnchecked(Year(d), ordinal);
      MonthDaysUnique(Year(d), ToCalendarDate(r).1, ToCalendarDate(r).2, Month(d), day);
      Ok(r)
  }

  // ---------------------------------------------------------------------
  // Documented values
  // ---------------------------------------------------------------------

  /** The Julian day of a calendar date, through its ordinal. */
  lemma CalendarDateJulianDay(year: int, month: Month, day: int, ordinal: int)
    requires MIN_YEAR <= year <= MAX_YEAR && 1 <= day <= month.Length(year)
    requires ordinal == DaysBeforeMonth(IsLeapYear(year), month) + day
    ensures FromCalendarDate(year, month, day).Ok?
    ensures Ordinal(FromCalendarDate(year, month, day).value) == ordinal
    ensures ToJulianDay(FromCalendarDate(year, month, day).value) == JulianDayOf(year, ordinal)
  {
  }

  /** Julian day 0 is -4713-11-24. */
  lemma DocumentedJulianDayZero()
    ensures ToJulianDay(FromCalendarDate(-4713, November, 24).value) == 0
  {
    CalendarDateJulianDay(-4713, November, 24, 328);
  }

  /** 2000-01-01, the J2000 epoch day, is Julian day 2451545. */
  lemma DocumentedJulianDayJ2000()
    ensures ToJulianDay(FromCalendarDate(2000, January, 1).value) == 2_451_545
  {
    CalendarDateJulianDay(2000, January, 1, 1);
  }

  /** 2019-01-01 is a Tuesday. */
  lemma DocumentedWeekday()
    ensures WeekdayOf(FromCalendarDate(2019, January, 1).value) == Tuesday
  {
    CalendarDateJulianDay(2019, January, 1, 1);
    var d := FromCalendarDate(2019, January, 1).value;
    assert JulianDayOf(2019, 1) == 2_458_485;
    WeekdayNumbering(WeekdayOf(d), Tuesday);
  }

  /** 2021-01-01, a Friday, belongs to week 53 of 2020. */
  lemma DocumentedIsoWeekDate()
    ensures ToIsoWeekDate(FromCalendarDate(2021, January, 1).value) == (2020, 53, Friday)
  {
    CalendarDateJulianDay(2021, January, 1, 1);
    var e := FromCalendarDate(2021, January, 1).value;
    assert Year(e) == 2021 && Ordinal(e) == 1;
    WeeksAround2021();
    WeekdayOfNewYear(e);
    WeekdayNumbering(WeekdayOf(e), Friday);
    IsoYearWeekOf(e);
  }

  /** 2020 starts on a Wednesday and is a leap year, so it has 53 weeks;
      2021 starts on a Friday. */
  lemma WeeksAround2021()
    ensures NewYearWeekday(2021) == 4 && NewYearWeekday(2020) == 2 && WeeksInYear(2020) == 53
  {
  }

  /** 2019 has no week 53. */
  lemma NoWeek53In2019()
    ensures FromIsoWeekDate(2019, 53, Monday).Err?
  {
    assert NewYearWeekday(2019) == 1;
    assert WeeksInYear(2019) == 52;
  }

  /** 2019 is not a leap year, so it has no February 29th. */
  lemma NoLeapDayIn2019()
    ensures FromCalendarDate(2019, February, 29).Err?
  {
    assert !IsLeapYear(2019);
    assert February.Length(2019) == 28;
  }
}
