/** The parsers of the individual date and time components (year, month,
    weekday, subsecond, offset fields, ignore, end, Unix timestamp). Each
    takes the input bytes and the component's modifiers and returns either
    nothing or the parsed value with the input it did not consume. */
module ComponentParsing {
  import opened Wrappers
  import opened Calendar
  import opened Combinators

  // ---------------------------------------------------------------- year

  datatype YearRepr = Full | Century | LastTwo

  /** The year modifiers the default (not large-dates) configuration reads. */
  datatype YearModifier = YearModifier(padding: Padding, repr: YearRepr, signIsMandatory: bool)

  /** The parsed magnitude with the sign byte applied, and whether it was `-`. */
  function ApplySign(sign: byte, item: ParsedItem<nat>): (r: ParsedItem<(int, bool)>)
    ensures r.remaining == item.remaining
    ensures r.value.1 <==> sign == MINUS
    ensures r.value.0 == if sign == MINUS then -(item.value as int) else item.value
  {
    if sign == MINUS then ParsedItem(item.remaining, (-(item.value as int), true))
    else ParsedItem(item.remaining, (item.value, false))
  }

  /** The value of an unsigned field, never negative. */
  function Unsigned(item: ParsedItem<nat>): (r: ParsedItem<(int, bool)>)
    ensures r == ParsedItem(item.remaining, (item.value, false))
  {
    ParsedItem(item.remaining, (item.value, false))
  }

  /** A signed field: no match, or the magnitude with the sign applied. */
  function SignedField(sign: byte, magnitude: Option<ParsedItem<nat>>): (r: Option<ParsedItem<(int, bool)>>)
    ensures r.Some? <==> magnitude.Some?
    ensures r.Some? ==> r.value == ApplySign(sign, magnitude.value)
  {
    if magnitude.None? then None else Some(ApplySign(sign, magnitude.value))
  }

  /** An unsigned field: no match, or the value flagged as not negative. */
  function UnsignedField(value: Option<ParsedItem<nat>>): (r: Option<ParsedItem<(int, bool)>>)
    ensures r.Some? <==> value.Some?
    ensures r.Some? ==> r.value == Unsigned(value.value)
  {
    if value.None? then None else Some(Unsigned(value.value))
  }

  /** `parse_year`: the year and whether a `-` sign was read (so that "-0"
      can be told from "0"). */
  function ParseYear(input: seq<byte>, modifiers: YearModifier): (r: Option<ParsedItem<(int, bool)>>)
    ensures r.Some? ==> IsSuffix(r.value.remaining, input) && |r.value.remaining| < |input|
    ensures r.Some? ==> (r.value.value.1 <==> input[0] == MINUS)
    ensures r.Some? && r.value.value.1 ==> r.value.value.0 <= 0
    ensures r.Some? && !r.value.value.1 ==> r.value.value.0 >= 0
    ensures r.Some? && modifiers.repr == Full ==> -9999 <= r.value.value.0 <= 9999
    ensures r.Some? && modifiers.repr != Full ==> -99 <= r.value.value.0 <= 99
    ensures r.Some? && modifiers.repr == LastTwo ==> !r.value.value.1
    ensures r.Some? && modifiers.repr != LastTwo && modifiers.signIsMandatory ==> Sign(input).Some?
  {
    var signed := OptSign(input);
    match modifiers.repr
    case Full =>
      if signed.value.Some? then
        SignedField(signed.value.value, ExactlyNDigitsPadded(4, modifiers.padding, signed.remaining))
      else if modifiers.signIsMandatory then None
      else UnsignedField(ExactlyNDigitsPadded(4, modifiers.padding, input))
    case Century =>
      if signed.value.Some? then
        SignedField(signed.value.value, ExactlyNDigitsPadded(2, modifiers.padding, signed.remaining))
      else if modifiers.signIsMandatory then None
      else UnsignedField(NToMDigitsPadded(1, 2, modifiers.padding, input))
    case LastTwo =>
      UnsignedField(ExactlyNDigitsPadded(2, modifiers.padding, input))
  }

  /** How a full year is written: `-` when negative, `+` when the sign is
      mandatory, then four zero-padded digits. */
  function FullYearText(year: int, signIsMandatory: bool): (s: seq<byte>)
    requires -9999 <= year <= 9999
  {
    var digits := EncodeDigits(if year < 0 then -year else year, 4);
    if year < 0 then [MINUS] + digits
    else if signIsMandatory then [PLUS] + digits
    else digits
  }

  /** A written full year reads back as the same year, with the `-` flag
      set exactly when it is negative, whatever follows it. */
  lemma ParseFullYearRoundTrip(year: int, signIsMandatory: bool, rest: seq<byte>)
    requires -9999 <= year <= 9999
    ensures ParseYear(FullYearText(year, signIsMandatory) + rest, YearModifier(Zero, Full, signIsMandatory))
         == Some(ParsedItem(rest, (year, year < 0)))
  {
    var magnitude := if year < 0 then -year else year;
    var digits := EncodeDigits(magnitude, 4);
    ExactlyNDigitsEncoded(magnitude, 4, rest);
    if year < 0 || signIsMandatory {
      var sign := if year < 0 then MINUS else PLUS;
      assert FullYearText(year, signIsMandatory) + rest == [sign] + (digits + rest);
    } else {
      assert digits[0] != MINUS && digits[0] != PLUS;
    }
  }

  /** Under either sign a full year reads as the signed magnitude, flagged
      exactly for `-`, whether or not the sign is mandatory. */
  lemma FullYearAnySign(m: nat, sign: byte, mandatory: bool, rest: seq<byte>)
    requires m <= 9999 && (sign == MINUS || sign == PLUS)
    ensures ParseYear([sign] + EncodeDigits(m, 4) + rest, YearModifier(Zero, Full, mandatory))
         == Some(ParsedItem(rest, (if sign == MINUS then -(m as int) else m as int, sign == MINUS)))
  {
    var tail := EncodeDigits(m, 4) + rest;
    var input := [sign] + EncodeDigits(m, 4) + rest;
    assert input == [sign] + tail;
    assert OptSign(input) == ParsedItem(tail, Some(sign));
    ExactlyNDigitsEncoded(m, 4, rest);
    assert ExactlyNDigitsPadded(4, Zero, tail) == Some(ParsedItem(rest, m));
  }

  /** "-0000" is year 0 with the `-` flag, which tells it from "0000". */
  lemma NegativeZeroYear(rest: seq<byte>)
    ensures ParseYear([MINUS] + EncodeDigits(0, 4) + rest, YearModifier(Zero, Full, false))
         == Some(ParsedItem(rest, (0, true)))
    ensures ParseYear(EncodeDigits(0, 4) + rest, YearModifier(Zero, Full, false))
         == Some(ParsedItem(rest, (0, false)))
  {
    FullYearAnySign(0, MINUS, false, rest);
    ParseFullYearRoundTrip(0, false, rest);
  }

  /** A signed century is exactly two digits, read as the signed magnitude. */
  lemma CenturyAnySign(m: nat, sign: byte, mandatory: bool, rest: seq<byte>)
    requires m <= 99 && (sign == MINUS || sign == PLUS)
    ensures ParseYear([sign] + EncodeDigits(m, 2) + rest, YearModifier(Zero, Century, mandatory))
         == Some(ParsedItem(rest, (if sign == MINUS then -(m as int) else m as int, sign == MINUS)))
  {
    ExactlyNDigitsEncoded(m, 2, rest);
    assert ([sign] + EncodeDigits(m, 2) + rest)[1..] == EncodeDigits(m, 2) + rest;
  }

  /** An unsigned century, when the sign is optional, is one or two digits
      (`n_to_m_digits_padded::<1, 2>`), here as many as are written. */
  lemma CenturyUnsigned(c: nat, width: nat, padding: Padding, rest: seq<byte>)
    requires 1 <= width <= 2 && c < Pow10(width) && (padding == Zero || padding == NoPadding)
    requires |rest| > 0 ==> !IsDigit(rest[0])
    ensures ParseYear(EncodeDigits(c, width) + rest, YearModifier(padding, Century, false))
         == Some(ParsedItem(rest, (c as int, false)))
  {
    NToMDigitsEncoded(c, width, 1, 2, rest);
    var ds := EncodeDigits(c, width);
    assert (ds + rest)[0] == ds[0] && IsDigit(ds[0]);
  }

  /** With space padding, a full year of `width` digits may be written
      after `4 - width` spaces, which stand for its leading zeros. */
  lemma FullYearSpacePadded(m: nat, width: nat, rest: seq<byte>)
    requires 1 <= width <= 4 && m < Pow10(width)
    ensures ParseYear(seq(4 - width, _ => SPACE) + EncodeDigits(m, width) + rest, YearModifier(Space, Full, false))
         == Some(ParsedItem(rest, (m as int, false)))
  {
    var spaces := seq(4 - width, _ => SPACE);
    var ds := EncodeDigits(m, width);
    var input := spaces + ds + rest;
    assert input[4 - width] == ds[0] && IsDigit(ds[0]);
    assert forall i :: 0 <= i < 4 - width ==> input[i] == SPACE;
    var k := LeadingSpaces(input);
    assert k == 4 - width;
    assert input[0] != MINUS && input[0] != PLUS;
    assert input[4 - width..] == ds + rest;
    ExactlyNDigitsEncoded(m, width, rest);
  }

  /** A two-digit year reads back under the last-two representation. */
  lemma ParseLastTwoRoundTrip(year: nat, rest: seq<byte>)
    requires year < 100
    ensures ParseYear(EncodeDigits(year, 2) + rest, YearModifier(Zero, LastTwo, false))
         == Some(ParsedItem(rest, (year, false)))
  {
    ExactlyNDigitsEncoded(year, 2, rest);
  }

  /** Without a sign, a full year is refused when a sign is mandatory. */
  lemma ParseYearMandatorySign(input: seq<byte>, padding: Padding)
    requires Sign(input).None?
    ensures ParseYear(input, YearModifier(padding, Full, true)).None?
    ensures ParseYear(input, YearModifier(padding, Century, true)).None?
  {
  }

  // ---------------------------------------------------------------- month

  datatype MonthRepr = Numerical | Long | Short

  datatype MonthModifier = MonthModifier(padding: Padding, repr: MonthRepr, caseSensitive: bool)

  /** The English name of a month, in full or as its first three letters. */
  function MonthName(month: Month, long: bool): (s: seq<byte>)
    ensures |s| >= 3
  {
    match month
    case January => if long then Bytes("January") else Bytes("Jan")
    case February => if long then Bytes("February") else Bytes("Feb")
    case March => if long then Bytes("March") else Bytes("Mar")
    case April => if long then Bytes("April") else Bytes("Apr")
    case May => Bytes("May")
    case June => if long then Bytes("June") else Bytes("Jun")
    case July => if long then Bytes("July") else Bytes("Jul")
    case August => if long then Bytes("August") else Bytes("Aug")
    case September => if long then Bytes("September") else Bytes("Sep")
    case October => if long then Bytes("October") else Bytes("Oct")
    case November => if long then Bytes("November") else Bytes("Nov")
    case December => if long then Bytes("December") else Bytes("Dec")
  }

  /** The table `first_match` searches, in calendar order. */
  function MonthTable(long: bool): (t: seq<(seq<byte>, Month)>)
    ensures |t| == 12
    ensures forall i :: 0 <= i < 12 ==> t[i].1.Number() == i + 1 && t[i].0 == MonthName(t[i].1, long)
  {
    seq(12, i requires 0 <= i < 12 => var month := MonthFromNumber(i + 1).value; (MonthName(month, long), month))
  }

  /** `parse_month`: a two-digit number 1 to 12, or a month name. */
  function ParseMonth(input: seq<byte>, modifiers: MonthModifier): (r: Option<ParsedItem<Month>>)
    ensures modifiers.repr == Numerical ==>
      var n := ExactlyNDigitsPadded(2, modifiers.padding, input);
      && (r.Some? <==> n.Some? && 1 <= n.value.value <= 12)
      && (r.Some? ==> r.value.remaining == n.value.remaining && r.value.value.Number() == n.value.value)
    ensures modifiers.repr != Numerical && r.Some? ==>
      && StartsWith(input, MonthName(r.value.value, modifiers.repr == Long), modifiers.caseSensitive)
      && r.value.remaining == input[|MonthName(r.value.value, modifiers.repr == Long)|..]
  {
    if modifiers.repr == Numerical then
      MonthOfNumber(ExactlyNDigitsPadded(2, modifiers.padding, input))
    else
      var r := FirstMatch(MonthTable(modifiers.repr == Long), modifiers.caseSensitive, input);
      if r.Some? then
        var i :| 0 <= i < 12 && FirstMatchAt(MonthTable(modifiers.repr == Long), modifiers.caseSensitive, input, i, r.value);
        r
      else r
  }

  /** The month of a parsed number: zero is refused by the `NonZero` parse
      and numbers above twelve by `Month::from_number`. */
  function MonthOfNumber(n: Option<ParsedItem<nat>>): (r: Option<ParsedItem<Month>>)
    ensures r.Some? <==> n.Some? && 1 <= n.value.value <= 12
    ensures r.Some? ==> r.value.remaining == n.value.remaining && r.value.value.Number() == n.value.value
  {
    if n.None? || n.value.value == 0 then None
    else
      var m := MonthFromNumber(n.value.value);
      if m.None? then None else Some(ParsedItem(n.value.remaining, m.value))
  }

  /** A month sits in the table at its number less one. */
  lemma MonthTableAt(month: Month, long: bool)
    ensures MonthTable(long)[month.Number() - 1].1 == month
  {
  }

  /** The first three bytes of a text, lower-cased: names in the month and
      weekday tables differ there. */
  function Key3(s: seq<byte>): (int, int, int)
    requires |s| >= 3
  {
    (AsciiLower(s[0]), AsciiLower(s[1]), AsciiLower(s[2]))
  }

  /** An input that starts with a literal of three or more bytes has that
      literal's key. */
  lemma StartsWithKey3(input: seq<byte>, literal: seq<byte>, caseSensitive: bool)
    requires |literal| >= 3 && StartsWith(input, literal, caseSensitive)
    ensures |input| >= 3 && Key3(input) == Key3(literal)
  {
    assert input[..|literal|][0] == input[0];
    assert input[..|literal|][1] == input[1];
    assert input[..|literal|][2] == input[2];
  }

  function MonthKey(month: Month, long: bool): (int, int, int) {
    Key3(MonthName(month, long))
  }

  /** The month whose name starts with the given lower-cased letters. */
  function MonthOfKey(key: (int, int, int)): Option<Month> {
    if key == (0x6A, 0x61, 0x6E) then Some(January)
    else if key == (0x66, 0x65, 0x62) then Some(February)
    else if key == (0x6D, 0x61, 0x72) then Some(March)
    else if key == (0x61, 0x70, 0x72) then Some(April)
    else if key == (0x6D, 0x61, 0x79) then Some(May)
    else if key == (0x6A, 0x75, 0x6E) then Some(June)
    else if key == (0x6A, 0x75, 0x6C) then Some(July)
    else if key == (0x61, 0x75, 0x67) then Some(August)
    else if key == (0x73, 0x65, 0x70) then Some(September)
    else if key == (0x6F, 0x63, 0x74) then Some(October)
    else if key == (0x6E, 0x6F, 0x76) then Some(November)
    else if key == (0x64, 0x65, 0x63) then Some(December)
    else None
  }

  lemma MonthOfKeyInverts(month: Month, long: bool)
    ensures MonthOfKey(MonthKey(month, long)) == Some(month)
  {
    match month
    case January =>
    case February =>
    case March =>
    case April =>
    case May =>
    case June =>
    case July =>
    case August =>
    case September =>
    case October =>
    case November =>
    case December =>
  }

  /** No two months share the first three letters of their names. */
  lemma MonthKeysDistinct(a: Month, b: Month, long: bool)
    requires a != b
    ensures MonthKey(a, long) != MonthKey(b, long)
  {
    MonthOfKeyInverts(a, long);
    MonthOfKeyInverts(b, long);
  }

  /** An input that starts with a month's name reads back as that month,
      the name consumed. Without case sensitivity the name may be written
      in any mix of upper and lower case. */
  lemma ParseMonthName(month: Month, modifiers: MonthModifier, input: seq<byte>)
    requires modifiers.repr != Numerical
    requires StartsWith(input, MonthName(month, modifiers.repr == Long), modifiers.caseSensitive)
    ensures ParseMonth(input, modifiers)
         == Some(ParsedItem(input[|MonthName(month, modifiers.repr == Long)|..], month))
  {
    var long := modifiers.repr == Long;
    var table := MonthTable(long);
    StartsWithKey3(input, MonthName(month, long), modifiers.caseSensitive);
    var i := month.Number() - 1;
    MonthTableAt(month, long);
    forall j | 0 <= j < i
      ensures !StartsWith(input, table[j].0, modifiers.caseSensitive)
    {
      if StartsWith(input, table[j].0, modifiers.caseSensitive) {
        StartsWithKey3(input, table[j].0, modifiers.caseSensitive);
        MonthKeysDistinct(table[j].1, month, long);
      }
    }
    FirstMatchPicks(table, modifiers.caseSensitive, input, i);
  }

  /** `JANUARY` is January when names are matched without case sensitivity. */
  lemma UpperCaseMonthName()
    ensures ParseMonth(Bytes("JANUARY"), MonthModifier(Zero, Long, false)) == Some(ParsedItem([], January))
  {
    ParseMonthName(January, MonthModifier(Zero, Long, false), Bytes("JANUARY"));
  }

  /** A month number written with two digits reads back as that month. */
  lemma ParseMonthNumber(month: Month, rest: seq<byte>, caseSensitive: bool)
    ensures ParseMonth(EncodeDigits(month.Number(), 2) + rest, MonthModifier(Zero, Numerical, caseSensitive))
         == Some(ParsedItem(rest, month))
  {
    ExactlyNDigitsEncoded(month.Number(), 2, rest);
    var m := MonthFromNumber(month.Number()).value;
    assert m.Number() == month.Number();
  }

  // ---------------------------------------------------------------- weekday

  datatype WeekdayRepr = WeekdayShort | WeekdayLong | SundayBased | MondayBased

  datatype WeekdayModifier = WeekdayModifier(repr: WeekdayRepr, oneIndexed: bool, caseSensitive: bool)

  predicate IsNumeric(repr: WeekdayRepr) {
    repr == SundayBased || repr == MondayBased
  }

  /** The English name of a weekday, in full or as its first three letters. */
  function WeekdayName(weekday: Weekday, long: bool): (s: seq<byte>)
    ensures |s| >= 3
  {
    match weekday
    case Monday => if long then Bytes("Monday") else Bytes("Mon")
    case Tuesday => if long then Bytes("Tuesday") else Bytes("Tue")
    case Wednesday => if long then Bytes("Wednesday") else Bytes("Wed")
    case Thursday => if long then Bytes("Thursday") else Bytes("Thu")
    case Friday => if long then Bytes("Friday") else Bytes("Fri")
    case Saturday => if long then Bytes("Saturday") else Bytes("Sat")
    case Sunday => if long then Bytes("Sunday") else Bytes("Sun")
  }

  /** The four numbering conventions of a numeric weekday. */
  function WeekdayNumber(weekday: Weekday, repr: WeekdayRepr, oneIndexed: bool): (n: int)
    requires IsNumeric(repr)
    ensures (if oneIndexed then 1 else 0) <= n <= (if oneIndexed then 7 else 6)
  {
    match (repr, oneIndexed)
    case (SundayBased, false) => weekday.NumberDaysFromSunday()
    case (SundayBased, true) => weekday.NumberFromSunday()
    case (MondayBased, false) => weekday.NumberDaysFromMonday()
    case (MondayBased, true) => weekday.NumberFromMonday()
  }

  /** How a weekday is spelled in the table the modifiers select: its
      name, or the one digit of its number. */
  function WeekdaySpelling(weekday: Weekday, repr: WeekdayRepr, oneIndexed: bool): (s: seq<byte>)
    ensures !IsNumeric(repr) ==> s == WeekdayName(weekday, repr == WeekdayLong)
    ensures IsNumeric(repr) ==> s == [ZERO_DIGIT + WeekdayNumber(weekday, repr, oneIndexed)]
  {
    if IsNumeric(repr) then [ZERO_DIGIT + WeekdayNumber(weekday, repr, oneIndexed)]
    else WeekdayName(weekday, repr == WeekdayLong)
  }

  /** The table `first_match` searches, always Monday first. */
  function WeekdayTable(repr: WeekdayRepr, oneIndexed: bool): (t: seq<(seq<byte>, Weekday)>)
    ensures |t| == 7
    ensures forall i :: 0 <= i < 7 ==> t[i].1.NumberDaysFromMonday() == i
    ensures forall i :: 0 <= i < 7 ==> t[i].0 == WeekdaySpelling(t[i].1, repr, oneIndexed)
  {
    seq(7, i requires 0 <= i < 7 =>
      var weekday := WeekdayFromDaysFromMonday(i); (WeekdaySpelling(weekday, repr, oneIndexed), weekday))
  }

  /** `parse_weekday`: the first weekday of the selected table the input
      starts with. */
  function ParseWeekday(input: seq<byte>, modifiers: WeekdayModifier): (r: Option<ParsedItem<Weekday>>)
    ensures r.Some? ==> IsSuffix(r.value.remaining, input)
    ensures r.Some? ==>
      var spelling := WeekdaySpelling(r.value.value, modifiers.repr, modifiers.oneIndexed);
      StartsWith(input, spelling, modifiers.caseSensitive) && r.value.remaining == input[|spelling|..]
  {
    var r := FirstMatch(WeekdayTable(modifiers.repr, modifiers.oneIndexed), modifiers.caseSensitive, input);
    if r.Some? then
      var i :| 0 <= i < 7 && FirstMatchAt(WeekdayTable(modifiers.repr, modifiers.oneIndexed), modifiers.caseSensitive, input, i, r.value);
      r
    else r
  }

  /** A digit matches a one-byte digit literal only when it is that digit. */
  lemma StartsWithDigit(input: seq<byte>, c: byte, caseSensitive: bool)
    requires IsDigit(c)
    ensures StartsWith(input, [c], caseSensitive) <==> |input| > 0 && input[0] == c
  {
    if |input| > 0 {
      assert input[..1] == [input[0]];
    }
  }

  /** A numeric weekday is one digit, read under the modifier's numbering:
      the parse succeeds exactly on the seven digits the numbering uses, and
      then yields the weekday with the digit's number. */
  lemma ParseWeekdayNumbering(input: seq<byte>, modifiers: WeekdayModifier)
    requires IsNumeric(modifiers.repr)
    ensures var lo := if modifiers.oneIndexed then 1 else 0;
      var r := ParseWeekday(input, modifiers);
      && (r.Some? <==> |input| > 0 && ZERO_DIGIT + lo <= input[0] <= ZERO_DIGIT + lo + 6)
      && (r.Some? ==>
           && r.value.remaining == input[1..]
           && input[0] == ZERO_DIGIT + WeekdayNumber(r.value.value, modifiers.repr, modifiers.oneIndexed))
  {
    var r := ParseWeekday(input, modifiers);
    if r.Some? {
      StartsWithDigit(input, ZERO_DIGIT + WeekdayNumber(r.value.value, modifiers.repr, modifiers.oneIndexed),
        modifiers.caseSensitive);
    }
    WeekdayDigitMatches(input, modifiers);
  }

  /** An in-range digit starts the spelling of some numeric weekday. */
  lemma WeekdayDigitMatches(input: seq<byte>, modifiers: WeekdayModifier)
    requires IsNumeric(modifiers.repr)
    ensures var lo := if modifiers.oneIndexed then 1 else 0;
      |input| > 0 && ZERO_DIGIT + lo <= input[0] <= ZERO_DIGIT + lo + 6 ==>
      ParseWeekday(input, modifiers).Some?
  {
    var lo := if modifiers.oneIndexed then 1 else 0;
    if |input| > 0 && ZERO_DIGIT + lo <= input[0] <= ZERO_DIGIT + lo + 6 {
      var table := WeekdayTable(modifiers.repr, modifiers.oneIndexed);
      var i := WeekdayIndexOfDigit(modifiers.repr, modifiers.oneIndexed, input[0] - ZERO_DIGIT);
      StartsWithDigit(input, input[0], modifiers.caseSensitive);
      assert StartsWith(input, table[i].0, modifiers.caseSensitive);
    }
  }

  /** The table position of the weekday with a given number. */
  function WeekdayIndexOfDigit(repr: WeekdayRepr, oneIndexed: bool, n: int): (i: int)
    requires IsNumeric(repr)
    requires (if oneIndexed then 1 else 0) <= n <= (if oneIndexed then 7 else 6)
    ensures 0 <= i < 7 && WeekdayNumber(WeekdayTable(repr, oneIndexed)[i].1, repr, oneIndexed) == n
  {
    var k := if oneIndexed then n - 1 else n;
    if repr == MondayBased then k else (k + 6) % 7
  }

  /** Each weekday is read from the digit of its number. */
  lemma ParseWeekdayDigit(weekday: Weekday, modifiers: WeekdayModifier, rest: seq<byte>)
    requires IsNumeric(modifiers.repr)
    ensures ParseWeekday([ZERO_DIGIT + WeekdayNumber(weekday, modifiers.repr, modifiers.oneIndexed)] + rest, modifiers)
         == Some(ParsedItem(rest, weekday))
  {
    var input := [ZERO_DIGIT + WeekdayNumber(weekday, modifiers.repr, modifiers.oneIndexed)] + rest;
    ParseWeekdayNumbering(input, modifiers);
    var w := ParseWeekday(input, modifiers).value.value;
    assert input[1..] == rest;
    WeekdayNumberInjective(w, weekday, modifiers.repr, modifiers.oneIndexed);
  }

  lemma WeekdayNumberInjective(a: Weekday, b: Weekday, repr: WeekdayRepr, oneIndexed: bool)
    requires IsNumeric(repr)
    requires WeekdayNumber(a, repr, oneIndexed) == WeekdayNumber(b, repr, oneIndexed)
    ensures a == b
  {
    WeekdayNumbering(a, b);
  }

  function WeekdayKey(weekday: Weekday, long: bool): (int, int, int) {
    Key3(WeekdayName(weekday, long))
  }

  /** The weekday whose name starts with the given lower-cased letters. */
  function WeekdayOfKey(key: (int, int, int)): Option<Weekday> {
    if key == (0x6D, 0x6F, 0x6E) then Some(Monday)
    else if key == (0x74, 0x75, 0x65) then Some(Tuesday)
    else if key == (0x77, 0x65, 0x64) then Some(Wednesday)
    else if key == (0x74, 0x68, 0x75) then Some(Thursday)
    else if key == (0x66, 0x72, 0x69) then Some(Friday)
    else if key == (0x73, 0x61, 0x74) then Some(Saturday)
    else if key == (0x73, 0x75, 0x6E) then Some(Sunday)
    else None
  }

  lemma WeekdayOfKeyInverts(weekday: Weekday, long: bool)
    ensures WeekdayOfKey(WeekdayKey(weekday, long)) == Some(weekday)
  {
    match weekday
    case Monday =>
    case Tuesday =>
    case Wednesday =>
    case Thursday =>
    case Friday =>
    case Saturday =>
    case Sunday =>
  }

  /** No two weekdays share the first three letters of their names. */
  lemma WeekdayKeysDistinct(a: Weekday, b: Weekday, long: bool)
    requires a != b
    ensures WeekdayKey(a, long) != WeekdayKey(b, long)
  {
    WeekdayOfKeyInverts(a, long);
    WeekdayOfKeyInverts(b, long);
  }

  /** An input that starts with a weekday's name reads back as that
      weekday, the name consumed; without case sensitivity in any case. */
  lemma ParseWeekdayName(weekday: Weekday, modifiers: WeekdayModifier, input: seq<byte>)
    requires !IsNumeric(modifiers.repr)
    requires StartsWith(input, WeekdayName(weekday, modifiers.repr == WeekdayLong), modifiers.caseSensitive)
    ensures ParseWeekday(input, modifiers)
         == Some(ParsedItem(input[|WeekdayName(weekday, modifiers.repr == WeekdayLong)|..], weekday))
  {
    var long := modifiers.repr == WeekdayLong;
    var table := WeekdayTable(modifiers.repr, modifiers.oneIndexed);
    var cs := modifiers.caseSensitive;
    StartsWithKey3(input, WeekdayName(weekday, long), cs);
    var i := weekday.NumberDaysFromMonday();
    WeekdayNumbering(table[i].1, weekday);
    forall j | 0 <= j < i
      ensures !StartsWith(input, table[j].0, cs)
    {
      if StartsWith(input, table[j].0, cs) {
        StartsWithKey3(input, table[j].0, cs);
        WeekdayKeysDistinct(table[j].1, weekday, long);
      }
    }
    FirstMatchPicks(table, cs, input, i);
  }

  /** `monday` is Monday when names are matched without case sensitivity. */
  lemma LowerCaseWeekdayName()
    ensures ParseWeekday(Bytes("monday"), WeekdayModifier(WeekdayLong, true, false)) == Some(ParsedItem([], Monday))
  {
    ParseWeekdayName(Monday, WeekdayModifier(WeekdayLong, true, false), Bytes("monday"));
  }

  // ---------------------------------------------------------------- numeric fields

  /** `parse_week_number`: two digits. */
  function ParseWeekNumber(input: seq<byte>, padding: Padding): (r: Option<ParsedItem<nat>>)
    ensures r.Some? ==> r.value.value < 100
    ensures padding == Zero ==> r == ExactlyNDigits(2, input)
  {
    ExactlyNDigitsPadded(2, padding, input)
  }

  /** `parse_ordinal`: three digits, not all zero. */
  function ParseOrdinal(input: seq<byte>, padding: Padding): (r: Option<ParsedItem<nat>>)
    ensures r.Some? ==> 1 <= r.value.value < 1000
    ensures r.Some? <==> ExactlyNDigitsPadded(3, padding, input).Some? && ExactlyNDigitsPadded(3, padding, input).value.value != 0
  {
    NonZero(ExactlyNDigitsPadded(3, padding, input))
  }

  /** `parse_day`: two digits, not both zero. */
  function ParseDay(input: seq<byte>, padding: Padding): (r: Option<ParsedItem<nat>>)
    ensures r.Some? ==> 1 <= r.value.value < 100
    ensures r.Some? <==> ExactlyNDigitsPadded(2, padding, input).Some? && ExactlyNDigitsPadded(2, padding, input).value.value != 0
  {
    NonZero(ExactlyNDigitsPadded(2, padding, input))
  }

  /** The integer parse into a `NonZero` type: zero is no match. */
  function NonZero(r: Option<ParsedItem<nat>>): (z: Option<ParsedItem<nat>>)
    ensures z.Some? <==> r.Some? && r.value.value != 0
    ensures z.Some? ==> z == r
  {
    if r.Some? && r.value.value != 0 then r else None
  }

  /** `parse_hour`: two digits. */
  function ParseHour(input: seq<byte>, padding: Padding): (r: Option<ParsedItem<nat>>)
    ensures r.Some? ==> r.value.value < 100
    ensures padding == Zero ==> r == ExactlyNDigits(2, input)
  {
    ExactlyNDigitsPadded(2, padding, input)
  }

  /** `parse_minute`: two digits. */
  function ParseMinute(input: seq<byte>, padding: Padding): (r: Option<ParsedItem<nat>>)
    ensures r.Some? ==> r.value.value < 100
    ensures padding == Zero ==> r == ExactlyNDigits(2, input)
  {
    ExactlyNDigitsPadded(2, padding, input)
  }

  /** `parse_second`: two digits. */
  function ParseSecond(input: seq<byte>, padding: Padding): (r: Option<ParsedItem<nat>>)
    ensures r.Some? ==> r.value.value < 100
    ensures padding == Zero ==> r == ExactlyNDigits(2, input)
  {
    ExactlyNDigitsPadded(2, padding, input)
  }

  /** Two-digit fields written zero padded read back, whatever follows;
      days and ordinals only when they are not zero. */
  lemma NumericFieldsRoundTrip(v: nat, rest: seq<byte>)
    requires v < 100
    ensures ParseHour(EncodeDigits(v, 2) + rest, Zero) == Some(ParsedItem(rest, v))
    ensures ParseMinute(EncodeDigits(v, 2) + rest, Zero) == Some(ParsedItem(rest, v))
    ensures ParseSecond(EncodeDigits(v, 2) + rest, Zero) == Some(ParsedItem(rest, v))
    ensures ParseWeekNumber(EncodeDigits(v, 2) + rest, Zero) == Some(ParsedItem(rest, v))
    ensures ParseDay(EncodeDigits(v, 2) + rest, Zero) == if v == 0 then None else Some(ParsedItem(rest, v))
  {
    ExactlyNDigitsEncoded(v, 2, rest);
  }

  lemma OrdinalRoundTrip(v: nat, rest: seq<byte>)
    requires v < 1000
    ensures ParseOrdinal(EncodeDigits(v, 3) + rest, Zero) == if v == 0 then None else Some(ParsedItem(rest, v))
  {
    ExactlyNDigitsEncoded(v, 3, rest);
  }

  /** With space padding a one-digit value may stand after a space, and
      without padding it may stand alone. */
  lemma PaddedSingleDigit(d: byte, rest: seq<byte>)
    requires IsDigit(d)
    requires |rest| > 0 ==> !IsDigit(rest[0])
    ensures ParseHour([SPACE, d] + rest, Space) == Some(ParsedItem(rest, DigitValue(d)))
    ensures ParseHour([d] + rest, NoPadding) == Some(ParsedItem(rest, DigitValue(d)))
    ensures ParseHour([d] + rest, Zero).None?
  {
    var input := [SPACE, d] + rest;
    assert LeadingSpaces(input) == 1;
    assert input[1..] == [d] + rest;
    assert ([d] + rest)[1..] == rest;
    LeadingDigitsAppend([d], rest);
    assert ([d] + rest)[..1] == [d];
    assert DigitsValue([d]) == DigitValue(d) by {
      assert [d][..0] == [];
    }
  }

  // ---------------------------------------------------------------- period

  datatype Period = Am | Pm

  datatype PeriodModifier = PeriodModifier(isUppercase: bool, caseSensitive: bool)

  function PeriodName(period: Period, isUppercase: bool): (s: seq<byte>)
    ensures |s| == 2
  {
    match (period, isUppercase)
    case (Am, true) => Bytes("AM")
    case (Pm, true) => Bytes("PM")
    case (Am, false) => Bytes("am")
    case (Pm, false) => Bytes("pm")
  }

  /** `parse_period`: "AM" or "PM", in the modifier's case. */
  function ParsePeriod(input: seq<byte>, modifiers: PeriodModifier): (r: Option<ParsedItem<Period>>)
    ensures r.Some? ==>
      && StartsWith(input, PeriodName(r.value.value, modifiers.isUppercase), modifiers.caseSensitive)
      && r.value.remaining == input[2..]
  {
    var table := [ (PeriodName(Am, modifiers.isUppercase), Am), (PeriodName(Pm, modifiers.isUppercase), Pm) ];
    var r := FirstMatch(table, modifiers.caseSensitive, input);
    if r.Some? then
      var i :| 0 <= i < 2 && FirstMatchAt(table, modifiers.caseSensitive, input, i, r.value);
      r
    else r
  }

  /** A period reads back from its name; without case sensitivity also from
      its name in the other case. */
  lemma ParsePeriodName(period: Period, modifiers: PeriodModifier, rest: seq<byte>)
    ensures ParsePeriod(PeriodName(period, modifiers.isUppercase) + rest, modifiers) == Some(ParsedItem(rest, period))
    ensures !modifiers.caseSensitive ==>
      ParsePeriod(PeriodName(period, !modifiers.isUppercase) + rest, modifiers) == Some(ParsedItem(rest, period))
  {
    var table := [ (PeriodName(Am, modifiers.isUppercase), Am), (PeriodName(Pm, modifiers.isUppercase), Pm) ];
    var cs := modifiers.caseSensitive;
    var input := PeriodName(period, modifiers.isUppercase) + rest;
    StartsWithSelf(PeriodName(period, modifiers.isUppercase), rest, cs);
    if period == Am {
      FirstMatchPicks(table, cs, input, 0);
    } else {
      LiteralsExclusive(input, PeriodName(Pm, modifiers.isUppercase), PeriodName(Am, modifiers.isUppercase), cs, 0);
      FirstMatchPicks(table, cs, input, 1);
    }
    if !cs {
      var other := PeriodName(period, !modifiers.isUppercase) + rest;
      assert other[..2] == PeriodName(period, !modifiers.isUppercase);
      assert other[2..] == rest;
      assert StartsWith(other, PeriodName(period, modifiers.isUppercase), cs);
      if period == Am {
        FirstMatchPicks(table, cs, other, 0);
      } else {
        LiteralsExclusive(other, PeriodName(Pm, modifiers.isUppercase), PeriodName(Am, modifiers.isUppercase), cs, 0);
        FirstMatchPicks(table, cs, other, 1);
      }
    }
  }

  // ---------------------------------------------------------------- subsecond

  datatype SubsecondDigits = One | Two | Three | Four | Five | Six | Seven | Eight | Nine | OneOrMore

  /** The width of a fixed-width subsecond. */
  function Width(digits: SubsecondDigits): (n: nat)
    requires digits != OneOrMore
    ensures 1 <= n <= 9
  {
    match digits
    case One => 1 case Two => 2 case Three => 3 case Four => 4 case Five => 5
    case Six => 6 case Seven => 7 case Eight => 8 case Nine => 9
  }

  /** The weight of the digit at position `i` after the decimal point, in
      nanoseconds: 10^8 for the first, down to 1 for the ninth, and 0 beyond
      (the multiplier divided by ten once per digit). */
  function DigitWeight(i: nat): (w: nat)
    ensures i < 9 ==> w == Pow10(8 - i)
    ensures i >= 9 ==> w == 0
  {
    if i < 9 then Pow10(8 - i) else 0
  }

  /** The nanoseconds a run of fractional digits stands for. */
  function SubsecondValue(ds: seq<byte>): nat
    requires AllDigits(ds)
  {
    if |ds| == 0 then 0
    else SubsecondValue(ds[..|ds| - 1]) + DigitValue(ds[|ds| - 1]) * DigitWeight(|ds| - 1)
  }

  /** At most nine digits, each at its decimal place: the run read as a
      number and scaled to nanoseconds. */
  lemma {:induction false} SubsecondValueOfShortRun(ds: seq<byte>)
    requires AllDigits(ds) && |ds| <= 9
    ensures SubsecondValue(ds) == DigitsValue(ds) * Pow10(9 - |ds|)
  {
    if |ds| > 0 {
      var n := |ds|;
      var init := ds[..n - 1];
      SubsecondValueOfShortRun(init);
      var p := Pow10(9 - n);
      assert Pow10(10 - n) == 10 * p;
      ScaleDigit(DigitsValue(init), DigitValue(ds[n - 1]), p);
    }
  }

  lemma ScaleDigit(a: int, d: int, p: int)
    ensures a * (10 * p) + d * p == (a * 10 + d) * p
  {
  }

  /** Digits after the ninth add nothing. */
  lemma {:induction false} SubsecondValueOfLongRun(ds: seq<byte>)
    requires AllDigits(ds) && |ds| > 9
    ensures SubsecondValue(ds) == SubsecondValue(ds[..9])
  {
    var init := ds[..|ds| - 1];
    assert init[..9] == ds[..9];
    if |init| > 9 {
      SubsecondValueOfLongRun(init);
    }
  }

  /** A subsecond is always less than a second. */
  lemma SubsecondValueBound(ds: seq<byte>)
    requires AllDigits(ds)
    ensures SubsecondValue(ds) < 1_000_000_000
  {
    var short := if |ds| <= 9 then ds else ds[..9];
    if |ds| > 9 {
      SubsecondValueOfLongRun(ds);
    }
    SubsecondValueOfShortRun(short);
    ScaledBelow(DigitsValue(short), |short|);
  }

  /** A number of `n` digits scaled by 10^(9-n) stays below 10^9. */
  lemma ScaledBelow(v: nat, n: nat)
    requires n <= 9 && v < Pow10(n)
    ensures v * Pow10(9 - n) < 1_000_000_000
  {
    Pow10Add(n, 9 - n);
    Pow10Values();
    Ints.MulStrictlyBelow(v, Pow10(n), Pow10(9 - n));
  }

  /** The fixed-width arms: exactly `n` digits, multiplied by 10^(9-n). */
  function FixedWidthSubsecond(input: seq<byte>, n: nat): (r: Option<ParsedItem<nat>>)
    requires 1 <= n <= 9
    ensures r.Some? <==> n <= |input| && AllDigits(input[..n])
    ensures r.Some? ==> r.value == ParsedItem(input[n..], DigitsValue(input[..n]) * Pow10(9 - n))
    ensures r.Some? ==> r.value.value < 1_000_000_000
  {
    var parsed := ExactlyNDigits(n, input);
    if parsed.None? then None
    else
      ScaledBelow(parsed.value.value, n);
      Some(ParsedItem(parsed.value.remaining, parsed.value.value * Pow10(9 - n)))
  }

  /** `parse_subsecond`. A fixed width reads exactly that many digits and
      scales them to nanoseconds; `OneOrMore` reads the whole leading run of
      digits, at least one, weighting each by its decimal place. */
  method ParseSubsecond(input: seq<byte>, digits: SubsecondDigits) returns (r: Option<ParsedItem<nat>>)
    ensures digits != OneOrMore ==>
      var n := Width(digits);
      && (r.Some? <==> n <= |input| && AllDigits(input[..n]))
      && (r.Some? ==> r.value == ParsedItem(input[n..], DigitsValue(input[..n]) * Pow10(9 - n)))
    ensures digits == OneOrMore ==>
      var k := LeadingDigits(input);
      && (r.Some? <==> k >= 1)
      && (r.Some? ==> r.value == ParsedItem(input[k..], SubsecondValue(input[..k])))
    ensures r.Some? ==> r.value.value < 1_000_000_000
  {
    if digits != OneOrMore {
      return FixedWidthSubsecond(input, Width(digits));
    }
    var first := AnyDigit(input);
    if first.None? {
      return None;
    }
    var rest := first.value.remaining;
    var value := DigitValue(first.value.value) * 100_000_000;
    var multiplier := 10_000_000;
    ghost var i := 1;
    assert input[..1] == [input[0]] && [input[0]][..0] == [];
    var next := AnyDigit(rest);
    RunContinues(input, 1);
    while next.Some?
      invariant 1 <= i <= LeadingDigits(input)
      invariant rest == input[i..]
      invariant AllDigits(input[..i])
      invariant value == SubsecondValue(input[..i])
      invariant multiplier == DigitWeight(i)
      invariant next == AnyDigit(rest)
      invariant next.Some? <==> i < LeadingDigits(input)
      decreases |rest|
    {
      SubsecondStep(input, i);
      value := value + DigitValue(next.value.value) * multiplier;
      rest := next.value.remaining;
      multiplier := multiplier / 10;
      i := i + 1;
      next := AnyDigit(rest);
      RunContinues(input, i);
    }
    SubsecondValueBound(input[..i]);
    return Some(ParsedItem(rest, value));
  }

  /** One more digit of the run, at the next decimal place. */
  lemma SubsecondStep(input: seq<byte>, i: nat)
    requires i < LeadingDigits(input)
    ensures AllDigits(input[..i]) && AllDigits(input[..i + 1])
    ensures SubsecondValue(input[..i + 1]) == SubsecondValue(input[..i]) + DigitValue(input[i]) * DigitWeight(i)
    ensures DigitWeight(i) / 10 == DigitWeight(i + 1)
  {
    var k := LeadingDigits(input);
    assert input[..i + 1] == input[..k][..i + 1];
    assert input[..i + 1][..i] == input[..i];
  }

  /** Inside the leading run of digits every position holds a digit, and
      its end is the first position that does not. */
  lemma RunContinues(input: seq<byte>, i: nat)
    requires i <= LeadingDigits(input)
    ensures i < LeadingDigits(input) <==> AnyDigit(input[i..]).Some?
  {
    var k := LeadingDigits(input);
    if i < k {
      assert input[..k][i] == input[i];
    }
  }

  // ---------------------------------------------------------------- offset

  datatype OffsetHourModifier = OffsetHourModifier(signIsMandatory: bool, padding: Padding)

  /** `parse_offset_hour`: the hour and whether it was negative, so that
      "-00" keeps its sign for the minutes and seconds after it. */
  function ParseOffsetHour(input: seq<byte>, modifiers: OffsetHourModifier): (r: Option<ParsedItem<(int, bool)>>)
    ensures var signed := OptSign(input);
      var hour := ExactlyNDigitsPadded(2, modifiers.padding, signed.remaining);
      && (r.Some? <==> hour.Some? && !(signed.value.None? && modifiers.signIsMandatory))
      && (r.Some? ==> r.value.remaining == hour.value.remaining)
      && (r.Some? && signed.value == Some(MINUS) ==> r.value.value == (-(hour.value.value as int), true))
      && (r.Some? && signed.value != Some(MINUS) ==> r.value.value == (hour.value.value, false))
    ensures r.Some? ==> -99 <= r.value.value.0 <= 99
  {
    var signed := OptSign(input);
    match ExactlyNDigitsPadded(2, modifiers.padding, signed.remaining)
    case None => None
    case Some(hour) =>
      if signed.value == Some(MINUS) then Some(ParsedItem(hour.remaining, (-(hour.value as int), true)))
      else if signed.value.None? && modifiers.signIsMandatory then None
      else Some(ParsedItem(hour.remaining, (hour.value, false)))
  }

  /** "-00" and "+00" both read zero hours and differ only in the flag. */
  lemma NegativeZeroOffsetHour(rest: seq<byte>, modifiers: OffsetHourModifier)
    requires modifiers.padding == Zero
    ensures ParseOffsetHour([MINUS] + EncodeDigits(0, 2) + rest, modifiers) == Some(ParsedItem(rest, (0, true)))
    ensures ParseOffsetHour([PLUS] + EncodeDigits(0, 2) + rest, modifiers) == Some(ParsedItem(rest, (0, false)))
  {
    SignedZeroOffsetHour(MINUS, rest, modifiers);
    SignedZeroOffsetHour(PLUS, rest, modifiers);
  }

  lemma SignedZeroOffsetHour(sign: byte, rest: seq<byte>, modifiers: OffsetHourModifier)
    requires (sign == MINUS || sign == PLUS) && modifiers.padding == Zero
    ensures ParseOffsetHour([sign] + EncodeDigits(0, 2) + rest, modifiers) == Some(ParsedItem(rest, (0, sign == MINUS)))
  {
    var digits := EncodeDigits(0, 2) + rest;
    var input := [sign] + digits;
    assert input == [sign] + EncodeDigits(0, 2) + rest;
    assert input[0] == sign && input[1..] == digits;
    assert OptSign(input) == ParsedItem(digits, Some(sign));
    ExactlyNDigitsEncoded(0, 2, rest);
    assert ExactlyNDigitsPadded(2, modifiers.padding, digits) == Some(ParsedItem(rest, 0));
  }

  /** An unsigned offset hour is accepted exactly when no sign is demanded. */
  lemma UnsignedOffsetHour(hour: nat, rest: seq<byte>, modifiers: OffsetHourModifier)
    requires hour < 100 && modifiers.padding == Zero
    ensures ParseOffsetHour(EncodeDigits(hour, 2) + rest, modifiers)
         == if modifiers.signIsMandatory then None else Some(ParsedItem(rest, (hour, false)))
  {
    ExactlyNDigitsEncoded(hour, 2, rest);
    var ds := EncodeDigits(hour, 2);
    assert (ds + rest)[0] == ds[0];
  }

  /** `parse_offset_minute`: two digits. */
  function ParseOffsetMinute(input: seq<byte>, padding: Padding): (r: Option<ParsedItem<nat>>)
    ensures r.Some? ==> r.value.value < 100
    ensures padding == Zero ==> r == ExactlyNDigits(2, input)
  {
    ExactlyNDigitsPadded(2, padding, input)
  }

  /** `parse_offset_second`: two digits. */
  function ParseOffsetSecond(input: seq<byte>, padding: Padding): (r: Option<ParsedItem<nat>>)
    ensures r.Some? ==> r.value.value < 100
    ensures padding == Zero ==> r == ExactlyNDigits(2, input)
  {
    ExactlyNDigitsPadded(2, padding, input)
  }

  // ---------------------------------------------------------------- ignore, end

  /** `parse_ignore`: skip `count` bytes (a non-zero `u16`). */
  function ParseIgnore(input: seq<byte>, count: nat): (r: Option<ParsedItem<()>>)
    requires 1 <= count < 0x1_0000
    ensures r.Some? <==> count <= |input|
    ensures r.Some? ==> |r.value.remaining| == |input| - count && input == input[..count] + r.value.remaining
  {
    if count <= |input| then Some(ParsedItem(input[count..], ())) else None
  }

  /** Ignoring the length of a prefix leaves what follows it. */
  lemma ParseIgnorePrefix(skipped: seq<byte>, rest: seq<byte>)
    requires 1 <= |skipped| < 0x1_0000
    ensures ParseIgnore(skipped + rest, |skipped|) == Some(ParsedItem(rest, ()))
  {
    assert (skipped + rest)[|skipped|..] == rest;
  }

  /** `parse_end`: only the empty input, which is returned as it is. */
  function ParseEnd(input: seq<byte>): (r: Option<ParsedItem<()>>)
    ensures r.Some? <==> |input| == 0
    ensures r.Some? ==> r.value.remaining == input
  {
    if |input| == 0 then Some(ParsedItem(input, ())) else None
  }

  // ---------------------------------------------------------------- Unix timestamp

  datatype UnixTimestampPrecision = Second | Millisecond | Microsecond | Nanosecond

  datatype UnixTimestampModifier = UnixTimestampModifier(precision: UnixTimestampPrecision, signIsMandatory: bool)

  /** 10^23: every timestamp the parser reads is below it in magnitude,
      so it fits the `i128` it is returned in. */
  const NANOSECOND_TIMESTAMP_BOUND: int := 100_000_000_000_000_000_000_000

  /** The most digits each precision reads, so that the value in
      nanoseconds stays below 10^23. */
  function MaxDigits(precision: UnixTimestampPrecision): nat {
    match precision
    case Second => 14 case Millisecond => 17 case Microsecond => 20 case Nanosecond => 23
  }

  /** A count of units of the precision, in nanoseconds. */
  function ToNanoseconds(v: nat, precision: UnixTimestampPrecision): (n: nat)
    ensures precision == Second ==> n == v * Pow10(9)
    ensures precision == Millisecond ==> n == v * Pow10(6)
    ensures precision == Microsecond ==> n == v * Pow10(3)
    ensures precision == Nanosecond ==> n == v
    ensures n == v * Pow10(23 - MaxDigits(precision))
  {
    Pow10Values();
    assert Pow10(6) == 1_000_000 && Pow10(3) == 1_000;
    match precision
    case Second => v * 1_000_000_000
    case Millisecond => v * 1_000_000
    case Microsecond => v * 1_000
    case Nanosecond => v
  }

  /** `parse_unix_timestamp`: an optional sign, one to `MaxDigits` digits,
      scaled to nanoseconds. */
  function ParseUnixTimestamp(input: seq<byte>, modifiers: UnixTimestampModifier): (r: Option<ParsedItem<int>>)
    ensures var signed := OptSign(input);
      var digits := NToMDigits(1, MaxDigits(modifiers.precision), signed.remaining);
      && (r.Some? <==> digits.Some? && !(signed.value.None? && modifiers.signIsMandatory))
      && (r.Some? ==>
           && r.value.remaining == digits.value.remaining
           && r.value.value == Negated(signed.value == Some(MINUS), ToNanoseconds(digits.value.value, modifiers.precision)))
    ensures r.Some? ==> -NANOSECOND_TIMESTAMP_BOUND < r.value.value < NANOSECOND_TIMESTAMP_BOUND
  {
    var signed := OptSign(input);
    var digits := NToMDigits(1, MaxDigits(modifiers.precision), signed.remaining);
    if digits.None? then None
    else
      var nanos := ToNanoseconds(digits.value.value, modifiers.precision);
      ScaledTimestamp(digits.value.value, modifiers.precision);
      if signed.value == Some(MINUS) then Some(ParsedItem(digits.value.remaining, -(nanos as int)))
      else if signed.value.None? && modifiers.signIsMandatory then None
      else Some(ParsedItem(digits.value.remaining, nanos))
  }

  /** The value, negated when `negative`. */
  function Negated(negative: bool, x: int): (r: int)
    ensures r == if negative then -x else x
  {
    if negative then -x else x
  }

  /** The scaled timestamp stays below 10^23. */
  lemma ScaledTimestamp(v: nat, precision: UnixTimestampPrecision)
    requires v < Pow10(MaxDigits(precision))
    ensures ToNanoseconds(v, precision) < NANOSECOND_TIMESTAMP_BOUND
  {
    Pow10Values();
  }

  /** A timestamp written as a run of one to `MaxDigits` digits reads
      back scaled to nanoseconds when what follows is not a digit. */
  lemma ParseUnixTimestampDigits(ds: seq<byte>, rest: seq<byte>, precision: UnixTimestampPrecision)
    requires AllDigits(ds) && 1 <= |ds| <= MaxDigits(precision)
    requires |rest| > 0 ==> !IsDigit(rest[0])
    ensures ParseUnixTimestamp(ds + rest, UnixTimestampModifier(precision, false))
         == Some(ParsedItem(rest, ToNanoseconds(DigitsValue(ds), precision)))
  {
    var input := ds + rest;
    LeadingDigitsAppend(ds, rest);
    assert input[..|ds|] == ds;
    assert input[|ds|..] == rest;
    assert input[0] == ds[0];
    assert OptSign(input) == ParsedItem(input, None);
    var digits := NToMDigits(1, MaxDigits(precision), input);
    assert digits == Some(ParsedItem(rest, DigitsValue(ds)));
    var r := ParseUnixTimestamp(input, UnixTimestampModifier(precision, false));
    assert r.Some? && r.value.remaining == rest;
  }

  /** A leading `-` negates whatever the unsigned digits read. */
  lemma ParseUnixTimestampNegates(input: seq<byte>, modifiers: UnixTimestampModifier)
    requires Sign(input).None?
    ensures var r := ParseUnixTimestamp(input, UnixTimestampModifier(modifiers.precision, false));
      var n := ParseUnixTimestamp([MINUS] + input, modifiers);
      && (n.Some? <==> r.Some?)
      && (n.Some? ==> n.value == ParsedItem(r.value.remaining, -r.value.value))
  {
    assert ([MINUS] + input)[1..] == input;
    assert OptSign([MINUS] + input) == ParsedItem(input, Some(MINUS));
  }
}
