/** The byte-slice parser combinators the component parsers are built from
    (`parsing::combinator`, which is not part of this model), stated as spec
    functions over sequences of bytes. A parser either finds nothing (`None`)
    or yields a value together with the input it did not consume. */
module Combinators {
  import opened Ints
  import opened Wrappers

  type byte = u8

  /** A parsed value and the remaining, unconsumed input. */
  datatype ParsedItem<T> = ParsedItem(remaining: seq<byte>, value: T)

  const ZERO_DIGIT: byte := 0x30
  const MINUS: byte := 0x2D
  const PLUS: byte := 0x2B
  const SPACE: byte := 0x20

  /** The bytes of an ASCII string literal. */
  function Bytes(s: string): (r: seq<byte>)
    requires forall i :: 0 <= i < |s| ==> s[i] as int < 0x80
    ensures |r| == |s|
    ensures forall i :: 0 <= i < |s| ==> r[i] == s[i] as int
  {
    seq(|s|, i requires 0 <= i < |s| => s[i] as int)
  }

  predicate IsDigit(b: byte) {
    ZERO_DIGIT <= b <= 0x39
  }

  function DigitValue(b: byte): (n: nat)
    requires IsDigit(b)
    ensures n < 10 && b == ZERO_DIGIT + n
  {
    b - ZERO_DIGIT
  }

  predicate AllDigits(s: seq<byte>) {
    forall i :: 0 <= i < |s| ==> IsDigit(s[i])
  }

  function Pow10(n: nat): (p: nat)
    ensures p >= 1
  {
    if n == 0 then 1 else 10 * Pow10(n - 1)
  }

  lemma {:induction false} Pow10Monotone(a: nat, b: nat)
    requires a <= b
    ensures Pow10(a) <= Pow10(b)
  {
    if a < b {
      Pow10Monotone(a, b - 1);
    }
  }

  /** The powers of ten the timestamp scaling uses. */
  lemma Pow10Values()
    ensures Pow10(9) == 1_000_000_000
    ensures Pow10(14) == 100_000_000_000_000
    ensures Pow10(17) == 100_000_000_000_000_000
    ensures Pow10(20) == 100_000_000_000_000_000_000
    ensures Pow10(23) == 100_000_000_000_000_000_000_000
  {
    assert Pow10(3) == 1_000;
    assert Pow10(6) == 1_000_000;
    assert Pow10(9) == 1_000_000_000;
    assert Pow10(12) == 1_000_000_000_000;
    assert Pow10(14) == 100_000_000_000_000;
    assert Pow10(17) == 100_000_000_000_000_000;
    assert Pow10(20) == 100_000_000_000_000_000_000;
  }

  lemma {:induction false} Pow10Add(a: nat, b: nat)
    ensures Pow10(a + b) == Pow10(a) * Pow10(b)
  {
    if b > 0 {
      Pow10Add(a, b - 1);
      assert Pow10(a + b) == 10 * Pow10(a + b - 1);
    }
  }

  /** The number a run of decimal digits spells, most significant first
      (the integer parse of the digits, `parse_bytes`). */
  function DigitsValue(ds: seq<byte>): (n: nat)
    requires AllDigits(ds)
    ensures n < Pow10(|ds|)
  {
    if |ds| == 0 then 0
    else DigitsValue(ds[..|ds| - 1]) * 10 + DigitValue(ds[|ds| - 1])
  }

  /** The length of the run of digits the input starts with. */
  function LeadingDigits(s: seq<byte>): (k: nat)
    ensures k <= |s|
    ensures AllDigits(s[..k])
    ensures k < |s| ==> !IsDigit(s[k])
  {
    if |s| > 0 && IsDigit(s[0]) then
      var k := 1 + LeadingDigits(s[1..]);
      assert s[..k] == [s[0]] + s[1..][..k - 1];
      k
    else 0
  }

  /** The length of the run of spaces the input starts with. */
  function LeadingSpaces(s: seq<byte>): (k: nat)
    ensures k <= |s|
    ensures forall i :: 0 <= i < k ==> s[i] == SPACE
    ensures k < |s| ==> s[k] != SPACE
  {
    if |s| > 0 && s[0] == SPACE then 1 + LeadingSpaces(s[1..]) else 0
  }

  /** `rest` is what is left of `input` after some prefix is consumed. */
  predicate IsSuffix(rest: seq<byte>, input: seq<byte>) {
    |rest| <= |input| && input[|input| - |rest|..] == rest
  }

  function Min(a: int, b: int): int {
    if a <= b then a else b
  }

  /** `sign`: a leading `-` or `+`. */
  function Sign(input: seq<byte>): (r: Option<ParsedItem<byte>>)
    ensures r.Some? <==> |input| > 0 && (input[0] == MINUS || input[0] == PLUS)
    ensures r.Some? ==> r.value == ParsedItem(input[1..], input[0])
  {
    if |input| > 0 && (input[0] == MINUS || input[0] == PLUS) then
      Some(ParsedItem(input[1..], input[0]))
    else None
  }

  /** `opt(sign)`: a sign if there is one; never fails. */
  function OptSign(input: seq<byte>): (r: ParsedItem<Option<byte>>)
    ensures r.value.Some? <==> Sign(input).Some?
    ensures r.value.Some? ==> r == ParsedItem(input[1..], Some(input[0]))
    ensures r.value.None? ==> r.remaining == input
  {
    match Sign(input)
    case Some(item) => ParsedItem(item.remaining, Some(item.value))
    case None => ParsedItem(input, None)
  }

  /** `any_digit`: one leading ASCII digit. */
  function AnyDigit(input: seq<byte>): (r: Option<ParsedItem<byte>>)
    ensures r.Some? <==> |input| > 0 && IsDigit(input[0])
    ensures r.Some? ==> r.value == ParsedItem(input[1..], input[0])
  {
    if |input| > 0 && IsDigit(input[0]) then Some(ParsedItem(input[1..], input[0])) else None
  }

  /** `n_to_m_digits::<N, M>`: at least `n` and at most `m` digits, taken
      greedily, and their value. */
  function NToMDigits(n: nat, m: nat, input: seq<byte>): (r: Option<ParsedItem<nat>>)
    requires n <= m
    ensures r.Some? <==> LeadingDigits(input) >= n
    ensures r.Some? ==>
      var k := Min(LeadingDigits(input), m);
      && n <= k <= m
      && r.value.remaining == input[k..]
      && r.value.value == DigitsValue(input[..k])
      && r.value.value < Pow10(m)
  {
    var k := Min(LeadingDigits(input), m);
    if k < n then None
    else
      assert input[..k] == input[..LeadingDigits(input)][..k];
      Pow10Monotone(k, m);
      Some(ParsedItem(input[k..], DigitsValue(input[..k])))
  }

  /** `exactly_n_digits::<N>`. */
  function ExactlyNDigits(n: nat, input: seq<byte>): (r: Option<ParsedItem<nat>>)
    ensures r.Some? <==> n <= |input| && AllDigits(input[..n])
    ensures r.Some? ==> r.value == ParsedItem(input[n..], DigitsValue(input[..n]))
    ensures r.Some? ==> r.value.value < Pow10(n)
  {
    DigitPrefix(input, n);
    NToMDigits(n, n, input)
  }

  /** The input starts with `n` digits exactly when its leading run of
      digits is at least `n` long. */
  lemma {:induction false} DigitPrefix(s: seq<byte>, n: nat)
    ensures (n <= |s| && AllDigits(s[..n])) <==> LeadingDigits(s) >= n
  {
    if n > 0 && n <= |s| && AllDigits(s[..n]) {
      assert IsDigit(s[..n][0]);
      assert s[1..][..n - 1] == s[..n][1..];
      DigitPrefix(s[1..], n - 1);
    }
    if LeadingDigits(s) >= n {
      assert s[..n] == s[..LeadingDigits(s)][..n];
    }
  }

  /** The padding a fixed-width numeric field may carry. */
  datatype Padding = Space | Zero | NoPadding

  /** `n_to_m_digits_padded::<N, M>(padding)`: with zero padding the digits
      are read as they are; with no padding one to `m` digits are accepted;
      with space padding up to `n - 1` leading spaces stand for digits and
      are skipped, and the value is read from the digits after them. */
  function NToMDigitsPadded(n: nat, m: nat, padding: Padding, input: seq<byte>): (r: Option<ParsedItem<nat>>)
    requires 1 <= n <= m
    ensures r.Some? ==> r.value.value < Pow10(m)
    ensures r.Some? ==> IsSuffix(r.value.remaining, input) && |r.value.remaining| < |input|
    ensures padding == Zero ==> r == NToMDigits(n, m, input)
    ensures padding == NoPadding ==> r == NToMDigits(1, m, input)
    ensures padding == Space ==>
      var p := Min(LeadingSpaces(input), n - 1);
      r == NToMDigits(n - p, m - p, input[p..])
  {
    match padding
    case Zero =>
      DropIsSuffix(input, 0, Min(LeadingDigits(input), m));
      NToMDigits(n, m, input)
    case NoPadding =>
      DropIsSuffix(input, 0, Min(LeadingDigits(input), m));
      NToMDigits(1, m, input)
    case Space =>
      var p := Min(LeadingSpaces(input), n - 1);
      Pow10Monotone(m - p, m);
      DropIsSuffix(input, p, Min(LeadingDigits(input[p..]), m - p));
      NToMDigits(n - p, m - p, input[p..])
  }

  /** Dropping `p` bytes and then `k` more leaves a suffix of the input. */
  lemma DropIsSuffix(input: seq<byte>, p: nat, k: nat)
    requires p + k <= |input|
    ensures input[p..][k..] == input[p + k..]
    ensures IsSuffix(input[p + k..], input) && |input[p + k..]| == |input| - p - k
  {
  }

  /** `exactly_n_digits_padded::<N>(padding)`. */
  function ExactlyNDigitsPadded(n: nat, padding: Padding, input: seq<byte>): (r: Option<ParsedItem<nat>>)
    requires 1 <= n
    ensures r.Some? ==> r.value.value < Pow10(n)
    ensures r.Some? ==> IsSuffix(r.value.remaining, input) && |r.value.remaining| < |input|
    ensures padding == Zero ==> r == ExactlyNDigits(n, input)
  {
    NToMDigitsPadded(n, n, padding, input)
  }

  /** ASCII lower-casing of one byte. */
  function AsciiLower(b: byte): (c: byte)
    ensures 0x41 <= b <= 0x5A ==> c == b + 0x20
    ensures !(0x41 <= b <= 0x5A) ==> c == b
  {
    if 0x41 <= b <= 0x5A then b + 0x20 else b
  }

  /** `eq_ignore_ascii_case`. */
  predicate EqIgnoreAsciiCase(a: seq<byte>, b: seq<byte>) {
    |a| == |b| && forall i :: 0 <= i < |a| ==> AsciiLower(a[i]) == AsciiLower(b[i])
  }

  /** Whether the input starts with the literal, exactly or ignoring ASCII case. */
  predicate StartsWith(input: seq<byte>, literal: seq<byte>, caseSensitive: bool) {
    && |literal| <= |input|
    && (if caseSensitive then input[..|literal|] == literal
        else EqIgnoreAsciiCase(input[..|literal|], literal))
  }

  /** `first_match`: the value of the first option whose literal the input
      starts with, and the input after that literal. */
  function FirstMatch<T(==)>(options: seq<(seq<byte>, T)>, caseSensitive: bool, input: seq<byte>): (r: Option<ParsedItem<T>>)
    ensures r.Some? <==> exists i :: 0 <= i < |options| && StartsWith(input, options[i].0, caseSensitive)
    ensures r.Some? ==> exists i :: 0 <= i < |options| && FirstMatchAt(options, caseSensitive, input, i, r.value)
    ensures r.Some? ==> IsSuffix(r.value.remaining, input)
  {
    if |options| == 0 then None
    else if StartsWith(input, options[0].0, caseSensitive) then
      var r := Some(ParsedItem(input[|options[0].0|..], options[0].1));
      assert FirstMatchAt(options, caseSensitive, input, 0, r.value);
      r
    else
      var r := FirstMatch(options[1..], caseSensitive, input);
      assert forall i :: 0 < i < |options| ==> options[i] == options[1..][i - 1];
      if r.Some? then
        var i :| 0 <= i < |options[1..]| && FirstMatchAt(options[1..], caseSensitive, input, i, r.value);
        assert FirstMatchAt(options, caseSensitive, input, i + 1, r.value);
        r
      else
        r
  }

  /** Option `i` is the first that matches, and `item` is what it yields. */
  predicate FirstMatchAt<T(==)>(options: seq<(seq<byte>, T)>, caseSensitive: bool, input: seq<byte>, i: int, item: ParsedItem<T>)
    requires 0 <= i < |options|
  {
    && StartsWith(input, options[i].0, caseSensitive)
    && (forall j :: 0 <= j < i ==> !StartsWith(input, options[j].0, caseSensitive))
    && item == ParsedItem(input[|options[i].0|..], options[i].1)
  }

  /** The first matching option is the one `first_match` picks. */
  lemma {:induction false} FirstMatchPicks<T>(options: seq<(seq<byte>, T)>, caseSensitive: bool, input: seq<byte>, i: int)
    requires 0 <= i < |options|
    requires StartsWith(input, options[i].0, caseSensitive)
    requires forall j :: 0 <= j < i ==> !StartsWith(input, options[j].0, caseSensitive)
    ensures FirstMatch(options, caseSensitive, input) == Some(ParsedItem(input[|options[i].0|..], options[i].1))
  {
    if i > 0 {
      assert forall j :: 0 <= j < i - 1 ==> options[1..][j] == options[j + 1];
      FirstMatchPicks(options[1..], caseSensitive, input, i - 1);
    }
  }

  /** Two literals that differ, ignoring case, at a position both have
      cannot both start the same input. */
  lemma LiteralsExclusive(input: seq<byte>, a: seq<byte>, b: seq<byte>, caseSensitive: bool, k: nat)
    requires k < |a| && k < |b| && AsciiLower(a[k]) != AsciiLower(b[k])
    requires StartsWith(input, a, caseSensitive)
    ensures !StartsWith(input, b, caseSensitive)
  {
    assert input[..|a|][k] == input[k];
  }

  /** Every string starts with itself followed by anything. */
  lemma StartsWithSelf(literal: seq<byte>, rest: seq<byte>, caseSensitive: bool)
    ensures StartsWith(literal + rest, literal, caseSensitive)
    ensures (literal + rest)[|literal|..] == rest
  {
    assert (literal + rest)[..|literal|] == literal;
  }

  /** The fixed-width decimal encoding of a number, zero padded on the left. */
  function EncodeDigits(v: nat, width: nat): (ds: seq<byte>)
    requires v < Pow10(width)
    ensures |ds| == width && AllDigits(ds)
  {
    if width == 0 then []
    else EncodeDigits(v / 10, width - 1) + [ZERO_DIGIT + v % 10]
  }

  /** Reading back an encoded number gives the number. */
  lemma {:induction false} EncodeDigitsValue(v: nat, width: nat)
    requires v < Pow10(width)
    ensures DigitsValue(EncodeDigits(v, width)) == v
  {
    if width > 0 {
      var ds := EncodeDigits(v, width);
      assert ds[..width - 1] == EncodeDigits(v / 10, width - 1);
      EncodeDigitsValue(v / 10, width - 1);
    }
  }

  /** A run of digits followed by a non-digit is the whole leading run. */
  lemma {:induction false} LeadingDigitsAppend(ds: seq<byte>, rest: seq<byte>)
    requires AllDigits(ds)
    requires |rest| > 0 ==> !IsDigit(rest[0])
    ensures LeadingDigits(ds + rest) == |ds|
  {
    if |ds| > 0 {
      assert (ds + rest)[1..] == ds[1..] + rest;
      LeadingDigitsAppend(ds[1..], rest);
    }
  }

  /** Reading exactly `width` digits from an encoded number followed by
      anything gives the number back and leaves the rest. */
  lemma ExactlyNDigitsEncoded(v: nat, width: nat, rest: seq<byte>)
    requires v < Pow10(width)
    ensures ExactlyNDigits(width, EncodeDigits(v, width) + rest) == Some(ParsedItem(rest, v))
  {
    var ds := EncodeDigits(v, width);
    assert (ds + rest)[..width] == ds;
    assert (ds + rest)[width..] == rest;
    EncodeDigitsValue(v, width);
  }

  /** Reading `n` to `m` digits from an encoded number of a width in that
      range gives the number back when no digit follows it. */
  lemma NToMDigitsEncoded(v: nat, width: nat, n: nat, m: nat, rest: seq<byte>)
    requires n <= width <= m && v < Pow10(width)
    requires |rest| > 0 ==> !IsDigit(rest[0])
    ensures NToMDigits(n, m, EncodeDigits(v, width) + rest) == Some(ParsedItem(rest, v))
  {
    var ds := EncodeDigits(v, width);
    LeadingDigitsAppend(ds, rest);
    EncodeDigitsValue(v, width);
    assert (ds + rest)[..width] == ds;
    assert (ds + rest)[width..] == rest;
  }
}
