/** The `offset!` macro's parser: a UTC offset written as `utc`, or as a
    sign and `h[:m[:s]]`, read token by token from the macro's input. */
module OffsetMacro {
  import opened Ints
  import opened Wrappers

  /** A token of the macro input, as far as the offset parser tells them
      apart: an identifier, a punctuation character or an integer literal. */
  datatype Token = Ident(name: string) | Punct(ch: char) | Number(value: nat)

  /** The macro's errors (spans left out). */
  datatype MacroError =
    | UnexpectedToken(tree: Token)
    | UnexpectedEndOfInput
    | MissingComponent(name: string)
    | InvalidComponent(name: string, value: int)

  /** An `i8` parsed from an integer literal, which carries no sign. */
  type NonNegativeI8 = x: int | 0 <= x < 0x80

  /** The sign the offset is multiplied by. */
  type Sign = x: int | x == 1 || x == -1 witness 1

  /** The parsed offset; every field carries the same sign. */
  datatype Offset = Offset(hours: i8, minutes: i8, seconds: i8)

  /** The largest hour the macro accepts. */
  const MAX_HOURS: int := 25
  const MINUTES_PER_HOUR: int := 60
  const SECONDS_PER_MINUTE: int := 60

  // The token helpers, on the stream that is left: each returns its
  // outcome and the tokens that remain afterwards.

  /** `consume_any_ident`: takes an identifier among `idents` from the front;
      anything else is left in place. */
  function AnyIdentStep(idents: seq<string>, tokens: seq<Token>): (r: (Result<(), MacroError>, seq<Token>))
    ensures r.0.Ok? <==> |tokens| > 0 && tokens[0].Ident? && tokens[0].name in idents
    ensures r.1 == (if r.0.Ok? then tokens[1..] else tokens)
  {
    if |tokens| == 0 then (Err(UnexpectedEndOfInput), tokens)
    else if tokens[0].Ident? && tokens[0].name in idents then (Ok(()), tokens[1..])
    else (Err(UnexpectedToken(tokens[0])), tokens)
  }

  /** `consume_punct`: takes the punctuation `c` from the front; anything
      else is left in place. */
  function PunctStep(c: char, tokens: seq<Token>): (r: (Result<(), MacroError>, seq<Token>))
    ensures r.0.Ok? <==> |tokens| > 0 && tokens[0] == Punct(c)
    ensures r.1 == (if r.0.Ok? then tokens[1..] else tokens)
  {
    if |tokens| == 0 then (Err(UnexpectedEndOfInput), tokens)
    else if tokens[0] == Punct(c) then (Ok(()), tokens[1..])
    else (Err(UnexpectedToken(tokens[0])), tokens)
  }

  /** `consume_number::<i8>`: takes the front token, which must be an
      integer literal that fits an `i8`. */
  function NumberStep(name: string, tokens: seq<Token>): (r: (Result<NonNegativeI8, MacroError>, seq<Token>))
    ensures r.0.Ok? <==> |tokens| > 0 && tokens[0].Number? && tokens[0].value < 0x80
    ensures r.0.Ok? ==> r.0.value == tokens[0].value
    ensures r.1 == (if |tokens| == 0 then tokens else tokens[1..])
  {
    if |tokens| == 0 then (Err(UnexpectedEndOfInput), tokens)
    else match tokens[0]
      case Number(n) =>
        if n < 0x80 then (Ok(n), tokens[1..]) else (Err(InvalidComponent(name, n)), tokens[1..])
      case _ => (Err(UnexpectedToken(tokens[0])), tokens[1..])
  }

  // The parser as a function of the tokens: the reference the method
  // below is proved against.

  /** The sign: `+` or `-`; another token is consumed and reported, and
      an empty stream lacks the sign. */
  function ParseSign(tokens: seq<Token>): (r: (Result<Sign, MacroError>, seq<Token>))
  {
    var plus := PunctStep('+', tokens);
    if plus.0.Ok? then (Ok(1), plus.1)
    else
      var minus := PunctStep('-', plus.1);
      if minus.0.Ok? then (Ok(-1), minus.1)
      else if |minus.1| > 0 then (Err(UnexpectedToken(minus.1[0])), minus.1[1..])
      else (Err(MissingComponent("sign")), minus.1)
  }

  /** The seconds after the minutes: read only after a second `:`. */
  function ParseSeconds(tokens: seq<Token>): (r: (Result<NonNegativeI8, MacroError>, seq<Token>))
  {
    var colon := PunctStep(':', tokens);
    if colon.0.Err? then (Ok(0), colon.1)
    else
      var seconds := NumberStep("second", colon.1);
      if seconds.0.Err? then (Err(seconds.0.error), seconds.1)
      else (Ok(seconds.0.value), seconds.1)
  }

  /** The minutes and seconds after the hours: read only after a `:`;
      whatever is absent is 0. */
  function ParseMinutesSeconds(tokens: seq<Token>): (r: (Result<(NonNegativeI8, NonNegativeI8), MacroError>, seq<Token>))
  {
    var colon := PunctStep(':', tokens);
    if colon.0.Err? then (Ok((0, 0)), colon.1)
    else
      var minutes := NumberStep("minute", colon.1);
      if minutes.0.Err? then (Err(minutes.0.error), minutes.1)
      else
        var seconds := ParseSeconds(minutes.1);
        if seconds.0.Err? then (Err(seconds.0.error), seconds.1)
        else (Ok((minutes.0.value, seconds.0.value)), seconds.1)
  }

  /** An offset the macro can emit: hours within ±25, minutes and seconds
      within ±59, and the three fields never of opposite signs. */
  predicate InRange(o: Offset) {
    && -MAX_HOURS <= o.hours <= MAX_HOURS
    && -MINUTES_PER_HOUR < o.minutes < MINUTES_PER_HOUR
    && -SECONDS_PER_MINUTE < o.seconds < SECONDS_PER_MINUTE
    && ((o.hours >= 0 && o.minutes >= 0 && o.seconds >= 0) || (o.hours <= 0 && o.minutes <= 0 && o.seconds <= 0))
  }

  /** The range checks, in order (hours, then minutes, then seconds), and
      the sign applied to every field. */
  function Validate(sign: Sign, hours: NonNegativeI8, minutes: NonNegativeI8, seconds: NonNegativeI8): (r: Result<Offset, MacroError>)
    ensures r.Ok? <==> hours <= MAX_HOURS && minutes < MINUTES_PER_HOUR && seconds < SECONDS_PER_MINUTE
    ensures r.Ok? ==> InRange(r.value)
    ensures r.Ok? ==> r.value.hours == sign * hours && r.value.minutes == sign * minutes && r.value.seconds == sign * seconds
    ensures r.Err? ==> r.error.InvalidComponent?
  {
    if hours > MAX_HOURS then Err(InvalidComponent("hour", hours))
    else if minutes >= MINUTES_PER_HOUR then Err(InvalidComponent("minute", minutes))
    else if seconds >= SECONDS_PER_MINUTE then Err(InvalidComponent("second", seconds))
    else Ok(Offset(sign * hours, sign * minutes, sign * seconds))
  }

  /** `parse`: the offset and the tokens it leaves. Every offset it yields
      is in range, and it never leaves more tokens than it was given. */
  function ParseOffset(tokens: seq<Token>): (r: (Result<Offset, MacroError>, seq<Token>))
    ensures r.0.Ok? ==> InRange(r.0.value)
    ensures |r.1| <= |tokens|
  {
    var utc := AnyIdentStep(["utc", "UTC"], tokens);
    if utc.0.Ok? then (Ok(Offset(0, 0, 0)), utc.1)
    else
      var sign := ParseSign(utc.1);
      if sign.0.Err? then (Err(sign.0.error), sign.1)
      else
        var hours := NumberStep("hour", sign.1);
        if hours.0.Err? then (Err(hours.0.error), hours.1)
        else
          var rest := ParseMinutesSeconds(hours.1);
          if rest.0.Err? then (Err(rest.0.error), rest.1)
          else (Validate(sign.0.value, hours.0.value, rest.0.value.0, rest.0.value.1), rest.1)
  }

  /** The macro input: a `Peekable` token iterator the parser advances. */
  class TokenStream {
    var tokens: seq<Token>

    constructor(tokens: seq<Token>)
      ensures this.tokens == tokens
    {
      this.tokens := tokens;
    }

    /** `next`: the front token, if any, taken off the stream. */
    method Next() returns (tree: Option<Token>)
      modifies this
      ensures |old(tokens)| == 0 ==> tree == None && tokens == old(tokens)
      ensures |old(tokens)| > 0 ==> tree == Some(old(tokens)[0]) && tokens == old(tokens)[1..]
    {
      if |tokens| == 0 {
        tree := None;
      } else {
        tree := Some(tokens[0]);
        tokens := tokens[1..];
      }
    }

    method ConsumeAnyIdent(idents: seq<string>) returns (r: Result<(), MacroError>)
      modifies this
      ensures (r, tokens) == AnyIdentStep(idents, old(tokens))
    {
      var step := AnyIdentStep(idents, tokens);
      r, tokens := step.0, step.1;
    }

    method ConsumePunct(c: char) returns (r: Result<(), MacroError>)
      modifies this
      ensures (r, tokens) == PunctStep(c, old(tokens))
    {
      var step := PunctStep(c, tokens);
      r, tokens := step.0, step.1;
    }

    method ConsumeNumber(name: string) returns (r: Result<NonNegativeI8, MacroError>)
      modifies this
      ensures (r, tokens) == NumberStep(name, old(tokens))
    {
      var step := NumberStep(name, tokens);
      r, tokens := step.0, step.1;
    }

    /** `parse`: reads the offset off the front of the stream, step by
        step, leaving the stream where the reference parser leaves it. */
    method Parse() returns (r: Result<Offset, MacroError>)
      modifies this
      ensures (r, tokens) == ParseOffset(old(tokens))
    {
      var utc := ConsumeAnyIdent(["utc", "UTC"]);
      if utc.Ok? {
        return Ok(Offset(0, 0, 0));
      }
      ghost var afterUtc := tokens;

      var sign: Sign;
      var plus := ConsumePunct('+');
      if plus.Ok? {
        sign := 1;
      } else {
        var minus := ConsumePunct('-');
        if minus.Ok? {
          sign := -1;
        } else {
          var tree := Next();
          if tree.Some? {
            return Err(UnexpectedToken(tree.value));
          }
          return Err(MissingComponent("sign"));
        }
      }
      assert ParseSign(afterUtc) == (Ok(sign), tokens);

      var hours := ConsumeNumber("hour");
      if hours.Err? {
        return Err(hours.error);
      }
      ghost var afterHours := tokens;
      var minutes: NonNegativeI8 := 0;
      var seconds: NonNegativeI8 := 0;

      var colon := ConsumePunct(':');
      if colon.Ok? {
        var min := ConsumeNumber("minute");
        if min.Err? {
          return Err(min.error);
        }
        minutes := min.value;
        ghost var afterMinutes := tokens;

        var colonAgain := ConsumePunct(':');
        if colonAgain.Ok? {
          var sec := ConsumeNumber("second");
          if sec.Err? {
            assert ParseSeconds(afterMinutes) == (Err(sec.error), tokens);
            return Err(sec.error);
          }
          seconds := sec.value;
        }
        assert ParseSeconds(afterMinutes) == (Ok(seconds), tokens);
      }
      assert ParseMinutesSeconds(afterHours) == (Ok((minutes, seconds)), tokens);

      if hours.value > MAX_HOURS {
        r := Err(InvalidComponent("hour", hours.value));
      } else if minutes >= MINUTES_PER_HOUR {
        r := Err(InvalidComponent("minute", minutes));
      } else if seconds >= SECONDS_PER_MINUTE {
        r := Err(InvalidComponent("second", seconds));
      } else {
        r := Ok(Offset(sign * hours.value, sign * minutes, sign * seconds));
      }
    }
  }

  // What the parser promises.

  /** A leading `utc` or `UTC` is the zero offset, and nothing more is read. */
  lemma ParseUtc(name: string, rest: seq<Token>)
    requires name == "utc" || name == "UTC"
    ensures ParseOffset([Ident(name)] + rest) == (Ok(Offset(0, 0, 0)), rest)
  {
    assert ([Ident(name)] + rest)[1..] == rest;
  }

  /** Without the keyword a sign is required: any other front token is
      consumed and reported, and an empty input lacks the sign. */
  lemma {:induction false} SignRequired(tokens: seq<Token>)
    requires !(|tokens| > 0 && tokens[0].Ident? && tokens[0].name in ["utc", "UTC"])
    requires !(|tokens| > 0 && (tokens[0] == Punct('+') || tokens[0] == Punct('-')))
    ensures |tokens| == 0 ==> ParseOffset(tokens) == (Err(MissingComponent("sign")), tokens)
    ensures |tokens| > 0 ==> ParseOffset(tokens) == (Err(UnexpectedToken(tokens[0])), tokens[1..])
  {
    assert AnyIdentStep(["utc", "UTC"], tokens).1 == tokens;
    assert PunctStep('+', tokens).1 == tokens;
  }

  /** The punctuation written for a sign. */
  function SignToken(negative: bool): Token
  {
    Punct(if negative then '-' else '+')
  }

  function SignOf(negative: bool): (r: Sign)
    ensures r < 0 <==> negative
  {
    if negative then -1 else 1
  }

  /** The full form `±h:m:s` parses to the signed fields, whatever follows. */
  lemma {:induction false} ParseFullForm(negative: bool, h: NonNegativeI8, m: NonNegativeI8, s: NonNegativeI8, rest: seq<Token>)
    requires h <= MAX_HOURS && m < MINUTES_PER_HOUR && s < SECONDS_PER_MINUTE
    ensures var sign := SignOf(negative);
      ParseOffset([SignToken(negative), Number(h), Punct(':'), Number(m), Punct(':'), Number(s)] + rest)
        == (Ok(Offset(sign * h, sign * m, sign * s)), rest)
  {
    var tokens := [SignToken(negative), Number(h), Punct(':'), Number(m), Punct(':'), Number(s)] + rest;
    assert tokens[1..] == [Number(h), Punct(':'), Number(m), Punct(':'), Number(s)] + rest;
    assert tokens[2..] == [Punct(':'), Number(m), Punct(':'), Number(s)] + rest;
    assert tokens[3..] == [Number(m), Punct(':'), Number(s)] + rest;
    assert tokens[4..] == [Punct(':'), Number(s)] + rest;
    assert tokens[5..] == [Number(s)] + rest;
    assert tokens[6..] == rest;
    assert ParseSign(tokens) == (Ok(SignOf(negative)), tokens[1..]);
    assert ParseSeconds(tokens[4..]) == (Ok(s), rest);
    assert ParseMinutesSeconds(tokens[2..]) == (Ok((m, s)), rest);
  }

  /** `±h` alone: minutes and seconds are 0 and nothing after the hours is
      consumed. */
  lemma {:induction false} ParseHoursOnly(negative: bool, h: NonNegativeI8, rest: seq<Token>)
    requires h <= MAX_HOURS
    requires !(|rest| > 0 && rest[0] == Punct(':'))
    ensures var sign := SignOf(negative);
      ParseOffset([SignToken(negative), Number(h)] + rest) == (Ok(Offset(sign * h, 0, 0)), rest)
  {
    var tokens := [SignToken(negative), Number(h)] + rest;
    assert tokens[1..] == [Number(h)] + rest;
    assert tokens[2..] == rest;
    assert ParseSign(tokens) == (Ok(SignOf(negative)), tokens[1..]);
    assert ParseMinutesSeconds(rest) == (Ok((0, 0)), rest);
  }

  /** `±h:m`: seconds are 0 and nothing after the minutes is consumed. */
  lemma {:induction false} ParseHoursMinutes(negative: bool, h: NonNegativeI8, m: NonNegativeI8, rest: seq<Token>)
    requires h <= MAX_HOURS && m < MINUTES_PER_HOUR
    requires !(|rest| > 0 && rest[0] == Punct(':'))
    ensures var sign := SignOf(negative);
      ParseOffset([SignToken(negative), Number(h), Punct(':'), Number(m)] + rest)
        == (Ok(Offset(sign * h, sign * m, 0)), rest)
  {
    var tokens := [SignToken(negative), Number(h), Punct(':'), Number(m)] + rest;
    assert tokens[1..] == [Number(h), Punct(':'), Number(m)] + rest;
    assert tokens[2..] == [Punct(':'), Number(m)] + rest;
    assert tokens[3..] == [Number(m)] + rest;
    assert tokens[4..] == rest;
    assert ParseSign(tokens) == (Ok(SignOf(negative)), tokens[1..]);
    assert ParseSeconds(rest) == (Ok(0), rest);
    assert ParseMinutesSeconds(tokens[2..]) == (Ok((m, 0)), rest);
  }

  /** After the sign the hour is required: an empty rest, a token that is
      not a number and a number too large for an `i8` are each reported
      for the hour, before any range check. */
  lemma {:induction false} HourErrors(negative: bool, rest: seq<Token>)
    ensures |rest| == 0 ==> ParseOffset([SignToken(negative)] + rest) == (Err(UnexpectedEndOfInput), rest)
    ensures |rest| > 0 && !rest[0].Number? ==>
      ParseOffset([SignToken(negative)] + rest) == (Err(UnexpectedToken(rest[0])), rest[1..])
    ensures |rest| > 0 && rest[0].Number? && rest[0].value >= 0x80 ==>
      ParseOffset([SignToken(negative)] + rest) == (Err(InvalidComponent("hour", rest[0].value)), rest[1..])
  {
    var tokens := [SignToken(negative)] + rest;
    assert tokens[1..] == rest;
    assert ParseSign(tokens) == (Ok(SignOf(negative)), rest);
  }

  /** A `:` after the hours must be followed by the minutes, whatever the
      hours are. */
  lemma {:induction false} MinuteErrors(negative: bool, h: NonNegativeI8, rest: seq<Token>)
    ensures |rest| == 0 ==>
      ParseOffset([SignToken(negative), Number(h), Punct(':')] + rest) == (Err(UnexpectedEndOfInput), rest)
    ensures |rest| > 0 && !rest[0].Number? ==>
      ParseOffset([SignToken(negative), Number(h), Punct(':')] + rest) == (Err(UnexpectedToken(rest[0])), rest[1..])
    ensures |rest| > 0 && rest[0].Number? && rest[0].value >= 0x80 ==>
      ParseOffset([SignToken(negative), Number(h), Punct(':')] + rest)
        == (Err(InvalidComponent("minute", rest[0].value)), rest[1..])
  {
    var tokens := [SignToken(negative), Number(h), Punct(':')] + rest;
    assert tokens[1..] == [Number(h), Punct(':')] + rest;
    assert tokens[2..] == [Punct(':')] + rest;
    assert tokens[3..] == rest;
    assert ParseSign(tokens) == (Ok(SignOf(negative)), tokens[1..]);
  }

  /** A second `:` must be followed by the seconds, whatever the hours and
      minutes are. */
  lemma {:induction false} SecondErrors(negative: bool, h: NonNegativeI8, m: NonNegativeI8, rest: seq<Token>)
    ensures |rest| == 0 ==>
      ParseOffset([SignToken(negative), Number(h), Punct(':'), Number(m), Punct(':')] + rest)
        == (Err(UnexpectedEndOfInput), rest)
    ensures |rest| > 0 && !rest[0].Number? ==>
      ParseOffset([SignToken(negative), Number(h), Punct(':'), Number(m), Punct(':')] + rest)
        == (Err(UnexpectedToken(rest[0])), rest[1..])
    ensures |rest| > 0 && rest[0].Number? && rest[0].value >= 0x80 ==>
      ParseOffset([SignToken(negative), Number(h), Punct(':'), Number(m), Punct(':')] + rest)
        == (Err(InvalidComponent("second", rest[0].value)), rest[1..])
  {
    var tokens := [SignToken(negative), Number(h), Punct(':'), Number(m), Punct(':')] + rest;
    assert tokens[1..] == [Number(h), Punct(':'), Number(m), Punct(':')] + rest;
    assert tokens[2..] == [Punct(':'), Number(m), Punct(':')] + rest;
    assert tokens[3..] == [Number(m), Punct(':')] + rest;
    assert tokens[4..] == [Punct(':')] + rest;
    assert tokens[5..] == rest;
    assert ParseSign(tokens) == (Ok(SignOf(negative)), tokens[1..]);
    var seconds := NumberStep("second", rest);
    if seconds.0.Err? {
      assert ParseSeconds(tokens[4..]) == (Err(seconds.0.error), seconds.1);
      assert ParseMinutesSeconds(tokens[2..]) == (Err(seconds.0.error), seconds.1);
    }
  }

  /** The range checks run in order: an hour above 25 is reported first,
      then minutes of 60 or more, then seconds of 60 or more; otherwise
      every field is multiplied by the sign. */
  lemma ValidationOrder(sign: Sign, h: NonNegativeI8, m: NonNegativeI8, s: NonNegativeI8)
    ensures h > MAX_HOURS ==> Validate(sign, h, m, s) == Err(InvalidComponent("hour", h))
    ensures h <= MAX_HOURS && m >= MINUTES_PER_HOUR ==> Validate(sign, h, m, s) == Err(InvalidComponent("minute", m))
    ensures h <= MAX_HOURS && m < MINUTES_PER_HOUR && s >= SECONDS_PER_MINUTE ==>
      Validate(sign, h, m, s) == Err(InvalidComponent("second", s))
    ensures Validate(sign, h, m, s).Ok? <==> h <= MAX_HOURS && m < MINUTES_PER_HOUR && s < SECONDS_PER_MINUTE
    ensures Validate(sign, h, m, s).Ok? ==> Validate(sign, h, m, s).value == Offset(sign * h, sign * m, sign * s)
  {
  }

  /** The parser only ever takes tokens off the front: what it leaves is a
      suffix of its input. */
  lemma {:induction false} ParseLeavesSuffix(tokens: seq<Token>)
    ensures SuffixOf(ParseOffset(tokens).1, tokens)
  {
    var left := ParseOffset(tokens).1;
    var utc := AnyIdentStep(["utc", "UTC"], tokens);
    if utc.0.Ok? {
      assert left == utc.1;
      StepLeavesSuffix(tokens, utc.1);
    } else {
      var sign := ParseSign(utc.1);
      if sign.0.Err? {
        assert left == sign.1;
        SignLeavesSuffix(utc.1);
      } else {
        var hours := NumberStep("hour", sign.1);
        if hours.0.Err? {
          assert left == hours.1;
          SignLeavesSuffix(utc.1);
          StepLeavesSuffix(sign.1, hours.1);
          SuffixTransitive(hours.1, sign.1, utc.1);
        } else {
          var rest := ParseMinutesSeconds(hours.1);
          assert left == rest.1;
          SignLeavesSuffix(utc.1);
          StepLeavesSuffix(sign.1, hours.1);
          SuffixTransitive(hours.1, sign.1, utc.1);
          MinutesSecondsLeaveSuffix(hours.1);
          SuffixTransitive(rest.1, hours.1, utc.1);
        }
      }
      assert utc.1 == tokens;
    }
  }

  /** `rest` is what is left of `tokens` once some tokens are taken from the front. */
  predicate SuffixOf(rest: seq<Token>, tokens: seq<Token>) {
    |rest| <= |tokens| && rest == tokens[|tokens| - |rest|..]
  }

  lemma SuffixTransitive(a: seq<Token>, b: seq<Token>, c: seq<Token>)
    requires SuffixOf(a, b) && SuffixOf(b, c)
    ensures SuffixOf(a, c)
  {
    assert c[|c| - |b|..][|b| - |a|..] == c[|c| - |a|..];
  }

  /** A helper takes at most the front token. */
  lemma StepLeavesSuffix(tokens: seq<Token>, rest: seq<Token>)
    requires rest == tokens || (|tokens| > 0 && rest == tokens[1..])
    ensures SuffixOf(rest, tokens)
  {
  }

  lemma SignLeavesSuffix(tokens: seq<Token>)
    ensures SuffixOf(ParseSign(tokens).1, tokens)
  {
    var plus := PunctStep('+', tokens);
    StepLeavesSuffix(tokens, plus.1);
    if plus.0.Err? {
      var minus := PunctStep('-', plus.1);
      StepLeavesSuffix(plus.1, minus.1);
      if minus.0.Err? && |minus.1| > 0 {
        StepLeavesSuffix(minus.1, minus.1[1..]);
        SuffixTransitive(minus.1[1..], minus.1, tokens);
      }
    }
  }

  lemma SecondsLeaveSuffix(tokens: seq<Token>)
    ensures SuffixOf(ParseSeconds(tokens).1, tokens)
  {
    var colon := PunctStep(':', tokens);
    StepLeavesSuffix(tokens, colon.1);
    if colon.0.Ok? {
      var seconds := NumberStep("second", colon.1);
      StepLeavesSuffix(colon.1, seconds.1);
      SuffixTransitive(seconds.1, colon.1, tokens);
    }
  }

  lemma MinutesSecondsLeaveSuffix(tokens: seq<Token>)
    ensures SuffixOf(ParseMinutesSeconds(tokens).1, tokens)
  {
    var colon := PunctStep(':', tokens);
    StepLeavesSuffix(tokens, colon.1);
    if colon.0.Ok? {
      var minutes := NumberStep("minute", colon.1);
      StepLeavesSuffix(colon.1, minutes.1);
      SuffixTransitive(minutes.1, colon.1, tokens);
      if minutes.0.Ok? {
        SecondsLeaveSuffix(minutes.1);
        SuffixTransitive(ParseSeconds(minutes.1).1, minutes.1, tokens);
      }
    }
  }
}
