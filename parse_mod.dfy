/** The byte-position bookkeeping of the format-description parser:
    locations of input bytes, spans between them, the errors attached to
    them, and the guard on the format-description version. */
module FormatDescriptionParse {
  import opened Ints
  import opened Combinators

  /** `validate_version!`: only versions 1 and 2 of the format-description
      language exist. */
  predicate ValidVersion(version: int)
    ensures ValidVersion(version) <==> version == 1 || version == 2
  {
    version >= 1 && version <= 2
  }

  /** The zero-indexed byte of the format description a token came from. */
  datatype Location = Location(byte: u32)
  {
    /** `Location::to`: the span from this location to `end`. */
    function To(end: Location): (r: Span)
      ensures r.start == this && r.end == end
    {
      Span(this, end)
    }

    /** `Location::to_self`: the span holding only this location. */
    function ToSelf(): (r: Span)
      ensures r.start == this && r.end == this
      ensures r == To(this)
    {
      Span(this, this)
    }

    /** `Location::offset`: the location `offset` bytes further on; the
        location itself is a value and does not change. */
    function Offset(offset: u32): (r: Location)
      requires byte + offset < 0x1_0000_0000
      ensures r.byte - byte == offset
    {
      Location(byte + offset)
    }

    /** `Location::error`: an error at this location alone. */
    function Error(message: string): (r: ErrorInner)
      ensures r.message == message && r.span == ToSelf()
    {
      ErrorInner(message, Span(this, this))
    }
  }

  /** A start and an end location within the format description. */
  datatype Span = Span(start: Location, end: Location)
  {
    /** `Span::shrink_to_start`: the zero-width span at the start. */
    function ShrinkToStart(): (r: Span)
      ensures r == start.ToSelf()
    {
      Span(start, start)
    }

    /** `Span::shrink_to_end`: the zero-width span at the end. */
    function ShrinkToEnd(): (r: Span)
      ensures r == end.ToSelf()
    {
      Span(end, end)
    }

    /** `Span::shrink_to_before`: the span from the start up to the byte
        before position `pos` (counted from the start). The `u32`
        arithmetic must neither overflow nor underflow. */
    function ShrinkToBefore(pos: u32): (r: Span)
      requires 1 <= start.byte + pos < 0x1_0000_0000
      ensures r.start == start
      ensures r.end.byte + 1 == start.byte + pos
    {
      Span(start, Location(start.byte + pos - 1))
    }

    /** `Span::shrink_to_after`: the span from the byte after position `pos`
        (counted from the start) to the end. */
    function ShrinkToAfter(pos: u32): (r: Span)
      requires start.byte + pos + 1 < 0x1_0000_0000
      ensures r.end == end
      ensures r.start.byte == start.byte + pos + 1
    {
      Span(Location(start.byte + pos + 1), end)
    }

    /** `Span::error`: an error covering the span. */
    function Error(message: string): (r: ErrorInner)
      ensures r.message == message && r.span == this
    {
      ErrorInner(message, this)
    }
  }

  /** The parser's internal error: a message and where it applies. */
  datatype ErrorInner = ErrorInner(message: string, span: Span)

  /** `Spanned`: a value with the span it came from. */
  datatype Spanned<T> = Spanned(value: T, span: Span)

  /** `SpannedValue::spanned`. */
  function MakeSpanned<T>(value: T, span: Span): (r: Spanned<T>)
    ensures r.value == value && r.span == span
  {
    Spanned(value, span)
  }

  /** The bytes of an input with their locations, counted from `start`. */
  function LocatedFrom(bytes: seq<byte>, start: nat): (r: seq<(byte, Location)>)
    requires start + |bytes| <= 0x1_0000_0000
    ensures |r| == |bytes|
    ensures forall i :: 0 <= i < |bytes| ==> r[i] == (bytes[i], Location(start + i))
  {
    if |bytes| == 0 then []
    else LocatedFrom(bytes[..|bytes| - 1], start) + [(bytes[|bytes| - 1], Location(start + |bytes| - 1))]
  }

  /** `attach_location`: pair each byte with its position, counting from 0
      with a running position that moves on by one per byte. */
  method AttachLocation(bytes: seq<byte>) returns (located: seq<(byte, Location)>)
    requires |bytes| < 0x1_0000_0000
    ensures |located| == |bytes|
    ensures forall i :: 0 <= i < |bytes| ==> located[i].0 == bytes[i] && located[i].1.byte == i
    ensures located == LocatedFrom(bytes, 0)
  {
    var bytePosition: u32 := 0;
    located := [];
    var i := 0;
    while i < |bytes|
      invariant 0 <= i <= |bytes|
      invariant bytePosition == i
      invariant |located| == i
      invariant forall k :: 0 <= k < i ==> located[k] == (bytes[k], Location(k))
    {
      var location := Location(bytePosition);
      bytePosition := bytePosition + 1;
      located := located + [(bytes[i], location)];
      i := i + 1;
    }
  }

  /** Locating a concatenation locates the second part where the first
      one ends: every location is an offset into the whole input. */
  lemma {:induction false} LocatedConcat(a: seq<byte>, b: seq<byte>, start: nat)
    requires start + |a| + |b| <= 0x1_0000_0000
    ensures LocatedFrom(a + b, start) == LocatedFrom(a, start) + LocatedFrom(b, start + |a|)
  {
    var whole := LocatedFrom(a + b, start);
    var parts := LocatedFrom(a, start) + LocatedFrom(b, start + |a|);
    assert |whole| == |parts|;
    forall i | 0 <= i < |whole|
      ensures whole[i] == parts[i]
    {
      if i >= |a| {
        assert (a + b)[i] == b[i - |a|];
      }
    }
  }

  /** Offsets compose: moving by nothing stays put, and moving twice is
      moving by the sum. */
  lemma LocationOffsets(location: Location, a: u32, b: u32)
    requires location.byte + a + b < 0x1_0000_0000
    ensures location.Offset(0) == location
    ensures location.Offset(a).Offset(b) == location.Offset(a + b)
  {
  }

  /** Shrinking a span from one location to another keeps one end. */
  lemma ShrinkSpan(start: Location, end: Location)
    ensures start.To(end).ShrinkToStart() == start.ToSelf()
    ensures start.To(end).ShrinkToEnd() == end.ToSelf()
    ensures start.Error("") == start.ToSelf().Error("")
  {
  }

  /** Shrinking to before position 1 leaves the zero-width start; shrinking
      to after a position starts one byte past it. */
  lemma ShrinkAroundPosition(span: Span, pos: u32)
    requires span.start.byte + pos + 1 < 0x1_0000_0000
    ensures span.ShrinkToBefore(1) == span.ShrinkToStart()
    ensures span.ShrinkToAfter(pos).start == span.start.Offset(pos + 1)
    ensures 1 <= span.start.byte + pos ==> span.ShrinkToBefore(pos).end.Offset(2) == span.ShrinkToAfter(pos).start
  {
  }
}
