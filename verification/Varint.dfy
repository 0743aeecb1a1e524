/**
 QUIC-style variable-length integers, narrowed to minimal encodings
 (crates/uk-proto/src/varint.rs, section 16 of RFC 9000).
 */
module Varint {
  import Arithmetic
  import opened Bytes
  import opened Protocol

  const MAX_VARINT: U64 := 0x3fff_ffff_ffff_ffff

  function EncodedLen(value: U64): (r: Result<nat, ProtocolError>)
  {
    if value <= 63 then Ok(1)
    else if value <= 16_383 then Ok(2)
    else if value <= 1_073_741_823 then Ok(4)
    else if value <= MAX_VARINT then Ok(8)
    else Err(InvalidVarint)
  }

  /** The width announced by the two top bits of the first byte. */
  function Width(first: Byte): (w: nat)
    ensures w in {1, 2, 4, 8}
  {
    match first / 64 case 0 => 1 case 1 => 2 case 2 => 4 case _ => 8
  }

  /** The length tag: the two top bits of the first byte, in place above `width` bytes of value. */
  function Tag(width: nat): (t: nat)
    requires width in {1, 2, 4, 8}
  {
    match width case 1 => 0 case 2 => 0x4000 case 4 => 0x8000_0000 case _ => 0xc000_0000_0000_0000
  }

  /** One past the largest payload the low bits of `width` bytes can hold. */
  function Span(width: nat): (t: nat)
    requires width in {1, 2, 4, 8}
    ensures t > 0
  {
    match width case 1 => 0x40 case 2 => 0x4000 case 4 => 0x4000_0000 case _ => 0x4000_0000_0000_0000
  }

  function Encode(value: U64): (r: Result<seq<Byte>, ProtocolError>)
    ensures r.Ok? <==> value <= MAX_VARINT
    ensures r.Ok? ==> 1 <= |r.value| <= 8 && EncodedLen(value) == Ok(|r.value|)
  {
    match EncodedLen(value)
    case Err(e) => Err(e)
    case Ok(width) => Ok(BigEndian(width, value + Tag(width)))
  }

  /** Decodes one varint; `used` is how far the cursor moves. */
  function Decode(src: seq<Byte>): (r: Parsed<U64>)
    ensures r.Got? ==> r.value <= MAX_VARINT && 1 <= r.used <= |src| && r.used <= 8
    ensures r.Fail? ==> r.error in {Truncated, InvalidVarint}
  {
    if src == [] then Fail(Truncated) else
    var width := Width(src[0]);
    if |src| < width then Fail(Truncated) else
    var value := FromBigEndian(src[..width]) % Span(width);
    if EncodedLen(value) == Ok(width) then Got(value, width) else Fail(InvalidVarint)
  }

  lemma PlaceValues()
    ensures Pow256(0) == 1 && Pow256(1) == 0x100 && Pow256(2) == 0x1_0000
    ensures Pow256(3) == 0x100_0000 && Pow256(4) == 0x1_0000_0000
    ensures Pow256(7) == 0x100_0000_0000_0000 && Pow256(8) == 0x1_0000_0000_0000_0000
  {
    assert Pow256(5) == 256 * Pow256(4);
    assert Pow256(6) == 256 * Pow256(5);
  }

  /** A value led by `first` above `place` lies in the quarter that `first`'s two top bits select. */
  lemma Quarter(first: int, place: nat, value: int, quarter: nat)
    requires first * place <= value < (1 + first) * place
    ensures first / 64 == quarter <==> 64 * quarter * place <= value < (64 * quarter + 64) * place
  {
    if first < 64 * quarter {
      Arithmetic.Scale(1 + first, 64 * quarter, place);
    } else if first >= 64 * quarter + 64 {
      Arithmetic.Scale(64 * quarter + 64, first, place);
    } else {
      Arithmetic.Scale(64 * quarter, first, place);
      Arithmetic.Scale(1 + first, 64 * quarter + 64, place);
    }
  }

  /** A field's tag is its first byte's top bits, and masking it off is the remainder. */
  lemma TagIsTopBits(s: seq<Byte>)
    requires |s| in {1, 2, 4, 8}
    ensures Width(s[0]) == |s| <==> Tag(|s|) <= FromBigEndian(s) < Tag(|s|) + Span(|s|)
  {
    var quarter := if |s| == 8 then 3 else |s| / 2;
    LeadingByte(s);
    PlaceValues();
    Quarter(s[0] as int, Pow256(|s| - 1), FromBigEndian(s), quarter);
  }

  lemma TagFits(value: U64, width: nat)
    requires EncodedLen(value) == Ok(width)
    ensures value < Span(width) && (value + Tag(width)) % Span(width) == value
    ensures value + Tag(width) < Pow256(width)
  {
    PlaceValues();
  }

  /** Decoding what was encoded gives the value back and stops exactly at its end. */
  lemma RoundTrip(value: U64, rest: seq<Byte>)
    requires value <= MAX_VARINT
    ensures Decode(Encode(value).value + rest) == Got(value, |Encode(value).value|)
  {
    var wire := Encode(value).value;
    TagFits(value, |wire|);
    ReadsBackWritten(|wire|, value + Tag(|wire|));
    TagIsTopBits(wire);
    assert (wire + rest)[..|wire|] == wire;
    assert (wire + rest)[0] == wire[0];
  }

  lemma MaskedOff(field: nat, width: nat)
    requires width in {1, 2, 4, 8}
    requires Tag(width) <= field < Tag(width) + Span(width)
    ensures field % Span(width) == field - Tag(width)
  {
  }

  /** Whatever decodes was the one encoding of its value. */
  lemma Canonical(src: seq<Byte>)
    requires Decode(src).Got?
    ensures Encode(Decode(src).value) == Ok(src[..Decode(src).used])
  {
    var wire := src[..Decode(src).used];
    assert wire[0] == src[0];
    TagIsTopBits(wire);
    MaskedOff(FromBigEndian(wire), |wire|);
    WritesBackRead(wire);
  }

  /** More input changes only a `Truncated` answer. */
  lemma Stable(src: seq<Byte>, more: seq<Byte>)
    requires Decode(src) != Fail(Truncated)
    ensures Decode(src + more) == Decode(src)
  {
    var width := Width(src[0]);
    assert (src + more)[..width] == src[..width];
  }

  /** Two varints in a row: a header's id and length, a setting's key and value. */
  function EncodePair(a: U64, b: U64): (r: Result<seq<Byte>, ProtocolError>)
    ensures r.Ok? <==> a <= MAX_VARINT && b <= MAX_VARINT
    ensures r.Ok? ==> 2 <= |r.value| <= 16
  {
    var first :- Encode(a);
    var second :- Encode(b);
    Ok(first + second)
  }

  function DecodePair(src: seq<Byte>): (r: Parsed<(U64, U64)>)
    ensures r.Got? ==> 2 <= r.used <= |src| && r.used <= 16
  {
    match Decode(src)
    case Fail(e) => Fail(e)
    case Got(a, n) =>
      match Decode(src[n..])
      case Fail(e) => Fail(e)
      case Got(b, m) => Got((a, b), n + m)
  }

  lemma PairRoundTrip(a: U64, b: U64, rest: seq<Byte>)
    requires EncodePair(a, b).Ok?
    ensures DecodePair(EncodePair(a, b).value + rest) == Got((a, b), |EncodePair(a, b).value|)
  {
    var first, second := Encode(a).value, Encode(b).value;
    var src := EncodePair(a, b).value + rest;
    assert src == first + (second + rest);
    RoundTrip(a, second + rest);
    assert src[|first|..] == second + rest;
    RoundTrip(b, rest);
  }

  lemma PairCanonical(src: seq<Byte>)
    requires DecodePair(src).Got?
    ensures var r := DecodePair(src); EncodePair(r.value.0, r.value.1) == Ok(src[..r.used])
  {
    var n, m := Decode(src).used, DecodePair(src).used;
    Canonical(src);
    Canonical(src[n..]);
    SplitsBefore(src, n, m);
  }

  lemma PairStable(src: seq<Byte>, more: seq<Byte>)
    requires DecodePair(src) != Fail(Truncated)
    ensures DecodePair(src + more) == DecodePair(src)
  {
    Stable(src, more);
    if Decode(src).Got? {
      var n := Decode(src).used;
      assert (src + more)[n..] == src[n..] + more;
      Stable(src[n..], more);
    }
  }

  // ---------------------------------------------------------------------------------------------
  // Every input, refused ones included.
  // ---------------------------------------------------------------------------------------------

  /** The encoded length is the least of the four widths that hold the value; only larger values have none. */
  lemma LeastWidth(value: U64)
    ensures match EncodedLen(value)
      case Ok(width) => width in {1, 2, 4, 8} && value < Span(width) && (width > 1 ==> value >= Span(width / 2))
      case Err(e) => value >= Span(8) && e == InvalidVarint
  {
  }

  /** A whole field decodes to its value if that width was the least, and is refused otherwise. */
  lemma WholeFieldDecides(value: U64, width: nat, rest: seq<Byte>)
    requires width in {1, 2, 4, 8} && value < Span(width)
    ensures Decode(BigEndian(width, value + Tag(width)) + rest) ==
      if EncodedLen(value) == Ok(width) then Got(value, width) else Fail(InvalidVarint)
  {
    var wire := BigEndian(width, value + Tag(width));
    FieldFits(value, width);
    ReadsBackWritten(width, value + Tag(width));
    TagIsTopBits(wire);
    MaskedOff(value + Tag(width), width);
    DecodesField(wire, rest, value);
  }

  lemma FieldFits(value: U64, width: nat)
    requires width in {1, 2, 4, 8} && value < Span(width)
    ensures value + Tag(width) < Pow256(width)
  {
    PlaceValues();
  }

  lemma DecodesField(wire: seq<Byte>, rest: seq<Byte>, value: U64)
    requires |wire| in {1, 2, 4, 8} && Width(wire[0]) == |wire| && FromBigEndian(wire) % Span(|wire|) == value
    ensures Decode(wire + rest) == if EncodedLen(value) == Ok(|wire|) then Got(value, |wire|) else Fail(InvalidVarint)
  {
    assert (wire + rest)[..|wire|] == wire;
    assert (wire + rest)[0] == wire[0];
  }

  /** Only a field that is not all there yet is `Truncated`; eight bytes always decide. */
  lemma TruncatedIff(src: seq<Byte>)
    ensures Decode(src) == Fail(Truncated) <==> src == [] || |src| < Width(src[0])
    ensures |src| >= 8 ==> Decode(src) != Fail(Truncated)
  {
  }

  /** The bytes themselves: the tag in the two top bits, the value big-endian below it. */
  lemma EncodedBytes(value: U64)
    ensures value < 0x40 ==> Encode(value) == Ok([value as Byte])
    ensures 0x40 <= value < 0x4000 ==> Encode(value) == Ok([(0x40 + value / 0x100) as Byte, (value % 0x100) as Byte])
  {
    if value < 0x40 {
      FieldBytes(value);
    } else if value < 0x4000 {
      FieldBytes(value + 0x4000);
    }
  }

  /** A strict prefix of an encoding wants more bytes. */
  lemma PartIsTruncated(value: U64, part: seq<Byte>)
    requires value <= MAX_VARINT && part < Encode(value).value
    ensures Decode(part) == Fail(Truncated)
  {
    var wire := Encode(value).value;
    RoundTrip(value, []);
    assert wire + [] == wire;
    TruncatedIff(part);
  }
}
