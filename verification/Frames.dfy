/** Frame header and frame codec (crates/uk-proto/src/frame.rs). */
module Frames {
  import opened Bytes
  import opened Protocol
  import Varint

  const VERSION: Byte := 1
  const MAX_ENCODED_LEN := 1 + 1 + 2 + 8 + 8

  /** The frame type registry: connection control, TCP relay, UDP relay and errors. */
  predicate Registered(code: Byte)
  {
    0x01 <= code <= 0x05 || 0x10 <= code <= 0x12 || 0x20 <= code <= 0x22 || 0x30 <= code <= 0x32
  }

  /** A frame type is its registered code (a `#[repr(u8)]` enum in the source). */
  type FrameType = code: Byte | Registered(code) witness 1

  datatype Header = Header(version: Byte, frameType: FrameType, flags: U16, id: U64, length: U64)

  datatype Frame = Frame(header: Header, payload: seq<Byte>)

  /** The required bits `0xff00` of a flag field. */
  function RequiredFlags(flags: U16): (required: U16)
  {
    flags - flags % 0x100
  }

  predicate Encodable(h: Header)
  {
    h.version == VERSION && h.flags < 0x100 && h.id <= Varint.MAX_VARINT && h.length <= Varint.MAX_VARINT
  }

  function EncodeHeader(h: Header): (r: Result<seq<Byte>, ProtocolError>)
    ensures r.Ok? <==> Encodable(h)
    ensures r.Ok? ==> 6 <= |r.value| <= MAX_ENCODED_LEN
  {
    if h.version != VERSION then Err(UnsupportedVersion(h.version))
    else if RequiredFlags(h.flags) != 0 then Err(UnsupportedFlag(RequiredFlags(h.flags)))
    else
      var varints :- Varint.EncodePair(h.id, h.length);
      Ok([h.version, h.frameType] + BigEndian(2, h.flags) + varints)
  }

  function DecodeHeader(src: seq<Byte>, limit: U64): (r: Parsed<Header>)
    ensures r.Got? ==> 6 <= r.used <= |src| && r.used <= MAX_ENCODED_LEN && r.value.length <= limit
  {
    if |src| < 4 then Fail(Truncated)
    else if src[0] != VERSION then Fail(UnsupportedVersion(src[0]))
    else if !Registered(src[1]) then Fail(UnknownFrameType(src[1]))
    else
      var flags := FromBigEndian(src[2..4]);
      if RequiredFlags(flags) != 0 then Fail(UnsupportedFlag(RequiredFlags(flags)))
      else match Varint.DecodePair(src[4..])
        case Fail(e) => Fail(e)
        case Got((id, length), n) =>
          if length > limit then Fail(OversizedFrame(length, limit))
          else Got(Header(src[0], src[1], flags, id, length), 4 + n)
  }

  predicate WellFormed(f: Frame)
  {
    Encodable(f.header) && f.header.length == |f.payload|
  }

  function Encode(f: Frame): (r: Result<seq<Byte>, ProtocolError>)
    ensures r.Ok? <==> WellFormed(f)
  {
    if f.header.length != |f.payload| then Err(InvalidFrame)
    else
      var header :- EncodeHeader(f.header);
      Ok(header + f.payload)
  }

  function Decode(src: seq<Byte>, limit: U64): (r: Parsed<Frame>)
    ensures r.Got? ==> 6 <= r.used <= |src|
  {
    match DecodeHeader(src, limit)
    case Fail(e) => Fail(e)
    case Got(header, n) =>
      if |src| - n < header.length then Fail(Truncated)
      else Got(Frame(header, src[n..n + header.length]), n + header.length)
  }

  lemma HeaderRoundTrip(h: Header, limit: U64, rest: seq<Byte>)
    requires Encodable(h) && h.length <= limit
    ensures DecodeHeader(EncodeHeader(h).value + rest, limit) == Got(h, |EncodeHeader(h).value|)
  {
    var varints := Varint.EncodePair(h.id, h.length).value;
    var src := EncodeHeader(h).value + rest;
    assert src[2..4] == BigEndian(2, h.flags);
    TwoBytes(h.flags, src[2..4]);
    assert src[4..] == varints + rest;
    Varint.PairRoundTrip(h.id, h.length, rest);
  }

  lemma HeaderCanonical(src: seq<Byte>, limit: U64)
    requires DecodeHeader(src, limit).Got?
    ensures var r := DecodeHeader(src, limit); EncodeHeader(r.value) == Ok(src[..r.used])
  {
    var r := DecodeHeader(src, limit);
    TwoBytes(r.value.flags, src[2..4]);
    Varint.PairCanonical(src[4..]);
    assert src[..r.used] == [src[0], src[1]] + src[2..4] + src[4..][..r.used - 4];
  }

  /** More input changes only a `Truncated` answer. */
  lemma HeaderStable(src: seq<Byte>, limit: U64, more: seq<Byte>)
    requires DecodeHeader(src, limit) != Fail(Truncated)
    ensures DecodeHeader(src + more, limit) == DecodeHeader(src, limit)
  {
    assert (src + more)[2..4] == src[2..4];
    assert (src + more)[4..] == src[4..] + more;
    if Varint.DecodePair(src[4..]) != Fail(Truncated) {
      Varint.PairStable(src[4..], more);
    }
  }

  /** Some header needs every byte the writers' header buffer has. */
  lemma HeaderBufferIsTight()
    ensures exists h :: Encodable(h) && |EncodeHeader(h).value| == MAX_ENCODED_LEN
  {
    var h := Header(VERSION, 0x11, 0, Varint.MAX_VARINT, Varint.MAX_VARINT);
    assert |EncodeHeader(h).value| == MAX_ENCODED_LEN;
  }

  /** A frame within the limit reads back as itself, whatever follows it. */
  lemma RoundTrip(f: Frame, limit: U64, rest: seq<Byte>)
    requires WellFormed(f) && f.header.length <= limit
    ensures Decode(Encode(f).value + rest, limit) == Got(f, |Encode(f).value|)
  {
    var header := EncodeHeader(f.header).value;
    var src := Encode(f).value + rest;
    assert src == header + (f.payload + rest);
    HeaderRoundTrip(f.header, limit, f.payload + rest);
    assert src[|header|..|header| + |f.payload|] == f.payload;
  }

  /** Whatever decodes as a frame was the one wire form of that frame. */
  lemma Canonical(src: seq<Byte>, limit: U64)
    requires Decode(src, limit).Got?
    ensures var r := Decode(src, limit);
      Encode(r.value) == Ok(src[..r.used]) && r.value.header.length <= limit
  {
    var n := DecodeHeader(src, limit).used;
    var r := Decode(src, limit);
    HeaderCanonical(src, limit);
    assert src[..r.used] == src[..n] + src[n..r.used];
  }

  /** Later bytes never change a decision already taken. */
  lemma Stable(src: seq<Byte>, limit: U64, more: seq<Byte>)
    requires Decode(src, limit) != Fail(Truncated)
    ensures Decode(src + more, limit) == Decode(src, limit)
  {
    HeaderStable(src, limit, more);
    if Decode(src, limit).Got? {
      var n, length := DecodeHeader(src, limit).used, DecodeHeader(src, limit).value.length;
      assert (src + more)[n..n + length] == src[n..n + length];
    }
  }

  /** No frame's wire form begins another's: equal prefixes mean equal frames. */
  lemma PrefixFree(f: Frame, g: Frame)
    requires WellFormed(f) && WellFormed(g) && Encode(f).value <= Encode(g).value
    ensures f == g
  {
    var a, b := Encode(f).value, Encode(g).value;
    assert b == a + b[|a|..];
    assert b == b + [];
    var limit := if f.header.length <= g.header.length then g.header.length else f.header.length;
    RoundTrip(f, limit, b[|a|..]);
    RoundTrip(g, limit, []);
  }

  // ---------------------------------------------------------------------------------------------
  // Refusals.
  // ---------------------------------------------------------------------------------------------

  /** The types of the registry, one by one. */
  lemma RegisteredTypes(code: Byte)
    ensures Registered(code) <==>
      code in {0x01, 0x02, 0x03, 0x04, 0x05, 0x10, 0x11, 0x12, 0x20, 0x21, 0x22, 0x30, 0x31, 0x32}
  {
  }

  /** The fixed bytes are judged before anything else: version first, then type, then required flags. */
  lemma FixedBytesDecide(src: seq<Byte>, limit: U64)
    requires |src| >= 4
    ensures DecodeHeader(src, limit) == Fail(UnsupportedVersion(src[0])) <==> src[0] != 1
    ensures DecodeHeader(src, limit) == Fail(UnknownFrameType(src[1])) <==> src[0] == 1 && !Registered(src[1])
    ensures DecodeHeader(src, limit) == Fail(UnsupportedFlag(256 * src[2] as int)) <==>
      src[0] == 1 && Registered(src[1]) && src[2] != 0
  {
    TwoByteValue(src[2..4]);
  }

  /** Fewer than four bytes are never judged. */
  lemma FourBytesAreNeeded(src: seq<Byte>, limit: U64)
    requires |src| < 4
    ensures DecodeHeader(src, limit) == Fail(Truncated)
  {
  }

  /** A whole header over the limit is refused at once, with its length and the limit. */
  lemma OversizedIsRefused(h: Header, limit: U64, rest: seq<Byte>)
    requires Encodable(h) && h.length > limit
    ensures DecodeHeader(EncodeHeader(h).value + rest, limit) == Fail(OversizedFrame(h.length, limit))
    ensures Decode(EncodeHeader(h).value + rest, limit) == Fail(OversizedFrame(h.length, limit))
  {
    var src := EncodeHeader(h).value + rest;
    assert src[2..4] == BigEndian(2, h.flags);
    TwoBytes(h.flags, src[2..4]);
    assert src[4..] == Varint.EncodePair(h.id, h.length).value + rest;
    Varint.PairRoundTrip(h.id, h.length, rest);
  }

  /** Twenty bytes always decide about a header. */
  lemma HeaderIsDecided(src: seq<Byte>, limit: U64)
    requires |src| >= MAX_ENCODED_LEN
    ensures DecodeHeader(src, limit) != Fail(Truncated)
  {
    Varint.TruncatedIff(src[4..]);
    if Varint.Decode(src[4..]).Got? {
      Varint.TruncatedIff(src[4..][Varint.Decode(src[4..]).used..]);
    }
  }

  /** A reader never waits for more than a header and a payload within the limit. */
  lemma FrameIsDecided(src: seq<Byte>, limit: U64)
    requires |src| >= MAX_ENCODED_LEN + limit
    ensures Decode(src, limit) != Fail(Truncated)
  {
    HeaderIsDecided(src, limit);
  }

  /** Too short for its fixed bytes, or a whole header without its whole payload, is `Truncated`. */
  lemma ShortIsTruncated(f: Frame, limit: U64, part: seq<Byte>)
    requires WellFormed(f) && f.header.length <= limit && part < Encode(f).value
    ensures Decode(part, limit) == Fail(Truncated)
  {
    var wire := Encode(f).value;
    RoundTrip(f, limit, []);
    assert wire + [] == wire && part + wire[|part|..] == wire;
    if Decode(part, limit) != Fail(Truncated) {
      Stable(part, limit, wire[|part|..]);
    }
  }

  /** What does not encode, and why: version, then flags, then the varints; before all of them a false length. */
  lemma EncodeRefusals(f: Frame)
    ensures f.header.length != |f.payload| ==> Encode(f) == Err(InvalidFrame)
    ensures f.header.length == |f.payload| && f.header.version != 1 ==> Encode(f) == Err(UnsupportedVersion(f.header.version))
    ensures f.header.length == |f.payload| && f.header.version == 1 && f.header.flags >= 0x100
      ==> Encode(f) == Err(UnsupportedFlag(f.header.flags / 0x100 * 0x100))
    ensures
      var varints := f.header.id < Varint.Span(8) && f.header.length < Varint.Span(8);
      f.header.length == |f.payload| && f.header.version == 1 && f.header.flags < 0x100 && !varints ==> Encode(f) == Err(InvalidVarint)
  {
  }

  /** The bytes of a small frame, field by field. */
  lemma SmallFrameBytes(kind: FrameType, flags: U16, id: U64, payload: seq<Byte>)
    requires flags < 0x100 && id < 0x40 && |payload| < 0x40
    ensures Encode(Frame(Header(1, kind, flags, id, |payload|), payload))
      == Ok([1, kind, 0, flags as Byte, id as Byte, |payload| as Byte] + payload)
  {
    var h := Header(1, kind, flags, id, |payload|);
    FieldBytes(flags);
    Varint.EncodedBytes(id);
    Varint.EncodedBytes(|payload|);
    assert EncodeHeader(h).value == [1, kind] + [0, flags as Byte] + ([id as Byte] + [|payload| as Byte]);
    assert EncodeHeader(h).value == [1, kind, 0, flags as Byte, id as Byte, |payload| as Byte];
  }
}
