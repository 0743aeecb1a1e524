/** The one-shot frame reader, over a finite stream followed by end of input (crates/uk-proto/src/io.rs). */
module OneShotReading {
  import opened Bytes
  import opened Protocol
  import opened Frames
  import opened FrameReading
  import Varint

  /** What the first frame of a finite stream is, or why there is none. */
  function FirstFrame(stream: seq<Byte>, limit: U64): (o: ReadOutcome)
  {
    if stream == [] then Closed
    else match Frames.Decode(stream, limit)
      case Got(f, _) => Received(f)
      case Fail(e) => ProtocolFailure(e)
  }

  /** Reads one varint byte by byte, keeping its bytes for the header. */
  method ReadVarint(stream: seq<Byte>, pos: nat, headerBytes: seq<Byte>)
    returns (r: Result<U64, ProtocolError>, pos': nat, headerBytes': seq<Byte>)
    requires pos <= |stream|
    ensures pos <= pos' <= |stream|
    ensures match Varint.Decode(stream[pos..])
      case Got(v, n) => r == Ok(v) && pos' == pos + n && headerBytes' == headerBytes + stream[pos..pos']
      case Fail(e) => r == Err(e)
  {
    pos', headerBytes' := pos, headerBytes;
    if pos == |stream| {
      return Err(Truncated), pos', headerBytes';
    }
    var first := stream[pos];
    var len := Varint.Width(first);
    if |stream| - pos < len {
      return Err(Truncated), pos', headerBytes';
    }
    pos' := pos + len;
    headerBytes' := headerBytes + [first] + stream[pos + 1..pos'];
    assert [first] + stream[pos + 1..pos'] == stream[pos..pos'];
    Associates(headerBytes, [first], stream[pos + 1..pos']);
    Parts(headerBytes, stream[pos..pos']);
    assert stream[pos..][..len] == stream[pos..pos'] == stream[pos..pos'][..len];
    match Varint.Decode(headerBytes'[|headerBytes'| - len..])
    case Got(v, _) => r := Ok(v);
    case Fail(e) => r := Err(e);
  }

  /** The header fields after the fixed four bytes, validated as they arrive. */
  method ReadHeader(stream: seq<Byte>, limit: U64) returns (r: Result<Header, ProtocolError>, pos: nat)
    requires stream != []
    ensures match DecodeHeader(stream, limit)
      case Got(h, n) => r == Ok(h) && pos == n
      case Fail(e) => r == Err(e)
  {
    pos := 0;
    if |stream| < 4 {
      return Err(Truncated), pos;
    }
    var fixed := stream[..4];
    if fixed[0] != VERSION {
      return Err(UnsupportedVersion(fixed[0])), pos;
    }
    if !Registered(fixed[1]) {
      return Err(UnknownFrameType(fixed[1])), pos;
    }
    assert fixed[2..4] == stream[2..4];
    var flags := FromBigEndian(fixed[2..4]);
    if RequiredFlags(flags) != 0 {
      return Err(UnsupportedFlag(RequiredFlags(flags))), pos;
    }
    var id, length, mid, headerBytes;
    id, mid, headerBytes := ReadVarint(stream, 4, fixed);
    if id.Err? {
      return Err(id.error), mid;
    }
    length, pos, headerBytes := ReadVarint(stream, mid, headerBytes);
    assert stream[4..][mid - 4..] == stream[mid..];
    if length.Err? {
      return Err(length.error), pos;
    }
    assert headerBytes == stream[..pos];
    HeaderOfItsBytes(stream, limit, pos);
    match DecodeHeader(headerBytes, limit)
    case Got(h, _) => r := Ok(h);
    case Fail(e) => r := Err(e);
  }

  /** Once both varints are whole, the header decoder sees the same in its own bytes as in the stream. */
  lemma HeaderOfItsBytes(stream: seq<Byte>, limit: U64, n: nat)
    requires 4 <= n <= |stream| && Varint.DecodePair(stream[4..]).Got? && Varint.DecodePair(stream[4..]).used == n - 4
    ensures DecodeHeader(stream[..n], limit) == DecodeHeader(stream, limit)
  {
    PairOfItsBytes(stream[4..]);
    assert stream[4..][..n - 4] == stream[..n][4..];
    assert stream[..n][2..4] == stream[2..4];
    SameHeader(stream[..n], stream, limit);
  }

  /** A header is its four fixed bytes and its pair of varints. */
  lemma SameHeader(a: seq<Byte>, b: seq<Byte>, limit: U64)
    requires |a| >= 4 && |b| >= 4 && a[0] == b[0] && a[1] == b[1] && a[2..4] == b[2..4]
    requires Varint.DecodePair(a[4..]) == Varint.DecodePair(b[4..])
    ensures DecodeHeader(a, limit) == DecodeHeader(b, limit)
  {
  }

  lemma PairOfItsBytes(src: seq<Byte>)
    requires Varint.DecodePair(src).Got?
    ensures Varint.DecodePair(src[..Varint.DecodePair(src).used]) == Varint.DecodePair(src)
  {
    var Got((a, b), n) := Varint.DecodePair(src);
    Varint.PairCanonical(src);
    Varint.PairRoundTrip(a, b, []);
    assert src[..n] + [] == src[..n];
  }

  /** Once the header is read, only the number of bytes behind it matters. */
  lemma FrameBehindHeader(stream: seq<Byte>, limit: U64)
    requires DecodeHeader(stream, limit).Got?
    ensures var start, h := DecodeHeader(stream, limit).used, DecodeHeader(stream, limit).value;
      var end := start + h.length;
      Frames.Decode(stream, limit) == if |stream| < end then Fail(Truncated) else Got(Frame(h, stream[start..end]), end)
  {
  }

  const READ_CHUNK := 8192

  /** The payload, read in chunks; a stream too short for it is truncated. */
  method ReadPayload(stream: seq<Byte>, start: nat, length: nat) returns (r: Result<seq<Byte>, ProtocolError>, used: nat)
    requires start <= |stream|
    ensures r == if |stream| < start + length then Err(Truncated) else Ok(stream[start..start + length])
    ensures r.Ok? ==> used == start + length
  {
    var payload: seq<Byte> := [];
    used := start;
    while |payload| < length
      invariant |payload| <= length && used == start + |payload| <= |stream|
      invariant payload == stream[start..used]
    {
      var remaining := length - |payload|;
      var toRead := if remaining < READ_CHUNK then remaining else READ_CHUNK;
      if |stream| - used < toRead {
        return Err(Truncated), used;
      }
      payload := payload + stream[used..used + toRead];
      used := used + toRead;
    }
    r := Ok(payload);
  }

  /** Reads one complete frame, field by field and then the payload in chunks. */
  method ReadFrameOnce(stream: seq<Byte>, limit: U64) returns (outcome: ReadOutcome, used: nat)
    ensures outcome == FirstFrame(stream, limit)
    ensures outcome.Received? ==> used == Frames.Decode(stream, limit).used
  {
    used := 0;
    if stream == [] {
      return Closed, used;
    }
    var header;
    header, used := ReadHeader(stream, limit);
    if header.Err? {
      return ProtocolFailure(header.error), used;
    }
    FrameBehindHeader(stream, limit);
    var payload;
    payload, used := ReadPayload(stream, used, header.value.length);
    outcome := match payload case Ok(bytes) => Received(Frame(header.value, bytes)) case Err(e) => ProtocolFailure(e);
  }

  predicate Undisturbed(events: seq<ReadEvent>)
  {
    forall i :: 0 <= i < |events| ==> events[i].Data? || events[i].UnexpectedEof?
  }

  /** On an undisturbed stream that ends, the buffered reader's first answer is the one-shot reader's. */
  lemma {:induction false} ReadersAgree(buffer: seq<Byte>, events: seq<ReadEvent>, limit: U64)
    requires Undisturbed(events) && Ends(events)
    ensures ReadCall(buffer, events, limit).outcome == FirstFrame(buffer + Delivered(events), limit)
    decreases |events|
  {
    CallFollowsStream(buffer, events, limit);
    NeverGivesUp(buffer, events, limit);
  }

  lemma {:induction false} NeverGivesUp(buffer: seq<Byte>, events: seq<ReadEvent>, limit: U64)
    requires Undisturbed(events) && Ends(events)
    ensures !ReadCall(buffer, events, limit).outcome.IoFailure?
    ensures !ReadCall(buffer, events, limit).outcome.Cancelled?
    ensures ReadCall(buffer, events, limit).outcome.ProtocolFailure? ==> buffer + Delivered(events) != []
    decreases |events|
  {
    if Frames.Decode(buffer, limit) == Fail(Truncated) && !IsEnd(events[0]) {
      EndsLater(events);
      NeverGivesUp(buffer + events[0].bytes, events[1..], limit);
    }
  }
}
