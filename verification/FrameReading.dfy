/**
 The buffered, cancellation-safe frame reader (crates/uk-proto/src/io.rs).

 The inner reader is arbitrary: it is the script of what each await on it comes to.
 */
module FrameReading {
  import opened Bytes
  import opened Protocol
  import opened Frames

  // ---------------------------------------------------------------------------------------------
  // The reference: repeated `Frame::decode` over one contiguous stream.
  // ---------------------------------------------------------------------------------------------

  /** The frames at the front of a stream, what follows them, and why decoding stopped there. */
  datatype Decoded = Decoded(frames: seq<Frame>, rest: seq<Byte>, stop: ProtocolError)

  function DecodeAll(stream: seq<Byte>, limit: U64): (d: Decoded)
  {
    match Frames.Decode(stream, limit)
    case Fail(e) => Decoded([], stream, e)
    case Got(f, n) =>
      var d := DecodeAll(stream[n..], limit);
      d.(frames := [f] + d.frames)
  }

  /** Frames that a sender can encode and a receiver with this limit accepts. */
  predicate Sendable(frames: seq<Frame>, limit: U64)
  {
    frames == [] || (WellFormed(frames[0]) && frames[0].header.length <= limit && Sendable(frames[1..], limit))
  }

  /** The bytes a frame puts on the wire: none at all when it does not encode. */
  function Wire(f: Frame): (wire: seq<Byte>)
  {
    match Frames.Encode(f) case Ok(wire) => wire case Err(_) => []
  }

  function EncodeAll(frames: seq<Frame>): (wire: seq<Byte>)
  {
    if frames == [] then [] else Wire(frames[0]) + EncodeAll(frames[1..])
  }

  lemma {:induction false} EncodeAllAppend(frames: seq<Frame>, last: Frame)
    ensures EncodeAll(frames + [last]) == EncodeAll(frames) + Wire(last)
  {
    if frames == [] {
      assert frames + [last] == [last];
    } else {
      assert (frames + [last])[1..] == frames[1..] + [last];
      EncodeAllAppend(frames[1..], last);
      Associates(Wire(frames[0]), EncodeAll(frames[1..]), Wire(last));
    }
  }

  lemma {:induction false} SendableAppend(frames: seq<Frame>, last: Frame, limit: U64)
    ensures Sendable(frames + [last], limit) <==> Sendable(frames, limit) && Sendable([last], limit)
  {
    if frames == [] {
      assert frames + [last] == [last];
    } else {
      assert (frames + [last])[1..] == frames[1..] + [last];
      SendableAppend(frames[1..], last, limit);
    }
  }

  lemma FirstOnWire(frames: seq<Frame>, tail: seq<Byte>)
    requires frames != []
    ensures EncodeAll(frames) + tail == Wire(frames[0]) + (EncodeAll(frames[1..]) + tail)
    ensures frames == [frames[0]] + frames[1..]
  {
    Associates(Wire(frames[0]), EncodeAll(frames[1..]), tail);
  }

  lemma DecodeFirst(f: Frame, limit: U64, later: seq<Byte>)
    requires WellFormed(f) && f.header.length <= limit
    ensures var d := DecodeAll(later, limit);
      DecodeAll(Wire(f) + later, limit) == Decoded([f] + d.frames, d.rest, d.stop)
  {
    Frames.RoundTrip(f, limit, later);
    Parts(Wire(f), later);
  }

  /** Decoding a concatenation of frames gives the frames back, for any tail that is no frame yet. */
  lemma {:induction false} DecodesWhatWasEncoded(frames: seq<Frame>, limit: U64, tail: seq<Byte>)
    requires Sendable(frames, limit)
    requires Frames.Decode(tail, limit).Fail?
    ensures DecodeAll(EncodeAll(frames) + tail, limit) == Decoded(frames, tail, Frames.Decode(tail, limit).error)
  {
    if frames == [] {
      assert EncodeAll(frames) + tail == tail;
    } else {
      DecodesWhatWasEncoded(frames[1..], limit, tail);
      FirstOnWire(frames, tail);
      DecodeFirst(frames[0], limit, EncodeAll(frames[1..]) + tail);
    }
  }

  lemma NothingYet(limit: U64)
    ensures Frames.Decode([], limit) == Fail(Truncated)
  {
  }

  lemma PrefixSplit<T>(s: seq<T>, first: seq<T>, later: seq<T>)
    requires s <= first + later
    ensures |s| < |first| ==> s < first
    ensures |s| >= |first| ==> s == first + s[|first|..] && s[|first|..] <= later
  {
  }

  /** The stream holds the first of these frames, and then more is wanted. */
  predicate StopsShort(stream: seq<Byte>, frames: seq<Frame>, limit: U64)
  {
    DecodeAll(stream, limit).frames <= frames && DecodeAll(stream, limit).stop == Truncated
  }

  lemma StopsAtOnce(stream: seq<Byte>, frames: seq<Frame>, limit: U64)
    requires Frames.Decode(stream, limit) == Fail(Truncated)
    ensures StopsShort(stream, frames, limit)
  {
  }

  lemma StopsLater(frames: seq<Frame>, rest: seq<Byte>, limit: U64)
    requires frames != [] && WellFormed(frames[0]) && frames[0].header.length <= limit
    requires StopsShort(rest, frames[1..], limit)
    ensures StopsShort(Wire(frames[0]) + rest, frames, limit)
  {
    DecodeFirst(frames[0], limit, rest);
    PrefixGrows(frames, DecodeAll(rest, limit).frames);
  }

  /** Wherever the concatenation of frames is cut, a prefix of the frames decodes and then more is wanted. */
  lemma {:induction false} PrefixDecodes(frames: seq<Frame>, limit: U64, part: seq<Byte>)
    requires Sendable(frames, limit) && part <= EncodeAll(frames)
    ensures StopsShort(part, frames, limit)
  {
    if frames == [] {
      NothingYet(limit);
      StopsAtOnce(part, frames, limit);
    } else {
      var first := Wire(frames[0]);
      PrefixSplit(part, first, EncodeAll(frames[1..]));
      if |part| < |first| {
        Frames.ShortIsTruncated(frames[0], limit, part);
        StopsAtOnce(part, frames, limit);
      } else {
        PrefixDecodes(frames[1..], limit, part[|first|..]);
        StopsLater(frames, part[|first|..], limit);
      }
    }
  }

  lemma PrefixGrows<T>(s: seq<T>, t: seq<T>)
    requires s != [] && t <= s[1..]
    ensures [s[0]] + t <= s
  {
    assert s == [s[0]] + s[1..];
  }

  /** Conversely the decoded frames, re-encoded, are exactly the bytes that were consumed. */
  lemma {:induction false} EncodesWhatWasDecoded(stream: seq<Byte>, limit: U64)
    ensures var d := DecodeAll(stream, limit);
      Sendable(d.frames, limit) && stream == EncodeAll(d.frames) + d.rest
    decreases |stream|
  {
    var d := DecodeAll(stream, limit);
    match Frames.Decode(stream, limit)
    case Fail(_) =>
    case Got(f, n) =>
      Frames.Canonical(stream, limit);
      EncodesWhatWasDecoded(stream[n..], limit);
      var later := EncodeAll(d.frames[1..]);
      assert d.frames[1..] == DecodeAll(stream[n..], limit).frames;
      Splits(stream, n);
      Associates(stream[..n], later, d.rest);
  }

  // ---------------------------------------------------------------------------------------------
  // FrameReader.
  // ---------------------------------------------------------------------------------------------

  /** What one `read_buf().await` on the inner reader comes to. */
  datatype ReadEvent =
    | Data(bytes: seq<Byte>)  // bytes appended to the buffer; none means end of stream
    | UnexpectedEof           // reported by TLS for a missing close_notify
    | IoError
    | Dropped                 // the caller drops the pending call; nothing was read

  datatype ReadOutcome =
    | Received(frame: Frame)
    | Closed
    | ProtocolFailure(error: ProtocolError)
    | IoFailure
    | Cancelled

  predicate IsEnd(event: ReadEvent)
  {
    event == Data([]) || event == UnexpectedEof
  }

  /** The bytes a script delivers before its end of stream. */
  function Delivered(events: seq<ReadEvent>): (stream: seq<Byte>)
  {
    if events == [] || IsEnd(events[0]) then []
    else if events[0].Data? then events[0].bytes + Delivered(events[1..])
    else Delivered(events[1..])
  }

  predicate Ends(events: seq<ReadEvent>)
  {
    exists event :: event in events && IsEnd(event)
  }

  function Load(events: seq<ReadEvent>): (n: nat)
    ensures n >= |events|
  {
    if events == [] then 0
    else 1 + (if events[0].Data? then |events[0].bytes| else 0) + Load(events[1..])
  }

  datatype Call = Call(outcome: ReadOutcome, buffer: seq<Byte>, events: seq<ReadEvent>)

  /** One `read_frame` call from a buffer: its outcome, the buffer it leaves, the events still to come. */
  function ReadCall(buffer: seq<Byte>, events: seq<ReadEvent>, limit: U64): (c: Call)
    ensures |c.buffer| + Load(c.events) <= |buffer| + Load(events)
    ensures c.outcome.Received? || (events != [] && (c.outcome.Cancelled? || c.outcome.IoFailure?))
      ==> |c.buffer| + Load(c.events) < |buffer| + Load(events)
    decreases |events|
  {
    match Frames.Decode(buffer, limit)
    case Got(f, n) => Call(Received(f), buffer[n..], events)
    case Fail(e) =>
      if e != Truncated then Call(ProtocolFailure(e), buffer, events)
      else if events == [] then Call(Cancelled, buffer, [])
      else if IsEnd(events[0]) then
        Call(if buffer == [] then Closed else ProtocolFailure(Truncated), buffer, events[1..])
      else match events[0]
        case Data(bytes) => ReadCall(buffer + bytes, events[1..], limit)
        case IoError => Call(IoFailure, buffer, events[1..])
        case Dropped => Call(Cancelled, buffer, events[1..])
  }

  /** Calling `read_frame` again and again until it closes, fails for good or runs out of events. */
  function Session(buffer: seq<Byte>, events: seq<ReadEvent>, limit: U64): (outcomes: seq<ReadOutcome>)
    ensures outcomes != []
    decreases |buffer| + Load(events)
  {
    var c := ReadCall(buffer, events, limit);
    if c.outcome.Closed? || c.outcome.ProtocolFailure? || (events == [] && c.outcome.Cancelled?)
    then [c.outcome]
    else [c.outcome] + Session(c.buffer, c.events, limit)
  }

  function FramesOf(outcomes: seq<ReadOutcome>): (frames: seq<Frame>)
  {
    if outcomes == [] then []
    else (if outcomes[0].Received? then [outcomes[0].frame] else []) + FramesOf(outcomes[1..])
  }

  lemma FramesOfLater(first: ReadOutcome, later: seq<ReadOutcome>)
    requires later != []
    ensures FramesOf([first] + later) == (if first.Received? then [first.frame] else []) + FramesOf(later)
    ensures ([first] + later)[|later|] == later[|later| - 1]
  {
    assert ([first] + later)[1..] == later;
  }

  /** How a session must end, given the whole stream and whether it ends. */
  function Verdict(stream: seq<Byte>, ended: bool, limit: U64): (o: ReadOutcome)
  {
    var d := DecodeAll(stream, limit);
    if d.stop != Truncated then ProtocolFailure(d.stop)
    else if !ended then Cancelled
    else if d.rest == [] then Closed
    else ProtocolFailure(Truncated)
  }

  lemma EndsLater(events: seq<ReadEvent>)
    requires events != [] && !IsEnd(events[0])
    ensures Ends(events) == Ends(events[1..])
  {
    if Ends(events) {
      var event :| event in events && IsEnd(event);
      assert event in events[1..];
    }
  }

  /** One call agrees with decoding the whole remaining stream, and loses none of it. */
  lemma {:induction false} CallFollowsStream(buffer: seq<Byte>, events: seq<ReadEvent>, limit: U64)
    ensures var c := ReadCall(buffer, events, limit);
      var stream := buffer + Delivered(events);
      var onward := c.buffer + Delivered(c.events);
      var next := Frames.Decode(stream, limit);
      match c.outcome
      case Received(f) => next.Got? && next.value == f && onward == stream[next.used..] && Ends(c.events) == Ends(events)
      case Closed => stream == [] && Ends(events)
      case ProtocolFailure(e) => next == Fail(e) && (e == Truncated ==> stream != [] && Ends(events))
      case _ => onward == stream && Ends(c.events) == Ends(events) && (events == [] ==> next == Fail(Truncated))
    decreases |events|
  {
    var stream := buffer + Delivered(events);
    var now := Frames.Decode(buffer, limit);
    if now != Fail(Truncated) {
      Frames.Stable(buffer, limit, Delivered(events));
      if now.Got? {
        TailGrows(buffer, Delivered(events), now.used);
      }
    } else if events == [] || IsEnd(events[0]) {
      assert stream == buffer;
    } else {
      EndsLater(events);
      if events[0].Data? {
        var bytes := events[0].bytes;
        CallFollowsStream(buffer + bytes, events[1..], limit);
        Associates(buffer, bytes, Delivered(events[1..]));
      }
    }
  }

  /** What a session owes the stream it reads: the frames of repeated decoding, and their ending. */
  ghost predicate Follows(outcomes: seq<ReadOutcome>, stream: seq<Byte>, ended: bool, limit: U64)
  {
    && outcomes != []
    && FramesOf(outcomes) == DecodeAll(stream, limit).frames
    && outcomes[|outcomes| - 1] == Verdict(stream, ended, limit)
  }

  lemma FollowsOnward(f: Frame, later: seq<ReadOutcome>, stream: seq<Byte>, ended: bool, limit: U64)
    requires Frames.Decode(stream, limit).Got? && f == Frames.Decode(stream, limit).value
    requires Follows(later, stream[Frames.Decode(stream, limit).used..], ended, limit)
    ensures Follows([Received(f)] + later, stream, ended, limit)
  {
    FramesOfLater(Received(f), later);
  }

  lemma FollowsAgain(first: ReadOutcome, later: seq<ReadOutcome>, stream: seq<Byte>, ended: bool, limit: U64)
    requires !first.Received? && Follows(later, stream, ended, limit)
    ensures Follows([first] + later, stream, ended, limit)
  {
    FramesOfLater(first, later);
  }

  /** How many events a call used up, and that they were data but for the one that ended it. */
  predicate UsesUp(events: seq<ReadEvent>, c: Call, n: nat)
  {
    && n <= |events| && c.events == events[n..]
    && match c.outcome
       case Received(_) => AllData(events[..n])
       case Closed => n > 0 && AllData(events[..n - 1]) && IsEnd(events[n - 1])
       case ProtocolFailure(e) => AllData(events[..n]) || (e == Truncated && n > 0 && AllData(events[..n - 1]) && IsEnd(events[n - 1]))
       case IoFailure => n > 0 && AllData(events[..n - 1]) && events[n - 1] == IoError
       case Cancelled => (AllData(events[..n]) && n == |events|) || (n > 0 && AllData(events[..n - 1]) && events[n - 1] == Dropped)
  }

  predicate AllData(events: seq<ReadEvent>)
  {
    forall i :: 0 <= i < |events| ==> events[i].Data? && !IsEnd(events[i])
  }

  /** A call reports an error of the reader as such, a dropped call as such, and stops at neither data nor less. */
  lemma {:induction false} CallReportsItsEvent(buffer: seq<Byte>, events: seq<ReadEvent>, limit: U64) returns (n: nat)
    ensures UsesUp(events, ReadCall(buffer, events, limit), n)
    decreases |events|
  {
    var c := ReadCall(buffer, events, limit);
    n := 0;
    if Frames.Decode(buffer, limit) == Fail(Truncated) && events != [] {
      if events[0].Data? && !IsEnd(events[0]) {
        var m := CallReportsItsEvent(buffer + events[0].bytes, events[1..], limit);
        UsesOneMore(events, c, m);
        n := m + 1;
      } else {
        n := 1;
        assert events[..0] == [];
      }
    }
  }

  lemma UsesOneMore(events: seq<ReadEvent>, c: Call, n: nat)
    requires events != [] && events[0].Data? && !IsEnd(events[0]) && UsesUp(events[1..], c, n)
    ensures UsesUp(events, c, n + 1)
  {
    var rest := events[1..];
    assert events[n + 1..] == rest[n..];
    DataFirst(events, n);
    if n > 0 {
      DataFirst(events, n - 1);
    }
  }

  lemma DataFirst(events: seq<ReadEvent>, n: nat)
    requires n < |events| && events[0].Data? && !IsEnd(events[0])
    ensures AllData(events[..n + 1]) <==> AllData(events[1..][..n])
  {
    assert events[..n + 1] == [events[0]] + events[1..][..n];
    if AllData(events[..n + 1]) {
      assert forall i :: 0 <= i < n ==> events[1..][..n][i] == events[..n + 1][i + 1];
    }
  }

  /**
   For every byte stream, every split of it into reads and every interleaving of dropped calls and
   transient errors, the frames handed out are those of repeated decoding, and so is the ending.
   */
  lemma {:induction false} SessionFollowsStream(buffer: seq<Byte>, events: seq<ReadEvent>, limit: U64)
    ensures Follows(Session(buffer, events, limit), buffer + Delivered(events), Ends(events), limit)
    decreases |buffer| + Load(events)
  {
    var stream := buffer + Delivered(events);
    var c := ReadCall(buffer, events, limit);
    CallFollowsStream(buffer, events, limit);
    if c.outcome.Closed? {
      assert Frames.Decode([], limit) == Fail(Truncated);
    } else if !c.outcome.ProtocolFailure? && !(events == [] && c.outcome.Cancelled?) {
      var later := Session(c.buffer, c.events, limit);
      SessionFollowsStream(c.buffer, c.events, limit);
      if c.outcome.Received? {
        FollowsOnward(c.outcome.frame, later, stream, Ends(events), limit);
      } else {
        FollowsAgain(c.outcome, later, stream, Ends(events), limit);
      }
    }
  }

  /** How the bytes were chunked and which calls were dropped makes no difference. */
  lemma ChunkingIsInvisible(events: seq<ReadEvent>, others: seq<ReadEvent>, limit: U64)
    requires Delivered(events) == Delivered(others) && Ends(events) == Ends(others)
    ensures var a, b := Session([], events, limit), Session([], others, limit);
      FramesOf(a) == FramesOf(b) && a[|a| - 1] == b[|b| - 1]
  {
    SessionFollowsStream([], events, limit);
    SessionFollowsStream([], others, limit);
    FollowersAgree(Session([], events, limit), Session([], others, limit), [] + Delivered(events), Ends(events), limit);
  }

  lemma FollowersAgree(a: seq<ReadOutcome>, b: seq<ReadOutcome>, stream: seq<Byte>, ended: bool, limit: U64)
    requires Follows(a, stream, ended, limit) && Follows(b, stream, ended, limit)
    ensures FramesOf(a) == FramesOf(b) && a[|a| - 1] == b[|b| - 1]
  {
  }

  class FrameReader {
    var buffer: seq<Byte>
    const limit: U64
    ghost var received: seq<Byte>  // every byte the inner reader has handed over
    ghost var emitted: seq<Frame>  // every frame handed to the caller

    /** The frames handed out and the bytes still buffered are, in order, all that was read. */
    ghost predicate Valid()
      reads this
    {
      && Sendable(emitted, limit)
      && received == EncodeAll(emitted) + buffer
    }

    constructor (limit: U64)
      ensures Valid() && buffer == received == [] && emitted == [] && this.limit == limit
    {
      this.limit := limit;
      buffer, received, emitted := [], [], [];
    }

    /** Removes one whole frame from the buffer, or leaves it untouched. */
    method TakeBufferedFrame() returns (r: Result<Option<Frame>, ProtocolError>)
      requires Valid()
      modifies this`buffer, this`emitted
      ensures Valid()
      ensures match Frames.Decode(old(buffer), limit)
        case Got(f, n) => r == Ok(Some(f)) && buffer == old(buffer)[n..] && emitted == old(emitted) + [f]
        case Fail(e) => r == (if e == Truncated then Ok(None) else Err(e)) && buffer == old(buffer) && emitted == old(emitted)
    {
      var header := DecodeHeader(buffer, limit);
      if header.Fail? {
        return if header.error == Truncated then Ok(None) else Err(header.error);
      }
      var total := header.used + header.value.length;
      if |buffer| < total {
        return Ok(None);
      }
      var frame, later := buffer[..total], buffer[total..];
      var f := Frame(header.value, frame[header.used..]);
      assert f.payload == buffer[header.used..total];
      Frames.Canonical(buffer, limit);
      EncodeAllAppend(emitted, f);
      SendableAppend(emitted, f, limit);
      Splits(buffer, total);
      Associates(EncodeAll(emitted), frame, later);
      buffer, emitted := later, emitted + [f];
      return Ok(Some(f));
    }

    /** Reads one complete frame, buffering across calls; a dropped call loses nothing. */
    method ReadFrame(events: seq<ReadEvent>) returns (outcome: ReadOutcome, rest: seq<ReadEvent>)
      requires Valid()
      modifies this
      ensures Valid()
      ensures Call(outcome, buffer, rest) == ReadCall(old(buffer), events, limit)
      ensures emitted == old(emitted) + if outcome.Received? then [outcome.frame] else []
    {
      rest := events;
      while true
        invariant Valid()
        invariant emitted == old(emitted)
        invariant ReadCall(buffer, rest, limit) == ReadCall(old(buffer), events, limit)
        decreases |rest|
      {
        var taken := TakeBufferedFrame();
        match taken
        case Err(e) => return ProtocolFailure(e), rest;
        case Ok(Some(f)) => return Received(f), rest;
        case Ok(None) =>
          if rest == [] {
            return Cancelled, rest;
          }
          var event := rest[0];
          rest := rest[1..];
          if event == IoError {
            return IoFailure, rest;
          } else if event == Dropped {
            return Cancelled, rest;
          }
          var bytes := if event == UnexpectedEof then [] else event.bytes;
          if bytes == [] {
            return if buffer == [] then Closed else ProtocolFailure(Truncated), rest;
          }
          Associates(EncodeAll(emitted), buffer, bytes);
          buffer, received := buffer + bytes, received + bytes;
      }
    }
  }
}
