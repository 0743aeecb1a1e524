/** Frame writers over a transport that accepts arbitrary partial amounts (crates/uk-proto/src/io.rs). */
module FrameWriting {
  import opened Bytes
  import opened Protocol
  import opened Frames
  import opened FrameReading

  /** What one write poll comes to: some leading bytes taken, or an error. */
  datatype WriteStep = Accept(count: nat) | WriteError

  datatype WriteFailure = WriteZero | WriteFailed | NotEncodable(error: ProtocolError)

  /** A transport that answers its `n`-th write as `answer(n)` says; partial and zero writes included. */
  class Writer {
    const answer: nat -> WriteStep
    var calls: nat
    var wire: seq<Byte>

    constructor (answer: nat -> WriteStep)
      ensures this.answer == answer && calls == 0 && wire == []
    {
      this.answer, calls, wire := answer, 0, [];
    }

    /** Never takes more than it is offered. */
    method PollWriteVectored(first: seq<Byte>, second: seq<Byte>) returns (r: Result<nat, WriteFailure>)
      modifies this
      ensures calls == old(calls) + 1
      ensures match answer(old(calls))
        case WriteError => r == Err(WriteFailed) && wire == old(wire)
        case Accept(count) =>
          && r == Ok(if count < |first| + |second| then count else |first| + |second|)
          && wire == old(wire) + (first + second)[..r.value]
    {
      var step := answer(calls);
      calls := calls + 1;
      match step
      case WriteError => r := Err(WriteFailed);
      case Accept(count) =>
        var n := if count < |first| + |second| then count else |first| + |second|;
        wire := wire + (first + second)[..n];
        r := Ok(n);
    }
  }

  predicate AlwaysProgresses(step: WriteStep)
  {
    step.Accept? && step.count > 0
  }

  /** The answer that ends a write, and the failure it is reported as. */
  predicate Refuses(step: WriteStep, failure: WriteFailure)
  {
    (step == Accept(0) && failure == WriteZero) || (step == WriteError && failure == WriteFailed)
  }

  /** Of `message` a strict prefix has reached the wire. */
  ghost predicate StoppedWithin(before: seq<Byte>, message: seq<Byte>, after: seq<Byte>)
  {
    exists n :: 0 <= n < |message| && after == before + message[..n]
  }

  /** Writes both slices in full, or stops at a refusal having written a strict prefix of them. */
  method WriteAllVectored(w: Writer, head: seq<Byte>, body: seq<Byte>) returns (r: Result<(), WriteFailure>)
    modifies w
    ensures r.Ok? ==> w.wire == old(w.wire) + head + body
    ensures r.Err? ==> StoppedWithin(old(w.wire), head + body, w.wire) && w.calls > 0 && Refuses(w.answer(w.calls - 1), r.error)
    ensures (forall n: nat :: AlwaysProgresses(w.answer(n))) ==> r.Ok?
  {
    var first, second := head, body;
    ghost var sent := 0;
    while first != [] || second != []
      invariant sent + |first| + |second| == |head| + |body|
      invariant first + second == (head + body)[sent..]
      invariant w.wire == old(w.wire) + (head + body)[..sent]
      decreases |first| + |second|
    {
      ghost var before := w.wire;
      assert first == [] ==> first + second == second;
      var polled := w.PollWriteVectored(first, second);
      if polled.Err? {
        assert !AlwaysProgresses(w.answer(w.calls - 1));
        return Err(polled.error);
      }
      var written := polled.value;
      if written == 0 {
        assert !AlwaysProgresses(w.answer(w.calls - 1));
        return Err(WriteZero);
      }
      Advance(head + body, sent, written);
      Associates(old(w.wire), (head + body)[..sent], (first + second)[..written]);
      var firstTake := if |first| < written then |first| else written;
      var secondTake := written - firstTake;
      TakeAcross(first, second, firstTake, secondTake);
      first, second, sent := first[firstTake..], second[secondTake..], sent + written;
    }
    All(head + body);
    Associates(old(w.wire), head, body);
    r := Ok(());
  }

  lemma All<T>(s: seq<T>)
    ensures s[..|s|] == s && s[0..] == s && s + [] == s
  {
  }

  lemma TakeAcross<T>(first: seq<T>, second: seq<T>, n: nat, m: nat)
    requires n <= |first| && m <= |second| && (m > 0 ==> n == |first|)
    ensures first[n..] + second[m..] == (first + second)[n + m..]
  {
  }

  lemma Advance<T>(s: seq<T>, sent: nat, more: nat)
    requires sent + more <= |s|
    ensures s[..sent] + s[sent..][..more] == s[..sent + more]
    ensures s[sent..][more..] == s[sent + more..]
  {
  }

  lemma Grow<T>(s: seq<T>, i: nat)
    requires i < |s|
    ensures s[..i + 1] == s[..i] + [s[i]]
  {
  }

  /** Writes one frame; only a well-formed one reaches the wire, and then in its one wire form. */
  method WriteFrame(w: Writer, f: Frame) returns (r: Result<(), WriteFailure>)
    modifies w
    ensures r.Ok? ==> WellFormed(f) && w.wire == old(w.wire) + Wire(f)
    ensures !WellFormed(f) ==> r == Err(NotEncodable(Frames.Encode(f).error)) && w.wire == old(w.wire)
    ensures WellFormed(f) && r.Err? ==>
      StoppedWithin(old(w.wire), Wire(f), w.wire) && w.calls > 0 && Refuses(w.answer(w.calls - 1), r.error)
    ensures WellFormed(f) && (forall n: nat :: AlwaysProgresses(w.answer(n))) ==> r.Ok?
  {
    if f.header.length != |f.payload| {
      return Err(NotEncodable(InvalidFrame));
    }
    var header := EncodeHeader(f.header);
    if header.Err? {
      return Err(NotEncodable(header.error));
    }
    Associates(w.wire, header.value, f.payload);
    r := WriteAllVectored(w, header.value, f.payload);
  }

  predicate AllWellFormed(frames: seq<Frame>)
  {
    forall i :: 0 <= i < |frames| ==> WellFormed(frames[i])
  }

  /** The error is that of the first frame of the batch that does not encode. */
  predicate FirstRefusal(frames: seq<Frame>, e: ProtocolError)
  {
    exists i :: 0 <= i < |frames| && AllWellFormed(frames[..i]) && Frames.Encode(frames[i]) == Err(e)
  }

  /** Coalesces a batch into one buffer. */
  method EncodeBatch(frames: seq<Frame>) returns (r: Result<seq<Byte>, ProtocolError>)
    ensures r.Ok? <==> AllWellFormed(frames)
    ensures r.Ok? ==> r.value == EncodeAll(frames)
    ensures r.Err? ==> FirstRefusal(frames, r.error)
  {
    var buffer: seq<Byte> := [];
    for i := 0 to |frames|
      invariant AllWellFormed(frames[..i])
      invariant buffer == EncodeAll(frames[..i])
    {
      var encoded := Frames.Encode(frames[i]);
      if encoded.Err? {
        return Err(encoded.error);
      }
      Grow(frames, i);
      EncodeAllAppend(frames[..i], frames[i]);
      buffer := buffer + encoded.value;
    }
    All(frames);
    r := Ok(buffer);
  }

  /** Writes a batch of frames as one buffer; a frame that does not encode keeps the whole batch back. */
  method WriteFrames(w: Writer, frames: seq<Frame>) returns (r: Result<(), WriteFailure>)
    modifies w
    ensures r.Ok? ==> AllWellFormed(frames) && w.wire == old(w.wire) + EncodeAll(frames)
    ensures !AllWellFormed(frames) ==>
      r.Err? && r.error.NotEncodable? && FirstRefusal(frames, r.error.error) && w.wire == old(w.wire)
    ensures AllWellFormed(frames) && r.Err? ==>
      StoppedWithin(old(w.wire), EncodeAll(frames), w.wire) && w.calls > 0 && Refuses(w.answer(w.calls - 1), r.error)
    ensures AllWellFormed(frames) && (forall n: nat :: AlwaysProgresses(w.answer(n))) ==> r.Ok?
  {
    var batch := EncodeBatch(frames);
    if batch.Err? {
      return Err(NotEncodable(batch.error));
    }
    var buffer := batch.value;
    All(w.wire);
    All(buffer);
    All(w.wire + buffer);
    if buffer == [] {
      return Ok(());
    }
    r := WriteAllVectored(w, buffer, []);
  }

  // ---------------------------------------------------------------------------------------------
  // From the writers to the reader.
  // ---------------------------------------------------------------------------------------------

  /** What a sender hands over at once: one frame or a batch. */
  datatype Send = Single(frame: Frame) | Batch(frames: seq<Frame>)

  function FramesSent(send: Send): (frames: seq<Frame>)
  {
    match send case Single(f) => [f] case Batch(frames) => frames
  }

  function AllSent(sends: seq<Send>): (frames: seq<Frame>)
  {
    if sends == [] then [] else AllSent(sends[..|sends| - 1]) + FramesSent(sends[|sends| - 1])
  }

  lemma {:induction false} EncodeAllJoins(a: seq<Frame>, b: seq<Frame>)
    ensures EncodeAll(a + b) == EncodeAll(a) + EncodeAll(b)
  {
    if a == [] {
      assert a + b == b;
    } else {
      assert (a + b)[1..] == a[1..] + b;
      EncodeAllJoins(a[1..], b);
      Associates(Wire(a[0]), EncodeAll(a[1..]), EncodeAll(b));
    }
  }

  lemma SingleOnWire(f: Frame)
    ensures EncodeAll([f]) == Wire(f)
  {
    assert EncodeAll([f]) == Wire(f) + EncodeAll([f][1..]);
  }

  /** The sends up to `i` as frames and as bytes. */
  lemma {:induction false} SentSoFar(sends: seq<Send>, i: nat)
    requires i < |sends|
    ensures AllSent(sends[..i + 1]) == AllSent(sends[..i]) + FramesSent(sends[i])
    ensures EncodeAll(AllSent(sends[..i + 1])) == EncodeAll(AllSent(sends[..i])) + EncodeAll(FramesSent(sends[i]))
  {
    assert sends[..i + 1][..i] == sends[..i];
    EncodeAllJoins(AllSent(sends[..i]), FramesSent(sends[i]));
  }

  lemma {:induction false} SentIsPrefix(sends: seq<Send>, i: nat)
    requires i <= |sends|
    ensures AllSent(sends[..i]) <= AllSent(sends) && EncodeAll(AllSent(sends[..i])) <= EncodeAll(AllSent(sends))
    decreases |sends| - i
  {
    if i == |sends| {
      All(sends);
    } else {
      SentSoFar(sends, i);
      SentIsPrefix(sends, i + 1);
    }
  }

  /** The frames of one send all reach the wire, or none or part of their bytes do. */
  method SendOne(w: Writer, send: Send) returns (r: Result<(), WriteFailure>)
    modifies w
    ensures r.Ok? ==> AllWellFormed(FramesSent(send)) && w.wire == old(w.wire) + EncodeAll(FramesSent(send))
    ensures r.Err? ==> exists n :: 0 <= n <= |EncodeAll(FramesSent(send))| && w.wire == old(w.wire) + EncodeAll(FramesSent(send))[..n]
    ensures AllWellFormed(FramesSent(send)) && (forall n: nat :: AlwaysProgresses(w.answer(n))) ==> r.Ok?
  {
    ghost var message := EncodeAll(FramesSent(send));
    assert w.wire == w.wire + message[..0];
    match send
    case Single(f) =>
      SingleOnWire(f);
      assert AllWellFormed([f]) <==> WellFormed([f][0]);
      r := WriteFrame(w, f);
    case Batch(frames) =>
      r := WriteFrames(w, frames);
  }

  /** Sends a mixture of single frames and batches one after the other, stopping at the first failure. */
  method SendAll(w: Writer, sends: seq<Send>) returns (r: Result<(), WriteFailure>)
    modifies w
    ensures r.Ok? ==> AllWellFormed(AllSent(sends)) && w.wire == old(w.wire) + EncodeAll(AllSent(sends))
    ensures exists n :: 0 <= n <= |EncodeAll(AllSent(sends))| && w.wire == old(w.wire) + EncodeAll(AllSent(sends))[..n]
    ensures AllWellFormed(AllSent(sends)) && (forall n: nat :: AlwaysProgresses(w.answer(n))) ==> r.Ok?
  {
    ghost var all := EncodeAll(AllSent(sends));
    for i := 0 to |sends|
      invariant AllWellFormed(AllSent(sends[..i]))
      invariant w.wire == old(w.wire) + EncodeAll(AllSent(sends[..i]))
    {
      SentSoFar(sends, i);
      SentIsPrefix(sends, i + 1);
      ghost var sofar, message := EncodeAll(AllSent(sends[..i])), EncodeAll(FramesSent(sends[i]));
      PartOfSends(sends, i);
      r := SendOne(w, sends[i]);
      if r.Err? {
        ghost var n :| 0 <= n <= |message| && w.wire == old(w.wire) + sofar + message[..n];
        PrefixAcross(old(w.wire), sofar, message, n, all);
        return;
      }
      Associates(old(w.wire), sofar, message);
    }
    All(sends);
    All(all);
    r := Ok(());
  }

  lemma PartOfSends(sends: seq<Send>, i: nat)
    requires i < |sends|
    ensures AllWellFormed(AllSent(sends)) ==> AllWellFormed(FramesSent(sends[i]))
    ensures AllWellFormed(AllSent(sends[..i + 1])) <==> AllWellFormed(AllSent(sends[..i])) && AllWellFormed(FramesSent(sends[i]))
  {
    SentSoFar(sends, i);
    SentIsPrefix(sends, i + 1);
    WellFormedJoins(AllSent(sends[..i]), FramesSent(sends[i]));
  }

  lemma WellFormedJoins(a: seq<Frame>, b: seq<Frame>)
    ensures AllWellFormed(a + b) <==> AllWellFormed(a) && AllWellFormed(b)
  {
    if AllWellFormed(a + b) {
      assert forall i :: 0 <= i < |a| ==> a[i] == (a + b)[i];
      assert forall i :: 0 <= i < |b| ==> b[i] == (a + b)[|a| + i];
    }
  }

  lemma PrefixAcross(before: seq<Byte>, sofar: seq<Byte>, message: seq<Byte>, n: nat, all: seq<Byte>)
    requires sofar + message <= all && n <= |message|
    ensures before + sofar + message[..n] == before + all[..|sofar| + n]
  {
    assert sofar + message[..n] == (sofar + message)[..|sofar| + n] == all[..|sofar| + n];
    Associates(before, sofar, message[..n]);
  }

  predicate AllWithin(frames: seq<Frame>, limit: U64)
  {
    forall i :: 0 <= i < |frames| ==> frames[i].header.length <= limit
  }

  lemma {:induction false} SendableIff(frames: seq<Frame>, limit: U64)
    ensures Sendable(frames, limit) <==> AllWellFormed(frames) && AllWithin(frames, limit)
  {
    if frames != [] {
      SendableIff(frames[1..], limit);
      assert forall i :: 0 < i < |frames| ==> frames[i] == frames[1..][i - 1];
    }
  }

  /** A session that hands out exactly these frames. */
  predicate Complete(outcomes: seq<ReadOutcome>, frames: seq<Frame>, ended: bool)
  {
    outcomes != [] && FramesOf(outcomes) == frames && outcomes[|outcomes| - 1] == if ended then Closed else Cancelled
  }

  /** A session that hands out the first of these frames and no others. */
  predicate CutShort(outcomes: seq<ReadOutcome>, frames: seq<Frame>, ended: bool)
  {
    && outcomes != [] && FramesOf(outcomes) <= frames
    && outcomes[|outcomes| - 1] in if ended then {Closed, ProtocolFailure(Truncated)} else {Cancelled}
  }

  /** However these bytes are cut up and interrupted, a reader hands out exactly these frames. */
  ghost predicate Arrives(wire: seq<Byte>, frames: seq<Frame>, limit: U64)
  {
    forall events :: Delivered(events) == wire ==> Complete(Session([], events, limit), frames, Ends(events))
  }

  /** However these bytes are cut up and interrupted, a reader hands out the first of these frames. */
  ghost predicate ArrivesInPart(wire: seq<Byte>, frames: seq<Frame>, limit: U64)
  {
    forall events :: Delivered(events) == wire ==> CutShort(Session([], events, limit), frames, Ends(events))
  }

  lemma FollowsWhole(outcomes: seq<ReadOutcome>, stream: seq<Byte>, ended: bool, limit: U64, frames: seq<Frame>)
    requires Follows(outcomes, stream, ended, limit) && DecodeAll(stream, limit) == Decoded(frames, [], Truncated)
    ensures Complete(outcomes, frames, ended)
  {
  }

  lemma FollowsPart(outcomes: seq<ReadOutcome>, stream: seq<Byte>, ended: bool, limit: U64, frames: seq<Frame>)
    requires Follows(outcomes, stream, ended, limit) && StopsShort(stream, frames, limit)
    ensures CutShort(outcomes, frames, ended)
  {
  }

  lemma WholeArrives(frames: seq<Frame>, limit: U64)
    requires Sendable(frames, limit)
    ensures Arrives(EncodeAll(frames), frames, limit)
  {
    var wire := EncodeAll(frames);
    NothingYet(limit);
    DecodesWhatWasEncoded(frames, limit, []);
    All(wire);
    forall events | Delivered(events) == wire
      ensures Complete(Session([], events, limit), frames, Ends(events))
    {
      SessionFollowsStream([], events, limit);
      assert [] + wire == wire;
      FollowsWhole(Session([], events, limit), wire, Ends(events), limit, frames);
    }
  }

  lemma PartArrives(frames: seq<Frame>, limit: U64, wire: seq<Byte>)
    requires Sendable(frames, limit) && wire <= EncodeAll(frames)
    ensures ArrivesInPart(wire, frames, limit)
  {
    PrefixDecodes(frames, limit, wire);
    forall events | Delivered(events) == wire
      ensures CutShort(Session([], events, limit), frames, Ends(events))
    {
      SessionFollowsStream([], events, limit);
      assert [] + wire == wire;
      FollowsPart(Session([], events, limit), wire, Ends(events), limit, frames);
    }
  }

  /**
   End to end: frames within the limit, sent singly or in batches over a writer that takes arbitrary
   partial amounts, are read back as the same sequence under every chunking and interruption; and when
   the writer gives up, a prefix of them is, with nothing garbled behind it.
   */
  method EndToEnd(w: Writer, sends: seq<Send>, ghost limit: U64) returns (r: Result<(), WriteFailure>)
    requires w.wire == [] && AllWellFormed(AllSent(sends)) && AllWithin(AllSent(sends), limit)
    modifies w
    ensures r.Ok? ==> Arrives(w.wire, AllSent(sends), limit)
    ensures ArrivesInPart(w.wire, AllSent(sends), limit)
    ensures (forall n: nat :: AlwaysProgresses(w.answer(n))) ==> r.Ok?
  {
    ghost var frames := AllSent(sends);
    SendableIff(frames, limit);
    r := SendAll(w, sends);
    ghost var n :| 0 <= n <= |EncodeAll(frames)| && w.wire == [] + EncodeAll(frames)[..n];
    PartArrives(frames, limit, w.wire);
    WholeArrives(frames, limit);
    assert [] + EncodeAll(frames) == EncodeAll(frames) && [] + EncodeAll(frames)[..n] == EncodeAll(frames)[..n];
  }
}
