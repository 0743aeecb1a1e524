/**
 The keystream wrapper around a byte stream (crates/uk-mask/src/stream.rs).

 ChaCha20 is an arbitrary keystream: the byte it produces at each position. The inner stream is
 arbitrary too: it accepts all, some or none of what it is offered, fails, or is not ready.
 */
module MaskedStream {
  import Bits
  import Bytes

  type Keystream = nat -> bv8

  /** What the cipher's 32-bit block counter can produce, and the wrapper's cap below it. */
  const KEYSTREAM_LEN: nat := 0x40_0000_0000
  const STREAM_LIMIT: nat := KEYSTREAM_LEN - 64
  const MAX_WRITE_CHUNK: nat := 64 * 1024

  /** `text` with the keystream from `pos` on applied to it; the same operation masks and unmasks. */
  function Mask(ks: Keystream, pos: nat, text: seq<bv8>): (masked: seq<bv8>)
    ensures |masked| == |text|
  {
    seq(|text|, i requires 0 <= i < |text| => text[i] ^ ks(pos + i))
  }

  lemma Unmasks(ks: Keystream, pos: nat, text: seq<bv8>)
    ensures Mask(ks, pos, Mask(ks, pos, text)) == text
  {
    forall i | 0 <= i < |text|
      ensures Mask(ks, pos, Mask(ks, pos, text))[i] == text[i]
    {
      Bits.XorCancels(text[i], ks(pos + i));
    }
  }

  lemma MaskJoins(ks: Keystream, pos: nat, a: seq<bv8>, b: seq<bv8>)
    ensures Mask(ks, pos, a + b) == Mask(ks, pos, a) + Mask(ks, pos + |a|, b)
  {
  }

  lemma MaskPrefix(ks: Keystream, pos: nat, text: seq<bv8>, n: nat)
    requires n <= |text|
    ensures Mask(ks, pos, text)[..n] == Mask(ks, pos, text[..n])
  {
  }

  // ---------------------------------------------------------------------------------------------
  // What a poll comes to, from the confirmed offset alone.
  // ---------------------------------------------------------------------------------------------

  datatype InnerWrite = Wrote(count: nat) | InnerFailed | NotReady

  datatype InnerRead = Read(bytes: seq<bv8>) | ReadFailed | ReadNotReady

  datatype Poll = Ready(count: nat) | StreamLimitExceeded | WriteZero | Failed | Pending

  function Offered(buf: seq<bv8>): (n: nat)
    ensures n <= |buf|
  {
    if |buf| < MAX_WRITE_CHUNK then |buf| else MAX_WRITE_CHUNK
  }

  /** An inner stream never claims more than it was offered. */
  predicate Honest(buf: seq<bv8>, inner: InnerWrite)
  {
    inner.Wrote? ==> inner.count <= Offered(buf)
  }

  function WriteOutcome(offset: nat, buf: seq<bv8>, inner: InnerWrite): (p: Poll)
  {
    if buf == [] then Ready(0)
    else if offset + Offered(buf) > STREAM_LIMIT then StreamLimitExceeded
    else match inner
      case Wrote(n) => if n == 0 then WriteZero else Ready(n)
      case InnerFailed => Failed
      case NotReady => Pending
  }

  /** What each outcome of a write poll says about the inner stream and the offer of at most 64 KiB. */
  lemma WriteOutcomeMeans(offset: nat, buf: seq<bv8>, inner: InnerWrite)
    requires buf != []
    ensures var p := WriteOutcome(offset, buf, inner);
      var fits := offset + (if |buf| < 65_536 then |buf| else 65_536) <= 274_877_906_880;
      && (p == StreamLimitExceeded <==> !fits)
      && (p == Pending <==> fits && inner == NotReady)
      && (p == Failed <==> fits && inner == InnerFailed)
      && (p == WriteZero <==> fits && inner == Wrote(0))
      && forall n: nat :: p == Ready(n) <==> fits && n > 0 && inner == Wrote(n)
  {
  }

  /** What a read poll comes to, and how many bytes it unmasks. */
  function ReadOutcome(offset: nat, inner: InnerRead): (p: Poll)
  {
    match inner
    case ReadFailed => Failed
    case ReadNotReady => Pending
    case Read(bytes) => if bytes != [] && offset + |bytes| > STREAM_LIMIT then StreamLimitExceeded else Ready(|bytes|)
  }

  /** What each outcome of a read poll says about the inner stream. */
  lemma ReadOutcomeMeans(offset: nat, inner: InnerRead)
    ensures var p := ReadOutcome(offset, inner);
      && (p == Pending <==> inner == ReadNotReady)
      && (p == Failed <==> inner == ReadFailed)
      && (p == StreamLimitExceeded <==> inner.Read? && inner.bytes != [] && offset + |inner.bytes| > 274_877_906_880)
      && p != WriteZero
      && (p.Ready? <==> inner.Read? && (inner.bytes == [] || offset + |inner.bytes| <= 274_877_906_880))
      && (p.Ready? ==> p.count == |inner.bytes|)
  {
  }

  /** The plaintext a poll moves for good: the prefix it reports, and nothing on any other outcome. */
  function Taken(offset: nat, buf: seq<bv8>, inner: InnerWrite): (text: seq<bv8>)
    requires Honest(buf, inner)
    ensures offset <= STREAM_LIMIT ==> offset + |text| <= STREAM_LIMIT
  {
    match WriteOutcome(offset, buf, inner) case Ready(n) => buf[..n] case _ => []
  }

  // ---------------------------------------------------------------------------------------------
  // Whole runs.
  // ---------------------------------------------------------------------------------------------

  datatype AnyCall = Call(buf: seq<bv8>, inner: InnerWrite)

  /** One poll: the plaintext submitted and how an honest inner stream takes it. */
  type WriteCall = c: AnyCall | Honest(c.buf, c.inner) witness Call([], NotReady)

  /** What each poll of a run takes, every poll starting at the offset the last one confirmed. */
  function Pieces(offset: nat, calls: seq<WriteCall>): (pieces: seq<seq<bv8>>)
    decreases |calls|
  {
    if calls == [] then []
    else
      var text := Taken(offset, calls[0].buf, calls[0].inner);
      [text] + Pieces(offset + |text|, calls[1..])
  }

  function Joined(pieces: seq<seq<bv8>>): (all: seq<bv8>)
  {
    if pieces == [] then [] else pieces[0] + Joined(pieces[1..])
  }

  /** Each piece under the keystream, from where the piece before it stopped. */
  function Applied(ks: Keystream, offset: nat, pieces: seq<seq<bv8>>): (text: seq<bv8>)
    decreases |pieces|
  {
    if pieces == [] then []
    else Mask(ks, offset, pieces[0]) + Applied(ks, offset + |pieces[0]|, pieces[1..])
  }

  /** However a text is cut, working piece by piece is working on the whole. */
  lemma {:induction false} CuttingIsInvisible(ks: Keystream, offset: nat, pieces: seq<seq<bv8>>)
    ensures Applied(ks, offset, pieces) == Mask(ks, offset, Joined(pieces))
    decreases |pieces|
  {
    if pieces != [] {
      CuttingIsInvisible(ks, offset + |pieces[0]|, pieces[1..]);
      MaskJoins(ks, offset, pieces[0], Joined(pieces[1..]));
    }
  }

  /** The plaintext a run of polls delivers, and the bytes the inner stream accepts for it. */
  function Delivered(offset: nat, calls: seq<WriteCall>): (text: seq<bv8>)
  {
    Joined(Pieces(offset, calls))
  }

  function OnWire(ks: Keystream, offset: nat, calls: seq<WriteCall>): (wire: seq<bv8>)
  {
    Applied(ks, offset, Pieces(offset, calls))
  }

  /** No run gets past the stream limit. */
  lemma {:induction false} DeliveredFits(offset: nat, calls: seq<WriteCall>)
    requires offset <= STREAM_LIMIT
    ensures offset + |Delivered(offset, calls)| <= STREAM_LIMIT
    decreases |calls|
  {
    if calls != [] {
      var text := Taken(offset, calls[0].buf, calls[0].inner);
      DeliveredFits(offset + |text|, calls[1..]);
      JoinedFirst(text, Pieces(offset + |text|, calls[1..]));
    }
  }

  lemma JoinedFirst(first: seq<bv8>, others: seq<seq<bv8>>)
    ensures Joined([first] + others) == first + Joined(others)
  {
    assert ([first] + others)[1..] == others;
  }

  /**
   Whatever was short, refused, pending or resubmitted on the way out, and however the bytes are cut
   on the way in, the peer reads exactly the plaintext the writer reported as written.
   */
  lemma PeerReadsWhatWasWritten(ks: Keystream, calls: seq<WriteCall>, pieces: seq<seq<bv8>>)
    requires Joined(pieces) == OnWire(ks, 0, calls)
    ensures Applied(ks, 0, pieces) == Delivered(0, calls)
    ensures |Joined(pieces)| <= STREAM_LIMIT
  {
    CuttingIsInvisible(ks, 0, Pieces(0, calls));
    DeliveredFits(0, calls);
    CuttingIsInvisible(ks, 0, pieces);
    Unmasks(ks, 0, Delivered(0, calls));
  }

  // ---------------------------------------------------------------------------------------------
  // The stream as the carrier holds it.
  // ---------------------------------------------------------------------------------------------

  /** A seekable cipher: the keystream and where it stands. */
  class Cipher {
    const ks: Keystream
    var position: nat

    constructor (ks: Keystream)
      ensures this.ks == ks && position == 0
    {
      this.ks, position := ks, 0;
    }

    /** Masks `data` and moves on, unless the keystream would run out. */
    method TryApply(data: seq<bv8>) returns (masked: seq<bv8>, ok: bool)
      modifies this
      ensures ok <==> old(position) + |data| <= KEYSTREAM_LEN
      ensures ok ==> masked == Mask(ks, old(position), data) && position == old(position) + |data|
      ensures !ok ==> masked == data && position == old(position)
    {
      if position + |data| > KEYSTREAM_LEN {
        return data, false;
      }
      masked, ok := Mask(ks, position, data), true;
      position := position + |data|;
    }

    method TrySeek(target: nat) returns (ok: bool)
      modifies this
      ensures ok <==> target <= KEYSTREAM_LEN
      ensures position == if ok then target else old(position)
    {
      ok := target <= KEYSTREAM_LEN;
      if ok {
        position := target;
      }
    }
  }

  class MaskedStream {
    const read: Cipher
    const write: Cipher
    var readOffset: nat
    var writeOffset: nat
    ghost var plain: seq<bv8>  // plaintext reported as written
    ghost var wire: seq<bv8>   // bytes the inner stream accepted

    /** Between calls the ciphers stand at the confirmed offsets, and the wire is the masked plaintext. */
    ghost predicate Valid()
      reads this, read, write
    {
      && read != write
      && read.position == readOffset <= STREAM_LIMIT
      && write.position == writeOffset == |plain| <= STREAM_LIMIT
      && wire == Mask(write.ks, 0, plain)
    }

    constructor (writeKey: Keystream, readKey: Keystream)
      ensures Valid() && plain == [] && readOffset == 0 && fresh(read) && fresh(write)
      ensures write.ks == writeKey && read.ks == readKey
    {
      read := new Cipher(readKey);
      write := new Cipher(writeKey);
      readOffset, writeOffset, plain, wire := 0, 0, [], [];
    }

    /** One write poll: encrypt, offer, and rewind to the bytes actually accepted. */
    method PollWrite(buf: seq<bv8>, inner: InnerWrite) returns (r: Poll)
      requires Valid() && Honest(buf, inner)
      modifies this, write
      ensures Valid() && readOffset == old(readOffset)
      ensures r == WriteOutcome(old(writeOffset), buf, inner)
      ensures plain == old(plain) + Taken(old(writeOffset), buf, inner)
    {
      if buf == [] {
        return Ready(0);
      }
      var take := Offered(buf);
      if writeOffset + take > STREAM_LIMIT {
        return StreamLimitExceeded;
      }
      var scratch, ok := write.TryApply(buf[..take]);
      if !ok {
        return StreamLimitExceeded;
      }
      match inner
      case Wrote(written) =>
        if written == take {
          Accept(scratch, buf, take, written);
          writeOffset := writeOffset + take;
          return Ready(take);
        }
        if written == 0 {
          var sought := write.TrySeek(writeOffset);
          assert sought;
          return WriteZero;
        }
        Accept(scratch, buf, take, written);
        writeOffset := writeOffset + written;
        var sought := write.TrySeek(writeOffset);
        assert sought;
        return Ready(written);
      case InnerFailed =>
        var sought := write.TrySeek(writeOffset);
        assert sought;
        return Failed;
      case NotReady =>
        var sought := write.TrySeek(writeOffset);
        assert sought;
        return Pending;
    }

    /** The inner stream keeps the first `written` bytes of what it was offered. */
    ghost method Accept(scratch: seq<bv8>, buf: seq<bv8>, take: nat, written: nat)
      requires written <= take <= |buf|
      requires scratch == Mask(write.ks, |plain|, buf[..take]) && wire == Mask(write.ks, 0, plain)
      modifies this`plain, this`wire
      ensures plain == old(plain) + buf[..written]
      ensures wire == old(wire) + scratch[..written]
      ensures wire == Mask(write.ks, 0, plain)
    {
      MaskPrefix(write.ks, |plain|, buf[..take], written);
      assert buf[..take][..written] == buf[..written];
      MaskJoins(write.ks, 0, plain, buf[..written]);
      plain, wire := plain + buf[..written], wire + scratch[..written];
    }

    /** One read poll: whatever arrived is unmasked in place behind what the buffer already held. */
    method PollRead(filled: seq<bv8>, inner: InnerRead) returns (filled': seq<bv8>, r: Poll)
      requires Valid()
      modifies this`readOffset, read
      ensures Valid() && r == ReadOutcome(old(readOffset), inner)
      ensures r.Ready? ==>
        filled' == filled + Mask(read.ks, old(readOffset), inner.bytes) && readOffset == old(readOffset) + |inner.bytes|
      ensures !r.Ready? ==> readOffset == old(readOffset) && filled' == filled + if inner.Read? then inner.bytes else []
    {
      match inner
      case ReadFailed =>
        return filled + [], Failed;
      case ReadNotReady =>
        return filled + [], Pending;
      case Read(bytes) =>
        filled' := filled + bytes;
        if bytes == [] {
          return filled', Ready(0);
        }
        if readOffset + |bytes| > STREAM_LIMIT {
          return filled', StreamLimitExceeded;
        }
        var masked, ok := read.TryApply(bytes);
        assert ok;
        readOffset := readOffset + |bytes|;
        return filled + masked, Ready(|bytes|);
    }
  }

  // ---------------------------------------------------------------------------------------------
  // Runs over two streams.
  // ---------------------------------------------------------------------------------------------

  lemma DeliveredFirst(offset: nat, calls: seq<WriteCall>)
    requires calls != []
    ensures var text := Taken(offset, calls[0].buf, calls[0].inner);
      Delivered(offset, calls) == text + Delivered(offset + |text|, calls[1..])
  {
    var text := Taken(offset, calls[0].buf, calls[0].inner);
    JoinedFirst(text, Pieces(offset + |text|, calls[1..]));
  }

  lemma RunStep(plain: seq<bv8>, calls: seq<WriteCall>, i: nat)
    requires i < |calls|
    ensures var next := plain + Taken(|plain|, calls[i].buf, calls[i].inner);
      plain + Delivered(|plain|, calls[i..]) == next + Delivered(|next|, calls[i + 1..])
  {
    var text := Taken(|plain|, calls[i].buf, calls[i].inner);
    DeliveredFirst(|plain|, calls[i..]);
    assert calls[i..][1..] == calls[i + 1..];
    Bytes.Associates(plain, text, Delivered(|plain| + |text|, calls[i + 1..]));
  }

  /** Polls a fresh stream through a whole run of writes: what it reports is what the run delivers. */
  method WriteRun(s: MaskedStream, calls: seq<WriteCall>)
    requires s.Valid() && s.plain == []
    modifies s, s.write
    ensures s.Valid() && s.plain == Delivered(0, calls) && s.wire == OnWire(s.write.ks, 0, calls)
    ensures |s.wire| == |s.plain| && forall i :: 0 <= i < |s.wire| ==> s.wire[i] == s.plain[i] ^ s.write.ks(i)
    ensures s.readOffset == old(s.readOffset)
  {
    ghost var whole := Delivered(0, calls);
    assert calls[0..] == calls && [] + whole == whole;
    for i := 0 to |calls|
      invariant s.Valid() && s.readOffset == old(s.readOffset)
      invariant s.plain + Delivered(|s.plain|, calls[i..]) == whole
    {
      RunStep(s.plain, calls, i);
      var _ := s.PollWrite(calls[i].buf, calls[i].inner);
    }
    assert s.plain + [] == s.plain;
    CuttingIsInvisible(s.write.ks, 0, Pieces(0, calls));
  }

  /** The bytes an inner read hands over. */
  function BytesOf(arrival: InnerRead): (bytes: seq<bv8>)
  {
    match arrival case Read(bytes) => bytes case _ => []
  }

  /** The bytes a run of inner reads hands over. */
  function Arrived(arrivals: seq<InnerRead>): (bytes: seq<bv8>)
  {
    if arrivals == [] then [] else Arrived(arrivals[..|arrivals| - 1]) + BytesOf(arrivals[|arrivals| - 1])
  }

  lemma {:induction false} ArrivedSoFar(arrivals: seq<InnerRead>, i: nat)
    requires i <= |arrivals|
    ensures Arrived(arrivals[..i]) <= Arrived(arrivals)
    ensures i < |arrivals| ==> Arrived(arrivals[..i + 1]) == Arrived(arrivals[..i]) + BytesOf(arrivals[i])
    decreases |arrivals| - i
  {
    if i < |arrivals| {
      assert arrivals[..i + 1][..i] == arrivals[..i];
      ArrivedSoFar(arrivals, i + 1);
    } else {
      assert arrivals[..i] == arrivals;
    }
  }

  /** One poll of a reader that stays within the stream limit: a failure or a wait reads nothing. */
  method ReadOne(peer: MaskedStream, text: seq<bv8>, arrival: InnerRead) returns (text': seq<bv8>)
    requires peer.Valid() && peer.readOffset + |BytesOf(arrival)| <= STREAM_LIMIT
    modifies peer`readOffset, peer.read
    ensures peer.Valid() && peer.readOffset == old(peer.readOffset) + |BytesOf(arrival)|
    ensures text' == text + Mask(peer.read.ks, old(peer.readOffset), BytesOf(arrival))
  {
    var r;
    text', r := peer.PollRead(text, arrival);
  }

  /**
   The peer polls its own stream while any first part of the sender's wire arrives, in any pieces and with
   any failures and waits between: it reads that much of the plaintext the sender reported as written.
   */
  method ReadRun(peer: MaskedStream, arrivals: seq<InnerRead>, ghost sender: MaskedStream) returns (text: seq<bv8>)
    requires peer.Valid() && peer.readOffset == 0 && sender.Valid() && sender.write.ks == peer.read.ks
    requires Arrived(arrivals) <= sender.wire
    modifies peer`readOffset, peer.read
    ensures peer.Valid() && |text| == |Arrived(arrivals)| && text <= old(sender.plain)
    ensures Arrived(arrivals) == old(sender.wire) ==> text == old(sender.plain)
  {
    ghost var ks, plain := peer.read.ks, sender.plain;
    text := [];
    for i := 0 to |arrivals|
      invariant peer.Valid() && peer.readOffset == |text|
      invariant text == Mask(ks, 0, Arrived(arrivals[..i]))
    {
      ArrivedSoFar(arrivals, i);
      ArrivedSoFar(arrivals, i + 1);
      MaskJoins(ks, 0, Arrived(arrivals[..i]), BytesOf(arrivals[i]));
      text := ReadOne(peer, text, arrivals[i]);
    }
    assert arrivals[..|arrivals|] == arrivals;
    PartUnmasks(ks, plain, Arrived(arrivals));
  }

  lemma PartUnmasks(ks: Keystream, plain: seq<bv8>, part: seq<bv8>)
    requires part <= Mask(ks, 0, plain)
    ensures Mask(ks, 0, part) == plain[..|part|]
  {
    MaskPrefix(ks, 0, plain, |part|);
    Unmasks(ks, 0, plain[..|part|]);
  }

  lemma DeliveredThen(offset: nat, call: WriteCall, later: seq<WriteCall>)
    ensures var text := Taken(offset, call.buf, call.inner);
      Delivered(offset, [call] + later) == text + Delivered(offset + |text|, later)
  {
    assert ([call] + later)[1..] == later;
    DeliveredFirst(offset, [call] + later);
  }

  /** Submitting what is left again and again to a stream that takes `1 + taker(n)` bytes of offer `n`, or all of it. */
  function Resubmitted(text: seq<bv8>, taker: nat -> nat, n: nat): (calls: seq<WriteCall>)
    decreases |text|
  {
    if text == [] then []
    else
      var take := Take(text, taker(n));
      [Call(text, Wrote(take))] + Resubmitted(text[take..], taker, n + 1)
  }

  function Take(text: seq<bv8>, more: nat): (n: nat)
    requires text != []
    ensures 0 < n <= Offered(text)
  {
    if 1 + more < Offered(text) then 1 + more else Offered(text)
  }

  /** An inner stream that always takes something gets the whole text, however little it takes each time. */
  lemma {:induction false} ResubmissionDelivers(offset: nat, text: seq<bv8>, taker: nat -> nat, n: nat)
    requires offset + |text| <= STREAM_LIMIT
    ensures Delivered(offset, Resubmitted(text, taker, n)) == text
    decreases |text|
  {
    if text != [] {
      var take := Take(text, taker(n));
      var later := Resubmitted(text[take..], taker, n + 1);
      DeliveredThen(offset, Call(text, Wrote(take)), later);
      ResubmissionDelivers(offset + take, text[take..], taker, n + 1);
      assert text == text[..take] + text[take..];
    }
  }
}
