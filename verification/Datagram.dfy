/**
 Masked QUIC datagrams (crates/uk-mask/src/udp.rs): every segment on the wire is a nonce followed by
 the segment under the keystream for that nonce. Nonces and keystreams are arbitrary.
 */
module Datagram {
  import opened Bytes
  import opened MaskedStream
  import opened Protocol

  const NONCE_LEN := 12
  const UDP_SEGMENT_OVERHEAD := NONCE_LEN

  type Nonce = s: seq<bv8> | |s| == NONCE_LEN witness [0, 0, 0, 0, 0, 0, 0, 0, 0, 0, 0, 0]

  /** The keystream each nonce selects under one direction's key. */
  type Cipher = seq<bv8> -> Keystream

  // ---------------------------------------------------------------------------------------------
  // Cutting a buffer into segments.
  // ---------------------------------------------------------------------------------------------

  /** `slice::chunks`: pieces of `size`, the last one possibly shorter. */
  function Chunks(s: seq<bv8>, size: nat): (pieces: seq<seq<bv8>>)
    requires size > 0
    decreases |s|
  {
    if s == [] then []
    else if |s| <= size then [s]
    else [s[..size]] + Chunks(s[size..], size)
  }

  /** Every piece but the last is exactly `size` long; the last is no longer and not empty. */
  predicate Regular(pieces: seq<seq<bv8>>, size: nat)
  {
    if pieces == [] then true
    else if |pieces| == 1 then 0 < |pieces[0]| <= size
    else |pieces[0]| == size && Regular(pieces[1..], size)
  }

  lemma {:induction false} ChunksAreRegular(s: seq<bv8>, size: nat)
    requires size > 0
    ensures Regular(Chunks(s, size), size) && Joined(Chunks(s, size)) == s
    decreases |s|
  {
    if |s| > size {
      var rest := Chunks(s[size..], size);
      ChunksAreRegular(s[size..], size);
      assert Chunks(s, size)[1..] == rest;
      Splits(s, size);
    } else if s != [] {
      assert Joined([s]) == s + Joined([]);
    }
  }

  /** Regular pieces are what cutting their concatenation gives back. */
  lemma {:induction false} CuttingRestores(pieces: seq<seq<bv8>>, size: nat)
    requires size > 0 && Regular(pieces, size)
    ensures Chunks(Joined(pieces), size) == pieces
    ensures pieces != [] ==> Joined(pieces) != []
    decreases |pieces|
  {
    if |pieces| == 1 {
      assert pieces == [pieces[0]];
      assert Joined(pieces) == pieces[0] + Joined([]);
      assert pieces[0] + [] == pieces[0];
    } else if |pieces| > 1 {
      CuttingRestores(pieces[1..], size);
      Parts(pieces[0], Joined(pieces[1..]));
      assert pieces == [pieces[0]] + pieces[1..];
    }
  }

  // ---------------------------------------------------------------------------------------------
  // Sending.
  // ---------------------------------------------------------------------------------------------

  function MaskSegment(cipher: Cipher, plain: seq<bv8>, nonce: Nonce): (wire: seq<bv8>)
    ensures |wire| == NONCE_LEN + |plain|
  {
    nonce + Mask(cipher(nonce), 0, plain)
  }

  /** The wire segments of a batch, each under the next nonce. */
  function MaskSegments(cipher: Cipher, pieces: seq<seq<bv8>>, nonces: nat -> Nonce, n: nat): (wires: seq<seq<bv8>>)
    ensures |wires| == |pieces|
    decreases |pieces|
  {
    if pieces == [] then []
    else [MaskSegment(cipher, pieces[0], nonces(n))] + MaskSegments(cipher, pieces[1..], nonces, n + 1)
  }

  datatype Transmit = Transmit(contents: seq<bv8>, segmentSize: Option<nat>) | ZeroSegmentSize

  lemma {:induction false} JoinedAppend(pieces: seq<seq<bv8>>, last: seq<bv8>)
    ensures Joined(pieces + [last]) == Joined(pieces) + last
  {
    if pieces == [] {
      assert pieces + [last] == [last];
      assert Joined([last]) == last + Joined([]);
    } else {
      assert (pieces + [last])[1..] == pieces[1..] + [last];
      JoinedAppend(pieces[1..], last);
      Associates(pieces[0], Joined(pieces[1..]), last);
    }
  }

  /** Masks a lone datagram, or each segment of a GSO batch in turn, widening the segment size by the nonce. */
  method TrySend(cipher: Cipher, contents: seq<bv8>, segmentSize: Option<nat>, nonces: nat -> Nonce) returns (t: Transmit)
    ensures match segmentSize
      case None => t == Transmit(MaskSegment(cipher, contents, nonces(0)), None)
      case Some(0) => t == ZeroSegmentSize
      case Some(size) =>
        t == Transmit(Joined(MaskSegments(cipher, Chunks(contents, size), nonces, 0)), Some(size + UDP_SEGMENT_OVERHEAD))
  {
    if segmentSize == None {
      return Transmit(MaskSegment(cipher, contents, nonces(0)), None);
    }
    if segmentSize.value == 0 {
      return ZeroSegmentSize;
    }
    var segments := Chunks(contents, segmentSize.value);
    ghost var all := MaskSegments(cipher, segments, nonces, 0);
    var scratch: seq<bv8> := [];
    for i := 0 to |segments|
      invariant scratch == Joined(all[..i])
    {
      var masked := MaskSegment(cipher, segments[i], nonces(i));
      MaskSegmentAt(cipher, segments, nonces, 0, i);
      assert all[..i + 1] == all[..i] + [all[i]];
      JoinedAppend(all[..i], all[i]);
      scratch := scratch + masked;
    }
    assert all[..|segments|] == all;
    t := Transmit(scratch, Some(segmentSize.value + UDP_SEGMENT_OVERHEAD));
  }

  lemma {:induction false} MaskSegmentAt(cipher: Cipher, pieces: seq<seq<bv8>>, nonces: nat -> Nonce, n: nat, i: nat)
    requires i < |pieces|
    ensures MaskSegments(cipher, pieces, nonces, n)[i] == MaskSegment(cipher, pieces[i], nonces(n + i))
    decreases |pieces|
  {
    if i > 0 {
      MaskSegmentAt(cipher, pieces[1..], nonces, n + 1, i - 1);
    }
  }

  // ---------------------------------------------------------------------------------------------
  // Receiving.
  // ---------------------------------------------------------------------------------------------

  /** The plaintext of a wire segment; none when it is too short to carry anything behind a nonce. */
  function UnmaskSegment(cipher: Cipher, wire: seq<bv8>): (plain: seq<bv8>)
    ensures |plain| == if |wire| <= NONCE_LEN then 0 else |wire| - NONCE_LEN
  {
    if |wire| <= NONCE_LEN then [] else Mask(cipher(wire[..NONCE_LEN]), 0, wire[NONCE_LEN..])
  }

  /** The ingress filter: short headers pass, long headers need a supported version. */
  predicate SupportedQuicPacket(packet: seq<bv8>, versions: set<bv32>)
  {
    if packet == [] then false
    else if packet[0] & 0x80 == 0 then true
    else if |packet| < 5 then false
    else Version(packet[1], packet[2], packet[3], packet[4]) in versions
  }

  function Version(a: bv8, b: bv8, c: bv8, d: bv8): (v: bv32)
  {
    (a as bv32 << 24) | (b as bv32 << 16) | (c as bv32 << 8) | (d as bv32)
  }

  /** What a socket does with incoming segments: a server filters, a client takes them all. */
  datatype Role = Client | Server(filter: seq<bv8> -> bool)

  /** The filter servers have: QUIC packets of these versions. Delivery below holds for any filter. */
  function QuicServer(versions: set<bv32>): (role: Role)
  {
    Server((packet: seq<bv8>) => SupportedQuicPacket(packet, versions))
  }

  predicate Passes(role: Role, plain: seq<bv8>)
  {
    plain != [] && (role.Server? ==> role.filter(plain))
  }

  /** The unmasked segments that survive, in order. */
  function Survivors(cipher: Cipher, role: Role, wires: seq<seq<bv8>>): (plains: seq<seq<bv8>>)
  {
    if wires == [] then []
    else
      var plain := UnmaskSegment(cipher, wires[0]);
      (if Passes(role, plain) then [plain] else []) + Survivors(cipher, role, wires[1..])
  }

  lemma {:induction false} SurvivorsAreRegular(cipher: Cipher, role: Role, wires: seq<seq<bv8>>, stride: nat)
    requires stride > UDP_SEGMENT_OVERHEAD && Regular(wires, stride)
    ensures Regular(Survivors(cipher, role, wires), stride - UDP_SEGMENT_OVERHEAD)
    decreases |wires|
  {
    if wires != [] {
      var rest := Survivors(cipher, role, wires[1..]);
      SurvivorsAreRegular(cipher, role, wires[1..], stride);
      var plain := UnmaskSegment(cipher, wires[0]);
      assert ([plain] + rest)[1..] == rest;
      assert [] + rest == rest;
    }
  }

  /** The stride handed to the caller with `decoded` bytes. */
  function DeliveredStride(stride: nat, decoded: nat): (s: nat)
  {
    if stride <= UDP_SEGMENT_OVERHEAD then 0
    else if stride - UDP_SEGMENT_OVERHEAD < decoded then stride - UDP_SEGMENT_OVERHEAD
    else decoded
  }

  /**
   However many segments were dropped, and whichever, cutting the delivered bytes by the delivered
   stride yields exactly the surviving plaintext segments in order.
   */
  lemma DeliveryCutsBack(cipher: Cipher, role: Role, wire: seq<bv8>, stride: nat)
    requires stride > UDP_SEGMENT_OVERHEAD
    ensures var plains := Survivors(cipher, role, Chunks(wire, stride));
      var decoded := Joined(plains);
      decoded != [] ==> Chunks(decoded, DeliveredStride(stride, |decoded|)) == plains
    ensures Joined(Survivors(cipher, role, Chunks(wire, stride))) == [] <==> Survivors(cipher, role, Chunks(wire, stride)) == []
  {
    var wires := Chunks(wire, stride);
    ChunksAreRegular(wire, stride);
    SurvivorsAreRegular(cipher, role, wires, stride);
    var plains, size := Survivors(cipher, role, wires), stride - UDP_SEGMENT_OVERHEAD;
    CuttingRestores(plains, size);
    if plains != [] && |Joined(plains)| < size {
      ShortMeansSingle(plains, size);
    }
  }

  lemma ShortMeansSingle(pieces: seq<seq<bv8>>, size: nat)
    requires Regular(pieces, size) && pieces != [] && |Joined(pieces)| < size
    ensures pieces == [Joined(pieces)] && Chunks(Joined(pieces), |Joined(pieces)|) == pieces
  {
    assert Joined(pieces) == pieces[0] + Joined(pieces[1..]);
    assert pieces == [pieces[0]];
    assert pieces[0] + [] == pieces[0];
  }

  // ---------------------------------------------------------------------------------------------
  // From one end to the other.
  // ---------------------------------------------------------------------------------------------

  lemma {:induction false} MaskedAreRegular(cipher: Cipher, pieces: seq<seq<bv8>>, nonces: nat -> Nonce, n: nat, size: nat)
    requires Regular(pieces, size)
    ensures Regular(MaskSegments(cipher, pieces, nonces, n), size + UDP_SEGMENT_OVERHEAD)
    decreases |pieces|
  {
    if pieces != [] {
      var rest := MaskSegments(cipher, pieces[1..], nonces, n + 1);
      MaskedAreRegular(cipher, pieces[1..], nonces, n + 1, size);
      assert MaskSegments(cipher, pieces, nonces, n)[1..] == rest;
    }
  }

  lemma UnmaskMasked(cipher: Cipher, plain: seq<bv8>, nonce: Nonce)
    ensures UnmaskSegment(cipher, MaskSegment(cipher, plain, nonce)) == plain
  {
    Parts(nonce, Mask(cipher(nonce), 0, plain));
    Unmasks(cipher(nonce), 0, plain);
  }

  /** The segments a role accepts out of a batch. */
  function Passing(role: Role, pieces: seq<seq<bv8>>): (kept: seq<seq<bv8>>)
  {
    if pieces == [] then []
    else (if Passes(role, pieces[0]) then [pieces[0]] else []) + Passing(role, pieces[1..])
  }

  lemma {:induction false} SurvivorsOfMasked(
      cipher: Cipher, role: Role, pieces: seq<seq<bv8>>, nonces: nat -> Nonce, n: nat)
    ensures Survivors(cipher, role, MaskSegments(cipher, pieces, nonces, n)) == Passing(role, pieces)
    decreases |pieces|
  {
    if pieces != [] {
      var wires := MaskSegments(cipher, pieces, nonces, n);
      assert wires[1..] == MaskSegments(cipher, pieces[1..], nonces, n + 1);
      UnmaskMasked(cipher, pieces[0], nonces(n));
      SurvivorsOfMasked(cipher, role, pieces[1..], nonces, n + 1);
    }
  }

  lemma {:induction false} ClientKeepsAll(pieces: seq<seq<bv8>>, size: nat)
    requires Regular(pieces, size) && size > 0
    ensures Passing(Client, pieces) == pieces
    decreases |pieces|
  {
    if pieces != [] {
      ClientKeepsAll(pieces[1..], size);
      assert pieces == [pieces[0]] + pieces[1..];
    }
  }

  /**
   A GSO transmit arrives segment for segment: the receiver, cutting the wire by the widened segment
   size, recovers the contents' own segments, less those its role refuses; a client recovers the contents.
   */
  lemma TransmitArrives(cipher: Cipher, role: Role, contents: seq<bv8>, size: nat, nonces: nat -> Nonce)
    requires size > 0
    ensures var wire := Joined(MaskSegments(cipher, Chunks(contents, size), nonces, 0));
      Survivors(cipher, role, Chunks(wire, size + UDP_SEGMENT_OVERHEAD)) == Passing(role, Chunks(contents, size))
    ensures Joined(Passing(Client, Chunks(contents, size))) == contents
  {
    var pieces := Chunks(contents, size);
    var wires := MaskSegments(cipher, pieces, nonces, 0);
    ChunksAreRegular(contents, size);
    MaskedAreRegular(cipher, pieces, nonces, 0, size);
    CuttingRestores(wires, size + UDP_SEGMENT_OVERHEAD);
    SurvivorsOfMasked(cipher, role, pieces, nonces, 0);
    ClientKeepsAll(pieces, size);
  }

  // ---------------------------------------------------------------------------------------------
  // A receive batch.
  // ---------------------------------------------------------------------------------------------

  /** One received buffer: its bytes, the stride they are cut by, and the rest of its metadata. */
  datatype Slot = Slot(bytes: seq<bv8>, stride: nat, peer: nat)

  lemma {:induction false} SurvivorsAppend(cipher: Cipher, role: Role, wires: seq<seq<bv8>>, last: seq<bv8>)
    ensures var plain := UnmaskSegment(cipher, last);
      Survivors(cipher, role, wires + [last])
        == Survivors(cipher, role, wires) + if Passes(role, plain) then [plain] else []
    decreases |wires|
  {
    var kept := if Passes(role, UnmaskSegment(cipher, last)) then [UnmaskSegment(cipher, last)] else [];
    if wires == [] {
      assert wires + [last] == [last];
      assert Survivors(cipher, role, [last]) == kept + Survivors(cipher, role, []);
    } else {
      var first := UnmaskSegment(cipher, wires[0]);
      var front := if Passes(role, first) then [first] else [];
      assert (wires + [last])[1..] == wires[1..] + [last] && (wires + [last])[0] == wires[0];
      SurvivorsAppend(cipher, role, wires[1..], last);
      Associates(front, Survivors(cipher, role, wires[1..]), kept);
    }
  }

  lemma SurvivingText(cipher: Cipher, role: Role, wires: seq<seq<bv8>>, last: seq<bv8>)
    ensures var plain := UnmaskSegment(cipher, last);
      Joined(Survivors(cipher, role, wires + [last]))
        == Joined(Survivors(cipher, role, wires)) + if Passes(role, plain) then plain else []
  {
    var plain, before := UnmaskSegment(cipher, last), Survivors(cipher, role, wires);
    SurvivorsAppend(cipher, role, wires, last);
    if Passes(role, plain) {
      JoinedAppend(before, plain);
    } else {
      assert before + [] == before && Joined(before) + [] == Joined(before);
    }
  }

  /** The surviving segments of a slot; a slot too small to cut holds none. */
  function SlotSurvivors(cipher: Cipher, role: Role, slot: Slot): (plains: seq<seq<bv8>>)
  {
    if slot.stride <= UDP_SEGMENT_OVERHEAD then [] else Survivors(cipher, role, Chunks(slot.bytes, slot.stride))
  }

  function SlotText(cipher: Cipher, role: Role, slot: Slot): (decoded: seq<bv8>)
    ensures decoded != [] ==> slot.stride > UDP_SEGMENT_OVERHEAD
  {
    Joined(SlotSurvivors(cipher, role, slot))
  }

  /** Unmasks one segment behind what is decoded already, and truncates again if the filter refuses it. */
  method DecodeSegment(cipher: Cipher, role: Role, decoded: seq<bv8>, segment: seq<bv8>) returns (decoded': seq<bv8>)
    ensures var plain := UnmaskSegment(cipher, segment);
      decoded' == decoded + if Passes(role, plain) then plain else []
  {
    decoded' := decoded;
    var segmentStart := |decoded|;
    if |segment| > NONCE_LEN {
      decoded' := decoded + UnmaskSegment(cipher, segment);
      Parts(decoded, UnmaskSegment(cipher, segment));
      if role.Server? && !role.filter(decoded'[segmentStart..]) {
        decoded' := decoded'[..segmentStart];
      }
    }
  }

  /** Unmasks and filters the segments of a slot in turn. */
  method DecodeSegments(cipher: Cipher, role: Role, segments: seq<seq<bv8>>) returns (decoded: seq<bv8>)
    ensures decoded == Joined(Survivors(cipher, role, segments))
  {
    decoded := [];
    for i := 0 to |segments|
      invariant decoded == Joined(Survivors(cipher, role, segments[..i]))
    {
      SurvivingText(cipher, role, segments[..i], segments[i]);
      assert segments[..i + 1] == segments[..i] + [segments[i]];
      decoded := DecodeSegment(cipher, role, decoded, segments[i]);
    }
    assert segments[..|segments|] == segments;
  }

  /** Unmasks and filters one slot; one that is empty or too finely cut holds nothing. */
  method DecodeSlot(cipher: Cipher, role: Role, slot: Slot) returns (decoded: seq<bv8>)
    ensures decoded == SlotText(cipher, role, slot)
  {
    if slot.bytes == [] || slot.stride <= UDP_SEGMENT_OVERHEAD {
      return [];
    }
    decoded := DecodeSegments(cipher, role, Chunks(slot.bytes, slot.stride));
  }

  // ---------------------------------------------------------------------------------------------
  // Compacting the decoded slots into the caller's buffers.
  // ---------------------------------------------------------------------------------------------

  /** A slot and its decoded text. */
  datatype Item = Item(slot: Slot, text: seq<bv8>)

  function Items(cipher: Cipher, role: Role, slots: seq<Slot>): (items: seq<Item>)
    ensures |items| == |slots|
  {
    if slots == [] then [] else [Item(slots[0], SlotText(cipher, role, slots[0]))] + Items(cipher, role, slots[1..])
  }

  lemma {:induction false} ItemAt(cipher: Cipher, role: Role, slots: seq<Slot>, i: nat)
    requires i < |slots|
    ensures Items(cipher, role, slots)[i] == Item(slots[i], SlotText(cipher, role, slots[i]))
  {
    if i > 0 {
      ItemAt(cipher, role, slots[1..], i - 1);
    }
  }

  predicate GoesOut(item: Item, buffer: nat)
  {
    item.text != [] && |item.text| <= buffer
  }

  /** The items that go out: those with any text that fits the next of the caller's buffers. */
  function Fitting(items: seq<Item>, room: seq<nat>, produced: nat): (kept: seq<Item>)
    requires produced + |items| <= |room|
    decreases |items|
  {
    if items == [] then []
    else if GoesOut(items[0], room[produced]) then [items[0]] + Fitting(items[1..], room, produced + 1)
    else Fitting(items[1..], room, produced)
  }

  function DeliverItem(item: Item): (d: Slot)
  {
    item.slot.(bytes := item.text, stride := DeliveredStride(item.slot.stride, |item.text|))
  }

  /** The caller's buffers, filled from the front: each text under its delivered stride. */
  function Deliver(kept: seq<Item>): (out: seq<Slot>)
    ensures |out| == |kept|
  {
    if kept == [] then [] else [DeliverItem(kept[0])] + Deliver(kept[1..])
  }

  lemma {:induction false} DeliverAppend(kept: seq<Item>, last: Item)
    ensures Deliver(kept + [last]) == Deliver(kept) + [DeliverItem(last)]
  {
    if kept == [] {
      assert kept + [last] == [last];
    } else {
      assert (kept + [last])[1..] == kept[1..] + [last];
      DeliverAppend(kept[1..], last);
    }
  }

  /** One step of the loop over the slots, from what is kept so far. */
  lemma FittingStep(items: seq<Item>, room: seq<nat>, i: nat, kept: seq<Item>) returns (next: seq<Item>)
    requires i < |items| <= |room| && |kept| <= i
    ensures |next| <= i + 1
    ensures kept + Fitting(items[i..], room, |kept|) == next + Fitting(items[i + 1..], room, |next|)
    ensures Deliver(next) == if GoesOut(items[i], room[|kept|]) then Deliver(kept) + [DeliverItem(items[i])] else Deliver(kept)
  {
    assert items[i..][1..] == items[i + 1..];
    next := if GoesOut(items[i], room[|kept|]) then kept + [items[i]] else kept;
    DeliverAppend(kept, items[i]);
  }

  /** Puts a decoded slot into the next of the caller's buffers, if there is anything to put and it fits. */
  method Place(out: seq<Slot>, slot: Slot, decoded: seq<bv8>, buffer: nat) returns (out': seq<Slot>)
    ensures out' == if GoesOut(Item(slot, decoded), buffer) then out + [DeliverItem(Item(slot, decoded))] else out
  {
    if decoded == [] || |decoded| > buffer {
      return out;
    }
    out' := out + [slot.(bytes := decoded, stride := DeliveredStride(slot.stride, |decoded|))];
  }

  /** Turns a batch of received buffers into the caller's, compacting past the dropped ones. */
  method ReceiveBatch(cipher: Cipher, role: Role, slots: seq<Slot>, room: seq<nat>) returns (out: seq<Slot>)
    requires |slots| <= |room|
    ensures out == Deliver(Fitting(Items(cipher, role, slots), room, 0))
  {
    ghost var items := Items(cipher, role, slots);
    ghost var kept: seq<Item> := [];
    out := [];
    assert items[0..] == items;
    for i := 0 to |slots|
      invariant |kept| <= i && out == Deliver(kept)
      invariant kept + Fitting(items[i..], room, |kept|) == Fitting(items, room, 0)
    {
      var decoded := DecodeSlot(cipher, role, slots[i]);
      ItemAt(cipher, role, slots, i);
      out := Place(out, slots[i], decoded, room[|out|]);
      kept := FittingStep(items, room, i, kept);
    }
    assert kept + [] == kept;
  }

  /** The segments the caller cuts out of a delivered buffer. */
  function CutSlot(slot: Slot): (plains: seq<seq<bv8>>)
  {
    if slot.stride == 0 then [] else Chunks(slot.bytes, slot.stride)
  }

  /** All segments of a batch in order, as the caller cuts them out of its buffers. */
  function Cut(out: seq<Slot>): (plains: seq<seq<bv8>>)
  {
    if out == [] then [] else CutSlot(out[0]) + Cut(out[1..])
  }

  /** All surviving segments of some slots, in order. */
  function AllSurvivors(cipher: Cipher, role: Role, items: seq<Item>): (plains: seq<seq<bv8>>)
  {
    if items == [] then [] else SlotSurvivors(cipher, role, items[0].slot) + AllSurvivors(cipher, role, items[1..])
  }

  ghost predicate All(p: Item -> bool, items: seq<Item>)
  {
    items == [] || (p(items[0]) && All(p, items[1..]))
  }

  /** The text is the text of its slot. */
  ghost function Decoded(cipher: Cipher, role: Role): (p: Item -> bool)
  {
    (item: Item) => item.text == SlotText(cipher, role, item.slot)
  }

  lemma AllFirst(p: Item -> bool, first: Item, later: seq<Item>)
    ensures All(p, [first] + later) <==> p(first) && All(p, later)
  {
    assert ([first] + later)[1..] == later;
  }

  lemma {:induction false} ItemsAreDecoded(cipher: Cipher, role: Role, slots: seq<Slot>)
    ensures All(Decoded(cipher, role), Items(cipher, role, slots))
  {
    if slots != [] {
      ItemsAreDecoded(cipher, role, slots[1..]);
      AllFirst(Decoded(cipher, role), Item(slots[0], SlotText(cipher, role, slots[0])), Items(cipher, role, slots[1..]));
    }
  }

  lemma {:induction false} FittingKeeps(p: Item -> bool, items: seq<Item>, room: seq<nat>, produced: nat)
    requires produced + |items| <= |room| && All(p, items)
    ensures All(p, Fitting(items, room, produced))
    decreases |items|
  {
    if items != [] {
      if GoesOut(items[0], room[produced]) {
        FittingKeeps(p, items[1..], room, produced + 1);
        AllFirst(p, items[0], Fitting(items[1..], room, produced + 1));
      } else {
        FittingKeeps(p, items[1..], room, produced);
      }
    }
  }

  lemma ItemCutsBack(cipher: Cipher, role: Role, item: Item)
    requires item.text == SlotText(cipher, role, item.slot)
    ensures CutSlot(DeliverItem(item)) == SlotSurvivors(cipher, role, item.slot)
    ensures item.text == [] <==> SlotSurvivors(cipher, role, item.slot) == []
  {
    if item.slot.stride > UDP_SEGMENT_OVERHEAD {
      DeliveryCutsBack(cipher, role, item.slot.bytes, item.slot.stride);
    }
  }

  lemma CutFirst(first: Slot, later: seq<Slot>)
    ensures Cut([first] + later) == CutSlot(first) + Cut(later)
  {
    assert ([first] + later)[1..] == later;
  }

  lemma {:induction false} DeliverCutsBack(cipher: Cipher, role: Role, kept: seq<Item>)
    requires All(Decoded(cipher, role), kept)
    ensures Cut(Deliver(kept)) == AllSurvivors(cipher, role, kept)
  {
    if kept != [] {
      DeliverCutsBack(cipher, role, kept[1..]);
      ItemCutsBack(cipher, role, kept[0]);
      CutFirst(DeliverItem(kept[0]), Deliver(kept[1..]));
    }
  }

  /**
   A batch delivers every surviving segment of every slot that fits its turn, once and in order, and
   nothing else.
   */
  lemma BatchDeliversSurvivors(cipher: Cipher, role: Role, slots: seq<Slot>, room: seq<nat>)
    requires |slots| <= |room|
    ensures var kept := Fitting(Items(cipher, role, slots), room, 0);
      Cut(Deliver(kept)) == AllSurvivors(cipher, role, kept)
  {
    ItemsAreDecoded(cipher, role, slots);
    FittingKeeps(Decoded(cipher, role), Items(cipher, role, slots), room, 0);
    DeliverCutsBack(cipher, role, Fitting(Items(cipher, role, slots), room, 0));
  }

  /** The items with any text. */
  function Filled(items: seq<Item>): (filled: seq<Item>)
  {
    if items == [] then []
    else if items[0].text == [] then Filled(items[1..])
    else [items[0]] + Filled(items[1..])
  }

  /** Every text fits the buffer whose turn it is. */
  predicate Roomy(items: seq<Item>, room: seq<nat>, produced: nat)
    requires produced + |items| <= |room|
    decreases |items|
  {
    items == [] ||
    (|items[0].text| <= room[produced] && Roomy(items[1..], room, if items[0].text == [] then produced else produced + 1))
  }

  /** No filled slot is dropped if and only if each text fits its turn. */
  lemma {:induction false} DropsNoneIff(items: seq<Item>, room: seq<nat>, produced: nat)
    requires produced + |items| <= |room|
    ensures |Fitting(items, room, produced)| <= |Filled(items)|
    ensures Fitting(items, room, produced) == Filled(items) <==> Roomy(items, room, produced)
    decreases |items|
  {
    if items != [] {
      if GoesOut(items[0], room[produced]) {
        DropsNoneIff(items[1..], room, produced + 1);
        SameBehind([items[0]], Fitting(items[1..], room, produced + 1), Filled(items[1..]));
      } else {
        DropsNoneIff(items[1..], room, produced);
      }
    }
  }

  lemma SameBehind<T>(a: seq<T>, b: seq<T>, c: seq<T>)
    ensures a + b == a + c <==> b == c
  {
    Parts(a, b);
    Parts(a, c);
  }

  lemma {:induction false} FilledHoldAll(cipher: Cipher, role: Role, items: seq<Item>)
    requires All(Decoded(cipher, role), items)
    ensures AllSurvivors(cipher, role, Filled(items)) == AllSurvivors(cipher, role, items)
  {
    if items != [] {
      FilledHoldAll(cipher, role, items[1..]);
      ItemCutsBack(cipher, role, items[0]);
      if items[0].text != [] {
        assert ([items[0]] + Filled(items[1..]))[1..] == Filled(items[1..]);
      }
    }
  }

  /** With room for each text in its turn, every surviving segment of the batch is delivered. */
  lemma RoomyBatchDeliversAll(cipher: Cipher, role: Role, slots: seq<Slot>, room: seq<nat>)
    requires |slots| <= |room| && Roomy(Items(cipher, role, slots), room, 0)
    ensures Cut(Deliver(Fitting(Items(cipher, role, slots), room, 0))) == AllSurvivors(cipher, role, Items(cipher, role, slots))
  {
    ItemsAreDecoded(cipher, role, slots);
    BatchDeliversSurvivors(cipher, role, slots, room);
    DropsNoneIff(Items(cipher, role, slots), room, 0);
    FilledHoldAll(cipher, role, Items(cipher, role, slots));
  }

  // ---------------------------------------------------------------------------------------------
  // Polling until something is delivered.
  // ---------------------------------------------------------------------------------------------

  datatype InnerPoll = Arrived(slots: seq<Slot>) | RecvFailed | RecvNotReady

  datatype Receipt = Delivered(out: seq<Slot>) | NoBuffers | Failure | NothingYet

  /** The inner socket never fills more buffers than it is given. */
  predicate Fits(polls: seq<InnerPoll>, room: seq<nat>)
  {
    forall i :: 0 <= i < |polls| ==> polls[i].Arrived? ==> |polls[i].slots| <= |room|
  }

  /** What polling comes to: a batch of which nothing gets through is passed over, a silent socket is not ready. */
  function Polled(cipher: Cipher, role: Role, polls: seq<InnerPoll>, room: seq<nat>): (r: Receipt)
    requires Fits(polls, room)
    decreases |polls|
  {
    if polls == [] then NothingYet
    else match polls[0]
      case RecvNotReady => NothingYet
      case RecvFailed => Failure
      case Arrived(slots) =>
        var out := Deliver(Fitting(Items(cipher, role, slots), room, 0));
        if out != [] then Delivered(out) else Polled(cipher, role, polls[1..], room)
  }

  /** Polls the inner socket until a batch gets through or there is nothing to wait for here. */
  method PollRecv(cipher: Cipher, role: Role, polls: seq<InnerPoll>, room: seq<nat>) returns (r: Receipt)
    requires Fits(polls, room)
    ensures r == if room == [] then NoBuffers else Polled(cipher, role, polls, room)
  {
    if room == [] {
      return NoBuffers;
    }
    var rest := polls;
    while rest != []
      invariant Fits(rest, room) && Polled(cipher, role, rest, room) == Polled(cipher, role, polls, room)
      decreases |rest|
    {
      match rest[0]
      case RecvNotReady =>
        return NothingYet;
      case RecvFailed =>
        return Failure;
      case Arrived(slots) =>
        var out := ReceiveBatch(cipher, role, slots, room);
        if out != [] {
          return Delivered(out);
        }
        rest := rest[1..];
    }
    return NothingYet;
  }

  /** A batch no segment of which fits its turn. */
  predicate Barren(cipher: Cipher, role: Role, poll: InnerPoll, room: seq<nat>)
  {
    poll.Arrived? && |poll.slots| <= |room| && AllSurvivors(cipher, role, Fitting(Items(cipher, role, poll.slots), room, 0)) == []
  }

  /** The caller holds exactly the segments of this batch that fit their turn. */
  predicate HandsOver(cipher: Cipher, role: Role, poll: InnerPoll, room: seq<nat>, out: seq<Slot>)
  {
    && poll.Arrived? && |poll.slots| <= |room| && out != []
    && Cut(out) == AllSurvivors(cipher, role, Fitting(Items(cipher, role, poll.slots), room, 0))
  }

  lemma BatchHandsOver(cipher: Cipher, role: Role, poll: InnerPoll, room: seq<nat>)
    requires poll.Arrived? && |poll.slots| <= |room|
    ensures var out := Deliver(Fitting(Items(cipher, role, poll.slots), room, 0));
      if out == [] then Barren(cipher, role, poll, room) else HandsOver(cipher, role, poll, room, out)
  {
    BatchDeliversSurvivors(cipher, role, poll.slots, room);
  }

  /** The first `k` polls were barren, and what polling comes to is what the next one is. */
  ghost predicate EndsAt(cipher: Cipher, role: Role, polls: seq<InnerPoll>, room: seq<nat>, k: nat, r: Receipt)
  {
    && k <= |polls| && (forall i :: 0 <= i < k ==> Barren(cipher, role, polls[i], room))
    && match r
       case Delivered(out) => k < |polls| && HandsOver(cipher, role, polls[k], room, out)
       case Failure => k < |polls| && polls[k] == RecvFailed
       case NothingYet => k == |polls| || polls[k] == RecvNotReady
       case NoBuffers => false
  }

  lemma EndsLater(cipher: Cipher, role: Role, polls: seq<InnerPoll>, room: seq<nat>, k: nat, r: Receipt)
    requires polls != [] && Barren(cipher, role, polls[0], room) && EndsAt(cipher, role, polls[1..], room, k, r)
    ensures EndsAt(cipher, role, polls, room, k + 1, r)
  {
    forall i | 0 <= i < k + 1
      ensures Barren(cipher, role, polls[i], room)
    {
      assert i > 0 ==> polls[i] == polls[1..][i - 1];
    }
  }

  /** Polling again loses nothing: only barren batches are passed over, and a delivery is all of the next one that fits. */
  lemma {:induction false} PollingLosesNothing(cipher: Cipher, role: Role, polls: seq<InnerPoll>, room: seq<nat>) returns (k: nat)
    requires Fits(polls, room)
    ensures EndsAt(cipher, role, polls, room, k, Polled(cipher, role, polls, room))
    decreases |polls|
  {
    k := 0;
    if polls != [] && polls[0].Arrived? {
      BatchHandsOver(cipher, role, polls[0], room);
      if Deliver(Fitting(Items(cipher, role, polls[0].slots), room, 0)) == [] {
        k := PollingLosesNothing(cipher, role, polls[1..], room);
        EndsLater(cipher, role, polls, room, k, Polled(cipher, role, polls[1..], room));
        k := k + 1;
      }
    }
  }

  // ---------------------------------------------------------------------------------------------
  // Bytes on the wire, and what passes.
  // ---------------------------------------------------------------------------------------------

  /** A wire segment is its nonce, then the plaintext XORed with that nonce's keystream from its start. */
  lemma SegmentBytes(cipher: Cipher, plain: seq<bv8>, nonce: Nonce)
    ensures var wire := MaskSegment(cipher, plain, nonce);
      wire[..12] == nonce && forall i :: 0 <= i < |plain| ==> wire[12 + i] == plain[i] ^ cipher(nonce)(i)
  {
  }

  function VersionBytes(v: bv32): (s: seq<bv8>)
    ensures |s| == 4
  {
    [((v >> 24) & 0xff) as bv8, ((v >> 16) & 0xff) as bv8, ((v >> 8) & 0xff) as bv8, (v & 0xff) as bv8]
  }

  lemma VersionReadsBack(v: bv32)
    ensures var s := VersionBytes(v); Version(s[0], s[1], s[2], s[3]) == v
  {
  }

  /** The filter: a short header passes, a long one if and only if it is whole and its version is supported. */
  lemma FilterMeans(first: bv8, version: bv32, rest: seq<bv8>, versions: set<bv32>, short: seq<bv8>)
    requires |short| < 4
    ensures SupportedQuicPacket([first] + VersionBytes(version) + rest, versions) <==> first & 0x80 == 0 || version in versions
    ensures SupportedQuicPacket([first] + short, versions) <==> first & 0x80 == 0
    ensures !SupportedQuicPacket([], versions)
  {
    var packet := [first] + VersionBytes(version) + rest;
    assert packet[0] == first && packet[1] == VersionBytes(version)[0] && packet[2] == VersionBytes(version)[1];
    assert packet[3] == VersionBytes(version)[2] && packet[4] == VersionBytes(version)[3];
    VersionReadsBack(version);
  }

  /** A client takes every segment with any text, a server those its filter passes. */
  lemma PassesMeans(plain: seq<bv8>, versions: set<bv32>)
    ensures Passes(Client, plain) <==> plain != []
    ensures Passes(QuicServer(versions), plain) <==> SupportedQuicPacket(plain, versions)
  {
  }

  /** Each delivered buffer carries the text and the peer of the slot it came from. */
  lemma {:induction false} DeliveredFrom(kept: seq<Item>, i: nat)
    requires i < |kept|
    ensures Deliver(kept)[i].peer == kept[i].slot.peer && Deliver(kept)[i].bytes == kept[i].text
  {
    if i > 0 {
      DeliveredFrom(kept[1..], i - 1);
    }
  }
}
