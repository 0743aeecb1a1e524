/**
 The masked TCP prelude (crates/uk-mask/src/lib.rs): 28 payload bytes spread over the low seven bits
 of 32 tail bytes, whose high bits are kept. HMAC is an arbitrary function with 32-byte results.
 */
module Prelude {
  import Bits
  import Bytes

  const PRELUDE_LEN := 64
  const PREFIX_LEN := 32
  const TAIL_LEN := 32
  const NONCE_LEN := 12
  const IDENTITY_LEN := 8
  const COUNTER_LEN := 6
  const TAG_LEN := 14
  const TAIL_PAYLOAD_LEN := IDENTITY_LEN + COUNTER_LEN + TAG_LEN
  const PAYLOAD_BITS := TAIL_PAYLOAD_LEN * 8
  const MAX_COUNTER: bv64 := 0xffff_ffff_ffff

  // ---------------------------------------------------------------------------------------------
  // Bits of a byte.
  // ---------------------------------------------------------------------------------------------

  /** `1 << k`. */
  function BitMask(k: nat): (m: bv8)
    requires k < 8
  {
    if k == 0 then 1 else BitMask(k - 1) << 1
  }

  /** Bit `k` of a byte: `(b >> k) & 1` in the source. */
  predicate Bit(b: bv8, k: nat)
    requires k < 8
  {
    b & BitMask(k) != 0
  }

  /** A single bit moved to place `k`: `x << k`. */
  function Placed(x: bool, k: nat): (b: bv8)
    requires k < 8
  {
    if x then BitMask(k) else 0
  }

  /** `b` with bit `k` replaced. */
  function WithBit(b: bv8, k: nat, x: bool): (c: bv8)
    requires k < 8
  {
    (b & !BitMask(k)) | Placed(x, k)
  }

  lemma BitMasks()
    ensures BitMask(0) == 0x01 && BitMask(1) == 0x02 && BitMask(2) == 0x04 && BitMask(3) == 0x08
    ensures BitMask(4) == 0x10 && BitMask(5) == 0x20 && BitMask(6) == 0x40 && BitMask(7) == 0x80
  {
    assert BitMask(1) == BitMask(0) << 1;
    assert BitMask(2) == BitMask(1) << 1;
    assert BitMask(3) == BitMask(2) << 1;
    assert BitMask(4) == BitMask(3) << 1;
    assert BitMask(5) == BitMask(4) << 1;
    assert BitMask(6) == BitMask(5) << 1;
  }

  /** Distinct places do not overlap. */
  lemma MasksApart(j: nat, k: nat)
    requires j < 8 && k < 8
    ensures BitMask(k) != 0 && (j != k ==> BitMask(j) & BitMask(k) == 0)
  {
    BitMasks();
  }

  lemma WithBitBits(b: bv8, k: nat, x: bool, j: nat)
    requires k < 8 && j < 8
    ensures Bit(WithBit(b, k, x), j) == if j == k then x else Bit(b, j)
  {
    MasksApart(j, k);
    Overwrite(b, BitMask(k), BitMask(j));
  }

  lemma Overwrite(b: bv8, m: bv8, n: bv8)
    ensures ((b & !m) | m) & m == m && ((b & !m) | 0) & m == 0
    ensures n & m == 0 ==> ((b & !m) | m) & n == b & n && ((b & !m) | 0) & n == b & n
  {
  }

  lemma OrBits(b: bv8, k: nat, x: bool, j: nat)
    requires k < 8 && j < 8
    ensures Bit(b | Placed(x, k), j) == (Bit(b, j) || (j == k && x))
  {
    MasksApart(j, k);
    Add(b, BitMask(k), BitMask(j));
  }

  lemma Add(b: bv8, m: bv8, n: bv8)
    ensures (b | m) & m == m && b | 0 == b
    ensures n & m == 0 ==> (b | m) & n == b & n
  {
  }

  /** A byte is its eight bits. */
  lemma SameBits(b: bv8, c: bv8)
    requires Bit(b, 0) == Bit(c, 0) && Bit(b, 1) == Bit(c, 1) && Bit(b, 2) == Bit(c, 2) && Bit(b, 3) == Bit(c, 3)
    requires Bit(b, 4) == Bit(c, 4) && Bit(b, 5) == Bit(c, 5) && Bit(b, 6) == Bit(c, 6) && Bit(b, 7) == Bit(c, 7)
    ensures b == c
  {
    BitMasks();
  }

  // ---------------------------------------------------------------------------------------------
  // The tail layout.
  // ---------------------------------------------------------------------------------------------

  type Payload = p: seq<bv8> | |p| == TAIL_PAYLOAD_LEN witness Bytes.Fill(TAIL_PAYLOAD_LEN, 0)

  type Tail = t: seq<bv8> | |t| == TAIL_LEN witness Bytes.Fill(TAIL_LEN, 0)

  /** Payload bit `i`, most significant first. */
  predicate PayloadBit(p: Payload, i: nat)
    requires i < PAYLOAD_BITS
  {
    Bit(p[i / 8], 7 - i % 8)
  }

  /** Where payload bit `i` lives in the tail: seven to a byte, below the high bit. */
  predicate TailBit(t: Tail, i: nat)
    requires i < PAYLOAD_BITS
  {
    Bit(t[i / 7], 6 - i % 7)
  }

  predicate HighBit(t: Tail, g: nat)
    requires g < TAIL_LEN
  {
    Bit(t[g], 7)
  }

  /** Replaces payload bit `i` in the tail. */
  function PutBit(t: Tail, i: nat, x: bool): (t': Tail)
    requires i < PAYLOAD_BITS
  {
    t[i / 7 := WithBit(t[i / 7], 6 - i % 7, x)]
  }

  /** Adds payload bit `i` to a payload that does not have it yet. */
  function AddBit(p: Payload, i: nat, x: bool): (p': Payload)
    requires i < PAYLOAD_BITS
  {
    p[i / 8 := p[i / 8] | Placed(x, 7 - i % 8)]
  }

  /** The tail after the first `n` payload bits have been written into it. */
  function Written(t: Tail, p: Payload, n: nat): (t': Tail)
    requires n <= PAYLOAD_BITS
  {
    if n == 0 then t
    else
      var i, before := n - 1, Written(t, p, n - 1);
      PutBit(before, i, PayloadBit(p, i))
  }

  /** The payload after the first `n` bits have been read back out. */
  function ReadOut(t: Tail, n: nat): (p: Payload)
    requires n <= PAYLOAD_BITS
  {
    if n == 0 then Bytes.Fill(TAIL_PAYLOAD_LEN, 0)
    else
      var i, before := n - 1, ReadOut(t, n - 1);
      AddBit(before, i, TailBit(t, i))
  }

  lemma SameSlot(i: nat, k: nat, d: nat)
    requires d > 0
    ensures i / d == k / d && i % d == k % d ==> i == k
  {
    assert i == d * (i / d) + i % d && k == d * (k / d) + k % d;
  }

  lemma PutBitBits(t: Tail, k: nat, x: bool, i: nat)
    requires k < PAYLOAD_BITS && i < PAYLOAD_BITS
    ensures TailBit(PutBit(t, k, x), i) == if i == k then x else TailBit(t, i)
  {
    if i / 7 == k / 7 {
      SameSlot(i, k, 7);
      WithBitBits(t[k / 7], 6 - k % 7, x, 6 - i % 7);
    }
  }

  lemma AddBitBits(p: Payload, k: nat, x: bool, i: nat)
    requires k < PAYLOAD_BITS && i < PAYLOAD_BITS
    ensures PayloadBit(AddBit(p, k, x), i) == (PayloadBit(p, i) || (i == k && x))
  {
    if i / 8 == k / 8 {
      SameSlot(i, k, 8);
      OrBits(p[k / 8], 7 - k % 8, x, 7 - i % 8);
    }
  }

  lemma {:induction false} WrittenBits(t: Tail, p: Payload, n: nat, i: nat)
    requires n <= PAYLOAD_BITS && i < PAYLOAD_BITS
    ensures TailBit(Written(t, p, n), i) == if i < n then PayloadBit(p, i) else TailBit(t, i)
  {
    if n > 0 {
      WrittenBits(t, p, n - 1, i);
      PutBitBits(Written(t, p, n - 1), n - 1, PayloadBit(p, n - 1), i);
    }
  }

  lemma {:induction false} WrittenKeepsHigh(t: Tail, p: Payload, n: nat, g: nat)
    requires n <= PAYLOAD_BITS && g < TAIL_LEN
    ensures HighBit(Written(t, p, n), g) == HighBit(t, g)
  {
    if n > 0 {
      var k, before := n - 1, Written(t, p, n - 1);
      WrittenKeepsHigh(t, p, k, g);
      WithBitBits(before[k / 7], 6 - k % 7, PayloadBit(p, k), 7);
    }
  }

  lemma {:induction false} ReadOutBits(t: Tail, n: nat, i: nat)
    requires n <= PAYLOAD_BITS && i < PAYLOAD_BITS
    ensures PayloadBit(ReadOut(t, n), i) == (i < n && TailBit(t, i))
  {
    if n > 0 {
      ReadOutBits(t, n - 1, i);
      AddBitBits(ReadOut(t, n - 1), n - 1, TailBit(t, n - 1), i);
    } else {
      ZeroHasNoBits(BitMask(7 - i % 8));
    }
  }

  lemma ZeroHasNoBits(mask: bv8)
    ensures 0 & mask == 0
  {
  }

  /** A payload is its 224 bits. */
  lemma SamePayload(p: Payload, q: Payload)
    requires forall i :: 0 <= i < PAYLOAD_BITS ==> PayloadBit(p, i) == PayloadBit(q, i)
    ensures p == q
  {
    forall g | 0 <= g < TAIL_PAYLOAD_LEN
      ensures p[g] == q[g]
    {
      SamePayloadByte(p, q, g);
    }
  }

  lemma SamePayloadByte(p: Payload, q: Payload, g: nat)
    requires g < TAIL_PAYLOAD_LEN
    requires forall i :: 0 <= i < PAYLOAD_BITS ==> PayloadBit(p, i) == PayloadBit(q, i)
    ensures p[g] == q[g]
  {
    forall k | 0 <= k < 8
      ensures Bit(p[g], k) == Bit(q[g], k)
    {
      assert PayloadBit(p, 8 * g + 7 - k) == PayloadBit(q, 8 * g + 7 - k);
    }
    SameBits(p[g], q[g]);
  }

  /** A tail is its 32 high bits and its 224 payload bits. */
  lemma SameTail(t: Tail, u: Tail)
    requires forall i :: 0 <= i < PAYLOAD_BITS ==> TailBit(t, i) == TailBit(u, i)
    requires forall g :: 0 <= g < TAIL_LEN ==> HighBit(t, g) == HighBit(u, g)
    ensures t == u
  {
    forall g | 0 <= g < TAIL_LEN
      ensures t[g] == u[g]
    {
      SameTailByte(t, u, g);
    }
  }

  lemma SameTailByte(t: Tail, u: Tail, g: nat)
    requires g < TAIL_LEN && HighBit(t, g) == HighBit(u, g)
    requires forall i :: 0 <= i < PAYLOAD_BITS ==> TailBit(t, i) == TailBit(u, i)
    ensures t[g] == u[g]
  {
    forall k | 0 <= k < 7
      ensures Bit(t[g], k) == Bit(u[g], k)
    {
      assert TailBit(t, 7 * g + 6 - k) == TailBit(u, 7 * g + 6 - k);
    }
    SameBits(t[g], u[g]);
  }

  /** What is written into a tail reads back out of it. */
  lemma ReadsBackWritten(t: Tail, p: Payload)
    ensures ReadOut(Written(t, p, PAYLOAD_BITS), PAYLOAD_BITS) == p
  {
    var t' := Written(t, p, PAYLOAD_BITS);
    forall i | 0 <= i < PAYLOAD_BITS
      ensures PayloadBit(ReadOut(t', PAYLOAD_BITS), i) == PayloadBit(p, i)
    {
      ReadOutBits(t', PAYLOAD_BITS, i);
      WrittenBits(t, p, PAYLOAD_BITS, i);
    }
    SamePayload(ReadOut(t', PAYLOAD_BITS), p);
  }

  /** Writing a tail's own payload over any tail with the same high bits rebuilds it. */
  lemma WritesBackRead(t: Tail, u: Tail)
    requires forall g :: 0 <= g < TAIL_LEN ==> HighBit(t, g) == HighBit(u, g)
    ensures Written(u, ReadOut(t, PAYLOAD_BITS), PAYLOAD_BITS) == t
  {
    var p := ReadOut(t, PAYLOAD_BITS);
    var t' := Written(u, p, PAYLOAD_BITS);
    forall i | 0 <= i < PAYLOAD_BITS
      ensures TailBit(t', i) == TailBit(t, i)
    {
      WrittenBits(u, p, PAYLOAD_BITS, i);
      ReadOutBits(t, PAYLOAD_BITS, i);
    }
    forall g | 0 <= g < TAIL_LEN
      ensures HighBit(t', g) == HighBit(t, g)
    {
      WrittenKeepsHigh(u, p, PAYLOAD_BITS, g);
    }
    SameTail(t', t);
  }

  // ---------------------------------------------------------------------------------------------
  // The packed high bits.
  // ---------------------------------------------------------------------------------------------

  /** The first `n` high bits, packed eight to a byte. */
  function Packed(t: Tail, n: nat): (h: seq<bv8>)
    requires n <= TAIL_LEN
    ensures |h| == 4
  {
    if n == 0 then Bytes.Fill(4, 0)
    else
      var i, before := n - 1, Packed(t, n - 1);
      before[i / 8 := before[i / 8] | Placed(HighBit(t, i), i % 8)]
  }

  /** High bit `g` is bit `g % 8` of packed byte `g / 8`: the packing is low bit first. */
  lemma {:induction false} PackedBits(t: Tail, n: nat, g: nat)
    requires n <= TAIL_LEN && g < TAIL_LEN
    ensures Bit(Packed(t, n)[g / 8], g % 8) == (g < n && HighBit(t, g))
  {
    if n > 0 {
      var i := n - 1;
      PackedBits(t, i, g);
      SameSlot(i, g, 8);
      if i / 8 == g / 8 {
        OrBits(Packed(t, i)[i / 8], i % 8, HighBit(t, i), g % 8);
      }
    } else {
      ZeroHasNoBits(BitMask(g % 8));
    }
  }

  /** Packing loses no high bit. */
  lemma PackingIsInjective(t: Tail, u: Tail)
    requires Packed(t, TAIL_LEN) == Packed(u, TAIL_LEN)
    ensures forall g :: 0 <= g < TAIL_LEN ==> HighBit(t, g) == HighBit(u, g)
  {
    forall g | 0 <= g < TAIL_LEN
      ensures HighBit(t, g) == HighBit(u, g)
    {
      PackedBits(t, TAIL_LEN, g);
      PackedBits(u, TAIL_LEN, g);
    }
  }

  lemma {:induction false} PackingSeesHighBitsOnly(t: Tail, u: Tail, n: nat)
    requires n <= TAIL_LEN
    requires forall g :: 0 <= g < TAIL_LEN ==> HighBit(t, g) == HighBit(u, g)
    ensures Packed(t, n) == Packed(u, n)
  {
    if n > 0 {
      PackingSeesHighBitsOnly(t, u, n - 1);
      assert HighBit(t, n - 1) == HighBit(u, n - 1);
    }
  }

  /** The tail with these packed high bits and nothing else. */
  function Spread(high: seq<bv8>): (t: Tail)
    requires |high| == 4
  {
    seq(TAIL_LEN, g requires 0 <= g < TAIL_LEN => Placed(Bit(high[g / 8], g % 8), 7))
  }

  lemma PlacedBit(x: bool, k: nat)
    requires k < 8
    ensures Bit(Placed(x, k), k) == x
  {
    MasksApart(k, k);
    Itself(BitMask(k));
  }

  lemma Itself(m: bv8)
    ensures m & m == m && 0 & m == 0
  {
  }

  lemma PackedByte(high: seq<bv8>, b: nat)
    requires |high| == 4 && b < 4
    ensures Packed(Spread(high), TAIL_LEN)[b] == high[b]
  {
    var t := Spread(high);
    forall k | 0 <= k < 8
      ensures Bit(Packed(t, TAIL_LEN)[b], k) == Bit(high[b], k)
    {
      var g := 8 * b + k;
      assert g / 8 == b && g % 8 == k;
      PackedBits(t, TAIL_LEN, g);
      PlacedBit(Bit(high[b], k), 7);
    }
    SameBits(Packed(t, TAIL_LEN)[b], high[b]);
  }

  /** Every four bytes are the packed high bits of some tail. */
  lemma PackingIsSurjective(high: seq<bv8>)
    requires |high| == 4
    ensures Packed(Spread(high), TAIL_LEN) == high
  {
    forall b | 0 <= b < 4
      ensures Packed(Spread(high), TAIL_LEN)[b] == high[b]
    {
      PackedByte(high, b);
    }
  }

  /** Writing a payload changes the payload and keeps the packed high bits. */
  lemma LayoutParts(t: Tail, p: Payload)
    ensures ReadOut(Written(t, p, PAYLOAD_BITS), PAYLOAD_BITS) == p
    ensures Packed(Written(t, p, PAYLOAD_BITS), TAIL_LEN) == Packed(t, TAIL_LEN)
  {
    ReadsBackWritten(t, p);
    forall g | 0 <= g < TAIL_LEN
      ensures HighBit(Written(t, p, PAYLOAD_BITS), g) == HighBit(t, g)
    {
      WrittenKeepsHigh(t, p, PAYLOAD_BITS, g);
    }
    PackingSeesHighBitsOnly(Written(t, p, PAYLOAD_BITS), t, TAIL_LEN);
  }

  lemma LayoutIsInjective(t: Tail, u: Tail)
    requires Packed(t, TAIL_LEN) == Packed(u, TAIL_LEN) && ReadOut(t, PAYLOAD_BITS) == ReadOut(u, PAYLOAD_BITS)
    ensures t == u
  {
    PackingIsInjective(t, u);
    WritesBackRead(t, t);
    WritesBackRead(u, t);
  }

  /** The tail of a pair of high bits and payload. */
  ghost predicate LaidOut(t: Tail, high: seq<bv8>, p: Payload)
  {
    Packed(t, TAIL_LEN) == high && ReadOut(t, PAYLOAD_BITS) == p
  }

  /** The tail layout is a bijection: each four packed bytes and payload are those of exactly one tail. */
  lemma TailLayoutIsBijective(high: seq<bv8>, p: Payload)
    requires |high| == 4
    ensures LaidOut(Written(Spread(high), p, PAYLOAD_BITS), high, p)
    ensures forall t: Tail :: LaidOut(t, high, p) ==> t == Written(Spread(high), p, PAYLOAD_BITS)
  {
    var u := Written(Spread(high), p, PAYLOAD_BITS);
    PackingIsSurjective(high);
    LayoutParts(Spread(high), p);
    forall t: Tail | LaidOut(t, high, p)
      ensures t == u
    {
      LayoutIsInjective(t, u);
    }
  }

  // ---------------------------------------------------------------------------------------------
  // The loops.
  // ---------------------------------------------------------------------------------------------

  /** Writes the payload bits into the tail in place. */
  method WriteTailPayload(tail: array<bv8>, payload: Payload)
    requires tail.Length == TAIL_LEN
    modifies tail
    ensures tail[..] == Written(old(tail[..]), payload, PAYLOAD_BITS)
  {
    for bitIndex := 0 to PAYLOAD_BITS
      invariant tail[..] == Written(old(tail[..]), payload, bitIndex)
    {
      var bit := PayloadBit(payload, bitIndex);
      var group, position := bitIndex / 7, bitIndex % 7;
      ghost var before := tail[..];
      var byte := WithBit(tail[group], 6 - position, bit);
      tail[group] := byte;
      assert tail[..] == before[group := byte];
    }
  }

  /** Reads the payload bits back out of the tail. */
  method ReadTailPayload(tail: Tail) returns (payload: Payload)
    ensures payload == ReadOut(tail, PAYLOAD_BITS)
  {
    payload := Bytes.Fill(TAIL_PAYLOAD_LEN, 0);
    for bitIndex := 0 to PAYLOAD_BITS
      invariant payload == ReadOut(tail, bitIndex)
    {
      var group, position := bitIndex / 7, bitIndex % 7;
      var bit := Bit(tail[group], 6 - position);
      assert bit == TailBit(tail, bitIndex);
      payload := AddBit(payload, bitIndex, bit);
    }
  }

  /** Packs the high bits of the tail bytes. */
  method PackHighBits(tail: Tail) returns (packed: seq<bv8>)
    ensures packed == Packed(tail, TAIL_LEN)
  {
    packed := Bytes.Fill(4, 0);
    for index := 0 to TAIL_LEN
      invariant packed == Packed(tail, index)
    {
      packed := packed[index / 8 := packed[index / 8] | Placed(Bit(tail[index], 7), index % 8)];
    }
  }

  // ---------------------------------------------------------------------------------------------
  // Encoding and decoding.
  // ---------------------------------------------------------------------------------------------

  type Digest = Tail

  type Hmac = (seq<bv8>, seq<bv8>) -> Digest

  datatype Keys = Keys(authKey: seq<bv8>, maskKey: seq<bv8>)

  datatype Authenticated = Authenticated(identity: bv64, counter: bv64)

  datatype Outcome<+T> = Accepted(value: T) | InvalidCounter | PreludeRejected

  type Block = b: seq<bv8> | |b| == PRELUDE_LEN witness Bytes.Fill(PRELUDE_LEN, 0)

  /** The eight bytes of a 64-bit word, most significant first. */
  function WordBytes(x: bv64): (s: seq<bv8>)
    ensures |s| == 8
  {
    [((x >> 56) & 0xff) as bv8, ((x >> 48) & 0xff) as bv8, ((x >> 40) & 0xff) as bv8, ((x >> 32) & 0xff) as bv8,
     ((x >> 24) & 0xff) as bv8, ((x >> 16) & 0xff) as bv8, ((x >> 8) & 0xff) as bv8, (x & 0xff) as bv8]
  }

  function WordOf(s: seq<bv8>): (x: bv64)
    requires |s| == 8
  {
    (s[0] as bv64 << 56) | (s[1] as bv64 << 48) | (s[2] as bv64 << 40) | (s[3] as bv64 << 32)
    | (s[4] as bv64 << 24) | (s[5] as bv64 << 16) | (s[6] as bv64 << 8) | (s[7] as bv64)
  }

  lemma WordRoundTrip(x: bv64)
    ensures WordOf(WordBytes(x)) == x
    ensures x <= MAX_COUNTER ==> WordBytes(x)[0] == 0 && WordBytes(x)[1] == 0
  {
  }

  lemma BytesRoundTrip(s: seq<bv8>)
    requires |s| == 8
    ensures WordBytes(WordOf(s)) == s
    ensures s[0] == 0 && s[1] == 0 ==> WordOf(s) <= MAX_COUNTER
  {
  }

  function CounterBytes(counter: bv64): (s: seq<bv8>)
    ensures |s| == COUNTER_LEN
  {
    WordBytes(counter)[2..]
  }

  function CounterOf(s: seq<bv8>): (counter: bv64)
    requires |s| == COUNTER_LEN
  {
    WordOf([0, 0] + s)
  }

  lemma CounterRoundTrip(counter: bv64)
    requires counter <= MAX_COUNTER
    ensures CounterOf(CounterBytes(counter)) == counter
  {
    WordRoundTrip(counter);
    assert [0, 0] + CounterBytes(counter) == WordBytes(counter);
  }

  lemma CounterBytesRoundTrip(s: seq<bv8>)
    requires |s| == COUNTER_LEN
    ensures CounterOf(s) <= MAX_COUNTER && CounterBytes(CounterOf(s)) == s
  {
    BytesRoundTrip([0, 0] + s);
    assert ([0, 0] + s)[2..] == s;
  }

  function Xored(p: Payload, mask: Digest): (q: Payload)
  {
    seq(TAIL_PAYLOAD_LEN, i requires 0 <= i < TAIL_PAYLOAD_LEN => p[i] ^ mask[i])
  }

  lemma XorCancels(p: Payload, mask: Digest)
    ensures Xored(Xored(p, mask), mask) == p
  {
    forall i | 0 <= i < TAIL_PAYLOAD_LEN
      ensures Xored(Xored(p, mask), mask)[i] == p[i]
    {
      Bits.XorCancels(p[i], mask[i]);
    }
  }

  function Tag(hmac: Hmac, keys: Keys, nonce: seq<bv8>, prefix: seq<bv8>, high: seq<bv8>, who: seq<bv8>): (tag: seq<bv8>)
    ensures |tag| == TAG_LEN
  {
    hmac(keys.authKey, nonce + prefix + high + who)[..TAG_LEN]
  }

  function PreludeMask(hmac: Hmac, keys: Keys, nonce: seq<bv8>, prefix: seq<bv8>, high: seq<bv8>): (mask: Digest)
  {
    hmac(keys.maskKey, nonce + prefix + high)
  }

  /** The 28 payload bytes: identity, counter, tag. */
  function PayloadFor(hmac: Hmac, keys: Keys, nonce: seq<bv8>, prefix: seq<bv8>, high: seq<bv8>, a: Authenticated): (p: Payload)
  {
    var who := WordBytes(a.identity) + CounterBytes(a.counter);
    who + Tag(hmac, keys, nonce, prefix, high, who)
  }

  /** A prelude over 64 generated bytes, of whatever shaping policy, and a nonce. */
  function EncodePrelude(hmac: Hmac, keys: Keys, generated: Block, nonce: seq<bv8>, a: Authenticated): (r: Outcome<Block>)
  {
    if a.counter == 0 || a.counter > MAX_COUNTER then InvalidCounter
    else
      var prefix, tail := generated[..PREFIX_LEN], generated[PREFIX_LEN..];
      var high := Packed(tail, TAIL_LEN);
      var payload := Xored(PayloadFor(hmac, keys, nonce, prefix, high, a), PreludeMask(hmac, keys, nonce, prefix, high));
      Accepted(prefix + Written(tail, payload, PAYLOAD_BITS))
  }

  function DecodePrelude(hmac: Hmac, keys: Keys, prelude: Block, nonce: seq<bv8>): (r: Outcome<Authenticated>)
  {
    var prefix, tail := prelude[..PREFIX_LEN], prelude[PREFIX_LEN..];
    var high := Packed(tail, TAIL_LEN);
    var payload := Xored(ReadOut(tail, PAYLOAD_BITS), PreludeMask(hmac, keys, nonce, prefix, high));
    var who := payload[..IDENTITY_LEN + COUNTER_LEN];
    var counter := CounterOf(who[IDENTITY_LEN..]);
    if counter == 0 then PreludeRejected
    else if payload[IDENTITY_LEN + COUNTER_LEN..] != Tag(hmac, keys, nonce, prefix, high, who) then PreludeRejected
    else Accepted(Authenticated(WordOf(who[..IDENTITY_LEN]), counter))
  }

  /** Every prelude encoded for a legal counter decodes to the same identity and counter. */
  lemma PreludeRoundTrip(hmac: Hmac, keys: Keys, generated: Block, nonce: seq<bv8>, a: Authenticated)
    requires 0 < a.counter <= MAX_COUNTER
    ensures EncodePrelude(hmac, keys, generated, nonce, a).Accepted?
    ensures DecodePrelude(hmac, keys, EncodePrelude(hmac, keys, generated, nonce, a).value, nonce) == Accepted(a)
  {
    var prefix, tail := generated[..PREFIX_LEN], generated[PREFIX_LEN..];
    var high := Packed(tail, TAIL_LEN);
    var payload := PayloadFor(hmac, keys, nonce, prefix, high, a);
    var mask := PreludeMask(hmac, keys, nonce, prefix, high);
    var prelude := EncodePrelude(hmac, keys, generated, nonce, a).value;
    assert prelude[..PREFIX_LEN] == prefix;
    assert prelude[PREFIX_LEN..] == Written(tail, Xored(payload, mask), PAYLOAD_BITS);
    LayoutParts(tail, Xored(payload, mask));
    XorCancels(payload, mask);
    PayloadParts(hmac, keys, nonce, prefix, high, a);
  }

  lemma PayloadParts(hmac: Hmac, keys: Keys, nonce: seq<bv8>, prefix: seq<bv8>, high: seq<bv8>, a: Authenticated)
    requires a.counter <= MAX_COUNTER
    ensures var payload := PayloadFor(hmac, keys, nonce, prefix, high, a);
      var who := payload[..IDENTITY_LEN + COUNTER_LEN];
      && WordOf(who[..IDENTITY_LEN]) == a.identity
      && CounterOf(who[IDENTITY_LEN..]) == a.counter
      && payload[IDENTITY_LEN + COUNTER_LEN..] == Tag(hmac, keys, nonce, prefix, high, who)
  {
    var payload := PayloadFor(hmac, keys, nonce, prefix, high, a);
    var who := WordBytes(a.identity) + CounterBytes(a.counter);
    assert payload[..IDENTITY_LEN + COUNTER_LEN] == who;
    assert who[..IDENTITY_LEN] == WordBytes(a.identity);
    assert who[IDENTITY_LEN..] == CounterBytes(a.counter);
    WordRoundTrip(a.identity);
    CounterRoundTrip(a.counter);
  }

  /** Conversely an accepted prelude is the one encoded for what it decodes to, over its own bytes. */
  lemma AcceptedWasEncoded(hmac: Hmac, keys: Keys, prelude: Block, nonce: seq<bv8>)
    requires DecodePrelude(hmac, keys, prelude, nonce).Accepted?
    ensures var a := DecodePrelude(hmac, keys, prelude, nonce).value;
      0 < a.counter <= MAX_COUNTER && EncodePrelude(hmac, keys, prelude, nonce, a) == Accepted(prelude)
  {
    var prefix, tail := prelude[..PREFIX_LEN], prelude[PREFIX_LEN..];
    var high := Packed(tail, TAIL_LEN);
    DecodedPayload(hmac, keys, prelude, nonce);
    XorCancels(ReadOut(tail, PAYLOAD_BITS), PreludeMask(hmac, keys, nonce, prefix, high));
    WritesBackRead(tail, tail);
    assert prelude == prefix + tail;
  }

  // ---------------------------------------------------------------------------------------------
  // What the layout and the MACs are.
  // ---------------------------------------------------------------------------------------------

  /** Payload bits run most significant first, seven to a tail byte below its high bit: the first and the last byte. */
  lemma LayoutEnds(t: Tail, p: Payload, k: nat)
    requires k < 7
    ensures var w := Written(t, p, PAYLOAD_BITS); Bit(w[0], k) == Bit(p[0], k + 1) && Bit(w[31], k) == Bit(p[27], k)
  {
    WrittenBits(t, p, PAYLOAD_BITS, 6 - k);
    WrittenBits(t, p, PAYLOAD_BITS, 7 * 31 + 6 - k);
  }

  /** Words are written most significant byte first. */
  lemma WordBytesAreBigEndian(x: bv64)
    ensures x < 0x100 ==> WordBytes(x) == [0, 0, 0, 0, 0, 0, 0, x as bv8]
    ensures WordBytes(x << 8)[..7] == WordBytes(x)[1..]
  {
    var s, t := WordBytes(x << 8), WordBytes(x);
    assert s[0] == t[1] && s[1] == t[2] && s[2] == t[3] && s[3] == t[4] && s[4] == t[5] && s[5] == t[6] && s[6] == t[7];
  }

  /** A keyed hash that singles out one key and message. */
  ghost function Only(key: seq<bv8>, message: seq<bv8>): (hmac: Hmac)
  {
    (k: seq<bv8>, m: seq<bv8>) => if k == key && m == message then Bytes.Fill(32, 1) else Bytes.Fill(32, 0)
  }

  lemma FixedParts(a: seq<bv8>, x: seq<bv8>, b: seq<bv8>, y: seq<bv8>)
    requires |a| == |b| && a + x == b + y
    ensures a == b && x == y
  {
    Bytes.Parts(a, x);
    Bytes.Parts(b, y);
  }

  /** The tag covers its key, nonce, prefix, high bits, identity and counter: a change in any can change it. */
  lemma TagCovers(
      keys: Keys, nonce: seq<bv8>, prefix: seq<bv8>, high: seq<bv8>, who: seq<bv8>,
      keys': Keys, nonce': seq<bv8>, prefix': seq<bv8>, high': seq<bv8>, who': seq<bv8>)
    requires |nonce| == |nonce'| && |prefix| == |prefix'| && |high| == |high'|
    requires keys.authKey != keys'.authKey || nonce != nonce' || prefix != prefix' || high != high' || who != who'
    ensures exists hmac :: Tag(hmac, keys, nonce, prefix, high, who) != Tag(hmac, keys', nonce', prefix', high', who')
  {
    var input, input' := nonce + prefix + high + who, nonce' + prefix' + high' + who';
    if input == input' {
      FixedParts(nonce + prefix + high, who, nonce' + prefix' + high', who');
      FixedParts(nonce + prefix, high, nonce' + prefix', high');
      FixedParts(nonce, prefix, nonce', prefix');
    }
    var hmac := Only(keys.authKey, input);
    assert Tag(hmac, keys, nonce, prefix, high, who)[0] == 1;
    assert Tag(hmac, keys', nonce', prefix', high', who')[0] == 0;
  }

  /** The payload mask covers its key, nonce, prefix and high bits. */
  lemma MaskCovers(
      keys: Keys, nonce: seq<bv8>, prefix: seq<bv8>, high: seq<bv8>,
      keys': Keys, nonce': seq<bv8>, prefix': seq<bv8>, high': seq<bv8>)
    requires |nonce| == |nonce'| && |prefix| == |prefix'|
    requires keys.maskKey != keys'.maskKey || nonce != nonce' || prefix != prefix' || high != high'
    ensures exists hmac :: PreludeMask(hmac, keys, nonce, prefix, high) != PreludeMask(hmac, keys', nonce', prefix', high')
  {
    var input, input' := nonce + prefix + high, nonce' + prefix' + high';
    if input == input' {
      FixedParts(nonce + prefix, high, nonce' + prefix', high');
      FixedParts(nonce, prefix, nonce', prefix');
    }
    var hmac := Only(keys.maskKey, input);
    assert PreludeMask(hmac, keys, nonce, prefix, high)[0] == 1;
    assert PreludeMask(hmac, keys', nonce', prefix', high')[0] == 0;
  }

  /** The 28 bytes a client puts into the tail: identity, counter and tag under the mask. */
  function Expected(hmac: Hmac, keys: Keys, nonce: seq<bv8>, prefix: seq<bv8>, high: seq<bv8>, a: Authenticated): (p: Payload)
  {
    var who := WordBytes(a.identity) + CounterBytes(a.counter);
    Xored(who + hmac(keys.authKey, nonce + prefix + high + who)[..TAG_LEN], hmac(keys.maskKey, nonce + prefix + high))
  }

  /**
   A prelude is accepted for an identity and a counter exactly when the counter is legal and its tail holds
   their bytes and the tag over nonce, prefix, high bits and them, under the mask; any other is rejected.
   */
  lemma AcceptedIff(hmac: Hmac, keys: Keys, prelude: Block, nonce: seq<bv8>, a: Authenticated)
    ensures var prefix, tail := prelude[..PREFIX_LEN], prelude[PREFIX_LEN..];
      DecodePrelude(hmac, keys, prelude, nonce) == Accepted(a) <==>
        && 0 < a.counter <= MAX_COUNTER
        && ReadOut(tail, PAYLOAD_BITS) == Expected(hmac, keys, nonce, prefix, Packed(tail, TAIL_LEN), a)
    ensures DecodePrelude(hmac, keys, prelude, nonce) != InvalidCounter
  {
    var prefix, tail := prelude[..PREFIX_LEN], prelude[PREFIX_LEN..];
    var high := Packed(tail, TAIL_LEN);
    var payload := PayloadFor(hmac, keys, nonce, prefix, high, a);
    var masked, mask := ReadOut(tail, PAYLOAD_BITS), PreludeMask(hmac, keys, nonce, prefix, high);
    assert Expected(hmac, keys, nonce, prefix, high, a) == Xored(payload, mask);
    if DecodePrelude(hmac, keys, prelude, nonce) == Accepted(a) {
      DecodedPayload(hmac, keys, prelude, nonce);
      XorCancels(masked, mask);
    }
    if 0 < a.counter <= MAX_COUNTER && masked == Xored(payload, mask) {
      XorCancels(payload, mask);
      PayloadParts(hmac, keys, nonce, prefix, high, a);
    }
  }

  lemma DecodedPayload(hmac: Hmac, keys: Keys, prelude: Block, nonce: seq<bv8>)
    requires DecodePrelude(hmac, keys, prelude, nonce).Accepted?
    ensures var prefix, tail := prelude[..PREFIX_LEN], prelude[PREFIX_LEN..];
      var high, a := Packed(tail, TAIL_LEN), DecodePrelude(hmac, keys, prelude, nonce).value;
      && 0 < a.counter <= MAX_COUNTER
      && Xored(ReadOut(tail, PAYLOAD_BITS), PreludeMask(hmac, keys, nonce, prefix, high)) == PayloadFor(hmac, keys, nonce, prefix, high, a)
  {
    var prefix, tail := prelude[..PREFIX_LEN], prelude[PREFIX_LEN..];
    var high := Packed(tail, TAIL_LEN);
    var payload := Xored(ReadOut(tail, PAYLOAD_BITS), PreludeMask(hmac, keys, nonce, prefix, high));
    var who := payload[..IDENTITY_LEN + COUNTER_LEN];
    BytesRoundTrip(who[..IDENTITY_LEN]);
    CounterBytesRoundTrip(who[IDENTITY_LEN..]);
    assert who == who[..IDENTITY_LEN] + who[IDENTITY_LEN..];
    assert payload == who + payload[IDENTITY_LEN + COUNTER_LEN..];
  }

  /** Counters outside 1..2^48-1 are never encoded. */
  lemma IllegalCounterIsRefused(hmac: Hmac, keys: Keys, generated: Block, nonce: seq<bv8>, a: Authenticated)
    ensures EncodePrelude(hmac, keys, generated, nonce, a) == InvalidCounter <==> a.counter == 0 || a.counter > 0xffff_ffff_ffff
  {
  }
}
