/** Target addresses and the TCP open payload (crates/uk-proto/src/target.rs, crates/uk-proto/src/tcp.rs). */
module Targets {
  import opened Bytes
  import opened Protocol
  import opened Domains
  import Varint

  const ADDR_DOMAIN: Byte := 0x01
  const ADDR_IPV4: Byte := 0x02
  const ADDR_IPV6: Byte := 0x03

  type Octets4 = s: seq<Byte> | |s| == 4 witness [0, 0, 0, 0]
  type Octets16 = s: seq<Byte> | |s| == 16 witness [0, 0, 0, 0, 0, 0, 0, 0, 0, 0, 0, 0, 0, 0, 0, 0]

  datatype Target =
    | Domain(name: seq<Byte>, port: U16)
    | Ipv4(octets: Octets4, port: U16)
    | Ipv6(address: Octets16, port: U16)

  function Kind(t: Target): (k: Byte)
  {
    match t case Domain(_, _) => ADDR_DOMAIN case Ipv4(_, _) => ADDR_IPV4 case Ipv6(_, _) => ADDR_IPV6
  }

  function Host(t: Target): (host: seq<Byte>)
  {
    match t case Domain(name, _) => name case Ipv4(octets, _) => octets case Ipv6(octets, _) => octets
  }

  predicate Encodable(t: Target)
  {
    t.port != 0 && (t.Domain? ==> Legal(t.name))
  }

  /** The wire fields of a target, legal or not. */
  datatype Fields = Fields(kind: Byte, host: seq<Byte>, port: U16)

  predicate KnownKind(kind: Byte)
  {
    kind == ADDR_DOMAIN || kind == ADDR_IPV4 || kind == ADDR_IPV6
  }

  /** Whether a declared host length suits the address type. */
  predicate LengthFits(kind: Byte, length: nat)
  {
    if kind == ADDR_DOMAIN then 0 < length <= 255 else if kind == ADDR_IPV4 then length == 4 else length == 16
  }

  predicate Sound(f: Fields)
  {
    KnownKind(f.kind) && LengthFits(f.kind, |f.host|)
  }

  function EncodeFields(f: Fields): (wire: seq<Byte>)
    requires Sound(f)
    ensures 5 <= |wire| <= 260
  {
    [f.kind] + Varint.Encode(|f.host|).value + f.host + BigEndian(2, f.port)
  }

  function DecodeFields(src: seq<Byte>): (r: Parsed<Fields>)
    ensures r.Got? ==> Sound(r.value) && r.used <= |src|
  {
    if src == [] then Fail(Truncated)
    else if !KnownKind(src[0]) then Fail(InvalidTarget)
    else match Varint.Decode(src[1..])
      case Fail(e) => Fail(e)
      case Got(length, n) =>
        if !LengthFits(src[0], length) then Fail(InvalidTarget)
        else if |src| - 1 - n < length + 2 then Fail(Truncated)
        else
          var end := 1 + n + length;
          Got(Fields(src[0], src[1 + n..end], FromBigEndian(src[end..end + 2])), end + 2)
  }

  function FieldsOf(t: Target): (f: Fields)
  {
    Fields(Kind(t), Host(t), t.port)
  }

  /** The target some sound fields stand for. */
  function TargetOf(f: Fields): (t: Target)
    requires Sound(f)
    ensures FieldsOf(t) == f
  {
    if f.kind == ADDR_DOMAIN then Domain(f.host, f.port)
    else if f.kind == ADDR_IPV4 then Ipv4(f.host, f.port)
    else Ipv6(f.host, f.port)
  }

  function Encode(t: Target): (r: Result<seq<Byte>, ProtocolError>)
    ensures r.Ok? <==> Encodable(t)
    ensures r.Err? ==> r.error == InvalidTarget
  {
    if t.port == 0 then Err(InvalidTarget)
    else if t.Domain? && !Legal(t.name) then Err(InvalidTarget)
    else Ok(EncodeFields(FieldsOf(t)))
  }

  function Decode(src: seq<Byte>): (r: Parsed<Target>)
    ensures r.Got? ==> r.used <= |src|
  {
    match DecodeFields(src)
    case Fail(e) => Fail(e)
    case Got(f, used) =>
      if f.port == 0 then Fail(InvalidTarget)
      else if f.kind == ADDR_DOMAIN && !Legal(f.host) then Fail(InvalidTarget)
      else Got(TargetOf(f), used)
  }

  lemma ReadsFields(src: seq<Byte>, f: Fields, n: nat)
    requires Sound(f) && |src| >= 3 + n + |f.host| && src[0] == f.kind && Varint.Decode(src[1..]) == Got(|f.host|, n)
    requires var end := 1 + n + |f.host|; src[1 + n..end] == f.host && FromBigEndian(src[end..end + 2]) == f.port
    ensures DecodeFields(src) == Got(f, 3 + n + |f.host|)
  {
  }

  lemma FieldsRoundTrip(f: Fields, rest: seq<Byte>)
    requires Sound(f)
    ensures DecodeFields(EncodeFields(f) + rest) == Got(f, |EncodeFields(f)|)
  {
    var length, port := Varint.Encode(|f.host|).value, BigEndian(2, f.port);
    Varint.RoundTrip(|f.host|, f.host + (port + rest));
    TwoBytes(f.port, port);
    LaidOutFields(f, length, port, rest);
  }

  lemma LaidOutFields(f: Fields, length: seq<Byte>, port: seq<Byte>, rest: seq<Byte>)
    requires Sound(f) && |port| == 2 && FromBigEndian(port) == f.port
    requires Varint.Decode(length + (f.host + (port + rest))) == Got(|f.host|, |length|)
    ensures DecodeFields([f.kind] + length + f.host + port + rest) == Got(f, 3 + |length| + |f.host|)
  {
    var src := [f.kind] + length + f.host + port + rest;
    Layout([f.kind], length, f.host, port, rest);
    ReadsFields(src, f, |length|);
  }

  /** Where the fields of `[kind] + length + host + port` sit. */
  lemma Layout(kind: seq<Byte>, length: seq<Byte>, host: seq<Byte>, port: seq<Byte>, rest: seq<Byte>)
    requires |kind| == 1
    ensures var s := kind + length + host + port + rest; var n := |kind| + |length|;
      && |s| >= n + |host| + |port| && s[0] == kind[0]
      && s[1..] == length + (host + (port + rest))
      && s[n..n + |host|] == host
      && s[n + |host|..n + |host| + |port|] == port
  {
  }

  lemma FieldsCanonical(src: seq<Byte>)
    requires DecodeFields(src).Got?
    ensures EncodeFields(DecodeFields(src).value) == src[..DecodeFields(src).used]
  {
    var n, f, used := Varint.Decode(src[1..]).used, DecodeFields(src).value, DecodeFields(src).used;
    Varint.Canonical(src[1..]);
    TwoBytes(f.port, src[used - 2..used]);
    Reassemble(src, n, used);
  }

  lemma Reassemble(src: seq<Byte>, n: nat, used: nat)
    requires 3 + n <= used <= |src|
    ensures src[..used] == [src[0]] + src[1..][..n] + src[1 + n..used - 2] + src[used - 2..used]
  {
  }

  /** A target reads back as itself, whatever follows it. */
  lemma RoundTrip(t: Target, rest: seq<Byte>)
    requires Encodable(t)
    ensures Decode(Encode(t).value + rest) == Got(t, |Encode(t).value|)
  {
    FieldsRoundTrip(FieldsOf(t), rest);
  }

  /** Whatever decodes as a target was the one wire form of that target. */
  lemma Canonical(src: seq<Byte>)
    requires Decode(src).Got?
    ensures Encode(Decode(src).value) == Ok(src[..Decode(src).used])
  {
    FieldsCanonical(src);
  }

  // ---------------------------------------------------------------------------------------------
  // TCP open.
  // ---------------------------------------------------------------------------------------------

  const MIN_TCP_RELAY_FRAME_SIZE := 262

  datatype TcpOpen = TcpOpen(target: Target, flags: U16)

  function EncodeOpen(open: TcpOpen): (r: Result<seq<Byte>, ProtocolError>)
    ensures r.Ok? <==> open.flags == 0 && Encodable(open.target)
  {
    if open.flags != 0 then Err(InvalidTcpPayload)
    else
      var target :- Encode(open.target);
      Ok(target + BigEndian(2, open.flags))
  }

  /** What follows the target of an open payload: two flag bytes and nothing else. */
  function DecodeFlags(target: Target, tail: seq<Byte>): (r: Result<TcpOpen, ProtocolError>)
  {
    if |tail| < 2 then Err(Truncated)
    else
      var flags := FromBigEndian(tail[..2]);
      if flags != 0 then Err(InvalidTcpPayload)
      else if |tail| > 2 then Err(InvalidTcpPayload)
      else Ok(TcpOpen(target, flags))
  }

  function DecodeOpen(src: seq<Byte>): (r: Result<TcpOpen, ProtocolError>)
  {
    match Decode(src)
    case Fail(e) => Err(e)
    case Got(target, n) => DecodeFlags(target, src[n..])
  }

  lemma FlagsCanonical(target: Target, tail: seq<Byte>, open: TcpOpen)
    ensures DecodeFlags(target, tail) == Ok(open) <==> open == TcpOpen(target, 0) && tail == BigEndian(2, 0)
  {
    if |tail| >= 2 {
      TwoBytes(0, tail[..2]);
    }
    if |tail| == 2 {
      assert tail[..2] == tail;
    }
  }

  lemma OpenRoundTrip(open: TcpOpen)
    requires EncodeOpen(open).Ok?
    ensures DecodeOpen(EncodeOpen(open).value) == Ok(open)
  {
    var target, flags := Encode(open.target).value, BigEndian(2, open.flags);
    RoundTrip(open.target, flags);
    Parts(target, flags);
    FlagsCanonical(open.target, flags, open);
  }

  lemma OpenCanonical(src: seq<Byte>)
    requires DecodeOpen(src).Ok?
    ensures EncodeOpen(DecodeOpen(src).value) == Ok(src)
  {
    var n := Decode(src).used;
    Canonical(src);
    FlagsCanonical(Decode(src).value, src[n..], DecodeOpen(src).value);
    Splits(src, n);
  }

  /** Payloads and their wire forms determine each other. */
  lemma OpenIsCanonical(open: TcpOpen, src: seq<Byte>)
    ensures DecodeOpen(src) == Ok(open) <==> EncodeOpen(open) == Ok(src)
  {
    if EncodeOpen(open) == Ok(src) {
      OpenRoundTrip(open);
    }
    if DecodeOpen(src) == Ok(open) {
      OpenCanonical(src);
    }
  }

  const LETTER_A: Byte := 97

  /** Four labels of 63 letters: a legal name of the full 255 bytes. */
  function LongestName(): (name: seq<Byte>)
  {
    Join([Fill(63, LETTER_A), Fill(63, LETTER_A), Fill(63, LETTER_A), Fill(63, LETTER_A)])
  }

  lemma LongestNameIsLegal()
    ensures Legal(LongestName()) && |LongestName()| == 255
  {
    var lab := Fill(63, LETTER_A);
    var labels := [lab, lab, lab, lab];
    assert labels[1..] == [lab, lab, lab];
    assert [lab, lab, lab][1..] == [lab, lab];
    assert [lab, lab][1..] == [lab];
    assert Join([lab, lab]) == lab + [DOT] + Join([lab]);
    assert Join([lab, lab, lab]) == lab + [DOT] + Join([lab, lab]);
    assert !Digit(lab[0]);
    assert !IpShapedLabel(labels[0]);
    LegalFromLabels(labels);
  }

  /** Every TCP open payload fits the smallest negotiable frame, and one fills it. */
  lemma OpenFitsSmallestFrame(open: TcpOpen)
    ensures EncodeOpen(open).Ok? ==> |EncodeOpen(open).value| <= MIN_TCP_RELAY_FRAME_SIZE
    ensures var longest := TcpOpen(Domain(LongestName(), 1), 0);
      EncodeOpen(longest).Ok? && |EncodeOpen(longest).value| == MIN_TCP_RELAY_FRAME_SIZE
  {
    LongestNameIsLegal();
    assert Varint.EncodedLen(255) == Ok(2);
  }

  // ---------------------------------------------------------------------------------------------
  // Refusals and bytes.
  // ---------------------------------------------------------------------------------------------

  /** A known type and a length that does not suit it are judged before the rest is there. */
  lemma TypeAndLengthDecide(kind: Byte, length: U64, rest: seq<Byte>)
    requires length <= Varint.MAX_VARINT
    ensures kind !in {1, 2, 3} ==> Decode([kind] + rest) == Fail(InvalidTarget)
    ensures kind in {1, 2, 3} && !LengthFits(kind, length) ==> Decode([kind] + Varint.Encode(length).value + rest) == Fail(InvalidTarget)
    ensures LengthFits(1, length) <==> 1 <= length <= 255
    ensures LengthFits(2, length) <==> length == 4
    ensures LengthFits(3, length) <==> length == 16
  {
    var src := [kind] + Varint.Encode(length).value + rest;
    assert src[1..] == Varint.Encode(length).value + rest;
    Varint.RoundTrip(length, rest);
  }

  /** Whole fields with port zero or an illegal name are refused, whatever follows. */
  lemma UnsoundTargetIsRefused(f: Fields, rest: seq<Byte>)
    requires Sound(f) && (f.port == 0 || (f.kind == 1 && !Legal(f.host)))
    ensures Decode(EncodeFields(f) + rest) == Fail(InvalidTarget)
  {
    FieldsRoundTrip(f, rest);
  }

  /** A strict prefix of a target's wire form wants more bytes. */
  lemma PartOfTargetIsTruncated(f: Fields, part: seq<Byte>)
    requires Sound(f) && part < EncodeFields(f)
    ensures Decode(part) == Fail(Truncated)
  {
    var length := Varint.Encode(|f.host|).value;
    var wire := EncodeFields(f);
    if part != [] {
      assert part[0] == f.kind;
      if |part| < 1 + |length| {
        assert part[1..] < length by { assert wire[1..][..|length|] == length; }
        Varint.PartIsTruncated(|f.host|, part[1..]);
      } else {
        var more := part[1 + |length|..];
        assert part[1..] == length + more by { assert wire[1..][..|length|] == length; }
        Varint.RoundTrip(|f.host|, more);
      }
    }
  }

  /** The bytes of a target: type, length, host, port. */
  lemma TargetBytes(octets: Octets4, address: Octets16, name: seq<Byte>, port: U16)
    requires port != 0 && Legal(name) && |name| < 0x40
    ensures Encode(Ipv4(octets, port)) == Ok([2, 4] + octets + [(port / 256) as Byte, (port % 256) as Byte])
    ensures Encode(Ipv6(address, port)) == Ok([3, 16] + address + [(port / 256) as Byte, (port % 256) as Byte])
    ensures Encode(Domain(name, port)) == Ok([1, |name| as Byte] + name + [(port / 256) as Byte, (port % 256) as Byte])
  {
    FieldBytes(port);
    Varint.EncodedBytes(4);
    Varint.EncodedBytes(16);
    Varint.EncodedBytes(|name|);
    var tail := [(port / 256) as Byte, (port % 256) as Byte];
    assert [2] + [4] + octets + tail == [2, 4] + octets + tail;
    assert [3] + [16] + address + tail == [3, 16] + address + tail;
    assert [1] + [|name| as Byte] + name + tail == [1, |name| as Byte] + name + tail;
  }

  /** What may follow the target of an open payload: two zero bytes; a short, flagged or longer tail is refused. */
  lemma OpenTailDecides(target: Target, tail: seq<Byte>)
    requires Encodable(target)
    ensures DecodeOpen(Encode(target).value + tail) ==
      if |tail| < 2 then Err(Truncated)
      else if tail == [0, 0] then Ok(TcpOpen(target, 0))
      else Err(InvalidTcpPayload)
  {
    RoundTrip(target, tail);
    Parts(Encode(target).value, tail);
    if |tail| >= 2 {
      TwoByteValue(tail[..2]);
    }
  }

  /** Flags other than zero never encode. */
  lemma FlaggedOpenIsRefused(open: TcpOpen)
    ensures open.flags != 0 ==> EncodeOpen(open) == Err(InvalidTcpPayload)
    ensures open.flags == 0 && Encodable(open.target) ==> EncodeOpen(open) == Ok(Encode(open.target).value + [0, 0])
  {
    FieldBytes(0);
  }
}
