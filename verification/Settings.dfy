/** SETTINGS payloads and their negotiation (crates/uk-proto/src/settings.rs). */
module Settings {
  import opened Bytes
  import opened Protocol
  import Targets
  import Varint

  const DEFAULT_MAX_FRAME_SIZE: U64 := 65_536
  const MAX_FRAME_PAYLOAD_SIZE: U64 := 16 * 1024 * 1024
  const DEFAULT_MAX_STREAMS: U64 := 64
  const MAX_NEGOTIATED_FLOWS: U64 := 1_000_000
  const MAX_NEGOTIATED_IDLE_TIMEOUT_SECONDS: U64 := 30 * 24 * 60 * 60
  const PROTOCOL_REVISION_V1_0: U64 := 2

  /** The registered keys, by their wire numbers. */
  type SettingKey = k: int | 1 <= k <= 7 witness 1

  const MAX_FRAME_SIZE: SettingKey := 1
  const MAX_STREAMS: SettingKey := 2
  const MAX_UDP_FLOWS: SettingKey := 3
  const SUPPORTS_UDP_DATAGRAM: SettingKey := 4
  const SUPPORTS_UDP_STREAM_FALLBACK: SettingKey := 5
  const IDLE_TIMEOUT_SECONDS: SettingKey := 6
  const PROTOCOL_REVISION: SettingKey := 7

  type Values = map<SettingKey, U64>

  // ---------------------------------------------------------------------------------------------
  // Encoding.
  // ---------------------------------------------------------------------------------------------

  datatype Entry = Entry(key: U64, value: U64)

  /** The entries of the keys below `upto`, in key order. */
  function Below(values: Values, upto: nat): (entries: seq<Entry>)
    requires 1 <= upto <= 8
    ensures |entries| < upto
  {
    if upto == 1 then []
    else Below(values, upto - 1) + if upto - 1 in values then [Entry(upto - 1, values[upto - 1])] else []
  }

  predicate Small(values: Values)
  {
    forall k :: k in values ==> values[k] <= Varint.MAX_VARINT
  }

  function EncodeEntries(entries: seq<Entry>): (r: Result<seq<Byte>, ProtocolError>)
  {
    if entries == [] then Ok([])
    else
      var wire :- EncodeEntries(entries[..|entries| - 1]);
      var last :- Varint.EncodePair(entries[|entries| - 1].key, entries[|entries| - 1].value);
      Ok(wire + last)
  }

  function Encode(values: Values): (r: Result<seq<Byte>, ProtocolError>)
  {
    var entries := Below(values, 8);
    var wire :- EncodeEntries(entries);
    Ok(Varint.Encode(|entries|).value + wire)
  }

  lemma {:induction false} EntriesEncodeIff(values: Values, upto: nat)
    requires 1 <= upto <= 8
    ensures EncodeEntries(Below(values, upto)).Ok? <==>
      forall k: SettingKey :: k in values && k < upto ==> values[k] <= Varint.MAX_VARINT
    decreases upto
  {
    if upto > 1 {
      EntriesEncodeIff(values, upto - 1);
      if upto - 1 in values {
        var entries := Below(values, upto);
        assert entries[..|entries| - 1] == Below(values, upto - 1);
      } else {
        assert Below(values, upto) == Below(values, upto - 1);
      }
    }
  }

  /** Settings encode exactly when every value fits a varint. */
  lemma EncodesIffSmall(values: Values)
    ensures Encode(values).Ok? <==> Small(values)
  {
    EntriesEncodeIff(values, 8);
  }

  // ---------------------------------------------------------------------------------------------
  // Decoding.
  // ---------------------------------------------------------------------------------------------

  /** Reads one more entry into `values`: an unknown key is skipped, a known one may not repeat. */
  function DecodeEntry(src: seq<Byte>, values: Values): (r: Result<(Values, seq<Byte>), ProtocolError>)
  {
    match Varint.DecodePair(src)
    case Fail(e) => Err(e)
    case Got((key, value), n) =>
      if !(1 <= key <= 7) then Ok((values, src[n..]))
      else if key in values then Err(InvalidSettings)
      else Ok((values[key := value], src[n..]))
  }

  /** What `count` entries at the front of `src` amount to, and what follows them. */
  function DecodeEntries(src: seq<Byte>, count: nat): (r: Result<(Values, seq<Byte>), ProtocolError>)
  {
    if count == 0 then Ok((map[], src))
    else
      var (values, rest) :- DecodeEntries(src, count - 1);
      DecodeEntry(rest, values)
  }

  function Decode(src: seq<Byte>): (r: Result<Values, ProtocolError>)
  {
    match Varint.Decode(src)
    case Fail(e) => Err(e)
    case Got(count, n) =>
      match DecodeEntries(src[n..], count)
      case Err(e) => Err(e)
      case Ok((values, rest)) => if rest == [] then Ok(values) else Err(InvalidSettings)
  }

  lemma {:induction false} ErrorIsFinal(src: seq<Byte>, count: nat, total: nat)
    requires count <= total && DecodeEntries(src, count).Err?
    ensures DecodeEntries(src, total) == DecodeEntries(src, count)
    decreases total - count
  {
    if count < total {
      ErrorIsFinal(src, count + 1, total);
    }
  }

  /** The decoding loop. */
  method DecodeSettings(src: seq<Byte>) returns (r: Result<Values, ProtocolError>)
    ensures r == Decode(src)
  {
    var first := Varint.Decode(src);
    if first.Fail? {
      return Err(first.error);
    }
    var rest, settings: Values := src[first.used..], map[];
    for i := 0 to first.value
      invariant DecodeEntries(src[first.used..], i) == Ok((settings, rest))
    {
      var step := DecodeEntry(rest, settings);
      if step.Err? {
        ErrorIsFinal(src[first.used..], i + 1, first.value);
        return Err(step.error);
      }
      settings, rest := step.value.0, step.value.1;
    }
    r := if rest == [] then Ok(settings) else Err(InvalidSettings);
  }

  // ---------------------------------------------------------------------------------------------
  // Decoded values are varints.
  // ---------------------------------------------------------------------------------------------

  lemma EntryKeepsSmall(src: seq<Byte>, values: Values)
    requires Small(values) && DecodeEntry(src, values).Ok?
    ensures Small(DecodeEntry(src, values).value.0)
  {
  }

  lemma {:induction false} DecodedAreSmall(src: seq<Byte>, count: nat)
    requires DecodeEntries(src, count).Ok?
    ensures Small(DecodeEntries(src, count).value.0)
  {
    if count > 0 {
      var (values, rest) := DecodeEntries(src, count - 1).value;
      DecodedAreSmall(src, count - 1);
      EntryKeepsSmall(rest, values);
    }
  }

  // ---------------------------------------------------------------------------------------------
  // Negotiation.
  // ---------------------------------------------------------------------------------------------

  datatype Negotiated = Negotiated(
    maxFrameSize: U64,
    maxStreams: U64,
    maxUdpFlows: U64,
    supportsUdpDatagram: bool,
    supportsUdpStreamFallback: bool,
    idleTimeoutSeconds: U64)

  function Get(values: Values, key: SettingKey, default: U64): (value: U64)
  {
    if key in values then values[key] else default
  }

  predicate AtMost(values: Values, key: SettingKey, maximum: U64)
  {
    key in values ==> values[key] <= maximum
  }

  function Negotiate(values: Values): (r: Result<Negotiated, ProtocolError>)
  {
    if PROTOCOL_REVISION !in values || values[PROTOCOL_REVISION] != PROTOCOL_REVISION_V1_0 then Err(InvalidSettings)
    else if MAX_FRAME_SIZE in values && values[MAX_FRAME_SIZE] < Targets.MIN_TCP_RELAY_FRAME_SIZE then Err(InvalidSettings)
    else if MAX_STREAMS in values && values[MAX_STREAMS] == 0 then Err(InvalidSettings)
    else if !AtMost(values, SUPPORTS_UDP_DATAGRAM, 1) || !AtMost(values, SUPPORTS_UDP_STREAM_FALLBACK, 1) then Err(InvalidSettings)
    else if !AtMost(values, MAX_FRAME_SIZE, MAX_FRAME_PAYLOAD_SIZE) then Err(InvalidSettings)
    else if !AtMost(values, MAX_STREAMS, MAX_NEGOTIATED_FLOWS) then Err(InvalidSettings)
    else if !AtMost(values, MAX_UDP_FLOWS, MAX_NEGOTIATED_FLOWS) then Err(InvalidSettings)
    else if !AtMost(values, IDLE_TIMEOUT_SECONDS, MAX_NEGOTIATED_IDLE_TIMEOUT_SECONDS) then Err(InvalidSettings)
    else
      var maxStreams := Get(values, MAX_STREAMS, DEFAULT_MAX_STREAMS);
      var maxUdpFlows := Get(values, MAX_UDP_FLOWS, maxStreams);
      if maxUdpFlows > maxStreams then Err(InvalidSettings)
      else Ok(Negotiated(
        Get(values, MAX_FRAME_SIZE, DEFAULT_MAX_FRAME_SIZE),
        maxStreams,
        maxUdpFlows,
        Get(values, SUPPORTS_UDP_DATAGRAM, 0) != 0,
        Get(values, SUPPORTS_UDP_STREAM_FALLBACK, 1) != 0,
        Get(values, IDLE_TIMEOUT_SECONDS, 0)))
  }

  /** Every setting a negotiated session runs with, spelled out. */
  function Spelled(n: Negotiated): (values: Values)
  {
    map[MAX_FRAME_SIZE := n.maxFrameSize, MAX_STREAMS := n.maxStreams, MAX_UDP_FLOWS := n.maxUdpFlows,
        SUPPORTS_UDP_DATAGRAM := if n.supportsUdpDatagram then 1 else 0,
        SUPPORTS_UDP_STREAM_FALLBACK := if n.supportsUdpStreamFallback then 1 else 0,
        IDLE_TIMEOUT_SECONDS := n.idleTimeoutSeconds, PROTOCOL_REVISION := PROTOCOL_REVISION_V1_0]
  }

  /** The bounds the protocol puts on a session. */
  predicate WithinProtocol(n: Negotiated)
  {
    && Targets.MIN_TCP_RELAY_FRAME_SIZE <= n.maxFrameSize <= MAX_FRAME_PAYLOAD_SIZE
    && 0 < n.maxStreams <= MAX_NEGOTIATED_FLOWS && n.maxUdpFlows <= n.maxStreams
    && n.idleTimeoutSeconds <= MAX_NEGOTIATED_IDLE_TIMEOUT_SECONDS
  }

  /** Spelled out, exactly the sessions within bounds negotiate to themselves, and the others to nothing. */
  lemma SpelledNegotiatesIff(n: Negotiated)
    ensures Negotiate(Spelled(n)) == if WithinProtocol(n) then Ok(n) else Err(InvalidSettings)
  {
  }

  /** Defaults negotiate like any other value: what came out, spelled out, comes out again. */
  lemma NegotiationIsStable(values: Values)
    requires Negotiate(values).Ok?
    ensures Negotiate(Spelled(Negotiate(values).value)) == Negotiate(values)
  {
  }

  /** Every negotiated session can carry every TCP open payload in one frame, and has streams to carry it on. */
  lemma NegotiatedCarriesOpens(values: Values, open: Targets.TcpOpen)
    requires Negotiate(values).Ok? && Targets.EncodeOpen(open).Ok?
    ensures var n := Negotiate(values).value;
      |Targets.EncodeOpen(open).value| <= n.maxFrameSize <= MAX_FRAME_PAYLOAD_SIZE && n.maxUdpFlows <= n.maxStreams && 0 < n.maxStreams
  {
    Targets.OpenFitsSmallestFrame(open);
  }

  // ---------------------------------------------------------------------------------------------
  // Any list of entries.
  // ---------------------------------------------------------------------------------------------

  lemma KeyNumbers()
    ensures [MAX_FRAME_SIZE, MAX_STREAMS, MAX_UDP_FLOWS, SUPPORTS_UDP_DATAGRAM, SUPPORTS_UDP_STREAM_FALLBACK,
             IDLE_TIMEOUT_SECONDS, PROTOCOL_REVISION] == [1, 2, 3, 4, 5, 6, 7]
  {
  }

  predicate Known(e: Entry)
  {
    1 <= e.key <= 7
  }

  predicate AllFit(entries: seq<Entry>)
  {
    forall i :: 0 <= i < |entries| ==> entries[i].key <= Varint.MAX_VARINT && entries[i].value <= Varint.MAX_VARINT
  }

  /** Some known key comes twice. */
  predicate Repeats(entries: seq<Entry>)
  {
    exists i, j :: 0 <= i < j < |entries| && Known(entries[i]) && entries[i].key == entries[j].key
  }

  /** The settings hold the known entries, each under its key, and nothing else. */
  predicate Holds(values: Values, entries: seq<Entry>)
  {
    && (forall i :: 0 <= i < |entries| && Known(entries[i]) ==> entries[i].key in values && values[entries[i].key] == entries[i].value)
    && (forall k :: k in values ==> exists i :: 0 <= i < |entries| && entries[i].key == k)
  }

  /** What decoding some entries must come to: a repeated known key is an error, unknown keys are dropped, order is free. */
  predicate Means(entries: seq<Entry>, r: Result<Values, ProtocolError>)
  {
    if Repeats(entries) then r == Err(InvalidSettings) else r.Ok? && Holds(r.value, entries)
  }

  function Drop(r: Result<(Values, seq<Byte>), ProtocolError>): (v: Result<Values, ProtocolError>)
  {
    match r case Ok((values, _)) => Ok(values) case Err(e) => Err(e)
  }

  lemma {:induction false} EntriesDecode(entries: seq<Entry>, tail: seq<Byte>)
    requires AllFit(entries)
    ensures EncodeEntries(entries).Ok?
    ensures var r := DecodeEntries(EncodeEntries(entries).value + tail, |entries|);
      Means(entries, Drop(r)) && (r.Ok? ==> r.value.1 == tail)
    decreases |entries|
  {
    if entries != [] {
      var init, e := entries[..|entries| - 1], entries[|entries| - 1];
      var last := Varint.EncodePair(e.key, e.value).value;
      EntriesDecode(init, last + tail);
      Associates(EncodeEntries(init).value, last, tail);
      assert entries == init + [e];
      OneMoreDecodes(init, e, DecodeEntries(EncodeEntries(init).value + (last + tail), |init|), tail);
    }
  }

  lemma OneMoreDecodes(init: seq<Entry>, e: Entry, before: Result<(Values, seq<Byte>), ProtocolError>, tail: seq<Byte>)
    requires e.key <= Varint.MAX_VARINT && e.value <= Varint.MAX_VARINT && Means(init, Drop(before))
    requires before.Ok? ==> before.value.1 == Varint.EncodePair(e.key, e.value).value + tail
    ensures var r := match before case Err(error) => Err(error) case Ok((values, rest)) => DecodeEntry(rest, values);
      Means(init + [e], Drop(r)) && (r.Ok? ==> r.value.1 == tail)
  {
    if before.Ok? {
      EntryDecodes(e, before.value.0, tail);
      MeansMore(init, e, before.value.0);
    } else {
      RepeatsMore(init, e);
    }
  }

  /** One entry: an unknown key changes nothing, a known one is added, a repeated one is an error. */
  lemma EntryDecodes(e: Entry, values: Values, tail: seq<Byte>)
    requires e.key <= Varint.MAX_VARINT && e.value <= Varint.MAX_VARINT
    ensures DecodeEntry(Varint.EncodePair(e.key, e.value).value + tail, values) ==
      if !Known(e) then Ok((values, tail))
      else if e.key in values then Err(InvalidSettings)
      else Ok((values[e.key := e.value], tail))
  {
    Varint.PairRoundTrip(e.key, e.value, tail);
    Parts(Varint.EncodePair(e.key, e.value).value, tail);
  }

  lemma RepeatsMore(init: seq<Entry>, e: Entry)
    requires Repeats(init)
    ensures Repeats(init + [e])
  {
    var i, j :| 0 <= i < j < |init| && Known(init[i]) && init[i].key == init[j].key;
    assert (init + [e])[i] == init[i] && (init + [e])[j] == init[j];
  }

  lemma MeansMore(init: seq<Entry>, e: Entry, values: Values)
    requires !Repeats(init) && Holds(values, init)
    ensures !Known(e) ==> Means(init + [e], Ok(values))
    ensures Known(e) && e.key in values ==> Repeats(init + [e])
    ensures Known(e) && e.key !in values ==> Means(init + [e], Ok(values[e.key := e.value]))
  {
    var entries := init + [e];
    assert forall i :: 0 <= i < |init| ==> entries[i] == init[i];
    assert entries[|init|] == e;
    if Known(e) && e.key in values {
      var i :| 0 <= i < |init| && init[i].key == e.key;
      assert entries[i].key == entries[|init|].key;
    } else {
      NoNewRepeat(init, e, values);
      forall k | k in values
        ensures exists i :: 0 <= i < |entries| && entries[i].key == k
      {
        var i :| 0 <= i < |init| && init[i].key == k;
        assert entries[i].key == k;
      }
    }
  }

  lemma NoNewRepeat(init: seq<Entry>, e: Entry, values: Values)
    requires !Repeats(init) && Holds(values, init) && (Known(e) ==> e.key !in values)
    ensures !Repeats(init + [e])
  {
    var entries := init + [e];
    forall i, j | 0 <= i < j < |entries| && Known(entries[i])
      ensures entries[i].key != entries[j].key
    {
      assert entries[i] == init[i];
      if j < |init| {
        assert entries[j] == init[j];
      }
    }
  }

  /**
   Every list of entries a peer can send, in any order, with repeats and unknown keys: it decodes to the
   known ones, unless a known one repeats; and nothing may follow it.
   */
  lemma PayloadDecodes(entries: seq<Entry>, extra: seq<Byte>)
    requires AllFit(entries) && |entries| <= Varint.MAX_VARINT
    ensures EncodeEntries(entries).Ok?
    ensures var wire := Varint.Encode(|entries|).value + EncodeEntries(entries).value;
      && Means(entries, Decode(wire))
      && (extra != [] ==> Decode(wire + extra) == Err(InvalidSettings))
  {
    EntriesDecode(entries, []);
    EntriesDecode(entries, extra);
    var count, body := Varint.Encode(|entries|).value, EncodeEntries(entries).value;
    assert body + [] == body;
    Varint.RoundTrip(|entries|, body);
    Parts(count, body);
    Varint.RoundTrip(|entries|, body + extra);
    Parts(count, body + extra);
    Associates(count, body, extra);
  }

  /** The entries below a key, by index: known, of the map, in strictly rising order. */
  lemma {:induction false} BelowAt(values: Values, upto: nat, i: nat, j: nat)
    requires 1 <= upto <= 8 && i <= j < |Below(values, upto)|
    ensures var e, f := Below(values, upto)[i], Below(values, upto)[j];
      && Known(e) && e.key < upto && e.key in values && values[e.key] == e.value
      && f.key < upto && (i < j ==> e.key < f.key)
    decreases upto
  {
    var init := Below(values, upto - 1);
    if j < |init| {
      BelowAt(values, upto - 1, i, j);
    } else if i < j {
      BelowAt(values, upto - 1, i, i);
    }
  }

  /** Every key of the map has its entry. */
  lemma {:induction false} BelowHas(values: Values, upto: nat, k: SettingKey) returns (i: nat)
    requires 1 <= upto <= 8 && k in values && k < upto
    ensures i < |Below(values, upto)| && Below(values, upto)[i] == Entry(k, values[k])
    decreases upto
  {
    if k == upto - 1 {
      i := |Below(values, upto - 1)|;
    } else {
      i := BelowHas(values, upto - 1, k);
    }
  }

  lemma HeldBelowIsSame(values: Values, held: Values)
    requires Holds(held, Below(values, 8))
    ensures held == values
  {
    var entries := Below(values, 8);
    forall k | k in values
      ensures k in held && held[k] == values[k]
    {
      var i := BelowHas(values, 8, k);
      assert Known(entries[i]);
    }
    forall k | k in held
      ensures k in values
    {
      var i :| 0 <= i < |entries| && entries[i].key == k;
      BelowAt(values, 8, i, i);
    }
  }

  /** Settings whose values fit a varint encode, and decode to themselves. */
  lemma RoundTrip(values: Values)
    requires Small(values)
    ensures Encode(values).Ok? && Decode(Encode(values).value) == Ok(values)
  {
    var entries := Below(values, 8);
    forall i, j | 0 <= i <= j < |entries|
      ensures entries[i].key in values && entries[i].value == values[entries[i].key] && entries[i].key <= 7
      ensures i < j ==> entries[i].key != entries[j].key
    {
      BelowAt(values, 8, i, j);
    }
    assert AllFit(entries) && !Repeats(entries);
    PayloadDecodes(entries, []);
    EntriesDecode(entries, []);
    HeldBelowIsSame(values, Decode(Encode(values).value).value);
  }

  /** Decoding any payload and encoding the result again changes nothing a decoder can see. */
  lemma ReencodingIsIdempotent(src: seq<Byte>)
    requires Decode(src).Ok?
    ensures Encode(Decode(src).value).Ok? && Decode(Encode(Decode(src).value).value) == Decode(src)
  {
    var first := Varint.Decode(src);
    DecodedAreSmall(src[first.used..], first.value);
    RoundTrip(Decode(src).value);
  }

  // ---------------------------------------------------------------------------------------------
  // Defaults.
  // ---------------------------------------------------------------------------------------------

  /** The settings in `dropped` have their default values in this session. */
  predicate AtDefault(n: Negotiated, dropped: set<SettingKey>)
  {
    && (1 in dropped ==> n.maxFrameSize == 65_536) && (2 in dropped ==> n.maxStreams == 64)
    && (3 in dropped ==> n.maxUdpFlows == n.maxStreams) && (4 in dropped ==> !n.supportsUdpDatagram)
    && (5 in dropped ==> n.supportsUdpStreamFallback) && (6 in dropped ==> n.idleTimeoutSeconds == 0) && 7 !in dropped
  }

  /** Leaving out any settings that have their defaults makes no difference. */
  lemma DefaultsAreFilledIn(n: Negotiated, dropped: set<SettingKey>)
    requires WithinProtocol(n) && AtDefault(n, dropped)
    ensures Negotiate(Spelled(n) - dropped) == Ok(n)
  {
  }

  /** What negotiates has the protocol revision, comes within bounds and keeps every value the peer sent. */
  lemma NegotiatesOnlyWithin(values: Values, n: Negotiated, k: SettingKey)
    requires Negotiate(values) == Ok(n)
    ensures 7 in values && values[7] == 2 && WithinProtocol(n)
    ensures k in values ==> Spelled(n)[k] == values[k]
  {
    assert k in {1, 2, 3, 4, 5, 6, 7};
  }

  /** Every refusal to negotiate is an invalid-settings error. */
  lemma NegotiationError(values: Values)
    ensures Negotiate(values).Err? ==> Negotiate(values).error == InvalidSettings
    ensures 7 !in values || values[7] != 2 ==> Negotiate(values).Err?
  {
  }
}
