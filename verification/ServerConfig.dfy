/** Server limits, their validation and the SETTINGS they advertise (crates/uk-server/src/config.rs, lib.rs). */
module ServerConfig {
  import opened Bytes
  import opened Protocol
  import opened Settings
  import AuthCodec
  import Targets

  const MAX_AUTH_SKEW_SECONDS: U64 := 300

  /** The configured limits that SETTINGS and the replay cache depend on. */
  datatype Config = Config(
    authSkew: Option<U64>,
    preAuthBytes: Option<U64>,
    frameSize: Option<U64>,
    streams: Option<U64>,
    udpFlows: Option<U64>,
    idleTimeout: Option<U64>,
    replayWindow: Option<U64>,
    replayEntries: Option<U64>)
  {
    function AuthSkewSeconds(): (value: U64) { authSkew.Or(30) }
    function MaxPreAuthBytes(): (value: U64) { preAuthBytes.Or(4096) }
    function MaxFrameSize(): (value: U64) { frameSize.Or(65_536) }
    function MaxStreams(): (value: U64) { streams.Or(64) }
    function MaxUdpFlows(): (value: U64) { udpFlows.Or(MaxStreams()) }
    function IdleTimeoutSeconds(): (value: U64) { idleTimeout.Or(300) }
    function ReplayWindowSeconds(): (value: U64) { replayWindow.Or(300) }
    function ReplayMaxEntries(): (value: U64) { replayEntries.Or(65_536) }
  }

  /** `skew.saturating_mul(2)`. */
  function Doubled(skew: U64): (d: U64)
  {
    if 2 * skew < 0x1_0000_0000_0000_0000 then 2 * skew else 0xffff_ffff_ffff_ffff
  }

  predicate ReplayCoversSkew(c: Config)
  {
    c.ReplayWindowSeconds() >= Doubled(c.AuthSkewSeconds())
  }

  predicate ValidLimits(c: Config)
  {
    && AuthCodec.MIN_AUTH_RESPONSE_PAYLOAD_SIZE <= c.MaxPreAuthBytes() <= MAX_FRAME_PAYLOAD_SIZE
    && Targets.MIN_TCP_RELAY_FRAME_SIZE <= c.MaxFrameSize() <= MAX_FRAME_PAYLOAD_SIZE
    && 0 < c.MaxStreams() <= MAX_NEGOTIATED_FLOWS
    && c.MaxUdpFlows() <= c.MaxStreams() && c.MaxUdpFlows() <= MAX_NEGOTIATED_FLOWS
    && c.ReplayWindowSeconds() != 0 && c.ReplayMaxEntries() != 0
    && 0 < c.AuthSkewSeconds() <= MAX_AUTH_SKEW_SECONDS
    && c.IdleTimeoutSeconds() <= MAX_NEGOTIATED_IDLE_TIMEOUT_SECONDS
    && ReplayCoversSkew(c)
  }

  /** The session the configuration asks for: its own limits, UDP only while flows are allowed. */
  function Intended(c: Config, supportsUdpDatagram: bool): (n: Negotiated)
  {
    var udp := c.MaxUdpFlows() != 0;
    Negotiated(c.MaxFrameSize(), c.MaxStreams(), c.MaxUdpFlows(), supportsUdpDatagram && udp, udp, c.IdleTimeoutSeconds())
  }

  /** The peer reads settings off the wire and settles on this session. */
  predicate Settles(settings: Values, n: Negotiated)
  {
    var wire := Settings.Encode(settings);
    wire.Ok? && Settings.Decode(wire.value).Ok? && Negotiate(Settings.Decode(wire.value).value) == Ok(n)
  }

  /**
   What the server tells a client about itself, filled key by key. A peer settles on exactly the session
   intended whenever that session is within the protocol's bounds, as it is for every accepted configuration.
   */
  method ServerSettings(c: Config, supportsUdpDatagram: bool) returns (settings: Values)
    ensures ValidLimits(c) ==> Settles(settings, Intended(c, supportsUdpDatagram))
    ensures Settles(settings, Intended(c, supportsUdpDatagram)) <==> WithinProtocol(Intended(c, supportsUdpDatagram))
  {
    settings := map[];
    settings := settings[PROTOCOL_REVISION := PROTOCOL_REVISION_V1_0];
    settings := settings[MAX_FRAME_SIZE := c.MaxFrameSize()];
    settings := settings[MAX_STREAMS := c.MaxStreams()];
    settings := settings[MAX_UDP_FLOWS := c.MaxUdpFlows()];
    settings := settings[SUPPORTS_UDP_DATAGRAM := if supportsUdpDatagram && c.MaxUdpFlows() != 0 then 1 else 0];
    settings := settings[SUPPORTS_UDP_STREAM_FALLBACK := if c.MaxUdpFlows() != 0 then 1 else 0];
    settings := settings[IDLE_TIMEOUT_SECONDS := c.IdleTimeoutSeconds()];
    assert settings == Spelled(Intended(c, supportsUdpDatagram));
    SettlesIff(Intended(c, supportsUdpDatagram));
    if ValidLimits(c) {
      ValidIsWithin(c, supportsUdpDatagram);
    }
  }

  /** A session spelled out on the wire is settled on exactly when it is within the protocol's bounds. */
  lemma SettlesIff(n: Negotiated)
    ensures Settles(Spelled(n), n) <==> WithinProtocol(n)
  {
    SpelledNegotiatesIff(n);
    if WithinProtocol(n) {
      Settings.RoundTrip(Spelled(n));
    } else if Settings.Encode(Spelled(n)).Ok? && Settings.Decode(Settings.Encode(Spelled(n)).value).Ok? {
      EncodesIffSmall(Spelled(n));
      Settings.RoundTrip(Spelled(n));
    }
  }

  lemma ValidIsWithin(c: Config, supportsUdpDatagram: bool)
    requires ValidLimits(c)
    ensures WithinProtocol(Intended(c, supportsUdpDatagram))
  {
  }

  /**
   The SETTINGS of every accepted configuration encode, decode at the peer and negotiate to exactly the
   configured limits, UDP being offered only when flows are allowed.
   */
  lemma AdvertisedLimitsAreNegotiated(c: Config, supportsUdpDatagram: bool)
    requires ValidLimits(c)
    ensures Settles(Spelled(Intended(c, supportsUdpDatagram)), Intended(c, supportsUdpDatagram))
  {
    ValidIsWithin(c, supportsUdpDatagram);
    SettlesIff(Intended(c, supportsUdpDatagram));
  }

  /** What a configuration says about sessions is accepted exactly within the protocol's bounds; the rest is about authentication. */
  lemma ValidLimitsIff(c: Config, supportsUdpDatagram: bool)
    ensures ValidLimits(c) <==>
      && WithinProtocol(Intended(c, supportsUdpDatagram))
      && 75 <= c.MaxPreAuthBytes() <= 16_777_216 && 0 < c.AuthSkewSeconds() <= 300
      && c.ReplayMaxEntries() > 0 && c.ReplayWindowSeconds() >= 2 * c.AuthSkewSeconds()
  {
  }

  /** An empty configuration is accepted and asks for the default session. */
  lemma DefaultsAreValid(supportsUdpDatagram: bool)
    ensures var c := Config(None, None, None, None, None, None, None, None);
      && ValidLimits(c) && Intended(c, supportsUdpDatagram) == Negotiated(65_536, 64, 64, supportsUdpDatagram, true, 300)
      && c.AuthSkewSeconds() == 30 && c.ReplayWindowSeconds() == 300 && c.ReplayMaxEntries() == 65_536 && c.MaxPreAuthBytes() == 4096
  {
  }

  /** A limit that is set is the limit that counts. */
  lemma SetLimitsCount(c: Config)
    ensures (c.frameSize.Some? ==> c.MaxFrameSize() == c.frameSize.value) && (c.streams.Some? ==> c.MaxStreams() == c.streams.value)
    ensures c.MaxUdpFlows() == if c.udpFlows.Some? then c.udpFlows.value else c.MaxStreams()
    ensures c.idleTimeout.Some? ==> c.IdleTimeoutSeconds() == c.idleTimeout.value
    ensures c.authSkew.Some? ==> c.AuthSkewSeconds() == c.authSkew.value
    ensures c.preAuthBytes.Some? ==> c.MaxPreAuthBytes() == c.preAuthBytes.value
    ensures c.replayWindow.Some? ==> c.ReplayWindowSeconds() == c.replayWindow.value
    ensures c.replayEntries.Some? ==> c.ReplayMaxEntries() == c.replayEntries.value
  {
  }
}
