/**
 Verification of authentication responses and how long they must be remembered
 (crates/uk-auth/src/lib.rs, crates/uk-server/src/config.rs). HMAC is an arbitrary function.
 */
module AuthVerify {
  import opened Arithmetic
  import opened Bytes
  import opened Protocol
  import opened AuthCodec
  import opened AuthReplay
  import opened ServerConfig
  import Varint

  const MIN_SECRET_LEN := 32
  const UNREADABLE_CLOCK: U64 := 0xffff_ffff_ffff_ffff

  datatype Status = Active | Disabled | Retired

  datatype Credential = Credential(
    keyId: seq<Byte>,
    secret: seq<Byte>,
    status: Status,
    notBefore: Option<U64>,
    notAfter: Option<U64>,
    group: Option<seq<Byte>>)

  // ---------------------------------------------------------------------------------------------
  // Finding the credential.
  // ---------------------------------------------------------------------------------------------

  function LittleEndian(width: nat, value: nat): (s: seq<Byte>)
    ensures |s| == width
  {
    if width == 0 then [] else [(value % 256) as Byte] + LittleEndian(width - 1, value / 256)
  }

  lemma {:induction false} LittleEndianIsInjective(width: nat, a: nat, b: nat)
    requires a < Pow256(width) && b < Pow256(width) && LittleEndian(width, a) == LittleEndian(width, b)
    ensures a == b
  {
    if width > 0 {
      var s, t := LittleEndian(width, a), LittleEndian(width, b);
      assert s[0] == t[0] && s[1..] == t[1..];
      LittleEndianIsInjective(width - 1, a / 256, b / 256);
    }
  }

  /** A key id padded to 64 bytes with its length behind it, as the constant-time comparison sees it. */
  function Padded(keyId: seq<Byte>): (buf: seq<Byte>)
    ensures |buf| == MAX_KEY_ID_LEN + 8
  {
    var len := if |keyId| < MAX_KEY_ID_LEN then |keyId| else MAX_KEY_ID_LEN;
    keyId[..len] + Fill(MAX_KEY_ID_LEN - len, 0) + LittleEndian(8, |keyId|)
  }

  /** Two padded ids agree exactly when the ids have one length and agree in their first 64 bytes. */
  lemma PaddedEqualIff(a: seq<Byte>, b: seq<Byte>)
    requires |a| < 0x1_0000_0000_0000_0000 && |b| < 0x1_0000_0000_0000_0000
    ensures Padded(a) == Padded(b) <==>
      |a| == |b| && (if |a| < MAX_KEY_ID_LEN then a == b else a[..MAX_KEY_ID_LEN] == b[..MAX_KEY_ID_LEN])
  {
    if Padded(a) == Padded(b) {
      PaddedLength(a);
      PaddedLength(b);
      Varint.PlaceValues();
      LittleEndianIsInjective(8, |a|, |b|);
      var len := if |a| < MAX_KEY_ID_LEN then |a| else MAX_KEY_ID_LEN;
      assert Padded(a)[..len] == a[..len] && Padded(b)[..len] == b[..len];
      assert a[..|a|] == a && b[..|b|] == b;
    }
  }

  lemma PaddedLength(a: seq<Byte>)
    ensures Padded(a)[MAX_KEY_ID_LEN..] == LittleEndian(8, |a|)
  {
  }

  function FirstPadded(credentials: seq<Credential>, keyId: seq<Byte>): (r: Option<Credential>)
  {
    if credentials == [] then None
    else if Padded(credentials[0].keyId) == Padded(keyId) then Some(credentials[0])
    else FirstPadded(credentials[1..], keyId)
  }

  /** The first credential with this very key id. */
  function FirstWith(credentials: seq<Credential>, keyId: seq<Byte>): (r: Option<Credential>)
  {
    if credentials == [] then None
    else if credentials[0].keyId == keyId then Some(credentials[0])
    else FirstWith(credentials[1..], keyId)
  }

  /** Looks at every credential and keeps the first match. */
  method FindCredential(credentials: seq<Credential>, keyId: seq<Byte>) returns (matched: Option<Credential>)
    ensures matched == FirstPadded(credentials, keyId)
  {
    matched := None;
    for i := 0 to |credentials|
      invariant matched == FirstPadded(credentials[..i], keyId)
    {
      assert credentials[..i + 1] == credentials[..i] + [credentials[i]];
      FirstPaddedAppend(credentials[..i], credentials[i], keyId);
      var isMatch := Padded(keyId) == Padded(credentials[i].keyId);
      if isMatch && matched == None {
        matched := Some(credentials[i]);
      }
    }
    assert credentials[..|credentials|] == credentials;
  }

  lemma {:induction false} FirstPaddedAppend(credentials: seq<Credential>, last: Credential, keyId: seq<Byte>)
    ensures FirstPadded(credentials + [last], keyId) ==
      if FirstPadded(credentials, keyId).Some? then FirstPadded(credentials, keyId)
      else if Padded(last.keyId) == Padded(keyId) then Some(last)
      else None
  {
    if credentials == [] {
      assert credentials + [last] == [last];
    } else {
      assert (credentials + [last])[1..] == credentials[1..] + [last];
      FirstPaddedAppend(credentials[1..], last, keyId);
    }
  }

  predicate AllUsable(credentials: seq<Credential>)
  {
    forall i :: 0 <= i < |credentials| ==> ValidKeyId(credentials[i].keyId)
  }

  /** When every credential's id fits the padding, the padded lookup is the plain one, for any input. */
  lemma {:induction false} PaddedLookupIsExact(credentials: seq<Credential>, keyId: seq<Byte>)
    requires AllUsable(credentials) && |keyId| < 0x1_0000_0000_0000_0000
    ensures FirstPadded(credentials, keyId) == FirstWith(credentials, keyId)
  {
    if credentials != [] {
      assert ValidKeyId(credentials[0].keyId);
      PaddedEqualIff(credentials[0].keyId, keyId);
      assert |keyId| == MAX_KEY_ID_LEN ==> keyId[..MAX_KEY_ID_LEN] == keyId;
      assert |credentials[0].keyId| == MAX_KEY_ID_LEN ==> credentials[0].keyId[..MAX_KEY_ID_LEN] == credentials[0].keyId;
      PaddedLookupIsExact(credentials[1..], keyId);
    }
  }

  // ---------------------------------------------------------------------------------------------
  // Stateless verification.
  // ---------------------------------------------------------------------------------------------

  type Hmac = (seq<Byte>, seq<Byte>) -> Block

  predicate Uniform(secret: seq<Byte>)
  {
    secret != [] && forall i :: 0 <= i < |secret| ==> secret[i] == secret[0]
  }

  predicate ValidSecret(secret: seq<Byte>)
  {
    |secret| >= MIN_SECRET_LEN && !Uniform(secret)
  }

  predicate ValidMaterial(c: Credential)
  {
    ValidKeyId(c.keyId) && ValidSecret(c.secret)
  }

  predicate ActiveAt(c: Credential, now: U64)
  {
    && now != UNREADABLE_CLOCK && c.status == Active
    && (c.notBefore.Some? ==> c.notBefore.value <= now)
    && (c.notAfter.Some? ==> now <= c.notAfter.value)
  }

  function AbsDiff(a: U64, b: U64): (d: U64)
  {
    if a < b then b - a else a - b
  }

  predicate WithinSkew(timestamp: U64, now: U64, skew: U64)
  {
    timestamp != UNREADABLE_CLOCK && now != UNREADABLE_CLOCK && AbsDiff(now, timestamp) <= skew
  }

  function TranscriptOf(exporter: Block, challenge: Challenge, p: Response): (t: Transcript)
  {
    Transcript(exporter, challenge, p.keyId, p.clientNonce, p.clientTime, p.capabilities)
  }

  /** `auth_mac` under a secret already known to be usable. */
  function AuthMac(hmac: Hmac, secret: seq<Byte>, exporter: Block, challenge: Challenge, p: Response): (r: Result<Block, AuthError>)
    requires |p.keyId| <= Varint.MAX_VARINT && |p.capabilities| <= Varint.MAX_VARINT
  {
    if !EncodableChallenge(challenge) then Err(InvalidPayload)
    else if !ValidKeyId(p.keyId) then Err(InvalidKeyIdLength)
    else Ok(hmac(secret, TranscriptBytes(TranscriptOf(exporter, challenge, p))))
  }

  function MaterialError(c: Credential): (e: AuthError)
    requires !ValidMaterial(c)
  {
    if !ValidKeyId(c.keyId) then InvalidKeyIdLength
    else if |c.secret| < MIN_SECRET_LEN then SecretTooShort
    else SecretNotRandom
  }

  /** The MAC is always computed, over a dummy secret when no usable credential matches; then the checks, in order. */
  function VerifyStateless(
      hmac: Hmac, credentials: seq<Credential>, dummy: seq<Byte>, exporter: Block,
      challenge: Challenge, p: Response, now: U64, skew: U64): (r: Result<Credential, AuthError>)
    requires |p.keyId| <= Varint.MAX_VARINT && |p.capabilities| <= Varint.MAX_VARINT
  {
    var matched := FirstPadded(credentials, p.keyId);
    var secret := if matched.Some? && ValidMaterial(matched.value) then matched.value.secret else dummy;
    match AuthMac(hmac, secret, exporter, challenge, p)
    case Err(e) => Err(e)
    case Ok(tag) =>
      if matched == None then Err(UnknownKey)
      else if !ValidMaterial(matched.value) then Err(MaterialError(matched.value))
      else if tag != p.tag then Err(InvalidTag)
      else if !ActiveAt(matched.value, now) then Err(CredentialNotActive)
      else if !WithinSkew(challenge.serverTime, now, skew) || !WithinSkew(p.clientTime, now, skew) then Err(ClockSkew)
      else Ok(matched.value)
  }

  /** What acceptance means: the first credential of that key id is usable, active and made this tag, in time. */
  lemma AcceptedIff(
      hmac: Hmac, credentials: seq<Credential>, dummy: seq<Byte>, exporter: Block,
      challenge: Challenge, p: Response, now: U64, skew: U64, c: Credential)
    requires AllUsable(credentials) && |p.keyId| <= Varint.MAX_VARINT && |p.capabilities| <= Varint.MAX_VARINT
    ensures VerifyStateless(hmac, credentials, dummy, exporter, challenge, p, now, skew) == Ok(c) <==>
      && FirstWith(credentials, p.keyId) == Some(c)
      && ValidSecret(c.secret) && ActiveAt(c, now) && EncodableChallenge(challenge)
      && p.tag == hmac(c.secret, TranscriptBytes(TranscriptOf(exporter, challenge, p)))
      && WithinSkew(challenge.serverTime, now, skew) && WithinSkew(p.clientTime, now, skew)
  {
    PaddedLookupIsExact(credentials, p.keyId);
    FoundIsUsable(credentials, p.keyId);
  }

  lemma {:induction false} FoundIsUsable(credentials: seq<Credential>, keyId: seq<Byte>)
    requires AllUsable(credentials)
    ensures FirstWith(credentials, keyId).Some? ==>
      ValidKeyId(FirstWith(credentials, keyId).value.keyId) && FirstWith(credentials, keyId).value.keyId == keyId
  {
    if credentials != [] {
      assert ValidKeyId(credentials[0].keyId);
      FoundIsUsable(credentials[1..], keyId);
    }
  }

  /** An active credential works from its first to its last second, both included, on a readable clock. */
  lemma ActiveMeans(c: Credential, now: U64)
    ensures var first, last := c.notBefore.Or(0), c.notAfter.Or(0xffff_ffff_ffff_fffe);
      ActiveAt(c, now) <==> c.status == Active && first <= now <= last && now < 0xffff_ffff_ffff_ffff
  {
  }

  /** A timestamp is fresh when it lies at most the skew before or after a readable clock. */
  lemma SkewMeans(timestamp: U64, now: U64, skew: U64)
    ensures WithinSkew(timestamp, now, skew) <==>
      && timestamp < 0xffff_ffff_ffff_ffff && now < 0xffff_ffff_ffff_ffff
      && now <= timestamp + skew && timestamp <= now + skew
  {
  }

  /** A usable secret has at least 32 bytes that are not all the same. */
  lemma SecretMeans(secret: seq<Byte>)
    ensures ValidSecret(secret) <==>
      |secret| >= 32 && exists i, j :: 0 <= i < |secret| && 0 <= j < |secret| && secret[i] != secret[j]
  {
    if |secret| >= 32 && !Uniform(secret) {
      var i :| 0 <= i < |secret| && secret[i] != secret[0];
    }
  }

  /** No secret made up for unknown keys ever shows in an answer. */
  lemma DummyIsIrrelevant(
      hmac: Hmac, credentials: seq<Credential>, dummy: seq<Byte>, dummy': seq<Byte>, exporter: Block,
      challenge: Challenge, p: Response, now: U64, skew: U64)
    requires |p.keyId| <= Varint.MAX_VARINT && |p.capabilities| <= Varint.MAX_VARINT
    ensures VerifyStateless(hmac, credentials, dummy, exporter, challenge, p, now, skew)
      == VerifyStateless(hmac, credentials, dummy', exporter, challenge, p, now, skew)
  {
  }

  /** Why a response is refused: the first of these that applies, in this order. */
  lemma RefusedFor(
      hmac: Hmac, credentials: seq<Credential>, dummy: seq<Byte>, exporter: Block,
      challenge: Challenge, p: Response, now: U64, skew: U64)
    requires AllUsable(credentials) && |p.keyId| <= Varint.MAX_VARINT && |p.capabilities| <= Varint.MAX_VARINT
    ensures var r := VerifyStateless(hmac, credentials, dummy, exporter, challenge, p, now, skew);
      var sized := EncodableChallenge(challenge);
      var named := sized && 0 < |p.keyId| <= 64;
      var inTime := WithinSkew(challenge.serverTime, now, skew) && WithinSkew(p.clientTime, now, skew);
      && (!sized ==> r == Err(InvalidPayload))
      && (sized && !named ==> r == Err(InvalidKeyIdLength))
      && (named && FirstWith(credentials, p.keyId) == None ==> r == Err(UnknownKey))
      && (named && FirstWith(credentials, p.keyId).Some? ==>
           var c := FirstWith(credentials, p.keyId).value;
           var usable := |c.secret| >= 32 && !Uniform(c.secret);
           var tagged := usable && p.tag == hmac(c.secret, TranscriptBytes(TranscriptOf(exporter, challenge, p)));
           && (|c.secret| < 32 ==> r == Err(SecretTooShort))
           && (|c.secret| >= 32 && Uniform(c.secret) ==> r == Err(SecretNotRandom))
           && (usable && !tagged ==> r == Err(InvalidTag))
           && (tagged && !ActiveAt(c, now) ==> r == Err(CredentialNotActive))
           && (tagged && ActiveAt(c, now) && !inTime ==> r == Err(ClockSkew)))
  {
    PaddedLookupIsExact(credentials, p.keyId);
    FoundIsUsable(credentials, p.keyId);
  }

  // ---------------------------------------------------------------------------------------------
  // Retention.
  // ---------------------------------------------------------------------------------------------

  function KeyOf(challenge: Challenge, p: Response): (k: Key)
  {
    Key(challenge.serverNonce, p.clientNonce)
  }

  /**
   The two clocks of the source: the cache measures on a monotonic clock with some number of ticks to the
   second, freshness on the whole seconds of a wall clock that stands at some offset to it.
   */
  datatype Clock = Clock(ticks: nat, offset: nat)

  /** What `unix_now` shows at an instant. */
  function Now(clock: Clock, instant: nat): (now: U64)
    requires clock.ticks > 0
  {
    var seconds := (instant + clock.offset) / clock.ticks;
    if seconds < UNREADABLE_CLOCK then seconds else UNREADABLE_CLOCK
  }

  /**
   Who made the challenge: the server itself, on its own clock, as its handshake does
   (crates/uk-server/src/lib.rs), or any caller of the verification function.
   */
  datatype Origin = OwnServer | Anyone

  /** How many seconds a challenge from there can stay fresh after an attempt at it was admitted. */
  function Span(skew: U64, origin: Origin): (span: nat)
  {
    match origin case OwnServer => skew case Anyone => 2 * skew
  }

  lemma NowGrows(clock: Clock, first: nat, second: nat)
    requires clock.ticks > 0 && first <= second
    ensures Now(clock, first) <= Now(clock, second)
  {
    QuotientGrows(first + clock.offset, second + clock.offset, clock.ticks);
  }

  /** Two instants at which one timestamp is within skew are less than the span and a second apart. */
  lemma FreshSpan(clock: Clock, origin: Origin, timestamp: U64, first: nat, second: nat, skew: U64)
    requires clock.ticks > 0 && first <= second && (origin.OwnServer? ==> timestamp <= Now(clock, first))
    requires WithinSkew(timestamp, Now(clock, first), skew) && WithinSkew(timestamp, Now(clock, second), skew)
    ensures second - first < (Span(skew, origin) + 1) * clock.ticks
  {
    Apart(first + clock.offset, second + clock.offset, clock.ticks, Span(skew, origin));
  }

  /** A recorded pair is still recent if fewer than `maxEntries` followed it and the window has not run out. */
  lemma StillRecent(before: seq<Stamp>, key: Key, at: nat, later: seq<Stamp>, now: nat, l: Limits)
    requires |later| < l.maxEntries && at <= now && now - at <= l.window
    ensures Recent(before + [Stamp(at, key)] + later, key, now, l)
  {
    var history := before + [Stamp(at, key)] + later;
    assert history[|before|] == Stamp(at, key);
  }

  /** One authentication attempt as a server meets it; credentials and sessions may change between attempts. */
  datatype Attempt = Attempt(credentials: seq<Credential>, exporter: Block, challenge: Challenge, response: Response, at: nat)

  datatype AnyServer = Server(config: Config, hmac: Hmac, dummy: seq<Byte>, clock: Clock)

  type Server = s: AnyServer | s.clock.ticks > 0
    witness Server(Config(None, None, None, None, None, None, None, None), (_, _) => Fill(32, 0), [], Clock(1, 0))

  predicate Verified(s: Server, a: Attempt)
  {
    && |a.response.keyId| <= Varint.MAX_VARINT && |a.response.capabilities| <= Varint.MAX_VARINT
    && VerifyStateless(s.hmac, a.credentials, s.dummy, a.exporter, a.challenge, a.response,
                       Now(s.clock, a.at), s.config.AuthSkewSeconds()).Ok?
  }

  /** The server stamped the challenge with its own wall clock, no later than the attempt. */
  ghost predicate Issued(s: Server, a: Attempt)
  {
    exists issued: nat :: issued <= a.at && a.challenge.serverTime == Now(s.clock, issued)
  }

  ghost predicate AllFrom(s: Server, origin: Origin, run: seq<Attempt>)
  {
    origin.OwnServer? ==> forall i :: 0 <= i < |run| ==> Issued(s, run[i])
  }

  function Retention(s: Server): (l: Limits)
  {
    Limits(s.config.ReplayWindowSeconds() * s.clock.ticks, s.config.ReplayMaxEntries())
  }

  /** An attempt gets in when it verifies and its nonce pair is not a replay. */
  predicate Admitted(s: Server, history: seq<Stamp>, a: Attempt)
  {
    Verified(s, a) && !Recent(history, KeyOf(a.challenge, a.response), a.at, Retention(s))
  }

  /** The acceptances recorded before each attempt of a run, and after the last. */
  function Histories(s: Server, history: seq<Stamp>, run: seq<Attempt>): (hs: seq<seq<Stamp>>)
    ensures |hs| == |run| + 1 && hs[0] == history
    ensures forall i :: 0 <= i < |run| ==>
      hs[i + 1] == if Admitted(s, hs[i], run[i]) then hs[i] + [Stamp(run[i].at, KeyOf(run[i].challenge, run[i].response))] else hs[i]
    decreases |run|
  {
    if run == [] then [history]
    else
      var key := KeyOf(run[0].challenge, run[0].response);
      var next := if Verified(s, run[0]) then Recorded(history, key, run[0].at, Retention(s)) else history;
      [history] + Histories(s, next, run[1..])
  }

  lemma HistoryStep(s: Server, history: seq<Stamp>, run: seq<Attempt>, i: nat)
    requires i < |run|
    ensures Histories(s, history, run)[i] <= Histories(s, history, run)[i + 1]
  {
  }

  lemma {:induction false} HistoryGrows(s: Server, history: seq<Stamp>, run: seq<Attempt>, i: nat, j: nat)
    requires i <= j <= |run|
    ensures Histories(s, history, run)[i] <= Histories(s, history, run)[j]
    decreases j
  {
    if i < j {
      HistoryGrows(s, history, run, i, j - 1);
      HistoryStep(s, history, run, j - 1);
    }
  }

  /** One response admitted at attempts `i` and `j` of a run under one challenge. */
  predicate AdmittedTwice(s: Server, history: seq<Stamp>, run: seq<Attempt>, i: nat, j: nat)
  {
    && i < j < |run| && run[i].at <= run[j].at
    && run[i].challenge == run[j].challenge && run[i].response == run[j].response
    && Admitted(s, Histories(s, history, run)[i], run[i]) && Admitted(s, Histories(s, history, run)[j], run[j])
  }

  /** In no run over challenges from there is a response admitted twice under one, unless the whole cache turned over between. */
  ghost predicate NoReplays(s: Server, origin: Origin)
  {
    forall history, run, i: nat, j: nat :: AllFrom(s, origin, run) && AdmittedTwice(s, history, run, i, j) ==>
      |Histories(s, history, run)[j]| - |Histories(s, history, run)[i]| > s.config.ReplayMaxEntries()
  }

  /** The window outlasts freshness: on a clock of whole seconds equality will do, on a finer one it will not. */
  predicate Retains(c: Config, origin: Origin, ticks: nat)
  {
    var window, span := c.ReplayWindowSeconds(), Span(c.AuthSkewSeconds(), origin);
    window > span || (window == span && ticks == 1)
  }

  lemma WindowCovers(c: Config, origin: Origin, ticks: nat)
    requires ticks > 0
    ensures Retains(c, origin, ticks) <==>
      (Span(c.AuthSkewSeconds(), origin) + 1) * ticks - 1 <= c.ReplayWindowSeconds() * ticks
  {
    var window, span := c.ReplayWindowSeconds(), Span(c.AuthSkewSeconds(), origin);
    if window > span {
      Scale(span + 1, window, ticks);
    } else {
      Scale(window, span, ticks);
      assert (span + 1) * ticks == span * ticks + ticks;
      if window < span {
        Scale(window + 1, span, ticks);
        assert (window + 1) * ticks == window * ticks + ticks;
      }
    }
  }

  lemma VerifiedAgainIsRecent(s: Server, origin: Origin, a: Attempt, b: Attempt, before: seq<Stamp>, later: seq<Stamp>)
    requires Retains(s.config, origin, s.clock.ticks) && Verified(s, a) && Verified(s, b) && a.at <= b.at
    requires origin.OwnServer? ==> Issued(s, a)
    requires a.challenge == b.challenge && a.response == b.response && |later| < s.config.ReplayMaxEntries()
    ensures Recent(before + [Stamp(a.at, KeyOf(a.challenge, a.response))] + later, KeyOf(b.challenge, b.response), b.at,
                   Retention(s))
  {
    if origin.OwnServer? {
      var issued: nat :| issued <= a.at && a.challenge.serverTime == Now(s.clock, issued);
      NowGrows(s.clock, issued, a.at);
    }
    FreshSpan(s.clock, origin, a.challenge.serverTime, a.at, b.at, s.config.AuthSkewSeconds());
    WindowCovers(s.config, origin, s.clock.ticks);
    StillRecent(before, KeyOf(a.challenge, a.response), a.at, later, b.at, Retention(s));
  }

  lemma Extends<T>(a: seq<T>, x: T, b: seq<T>)
    requires a + [x] <= b
    ensures b == a + [x] + b[|a| + 1..]
  {
  }

  /** Where the window outlasts freshness, a response admitted twice had the whole replay cache turn over between. */
  lemma AdmittedTwiceOnlyAfterOverflow(s: Server, origin: Origin, history: seq<Stamp>, run: seq<Attempt>, i: nat, j: nat)
    requires Retains(s.config, origin, s.clock.ticks) && AllFrom(s, origin, run) && AdmittedTwice(s, history, run, i, j)
    ensures |Histories(s, history, run)[j]| - |Histories(s, history, run)[i]| > s.config.ReplayMaxEntries()
  {
    var hs := Histories(s, history, run);
    HistoryGrows(s, history, run, i + 1, j);
    var later := hs[j][|hs[i]| + 1..];
    Extends(hs[i], Stamp(run[i].at, KeyOf(run[i].challenge, run[i].response)), hs[j]);
    if |later| < s.config.ReplayMaxEntries() {
      VerifiedAgainIsRecent(s, origin, run[i], run[j], hs[i], later);
    }
  }

  /**
   The server never admits a replay: with limits that validate, on every clock, a response admitted twice
   under a challenge the server issued had the whole replay cache turn over between.
   */
  lemma ValidatedServerAdmitsOnce(s: Server)
    requires ValidLimits(s.config)
    ensures NoReplays(s, OwnServer)
  {
    forall history, run, i: nat, j: nat | AllFrom(s, OwnServer, run) && AdmittedTwice(s, history, run, i, j)
      ensures |Histories(s, history, run)[j]| - |Histories(s, history, run)[i]| > s.config.ReplayMaxEntries()
    {
      AdmittedTwiceOnlyAfterOverflow(s, OwnServer, history, run, i, j);
    }
  }

  // ---------------------------------------------------------------------------------------------
  // The converse: a window that does not outlast freshness lets a response in twice.
  // ---------------------------------------------------------------------------------------------

  /** The clock is not within a few minutes of the end of representable time. */
  predicate Readable(s: Server)
  {
    s.clock.offset / s.clock.ticks + 2 * s.config.AuthSkewSeconds() + 1 < UNREADABLE_CLOCK
  }

  /** The first instant at which the wall clock has just turned to a new second. */
  function Turn(clock: Clock): (instant: nat)
    requires clock.ticks > 0
  {
    if clock.offset % clock.ticks == 0 then 0 else clock.ticks - clock.offset % clock.ticks
  }

  /** The wall clock at a turn of the second, and in the last tick of the second `span` later. */
  lemma TurnShows(clock: Clock, span: nat)
    requires clock.ticks > 0 && clock.offset / clock.ticks + span + 1 < UNREADABLE_CLOCK
    ensures var wall := Now(clock, Turn(clock));
      && wall + span < UNREADABLE_CLOCK
      && Now(clock, Turn(clock) + span * clock.ticks + (clock.ticks - 1)) == wall + span
  {
    var t, o := clock.ticks, clock.offset;
    var q := o / t + if o % t == 0 then 0 else 1;
    assert o == (o / t) * t + o % t;
    assert Turn(clock) + o == q * t;
    Quotient(Turn(clock) + o, t, q, 0);
    assert (q + span) * t == q * t + span * t;
    Quotient(Turn(clock) + span * t + (t - 1) + o, t, q + span, t - 1);
  }

  predicate AlwaysActive(c: Credential)
  {
    ValidMaterial(c) && c.status == Active && c.notBefore == None && c.notAfter == None
  }

  function PlainChallenge(time: U64): (challenge: Challenge)
    ensures EncodableChallenge(challenge) && challenge.serverTime == time
  {
    Challenge(Fill(32, 0), time, [], [])
  }

  /** The response of a client that holds the credential and shows the challenge's own time. */
  function PlainResponse(s: Server, c: Credential, exporter: Block, time: U64): (p: Response)
    requires ValidMaterial(c)
    ensures p.keyId == c.keyId && p.clientTime == time && p.capabilities == []
    ensures p.tag == s.hmac(c.secret, TranscriptBytes(TranscriptOf(exporter, PlainChallenge(time), p)))
  {
    var nonce, challenge := Fill(32, 0), PlainChallenge(time);
    Response(c.keyId, nonce, time, [], s.hmac(c.secret, TranscriptBytes(Transcript(exporter, challenge, c.keyId, nonce, time, []))))
  }

  function PlainAttempt(s: Server, c: Credential, exporter: Block, time: U64, at: nat): (a: Attempt)
    requires ValidMaterial(c)
  {
    Attempt([c], exporter, PlainChallenge(time), PlainResponse(s, c, exporter, time), at)
  }

  lemma PlainAttemptVerifies(s: Server, c: Credential, exporter: Block, time: U64, at: nat)
    requires AlwaysActive(c) && WithinSkew(time, Now(s.clock, at), s.config.AuthSkewSeconds())
    ensures Verified(s, PlainAttempt(s, c, exporter, time, at))
  {
    var p := PlainResponse(s, c, exporter, time);
    assert AllUsable([c]);
    assert FirstWith([c], p.keyId) == Some(c);
    AcceptedIff(s.hmac, [c], s.dummy, exporter, PlainChallenge(time), p, Now(s.clock, at), s.config.AuthSkewSeconds(), c);
  }

  /** The last tick in which a challenge from there, shown at the turn of the second, is still fresh. */
  function LastFresh(s: Server, origin: Origin): (instant: nat)
    ensures instant >= Turn(s.clock)
  {
    Turn(s.clock) + Span(s.config.AuthSkewSeconds(), origin) * s.clock.ticks + (s.clock.ticks - 1)
  }

  /** The server's own challenge bears the time of that turn, a made-up one the latest time that is fresh then. */
  function Stamped(s: Server, origin: Origin): (time: nat)
  {
    Now(s.clock, Turn(s.clock)) + if origin.Anyone? then s.config.AuthSkewSeconds() else 0
  }

  lemma StampedIsFresh(s: Server, origin: Origin)
    requires Readable(s)
    ensures Stamped(s, origin) < UNREADABLE_CLOCK
    ensures WithinSkew(Stamped(s, origin), Now(s.clock, Turn(s.clock)), s.config.AuthSkewSeconds())
    ensures WithinSkew(Stamped(s, origin), Now(s.clock, LastFresh(s, origin)), s.config.AuthSkewSeconds())
  {
    TurnShows(s.clock, Span(s.config.AuthSkewSeconds(), origin));
  }

  /** One response shown at the turn of a second, and again in the last tick in which its challenge is fresh. */
  function ShownTwice(s: Server, origin: Origin, c: Credential, exporter: Block): (run: seq<Attempt>)
    requires ValidMaterial(c) && Stamped(s, origin) < UNREADABLE_CLOCK
    ensures |run| == 2
  {
    [PlainAttempt(s, c, exporter, Stamped(s, origin), Turn(s.clock)),
     PlainAttempt(s, c, exporter, Stamped(s, origin), LastFresh(s, origin))]
  }

  lemma ShownIsFrom(s: Server, origin: Origin, c: Credential, exporter: Block)
    requires ValidMaterial(c) && Stamped(s, origin) < UNREADABLE_CLOCK
    ensures AllFrom(s, origin, ShownTwice(s, origin, c, exporter))
  {
    var run := ShownTwice(s, origin, c, exporter);
    if origin.OwnServer? {
      forall i | 0 <= i < |run|
        ensures Issued(s, run[i])
      {
        assert Turn(s.clock) <= run[i].at && run[i].challenge.serverTime == Now(s.clock, Turn(s.clock));
      }
    }
  }

  /** For any server, usable credential and session: both attempts get in, with nothing between them. */
  lemma EdgeAdmitsTwice(s: Server, origin: Origin, c: Credential, exporter: Block)
    requires !Retains(s.config, origin, s.clock.ticks) && Readable(s) && AlwaysActive(c)
    ensures Stamped(s, origin) < UNREADABLE_CLOCK
    ensures AllFrom(s, origin, ShownTwice(s, origin, c, exporter))
    ensures AdmittedTwice(s, [], ShownTwice(s, origin, c, exporter), 0, 1)
    ensures |Histories(s, [], ShownTwice(s, origin, c, exporter))[1]| == 1
  {
    StampedIsFresh(s, origin);
    ShownIsFrom(s, origin, c, exporter);
    var time: U64 := Stamped(s, origin);
    var first, second := Turn(s.clock), LastFresh(s, origin);
    var a, b := PlainAttempt(s, c, exporter, time, first), PlainAttempt(s, c, exporter, time, second);
    PlainAttemptVerifies(s, c, exporter, time, first);
    PlainAttemptVerifies(s, c, exporter, time, second);
    TooLate(s, origin);
    Forgotten(s, KeyOf(a.challenge, a.response), first, second);
    TwoAttempts(s, a, b);
  }

  lemma TooLate(s: Server, origin: Origin)
    requires !Retains(s.config, origin, s.clock.ticks)
    ensures LastFresh(s, origin) - Turn(s.clock) > s.config.ReplayWindowSeconds() * s.clock.ticks
  {
    var span: int := Span(s.config.AuthSkewSeconds(), origin);
    WindowCovers(s.config, origin, s.clock.ticks);
    assert (span + 1) * s.clock.ticks == span * s.clock.ticks + s.clock.ticks;
  }

  lemma Forgotten(s: Server, key: Key, first: nat, second: nat)
    requires second - first > s.config.ReplayWindowSeconds() * s.clock.ticks
    ensures !Recent([], key, first, Retention(s)) && !Recent([Stamp(first, key)], key, second, Retention(s))
  {
  }

  lemma TwoAttempts(s: Server, a: Attempt, b: Attempt)
    requires a.challenge == b.challenge && a.response == b.response && a.at <= b.at
    requires Admitted(s, [], a) && Admitted(s, [Stamp(a.at, KeyOf(a.challenge, a.response))], b)
    ensures AdmittedTwice(s, [], [a, b], 0, 1) && |Histories(s, [], [a, b])[1]| == 1
  {
    var hs := Histories(s, [], [a, b]);
    assert [a, b][0] == a && [a, b][1] == b && hs[0] == [];
    assert hs[1] == [] + [Stamp(a.at, KeyOf(a.challenge, a.response))];
  }

  const SOME_CREDENTIAL := Credential([0], [1] + Fill(31, 0), Active, None, None, None)

  lemma SomeCredentialIsActive()
    ensures AlwaysActive(SOME_CREDENTIAL)
  {
    var secret := SOME_CREDENTIAL.secret;
    assert secret[0] == 1 && secret[1] == 0;
  }

  /**
   For every server, whatever its HMAC and clocks: no run over challenges from there admits a response twice
   under one, short of the cache turning over, if and only if the window outlasts freshness. For challenges
   the server issued that is a window above the skew; for challenges of any caller of the library, above
   twice the skew.
   */
  lemma NoReplaysIff(s: Server, origin: Origin)
    requires Readable(s) && s.config.ReplayMaxEntries() > 0
    ensures NoReplays(s, origin) <==> Retains(s.config, origin, s.clock.ticks)
  {
    if Retains(s.config, origin, s.clock.ticks) {
      forall history, run, i: nat, j: nat | AllFrom(s, origin, run) && AdmittedTwice(s, history, run, i, j)
        ensures |Histories(s, history, run)[j]| - |Histories(s, history, run)[i]| > s.config.ReplayMaxEntries()
      {
        AdmittedTwiceOnlyAfterOverflow(s, origin, history, run, i, j);
      }
    } else {
      SomeCredentialIsActive();
      EdgeAdmitsTwice(s, origin, SOME_CREDENTIAL, Fill(32, 0));
    }
  }

  /**
   A configuration that validates retains the server's own challenges on every clock, and anyone's on whole
   seconds; anyone's on a finer clock not every one does.
   */
  lemma ValidatedRetains()
    ensures forall c: Config, ticks: nat :: ValidLimits(c) ==> Retains(c, OwnServer, ticks) && Retains(c, Anyone, 1)
    ensures exists c: Config :: ValidLimits(c) && forall ticks :: ticks > 1 ==> !Retains(c, Anyone, ticks)
  {
    var c := Config(Some(150), None, None, None, None, None, None, None);
    assert ValidLimits(c);
  }
}
