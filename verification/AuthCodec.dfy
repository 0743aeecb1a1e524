/** Challenge and response payloads and the MAC transcript (crates/uk-auth/src/lib.rs). */
module AuthCodec {
  import opened Bytes
  import opened Protocol
  import Varint

  const MAX_KEY_ID_LEN := 64
  const MAX_AUTH_CAPABILITIES_LEN := 1024
  const MIN_RESPONSE_TAIL_LEN := 73
  const MIN_AUTH_RESPONSE_PAYLOAD_SIZE := 75

  datatype AuthError =
    | UnknownKey
    | CredentialNotActive
    | InvalidTag
    | ClockSkew
    | Replay
    | SecretTooShort
    | SecretNotRandom
    | InvalidKeyIdLength
    | InvalidPayload
    | ProtocolFailed(error: ProtocolError)

  /** 32 bytes: nonces, tags and the TLS exporter. */
  type Block = s: seq<Byte> | |s| == 32 witness Fill(32, 0)

  datatype Challenge = Challenge(serverNonce: Block, serverTime: U64, capabilities: seq<Byte>, limits: seq<Byte>)

  datatype Response =
    Response(keyId: seq<Byte>, clientNonce: Block, clientTime: U64, capabilities: seq<Byte>, tag: Block)

  predicate ValidKeyId(keyId: seq<Byte>)
  {
    0 < |keyId| <= MAX_KEY_ID_LEN
  }

  // ---------------------------------------------------------------------------------------------
  // Length-prefixed fields.
  // ---------------------------------------------------------------------------------------------

  function VarBytes(b: seq<Byte>): (wire: seq<Byte>)
    requires |b| <= Varint.MAX_VARINT
    ensures |b| < |wire| <= |b| + 8
  {
    Varint.Encode(|b|).value + b
  }

  datatype Read<+T> = Took(value: T, used: nat) | Refused(error: AuthError)

  function ReadVarBytes(src: seq<Byte>): (r: Read<seq<Byte>>)
    ensures r.Took? ==> r.used <= |src| && |r.value| <= MAX_AUTH_CAPABILITIES_LEN
  {
    match Varint.Decode(src)
    case Fail(e) => Refused(ProtocolFailed(e))
    case Got(len, n) =>
      if len > MAX_AUTH_CAPABILITIES_LEN then Refused(InvalidPayload)
      else if |src| - n < len then Refused(InvalidPayload)
      else Took(src[n..n + len], n + len)
  }

  lemma VarBytesRoundTrip(b: seq<Byte>, rest: seq<Byte>)
    requires |b| <= MAX_AUTH_CAPABILITIES_LEN
    ensures ReadVarBytes(VarBytes(b) + rest) == Took(b, |VarBytes(b)|)
  {
    var len := Varint.Encode(|b|).value;
    Associates(len, b, rest);
    Varint.RoundTrip(|b|, b + rest);
    assert (len + (b + rest))[|len|..|len| + |b|] == b;
  }

  lemma VarBytesCanonical(src: seq<Byte>)
    requires ReadVarBytes(src).Took?
    ensures VarBytes(ReadVarBytes(src).value) == src[..ReadVarBytes(src).used]
  {
    var n, used := Varint.Decode(src).used, ReadVarBytes(src).used;
    Varint.Canonical(src);
    SplitsBefore(src, n, used);
  }

  /** A length-prefixed field ends where it says, whatever follows. */
  lemma VarBytesSplit(a: seq<Byte>, x: seq<Byte>, b: seq<Byte>, y: seq<Byte>)
    requires |a| <= Varint.MAX_VARINT && |b| <= Varint.MAX_VARINT
    requires VarBytes(a) + x == VarBytes(b) + y
    ensures a == b && x == y
  {
    var m, n := Varint.Encode(|a|).value, Varint.Encode(|b|).value;
    Varint.RoundTrip(|a|, a + x);
    Varint.RoundTrip(|b|, b + y);
    Associates(m, a, x);
    Associates(n, b, y);
    FixedSplit(m, a + x, n, b + y);
    FixedSplit(a, x, b, y);
  }

  lemma FixedSplit(a: seq<Byte>, x: seq<Byte>, b: seq<Byte>, y: seq<Byte>)
    requires |a| == |b| && a + x == b + y
    ensures a == b && x == y
  {
    Parts(a, x);
    Parts(b, y);
  }

  function TimeBytes(time: U64): (wire: seq<Byte>)
    ensures |wire| == 8
  {
    BigEndian(8, time)
  }

  lemma TimeBytesAre(time: U64, s: seq<Byte>)
    requires |s| == 8
    ensures FromBigEndian(s) < 0x1_0000_0000_0000_0000
    ensures s == TimeBytes(time) <==> FromBigEndian(s) == time
  {
    Varint.PlaceValues();
    ReadsBackWritten(8, time);
    WritesBackRead(s);
  }

  function TimeOf(s: seq<Byte>): (time: U64)
    requires |s| == 8
  {
    TimeBytesAre(0, s);
    FromBigEndian(s)
  }

  // ---------------------------------------------------------------------------------------------
  // Challenge.
  // ---------------------------------------------------------------------------------------------

  predicate EncodableChallenge(c: Challenge)
  {
    |c.capabilities| <= MAX_AUTH_CAPABILITIES_LEN && |c.limits| <= MAX_AUTH_CAPABILITIES_LEN
  }

  function EncodeChallenge(c: Challenge): (r: Result<seq<Byte>, AuthError>)
    ensures r.Ok? <==> EncodableChallenge(c)
  {
    if |c.capabilities| > MAX_AUTH_CAPABILITIES_LEN then Err(InvalidPayload)
    else if |c.limits| > MAX_AUTH_CAPABILITIES_LEN then Err(InvalidPayload)
    else Ok(c.serverNonce + TimeBytes(c.serverTime) + (VarBytes(c.capabilities) + VarBytes(c.limits)))
  }

  function DecodeChallenge(src: seq<Byte>): (r: Result<Challenge, AuthError>)
  {
    if |src| < 40 then Err(InvalidPayload)
    else
      var nonce, time := src[..32], TimeOf(src[32..40]);
      match ReadVarBytes(src[40..])
      case Refused(e) => Err(e)
      case Took(capabilities, n) =>
        match ReadVarBytes(src[40..][n..])
        case Refused(e) => Err(e)
        case Took(limits, m) =>
          if |src| > 40 + n + m then Err(InvalidPayload)
          else Ok(Challenge(nonce, time, capabilities, limits))
  }

  lemma ChallengeRoundTrip(c: Challenge)
    requires EncodableChallenge(c)
    ensures DecodeChallenge(EncodeChallenge(c).value) == Ok(c)
  {
    var src := EncodeChallenge(c).value;
    var caps, limits := VarBytes(c.capabilities), VarBytes(c.limits);
    assert src[..32] == c.serverNonce && src[32..40] == TimeBytes(c.serverTime) && src[40..] == caps + limits;
    TimeBytesAre(c.serverTime, src[32..40]);
    VarBytesRoundTrip(c.capabilities, limits);
    Parts(caps, limits);
    VarBytesRoundTrip(c.limits, []);
    assert limits + [] == limits;
  }

  lemma ChallengeCanonical(src: seq<Byte>)
    requires DecodeChallenge(src).Ok?
    ensures EncodeChallenge(DecodeChallenge(src).value) == Ok(src)
  {
    var c, body := DecodeChallenge(src).value, src[40..];
    TimeBytesAre(c.serverTime, src[32..40]);
    TwoFields(body);
    assert src == src[..32] + src[32..40] + body;
  }

  /** Two fields that fill a sequence are its one form. */
  lemma TwoFields(body: seq<Byte>)
    requires ReadVarBytes(body).Took?
    requires var n := ReadVarBytes(body).used; var second := ReadVarBytes(body[n..]);
      second.Took? && n + second.used == |body|
    ensures var n := ReadVarBytes(body).used;
      VarBytes(ReadVarBytes(body).value) + VarBytes(ReadVarBytes(body[n..]).value) == body
  {
    var n := ReadVarBytes(body).used;
    VarBytesCanonical(body);
    VarBytesCanonical(body[n..]);
    assert body[n..][..|body| - n] == body[n..];
    Splits(body, n);
  }

  /** Challenges and their wire forms determine each other. */
  lemma ChallengeIsCanonical(c: Challenge, src: seq<Byte>)
    ensures DecodeChallenge(src) == Ok(c) <==> EncodeChallenge(c) == Ok(src)
  {
    if EncodeChallenge(c) == Ok(src) {
      ChallengeRoundTrip(c);
    }
    if DecodeChallenge(src) == Ok(c) {
      ChallengeCanonical(src);
    }
  }

  // ---------------------------------------------------------------------------------------------
  // Response.
  // ---------------------------------------------------------------------------------------------

  predicate EncodableResponse(r: Response)
  {
    ValidKeyId(r.keyId) && |r.capabilities| <= MAX_AUTH_CAPABILITIES_LEN
  }

  /** What follows the key id. */
  function ResponseTail(nonce: Block, time: U64, capabilities: seq<Byte>, tag: seq<Byte>): (wire: seq<Byte>)
    requires |capabilities| <= Varint.MAX_VARINT
  {
    nonce + TimeBytes(time) + (VarBytes(capabilities) + tag)
  }

  function EncodeResponse(p: Response): (r: Result<seq<Byte>, AuthError>)
    ensures r.Ok? <==> EncodableResponse(p)
  {
    if !ValidKeyId(p.keyId) then Err(InvalidKeyIdLength)
    else if |p.capabilities| > MAX_AUTH_CAPABILITIES_LEN then Err(InvalidPayload)
    else Ok(VarBytes(p.keyId) + ResponseTail(p.clientNonce, p.clientTime, p.capabilities, p.tag))
  }

  function DecodeTail(keyId: seq<Byte>, src: seq<Byte>): (r: Result<Response, AuthError>)
  {
    if |src| < MIN_RESPONSE_TAIL_LEN then Err(InvalidPayload)
    else
      var nonce, time := src[..32], TimeOf(src[32..40]);
      match ReadVarBytes(src[40..])
      case Refused(e) => Err(e)
      case Took(capabilities, n) =>
        if |src| - 40 - n != 32 then Err(InvalidPayload)
        else Ok(Response(keyId, nonce, time, capabilities, src[40..][n..]))
  }

  function DecodeResponse(src: seq<Byte>): (r: Result<Response, AuthError>)
  {
    match Varint.Decode(src)
    case Fail(e) => Err(ProtocolFailed(e))
    case Got(len, n) =>
      if len == 0 || len > MAX_KEY_ID_LEN then Err(InvalidKeyIdLength)
      else if |src| - n < len then Err(InvalidPayload)
      else DecodeTail(src[n..n + len], src[n + len..])
  }

  lemma TailRoundTrip(p: Response)
    requires |p.capabilities| <= MAX_AUTH_CAPABILITIES_LEN
    ensures DecodeTail(p.keyId, ResponseTail(p.clientNonce, p.clientTime, p.capabilities, p.tag)) == Ok(p)
  {
    var src := ResponseTail(p.clientNonce, p.clientTime, p.capabilities, p.tag);
    var caps := VarBytes(p.capabilities);
    assert src[..32] == p.clientNonce && src[32..40] == TimeBytes(p.clientTime) && src[40..] == caps + p.tag;
    TimeBytesAre(p.clientTime, src[32..40]);
    VarBytesRoundTrip(p.capabilities, p.tag);
    Parts(caps, p.tag);
  }

  lemma TailCanonical(keyId: seq<Byte>, src: seq<Byte>)
    requires DecodeTail(keyId, src).Ok?
    ensures var p := DecodeTail(keyId, src).value;
      |p.capabilities| <= MAX_AUTH_CAPABILITIES_LEN && p.keyId == keyId &&
      ResponseTail(p.clientNonce, p.clientTime, p.capabilities, p.tag) == src
  {
    var p, body := DecodeTail(keyId, src).value, src[40..];
    var n := ReadVarBytes(body).used;
    TimeBytesAre(p.clientTime, src[32..40]);
    VarBytesCanonical(body);
    Splits(body, n);
    assert src == src[..32] + src[32..40] + body;
  }

  /** A key id of legal length hands the rest of a response to its tail. */
  lemma KeyIdFirst(keyId: seq<Byte>, rest: seq<Byte>)
    requires ValidKeyId(keyId)
    ensures DecodeResponse(VarBytes(keyId) + rest) == DecodeTail(keyId, rest)
  {
    var len := Varint.Encode(|keyId|).value;
    Varint.RoundTrip(|keyId|, keyId + rest);
    Associates(len, keyId, rest);
    Parts(len + keyId, rest);
    assert (len + keyId + rest)[|len|..|len| + |keyId|] == keyId;
  }

  lemma ResponseRoundTrip(p: Response)
    requires EncodableResponse(p)
    ensures DecodeResponse(EncodeResponse(p).value) == Ok(p)
  {
    KeyIdFirst(p.keyId, ResponseTail(p.clientNonce, p.clientTime, p.capabilities, p.tag));
    TailRoundTrip(p);
  }

  lemma SplitsOffKeyId(src: seq<Byte>) returns (keyId: seq<Byte>, rest: seq<Byte>)
    requires DecodeResponse(src).Ok?
    ensures ValidKeyId(keyId) && src == VarBytes(keyId) + rest
  {
    var len, n := Varint.Decode(src).value, Varint.Decode(src).used;
    Varint.Canonical(src);
    keyId, rest := src[n..n + len], src[n + len..];
    ThreeParts(src, n, n + len);
  }

  lemma ResponseCanonical(src: seq<Byte>)
    requires DecodeResponse(src).Ok?
    ensures EncodeResponse(DecodeResponse(src).value) == Ok(src)
  {
    var keyId, rest := SplitsOffKeyId(src);
    KeyIdFirst(keyId, rest);
    TailCanonical(keyId, rest);
  }

  lemma ThreeParts<T>(s: seq<T>, n: nat, m: nat)
    requires n <= m <= |s|
    ensures s == s[..n] + s[n..m] + s[m..]
  {
  }

  /** Responses and their wire forms determine each other. */
  lemma ResponseIsCanonical(p: Response, src: seq<Byte>)
    ensures DecodeResponse(src) == Ok(p) <==> EncodeResponse(p) == Ok(src)
  {
    if EncodeResponse(p) == Ok(src) {
      ResponseRoundTrip(p);
    }
    if DecodeResponse(src) == Ok(p) {
      ResponseCanonical(src);
    }
  }

  /** No response is smaller than the configured floor allows, and one meets it. */
  lemma ResponseSizeFloor(p: Response)
    ensures EncodableResponse(p) ==> |EncodeResponse(p).value| >= MIN_AUTH_RESPONSE_PAYLOAD_SIZE
    ensures var least := Response([0], Fill(32, 0), 0, [], Fill(32, 0));
      EncodableResponse(least) && |EncodeResponse(least).value| == MIN_AUTH_RESPONSE_PAYLOAD_SIZE
  {
  }

  // ---------------------------------------------------------------------------------------------
  // The MAC transcript.
  // ---------------------------------------------------------------------------------------------

  /** `UK-AUTH-v1`. */
  const AUTH_LABEL: seq<Byte> := [85, 75, 45, 65, 85, 84, 72, 45, 118, 49]

  datatype Transcript =
    Transcript(exporter: Block, challenge: Challenge, keyId: seq<Byte>, clientNonce: Block, clientTime: U64, capabilities: seq<Byte>)

  /** Anything that can be transcribed at all: the key id and capabilities are not bounded here. */
  predicate Transcribable(t: Transcript)
  {
    EncodableChallenge(t.challenge) && |t.keyId| <= Varint.MAX_VARINT && |t.capabilities| <= Varint.MAX_VARINT
  }

  function TranscriptBytes(t: Transcript): (wire: seq<Byte>)
    requires Transcribable(t)
  {
    AUTH_LABEL + (t.exporter + (EncodeChallenge(t.challenge).value
      + (VarBytes(t.keyId) + ResponseTail(t.clientNonce, t.clientTime, t.capabilities, []))))
  }

  lemma ChallengeSplit(c: Challenge, x: seq<Byte>, d: Challenge, y: seq<Byte>)
    requires EncodableChallenge(c) && EncodableChallenge(d)
    requires EncodeChallenge(c).value + x == EncodeChallenge(d).value + y
    ensures c == d && x == y
  {
    HeadAndFields(c.serverNonce, c.serverTime, VarBytes(c.capabilities) + VarBytes(c.limits), x);
    HeadAndFields(d.serverNonce, d.serverTime, VarBytes(d.capabilities) + VarBytes(d.limits), y);
    Associates(VarBytes(c.capabilities), VarBytes(c.limits), x);
    Associates(VarBytes(d.capabilities), VarBytes(d.limits), y);
    HeadsSplit(c.serverNonce, c.serverTime, VarBytes(c.capabilities) + (VarBytes(c.limits) + x),
               d.serverNonce, d.serverTime, VarBytes(d.capabilities) + (VarBytes(d.limits) + y));
    VarBytesSplit(c.capabilities, VarBytes(c.limits) + x, d.capabilities, VarBytes(d.limits) + y);
    VarBytesSplit(c.limits, x, d.limits, y);
  }

  lemma HeadAndFields(nonce: Block, time: U64, fields: seq<Byte>, x: seq<Byte>)
    ensures nonce + TimeBytes(time) + fields + x == nonce + (TimeBytes(time) + (fields + x))
  {
  }

  lemma HeadsSplit(a: Block, s: U64, x: seq<Byte>, b: Block, t: U64, y: seq<Byte>)
    requires a + (TimeBytes(s) + x) == b + (TimeBytes(t) + y)
    ensures a == b && s == t && x == y
  {
    FixedSplit(a, TimeBytes(s) + x, b, TimeBytes(t) + y);
    FixedSplit(TimeBytes(s), x, TimeBytes(t), y);
    TimeBytesAre(s, TimeBytes(s));
    TimeBytesAre(t, TimeBytes(t));
  }

  lemma TailSplit(a: Block, s: U64, x: seq<Byte>, b: Block, t: U64, y: seq<Byte>)
    requires |x| <= Varint.MAX_VARINT && |y| <= Varint.MAX_VARINT
    requires ResponseTail(a, s, x, []) == ResponseTail(b, t, y, [])
    ensures a == b && s == t && x == y
  {
    HeadAndFields(a, s, VarBytes(x) + [], []);
    HeadAndFields(b, t, VarBytes(y) + [], []);
    Associates(VarBytes(x), [], []);
    Associates(VarBytes(y), [], []);
    Ends(ResponseTail(a, s, x, []));
    Ends(ResponseTail(b, t, y, []));
    HeadsSplit(a, s, VarBytes(x) + [] + [], b, t, VarBytes(y) + [] + []);
    VarBytesSplit(x, [], y, []);
  }

  lemma Ends<T>(s: seq<T>)
    ensures s + [] == s
  {
  }

  /** Equal MAC inputs mean equal exporter, challenge, key id, client nonce, time and capabilities. */
  lemma TranscriptIsInjective(t: Transcript, u: Transcript)
    requires Transcribable(t) && Transcribable(u) && TranscriptBytes(t) == TranscriptBytes(u)
    ensures t == u
  {
    var tailT := ResponseTail(t.clientNonce, t.clientTime, t.capabilities, []);
    var tailU := ResponseTail(u.clientNonce, u.clientTime, u.capabilities, []);
    var restT, restU := VarBytes(t.keyId) + tailT, VarBytes(u.keyId) + tailU;
    var c, d := EncodeChallenge(t.challenge).value, EncodeChallenge(u.challenge).value;
    FixedSplit(AUTH_LABEL, t.exporter + (c + restT), AUTH_LABEL, u.exporter + (d + restU));
    FixedSplit(t.exporter, c + restT, u.exporter, d + restU);
    ChallengeSplit(t.challenge, restT, u.challenge, restU);
    VarBytesSplit(t.keyId, tailT, u.keyId, tailU);
    TailSplit(t.clientNonce, t.clientTime, t.capabilities, u.clientNonce, u.clientTime, u.capabilities);
  }

  // ---------------------------------------------------------------------------------------------
  // Bytes and refusals.
  // ---------------------------------------------------------------------------------------------

  lemma LabelIs()
    ensures |AUTH_LABEL| == |"UK-AUTH-v1"| && forall i :: 0 <= i < |AUTH_LABEL| ==> AUTH_LABEL[i] as int == "UK-AUTH-v1"[i] as int
  {
  }

  /** The MAC covers the label, the exporter, the challenge as sent and the response as sent, but for its tag. */
  lemma MacCoversWhatIsSent(exporter: Block, c: Challenge, p: Response)
    requires EncodableChallenge(c) && EncodableResponse(p)
    ensures var sent := EncodeResponse(p).value;
      && |sent| >= 32 && sent[|sent| - 32..] == p.tag
      && TranscriptBytes(Transcript(exporter, c, p.keyId, p.clientNonce, p.clientTime, p.capabilities))
        == AUTH_LABEL + (exporter + (EncodeChallenge(c).value + sent[..|sent| - 32]))
  {
    var head, caps := p.clientNonce + TimeBytes(p.clientTime), VarBytes(p.capabilities);
    var front := VarBytes(p.keyId) + (head + (caps + []));
    assert EncodeResponse(p).value == front + p.tag by {
      Ends(caps);
      Associates(head, caps, p.tag);
      Associates(VarBytes(p.keyId), head + caps, p.tag);
    }
    Parts(front, p.tag);
  }

  /** Where the fields of a challenge sit. */
  lemma ChallengeLayout(c: Challenge)
    requires EncodableChallenge(c)
    ensures var s := EncodeChallenge(c).value; var m := 40 + |VarBytes(c.capabilities)|;
      && |s| == m + |VarBytes(c.limits)| && s[..32] == c.serverNonce && FromBigEndian(s[32..40]) == c.serverTime
      && s[m - |c.capabilities|..m] == c.capabilities && s[|s| - |c.limits|..] == c.limits
  {
    var s, caps, limits := EncodeChallenge(c).value, VarBytes(c.capabilities), VarBytes(c.limits);
    Sections(c.serverNonce, TimeBytes(c.serverTime), caps, limits);
    TimeBytesAre(c.serverTime, s[32..40]);
    FieldEnds(c.capabilities);
    FieldEnds(c.limits);
    Behind(s, 40, 40 + |caps|, |caps| - |c.capabilities|, c.capabilities);
    Behind(s, 40 + |caps|, |s|, |limits| - |c.limits|, c.limits);
    assert s[40 + |caps|..] == s[40 + |caps|..|s|];
  }

  lemma FieldEnds(b: seq<Byte>)
    requires |b| <= Varint.MAX_VARINT
    ensures VarBytes(b)[|VarBytes(b)| - |b|..] == b
  {
  }

  lemma TailLayout(p: Response)
    requires EncodableResponse(p)
    ensures var tail := ResponseTail(p.clientNonce, p.clientTime, p.capabilities, p.tag); var c := |VarBytes(p.capabilities)|;
      && |tail| == 40 + c + 32 && tail[..32] == p.clientNonce && FromBigEndian(tail[32..40]) == p.clientTime
      && tail[40 + c - |p.capabilities|..40 + c] == p.capabilities
  {
    var tail := ResponseTail(p.clientNonce, p.clientTime, p.capabilities, p.tag);
    var caps := VarBytes(p.capabilities);
    Sections(p.clientNonce, TimeBytes(p.clientTime), caps, p.tag);
    TimeBytesAre(p.clientTime, tail[32..40]);
    FieldEnds(p.capabilities);
    Behind(tail, 40, 40 + |caps|, |caps| - |p.capabilities|, p.capabilities);
  }

  /** Where the fields of a response sit. */
  lemma ResponseLayout(p: Response)
    requires EncodableResponse(p)
    ensures var s := EncodeResponse(p).value; var k := |VarBytes(p.keyId)|;
      && |s| == k + 40 + |VarBytes(p.capabilities)| + 32 && s[k - |p.keyId|..k] == p.keyId && s[k..k + 32] == p.clientNonce
      && FromBigEndian(s[k + 32..k + 40]) == p.clientTime && s[|s| - 32 - |p.capabilities|..|s| - 32] == p.capabilities
  {
    var s, k, c := EncodeResponse(p).value, |VarBytes(p.keyId)|, |VarBytes(p.capabilities)|;
    var tail := ResponseTail(p.clientNonce, p.clientTime, p.capabilities, p.tag);
    Parts(VarBytes(p.keyId), tail);
    TailLayout(p);
    FieldEnds(p.keyId);
    Behind(s, 0, k, k - |p.keyId|, p.keyId);
    Shifted(s, k, tail, 0, 32);
    Shifted(s, k, tail, 32, 40);
    Shifted(s, k, tail, 40 + c - |p.capabilities|, 40 + c);
  }

  lemma Shifted(s: seq<Byte>, k: nat, tail: seq<Byte>, low: nat, high: nat)
    requires k <= |s| && s[k..] == tail && low <= high <= |tail|
    ensures s[k + low..k + high] == tail[low..high]
  {
    assert s[k..][low..high] == s[k + low..k + high];
  }

  /** Bytes behind a whole challenge are refused, and so is a length over 1024 or past the end. */
  lemma FieldRefusals(c: Challenge, extra: seq<Byte>, length: U64, rest: seq<Byte>)
    requires length <= Varint.MAX_VARINT
    ensures EncodableChallenge(c) && extra != [] ==> DecodeChallenge(EncodeChallenge(c).value + extra) == Err(InvalidPayload)
    ensures length > 1024 || length > |rest| ==> ReadVarBytes(Varint.Encode(length).value + rest) == Refused(InvalidPayload)
  {
    Varint.RoundTrip(length, rest);
    if EncodableChallenge(c) && extra != [] {
      var src := EncodeChallenge(c).value + extra;
      var caps, limits := VarBytes(c.capabilities), VarBytes(c.limits);
      assert src[40..] == caps + (limits + extra);
      VarBytesRoundTrip(c.capabilities, limits + extra);
      Parts(caps, limits + extra);
      VarBytesRoundTrip(c.limits, extra);
    }
  }

  /** What is too short for its fixed fields is refused as such; 40 bytes then lack a length. */
  lemma ShortFormsAreRefused(src: seq<Byte>, keyId: seq<Byte>)
    ensures |src| < 40 ==> DecodeChallenge(src) == Err(InvalidPayload)
    ensures |src| == 40 ==> DecodeChallenge(src) == Err(ProtocolFailed(Truncated))
    ensures 1 <= |keyId| <= 64 && |src| < 73 ==> DecodeResponse(VarBytes(keyId) + src) == Err(InvalidPayload)
  {
    if 1 <= |keyId| <= 64 {
      KeyIdFirst(keyId, src);
    }
    if |src| == 40 {
      assert src[40..] == [];
    }
  }

  /** A key id of no byte or more than 64 is refused for its length alone. */
  lemma KeyIdLengthDecides(length: U64, rest: seq<Byte>)
    requires length <= Varint.MAX_VARINT && (length == 0 || length > 64)
    ensures DecodeResponse(Varint.Encode(length).value + rest) == Err(InvalidKeyIdLength)
  {
    Varint.RoundTrip(length, rest);
  }

  lemma UnencodableIsRefused(c: Challenge, p: Response)
    ensures |c.capabilities| > 1024 || |c.limits| > 1024 ==> EncodeChallenge(c) == Err(InvalidPayload)
    ensures p.keyId == [] || |p.keyId| > 64 ==> EncodeResponse(p) == Err(InvalidKeyIdLength)
    ensures 0 < |p.keyId| <= 64 && |p.capabilities| > 1024 ==> EncodeResponse(p) == Err(InvalidPayload)
  {
  }
}
