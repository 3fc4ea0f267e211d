/**
  Hex normalisation (bee_connect/src/message.rs) and the connect payload with its profile
  description (bee_connect/src/client.rs). The JSON and base64url layers are an inverse pair
  and are not modelled: a payload here is the record they carry.
 */
module ConnectPayload {
  import opened Prelude

  const DEEPLINK_VERSION := "bee_connect.dl/1"
  const DESCRIPTION_PREFIX := "bee_connect:"
  const DESCRIPTION_VERSION := "v1"
  const DEFAULT_TTL_SECS: u64 := 300

  // --- Hex normalisation ---

  predicate IsHexDigit(c: char) {
    '0' <= c <= '9' || 'a' <= c <= 'f' || 'A' <= c <= 'F'
  }

  predicate AllHex(s: string) {
    forall i | 0 <= i < |s| :: IsHexDigit(s[i])
  }

  function Lower(c: char): char {
    if 'A' <= c <= 'Z' then (c as int + 32) as char else c
  }

  function LowerAll(s: string): string {
    seq(|s|, i requires 0 <= i < |s| => Lower(s[i]))
  }

  function Zeros(n: nat): string {
    seq(n, _ => '0')
  }

  function StripPrefix(v: string): string {
    if |v| >= 2 && (v[..2] == "0x" || v[..2] == "0X") then v[2..] else v
  }

  function NormalizeUint256Hex(v: string): Option<string> {
    var s := StripPrefix(v);
    if s == "" || |s| > 64 || !AllHex(s) then None
    else Some("0x" + Zeros(64 - |s|) + LowerAll(s))
  }

  function NormalizeOwnerPublicHex(v: string): Option<string> {
    var s := StripPrefix(v);
    if |s| != 64 || !AllHex(s) then None else Some(LowerAll(s))
  }

  function DigitValue(c: char): (d: nat)
    requires IsHexDigit(c)
    ensures d < 16
  {
    if c <= '9' then c as int - '0' as int
    else if c <= 'F' then c as int - 'A' as int + 10
    else c as int - 'a' as int + 10
  }

  /** The number a hex string denotes. */
  function Number(s: string): nat
    requires AllHex(s)
  {
    if s == "" then 0 else 16 * Number(s[..|s| - 1]) + DigitValue(s[|s| - 1])
  }

  predicate AllLowerHex(s: string) {
    forall i | 0 <= i < |s| :: IsLowerHex(s[i])
  }

  lemma {:induction false} PaddedLowerNumber(s: string, n: nat)
    requires AllHex(s)
    ensures AllLowerHex(Zeros(n) + LowerAll(s)) && AllHex(Zeros(n) + LowerAll(s))
    ensures Number(Zeros(n) + LowerAll(s)) == Number(s)
    decreases |s|, n
  {
    var t := Zeros(n) + LowerAll(s);
    if s == "" {
      if n > 0 {
        PaddedLowerNumber(s, n - 1);
        assert t[..|t| - 1] == Zeros(n - 1) + LowerAll(s);
      }
    } else {
      PaddedLowerNumber(s[..|s| - 1], n);
      assert t[..|t| - 1] == Zeros(n) + LowerAll(s[..|s| - 1]);
    }
  }

  lemma {:induction false} LastDigit(a: nat, d: nat, b: nat, e: nat)
    requires d < 16 && e < 16 && 16 * a + d == 16 * b + e
    ensures a == b && d == e
  {
  }

  predicate IsLowerHex(c: char) {
    '0' <= c <= '9' || 'a' <= c <= 'f'
  }

  lemma {:induction false} LowerDigitInjective(c: char, d: char)
    requires IsLowerHex(c) && IsLowerHex(d) && DigitValue(c) == DigitValue(d)
    ensures c == d
  {
  }

  lemma {:induction false} FixedWidthInjective(s: string, t: string)
    requires AllLowerHex(s) && AllLowerHex(t) && |s| == |t|
    requires AllHex(s) && AllHex(t) && Number(s) == Number(t)
    ensures s == t
  {
    if s == "" {
    } else {
      var s', t' := s[..|s| - 1], t[..|t| - 1];
      var c, d := s[|s| - 1], t[|t| - 1];
      LastDigit(Number(s'), DigitValue(c), Number(t'), DigitValue(d));
      LowerDigitInjective(c, d);
      FixedWidthInjective(s', t');
      assert s == s' + [c] && t == t' + [d];
    }
  }

  /** `digits`, with or without a hex prefix. */
  predicate WithPrefix(v: string, digits: string) {
    v == digits || v == "0x" + digits || v == "0X" + digits
  }

  lemma {:induction false} StripExactly(v: string)
    ensures WithPrefix(v, StripPrefix(v))
    ensures forall d: string | AllHex(d) && WithPrefix(v, d) :: d == StripPrefix(v)
  {
    var s := StripPrefix(v);
    if s != v {
      assert v == v[..2] + v[2..];
    }
    forall d: string | AllHex(d) && WithPrefix(v, d) ensures d == s {
      if v == d {
        assert |v| >= 2 ==> IsHexDigit(v[1]);
        assert |v| >= 2 ==> v[..2][1] == v[1];
      } else {
        assert v[..2] == "0x" || v[..2] == "0X";
        assert v[2..] == d;
      }
    }
  }

  /** Which strings normalise: an optional prefix and 1 to 64 hex digits; for an owner key exactly 64. */
  lemma {:induction false} NormalizesExactly(v: string)
    ensures NormalizeUint256Hex(v).Some? <==> exists d: string :: WithPrefix(v, d) && AllHex(d) && 1 <= |d| <= 64
    ensures NormalizeOwnerPublicHex(v).Some? <==> exists d: string :: WithPrefix(v, d) && AllHex(d) && |d| == 64
  {
    StripExactly(v);
    var s := StripPrefix(v);
    assert WithPrefix(v, s);
  }

  /** The normal form is `0x` and 64 lower-case digits of the same number. */
  lemma {:induction false} NormalForm(v: string)
    requires NormalizeUint256Hex(v).Some?
    ensures var r := NormalizeUint256Hex(v).value;
            && |r| == 66 && r[..2] == "0x" && AllLowerHex(r[2..]) && AllHex(r[2..])
            && AllHex(StripPrefix(v)) && Number(r[2..]) == Number(StripPrefix(v))
  {
    var s := StripPrefix(v);
    PaddedLowerNumber(s, 64 - |s|);
    assert ("0x" + Zeros(64 - |s|) + LowerAll(s))[2..] == Zeros(64 - |s|) + LowerAll(s);
  }

  /** Normalising is idempotent, and canonical: two accepted inputs agree exactly when they denote one number. */
  lemma {:induction false} NormalFormIsCanonical(v: string, w: string)
    requires NormalizeUint256Hex(v).Some? && NormalizeUint256Hex(w).Some?
    ensures NormalizeUint256Hex(NormalizeUint256Hex(v).value) == NormalizeUint256Hex(v)
    ensures AllHex(StripPrefix(v)) && AllHex(StripPrefix(w))
    ensures NormalizeUint256Hex(v) == NormalizeUint256Hex(w) <==> Number(StripPrefix(v)) == Number(StripPrefix(w))
  {
    NormalForm(v);
    NormalForm(w);
    var r, q := NormalizeUint256Hex(v).value, NormalizeUint256Hex(w).value;
    assert r == "0x" + r[2..] && q == "0x" + q[2..];
    assert StripPrefix(r) == r[2..] && LowerAll(r[2..]) == r[2..];
    assert "0x" + Zeros(0) + r[2..] == r;
    if Number(r[2..]) == Number(q[2..]) {
      FixedWidthInjective(r[2..], q[2..]);
    }
  }

  lemma {:induction false} NormalFormHasNoColon(v: string)
    requires NormalizeUint256Hex(v).Some?
    ensures ':' !in NormalizeUint256Hex(v).value
  {
    NormalForm(v);
    var id := NormalizeUint256Hex(v).value;
    assert forall i | 2 <= i < |id| :: id[i] == id[2..][i - 2];
    assert id == "0x" + id[2..];
  }

  /** An owner key's normal form is 64 lower-case digits of the same number, and its own normal form. */
  lemma {:induction false} OwnerNormalForm(v: string)
    requires NormalizeOwnerPublicHex(v).Some?
    ensures var r := NormalizeOwnerPublicHex(v).value;
            && |r| == 64 && AllLowerHex(r) && AllHex(r) && AllHex(StripPrefix(v)) && Number(r) == Number(StripPrefix(v))
            && NormalizeOwnerPublicHex(r) == Some(r)
  {
    var s := StripPrefix(v);
    PaddedLowerNumber(s, 0);
    var r := LowerAll(s);
    assert Zeros(0) + r == r;
    assert r[1] != 'x' && r[1] != 'X' by { assert IsLowerHex(r[1]); }
    assert StripPrefix(r) == r by {
      assert |r| >= 2 ==> r[..2][1] == r[1];
    }
    assert LowerAll(r) == r by { assert forall i | 0 <= i < |r| :: IsLowerHex(r[i]); }
  }

  // --- Descriptions and payloads ---

  /** Rust's `str::split(':')`: never empty. */
  function Split(s: string): (parts: seq<string>)
    ensures |parts| >= 1
  {
    if s == "" then [""]
    else if s[0] == ':' then [""] + Split(s[1..])
    else
      var rest := Split(s[1..]);
      [[s[0]] + rest[0]] + rest[1..]
  }

  datatype Description = Description(appId: Option<string>, sessionId: Option<string>)

  function ParseDescription(v: string): Description {
    if !(DESCRIPTION_PREFIX <= v) then Description(None, None)
    else
      var parts := Split(v[|DESCRIPTION_PREFIX|..]);
      if parts[0] != DESCRIPTION_VERSION || |parts| < 3 then Description(None, None)
      else
        var appId := NormalizeUint256Hex(parts[1]);
        if appId.None? || parts[2] == "" then Description(None, None)
        else Description(appId, Some(parts[2]))
  }

  datatype Payload = Payload(
    v: string,
    sessionId: string,
    description: string,
    expiresAt: u64,
    appId: string,
    nonce: Option<string>)

  predicate ValidShape(p: Payload) {
    && p.v == DEEPLINK_VERSION && !IsBlank(p.sessionId) && !IsBlank(p.description)
    && p.expiresAt != 0 && NormalizeUint256Hex(p.appId).Some?
  }

  /** `decode_connect_payload_b64url` after the text layers. */
  function DecodePayload(p: Payload): Option<Payload> {
    if !ValidShape(p) then None
    else
      var q := p.(appId := NormalizeUint256Hex(p.appId).value);
      var d := ParseDescription(q.description);
      if d.appId != Some(q.appId) || d.sessionId != Some(q.sessionId) then None else Some(q)
  }

  /** `create_session_common`; the two tokens are the random base64url strings it draws. */
  function CreatePayload(
    appId: string, ttl: Option<u64>, nonce: Option<string>, now: u64, sessionToken: string, tailToken: string)
    : Option<Payload>
  {
    var ttlSecs := match ttl case None => DEFAULT_TTL_SECS case Some(t) => if t < 1 then 1 else t;
    match NormalizeUint256Hex(appId)
    case None => None
    case Some(id) =>
      Some(Payload(DEEPLINK_VERSION, sessionToken, Describe(id, sessionToken, tailToken),
                   SatAdd(now, ttlSecs), id, nonce))
  }

  /** A base64url token without padding: letters, digits, `-` and `_`. */
  predicate IsToken(s: string) {
    s != "" && forall i | 0 <= i < |s| ::
      'a' <= s[i] <= 'z' || 'A' <= s[i] <= 'Z' || '0' <= s[i] <= '9' || s[i] == '-' || s[i] == '_'
  }

  lemma {:induction false} SplitFirst(a: string, rest: string)
    requires ':' !in a
    ensures Split(a + ":" + rest) == [a] + Split(rest)
  {
    if a == "" {
      assert (a + ":" + rest)[1..] == rest;
    } else {
      assert (a + ":" + rest)[1..] == a[1..] + ":" + rest;
      SplitFirst(a[1..], rest);
      assert [a[0]] + a[1..] == a;
    }
  }

  function Describe(id: string, sessionToken: string, tailToken: string): string {
    DESCRIPTION_PREFIX + (DESCRIPTION_VERSION + ":" + (id + ":" + (sessionToken + ":" + tailToken)))
  }

  /** A description splits back into the app id and session id it was made from. */
  lemma {:induction false} DescriptionParses(id: string, sessionToken: string, tailToken: string)
    requires ':' !in id && NormalizeUint256Hex(id) == Some(id) && IsToken(sessionToken)
    ensures ParseDescription(Describe(id, sessionToken, tailToken)) == Description(Some(id), Some(sessionToken))
    ensures !IsBlank(Describe(id, sessionToken, tailToken))
  {
    var d := Describe(id, sessionToken, tailToken);
    var tail := sessionToken + ":" + tailToken;
    assert ':' !in DESCRIPTION_VERSION && ':' !in sessionToken;
    SplitFirst(DESCRIPTION_VERSION, id + ":" + tail);
    SplitFirst(id, tail);
    SplitFirst(sessionToken, tailToken);
    assert d[|DESCRIPTION_PREFIX|..] == DESCRIPTION_VERSION + ":" + (id + ":" + tail);
    assert d[0] == 'b' && !IsWhitespace(d[0]);
  }

  /** Every payload a client makes decodes to the same payload; it is made exactly when the app id normalises. */
  lemma {:induction false} CreatedPayloadDecodes(
    appId: string, ttl: Option<u64>, nonce: Option<string>, now: u64, sessionToken: string, tailToken: string)
    requires IsToken(sessionToken)
    ensures var p := CreatePayload(appId, ttl, nonce, now, sessionToken, tailToken);
            && (p.Some? <==> NormalizeUint256Hex(appId).Some?)
            && (p.Some? ==> DecodePayload(p.value) == p && p.value.sessionId == sessionToken
                            && Some(p.value.appId) == NormalizeUint256Hex(appId))
  {
    if NormalizeUint256Hex(appId).Some? {
      var id := NormalizeUint256Hex(appId).value;
      NormalFormIsCanonical(appId, appId);
      NormalFormHasNoColon(appId);
      var tail := sessionToken + ":" + tailToken;
      DescriptionParses(id, sessionToken, tailToken);
      assert !IsWhitespace(sessionToken[0]);
    }
  }

  // --- What decodes ---

  /** A string up to its first colon is its first part; what follows the colon gives the others. */
  lemma {:induction false} SplitHead(s: string) returns (tail: string)
    ensures ':' !in Split(s)[0]
    ensures if |Split(s)| == 1 then s == Split(s)[0]
            else s == Split(s)[0] + ":" + tail && Split(tail) == Split(s)[1..]
  {
    if s == "" {
      tail := "";
    } else if s[0] == ':' {
      tail := s[1..];
      assert s == "" + ":" + tail;
    } else {
      tail := SplitHead(s[1..]);
      assert s == [s[0]] + s[1..];
    }
  }

  /** A description: the prefix and version, an app id as it stands there, a session id, and a rest. */
  predicate Names(description: string, appId: string, sessionId: string, rest: string) {
    && ':' !in appId && ':' !in sessionId && sessionId != "" && (rest == "" || rest[0] == ':')
    && description == DESCRIPTION_PREFIX + (DESCRIPTION_VERSION + ":" + (appId + ":" + (sessionId + rest)))
  }

  /** What every description begins with. */
  lemma {:induction false} NamesBegins(description: string, appId: string, sessionId: string, rest: string)
    requires Names(description, appId, sessionId, rest)
    ensures |description| >= 15 && description[..15] == "bee_connect:v1:"
    ensures description[15..] == appId + ":" + sessionId + rest
  {
    var head := DESCRIPTION_PREFIX + DESCRIPTION_VERSION + ":";
    assert head == "bee_connect:v1:";
    assert description == head + (appId + ":" + (sessionId + rest));
  }

  /** A string of three parts or more, put together again. */
  lemma {:induction false} ThreeParts(s: string) returns (rest: string)
    requires |Split(s)| >= 3
    ensures var parts := Split(s);
            && ':' !in parts[1] && ':' !in parts[2] && (rest == "" || rest[0] == ':')
            && s == parts[0] + ":" + (parts[1] + ":" + (parts[2] + rest))
  {
    var s1 := SplitHead(s);
    var s2 := SplitHead(s1);
    var s3 := SplitHead(s2);
    rest := if |Split(s2)| == 1 then "" else ":" + s3;
    assert s2 == Split(s2)[0] + rest;
  }

  lemma {:induction false} ParsedNames(v: string) returns (appId: string, rest: string)
    requires ParseDescription(v).appId.Some?
    ensures var d := ParseDescription(v);
            && d.sessionId.Some? && Names(v, appId, d.sessionId.value, rest)
            && NormalizeUint256Hex(appId) == d.appId
  {
    var s := v[|DESCRIPTION_PREFIX|..];
    assert v == DESCRIPTION_PREFIX + s;
    rest := ThreeParts(s);
    appId := Split(s)[1];
  }

  lemma {:induction false} NamedParses(v: string, appId: string, sessionId: string, rest: string)
    requires Names(v, appId, sessionId, rest) && NormalizeUint256Hex(appId).Some?
    ensures ParseDescription(v) == Description(NormalizeUint256Hex(appId), Some(sessionId))
    ensures !IsBlank(v)
  {
    var tail := sessionId + rest;
    var s := DESCRIPTION_VERSION + ":" + (appId + ":" + tail);
    assert v[|DESCRIPTION_PREFIX|..] == s;
    assert v[0] == 'b' && !IsWhitespace(v[0]);
    assert ':' !in DESCRIPTION_VERSION;
    SplitFirst(DESCRIPTION_VERSION, appId + ":" + tail);
    SplitFirst(appId, tail);
    assert Split(tail)[0] == sessionId by {
      if rest == "" {
        assert tail == sessionId;
        SplitWhole(sessionId);
      } else {
        assert tail == sessionId + ":" + rest[1..];
        SplitFirst(sessionId, rest[1..]);
      }
    }
  }

  /** Every payload that decodes is whole and names its own app id and session id in its description. */
  lemma {:induction false} DecodedNamesItself(p: Payload) returns (appId: string, rest: string)
    requires DecodePayload(p).Some?
    ensures var q := DecodePayload(p).value;
            && q == p.(appId := q.appId) && Some(q.appId) == NormalizeUint256Hex(p.appId)
            && p.v == "bee_connect.dl/1" && p.expiresAt != 0 && !IsBlank(p.sessionId)
            && Names(p.description, appId, p.sessionId, rest) && NormalizeUint256Hex(appId) == Some(q.appId)
  {
    appId, rest := ParsedNames(p.description);
  }

  /** And every such payload decodes. */
  lemma {:induction false} NamedPayloadDecodes(p: Payload, appId: string, rest: string)
    requires p.v == "bee_connect.dl/1" && p.expiresAt != 0 && !IsBlank(p.sessionId)
    requires Names(p.description, appId, p.sessionId, rest)
    requires NormalizeUint256Hex(appId).Some? && NormalizeUint256Hex(p.appId) == NormalizeUint256Hex(appId)
    ensures DecodePayload(p) == Some(p.(appId := NormalizeUint256Hex(appId).value))
  {
    NamedParses(p.description, appId, p.sessionId, rest);
  }

  /** A created payload: its ids in the description, the nonce, and an expiry 300 seconds ahead or as asked. */
  lemma {:induction false} CreatedPayloadIs(
    appId: string, ttl: Option<u64>, nonce: Option<string>, now: u64, sessionToken: string, tailToken: string)
    requires IsToken(sessionToken) && NormalizeUint256Hex(appId).Some?
    ensures var p := CreatePayload(appId, ttl, nonce, now, sessionToken, tailToken);
            && p.Some? && p.value.nonce == nonce
            && Names(p.value.description, NormalizeUint256Hex(appId).value, sessionToken, ":" + tailToken)
            && (ttl.None? && now + 300 < U64_LIMIT ==> p.value.expiresAt == now + 300)
            && (ttl.Some? && ttl.value > 0 && now + ttl.value < U64_LIMIT ==> p.value.expiresAt == now + ttl.value)
            && (ttl == Some(0) && now < U64_MAX ==> p.value.expiresAt == now + 1)
  {
    NormalFormHasNoColon(appId);
    assert ':' !in sessionToken;
    var id := NormalizeUint256Hex(appId).value;
    assert sessionToken + ":" + tailToken == sessionToken + (":" + tailToken);
  }

  lemma {:induction false} SplitWhole(a: string)
    requires ':' !in a
    ensures Split(a) == [a]
  {
    if a == "" {
    } else {
      SplitWhole(a[1..]);
      assert [a[0]] + a[1..] == a;
    }
  }
}
