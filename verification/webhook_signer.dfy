/** Stripe-style webhook signing: the signed message is the timestamp, a dot
    and the body; the signature is the HMAC (section 2 of RFC 2104) over
    SHA-256 of that message under the shared secret, hex-encoded. The MAC
    itself is a parameter `mac(key, message)`, any deterministic function;
    the clock and `JSON.stringify` are inputs too. */
module WebhookSigner {
  import opened Wrappers
  import Decimal
  import JsStrings

  /** HMAC-SHA256, hex digest: key, then message. */
  type Mac = (string, string) -> string

  /** A signer configured with the merchant's shared secret. */
  datatype Signer = Signer(secret: string)

  /** The headers sent with a webhook. */
  datatype Headers = Headers(pspTimestamp: string, pspSignature: string, contentType: string)

  /** `crypto.timingSafeEqual` refuses buffers of different byte length. */
  datatype VerifyError = LengthMismatch

  /** The message that is MACed. */
  function SignedMessage(timestamp: int, payload: string): string {
    Decimal.IntToString(timestamp) + "." + payload
  }

  /** `signPayload`. */
  function SignPayload(signer: Signer, mac: Mac, payload: string, timestamp: int): (signature: string)
    ensures signature == mac(signer.secret, Decimal.IntToString(timestamp) + "." + payload)
  {
    mac(signer.secret, SignedMessage(timestamp, payload))
  }

  /** Whole seconds of a millisecond clock reading (`Math.floor(ms / 1000)`). */
  function UnixSeconds(nowMs: nat): (seconds: nat)
    ensures seconds * 1000 <= nowMs < seconds * 1000 + 1000
  {
    nowMs / 1000
  }

  /** The `psp-signature` header value. */
  function SignatureHeader(timestamp: int, signature: string): string {
    "t=" + Decimal.IntToString(timestamp) + ", v1=" + signature
  }

  /** `generateHeaders`, given the clock reading and the serialised body. */
  function GenerateHeaders(signer: Signer, mac: Mac, body: string, nowMs: nat): (h: Headers)
    ensures var ts := UnixSeconds(nowMs);
      && h.pspTimestamp == Decimal.IntToString(ts)
      && h.pspSignature == "t=" + Decimal.IntToString(ts) + ", v1=" + SignPayload(signer, mac, body, ts)
    ensures h.contentType == "application/json"
  {
    var timestamp := UnixSeconds(nowMs);
    var signature := SignPayload(signer, mac, body, timestamp);
    Headers(Decimal.IntToString(timestamp), SignatureHeader(timestamp, signature), "application/json")
  }

  /** Number of bytes `c` takes in UTF-8 (`Buffer.from` encodes strings as UTF-8). */
  function Utf8Width(c: char): (n: nat)
    ensures 1 <= n <= 4
  {
    if c as int < 0x80 then 1 else if c as int < 0x800 then 2 else if c as int < 0x10000 then 3 else 4
  }

  function Utf8Length(s: string): (n: nat)
    ensures |s| <= n <= 4 * |s|
    decreases |s|
  {
    if |s| == 0 then 0 else Utf8Width(s[0]) + Utf8Length(s[1..])
  }

  /** `verifySignature`: recompute and compare. The comparison fails with an
      error when the two strings' UTF-8 encodings differ in length and
      otherwise answers whether they are equal. A `char` is a Unicode scalar
      value, so strings here are well formed, and for those UTF-8 is
      injective: byte equality is string equality. */
  function VerifySignature(signer: Signer, mac: Mac, payload: string, timestamp: int, signature: string): (r: Result<bool, VerifyError>)
    ensures r.Failure? <==> Utf8Length(SignPayload(signer, mac, payload, timestamp)) != Utf8Length(signature)
    ensures r.Success? ==> (r.value <==> signature == SignPayload(signer, mac, payload, timestamp))
  {
    var expected := SignPayload(signer, mac, payload, timestamp);
    if Utf8Length(expected) != Utf8Length(signature) then Failure(LengthMismatch)
    else Success(expected == signature)
  }

  /** Every character is in the ASCII range, as in a hex digest. */
  predicate IsAscii(s: string) {
    forall k :: 0 <= k < |s| ==> s[k] as int < 0x80
  }

  /** An ASCII string takes one byte per character. */
  lemma {:induction false} AsciiUtf8Length(s: string)
    requires IsAscii(s)
    ensures Utf8Length(s) == |s|
    decreases |s|
  {
    if |s| > 0 {
      assert IsAscii(s[1..]) by {
        forall k | 0 <= k < |s[1..]| ensures s[1..][k] as int < 0x80 {
          assert s[1..][k] == s[k + 1];
        }
      }
      AsciiUtf8Length(s[1..]);
    }
  }

  /** When the expected tag and the offered signature are both ASCII (the
      real tag is a 64-character hex digest), the length error is raised
      exactly when their character counts differ. */
  lemma AsciiLengthMismatch(signer: Signer, mac: Mac, payload: string, timestamp: int, signature: string)
    requires IsAscii(SignPayload(signer, mac, payload, timestamp)) && IsAscii(signature)
    ensures VerifySignature(signer, mac, payload, timestamp, signature).Failure?
      <==> |SignPayload(signer, mac, payload, timestamp)| != |signature|
  {
    AsciiUtf8Length(SignPayload(signer, mac, payload, timestamp));
    AsciiUtf8Length(signature);
  }

  /** Splits a signed message at its first dot. */
  function ParseSignedMessage(message: string): Option<(int, string)> {
    match JsStrings.IndexOf(message, '.')
    case None => None
    case Some(k) =>
      match Decimal.ParseInt(message[..k])
      case None => None
      case Some(ts) => Some((ts, message[k + 1..]))
  }

  /** Reads `t=<ts>, v1=<sig>` back into its two parts. */
  function ParseSignatureHeader(header: string): Option<(int, string)> {
    if |header| < 2 || header[..2] != "t=" then None
    else
      var rest := header[2..];
      match JsStrings.IndexOf(rest, ',')
      case None => None
      case Some(k) =>
        var tail := rest[k..];
        if |tail| < 5 || tail[..5] != ", v1=" then None
        else match Decimal.ParseInt(rest[..k])
          case None => None
          case Some(ts) => Some((ts, tail[5..]))
  }

  /** The framing is unambiguous: timestamp and body can be read back from the signed message. */
  lemma SignedMessageRoundTrip(timestamp: int, payload: string)
    ensures ParseSignedMessage(SignedMessage(timestamp, payload)) == Some((timestamp, payload))
  {
    var t := Decimal.IntToString(timestamp);
    Decimal.IntToStringAvoids(timestamp, '.');
    JsStrings.IndexOfAfterPrefix(t, '.', payload);
    var m := SignedMessage(timestamp, payload);
    assert m == t + ['.'] + payload;
    assert m[..|t|] == t;
    assert m[|t| + 1..] == payload;
    Decimal.IntRoundTrip(timestamp);
  }

  /** Hence different (timestamp, body) pairs never present the same message to the MAC. */
  lemma SignedMessageInjective(t1: int, p1: string, t2: int, p2: string)
    requires SignedMessage(t1, p1) == SignedMessage(t2, p2)
    ensures t1 == t2 && p1 == p2
  {
    SignedMessageRoundTrip(t1, p1);
    SignedMessageRoundTrip(t2, p2);
  }

  /** Same secret, body and timestamp give the same signature. */
  lemma SignDeterministic(s1: Signer, s2: Signer, mac: Mac, p1: string, p2: string, t1: int, t2: int)
    requires s1.secret == s2.secret && p1 == p2 && t1 == t2
    ensures SignPayload(s1, mac, p1, t1) == SignPayload(s2, mac, p2, t2)
  {
  }

  /** A signature verifies against the body and timestamp it was made for. */
  lemma SignVerifyRoundTrip(signer: Signer, mac: Mac, payload: string, timestamp: int)
    ensures VerifySignature(signer, mac, payload, timestamp, SignPayload(signer, mac, payload, timestamp)) == Success(true)
  {
  }

  /** A different signature of the same byte length is refused. */
  lemma WrongSignatureRefused(signer: Signer, mac: Mac, payload: string, timestamp: int, signature: string)
    requires signature != SignPayload(signer, mac, payload, timestamp)
    requires Utf8Length(signature) == Utf8Length(SignPayload(signer, mac, payload, timestamp))
    ensures VerifySignature(signer, mac, payload, timestamp, signature) == Success(false)
  {
  }

  /** A signature accepted for an altered body or timestamp means the MAC
      gave the same tag for two different messages. */
  lemma ForgeryNeedsMacCollision(signer: Signer, mac: Mac, payload: string, timestamp: int, payload': string, timestamp': int)
    requires (payload, timestamp) != (payload', timestamp')
    requires VerifySignature(signer, mac, payload', timestamp', SignPayload(signer, mac, payload, timestamp)) == Success(true)
    ensures SignedMessage(timestamp, payload) != SignedMessage(timestamp', payload')
    ensures mac(signer.secret, SignedMessage(timestamp, payload)) == mac(signer.secret, SignedMessage(timestamp', payload'))
  {
    if SignedMessage(timestamp, payload) == SignedMessage(timestamp', payload') {
      SignedMessageInjective(timestamp, payload, timestamp', payload');
    }
  }

  /** The signature header can be read back into its timestamp and signature. */
  lemma SignatureHeaderRoundTrip(timestamp: int, signature: string)
    ensures ParseSignatureHeader(SignatureHeader(timestamp, signature)) == Some((timestamp, signature))
  {
    var t := Decimal.IntToString(timestamp);
    var header := SignatureHeader(timestamp, signature);
    assert header[..2] == "t=";
    var rest := header[2..];
    assert rest == t + [','] + (" v1=" + signature);
    Decimal.IntToStringAvoids(timestamp, ',');
    JsStrings.IndexOfAfterPrefix(t, ',', " v1=" + signature);
    assert rest[..|t|] == t;
    var tail := rest[|t|..];
    assert tail == ", v1=" + signature;
    assert tail[..5] == ", v1=" && tail[5..] == signature;
    Decimal.IntRoundTrip(timestamp);
  }

  /** The headers carry one timestamp, in both places, and a receiver that
      reads it and the signature back from them verifies the body. */
  lemma HeadersVerify(signer: Signer, mac: Mac, body: string, nowMs: nat)
    ensures var h := GenerateHeaders(signer, mac, body, nowMs);
      match ParseSignatureHeader(h.pspSignature)
      case None => false
      case Some((ts, signature)) =>
        && ts == UnixSeconds(nowMs)
        && Decimal.ParseInt(h.pspTimestamp) == Some(ts)
        && VerifySignature(signer, mac, body, ts, signature) == Success(true)
  {
    var ts := UnixSeconds(nowMs);
    Decimal.IntRoundTrip(ts);
    SignatureHeaderRoundTrip(ts, SignPayload(signer, mac, body, ts));
  }
}
