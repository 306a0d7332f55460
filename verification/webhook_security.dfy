/**
 * The webhook authenticator of app/Services/WebhookSecurityService.php: an
 * ordered sequence of checks on the request headers where the first failing
 * check decides the rejection code, and the signer used by the sending side.
 *
 * The clock (`time()`), the configuration read through `Env` and
 * HMAC-SHA256 (section 2 of RFC 2104 over SHA-256) are inputs: `hmac(key,
 * message)` stands for `hash_hmac('sha256', message, key)`, and
 * `hash_equals` is plain string equality.
 */
module WebhookSecurity {
  import opened Wrappers
  import opened Text
  import opened Digits

  const TokenHeader := "HTTP_X_WEBHOOK_TOKEN"
  const TimestampHeader := "HTTP_X_WEBHOOK_TIMESTAMP"
  const SignatureHeader := "HTTP_X_WEBHOOK_SIGNATURE"

  datatype Code = TokenInvalid | HeadersMissing | TimestampInvalid | TimestampExpired | SignatureInvalid

  /** The `code` string of a rejection. */
  function CodeName(c: Code): string {
    match c
    case TokenInvalid => "AUTH_TOKEN_INVALID"
    case HeadersMissing => "AUTH_HEADERS_MISSING"
    case TimestampInvalid => "AUTH_TIMESTAMP_INVALID"
    case TimestampExpired => "AUTH_TIMESTAMP_EXPIRED"
    case SignatureInvalid => "AUTH_SIGNATURE_INVALID"
  }

  /** The array `authorize` returns: `ok` with the timestamp, or a code and (for an expired timestamp) the timestamp as context. */
  datatype Verdict = Accepted(timestamp: nat) | Rejected(code: Code, context: Option<nat>)

  /** `WEBHOOK_TOKEN`, `WEBHOOK_HMAC_SECRET` and `WEBHOOK_TIMESTAMP_TOLERANCE_SEC` as `Env` supplies them. */
  datatype Settings = Settings(token: string, secret: string, tolerance: nat)

  /** `(string) ($server[$name] ?? '')`. */
  function Header(server: map<string, string>, name: string): string {
    if name in server then server[name] else ""
  }

  /** `ctype_digit`: a non-empty string of decimal digits. */
  predicate IsDigitString(s: string) {
    |s| > 0 && AllDigits(s)
  }

  function Distance(a: int, b: int): nat {
    if a >= b then a - b else b - a
  }

  /** A lower-case hexadecimal string, the form `hash_hmac` prints a digest in. */
  predicate IsLowerHex(s: string) {
    forall i :: 0 <= i < |s| ==> IsDigit(s[i]) || 'a' <= s[i] <= 'f'
  }

  /** The text after the first `=` when there is one (`sha256=<hex>`), trimmed and lower-cased. */
  function NormalizeSignature(signature: string): (r: string)
    ensures |r| <= |signature|
    ensures forall i :: 0 <= i < |r| ==> !('A' <= r[i] <= 'Z')
    ensures '=' !in signature ==> r == ToLower(Trim(signature))
    ensures '=' in signature ==> r == ToLower(Trim(SplitOnce(signature, '=').after))
  {
    var value := match SplitOnce(signature, '=')
      case Parts(_, after) => after
      case NoSeparator => signature;
    ToLower(Trim(value))
  }

  /** `hash_hmac('sha256', (string) $timestamp . '.' . $payload, $secret)`. */
  function SignPayload(hmac: (string, string) -> string, payload: string, timestamp: int, secret: string): string {
    hmac(secret, IntToString(timestamp) + "." + payload)
  }

  predicate TokenMatches(settings: Settings, server: map<string, string>) {
    settings.token != "" && Header(server, TokenHeader) == settings.token
  }

  /** `authorize`: the token, the presence of both headers, the timestamp's form, its age, then the signature. */
  function Authorize(hmac: (string, string) -> string, settings: Settings, now: int, payload: string, server: map<string, string>): (r: Verdict)
    ensures !TokenMatches(settings, server) ==> r == Rejected(TokenInvalid, None)
    ensures TokenMatches(settings, server) && (Header(server, TimestampHeader) == "" || Header(server, SignatureHeader) == "")
      ==> r == Rejected(HeadersMissing, None)
    ensures r.Accepted? <==>
      TokenMatches(settings, server) && Header(server, SignatureHeader) != "" &&
      IsDigitString(Header(server, TimestampHeader)) &&
      Distance(now, DigitsToNat(Header(server, TimestampHeader))) <= settings.tolerance &&
      NormalizeSignature(Header(server, SignatureHeader)) != "" &&
      NormalizeSignature(Header(server, SignatureHeader)) == hmac(settings.secret, Header(server, TimestampHeader) + "." + payload)
    ensures r.Accepted? ==> r.timestamp == DigitsToNat(Header(server, TimestampHeader))
    ensures r.Rejected? && r.context.Some? ==> r.code == TimestampExpired
  {
    var timestampText := Header(server, TimestampHeader);
    var signatureText := Header(server, SignatureHeader);
    if !TokenMatches(settings, server) then
      Rejected(TokenInvalid, None)
    else if timestampText == "" || signatureText == "" then
      Rejected(HeadersMissing, None)
    else if !AllDigits(timestampText) then
      Rejected(TimestampInvalid, None)
    else
      var timestamp := DigitsToNat(timestampText);
      if Distance(now, timestamp) > settings.tolerance then
        Rejected(TimestampExpired, Some(timestamp))
      else
        var provided := NormalizeSignature(signatureText);
        if provided == "" || hmac(settings.secret, timestampText + "." + payload) != provided then
          Rejected(SignatureInvalid, None)
        else
          Accepted(timestamp)
  }

  /** With the right token and both headers present, a timestamp header holding anything but digits is rejected as invalid. */
  lemma NonDigitTimestampRejected(hmac: (string, string) -> string, settings: Settings, now: int, payload: string, server: map<string, string>)
    requires TokenMatches(settings, server)
    requires Header(server, TimestampHeader) != "" && Header(server, SignatureHeader) != ""
    requires exists i :: 0 <= i < |Header(server, TimestampHeader)| && !IsDigit(Header(server, TimestampHeader)[i])
    ensures Authorize(hmac, settings, now, payload, server) == Rejected(TimestampInvalid, None)
  {
  }

  /**
   * Past the format check, a timestamp further than the tolerance from `now`
   * in either direction is rejected as expired and reported; one exactly at
   * the tolerance is not.
   */
  lemma ExpiryBoundary(hmac: (string, string) -> string, settings: Settings, now: int, payload: string, server: map<string, string>)
    requires TokenMatches(settings, server) && Header(server, SignatureHeader) != ""
    requires IsDigitString(Header(server, TimestampHeader))
    ensures var ts := DigitsToNat(Header(server, TimestampHeader));
      Authorize(hmac, settings, now, payload, server) == Rejected(TimestampExpired, Some(ts))
      <==> Distance(now, ts) > settings.tolerance
  {
  }

  /** Behind a prefix with no `=`, everything after the first `=` is kept, later `=` signs included, then trimmed and lower-cased. */
  lemma NormalizeAfterFirst(prefix: string, rest: string)
    requires '=' !in prefix
    ensures NormalizeSignature(prefix + "=" + rest) == ToLower(Trim(rest))
  {
    assert prefix + "=" + rest == prefix + ['='] + rest;
    SplitOnceAt(prefix, '=', rest);
  }

  /** Lower-case hexadecimal text, bare or behind a `name=` prefix, is its own normal form. */
  lemma NormalizeHex(prefix: string, digest: string)
    requires IsLowerHex(digest)
    requires '=' !in prefix
    ensures NormalizeSignature(digest) == digest
    ensures NormalizeSignature(prefix + "=" + digest) == digest
  {
    HexIsNormal(digest);
    assert '=' !in digest by {
      forall i | 0 <= i < |digest|
        ensures digest[i] != '='
      {
        assert IsDigit(digest[i]) || 'a' <= digest[i] <= 'f';
      }
    }
    NormalizeAfterFirst(prefix, digest);
  }

  lemma HexIsNormal(digest: string)
    requires IsLowerHex(digest)
    ensures ToLower(Trim(digest)) == digest
  {
    if |digest| > 0 {
      assert IsDigit(digest[0]) || 'a' <= digest[0] <= 'f';
      assert IsDigit(digest[|digest| - 1]) || 'a' <= digest[|digest| - 1] <= 'f';
    }
    TrimUnchanged(digest);
    forall i | 0 <= i < |digest|
      ensures LowerChar(digest[i]) == digest[i]
    {
      assert IsDigit(digest[i]) || 'a' <= digest[i] <= 'f';
    }
  }

  /**
   * The sending side and the receiving side agree: a request carrying the
   * configured token, a timestamp within the tolerance, and the signature
   * `signPayload` produces (bare or as `sha256=<hex>`) is accepted with that
   * timestamp, given that the digest is printed as non-empty lower-case hex.
   */
  lemma SignedRequestAccepted(hmac: (string, string) -> string, settings: Settings, now: int, payload: string,
                              timestamp: nat, prefixed: bool)
    requires settings.token != ""
    requires Distance(now, timestamp) <= settings.tolerance
    requires var d := SignPayload(hmac, payload, timestamp, settings.secret); d != "" && IsLowerHex(d)
    ensures var d := SignPayload(hmac, payload, timestamp, settings.secret);
      var server := map[TokenHeader := settings.token, TimestampHeader := IntToString(timestamp),
                        SignatureHeader := if prefixed then "sha256=" + d else d];
      Authorize(hmac, settings, now, payload, server) == Accepted(timestamp)
  {
    var d := SignPayload(hmac, payload, timestamp, settings.secret);
    var signature := if prefixed then "sha256=" + d else d;
    var server := map[TokenHeader := settings.token, TimestampHeader := IntToString(timestamp), SignatureHeader := signature];
    assert Header(server, TokenHeader) == settings.token;
    assert Header(server, TimestampHeader) == NatToDigits(timestamp);
    assert Header(server, SignatureHeader) == signature;
    assert NormalizeSignature(signature) == d by {
      assert "sha256=" + d == "sha256" + "=" + d;
      assert '=' !in "sha256";
      NormalizeHex("sha256", d);
    }
    AcceptedWhen(hmac, settings, now, payload, server);
  }

  lemma AcceptedWhen(hmac: (string, string) -> string, settings: Settings, now: int, payload: string, server: map<string, string>)
    requires TokenMatches(settings, server) && IsDigitString(Header(server, TimestampHeader))
    requires Distance(now, DigitsToNat(Header(server, TimestampHeader))) <= settings.tolerance
    requires var provided := NormalizeSignature(Header(server, SignatureHeader));
      provided != "" && provided == hmac(settings.secret, Header(server, TimestampHeader) + "." + payload)
    ensures Authorize(hmac, settings, now, payload, server) == Accepted(DigitsToNat(Header(server, TimestampHeader)))
  {
  }

  /** A tampered payload is caught: if the digest of what arrived differs from the signed one, the signature check fails. */
  lemma TamperedPayloadRejected(hmac: (string, string) -> string, settings: Settings, now: int,
                                signed: string, received: string, timestamp: nat)
    requires settings.token != ""
    requires Distance(now, timestamp) <= settings.tolerance
    requires var d := SignPayload(hmac, signed, timestamp, settings.secret); d != "" && IsLowerHex(d)
    requires SignPayload(hmac, received, timestamp, settings.secret) != SignPayload(hmac, signed, timestamp, settings.secret)
    ensures var server := map[TokenHeader := settings.token, TimestampHeader := IntToString(timestamp),
                              SignatureHeader := SignPayload(hmac, signed, timestamp, settings.secret)];
      Authorize(hmac, settings, now, received, server) == Rejected(SignatureInvalid, None)
  {
    var d := SignPayload(hmac, signed, timestamp, settings.secret);
    var server := map[TokenHeader := settings.token, TimestampHeader := IntToString(timestamp), SignatureHeader := d];
    assert Header(server, TokenHeader) == settings.token;
    assert Header(server, TimestampHeader) == NatToDigits(timestamp);
    assert Header(server, SignatureHeader) == d;
    NormalizeHex("sha256", d);
    assert NormalizeSignature(d) == d;
    assert hmac(settings.secret, Header(server, TimestampHeader) + "." + received) == SignPayload(hmac, received, timestamp, settings.secret);
    RejectedWhen(hmac, settings, now, received, server);
  }

  lemma RejectedWhen(hmac: (string, string) -> string, settings: Settings, now: int, payload: string, server: map<string, string>)
    requires TokenMatches(settings, server) && IsDigitString(Header(server, TimestampHeader))
    requires Distance(now, DigitsToNat(Header(server, TimestampHeader))) <= settings.tolerance
    requires Header(server, SignatureHeader) != ""
    requires NormalizeSignature(Header(server, SignatureHeader)) != hmac(settings.secret, Header(server, TimestampHeader) + "." + payload)
    ensures Authorize(hmac, settings, now, payload, server) == Rejected(SignatureInvalid, None)
  {
  }
}
