/** The request verifier of `src/middleware/slackAuth.js`: Slack's `v0`
    signing scheme. The HMAC-SHA-256 digest (RFC 2104 over FIPS 180-4) with
    hex encoding is a parameter, as are the clock and the signing secret. */
module SlackAuth {
  import opened Wrappers
  import opened JsNumber

  /** The replay window, in seconds. */
  const ToleranceSeconds: int := 60 * 5

  /** `hex(HMAC-SHA-256(key, message))`, left uninterpreted. */
  type HmacHex = (string, string) -> string

  /** The parts of an inbound request the verifier reads: the
      `x-slack-request-timestamp` and `x-slack-signature` headers and the raw
      body captured by the body parser (absent when it was not captured). */
  datatype Request = Request(timestamp: Option<string>, signature: Option<string>, rawBody: Option<string>)

  /** Why a request was refused; every reason is answered with 401. */
  datatype Reason = MissingInput | NotANumber | Stale | LengthMismatch | Mismatch

  /** `Unauthorized`: 401 and `next` is not called. `KeyError`: the HMAC key is
      missing, so computing the digest throws. `Next`: the request proceeds. */
  datatype Verdict = Unauthorized(reason: Reason) | KeyError | Next

  /** The number of bytes `Buffer.from(s, 'utf8')` holds. */
  function Utf8Length(s: string): nat
    decreases |s|
  {
    if s == [] then 0
    else
      var n := s[0] as int;
      (if n < 0x80 then 1 else if n < 0x800 then 2 else if n < 0x10000 then 3 else 4)
      + Utf8Length(s[1..])
  }

  /** The signed message: the literal header text, not its parsed value. */
  function BaseString(timestamp: string, body: string): string {
    "v0:" + timestamp + ":" + body
  }

  function ExpectedSignature(hmac: HmacHex, secret: string, timestamp: string, body: string): string {
    "v0=" + hmac(secret, BaseString(timestamp, body))
  }

  /** A JavaScript string is falsy exactly when it is absent or empty. */
  predicate Present(s: Option<string>) {
    s.Some? && s.value != ""
  }

  /** `Math.abs(now - ts) <= 300`; NaN and infinities never pass. */
  predicate WithinWindow(ts: NumVal, now: int) {
    ts.Finite? && -(ToleranceSeconds as real) <= (now as real) - ts.value <= ToleranceSeconds as real
  }

  /** Everything the verifier demands of an admitted request. */
  predicate Authentic(req: Request, now: int, secret: Option<string>, hmac: HmacHex) {
    && Present(req.timestamp) && Present(req.signature) && req.rawBody.Some?
    && WithinWindow(ToNumber(req.timestamp.value), now)
    && secret.Some?
    && req.signature.value == ExpectedSignature(hmac, secret.value, req.timestamp.value, req.rawBody.value)
  }

  /** The checks after the three inputs are known to be present, with the
      timestamp header already read as a number. */
  function VerifyParsed(req: Request, ts: NumVal, now: int, secret: Option<string>, hmac: HmacHex): (v: Verdict)
    requires Present(req.timestamp) && Present(req.signature) && req.rawBody.Some?
    ensures v == Next <==>
            && WithinWindow(ts, now) && secret.Some?
            && req.signature.value == ExpectedSignature(hmac, secret.value, req.timestamp.value, req.rawBody.value)
    ensures v == Unauthorized(NotANumber) <==> ts.NaN?
    ensures v == Unauthorized(Stale) <==> !ts.NaN? && !WithinWindow(ts, now)
    ensures v != Unauthorized(MissingInput)
    ensures v == KeyError ==> secret == None
  {
    if ts.NaN? then Unauthorized(NotANumber)
    else if !WithinWindow(ts, now) then Unauthorized(Stale)
    else if secret.None? then KeyError
    else
      var expected := ExpectedSignature(hmac, secret.value, req.timestamp.value, req.rawBody.value);
      var signature := req.signature.value;
      if Utf8Length(signature) != Utf8Length(expected) then Unauthorized(LengthMismatch)
      else if signature != expected then Unauthorized(Mismatch)
      else Next
  }

  /** `verifySlackRequest`: `now` is `Math.floor(Date.now() / 1000)`. */
  function Verify(req: Request, now: int, secret: Option<string>, hmac: HmacHex): (v: Verdict)
    ensures v == Next <==> Authentic(req, now, secret, hmac)
    ensures v == Unauthorized(MissingInput) <==>
            !(Present(req.timestamp) && Present(req.signature) && req.rawBody.Some?)
    ensures v == Unauthorized(NotANumber) <==>
            Present(req.timestamp) && Present(req.signature) && req.rawBody.Some?
            && ToNumber(req.timestamp.value).NaN?
    ensures v == Unauthorized(Stale) <==>
            Present(req.timestamp) && Present(req.signature) && req.rawBody.Some?
            && !ToNumber(req.timestamp.value).NaN? && !WithinWindow(ToNumber(req.timestamp.value), now)
    ensures v == KeyError ==> secret == None
  {
    if !(Present(req.timestamp) && Present(req.signature) && req.rawBody.Some?) then
      Unauthorized(MissingInput)
    else
      VerifyParsed(req, ToNumber(req.timestamp.value), now, secret, hmac)
  }

  /** A signature whose byte length differs from the expected one is refused
      on length, before any byte is compared. */
  lemma LengthCheckedFirst(req: Request, now: int, secret: string, hmac: HmacHex)
    requires Present(req.timestamp) && Present(req.signature) && req.rawBody.Some?
    requires WithinWindow(ToNumber(req.timestamp.value), now)
    requires Utf8Length(req.signature.value)
             != Utf8Length(ExpectedSignature(hmac, secret, req.timestamp.value, req.rawBody.value))
    ensures Verify(req, now, Some(secret), hmac) == Unauthorized(LengthMismatch)
  {
  }

  /** A request signed the way Slack signs it, with an integer timestamp
      header at most 300 seconds from `now` in either direction, is admitted;
      the boundary of exactly 300 seconds passes. */
  lemma SignedRequestAdmitted(ts: string, body: string, now: int, secret: string, hmac: HmacHex)
    requires |ts| >= 1 && AllDigits(ts)
    requires -ToleranceSeconds <= now - DigitsValue(ts) <= ToleranceSeconds
    ensures Verify(Request(Some(ts), Some(ExpectedSignature(hmac, secret, ts, body)), Some(body)),
                   now, Some(secret), hmac) == Next
  {
    var req := Request(Some(ts), Some(ExpectedSignature(hmac, secret, ts, body)), Some(body));
    ToNumberOfDigits(ts);
    var n := ToNumber(ts);
    assert WithinWindow(n, now);
    assert VerifyParsed(req, n, now, Some(secret), hmac) == Next;
  }

  /** A timestamp 301 seconds or more away from `now` is refused even when the
      signature is valid. */
  lemma StaleRequestRefused(ts: string, body: string, now: int, secret: string, hmac: HmacHex)
    requires |ts| >= 1 && AllDigits(ts)
    requires now - DigitsValue(ts) > ToleranceSeconds || DigitsValue(ts) - now > ToleranceSeconds
    ensures Verify(Request(Some(ts), Some(ExpectedSignature(hmac, secret, ts, body)), Some(body)),
                   now, Some(secret), hmac) == Unauthorized(Stale)
  {
    var req := Request(Some(ts), Some(ExpectedSignature(hmac, secret, ts, body)), Some(body));
    ToNumberOfDigits(ts);
    var n := ToNumber(ts);
    var v := DigitsValue(ts) as real;
    assert n == Finite(v);
    assert (now as real) - v > ToleranceSeconds as real || v - (now as real) > ToleranceSeconds as real;
    assert VerifyParsed(req, n, now, Some(secret), hmac) == Unauthorized(Stale);
  }
}
