/** app/lib/auth.ts: the password check and the signed session token
    `session:<expiresAt>.<signature>`. HMAC-SHA-256 is the parameter `hmac`
    (key, then message, to the digest bytes); the secret and the password
    are the `AUTH_SECRET` and `AUTH_PASSWORD` settings, absent when unset; the
    clock is the parameter `now` (milliseconds). */
module Auth {
  import opened Base
  import opened Text
  import opened Decimal
  import opened Base64

  /** Line 5: thirty days, in milliseconds. */
  const SessionDuration: nat := 30 * 24 * 60 * 60 * 1000

  /** Line 89: the cookie's `maxAge`, in seconds. */
  const CookieMaxAge: nat := 30 * 24 * 60 * 60

  const CookieName: string := "myway_session"
  const PayloadPrefix: string := "session:"
  const SecretMissing: string := "AUTH_SECRET not configured"

  /** The cookie expires together with the token inside it. */
  lemma CookieMatchesSession()
    ensures CookieMaxAge * 1000 == SessionDuration
  {}

  // ---------------------------------------------------------------------------
  // Timing-safe comparison (lines 28-33 and 75-80)
  // ---------------------------------------------------------------------------

  /** `s.charCodeAt(i)`. */
  function Code(c: char): nat {
    c as int
  }

  /** `a ^ b` on non-negative integers, bit by bit from the lowest. Character
      codes are far below 2^31, so JavaScript's 32-bit operators agree with it. */
  function Xor(a: nat, b: nat): nat
    decreases a + b
  {
    if a == 0 && b == 0 then 0 else 2 * Xor(a / 2, b / 2) + (if a % 2 != b % 2 then 1 else 0)
  }

  /** `a | b` on non-negative integers. */
  function Or(a: nat, b: nat): nat
    decreases a + b
  {
    if a == 0 && b == 0 then 0 else 2 * Or(a / 2, b / 2) + (if a % 2 == 1 || b % 2 == 1 then 1 else 0)
  }

  lemma {:induction false} XorZeroIffEqual(a: nat, b: nat)
    ensures Xor(a, b) == 0 <==> a == b
    decreases a + b
  {
    if a != 0 || b != 0 {
      XorZeroIffEqual(a / 2, b / 2);
    }
  }

  lemma {:induction false} OrZeroIffBothZero(a: nat, b: nat)
    ensures Or(a, b) == 0 <==> a == 0 && b == 0
    decreases a + b
  {
    if a != 0 || b != 0 {
      OrZeroIffBothZero(a / 2, b / 2);
    }
  }

  /** The OR of the XORs of the first `n` character codes of `a` and `b`. */
  function Difference(a: string, b: string, n: nat): nat
    requires n <= |a| && n <= |b|
  {
    if n == 0 then 0 else Or(Difference(a, b, n - 1), Xor(Code(a[n - 1]), Code(b[n - 1])))
  }

  /** The fold is zero exactly when the two prefixes are equal. */
  lemma {:induction false} DifferenceZeroIffEqual(a: string, b: string, n: nat)
    requires n <= |a| && n <= |b|
    ensures Difference(a, b, n) == 0 <==> a[..n] == b[..n]
  {
    if n > 0 {
      DifferenceZeroIffEqual(a, b, n - 1);
      OrZeroIffBothZero(Difference(a, b, n - 1), Xor(Code(a[n - 1]), Code(b[n - 1])));
      XorZeroIffEqual(Code(a[n - 1]), Code(b[n - 1]));
      assert a[..n] == a[..n - 1] + [a[n - 1]] && b[..n] == b[..n - 1] + [b[n - 1]];
      if a[..n] == b[..n] {
        assert a[..n - 1] == a[..n][..n - 1] && b[..n - 1] == b[..n][..n - 1];
      }
    }
  }

  /** Lines 28-33: the comparison the signature check uses. */
  function SafeEqual(a: string, b: string): (r: bool)
    ensures r <==> a == b
  {
    if |a| != |b| then false
    else
      DifferenceZeroIffEqual(a, b, |a|);
      assert a[..|a|] == a && b[..|b|] == b;
      Difference(a, b, |a|) == 0
  }

  /** Lines 70-81: `validatePassword`. */
  method ValidatePassword(password: string, correctPassword: Option<string>) returns (ok: bool)
    ensures ok <==> Truthy(correctPassword) && password == correctPassword.value
  {
    if !Truthy(correctPassword) {
      return false;
    }
    var correct := correctPassword.value;
    if |password| != |correct| {
      return false;
    }
    var result: nat := 0;
    var i := 0;
    while i < |password|
      invariant 0 <= i <= |password|
      invariant result == Difference(password, correct, i)
    {
      result := Or(result, Xor(Code(password[i]), Code(correct[i])));
      i := i + 1;
    }
    DifferenceZeroIffEqual(password, correct, |password|);
    assert password[..|password|] == password && correct[..|correct|] == correct;
    return result == 0;
  }

  // ---------------------------------------------------------------------------
  // Signing (lines 8-34)
  // ---------------------------------------------------------------------------

  /** Lines 8-23: the HMAC of `message` under `secret`, as unpadded base64url. */
  function Sign(message: string, secret: string, hmac: (string, string) -> seq<byte>): (r: string)
    ensures '.' !in r
  {
    EncodeUrlHasNoDot(hmac(secret, message));
    EncodeUrl(hmac(secret, message))
  }

  /** Lines 25-34: `verify`. */
  function Verify(message: string, signature: string, secret: string, hmac: (string, string) -> seq<byte>): (r: bool)
    ensures r <==> signature == Sign(message, secret, hmac)
  {
    SafeEqual(signature, Sign(message, secret, hmac))
  }

  // ---------------------------------------------------------------------------
  // Tokens (lines 36-68)
  // ---------------------------------------------------------------------------

  /** Line 41: the payload for an expiry instant. */
  function SessionPayload(expiresAt: nat): string {
    PayloadPrefix + NatToString(expiresAt)
  }

  /** Lines 61-64: `payload.match(/^session:(\d+)$/)` and `parseInt` of the digits. */
  function ParseSessionPayload(payload: string): (r: Option<nat>)
    ensures r.Some? <==> StartsWith(payload, PayloadPrefix) && |payload| > |PayloadPrefix|
                         && AllDigits(payload[|PayloadPrefix|..])
    ensures r.Some? ==> r.value == ParseDigits(payload[|PayloadPrefix|..])
  {
    if StartsWith(payload, PayloadPrefix) && |payload| > |PayloadPrefix| && AllDigits(payload[|PayloadPrefix|..])
    then Some(ParseDigits(payload[|PayloadPrefix|..]))
    else None
  }

  /** A rendered payload parses back to its instant and contains no `.`. */
  lemma ParseSessionPayloadOf(expiresAt: nat)
    ensures ParseSessionPayload(SessionPayload(expiresAt)) == Some(expiresAt)
    ensures '.' !in SessionPayload(expiresAt)
  {
    var p := SessionPayload(expiresAt);
    assert p[|PayloadPrefix|..] == NatToString(expiresAt);
    assert StartsWith(p, PayloadPrefix) by { assert p[..|PayloadPrefix|] == PayloadPrefix; }
    ParseNatToString(expiresAt);
    assert forall i :: 0 <= i < |p| ==> p[i] != '.' by {
      forall i | 0 <= i < |p|
        ensures p[i] != '.'
      {
        if i >= |PayloadPrefix| {
          assert p[i] == NatToString(expiresAt)[i - |PayloadPrefix|];
        }
      }
    }
  }

  /** Lines 36-45: `createSession` at instant `now`. */
  function CreateSession(secret: Option<string>, now: nat, hmac: (string, string) -> seq<byte>): (r: Result<string>)
    ensures r.Err? <==> !Truthy(secret)
    ensures r.Err? ==> r.message == SecretMissing
  {
    if !Truthy(secret) then Err(SecretMissing)
    else
      var payload := SessionPayload(now + SessionDuration);
      Ok(payload + "." + Sign(payload, secret.value, hmac))
  }

  /** Lines 47-68: `validateSession` at instant `now`. */
  function ValidateSession(token: string, secret: Option<string>, now: nat, hmac: (string, string) -> seq<byte>): (r: bool)
    ensures r ==> Truthy(secret) && |Split(token, '.')| == 2
  {
    if !Truthy(secret) then false
    else
      var parts := Split(token, '.');
      if |parts| != 2 then false
      else if !Verify(parts[0], parts[1], secret.value, hmac) then false
      else match ParseSessionPayload(parts[0])
        case None => false
        case Some(expiresAt) => !(now > expiresAt)
  }

  /** Splitting `payload.signature` when neither part holds a `.`. */
  lemma SplitToken(payload: string, signature: string)
    requires '.' !in payload && '.' !in signature
    ensures Split(payload + "." + signature, '.') == [payload, signature]
  {
    assert Join([payload, signature], '.') == payload + "." + signature by {
      assert Join([payload, signature][1..], '.') == signature;
    }
    SplitJoin([payload, signature], '.');
  }

  /** Every token that passes is `payload.signature` with the signature of the
      payload, a `session:<digits>` payload and an expiry not yet passed. */
  lemma AcceptedTokenShape(token: string, secret: Option<string>, now: nat, hmac: (string, string) -> seq<byte>)
    requires ValidateSession(token, secret, now, hmac)
    ensures var parts := Split(token, '.');
            && token == parts[0] + "." + parts[1]
            && parts[1] == Sign(parts[0], secret.value, hmac)
            && ParseSessionPayload(parts[0]).Some? && now <= ParseSessionPayload(parts[0]).value
  {
    var parts := Split(token, '.');
    assert Join(parts, '.') == parts[0] + "." + Join(parts[1..], '.');
  }

  /** A well-formed, correctly signed, unexpired token passes. */
  lemma AcceptsSignedToken(payload: string, secret: Option<string>, now: nat, hmac: (string, string) -> seq<byte>)
    requires Truthy(secret) && '.' !in payload
    requires ParseSessionPayload(payload).Some? && now <= ParseSessionPayload(payload).value
    ensures ValidateSession(payload + "." + Sign(payload, secret.value, hmac), secret, now, hmac)
  {
    SplitToken(payload, Sign(payload, secret.value, hmac));
  }

  /** Round trip: a token created at `created` passes with the same secret at any
      instant up to and including its expiry, and fails after it. */
  lemma SessionRoundTrip(secret: Option<string>, created: nat, now: nat, hmac: (string, string) -> seq<byte>)
    requires Truthy(secret)
    ensures ValidateSession(CreateSession(secret, created, hmac).value, secret, now, hmac)
            <==> now <= created + SessionDuration
  {
    var payload := SessionPayload(created + SessionDuration);
    ParseSessionPayloadOf(created + SessionDuration);
    SplitToken(payload, Sign(payload, secret.value, hmac));
  }

  /** Without a secret nothing is accepted. */
  lemma NoSecretRejects(token: string, now: nat, hmac: (string, string) -> seq<byte>)
    ensures !ValidateSession(token, None, now, hmac) && !ValidateSession(token, Some([]), now, hmac)
  {}

  /** Changing the signature of a valid token makes it fail. */
  lemma TamperedSignatureRejected(payload: string, signature: string, secret: Option<string>, now: nat,
                                  hmac: (string, string) -> seq<byte>)
    requires Truthy(secret) && '.' !in payload && '.' !in signature
    requires signature != Sign(payload, secret.value, hmac)
    ensures !ValidateSession(payload + "." + signature, secret, now, hmac)
  {
    SplitToken(payload, signature);
  }
}
