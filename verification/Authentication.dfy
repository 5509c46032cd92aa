/** Deciding whether to accept a peer after the handshake: revocation, expected key or pin,
    certificate, and the final requirement, in the order a new connection applies them. */
module Authentication {
  import opened Protocol
  import opened Certificates
  import opened Pinning

  datatype ExpectedSubject = Unset | AnySubject | Subject(name: string)

  /** What the caller of `connect` or `serve` configured for one connection, the peer's static key as
      the handshake proved it, and the certificate bytes it sent. */
  datatype Attempt = Attempt(
    remoteStatic: bytes,
    usesPins: bool,
    peerLabel: Option<string>,
    expectedKey: Option<bytes>,
    require: bool,
    peerCert: bytes,
    trustedIssuer: Option<bytes>,
    expectedSubject: ExpectedSubject,
    revocations: Option<Revocations>,
    now: real)
  {
    /** The pin this attempt looks at, if any. */
    predicate Names(peer: string) { usesPins && peerLabel == Some(peer) }
  }

  /** Foreign code: signatures, and the parser of certificate bytes. */
  datatype Foreign = Foreign(scheme: Scheme, parse: bytes -> Result<Certificate>)

  function EnforceNotRevoked(a: Attempt): Result<()> {
    if a.revocations.Some? && a.revocations.value.RevokesKey(a.remoteStatic) then Err(Mismatch(a.remoteStatic))
    else Ok(())
  }

  /** Whether the key or a pin vouches for the peer, and the pins afterwards. */
  function AuthenticatePeer(pins: Pins, a: Attempt): (Result<bool>, Pins) {
    if a.expectedKey.Some? && |a.expectedKey.value| != X25519_KEY_LEN then (Err(ValueError), pins)
    else if a.expectedKey.Some? && a.remoteStatic != a.expectedKey.value then (Err(Mismatch(a.remoteStatic)), pins)
    else if !a.usesPins || a.peerLabel.None? then (Ok(a.expectedKey.Some?), pins)
    else if a.peerLabel.value in pins then
      var v := VerifyPin(pins, a.peerLabel.value, a.remoteStatic);
      (if v.Ok? then Ok(true) else Err(v.error), pins)
    else if a.require then (Ok(a.expectedKey.Some?), pins)
    else if |a.remoteStatic| != X25519_KEY_LEN then (Err(ValueError), pins)
    else (Ok(a.expectedKey.Some?), pins[a.peerLabel.value := a.remoteStatic])
  }

  /** Whether a certificate vouches for the peer. */
  function VerifyCertificate(f: Foreign, a: Attempt): Result<bool> {
    if a.trustedIssuer.None? then Ok(false)
    else if a.peerCert == [] then Err(IdentityError)
    else
      var parsed := f.parse(a.peerCert);
      if parsed.Err? then Err(parsed.error)
      else
        var c := parsed.value;
        var v := Verify(f.scheme, c, a.trustedIssuer.value, a.now, a.revocations);
        if v.Err? then Err(v.error)
        else if c.publicKey != a.remoteStatic then Err(IdentityError)
        else if a.expectedSubject.Unset? then Err(IdentityError)
        else if a.expectedSubject.Subject? && c.subject != a.expectedSubject.name then Err(IdentityError)
        else Ok(true)
  }

  function EnforceAuthentication(require: bool, byKeyOrPin: bool, byCertificate: bool): Result<()> {
    if require && !(byKeyOrPin || byCertificate) then Err(IdentityError) else Ok(())
  }

  /** All four checks in order. */
  function Admit(f: Foreign, pins: Pins, a: Attempt): (Result<()>, Pins) {
    var revoked := EnforceNotRevoked(a);
    if revoked.Err? then (revoked, pins)
    else
      var (byKeyOrPin, pins') := AuthenticatePeer(pins, a);
      if byKeyOrPin.Err? then (Err(byKeyOrPin.error), pins')
      else
        var byCertificate := VerifyCertificate(f, a);
        if byCertificate.Err? then (Err(byCertificate.error), pins')
        else (EnforceAuthentication(a.require, byKeyOrPin.value, byCertificate.value), pins')
  }

  /** The pinning step on the shared object, as the source runs it. */
  method AuthenticatePeerOn(peers: KnownPeers?, a: Attempt) returns (r: Result<bool>)
    requires a.usesPins <==> peers != null
    modifies peers
    ensures peers != null ==> (r, peers.pins) == old(AuthenticatePeer(peers.pins, a))
    ensures peers == null ==> r == AuthenticatePeer(map[], a).0
  {
    var verified := false;
    if a.expectedKey.Some? {
      if |a.expectedKey.value| != X25519_KEY_LEN {
        return Err(ValueError);
      }
      if a.remoteStatic != a.expectedKey.value {
        return Err(Mismatch(a.remoteStatic));
      }
      verified := true;
    }
    if peers != null && a.peerLabel.Some? {
      if a.peerLabel.value in peers.pins {
        var v := peers.Verify(a.peerLabel.value, a.remoteStatic);
        if v.Err? {
          return Err(v.error);
        }
        verified := true;
      } else if !a.require {
        var p := peers.Pin(a.peerLabel.value, a.remoteStatic);
        if p.Err? {
          return Err(p.error);
        }
      }
    }
    return Ok(verified);
  }

  // ----- what admission means -----

  predicate Vouches(c: Certificate, a: Attempt) {
    && c.publicKey == a.remoteStatic
    && (a.expectedSubject.AnySubject? || a.expectedSubject == Subject(c.subject))
    && a.now <= c.notAfter as real
    && (a.revocations.Some? ==> !a.revocations.value.Revokes(c))
  }

  /** The authority issued a certificate for exactly this peer key and an acceptable subject, and it is
      neither expired nor revoked. */
  ghost predicate Certified(f: Foreign, a: Attempt, requests: seq<Request>) {
    a.trustedIssuer.Some? &&
    var issued := Issued(f.scheme, a.trustedIssuer.value, requests);
    exists i :: 0 <= i < |issued| && Vouches(issued[i], a)
  }

  /** What the peer sent satisfies the configured issuer, if one is configured. */
  predicate CertificateFits(f: Foreign, a: Attempt) {
    a.trustedIssuer.Some? ==>
    && a.peerCert != [] && f.parse(a.peerCert).Ok?
    && Genuine(f.scheme, f.parse(a.peerCert).value, a.trustedIssuer.value)
    && Vouches(f.parse(a.peerCert).value, a)
  }

  lemma FitsIsAccepted(f: Foreign, a: Attempt)
    ensures VerifyCertificate(f, a).Ok? <==> CertificateFits(f, a)
    ensures VerifyCertificate(f, a).Ok? ==> VerifyCertificate(f, a).value == a.trustedIssuer.Some?
  {
  }

  /** What is wrong when a configured key is not the peer's. */
  function Contradicts(configured: bytes): Error {
    if |configured| == 32 then IdentityError else ValueError
  }

  /** What is wrong with a certificate that does not fit: the bytes are none, or the key in it has the wrong
      length, or anything else about it. */
  function Misfit(f: Foreign, a: Attempt): Error {
    if a.peerCert == [] then IdentityError
    else
      match f.parse(a.peerCert)
      case Err(e) => e
      case Ok(c) => if |c.publicKey| == 32 then IdentityError else ValueError
  }

  lemma MisfitIsRefused(f: Foreign, a: Attempt)
    ensures !CertificateFits(f, a) ==> VerifyCertificate(f, a) == Err(Misfit(f, a))
  {
  }

  /** A certificate is accepted only if the authority certified this very peer. */
  lemma CertificateAuthenticates(f: Foreign, a: Attempt, requests: seq<Request>)
    requires a.trustedIssuer.Some? ==> Authority(f.scheme, a.trustedIssuer.value, requests)
    requires VerifyCertificate(f, a) == Ok(true)
    ensures Certified(f, a, requests)
  {
    var c := f.parse(a.peerCert).value;
    var i := VerifiedWasIssued(f.scheme, c, a.trustedIssuer.value, a.now, a.revocations, requests);
    assert Vouches(Issued(f.scheme, a.trustedIssuer.value, requests)[i], a);
  }

  /** A peer that sends a certificate its authority issued for this very key and an acceptable subject is
      accepted, as long as the certificate is neither expired nor revoked. */
  lemma IssuedIsAccepted(f: Foreign, a: Attempt, requests: seq<Request>, i: nat)
    requires a.trustedIssuer.Some? && Authority(f.scheme, a.trustedIssuer.value, requests)
    requires i < |Issued(f.scheme, a.trustedIssuer.value, requests)|
    requires var c := Issued(f.scheme, a.trustedIssuer.value, requests)[i];
             a.peerCert != [] && f.parse(a.peerCert) == Ok(c) && Vouches(c, a)
    ensures VerifyCertificate(f, a) == Ok(true)
  {
    IssuedVerifies(f.scheme, a.trustedIssuer.value, requests, i, a.trustedIssuer.value, a.now, a.revocations);
    FitsIsAccepted(f, a);
  }

  lemma KeyOrPinVouches(pins: Pins, a: Attempt)
    requires AuthenticatePeer(pins, a).0 == Ok(true)
    ensures || a.expectedKey == Some(a.remoteStatic)
            || (exists peer :: a.Names(peer) && peer in pins && pins[peer] == a.remoteStatic)
  {
    if a.expectedKey.None? { assert a.Names(a.peerLabel.value); }
  }

  lemma RequiredSteps(f: Foreign, pins: Pins, a: Attempt)
    requires a.require && Admit(f, pins, a).0.Ok?
    ensures a.revocations.Some? ==> a.remoteStatic !in a.revocations.value.keys
    ensures AuthenticatePeer(pins, a).0 == Ok(true) || VerifyCertificate(f, a) == Ok(true)
    ensures Admit(f, pins, a).1 == pins
  {
  }

  /** With `require`, an admitted peer is not revoked and is vouched for: it holds the expected key, the
      key pinned beforehand, or a key the authority certified. No pin is made on the way. */
  lemma RequiredMeansAuthenticated(f: Foreign, pins: Pins, a: Attempt, requests: seq<Request>)
    requires a.trustedIssuer.Some? ==> Authority(f.scheme, a.trustedIssuer.value, requests)
    requires a.require && Admit(f, pins, a).0.Ok?
    ensures a.revocations.Some? ==> a.remoteStatic !in a.revocations.value.keys
    ensures || a.expectedKey == Some(a.remoteStatic)
            || (exists peer :: a.Names(peer) && peer in pins && pins[peer] == a.remoteStatic)
            || Certified(f, a, requests)
    ensures Admit(f, pins, a).1 == pins
  {
    RequiredSteps(f, pins, a);
    if VerifyCertificate(f, a) == Ok(true) {
      CertificateAuthenticates(f, a, requests);
    } else {
      KeyOrPinVouches(pins, a);
    }
  }

  /** Whatever a configured trust anchor says must agree, required or not: an admitted peer never
      contradicts the revocations, the expected key, an existing pin, or the trusted issuer. */
  lemma AdmittedContradictsNothing(f: Foreign, pins: Pins, a: Attempt, requests: seq<Request>)
    requires a.trustedIssuer.Some? ==> Authority(f.scheme, a.trustedIssuer.value, requests)
    requires Admit(f, pins, a).0.Ok?
    ensures a.revocations.Some? ==> a.remoteStatic !in a.revocations.value.keys
    ensures a.expectedKey.Some? ==> a.expectedKey.value == a.remoteStatic
    ensures forall peer :: a.Names(peer) && peer in pins ==> pins[peer] == a.remoteStatic
    ensures a.trustedIssuer.Some? ==> Certified(f, a, requests)
  {
    if a.trustedIssuer.Some? { CertificateAuthenticates(f, a, requests); }
  }

  /** The pin for this attempt's label, if it looks at one and there is one. */
  function Pinned(pins: Pins, a: Attempt): Option<bytes> {
    if a.usesPins && a.peerLabel.Some? && a.peerLabel.value in pins then Some(pins[a.peerLabel.value]) else None
  }

  /** A peer is admitted exactly when no configured anchor contradicts it and, with `require`, at least
      one anchor is configured for it: an expected key, an existing pin, or an issuer. Any one is enough.
      Admission pins a key exactly on a first use without `require`. */
  lemma AdmitsExactlyWhen(f: Foreign, pins: Pins, a: Attempt)
    requires |a.remoteStatic| == X25519_KEY_LEN
    ensures Admit(f, pins, a).0.Ok? <==>
            && (a.revocations.Some? ==> a.remoteStatic !in a.revocations.value.keys)
            && (a.expectedKey.Some? ==> a.expectedKey.value == a.remoteStatic)
            && (Pinned(pins, a).Some? ==> Pinned(pins, a).value == a.remoteStatic)
            && CertificateFits(f, a)
            && (a.require ==> a.expectedKey.Some? || Pinned(pins, a).Some? || a.trustedIssuer.Some?)
    ensures Admit(f, pins, a).0.Ok? ==>
            Admit(f, pins, a).1 ==
            if a.usesPins && a.peerLabel.Some? && Pinned(pins, a).None? && !a.require
            then pins[a.peerLabel.value := a.remoteStatic] else pins
  {
    FitsIsAccepted(f, a);
  }

  /** Neither the revocations nor an expected key nor an existing pin speaks against the peer. */
  predicate Unopposed(pins: Pins, a: Attempt) {
    && (a.revocations.Some? ==> a.remoteStatic !in a.revocations.value.keys)
    && (a.expectedKey.Some? ==> a.expectedKey.value == a.remoteStatic)
    && (Pinned(pins, a).Some? ==> Pinned(pins, a).value == a.remoteStatic)
  }

  /** Every refusal with its error and the pins it leaves. Being revoked comes first, then the expected key, then
      the pin; a malformed expected key or pin is the caller's error. Only then the certificate counts, and
      last whether anything vouches at all. */
  lemma RefusalErrors(f: Foreign, pins: Pins, a: Attempt)
    requires |a.remoteStatic| == 32
    ensures a.revocations.Some? && a.remoteStatic in a.revocations.value.keys ==>
              Admit(f, pins, a) == (Err(IdentityError), pins)
    ensures (a.revocations.Some? ==> a.remoteStatic !in a.revocations.value.keys) ==>
              && (a.expectedKey.Some? && a.expectedKey.value != a.remoteStatic ==>
                    Admit(f, pins, a) == (Err(Contradicts(a.expectedKey.value)), pins))
              && ((a.expectedKey.Some? ==> a.expectedKey.value == a.remoteStatic)
                  && Pinned(pins, a).Some? && Pinned(pins, a).value != a.remoteStatic ==>
                    Admit(f, pins, a) == (Err(Contradicts(Pinned(pins, a).value)), pins))
    ensures Unopposed(pins, a) && !CertificateFits(f, a) ==> Admit(f, pins, a).0 == Err(Misfit(f, a))
    ensures Unopposed(pins, a) && CertificateFits(f, a) && Admit(f, pins, a).0.Err? ==>
              Admit(f, pins, a) == (Err(IdentityError), pins)
  {
    FitsIsAccepted(f, a);
    MisfitIsRefused(f, a);
  }

  /** A peer that sends a certificate its authority issued is admitted exactly when that certificate is for the
      key it holds and an acceptable subject, and is neither expired nor revoked, as long as neither an
      expected key nor a pin speaks against it. No other anchor is needed. */
  lemma IssuedIsAdmittedExactlyWhen(f: Foreign, pins: Pins, a: Attempt, requests: seq<Request>, i: nat)
    requires |a.remoteStatic| == X25519_KEY_LEN
    requires a.trustedIssuer.Some? && Authority(f.scheme, a.trustedIssuer.value, requests)
    requires i < |Issued(f.scheme, a.trustedIssuer.value, requests)|
    requires a.peerCert != [] && f.parse(a.peerCert) == Ok(Issued(f.scheme, a.trustedIssuer.value, requests)[i])
    requires a.expectedKey.Some? ==> a.expectedKey.value == a.remoteStatic
    requires Pinned(pins, a).Some? ==> Pinned(pins, a).value == a.remoteStatic
    ensures Admit(f, pins, a).0.Ok? <==> Vouches(Issued(f.scheme, a.trustedIssuer.value, requests)[i], a)
  {
    AdmitsExactlyWhen(f, pins, a);
    if Vouches(Issued(f.scheme, a.trustedIssuer.value, requests)[i], a) {
      IssuedIsAccepted(f, a, requests, i);
      FitsIsAccepted(f, a);
    }
  }

  /** An attempt fails and still changes the pins exactly when it is a first use of its label without `require`,
      by a key of the right length that is not revoked and not unexpected, whose certificate does not
      fit. */
  lemma FailedAttemptPinsExactlyWhen(f: Foreign, pins: Pins, a: Attempt)
    ensures Admit(f, pins, a).0.Err? && Admit(f, pins, a).1 != pins <==>
            && a.usesPins && a.peerLabel.Some? && a.peerLabel.value !in pins && !a.require
            && |a.remoteStatic| == X25519_KEY_LEN
            && (a.revocations.Some? ==> a.remoteStatic !in a.revocations.value.keys)
            && (a.expectedKey.Some? ==> a.expectedKey.value == a.remoteStatic)
            && !CertificateFits(f, a)
  {
    FitsIsAccepted(f, a);
    if a.usesPins && a.peerLabel.Some? && a.peerLabel.value !in pins {
      assert a.peerLabel.value in pins[a.peerLabel.value := a.remoteStatic];
    }
  }

  /** An attempt whose peer sends no certificate fails, and still leaves its key pinned. */
  lemma FailedAttemptCanPin(f: Foreign, key: bytes, issuer: bytes)
    requires |key| == X25519_KEY_LEN
    ensures var a := Attempt(key, true, Some("peer"), None, false, [], Some(issuer), AnySubject, None, 0.0);
            Admit(f, map[], a) == (Err(IdentityError), map["peer" := key])
  {
  }

  // ----- whole histories on one set of pins -----

  function AfterAll(f: Foreign, pins: Pins, attempts: seq<Attempt>): Pins
    decreases |attempts|
  {
    if attempts == [] then pins else AfterAll(f, Admit(f, pins, attempts[0]).1, attempts[1..])
  }

  /** Over any history a pin, once present, never changes; a later attempt that names its label
      passes only with the pinned key; and attempts that all require authentication pin nothing. */
  lemma {:induction false} PinsAreStable(f: Foreign, pins: Pins, attempts: seq<Attempt>, peer: string, later: Attempt)
    ensures var pins' := AfterAll(f, pins, attempts);
            && (peer in pins ==> peer in pins' && pins'[peer] == pins[peer])
            && (peer in pins && later.Names(peer) && AuthenticatePeer(pins', later).0.Ok? ==>
                  later.remoteStatic == pins[peer])
            && ((forall i :: 0 <= i < |attempts| ==> attempts[i].require) ==> pins' == pins)
    decreases |attempts|
  {
    if attempts != [] {
      PinsAreStable(f, Admit(f, pins, attempts[0]).1, attempts[1..], peer, later);
    }
  }
}
