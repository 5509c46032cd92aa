/** From handshake to channel: what two finished drivers hand over. */
module Sessions {
  import opened Protocol
  import opened Rekeying
  import opened Ciphers
  import opened Channels
  import opened Handshakes
  import opened Drivers
  import opened Connections
  import opened Certificates
  import opened Authentication
  import opened SafetyNumbers
  import Duplex

  /** The channel one side builds from its handshake result. */
  ghost function ChannelOf(r: HandshakeResult, window: nat, policy: Policy): Chan {
    NewChan(r.sendCipher, r.recvCipher, window, policy)
  }

  /** In every interleaving in which both sides finish, their transcripts agree, their channels are the two
      endpoints of that session that every channel guarantee starts from, and both show a safety
      number, the same one. */
  lemma HandshakeStartsChannel(suite: Suite, setup: Setup, moves: seq<Move>, log: Log, windowI: nat, windowR: nat,
                               policyI: Policy, policyR: Policy, sha256: bytes -> bytes)
    requires suite.Correct() && setup.Fits()
    requires RunNet(suite, Drivers.Start(setup), moves).Done()
    ensures var n := RunNet(suite, Drivers.Start(setup), moves);
            var i, r := ResultOf(suite, n.initiator.hs), ResultOf(suite, n.responder.hs);
            var s := Duplex.Start(n.initiator.hs.transcript, log, windowI, windowR, policyI, policyR);
            && n.initiator.hs.transcript == n.responder.hs.transcript
            && i.Ok? && r.Ok?
            && ChannelOf(i.value, windowI, policyI) == s.initiator
            && ChannelOf(r.value, windowR, policyR) == s.responder
            && var shown := SafetyNumber(sha256, i.value.handshakeHash);
               shown.Ok? && shown == SafetyNumber(sha256, r.value.handshakeHash)
  {
    var p, q := RunReaches(suite, setup, Drivers.Start(setup), 0, 0, moves);
  }

  /** On a new session, what the initiator sends is what the responder returns. */
  lemma NewSessionDelivers(seal: Seal, session: seq<bytes>, log: Log, windowI: nat, windowR: nat, policyI: Policy,
                           policyR: Policy, messages: seq<Message>, b: Batch)
    requires Duplex.Unused(log, session) && 1 <= windowI && 1 <= windowR
    requires var s := Duplex.Start(session, log, windowI, windowR, policyI, policyR);
             b == SendAll(seal, s.initiator, log, [], messages)
    ensures var s := Duplex.Start(session, log, windowI, windowR, policyI, policyR);
            Completes(ReceiveAll(s.responder, b.log, b.wires), [], b.sent)
  {
    var s := Duplex.Start(session, log, windowI, windowR, policyI, policyR);
    Duplex.StartInStep(seal, session, log, windowI, windowR, policyI, policyR);
    HonestDelivery(seal, Stream(session, InitiatorToResponder), s.initiator, s.responder, log, [], messages, b,
                   b.wires);
  }

  /** Messages the initiator sends the moment its own side finishes, before the responder has read the
      last handshake message, reach the responder's channel intact. */
  lemma EarlyMessagesArrive(suite: Suite, setup: Setup, moves: seq<Move>, n: Net, seal: Seal, log: Log, windowI: nat,
                            windowR: nat, policyI: Policy, policyR: Policy, s: Duplex.Sys, messages: seq<Message>,
                            b: Batch)
    requires suite.Correct() && setup.Fits() && 1 <= windowI && 1 <= windowR
    requires n == RunNet(suite, Drivers.Start(setup), moves) && n.Done()
    requires Duplex.Unused(log, n.initiator.hs.transcript)
    requires s == Duplex.Start(n.initiator.hs.transcript, log, windowI, windowR, policyI, policyR)
    requires b == SendAll(seal, s.initiator, log, [], messages) && n.appI == b.wires
    ensures var r := ResultOf(suite, n.responder.hs);
            && r.Ok? && ChannelOf(r.value, windowR, policyR) == s.responder
            && Completes(ReceiveAll(s.responder, b.log, n.toResponder), [], b.sent)
  {
    Agreement(suite, setup, moves);
    HandshakeStartsChannel(suite, setup, moves, log, windowI, windowR, policyI, policyR, b => b);
    NewSessionDelivers(seal, s.session, log, windowI, windowR, policyI, policyR, messages, b);
  }

  /** What one finished side checks: the static key its handshake proved and the certificate bytes it received. */
  predicate Checks(a: Attempt, suite: Suite, d: Driver) {
    var r := ResultOf(suite, d.hs);
    r.Ok? && a.remoteStatic == r.value.remoteStatic && a.peerCert == d.peerCert
  }

  /** The bytes are a certificate that the issuer trusted by `a` has issued. */
  ghost predicate IssuedFor(f: Foreign, a: Attempt, cert: bytes, requests: seq<Request>, i: nat) {
    && a.trustedIssuer.Some? && Authority(f.scheme, a.trustedIssuer.value, requests)
    && i < |Issued(f.scheme, a.trustedIssuer.value, requests)|
    && cert != [] && f.parse(cert) == Ok(Issued(f.scheme, a.trustedIssuer.value, requests)[i])
  }

  /** Nothing but the certificate is configured for the peer. */
  predicate ByCertificateOnly(a: Attempt) { a.expectedKey.None? && !a.usesPins }

  /** In every interleaving in which both sides finish, each side that trusts the issuer of the other's
      certificate admits the other exactly when that certificate is for the static key the other side really
      has, for an acceptable subject, and neither expired nor revoked. */
  lemma MutualAuthentication(suite: Suite, setup: Setup, moves: seq<Move>, f: Foreign, n: Net, atI: Attempt,
                             atR: Attempt, byI: seq<Request>, i: nat, byR: seq<Request>, r: nat)
    requires suite.Correct() && setup.Fits()
    requires n == RunNet(suite, Drivers.Start(setup), moves) && n.Done()
    requires Checks(atI, suite, n.initiator) && IssuedFor(f, atI, setup.certR, byI, i) && ByCertificateOnly(atI)
    requires Checks(atR, suite, n.responder) && IssuedFor(f, atR, setup.certI, byR, r) && ByCertificateOnly(atR)
    ensures atI.remoteStatic == setup.staticR && atR.remoteStatic == setup.staticI
    ensures Admit(f, map[], atI).0.Ok? <==> Vouches(Issued(f.scheme, atI.trustedIssuer.value, byI)[i], atI)
    ensures Admit(f, map[], atR).0.Ok? <==> Vouches(Issued(f.scheme, atR.trustedIssuer.value, byR)[r], atR)
  {
    Agreement(suite, setup, moves);
    IssuedIsAdmittedExactlyWhen(f, map[], atI, byI, i);
    IssuedIsAdmittedExactlyWhen(f, map[], atR, byR, r);
  }
}
