/** Identity certificates: the signed text, issuing, verifying and revoking. Signatures are ideal. */
module Certificates {
  import opened Protocol
  import opened Numerals
  import opened Texts

  const ED25519_KEY_LEN := 32
  const ED25519_SIG_LEN := 64

  // ----- the signed text -----

  function CanonicalText(subject: string, publicKey: bytes, notAfter: int, issuer: bytes): string {
    "securews-cert/v1\n" + subject + "\n" + Hex(publicKey) + "\n" + Decimal(notAfter) + "\n" + Hex(issuer)
  }

  function Canonical(subject: string, publicKey: bytes, notAfter: int, issuer: bytes): bytes {
    Utf8(CanonicalText(subject, publicKey, notAfter, issuer))
  }

  /** Where two splits of one text at a line break differ, the earlier split leaves the later break in
      its second part. */
  lemma LaterBreak(a: string, x: string, b: string, y: string)
    requires a + "\n" + x == b + "\n" + y && |a| < |b|
    ensures '\n' in x
  {
    assert (b + "\n" + y)[|b|] == '\n';
    assert (a + "\n" + x)[|b|] == x[|b| - |a| - 1];
  }

  /** The last line of a text and what precedes it are determined by the text. */
  lemma LastLine(a: string, x: string, b: string, y: string)
    requires '\n' !in x && '\n' !in y
    requires a + "\n" + x == b + "\n" + y
    ensures a == b && x == y
  {
    if |a| < |b| { LaterBreak(a, x, b, y); }
    if |b| < |a| { LaterBreak(b, y, a, x); }
    assert (a + "\n" + x)[..|a|] == a && (b + "\n" + y)[..|b|] == b;
    assert (a + "\n" + x)[|a| + 1..] == x && (b + "\n" + y)[|b| + 1..] == y;
  }

  /** Equal signed bytes mean equal subject, key, expiry and issuer, even when subjects contain line
      breaks, hexadecimal digits or whole forged lines. */
  lemma CanonicalInjective(s1: string, k1: bytes, e1: int, i1: bytes, s2: string, k2: bytes, e2: int, i2: bytes)
    requires Canonical(s1, k1, e1, i1) == Canonical(s2, k2, e2, i2)
    ensures s1 == s2 && k1 == k2 && e1 == e2 && i1 == i2
  {
    Utf8Injective(CanonicalText(s1, k1, e1, i1), CanonicalText(s2, k2, e2, i2));
    var p1, p2 := "securews-cert/v1\n" + s1, "securews-cert/v1\n" + s2;
    LastLine(p1 + "\n" + Hex(k1) + "\n" + Decimal(e1), Hex(i1), p2 + "\n" + Hex(k2) + "\n" + Decimal(e2), Hex(i2));
    LastLine(p1 + "\n" + Hex(k1), Decimal(e1), p2 + "\n" + Hex(k2), Decimal(e2));
    LastLine(p1, Hex(k1), p2, Hex(k2));
    HexInjective(i1, i2);
    DecimalInjective(e1, e2);
    HexInjective(k1, k2);
    assert p1[17..] == s1 && p2[17..] == s2;
  }

  lemma ExampleParts()
    ensures Hex([0, 175]) == "00af" && Decimal(40) == "40" && Hex([255]) == "ff"
  {
    var key: bytes := [0, 175];
    assert key[1..] == [175] && Hex([175]) == "af" + Hex([]);
    assert Hex(key) == "00" + Hex([175]);
    assert Digits(40) == Digits(4) + "0";
  }

  /** The signed text of one certificate, character by character. */
  lemma CanonicalExample()
    ensures CanonicalText("a\nb", [0, 175], 40, [255]) == "securews-cert/v1\na\nb\n00af\n40\nff"
  {
    ExampleParts();
  }

  // ----- certificates -----

  datatype Certificate = Certificate(subject: string, publicKey: bytes, notAfter: int, issuer: bytes, signature: bytes)
  {
    function Signed(): bytes { Canonical(subject, publicKey, notAfter, issuer) }

    predicate SameIdentity(c: Certificate) {
      subject == c.subject && publicKey == c.publicKey && notAfter == c.notAfter && issuer == c.issuer
    }
  }

  /** A signature scheme: `sign` with the secret of the given public key, and what verifies. */
  datatype Scheme = Scheme(sign: (bytes, bytes) -> bytes, verifies: (bytes, bytes, bytes) -> bool)

  datatype Revocations = Revocations(keys: set<bytes>, subjects: set<string>)
  {
    predicate RevokesKey(key: bytes) { key in keys }

    predicate Revokes(c: Certificate) { c.publicKey in keys || c.subject in subjects }

    /** A key of the wrong length is refused and changes nothing. */
    function WithKey(key: bytes): Revocations {
      if |key| != X25519_KEY_LEN then this else this.(keys := keys + {key})
    }

    function WithSubject(subject: string): Revocations { this.(subjects := subjects + {subject}) }
  }

  class RevocationList {
    var keys: set<bytes>
    var subjects: set<string>

    function Value(): Revocations
      reads this
    {
      Revocations(keys, subjects)
    }

    constructor ()
      ensures Value() == Revocations({}, {})
    {
      keys := {};
      subjects := {};
    }

    method RevokeKey(key: bytes) returns (r: Result<()>)
      modifies this
      ensures r == if |key| == X25519_KEY_LEN then Ok(()) else Err(ValueError)
      ensures Value() == old(Value()).WithKey(key)
    {
      if |key| != X25519_KEY_LEN {
        return Err(ValueError);
      }
      keys := keys + {key};
      return Ok(());
    }

    method RevokeSubject(subject: string)
      modifies this
      ensures Value() == old(Value()).WithSubject(subject)
    {
      subjects := subjects + {subject};
    }
  }

  /** Towards zero, as the interpreter converts a float. */
  function Truncate(x: real): int {
    if x >= 0.0 then x.Floor else -((-x).Floor)
  }

  /** A request to the authority, with the clock reading it makes. */
  datatype Request = Request(
    subject: string,
    publicKey: bytes,
    notAfter: Option<int>,
    lifetime: Option<real>,
    now: real)

  function Issue(scheme: Scheme, issuer: bytes, q: Request): Result<Certificate> {
    if |q.publicKey| != X25519_KEY_LEN then Err(ValueError)
    else if q.notAfter.Some? && q.lifetime.Some? then Err(ValueError)
    else if q.lifetime.Some? && q.lifetime.value <= 0.0 then Err(ValueError)
    else if q.lifetime.None? && q.notAfter.None? then Err(ValueError)
    else
      var expiry := if q.lifetime.Some? then Truncate(q.now + q.lifetime.value) else q.notAfter.value;
      if expiry <= 0 then Err(ValueError)
      else
        var signature := scheme.sign(issuer, Canonical(q.subject, q.publicKey, expiry, issuer));
        Ok(Certificate(q.subject, q.publicKey, expiry, issuer, signature))
  }

  function Verify(scheme: Scheme, c: Certificate, trustedIssuer: bytes, now: real, revocations: Option<Revocations>)
    : Result<()>
  {
    if |c.publicKey| != X25519_KEY_LEN then Err(ValueError)
    else if |c.issuer| != ED25519_KEY_LEN || c.issuer != trustedIssuer then Err(IdentityError)
    else if |c.signature| != ED25519_SIG_LEN then Err(IdentityError)
    else if c.notAfter <= 0 then Err(IdentityError)
    else if now > c.notAfter as real then Err(IdentityError)
    else if !scheme.verifies(c.issuer, c.Signed(), c.signature) then Err(IdentityError)
    else if revocations.Some? && revocations.value.Revokes(c) then Err(IdentityError)
    else Ok(())
  }

  /** The certificates an authority has issued for a list of requests. */
  function Issued(scheme: Scheme, issuer: bytes, requests: seq<Request>): seq<Certificate> {
    if requests == [] then []
    else
      var rest := Issued(scheme, issuer, requests[..|requests| - 1]);
      var r := Issue(scheme, issuer, requests[|requests| - 1]);
      if r.Ok? then rest + [r.value] else rest
  }

  /** An authority that has issued for these requests under an ideal scheme: its signatures verify, and
      nothing verifies under its key but texts that it signed. */
  ghost predicate Authority(scheme: Scheme, issuer: bytes, requests: seq<Request>) {
    var issued := Issued(scheme, issuer, requests);
    && |issuer| == ED25519_KEY_LEN
    && (forall i :: 0 <= i < |issued| ==>
          |issued[i].signature| == ED25519_SIG_LEN && scheme.verifies(issuer, issued[i].Signed(), issued[i].signature))
    && (forall text, signature :: scheme.verifies(issuer, text, signature) ==>
          exists i :: 0 <= i < |issued| && issued[i].Signed() == text)
  }

  lemma {:induction false} IssuedDependsOnSign(s: Scheme, t: Scheme, issuer: bytes, requests: seq<Request>)
    requires s.sign == t.sign
    ensures Issued(s, issuer, requests) == Issued(t, issuer, requests)
  {
    if requests != [] { IssuedDependsOnSign(s, t, issuer, requests[..|requests| - 1]); }
  }

  lemma {:induction false} SignedBySign(scheme: Scheme, issuer: bytes, requests: seq<Request>, i: nat)
    requires i < |Issued(scheme, issuer, requests)|
    ensures var c := Issued(scheme, issuer, requests)[i];
            c.signature == scheme.sign(issuer, c.Signed())
  {
    if requests != [] && i < |Issued(scheme, issuer, requests[..|requests| - 1])| {
      SignedBySign(scheme, issuer, requests[..|requests| - 1], i);
    }
  }

  function SignedTexts(scheme: Scheme, issuer: bytes, requests: seq<Request>): set<bytes> {
    set c | c in Issued(scheme, issuer, requests) :: c.Signed()
  }

  lemma ExactlyIssuedVerifies(scheme: Scheme, mute: Scheme, issuer: bytes, requests: seq<Request>)
    requires scheme.sign == mute.sign && |issuer| == ED25519_KEY_LEN
    requires forall text :: |scheme.sign(issuer, text)| == ED25519_SIG_LEN
    requires forall text, signature ::
               scheme.verifies(issuer, text, signature) <==> text in SignedTexts(mute, issuer, requests)
    ensures Authority(scheme, issuer, requests)
  {
    IssuedDependsOnSign(scheme, mute, issuer, requests);
    var issued := Issued(scheme, issuer, requests);
    forall i | 0 <= i < |issued|
      ensures |issued[i].signature| == ED25519_SIG_LEN
      ensures scheme.verifies(issuer, issued[i].Signed(), issued[i].signature)
    {
      SignedBySign(scheme, issuer, requests, i);
      assert issued[i] in issued;
    }
  }

  /** Whatever is requested of whom, there are such authorities under one scheme: the one under which exactly the
      issued texts verify. */
  lemma AuthoritiesExist(requests: map<bytes, seq<Request>>) returns (scheme: Scheme)
    ensures forall issuer :: issuer in requests && |issuer| == ED25519_KEY_LEN ==>
              Authority(scheme, issuer, requests[issuer])
  {
    var sign := (key: bytes, text: bytes) => seq(ED25519_SIG_LEN, k => 0);
    var mute := Scheme(sign, (key, text, signature) => false);
    scheme := Scheme(sign, (key, text, signature) => key in requests && text in SignedTexts(mute, key, requests[key]));
    forall issuer | issuer in requests && |issuer| == ED25519_KEY_LEN
      ensures Authority(scheme, issuer, requests[issuer])
    {
      ExactlyIssuedVerifies(scheme, mute, issuer, requests[issuer]);
    }
  }

  /** The authority issues exactly when the key has the right length and one expiry is given, in one of
      its two forms, that lies after the epoch. The certificate carries the request and that expiry;
      a lifetime is rounded down to whole seconds. */
  lemma IssuesExactlyWhen(scheme: Scheme, issuer: bytes, q: Request)
    ensures Issue(scheme, issuer, q).Ok? <==>
            && |q.publicKey| == 32
            && (q.notAfter.Some? <==> q.lifetime.None?)
            && (q.notAfter.Some? ==> q.notAfter.value > 0)
            && (q.lifetime.Some? ==> q.lifetime.value > 0.0 && q.now + q.lifetime.value >= 1.0)
    ensures Issue(scheme, issuer, q).Ok? ==>
            var c := Issue(scheme, issuer, q).value;
            && c.subject == q.subject && c.publicKey == q.publicKey && c.issuer == issuer
            && c.signature == scheme.sign(issuer, c.Signed())
            && (q.notAfter.Some? ==> c.notAfter == q.notAfter.value)
            && (q.lifetime.Some? ==> c.notAfter as real <= q.now + q.lifetime.value < c.notAfter as real + 1.0)
    ensures Issue(scheme, issuer, q).Err? ==> Issue(scheme, issuer, q).error == ValueError
  {
  }

  lemma {:induction false} IssuedComesFromRequest(scheme: Scheme, issuer: bytes, requests: seq<Request>, i: nat)
    requires i < |Issued(scheme, issuer, requests)|
    ensures exists k ::
              0 <= k < |requests| && Issue(scheme, issuer, requests[k]) == Ok(Issued(scheme, issuer, requests)[i])
  {
    var init := requests[..|requests| - 1];
    if i < |Issued(scheme, issuer, init)| {
      IssuedComesFromRequest(scheme, issuer, init, i);
      var k :| 0 <= k < |init| && Issue(scheme, issuer, init[k]) == Ok(Issued(scheme, issuer, init)[i]);
      assert requests[k] == init[k];
    } else {
      assert Issue(scheme, issuer, requests[|requests| - 1]).Ok?;
    }
  }

  /** A certificate that verifies carries, field for field, an identity its authority issued. */
  lemma VerifiedWasIssued(scheme: Scheme, c: Certificate, trustedIssuer: bytes, now: real,
                          revocations: Option<Revocations>, requests: seq<Request>)
    returns (i: nat)
    requires Authority(scheme, trustedIssuer, requests)
    requires Verify(scheme, c, trustedIssuer, now, revocations).Ok?
    ensures var issued := Issued(scheme, trustedIssuer, requests);
            i < |issued| && c.SameIdentity(issued[i])
  {
    var issued := Issued(scheme, trustedIssuer, requests);
    i :| 0 <= i < |issued| && issued[i].Signed() == c.Signed();
    CanonicalInjective(c.subject, c.publicKey, c.notAfter, c.issuer,
                       issued[i].subject, issued[i].publicKey, issued[i].notAfter, issued[i].issuer);
  }

  /** Every certificate an authority has issued verifies exactly against that authority, until its expiry, and
      while neither its key nor its subject is revoked. */
  lemma IssuedVerifies(scheme: Scheme, issuer: bytes, requests: seq<Request>, i: nat, trustedIssuer: bytes, now: real,
                       revocations: Option<Revocations>)
    requires Authority(scheme, issuer, requests) && i < |Issued(scheme, issuer, requests)|
    ensures var c := Issued(scheme, issuer, requests)[i];
            Verify(scheme, c, trustedIssuer, now, revocations).Ok? <==>
            && trustedIssuer == issuer
            && now <= c.notAfter as real
            && (revocations.Some? ==>
                  c.publicKey !in revocations.value.keys && c.subject !in revocations.value.subjects)
  {
    IssuedComesFromRequest(scheme, issuer, requests, i);
    var k :| 0 <= k < |requests| && Issue(scheme, issuer, requests[k]) == Ok(Issued(scheme, issuer, requests)[i]);
    IssuesExactlyWhen(scheme, issuer, requests[k]);
  }

  // ----- over time -----

  /** One thing a holder of the revocation list may do to it. */
  datatype Revocation = OfKey(key: bytes) | OfSubject(subject: string)

  function AfterAll(list: Revocations, operations: seq<Revocation>): Revocations {
    if operations == [] then list
    else
      var before := AfterAll(list, operations[..|operations| - 1]);
      match operations[|operations| - 1]
      case OfKey(key) => before.WithKey(key)
      case OfSubject(subject) => before.WithSubject(subject)
  }

  /** What some operation of a list revokes: a key of the right length, or a subject. */
  predicate Names(operation: Revocation, c: Certificate) {
    (operation == OfKey(c.publicKey) && |c.publicKey| == 32) || operation == OfSubject(c.subject)
  }

  /** After any operations, exactly what was revoked before or was named by one of them is revoked. */
  lemma {:induction false} RevokedExactlyWhen(list: Revocations, operations: seq<Revocation>, c: Certificate)
    ensures AfterAll(list, operations).Revokes(c) <==>
            list.Revokes(c) || exists k :: 0 <= k < |operations| && Names(operations[k], c)
  {
    if operations != [] {
      var init := operations[..|operations| - 1];
      RevokedExactlyWhen(list, init, c);
      if k :| 0 <= k < |operations| && Names(operations[k], c) {
        assert k < |init| ==> Names(init[k], c);
      }
    }
  }

  /** Fields of the right form, the trusted issuer, an expiry after the epoch, and a signature over exactly
      these fields. */
  predicate Genuine(scheme: Scheme, c: Certificate, trustedIssuer: bytes) {
    && |c.publicKey| == 32 && |c.issuer| == 32 && |c.signature| == 64
    && c.issuer == trustedIssuer && c.notAfter > 0
    && scheme.verifies(c.issuer, Canonical(c.subject, c.publicKey, c.notAfter, c.issuer), c.signature)
  }

  /** Whatever has happened to the revocation list: a certificate verifies if and only if it is genuine, its expiry
      has not passed, and neither the list at first nor any operation since has named it. Only a key of the
      wrong length is the caller's error. */
  lemma VerifiesThroughHistory(scheme: Scheme, c: Certificate, trustedIssuer: bytes, now: real, list: Revocations,
                               operations: seq<Revocation>)
    ensures var r := Verify(scheme, c, trustedIssuer, now, Some(AfterAll(list, operations)));
            && (r.Ok? <==>
                && Genuine(scheme, c, trustedIssuer) && now <= c.notAfter as real
                && !list.Revokes(c) && (forall k :: 0 <= k < |operations| ==> !Names(operations[k], c)))
            && (r.Err? ==> r.error == if |c.publicKey| == 32 then IdentityError else ValueError)
  {
    RevokedExactlyWhen(list, operations, c);
  }

  /** A certificate once refused is refused for good: at every later time, and whatever else is revoked. */
  lemma RefusedForGood(scheme: Scheme, c: Certificate, trustedIssuer: bytes, now: real, later: real, list: Revocations,
                       operations: seq<Revocation>)
    requires Verify(scheme, c, trustedIssuer, now, Some(list)).Err? && now <= later
    ensures Verify(scheme, c, trustedIssuer, later, Some(AfterAll(list, operations))).Err?
  {
    VerifiesThroughHistory(scheme, c, trustedIssuer, now, list, []);
    VerifiesThroughHistory(scheme, c, trustedIssuer, later, list, operations);
  }
}
