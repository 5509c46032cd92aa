/** One side of the handshake: pattern XX (section 7.5 of the Noise Protocol Framework, revision 34),
    three messages, after which the keys are split. The Noise mathematics is an ideal suite. */
module Handshakes {
  import opened Protocol
  import opened Ciphers

  const XX_MESSAGE_COUNT := 3

  /** What reading a message reveals: the payload and, from the second message on, the static key of
      its writer. */
  datatype Contents = Contents(payload: bytes, writerKey: Option<PublicKey>)

  /** What message `i` holds besides its payload: an ephemeral key, then an ephemeral and an encrypted static
      key, then an encrypted static key, each with the tags of what is encrypted. */
  function Overhead(i: nat): nat {
    if i == 0 then X25519_KEY_LEN
    else if i == 1 then 2 * X25519_KEY_LEN + 2 * AEAD_TAG_LEN
    else X25519_KEY_LEN + 2 * AEAD_TAG_LEN
  }

  /** The library's handshake with the ephemeral keys of one session: message `i` from its writer's static key
      and a payload, how to read it back, and a hash of the transcript. */
  datatype Suite = Suite(
    write: (nat, PublicKey, bytes) -> bytes,
    read: (nat, bytes) -> Option<Contents>,
    hash: seq<bytes> -> bytes)
  {
    /** Reading inverts writing, messages have the lengths of the pattern, and so has the hash. */
    ghost predicate Correct() {
      && (forall i: nat, key: PublicKey, payload ::
            read(i, write(i, key, payload)) == Some(Contents(payload, if i == 0 then None else Some(key))))
      && (forall i: nat, key: PublicKey, payload :: |write(i, key, payload)| == |payload| + Overhead(i))
      && (forall transcript :: |hash(transcript)| == HANDSHAKE_HASH_LEN)
    }
  }

  /** There are such suites: this one writes the key, padding and the payload. */
  lemma CorrectSuiteExists() returns (suite: Suite)
    ensures suite.Correct()
  {
    suite := Suite(
      (i: nat, key: PublicKey, payload: bytes) => key + seq(Overhead(i) - X25519_KEY_LEN, k => 0) + payload,
      (i: nat, message: bytes) =>
        if |message| < Overhead(i) then None
        else Some(Contents(message[Overhead(i)..], if i == 0 then None else Some(message[..X25519_KEY_LEN]))),
      transcript => seq(HANDSHAKE_HASH_LEN, k => 0));
    forall i: nat, key: PublicKey, payload
      ensures suite.read(i, suite.write(i, key, payload)) ==
              Some(Contents(payload, if i == 0 then None else Some(key)))
    {
      var message := suite.write(i, key, payload);
      assert message[Overhead(i)..] == payload && message[..X25519_KEY_LEN] == key;
    }
  }

  /** What the channel is built from. */
  datatype HandshakeResult = HandshakeResult(
    isInitiator: bool,
    handshakeHash: bytes,
    remoteStatic: PublicKey,
    localStatic: PublicKey,
    sendCipher: Cipher,
    recvCipher: Cipher)

  /** The state of one side. `pos` is the library's own message count, `step` the driver's. */
  datatype Handshake = Handshake(
    initiator: bool,
    localStatic: PublicKey,
    pos: nat,
    step: nat,
    remoteStatic: Option<PublicKey>,
    transcript: seq<bytes>)
  {
    predicate IsComplete() { pos == XX_MESSAGE_COUNT }

    predicate NextIsWrite() { (step % 2 == 0) == initiator }

    /** The library refuses a call out of turn or after the last message. */
    predicate LibraryExpects(write: bool) {
      pos < XX_MESSAGE_COUNT && ((pos % 2 == 0) == initiator) == write
    }

    function Past(message: bytes): Handshake {
      this.(pos := pos + 1, step := step + 1, transcript := transcript + [message])
    }
  }

  function Write(suite: Suite, h: Handshake, payload: bytes): (Result<bytes>, Handshake) {
    if !h.LibraryExpects(true) then (Err(HandshakeError), h)
    else
      var message := suite.write(h.pos, h.localStatic, payload);
      (Ok(message), h.Past(message))
  }

  function Read(suite: Suite, h: Handshake, message: bytes): (Result<bytes>, Handshake) {
    if !h.LibraryExpects(false) then (Err(HandshakeError), h)
    else
      match suite.read(h.pos, message)
      case None => (Err(HandshakeError), h)
      case Some(contents) =>
        (Ok(contents.payload),
         h.Past(message).(remoteStatic := if contents.writerKey.Some? then contents.writerKey else h.remoteStatic))
  }

  /** Whose turn it is: message `i` of three is written by the initiator when `i` is even. A call out of turn, after
      the last message, or with a message the library cannot read is refused and changes nothing. */
  lemma TurnsExactlyWhen(suite: Suite, h: Handshake, payload: bytes, message: bytes)
    ensures var (w, h') := Write(suite, h, payload);
            if h.pos < 3 && (h.pos % 2 == 0 <==> h.initiator)
            then w == Ok(suite.write(h.pos, h.localStatic, payload)) && h' == h.Past(w.value)
            else w == Err(HandshakeError) && h' == h
    ensures var (r, h') := Read(suite, h, message);
            if h.pos < 3 && (h.pos % 2 == 0 <==> !h.initiator) && suite.read(h.pos, message).Some?
            then
              var contents := suite.read(h.pos, message).value;
              && r == Ok(contents.payload)
              && h'.remoteStatic == (if contents.writerKey.Some? then contents.writerKey else h.remoteStatic)
              && h'.(remoteStatic := h.remoteStatic) == h.Past(message)
            else r == Err(HandshakeError) && h' == h
  {
  }

  /** The outcome of a complete handshake: Split derives the keys of both directions from the session, and
      gives them to the two sides crosswise. */
  function ResultOf(suite: Suite, h: Handshake): Result<HandshakeResult> {
    if !h.IsComplete() || h.remoteStatic.None? then Err(HandshakeError)
    else
      var forth := Cipher(Key(Stream(h.transcript, InitiatorToResponder), 0), 0);
      var back := Cipher(Key(Stream(h.transcript, ResponderToInitiator), 0), 0);
      Ok(HandshakeResult(h.initiator, suite.hash(h.transcript), h.remoteStatic.value, h.localStatic,
                         if h.initiator then forth else back,
                         if h.initiator then back else forth))
  }

  /** The ideal Split, which `ResultOf` assumes, said for two sides: complete handshakes can talk to each other
      exactly when they have opposite roles and saw the same transcript, and each direction has a key of
      its own. `Drivers.Agreement` shows that the drivers get there. */
  lemma KeysAgreeExactlyWhen(suite: Suite, a: Handshake, b: Handshake)
    requires ResultOf(suite, a).Ok? && ResultOf(suite, b).Ok?
    ensures var x, y := ResultOf(suite, a).value, ResultOf(suite, b).value;
            && (x.sendCipher == y.recvCipher && y.sendCipher == x.recvCipher <==>
                a.initiator != b.initiator && a.transcript == b.transcript)
            && x.sendCipher != x.recvCipher
  {
  }

  /** There is a result exactly after three messages with the peer's key captured. Its hash tells two handshakes apart
      whenever the hashes of their messages differ, whatever the roles. */
  lemma ResultExactlyWhen(suite: Suite, a: Handshake, b: Handshake)
    ensures ResultOf(suite, a).Ok? <==> a.pos == 3 && a.remoteStatic.Some?
    ensures ResultOf(suite, a).Err? ==> ResultOf(suite, a).error == HandshakeError
    ensures ResultOf(suite, a).Ok? && ResultOf(suite, b).Ok? ==>
              (ResultOf(suite, a).value.handshakeHash == ResultOf(suite, b).value.handshakeHash <==>
               suite.hash(a.transcript) == suite.hash(b.transcript))
  {
  }

  class NoiseXXHandshake {
    const suite: Suite
    const initiator: bool
    const localStatic: PublicKey
    var pos: nat
    var step: nat
    var remoteStatic: Option<PublicKey>
    var transcript: seq<bytes>

    function Value(): Handshake
      reads this
    {
      Handshake(initiator, localStatic, pos, step, remoteStatic, transcript)
    }

    constructor (suite: Suite, initiator: bool, localStatic: PublicKey)
      ensures this.suite == suite && Value() == Handshake(initiator, localStatic, 0, 0, None, [])
    {
      this.suite := suite;
      this.initiator := initiator;
      this.localStatic := localStatic;
      pos := 0;
      step := 0;
      remoteStatic := None;
      transcript := [];
    }

    method WriteMessage(payload: bytes) returns (r: Result<bytes>)
      modifies this
      ensures (r, Value()) == old(Write(suite, Value(), payload))
    {
      if !Value().LibraryExpects(true) {
        return Err(HandshakeError);
      }
      var message := suite.write(pos, localStatic, payload);
      pos := pos + 1;
      transcript := transcript + [message];
      step := step + 1;
      return Ok(message);
    }

    method ReadMessage(message: bytes) returns (r: Result<bytes>)
      modifies this
      ensures (r, Value()) == old(Read(suite, Value(), message))
    {
      if !Value().LibraryExpects(false) {
        return Err(HandshakeError);
      }
      var contents := suite.read(pos, message);
      if contents.None? {
        return Err(HandshakeError);
      }
      pos := pos + 1;
      transcript := transcript + [message];
      if contents.value.writerKey.Some? {
        remoteStatic := contents.value.writerKey;
      }
      step := step + 1;
      return Ok(contents.value.payload);
    }

    method Result() returns (r: Result<HandshakeResult>)
      ensures r == ResultOf(suite, Value())
    {
      if pos != XX_MESSAGE_COUNT {
        return Err(HandshakeError);
      }
      if remoteStatic.None? {
        return Err(HandshakeError);
      }
      var forth := Cipher(Key(Stream(transcript, InitiatorToResponder), 0), 0);
      var back := Cipher(Key(Stream(transcript, ResponderToInitiator), 0), 0);
      var send, recv := back, forth;
      if initiator {
        send, recv := forth, back;
      }
      return Ok(HandshakeResult(initiator, suite.hash(transcript), remoteStatic.value, localStatic, send, recv));
    }
  }
}
