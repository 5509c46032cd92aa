/** The secure channel: sequence numbers, cipher nonces, key epochs and the replay window. */
module Channels {
  import opened Protocol
  import opened Framing
  import opened Replay
  import opened Rekeying
  import opened Ciphers

  datatype Window = Window(size: nat, accepted: set<int>)

  /** The state of one endpoint as a value. */
  datatype Chan = Chan(
    send: Cipher,
    recv: Cipher,
    window: Window,
    policy: Policy,
    sendSeq: nat,
    closed: bool)

  /** The state a channel starts in. */
  ghost function NewChan(send: Cipher, recv: Cipher, windowSize: nat, policy: Policy): Chan {
    Chan(send, recv, Window(windowSize, {}), policy, 0, false)
  }

  /** A frame sealed by a sender: its type and its plaintext. */
  datatype Sealed = Sealed(kind: MessageType, text: bytes)

  /** The outcome of a sending operation: what the caller gets, the new endpoint state, the new
      log, and the frames that were sealed on the way, including any the caller never gets. */
  datatype Sent<T> = Sent(result: Result<T>, chan: Chan, log: Log, frames: seq<Sealed>)

  /** The outcome of a receiving operation. `Ok(None)` is a consumed REKEY frame. */
  datatype Opened = Opened(result: Result<Option<bytes>>, chan: Chan)

  // ----- sending -----

  /** Seal one frame: the sequence number is spent whether or not the cipher agrees. */
  ghost function Emit(seal: Seal, c: Chan, log: Log, kind: MessageType, text: bytes): Sent<bytes> {
    var spent := c.(sendSeq := c.sendSeq + 1);
    match PackHeader(kind, c.sendSeq, |text| + AEAD_TAG_LEN)
    case Err(e) => Sent(Err(e), spent, log, [])
    case Ok(header) =>
      if c.send.n == MAX_NONCE then Sent(Err(MaxNonceError), spent, log, [])
      else
        var ciphertext := seal(c.send.key, c.send.n, header, text);
        Sent(Ok(header + ciphertext),
             spent.(send := c.send.Advanced()),
             log[Query(c.send.key, c.send.n, header, ciphertext) := text],
             [Sealed(kind, text)])
  }

  /** Seal a REKEY frame under the old key, then replace the key. */
  ghost function EmitRekey(seal: Seal, c: Chan, log: Log, resetAt: real): Sent<bytes> {
    var r := Emit(seal, c, log, REKEY, []);
    if r.result.Err? then r
    else r.(chan := r.chan.(send := r.chan.send.Rekeyed(), policy := r.chan.policy.WasReset(resetAt)))
  }

  /** Seal a TRANSPORT frame and count it. */
  ghost function EmitMessage(seal: Seal, c: Chan, log: Log, text: bytes): Sent<bytes> {
    var r := Emit(seal, c, log, TRANSPORT, text);
    if r.result.Err? then r
    else r.(chan := r.chan.(policy := r.chan.policy.Noted()))
  }

  /** The message frame alone, or the REKEY frame and then the message frame. */
  ghost function Alone(t: Sent<bytes>): Sent<seq<bytes>> {
    Sent(if t.result.Err? then Err(t.result.error) else Ok([t.result.value]), t.chan, t.log, t.frames)
  }

  ghost function Joined(k: Sent<bytes>, t: Sent<bytes>): Sent<seq<bytes>>
    requires k.result.Ok?
  {
    Sent(if t.result.Err? then Err(t.result.error) else Ok([k.result.value, t.result.value]),
         t.chan, t.log, k.frames + t.frames)
  }

  ghost function Encrypt(seal: Seal, c: Chan, log: Log, text: bytes, dueAt: real, resetAt: real): Sent<seq<bytes>> {
    if c.closed then Sent(Err(ChannelClosedError), c, log, [])
    else if |text| > MAX_PLAINTEXT then Sent(Err(ProtocolError), c, log, [])
    else if c.policy.Due(dueAt) then
      var k := EmitRekey(seal, c, log, resetAt);
      if k.result.Err? then Alone(k) else Joined(k, EmitMessage(seal, k.chan, k.log, text))
    else Alone(EmitMessage(seal, c, log, text))
  }

  ghost function CloseFrame(seal: Seal, c: Chan, log: Log): Sent<bytes> {
    if c.closed then Sent(Err(ChannelClosedError), c, log, [])
    else
      var r := Emit(seal, c, log, CLOSE, []);
      if r.result.Err? then r else r.(chan := r.chan.(closed := true))
  }

  // ----- receiving -----

  /** What an authenticated frame does. */
  ghost function Dispatch(c: Chan, frame: Frame, text: bytes): Opened {
    var c' := c.(recv := c.recv.Advanced(),
                 window := c.window.(accepted := c.window.accepted + {frame.seqno}));
    match frame.kind
    case TRANSPORT => Opened(Ok(Some(text)), c')
    case REKEY => Opened(Ok(None), c'.(recv := c'.recv.Rekeyed()))
    case CLOSE => Opened(Err(ChannelClosedError), c'.(closed := true))
    case HANDSHAKE => Opened(Err(ProtocolError), c')
  }

  /** Decode, check the window, open, and only then commit and act on the type. */
  ghost function Decrypt(c: Chan, log: Log, wire: bytes): Opened {
    if c.closed then Opened(Err(ChannelClosedError), c)
    else
      match Decode(wire)
      case Err(e) => Opened(Err(e), c)
      case Ok(frame) =>
        if !Fresh(c.window.size, c.window.accepted, frame.seqno) then Opened(Err(ReplayError), c)
        else
          match Opens(c.recv, log, frame.Header().value, frame.payload)
          case Err(e) => Opened(Err(if e == InvalidTag then DecryptionError else e), c)
          case Ok(text) => Dispatch(c, frame, text)
  }

  /** The input is turned away: the channel is closed, or the frame fails decoding, the replay check or
      authentication. */
  ghost predicate Refuses(c: Chan, log: Log, wire: bytes) {
    || c.closed
    || Decode(wire).Err?
    || !Fresh(c.window.size, c.window.accepted, Decode(wire).value.seqno)
    || Opens(c.recv, log, Decode(wire).value.Header().value, Decode(wire).value.payload).Err?
  }

  /** Refused input leaves the channel exactly as it was, and any other input advances the nonce. */
  lemma RefusedMeansUnchanged(c: Chan, log: Log, wire: bytes)
    ensures Refuses(c, log, wire) <==> Decrypt(c, log, wire).chan == c
    ensures Refuses(c, log, wire) ==> Decrypt(c, log, wire).result.Err?
    ensures !Refuses(c, log, wire) ==> Decrypt(c, log, wire).chan.recv.n == c.recv.n + 1
  {
  }

  class SecureChannel {
    const sendCipher: CipherState
    const recvCipher: CipherState
    const replay: ReplayWindow
    const rekey: RekeyPolicy
    var sendSeq: nat
    var closed: bool

    ghost predicate Valid()
      reads this, replay
    {
      && sendCipher != recvCipher
      && sendCipher.aead == recvCipher.aead
      && replay.Valid()
    }

    ghost function Value(): Chan
      reads this, sendCipher, recvCipher, replay, rekey
    {
      Chan(sendCipher.Value(), recvCipher.Value(), Window(replay.size, replay.accepted), rekey.Value(), sendSeq, closed)
    }

    constructor (sendCipher: CipherState, recvCipher: CipherState, replay: ReplayWindow, rekey: RekeyPolicy)
      requires sendCipher != recvCipher && sendCipher.aead == recvCipher.aead
      requires replay.Valid()
      ensures Valid()
      ensures this.sendCipher == sendCipher && this.recvCipher == recvCipher
      ensures this.replay == replay && this.rekey == rekey
      ensures sendSeq == 0 && !closed
    {
      this.sendCipher := sendCipher;
      this.recvCipher := recvCipher;
      this.replay := replay;
      this.rekey := rekey;
      sendSeq := 0;
      closed := false;
    }

    method NextSendSeq() returns (n: nat)
      modifies this`sendSeq
      ensures n == old(sendSeq) && sendSeq == old(sendSeq) + 1
    {
      n := sendSeq;
      sendSeq := sendSeq + 1;
    }

    method EmitTransport(plaintext: bytes) returns (r: Result<bytes>)
      requires Valid()
      modifies this`sendSeq, sendCipher, sendCipher.aead
      ensures Valid()
      ensures var e := old(Emit(sendCipher.aead.seal, Value(), sendCipher.aead.log, TRANSPORT, plaintext));
              r == e.result && Value() == e.chan && sendCipher.aead.log == e.log
    {
      var n := NextSendSeq();
      var header := PackHeader(TRANSPORT, n, |plaintext| + AEAD_TAG_LEN);
      if header.Err? {
        return header;
      }
      var ciphertext := sendCipher.EncryptWithAd(header.value, plaintext);
      if ciphertext.Err? {
        return ciphertext;
      }
      return Ok(header.value + ciphertext.value);
    }

    method EmitControl(kind: MessageType) returns (r: Result<bytes>)
      requires Valid()
      modifies this`sendSeq, sendCipher, sendCipher.aead
      ensures Valid()
      ensures var e := old(Emit(sendCipher.aead.seal, Value(), sendCipher.aead.log, kind, []));
              r == e.result && Value() == e.chan && sendCipher.aead.log == e.log
    {
      var n := NextSendSeq();
      var header := PackHeader(kind, n, AEAD_TAG_LEN);
      if header.Err? {
        return header;
      }
      var ciphertext := sendCipher.EncryptWithAd(header.value, []);
      if ciphertext.Err? {
        return ciphertext;
      }
      return Ok(header.value + ciphertext.value);
    }

    method EncryptMessage(plaintext: bytes, dueAt: real, resetAt: real) returns (r: Result<seq<bytes>>)
      requires Valid()
      modifies this`sendSeq, sendCipher, sendCipher.aead, rekey
      ensures Valid()
      ensures var e := old(Encrypt(sendCipher.aead.seal, Value(), sendCipher.aead.log, plaintext, dueAt, resetAt));
              r == e.result && Value() == e.chan && sendCipher.aead.log == e.log
    {
      if closed {
        return Err(ChannelClosedError);
      }
      if |plaintext| > MAX_PLAINTEXT {
        return Err(ProtocolError);
      }
      var frames: seq<bytes> := [];
      var due := rekey.Due(dueAt);
      if due {
        var control := EmitControl(REKEY);
        if control.Err? {
          return Err(control.error);
        }
        frames := [control.value];
        sendCipher.Rekey();
        rekey.Reset(resetAt);
      }
      ghost var seal, c, log := sendCipher.aead.seal, Value(), sendCipher.aead.log;
      assert due ==> c == EmitRekey(seal, old(Value()), old(sendCipher.aead.log), resetAt).chan;
      var frame := EmitTransport(plaintext);
      if frame.Err? {
        return Err(frame.error);
      }
      assert frames + [frame.value] == if due then [frames[0], frame.value] else [frame.value];
      frames := frames + [frame.value];
      rekey.NoteMessage();
      assert Value() == EmitMessage(seal, c, log, plaintext).chan;
      return Ok(frames);
    }

    method Close() returns (r: Result<bytes>)
      requires Valid()
      modifies this, sendCipher, sendCipher.aead
      ensures Valid()
      ensures var e := old(CloseFrame(sendCipher.aead.seal, Value(), sendCipher.aead.log));
              r == e.result && Value() == e.chan && sendCipher.aead.log == e.log
    {
      if closed {
        return Err(ChannelClosedError);
      }
      r := EmitControl(CLOSE);
      if r.Ok? {
        closed := true;
      }
    }

    method DecryptFrame(wire: bytes) returns (r: Result<Option<bytes>>)
      requires Valid()
      modifies this`closed, recvCipher, replay
      ensures Valid()
      ensures var o := old(Decrypt(Value(), sendCipher.aead.log, wire));
              r == o.result && Value() == o.chan
    {
      if closed {
        return Err(ChannelClosedError);
      }
      var decoded := Decode(wire);
      if decoded.Err? {
        return Err(decoded.error);
      }
      var frame := decoded.value;
      var checked := replay.Check(frame.seqno);
      if checked.Err? {
        return Err(checked.error);
      }
      var header := frame.Header();
      var plaintext := recvCipher.DecryptWithAd(header.value, frame.payload);
      if plaintext.Err? {
        return Err(if plaintext.error == InvalidTag then DecryptionError else plaintext.error);
      }
      replay.Commit(frame.seqno);
      if frame.kind == TRANSPORT {
        return Ok(Some(plaintext.value));
      }
      if frame.kind == REKEY {
        recvCipher.Rekey();
        return Ok(None);
      }
      if frame.kind == CLOSE {
        closed := true;
        return Err(ChannelClosedError);
      }
      return Err(ProtocolError);
    }
  }
}
