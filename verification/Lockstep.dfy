/** One direction of a channel: the frames sealed so far and what each end's counters say about
    them. Sequence number, nonce, key epoch and window all count the same list. */
module Lockstep {
  import opened Protocol
  import opened Framing
  import opened Replay
  import opened Rekeying
  import opened Ciphers
  import opened Channels

  // ----- the list of sealed frames -----

  /** The application messages among the frames. */
  function Texts(frames: seq<Sealed>): seq<bytes> {
    if frames == [] then []
    else
      var last := frames[|frames| - 1];
      Texts(frames[..|frames| - 1]) + (if last.kind == TRANSPORT then [last.text] else [])
  }

  /** The key epoch after the frames: how many of them are REKEY frames. */
  function Epoch(frames: seq<Sealed>): nat {
    if frames == [] then 0
    else Epoch(frames[..|frames| - 1]) + (if frames[|frames| - 1].kind == REKEY then 1 else 0)
  }

  /** The header authenticated with frame `k`. */
  function HeaderOf(frames: seq<Sealed>, k: nat): bytes
    requires k < |frames|
  {
    HeaderBytes(frames[k].kind, k, |frames[k].text| + AEAD_TAG_LEN)
  }

  function CiphertextOf(seal: Seal, d: Stream, frames: seq<Sealed>, k: nat): bytes
    requires k < |frames|
  {
    seal(Key(d, Epoch(frames[..k])), k, HeaderOf(frames, k), frames[k].text)
  }

  /** The bytes of frame `k`. */
  function WireOf(seal: Seal, d: Stream, frames: seq<Sealed>, k: nat): bytes
    requires k < |frames|
  {
    HeaderOf(frames, k) + CiphertextOf(seal, d, frames, k)
  }

  /** What a receiver must ask to open frame `k`: key of its epoch, nonce `k`, its header. */
  function QueryOf(seal: Seal, d: Stream, frames: seq<Sealed>, k: nat): Query
    requires k < |frames|
  {
    Query(Key(d, Epoch(frames[..k])), k, HeaderOf(frames, k), CiphertextOf(seal, d, frames, k))
  }

  predicate WellFormed(frames: seq<Sealed>) {
    && |frames| <= MAX_NONCE
    && (forall k :: 0 <= k < |frames| ==> frames[k].kind != HANDSHAKE && |frames[k].text| <= MAX_PLAINTEXT)
    && (forall k :: 0 <= k < |frames| - 1 ==> frames[k].kind != CLOSE)
  }

  predicate EndsWithClose(frames: seq<Sealed>) {
    frames != [] && frames[|frames| - 1].kind == CLOSE
  }

  /** Frames sealed later do not change the bytes of an earlier one. */
  lemma WireStable(seal: Seal, d: Stream, frames: seq<Sealed>, more: seq<Sealed>, k: nat)
    requires k < |frames|
    ensures QueryOf(seal, d, frames + more, k) == QueryOf(seal, d, frames, k)
    ensures WireOf(seal, d, frames + more, k) == WireOf(seal, d, frames, k)
  {
    assert (frames + more)[..k] == frames[..k];
  }

  lemma Append(frames: seq<Sealed>, f: Sealed)
    ensures Texts(frames + [f]) == Texts(frames) + (if f.kind == TRANSPORT then [f.text] else [])
    ensures Epoch(frames + [f]) == Epoch(frames) + (if f.kind == REKEY then 1 else 0)
  {
    assert (frames + [f])[..|frames|] == frames;
  }

  lemma Extend(frames: seq<Sealed>, k: nat)
    requires k < |frames|
    ensures Texts(frames[..k + 1]) ==
            Texts(frames[..k]) + (if frames[k].kind == TRANSPORT then [frames[k].text] else [])
    ensures Epoch(frames[..k + 1]) == Epoch(frames[..k]) + (if frames[k].kind == REKEY then 1 else 0)
  {
    assert frames[..k + 1] == frames[..k] + [frames[k]];
    Append(frames[..k], frames[k]);
  }

  lemma {:induction false} TextsOfPrefix(frames: seq<Sealed>, k: nat)
    requires k <= |frames|
    ensures Texts(frames[..k]) <= Texts(frames)
    decreases |frames| - k
  {
    if k < |frames| {
      Extend(frames, k);
      TextsOfPrefix(frames, k + 1);
    } else {
      assert frames[..k] == frames;
    }
  }

  // ----- the agreement of the four counters -----

  /** The sender: nonce and sequence number both count the frames, until the nonce runs out. */
  predicate SenderAt(d: Stream, c: Chan, frames: seq<Sealed>) {
    && c.send == Cipher(Key(d, Epoch(frames)), |frames|)
    && (c.sendSeq == |frames| || (|frames| == MAX_NONCE && c.sendSeq > MAX_NONCE))
    && (EndsWithClose(frames) ==> c.closed)
  }

  /** The receiver has accepted exactly the first `recv.n` frames, in order. */
  ghost predicate ReceiverAt(d: Stream, c: Chan, frames: seq<Sealed>) {
    var m := c.recv.n;
    && m <= |frames|
    && 1 <= c.window.size
    && c.recv.key == Key(d, Epoch(frames[..m]))
    && c.window.accepted == Below(m)
    && (EndsWithClose(frames[..m]) ==> c.closed)
  }

  predicate Logged(log: Log, q: Query) { q in log }

  /** In this direction the log holds the queries of the sealed frames and nothing else. */
  ghost predicate LogHolds(seal: Seal, d: Stream, log: Log, frames: seq<Sealed>) {
    && (forall q :: Logged(log, q) && q.key.stream == d ==>
          q.nonce < |frames| && q == QueryOf(seal, d, frames, q.nonce) && log[q] == frames[q.nonce].text)
    && (forall k :: 0 <= k < |frames| ==> Logged(log, QueryOf(seal, d, frames, k)))
  }

  /** No nonce is ever used twice in one direction, whatever the key. */
  lemma NonceUsedOnce(seal: Seal, d: Stream, log: Log, frames: seq<Sealed>, p: Query, q: Query)
    requires LogHolds(seal, d, log, frames)
    requires Logged(log, p) && Logged(log, q) && p.key.stream == d && q.key.stream == d && p.nonce == q.nonce
    ensures p == q
  {
  }

  // ----- sealing one frame -----

  ghost predicate OtherStreamsKept(d: Stream, before: Log, after: Log) {
    && (forall q :: Logged(after, q) && q.key.stream != d ==> Logged(before, q) && after[q] == before[q])
    && (forall q :: Logged(before, q) && q.key.stream != d ==> Logged(after, q))
  }

  /** The error once nonces have run out: the cipher's, and from the next call on that of the header, whose sequence
      number has gone on. */
  function OutOfNonces(c: Chan): Error {
    if c.sendSeq <= 0xFFFF_FFFF_FFFF_FFFF then MaxNonceError else ProtocolError
  }

  /** Sealing a frame succeeds exactly while nonces last. It then appends one frame whose wire bytes
      are determined by its position, and otherwise only spends a sequence number. */
  lemma EmitAppends(seal: Seal, d: Stream, c: Chan, log: Log, frames: seq<Sealed>, kind: MessageType, text: bytes)
    requires WellFormed(frames) && !EndsWithClose(frames)
    requires kind != HANDSHAKE && |text| <= MAX_PLAINTEXT
    requires SenderAt(d, c, frames) && LogHolds(seal, d, log, frames)
    ensures var e := Emit(seal, c, log, kind, text);
            var all := frames + e.frames;
            && (e.result.Ok? <==> |frames| < MAX_NONCE)
            && (e.result.Err? ==> e.result.error == OutOfNonces(c))
            && e.frames == (if e.result.Ok? then [Sealed(kind, text)] else [])
            && e.chan == c.(sendSeq := c.sendSeq + 1, send := c.send.(n := |all|))
            && (e.result.Ok? ==> e.result.value == WireOf(seal, d, all, |frames|))
            && WellFormed(all)
            && LogHolds(seal, d, e.log, all)
            && OtherStreamsKept(d, log, e.log)
  {
    var e := Emit(seal, c, log, kind, text);
    if |frames| < MAX_NONCE {
      var f := Sealed(kind, text);
      var all := frames + [f];
      assert all[..|frames|] == frames;
      var q := QueryOf(seal, d, all, |frames|);
      assert e.log == log[q := text];
      forall p ensures Logged(e.log, p) <==> Logged(log, p) || p == q {}
      forall k | 0 <= k < |frames| ensures QueryOf(seal, d, all, k) == QueryOf(seal, d, frames, k) {
        WireStable(seal, d, frames, [f], k);
      }
    } else {
      assert frames + [] == frames;
    }
  }

  lemma LogKept(seal: Seal, d: Stream, before: Log, after: Log, frames: seq<Sealed>, other: Stream)
    requires other != d && OtherStreamsKept(other, before, after)
    requires LogHolds(seal, d, before, frames)
    ensures LogHolds(seal, d, after, frames)
  {
  }

  // ----- the three sending operations -----

  /** The state of one direction's sender after an operation that sealed `more`. */
  ghost predicate Grown(seal: Seal, d: Stream, c: Chan, c': Chan, log: Log, log': Log, frames: seq<Sealed>,
                        more: seq<Sealed>)
  {
    && WellFormed(frames + more)
    && SenderAt(d, c', frames + more)
    && LogHolds(seal, d, log', frames + more)
    && OtherStreamsKept(d, log, log')
    && c'.recv == c.recv && c'.window == c.window
    && (c.closed ==> c'.closed)
  }

  /** `e` sealed one frame of the given kind at the end of `frames`, or nonces had run out. */
  predicate SealsOne(seal: Seal, d: Stream, c: Chan, frames: seq<Sealed>, f: Sealed, p: Policy, e: Sent<bytes>) {
    && (e.result.Ok? <==> |frames| < MAX_NONCE)
    && e.frames == (if e.result.Ok? then [f] else [])
    && (e.result.Ok? ==> e.result.value == WireOf(seal, d, frames + e.frames, |frames|))
    && (e.chan.closed <==> f.kind == CLOSE && e.result.Ok?)
    && e.chan.policy == (if e.result.Ok? then p else c.policy)
  }

  lemma EmitMessageGrows(seal: Seal, d: Stream, c: Chan, log: Log, frames: seq<Sealed>, text: bytes)
    requires WellFormed(frames) && SenderAt(d, c, frames) && LogHolds(seal, d, log, frames)
    requires !c.closed && |text| <= MAX_PLAINTEXT
    ensures var e := EmitMessage(seal, c, log, text);
            && Grown(seal, d, c, e.chan, log, e.log, frames, e.frames)
            && SealsOne(seal, d, c, frames, Sealed(TRANSPORT, text), c.policy.Noted(), e)
  {
    EmitAppends(seal, d, c, log, frames, TRANSPORT, text);
    Append(frames, Sealed(TRANSPORT, text));
    assert frames + [] == frames;
  }

  lemma EmitRekeyGrows(seal: Seal, d: Stream, c: Chan, log: Log, frames: seq<Sealed>, resetAt: real)
    requires WellFormed(frames) && SenderAt(d, c, frames) && LogHolds(seal, d, log, frames)
    requires !c.closed
    ensures var e := EmitRekey(seal, c, log, resetAt);
            && Grown(seal, d, c, e.chan, log, e.log, frames, e.frames)
            && SealsOne(seal, d, c, frames, Sealed(REKEY, []), c.policy.WasReset(resetAt), e)
  {
    EmitAppends(seal, d, c, log, frames, REKEY, []);
    Append(frames, Sealed(REKEY, []));
    assert frames + [] == frames;
  }

  /** A close frame is sealed at most once, and it closes the sender. */
  lemma CloseGrows(seal: Seal, d: Stream, c: Chan, log: Log, frames: seq<Sealed>)
    requires WellFormed(frames) && SenderAt(d, c, frames) && LogHolds(seal, d, log, frames)
    requires !c.closed
    ensures var e := CloseFrame(seal, c, log);
            && Grown(seal, d, c, e.chan, log, e.log, frames, e.frames)
            && SealsOne(seal, d, c, frames, Sealed(CLOSE, []), c.policy, e)
            && Texts(frames + e.frames) == Texts(frames)
  {
    EmitAppends(seal, d, c, log, frames, CLOSE, []);
    Append(frames, Sealed(CLOSE, []));
    assert frames + [] == frames;
  }

  /** The wire bytes of frames `from` up to `end`. */
  function Wires(seal: Seal, d: Stream, frames: seq<Sealed>, from: nat, end: nat): (r: seq<bytes>)
    requires from <= end <= |frames|
    ensures |r| == end - from
    decreases end - from
  {
    if from == end then [] else [WireOf(seal, d, frames, from)] + Wires(seal, d, frames, from + 1, end)
  }

  /** The frames an encryption seals. The second branch of the REKEY case is nonce exhaustion between
      the two frames: the REKEY frame is sealed but never handed out. */
  function EncryptFrames(c: Chan, frames: seq<Sealed>, text: bytes, dueAt: real): seq<Sealed> {
    if c.closed || |text| > MAX_PLAINTEXT || |frames| == MAX_NONCE then []
    else if !c.policy.Due(dueAt) then [Sealed(TRANSPORT, text)]
    else if |frames| + 1 < MAX_NONCE then [Sealed(REKEY, []), Sealed(TRANSPORT, text)]
    else [Sealed(REKEY, [])]
  }

  /** How sealing frames moves the rekey policy. */
  function PolicyAfter(p: Policy, more: seq<Sealed>, resetAt: real): Policy {
    if more == [] then p
    else if more[0].kind == REKEY then
      if |more| == 1 then p.WasReset(resetAt) else p.WasReset(resetAt).Noted()
    else p.Noted()
  }

  /** `e` is an encryption that sealed the frames the policy asks for, and handed out their wire bytes
      in order exactly when the last of them carries the message. */
  predicate SealsMessage(seal: Seal, d: Stream, c: Chan, frames: seq<Sealed>, text: bytes, dueAt: real, resetAt: real,
                         e: Sent<seq<bytes>>) {
    var all := frames + e.frames;
    && e.frames == EncryptFrames(c, frames, text, dueAt)
    && (e.result.Ok? <==> e.frames != [] && e.frames[|e.frames| - 1] == Sealed(TRANSPORT, text))
    && (e.result.Ok? ==> e.result.value == Wires(seal, d, all, |frames|, |all|))
    && Texts(all) == Texts(frames) + (if e.result.Ok? then [text] else [])
    && e.chan.closed == c.closed
    && e.chan.policy == PolicyAfter(c.policy, e.frames, resetAt)
  }

  lemma TwoWires(seal: Seal, d: Stream, frames: seq<Sealed>, f: Sealed, g: Sealed)
    ensures var mid := frames + [f];
            var all := frames + [f, g];
            && all == mid + [g]
            && Wires(seal, d, all, |frames|, |all|) == [WireOf(seal, d, mid, |frames|), WireOf(seal, d, all, |mid|)]
  {
    var all := frames + [f, g];
    assert all == frames + [f] + [g];
    WireStable(seal, d, frames + [f], [g], |frames|);
    assert Wires(seal, d, all, |all|, |all|) == [];
  }

  lemma JoinedSeals(seal: Seal, d: Stream, c: Chan, frames: seq<Sealed>, text: bytes, dueAt: real, resetAt: real,
                    k: Sent<bytes>, t: Sent<bytes>)
    requires |frames| < MAX_NONCE && !c.closed && |text| <= MAX_PLAINTEXT && c.policy.Due(dueAt)
    requires SealsOne(seal, d, c, frames, Sealed(REKEY, []), c.policy.WasReset(resetAt), k)
    requires SealsOne(seal, d, k.chan, frames + k.frames, Sealed(TRANSPORT, text), k.chan.policy.Noted(), t)
    ensures SealsMessage(seal, d, c, frames, text, dueAt, resetAt, Joined(k, t))
  {
    var mid := frames + k.frames;
    assert frames + (k.frames + t.frames) == mid + t.frames;
    Append(frames, Sealed(REKEY, []));
    if t.result.Ok? {
      Append(mid, Sealed(TRANSPORT, text));
      TwoWires(seal, d, frames, k.frames[0], t.frames[0]);
      assert k.frames + t.frames == [k.frames[0], t.frames[0]];
    } else {
      assert mid + [] == mid;
      assert k.frames + t.frames == k.frames;
    }
  }

  lemma GrownTwice(seal: Seal, d: Stream, c: Chan, c1: Chan, c2: Chan, log: Log, log1: Log, log2: Log,
                   frames: seq<Sealed>, more: seq<Sealed>, more': seq<Sealed>)
    requires Grown(seal, d, c, c1, log, log1, frames, more)
    requires Grown(seal, d, c1, c2, log1, log2, frames + more, more')
    ensures Grown(seal, d, c, c2, log, log2, frames, more + more')
  {
    assert frames + (more + more') == frames + more + more';
  }

  lemma EncryptDueGrows(seal: Seal, d: Stream, c: Chan, log: Log, frames: seq<Sealed>, text: bytes, dueAt: real,
                        resetAt: real)
    requires WellFormed(frames) && SenderAt(d, c, frames) && LogHolds(seal, d, log, frames)
    requires !c.closed && |text| <= MAX_PLAINTEXT && c.policy.Due(dueAt)
    ensures var e := Encrypt(seal, c, log, text, dueAt, resetAt);
            && Grown(seal, d, c, e.chan, log, e.log, frames, e.frames)
            && SealsMessage(seal, d, c, frames, text, dueAt, resetAt, e)
  {
    var k := EmitRekey(seal, c, log, resetAt);
    EmitRekeyGrows(seal, d, c, log, frames, resetAt);
    if k.result.Ok? {
      var t := EmitMessage(seal, k.chan, k.log, text);
      EmitMessageGrows(seal, d, k.chan, k.log, frames + k.frames, text);
      GrownTwice(seal, d, c, k.chan, t.chan, log, k.log, t.log, frames, k.frames, t.frames);
      JoinedSeals(seal, d, c, frames, text, dueAt, resetAt, k, t);
    } else {
      assert frames + [] == frames;
    }
  }

  lemma OneWire(seal: Seal, d: Stream, frames: seq<Sealed>, f: Sealed)
    ensures var all := frames + [f];
            Wires(seal, d, all, |frames|, |all|) == [WireOf(seal, d, all, |frames|)]
  {
  }

  lemma AloneSeals(seal: Seal, d: Stream, c: Chan, frames: seq<Sealed>, text: bytes, dueAt: real, resetAt: real,
                   t: Sent<bytes>)
    requires |frames| <= MAX_NONCE && !c.closed && |text| <= MAX_PLAINTEXT && !c.policy.Due(dueAt)
    requires SealsOne(seal, d, c, frames, Sealed(TRANSPORT, text), c.policy.Noted(), t)
    ensures SealsMessage(seal, d, c, frames, text, dueAt, resetAt, Alone(t))
  {
    Append(frames, Sealed(TRANSPORT, text));
    assert frames + [] == frames;
    if t.result.Ok? { OneWire(seal, d, frames, t.frames[0]); }
  }

  lemma EncryptGrows(seal: Seal, d: Stream, c: Chan, log: Log, frames: seq<Sealed>, text: bytes, dueAt: real,
                     resetAt: real)
    requires WellFormed(frames) && SenderAt(d, c, frames) && LogHolds(seal, d, log, frames)
    ensures var e := Encrypt(seal, c, log, text, dueAt, resetAt);
            && Grown(seal, d, c, e.chan, log, e.log, frames, e.frames)
            && SealsMessage(seal, d, c, frames, text, dueAt, resetAt, e)
  {
    assert frames + [] == frames;
    if !c.closed && |text| <= MAX_PLAINTEXT {
      if c.policy.Due(dueAt) {
        EncryptDueGrows(seal, d, c, log, frames, text, dueAt, resetAt);
      } else {
        EmitMessageGrows(seal, d, c, log, frames, text);
        AloneSeals(seal, d, c, frames, text, dueAt, resetAt, EmitMessage(seal, c, log, text));
      }
    }
  }

  /** A failed encryption has sealed a frame exactly when it was the REKEY frame that took the last
      nonce: the frame is lost, and nothing can be sent after it. */
  lemma FailedEncryptSealsExactlyWhen(seal: Seal, d: Stream, c: Chan, log: Log, frames: seq<Sealed>, text: bytes,
                                      dueAt: real, resetAt: real)
    requires WellFormed(frames) && SenderAt(d, c, frames) && LogHolds(seal, d, log, frames)
    ensures var e := Encrypt(seal, c, log, text, dueAt, resetAt);
            && (e.result.Err? && e.frames != [] <==>
                !c.closed && |text| <= MAX_PLAINTEXT && c.policy.Due(dueAt) && |frames| + 1 == MAX_NONCE)
            && (e.result.Err? && e.frames != [] ==> e.frames == [Sealed(REKEY, [])] && e.chan.send.n == MAX_NONCE)
  {
    EncryptGrows(seal, d, c, log, frames, text, dueAt, resetAt);
  }

  lemma DueErrors(seal: Seal, d: Stream, c: Chan, log: Log, frames: seq<Sealed>, text: bytes, dueAt: real,
                  resetAt: real)
    requires WellFormed(frames) && SenderAt(d, c, frames) && LogHolds(seal, d, log, frames)
    requires !c.closed && |text| <= MAX_PLAINTEXT && c.policy.Due(dueAt)
    ensures var e := Encrypt(seal, c, log, text, dueAt, resetAt);
            e.result.Err? ==> e.result.error == OutOfNonces(c)
  {
    var k := EmitRekey(seal, c, log, resetAt);
    EmitAppends(seal, d, c, log, frames, REKEY, []);
    if k.result.Ok? {
      EmitRekeyGrows(seal, d, c, log, frames, resetAt);
      EmitAppends(seal, d, k.chan, k.log, frames + k.frames, TRANSPORT, text);
    }
  }

  /** Which messages an encryption accepts: those that leave room for a tag in a frame of at most 65535 bytes, while
      the channel is open and nonces suffice for the message and a REKEY frame if one is due. What it
      refuses as closed or too large changes nothing. */
  lemma EncryptsExactlyWhen(seal: Seal, d: Stream, c: Chan, log: Log, frames: seq<Sealed>, text: bytes, dueAt: real,
                            resetAt: real)
    requires WellFormed(frames) && SenderAt(d, c, frames) && LogHolds(seal, d, log, frames)
    ensures var e := Encrypt(seal, c, log, text, dueAt, resetAt);
            var needed := if c.policy.Due(dueAt) then 2 else 1;
            && (e.result.Ok? <==>
                !c.closed && |text| + 16 <= 65535 && |frames| + needed <= 0xFFFF_FFFF_FFFF_FFFF)
            && (e.result.Ok? ==> |e.result.value| == needed)
            && (c.closed ==> e == Sent(Err(ChannelClosedError), c, log, []))
            && (!c.closed && |text| + 16 > 65535 ==> e == Sent(Err(ProtocolError), c, log, []))
            && (!c.closed && |text| + 16 <= 65535 && e.result.Err? ==> e.result.error == OutOfNonces(c))
  {
    EncryptGrows(seal, d, c, log, frames, text, dueAt, resetAt);
    if !c.closed && |text| <= MAX_PLAINTEXT {
      if c.policy.Due(dueAt) {
        DueErrors(seal, d, c, log, frames, text, dueAt, resetAt);
      } else {
        EmitAppends(seal, d, c, log, frames, TRANSPORT, text);
      }
    }
  }

  /** A close succeeds exactly on an open channel with a nonce left. */
  lemma ClosesExactlyWhen(seal: Seal, d: Stream, c: Chan, log: Log, frames: seq<Sealed>)
    requires WellFormed(frames) && SenderAt(d, c, frames) && LogHolds(seal, d, log, frames)
    ensures var e := CloseFrame(seal, c, log);
            && (e.result.Ok? <==> !c.closed && |frames| < 0xFFFF_FFFF_FFFF_FFFF)
            && (c.closed ==> e == Sent(Err(ChannelClosedError), c, log, []))
            && (!c.closed ==> (e.result.Err? ==> e.result.error == OutOfNonces(c)) && (e.result.Ok? <==> e.chan.closed))
  {
    if !c.closed {
      EmitAppends(seal, d, c, log, frames, CLOSE, []);
    }
  }

  // ----- receiving -----

  /** The state after accepting frame `m`, and the answer the caller gets. */
  ghost function Accepted(d: Stream, c: Chan, frames: seq<Sealed>): Opened
    requires c.recv.n < |frames|
  {
    var m := c.recv.n;
    Opened(match frames[m].kind
           case TRANSPORT => Ok(Some(frames[m].text))
           case REKEY => Ok(None)
           case CLOSE => Err(ChannelClosedError)
           case HANDSHAKE => Err(ProtocolError),
           c.(recv := Cipher(Key(d, Epoch(frames[..m + 1])), m + 1),
              window := c.window.(accepted := Below(m + 1)),
              closed := c.closed || frames[m].kind == CLOSE))
  }

  /** A wire whose query is in the log is the next genuine frame. */
  lemma OnlyNextOpens(seal: Seal, d: Stream, c: Chan, log: Log, frames: seq<Sealed>, wire: bytes)
    requires WellFormed(frames) && ReceiverAt(d, c, frames) && LogHolds(seal, d, log, frames)
    requires Decode(wire).Ok?
    requires var frame := Decode(wire).value;
             Logged(log, Query(c.recv.key, c.recv.n, frame.Header().value, frame.payload))
    ensures c.recv.n < |frames| && wire == WireOf(seal, d, frames, c.recv.n)
  {
    EncodeDecode(wire);
    assert wire == wire[..HEADER_LEN] + wire[HEADER_LEN..];
  }

  /** Genuine frames decode to their own fields, and to the header that was authenticated. */
  lemma DecodesNext(seal: Seal, d: Stream, frames: seq<Sealed>, m: nat)
    requires WellFormed(frames) && m < |frames|
    ensures Decode(WireOf(seal, d, frames, m)) == Ok(Frame(frames[m].kind, m, CiphertextOf(seal, d, frames, m)))
    ensures Frame(frames[m].kind, m, CiphertextOf(seal, d, frames, m)).Header() == Ok(HeaderOf(frames, m))
  {
    DecodeEncode(frames[m].kind, m, CiphertextOf(seal, d, frames, m));
  }

  /** The window never refuses the next genuine frame, and the cipher opens it. */
  lemma AcceptsNext(seal: Seal, d: Stream, c: Chan, log: Log, frames: seq<Sealed>)
    requires WellFormed(frames) && ReceiverAt(d, c, frames) && LogHolds(seal, d, log, frames)
    requires !c.closed && c.recv.n < |frames|
    ensures Decrypt(c, log, WireOf(seal, d, frames, c.recv.n)) == Accepted(d, c, frames)
  {
    var m := c.recv.n;
    DecodesNext(seal, d, frames, m);
    Extend(frames, m);
    assert Logged(log, QueryOf(seal, d, frames, m));
    assert Fresh(c.window.size, c.window.accepted, m);
    assert Below(m) + {m} == Below(m + 1);
  }

  /** At any moment an open receiver accepts exactly one byte string: the next genuine frame. Every
      other input leaves it as it was. */
  lemma AcceptsExactlyTheNextFrame(seal: Seal, d: Stream, c: Chan, log: Log, frames: seq<Sealed>, wire: bytes)
    requires WellFormed(frames) && ReceiverAt(d, c, frames) && LogHolds(seal, d, log, frames)
    ensures var next := !c.closed && c.recv.n < |frames| && wire == WireOf(seal, d, frames, c.recv.n);
            var o := Decrypt(c, log, wire);
            && (next ==> o == Accepted(d, c, frames))
            && (!next ==> o.chan == c && o.result.Err?)
  {
    if !c.closed && c.recv.n < |frames| && wire == WireOf(seal, d, frames, c.recv.n) {
      AcceptsNext(seal, d, c, log, frames);
    } else if !c.closed && Decode(wire).Ok? {
      var frame := Decode(wire).value;
      if Query(c.recv.key, c.recv.n, frame.Header().value, frame.payload) in log {
        OnlyNextOpens(seal, d, c, log, frames, wire);
        assert false;
      }
    }
  }

  /** Only frame `m` answers the query with nonce `m`. */
  lemma SameHeader(seal: Seal, d: Stream, c: Chan, log: Log, frames: seq<Sealed>, k: nat)
    requires WellFormed(frames) && ReceiverAt(d, c, frames) && LogHolds(seal, d, log, frames) && k < |frames|
    requires Logged(log, Query(c.recv.key, c.recv.n, HeaderOf(frames, k), CiphertextOf(seal, d, frames, k)))
    ensures k == c.recv.n
  {
    var m := c.recv.n;
    assert HeaderOf(frames, k) == HeaderOf(frames, m);
    HeaderInjective(frames[k].kind, k, |frames[k].text| + AEAD_TAG_LEN,
                    frames[m].kind, m, |frames[m].text| + AEAD_TAG_LEN);
  }

  /** Genuine frames out of their turn: an earlier one is a replay to the window; a later one passes the
      window, which would tolerate it, and is refused by the cipher, whose nonce has not got there. */
  lemma OutOfTurn(seal: Seal, d: Stream, c: Chan, log: Log, frames: seq<Sealed>, k: nat)
    requires WellFormed(frames) && ReceiverAt(d, c, frames) && LogHolds(seal, d, log, frames)
    requires !c.closed && k < |frames| && k != c.recv.n
    ensures Fresh(c.window.size, c.window.accepted, k) <==> c.recv.n < k
    ensures Decrypt(c, log, WireOf(seal, d, frames, k)) ==
            Opened(Err(if k < c.recv.n then ReplayError else DecryptionError), c)
  {
    var m := c.recv.n;
    var wire := WireOf(seal, d, frames, k);
    DecodesNext(seal, d, frames, k);
    if m < k && Logged(log, Query(c.recv.key, m, HeaderOf(frames, k), CiphertextOf(seal, d, frames, k))) {
      SameHeader(seal, d, c, log, frames, k);
    }
  }

  /** What an open receiver that has accepted `m` frames says to bytes that are not the next genuine frame. */
  function Refusal(m: nat, wire: bytes): Error {
    match Decode(wire)
    case Err(e) => e
    case Ok(frame) =>
      if frame.seqno < m then ReplayError
      else if m == 0xFFFF_FFFF_FFFF_FFFF then MaxNonceError
      else DecryptionError
  }

  /** The answer to any bytes at all: the next genuine frame is accepted, and everything else is refused with the
      error of what is wrong with it. So an open receiver reports that the channel is closed exactly when the
      next genuine frame says so. */
  lemma AnswersAnyInput(seal: Seal, d: Stream, c: Chan, log: Log, frames: seq<Sealed>, wire: bytes)
    requires WellFormed(frames) && ReceiverAt(d, c, frames) && LogHolds(seal, d, log, frames)
    requires !c.closed
    ensures var next := c.recv.n < |frames| && wire == WireOf(seal, d, frames, c.recv.n);
            var o := Decrypt(c, log, wire);
            && (next ==> o == Accepted(d, c, frames))
            && (!next ==> o == Opened(Err(Refusal(c.recv.n, wire)), c))
            && (|wire| < 14 ==> o.result == Err(FrameError))
            && (o.result == Err(ChannelClosedError) <==> next && frames[c.recv.n].kind == CLOSE)
  {
    DecodesExactlyWhen(wire);
    AcceptsExactlyTheNextFrame(seal, d, c, log, frames, wire);
    if c.recv.n < |frames| {
      DecodesNext(seal, d, frames, c.recv.n);
    }
  }

  /** The state after accepting a frame is again in step. */
  lemma AcceptedInStep(d: Stream, c: Chan, frames: seq<Sealed>)
    requires WellFormed(frames) && ReceiverAt(d, c, frames) && c.recv.n < |frames|
    ensures ReceiverAt(d, Accepted(d, c, frames).chan, frames)
  {
    assert frames[..c.recv.n + 1][c.recv.n] == frames[c.recv.n];
  }

  /** A receiver in step stays in step when the sender seals more. */
  lemma ReceiverKept(d: Stream, c: Chan, frames: seq<Sealed>, more: seq<Sealed>)
    requires ReceiverAt(d, c, frames)
    ensures ReceiverAt(d, c, frames + more)
  {
    assert (frames + more)[..c.recv.n] == frames[..c.recv.n];
  }
}
