/** Two endpoints and a network that may deliver any bytes at all to either of them, at any time:
    dropping, duplicating, reordering, reflecting and forging frames are all deliveries. */
module Duplex {
  import opened Protocol
  import opened Numerals
  import opened Replay
  import opened Rekeying
  import opened Ciphers
  import opened Channels
  import opened Lockstep

  datatype Side = Initiator | Responder
  {
    function Peer(): Side { if Initiator? then Responder else Initiator }

    /** The direction this side sends in. */
    function Heading(): Direction { if Initiator? then InitiatorToResponder else ResponderToInitiator }
  }

  /** The history of one direction: frames sealed, messages whose encryption returned, messages the
      receiver was given. */
  datatype Lane = Lane(frames: seq<Sealed>, sent: seq<bytes>, got: seq<bytes>)

  /** The message a decryption hands to its caller, if any. */
  function Returned(o: Opened): seq<bytes> {
    if o.result.Ok? && o.result.value.Some? then [o.result.value.value] else []
  }

  /** Both endpoints of one session, the two directions between them, and everything sealed so far,
      in this session or in any other. */
  datatype Sys = Sys(
    session: seq<bytes>,
    initiator: Chan,
    responder: Chan,
    fromInitiator: Lane,
    fromResponder: Lane,
    log: Log)
  {
    /** The stream on which `x` sends. */
    function Sending(x: Side): Stream { Stream(session, x.Heading()) }

    function At(x: Side): Chan { if x.Initiator? then initiator else responder }

    /** The lane on which `x` sends. */
    function From(x: Side): Lane { if x.Initiator? then fromInitiator else fromResponder }

    function With(x: Side, c: Chan, lane: Lane, log': Log): Sys {
      if x.Initiator? then this.(initiator := c, fromInitiator := lane, log := log')
      else this.(responder := c, fromResponder := lane, log := log')
    }

    /** `x` ends a decryption with outcome `o`. */
    function Receiving(x: Side, o: Opened): Sys {
      var lane := From(x.Peer());
      var lane' := lane.(got := lane.got + Returned(o));
      if x.Initiator? then this.(initiator := o.chan, fromResponder := lane')
      else this.(responder := o.chan, fromInitiator := lane')
    }
  }

  /** What may happen: an endpoint sends, closes or is given bytes, or another session seals something. */
  datatype Action =
    | Send(x: Side, text: bytes, dueAt: real, resetAt: real)
    | Finish(x: Side)
    | Deliver(x: Side, wire: bytes)
    | Elsewhere(query: Query, plaintext: bytes)

  ghost function Step(seal: Seal, s: Sys, a: Action): Sys {
    match a
    case Send(x, text, dueAt, resetAt) =>
      var e := Encrypt(seal, s.At(x), s.log, text, dueAt, resetAt);
      var lane := s.From(x);
      var sent := lane.sent + (if e.result.Ok? then [text] else []);
      s.With(x, e.chan, Lane(lane.frames + e.frames, sent, lane.got), e.log)
    case Finish(x) =>
      var e := CloseFrame(seal, s.At(x), s.log);
      var lane := s.From(x);
      s.With(x, e.chan, lane.(frames := lane.frames + e.frames), e.log)
    case Deliver(x, wire) => s.Receiving(x, Decrypt(s.At(x), s.log, wire))
    case Elsewhere(query, plaintext) =>
      if query.key.stream.session == s.session then s else s.(log := s.log[query := plaintext])
  }

  ghost function Run(seal: Seal, s: Sys, actions: seq<Action>): Sys
    decreases |actions|
  {
    if actions == [] then s else Run(seal, Step(seal, s, actions[0]), actions[1..])
  }

  /** Two new endpoints of one session, with any window sizes and rekey policies, in a world where
      `log` has been sealed. */
  ghost function Start(session: seq<bytes>, log: Log, windowI: nat, windowR: nat, policyI: Policy, policyR: Policy): Sys
  {
    var fromI := Cipher(Key(Stream(session, InitiatorToResponder), 0), 0);
    var fromR := Cipher(Key(Stream(session, ResponderToInitiator), 0), 0);
    Sys(session, NewChan(fromI, fromR, windowI, policyI), NewChan(fromR, fromI, windowR, policyR),
        Lane([], [], []), Lane([], [], []), log)
  }

  /** Nothing has been sealed under the keys of this session yet. */
  ghost predicate Unused(log: Log, session: seq<bytes>) {
    forall q :: Logged(log, q) ==> q.key.stream.session != session
  }

  // ----- the invariant -----

  ghost predicate LaneInStep(seal: Seal, s: Sys, x: Side) {
    var lane := s.From(x);
    var receiver := s.At(x.Peer());
    && WellFormed(lane.frames)
    && SenderAt(s.Sending(x), s.At(x), lane.frames)
    && ReceiverAt(s.Sending(x), receiver, lane.frames)
    && LogHolds(seal, s.Sending(x), s.log, lane.frames)
    && lane.sent == Texts(lane.frames)
    && lane.got == Texts(lane.frames[..receiver.recv.n])
  }

  ghost predicate InStep(seal: Seal, s: Sys) {
    LaneInStep(seal, s, Initiator) && LaneInStep(seal, s, Responder)
  }

  lemma StartInStep(seal: Seal, session: seq<bytes>, log: Log, windowI: nat, windowR: nat, policyI: Policy,
                    policyR: Policy)
    requires Unused(log, session) && 1 <= windowI && 1 <= windowR
    ensures InStep(seal, Start(session, log, windowI, windowR, policyI, policyR))
  {
  }

  /** What a sending operation of `x` does to the other lane: nothing. */
  lemma OtherLaneKept(seal: Seal, s: Sys, s': Sys, x: Side, more: seq<Sealed>)
    requires LaneInStep(seal, s, x.Peer())
    requires Grown(seal, s.Sending(x), s.At(x), s'.At(x), s.log, s'.log, s.From(x).frames, more)
    requires s'.session == s.session
    requires s'.At(x.Peer()) == s.At(x.Peer()) && s'.From(x.Peer()) == s.From(x.Peer())
    ensures LaneInStep(seal, s', x.Peer())
  {
    LogKept(seal, s.Sending(x.Peer()), s.log, s'.log, s.From(x.Peer()).frames, s.Sending(x));
  }

  lemma OwnLaneGrown(seal: Seal, s: Sys, s': Sys, x: Side, more: seq<Sealed>)
    requires LaneInStep(seal, s, x)
    requires Grown(seal, s.Sending(x), s.At(x), s'.At(x), s.log, s'.log, s.From(x).frames, more)
    requires s'.session == s.session && s'.At(x.Peer()) == s.At(x.Peer())
    requires s'.From(x) == Lane(s.From(x).frames + more, Texts(s.From(x).frames + more), s.From(x).got)
    ensures LaneInStep(seal, s', x)
  {
    var lane := s.From(x);
    ReceiverKept(s.Sending(x), s.At(x.Peer()), lane.frames, more);
    assert (lane.frames + more)[..s.At(x.Peer()).recv.n] == lane.frames[..s.At(x.Peer()).recv.n];
  }

  /** `wire` is the frame that the receiver `x` must take next. */
  predicate IsNext(seal: Seal, s: Sys, x: Side, wire: bytes) {
    var frames := s.From(x.Peer()).frames;
    var m := s.At(x).recv.n;
    !s.At(x).closed && m < |frames| && wire == WireOf(seal, s.Sending(x.Peer()), frames, m)
  }

  /** A delivery that is not the next genuine frame changes nothing at all. */
  lemma OthersIgnored(seal: Seal, s: Sys, x: Side, wire: bytes)
    requires InStep(seal, s) && !IsNext(seal, s, x, wire)
    ensures Decrypt(s.At(x), s.log, wire).result.Err?
    ensures Step(seal, s, Deliver(x, wire)) == s
  {
    AcceptsExactlyTheNextFrame(seal, s.Sending(x.Peer()), s.At(x), s.log, s.From(x.Peer()).frames, wire);
    assert s.From(x.Peer()).got + [] == s.From(x.Peer()).got;
  }

  /** Delivering the next genuine frame accepts it. */
  lemma NextAccepted(seal: Seal, s: Sys, x: Side, wire: bytes)
    requires InStep(seal, s) && IsNext(seal, s, x, wire)
    ensures Decrypt(s.At(x), s.log, wire) == Accepted(s.Sending(x.Peer()), s.At(x), s.From(x.Peer()).frames)
  {
    AcceptsExactlyTheNextFrame(seal, s.Sending(x.Peer()), s.At(x), s.log, s.From(x.Peer()).frames, wire);
  }

  lemma ReceivingKeepsOwnLane(seal: Seal, s: Sys, x: Side, o: Opened)
    requires LaneInStep(seal, s, x)
    requires o.chan.send == s.At(x).send && o.chan.sendSeq == s.At(x).sendSeq && (s.At(x).closed ==> o.chan.closed)
    ensures LaneInStep(seal, s.Receiving(x, o), x)
  {
  }

  lemma ReceivingKeepsPeerLane(seal: Seal, s: Sys, x: Side, o: Opened)
    requires LaneInStep(seal, s, x.Peer())
    requires ReceiverAt(s.Sending(x.Peer()), o.chan, s.From(x.Peer()).frames)
    requires Texts(s.From(x.Peer()).frames[..o.chan.recv.n]) == s.From(x.Peer()).got + Returned(o)
    ensures LaneInStep(seal, s.Receiving(x, o), x.Peer())
  {
  }

  lemma AcceptedReturns(d: Stream, c: Chan, frames: seq<Sealed>)
    requires c.recv.n < |frames|
    ensures var o := Accepted(d, c, frames);
            o.chan.recv.n == c.recv.n + 1 && Texts(frames[..c.recv.n + 1]) == Texts(frames[..c.recv.n]) + Returned(o)
  {
    Extend(frames, c.recv.n);
  }

  lemma AcceptedKeeps(seal: Seal, s: Sys, x: Side)
    requires InStep(seal, s) && s.At(x).recv.n < |s.From(x.Peer()).frames|
    ensures InStep(seal, s.Receiving(x, Accepted(s.Sending(x.Peer()), s.At(x), s.From(x.Peer()).frames)))
  {
    var o := Accepted(s.Sending(x.Peer()), s.At(x), s.From(x.Peer()).frames);
    AcceptedInStep(s.Sending(x.Peer()), s.At(x), s.From(x.Peer()).frames);
    ReceivingKeepsOwnLane(seal, s, x, o);
    AcceptedReturns(s.Sending(x.Peer()), s.At(x), s.From(x.Peer()).frames);
    ReceivingKeepsPeerLane(seal, s, x, o);
  }

  lemma NextKeeps(seal: Seal, s: Sys, x: Side, wire: bytes)
    requires InStep(seal, s) && IsNext(seal, s, x, wire)
    ensures InStep(seal, Step(seal, s, Deliver(x, wire)))
  {
    NextAccepted(seal, s, x, wire);
    AcceptedKeeps(seal, s, x);
  }

  lemma SendKeeps(seal: Seal, s: Sys, x: Side, text: bytes, dueAt: real, resetAt: real)
    requires InStep(seal, s)
    ensures InStep(seal, Step(seal, s, Send(x, text, dueAt, resetAt)))
  {
    var e := Encrypt(seal, s.At(x), s.log, text, dueAt, resetAt);
    var s' := Step(seal, s, Send(x, text, dueAt, resetAt));
    EncryptGrows(seal, s.Sending(x), s.At(x), s.log, s.From(x).frames, text, dueAt, resetAt);
    OwnLaneGrown(seal, s, s', x, e.frames);
    OtherLaneKept(seal, s, s', x, e.frames);
  }

  lemma FinishKeeps(seal: Seal, s: Sys, x: Side)
    requires InStep(seal, s)
    ensures InStep(seal, Step(seal, s, Finish(x)))
  {
    var s' := Step(seal, s, Finish(x));
    if s.At(x).closed {
      assert s.From(x).frames + [] == s.From(x).frames;
      assert s' == s;
    } else {
      var e := CloseFrame(seal, s.At(x), s.log);
      CloseGrows(seal, s.Sending(x), s.At(x), s.log, s.From(x).frames);
      OwnLaneGrown(seal, s, s', x, e.frames);
      OtherLaneKept(seal, s, s', x, e.frames);
    }
  }

  lemma ElsewhereKeeps(seal: Seal, s: Sys, query: Query, plaintext: bytes)
    requires InStep(seal, s)
    ensures InStep(seal, Step(seal, s, Elsewhere(query, plaintext)))
  {
    var s' := Step(seal, s, Elsewhere(query, plaintext));
    if query.key.stream.session != s.session {
      forall q ensures Logged(s'.log, q) <==> Logged(s.log, q) || q == query {}
      LogKept(seal, s.Sending(Initiator), s.log, s'.log, s.fromInitiator.frames, query.key.stream);
      LogKept(seal, s.Sending(Responder), s.log, s'.log, s.fromResponder.frames, query.key.stream);
    }
  }

  lemma StepKeeps(seal: Seal, s: Sys, a: Action)
    requires InStep(seal, s)
    ensures InStep(seal, Step(seal, s, a))
  {
    match a
    case Send(x, text, dueAt, resetAt) => SendKeeps(seal, s, x, text, dueAt, resetAt);
    case Finish(x) => FinishKeeps(seal, s, x);
    case Deliver(x, wire) =>
      if IsNext(seal, s, x, wire) { NextKeeps(seal, s, x, wire); } else { OthersIgnored(seal, s, x, wire); }
    case Elsewhere(query, plaintext) => ElsewhereKeeps(seal, s, query, plaintext);
  }

  lemma {:induction false} RunKeeps(seal: Seal, s: Sys, actions: seq<Action>)
    requires InStep(seal, s)
    ensures InStep(seal, Run(seal, s, actions)) && Run(seal, s, actions).session == s.session
    decreases |actions|
  {
    if actions != [] {
      StepKeeps(seal, s, actions[0]);
      RunKeeps(seal, Step(seal, s, actions[0]), actions[1..]);
    }
  }

  // ----- what every run guarantees -----

  /** A state that some run reaches from two new endpoints, whatever other sessions have sealed. */
  ghost predicate Reachable(seal: Seal, s: Sys) {
    exists session, log, windowI: nat, windowR: nat, policyI, policyR, actions ::
      && Unused(log, session) && 1 <= windowI && 1 <= windowR
      && s == Run(seal, Start(session, log, windowI, windowR, policyI, policyR), actions)
  }

  lemma ReachableInStep(seal: Seal, s: Sys)
    requires Reachable(seal, s)
    ensures InStep(seal, s)
  {
    var session, log, windowI: nat, windowR: nat, policyI, policyR, actions :|
      && Unused(log, session) && 1 <= windowI && 1 <= windowR
      && s == Run(seal, Start(session, log, windowI, windowR, policyI, policyR), actions);
    StartInStep(seal, session, log, windowI, windowR, policyI, policyR);
    RunKeeps(seal, Start(session, log, windowI, windowR, policyI, policyR), actions);
  }

  /** Whatever the network does, each receiver has returned a prefix of what its peer encrypted. */
  lemma Safety(seal: Seal, s: Sys, x: Side)
    requires Reachable(seal, s)
    ensures s.From(x).got <= s.From(x).sent
  {
    ReachableInStep(seal, s);
    TextsOfPrefix(s.From(x).frames, s.At(x.Peer()).recv.n);
  }

  /** The branch for an unexpected message type is dead: no input makes an endpoint accept a frame
      and then complain about its type. */
  lemma UnexpectedTypeUnreachable(seal: Seal, s: Sys, x: Side, wire: bytes)
    requires Reachable(seal, s)
    ensures var o := Decrypt(s.At(x), s.log, wire);
            o.chan != s.At(x) ==> o.result != Err(ProtocolError)
  {
    ReachableInStep(seal, s);
    AcceptsExactlyTheNextFrame(seal, s.Sending(x.Peer()), s.At(x), s.log, s.From(x.Peer()).frames, wire);
  }

  /** The four counters of a lane agree: sequence number and nonce of the sender count its frames,
      nonce, window and key epoch of the receiver count the accepted prefix, and the bitmap of a
      window in that state is all ones. */
  lemma CountersAgree(seal: Seal, s: Sys, x: Side, highest: int, bitmap: nat)
    requires Reachable(seal, s)
    requires Represents(s.At(x.Peer()).window.size, highest, bitmap, s.At(x.Peer()).window.accepted)
    ensures var sender, receiver, frames := s.At(x), s.At(x.Peer()), s.From(x).frames;
            var m := receiver.recv.n;
            && sender.send.n == |frames|
            && (sender.sendSeq == sender.send.n || (sender.send.n == MAX_NONCE && sender.sendSeq > MAX_NONCE))
            && sender.send.key.epoch == Epoch(frames)
            && m <= sender.send.n
            && highest + 1 == m
            && receiver.recv.key == Key(s.Sending(x), Epoch(frames[..m]))
            && bitmap == Pow(2, if m < receiver.window.size then m else receiver.window.size) - 1
  {
    ReachableInStep(seal, s);
    InOrderBitmap(s.At(x.Peer()).window.size, highest, bitmap, s.At(x.Peer()).recv.n);
  }

  /** An open receiver accepts the next genuine frame and no other bytes, and then returns its text,
      replaces its key, or closes, as the frame says. */
  lemma ExactlyTheNextFrame(seal: Seal, s: Sys, x: Side, wire: bytes)
    requires Reachable(seal, s)
    ensures Refuses(s.At(x), s.log, wire) <==> !IsNext(seal, s, x, wire)
    ensures IsNext(seal, s, x, wire) ==>
              Decrypt(s.At(x), s.log, wire) == Accepted(s.Sending(x.Peer()), s.At(x), s.From(x.Peer()).frames)
  {
    ReachableInStep(seal, s);
    AcceptsExactlyTheNextFrame(seal, s.Sending(x.Peer()), s.At(x), s.log, s.From(x.Peer()).frames, wire);
    RefusedMeansUnchanged(s.At(x), s.log, wire);
  }

  /** In every reachable state, what an open endpoint says to any bytes at all. */
  lemma AnswerToAnyInput(seal: Seal, s: Sys, x: Side, wire: bytes)
    requires Reachable(seal, s) && !s.At(x).closed
    ensures var o := Decrypt(s.At(x), s.log, wire);
            var frames, m := s.From(x.Peer()).frames, s.At(x).recv.n;
            && (IsNext(seal, s, x, wire) ==> o == Accepted(s.Sending(x.Peer()), s.At(x), frames))
            && (!IsNext(seal, s, x, wire) ==> o == Opened(Err(Refusal(m, wire)), s.At(x)))
            && (|wire| < 14 ==> o.result == Err(FrameError))
            && (o.result == Err(ChannelClosedError) <==> IsNext(seal, s, x, wire) && frames[m].kind == CLOSE)
  {
    ReachableInStep(seal, s);
    AnswersAnyInput(seal, s.Sending(x.Peer()), s.At(x), s.log, s.From(x.Peer()).frames, wire);
  }

  /** A genuine frame of the peer out of its turn is refused: as a replay when it was accepted before,
      by the cipher when others are missing in front of it. */
  lemma GenuineOutOfTurn(seal: Seal, s: Sys, x: Side, k: nat)
    requires Reachable(seal, s) && !s.At(x).closed
    requires k < |s.From(x.Peer()).frames| && k != s.At(x).recv.n
    ensures Decrypt(s.At(x), s.log, WireOf(seal, s.Sending(x.Peer()), s.From(x.Peer()).frames, k)).result
            == Err(if k < s.At(x).recv.n then ReplayError else DecryptionError)
  {
    ReachableInStep(seal, s);
    OutOfTurn(seal, s.Sending(x.Peer()), s.At(x), s.log, s.From(x.Peer()).frames, k);
  }

  /** No nonce is used twice in one direction over the life of a channel, whatever the key. */
  lemma NoncesNeverRepeat(seal: Seal, s: Sys, p: Query, q: Query)
    requires Reachable(seal, s)
    requires p in s.log && q in s.log && p.nonce == q.nonce
    requires p.key.stream == q.key.stream && p.key.stream.session == s.session
    ensures p == q
  {
    ReachableInStep(seal, s);
    var x := if p.key.stream.direction == InitiatorToResponder then Initiator else Responder;
    assert Logged(s.log, p) && Logged(s.log, q);
    NonceUsedOnce(seal, s.Sending(x), s.log, s.From(x).frames, p, q);
  }

  // ----- closing -----

  /** Only the last frame closes a receiver, and with it everything has been returned. */
  lemma ClosesAtTheEnd(seal: Seal, d: Stream, c: Chan, log: Log, frames: seq<Sealed>, wire: bytes)
    requires WellFormed(frames) && ReceiverAt(d, c, frames) && LogHolds(seal, d, log, frames)
    requires !c.closed && Decrypt(c, log, wire).chan.closed
    ensures EndsWithClose(frames)
    ensures Texts(frames) == Texts(frames[..c.recv.n]) + Returned(Decrypt(c, log, wire))
  {
    AcceptsExactlyTheNextFrame(seal, d, c, log, frames, wire);
    assert frames[c.recv.n].kind == CLOSE;
    AcceptedReturns(d, c, frames);
    assert frames[..c.recv.n + 1] == frames;
  }

  /** When a delivery closes an endpoint, it has already returned every message its peer ever
      encrypted, and the peer is closed too. */
  lemma CleanCloseIsComplete(seal: Seal, s: Sys, x: Side, wire: bytes)
    requires Reachable(seal, s)
    requires !s.At(x).closed && Decrypt(s.At(x), s.log, wire).chan.closed
    ensures var s' := Step(seal, s, Deliver(x, wire));
            && s'.From(x.Peer()).got == s'.From(x.Peer()).sent
            && s'.At(x).closed && s'.At(x.Peer()).closed
  {
    ReachableInStep(seal, s);
    ClosesAtTheEnd(seal, s.Sending(x.Peer()), s.At(x), s.log, s.From(x.Peer()).frames, wire);
  }

  /** A closed endpoint refuses every operation and keeps its state. */
  lemma ClosedRefuses(seal: Seal, s: Sys, a: Action)
    requires !a.Elsewhere? && s.At(a.x).closed
    ensures Step(seal, s, a) == s
    ensures match a
            case Send(x, text, dueAt, resetAt) =>
              Encrypt(seal, s.At(x), s.log, text, dueAt, resetAt).result == Err(ChannelClosedError)
            case Finish(x) => CloseFrame(seal, s.At(x), s.log).result == Err(ChannelClosedError)
            case Deliver(x, wire) => Decrypt(s.At(x), s.log, wire).result == Err(ChannelClosedError)
            case Elsewhere(query, plaintext) => true
  {
    assert s.From(a.x).frames + [] == s.From(a.x).frames;
    assert s.From(a.x).sent + [] == s.From(a.x).sent;
    assert s.From(a.x.Peer()).got + [] == s.From(a.x.Peer()).got;
  }

  /** After a clean close nothing is ever emitted or accepted again: whatever happens, both endpoints, both
      histories and all that was sealed in this session stay as they are. */
  lemma {:induction false} ClosedForever(seal: Seal, s: Sys, actions: seq<Action>)
    requires s.initiator.closed && s.responder.closed
    ensures Run(seal, s, actions) == s.(log := Run(seal, s, actions).log)
    ensures forall q: Query :: q.key.stream.session == s.session ==>
              (Logged(s.log, q) <==> Logged(Run(seal, s, actions).log, q))
              && (Logged(s.log, q) ==> s.log[q] == Run(seal, s, actions).log[q])
    decreases |actions|
  {
    if actions != [] {
      if !actions[0].Elsewhere? { ClosedRefuses(seal, s, actions[0]); }
      ClosedForever(seal, Step(seal, s, actions[0]), actions[1..]);
    }
  }

  // ----- rejected frames -----

  /** The actions without the deliveries that are refused at their turn. */
  ghost function WithoutRefused(seal: Seal, s: Sys, actions: seq<Action>): seq<Action>
    decreases |actions|
  {
    if actions == [] then []
    else
      var a := actions[0];
      var rest := WithoutRefused(seal, Step(seal, s, a), actions[1..]);
      if a.Deliver? && Refuses(s.At(a.x), s.log, a.wire) then rest else [a] + rest
  }

  /** Frames that fail decoding, the replay check or authentication can be erased from any run
      without changing where it ends: counters, keys, windows, closed flags and returned messages
      are the same. */
  lemma {:induction false} RefusedFramesErasable(seal: Seal, s: Sys, actions: seq<Action>)
    ensures Run(seal, s, WithoutRefused(seal, s, actions)) == Run(seal, s, actions)
    decreases |actions|
  {
    if actions != [] {
      var a := actions[0];
      var rest := WithoutRefused(seal, Step(seal, s, a), actions[1..]);
      RefusedFramesErasable(seal, Step(seal, s, a), actions[1..]);
      if a.Deliver? && Refuses(s.At(a.x), s.log, a.wire) {
        assert s.From(a.x.Peer()).got + [] == s.From(a.x.Peer()).got;
      } else {
        assert ([a] + rest)[1..] == rest;
      }
    }
  }
}
