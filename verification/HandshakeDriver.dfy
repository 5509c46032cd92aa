/** The loop that runs one side of a handshake over a link, and two such loops running against each
    other over FIFO links. */
module Drivers {
  import opened Protocol
  import opened Framing
  import opened Handshakes

  /** The local state of a driver loop. */
  datatype Driver = Driver(hs: Handshake, cert: bytes, peerCert: bytes, writeIndex: nat, failure: Option<Error>)
  {
    /** The loop has not ended and is not suspended on an empty link. */
    predicate CanRun(inbox: seq<bytes>) {
      failure.None? && !hs.IsComplete() && (hs.NextIsWrite() || inbox != [])
    }

    /** The loop has returned a result. */
    predicate Finished() { failure.None? && hs.IsComplete() }

    /** The payload of the next message: the certificate goes into the initiator's second message and
        the responder's first. */
    function NextPayload(): bytes {
      if writeIndex == (if hs.initiator then 1 else 0) then cert else []
    }

    function Failed(e: Error): Driver { this.(failure := Some(e)) }

    function Remaining(): nat {
      if failure.Some? || hs.pos >= XX_MESSAGE_COUNT then 0 else XX_MESSAGE_COUNT - hs.pos
    }
  }

  /** One pass through the loop: the new state, the frames put on the link, what is left to read. */
  datatype Pass = Pass(driver: Driver, sent: seq<bytes>, inbox: seq<bytes>)

  function WritePass(suite: Suite, d: Driver): (Driver, seq<bytes>) {
    var (message, hs) := Write(suite, d.hs, d.NextPayload());
    if message.Err? then (d.Failed(message.error), [])
    else
      var frame := Encode(HANDSHAKE, d.writeIndex, message.value);
      if frame.Err? then (d.(hs := hs).Failed(frame.error), [])
      else (d.(hs := hs, writeIndex := d.writeIndex + 1), [frame.value])
  }

  function ReadPass(suite: Suite, d: Driver, wire: bytes): Driver {
    var frame := Decode(wire);
    if frame.Err? then d.Failed(frame.error)
    else if frame.value.kind != HANDSHAKE then d.Failed(ProtocolError)
    else
      var (received, hs) := Read(suite, d.hs, frame.value.payload);
      if received.Err? then d.Failed(received.error)
      else d.(hs := hs, peerCert := if received.value != [] then received.value else d.peerCert)
  }

  function RunPass(suite: Suite, d: Driver, inbox: seq<bytes>): (p: Pass)
    requires d.CanRun(inbox)
  {
    if d.hs.NextIsWrite() then
      var (d', sent) := WritePass(suite, d);
      Pass(d', sent, inbox)
    else Pass(ReadPass(suite, d, inbox[0]), [], inbox[1..])
  }

  /** Passes until the loop ends or waits. */
  function Drive(suite: Suite, d: Driver, inbox: seq<bytes>): Pass
    requires d.hs.pos <= XX_MESSAGE_COUNT
    decreases d.Remaining()
  {
    if !d.CanRun(inbox) then Pass(d, [], inbox)
    else
      var p := RunPass(suite, d, inbox);
      var q := Drive(suite, p.driver, p.inbox);
      q.(sent := p.sent + q.sent)
  }

  lemma PassProgress(suite: Suite, d: Driver, inbox: seq<bytes>)
    requires d.hs.pos <= XX_MESSAGE_COUNT && d.CanRun(inbox)
    ensures RunPass(suite, d, inbox).driver.hs.pos <= XX_MESSAGE_COUNT
    ensures RunPass(suite, d, inbox).driver.Remaining() < d.Remaining()
  {
  }

  lemma DriveUnfolds(suite: Suite, d: Driver, inbox: seq<bytes>, sent: seq<bytes>, goal: Pass)
    requires d.hs.pos <= XX_MESSAGE_COUNT && d.CanRun(inbox)
    requires var p := Drive(suite, d, inbox);
             goal == p.(sent := sent + p.sent)
    ensures var pass := RunPass(suite, d, inbox);
            && pass.driver.hs.pos <= XX_MESSAGE_COUNT && pass.driver.Remaining() < d.Remaining()
            && var q := Drive(suite, pass.driver, pass.inbox);
               goal == q.(sent := sent + pass.sent + q.sent)
  {
    PassProgress(suite, d, inbox);
    var pass := RunPass(suite, d, inbox);
    var q := Drive(suite, pass.driver, pass.inbox);
    assert sent + (pass.sent + q.sent) == sent + pass.sent + q.sent;
  }

  /** What a driver that has to read makes of any bytes: it takes a frame of the handshake that the library can read,
      and stops with the error of anything else, changed in nothing but that. */
  lemma ReadsExactlyWhen(suite: Suite, d: Driver, wire: bytes)
    requires d.hs.pos == d.hs.step < 3 && !d.hs.NextIsWrite()
    ensures var d' := ReadPass(suite, d, wire);
            match Decode(wire)
            case Err(e) => d' == d.Failed(e)
            case Ok(frame) =>
              if frame.kind != HANDSHAKE then d' == d.Failed(ProtocolError)
              else if suite.read(d.hs.pos, frame.payload).None? then d' == d.Failed(HandshakeError)
              else
                var payload := suite.read(d.hs.pos, frame.payload).value.payload;
                && d'.failure == d.failure && d'.hs.pos == d.hs.pos + 1
                && d'.peerCert == (if payload == [] then d.peerCert else payload)
                && d'.cert == d.cert && d'.writeIndex == d.writeIndex
  {
  }

  class HandshakeLoop {
    const hs: NoiseXXHandshake
    const cert: bytes
    var peerCert: bytes
    var writeIndex: nat
    var failure: Option<Error>
    var inbox: seq<bytes>
    var outbox: seq<bytes>

    function Value(): Driver
      reads this, hs
    {
      Driver(hs.Value(), cert, peerCert, writeIndex, failure)
    }

    constructor (hs: NoiseXXHandshake, cert: bytes)
      ensures this.hs == hs && Value() == Driver(hs.Value(), cert, [], 0, None)
      ensures inbox == [] && outbox == []
    {
      this.hs := hs;
      this.cert := cert;
      peerCert := [];
      writeIndex := 0;
      failure := None;
      inbox := [];
      outbox := [];
    }

    /** The writing branch of the loop. */
    method WriteOne()
      modifies this, hs
      ensures var (d, sent) := old(WritePass(hs.suite, Value()));
              Value() == d && outbox == old(outbox) + sent && inbox == old(inbox)
    {
      var certWrite := if hs.initiator then writeIndex == 1 else writeIndex == 0;
      var message := hs.WriteMessage(if certWrite then cert else []);
      assert outbox + [] == outbox;
      if message.Err? {
        failure := Some(message.error);
        return;
      }
      var frame := Encode(HANDSHAKE, writeIndex, message.value);
      if frame.Err? {
        failure := Some(frame.error);
        return;
      }
      outbox := outbox + [frame.value];
      writeIndex := writeIndex + 1;
    }

    /** The reading branch of the loop. */
    method ReadOne()
      requires inbox != []
      modifies this, hs
      ensures Value() == old(ReadPass(hs.suite, Value(), inbox[0]))
      ensures outbox == old(outbox) && inbox == old(inbox)[1..]
    {
      var frame := Decode(inbox[0]);
      inbox := inbox[1..];
      if frame.Err? {
        failure := Some(frame.error);
        return;
      }
      if frame.value.kind != HANDSHAKE {
        failure := Some(ProtocolError);
        return;
      }
      var received := hs.ReadMessage(frame.value.payload);
      if received.Err? {
        failure := Some(received.error);
        return;
      }
      if received.value != [] {
        peerCert := received.value;
      }
    }

    /** Run until the handshake is complete, has failed, or needs a frame that has not arrived. */
    method DriveHandshake()
      requires hs.pos <= XX_MESSAGE_COUNT
      modifies this, hs
      ensures var p := old(Drive(hs.suite, Value(), inbox));
              Value() == p.driver && inbox == p.inbox && outbox == old(outbox) + p.sent
    {
      ghost var sent: seq<bytes> := [];
      ghost var goal := Drive(hs.suite, Value(), inbox);
      assert outbox + sent == outbox && sent + goal.sent == goal.sent;
      while Value().CanRun(inbox)
        invariant hs.pos <= XX_MESSAGE_COUNT
        invariant outbox == old(outbox) + sent
        invariant var p := Drive(hs.suite, Value(), inbox);
                  goal == p.(sent := sent + p.sent)
        decreases Value().Remaining()
      {
        ghost var before, from := Value(), inbox;
        ghost var pass := RunPass(hs.suite, before, from);
        if Value().hs.NextIsWrite() {
          WriteOne();
        } else {
          ReadOne();
        }
        DriveUnfolds(hs.suite, before, from, sent, goal);
        sent := sent + pass.sent;
      }
      assert sent + [] == sent;
    }
  }

  // ----- two drivers over FIFO links -----

  /** Static keys and certificates of the two sides. */
  datatype Setup = Setup(staticI: PublicKey, staticR: PublicKey, certI: bytes, certR: bytes)
  {
    /** The payloads of the three messages. */
    function Payloads(): seq<bytes> { [[], certR, certI] }

    /** The payload of message `k` fits in a frame next to the keys and tags of its message. */
    predicate FitsAt(k: nat)
      requires k < XX_MESSAGE_COUNT
    {
      |Payloads()[k]| + Overhead(k) <= MAX_PAYLOAD
    }

    /** Both certificates fit. */
    predicate Fits() { FitsAt(1) && FitsAt(2) }

    function Messages(suite: Suite): seq<bytes> {
      [suite.write(0, staticI, []), suite.write(1, staticR, certR), suite.write(2, staticI, certI)]
    }

    /** The frame of message `k`; each side numbers its own from 0. */
    function FrameOf(suite: Suite, k: nat): bytes
      requires k < XX_MESSAGE_COUNT
    {
      var message := Messages(suite)[k];
      HeaderBytes(HANDSHAKE, if k < 2 then 0 else 1, |message|) + message
    }
  }

  /** Both sides, the links between them, and two histories: the payloads written and the frames each
      application has sent since its own side finished. */
  datatype Net = Net(
    initiator: Driver,
    responder: Driver,
    toResponder: seq<bytes>,
    toInitiator: seq<bytes>,
    written: seq<bytes>,
    appI: seq<bytes>,
    appR: seq<bytes>)
  {
    predicate Done() { initiator.Finished() && responder.Finished() }
  }

  /** One pass of a driver, or an application frame from a side that has finished. */
  datatype Move = PassI | PassR | AppI(wire: bytes) | AppR(wire: bytes)

  function Start(setup: Setup): Net {
    Net(Driver(Handshake(true, setup.staticI, 0, 0, None, []), setup.certI, [], 0, None),
        Driver(Handshake(false, setup.staticR, 0, 0, None, []), setup.certR, [], 0, None),
        [], [], [], [], [])
  }

  function MoveNet(suite: Suite, n: Net, move: Move): Net {
    match move
    case PassI =>
      if !n.initiator.CanRun(n.toInitiator) then n
      else
        var p := RunPass(suite, n.initiator, n.toInitiator);
        n.(initiator := p.driver, toInitiator := p.inbox, toResponder := n.toResponder + p.sent,
           written := n.written + (if p.sent == [] then [] else [n.initiator.NextPayload()]))
    case PassR =>
      if !n.responder.CanRun(n.toResponder) then n
      else
        var p := RunPass(suite, n.responder, n.toResponder);
        n.(responder := p.driver, toResponder := p.inbox, toInitiator := n.toInitiator + p.sent,
           written := n.written + (if p.sent == [] then [] else [n.responder.NextPayload()]))
    case AppI(wire) =>
      if !n.initiator.Finished() then n else n.(toResponder := n.toResponder + [wire], appI := n.appI + [wire])
    case AppR(wire) =>
      if !n.responder.Finished() then n else n.(toInitiator := n.toInitiator + [wire], appR := n.appR + [wire])
  }

  function RunNet(suite: Suite, n: Net, moves: seq<Move>): Net
    decreases |moves|
  {
    if moves == [] then n else RunNet(suite, MoveNet(suite, n, moves[0]), moves[1..])
  }

  // ----- the seven states -----

  /** The initiator after `p` messages. */
  function InitiatorAt(suite: Suite, setup: Setup, p: nat): Driver
    requires p <= XX_MESSAGE_COUNT
  {
    var peer := if p >= 2 then Some(setup.staticR) else None;
    Driver(Handshake(true, setup.staticI, p, p, peer, setup.Messages(suite)[..p]),
           setup.certI, if p >= 2 then setup.certR else [], if p == 0 then 0 else if p < 3 then 1 else 2, None)
  }

  /** The responder after `p` messages. */
  function ResponderAt(suite: Suite, setup: Setup, p: nat): Driver
    requires p <= XX_MESSAGE_COUNT
  {
    var peer := if p >= 3 then Some(setup.staticI) else None;
    Driver(Handshake(false, setup.staticR, p, p, peer, setup.Messages(suite)[..p]),
           setup.certR, if p >= 3 then setup.certI else [], if p < 2 then 0 else 1, None)
  }

  /** The sides are never more than one message apart, the writer of that message ahead. */
  predicate Phase(p: nat, q: nat) {
    p <= XX_MESSAGE_COUNT && q <= XX_MESSAGE_COUNT
    && (p == q || (p == q + 1 && q != 1) || (q == 2 && p == 1))
  }

  predicate Reached(suite: Suite, setup: Setup, n: Net, p: nat, q: nat) {
    && Phase(p, q)
    && n.initiator == InitiatorAt(suite, setup, p)
    && n.responder == ResponderAt(suite, setup, q)
    && n.toResponder == (if p > q then [setup.FrameOf(suite, q)] else []) + n.appI
    && n.toInitiator == (if q > p then [setup.FrameOf(suite, p)] else []) + n.appR
    && n.written == setup.Payloads()[..if p > q then p else q]
    && (n.appI != [] ==> p == XX_MESSAGE_COUNT)
    && (n.appR != [] ==> q == XX_MESSAGE_COUNT)
  }

  /** A side that is about to write message `k` writes its frame. */
  lemma WritesFrame(suite: Suite, setup: Setup, d: Driver, k: nat)
    requires suite.Correct() && k < XX_MESSAGE_COUNT && setup.FitsAt(k)
    requires d == (if k % 2 == 0 then InitiatorAt(suite, setup, k) else ResponderAt(suite, setup, k))
    ensures var (d', sent) := WritePass(suite, d);
            && d' == (if k % 2 == 0 then InitiatorAt(suite, setup, k + 1) else ResponderAt(suite, setup, k + 1))
            && sent == [setup.FrameOf(suite, k)]
            && d.NextPayload() == setup.Payloads()[k]
  {
    var messages := setup.Messages(suite);
    assert messages[..k] + [messages[k]] == messages[..k + 1];
  }

  lemma ReadPassOf(suite: Suite, d: Driver, wire: bytes, message: bytes, seqno: nat, payload: bytes, hs: Handshake)
    requires Decode(wire) == Ok(Frame(HANDSHAKE, seqno, message))
    requires Read(suite, d.hs, message) == (Ok(payload), hs)
    ensures ReadPass(suite, d, wire) == d.(hs := hs, peerCert := if payload != [] then payload else d.peerCert)
  {
  }

  lemma ReadsMessage(suite: Suite, setup: Setup, hs: Handshake, k: nat)
    requires suite.Correct() && k < XX_MESSAGE_COUNT
    requires hs == (if k % 2 == 0 then ResponderAt(suite, setup, k) else InitiatorAt(suite, setup, k)).hs
    ensures Read(suite, hs, setup.Messages(suite)[k]) ==
            (Ok(setup.Payloads()[k]),
             (if k % 2 == 0 then ResponderAt(suite, setup, k + 1) else InitiatorAt(suite, setup, k + 1)).hs)
  {
    var messages := setup.Messages(suite);
    assert messages[..k] + [messages[k]] == messages[..k + 1];
  }

  lemma FrameDecodes(suite: Suite, setup: Setup, k: nat)
    requires suite.Correct() && k < XX_MESSAGE_COUNT && setup.FitsAt(k)
    ensures Decode(setup.FrameOf(suite, k)) == Ok(Frame(HANDSHAKE, if k < 2 then 0 else 1, setup.Messages(suite)[k]))
  {
    DecodeEncode(HANDSHAKE, if k < 2 then 0 else 1, setup.Messages(suite)[k]);
  }

  /** A side that is about to read message `k` reads its frame. */
  lemma ReadsFrame(suite: Suite, setup: Setup, d: Driver, k: nat)
    requires suite.Correct() && k < XX_MESSAGE_COUNT && setup.FitsAt(k)
    requires d == (if k % 2 == 0 then ResponderAt(suite, setup, k) else InitiatorAt(suite, setup, k))
    ensures ReadPass(suite, d, setup.FrameOf(suite, k)) ==
            (if k % 2 == 0 then ResponderAt(suite, setup, k + 1) else InitiatorAt(suite, setup, k + 1))
  {
    FrameDecodes(suite, setup, k);
    ReadsMessage(suite, setup, d.hs, k);
    var after := if k % 2 == 0 then ResponderAt(suite, setup, k + 1) else InitiatorAt(suite, setup, k + 1);
    ReadPassOf(suite, d, setup.FrameOf(suite, k), setup.Messages(suite)[k], if k < 2 then 0 else 1,
               setup.Payloads()[k], after.hs);
  }

  lemma PassIKeeps(suite: Suite, setup: Setup, n: Net, p: nat, q: nat)
    requires suite.Correct() && Reached(suite, setup, n, p, q)
    requires n.initiator.CanRun(n.toInitiator) && setup.FitsAt(p)
    ensures Reached(suite, setup, MoveNet(suite, n, PassI), p + 1, q)
  {
    if p % 2 == 0 { WritesFrame(suite, setup, n.initiator, p); } else { ReadsFrame(suite, setup, n.initiator, p); }
  }

  lemma PassRKeeps(suite: Suite, setup: Setup, n: Net, p: nat, q: nat)
    requires suite.Correct() && Reached(suite, setup, n, p, q)
    requires n.responder.CanRun(n.toResponder) && setup.FitsAt(q)
    ensures Reached(suite, setup, MoveNet(suite, n, PassR), p, q + 1)
  {
    if q % 2 == 1 { WritesFrame(suite, setup, n.responder, q); } else { ReadsFrame(suite, setup, n.responder, q); }
  }

  /** Every move keeps the system in one of the seven states; a pass that can run adds exactly one to
      the messages processed. */
  lemma MoveKeeps(suite: Suite, setup: Setup, n: Net, p: nat, q: nat, move: Move)
    requires suite.Correct() && setup.Fits() && Reached(suite, setup, n, p, q)
    ensures var p' := if move == PassI && n.initiator.CanRun(n.toInitiator) then p + 1 else p;
            var q' := if move == PassR && n.responder.CanRun(n.toResponder) then q + 1 else q;
            Reached(suite, setup, MoveNet(suite, n, move), p', q')
  {
    match move
    case PassI => if n.initiator.CanRun(n.toInitiator) { PassIKeeps(suite, setup, n, p, q); }
    case PassR => if n.responder.CanRun(n.toResponder) { PassRKeeps(suite, setup, n, p, q); }
    case AppI(wire) =>
    case AppR(wire) =>
  }

  // ----- whole runs -----

  lemma StartReached(suite: Suite, setup: Setup)
    ensures Reached(suite, setup, Start(setup), 0, 0)
  {
  }

  /** How many of the moves are driver passes that could run when their turn came. */
  function Passes(suite: Suite, n: Net, moves: seq<Move>): nat
    decreases |moves|
  {
    if moves == [] then 0
    else
      (if || (moves[0] == PassI && n.initiator.CanRun(n.toInitiator))
          || (moves[0] == PassR && n.responder.CanRun(n.toResponder))
       then 1 else 0)
      + Passes(suite, MoveNet(suite, n, moves[0]), moves[1..])
  }

  /** Any interleaving leads to one of the seven states, and the two counts add up the passes made. */
  lemma {:induction false} RunReaches(suite: Suite, setup: Setup, n: Net, p: nat, q: nat, moves: seq<Move>)
    returns (p': nat, q': nat)
    requires suite.Correct() && setup.Fits() && Reached(suite, setup, n, p, q)
    ensures Reached(suite, setup, RunNet(suite, n, moves), p', q')
    ensures p' + q' == p + q + Passes(suite, n, moves)
    decreases |moves|
  {
    p', q' := p, q;
    if moves != [] {
      MoveKeeps(suite, setup, n, p, q, moves[0]);
      var p1 := if moves[0] == PassI && n.initiator.CanRun(n.toInitiator) then p + 1 else p;
      var q1 := if moves[0] == PassR && n.responder.CanRun(n.toResponder) then q + 1 else q;
      p', q' := RunReaches(suite, setup, MoveNet(suite, n, moves[0]), p1, q1, moves[1..]);
    }
  }

  /** In every interleaving: no driver ever fails, so none reads a frame of the wrong type, whatever a
      side that has finished sends; while one is unfinished, one of them can run; and both are
      finished exactly after six passes, three messages written and read. */
  lemma NeverDeadlocks(suite: Suite, setup: Setup, moves: seq<Move>)
    requires suite.Correct() && setup.Fits()
    ensures var n := RunNet(suite, Start(setup), moves);
            && n.initiator.failure.None? && n.responder.failure.None?
            && (n.Done() || n.initiator.CanRun(n.toInitiator) || n.responder.CanRun(n.toResponder))
            && Passes(suite, Start(setup), moves) <= 6
            && (n.Done() <==> Passes(suite, Start(setup), moves) == 6)
  {
    var p, q := RunReaches(suite, setup, Start(setup), 0, 0, moves);
  }

  // ----- certificates that do not fit -----

  /** The handshake stops before message `k`: nothing beyond it was written, or its writer has failed
      and the other side waits for ever. */
  ghost predicate StopsAt(suite: Suite, setup: Setup, n: Net, k: nat)
    requires 1 <= k < XX_MESSAGE_COUNT
  {
    || (exists p: nat, q: nat :: p <= k && q <= k && Reached(suite, setup, n, p, q))
    || (k == 1 && n.responder.failure.Some? && n.initiator == InitiatorAt(suite, setup, 1) && n.toInitiator == [])
    || (k == 2 && n.initiator.failure.Some? && n.responder == ResponderAt(suite, setup, 2) && n.toResponder == [])
  }

  /** Writing a message that does not fit fails and sends nothing. */
  lemma OversizeFails(suite: Suite, setup: Setup, d: Driver, k: nat)
    requires suite.Correct() && k < XX_MESSAGE_COUNT && !setup.FitsAt(k)
    requires d == (if k % 2 == 0 then InitiatorAt(suite, setup, k) else ResponderAt(suite, setup, k))
    ensures var (d', sent) := WritePass(suite, d);
            d'.failure == Some(FrameError) && sent == []
  {
  }

  lemma StopKept(suite: Suite, setup: Setup, n: Net, p: nat, q: nat, k: nat, move: Move)
    requires suite.Correct() && 1 <= k < XX_MESSAGE_COUNT && !setup.FitsAt(k) && (k == 2 ==> setup.FitsAt(1))
    requires p <= k && q <= k && Reached(suite, setup, n, p, q)
    ensures StopsAt(suite, setup, MoveNet(suite, n, move), k)
  {
    match move
    case PassI =>
      if n.initiator.CanRun(n.toInitiator) {
        if p == k { OversizeFails(suite, setup, n.initiator, k); } else { PassIKeeps(suite, setup, n, p, q); }
      }
    case PassR =>
      if n.responder.CanRun(n.toResponder) {
        if q == k { OversizeFails(suite, setup, n.responder, k); } else { PassRKeeps(suite, setup, n, p, q); }
      }
    case AppI(wire) =>
    case AppR(wire) =>
  }

  lemma {:induction false} StopsForGood(suite: Suite, setup: Setup, n: Net, k: nat, moves: seq<Move>)
    requires suite.Correct() && 1 <= k < XX_MESSAGE_COUNT && !setup.FitsAt(k) && (k == 2 ==> setup.FitsAt(1))
    requires StopsAt(suite, setup, n, k)
    ensures !RunNet(suite, n, moves).Done()
    decreases |moves|
  {
    if moves != [] {
      if p: nat, q: nat :| p <= k && q <= k && Reached(suite, setup, n, p, q) {
        StopKept(suite, setup, n, p, q, k, moves[0]);
      }
      StopsForGood(suite, setup, MoveNet(suite, n, moves[0]), k, moves[1..]);
    }
  }

  lemma OversizeNeverFinishes(suite: Suite, setup: Setup, moves: seq<Move>)
    requires suite.Correct() && !setup.Fits()
    ensures !RunNet(suite, Start(setup), moves).Done()
  {
    StartReached(suite, setup);
    StopsForGood(suite, setup, Start(setup), if setup.FitsAt(1) then 2 else 1, moves);
  }

  lemma {:induction false} RunInTwo(suite: Suite, n: Net, first: seq<Move>, rest: seq<Move>)
    ensures RunNet(suite, n, first + rest) == RunNet(suite, RunNet(suite, n, first), rest)
    decreases |first|
  {
    if first == [] {
      assert first + rest == rest;
    } else {
      assert (first + rest)[1..] == first[1..] + rest;
      RunInTwo(suite, MoveNet(suite, n, first[0]), first[1..], rest);
    }
  }

  /** From every state a run can reach, some continuation finishes. */
  lemma {:induction false} CanFinish(suite: Suite, setup: Setup, n: Net, p: nat, q: nat) returns (moves: seq<Move>)
    requires suite.Correct() && setup.Fits() && Reached(suite, setup, n, p, q)
    ensures RunNet(suite, n, moves).Done() && RunNet(suite, n, moves).appI == n.appI
    decreases 6 - p - q
  {
    if n.Done() {
      moves := [];
    } else {
      var move := if n.initiator.CanRun(n.toInitiator) then PassI else PassR;
      MoveKeeps(suite, setup, n, p, q, move);
      var n' := MoveNet(suite, n, move);
      var rest := CanFinish(suite, setup, n', if move == PassI then p + 1 else p, if move == PassR then q + 1 else q);
      moves := [move] + rest;
      RunInTwo(suite, n, [move], rest);
    }
  }

  predicate Finishes(suite: Suite, setup: Setup, moves: seq<Move>) { RunNet(suite, Start(setup), moves).Done() }

  /** The handshake can finish if and only if both certificates fit. */
  lemma FinishesExactlyWhenCertificatesFit(suite: Suite, setup: Setup)
    requires suite.Correct()
    ensures (exists moves :: Finishes(suite, setup, moves)) <==>
            |setup.certR| + 96 <= 65535 && |setup.certI| + 64 <= 65535
  {
    if setup.Fits() {
      StartReached(suite, setup);
      var moves := CanFinish(suite, setup, Start(setup), 0, 0);
      assert Finishes(suite, setup, moves);
    } else {
      forall moves ensures !Finishes(suite, setup, moves) {
        OversizeNeverFinishes(suite, setup, moves);
      }
    }
  }

  /** A certificate travels in the second or third message and never in the first, in every
      interleaving. */
  lemma CertificatePlacement(suite: Suite, setup: Setup, moves: seq<Move>)
    requires suite.Correct() && setup.Fits()
    ensures RunNet(suite, Start(setup), moves).written <= [[], setup.certR, setup.certI]
  {
    var p, q := RunReaches(suite, setup, Start(setup), 0, 0, moves);
  }

  /** When both sides are finished they agree: on the transcript hash, on each other's static key and
      certificate, and on which key serves which direction. What either application sent early is
      still on the links, complete and in order, for the channel to read. */
  lemma Agreement(suite: Suite, setup: Setup, moves: seq<Move>)
    requires suite.Correct() && setup.Fits()
    requires RunNet(suite, Start(setup), moves).Done()
    ensures var n := RunNet(suite, Start(setup), moves);
            && n.initiator.peerCert == setup.certR && n.responder.peerCert == setup.certI
            && n.written == [[], setup.certR, setup.certI]
            && n.toResponder == n.appI && n.toInitiator == n.appR
            && ResultOf(suite, n.initiator.hs).Ok? && ResultOf(suite, n.responder.hs).Ok?
            && var i := ResultOf(suite, n.initiator.hs).value;
               var r := ResultOf(suite, n.responder.hs).value;
               && i.handshakeHash == r.handshakeHash == suite.hash(setup.Messages(suite))
               && i.isInitiator && !r.isInitiator
               && i.remoteStatic == r.localStatic == setup.staticR
               && r.remoteStatic == i.localStatic == setup.staticI
               && i.sendCipher == r.recvCipher && r.sendCipher == i.recvCipher && i.sendCipher != i.recvCipher
  {
    var p, q := RunReaches(suite, setup, Start(setup), 0, 0, moves);
    var n := RunNet(suite, Start(setup), moves);
    assert setup.Messages(suite)[..XX_MESSAGE_COUNT] == setup.Messages(suite);
    KeysAgreeExactlyWhen(suite, n.initiator.hs, n.responder.hs);
  }

  lemma SendsOne(suite: Suite, setup: Setup, n: Net, q: nat, wire: bytes)
    requires suite.Correct() && setup.Fits() && Reached(suite, setup, n, XX_MESSAGE_COUNT, q)
    ensures var n' := RunNet(suite, n, [AppI(wire)]);
            Reached(suite, setup, n', XX_MESSAGE_COUNT, q) && n'.appI == n.appI + [wire]
  {
    MoveKeeps(suite, setup, n, XX_MESSAGE_COUNT, q, AppI(wire));
  }

  /** A side that has finished can send any frames at once. */
  lemma {:induction false} SendsAtOnce(suite: Suite, setup: Setup, n: Net, q: nat, wires: seq<bytes>)
    returns (moves: seq<Move>)
    requires suite.Correct() && setup.Fits() && Reached(suite, setup, n, XX_MESSAGE_COUNT, q)
    ensures Reached(suite, setup, RunNet(suite, n, moves), XX_MESSAGE_COUNT, q)
    ensures RunNet(suite, n, moves).appI == n.appI + wires
  {
    if wires == [] {
      moves := [];
    } else {
      var k := |wires| - 1;
      var init := SendsAtOnce(suite, setup, n, q, wires[..k]);
      moves := init + [AppI(wires[k])];
      RunInTwo(suite, n, init, [AppI(wires[k])]);
      SendsOne(suite, setup, RunNet(suite, n, init), q, wires[k]);
      assert n.appI + wires == n.appI + wires[..k] + [wires[k]];
    }
  }

  /** Five passes finish the initiator before the responder has read the last message. */
  lemma FivePasses(suite: Suite, setup: Setup)
    requires suite.Correct() && setup.Fits()
    ensures var n := RunNet(suite, Start(setup), [PassI, PassR, PassR, PassI, PassI]);
            Reached(suite, setup, n, XX_MESSAGE_COUNT, 2) && n.appI == []
  {
    var n0 := Start(setup);
    var n1 := MoveNet(suite, n0, PassI);
    var n2 := MoveNet(suite, n1, PassR);
    var n3 := MoveNet(suite, n2, PassR);
    var n4 := MoveNet(suite, n3, PassI);
    MoveKeeps(suite, setup, n0, 0, 0, PassI);
    MoveKeeps(suite, setup, n1, 1, 0, PassR);
    MoveKeeps(suite, setup, n2, 1, 1, PassR);
    MoveKeeps(suite, setup, n3, 1, 2, PassI);
    MoveKeeps(suite, setup, n4, 2, 2, PassI);
    RunInTwo(suite, n0, [PassI, PassR, PassR, PassI], [PassI]);
    RunInTwo(suite, n0, [PassI, PassR, PassR], [PassI]);
    RunInTwo(suite, n0, [PassI, PassR], [PassR]);
    RunInTwo(suite, n0, [PassI], [PassR]);
  }

  /** Any frames can be sent before the responder has finished, and the handshake still finishes with exactly
      these waiting behind its last message. */
  lemma EarlyFramesPossible(suite: Suite, setup: Setup, wires: seq<bytes>) returns (moves: seq<Move>)
    requires suite.Correct() && setup.Fits()
    ensures var n := RunNet(suite, Start(setup), moves);
            n.Done() && n.appI == wires && n.toResponder == wires
  {
    var five := [PassI, PassR, PassR, PassI, PassI];
    FivePasses(suite, setup);
    var early := SendsAtOnce(suite, setup, RunNet(suite, Start(setup), five), 2, wires);
    var n := RunNet(suite, RunNet(suite, Start(setup), five), early);
    var last := CanFinish(suite, setup, n, XX_MESSAGE_COUNT, 2);
    RunInTwo(suite, Start(setup), five, early);
    RunInTwo(suite, Start(setup), five + early, last);
    moves := five + early + last;
    Agreement(suite, setup, moves);
  }
}
