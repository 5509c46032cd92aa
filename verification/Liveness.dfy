/** Delivery after an attack: whatever has happened before, once the link delivers the outstanding
    frames in order, the receiver gets the rest of what was sent. */
module Liveness {
  import opened Protocol
  import opened Ciphers
  import opened Channels
  import opened Lockstep
  import opened Connections
  import opened Duplex

  ghost predicate BothOrderly(s: Sys) {
    Orderly(s.fromInitiator.frames) && Orderly(s.fromResponder.frames)
  }

  lemma SendOrderly(seal: Seal, s: Sys, x: Side, text: bytes, dueAt: real, resetAt: real)
    requires InStep(seal, s) && BothOrderly(s)
    ensures BothOrderly(Step(seal, s, Send(x, text, dueAt, resetAt)))
  {
    EncryptGrows(seal, s.Sending(x), s.At(x), s.log, s.From(x).frames, text, dueAt, resetAt);
    EncryptOrderly(s.At(x), s.From(x).frames, text, dueAt);
  }

  lemma CloseFrameOrderly(seal: Seal, d: Stream, c: Chan, log: Log, frames: seq<Sealed>)
    requires WellFormed(frames) && SenderAt(d, c, frames) && LogHolds(seal, d, log, frames)
    requires !c.closed && Orderly(frames)
    ensures Orderly(frames + CloseFrame(seal, c, log).frames)
  {
    assert frames + [] == frames;
    CloseGrows(seal, d, c, log, frames);
    if |frames| < MAX_NONCE { CloseOrderly(frames); }
  }

  lemma FinishOrderly(seal: Seal, s: Sys, x: Side)
    requires InStep(seal, s) && BothOrderly(s)
    ensures BothOrderly(Step(seal, s, Finish(x)))
  {
    var frames := s.From(x).frames;
    assert frames + [] == frames;
    if !s.At(x).closed {
      CloseFrameOrderly(seal, s.Sending(x), s.At(x), s.log, frames);
    }
  }

  lemma StepOrderly(seal: Seal, s: Sys, a: Action)
    requires InStep(seal, s) && BothOrderly(s)
    ensures BothOrderly(Step(seal, s, a))
  {
    match a
    case Send(x, text, dueAt, resetAt) => SendOrderly(seal, s, x, text, dueAt, resetAt);
    case Finish(x) => FinishOrderly(seal, s, x);
    case Deliver(x, wire) =>
    case Elsewhere(query, plaintext) =>
  }

  lemma {:induction false} RunOrderly(seal: Seal, s: Sys, actions: seq<Action>)
    requires InStep(seal, s) && BothOrderly(s)
    ensures BothOrderly(Run(seal, s, actions))
    decreases |actions|
  {
    if actions != [] {
      StepKeeps(seal, s, actions[0]);
      StepOrderly(seal, s, actions[0]);
      RunOrderly(seal, Step(seal, s, actions[0]), actions[1..]);
    }
  }

  /** Every REKEY frame ever sealed is followed by a message unless it took the last nonce. */
  lemma ReachableOrderly(seal: Seal, s: Sys)
    requires Reachable(seal, s)
    ensures BothOrderly(s)
  {
    var session, log, windowI: nat, windowR: nat, policyI, policyR, actions :|
      && Unused(log, session) && 1 <= windowI && 1 <= windowR
      && s == Run(seal, Start(session, log, windowI, windowR, policyI, policyR), actions);
    StartInStep(seal, session, log, windowI, windowR, policyI, policyR);
    RunOrderly(seal, Start(session, log, windowI, windowR, policyI, policyR), actions);
  }

  /** In every reachable state and with anything at all on the link: a receive takes the genuine REKEY frames at the
      front and exactly one frame behind them, or waits at the end of the link. If that frame is not the next
      genuine one, its error comes out of the receive, the endpoint is as it was before that frame, and
      everything behind the frame is still on the link. */
  lemma ReceiveOnAnyLink(seal: Seal, s: Sys, x: Side, inbox: seq<bytes>) returns (k: nat)
    requires Reachable(seal, s) && !s.At(x).closed
    ensures TakesUpTo(seal, s.Sending(x.Peer()), s.At(x), s.From(x.Peer()).frames, inbox, k,
                      Receive(s.At(x), s.log, inbox))
  {
    ReachableInStep(seal, s);
    k := ReceiveAnyLink(seal, s.Sending(x.Peer()), s.At(x), s.log, s.From(x.Peer()).frames, inbox);
  }

  /** The genuine frames that `x` has not accepted yet. */
  function Outstanding(seal: Seal, s: Sys, x: Side): seq<bytes>
    requires s.At(x).recv.n <= |s.From(x.Peer()).frames|
  {
    var frames := s.From(x.Peer()).frames;
    Wires(seal, s.Sending(x.Peer()), frames, s.At(x).recv.n, |frames|)
  }

  /** From every reachable state: receiving the outstanding frames in order gives an open endpoint exactly
      the messages it has not returned yet, in one or two frames each. It then waits for more, or
      reports the close if the peer has sent one. */
  lemma OutstandingArrives(seal: Seal, s: Sys, x: Side)
    requires Reachable(seal, s) && !s.At(x).closed
    ensures s.At(x).recv.n <= |s.From(x.Peer()).frames|
    ensures var lane := s.From(x.Peer());
            var r := ReceiveAll(s.At(x), s.log, Outstanding(seal, s, x));
            && lane.got + r.texts == lane.sent
            && |r.taken| == |r.texts| && (forall i :: 0 <= i < |r.taken| ==> 1 <= r.taken[i] <= 2)
            && r.last == (if EndsWithClose(lane.frames) then Raised(ChannelClosedError) else Waiting)
            && (r.chan.closed <==> EndsWithClose(lane.frames))
  {
    ReachableInStep(seal, s);
    ReachableOrderly(seal, s);
    var frames := s.From(x.Peer()).frames;
    var r := ReceiveAllTakesAll(seal, s.Sending(x.Peer()), s.At(x), s.log, frames, |frames|, Outstanding(seal, s, x));
    assert frames[..|frames|] == frames;
  }

  /** From every reachable state in which both endpoints are open: whatever messages are sent on top, receiving
      the outstanding frames and the new ones in order completes what `x` has returned to everything
      its peer's sends have accepted. */
  lemma DeliveryAfterAnyRun(seal: Seal, s: Sys, x: Side, messages: seq<Message>, b: Batch)
    requires Reachable(seal, s) && !s.At(x).closed && !s.At(x.Peer()).closed
    requires b == SendAll(seal, s.At(x.Peer()), s.log, s.From(x.Peer()).frames, messages)
    ensures s.At(x).recv.n <= |s.From(x.Peer()).frames|
    ensures var lane := s.From(x.Peer());
            Completes(ReceiveAll(s.At(x), b.log, Outstanding(seal, s, x) + b.wires), lane.got, lane.sent + b.sent)
  {
    ReachableInStep(seal, s);
    ReachableOrderly(seal, s);
    HonestDelivery(seal, s.Sending(x.Peer()), s.At(x.Peer()), s.At(x), s.log, s.From(x.Peer()).frames, messages, b,
                   Outstanding(seal, s, x) + b.wires);
  }
}
