/** How old a key gets: over whole runs, for one side whose clock never runs backwards. */
module KeyAges {
  import opened Protocol
  import opened Rekeying
  import opened Ciphers
  import opened Channels
  import opened Lockstep
  import opened Duplex

  /** The key epochs of the messages among the frames. */
  function MessageEpochs(frames: seq<Sealed>): seq<nat> {
    if frames == [] then []
    else
      var init := frames[..|frames| - 1];
      MessageEpochs(init) + (if frames[|init|].kind == TRANSPORT then [Epoch(init)] else [])
  }

  /** What the clock of one side showed: when each key of its stream began, by epoch, when each of its
      messages was sealed, and last of all. */
  datatype Times = Times(began: seq<real>, sealedAt: seq<real>, now: real)
  {
    /** The readings of an encryption that sealed `more`: the last one before each key and message. */
    function Past(more: seq<Sealed>, dueAt: real, resetAt: real): Times {
      if more == [] then this
      else if more[0].kind != REKEY then Times(began, sealedAt + [dueAt], dueAt)
      else Times(began + [resetAt], if |more| == 1 then sealedAt else sealedAt + [resetAt], resetAt)
    }
  }

  /** The readings of side `x` after one more action. */
  ghost function Tick(x: Side, s: Sys, t: Times, a: Action): Times {
    if a.Send? && a.x == x then t.Past(EncryptFrames(s.At(x), s.From(x).frames, a.text, a.dueAt), a.dueAt, a.resetAt)
    else t
  }

  ghost function Ticks(seal: Seal, x: Side, s: Sys, t: Times, actions: seq<Action>): Times
    decreases |actions|
  {
    if actions == [] then t
    else Ticks(seal, x, Step(seal, s, actions[0]), Tick(x, s, t, actions[0]), actions[1..])
  }

  /** No reading of side `x` is earlier than one before it. */
  ghost predicate Monotone(seal: Seal, x: Side, s: Sys, t: Times, actions: seq<Action>)
    decreases |actions|
  {
    actions == [] ||
    (var a := actions[0];
     && (a.Send? && a.x == x ==> t.now <= a.dueAt <= a.resetAt)
     && Monotone(seal, x, Step(seal, s, a), Tick(x, s, t, a), actions[1..]))
  }

  /** Message `i` was sealed when its key was younger than the limit. */
  predicate Young(epochs: seq<nat>, t: Times, limit: real, i: nat)
    requires i < |epochs| == |t.sealedAt|
  {
    epochs[i] < |t.began| && 0.0 <= t.sealedAt[i] - t.began[epochs[i]] < limit
  }

  /** Every message was; and the policy knows when the current key began. */
  ghost predicate Fits(frames: seq<Sealed>, p: Policy, t: Times) {
    var epochs := MessageEpochs(frames);
    && 0.0 < p.maxSeconds
    && |t.began| == Epoch(frames) + 1 && t.began[Epoch(frames)] == p.lastRekey <= t.now
    && |epochs| == |t.sealedAt|
    && forall i :: 0 <= i < |epochs| ==> Young(epochs, t, p.maxSeconds, i)
  }

  lemma EpochsAppend(frames: seq<Sealed>, f: Sealed)
    ensures MessageEpochs(frames + [f]) ==
            if f.kind == TRANSPORT then MessageEpochs(frames) + [Epoch(frames)] else MessageEpochs(frames)
  {
    assert MessageEpochs(frames) + [] == MessageEpochs(frames);
    assert (frames + [f])[..|frames|] == frames;
  }

  /** A message under the current key, sealed while that key is not due. */
  lemma MessageFits(frames: seq<Sealed>, p: Policy, t: Times, text: bytes, at: real)
    requires Fits(frames, p, t) && t.now <= at && at - p.lastRekey < p.maxSeconds
    ensures Fits(frames + [Sealed(TRANSPORT, text)], p.Noted(), Times(t.began, t.sealedAt + [at], at))
  {
    var f := Sealed(TRANSPORT, text);
    var t' := Times(t.began, t.sealedAt + [at], at);
    EpochsAppend(frames, f);
    Append(frames, f);
    var epochs, epochs' := MessageEpochs(frames), MessageEpochs(frames + [f]);
    forall i | 0 <= i < |epochs'| ensures Young(epochs', t', p.maxSeconds, i) {
      if i < |epochs| { assert Young(epochs, t, p.maxSeconds, i); }
    }
  }

  /** A new key. */
  lemma RekeyFits(frames: seq<Sealed>, p: Policy, t: Times, resetAt: real)
    requires Fits(frames, p, t) && t.now <= resetAt
    ensures Fits(frames + [Sealed(REKEY, [])], p.WasReset(resetAt), Times(t.began + [resetAt], t.sealedAt, resetAt))
  {
    var f := Sealed(REKEY, []);
    var t' := Times(t.began + [resetAt], t.sealedAt, resetAt);
    EpochsAppend(frames, f);
    Append(frames, f);
    var epochs := MessageEpochs(frames);
    forall i | 0 <= i < |epochs| ensures Young(epochs, t', p.maxSeconds, i) {
      assert Young(epochs, t, p.maxSeconds, i);
    }
  }

  lemma EncryptFits(c: Chan, frames: seq<Sealed>, t: Times, text: bytes, dueAt: real, resetAt: real)
    requires Fits(frames, c.policy, t) && t.now <= dueAt <= resetAt
    ensures var more := EncryptFrames(c, frames, text, dueAt);
            Fits(frames + more, PolicyAfter(c.policy, more, resetAt), t.Past(more, dueAt, resetAt))
  {
    var more := EncryptFrames(c, frames, text, dueAt);
    if more == [] {
      assert frames + more == frames;
    } else if more[0].kind != REKEY {
      MessageFits(frames, c.policy, t, text, dueAt);
    } else {
      var t' := Times(t.began + [resetAt], t.sealedAt, resetAt);
      RekeyFits(frames, c.policy, t, resetAt);
      if |more| == 2 {
        MessageFits(frames + [more[0]], c.policy.WasReset(resetAt), t', text, resetAt);
        assert frames + more == frames + [more[0]] + [more[1]];
      }
    }
  }

  lemma CloseFits(frames: seq<Sealed>, p: Policy, t: Times)
    requires Fits(frames, p, t)
    ensures Fits(frames + [Sealed(CLOSE, [])], p, t)
  {
    EpochsAppend(frames, Sealed(CLOSE, []));
    Append(frames, Sealed(CLOSE, []));
  }

  lemma CloseFrameFits(seal: Seal, d: Stream, c: Chan, log: Log, frames: seq<Sealed>, t: Times)
    requires WellFormed(frames) && SenderAt(d, c, frames) && LogHolds(seal, d, log, frames)
    requires Fits(frames, c.policy, t)
    ensures var e := CloseFrame(seal, c, log);
            Fits(frames + e.frames, e.chan.policy, t) && e.chan.policy == c.policy
  {
    assert frames + [] == frames;
    if !c.closed {
      CloseGrows(seal, d, c, log, frames);
      CloseFits(frames, c.policy, t);
    }
  }

  lemma FinishFits(seal: Seal, x: Side, s: Sys, t: Times)
    requires InStep(seal, s) && Fits(s.From(x).frames, s.At(x).policy, t)
    ensures var s' := Step(seal, s, Finish(x));
            Fits(s'.From(x).frames, s'.At(x).policy, t) && s'.At(x).policy == s.At(x).policy
  {
    CloseFrameFits(seal, s.Sending(x), s.At(x), s.log, s.From(x).frames, t);
  }

  lemma SendFits(seal: Seal, x: Side, s: Sys, t: Times, text: bytes, dueAt: real, resetAt: real)
    requires InStep(seal, s) && Fits(s.From(x).frames, s.At(x).policy, t) && t.now <= dueAt <= resetAt
    ensures var a := Send(x, text, dueAt, resetAt);
            var s' := Step(seal, s, a);
            && Fits(s'.From(x).frames, s'.At(x).policy, Tick(x, s, t, a))
            && s'.At(x).policy.maxSeconds == s.At(x).policy.maxSeconds
  {
    EncryptGrows(seal, s.Sending(x), s.At(x), s.log, s.From(x).frames, text, dueAt, resetAt);
    EncryptFits(s.At(x), s.From(x).frames, t, text, dueAt, resetAt);
  }

  /** What the other side, the network and other sessions do leaves `x` as a sender alone. */
  lemma OthersLeaveAlone(seal: Seal, x: Side, s: Sys, a: Action)
    requires a.Deliver? || a.Elsewhere? || a.x != x
    ensures var s' := Step(seal, s, a);
            s'.From(x).frames == s.From(x).frames && s'.At(x).policy == s.At(x).policy
  {
  }

  lemma StepFits(seal: Seal, x: Side, s: Sys, t: Times, a: Action)
    requires InStep(seal, s) && Fits(s.From(x).frames, s.At(x).policy, t)
    requires a.Send? && a.x == x ==> t.now <= a.dueAt <= a.resetAt
    ensures var s' := Step(seal, s, a);
            && Fits(s'.From(x).frames, s'.At(x).policy, Tick(x, s, t, a))
            && s'.At(x).policy.maxSeconds == s.At(x).policy.maxSeconds
  {
    match a
    case Send(y, text, dueAt, resetAt) =>
      if y == x { SendFits(seal, x, s, t, text, dueAt, resetAt); } else { OthersLeaveAlone(seal, x, s, a); }
    case Finish(y) =>
      if y == x { FinishFits(seal, x, s, t); } else { OthersLeaveAlone(seal, x, s, a); }
    case Deliver(y, wire) => OthersLeaveAlone(seal, x, s, a);
    case Elsewhere(query, plaintext) => OthersLeaveAlone(seal, x, s, a);
  }

  lemma {:induction false} RunFits(seal: Seal, x: Side, s: Sys, t: Times, actions: seq<Action>)
    requires InStep(seal, s) && Fits(s.From(x).frames, s.At(x).policy, t)
    requires Monotone(seal, x, s, t, actions)
    ensures var s' := Run(seal, s, actions);
            && Fits(s'.From(x).frames, s'.At(x).policy, Ticks(seal, x, s, t, actions))
            && s'.At(x).policy.maxSeconds == s.At(x).policy.maxSeconds
    decreases |actions|
  {
    if actions != [] {
      StepKeeps(seal, s, actions[0]);
      StepFits(seal, x, s, t, actions[0]);
      RunFits(seal, x, Step(seal, s, actions[0]), Tick(x, s, t, actions[0]), actions[1..]);
    }
  }

  /** Over any adversarial run in which the clock of one side never runs backwards, every message that side ever
      sealed was sealed less than `maxSeconds` after its key began. */
  lemma KeysStayYoung(seal: Seal, session: seq<bytes>, log: Log, windowI: nat, windowR: nat, policyI: Policy,
                      policyR: Policy, actions: seq<Action>, x: Side, policy: Policy)
    requires Unused(log, session) && 1 <= windowI && 1 <= windowR
    requires policy == (if x == Initiator then policyI else policyR) && 0.0 < policy.maxSeconds
    requires Monotone(seal, x, Start(session, log, windowI, windowR, policyI, policyR),
                      Times([policy.lastRekey], [], policy.lastRekey), actions)
    ensures var start := Start(session, log, windowI, windowR, policyI, policyR);
            var t := Ticks(seal, x, start, Times([policy.lastRekey], [], policy.lastRekey), actions);
            var epochs := MessageEpochs(Run(seal, start, actions).From(x).frames);
            && |epochs| == |t.sealedAt|
            && forall i :: 0 <= i < |epochs| ==> Young(epochs, t, policy.maxSeconds, i)
  {
    StartInStep(seal, session, log, windowI, windowR, policyI, policyR);
    RunFits(seal, x, Start(session, log, windowI, windowR, policyI, policyR),
            Times([policy.lastRekey], [], policy.lastRekey), actions);
  }
}
