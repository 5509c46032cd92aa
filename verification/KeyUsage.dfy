/** How much one key protects: at most the policy's number of messages and one control frame. */
module KeyUsage {
  import opened Protocol
  import opened Rekeying
  import opened Ciphers
  import opened Channels
  import opened Lockstep
  import opened Duplex

  /** The TRANSPORT frames sealed under the key of epoch `e`. */
  function MessagesUnder(frames: seq<Sealed>, e: nat): nat {
    if frames == [] then 0
    else
      var init := frames[..|frames| - 1];
      MessagesUnder(init, e) + (if frames[|init|].kind == TRANSPORT && Epoch(init) == e then 1 else 0)
  }

  /** The REKEY and CLOSE frames sealed under the key of epoch `e`. */
  function ControlsUnder(frames: seq<Sealed>, e: nat): nat {
    if frames == [] then 0
    else
      var init := frames[..|frames| - 1];
      ControlsUnder(init, e) + (if frames[|init|].kind != TRANSPORT && Epoch(init) == e then 1 else 0)
  }

  /** The policy counts the messages under the current key, and no key is overused. */
  ghost predicate WithinBudget(frames: seq<Sealed>, p: Policy) {
    && 1 <= p.maxMessages
    && MessagesUnder(frames, Epoch(frames)) == p.count <= p.maxMessages
    && ControlsUnder(frames, Epoch(frames)) == (if EndsWithClose(frames) then 1 else 0)
    && (forall e: nat :: MessagesUnder(frames, e) <= p.maxMessages && ControlsUnder(frames, e) <= 1)
    && (forall e: nat :: e > Epoch(frames) ==> MessagesUnder(frames, e) == ControlsUnder(frames, e) == 0)
  }

  lemma CountAppend(frames: seq<Sealed>, f: Sealed)
    ensures forall e :: MessagesUnder(frames + [f], e) ==
                        MessagesUnder(frames, e) + (if f.kind == TRANSPORT && Epoch(frames) == e then 1 else 0)
    ensures forall e :: ControlsUnder(frames + [f], e) ==
                        ControlsUnder(frames, e) + (if f.kind != TRANSPORT && Epoch(frames) == e then 1 else 0)
  {
    assert (frames + [f])[..|frames|] == frames;
  }

  lemma MessageWithinBudget(frames: seq<Sealed>, p: Policy, text: bytes)
    requires WithinBudget(frames, p) && !EndsWithClose(frames) && p.count < p.maxMessages
    ensures WithinBudget(frames + [Sealed(TRANSPORT, text)], p.Noted())
  {
    CountAppend(frames, Sealed(TRANSPORT, text));
    Append(frames, Sealed(TRANSPORT, text));
  }

  lemma RekeyWithinBudget(frames: seq<Sealed>, p: Policy, resetAt: real)
    requires WithinBudget(frames, p) && !EndsWithClose(frames)
    ensures WithinBudget(frames + [Sealed(REKEY, [])], p.WasReset(resetAt))
  {
    CountAppend(frames, Sealed(REKEY, []));
    Append(frames, Sealed(REKEY, []));
  }

  lemma CloseWithinBudget(frames: seq<Sealed>, p: Policy)
    requires WithinBudget(frames, p) && !EndsWithClose(frames)
    ensures WithinBudget(frames + [Sealed(CLOSE, [])], p)
  {
    CountAppend(frames, Sealed(CLOSE, []));
    Append(frames, Sealed(CLOSE, []));
  }

  lemma EncryptWithinBudget(c: Chan, frames: seq<Sealed>, text: bytes, dueAt: real, resetAt: real)
    requires WithinBudget(frames, c.policy)
    requires EndsWithClose(frames) ==> c.closed
    ensures var more := EncryptFrames(c, frames, text, dueAt);
            WithinBudget(frames + more, PolicyAfter(c.policy, more, resetAt))
  {
    var more := EncryptFrames(c, frames, text, dueAt);
    if more == [] {
      assert frames + more == frames;
    } else if !c.policy.Due(dueAt) {
      MessageWithinBudget(frames, c.policy, text);
    } else {
      RekeyWithinBudget(frames, c.policy, resetAt);
      if |more| == 2 {
        MessageWithinBudget(frames + [more[0]], c.policy.WasReset(resetAt), text);
        assert frames + more == frames + [more[0]] + [more[1]];
      }
    }
  }

  lemma NotStale(seal: Seal, d: Stream, c: Chan, frames: seq<Sealed>, text: bytes, dueAt: real, resetAt: real,
                 e: Sent<seq<bytes>>)
    requires SenderAt(d, c, frames) && SenderAt(d, e.chan, frames + e.frames)
    requires SealsMessage(seal, d, c, frames, text, dueAt, resetAt, e) && e.result.Ok?
    requires dueAt <= resetAt && 0.0 < c.policy.maxSeconds && 1 <= c.policy.maxMessages
    ensures dueAt - e.chan.policy.lastRekey < c.policy.maxSeconds
    ensures 1 <= e.chan.policy.count <= c.policy.maxMessages
    ensures e.chan.send.key != c.send.key <==> |e.frames| == 2
    ensures |e.frames| == 2 ==> e.chan.policy.count == 1 && e.chan.policy.lastRekey == resetAt
  {
    Append(frames, e.frames[0]);
    if |e.frames| == 2 {
      Append(frames + [e.frames[0]], e.frames[1]);
      assert frames + e.frames == frames + [e.frames[0]] + [e.frames[1]];
    } else {
      assert e.frames == [e.frames[0]];
    }
  }

  /** With a monotone clock no message is sealed under a key that was due for replacement: neither by
      age, nor by the number of messages before it. */
  lemma KeyNeverStale(seal: Seal, d: Stream, c: Chan, log: Log, frames: seq<Sealed>, text: bytes, dueAt: real,
                      resetAt: real)
    requires WellFormed(frames) && SenderAt(d, c, frames) && LogHolds(seal, d, log, frames)
    requires dueAt <= resetAt && 0.0 < c.policy.maxSeconds && 1 <= c.policy.maxMessages
    ensures var e := Encrypt(seal, c, log, text, dueAt, resetAt);
            e.result.Ok? ==>
            && dueAt - e.chan.policy.lastRekey < c.policy.maxSeconds
            && 1 <= e.chan.policy.count <= c.policy.maxMessages
            && (e.chan.send.key != c.send.key <==> |e.frames| == 2)
            && (|e.frames| == 2 ==> e.chan.policy.count == 1 && e.chan.policy.lastRekey == resetAt)
  {
    EncryptGrows(seal, d, c, log, frames, text, dueAt, resetAt);
    var e := Encrypt(seal, c, log, text, dueAt, resetAt);
    if e.result.Ok? { NotStale(seal, d, c, frames, text, dueAt, resetAt, e); }
  }

  // ----- over whole adversarial runs -----

  ghost predicate AllWithinBudget(s: Sys) {
    && WithinBudget(s.fromInitiator.frames, s.initiator.policy)
    && WithinBudget(s.fromResponder.frames, s.responder.policy)
  }

  /** Replacing one endpoint and its outgoing lane within budget keeps the system within budget. */
  ghost predicate BudgetKept(s: Sys, s': Sys) {
    && AllWithinBudget(s')
    && s'.initiator.policy.maxMessages == s.initiator.policy.maxMessages
    && s'.responder.policy.maxMessages == s.responder.policy.maxMessages
  }

  lemma SendWithinBudget(seal: Seal, s: Sys, x: Side, text: bytes, dueAt: real, resetAt: real)
    requires InStep(seal, s) && AllWithinBudget(s)
    ensures BudgetKept(s, Step(seal, s, Send(x, text, dueAt, resetAt)))
  {
    EncryptGrows(seal, s.Sending(x), s.At(x), s.log, s.From(x).frames, text, dueAt, resetAt);
    EncryptWithinBudget(s.At(x), s.From(x).frames, text, dueAt, resetAt);
  }

  lemma CloseFrameWithinBudget(seal: Seal, d: Stream, c: Chan, log: Log, frames: seq<Sealed>)
    requires WellFormed(frames) && SenderAt(d, c, frames) && LogHolds(seal, d, log, frames)
    requires WithinBudget(frames, c.policy)
    ensures var e := CloseFrame(seal, c, log);
            WithinBudget(frames + e.frames, e.chan.policy) && e.chan.policy == c.policy
  {
    assert frames + [] == frames;
    if !c.closed {
      CloseGrows(seal, d, c, log, frames);
      CloseWithinBudget(frames, c.policy);
    }
  }

  lemma FinishWithinBudget(seal: Seal, s: Sys, x: Side)
    requires InStep(seal, s) && AllWithinBudget(s)
    ensures BudgetKept(s, Step(seal, s, Finish(x)))
  {
    CloseFrameWithinBudget(seal, s.Sending(x), s.At(x), s.log, s.From(x).frames);
  }

  lemma DecryptKeepsPolicy(c: Chan, log: Log, wire: bytes)
    ensures Decrypt(c, log, wire).chan.policy == c.policy
  {
  }

  lemma StepWithinBudget(seal: Seal, s: Sys, a: Action)
    requires InStep(seal, s) && AllWithinBudget(s)
    ensures BudgetKept(s, Step(seal, s, a))
  {
    match a
    case Send(x, text, dueAt, resetAt) => SendWithinBudget(seal, s, x, text, dueAt, resetAt);
    case Finish(x) => FinishWithinBudget(seal, s, x);
    case Deliver(x, wire) => DecryptKeepsPolicy(s.At(x), s.log, wire);
    case Elsewhere(query, plaintext) =>
  }

  lemma {:induction false} RunWithinBudget(seal: Seal, s: Sys, actions: seq<Action>)
    requires InStep(seal, s) && AllWithinBudget(s)
    ensures BudgetKept(s, Run(seal, s, actions))
    decreases |actions|
  {
    if actions != [] {
      StepKeeps(seal, s, actions[0]);
      StepWithinBudget(seal, s, actions[0]);
      RunWithinBudget(seal, Step(seal, s, actions[0]), actions[1..]);
    }
  }

  // ----- the frames under a key are the queries under that key -----

  /** The queries sealed under the key of epoch `e`. */
  ghost function QueriesUnder(seal: Seal, d: Stream, frames: seq<Sealed>, n: nat, e: nat): set<Query>
    requires n <= |frames|
  {
    if n == 0 then {}
    else QueriesUnder(seal, d, frames, n - 1, e)
         + (if Epoch(frames[..n - 1]) == e then {QueryOf(seal, d, frames, n - 1)} else {})
  }

  lemma AddOne(s: set<Query>, q: Query)
    ensures |s + {q}| <= |s| + 1
  {
    if q in s { assert s + {q} == s; }
  }

  lemma {:induction false} QueriesCounted(seal: Seal, d: Stream, frames: seq<Sealed>, n: nat, e: nat)
    requires n <= |frames|
    ensures |QueriesUnder(seal, d, frames, n, e)| <= MessagesUnder(frames[..n], e) + ControlsUnder(frames[..n], e)
  {
    if n > 0 {
      QueriesCounted(seal, d, frames, n - 1, e);
      AddOne(QueriesUnder(seal, d, frames, n - 1, e), QueryOf(seal, d, frames, n - 1));
      var all := frames[..n];
      assert all[..n - 1] == frames[..n - 1];
    }
  }

  lemma {:induction false} QueriesCollected(seal: Seal, d: Stream, frames: seq<Sealed>, n: nat, e: nat, k: nat)
    requires k < n <= |frames| && Epoch(frames[..k]) == e
    ensures QueryOf(seal, d, frames, k) in QueriesUnder(seal, d, frames, n, e)
  {
    if k < n - 1 { QueriesCollected(seal, d, frames, n - 1, e, k); }
  }

  lemma SubsetSmaller(s: set<Query>, t: set<Query>)
    requires s <= t
    ensures |s| <= |t|
  {
    assert t == s + (t - s);
  }

  /** The log never holds more queries under one key than the budget allows. */
  lemma LogWithinBudget(seal: Seal, d: Stream, log: Log, frames: seq<Sealed>, p: Policy, e: nat)
    requires LogHolds(seal, d, log, frames) && WithinBudget(frames, p)
    ensures |set q | q in log && q.key == Key(d, e)| <= p.maxMessages + 1
  {
    var under := set q | q in log && q.key == Key(d, e);
    var counted := QueriesUnder(seal, d, frames, |frames|, e);
    QueriesCounted(seal, d, frames, |frames|, e);
    assert frames[..|frames|] == frames;
    forall q | q in under ensures q in counted {
      assert Logged(log, q) && q == QueryOf(seal, d, frames, q.nonce);
      QueriesCollected(seal, d, frames, |frames|, e, q.nonce);
    }
    SubsetSmaller(under, counted);
  }

  /** Over any adversarial run and any clock, no key seals more than the policy's number of messages
      plus one control frame. */
  lemma KeyBudget(seal: Seal, session: seq<bytes>, log: Log, windowI: nat, windowR: nat, policyI: Policy,
                  policyR: Policy, actions: seq<Action>, x: Side, e: nat)
    requires Unused(log, session) && 1 <= windowI && 1 <= windowR
    requires 1 <= policyI.maxMessages && policyI.count == 0
    requires 1 <= policyR.maxMessages && policyR.count == 0
    ensures var s := Run(seal, Start(session, log, windowI, windowR, policyI, policyR), actions);
            var limit := if x == Initiator then policyI.maxMessages else policyR.maxMessages;
            && MessagesUnder(s.From(x).frames, e) <= limit
            && ControlsUnder(s.From(x).frames, e) <= 1
            && |set q | q in s.log && q.key == Key(Stream(session, x.Heading()), e)| <= limit + 1
  {
    var start := Start(session, log, windowI, windowR, policyI, policyR);
    StartInStep(seal, session, log, windowI, windowR, policyI, policyR);
    RunKeeps(seal, start, actions);
    RunWithinBudget(seal, start, actions);
    var s := Run(seal, start, actions);
    LogWithinBudget(seal, s.Sending(x), s.log, s.From(x).frames, s.At(x).policy, e);
  }
}
