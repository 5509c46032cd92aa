/** Running out of nonces, reached by an actual run: a key policy that allows enough messages, a clock that
    stands still, and one empty message after the other. */
module Exhaustion {
  import opened Protocol
  import opened Rekeying
  import opened Ciphers
  import opened Channels
  import opened Lockstep
  import opened Duplex

  const PATIENT := Policy(MAX_NONCE + 1, 1.0, 0, 0.0)

  ghost function Begin(): Sys { Start([], map[], 1, 1, PATIENT, PATIENT) }

  function EmptySends(n: nat): seq<Action> {
    if n == 0 then [] else EmptySends(n - 1) + [Send(Initiator, [], 0.0, 0.0)]
  }

  lemma {:induction false} RunOneMore(seal: Seal, s: Sys, actions: seq<Action>, a: Action)
    ensures Run(seal, s, actions + [a]) == Step(seal, Run(seal, s, actions), a)
    decreases |actions|
  {
    if actions == [] {
      assert [] + [a] == [a];
      assert Run(seal, Step(seal, s, a), []) == Step(seal, s, a);
    } else {
      assert (actions + [a])[1..] == actions[1..] + [a];
      RunOneMore(seal, Step(seal, s, actions[0]), actions[1..], a);
    }
  }

  /** `n` nonces are gone, and nothing is due. */
  ghost predicate Used(seal: Seal, s: Sys, n: nat) {
    && InStep(seal, s)
    && |s.fromInitiator.frames| == n && !s.initiator.closed
    && s.initiator.policy == PATIENT.(count := n)
  }

  lemma OneEmptySend(seal: Seal, s: Sys, n: nat)
    requires Used(seal, s, n) && n < MAX_NONCE
    ensures Used(seal, Step(seal, s, Send(Initiator, [], 0.0, 0.0)), n + 1)
  {
    StepKeeps(seal, s, Send(Initiator, [], 0.0, 0.0));
    EncryptGrows(seal, s.Sending(Initiator), s.initiator, s.log, s.fromInitiator.frames, [], 0.0, 0.0);
  }

  lemma {:induction false} AfterEmptySends(seal: Seal, n: nat)
    requires n <= MAX_NONCE
    ensures Used(seal, Run(seal, Begin(), EmptySends(n)), n)
  {
    if n == 0 {
      StartInStep(seal, [], map[], 1, 1, PATIENT, PATIENT);
    } else {
      AfterEmptySends(seal, n - 1);
      RunOneMore(seal, Begin(), EmptySends(n - 1), Send(Initiator, [], 0.0, 0.0));
      OneEmptySend(seal, Run(seal, Begin(), EmptySends(n - 1)), n - 1);
    }
  }

  lemma RunReachable(seal: Seal, actions: seq<Action>)
    ensures Reachable(seal, Run(seal, Begin(), actions))
  {
    assert Unused(map[], []);
  }

  /** There is a reachable state in which an encryption fails after sealing a REKEY frame, which is lost. */
  lemma LostRekeyReachable(seal: Seal) returns (s: Sys)
    ensures Reachable(seal, s)
    ensures var e := Encrypt(seal, s.initiator, s.log, [], 1.0, 1.0);
            e.result == Err(MaxNonceError) && e.frames == [Sealed(REKEY, [])]
  {
    s := Run(seal, Begin(), EmptySends(MAX_NONCE - 1));
    RunReachable(seal, EmptySends(MAX_NONCE - 1));
    AfterEmptySends(seal, MAX_NONCE - 1);
    FailedEncryptSealsExactlyWhen(seal, s.Sending(Initiator), s.initiator, s.log, s.fromInitiator.frames, [], 1.0, 1.0);
  }

  /** There is a reachable state in which sequence number and nonce have parted. */
  lemma CountersPart(seal: Seal) returns (s: Sys)
    ensures Reachable(seal, s)
    ensures s.initiator.send.n == MAX_NONCE && s.initiator.sendSeq > MAX_NONCE
  {
    var a := Send(Initiator, [], 0.0, 0.0);
    var before := Run(seal, Begin(), EmptySends(MAX_NONCE));
    AfterEmptySends(seal, MAX_NONCE);
    RunOneMore(seal, Begin(), EmptySends(MAX_NONCE), a);
    RunReachable(seal, EmptySends(MAX_NONCE) + [a]);
    s := Step(seal, before, a);
  }
}
