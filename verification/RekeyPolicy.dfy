/** When the sending key is due for replacement: after a number of messages or after a time. */
module Rekeying {
  import opened Protocol

  const DEFAULT_MAX_MESSAGES := 10_000
  const DEFAULT_MAX_SECONDS := 900.0

  /** A policy as a value. Clock readings are arguments. */
  datatype Policy = Policy(maxMessages: nat, maxSeconds: real, count: nat, lastRekey: real)
  {
    predicate Due(now: real) { count >= maxMessages || now - lastRekey >= maxSeconds }

    function Noted(): Policy { this.(count := count + 1) }

    function WasReset(now: real): Policy { this.(count := 0, lastRekey := now) }
  }

  class RekeyPolicy {
    const maxMessages: nat
    const maxSeconds: real
    var count: nat
    var lastRekey: real

    function Value(): Policy
      reads this
    {
      Policy(maxMessages, maxSeconds, count, lastRekey)
    }

    constructor (maxMessages: nat := DEFAULT_MAX_MESSAGES, maxSeconds: real := DEFAULT_MAX_SECONDS, now: real)
      requires 1 <= maxMessages && 0.0 < maxSeconds
      ensures Value() == Policy(maxMessages, maxSeconds, 0, now)
    {
      this.maxMessages := maxMessages;
      this.maxSeconds := maxSeconds;
      count := 0;
      lastRekey := now;
    }

    /** A policy with the limits the caller asks for, if they make sense. */
    static method Create(maxMessages: int := DEFAULT_MAX_MESSAGES, maxSeconds: real := DEFAULT_MAX_SECONDS, now: real)
      returns (r: Result<RekeyPolicy>)
      ensures r.Ok? <==> 1 <= maxMessages && 0.0 < maxSeconds
      ensures r.Ok? ==> fresh(r.value) && r.value.Value() == Policy(maxMessages, maxSeconds, 0, now)
      ensures r.Err? ==> r.error == ValueError
    {
      if maxMessages < 1 || maxSeconds <= 0.0 {
        return Err(ValueError);
      }
      var policy := new RekeyPolicy(maxMessages, maxSeconds, now);
      return Ok(policy);
    }

    method NoteMessage()
      modifies this
      ensures Value() == old(Value()).Noted()
    {
      count := count + 1;
    }

    method Due(now: real) returns (due: bool)
      ensures due == Value().Due(now)
    {
      if count >= maxMessages {
        return true;
      }
      return now - lastRekey >= maxSeconds;
    }

    method Reset(now: real)
      modifies this
      ensures Value() == old(Value()).WasReset(now)
    {
      count := 0;
      lastRekey := now;
    }
  }
}
