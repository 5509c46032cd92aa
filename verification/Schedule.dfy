/** The rekey schedule in closed form, when only the message count triggers it. */
module Schedule {
  import opened Protocol
  import opened Framing
  import opened Rekeying
  import opened Ciphers
  import opened Channels
  import opened Lockstep
  import opened Connections

  /** All clock readings fall in one interval too short for the time trigger. */
  predicate QuietClock(from: real, length: real, messages: seq<Message>) {
    forall i :: 0 <= i < |messages| ==>
      from <= messages[i].dueAt < from + length && from <= messages[i].resetAt < from + length
  }

  /** A sender after `n` messages: when `n > 0`, key epoch `(n-1) div limit`, and as many messages
      under the current key as that leaves over. */
  ghost predicate OnSchedule(c: Chan, frames: seq<Sealed>, limit: nat, from: real, length: real, n: nat) {
    && 1 <= limit
    && !c.closed
    && c.policy.maxMessages == limit && c.policy.maxSeconds == length && from <= c.policy.lastRekey
    && c.policy.count <= limit
    && n == Epoch(frames) * limit + c.policy.count
    && |frames| == n + Epoch(frames)
    && (n == 0 ==> frames == []) && (n > 0 ==> c.policy.count > 0)
  }

  lemma NextMultiple(q: nat, limit: nat)
    ensures (q + 1) * limit == q * limit + limit
  {
  }

  lemma ProductMonotone(a: nat, b: nat, limit: nat)
    requires a <= b
    ensures a * limit <= b * limit
  {
  }

  lemma Quotient(n: nat, limit: nat, q: nat, r: nat)
    requires n == q * limit + r && r < limit
    ensures n / limit == q
  {
    var k := n / limit;
    assert n == k * limit + n % limit;
    NextMultiple(q, limit);
    NextMultiple(k, limit);
    if k < q { ProductMonotone(k + 1, q, limit); }
    if q < k { ProductMonotone(q + 1, k, limit); }
  }

  lemma QuotientMonotone(n: nat, limit: nat)
    requires 1 <= limit && n > 0
    ensures (n - 1) / limit <= n / limit
  {
    var j, k := n / limit, (n - 1) / limit;
    assert n == j * limit + n % limit && n - 1 == k * limit + (n - 1) % limit;
    NextMultiple(j, limit);
    if j < k { ProductMonotone(j + 1, k, limit); }
  }

  /** The quotient as the policy sees it: a full count means the next message opens a new epoch. */
  lemma QuotientOnSchedule(c: Chan, frames: seq<Sealed>, limit: nat, from: real, length: real, n: nat)
    requires OnSchedule(c, frames, limit, from, length, n)
    ensures n / limit == Epoch(frames) + (if c.policy.count == limit then 1 else 0)
  {
    var q := Epoch(frames);
    NextMultiple(q, limit);
    if c.policy.count == limit { Quotient(n, limit, q + 1, 0); } else { Quotient(n, limit, q, c.policy.count); }
  }

  function FramesFor(text: bytes, full: bool): seq<Sealed> {
    if full then [Sealed(REKEY, []), Sealed(TRANSPORT, text)] else [Sealed(TRANSPORT, text)]
  }

  /** With a quiet clock, a message is preceded by a REKEY frame exactly when the count is full. */
  lemma FramesOnSchedule(c: Chan, frames: seq<Sealed>, limit: nat, from: real, length: real, n: nat, m: Message)
    requires OnSchedule(c, frames, limit, from, length, n)
    requires |m.text| <= MAX_PLAINTEXT && from <= m.dueAt < from + length
    requires |frames| + 1 < MAX_NONCE || (|frames| < MAX_NONCE && c.policy.count < limit)
    ensures EncryptFrames(c, frames, m.text, m.dueAt) == FramesFor(m.text, c.policy.count == limit)
  {
  }

  /** Message `i` is frame `i + i div limit`, sealed under epoch `i div limit`. */
  predicate Lands(frames: seq<Sealed>, limit: nat, text: bytes, i: nat)
    requires 1 <= limit
  {
    && i + i / limit < |frames|
    && frames[i + i / limit] == Sealed(TRANSPORT, text)
    && Epoch(frames[..i + i / limit]) == i / limit
  }

  /** Where message `n` lands: behind `n` messages and `n div limit` REKEY frames. */
  lemma NextOnSchedule(c: Chan, c': Chan, frames: seq<Sealed>, more: seq<Sealed>, limit: nat, from: real,
                       length: real, n: nat, m: Message)
    requires OnSchedule(c, frames, limit, from, length, n)
    requires more == FramesFor(m.text, c.policy.count == limit)
    requires c'.policy == PolicyAfter(c.policy, more, m.resetAt) && !c'.closed && from <= m.resetAt
    ensures OnSchedule(c', frames + more, limit, from, length, n + 1)
    ensures Lands(frames + more, limit, m.text, n)
  {
    var q := Epoch(frames);
    var all := frames + more;
    QuotientOnSchedule(c, frames, limit, from, length, n);
    NextMultiple(q, limit);
    Append(frames, more[0]);
    if c.policy.count == limit {
      var mid := frames + [more[0]];
      Append(mid, more[1]);
      assert all == mid + [more[1]] && all[..|mid|] == mid;
      assert Epoch(all) * limit == (q + 1) * limit;
    } else {
      assert all[..|frames|] == frames;
      assert Epoch(all) == q;
    }
  }

  lemma LandsStill(frames: seq<Sealed>, more: seq<Sealed>, limit: nat, text: bytes, i: nat)
    requires 1 <= limit && Lands(frames, limit, text, i)
    ensures Lands(frames + more, limit, text, i)
  {
    assert (frames + more)[..i + i / limit] == frames[..i + i / limit];
  }

  predicate AllLand(frames: seq<Sealed>, limit: nat, messages: seq<Message>)
    requires 1 <= limit
  {
    forall i :: 0 <= i < |messages| ==> Lands(frames, limit, messages[i].text, i)
  }

  lemma OneMoreLands(frames: seq<Sealed>, more: seq<Sealed>, limit: nat, messages: seq<Message>)
    requires 1 <= limit && messages != []
    requires AllLand(frames, limit, messages[..|messages| - 1])
    requires Lands(frames + more, limit, messages[|messages| - 1].text, |messages| - 1)
    ensures AllLand(frames + more, limit, messages)
  {
    forall i | 0 <= i < |messages| - 1 ensures Lands(frames + more, limit, messages[i].text, i) {
      assert Lands(frames, limit, messages[..|messages| - 1][i].text, i);
      LandsStill(frames, more, limit, messages[i].text, i);
    }
  }

  lemma SendOnSchedule(seal: Seal, d: Stream, c: Chan, log: Log, init: seq<Message>, m: Message, limit: nat,
                       from: real, length: real, n: nat)
    returns (more: seq<Sealed>)
    requires SenderAt(d, c, []) && LogHolds(seal, d, log, []) && !c.closed
    requires var b := SendAll(seal, c, log, [], init);
             OnSchedule(b.chan, b.frames, limit, from, length, n)
    requires |m.text| <= MAX_PLAINTEXT && from <= m.dueAt < from + length && from <= m.resetAt
    requires n + n / limit < MAX_NONCE
    ensures var b := SendAll(seal, c, log, [], init);
            var e := Encrypt(seal, b.chan, b.log, m.text, m.dueAt, m.resetAt);
            && more == e.frames
            && OnSchedule(e.chan, b.frames + more, limit, from, length, n + 1)
            && Lands(b.frames + more, limit, m.text, n)
  {
    var b := SendAll(seal, c, log, [], init);
    var e := Encrypt(seal, b.chan, b.log, m.text, m.dueAt, m.resetAt);
    more := e.frames;
    SendAllOnTheLink(seal, d, c, log, [], init);
    QuotientOnSchedule(b.chan, b.frames, limit, from, length, n);
    EncryptGrows(seal, d, b.chan, b.log, b.frames, m.text, m.dueAt, m.resetAt);
    FramesOnSchedule(b.chan, b.frames, limit, from, length, n, m);
    NextOnSchedule(b.chan, e.chan, b.frames, more, limit, from, length, n, m);
  }

  lemma {:induction false} AllOnSchedule(seal: Seal, d: Stream, c: Chan, log: Log, messages: seq<Message>, from: real)
    requires SenderAt(d, c, []) && !c.closed && LogHolds(seal, d, log, [])
    requires c.policy.count == 0 && 1 <= c.policy.maxMessages && from <= c.policy.lastRekey
    requires QuietClock(from, c.policy.maxSeconds, messages)
    requires forall i :: 0 <= i < |messages| ==> |messages[i].text| <= MAX_PLAINTEXT
    requires messages != [] ==> |messages| - 1 + (|messages| - 1) / c.policy.maxMessages < MAX_NONCE
    ensures var b := SendAll(seal, c, log, [], messages);
            var limit := c.policy.maxMessages;
            && OnSchedule(b.chan, b.frames, limit, from, c.policy.maxSeconds, |messages|)
            && AllLand(b.frames, limit, messages)
  {
    if messages != [] {
      var n := |messages| - 1;
      var m := messages[n];
      var limit := c.policy.maxMessages;
      var init := messages[..n];
      if n > 0 { QuotientMonotone(n, limit); }
      AllOnSchedule(seal, d, c, log, init, from);
      var b := SendAll(seal, c, log, [], init);
      var more := SendOnSchedule(seal, d, c, log, init, m, limit, from, c.policy.maxSeconds, n);
      OneMoreLands(b.frames, more, limit, messages);
    }
  }

  /** The log holds this message under the given sequence number, which is also its nonce, and key epoch. */
  ghost predicate SealedAs(seal: Seal, d: Stream, log: Log, text: bytes, seqno: nat, epoch: nat) {
    var header := HeaderBytes(TRANSPORT, seqno, |text| + AEAD_TAG_LEN);
    var query := Query(Key(d, epoch), seqno, header, seal(Key(d, epoch), seqno, header, text));
    query in log && log[query] == text
  }

  /** Message `i`, counting from 0, has sequence number `i + i div limit` and key epoch `i div limit`. */
  ghost predicate AllSealed(seal: Seal, d: Stream, log: Log, messages: seq<Message>, limit: nat)
    requires 1 <= limit
  {
    forall i :: 0 <= i < |messages| ==> SealedAs(seal, d, log, messages[i].text, i + i / limit, i / limit)
  }

  lemma LandedIsSealed(seal: Seal, d: Stream, log: Log, frames: seq<Sealed>, limit: nat, text: bytes, i: nat)
    requires 1 <= limit && Lands(frames, limit, text, i) && LogHolds(seal, d, log, frames)
    ensures SealedAs(seal, d, log, text, i + i / limit, i / limit)
  {
    assert Logged(log, QueryOf(seal, d, frames, i + i / limit));
  }

  /** With a limit of M messages per key, message `i` is sealed with sequence number `i + i div M` under key
      epoch `i div M`. */
  lemma ClosedForm(seal: Seal, d: Stream, c: Chan, log: Log, messages: seq<Message>, from: real)
    requires SenderAt(d, c, []) && !c.closed && LogHolds(seal, d, log, [])
    requires c.policy.count == 0 && 1 <= c.policy.maxMessages && from <= c.policy.lastRekey
    requires QuietClock(from, c.policy.maxSeconds, messages)
    requires forall i :: 0 <= i < |messages| ==> |messages[i].text| + 16 <= 65535
    requires messages != [] ==> |messages| - 1 + (|messages| - 1) / c.policy.maxMessages < 0xFFFF_FFFF_FFFF_FFFF
    ensures AllSealed(seal, d, SendAll(seal, c, log, [], messages).log, messages, c.policy.maxMessages)
  {
    var b := SendAll(seal, c, log, [], messages);
    var limit := c.policy.maxMessages;
    AllOnSchedule(seal, d, c, log, messages, from);
    SendAllOnTheLink(seal, d, c, log, [], messages);
    forall i | 0 <= i < |messages|
      ensures SealedAs(seal, d, b.log, messages[i].text, i + i / limit, i / limit)
    {
      LandedIsSealed(seal, d, b.log, b.frames, limit, messages[i].text, i);
    }
  }

  /** With the limits a policy has when none are asked for, and all messages within 900 seconds, the key changes
      before every message whose number is a positive multiple of 10000. */
  lemma ClosedFormByDefault(seal: Seal, d: Stream, c: Chan, log: Log, messages: seq<Message>, from: real)
    requires SenderAt(d, c, []) && !c.closed && LogHolds(seal, d, log, [])
    requires c.policy == Policy(DEFAULT_MAX_MESSAGES, DEFAULT_MAX_SECONDS, 0, from)
    requires QuietClock(from, 900.0, messages)
    requires forall i :: 0 <= i < |messages| ==> |messages[i].text| + 16 <= 65535
    requires messages != [] ==> |messages| - 1 + (|messages| - 1) / 10_000 < 0xFFFF_FFFF_FFFF_FFFF
    ensures AllSealed(seal, d, SendAll(seal, c, log, [], messages).log, messages, 10_000)
  {
    ClosedForm(seal, d, c, log, messages, from);
  }
}
