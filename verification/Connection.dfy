/** A connection over FIFO links: one send may put two frames on the wire, and one receive consumes
    frames until it holds a message. */
module Connections {
  import opened Protocol
  import opened Framing
  import opened Ciphers
  import opened Channels
  import opened Lockstep

  /** How a receive ends. `Waiting` is a receive still suspended on an empty link. */
  datatype Outcome = Got(text: bytes) | Raised(error: Error) | Waiting

  datatype Reception = Reception(outcome: Outcome, chan: Chan, rest: seq<bytes>)

  /** Decrypt frames from the link until one yields a message or an error. */
  ghost function Receive(c: Chan, log: Log, inbox: seq<bytes>): (r: Reception)
    ensures |r.rest| <= |inbox|
    ensures r.outcome != Waiting ==> |r.rest| < |inbox|
    decreases |inbox|
  {
    if inbox == [] then Reception(Waiting, c, [])
    else
      var o := Decrypt(c, log, inbox[0]);
      match o.result
      case Err(e) => Reception(Raised(e), o.chan, inbox[1..])
      case Ok(Some(text)) => Reception(Got(text), o.chan, inbox[1..])
      case Ok(None) => Receive(o.chan, log, inbox[1..])
  }

  class SecureConnection {
    const channel: SecureChannel
    var inbox: seq<bytes>
    var outbox: seq<bytes>

    constructor (channel: SecureChannel)
      ensures this.channel == channel && inbox == [] && outbox == []
    {
      this.channel := channel;
      inbox := [];
      outbox := [];
    }

    method Send(data: bytes, dueAt: real, resetAt: real) returns (r: Result<()>)
      requires channel.Valid()
      modifies this`outbox, channel`sendSeq, channel.sendCipher, channel.sendCipher.aead, channel.rekey
      ensures channel.Valid()
      ensures var aead := channel.sendCipher.aead;
              var e := old(Encrypt(aead.seal, channel.Value(), aead.log, data, dueAt, resetAt));
              && channel.Value() == e.chan && channel.sendCipher.aead.log == e.log
              && r == (if e.result.Ok? then Ok(()) else Err(e.result.error))
              && outbox == old(outbox) + (if e.result.Ok? then e.result.value else [])
    {
      var frames := channel.EncryptMessage(data, dueAt, resetAt);
      if frames.Err? {
        return Err(frames.error);
      }
      for i := 0 to |frames.value|
        modifies this`outbox
        invariant outbox == old(outbox) + frames.value[..i]
      {
        outbox := outbox + [frames.value[i]];
        assert frames.value[..i + 1] == frames.value[..i] + [frames.value[i]];
      }
      assert frames.value[..|frames.value|] == frames.value;
      return Ok(());
    }

    method Recv() returns (outcome: Outcome)
      requires channel.Valid()
      modifies this`inbox, channel`closed, channel.recvCipher, channel.replay
      ensures channel.Valid()
      ensures var r := old(Receive(channel.Value(), channel.sendCipher.aead.log, inbox));
              outcome == r.outcome && channel.Value() == r.chan && inbox == r.rest
    {
      while inbox != []
        invariant channel.Valid()
        invariant Receive(channel.Value(), channel.sendCipher.aead.log, inbox)
                  == old(Receive(channel.Value(), channel.sendCipher.aead.log, inbox))
        decreases |inbox|
      {
        var wire := inbox[0];
        inbox := inbox[1..];
        var plaintext := channel.DecryptFrame(wire);
        if plaintext.Err? {
          return Raised(plaintext.error);
        }
        if plaintext.value.Some? {
          return Got(plaintext.value.value);
        }
      }
      return Waiting;
    }
  }

  // ----- the frames a sender leaves behind -----

  /** A REKEY frame is followed by a message, unless it took the last nonce; a CLOSE frame is last. */
  predicate Placed(frames: seq<Sealed>, k: nat)
    requires k < |frames|
  {
    match frames[k].kind
    case TRANSPORT => true
    case REKEY => if k + 1 < |frames| then frames[k + 1].kind == TRANSPORT else |frames| == MAX_NONCE
    case CLOSE => k + 1 == |frames|
    case HANDSHAKE => false
  }

  predicate Orderly(frames: seq<Sealed>) {
    forall k :: 0 <= k < |frames| ==> Placed(frames, k)
  }

  /** Sealing more behind a list that does not end in a control frame. */
  lemma OrderlyExtend(frames: seq<Sealed>, more: seq<Sealed>)
    requires Orderly(frames) && !EndsWithClose(frames) && |frames| < MAX_NONCE
    requires Orderly(more) || (more == [Sealed(REKEY, [])] && |frames| + 1 == MAX_NONCE)
    requires |more| < MAX_NONCE
    ensures Orderly(frames + more)
  {
    var all := frames + more;
    forall k | 0 <= k < |all| ensures Placed(all, k) {
      if k < |frames| {
        assert Placed(frames, k);
      } else if Orderly(more) {
        assert Placed(more, k - |frames|);
      }
    }
  }

  /** An encryption leaves the frames orderly. */
  lemma EncryptOrderly(c: Chan, frames: seq<Sealed>, text: bytes, dueAt: real)
    requires Orderly(frames) && |frames| <= MAX_NONCE && (EndsWithClose(frames) ==> c.closed)
    ensures Orderly(frames + EncryptFrames(c, frames, text, dueAt))
  {
    var more := EncryptFrames(c, frames, text, dueAt);
    if more == [] {
      assert frames + more == frames;
    } else {
      OrderlyExtend(frames, more);
    }
  }

  /** So does a close. */
  lemma CloseOrderly(frames: seq<Sealed>)
    requires Orderly(frames) && !EndsWithClose(frames) && |frames| < MAX_NONCE
    ensures Orderly(frames + [Sealed(CLOSE, [])])
  {
    OrderlyExtend(frames, [Sealed(CLOSE, [])]);
  }

  // ----- one receive -----

  /** The receiver has accepted the first `m` frames and is closed exactly if the last was CLOSE. */
  ghost predicate ReceivedUpTo(d: Stream, c: Chan, frames: seq<Sealed>, m: nat) {
    && c.recv.n == m
    && ReceiverAt(d, c, frames)
    && (c.closed <==> EndsWithClose(frames[..m]))
  }

  lemma AcceptedUpTo(d: Stream, c: Chan, frames: seq<Sealed>)
    requires WellFormed(frames) && ReceiverAt(d, c, frames) && !c.closed && c.recv.n < |frames|
    ensures ReceivedUpTo(d, Accepted(d, c, frames).chan, frames, c.recv.n + 1)
  {
    AcceptedInStep(d, c, frames);
    assert frames[..c.recv.n + 1][c.recv.n] == frames[c.recv.n];
  }

  /** How a receive ends whose last frame is this: after a REKEY frame it waits for more. */
  function Ending(f: Sealed): Outcome {
    match f.kind
    case TRANSPORT => Got(f.text)
    case REKEY => Waiting
    case CLOSE => Raised(ChannelClosedError)
    case HANDSHAKE => Raised(ProtocolError)
  }

  /** `r` is a receive that has taken the frames from `m` up to `end` and left those up to `w`: one frame, or
      a REKEY frame and the one behind it. The last frame taken says how it ended. */
  ghost predicate TakesOne(seal: Seal, d: Stream, frames: seq<Sealed>, m: nat, end: nat, w: nat, r: Reception)
    requires m < end <= w <= |frames|
  {
    && (end == m + 1 || (end == m + 2 && frames[m].kind == REKEY))
    && (frames[end - 1].kind == REKEY ==> end == w)
    && r.outcome == Ending(frames[end - 1])
    && r.rest == Wires(seal, d, frames, end, w)
    && ReceivedUpTo(d, r.chan, frames, end)
  }

  lemma ReceiveMeetsEnding(seal: Seal, d: Stream, c: Chan, log: Log, frames: seq<Sealed>, w: nat)
    requires WellFormed(frames) && LogHolds(seal, d, log, frames) && ReceiverAt(d, c, frames) && !c.closed
    requires c.recv.n < w <= |frames| && frames[c.recv.n].kind != REKEY
    ensures Receive(c, log, Wires(seal, d, frames, c.recv.n, w)) ==
            Reception(Ending(frames[c.recv.n]), Accepted(d, c, frames).chan, Wires(seal, d, frames, c.recv.n + 1, w))
  {
    var inbox := Wires(seal, d, frames, c.recv.n, w);
    assert inbox[1..] == Wires(seal, d, frames, c.recv.n + 1, w);
    AcceptsNext(seal, d, c, log, frames);
  }

  /** A REKEY frame passes the receive on to the frame behind it. */
  lemma ReceiveMeetsRekey(seal: Seal, d: Stream, c: Chan, log: Log, frames: seq<Sealed>, w: nat)
    requires WellFormed(frames) && LogHolds(seal, d, log, frames) && ReceiverAt(d, c, frames) && !c.closed
    requires c.recv.n < w <= |frames| && frames[c.recv.n].kind == REKEY
    ensures Receive(c, log, Wires(seal, d, frames, c.recv.n, w)) ==
            Receive(Accepted(d, c, frames).chan, log, Wires(seal, d, frames, c.recv.n + 1, w))
  {
    var inbox := Wires(seal, d, frames, c.recv.n, w);
    assert inbox[1..] == Wires(seal, d, frames, c.recv.n + 1, w);
    AcceptsNext(seal, d, c, log, frames);
  }

  lemma TakesEnding(seal: Seal, d: Stream, c: Chan, log: Log, frames: seq<Sealed>, w: nat, inbox: seq<bytes>)
    returns (r: Reception)
    requires WellFormed(frames) && LogHolds(seal, d, log, frames) && ReceiverAt(d, c, frames) && !c.closed
    requires c.recv.n < w <= |frames| && frames[c.recv.n].kind != REKEY
    requires inbox == Wires(seal, d, frames, c.recv.n, w)
    ensures r == Receive(c, log, inbox)
    ensures r.outcome == Ending(frames[c.recv.n]) && r.rest == Wires(seal, d, frames, c.recv.n + 1, w)
    ensures ReceivedUpTo(d, r.chan, frames, c.recv.n + 1)
  {
    r := Reception(Ending(frames[c.recv.n]), Accepted(d, c, frames).chan, Wires(seal, d, frames, c.recv.n + 1, w));
    ReceiveMeetsEnding(seal, d, c, log, frames, w);
    AcceptedUpTo(d, c, frames);
  }

  lemma TakesRekeyFirst(seal: Seal, d: Stream, c: Chan, log: Log, frames: seq<Sealed>, w: nat, inbox: seq<bytes>)
    returns (r: Reception, end: nat)
    requires WellFormed(frames) && LogHolds(seal, d, log, frames) && ReceiverAt(d, c, frames) && !c.closed
    requires c.recv.n < w <= |frames| && frames[c.recv.n].kind == REKEY
    requires c.recv.n + 1 < w ==> frames[c.recv.n + 1].kind == TRANSPORT
    requires inbox == Wires(seal, d, frames, c.recv.n, w)
    ensures r == Receive(c, log, inbox)
    ensures c.recv.n < end <= w && TakesOne(seal, d, frames, c.recv.n, end, w, r)
  {
    var c' := Accepted(d, c, frames).chan;
    AcceptedUpTo(d, c, frames);
    ReceiveMeetsRekey(seal, d, c, log, frames, w);
    if c.recv.n + 1 < w {
      end := c.recv.n + 2;
      r := TakesEnding(seal, d, c', log, frames, w, Wires(seal, d, frames, c.recv.n + 1, w));
    } else {
      end := w;
      r := Reception(Waiting, c', []);
    }
  }

  /** One receive on the genuine frames waiting up to `w`. */
  lemma ReceiveTakesOne(seal: Seal, d: Stream, c: Chan, log: Log, frames: seq<Sealed>, w: nat, inbox: seq<bytes>)
    returns (r: Reception, end: nat)
    requires WellFormed(frames) && LogHolds(seal, d, log, frames) && ReceiverAt(d, c, frames) && !c.closed
    requires c.recv.n < w <= |frames| && Orderly(frames)
    requires inbox == Wires(seal, d, frames, c.recv.n, w)
    ensures r == Receive(c, log, inbox)
    ensures c.recv.n < end <= w && TakesOne(seal, d, frames, c.recv.n, end, w, r)
  {
    assert Placed(frames, c.recv.n);
    if frames[c.recv.n].kind == REKEY {
      r, end := TakesRekeyFirst(seal, d, c, log, frames, w, inbox);
    } else {
      end := c.recv.n + 1;
      r := TakesEnding(seal, d, c, log, frames, w, inbox);
    }
  }

  // ----- one receive on any link -----

  /** The receiver `c` once it has accepted the first `j` frames. */
  ghost function AtFrame(d: Stream, c: Chan, frames: seq<Sealed>, j: nat): Chan
    requires j <= |frames|
  {
    c.(recv := Cipher(Key(d, Epoch(frames[..j])), j), window := c.window.(accepted := Replay.Below(j)))
  }

  /** The first `k` frames on the link are the next genuine frames, and all of them REKEY frames. */
  ghost predicate RekeysFirst(seal: Seal, d: Stream, frames: seq<Sealed>, m: nat, inbox: seq<bytes>, k: nat) {
    && k <= |inbox| && m + k <= |frames|
    && forall i :: 0 <= i < k ==> frames[m + i].kind == REKEY && inbox[i] == WireOf(seal, d, frames, m + i)
  }

  /** How a receive ends at `wire`, met after `j` frames by the endpoint `at`: with what that frame says if it is the
      next genuine one and no REKEY frame, and otherwise with the error of such bytes and the endpoint as
      it was. */
  ghost predicate EndsAt(seal: Seal, d: Stream, at: Chan, frames: seq<Sealed>, j: nat, wire: bytes, outcome: Outcome,
                         after: Chan)
    requires j <= |frames|
  {
    if j < |frames| && wire == WireOf(seal, d, frames, j) then
      frames[j].kind != REKEY && outcome == Ending(frames[j]) && ReceivedUpTo(d, after, frames, j + 1)
    else
      outcome == Raised(Refusal(j, wire)) && after == at
  }

  lemma AcceptsRekey(d: Stream, c: Chan, frames: seq<Sealed>)
    requires WellFormed(frames) && ReceiverAt(d, c, frames) && !c.closed
    requires c.recv.n < |frames| && frames[c.recv.n].kind == REKEY
    ensures var o := Accepted(d, c, frames);
            && o.result == Ok(None) && o.chan == AtFrame(d, c, frames, c.recv.n + 1)
            && ReceiverAt(d, o.chan, frames) && !o.chan.closed
  {
    AcceptedUpTo(d, c, frames);
    assert frames[..c.recv.n + 1][c.recv.n] == frames[c.recv.n];
  }

  /** One frame that is not a genuine REKEY frame ends the receive. */
  lemma ReceiveEnds(seal: Seal, d: Stream, c: Chan, log: Log, frames: seq<Sealed>, inbox: seq<bytes>)
    requires WellFormed(frames) && LogHolds(seal, d, log, frames) && ReceiverAt(d, c, frames) && !c.closed
    requires inbox != []
    requires c.recv.n < |frames| && inbox[0] == WireOf(seal, d, frames, c.recv.n) ==> frames[c.recv.n].kind != REKEY
    ensures var r := Receive(c, log, inbox);
            r.rest == inbox[1..] && EndsAt(seal, d, c, frames, c.recv.n, inbox[0], r.outcome, r.chan)
  {
    AnswersAnyInput(seal, d, c, log, frames, inbox[0]);
    if c.recv.n < |frames| { AcceptedUpTo(d, c, frames); }
  }

  /** A genuine REKEY frame passes the receive on, whatever is behind it. */
  lemma ReceivePasses(seal: Seal, d: Stream, c: Chan, log: Log, frames: seq<Sealed>, inbox: seq<bytes>)
    requires WellFormed(frames) && LogHolds(seal, d, log, frames) && ReceiverAt(d, c, frames) && !c.closed
    requires inbox != [] && c.recv.n < |frames|
    requires inbox[0] == WireOf(seal, d, frames, c.recv.n) && frames[c.recv.n].kind == REKEY
    ensures Receive(c, log, inbox) == Receive(AtFrame(d, c, frames, c.recv.n + 1), log, inbox[1..])
  {
    AnswersAnyInput(seal, d, c, log, frames, inbox[0]);
    AcceptsRekey(d, c, frames);
  }

  /** `r` is a receive that took `k` REKEY frames and then waits at the end of the link, or took exactly one more
      frame and left everything behind it. */
  ghost predicate TakesUpTo(seal: Seal, d: Stream, c: Chan, frames: seq<Sealed>, inbox: seq<bytes>, k: nat,
                            r: Reception)
  {
    var m := c.recv.n;
    && RekeysFirst(seal, d, frames, m, inbox, k)
    && if k == |inbox| then r == Reception(Waiting, AtFrame(d, c, frames, m + k), [])
       else
         && r.rest == inbox[k + 1..]
         && EndsAt(seal, d, AtFrame(d, c, frames, m + k), frames, m + k, inbox[k], r.outcome, r.chan)
  }

  lemma RekeysOneMore(seal: Seal, d: Stream, frames: seq<Sealed>, m: nat, inbox: seq<bytes>, k: nat)
    requires inbox != [] && m < |frames|
    requires inbox[0] == WireOf(seal, d, frames, m) && frames[m].kind == REKEY
    requires RekeysFirst(seal, d, frames, m + 1, inbox[1..], k)
    ensures RekeysFirst(seal, d, frames, m, inbox, k + 1)
  {
    forall i | 0 <= i < k + 1
      ensures frames[m + i].kind == REKEY && inbox[i] == WireOf(seal, d, frames, m + i)
    {
      if i > 0 { assert inbox[i] == inbox[1..][i - 1] == WireOf(seal, d, frames, m + 1 + (i - 1)); }
    }
  }

  lemma TakesOneMoreRekey(seal: Seal, d: Stream, c: Chan, frames: seq<Sealed>, inbox: seq<bytes>, k: nat, r: Reception)
    requires inbox != [] && c.recv.n < |frames|
    requires inbox[0] == WireOf(seal, d, frames, c.recv.n) && frames[c.recv.n].kind == REKEY
    requires TakesUpTo(seal, d, AtFrame(d, c, frames, c.recv.n + 1), frames, inbox[1..], k, r)
    ensures TakesUpTo(seal, d, c, frames, inbox, k + 1, r)
  {
    var m, behind := c.recv.n, inbox[1..];
    RekeysOneMore(seal, d, frames, m, inbox, k);
    assert m + 1 + k == m + (k + 1);
    if k < |behind| {
      assert behind[k] == inbox[k + 1] && behind[k + 1..] == inbox[k + 2..];
    }
  }

  /** One receive on a link that holds anything at all. */
  lemma {:induction false} ReceiveAnyLink(seal: Seal, d: Stream, c: Chan, log: Log, frames: seq<Sealed>,
                                          inbox: seq<bytes>)
    returns (k: nat)
    requires WellFormed(frames) && LogHolds(seal, d, log, frames) && ReceiverAt(d, c, frames) && !c.closed
    ensures TakesUpTo(seal, d, c, frames, inbox, k, Receive(c, log, inbox))
    decreases |inbox|
  {
    k := 0;
    assert AtFrame(d, c, frames, c.recv.n) == c;
    if inbox != [] {
      if c.recv.n < |frames| && inbox[0] == WireOf(seal, d, frames, c.recv.n) && frames[c.recv.n].kind == REKEY {
        AcceptsRekey(d, c, frames);
        ReceivePasses(seal, d, c, log, frames, inbox);
        var c' := AtFrame(d, c, frames, c.recv.n + 1);
        k := ReceiveAnyLink(seal, d, c', log, frames, inbox[1..]);
        TakesOneMoreRekey(seal, d, c, frames, inbox, k, Receive(c', log, inbox[1..]));
        k := k + 1;
      } else {
        ReceiveEnds(seal, d, c, log, frames, inbox);
      }
    }
  }

  // ----- receiving everything -----

  /** Repeated receives until the link is empty or one raises: the messages, how many frames each
      took, and how the last receive ended. */
  datatype Drained = Drained(texts: seq<bytes>, taken: seq<nat>, last: Outcome, chan: Chan)
  {
    /** With one more message in front, which took `n` frames. */
    function Behind(text: bytes, n: nat): Drained { this.(texts := [text] + texts, taken := [n] + taken) }
  }

  ghost function ReceiveAll(c: Chan, log: Log, inbox: seq<bytes>): Drained
    decreases |inbox|
  {
    var r := Receive(c, log, inbox);
    if r.outcome.Got? then ReceiveAll(r.chan, log, r.rest).Behind(r.outcome.text, |inbox| - |r.rest|)
    else Drained([], [], r.outcome, r.chan)
  }

  /** `r` is all of the frames from `m` up to `w`: their messages in order, at most two frames each, then
      waiting for more, or the end of the channel if a CLOSE frame was among them. */
  ghost predicate TakesAll(frames: seq<Sealed>, m: nat, w: nat, r: Drained)
    requires m <= w <= |frames|
  {
    && Texts(frames[..m]) + r.texts == Texts(frames[..w])
    && |r.taken| == |r.texts| && (forall i :: 0 <= i < |r.taken| ==> 1 <= r.taken[i] <= 2)
    && r.last == (if EndsWithClose(frames[..w]) then Raised(ChannelClosedError) else Waiting)
    && r.chan.recv.n == w && (r.chan.closed <==> EndsWithClose(frames[..w]))
  }

  /** The messages up to the end of one receive. */
  lemma TextsPast(frames: seq<Sealed>, m: nat, end: nat)
    requires m < end <= |frames| && (end == m + 1 || (end == m + 2 && frames[m].kind == REKEY))
    ensures Texts(frames[..end]) ==
            Texts(frames[..m]) + (if frames[end - 1].kind == TRANSPORT then [frames[end - 1].text] else [])
  {
    Extend(frames, m);
    Extend(frames, end - 1);
    assert Texts(frames[..m]) + [] == Texts(frames[..m]);
  }

  lemma DrainOneMore(c: Chan, log: Log, inbox: seq<bytes>, one: Reception, rest: Drained)
    requires one == Receive(c, log, inbox) && one.outcome.Got?
    requires rest == ReceiveAll(one.chan, log, one.rest)
    ensures ReceiveAll(c, log, inbox) == rest.Behind(one.outcome.text, |inbox| - |one.rest|)
  {
  }

  lemma DrainLast(c: Chan, log: Log, inbox: seq<bytes>, one: Reception)
    requires one == Receive(c, log, inbox) && !one.outcome.Got?
    ensures ReceiveAll(c, log, inbox) == Drained([], [], one.outcome, one.chan)
  {
  }

  /** One more message in front. */
  lemma TakesOneMore(frames: seq<Sealed>, m: nat, end: nat, w: nat, r: Drained)
    requires m < end <= w <= |frames| && (end == m + 1 || (end == m + 2 && frames[m].kind == REKEY))
    requires frames[end - 1].kind == TRANSPORT && TakesAll(frames, end, w, r)
    ensures TakesAll(frames, m, w, r.Behind(frames[end - 1].text, end - m))
  {
    TextsPast(frames, m, end);
    var before, text := Texts(frames[..m]), frames[end - 1].text;
    assert before + ([text] + r.texts) == before + [text] + r.texts;
  }

  /** A receive that returns a message, and then everything behind it. */
  lemma TakesAndGoesOn(c: Chan, log: Log, inbox: seq<bytes>, frames: seq<Sealed>, m: nat, end: nat, w: nat,
                       r: Reception, rest: Drained)
    returns (all: Drained)
    requires m < end <= w <= |frames| && (end == m + 1 || (end == m + 2 && frames[m].kind == REKEY))
    requires |inbox| == w - m && r == Receive(c, log, inbox)
    requires r.outcome == Ending(frames[end - 1]) && r.outcome.Got? && |r.rest| == w - end
    requires rest == ReceiveAll(r.chan, log, r.rest) && TakesAll(frames, end, w, rest)
    ensures all == ReceiveAll(c, log, inbox) && TakesAll(frames, m, w, all)
  {
    all := rest.Behind(frames[end - 1].text, end - m);
    DrainOneMore(c, log, inbox, r, rest);
    TakesOneMore(frames, m, end, w, rest);
  }

  /** A receive that ends without a message is the last. */
  lemma TakesNoMore(seal: Seal, d: Stream, c: Chan, log: Log, inbox: seq<bytes>, frames: seq<Sealed>, m: nat, end: nat,
                    w: nat, r: Reception)
    returns (all: Drained)
    requires WellFormed(frames) && m < end <= w <= |frames| && r == Receive(c, log, inbox)
    requires TakesOne(seal, d, frames, m, end, w, r) && !r.outcome.Got?
    ensures all == ReceiveAll(c, log, inbox) && TakesAll(frames, m, w, all)
  {
    all := Drained([], [], r.outcome, r.chan);
    DrainLast(c, log, inbox, r);
    TextsPast(frames, m, end);
    assert Texts(frames[..m]) + [] == Texts(frames[..m]);
  }

  /** A receive on an empty link takes nothing. */
  lemma TakesNothing(c: Chan, log: Log, frames: seq<Sealed>) returns (all: Drained)
    requires c.recv.n <= |frames| && !c.closed && !EndsWithClose(frames[..c.recv.n])
    ensures all == ReceiveAll(c, log, []) && TakesAll(frames, c.recv.n, c.recv.n, all)
  {
    all := Drained([], [], Waiting, c);
    DrainLast(c, log, [], Reception(Waiting, c, []));
    assert Texts(frames[..c.recv.n]) + [] == Texts(frames[..c.recv.n]);
  }

  /** Repeated receives on the genuine frames waiting up to `w` take them all. */
  lemma {:induction false} ReceiveAllTakesAll(seal: Seal, d: Stream, c: Chan, log: Log, frames: seq<Sealed>, w: nat,
                                              inbox: seq<bytes>)
    returns (all: Drained)
    requires WellFormed(frames) && LogHolds(seal, d, log, frames) && ReceiverAt(d, c, frames) && !c.closed
    requires c.recv.n <= w <= |frames| && Orderly(frames)
    requires inbox == Wires(seal, d, frames, c.recv.n, w)
    ensures all == ReceiveAll(c, log, inbox)
    ensures TakesAll(frames, c.recv.n, w, all)
    decreases w - c.recv.n
  {
    if c.recv.n == w {
      all := TakesNothing(c, log, frames);
    } else {
      var r, end := ReceiveTakesOne(seal, d, c, log, frames, w, inbox);
      if r.outcome.Got? {
        var rest := ReceiveAllTakesAll(seal, d, r.chan, log, frames, w, r.rest);
        all := TakesAndGoesOn(c, log, inbox, frames, c.recv.n, end, w, r, rest);
      } else {
        all := TakesNoMore(seal, d, c, log, inbox, frames, c.recv.n, end, w, r);
      }
    }
  }

  // ----- sending everything -----

  /** One call of `Send`, with the clock readings it makes. */
  datatype Message = Message(text: bytes, dueAt: real, resetAt: real)

  /** A sender after a list of sends: all the frames of its stream, the wire bytes put on the link and the
      messages whose send returned. */
  datatype Batch = Batch(chan: Chan, log: Log, frames: seq<Sealed>, wires: seq<bytes>, sent: seq<bytes>)
  {
    ghost function Then(m: Message, e: Sent<seq<bytes>>): Batch {
      Batch(e.chan, e.log, frames + e.frames,
            wires + (if e.result.Ok? then e.result.value else []),
            sent + (if e.result.Ok? then [m.text] else []))
    }
  }

  /** Sends by a sender whose stream holds `frames`. */
  ghost function SendAll(seal: Seal, c: Chan, log: Log, frames: seq<Sealed>, messages: seq<Message>): Batch {
    if messages == [] then Batch(c, log, frames, [], [])
    else
      var b := SendAll(seal, c, log, frames, messages[..|messages| - 1]);
      var m := messages[|messages| - 1];
      b.Then(m, Encrypt(seal, b.chan, b.log, m.text, m.dueAt, m.resetAt))
  }

  /** The link carries the frames sealed since the first `from`; only a REKEY frame sealed with the last
      nonce can be missing. */
  ghost predicate OnTheLink(seal: Seal, d: Stream, from: nat, b: Batch) {
    var w := from + |b.wires|;
    && w <= |b.frames|
    && b.wires == Wires(seal, d, b.frames, from, w)
    && (w == |b.frames| || (w + 1 == |b.frames| == MAX_NONCE && b.frames[w].kind == REKEY))
  }

  lemma {:induction false} WiresTruncate(seal: Seal, d: Stream, frames: seq<Sealed>, more: seq<Sealed>, from: nat,
                                         w: nat)
    requires from <= w <= |frames|
    ensures Wires(seal, d, frames + more, from, w) == Wires(seal, d, frames, from, w)
    decreases w - from
  {
    if from < w {
      WireStable(seal, d, frames, more, from);
      WiresTruncate(seal, d, frames, more, from + 1, w);
    }
  }

  lemma {:induction false} WiresSplit(seal: Seal, d: Stream, frames: seq<Sealed>, from: nat, mid: nat, end: nat)
    requires from <= mid <= end <= |frames|
    ensures Wires(seal, d, frames, from, end) == Wires(seal, d, frames, from, mid) + Wires(seal, d, frames, mid, end)
    decreases mid - from
  {
    if from < mid { WiresSplit(seal, d, frames, from + 1, mid, end); }
  }

  lemma MoreOnTheLink(seal: Seal, d: Stream, frames: seq<Sealed>, more: seq<Sealed>, from: nat)
    requires from <= |frames|
    ensures Wires(seal, d, frames + more, from, |frames + more|) ==
            Wires(seal, d, frames, from, |frames|) + Wires(seal, d, frames + more, |frames|, |frames + more|)
  {
    WiresTruncate(seal, d, frames, more, from, |frames|);
    WiresSplit(seal, d, frames + more, from, |frames|, |frames + more|);
  }

  /** A send that fails has sealed at most a REKEY frame with the last nonce. */
  lemma NoMoreOnTheLink(seal: Seal, d: Stream, from: nat, b: Batch, m: Message, e: Sent<seq<bytes>>)
    requires OnTheLink(seal, d, from, b) && |b.frames| <= MAX_NONCE
    requires SealsMessage(seal, d, b.chan, b.frames, m.text, m.dueAt, m.resetAt, e) && e.result.Err?
    ensures OnTheLink(seal, d, from, b.Then(m, e))
  {
    assert b.wires + [] == b.wires;
    WiresTruncate(seal, d, b.frames, e.frames, from, from + |b.wires|);
    if e.frames == [] { assert b.frames + e.frames == b.frames; }
  }

  /** One more send keeps the link in order. */
  lemma SendKeepsLink(seal: Seal, d: Stream, from: nat, b: Batch, m: Message, e: Sent<seq<bytes>>)
    requires OnTheLink(seal, d, from, b) && |b.frames| <= MAX_NONCE
    requires SealsMessage(seal, d, b.chan, b.frames, m.text, m.dueAt, m.resetAt, e)
    ensures OnTheLink(seal, d, from, b.Then(m, e))
  {
    if e.result.Ok? {
      MoreOnTheLink(seal, d, b.frames, e.frames, from);
    } else {
      NoMoreOnTheLink(seal, d, from, b, m, e);
    }
  }

  lemma OneMoreText(seal: Seal, d: Stream, frames: seq<Sealed>, b: Batch, m: Message, e: Sent<seq<bytes>>)
    requires Texts(b.frames) == Texts(frames) + b.sent
    requires SealsMessage(seal, d, b.chan, b.frames, m.text, m.dueAt, m.resetAt, e)
    ensures Texts(b.Then(m, e).frames) == Texts(frames) + b.Then(m, e).sent
  {
  }

  lemma {:induction false} SendAllOnTheLink(seal: Seal, d: Stream, c: Chan, log: Log, frames: seq<Sealed>,
                                            messages: seq<Message>)
    requires WellFormed(frames) && Orderly(frames) && SenderAt(d, c, frames) && LogHolds(seal, d, log, frames)
    requires !c.closed
    ensures var b := SendAll(seal, c, log, frames, messages);
            && frames <= b.frames && Texts(b.frames) == Texts(frames) + b.sent && !b.chan.closed
            && WellFormed(b.frames) && Orderly(b.frames)
            && SenderAt(d, b.chan, b.frames) && LogHolds(seal, d, b.log, b.frames)
            && OnTheLink(seal, d, |frames|, b)
  {
    if messages == [] {
      assert Texts(frames) + [] == Texts(frames);
    } else {
      var init := messages[..|messages| - 1];
      var m := messages[|messages| - 1];
      SendAllOnTheLink(seal, d, c, log, frames, init);
      var b := SendAll(seal, c, log, frames, init);
      var e := Encrypt(seal, b.chan, b.log, m.text, m.dueAt, m.resetAt);
      EncryptGrows(seal, d, b.chan, b.log, b.frames, m.text, m.dueAt, m.resetAt);
      EncryptOrderly(b.chan, b.frames, m.text, m.dueAt);
      SendKeepsLink(seal, d, |frames|, b, m, e);
      OneMoreText(seal, d, frames, b, m, e);
    }
  }

  // ----- honest delivery -----

  /** Receives that complete what was `got` to all that was `sent`, each message in one or two frames, and
      end waiting on an open channel. */
  ghost predicate Completes(r: Drained, got: seq<bytes>, sent: seq<bytes>) {
    && got + r.texts == sent
    && |r.taken| == |r.texts| && (forall i :: 0 <= i < |r.taken| ==> 1 <= r.taken[i] <= 2)
    && r.last == Waiting && !r.chan.closed
  }

  /** Leaving out a REKEY frame at the end loses no message. */
  lemma LinkEndsOpen(frames: seq<Sealed>, w: nat)
    requires w == |frames| || (w + 1 == |frames| && frames[w].kind == REKEY)
    requires Orderly(frames) && !EndsWithClose(frames)
    ensures Texts(frames[..w]) == Texts(frames) && !EndsWithClose(frames[..w])
  {
    assert frames[..|frames|] == frames;
    if w < |frames| {
      Extend(frames, w);
      if w > 0 { assert Placed(frames, w - 1); }
    }
  }

  lemma ReceiverAtLonger(d: Stream, c: Chan, frames: seq<Sealed>, all: seq<Sealed>)
    requires ReceiverAt(d, c, frames) && frames <= all
    ensures ReceiverAt(d, c, all) && all[..c.recv.n] == frames[..c.recv.n]
  {
    assert all == frames + all[|frames|..];
    ReceiverKept(d, c, frames, all[|frames|..]);
  }

  lemma WiresJoin(seal: Seal, d: Stream, frames: seq<Sealed>, all: seq<Sealed>, m: nat, w: nat)
    requires m <= |frames| <= w <= |all| && frames <= all
    ensures Wires(seal, d, frames, m, |frames|) + Wires(seal, d, all, |frames|, w) == Wires(seal, d, all, m, w)
  {
    assert all == frames + all[|frames|..];
    WiresTruncate(seal, d, frames, all[|frames|..], m, |frames|);
    WiresSplit(seal, d, all, m, |frames|, w);
  }

  lemma LinkPrefix(frames: seq<Sealed>, all: seq<Sealed>, m: nat, w: nat)
    requires m <= |frames| && frames <= all
    requires w == |all| || (w + 1 == |all| && all[w].kind == REKEY)
    requires Orderly(all) && !EndsWithClose(all)
    ensures Texts(all[..m]) == Texts(frames[..m])
    ensures Texts(all[..w]) == Texts(all) && !EndsWithClose(all[..w])
  {
    LinkEndsOpen(all, w);
    assert all[..m] == frames[..m];
  }

  /** Repeated receives on all that a sender left open put on the link. */
  lemma DeliversTheLink(seal: Seal, d: Stream, receiver: Chan, log: Log, frames: seq<Sealed>, w: nat, link: seq<bytes>)
    requires WellFormed(frames) && Orderly(frames) && LogHolds(seal, d, log, frames)
    requires ReceiverAt(d, receiver, frames) && !receiver.closed
    requires receiver.recv.n <= w <= |frames| && !EndsWithClose(frames[..w])
    requires link == Wires(seal, d, frames, receiver.recv.n, w)
    ensures Completes(ReceiveAll(receiver, log, link), Texts(frames[..receiver.recv.n]), Texts(frames[..w]))
  {
    var r := ReceiveAllTakesAll(seal, d, receiver, log, frames, w, link);
  }

  lemma DeliversTheBatch(seal: Seal, d: Stream, receiver: Chan, frames: seq<Sealed>, b: Batch, w: nat, link: seq<bytes>)
    requires WellFormed(b.frames) && Orderly(b.frames) && LogHolds(seal, d, b.log, b.frames)
    requires !EndsWithClose(b.frames) && Texts(b.frames) == Texts(frames) + b.sent
    requires frames <= b.frames && |frames| <= w <= |b.frames|
    requires w == |b.frames| || (w + 1 == |b.frames| && b.frames[w].kind == REKEY)
    requires ReceiverAt(d, receiver, frames) && !receiver.closed
    requires link == Wires(seal, d, b.frames, receiver.recv.n, w)
    ensures Completes(ReceiveAll(receiver, b.log, link), Texts(frames[..receiver.recv.n]), Texts(frames) + b.sent)
  {
    LinkPrefix(frames, b.frames, receiver.recv.n, w);
    ReceiverAtLonger(d, receiver, frames, b.frames);
    DeliversTheLink(seal, d, receiver, b.log, b.frames, w, link);
  }

  lemma LinkJoins(seal: Seal, d: Stream, frames: seq<Sealed>, b: Batch, m: nat, link: seq<bytes>)
    requires m <= |frames| && frames <= b.frames && OnTheLink(seal, d, |frames|, b)
    requires link == Wires(seal, d, frames, m, |frames|) + b.wires
    ensures link == Wires(seal, d, b.frames, m, |frames| + |b.wires|)
  {
    WiresJoin(seal, d, frames, b.frames, m, |frames| + |b.wires|);
  }

  lemma DeliversOldAndNew(seal: Seal, d: Stream, receiver: Chan, frames: seq<Sealed>, b: Batch, link: seq<bytes>)
    requires WellFormed(b.frames) && Orderly(b.frames) && LogHolds(seal, d, b.log, b.frames)
    requires !EndsWithClose(b.frames) && Texts(b.frames) == Texts(frames) + b.sent
    requires frames <= b.frames && OnTheLink(seal, d, |frames|, b)
    requires ReceiverAt(d, receiver, frames) && !receiver.closed
    requires link == Wires(seal, d, frames, receiver.recv.n, |frames|) + b.wires
    ensures Completes(ReceiveAll(receiver, b.log, link), Texts(frames[..receiver.recv.n]), Texts(frames) + b.sent)
  {
    LinkJoins(seal, d, frames, b, receiver.recv.n, link);
    DeliversTheBatch(seal, d, receiver, frames, b, |frames| + |b.wires|, link);
  }

  /** For any history, messages, thresholds and clock readings: when the link delivers, in order, what was
      outstanding and what is sent on top of it, repeated receives return exactly the outstanding
      messages and those whose send returned, at most two frames each, and end waiting for more. */
  lemma HonestDelivery(seal: Seal, d: Stream, sender: Chan, receiver: Chan, log: Log, frames: seq<Sealed>,
                       messages: seq<Message>, b: Batch, link: seq<bytes>)
    requires WellFormed(frames) && Orderly(frames) && LogHolds(seal, d, log, frames)
    requires SenderAt(d, sender, frames) && !sender.closed
    requires ReceiverAt(d, receiver, frames) && !receiver.closed
    requires b == SendAll(seal, sender, log, frames, messages)
    requires link == Wires(seal, d, frames, receiver.recv.n, |frames|) + b.wires
    ensures Completes(ReceiveAll(receiver, b.log, link), Texts(frames[..receiver.recv.n]), Texts(frames) + b.sent)
  {
    SendAllOnTheLink(seal, d, sender, log, frames, messages);
    DeliversOldAndNew(seal, d, receiver, frames, b, link);
  }

  /** The texts of a list of messages. */
  function TextsOf(messages: seq<Message>): seq<bytes> {
    if messages == [] then [] else TextsOf(messages[..|messages| - 1]) + [messages[|messages| - 1].text]
  }

  lemma SendReturns(seal: Seal, d: Stream, b: Batch, m: Message)
    requires WellFormed(b.frames) && SenderAt(d, b.chan, b.frames) && LogHolds(seal, d, b.log, b.frames)
    requires !b.chan.closed && |m.text| <= MAX_PLAINTEXT && |b.frames| + 2 <= MAX_NONCE
    ensures var b' := b.Then(m, Encrypt(seal, b.chan, b.log, m.text, m.dueAt, m.resetAt));
            b'.sent == b.sent + [m.text] && |b'.frames| <= |b.frames| + 2
  {
    EncryptGrows(seal, d, b.chan, b.log, b.frames, m.text, m.dueAt, m.resetAt);
  }

  /** Every send returns as long as messages fit and nonces suffice, two per message at worst. */
  lemma {:induction false} EverySendReturns(seal: Seal, d: Stream, c: Chan, log: Log, frames: seq<Sealed>,
                                            messages: seq<Message>)
    requires WellFormed(frames) && Orderly(frames) && SenderAt(d, c, frames) && LogHolds(seal, d, log, frames)
    requires !c.closed
    requires forall i :: 0 <= i < |messages| ==> |messages[i].text| + 16 <= 65535
    requires |frames| + 2 * |messages| <= 0xFFFF_FFFF_FFFF_FFFF
    ensures SendAll(seal, c, log, frames, messages).sent == TextsOf(messages)
    ensures |SendAll(seal, c, log, frames, messages).frames| <= |frames| + 2 * |messages|
  {
    if messages != [] {
      var init := messages[..|messages| - 1];
      var m := messages[|messages| - 1];
      EverySendReturns(seal, d, c, log, frames, init);
      SendAllOnTheLink(seal, d, c, log, frames, init);
      SendReturns(seal, d, SendAll(seal, c, log, frames, init), m);
    }
  }
}
