/** The frame codec: version, type, 64-bit sequence number and 32-bit length in front of a payload. */
module Framing {
  import opened Protocol
  import opened Numerals

  const HEADER_LEN := 14
  const MAX_PAYLOAD := 65535
  const MAX_PLAINTEXT := MAX_PAYLOAD - AEAD_TAG_LEN
  const MAX_SEQ := 0xFFFF_FFFF_FFFF_FFFF

  function HeaderBytes(kind: MessageType, seqno: nat, length: nat): (h: bytes)
    ensures |h| == HEADER_LEN
  {
    [PROTOCOL_VERSION, kind.Code()] + BigEndian(seqno, 8) + BigEndian(length, 4)
  }

  function PackHeader(kind: MessageType, seqno: int, length: int): (r: Result<bytes>)
    ensures r.Ok? ==> |r.value| == HEADER_LEN
  {
    if !(0 <= seqno <= MAX_SEQ) then Err(ProtocolError)
    else if !(0 <= length <= MAX_PAYLOAD) then Err(FrameError)
    else Ok(HeaderBytes(kind, seqno, length))
  }

  lemma SeqnoRange()
    ensures Pow(256, 8) == MAX_SEQ + 1
    ensures Pow(256, 4) > MAX_PAYLOAD
  {
    assert Pow(256, 2) == 0x1_0000;
    assert Pow(256, 4) == 256 * (256 * Pow(256, 2));
    assert Pow(256, 6) == 256 * (256 * Pow(256, 4));
    assert Pow(256, 8) == 256 * (256 * Pow(256, 6));
  }

  /** The layout of a header, byte by byte, for every type, sequence number and length that has one; and the
      error for every other. */
  lemma HeaderLayout(kind: MessageType, seqno: int, length: int)
    ensures var r := PackHeader(kind, seqno, length);
            if !(0 <= seqno <= 0xFFFF_FFFF_FFFF_FFFF) then r == Err(ProtocolError)
            else if !(0 <= length <= 65535) then r == Err(FrameError)
            else
              && r.Ok? && |r.value| == 14 && r.value[0] == 1
              && r.value[1] == (match kind case HANDSHAKE => 1 case TRANSPORT => 2 case REKEY => 3 case CLOSE => 4)
              && Weighed(r.value[2..10], 0) == seqno && Weighed(r.value[10..14], 0) == length
  {
    if 0 <= seqno <= MAX_SEQ && 0 <= length <= MAX_PAYLOAD {
      var h := HeaderBytes(kind, seqno, length);
      assert h[2..10] == BigEndian(seqno, 8) && h[10..14] == BigEndian(length, 4);
      SeqnoRange();
      BigEndianReadsBack(seqno, 8);
      BigEndianReadsBack(length, 4);
      FromBigEndianWeighs(h[2..10]);
      FromBigEndianWeighs(h[10..14]);
    }
  }

  datatype Frame = Frame(kind: MessageType, seqno: int, payload: bytes)
  {
    /** What the constructor of the source checks. */
    predicate Valid() {
      0 <= seqno <= MAX_SEQ && |payload| <= MAX_PAYLOAD
    }

    function Header(): Result<bytes> {
      PackHeader(kind, seqno, |payload|)
    }
  }

  function Encode(kind: MessageType, seqno: int, payload: bytes): Result<bytes> {
    if !(0 <= seqno <= MAX_SEQ) then Err(ProtocolError)
    else if |payload| > MAX_PAYLOAD then Err(FrameError)
    else Ok(HeaderBytes(kind, seqno, |payload|) + payload)
  }

  function Decode(data: bytes): (r: Result<Frame>)
    ensures r.Ok? ==> r.value.Valid()
  {
    if |data| < HEADER_LEN then Err(FrameError)
    else if data[0] != PROTOCOL_VERSION then Err(ProtocolError)
    else
      var length := FromBigEndian(data[10..14]);
      var body := data[HEADER_LEN..];
      if length > MAX_PAYLOAD then Err(FrameError)
      else if |body| != length then Err(FrameError)
      else
        match MessageType.OfCode(data[1])
        case None => Err(ProtocolError)
        case Some(kind) =>
          BigEndianPrintsBack(data[2..10]);
          SeqnoRange();
          Ok(Frame(kind, FromBigEndian(data[2..10]), body))
  }

  /** The fields of a header sit where the decoder looks for them. */
  lemma HeaderFields(kind: MessageType, seqno: nat, length: nat, rest: bytes)
    requires seqno <= MAX_SEQ && length <= MAX_PAYLOAD
    ensures var data := HeaderBytes(kind, seqno, length) + rest;
            && data[0] == PROTOCOL_VERSION && data[1] == kind.Code()
            && FromBigEndian(data[2..10]) == seqno && FromBigEndian(data[10..14]) == length
            && data[HEADER_LEN..] == rest
  {
    var data := HeaderBytes(kind, seqno, length) + rest;
    SeqnoRange();
    BigEndianReadsBack(seqno, 8);
    BigEndianReadsBack(length, 4);
    assert data[2..10] == BigEndian(seqno, 8);
    assert data[10..14] == BigEndian(length, 4);
  }

  /** Which bytes are a frame, what frame they are, and what is wrong with all others. */
  lemma DecodesExactlyWhen(data: bytes)
    ensures Decode(data).Ok? <==>
            |data| >= 14 && data[0] == 1 && 1 <= data[1] <= 4 && Weighed(data[10..14], 0) == |data| - 14 <= 65535
    ensures Decode(data).Ok? ==>
            var f := Decode(data).value;
            && f.kind == (if data[1] == 1 then HANDSHAKE else if data[1] == 2 then TRANSPORT
                          else if data[1] == 3 then REKEY else CLOSE)
            && f.seqno == Weighed(data[2..10], 0) && f.payload == data[14..]
    ensures Decode(data).Err? ==>
            Decode(data).error ==
            if |data| >= 14 && (data[0] != 1 || Weighed(data[10..14], 0) == |data| - 14 <= 65535)
            then ProtocolError else FrameError
  {
    if |data| >= 14 {
      FromBigEndianWeighs(data[2..10]);
      FromBigEndianWeighs(data[10..14]);
    }
  }

  /** Encoding puts the payload behind the header, and fails as the header does. Decoding inverts it, for every
      type, sequence number and payload that encodes. */
  lemma DecodeEncode(kind: MessageType, seqno: int, payload: bytes)
    ensures Encode(kind, seqno, payload).Ok? <==> 0 <= seqno <= 0xFFFF_FFFF_FFFF_FFFF && |payload| <= 65535
    ensures var header := PackHeader(kind, seqno, |payload|);
            Encode(kind, seqno, payload) == if header.Ok? then Ok(header.value + payload) else header
    ensures Encode(kind, seqno, payload).Ok? ==>
              Decode(Encode(kind, seqno, payload).value) == Ok(Frame(kind, seqno, payload))
  {
    if Encode(kind, seqno, payload).Ok? {
      HeaderFields(kind, seqno, |payload|, payload);
    }
  }

  /** Whatever decodes re-encodes to the identical bytes, and its rebuilt header is its own first
      14 bytes. */
  lemma EncodeDecode(data: bytes)
    requires Decode(data).Ok?
    ensures var f := Decode(data).value;
            && Encode(f.kind, f.seqno, f.payload) == Ok(data)
            && f.Header() == Ok(data[..HEADER_LEN])
  {
    var f := Decode(data).value;
    BigEndianPrintsBack(data[2..10]);
    BigEndianPrintsBack(data[10..14]);
    assert data[..HEADER_LEN] == [data[0], data[1]] + data[2..10] + data[10..14];
    assert data == data[..HEADER_LEN] + data[HEADER_LEN..];
  }

  /** Cutting anything off a frame that decodes, or adding anything to it, is a frame error; so no
      valid frame is a proper prefix of another. */
  lemma TruncatedOrExtended(wire: bytes, data: bytes)
    requires Decode(wire).Ok?
    requires data < wire || wire < data
    ensures Decode(data) == Err(FrameError)
  {
    if HEADER_LEN <= |data| {
      assert data[0] == wire[0];
      assert data[10..14] == wire[10..14];
    }
  }

  /** The header determines type, sequence number and length. */
  lemma HeaderInjective(k1: MessageType, s1: nat, n1: nat, k2: MessageType, s2: nat, n2: nat)
    requires s1 <= MAX_SEQ && n1 <= MAX_PAYLOAD && s2 <= MAX_SEQ && n2 <= MAX_PAYLOAD
    requires HeaderBytes(k1, s1, n1) == HeaderBytes(k2, s2, n2)
    ensures k1 == k2 && s1 == s2 && n1 == n2
  {
    HeaderFields(k1, s1, n1, []);
    HeaderFields(k2, s2, n2, []);
  }
}
