/** Vocabulary shared by every component: bytes, results, errors, constants and message types. */
module Protocol {

  type byte = x: int | 0 <= x < 256

  type bytes = seq<byte>

  datatype Option<+T> = None | Some(value: T)

  /** The exceptions the source raises. MaxNonceError, InvalidTag and ValueError are raised by
      libraries or by the interpreter; the others are the SDK's own hierarchy. */
  datatype Error =
    | FrameError
    | ProtocolError
    | HandshakeError
    | ReplayError
    | DecryptionError
    | IdentityError
    | ChannelClosedError
    | MaxNonceError
    | InvalidTag
    | ValueError

  datatype Result<+T> = Ok(value: T) | Err(error: Error)

  const PROTOCOL_VERSION: byte := 1
  const X25519_KEY_LEN := 32
  const AEAD_TAG_LEN := 16
  const HANDSHAKE_HASH_LEN := 32

  /** An X25519 public key in its wire form. */
  type PublicKey = b: bytes | |b| == X25519_KEY_LEN witness seq(X25519_KEY_LEN, i => 0)

  datatype MessageType = HANDSHAKE | TRANSPORT | REKEY | CLOSE
  {
    function Code(): byte {
      match this
      case HANDSHAKE => 1
      case TRANSPORT => 2
      case REKEY => 3
      case CLOSE => 4
    }

    /** The member with the given code, as the IntEnum constructor finds it. */
    static function OfCode(code: byte): (r: Option<MessageType>)
      ensures r.Some? ==> r.value.Code() == code
      ensures r.None? ==> forall t: MessageType :: t.Code() != code
    {
      if code == 1 then Some(HANDSHAKE)
      else if code == 2 then Some(TRANSPORT)
      else if code == 3 then Some(REKEY)
      else if code == 4 then Some(CLOSE)
      else None
    }
  }
}
