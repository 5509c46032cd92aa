/** An ideal CipherState in the sense of sections 5.1 and 5.2 of the Noise Protocol Framework
    (revision 34): an implicit nonce that advances on success only, and a key that Rekey replaces
    without touching the nonce. */
module Ciphers {
  import opened Protocol

  /** The last nonce value is reserved and never used. */
  const MAX_NONCE := 0xFFFF_FFFF_FFFF_FFFF

  datatype Direction = InitiatorToResponder | ResponderToInitiator

  /** One direction of one session. A session is named by the transcript of its handshake, so two
      holders have the same keys exactly when they have the same transcript. */
  datatype Stream = Stream(session: seq<bytes>, direction: Direction)

  /** Split gives each stream its own key; each Rekey gives it a new one. */
  datatype Key = Key(stream: Stream, epoch: nat)

  /** The sealing function: any function at all, as long as it appends a tag. */
  type Seal = f: (Key, nat, bytes, bytes) -> bytes
    | forall key, n, ad, text :: |f(key, n, ad, text)| == |text| + AEAD_TAG_LEN
    ghost witness (key, n, ad, text) => text + seq(AEAD_TAG_LEN, i => 0)

  /** What a holder of `key` asks when it opens a ciphertext. */
  datatype Query = Query(key: Key, nonce: nat, ad: bytes, ciphertext: bytes)

  /** Everything ever sealed. An ideal cipher opens these queries and no others. */
  type Log = map<Query, bytes>

  datatype Cipher = Cipher(key: Key, n: nat)
  {
    function Rekeyed(): Cipher { this.(key := Key(key.stream, key.epoch + 1)) }

    function Advanced(): Cipher { this.(n := n + 1) }
  }

  /** The answer to a decryption request. */
  function Opens(c: Cipher, log: Log, ad: bytes, ciphertext: bytes): Result<bytes> {
    if c.n == MAX_NONCE then Err(MaxNonceError)
    else if Query(c.key, c.n, ad, ciphertext) in log then Ok(log[Query(c.key, c.n, ad, ciphertext)])
    else Err(InvalidTag)
  }

  class Aead {
    const seal: Seal
    var log: Log

    constructor (seal: Seal)
      ensures this.seal == seal && log == map[]
    {
      this.seal := seal;
      log := map[];
    }
  }

  class CipherState {
    const aead: Aead
    var key: Key
    var n: nat

    function Value(): Cipher
      reads this
    {
      Cipher(key, n)
    }

    constructor (aead: Aead, key: Key)
      ensures this.aead == aead && Value() == Cipher(key, 0)
    {
      this.aead := aead;
      this.key := key;
      n := 0;
    }

    method EncryptWithAd(ad: bytes, plaintext: bytes) returns (r: Result<bytes>)
      modifies this, aead
      ensures old(n) == MAX_NONCE ==> r == Err(MaxNonceError) && Value() == old(Value()) && aead.log == old(aead.log)
      ensures old(n) != MAX_NONCE ==>
                && r == Ok(aead.seal(old(key), old(n), ad, plaintext))
                && Value() == old(Value()).Advanced()
                && aead.log == old(aead.log)[Query(old(key), old(n), ad, r.value) := plaintext]
    {
      if n == MAX_NONCE {
        return Err(MaxNonceError);
      }
      var ciphertext := aead.seal(key, n, ad, plaintext);
      aead.log := aead.log[Query(key, n, ad, ciphertext) := plaintext];
      n := n + 1;
      return Ok(ciphertext);
    }

    method DecryptWithAd(ad: bytes, ciphertext: bytes) returns (r: Result<bytes>)
      modifies this
      ensures r == Opens(old(Value()), aead.log, ad, ciphertext)
      ensures Value() == if r.Ok? then old(Value()).Advanced() else old(Value())
    {
      if n == MAX_NONCE {
        return Err(MaxNonceError);
      }
      var query := Query(key, n, ad, ciphertext);
      if query !in aead.log {
        return Err(InvalidTag);
      }
      n := n + 1;
      return Ok(aead.log[query]);
    }

    method Rekey()
      modifies this
      ensures Value() == old(Value()).Rekeyed()
    {
      key := Key(key.stream, key.epoch + 1);
    }
  }
}
