/** Pinned keys of known peers, by label. */
module Pinning {
  import opened Protocol

  type Pins = map<string, bytes>

  /** What formatting a key into an error message does first: its length is validated. */
  function Mismatch(shown: bytes): Error {
    if |shown| != X25519_KEY_LEN then ValueError else IdentityError
  }

  function VerifyPin(pins: Pins, peer: string, key: bytes): Result<()> {
    if |key| != X25519_KEY_LEN then Err(ValueError)
    else if peer !in pins then Err(IdentityError)
    else if pins[peer] != key then Err(Mismatch(pins[peer]))
    else Ok(())
  }

  class KnownPeers {
    var pins: Pins

    constructor (pins: Pins := map[])
      ensures this.pins == pins
    {
      this.pins := pins;
    }

    method Pin(peer: string, key: bytes) returns (r: Result<()>)
      modifies this
      ensures r == (if |key| == X25519_KEY_LEN then Ok(()) else Err(ValueError))
      ensures pins == (if r.Ok? then old(pins)[peer := key] else old(pins))
    {
      if |key| != X25519_KEY_LEN {
        return Err(ValueError);
      }
      pins := pins[peer := key];
      return Ok(());
    }

    method Verify(peer: string, key: bytes) returns (r: Result<()>)
      ensures r == VerifyPin(pins, peer, key)
      ensures r.Ok? <==> |key| == 32 && peer in pins && pins[peer] == key
      ensures r.Err? ==>
                r.error == if |key| != 32 || (peer in pins && |pins[peer]| != 32) then ValueError else IdentityError
    {
      if |key| != X25519_KEY_LEN {
        return Err(ValueError);
      }
      if peer !in pins {
        return Err(IdentityError);
      }
      if pins[peer] != key {
        return Err(Mismatch(pins[peer]));
      }
      return Ok(());
    }

    /** Pin on first use, verify afterwards. */
    method TrustOrVerify(peer: string, key: bytes) returns (r: Result<bool>)
      modifies this
      ensures r.Ok? <==> |key| == X25519_KEY_LEN && (peer in old(pins) ==> old(pins)[peer] == key)
      ensures r.Ok? ==> r.value == (peer !in old(pins)) && pins == old(pins)[peer := key]
      ensures r.Err? ==> pins == old(pins)
      ensures r.Err? ==> r.error == if |key| != X25519_KEY_LEN then ValueError else Mismatch(old(pins)[peer])
    {
      if peer in pins {
        var v := Verify(peer, key);
        if v.Err? {
          return Err(v.error);
        }
        assert pins == pins[peer := key];
        return Ok(false);
      }
      var p := Pin(peer, key);
      if p.Err? {
        return Err(p.error);
      }
      return Ok(true);
    }
  }
}
