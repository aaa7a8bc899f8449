/** The cryptographic functions the system is built on. Nothing is assumed about them: they are fields
    of a value that every operation is given, the same value for the server and for the runtime. */
module Crypto {
  import opened Outcomes
  import opened Numbers

  type CompactSignature = b: bytes | |b| == 64 witness seq(64, _ => 0)
  type RawSignature = b: bytes | |b| == 65 witness seq(65, _ => 0)
  type PublicKey = b: bytes | |b| == 64 witness seq(64, _ => 0)
  type RecoveryId = n: nat | n < 4

  datatype Primitives = Primitives(
    keccak: bytes -> H256,
    blake2: bytes -> H256,
    // signature (r and s), recovery id, message digest
    ecdsaRecover: (CompactSignature, RecoveryId, H256) -> Option<PublicKey>
  )

  /** The last 20 bytes of the hashed key. */
  function AddressOfKey(p: Primitives, key: PublicKey): H160 {
    p.keccak(key)[12..]
  }

  /** The host function of the runtime: it takes the recovery id from the last byte, in either of the
      two customary ranges. */
  function HostRecover(p: Primitives, sig: RawSignature, digest: H256): Option<PublicKey> {
    var id := if sig[64] > 26 then sig[64] - 27 else sig[64];
    if id >= 4 then None else p.ecdsaRecover(sig[..64], id, digest)
  }

  /** Both customary ranges of the last byte, 0 to 3 and 27 to 30, mean the same recovery ids; no other byte
      recovers a key. */
  lemma BothRanges(p: Primitives, sig: CompactSignature, last: u8, digest: H256)
    ensures HostRecover(p, sig + [last], digest)
         == if last < 4 then p.ecdsaRecover(sig, last, digest)
            else if 27 <= last < 31 then p.ecdsaRecover(sig, last - 27, digest)
            else None
  {
    assert (sig + [last])[..64] == sig;
  }
}
