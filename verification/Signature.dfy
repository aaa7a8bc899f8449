/** Signed legacy transactions: building them, and taking signer and signature out of them again. */
module Signature {
  import opened Outcomes
  import opened Numbers
  import opened LegacyTransaction
  import opened Crypto

  const I32_MAX: nat := 0x7fff_ffff

  datatype SignatureError = InvalidRecoveryId | InvalidSignature | InvalidPublicKey

  // ----- building -----

  /** The `v` of EIP-155; 256-bit additions and products abort on overflow. */
  function EncodeV(chainId: Option<u256>, id: RecoveryId): Outcome<u256, SignatureError> {
    var v := if chainId.Some? then chainId.value * 2 + 35 + id else 27 + id;
    if v < U256_LIMIT then Ok(v) else Panic
  }

  function MakeSigned(tx: Unsigned, sig: CompactSignature, id: RecoveryId): Outcome<Signed, SignatureError> {
    FromBigEndianBound(sig[..32]);
    FromBigEndianBound(sig[32..]);
    Pow256Widths();
    var v :- EncodeV(tx.chainId, id);
    Ok(Signed(tx, FromBigEndian(sig[..32]), FromBigEndian(sig[32..]), v))
  }

  // ----- taking apart -----

  function RecoveryIdOf(n: nat): Outcome<RecoveryId, SignatureError> {
    if n < 4 then Ok(n) else Err(InvalidRecoveryId)
  }

  /** 256-bit products and differences abort when the result does not fit. */
  function ExtractRecoveryId(tx: Signed): Outcome<RecoveryId, SignatureError> {
    match tx.unsigned.chainId
    case Some(c) =>
      if c * 2 >= U256_LIMIT || tx.v < c * 2 + 35 then Panic
      else if tx.v < I32_MAX then RecoveryIdOf(tx.v - c * 2 - 35)
      else Err(InvalidRecoveryId)
    case None =>
      if tx.v < I32_MAX then RecoveryIdOf(tx.v) else Err(InvalidRecoveryId)
  }

  /** `r` and `s`, each in 32 bytes. */
  function CompactOf(tx: Signed): CompactSignature {
    FixedBigEndian(tx.r, 32) + FixedBigEndian(tx.s, 32)
  }

  function RawSignatureOf(tx: Signed): Outcome<RawSignature, SignatureError> {
    var id :- ExtractRecoveryId(tx);
    Ok(CompactOf(tx) + [id])
  }

  /** Write `n` over the 32 bytes of `a` that start at `from`. */
  method ToBigEndian(n: u256, a: array<u8>, from: nat)
    requires from + 32 <= a.Length
    modifies a
    ensures a[..] == old(a[..from]) + FixedBigEndian(n, 32) + old(a[from + 32..])
  {
    var rest: nat := n;
    var i := 32;
    while i > 0
      invariant 0 <= i <= 32
      invariant FixedBigEndian(n, 32) == FixedBigEndian(rest, i) + a[from + i..from + 32]
      invariant forall j | 0 <= j < a.Length && !(from + i <= j < from + 32) :: a[j] == old(a[j])
    {
      i := i - 1;
      a[from + i] := rest % 256;
      assert FixedBigEndian(rest, i + 1) == FixedBigEndian(rest / 256, i) + [rest % 256];
      rest := rest / 256;
    }
  }

  /** The 65 bytes that the runtime verifies. */
  method RawSignatureBytes(tx: Signed) returns (r: Outcome<RawSignature, SignatureError>)
    ensures r == RawSignatureOf(tx)
  {
    var s := new u8[65](_ => 0);
    ToBigEndian(tx.r, s, 0);
    ToBigEndian(tx.s, s, 32);
    var id :- ExtractRecoveryId(tx);
    s[64] := id;
    assert s[..] == CompactOf(tx) + [id];
    r := Ok(s[..]);
  }

  // ----- the signer, on the server and on chain -----

  /** The server: recover the key, write it uncompressed after the byte 0x04, hash what follows it. */
  function RecoverEthAddress(p: Primitives, tx: Signed): Outcome<H160, SignatureError> {
    var id :- ExtractRecoveryId(tx);
    var key :- OkOr(p.ecdsaRecover(CompactOf(tx), id, p.keccak(EncodeUnsigned(tx.unsigned))), InvalidSignature);
    KeyToAddress(p, [0x04] + key)
  }

  function KeyToAddress(p: Primitives, uncompressed: bytes): Outcome<H160, SignatureError>
    requires |uncompressed| == 65
  {
    if uncompressed[0] != 0x04 then Err(InvalidPublicKey) else Ok(p.keccak(uncompressed[1..])[12..])
  }

  /** The runtime. */
  function RecoverSigner(p: Primitives, tx: Unsigned, sig: RawSignature): Option<H160> {
    var key :- HostRecover(p, sig, p.keccak(EncodeUnsigned(tx)));
    Some(AddressOfKey(p, key))
  }

  // ----- properties -----

  /** Whatever was decoded with 35 <= v: extraction never underflows and yields the parity of v - 35,
      up to the bound on `v`. Below that, `v` itself is taken. */
  lemma DecodedRecoveryId(tx: Signed)
    requires ConsistentChainId(tx)
    ensures ExtractRecoveryId(tx)
         == if tx.v >= I32_MAX then Err(InvalidRecoveryId)
            else if tx.v >= 35 then Ok((tx.v - 35) % 2)
            else if tx.v < 4 then Ok(tx.v)
            else Err(InvalidRecoveryId)
  {
    if tx.v >= 35 {
      assert tx.v - 2 * ((tx.v - 35) / 2) - 35 == (tx.v - 35) % 2;
    }
  }

  /** For every transaction, decoded or not. With a chain id extraction is the inverse of the `v` of EIP-155
      up to the bound, and aborts exactly if `v` is below every such value. Without one it takes `v`. */
  lemma ExtractionExact(tx: Signed, id: RecoveryId)
    ensures tx.unsigned.chainId.Some? ==>
              (ExtractRecoveryId(tx) == Ok(id) <==> EncodeV(tx.unsigned.chainId, id) == Ok(tx.v) && tx.v < I32_MAX)
    ensures tx.unsigned.chainId.None? ==> (ExtractRecoveryId(tx) == Ok(id) <==> tx.v == id)
    ensures ExtractRecoveryId(tx).Panic? <==> tx.unsigned.chainId.Some? && tx.v < 2 * tx.unsigned.chainId.value + 35
    ensures ExtractRecoveryId(tx).Err? ==> ExtractRecoveryId(tx) == Err(InvalidRecoveryId)
  {
  }

  /** The `v` that a transaction is built with, and when building aborts. */
  lemma VOfMadeSigned(tx: Unsigned, sig: CompactSignature, id: RecoveryId)
    ensures tx.chainId.None? ==> MakeSigned(tx, sig, id).Ok? && MakeSigned(tx, sig, id).value.v - 27 == id
    ensures tx.chainId.Some? ==>
              var c := tx.chainId.value;
              && (MakeSigned(tx, sig, id) == Panic <==> 2 * c + 35 + id >= U256_LIMIT)
              && (MakeSigned(tx, sig, id).Ok? ==> MakeSigned(tx, sig, id).value.v - 35 == 2 * c + id)
    ensures !MakeSigned(tx, sig, id).Err?
  {
  }

  /** Every transaction that comes off the wire has a consistent chain id, so none aborts here. */
  lemma DecodedIsConsistent(b: bytes)
    ensures DecodeSigned(b).Ok? ==> ConsistentChainId(DecodeSigned(b).value)
    ensures DecodeSigned(b).Ok? ==> !ExtractRecoveryId(DecodeSigned(b).value).Panic?
  {
    hide UintAt, DecodeRecipient, DataAt;
    if DecodeSigned(b).Ok? {
      DecodedRecoveryId(DecodeSigned(b).value);
    }
  }

  /** Extraction gives back the recovery id that a transaction was built with exactly when it has a
      chain id and its `v` is below the bound. */
  lemma ExtractionInvertsMakeSigned(tx: Unsigned, sig: CompactSignature, id: RecoveryId)
    requires MakeSigned(tx, sig, id).Ok?
    ensures ExtractRecoveryId(MakeSigned(tx, sig, id).value) == Ok(id)
       <==> tx.chainId.Some? && tx.chainId.value * 2 + 35 + id < I32_MAX
  {
  }

  /** Under the same condition the raw signature is the one it was built from. */
  lemma RawSignatureInvertsMakeSigned(tx: Unsigned, sig: CompactSignature, id: RecoveryId)
    requires tx.chainId.Some? && tx.chainId.value * 2 + 35 + id < I32_MAX
    ensures var signed := MakeSigned(tx, sig, id);
            && signed.Ok? && signed.value.unsigned == tx
            && CompactOf(signed.value) == sig && RawSignatureOf(signed.value) == Ok(sig + [id])
  {
    FixedBigEndianRoundTrip(sig[..32]);
    FixedBigEndianRoundTrip(sig[32..]);
    assert sig == sig[..32] + sig[32..];
  }

  /** What was built survives the wire exactly when `v` fits 64 bits and, with a chain id, the
      recovery id is 0 or 1. */
  lemma MadeSignedRoundTrip(tx: Unsigned, sig: CompactSignature, id: RecoveryId, rest: bytes)
    requires MakeSigned(tx, sig, id).Ok?
    ensures var signed := MakeSigned(tx, sig, id).value;
            DecodeSigned(EncodeSigned(signed) + rest) == Ok(signed)
            <==> signed.v < U64_LIMIT && (tx.chainId.Some? ==> id < 2)
  {
    hide EncodeSigned, DecodeSigned;
    SignedRoundTrip(MakeSigned(tx, sig, id).value, rest);
  }

  /** Server and runtime recover the same signer from the same transaction, and fail together. */
  lemma RecoveriesAgree(p: Primitives, tx: Signed, signer: H160)
    ensures RecoverEthAddress(p, tx) == Ok(signer)
       <==> RawSignatureOf(tx).Ok? && RecoverSigner(p, tx.unsigned, RawSignatureOf(tx).value) == Some(signer)
  {
    hide EncodeUnsigned, FixedBigEndian;
    if ExtractRecoveryId(tx).Ok? {
      var id := ExtractRecoveryId(tx).value;
      var raw := CompactOf(tx) + [id];
      assert raw[..64] == CompactOf(tx) && raw[64] == id;
      var key := p.ecdsaRecover(CompactOf(tx), id, p.keccak(EncodeUnsigned(tx.unsigned)));
      if key.Some? {
        assert ([0x04] + key.value)[1..] == key.value;
      }
    }
  }

  /** Why the server recovers no signer: the recovery id cannot be extracted, or it recovers no key. The form
      of the key is never the reason. */
  lemma RecoveryErrors(p: Primitives, tx: Signed)
    requires !RecoverEthAddress(p, tx).Ok?
    ensures RecoverEthAddress(p, tx)
         == if ExtractRecoveryId(tx).Panic? then Panic
            else if ExtractRecoveryId(tx).Err? then Err(InvalidRecoveryId)
            else Err(InvalidSignature)
  {
    hide EncodeUnsigned, FixedBigEndian, CompactOf;
  }
}
