/** How Ethereum addresses and Substrate accounts are tied together. */
module Accounts {
  import opened Outcomes
  import opened Numbers
  import opened Crypto
  import opened Scale

  /** The account of an Ethereum address. */
  function GetAccountId(p: Primitives, address: H160): H256 {
    p.blake2(Ascii("AccountId32:") + address)
  }

  // ----- contract addresses -----

  function ContractPreimage(deployer: H256, codeHash: H256, data: ScaleBlob, salt: ScaleBlob): bytes {
    Ascii("contract_addr_v1") + deployer + codeHash + EncodeVec(data) + EncodeVec(salt)
  }

  /** The first 20 bytes of the hash; shared by the runtime and the server. */
  function EvmContractAddress(p: Primitives, deployer: H256, codeHash: H256, data: ScaleBlob, salt: ScaleBlob): H160 {
    p.blake2(ContractPreimage(deployer, codeHash, data, salt))[..20]
  }

  /** The account that the runtime instantiates a contract at. */
  function RuntimeContractAddress(p: Primitives, deployer: H256, codeHash: H256, data: ScaleBlob,
                                  salt: ScaleBlob): H256 {
    GetAccountId(p, EvmContractAddress(p, deployer, codeHash, data, salt))
  }

  /** The hashed string binds all four parts: no two deployments share one. */
  lemma ContractPreimageInjective(deployer1: H256, codeHash1: H256, data1: ScaleBlob, salt1: ScaleBlob,
                                  deployer2: H256, codeHash2: H256, data2: ScaleBlob, salt2: ScaleBlob)
    requires ContractPreimage(deployer1, codeHash1, data1, salt1)
             == ContractPreimage(deployer2, codeHash2, data2, salt2)
    ensures deployer1 == deployer2 && codeHash1 == codeHash2 && data1 == data2 && salt1 == salt2
  {
    hide EncodeVec, DecodeVec;
    var a := ContractPreimage(deployer1, codeHash1, data1, salt1);
    var b := ContractPreimage(deployer2, codeHash2, data2, salt2);
    assert a[16..48] == deployer1 && b[16..48] == deployer2;
    assert a[48..80] == codeHash1 && b[48..80] == codeHash2;
    assert a[80..] == EncodeVec(data1) + EncodeVec(salt1) && b[80..] == EncodeVec(data2) + EncodeVec(salt2);
    VecIsPrefixCode(a[80..], data1, EncodeVec(salt1));
    VecIsPrefixCode(a[80..], data2, EncodeVec(salt2));
    VecIsPrefixCode(EncodeVec(salt1), salt1, []);
    VecIsPrefixCode(EncodeVec(salt1), salt2, []);
    assert EncodeVec(salt1) == EncodeVec(salt1) + [];
  }

  // ----- lookup and dispatch -----

  /** The account behind an address of an extrinsic; other address forms are not supported. */
  function Lookup(p: Primitives, a: MultiAddress): Option<H256> {
    match a
    case Id(id) => Some(id)
    case Address20(d) => Some(GetAccountId(p, d))
    case _ => None
  }

  datatype Origin = Root | Signed(account: H256) | Unsigned

  datatype OriginError = BadOrigin

  /** A dispatched call that names an Ethereum source must be signed by that source's account. */
  function EnsureSignedSource(p: Primitives, origin: Origin, source: Option<H160>): Outcome<H256, OriginError> {
    match origin
    case Signed(account) =>
      if source.Some? && account != GetAccountId(p, source.value) then Err(BadOrigin) else Ok(account)
    case _ => Err(BadOrigin)
  }

  /** A dispatched call runs for an account exactly when that account signed it, and any source that it
      names is an address of that account. Everything else is refused. */
  lemma SignedSourceExact(p: Primitives, origin: Origin, source: Option<H160>, account: H256)
    ensures EnsureSignedSource(p, origin, source) == Ok(account)
       <==> origin == Origin.Signed(account) && (source.Some? ==> GetAccountId(p, source.value) == account)
    ensures !EnsureSignedSource(p, origin, source).Ok? ==> EnsureSignedSource(p, origin, source) == Err(BadOrigin)
  {
  }

  // ----- what the hashes bind -----

  /** Two inputs with one hash. */
  ghost predicate Collides(hash: bytes -> H256, width: nat, x: bytes, y: bytes)
    requires width <= 32
  {
    x != y && hash(x)[..width] == hash(y)[..width]
  }

  /** Two addresses share an account only if the hash collides on the strings that stand for them. */
  lemma AccountsCollide(p: Primitives, a: H160, b: H160)
    ensures var x, y := Ascii("AccountId32:") + a, Ascii("AccountId32:") + b;
            a != b ==> (GetAccountId(p, a) == GetAccountId(p, b) <==> Collides(p.blake2, 32, x, y))
  {
    var x, y := Ascii("AccountId32:") + a, Ascii("AccountId32:") + b;
    assert x[12..] == a && y[12..] == b;
    assert p.blake2(x)[..32] == p.blake2(x) && p.blake2(y)[..32] == p.blake2(y);
  }

  /** Two deployments that differ in deployer, code hash, data or salt share an address only if the first 20
      bytes of the hash collide on their preimages. */
  lemma DeploymentsCollide(p: Primitives, deployer1: H256, codeHash1: H256, data1: ScaleBlob, salt1: ScaleBlob,
                           deployer2: H256, codeHash2: H256, data2: ScaleBlob, salt2: ScaleBlob)
    ensures var x := ContractPreimage(deployer1, codeHash1, data1, salt1);
            var y := ContractPreimage(deployer2, codeHash2, data2, salt2);
            var a := EvmContractAddress(p, deployer1, codeHash1, data1, salt1);
            var b := EvmContractAddress(p, deployer2, codeHash2, data2, salt2);
            (deployer1, codeHash1, data1, salt1) != (deployer2, codeHash2, data2, salt2) ==>
              (a == b <==> Collides(p.blake2, 20, x, y))
  {
    hide ContractPreimage;
    if ContractPreimage(deployer1, codeHash1, data1, salt1) == ContractPreimage(deployer2, codeHash2, data2, salt2) {
      ContractPreimageInjective(deployer1, codeHash1, data1, salt1, deployer2, codeHash2, data2, salt2);
    }
  }
}
