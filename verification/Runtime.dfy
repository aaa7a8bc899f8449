/** The runtime's side: rebuilding the Ethereum transaction behind an extrinsic, and checking its
    signature against that transaction. */
module Runtime {
  import opened Outcomes
  import opened Numbers
  import opened Arithmetic
  import opened Rlp
  import opened LegacyTransaction
  import opened Crypto
  import opened Signature
  import opened Scale
  import opened Accounts

  const CHAIN_ID: u64 := 596
  const FEE_MISMATCH: u8 := 1

  datatype Weight = Weight(refTime: u64, proofSize: u64)

  datatype Call =
    | EthInstantiate(source: Option<H160>, code: ScaleBlob, data: ScaleBlob, salt: ScaleBlob,
                     ethValue: u128, ethGasPrice: u64, ethGasLimit: u128,
                     gasLimit: Weight, storageDepositLimit: Option<u128>)
    | EthCall(source: Option<H160>, to: H160, input: Blob,
              ethValue: u128, ethGasPrice: u64, ethGasLimit: u128,
              gasLimit: Weight, storageDepositLimit: Option<u128>)
    | OtherCall(encoded: bytes)

  datatype Era = Immortal | Mortal(period: u64, phase: u64)

  /** The signed extensions; those that conversion passes over are kept as they are. */
  datatype Extra = Extra(era: Era, nonce: u32, others: bytes)

  datatype MultiSignature = Ethereum(sig: RawSignature) | OtherSignature(kind: nat, encoded: bytes)

  datatype SignaturePayload = SignaturePayload(address: MultiAddress, signature: MultiSignature, extra: Extra)

  datatype Extrinsic = Extrinsic(call: Call, signature: Option<SignaturePayload>)

  datatype Checked = Checked(signed: Option<(H256, Extra)>, call: Call)

  datatype ValidityError = BadProof | CallError | Custom(code: u8) | CannotLookup

  /** Integer overflow in the runtime: the build either aborts on it or wraps around. */
  datatype Overflow = Abort | Wrap

  datatype Environment = Environment(
    p: Primitives,
    overflow: Overflow,
    weightToFee: Weight -> u128,
    // the check of extrinsics without an Ethereum signature
    genericCheck: Extrinsic -> Outcome<Checked, ValidityError>
  )

  // ----- adapters: transactions from the parts of a call -----

  lemma CallInputFits(c: CallInput)
    ensures |EncodeCallInput(c)| < BLOB_LIMIT
  {
  }

  function FromInstantiate(c: CallInput, value: u256, gasPrice: u256, gas: u256, nonce: u256, chainId: u256): Unsigned {
    CallInputFits(c);
    Unsigned.Unsigned(Some(chainId), gas, gasPrice, EncodeCallInput(c), nonce, None, value)
  }

  function FromCall(to: H160, input: Blob, value: u256, gasPrice: u256, gas: u256, nonce: u256,
                    chainId: u256): Unsigned {
    Unsigned.Unsigned(Some(chainId), gas, gasPrice, input, nonce, Some(to), value)
  }

  // ----- fees -----

  function U128(overflow: Overflow, n: nat): Outcome<u128, ValidityError> {
    if n < U128_LIMIT then Ok(n) else if overflow.Abort? then Panic else Ok(n % U128_LIMIT)
  }

  /** The fee that the transaction offers must cover the one computed from weight and deposit. */
  function ValidateFee(env: Environment, gasPrice: u64, gasLimit: u128, weight: Weight, deposit: u128)
    : Outcome<(), ValidityError>
  {
    var ethFee :- U128(env.overflow, gasLimit * gasPrice);
    var actualFee :- U128(env.overflow, env.weightToFee(weight) + deposit);
    if ethFee < actualFee then Err(Custom(FEE_MISMATCH)) else Ok(())
  }

  /** All outcomes. Without overflow the two fees are compared, in both builds, and a refusal has the code of
      a fee mismatch. With an overflow on either side, one build aborts, and the other compares what is
      left of the fees. */
  lemma ValidateFeeExact(env: Environment, gasPrice: u64, gasLimit: u128, weight: Weight, deposit: u128)
    ensures var offered, computed := gasLimit * gasPrice, env.weightToFee(weight) + deposit;
            ValidateFee(env, gasPrice, gasLimit, weight, deposit)
            == if (offered >= U128_LIMIT || computed >= U128_LIMIT) && env.overflow.Abort? then Panic
               else if offered % U128_LIMIT >= computed % U128_LIMIT then Ok(())
               else Err(Custom(1))
  {
    var offered, computed := gasLimit * gasPrice, env.weightToFee(weight) + deposit;
    if offered < U128_LIMIT {
      DivModUnique(offered, U128_LIMIT, 0, offered);
    }
    if computed < U128_LIMIT {
      DivModUnique(computed, U128_LIMIT, 0, computed);
    }
  }

  /** An accepted offer covers the fee, whatever is offered, exactly when the computed fee cannot wrap
      around: in an aborting build always, in a wrapping build when it fits 128 bits. */
  lemma AcceptedFeeIsCovered(env: Environment, weight: Weight, deposit: u128)
    ensures (forall gasPrice: u64, gasLimit: u128 ::
               ValidateFee(env, gasPrice, gasLimit, weight, deposit).Ok? ==>
                 gasLimit * gasPrice >= env.weightToFee(weight) + deposit)
       <==> env.overflow.Abort? || env.weightToFee(weight) + deposit < U128_LIMIT
  {
    var fee := env.weightToFee(weight) + deposit;
    if env.overflow.Abort? || fee < U128_LIMIT {
      forall gasPrice: u64, gasLimit: u128 | ValidateFee(env, gasPrice, gasLimit, weight, deposit).Ok?
        ensures gasLimit * gasPrice >= fee
      {
        AcceptedOfferCovers(env, gasPrice, gasLimit, weight, deposit);
      }
    } else {
      var wrapped: u128 := fee - U128_LIMIT;
      assert ValidateFee(env, 1, wrapped, weight, deposit).Ok? && wrapped * 1 < fee;
    }
  }

  lemma AcceptedOfferCovers(env: Environment, gasPrice: u64, gasLimit: u128, weight: Weight, deposit: u128)
    requires ValidateFee(env, gasPrice, gasLimit, weight, deposit).Ok?
    requires env.overflow.Abort? || env.weightToFee(weight) + deposit < U128_LIMIT
    ensures gasLimit * gasPrice >= env.weightToFee(weight) + deposit
  {
    var offered := gasLimit * gasPrice;
    if offered >= U128_LIMIT {
      assert offered >= env.weightToFee(weight) + deposit || env.overflow.Abort?;
    }
  }

  // ----- conversion -----

  /** Only immortal extrinsics are accepted; the nonce is the account's. */
  function ValidateExtra(extra: Extra): Outcome<u256, ValidityError> {
    if extra.era != Immortal then Err(BadProof) else Ok(extra.nonce)
  }

  datatype EthTransaction = Legacy(tx: Unsigned) | Typed(kind: nat, encoded: bytes)

  function OrZero(deposit: Option<u128>): u128 {
    if deposit.Some? then deposit.value else 0
  }

  function Convert(env: Environment, call: Call, extra: Extra): Outcome<(EthTransaction, H160, Extra), ValidityError> {
    match call
    case EthInstantiate(source, code, data, salt, value, gasPrice, gas, weight, deposit) =>
      var from :- OkOr(source, BadProof);
      var _ :- ValidateFee(env, gasPrice, gas, weight, OrZero(deposit));
      var nonce :- ValidateExtra(extra);
      Ok((Legacy(FromInstantiate(CallInput(code, data, salt), value, gasPrice, gas, nonce, CHAIN_ID)), from, extra))
    case EthCall(source, to, input, value, gasPrice, gas, weight, deposit) =>
      var from :- OkOr(source, BadProof);
      var _ :- ValidateFee(env, gasPrice, gas, weight, OrZero(deposit));
      var nonce :- ValidateExtra(extra);
      Ok((Legacy(FromCall(to, input, value, gasPrice, gas, nonce, CHAIN_ID)), from, extra))
    case OtherCall(_) => Err(CallError)
  }

  function AsLegacy(tx: EthTransaction): Outcome<Unsigned, ValidityError> {
    match tx
    case Legacy(unsigned) => Ok(unsigned)
    case Typed(_, _) => Err(CallError)
  }

  // ----- the check -----

  function Check(env: Environment, xt: Extrinsic): Outcome<Checked, ValidityError> {
    match xt.signature
    case Some(SignaturePayload(address, Ethereum(sig), extra)) =>
      var (ethTx, source, ethExtra) :- Convert(env, xt.call, extra);
      var tx :- AsLegacy(ethTx);
      var signer :- OkOr(RecoverSigner(env.p, tx, sig), BadProof);
      if signer != source then Err(BadProof) else
        var account :- OkOr(Lookup(env.p, Address20(signer)), CannotLookup);
        var expected :- OkOr(Lookup(env.p, address), CannotLookup);
        if account != expected then Err(BadProof) else Ok(Checked(Some((account, ethExtra)), xt.call))
    case _ => env.genericCheck(xt)
  }

  // ----- what acceptance means -----

  /** The recipient and the input that a call stands for. */
  function RecipientOf(call: Call): Option<H160>
    requires !call.OtherCall?
  {
    if call.EthCall? then Some(call.to) else None
  }

  function InputOf(call: Call): (input: Blob)
    requires !call.OtherCall?
  {
    if call.EthCall? then call.input else
      CallInputFits(CallInput(call.code, call.data, call.salt));
      EncodeCallInput(CallInput(call.code, call.data, call.salt))
  }

  /** The nine items that EIP-155 has the wallet sign. */
  function Eip155Items(nonce: u256, gasPrice: u256, gas: u256, to: Option<H160>, value: u256, input: Blob,
                       chainId: u256)
    : (items: seq<Item>)
  {
    [Uint(nonce), Uint(gasPrice), Uint(gas), Recipient(to), Uint(value), input, Uint(chainId), [], []]
  }

  function SigningItems(call: Call, nonce: u32): seq<Item>
    requires !call.OtherCall?
  {
    Eip155Items(nonce, call.ethGasPrice, call.ethGasLimit, RecipientOf(call), call.ethValue, InputOf(call), CHAIN_ID)
  }

  /** The deposit that a call has to pay for: its limit, and nothing if it has none. */
  function DepositOf(call: Call): u128
    requires !call.OtherCall?
  {
    match call.storageDepositLimit
    case Some(limit) => limit
    case None => 0
  }

  predicate FeeIsOffered(env: Environment, call: Call)
    requires !call.OtherCall?
  {
    ValidateFee(env, call.ethGasPrice, call.ethGasLimit, call.gasLimit, DepositOf(call)).Ok?
  }

  /** The raw signature recovers to `signer` over the RLP list of the signing items. */
  predicate SignedBy(p: Primitives, call: Call, nonce: u32, sig: RawSignature, signer: H160)
    requires !call.OtherCall?
  {
    var items := SigningItems(call, nonce);
    |Payload(items)| < U64_LIMIT &&
    var key := HostRecover(p, sig, p.keccak(EncodeList(items)));
    key.Some? && AddressOfKey(p, key.value) == signer
  }

  /** The address of the extrinsic stands for the account of the Ethereum source. */
  predicate AddressIsOf(p: Primitives, address: MultiAddress, signer: H160) {
    || address == Id(GetAccountId(p, signer))
    || (address.Address20? && GetAccountId(p, address.data20) == GetAccountId(p, signer))
  }

  predicate Acceptable(env: Environment, call: Call, address: MultiAddress, sig: RawSignature, extra: Extra) {
    && !call.OtherCall?
    && call.source.Some?
    && extra.era == Immortal
    && FeeIsOffered(env, call)
    && SignedBy(env.p, call, extra.nonce, sig, call.source.value)
    && AddressIsOf(env.p, address, call.source.value)
  }

  /** The transaction that a call, nonce and chain id determine, field by field. */
  predicate Rebuilds(call: Call, nonce: u32, tx: Unsigned)
    requires !call.OtherCall?
  {
    && tx.chainId == Some(596) && tx.nonce == nonce && tx.gasPrice == call.ethGasPrice
    && tx.gas == call.ethGasLimit && tx.value == call.ethValue
    && tx.to == RecipientOf(call) && tx.input == InputOf(call)
  }

  /** Conversion succeeds exactly on an Ethereum call with a source, a covered fee and an immortal
      era, and then rebuilds the transaction whose signing items are those of the call. */
  lemma ConvertRebuilds(env: Environment, call: Call, extra: Extra)
    ensures Convert(env, call, extra).Ok? <==>
              !call.OtherCall? && call.source.Some? && FeeIsOffered(env, call) && extra.era == Immortal
    ensures Convert(env, call, extra).Ok? ==>
              var (ethTx, source, ethExtra) := Convert(env, call, extra).value;
              ethTx.Legacy? && Rebuilds(call, extra.nonce, ethTx.tx) && source == call.source.value && ethExtra == extra
  {
    hide EncodeCallInput, ValidateFee;
  }

  lemma RebuiltItems(call: Call, nonce: u32, tx: Unsigned)
    requires !call.OtherCall? && Rebuilds(call, nonce, tx)
    ensures UnsignedItems(tx) == SigningItems(call, nonce)
    ensures |Payload(SigningItems(call, nonce))| < U64_LIMIT
    ensures EncodeUnsigned(tx) == EncodeList(SigningItems(call, nonce))
  {
    hide EncodeData, EncodeCallInput, EncodeList, Payload, Uint;
    PayloadFits(tx, UnsignedItems(tx)[6..]);
    assert UnsignedItems(tx) == SigningItems(call, nonce);
  }

  /** The signed bytes bind the call: two Ethereum calls with the same signing payload have the same nonce,
      value, gas price and gas limit, are of the same kind, and have the same recipient and input, or the
      same code, data and salt. */
  lemma PayloadBindsCall(c: Call, nonce1: u32, d: Call, nonce2: u32)
    requires !c.OtherCall? && !d.OtherCall?
    ensures |Payload(SigningItems(c, nonce1))| < U64_LIMIT && |Payload(SigningItems(d, nonce2))| < U64_LIMIT
    ensures EncodeList(SigningItems(c, nonce1)) == EncodeList(SigningItems(d, nonce2)) ==>
              && nonce1 == nonce2 && c.ethValue == d.ethValue
              && c.ethGasPrice == d.ethGasPrice && c.ethGasLimit == d.ethGasLimit
              && (c.EthCall? <==> d.EthCall?)
              && (c.EthCall? ==> c.to == d.to && c.input == d.input)
              && (c.EthInstantiate? ==> c.code == d.code && c.data == d.data && c.salt == d.salt)
  {
    hide SigningItems, EncodeUnsigned, EncodeCallInput, EncodeList, Payload;
    var a := RebuiltOf(c, nonce1);
    var b := RebuiltOf(d, nonce2);
    RebuiltItems(c, nonce1, a);
    RebuiltItems(d, nonce2, b);
    EncodeUnsignedInjective(a, b);
    if c.EthInstantiate? && d.EthInstantiate? {
      EncodeCallInputInjective(CallInput(c.code, c.data, c.salt), CallInput(d.code, d.data, d.salt));
    }
  }

  lemma RebuiltOf(call: Call, nonce: u32) returns (tx: Unsigned)
    requires !call.OtherCall?
    ensures Rebuilds(call, nonce, tx)
  {
    hide EncodeCallInput;
    tx := Unsigned.Unsigned(Some(CHAIN_ID), call.ethGasLimit, call.ethGasPrice, InputOf(call), nonce, RecipientOf(call),
                            call.ethValue);
  }

  /** Why an extrinsic with an Ethereum signature is refused, in the order in which the reasons count; and what
      it is accepted as, when none applies. */
  lemma CheckRefusals(env: Environment, call: Call, address: MultiAddress, sig: RawSignature, extra: Extra)
    ensures var result := Check(env, Extrinsic(call, Some(SignaturePayload(address, Ethereum(sig), extra))));
            if call.OtherCall? then result == Err(CallError)
            else if call.source.None? then result == Err(BadProof)
            else if !FeeIsOffered(env, call) then
              result.IsFailure() && result.PropagateFailure<()>() ==
                ValidateFee(env, call.ethGasPrice, call.ethGasLimit, call.gasLimit, DepositOf(call))
            else if extra.era != Immortal || !SignedBy(env.p, call, extra.nonce, sig, call.source.value) then
              result == Err(BadProof)
            else if !address.Id? && !address.Address20? then result == Err(CannotLookup)
            else if !AddressIsOf(env.p, address, call.source.value) then result == Err(BadProof)
            else result == Ok(Checked(Some((GetAccountId(env.p, call.source.value), extra)), call))
  {
    hide ValidateFee, EncodeUnsigned, SigningItems, EncodeList, HostRecover, GetAccountId, Payload, EncodeCallInput;
    ConvertRebuilds(env, call, extra);
    if Convert(env, call, extra).Ok? {
      var (ethTx, source, ethExtra) := Convert(env, call, extra).value;
      RebuiltItems(call, extra.nonce, ethTx.tx);
      assert RecoverSigner(env.p, ethTx.tx, sig) == Some(source)
        <==> SignedBy(env.p, call, extra.nonce, sig, source);
    }
  }

  /** An extrinsic with an Ethereum signature is accepted exactly when it is acceptable, and then for
      the account of its source, with its own extra and call. */
  lemma EthereumCheckExact(env: Environment, call: Call, address: MultiAddress, sig: RawSignature, extra: Extra,
                           checked: Checked)
    ensures Check(env, Extrinsic(call, Some(SignaturePayload(address, Ethereum(sig), extra)))) == Ok(checked)
       <==> Acceptable(env, call, address, sig, extra)
            && checked == Checked(Some((GetAccountId(env.p, call.source.value), extra)), call)
  {
    hide Check, ValidateFee, FeeIsOffered, SignedBy, AddressIsOf, GetAccountId;
    CheckRefusals(env, call, address, sig, extra);
    AddressForms(env.p, address);
  }

  lemma AddressForms(p: Primitives, address: MultiAddress)
    ensures forall signer :: AddressIsOf(p, address, signer) ==> address.Id? || address.Address20?
  {
  }

  predicate EthereumSigned(xt: Extrinsic) {
    xt.signature.Some? && xt.signature.value.signature.Ethereum?
  }

  /** All extrinsics. Which are accepted, and as what: with an Ethereum signature exactly the acceptable
      ones; all others, inherents included, have the result of the generic check, be it acceptance, refusal
      or abort. */
  lemma CheckExact(env: Environment, xt: Extrinsic, checked: Checked)
    ensures EthereumSigned(xt) ==>
              var SignaturePayload(address, Ethereum(sig), extra) := xt.signature.value;
              (Check(env, xt) == Ok(checked) <==>
                 && Acceptable(env, xt.call, address, sig, extra)
                 && checked == Checked(Some((GetAccountId(env.p, xt.call.source.value), extra)), xt.call))
    ensures !EthereumSigned(xt) ==> Check(env, xt) == env.genericCheck(xt)
  {
    hide Acceptable, Convert, GetAccountId;
    if EthereumSigned(xt) {
      var SignaturePayload(address, Ethereum(sig), extra) := xt.signature.value;
      assert xt == Extrinsic(xt.call, Some(SignaturePayload(address, Ethereum(sig), extra)));
      EthereumCheckExact(env, xt.call, address, sig, extra, checked);
    }
  }

  /** Soundness at dispatch: the account that the check signs the call for passes the source test of
      the dispatched call, so an accepted call never fails there. */
  lemma AcceptedPassesDispatch(env: Environment, call: Call, address: MultiAddress, sig: RawSignature, extra: Extra)
    requires Check(env, Extrinsic(call, Some(SignaturePayload(address, Ethereum(sig), extra)))).Ok?
    ensures var checked := Check(env, Extrinsic(call, Some(SignaturePayload(address, Ethereum(sig), extra)))).value;
            && checked.call == call && checked.signed.Some? && !call.OtherCall?
            && Lookup(env.p, address) == Some(checked.signed.value.0)
            && EnsureSignedSource(env.p, Origin.Signed(checked.signed.value.0), call.source)
               == Ok(checked.signed.value.0)
  {
    hide Check, Acceptable;
    var checked := Check(env, Extrinsic(call, Some(SignaturePayload(address, Ethereum(sig), extra)))).value;
    EthereumCheckExact(env, call, address, sig, extra, checked);
    AcceptableParts(env, call, address, sig, extra);
  }

  /** The origin that a checked extrinsic is dispatched with. */
  function OriginOf(checked: Checked): Origin {
    match checked.signed
    case Some((account, _)) => Origin.Signed(account)
    case None => Origin.Unsigned
  }

  /** However an extrinsic was signed, and whatever the generic check lets through: a call that names an
      Ethereum source is dispatched only if it was accepted for that source's account, and runs for it. */
  lemma NamedSourceIsTheSigner(env: Environment, xt: Extrinsic, source: H160, account: H256)
    requires Check(env, xt).Ok?
    requires EnsureSignedSource(env.p, OriginOf(Check(env, xt).value), Some(source)) == Ok(account)
    ensures account == GetAccountId(env.p, source)
    ensures Check(env, xt).value.signed.Some? && Check(env, xt).value.signed.value.0 == GetAccountId(env.p, source)
  {
    hide Check, GetAccountId;
    SignedSourceExact(env.p, OriginOf(Check(env, xt).value), Some(source), account);
  }

  /** An accepted Ethereum extrinsic offers at least the fee of its weight and its deposit, unless that sum
      wraps around in a build that lets it. */
  lemma AcceptedPaysItsFee(env: Environment, call: Call, address: MultiAddress, sig: RawSignature, extra: Extra)
    requires Check(env, Extrinsic(call, Some(SignaturePayload(address, Ethereum(sig), extra)))).Ok?
    ensures !call.OtherCall?
    ensures env.overflow.Abort? || env.weightToFee(call.gasLimit) + DepositOf(call) < U128_LIMIT ==>
              call.ethGasPrice * call.ethGasLimit >= env.weightToFee(call.gasLimit) + DepositOf(call)
  {
    hide Check, ValidateFee, SignedBy, AddressIsOf;
    CheckRefusals(env, call, address, sig, extra);
    if env.overflow.Abort? || env.weightToFee(call.gasLimit) + DepositOf(call) < U128_LIMIT {
      AcceptedOfferCovers(env, call.ethGasPrice, call.ethGasLimit, call.gasLimit, DepositOf(call));
    }
  }

  lemma AcceptableParts(env: Environment, call: Call, address: MultiAddress, sig: RawSignature, extra: Extra)
    requires Acceptable(env, call, address, sig, extra)
    ensures !call.OtherCall? && call.source.Some?
    ensures Lookup(env.p, address) == Some(GetAccountId(env.p, call.source.value))
  {
  }
}
