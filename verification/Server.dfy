/** The server's side: turning the raw bytes a wallet submits into a signed extrinsic, and the
    contract address it reports for a deployment. */
module Server {
  import opened Outcomes
  import opened Numbers
  import opened Rlp
  import opened LegacyTransaction
  import opened Crypto
  import opened Signature
  import opened Scale
  import opened Accounts
  import opened Runtime

  datatype ServerError = RlpError(rlp: DecoderError) | SignatureRefused | DryRunRefused | ConversionError
                       | CodecError(scale: ScaleError)

  datatype DryRunRequest = DryRunRequest(from: H160, input: Blob, nonce: u256, to: Option<H160>, value: u256)

  datatype Limits = Limits(gasLimit: Weight, storageDepositLimit: Option<u128>)

  /** The answer of the node to a dry run. */
  type DryRun = DryRunRequest -> Outcome<Limits, ServerError>

  function Narrow(n: nat, limit: nat): (r: Outcome<nat, ServerError>)
    ensures r.Ok? ==> r.value == n < limit
  {
    if n < limit then Ok(n) else Err(ConversionError)
  }

  /** The call that carries a transaction: a recipient makes it a call, none makes it a deployment
      whose input is split into code, data and salt. */
  function BuildCall(tx: Unsigned, from: H160, limits: Limits): Outcome<Call, ServerError> {
    match tx.to
    case Some(to) =>
      var value :- Narrow(tx.value, U128_LIMIT);
      var gasPrice :- Narrow(tx.gasPrice, U64_LIMIT);
      var gas :- Narrow(tx.gas, U128_LIMIT);
      Ok(EthCall(Some(from), to, tx.input, value, gasPrice, gas, limits.gasLimit, limits.storageDepositLimit))
    case None =>
      var (c, _) :- DecodeCallInput(tx.input).MapErr(e => CodecError(e));
      var value :- Narrow(tx.value, U128_LIMIT);
      var gasPrice :- Narrow(tx.gasPrice, U64_LIMIT);
      var gas :- Narrow(tx.gas, U128_LIMIT);
      Ok(EthInstantiate(Some(from), c.code, c.data, c.salt, value, gasPrice, gas,
                        limits.gasLimit, limits.storageDepositLimit))
  }

  /** `extra` is what the node's metadata and account nonce make of the default parameters. */
  function SendRawTransaction(p: Primitives, dryRun: DryRun, extra: Extra, transaction: bytes)
    : Outcome<Extrinsic, ServerError>
  {
    var tx :- DecodeSigned(transaction).MapErr(e => RlpError(e));
    var from :- RecoverEthAddress(p, tx).MapErr(_ => SignatureRefused);
    var sig :- RawSignatureOf(tx).MapErr(_ => SignatureRefused);
    var u := tx.unsigned;
    var limits :- dryRun(DryRunRequest(from, u.input, u.nonce, u.to, u.value));
    var call :- BuildCall(u, from, limits);
    Ok(Extrinsic(call, Some(SignaturePayload(Id(GetAccountId(p, from)), Ethereum(sig), extra))))
  }

  // ----- from the wallet's bytes to an accepted extrinsic -----

  predicate NumbersFit(tx: Unsigned) {
    tx.value < U128_LIMIT && tx.gasPrice < U64_LIMIT && tx.gas < U128_LIMIT
  }

  /** A deployment's input is the encoding of a `CallInput` and nothing else. */
  predicate InputIsExact(tx: Unsigned) {
    tx.to == None ==> DecodeCallInput(tx.input).Ok? && DecodeCallInput(tx.input).value.1 == []
  }

  /** The call carries the transaction: the same numbers, and recipient and input, or the parts of the
      deploy input. */
  predicate Carries(tx: Unsigned, call: Call) {
    && !call.OtherCall?
    && call.ethValue == tx.value && call.ethGasPrice == tx.gasPrice && call.ethGasLimit == tx.gas
    && RecipientOf(call) == tx.to
    && (call.EthCall? ==> call.input == tx.input)
    && (call.EthInstantiate? ==>
          && DecodeCallInput(tx.input).Ok?
          && DecodeCallInput(tx.input).value.0 == CallInput(call.code, call.data, call.salt))
  }

  /** A call is built exactly when the numbers fit and a deployment's input starts with a `CallInput`; it
      carries the transaction, with the given source and limits. A deploy input is refused first. */
  lemma BuildCallSucceeds(tx: Unsigned, from: H160, limits: Limits)
    ensures BuildCall(tx, from, limits).Ok? <==>
              NumbersFit(tx) && (tx.to == None ==> DecodeCallInput(tx.input).Ok?)
    ensures BuildCall(tx, from, limits).Ok? ==>
              var call := BuildCall(tx, from, limits).value;
              && Carries(tx, call) && call.source == Some(from)
              && call.gasLimit == limits.gasLimit && call.storageDepositLimit == limits.storageDepositLimit
    ensures tx.to == None && DecodeCallInput(tx.input).Err? ==>
              BuildCall(tx, from, limits) == Err(CodecError(DecodeCallInput(tx.input).error))
    ensures (tx.to == None ==> DecodeCallInput(tx.input).Ok?) && !NumbersFit(tx) ==>
              BuildCall(tx, from, limits) == Err(ConversionError)
  {
    hide DecodeCallInput;
  }

  /** The meaning is preserved exactly when it can be: what the runtime rebuilds from the call is the
      signed transaction if and only if the chain id is the runtime's, the nonce is the account's, and
      a deployment's input leaves nothing over. */
  lemma RebuildsSignedTransaction(tx: Unsigned, from: H160, limits: Limits, nonce: u32)
    requires BuildCall(tx, from, limits).Ok?
    ensures !BuildCall(tx, from, limits).value.OtherCall?
    ensures Rebuilds(BuildCall(tx, from, limits).value, nonce, tx)
       <==> tx.chainId == Some(CHAIN_ID) && tx.nonce == nonce && InputIsExact(tx)
  {
    hide DecodeCallInput, EncodeCallInput;
    if tx.to == None {
      ReencodesExactly(tx.input);
    }
  }

  function RequestOf(from: H160, tx: Unsigned): DryRunRequest {
    DryRunRequest(from, tx.input, tx.nonce, tx.to, tx.value)
  }

  /** The extrinsic that a submission makes of a transaction: it carries the transaction for the recovered
      sender within the limits of the dry run, and is signed by the account of the sender, under its
      account address, with the signature of the transaction. */
  predicate IsSubmission(p: Primitives, tx: LegacyTransaction.Signed, from: H160, limits: Limits, extra: Extra,
                         xt: Extrinsic) {
    && Carries(tx.unsigned, xt.call) && xt.call.source == Some(from)
    && xt.call.gasLimit == limits.gasLimit && xt.call.storageDepositLimit == limits.storageDepositLimit
    && xt.signature.Some?
    && xt.signature.value.address == Id(GetAccountId(p, from))
    && xt.signature.value.signature.Ethereum? && RawSignatureOf(tx) == Ok(xt.signature.value.signature.sig)
    && xt.signature.value.extra == extra
  }

  /** When a submission succeeds, for any bytes, and with what. */
  lemma SubmissionSucceeds(p: Primitives, dryRun: DryRun, extra: Extra, transaction: bytes)
    ensures var decoded, result := DecodeSigned(transaction), SendRawTransaction(p, dryRun, extra, transaction);
            && (result.Ok? <==>
                  && decoded.Ok? && RecoverEthAddress(p, decoded.value).Ok?
                  && dryRun(RequestOf(RecoverEthAddress(p, decoded.value).value, decoded.value.unsigned)).Ok?
                  && NumbersFit(decoded.value.unsigned)
                  && (decoded.value.unsigned.to == None ==> DecodeCallInput(decoded.value.unsigned.input).Ok?))
            && (result.Ok? ==>
                  var from := RecoverEthAddress(p, decoded.value).value;
                  var limits := dryRun(RequestOf(from, decoded.value.unsigned)).value;
                  IsSubmission(p, decoded.value, from, limits, extra, result.value))
  {
    hide DecodeSigned, RecoverEthAddress, RawSignatureOf, EncodeUnsigned, DecodeCallInput, GetAccountId, RecoverSigner,
         BuildCall, Carries, NumbersFit;
    var decoded := DecodeSigned(transaction);
    if decoded.Ok? && RecoverEthAddress(p, decoded.value).Ok? {
      var from := RecoverEthAddress(p, decoded.value).value;
      RecoveriesAgree(p, decoded.value, from);
      var answer := dryRun(RequestOf(from, decoded.value.unsigned));
      if answer.Ok? {
        BuildCallSucceeds(decoded.value.unsigned, from, answer.value);
      }
    }
  }

  /** Why a submission fails. It aborts only when decoding or the dry run does. */
  lemma SubmissionFails(p: Primitives, dryRun: DryRun, extra: Extra, transaction: bytes)
    ensures var decoded, result := DecodeSigned(transaction), SendRawTransaction(p, dryRun, extra, transaction);
            match decoded
            case Panic => result == Panic
            case Err(e) => result == Err(RlpError(e))
            case Ok(tx) =>
              if !RecoverEthAddress(p, tx).Ok? then result == Err(SignatureRefused) else
                var from := RecoverEthAddress(p, tx).value;
                match dryRun(RequestOf(from, tx.unsigned))
                case Panic => result == Panic
                case Err(e) => result == Err(e)
                case Ok(limits) => result.Ok? == BuildCall(tx.unsigned, from, limits).Ok?
                                   && (!result.Ok? ==> result.IsFailure() && result.PropagateFailure<Call>()
                                                                             == BuildCall(tx.unsigned, from, limits))
  {
    hide DecodeSigned, RawSignatureOf, EncodeUnsigned, DecodeCallInput, GetAccountId, RecoverSigner, BuildCall,
         ExtractRecoveryId;
    var decoded := DecodeSigned(transaction);
    DecodedIsConsistent(transaction);
    if decoded.Ok? && RecoverEthAddress(p, decoded.value).Ok? {
      hide RecoverEthAddress;
      RecoveriesAgree(p, decoded.value, RecoverEthAddress(p, decoded.value).value);
    }
  }

  /** End to end: bytes that decode to a signed transaction for this chain, with numbers in range, an
      exact deploy input, the account's nonce, an immortal era and a covered fee, become an extrinsic
      that the runtime converts back to the very same transaction and accepts for the account of the
      address that the server recovered. */
  lemma SubmittedIsAccepted(env: Environment, dryRun: DryRun, extra: Extra, transaction: bytes)
    requires DecodeSigned(transaction).Ok?
    requires var tx := DecodeSigned(transaction).value;
             && RecoverEthAddress(env.p, tx).Ok?
             && NumbersFit(tx.unsigned) && InputIsExact(tx.unsigned) && tx.unsigned.chainId == Some(CHAIN_ID)
             && extra.era == Immortal && extra.nonce == tx.unsigned.nonce
    requires var u := DecodeSigned(transaction).value.unsigned;
             var from := RecoverEthAddress(env.p, DecodeSigned(transaction).value).value;
             var limits := dryRun(DryRunRequest(from, u.input, u.nonce, u.to, u.value));
             limits.Ok? && ValidateFee(env, u.gasPrice, u.gas, limits.value.gasLimit,
                                       OrZero(limits.value.storageDepositLimit)).Ok?
    ensures var tx := DecodeSigned(transaction).value;
            var from := RecoverEthAddress(env.p, tx).value;
            var xt := SendRawTransaction(env.p, dryRun, extra, transaction);
            && xt.Ok?
            && Convert(env, xt.value.call, extra) == Ok((Legacy(tx.unsigned), from, extra))
            && Check(env, xt.value) == Ok(Checked(Some((GetAccountId(env.p, from), extra)), xt.value.call))
  {
    hide DecodeSigned, RecoverEthAddress, RawSignatureOf, EncodeUnsigned, DecodeCallInput, EncodeCallInput, ValidateFee,
         GetAccountId, RecoverSigner;
    var tx := DecodeSigned(transaction).value;
    var u := tx.unsigned;
    var from := RecoverEthAddress(env.p, tx).value;
    var limits := dryRun(DryRunRequest(from, u.input, u.nonce, u.to, u.value)).value;
    RecoveriesAgree(env.p, tx, from);
    BuildCallSucceeds(u, from, limits);
    RebuildsSignedTransaction(u, from, limits, extra.nonce);
    var call := BuildCall(u, from, limits).value;
    assert call.ethGasPrice == u.gasPrice && call.ethGasLimit == u.gas;
    ConvertRebuilds(env, call, extra);
    var (ethTx, _, _) := Convert(env, call, extra).value;
    assert ethTx == Legacy(u);
  }

  /** From the wallet on: a transaction for this chain, signed with recovery id 0 or 1, written to the
      wire and submitted, is accepted for the account of the signing key's address. */
  lemma WalletTransactionIsAccepted(env: Environment, dryRun: DryRun, extra: Extra, tx: Unsigned,
                                    sig: CompactSignature, id: RecoveryId, key: PublicKey, rest: bytes)
    requires tx.chainId == Some(CHAIN_ID) && NumbersFit(tx) && InputIsExact(tx) && id < 2
    requires env.p.ecdsaRecover(sig, id, env.p.keccak(EncodeUnsigned(tx))) == Some(key)
    requires extra.era == Immortal && extra.nonce == tx.nonce
    requires var from := AddressOfKey(env.p, key);
             var limits := dryRun(DryRunRequest(from, tx.input, tx.nonce, tx.to, tx.value));
             limits.Ok? && ValidateFee(env, tx.gasPrice, tx.gas, limits.value.gasLimit,
                                       OrZero(limits.value.storageDepositLimit)).Ok?
    ensures MakeSigned(tx, sig, id).Ok?
    ensures var from := AddressOfKey(env.p, key);
            var xt := SendRawTransaction(env.p, dryRun, extra, EncodeSigned(MakeSigned(tx, sig, id).value) + rest);
            && xt.Ok?
            && Convert(env, xt.value.call, extra) == Ok((Legacy(tx), from, extra))
            && Check(env, xt.value) == Ok(Checked(Some((GetAccountId(env.p, from), extra)), xt.value.call))
  {
    hide DecodeSigned, EncodeSigned, EncodeUnsigned, RecoverEthAddress, ValidateFee, Check, Convert, SendRawTransaction,
         InputIsExact, MakeSigned, FixedBigEndian, GetAccountId;
    RawSignatureInvertsMakeSigned(tx, sig, id);
    var signed := MakeSigned(tx, sig, id).value;
    MadeSignedV(tx, sig, id);
    MadeSignedRoundTrip(tx, sig, id, rest);
    var from := AddressOfKey(env.p, key);
    RecoversKey(env.p, signed, sig, id, key);
    RecoveriesAgree(env.p, signed, from);
    SubmittedIsAccepted(env, dryRun, extra, EncodeSigned(signed) + rest);
  }

  lemma MadeSignedV(tx: Unsigned, sig: CompactSignature, id: RecoveryId)
    requires tx.chainId == Some(CHAIN_ID)
    ensures MakeSigned(tx, sig, id).Ok? && MakeSigned(tx, sig, id).value.v == 2 * CHAIN_ID + 35 + id
  {
  }

  lemma RecoversKey(p: Primitives, tx: Signed, sig: CompactSignature, id: RecoveryId, key: PublicKey)
    requires RawSignatureOf(tx) == Ok(sig + [id])
    requires p.ecdsaRecover(sig, id, p.keccak(EncodeUnsigned(tx.unsigned))) == Some(key)
    ensures RecoverSigner(p, tx.unsigned, RawSignatureOf(tx).value) == Some(AddressOfKey(p, key))
  {
    hide EncodeUnsigned, RawSignatureOf;
    assert (sig + [id])[..64] == sig;
  }

  // ----- the receipt of a deployment -----

  datatype ReceiptParts = ReceiptParts(from: H160, to: Option<H160>, contractAddress: Option<H160>, gasPrice: u64)

  /** What a receipt takes from an extrinsic: the address bytes are those of its signature. */
  function IntoReceiptInfo(p: Primitives, call: Call, addressBytes: bytes): Option<ReceiptParts> {
    match call
    case EthCall(source, to, _, _, gasPrice, _, _, _) =>
      var from :- source;
      Some(ReceiptParts(from, Some(to), None, gasPrice))
    case EthInstantiate(source, code, data, salt, _, gasPrice, _, _, _) =>
      var codeHash := p.blake2(code);
      var decoded := DecodeMultiAddress(addressBytes);
      if !decoded.Ok? || !decoded.value.0.Id? then None else
        var contract := EvmContractAddress(p, decoded.value.0.id, codeHash, data, salt);
        var from :- source;
        Some(ReceiptParts(from, None, Some(contract), gasPrice))
    case OtherCall(_) => None
  }

  /** For every accepted extrinsic signed with an account address the receipt names the signer's
      Ethereum address, and for a deployment the contract address whose account is the one that the
      runtime's address generator yields for the checked signer. */
  lemma ReceiptNamesDeployedContract(env: Environment, call: Call, account: H256, sig: RawSignature, extra: Extra)
    requires Check(env, Extrinsic(call, Some(SignaturePayload(Id(account), Ethereum(sig), extra)))).Ok?
    ensures var checked := Check(env, Extrinsic(call, Some(SignaturePayload(Id(account), Ethereum(sig), extra)))).value;
            var receipt := IntoReceiptInfo(env.p, call, EncodeMultiAddress(Id(account)));
            && receipt.Some? && checked.signed.Some?
            && GetAccountId(env.p, receipt.value.from) == checked.signed.value.0
            && (call.EthInstantiate? ==>
                  && receipt.value.contractAddress.Some?
                  && GetAccountId(env.p, receipt.value.contractAddress.value)
                     == RuntimeContractAddress(env.p, checked.signed.value.0, env.p.blake2(call.code),
                                               call.data, call.salt))
            && (call.EthCall? ==> receipt.value.to == Some(call.to) && receipt.value.contractAddress == None)
  {
    hide Check, GetAccountId, EvmContractAddress, FeeIsOffered, SignedBy, DecodeMultiAddress, EncodeMultiAddress;
    var checked := Check(env, Extrinsic(call, Some(SignaturePayload(Id(account), Ethereum(sig), extra)))).value;
    EthereumCheckExact(env, call, Id(account), sig, extra, checked);
    DecodeEncodeMultiAddress(Id(account), []);
    assert EncodeMultiAddress(Id(account)) + [] == EncodeMultiAddress(Id(account));
  }

  /** A receipt is taken exactly from the Ethereum calls that name a source; a deployment also needs an
      account address. It names the source as sender, the recipient, and the price of the call; and a
      contract address for a deployment alone. */
  lemma ReceiptPartsExact(p: Primitives, call: Call, address: MultiAddress)
    ensures var receipt := IntoReceiptInfo(p, call, EncodeMultiAddress(address));
            && (receipt.Some? <==> !call.OtherCall? && call.source.Some? && (call.EthInstantiate? ==> address.Id?))
            && (receipt.Some? ==>
                  && receipt.value.from == call.source.value && receipt.value.gasPrice == call.ethGasPrice
                  && receipt.value.to == RecipientOf(call)
                  && receipt.value.contractAddress ==
                       if call.EthCall? then None
                       else Some(EvmContractAddress(p, address.id, p.blake2(call.code), call.data, call.salt)))
  {
    hide GetAccountId, EvmContractAddress, DecodeMultiAddress, EncodeMultiAddress;
    DecodeEncodeMultiAddress(address, []);
    assert EncodeMultiAddress(address) + [] == EncodeMultiAddress(address);
  }

  /** What is submitted gets its receipt: taken from the submitted call and the address of its signature,
      it names the recovered sender, the recipient and the price of the transaction; and for a deployment
      the contract address that maps to the account that the runtime instantiates at for the sender. */
  lemma SubmittedHasReceipt(p: Primitives, dryRun: DryRun, extra: Extra, transaction: bytes)
    requires SendRawTransaction(p, dryRun, extra, transaction).Ok?
    ensures DecodeSigned(transaction).Ok? && RecoverEthAddress(p, DecodeSigned(transaction).value).Ok?
    ensures SendRawTransaction(p, dryRun, extra, transaction).value.signature.Some?
    ensures var tx := DecodeSigned(transaction).value;
            var from := RecoverEthAddress(p, tx).value;
            var xt := SendRawTransaction(p, dryRun, extra, transaction).value;
            var receipt := IntoReceiptInfo(p, xt.call, EncodeMultiAddress(xt.signature.value.address));
            && receipt.Some? && receipt.value.from == from && receipt.value.to == tx.unsigned.to
            && receipt.value.gasPrice == tx.unsigned.gasPrice
            && (tx.unsigned.to.Some? ==> receipt.value.contractAddress == None)
            && (tx.unsigned.to.None? ==>
                  && xt.call.EthInstantiate? && receipt.value.contractAddress.Some?
                  && GetAccountId(p, receipt.value.contractAddress.value)
                     == RuntimeContractAddress(p, GetAccountId(p, from), p.blake2(xt.call.code), xt.call.data,
                                               xt.call.salt))
  {
    hide DecodeSigned, RecoverEthAddress, RawSignatureOf, SendRawTransaction, GetAccountId, EvmContractAddress,
         EncodeMultiAddress, IntoReceiptInfo, DecodeCallInput, NumbersFit;
    SubmissionSucceeds(p, dryRun, extra, transaction);
    var xt := SendRawTransaction(p, dryRun, extra, transaction).value;
    ReceiptPartsExact(p, xt.call, xt.signature.value.address);
  }
}
