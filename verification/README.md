# EVM on Substrate: a verified model

The repository lets Ethereum wallets talk to a Substrate chain with smart contracts. A JSON-RPC server
takes the raw bytes of a signed legacy transaction, recovers the sender, and submits an extrinsic that
carries the Ethereum signature. The runtime rebuilds the Ethereum transaction from the extrinsic's call,
encodes it again, and recovers the signer from the same signature. The design only works if the bytes
encoded on chain are the bytes that the wallet signed. Beside this pipeline the server keeps a cache of
recent blocks and receipts, and a code generator produces the JSON-RPC types from an OpenRPC document.

This project models these parts in Dafny and proves what they promise each other. `dafny verify
dfyconfig.toml` checks all of it.

## How it is laid out

The transaction pipeline, bytes to checked extrinsic:

- `Outcomes`, `Numbers`, `Arithmetic`: results, Rust integer widths, byte strings of numbers, a few facts
  about division. `Panic` is a result of its own, so an aborting conversion is never confused with an error.
- `Rlp`, `RlpStream`: the recursive-length-prefix format (Ethereum Yellow Paper, Appendix B) at byte level,
  its positional reader, and the append-only encoder as a class with a buffer and an open list.
- `LegacyTransaction`, `TransactionBytes`: the six-item, nine-item and signed forms; methods that write them item by item are
  proved equal to one encoding function, about which round trips and injectivity are proved, and which bytes decode to what is exact. `v` follows
  the "Specification" section of EIP-155.
- `Scale`: compact integers, byte vectors, `CallInput`, account addresses (section A.2.2 "SCALE Codec" of
  the Polkadot Protocol Specification).
- `Crypto`, `Signature`, `Accounts`: keccak, blake2 and ECDSA recovery are arbitrary functions, the same
  value for server and runtime; everything around them is concrete.
- `Runtime`, `Server`: `ConvertEthTx`, `check` and source validation on one side, `send_raw_transaction` and
  `into_receipt_info` on the other, and the end-to-end theorems between them.
- `Fees`, `Decimals`, `Hex`: numbers and text that both sides must agree on. An addition or product that
  overflows 128 bits in the runtime aborts or wraps, depending on the build; theorems cover both.

The cache:

- `BlockCache`: the class with the deque and the four maps, updated in place, and the subscription loop;
  both proved equal to functions on the cache as a value.
- `CacheProperties`: what those functions keep over whole streams of blocks.
- `CacheProtocol`: a state machine of one writer that works in several steps under the write lock, any
  number of readers with nested read sections, and a node that changes its mind about unfinalized blocks.
- `Receipts`: the receipts of a block, whose map depends on the order in which events arrive.

The code generator:

- `OpenRpc`, `TypeNaming`, `SchemaNames`: schemas, the name of a schema's type with what naming it collects, and
  when the one is among the other.
- `TypeShapes`: what is printed for a schema, by its structure: arrays, optionality, fields, variants, parameters.
- `TypeGenerator`: the class whose methods collect as a side effect, and its loop to a fixpoint.
- `TypeWorklist`, `GeneratedTypes`, `PrintedTypes`: the loop's invariant, its termination, what a finished run
  emitted, and which of the names that it printed mean something.
- `Codegen`: the whole program, with what it emits stated in its contract.

## Where the code differs from what it says

- `receipt_infos` means to report the status of an extrinsic, but tests `find_first(..).is_ok()`, which also
  holds when there is no success event. Every failed extrinsic whose events decode is reported with status one
  (`Receipts.FailureIsReportedAsSuccess`; the exact condition is `Receipts.StatusExact`).
- `TransactionLegacySigned::decode` returns a `Result`, yet aborts when `v` needs more than 64 bits
  (`LegacyTransaction.DecodeEncodeSigned`).
- Decoding takes an empty list in the place of the recipient for no recipient, and ignores further items and bytes.
  It can be undone exactly otherwise (`TransactionBytes.EncodeDecodeSigned`).
- `validate_fee` is documented to ensure that the fee is covered. In a build that wraps on overflow it does so
  only when the computed fee fits 128 bits (`Runtime.AcceptedFeeIsCovered`), and a sufficient offer whose
  product wraps may be refused (`Fees.QuoteIsSufficient`).
- A transaction without a chain id is built with `v` 27 or more, but extraction takes `v` itself for the
  recovery id, so it never gets back what went in (`Signature.ExtractionInvertsMakeSigned`).
- A combination of several parts inside another type gets a joined name that is never collected, a null schema is
  named `Null`, and a reference to `notFound` has a name that is never generated. As alternatives of a choice the
  latter two are dropped; in any other place all three are printed as types that do not exist, unless the document
  has a type of that name. `PrintedTypes.Dangles` is the condition, `Codegen.GenerateAll` says that exactly these
  names are undefined, `PrintedTypes.NullAndJoinsDangle` and `NullPropertyAlone` are the witnesses. A result given
  by reference is printed as it is, whether or not it is the name of a type.
- The cache is meant to hold the last N blocks and their receipts, but it evicts by hash. When a stream delivers a
  block again, as it may after a reconnect, the eviction of the first copy takes away the second one's entries, and
  receipts are lost although their block is in the deque (`CacheProperties.LeavingLosesCopies`, with the witnesses
  `RepeatLosesBlock` and `RepeatLosesReceipts`). Blocks are then asked of the node; receipts are not found at all.
- `generate_rpc_methods` panics with "Missing methods" by comparing two lengths. That finds missing methods when
  the names in the document are distinct; when they are not and the lengths agree, one always is missing
  (`TypeNaming.NoneMissing`, `TypeNaming.CopiesPassTheCount`).

## Model

| member | source | states |
|---|---|---|
| `Rlp.FirstItemOfData` | rpc/api/src/rlp_codec.rs:42-68 | The reader's first item of an encoded item followed by any bytes is that encoding, no byte more or less |
| `Rlp.SkipItemsOfPayload` | rpc/api/src/rlp_codec.rs:42-68 | Skipping n items leaves exactly the encodings of the others, and fails past the end |
| `Rlp.AtOfList` | rpc/api/src/rlp_codec.rs:45-58 | Access by position finds exactly the written item for every list and position, reports a list that is too short, and ignores bytes after the list |
| `Rlp.DecodeEncodeData` | rpc/api/src/rlp_codec.rs:50-57 | A written data item of any length reads back as it was; only the empty string counts as empty, which is how a missing recipient is told from a present one |
| `Rlp.FirstByteTells` | rpc/api/src/rlp_codec.rs:13-27 | The first byte of an item tells its kind and length by the ranges of the format, and longer lengths follow it |
| `RlpStream.Stream.Append` | rpc/api/src/rlp_codec.rs:14-25 | Appending grows the open list by that one item; the item that fills the list closes it with the header of the whole payload and keeps what was before |
| `RlpStream.Stream.InsertListPayload` | rpc/api/src/rlp_codec.rs:13-27 | The reserved byte, and nothing else, is replaced by the list header |
| `LegacyTransaction.AppendUnsigned` | rpc/api/src/rlp_codec.rs:10-39 | Writing item by item appends exactly the six-item or nine-item encoding and leaves no list open |
| `LegacyTransaction.AppendSigned` | rpc/api/src/rlp_codec.rs:70-87 | The same for the signed form |
| `LegacyTransaction.CommonItemsReadBack` | rpc/api/src/rlp_codec.rs:42-68 | Nonce, gas price, gas, recipient, value and input are each read back from their place, whatever follows |
| `LegacyTransaction.UnsignedRoundTrip` | rpc/api/src/rlp_codec.rs:10-68 | Decoding an encoding gives the same transaction, for all 256-bit fields, every input length, with and without recipient and chain id |
| `LegacyTransaction.EncodeUnsignedInjective` | rpc/api/src/rlp_codec.rs:10-39 | The signed bytes bind every field, across both forms |
| `LegacyTransaction.DecodeEncodeSigned` | rpc/api/src/rlp_codec.rs:70-126 | For every `v`: decoding aborts when `v` needs more than 64 bits and otherwise gives the transaction with the chain id that `v` stands for |
| `LegacyTransaction.SignedRoundTrip` | rpc/api/src/rlp_codec.rs:70-126 | The signed round trip holds if and only if `v` fits 64 bits and stands for the transaction's chain id |
| `LegacyTransaction.DecodingAborts` | rpc/api/src/rlp_codec.rs:90-126 | For any bytes that fit in memory, decoding aborts if and only if the seven items up to `v` can be read and `v` needs more than 64 bits |
| `TransactionBytes.DataIsCanonical` | rpc/api/src/rlp_codec.rs:42-68 | Whatever item can be read as data is in its only encoding |
| `TransactionBytes.UintAtExact` | rpc/api/src/rlp_codec.rs:92-93 | A place of any list is read as a number if and only if it holds the encoding of that number |
| `TransactionBytes.RecipientExact` | rpc/api/src/rlp_codec.rs:48-55 | A place is read as a recipient if and only if it holds one, or for a missing one an empty string or an empty list |
| `TransactionBytes.DecodeSignedExact` | rpc/api/src/rlp_codec.rs:90-126 | Any bytes decode to a signed transaction if and only if the list that starts them holds its nine items and its `v` fits 64 bits and stands for its chain id |
| `TransactionBytes.DecodeUnsignedExact` | rpc/api/src/rlp_codec.rs:42-68 | Any bytes decode to an unsigned transaction if and only if the list holds its six items, and its chain id if and only if the seventh is a number |
| `TransactionBytes.EncodeDecodeSigned` | rpc/api/src/rlp_codec.rs:70-126 | Encoding what was decoded gives the bytes back if and only if they are a list of nine items and nothing else, and no recipient is not written as an empty list |
| `TransactionBytes.PlaceErrors` | rpc/api/src/rlp_codec.rs:42-68 | What a place that holds data is read as, as a number or a recipient, or which error it gives |
| `TransactionBytes.CutOffIsRefused` | rpc/api/src/rlp_codec.rs:90-126 | A signed transaction cut off at any byte is refused as too short |
| `Scale.DecodeEncodeCompact` | rpc/api/src/adapters.rs:74-82 | Lengths in all four modes read back, leaving what follows |
| `Scale.EncodeDecodeCompact` | rpc/api/src/adapters.rs:74-82 | Whatever decodes was in the shortest mode: encoding it again gives the same bytes |
| `Scale.CompactModes` | rpc/api/src/adapters.rs:74-82 | Which of the four length modes is used, by the two low bits, and what the bytes mean |
| `Scale.VecIsPrefixCode` | rpc/api/src/adapters.rs:74-82 | Bytes decode to v leaving rest if and only if they are the encoding of v followed by rest |
| `Scale.CallInputIsPrefixCode` | rpc/api/src/adapters.rs:71-82 | The same for deploy input: a canonical prefix code for all lengths |
| `Scale.EncodeCallInputInjective` | rpc/api/src/adapters.rs:29-46 | The input of a deployment determines code, data and salt |
| `Scale.ReencodesExactly` | rpc/src/lib.rs:194-198 | Encoding what the server decoded gives the signed input back if and only if decoding left nothing over |
| `Scale.CompactErrors` | rpc/api/src/adapters.rs:74-82 | A refused length misses bytes, or is not in its shortest mode |
| `Scale.CallInputCutOff` | rpc/api/src/adapters.rs:71-82 | Deploy input cut off at any byte is refused because bytes are missing |
| `Scale.MultiAddressIsPrefixCode` | rpc/src/client.rs:124-128 | Bytes decode to an account address of any form leaving rest if and only if they are its encoding followed by rest |
| `Signature.ToBigEndian` | rpc/api/src/signature.rs:37-38 | Writing a number into a buffer changes exactly its 32 bytes, to its big-endian form |
| `Signature.RawSignatureBytes` | rpc/api/src/signature.rs:43-50 | The filled buffer is r, s and the extracted recovery id; it fails or aborts exactly as extraction does |
| `Signature.DecodedRecoveryId` | rpc/api/src/signature.rs:53-65 | For every consistent v: from 35 on extraction does not underflow and yields the parity of v - 35, below it takes v itself if it is a recovery id, and every v from the bound on is refused |
| `Signature.ExtractionExact` | rpc/api/src/signature.rs:53-65 | For every transaction, decoded or not, extraction is the inverse of the v of EIP-155 up to the bound, and aborts if and only if v is below every such value |
| `Signature.VOfMadeSigned` | rpc/api/src/signature.rs:14-32 | The v a transaction is built with, 35 and 27 being the offsets, and that building aborts if and only if it does not fit 256 bits |
| `Signature.DecodedIsConsistent` | rpc/api/src/rlp_codec.rs:89-126 | Every transaction that decodes from any bytes has a consistent chain id, and extraction never aborts on it |
| `Signature.ExtractionInvertsMakeSigned` | rpc/api/src/signature.rs:14-32 | Extraction gives back the recovery id that a transaction was built with if and only if it has a chain id and its v is below the bound |
| `Signature.RawSignatureInvertsMakeSigned` | rpc/api/src/signature.rs:14-50 | Building and taking apart gives back transaction, signature bytes and recovery id |
| `Signature.MadeSignedRoundTrip` | rpc/api/src/signature.rs:14-32 | What was built survives the wire if and only if v fits 64 bits and, with a chain id, the recovery id is 0 or 1 |
| `Signature.RecoveriesAgree` | rpc/api/src/rlp_codec.rs:140-149 | The server recovers a signer if and only if the runtime recovers the same one from the raw signature and the same transaction |
| `Signature.RecoveryErrors` | rpc/api/src/signature.rs:68-94 | Why no signer is recovered: no recovery id or no key, never the form of the key |
| `Crypto.BothRanges` | rpc/api/src/rlp_codec.rs:143-148 | The host function takes the last byte in both customary ranges, and recovers no key for another |
| `Accounts.ContractPreimageInjective` | chain/primitives/src/lib.rs:36-52 | The hashed string of a contract address determines deployer, code hash, data and salt |
| `Accounts.AccountsCollide` | chain/primitives/src/lib.rs:55-59 | Two addresses share an account if and only if the hash collides on the prefixed addresses |
| `Accounts.DeploymentsCollide` | chain/primitives/src/lib.rs:36-52 | Two different deployments share an address if and only if the first 20 bytes of the hash collide on their preimages |
| `Accounts.SignedSourceExact` | chain/pallet-contracts-evm/src/lib.rs:102-115 | A dispatched call runs for an account if and only if that account signed it and any source it names is an address of the account; everything else is refused |
| `Runtime.ValidateFeeExact` | chain/runtime/src/lib.rs:238-253 | All outcomes: without overflow the fees are compared, and refused with code one; with it one build aborts and the other compares the remainders |
| `Runtime.AcceptedOfferCovers` | chain/runtime/src/lib.rs:238-253 | An accepted offer covers the computed fee even when the offered product overflows, unless the computed fee itself wraps |
| `Runtime.AcceptedFeeIsCovered` | chain/runtime/src/lib.rs:238-253 | Acceptance implies coverage for all offers if and only if the build aborts on overflow or the computed fee fits 128 bits |
| `Runtime.ConvertRebuilds` | chain/runtime/src/lib.rs:282-352 | Conversion succeeds if and only if the call is an Ethereum call with source, sufficient fee and immortal era; the rebuilt transaction has the call's fields one by one, the extra's nonce and the chain id |
| `Runtime.RebuiltItems` | chain/runtime/src/lib.rs:306-346 | The encoding of a rebuilt transaction is the nine-item list of EIP-155 made of the call's parts in that order |
| `Runtime.PayloadBindsCall` | chain/runtime/src/lib.rs:306-346 | Two Ethereum calls with the same signing payload have the same nonce, value, gas price and limit, kind, and recipient and input or code, data and salt |
| `Runtime.CheckExact` | chain/primitives/src/unchecked_extrinsic.rs:90-130 | For all extrinsics: with an Ethereum signature, accepted if and only if its call names a source, the era is immortal, the fee is offered, the signature recovers to the source over the EIP-155 list, and the address stands for its account, with that account, extra and call; all others have the result of the generic check |
| `Runtime.CheckRefusals` | chain/primitives/src/unchecked_extrinsic.rs:93-127 | The reason of every refusal, in the order in which they count |
| `Runtime.AcceptedPaysItsFee` | chain/runtime/src/lib.rs:238-253 | An accepted Ethereum extrinsic offers at least the fee of its weight and the deposit it names, unless that sum wraps around |
| `Runtime.AcceptedPassesDispatch` | chain/pallet-contracts-evm/src/lib.rs:102-115 | The account an extrinsic was accepted for passes the source test at dispatch and is the one its address looks up to |
| `Runtime.NamedSourceIsTheSigner` | chain/pallet-contracts-evm/src/lib.rs:102-115 | However an extrinsic was signed and whatever the generic check accepts, a call that names a source is dispatched only for that source's account |
| `Server.BuildCallSucceeds` | rpc/src/lib.rs:167-221 | A call is built if and only if the numbers fit and deploy input starts with a `CallInput`; it carries the transaction part by part, with the given source and limits; which refusal comes first |
| `Server.SubmissionSucceeds` | rpc/src/lib.rs:112-231 | When a submission of any bytes succeeds, and that the extrinsic carries the transaction, is signed under the account address of the recovered sender, and has the transaction's signature |
| `Server.SubmissionFails` | rpc/src/lib.rs:112-231 | The reason of every failure; it aborts only if decoding or the dry run does |
| `Server.RebuildsSignedTransaction` | rpc/src/lib.rs:129-221 | What the runtime rebuilds from the server's call is the signed transaction if and only if the chain id is the runtime's, the nonce is the account's, and deploy input leaves nothing over |
| `Server.SubmittedIsAccepted` | rpc/src/lib.rs:112-231 | End to end: submitted bytes in range, with sufficient fee, become an extrinsic that converts back to the very same transaction and is accepted for the recovered address's account |
| `Server.WalletTransactionIsAccepted` | rpc/src/lib.rs:112-231 | From the wallet on: a transaction signed with a key, encoded, and submitted is accepted for that key's account |
| `Server.ReceiptNamesDeployedContract` | rpc/src/client.rs:108-146 | For every accepted extrinsic signed with an account address, the receipt names the signer, and the receipt's contract address maps to the account the runtime instantiates at |
| `Server.ReceiptPartsExact` | rpc/src/client.rs:108-146 | Which calls a receipt is taken from, under which addresses, and each part of it |
| `Server.SubmittedHasReceipt` | rpc/src/lib.rs:405-425 | Everything submitted has a receipt, taken from the submitted call and its own address: it names the recovered sender, and for a deployment the address that maps to the account the runtime instantiates at |
| `Receipts.ReceiptMapIsValid` | rpc/src/client.rs:279-354 | In whatever order receipts arrive, the map has distinct indices, carries the block's hash, and is keyed by the hashes of the extrinsics at those indices |
| `Receipts.ReceiptMapExact` | rpc/src/client.rs:304-354 | While no two extrinsics of a block have the same hash, the map holds exactly the receipt of each Ethereum call under its hash |
| `Receipts.PartsExact` | rpc/src/client.rs:286-302 | Which extrinsics have a receipt, and sender, recipient, price and contract address it takes from them |
| `Receipts.ReceiptExact` | rpc/src/client.rs:316-346 | Every field of a receipt; there is one if and only if the search for the payment ends at a payment |
| `Receipts.TransactionsCollide` | rpc/src/client.rs:327-328 | Extrinsics with different bytes share a hash if and only if the hash function collides on their encodings |
| `Receipts.FindFirstStops` | rpc/src/client.rs:317-325 | A search for events returns what it finds at the first event it does not pass over, and nothing if and only if it passes over all |
| `Receipts.StatusExact` | rpc/src/client.rs:325-340 | For all event lists: status one if and only if no broken record or undecodable success event comes before every decodable success event |
| `Receipts.StatusAgreesUnlessEventIsMissing` | rpc/src/client.rs:325-340 | A success is reported as one if and only if the search reaches its event; a failure is reported as one if and only if a record is broken |
| `Receipts.FailureIsReportedAsSuccess` | rpc/src/client.rs:316-346 | Every failed extrinsic whose events decode gets a receipt with status one |
| `Receipts.ReceiptReportsFirstFee` | rpc/src/client.rs:316-343 | The receipt's gas is computed from the first payment event, under the extrinsic's own index |
| `Fees.QuoteBounds` | rpc/src/client.rs:707-708 | The quoted limit times the price exceeds the total by at least one and at most the price |
| `Fees.QuoteIsSufficient` | rpc/src/client.rs:707-708 | For every positive price the quote passes the runtime's fee check if and only if quote times price fits 128 bits |
| `Fees.QuoteIsTight` | rpc/src/client.rs:707-708 | No limit that passes is more than one below the quote |
| `Fees.EstimateIsAccepted` | rpc/src/client.rs:694-709 | At the server's price the limits that pass are exactly those from one below the estimate on |
| `Fees.EstimateOverflows` | rpc/src/client.rs:694-709 | A sum that does not fit 128 bits aborts the estimate or wraps around, depending on the build |
| `Fees.GasUsedNeverExceedsPayment` | rpc/src/client.rs:321-323 | Reported gas times price is at most what was paid, up to the largest amount of 128 bits, and less than one unit short of it; at price zero no gas is reported |
| `Decimals.FromEvmIsExact` | chain/pallet-contracts-evm/src/convert.rs:39-52 | An Ethereum amount converts if and only if it is a multiple of the ratio, and converts back to itself; with ratio zero only nothing does |
| `Decimals.ToEvmSaturates` | chain/pallet-contracts-evm/src/convert.rs:31-36 | Converting gives the product, or the largest amount of 128 bits if that is less |
| `Decimals.SaturatedIsNoMultiple` | chain/pallet-contracts-evm/src/convert.rs:31-36 | The saturated amount is a multiple of no positive power of ten |
| `Decimals.DecimalsRoundTrip` | chain/pallet-contracts-evm/src/convert.rs:31-52 | For all ratios 10^k up to k = 18 and all balances, there and back gives the same balance, or nothing exactly on saturation |
| `Decimals.ServerAgreesWithRuntime` | rpc/src/client.rs:274-276 | The server's product never saturates on a native balance and equals the runtime's if and only if the runtime's does not saturate |
| `Decimals.RatiosAgree` | chain/runtime/src/lib.rs:213-222 | The ratio of the runtime is 1000; server and runtime use the same ratio if and only if the node reports the decimals the runtime was compiled for; otherwise every non-zero balance that converts is shown wrongly |
| `Decimals.ServerRatio` | rpc/src/client.rs:383-393 | The server starts if and only if the node reports at most 18 decimals, and its ratio completes them to 18 |
| `Hex.TrimRemovesOnePrefix` | rpc/api/src/byte.rs:34-56 | Repeated trimming removes exactly one prefix of anything printed |
| `Hex.TrimExact` | rpc/api/src/byte.rs:34-56 | Trimming removes all leading prefixes and nothing else |
| `Hex.DecodeEncode` | rpc/api/src/byte.rs:41-56 | Bytes of any length survive encoding, which yields two digits a byte |
| `Hex.EncodeDecode` | rpc/api/src/byte.rs:44-56 | A string of even length decodes if and only if it is all digits, and prints back as its lower-case form |
| `Hex.VecHexRoundTrip` | rpc/api/src/byte.rs:38-58 | Byte vectors and arrays of their length parse back from what they print |
| `Hex.ByteHexRoundTrip` | rpc/api/src/byte.rs:28-36 | Every single byte, printed without leading zeros, parses back |
| `Hex.HexNormalForm` | rpc/api/src/byte.rs:50-58 | Exactly which strings parse; printing the result gives their normal form, which parses to the same bytes |
| `Hex.HexErrors` | rpc/api/src/byte.rs:44-58 | Which error a refused string gets, for vectors and for arrays |
| `Hex.DigitValueExact` | rpc/api/src/byte.rs:34-56 | Exactly the sixteen digits have a value, in either case, that of their place |
| `Hex.PairsAreBytes` | rpc/api/src/byte.rs:44-56 | Each byte is the value of its own two digits |
| `Hex.ByteFromHexExact` | rpc/api/src/byte.rs:33-35 | Which strings are read as a single byte, and as which; larger numbers are an overflow |
| `BlockCache.BlockCache.RemoveReceipts` | rpc/src/client.rs:210-212 | Exactly the listed receipts are gone, in whatever order they are removed |
| `BlockCache.BlockCache.InsertBlock` | rpc/src/client.rs:202-221 | The deque and all four maps become those of the insertion function: the oldest block leaves with everything indexed under it, the new one enters |
| `BlockCache.SubscribeBlocks` | rpc/src/client.rs:442-495 | The loop leaves the cache, the number of notifications and the result that the stream determines, failures and reconnects included |
| `CacheProperties.StreamDelivers` | rpc/src/client.rs:454-491 | A run of the loop is the sequence of its deliveries up to the first failure, each announced once |
| `CacheProperties.StreamResult` | rpc/src/client.rs:454-494 | The loop ends with the first obstacle and its error, and successfully if and only if the stream ends before any |
| `CacheProperties.DequeIsWindow` | rpc/src/client.rs:197-221 | For every stream, repeats and capacity zero included, the deque is exactly the last min(k, N) deliveries in order |
| `CacheProperties.BlockMapsHold` | rpc/src/client.rs:202-221 | For every stream, both block maps hold exactly the keys with a delivery after which no copy left, each with the block delivered last under it |
| `CacheProperties.ReceiptMapsHold` | rpc/src/client.rs:473-489 | For every stream in which a block has one number and one set of receipts and different blocks share no transaction hash: the receipt maps hold exactly the receipts of the blocks with a delivery such that no copy left then or later |
| `CacheProperties.CacheIsWindow` | rpc/src/client.rs:197-221 | All of this together: deque, both block maps, both receipt maps |
| `CacheProperties.OnceIsWindow` | rpc/src/client.rs:202-221 | A block that is delivered once is found, and so are its receipts, if and only if it is among the last N deliveries |
| `CacheProperties.DistinctIsCoherent` | rpc/src/client.rs:202-221 | Without repeats, all blocks and receipts are found if and only if they are among the last N deliveries |
| `CacheProperties.LeavingLosesCopies` | rpc/src/client.rs:205-213 | When a copy of a block leaves, the block is lost though the deque may hold another copy, unless the delivery it leaves with is of the same block; its receipts are lost in both cases |
| `CacheProperties.LostIsNotFound` | rpc/src/client.rs:510-537 | What is lost is not found: no receipt by hash, no count |
| `CacheProperties.RepeatLosesBlock` | rpc/src/client.rs:205-213 | With room for two, a block delivered twice and then another one: the first block is in the deque, but neither it nor its receipts are found |
| `CacheProperties.RepeatLosesReceipts` | rpc/src/client.rs:205-213 | With room for one, a block delivered twice is found, but its receipts are not |
| `CacheProperties.ReceiptFoundIffInWindow` | rpc/src/client.rs:510-513 | For streams as above, a receipt is found by hash if and only if its block is kept; if no block is delivered twice, if and only if its block is in the window |
| `CacheProperties.ReceiptFoundByIndex` | rpc/src/client.rs:516-528 | For streams as above, the lookup by block and index finds exactly the kept receipts with that block hash and index, those of the window if no block is delivered twice; what is listed never dangles |
| `CacheProperties.CountIffCachedWithReceipts` | rpc/src/client.rs:531-537 | For streams as above, the count of a block is n if and only if the block is kept and has n > 0 receipts; if no block is delivered twice, if and only if it is in the window and has them |
| `CacheProperties.NothingLeaks` | rpc/src/client.rs:202-221 | Repeated blocks included: the deque is bounded, every key belongs to a block in the deque, and every stored receipt is listed under its block |
| `CacheProperties.InverseCardinality` | rpc/src/client.rs:479-482 | Indexing receipts by transaction index loses none of them |
| `CacheProperties.LatestIsLastDelivered` | rpc/src/client.rs:197-199 | For any stream and capacity, repeats and zero included, the latest block is the last one delivered |
| `CacheProtocol.CachedIsNodeAnswer` | rpc/src/client.rs:739-793 | What is found in a cache of finalized blocks is what the node answers at that moment, by number and by hash |
| `CacheProtocol.NextKeepsInv` | rpc/src/client.rs:454-491 | Every step of writer, reader or node keeps the invariant that ties cache, deliveries, lock and readers together |
| `CacheProtocol.AnswersAreTheNodes` | rpc/src/client.rs:735-801 | In every interleaving, every answer is what the node alone answers at a moment while the lock was held; a block by number is the one the node has at such a moment for the hash it gave at an earlier one |
| `CacheProtocol.FinalAnswers` | rpc/src/client.rs:735-801 | What was final when the lock was taken is answered as the chain has it, whatever the node does and whether or not it is cached |
| `CacheProtocol.HandlersFinish` | rpc/src/client.rs:735-801 | A handler keeps to its query and is done after at most five steps of its own |
| `CacheProtocol.CachedNeedsNoNode` | rpc/src/client.rs:739-793 | What is cached is answered in one step, the same for every node |
| `CacheProtocol.ReadersSeeWholePrefixes` | rpc/src/client.rs:787-801 | A reader, nested sections included, sees one state all along, produced by a whole prefix of the stream |
| `CacheProtocol.FailedFetchChangesNothing` | rpc/src/client.rs:471-475 | After a failed fetch of receipts, in every continuation, the cache stays as the blocks delivered before left it and nothing is delivered any more |
| `TypeWorklist.CollectEachKeys` | rpc/codegen/src/generator.rs:352-356 | Collecting adds exactly the names not taken care of, keeps earlier sources, and takes the others from what was collected |
| `TypeWorklist.FirstSourceStays` | rpc/codegen/src/generator.rs:352-356 | A name keeps the source it was first collected with |
| `TypeWorklist.ChoiceIsClosed` | rpc/codegen/src/generator.rs:404-435 | Generating an anonymous choice collects nothing that naming it had not collected |
| `TypeWorklist.UniverseIsClosed` | rpc/codegen/src/generator.rs:219-252 | All that can ever be collected lies in one finite set fixed by the document and the roots |
| `TypeWorklist.RoundShrinksUniverse` | rpc/codegen/src/generator.rs:236-249 | Every round with something to do strictly shrinks the names not generated yet, so the loop ends on recursive documents too |
| `TypeWorklist.GeneratedIsOnTrack` | rpc/codegen/src/generator.rs:236-249 | Generating one type keeps the invariant: disjoint lists, single emission, references accounted for, everything traced to the roots |
| `TypeWorklist.FailureIsObstruction` | rpc/codegen/src/generator.rs:236-249 | A listed type that cannot be printed is one that the document reaches |
| `TypeGenerator.Generator.constructor` | rpc/codegen/src/generator.rs:141-162 | A new generator counts the primitive types under both their names, and `NotFound`, as generated |
| `TypeGenerator.Generator.Collect` | rpc/codegen/src/generator.rs:352-356 | The collection stays disjoint from what is generated and grows only by a new name |
| `TypeGenerator.Generator.CollectExtraType` | rpc/codegen/src/generator.rs:208-213 | The same for an extra root, under its component reference |
| `TypeGenerator.Generator.Info` | rpc/codegen/src/generator.rs:368-457 | The name is a function of the schema, and the collection grows by exactly what naming the schema collects |
| `TypeGenerator.Generator.Choice` | rpc/codegen/src/generator.rs:404-435 | The same for choices: several alternatives are collected as a type of their own, null-like ones make the type optional |
| `TypeGenerator.Generator.Names` | rpc/codegen/src/generator.rs:392-403 | The same for the names of several schemas |
| `TypeGenerator.Generator.Fields` | rpc/codegen/src/printer.rs:111-137 | The fields of an object in order, collecting what their types need |
| `TypeGenerator.Generator.Combined` | rpc/codegen/src/printer.rs:140-165 | Named parts flattened, anonymous objects expanded, collecting what they need |
| `TypeGenerator.Generator.Variants` | rpc/codegen/src/printer.rs:204-218 | The alternatives without the null-like ones, collecting all of them |
| `TypeGenerator.Generator.GenerateType` | rpc/codegen/src/generator.rs:255-298 | The content of a type is a function of its schema, and the collection grows by what it refers to |
| `TypeGenerator.Generator.GenerateRpcMethod` | rpc/codegen/src/generator.rs:300-349 | A method's parameters and result, collecting their types |
| `TypeGenerator.Generator.GenerateRpcMethods` | rpc/codegen/src/generator.rs:165-206 | Succeeds if and only if no method is a reference, as many wanted methods are there as wanted names, and all are supported; then gives them in document order, and the collection grows by all types they name |
| `TypeNaming.NoneMissing` | rpc/codegen/src/generator.rs:166-184 | When the selected names are distinct, the comparison of lengths passes if and only if no wanted method is missing; when it passes, none is missing if and only if the names are distinct |
| `TypeNaming.CopiesPassTheCount` | rpc/codegen/src/generator.rs:173-184 | With repeated names it does not: enough copies of any one wanted method pass it, all others missing |
| `TypeNaming.SelectConcat` | rpc/codegen/src/generator.rs:166-171 | The selection goes through the document in order |
| `TypeNaming.SelectOne` | rpc/codegen/src/generator.rs:166-171 | And takes a method if and only if its name is wanted |
| `TypeNaming.NameOfReference` | rpc/codegen/src/generator.rs:360-365 | A component reference is named by its primitive type, or by the component in Pascal case |
| `OpenRpc.SplitExact` | rpc/codegen/src/open_rpc.rs:49-66 | Splitting a path is exact: no component has a separator and together they are the path |
| `OpenRpc.ReferenceLeadsToSchema` | rpc/codegen/src/open_rpc.rs:49-66 | A component reference leads to the schema of that name or to none, whatever follows the name |
| `OpenRpc.OnlyComponentsAreFound` | rpc/codegen/src/open_rpc.rs:49-66 | No other reference leads anywhere |
| `TypeGenerator.Generator.GenerateRound` | rpc/codegen/src/generator.rs:244-248 | A round, in any order, emits exactly what was taken and leaves the rest in the collection, keeping the invariant; it aborts only if some reachable type cannot be printed |
| `TypeGenerator.Generator.GenerateTypes` | rpc/codegen/src/generator.rs:219-252 | The loop ends with an empty collection and an invariant state with nothing pending, generated being what it was plus what was emitted, or aborts, and then some reachable type cannot be printed |
| `GeneratedTypes.EmittedAtMostOnce` | rpc/codegen/src/generator.rs:236-249 | No name is emitted twice, and no primitive type nor `NotFound` is emitted |
| `GeneratedTypes.EmittedIsReachable` | rpc/codegen/src/generator.rs:219-252 | Whatever is emitted is reachable from the roots with the very source it was generated from, and is what is printed for it |
| `GeneratedTypes.EmittedIffTraced` | rpc/codegen/src/generator.rs:219-252 | For all documents: a name is emitted if and only if a path from the roots leads to it of which every step before was generated from its own source |
| `GeneratedTypes.EmittedIffReachable` | rpc/codegen/src/generator.rs:219-252 | When names determine references, the emitted names are exactly the names reachable from the roots |
| `GeneratedTypes.EmittedAreReachableNames` | rpc/codegen/src/generator.rs:219-252 | The same as an equation between finite sets of names |
| `GeneratedTypes.InjectiveNamingSuffices` | rpc/codegen/src/generator.rs:360-365 | That condition follows from a test on document and roots alone: no two collectable schemas share a name that is not built in |
| `SchemaNames.NameIsCollected` | rpc/codegen/src/generator.rs:368-457 | A schema is named, by a test on its structure, if and only if its name is one of four Rust types, or `Null`, or collected when it is named; the name of any other is no primitive type either |
| `PrintedTypes.ContentPrints` | rpc/codegen/src/generator.rs:255-298 | A content prints exactly the names of the schemas it names, all but the dropped alternatives of a choice |
| `PrintedTypes.NameIsDefined` | rpc/codegen/src/generator.rs:141-157 | A name whose schema was named is a Rust, primitive or emitted type if and only if it does not dangle: it is the name of a type, or neither null-like nor the name of an unnamed schema |
| `PrintedTypes.PrintedNamesAreDefined` | rpc/codegen/src/generator.rs:219-252 | Each name that an emitted type prints is defined if and only if it does not dangle |
| `PrintedTypes.MethodsPrint` | rpc/codegen/src/generator.rs:300-349 | Parameters and typed results print exactly the names of the schemas that the methods name |
| `PrintedTypes.MethodTypesAreDefined` | rpc/codegen/src/generator.rs:300-349 | Every name in the generated methods is defined if and only if none of these dangles and every literal result names a type |
| `PrintedTypes.AllPrintedNamesAreDefined` | rpc/codegen/src/generator.rs:219-252 | For all documents: the printed names that mean nothing are exactly those that dangle where an emitted type prints them |
| `PrintedTypes.PropertyIsUndefined` | rpc/codegen/src/generator.rs:437 | The type of a property of an emitted object is undefined if and only if the name of its schema dangles |
| `PrintedTypes.NullAndJoinsDangle` | rpc/codegen/src/generator.rs:392-403 | A null schema, and a combination of any several named parts, dangle unless a type happens to have the name |
| `PrintedTypes.NullPropertyAlone` | rpc/codegen/src/generator.rs:437 | The smallest object with a null property is supported, prints only `Null` and collects nothing |
| `Codegen.GenerateAll` | rpc/codegen/src/main.rs:14-29 | Exactly when methods are generated; types are generated unless a type of the document cannot be printed, under injective naming if and only if all can; each emission is the printout of a reachable type and describes its schema by structure, fields, variants, arrays and optionality included, and so does each method; each name is emitted once and not built in, the extra root among them unless it is; under injective naming the emitted names are exactly the reachable ones, the undefined printed names are exactly those that dangle in the document, and every printed name is defined if and only if none does, for types and for methods |
| `Codegen.UndefinedDangles` | rpc/codegen/src/generator.rs:219-252 | Under injective naming, a printed name means nothing if and only if some type of the document prints it where it dangles |
| `SchemaNames.JoinedPartsAreNotCollected` | rpc/codegen/src/generator.rs:392-403 | Naming a combination of any two or more parts, of any form, yields a joined name and collects what the parts collect; the joined name is none of it and no primitive type |
| `TypeShapes.TypeIsDescribed` | rpc/codegen/src/generator.rs:368-457 | A type is an array if and only if its schema is, and optional if and only if its schema is a choice with a missing value |
| `TypeShapes.NameByStructure` | rpc/codegen/src/generator.rs:368-457 | Which schemas have a name, and which it is, by their structure |
| `TypeShapes.FieldsAreDescribed` | rpc/codegen/src/printer.rs:111-137 | Each field at its place: name, type, alias; optional if and only if not required or a choice with a missing value, left out when missing only in the first case |
| `TypeShapes.PartsAreDescribed` | rpc/codegen/src/printer.rs:140-165 | A named part is one flattened field, an anonymous object its fields, in order |
| `TypeShapes.VariantsAreDescribed` | rpc/codegen/src/printer.rs:204-218 | The variants are the alternatives with a value, in order, each with its type |
| `TypeShapes.ContentIsDescribed` | rpc/codegen/src/generator.rs:255-298 | What kind of type each kind of schema becomes, with what content |
| `TypeShapes.ContentIsSupported` | rpc/codegen/src/generator.rs:255-298 | A type is generated if and only if the schema is of such a kind and everything it refers to has a name |
| `TypeShapes.MethodsAreDescribed` | rpc/codegen/src/generator.rs:300-349 | Every method in order with its name, its parameters at their places, optional if and only if not required, and its result |
| `TypeShapes.MethodsAreSupported` | rpc/codegen/src/generator.rs:300-349 | Methods are generated if and only if all parameters are inline and they and an inline result have a name |
| `Codegen.PrintoutExact` | rpc/codegen/src/generator.rs:255-298 | A type is printed if and only if the document has its schema, of a kind with content, everything it refers to has a name, and a choice has an alternative with a value |

## Left out

- Networking and processes: subxt, jsonrpsee, CORS, node service, chain specification, command line, demo page. Streams, node answers and fetch results are parameters or steps.
- The internals of keccak, blake2 and secp256k1. They are arbitrary functions, and no collision resistance is claimed; ranges of r and s are part of recovery.
- The check of extrinsics without an Ethereum signature, which is a parameter of the model.
- Execution of `pallet_contracts`, currency transfer and dry runs. The answer of a dry run is a parameter, and it is not claimed to equal dispatch: the dry run passes the value unconverted.
- The RLP and SCALE libraries, the host function for key recovery, hex and integer parsing are modelled from their formats and documented behaviour; their sources are not part of the repository. The RLP stream holds at most one open list, and the reader's offset cache is not modelled.
- Transaction kinds other than legacy, blocks, logs and the transaction type byte: generated data without logic. A typed transaction is only an alternative that conversion to a legacy one refuses.
- Most of the extra data of an extrinsic: era and nonce are modelled, the rest is carried along unread.
- Parsing of JSON, serde, the text layout of generated code, titles, descriptions, legacy alias injection, and case conversion, which is an arbitrary function on names.
- Lock liveness: `block_by_number` takes the read lock again while it holds it. The model proves what the nested section sees, not that it gets the lock.
- The order in which collected names of one round are generated: the source iterates in sorted order, the model allows any.
- Codegen.GenerateAll: when types of one name are different schemas, only the first one collected is generated, so an unsupported one may go unnoticed and the exact conditions on the document do not apply; `GeneratedTypes.EmittedIffTraced` and `PrintedTypes.AllPrintedNamesAreDefined` say what is emitted and printed then.
- GeneratedTypes.EmittedIffReachable: asks that types reachable under one name refer to the same names, for the same reason.
- CacheProperties.ReceiptMapsHold: asks that different blocks share no transaction hash and that all deliveries of a block agree, which a finalized chain gives.
- The conversion of an account back to an address, which nothing in the modelled parts calls.
- Tags of blocks other than the latest: the server answers all of them with the latest block.
- LegacyTransaction.DecodeUnsigned and the signed form: an input longer than any `Vec<u8>` can be is made an abort, so that decoding is defined on all byte strings; no such string exists in memory.
- The library that decodes events is modelled as a scan that passes over events of other kinds and stops at the first match or failure; after a record that does not decode there are no more events.
- Server.SubmittedIsAccepted: takes the nonce and era of the extrinsic from the node's default parameters as given, and asks that the nonce is the transaction's.
