/** The receipts that the server extracts from the extrinsics of a block. */
module Receipts {
  import opened Outcomes
  import opened Numbers
  import opened Crypto
  import opened Accounts
  import opened Scale
  import opened Runtime
  import opened Server
  import opened Fees
  import opened BlockCache
  import opened CacheProperties

  // ----- the events of an extrinsic -----

  datatype FeePaid = FeePaid(tip: u128, actualFee: u128)

  /** An event of the extrinsic. Of the two kinds that are looked for the fields may not decode; after a
      record that does not decode itself there are no more events. */
  datatype Event =
    | TransactionFeePaid(fee: Option<FeePaid>)
    | ExtrinsicSuccess(decodes: bool)
    | ExtrinsicFailed
    | OtherEvent
    | BrokenRecord

  /** The outcome of looking for an event: it is there, it is not, or something on the way cannot be
      decoded. */
  datatype Found<T> = Present(event: T) | Missing | Undecodable

  function AsFee(e: Event): Found<FeePaid> {
    match e
    case TransactionFeePaid(Some(fee)) => Present(fee)
    case TransactionFeePaid(None) => Undecodable
    case BrokenRecord => Undecodable
    case _ => Missing
  }

  function AsSuccess(e: Event): Found<()> {
    match e
    case ExtrinsicSuccess(decodes) => if decodes then Present(()) else Undecodable
    case BrokenRecord => Undecodable
    case _ => Missing
  }

  /** The first event of a kind: events of other kinds are passed over. */
  function FindFirst<T>(events: seq<Event>, kind: Event -> Found<T>): Found<T> {
    if events == [] then Missing
    else if kind(events[0]).Missing? then FindFirst(events[1..], kind)
    else kind(events[0])
  }

  /** The event at `i` is the first that the search does not pass over. */
  ghost predicate Stops<T(!new)>(events: seq<Event>, kind: Event -> Found<T>, i: nat) {
    i < |events| && !kind(events[i]).Missing? && forall j | 0 <= j < i :: kind(events[j]).Missing?
  }

  /** The search returns what it finds where it stops, and nothing exactly when it stops nowhere. */
  lemma {:induction false} FindFirstStops<T(!new)>(events: seq<Event>, kind: Event -> Found<T>)
    ensures forall i: nat | Stops(events, kind, i) :: FindFirst(events, kind) == kind(events[i])
    ensures FindFirst(events, kind).Missing? <==> forall i | 0 <= i < |events| :: kind(events[i]).Missing?
    ensures !FindFirst(events, kind).Missing? ==> exists i: nat :: Stops(events, kind, i)
  {
    if events == [] {
    } else {
      var rest := events[1..];
      assert forall i | 0 < i < |events| :: events[i] == rest[i - 1];
      FindFirstStops(rest, kind);
      if kind(events[0]).Missing? {
        forall i: nat | Stops(events, kind, i)
          ensures FindFirst(events, kind) == kind(events[i])
        {
          assert forall j | 0 <= j < i - 1 :: rest[j] == events[j + 1];
          assert Stops(rest, kind, i - 1);
        }
        if i: nat :| Stops(rest, kind, i) {
          assert forall j | 0 < j < i + 1 :: events[j] == rest[j - 1];
          assert Stops(events, kind, i + 1);
        }
      } else {
        assert Stops(events, kind, 0);
      }
    }
  }

  datatype BlockExtrinsic = BlockExtrinsic(encoded: ScaleBlob, call: Call, addressBytes: Option<bytes>,
                                           events: seq<Event>)

  /** The receipt parts of an extrinsic, if it is one of the two Ethereum calls; a deployment needs the
      address of its signature. */
  function PartsOf(p: Primitives, x: BlockExtrinsic): Option<ReceiptParts> {
    if x.call.EthInstantiate? then
      var addressBytes :- x.addressBytes;
      IntoReceiptInfo(p, x.call, addressBytes)
    else
      IntoReceiptInfo(p, x.call, [])
  }

  function TransactionHash(p: Primitives, x: BlockExtrinsic): Hash {
    Hash(p.blake2(EncodeVec(x.encoded)))
  }

  /** The search for the success event counts as a success unless it fails to decode. */
  function StatusOf(events: seq<Event>): nat {
    if FindFirst(events, AsSuccess).Undecodable? then 0 else 1
  }

  function ReceiptOf(p: Primitives, block: Block, index: u32, x: BlockExtrinsic): Outcome<Receipt, ClientError>
    requires PartsOf(p, x).Some?
  {
    match FindFirst(x.events, AsFee)
    case Present(fee) =>
      var parts := PartsOf(p, x).value;
      Ok(Receipt(block.hash, block.number, TransactionHash(p, x), index, parts.from, parts.to, parts.contractAddress,
                 parts.gasPrice, GasUsed(fee.tip, fee.actualFee, parts.gasPrice), StatusOf(x.events)))
    case _ => Err(ReceiptsFailed)
  }

  ghost predicate IsReceipt(p: Primitives, block: Block, xs: seq<BlockExtrinsic>, i: nat, r: Receipt) {
    i < |xs| && i < U32_LIMIT && PartsOf(p, xs[i]).Some? && ReceiptOf(p, block, i, xs[i]) == Ok(r)
  }

  /** A map that collecting the receipts may give: extrinsics with the same bytes share one entry, and
      which of them fills it depends on the order in which their events arrive. */
  ghost predicate IsReceiptMap(p: Primitives, block: Block, xs: seq<BlockExtrinsic>, m: map<Hash, Receipt>) {
    && (forall h | h in m :: exists i: nat :: IsReceipt(p, block, xs, i, m[h]) && TransactionHash(p, xs[i]) == h)
    && (forall i: nat, r | IsReceipt(p, block, xs, i, r) :: TransactionHash(p, xs[i]) in m)
  }

  /** What the cache takes for granted: receipts of a block have distinct indices and carry the block's
      hash and their own. */
  lemma ReceiptMapIsValid(p: Primitives, block: Block, xs: seq<BlockExtrinsic>, m: map<Hash, Receipt>)
    requires IsReceiptMap(p, block, xs, m)
    ensures IndicesDistinct(m) && ReceiptsBelong(Delivery(block, m))
  {
    hide TransactionHash, PartsOf, GasUsed;
    forall h | h in m
      ensures m[h].transactionHash == h && m[h].blockHash == block.hash
      ensures m[h].transactionIndex < |xs| && TransactionHash(p, xs[m[h].transactionIndex]) == h
    {
      var i: nat :| IsReceipt(p, block, xs, i, m[h]) && TransactionHash(p, xs[i]) == h;
    }
  }

  /** Fetching the receipts of a block: it fails if the receipt of one of the Ethereum calls cannot be made. */
  ghost predicate IsReceiptInfos(p: Primitives, block: Block, xs: seq<BlockExtrinsic>,
                                 result: Option<map<Hash, Receipt>>) {
    match result
    case None => !EachHasReceipt(p, block, xs)
    case Some(m) => EachHasReceipt(p, block, xs) && IsReceiptMap(p, block, xs, m)
  }

  ghost predicate EachHasReceipt(p: Primitives, block: Block, xs: seq<BlockExtrinsic>) {
    forall i: nat | i < |xs| && i < U32_LIMIT && PartsOf(p, xs[i]).Some? :: ReceiptOf(p, block, i, xs[i]).Ok?
  }

  /** While no two Ethereum calls of the block have the same hash, each of them has its own receipt in the map
      under its hash, and there is nothing else. */
  lemma ReceiptMapExact(p: Primitives, block: Block, xs: seq<BlockExtrinsic>, m: map<Hash, Receipt>, h: Hash,
                        r: Receipt)
    requires IsReceiptInfos(p, block, xs, Some(m))
    requires forall i, j | 0 <= i < j < |xs| :: TransactionHash(p, xs[i]) != TransactionHash(p, xs[j])
    ensures h in m && m[h] == r
       <==> exists i: nat :: IsReceipt(p, block, xs, i, r) && TransactionHash(p, xs[i]) == h
  {
    hide TransactionHash, PartsOf, ReceiptOf;
    if i: nat :| IsReceipt(p, block, xs, i, r) && TransactionHash(p, xs[i]) == h {
      var j: nat :| IsReceipt(p, block, xs, j, m[h]) && TransactionHash(p, xs[j]) == h;
      assert i == j;
    }
  }

  /** The address of an extrinsic's signature, if it has one that stands for an account. */
  function SigningAccount(x: BlockExtrinsic): Option<H256> {
    match x.addressBytes
    case None => None
    case Some(b) =>
      var decoded := DecodeMultiAddress(b);
      if decoded.Ok? && decoded.value.0.Id? then Some(decoded.value.0.id) else None
  }

  /** Which extrinsics have a receipt: calls and deployments that name a source, and a deployment must be
      signed with an account address. What it takes from them: sender, recipient, price, and the address
      of a deployed contract. */
  lemma PartsExact(p: Primitives, x: BlockExtrinsic)
    ensures PartsOf(p, x).Some?
       <==> !x.call.OtherCall? && x.call.source.Some? && (x.call.EthInstantiate? ==> SigningAccount(x).Some?)
    ensures PartsOf(p, x).Some? ==>
              var parts := PartsOf(p, x).value;
              && parts.from == x.call.source.value && parts.to == RecipientOf(x.call)
              && parts.gasPrice == x.call.ethGasPrice
              && parts.contractAddress ==
                   if x.call.EthCall? then None
                   else Some(EvmContractAddress(p, SigningAccount(x).value, p.blake2(x.call.code), x.call.data,
                                                x.call.salt))
  {
    hide EvmContractAddress, DecodeMultiAddress;
  }

  /** Every field of a receipt. There is one exactly if the search for the payment ends at a payment. */
  lemma ReceiptExact(p: Primitives, block: Block, index: u32, x: BlockExtrinsic)
    requires PartsOf(p, x).Some?
    ensures ReceiptOf(p, block, index, x).Ok?
       <==> exists j: nat :: Stops(x.events, AsFee, j) && AsFee(x.events[j]).Present?
    ensures !ReceiptOf(p, block, index, x).Ok? ==> ReceiptOf(p, block, index, x) == Err(ReceiptsFailed)
    ensures ReceiptOf(p, block, index, x).Ok? ==>
              var r, parts := ReceiptOf(p, block, index, x).value, PartsOf(p, x).value;
              && r.blockHash == block.hash && r.blockNumber == block.number
              && r.transactionIndex == index && r.transactionHash == TransactionHash(p, x)
              && r.from == parts.from && r.to == parts.to && r.contractAddress == parts.contractAddress
              && r.effectiveGasPrice == parts.gasPrice
              && (r.status == 1 <==> !BreaksFirst(x.events)) && (r.status == 0 <==> BreaksFirst(x.events))
  {
    hide PartsOf, TransactionHash, GasUsed, BreaksFirst, StatusOf;
    FindFirstStops(x.events, AsFee);
    StatusExact(x.events);
  }

  /** Two extrinsics share a transaction hash only if their bytes are the same or the hash collides. */
  lemma TransactionsCollide(p: Primitives, x: BlockExtrinsic, y: BlockExtrinsic)
    ensures x.encoded != y.encoded ==>
              (TransactionHash(p, x) == TransactionHash(p, y)
               <==> Collides(p.blake2, 32, EncodeVec(x.encoded), EncodeVec(y.encoded)))
    ensures x.encoded == y.encoded ==> TransactionHash(p, x) == TransactionHash(p, y)
  {
    hide EncodeVec;
    VecIsPrefixCode(EncodeVec(x.encoded) + [], x.encoded, []);
    VecIsPrefixCode(EncodeVec(y.encoded) + [], y.encoded, []);
    assert EncodeVec(x.encoded) + [] == EncodeVec(x.encoded) && EncodeVec(y.encoded) + [] == EncodeVec(y.encoded);
    var a, b := p.blake2(EncodeVec(x.encoded)), p.blake2(EncodeVec(y.encoded));
    assert a[..32] == a && b[..32] == b;
  }

  // ----- the reported status -----

  ghost predicate BreaksFirst(events: seq<Event>) {
    exists i: nat :: Stops(events, AsSuccess, i) && AsSuccess(events[i]).Undecodable?
  }

  ghost predicate Succeeded(events: seq<Event>) {
    exists i :: 0 <= i < |events| && events[i].ExtrinsicSuccess?
  }

  /** The status is one exactly when no broken record and no success event that does not decode comes
      before every success event that does. */
  lemma StatusExact(events: seq<Event>)
    ensures StatusOf(events) == 1 <==> !BreaksFirst(events)
    ensures StatusOf(events) == 0 <==> BreaksFirst(events)
  {
    FindFirstStops(events, AsSuccess);
  }

  /** Whether the status is right. A success is reported as one exactly when the search reaches its event.
      A failure is reported as one exactly when a record is broken: while all records decode, the status
      of every failed extrinsic is one. */
  lemma StatusAgreesUnlessEventIsMissing(events: seq<Event>)
    ensures Succeeded(events) ==> ((StatusOf(events) == 1) <==> !BreaksFirst(events))
    ensures !Succeeded(events) ==> ((StatusOf(events) == 0) <==> BrokenRecord in events)
  {
    FindFirstStops(events, AsSuccess);
    StatusExact(events);
    if !Succeeded(events) && BrokenRecord in events {
      var i :| 0 <= i < |events| && events[i] == BrokenRecord;
      assert AsSuccess(events[i]).Undecodable?;
      var k: nat :| Stops(events, AsSuccess, k);
      assert AsSuccess(events[k]).Undecodable?;
    }
  }

  /** A failed extrinsic whose events all decode gets a receipt that reports a success. */
  lemma FailureIsReportedAsSuccess(p: Primitives, block: Block, index: u32, x: BlockExtrinsic, i: nat, j: nat)
    requires PartsOf(p, x).Some?
    requires i < |x.events| && x.events[i].ExtrinsicFailed?
    requires j < |x.events| && x.events[j].TransactionFeePaid?
    requires forall k | 0 <= k < |x.events| :: !AsFee(x.events[k]).Undecodable? && !x.events[k].ExtrinsicSuccess?
    ensures !Succeeded(x.events)
    ensures ReceiptOf(p, block, index, x).Ok? && ReceiptOf(p, block, index, x).value.status == 1
  {
    hide PartsOf, TransactionHash, GasUsed;
    FindFirstStops(x.events, AsFee);
    FindFirstStops(x.events, AsSuccess);
    StatusExact(x.events);
  }

  /** When every event decodes and a fee was paid, the receipt reports the fee that was paid first. */
  lemma ReceiptReportsFirstFee(p: Primitives, block: Block, index: u32, x: BlockExtrinsic, j: nat)
    requires PartsOf(p, x).Some? && Stops(x.events, AsFee, j) && AsFee(x.events[j]).Present?
    ensures var receipt := ReceiptOf(p, block, index, x);
            var fee := AsFee(x.events[j]).event;
            && receipt.Ok?
            && receipt.value.gasUsed == GasUsed(fee.tip, fee.actualFee, PartsOf(p, x).value.gasPrice)
            && receipt.value.transactionIndex == index
  {
    hide PartsOf, TransactionHash, GasUsed;
    FindFirstStops(x.events, AsFee);
  }
}
