/** The cache of the last N finalized blocks and their transaction receipts: its state as a value, the
    operations on that value, the class that performs them in place, and the loop that feeds it. */
module BlockCache {
  import opened Outcomes
  import opened Numbers

  /** A block or transaction hash. */
  datatype Hash = Hash(value: H256)

  datatype Block = Block(hash: Hash, number: u32)

  datatype Receipt = Receipt(blockHash: Hash, blockNumber: u32, transactionHash: Hash, transactionIndex: u32,
                             from: H160, to: Option<H160>, contractAddress: Option<H160>,
                             effectiveGasPrice: u64, gasUsed: u128, status: nat)

  /** The receipts of one block, by transaction hash. The extrinsic index is part of a receipt, so no
      two of them share one. */
  type Receipts = m: map<Hash, Receipt> | IndicesDistinct(m)

  ghost predicate IndicesDistinct(receipts: map<Hash, Receipt>) {
    forall g, h | g in receipts && h in receipts
                  && receipts[g].transactionIndex == receipts[h].transactionIndex :: g == h
  }

  datatype Cache = Cache(
    // the most recent block is last
    buffer: seq<Block>,
    blocksByNumber: map<u32, Block>,
    blocksByHash: map<Hash, Block>,
    receiptsByHash: map<Hash, Receipt>,
    receiptHashes: map<Hash, map<u32, Hash>>
  )

  const EMPTY := Cache([], map[], map[], map[], map[])

  // ----- the operations, on values -----

  function HashesByIndex(receipts: Receipts): map<u32, Hash>
  {
    map h | h in receipts :: receipts[h].transactionIndex := h
  }

  function AddReceipts(c: Cache, block: Block, receipts: Receipts): Cache
  {
    if receipts == map[] then c else
      c.(receiptsByHash := c.receiptsByHash + receipts,
         receiptHashes := c.receiptHashes[block.hash := HashesByIndex(receipts)])
  }

  /** Drops the oldest block, if there is one, with what the indexes hold under its keys. */
  function Prune(c: Cache): Cache {
    if c.buffer == [] then c else
      var block := c.buffer[0];
      var entries := if block.hash in c.receiptHashes then c.receiptHashes[block.hash].Values else {};
      Cache(c.buffer[1..], c.blocksByNumber - {block.number}, c.blocksByHash - {block.hash},
            c.receiptsByHash - entries, c.receiptHashes - {block.hash})
  }

  function Push(c: Cache, block: Block): Cache {
    c.(buffer := c.buffer + [block],
       blocksByNumber := c.blocksByNumber[block.number := block],
       blocksByHash := c.blocksByHash[block.hash := block])
  }

  function Insert(n: nat, c: Cache, block: Block): Cache {
    Push(if |c.buffer| >= n then Prune(c) else c, block)
  }

  /** One delivered block: its receipts first, then the block. */
  function Deliver(n: nat, c: Cache, block: Block, receipts: Receipts): Cache
  {
    Insert(n, AddReceipts(c, block, receipts), block)
  }

  // ----- lookups -----

  function Get<K, V>(m: map<K, V>, k: K): Option<V> {
    if k in m then Some(m[k]) else None
  }

  function LatestBlock(c: Cache): Option<Block> {
    if c.buffer == [] then None else Some(c.buffer[|c.buffer| - 1])
  }

  function ReceiptByHash(c: Cache, transactionHash: Hash): Option<Receipt> {
    Get(c.receiptsByHash, transactionHash)
  }

  function ReceiptByBlockAndIndex(c: Cache, blockHash: Hash, index: u32): Option<Receipt> {
    var entries :- Get(c.receiptHashes, blockHash);
    var hash :- Get(entries, index);
    Get(c.receiptsByHash, hash)
  }

  function ReceiptsCount(c: Cache, blockHash: Hash): Option<nat> {
    var entries :- Get(c.receiptHashes, blockHash);
    Some(|entries|)
  }

  // ----- the class -----

  class BlockCache {
    const capacity: nat
    var buffer: seq<Block>
    var blocksByNumber: map<u32, Block>
    var blocksByHash: map<Hash, Block>
    var receiptsByHash: map<Hash, Receipt>
    var receiptHashes: map<Hash, map<u32, Hash>>

    ghost function View(): Cache
      reads this
    {
      Cache(buffer, blocksByNumber, blocksByHash, receiptsByHash, receiptHashes)
    }

    constructor (n: nat)
      ensures capacity == n && View() == EMPTY
    {
      capacity := n;
      buffer, blocksByNumber, blocksByHash, receiptsByHash, receiptHashes := [], map[], map[], map[], map[];
    }

    /** Remove the receipts that the entries name. */
    method RemoveReceipts(entries: map<u32, Hash>)
      modifies this`receiptsByHash
      ensures receiptsByHash == old(receiptsByHash) - entries.Values
    {
      var rest := entries.Values;
      while rest != {}
        invariant rest <= entries.Values
        invariant receiptsByHash == old(receiptsByHash) - (entries.Values - rest)
        decreases rest
      {
        var hash :| hash in rest;
        receiptsByHash := receiptsByHash - {hash};
        rest := rest - {hash};
      }
    }

    method InsertBlock(block: Block)
      modifies this
      ensures View() == Insert(capacity, old(View()), block)
    {
      if |buffer| >= capacity {
        if buffer != [] {
          var oldest := buffer[0];
          buffer := buffer[1..];
          blocksByHash := blocksByHash - {oldest.hash};
          blocksByNumber := blocksByNumber - {oldest.number};
          if oldest.hash in receiptHashes {
            var entries := receiptHashes[oldest.hash];
            receiptHashes := receiptHashes - {oldest.hash};
            RemoveReceipts(entries);
          }
        }
        assert View() == Prune(old(View()));
      }
      buffer := buffer + [block];
      blocksByNumber := blocksByNumber[block.number := block];
      blocksByHash := blocksByHash[block.hash := block];
    }
  }

  // ----- the subscription loop -----

  datatype StreamItem = Delivered(block: Block) | Reconnecting | Failed

  datatype ClientError = StreamFailed | ReceiptsFailed

  /** The receipts of a block as the node reports them, or the failure to fetch them. */
  type ReceiptSource = Block -> Option<Receipts>

  datatype Run = Run(cache: Cache, updates: nat, result: Outcome<(), ClientError>)

  /** What the loop does to a cache: it skips lost connections, stops at the first failure, and tells
      its watchers once per inserted block. */
  function RunStream(n: nat, c: Cache, stream: seq<StreamItem>, receiptInfos: ReceiptSource): Run
    decreases |stream|
  {
    if stream == [] then Run(c, 0, Ok(())) else
      match stream[0]
      case Reconnecting => RunStream(n, c, stream[1..], receiptInfos)
      case Failed => Run(c, 0, Err(StreamFailed))
      case Delivered(block) =>
        match receiptInfos(block)
        case None => Run(c, 0, Err(ReceiptsFailed))
        case Some(receipts) =>
          var r := RunStream(n, Deliver(n, c, block, receipts), stream[1..], receiptInfos);
          r.(updates := r.updates + 1)
  }

  method SubscribeBlocks(cache: BlockCache, stream: seq<StreamItem>, receiptInfos: ReceiptSource)
    returns (updates: nat, result: Outcome<(), ClientError>)
    modifies cache
    ensures Run(cache.View(), updates, result) == RunStream(cache.capacity, old(cache.View()), stream, receiptInfos)
  {
    updates := 0;
    var i := 0;
    while i < |stream|
      invariant 0 <= i <= |stream|
      invariant var rest := RunStream(cache.capacity, cache.View(), stream[i..], receiptInfos);
                rest.(updates := rest.updates + updates)
                == RunStream(cache.capacity, old(cache.View()), stream, receiptInfos)
    {
      assert stream[i..][1..] == stream[i + 1..];
      match stream[i] {
        case Reconnecting =>
        case Failed =>
          return updates, Err(StreamFailed);
        case Delivered(block) =>
          var infos := receiptInfos(block);
          if infos.None? {
            return updates, Err(ReceiptsFailed);
          }
          var receipts := infos.value;
          if receipts != map[] {
            var values := HashesByIndex(receipts);
            cache.receiptsByHash := cache.receiptsByHash + receipts;
            cache.receiptHashes := cache.receiptHashes[block.hash := values];
          }
          cache.InsertBlock(block);
          updates := updates + 1;
      }
      i := i + 1;
    }
    result := Ok(());
  }
}
