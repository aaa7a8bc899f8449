/** What the cache holds after any stream of blocks. */
module CacheProperties {
  import opened Outcomes
  import opened Numbers
  import opened BlockCache

  datatype Delivery = Delivery(block: Block, receipts: Receipts)

  /** The cache after a sequence of deliveries, from the empty cache. */
  function After(n: nat, ds: seq<Delivery>): Cache {
    if ds == [] then EMPTY else
      var d := ds[|ds| - 1];
      Deliver(n, After(n, ds[..|ds| - 1]), d.block, d.receipts)
  }

  /** A cache of capacity zero still keeps the latest block. */
  function Capacity(n: nat): nat {
    if n == 0 then 1 else n
  }

  /** The last `k` elements, or all of them. */
  function Last<T>(k: nat, s: seq<T>): seq<T> {
    if |s| <= k then s else s[|s| - k..]
  }

  /** The last deliveries, as many as the cache has room for. */
  function Window(n: nat, ds: seq<Delivery>): seq<Delivery> {
    Last(Capacity(n), ds)
  }

  /** The receipts of a delivery carry its block's hash and their own. */
  ghost predicate ReceiptsBelong(d: Delivery) {
    forall h | h in d.receipts ::
      d.receipts[h].transactionHash == h && d.receipts[h].blockHash == d.block.hash
  }

  ghost predicate Apart(d: Delivery, e: Delivery) {
    && d.block.hash != e.block.hash && d.block.number != e.block.number
    && d.receipts.Keys !! e.receipts.Keys
  }

  /** Blocks with distinct hashes and numbers, transactions with distinct hashes. */
  ghost predicate AllDistinct(ds: seq<Delivery>) {
    && (forall i | 0 <= i < |ds| :: ReceiptsBelong(ds[i]))
    && forall i, j | 0 <= i < j < |ds| :: Apart(ds[i], ds[j])
  }

  /** The same for different blocks; a block may be delivered any number of times. */
  ghost predicate Coherent(ds: seq<Delivery>) {
    && (forall i | 0 <= i < |ds| :: ReceiptsBelong(ds[i]))
    && forall i, j | 0 <= i < |ds| && 0 <= j < |ds| :: ds[i] == ds[j] || Apart(ds[i], ds[j])
  }

  /** The receipts are a function of the block. */
  ghost predicate SameReceipts(ds: seq<Delivery>) {
    forall i, j | 0 <= i < |ds| && 0 <= j < |ds| && ds[i].block.hash == ds[j].block.hash ::
      ds[i].receipts == ds[j].receipts
  }

  function Blocks(w: seq<Delivery>): (r: seq<Block>)
    ensures |r| == |w|
  {
    seq(|w|, i requires 0 <= i < |w| => w[i].block)
  }

  function BlockNumbers(w: seq<Delivery>): (r: seq<u32>)
    ensures |r| == |w|
  {
    seq(|w|, i requires 0 <= i < |w| => w[i].block.number)
  }

  function BlockHashes(w: seq<Delivery>): (r: seq<Hash>)
    ensures |r| == |w|
  {
    seq(|w|, i requires 0 <= i < |w| => w[i].block.hash)
  }

  lemma ColumnsAppend(ds: seq<Delivery>, d: Delivery)
    ensures Blocks(ds + [d]) == Blocks(ds) + [d.block]
    ensures BlockNumbers(ds + [d]) == BlockNumbers(ds) + [d.block.number]
    ensures BlockHashes(ds + [d]) == BlockHashes(ds) + [d.block.hash]
  {
  }

  lemma AfterOneMore(n: nat, ds: seq<Delivery>, d: Delivery)
    ensures After(n, ds + [d]) == Deliver(n, After(n, ds), d.block, d.receipts)
  {
    assert (ds + [d])[..|ds|] == ds;
  }

  // ----- the deque is the window -----

  /** How the last `k` elements move when one more arrives. */
  lemma LastStep<T>(k: nat, s: seq<T>, x: T)
    requires k > 0
    ensures var w := Last(k, s);
            && |w| == (if |s| <= k then |s| else k)
            && (|s| >= k ==> w[0] == s[|s| - k])
            && Last(k, s + [x]) == (if |w| >= k then w[1..] else w) + [x]
  {
  }

  lemma BlocksOfStep(w: seq<Delivery>, d: Delivery)
    ensures w != [] ==> Blocks(w[1..] + [d]) == Blocks(w)[1..] + [d.block] && Blocks(w)[0] == w[0].block
    ensures Blocks(w + [d]) == Blocks(w) + [d.block]
  {
  }

  /** For every stream, repeated blocks and a capacity of zero included: the deque is exactly the last
      min(k, N) deliveries in order. */
  lemma {:induction false} DequeIsWindow(n: nat, ds: seq<Delivery>)
    ensures After(n, ds).buffer == Blocks(Window(n, ds))
  {
    hide Last, Prune, Push, AddReceipts;
    if ds == [] {
      assert Last(Capacity(n), ds) == [] by { LastOfEmpty<Delivery>(Capacity(n)); }
    } else {
      var earlier, d := ds[..|ds| - 1], ds[|ds| - 1];
      assert earlier + [d] == ds;
      DequeIsWindow(n, earlier);
      LastStep(Capacity(n), earlier, d);
      BlocksOfStep(Window(n, earlier), d);
      var c := AddReceipts(After(n, earlier), d.block, d.receipts);
      AddReceiptsKeepsBlocks(After(n, earlier), d);
      PruneShortens(c);
    }
  }

  lemma LastOfEmpty<T>(k: nat)
    ensures Last<T>(k, []) == []
  {
  }

  lemma AddReceiptsKeepsBlocks(c: Cache, d: Delivery)
    ensures var c' := AddReceipts(c, d.block, d.receipts);
            c'.buffer == c.buffer && c'.blocksByNumber == c.blocksByNumber && c'.blocksByHash == c.blocksByHash
  {
    hide HashesByIndex;
  }

  /** Whatever is delivered, the latest block of the cache is the last one delivered, and before any there
      is none. */
  lemma LatestIsLastDelivered(n: nat, ds: seq<Delivery>)
    ensures LatestBlock(After(n, ds)) == if ds == [] then None else Some(ds[|ds| - 1].block)
  {
    hide After;
    DequeIsWindow(n, ds);
    assert ds != [] ==> Window(n, ds)[|Window(n, ds)| - 1] == ds[|ds| - 1];
  }

  // ----- what a map keyed by block keeps -----

  /** The key is stored with the delivery at `l`. The delivery at `i` leaves with the one at `i + n`, and
      takes its key along; with a gap of one, also if `l` is the very delivery it leaves with. */
  ghost predicate KeptFrom<K>(n: nat, keys: seq<K>, l: nat, gap: nat) {
    && l < |keys|
    && forall i: nat | i + n < |keys| && keys[i] == keys[l] :: i + n + gap <= l
  }

  ghost predicate Kept<K>(n: nat, keys: seq<K>, k: K, gap: nat) {
    exists l: nat :: KeptFrom(n, keys, l, gap) && keys[l] == k
  }

  /** The key of the delivery that leaves when one more arrives. */
  predicate Leaves<K(==)>(n: nat, keys: seq<K>, k: K) {
    0 < n <= |keys| && keys[|keys| - n] == k
  }

  /** What one more delivery does to the keys: without a gap the key of the oldest is removed before the
      new one is stored, with a gap of one after that. */
  lemma KeptStep<K>(n: nat, keys: seq<K>, x: K, k: K)
    requires n > 0
    ensures Kept(n, keys + [x], k, 0) <==> k == x || (Kept(n, keys, k, 0) && !Leaves(n, keys, k))
    ensures Kept(n, keys + [x], k, 1) <==> !Leaves(n, keys, k) && (k == x || Kept(n, keys, k, 1))
  {
    var longer := keys + [x];
    assert forall i: nat | i < |keys| :: longer[i] == keys[i];
    forall gap | gap == 0 || gap == 1
      ensures Kept(n, longer, k, gap)
         <==> if gap == 0 then k == x || (Kept(n, keys, k, 0) && !Leaves(n, keys, k))
              else !Leaves(n, keys, k) && (k == x || Kept(n, keys, k, 1))
    {
      if Kept(n, longer, k, gap) {
        KeptAfter(n, keys, x, k, gap);
      }
      if if gap == 0 then k == x || (Kept(n, keys, k, 0) && !Leaves(n, keys, k))
         else !Leaves(n, keys, k) && (k == x || Kept(n, keys, k, 1)) {
        KeptBefore(n, keys, x, k, gap);
      }
    }
  }

  lemma KeptAfter<K>(n: nat, keys: seq<K>, x: K, k: K, gap: nat)
    requires n > 0 && gap <= 1 && Kept(n, keys + [x], k, gap)
    ensures gap == 0 ==> k == x || (Kept(n, keys, k, 0) && !Leaves(n, keys, k))
    ensures gap == 1 ==> !Leaves(n, keys, k) && (k == x || Kept(n, keys, k, 1))
  {
    var longer := keys + [x];
    assert forall i: nat | i < |keys| :: longer[i] == keys[i];
    var l: nat :| KeptFrom(n, longer, l, gap) && longer[l] == k;
    if Leaves(n, keys, k) {
      assert longer[|keys| - n] == k;
    }
    if l < |keys| {
      assert KeptFrom(n, keys, l, gap);
    }
  }

  lemma KeptBefore<K>(n: nat, keys: seq<K>, x: K, k: K, gap: nat)
    requires n > 0 && gap <= 1
    requires (k == x && (gap == 1 ==> !Leaves(n, keys, k))) || (Kept(n, keys, k, gap) && !Leaves(n, keys, k))
    ensures Kept(n, keys + [x], k, gap)
  {
    var longer := keys + [x];
    assert forall i: nat | i < |keys| :: longer[i] == keys[i];
    if k == x && (gap == 1 ==> !Leaves(n, keys, k)) {
      assert KeptFrom(n, longer, |keys|, gap);
    } else {
      var l: nat :| KeptFrom(n, keys, l, gap) && keys[l] == k;
      assert KeptFrom(n, longer, l, gap);
    }
  }

  /** What is kept is in the window; and a key that is delivered only once is kept as long as it is. */
  lemma KeptInWindow<K>(n: nat, keys: seq<K>, l: nat, gap: nat)
    requires n > 0 && gap <= 1 && l < |keys|
    ensures Kept(n, keys, keys[l], gap) ==> keys[l] in keys[if |keys| <= n then 0 else |keys| - n..]
    ensures (forall j | 0 <= j < |keys| && j != l :: keys[j] != keys[l]) ==>
              (Kept(n, keys, keys[l], gap) <==> |keys| <= l + n)
  {
    if Kept(n, keys, keys[l], gap) {
      var m: nat :| KeptFrom(n, keys, m, gap) && keys[m] == keys[l];
      var from := if |keys| <= n then 0 else |keys| - n;
      assert keys[from..][m - from] == keys[m];
    }
    if (forall j | 0 <= j < |keys| && j != l :: keys[j] != keys[l]) && |keys| <= l + n {
      assert KeptFrom(n, keys, l, gap);
    }
  }

  /** A map from keys to blocks holds exactly the kept keys, each with the block that came with it last. */
  ghost predicate HoldsBlocks<K(!new)>(m: map<K, Block>, n: nat, keys: seq<K>, blocks: seq<Block>) {
    && |keys| == |blocks|
    && (forall k :: k in m <==> Kept(n, keys, k, 0))
    && (forall l | 0 <= l < |keys| && keys[l] in m && keys[l] !in keys[l + 1..] :: m[keys[l]] == blocks[l])
  }

  lemma HoldsBlocksStep<K(!new)>(m: map<K, Block>, n: nat, keys: seq<K>, blocks: seq<Block>, k: K, b: Block)
    requires n > 0 && HoldsBlocks(m, n, keys, blocks)
    ensures HoldsBlocks((if n <= |keys| then m - {keys[|keys| - n]} else m)[k := b], n, keys + [k], blocks + [b])
  {
    var m' := (if n <= |keys| then m - {keys[|keys| - n]} else m)[k := b];
    var longer := keys + [k];
    forall j
      ensures j in m' <==> Kept(n, longer, j, 0)
    {
      KeptStep(n, keys, k, j);
    }
    forall l | 0 <= l < |longer| && longer[l] in m' && longer[l] !in longer[l + 1..]
      ensures m'[longer[l]] == (blocks + [b])[l]
    {
      if l < |keys| {
        assert longer[l + 1..] == keys[l + 1..] + [k];
        assert keys[l] != k && keys[l] in m && keys[l] !in keys[l + 1..];
      }
    }
  }

  /** Both block maps, for every stream. */
  lemma {:induction false} BlockMapsHold(n: nat, ds: seq<Delivery>)
    ensures HoldsBlocks(After(n, ds).blocksByNumber, Capacity(n), BlockNumbers(ds), Blocks(ds))
    ensures HoldsBlocks(After(n, ds).blocksByHash, Capacity(n), BlockHashes(ds), Blocks(ds))
  {
    hide Blocks, BlockNumbers, BlockHashes, HoldsBlocks, Deliver, AddReceipts;
    if ds == [] {
      NothingHeld(Capacity(n));
    } else {
      var earlier, d := ds[..|ds| - 1], ds[|ds| - 1];
      assert earlier + [d] == ds;
      BlockMapsHold(n, earlier);
      hide After, Capacity;
      AfterOneMore(n, earlier, d);
      ColumnsAppend(earlier, d);
      AddReceiptsKeepsBlocks(After(n, earlier), d);
      PrunedKeys(n, earlier, d);
      CapacityIsPositive(n);
      HoldsBlocksStep(After(n, earlier).blocksByNumber, Capacity(n), BlockNumbers(earlier), Blocks(earlier),
                      d.block.number, d.block);
      HoldsBlocksStep(After(n, earlier).blocksByHash, Capacity(n), BlockHashes(earlier), Blocks(earlier),
                      d.block.hash, d.block);
    }
  }

  lemma CapacityIsPositive(n: nat)
    ensures Capacity(n) > 0
  {
  }

  lemma NothingHeld(n: nat)
    ensures HoldsBlocks(map[], n, BlockNumbers([]), Blocks([])) && HoldsBlocks(map[], n, BlockHashes([]), Blocks([]))
  {
  }

  /** The delivery that leaves when one more arrives. */
  function Leaving(n: nat, ds: seq<Delivery>): Option<Delivery> {
    if |ds| < Capacity(n) then None else Some(ds[|ds| - Capacity(n)])
  }

  /** The receipt index once the receipts of a delivery are stored. */
  function Indexed(index: map<Hash, map<u32, Hash>>, d: Delivery): map<Hash, map<u32, Hash>> {
    if d.receipts == map[] then index else index[d.block.hash := HashesByIndex(d.receipts)]
  }

  /** The receipts that leave with a delivery: those that the index lists. */
  function Gone(index: map<Hash, map<u32, Hash>>, e: Option<Delivery>): set<Hash> {
    if e.Some? && e.value.block.hash in index then index[e.value.block.hash].Values else {}
  }

  function HashOf(e: Option<Delivery>): set<Hash> {
    if e.Some? then {e.value.block.hash} else {}
  }

  /** What inserting the next block removes, in terms of the delivery that leaves. */
  lemma PrunedKeys(n: nat, ds: seq<Delivery>, d: Delivery)
    ensures var c, e := AddReceipts(After(n, ds), d.block, d.receipts), Leaving(n, ds);
            var c' := Deliver(n, After(n, ds), d.block, d.receipts);
            && c'.blocksByNumber == (if e.Some? then c.blocksByNumber - {e.value.block.number} else c.blocksByNumber)
                                    [d.block.number := d.block]
            && c'.blocksByHash == (if e.Some? then c.blocksByHash - {e.value.block.hash} else c.blocksByHash)
                                  [d.block.hash := d.block]
            && c'.receiptHashes == c.receiptHashes - HashOf(e)
            && c'.receiptsByHash == c.receiptsByHash - Gone(c.receiptHashes, e)
    ensures Leaving(n, ds).Some? ==>
              var e := Leaving(n, ds).value;
              && BlockHashes(ds)[|ds| - Capacity(n)] == e.block.hash
              && BlockNumbers(ds)[|ds| - Capacity(n)] == e.block.number
  {
    hide After, AddReceipts;
    DequeIsWindow(n, ds);
    AddReceiptsKeepsBlocks(After(n, ds), d);
    var c := AddReceipts(After(n, ds), d.block, d.receipts);
    assert c.receiptHashes - {} == c.receiptHashes && c.receiptsByHash - {} == c.receiptsByHash;
    var w := Window(n, ds);
    assert |ds| >= Capacity(n) ==> w[0] == ds[|ds| - Capacity(n)];
  }

  // ----- what the receipt maps keep -----

  /** The blocks found by hash, and the blocks whose receipts are found: the exact conditions, which differ
      by whether the delivery at which a copy leaves saves the key. */
  ghost predicate BlockKept(n: nat, ds: seq<Delivery>, blockHash: Hash) {
    Kept(Capacity(n), BlockHashes(ds), blockHash, 0)
  }

  ghost predicate ReceiptsKept(n: nat, ds: seq<Delivery>, blockHash: Hash) {
    Kept(Capacity(n), BlockHashes(ds), blockHash, 1)
  }

  lemma ReceiptsKeptStep(n: nat, ds: seq<Delivery>, d: Delivery, blockHash: Hash)
    ensures ReceiptsKept(n, ds + [d], blockHash)
       <==> && !(Leaving(n, ds).Some? && Leaving(n, ds).value.block.hash == blockHash)
            && (blockHash == d.block.hash || ReceiptsKept(n, ds, blockHash))
  {
    hide Kept;
    ColumnsAppend(ds, d);
    KeptStep(Capacity(n), BlockHashes(ds), d.block.hash, blockHash);
  }

  /** The receipt index lists a delivered block exactly when it is kept and has receipts. */
  ghost predicate HoldsIndex(m: map<Hash, map<u32, Hash>>, n: nat, ds: seq<Delivery>) {
    && (forall l | 0 <= l < |ds| ::
          var h := ds[l].block.hash;
          && (h in m <==> ReceiptsKept(n, ds, h) && ds[l].receipts != map[])
          && (h in m ==> m[h] == HashesByIndex(ds[l].receipts)))
    && (forall h | h in m :: exists l :: 0 <= l < |ds| && ds[l].block.hash == h)
  }

  lemma HoldsIndexStep(m: map<Hash, map<u32, Hash>>, n: nat, ds: seq<Delivery>, d: Delivery)
    requires HoldsIndex(m, n, ds) && SameReceipts(ds + [d])
    ensures HoldsIndex(Indexed(m, d) - HashOf(Leaving(n, ds)), n, ds + [d])
  {
    hide ReceiptsKept, HashesByIndex, SameReceipts, Leaving;
    var longer := ds + [d];
    var m' := Indexed(m, d) - HashOf(Leaving(n, ds));
    forall l | 0 <= l < |longer|
      ensures var h := longer[l].block.hash;
              && (h in m' <==> ReceiptsKept(n, longer, h) && longer[l].receipts != map[])
              && (h in m' ==> m'[h] == HashesByIndex(longer[l].receipts))
    {
      var h := longer[l].block.hash;
      ReceiptsKeptStep(n, ds, d, h);
      SameAsLast(ds, d, l);
      if h in m {
        var k :| 0 <= k < |ds| && ds[k].block.hash == h;
        SameAsLast(ds, d, k);
      }
    }
    forall h | h in m'
      ensures exists l :: 0 <= l < |longer| && longer[l].block.hash == h
    {
      if h in m {
        var l :| 0 <= l < |ds| && ds[l].block.hash == h;
        assert longer[l].block.hash == h;
      } else {
        assert longer[|ds|].block.hash == h;
      }
    }
  }

  lemma SameAsLast(ds: seq<Delivery>, d: Delivery, l: nat)
    requires SameReceipts(ds + [d]) && l <= |ds|
    ensures l < |ds| ==> (ds + [d])[l] == ds[l]
    ensures (ds + [d])[l].block.hash == d.block.hash ==> (ds + [d])[l].receipts == d.receipts
  {
    assert (ds + [d])[|ds|] == d;
  }

  /** The receipts found by hash are exactly those of the kept blocks. */
  ghost predicate HoldsReceipts(m: map<Hash, Receipt>, n: nat, ds: seq<Delivery>) {
    && (forall l, t | 0 <= l < |ds| && t in ds[l].receipts ::
          && (t in m <==> ReceiptsKept(n, ds, ds[l].block.hash))
          && (t in m ==> m[t] == ds[l].receipts[t]))
    && (forall t | t in m :: exists l :: 0 <= l < |ds| && t in ds[l].receipts)
  }

  lemma HashesAreKeys(receipts: Receipts)
    ensures HashesByIndex(receipts).Values == receipts.Keys
  {
    var m := HashesByIndex(receipts);
    forall h | h in receipts
      ensures h in m.Values
    {
      assert m[receipts[h].transactionIndex] == h;
    }
  }

  /** Two deliveries of a coherent stream that share a block or a transaction are the same. */
  lemma SameOrApart(ds: seq<Delivery>, i: nat, j: nat)
    requires Coherent(ds) && i < |ds| && j < |ds|
    ensures ds[i].block.hash == ds[j].block.hash ==> ds[i] == ds[j]
    ensures ds[i].block.hash != ds[j].block.hash ==> ds[i].receipts.Keys !! ds[j].receipts.Keys
  {
    assert ds[i] == ds[j] || Apart(ds[i], ds[j]);
  }

  lemma CoherentSlice(ds: seq<Delivery>, d: Delivery)
    requires Coherent(ds + [d])
    ensures Coherent(ds) && SameReceipts(ds + [d])
  {
    var longer := ds + [d];
    assert forall i | 0 <= i < |ds| :: longer[i] == ds[i];
    forall i, j | 0 <= i < |longer| && 0 <= j < |longer| && longer[i].block.hash == longer[j].block.hash
      ensures longer[i].receipts == longer[j].receipts
    {
      SameOrApart(longer, i, j);
    }
  }

  /** What leaves with a delivery are receipts of its block, and none of its receipts stays. */
  lemma LeavingReceipts(m: map<Hash, Receipt>, index: map<Hash, map<u32, Hash>>, n: nat, ds: seq<Delivery>, d: Delivery,
                        e: Delivery, t: Hash)
    requires HoldsReceipts(m, n, ds) && HoldsIndex(index, n, ds) && Coherent(ds + [d])
    requires Leaving(n, ds) == Some(e)
    ensures t in Gone(Indexed(index, d), Some(e)) ==> t in e.receipts
    ensures t in e.receipts ==> t !in m + d.receipts - Gone(Indexed(index, d), Some(e))
  {
    hide ReceiptsKept, HashesByIndex, Coherent;
    var longer, k := ds + [d], |ds| - Capacity(n);
    assert longer[|ds|] == d && longer[k] == e && ds[k] == e;
    SameOrApart(longer, k, |ds|);
    HashesAreKeys(e.receipts);
  }

  lemma HoldsReceiptsStep(m: map<Hash, Receipt>, index: map<Hash, map<u32, Hash>>, n: nat, ds: seq<Delivery>,
                          d: Delivery)
    requires HoldsReceipts(m, n, ds) && HoldsIndex(index, n, ds) && Coherent(ds + [d])
    ensures HoldsReceipts(m + d.receipts - Gone(Indexed(index, d), Leaving(n, ds)), n, ds + [d])
  {
    var longer, m' := ds + [d], m + d.receipts - Gone(Indexed(index, d), Leaving(n, ds));
    assert HoldsReceipts(m', n, longer) by {
      hide Coherent, HoldsIndex, Gone, Indexed, ReceiptsKept;
      forall l, t | 0 <= l < |longer| && t in longer[l].receipts
        ensures t in m' <==> ReceiptsKept(n, longer, longer[l].block.hash)
        ensures t in m' ==> m'[t] == longer[l].receipts[t]
      {
        hide HoldsReceipts;
        ReceiptOfStep(m, index, n, ds, d, l, t);
      }
      forall t | t in m'
        ensures exists l :: 0 <= l < |longer| && t in longer[l].receipts
      {
        hide HoldsReceipts;
        HolderOf(m, n, ds, d, t);
      }
    }
  }

  lemma HolderOf(m: map<Hash, Receipt>, n: nat, ds: seq<Delivery>, d: Delivery, t: Hash)
    requires HoldsReceipts(m, n, ds) && t in m + d.receipts
    ensures exists l :: 0 <= l <= |ds| && t in (ds + [d])[l].receipts
  {
    if t in d.receipts {
      assert t in (ds + [d])[|ds|].receipts;
    } else {
      var l :| 0 <= l < |ds| && t in ds[l].receipts;
      assert t in (ds + [d])[l].receipts;
    }
  }

  lemma HeldReceipt(m: map<Hash, Receipt>, n: nat, ds: seq<Delivery>, l: nat, t: Hash)
    requires HoldsReceipts(m, n, ds) && l < |ds| && t in ds[l].receipts
    ensures t in m <==> ReceiptsKept(n, ds, ds[l].block.hash)
    ensures t in m ==> m[t] == ds[l].receipts[t]
  {
  }

  lemma IndexAt(m: map<Hash, map<u32, Hash>>, n: nat, ds: seq<Delivery>, l: nat)
    requires HoldsIndex(m, n, ds) && l < |ds|
    ensures var h := ds[l].block.hash;
            && (h in m <==> ReceiptsKept(n, ds, h) && ds[l].receipts != map[])
            && (h in m ==> m[h] == HashesByIndex(ds[l].receipts))
  {
    hide ReceiptsKept, HashesByIndex;
  }

  lemma ReceiptOfStep(m: map<Hash, Receipt>, index: map<Hash, map<u32, Hash>>, n: nat, ds: seq<Delivery>, d: Delivery,
                      l: nat, t: Hash)
    requires HoldsReceipts(m, n, ds) && HoldsIndex(index, n, ds) && Coherent(ds + [d])
    requires l <= |ds| && t in (ds + [d])[l].receipts
    ensures var m' := m + d.receipts - Gone(Indexed(index, d), Leaving(n, ds));
            && (t in m' <==> ReceiptsKept(n, ds + [d], (ds + [d])[l].block.hash))
            && (t in m' ==> m'[t] == (ds + [d])[l].receipts[t])
  {
    hide ReceiptsKept, Coherent, HoldsIndex, HoldsReceipts, Indexed;
    var longer := ds + [d];
    assert longer[|ds|] == d && (l < |ds| ==> longer[l] == ds[l]);
    ReceiptsKeptStep(n, ds, d, longer[l].block.hash);
    SameOrApart(longer, l, |ds|);
    if l < |ds| {
      HeldReceipt(m, n, ds, l, t);
    }
    if Leaving(n, ds).Some? {
      var k := |ds| - Capacity(n);
      assert longer[k] == ds[k];
      SameOrApart(longer, l, k);
      LeavingReceipts(m, index, n, ds, d, ds[k], t);
    }
    hide Gone;
  }

  /** Both receipt maps, for every coherent stream. */
  lemma {:induction false} ReceiptMapsHold(n: nat, ds: seq<Delivery>)
    requires Coherent(ds)
    ensures HoldsIndex(After(n, ds).receiptHashes, n, ds) && HoldsReceipts(After(n, ds).receiptsByHash, n, ds)
  {
    hide Coherent, HoldsIndex, HoldsReceipts, HashesByIndex, Insert;
    if ds == [] {
      NoReceiptsHeld(n);
    } else {
      var earlier, d := ds[..|ds| - 1], ds[|ds| - 1];
      assert earlier + [d] == ds;
      CoherentSlice(earlier, d);
      ReceiptMapsHold(n, earlier);
      var c := After(n, earlier);
      PrunedKeys(n, earlier, d);
      HoldsIndexStep(c.receiptHashes, n, earlier, d);
      HoldsReceiptsStep(c.receiptsByHash, c.receiptHashes, n, earlier, d);
      StoredReceipts(c, d);
    }
  }

  lemma NoReceiptsHeld(n: nat)
    ensures HoldsIndex(map[], n, []) && HoldsReceipts(map[], n, [])
  {
  }

  lemma StoredReceipts(c: Cache, d: Delivery)
    ensures var c' := AddReceipts(c, d.block, d.receipts);
            c'.receiptsByHash == c.receiptsByHash + d.receipts && c'.receiptHashes == Indexed(c.receiptHashes, d)
  {
    hide HashesByIndex;
    assert c.receiptsByHash + map[] == c.receiptsByHash;
  }

  /** Refinement. For every stream the deque is exactly the last min(k, N) deliveries, and both block maps
      hold exactly the kept keys; for every coherent stream both receipt maps hold exactly what belongs to
      the kept blocks. */
  lemma CacheIsWindow(n: nat, ds: seq<Delivery>)
    ensures After(n, ds).buffer == Blocks(Window(n, ds))
    ensures HoldsBlocks(After(n, ds).blocksByNumber, Capacity(n), BlockNumbers(ds), Blocks(ds))
    ensures HoldsBlocks(After(n, ds).blocksByHash, Capacity(n), BlockHashes(ds), Blocks(ds))
    ensures Coherent(ds) ==>
              HoldsIndex(After(n, ds).receiptHashes, n, ds) && HoldsReceipts(After(n, ds).receiptsByHash, n, ds)
  {
    hide *;
    DequeIsWindow(n, ds);
    BlockMapsHold(n, ds);
    if Coherent(ds) {
      ReceiptMapsHold(n, ds);
    }
  }

  // ----- once a block is delivered twice -----

  /** A block that is delivered once is found, and its receipts are, exactly while it is in the window. */
  lemma OnceIsWindow(n: nat, ds: seq<Delivery>, l: nat)
    requires l < |ds| && forall j | 0 <= j < |ds| && j != l :: ds[j].block.hash != ds[l].block.hash
    ensures BlockKept(n, ds, ds[l].block.hash) <==> |ds| - Capacity(n) <= l
    ensures ReceiptsKept(n, ds, ds[l].block.hash) <==> |ds| - Capacity(n) <= l
  {
    hide Kept;
    KeptInWindow(Capacity(n), BlockHashes(ds), l, 0);
    KeptInWindow(Capacity(n), BlockHashes(ds), l, 1);
  }

  /** In a stream of distinct blocks, this holds of all of them. */
  lemma DistinctIsCoherent(n: nat, ds: seq<Delivery>)
    requires AllDistinct(ds)
    ensures Coherent(ds)
    ensures forall l | 0 <= l < |ds| :: ReceiptsKept(n, ds, ds[l].block.hash) <==> |ds| - Capacity(n) <= l
    ensures forall l | 0 <= l < |ds| :: BlockKept(n, ds, ds[l].block.hash) <==> |ds| - Capacity(n) <= l
  {
    hide BlockKept, ReceiptsKept;
    forall i, j | 0 <= i < |ds| && 0 <= j < |ds|
      ensures ds[i] == ds[j] || Apart(ds[i], ds[j])
    {
      assert i < j ==> Apart(ds[i], ds[j]);
      assert j < i ==> Apart(ds[j], ds[i]);
    }
    forall l | 0 <= l < |ds|
      ensures ReceiptsKept(n, ds, ds[l].block.hash) <==> |ds| - Capacity(n) <= l
      ensures BlockKept(n, ds, ds[l].block.hash) <==> |ds| - Capacity(n) <= l
    {
      forall j | 0 <= j < |ds| && j != l
        ensures ds[j].block.hash != ds[l].block.hash
      {
        assert if j < l then Apart(ds[j], ds[l]) else Apart(ds[l], ds[j]);
      }
      OnceIsWindow(n, ds, l);
    }
  }

  /** When a copy of a block leaves, the block is lost, whether or not the deque holds another copy; unless
      the delivery it leaves with is of the same block, which then is found, but not its receipts. */
  lemma LeavingLosesCopies(n: nat, ds: seq<Delivery>, d: Delivery)
    requires Leaving(n, ds).Some?
    ensures var h := Leaving(n, ds).value.block.hash;
            && !ReceiptsKept(n, ds + [d], h)
            && (BlockKept(n, ds + [d], h) <==> d.block.hash == h)
  {
    hide Kept;
    var h := Leaving(n, ds).value.block.hash;
    ColumnsAppend(ds, d);
    KeptStep(Capacity(n), BlockHashes(ds), d.block.hash, h);
    ReceiptsKeptStep(n, ds, d, h);
    assert Leaves(Capacity(n), BlockHashes(ds), h);
  }

  /** What is lost: the block is not found, its receipts are not found, nor their count. */
  lemma LostIsNotFound(n: nat, ds: seq<Delivery>, l: nat, t: Hash)
    requires Coherent(ds) && l < |ds| && t in ds[l].receipts
    ensures ds[l].block.hash in After(n, ds).blocksByHash <==> BlockKept(n, ds, ds[l].block.hash)
    ensures !ReceiptsKept(n, ds, ds[l].block.hash) ==>
              ReceiptByHash(After(n, ds), t) == None && ReceiptsCount(After(n, ds), ds[l].block.hash) == None
  {
    hide After, Coherent, HoldsIndex, HoldsReceipts, ReceiptsKept, Kept;
    CacheIsWindow(n, ds);
    HeldReceipt(After(n, ds).receiptsByHash, n, ds, l, t);
    IndexAt(After(n, ds).receiptHashes, n, ds, l);
  }

  lemma TwoAreCoherent(a: Delivery, b: Delivery, ds: seq<Delivery>)
    requires ReceiptsBelong(a) && ReceiptsBelong(b) && (a == b || Apart(a, b))
    requires forall i | 0 <= i < |ds| :: ds[i] == a || ds[i] == b
    ensures Coherent(ds)
  {
    hide ReceiptsBelong;
    assert a != b ==> Apart(b, a);
  }

  /** The smallest loss: with room for two blocks, a block delivered twice and then another one. The deque
      holds both blocks; the first is not found, nor any of its receipts. */
  lemma RepeatLosesBlock(a: Delivery, b: Delivery, t: Hash)
    requires ReceiptsBelong(a) && ReceiptsBelong(b) && Apart(a, b) && t in a.receipts
    ensures var c := After(2, [a, a, b]);
            && c.buffer == [a.block, b.block]
            && a.block.hash !in c.blocksByHash
            && ReceiptByHash(c, t) == None && ReceiptsCount(c, a.block.hash) == None
  {
    var ds := [a, a, b];
    assert ds == [a, a] + [b] && a.block.hash != b.block.hash && Leaving(2, [a, a]) == Some(a);
    assert Window(2, ds) == [a, b] && Blocks([a, b]) == [a.block, b.block];
    hide After, ReceiptsKept, BlockKept, Coherent, ReceiptsBelong, Apart, Window, Leaving, Blocks, ReceiptByHash,
         ReceiptsCount;
    TwoAreCoherent(a, b, ds);
    LeavingLosesCopies(2, [a, a], b);
    DequeIsWindow(2, ds);
    LostIsNotFound(2, ds, 0, t);
  }

  /** With room for one, delivering it again is enough to lose its receipts, though the block is found. */
  lemma RepeatLosesReceipts(a: Delivery, t: Hash)
    requires ReceiptsBelong(a) && t in a.receipts
    ensures var c := After(1, [a, a]);
            && c.buffer == [a.block] && a.block.hash in c.blocksByHash
            && ReceiptByHash(c, t) == None && ReceiptsCount(c, a.block.hash) == None
  {
    var ds := [a, a];
    assert ds == [a] + [a] && Leaving(1, [a]) == Some(a);
    assert Window(1, ds) == [a] && Blocks([a]) == [a.block];
    hide After, ReceiptsKept, BlockKept, Coherent, ReceiptsBelong, Apart, Window, Leaving, Blocks, ReceiptByHash,
         ReceiptsCount;
    TwoAreCoherent(a, a, ds);
    LeavingLosesCopies(1, [a], a);
    DequeIsWindow(1, ds);
    LostIsNotFound(1, ds, 0, t);
  }

  // ----- what the lookups return -----

  lemma {:induction false} InjectiveCardinality<K, V>(m: map<K, V>)
    requires forall j, k | j in m && k in m && m[j] == m[k] :: j == k
    ensures |m.Values| == |m|
  {
    if m == map[] {
    } else {
      var k :| k in m;
      var rest := m - {k};
      InjectiveCardinality(rest);
      forall v | v in m.Values
        ensures v == m[k] || v in rest.Values
      {
        var j :| j in m && m[j] == v;
        assert j != k ==> rest[j] == v;
      }
      assert m.Values == rest.Values + {m[k]};
      assert m[k] !in rest.Values;
      assert rest.Keys == m.Keys - {k};
    }
  }

  lemma InverseCardinality(receipts: Receipts)
    ensures |HashesByIndex(receipts)| == |receipts|
  {
    HashesAreKeys(receipts);
    InjectiveCardinality(HashesByIndex(receipts));
  }

  /** `r` is the receipt of the transaction `t` in a delivery of a block whose receipts are kept. */
  ghost predicate KeptReceipt(n: nat, ds: seq<Delivery>, l: nat, t: Hash, r: Receipt) {
    && l < |ds| && t in ds[l].receipts && ds[l].receipts[t] == r
    && ReceiptsKept(n, ds, ds[l].block.hash)
  }

  /** The same with the window in place of what is kept. */
  ghost predicate WindowReceipt(n: nat, ds: seq<Delivery>, l: nat, t: Hash, r: Receipt) {
    |ds| - Capacity(n) <= l < |ds| && t in ds[l].receipts && ds[l].receipts[t] == r
  }

  /** A receipt is found by its hash exactly when its block is kept; while no block is delivered twice,
      exactly when its block is among the last N delivered. */
  lemma ReceiptFoundIffInWindow(n: nat, ds: seq<Delivery>, t: Hash, r: Receipt)
    requires Coherent(ds)
    ensures ReceiptByHash(After(n, ds), t) == Some(r) <==> exists l: nat :: KeptReceipt(n, ds, l, t, r)
    ensures AllDistinct(ds) ==>
              (ReceiptByHash(After(n, ds), t) == Some(r) <==> exists l: nat :: WindowReceipt(n, ds, l, t, r))
  {
    hide After, ReceiptsKept, Coherent, HoldsReceipts, HoldsIndex, AllDistinct;
    ReceiptMapsHold(n, ds);
    var m := After(n, ds).receiptsByHash;
    if t in m && m[t] == r {
      var l := Holder(m, n, ds, t);
      assert KeptReceipt(n, ds, l, t, r);
    }
    if l: nat :| KeptReceipt(n, ds, l, t, r) {
      HeldReceipt(m, n, ds, l, t);
    }
    if AllDistinct(ds) {
      KeptIsWindow(n, ds, t, r);
      hide KeptReceipt, WindowReceipt;
    }
  }

  lemma Holder(m: map<Hash, Receipt>, n: nat, ds: seq<Delivery>, t: Hash) returns (l: nat)
    requires HoldsReceipts(m, n, ds) && t in m
    ensures l < |ds| && t in ds[l].receipts && m[t] == ds[l].receipts[t] && ReceiptsKept(n, ds, ds[l].block.hash)
  {
    hide ReceiptsKept;
    l :| 0 <= l < |ds| && t in ds[l].receipts;
  }

  lemma KeptIsWindow(n: nat, ds: seq<Delivery>, t: Hash, r: Receipt)
    requires AllDistinct(ds)
    ensures forall l: nat :: KeptReceipt(n, ds, l, t, r) <==> WindowReceipt(n, ds, l, t, r)
  {
    hide ReceiptsKept, AllDistinct;
    DistinctIsCoherent(n, ds);
  }

  /** The lookup goes through the hash that the index lists. */
  lemma LookupByIndex(c: Cache, blockHash: Hash, index: u32, t: Hash)
    requires blockHash in c.receiptHashes && index in c.receiptHashes[blockHash]
    requires c.receiptHashes[blockHash][index] == t
    ensures ReceiptByBlockAndIndex(c, blockHash, index) == Get(c.receiptsByHash, t)
  {
  }

  lemma IndexOfReceipt(receipts: Receipts, t: Hash, index: u32)
    ensures t in receipts && receipts[t].transactionIndex == index
       <==> index in HashesByIndex(receipts) && HashesByIndex(receipts)[index] == t
  {
  }

  /** The lookup by block and index finds exactly the kept receipts at their place. A listed hash never
      dangles, and what is returned carries the block hash and the index asked for. */
  lemma ReceiptFoundByIndex(n: nat, ds: seq<Delivery>, blockHash: Hash, index: u32, r: Receipt)
    requires Coherent(ds)
    ensures ReceiptByBlockAndIndex(After(n, ds), blockHash, index) == Some(r)
       <==> r.blockHash == blockHash && r.transactionIndex == index
            && exists l: nat, t: Hash :: KeptReceipt(n, ds, l, t, r)
    ensures AllDistinct(ds) ==>
              (ReceiptByBlockAndIndex(After(n, ds), blockHash, index) == Some(r)
               <==> r.blockHash == blockHash && r.transactionIndex == index
                    && exists l: nat, t: Hash :: WindowReceipt(n, ds, l, t, r))
    ensures var c := After(n, ds);
            blockHash in c.receiptHashes && index in c.receiptHashes[blockHash] ==>
              ReceiptByBlockAndIndex(c, blockHash, index).Some?
  {
    hide After, ReceiptsKept, Coherent, HashesByIndex, HoldsIndex, HoldsReceipts, ReceiptByBlockAndIndex, AllDistinct;
    ReceiptMapsHold(n, ds);
    var c := After(n, ds);
    if blockHash in c.receiptHashes && index in c.receiptHashes[blockHash] {
      var l, t := IndexedReceiptExists(c, n, ds, blockHash, index);
      assert KeptReceipt(n, ds, l, t, ds[l].receipts[t]);
    } else {
      NotIndexed(c, blockHash, index);
    }
    if l: nat, t: Hash :| KeptReceipt(n, ds, l, t, r) && r.blockHash == blockHash && r.transactionIndex == index {
      ReceiptIsIndexed(c, n, ds, l, t);
    }
    if AllDistinct(ds) {
      forall l: nat, t: Hash
        ensures KeptReceipt(n, ds, l, t, r) <==> WindowReceipt(n, ds, l, t, r)
      {
        KeptIsWindow(n, ds, t, r);
      }
    }
  }

  lemma NotIndexed(c: Cache, blockHash: Hash, index: u32)
    ensures ReceiptByBlockAndIndex(c, blockHash, index).Some? ==>
              blockHash in c.receiptHashes && index in c.receiptHashes[blockHash]
  {
  }

  /** Every kept receipt is found under its block and its own index. */
  lemma ReceiptIsIndexed(c: Cache, n: nat, ds: seq<Delivery>, l: nat, t: Hash)
    requires HoldsIndex(c.receiptHashes, n, ds) && HoldsReceipts(c.receiptsByHash, n, ds) && Coherent(ds)
    requires l < |ds| && t in ds[l].receipts && ReceiptsKept(n, ds, ds[l].block.hash)
    ensures var r := ds[l].receipts[t];
            r.blockHash == ds[l].block.hash && ReceiptByBlockAndIndex(c, r.blockHash, r.transactionIndex) == Some(r)
  {
    IndexAt(c.receiptHashes, n, ds, l);
    HeldReceipt(c.receiptsByHash, n, ds, l, t);
    assert ReceiptsBelong(ds[l]);
    hide ReceiptsKept, HashesByIndex, HoldsIndex, HoldsReceipts, Coherent, ReceiptByBlockAndIndex;
    IndexOfReceipt(ds[l].receipts, t, ds[l].receipts[t].transactionIndex);
    LookupByIndex(c, ds[l].block.hash, ds[l].receipts[t].transactionIndex, t);
  }

  lemma BelongsToBlock(ds: seq<Delivery>, l: nat)
    requires Coherent(ds) && l < |ds|
    ensures forall t | t in ds[l].receipts :: ds[l].receipts[t].blockHash == ds[l].block.hash
  {
    assert ReceiptsBelong(ds[l]);
  }

  /** What the index lists leads to a kept receipt of that block and index. */
  lemma IndexedReceiptExists(c: Cache, n: nat, ds: seq<Delivery>, blockHash: Hash, index: u32)
    returns (l: nat, t: Hash)
    requires HoldsIndex(c.receiptHashes, n, ds) && HoldsReceipts(c.receiptsByHash, n, ds) && Coherent(ds)
    requires blockHash in c.receiptHashes && index in c.receiptHashes[blockHash]
    ensures l < |ds| && t in ds[l].receipts && ReceiptsKept(n, ds, ds[l].block.hash)
    ensures ds[l].receipts[t].blockHash == blockHash && ds[l].receipts[t].transactionIndex == index
    ensures ReceiptByBlockAndIndex(c, blockHash, index) == Some(ds[l].receipts[t])
  {
    l :| 0 <= l < |ds| && ds[l].block.hash == blockHash;
    IndexAt(c.receiptHashes, n, ds, l);
    assert ReceiptsBelong(ds[l]);
    BelongsToBlock(ds, l);
    hide ReceiptsKept, HashesByIndex, HoldsIndex, HoldsReceipts, Coherent, ReceiptByBlockAndIndex, ReceiptsBelong;
    t := c.receiptHashes[blockHash][index];
    LookupByIndex(c, blockHash, index, t);
    IndexOfReceipt(ds[l].receipts, t, index);
    HeldReceipt(c.receiptsByHash, n, ds, l, t);
  }

  /** The count of a block is known exactly when the block is kept and has receipts; while no block is
      delivered twice, exactly when it is in the window and has receipts. */
  lemma CountIffCachedWithReceipts(n: nat, ds: seq<Delivery>, blockHash: Hash, count: nat)
    requires Coherent(ds)
    ensures ReceiptsCount(After(n, ds), blockHash) == Some(count)
       <==> ReceiptsKept(n, ds, blockHash)
            && exists l :: 0 <= l < |ds| && ds[l].block.hash == blockHash && |ds[l].receipts| == count > 0
    ensures AllDistinct(ds) ==>
              (ReceiptsCount(After(n, ds), blockHash) == Some(count)
               <==> exists l :: 0 <= l < |ds| && ds[l].block.hash == blockHash && |ds[l].receipts| == count > 0
                                && |ds| - Capacity(n) <= l)
  {
    hide After, ReceiptsKept, HashesByIndex, Coherent, AllDistinct, HoldsReceipts;
    ReceiptMapsHold(n, ds);
    forall l | 0 <= l < |ds|
      ensures |HashesByIndex(ds[l].receipts)| == |ds[l].receipts|
      ensures ds[l].receipts != map[] <==> |ds[l].receipts| > 0
    {
      InverseCardinality(ds[l].receipts);
    }
    if AllDistinct(ds) {
      DistinctIsCoherent(n, ds);
    }
  }

  // ----- no leak, repeats included -----

  /** `receiptsOf` gives the receipts of a block by its hash. */
  ghost predicate FunctionOfBlock(ds: seq<Delivery>, receiptsOf: Hash -> Receipts) {
    forall i | 0 <= i < |ds| :: ds[i].receipts == receiptsOf(ds[i].block.hash)
  }

  /** Every key belongs to a block of the deque, or to the block being delivered. */
  ghost predicate KeysCached(c: Cache, extra: set<Hash>) {
    && (forall k | k in c.blocksByNumber :: exists i :: 0 <= i < |c.buffer| && c.buffer[i].number == k)
    && (forall k | k in c.blocksByHash :: exists i :: 0 <= i < |c.buffer| && c.buffer[i].hash == k)
    && (forall k | k in c.receiptHashes :: k in extra || exists i :: 0 <= i < |c.buffer| && c.buffer[i].hash == k)
  }

  /** Every stored receipt is listed by some block of the index, which lists what the block has. */
  ghost predicate ReceiptsListed(c: Cache, receiptsOf: Hash -> Receipts) {
    && (forall k | k in c.receiptHashes :: c.receiptHashes[k] == HashesByIndex(receiptsOf(k)))
    && (forall h | h in c.receiptsByHash :: exists k :: k in c.receiptHashes && h in receiptsOf(k))
  }

  lemma AddReceiptsKeepsKeys(c: Cache, d: Delivery)
    requires KeysCached(c, {})
    ensures KeysCached(AddReceipts(c, d.block, d.receipts), {d.block.hash})
    ensures AddReceipts(c, d.block, d.receipts).buffer == c.buffer
  {
    hide HashesByIndex;
  }

  lemma PruneShortens(c: Cache)
    ensures Prune(c).buffer == if c.buffer == [] then [] else c.buffer[1..]
    ensures forall block :: Push(c, block).buffer == c.buffer + [block]
    ensures forall block :: Push(Prune(c), block).buffer == Prune(c).buffer + [block]
  {
  }

  lemma PruneKeepsKeys(c: Cache, extra: set<Hash>)
    requires KeysCached(c, extra)
    ensures KeysCached(Prune(c), extra)
  {
    if c.buffer != [] {
      var b := c.buffer[1..];
      forall i | 1 <= i < |c.buffer|
        ensures b[i - 1] == c.buffer[i]
      {
      }
      var c' := Prune(c);
      forall k | k in c'.blocksByNumber
        ensures exists i :: 0 <= i < |b| && b[i].number == k
      {
        var i :| 0 <= i < |c.buffer| && c.buffer[i].number == k;
        assert b[i - 1].number == k;
      }
      forall k | k in c'.blocksByHash
        ensures exists i :: 0 <= i < |b| && b[i].hash == k
      {
        var i :| 0 <= i < |c.buffer| && c.buffer[i].hash == k;
        assert b[i - 1].hash == k;
      }
      forall k | k in c'.receiptHashes && k !in extra
        ensures exists i :: 0 <= i < |b| && b[i].hash == k
      {
        var i :| 0 <= i < |c.buffer| && c.buffer[i].hash == k;
        assert b[i - 1].hash == k;
      }
    }
  }

  lemma PushKeepsKeys(c: Cache, block: Block)
    requires KeysCached(c, {block.hash})
    ensures KeysCached(Push(c, block), {})
  {
    var b := c.buffer + [block];
    assert b[|c.buffer|] == block;
    var c' := Push(c, block);
    forall k | k in c'.blocksByNumber
      ensures exists i :: 0 <= i < |b| && b[i].number == k
    {
      if k != block.number {
        var i :| 0 <= i < |c.buffer| && c.buffer[i].number == k;
        assert b[i].number == k;
      }
    }
    forall k | k in c'.blocksByHash || k in c'.receiptHashes
      ensures exists i :: 0 <= i < |b| && b[i].hash == k
    {
      if k != block.hash {
        var i :| 0 <= i < |c.buffer| && c.buffer[i].hash == k;
        assert b[i].hash == k;
      }
    }
  }

  lemma AddReceiptsKeepsListed(c: Cache, d: Delivery, receiptsOf: Hash -> Receipts)
    requires ReceiptsListed(c, receiptsOf) && d.receipts == receiptsOf(d.block.hash)
    ensures ReceiptsListed(AddReceipts(c, d.block, d.receipts), receiptsOf)
  {
    hide HashesByIndex;
    var c' := AddReceipts(c, d.block, d.receipts);
    forall h | h in c'.receiptsByHash
      ensures exists k :: k in c'.receiptHashes && h in receiptsOf(k)
    {
      if h in d.receipts {
        assert d.block.hash in c'.receiptHashes;
      } else {
        var k :| k in c.receiptHashes && h in receiptsOf(k);
        assert k in c'.receiptHashes;
      }
    }
  }

  lemma PushKeepsListed(c: Cache, block: Block, receiptsOf: Hash -> Receipts)
    requires ReceiptsListed(c, receiptsOf)
    ensures ReceiptsListed(Push(c, block), receiptsOf)
  {
  }

  lemma PruneKeepsListed(c: Cache, receiptsOf: Hash -> Receipts)
    requires ReceiptsListed(c, receiptsOf)
    ensures ReceiptsListed(Prune(c), receiptsOf)
  {
    hide HashesByIndex;
    if c.buffer != [] {
      var block := c.buffer[0];
      HashesAreKeys(receiptsOf(block.hash));
      var c' := Prune(c);
      forall h | h in c'.receiptsByHash
        ensures exists k :: k in c'.receiptHashes && h in receiptsOf(k)
      {
        var k :| k in c.receiptHashes && h in receiptsOf(k);
        assert k != block.hash;
      }
    }
  }

  /** Whatever is delivered, repeated blocks included: the deque is bounded, every key of the block
      maps and of the receipt index belongs to a block in the deque, and every stored receipt is
      listed in the index under its block. */
  lemma {:induction false} NothingLeaks(n: nat, ds: seq<Delivery>, receiptsOf: Hash -> Receipts)
    requires FunctionOfBlock(ds, receiptsOf)
    ensures |After(n, ds).buffer| <= Capacity(n)
    ensures KeysCached(After(n, ds), {}) && ReceiptsListed(After(n, ds), receiptsOf)
  {
    hide KeysCached, ReceiptsListed;
    if ds == [] {
      NothingInEmpty(receiptsOf);
    } else {
      var c, d := After(n, ds[..|ds| - 1]), ds[|ds| - 1];
      NothingLeaks(n, ds[..|ds| - 1], receiptsOf);
      DeliverLeaksNothing(n, c, d, receiptsOf);
    }
  }

  lemma NothingInEmpty(receiptsOf: Hash -> Receipts)
    ensures KeysCached(EMPTY, {}) && ReceiptsListed(EMPTY, receiptsOf)
  {
  }

  lemma DeliverLeaksNothing(n: nat, c: Cache, d: Delivery, receiptsOf: Hash -> Receipts)
    requires |c.buffer| <= Capacity(n) && KeysCached(c, {}) && ReceiptsListed(c, receiptsOf)
    requires d.receipts == receiptsOf(d.block.hash)
    ensures var c' := Deliver(n, c, d.block, d.receipts);
            |c'.buffer| <= Capacity(n) && KeysCached(c', {}) && ReceiptsListed(c', receiptsOf)
  {
    hide HashesByIndex, KeysCached, ReceiptsListed, Prune, Push, AddReceipts;
    var c1 := AddReceipts(c, d.block, d.receipts);
    AddReceiptsKeepsKeys(c, d);
    PruneShortens(c1);
    AddReceiptsKeepsListed(c, d, receiptsOf);
    PruneKeepsKeys(c1, {d.block.hash});
    PruneKeepsListed(c1, receiptsOf);
    var c2 := if |c1.buffer| >= n then Prune(c1) else c1;
    PushKeepsKeys(c2, d.block);
    PushKeepsListed(c2, d.block, receiptsOf);
  }

  // ----- the loop delivers in order -----

  /** The deliveries that the subscription loop gets through before it stops. */
  function DeliveredBy(stream: seq<StreamItem>, receiptInfos: ReceiptSource): seq<Delivery>
    decreases |stream|
  {
    if stream == [] then [] else
      match stream[0]
      case Reconnecting => DeliveredBy(stream[1..], receiptInfos)
      case Failed => []
      case Delivered(block) =>
        match receiptInfos(block)
        case None => []
        case Some(receipts) => [Delivery(block, receipts)] + DeliveredBy(stream[1..], receiptInfos)
  }

  /** The loop leaves the cache as its deliveries do, and announces each of them once. */
  lemma {:induction false} StreamDelivers(n: nat, ds: seq<Delivery>, stream: seq<StreamItem>,
                                          receiptInfos: ReceiptSource)
    ensures var run := RunStream(n, After(n, ds), stream, receiptInfos);
            && run.cache == After(n, ds + DeliveredBy(stream, receiptInfos))
            && run.updates == |DeliveredBy(stream, receiptInfos)|
    decreases |stream|
  {
    hide Deliver;
    if stream == [] || stream[0].Failed? {
      assert ds + [] == ds;
    } else if stream[0].Reconnecting? {
      StreamDelivers(n, ds, stream[1..], receiptInfos);
    } else if receiptInfos(stream[0].block).None? {
      assert ds + [] == ds;
    } else {
      var d := Delivery(stream[0].block, receiptInfos(stream[0].block).value);
      var ds' := ds + [d];
      assert ds'[..|ds'| - 1] == ds && ds'[|ds'| - 1] == d;
      StreamDelivers(n, ds', stream[1..], receiptInfos);
      assert ds + ([d] + DeliveredBy(stream[1..], receiptInfos)) == ds' + DeliveredBy(stream[1..], receiptInfos);
    }
  }

  /** An item of the stream that ends the loop, with the error that it ends it with. */
  function Obstacle(item: StreamItem, receiptInfos: ReceiptSource): Option<ClientError> {
    match item
    case Failed => Some(StreamFailed)
    case Delivered(block) => if receiptInfos(block).None? then Some(ReceiptsFailed) else None
    case Reconnecting => None
  }

  /** The loop ends with the first obstacle, and successfully exactly if the stream ends before any. */
  lemma {:induction false} StreamResult(n: nat, c: Cache, stream: seq<StreamItem>, receiptInfos: ReceiptSource)
    ensures var result := RunStream(n, c, stream, receiptInfos).result;
            && (result == Ok(()) <==> forall i | 0 <= i < |stream| :: Obstacle(stream[i], receiptInfos).None?)
            && (forall e :: result == Err(e) <==>
                  exists i :: 0 <= i < |stream| && Obstacle(stream[i], receiptInfos) == Some(e)
                              && forall j | 0 <= j < i :: Obstacle(stream[j], receiptInfos).None?)
            && !result.Panic?
    decreases |stream|
  {
    hide Deliver;
    if stream == [] {
    } else {
      var rest := stream[1..];
      assert forall i | 0 < i < |stream| :: stream[i] == rest[i - 1];
      assert forall i | 0 <= i < |rest| :: rest[i] == stream[i + 1];
      if Obstacle(stream[0], receiptInfos).None? {
        var next := if !stream[0].Delivered? then c else
          Deliver(n, c, stream[0].block, receiptInfos(stream[0].block).value);
        StreamResult(n, next, rest, receiptInfos);
        forall e
          ensures RunStream(n, c, stream, receiptInfos).result == Err(e) <==>
                    exists i :: 0 <= i < |stream| && Obstacle(stream[i], receiptInfos) == Some(e)
                                && forall j | 0 <= j < i :: Obstacle(stream[j], receiptInfos).None?
        {
          FirstObstacle(stream, receiptInfos, e);
        }
      }
    }
  }

  lemma FirstObstacle(stream: seq<StreamItem>, receiptInfos: ReceiptSource, e: ClientError)
    requires stream != [] && Obstacle(stream[0], receiptInfos).None?
    ensures (exists i :: 0 <= i < |stream| && Obstacle(stream[i], receiptInfos) == Some(e)
                         && forall j | 0 <= j < i :: Obstacle(stream[j], receiptInfos).None?)
       <==> exists i :: 0 <= i < |stream[1..]| && Obstacle(stream[1..][i], receiptInfos) == Some(e)
                        && forall j | 0 <= j < i :: Obstacle(stream[1..][j], receiptInfos).None?
  {
    hide Obstacle;
    var rest := stream[1..];
    assert forall i | 0 < i < |stream| :: stream[i] == rest[i - 1];
    if i :| 0 <= i < |stream| && Obstacle(stream[i], receiptInfos) == Some(e)
            && forall j | 0 <= j < i :: Obstacle(stream[j], receiptInfos).None? {
      assert forall j | 0 <= j < i - 1 :: rest[j] == stream[j + 1];
      assert Obstacle(rest[i - 1], receiptInfos) == Some(e);
    }
    if i :| 0 <= i < |rest| && Obstacle(rest[i], receiptInfos) == Some(e)
            && forall j | 0 <= j < i :: Obstacle(rest[j], receiptInfos).None? {
      assert forall j | 0 < j < i + 1 :: stream[j] == rest[j - 1];
      assert Obstacle(stream[i + 1], receiptInfos) == Some(e);
    }
  }
}
