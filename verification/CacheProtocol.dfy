/** The cache shared between the subscription task and the request handlers under a read-write lock:
    one writer whose update takes several steps, any number of readers, and the node behind them. */
module CacheProtocol {
  import opened Outcomes
  import opened Numbers
  import opened BlockCache
  import opened CacheProperties

  /** What the node answers. The blocks below `finalized` are fixed for good. */
  datatype Node = Node(hashAt: map<u32, Hash>, blockAt: map<Hash, Block>, finalized: nat)

  /** The node knows the finalized part of the chain by number and by hash. */
  ghost predicate NodeServes(node: Node, chain: seq<Block>) {
    && node.finalized <= |chain|
    && forall i | 0 <= i < node.finalized ::
         && chain[i].number == i
         && Get(node.hashAt, chain[i].number) == Some(chain[i].hash)
         && Get(node.blockAt, chain[i].hash) == Some(chain[i])
  }

  datatype Writer =
    | Idle
    // the write lock is held from here on
    | Fetching(block: Block)
    | Fetched(block: Block, receipts: Receipts)
    | StoredReceipts(block: Block, receipts: Receipts)
    | StoredIndex(block: Block, receipts: Receipts)
    // the lock is released and the task has ended
    | Stopped

  datatype Query = GetBlockHash(n: u32) | BlockByHash(h: Hash) | BlockByNumber(n: u32)

  datatype Answer = HashAnswer(hash: Option<Hash>) | BlockAnswer(block: Option<Block>)

  /** What the node alone answers to a query. */
  function NodeAnswer(node: Node, query: Query): Answer {
    match query
    case GetBlockHash(n) => HashAnswer(Get(node.hashAt, n))
    case BlockByHash(h) => BlockAnswer(Get(node.blockAt, h))
    case BlockByNumber(n) => BlockAnswer(NodeBlock(node, Get(node.hashAt, n)))
  }

  function NodeBlock(node: Node, hash: Option<Hash>): Option<Block> {
    match hash
    case None => None
    case Some(h) => Get(node.blockAt, h)
  }

  /** Where a handler is while it holds the read lock. A lookup by number that misses looks up the hash
      in a nested read section, then the block by that hash in another. */
  datatype Stage =
    | Look
    | AskHash
    | NestedLook
    | NestedAsk
    | LookBlock(hash: Hash)
    | AskBlock(hash: Hash)

  datatype Reader =
    | Ready
    | Holding(query: Query, seen: nat, stage: Stage)
    | Done(query: Query, seen: nat, answer: Answer)

  datatype State = State(
    cache: Cache,
    delivered: seq<Delivery>,
    writer: Writer,
    readers: map<nat, Reader>,
    node: Node
  )

  predicate WriteLocked(s: State) {
    !s.writer.Idle? && !s.writer.Stopped?
  }

  predicate ReadLocked(s: State) {
    exists r | r in s.readers :: s.readers[r].Holding?
  }

  // ----- steps -----

  /** The writer takes the lock for a finalized block, fetches its receipts, and stores receipts, index
      and block one after the other; a failed fetch ends it. */
  ghost predicate WriterStep(n: nat, chain: seq<Block>, s: State, s': State) {
    match s.writer
    case Idle =>
      && !ReadLocked(s)
      && exists k :: 0 <= k < s.node.finalized <= |chain| && s' == s.(writer := Fetching(chain[k]))
    case Fetching(block) =>
      || s' == s.(writer := Stopped)
      || exists receipts: Receipts :: s' == s.(writer := Fetched(block, receipts))
    case Fetched(block, receipts) =>
      s' == s.(writer := StoredReceipts(block, receipts),
               cache := s.cache.(receiptsByHash := s.cache.receiptsByHash + receipts))
    case StoredReceipts(block, receipts) =>
      s' == s.(writer := StoredIndex(block, receipts),
               cache := if receipts == map[] then s.cache else
                 s.cache.(receiptHashes := s.cache.receiptHashes[block.hash := HashesByIndex(receipts)]))
    case StoredIndex(block, receipts) =>
      s' == s.(writer := Idle, cache := Insert(n, s.cache, block),
               delivered := s.delivered + [Delivery(block, receipts)])
    case Stopped => false
  }

  /** A handler that holds the lock moves on; what it finds in the cache ends the query, and a node
      that is asked answers as it does at that moment. */
  function NextReader(c: Cache, node: Node, query: Query, seen: nat, stage: Stage): Reader {
    match (query, stage)
    case (GetBlockHash(n), Look) =>
      if n in c.blocksByNumber then Done(query, seen, HashAnswer(Some(c.blocksByNumber[n].hash)))
      else Holding(query, seen, AskHash)
    case (GetBlockHash(n), _) =>
      Done(query, seen, HashAnswer(Get(node.hashAt, n)))
    case (BlockByHash(h), Look) =>
      if h in c.blocksByHash then Done(query, seen, BlockAnswer(Some(c.blocksByHash[h])))
      else Holding(query, seen, AskBlock(h))
    case (BlockByHash(h), _) =>
      Done(query, seen, BlockAnswer(Get(node.blockAt, h)))
    case (BlockByNumber(n), Look) =>
      if n in c.blocksByNumber then Done(query, seen, BlockAnswer(Some(c.blocksByNumber[n])))
      else Holding(query, seen, NestedLook)
    case (BlockByNumber(n), NestedLook) =>
      if n in c.blocksByNumber then Holding(query, seen, LookBlock(c.blocksByNumber[n].hash))
      else Holding(query, seen, NestedAsk)
    case (BlockByNumber(n), LookBlock(h)) =>
      if h in c.blocksByHash then Done(query, seen, BlockAnswer(Some(c.blocksByHash[h])))
      else Holding(query, seen, AskBlock(h))
    case (BlockByNumber(_), AskBlock(h)) =>
      Done(query, seen, BlockAnswer(Get(node.blockAt, h)))
    case (BlockByNumber(n), _) =>
      match Get(node.hashAt, n)
      case None => Done(query, seen, BlockAnswer(None))
      case Some(h) => Holding(query, seen, LookBlock(h))
  }

  predicate AsksNode(stage: Stage) {
    stage.AskHash? || stage.NestedAsk? || stage.AskBlock?
  }

  /** A handler takes the lock for a query, moves on, fails with a node that cannot be reached, or is
      done with its answer. */
  ghost predicate ReaderStep(s: State, r: nat, s': State) {
    r in s.readers &&
    match s.readers[r]
    case Ready =>
      && !WriteLocked(s)
      && exists query :: s' == s.(readers := s.readers[r := Holding(query, |s.delivered|, Look)])
    case Holding(query, seen, stage) =>
      || s' == s.(readers := s.readers[r := NextReader(s.cache, s.node, query, seen, stage)])
      || (AsksNode(stage) && s' == s.(readers := s.readers[r := Ready]))
    case Done(_, _, _) =>
      s' == s.(readers := s.readers[r := Ready])
  }

  /** The node finalizes more blocks and changes its mind about those that are not final. */
  ghost predicate NodeStep(chain: seq<Block>, s: State, s': State) {
    && s' == s.(node := s'.node)
    && NodeServes(s'.node, chain)
    && s.node.finalized <= s'.node.finalized
  }

  ghost predicate Next(n: nat, chain: seq<Block>, s: State, s': State) {
    || WriterStep(n, chain, s, s')
    || NodeStep(chain, s, s')
    || exists r :: ReaderStep(s, r, s')
  }

  ghost predicate Init(chain: seq<Block>, s: State) {
    && s.cache == EMPTY && s.delivered == [] && s.writer == Idle
    && (forall r | r in s.readers :: s.readers[r] == Ready)
    && NodeServes(s.node, chain)
  }

  // ----- the invariant -----

  /** The cache, as far as the writer has got with the block it is storing. */
  ghost predicate CacheIsPrefix(n: nat, s: State) {
    var c := After(n, s.delivered);
    match s.writer
    case StoredReceipts(_, receipts) =>
      s.cache == c.(receiptsByHash := c.receiptsByHash + receipts)
    case StoredIndex(block, receipts) =>
      s.cache == AddReceipts(c, block, receipts)
    case _ => s.cache == c
  }

  /** Every cached block is a finalized block of the chain, under its own number and hash. */
  ghost predicate CacheIsFinalized(c: Cache, chain: seq<Block>, finalized: nat) {
    && finalized <= |chain|
    && (forall k | k in c.blocksByNumber :: k < finalized && c.blocksByNumber[k] == chain[k])
    && (forall h | h in c.blocksByHash ::
          var b := c.blocksByHash[h]; b.hash == h && b.number < finalized && chain[b.number] == b)
  }

  function InFlight(w: Writer): Option<Block> {
    match w
    case Fetching(b) => Some(b)
    case Fetched(b, _) => Some(b)
    case StoredReceipts(b, _) => Some(b)
    case StoredIndex(b, _) => Some(b)
    case _ => None
  }

  ghost predicate ReaderIsRight(s: State, reader: Reader) {
    match reader
    case Ready => true
    case Holding(query, seen, stage) =>
      && !WriteLocked(s) && seen == |s.delivered|
      && (stage.NestedLook? ==> query.BlockByNumber? && query.n !in s.cache.blocksByNumber)
    case Done(_, seen, _) =>
      seen <= |s.delivered|
  }

  ghost predicate Inv(n: nat, chain: seq<Block>, s: State) {
    && NodeServes(s.node, chain)
    && CacheIsPrefix(n, s)
    && CacheIsFinalized(s.cache, chain, s.node.finalized)
    && (InFlight(s.writer).Some? ==>
          var b := InFlight(s.writer).value; b.number < s.node.finalized && chain[b.number] == b)
    && forall r | r in s.readers :: ReaderIsRight(s, s.readers[r])
  }

  lemma InsertKeepsFinalized(n: nat, c: Cache, block: Block, chain: seq<Block>, finalized: nat)
    requires CacheIsFinalized(c, chain, finalized) && block.number < finalized && chain[block.number] == block
    ensures CacheIsFinalized(Insert(n, c, block), chain, finalized)
  {
  }

  /** Outside the writer's steps on the cache, readers keep what they know while it takes the lock,
      fetches, stores and lets go: none of them holds the lock then. */
  lemma WriterKeepsReaders(n: nat, chain: seq<Block>, s: State, s': State)
    requires Inv(n, chain, s) && WriterStep(n, chain, s, s')
    ensures forall r | r in s'.readers :: ReaderIsRight(s', s'.readers[r])
  {
    hide Insert, AddReceipts, After, CacheIsFinalized, NodeServes, HashesByIndex;
    forall r | r in s'.readers
      ensures ReaderIsRight(s', s'.readers[r])
    {
      assert s'.readers == s.readers && ReaderIsRight(s, s.readers[r]);
    }
  }

  lemma WriterKeepsInv(n: nat, chain: seq<Block>, s: State, s': State)
    requires Inv(n, chain, s) && WriterStep(n, chain, s, s')
    ensures Inv(n, chain, s')
  {
    hide Insert, AddReceipts, ReaderIsRight, CacheIsFinalized, After, HashesByIndex;
    WriterKeepsReaders(n, chain, s, s');
    FinalizedIsAboutBlocks(s.cache, s'.cache, chain, s.node.finalized);
    match s.writer {
      case StoredReceipts(block, receipts) =>
        StoringIsAddReceipts(After(n, s.delivered), block, receipts);
      case StoredIndex(block, receipts) =>
        InsertKeepsFinalized(n, s.cache, block, chain, s.node.finalized);
        AfterOneMore(n, s.delivered, Delivery(block, receipts));
      case _ =>
    }
  }

  lemma FinalizedIsAboutBlocks(c: Cache, c': Cache, chain: seq<Block>, finalized: nat)
    requires CacheIsFinalized(c, chain, finalized)
    ensures c.blocksByNumber == c'.blocksByNumber && c.blocksByHash == c'.blocksByHash ==>
              CacheIsFinalized(c', chain, finalized)
  {
  }

  /** Storing receipts and index in two steps is what one delivery does. */
  lemma StoringIsAddReceipts(c: Cache, block: Block, receipts: Receipts)
    ensures AddReceipts(c, block, receipts) ==
            var c1 := c.(receiptsByHash := c.receiptsByHash + receipts);
            if receipts == map[] then c1 else
              c1.(receiptHashes := c1.receiptHashes[block.hash := HashesByIndex(receipts)])
  {
    if receipts == map[] {
      assert c.receiptsByHash + receipts == c.receiptsByHash;
    }
  }

  /** What is found in the cache is what the node would answer at that moment. */
  lemma CachedIsNodeAnswer(c: Cache, chain: seq<Block>, node: Node)
    requires NodeServes(node, chain) && CacheIsFinalized(c, chain, node.finalized)
    ensures forall k | k in c.blocksByNumber ::
              && Get(node.hashAt, k) == Some(c.blocksByNumber[k].hash)
              && Get(node.blockAt, c.blocksByNumber[k].hash) == Some(c.blocksByNumber[k])
    ensures forall h | h in c.blocksByHash :: Get(node.blockAt, h) == Some(c.blocksByHash[h])
  {
  }

  lemma NextReaderIsRight(s: State, chain: seq<Block>, query: Query, seen: nat, stage: Stage)
    requires NodeServes(s.node, chain) && CacheIsFinalized(s.cache, chain, s.node.finalized)
    requires ReaderIsRight(s, Holding(query, seen, stage))
    ensures ReaderIsRight(s, NextReader(s.cache, s.node, query, seen, stage))
  {
    CachedIsNodeAnswer(s.cache, chain, s.node);
    hide NodeServes, CacheIsFinalized;
  }

  lemma ReaderKeepsInv(n: nat, chain: seq<Block>, s: State, r: nat, s': State)
    requires Inv(n, chain, s) && ReaderStep(s, r, s')
    ensures Inv(n, chain, s')
  {
    hide After, AddReceipts, NextReader, NodeServes, CacheIsFinalized;
    assert ReaderIsRight(s, s.readers[r]);
    if s.readers[r].Holding? {
      var Holding(query, seen, stage) := s.readers[r];
      NextReaderIsRight(s, chain, query, seen, stage);
    }
    forall q | q in s'.readers
      ensures ReaderIsRight(s', s'.readers[q])
    {
      if q != r {
        assert s'.readers[q] == s.readers[q];
      }
    }
  }

  lemma NodeKeepsInv(n: nat, chain: seq<Block>, s: State, s': State)
    requires Inv(n, chain, s) && NodeStep(chain, s, s')
    ensures Inv(n, chain, s')
  {
    hide After, AddReceipts;
  }

  lemma NextKeepsInv(n: nat, chain: seq<Block>, s: State, s': State)
    requires Inv(n, chain, s) && Next(n, chain, s, s')
    ensures Inv(n, chain, s')
  {
    hide Inv, WriterStep, NodeStep, ReaderStep;
    if WriterStep(n, chain, s, s') {
      WriterKeepsInv(n, chain, s, s');
    } else if NodeStep(chain, s, s') {
      NodeKeepsInv(n, chain, s, s');
    } else {
      var r :| ReaderStep(s, r, s');
      ReaderKeepsInv(n, chain, s, r, s');
    }
  }

  // ----- whole runs -----

  ghost predicate IsRun(n: nat, chain: seq<Block>, run: seq<State>) {
    && run != [] && Init(chain, run[0])
    && forall i | 0 <= i < |run| - 1 :: Next(n, chain, run[i], run[i + 1])
  }

  lemma {:induction false} InvHoldsAlongRun(n: nat, chain: seq<Block>, run: seq<State>, i: nat)
    requires IsRun(n, chain, run) && i < |run|
    ensures Inv(n, chain, run[i])
  {
    hide Next;
    if i == 0 {
    } else {
      InvHoldsAlongRun(n, chain, run, i - 1);
      hide Inv;
      NextKeepsInv(n, chain, run[i - 1], run[i]);
    }
  }

  // ----- transparency -----

  /** The reader `r` has been with the query since it took the lock with the step from `t`. */
  ghost predicate Since(run: seq<State>, r: nat, query: Query, t: nat, i: nat) {
    && t < i < |run| && r in run[t].readers && run[t].readers[r] == Ready
    && forall m | t < m <= i :: r in run[m].readers && !run[m].readers[r].Ready? && run[m].readers[r].query == query
  }

  /** The answer is what the node says at one moment; for a block by number, the block that it has at a
      second moment for the hash that it gave at a first. */
  predicate IsAnswer(first: Node, second: Node, query: Query, answer: Answer) {
    match query
    case BlockByNumber(n) => answer == BlockAnswer(NodeBlock(second, Get(first.hashAt, n)))
    case _ => answer == NodeAnswer(second, query)
  }

  ghost predicate Answered(run: seq<State>, query: Query, answer: Answer, t: nat, i: nat) {
    exists j, k :: t < j <= k < i <= |run| && IsAnswer(run[j].node, run[k].node, query, answer)
  }

  /** The node has given this hash for the number. */
  ghost predicate HashGiven(run: seq<State>, n: u32, hash: Hash, t: nat, i: nat) {
    exists j :: t < j < i <= |run| && Get(run[j].node.hashAt, n) == Some(hash)
  }

  ghost predicate Explains(run: seq<State>, r: nat, t: nat, i: nat) {
    && i < |run| && r in run[i].readers && !run[i].readers[r].Ready?
    && Since(run, r, run[i].readers[r].query, t, i)
    && match run[i].readers[r]
       case Holding(BlockByNumber(n), _, LookBlock(h)) => HashGiven(run, n, h, t, i)
       case Holding(BlockByNumber(n), _, AskBlock(h)) => HashGiven(run, n, h, t, i)
       case Done(query, _, answer) => Answered(run, query, answer, t, i)
       case _ => true
  }

  lemma ExplainedLonger(run: seq<State>, r: nat, t: nat, i: nat)
    requires Explains(run, r, t, i) && i + 1 < |run|
    requires r in run[i + 1].readers && run[i + 1].readers[r] == run[i].readers[r]
    ensures Explains(run, r, t, i + 1)
  {
    hide IsAnswer;
    match run[i].readers[r]
    case Done(query, _, answer) =>
      var j, k :| t < j <= k < i <= |run| && IsAnswer(run[j].node, run[k].node, query, answer);
      assert Answered(run, query, answer, t, i + 1);
    case _ =>
  }

  /** One step of a reader that holds the lock, in a cache of finalized blocks. */
  lemma StepIsExplained(run: seq<State>, r: nat, t: nat, i: nat, chain: seq<Block>)
    requires Explains(run, r, t, i) && i + 1 < |run| && run[i].readers[r].Holding?
    requires NodeServes(run[i].node, chain) && CacheIsFinalized(run[i].cache, chain, run[i].node.finalized)
    requires var Holding(query, seen, stage) := run[i].readers[r];
             run[i + 1].readers == run[i].readers[r := NextReader(run[i].cache, run[i].node, query, seen, stage)]
    ensures Explains(run, r, t, i + 1)
  {
    var Holding(query, seen, stage) := run[i].readers[r];
    var s := run[i];
    CachedIsNodeAnswer(s.cache, chain, s.node);
    hide NodeServes, CacheIsFinalized;
    var next := NextReader(s.cache, s.node, query, seen, stage);
    assert Since(run, r, query, t, i + 1);
    match next
    case Done(_, _, answer) =>
      if query.BlockByNumber? && (stage.LookBlock? || stage.AskBlock?) {
        var j :| t < j < i && Get(run[j].node.hashAt, query.n) == Some(stage.hash);
        assert IsAnswer(run[j].node, run[i].node, query, answer);
      } else {
        assert IsAnswer(run[i].node, run[i].node, query, answer);
      }
      assert Answered(run, query, answer, t, i + 1);
    case Holding(BlockByNumber(n), _, LookBlock(h)) =>
      assert Get(run[i].node.hashAt, n) == Some(h);
    case _ =>
  }

  lemma {:induction false} EveryAnswerIsExplained(n: nat, chain: seq<Block>, run: seq<State>, i: nat, r: nat)
    returns (t: nat)
    requires IsRun(n, chain, run) && i < |run| && r in run[i].readers && !run[i].readers[r].Ready?
    ensures Explains(run, r, t, i)
    decreases i
  {
    hide WriterStep, NodeStep, NextReader, Explains, After;
    assert i > 0;
    assert Next(n, chain, run[i - 1], run[i]);
    InvHoldsAlongRun(n, chain, run, i - 1);
    StepOfReader(n, chain, run[i - 1], run[i], r);
    if run[i - 1].readers[r].Ready? {
      t := i - 1;
      JustTaken(run, r, i);
    } else {
      t := EveryAnswerIsExplained(n, chain, run, i - 1, r);
      if run[i].readers[r] == run[i - 1].readers[r] {
        ExplainedLonger(run, r, t, i - 1);
      } else {
        StepIsExplained(run, r, t, i - 1, chain);
      }
    }
  }

  lemma JustTaken(run: seq<State>, r: nat, i: nat)
    requires 0 < i < |run| && r in run[i - 1].readers && run[i - 1].readers[r].Ready?
    requires r in run[i].readers && run[i].readers[r].Holding? && run[i].readers[r].stage == Look
    ensures Explains(run, r, i - 1, i)
  {
  }

  /** What a step does to one reader. */
  lemma StepOfReader(n: nat, chain: seq<Block>, s: State, s': State, r: nat)
    requires Next(n, chain, s, s') && r in s'.readers && !s'.readers[r].Ready?
    ensures r in s.readers
    ensures s'.readers[r] != s.readers[r] && s.readers[r].Ready? ==>
              s'.readers[r].Holding? && s'.readers[r].stage == Look
    ensures s'.readers[r] != s.readers[r] && !s.readers[r].Ready? ==>
              s.readers[r].Holding?
              && s'.readers == s.readers[r := NextReader(s.cache, s.node, s.readers[r].query, s.readers[r].seen,
                                                         s.readers[r].stage)]
  {
    hide NextReader;
    if q :| ReaderStep(s, q, s') {
    } else {
      assert s'.readers == s.readers;
    }
  }

  /** Transparency: in every interleaving, every answered query was answered as the node alone answers it
      at a moment while the lock was held. A block by number is the one that the node has, at such a
      moment, for the hash that it gave at an earlier one. */
  lemma AnswersAreTheNodes(n: nat, chain: seq<Block>, run: seq<State>, i: nat, r: nat)
    requires IsRun(n, chain, run) && i < |run| && r in run[i].readers && run[i].readers[r].Done?
    ensures var reader := run[i].readers[r];
            exists t: nat :: Since(run, r, reader.query, t, i) && Answered(run, reader.query, reader.answer, t, i)
  {
    var t := EveryAnswerIsExplained(n, chain, run, i, r);
  }

  lemma {:induction false} FinalizedGrows(n: nat, chain: seq<Block>, run: seq<State>, i: nat, j: nat)
    requires IsRun(n, chain, run) && i <= j < |run|
    ensures run[i].node.finalized <= run[j].node.finalized
  {
    hide NodeServes, NextReader;
    if i == j {
    } else {
      FinalizedGrows(n, chain, run, i, j - 1);
      assert Next(n, chain, run[j - 1], run[j]);
    }
  }

  /** What was final when the lock was taken is answered as the chain has it, whatever the node does
      meanwhile and whether or not it is cached. */
  lemma FinalAnswers(n: nat, chain: seq<Block>, run: seq<State>, i: nat, r: nat, t: nat, k: nat)
    requires IsRun(n, chain, run) && k < |chain| && i < |run|
    requires r in run[i].readers && run[i].readers[r].Done? && Since(run, r, run[i].readers[r].query, t, i)
    requires Answered(run, run[i].readers[r].query, run[i].readers[r].answer, t, i) && k < run[t].node.finalized
    ensures chain[k].number == k
    ensures match run[i].readers[r].query
            case GetBlockHash(m) => m == k ==> run[i].readers[r].answer == HashAnswer(Some(chain[k].hash))
            case BlockByHash(h) => h == chain[k].hash ==> run[i].readers[r].answer == BlockAnswer(Some(chain[k]))
            case BlockByNumber(m) => m == k ==> run[i].readers[r].answer == BlockAnswer(Some(chain[k]))
  {
    var query, answer := run[i].readers[r].query, run[i].readers[r].answer;
    var a, b :| t < a <= b < i <= |run| && IsAnswer(run[a].node, run[b].node, query, answer);
    FinalizedGrows(n, chain, run, t, a);
    FinalizedGrows(n, chain, run, t, b);
    InvHoldsAlongRun(n, chain, run, a);
    InvHoldsAlongRun(n, chain, run, b);
    hide Inv, IsRun;
    ServesFinal(n, chain, run[a], k);
    ServesFinal(n, chain, run[b], k);
  }

  lemma ServesFinal(n: nat, chain: seq<Block>, s: State, k: nat)
    requires Inv(n, chain, s) && k < s.node.finalized
    ensures k < |chain| && chain[k].number == k
    ensures Get(s.node.hashAt, chain[k].number) == Some(chain[k].hash)
    ensures Get(s.node.blockAt, chain[k].hash) == Some(chain[k])
  {
    hide CacheIsPrefix, CacheIsFinalized, ReaderIsRight;
  }

  /** How far a stage is from an answer. */
  function Rank(stage: Stage): nat {
    match stage
    case Look => 5
    case NestedLook => 4
    case NestedAsk => 3
    case AskHash => 3
    case LookBlock(_) => 2
    case AskBlock(_) => 1
  }

  /** A handler keeps to its query, and is done after at most five steps of its own. */
  lemma HandlersFinish(c: Cache, node: Node, query: Query, seen: nat, stage: Stage)
    ensures match NextReader(c, node, query, seen, stage)
            case Done(q, _, _) => q == query
            case Holding(q, _, next) => q == query && Rank(next) < Rank(stage)
            case Ready => false
  {
  }

  /** What is cached is answered in one step, without the node. */
  lemma CachedNeedsNoNode(c: Cache, node: Node, query: Query, seen: nat)
    requires match query
             case GetBlockHash(n) => n in c.blocksByNumber
             case BlockByHash(h) => h in c.blocksByHash
             case BlockByNumber(n) => n in c.blocksByNumber
    ensures var reader := NextReader(c, node, query, seen, Look);
            && reader.Done? && reader.query == query
            && forall other :: NextReader(c, other, query, seen, Look) == reader
  {
  }

  /** Snapshots: a reader that holds the lock, nested sections included, looks at the state that a whole
      prefix of the stream produced, the same one since it took the lock; no reader ever sees a block
      half stored, and a nested look misses what the outer one missed. */
  lemma ReadersSeeWholePrefixes(n: nat, chain: seq<Block>, run: seq<State>, i: nat, r: nat)
    requires IsRun(n, chain, run) && i < |run| && r in run[i].readers && run[i].readers[r].Holding?
    ensures run[i].cache == After(n, run[i].delivered)
    ensures run[i].readers[r].seen == |run[i].delivered|
    ensures run[i].readers[r].stage.NestedLook? ==>
              run[i].readers[r].query.BlockByNumber? && run[i].readers[r].query.n !in run[i].cache.blocksByNumber
  {
    InvHoldsAlongRun(n, chain, run, i);
    assert ReaderIsRight(run[i], run[i].readers[r]);
  }

  /** A failed fetch of receipts ends the writer, and from then on, in every continuation, the cache is what
      the blocks delivered before left it, and nothing is delivered any more. */
  lemma {:induction false} FailedFetchChangesNothing(n: nat, chain: seq<Block>, run: seq<State>, i: nat, j: nat)
    requires IsRun(n, chain, run) && i < j < |run|
    requires run[i].writer.Fetching? && run[i + 1].writer.Stopped?
    ensures run[j].writer.Stopped? && run[j].delivered == run[i].delivered
    ensures run[j].cache == run[i].cache == After(n, run[i].delivered)
  {
    hide After;
    if j == i + 1 {
      InvHoldsAlongRun(n, chain, run, i);
      assert Next(n, chain, run[i], run[i + 1]);
    } else {
      FailedFetchChangesNothing(n, chain, run, i, j - 1);
      assert Next(n, chain, run[j - 1], run[j]);
    }
  }
}
