/** Exactly what an update caches when its first block is not the history's: which blocks are left out, when that
    loses a log, and that what was left out stays so. */
module Resuming {
  import opened Wrappers
  import opened Dedupe
  import opened Events
  import opened Scanner
  import opened Store
  import opened CrashSafety

  /** Block `b` is neither scanned from `start` on nor covered by the checkpoint of a history from `first`. */
  predicate LeftOut(first: int, checkpoint: Option<Checkpoint>, start: int, b: int) {
    b < start && !(LastBlock(checkpoint).Some? && first <= b <= LastBlock(checkpoint).value)
  }

  /** The blocks from `low` to `high` that are left out hold no log that is uncached: each of their logs decodes to
      an event in the cache, or to one that also occurs among the scanned blocks. */
  ghost predicate NothingLost<L(!new)>(src: EventSource<L>, first: int, checkpoint: Option<Checkpoint>, start: int,
                                       low: int, high: int, es: seq<DocAttested>)
  {
    forall b, l :: low <= b <= high && LeftOut(first, checkpoint, start, b) && l in src.chain(b) ==>
      src.decode(l).Some? && (src.decode(l).value in es || InChain(src, start, high, src.decode(l).value))
  }

  lemma CompleteExactly<L(!new)>(src: EventSource<L>, first: int, checkpoint: Option<Checkpoint>, start: int, low: int,
                                 high: int, es: seq<DocAttested>, es': seq<DocAttested>)
    requires LastBlock(checkpoint).Some? ==> Complete(src, first, LastBlock(checkpoint).value, es)
    requires Complete(src, start, high, es') && GrownBy(src, start, high, es, es')
    ensures Complete(src, low, high, es') <==> NothingLost(src, first, checkpoint, start, low, high, es)
  {
    forall b, l | low <= b <= high && LeftOut(first, checkpoint, start, b) && l in src.chain(b)
      ensures Complete(src, low, high, es') ==>
        src.decode(l).Some? && (src.decode(l).value in es || InChain(src, start, high, src.decode(l).value))
    {
      hide InChain;
    }
    if NothingLost(src, first, checkpoint, start, low, high, es) {
      forall b, l | low <= b <= high && l in src.chain(b) ensures src.decode(l).Some? && src.decode(l).value in es' {
        if LeftOut(first, checkpoint, start, b) && src.decode(l).value !in es {
          var c, m :| start <= c <= high && m in src.chain(c) && src.decode(m) == Some(src.decode(l).value);
          assert src.decode(m).value in es';
        }
      }
    }
  }

  /** Exactly when a finished update has cached what it was asked for, and what its checkpoint then promises,
      whatever its first block. Its own blocks `fromBlock..toBlock` are all cached if and only if those of them
      that it leaves out (below the first block of the history) hold no uncached log. The blocks `first..toBlock`
      that the checkpoint then stands for are all cached if and only if those between the old checkpoint and
      `fromBlock` hold none. A request that asks for no block below `first` gets its blocks; one that also leaves
      no gap gets both. */
  lemma {:induction false} FinishedCovers<L(!new)>(src: EventSource<L>, context: ScanContext, first: int, top: int,
                                                   files: Files, es: seq<DocAttested>, req: Request<L>)
    returns (es': seq<DocAttested>)
    requires WellFormedChain(src) && Inv(src, context, first, top, files, es)
    requires req.context == context && req.toBlock <= top && Honest(req.provider, src.chain)
    requires UpdateEventCache(files, src.decode, req).ending.Finished?
    ensures var lines, start := UpdateEventCache(files, src.decode, req).files.lines, StartOf(files, req);
      && CacheHolds(src, if req.fromBlock < first then req.fromBlock else first, top, lines, es')
      && (Complete(src, req.fromBlock, req.toBlock, es')
          <==> NothingLost(src, first, files.checkpoint, start, req.fromBlock, req.toBlock, es))
      && (Complete(src, first, req.toBlock, es')
          <==> NothingLost(src, first, files.checkpoint, start, first, req.toBlock, es))
      && (first <= req.fromBlock ==> Complete(src, req.fromBlock, req.toBlock, es'))
      && (first <= req.fromBlock && GoesOn(first, files, req) ==> Complete(src, first, req.toBlock, es'))
  {
    hide InChain, Distinct, Complete, ContextRecord, Honest, WellFormedChain, UpdateEventCache, EventKey, GrownBy;
    var low, start := if req.fromBlock < first then req.fromBlock else first, StartOf(files, req);
    CacheWider(src, first, low, top, files.lines, es);
    es' := UpdateScans(src, low, top, files, es, req);
    CompleteExactly(src, first, files.checkpoint, start, req.fromBlock, req.toBlock, es, es');
    CompleteExactly(src, first, files.checkpoint, start, first, req.toBlock, es, es');
    assert first <= req.fromBlock ==> NothingLost(src, first, files.checkpoint, start, req.fromBlock, req.toBlock, es);
    assert first <= req.fromBlock && GoesOn(first, files, req) ==>
      NothingLost(src, first, files.checkpoint, start, first, req.toBlock, es);
  }

  lemma CacheWider<L(!new)>(src: EventSource<L>, first: int, low: int, top: int, lines: seq<Record>,
                            es: seq<DocAttested>)
    requires CacheHolds(src, first, top, lines, es) && low <= first
    ensures CacheHolds(src, low, top, lines, es)
  {
    hide InChain, Distinct, Records;
    forall e | e in es ensures InChain(src, low, top, e) { InChainWider(src, first, top, low, top, e); }
  }

  /** Resuming looks at the checkpoint only: up to its next block, the requested first block does not matter. */
  lemma {:induction false} FirstBlockBelowCheckpointIsIgnored<L>(files: Files, decode: L -> Option<DocAttested>,
      req: Request<L>, other: int)
    requires req.checkpointing && files.checkpoint.Some? && files.checkpoint.value.lastBlock.Some?
    requires req.fromBlock <= files.checkpoint.value.lastBlock.value + 1
      && other <= files.checkpoint.value.lastBlock.value + 1
    ensures UpdateEventCache(files, decode, req.(fromBlock := other)) == UpdateEventCache(files, decode, req)
  {
    hide LoadEventCache, ScanChunks, WriteChunks;
    assert Prepare(files, req.(fromBlock := other)) == Prepare(files, req);
  }

  // ---- both ways to lose a log ----

  /** A chain with a single log, of `e`, in block 1. */
  function OneLog(e: DocAttested): EventSource<DocAttested> {
    Source((block: int) => if block == 1 then [e] else [], (log: DocAttested) => Some(log))
  }

  /** A provider that never refuses. */
  function Willing<L>(chain: int -> seq<L>): Provider<L> {
    (calls: nat, first: int, last: int) => Logs(LogsIn(chain, first, last))
  }

  /** A request with a checkpoint file that lives to write one checkpoint. */
  function Ask<L>(src: EventSource<L>, context: ScanContext, fromBlock: int, toBlock: int): Request<L> {
    Request(context, true, fromBlock, toBlock, 1, Willing(src.chain), 1, 1)
  }

  lemma OneLogFacts(e: DocAttested, first: int, last: int)
    requires e.onBehalfOf != "" && first <= 1 <= last
    ensures var src := OneLog(e);
      WellFormedChain(src) && InChain(src, first, last, e) && !Complete(src, first, last, [])
      && Honest(Willing(src.chain), src.chain)
  {
    var src := OneLog(e);
    assert e in src.chain(1) && src.decode(e) == Some(e);
    assert src.decode(e).value !in [];
  }

  /** A chunk that is served at once. */
  lemma OneChunk<L, E>(src: Source<L, E>, first: nat, last: nat, size: int, events: seq<E>)
    requires first <= last < first + size && DecodeAll(src.decode, LogsIn(src.chain, first, last)) == Some(events)
    ensures ScanChunks(Willing(src.chain), src.decode, first, last, size, 1)
      == Scan([Chunk(first, last, events)], None, 1)
  {
    hide DecodeAll, LogsIn;
    WholeRange(first, last, size);
    var s := ScanRange(Willing(src.chain), src.decode, first, last, 0, 1);
    assert s == Scan([Chunk(first, last, events)], None, 1);
    assert [Range(first, last)][1..] == [] && ScanList(Willing(src.chain), src.decode, [], 1, 1) == Scan([], None, 1);
    assert s.chunks + [] == s.chunks;
  }

  lemma OneBlock<L, E>(src: Source<L, E>, block: nat)
    requires src.chain(block) == []
    ensures ScanChunks(Willing(src.chain), src.decode, block, block, 1, 1) == Scan([Chunk(block, block, [])], None, 1)
  {
    assert LogsIn(src.chain, block, block - 1) == [] && LogsIn(src.chain, block, block) == [];
    OneChunk(src, block, block, 1, []);
  }

  /** An update that really scans one block without logs only writes the checkpoint. */
  lemma OnlyCheckpoints(e: DocAttested, context: ScanContext, checkpoint: Option<Checkpoint>, fromBlock: int,
                        toBlock: nat)
    requires toBlock != 1 && StartOf(Files([], checkpoint), Ask(OneLog(e), context, fromBlock, toBlock)) == toBlock
    requires checkpoint.Some? ==> ContextRecord(checkpoint.value.context) == ContextRecord(context)
    ensures var u := UpdateEventCache(Files([], checkpoint), OneLog(e).decode,
                                      Ask(OneLog(e), context, fromBlock, toBlock));
      u.ending.Finished? && u.files == Files([], Some(Checkpoint(ContextRecord(context), Some(toBlock))))
  {
    hide ContextRecord, ScanChunks, WriteChunks, LoadEventCache, KeySet;
    OneBlock(OneLog(e), toBlock);
    NoLines();
    var req := Ask(OneLog(e), context, fromBlock, toBlock);
    QuietChunk(Begin(Files([], checkpoint), req, toBlock, {}), toBlock, context);
  }

  lemma NoLines()
    ensures LoadEventCache([]) == Ok([]) && KeySet(EventKey, []) == {}
  {
    assert ReadLines([]) == Ok([]) && DedupeEvents([]) == [];
  }

  lemma QuietChunk(p: Progress, block: int, context: ScanContext)
    requires !p.interrupted && p.writes == 1
    ensures var p' := WriteChunks(p, [Chunk(block, block, [])], Some(context));
      && !p'.interrupted
      && p'.files == p.files.(checkpoint := Some(Checkpoint(ContextRecord(context), Some(block))))
  {
    hide ContextRecord;
    var chunks: seq<Chunk<DocAttested>> := [Chunk(block, block, [])];
    assert SortEvents([]) == [] && NewEvents([], p.known) == [] && Records([]) == [];
    assert chunks[..0] == [] && WriteChunks(p, [], Some(context)) == p;
    assert p.files.lines + [] == p.files.lines;
  }

  /** Asking for a block above the next one: with the checkpoint at 0 a request for block 2 finishes and moves the
      checkpoint to 2, and the log of block 1 is not cached. */
  lemma GapIsLost(e: DocAttested, context: ScanContext)
    requires e.onBehalfOf != ""
    ensures var src := OneLog(e);
      var before, req := [Ask(src, context, 0, 0)], Ask(src, context, 2, 2);
      var u := UpdateEventCache(RunAll(src.decode, before), src.decode, req);
      && WellFormedChain(src) && History(src, context, 0, 2, before) && Fits(src, context, 0, 2, req)
      && u.ending.Finished?
      && u.files == Files([], Some(Checkpoint(ContextRecord(context), Some(2))))
      && InChain(src, 0, 2, e) && !Complete(src, 0, 2, [])
  {
    var src := OneLog(e);
    OneLogFacts(e, 0, 2);
    FirstRun(e, context, 0);
    OnlyCheckpoints(e, context, None, 0, 0);
    ContextRecordIdempotent(context);
    OnlyCheckpoints(e, context, Some(Checkpoint(ContextRecord(context), Some(0))), 2, 2);
    hide UpdateEventCache, ContextRecord, WellFormedChain, InChain, Complete, Honest;
    SameFirstIsHistory(src, context, 0, 2, [Ask(src, context, 0, 0)]);
  }

  /** Asking for a block below the first: with blocks 2 and up scanned, a request from block 0 finishes at 3, and
      the log of block 1 is not cached. */
  lemma EarlierBlocksAreLost(e: DocAttested, context: ScanContext)
    requires e.onBehalfOf != ""
    ensures var src := OneLog(e);
      var before, req := [Ask(src, context, 2, 2)], Ask(src, context, 0, 3);
      var u := UpdateEventCache(RunAll(src.decode, before), src.decode, req);
      && WellFormedChain(src) && History(src, context, 2, 3, before) && Honest(req.provider, src.chain)
      && u.ending.Finished?
      && u.files == Files([], Some(Checkpoint(ContextRecord(context), Some(3))))
      && InChain(src, 0, 3, e) && !Complete(src, 0, 3, [])
  {
    var src := OneLog(e);
    OneLogFacts(e, 0, 3);
    FirstRun(e, context, 2);
    OnlyCheckpoints(e, context, None, 2, 2);
    ContextRecordIdempotent(context);
    OnlyCheckpoints(e, context, Some(Checkpoint(ContextRecord(context), Some(2))), 0, 3);
    hide UpdateEventCache, ContextRecord, WellFormedChain, InChain, Complete, Honest;
    SameFirstIsHistory(src, context, 2, 3, [Ask(src, context, 2, 2)]);
  }

  lemma FirstRun(e: DocAttested, context: ScanContext, block: int)
    ensures var src := OneLog(e);
      RunAll(src.decode, [Ask(src, context, block, block)])
      == UpdateEventCache(NO_FILES, src.decode, Ask(src, context, block, block)).files
  {
    hide UpdateEventCache;
    var reqs := [Ask(OneLog(e), context, block, block)];
    assert reqs[..0] == [] && RunFrom(NO_FILES, OneLog(e).decode, []) == NO_FILES;
  }

  // ---- what is left out stays left out ----

  /** However often the updates are run again, with a checkpoint at block B the cache only ever grows by events of
      blocks above B. */
  lemma {:induction false} NeverRescanned<L(!new)>(src: EventSource<L>, low: int, top: int, files: Files,
                                                   es: seq<DocAttested>, reqs: seq<Request<L>>)
    returns (es': seq<DocAttested>)
    requires WellFormedChain(src) && CacheHolds(src, low, top, files.lines, es) && LastBlock(files.checkpoint).Some?
    requires forall req | req in reqs ::
      req.checkpointing && Honest(req.provider, src.chain) && low <= req.fromBlock && req.toBlock <= top
    ensures var after, last := RunFrom(files, src.decode, reqs), LastBlock(files.checkpoint).value;
      && CacheHolds(src, low, top, after.lines, es') && GrownBy(src, last + 1, top, es, es')
      && LastBlock(after.checkpoint).Some? && last <= LastBlock(after.checkpoint).value
  {
    hide WellFormedChain, CacheHolds, GrownBy, UpdateEventCache, Honest, Complete, ContextRecord;
    var last := LastBlock(files.checkpoint).value;
    if reqs == [] {
      NotGrown(src, last + 1, top, es);
      return es;
    }
    var init, req := reqs[..|reqs| - 1], reqs[|reqs| - 1];
    var before := RunFrom(files, src.decode, init);
    var mid := NeverRescanned(src, low, top, files, es, init);
    es' := UpdateScans(src, low, top, before, mid, req);
    GrownAgain(src, last + 1, StartOf(before, req), req.toBlock, top, es, mid, es');
  }

  lemma GrownAgain<L(!new)>(src: EventSource<L>, start: int, later: int, end: int, top: int, es: seq<DocAttested>,
                            es': seq<DocAttested>, es'': seq<DocAttested>)
    requires start <= later && end <= top && GrownBy(src, start, top, es, es') && GrownBy(src, later, end, es', es'')
    ensures GrownBy(src, start, top, es, es'')
  {
    hide InChain;
    forall e | e in es'' ensures e in es || InChain(src, start, top, e) {
      if e !in es' { InChainWider(src, later, end, start, top, e); }
    }
  }

  /** So a log that was skipped is never cached again: after either of the two runs above, no run with the
      checkpoint file ever adds it. */
  lemma {:induction false} LostForGood(e: DocAttested, context: ScanContext, last: int, top: int,
                                       reqs: seq<Request<DocAttested>>)
    requires e.onBehalfOf != "" && last >= 1
    requires forall req | req in reqs ::
      req.checkpointing && Honest(req.provider, OneLog(e).chain) && 0 <= req.fromBlock && req.toBlock <= top
    ensures var files := Files([], Some(Checkpoint(ContextRecord(context), Some(last))));
      RunFrom(files, OneLog(e).decode, reqs).lines == []
  {
    hide RunFrom, Honest, ContextRecord;
    var src := OneLog(e);
    OneLogFacts(e, 0, last);
    var files := Files([], Some(Checkpoint(ContextRecord(context), Some(last))));
    var es := NeverRescanned(src, 0, top, files, [], reqs);
    EmptyOrMember(es);
  }

  // ---- what brings it back ----

  /** An update without the checkpoint file scans just what it is asked for; so if it finishes, every log of those
      blocks is cached, whatever was skipped before. */
  lemma {:induction false} WithoutCheckpointRecovers<L(!new)>(src: EventSource<L>, low: int, top: int, files: Files,
                                                              es: seq<DocAttested>, req: Request<L>)
    returns (es': seq<DocAttested>)
    requires WellFormedChain(src) && Honest(req.provider, src.chain) && CacheHolds(src, low, top, files.lines, es)
    requires low <= req.fromBlock && req.toBlock <= top && !req.checkpointing
    ensures var u := UpdateEventCache(files, src.decode, req);
      && CacheHolds(src, low, top, u.files.lines, es') && es <= es' && u.files.checkpoint == files.checkpoint
      && (u.ending.Finished? ==> Complete(src, req.fromBlock, req.toBlock, es'))
  {
    hide WellFormedChain, CacheHolds, UpdateEventCache, Honest, Complete, ContextRecord;
    es' := UpdateScans(src, low, top, files, es, req);
  }

  /** In particular, after the gap above an update of blocks 0 to 2 without the checkpoint file brings the log back. */
  lemma {:induction false} GapIsRecovered(e: DocAttested, context: ScanContext)
    requires e.onBehalfOf != ""
    ensures var src := OneLog(e);
      var files := Files([], Some(Checkpoint(ContextRecord(context), Some(2))));
      var u := UpdateEventCache(files, src.decode, Request(context, false, 0, 2, 3, Willing(src.chain), 1, 2));
      && u.ending.Finished? && u.files.checkpoint == files.checkpoint
      && LoadEventCache(u.files.lines).Ok? && e in LoadEventCache(u.files.lines).value
  {
    hide UpdateEventCache, ContextRecord, WellFormedChain, InChain, Complete, Honest, ScanChunks, LoadEventCache;
    var src := OneLog(e);
    var files := Files([], Some(Checkpoint(ContextRecord(context), Some(2))));
    var req := Request(context, false, 0, 2, 3, Willing(src.chain), 1, 2);
    OneLogFacts(e, 0, 2);
    LogsOfOne(e);
    OneChunk(src, 0, 2, 3, [e]);
    NoLines();
    assert Prepare(files, req) == Ok((0, {}));
    assert EventsOf([Chunk(0, 2, [e])]) == [e] by { OneChunkEvents(e); }
    LongEnoughRunFinishes(files, src.decode, req);
    EmptyHolds(src, context, 0, 2);
    var es := WithoutCheckpointRecovers(src, 0, 2, files, [], req);
    CompleteHasIt(e, es);
    LoadsBack(src, 0, 2, UpdateEventCache(files, src.decode, req).files.lines, es);
    DistinctKept(es, e);
  }

  lemma OneChunkEvents(e: DocAttested)
    ensures EventsOf([Chunk(0, 2, [e])]) == [e]
  {
    var chunks: seq<Chunk<DocAttested>> := [Chunk(0, 2, [e])];
    assert chunks[1..] == [] && EventsOf(chunks[1..]) == [];
  }

  lemma LogsOfOne(e: DocAttested)
    ensures DecodeAll(OneLog(e).decode, LogsIn(OneLog(e).chain, 0, 2)) == Some([e])
  {
    var chain, decode := OneLog(e).chain, OneLog(e).decode;
    assert LogsIn(chain, 0, -1) == [] && LogsIn(chain, 0, 0) == [] && LogsIn(chain, 0, 1) == [e];
    assert LogsIn(chain, 0, 2) == [e] && [e][..0] == [] && DecodeAll(decode, []) == Some([]);
  }

  lemma CompleteHasIt(e: DocAttested, es: seq<DocAttested>)
    requires Complete(OneLog(e), 0, 2, es)
    ensures e in es
  {
    assert e in OneLog(e).chain(1) && OneLog(e).decode(e) == Some(e);
  }

  /** Deduplication keeps every one of distinct events. */
  lemma DistinctKept(es: seq<DocAttested>, e: DocAttested)
    requires Distinct(EventKey, es) && e in es
    ensures e in DedupeEvents(es)
  {
    ChainOrderValid();
    hide EventKey, EventLess;
    forall x, y | x in es && y in es && EventKey(x) == EventKey(y) ensures x == y {
      var i :| 0 <= i < |es| && es[i] == x;
      var j :| 0 <= j < |es| && es[j] == y;
    }
    DedupedSet(ChainOrder(), es);
  }
}
