/** Resuming gets there in the end: however often the process dies, every durable write counts towards the finish. */
module Finishing {
  import opened Wrappers
  import opened Dedupe
  import opened Events
  import opened Scanner
  import opened Store
  import opened CrashSafety

  // ---- what a cut update has achieved ----

  lemma WriteChunkSpends(p: Progress, c: Chunk<DocAttested>, context: ScanContext)
    requires !p.interrupted
    ensures var p' := WriteChunk(p, c, Some(context));
      && |p.files.lines| <= |p'.files.lines|
      && (p'.interrupted ==>
            && p'.writes == 0 && p'.files.checkpoint == p.files.checkpoint
            && |p'.files.lines| - |p.files.lines| == p.writes)
      && (!p'.interrupted ==>
            && p'.writes + (|p'.files.lines| - |p.files.lines|) + 1 == p.writes
            && LastBlock(p'.files.checkpoint) == Some(c.end))
  {
    hide NewEvents, KeySet, ContextRecord;
  }

  lemma {:induction false} CoveredAtLeast<L, E>(src: Source<L, E>, chunks: seq<Chunk<E>>, first: int)
    requires Contiguous(src, chunks, first)
    ensures CoveredTo(chunks, first) >= first - 1 + |chunks|
  {
    if chunks != [] {
      hide DecodeAll, LogsIn, Contiguous;
      ContiguousSnoc(src, chunks, first);
      CoveredAtLeast(src, chunks[..|chunks| - 1], first);
    }
  }

  /** Every durable write of a cut update is a new record or moves the checkpoint by at least one block: `k` is how
      often the checkpoint was written. */
  lemma {:induction false} WritesSpent<L>(src: EventSource<L>, context: ScanContext, start: int, p: Progress,
                                          chunks: seq<Chunk<DocAttested>>) returns (k: nat)
    requires Contiguous(src, chunks, start) && !p.interrupted
    ensures var p' := WriteChunks(p, chunks, Some(context));
      && |p.files.lines| <= |p'.files.lines|
      && p'.writes + (|p'.files.lines| - |p.files.lines|) + k == p.writes
      && (k == 0 ==> p'.files.checkpoint == p.files.checkpoint)
      && (k > 0 ==> LastBlock(p'.files.checkpoint).Some? && LastBlock(p'.files.checkpoint).value >= start - 1 + k)
      && (p'.interrupted ==> p'.writes == 0)
      && (!p'.interrupted ==> k == |chunks|)
  {
    hide WriteChunk, Contiguous, DecodeAll, LogsIn;
    if chunks == [] { return 0; }
    var init, c := chunks[..|chunks| - 1], chunks[|chunks| - 1];
    ContiguousSnoc(src, chunks, start);
    CoveredAtLeast(src, init, start);
    k := WritesSpent(src, context, start, p, init);
    var before := WriteChunks(p, init, Some(context));
    if before.interrupted {
      WriteChunkInterrupted(before, c, Some(context));
    } else {
      WriteChunkSpends(before, c, context);
      if !WriteChunk(before, c, Some(context)).interrupted { k := k + 1; }
    }
  }

  /** How many blocks of the history the checkpoint covers. */
  function Covered(first: int, files: Files): nat {
    var last := LastBlock(files.checkpoint);
    if last.Some? && last.value >= first then last.value - first + 1 else 0
  }

  /** What has been achieved: cached records and covered blocks. */
  function Achieved(first: int, files: Files): nat {
    |files.lines| + Covered(first, files)
  }

  /** A run that goes on towards block `last`. */
  ghost predicate Continues<L(!new)>(src: EventSource<L>, context: ScanContext, first: int, last: int,
                                     req: Request<L>)
  {
    Fits(src, context, first, last, req) && req.fromBlock == first && req.toBlock == last && req.checkpointing
  }

  predicate MeetsNoError<L>(files: Files, decode: L -> Option<DocAttested>, req: Request<L>) {
    var start := StartOf(files, req);
    req.toBlock < start
    || ScanChunks(req.provider, decode, start, req.toBlock, req.chunkSize, req.depth).error.None?
  }

  /** A run that meets no error and does not finish has achieved as much as it had writes. */
  lemma {:induction false} UnfinishedAchieves<L(!new)>(src: EventSource<L>, context: ScanContext, first: int, last: int,
                                                       files: Files, es: seq<DocAttested>, req: Request<L>)
    requires WellFormedChain(src) && Inv(src, context, first, last, files, es)
    requires Continues(src, context, first, last, req) && MeetsNoError(files, src.decode, req)
    requires !UpdateEventCache(files, src.decode, req).ending.Finished?
    ensures Achieved(first, UpdateEventCache(files, src.decode, req).files) >= Achieved(first, files) + req.writes
  {
    hide InChain, CacheHolds, WellFormedChain, Complete, KeySet, ContextRecord, Honest, ScanChunks, WriteChunks;
    hide Prepare, Contiguous;
    PrepareStarts(src, first, last, files, es, req);
    var start := StartOf(files, req);
    if start <= last {
      ScanChunksCovers(src, req, start);
      var chunks := ScanChunks(req.provider, src.decode, start, last, req.chunkSize, req.depth).chunks;
      var k := WritesSpent(src, context, start, Begin(files, req, start, KeySet(EventKey, es)), chunks);
    }
  }

  // ---- what there is to achieve ----

  /** The keys of the events that some logs decode to. */
  function DecodedKeys<L>(decode: L -> Option<DocAttested>, logs: seq<L>): set<string> {
    set i | 0 <= i < |logs| && decode(logs[i]).Some? :: EventKey(decode(logs[i]).value)
  }

  lemma {:induction false} DecodedCount<L>(decode: L -> Option<DocAttested>, logs: seq<L>)
    ensures |DecodedKeys(decode, logs)| <= |logs|
  {
    hide EventKey;
    if logs == [] {
      assert DecodedKeys(decode, logs) == {};
    } else {
      var init, last := logs[..|logs| - 1], logs[|logs| - 1];
      DecodedCount(decode, init);
      assert logs == init + [last];
      var more := if decode(last).Some? then {EventKey(decode(last).value)} else {};
      assert DecodedKeys(decode, logs) <= DecodedKeys(decode, init) + more;
      SubsetCount(DecodedKeys(decode, logs), DecodedKeys(decode, init) + more);
    }
  }

  lemma {:induction false} SubsetCount<T>(a: set<T>, b: set<T>)
    requires a <= b
    ensures |a| <= |b|
  {
    if a != {} {
      var x :| x in a;
      SubsetCount(a - {x}, b - {x});
    }
  }

  /** A sound cache holds no more records than there are logs. */
  lemma {:induction false} CachedAtMostLogs<L(!new)>(src: EventSource<L>, first: int, last: int, lines: seq<Record>,
                                                     es: seq<DocAttested>)
    requires CacheHolds(src, first, last, lines, es)
    ensures |lines| <= |LogsIn(src.chain, first, last)|
  {
    hide EventKey, LogsIn;
    var logs := LogsIn(src.chain, first, last);
    forall key | key in KeySet(EventKey, es) ensures key in DecodedKeys(src.decode, logs) {
      var j :| 0 <= j < |es| && EventKey(es[j]) == key;
      assert es[j] in es;
      var b, l :| first <= b <= last && l in src.chain(b) && src.decode(l) == Some(es[j]);
      LogsInMember(src.chain, first, last, l);
      var i :| 0 <= i < |logs| && logs[i] == l;
    }
    KeySetCount(EventKey, es);
    SubsetCount(KeySet(EventKey, es), DecodedKeys(src.decode, logs));
    DecodedCount(src.decode, logs);
  }

  /** Everything there is to write: a record for each log, a checkpoint for each block. */
  function Work<L>(src: EventSource<L>, first: int, last: int): nat {
    |LogsIn(src.chain, first, last)| + if first <= last then last - first + 1 else 0
  }

  lemma AchievedAtMostWork<L(!new)>(src: EventSource<L>, context: ScanContext, first: int, last: int, files: Files,
                                    es: seq<DocAttested>)
    requires Inv(src, context, first, last, files, es)
    ensures Achieved(first, files) <= Work(src, first, last)
  {
    hide CacheHolds, Complete, LogsIn, ContextRecord;
    CachedAtMostLogs(src, first, last, files.lines, es);
  }

  // ---- the theorem ----

  function TotalWrites<L>(reqs: seq<Request<L>>): nat {
    if reqs == [] then 0 else TotalWrites(reqs[..|reqs| - 1]) + reqs[|reqs| - 1].writes
  }

  predicate FinishesAt<L>(decode: L -> Option<DocAttested>, reqs: seq<Request<L>>, i: nat)
    requires i < |reqs|
  {
    UpdateEventCache(RunAll(decode, reqs[..i]), decode, reqs[i]).ending.Finished?
  }

  /** One more unfinished run. */
  lemma {:induction false} OneMoreAchieves<L(!new)>(src: EventSource<L>, context: ScanContext, first: int, last: int,
                                                    before: seq<Request<L>>, req: Request<L>)
    requires WellFormedChain(src) && Continues(src, context, first, last, req)
    requires forall r | r in before :: Continues(src, context, first, last, r)
    requires MeetsNoError(RunAll(src.decode, before), src.decode, req)
    requires !UpdateEventCache(RunAll(src.decode, before), src.decode, req).ending.Finished?
    ensures Achieved(first, RunAll(src.decode, before + [req]))
      >= Achieved(first, RunAll(src.decode, before)) + req.writes
  {
    hide WellFormedChain, Inv, UpdateEventCache, MeetsNoError, Achieved, Fits;
    SameFirstIsHistory(src, context, first, last, before);
    var es := CrashSafeResume(src, context, first, last, before);
    UnfinishedAchieves(src, context, first, last, RunAll(src.decode, before), es, req);
    assert (before + [req])[..|before|] == before;
  }

  /** Run `i` meets no error and does not finish. */
  predicate CutAt<L>(decode: L -> Option<DocAttested>, reqs: seq<Request<L>>, i: nat)
    requires i < |reqs|
  {
    MeetsNoError(RunAll(decode, reqs[..i]), decode, reqs[i]) && !FinishesAt(decode, reqs, i)
  }

  /** Every run is cut. */
  predicate AllCut<L>(decode: L -> Option<DocAttested>, reqs: seq<Request<L>>) {
    reqs != [] ==> AllCut(decode, reqs[..|reqs| - 1]) && CutAt(decode, reqs, |reqs| - 1)
  }

  lemma {:induction false} AllCutPrefix<L>(decode: L -> Option<DocAttested>, reqs: seq<Request<L>>, n: nat)
    requires n <= |reqs| && forall i | 0 <= i < |reqs| :: CutAt(decode, reqs, i)
    ensures AllCut(decode, reqs[..n])
  {
    if n > 0 {
      AllCutPrefix(decode, reqs, n - 1);
      assert reqs[..n][..n - 1] == reqs[..n - 1] && reqs[..n][n - 1] == reqs[n - 1];
      assert CutAt(decode, reqs, n - 1);
    }
  }

  lemma {:induction false} CutRunsAchieve<L(!new)>(src: EventSource<L>, context: ScanContext, first: int, last: int,
                                                   reqs: seq<Request<L>>)
    requires WellFormedChain(src) && AllCut(src.decode, reqs)
    requires forall req | req in reqs :: Continues(src, context, first, last, req)
    ensures Achieved(first, RunAll(src.decode, reqs)) >= TotalWrites(reqs)
  {
    hide WellFormedChain, UpdateEventCache, MeetsNoError, Achieved, Continues, RunAll;
    if reqs != [] {
      var before, req := reqs[..|reqs| - 1], reqs[|reqs| - 1];
      assert reqs == before + [req];
      CutRunsAchieve(src, context, first, last, before);
      OneMoreAchieves(src, context, first, last, before, req);
    }
  }

  /** Resuming gets there: runs that go on towards one block and meet no error, each of them cut anywhere, finish
      at the latest when together they have been given more durable writes than there is work. */
  lemma {:induction false} ResumingFinishes<L(!new)>(src: EventSource<L>, context: ScanContext, first: int, last: int,
                                                     reqs: seq<Request<L>>)
    requires WellFormedChain(src)
    requires forall req | req in reqs :: Continues(src, context, first, last, req)
    requires forall i | 0 <= i < |reqs| :: MeetsNoError(RunAll(src.decode, reqs[..i]), src.decode, reqs[i])
    requires TotalWrites(reqs) > Work(src, first, last)
    ensures exists i | 0 <= i < |reqs| :: FinishesAt(src.decode, reqs, i)
  {
    hide WellFormedChain, Inv, MeetsNoError, Achieved, Work, TotalWrites, RunAll, FinishesAt, Fits;
    if forall i | 0 <= i < |reqs| :: !FinishesAt(src.decode, reqs, i) {
      AllCutPrefix(src.decode, reqs, |reqs|);
      assert reqs[..|reqs|] == reqs;
      CutRunsAchieve(src, context, first, last, reqs);
      SameFirstIsHistory(src, context, first, last, reqs);
      var es := CrashSafeResume(src, context, first, last, reqs);
      AchievedAtMostWork(src, context, first, last, RunAll(src.decode, reqs), es);
      assert false;
    }
  }

  /** In particular, if every run lives to do one write, at most as many runs as there is work fail to finish. */
  lemma {:induction false} OneWriteEachFinishes<L(!new)>(src: EventSource<L>, context: ScanContext, first: int,
                                                         last: int, reqs: seq<Request<L>>)
    requires WellFormedChain(src)
    requires forall req | req in reqs :: Continues(src, context, first, last, req) && req.writes >= 1
    requires forall i | 0 <= i < |reqs| :: MeetsNoError(RunAll(src.decode, reqs[..i]), src.decode, reqs[i])
    requires |reqs| > Work(src, first, last)
    ensures exists i | 0 <= i < |reqs| :: FinishesAt(src.decode, reqs, i)
  {
    hide Continues, MeetsNoError, FinishesAt, RunAll, Work;
    AtLeastOneEach(reqs);
    ResumingFinishes(src, context, first, last, reqs);
  }

  lemma {:induction false} AtLeastOneEach<L>(reqs: seq<Request<L>>)
    requires forall req | req in reqs :: req.writes >= 1
    ensures TotalWrites(reqs) >= |reqs|
  {
    if reqs != [] { AtLeastOneEach(reqs[..|reqs| - 1]); }
  }
}
