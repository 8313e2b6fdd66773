/** What the event cache holds after any sequence of scans, each cut at any point, over one fixed chain. */
module CrashSafety {
  import opened Wrappers
  import opened Dedupe
  import opened Events
  import opened Scanner
  import Chunking
  import opened Store

  type EventSource<!L> = Source<L, DocAttested>

  /** Block `b` with `first <= b <= last` holds a matching log that decodes to `e`. */
  ghost predicate InChain<L(!new)>(src: EventSource<L>, first: int, last: int, e: DocAttested) {
    exists b, l :: first <= b <= last && l in src.chain(b) && src.decode(l) == Some(e)
  }

  /** All that is assumed of the chain: a transaction log occurs once, and decoded events name an
      `onBehalfOf` (which the decoder guarantees). */
  ghost predicate WellFormedChain<L(!new)>(src: EventSource<L>) {
    && (forall f, t, e | InChain(src, f, t, e) :: e.onBehalfOf != "")
    && forall f, t, e, g, u, x | InChain(src, f, t, e) && InChain(src, g, u, x) && EventKey(e) == EventKey(x) :: e == x
  }

  /** Every log of the blocks decodes to a cached event. */
  ghost predicate Complete<L(!new)>(src: EventSource<L>, first: int, last: int, es: seq<DocAttested>) {
    forall b, l :: first <= b <= last && l in src.chain(b) ==> src.decode(l).Some? && src.decode(l).value in es
  }

  /** The cache file holds exactly the records of `es`, all of them real events, none twice. */
  ghost predicate CacheHolds<L(!new)>(src: EventSource<L>, first: int, top: int, lines: seq<Record>,
                                      es: seq<DocAttested>) {
    && lines == Records(es)
    && Distinct(EventKey, es)
    && forall e | e in es :: InChain(src, first, top, e)
  }

  /** The checkpoint belongs to the context and promises nothing that is not cached. */
  ghost predicate CheckpointHolds<L(!new)>(src: EventSource<L>, context: ScanContext, first: int, top: int,
                                           checkpoint: Option<Checkpoint>, es: seq<DocAttested>)
  {
    checkpoint.Some? ==>
      && ContextRecord(checkpoint.value.context) == ContextRecord(context)
      && (checkpoint.value.lastBlock.Some? ==>
            && checkpoint.value.lastBlock.value <= top
            && Complete(src, first, checkpoint.value.lastBlock.value, es))
  }

  ghost predicate Inv<L(!new)>(src: EventSource<L>, context: ScanContext, first: int, top: int, files: Files,
                               es: seq<DocAttested>) {
    CacheHolds(src, first, top, files.lines, es) && CheckpointHolds(src, context, first, top, files.checkpoint, es)
  }

  // ---- reading the cache back ----

  lemma {:induction false} ReadLinesSnoc(lines: seq<Record>, line: Record)
    requires ReadLines(lines).Ok? && Normalize(line).Ok?
    ensures ReadLines(lines + [line]) == Ok(ReadLines(lines).value + [Normalize(line).value])
  {
    hide Normalize;
    assert (lines + [line])[..|lines|] == lines;
  }

  lemma RecordsSnoc(es: seq<DocAttested>, e: DocAttested)
    ensures Records(es + [e]) == Records(es) + [CacheRecord(e)]
  {
    hide CacheRecord;
    assert (es + [e])[..|es|] == es;
  }

  lemma {:induction false} ReadBack(es: seq<DocAttested>)
    requires forall e | e in es :: e.onBehalfOf != ""
    ensures ReadLines(Records(es)) == Ok(es)
  {
    if es == [] {
      hide Normalize, CacheRecord;
    } else {
      hide Normalize, CacheRecord, ReadLines, Records;
      var init, last := es[..|es| - 1], es[|es| - 1];
      assert es == init + [last];
      ReadBack(init);
      CacheRecordRoundTrip(last);
      RecordsSnoc(init, last);
      ReadLinesSnoc(Records(init), CacheRecord(last));
    }
  }

  lemma SameKeySet(es: seq<DocAttested>)
    ensures KeySet(EventKey, DedupeEvents(es)) == KeySet(EventKey, es)
  {
    var d := DedupeEvents(es);
    hide EventKey, EventLess, DedupeEvents, StrictlySorted, Distinct, Ascending, KeySet;
    DedupeEventsResult(es);
    KeySetWithin(EventKey, es, d);
    forall e | e in d ensures exists x | x in es :: EventKey(x) == EventKey(e) {
      assert e in es;
    }
    KeySetWithin(EventKey, d, es);
  }

  lemma KeySetWithin<T, K>(key: T -> K, xs: seq<T>, ys: seq<T>)
    requires forall x | x in xs :: exists y | y in ys :: key(y) == key(x)
    ensures KeySet(key, xs) <= KeySet(key, ys)
  {
    forall k | k in KeySet(key, xs) ensures k in KeySet(key, ys) {
      var i :| 0 <= i < |xs| && key(xs[i]) == k;
      assert xs[i] in xs;
      var y :| y in ys && key(y) == key(xs[i]);
      KeySetMember(key, ys, y);
    }
  }

  lemma KeySetMember<T, K>(key: T -> K, xs: seq<T>, x: T)
    requires x in xs
    ensures key(x) in KeySet(key, xs)
  {
    var i :| 0 <= i < |xs| && xs[i] == x;
  }

  lemma LoadsBack<L(!new)>(src: EventSource<L>, first: int, top: int, lines: seq<Record>, es: seq<DocAttested>)
    requires WellFormedChain(src) && CacheHolds(src, first, top, lines, es)
    ensures LoadEventCache(lines) == Ok(DedupeEvents(es))
  {
    hide InChain;
    ReadBack(es);
  }

  // ---- one chunk ----

  lemma {:induction false} LogsInMember<L(!new)>(chain: int -> seq<L>, first: int, last: int, l: L)
    ensures l in LogsIn(chain, first, last) <==> exists b :: first <= b <= last && l in chain(b)
    decreases last - first
  {
    if first <= last {
      LogsInMember(chain, first, last - 1, l);
      assert LogsIn(chain, first, last) == LogsIn(chain, first, last - 1) + chain(last);
      if b :| first <= b <= last && l in chain(b) {
        if b < last { assert first <= b <= last - 1; }
      }
    }
  }

  lemma {:induction false} DecodeAllMember<L, E>(decode: L -> Option<E>, logs: seq<L>)
    ensures DecodeAll(decode, logs).Some? <==> forall l | l in logs :: decode(l).Some?
    ensures DecodeAll(decode, logs).Some? ==>
      && (forall l | l in logs :: decode(l).Some? && decode(l).value in DecodeAll(decode, logs).value)
      && forall e | e in DecodeAll(decode, logs).value :: exists l | l in logs :: decode(l) == Some(e)
  {
    if logs != [] {
      DecodeAllMember(decode, logs[..|logs| - 1]);
      assert logs == logs[..|logs| - 1] + [logs[|logs| - 1]];
    }
  }

  /** A chunk's events are the events of its blocks. */
  lemma ChunkEvents<L(!new)>(src: EventSource<L>, first: int, last: int, es: seq<DocAttested>)
    requires DecodeAll(src.decode, LogsIn(src.chain, first, last)) == Some(es)
    ensures Complete(src, first, last, es)
    ensures forall e :: e in es <==> InChain(src, first, last, e)
  {
    DecodeAllMember(src.decode, LogsIn(src.chain, first, last));
    forall b, l | first <= b <= last && l in src.chain(b) ensures src.decode(l).Some? && src.decode(l).value in es {
      LogsInMember(src.chain, first, last, l);
    }
    forall e | e in es ensures InChain(src, first, last, e) {
      var l :| l in LogsIn(src.chain, first, last) && src.decode(l) == Some(e);
      LogsInMember(src.chain, first, last, l);
    }
  }

  lemma InChainWider<L(!new)>(src: EventSource<L>, first: int, last: int, f: int, t: int, e: DocAttested)
    requires InChain(src, first, last, e) && f <= first && last <= t
    ensures InChain(src, f, t, e)
  {
  }

  /** The events appended for a chunk: in chain order, distinct, unknown, from the chunk, and for every unknown key one
      of the lowest block. */
  lemma NewEventsFacts(events: seq<DocAttested>, known: set<string>)
    ensures var unseen := NewEvents(events, known);
      && Ascending(unseen, true)
      && Distinct(EventKey, unseen)
      && (forall e | e in unseen :: e in events && EventKey(e) !in known)
      && forall x | x in events && EventKey(x) !in known ::
           exists e | e in unseen :: EventKey(e) == EventKey(x) && e.blockNumber <= x.blockNumber
  {
    var sorted, unseen := SortEvents(events), NewEvents(events, known);
    ChainOrderValid();
    SortSorts(EventLess, events);
    KeepDistinct(EventKey, sorted, known);
    KeepSorted(ChainOrder(), sorted, known);
    StrictlySortedAscends(unseen);
    hide EventKey, EventLess, Ascending, SortEvents, NewEvents;
    forall e | e in unseen ensures e in events && EventKey(e) !in known {
      assert e in multiset(sorted) && e in multiset(events);
    }
    forall x | x in events && EventKey(x) !in known
      ensures exists e | e in unseen :: EventKey(e) == EventKey(x) && e.blockNumber <= x.blockNumber
    {
      assert x in multiset(events) && x in multiset(sorted);
      FirstIsLowest(sorted, unseen, known, x);
    }
  }

  lemma FirstIsLowest(sorted: seq<DocAttested>, unseen: seq<DocAttested>, known: set<string>, x: DocAttested)
    requires Sorted(EventLess, sorted) && unseen == Keep(EventKey, sorted, known)
    requires x in sorted && EventKey(x) !in known
    ensures exists e | e in unseen :: EventKey(e) == EventKey(x) && e.blockNumber <= x.blockNumber
  {
    hide EventKey, EventLess;
    var i :| 0 <= i < |sorted| && sorted[i] == x;
    FirstSome(EventKey, sorted, i);
    FirstOfKeep(EventKey, sorted, known, EventKey(x));
    FirstIn(EventKey, unseen, EventKey(x));
    var e := First(EventKey, unseen, EventKey(x)).value;
    EarliestOfSorted(ChainOrder(), sorted, EventKey(x));
    ChainOrderValid();
    EarliestIsLeast(ChainOrder(), sorted, EventKey(x));
    SameKeyOrder(x, e);
  }

  lemma {:induction false} RecordsConcat(a: seq<DocAttested>, b: seq<DocAttested>)
    ensures Records(a + b) == Records(a) + Records(b)
    decreases |b|
  {
    hide CacheRecord;
    if b == [] {
      assert a + b == a && Records(b) == [];
    } else {
      hide Records;
      var init, last := b[..|b| - 1], b[|b| - 1];
      RecordsConcat(a, init);
      RecordsSnoc(init, last);
      RecordsSnoc(a + init, last);
      assert b == init + [last] && a + b == (a + init) + [last];
      assert (Records(a) + Records(init)) + [CacheRecord(last)] == Records(a) + (Records(init) + [CacheRecord(last)]);
    }
  }

  lemma KeySetConcat<T, K>(key: T -> K, a: seq<T>, b: seq<T>)
    ensures KeySet(key, a + b) == KeySet(key, a) + KeySet(key, b)
  {
    forall k | k in KeySet(key, a) + KeySet(key, b) ensures k in KeySet(key, a + b) {
      if k in KeySet(key, a) {
        var i :| 0 <= i < |a| && key(a[i]) == k;
        assert (a + b)[i] == a[i];
      } else {
        var i :| 0 <= i < |b| && key(b[i]) == k;
        assert (a + b)[|a| + i] == b[i];
      }
    }
  }

  /** Appending some of a chunk's new events keeps the cache sound. */
  lemma AppendKeeps<L(!new)>(src: EventSource<L>, first: int, top: int, lines: seq<Record>, es: seq<DocAttested>,
                             start: int, end: int, events: seq<DocAttested>, n: nat)
    requires CacheHolds(src, first, top, lines, es) && first <= start && end <= top
    requires DecodeAll(src.decode, LogsIn(src.chain, start, end)) == Some(events)
    requires n <= |NewEvents(events, KeySet(EventKey, es))|
    ensures var unseen := NewEvents(events, KeySet(EventKey, es));
      CacheHolds(src, first, top, lines + Records(unseen[..n]), es + unseen[..n])
  {
    var unseen := NewEvents(events, KeySet(EventKey, es));
    hide NewEvents, EventKey, InChain;
    NewEventsFacts(events, KeySet(EventKey, es));
    ChunkEvents(src, start, end, events);
    RecordsConcat(es, unseen[..n]);
    forall e | e in unseen[..n] ensures InChain(src, first, top, e) && EventKey(e) !in KeySet(EventKey, es) {
      assert e in unseen;
      InChainWider(src, start, end, first, top, e);
    }
    DistinctConcat(EventKey, es, unseen[..n]);
  }

  lemma DistinctConcat<T, K>(key: T -> K, a: seq<T>, b: seq<T>)
    requires Distinct(key, a) && Distinct(key, b) && forall x | x in b :: key(x) !in KeySet(key, a)
    ensures Distinct(key, a + b)
  {
    forall i, j | 0 <= i < j < |a + b| ensures key((a + b)[i]) != key((a + b)[j]) {
      if j >= |a| {
        assert (a + b)[j] == b[j - |a|] && b[j - |a|] in b;
        if i < |a| { KeySetMember(key, a, a[i]); } else { assert (a + b)[i] == b[i - |a|]; }
      }
    }
  }

  /** Appending all of them makes the cache complete to the end of the chunk. */
  lemma AppendCompletes<L(!new)>(src: EventSource<L>, low: int, top: int, lines: seq<Record>, es: seq<DocAttested>,
                                 first: int, start: int, end: int, events: seq<DocAttested>)
    requires WellFormedChain(src) && CacheHolds(src, low, top, lines, es) && Complete(src, first, start - 1, es)
    requires DecodeAll(src.decode, LogsIn(src.chain, start, end)) == Some(events)
    ensures Complete(src, first, end, es + NewEvents(events, KeySet(EventKey, es)))
  {
    var unseen := NewEvents(events, KeySet(EventKey, es));
    hide NewEvents, EventKey, Distinct, Records;
    NewEventsFacts(events, KeySet(EventKey, es));
    ChunkEvents(src, start, end, events);
    forall b, l | first <= b <= end && l in src.chain(b)
      ensures src.decode(l).Some? && src.decode(l).value in es + unseen
    {
      if b >= start { CachedOrNew(src, low, top, es, start, end, events, src.decode(l).value); }
    }
  }

  lemma CachedOrNew<L(!new)>(src: EventSource<L>, first: int, top: int, es: seq<DocAttested>, start: int, end: int,
                             events: seq<DocAttested>, x: DocAttested)
    requires WellFormedChain(src) && (forall e | e in es :: InChain(src, first, top, e))
    requires x in events && forall e | e in events :: InChain(src, start, end, e)
    ensures x in es || x in NewEvents(events, KeySet(EventKey, es))
  {
    hide NewEvents, EventKey;
    NewEventsFacts(events, KeySet(EventKey, es));
    if EventKey(x) in KeySet(EventKey, es) {
      var i :| 0 <= i < |es| && EventKey(es[i]) == EventKey(x);
      assert es[i] in es;
      assert es[i] == x;
    } else {
      var e :| e in NewEvents(events, KeySet(EventKey, es)) && EventKey(e) == EventKey(x);
      assert e in events;
      assert e == x;
    }
  }

  // ---- a run, cut anywhere ----

  /** The checkpoint is where it was, or at a block down to `start` up to which everything is cached. */
  ghost predicate CheckpointMoved<L(!new)>(src: EventSource<L>, context: ScanContext, start: int, top: int,
                                           before: Option<Checkpoint>, after: Option<Checkpoint>, es: seq<DocAttested>)
  {
    after == before
    || (&& after.Some? && after.value.context == ContextRecord(context)
        && after.value.lastBlock.Some? && start <= after.value.lastBlock.value <= top
        && Complete(src, start, after.value.lastBlock.value, es))
  }

  /** What holds between two chunks of a scan from `start` that is complete up to block `done`. */
  ghost predicate AtBoundary<L(!new)>(src: EventSource<L>, context: ScanContext, low: int, top: int, start: int,
                                      done: int, before: Option<Checkpoint>, p: Progress, es: seq<DocAttested>)
  {
    && CacheHolds(src, low, top, p.files.lines, es)
    && CheckpointMoved(src, context, start, top, before, p.files.checkpoint, es)
    && (!p.interrupted ==> p.known == KeySet(EventKey, es) && Complete(src, start, done, es))
  }

  /** The cache has grown, and only by events of the blocks from `start` to `end`. */
  ghost predicate GrownBy<L(!new)>(src: EventSource<L>, start: int, end: int, es: seq<DocAttested>,
                                   es': seq<DocAttested>)
  {
    es <= es' && forall e | e in es' :: e in es || InChain(src, start, end, e)
  }

  lemma CompleteGrows<L(!new)>(src: EventSource<L>, first: int, last: int, es: seq<DocAttested>, more: seq<DocAttested>)
    requires Complete(src, first, last, es) && es <= more
    ensures Complete(src, first, last, more)
  {
  }

  lemma MovedGrows<L(!new)>(src: EventSource<L>, context: ScanContext, start: int, top: int, before: Option<Checkpoint>,
                            after: Option<Checkpoint>, es: seq<DocAttested>, more: seq<DocAttested>)
    requires CheckpointMoved(src, context, start, top, before, after, es) && es <= more
    ensures CheckpointMoved(src, context, start, top, before, after, more)
  {
    hide Complete, ContextRecord;
    if after != before { CompleteGrows(src, start, after.value.lastBlock.value, es, more); }
  }

  lemma UnseenAreNew<L(!new)>(src: EventSource<L>, es: seq<DocAttested>, c: Chunk<DocAttested>, n: nat)
    requires DecodeAll(src.decode, LogsIn(src.chain, c.start, c.end)) == Some(c.events)
    requires n <= |NewEvents(c.events, KeySet(EventKey, es))|
    ensures GrownBy(src, c.start, c.end, es, es + NewEvents(c.events, KeySet(EventKey, es))[..n])
  {
    var unseen := NewEvents(c.events, KeySet(EventKey, es));
    hide NewEvents, EventKey, InChain, KeySet;
    NewEventsFacts(c.events, KeySet(EventKey, es));
    ChunkEvents(src, c.start, c.end, c.events);
    forall e | e in es + unseen[..n] ensures e in es || InChain(src, c.start, c.end, e) {
      if e !in es { assert e in unseen; }
    }
  }

  lemma {:induction false} WriteChunkKeeps<L(!new)>(
      src: EventSource<L>, context: ScanContext, checkpointAs: Option<ScanContext>, low: int, top: int, start: int,
      before: Option<Checkpoint>, p: Progress, es: seq<DocAttested>, c: Chunk<DocAttested>)
    returns (es': seq<DocAttested>)
    requires WellFormedChain(src) && (checkpointAs == None || checkpointAs == Some(context))
    requires AtBoundary(src, context, low, top, start, c.start - 1, before, p, es)
    requires DecodeAll(src.decode, LogsIn(src.chain, c.start, c.end)) == Some(c.events)
    requires low <= start <= c.start <= c.end <= top
    ensures var p' := WriteChunk(p, c, checkpointAs);
      && AtBoundary(src, context, low, top, start, c.end, before, p', es')
      && GrownBy(src, c.start, c.end, es, es')
      && (!p'.interrupted ==>
            && p'.added == p.added + |es'| - |es| && p'.lastScanned == c.end
            && p'.files.checkpoint
               == (if checkpointAs.Some? then Some(Checkpoint(ContextRecord(context), Some(c.end)))
                   else p.files.checkpoint))
      && (p'.interrupted ==> p'.files.checkpoint == p.files.checkpoint)
  {
    hide NewEvents, EventKey, InChain, WellFormedChain, CacheHolds, Complete, Records, KeySet, ContextRecord, GrownBy;
    if p.interrupted {
      NotGrown(src, c.start, c.end, es);
      return es;
    }
    var unseen := NewEvents(c.events, p.known);
    var n := if p.writes < |unseen| then p.writes else |unseen|;
    es' := es + unseen[..n];
    AppendKeeps(src, low, top, p.files.lines, es, c.start, c.end, c.events, n);
    UnseenAreNew(src, es, c, n);
    MovedGrows(src, context, start, top, before, p.files.checkpoint, es, es');
    if n == |unseen| {
      assert unseen[..n] == unseen;
      AppendCompletes(src, low, top, p.files.lines, es, start, c.start, c.end, c.events);
      KeySetConcat(EventKey, es, unseen);
    }
  }

  lemma NotGrown<L(!new)>(src: EventSource<L>, start: int, end: int, es: seq<DocAttested>)
    ensures GrownBy(src, start, end, es, es)
  {
  }

  /** Scan contexts that differ in letter case of the hex fields only. */
  predicate SameContext(c: ScanContext, d: ScanContext) {
    && Digits.Lower(c.address) == Digits.Lower(d.address)
    && Digits.Lower(c.docChainId) == Digits.Lower(d.docChainId)
    && Digits.Lower(c.attester) == Digits.Lower(d.attester)
    && c.docRef == d.docRef && c.chainId == d.chainId && c.network == d.network
  }

  lemma ContextRecordIdempotent(c: ScanContext)
    ensures ContextRecord(ContextRecord(c)) == ContextRecord(c)
  {
    Digits.LowerIdempotent(c.address);
    Digits.LowerIdempotent(c.docChainId);
    Digits.LowerIdempotent(c.attester);
  }

  /** A checkpoint is written with its hex fields in lower case. It is accepted for another context exactly when the two
      are the same up to letter case; then scanning goes on after its last block. */
  lemma CheckpointIsAccepted(c: ScanContext, d: ScanContext, last: int)
    ensures var written := ContextRecord(c);
      && written.address == Digits.Lower(c.address) && written.docChainId == Digits.Lower(c.docChainId)
      && written.attester == Digits.Lower(c.attester)
      && written.docRef == c.docRef && written.chainId == c.chainId && written.network == c.network
    ensures NextBlock(Some(Checkpoint(ContextRecord(c), Some(last))), d)
      == if SameContext(c, d) then Ok(Some(last + 1)) else Err(ContextMismatch)
  {
    ContextRecordIdempotent(c);
    assert ContextRecord(c) == ContextRecord(d) <==> SameContext(c, d);
  }

  lemma {:induction false} ContiguousSnoc<L, E>(src: Source<L, E>, chunks: seq<Chunk<E>>, first: int)
    requires Contiguous(src, chunks, first) && chunks != []
    ensures var init, c := chunks[..|chunks| - 1], chunks[|chunks| - 1];
      && Contiguous(src, init, first)
      && c.start == CoveredTo(init, first) + 1
      && first <= c.start <= c.end
      && DecodeAll(src.decode, LogsIn(src.chain, c.start, c.end)) == Some(c.events)
  {
    if |chunks| > 1 {
      var init := chunks[..|chunks| - 1];
      ContiguousSnoc(src, chunks[1..], chunks[0].end + 1);
      assert chunks[1..][..|chunks| - 2] == init[1..];
    }
  }

  lemma {:induction false} WriteChunksKeep<L(!new)>(
      src: EventSource<L>, context: ScanContext, checkpointAs: Option<ScanContext>, low: int, top: int, start: int,
      p: Progress, es: seq<DocAttested>, chunks: seq<Chunk<DocAttested>>) returns (es': seq<DocAttested>)
    requires WellFormedChain(src) && (checkpointAs == None || checkpointAs == Some(context))
    requires CacheHolds(src, low, top, p.files.lines, es) && p.known == KeySet(EventKey, es) && !p.interrupted
    requires Contiguous(src, chunks, start) && low <= start && (chunks != [] ==> CoveredTo(chunks, start) <= top)
    ensures var p', end := WriteChunks(p, chunks, checkpointAs), CoveredTo(chunks, start);
      && AtBoundary(src, context, low, top, start, end, p.files.checkpoint, p', es')
      && GrownBy(src, start, end, es, es')
      && (!p'.interrupted ==>
            && p'.added == p.added + |es'| - |es|
            && (chunks != [] ==> p'.lastScanned == end)
            && p'.files.checkpoint == (if checkpointAs.Some? && chunks != []
                 then Some(Checkpoint(ContextRecord(context), Some(end))) else p.files.checkpoint))
  {
    hide WriteChunk, KeySet, Complete, CacheHolds, ContextRecord, WellFormedChain, Contiguous, DecodeAll, LogsIn;
    hide GrownBy;
    if chunks == [] {
      NothingBefore(src, start, es);
      NotGrown(src, start, start - 1, es);
      return es;
    }
    var n := |chunks| - 1;
    ContiguousSnoc(src, chunks, start);
    ContiguousEvents(src, chunks[..n], start);
    var mid := WriteChunksKeep(src, context, checkpointAs, low, top, start, p, es, chunks[..n]);
    var p' := WriteChunks(p, chunks[..n], checkpointAs);
    es' := WriteChunkKeeps(src, context, checkpointAs, low, top, start, p.files.checkpoint, p', mid, chunks[n]);
    GrownTwice(src, start, chunks[n].start, chunks[n].end, es, mid, es');
    if p'.interrupted { WriteChunkInterrupted(p', chunks[n], checkpointAs); }
  }

  lemma GrownTwice<L(!new)>(src: EventSource<L>, start: int, middle: int, end: int, es: seq<DocAttested>,
                            es': seq<DocAttested>, es'': seq<DocAttested>)
    requires start <= middle <= end + 1
    requires GrownBy(src, start, middle - 1, es, es') && GrownBy(src, middle, end, es', es'')
    ensures GrownBy(src, start, end, es, es'')
  {
    hide InChain;
    forall e | e in es'' ensures e in es || InChain(src, start, end, e) {
      if e !in es' {
        InChainWider(src, middle, end, start, end, e);
      } else if e !in es {
        InChainWider(src, start, middle - 1, start, end, e);
      }
    }
  }

  lemma WriteChunkInterrupted(p: Progress, c: Chunk<DocAttested>, checkpointAs: Option<ScanContext>)
    requires p.interrupted
    ensures WriteChunk(p, c, checkpointAs) == p
  {
  }

  lemma {:induction false} NoCheckpointNoChange(p: Progress, chunks: seq<Chunk<DocAttested>>)
    ensures WriteChunks(p, chunks, None).files.checkpoint == p.files.checkpoint
  {
    if chunks != [] { NoCheckpointNoChange(p, chunks[..|chunks| - 1]); }
  }

  function LastBlock(checkpoint: Option<Checkpoint>): Option<int> {
    if checkpoint.Some? then checkpoint.value.lastBlock else None
  }

  /** The first block that a request really scans: never below the next block of its checkpoint. */
  function StartOf<L>(files: Files, req: Request<L>): int {
    var last := LastBlock(files.checkpoint);
    if req.checkpointing && last.Some? && last.value + 1 > req.fromBlock then last.value + 1 else req.fromBlock
  }

  lemma NothingBefore<L(!new)>(src: EventSource<L>, first: int, es: seq<DocAttested>)
    ensures Complete(src, first, first - 1, es)
  {
  }

  lemma CompleteShorter<L(!new)>(src: EventSource<L>, first: int, last: int, sooner: int, es: seq<DocAttested>)
    requires Complete(src, first, last, es) && sooner <= last
    ensures Complete(src, first, sooner, es)
  {
  }

  lemma CompleteJoin<L(!new)>(src: EventSource<L>, first: int, middle: int, last: int, es: seq<DocAttested>)
    requires Complete(src, first, middle - 1, es) && Complete(src, middle, last, es)
    ensures Complete(src, first, last, es)
  {
  }

  /** Preparing a scan refuses a checkpoint of another context and nothing else. */
  lemma {:induction false} PrepareStarts<L(!new)>(src: EventSource<L>, low: int, top: int, files: Files,
                                                  es: seq<DocAttested>, req: Request<L>)
    requires WellFormedChain(src) && CacheHolds(src, low, top, files.lines, es)
    ensures Prepare(files, req)
      == if req.checkpointing && NextBlock(files.checkpoint, req.context).Err? then Err(ContextMismatch)
         else Ok((StartOf(files, req), KeySet(EventKey, es)))
  {
    hide InChain, CacheHolds, WellFormedChain, Complete, EventKey, KeySet, ContextRecord, Honest, LoadEventCache;
    hide DedupeEvents;
    LoadsBack(src, low, top, files.lines, es);
    SameKeySet(es);
  }

  lemma ScanChunksCovers<L(!new)>(src: EventSource<L>, req: Request<L>, start: int)
    requires Honest(req.provider, src.chain) && start <= req.toBlock
    ensures var s := ScanChunks(req.provider, src.decode, start, req.toBlock, req.chunkSize, req.depth);
      && Contiguous(src, s.chunks, start)
      && CoveredTo(s.chunks, start) <= req.toBlock
      && (s.error.None? ==> CoveredTo(s.chunks, start) == req.toBlock && s.chunks != [])
      && (s.error.Some? ==> CoveredTo(s.chunks, start) < req.toBlock)
  {
    if start >= 0 && req.toBlock >= 0 && req.chunkSize >= 1 {
      ScanAgreesWithIdealQuery(req.provider, src, start, req.toBlock, req.chunkSize, req.depth);
    }
  }

  // ---- what a finished update reports ----

  lemma {:induction false} WriteChunksCount(p: Progress, chunks: seq<Chunk<DocAttested>>,
                                            checkpointAs: Option<ScanContext>)
    requires !WriteChunks(p, chunks, checkpointAs).interrupted
    ensures var p' := WriteChunks(p, chunks, checkpointAs);
      p'.chunkCount == p.chunkCount + |chunks| && p'.matched == p.matched + |EventsOf(chunks)|
  {
    hide NewEvents, KeySet, Records, ContextRecord;
    if chunks != [] {
      var n := |chunks| - 1;
      WriteChunksCount(p, chunks[..n], checkpointAs);
      EventsOfSnoc(chunks);
    }
  }

  lemma {:induction false} DecodeAllCount<L, E>(decode: L -> Option<E>, logs: seq<L>)
    requires DecodeAll(decode, logs).Some?
    ensures |DecodeAll(decode, logs).value| == |logs|
  {
    if logs != [] { DecodeAllCount(decode, logs[..|logs| - 1]); }
  }

  function RangesOf<E>(chunks: seq<Chunk<E>>): (r: seq<Range>)
    ensures |r| == |chunks|
  {
    if chunks == [] then [] else [Range(chunks[0].start, chunks[0].end)] + RangesOf(chunks[1..])
  }

  lemma {:induction false} RangesPartition<L, E>(src: Source<L, E>, chunks: seq<Chunk<E>>, first: int, size: int)
    requires Contiguous(src, chunks, first) && forall c | c in chunks :: c.end - c.start + 1 <= size
    ensures Partition(RangesOf(chunks), first, CoveredTo(chunks, first)) && CoveredTo(chunks, first) >= first - 1
    ensures forall r | r in RangesOf(chunks) :: r.end - r.start + 1 <= size
  {
    hide DecodeAll, LogsIn;
    if chunks != [] {
      var rest := chunks[1..];
      RangesPartition(src, rest, chunks[0].end + 1, size);
      assert RangesOf(chunks)[1..] == RangesOf(rest);
      assert CoveredTo(chunks, first) == CoveredTo(rest, chunks[0].end + 1);
      hide Contiguous, CoveredTo;
      forall r | r in RangesOf(chunks) ensures r.end - r.start + 1 <= size {
        assert r == Range(chunks[0].start, chunks[0].end) || r in RangesOf(rest);
      }
    }
  }

  /** The report of a finished update that really started at block `start`: the block it was asked for, the number of
      matching logs in the scanned blocks, cached before or not, and the number of chunks, which partition those blocks
      and are no larger than the chunk size. */
  ghost predicate Accounts<L(!new)>(src: EventSource<L>, start: int, req: Request<L>, r: ScanResult) {
    && r.fromBlock == start && r.toBlock == req.toBlock
    && r.matchedEventCount == |LogsIn(src.chain, start, req.toBlock)|
    && (if start > req.toBlock then r.chunkCount == r.newEventCount == 0 && r.lastScannedBlock == start - 1
        else exists ranges: seq<Range> | Partition(ranges, start, req.toBlock) ::
               r.chunkCount == |ranges| && forall x | x in ranges :: x.end - x.start + 1 <= req.chunkSize)
  }

  lemma {:induction false} UpdateAccounts<L(!new)>(src: EventSource<L>, files: Files, req: Request<L>)
    requires Honest(req.provider, src.chain) && UpdateEventCache(files, src.decode, req).ending.Finished?
    ensures Prepare(files, req).Ok?
    ensures Accounts(src, Prepare(files, req).value.0, req, UpdateEventCache(files, src.decode, req).ending.result)
  {
    hide Honest, ScanChunks, WriteChunks, Prepare, Contiguous, DecodeAll, Partition;
    var (start, known) := Prepare(files, req).value;
    if start <= req.toBlock {
      hide LogsIn;
      var chunks := ScanChunks(req.provider, src.decode, start, req.toBlock, req.chunkSize, req.depth).chunks;
      WriteChunksCount(Begin(files, req, start, known), chunks, CheckpointAs(req));
      ScanChunksCovers(src, req, start);
      Chunking.ChunksAreSmall(req.provider, src.decode, start, req.toBlock, req.chunkSize, req.depth);
      RangesPartition(src, chunks, start, req.chunkSize);
      ContiguousEvents(src, chunks, start);
      DecodeAllCount(src.decode, LogsIn(src.chain, start, req.toBlock));
      assert |RangesOf(chunks)| == |chunks|;
    }
  }

  /** If the provider refuses no chunk, an update that scans anything has `ceil(n / chunkSize)` of them. */
  lemma {:induction false} UnrefusedUpdateCounts<L(!new)>(files: Files, decode: L -> Option<DocAttested>,
                                                          req: Request<L>)
    requires UpdateEventCache(files, decode, req).ending.Finished? && req.depth >= 1
    requires Chunking.ServesChunks(req.provider, decode, req.fromBlock, req.toBlock, req.chunkSize)
    ensures var r := UpdateEventCache(files, decode, req).ending.result;
      r.fromBlock <= req.toBlock ==>
        req.chunkSize >= 1 && r.chunkCount == CeilDiv(req.toBlock - r.fromBlock + 1, req.chunkSize)
  {
    hide ScanChunks, WriteChunks, LoadEventCache, CeilDiv, ContextRecord;
    var (start, known) := Prepare(files, req).value;
    if start <= req.toBlock {
      var scan := ScanChunks(req.provider, decode, start, req.toBlock, req.chunkSize, req.depth);
      WriteChunksCount(Begin(files, req, start, known), scan.chunks, CheckpointAs(req));
      Chunking.ChunksAreSmall(req.provider, decode, start, req.toBlock, req.chunkSize, req.depth);
      Chunking.WillingChunks(req.provider, decode, start, req.toBlock, req.chunkSize, req.depth);
    }
  }

  /** One `update_event_cache`, whatever first block it asks for and wherever it is cut or fails: the cache grows
      only by events of the blocks from its real start on, the checkpoint moves only over blocks that are cached
      from that start on, and if the update finishes, every log of those blocks is cached, it reports how many
      logs it matched, how many records it added and how many chunks it scanned, and with a checkpoint file the
      checkpoint is at its last block. */
  lemma {:induction false} UpdateScans<L(!new)>(src: EventSource<L>, low: int, top: int, files: Files,
                                                es: seq<DocAttested>, req: Request<L>) returns (es': seq<DocAttested>)
    requires WellFormedChain(src) && Honest(req.provider, src.chain) && CacheHolds(src, low, top, files.lines, es)
    requires low <= req.fromBlock && req.toBlock <= top
    ensures var u, start := UpdateEventCache(files, src.decode, req), StartOf(files, req);
      && CacheHolds(src, low, top, u.files.lines, es')
      && GrownBy(src, start, req.toBlock, es, es')
      && CheckpointMoved(src, req.context, start, top, files.checkpoint, u.files.checkpoint, es')
      && (!req.checkpointing ==> u.files.checkpoint == files.checkpoint)
      && (u.ending.Finished? ==>
            && Complete(src, start, req.toBlock, es')
            && Accounts(src, start, req, u.ending.result)
            && u.ending.result.newEventCount == |es'| - |es|
            && (start <= req.toBlock ==>
                  && u.ending.result.lastScannedBlock == req.toBlock
                  && (req.checkpointing ==>
                        u.files.checkpoint == Some(Checkpoint(ContextRecord(req.context), Some(req.toBlock))))))
  {
    hide InChain, EventKey, KeySet, ContextRecord, Honest, ScanChunks, Contiguous, WriteChunks, Prepare;
    hide WellFormedChain;
    hide Complete, CacheHolds, Distinct, GrownBy, NextBlock, Accounts;
    PrepareStarts(src, low, top, files, es, req);
    if UpdateEventCache(files, src.decode, req).ending.Finished? { UpdateAccounts(src, files, req); }
    var start := StartOf(files, req);
    NotGrown(src, start, req.toBlock, es);
    NothingBefore(src, start, es);
    if Prepare(files, req).Err? || req.toBlock < start {
      CompleteShorter(src, start, start - 1, if req.toBlock < start then req.toBlock else start - 1, es);
      return es;
    }
    ScanChunksCovers(src, req, start);
    var chunks := ScanChunks(req.provider, src.decode, start, req.toBlock, req.chunkSize, req.depth).chunks;
    var begun := Begin(files, req, start, KeySet(EventKey, es));
    es' := WriteChunksKeep(src, req.context, CheckpointAs(req), low, top, start, begun, es, chunks);
    GrownWider(src, start, CoveredTo(chunks, start), req.toBlock, es, es');
    if !req.checkpointing { NoCheckpointNoChange(begun, chunks); }
  }

  /** An update that fails says why, and keeps what it had achieved. A checkpoint of another context and an unreadable
      cache line are found before anything is written. An error of the scan is reported as it is, once everything that
      the scan yielded before is cached up to some block below the last one, and the checkpoint, if there is one to be
      written and any block was covered, is at that block. */
  lemma {:induction false} FailedUpdateKeepsProgress<L(!new)>(
      src: EventSource<L>, low: int, top: int, files: Files, es: seq<DocAttested>, req: Request<L>)
    returns (es': seq<DocAttested>, covered: int)
    requires WellFormedChain(src) && Honest(req.provider, src.chain) && CacheHolds(src, low, top, files.lines, es)
    requires low <= req.fromBlock && req.toBlock <= top
    requires UpdateEventCache(files, src.decode, req).ending.Failed?
    ensures var u, start := UpdateEventCache(files, src.decode, req), StartOf(files, req);
      && CacheHolds(src, low, top, u.files.lines, es') && es <= es'
      && (u.ending.error == ContextMismatch
          || exists cause ::
               var scan := ScanChunks(req.provider, src.decode, start, req.toBlock, req.chunkSize, req.depth);
               u.ending.error == ScanFailed(cause) && scan.error == Some(cause))
      && (u.ending.error == ContextMismatch ==>
            u.files == files && req.checkpointing && NextBlock(files.checkpoint, req.context).Err?)
      && (u.ending.error != ContextMismatch ==>
            && start - 1 <= covered < req.toBlock && Complete(src, start, covered, es')
            && u.files.checkpoint
               == if req.checkpointing && covered >= start
                  then Some(Checkpoint(ContextRecord(req.context), Some(covered))) else files.checkpoint)
  {
    hide InChain, EventKey, KeySet, ContextRecord, Honest, ScanChunks, Contiguous, WriteChunks, Prepare;
    hide WellFormedChain;
    hide Complete, CacheHolds, Distinct, GrownBy, NextBlock, DecodeAll, LogsIn;
    PrepareStarts(src, low, top, files, es, req);
    var start := StartOf(files, req);
    es', covered := es, start - 1;
    if Prepare(files, req).Ok? {
      ScanChunksCovers(src, req, start);
      var chunks := ScanChunks(req.provider, src.decode, start, req.toBlock, req.chunkSize, req.depth).chunks;
      es' := WriteChunksKeep(src, req.context, CheckpointAs(req), low, top, start,
                             Begin(files, req, start, KeySet(EventKey, es)), es, chunks);
      covered := CoveredTo(chunks, start);
      ContiguousEvents(src, chunks, start);
      GrowthIsGrowth(src, start, covered, es, es');
    }
  }

  lemma GrowthIsGrowth<L(!new)>(src: EventSource<L>, start: int, end: int, es: seq<DocAttested>, es': seq<DocAttested>)
    requires GrownBy(src, start, end, es, es')
    ensures es <= es'
  {
  }

  lemma GrownWider<L(!new)>(src: EventSource<L>, start: int, end: int, later: int, es: seq<DocAttested>,
                            es': seq<DocAttested>)
    requires GrownBy(src, start, end, es, es') && end <= later
    ensures GrownBy(src, start, later, es, es')
  {
    hide InChain;
    forall e | e in es' ensures e in es || InChain(src, start, later, e) {
      if e !in es { InChainWider(src, start, end, start, later, e); }
    }
  }

  // ---- runs that go on where the cache ends ----

  /** A request of a history from block `first`: its context, its chain, and no block outside `first..top`. */
  ghost predicate Fits<L(!new)>(src: EventSource<L>, context: ScanContext, first: int, top: int, req: Request<L>) {
    req.context == context && first <= req.fromBlock && req.toBlock <= top && Honest(req.provider, src.chain)
  }

  /** The request leaves no gap: it asks for the history's first block, or for one no later than the next block of
      the checkpoint that it goes on from. */
  predicate GoesOn<L>(first: int, files: Files, req: Request<L>) {
    || req.fromBlock == first
    || (req.checkpointing && LastBlock(files.checkpoint).Some?
        && req.fromBlock <= LastBlock(files.checkpoint).value + 1)
  }

  ghost predicate Advances(before: Option<Checkpoint>, after: Option<Checkpoint>) {
    LastBlock(before).Some? ==> LastBlock(after).Some? && LastBlock(after).value >= LastBlock(before).value
  }

  lemma CompleteToStart<L(!new)>(src: EventSource<L>, context: ScanContext, first: int, top: int, files: Files,
                                 es: seq<DocAttested>, req: Request<L>)
    requires Inv(src, context, first, top, files, es) && GoesOn(first, files, req)
    ensures Complete(src, first, StartOf(files, req) - 1, es)
  {
    hide CacheHolds, ContextRecord;
    NothingBefore(src, first, es);
  }

  /** One `update_event_cache` that leaves no gap, or writes no checkpoint, keeps the cache sound wherever it is
      cut, and never takes the checkpoint back. If it leaves no gap and finishes, everything from the first
      block of the history to its last block is cached. */
  lemma {:induction false} UpdateKeeps<L(!new)>(src: EventSource<L>, context: ScanContext, first: int, top: int,
                                                files: Files, es: seq<DocAttested>, req: Request<L>)
    returns (es': seq<DocAttested>)
    requires WellFormedChain(src) && Fits(src, context, first, top, req) && Inv(src, context, first, top, files, es)
    requires req.checkpointing ==> GoesOn(first, files, req)
    ensures var u := UpdateEventCache(files, src.decode, req);
      && Inv(src, context, first, top, u.files, es') && es <= es'
      && Advances(files.checkpoint, u.files.checkpoint)
      && (u.ending.Finished? ==>
            && (GoesOn(first, files, req) ==> Complete(src, first, req.toBlock, es'))
            && u.ending.result.newEventCount == |u.files.lines| - |files.lines|
            && (u.ending.result.fromBlock <= req.toBlock ==>
                  && u.ending.result.lastScannedBlock == req.toBlock
                  && (req.checkpointing ==>
                        u.files.checkpoint == Some(Checkpoint(ContextRecord(context), Some(req.toBlock))))))
  {
    hide InChain, Distinct, Complete, ContextRecord, Honest, WellFormedChain, UpdateEventCache, EventKey;
    es' := UpdateScans(src, first, top, files, es, req);
    var start, after := StartOf(files, req), UpdateEventCache(files, src.decode, req).files.checkpoint;
    if GoesOn(first, files, req) {
      CompleteToStart(src, context, first, top, files, es, req);
      CompleteGrows(src, first, start - 1, es, es');
      if Complete(src, start, req.toBlock, es') { CompleteJoin(src, first, start, req.toBlock, es'); }
    }
    if after == files.checkpoint {
      if LastBlock(after).Some? { CompleteGrows(src, first, LastBlock(after).value, es, es'); }
    } else {
      ContextRecordIdempotent(context);
      CompleteJoin(src, first, start, LastBlock(after).value, es');
    }
  }

  // ---- finishing ----

  lemma {:induction false} EnoughWrites(p: Progress, chunks: seq<Chunk<DocAttested>>, checkpointAs: Option<ScanContext>)
    requires !p.interrupted && p.writes >= |EventsOf(chunks)| + |chunks|
    ensures !WriteChunks(p, chunks, checkpointAs).interrupted
    ensures WriteChunks(p, chunks, checkpointAs).writes >= p.writes - |EventsOf(chunks)| - |chunks|
  {
    if chunks != [] {
      var init, c := chunks[..|chunks| - 1], chunks[|chunks| - 1];
      EventsOfSnoc(chunks);
      EnoughWrites(p, init, checkpointAs);
      NewEventsFewer(c.events, WriteChunks(p, init, checkpointAs).known);
    }
  }

  lemma NewEventsFewer(events: seq<DocAttested>, known: set<string>)
    ensures |NewEvents(events, known)| <= |events|
  {
    ChainOrderValid();
    SortSorts(EventLess, events);
    assert |multiset(SortEvents(events))| == |SortEvents(events)| && |multiset(events)| == |events|;
    KeepShorter(EventKey, SortEvents(events), known);
  }

  lemma {:induction false} EventsOfSnoc<E>(chunks: seq<Chunk<E>>)
    requires chunks != []
    ensures EventsOf(chunks) == EventsOf(chunks[..|chunks| - 1]) + chunks[|chunks| - 1].events
  {
    if |chunks| > 1 {
      EventsOfSnoc(chunks[1..]);
      assert chunks[1..][..|chunks| - 2] == chunks[..|chunks| - 1][1..];
    }
  }

  /** A run finishes when its scan meets no error and the process lives long enough to write every event and
      every checkpoint. */
  lemma {:induction false} LongEnoughRunFinishes<L>(files: Files, decode: L -> Option<DocAttested>, req: Request<L>)
    requires Prepare(files, req).Ok?
    requires var start := Prepare(files, req).value.0;
      var scan := ScanChunks(req.provider, decode, start, req.toBlock, req.chunkSize, req.depth);
      req.toBlock < start || (scan.error.None? && req.writes >= |EventsOf(scan.chunks)| + |scan.chunks|)
    ensures UpdateEventCache(files, decode, req).ending.Finished?
  {
    hide WriteChunks, ScanChunks, Prepare, EventsOf;
    var (start, known) := Prepare(files, req).value;
    if req.toBlock >= start {
      EnoughWrites(Begin(files, req, start, known),
                   ScanChunks(req.provider, decode, start, req.toBlock, req.chunkSize, req.depth).chunks,
                   CheckpointAs(req));
    }
  }

  /** Appending a chunk to a cache file and loading the file is merging the chunk into the loaded cache,
      exactly when none of its events sorts before the cached event with its key. */
  lemma AppendThenLoadFile(cached: seq<DocAttested>, events: seq<DocAttested>)
    requires forall e | e in cached + events :: e.onBehalfOf != ""
    ensures var file := Records(cached) + Records(NewEvents(events, KeySet(EventKey, cached)));
      LoadEventCache(file) == Ok(DedupeEvents(DedupeEvents(cached) + events))
      <==> NoneEarlier(ChainOrder(), cached, events)
  {
    var unseen := NewEvents(events, KeySet(EventKey, cached));
    ChainOrderValid();
    AppendThenLoad(ChainOrder(), cached, events);
    RecordsConcat(cached, unseen);
    NewEventsFacts(events, KeySet(EventKey, cached));
    hide EventKey, EventLess, Records, NewEvents, KeySet, NoneEarlier;
    ReadBack(cached + unseen);
  }

  /** The condition can fail: a cached event and an earlier one with its transaction and log index. The append
      drops the earlier one, and merging would have kept it. */
  lemma EarlierDuplicateIsDropped(early: DocAttested)
    requires early.onBehalfOf != ""
    ensures var late := early.(blockNumber := early.blockNumber + 1);
      var file := Records([late]) + Records(NewEvents([early], KeySet(EventKey, [late])));
      && !NoneEarlier(ChainOrder(), [late], [early])
      && LoadEventCache(file) == Ok([late])
      && DedupeEvents(DedupeEvents([late]) + [early]) == [early]
  {
    var late := early.(blockNumber := early.blockNumber + 1);
    DedupeOne(late);
    SameKeyOtherBlock(early, late);
    hide EventKey, EventLess, CacheRecord, Normalize;
    AppendThenLoadFile([late], [early]);
    KeepOne(EventKey, early, KeySet(EventKey, [late]));
    KeySetMember(EventKey, [late], late);
    SortOne(EventLess, early);
    ReadBack([late]);
    assert Records([late]) + [] == Records([late]) && Records([]) == [];
    SortTwo(EventLess, late, early);
    KeepTwo(EventKey, early, late);
  }

  lemma SameKeyOtherBlock(early: DocAttested, late: DocAttested)
    requires late == early.(blockNumber := early.blockNumber + 1)
    ensures EventKey(early) == EventKey(late) && EventLess(early, late)
  {
  }

  lemma SortOne<T>(less: (T, T) -> bool, x: T)
    ensures Sort(less, [x]) == [x]
  {
    assert [x][1..] == [] && Sort(less, []) == [] && [x] + [] == [x];
  }

  lemma SortTwo<T>(less: (T, T) -> bool, x: T, y: T)
    requires less(y, x)
    ensures Sort(less, [x] + [y]) == [y, x]
  {
    SortOne(less, y);
    assert ([x] + [y])[1..] == [y] && [y][1..] == [] && Insert(less, x, []) == [x] + [];
    assert Insert(less, x, [y]) == [y] + Insert(less, x, []);
  }

  lemma KeepOne<T, K>(key: T -> K, x: T, seen: set<K>)
    ensures Keep(key, [x], seen) == if key(x) in seen then [] else [x]
  {
    assert [x][1..] == [] && Keep(key, [], seen) == [] && Keep(key, [], seen + {key(x)}) == [];
  }

  lemma KeepTwo<T, K>(key: T -> K, x: T, y: T)
    requires key(x) == key(y)
    ensures Keep(key, [x, y], {}) == [x]
  {
    KeepOne(key, y, {key(x)});
    assert [x, y][1..] == [y] && {} + {key(x)} == {key(x)} && [x] + [] == [x];
  }

  lemma DedupeOne(e: DocAttested)
    ensures SortEvents([e]) == [e] && DedupeEvents([e]) == [e]
  {
    SortOne(EventLess, e);
    KeepOne(EventKey, e, {});
  }

  // ---- whole histories ----

  const NO_FILES := Files([], None)

  function RunFrom<L>(files: Files, decode: L -> Option<DocAttested>, reqs: seq<Request<L>>): Files {
    if reqs == [] then files
    else UpdateEventCache(RunFrom(files, decode, reqs[..|reqs| - 1]), decode, reqs[|reqs| - 1]).files
  }

  function RunAll<L>(decode: L -> Option<DocAttested>, reqs: seq<Request<L>>): Files {
    RunFrom(NO_FILES, decode, reqs)
  }

  /** Runs that write a checkpoint only when they leave no gap. */
  ghost predicate History<L(!new)>(src: EventSource<L>, context: ScanContext, first: int, top: int,
                                   reqs: seq<Request<L>>)
  {
    reqs != [] ==>
      var init, last := reqs[..|reqs| - 1], reqs[|reqs| - 1];
      && History(src, context, first, top, init)
      && Fits(src, context, first, top, last)
      && (last.checkpointing ==> GoesOn(first, RunAll(src.decode, init), last))
  }

  /** In particular, runs that all ask for the same first block. */
  lemma {:induction false} SameFirstIsHistory<L(!new)>(src: EventSource<L>, context: ScanContext, first: int, top: int,
                                                       reqs: seq<Request<L>>)
    requires forall req | req in reqs :: Fits(src, context, first, top, req) && req.fromBlock == first
    ensures History(src, context, first, top, reqs)
  {
    hide Fits, RunAll;
    if reqs != [] { SameFirstIsHistory(src, context, first, top, reqs[..|reqs| - 1]); }
  }

  /** After any history, each run cut anywhere: every matching log up to the checkpoint is cached, cached keys are
      distinct, and every cached record is a real event. */
  lemma {:induction false} CrashSafeResume<L(!new)>(src: EventSource<L>, context: ScanContext, first: int, top: int,
                                                    reqs: seq<Request<L>>)
    returns (es: seq<DocAttested>)
    requires WellFormedChain(src) && History(src, context, first, top, reqs)
    ensures Inv(src, context, first, top, RunAll(src.decode, reqs), es)
  {
    hide WellFormedChain, Inv, Fits, UpdateEventCache, GoesOn;
    if reqs == [] {
      EmptyHolds(src, context, first, top);
      return [];
    }
    var init := reqs[..|reqs| - 1];
    var before := CrashSafeResume(src, context, first, top, init);
    es := UpdateKeeps(src, context, first, top, RunAll(src.decode, init), before, reqs[|reqs| - 1]);
  }

  lemma EmptyHolds<L(!new)>(src: EventSource<L>, context: ScanContext, first: int, top: int)
    ensures Inv(src, context, first, top, NO_FILES, [])
  {
  }

  /** A run that leaves no gap and finishes at block N, after any history that did not look past N, leaves a cache
      that loads as the deduplicated events of one ideal query up to N. */
  lemma {:induction false} FinishedCacheIsIdeal<L(!new)>(src: EventSource<L>, context: ScanContext, first: int,
                                                         reqs: seq<Request<L>>, last: Request<L>)
    requires WellFormedChain(src) && Fits(src, context, first, last.toBlock, last)
    requires History(src, context, first, last.toBlock, reqs) && GoesOn(first, RunAll(src.decode, reqs), last)
    requires UpdateEventCache(RunAll(src.decode, reqs), src.decode, last).ending.Finished?
    ensures var ideal := DecodeAll(src.decode, LogsIn(src.chain, first, last.toBlock));
      && ideal.Some?
      && LoadEventCache(UpdateEventCache(RunAll(src.decode, reqs), src.decode, last).files.lines)
         == Ok(DedupeEvents(ideal.value))
  {
    hide UpdateEventCache, RunAll, GoesOn, History, Fits, Complete, CheckpointHolds, WellFormedChain;
    hide Distinct, InChain, Records, LoadEventCache, DedupeEvents, DecodeAll, LogsIn;
    var files := RunAll(src.decode, reqs);
    var before := CrashSafeResume(src, context, first, last.toBlock, reqs);
    var es := UpdateKeeps(src, context, first, last.toBlock, files, before, last);
    LoadsBack(src, first, last.toBlock, UpdateEventCache(files, src.decode, last).files.lines, es);
    CompleteIsIdeal(src, first, last.toBlock, es);
  }

  lemma CompleteIsIdeal<L(!new)>(src: EventSource<L>, first: int, last: int, es: seq<DocAttested>)
    requires WellFormedChain(src) && Complete(src, first, last, es)
      && forall e | e in es :: InChain(src, first, last, e)
    ensures var ideal := DecodeAll(src.decode, LogsIn(src.chain, first, last));
      ideal.Some? && DedupeEvents(es) == DedupeEvents(ideal.value)
  {
    hide DedupeEvents, EventKey;
    var logs := LogsIn(src.chain, first, last);
    DecodeAllMember(src.decode, logs);
    forall l | l in logs ensures src.decode(l).Some? {
      LogsInMember(src.chain, first, last, l);
    }
    var ideal := DecodeAll(src.decode, logs).value;
    ChunkEvents(src, first, last, ideal);
    forall e ensures e in es <==> e in ideal {
      if e in ideal { var b, l :| first <= b <= last && l in src.chain(b) && src.decode(l) == Some(e); }
    }
    DedupeEventsOfSameSet(es, ideal);
  }

  /** Hence interruptions leave no trace: any two histories that finish at the same block load alike, in
      particular a battered one and a single uninterrupted scan. */
  lemma InterruptionsLeaveNoTrace<L(!new)>(src: EventSource<L>, context: ScanContext, first: int,
                                           a: seq<Request<L>>, lastA: Request<L>, b: seq<Request<L>>, lastB: Request<L>)
    requires WellFormedChain(src) && lastA.toBlock == lastB.toBlock
    requires Fits(src, context, first, lastA.toBlock, lastA) && Fits(src, context, first, lastA.toBlock, lastB)
    requires History(src, context, first, lastA.toBlock, a) && GoesOn(first, RunAll(src.decode, a), lastA)
    requires History(src, context, first, lastA.toBlock, b) && GoesOn(first, RunAll(src.decode, b), lastB)
    requires UpdateEventCache(RunAll(src.decode, a), src.decode, lastA).ending.Finished?
    requires UpdateEventCache(RunAll(src.decode, b), src.decode, lastB).ending.Finished?
    ensures LoadEventCache(UpdateEventCache(RunAll(src.decode, a), src.decode, lastA).files.lines)
      == LoadEventCache(UpdateEventCache(RunAll(src.decode, b), src.decode, lastB).files.lines)
  {
    hide UpdateEventCache, RunAll, WellFormedChain, Fits, LoadEventCache, GoesOn, History;
    FinishedCacheIsIdeal(src, context, first, a, lastA);
    FinishedCacheIsIdeal(src, context, first, b, lastB);
  }
}
