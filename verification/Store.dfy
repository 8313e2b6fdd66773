/** The event cache and its checkpoint: what one scan writes, in which order, and what survives when it is
    cut short. A run may be interrupted before any single durable write: one cache record or the checkpoint. */
module Store {
  import opened Wrappers
  import opened Digits
  import opened Dedupe
  import opened Events
  import opened Scanner

  datatype ScanContext = ScanContext(
    address: string, docChainId: string, attester: string, docRef: Option<int>, chainId: Option<int>, network: string)

  datatype Checkpoint = Checkpoint(context: ScanContext, lastBlock: Option<int>)

  /** The two files. */
  datatype Files = Files(lines: seq<Record>, checkpoint: Option<Checkpoint>)

  datatype StoreError = ContextMismatch | BadLine(number: nat, error: RecordError) | ScanFailed(cause: ScanError)

  function ContextRecord(c: ScanContext): ScanContext {
    c.(address := Lower(c.address), docChainId := Lower(c.docChainId), attester := Lower(c.attester))
  }

  /** `checkpoint_from_block`: the next block to scan. */
  function NextBlock(checkpoint: Option<Checkpoint>, context: ScanContext): Result<Option<int>, StoreError> {
    match checkpoint
    case None => Ok(None)
    case Some(cp) =>
      if ContextRecord(cp.context) != ContextRecord(context) then Err(ContextMismatch)
      else match cp.lastBlock case None => Ok(None) case Some(last) => Ok(Some(last + 1))
  }

  function ReadLines(lines: seq<Record>): Result<seq<DocAttested>, StoreError> {
    if lines == [] then Ok([])
    else
      var n := |lines| - 1;
      var before :- ReadLines(lines[..n]);
      match Normalize(lines[n])
      case Ok(e) => Ok(before + [e])
      case Err(error) => Err(BadLine(n + 1, error))
  }

  /** `load_event_cache` */
  function LoadEventCache(lines: seq<Record>): Result<seq<DocAttested>, StoreError> {
    var events :- ReadLines(lines);
    Ok(DedupeEvents(events))
  }

  /** Nothing after a bad line is read. */
  lemma {:induction false} ReadLinesStuck(lines: seq<Record>, n: nat)
    requires n <= |lines| && ReadLines(lines[..n]).Err?
    ensures ReadLines(lines) == ReadLines(lines[..n])
    decreases |lines|
  {
    hide Normalize;
    if n < |lines| {
      assert lines[..|lines| - 1][..n] == lines[..n];
      ReadLinesStuck(lines[..|lines| - 1], n);
    } else {
      assert lines[..n] == lines;
    }
  }

  lemma {:induction false} ReadLinesAll(lines: seq<Record>)
    requires forall i | 0 <= i < |lines| :: Normalize(lines[i]).Ok?
    ensures ReadLines(lines).Ok? && |ReadLines(lines).value| == |lines|
    ensures forall i | 0 <= i < |lines| :: ReadLines(lines).value[i] == Normalize(lines[i]).value
  {
    hide Normalize;
    if lines != [] { ReadLinesAll(lines[..|lines| - 1]); }
  }

  /** Exactly how a cache file loads, whatever is in it: as the deduplicated events of its lines if every line is an
      event, and otherwise with the number, counted from one, and the error of the first line that is not. */
  lemma {:induction false} LoadsExactly(lines: seq<Record>) returns (events: seq<DocAttested>)
    ensures (forall i | 0 <= i < |lines| :: Normalize(lines[i]).Ok?) ==>
      && |events| == |lines| && (forall i | 0 <= i < |lines| :: Normalize(lines[i]) == Ok(events[i]))
      && LoadEventCache(lines) == Ok(DedupeEvents(events))
    ensures forall i |
      0 <= i < |lines| && Normalize(lines[i]).Err? && (forall j | 0 <= j < i :: Normalize(lines[j]).Ok?) ::
      LoadEventCache(lines) == Err(BadLine(i + 1, Normalize(lines[i]).error))
  {
    hide Normalize, DedupeEvents;
    events := [];
    if forall i | 0 <= i < |lines| :: Normalize(lines[i]).Ok? {
      ReadLinesAll(lines);
      events := ReadLines(lines).value;
    } else {
      forall i | 0 <= i < |lines| && Normalize(lines[i]).Err? && (forall j | 0 <= j < i :: Normalize(lines[j]).Ok?)
        ensures LoadEventCache(lines) == Err(BadLine(i + 1, Normalize(lines[i]).error))
      {
        ReadLinesAll(lines[..i]);
        assert lines[..i + 1][..i] == lines[..i] && lines[..i + 1][i] == lines[i];
        ReadLinesStuck(lines, i + 1);
      }
    }
  }

  function Records(events: seq<DocAttested>): (r: seq<Record>)
    ensures |r| == |events|
  {
    if events == [] then [] else Records(events[..|events| - 1]) + [CacheRecord(events[|events| - 1])]
  }

  /** The events of a chunk that the cache does not have, in the order they are appended. */
  function NewEvents(events: seq<DocAttested>, known: set<string>): seq<DocAttested> {
    Keep(EventKey, SortEvents(events), known)
  }

  /** A scan in progress: `writes` is how many durable writes are left before it is interrupted. */
  datatype Progress = Progress(
    files: Files, known: set<string>, writes: nat, interrupted: bool, chunkCount: nat, matched: nat, added: nat,
    lastScanned: int)

  /** One chunk: append its new events, then write the checkpoint. */
  function WriteChunk(p: Progress, chunk: Chunk<DocAttested>, checkpointAs: Option<ScanContext>): Progress {
    var unseen := NewEvents(chunk.events, p.known);
    if p.interrupted then p
    else if p.writes < |unseen| then
      p.(files := p.files.(lines := p.files.lines + Records(unseen[..p.writes])), writes := 0, interrupted := true)
    else
      var appended := p.(
        files := p.files.(lines := p.files.lines + Records(unseen)), known := p.known + KeySet(EventKey, unseen),
        writes := p.writes - |unseen|, chunkCount := p.chunkCount + 1, matched := p.matched + |chunk.events|,
        added := p.added + |unseen|, lastScanned := chunk.end);
      if checkpointAs.None? then appended
      else if appended.writes == 0 then appended.(interrupted := true)
      else appended.(
        files := appended.files.(checkpoint := Some(Checkpoint(ContextRecord(checkpointAs.value), Some(chunk.end)))),
        writes := appended.writes - 1)
  }

  function WriteChunks(p: Progress, chunks: seq<Chunk<DocAttested>>, checkpointAs: Option<ScanContext>): Progress {
    if chunks == [] then p
    else WriteChunk(WriteChunks(p, chunks[..|chunks| - 1], checkpointAs), chunks[|chunks| - 1], checkpointAs)
  }

  datatype Request<!L> = Request(
    context: ScanContext, checkpointing: bool, fromBlock: int, toBlock: int, chunkSize: int,
    provider: Provider<L>, depth: nat, writes: nat)

  datatype ScanResult = ScanResult(
    fromBlock: int, toBlock: int, lastScannedBlock: int, chunkCount: nat, matchedEventCount: nat, newEventCount: nat)

  datatype Ending = Finished(result: ScanResult) | Interrupted | Failed(error: StoreError)

  datatype Update = Update(files: Files, ending: Ending)

  /** Where the scan starts, and the keys already cached. */
  function Prepare<L>(files: Files, req: Request<L>): Result<(int, set<string>), StoreError> {
    var next :- if req.checkpointing then NextBlock(files.checkpoint, req.context) else Ok(None);
    var start := if next.Some? && next.value > req.fromBlock then next.value else req.fromBlock;
    var cached :- LoadEventCache(files.lines);
    Ok((start, KeySet(EventKey, cached)))
  }

  function CheckpointAs<L>(req: Request<L>): Option<ScanContext> {
    if req.checkpointing then Some(req.context) else None
  }

  function Begin<L>(files: Files, req: Request<L>, start: int, known: set<string>): Progress {
    Progress(files, known, req.writes, false, 0, 0, 0, start - 1)
  }

  /** `update_event_cache` */
  function UpdateEventCache<L>(files: Files, decode: L -> Option<DocAttested>, req: Request<L>): Update {
    match Prepare(files, req)
    case Err(e) => Update(files, Failed(e))
    case Ok((start, known)) =>
      if req.toBlock < start then Update(files, Finished(ScanResult(start, req.toBlock, start - 1, 0, 0, 0)))
      else
        var scan := ScanChunks(req.provider, decode, start, req.toBlock, req.chunkSize, req.depth);
        var p := WriteChunks(Begin(files, req, start, known), scan.chunks, CheckpointAs(req));
        if p.interrupted then Update(p.files, Interrupted)
        else if scan.error.Some? then Update(p.files, Failed(ScanFailed(scan.error.value)))
        else Update(p.files, Finished(ScanResult(start, req.toBlock, p.lastScanned, p.chunkCount, p.matched, p.added)))
  }

  // ---- the imperative form ----

  lemma {:induction false} WriteChunksStuck(p: Progress, chunks: seq<Chunk<DocAttested>>, n: nat,
                                            checkpointAs: Option<ScanContext>)
    requires n <= |chunks| && WriteChunks(p, chunks[..n], checkpointAs).interrupted
    ensures WriteChunks(p, chunks, checkpointAs) == WriteChunks(p, chunks[..n], checkpointAs)
    decreases |chunks|
  {
    if n < |chunks| {
      assert chunks[..|chunks| - 1][..n] == chunks[..n];
      WriteChunksStuck(p, chunks[..|chunks| - 1], n, checkpointAs);
    } else {
      assert chunks[..n] == chunks;
    }
  }

  lemma NothingWritten(p: Progress, chunks: seq<Chunk<DocAttested>>, checkpointAs: Option<ScanContext>)
    ensures WriteChunks(p, chunks[..0], checkpointAs) == p
  {
  }

  lemma OneMoreChunk(p: Progress, chunks: seq<Chunk<DocAttested>>, i: nat, checkpointAs: Option<ScanContext>)
    requires i < |chunks|
    ensures WriteChunks(p, chunks[..i + 1], checkpointAs)
      == WriteChunk(WriteChunks(p, chunks[..i], checkpointAs), chunks[i], checkpointAs)
  {
    assert chunks[..i + 1][..i] == chunks[..i];
  }

  /** The files on disk, updated in place. */
  class EventStore {
    var lines: seq<Record>
    var checkpoint: Option<Checkpoint>

    constructor ()
      ensures Contents() == Files([], None)
    {
      lines, checkpoint := [], None;
    }

    function Contents(): Files
      reads this
    {
      Files(lines, checkpoint)
    }

    /** `load_event_cache` */
    method LoadCache() returns (r: Result<seq<DocAttested>, StoreError>)
      ensures r == LoadEventCache(lines)
    {
      hide Normalize, DedupeEvents;
      var events, number := [], 0;
      while number < |lines|
        invariant number <= |lines| && ReadLines(lines[..number]) == Ok(events)
      {
        assert lines[..number + 1][..number] == lines[..number];
        match Normalize(lines[number]) {
          case Ok(e) => events := events + [e];
          case Err(error) =>
            ReadLinesStuck(lines, number + 1);
            return Err(BadLine(number + 1, error));
        }
        number := number + 1;
      }
      assert lines[..number] == lines;
      var deduped := DedupeLoop(events);
      r := Ok(deduped);
    }

    /** The first half of `append_event_cache`: which events are new. */
    static method SelectNew(events: seq<DocAttested>, known: set<string>)
      returns (newEvents: seq<DocAttested>, known': set<string>)
      ensures newEvents == NewEvents(events, known)
      ensures known' == known + KeySet(EventKey, newEvents)
    {
      var sorted := SortEvents(events);
      newEvents, known' := [], known;
      assert KeySet(EventKey, newEvents) == {};
      assert [] + Keep(EventKey, sorted[0..], known) == Keep(EventKey, sorted, known);
      assert Keep(EventKey, [], known) == [];
      hide EventKey, KeySet, SortEvents;
      for i := 0 to |sorted|
        invariant known' == known + KeySet(EventKey, newEvents)
        invariant newEvents + Keep(EventKey, sorted[i..], known') == Keep(EventKey, sorted, known)
      {
        var key := EventKey(sorted[i]);
        KeepStep(EventKey, newEvents, sorted, i, known');
        if key in known' { continue; }
        KeySetSnoc(EventKey, newEvents, sorted[i]);
        known' := known' + {key};
        newEvents := newEvents + [sorted[i]];
      }
      assert newEvents + [] == newEvents;
    }

    /** `append_event_cache`, with room for `writes` records before the process dies. */
    method AppendEventCache(events: seq<DocAttested>, known: set<string>, writes: nat)
      returns (known': set<string>, count: nat, interrupted: bool)
      modifies this`lines
      ensures var unseen := NewEvents(events, known);
        && interrupted == (writes < |unseen|)
        && lines == old(lines) + Records(if interrupted then unseen[..writes] else unseen)
        && known' == known + KeySet(EventKey, unseen)
        && count == (if interrupted then writes else |unseen|)
    {
      hide NewEvents, KeySet, CacheRecord;
      var newEvents;
      newEvents, known' := SelectNew(events, known);
      count, interrupted := 0, false;
      while count < |newEvents|
        invariant count <= |newEvents| && count <= writes
        invariant lines == old(lines) + Records(newEvents[..count])
      {
        if count == writes {
          interrupted := true;
          return;
        }
        assert newEvents[..count + 1][..count] == newEvents[..count];
        lines := lines + [CacheRecord(newEvents[count])];
        count := count + 1;
      }
      assert newEvents[..count] == newEvents;
    }

    /** `update_event_cache` */
    method Run<L>(decode: L -> Option<DocAttested>, req: Request<L>) returns (ending: Ending)
      modifies this
      ensures UpdateEventCache(old(Contents()), decode, req) == Update(Contents(), ending)
    {
      hide NewEvents, Records, Prepare, ScanChunks, KeySet, ContextRecord, WriteChunks;
      var prepared := Prepare(Contents(), req);
      if prepared.Err? { return Failed(prepared.error); }
      var (startBlock, knownKeys) := prepared.value;
      ghost var begun := Begin(Contents(), req, startBlock, knownKeys);
      var chunkCount: nat, matchedEventCount: nat, newEventCount: nat := 0, 0, 0;
      var lastScannedBlock := startBlock - 1;
      if req.toBlock < startBlock {
        return Finished(ScanResult(startBlock, req.toBlock, lastScannedBlock, 0, 0, 0));
      }
      var scan := ScanChunks(req.provider, decode, startBlock, req.toBlock, req.chunkSize, req.depth);
      var writes := req.writes;
      NothingWritten(begun, scan.chunks, CheckpointAs(req));
      for i := 0 to |scan.chunks|
        invariant WriteChunks(begun, scan.chunks[..i], CheckpointAs(req))
          == Progress(Contents(), knownKeys, writes, false, chunkCount, matchedEventCount, newEventCount,
                      lastScannedBlock)
      {
        var chunk := scan.chunks[i];
        OneMoreChunk(begun, scan.chunks, i, CheckpointAs(req));
        var known, count, cut := AppendEventCache(chunk.events, knownKeys, writes);
        if cut {
          WriteChunksStuck(begun, scan.chunks, i + 1, CheckpointAs(req));
          return Interrupted;
        }
        knownKeys, writes := known, writes - count;
        chunkCount, matchedEventCount := chunkCount + 1, matchedEventCount + |chunk.events|;
        newEventCount, lastScannedBlock := newEventCount + count, chunk.end;
        if req.checkpointing {
          if writes == 0 {
            WriteChunksStuck(begun, scan.chunks, i + 1, CheckpointAs(req));
            return Interrupted;
          }
          checkpoint := Some(Checkpoint(ContextRecord(req.context), Some(chunk.end)));
          writes := writes - 1;
        }
      }
      assert scan.chunks[..|scan.chunks|] == scan.chunks;
      if scan.error.Some? { return Failed(ScanFailed(scan.error.value)); }
      ending := Finished(ScanResult(startBlock, req.toBlock, lastScannedBlock, chunkCount, matchedEventCount,
                                    newEventCount));
    }
  }
}
