/** The adaptive range scanner: it asks a provider for block ranges and re-splits the ones it refuses. */
module Scanner {
  import opened Wrappers

  /** One `eth_getLogs` answer. */
  datatype Reply<L> =
    | Logs(logs: seq<L>)
    | RateLimited
    | RangeLimited(limit: Option<int>)
    | OtherError

  /** A provider may answer differently every time: its reply depends on the number of calls before. */
  type Provider<!L> = (nat, int, int) -> Reply<L>

  datatype Source<!L, !E> = Source(chain: int -> seq<L>, decode: L -> Option<E>)

  datatype ScanError = RateLimit | RangeLimit | Rpc | Undecodable | BadArguments | TooDeep

  datatype Chunk<E> = Chunk(start: int, end: int, events: seq<E>)

  /** What a scan yields until it is exhausted or an error escapes from it. */
  datatype Scan<E> = Scan(chunks: seq<Chunk<E>>, error: Option<ScanError>, calls: nat)

  datatype Range = Range(start: int, end: int)

  /** The one ideal query: all logs of the blocks from `first` to `last`. */
  function LogsIn<L>(chain: int -> seq<L>, first: int, last: int): (r: seq<L>)
    decreases last - first
  {
    if first > last then [] else LogsIn(chain, first, last - 1) + chain(last)
  }

  function DecodeAll<L, E>(decode: L -> Option<E>, logs: seq<L>): (r: Option<seq<E>>) {
    if logs == [] then Some([])
    else
      var init :- DecodeAll(decode, logs[..|logs| - 1]);
      var last :- decode(logs[|logs| - 1]);
      Some(init + [last])
  }

  /** `block_ranges` */
  function BlockRanges(first: int, last: int, size: int): (r: seq<Range>)
    requires size >= 1
    decreases last - first
  {
    if first > last then []
    else
      var end := if first + size - 1 < last then first + size - 1 else last;
      [Range(first, end)] + BlockRanges(end + 1, last, size)
  }

  method BlockRangesLoop(fromBlock: int, toBlock: int, chunkSize: int) returns (r: Result<seq<Range>, ScanError>)
    ensures r == if fromBlock < 0 || toBlock < 0 || chunkSize < 1 then Err(BadArguments)
                 else Ok(BlockRanges(fromBlock, toBlock, chunkSize))
  {
    if fromBlock < 0 || toBlock < 0 || chunkSize < 1 { return Err(BadArguments); }
    var start, ranges := fromBlock, [];
    while start <= toBlock
      invariant ranges + BlockRanges(start, toBlock, chunkSize) == BlockRanges(fromBlock, toBlock, chunkSize)
    {
      var end := if start + chunkSize - 1 < toBlock then start + chunkSize - 1 else toBlock;
      ranges := ranges + [Range(start, end)];
      start := end + 1;
    }
    assert ranges + [] == ranges;
    r := Ok(ranges);
  }

  /** `_iter_doc_attested_range`; `depth` is how deep the interpreter lets it recurse. */
  function ScanRange<L, E>(p: Provider<L>, decode: L -> Option<E>, first: int, last: int, calls: nat,
                           depth: nat): (s: Scan<E>)
    decreases depth, 0
  {
    if depth == 0 then Scan([], Some(TooDeep), calls)
    else
      match p(calls, first, last)
      case RateLimited => Scan([], Some(RateLimit), calls + 1)
      case RangeLimited(limit) =>
        if limit.None? || first >= last then Scan([], Some(RangeLimit), calls + 1)
        else if first < 0 || limit.value < 1 then Scan([], Some(BadArguments), calls + 1)
        else ScanList(p, decode, BlockRanges(first, last, limit.value), calls + 1, depth - 1)
      case OtherError =>
        if first >= last then Scan([], Some(Rpc), calls + 1)
        else
          var mid := (first + last) / 2;
          ScanList(p, decode, [Range(first, mid), Range(mid + 1, last)], calls + 1, depth - 1)
      case Logs(logs) =>
        match DecodeAll(decode, logs)
        case None => Scan([], Some(Undecodable), calls + 1)
        case Some(events) => Scan([Chunk(first, last, events)], None, calls + 1)
  }

  function ScanList<L, E>(p: Provider<L>, decode: L -> Option<E>, ranges: seq<Range>, calls: nat,
                          depth: nat): (s: Scan<E>)
    decreases depth, 1 + |ranges|
  {
    if ranges == [] then Scan([], None, calls)
    else
      var s := ScanRange(p, decode, ranges[0].start, ranges[0].end, calls, depth);
      if s.error.Some? then s
      else
        var rest := ScanList(p, decode, ranges[1..], s.calls, depth);
        Scan(s.chunks + rest.chunks, rest.error, rest.calls)
  }

  /** `iter_doc_attested_chunks` */
  function ScanChunks<L, E>(p: Provider<L>, decode: L -> Option<E>, fromBlock: int, toBlock: int, chunkSize: int,
                            depth: nat)
    : (s: Scan<E>)
  {
    if fromBlock < 0 || toBlock < 0 || chunkSize < 1 then Scan([], Some(BadArguments), 0)
    else ScanList(p, decode, BlockRanges(fromBlock, toBlock, chunkSize), 0, depth)
  }

  // ---- agreement with the ideal query ----

  /** Whenever the provider returns logs, they are the logs of the queried blocks. It may refuse at will. */
  ghost predicate Honest<L(!new)>(p: Provider<L>, chain: int -> seq<L>) {
    forall n, first, last :: p(n, first, last).Logs? ==> p(n, first, last).logs == LogsIn(chain, first, last)
  }

  /** The chunks are non-empty ranges, start at `first`, follow one another without gap or overlap, and each
      holds the decoded logs of its own blocks. */
  ghost predicate Contiguous<L, E>(src: Source<L, E>, chunks: seq<Chunk<E>>, first: int) {
    chunks != [] ==>
      && chunks[0].start == first
      && first <= chunks[0].end
      && DecodeAll(src.decode, LogsIn(src.chain, first, chunks[0].end)) == Some(chunks[0].events)
      && Contiguous(src, chunks[1..], chunks[0].end + 1)
  }

  /** The last block the chunks cover; `first - 1` when there are none. */
  function CoveredTo<E>(chunks: seq<Chunk<E>>, first: int): int {
    if chunks == [] then first - 1 else chunks[|chunks| - 1].end
  }

  function EventsOf<E>(chunks: seq<Chunk<E>>): seq<E> {
    if chunks == [] then [] else chunks[0].events + EventsOf(chunks[1..])
  }

  /** The ranges partition `first..last`. */
  ghost predicate Partition(ranges: seq<Range>, first: int, last: int) {
    if ranges == [] then first == last + 1
    else ranges[0].start == first <= ranges[0].end <= last && Partition(ranges[1..], ranges[0].end + 1, last)
  }

  ghost predicate Covers<L, E>(src: Source<L, E>, s: Scan<E>, first: int, last: int) {
    && Contiguous(src, s.chunks, first)
    && first - 1 <= CoveredTo(s.chunks, first) <= last
    && (s.error.None? <==> CoveredTo(s.chunks, first) == last)
  }

  lemma {:induction false} BlockRangesPartition(first: int, last: int, size: int)
    requires size >= 1 && first <= last + 1
    ensures Partition(BlockRanges(first, last, size), first, last)
    ensures forall r | r in BlockRanges(first, last, size) :: r.start <= r.end < r.start + size
    decreases last - first
  {
    if first <= last {
      var end := if first + size - 1 < last then first + size - 1 else last;
      BlockRangesPartition(end + 1, last, size);
      assert BlockRanges(first, last, size)[1..] == BlockRanges(end + 1, last, size);
    }
  }

  /** Both halves of a bisected range are non-empty and strictly smaller. */
  lemma HalvesPartition(first: int, last: int)
    requires first < last
    ensures var mid := (first + last) / 2;
      && Partition([Range(first, mid), Range(mid + 1, last)], first, last)
      && first <= mid < last
  {
    var mid := (first + last) / 2;
    assert [Range(first, mid), Range(mid + 1, last)][1..] == [Range(mid + 1, last)];
    assert [Range(mid + 1, last)][1..] == [];
  }

  lemma {:induction false} ContiguousConcat<L, E>(src: Source<L, E>, a: seq<Chunk<E>>, b: seq<Chunk<E>>, first: int)
    requires Contiguous(src, a, first) && Contiguous(src, b, CoveredTo(a, first) + 1)
    ensures Contiguous(src, a + b, first)
    ensures CoveredTo(a + b, first) == CoveredTo(b, CoveredTo(a, first) + 1)
  {
    if a == [] {
      assert a + b == b;
    } else {
      hide DecodeAll, LogsIn;
      ConcatTail(a, b);
      ContiguousConcat(src, a[1..], b, a[0].end + 1);
    }
  }

  lemma ConcatTail<T>(a: seq<T>, b: seq<T>)
    requires a != []
    ensures (a + b)[1..] == a[1..] + b && (a + b)[0] == a[0]
  {
  }

  /** One range, however the provider makes it split, agrees with the ideal query. */
  lemma {:induction false} ScanRangeCovers<L(!new), E>(p: Provider<L>, src: Source<L, E>, first: int, last: int,
                                                       calls: nat, depth: nat)
    requires Honest(p, src.chain) && first <= last
    ensures Covers(src, ScanRange(p, src.decode, first, last, calls, depth), first, last)
    decreases depth, 0
  {
    if depth > 0 {
      match p(calls, first, last)
      case RangeLimited(limit) =>
        if limit.Some? && first < last && first >= 0 && limit.value >= 1 {
          BlockRangesPartition(first, last, limit.value);
          ScanListCovers(p, src, BlockRanges(first, last, limit.value), first, last, calls + 1, depth - 1);
        }
      case OtherError =>
        if first < last {
          var mid := (first + last) / 2;
          HalvesPartition(first, last);
          ScanListCovers(p, src, [Range(first, mid), Range(mid + 1, last)], first, last, calls + 1, depth - 1);
        }
      case _ =>
    }
  }

  lemma {:induction false} ScanListCovers<L(!new), E>(p: Provider<L>, src: Source<L, E>, ranges: seq<Range>,
                                                      first: int, last: int, calls: nat, depth: nat)
    requires Honest(p, src.chain) && Partition(ranges, first, last)
    ensures Covers(src, ScanList(p, src.decode, ranges, calls, depth), first, last)
    decreases depth, 1 + |ranges|
  {
    if ranges != [] {
      var s := ScanRange(p, src.decode, ranges[0].start, ranges[0].end, calls, depth);
      ScanRangeCovers(p, src, ranges[0].start, ranges[0].end, calls, depth);
      PartitionBound(ranges[1..], ranges[0].end + 1, last);
      if s.error.None? {
        ScanListCovers(p, src, ranges[1..], ranges[0].end + 1, last, s.calls, depth);
        ContiguousConcat(src, s.chunks, ScanList(p, src.decode, ranges[1..], s.calls, depth).chunks, first);
      } else {
        PartitionBound(ranges[1..], ranges[0].end + 1, last);
      }
    }
  }

  lemma {:induction false} PartitionBound(ranges: seq<Range>, first: int, last: int)
    requires Partition(ranges, first, last)
    ensures first <= last + 1
  {
  }

  lemma {:induction false} LogsInSplit<L>(chain: int -> seq<L>, first: int, mid: int, last: int)
    requires first <= mid + 1 && mid <= last
    ensures LogsIn(chain, first, last) == LogsIn(chain, first, mid) + LogsIn(chain, mid + 1, last)
    decreases last - mid
  {
    if mid < last { LogsInSplit(chain, first, mid, last - 1); }
  }

  lemma {:induction false} DecodeAllConcat<L, E>(decode: L -> Option<E>, a: seq<L>, b: seq<L>)
    ensures var x, y := DecodeAll(decode, a), DecodeAll(decode, b);
      DecodeAll(decode, a + b) == if x.Some? && y.Some? then Some(x.value + y.value) else None
    decreases |b|
  {
    if b == [] {
      assert a + b == a;
      if DecodeAll(decode, a).Some? { assert DecodeAll(decode, a).value + [] == DecodeAll(decode, a).value; }
    } else {
      var init := b[..|b| - 1];
      DecodeAllConcat(decode, a, init);
      assert (a + b)[..|a + b| - 1] == a + init && (a + b)[|a + b| - 1] == b[|b| - 1];
      var x, y, z := DecodeAll(decode, a), DecodeAll(decode, init), decode(b[|b| - 1]);
      if x.Some? && y.Some? && z.Some? { assert (x.value + y.value) + [z.value] == x.value + (y.value + [z.value]); }
    }
  }

  /** Contiguous chunks concatenate to the ideal query of the blocks they cover. */
  lemma {:induction false} ContiguousEvents<L, E>(src: Source<L, E>, chunks: seq<Chunk<E>>, first: int)
    requires Contiguous(src, chunks, first)
    ensures CoveredTo(chunks, first) >= first - 1
    ensures DecodeAll(src.decode, LogsIn(src.chain, first, CoveredTo(chunks, first))) == Some(EventsOf(chunks))
  {
    if chunks != [] {
      ContiguousEvents(src, chunks[1..], chunks[0].end + 1);
      LogsInSplit(src.chain, first, chunks[0].end, CoveredTo(chunks, first));
      DecodeAllConcat(src.decode, LogsIn(src.chain, first, chunks[0].end),
                      LogsIn(src.chain, chunks[0].end + 1, CoveredTo(chunks, first)));
    }
  }

  /** For any honest provider, any refusals and any recursion limit: the chunks are contiguous, non-empty and
      in order from the first block, they reach the last block exactly when no error escapes, and their
      events are those of one ideal query of the blocks they cover. */
  lemma ScanAgreesWithIdealQuery<L(!new), E>(p: Provider<L>, src: Source<L, E>, fromBlock: int, toBlock: int,
                                             chunkSize: int, depth: nat)
    requires Honest(p, src.chain) && 0 <= fromBlock <= toBlock + 1 && 0 <= toBlock && chunkSize >= 1
    ensures var s := ScanChunks(p, src.decode, fromBlock, toBlock, chunkSize, depth);
      && Covers(src, s, fromBlock, toBlock)
      && DecodeAll(src.decode, LogsIn(src.chain, fromBlock, CoveredTo(s.chunks, fromBlock))) == Some(EventsOf(s.chunks))
  {
    BlockRangesPartition(fromBlock, toBlock, chunkSize);
    ScanListCovers(p, src, BlockRanges(fromBlock, toBlock, chunkSize), fromBlock, toBlock, 0, depth);
    ContiguousEvents(src, ScanChunks(p, src.decode, fromBlock, toBlock, chunkSize, depth).chunks, fromBlock);
  }

  // ---- termination ----

  /** The provider announces a limit that leaves the refused range whole. */
  predicate Unhelpful<L>(p: Provider<L>, n: nat, first: int, last: int) {
    p(n, first, last).RangeLimited? && p(n, first, last).limit.Some? && p(n, first, last).limit.value > last - first
  }

  /** Every limit announced for a range of several blocks is below the size of that range. */
  ghost predicate Progressive<L(!new)>(p: Provider<L>) {
    forall n, first, last | 0 <= first < last :: !Unhelpful(p, n, first, last)
  }

  /** With a provider that announces limits only below the refused size, a range of n blocks never recurses
      more than n deep: every split is strictly smaller. */
  lemma {:induction false} ScanRangeTerminates<L(!new), E>(p: Provider<L>, decode: L -> Option<E>, first: int,
                                                           last: int, calls: nat, depth: nat)
    requires Progressive(p) && first <= last && last - first < depth
    ensures ScanRange(p, decode, first, last, calls, depth).error != Some(TooDeep)
    decreases depth, 0
  {
    match p(calls, first, last)
    case RangeLimited(limit) =>
      if limit.Some? && first < last && first >= 0 && limit.value >= 1 {
        assert !Unhelpful(p, calls, first, last);
        BlockRangesPartition(first, last, limit.value);
        ScanListTerminates(p, decode, BlockRanges(first, last, limit.value), calls + 1, depth - 1);
      }
    case OtherError =>
      if first < last {
        var mid := (first + last) / 2;
        ScanListTerminates(p, decode, [Range(first, mid), Range(mid + 1, last)], calls + 1, depth - 1);
      }
    case _ =>
  }

  /** Bisection needs no such assumption: with a provider that never announces a limit, a range of n blocks recurses
      at most logarithmically deep. */
  lemma {:induction false} BisectionTerminates<L(!new), E>(p: Provider<L>, decode: L -> Option<E>, first: int,
                                                           last: int, calls: nat, depth: nat)
    requires NoLimits(p) && first <= last && Log2Ceil(last - first + 1) < depth
    ensures ScanRange(p, decode, first, last, calls, depth).error != Some(TooDeep)
    decreases depth
  {
    hide ScanList;
    if p(calls, first, last).OtherError? && first < last {
      var mid := (first + last) / 2;
      HalfSizes(first, last);
      BisectionTerminates(p, decode, first, mid, calls + 1, depth - 1);
      var left := ScanRange(p, decode, first, mid, calls + 1, depth - 1);
      Log2CeilMonotone(last - mid, mid - first + 1);
      BisectionTerminates(p, decode, mid + 1, last, left.calls, depth - 1);
      ScanTwo(p, decode, Range(first, mid), Range(mid + 1, last), calls + 1, depth - 1);
    } else {
      assert p(calls, first, last).RangeLimited? ==> p(calls, first, last).limit.None?;
    }
  }

  ghost predicate NoLimits<L(!new)>(p: Provider<L>) {
    forall n, first, last :: p(n, first, last).RangeLimited? ==> p(n, first, last).limit.None?
  }

  lemma {:induction false} ScanListTerminates<L(!new), E>(p: Provider<L>, decode: L -> Option<E>, ranges: seq<Range>,
                                                          calls: nat, depth: nat)
    requires Progressive(p) && forall r | r in ranges :: r.start <= r.end < r.start + depth
    ensures ScanList(p, decode, ranges, calls, depth).error != Some(TooDeep)
    decreases depth, 1 + |ranges|
  {
    if ranges != [] {
      var s := ScanRange(p, decode, ranges[0].start, ranges[0].end, calls, depth);
      ScanRangeTerminates(p, decode, ranges[0].start, ranges[0].end, calls, depth);
      if s.error.None? { ScanListTerminates(p, decode, ranges[1..], s.calls, depth); }
    }
  }

  /** The assumption is needed: a provider that keeps announcing limits no smaller than the refused range makes
      the scanner ask the same question for as long as the interpreter lets it recurse. */
  lemma {:induction false} StubbornProviderNeverEnds<L, E>(p: Provider<L>, decode: L -> Option<E>, first: int,
                                                           last: int, calls: nat, depth: nat)
    requires 0 <= first < last && forall n | n >= calls :: Unhelpful(p, n, first, last)
    ensures ScanRange(p, decode, first, last, calls, depth) == Scan([], Some(TooDeep), calls + depth)
    decreases depth
  {
    if depth > 0 {
      assert Unhelpful(p, calls, first, last);
      var limit := p(calls, first, last).limit.value;
      StubbornProviderNeverEnds(p, decode, first, last, calls + 1, depth - 1);
      assert BlockRanges(first, last, limit) == [Range(first, last)] + BlockRanges(last + 1, last, limit);
    }
  }

  /** The provider answers a question the same way every time. */
  ghost predicate Stateless<L(!new)>(p: Provider<L>) {
    forall m, n, first, last :: p(m, first, last) == p(n, first, last)
  }

  ghost predicate AlwaysEnds<L(!new), E>(p: Provider<L>, decode: L -> Option<E>) {
    forall first, last, calls, depth | 0 <= first <= last && last - first < depth ::
      ScanRange(p, decode, first, last, calls, depth).error != Some(TooDeep)
  }

  /** For a provider that answers alike every time, scanning always ends within the size of the range exactly
      when every announced limit is below the refused size. */
  lemma EndsExactlyWhenProgressive<L(!new), E>(p: Provider<L>, decode: L -> Option<E>)
    requires Stateless(p)
    ensures AlwaysEnds(p, decode) <==> Progressive(p)
  {
    if Progressive(p) {
      forall first, last, calls, depth | 0 <= first <= last && last - first < depth
        ensures ScanRange(p, decode, first, last, calls, depth).error != Some(TooDeep)
      {
        ScanRangeTerminates(p, decode, first, last, calls, depth);
      }
    } else {
      var n, first, last :| 0 <= first < last && Unhelpful(p, n, first, last);
      forall m ensures Unhelpful(p, m, first, last) {
        assert p(m, first, last) == p(n, first, last);
      }
      StubbornProviderNeverEnds(p, decode, first, last, 0, last - first + 1);
    }
  }

  /** The scan ends by itself, with a result or an error, if the interpreter lets it recurse deep enough. */
  ghost predicate Ends<L, E>(p: Provider<L>, decode: L -> Option<E>, first: int, last: int, calls: nat) {
    exists depth: nat :: ScanRange(p, decode, first, last, calls, depth).error != Some(TooDeep)
  }

  ghost predicate ListEnds<L, E>(p: Provider<L>, decode: L -> Option<E>, ranges: seq<Range>, calls: nat) {
    exists depth: nat :: ScanList(p, decode, ranges, calls, depth).error != Some(TooDeep)
  }

  /** From call `m` on, a question about the range gets a helpful answer sooner or later. */
  ghost predicate HelpfulFrom<L(!new)>(p: Provider<L>, m: nat, first: int, last: int) {
    exists n: nat :: n >= m && !Unhelpful(p, n, first, last)
  }

  /** The provider gives no range of several blocks an unhelpful limit for ever. */
  ghost predicate Relents<L(!new)>(p: Provider<L>) {
    forall m: nat, first, last | 0 <= first < last :: HelpfulFrom(p, m, first, last)
  }

  /** A scan that is deep enough stays the same when it may go deeper. */
  lemma {:induction false} DeeperRange<L, E>(p: Provider<L>, decode: L -> Option<E>, first: int, last: int,
                                             calls: nat, depth: nat, deeper: nat)
    requires ScanRange(p, decode, first, last, calls, depth).error != Some(TooDeep) && depth <= deeper
    ensures ScanRange(p, decode, first, last, calls, deeper) == ScanRange(p, decode, first, last, calls, depth)
    decreases depth, 0
  {
    match p(calls, first, last)
    case RangeLimited(limit) =>
      if limit.Some? && first < last && first >= 0 && limit.value >= 1 {
        DeeperList(p, decode, BlockRanges(first, last, limit.value), calls + 1, depth - 1, deeper - 1);
      }
    case OtherError =>
      if first < last {
        var mid := (first + last) / 2;
        DeeperList(p, decode, [Range(first, mid), Range(mid + 1, last)], calls + 1, depth - 1, deeper - 1);
      }
    case _ =>
  }

  lemma {:induction false} DeeperList<L, E>(p: Provider<L>, decode: L -> Option<E>, ranges: seq<Range>,
                                            calls: nat, depth: nat, deeper: nat)
    requires ScanList(p, decode, ranges, calls, depth).error != Some(TooDeep) && depth <= deeper
    ensures ScanList(p, decode, ranges, calls, deeper) == ScanList(p, decode, ranges, calls, depth)
    decreases depth, 1 + |ranges|
  {
    if ranges != [] {
      DeeperRange(p, decode, ranges[0].start, ranges[0].end, calls, depth, deeper);
      var s := ScanRange(p, decode, ranges[0].start, ranges[0].end, calls, depth);
      if s.error.None? { DeeperList(p, decode, ranges[1..], s.calls, depth, deeper); }
    }
  }

  /** A refused range ends if the pieces it is split into do. */
  lemma EndsByLimit<L, E>(p: Provider<L>, decode: L -> Option<E>, first: int, last: int, calls: nat)
    requires 0 <= first < last && p(calls, first, last).RangeLimited? && p(calls, first, last).limit.Some?
    requires p(calls, first, last).limit.value >= 1
    requires ListEnds(p, decode, BlockRanges(first, last, p(calls, first, last).limit.value), calls + 1)
    ensures Ends(p, decode, first, last, calls)
  {
    hide ScanList;
    var ranges := BlockRanges(first, last, p(calls, first, last).limit.value);
    var depth: nat :| ScanList(p, decode, ranges, calls + 1, depth).error != Some(TooDeep);
    assert ScanRange(p, decode, first, last, calls, depth + 1).error != Some(TooDeep);
  }

  lemma EndsByBisection<L, E>(p: Provider<L>, decode: L -> Option<E>, first: int, last: int, calls: nat)
    requires first < last && p(calls, first, last).OtherError?
    requires var mid := (first + last) / 2;
      ListEnds(p, decode, [Range(first, mid), Range(mid + 1, last)], calls + 1)
    ensures Ends(p, decode, first, last, calls)
  {
    hide ScanList;
    var mid := (first + last) / 2;
    var ranges := [Range(first, mid), Range(mid + 1, last)];
    var depth: nat :| ScanList(p, decode, ranges, calls + 1, depth).error != Some(TooDeep);
    assert ScanRange(p, decode, first, last, calls, depth + 1).error != Some(TooDeep);
  }

  lemma OneRange<L, E>(p: Provider<L>, decode: L -> Option<E>, first: int, last: int, calls: nat)
    requires Ends(p, decode, first, last, calls)
    ensures ListEnds(p, decode, [Range(first, last)], calls)
  {
    var depth: nat :| ScanRange(p, decode, first, last, calls, depth).error != Some(TooDeep);
    var ranges := [Range(first, last)];
    assert ranges[1..] == [];
    assert ScanList(p, decode, ranges, calls, depth).error != Some(TooDeep);
  }

  /** A range whose own question is answered helpfully at call `n`, and all smaller ranges sooner or later, ends. */
  lemma {:induction false} RangeEnds<L(!new), E>(p: Provider<L>, decode: L -> Option<E>, first: int, last: int,
                                                 calls: nat, n: nat)
    requires Relents(p) && 0 <= first <= last && (first < last ==> calls <= n && !Unhelpful(p, n, first, last))
    ensures Ends(p, decode, first, last, calls)
    decreases last - first, 0, if first < last then n - calls else 0
  {
    hide ScanList, ScanRange, Relents, Ends, ListEnds;
    if first == last || p(calls, first, last).RateLimited? || p(calls, first, last).Logs? {
      EndsAtOnce(p, decode, first, last, calls);
    } else if p(calls, first, last).OtherError? {
      var mid := (first + last) / 2;
      var halves := [Range(first, mid), Range(mid + 1, last)];
      RangesEnd(p, decode, halves, last - first, calls + 1);
      EndsByBisection(p, decode, first, last, calls);
    } else if p(calls, first, last).limit.None? || p(calls, first, last).limit.value < 1 {
      EndsAtOnce(p, decode, first, last, calls);
    } else {
      var ranges := BlockRanges(first, last, p(calls, first, last).limit.value);
      if Unhelpful(p, calls, first, last) {
        RangeEnds(p, decode, first, last, calls + 1, n);
        WholeRange(first, last, p(calls, first, last).limit.value);
        OneRange(p, decode, first, last, calls + 1);
      } else {
        BlockRangesPartition(first, last, p(calls, first, last).limit.value);
        RangesNotBelow(first, last, p(calls, first, last).limit.value);
        RangesEnd(p, decode, ranges, last - first, calls + 1);
      }
      EndsByLimit(p, decode, first, last, calls);
    }
  }

  lemma EndsAtOnce<L, E>(p: Provider<L>, decode: L -> Option<E>, first: int, last: int, calls: nat)
    requires var r := p(calls, first, last);
      first >= last || r.RateLimited? || r.Logs? || (r.RangeLimited? && (r.limit.None? || r.limit.value < 1))
    ensures Ends(p, decode, first, last, calls)
  {
    assert ScanRange(p, decode, first, last, calls, 1).error != Some(TooDeep);
  }

  lemma WholeRange(first: int, last: int, size: int)
    requires size >= 1 && first <= last && size > last - first
    ensures BlockRanges(first, last, size) == [Range(first, last)]
  {
    assert BlockRanges(last + 1, last, size) == [];
  }

  lemma {:induction false} RangesNotBelow(first: int, last: int, size: int)
    requires size >= 1
    ensures forall r | r in BlockRanges(first, last, size) :: first <= r.start
    decreases last - first
  {
    if first <= last {
      RangesNotBelow(if first + size - 1 < last then first + size else last + 1, last, size);
    }
  }

  lemma {:induction false} RangesEnd<L(!new), E>(p: Provider<L>, decode: L -> Option<E>, ranges: seq<Range>, size: nat,
                                                 calls: nat)
    requires Relents(p) && forall r | r in ranges :: 0 <= r.start <= r.end < r.start + size
    ensures ListEnds(p, decode, ranges, calls)
    decreases size - 1, 1, |ranges|
  {
    if ranges == [] {
      assert ScanList(p, decode, ranges, calls, 0).error != Some(TooDeep);
    } else {
      var r := ranges[0];
      assert r in ranges;
      var n: nat := calls;
      if r.start < r.end {
        assert HelpfulFrom(p, calls, r.start, r.end);
        n :| n >= calls && !Unhelpful(p, n, r.start, r.end);
      }
      RangeEnds(p, decode, r.start, r.end, calls, n);
      var depth: nat :| ScanRange(p, decode, r.start, r.end, calls, depth).error != Some(TooDeep);
      var s := ScanRange(p, decode, r.start, r.end, calls, depth);
      if s.error.Some? {
        assert ScanList(p, decode, ranges, calls, depth).error != Some(TooDeep);
      } else {
        RangesEnd(p, decode, ranges[1..], size, s.calls);
        FirstThenRest(p, decode, ranges, calls, depth);
      }
    }
  }

  lemma {:induction false} FirstThenRest<L, E>(p: Provider<L>, decode: L -> Option<E>, ranges: seq<Range>, calls: nat,
                                               depth: nat)
    requires ranges != []
    requires ScanRange(p, decode, ranges[0].start, ranges[0].end, calls, depth).error.None?
    requires ListEnds(p, decode, ranges[1..], ScanRange(p, decode, ranges[0].start, ranges[0].end, calls, depth).calls)
    ensures ListEnds(p, decode, ranges, calls)
  {
    var s := ScanRange(p, decode, ranges[0].start, ranges[0].end, calls, depth);
    var rest: nat :| ScanList(p, decode, ranges[1..], s.calls, rest).error != Some(TooDeep);
    var deep := if depth > rest then depth else rest;
    DeeperRange(p, decode, ranges[0].start, ranges[0].end, calls, depth, deep);
    DeeperList(p, decode, ranges[1..], s.calls, rest, deep);
    assert ScanList(p, decode, ranges, calls, deep).error != Some(TooDeep);
  }

  /** Exactly when scanning ends, for any provider, one that changes its mind included: every scan of every range
      ends if and only if the provider answers no question with an unhelpful limit for ever. */
  lemma {:induction false} EndsExactlyWhenRelenting<L(!new), E>(p: Provider<L>, decode: L -> Option<E>)
    ensures (forall first, last, calls: nat | 0 <= first <= last :: Ends(p, decode, first, last, calls)) <==> Relents(p)
  {
    hide Ends, HelpfulFrom;
    if Relents(p) {
      forall first, last, calls: nat | 0 <= first <= last ensures Ends(p, decode, first, last, calls) {
        AnyRangeEnds(p, decode, first, last, calls);
      }
    } else {
      var m: nat, first, last :| 0 <= first < last && !HelpfulFrom(p, m, first, last);
      NeverHelpfulNeverEnds(p, decode, first, last, m);
    }
  }

  lemma AnyRangeEnds<L(!new), E>(p: Provider<L>, decode: L -> Option<E>, first: int, last: int, calls: nat)
    requires Relents(p) && 0 <= first <= last
    ensures Ends(p, decode, first, last, calls)
  {
    var n: nat := calls;
    if first < last {
      assert HelpfulFrom(p, calls, first, last);
      n :| n >= calls && !Unhelpful(p, n, first, last);
    }
    RangeEnds(p, decode, first, last, calls, n);
  }

  lemma NeverHelpfulNeverEnds<L(!new), E>(p: Provider<L>, decode: L -> Option<E>, first: int, last: int, m: nat)
    requires 0 <= first < last && !HelpfulFrom(p, m, first, last)
    ensures !Ends(p, decode, first, last, m)
  {
    hide ScanRange, Unhelpful;
    forall depth: nat ensures ScanRange(p, decode, first, last, m, depth).error == Some(TooDeep) {
      StubbornProviderNeverEnds(p, decode, first, last, m, depth);
    }
  }

  // ---- call budgets ----

  /** The provider serves ranges of up to `k` blocks and answers any larger one with `refusal`. */
  ghost predicate ServesUpTo<L(!new), E>(p: Provider<L>, decode: L -> Option<E>, k: int, refusal: Reply<L>) {
    forall n, first, last ::
      if last - first < k then p(n, first, last).Logs? && DecodeAll(decode, p(n, first, last).logs).Some?
      else p(n, first, last) == refusal
  }

  /** How often a range of `n` blocks is halved until its pieces have at most `k`. */
  function Levels(n: int, k: int): nat
    requires k >= 1
    decreases n
  {
    if n <= k then 0 else 1 + Levels((n + 1) / 2, k)
  }

  /** The binary logarithm, rounded up. */
  function Log2Ceil(n: int): nat {
    if n <= 1 then 0 else 1 + Log2Ceil((n + 1) / 2)
  }

  lemma {:induction false} LevelsMonotone(m: int, n: int, k: int)
    requires m <= n && k >= 1
    ensures Levels(m, k) <= Levels(n, k)
    decreases n
  {
    if m > k { LevelsMonotone((m + 1) / 2, (n + 1) / 2, k); }
  }

  lemma {:induction false} Log2CeilMonotone(m: int, n: int)
    requires m <= n
    ensures Log2Ceil(m) <= Log2Ceil(n)
    decreases n
  {
    if m > 1 { Log2CeilMonotone((m + 1) / 2, (n + 1) / 2); }
  }

  /** Bisection never goes deeper than the logarithm of the range. */
  lemma {:induction false} LevelsAreFew(n: int, k: int)
    requires k >= 1
    ensures Levels(n, k) <= Log2Ceil(n)
    decreases n
  {
    if n > k { LevelsAreFew((n + 1) / 2, k); }
  }

  /** Eleven levels do for the default chunk of 2,000 blocks. */
  lemma DefaultChunkLevels()
    ensures Log2Ceil(2000) == 11
  {
    assert Log2Ceil(2) == 1;
    assert Log2Ceil(8) == 1 + Log2Ceil(4);
    assert Log2Ceil(32) == 1 + Log2Ceil(16);
    assert Log2Ceil(125) == 1 + Log2Ceil(63);
    assert Log2Ceil(500) == 1 + Log2Ceil(250);
    assert Log2Ceil(2000) == 1 + Log2Ceil(1000);
  }

  /** The left half is the larger one. */
  lemma HalfSizes(first: int, last: int)
    requires first < last
    ensures var mid, n := (first + last) / 2, last - first + 1;
      mid - first + 1 == (n + 1) / 2 && last - mid == n / 2 <= (n + 1) / 2
  {
  }

  /** Plain errors on ranges of more than `k` blocks: the scan goes through exactly if the interpreter lets it
      recurse once more than the range has to be halved, and fails for its depth otherwise. */
  lemma {:induction false} BisectionDepth<L(!new), E>(p: Provider<L>, decode: L -> Option<E>, k: int, first: int,
                                                      last: int, calls: nat, depth: nat)
    requires k >= 1 && ServesUpTo(p, decode, k, OtherError) && first <= last
    ensures ScanRange(p, decode, first, last, calls, depth).error
      == if Levels(last - first + 1, k) < depth then None else Some(TooDeep)
    decreases depth
  {
    if depth > 0 {
      hide ScanRange, ScanList, ServesUpTo;
      if last - first >= k {
        var mid := (first + last) / 2;
        HalfSizes(first, last);
        ScanBisected(p, decode, k, first, last, calls, depth);
        BisectionDepth(p, decode, k, first, mid, calls + 1, depth - 1);
        var left := ScanRange(p, decode, first, mid, calls + 1, depth - 1);
        LevelsMonotone(last - mid, mid - first + 1, k);
        BisectionDepth(p, decode, k, mid + 1, last, left.calls, depth - 1);
        ScanTwo(p, decode, Range(first, mid), Range(mid + 1, last), calls + 1, depth - 1);
      } else {
        ScanServed(p, decode, k, OtherError, first, last, calls, depth);
      }
    }
  }

  /** Then a range of `n > k` blocks ends in `l` accepted leaves, each of at least half of `k` blocks, and takes
      exactly `2 * l - 1` calls. */
  lemma {:induction false} BisectionCalls<L(!new), E>(p: Provider<L>, decode: L -> Option<E>, k: int, first: int,
                                                      last: int, calls: nat, depth: nat)
    requires k >= 1 && ServesUpTo(p, decode, k, OtherError)
    requires last - first + 1 >= (k + 1) / 2 && Levels(last - first + 1, k) < depth
    ensures var s := ScanRange(p, decode, first, last, calls, depth);
      && s.error.None?
      && s.calls == calls + 2 * |s.chunks| - 1
      && |s.chunks| * ((k + 1) / 2) <= last - first + 1
    decreases depth
  {
    hide ScanRange, ScanList, ServesUpTo;
    if last - first >= k {
      var mid, h := (first + last) / 2, (k + 1) / 2;
      ScanBisected(p, decode, k, first, last, calls, depth);
      HalvesLong(first, last, k);
      HalfSizes(first, last);
      LevelsMonotone(last - mid, mid - first + 1, k);
      BisectionCalls(p, decode, k, first, mid, calls + 1, depth - 1);
      var left := ScanRange(p, decode, first, mid, calls + 1, depth - 1);
      BisectionCalls(p, decode, k, mid + 1, last, left.calls, depth - 1);
      var right := ScanRange(p, decode, mid + 1, last, left.calls, depth - 1);
      ScanTwo(p, decode, Range(first, mid), Range(mid + 1, last), calls + 1, depth - 1);
      MulSum(|left.chunks|, |right.chunks|, h);
    } else {
      ScanServed(p, decode, k, OtherError, first, last, calls, depth);
    }
  }

  /** Both halves of a range of more than `k` blocks have at least half of `k`, rounded up. */
  lemma HalvesLong(first: int, last: int, k: int)
    requires 1 <= k <= last - first
    ensures var mid, h := (first + last) / 2, (k + 1) / 2;
      first <= mid < last && mid - first + 1 >= h && last - mid >= h
  {
  }

  lemma ScanServed<L(!new), E>(p: Provider<L>, decode: L -> Option<E>, k: int, refusal: Reply<L>, first: int, last: int,
                               calls: nat, depth: nat)
    requires ServesUpTo(p, decode, k, refusal) && last - first < k && depth > 0
    ensures var s := ScanRange(p, decode, first, last, calls, depth);
      s.error.None? && s.calls == calls + 1 && |s.chunks| == 1
  {
    hide ScanList, DecodeAll;
    assert p(calls, first, last).Logs? && DecodeAll(decode, p(calls, first, last).logs).Some?;
  }

  lemma ScanBisected<L(!new), E>(p: Provider<L>, decode: L -> Option<E>, k: int, first: int, last: int, calls: nat,
                                 depth: nat)
    requires ServesUpTo(p, decode, k, OtherError) && last - first >= k >= 1 && depth > 0
    ensures var mid := (first + last) / 2;
      ScanRange(p, decode, first, last, calls, depth)
      == ScanList(p, decode, [Range(first, mid), Range(mid + 1, last)], calls + 1, depth - 1)
  {
    hide ScanList, DecodeAll;
    assert p(calls, first, last) == OtherError;
  }

  lemma ScanTwo<L, E>(p: Provider<L>, decode: L -> Option<E>, a: Range, b: Range, calls: nat, depth: nat)
    ensures var x := ScanRange(p, decode, a.start, a.end, calls, depth);
      var y := ScanRange(p, decode, b.start, b.end, x.calls, depth);
      var s := ScanList(p, decode, [a, b], calls, depth);
      s == if x.error.Some? then x else Scan(x.chunks + y.chunks, y.error, y.calls)
  {
    var x := ScanRange(p, decode, a.start, a.end, calls, depth);
    var y := ScanRange(p, decode, b.start, b.end, x.calls, depth);
    assert [a, b][1..] == [b] && [b][1..] == [];
    assert ScanList(p, decode, [], y.calls, depth) == Scan([], None, y.calls);
    assert y.chunks + [] == y.chunks;
    assert ScanList(p, decode, [b], x.calls, depth) == y;
  }

  function CeilDiv(n: nat, k: int): nat
    requires k >= 1
  {
    (n + k - 1) / k
  }

  lemma {:induction false} BlockRangesCount(first: int, last: int, size: int)
    requires size >= 1 && first <= last + 1
    ensures |BlockRanges(first, last, size)| == CeilDiv(last - first + 1, size)
    decreases last - first
  {
    hide CeilDiv;
    if last - first + 1 > size {
      BlockRangesCount(first + size, last, size);
      CeilDivStep(last - first + 1, size);
      assert last - (first + size) + 1 == last - first + 1 - size;
    } else {
      CeilDivSmall(last - first + 1, size);
      assert BlockRanges(last + 1, last, size) == [];
    }
  }

  lemma CeilDivStep(n: nat, k: int)
    requires 1 <= k < n
    ensures CeilDiv(n, k) == 1 + CeilDiv(n - k, k)
  {
    DivStep(n - 1, k);
  }

  lemma CeilDivSmall(n: nat, k: int)
    requires k >= 1 && n <= k
    ensures CeilDiv(n, k) == if n == 0 then 0 else 1
  {
    if n == 0 { DivUnique(k - 1, k, 0, k - 1); } else { DivUnique(n + k - 1, k, 1, n - 1); }
  }

  /** One more divisor, one more quotient. */
  lemma DivStep(n: nat, k: int)
    requires k >= 1
    ensures (n + k) / k == n / k + 1
  {
    assert k * (n / k + 1) == k * (n / k) + k;
    DivUnique(n + k, k, n / k + 1, n % k);
  }

  lemma DivUnique(x: nat, k: int, q: int, r: int)
    requires k >= 1 && x == k * q + r && 0 <= r < k
    ensures x / k == q
  {
    var d := x / k - q;
    assert k * (x / k) == k * q + k * d;
    MulMonotone(k, d);
  }

  lemma MulMonotone(k: int, d: int)
    requires k >= 1
    ensures d >= 1 ==> k * d >= k
    ensures d <= -1 ==> k * d <= -k
  {
  }

  lemma MulSum(a: int, b: int, h: int)
    ensures (a + b) * h == a * h + b * h
  {
  }

  lemma {:induction false} AllServed<L(!new), E>(p: Provider<L>, decode: L -> Option<E>, k: int, refusal: Reply<L>,
                                                 ranges: seq<Range>, calls: nat, depth: nat)
    requires k >= 1 && ServesUpTo(p, decode, k, refusal) && depth > 0
    requires forall r | r in ranges :: r.end < r.start + k
    ensures var s := ScanList(p, decode, ranges, calls, depth);
      s.error.None? && s.calls == calls + |ranges| && |s.chunks| == |ranges|
  {
    if ranges != [] { AllServed(p, decode, k, refusal, ranges[1..], calls + 1, depth); }
  }

  /** If the limit `k` is announced instead, one refusal and one call per announced-size piece suffice. */
  lemma AnnouncedLimitCalls<L(!new), E>(p: Provider<L>, decode: L -> Option<E>, k: int, first: int, last: int,
                                        calls: nat, depth: nat)
    requires k >= 1 && ServesUpTo(p, decode, k, RangeLimited(Some(k)))
    requires 0 <= first && last - first + 1 > k && depth >= 2
    ensures var s := ScanRange(p, decode, first, last, calls, depth);
      s.error.None? && s.calls == calls + 1 + CeilDiv(last - first + 1, k)
  {
    BlockRangesPartition(first, last, k);
    BlockRangesCount(first, last, k);
    AllServed(p, decode, k, RangeLimited(Some(k)), BlockRanges(first, last, k), calls + 1, depth - 1);
  }
}
