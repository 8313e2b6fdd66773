/** What a scan asks its provider: at most one chunk at a time, and after a refusal exactly the next smaller piece. */
module Chunking {
  import opened Wrappers
  import opened Scanner

  // ---- no chunk and no question is larger than the chunk size ----

  /** The chunks lie in the range. */
  ghost predicate Within<E>(chunks: seq<Chunk<E>>, first: int, last: int) {
    forall c | c in chunks :: first <= c.start <= c.end <= last
  }

  lemma {:induction false} RangeWithin<L, E>(p: Provider<L>, decode: L -> Option<E>, first: int, last: int, calls: nat,
                                             depth: nat)
    requires first <= last
    ensures Within(ScanRange(p, decode, first, last, calls, depth).chunks, first, last)
    decreases depth, 0
  {
    if depth > 0 {
      match p(calls, first, last)
      case RangeLimited(limit) =>
        if limit.Some? && first < last && first >= 0 && limit.value >= 1 {
          PartitionWithin(BlockRanges(first, last, limit.value), first, last, limit.value);
          ListWithin(p, decode, BlockRanges(first, last, limit.value), first, last, calls + 1, depth - 1);
        }
      case OtherError =>
        if first < last {
          var mid := (first + last) / 2;
          ListWithin(p, decode, [Range(first, mid), Range(mid + 1, last)], first, last, calls + 1, depth - 1);
        }
      case _ =>
    }
  }

  lemma {:induction false} ListWithin<L, E>(p: Provider<L>, decode: L -> Option<E>, ranges: seq<Range>, first: int,
                                            last: int, calls: nat, depth: nat)
    requires forall r | r in ranges :: first <= r.start <= r.end <= last
    ensures Within(ScanList(p, decode, ranges, calls, depth).chunks, first, last)
    ensures forall c | c in ScanList(p, decode, ranges, calls, depth).chunks ::
      exists r | r in ranges :: r.start <= c.start <= c.end <= r.end
    decreases depth, 1 + |ranges|
  {
    if ranges != [] {
      hide ScanRange;
      var s := ScanRange(p, decode, ranges[0].start, ranges[0].end, calls, depth);
      RangeWithin(p, decode, ranges[0].start, ranges[0].end, calls, depth);
      ListWithin(p, decode, ranges[1..], first, last, s.calls, depth);
      assert ranges[0] in ranges && forall r | r in ranges[1..] :: r in ranges;
    }
  }

  lemma {:induction false} PartitionWithin(ranges: seq<Range>, first: int, last: int, size: int)
    requires size >= 1 && ranges == BlockRanges(first, last, size)
    ensures forall r | r in ranges :: first <= r.start <= r.end <= last && r.end < r.start + size
    decreases last - first
  {
    if first <= last {
      var end := if first + size - 1 < last then first + size - 1 else last;
      PartitionWithin(BlockRanges(end + 1, last, size), end + 1, last, size);
    }
  }

  /** Whatever the provider answers, no chunk has more blocks than asked for, or blocks outside the request. Unusable
      arguments are an error before the first question, and an empty request is no question at all. */
  lemma {:induction false} ChunksAreSmall<L, E>(p: Provider<L>, decode: L -> Option<E>, fromBlock: int, toBlock: int,
                                                chunkSize: int, depth: nat)
    ensures forall c | c in ScanChunks(p, decode, fromBlock, toBlock, chunkSize, depth).chunks ::
      fromBlock <= c.start <= c.end <= toBlock && c.end - c.start + 1 <= chunkSize
    ensures fromBlock < 0 || toBlock < 0 || chunkSize < 1 ==>
      ScanChunks(p, decode, fromBlock, toBlock, chunkSize, depth) == Scan([], Some(BadArguments), 0)
    ensures fromBlock > toBlock >= 0 && chunkSize >= 1 ==>
      ScanChunks(p, decode, fromBlock, toBlock, chunkSize, depth) == Scan([], None, 0)
  {
    if fromBlock >= 0 && toBlock >= 0 && chunkSize >= 1 {
      var ranges := BlockRanges(fromBlock, toBlock, chunkSize);
      PartitionWithin(ranges, fromBlock, toBlock, chunkSize);
      ListWithin(p, decode, ranges, fromBlock, toBlock, 0, depth);
    }
  }

  /** The providers answer every question about at most `size` blocks of the range alike. */
  ghost predicate AgreeWithin<L(!new)>(p: Provider<L>, q: Provider<L>, first: int, last: int, size: int) {
    forall n, f, l | first <= f <= l <= last && l - f + 1 <= size :: p(n, f, l) == q(n, f, l)
  }

  lemma {:induction false} SameRange<L(!new), E>(p: Provider<L>, q: Provider<L>, decode: L -> Option<E>, low: int,
                                                 high: int, size: int, first: int, last: int, calls: nat, depth: nat)
    requires AgreeWithin(p, q, low, high, size) && low <= first <= last <= high && last - first + 1 <= size
    ensures ScanRange(p, decode, first, last, calls, depth) == ScanRange(q, decode, first, last, calls, depth)
    decreases depth, 0
  {
    if depth > 0 {
      assert p(calls, first, last) == q(calls, first, last);
      match p(calls, first, last)
      case RangeLimited(limit) =>
        if limit.Some? && first < last && first >= 0 && limit.value >= 1 {
          PartitionWithin(BlockRanges(first, last, limit.value), first, last, limit.value);
          SameList(p, q, decode, low, high, size, BlockRanges(first, last, limit.value), calls + 1, depth - 1);
        }
      case OtherError =>
        if first < last {
          var mid := (first + last) / 2;
          SameList(p, q, decode, low, high, size, [Range(first, mid), Range(mid + 1, last)], calls + 1, depth - 1);
        }
      case _ =>
    }
  }

  lemma {:induction false} SameList<L(!new), E>(p: Provider<L>, q: Provider<L>, decode: L -> Option<E>, low: int,
                                                high: int, size: int, ranges: seq<Range>, calls: nat, depth: nat)
    requires AgreeWithin(p, q, low, high, size)
    requires forall r | r in ranges :: low <= r.start <= r.end <= high && r.end - r.start + 1 <= size
    ensures ScanList(p, decode, ranges, calls, depth) == ScanList(q, decode, ranges, calls, depth)
    decreases depth, 1 + |ranges|
  {
    if ranges != [] {
      hide ScanRange;
      SameRange(p, q, decode, low, high, size, ranges[0].start, ranges[0].end, calls, depth);
      SameList(p, q, decode, low, high, size, ranges[1..],
               ScanRange(p, decode, ranges[0].start, ranges[0].end, calls, depth).calls, depth);
    }
  }

  /** No question spans more than a chunk or leaves the request: what a provider would answer to such a question
      makes no difference to the scan. */
  lemma {:induction false} WiderAnswersDoNotMatter<L(!new), E>(p: Provider<L>, q: Provider<L>, decode: L -> Option<E>,
                                                               fromBlock: int, toBlock: int, chunkSize: int, depth: nat)
    requires AgreeWithin(p, q, fromBlock, toBlock, chunkSize)
    ensures ScanChunks(p, decode, fromBlock, toBlock, chunkSize, depth)
      == ScanChunks(q, decode, fromBlock, toBlock, chunkSize, depth)
  {
    if fromBlock >= 0 && toBlock >= 0 && chunkSize >= 1 {
      var ranges := BlockRanges(fromBlock, toBlock, chunkSize);
      PartitionWithin(ranges, fromBlock, toBlock, chunkSize);
      SameList(p, q, decode, fromBlock, toBlock, chunkSize, ranges, 0, depth);
    }
  }

  // ---- a provider that refuses no chunk ----

  /** The provider serves every question of at most `size` blocks of the range. */
  ghost predicate ServesChunks<L(!new), E>(p: Provider<L>, decode: L -> Option<E>, first: int, last: int, size: int) {
    forall n, f, l | first <= f <= l <= last && l - f + 1 <= size ::
      p(n, f, l).Logs? && DecodeAll(decode, p(n, f, l).logs).Some?
  }

  /** Chunk `i` of size `size`, cut off at the last block. */
  predicate IsChunk<E>(c: Chunk<E>, first: int, last: int, size: int, i: nat) {
    c.start == first + i * size && c.end == if c.start + size - 1 < last then c.start + size - 1 else last
  }

  /** The scan of consecutive chunks that are served one call each, from call `calls` on. */
  ghost predicate OneCallEach<L, E>(p: Provider<L>, decode: L -> Option<E>, first: int, last: int, size: int,
                                    calls: nat, s: Scan<E>)
  {
    forall i | 0 <= i < |s.chunks| ::
      && IsChunk(s.chunks[i], first, last, size, i)
      && p(calls + i, s.chunks[i].start, s.chunks[i].end).Logs?
      && DecodeAll(decode, p(calls + i, s.chunks[i].start, s.chunks[i].end).logs) == Some(s.chunks[i].events)
  }

  lemma OneCallMore<L, E>(p: Provider<L>, decode: L -> Option<E>, first: int, last: int, size: int, calls: nat,
                          c: Chunk<E>, rest: Scan<E>)
    requires size >= 1 && first <= last && IsChunk(c, first, last, size, 0)
    requires p(calls, c.start, c.end).Logs? && DecodeAll(decode, p(calls, c.start, c.end).logs) == Some(c.events)
    requires OneCallEach(p, decode, c.end + 1, last, size, calls + 1, rest)
    requires c.end < last || rest.chunks == []
    ensures OneCallEach(p, decode, first, last, size, calls, Scan([c] + rest.chunks, rest.error, rest.calls))
  {
    hide DecodeAll;
    var chunks := [c] + rest.chunks;
    forall i | 0 <= i < |chunks|
      ensures IsChunk(chunks[i], first, last, size, i) && p(calls + i, chunks[i].start, chunks[i].end).Logs?
      ensures DecodeAll(decode, p(calls + i, chunks[i].start, chunks[i].end).logs) == Some(chunks[i].events)
    {
      if i > 0 {
        assert chunks[i] == rest.chunks[i - 1];
        assert c.end + 1 == first + size;
        NextMultiple(first, size, i);
      }
    }
  }

  lemma NextMultiple(first: int, size: int, i: int)
    ensures first + size + (i - 1) * size == first + i * size
  {
  }

  lemma {:induction false} ServedChunks<L(!new), E>(p: Provider<L>, decode: L -> Option<E>, low: int, first: int,
                                                    last: int, size: int, calls: nat, depth: nat)
    requires size >= 1 && low <= first <= last + 1 && ServesChunks(p, decode, low, last, size) && depth >= 1
    ensures var s, count := ScanList(p, decode, BlockRanges(first, last, size), calls, depth),
                            CeilDiv(last - first + 1, size);
      && s.error.None? && s.calls == calls + count && |s.chunks| == count
      && OneCallEach(p, decode, first, last, size, calls, s)
    decreases last - first
  {
    hide DecodeAll, CeilDiv, OneCallEach;
    if first > last {
      CeilDivSmall(0, size);
      NoCalls(p, decode, first, last, size, calls);
      return;
    }
    var end := if first + size - 1 < last then first + size - 1 else last;
    var ranges := BlockRanges(end + 1, last, size);
    assert p(calls, first, end).Logs? && DecodeAll(decode, p(calls, first, end).logs).Some?;
    ServedChunks(p, decode, low, end + 1, last, size, calls + 1, depth);
    CeilDivNext(last - first + 1, size);
    assert ([Range(first, end)] + ranges)[1..] == ranges;
    var rest := ScanList(p, decode, ranges, calls + 1, depth);
    var c := Chunk(first, end, DecodeAll(decode, p(calls, first, end).logs).value);
    OneCallMore(p, decode, first, last, size, calls, c, rest);
    hide ServesChunks, BlockRanges;
  }

  lemma NoCalls<L, E>(p: Provider<L>, decode: L -> Option<E>, first: int, last: int, size: int, calls: nat)
    ensures OneCallEach(p, decode, first, last, size, calls, Scan([], None, calls))
  {
  }

  lemma CeilDivNext(n: nat, size: int)
    requires size >= 1 && n >= 1
    ensures CeilDiv(n, size) == 1 + if n > size then CeilDiv(n - size, size) else CeilDiv(0, size)
  {
    hide CeilDiv;
    CeilDivSmall(0, size);
    if n > size { CeilDivStep(n, size); } else { CeilDivSmall(n, size); }
  }

  /** With a provider that serves every chunk, the chunks are exactly the consecutive ones of the chunk size from the
      first block on, the last one cut off at the last block; there are `ceil(n / chunkSize)` of them, one call each,
      and each has the events of its own call. */
  lemma {:induction false} WillingChunks<L(!new), E>(p: Provider<L>, decode: L -> Option<E>, fromBlock: int,
                                                     toBlock: int, chunkSize: int, depth: nat)
    requires 0 <= fromBlock <= toBlock && chunkSize >= 1 && depth >= 1
    requires ServesChunks(p, decode, fromBlock, toBlock, chunkSize)
    ensures var s, count := ScanChunks(p, decode, fromBlock, toBlock, chunkSize, depth),
                            CeilDiv(toBlock - fromBlock + 1, chunkSize);
      && s.error.None? && s.calls == count && |s.chunks| == count
      && forall i | 0 <= i < count ::
           && s.chunks[i].start == fromBlock + i * chunkSize
           && s.chunks[i].end == (if fromBlock + (i + 1) * chunkSize - 1 < toBlock
                                  then fromBlock + (i + 1) * chunkSize - 1 else toBlock)
           && p(i, s.chunks[i].start, s.chunks[i].end).Logs?
           && DecodeAll(decode, p(i, s.chunks[i].start, s.chunks[i].end).logs) == Some(s.chunks[i].events)
  {
    hide DecodeAll, CeilDiv, ScanList, BlockRanges, ServesChunks;
    ServedChunks(p, decode, fromBlock, fromBlock, toBlock, chunkSize, 0, depth);
    forall i ensures fromBlock + i * chunkSize + chunkSize - 1 == fromBlock + (i + 1) * chunkSize - 1 {
      NextMultiple(fromBlock, chunkSize, i + 1);
    }
  }

  // ---- the questions of a scan, one by one ----

  predicate Serves<L, E>(reply: Reply<L>, decode: L -> Option<E>) {
    reply.Logs? && DecodeAll(decode, reply.logs).Some?
  }

  /** The chunks of the questions that were served. */
  function Served<L, E>(p: Provider<L>, decode: L -> Option<E>, calls: nat, asked: seq<Range>): (r: seq<Chunk<E>>) {
    if asked == [] then []
    else
      var n := |asked| - 1;
      var reply := p(calls + n, asked[n].start, asked[n].end);
      Served(p, decode, calls, asked[..n])
      + if Serves(reply, decode) then [Chunk(asked[n].start, asked[n].end, DecodeAll(decode, reply.logs).value)] else []
  }

  /** The first piece that a refused range is split into: what the announced limit allows, or the larger half; None if
      the answer is no refusal that can be split. */
  function FirstPiece<L>(reply: Reply<L>, r: Range): Option<Range> {
    if r.start >= r.end then None
    else
      match reply
      case OtherError => Some(Range(r.start, r.start + (r.end - r.start) / 2))
      case RangeLimited(Some(k)) =>
        if k < 1 then None else if r.start + k > r.end then Some(r) else Some(Range(r.start, r.start + k - 1))
      case _ => None
  }

  /** Question `i` lies in the range, is no larger than `size`, and starts at the first block not yet served; if another
      one follows, this one was served, or it was refused and the next one is its first piece. */
  ghost predicate AskedWell<L, E>(p: Provider<L>, decode: L -> Option<E>, calls: nat, asked: seq<Range>, first: int,
                                  last: int, size: int, i: nat)
    requires i < |asked|
  {
    var r, reply := asked[i], p(calls + i, asked[i].start, asked[i].end);
    && first <= r.start <= r.end <= last && r.end - r.start + 1 <= size
    && r.start == CoveredTo(Served(p, decode, calls, asked[..i]), first) + 1
    && (i + 1 < |asked| ==> Serves(reply, decode) || FirstPiece(reply, r) == Some(asked[i + 1]))
  }

  /** How a scan ends is decided by the answer to its last question. */
  ghost predicate EndsBy<L, E>(p: Provider<L>, decode: L -> Option<E>, calls: nat, asked: seq<Range>,
                               error: Option<ScanError>)
  {
    if asked == [] then error in {None, Some(TooDeep)}
    else
      var r := asked[|asked| - 1];
      var reply := p(calls + |asked| - 1, r.start, r.end);
      match error
      case None => Serves(reply, decode)
      case Some(RateLimit) => reply.RateLimited?
      case Some(RangeLimit) => reply.RangeLimited? && (reply.limit.None? || r.start == r.end)
      case Some(BadArguments) =>
        reply.RangeLimited? && reply.limit.Some? && reply.limit.value < 1 && r.start < r.end
      case Some(Rpc) => reply.OtherError? && r.start == r.end
      case Some(Undecodable) => reply.Logs? && DecodeAll(decode, reply.logs).None?
      case Some(TooDeep) => FirstPiece(reply, r).Some?
  }

  /** The questions `asked`, from call `calls` on, are those of the scan. */
  ghost predicate Transcript<L, E>(p: Provider<L>, decode: L -> Option<E>, calls: nat, asked: seq<Range>, first: int,
                                   last: int, size: int, s: Scan<E>)
  {
    && s.calls == calls + |asked|
    && s.chunks == Served(p, decode, calls, asked)
    && (forall i | 0 <= i < |asked| :: AskedWell(p, decode, calls, asked, first, last, size, i))
    && EndsBy(p, decode, calls, asked, s.error)
    && (s.error.None? ==> CoveredTo(s.chunks, first) == last)
  }

  lemma {:induction false} ServedConcat<L, E>(p: Provider<L>, decode: L -> Option<E>, calls: nat, a: seq<Range>,
                                              b: seq<Range>)
    ensures Served(p, decode, calls, a + b) == Served(p, decode, calls, a) + Served(p, decode, calls + |a|, b)
    decreases |b|
  {
    hide DecodeAll;
    if b == [] {
      assert a + b == a;
    } else {
      var n := |b| - 1;
      assert (a + b)[..|a + b| - 1] == a + b[..n];
      ServedConcat(p, decode, calls, a, b[..n]);
    }
  }

  lemma CoveredConcat<E>(a: seq<Chunk<E>>, b: seq<Chunk<E>>, first: int)
    ensures CoveredTo(a + b, first) == CoveredTo(b, CoveredTo(a, first) + 1)
  {
    if b == [] { assert a + b == a; }
  }

  /** The questions of one scan followed by those of the next. */
  lemma {:induction false} TranscriptConcat<L, E>(p: Provider<L>, decode: L -> Option<E>, calls: nat, a: seq<Range>,
                                                  b: seq<Range>, first: int, mid: int, last: int, size: int,
                                                  s: Scan<E>, t: Scan<E>)
    requires first <= mid + 1 && mid <= last && s.error.None?
    requires Transcript(p, decode, calls, a, first, mid, size, s)
    requires Transcript(p, decode, calls + |a|, b, mid + 1, last, size, t) && (b == [] ==> t.error.None?)
    ensures Transcript(p, decode, calls, a + b, first, last, size, Scan(s.chunks + t.chunks, t.error, t.calls))
  {
    hide Serves, Served, CoveredTo, FirstPiece;
    ServedConcat(p, decode, calls, a, b);
    CoveredConcat(s.chunks, t.chunks, first);
    forall i | 0 <= i < |a + b| ensures AskedWell(p, decode, calls, a + b, first, last, size, i) {
      if i < |a| {
        assert AskedWell(p, decode, calls, a, first, mid, size, i);
        assert (a + b)[..i] == a[..i];
      } else {
        var j := i - |a|;
        assert AskedWell(p, decode, calls + |a|, b, mid + 1, last, size, j);
        assert (a + b)[..i] == a + b[..j];
        ServedConcat(p, decode, calls, a, b[..j]);
        CoveredConcat(s.chunks, Served(p, decode, calls + |a|, b[..j]), first);
      }
    }
    if b == [] { assert a + b == a; }
  }

  lemma RefusedServesNothing<L, E>(p: Provider<L>, decode: L -> Option<E>, calls: nat, r: Range)
    requires FirstPiece(p(calls, r.start, r.end), r).Some?
    ensures !Serves(p(calls, r.start, r.end), decode) && Served(p, decode, calls, [r]) == []
  {
    hide DecodeAll;
    assert [r][..0] == [] && Served(p, decode, calls, []) == [];
  }

  lemma AskedLater<L, E>(p: Provider<L>, decode: L -> Option<E>, calls: nat, r: Range, asked: seq<Range>, first: int,
                         last: int, size: int, i: nat)
    requires i < |asked| && Served(p, decode, calls, [r]) == []
    requires AskedWell(p, decode, calls + 1, asked, first, last, size, i)
    ensures AskedWell(p, decode, calls, [r] + asked, first, last, size, i + 1)
  {
    hide FirstPiece, Serves, Served, CoveredTo;
    assert ([r] + asked)[..i + 1] == [r] + asked[..i] && ([r] + asked)[i + 1] == asked[i];
    ServedConcat(p, decode, calls, [r], asked[..i]);
    assert [] + Served(p, decode, calls + 1, asked[..i]) == Served(p, decode, calls + 1, asked[..i]);
    assert i + 1 < |asked| ==> ([r] + asked)[i + 2] == asked[i + 1];
  }

  lemma EndsLater<L, E>(p: Provider<L>, decode: L -> Option<E>, calls: nat, r: Range, asked: seq<Range>,
                        error: Option<ScanError>)
    requires EndsBy(p, decode, calls + 1, asked, error)
    requires asked == [] ==> error == Some(TooDeep) && FirstPiece(p(calls, r.start, r.end), r).Some?
    ensures EndsBy(p, decode, calls, [r] + asked, error)
  {
    hide FirstPiece, Serves, DecodeAll;
    var all := [r] + asked;
    if asked != [] {
      assert all[|all| - 1] == asked[|asked| - 1] && calls + |all| - 1 == calls + 1 + |asked| - 1;
    }
  }

  lemma AskedFirst<L, E>(p: Provider<L>, decode: L -> Option<E>, calls: nat, r: Range, asked: seq<Range>, size: int)
    requires r.start <= r.end && r.end - r.start + 1 <= size
    requires asked != [] ==> FirstPiece(p(calls, r.start, r.end), r) == Some(asked[0])
    ensures AskedWell(p, decode, calls, [r] + asked, r.start, r.end, size, 0)
  {
    hide FirstPiece, Serves;
    assert ([r] + asked)[..0] == [] && Served(p, decode, calls, []) == [];
  }

  /** A refused question followed by those about its pieces. */
  lemma {:induction false} TranscriptSplit<L, E>(p: Provider<L>, decode: L -> Option<E>, calls: nat, r: Range,
                                                 size: int, pieces: seq<Range>, asked: seq<Range>, s: Scan<E>)
    requires r.start <= r.end && r.end - r.start + 1 <= size && pieces != []
    requires FirstPiece(p(calls, r.start, r.end), r) == Some(pieces[0])
    requires Transcript(p, decode, calls + 1, asked, r.start, r.end, size, s)
    requires if asked == [] then s.error == Some(TooDeep) else asked[0] == pieces[0]
    ensures Transcript(p, decode, calls, [r] + asked, r.start, r.end, size, s)
  {
    RefusedServesNothing(p, decode, calls, r);
    AskedFirst(p, decode, calls, r, asked, size);
    EndsLater(p, decode, calls, r, asked, s.error);
    hide FirstPiece, Serves, Served, CoveredTo, AskedWell, EndsBy;
    ServedConcat(p, decode, calls, [r], asked);
    assert [] + Served(p, decode, calls + 1, asked) == Served(p, decode, calls + 1, asked);
    forall i | 0 <= i < |[r] + asked| ensures AskedWell(p, decode, calls, [r] + asked, r.start, r.end, size, i) {
      if i > 0 { AskedLater(p, decode, calls, r, asked, r.start, r.end, size, i - 1); }
    }
  }

  /** A question that ends the scan of its range. */
  lemma {:induction false} TranscriptOne<L, E>(p: Provider<L>, decode: L -> Option<E>, calls: nat, r: Range, size: int,
                                               s: Scan<E>)
    requires r.start <= r.end && r.end - r.start + 1 <= size && s.calls == calls + 1
    requires EndsBy(p, decode, calls, [r], s.error)
    requires s.chunks == Served(p, decode, calls, [r])
    ensures Transcript(p, decode, calls, [r], r.start, r.end, size, s)
  {
    AskedFirst(p, decode, calls, r, [], size);
    assert [r] + [] == [r];
    hide AskedWell, FirstPiece, DecodeAll;
    assert [r][..0] == [] && Served(p, decode, calls, []) == [];
  }

  lemma {:induction false} RangeTranscript<L, E>(p: Provider<L>, decode: L -> Option<E>, first: int, last: int,
                                                 size: int, calls: nat, depth: nat)
    returns (asked: seq<Range>)
    requires 0 <= first <= last && last - first + 1 <= size && depth > 0
    ensures Transcript(p, decode, calls, asked, first, last, size, ScanRange(p, decode, first, last, calls, depth))
    ensures asked != [] && asked[0] == Range(first, last)
    decreases depth, 0
  {
    hide ScanRange, ScanList, DecodeAll, Transcript, FirstPiece, Pieces, Partition;
    var r, reply := Range(first, last), p(calls, first, last);
    var s := ScanRange(p, decode, first, last, calls, depth);
    if FirstPiece(reply, r).Some? {
      var pieces := Pieces(reply, r);
      PiecesFacts(reply, r);
      SplitScan(p, decode, first, last, calls, depth);
      var rest := ListTranscript(p, decode, pieces, first, last, size, calls + 1, depth - 1);
      TranscriptSplit(p, decode, calls, r, size, pieces, rest, s);
      asked := [r] + rest;
    } else {
      LastScan(p, decode, first, last, calls, depth);
      TranscriptOne(p, decode, calls, r, size, s);
      asked := [r];
    }
  }

  lemma SplitScan<L, E>(p: Provider<L>, decode: L -> Option<E>, first: int, last: int, calls: nat, depth: nat)
    requires 0 <= first && depth > 0 && FirstPiece(p(calls, first, last), Range(first, last)).Some?
    ensures ScanRange(p, decode, first, last, calls, depth)
      == ScanList(p, decode, Pieces(p(calls, first, last), Range(first, last)), calls + 1, depth - 1)
  {
    hide ScanList, DecodeAll, BlockRanges;
  }

  lemma LastScan<L, E>(p: Provider<L>, decode: L -> Option<E>, first: int, last: int, calls: nat, depth: nat)
    requires 0 <= first <= last && depth > 0 && FirstPiece(p(calls, first, last), Range(first, last)).None?
    ensures var s := ScanRange(p, decode, first, last, calls, depth);
      && s.calls == calls + 1
      && EndsBy(p, decode, calls, [Range(first, last)], s.error)
      && s.chunks == Served(p, decode, calls, [Range(first, last)])
  {
    hide ScanList, DecodeAll, BlockRanges;
    assert [Range(first, last)][..0] == [] && Served(p, decode, calls, []) == [];
  }

  /** The pieces of a refused range. */
  function Pieces<L>(reply: Reply<L>, r: Range): seq<Range>
    requires FirstPiece(reply, r).Some?
  {
    match reply
    case OtherError => [Range(r.start, (r.start + r.end) / 2), Range((r.start + r.end) / 2 + 1, r.end)]
    case RangeLimited(Some(k)) => BlockRanges(r.start, r.end, k)
  }

  lemma PiecesFacts<L>(reply: Reply<L>, r: Range)
    requires FirstPiece(reply, r).Some?
    ensures var pieces := Pieces(reply, r);
      && pieces != [] && FirstPiece(reply, r) == Some(pieces[0]) && Partition(pieces, r.start, r.end)
      && forall piece | piece in pieces :: r.start <= piece.start <= piece.end <= r.end
  {
    match reply
    case OtherError => HalvesPartition(r.start, r.end);
    case RangeLimited(Some(k)) => BlockRangesPartition(r.start, r.end, k);
    PartitionInside(Pieces(reply, r), r.start, r.end);
  }

  lemma {:induction false} PartitionInside(ranges: seq<Range>, first: int, last: int)
    requires Partition(ranges, first, last)
    ensures forall r | r in ranges :: first <= r.start <= r.end <= last
  {
    if ranges != [] { PartitionInside(ranges[1..], ranges[0].end + 1, last); }
  }

  lemma TranscriptWider<L, E>(p: Provider<L>, decode: L -> Option<E>, calls: nat, asked: seq<Range>, first: int,
                              last: int, later: int, size: int, s: Scan<E>)
    requires Transcript(p, decode, calls, asked, first, last, size, s) && last <= later && s.error.Some?
    ensures Transcript(p, decode, calls, asked, first, later, size, s)
  {
    hide FirstPiece, Serves, Served, CoveredTo, EndsBy;
    forall i | 0 <= i < |asked| ensures AskedWell(p, decode, calls, asked, first, later, size, i) {
      assert AskedWell(p, decode, calls, asked, first, last, size, i);
    }
  }

  lemma {:induction false} ListTranscript<L, E>(p: Provider<L>, decode: L -> Option<E>, ranges: seq<Range>, first: int,
                                                last: int, size: int, calls: nat, depth: nat)
    returns (asked: seq<Range>)
    requires 0 <= first <= last + 1 && Partition(ranges, first, last)
    requires forall r | r in ranges :: r.end - r.start + 1 <= size
    ensures Transcript(p, decode, calls, asked, first, last, size, ScanList(p, decode, ranges, calls, depth))
    ensures asked == [] ==>
      ScanList(p, decode, ranges, calls, depth).error == (if ranges == [] then None else Some(TooDeep))
      && (ranges == [] || depth == 0)
    ensures asked != [] ==> ranges != [] && asked[0] == ranges[0]
    decreases depth, 1 + |ranges|
  {
    hide ScanRange, Transcript;
    if ranges == [] || depth == 0 {
      NoQuestions(p, decode, ranges, first, last, size, calls, depth);
      return [];
    }
    var s := ScanRange(p, decode, ranges[0].start, ranges[0].end, calls, depth);
    PartitionBound(ranges[1..], ranges[0].end + 1, last);
    asked := RangeTranscript(p, decode, ranges[0].start, ranges[0].end, size, calls, depth);
    if s.error.None? {
      TranscriptCalls(p, decode, calls, asked, first, ranges[0].end, size, s);
      var rest := ListTranscript(p, decode, ranges[1..], ranges[0].end + 1, last, size, s.calls, depth);
      TranscriptConcat(p, decode, calls, asked, rest, first, ranges[0].end, last, size, s,
                       ScanList(p, decode, ranges[1..], s.calls, depth));
      asked := asked + rest;
    } else {
      TranscriptWider(p, decode, calls, asked, first, ranges[0].end, last, size, s);
    }
  }

  lemma TranscriptCalls<L, E>(p: Provider<L>, decode: L -> Option<E>, calls: nat, asked: seq<Range>, first: int,
                              last: int, size: int, s: Scan<E>)
    requires Transcript(p, decode, calls, asked, first, last, size, s)
    ensures s.calls == calls + |asked|
  {
  }

  lemma NoQuestions<L, E>(p: Provider<L>, decode: L -> Option<E>, ranges: seq<Range>, first: int, last: int, size: int,
                          calls: nat, depth: nat)
    requires Partition(ranges, first, last) && (ranges == [] || depth == 0)
    ensures var s := ScanList(p, decode, ranges, calls, depth);
      Transcript(p, decode, calls, [], first, last, size, s)
      && s.error == if ranges == [] then None else Some(TooDeep)
  {
    if ranges != [] {
      assert ScanRange(p, decode, ranges[0].start, ranges[0].end, calls, depth) == Scan([], Some(TooDeep), calls);
    }
  }

  /** Every question of a scan, whatever the provider answers. The first is about the first chunk. Each starts at the
      first block that has not been served yet and has at most a chunk of blocks, inside the request. If another one
      follows, it was served, or it was refused for a plain error or with a usable limit, about several blocks, and
      the next one is about the larger half or about as many blocks as the limit allows. The chunks are those of the
      served questions, and the answer to the last question alone says how the scan ends. */
  lemma {:induction false} QuestionsOfScan<L, E>(p: Provider<L>, decode: L -> Option<E>, fromBlock: int, toBlock: int,
                                                 chunkSize: int, depth: nat) returns (asked: seq<Range>)
    requires 0 <= fromBlock <= toBlock && chunkSize >= 1
    ensures Transcript(p, decode, 0, asked, fromBlock, toBlock, chunkSize,
                       ScanChunks(p, decode, fromBlock, toBlock, chunkSize, depth))
    ensures depth > 0 ==>
      asked != []
      && asked[0].end == if fromBlock + chunkSize - 1 < toBlock then fromBlock + chunkSize - 1 else toBlock
  {
    hide ScanList, AskedWell, EndsBy, Served;
    BlockRangesPartition(fromBlock, toBlock, chunkSize);
    asked := ListTranscript(p, decode, BlockRanges(fromBlock, toBlock, chunkSize), fromBlock, toBlock, chunkSize, 0,
                            depth);
  }

  /** A rate limit, an unreadable log, or any refusal of a single block is never retried: it ends the scan. */
  lemma {:induction false} NothingAfterLastAnswer<L(!new), E>(p: Provider<L>, decode: L -> Option<E>, fromBlock: int,
                                                              toBlock: int, chunkSize: int, depth: nat, n: nat)
    requires 0 <= fromBlock <= toBlock && chunkSize >= 1
    requires forall f, l | f <= l :: !Serves(p(n, f, l), decode) && FirstPiece(p(n, f, l), Range(f, l)).None?
    ensures var s := ScanChunks(p, decode, fromBlock, toBlock, chunkSize, depth);
      && s.calls <= n + 1
      && ((forall f, l | f <= l :: p(n, f, l).RateLimited?) ==> s.calls == n + 1 ==> s.error == Some(RateLimit))
  {
    hide ScanChunks, Serves, FirstPiece, Served, CoveredTo;
    var s := ScanChunks(p, decode, fromBlock, toBlock, chunkSize, depth);
    var asked := QuestionsOfScan(p, decode, fromBlock, toBlock, chunkSize, depth);
    if n < |asked| {
      assert AskedWell(p, decode, 0, asked, fromBlock, toBlock, chunkSize, n);
    }
  }
}
