/** From the contract to the index: what was recorded is what is listed. */
module EndToEnd {
  import opened Wrappers
  import opened Bytes
  import opened Digits
  import opened Eip712
  import opened Contract
  import opened WitnessLog
  import opened Logs
  import opened Dedupe
  import opened Events
  import Scanner
  import opened Topics
  import Store
  import opened CrashSafety
  import Index

  type ScanContext = Store.ScanContext

  /** An emitted entry and where the chain put its log. */
  datatype Mined = Mined(entry: Entry, place: Place)

  /** The transaction log of a mined entry. */
  function PlaceOf(m: Mined): (Bytes32, nat) {
    (m.place.transactionHash, m.place.logIndex)
  }

  /** The ledger holds the contract's log, in order, and no transaction log twice. */
  ghost predicate MinedFrom(ledger: seq<Mined>, log: seq<Entry>) {
    && |ledger| == |log|
    && (forall i | 0 <= i < |log| :: ledger[i].entry == log[i])
    && Distinct(PlaceOf, ledger)
  }

  /** The entry is in the range of blocks, and the scan's filter selects it. */
  predicate Wanted(context: ScanContext, m: Mined, first: int, last: int) {
    first <= m.place.blockNumber <= last && Selects(context, m.entry)
  }

  /** What was mined in a range of blocks and is selected, in order. */
  function MinedIn(ledger: seq<Mined>, context: ScanContext, first: int, last: int): (r: seq<Mined>) {
    if ledger == [] then []
    else
      var n := |ledger| - 1;
      MinedIn(ledger[..n], context, first, last)
      + if Wanted(context, ledger[n], first, last) then [ledger[n]] else []
  }

  predicate Encodable(ledger: seq<Mined>) {
    forall m | m in ledger :: |m.entry.uri| <= MAX_URI_BYTES
  }

  /** The logs of one block whose topics match, as a provider reports them. */
  function BlockLogs(ledger: seq<Mined>, filter: seq<TopicFilter>, block: int): (r: seq<RawLog>)
    requires Encodable(ledger)
  {
    if ledger == [] then []
    else
      var n := |ledger| - 1;
      var log := EncodeLog(Current, ledger[n].entry, ledger[n].place);
      BlockLogs(ledger[..n], filter, block)
      + if ledger[n].place.blockNumber == block && TopicsMatch(filter, log.topics) then [log] else []
  }

  function DecodeOption(utf8: Utf8): RawLog -> Option<DocAttested> {
    (log: RawLog) => match Decode(utf8, log) case Ok(e) => Some(e) case Err(_) => None
  }

  /** The chain that a scan of this context sees. */
  function LedgerSource(ledger: seq<Mined>, context: ScanContext, utf8: Utf8): EventSource<RawLog>
    requires Encodable(ledger) && ValidFilter(context)
  {
    Scanner.Source((block: int) => BlockLogs(ledger, FilterOf(context), block), DecodeOption(utf8))
  }

  /** The record the index is meant to hold for a mined entry. */
  function RecordFor(utf8: Utf8, m: Mined): DocAttested
    requires utf8(m.entry.uri).Some?
  {
    RecordOf(Current, m.entry, m.place, utf8(m.entry.uri).value)
  }

  predicate AllText(utf8: Utf8, ledger: seq<Mined>) {
    forall m | m in ledger :: utf8(m.entry.uri).Some?
  }

  // ---- keys from records ----

  function BytesOfText(s: string, n: nat): (b: bytes)
    ensures |b| == n
  {
    if |s| == 2 * n + 2 && IsHex(s[2..]) then FromHex(s[2..]) else Zeros(n)
  }

  /** The duplicate-prevention key, recomputed from the texts of an index record. */
  function RecordKey(k: Keccak, r: DocAttested): Bytes32
    requires 0 <= r.docRef < 0x1_0000_0000_0000_0000
  {
    AttestationKey(k, BytesOfText(r.attester, 20), BytesOfText(r.onBehalfOf, 20),
                   DocBlock(BytesOfText(r.docChainId, 32), r.docRef, BytesOfText(r.parentHash, 32),
                            BytesOfText(r.contentHash, 32)),
                   BytesOfText(r.uriHash, 32))
  }

  lemma BytesOfText0x(b: bytes)
    ensures BytesOfText(Text0x(b), |b|) == b
  {
    hide Hex, FromHex, IsHex;
    assert Text0x(b)[2..] == Hex(b);
    FromHexOfHex(b);
  }

  lemma RecordKeyIsEntryKey(k: Keccak, utf8: Utf8, m: Mined)
    requires utf8(m.entry.uri).Some?
    ensures RecordKey(k, RecordFor(utf8, m)) == EntryKey(k, m.entry)
  {
    hide Text0x, BytesOfText;
    var e := m.entry;
    BytesOfText0x(e.attester);
    BytesOfText0x(e.onBehalfOf);
    BytesOfText0x(e.docChainId);
    BytesOfText0x(e.parentHash);
    BytesOfText0x(e.contentHash);
    BytesOfText0x(e.uriHash);
  }

  // ---- the ledger as a chain ----

  /** Log `l` reports a mined entry of the block that the filter selects. */
  predicate Reports(context: ScanContext, m: Mined, block: int, l: RawLog) {
    && m.place.blockNumber == block && Selects(context, m.entry)
    && |m.entry.uri| < TWO_256 && l == EncodeLog(Current, m.entry, m.place)
  }

  lemma {:induction false} BlockLogsMember(ledger: seq<Mined>, context: ScanContext, block: int)
    requires Encodable(ledger) && ValidFilter(context)
    ensures forall l ::
      l in BlockLogs(ledger, FilterOf(context), block) <==> exists m | m in ledger :: Reports(context, m, block, l)
  {
    hide EncodeLog, FilterOf, TopicsMatch, Selects, ValidFilter;
    if ledger != [] {
      var init, last := ledger[..|ledger| - 1], ledger[|ledger| - 1];
      BlockLogsMember(init, context, block);
      LastReports(ledger, context, block);
      hide BlockLogs, Reports;
      assert ledger == init + [last];
    }
  }

  lemma {:induction false} LastReports(ledger: seq<Mined>, context: ScanContext, block: int)
    requires Encodable(ledger) && ValidFilter(context) && ledger != []
    ensures var n := |ledger| - 1;
      forall l :: l in BlockLogs(ledger, FilterOf(context), block)
        <==> l in BlockLogs(ledger[..n], FilterOf(context), block) || Reports(context, ledger[n], block, l)
  {
    var last := ledger[|ledger| - 1];
    assert last in ledger;
    FilterSelects(context, last.entry, last.place);
    hide EncodeLog, FilterOf, TopicsMatch, Selects, ValidFilter;
  }

  /** `e` is the record of `m`, whose URI is text. */
  predicate IsRecordOf(utf8: Utf8, e: DocAttested, m: Mined) {
    utf8(m.entry.uri).Some? && e == RecordFor(utf8, m)
  }

  lemma DecodesToRecord(utf8: Utf8, m: Mined)
    requires |m.entry.uri| < TWO_256
    ensures DecodeOption(utf8)(EncodeLog(Current, m.entry, m.place))
      == if utf8(m.entry.uri).Some? then Some(RecordFor(utf8, m)) else None
  {
    hide EncodeLog, RecordOf, Decode;
    DecodeRoundTrip(utf8, Current, m.entry, m.place);
  }

  lemma {:induction false} InChainIsMined(ledger: seq<Mined>, context: ScanContext, utf8: Utf8, first: int, last: int,
                                          e: DocAttested) returns (m: Mined)
    requires Encodable(ledger) && ValidFilter(context) && InChain(LedgerSource(ledger, context, utf8), first, last, e)
    ensures m in ledger && Wanted(context, m, first, last) && IsRecordOf(utf8, e, m)
  {
    hide EncodeLog, RecordFor, DecodeOption, BlockLogs, FilterOf, ValidFilter, Selects;
    var src := LedgerSource(ledger, context, utf8);
    var b, l :| first <= b <= last && l in src.chain(b) && src.decode(l) == Some(e);
    BlockLogsMember(ledger, context, b);
    m :| m in ledger && Reports(context, m, b, l);
    DecodesToRecord(utf8, m);
  }

  lemma InChainIntro(src: EventSource<RawLog>, first: int, last: int, block: int, log: RawLog, e: DocAttested)
    requires first <= block <= last && log in src.chain(block) && src.decode(log) == Some(e)
    ensures InChain(src, first, last, e)
  {
  }

  lemma {:induction false} MinedIsInChain(ledger: seq<Mined>, context: ScanContext, utf8: Utf8, first: int, last: int,
                                          m: Mined)
    requires Encodable(ledger) && ValidFilter(context)
    requires m in ledger && Wanted(context, m, first, last) && utf8(m.entry.uri).Some?
    ensures InChain(LedgerSource(ledger, context, utf8), first, last, RecordFor(utf8, m))
  {
    hide EncodeLog, RecordFor, DecodeOption, BlockLogs, InChain;
    BlockLogsMember(ledger, context, m.place.blockNumber);
    DecodesToRecord(utf8, m);
    InChainIntro(LedgerSource(ledger, context, utf8), first, last, m.place.blockNumber,
                 EncodeLog(Current, m.entry, m.place), RecordFor(utf8, m));
  }

  /** The decodable events of the chain that a scan sees are exactly the records of the mined entries that its
      filter selects and whose URI is text. */
  lemma LedgerEvents(ledger: seq<Mined>, context: ScanContext, utf8: Utf8, first: int, last: int, e: DocAttested)
    requires Encodable(ledger) && ValidFilter(context)
    ensures InChain(LedgerSource(ledger, context, utf8), first, last, e)
      <==> exists m | m in ledger :: Wanted(context, m, first, last) && IsRecordOf(utf8, e, m)
  {
    hide InChain, LedgerSource, RecordFor;
    if InChain(LedgerSource(ledger, context, utf8), first, last, e) {
      var m := InChainIsMined(ledger, context, utf8, first, last, e);
    }
    if m :| m in ledger && Wanted(context, m, first, last) && IsRecordOf(utf8, e, m) {
      MinedIsInChain(ledger, context, utf8, first, last, m);
    }
  }

  lemma SameKeySamePlace(utf8: Utf8, m: Mined, n: Mined)
    requires utf8(m.entry.uri).Some? && utf8(n.entry.uri).Some?
    requires EventKey(RecordFor(utf8, m)) == EventKey(RecordFor(utf8, n))
    ensures PlaceOf(m) == PlaceOf(n)
  {
    var x, y := m.place.transactionHash, n.place.transactionHash;
    EventKeyInjective(RecordFor(utf8, m), RecordFor(utf8, n));
    hide EventKey, Hex, Lower, IsHex;
    LowerText0x(x);
    LowerText0x(y);
    assert Hex(x) == Text0x(x)[2..] && Hex(y) == Text0x(y)[2..];
    HexInjective(x, y);
  }

  lemma SamePlaceSameMined(ledger: seq<Mined>, m: Mined, n: Mined)
    requires Distinct(PlaceOf, ledger) && m in ledger && n in ledger && PlaceOf(m) == PlaceOf(n)
    ensures m == n
  {
    hide PlaceOf;
    var i :| 0 <= i < |ledger| && ledger[i] == m;
    var j :| 0 <= j < |ledger| && ledger[j] == n;
  }

  lemma LowerText0x(b: bytes)
    ensures Lower(Text0x(b)) == Text0x(b)
  {
    hide Hex, Lower, IsHex;
    LowerPair('0', 'x', Hex(b));
    HexLower(b);
    assert "0x" + Hex(b) == ['0', 'x'] + Hex(b);
  }

  lemma RecordNamesBehalf(utf8: Utf8, e: DocAttested, m: Mined)
    requires IsRecordOf(utf8, e, m)
    ensures e.onBehalfOf != ""
  {
  }

  lemma SameKeySameRecord(ledger: seq<Mined>, utf8: Utf8, m: Mined, n: Mined, e: DocAttested, x: DocAttested)
    requires Distinct(PlaceOf, ledger) && m in ledger && n in ledger
    requires IsRecordOf(utf8, e, m) && IsRecordOf(utf8, x, n) && EventKey(e) == EventKey(x)
    ensures e == x
  {
    hide RecordFor, EventKey, PlaceOf;
    SameKeySamePlace(utf8, m, n);
    SamePlaceSameMined(ledger, m, n);
  }

  lemma {:induction false} LedgerIsWellFormed(ledger: seq<Mined>, log: seq<Entry>, context: ScanContext, utf8: Utf8)
    requires MinedFrom(ledger, log) && Encodable(ledger) && ValidFilter(context)
    ensures WellFormedChain(LedgerSource(ledger, context, utf8))
  {
    hide LedgerSource, EventKey, InChain, MinedFrom, Encodable, ValidFilter, Wanted, IsRecordOf, Distinct;
    var src := LedgerSource(ledger, context, utf8);
    LedgerDistinct(ledger, log);
    forall f, t, e | InChain(src, f, t, e) ensures e.onBehalfOf != "" {
      LedgerEvents(ledger, context, utf8, f, t, e);
      var m :| m in ledger && Wanted(context, m, f, t) && IsRecordOf(utf8, e, m);
      RecordNamesBehalf(utf8, e, m);
    }
    forall f, t, e, g, u, x | InChain(src, f, t, e) && InChain(src, g, u, x) && EventKey(e) == EventKey(x)
      ensures e == x
    {
      LedgerEvents(ledger, context, utf8, f, t, e);
      LedgerEvents(ledger, context, utf8, g, u, x);
      var m :| m in ledger && Wanted(context, m, f, t) && IsRecordOf(utf8, e, m);
      var n :| n in ledger && Wanted(context, n, g, u) && IsRecordOf(utf8, x, n);
      SameKeySameRecord(ledger, utf8, m, n, e, x);
    }
  }

  lemma LedgerDistinct(ledger: seq<Mined>, log: seq<Entry>)
    requires MinedFrom(ledger, log)
    ensures Distinct(PlaceOf, ledger) && |ledger| == |log|
  {
  }

  // ---- a range of the ledger ----

  lemma {:induction false} MinedInMember(ledger: seq<Mined>, context: ScanContext, first: int, last: int)
    ensures forall m :: m in MinedIn(ledger, context, first, last) <==> m in ledger && Wanted(context, m, first, last)
  {
    if ledger != [] {
      MinedInMember(ledger[..|ledger| - 1], context, first, last);
      assert ledger == ledger[..|ledger| - 1] + [ledger[|ledger| - 1]];
    }
  }

  /** What tells the entries of a ledger apart tells those of a range apart. */
  lemma {:induction false} MinedInDistinct<K>(key: Mined -> K, ledger: seq<Mined>, context: ScanContext, first: int,
                                              last: int)
    requires Distinct(key, ledger)
    ensures Distinct(key, MinedIn(ledger, context, first, last))
  {
    if ledger != [] {
      var init, m := ledger[..|ledger| - 1], ledger[|ledger| - 1];
      MinedInDistinct(key, init, context, first, last);
      MinedInMember(init, context, first, last);
      var kept := MinedIn(init, context, first, last);
      forall i | 0 <= i < |kept| ensures key(kept[i]) != key(m) {
        assert kept[i] in kept;
        var j :| 0 <= j < |init| && init[j] == kept[i];
        assert ledger[j] == init[j];
      }
    }
  }

  lemma {:induction false} MinedInAll(ledger: seq<Mined>, context: ScanContext, first: int, last: int)
    requires forall m | m in ledger :: Wanted(context, m, first, last)
    ensures MinedIn(ledger, context, first, last) == ledger
  {
    if ledger != [] {
      MinedInAll(ledger[..|ledger| - 1], context, first, last);
      assert ledger == ledger[..|ledger| - 1] + [ledger[|ledger| - 1]];
    }
  }

  // ---- counting ----

  lemma {:induction false} SetOfDistinct<T>(xs: seq<T>)
    requires forall i, j | 0 <= i < j < |xs| :: xs[i] != xs[j]
    ensures |set x | x in xs| == |xs|
  {
    if xs != [] {
      var init, last := xs[..|xs| - 1], xs[|xs| - 1];
      SetOfDistinct(init);
      assert (set x | x in xs) == (set x | x in init) + {last};
      assert last !in init;
    } else {
      assert (set x | x in xs) == {};
    }
  }

  lemma SameLength<T>(xs: seq<T>, ys: seq<T>)
    requires forall i, j | 0 <= i < j < |xs| :: xs[i] != xs[j]
    requires forall i, j | 0 <= i < j < |ys| :: ys[i] != ys[j]
    requires forall x :: x in xs <==> x in ys
    ensures |xs| == |ys|
  {
    SetOfDistinct(xs);
    SetOfDistinct(ys);
    assert (set x | x in xs) == (set y | y in ys);
  }

  function RecordsFor(utf8: Utf8, ledger: seq<Mined>): (r: seq<DocAttested>)
    requires AllText(utf8, ledger)
    ensures |r| == |ledger| && forall i | 0 <= i < |r| :: ledger[i] in ledger && r[i] == RecordFor(utf8, ledger[i])
  {
    seq(|ledger|, i requires 0 <= i < |ledger| => assert ledger[i] in ledger; RecordFor(utf8, ledger[i]))
  }

  lemma RecordsDistinct(utf8: Utf8, mined: seq<Mined>)
    requires Distinct(PlaceOf, mined) && AllText(utf8, mined)
    ensures forall i, j | 0 <= i < j < |mined| :: RecordsFor(utf8, mined)[i] != RecordsFor(utf8, mined)[j]
  {
    hide PlaceOf, RecordFor, EventKey;
    var r := RecordsFor(utf8, mined);
    forall i, j | 0 <= i < j < |mined| ensures r[i] != r[j] {
      if EventKey(r[i]) == EventKey(r[j]) { SameKeySamePlace(utf8, mined[i], mined[j]); }
    }
  }

  lemma DedupeIdempotent(events: seq<DocAttested>)
    ensures DedupeEvents(DedupeEvents(events)) == DedupeEvents(events)
  {
    ChainOrderValid();
    DedupedKeepsEarliest(ChainOrder(), events);
    SameEarliestSameDeduped(ChainOrder(), DedupeEvents(events), events);
  }

  // ---- what a range of blocks loads as ----

  /** A range of blocks decodes exactly when the URI of everything selected in it is UTF-8. */
  lemma {:induction false} DecodesExactlyText(ledger: seq<Mined>, context: ScanContext, utf8: Utf8, first: int,
                                              last: int)
    requires Encodable(ledger) && ValidFilter(context)
    ensures var logs := Scanner.LogsIn(LedgerSource(ledger, context, utf8).chain, first, last);
      Scanner.DecodeAll(DecodeOption(utf8), logs).Some? <==> AllText(utf8, MinedIn(ledger, context, first, last))
  {
    hide EncodeLog, RecordFor, DecodeOption, BlockLogs, MinedIn;
    var src, decode := LedgerSource(ledger, context, utf8), DecodeOption(utf8);
    var logs := Scanner.LogsIn(src.chain, first, last);
    DecodeAllMember(decode, logs);
    MinedInMember(ledger, context, first, last);
    if forall l | l in logs :: decode(l).Some? {
      forall m | m in MinedIn(ledger, context, first, last) ensures utf8(m.entry.uri).Some? {
        BlockLogsMember(ledger, context, m.place.blockNumber);
        assert EncodeLog(Current, m.entry, m.place) in src.chain(m.place.blockNumber);
        LogsInMember(src.chain, first, last, EncodeLog(Current, m.entry, m.place));
        DecodesToRecord(utf8, m);
      }
    }
    if AllText(utf8, MinedIn(ledger, context, first, last)) {
      forall l | l in logs ensures decode(l).Some? {
        LogsInMember(src.chain, first, last, l);
        var b :| first <= b <= last && l in src.chain(b);
        BlockLogsMember(ledger, context, b);
        var m :| m in ledger && Reports(context, m, b, l);
        assert m in MinedIn(ledger, context, first, last);
        DecodesToRecord(utf8, m);
      }
    }
  }

  /** One selected entry whose URI is not UTF-8 stops the index at its block: no history of updates from a first
      block at or below it ever brings the checkpoint there, and no update that leaves no gap finishes there or
      later. */
  lemma {:induction false} NonTextStopsTheCheckpoint(ledger: seq<Mined>, log: seq<Entry>, utf8: Utf8,
                                                     context: ScanContext, first: int, top: int,
                                                     reqs: seq<Store.Request<RawLog>>, m: Mined)
    requires MinedFrom(ledger, log) && Encodable(ledger) && ValidFilter(context)
    requires m in ledger && utf8(m.entry.uri).None? && first <= m.place.blockNumber && Selects(context, m.entry)
    requires History(LedgerSource(ledger, context, utf8), context, first, top, reqs)
    ensures var checkpoint := RunAll(DecodeOption(utf8), reqs).checkpoint;
      LastBlock(checkpoint).Some? ==> LastBlock(checkpoint).value < m.place.blockNumber
    ensures forall last |
      && Fits(LedgerSource(ledger, context, utf8), context, first, top, last)
      && GoesOn(first, RunAll(DecodeOption(utf8), reqs), last)
      && Store.UpdateEventCache(RunAll(DecodeOption(utf8), reqs), DecodeOption(utf8), last).ending.Finished? ::
        last.toBlock < m.place.blockNumber
  {
    var src := LedgerSource(ledger, context, utf8);
    var files := RunAll(DecodeOption(utf8), reqs);
    hide EncodeLog, RecordFor, DecodeOption, BlockLogs, RunAll, WellFormedChain, History, MinedFrom, Encodable;
    hide CacheHolds;
    hide Store.UpdateEventCache, Fits, GoesOn, Store.ContextRecord;
    LedgerIsWellFormed(ledger, log, context, utf8);
    var es := CrashSafeResume(src, context, first, top, reqs);
    if LastBlock(files.checkpoint).Some? {
      CompleteStopsAt(ledger, context, utf8, first, LastBlock(files.checkpoint).value, es, m);
    }
    forall last |
      && Fits(src, context, first, top, last) && GoesOn(first, files, last)
      && Store.UpdateEventCache(files, src.decode, last).ending.Finished?
      ensures last.toBlock < m.place.blockNumber
    {
      var es' := UpdateKeeps(src, context, first, top, files, es, last);
      CompleteStopsAt(ledger, context, utf8, first, last.toBlock, es', m);
    }
  }

  lemma {:induction false} CompleteStopsAt(ledger: seq<Mined>, context: ScanContext, utf8: Utf8, first: int, last: int,
                                           es: seq<DocAttested>, m: Mined)
    requires Encodable(ledger) && ValidFilter(context) && m in ledger && utf8(m.entry.uri).None?
    requires first <= m.place.blockNumber && Selects(context, m.entry)
    requires Complete(LedgerSource(ledger, context, utf8), first, last, es)
    ensures last < m.place.blockNumber
  {
    hide EncodeLog, RecordFor, DecodeOption, BlockLogs;
    if m.place.blockNumber <= last {
      BlockLogsMember(ledger, context, m.place.blockNumber);
      assert EncodeLog(Current, m.entry, m.place) in LedgerSource(ledger, context, utf8).chain(m.place.blockNumber);
      DecodesToRecord(utf8, m);
      assert false;
    }
  }

  /** Nothing keeps such an entry out of a ledger: for any bytes within the cap that are not UTF-8 there is a run of
      the contract whose only log entry has them as its URI, wherever it is mined. */
  lemma NonTextCanBeMined(c: Crypto, self: Address, chainId: uint256, sender: Address, a: DocAttestation, utf8: Utf8,
                          place: Place) returns (txs: seq<Tx>, m: Mined)
    requires a.attester != ZERO_ADDRESS && |a.uri| <= MAX_URI_BYTES && utf8(a.uri).None?
    ensures MinedFrom([m], Run(c, Deploy(c.keccak, self, chainId), GENESIS, txs).log) && Encodable([m])
    ensures m.place == place && m.entry.uri == a.uri && utf8(m.entry.uri).None?
  {
    hide Run, Deploy, HashDocBlock;
    var env := AnyUriCanBeRecorded(c, self, chainId, sender, a);
    txs, m := [DocTx(env, Item(a, []))], Mined(Emitted(c.keccak, sender, a), place);
  }

  /** The loaded cache after a finished scan of a range of blocks: the record of each entry mined in it that the
      filter selects, once. */
  lemma {:induction false} LoadedIsLedger(ledger: seq<Mined>, log: seq<Entry>, context: ScanContext, utf8: Utf8,
                                          first: int, last: int, ideal: seq<DocAttested>)
    requires MinedFrom(ledger, log) && Encodable(ledger) && ValidFilter(context)
    requires var logs := Scanner.LogsIn(LedgerSource(ledger, context, utf8).chain, first, last);
      Scanner.DecodeAll(DecodeOption(utf8), logs) == Some(ideal)
    ensures AllText(utf8, MinedIn(ledger, context, first, last))
    ensures forall e :: e in DedupeEvents(ideal) <==> e in RecordsFor(utf8, MinedIn(ledger, context, first, last))
    ensures |DedupeEvents(ideal)| == |MinedIn(ledger, context, first, last)|
  {
    var src, mined := LedgerSource(ledger, context, utf8), MinedIn(ledger, context, first, last);
    var d := DedupeEvents(ideal);
    hide RecordFor, DedupeEvents, EventKey, EventLess, InChain, Scanner.DecodeAll, Scanner.LogsIn, MinedFrom;
    hide WellFormedChain, Complete, MinedIn, PlaceOf, BlockLogs, DecodeOption;
    DecodesExactlyText(ledger, context, utf8, first, last);
    var r := RecordsFor(utf8, mined);
    LedgerIsWellFormed(ledger, log, context, utf8);
    LedgerDistinct(ledger, log);
    MinedInDistinct(PlaceOf, ledger, context, first, last);
    MinedInMember(ledger, context, first, last);
    ChunkEvents(src, first, last, ideal);
    forall e ensures e in ideal <==> e in r {
      LedgerEvents(ledger, context, utf8, first, last, e);
      RecordsAreTheirs(utf8, mined);
    }
    DistinctIdeal(src, first, last, ideal);
    DedupeEventsResult(ideal);
    RecordsDistinct(utf8, mined);
    forall i, j | 0 <= i < j < |d| ensures d[i] != d[j] {
      assert EventKey(d[i]) != EventKey(d[j]);
    }
    SameLength(d, r);
  }

  /** Of a well-formed chain's events deduplication drops none. */
  lemma {:induction false} DistinctIdeal(src: EventSource<RawLog>, first: int, last: int, ideal: seq<DocAttested>)
    requires WellFormedChain(src) && forall e | e in ideal :: InChain(src, first, last, e)
    ensures forall e :: e in DedupeEvents(ideal) <==> e in ideal
  {
    hide InChain, EventKey, EventLess;
    ChainOrderValid();
    DedupedSet(ChainOrder(), ideal);
  }

  /** The contract's own URI cap makes the logs of a run encodable. */
  lemma LedgerOfRunIsEncodable(c: Crypto, self: Address, deployedOn: uint256, txs: seq<Tx>, ledger: seq<Mined>)
    requires MinedFrom(ledger, Run(c, Deploy(c.keccak, self, deployedOn), GENESIS, txs).log)
    ensures Encodable(ledger)
  {
    EveryRunIsSound(c, self, deployedOn, txs);
  }

  // ---- the theorem ----

  function EntryKeyOf(k: Keccak): Mined -> Bytes32 {
    (m: Mined) => EntryKey(k, m.entry)
  }

  /** The keys of mined entries, recomputed from their fields. */
  function MinedKeys(k: Keccak, mined: seq<Mined>): set<Bytes32> {
    KeySet(EntryKeyOf(k), mined)
  }

  /** The keys of the whole ledger are the contract's recorded keys, one for each entry. */
  lemma {:induction false} LedgerKeys(c: Crypto, st: State, ledger: seq<Mined>)
    requires SoundLog(c, st) && MinedFrom(ledger, st.log)
    ensures Distinct(EntryKeyOf(c.keccak), ledger) && MinedKeys(c.keccak, ledger) == st.recorded
  {
    hide EntryKey, PlaceOf;
    var k := c.keccak;
    forall key | key in MinedKeys(k, ledger) ensures key in st.recorded {
      var i :| 0 <= i < |ledger| && EntryKeyOf(k)(ledger[i]) == key;
      assert st.log[i] in st.log;
    }
    forall key | key in st.recorded ensures key in MinedKeys(k, ledger) {
      var i :| 0 <= i < |st.log| && EntryKey(k, st.log[i]) == key;
      assert EntryKeyOf(k)(ledger[i]) == key;
    }
  }

  lemma RecordRefInRange(utf8: Utf8, m: Mined)
    requires utf8(m.entry.uri).Some?
    ensures 0 <= RecordFor(utf8, m).docRef < 0x1_0000_0000_0000_0000
  {
  }

  lemma {:induction false} ListedKeys(k: Keccak, utf8: Utf8, mined: seq<Mined>, records: seq<DocAttested>)
    requires AllText(utf8, mined)
    requires forall r :: r in records <==> exists m | m in mined :: r == RecordFor(utf8, m)
    ensures forall r | r in records :: 0 <= r.docRef < 0x1_0000_0000_0000_0000
    ensures (set r | r in records :: RecordKey(k, r)) == MinedKeys(k, mined)
  {
    hide RecordFor, RecordKey, EntryKey;
    forall r | r in records
      ensures 0 <= r.docRef < 0x1_0000_0000_0000_0000 && RecordKey(k, r) in MinedKeys(k, mined)
    {
      var m :| m in mined && r == RecordFor(utf8, m);
      RecordRefInRange(utf8, m);
      RecordKeyIsEntryKey(k, utf8, m);
      KeySetMember(EntryKeyOf(k), mined, m);
    }
    forall key | key in MinedKeys(k, mined) ensures key in (set r | r in records :: RecordKey(k, r)) {
      var i :| 0 <= i < |mined| && EntryKeyOf(k)(mined[i]) == key;
      assert mined[i] in mined;
      RecordKeyIsEntryKey(k, utf8, mined[i]);
      assert RecordFor(utf8, mined[i]) in records;
    }
  }

  lemma IndexOfLoaded(events: seq<DocAttested>, about: Index.About)
    requires DedupeEvents(events) == events
    ensures |Index.BuildIndex(events, about).events| == |events| == Index.BuildIndex(events, about).eventCount
    ensures forall e :: e in Index.BuildIndex(events, about).events <==> e in events
  {
    Index.IndexPartition(events, about);
    var records := Index.BuildIndex(events, about).events;
    hide Index.BuildIndex, DedupeEvents;
    assert |multiset(records)| == |records| && |multiset(events)| == |events|;
    forall e ensures e in records <==> e in events {
      assert e in multiset(records) <==> e in multiset(events);
    }
  }

  /** For every run of the contract, wherever its logs were mined, every filter, every history of updates cut
      anywhere and every way the provider refuses: once an update that leaves no gap finishes at block N, every
      selected URI mined from the first block to N is text, the index lists exactly one record per claim mined there
      with the fields that the filter asks for, with the emitted fields, and the keys recomputed from the listed
      records are exactly those claims' recorded keys. Nothing is asked of what is mined before the first block or
      after N, or of what the filter leaves out. */
  lemma {:induction false} RecordedIsListed(
      c: Crypto, self: Address, deployedOn: uint256, txs: seq<Tx>, ledger: seq<Mined>, utf8: Utf8,
      context: ScanContext, first: int, reqs: seq<Store.Request<RawLog>>, last: Store.Request<RawLog>,
      about: Index.About)
    returns (index: Index.StaticIndex)
    requires MinedFrom(ledger, Run(c, Deploy(c.keccak, self, deployedOn), GENESIS, txs).log)
    requires Encodable(ledger) && ValidFilter(context)
    requires Fits(LedgerSource(ledger, context, utf8), context, first, last.toBlock, last)
    requires History(LedgerSource(ledger, context, utf8), context, first, last.toBlock, reqs)
    requires GoesOn(first, RunAll(DecodeOption(utf8), reqs), last)
    requires Store.UpdateEventCache(RunAll(DecodeOption(utf8), reqs), DecodeOption(utf8), last).ending.Finished?
    ensures var st := Run(c, Deploy(c.keccak, self, deployedOn), GENESIS, txs);
      var files := Store.UpdateEventCache(RunAll(DecodeOption(utf8), reqs), DecodeOption(utf8), last).files;
      var mined := MinedIn(ledger, context, first, last.toBlock);
      && AllText(utf8, mined)
      && Store.LoadEventCache(files.lines).Ok?
      && index == Index.BuildIndex(Store.LoadEventCache(files.lines).value, about)
      && index.eventCount == |index.events| == |mined| == |MinedKeys(c.keccak, mined)|
      && (forall r :: r in index.events <==> exists m | m in mined :: r == RecordFor(utf8, m))
      && (forall r | r in index.events :: 0 <= r.docRef < 0x1_0000_0000_0000_0000)
      && (set r | r in index.events :: RecordKey(c.keccak, r)) == MinedKeys(c.keccak, mined) <= st.recorded
  {
    var st := Run(c, Deploy(c.keccak, self, deployedOn), GENESIS, txs);
    var src, mined := LedgerSource(ledger, context, utf8), MinedIn(ledger, context, first, last.toBlock);
    hide Run, Store.UpdateEventCache, RunAll, RecordFor, RecordKey, EntryKey, WellFormedEntry, WitnessedWhenAppended;
    hide Fits;
    hide Encodable, Index.BuildIndex, DedupeEvents, Store.LoadEventCache, MinedFrom, Scanner.DecodeAll, Scanner.LogsIn;
    hide WellFormedChain, DecodeOption, History, GoesOn, MinedIn, SoundLog, KeySet, PlaceOf, BlockLogs;
    EveryRunIsSound(c, self, deployedOn, txs);
    LedgerIsWellFormed(ledger, st.log, context, utf8);
    FinishedCacheIsIdeal(src, context, first, reqs, last);
    var ideal := Scanner.DecodeAll(src.decode, Scanner.LogsIn(src.chain, first, last.toBlock)).value;
    LoadedIsLedger(ledger, st.log, context, utf8, first, last.toBlock, ideal);
    DedupeIdempotent(ideal);
    index := Index.BuildIndex(DedupeEvents(ideal), about);
    IndexOfLoaded(DedupeEvents(ideal), about);
    RecordsAreTheirs(utf8, mined);
    ListedKeys(c.keccak, utf8, mined, index.events);
    LedgerKeys(c, st, ledger);
    MinedInDistinct(EntryKeyOf(c.keccak), ledger, context, first, last.toBlock);
    KeySetCount(EntryKeyOf(c.keccak), mined);
    RangeKeys(c.keccak, ledger, context, first, last.toBlock);
  }

  lemma RangeKeys(k: Keccak, ledger: seq<Mined>, context: ScanContext, first: int, last: int)
    ensures MinedKeys(k, MinedIn(ledger, context, first, last)) <= MinedKeys(k, ledger)
  {
    hide MinedIn, EntryKey;
    var mined := MinedIn(ledger, context, first, last);
    MinedInMember(ledger, context, first, last);
    forall key | key in MinedKeys(k, mined) ensures key in MinedKeys(k, ledger) {
      var i :| 0 <= i < |mined| && EntryKeyOf(k)(mined[i]) == key;
      assert mined[i] in mined;
      KeySetMember(EntryKeyOf(k), ledger, mined[i]);
    }
  }

  /** In particular, once all of the contract's logs have been scanned without a filter, the index lists one record
      per recorded claim, and the keys recomputed from it are exactly the contract's recorded keys. */
  lemma {:induction false} EverythingIsListed(
      c: Crypto, self: Address, deployedOn: uint256, txs: seq<Tx>, ledger: seq<Mined>, utf8: Utf8,
      context: ScanContext, first: int, reqs: seq<Store.Request<RawLog>>, last: Store.Request<RawLog>,
      about: Index.About)
    returns (index: Index.StaticIndex)
    requires MinedFrom(ledger, Run(c, Deploy(c.keccak, self, deployedOn), GENESIS, txs).log)
    requires Encodable(ledger) && ValidFilter(context)
    requires Fits(LedgerSource(ledger, context, utf8), context, first, last.toBlock, last)
    requires History(LedgerSource(ledger, context, utf8), context, first, last.toBlock, reqs)
    requires GoesOn(first, RunAll(DecodeOption(utf8), reqs), last)
    requires Store.UpdateEventCache(RunAll(DecodeOption(utf8), reqs), DecodeOption(utf8), last).ending.Finished?
    requires SelectsAll(context) && forall m | m in ledger :: first <= m.place.blockNumber <= last.toBlock
    ensures var st := Run(c, Deploy(c.keccak, self, deployedOn), GENESIS, txs);
      var files := Store.UpdateEventCache(RunAll(DecodeOption(utf8), reqs), DecodeOption(utf8), last).files;
      && Store.LoadEventCache(files.lines).Ok?
      && index == Index.BuildIndex(Store.LoadEventCache(files.lines).value, about)
      && index.eventCount == |index.events| == |st.log| == |st.recorded|
      && (forall r | r in index.events :: 0 <= r.docRef < 0x1_0000_0000_0000_0000)
      && (set r | r in index.events :: RecordKey(c.keccak, r)) == st.recorded
  {
    var st := Run(c, Deploy(c.keccak, self, deployedOn), GENESIS, txs);
    hide Run, Store.UpdateEventCache, RunAll, RecordFor, RecordKey, EntryKey, WellFormedEntry, WitnessedWhenAppended;
    hide Fits;
    hide Encodable, Index.BuildIndex, Store.LoadEventCache, MinedFrom, DecodeOption, History, GoesOn, MinedIn, SoundLog;
    hide KeySet, PlaceOf, LedgerSource;
    index := RecordedIsListed(c, self, deployedOn, txs, ledger, utf8, context, first, reqs, last, about);
    EveryRunIsSound(c, self, deployedOn, txs);
    MinedInAll(ledger, context, first, last.toBlock);
    LedgerKeys(c, st, ledger);
    LedgerDistinct(ledger, st.log);
  }

  lemma RecordsAreTheirs(utf8: Utf8, ledger: seq<Mined>)
    requires AllText(utf8, ledger)
    ensures forall r :: r in RecordsFor(utf8, ledger) <==> exists m | m in ledger :: r == RecordFor(utf8, m)
  {
    hide RecordFor;
    forall r ensures r in RecordsFor(utf8, ledger) <==> exists m | m in ledger :: r == RecordFor(utf8, m) {
      if m :| m in ledger && r == RecordFor(utf8, m) {
        var i :| 0 <= i < |ledger| && ledger[i] == m;
        assert RecordsFor(utf8, ledger)[i] == r;
      }
    }
  }
}
