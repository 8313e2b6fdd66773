/** Event records: their cache form, their identity and their chain order. */
module Events {
  import opened Wrappers
  import opened Digits
  import opened Dedupe
  import opened Texts

  const ZERO_ADDRESS_TEXT: string := "0x0000000000000000000000000000000000000000"

  datatype DocAttested = DocAttested(
    docChainId: string, attester: string, docRef: int, onBehalfOf: string, submitter: string, parentHash: string,
    blockHash: string, contentHash: string, uriHash: string, uri: string, blockNumber: int,
    transactionHash: string, logIndex: int, ethereumBlockHash: string)

  // ---- cache records ----

  datatype Field =
    | DocChainId | Attester | DocRef | OnBehalfOf | Submitter | ParentHash | BlockHash | ContentHash | UriHash
    | Uri | BlockNumber | TransactionHash | LogIndex | EthereumBlockHash

  /** Fields may be spelled `snake_case` or `camelCase`; one-word names have the one spelling Snake. */
  datatype Name = Snake(field: Field) | Camel(field: Field)

  datatype Json = Text(s: string) | Number(n: int)

  type Record = map<Name, Json>

  datatype RecordError = MissingField(field: Field) | NotANumber(s: string)

  /** `str(value)` */
  function Str(j: Json): string {
    match j case Text(s) => s case Number(n) => Decimal(n)
  }

  predicate IsDecimal(s: string) {
    s != "" && forall i | 0 <= i < |s| :: '0' <= s[i] <= '9'
  }

  function ParseDecimal(s: string): nat
    requires forall i | 0 <= i < |s| :: '0' <= s[i] <= '9'
  {
    if s == "" then 0 else 10 * ParseDecimal(s[..|s| - 1]) + (s[|s| - 1] as int - '0' as int)
  }

  /** `int(value)` */
  function Int(j: Json): Result<int, RecordError> {
    match j
    case Number(n) => Ok(n)
    case Text(s) =>
      if IsDecimal(s) then Ok(ParseDecimal(s))
      else if s != "" && s[0] == '-' && IsDecimal(s[1..]) then var n: int := ParseDecimal(s[1..]); Ok(-n)
      else Err(NotANumber(s))
  }

  /** Falsy values of Python's `or`. */
  predicate Empty(j: Json) {
    j == Text("") || j == Number(0)
  }

  function GetField(raw: Record, f: Field): Result<Json, RecordError> {
    if Snake(f) in raw then Ok(raw[Snake(f)])
    else if Camel(f) in raw then Ok(raw[Camel(f)])
    else Err(MissingField(f))
  }

  function OptionalField(raw: Record, f: Field): Json {
    if Snake(f) in raw then raw[Snake(f)] else if Camel(f) in raw then raw[Camel(f)] else Text("")
  }

  function OneWordField(raw: Record, f: Field): Result<Json, RecordError> {
    if Snake(f) in raw then Ok(raw[Snake(f)]) else Err(MissingField(f))
  }

  /** `normalize_doc_attested` */
  function Normalize(raw: Record): Result<DocAttested, RecordError> {
    var docChainId :- GetField(raw, DocChainId);
    var attester :- OneWordField(raw, Attester);
    var docRefRaw :- GetField(raw, DocRef);
    var docRef :- Int(docRefRaw);
    var onBehalfOf := OptionalField(raw, OnBehalfOf);
    var submitter :- OneWordField(raw, Submitter);
    var parentHash :- GetField(raw, ParentHash);
    var blockHash :- GetField(raw, BlockHash);
    var contentHash :- GetField(raw, ContentHash);
    var uriHash :- GetField(raw, UriHash);
    var uri := if Snake(Uri) in raw then raw[Snake(Uri)] else Text("");
    var blockNumberRaw :- GetField(raw, BlockNumber);
    var blockNumber :- Int(blockNumberRaw);
    var transactionHash :- GetField(raw, TransactionHash);
    var logIndexRaw :- GetField(raw, LogIndex);
    var logIndex :- Int(logIndexRaw);
    Ok(DocAttested(
      Str(docChainId), Str(attester), docRef, if Empty(onBehalfOf) then ZERO_ADDRESS_TEXT else Str(onBehalfOf),
      Str(submitter), Str(parentHash), Str(blockHash), Str(contentHash), Str(uriHash), Str(uri), blockNumber,
      Str(transactionHash), logIndex, Str(OptionalField(raw, EthereumBlockHash))))
  }

  /** `event_cache_record`: the record's fields under their snake_case names. */
  function CacheRecord(e: DocAttested): Record {
    map[
      Snake(DocChainId) := Text(e.docChainId), Snake(Attester) := Text(e.attester), Snake(DocRef) := Number(e.docRef),
      Snake(OnBehalfOf) := Text(e.onBehalfOf), Snake(Submitter) := Text(e.submitter),
      Snake(ParentHash) := Text(e.parentHash), Snake(BlockHash) := Text(e.blockHash),
      Snake(ContentHash) := Text(e.contentHash), Snake(UriHash) := Text(e.uriHash), Snake(Uri) := Text(e.uri),
      Snake(BlockNumber) := Number(e.blockNumber), Snake(TransactionHash) := Text(e.transactionHash),
      Snake(LogIndex) := Number(e.logIndex), Snake(EthereumBlockHash) := Text(e.ethereumBlockHash)]
  }

  /** A cached event is read back as it was written, except that an empty `on_behalf_of` becomes the zero
      address; so exactly the events that name one survive the cache unchanged. */
  lemma {:induction false} CacheRecordRoundTrip(e: DocAttested)
    ensures Normalize(CacheRecord(e))
      == Ok(e.(onBehalfOf := if e.onBehalfOf == "" then ZERO_ADDRESS_TEXT else e.onBehalfOf))
    ensures Normalize(CacheRecord(e)) == Ok(e) <==> e.onBehalfOf != ""
  {
    var r := CacheRecord(e);
    assert GetField(r, DocChainId) == Ok(Text(e.docChainId)) && GetField(r, DocRef) == Ok(Number(e.docRef));
    assert GetField(r, ParentHash) == Ok(Text(e.parentHash)) && GetField(r, BlockHash) == Ok(Text(e.blockHash));
    assert GetField(r, ContentHash) == Ok(Text(e.contentHash)) && GetField(r, UriHash) == Ok(Text(e.uriHash));
    assert GetField(r, BlockNumber) == Ok(Number(e.blockNumber)) && GetField(r, LogIndex) == Ok(Number(e.logIndex));
    assert GetField(r, TransactionHash) == Ok(Text(e.transactionHash));
  }

  // ---- what a record may look like ----

  /** The value that a record has for a field: a two-word field under its snake_case name, and if that is absent under
      its camelCase name; a one-word field under its only name. */
  function Lookup(raw: Record, f: Field): Option<Json> {
    if Snake(f) in raw then Some(raw[Snake(f)])
    else if f in {Attester, Submitter, Uri} || Camel(f) !in raw then None
    else Some(raw[Camel(f)])
  }

  predicate Has(raw: Record, f: Field) {
    Lookup(raw, f).Some?
  }

  predicate HasNumber(raw: Record, f: Field) {
    Has(raw, f) && Int(Lookup(raw, f).value).Ok?
  }

  function OrMissing(value: Option<Json>, f: Field): Result<Json, RecordError> {
    if value.Some? then Ok(value.value) else Err(MissingField(f))
  }

  /** Fields with two spellings. */
  lemma {:induction false} TwoWordReads(raw: Record, f: Field)
    requires f !in {Attester, Submitter, Uri}
    ensures GetField(raw, f) == OrMissing(Lookup(raw, f), f)
    ensures OptionalField(raw, f) == if Has(raw, f) then Lookup(raw, f).value else Text("")
  {
  }

  /** All the fields of a record, as they are looked up. */
  lemma {:induction false} RecordReads(raw: Record)
    ensures GetField(raw, DocChainId) == OrMissing(Lookup(raw, DocChainId), DocChainId)
    ensures OneWordField(raw, Attester) == OrMissing(Lookup(raw, Attester), Attester)
    ensures GetField(raw, DocRef) == OrMissing(Lookup(raw, DocRef), DocRef)
    ensures OneWordField(raw, Submitter) == OrMissing(Lookup(raw, Submitter), Submitter)
    ensures GetField(raw, ParentHash) == OrMissing(Lookup(raw, ParentHash), ParentHash)
    ensures GetField(raw, BlockHash) == OrMissing(Lookup(raw, BlockHash), BlockHash)
    ensures GetField(raw, ContentHash) == OrMissing(Lookup(raw, ContentHash), ContentHash)
    ensures GetField(raw, UriHash) == OrMissing(Lookup(raw, UriHash), UriHash)
    ensures GetField(raw, BlockNumber) == OrMissing(Lookup(raw, BlockNumber), BlockNumber)
    ensures GetField(raw, TransactionHash) == OrMissing(Lookup(raw, TransactionHash), TransactionHash)
    ensures GetField(raw, LogIndex) == OrMissing(Lookup(raw, LogIndex), LogIndex)
    ensures OptionalField(raw, OnBehalfOf) == if Has(raw, OnBehalfOf) then Lookup(raw, OnBehalfOf).value else Text("")
    ensures OptionalField(raw, EthereumBlockHash)
      == if Has(raw, EthereumBlockHash) then Lookup(raw, EthereumBlockHash).value else Text("")
    ensures (if Snake(Uri) in raw then raw[Snake(Uri)] else Text(""))
      == if Has(raw, Uri) then Lookup(raw, Uri).value else Text("")
  {
    TwoWordReads(raw, DocChainId);
    TwoWordReads(raw, DocRef);
    TwoWordReads(raw, ParentHash);
    TwoWordReads(raw, BlockHash);
    TwoWordReads(raw, ContentHash);
    TwoWordReads(raw, UriHash);
    TwoWordReads(raw, BlockNumber);
    TwoWordReads(raw, TransactionHash);
    TwoWordReads(raw, LogIndex);
    TwoWordReads(raw, OnBehalfOf);
    TwoWordReads(raw, EthereumBlockHash);
    hide GetField, OptionalField;
  }

  /** Exactly which records are read as events: all fields but three are there, and three of them are numbers. Of the
      optional ones an absent or empty `on_behalf_of` is the zero address, and the others are empty if absent. */
  lemma {:induction false} NormalizeAccepts(raw: Record)
    ensures Normalize(raw).Ok? <==>
      && HasNumber(raw, DocRef) && HasNumber(raw, BlockNumber) && HasNumber(raw, LogIndex)
      && Has(raw, DocChainId) && Has(raw, Attester) && Has(raw, Submitter) && Has(raw, ParentHash)
      && Has(raw, BlockHash) && Has(raw, ContentHash) && Has(raw, UriHash) && Has(raw, TransactionHash)
    ensures Normalize(raw).Ok? ==>
      var e := Normalize(raw).value;
      && (Lookup(raw, OnBehalfOf) in {None, Some(Text("")), Some(Number(0))} ==>
            e.onBehalfOf == "0x0000000000000000000000000000000000000000")
      && (Lookup(raw, Uri) == None ==> e.uri == "")
      && (Lookup(raw, EthereumBlockHash) == None ==> e.ethereumBlockHash == "")
  {
    RecordReads(raw);
    hide Int, Lookup, GetField, OneWordField, OptionalField;
  }

  /** The spelling of the names does not matter, nor anything that is not looked up: records with the same values are
      read alike, errors included. Where both spellings are present the camelCase one is ignored. */
  lemma {:induction false} SpellingDoesNotMatter(raw: Record, other: Record)
    requires forall f :: Lookup(raw, f) == Lookup(other, f)
    ensures Normalize(raw) == Normalize(other)
  {
    RecordReads(raw);
    RecordReads(other);
    hide Int, Lookup, GetField, OneWordField, OptionalField, Str, Empty, OrMissing;
  }

  /** The value of an event's field, as its cache record holds it. */
  function ValueOf(e: DocAttested, f: Field): Json {
    match f
    case DocChainId => Text(e.docChainId)
    case Attester => Text(e.attester)
    case DocRef => Number(e.docRef)
    case OnBehalfOf => Text(e.onBehalfOf)
    case Submitter => Text(e.submitter)
    case ParentHash => Text(e.parentHash)
    case BlockHash => Text(e.blockHash)
    case ContentHash => Text(e.contentHash)
    case UriHash => Text(e.uriHash)
    case Uri => Text(e.uri)
    case BlockNumber => Number(e.blockNumber)
    case TransactionHash => Text(e.transactionHash)
    case LogIndex => Number(e.logIndex)
    case EthereumBlockHash => Text(e.ethereumBlockHash)
  }

  /** The field has the value, a number perhaps as its decimal text. */
  predicate Means(raw: Record, f: Field, value: Json) {
    Lookup(raw, f) == Some(value) || (value.Number? && Lookup(raw, f) == Some(Text(Decimal(value.n))))
  }

  /** So any record that holds the values of an event, its numbers as numbers or as their decimal texts, under names of
      either spelling, is read as that event. */
  lemma {:induction false} AnySpellingIsRead(e: DocAttested, raw: Record)
    requires e.onBehalfOf != "" && forall f :: Means(raw, f, ValueOf(e, f))
    ensures Normalize(raw) == Ok(e)
  {
    hide Lookup, GetField, OneWordField, OptionalField, Int, Means;
    assert Means(raw, DocRef, ValueOf(e, DocRef)) && Means(raw, BlockNumber, ValueOf(e, BlockNumber));
    assert Means(raw, LogIndex, ValueOf(e, LogIndex));
    TextMeans(raw, e);
    NumberMeans(raw, DocRef, e.docRef);
    NumberMeans(raw, BlockNumber, e.blockNumber);
    NumberMeans(raw, LogIndex, e.logIndex);
    hide ValueOf;
    RecordReads(raw);
  }

  lemma NumberMeans(raw: Record, f: Field, n: int)
    requires Means(raw, f, Number(n))
    ensures HasNumber(raw, f) && Int(Lookup(raw, f).value) == Ok(n)
  {
    NumberAsText(n);
    hide Lookup, Decimal, IsDecimal, ParseDecimal;
  }

  lemma TextMeans(raw: Record, e: DocAttested)
    requires forall f :: Means(raw, f, ValueOf(e, f))
    ensures Lookup(raw, DocChainId) == Some(Text(e.docChainId)) && Lookup(raw, Attester) == Some(Text(e.attester))
    ensures Lookup(raw, OnBehalfOf) == Some(Text(e.onBehalfOf)) && Lookup(raw, Submitter) == Some(Text(e.submitter))
    ensures Lookup(raw, ParentHash) == Some(Text(e.parentHash)) && Lookup(raw, BlockHash) == Some(Text(e.blockHash))
    ensures Lookup(raw, ContentHash) == Some(Text(e.contentHash)) && Lookup(raw, UriHash) == Some(Text(e.uriHash))
    ensures Lookup(raw, Uri) == Some(Text(e.uri)) && Lookup(raw, TransactionHash) == Some(Text(e.transactionHash))
    ensures Lookup(raw, EthereumBlockHash) == Some(Text(e.ethereumBlockHash))
  {
    hide Lookup, Decimal;
    assert Means(raw, DocChainId, ValueOf(e, DocChainId)) && Means(raw, Attester, ValueOf(e, Attester));
    assert Means(raw, OnBehalfOf, ValueOf(e, OnBehalfOf)) && Means(raw, Submitter, ValueOf(e, Submitter));
    assert Means(raw, ParentHash, ValueOf(e, ParentHash)) && Means(raw, BlockHash, ValueOf(e, BlockHash));
    assert Means(raw, ContentHash, ValueOf(e, ContentHash)) && Means(raw, UriHash, ValueOf(e, UriHash));
    assert Means(raw, Uri, ValueOf(e, Uri)) && Means(raw, TransactionHash, ValueOf(e, TransactionHash));
    assert Means(raw, EthereumBlockHash, ValueOf(e, EthereumBlockHash));
  }

  /** A number's decimal text is read as the number. */
  lemma {:induction false} NumberAsText(n: int)
    ensures Int(Text(Decimal(n))) == Ok(n)
  {
    hide Decimal, DecimalNat, ParseDecimal, IsDecimal;
    if n < 0 {
      DecimalTail(n);
      DecimalSign(n);
      ParseOfDecimal(-n);
      SignedIsNotPlain(Decimal(n));
    } else {
      DecimalPlain(n);
      ParseOfDecimal(n);
    }
  }

  lemma SignedIsNotPlain(s: string)
    requires s != "" && s[0] == '-'
    ensures !IsDecimal(s)
  {
  }

  lemma DigitCode(d: nat)
    requires d < 10
    ensures HEX_DIGITS[d] as int - '0' as int == d
  {
  }

  lemma {:induction false} ParseOfDecimal(n: nat)
    ensures IsDecimal(DecimalNat(n)) && ParseDecimal(DecimalNat(n)) == n
  {
    var s := DecimalNat(n);
    if n >= 10 {
      ParseOfDecimal(n / 10);
      assert s[..|s| - 1] == DecimalNat(n / 10);
      DigitCode(n % 10);
      assert s[|s| - 1] == HEX_DIGITS[n % 10];
    } else {
      DigitCode(n);
      assert s[..0] == "" && ParseDecimal("") == 0;
    }
  }

  // ---- identity ----

  /** `event_key` */
  function EventKey(e: DocAttested): string {
    Lower(e.transactionHash) + ":" + Decimal(e.logIndex)
  }

  /** The text key identifies the lower-cased transaction and the log index: the last colon is the separator. */
  lemma EventKeyInjective(a: DocAttested, b: DocAttested)
    ensures EventKey(a) == EventKey(b)
      <==> Lower(a.transactionHash) == Lower(b.transactionHash) && a.logIndex == b.logIndex
  {
    if EventKey(a) == EventKey(b) {
      hide Decimal, Lower;
      DecimalHasNoColon(a.logIndex);
      DecimalHasNoColon(b.logIndex);
      LastColon(Lower(a.transactionHash), Decimal(a.logIndex), Lower(b.transactionHash), Decimal(b.logIndex));
      DecimalInjective(a.logIndex, b.logIndex);
    }
  }

  lemma LastColon(s: string, d: string, t: string, e: string)
    requires s + ":" + d == t + ":" + e
    requires forall i | 0 <= i < |d| :: d[i] != ':'
    requires forall i | 0 <= i < |e| :: e[i] != ':'
    ensures s == t && d == e
  {
    var u := s + ":" + d;
    assert u[|s|] == ':' && u[|t|] == ':';
    assert u[..|s|] == s && u[..|t|] == t && u[|s| + 1..] == d && u[|t| + 1..] == e;
  }

  // ---- chain order ----

  /** Order of the sort key (block number, log index, lower-cased transaction hash). */
  predicate EventLess(a: DocAttested, b: DocAttested) {
    || a.blockNumber < b.blockNumber
    || (a.blockNumber == b.blockNumber && a.logIndex < b.logIndex)
    || (a.blockNumber == b.blockNumber && a.logIndex == b.logIndex
        && TextLess(Lower(a.transactionHash), Lower(b.transactionHash)))
  }

  function ChainOrder(): Order<DocAttested, string> {
    Order(EventLess, EventKey)
  }

  /** Events that sort alike agree on block, log index and lower-cased transaction hash. */
  lemma AlikeEvents(a: DocAttested, b: DocAttested)
    requires !EventLess(a, b) && !EventLess(b, a)
    ensures a.blockNumber == b.blockNumber && a.logIndex == b.logIndex
    ensures Lower(a.transactionHash) == Lower(b.transactionHash)
  {
    TextLessTotal(Lower(a.transactionHash), Lower(b.transactionHash));
  }

  lemma EventLessNegTransitive(a: DocAttested, b: DocAttested, c: DocAttested)
    requires !EventLess(a, b) && !EventLess(b, c)
    ensures !EventLess(a, c)
  {
    TextLessStrictWeak();
    var x, y, z := Lower(a.transactionHash), Lower(b.transactionHash), Lower(c.transactionHash);
    assert !TextLess(x, y) && !TextLess(y, z) ==> !TextLess(x, z);
  }

  /** Chain order is a strict weak order whose ties have equal keys: all of the deduplication results apply. */
  lemma ChainOrderValid()
    ensures Valid(ChainOrder())
  {
    forall a ensures !EventLess(a, a) { TextLessIrreflexive(Lower(a.transactionHash)); }
    forall a, b, c | EventLess(a, b) && EventLess(b, c) ensures EventLess(a, c) {
      if TextLess(Lower(a.transactionHash), Lower(b.transactionHash))
        && TextLess(Lower(b.transactionHash), Lower(c.transactionHash))
      {
        TextLessTransitive(Lower(a.transactionHash), Lower(b.transactionHash), Lower(c.transactionHash));
      }
    }
    forall a, b, c | !EventLess(a, b) && !EventLess(b, c) ensures !EventLess(a, c) { EventLessNegTransitive(a, b, c); }
    forall a, b ensures EventLess(a, b) || EventLess(b, a) || EventKey(a) == EventKey(b) {
      if !EventLess(a, b) && !EventLess(b, a) { AlikeEvents(a, b); }
    }
  }

  function SortEvents(events: seq<DocAttested>): seq<DocAttested> {
    Sort(EventLess, events)
  }

  function DedupeEvents(events: seq<DocAttested>): seq<DocAttested> {
    Deduped(ChainOrder(), events)
  }

  /** `dedupe_events`: a seen-set over the sorted events. */
  method DedupeLoop(events: seq<DocAttested>) returns (deduped: seq<DocAttested>)
    ensures deduped == DedupeEvents(events)
  {
    var sorted := SortEvents(events);
    var seen: set<string> := {};
    deduped := [];
    for i := 0 to |sorted|
      invariant deduped + Keep(EventKey, sorted[i..], seen) == Keep(EventKey, sorted, {})
    {
      var key := EventKey(sorted[i]);
      KeepStep(EventKey, deduped, sorted, i, seen);
      if key in seen { continue; }
      seen := seen + {key};
      deduped := deduped + [sorted[i]];
    }
  }

  // ---- what that means for events ----

  /** The events stand in chain order, field by field: by block, within a block by log index, and of events that agree
      on both by lower-cased transaction hash; `strictly` excludes events that agree on all three. */
  ghost predicate Ascending(events: seq<DocAttested>, strictly: bool) {
    forall i, j | 0 <= i < j < |events| ::
      && events[i].blockNumber <= events[j].blockNumber
      && (events[i].blockNumber == events[j].blockNumber ==> events[i].logIndex <= events[j].logIndex)
      && (events[i].blockNumber == events[j].blockNumber && events[i].logIndex == events[j].logIndex ==>
            var s, t := Lower(events[i].transactionHash), Lower(events[j].transactionHash);
            TextLess(s, t) || (!strictly && s == t))
  }

  lemma SortedAscends(events: seq<DocAttested>)
    requires Sorted(EventLess, events)
    ensures Ascending(events, false)
  {
    hide TextLess, Lower;
    forall i, j | 0 <= i < j < |events| ensures !EventLess(events[j], events[i]) {
    }
    forall s, t ensures TextLess(s, t) || TextLess(t, s) || s == t { TextLessTotal(s, t); }
  }

  lemma StrictlySortedAscends(events: seq<DocAttested>)
    requires StrictlySorted(EventLess, events)
    ensures Ascending(events, true)
  {
    hide TextLess, Lower;
    forall i, j | 0 <= i < j < |events| ensures EventLess(events[i], events[j]) {
    }
  }

  /** `sort_events` puts the events it is given in chain order. */
  lemma SortEventsResult(events: seq<DocAttested>)
    ensures Ascending(SortEvents(events), false)
    ensures multiset(SortEvents(events)) == multiset(events)
  {
    ChainOrderValid();
    SortSorts(EventLess, events);
    SortedAscends(SortEvents(events));
  }

  /** Of two events with one key the one of the lower block sorts first. */
  lemma SameKeyOrder(a: DocAttested, b: DocAttested)
    requires EventKey(a) == EventKey(b)
    ensures EventLess(a, b) <==> a.blockNumber < b.blockNumber
  {
    EventKeyInjective(a, b);
    TextLessIrreflexive(Lower(a.transactionHash));
  }

  /** `dedupe_events` is strictly increasing in chain order, no transaction log occurs twice, and of the events
      with one key it keeps one of the lowest block, which no other precedes. */
  lemma DedupeEventsResult(events: seq<DocAttested>)
    ensures var d := DedupeEvents(events);
      && StrictlySorted(EventLess, d)
      && Ascending(d, true)
      && Distinct(EventKey, d)
      && (forall e | e in d :: e in events)
      && (forall e, x | e in d && x in events && EventKey(x) == EventKey(e) ::
            !EventLess(x, e) && e.blockNumber <= x.blockNumber)
      && forall x | x in events :: exists e | e in d :: EventKey(e) == EventKey(x)
  {
    var o, d := ChainOrder(), DedupeEvents(events);
    ChainOrderValid();
    DedupedKeepsEarliest(o, events);
    StrictlySortedAscends(d);
    hide EventKey, EventLess, Ascending;
    forall e | e in d
      ensures e in events
      ensures forall x | x in events && EventKey(x) == EventKey(e) :: !EventLess(x, e) && e.blockNumber <= x.blockNumber
    {
      FirstOfMember(EventKey, d, e);
      EarliestIsLeast(o, events, EventKey(e));
      forall x | x in events && EventKey(x) == EventKey(e) ensures e.blockNumber <= x.blockNumber {
        SameKeyOrder(x, e);
      }
    }
    forall x | x in events ensures exists e | e in d :: EventKey(e) == EventKey(x) {
      EarliestIsLeast(o, events, EventKey(x));
      assert First(EventKey, d, EventKey(x)) == Earliest(o, events, EventKey(x));
      FirstIn(EventKey, d, EventKey(x));
    }
  }

  /** Caches merge: deduplicating the concatenation is deduplicating the deduplicated halves. */
  lemma DedupeEventsMerge(xs: seq<DocAttested>, ys: seq<DocAttested>)
    ensures DedupeEvents(xs + ys) == DedupeEvents(DedupeEvents(xs) + DedupeEvents(ys))
  {
    ChainOrderValid();
    DedupedConcat(ChainOrder(), xs, ys);
  }

  /** Events that share a key are the same event. */
  ghost predicate Consistent(events: iset<DocAttested>) {
    forall a, b | a in events && b in events && EventKey(a) == EventKey(b) :: a == b
  }

  /** Of consistent events only the set matters. */
  lemma DedupeEventsOfSameSet(xs: seq<DocAttested>, ys: seq<DocAttested>)
    requires forall e :: e in xs <==> e in ys
    requires Consistent(iset e | e in xs)
    ensures DedupeEvents(xs) == DedupeEvents(ys)
  {
    ChainOrderValid();
    forall x, y | x in xs && y in xs && !EventLess(x, y) && !EventLess(y, x) ensures x == y {
      AlikeEvents(x, y);
    }
    DedupedIgnoresOrder(ChainOrder(), xs, ys);
  }
}
