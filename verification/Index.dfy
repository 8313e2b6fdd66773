/** The static index: sorted records, grouped by document reference. A record holds the fields of an event
    under their index names, so events stand for their records. */
module Index {
  import opened Wrappers
  import opened Digits
  import opened Dedupe
  import opened Texts
  import opened Events

  datatype Group = Group(
    docRef: string, candidateCount: nat, blockHashes: seq<string>, contentHashes: seq<string>, events: seq<DocAttested>)

  const SCHEMA := "docchain-index-v1"

  /** What the caller says about the scan; it is copied into the index. */
  datatype Metadata = Metadata(
    network: string, chainId: Option<int>, contractAddress: string, docChainId: string, profileUri: string,
    fromBlock: Option<int>, toBlock: Option<int>, latestChainBlock: Option<int>, confirmations: int)

  datatype StaticIndex = StaticIndex(
    schema: string, metadata: Metadata, indexedAt: string, eventCount: nat, docRefCount: nat, docRefs: seq<Group>,
    events: seq<DocAttested>)

  /** Everything `build_docchain_index` is given besides the events, and the clock it may read. */
  datatype About = About(metadata: Metadata, indexedAt: Option<string>, now: string)

  /** `indexed_at or utc_now()` */
  function Stamp(about: About): string {
    if about.indexedAt.Some? && about.indexedAt.value != "" then about.indexedAt.value else about.now
  }

  /** Order of the record sort key (document reference, block, log index, transaction hash). */
  predicate RecordLess(a: DocAttested, b: DocAttested) {
    || a.docRef < b.docRef
    || (a.docRef == b.docRef && a.blockNumber < b.blockNumber)
    || (a.docRef == b.docRef && a.blockNumber == b.blockNumber && a.logIndex < b.logIndex)
    || (a.docRef == b.docRef && a.blockNumber == b.blockNumber && a.logIndex == b.logIndex
        && TextLess(a.transactionHash, b.transactionHash))
  }

  lemma RecordOrder()
    ensures StrictWeak(RecordLess)
  {
    TextLessStrictWeak();
    hide TextLess;
    forall a, b, c | RecordLess(a, b) && RecordLess(b, c) ensures RecordLess(a, c) {
      var x, y, z := a.transactionHash, b.transactionHash, c.transactionHash;
      assert TextLess(x, y) && TextLess(y, z) ==> TextLess(x, z);
    }
    forall a, b, c | !RecordLess(a, b) && !RecordLess(b, c) ensures !RecordLess(a, c) {
      var x, y, z := a.transactionHash, b.transactionHash, c.transactionHash;
      assert !TextLess(x, y) && !TextLess(y, z) ==> !TextLess(x, z);
    }
  }

  function RefText(e: DocAttested): string {
    Decimal(e.docRef)
  }

  /** `sorted(set(texts))` */
  function SortedSet(texts: seq<string>): seq<string> {
    Deduped(Order(TextLess, (s: string) => s), texts)
  }

  function RefTexts(records: seq<DocAttested>): (r: seq<string>)
    ensures |r| == |records| && forall i | 0 <= i < |r| :: r[i] == RefText(records[i])
  {
    seq(|records|, i requires 0 <= i < |records| => RefText(records[i]))
  }

  function BlockHashes(records: seq<DocAttested>): (r: seq<string>)
    ensures |r| == |records| && forall i | 0 <= i < |r| :: r[i] == records[i].blockHash
  {
    seq(|records|, i requires 0 <= i < |records| => records[i].blockHash)
  }

  function ContentHashes(records: seq<DocAttested>): (r: seq<string>)
    ensures |r| == |records| && forall i | 0 <= i < |r| :: r[i] == records[i].contentHash
  {
    seq(|records|, i requires 0 <= i < |records| => records[i].contentHash)
  }

  /** The records with one reference text, in order. */
  function WithRef(records: seq<DocAttested>, text: string): (r: seq<DocAttested>) {
    if records == [] then []
    else
      var n := |records| - 1;
      WithRef(records[..n], text) + if RefText(records[n]) == text then [records[n]] else []
  }

  function GroupOf(group: seq<DocAttested>, text: string): Group {
    Group(text, |group|, SortedSet(BlockHashes(group)), SortedSet(ContentHashes(group)), group)
  }

  function Groups(records: seq<DocAttested>, texts: seq<string>): (r: seq<Group>)
    ensures |r| == |texts| && forall i | 0 <= i < |r| :: r[i] == GroupOf(WithRef(records, texts[i]), texts[i])
  {
    seq(|texts|, i requires 0 <= i < |texts| => GroupOf(WithRef(records, texts[i]), texts[i]))
  }

  function IndexOf(records: seq<DocAttested>, about: About): StaticIndex {
    var texts := SortedSet(RefTexts(records));
    StaticIndex(SCHEMA, about.metadata, Stamp(about), |records|, |texts|, Groups(records, texts), records)
  }

  /** `build_docchain_index` */
  function BuildIndex(events: seq<DocAttested>, about: About): StaticIndex {
    IndexOf(Sort(RecordLess, DedupeEvents(events)), about)
  }

  /** The dictionary that `by_ref` is after some records: every seen reference text with its records. */
  ghost predicate ByRef(byRef: map<string, seq<DocAttested>>, records: seq<DocAttested>) {
    forall text :: (text in byRef <==> WithRef(records, text) != [])
      && (text in byRef ==> byRef[text] == WithRef(records, text))
  }

  method GroupByRef(records: seq<DocAttested>) returns (byRef: map<string, seq<DocAttested>>)
    ensures ByRef(byRef, records)
  {
    byRef := map[];
    for i := 0 to |records|
      invariant ByRef(byRef, records[..i])
    {
      hide WithRef, RefText;
      var text := RefText(records[i]);
      WithRefSnoc(records, i);
      byRef := byRef[text := (if text in byRef then byRef[text] else []) + [records[i]]];
    }
    assert records[..|records|] == records;
  }

  lemma WithRefSnoc(records: seq<DocAttested>, i: nat)
    requires i < |records|
    ensures forall text ::
      WithRef(records[..i + 1], text)
      == (if RefText(records[i]) == text then WithRef(records[..i], text) + [records[i]]
          else WithRef(records[..i], text))
  {
    assert records[..i + 1][..i] == records[..i] && records[..i + 1][i] == records[i];
  }

  method BuildIndexLoop(events: seq<DocAttested>, about: About) returns (index: StaticIndex)
    ensures index == BuildIndex(events, about)
  {
    var deduped := DedupeLoop(events);
    var records := Sort(RecordLess, deduped);
    hide Sort, RecordLess, DedupeEvents, SortedSet, RefText, WithRef;
    var byRef := GroupByRef(records);
    var texts := SortedSet(RefTexts(records));
    var docRefs := [];
    for i := 0 to |texts|
      invariant docRefs == Groups(records, texts[..i])
    {
      hide GroupOf;
      RefTextSeen(records, texts[i]);
      docRefs := docRefs + [GroupOf(byRef[texts[i]], texts[i])];
    }
    assert texts[..|texts|] == texts;
    index := StaticIndex(SCHEMA, about.metadata, Stamp(about), |records|, |docRefs|, docRefs, records);
  }

  // ---- what the index says ----

  lemma SortedSetFacts(texts: seq<string>)
    ensures StrictlySorted(TextLess, SortedSet(texts))
    ensures forall t :: t in SortedSet(texts) <==> t in texts
  {
    TextLessStrictWeak();
    var o := Order(TextLess, (s: string) => s);
    forall a, b ensures TextLess(a, b) || TextLess(b, a) || o.key(a) == o.key(b) { TextLessTotal(a, b); }
    DedupedKeepsEarliest(o, texts);
    DedupedSet(o, texts);
  }

  lemma RefTextSeen(records: seq<DocAttested>, text: string)
    ensures text in SortedSet(RefTexts(records)) <==> WithRef(records, text) != []
  {
    SortedSetFacts(RefTexts(records));
    WithRefMember(records, text);
    if text in RefTexts(records) {
      var i :| 0 <= i < |records| && RefTexts(records)[i] == text;
      assert records[i] in records && RefText(records[i]) == text;
    }
    if WithRef(records, text) != [] {
      var e := WithRef(records, text)[0];
      assert e in WithRef(records, text);
      var i :| 0 <= i < |records| && records[i] == e;
      assert RefTexts(records)[i] == text;
    }
  }

  lemma {:induction false} WithRefMember(records: seq<DocAttested>, text: string)
    ensures forall e :: e in WithRef(records, text) <==> e in records && RefText(e) == text
  {
    if records != [] {
      WithRefMember(records[..|records| - 1], text);
      assert records == records[..|records| - 1] + [records[|records| - 1]];
    }
  }

  // ---- every record is in exactly one group ----

  function TotalCount(groups: seq<Group>): nat {
    if groups == [] then 0 else groups[0].candidateCount + TotalCount(groups[1..])
  }

  function WithoutRef(records: seq<DocAttested>, text: string): (r: seq<DocAttested>) {
    if records == [] then []
    else
      var n := |records| - 1;
      if RefText(records[n]) == text then WithoutRef(records[..n], text)
      else WithoutRef(records[..n], text) + [records[n]]
  }

  lemma {:induction false} WithAndWithout(records: seq<DocAttested>, text: string)
    ensures |WithRef(records, text)| + |WithoutRef(records, text)| == |records|
    ensures forall e :: e in WithoutRef(records, text) <==> e in records && RefText(e) != text
  {
    if records != [] {
      WithAndWithout(records[..|records| - 1], text);
      assert records == records[..|records| - 1] + [records[|records| - 1]];
    }
  }

  lemma {:induction false} WithoutKeepsOthers(records: seq<DocAttested>, text: string, other: string)
    requires text != other
    ensures WithRef(WithoutRef(records, text), other) == WithRef(records, other)
  {
    if records != [] {
      var n := |records| - 1;
      WithoutKeepsOthers(records[..n], text, other);
      var w := WithoutRef(records[..n], text);
      if RefText(records[n]) != text { assert (w + [records[n]])[..|w|] == w; }
    }
  }

  lemma {:induction false} GroupsCountAll(records: seq<DocAttested>, texts: seq<string>)
    requires forall e | e in records :: RefText(e) in texts
    requires forall i, j | 0 <= i < j < |texts| :: texts[i] != texts[j]
    ensures TotalCount(Groups(records, texts)) == |records|
    decreases |texts|
  {
    hide RefText, SortedSet;
    if texts == [] {
      EmptyOrMember(records);
    } else {
      var others := WithoutRef(records, texts[0]);
      WithAndWithout(records, texts[0]);
      GroupsCountAll(others, texts[1..]);
      assert Groups(records, texts)[1..] == Groups(others, texts[1..]) by {
        forall i | 0 <= i < |texts| - 1 ensures WithRef(others, texts[1..][i]) == WithRef(records, texts[i + 1]) {
          WithoutKeepsOthers(records, texts[0], texts[i + 1]);
        }
      }
      assert Groups(records, texts)[0].candidateCount == |WithRef(records, texts[0])|;
    }
  }

  /** The events of one document reference, by number. */
  function Candidates(records: seq<DocAttested>, docRef: int): (r: seq<DocAttested>) {
    if records == [] then []
    else
      var n := |records| - 1;
      Candidates(records[..n], docRef) + if records[n].docRef == docRef then [records[n]] else []
  }

  lemma {:induction false} GroupIsCandidates(records: seq<DocAttested>, docRef: int)
    ensures WithRef(records, Decimal(docRef)) == Candidates(records, docRef)
  {
    hide Decimal;
    if records != [] {
      var n := |records| - 1;
      GroupIsCandidates(records[..n], docRef);
      if RefText(records[n]) == Decimal(docRef) { DecimalInjective(records[n].docRef, docRef); }
    }
  }

  /** A group of the index of some records is right for them. */
  ghost predicate GroupHolds(g: Group, records: seq<DocAttested>) {
    && g.events == WithRef(records, g.docRef) && g.events != []
    && (exists docRef :: g.docRef == Decimal(docRef) && g.events == Candidates(records, docRef))
    && g.candidateCount == |g.events|
    && StrictlySorted(TextLess, g.blockHashes)
      && (forall h :: h in g.blockHashes <==> exists e | e in g.events :: e.blockHash == h)
    && StrictlySorted(TextLess, g.contentHashes)
      && (forall h :: h in g.contentHashes <==> exists e | e in g.events :: e.contentHash == h)
  }

  lemma HashLists(group: seq<DocAttested>)
    ensures forall h :: h in SortedSet(BlockHashes(group)) <==> exists e | e in group :: e.blockHash == h
    ensures forall h :: h in SortedSet(ContentHashes(group)) <==> exists e | e in group :: e.contentHash == h
  {
    hide SortedSet, TextLess;
    SortedSetFacts(BlockHashes(group));
    SortedSetFacts(ContentHashes(group));
    forall h ensures h in BlockHashes(group) <==> exists e | e in group :: e.blockHash == h {
      if e :| e in group && e.blockHash == h {
        var i :| 0 <= i < |group| && group[i] == e;
        assert BlockHashes(group)[i] == h;
      }
    }
    forall h ensures h in ContentHashes(group) <==> exists e | e in group :: e.contentHash == h {
      if e :| e in group && e.contentHash == h {
        var i :| 0 <= i < |group| && group[i] == e;
        assert ContentHashes(group)[i] == h;
      }
    }
  }

  lemma GroupIsRight(records: seq<DocAttested>, text: string)
    requires text in SortedSet(RefTexts(records))
    ensures GroupHolds(GroupOf(WithRef(records, text), text), records)
  {
    var group := WithRef(records, text);
    RefTextSeen(records, text);
    WithRefMember(records, text);
    assert group[0] in group;
    GroupIsCandidates(records, group[0].docRef);
    hide TextLess, SortedSet, Candidates, WithRef;
    SortedSetFacts(BlockHashes(group));
    SortedSetFacts(ContentHashes(group));
    HashLists(group);
    assert text == Decimal(group[0].docRef) && group == Candidates(records, group[0].docRef);
  }

  lemma GroupsAreRight(records: seq<DocAttested>, texts: seq<string>)
    requires texts == SortedSet(RefTexts(records))
    ensures forall g | g in Groups(records, texts) :: GroupHolds(g, records)
    ensures forall e | e in records :: exists g | g in Groups(records, texts) :: g.docRef == RefText(e) && e in g.events
    ensures TotalCount(Groups(records, texts)) == |records|
  {
    hide TextLess, SortedSet, RefText, GroupHolds, WithRef, GroupOf;
    SortedSetFacts(RefTexts(records));
    var groups := Groups(records, texts);
    forall g | g in groups ensures GroupHolds(g, records) {
      var i :| 0 <= i < |groups| && groups[i] == g;
      GroupIsRight(records, texts[i]);
    }
    forall e | e in records
      ensures RefText(e) in texts && exists g | g in groups :: g.docRef == RefText(e) && e in g.events
    {
      InItsGroup(records, texts, e);
    }
    TextsDistinct(texts);
    GroupsCountAll(records, texts);
  }

  /** The records stand in the order of the index, field by field: by document reference, as a number; within a
      reference by block, within a block by log index, and then by transaction hash as it is written. */
  ghost predicate RecordsAscend(records: seq<DocAttested>) {
    forall i, j | 0 <= i < j < |records| ::
      var a, b := records[i], records[j];
      && a.docRef <= b.docRef
      && (a.docRef == b.docRef ==> a.blockNumber <= b.blockNumber)
      && (a.docRef == b.docRef && a.blockNumber == b.blockNumber ==> a.logIndex <= b.logIndex)
      && (a.docRef == b.docRef && a.blockNumber == b.blockNumber && a.logIndex == b.logIndex ==>
            TextLess(a.transactionHash, b.transactionHash) || a.transactionHash == b.transactionHash)
  }

  lemma SortedRecordsAscend(records: seq<DocAttested>)
    requires Sorted(RecordLess, records)
    ensures RecordsAscend(records)
  {
    hide TextLess;
    forall i, j | 0 <= i < j < |records| ensures !RecordLess(records[j], records[i]) {
    }
    forall s, t ensures TextLess(s, t) || TextLess(t, s) || s == t { TextLessTotal(s, t); }
  }

  /** The static index: its events are the deduplicated events, in record order; its groups are in text order
      of their references, are exactly the subsequences with one reference, cover every record, and their
      candidate counts add up to the event count. */
  lemma {:induction false} IndexPartition(events: seq<DocAttested>, about: About)
    ensures var index := BuildIndex(events, about);
      && index.eventCount == |index.events| && index.docRefCount == |index.docRefs|
      && multiset(index.events) == multiset(DedupeEvents(events)) && RecordsAscend(index.events)
      && (forall g | g in index.docRefs :: GroupHolds(g, index.events))
      && (forall i, j | 0 <= i < j < |index.docRefs| :: TextLess(index.docRefs[i].docRef, index.docRefs[j].docRef))
      && (forall e | e in index.events :: exists g | g in index.docRefs :: g.docRef == RefText(e) && e in g.events)
      && TotalCount(index.docRefs) == index.eventCount
  {
    hide Sort, RecordLess, TextLess, SortedSet, RefText, DedupeEvents, GroupHolds, WithRef, TotalCount, Sorted;
    hide RecordsAscend;
    var records := Sort(RecordLess, DedupeEvents(events));
    RecordOrder();
    SortSorts(RecordLess, DedupeEvents(events));
    SortedRecordsAscend(records);
    SortedSetFacts(RefTexts(records));
    GroupsAreRight(records, SortedSet(RefTexts(records)));
  }

  lemma InItsGroup(records: seq<DocAttested>, texts: seq<string>, e: DocAttested)
    requires e in records && texts == SortedSet(RefTexts(records))
    ensures RefText(e) in texts && exists g | g in Groups(records, texts) :: g.docRef == RefText(e) && e in g.events
  {
    hide SortedSet, RefText, WithRef;
    SortedSetFacts(RefTexts(records));
    var i :| 0 <= i < |records| && records[i] == e;
    assert RefTexts(records)[i] == RefText(e);
    assert RefText(e) in RefTexts(records);
    WithRefMember(records, RefText(e));
    var j :| 0 <= j < |texts| && texts[j] == RefText(e);
    assert Groups(records, texts)[j] in Groups(records, texts);
  }

  lemma TextsDistinct(texts: seq<string>)
    requires StrictlySorted(TextLess, texts)
    ensures forall i, j | 0 <= i < j < |texts| :: texts[i] != texts[j]
  {
    forall i, j | 0 <= i < j < |texts| ensures texts[i] != texts[j] {
      assert TextLess(texts[i], texts[j]);
      TextLessIrreflexive(texts[i]);
    }
  }

  /** With its metadata and time stamp fixed the index depends on the set of events only, as long as events that
      agree on block, log index and lower-cased transaction hash are the same event. */
  lemma IndexIgnoresOrder(xs: seq<DocAttested>, ys: seq<DocAttested>, about: About, other: About)
    requires forall e :: e in xs <==> e in ys
    requires forall a, b | a in xs && b in xs && a.blockNumber == b.blockNumber && a.logIndex == b.logIndex
      && Lower(a.transactionHash) == Lower(b.transactionHash) :: a == b
    requires about.metadata == other.metadata && Stamp(about) == Stamp(other)
    ensures BuildIndex(xs, about) == BuildIndex(ys, other)
  {
    ChainOrderValid();
    forall a, b | a in xs && b in ys && !EventLess(a, b) && !EventLess(b, a) ensures a == b {
      AlikeEvents(a, b);
    }
    DedupedIgnoresOrder(ChainOrder(), xs, ys);
  }

  // ---- the events, reference by reference ----

  /** The candidates of some references, one reference after the other. */
  function Joined(records: seq<DocAttested>, refs: seq<int>): (r: seq<DocAttested>) {
    if refs == [] then []
    else Joined(records, refs[..|refs| - 1]) + Candidates(records, refs[|refs| - 1])
  }

  predicate Increasing(refs: seq<int>) {
    forall i, j | 0 <= i < j < |refs| :: refs[i] < refs[j]
  }

  lemma CandidatesSnoc(init: seq<DocAttested>, e: DocAttested, docRef: int)
    ensures Candidates(init + [e], docRef)
      == Candidates(init, docRef) + if e.docRef == docRef then [e] else []
  {
    assert (init + [e])[..|init|] == init;
  }

  lemma {:induction false} JoinedOthers(init: seq<DocAttested>, e: DocAttested, refs: seq<int>)
    requires e.docRef !in refs
    ensures Joined(init + [e], refs) == Joined(init, refs)
  {
    hide Candidates;
    if refs != [] {
      var n := |refs| - 1;
      JoinedOthers(init, e, refs[..n]);
      CandidatesSnoc(init, e, refs[n]);
    }
  }

  lemma {:induction false} NoCandidates(records: seq<DocAttested>, docRef: int)
    requires forall e | e in records :: e.docRef != docRef
    ensures Candidates(records, docRef) == []
  {
    if records != [] { NoCandidates(records[..|records| - 1], docRef); }
  }

  /** The references that occur in the records. */
  ghost predicate Refers(records: seq<DocAttested>, refs: seq<int>) {
    forall docRef :: docRef in refs <==> exists e | e in records :: e.docRef == docRef
  }

  /** Records in order are the candidates of their references, the references in increasing numeric order. */
  lemma {:induction false} AscendingJoined(records: seq<DocAttested>) returns (refs: seq<int>)
    requires RecordsAscend(records)
    ensures Increasing(refs) && Refers(records, refs)
    ensures Joined(records, refs) == records
  {
    if records == [] { return []; }
    hide RecordsAscend, Candidates, Joined, TextLess, Increasing, Refers;
    var init, e := records[..|records| - 1], records[|records| - 1];
    assert records == init + [e];
    LastIsGreatest(records);
    refs := AscendingJoined(init);
    NotGreater(init, refs, e.docRef);
    RefersSnoc(init, e, refs);
    if e.docRef in refs {
      JoinedLast(init, e, refs);
    } else {
      JoinedMore(init, e, refs);
      refs := refs + [e.docRef];
    }
  }

  lemma NotGreater(records: seq<DocAttested>, refs: seq<int>, bound: int)
    requires Refers(records, refs) && forall x | x in records :: x.docRef <= bound
    ensures forall docRef | docRef in refs :: docRef <= bound
  {
  }

  lemma RefersSnoc(init: seq<DocAttested>, e: DocAttested, refs: seq<int>)
    requires Refers(init, refs)
    ensures Refers(init + [e], if e.docRef in refs then refs else refs + [e.docRef])
  {
    forall docRef
      ensures (exists x | x in init + [e] :: x.docRef == docRef) <==> docRef in refs || docRef == e.docRef
    {
      assert forall x :: x in init + [e] <==> x in init || x == e;
      assert e in init + [e];
    }
  }

  lemma LastIsGreatest(records: seq<DocAttested>)
    requires RecordsAscend(records) && records != []
    ensures RecordsAscend(records[..|records| - 1])
    ensures forall x | x in records[..|records| - 1] :: x.docRef <= records[|records| - 1].docRef
  {
    hide TextLess;
  }

  lemma JoinedLast(init: seq<DocAttested>, e: DocAttested, refs: seq<int>)
    requires Increasing(refs) && e.docRef in refs && forall docRef | docRef in refs :: docRef <= e.docRef
    ensures Joined(init + [e], refs) == Joined(init, refs) + [e]
  {
    hide Candidates;
    var n := |refs| - 1;
    assert refs[n] in refs;
    var i :| 0 <= i < |refs| && refs[i] == e.docRef;
    assert i == n;
    JoinedOthers(init, e, refs[..n]);
    CandidatesSnoc(init, e, e.docRef);
  }

  lemma JoinedMore(init: seq<DocAttested>, e: DocAttested, refs: seq<int>)
    requires Increasing(refs) && (forall docRef | docRef in refs :: docRef <= e.docRef) && e.docRef !in refs
    requires Refers(init, refs)
    ensures Increasing(refs + [e.docRef])
    ensures Joined(init + [e], refs + [e.docRef]) == Joined(init, refs) + [e]
  {
    hide Candidates;
    var more := refs + [e.docRef];
    forall i, j | 0 <= i < j < |more| ensures more[i] < more[j] {
      assert refs[i] in refs;
    }
    assert more[..|refs|] == refs;
    forall x | x in init ensures x.docRef != e.docRef {
      assert x.docRef in refs;
    }
    JoinedOthers(init, e, refs);
    CandidatesSnoc(init, e, e.docRef);
    NoCandidates(init, e.docRef);
  }

  lemma SameReferences(records: seq<DocAttested>, events: seq<DocAttested>, refs: seq<int>)
    requires multiset(records) == multiset(events) && Refers(records, refs)
    ensures Refers(events, refs)
  {
    forall e ensures e in records <==> e in events {
      assert e in multiset(records) <==> e in multiset(events);
    }
  }

  /** The events of the index are the candidates of its references in numeric order, although the groups come in
      the order of their texts. */
  lemma {:induction false} EventsByNumber(events: seq<DocAttested>, about: About) returns (refs: seq<int>)
    ensures Increasing(refs) && Refers(DedupeEvents(events), refs)
    ensures BuildIndex(events, about).events == Joined(BuildIndex(events, about).events, refs)
  {
    hide BuildIndex, GroupHolds, TextLess, RefText, TotalCount, DedupeEvents, RecordsAscend, Joined, Increasing;
    hide Refers;
    IndexPartition(events, about);
    var records := BuildIndex(events, about).events;
    refs := AscendingJoined(records);
    SameReferences(records, DedupeEvents(events), refs);
  }

  /** What else the index says: its schema, the caller's metadata as given, and the time stamp: the one given, or the
      clock's if none or an empty one is given. */
  lemma IndexDescribesScan(events: seq<DocAttested>, about: About)
    ensures var index := BuildIndex(events, about);
      && index.schema == "docchain-index-v1" && index.metadata == about.metadata
      && (forall stamp | about.indexedAt == Some(stamp) && stamp != "" :: index.indexedAt == stamp)
      && (about.indexedAt in {None, Some("")} ==> index.indexedAt == about.now)
  {
  }
}
