/** The topic filter of a scan, and which events it selects. */
module Topics {
  import opened Wrappers
  import opened Bytes
  import opened Digits
  import opened Logs
  import opened Store
  import Attestation
  import Contract

  /** One position of an `eth_getLogs` filter: any topic, or one of some. */
  type TopicFilter = Option<seq<string>>

  // ---- building the filter ----

  /** `normalize_bytes32` */
  function Bytes32Topic(text: string): Result<string, Attestation.Error> {
    var body :- Attestation.FixedBody(text, 64);
    Ok("0x" + body)
  }

  /** `topic_address` */
  function AddressTopic(text: string): Result<string, Attestation.Error> {
    var body :- Attestation.FixedBody(text, 40);
    Ok("0x" + seq(24, _ => '0') + body)
  }

  /** `topic_uint64` */
  function RefTopic(docRef: int): Result<string, Attestation.Error> {
    if docRef < 0 then Err(Attestation.Negative)
    else if docRef > 0xffff_ffff_ffff_ffff then Err(Attestation.DocRefTooLarge)
    else Ok("0x" + FormatHex(docRef, 64))
  }

  function One(topic: Result<string, Attestation.Error>): Result<TopicFilter, Attestation.Error> {
    var text :- topic;
    Ok(Some([text]))
  }

  /** `doc_attested_topics` for a scan context, where an empty text or no number stands for no filter. */
  function DocAttestedTopics(c: ScanContext): Result<seq<TopicFilter>, Attestation.Error> {
    var docChainId :- if c.docChainId == "" then Ok(None) else One(Bytes32Topic(c.docChainId));
    var attester :- if c.attester == "" then Ok(None) else One(AddressTopic(c.attester));
    var docRef :- if c.docRef.None? then Ok(None) else One(RefTopic(c.docRef.value));
    Ok([Some([Text0x(TopicOf(Current)), Text0x(TopicOf(Legacy))]), docChainId, attester, docRef])
  }

  /** What a provider returns: logs whose topics are among the allowed ones in every filtered position. */
  predicate TopicsMatch(filter: seq<TopicFilter>, topics: seq<string>) {
    |filter| <= |topics| && forall i | 0 <= i < |filter| && filter[i].Some? :: topics[i] in filter[i].value
  }

  // ---- what the filter means ----

  /** Filters that can be built: hex texts of the right lengths and a 64-bit number, each only if given. */
  predicate ValidFilter(c: ScanContext) {
    && (c.docChainId != "" ==> Attestation.IsHexText(c.docChainId, 64))
    && (c.attester != "" ==> Attestation.IsHexText(c.attester, 40))
    && (c.docRef.Some? ==> 0 <= c.docRef.value < 0x1_0000_0000_0000_0000)
  }

  /** The entry has every field that the context asks for, in any letter case. */
  predicate Selects(c: ScanContext, e: Contract.Entry) {
    && (c.docChainId != "" ==> Lower(c.docChainId) == Text0x(e.docChainId))
    && (c.attester != "" ==> Lower(c.attester) == Text0x(e.attester))
    && (c.docRef.Some? ==> c.docRef.value == e.docRef)
  }

  /** No filter at all. */
  predicate SelectsAll(c: ScanContext) {
    c.docChainId == "" && c.attester == "" && c.docRef.None?
  }

  lemma FilterAccepts(c: ScanContext)
    ensures DocAttestedTopics(c).Ok? <==> ValidFilter(c)
  {
    hide Bytes32Topic, AddressTopic, RefTopic, Attestation.IsHexText, Text0x;
    TopicAccepts(c.docChainId, c.attester);
    if c.docRef.Some? { RefAccepts(c.docRef.value); }
  }

  lemma TopicAccepts(docChainId: string, attester: string)
    ensures Bytes32Topic(docChainId).Ok? <==> Attestation.IsHexText(docChainId, 64)
    ensures AddressTopic(attester).Ok? <==> Attestation.IsHexText(attester, 40)
  {
    hide Attestation.FixedBody, Attestation.IsHexText;
    Attestation.FixedBodyAccepts(docChainId, 32);
    Attestation.FixedBodyAccepts(attester, 20);
  }

  lemma RefAccepts(docRef: int)
    ensures RefTopic(docRef).Ok? <==> 0 <= docRef < 0x1_0000_0000_0000_0000
  {
    hide FormatHex;
  }

  function FilterOf(c: ScanContext): seq<TopicFilter>
    requires ValidFilter(c)
  {
    FilterAccepts(c);
    DocAttestedTopics(c).value
  }

  /** A topic is the lower-cased text it is made of. */
  lemma LowerOfText(text: string, n: nat)
    requires Attestation.IsHexText(text, 2 * n)
    ensures Attestation.FixedBody(text, 2 * n).Ok?
    ensures "0x" + Attestation.FixedBody(text, 2 * n).value == Lower(text)
  {
    hide Lower, IsHex, IsDigit, Attestation.HexBody;
    Attestation.HexBodyAccepts(text);
    Attestation.PrefixAccepts(text);
    LowerConcat(text[..2], text[2..]);
    assert text == text[..2] + text[2..];
  }

  lemma SameAfterPrefix(prefix: string, a: string, b: string)
    ensures prefix + a == prefix + b <==> a == b
  {
    assert (prefix + a)[|prefix|..] == a && (prefix + b)[|prefix|..] == b;
  }

  /** A padded address topic is the word of an address exactly when its digits are the address. */
  lemma AddressTopicIs(body: string, a: Address)
    ensures "0x" + seq(24, _ => '0') + body == Text0x(AddressWord(a)) <==> "0x" + body == Text0x(a)
  {
    hide Hex, IsHex;
    var zeros := seq(24, _ => '0');
    HexConcat(Zeros(12), a);
    Attestation.HexOfZeros(12);
    assert Text0x(AddressWord(a)) == "0x" + zeros + Hex(a);
    SameAfterPrefix("0x" + zeros, body, Hex(a));
    SameAfterPrefix("0x", body, Hex(a));
  }

  lemma RefTopicIs(v: uint64, docRef: uint64)
    ensures "0x" + FormatHex(v, 64) == Text0x(Word(docRef)) <==> v == docRef
  {
    hide Hex, IsHex, FormatHex, Word;
    Attestation.WordText(v);
    if "0x" + FormatHex(v, 64) == Text0x(Word(docRef)) {
      SameAfterPrefix("0x", FormatHex(v, 64), Hex(Word(docRef)));
      HexInjective(Word(v), Word(docRef));
      WordInjective(v, docRef);
    }
  }

  lemma FilterPositions(c: ScanContext, topics: seq<string>)
    requires ValidFilter(c) && |topics| == 4
    ensures |FilterOf(c)| == 4 && FilterOf(c)[0] == Some([Text0x(TopicOf(Current)), Text0x(TopicOf(Legacy))])
    ensures TopicsMatch(FilterOf(c), topics) <==>
      && topics[0] in FilterOf(c)[0].value
      && (FilterOf(c)[1].Some? ==> topics[1] in FilterOf(c)[1].value)
      && (FilterOf(c)[2].Some? ==> topics[2] in FilterOf(c)[2].value)
      && (FilterOf(c)[3].Some? ==> topics[3] in FilterOf(c)[3].value)
  {
    hide Bytes32Topic, AddressTopic, RefTopic, Text0x, ValidFilter, One;
    FilterAccepts(c);
    var filter := FilterOf(c);
    assert |filter| == 4;
    FourPositions(filter, topics);
  }

  lemma FourPositions(filter: seq<TopicFilter>, topics: seq<string>)
    requires |filter| == |topics| == 4
    ensures TopicsMatch(filter, topics) <==>
      && (filter[0].Some? ==> topics[0] in filter[0].value) && (filter[1].Some? ==> topics[1] in filter[1].value)
      && (filter[2].Some? ==> topics[2] in filter[2].value) && (filter[3].Some? ==> topics[3] in filter[3].value)
  {
  }

  lemma {:induction false} FilterTexts(c: ScanContext)
    requires ValidFilter(c)
    ensures |FilterOf(c)| == 4
    ensures c.attester != "" ==> Attestation.FixedBody(c.attester, 40).Ok?
    ensures FilterOf(c)[1] == if c.docChainId == "" then None else Some([Lower(c.docChainId)])
    ensures FilterOf(c)[2] == if c.attester == "" then None else
      Some(["0x" + seq(24, _ => '0') + Attestation.FixedBody(c.attester, 40).value])
    ensures FilterOf(c)[3] == if c.docRef.None? then None else Some(["0x" + FormatHex(c.docRef.value, 64)])
  {
    hide Attestation.FixedBody, Attestation.IsHexText, FormatHex, Lower, Text0x;
    FilterAccepts(c);
    if c.docChainId != "" { LowerOfText(c.docChainId, 32); }
    if c.attester != "" { LowerOfText(c.attester, 20); }
  }

  /** The topic filter of a scan selects exactly the events with the fields that the scan asks for. */
  lemma {:induction false} FilterSelects(c: ScanContext, e: Contract.Entry, at: Place)
    requires ValidFilter(c) && |e.uri| < TWO_256
    ensures TopicsMatch(FilterOf(c), EncodeLog(Current, e, at).topics) <==> Selects(c, e)
  {
    hide FilterOf, TopicsMatch, Attestation.FixedBody, Attestation.IsHexText, FormatHex, Lower, Text0x, EventData;
    FilterPositions(c, EncodeLog(Current, e, at).topics);
    FilterTexts(c);
    if c.attester != "" {
      LowerOfText(c.attester, 20);
      AddressTopicIs(Attestation.FixedBody(c.attester, 40).value, e.attester);
    }
    if c.docRef.Some? { RefTopicIs(c.docRef.value, e.docRef); }
  }
}
