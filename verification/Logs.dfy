/** The event decoder, at the level of the hex text a JSON-RPC provider returns. */
module Logs {
  import opened Wrappers
  import opened Bytes
  import opened Digits
  import opened Events
  import Abi
  import Contract

  const DOC_ATTESTED_EVENT_TOPIC0: uint256 :=
    0xa5a9ded9_78a618be_6783ec1a_f88ba95d_d6e0ca4c_344c2bd8_893bed6a_a92bb199
  const DOC_ATTESTED_EVENT_LEGACY_TOPIC0: uint256 :=
    0x003c1eb3_9369e9f3_9930ebf2_22b33321_5cb95fdc_00894d4f_e215b865_9c452858

  /** Strict UTF-8 decoding; None where Python raises. */
  type Utf8 = bytes -> Option<string>

  datatype Quantity = HexText(s: string) | Number(n: int)

  datatype RawLog = RawLog(
    topics: seq<string>, data: string, blockNumber: Quantity, transactionHash: string, logIndex: Quantity,
    blockHash: Option<string>)

  datatype DecodeError =
    | NoTopics | NotPrefixed | NonHex | NotAWord | OddLength | NotDocAttested | WrongTopicCount | ShortData
    | AddressPadding | DocRefTooLarge | UnalignedOffset | InvalidUtf8 | NegativeQuantity

  function HexBody(value: string): Result<string, DecodeError> {
    if |value| < 2 || value[..2] != "0x" then Err(NotPrefixed)
    else if !IsHex(Lower(value[2..])) then Err(NonHex)
    else Ok(Lower(value[2..]))
  }

  function WordBody(value: string): (r: Result<string, DecodeError>)
    ensures r.Ok? ==> |r.value| == 64 && IsHex(r.value)
  {
    var body :- HexBody(value);
    :- Need(|body| == 64, NotAWord);
    Ok(body)
  }

  function DataBody(value: string): (r: Result<string, DecodeError>)
    ensures r.Ok? ==> IsHex(r.value) && |r.value| % 2 == 0
  {
    var body :- HexBody(value);
    :- Need(|body| % 2 == 0, OddLength);
    Ok(body)
  }

  function DataWord(data: string, index: nat): (r: Result<string, DecodeError>)
    requires IsHex(data)
    ensures r.Ok? ==> |r.value| == 64 && IsHex(r.value)
  {
    var start := index * 64;
    :- Need(|data| >= start + 64, ShortData);
    IsHexSlice(data, start, start + 64);
    Ok(data[start..start + 64])
  }

  function AddressFromWord(word: string): (r: Result<string, DecodeError>)
    requires |word| == 64 && IsHex(word)
    ensures r.Ok? ==> |r.value| == 42
  {
    IsHexSlice(word, 0, 24);
    assert word[0..24] == word[..24];
    :- Need(ParseHex(word[..24]) == 0, AddressPadding);
    Ok("0x" + word[24..])
  }

  function Uint64FromWord(word: string): (r: Result<uint64, DecodeError>)
    requires IsHex(word)
  {
    if ParseHex(word) > 0xffff_ffff_ffff_ffff then Err(DocRefTooLarge) else Ok(ParseHex(word))
  }

  function QuantityValue(q: Quantity): (r: Result<nat, DecodeError>) {
    match q
    case Number(n) => if n < 0 then Err(NegativeQuantity) else Ok(n)
    case HexText(s) =>
      var body :- HexBody(s);
      Ok(ParseHex(body))
  }

  function OptionalBytes32(value: Option<string>): Result<string, DecodeError> {
    if value.None? then Ok("")
    else
      var body :- WordBody(value.value);
      Ok("0x" + body)
  }

  function StringFromData(utf8: Utf8, data: string, offset: nat): Result<string, DecodeError>
    requires IsHex(data)
  {
    if offset % 32 != 0 then Err(UnalignedOffset)
    else if |data| < 2 * offset + 64 then Err(ShortData)
    else
      IsHexSlice(data, 2 * offset, 2 * offset + 64);
      StringPayload(utf8, data, 2 * offset + 64, ParseHex(data[2 * offset..2 * offset + 64]))
  }

  /** `payload.decode("utf-8")` */
  function Text(utf8: Utf8, payload: bytes): Result<string, DecodeError> {
    if utf8(payload).None? then Err(InvalidUtf8) else Ok(utf8(payload).value)
  }

  function StringPayload(utf8: Utf8, data: string, start: nat, byteLength: nat): Result<string, DecodeError>
    requires IsHex(data)
  {
    if |data| < start + 2 * byteLength then Err(ShortData)
    else
      IsHexSlice(data, start, start + 2 * byteLength);
      Text(utf8, FromHex(data[start..start + 2 * byteLength]))
  }

  datatype Indexed = Indexed(shape: Shape, docChainId: string, attester: string, docRef: uint64)

  datatype Payload = Payload(
    onBehalfOf: string, submitter: string, parentHash: string, blockHash: string, contentHash: string, uriHash: string,
    uri: string)

  datatype Location = Location(blockNumber: nat, transactionHash: string, logIndex: nat, blockHash: string)

  function DecodeShape(topics: seq<string>): Result<Shape, DecodeError> {
    var topic0 :- if topics == [] then Err(NoTopics) else WordBody(topics[0]);
    var current := topic0 == Hex(Word(DOC_ATTESTED_EVENT_TOPIC0));
    :- Need(current || topic0 == Hex(Word(DOC_ATTESTED_EVENT_LEGACY_TOPIC0)), NotDocAttested);
    :- Need(|topics| == 4, WrongTopicCount);
    Ok(if current then Current else Legacy)
  }

  function DecodeTopics(topics: seq<string>): (r: Result<Indexed, DecodeError>)
    ensures r.Ok? ==> |topics| == 4
  {
    var shape :- DecodeShape(topics);
    var docChainId :- WordBody(topics[1]);
    var attesterWord :- WordBody(topics[2]);
    var attester :- AddressFromWord(attesterWord);
    var docRefWord :- WordBody(topics[3]);
    var docRef :- Uint64FromWord(docRefWord);
    Ok(Indexed(shape, "0x" + docChainId, attester, docRef))
  }

  function DecodeOnBehalfOf(shape: Shape, data: string): (r: Result<string, DecodeError>)
    requires IsHex(data)
    ensures r.Ok? ==> |r.value| == 42
  {
    if shape.Legacy? then Ok(ZERO_ADDRESS_TEXT)
    else
      var word :- DataWord(data, 0);
      AddressFromWord(word)
  }

  /** The non-indexed fields. */
  function DecodePayload(utf8: Utf8, shape: Shape, data: string): Result<Payload, DecodeError>
    requires IsHex(data)
  {
    var first := if shape.Current? then 1 else 0;
    var onBehalfOf :- DecodeOnBehalfOf(shape, data);
    var submitterWord :- DataWord(data, first);
    var submitter :- AddressFromWord(submitterWord);
    var parentHash :- DataWord(data, first + 1);
    var blockHash :- DataWord(data, first + 2);
    var contentHash :- DataWord(data, first + 3);
    var uriHash :- DataWord(data, first + 4);
    var offsetWord :- DataWord(data, first + 5);
    var uri :- StringFromData(utf8, data, ParseHex(offsetWord));
    Ok(Payload(onBehalfOf, submitter, "0x" + parentHash, "0x" + blockHash, "0x" + contentHash, "0x" + uriHash, uri))
  }

  function DecodeLocation(log: RawLog): Result<Location, DecodeError> {
    var blockNumber :- QuantityValue(log.blockNumber);
    var transactionHash :- WordBody(log.transactionHash);
    var logIndex :- QuantityValue(log.logIndex);
    var blockHash :- OptionalBytes32(log.blockHash);
    Ok(Location(blockNumber, "0x" + transactionHash, logIndex, blockHash))
  }

  /** `decode_doc_attested_log` */
  function Decode(utf8: Utf8, log: RawLog): Result<DocAttested, DecodeError> {
    var i :- DecodeTopics(log.topics);
    var data :- DataBody(log.data);
    var p :- DecodePayload(utf8, i.shape, data);
    var l :- DecodeLocation(log);
    Ok(DocAttested(i.docChainId, i.attester, i.docRef, p.onBehalfOf, p.submitter, p.parentHash, p.blockHash,
                   p.contentHash, p.uriHash, p.uri, l.blockNumber, l.transactionHash, l.logIndex, l.blockHash))
  }

  // ---- the ABI encoding of the event ----

  /** Where a log sits in the ledger. */
  datatype Place = Place(blockNumber: nat, blockHash: Bytes32, transactionHash: Bytes32, logIndex: nat)

  datatype Shape = Current | Legacy

  function WordTypes(shape: Shape): seq<Abi.Type> {
    (if shape.Current? then [Abi.AddressType] else [])
    + [Abi.AddressType, Abi.Word32, Abi.Word32, Abi.Word32, Abi.Word32]
  }

  function WordValues(shape: Shape, e: Contract.Entry): seq<Abi.Value> {
    (if shape.Current? then [Abi.Addr(e.onBehalfOf)] else [])
    + [Abi.Addr(e.submitter), Abi.Raw(e.parentHash), Abi.Raw(e.blockHash), Abi.Raw(e.contentHash), Abi.Raw(e.uriHash)]
  }

  lemma EventWellTyped(shape: Shape, e: Contract.Entry)
    requires |e.uri| < TWO_256
    ensures Abi.AllWellTyped(WordTypes(shape), WordValues(shape, e))
    ensures forall t | t in WordTypes(shape) :: Abi.Elementary(t)
    ensures Abi.AllWellTyped(WordTypes(shape) + [Abi.ByteString], WordValues(shape, e) + [Abi.Blob(e.uri)])
  {
    Abi.AllWellTypedIntro(WordTypes(shape), WordValues(shape, e));
    Abi.WordsThenString(WordTypes(shape), WordValues(shape, e), e.uri);
  }

  /** Event data per the ABI specification ("Events"): the non-indexed arguments, encoded as a tuple. */
  function EventData(shape: Shape, e: Contract.Entry): bytes
    requires |e.uri| < TWO_256
  {
    EventWellTyped(shape, e);
    Abi.EncAll(WordTypes(shape) + [Abi.ByteString], WordValues(shape, e) + [Abi.Blob(e.uri)])
  }

  /** "0x" and the hex digits of some bytes. */
  function Text0x(b: bytes): string {
    "0x" + Hex(b)
  }

  function TopicOf(shape: Shape): Bytes32 {
    Word(if shape.Current? then DOC_ATTESTED_EVENT_TOPIC0 else DOC_ATTESTED_EVENT_LEGACY_TOPIC0)
  }

  /** The log a provider reports for an emitted entry. */
  function EncodeLog(shape: Shape, e: Contract.Entry, at: Place): RawLog
    requires |e.uri| < TWO_256
  {
    RawLog(
      [Text0x(TopicOf(shape)), Text0x(e.docChainId), Text0x(AddressWord(e.attester)), Text0x(Word(e.docRef))],
      Text0x(EventData(shape, e)), HexText("0x" + HexNumber(at.blockNumber)), Text0x(at.transactionHash),
      HexText("0x" + HexNumber(at.logIndex)), Some(Text0x(at.blockHash)))
  }

  /** The record an indexer is meant to get for it. */
  function RecordOf(shape: Shape, e: Contract.Entry, at: Place, uri: string): DocAttested {
    DocAttested(
      Text0x(e.docChainId), Text0x(e.attester), e.docRef,
      if shape.Current? then Text0x(e.onBehalfOf) else ZERO_ADDRESS_TEXT,
      Text0x(e.submitter), Text0x(e.parentHash), Text0x(e.blockHash), Text0x(e.contentHash), Text0x(e.uriHash), uri,
      at.blockNumber, Text0x(at.transactionHash), at.logIndex, Text0x(at.blockHash))
  }

  lemma HexBodyOfText(b: bytes)
    ensures HexBody(Text0x(b)) == Ok(Hex(b))
  {
    HexLower(b);
    assert Text0x(b)[..2] == "0x" && Text0x(b)[2..] == Hex(b);
  }

  lemma QuantityOfNumber(n: nat)
    ensures QuantityValue(HexText("0x" + HexNumber(n))) == Ok(n)
  {
    var s := "0x" + HexNumber(n);
    ParseHexNumber(n);
    assert s[..2] == "0x" && s[2..] == HexNumber(n);
  }

  lemma TopicsDiffer()
    ensures Hex(Word(DOC_ATTESTED_EVENT_TOPIC0)) != Hex(Word(DOC_ATTESTED_EVENT_LEGACY_TOPIC0))
  {
    ParseWord(DOC_ATTESTED_EVENT_TOPIC0);
    ParseWord(DOC_ATTESTED_EVENT_LEGACY_TOPIC0);
  }

  lemma ParseWord(v: uint256)
    ensures ParseHex(Hex(Word(v))) == v
  {
    ParseHexOfHex(Word(v));
    WordValueOf(v);
  }

  lemma AddressWordParts(a: Address)
    ensures AddressWord(a)[0..12] == Zeros(12) && AddressWord(a)[12..32] == a
  {
    hide Zeros;
  }

  lemma AddressWordText(a: Address)
    ensures AddressFromWord(Hex(AddressWord(a))) == Ok(Text0x(a))
  {
    hide Hex, IsHex, ParseHex, FromBigEndian, AddressWord, Zeros;
    var word := Hex(AddressWord(a));
    AddressWordParts(a);
    HexSlice(AddressWord(a), 0, 12);
    HexSlice(AddressWord(a), 12, 32);
    ParseHexOfHex(Zeros(12));
    ZerosAreZero(12);
    assert word[..24] == word[0..24] && word[24..] == word[24..64];
  }

  lemma DataWordAt(d: bytes, i: nat, w: Bytes32)
    requires At(d, 32 * i, w)
    ensures DataWord(Hex(d), i) == Ok(Hex(w))
  {
    HexAt(d, 32 * i, w);
    assert i * 64 == 2 * (32 * i);
  }

  lemma StringAt(utf8: Utf8, d: bytes, offset: nat, b: bytes)
    requires At(d, offset, Word(|b|) + b) && offset % 32 == 0 && |b| < TWO_256
    ensures StringFromData(utf8, Hex(d), offset) == Text(utf8, b)
  {
    hide IsHex, ParseHex, Hex, FromHex, BigEndian;
    AtSplit(d, offset, Word(|b|), b);
    HexAt(d, offset, Word(|b|));
    HexAt(d, offset + 32, b);
    ParseWord(|b|);
    FromHexOfHex(b);
    assert 2 * (offset + 32) == 2 * offset + 64;
    assert Hex(d)[2 * offset..2 * offset + 64] == Hex(Word(|b|));
    assert Hex(d)[2 * offset + 64..2 * offset + 64 + 2 * |b|] == Hex(b);
  }

  lemma InPrefix(d: bytes, words: bytes, rest: bytes, pos: nat, w: bytes)
    requires d == words + rest && At(words, pos, w)
    ensures At(d, pos, w)
  {
  }

  lemma {:induction false} EventWordsAt(shape: Shape, e: Contract.Entry, i: nat)
    requires |e.uri| < TWO_256 && i < |WordTypes(shape)|
    ensures Abi.WellTyped(WordTypes(shape)[i], WordValues(shape, e)[i])
    ensures At(EventData(shape, e), 32 * i, Abi.Enc(WordTypes(shape)[i], WordValues(shape, e)[i]))
  {
    hide WordTypes, WordValues, Abi.Words, Abi.Enc, Abi.EncAll, Abi.WellTyped, Abi.AllWellTyped, Abi.Elementary;
    hide Abi.PadRight, Word;
    var ts, vs := WordTypes(shape), WordValues(shape, e);
    EventWellTyped(shape, e);
    Abi.WordsThenString(ts, vs, e.uri);
    Abi.WordAt(ts, vs, i);
    var tail := Word(32 * |ts| + 32) + (Word(|e.uri|) + Abi.PadRight(e.uri));
    assert EventData(shape, e) == Abi.Words(ts, vs) + tail;
    InPrefix(EventData(shape, e), Abi.Words(ts, vs), tail, 32 * i, Abi.Enc(ts[i], vs[i]));
  }

  lemma EventStringAt(shape: Shape, e: Contract.Entry)
    requires |e.uri| < TWO_256
    ensures var n := |WordTypes(shape)|;
      At(EventData(shape, e), 32 * n, Word(32 * n + 32)) && At(EventData(shape, e), 32 * n + 32, Word(|e.uri|) + e.uri)
  {
    var ts, vs, n := WordTypes(shape), WordValues(shape, e), |WordTypes(shape)|;
    EventWellTyped(shape, e);
    Abi.WordsThenString(ts, vs, e.uri);
    var d, words, tail := EventData(shape, e), Abi.Words(ts, vs), Word(|e.uri|) + Abi.PadRight(e.uri);
    assert d == words + Word(32 * n + 32) + tail;
    assert d[32 * n..32 * n + 32] == Word(32 * n + 32);
    assert d[32 * n + 32..] == tail;
    assert tail[..32 + |e.uri|] == Word(|e.uri|) + e.uri;
    assert d[32 * n + 32..32 * n + 64 + |e.uri|] == tail[..32 + |e.uri|];
  }

  /** A payload whose URI is `uri`, or the error of reading the URI. */
  function PayloadOr(onBehalfOf: string, submitter: string, parentHash: string, blockHash: string, contentHash: string,
                     uriHash: string, uri: Result<string, DecodeError>): Result<Payload, DecodeError>
  {
    match uri
    case Ok(text) => Ok(Payload(onBehalfOf, submitter, parentHash, blockHash, contentHash, uriHash, text))
    case Err(error) => Err(error)
  }

  lemma PayloadSteps(utf8: Utf8, shape: Shape, data: string, w: seq<string>, onBehalfOf: string, submitter: string,
                     uri: Result<string, DecodeError>)
    requires IsHex(data) && |w| == 6
    requires forall i | 0 <= i < 6 :: DataWord(data, (if shape.Current? then 1 else 0) + i) == Ok(w[i])
    requires DecodeOnBehalfOf(shape, data) == Ok(onBehalfOf)
    requires |w[0]| == 64 && IsHex(w[0]) && AddressFromWord(w[0]) == Ok(submitter)
    requires IsHex(w[5]) && StringFromData(utf8, data, ParseHex(w[5])) == uri
    ensures DecodePayload(utf8, shape, data)
      == PayloadOr(onBehalfOf, submitter, "0x" + w[1], "0x" + w[2], "0x" + w[3], "0x" + w[4], uri)
  {
    assert DataWord(data, (if shape.Current? then 1 else 0) + 0) == Ok(w[0]);
  }

  lemma EventWordIs(shape: Shape, e: Contract.Entry, first: nat, i: nat, w: Bytes32)
    requires |e.uri| < TWO_256 && first == (if shape.Current? then 1 else 0) && i < 6
    requires w == [AddressWord(e.submitter), e.parentHash, e.blockHash, e.contentHash, e.uriHash,
                   Word(32 * (first + 5) + 32)][i]
    ensures At(EventData(shape, e), 32 * (first + i), w)
  {
    if i < 5 { EventWordsAt(shape, e, first + i); } else { EventStringAt(shape, e); }
  }

  lemma OnBehalfOfRoundTrip(shape: Shape, e: Contract.Entry)
    requires |e.uri| < TWO_256
    ensures DecodeOnBehalfOf(shape, Hex(EventData(shape, e)))
      == Ok(if shape.Current? then Text0x(e.onBehalfOf) else ZERO_ADDRESS_TEXT)
  {
    hide EventData, DataWord, AddressFromWord, Hex, IsHex;
    if shape.Current? {
      EventWordsAt(shape, e, 0);
      DataWordAt(EventData(shape, e), 0, AddressWord(e.onBehalfOf));
      AddressWordText(e.onBehalfOf);
    }
  }

  lemma PayloadRoundTrip(utf8: Utf8, shape: Shape, e: Contract.Entry)
    requires |e.uri| < TWO_256
    ensures DecodePayload(utf8, shape, Hex(EventData(shape, e)))
      == PayloadOr(if shape.Current? then Text0x(e.onBehalfOf) else ZERO_ADDRESS_TEXT, Text0x(e.submitter),
                   Text0x(e.parentHash), Text0x(e.blockHash), Text0x(e.contentHash), Text0x(e.uriHash),
                   Text(utf8, e.uri))
  {
    hide EventData, DecodePayload, DataWord, StringFromData, AddressFromWord, DecodeOnBehalfOf, PayloadOr, Text;
    hide Hex, IsHex, ParseHex, BigEndian;
    var d, first: nat := EventData(shape, e), if shape.Current? then 1 else 0;
    var offset := 32 * (first + 5) + 32;
    var ws: seq<Bytes32> := [AddressWord(e.submitter), e.parentHash, e.blockHash, e.contentHash, e.uriHash,
                             Word(offset)];
    var w := [Hex(ws[0]), Hex(ws[1]), Hex(ws[2]), Hex(ws[3]), Hex(ws[4]), Hex(ws[5])];
    EventStringAt(shape, e);
    forall i | 0 <= i < 6 ensures DataWord(Hex(d), first + i) == Ok(w[i]) {
      EventWordIs(shape, e, first, i, ws[i]);
      DataWordAt(d, first + i, ws[i]);
    }
    OnBehalfOfRoundTrip(shape, e);
    AddressWordText(e.submitter);
    ParseWord(offset);
    StringAt(utf8, d, offset, e.uri);
    PayloadSteps(utf8, shape, Hex(d), w, DecodeOnBehalfOf(shape, Hex(d)).value, Text0x(e.submitter), Text(utf8, e.uri));
  }

  lemma TopicsRoundTrip(shape: Shape, e: Contract.Entry, topics: seq<string>)
    requires topics == [Text0x(TopicOf(shape)), Text0x(e.docChainId), Text0x(AddressWord(e.attester)),
                        Text0x(Word(e.docRef))]
    ensures DecodeTopics(topics) == Ok(Indexed(shape, Text0x(e.docChainId), Text0x(e.attester), e.docRef))
  {
    hide IsHex, ParseHex, Hex, FromHex, BigEndian, Lower;
    TopicsDiffer();
    HexBodyOfText(TopicOf(shape));
    HexBodyOfText(e.docChainId);
    HexBodyOfText(AddressWord(e.attester));
    HexBodyOfText(Word(e.docRef));
    AddressWordText(e.attester);
    ParseWord(e.docRef);
  }

  lemma LocationRoundTrip(log: RawLog, at: Place)
    requires log.blockNumber == HexText("0x" + HexNumber(at.blockNumber))
    requires log.logIndex == HexText("0x" + HexNumber(at.logIndex))
    requires log.transactionHash == Text0x(at.transactionHash) && log.blockHash == Some(Text0x(at.blockHash))
    ensures DecodeLocation(log)
      == Ok(Location(at.blockNumber, Text0x(at.transactionHash), at.logIndex, Text0x(at.blockHash)))
  {
    QuantityOfNumber(at.blockNumber);
    QuantityOfNumber(at.logIndex);
    HexBodyOfText(at.transactionHash);
    HexBodyOfText(at.blockHash);
  }

  /** Decoding the log of an emitted entry gives back every emitted field, in the current shape and, with
      the zero address for the field it lacks, in the legacy shape; it fails exactly when the URI is not UTF-8. */
  lemma DecodeRoundTrip(utf8: Utf8, shape: Shape, e: Contract.Entry, at: Place)
    requires |e.uri| < TWO_256
    ensures Decode(utf8, EncodeLog(shape, e, at))
      == if utf8(e.uri).Some? then Ok(RecordOf(shape, e, at, utf8(e.uri).value)) else Err(InvalidUtf8)
  {
    hide IsHex, ParseHex, Hex, FromHex, BigEndian, Lower, EventData, HexNumber, DecodeTopics, DecodePayload;
    hide DecodeLocation, HexBody;
    var log := EncodeLog(shape, e, at);
    TopicsRoundTrip(shape, e, log.topics);
    HexBodyOfText(EventData(shape, e));
    PayloadRoundTrip(utf8, shape, e);
    LocationRoundTrip(log, at);
  }

  // ---- arbitrary logs ----

  /** "0x" and so many hex digits, in any letter case. */
  predicate IsHexText(s: string, digits: nat) {
    |s| == digits + 2 && s[..2] == "0x" && forall i | 2 <= i < |s| :: IsDigit(s[i])
  }

  lemma HexBodyAccepts(value: string)
    ensures HexBody(value).Ok? <==> |value| >= 2 && IsHexText(value, |value| - 2)
    ensures HexBody(value).Ok? ==> HexBody(value).value == Lower(value[2..])
  {
    if |value| >= 2 {
      hide IsHex, Lower;
      LowerIsHex(value[2..]);
      IsHexDigits(value[2..]);
      DigitsAfterPrefix(value);
    }
  }

  lemma DigitsAfterPrefix(value: string)
    requires |value| >= 2
    ensures (forall i | 0 <= i < |value[2..]| :: IsDigit(value[2..][i]))
      <==> forall i | 2 <= i < |value| :: IsDigit(value[i])
  {
    hide IsDigit;
    if forall i | 0 <= i < |value[2..]| :: IsDigit(value[2..][i]) {
      forall i | 2 <= i < |value| ensures IsDigit(value[i]) { assert value[i] == value[2..][i - 2]; }
    }
  }

  lemma WordBodyAccepts(value: string)
    ensures WordBody(value).Ok? <==> IsHexText(value, 64)
    ensures WordBody(value).Ok? ==>
      WordBody(value).value == Lower(value[2..]) && "0x" + Lower(value[2..]) == Lower(value)
  {
    HexBodyAccepts(value);
    hide IsHex, Lower, HexBody;
    if IsHexText(value, 64) {
      LowerPair('0', 'x', value[2..]);
      assert value == ['0', 'x'] + value[2..] && LowerChar('0') == '0' && LowerChar('x') == 'x';
      assert "0x" + Lower(value[2..]) == ['0', 'x'] + Lower(value[2..]);
    }
  }

  lemma DataBodyAccepts(value: string)
    ensures DataBody(value).Ok? <==> |value| >= 2 && |value| % 2 == 0 && IsHexText(value, |value| - 2)
    ensures DataBody(value).Ok? ==> DataBody(value).value == Lower(value[2..])
  {
    HexBodyAccepts(value);
    hide IsHex, Lower, HexBody;
  }

  /** The first `n` digits of a word are zero. */
  predicate LeadingZeros(word: string, n: nat) {
    n <= |word| && forall i | 0 <= i < n :: word[i] == '0'
  }

  lemma AddressAccepts(word: string)
    requires |word| == 64 && IsHex(word)
    ensures AddressFromWord(word) == if LeadingZeros(word, 24) then Ok("0x" + word[24..]) else Err(AddressPadding)
  {
    IsHexSlice(word, 0, 24);
    assert word[0..24] == word[..24];
    ParseHexZero(word[..24]);
    hide IsHex, ParseHex;
    assert forall i | 0 <= i < 24 :: word[..24][i] == word[i];
  }

  /** Data word `i`, as text. */
  function WordText(data: string, i: nat): string
    requires 64 * i + 64 <= |data|
  {
    data[64 * i..64 * i + 64]
  }

  function NumberAt(data: string, pos: nat): nat
    requires IsHex(data) && pos + 64 <= |data|
  {
    IsHexSlice(data, pos, pos + 64);
    ParseHex(data[pos..pos + 64])
  }

  /** The string at byte `offset` lies inside the data: its length word and as many bytes as that says. */
  predicate StringFits(data: string, offset: nat)
    requires IsHex(data)
  {
    && offset % 32 == 0 && 2 * offset + 64 <= |data|
    && 2 * offset + 64 + 2 * NumberAt(data, 2 * offset) <= |data|
  }

  function StringBytes(data: string, offset: nat): bytes
    requires IsHex(data) && StringFits(data, offset)
  {
    var start, length := 2 * offset + 64, NumberAt(data, 2 * offset);
    WholeBytes(data, start, length);
    FromHex(data[start..start + 2 * length])
  }

  lemma WholeBytes(data: string, start: nat, length: nat)
    requires IsHex(data) && start + 2 * length <= |data|
    ensures IsHex(data[start..start + 2 * length]) && |data[start..start + 2 * length]| % 2 == 0
  {
    hide IsHex;
    var end := start + 2 * length;
    IsHexSlice(data, start, end);
    Even(length);
    assert |data[start..end]| == 2 * length;
  }

  lemma Even(n: nat)
    ensures 2 * n % 2 == 0
  {
  }

  lemma StringAccepts(utf8: Utf8, data: string, offset: nat)
    requires IsHex(data)
    ensures StringFromData(utf8, data, offset).Ok?
      <==> StringFits(data, offset) && utf8(StringBytes(data, offset)).Some?
    ensures StringFromData(utf8, data, offset).Ok? ==>
      utf8(StringBytes(data, offset)) == Some(StringFromData(utf8, data, offset).value)
  {
    hide IsHex, ParseHex, FromHex;
  }

  /** Position of the first data word that both shapes have. */
  function FirstWord(shape: Shape): nat {
    if shape.Current? then 1 else 0
  }

  /** What data the decoder accepts: all words are there, the address words are padded with zeros, and the string
      that the offset word points to lies inside the data and is UTF-8. */
  predicate PayloadFits(utf8: Utf8, shape: Shape, data: string)
    requires IsHex(data)
  {
    var first := FirstWord(shape);
    && 64 * first + 384 <= |data|
    && (shape.Current? ==> LeadingZeros(WordText(data, 0), 24))
    && LeadingZeros(WordText(data, first), 24)
    && StringFits(data, NumberAt(data, 64 * first + 320))
    && utf8(StringBytes(data, NumberAt(data, 64 * first + 320))).Some?
  }

  lemma DataWordAccepts(data: string, i: nat)
    requires IsHex(data)
    ensures DataWord(data, i).Ok? <==> 64 * i + 64 <= |data|
    ensures 64 * i + 64 <= |data| ==> DataWord(data, i) == Ok(WordText(data, i)) && IsHex(WordText(data, i))
  {
    hide IsHex;
    if 64 * i + 64 <= |data| { IsHexSlice(data, 64 * i, 64 * i + 64); }
  }

  lemma OnBehalfOfAccepts(shape: Shape, data: string)
    requires IsHex(data)
    ensures DecodeOnBehalfOf(shape, data).Ok?
      <==> (shape.Current? ==> 64 <= |data| && LeadingZeros(WordText(data, 0), 24))
    ensures DecodeOnBehalfOf(shape, data).Ok? ==>
      DecodeOnBehalfOf(shape, data).value
      == if shape.Current? then "0x" + WordText(data, 0)[24..] else ZERO_ADDRESS_TEXT
  {
    DataWordAccepts(data, 0);
    hide IsHex, AddressFromWord, LeadingZeros, WordText, DataWord;
    if shape.Current? && 64 <= |data| { AddressAccepts(WordText(data, 0)); }
  }

  /** Where the fields of accepted data stand: the URI is the text of as many bytes as the length word says, right
      after that word, which stands where the offset word says. */
  predicate PayloadReads(utf8: Utf8, shape: Shape, data: string, p: Payload)
    requires IsHex(data) && PayloadFits(utf8, shape, data)
  {
    var first := FirstWord(shape);
    && p.onBehalfOf == (if shape.Current? then "0x" + WordText(data, 0)[24..] else ZERO_ADDRESS_TEXT)
    && p.submitter == "0x" + WordText(data, first)[24..]
    && p.parentHash == "0x" + WordText(data, first + 1) && p.blockHash == "0x" + WordText(data, first + 2)
    && p.contentHash == "0x" + WordText(data, first + 3) && p.uriHash == "0x" + WordText(data, first + 4)
    && Some(p.uri) == utf8(StringBytes(data, NumberAt(data, 64 * first + 320)))
  }

  /** Exactly which event data is accepted, whatever it is, and where each field is then read from. */
  lemma {:induction false} AcceptsPayload(utf8: Utf8, shape: Shape, data: string)
    requires IsHex(data)
    ensures DecodePayload(utf8, shape, data).Ok? <==> PayloadFits(utf8, shape, data)
    ensures PayloadFits(utf8, shape, data) ==> PayloadReads(utf8, shape, data, DecodePayload(utf8, shape, data).value)
  {
    hide IsHex, ParseHex, AddressFromWord, LeadingZeros, WordText, StringFromData, StringFits, StringBytes;
    hide DecodeOnBehalfOf;
    hide DecodePayload, NumberAt;
    var first := FirstWord(shape);
    OnBehalfOfAccepts(shape, data);
    if 64 * first + 384 <= |data| {
      WordIsHex(data, first);
      AddressAccepts(WordText(data, first));
      StringAccepts(utf8, data, NumberAt(data, 64 * first + 320));
      PayloadCases(utf8, shape, data);
    } else {
      PayloadShort(utf8, shape, data);
    }
  }

  lemma WordIsHex(data: string, i: nat)
    requires IsHex(data) && 64 * i + 64 <= |data|
    ensures |WordText(data, i)| == 64 && IsHex(WordText(data, i))
  {
    IsHexSlice(data, 64 * i, 64 * i + 64);
  }

  lemma PayloadShort(utf8: Utf8, shape: Shape, data: string)
    requires IsHex(data) && 64 * FirstWord(shape) + 384 > |data|
    ensures DecodePayload(utf8, shape, data).Err?
  {
    hide IsHex, ParseHex, AddressFromWord, WordText, StringFromData, DecodeOnBehalfOf;
    DataWordAccepts(data, FirstWord(shape) + 5);
  }

  /** Decoding data whose words are all there: only the two addresses and the string can fail. */
  lemma {:induction false} PayloadCases(utf8: Utf8, shape: Shape, data: string)
    requires IsHex(data) && 64 * FirstWord(shape) + 384 <= |data|
    ensures IsHex(WordText(data, FirstWord(shape)))
    ensures DecodePayload(utf8, shape, data)
      == var first := FirstWord(shape);
         match (DecodeOnBehalfOf(shape, data), AddressFromWord(WordText(data, first)))
         case (Err(e), _) => Err(e)
         case (Ok(_), Err(e)) => Err(e)
         case (Ok(o), Ok(s)) => PayloadOr(
           o, s, "0x" + WordText(data, first + 1), "0x" + WordText(data, first + 2), "0x" + WordText(data, first + 3),
           "0x" + WordText(data, first + 4), StringFromData(utf8, data, NumberAt(data, 64 * first + 320)))
  {
    hide IsHex, ParseHex, AddressFromWord, WordText, DataWord, StringFromData, DecodeOnBehalfOf, NumberAt;
    var first := FirstWord(shape);
    DataWordAccepts(data, first);
    DataWordAccepts(data, first + 1);
    DataWordAccepts(data, first + 2);
    DataWordAccepts(data, first + 3);
    DataWordAccepts(data, first + 4);
    DataWordAccepts(data, first + 5);
    OffsetWord(data, first + 5);
  }

  lemma OffsetWord(data: string, i: nat)
    requires IsHex(data) && 64 * i + 64 <= |data|
    ensures IsHex(WordText(data, i)) && ParseHex(WordText(data, i)) == NumberAt(data, 64 * i)
  {
    IsHexSlice(data, 64 * i, 64 * i + 64);
  }

  // ---- whole logs ----

  /** The shape that a first topic announces. */
  function ShapeOf(topic: string): Option<Shape> {
    if Lower(topic) == Text0x(TopicOf(Current)) then Some(Current)
    else if Lower(topic) == Text0x(TopicOf(Legacy)) then Some(Legacy)
    else None
  }

  lemma TextOrHex(body: string, b: bytes)
    ensures "0x" + body == Text0x(b) <==> body == Hex(b)
  {
    hide Hex;
    assert ("0x" + body)[2..] == body && Text0x(b)[2..] == Hex(b);
  }

  lemma ShapeAccepts(topics: seq<string>)
    ensures DecodeShape(topics).Ok? <==> |topics| == 4 && IsHexText(topics[0], 64) && ShapeOf(topics[0]).Some?
    ensures DecodeShape(topics).Ok? ==> Some(DecodeShape(topics).value) == ShapeOf(topics[0])
  {
    hide IsHex, Lower, Hex, Word, IsHexText, WordBody;
    if topics != [] {
      WordBodyAccepts(topics[0]);
      if WordBody(topics[0]).Ok? {
        TextOrHex(Lower(topics[0][2..]), TopicOf(Current));
        TextOrHex(Lower(topics[0][2..]), TopicOf(Legacy));
      }
    }
  }

  /** The number a topic holds. */
  function TopicNumber(topic: string): nat
    requires IsHexText(topic, 64)
  {
    WordBodyAccepts(topic);
    ParseHex(Lower(topic[2..]))
  }

  predicate TopicsFit(topics: seq<string>) {
    && |topics| == 4 && (forall i | 0 <= i < 4 :: IsHexText(topics[i], 64))
    && ShapeOf(topics[0]).Some?
    && LeadingZeros(Lower(topics[2][2..]), 24)
    && TopicNumber(topics[3]) < 0x1_0000_0000_0000_0000
  }

  lemma {:induction false} AcceptsTopics(topics: seq<string>)
    ensures DecodeTopics(topics).Ok? <==> TopicsFit(topics)
    ensures DecodeTopics(topics).Ok? ==>
      var i := DecodeTopics(topics).value;
      && Some(i.shape) == ShapeOf(topics[0]) && i.docChainId == Lower(topics[1])
      && i.attester == "0x" + Lower(topics[2][2..])[24..] && i.docRef == TopicNumber(topics[3])
  {
    hide IsHex, Lower, ParseHex, IsHexText, WordBody, DecodeShape, ShapeOf, AddressFromWord, LeadingZeros;
    ShapeAccepts(topics);
    if |topics| == 4 {
      WordBodyAccepts(topics[1]);
      WordBodyAccepts(topics[2]);
      WordBodyAccepts(topics[3]);
      FourTopics(topics);
      if WordBody(topics[2]).Ok? { AddressAccepts(Lower(topics[2][2..])); }
    }
  }

  lemma FourTopics(topics: seq<string>)
    requires |topics| == 4
    ensures (forall i | 0 <= i < 4 :: IsHexText(topics[i], 64))
      <==> IsHexText(topics[0], 64) && IsHexText(topics[1], 64) && IsHexText(topics[2], 64) && IsHexText(topics[3], 64)
  {
    hide IsHexText;
  }

  predicate QuantityFits(q: Quantity) {
    match q
    case Number(n) => n >= 0
    case HexText(s) => |s| >= 2 && IsHexText(s, |s| - 2)
  }

  function QuantityOf(q: Quantity): nat
    requires QuantityFits(q)
  {
    match q
    case Number(n) => n
    case HexText(s) => HexBodyAccepts(s); ParseHex(Lower(s[2..]))
  }

  lemma QuantityAccepts(q: Quantity)
    ensures QuantityValue(q).Ok? <==> QuantityFits(q)
    ensures QuantityFits(q) ==> QuantityValue(q) == Ok(QuantityOf(q))
  {
    hide IsHex, Lower, ParseHex, HexBody, IsHexText;
    if q.HexText? { HexBodyAccepts(q.s); }
  }

  predicate LocationFits(log: RawLog) {
    && QuantityFits(log.blockNumber) && IsHexText(log.transactionHash, 64) && QuantityFits(log.logIndex)
    && (log.blockHash.Some? ==> IsHexText(log.blockHash.value, 64))
  }

  lemma AcceptsLocation(log: RawLog)
    ensures DecodeLocation(log).Ok? <==> LocationFits(log)
    ensures LocationFits(log) ==>
      DecodeLocation(log) == Ok(Location(
        QuantityOf(log.blockNumber), Lower(log.transactionHash), QuantityOf(log.logIndex),
        if log.blockHash.Some? then Lower(log.blockHash.value) else ""))
  {
    QuantityAccepts(log.blockNumber);
    QuantityAccepts(log.logIndex);
    WordBodyAccepts(log.transactionHash);
    if log.blockHash.Some? { WordBodyAccepts(log.blockHash.value); }
    hide IsHex, Lower, QuantityFits, QuantityOf, QuantityValue, IsHexText, WordBody;
  }

  /** The digits of a hex text, in lower case. */
  function DigitsOf(value: string): (r: string)
    requires |value| >= 2 && IsHexText(value, |value| - 2)
    ensures IsHex(r)
  {
    HexBodyAccepts(value);
    Lower(value[2..])
  }

  predicate DataFits(utf8: Utf8, shape: Shape, data: string) {
    |data| >= 2 && |data| % 2 == 0 && IsHexText(data, |data| - 2) && PayloadFits(utf8, shape, DigitsOf(data))
  }

  /** What logs fit, whatever they are: four 32-byte topics of a known shape with an address and a 64-bit number,
      data that fits the shape, and a location. */
  predicate LogFits(utf8: Utf8, log: RawLog) {
    TopicsFit(log.topics) && DataFits(utf8, ShapeOf(log.topics[0]).value, log.data) && LocationFits(log)
  }

  /** Every field of the record is a stretch of the log's own text, in lower case. */
  predicate ReadsFrom(utf8: Utf8, log: RawLog, r: DocAttested)
    requires LogFits(utf8, log)
  {
    var shape, data := ShapeOf(log.topics[0]).value, DigitsOf(log.data);
    && r.docChainId == Lower(log.topics[1]) && r.attester == "0x" + Lower(log.topics[2][2..])[24..]
    && r.docRef == TopicNumber(log.topics[3])
    && PayloadReads(utf8, shape, data,
         Payload(r.onBehalfOf, r.submitter, r.parentHash, r.blockHash, r.contentHash, r.uriHash, r.uri))
    && r.blockNumber == QuantityOf(log.blockNumber) && r.logIndex == QuantityOf(log.logIndex)
    && r.transactionHash == Lower(log.transactionHash)
    && r.ethereumBlockHash == if log.blockHash.Some? then Lower(log.blockHash.value) else ""
  }

  /** Exactly which logs are accepted, whatever they are, and where each field is then read from. */
  lemma {:induction false} AcceptsLog(utf8: Utf8, log: RawLog)
    ensures Decode(utf8, log).Ok? <==> LogFits(utf8, log)
    ensures LogFits(utf8, log) ==> ReadsFrom(utf8, log, Decode(utf8, log).value)
  {
    AcceptsTopics(log.topics);
    DataBodyAccepts(log.data);
    AcceptsLocation(log);
    hide IsHex, Lower, ParseHex, FromHex, IsHexText, DecodeTopics, DecodePayload, DecodeLocation, DataBody, PayloadFits;
    hide TopicsFit, LocationFits, ShapeOf, QuantityOf, TopicNumber, PayloadReads;
    if DecodeTopics(log.topics).Ok? && DataBody(log.data).Ok? {
      AcceptsPayload(utf8, DecodeTopics(log.topics).value.shape, DataBody(log.data).value);
    }
  }
}
