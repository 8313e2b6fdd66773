/** The call data writer: hand-laid ABI offsets over hex text. */
module Attestation {
  import opened Wrappers
  import opened Bytes
  import opened Digits
  import opened Eip712
  import Abi
  import Events

  const ATTEST_DOC_SELECTOR: string := "d2b85e96"
  const ATTEST_BATCH_SELECTOR: string := "7fba5650"
  const DOC_BLOCK_TYPEHASH: uint256 := 0xb8421210_2d711af6_fc7ae9fa_3e37753b_efb8b257_62a55263_1b0e9ff9_e8d07894

  /** The mappings a caller passes: text and numbers as JSON would hold them; the URI as its UTF-8 bytes. */
  datatype BlockFields = BlockFields(docChainId: string, docRef: int, parentHash: string, contentHash: string)

  datatype Fields = Fields(
    attester: string, onBehalfOf: Option<string>, docBlock: Option<BlockFields>, uri: Option<bytes>, deadline: int)

  datatype Submission = Submission(fields: Fields, signature: string)

  datatype Error = NotHex | WrongLength | OddLength | Negative | DocRefTooLarge | DocBlockNotAnObject | EmptyBatch

  // ---- words ----

  function HexBody(value: string): (r: Result<string, Error>)
    ensures r.Ok? ==> IsHex(r.value)
  {
    if |value| < 2 || Lower(value[..2]) != "0x" || !IsHex(Lower(value[2..])) then Err(NotHex) else Ok(Lower(value[2..]))
  }

  function FixedBody(value: string, length: nat): (r: Result<string, Error>)
    ensures r.Ok? ==> IsHex(r.value) && |r.value| == length
  {
    var body :- HexBody(value);
    if |body| != length then Err(WrongLength) else Ok(body)
  }

  function BytesBody(value: string): (r: Result<string, Error>)
    ensures r.Ok? ==> IsHex(r.value) && |r.value| % 2 == 0
  {
    var body :- HexBody(value);
    if |body| % 2 != 0 then Err(OddLength) else Ok(body)
  }

  function WordUint(value: int): Result<string, Error> {
    if value < 0 then Err(Negative) else Ok(FormatHex(value, 64))
  }

  function WordUint64(value: int): Result<string, Error> {
    if value < 0 then Err(Negative) else if value > 0xffff_ffff_ffff_ffff then Err(DocRefTooLarge) else WordUint(value)
  }

  function WordAddress(value: string): Result<string, Error> {
    var body :- FixedBody(value, 40);
    Ok(PadZero(body, 64))
  }

  /** `_encode_bytes` */
  function EncodeBytes(payload: bytes): string {
    FormatHex(|payload|, 64) + Hex(Abi.PadRight(payload))
  }

  function EncodeSignature(signature: string): Result<string, Error> {
    var body :- BytesBody(signature);
    Ok(EncodeBytes(FromHex(body)))
  }

  function OnBehalfOf(f: Fields): string {
    if f.onBehalfOf.Some? then f.onBehalfOf.value else Events.ZERO_ADDRESS_TEXT
  }

  function Uri(f: Fields): bytes {
    if f.uri.Some? then f.uri.value else []
  }

  /** `_encode_attestation` */
  function EncodeAttestation(f: Fields): Result<string, Error> {
    if f.docBlock.None? then Err(DocBlockNotAnObject)
    else
      var attester :- WordAddress(f.attester);
      var onBehalfOf :- WordAddress(OnBehalfOf(f));
      var docChainId :- FixedBody(f.docBlock.value.docChainId, 64);
      var docRef :- WordUint64(f.docBlock.value.docRef);
      var parentHash :- FixedBody(f.docBlock.value.parentHash, 64);
      var contentHash :- FixedBody(f.docBlock.value.contentHash, 64);
      var uriOffset :- WordUint(8 * 32);
      var deadline :- WordUint(f.deadline);
      Ok(attester + onBehalfOf + docChainId + docRef + parentHash + contentHash + uriOffset + deadline
         + EncodeBytes(Uri(f)))
  }

  // ---- dynamic arrays ----

  function HeadsOf(tails: seq<string>, offset: nat): string {
    if tails == [] then "" else FormatHex(offset, 64) + HeadsOf(tails[1..], offset + |tails[0]| / 2)
  }

  function Joined(tails: seq<string>): string {
    if tails == [] then "" else tails[0] + Joined(tails[1..])
  }

  /** `_encode_dynamic_array` */
  function EncodeDynamicArray(tails: seq<string>): string {
    FormatHex(|tails|, 64) + HeadsOf(tails, |tails| * 32) + Joined(tails)
  }

  lemma TailStep(tails: seq<string>, i: nat, heads: string, joined: string, offset: nat)
    requires i < |tails|
    ensures heads + HeadsOf(tails[i..], offset)
      == (heads + FormatHex(offset, 64)) + HeadsOf(tails[i + 1..], offset + |tails[i]| / 2)
    ensures joined + Joined(tails[i..]) == (joined + tails[i]) + Joined(tails[i + 1..])
  {
    hide FormatHex;
    assert tails[i..][0] == tails[i] && tails[i..][1..] == tails[i + 1..];
  }

  method EncodeDynamicArrayLoop(elementTails: seq<string>) returns (r: string)
    ensures r == EncodeDynamicArray(elementTails)
  {
    var heads, joined, offset: nat := "", "", |elementTails| * 32;
    assert HeadsOf([], offset) == "" && Joined([]) == "";
    hide FormatHex, HeadsOf, Joined;
    for i := 0 to |elementTails|
      invariant heads + HeadsOf(elementTails[i..], offset) == HeadsOf(elementTails, |elementTails| * 32)
      invariant joined + Joined(elementTails[i..]) == Joined(elementTails)
    {
      TailStep(elementTails, i, heads, joined, offset);
      heads := heads + FormatHex(offset, 64);
      joined := joined + elementTails[i];
      offset := offset + |elementTails[i]| / 2;
    }
    NoTails(offset);
    assert elementTails[|elementTails|..] == [];
    assert heads + "" == heads && joined + "" == joined;
    r := FormatHex(|elementTails|, 64) + heads + joined;
  }

  lemma NoTails(offset: nat)
    ensures HeadsOf([], offset) == "" && Joined([]) == ""
  {
  }

  // ---- calls ----

  datatype Tails = Tails(attestations: seq<string>, signatures: seq<string>)

  /** The encoded items, in order; the first bad item decides the error. */
  function EncodeItems(items: seq<Submission>): Result<Tails, Error> {
    if items == [] then Ok(Tails([], []))
    else
      var before :- EncodeItems(items[..|items| - 1]);
      var attestation :- EncodeAttestation(items[|items| - 1].fields);
      var signature :- EncodeSignature(items[|items| - 1].signature);
      Ok(Tails(before.attestations + [attestation], before.signatures + [signature]))
  }

  /** `attest_batch_calldata` */
  function BatchCalldata(items: seq<Submission>): Result<string, Error> {
    if items == [] then Err(EmptyBatch)
    else
      var tails :- EncodeItems(items);
      var attestations, signatures := EncodeDynamicArray(tails.attestations), EncodeDynamicArray(tails.signatures);
      Ok("0x" + ATTEST_BATCH_SELECTOR
         + (FormatHex(64, 64) + FormatHex(64 + |attestations| / 2, 64) + attestations + signatures))
  }

  lemma {:induction false} EncodeItemsPrefix(items: seq<Submission>, n: nat)
    requires n <= |items| && EncodeItems(items[..n]).Err?
    ensures EncodeItems(items) == Err(EncodeItems(items[..n]).error)
    decreases |items|
  {
    if n < |items| {
      assert items[..|items| - 1][..n] == items[..n];
      EncodeItemsPrefix(items[..|items| - 1], n);
    } else {
      assert items[..n] == items;
    }
  }

  method AttestBatchCalldata(items: seq<Submission>) returns (r: Result<string, Error>)
    ensures r == BatchCalldata(items)
  {
    hide EncodeAttestation, EncodeSignature, EncodeDynamicArray, FormatHex;
    if items == [] { return Err(EmptyBatch); }
    var attestationTails, signatureTails := [], [];
    for i := 0 to |items|
      invariant EncodeItems(items[..i]) == Ok(Tails(attestationTails, signatureTails))
    {
      assert items[..i + 1][..i] == items[..i] && items[..i + 1][i] == items[i];
      var attestation := EncodeAttestation(items[i].fields);
      if attestation.Err? {
        EncodeItemsPrefix(items, i + 1);
        return Err(attestation.error);
      }
      var signature := EncodeSignature(items[i].signature);
      if signature.Err? {
        EncodeItemsPrefix(items, i + 1);
        return Err(signature.error);
      }
      attestationTails, signatureTails := attestationTails + [attestation.value], signatureTails + [signature.value];
    }
    assert items[..|items|] == items;
    var attestationsEncoded := EncodeDynamicArrayLoop(attestationTails);
    var signaturesEncoded := EncodeDynamicArrayLoop(signatureTails);
    var payload := FormatHex(64, 64) + FormatHex(64 + |attestationsEncoded| / 2, 64) + attestationsEncoded
      + signaturesEncoded;
    r := Ok("0x" + ATTEST_BATCH_SELECTOR + payload);
  }

  /** `attest_doc_calldata` */
  function DocCalldata(item: Submission): Result<string, Error> {
    var attestation :- EncodeAttestation(item.fields);
    var signature :- EncodeSignature(item.signature);
    Ok("0x" + ATTEST_DOC_SELECTOR
       + (FormatHex(64, 64) + FormatHex(64 + |attestation| / 2, 64) + attestation + signature))
  }

  /** `doc_block_hash_payload` */
  function DocBlockHashPayload(b: BlockFields): Result<string, Error> {
    var docChainId :- FixedBody(b.docChainId, 64);
    var docRef :- WordUint64(b.docRef);
    var parentHash :- FixedBody(b.parentHash, 64);
    var contentHash :- FixedBody(b.contentHash, 64);
    Ok("0x" + Hex(Word(DOC_BLOCK_TYPEHASH)) + docChainId + docRef + parentHash + contentHash)
  }

  // ---- what the fields mean ----

  /** "0x" in either letter case and so many hex digits. */
  predicate IsHexText(s: string, digits: nat) {
    |s| == digits + 2 && s[0] == '0' && (s[1] == 'x' || s[1] == 'X') && forall i | 2 <= i < |s| :: IsDigit(s[i])
  }

  /** Whole bytes of hex text, however many. */
  predicate IsBytesText(s: string) {
    |s| >= 2 && |s| % 2 == 0 && IsHexText(s, |s| - 2)
  }

  lemma HexTextDigits(s: string)
    requires |s| >= 2
    ensures IsHex(s[2..]) <==> forall i | 2 <= i < |s| :: IsDigit(s[i])
  {
    hide IsHex, IsDigit;
    IsHexDigits(s[2..]);
    if forall i | 0 <= i < |s[2..]| :: IsDigit(s[2..][i]) {
      forall i | 2 <= i < |s| ensures IsDigit(s[i]) { assert s[i] == s[2..][i - 2]; }
    }
  }

  /** The bytes that hex text stands for. */
  function BytesOf(s: string): (b: bytes)
    requires IsBytesText(s)
    ensures |s| == 2 * |b| + 2
  {
    HexTextDigits(s);
    FromHex(s[2..])
  }

  predicate ValidBlock(b: BlockFields) {
    && IsHexText(b.docChainId, 64) && IsHexText(b.parentHash, 64) && IsHexText(b.contentHash, 64)
    && 0 <= b.docRef < 0x1_0000_0000_0000_0000
  }

  /** Fields that make an attestation: a block, hex texts of the right lengths, a 64-bit reference and a
      non-negative deadline. */
  predicate ValidFields(f: Fields) {
    && f.docBlock.Some? && ValidBlock(f.docBlock.value)
    && IsHexText(f.attester, 40) && IsHexText(OnBehalfOf(f), 40)
    && f.deadline >= 0
  }

  predicate ValidSubmission(s: Submission) {
    ValidFields(s.fields) && IsBytesText(s.signature)
  }

  function AddressOf(text: string): Address
    requires IsHexText(text, 40)
  {
    BytesOf(text)
  }

  function Bytes32Of(text: string): Bytes32
    requires IsHexText(text, 64)
  {
    BytesOf(text)
  }

  function BlockOf(b: BlockFields): DocBlock
    requires ValidBlock(b)
  {
    DocBlock(Bytes32Of(b.docChainId), b.docRef, Bytes32Of(b.parentHash), Bytes32Of(b.contentHash))
  }

  function AttestationOf(f: Fields): DocAttestation
    requires ValidFields(f) && f.deadline < TWO_256
  {
    DocAttestation(AddressOf(f.attester), AddressOf(OnBehalfOf(f)), BlockOf(f.docBlock.value), Uri(f), f.deadline)
  }

  function SignatureOf(s: Submission): bytes
    requires ValidSubmission(s)
  {
    BytesOf(s.signature)
  }

  // ---- what the parsers accept ----

  lemma PrefixAccepts(s: string)
    requires |s| >= 2
    ensures Lower(s[..2]) == "0x" <==> s[0] == '0' && (s[1] == 'x' || s[1] == 'X')
  {
    var t := s[..2];
    assert t[1..] == [s[1]] && [s[1]][1..] == "";
    assert Lower([s[1]]) == [LowerChar(s[1])] + Lower("");
    assert Lower(t) == [LowerChar(s[0])] + ([LowerChar(s[1])] + "");
    assert Lower(t)[0] == LowerChar(s[0]) && Lower(t)[1] == LowerChar(s[1]);
    assert "0x"[0] == '0' && "0x"[1] == 'x';
  }

  lemma HexBodyAccepts(value: string)
    ensures HexBody(value).Ok? <==> |value| >= 2 && IsHexText(value, |value| - 2)
    ensures HexBody(value).Ok? ==> HexBody(value).value == Lower(value[2..])
  {
    if |value| >= 2 {
      PrefixAccepts(value);
      LowerIsHex(value[2..]);
      HexTextDigits(value);
      hide IsHex, Lower, IsDigit;
    }
  }

  lemma BytesOfText(value: string)
    requires IsBytesText(value)
    ensures Lower(value[2..]) == Hex(BytesOf(value)) && FromHex(Hex(BytesOf(value))) == BytesOf(value)
  {
    hide IsHex, Lower, Hex, FromHex, IsDigit;
    HexTextDigits(value);
    HexOfFromHex(value[2..]);
    FromHexOfHex(BytesOf(value));
  }

  lemma FixedBodyAccepts(value: string, n: nat)
    ensures FixedBody(value, 2 * n).Ok? <==> IsHexText(value, 2 * n)
    ensures IsHexText(value, 2 * n) ==> FixedBody(value, 2 * n) == Ok(Hex(BytesOf(value)))
  {
    HexBodyAccepts(value);
    hide IsHex, Lower, HexBody, IsDigit;
    if IsHexText(value, 2 * n) { BytesOfText(value); }
  }

  lemma BytesBodyAccepts(value: string)
    ensures BytesBody(value).Ok? <==> IsBytesText(value)
    ensures IsBytesText(value) ==> BytesBody(value) == Ok(Hex(BytesOf(value)))
  {
    HexBodyAccepts(value);
    hide IsHex, Lower, HexBody, IsDigit;
    if IsBytesText(value) { BytesOfText(value); }
  }

  lemma SignatureText(value: string)
    ensures EncodeSignature(value).Ok? <==> IsBytesText(value)
    ensures IsBytesText(value) ==> EncodeSignature(value) == Ok(EncodeBytes(BytesOf(value)))
  {
    BytesBodyAccepts(value);
    hide IsBytesText, BytesBody, EncodeBytes, Hex, FromHex, IsHex;
    if IsBytesText(value) { BytesOfText(value); }
  }

  lemma WordAddressAccepts(value: string)
    ensures WordAddress(value).Ok? <==> IsHexText(value, 40)
  {
    hide FixedBody, IsHexText, PadZero;
    FixedBodyAccepts(value, 20);
  }

  lemma WordUintAccepts(value: int)
    ensures WordUint(value).Ok? <==> value >= 0
    ensures WordUint64(value).Ok? <==> 0 <= value < 0x1_0000_0000_0000_0000
  {
    hide FormatHex;
  }

  /** Exactly which fields the writer accepts. */
  lemma AcceptsAttestation(f: Fields)
    ensures EncodeAttestation(f).Ok? <==> ValidFields(f)
  {
    hide FixedBody, WordAddress, WordUint, WordUint64, EncodeBytes, IsHexText;
    WordAddressAccepts(f.attester);
    WordAddressAccepts(OnBehalfOf(f));
    WordUintAccepts(f.deadline);
    WordUintAccepts(256);
    if f.docBlock.Some? {
      WordUintAccepts(f.docBlock.value.docRef);
      FixedBodyAccepts(f.docBlock.value.docChainId, 32);
      FixedBodyAccepts(f.docBlock.value.parentHash, 32);
      FixedBodyAccepts(f.docBlock.value.contentHash, 32);
    }
  }

  lemma AcceptsLast(items: seq<Submission>)
    requires items != []
    ensures var init, last := items[..|items| - 1], items[|items| - 1];
      EncodeItems(items).Ok? <==> EncodeItems(init).Ok? && ValidSubmission(last)
  {
    hide EncodeAttestation, EncodeSignature, IsBytesText, ValidFields;
    SignatureText(items[|items| - 1].signature);
    AcceptsAttestation(items[|items| - 1].fields);
  }

  lemma InitAndLast<T>(xs: seq<T>)
    requires xs != []
    ensures forall x :: x in xs <==> x in xs[..|xs| - 1] || x == xs[|xs| - 1]
  {
    assert xs == xs[..|xs| - 1] + [xs[|xs| - 1]];
  }

  lemma {:induction false} AcceptsItems(items: seq<Submission>)
    ensures EncodeItems(items).Ok? <==> forall s | s in items :: ValidSubmission(s)
  {
    if items != [] {
      hide EncodeItems, ValidSubmission;
      AcceptsItems(items[..|items| - 1]);
      AcceptsLast(items);
      InitAndLast(items);
    }
  }

  /** Exactly which batches get call data. */
  lemma AcceptsBatch(items: seq<Submission>)
    ensures BatchCalldata(items).Ok? <==> items != [] && forall s | s in items :: ValidSubmission(s)
  {
    hide EncodeItems, ValidSubmission;
    AcceptsItems(items);
  }

  /** A refused batch is empty, or it is refused for its first invalid item, with the error that this item gets when
      it is written alone. */
  lemma {:induction false} RefusesFirstInvalid(items: seq<Submission>)
    ensures BatchCalldata(items).Err? ==>
      if items == [] then BatchCalldata(items).error == EmptyBatch
      else exists i | 0 <= i < |items| ::
             && (forall j | 0 <= j < i :: ValidSubmission(items[j]))
             && !ValidSubmission(items[i])
             && DocCalldata(items[i]) == Err(BatchCalldata(items).error)
  {
    hide EncodeAttestation, EncodeSignature, ValidSubmission, EncodeDynamicArray, FormatHex;
    if items != [] && BatchCalldata(items).Err? {
      var i := FirstInvalid(items);
    }
  }

  lemma {:induction false} FirstInvalid(items: seq<Submission>) returns (i: nat)
    requires EncodeItems(items).Err?
    ensures i < |items| && (forall j | 0 <= j < i :: ValidSubmission(items[j])) && !ValidSubmission(items[i])
    ensures DocCalldata(items[i]) == Err(EncodeItems(items).error)
  {
    hide EncodeAttestation, EncodeSignature, ValidSubmission, FormatHex;
    var n := |items| - 1;
    if EncodeItems(items[..n]).Err? {
      i := FirstInvalid(items[..n]);
      assert forall j | 0 <= j < n :: items[..n][j] == items[j];
    } else {
      i := n;
      AcceptsItems(items[..n]);
      AcceptsLast(items);
      forall j | 0 <= j < n ensures ValidSubmission(items[j]) {
        assert items[..n][j] in items[..n];
      }
    }
  }

  // ---- the ABI types of the two calls ----

  function BlockTypes(): seq<Abi.Type> {
    [Abi.Word32, Abi.Uint(8), Abi.Word32, Abi.Word32]
  }

  function AttestationTypes(): seq<Abi.Type> {
    [Abi.AddressType, Abi.AddressType, Abi.TupleOf(BlockTypes()), Abi.ByteString, Abi.Uint(32)]
  }

  function AttestationType(): Abi.Type {
    Abi.TupleOf(AttestationTypes())
  }

  function BlockValues(b: DocBlock): seq<Abi.Value> {
    [Abi.Raw(b.docChainId), Abi.Num(b.docRef), Abi.Raw(b.parentHash), Abi.Raw(b.contentHash)]
  }

  function AttestationValue(a: DocAttestation): Abi.Value {
    Abi.Items([Abi.Addr(a.attester), Abi.Addr(a.onBehalfOf), Abi.Items(BlockValues(a.docBlock)), Abi.Blob(a.uri),
               Abi.Num(a.deadline)])
  }

  /** The words before the URI, as the specification lays them out. */
  function HeadBytes(a: DocAttestation): bytes {
    AddressWord(a.attester) + (AddressWord(a.onBehalfOf)
    + ((a.docBlock.docChainId + (Word(a.docBlock.docRef) + (a.docBlock.parentHash + a.docBlock.contentHash)))
       + (Word(256) + Word(a.deadline))))
  }

  lemma {:induction false} BlockLayout(b: DocBlock)
    ensures Abi.AllWellTyped(BlockTypes(), BlockValues(b)) && !Abi.AnyDynamic(BlockTypes())
    ensures Abi.HeadsSize(BlockTypes()) == 128
    ensures Abi.EncAll(BlockTypes(), BlockValues(b))
      == b.docChainId + (Word(b.docRef) + (b.parentHash + b.contentHash))
  {
    var w, u := Abi.Word32, Abi.Uint(8);
    var none: seq<Abi.Type>, nothing: seq<Abi.Value> := [], [];
    WordComponents(b);
    Abi.NoParts(w, 128);
    hide Abi.Enc, Abi.WellTyped, Abi.AllWellTyped, Abi.Dynamic, Abi.AnyDynamic, Abi.Heads, Abi.Tails, Abi.HeadsSize;
    hide Abi.HeadSize, Word;
    Abi.FrontStatic(w, Abi.Raw(b.contentHash), none, nothing, 128, [], []);
    assert b.contentHash + [] == b.contentHash;
    var t1, v1 := [w] + none, [Abi.Raw(b.contentHash)] + nothing;
    Abi.FrontStatic(w, Abi.Raw(b.parentHash), t1, v1, 128, b.contentHash, []);
    var t2, v2 := [w] + t1, [Abi.Raw(b.parentHash)] + v1;
    Abi.FrontStatic(u, Abi.Num(b.docRef), t2, v2, 128, b.parentHash + b.contentHash, []);
    var t3, v3 := [u] + t2, [Abi.Num(b.docRef)] + v2;
    Abi.FrontStatic(w, Abi.Raw(b.docChainId), t3, v3, 128, Word(b.docRef) + (b.parentHash + b.contentHash), []);
    assert BlockTypes() == [w] + t3 && BlockValues(b) == [Abi.Raw(b.docChainId)] + v3;
    Abi.EncAllParts(BlockTypes(), BlockValues(b), 128,
                    b.docChainId + (Word(b.docRef) + (b.parentHash + b.contentHash)), []);
  }

  lemma WordComponents(b: DocBlock)
    ensures var u := Abi.Uint(8);
      && Abi.WellTyped(u, Abi.Num(b.docRef)) && Abi.Enc(u, Abi.Num(b.docRef)) == Word(b.docRef)
      && !Abi.Dynamic(u) && Abi.HeadSize(u) == 32 && !Abi.Dynamic(Abi.Word32) && Abi.HeadSize(Abi.Word32) == 32
      && !Abi.AnyDynamic([])
      && forall w: Bytes32 :: Abi.WellTyped(Abi.Word32, Abi.Raw(w)) && Abi.Enc(Abi.Word32, Abi.Raw(w)) == w
  {
    Pow256Constants();
  }

  /** The specification's encoding of an attestation: six words, the URI offset 256, the deadline, the URI. */
  lemma {:induction false} AttestationLayout(a: DocAttestation)
    requires |a.uri| < TWO_256
    ensures Abi.WellTyped(AttestationType(), AttestationValue(a)) && Abi.Dynamic(AttestationType())
    ensures Abi.Enc(AttestationType(), AttestationValue(a)) == HeadBytes(a) + (Word(|a.uri|) + Abi.PadRight(a.uri))
  {
    BlockLayout(a.docBlock);
    Pow256Constants();
    var addr, block, str, num := Abi.AddressType, Abi.TupleOf(BlockTypes()), Abi.ByteString, Abi.Uint(32);
    var vb, vu, vd := Abi.Items(BlockValues(a.docBlock)), Abi.Blob(a.uri), Abi.Num(a.deadline);
    hide BlockTypes, BlockValues;
    assert Abi.WellTyped(num, vd) && Abi.WellTyped(block, vb) && !Abi.Dynamic(block) && Abi.HeadSize(block) == 128;
    Abi.OneDynamic(addr, addr, block, str, num, Abi.Addr(a.attester), Abi.Addr(a.onBehalfOf), vb, vu, vd);
    var ts, vs := AttestationTypes(), AttestationValue(a).vs;
    assert Abi.Enc(AttestationType(), AttestationValue(a)) == Abi.EncAll(ts, vs);
  }

  // ---- the writer produces the specification's bytes, in hex ----

  lemma {:induction false} HexOfZeros(n: nat)
    ensures Hex(Zeros(n)) == seq(2 * n, _ => '0')
  {
    if n > 0 {
      HexOfZeros(n - 1);
      assert Zeros(n)[1..] == Zeros(n - 1);
    }
  }

  lemma AddressText(value: string)
    requires IsHexText(value, 40)
    ensures WordAddress(value) == Ok(Hex(AddressWord(AddressOf(value))))
  {
    hide FixedBody, IsHexText, BytesOf, Hex, IsHex;
    FixedBodyAccepts(value, 20);
    HexConcat(Zeros(12), AddressOf(value));
    HexOfZeros(12);
  }

  lemma WordText(v: uint256)
    ensures FormatHex(v, 64) == Hex(Word(v))
  {
    Pow256Constants();
    FormatHexIsBigEndian(v, 32);
  }

  /** The writer does not bound a number: it writes one word exactly when the number fits in one. */
  lemma WordUintIsOneWord(v: nat)
    ensures WordUint(v).Ok? && (|WordUint(v).value| == 64 <==> v < TWO_256)
  {
    hide HexNumber;
    Pow256Constants();
    HexNumberLength(v, 32);
  }

  lemma BytesText(payload: bytes)
    requires |payload| < TWO_256
    ensures EncodeBytes(payload) == Hex(Word(|payload|) + Abi.PadRight(payload))
  {
    hide FormatHex, Hex;
    WordText(|payload|);
    HexConcat(Word(|payload|), Abi.PadRight(payload));
  }

  /** Hex text distributes over the concatenation of a head of eight words and a tail. */
  lemma HexOfNine(a: bytes, b: bytes, c: bytes, d: bytes, e: bytes, f: bytes, g: bytes, h: bytes, t: bytes)
    ensures Hex(a) + Hex(b) + Hex(c) + Hex(d) + Hex(e) + Hex(f) + Hex(g) + Hex(h) + Hex(t)
      == Hex(a + b + c + d + e + f + g + h + t)
  {
    hide Hex, IsHex;
    HexConcat(a, b);
    HexConcat(a + b, c);
    HexConcat(a + b + c, d);
    HexConcat(a + b + c + d, e);
    HexConcat(a + b + c + d + e, f);
    HexConcat(a + b + c + d + e + f, g);
    HexConcat(a + b + c + d + e + f + g, h);
    HexConcat(a + b + c + d + e + f + g + h, t);
  }

  lemma Assoc<T>(a: seq<T>, b: seq<T>, c: seq<T>)
    ensures a + (b + c) == a + b + c
  {
  }

  lemma HeadInOrder(a: DocAttestation)
    ensures HeadBytes(a) == AddressWord(a.attester) + AddressWord(a.onBehalfOf) + a.docBlock.docChainId
      + Word(a.docBlock.docRef) + a.docBlock.parentHash + a.docBlock.contentHash + Word(256) + Word(a.deadline)
  {
    hide AddressWord, Word;
    var p: bytes, q: bytes := AddressWord(a.attester), AddressWord(a.onBehalfOf);
    var b, m: bytes, n: bytes := a.docBlock, Word(256), Word(a.deadline);
    var w := Word(b.docRef);
    Assoc(w, b.parentHash, b.contentHash);
    Assoc(b.docChainId, w + b.parentHash, b.contentHash);
    Assoc(b.docChainId, w, b.parentHash);
    var block := b.docChainId + w + b.parentHash + b.contentHash;
    Assoc(q, block, m + n);
    Assoc(p, q + block, m + n);
    Assoc(p + (q + block), m, n);
    Assoc(p, q, block);
    Assoc(p + q, b.docChainId + w + b.parentHash, b.contentHash);
    Assoc(p + q, b.docChainId + w, b.parentHash);
    Assoc(p + q, b.docChainId, w);
  }

  /** `_encode_attestation` writes the specification's encoding of the attestation its fields mean. */
  lemma {:induction false} EncodesAttestation(f: Fields)
    requires ValidFields(f) && f.deadline < TWO_256 && |Uri(f)| < TWO_256
    ensures Abi.WellTyped(AttestationType(), AttestationValue(AttestationOf(f))) && Abi.Dynamic(AttestationType())
    ensures EncodeAttestation(f) == Ok(Hex(Abi.Enc(AttestationType(), AttestationValue(AttestationOf(f)))))
  {
    hide HexBody, FixedBody, Hex, IsHex, IsHexText, BytesOf, FormatHex, EncodeBytes, WordAddress, AttestationType;
    hide AttestationValue, HeadBytes, EncodeAttestation, WordUint64, WordUint, AddressWord, Word;
    var a, b := AttestationOf(f), f.docBlock.value;
    AddressText(f.attester);
    AddressText(OnBehalfOf(f));
    FixedBodyAccepts(b.docChainId, 32);
    FixedBodyAccepts(b.parentHash, 32);
    FixedBodyAccepts(b.contentHash, 32);
    NumberText(b.docRef);
    NumberText(256);
    NumberText(f.deadline);
    BytesText(Uri(f));
    var words := [Hex(AddressWord(a.attester)), Hex(AddressWord(a.onBehalfOf)), Hex(a.docBlock.docChainId),
                  Hex(Word(a.docBlock.docRef)), Hex(a.docBlock.parentHash), Hex(a.docBlock.contentHash),
                  Hex(Word(256)), Hex(Word(a.deadline))];
    AttestationParts(f, words);
    AttestationLayout(a);
    HeadInOrder(a);
    HexOfNine(AddressWord(a.attester), AddressWord(a.onBehalfOf), a.docBlock.docChainId, Word(a.docBlock.docRef),
              a.docBlock.parentHash, a.docBlock.contentHash, Word(256), Word(a.deadline),
              Word(|a.uri|) + Abi.PadRight(a.uri));
  }

  lemma NumberText(v: uint256)
    ensures WordUint(v) == Ok(Hex(Word(v)))
    ensures v < 0x1_0000_0000_0000_0000 ==> WordUint64(v) == Ok(Hex(Word(v)))
  {
    hide FormatHex, Hex, IsHex, Word;
    WordText(v);
  }

  /** The eight words of `_encode_attestation`, whatever they are. */
  lemma AttestationParts(f: Fields, w: seq<string>)
    requires |w| == 8 && f.docBlock.Some?
    requires WordAddress(f.attester) == Ok(w[0]) && WordAddress(OnBehalfOf(f)) == Ok(w[1])
    requires FixedBody(f.docBlock.value.docChainId, 64) == Ok(w[2]) && WordUint64(f.docBlock.value.docRef) == Ok(w[3])
    requires FixedBody(f.docBlock.value.parentHash, 64) == Ok(w[4])
      && FixedBody(f.docBlock.value.contentHash, 64) == Ok(w[5])
    requires WordUint(256) == Ok(w[6]) && WordUint(f.deadline) == Ok(w[7])
    ensures EncodeAttestation(f)
      == Ok(w[0] + w[1] + w[2] + w[3] + w[4] + w[5] + w[6] + w[7] + EncodeBytes(Uri(f)))
  {
    hide FixedBody, WordAddress, WordUint64, WordUint, EncodeBytes;
  }

  /** What a number that does not fit its word does: an attestation with an empty URI and a deadline of 128 digits
      has the text of another one, with a deadline and a URI that the first does not have. */
  lemma {:induction false} WideDeadlineCollides(f: Fields, x: nat)
    requires ValidFields(f) && TWO_256 / 16 <= x < TWO_256
    ensures var narrow := f.(uri := Some(Zeros(32)), deadline := x);
      var wide := f.(uri := Some([]), deadline := x * TWO_256 + 32);
      && ValidFields(narrow) && ValidFields(wide) && wide.deadline >= TWO_256
      && EncodeAttestation(narrow).Ok? && EncodeAttestation(wide) == EncodeAttestation(narrow)
  {
    hide FixedBody, IsHexText, WordAddress, WordUint64, FormatHex, EncodeBytes, Hex, IsHex, Word, Zeros;
    var narrow := f.(uri := Some(Zeros(32)), deadline := x);
    var wide := f.(uri := Some([]), deadline := x * TWO_256 + 32);
    AcceptsAttestation(narrow);
    AcceptsAttestation(wide);
    WideWord(x);
    SameTail(narrow, wide);
  }

  lemma {:induction false} SameTail(f: Fields, g: Fields)
    requires EncodeAttestation(f).Ok? && EncodeAttestation(g).Ok?
    requires f.attester == g.attester && f.onBehalfOf == g.onBehalfOf && f.docBlock == g.docBlock
    requires f.deadline >= 0 && g.deadline >= 0
    requires FormatHex(f.deadline, 64) + EncodeBytes(Uri(f)) == FormatHex(g.deadline, 64) + EncodeBytes(Uri(g))
    ensures EncodeAttestation(f) == EncodeAttestation(g)
  {
    hide FixedBody, WordAddress, WordUint64, FormatHex, EncodeBytes;
    var b := f.docBlock.value;
    var w := [WordAddress(f.attester).value, WordAddress(OnBehalfOf(f)).value, FixedBody(b.docChainId, 64).value,
              WordUint64(b.docRef).value, FixedBody(b.parentHash, 64).value, FixedBody(b.contentHash, 64).value,
              FormatHex(256, 64)];
    AttestationParts(f, w + [FormatHex(f.deadline, 64)]);
    AttestationParts(g, w + [FormatHex(g.deadline, 64)]);
    var head := w[0] + w[1] + w[2] + w[3] + w[4] + w[5] + w[6];
    Assoc(head, FormatHex(f.deadline, 64), EncodeBytes(Uri(f)));
    Assoc(head, FormatHex(g.deadline, 64), EncodeBytes(Uri(g)));
  }

  lemma {:induction false} WideWord(x: nat)
    requires TWO_256 / 16 <= x < TWO_256
    ensures x * TWO_256 + 32 >= TWO_256
    ensures FormatHex(x, 64) + EncodeBytes(Zeros(32)) == FormatHex(x * TWO_256 + 32, 64) + EncodeBytes([])
  {
    hide HexNumber, Hex, IsHex, Word, FormatHex, EncodeBytes, Zeros, BigEndian;
    WideDigits(x);
    ZeroBytesText();
    assert (FormatHex(x, 64) + Hex(Word(32))) + Hex(Zeros(32)) == FormatHex(x, 64) + (Hex(Word(32)) + Hex(Zeros(32)));
  }

  lemma {:induction false} WideDigits(x: nat)
    requires TWO_256 / 16 <= x < TWO_256
    ensures x * TWO_256 + 32 >= TWO_256
    ensures FormatHex(x * TWO_256 + 32, 64) == FormatHex(x, 64) + Hex(Word(32))
  {
    hide HexNumber, Hex, IsHex, BigEndian;
    Pow256Constants();
    SixtyFourDigits(x);
    HexNumberSplit(x, 32, 32);
  }

  /** Thirty-two zero bytes read as a byte string or, one word earlier, as an empty one. */
  lemma {:induction false} ZeroBytesText()
    ensures EncodeBytes(Zeros(32)) == Hex(Word(32)) + Hex(Zeros(32)) && EncodeBytes([]) == Hex(Zeros(32))
  {
    hide Hex, IsHex, FormatHex;
    WordText(32);
    WordText(0);
    ZerosAreZero(32);
    BigEndianFrom(Zeros(32));
    HexOfZeros(0);
    assert Zeros(0) == [] && Hex([]) == "";
    assert Abi.PadRight(Zeros(32)) == Zeros(32) && Abi.PadRight([]) == [];
  }

  lemma SixtyFourDigits(x: nat)
    requires x >= TWO_256 / 16
    ensures |HexNumber(x)| >= 64
  {
    Pow256Constants();
    assert Pow256(32) == 256 * Pow256(31);
    HexNumberLength(x / 16, 31);
    HexNumberSnoc(x);
  }

  // ---- arrays ----

  /** `tails` are the hex encodings of `vs`. */
  ghost predicate TailsOf(t: Abi.Type, vs: seq<Abi.Value>, tails: seq<string>) {
    |tails| == |vs| && forall i | 0 <= i < |vs| :: Abi.WellTyped(t, vs[i]) && tails[i] == Hex(Abi.Enc(t, vs[i]))
  }

  lemma {:induction false} RepeatTyped(t: Abi.Type, vs: seq<Abi.Value>)
    requires forall i | 0 <= i < |vs| :: Abi.WellTyped(t, vs[i])
    ensures Abi.AllWellTyped(Abi.Repeat(t, |vs|), vs)
  {
    Abi.AllWellTypedIntro(Abi.Repeat(t, |vs|), vs);
  }

  lemma {:induction false} JoinedIsTails(t: Abi.Type, vs: seq<Abi.Value>, tails: seq<string>)
    requires Abi.Dynamic(t) && TailsOf(t, vs, tails)
    ensures Abi.AllWellTyped(Abi.Repeat(t, |vs|), vs)
    ensures Joined(tails) == Hex(Abi.Tails(Abi.Repeat(t, |vs|), vs))
  {
    hide Abi.Dynamic, Hex, IsHex, Abi.Enc, Abi.WellTyped;
    RepeatTyped(t, vs);
    if vs == [] {
      assert Hex([]) == "" by { HexOfZeros(0); assert Zeros(0) == []; }
    } else {
      JoinedIsTails(t, vs[1..], tails[1..]);
      assert Abi.Repeat(t, |vs|)[1..] == Abi.Repeat(t, |vs| - 1) && |vs[1..]| == |vs| - 1;
      HexConcat(Abi.Enc(t, vs[0]), Abi.Tails(Abi.Repeat(t, |vs| - 1), vs[1..]));
    }
  }

  lemma {:induction false} HeadsOfIsHeads(t: Abi.Type, vs: seq<Abi.Value>, tails: seq<string>, off: nat)
    requires Abi.Dynamic(t) && TailsOf(t, vs, tails)
    requires Abi.AllWellTyped(Abi.Repeat(t, |vs|), vs) && off + |Abi.Tails(Abi.Repeat(t, |vs|), vs)| < TWO_256
    ensures HeadsOf(tails, off) == Hex(Abi.Heads(Abi.Repeat(t, |vs|), vs, off))
  {
    hide Abi.Dynamic, Hex, IsHex, Abi.Enc, Abi.WellTyped, FormatHex, Word;
    if vs == [] {
      assert Hex([]) == "" by { HexOfZeros(0); assert Zeros(0) == []; }
    } else {
      var e := Abi.Enc(t, vs[0]);
      assert Abi.Repeat(t, |vs|)[1..] == Abi.Repeat(t, |vs| - 1) && |vs[1..]| == |vs| - 1;
      HeadsOfIsHeads(t, vs[1..], tails[1..], off + |e|);
      WordText(off);
      HexConcat(Word(off), Abi.Heads(Abi.Repeat(t, |vs| - 1), vs[1..], off + |e|));
    }
  }

  lemma ArrayText(n: uint256, heads: bytes, tails: bytes)
    ensures FormatHex(n, 64) + Hex(heads) + Hex(tails) == Hex(Word(n) + (heads + tails))
  {
    hide Hex, IsHex, FormatHex, Word;
    WordText(n);
    HexConcat(Word(n), heads);
    HexConcat(Word(n) + heads, tails);
    Assoc(Word(n), heads, tails);
  }

  /** Room for every offset: the text holds 64 digits a head and all the tails. */
  lemma ArrayRoom(tails: seq<string>)
    ensures |EncodeDynamicArray(tails)| >= 64 * |tails| + |Joined(tails)|
  {
    hide FormatHex, HeadsOf, Joined;
    HeadsLong(tails, |tails| * 32);
  }

  /** `_encode_dynamic_array` writes the specification's encoding of an array of dynamic elements. */
  lemma {:induction false} EncodesArray(t: Abi.Type, vs: seq<Abi.Value>, tails: seq<string>)
    requires Abi.Dynamic(t) && TailsOf(t, vs, tails) && |vs| < TWO_256 && |EncodeDynamicArray(tails)| < TWO_256
    ensures Abi.WellTyped(Abi.ArrayOf(t), Abi.Items(vs))
    ensures EncodeDynamicArray(tails) == Hex(Abi.Enc(Abi.ArrayOf(t), Abi.Items(vs)))
  {
    var n, ts := |vs|, Abi.Repeat(t, |vs|);
    JoinedIsTails(t, vs, tails);
    assert Abi.HeadSize(t) == 32 && |tails| == n;
    hide TailsOf, Hex, IsHex, FormatHex, Word, HeadsOf, Joined;
    hide Abi.Repeat, Abi.AllWellTyped, Abi.Heads, Abi.Tails, Abi.Dynamic, Abi.HeadSize, Abi.Enc, Abi.WellTyped;
    Abi.EncArray(t, vs);
    ArrayRoom(tails);
    HeadsOfIsHeads(t, vs, tails, n * 32);
    Abi.HeadsSizeRepeat(t, n);
    ArrayText(n, Abi.Heads(ts, vs, n * 32), Abi.Tails(ts, vs));
  }

  lemma {:induction false} HeadsLong(tails: seq<string>, off: nat)
    ensures |HeadsOf(tails, off)| >= 64 * |tails|
  {
    if tails != [] { HeadsLong(tails[1..], off + |tails[0]| / 2); }
  }

  // ---- calls ----

  /** Numbers and lengths that fit the ABI's words. */
  predicate Small(s: Submission)
    requires ValidSubmission(s)
  {
    s.fields.deadline < TWO_256 && |Uri(s.fields)| < TWO_256 && |SignatureOf(s)| < TWO_256
  }

  predicate AllSmall(items: seq<Submission>) {
    |items| < TWO_256 && forall s | s in items :: ValidSubmission(s) && Small(s)
  }

  /** Offsets inside the text fit the ABI's words. */
  predicate TextFits(text: Result<string, Error>) {
    text.Ok? ==> |text.value| < TWO_256
  }

  function AttestationValues(items: seq<Submission>): (vs: seq<Abi.Value>)
    requires AllSmall(items)
    ensures |vs| == |items|
  {
    seq(|items|, i requires 0 <= i < |items| =>
      assert items[i] in items; AttestationValue(AttestationOf(items[i].fields)))
  }

  function SignatureValues(items: seq<Submission>): (vs: seq<Abi.Value>)
    requires AllSmall(items)
    ensures |vs| == |items|
  {
    seq(|items|, i requires 0 <= i < |items| => assert items[i] in items; Abi.Blob(SignatureOf(items[i])))
  }

  lemma {:induction false} EncodedItems(items: seq<Submission>, i: nat)
    requires EncodeItems(items).Ok? && i < |items|
    ensures var tails := EncodeItems(items).value;
      && |tails.attestations| == |tails.signatures| == |items|
      && EncodeAttestation(items[i].fields) == Ok(tails.attestations[i])
      && EncodeSignature(items[i].signature) == Ok(tails.signatures[i])
  {
    hide EncodeAttestation, EncodeSignature;
    var n := |items| - 1;
    if n > 0 { EncodedItems(items[..n], if i < n then i else 0); }
    assert items[..n] == [] || |items[..n]| == n;
  }

  lemma ItemTails(items: seq<Submission>)
    requires AllSmall(items) && EncodeItems(items).Ok?
    ensures TailsOf(AttestationType(), AttestationValues(items), EncodeItems(items).value.attestations)
    ensures TailsOf(Abi.ByteString, SignatureValues(items), EncodeItems(items).value.signatures)
    ensures Abi.Dynamic(AttestationType())
  {
    hide EncodeItems, EncodeAttestation, AttestationType, AttestationValue, AttestationOf, ValidFields, BytesBody;
    hide EncodeBytes, Hex, IsHex, FromHex, Uri;
    var tails := EncodeItems(items).value;
    AttestationIsDynamic();
    if items == [] { NoItems(items); }
    forall i | 0 <= i < |items|
      ensures |tails.attestations| == |tails.signatures| == |items|
      ensures Abi.WellTyped(AttestationType(), AttestationValues(items)[i])
      ensures tails.attestations[i] == Hex(Abi.Enc(AttestationType(), AttestationValues(items)[i]))
      ensures Abi.WellTyped(Abi.ByteString, SignatureValues(items)[i])
      ensures tails.signatures[i] == Hex(Abi.Enc(Abi.ByteString, SignatureValues(items)[i]))
    {
      assert items[i] in items;
      EncodedItems(items, i);
      EncodesAttestation(items[i].fields);
      SignatureText(items[i].signature);
      BytesText(SignatureOf(items[i]));
    }
    if items != [] { EncodedItems(items, 0); }
  }

  lemma AttestationIsDynamic()
    ensures Abi.Dynamic(AttestationType())
  {
    var ts := AttestationTypes();
    assert ts[1..][1..][1..][0] == Abi.ByteString;
    assert Abi.AnyDynamic(ts[1..][1..][1..]);
    assert Abi.AnyDynamic(ts[1..][1..]);
    assert Abi.AnyDynamic(ts[1..]);
  }

  lemma BlobAndArraysAreDynamic(t: Abi.Type)
    ensures Abi.Dynamic(Abi.ByteString) && Abi.Dynamic(Abi.ArrayOf(Abi.ByteString)) && Abi.Dynamic(Abi.ArrayOf(t))
  {
  }

  lemma NoItems(items: seq<Submission>)
    requires items == []
    ensures EncodeItems(items) == Ok(Tails([], []))
  {
  }

  function BatchTypes(): seq<Abi.Type> {
    [Abi.ArrayOf(AttestationType()), Abi.ArrayOf(Abi.ByteString)]
  }

  /** The arguments of the call, as the ABI sees them. */
  function BatchValues(items: seq<Submission>): seq<Abi.Value>
    requires AllSmall(items)
  {
    [Abi.Items(AttestationValues(items)), Abi.Items(SignatureValues(items))]
  }

  lemma CallText(t: Abi.Type, u: Abi.Type, v: Abi.Value, w: Abi.Value, first: string, second: string)
    requires Abi.WellTyped(t, v) && Abi.WellTyped(u, w) && Abi.Dynamic(t) && Abi.Dynamic(u)
    requires first == Hex(Abi.Enc(t, v)) && second == Hex(Abi.Enc(u, w)) && |first| < TWO_256 - 64
    ensures Abi.AllWellTyped([t, u], [v, w])
    ensures FormatHex(64, 64) + FormatHex(64 + |first| / 2, 64) + first + second == Hex(Abi.EncAll([t, u], [v, w]))
  {
    hide Abi.Enc, Abi.EncAll, Abi.WellTyped, Abi.Dynamic, Abi.AllWellTyped, Hex, IsHex, FormatHex, Word;
    var x, y := Abi.Enc(t, v), Abi.Enc(u, w);
    Abi.TwoDynamic(t, u, v, w);
    WordText(64);
    WordText(64 + |x|);
    HexConcat(Word(64), Word(64 + |x|));
    HexConcat(Word(64) + Word(64 + |x|), x);
    HexConcat(Word(64) + Word(64 + |x|) + x, y);
    PairOrder(Word(64), Word(64 + |x|), x, y);
  }

  lemma PairOrder(a: bytes, b: bytes, x: bytes, y: bytes)
    ensures a + (b + []) + (x + (y + [])) == a + b + x + y
  {
  }

  lemma BatchParts(items: seq<Submission>)
    requires items != [] && BatchCalldata(items).Ok?
    ensures EncodeItems(items).Ok?
    ensures var tails := EncodeItems(items).value;
      var first, second := EncodeDynamicArray(tails.attestations), EncodeDynamicArray(tails.signatures);
      && |BatchCalldata(items).value| >= |first| + |second| + 128
      && BatchCalldata(items).value
         == "0x" + ATTEST_BATCH_SELECTOR + (FormatHex(64, 64) + FormatHex(64 + |first| / 2, 64) + first + second)
  {
    hide EncodeItems, EncodeDynamicArray, HexNumber;
  }

  /** The batch call data is the selector and the specification's encoding of the two argument arrays. */
  lemma {:induction false} BatchEncodes(items: seq<Submission>)
    requires items != [] && AllSmall(items) && BatchCalldata(items).Ok? && |BatchCalldata(items).value| < TWO_256
    ensures Abi.AllWellTyped(BatchTypes(), BatchValues(items))
    ensures BatchCalldata(items).value
      == "0x" + ATTEST_BATCH_SELECTOR + Hex(Abi.EncAll(BatchTypes(), BatchValues(items)))
  {
    assert |items| < TWO_256;
    hide Abi.Dynamic, BatchCalldata, EncodeItems, TailsOf, AttestationType, AttestationValues, SignatureValues;
    hide EncodeDynamicArray, ValidSubmission;
    hide Hex, IsHex, FormatHex, AllSmall, Abi.Enc, Abi.EncAll, Abi.WellTyped, Abi.AllWellTyped;
    BatchParts(items);
    ItemTails(items);
    BlobAndArraysAreDynamic(AttestationType());
    var tails := EncodeItems(items).value;
    var first, second := EncodeDynamicArray(tails.attestations), EncodeDynamicArray(tails.signatures);
    EncodesArray(AttestationType(), AttestationValues(items), tails.attestations);
    EncodesArray(Abi.ByteString, SignatureValues(items), tails.signatures);
    CallText(Abi.ArrayOf(AttestationType()), Abi.ArrayOf(Abi.ByteString), Abi.Items(AttestationValues(items)),
             Abi.Items(SignatureValues(items)), first, second);
  }

  /** Text that starts with a selector and goes on with hex digits decodes as those digits' bytes. */
  lemma CallBytes(selector: string, args: bytes)
    requires |selector| == 8
    ensures var text := "0x" + selector + Hex(args);
      text[..10] == "0x" + selector && IsHex(text[10..]) && |text[10..]| % 2 == 0 && FromHex(text[10..]) == args
  {
    hide Hex, FromHex, IsHex;
    var text := "0x" + selector + Hex(args);
    assert text[10..] == Hex(args);
    FromHexOfHex(args);
  }

  /** Decoding the batch call data by the specification gives back exactly the attestations and signatures
      the items mean. */
  lemma BatchRoundTrip(items: seq<Submission>)
    requires items != [] && AllSmall(items) && TextFits(BatchCalldata(items))
    ensures BatchCalldata(items).Ok?
    ensures var text := BatchCalldata(items).value;
      && |text| >= 10 && text[..10] == "0x" + ATTEST_BATCH_SELECTOR
      && IsHex(text[10..]) && |text[10..]| % 2 == 0
      && Abi.DecAll(BatchTypes(), FromHex(text[10..]), 0, 0) == Some(BatchValues(items))
  {
    AcceptsBatch(items);
    BatchEncodes(items);
    hide BatchCalldata, BatchTypes, BatchValues, AllSmall, Hex, FromHex, IsHex, Abi.EncAll, Abi.DecAll;
    hide Abi.AllWellTyped;
    var args := Abi.EncAll(BatchTypes(), BatchValues(items));
    CallBytes(ATTEST_BATCH_SELECTOR, args);
    Abi.DecAllOfEncAll(BatchTypes(), BatchValues(items), args, 0);
  }

  lemma AttestationValueInjective(a: DocAttestation, b: DocAttestation)
    requires AttestationValue(a) == AttestationValue(b)
    ensures a == b
  {
    var x, y := AttestationValue(a).vs, AttestationValue(b).vs;
    assert x[0] == y[0] && x[1] == y[1] && x[2] == y[2] && x[3] == y[3] && x[4] == y[4];
    var p, q := x[2].vs, y[2].vs;
    assert p[0] == q[0] && p[1] == q[1] && p[2] == q[2] && p[3] == q[3];
  }

  /** Different batches have different call data: the text determines every attestation and signature. */
  lemma BatchInjective(items: seq<Submission>, others: seq<Submission>)
    requires items != [] && AllSmall(items) && TextFits(BatchCalldata(items))
    requires others != [] && AllSmall(others) && BatchCalldata(others) == BatchCalldata(items)
    ensures |items| == |others|
    ensures forall i | 0 <= i < |items| ::
      && (items[i] in items && others[i] in others)
      && AttestationOf(items[i].fields) == AttestationOf(others[i].fields)
      && SignatureOf(items[i]) == SignatureOf(others[i])
  {
    BatchRoundTrip(items);
    BatchRoundTrip(others);
    assert BatchValues(items)[0] == BatchValues(others)[0] && BatchValues(items)[1] == BatchValues(others)[1];
    hide BatchCalldata, AttestationValue, AttestationOf, SignatureOf, Abi.DecAll;
    assert AttestationValues(items) == AttestationValues(others) && SignatureValues(items) == SignatureValues(others);
    forall i | 0 <= i < |items|
      ensures items[i] in items && others[i] in others
      ensures AttestationOf(items[i].fields) == AttestationOf(others[i].fields)
      ensures SignatureOf(items[i]) == SignatureOf(others[i])
    {
      assert items[i] in items && others[i] in others;
      assert AttestationValues(items)[i] == AttestationValues(others)[i];
      assert SignatureValues(items)[i] == SignatureValues(others)[i];
      AttestationValueInjective(AttestationOf(items[i].fields), AttestationOf(others[i].fields));
    }
  }

  function DocTypes(): seq<Abi.Type> {
    [AttestationType(), Abi.ByteString]
  }

  function DocValues(item: Submission): seq<Abi.Value>
    requires ValidSubmission(item) && Small(item)
  {
    [AttestationValue(AttestationOf(item.fields)), Abi.Blob(SignatureOf(item))]
  }

  /** The same for a single submission. */
  lemma DocRoundTrip(item: Submission)
    requires ValidSubmission(item) && Small(item) && TextFits(DocCalldata(item))
    ensures DocCalldata(item).Ok?
    ensures var text := DocCalldata(item).value;
      && |text| >= 10 && text[..10] == "0x" + ATTEST_DOC_SELECTOR
      && IsHex(text[10..]) && |text[10..]| % 2 == 0
      && Abi.DecAll(DocTypes(), FromHex(text[10..]), 0, 0) == Some(DocValues(item))
  {
    hide AttestationType, AttestationValue, AttestationOf, EncodeAttestation, EncodeBytes, FormatHex, Hex, IsHex;
    hide FromHex;
    hide Abi.EncAll, Abi.DecAll, Abi.AllWellTyped, ValidFields, BytesBody;
    EncodesAttestation(item.fields);
    SignatureText(item.signature);
    BytesText(SignatureOf(item));
    var attestation, signature := EncodeAttestation(item.fields).value, EncodeBytes(SignatureOf(item));
    CallText(AttestationType(), Abi.ByteString, AttestationValue(AttestationOf(item.fields)),
             Abi.Blob(SignatureOf(item)), attestation, signature);
    var args := Abi.EncAll(DocTypes(), DocValues(item));
    CallBytes(ATTEST_DOC_SELECTOR, args);
    Abi.DecAllOfEncAll(DocTypes(), DocValues(item), args, 0);
  }

  /** Different single submissions have different call data. */
  lemma DocInjective(item: Submission, other: Submission)
    requires ValidSubmission(item) && Small(item) && TextFits(DocCalldata(item))
    requires ValidSubmission(other) && Small(other) && DocCalldata(other) == DocCalldata(item)
    ensures AttestationOf(item.fields) == AttestationOf(other.fields) && SignatureOf(item) == SignatureOf(other)
  {
    hide AttestationValue, AttestationOf, SignatureOf, ValidFields, IsBytesText, DocCalldata, Abi.DecAll, IsHex;
    hide FromHex;
    DocRoundTrip(item);
    DocRoundTrip(other);
    var x, y := DocValues(item), DocValues(other);
    assert x == y && x[0] == y[0] && x[1] == y[1];
    AttestationValueInjective(AttestationOf(item.fields), AttestationOf(other.fields));
  }

  lemma HexOfFive(a: bytes, b: bytes, c: bytes, d: bytes, e: bytes)
    ensures Hex(a) + Hex(b) + Hex(c) + Hex(d) + Hex(e) == Hex(a + b + c + d + e)
  {
    hide Hex, IsHex;
    HexConcat(a, b);
    HexConcat(a + b, c);
    HexConcat(a + b + c, d);
    HexConcat(a + b + c + d, e);
  }

  lemma PayloadParts(b: BlockFields, docChainId: string, docRef: string, parentHash: string, contentHash: string)
    requires FixedBody(b.docChainId, 64) == Ok(docChainId) && WordUint64(b.docRef) == Ok(docRef)
    requires FixedBody(b.parentHash, 64) == Ok(parentHash) && FixedBody(b.contentHash, 64) == Ok(contentHash)
    ensures DocBlockHashPayload(b)
      == Ok("0x" + Hex(Word(DOC_BLOCK_TYPEHASH)) + docChainId + docRef + parentHash + contentHash)
  {
    hide FixedBody, WordUint64, Hex, Word;
  }

  /** The writer's hash input for a block is the contract's, provided its constant is the hash of the type. */
  lemma {:induction false} PayloadIsPreimage(k: Keccak, b: BlockFields)
    requires ValidBlock(b) && k(Ascii(DOC_BLOCK_TYPE)) == Word(DOC_BLOCK_TYPEHASH)
    ensures DocBlockHashPayload(b) == Ok("0x" + Hex(DocBlockPreimage(k, BlockOf(b))))
  {
    hide DocBlockHashPayload, FixedBody, IsHexText, BytesOf, WordUint64, WordUint, FormatHex, Hex, IsHex, Word, Ascii;
    FixedBodyAccepts(b.docChainId, 32);
    FixedBodyAccepts(b.parentHash, 32);
    FixedBodyAccepts(b.contentHash, 32);
    NumberText(b.docRef);
    var d, t := BlockOf(b), Word(DOC_BLOCK_TYPEHASH);
    PayloadParts(b, Hex(d.docChainId), Hex(Word(d.docRef)), Hex(d.parentHash), Hex(d.contentHash));
    HexOfFive(t, d.docChainId, Word(d.docRef), d.parentHash, d.contentHash);
    PrefixText("0x", Hex(t), Hex(d.docChainId), Hex(Word(d.docRef)), Hex(d.parentHash), Hex(d.contentHash));
  }

  lemma PrefixText(x: string, a: string, b: string, c: string, d: string, e: string)
    ensures x + a + b + c + d + e == x + (a + b + c + d + e)
  {
  }
}
