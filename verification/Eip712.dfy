/** The typed-data hashes of the contract. `keccak` is a parameter everywhere and nothing is assumed
    about it: a claim that would need it to be injective ends in "or here is a collision". */
module Eip712 {
  import opened Bytes
  import Abi
  import Digits
  import TypedData

  type Keccak = bytes -> Bytes32

  datatype DocBlock = DocBlock(docChainId: Bytes32, docRef: uint64, parentHash: Bytes32, contentHash: Bytes32)

  datatype DocAttestation = DocAttestation(
    attester: Address, onBehalfOf: Address, docBlock: DocBlock, uri: bytes, deadline: uint256)

  const EIP712_DOMAIN_TYPE :=
    "EIP712Domain(string name," + "string version," + "uint256 chainId," + "address verifyingContract)"
  const DOC_BLOCK_TYPE :=
    "DocBlock(bytes32 docChainId," + "uint64 docRef," + "bytes32 parentHash," + "bytes32 contentHash)"
  const DOC_ATTESTATION_TYPE :=
    "DocAttestation(address attester," + "address onBehalfOf," + "DocBlock docBlock," + "string uri,"
    + "uint256 deadline)" + DOC_BLOCK_TYPE
  const NAME := "Doc Chain"
  const VERSION := "1"

  // ---- hash inputs ----

  function DocBlockPreimage(k: Keccak, b: DocBlock): (p: bytes)
    ensures |p| == 160
  {
    k(Ascii(DOC_BLOCK_TYPE)) + b.docChainId + Word(b.docRef) + b.parentHash + b.contentHash
  }

  function AttestationPreimage(k: Keccak, a: DocAttestation): (p: bytes)
    ensures |p| == 192
  {
    k(Ascii(DOC_ATTESTATION_TYPE)) + AddressWord(a.attester) + AddressWord(a.onBehalfOf)
    + HashDocBlock(k, a.docBlock) + k(a.uri) + Word(a.deadline)
  }

  function DomainPreimage(k: Keccak, chainId: uint256, self: Address): (p: bytes)
    ensures |p| == 160
  {
    k(Ascii(EIP712_DOMAIN_TYPE)) + k(Ascii(NAME)) + k(Ascii(VERSION)) + Word(chainId) + AddressWord(self)
  }

  function DigestPreimage(separator: Bytes32, structHash: Bytes32): (p: bytes)
    ensures |p| == 66
  {
    [0x19, 0x01] + separator + structHash
  }

  function KeyPreimage(attester: Address, onBehalfOf: Address, b: DocBlock, uriHash: Bytes32): (p: bytes)
    ensures |p| == 224
  {
    AddressWord(attester) + AddressWord(onBehalfOf) + b.docChainId + Word(b.docRef) + b.parentHash
    + b.contentHash + uriHash
  }

  // ---- hashes ----

  function HashDocBlock(k: Keccak, b: DocBlock): Bytes32 {
    k(DocBlockPreimage(k, b))
  }

  function HashAttestation(k: Keccak, a: DocAttestation): Bytes32 {
    k(AttestationPreimage(k, a))
  }

  function BuildDomainSeparator(k: Keccak, chainId: uint256, self: Address): Bytes32 {
    k(DomainPreimage(k, chainId, self))
  }

  function ToTypedDataHash(k: Keccak, separator: Bytes32, structHash: Bytes32): Bytes32 {
    k(DigestPreimage(separator, structHash))
  }

  /** The digest an attester signs for one chain and one deployment. */
  function Digest(k: Keccak, chainId: uint256, self: Address, a: DocAttestation): Bytes32 {
    ToTypedDataHash(k, BuildDomainSeparator(k, chainId, self), HashAttestation(k, a))
  }

  function AttestationKey(k: Keccak, attester: Address, onBehalfOf: Address, b: DocBlock, uriHash: Bytes32): Bytes32 {
    k(KeyPreimage(attester, onBehalfOf, b, uriHash))
  }

  /** Key of an attestation: its claim without the deadline. */
  function Key(k: Keccak, a: DocAttestation): Bytes32 {
    AttestationKey(k, a.attester, a.onBehalfOf, a.docBlock, k(a.uri))
  }

  // ---- the hash inputs are the ABI encodings of the hashed tuples ----

  /** `abi.encode(DOC_BLOCK_TYPEHASH, docChainId, docRef, parentHash, contentHash)` */
  lemma {:induction false} DocBlockPreimageIsAbi(k: Keccak, b: DocBlock)
    ensures var ts, vs :=
        [Abi.Word32, Abi.Word32, Abi.Uint(8), Abi.Word32, Abi.Word32],
        [Abi.Raw(k(Ascii(DOC_BLOCK_TYPE))), Abi.Raw(b.docChainId), Abi.Num(b.docRef), Abi.Raw(b.parentHash),
         Abi.Raw(b.contentHash)];
      Abi.AllWellTyped(ts, vs) && DocBlockPreimage(k, b) == Abi.EncAll(ts, vs)
  {
    Pow256Constants();
    var t := k(Ascii(DOC_BLOCK_TYPE));
    Abi.EncodesWords(
      [Abi.Word32, Abi.Word32, Abi.Uint(8), Abi.Word32, Abi.Word32],
      [Abi.Raw(t), Abi.Raw(b.docChainId), Abi.Num(b.docRef), Abi.Raw(b.parentHash), Abi.Raw(b.contentHash)],
      [t, b.docChainId, Word(b.docRef), b.parentHash, b.contentHash]);
    FlatFive(t, b.docChainId, Word(b.docRef), b.parentHash, b.contentHash);
  }

  /** `abi.encode(DOC_ATTESTATION_TYPEHASH, attester, onBehalfOf, blockHash, uriHash, deadline)` */
  lemma {:induction false} AttestationPreimageIsAbi(k: Keccak, a: DocAttestation)
    ensures var ts, vs :=
        [Abi.Word32, Abi.AddressType, Abi.AddressType, Abi.Word32, Abi.Word32, Abi.Uint(32)],
        [Abi.Raw(k(Ascii(DOC_ATTESTATION_TYPE))), Abi.Addr(a.attester), Abi.Addr(a.onBehalfOf),
         Abi.Raw(HashDocBlock(k, a.docBlock)), Abi.Raw(k(a.uri)), Abi.Num(a.deadline)];
      Abi.AllWellTyped(ts, vs) && AttestationPreimage(k, a) == Abi.EncAll(ts, vs)
  {
    Pow256Constants();
    hide HashDocBlock, Ascii;
    var t, h, u := k(Ascii(DOC_ATTESTATION_TYPE)), HashDocBlock(k, a.docBlock), k(a.uri);
    var five := [t, AddressWord(a.attester), AddressWord(a.onBehalfOf), h, u];
    Abi.EncodesWords(
      [Abi.Word32, Abi.AddressType, Abi.AddressType, Abi.Word32, Abi.Word32, Abi.Uint(32)],
      [Abi.Raw(t), Abi.Addr(a.attester), Abi.Addr(a.onBehalfOf), Abi.Raw(h), Abi.Raw(u), Abi.Num(a.deadline)],
      five + [Word(a.deadline)]);
    FlatFive(t, AddressWord(a.attester), AddressWord(a.onBehalfOf), h, u);
    FlatSnoc(five, Word(a.deadline));
  }

  /** `abi.encode(EIP712_DOMAIN_TYPEHASH, keccak256(bytes(NAME)), keccak256(bytes(VERSION)), block.chainid,
      address(this))` */
  lemma {:induction false} DomainPreimageIsAbi(k: Keccak, chainId: uint256, self: Address)
    ensures var ts, vs :=
        [Abi.Word32, Abi.Word32, Abi.Word32, Abi.Uint(32), Abi.AddressType],
        [Abi.Raw(k(Ascii(EIP712_DOMAIN_TYPE))), Abi.Raw(k(Ascii("Doc Chain"))), Abi.Raw(k(Ascii("1"))),
         Abi.Num(chainId), Abi.Addr(self)];
      Abi.AllWellTyped(ts, vs) && DomainPreimage(k, chainId, self) == Abi.EncAll(ts, vs)
  {
    Pow256Constants();
    hide Ascii;
    var t, n, v := k(Ascii(EIP712_DOMAIN_TYPE)), k(Ascii(NAME)), k(Ascii(VERSION));
    Abi.EncodesWords(
      [Abi.Word32, Abi.Word32, Abi.Word32, Abi.Uint(32), Abi.AddressType],
      [Abi.Raw(t), Abi.Raw(n), Abi.Raw(v), Abi.Num(chainId), Abi.Addr(self)],
      [t, n, v, Word(chainId), AddressWord(self)]);
    FlatFive(t, n, v, Word(chainId), AddressWord(self));
  }

  /** `abi.encode(attester, onBehalfOf, docChainId, docRef, parentHash, contentHash, uriHash)` */
  lemma {:induction false} KeyPreimageIsAbi(attester: Address, onBehalfOf: Address, b: DocBlock, uriHash: Bytes32)
    ensures var ts, vs :=
        [Abi.AddressType, Abi.AddressType, Abi.Word32, Abi.Uint(8), Abi.Word32, Abi.Word32, Abi.Word32],
        [Abi.Addr(attester), Abi.Addr(onBehalfOf), Abi.Raw(b.docChainId), Abi.Num(b.docRef), Abi.Raw(b.parentHash),
         Abi.Raw(b.contentHash), Abi.Raw(uriHash)];
      Abi.AllWellTyped(ts, vs) && KeyPreimage(attester, onBehalfOf, b, uriHash) == Abi.EncAll(ts, vs)
  {
    Pow256Constants();
    var five := [AddressWord(attester), AddressWord(onBehalfOf), b.docChainId, Word(b.docRef), b.parentHash];
    Abi.EncodesWords(
      [Abi.AddressType, Abi.AddressType, Abi.Word32, Abi.Uint(8), Abi.Word32, Abi.Word32, Abi.Word32],
      [Abi.Addr(attester), Abi.Addr(onBehalfOf), Abi.Raw(b.docChainId), Abi.Num(b.docRef), Abi.Raw(b.parentHash),
       Abi.Raw(b.contentHash), Abi.Raw(uriHash)],
      (five + [b.contentHash]) + [uriHash]);
    FlatFive(AddressWord(attester), AddressWord(onBehalfOf), b.docChainId, Word(b.docRef), b.parentHash);
    FlatSnoc(five, b.contentHash);
    FlatSnoc(five + [b.contentHash], uriHash);
  }

  // ---- the hashes are the ones of the typed-data standard ----

  /** The struct types as the signing helper hands them to wallets. */
  const DOC_BLOCK := TypedData.StructType("DocBlock", [
    TypedData.Member(TypedData.Bytes32Kind, "docChainId"), TypedData.Member(TypedData.UintKind(64), "docRef"),
    TypedData.Member(TypedData.Bytes32Kind, "parentHash"), TypedData.Member(TypedData.Bytes32Kind, "contentHash")])

  const DOC_ATTESTATION := TypedData.StructType("DocAttestation", [
    TypedData.Member(TypedData.AddressKind, "attester"), TypedData.Member(TypedData.AddressKind, "onBehalfOf"),
    TypedData.Member(TypedData.StructKind(DOC_BLOCK), "docBlock"), TypedData.Member(TypedData.StringKind, "uri"),
    TypedData.Member(TypedData.UintKind(256), "deadline")])

  const EIP712_DOMAIN := TypedData.StructType("EIP712Domain", [
    TypedData.Member(TypedData.StringKind, "name"), TypedData.Member(TypedData.StringKind, "version"),
    TypedData.Member(TypedData.UintKind(256), "chainId"), TypedData.Member(TypedData.AddressKind, "verifyingContract")])

  /** The fields by name. */
  function BlockFields(b: DocBlock): map<string, TypedData.Data> {
    map["docChainId" := TypedData.Word32(b.docChainId), "docRef" := TypedData.Number(b.docRef),
        "parentHash" := TypedData.Word32(b.parentHash), "contentHash" := TypedData.Word32(b.contentHash)]
  }

  function AttestationFields(a: DocAttestation): map<string, TypedData.Data> {
    map["attester" := TypedData.Account(a.attester), "onBehalfOf" := TypedData.Account(a.onBehalfOf),
        "docBlock" := TypedData.Fields(BlockFields(a.docBlock)), "uri" := TypedData.Content(a.uri),
        "deadline" := TypedData.Number(a.deadline)]
  }

  function DomainFields(chainId: uint256, self: Address): map<string, TypedData.Data> {
    map["name" := TypedData.Content(Ascii("Doc Chain")), "version" := TypedData.Content(Ascii("1")),
        "chainId" := TypedData.Number(chainId), "verifyingContract" := TypedData.Account(self)]
  }

  lemma UintTexts()
    ensures TypedData.KindText(TypedData.UintKind(64)) == "uint64"
    ensures TypedData.KindText(TypedData.UintKind(256)) == "uint256"
  {
    assert Digits.DecimalNat(6) == "6" && Digits.DecimalNat(64) == "64";
    assert Digits.DecimalNat(2) == "2" && Digits.DecimalNat(25) == "25" && Digits.DecimalNat(256) == "256";
  }

  lemma BlockStart()
    ensures "DocBlock" + "(" + ("bytes32" + " " + "docChainId" + ",") == "DocBlock(bytes32 docChainId,"
  {
  }

  lemma BlockPieces()
    ensures "uint64" + " " + "docRef" + "," == "uint64 docRef,"
    ensures "bytes32" + " " + "parentHash" + "," == "bytes32 parentHash,"
    ensures "bytes32" + " " + "contentHash" + ")" == "bytes32 contentHash)"
  {
  }

  lemma {:induction false} BlockTypeText()
    ensures TypedData.StructText(DOC_BLOCK) == DOC_BLOCK_TYPE
  {
    var ms := DOC_BLOCK.members;
    BlockStart();
    BlockPieces();
    UintTexts();
    hide Digits.Decimal;
    TypedData.FourMembers("DocBlock", ms[0], ms[1], ms[2], ms[3]);
    hide TypedData.StructText;
  }

  lemma AttestationPieces()
    ensures "DocAttestation" + "(" + ("address" + " " + "attester" + ",") == "DocAttestation(address attester,"
    ensures "address" + " " + "onBehalfOf" + "," == "address onBehalfOf,"
    ensures "DocBlock" + " " + "docBlock" + "," == "DocBlock docBlock,"
    ensures "string" + " " + "uri" + "," == "string uri,"
    ensures "uint256" + " " + "deadline" + ")" == "uint256 deadline)"
  {
  }

  lemma {:induction false} AttestationTypeText()
    ensures TypedData.StructText(DOC_ATTESTATION) + DOC_BLOCK_TYPE == DOC_ATTESTATION_TYPE
  {
    var ms := DOC_ATTESTATION.members;
    AttestationPieces();
    UintTexts();
    hide Digits.Decimal;
    TypedData.FiveMembers("DocAttestation", ms[0], ms[1], ms[2], ms[3], ms[4]);
    hide TypedData.StructText;
  }

  lemma DomainStart()
    ensures "EIP712Domain" + "(" + ("string" + " " + "name" + ",") == "EIP712Domain(string name,"
  {
  }

  lemma DomainPieces()
    ensures "string" + " " + "version" + "," == "string version,"
    ensures "uint256" + " " + "chainId" + "," == "uint256 chainId,"
    ensures "address" + " " + "verifyingContract" + ")" == "address verifyingContract)"
  {
  }

  lemma {:induction false} DomainTypeText()
    ensures TypedData.StructText(EIP712_DOMAIN) == EIP712_DOMAIN_TYPE
  {
    var ms := EIP712_DOMAIN.members;
    DomainStart();
    DomainPieces();
    UintTexts();
    hide Digits.Decimal;
    TypedData.FourMembers("EIP712Domain", ms[0], ms[1], ms[2], ms[3]);
    hide TypedData.StructText;
  }

  lemma {:induction false} AttestationRefersToBlock()
    ensures TypedData.Referenced(DOC_ATTESTATION.members) == [DOC_BLOCK]
  {
    var ms := DOC_ATTESTATION.members;
    TypedData.NoneReferenced(DOC_BLOCK.members);
    TypedData.NoneReferenced([ms[3], ms[4]]);
    hide TypedData.Referenced;
    TypedData.FrontMember(ms[2], [ms[3], ms[4]]);
    TypedData.FrontMember(ms[1], [ms[2]] + [ms[3], ms[4]]);
    TypedData.FrontMember(ms[0], [ms[1]] + ([ms[2]] + [ms[3], ms[4]]));
    assert ms == [ms[0]] + ([ms[1]] + ([ms[2]] + [ms[3], ms[4]]));
  }

  /** The type texts in the contract are the ones that the standard makes of the member lists. */
  lemma {:induction false} TypeTexts()
    ensures TypedData.EncodeType(DOC_BLOCK) == DOC_BLOCK_TYPE
    ensures TypedData.EncodeType(DOC_ATTESTATION) == DOC_ATTESTATION_TYPE
    ensures TypedData.EncodeType(EIP712_DOMAIN) == EIP712_DOMAIN_TYPE
  {
    hide TypedData.EncodeType, TypedData.StructText, TypedData.Referenced;
    BlockTypeText();
    AttestationTypeText();
    DomainTypeText();
    TypedData.NoneReferenced(DOC_BLOCK.members);
    TypedData.NoneReferenced(EIP712_DOMAIN.members);
    AttestationRefersToBlock();
    TypedData.AloneType(DOC_BLOCK);
    TypedData.AloneType(EIP712_DOMAIN);
    TypedData.OneReferenced(DOC_ATTESTATION, DOC_BLOCK);
  }

  lemma {:induction false} BlockData(k: Keccak, b: DocBlock)
    ensures TypedData.AllFit(DOC_BLOCK.members, BlockFields(b))
    ensures TypedData.EncodeData(k, DOC_BLOCK.members, BlockFields(b))
      == Flat([b.docChainId, Word(b.docRef), b.parentHash, b.contentHash])
  {
    Pow256Constants();
    var ms, fields := DOC_BLOCK.members, BlockFields(b);
    var words := [b.docChainId, Word(b.docRef), b.parentHash, b.contentHash];
    hide Ascii, Word, Flat, Pow256;
    assert ms[0].name in fields && fields[ms[0].name] == TypedData.Word32(b.docChainId);
    assert ms[1].name in fields && fields[ms[1].name] == TypedData.Number(b.docRef);
    assert ms[2].name in fields && fields[ms[2].name] == TypedData.Word32(b.parentHash);
    assert ms[3].name in fields && fields[ms[3].name] == TypedData.Word32(b.contentHash);
    hide BlockFields;
    forall i | 0 <= i < |ms|
      ensures ms[i].name in fields && TypedData.Fits(ms[i].kind, fields[ms[i].name])
        && TypedData.EncodeMember(k, ms[i].kind, fields[ms[i].name]) == words[i]
    {
    }
    TypedData.EncodesMembers(k, ms, fields, words);
  }

  /** `hashStruct(DocBlock)` */
  lemma {:induction false} HashDocBlockIsStandard(k: Keccak, b: DocBlock)
    ensures TypedData.AllFit(DOC_BLOCK.members, BlockFields(b))
    ensures HashDocBlock(k, b) == TypedData.HashStruct(k, DOC_BLOCK, BlockFields(b))
  {
    BlockData(k, b);
    TypeTexts();
    hide Ascii, Word, TypedData.EncodeType, TypedData.EncodeData, Flat, BlockFields;
    var t := k(Ascii(DOC_BLOCK_TYPE));
    FlatFive(t, b.docChainId, Word(b.docRef), b.parentHash, b.contentHash);
    FlatFront([t, b.docChainId, Word(b.docRef), b.parentHash, b.contentHash]);
  }

  lemma {:induction false} AttestationData(k: Keccak, a: DocAttestation)
    ensures TypedData.AllFit(DOC_ATTESTATION.members, AttestationFields(a))
    ensures TypedData.EncodeData(k, DOC_ATTESTATION.members, AttestationFields(a))
      == Flat([AddressWord(a.attester), AddressWord(a.onBehalfOf), HashDocBlock(k, a.docBlock), k(a.uri),
               Word(a.deadline)])
  {
    Pow256Constants();
    HashDocBlockIsStandard(k, a.docBlock);
    var ms, fields := DOC_ATTESTATION.members, AttestationFields(a);
    var words := [AddressWord(a.attester), AddressWord(a.onBehalfOf), HashDocBlock(k, a.docBlock), k(a.uri),
                  Word(a.deadline)];
    hide Ascii, Word, AddressWord, Flat, Pow256, BlockFields, HashDocBlock, TypedData.HashStruct, TypedData.AllFit;
    assert ms[0].name in fields && fields[ms[0].name] == TypedData.Account(a.attester);
    assert ms[1].name in fields && fields[ms[1].name] == TypedData.Account(a.onBehalfOf);
    assert ms[2].name in fields && fields[ms[2].name] == TypedData.Fields(BlockFields(a.docBlock));
    assert ms[3].name in fields && fields[ms[3].name] == TypedData.Content(a.uri);
    assert ms[4].name in fields && fields[ms[4].name] == TypedData.Number(a.deadline);
    hide AttestationFields;
    forall i | 0 <= i < |ms|
      ensures ms[i].name in fields && TypedData.Fits(ms[i].kind, fields[ms[i].name])
        && TypedData.EncodeMember(k, ms[i].kind, fields[ms[i].name]) == words[i]
    {
    }
    TypedData.EncodesMembers(k, ms, fields, words);
  }

  /** `hashStruct(DocAttestation)` */
  lemma {:induction false} HashAttestationIsStandard(k: Keccak, a: DocAttestation)
    ensures TypedData.AllFit(DOC_ATTESTATION.members, AttestationFields(a))
    ensures HashAttestation(k, a) == TypedData.HashStruct(k, DOC_ATTESTATION, AttestationFields(a))
  {
    AttestationData(k, a);
    TypeTexts();
    hide Ascii, Word, AddressWord, TypedData.EncodeType, TypedData.EncodeData, Flat, AttestationFields, HashDocBlock;
    var t, h, u := k(Ascii(DOC_ATTESTATION_TYPE)), HashDocBlock(k, a.docBlock), k(a.uri);
    var words := [AddressWord(a.attester), AddressWord(a.onBehalfOf), h, u];
    FlatFive(t, AddressWord(a.attester), AddressWord(a.onBehalfOf), h, u);
    FlatSnoc([t] + words, Word(a.deadline));
    FlatFront([t] + words + [Word(a.deadline)]);
    assert [t] + words == [t, AddressWord(a.attester), AddressWord(a.onBehalfOf), h, u];
    assert ([t] + words + [Word(a.deadline)])[1..]
      == [AddressWord(a.attester), AddressWord(a.onBehalfOf), h, u, Word(a.deadline)];
  }

  lemma {:induction false} DomainData(k: Keccak, chainId: uint256, self: Address)
    ensures TypedData.AllFit(EIP712_DOMAIN.members, DomainFields(chainId, self))
    ensures TypedData.EncodeData(k, EIP712_DOMAIN.members, DomainFields(chainId, self))
      == Flat([k(Ascii(NAME)), k(Ascii(VERSION)), Word(chainId), AddressWord(self)])
  {
    Pow256Constants();
    var ms, fields := EIP712_DOMAIN.members, DomainFields(chainId, self);
    var words := [k(Ascii(NAME)), k(Ascii(VERSION)), Word(chainId), AddressWord(self)];
    hide Ascii, Word, AddressWord, Flat, Pow256;
    assert ms[0].name in fields && fields[ms[0].name] == TypedData.Content(Ascii(NAME));
    assert ms[1].name in fields && fields[ms[1].name] == TypedData.Content(Ascii(VERSION));
    assert ms[2].name in fields && fields[ms[2].name] == TypedData.Number(chainId);
    assert ms[3].name in fields && fields[ms[3].name] == TypedData.Account(self);
    hide DomainFields;
    forall i | 0 <= i < |ms|
      ensures ms[i].name in fields && TypedData.Fits(ms[i].kind, fields[ms[i].name])
        && TypedData.EncodeMember(k, ms[i].kind, fields[ms[i].name]) == words[i]
    {
    }
    TypedData.EncodesMembers(k, ms, fields, words);
  }

  /** `hashStruct(eip712Domain)` */
  lemma {:induction false} SeparatorIsStandard(k: Keccak, chainId: uint256, self: Address)
    ensures TypedData.AllFit(EIP712_DOMAIN.members, DomainFields(chainId, self))
    ensures BuildDomainSeparator(k, chainId, self)
      == TypedData.HashStruct(k, EIP712_DOMAIN, DomainFields(chainId, self))
  {
    DomainData(k, chainId, self);
    TypeTexts();
    hide Ascii, Word, AddressWord, TypedData.EncodeType, TypedData.EncodeData, Flat, DomainFields;
    var t, n, v := k(Ascii(EIP712_DOMAIN_TYPE)), k(Ascii(NAME)), k(Ascii(VERSION));
    FlatFive(t, n, v, Word(chainId), AddressWord(self));
    FlatFront([t, n, v, Word(chainId), AddressWord(self)]);
  }

  /** The digest that the standard has an attester sign for one chain and one deployment. */
  function StandardDigest(k: Keccak, chainId: uint256, self: Address, a: DocAttestation): Bytes32 {
    SeparatorIsStandard(k, chainId, self);
    HashAttestationIsStandard(k, a);
    TypedData.SignedDigest(k, EIP712_DOMAIN, DomainFields(chainId, self), DOC_ATTESTATION, AttestationFields(a))
  }

  /** The contract's digest is that one. */
  lemma {:induction false} DigestIsStandard(k: Keccak, chainId: uint256, self: Address, a: DocAttestation)
    ensures Digest(k, chainId, self, a) == StandardDigest(k, chainId, self, a)
  {
    hide HashAttestation, BuildDomainSeparator, TypedData.HashStruct, TypedData.AllFit, AttestationFields, DomainFields;
    SeparatorIsStandard(k, chainId, self);
    HashAttestationIsStandard(k, a);
  }

  ghost predicate Collision(k: Keccak, a: bytes, b: bytes) {
    a != b && k(a) == k(b)
  }

  // ---- hash inputs determine the hashed fields ----

  lemma SamePrefix(a: bytes, b: bytes, c: bytes, d: bytes)
    requires |a| == |c| && a + b == c + d
    ensures a == c && b == d
  {
    assert a == (a + b)[..|a|] && b == (a + b)[|a|..] && c == (c + d)[..|c|] && d == (c + d)[|c|..];
  }

  lemma DocBlockPreimageInjective(k: Keccak, a: DocBlock, b: DocBlock)
    requires DocBlockPreimage(k, a) == DocBlockPreimage(k, b)
    ensures a == b
  {
    var t := k(Ascii(DOC_BLOCK_TYPE));
    SamePrefix(t + a.docChainId + Word(a.docRef) + a.parentHash, a.contentHash,
               t + b.docChainId + Word(b.docRef) + b.parentHash, b.contentHash);
    SamePrefix(t + a.docChainId + Word(a.docRef), a.parentHash, t + b.docChainId + Word(b.docRef), b.parentHash);
    SamePrefix(t + a.docChainId, Word(a.docRef), t + b.docChainId, Word(b.docRef));
    SamePrefix(t, a.docChainId, t, b.docChainId);
    WordInjective(a.docRef, b.docRef);
  }

  lemma AttestationPreimageInjective(k: Keccak, a: DocAttestation, b: DocAttestation)
    requires AttestationPreimage(k, a) == AttestationPreimage(k, b)
    ensures a.attester == b.attester && a.onBehalfOf == b.onBehalfOf && a.deadline == b.deadline
    ensures HashDocBlock(k, a.docBlock) == HashDocBlock(k, b.docBlock) && k(a.uri) == k(b.uri)
  {
    var t := k(Ascii(DOC_ATTESTATION_TYPE));
    var a1, b1 := t + AddressWord(a.attester), t + AddressWord(b.attester);
    var a2, b2 := a1 + AddressWord(a.onBehalfOf), b1 + AddressWord(b.onBehalfOf);
    var a3, b3 := a2 + HashDocBlock(k, a.docBlock), b2 + HashDocBlock(k, b.docBlock);
    SamePrefix(a3 + k(a.uri), Word(a.deadline), b3 + k(b.uri), Word(b.deadline));
    SamePrefix(a3, k(a.uri), b3, k(b.uri));
    SamePrefix(a2, HashDocBlock(k, a.docBlock), b2, HashDocBlock(k, b.docBlock));
    SamePrefix(a1, AddressWord(a.onBehalfOf), b1, AddressWord(b.onBehalfOf));
    SamePrefix(t, AddressWord(a.attester), t, AddressWord(b.attester));
    WordInjective(a.deadline, b.deadline);
    AddressWordInjective(a.attester, b.attester);
    AddressWordInjective(a.onBehalfOf, b.onBehalfOf);
  }

  lemma DomainPreimageInjective(k: Keccak, c: uint256, x: Address, d: uint256, y: Address)
    requires DomainPreimage(k, c, x) == DomainPreimage(k, d, y)
    ensures c == d && x == y
  {
    var t := k(Ascii(EIP712_DOMAIN_TYPE)) + k(Ascii(NAME)) + k(Ascii(VERSION));
    SamePrefix(t + Word(c), AddressWord(x), t + Word(d), AddressWord(y));
    SamePrefix(t, Word(c), t, Word(d));
    WordInjective(c, d);
    AddressWordInjective(x, y);
  }

  lemma KeyPreimageInjective(a: DocAttestation, h: Bytes32, b: DocAttestation, g: Bytes32)
    requires KeyPreimage(a.attester, a.onBehalfOf, a.docBlock, h)
      == KeyPreimage(b.attester, b.onBehalfOf, b.docBlock, g)
    ensures a.attester == b.attester && a.onBehalfOf == b.onBehalfOf && a.docBlock == b.docBlock && h == g
  {
    var a1, b1 := AddressWord(a.attester), AddressWord(b.attester);
    var a2, b2 := a1 + AddressWord(a.onBehalfOf), b1 + AddressWord(b.onBehalfOf);
    var a3, b3 := a2 + a.docBlock.docChainId, b2 + b.docBlock.docChainId;
    var a4, b4 := a3 + Word(a.docBlock.docRef), b3 + Word(b.docBlock.docRef);
    var a5, b5 := a4 + a.docBlock.parentHash, b4 + b.docBlock.parentHash;
    SamePrefix(a5 + a.docBlock.contentHash, h, b5 + b.docBlock.contentHash, g);
    SamePrefix(a5, a.docBlock.contentHash, b5, b.docBlock.contentHash);
    SamePrefix(a4, a.docBlock.parentHash, b4, b.docBlock.parentHash);
    SamePrefix(a3, Word(a.docBlock.docRef), b3, Word(b.docBlock.docRef));
    SamePrefix(a2, a.docBlock.docChainId, b2, b.docBlock.docChainId);
    SamePrefix(a1, AddressWord(a.onBehalfOf), b1, AddressWord(b.onBehalfOf));
    WordInjective(a.docBlock.docRef, b.docBlock.docRef);
    AddressWordInjective(a.attester, b.attester);
    AddressWordInjective(a.onBehalfOf, b.onBehalfOf);
  }

  // ---- main results ----

  /** Two attestations make the same claim: everything but the deadline agrees. */
  predicate SameClaim(a: DocAttestation, b: DocAttestation) {
    a.attester == b.attester && a.onBehalfOf == b.onBehalfOf && a.docBlock == b.docBlock && a.uri == b.uri
  }

  /** A signature covers the chain, the deployment and every field: equal digests mean equal
      everything, or a keccak collision at one of the five hashing layers. */
  lemma DigestBinding(k: Keccak, c: uint256, x: Address, a: DocAttestation, d: uint256, y: Address, b: DocAttestation)
    requires Digest(k, c, x, a) == Digest(k, d, y, b)
    ensures
      || (c == d && x == y && a == b)
      || Collision(k, DigestPreimage(BuildDomainSeparator(k, c, x), HashAttestation(k, a)),
                   DigestPreimage(BuildDomainSeparator(k, d, y), HashAttestation(k, b)))
      || Collision(k, DomainPreimage(k, c, x), DomainPreimage(k, d, y))
      || Collision(k, AttestationPreimage(k, a), AttestationPreimage(k, b))
      || Collision(k, DocBlockPreimage(k, a.docBlock), DocBlockPreimage(k, b.docBlock))
      || Collision(k, a.uri, b.uri)
  {
    var s, t := BuildDomainSeparator(k, c, x), BuildDomainSeparator(k, d, y);
    var g, h := HashAttestation(k, a), HashAttestation(k, b);
    if DigestPreimage(s, g) == DigestPreimage(t, h) {
      SamePrefix([0x19, 0x01] + s, g, [0x19, 0x01] + t, h);
      SamePrefix([0x19, 0x01], s, [0x19, 0x01], t);
      if DomainPreimage(k, c, x) == DomainPreimage(k, d, y) && AttestationPreimage(k, a) == AttestationPreimage(k, b) {
        DomainPreimageInjective(k, c, x, d, y);
        AttestationPreimageInjective(k, a, b);
        if DocBlockPreimage(k, a.docBlock) == DocBlockPreimage(k, b.docBlock) {
          DocBlockPreimageInjective(k, a.docBlock, b.docBlock);
        }
      }
    }
  }

  /** Equal keys mean the same claim, or a collision of keys or of URI hashes; and the deadline
      never enters the key. */
  lemma KeyBinding(k: Keccak, a: DocAttestation, b: DocAttestation)
    ensures SameClaim(a, b) ==> Key(k, a) == Key(k, b)
    ensures Key(k, a) == Key(k, b) ==>
      || SameClaim(a, b)
      || Collision(k, KeyPreimage(a.attester, a.onBehalfOf, a.docBlock, k(a.uri)),
                   KeyPreimage(b.attester, b.onBehalfOf, b.docBlock, k(b.uri)))
      || Collision(k, a.uri, b.uri)
  {
    if KeyPreimage(a.attester, a.onBehalfOf, a.docBlock, k(a.uri))
      == KeyPreimage(b.attester, b.onBehalfOf, b.docBlock, k(b.uri))
    {
      KeyPreimageInjective(a, k(a.uri), b, k(b.uri));
    }
  }

  // ---- parent links ----

  /** A chain of blocks from genesis: the first has the zero parent, each later one its predecessor's hash. */
  predicate Linked(k: Keccak, chain: seq<DocBlock>) {
    && (chain != [] ==> chain[0].parentHash == ZERO_WORD)
    && forall i | 1 <= i < |chain| :: chain[i].parentHash == HashDocBlock(k, chain[i - 1])
  }

  /** Among these very blocks: two with different hash inputs and one hash, or one that hashes to zero. */
  ghost predicate BrokenBy(k: Keccak, a: seq<DocBlock>, b: seq<DocBlock>) {
    || (exists x, y | x in a && y in b :: Collision(k, DocBlockPreimage(k, x), DocBlockPreimage(k, y)))
    || (exists x | x in a :: HashDocBlock(k, x) == ZERO_WORD)
    || (exists y | y in b :: HashDocBlock(k, y) == ZERO_WORD)
  }

  lemma SameHashSameBlock(k: Keccak, x: DocBlock, y: DocBlock)
    requires HashDocBlock(k, x) == HashDocBlock(k, y)
    ensures x == y || Collision(k, DocBlockPreimage(k, x), DocBlockPreimage(k, y))
  {
    if DocBlockPreimage(k, x) == DocBlockPreimage(k, y) { DocBlockPreimageInjective(k, x, y); }
  }

  lemma BrokenByPrefix(k: Keccak, a: seq<DocBlock>, b: seq<DocBlock>)
    requires a != [] && b != [] && BrokenBy(k, a[..|a| - 1], b[..|b| - 1])
    ensures BrokenBy(k, a, b)
  {
    hide DocBlockPreimage, HashDocBlock, Collision;
    assert forall x | x in a[..|a| - 1] :: x in a;
    assert forall y | y in b[..|b| - 1] :: y in b;
  }

  /** A block sequence whose only block and one with a predecessor cannot share their tip block. */
  lemma GenesisAgainstLater(k: Keccak, a: seq<DocBlock>, b: seq<DocBlock>)
    requires Linked(k, a) && Linked(k, b) && |a| == 1 && |b| > 1 && a[0] == b[|b| - 1]
    ensures HashDocBlock(k, b[|b| - 2]) == ZERO_WORD
  {
  }

  /** The tip hash commits to the whole history. */
  lemma {:induction false} TamperEvident(k: Keccak, a: seq<DocBlock>, b: seq<DocBlock>)
    requires Linked(k, a) && Linked(k, b) && a != [] && b != []
    requires HashDocBlock(k, a[|a| - 1]) == HashDocBlock(k, b[|b| - 1])
    ensures a == b || BrokenBy(k, a, b)
    decreases |a|
  {
    hide DocBlockPreimage, HashDocBlock, Collision;
    var x, y := a[|a| - 1], b[|b| - 1];
    SameHashSameBlock(k, x, y);
    if x == y {
      if |a| == 1 && |b| > 1 {
        GenesisAgainstLater(k, a, b);
      } else if |a| > 1 && |b| == 1 {
        GenesisAgainstLater(k, b, a);
      } else if |a| > 1 {
        TamperEvident(k, a[..|a| - 1], b[..|b| - 1]);
        if BrokenBy(k, a[..|a| - 1], b[..|b| - 1]) { BrokenByPrefix(k, a, b); }
      }
      assert a == a[..|a| - 1] + [x] && b == b[..|b| - 1] + [y];
    }
  }

  /** Rewriting any ancestor rewrites the hash of every descendant. */
  lemma AncestorChangeReachesDescendants(k: Keccak, a: seq<DocBlock>, b: seq<DocBlock>, i: nat, j: nat)
    requires Linked(k, a) && Linked(k, b) && i <= j < |a| && j < |b| && a[i] != b[i]
    ensures HashDocBlock(k, a[j]) != HashDocBlock(k, b[j]) || BrokenBy(k, a[..j + 1], b[..j + 1])
  {
    if HashDocBlock(k, a[j]) == HashDocBlock(k, b[j]) {
      TamperEvident(k, a[..j + 1], b[..j + 1]);
      assert a[i] == a[..j + 1][i] && b[i] == b[..j + 1][i];
    }
  }
}
