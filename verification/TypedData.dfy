/** Typed structured data as EIP-712 defines it, for any struct types: one list of members gives both the type's
    text and the order of the hashed words, and values are found by member name. */
module TypedData {
  import opened Bytes
  import opened Digits
  import opened Dedupe
  import opened Texts

  type Hash = bytes -> Bytes32

  datatype Kind =
    | Bytes32Kind
    | UintKind(bits: nat)
    | AddressKind
    | StringKind
    | StructKind(struct: StructType)

  datatype Member = Member(kind: Kind, name: string)

  datatype StructType = StructType(name: string, members: seq<Member>)

  datatype Data =
    | Word32(w: Bytes32)
    | Number(n: nat)
    | Account(a: Address)
    | Content(b: bytes)
    | Fields(fields: map<string, Data>)

  // ---- "Definition of encodeType" ----

  function KindText(kind: Kind): string {
    match kind
    case Bytes32Kind => "bytes32"
    case UintKind(bits) => "uint" + Decimal(bits)
    case AddressKind => "address"
    case StringKind => "string"
    case StructKind(struct) => struct.name
  }

  function MemberText(m: Member): string {
    KindText(m.kind) + " " + m.name
  }

  function MembersText(members: seq<Member>): string {
    if members == [] then ""
    else MemberText(members[0]) + if |members| == 1 then "" else "," + MembersText(members[1..])
  }

  function StructText(struct: StructType): string {
    struct.name + "(" + MembersText(struct.members) + ")"
  }

  /** Every struct type that the members refer to, and that those refer to in turn. */
  function Referenced(members: seq<Member>): seq<StructType> {
    if members == [] then []
    else
      (match members[0].kind
       case StructKind(struct) => [struct] + Referenced(struct.members)
       case _ => [])
      + Referenced(members[1..])
  }

  function ByName(): Order<StructType, string> {
    Order((s: StructType, t: StructType) => TextLess(s.name, t.name), (s: StructType) => s.name)
  }

  function StructTexts(structs: seq<StructType>): string {
    if structs == [] then "" else StructText(structs[0]) + StructTexts(structs[1..])
  }

  /** `encodeType`: the type, then the types it refers to, each once and sorted by name. */
  function EncodeType(struct: StructType): string {
    StructText(struct) + StructTexts(Deduped(ByName(), Referenced(struct.members)))
  }

  /** One more member in front. */
  lemma {:induction false} FrontMember(m: Member, rest: seq<Member>)
    ensures MembersText([m] + rest) == MemberText(m) + if rest == [] then "" else "," + MembersText(rest)
    ensures Referenced([m] + rest)
      == (if m.kind.StructKind? then [m.kind.struct] + Referenced(m.kind.struct.members) else []) + Referenced(rest)
  {
    assert ([m] + rest)[1..] == rest;
  }

  lemma Regroup(a: string, b: string, c: string)
    ensures a + (b + c) == a + b + c
  {
  }

  lemma RegroupFour(s: string, t: string, u: string, v: string)
    ensures s + (t + (u + v)) == s + t + u + v
  {
    Regroup(s, t, u + v);
    Regroup(s + t, u, v);
  }

  /** The member list with its closing parenthesis. */
  function Closed(members: seq<Member>): string {
    MembersText(members) + ")"
  }

  lemma {:induction false} FrontClosed(m: Member, rest: seq<Member>)
    ensures Closed([m] + rest) == if rest == [] then MemberText(m) + ")" else MemberText(m) + "," + Closed(rest)
  {
    FrontMember(m, rest);
    hide MemberText, MembersText;
    var t := MembersText(rest);
    if rest == [] {
      assert MemberText(m) + "" == MemberText(m);
    } else {
      Regroup(MemberText(m), ",", t);
      Regroup(MemberText(m) + ",", t, ")");
    }
  }

  lemma {:induction false} FourClosed(front: string, a: Member, b: Member, c: Member, d: Member)
    ensures front + Closed([a, b, c, d])
      == front + (MemberText(a) + ",") + (MemberText(b) + ",") + (MemberText(c) + ",") + (MemberText(d) + ")")
  {
    FrontClosed(d, []);
    FrontClosed(c, [d]);
    FrontClosed(b, [c, d]);
    FrontClosed(a, [b, c, d]);
    assert [d] + [] == [d] && [c] + [d] == [c, d] && [b] + [c, d] == [b, c, d] && [a] + [b, c, d] == [a, b, c, d];
    hide MemberText, MembersText, Closed;
    var s, t, u, v := MemberText(a) + ",", MemberText(b) + ",", MemberText(c) + ",", MemberText(d) + ")";
    RegroupFour(s, t, u, v);
    Regroup(front, s + t + u, v);
    RegroupFour(front, s, t, u);
    Regroup(s, t, u);
  }

  lemma {:induction false} FourMembers(name: string, a: Member, b: Member, c: Member, d: Member)
    ensures StructText(StructType(name, [a, b, c, d]))
      == name + "(" + (MemberText(a) + ",") + (MemberText(b) + ",") + (MemberText(c) + ",") + (MemberText(d) + ")")
  {
    Regroup(name + "(", MembersText([a, b, c, d]), ")");
    FourClosed(name + "(", a, b, c, d);
  }

  lemma {:induction false} FiveMembers(name: string, a: Member, b: Member, c: Member, d: Member, e: Member)
    ensures StructText(StructType(name, [a, b, c, d, e]))
      == name + "(" + (MemberText(a) + ",") + (MemberText(b) + ",") + (MemberText(c) + ",") + (MemberText(d) + ",")
        + (MemberText(e) + ")")
  {
    Regroup(name + "(", MembersText([a, b, c, d, e]), ")");
    FrontClosed(a, [b, c, d, e]);
    assert [a] + [b, c, d, e] == [a, b, c, d, e];
    Regroup(name + "(", MemberText(a) + ",", Closed([b, c, d, e]));
    FourClosed(name + "(" + (MemberText(a) + ","), b, c, d, e);
  }

  lemma {:induction false} NoneReferenced(members: seq<Member>)
    requires forall m | m in members :: !m.kind.StructKind?
    ensures Referenced(members) == []
  {
    if members != [] { NoneReferenced(members[1..]); }
  }

  lemma AloneType(struct: StructType)
    requires Referenced(struct.members) == []
    ensures EncodeType(struct) == StructText(struct)
  {
    var o := ByName();
    assert Sort(o.less, []) == [] && Keep(o.key, [], {}) == [] && StructTexts([]) == "";
    assert StructText(struct) + "" == StructText(struct);
  }

  lemma OneReferenced(struct: StructType, other: StructType)
    requires Referenced(struct.members) == [other]
    ensures EncodeType(struct) == StructText(struct) + StructText(other)
  {
    var o := ByName();
    hide Referenced, StructText;
    assert [other][1..] == [] && Sort(o.less, []) == [] && [other] + [] == [other];
    assert Sort(o.less, [other]) == [other];
    assert Keep(o.key, [], {} + {o.key(other)}) == [];
    assert Keep(o.key, [other], {}) == [other];
    assert StructTexts([]) == "" && StructText(other) + "" == StructText(other);
  }

  // ---- "Definition of encodeData" and "Definition of hashStruct" ----

  predicate Fits(kind: Kind, d: Data) {
    match kind
    case Bytes32Kind => d.Word32?
    case UintKind(bits) => d.Number? && d.n < Pow256(bits / 8)
    case AddressKind => d.Account?
    case StringKind => d.Content?
    case StructKind(struct) => d.Fields? && AllFit(struct.members, d.fields)
  }

  predicate AllFit(members: seq<Member>, fields: map<string, Data>) {
    members == []
    || (&& members[0].name in fields && Fits(members[0].kind, fields[members[0].name])
        && AllFit(members[1..], fields))
  }

  /** One member is one word: elementary values as they are, strings and structs by their hashes. */
  function EncodeMember(k: Hash, kind: Kind, d: Data): Bytes32
    requires Fits(kind, d)
    decreases kind, 1
  {
    match kind
    case Bytes32Kind => d.w
    case UintKind(_) => Word(d.n)
    case AddressKind => AddressWord(d.a)
    case StringKind => k(d.b)
    case StructKind(struct) => HashStruct(k, struct, d.fields)
  }

  function EncodeData(k: Hash, members: seq<Member>, fields: map<string, Data>): bytes
    requires AllFit(members, fields)
    decreases members, 0
  {
    if members == [] then []
    else EncodeMember(k, members[0].kind, fields[members[0].name]) + EncodeData(k, members[1..], fields)
  }

  function HashStruct(k: Hash, struct: StructType, fields: map<string, Data>): Bytes32
    requires AllFit(struct.members, fields)
    decreases struct, 0
  {
    k(k(Ascii(EncodeType(struct))) + EncodeData(k, struct.members, fields))
  }

  /** The encoded data from the word of each member. */
  lemma {:induction false} EncodesMembers(k: Hash, members: seq<Member>, fields: map<string, Data>, words: seq<bytes>)
    requires |members| == |words|
    requires forall i | 0 <= i < |members| ::
      var m := members[i];
      m.name in fields && Fits(m.kind, fields[m.name]) && EncodeMember(k, m.kind, fields[m.name]) == words[i]
    ensures AllFit(members, fields) && EncodeData(k, members, fields) == Flat(words)
  {
    if members != [] {
      hide EncodeMember, Fits;
      EncodesMembers(k, members[1..], fields, words[1..]);
      FlatFront(words);
    }
  }

  /** "Specification": what is signed for a message in a domain. */
  function SignedDigest(k: Hash, domain: StructType, domainFields: map<string, Data>, struct: StructType,
                        fields: map<string, Data>): Bytes32
    requires AllFit(domain.members, domainFields) && AllFit(struct.members, fields)
  {
    k([0x19, 0x01] + HashStruct(k, domain, domainFields) + HashStruct(k, struct, fields))
  }
}
