/** The Solidity Contract ABI encoding ("Formal Specification of the Encoding", "Use of Dynamic Types")
    for the types Doc Chain uses, and a decoder that inverts it. */
module Abi {
  import opened Wrappers
  import opened Bytes

  datatype Type =
    | Uint(size: nat)  // in bytes
    | Word32
    | AddressType
    | ByteString  // `bytes` and `string`
    | ArrayOf(elem: Type)
    | TupleOf(parts: seq<Type>)

  datatype Value =
    | Num(n: nat)
    | Raw(w: Bytes32)
    | Addr(a: Address)
    | Blob(b: bytes)
    | Items(vs: seq<Value>)

  predicate Dynamic(t: Type) {
    match t
    case ByteString => true
    case ArrayOf(_) => true
    case TupleOf(ts) => AnyDynamic(ts)
    case _ => false
  }

  predicate AnyDynamic(ts: seq<Type>) {
    ts != [] && (Dynamic(ts[0]) || AnyDynamic(ts[1..]))
  }

  /** Bytes a component takes in the head part of its enclosing tuple. */
  function HeadSize(t: Type): nat
    decreases t, 0
  {
    if t.TupleOf? && !Dynamic(t) then HeadsSize(t.parts) else 32
  }

  function HeadsSize(ts: seq<Type>): nat {
    if ts == [] then 0 else HeadSize(ts[0]) + HeadsSize(ts[1..])
  }

  predicate WellTyped(t: Type, v: Value)
    decreases v, 0
  {
    match t
    case Uint(size) => v.Num? && size <= 32 && v.n < Pow256(size)
    case Word32 => v.Raw?
    case AddressType => v.Addr?
    case ByteString => v.Blob? && |v.b| < TWO_256
    case ArrayOf(elem) => v.Items? && |v.vs| < TWO_256 && AllWellTyped(Repeat(elem, |v.vs|), v.vs)
    case TupleOf(ts) => v.Items? && AllWellTyped(ts, v.vs)
  }

  predicate AllWellTyped(ts: seq<Type>, vs: seq<Value>)
    decreases vs, 1
  {
    |ts| == |vs| && (vs != [] ==> WellTyped(ts[0], vs[0]) && AllWellTyped(ts[1..], vs[1..]))
  }

  function Repeat(t: Type, n: nat): (ts: seq<Type>)
    ensures |ts| == n && forall i | 0 <= i < n :: ts[i] == t
  {
    if n == 0 then [] else [t] + Repeat(t, n - 1)
  }

  /** `bytes` content padded with zeros to whole words. */
  function PadRight(b: bytes): (r: bytes) {
    b + Zeros((32 - |b| % 32) % 32)
  }

  function Enc(t: Type, v: Value): (r: bytes)
    requires WellTyped(t, v)
    decreases v, 0
  {
    match t
    case Uint(_) => Word(v.n)
    case Word32 => v.w
    case AddressType => AddressWord(v.a)
    case ByteString => Word(|v.b|) + PadRight(v.b)
    case ArrayOf(elem) => Word(|v.vs|) + EncAll(Repeat(elem, |v.vs|), v.vs)
    case TupleOf(ts) => EncAll(ts, v.vs)
  }

  function EncAll(ts: seq<Type>, vs: seq<Value>): (r: bytes)
    requires AllWellTyped(ts, vs)
    decreases vs, 2
  {
    Heads(ts, vs, HeadsSize(ts)) + Tails(ts, vs)
  }

  /** Head parts; the tail of the first dynamic component starts `off` bytes after the first head. */
  function Heads(ts: seq<Type>, vs: seq<Value>, off: nat): (r: bytes)
    requires AllWellTyped(ts, vs)
    decreases vs, 1
  {
    if vs == [] then []
    else if Dynamic(ts[0]) then Word(off) + Heads(ts[1..], vs[1..], off + |Enc(ts[0], vs[0])|)
    else Enc(ts[0], vs[0]) + Heads(ts[1..], vs[1..], off)
  }

  function Tails(ts: seq<Type>, vs: seq<Value>): (r: bytes)
    requires AllWellTyped(ts, vs)
    decreases vs, 1
  {
    if vs == [] then []
    else (if Dynamic(ts[0]) then Enc(ts[0], vs[0]) else []) + Tails(ts[1..], vs[1..])
  }

  // ---- decoding ----

  function Depth(t: Type): nat {
    match t
    case ArrayOf(elem) => 1 + Depth(elem)
    case TupleOf(ts) => 1 + MaxDepth(ts)
    case _ => 0
  }

  function MaxDepth(ts: seq<Type>): nat {
    if ts == [] then 0
    else var rest := MaxDepth(ts[1..]); if Depth(ts[0]) > rest then Depth(ts[0]) else rest
  }

  lemma {:induction false} MaxDepthRepeat(t: Type, n: nat)
    ensures MaxDepth(Repeat(t, n)) <= Depth(t)
  {
    if n > 0 { MaxDepthRepeat(t, n - 1); }
  }

  function ReadWord(data: bytes, pos: nat): (r: Option<Bytes32>) {
    if pos + 32 <= |data| then Some(data[pos..pos + 32]) else None
  }

  function ReadNumber(data: bytes, pos: nat): (r: Option<uint256>) {
    var w :- ReadWord(data, pos);
    Some(WordValue(w))
  }

  /** Reads a value of type `t` at `pos`; None when a word or a payload lies outside `data`
      or a number or an address has dirty high bytes. */
  function Dec(t: Type, data: bytes, pos: nat): (r: Option<Value>)
    decreases Depth(t), 0
  {
    match t
    case Uint(size) =>
      var n :- ReadNumber(data, pos);
      if size <= 32 && n < Pow256(size) then Some(Num(n)) else None
    case Word32 =>
      var w :- ReadWord(data, pos);
      Some(Raw(w))
    case AddressType =>
      var w :- ReadWord(data, pos);
      if w[..12] == Zeros(12) then Some(Addr(w[12..])) else None
    case ByteString =>
      var n :- ReadNumber(data, pos);
      if pos + 32 + n <= |data| then Some(Blob(data[pos + 32..pos + 32 + n])) else None
    case ArrayOf(elem) =>
      var n :- ReadNumber(data, pos);
      if pos + 32 + n * HeadSize(elem) <= |data| then
        MaxDepthRepeat(elem, n);
        var vs :- DecAll(Repeat(elem, n), data, pos + 32, pos + 32);
        Some(Items(vs))
      else None
    case TupleOf(ts) =>
      var vs :- DecAll(ts, data, pos, pos);
      Some(Items(vs))
  }

  /** Reads components whose heads start at `head` and whose offsets count from `base`. */
  function DecAll(ts: seq<Type>, data: bytes, base: nat, head: nat): (r: Option<seq<Value>>)
    decreases MaxDepth(ts), 1 + |ts|
  {
    if ts == [] then Some([])
    else
      var off :- if Dynamic(ts[0]) then ReadNumber(data, head) else Some(0);
      var v :- Dec(ts[0], data, if Dynamic(ts[0]) then base + off else head);
      var rest :- DecAll(ts[1..], data, base, head + HeadSize(ts[0]));
      Some([v] + rest)
  }

  /** A static component followed by a dynamic one. */
  lemma DecPair(t: Type, u: Type, data: bytes, off: nat, v: Value, w: Value)
    requires !Dynamic(t) && Dynamic(u) && ReadNumber(data, HeadSize(t)) == Some(off)
    requires Dec(t, data, 0) == Some(v) && Dec(u, data, off) == Some(w)
    ensures DecAll([t, u], data, 0, 0) == Some([v, w])
  {
    assert [t, u][1..] == [u] && [u][1..] == [];
    assert DecAll([u][1..], data, 0, HeadSize(t) + HeadSize(u)) == Some([]) && [w] + [] == [w];
    assert DecAll([u], data, 0, HeadSize(t)) == Some([w]);
    assert [v] + [w] == [v, w];
  }

  // ---- the encoding is read back exactly ----

  lemma {:induction false} EncStaticSize(t: Type, v: Value)
    requires WellTyped(t, v) && !Dynamic(t)
    ensures |Enc(t, v)| == HeadSize(t)
    decreases v, 0
  {
    if t.TupleOf? {
      HeadsLength(t.parts, v.vs, HeadsSize(t.parts));
      StaticTails(t.parts, v.vs);
    }
  }

  lemma {:induction false} HeadsLength(ts: seq<Type>, vs: seq<Value>, off: nat)
    requires AllWellTyped(ts, vs)
    ensures |Heads(ts, vs, off)| == HeadsSize(ts)
    decreases vs, 1
  {
    if vs != [] {
      if Dynamic(ts[0]) {
        HeadsLength(ts[1..], vs[1..], off + |Enc(ts[0], vs[0])|);
      } else {
        EncStaticSize(ts[0], vs[0]);
        HeadsLength(ts[1..], vs[1..], off);
      }
    }
  }

  lemma {:induction false} StaticTails(ts: seq<Type>, vs: seq<Value>)
    requires AllWellTyped(ts, vs) && !AnyDynamic(ts)
    ensures Tails(ts, vs) == []
  {
    if vs != [] { StaticTails(ts[1..], vs[1..]); }
  }

  lemma {:induction false} HeadsSizeRepeat(t: Type, n: nat)
    ensures HeadsSize(Repeat(t, n)) == n * HeadSize(t)
  {
    if n > 0 {
      HeadsSizeRepeat(t, n - 1);
      assert Repeat(t, n)[1..] == Repeat(t, n - 1);
      assert n * HeadSize(t) == HeadSize(t) + (n - 1) * HeadSize(t);
    }
  }

  lemma ReadNumberAt(data: bytes, pos: nat, n: nat)
    requires At(data, pos, Word(n)) && n < TWO_256
    ensures ReadNumber(data, pos) == Some(n)
  {
    WordValueOf(n);
  }

  /** Wherever an encoding stands in some data, decoding there returns the encoded value. */
  lemma {:induction false} DecOfEnc(t: Type, v: Value, data: bytes, pos: nat)
    requires WellTyped(t, v) && |Enc(t, v)| < TWO_256
    requires At(data, pos, Enc(t, v))
    ensures Dec(t, data, pos) == Some(v)
    decreases v, 0
  {
    match t
    case Uint(size) =>
      Pow256Monotone(size, 32);
      Pow256Constants();
      ReadNumberAt(data, pos, v.n);
    case Word32 =>
    case AddressType =>
      assert AddressWord(v.a)[..12] == Zeros(12) && AddressWord(v.a)[12..] == v.a;
    case ByteString =>
      DecBlob(v.b, data, pos);
    case ArrayOf(elem) =>
      var n := |v.vs|;
      var ts := Repeat(elem, n);
      AtSplit(data, pos, Word(n), EncAll(ts, v.vs));
      HeadsLength(ts, v.vs, HeadsSize(ts));
      HeadsSizeRepeat(elem, n);
      ReadNumberAt(data, pos, n);
      DecAllOfEncAll(ts, v.vs, data, pos + 32);
    case TupleOf(ts) =>
      DecAllOfEncAll(ts, v.vs, data, pos);
  }

  lemma DecBlob(b: bytes, data: bytes, pos: nat)
    requires |b| < TWO_256
    requires At(data, pos, Word(|b|) + PadRight(b))
    ensures Dec(ByteString, data, pos) == Some(Blob(b))
  {
    AtSplit(data, pos, Word(|b|), PadRight(b));
    AtSplit(data, pos + 32, b, Zeros((32 - |b| % 32) % 32));
    ReadNumberAt(data, pos, |b|);
  }

  lemma {:induction false} DecAllOfEncAll(ts: seq<Type>, vs: seq<Value>, data: bytes, base: nat)
    requires AllWellTyped(ts, vs) && |EncAll(ts, vs)| < TWO_256
    requires At(data, base, EncAll(ts, vs))
    ensures DecAll(ts, data, base, base) == Some(vs)
    decreases vs, 2
  {
    HeadsLength(ts, vs, HeadsSize(ts));
    AtSplit(data, base, Heads(ts, vs, HeadsSize(ts)), Tails(ts, vs));
    DecAllFrom(ts, vs, data, base, base, HeadsSize(ts));
  }

  lemma {:induction false} DecAllFrom(ts: seq<Type>, vs: seq<Value>, data: bytes, base: nat, head: nat, off: nat)
    requires AllWellTyped(ts, vs) && off + |Tails(ts, vs)| < TWO_256 && |Heads(ts, vs, off)| < TWO_256
    requires At(data, head, Heads(ts, vs, off)) && At(data, base + off, Tails(ts, vs))
    ensures DecAll(ts, data, base, head) == Some(vs)
    decreases vs, 1
  {
    if vs != [] {
      hide Dec, DecAll, At, Heads, Tails, AllWellTyped;
      if Dynamic(ts[0]) {
        DecDynamicFirst(ts, vs, data, base, head, off);
      } else {
        DecStaticFirst(ts, vs, data, base, head, off);
      }
    }
  }

  lemma {:induction false} DecDynamicFirst(ts: seq<Type>, vs: seq<Value>, data: bytes, base: nat, head: nat, off: nat)
    requires AllWellTyped(ts, vs) && off + |Tails(ts, vs)| < TWO_256 && |Heads(ts, vs, off)| < TWO_256
    requires At(data, head, Heads(ts, vs, off)) && At(data, base + off, Tails(ts, vs))
    requires vs != [] && |ts| == |vs| && Dynamic(ts[0])
    ensures DecAll(ts, data, base, head) == Some(vs)
    decreases vs, 0
  {
    hide Dec, DecAll, At, Dynamic, Heads, Tails, AllWellTyped, WellTyped, Enc, HeadSize;
    DynamicPartsAt(ts, vs, data, base, head, off);
    ReadNumberAt(data, head, off);
    DecOfEnc(ts[0], vs[0], data, base + off);
    DecAllFrom(ts[1..], vs[1..], data, base, head + HeadSize(ts[0]), off + |Enc(ts[0], vs[0])|);
    DecAllStep(ts, data, base, head, base + off, vs[0], vs[1..]);
    assert vs == [vs[0]] + vs[1..];
  }

  lemma {:induction false} DecStaticFirst(ts: seq<Type>, vs: seq<Value>, data: bytes, base: nat, head: nat, off: nat)
    requires AllWellTyped(ts, vs) && off + |Tails(ts, vs)| < TWO_256 && |Heads(ts, vs, off)| < TWO_256
    requires At(data, head, Heads(ts, vs, off)) && At(data, base + off, Tails(ts, vs))
    requires vs != [] && |ts| == |vs| && !Dynamic(ts[0])
    ensures DecAll(ts, data, base, head) == Some(vs)
    decreases vs, 0
  {
    hide Dec, DecAll, At, Dynamic, Heads, Tails, AllWellTyped, WellTyped, Enc, HeadSize;
    StaticPartsAt(ts, vs, data, base, head, off);
    DecOfEnc(ts[0], vs[0], data, head);
    DecAllFrom(ts[1..], vs[1..], data, base, head + HeadSize(ts[0]), off);
    DecAllStep(ts, data, base, head, head, vs[0], vs[1..]);
    assert vs == [vs[0]] + vs[1..];
  }

  /** Where the parts of a first, dynamic component and of the others stand. */
  lemma {:induction false} DynamicPartsAt(ts: seq<Type>, vs: seq<Value>, data: bytes, base: nat, head: nat, off: nat)
    requires AllWellTyped(ts, vs) && vs != [] && |ts| == |vs| && Dynamic(ts[0])
    requires At(data, head, Heads(ts, vs, off)) && At(data, base + off, Tails(ts, vs))
    ensures WellTyped(ts[0], vs[0]) && AllWellTyped(ts[1..], vs[1..]) && HeadSize(ts[0]) == 32
    ensures var e := Enc(ts[0], vs[0]);
      && At(data, head, Word(off)) && At(data, head + 32, Heads(ts[1..], vs[1..], off + |e|))
      && At(data, base + off, e) && At(data, base + (off + |e|), Tails(ts[1..], vs[1..]))
      && |Tails(ts, vs)| == |e| + |Tails(ts[1..], vs[1..])|
      && |Heads(ts, vs, off)| == 32 + |Heads(ts[1..], vs[1..], off + |e|)|
  {
    hide Dynamic, At, HeadSize, Heads, Tails, AllWellTyped, WellTyped, Enc, Word;
    PartsUnfold(ts, vs, off);
    NoParts(ts[0], off);
    var e := Enc(ts[0], vs[0]);
    AtSplit(data, head, Word(off), Heads(ts[1..], vs[1..], off + |e|));
    AtSplit(data, base + off, e, Tails(ts[1..], vs[1..]));
    assert base + off + |e| == base + (off + |e|);
  }

  /** The same for a static first component. */
  lemma {:induction false} StaticPartsAt(ts: seq<Type>, vs: seq<Value>, data: bytes, base: nat, head: nat, off: nat)
    requires AllWellTyped(ts, vs) && vs != [] && |ts| == |vs| && !Dynamic(ts[0])
    requires At(data, head, Heads(ts, vs, off)) && At(data, base + off, Tails(ts, vs))
    ensures WellTyped(ts[0], vs[0]) && AllWellTyped(ts[1..], vs[1..])
    ensures var e := Enc(ts[0], vs[0]);
      && |e| == HeadSize(ts[0])
      && At(data, head, e) && At(data, head + HeadSize(ts[0]), Heads(ts[1..], vs[1..], off))
      && At(data, base + off, Tails(ts[1..], vs[1..])) && |Tails(ts, vs)| == |Tails(ts[1..], vs[1..])|
      && |Heads(ts, vs, off)| == |e| + |Heads(ts[1..], vs[1..], off)|
  {
    hide Dynamic, At, HeadSize, Heads, Tails, AllWellTyped, WellTyped, Enc, Word;
    PartsUnfold(ts, vs, off);
    EncStaticSize(ts[0], vs[0]);
    AtSplit(data, head, Enc(ts[0], vs[0]), Heads(ts[1..], vs[1..], off));
    assert [] + Tails(ts[1..], vs[1..]) == Tails(ts[1..], vs[1..]);
  }

  lemma {:induction false} PartsUnfold(ts: seq<Type>, vs: seq<Value>, off: nat)
    requires AllWellTyped(ts, vs) && vs != []
    ensures |ts| == |vs| && WellTyped(ts[0], vs[0]) && AllWellTyped(ts[1..], vs[1..])
    ensures var e := Enc(ts[0], vs[0]);
      && Heads(ts, vs, off) == (if Dynamic(ts[0]) then Word(off) + Heads(ts[1..], vs[1..], off + |e|)
                                else e + Heads(ts[1..], vs[1..], off))
      && Tails(ts, vs) == (if Dynamic(ts[0]) then e else []) + Tails(ts[1..], vs[1..])
  {
    hide Enc, WellTyped, Dynamic;
  }

  lemma DecAllStep(ts: seq<Type>, data: bytes, base: nat, head: nat, pos: nat, v: Value, rest: seq<Value>)
    requires ts != [] && Dec(ts[0], data, pos) == Some(v)
    requires if Dynamic(ts[0]) then pos >= base && ReadNumber(data, head) == Some(pos - base) else pos == head
    requires DecAll(ts[1..], data, base, head + HeadSize(ts[0])) == Some(rest)
    ensures DecAll(ts, data, base, head) == Some([v] + rest)
  {
    hide Dec;
  }

  /** Different values of one type never share an encoding. */
  lemma EncInjective(t: Type, v: Value, w: Value)
    requires WellTyped(t, v) && WellTyped(t, w) && |Enc(t, v)| < TWO_256
    requires Enc(t, v) == Enc(t, w)
    ensures v == w
  {
    DecOfEnc(t, v, Enc(t, v), 0);
    DecOfEnc(t, w, Enc(t, v), 0);
  }

  // ---- words followed by one string ----

  /** Types that take one static word. */
  predicate Elementary(t: Type) {
    t.Uint? || t.Word32? || t.AddressType?
  }

  function Words(ts: seq<Type>, vs: seq<Value>): (r: bytes)
    requires AllWellTyped(ts, vs) && forall t | t in ts :: Elementary(t)
    ensures |r| == 32 * |ts|
  {
    if ts == [] then []
    else
      assert Elementary(ts[0]);
      Enc(ts[0], vs[0]) + Words(ts[1..], vs[1..])
  }

  lemma {:induction false} FirstWordOf(ts: seq<Type>, vs: seq<Value>)
    requires AllWellTyped(ts, vs) && (forall t | t in ts :: Elementary(t)) && ts != []
    ensures |ts| == |vs| && WellTyped(ts[0], vs[0]) && AllWellTyped(ts[1..], vs[1..])
    ensures !Dynamic(ts[0]) && HeadSize(ts[0]) == 32 && forall t | t in ts[1..] :: Elementary(t)
    ensures Words(ts, vs) == Enc(ts[0], vs[0]) + Words(ts[1..], vs[1..])
  {
    assert Elementary(ts[0]);
  }

  lemma {:induction false} OnlyString(b: bytes, off: nat)
    requires |b| < TWO_256
    ensures AllWellTyped([ByteString], [Blob(b)]) && HeadsSize([ByteString]) == 32
    ensures Heads([ByteString], [Blob(b)], off) == Word(off)
    ensures Tails([ByteString], [Blob(b)]) == Word(|b|) + PadRight(b)
    ensures AllWellTyped([], []) && Words([], []) == []
  {
    hide PadRight, Word;
    NoParts(ByteString, off + |Word(|b|) + PadRight(b)|);
    ConsTyped(ByteString, Blob(b), [], [], off);
    assert [ByteString] + [] == [ByteString] && [Blob(b)] + [] == [Blob(b)];
  }

  lemma {:induction false} OneWord(w: Bytes32)
    ensures AllWellTyped([Word32], [Raw(w)]) && Words([Word32], [Raw(w)]) == w
    ensures forall t | t in [Word32] :: Elementary(t)
  {
    AllWellTypedIntro([Word32], [Raw(w)]);
    FirstWordOf([Word32], [Raw(w)]);
    assert [Word32][1..] == [] && [Raw(w)][1..] == [];
    assert AllWellTyped([], []) && Words([], []) == [] && w + [] == w;
  }

  lemma {:induction false} HeadsOfWordsThenString(ts: seq<Type>, vs: seq<Value>, b: bytes, off: nat)
    requires AllWellTyped(ts, vs) && (forall t | t in ts :: Elementary(t)) && |b| < TWO_256
    ensures AllWellTyped(ts + [ByteString], vs + [Blob(b)])
    ensures HeadsSize(ts + [ByteString]) == 32 * |ts| + 32
    ensures Heads(ts + [ByteString], vs + [Blob(b)], off) == Words(ts, vs) + Word(off)
    ensures Tails(ts + [ByteString], vs + [Blob(b)]) == Word(|b|) + PadRight(b)
    decreases |ts|
  {
    SameCount(ts, vs);
    hide PadRight, Word, Enc, WellTyped, AllWellTyped, Dynamic, Heads, Tails, HeadsSize, HeadSize, AnyDynamic, Words;
    hide Elementary;
    if ts == [] {
      OnlyString(b, off);
      assert ts + [ByteString] == [ByteString] && vs + [Blob(b)] == [Blob(b)] && [] + Word(off) == Word(off);
    } else {
      FirstWordOf(ts, vs);
      HeadsOfWordsThenString(ts[1..], vs[1..], b, off);
      FrontStatic(ts[0], vs[0], ts[1..] + [ByteString], vs[1..] + [Blob(b)], off, Words(ts[1..], vs[1..]) + Word(off),
                  Word(|b|) + PadRight(b));
      HeadFirst(ts, ByteString);
      HeadFirst(vs, Blob(b));
      assert Words(ts, vs) + Word(off) == Enc(ts[0], vs[0]) + (Words(ts[1..], vs[1..]) + Word(off));
    }
  }

  /** The encoding of words only: one after the other. */
  lemma {:induction false} WordsOnly(ts: seq<Type>, vs: seq<Value>)
    requires AllWellTyped(ts, vs) && forall t | t in ts :: Elementary(t)
    ensures EncAll(ts, vs) == Words(ts, vs)
  {
    HeadsOfWords(ts, vs, HeadsSize(ts));
    assert Words(ts, vs) + [] == Words(ts, vs);
  }

  lemma {:induction false} HeadsOfWords(ts: seq<Type>, vs: seq<Value>, off: nat)
    requires AllWellTyped(ts, vs) && forall t | t in ts :: Elementary(t)
    ensures Heads(ts, vs, off) == Words(ts, vs) && Tails(ts, vs) == []
    decreases |ts|
  {
    SameCount(ts, vs);
    if ts != [] {
      hide Enc, WellTyped, Dynamic, HeadSize, Elementary;
      FirstWordOf(ts, vs);
      HeadsOfWords(ts[1..], vs[1..], off);
    }
  }

  /** The encoding of a tuple of elementary values, from the word of each. */
  lemma {:induction false} EncodesWords(ts: seq<Type>, vs: seq<Value>, words: seq<bytes>)
    requires |ts| == |vs| == |words|
    requires forall i | 0 <= i < |ts| :: Elementary(ts[i]) && WellTyped(ts[i], vs[i]) && Enc(ts[i], vs[i]) == words[i]
    ensures AllWellTyped(ts, vs) && (forall t | t in ts :: Elementary(t)) && EncAll(ts, vs) == Flat(words)
  {
    AllWellTypedIntro(ts, vs);
    WordsFlat(ts, vs, words);
    WordsOnly(ts, vs);
  }

  lemma {:induction false} WordsFlat(ts: seq<Type>, vs: seq<Value>, words: seq<bytes>)
    requires AllWellTyped(ts, vs) && (forall t | t in ts :: Elementary(t)) && |ts| == |vs| == |words|
    requires forall i | 0 <= i < |ts| :: WellTyped(ts[i], vs[i]) && Enc(ts[i], vs[i]) == words[i]
    ensures Words(ts, vs) == Flat(words)
  {
    hide Enc, WellTyped, Elementary;
    if ts != [] {
      FirstWordOf(ts, vs);
      WordsFlat(ts[1..], vs[1..], words[1..]);
      FlatFront(words);
    }
  }

  lemma {:induction false} SameCount(ts: seq<Type>, vs: seq<Value>)
    requires AllWellTyped(ts, vs)
    ensures |ts| == |vs|
  {
  }

  lemma HeadFirst<T>(xs: seq<T>, x: T)
    requires xs != []
    ensures xs + [x] == [xs[0]] + (xs[1..] + [x])
  {
  }

  /** The encoding of some words followed by one string: the words, the offset of the string, its length
      and its padded bytes. */
  lemma WordsThenString(ts: seq<Type>, vs: seq<Value>, b: bytes)
    requires AllWellTyped(ts, vs) && (forall t | t in ts :: Elementary(t)) && |b| < TWO_256
    ensures AllWellTyped(ts + [ByteString], vs + [Blob(b)])
    ensures EncAll(ts + [ByteString], vs + [Blob(b)])
      == Words(ts, vs) + Word(32 * |ts| + 32) + (Word(|b|) + PadRight(b))
  {
    hide Enc, WellTyped, AllWellTyped, Heads, Tails, HeadsSize, Words, PadRight, Word;
    HeadsOfWordsThenString(ts, vs, b, 32 * |ts| + 32);
  }

  /** Word `i` stands at byte `32 * i`. */
  lemma {:induction false} WordAt(ts: seq<Type>, vs: seq<Value>, i: nat)
    requires AllWellTyped(ts, vs) && (forall t | t in ts :: Elementary(t)) && i < |ts|
    ensures WellTyped(ts[i], vs[i]) && Words(ts, vs)[32 * i..32 * i + 32] == Enc(ts[i], vs[i])
  {
    assert Elementary(ts[0]);
    if i > 0 {
      WordAt(ts[1..], vs[1..], i - 1);
      assert Words(ts, vs)[32..] == Words(ts[1..], vs[1..]);
      assert Words(ts, vs)[32 * i..32 * i + 32] == Words(ts, vs)[32..][32 * (i - 1)..32 * (i - 1) + 32];
    }
  }

  lemma {:induction false} AllWellTypedIntro(ts: seq<Type>, vs: seq<Value>)
    requires |ts| == |vs| && forall i | 0 <= i < |ts| :: WellTyped(ts[i], vs[i])
    ensures AllWellTyped(ts, vs)
  {
    if vs != [] { AllWellTypedIntro(ts[1..], vs[1..]); }
  }

  lemma {:induction false} EncArray(t: Type, vs: seq<Value>)
    requires |vs| < TWO_256 && AllWellTyped(Repeat(t, |vs|), vs)
    ensures WellTyped(ArrayOf(t), Items(vs))
    ensures Enc(ArrayOf(t), Items(vs))
      == Word(|vs|) + (Heads(Repeat(t, |vs|), vs, HeadsSize(Repeat(t, |vs|))) + Tails(Repeat(t, |vs|), vs))
  {
    hide Heads, Tails, HeadsSize, AllWellTyped, Repeat, Word;
  }

  /** What one more component in front adds to an encoding. */
  lemma {:induction false} ConsTyped(t: Type, v: Value, ts: seq<Type>, vs: seq<Value>, off: nat)
    requires WellTyped(t, v) && AllWellTyped(ts, vs)
    ensures AllWellTyped([t] + ts, [v] + vs)
    ensures HeadsSize([t] + ts) == HeadSize(t) + HeadsSize(ts)
    ensures AnyDynamic([t] + ts) <==> Dynamic(t) || AnyDynamic(ts)
    ensures Heads([t] + ts, [v] + vs, off)
      == if Dynamic(t) then Word(off) + Heads(ts, vs, off + |Enc(t, v)|)
         else Enc(t, v) + Heads(ts, vs, off)
    ensures Tails([t] + ts, [v] + vs) == (if Dynamic(t) then Enc(t, v) else []) + Tails(ts, vs)
  {
    assert ([t] + ts)[1..] == ts && ([v] + vs)[1..] == vs;
  }

  /** Heads and tails of a tuple whose fourth of five components is its only dynamic one. */
  lemma {:induction false} PartsOfFive(a: Type, b: Type, c: Type, d: Type, e: Type, va: Value, vb: Value, vc: Value,
                                       vd: Value, ve: Value, off: nat)
    requires WellTyped(a, va) && WellTyped(b, vb) && WellTyped(c, vc) && WellTyped(d, vd) && WellTyped(e, ve)
    requires !Dynamic(a) && !Dynamic(b) && !Dynamic(c) && Dynamic(d) && !Dynamic(e)
    ensures AllWellTyped([a, b, c, d, e], [va, vb, vc, vd, ve]) && AnyDynamic([a, b, c, d, e])
    ensures Heads([a, b, c, d, e], [va, vb, vc, vd, ve], off)
      == Enc(a, va) + (Enc(b, vb) + (Enc(c, vc) + (Word(off) + Enc(e, ve))))
    ensures Tails([a, b, c, d, e], [va, vb, vc, vd, ve]) == Enc(d, vd)
    ensures HeadsSize([a, b, c, d, e]) == HeadSize(a) + (HeadSize(b) + (HeadSize(c) + (32 + HeadSize(e))))
  {
    hide Enc, WellTyped, Dynamic, Heads, Tails, HeadsSize, HeadSize, AnyDynamic, AllWellTyped;
    var none: seq<Type>, nothing: seq<Value> := [], [];
    NoParts(d, off + |Enc(d, vd)|);
    FrontStatic(e, ve, none, nothing, off + |Enc(d, vd)|, [], []);
    assert Enc(e, ve) + [] == Enc(e, ve);
    var t1, v1 := [e] + none, [ve] + nothing;
    ConsTyped(d, vd, t1, v1, off);
    assert Enc(d, vd) + [] == Enc(d, vd);
    var t2, v2, h2 := [d] + t1, [vd] + v1, Word(off) + Enc(e, ve);
    FrontStatic(c, vc, t2, v2, off, h2, Enc(d, vd));
    var t3, v3, h3 := [c] + t2, [vc] + v2, Enc(c, vc) + h2;
    FrontStatic(b, vb, t3, v3, off, h3, Enc(d, vd));
    var t4, v4, h4 := [b] + t3, [vb] + v3, Enc(b, vb) + h3;
    FrontStatic(a, va, t4, v4, off, h4, Enc(d, vd));
    ListOfFive(a, b, c, d, e);
    ListOfFive(va, vb, vc, vd, ve);
  }

  /** A static component in front of known parts. */
  lemma {:induction false} FrontStatic(t: Type, v: Value, ts: seq<Type>, vs: seq<Value>, off: nat, heads: bytes,
                                       tails: bytes)
    requires WellTyped(t, v) && AllWellTyped(ts, vs) && !Dynamic(t)
    requires Heads(ts, vs, off) == heads && Tails(ts, vs) == tails
    ensures AllWellTyped([t] + ts, [v] + vs) && (AnyDynamic([t] + ts) <==> AnyDynamic(ts))
    ensures HeadsSize([t] + ts) == HeadSize(t) + HeadsSize(ts)
    ensures Heads([t] + ts, [v] + vs, off) == Enc(t, v) + heads && Tails([t] + ts, [v] + vs) == tails
  {
    hide Enc, WellTyped, Dynamic, Heads, Tails, HeadsSize, HeadSize, AnyDynamic, AllWellTyped;
    ConsTyped(t, v, ts, vs, off);
    assert [] + tails == tails;
  }

  /** An encoding from its known parts. */
  lemma {:induction false} EncAllParts(ts: seq<Type>, vs: seq<Value>, off: nat, heads: bytes, tails: bytes)
    requires AllWellTyped(ts, vs) && HeadsSize(ts) == off
    requires Heads(ts, vs, off) == heads && Tails(ts, vs) == tails
    ensures EncAll(ts, vs) == heads + tails
  {
    hide Heads, Tails, HeadsSize, AllWellTyped;
  }

  lemma {:induction false} OneDynamic(a: Type, b: Type, c: Type, d: Type, e: Type, va: Value, vb: Value, vc: Value,
                                      vd: Value, ve: Value)
    requires WellTyped(a, va) && WellTyped(b, vb) && WellTyped(c, vc) && WellTyped(d, vd) && WellTyped(e, ve)
    requires !Dynamic(a) && !Dynamic(b) && !Dynamic(c) && Dynamic(d) && !Dynamic(e)
    ensures AllWellTyped([a, b, c, d, e], [va, vb, vc, vd, ve]) && AnyDynamic([a, b, c, d, e])
    ensures EncAll([a, b, c, d, e], [va, vb, vc, vd, ve])
      == Enc(a, va) + (Enc(b, vb) + (Enc(c, vc)
         + (Word(HeadsSize([a, b, c, d, e])) + Enc(e, ve)))) + Enc(d, vd)
    ensures HeadsSize([a, b, c, d, e]) == HeadSize(a) + (HeadSize(b) + (HeadSize(c) + (32 + HeadSize(e))))
  {
    hide Enc, WellTyped, Dynamic, Heads, Tails, HeadsSize, HeadSize;
    PartsOfFive(a, b, c, d, e, va, vb, vc, vd, ve, HeadsSize([a, b, c, d, e]));
  }

  lemma {:induction false} NoParts(d: Type, off: nat)
    ensures AllWellTyped([], []) && Heads([], [], off) == [] && Tails([], []) == [] && HeadsSize([]) == 0
    ensures Dynamic(d) ==> HeadSize(d) == 32
  {
  }

  lemma ListOfFive<T>(a: T, b: T, c: T, d: T, e: T)
    ensures [a, b, c, d, e] == [a] + ([b] + ([c] + ([d] + ([e] + []))))
  {
  }

  /** Two dynamic components: two offsets, then both encodings. */
  lemma {:induction false} TwoDynamic(t: Type, u: Type, v: Value, w: Value)
    requires WellTyped(t, v) && WellTyped(u, w) && Dynamic(t) && Dynamic(u)
    ensures AllWellTyped([t, u], [v, w])
    ensures EncAll([t, u], [v, w]) == Word(64) + (Word(64 + |Enc(t, v)|) + []) + (Enc(t, v) + (Enc(u, w) + []))
  {
    hide Enc, WellTyped, Dynamic, Heads, Tails, HeadsSize, HeadSize, AnyDynamic, AllWellTyped;
    NoParts(u, 64 + |Enc(t, v)| + |Enc(u, w)|);
    NoParts(t, 0);
    ConsTyped(u, w, [], [], 64 + |Enc(t, v)|);
    ConsTyped(t, v, [u] + [], [w] + [], 64);
    assert [t, u] == [t] + ([u] + []) && [v, w] == [v] + ([w] + []);
  }
}
