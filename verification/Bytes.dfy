/** Bytes, fixed-size words and big-endian numbers. */
module Bytes {
  newtype byte = x: int | 0 <= x < 256
  type bytes = seq<byte>
  type Bytes32 = s: bytes | |s| == 32 witness Zeros(32)
  type Address = s: bytes | |s| == 20 witness Zeros(20)
  type uint64 = x: nat | x < 0x1_0000_0000_0000_0000
  type uint256 = x: nat | x < TWO_256

  const TWO_255: nat := 0x8000_0000_0000_0000_0000_0000_0000_0000_0000_0000_0000_0000_0000_0000_0000_0000
  const TWO_256: nat := 0x1_0000_0000_0000_0000_0000_0000_0000_0000_0000_0000_0000_0000_0000_0000_0000_0000

  const ZERO_ADDRESS: Address := Zeros(20)
  const ZERO_WORD: Bytes32 := Zeros(32)

  function Zeros(n: nat): (r: bytes)
    ensures |r| == n && forall i | 0 <= i < n :: r[i] == 0
  {
    seq(n, _ => 0)
  }

  /** The bytes of an ASCII literal. */
  function Ascii(s: string): bytes {
    seq(|s|, i requires 0 <= i < |s| => (s[i] as int % 256) as byte)
  }

  function Pow256(n: nat): (r: nat)
    ensures r > 0
  {
    if n == 0 then 1 else 256 * Pow256(n - 1)
  }

  /** The last `n` base-256 digits of `v`, most significant first. */
  function BigEndian(n: nat, v: nat): (r: bytes)
    ensures |r| == n
  {
    if n == 0 then [] else BigEndian(n - 1, v / 256) + [(v % 256) as byte]
  }

  function FromBigEndian(b: bytes): (v: nat) {
    if b == [] then 0 else FromBigEndian(b[..|b| - 1]) * 256 + b[|b| - 1] as nat
  }

  lemma {:induction false} FromBigEndianBound(b: bytes)
    ensures FromBigEndian(b) < Pow256(|b|)
  {
    if b != [] { FromBigEndianBound(b[..|b| - 1]); }
  }

  lemma {:induction false} BigEndianFrom(b: bytes)
    ensures BigEndian(|b|, FromBigEndian(b)) == b
  {
    if b != [] {
      var init, last := b[..|b| - 1], b[|b| - 1];
      BigEndianFrom(init);
      assert FromBigEndian(b) / 256 == FromBigEndian(init) && FromBigEndian(b) % 256 == last as int;
      assert b == init + [last];
    }
  }

  lemma {:induction false} FromBigEndianFits(n: nat, v: nat)
    requires v < Pow256(n)
    ensures FromBigEndian(BigEndian(n, v)) == v
  {
    if n > 0 {
      FromBigEndianFits(n - 1, v / 256);
      assert BigEndian(n, v)[..n - 1] == BigEndian(n - 1, v / 256);
    }
  }

  lemma {:induction false} ZerosAreZero(n: nat)
    ensures FromBigEndian(Zeros(n)) == 0
  {
    if n > 0 {
      ZerosAreZero(n - 1);
      assert Zeros(n)[..n - 1] == Zeros(n - 1);
    }
  }

  lemma Pow256Constants()
    ensures Pow256(8) == 0x1_0000_0000_0000_0000
    ensures Pow256(32) == TWO_256
  {
    assert Pow256(4) == 0x1_0000_0000;
    assert Pow256(8) == 0x1_0000_0000_0000_0000;
    assert Pow256(12) == 0x1_0000_0000_0000_0000_0000_0000;
    assert Pow256(16) == 0x1_0000_0000_0000_0000_0000_0000_0000_0000;
    assert Pow256(20) == 0x1_0000_0000_0000_0000_0000_0000_0000_0000_0000_0000;
    assert Pow256(24) == 0x1_0000_0000_0000_0000_0000_0000_0000_0000_0000_0000_0000_0000;
    assert Pow256(28) == 0x1_0000_0000_0000_0000_0000_0000_0000_0000_0000_0000_0000_0000_0000_0000;
  }

  lemma {:induction false} Pow256Monotone(m: nat, n: nat)
    requires m <= n
    ensures Pow256(m) <= Pow256(n)
  {
    if m < n { Pow256Monotone(m, n - 1); }
  }

  /** `abi.encode` of an unsigned integer: one 32-byte word. */
  function Word(v: nat): (w: Bytes32) {
    BigEndian(32, v)
  }

  function WordValue(w: Bytes32): (v: uint256) {
    FromBigEndianBound(w);
    Pow256Constants();
    FromBigEndian(w)
  }

  lemma WordValueOf(v: uint256)
    ensures WordValue(Word(v)) == v
  {
    Pow256Constants();
    FromBigEndianFits(32, v);
  }

  lemma WordInjective(a: uint256, b: uint256)
    requires Word(a) == Word(b)
    ensures a == b
  {
    WordValueOf(a);
    WordValueOf(b);
  }

  /** `abi.encode` of an address: left-padded to one word. */
  function AddressWord(a: Address): (w: Bytes32) {
    Zeros(12) + a
  }

  lemma AddressWordInjective(a: Address, b: Address)
    requires AddressWord(a) == AddressWord(b)
    ensures a == b
  {
    assert a == AddressWord(a)[12..] && b == AddressWord(b)[12..];
  }

  /** The pieces, one after the other. */
  function Flat(words: seq<bytes>): (r: bytes) {
    if words == [] then [] else Flat(words[..|words| - 1]) + words[|words| - 1]
  }

  lemma FlatSnoc(words: seq<bytes>, w: bytes)
    ensures Flat(words + [w]) == Flat(words) + w
  {
    assert (words + [w])[..|words|] == words;
  }

  lemma {:induction false} FlatFive(a: bytes, b: bytes, c: bytes, d: bytes, e: bytes)
    ensures Flat([a, b, c, d, e]) == a + b + c + d + e
  {
    var none: seq<bytes> := [];
    assert Flat(none) + a == a;
    hide Flat;
    FlatSnoc(none, a);
    FlatSnoc([a], b);
    FlatSnoc([a, b], c);
    FlatSnoc([a, b, c], d);
    FlatSnoc([a, b, c, d], e);
    assert none + [a] == [a] && [a] + [b] == [a, b] && [a, b] + [c] == [a, b, c];
    assert [a, b, c] + [d] == [a, b, c, d] && [a, b, c, d] + [e] == [a, b, c, d, e];
  }

  lemma {:induction false} FlatFront(words: seq<bytes>)
    requires words != []
    ensures Flat(words) == words[0] + Flat(words[1..])
  {
    if |words| > 1 {
      var init, last := words[..|words| - 1], words[|words| - 1];
      FlatFront(init);
      assert words[1..] == init[1..] + [last] && words == init + [last];
      FlatSnoc(init[1..], last);
      FlatSnoc(init, last);
    } else {
      assert words[..0] == [] && words[1..] == [] && Flat(words[..0]) == [] && [] + words[0] == words[0] + [];
    }
  }

  /** `s` stands at position `pos` of `data`. */
  predicate At<T(==)>(data: seq<T>, pos: nat, s: seq<T>) {
    pos + |s| <= |data| && data[pos..pos + |s|] == s
  }

  lemma AtSplit<T>(data: seq<T>, pos: nat, a: seq<T>, b: seq<T>)
    ensures At(data, pos, a + b) <==> At(data, pos, a) && At(data, pos + |a|, b)
  {
    if pos + |a + b| <= |data| {
      var whole := data[pos..pos + |a + b|];
      assert whole == data[pos..pos + |a|] + data[pos + |a|..pos + |a| + |b|];
      assert whole[..|a|] == data[pos..pos + |a|] && whole[|a|..] == data[pos + |a|..pos + |a| + |b|];
      assert (a + b)[..|a|] == a && (a + b)[|a|..] == b;
    }
  }

  lemma SliceMiddle<T>(x: seq<T>, y: seq<T>, z: seq<T>)
    ensures (x + y + z)[|x|..|x| + |y|] == y
  {
  }

  lemma SplitThree<T>(s: seq<T>, i: nat, j: nat)
    requires i <= j <= |s|
    ensures s[..i] + s[i..j] + s[j..] == s
  {
    assert s[..i] + s[i..j] == s[..j];
  }
}
