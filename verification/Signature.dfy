/** EOA signature parsing: the 65-byte form, the EIP-2098 64-byte form, and the low-s rule. */
module Signature {
  import opened Wrappers
  import opened Bytes

  const SECP256K1_HALF_ORDER: nat := 0x7fffffff_ffffffff_ffffffff_ffffffff_5d576e73_57a4501d_dfe92f46_681b20a0

  /** What `ecrecover` is called with, besides the digest. */
  datatype Args = Args(v: nat, r: uint256, s: uint256)

  /** The branches of `_recoverSigner`: the wrong length reverts (None), a bad `v` or a high `s` gives
      the zero address without a call (Some(None)), otherwise `ecrecover` is called. */
  function EcrecoverArgs(signature: bytes): (r: Option<Option<Args>>) {
    if |signature| == 65 then
      Some(Checked(signature[64] as nat, WordValue(signature[..32]), WordValue(signature[32..64])))
    else if |signature| == 64 then
      var vs := WordValue(signature[32..64]);
      Some(Checked(vs / TWO_255 + 27, WordValue(signature[..32]), vs % TWO_255))
    else None
  }

  function Checked(rawV: nat, r: uint256, s: uint256): (a: Option<Args>) {
    var v := if rawV < 27 then rawV + 27 else rawV;
    if v != 27 && v != 28 then None
    else if s > SECP256K1_HALF_ORDER then None
    else Some(Args(v, r, s))
  }

  /** The three accepted spellings of one signature (r, s, y). */
  datatype Form = Compact | Parity | Classic

  function Spell(f: Form, r: uint256, s: uint256, y: nat): (signature: bytes)
    requires s < TWO_255 && y < 2
  {
    match f
    case Compact => Word(r) + Word(y * TWO_255 + s)
    case Parity => Word(r) + Word(s) + [y as byte]
    case Classic => Word(r) + Word(s) + [(27 + y) as byte]
  }

  /** EIP-2098: all three spellings of a low-s signature reach `ecrecover` with the same arguments. */
  lemma SpellingsAgree(f: Form, r: uint256, s: uint256, y: nat)
    requires s <= SECP256K1_HALF_ORDER && y < 2
    ensures EcrecoverArgs(Spell(f, r, s, y)) == Some(Some(Args(27 + y, r, s)))
  {
    var signature := Spell(f, r, s, y);
    assert signature[..32] == Word(r);
    WordValueOf(r);
    if f.Compact? {
      assert signature[32..64] == Word(y * TWO_255 + s);
      WordValueOf(y * TWO_255 + s);
      assert (y * TWO_255 + s) / TWO_255 == y && (y * TWO_255 + s) % TWO_255 == s;
    } else {
      assert signature[32..64] == Word(s);
      WordValueOf(s);
    }
  }

  lemma WordOfValue(w: Bytes32)
    ensures Word(WordValue(w)) == w
  {
    BigEndianFrom(w);
  }

  /** Every signature that reaches `ecrecover` is one of the three spellings of the (r, s, y) it is called
      with, that (r, s, y) is low-s, and no other (r, s, y) has this spelling. */
  lemma AcceptedIsSpelling(signature: bytes) returns (f: Form)
    requires EcrecoverArgs(signature).Some? && EcrecoverArgs(signature).value.Some?
    ensures var Args(v, r, s) := EcrecoverArgs(signature).value.value;
      && v in {27, 28} && s <= SECP256K1_HALF_ORDER
      && signature == Spell(f, r, s, v - 27)
      && forall g, r': uint256, s': uint256, y: nat | s' <= SECP256K1_HALF_ORDER && y < 2
        && signature == Spell(g, r', s', y) ::
           r' == r && s' == s && y == v - 27
  {
    var Args(v, r, s) := EcrecoverArgs(signature).value.value;
    if |signature| == 64 {
      f := Compact;
      CompactIsSpelling(signature);
    } else {
      f := if signature[64] < 27 then Parity else Classic;
      LongIsSpelling(signature);
    }
    hide EcrecoverArgs, Spell;
    forall g, r': uint256, s': uint256, y: nat |
      s' <= SECP256K1_HALF_ORDER && y < 2 && signature == Spell(g, r', s', y)
      ensures r' == r && s' == s && y == v - 27
    {
      SpellingsAgree(g, r', s', y);
    }
  }

  lemma CompactIsSpelling(signature: bytes)
    requires |signature| == 64 && EcrecoverArgs(signature).value.Some?
    ensures var Args(v, r, s) := EcrecoverArgs(signature).value.value;
      v in {27, 28} && s <= SECP256K1_HALF_ORDER && signature == Spell(Compact, r, s, v - 27)
  {
    hide WordValue, Word;
    WordOfValue(signature[..32]);
    WordOfValue(signature[32..64]);
    var vs := WordValue(signature[32..64]);
    assert vs / TWO_255 * TWO_255 + vs % TWO_255 == vs;
    assert signature == signature[..32] + signature[32..64];
  }

  lemma LongIsSpelling(signature: bytes)
    requires |signature| == 65 && EcrecoverArgs(signature).value.Some?
    ensures var Args(v, r, s) := EcrecoverArgs(signature).value.value;
      && v in {27, 28} && s <= SECP256K1_HALF_ORDER
      && signature == Spell(if signature[64] < 27 then Parity else Classic, r, s, v - 27)
  {
    hide WordValue, Word;
    WordOfValue(signature[..32]);
    WordOfValue(signature[32..64]);
    assert signature == signature[..32] + signature[32..64] + [signature[64]];
  }
}
