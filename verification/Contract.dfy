/** The witness contract: what one submission and one batch do to the recorded keys and the event log. */
module Contract {
  import opened Wrappers
  import opened Bytes
  import opened Eip712
  import Abi
  import Signature

  const MAX_URI_BYTES: nat := 8192
  const EIP1271_MAGIC_VALUE: bytes := [0x16, 0x26, 0xba, 0x7e]

  /** The primitives the chain supplies; nothing is assumed about them. */
  datatype Crypto = Crypto(keccak: Keccak, ecrecover: (Bytes32, nat, uint256, uint256) -> Address)

  datatype CallResult = CallResult(ok: bool, data: bytes)

  /** What one transaction sees. A wallet's answer may depend on the keys recorded so far, which it can
      read back through a staticcall. */
  datatype Env = Env(
    sender: Address,
    timestamp: uint256,
    chainId: uint256,
    hasCode: Address -> bool,
    staticcall: (set<Bytes32>, Address, bytes) -> CallResult)

  /** The immutables. */
  datatype Deployment = Deployment(self: Address, cachedChainId: uint256, cachedDomainSeparator: Bytes32)

  datatype Entry = Entry(
    docChainId: Bytes32, attester: Address, docRef: uint64, onBehalfOf: Address, submitter: Address,
    parentHash: Bytes32, blockHash: Bytes32, contentHash: Bytes32, uriHash: Bytes32, uri: bytes)

  datatype State = State(recorded: set<Bytes32>, log: seq<Entry>)

  const GENESIS := State({}, [])

  datatype Error =
    | InvalidAttester
    | DeadlineExpired(deadline: nat, currentTime: nat)
    | UriTooLong(length: nat, maxLength: nat)
    | DuplicateAttestation(key: Bytes32)
    | InvalidSignature(attester: Address)
    | InvalidSignatureLength(length: nat)
    | EmptyBatch
    | BatchLengthMismatch(attestationsLength: nat, signaturesLength: nat)

  datatype Attested = Attested(stored: bool, blockHash: Bytes32, uriHash: Bytes32, key: Bytes32)
  datatype Counts = Counts(stored: nat, skipped: nat)
  datatype Item = Item(attestation: DocAttestation, signature: bytes)

  function Deploy(k: Keccak, self: Address, chainId: uint256): Deployment {
    Deployment(self, chainId, BuildDomainSeparator(k, chainId, self))
  }

  function DomainSeparator(k: Keccak, d: Deployment, chainId: uint256): Bytes32 {
    if chainId == d.cachedChainId then d.cachedDomainSeparator else BuildDomainSeparator(k, chainId, d.self)
  }

  /** The cache is never stale: on the deployment chain and on any fork the separator is the rebuilt one. */
  lemma CachedSeparatorIsRebuilt(k: Keccak, self: Address, deployedOn: uint256, chainId: uint256)
    ensures DomainSeparator(k, Deploy(k, self, deployedOn), chainId) == BuildDomainSeparator(k, chainId, self)
  {
  }

  /** `abi.encodeWithSelector(0x1626ba7e, digest, signature)` */
  function IsValidSignatureCall(digest: Bytes32, signature: bytes): bytes {
    EIP1271_MAGIC_VALUE + (digest + Word(64) + Word(|signature|) + Abi.PadRight(signature))
  }

  /** The wallet decodes exactly the digest and the signature it is asked about. */
  lemma WalletReadsDigestAndSignature(digest: Bytes32, signature: bytes)
    requires |signature| < TWO_256
    ensures Abi.DecAll([Abi.Word32, Abi.ByteString], IsValidSignatureCall(digest, signature)[4..], 0, 0)
      == Some([Abi.Raw(digest), Abi.Blob(signature)])
  {
    var tail := Word(|signature|) + Abi.PadRight(signature);
    var data := digest + Word(64) + tail;
    assert data == IsValidSignatureCall(digest, signature)[4..];
    assert data[0..32] == digest && data[32..64] == Word(64) && data[64..] == tail;
    Abi.DecBlob(signature, data, 64);
    Abi.ReadNumberAt(data, 32, 64);
    Abi.DecPair(Abi.Word32, Abi.ByteString, data, 64, Abi.Raw(digest), Abi.Blob(signature));
  }

  /** The arguments of `isValidSignature(bytes32,bytes)` in the ABI specification's encoding. */
  function WalletArguments(digest: Bytes32, signature: bytes): bytes
    requires |signature| < TWO_256
  {
    Abi.AllWellTypedIntro([Abi.Word32, Abi.ByteString], [Abi.Raw(digest), Abi.Blob(signature)]);
    Abi.EncAll([Abi.Word32, Abi.ByteString], [Abi.Raw(digest), Abi.Blob(signature)])
  }

  lemma WalletCallIsEncoding(digest: Bytes32, signature: bytes)
    requires |signature| < TWO_256
    ensures IsValidSignatureCall(digest, signature) == EIP1271_MAGIC_VALUE + WalletArguments(digest, signature)
  {
    var ts, vs := [Abi.Word32], [Abi.Raw(digest)];
    Abi.OneWord(digest);
    hide Abi.AllWellTyped, Abi.WellTyped, Abi.Words, Abi.Enc, Abi.EncAll, Abi.PadRight, Abi.Elementary, Word;
    Abi.WordsThenString(ts, vs, signature);
    assert ts + [Abi.ByteString] == [Abi.Word32, Abi.ByteString];
    assert vs + [Abi.Blob(signature)] == [Abi.Raw(digest), Abi.Blob(signature)];
    assert digest + Word(64) + (Word(|signature|) + Abi.PadRight(signature))
      == digest + Word(64) + Word(|signature|) + Abi.PadRight(signature);
  }

  function Recover(c: Crypto, digest: Bytes32, signature: bytes): Result<Address, Error> {
    match Signature.EcrecoverArgs(signature)
    case None => Err(InvalidSignatureLength(|signature|))
    case Some(None) => Ok(ZERO_ADDRESS)
    case Some(Some(args)) => Ok(c.ecrecover(digest, args.v, args.r, args.s))
  }

  function CheckSignature(c: Crypto, env: Env, recorded: set<Bytes32>, attester: Address, digest: Bytes32,
                          signature: bytes)
    : Outcome<Error>
  {
    if !env.hasCode(attester) then
      match Recover(c, digest, signature)
      case Err(e) => Fail(e)
      case Ok(signer) => if signer == attester then Pass else Fail(InvalidSignature(attester))
    else
      var result := env.staticcall(recorded, attester, IsValidSignatureCall(digest, signature));
      if !result.ok || |result.data| < 4 || result.data[..4] != EIP1271_MAGIC_VALUE
      then Fail(InvalidSignature(attester)) else Pass
  }

  function Emitted(k: Keccak, sender: Address, a: DocAttestation): Entry {
    Entry(a.docBlock.docChainId, a.attester, a.docBlock.docRef, a.onBehalfOf, sender, a.docBlock.parentHash,
          HashDocBlock(k, a.docBlock), a.docBlock.contentHash, k(a.uri), a.uri)
  }

  /** Everything a not yet recorded attestation has to pass. */
  function CheckFresh(c: Crypto, d: Deployment, env: Env, recorded: set<Bytes32>, item: Item): Outcome<Error> {
    var a := item.attestation;
    if env.timestamp > a.deadline then Fail(DeadlineExpired(a.deadline, env.timestamp))
    else if |a.uri| > MAX_URI_BYTES then Fail(UriTooLong(|a.uri|, MAX_URI_BYTES))
    else
      var separator := DomainSeparator(c.keccak, d, env.chainId);
      var digest := ToTypedDataHash(c.keccak, separator, HashAttestation(c.keccak, a));
      CheckSignature(c, env, recorded, a.attester, digest, item.signature)
  }

  /** What one transaction fixes for all of its items. */
  datatype Rules = Rules(
    key: Item -> Bytes32,
    check: (set<Bytes32>, Item) -> Outcome<Error>,
    entry: Item -> Entry)

  function KeyOf(k: Keccak): Item -> Bytes32 {
    (item: Item) => Key(k, item.attestation)
  }

  function RulesOf(c: Crypto, d: Deployment, env: Env): Rules {
    Rules(KeyOf(c.keccak),
          (recorded: set<Bytes32>, item: Item) => CheckFresh(c, d, env, recorded, item),
          (item: Item) => Emitted(c.keccak, env.sender, item.attestation))
  }

  /** `_attestOne`. */
  function AttestOne(rules: Rules, st: State, item: Item, skipDuplicates: bool): Result<(State, Attested), Error> {
    var key, e := rules.key(item), rules.entry(item);
    :- Need(item.attestation.attester != ZERO_ADDRESS, InvalidAttester);
    if key in st.recorded then
      if skipDuplicates then Ok((st, Attested(false, e.blockHash, e.uriHash, key))) else Err(DuplicateAttestation(key))
    else
      :- rules.check(st.recorded, item);
      Ok((State(st.recorded + {key}, st.log + [e]), Attested(true, e.blockHash, e.uriHash, key)))
  }

  /** The items of a batch, one after the other. */
  function AttestAll(rules: Rules, st: State, items: seq<Item>): Result<(State, Counts), Error> {
    if items == [] then Ok((st, Counts(0, 0)))
    else BatchThen(rules, AttestAll(rules, st, items[..|items| - 1]), items[|items| - 1])
  }

  function BatchThen(rules: Rules, before: Result<(State, Counts), Error>, item: Item): Result<(State, Counts), Error> {
    var (st, n) :- before;
    var (after, one) :- AttestOne(rules, st, item, true);
    Ok((after, if one.stored then n.(stored := n.stored + 1) else n.(skipped := n.skipped + 1)))
  }

  function Zip(attestations: seq<DocAttestation>, signatures: seq<bytes>): (items: seq<Item>)
    requires |attestations| == |signatures|
    ensures |items| == |attestations|
  {
    seq(|attestations|, i requires 0 <= i < |attestations| => Item(attestations[i], signatures[i]))
  }

  function AttestBatch(rules: Rules, st: State, attestations: seq<DocAttestation>, signatures: seq<bytes>)
    : Result<(State, Counts), Error>
  {
    if attestations == [] then Err(EmptyBatch)
    else if |attestations| != |signatures| then Err(BatchLengthMismatch(|attestations|, |signatures|))
    else AttestAll(rules, st, Zip(attestations, signatures))
  }

  /** A failing item anywhere fails the whole batch. */
  lemma {:induction false} AttestAllPrefix(rules: Rules, st: State, items: seq<Item>, n: nat)
    requires n <= |items| && AttestAll(rules, st, items[..n]).Err?
    ensures AttestAll(rules, st, items) == AttestAll(rules, st, items[..n])
    decreases |items|
  {
    if n < |items| {
      assert items[..|items| - 1][..n] == items[..n];
      AttestAllPrefix(rules, st, items[..|items| - 1], n);
    } else {
      assert items[..n] == items;
    }
  }

  /** The deployed contract. A revert puts back whatever the call had written. */
  class DocChain {
    const crypto: Crypto
    const self: Address
    const cachedChainId: uint256
    const cachedDomainSeparator: Bytes32
    var attested: set<Bytes32>
    var log: seq<Entry>

    constructor (crypto: Crypto, self: Address, chainId: uint256)
      ensures this.crypto == crypto && this.Immutables() == Deploy(crypto.keccak, self, chainId)
      ensures Storage() == GENESIS
    {
      this.crypto, this.self, cachedChainId := crypto, self, chainId;
      cachedDomainSeparator := BuildDomainSeparator(crypto.keccak, chainId, self);
      attested, log := {}, [];
    }

    function Immutables(): Deployment {
      Deployment(self, cachedChainId, cachedDomainSeparator)
    }

    function Storage(): State
      reads this
    {
      State(attested, log)
    }

    method RecoverSigner(digest: Bytes32, signature: bytes) returns (signer: Result<Address, Error>)
      ensures signer == Recover(crypto, digest, signature)
    {
      var r: uint256, s: uint256, v: nat := 0, 0, 0;
      if |signature| == 65 {
        r, s, v := WordValue(signature[..32]), WordValue(signature[32..64]), signature[64] as nat;
      } else if |signature| == 64 {
        var vs := WordValue(signature[32..64]);
        r, s, v := WordValue(signature[..32]), vs % TWO_255, vs / TWO_255 + 27;
      } else {
        return Err(InvalidSignatureLength(|signature|));
      }
      if v < 27 {
        v := v + 27;
      }
      if v != 27 && v != 28 {
        return Ok(ZERO_ADDRESS);
      }
      if s > Signature.SECP256K1_HALF_ORDER {
        return Ok(ZERO_ADDRESS);
      }
      signer := Ok(crypto.ecrecover(digest, v, r, s));
    }

    method RequireValidSignature(env: Env, attester: Address, digest: Bytes32,
                                 signature: bytes) returns (r: Outcome<Error>)
      ensures r == CheckSignature(crypto, env, attested, attester, digest, signature)
    {
      if !env.hasCode(attester) {
        var signer := RecoverSigner(digest, signature);
        if signer.Err? { return Fail(signer.error); }
        return if signer.value != attester then Fail(InvalidSignature(attester)) else Pass;
      }
      var result := env.staticcall(attested, attester, IsValidSignatureCall(digest, signature));
      if !result.ok || |result.data| < 4 { return Fail(InvalidSignature(attester)); }
      var magicValue := result.data[..4];
      r := if magicValue != EIP1271_MAGIC_VALUE then Fail(InvalidSignature(attester)) else Pass;
    }

    /** Writes only when it stores; every error return comes before the first write. */
    method AttestOneItem(env: Env, item: Item, skipDuplicates: bool) returns (r: Result<Attested, Error>)
      modifies this
      ensures match AttestOne(RulesOf(crypto, Immutables(), env), old(Storage()), item, skipDuplicates)
        case Err(e) => r == Err(e) && Storage() == old(Storage())
        case Ok((st, out)) => r == Ok(out) && Storage() == st
    {
      var a := item.attestation;
      if a.attester == ZERO_ADDRESS { return Err(InvalidAttester); }
      var blockHash := HashDocBlock(crypto.keccak, a.docBlock);
      var uriHash := crypto.keccak(a.uri);
      var key := AttestationKey(crypto.keccak, a.attester, a.onBehalfOf, a.docBlock, uriHash);
      if key in attested {
        return if skipDuplicates then Ok(Attested(false, blockHash, uriHash, key)) else Err(DuplicateAttestation(key));
      }
      if env.timestamp > a.deadline { return Err(DeadlineExpired(a.deadline, env.timestamp)); }
      if |a.uri| > MAX_URI_BYTES { return Err(UriTooLong(|a.uri|, MAX_URI_BYTES)); }
      var separator := DomainSeparator(crypto.keccak, Immutables(), env.chainId);
      var digest := ToTypedDataHash(crypto.keccak, separator, HashAttestation(crypto.keccak, a));
      var valid := RequireValidSignature(env, a.attester, digest, item.signature);
      if valid.Fail? { return Err(valid.error); }
      attested := attested + {key};
      log := log + [Emitted(crypto.keccak, env.sender, a)];
      r := Ok(Attested(true, blockHash, uriHash, key));
    }

    method AttestDoc(env: Env, attestation: DocAttestation, signature: bytes) returns (r: Result<Attested, Error>)
      modifies this
      ensures match AttestOne(RulesOf(crypto, Immutables(), env), old(Storage()), Item(attestation, signature), false)
        case Err(e) => r == Err(e) && Storage() == old(Storage())
        case Ok((st, out)) => r == Ok(out) && Storage() == st
    {
      r := AttestOneItem(env, Item(attestation, signature), false);
    }

    method AttestMany(env: Env, attestations: seq<DocAttestation>, signatures: seq<bytes>)
      returns (r: Result<Counts, Error>)
      modifies this
      ensures match AttestBatch(RulesOf(crypto, Immutables(), env), old(Storage()), attestations, signatures)
        case Err(e) => r == Err(e) && Storage() == old(Storage())
        case Ok((st, n)) => r == Ok(n) && Storage() == st
    {
      hide RulesOf, AttestOne;
      var count := |attestations|;
      if count == 0 { return Err(EmptyBatch); }
      if count != |signatures| { return Err(BatchLengthMismatch(count, |signatures|)); }
      ghost var items := Zip(attestations, signatures);
      var savedAttested, savedLog := attested, log;
      var storedCount, skippedCount := 0, 0;
      for i := 0 to count
        invariant AttestAll(RulesOf(crypto, Immutables(), env), old(Storage()), items[..i])
          == Ok((Storage(), Counts(storedCount, skippedCount)))
      {
        assert items[..i + 1][..i] == items[..i] && items[..i + 1][i] == items[i];
        var one := AttestOneItem(env, Item(attestations[i], signatures[i]), true);
        if one.Err? {
          AttestAllPrefix(RulesOf(crypto, Immutables(), env), old(Storage()), items, i + 1);
          attested, log := savedAttested, savedLog;
          return Err(one.error);
        }
        if one.value.stored { storedCount := storedCount + 1; } else { skippedCount := skippedCount + 1; }
      }
      assert items[..count] == items;
      r := Ok(Counts(storedCount, skippedCount));
    }
  }
}
