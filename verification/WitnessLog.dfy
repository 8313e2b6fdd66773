/** Whole runs of the contract: batches against single submissions, resubmission, and what the event log
    proves. */
module WitnessLog {
  import opened Wrappers
  import opened Bytes
  import opened Eip712
  import opened Contract
  import Signature

  // ---- a batch is its fresh items, submitted one by one ----

  type KeyFn = Item -> Bytes32

  function Keys(key: KeyFn, items: seq<Item>): (s: set<Bytes32>) {
    set item | item in items :: key(item)
  }

  /** Item `i` is the first in its batch with its key, and the key is not recorded yet. */
  predicate FreshAt(key: KeyFn, recorded: set<Bytes32>, items: seq<Item>, i: nat)
    requires i < |items|
  {
    key(items[i]) !in recorded && forall j | 0 <= j < i :: key(items[j]) != key(items[i])
  }

  /** The fresh items, in order. */
  function Fresh(key: KeyFn, recorded: set<Bytes32>, items: seq<Item>): (r: seq<Item>) {
    if items == [] then []
    else
      var n := |items| - 1;
      Fresh(key, recorded, items[..n]) + if FreshAt(key, recorded, items, n) then [items[n]] else []
  }

  /** `attestDoc` on each item in order, stopping at the first revert. */
  function AttestEach(rules: Rules, st: State, items: seq<Item>): Result<State, Error> {
    if items == [] then Ok(st)
    else DocThen(rules, AttestEach(rules, st, items[..|items| - 1]), items[|items| - 1])
  }

  function DocThen(rules: Rules, before: Result<State, Error>, item: Item): Result<State, Error> {
    var st :- before;
    var (after, _) :- AttestOne(rules, st, item, false);
    Ok(after)
  }

  predicate NoZeroAttester(items: seq<Item>) {
    forall i | 0 <= i < |items| :: items[i].attestation.attester != ZERO_ADDRESS
  }

  lemma KeysSnoc(key: KeyFn, items: seq<Item>)
    requires items != []
    ensures Keys(key, items) == Keys(key, items[..|items| - 1]) + {key(items[|items| - 1])}
  {
    assert items == items[..|items| - 1] + [items[|items| - 1]];
  }

  lemma FreshAtLast(key: KeyFn, recorded: set<Bytes32>, items: seq<Item>)
    requires items != []
    ensures FreshAt(key, recorded, items, |items| - 1)
      <==> key(items[|items| - 1]) !in recorded + Keys(key, items[..|items| - 1])
  {
    var init := items[..|items| - 1];
    if FreshAt(key, recorded, items, |items| - 1) {
      forall item | item in init ensures key(item) != key(items[|items| - 1]) {
        var j :| 0 <= j < |init| && init[j] == item;
        assert items[j] == item;
      }
    } else if key(items[|items| - 1]) !in recorded {
      var j :| 0 <= j < |items| - 1 && key(items[j]) == key(items[|items| - 1]);
      assert init[j] in init;
    }
  }

  type BatchResult = Result<(State, Counts), Error>

  /** What a batch result has to do with the result of submitting the batch's fresh items one by one:
      `keys` are the batch's keys, `count` its length, `clean` says that no attester is zero. */
  ghost predicate Refines(recorded: set<Bytes32>, keys: set<Bytes32>, count: nat, clean: bool,
                          batch: BatchResult, docs: Result<State, Error>)
  {
    && (batch.Ok? <==> docs.Ok? && clean)
    && (batch.Ok? ==>
          && batch.value.0 == docs.value
          && batch.value.1.stored == |keys - recorded|
          && batch.value.1.stored + batch.value.1.skipped == count)
    && (docs.Ok? ==> docs.value.recorded == recorded + keys)
  }

  lemma CountNew(keys: set<Bytes32>, recorded: set<Bytes32>, x: Bytes32)
    ensures |(keys + {x}) - recorded| == |keys - recorded| + (if x in recorded + keys then 0 else 1)
  {
    if x in recorded + keys {
      assert (keys + {x}) - recorded == keys - recorded;
    } else {
      assert (keys + {x}) - recorded == (keys - recorded) + {x};
    }
  }

  lemma RefinesThen(rules: Rules, recorded: set<Bytes32>, keys: set<Bytes32>, count: nat, clean: bool,
                    batch: BatchResult, docs: Result<State, Error>, item: Item)
    requires Refines(recorded, keys, count, clean, batch, docs)
    ensures var x := rules.key(item);
      Refines(recorded, keys + {x}, count + 1, clean && item.attestation.attester != ZERO_ADDRESS,
              BatchThen(rules, batch, item), if x in recorded + keys then docs else DocThen(rules, docs, item))
  {
    CountNew(keys, recorded, rules.key(item));
  }

  lemma FreshSnoc(rules: Rules, st: State, items: seq<Item>)
    requires items != []
    ensures var n := |items| - 1;
      var docs := AttestEach(rules, st, Fresh(rules.key, st.recorded, items[..n]));
      AttestEach(rules, st, Fresh(rules.key, st.recorded, items))
      == if rules.key(items[n]) in st.recorded + Keys(rules.key, items[..n]) then docs
        else DocThen(rules, docs, items[n])
  {
    var first, last := Fresh(rules.key, st.recorded, items[..|items| - 1]), items[|items| - 1];
    FreshAtLast(rules.key, st.recorded, items);
    if FreshAt(rules.key, st.recorded, items, |items| - 1) {
      assert (first + [last])[..|first|] == first;
    } else {
      assert first + [] == first;
    }
  }

  lemma NoZeroSnoc(items: seq<Item>)
    requires items != []
    ensures NoZeroAttester(items) <==>
      NoZeroAttester(items[..|items| - 1]) && items[|items| - 1].attestation.attester != ZERO_ADDRESS
  {
    if NoZeroAttester(items[..|items| - 1]) {
      forall i | 0 <= i < |items| - 1 ensures items[i].attestation.attester != ZERO_ADDRESS {
        assert items[..|items| - 1][i] == items[i];
      }
    }
  }

  /** A batch goes through exactly when no attester is zero and its fresh items go through one by one;
      then both leave the same recorded keys and the same log, and the counts are the numbers of
      new keys and of everything else. */
  lemma {:induction false} BatchRefinesDocs(rules: Rules, st: State, items: seq<Item>)
    ensures Refines(st.recorded, Keys(rules.key, items), |items|, NoZeroAttester(items),
                    AttestAll(rules, st, items), AttestEach(rules, st, Fresh(rules.key, st.recorded, items)))
  {
    if items == [] {
      assert Keys(rules.key, items) - st.recorded == {};
    } else {
      var n := |items| - 1;
      var init := items[..n];
      BatchRefinesDocs(rules, st, init);
      RefinesThen(rules, st.recorded, Keys(rules.key, init), n, NoZeroAttester(init), AttestAll(rules, st, init),
                  AttestEach(rules, st, Fresh(rules.key, st.recorded, init)), items[n]);
      KeysSnoc(rules.key, items);
      NoZeroSnoc(items);
      FreshSnoc(rules, st, items);
    }
  }

  /** The fresh items are as many as the new keys, so this is what `storedCount` counts. */
  lemma {:induction false} FreshCount(key: KeyFn, recorded: set<Bytes32>, items: seq<Item>)
    ensures |Fresh(key, recorded, items)| == |Keys(key, items) - recorded|
  {
    if items == [] {
      assert Keys(key, items) - recorded == {};
    } else {
      FreshCount(key, recorded, items[..|items| - 1]);
      KeysSnoc(key, items);
      FreshAtLast(key, recorded, items);
      CountNew(Keys(key, items[..|items| - 1]), recorded, key(items[|items| - 1]));
    }
  }

  /** Exactly which batches are accepted: every attester is non-zero and every fresh item passes the
      checks against the keys recorded by the time it is reached. Nothing is asked of the other items. */
  ghost predicate Acceptable(rules: Rules, recorded: set<Bytes32>, items: seq<Item>) {
    && NoZeroAttester(items)
    && forall i | 0 <= i < |items| && FreshAt(rules.key, recorded, items, i) ::
         rules.check(recorded + Keys(rules.key, items[..i]), items[i]).Pass?
  }

  lemma AcceptableSnoc(rules: Rules, recorded: set<Bytes32>, items: seq<Item>)
    requires items != []
    ensures var n := |items| - 1;
      Acceptable(rules, recorded, items) <==>
        && Acceptable(rules, recorded, items[..n])
        && items[n].attestation.attester != ZERO_ADDRESS
        && (FreshAt(rules.key, recorded, items, n) ==>
              rules.check(recorded + Keys(rules.key, items[..n]), items[n]).Pass?)
  {
    var n := |items| - 1;
    forall i | 0 <= i < n
      ensures items[..n][..i] == items[..i] && items[..n][i] == items[i]
      ensures FreshAt(rules.key, recorded, items[..n], i) <==> FreshAt(rules.key, recorded, items, i)
    {
    }
  }

  lemma {:induction false} BatchAccepts(rules: Rules, st: State, items: seq<Item>)
    ensures AttestAll(rules, st, items).Ok? <==> Acceptable(rules, st.recorded, items)
  {
    if items != [] {
      var n := |items| - 1;
      BatchAccepts(rules, st, items[..n]);
      BatchRefinesDocs(rules, st, items[..n]);
      FreshAtLast(rules.key, st.recorded, items);
      AcceptableSnoc(rules, st.recorded, items);
    }
  }

  /** All of `attestBatch`: when it succeeds, which keys and log it leaves, and its two counts. */
  lemma {:induction false} AttestBatchAccepts(rules: Rules, st: State, attestations: seq<DocAttestation>,
                                              signatures: seq<bytes>)
    ensures var r := AttestBatch(rules, st, attestations, signatures);
      && (r.Ok? <==>
            attestations != [] && |attestations| == |signatures|
            && Acceptable(rules, st.recorded, Zip(attestations, signatures)))
      && (r.Ok? ==>
            |attestations| == |signatures|
            && var items := Zip(attestations, signatures);
            var newKeys := Keys(rules.key, items) - st.recorded;
            && AttestEach(rules, st, Fresh(rules.key, st.recorded, items)) == Ok(r.value.0)
            && r.value.0.recorded == st.recorded + newKeys
            && r.value.1.stored == |newKeys|
            && r.value.1.stored + r.value.1.skipped == |attestations|)
  {
    hide AttestAll, AttestEach, Acceptable, Fresh, Keys, NoZeroAttester;
    if attestations != [] && |attestations| == |signatures| {
      var items := Zip(attestations, signatures);
      BatchAccepts(rules, st, items);
      BatchRefinesDocs(rules, st, items);
      assert st.recorded + Keys(rules.key, items) == st.recorded + (Keys(rules.key, items) - st.recorded);
    }
  }

  // ---- runs ----

  /** A transaction carries its own environment: time, chain id, code and wallets may all have changed. */
  datatype Tx =
    | DocTx(env: Env, item: Item)
    | BatchTx(env: Env, attestations: seq<DocAttestation>, signatures: seq<bytes>)

  function TxItems(tx: Tx): seq<Item> {
    match tx
    case DocTx(_, item) => [item]
    case BatchTx(_, attestations, signatures) =>
      if |attestations| == |signatures| then Zip(attestations, signatures) else []
  }

  function Step(c: Crypto, d: Deployment, st: State, tx: Tx): State {
    match tx
    case DocTx(env, item) =>
      var r := AttestOne(RulesOf(c, d, env), st, item, false);
      if r.Ok? then r.value.0 else st
    case BatchTx(env, attestations, signatures) =>
      var r := AttestBatch(RulesOf(c, d, env), st, attestations, signatures);
      if r.Ok? then r.value.0 else st
  }

  function Run(c: Crypto, d: Deployment, st: State, txs: seq<Tx>): State {
    if txs == [] then st else Step(c, d, Run(c, d, st, txs[..|txs| - 1]), txs[|txs| - 1])
  }

  lemma {:induction false} AttestAllGrows(rules: Rules, st: State, items: seq<Item>)
    requires AttestAll(rules, st, items).Ok?
    ensures st.recorded <= AttestAll(rules, st, items).value.0.recorded
    ensures st.log <= AttestAll(rules, st, items).value.0.log
  {
    if items != [] { AttestAllGrows(rules, st, items[..|items| - 1]); }
  }

  lemma StepGrows(c: Crypto, d: Deployment, st: State, tx: Tx)
    ensures st.recorded <= Step(c, d, st, tx).recorded && st.log <= Step(c, d, st, tx).log
  {
    var rules := RulesOf(c, d, tx.env);
    if tx.BatchTx? && AttestBatch(rules, st, tx.attestations, tx.signatures).Ok? {
      AttestAllGrows(rules, st, Zip(tx.attestations, tx.signatures));
    }
  }

  /** No transaction forgets a key or rewrites the log. */
  lemma {:induction false} RunGrows(c: Crypto, d: Deployment, st: State, txs: seq<Tx>)
    ensures st.recorded <= Run(c, d, st, txs).recorded && st.log <= Run(c, d, st, txs).log
  {
    if txs != [] {
      RunGrows(c, d, st, txs[..|txs| - 1]);
      StepGrows(c, d, Run(c, d, st, txs[..|txs| - 1]), txs[|txs| - 1]);
    }
  }

  lemma {:induction false} AllSkipped(rules: Rules, st: State, items: seq<Item>)
    requires NoZeroAttester(items) && Keys(rules.key, items) <= st.recorded
    ensures AttestAll(rules, st, items) == Ok((st, Counts(0, |items|)))
  {
    if items != [] {
      KeysSnoc(rules.key, items);
      AllSkipped(rules, st, items[..|items| - 1]);
    }
  }

  /** Signatures enter neither the keys nor the attesters. */
  lemma SignaturesDoNotMatter(k: Keccak, attestations: seq<DocAttestation>, s: seq<bytes>, t: seq<bytes>)
    requires |s| == |t| == |attestations|
    ensures Keys(KeyOf(k), Zip(attestations, s)) <= Keys(KeyOf(k), Zip(attestations, t))
    ensures NoZeroAttester(Zip(attestations, s)) ==> NoZeroAttester(Zip(attestations, t))
  {
    var x, y := Zip(attestations, s), Zip(attestations, t);
    forall key | key in Keys(KeyOf(k), x) ensures key in Keys(KeyOf(k), y) {
      var i :| 0 <= i < |x| && KeyOf(k)(x[i]) == key;
      assert KeyOf(k)(y[i]) == key && y[i] in y;
    }
    forall i | 0 <= i < |y| ensures y[i].attestation == x[i].attestation {
    }
  }

  /** Once a batch has landed, sending it again, whatever happened in between and whatever signatures come
      with it, succeeds, stores nothing and skips everything. */
  lemma ResubmissionIsIdempotent(c: Crypto, d: Deployment, env: Env, st: State, attestations: seq<DocAttestation>,
                                 signatures: seq<bytes>, between: seq<Tx>, later: Env, again: seq<bytes>)
    requires AttestBatch(RulesOf(c, d, env), st, attestations, signatures).Ok? && |again| == |attestations|
    ensures var landed := Run(c, d, AttestBatch(RulesOf(c, d, env), st, attestations, signatures).value.0, between);
      AttestBatch(RulesOf(c, d, later), landed, attestations, again) == Ok((landed, Counts(0, |attestations|)))
  {
    var after := AttestBatch(RulesOf(c, d, env), st, attestations, signatures).value.0;
    BatchRefinesDocs(RulesOf(c, d, env), st, Zip(attestations, signatures));
    RunGrows(c, d, after, between);
    SignaturesDoNotMatter(c.keccak, attestations, again, signatures);
    SignaturesDoNotMatter(c.keccak, attestations, signatures, again);
    AllSkipped(RulesOf(c, d, later), Run(c, d, after, between), Zip(attestations, again));
  }

  /** When part of a batch has landed, and whatever claims of others with it, sending all of it succeeds exactly
      when each fresh item is still valid when reached. It then adds exactly the keys that the whole batch in one
      go would have recorded and that are still missing; if only parts of the batch had landed, it reaches the
      very same keys. */
  lemma {:induction false} PartialResubmissionCatchesUp(
      c: Crypto, d: Deployment, env: Env, st: State, attestations: seq<DocAttestation>, signatures: seq<bytes>,
      partial: State, later: Env, again: seq<bytes>)
    requires AttestBatch(RulesOf(c, d, env), st, attestations, signatures).Ok? && |again| == |attestations|
    requires st.recorded <= partial.recorded
    ensures var oneShot := AttestBatch(RulesOf(c, d, env), st, attestations, signatures).value.0;
      var rules, retry := RulesOf(c, d, later), Zip(attestations, again);
      var r := AttestBatch(rules, partial, attestations, again);
      && (r.Ok? <==> forall i | 0 <= i < |retry| && FreshAt(rules.key, partial.recorded, retry, i) ::
            rules.check(partial.recorded + Keys(rules.key, retry[..i]), retry[i]).Pass?)
      && (r.Ok? ==>
            && r.value.0.recorded == partial.recorded + oneShot.recorded
            && r.value.1.stored == |oneShot.recorded - partial.recorded|
            && (partial.recorded <= oneShot.recorded ==> r.value.0.recorded == oneShot.recorded))
  {
    hide RulesOf, Fresh, Keys, AttestAll, AttestEach, Zip, FreshAt, NoZeroAttester;
    RulesKey(c, d, env);
    RulesKey(c, d, later);
    BatchRefinesDocs(RulesOf(c, d, env), st, Zip(attestations, signatures));
    BatchRefinesDocs(RulesOf(c, d, later), partial, Zip(attestations, again));
    BatchAccepts(RulesOf(c, d, later), partial, Zip(attestations, again));
    SignaturesDoNotMatter(c.keccak, attestations, again, signatures);
    SignaturesDoNotMatter(c.keccak, attestations, signatures, again);
    AddMissing(st.recorded, Keys(KeyOf(c.keccak), Zip(attestations, again)), partial.recorded);
  }

  lemma RulesKey(c: Crypto, d: Deployment, env: Env)
    ensures RulesOf(c, d, env).key == KeyOf(c.keccak)
  {
  }

  lemma AddMissing(before: set<Bytes32>, keys: set<Bytes32>, partial: set<Bytes32>)
    requires before <= partial
    ensures (before + keys) - partial == keys - partial && partial + (before + keys) == partial + keys
    ensures partial <= before + keys ==> partial + keys == before + keys
  {
  }

  // ---- single submissions ----

  /** Exactly when `attestDoc` succeeds on a deployed contract, and everything it then returns and changes. The
      signature is checked against the digest that the typed-data standard gives for the current chain. */
  lemma AttestDocAccepts(c: Crypto, self: Address, deployedOn: uint256, env: Env, st: State, item: Item)
    ensures var a, k := item.attestation, c.keccak;
      var r := AttestOne(RulesOf(c, Deploy(k, self, deployedOn), env), st, item, false);
      && (r.Ok? <==>
            && a.attester != ZERO_ADDRESS
            && Key(k, a) !in st.recorded
            && env.timestamp <= a.deadline
            && |a.uri| <= MAX_URI_BYTES
            && CheckSignature(c, env, st.recorded, a.attester, StandardDigest(k, env.chainId, self, a),
                              item.signature).Pass?)
      && (r.Ok? ==>
            && r.value.1 == Attested(true, HashDocBlock(k, a.docBlock), k(a.uri), Key(k, a))
            && r.value.0.recorded == st.recorded + {Key(k, a)}
            && r.value.0.log == st.log + [Emitted(k, env.sender, a)])
  {
    CachedSeparatorIsRebuilt(c.keccak, self, deployedOn, env.chainId);
    DigestIsStandard(c.keccak, env.chainId, self, item.attestation);
    hide Key, HashAttestation, HashDocBlock, BuildDomainSeparator, CheckSignature, DomainSeparator, ToTypedDataHash;
    hide StandardDigest;
  }

  /** Exactly which error a refused item gets, alone or in a batch, with which arguments, and in which order the checks
      come: a zero attester before anything else, a recorded claim before the deadline (an error alone, skipped in a
      batch), the deadline before the length of the URI, that length before the signature. For an account the length
      of the signature comes before what it recovers to; a wallet's refusal is always an invalid signature. */
  lemma RefusedWith(c: Crypto, self: Address, deployedOn: uint256, env: Env, st: State, item: Item, inBatch: bool)
    ensures var a, k, n := item.attestation, c.keccak, |item.signature|;
      var r := AttestOne(RulesOf(c, Deploy(k, self, deployedOn), env), st, item, inBatch);
      var late, long := env.timestamp > a.deadline, |a.uri| > 8192;
      && (r == Err(InvalidAttester) <==> a.attester == ZERO_ADDRESS)
      && (a.attester != ZERO_ADDRESS && Key(k, a) in st.recorded ==>
            r == if inBatch then Ok((st, Attested(false, HashDocBlock(k, a.docBlock), k(a.uri), Key(k, a))))
                 else Err(DuplicateAttestation(Key(k, a))))
      && (a.attester != ZERO_ADDRESS && Key(k, a) !in st.recorded ==>
            && !(r.Err? && r.error.DuplicateAttestation?)
            && (late <==> r == Err(DeadlineExpired(a.deadline, env.timestamp)))
            && (!late && long <==> r == Err(UriTooLong(|a.uri|, 8192)))
            && (!late && !long && r.Err? ==>
                  r.error == if !env.hasCode(a.attester) && n != 64 && n != 65 then InvalidSignatureLength(n)
                             else InvalidSignature(a.attester)))
  {
    hide Key, HashAttestation, HashDocBlock, DomainSeparator, ToTypedDataHash, IsValidSignatureCall;
    SignatureLengths(item.signature);
    hide Signature.EcrecoverArgs;
  }

  lemma SignatureLengths(signature: bytes)
    ensures Signature.EcrecoverArgs(signature).None? <==> |signature| != 64 && |signature| != 65
  {
  }

  /** Why a batch fails: it is empty, or its lengths differ, or some item, the first to do so, is refused in the state
      that the items before it leave; and the error is that item's. */
  lemma {:induction false} AttestBatchRejects(rules: Rules, st: State, attestations: seq<DocAttestation>,
                                              signatures: seq<bytes>)
    ensures var r := AttestBatch(rules, st, attestations, signatures);
      r.Err? ==>
        || (attestations == [] && r.error == EmptyBatch)
        || (attestations != [] && |attestations| != |signatures|
            && r.error == BatchLengthMismatch(|attestations|, |signatures|))
        || (|attestations| == |signatures|
            && exists i | 0 <= i < |attestations| ::
                 FailsAt(rules, st, Zip(attestations, signatures), i, r.error))
  {
    hide AttestOne;
    var r := AttestBatch(rules, st, attestations, signatures);
    if attestations != [] && |attestations| == |signatures| && r.Err? {
      var i := FirstFailure(rules, st, Zip(attestations, signatures));
    }
  }

  /** The items before item `i` go through, and item `i` is then refused with `error`. */
  predicate FailsAt(rules: Rules, st: State, items: seq<Item>, i: nat, error: Error)
    requires i < |items|
  {
    && AttestAll(rules, st, items[..i]).Ok?
    && AttestOne(rules, AttestAll(rules, st, items[..i]).value.0, items[i], true) == Err(error)
  }

  lemma {:induction false} FirstFailure(rules: Rules, st: State, items: seq<Item>) returns (i: nat)
    requires AttestAll(rules, st, items).Err?
    ensures i < |items| && FailsAt(rules, st, items, i, AttestAll(rules, st, items).error)
  {
    hide AttestOne;
    var n := |items| - 1;
    if AttestAll(rules, st, items[..n]).Ok? { return n; }
    i := FirstFailure(rules, st, items[..n]);
    assert items[..n][..i] == items[..i] && items[..n][i] == items[i];
  }

  /** For an account without code the signature check passes exactly when the signature is one of the three
      spellings of a low-s (r, s, y) from which `ecrecover` gets the attester. */
  lemma AccountSignature(c: Crypto, env: Env, recorded: set<Bytes32>, attester: Address, digest: Bytes32,
                         signature: bytes)
    requires !env.hasCode(attester) && attester != ZERO_ADDRESS
    ensures CheckSignature(c, env, recorded, attester, digest, signature).Pass? <==>
      exists f, r: uint256, s: uint256, y: nat | s <= Signature.SECP256K1_HALF_ORDER && y < 2 ::
        signature == Signature.Spell(f, r, s, y) && c.ecrecover(digest, 27 + y, r, s) == attester
  {
    if CheckSignature(c, env, recorded, attester, digest, signature).Pass? {
      var args := Signature.EcrecoverArgs(signature).value.value;
      var f := Signature.AcceptedIsSpelling(signature);
      assert signature == Signature.Spell(f, args.r, args.s, args.v - 27);
      assert c.ecrecover(digest, 27 + (args.v - 27), args.r, args.s) == attester;
    }
    if f, r: uint256, s: uint256, y: nat :|
      (s <= Signature.SECP256K1_HALF_ORDER && y < 2
       && signature == Signature.Spell(f, r, s, y) && c.ecrecover(digest, 27 + y, r, s) == attester)
    {
      Signature.SpellingsAgree(f, r, s, y);
    }
  }

  /** For a wallet the check passes exactly when the wallet, asked with the encoding of this digest and this
      signature, succeeds and answers with data that starts with the magic value; it reads the keys recorded so
      far. Anything else is an invalid signature of that attester. */
  lemma WalletSignature(c: Crypto, env: Env, recorded: set<Bytes32>, attester: Address, digest: Bytes32,
                        signature: bytes)
    requires env.hasCode(attester) && |signature| < TWO_256
    ensures var r := CheckSignature(c, env, recorded, attester, digest, signature);
      var call := EIP1271_MAGIC_VALUE + WalletArguments(digest, signature);
      && (r.Pass? <==>
            exists rest :: env.staticcall(recorded, attester, call) == CallResult(true, EIP1271_MAGIC_VALUE + rest))
      && (r.Pass? || r == Fail(InvalidSignature(attester)))
  {
    WalletCallIsEncoding(digest, signature);
    hide WalletArguments, IsValidSignatureCall;
    var call := EIP1271_MAGIC_VALUE + WalletArguments(digest, signature);
    var answer := env.staticcall(recorded, attester, call);
    if CheckSignature(c, env, recorded, attester, digest, signature).Pass? {
      assert answer == CallResult(true, EIP1271_MAGIC_VALUE + answer.data[4..]);
    }
  }

  // ---- the event log ----

  function EntryBlock(e: Entry): DocBlock {
    DocBlock(e.docChainId, e.docRef, e.parentHash, e.contentHash)
  }

  /** The duplicate-prevention key, recomputed from the emitted fields alone. */
  function EntryKey(k: Keccak, e: Entry): Bytes32 {
    AttestationKey(k, e.attester, e.onBehalfOf, EntryBlock(e), e.uriHash)
  }

  function LogKeys(k: Keccak, log: seq<Entry>): set<Bytes32> {
    set e | e in log :: EntryKey(k, e)
  }

  /** `tx` submitted `item`, which was unexpired, within the URI cap and validly signed for that chain's
      digest against the keys recorded at that point, and entry `i` reports it field by field. */
  ghost predicate Witnessed(c: Crypto, d: Deployment, tx: Tx, item: Item, log: seq<Entry>, i: nat)
    requires i < |log|
  {
    var a, e, k := item.attestation, log[i], c.keccak;
    && item in TxItems(tx)
    && e.attester == a.attester && e.onBehalfOf == a.onBehalfOf && EntryBlock(e) == a.docBlock && e.uri == a.uri
    && e.submitter == tx.env.sender && e.blockHash == HashDocBlock(k, a.docBlock) && e.uriHash == k(a.uri)
    && a.attester != ZERO_ADDRESS
    && |a.uri| <= MAX_URI_BYTES
    && tx.env.timestamp <= a.deadline
    && CheckSignature(c, tx.env, LogKeys(k, log[..i]), a.attester, Digest(k, tx.env.chainId, d.self, a),
                      item.signature).Pass?
  }

  ghost predicate WitnessedBy(c: Crypto, d: Deployment, tx: Tx, log: seq<Entry>, i: nat)
    requires i < |log|
  {
    exists item :: Witnessed(c, d, tx, item, log, i)
  }

  /** The entries from position `from` on are all witnessed by `tx`. */
  ghost predicate NewWitnessed(c: Crypto, d: Deployment, tx: Tx, from: nat, log: seq<Entry>) {
    from <= |log| && forall i | from <= i < |log| :: WitnessedBy(c, d, tx, log, i)
  }

  /** Transaction `n` of the run is the one that appended log entry `i`. */
  predicate AppendedAt(c: Crypto, d: Deployment, txs: seq<Tx>, n: nat, i: nat) {
    n < |txs| && |Run(c, d, GENESIS, txs[..n]).log| <= i < |Run(c, d, GENESIS, txs[..n + 1]).log|
  }

  /** The transaction that appended entry `i` witnessed it. */
  ghost predicate WitnessedWhenAppended(c: Crypto, d: Deployment, txs: seq<Tx>, log: seq<Entry>, i: nat)
    requires i < |log|
  {
    exists n | 0 <= n < |txs| :: AppendedAt(c, d, txs, n, i) && WitnessedBy(c, d, txs[n], log, i)
  }

  ghost predicate SoundLog(c: Crypto, st: State) {
    && st.recorded == LogKeys(c.keccak, st.log)
    && forall i, j | 0 <= i < j < |st.log| :: EntryKey(c.keccak, st.log[i]) != EntryKey(c.keccak, st.log[j])
  }

  ghost predicate CacheFresh(c: Crypto, d: Deployment) {
    forall chainId :: DomainSeparator(c.keccak, d, chainId) == BuildDomainSeparator(c.keccak, chainId, d.self)
  }

  lemma LogKeysSnoc(k: Keccak, log: seq<Entry>, e: Entry)
    ensures LogKeys(k, log + [e]) == LogKeys(k, log) + {EntryKey(k, e)}
  {
  }

  /** Later entries do not disturb the witness of an earlier one. */
  lemma WitnessStays(c: Crypto, d: Deployment, tx: Tx, log: seq<Entry>, longer: seq<Entry>, i: nat)
    requires i < |log| && log <= longer && WitnessedBy(c, d, tx, log, i)
    ensures WitnessedBy(c, d, tx, longer, i)
  {
    var item :| Witnessed(c, d, tx, item, log, i);
    assert longer[..i] == log[..i];
    assert Witnessed(c, d, tx, item, longer, i);
  }

  lemma StoredIsWitnessed(c: Crypto, d: Deployment, tx: Tx, recorded: set<Bytes32>, log: seq<Entry>, item: Item)
    requires item in TxItems(tx) && CacheFresh(c, d) && recorded == LogKeys(c.keccak, log)
    requires item.attestation.attester != ZERO_ADDRESS && CheckFresh(c, d, tx.env, recorded, item).Pass?
    ensures Witnessed(c, d, tx, item, log + [Emitted(c.keccak, tx.env.sender, item.attestation)], |log|)
  {
    assert (log + [Emitted(c.keccak, tx.env.sender, item.attestation)])[..|log|] == log;
  }

  lemma {:induction false} SoundLogGrows(c: Crypto, st: State, e: Entry)
    requires SoundLog(c, st) && EntryKey(c.keccak, e) !in st.recorded
    ensures SoundLog(c, State(st.recorded + {EntryKey(c.keccak, e)}, st.log + [e]))
  {
    LogKeysSnoc(c.keccak, st.log, e);
    hide EntryKey;
    forall i | 0 <= i < |st.log| ensures EntryKey(c.keccak, st.log[i]) != EntryKey(c.keccak, e) {
      assert st.log[i] in st.log && EntryKey(c.keccak, st.log[i]) in st.recorded;
    }
  }

  lemma {:induction false} NewWitnessedGrows(c: Crypto, d: Deployment, tx: Tx, from: nat, log: seq<Entry>, e: Entry)
    requires NewWitnessed(c, d, tx, from, log) && WitnessedBy(c, d, tx, log + [e], |log|)
    ensures NewWitnessed(c, d, tx, from, log + [e])
  {
    hide WitnessedBy;
    forall i | from <= i < |log| ensures WitnessedBy(c, d, tx, log + [e], i) {
      WitnessStays(c, d, tx, log, log + [e], i);
    }
  }

  lemma EmittedKey(k: Keccak, sender: Address, a: DocAttestation)
    ensures EntryKey(k, Emitted(k, sender, a)) == Key(k, a)
  {
    assert EntryBlock(Emitted(k, sender, a)) == a.docBlock;
  }

  lemma {:induction false} AttestOneSound(c: Crypto, d: Deployment, tx: Tx, from: nat, st: State, item: Item,
                                          skip: bool)
    requires SoundLog(c, st) && NewWitnessed(c, d, tx, from, st.log) && item in TxItems(tx) && CacheFresh(c, d)
    requires AttestOne(RulesOf(c, d, tx.env), st, item, skip).Ok?
    ensures var after := AttestOne(RulesOf(c, d, tx.env), st, item, skip).value.0;
      SoundLog(c, after) && NewWitnessed(c, d, tx, from, after.log)
  {
    if KeyOf(c.keccak)(item) !in st.recorded {
      StoredIsWitnessed(c, d, tx, st.recorded, st.log, item);
      EmittedKey(c.keccak, tx.env.sender, item.attestation);
      SoundLogGrows(c, st, Emitted(c.keccak, tx.env.sender, item.attestation));
      NewWitnessedGrows(c, d, tx, from, st.log, Emitted(c.keccak, tx.env.sender, item.attestation));
    }
  }

  lemma {:induction false} AttestAllSound(c: Crypto, d: Deployment, tx: Tx, st: State, items: seq<Item>)
    requires SoundLog(c, st) && CacheFresh(c, d)
    requires forall item | item in items :: item in TxItems(tx)
    requires AttestAll(RulesOf(c, d, tx.env), st, items).Ok?
    ensures var after := AttestAll(RulesOf(c, d, tx.env), st, items).value.0;
      SoundLog(c, after) && NewWitnessed(c, d, tx, |st.log|, after.log)
  {
    if items != [] {
      var init := items[..|items| - 1];
      AttestAllSound(c, d, tx, st, init);
      AttestOneSound(c, d, tx, |st.log|, AttestAll(RulesOf(c, d, tx.env), st, init).value.0, items[|items| - 1], true);
    }
  }

  /** One transaction keeps the log sound and witnesses everything it appends. */
  lemma StepSound(c: Crypto, d: Deployment, tx: Tx, st: State)
    requires SoundLog(c, st) && CacheFresh(c, d)
    ensures SoundLog(c, Step(c, d, st, tx)) && NewWitnessed(c, d, tx, |st.log|, Step(c, d, st, tx).log)
  {
    var rules := RulesOf(c, d, tx.env);
    match tx
    case DocTx(_, item) =>
      if AttestOne(rules, st, item, false).Ok? { AttestOneSound(c, d, tx, |st.log|, st, item, false); }
    case BatchTx(_, attestations, signatures) =>
      if AttestBatch(rules, st, attestations, signatures).Ok? {
        AttestAllSound(c, d, tx, st, Zip(attestations, signatures));
      }
  }

  lemma RunSnoc(c: Crypto, d: Deployment, txs: seq<Tx>)
    requires txs != []
    ensures Run(c, d, GENESIS, txs) == Step(c, d, Run(c, d, GENESIS, txs[..|txs| - 1]), txs[|txs| - 1])
  {
  }

  lemma {:induction false} AppendedLonger(c: Crypto, d: Deployment, txs: seq<Tx>, n: nat, i: nat)
    requires txs != [] && AppendedAt(c, d, txs[..|txs| - 1], n, i)
    ensures AppendedAt(c, d, txs, n, i)
  {
    assert txs[..|txs| - 1][..n] == txs[..n] && txs[..|txs| - 1][..n + 1] == txs[..n + 1];
  }

  lemma {:induction false} EarlierStays(c: Crypto, d: Deployment, txs: seq<Tx>, log: seq<Entry>, longer: seq<Entry>,
                                        i: nat)
    requires txs != [] && i < |log| && log <= longer
    requires WitnessedWhenAppended(c, d, txs[..|txs| - 1], log, i)
    ensures WitnessedWhenAppended(c, d, txs, longer, i)
  {
    hide WitnessedBy, AppendedAt;
    var init := txs[..|txs| - 1];
    var n :| 0 <= n < |init| && AppendedAt(c, d, init, n, i) && WitnessedBy(c, d, init[n], log, i);
    WitnessStays(c, d, init[n], log, longer, i);
    AppendedLonger(c, d, txs, n, i);
    assert txs[n] == init[n];
  }

  lemma {:induction false} RunSound(c: Crypto, d: Deployment, txs: seq<Tx>)
    requires CacheFresh(c, d)
    ensures SoundLog(c, Run(c, d, GENESIS, txs))
    ensures forall i | 0 <= i < |Run(c, d, GENESIS, txs).log| ::
      WitnessedWhenAppended(c, d, txs, Run(c, d, GENESIS, txs).log, i)
  {
    if txs == [] {
      assert Run(c, d, GENESIS, txs) == GENESIS;
    } else {
      hide WitnessedBy, WitnessedWhenAppended, AppendedAt, Step, SoundLog, Run, CacheFresh;
      var init, last := txs[..|txs| - 1], txs[|txs| - 1];
      RunSound(c, d, init);
      RunSnoc(c, d, txs);
      var before, after := Run(c, d, GENESIS, init), Run(c, d, GENESIS, txs);
      StepSound(c, d, last, before);
      StepGrows(c, d, before, last);
      forall i | 0 <= i < |after.log| ensures WitnessedWhenAppended(c, d, txs, after.log, i) {
        if i < |before.log| {
          EarlierStays(c, d, txs, before.log, after.log, i);
        } else {
          AppendedLast(c, d, txs, after.log, i);
        }
      }
    }
  }

  lemma {:induction false} AppendedLast(c: Crypto, d: Deployment, txs: seq<Tx>, log: seq<Entry>, i: nat)
    requires txs != [] && log == Run(c, d, GENESIS, txs).log
    requires |Run(c, d, GENESIS, txs[..|txs| - 1]).log| <= i < |log| && WitnessedBy(c, d, txs[|txs| - 1], log, i)
    ensures WitnessedWhenAppended(c, d, txs, log, i)
  {
    hide WitnessedBy, Run;
    assert txs[..|txs|] == txs;
    assert AppendedAt(c, d, txs, |txs| - 1, i);
  }

  /** A log entry's hashes are those of its fields. */
  predicate WellFormedEntry(k: Keccak, e: Entry) {
    && e.attester != ZERO_ADDRESS && |e.uri| <= MAX_URI_BYTES
    && e.blockHash == HashDocBlock(k, EntryBlock(e)) && e.uriHash == k(e.uri)
  }

  lemma WitnessedIsWellFormed(c: Crypto, d: Deployment, tx: Tx, log: seq<Entry>, i: nat)
    requires i < |log| && WitnessedBy(c, d, tx, log, i)
    ensures WellFormedEntry(c.keccak, log[i])
  {
    hide Digest, CheckSignature;
    var item :| Witnessed(c, d, tx, item, log, i);
    assert EntryBlock(log[i]) == item.attestation.docBlock;
  }

  lemma AppendedIsWellFormed(c: Crypto, d: Deployment, txs: seq<Tx>, log: seq<Entry>, i: nat)
    requires i < |log| && WitnessedWhenAppended(c, d, txs, log, i)
    ensures WellFormedEntry(c.keccak, log[i])
  {
    hide AppendedAt, WitnessedBy, WellFormedEntry;
    var n :| 0 <= n < |txs| && AppendedAt(c, d, txs, n, i) && WitnessedBy(c, d, txs[n], log, i);
    WitnessedIsWellFormed(c, d, txs[n], log, i);
  }

  /** What every run of every deployment keeps: the recorded keys are the keys of the log, no key is logged
      twice, every entry was witnessed by the very transaction that appended it, and its hashes are those of its
      fields; and earlier logs are prefixes of later ones. */
  lemma EveryRunIsSound(c: Crypto, self: Address, deployedOn: uint256, txs: seq<Tx>)
    ensures var d := Deploy(c.keccak, self, deployedOn);
      var st := Run(c, d, GENESIS, txs);
      && SoundLog(c, st)
      && (forall i | 0 <= i < |st.log| :: WitnessedWhenAppended(c, d, txs, st.log, i))
      && (forall i | 0 <= i < |st.log| :: WellFormedEntry(c.keccak, st.log[i]))
      && forall n | 0 <= n <= |txs| :: Run(c, d, GENESIS, txs[..n]).log <= st.log
  {
    var d := Deploy(c.keccak, self, deployedOn);
    var st := Run(c, d, GENESIS, txs);
    hide Run, Deploy, SoundLog, WitnessedWhenAppended, WellFormedEntry;
    DeployedCacheFresh(c, self, deployedOn);
    RunSound(c, d, txs);
    forall i | 0 <= i < |st.log| ensures WellFormedEntry(c.keccak, st.log[i]) {
      AppendedIsWellFormed(c, d, txs, st.log, i);
    }
    forall n | 0 <= n <= |txs| ensures Run(c, d, GENESIS, txs[..n]).log <= st.log {
      RunPrefixGrows(c, d, txs, n);
    }
  }

  lemma DeployedCacheFresh(c: Crypto, self: Address, deployedOn: uint256)
    ensures CacheFresh(c, Deploy(c.keccak, self, deployedOn))
  {
    forall chainId ensures DomainSeparator(c.keccak, Deploy(c.keccak, self, deployedOn), chainId)
      == BuildDomainSeparator(c.keccak, chainId, self)
    {
      CachedSeparatorIsRebuilt(c.keccak, self, deployedOn, chainId);
    }
  }

  lemma {:induction false} RunPrefixGrows(c: Crypto, d: Deployment, txs: seq<Tx>, n: nat)
    requires n <= |txs|
    ensures Run(c, d, GENESIS, txs[..n]).log <= Run(c, d, GENESIS, txs).log
    decreases |txs|
  {
    if n < |txs| {
      var init := txs[..|txs| - 1];
      assert init[..n] == txs[..n];
      RunPrefixGrows(c, d, init, n);
      var before, last := Run(c, d, GENESIS, init), txs[|txs| - 1..];
      assert last[..0] == [];
      RunGrows(c, d, before, last);
      assert Run(c, d, before, last) == Step(c, d, before, txs[|txs| - 1]);
    } else {
      assert txs[..n] == txs;
    }
  }

  /** The contract asks nothing of a URI but its length: any bytes within the cap can get into the log, with any
      non-zero attester, if that attester is a wallet that approves. */
  lemma AnyUriCanBeRecorded(c: Crypto, self: Address, chainId: uint256, sender: Address, a: DocAttestation)
    returns (env: Env)
    requires a.attester != ZERO_ADDRESS && |a.uri| <= MAX_URI_BYTES
    ensures var log := Run(c, Deploy(c.keccak, self, chainId), GENESIS, [DocTx(env, Item(a, []))]).log;
      env.chainId == chainId && log == [Emitted(c.keccak, sender, a)] && log[0].uri == a.uri
  {
    var approve := (recorded: set<Bytes32>, wallet: Address, call: bytes) => CallResult(true, EIP1271_MAGIC_VALUE);
    env := Env(sender, 0, chainId, (account: Address) => true, approve);
    var d, item := Deploy(c.keccak, self, chainId), Item(a, []);
    var digest := ToTypedDataHash(c.keccak, DomainSeparator(c.keccak, d, chainId), HashAttestation(c.keccak, a));
    assert EIP1271_MAGIC_VALUE[..4] == EIP1271_MAGIC_VALUE;
    assert CheckSignature(c, env, {}, a.attester, digest, []).Pass?;
    assert CheckFresh(c, d, env, {}, item).Pass?;
    assert [DocTx(env, item)][..0] == [] && Run(c, d, GENESIS, []) == GENESIS;
    assert Step(c, d, GENESIS, DocTx(env, item)).log == [] + [Emitted(c.keccak, sender, a)];
  }

  /** Why skipping a recorded item is safe: a recorded key means the same claim is in the log, or keccak
      collides on the two claims' keys or URIs. */
  lemma RecordedKeyProvesClaim(c: Crypto, self: Address, deployedOn: uint256, txs: seq<Tx>,
                               a: DocAttestation) returns (e: Entry)
    requires Key(c.keccak, a) in Run(c, Deploy(c.keccak, self, deployedOn), GENESIS, txs).recorded
    ensures e in Run(c, Deploy(c.keccak, self, deployedOn), GENESIS, txs).log
    ensures
      || (e.attester == a.attester && e.onBehalfOf == a.onBehalfOf && EntryBlock(e) == a.docBlock && e.uri == a.uri)
      || Collision(c.keccak, KeyPreimage(e.attester, e.onBehalfOf, EntryBlock(e), e.uriHash),
                   KeyPreimage(a.attester, a.onBehalfOf, a.docBlock, c.keccak(a.uri)))
      || Collision(c.keccak, e.uri, a.uri)
  {
    var k := c.keccak;
    var st := Run(c, Deploy(k, self, deployedOn), GENESIS, txs);
    EveryRunIsSound(c, self, deployedOn, txs);
    e :| e in st.log && EntryKey(k, e) == Key(k, a);
    KeyBinding(k, DocAttestation(e.attester, e.onBehalfOf, EntryBlock(e), e.uri, 0), a);
  }
}
