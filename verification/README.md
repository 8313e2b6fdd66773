# Doc Chain: a verified model

Doc Chain is a witness log. People sign small records about documents ("attestations"), anybody carries
them to a contract, the contract checks the signature and emits one event per new claim, and an indexer scans
the chain, caches the events in a file and builds a static JSON index.

This project models that pipeline in Dafny and proves what a reader of the repository relies on:

- **The contract** (`Contract`, `WitnessLog`). What one submission and one batch do; then whole runs of
  transactions in which sender, time, chain id, deployed code and wallet answers may all change from step
  to step. A batch is exactly its fresh items submitted one by one; resubmitting is idempotent; after every run
  the recorded keys are exactly the keys of the event log, and every log entry was witnessed by the very transaction
  that appended it.
- **The hashes** (`Eip712`, `Signature`). `keccak` and `ecrecover` are function parameters and *nothing* is
  assumed about them. Every statement that would need keccak to be injective ends in "or here is a
  collision", and it names the two inputs that collide. `TypedData` is EIP-712 for arbitrary struct types ("Definition of
  encodeType", "Definition of encodeData", "Definition of hashStruct"), written from that standard; the contract's
  hashes are proved to be its instances.
- **The scanner** (`Scanner`, `Chunking`). Chunking, the split by an announced limit and the bisection, against one ideal query,
  for any provider that is honest when it answers and may refuse as it likes; exactly when
  scanning ends; and every single question of a scan.
- **The cache** (`Dedupe`, `Events`, `Store`, `CrashSafety`, `Resuming`, `Finishing`). Append-then-checkpoint, with a cut possible
  before any durable write (a cache record or the checkpoint), over any history of runs; and exactly which logs an
  update leaves out when its first block is not where the cache ends; and that resuming finishes in the end.
- **The texts** (`Bytes`, `Digits`, `Abi`, `Attestation`, `Logs`, `Topics`, `Calls`). The call data writer and the event decoder
  work on hex text with hand-computed offsets. `Abi` is an independent encoder and decoder written from the Solidity
  Contract ABI Specification ("Formal Specification of the Encoding", "Use of Dynamic Types", "Events") for
  arbitrarily nested types; the writer is proved to produce, and the decoder to read, that encoding. `Calls` joins the
  writer and the contract.
- **The index** (`Index`) and **the whole** (`EndToEnd`): what the contract recorded is what the index lists.

## How to read it

Code that changes state in the repository is a class with methods or a method with a loop here
(`Contract.DocChain`, `Store.EventStore`, `Events.DedupeLoop`, `Scanner.BlockRangesLoop`, `Index.GroupByRef`,
`Index.BuildIndexLoop`, `Attestation.EncodeDynamicArrayLoop`, `Attestation.AttestBatchCalldata`). Each is proved equal to
a specification function, and the lemmas are about that function. `DocChain` writes its fields item by item and a
failing batch has to restore them, as a revert does. The recursive generator of the scanner is a recursive function.

Names: a `Tx` is one transaction with its environment, a `Request` is one cache update with its
provider and its number of durable writes before it is cut, a `Mined` entry is a log entry with its place in the ledger.

What some of the words in the statements mean:

- `Witnessed`: a transaction carried an item that was unexpired, within the URI cap and validly signed for that
  chain's digest, checked against the keys recorded by the entries before; the entry reports it field by field.
  `WitnessedWhenAppended`: the transaction that did so is the one whose step made the log long enough to hold the entry.
- `Inv`: the cache file is the records of distinct, real events; the checkpoint belongs to the scan context and every
  matching log from the history's first block up to its block is cached.
- `Fits`: a request has the history's scan context, asks for no block below the history's first, looks no further than
  its last block, and its provider is honest. `GoesOn`: it leaves no gap, because it asks for the history's first block or
  for one no later than the next block of the checkpoint. `History`: every run with a checkpoint file leaves no gap.
- `Selects`: an entry has the chain id, attester and reference that a scan asks for, as far as it asks for them.
- `Transcript`: the questions of a scan, one by one: each starts at the first block not yet served, and is followed, if it
  was refused, by the one about its first piece (`FirstPiece`). `Ascending`, `RecordsAscend`: the two sort orders, spelled
  out field by field. `Accounts`: what a finished update reports.
- `Earliest`: of the records with one key, the first one that no other precedes; defined without sorting.

In these places the code does less than one would expect of it. The model follows the code, a lemma says exactly when
the expectation is met, and another one has an input that fails:

| expectation | exactly when | failing input |
|---|---|---|
| a cached event is read back as it was written | it names an `on_behalf_of`; an empty one comes back as the zero address (`Events.CacheRecordRoundTrip`) | any event with an empty `on_behalf_of` (same lemma) |
| a finished update has cached the blocks it was asked for, and all that its checkpoint stands for | no log of a block that it leaves out, below the first block or between the checkpoint and its own first block, is uncached (`Resuming.FinishedCovers`) | `Resuming.EarlierBlocksAreLost`, `Resuming.GapIsLost`; no update with the checkpoint file brings the log back (`Resuming.LostForGood`), one without it does (`Resuming.GapIsRecovered`) |
| scanning ends | the provider answers no question with an unhelpful limit for ever (`Scanner.EndsExactlyWhenRelenting`) | `Scanner.StubbornProviderNeverEnds` |
| loading after an append is merging into the loaded cache | no appended event precedes the cached one with its key (`CrashSafety.AppendThenLoadFile`) | `CrashSafety.EarlierDuplicateIsDropped` |
| an emitted event can be decoded and a range of blocks scanned | its URI is UTF-8, which the contract does not check (`Logs.DecodeRoundTrip`, `EndToEnd.DecodesExactlyText`) | any other bytes within the cap can be mined (`EndToEnd.NonTextCanBeMined`) and stop the checkpoint (`EndToEnd.NonTextStopsTheCheckpoint`) |
| a number takes one word of call data | it is below 2^256, which the writer does not check (`Attestation.WordUintIsOneWord`) | `Attestation.WideDeadlineCollides` |

## Model

| member | source | states |
|---|---|---|
| EndToEnd.RecordedIsListed | reference/docchain/store.py:265-320 | For every contract run, placement of its logs in blocks, filter, history of cut scans and provider behaviour: once an update without a gap finishes at block N, every selected URI mined from the first block to N is UTF-8, the index lists exactly one record per claim mined there with the fields the filter asks for, with the emitted fields, and the keys recomputed from the listed texts are exactly those claims' recorded keys. Other claims, and claims mined before or after, may exist. |
| EndToEnd.EverythingIsListed | reference/docchain/store.py:265-320 | The special case in which all of the contract's logs have been scanned without a filter: one record per recorded claim, and the recomputed keys are exactly the recorded keys. |
| EndToEnd.LoadedIsLedger | reference/docchain/store.py:210-243 | The cache after a finished scan of a range of blocks loads as one record per log entry mined in that range that the filter selects, none missing and none invented, whatever was mined elsewhere. |
| EndToEnd.LedgerEvents | reference/docchain/logs.py:14-64 | The events a scan of a block range decodes are exactly the records of the entries mined in it that its filter selects and whose URI is UTF-8. |
| EndToEnd.DecodesExactlyText | reference/docchain/indexer.py:202 | A range of blocks decodes if and only if the URI of everything selected in it is UTF-8. |
| EndToEnd.NonTextStopsTheCheckpoint | reference/docchain/store.py:96-113 | With a selected entry in block b whose URI is not UTF-8, no history of updates from a first block at or below b ever brings the checkpoint to b, and no update without a gap finishes at b or later. |
| EndToEnd.NonTextCanBeMined | contracts/src/DocChain.sol:199-213 | For any bytes within the cap that are not UTF-8 there is a contract run whose only log entry has them as its URI. |
| EndToEnd.LedgerKeys | contracts/src/DocChain.sol:210-213 | The keys recomputed from the mined entries are the contract's recorded keys, one for each entry. |
| EndToEnd.RecordKeyIsEntryKey | contracts/src/DocChain.sol:286-299 | The duplicate-prevention key recomputed from an index record's texts is the key of the emitted entry. |
| EndToEnd.LedgerOfRunIsEncodable | contracts/src/DocChain.sol:199-202 | The contract's own URI cap is what makes all its logs encodable. |
| WitnessLog.BatchRefinesDocs | contracts/src/DocChain.sol:126-148 | A batch goes through exactly when no attester is zero and its fresh items go through `attestDoc` in order; both leave the same keys and log; `stored` is the number of new distinct keys and `stored + skipped` the batch length. |
| WitnessLog.AttestBatchAccepts | contracts/src/DocChain.sol:126-214 | All of `attestBatch`: success exactly for a non-empty batch of matching lengths whose attesters are non-zero and whose first occurrences of unrecorded keys pass when reached, and the keys, log and counts it then leaves. |
| WitnessLog.BatchAccepts | contracts/src/DocChain.sol:119-125 | Exactly which items a batch checks: only fresh ones, against the keys recorded by the time they are reached; recorded and repeated items are never re-verified. |
| WitnessLog.FreshCount | contracts/src/DocChain.sol:138-147 | The fresh items are as many as the new distinct keys. |
| WitnessLog.AttestDocAccepts | contracts/src/DocChain.sol:155-214 | Exactly when a single submission succeeds, with the signature checked against the digest that EIP-712 gives for the current chain and this contract, and all it then returns and changes, the appended entry included. |
| WitnessLog.RefusedWith | contracts/src/DocChain.sol:155-206 | Which error a refused item gets, alone or in a batch, with its arguments, and the order of the checks: zero attester, recorded claim (skipped in a batch), deadline, URI length, signature length, signature. |
| WitnessLog.AttestBatchRejects | contracts/src/DocChain.sol:126-148 | A batch is refused for being empty, for its lengths, or for the first item that is refused in the state left by the items before it, with that item's error. |
| WitnessLog.AnyUriCanBeRecorded | contracts/src/DocChain.sol:199-213 | The contract asks nothing of a URI but its length: any bytes within the cap, with any non-zero attester, can be the log of a one-transaction run. |
| WitnessLog.AccountSignature | contracts/src/DocChain.sol:340-349 | For an account without code the check passes exactly when the signature is one of the three spellings of a low-s signature from which `ecrecover` gets the attester. |
| WitnessLog.WalletSignature | contracts/src/DocChain.sol:351-372 | For a wallet the check passes exactly when the wallet, asked with the ABI encoding of this digest and this signature and seeing the keys recorded so far, succeeds and answers with data that starts with the magic value; everything else is an invalid signature. |
| WitnessLog.ResubmissionIsIdempotent | contracts/src/DocChain.sol:121-125 | After a batch has landed and after any further transactions, the same attestations with any signatures, at any time and on any chain id, succeed, store nothing and skip every item. |
| WitnessLog.PartialResubmissionCatchesUp | contracts/src/DocChain.sol:184-189 | With part of a batch recorded, and any claims of others, resubmitting it succeeds exactly when each fresh item is still valid when reached; it then adds exactly the missing keys of the one-shot batch, counts them, and reaches the one-shot keys if nothing else had landed. |
| WitnessLog.EveryRunIsSound | contracts/src/DocChain.sol:155-233 | After every run of every deployment: recorded keys are the keys of the log, no key is logged twice, every entry is witnessed by the transaction that appended it, every entry's hashes, URI length and attester are right, and earlier logs are prefixes of later ones. |
| WitnessLog.RunGrows | contracts/src/DocChain.sol:210-213 | No transaction forgets a key or rewrites the log. |
| WitnessLog.RecordedKeyProvesClaim | contracts/src/DocChain.sol:150-154 | A recorded key means that the identical claim is in the log, or keccak collides on the two claims' keys or URIs. |
| WitnessLog.EmittedKey | contracts/src/DocChain.sol:216-233 | The key can be recomputed from the emitted fields alone. |
| Contract.DocChain.constructor | contracts/src/DocChain.sol:102-105 | A deployment caches its chain id and separator and starts with no key and an empty log. |
| Contract.DocChain.AttestDoc | contracts/src/DocChain.sol:109-114 | The stateful `attestDoc` has the effect and the result of the specification; an error leaves the state alone. |
| Contract.DocChain.AttestMany | contracts/src/DocChain.sol:126-148 | The stateful loop of `attestBatch`, with its counters, has the effect and the result of the specification; an error at any item leaves the state as it was before the batch. |
| Contract.DocChain.AttestOneItem | contracts/src/DocChain.sol:155-214 | `_attestOne` field by field: check order, what is skipped, what is written and emitted. |
| Contract.DocChain.RecoverSigner | contracts/src/DocChain.sol:375-420 | Reassigning r, s and v as the code does gives the arguments of the specification. |
| Contract.AttestAllPrefix | contracts/src/DocChain.sol:119-123 | A failing item anywhere fails the whole batch with that item's error. |
| Contract.CachedSeparatorIsRebuilt | contracts/src/DocChain.sol:237-243 | The cached domain separator is the rebuilt one for every chain id. |
| Contract.WalletReadsDigestAndSignature | contracts/src/DocChain.sol:356-357 | Decoding the wallet call by the ABI specification gives exactly the digest and the signature. |
| Contract.WalletCallIsEncoding | contracts/src/DocChain.sol:356-357 | The wallet call is the selector and the specification's encoding of the two arguments. |
| Signature.SpellingsAgree | contracts/src/DocChain.sol:384-408 | The 64-byte form and both 65-byte forms of every low-s signature reach `ecrecover` with the same arguments (EIP-2098, "Specification"). |
| Signature.AcceptedIsSpelling | contracts/src/DocChain.sol:406-419 | Every signature that reaches `ecrecover` is a spelling of exactly one (r, s, y), and that one is low-s. |
| Eip712.TypeTexts | contracts/src/DocChain.sol:41-50 | The three type texts in the contract are what EIP-712's `encodeType` makes of the member lists that the signing helper hands to wallets. |
| Eip712.HashDocBlockIsStandard | contracts/src/DocChain.sol:313-322 | The block hash is EIP-712's `hashStruct` of the block's fields, found by member name. |
| Eip712.HashAttestationIsStandard | contracts/src/DocChain.sol:324-334 | The same for the attestation, with the block as a nested struct and the URI as a dynamic value. |
| Eip712.SeparatorIsStandard | contracts/src/DocChain.sol:301-311 | The domain separator is `hashStruct` of the domain with name "Doc Chain", version "1", the chain id and the contract. |
| Eip712.DigestIsStandard | reference/docchain/attestation.py:30-67 | The contract's digest is what EIP-712 has a wallet sign for the typed data that the signing helper builds. |
| Eip712.DocBlockPreimageIsAbi | contracts/src/DocChain.sol:319-321 | The block's hash input is the ABI specification's encoding of the typed tuple. |
| Eip712.AttestationPreimageIsAbi | contracts/src/DocChain.sol:331-333 | The same for the attestation. |
| Eip712.DomainPreimageIsAbi | contracts/src/DocChain.sol:302-310 | The same for the domain. |
| Eip712.KeyPreimageIsAbi | contracts/src/DocChain.sol:295-298 | The same for the seven fields of the key. |
| Eip712.DigestBinding | contracts/src/DocChain.sol:301-338 | Equal digests mean equal chain, contract and attestation, or a collision at one of five named hashing layers (EIP-712, "Definition of encodeData", "Definition of domainSeparator"). |
| Eip712.KeyBinding | contracts/src/DocChain.sol:286-299 | Equal claims have equal keys whatever their deadlines; equal keys mean equal claims or a named collision. |
| Eip712.TamperEvident | contracts/src/DocChain.sol:313-322 | Two parent-linked block sequences with the same final hash are the same block by block, or two of their own blocks collide, or one hashes to zero. |
| Eip712.AncestorChangeReachesDescendants | README.md:81-83 | Changing any block changes the hash of every later one, up to such a collision among the blocks up to there. |
| Eip712.DocBlockPreimageInjective | contracts/src/DocChain.sol:313-322 | A block's hash input determines the block. |
| Eip712.AttestationPreimageInjective | contracts/src/DocChain.sol:324-334 | An attestation's hash input determines its addresses, its deadline and its block and URI hashes. |
| Eip712.DomainPreimageInjective | contracts/src/DocChain.sol:301-311 | A domain's hash input determines chain id and contract. |
| Eip712.KeyPreimageInjective | contracts/src/DocChain.sol:295-298 | A key's hash input determines all seven fields of the claim. |
| Scanner.ScanAgreesWithIdealQuery | reference/docchain/indexer.py:144-202 | For any honest provider, refusals and recursion limit: chunks are contiguous, non-empty and in order from the first block, reach the last block exactly when no error escapes, and concatenate to the one ideal query of the blocks they cover. |
| Scanner.ScanRangeCovers | reference/docchain/indexer.py:178-202 | The same for one recursively split range. |
| Scanner.ScanRangeTerminates | reference/docchain/indexer.py:189-201 | If every announced limit is below the refused size, a range of n blocks never recurses more than n deep. |
| Scanner.StubbornProviderNeverEnds | reference/docchain/indexer.py:189-194 | A provider that from some call on keeps announcing limits no smaller than the refused range is asked the same question until the recursion limit. |
| Scanner.EndsExactlyWhenProgressive | reference/docchain/indexer.py:178-202 | For a provider that answers alike every time, scanning any range ends within its size exactly when every limit announced for several blocks is below the refused size. |
| Scanner.EndsExactlyWhenRelenting | reference/docchain/indexer.py:178-202 | For any provider, one that changes its mind included: all scans end if and only if no question about several blocks is answered with an unhelpful limit for ever. |
| Scanner.BisectionDepth | reference/docchain/indexer.py:195-201 | If exactly ranges of more than K blocks fail, a scan goes through if and only if the interpreter can recurse once more than the range has to be halved, and fails for its depth otherwise. |
| Scanner.LevelsAreFew | reference/docchain/indexer.py:198-200 | Bisection goes at most logarithmically deep. |
| Scanner.DefaultChunkLevels | reference/docchain/indexer.py:150 | For the default chunk of 2,000 blocks that is 11 levels. |
| Scanner.BisectionTerminates | reference/docchain/indexer.py:195-201 | With a provider that never announces a limit, whatever else it answers, a range recurses at most logarithmically deep. |
| Scanner.BisectionCalls | reference/docchain/indexer.py:195-201 | Then a range of n blocks ends in L leaves with L * ((K + 1) div 2) <= n and takes exactly 2L - 1 calls. |
| Scanner.AnnouncedLimitCalls | reference/docchain/indexer.py:189-194 | If K is announced instead, exactly 1 + ceil(n / K) calls are made. |
| Chunking.ChunksAreSmall | reference/docchain/indexer.py:144-175 | Whatever the provider answers, no chunk has more than the chunk size of blocks or blocks outside the request; unusable arguments fail before the first question. |
| Chunking.WiderAnswersDoNotMatter | reference/docchain/indexer.py:161-162 | No question spans more than a chunk or leaves the request: two providers that agree on those questions give the same scan. |
| Chunking.WillingChunks | reference/docchain/indexer.py:161-175 | A provider that serves every chunk gives exactly the chunks from `fromBlock + i * chunkSize` on, the last one cut off at the last block, ceil(n / chunkSize) of them with one call each. |
| Chunking.QuestionsOfScan | reference/docchain/indexer.py:178-202 | Every question of every scan: it starts at the first block not yet served; if another follows, it was served, or refused for a plain error or with a usable limit, and the next is about the larger half or as many blocks as the limit allows; the answer to the last one alone decides how the scan ends. |
| Chunking.NothingAfterLastAnswer | reference/docchain/indexer.py:187-197 | Rate limits, undecodable logs and refusals of a single block are never retried. |
| Scanner.BlockRangesLoop | reference/docchain/indexer.py:165-175 | The loop yields the specified ranges and rejects negative blocks and sizes below one. |
| Scanner.BlockRangesPartition | reference/docchain/indexer.py:165-175 | The ranges are non-empty, at most the chunk size, adjacent, in order, and cover exactly the request. |
| Scanner.HalvesPartition | reference/docchain/indexer.py:198-200 | Both halves of a bisection are non-empty and strictly smaller and make up the range. |
| CrashSafety.CrashSafeResume | reference/docchain/store.py:60-113 | After any sequence of runs that start where the cache ends or at the first block, each cut anywhere or failing anywhere: every matching log from the first block to the checkpoint is cached, cached keys are distinct, every cached record is a real log. |
| CrashSafety.SameFirstIsHistory | reference/docchain/store.py:74-78 | Runs that all ask for one first block leave no gap. |
| CrashSafety.FinishedCacheIsIdeal | reference/docchain/store.py:96-122 | A run without a gap that finishes at block N, after any such history, leaves a cache that loads as the deduplicated events of one ideal query to N. |
| CrashSafety.InterruptionsLeaveNoTrace | reference/docchain/store.py:62-65 | Any two histories that finish at the same block load alike. |
| CrashSafety.UpdateScans | reference/docchain/store.py:74-122 | One update, whatever first block it asks for and wherever it is cut: the cache grows only by events of the blocks it really scans, the checkpoint moves only over blocks cached since that start, and if it finishes all of those are cached and its report of matched logs, new records, chunks and last block is right. |
| CrashSafety.UpdateKeeps | reference/docchain/store.py:80-122 | One update whose first block is anywhere from the history's first to the checkpoint's next keeps the cache sound, never takes the checkpoint back, reports exactly the cache growth, and if it finishes a non-empty scan ends at its last block with the checkpoint there. |
| CrashSafety.UpdateAccounts | reference/docchain/store.py:80-122 | A finished update reports the block it was asked for, as many matched events as there are matching logs in the blocks it scanned, cached before or not, and the number of chunks, which partition those blocks and are no larger than the chunk size. |
| CrashSafety.UnrefusedUpdateCounts | reference/docchain/store.py:96-106 | If the provider refuses no chunk, that number is ceil(n / chunkSize). |
| CrashSafety.FailedUpdateKeepsProgress | reference/docchain/store.py:62-65 | A failed update names its cause; a foreign checkpoint is found before anything is written; after an error of the scan everything before some block is cached and the checkpoint is there. |
| CrashSafety.WriteChunksKeep | reference/docchain/store.py:96-111 | At every chunk boundary the known keys are the keys in the file, the cache is complete up to the chunk's end, and the count of new events is the growth. |
| CrashSafety.LongEnoughRunFinishes | reference/docchain/store.py:96-122 | A run whose scan meets no error finishes if it lives long enough to write its events and checkpoints. |
| Finishing.UnfinishedAchieves | reference/docchain/store.py:96-113 | A run that meets no error and does not finish has added at least as many records and covered blocks as it had durable writes. |
| Finishing.ResumingFinishes | reference/docchain/store.py:60-122 | Runs towards one block that meet no error, each cut anywhere, finish at the latest when together they have had more durable writes than there are logs and blocks. |
| Finishing.OneWriteEachFinishes | reference/docchain/store.py:60-122 | If every run lives to do one durable write, at most as many runs as there are logs and blocks fail to finish. |
| Resuming.FinishedCovers | reference/docchain/store.py:74-122 | Whatever first block a finished update asked for: its own blocks are all cached if and only if those it leaves out below the history's first block hold no uncached log, and the blocks its checkpoint then stands for are if and only if those between the old checkpoint and its first block hold none; from the history's first block to the checkpoint's next, both always hold. |
| Resuming.GapIsLost | reference/docchain/store.py:74-113 | With the checkpoint at 0, an update asked for block 2 finishes and moves the checkpoint to 2 while the log of block 1 is not cached. |
| Resuming.EarlierBlocksAreLost | reference/docchain/store.py:74-113 | With blocks from 2 on scanned, an update asked from block 0 to 3 finishes while the log of block 1 is not cached. |
| Resuming.NeverRescanned | reference/docchain/store.py:74-113 | With a checkpoint at B no sequence of updates with the checkpoint file ever caches an event that occurs only in blocks up to B. |
| Resuming.LostForGood | reference/docchain/store.py:74-113 | After either loss no update with the checkpoint file ever adds the log. |
| Resuming.WithoutCheckpointRecovers | reference/docchain/store.py:74-122 | An update without the checkpoint file that finishes has cached every log of the blocks it was asked for, whatever was skipped before. |
| Resuming.GapIsRecovered | reference/docchain/store.py:74-122 | After the gap an update of blocks 0 to 2 without the checkpoint file finishes, and the log is in the loaded cache. |
| Resuming.FirstBlockBelowCheckpointIsIgnored | reference/docchain/store.py:74-78 | With a checkpoint, requested first blocks at or below its next block make no difference to what the update does. |
| CrashSafety.AppendThenLoadFile | reference/docchain/store.py:176-230 | Loading the file after an append is merging the events into the loaded cache, exactly when no appended event precedes the cached one with its key. |
| CrashSafety.EarlierDuplicateIsDropped | reference/docchain/store.py:183-203 | An event with the transaction and log index of a cached one but an earlier block is dropped, where merging would keep it. |
| CrashSafety.LoadsBack | reference/docchain/store.py:210-230 | A sound cache file loads, as its deduplicated events. |
| Store.LoadsExactly | reference/docchain/store.py:210-230 | How any file loads: as the deduplicated events of its lines, or with the number and the error of the first line that is no event. |
| Store.EventStore.LoadCache | reference/docchain/store.py:210-230 | The line loop computes the specified events or the first bad line. |
| CrashSafety.NewEventsFacts | reference/docchain/store.py:187-193 | Appended events come from the chunk, stand in chain order field by field, have distinct unknown keys, and there is one of the lowest block for every unknown key. |
| CrashSafety.CheckpointIsAccepted | reference/docchain/store.py:125-173 | A checkpoint holds the scan context with its hex fields in lower case. It is accepted for another context exactly when they agree up to letter case of those fields, and scanning then goes on after its last block. |
| Store.EventStore.Run | reference/docchain/store.py:44-122 | The stateful update loop, with its counters, key set, appends and checkpoint writes, does exactly what the specification says, wherever it is cut; `CrashSafety.UpdateScans` says what its report means. |
| Store.EventStore.AppendEventCache | reference/docchain/store.py:176-203 | Exactly the new events' records are appended, in chain order, up to the cut; the key set grows by their keys. |
| Store.EventStore.SelectNew | reference/docchain/store.py:187-193 | The key-set loop selects exactly the first event of every unknown key. |
| Store.WriteChunksStuck | reference/docchain/store.py:96-111 | Nothing is written after the cut. |
| Events.CacheRecordRoundTrip | reference/docchain/model.py:60-79 | A cached event is read back as written, but for an empty `on_behalf_of`; so unchanged exactly when it names one. |
| Events.NormalizeAccepts | reference/docchain/model.py:60-79 | Exactly which records are read as events, and what absent optional fields become. |
| Events.SpellingDoesNotMatter | reference/docchain/model.py:13-22 | Only the values looked up matter: snake_case before camelCase, nothing else in the record. |
| Events.AnySpellingIsRead | reference/docchain/model.py:60-79 | A record with an event's values under names of either spelling, numbers as numbers or decimal text, is read as that event. |
| Events.NumberAsText | reference/docchain/model.py:65 | An integer's decimal text is read as the integer. |
| Events.EventKeyInjective | reference/docchain/store.py:257-258 | The text key identifies the lower-cased transaction hash and the log index. |
| Events.ChainOrderValid | reference/docchain/store.py:246-254 | The sort key, whose fields `Events.SortEventsResult` spells out, is a strict weak order whose ties have equal event keys. |
| Events.SortEventsResult | reference/docchain/store.py:246-254 | Field by field: blocks ascend, within a block log indexes, within those lower-cased transaction hashes; nothing is lost. |
| Texts.TextLessAtFirstDifference | reference/docchain/store.py:246-254 | The order of texts: at the first difference the smaller character or the earlier end comes first. |
| Events.DedupeLoop | reference/docchain/store.py:233-243 | The seen-set loop computes the specified deduplication. |
| Events.DedupeEventsResult | reference/docchain/store.py:233-243 | The result is strictly increasing by block, log index and lower-cased transaction hash, no key occurs twice, every input key is there, and what is kept is an event of the lowest block with its key. |
| Events.DedupeEventsMerge | reference/docchain/store.py:233-243 | dedupe(a + b) = dedupe(dedupe(a) + dedupe(b)). |
| Events.DedupeEventsOfSameSet | reference/docchain/store.py:233-243 | For consistent events only the set of inputs matters. |
| Dedupe.SortSorts | reference/docchain/store.py:246-254 | Sorting sorts and is a permutation. |
| Dedupe.SortStable | reference/docchain/store.py:246-254 | Sorting keeps the order of records that sort alike. |
| Dedupe.DedupedKeepsEarliest | reference/docchain/store.py:233-243 | For every key exactly the earliest record is kept, where earliest is defined without sorting. |
| Dedupe.SameEarliestSameDeduped | reference/docchain/store.py:233-243 | Two inputs deduplicate alike exactly when they have the same earliest record for every key. |
| Dedupe.DedupedIgnoresOrder | reference/docchain/store.py:233-254 | Input order and repetition do not matter as long as records that sort alike are the same. |
| Dedupe.AppendThenLoad | reference/docchain/store.py:183-193 | Over any record type: appending unknown keys then deduplicating is merging, exactly when no appended record precedes the kept one. |
| Logs.DecodeRoundTrip | reference/docchain/logs.py:14-64 | For every entry and every place in the ledger, decoding the ABI encoding of its event gives back every field in the current shape, and in the legacy shape with the zero `onBehalfOf`; it fails exactly when the URI, of any length, is not UTF-8. |
| Logs.AcceptsPayload | reference/docchain/logs.py:30-47 | Exactly which event data is accepted, whatever it is: all words present, zero address padding, and a string that lies inside the data where the aligned offset word points, as long as its length word says, and is UTF-8; and each field is read from its own word. |
| Logs.AcceptsLog | reference/docchain/logs.py:14-64 | Exactly which logs are accepted, whatever they are: four 32-byte hex topics of a known shape with an address and a 64-bit number, data that fits the shape, a hex transaction hash, non-negative numbers and an optional hash; every field of the result is a stretch of the log's own text in lower case. |
| Topics.FilterAccepts | reference/docchain/indexer.py:205-252 | Exactly which filters can be built: hex texts of the right lengths in any letter case and a 64-bit number, each only if given. |
| Topics.FilterSelects | reference/docchain/indexer.py:205-241 | The topic filter matches exactly the logs of entries with the chain id, attester and reference that the scan asks for. |
| Logs.AddressWordText | reference/docchain/logs.py:121-124 | The address of an ABI word is read back. |
| Logs.StringAt | reference/docchain/logs.py:146-158 | A string wherever an offset word points is read back. |
| Attestation.BatchRoundTrip | reference/docchain/attestation.py:299-330 | For every non-empty batch of valid fields whose numbers fit their words there is call data, and decoding it by the ABI specification gives back exactly the attestations and signatures. |
| Attestation.BatchInjective | reference/docchain/attestation.py:299-330 | Equal call data means the same attestations and signatures, item by item. |
| Attestation.BatchEncodes | reference/docchain/attestation.py:299-330 | The call data is the selector and the specification's encoding of the two arrays. |
| Attestation.DocRoundTrip | reference/docchain/attestation.py:287-296 | The same round trip for a single submission. |
| Attestation.DocInjective | reference/docchain/attestation.py:287-296 | Different single submissions have different call data. |
| Calls.WrittenBatchIsAttested | reference/docchain/attestation.py:299-330 | A transaction with the written text as its data is `attestBatch` of exactly the attestations and signatures the items mean, and it succeeds exactly when the contract accepts those. |
| Calls.WrittenDocIsAttested | reference/docchain/attestation.py:287-296 | A transaction with the written single submission is `attestDoc` of exactly that attestation and signature. |
| Attestation.EncodesAttestation | reference/docchain/attestation.py:441-462 | The hand-laid words, the constant URI offset and the padding are the specification's encoding of the struct. |
| Attestation.EncodesArray | reference/docchain/attestation.py:465-476 | Hand-computed offsets give the specification's array encoding for elements of any dynamic type. |
| Attestation.EncodeDynamicArrayLoop | reference/docchain/attestation.py:465-476 | The loop with its running offset computes the specified text. |
| Attestation.AttestBatchCalldata | reference/docchain/attestation.py:299-330 | The loop over the items computes the specified text, or the first bad item's error. |
| Attestation.AcceptsAttestation | reference/docchain/attestation.py:441-457 | Exactly which fields are accepted: hex bodies of the right lengths, a 64-bit reference, a non-negative deadline, a block. |
| Attestation.AcceptsBatch | reference/docchain/attestation.py:307-319 | Exactly which batches get call data. |
| Attestation.RefusesFirstInvalid | reference/docchain/attestation.py:307-319 | A refused batch is empty or gets the error that its first invalid item gets alone. |
| Attestation.WordUintIsOneWord | reference/docchain/attestation.py:479-480 | A non-negative number is written as one word exactly when it is below 2^256. |
| Attestation.WideDeadlineCollides | reference/docchain/attestation.py:441-462 | Two different attestations with one text: an empty URI with a deadline of 128 hex digits, and a 32-byte URI with a deadline that fits. |
| Attestation.AddressText | reference/docchain/attestation.py:483-484 | An address text in any letter case is written as the ABI word of its bytes. |
| Attestation.BytesText | reference/docchain/attestation.py:460-462 | A byte string is written as its length word and its padded bytes. |
| Attestation.PayloadIsPreimage | reference/docchain/attestation.py:346-354 | The writer's hash input for a block is the contract's, provided its constant is the hash of the type string. |
| Abi.DecOfEnc | reference/docchain/attestation.py:299-330 | For all nested types: wherever an encoding stands in some data, the specification's decoder reads back the value. |
| Abi.DecAllOfEncAll | reference/docchain/attestation.py:465-476 | The same for a tuple with static and dynamic components. |
| Abi.EncInjective | reference/docchain/attestation.py:299-330 | Two values of one type never share an encoding. |
| Abi.WordsThenString | reference/docchain/logs.py:30-47 | The layout of event data: the words, the string's offset, its length, its padded bytes. |
| Digits.FormatHexIsBigEndian | reference/docchain/attestation.py:479-480 | Zero-padded hex of a number that fits is the hex of its big-endian bytes. |
| Digits.DecimalIsCanonical | reference/docchain/store.py:290-292 | Decimal text has no leading zeros and a sign only below zero. |
| Digits.DecimalInjective | reference/docchain/store.py:290-292 | Different references have different dictionary keys. |
| Index.IndexPartition | reference/docchain/store.py:280-320 | Index events are a permutation of the deduplicated events that ascends by reference number, block, log index and transaction hash; groups are in text order, are exactly the subsequences with one reference, cover everything, have strictly sorted exact hash lists, and their counts sum to the event count. |
| Index.GroupIsCandidates | reference/docchain/store.py:290-292 | Grouping by the reference's text is grouping by its number. |
| Index.IndexIgnoresOrder | reference/docchain/store.py:279-320 | With metadata and time stamp fixed the index does not depend on the order or repetition of the events if those that agree on block, log index and transaction are equal. |
| Index.RecordOrder | reference/docchain/store.py:281-288 | The record sort key, whose fields `Index.IndexPartition` spells out, is a strict weak order. |
| Index.EventsByNumber | reference/docchain/store.py:280-320 | The index's events are the candidates of each reference, the references in increasing numeric order. |
| Index.IndexDescribesScan | reference/docchain/store.py:303-320 | Schema, metadata as given, and the given time stamp, or the clock's if none or an empty one is given. |
| Index.GroupByRef | reference/docchain/store.py:290-292 | After the loop the dictionary has exactly the seen references, each with its records in order. |
| Index.BuildIndexLoop | reference/docchain/store.py:265-320 | The imperative build, with schema, copied metadata and time stamp, computes the specified index. |

## Left out

- HTTP, JSON-RPC, retries, throttling and the parsing of provider error messages: a provider is a function from call number and range to logs or one of three refusals.
- Chain reorganisations: the cache is specified against one fixed chain below the scanned block.
- Scanner.ScanAgreesWithIdealQuery: is over any chain, a sequence of logs for each block; `EndToEnd` makes it the contract's logs whose topics match. The contract address in the query and its normalisation are not modelled.
- Topics.FilterAccepts: an empty text in a scan context stands for no filter, as it does in the checkpoint; a filter that cannot be built raises before the first query, and such scans are not modelled further.
- The real keccak, secp256k1 and wallet code: they are function parameters. A wallet may answer by the recorded keys, but not by gas.
- Gas, EVM memory and the out-of-gas revert. `unchecked` counters do not wrap here: they are at most the batch length.
- UTF-8 internals: decoding is a parameter, and the call data writer gets the URI as bytes.
- Python's lenient `int(body, 16)` and `int(text)` (underscores, signs, spaces): bodies are hex digits and numbers are decimal digits with an optional minus.
- Lower-casing beyond ASCII.
- Attestation.BatchRoundTrip: numbers, lengths and the text itself are below 2^256, because the writer does not bound numbers and `Attestation.WordUintIsOneWord` shows that it then leaves the word layout.
- Attestation.DocRoundTrip: the same bounds, for the same reason.
- Attestation.PayloadIsPreimage: that the writer's constant is the keccak of the type string is a hypothesis, since keccak is not modelled.
- EndToEnd.RecordedIsListed: the contract's logs are all in the current event shape; the legacy shape is decoded, but no ledger of it is modelled.
- CrashSafety.CrashSafeResume: appends are record-granular; a JSON line torn in the middle is not modelled, nor are blank lines, syntax errors and JSON values other than text and numbers.
- Store.EventStore.Run: the scan is computed before the first write rather than interleaved with it; the files cannot tell the difference. The key set is passed in and out as a value, and the write order of the two files is the model's notion of durability.
- Scanner.EndsExactlyWhenRelenting: Python's recursion limit is a parameter (`depth`), and "ends" means for some depth; real stack sizes are not modelled.
- Index.BuildIndexLoop: an index record is its event under other field names, and the groups are taken in the sorted order of their reference texts rather than by sorting the dictionary.
- The progress callback, the checkpoint's time stamp and atomic file replacement.
- Profile rules (canonical branch, parent existence, delegation): the contract does not check that a parent was recorded, so nothing is claimed about it.
- Key management, `cast` subprocesses, secret redaction and argument parsing. Of the typed data for wallets only the member lists and what they hash to are modelled, not its JSON form or the normalisation of its texts.
- The `scripts/` directory: its submission script carries a copy of the call data writer modelled here, its other scripts run the modules modelled here from the command line, compare files, or deploy the contract.
