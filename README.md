# Storage subnet: miner block handler and validator chunking, in Dafny

This project models two parts of the storage subnet. The first is the
miner's block-header handler. It is called once per new block. It first
looks up and forgets the extrinsic it submitted at the previous epoch
boundary. On an epoch boundary it then sets the miner's self-weight on
chain, records the new pending extrinsic and refreshes its storage
statistics. The second part is the validator's chunking arithmetic. That
covers splitting data into chunks, choosing a chunk size, and partitioning
and combining uids into groups of `R` (the redundancy factor). It also
covers the per-chunk metadata of a file, the loop that reuses uid groups,
and the uid availability filter.

Files:

- `wrappers.dfy` defines `Option` and `Result`.
- `py_math.dfy` defines Python's floor `//` and `%`, ceiling division, the
  two exceptions that appear (`ValueError`, `ZeroDivisionError`) and small
  arithmetic lemmas.
- `miner_handler.dfy` holds the handler. `HandleBlock` is its pure
  specification and returns the new pending pair, the result and the calls
  issued. The class `BlockHandler` stores the pending pair in fields, and
  its `OnBlock` method is proved against `HandleBlock`.
- `miner_subscription.dfy` models the subscription as a run of the handler
  over a stream of block headers.
- `chunking.dfy` covers `chunk_data_generator`, `partition_uids`,
  `adjust_uids_to_multiple`, the metadata loop and the group-reuse loop.
- `combinations.dfy` covers `math.comb`, `itertools.combinations` and
  `generate_efficient_combinations`.
- `chunk_size.dfy` covers `optimal_chunk_size`, `optimal_chunk_size2` and
  the clamp of `compute_chunk_distribution`.
- `distribution.dfy` covers `pre_process_chunk_distribution_file` end to
  end.
- `reuse.dfy` covers the start of
  `compute_chunk_distribution_mut_exclusive_numpy_reuse_uids` and its
  reuse loop, as written and with a negative redundancy refused.
- `uid_selection.dfy` covers `check_uid_availability` and the candidate
  filter of `get_random_uids`.

Every chain interaction of the handler is an input outcome:

- whether `retrieve_extrinsic_by_hash` returned or raised;
- whether composing, signing and submitting returned an extrinsic hash or
  raised;
- whether `update_storage_stats` returned or raised.

The value of `should_exit` at each call is also an input.

Python semantics are written out:

- floor division and modulo;
- `range` with a zero step (ValueError) or a negative step (empty);
- slice clamping and `zip` truncation;
- `math.comb` is 0 when k > n and raises for a negative k;
- `itertools.combinations` lists selections in lexicographic order of
  positions.

Three behaviours of the handler are easy to misread, so they are spelled
out here:

- The pending pair is cleared only after `retrieve_extrinsic_by_hash`
  returns (storage/miner/run.py:91-93). If the lookup raises, the exception
  leaves the handler and the pair stays recorded.
- No exception from the lookup, the submission or `update_storage_stats` is
  caught. Each one ends the subscription (`HandlerResult.Raised`,
  `RunEnd.Failed`).
- A block is a boundary when `(block + netuid + 1) % (tempo + 1) == 0`. With
  netuid 1 and tempo 99, block 98 is a boundary and block 97 is not.
  `BoundaryExamples` proves both facts.

## Model

| member | source | states |
|---|---|---|
| MinerHandler.HandleBlock | storage/miner/run.py:79-132 | One handler call. It stops only on a boundary with `should_exit` set, looks up a pending pair first, and issues at most three calls. Its other properties are the lemmas below, from `SubmitsIffBoundary` to `ReconcileOnNextCall`. |
| MinerHandler.SubmitsIffBoundary | storage/miner/run.py:90-119 | A call submits exactly when `(block + netuid + 1) % (tempo + 1) == 0` and the lookup of the earlier pair (if any) returned. It submits at most once, and only the self-weight call. |
| MinerHandler.SubmissionParameters | storage/miner/run.py:101-119 | The submitted call has dests `[my_subnet_uid]`, weights `[65535]`, the configured netuid, version key 1, era period 100, and waits for neither inclusion nor finalization. |
| MinerHandler.NonBoundaryIsQuiet | storage/miner/run.py:90-132 | Off a boundary, a call only issues lookups. It never submits, never refreshes the statistics, never stops, and leaves the pending pair unchanged or empty. It continues unless the lookup raised. |
| MinerHandler.ReconcileUsesStoredPair | storage/miner/run.py:90-93 | With a pair pending, the first call issued looks up exactly that (block hash, extrinsic hash). After a lookup that returned, off a boundary, nothing is pending. A lookup that raised keeps the pair and ends the call. |
| MinerHandler.RecordsOnlyAfterReconcile | storage/miner/run.py:90-122 | A new pair is recorded iff the call is a boundary, the lookup returned and the submission returned. The pair is (this header's hash, the returned extrinsic hash). Any earlier pair was looked up first in the same call, so at most one pair is ever pending. |
| MinerHandler.FailedSubmissionRecordsNothing | storage/miner/run.py:115-128 | A submission that raises leaves nothing pending, skips the statistics refresh, and the exception escapes. |
| MinerHandler.StopsOnlyAtBoundary | storage/miner/run.py:124-132 | The handler returns `True` iff the call is a boundary, every interaction returned and `should_exit` is set. The statistics refresh is then the last call issued. |
| MinerHandler.HandleBlockKeepsPaired | storage/miner/run.py:87-122 | The two captured variables are always both set or both empty. |
| MinerHandler.ReconcileOnNextCall | storage/miner/run.py:90-122 | The pair recorded at a boundary is looked up by the very next call, with that header's hash and the returned extrinsic hash. |
| MinerHandler.BlocksUntilBoundary | storage/miner/run.py:96 | The next boundary from any block is at most `tempo` blocks away, and no block before it is a boundary. |
| MinerHandler.BoundaryExamples | storage/miner/run.py:84-96 | With netuid 0 and tempo 99, block 99 is a boundary and block 100 is not. With netuid 1, block 98 is a boundary and block 97 is not. From block 0 the boundary is 99 blocks away. |
| MinerHandler.BlockHandler.constructor | storage/miner/run.py:72-77 | The handler starts with nothing pending and nothing issued. `tempo` is fixed at construction and is a constant. |
| MinerHandler.BlockHandler.OnBlock | storage/miner/run.py:79-132 | One call updates the two fields, returns the result and appends the calls issued to the log, exactly as `HandleBlock` specifies. It keeps the fields paired. |
| MinerSubscription.Run | storage/miner/run.py:134 | The subscription stops only at a delivered header whose `should_exit` was set. A stop or failure index lies inside the stream. |
| MinerSubscription.NothingAfterStop | storage/miner/run.py:131-134 | Once the handler returned `True` or raised, later headers change nothing. |
| MinerSubscription.RunKeepsPaired | storage/miner/run.py:87-122 | A whole run keeps the pending pair set and cleared together. |
| MinerSubscription.NoSubmissionOffBoundary | storage/miner/run.py:90-132 | While no header is a boundary, the run issues only lookups and never stops. |
| MinerSubscription.IdleThen | storage/miner/run.py:90-134 | With nothing pending, a prefix of non-boundary headers issues no call and leaves the rest of the run unchanged, only shifting where it ends. |
| MinerSubscription.IdleOffBoundary | storage/miner/run.py:90-96 | With nothing pending and no boundary header, a run issues no call and keeps going. |
| MinerSubscription.StopsAtFirstBoundary | storage/miner/run.py:96-134 | If every interaction returns, the run stops at the first boundary header delivered while `should_exit` is set. |
| MinerSubscription.StopsWithinOneEpoch | storage/miner/run.py:96-134 | On consecutive blocks, with `should_exit` set and every interaction returning, the run stops at the first boundary, after at most `tempo + 1` headers. |
| MinerSubscription.EndToEndScenario | storage/miner/run.py:79-134 | With tempo 99, netuid 0 and uid 5, blocks 0-98 issue nothing. Block 99 submits weight 65535 to uid 5, refreshes the statistics and records the pair. Block 100 looks that pair up and forgets it. |
| MinerSubscription.FailedSubmissionEndsRun | storage/miner/run.py:115-134 | A submission that raises ends the subscription with nothing recorded. |
| Chunking.Chunks | storage/validator/utils.py:51-52 | There are ceil(n / size) slices. Each is non-empty and at most `size` long, and all but the last are exactly `size` long. |
| Chunking.ChunksConcat | storage/validator/utils.py:51-52 | Joining the chunks gives back the data. |
| Chunking.ChunkAt | storage/validator/utils.py:51-52 | Chunk k is `data[k*size : k*size + size]` and starts inside the data. |
| Chunking.ChunkShift | storage/validator/utils.py:51-52 | Chunk k - 1 of the data after its first chunk is the slice of the whole data that starts at k*size. |
| Chunking.ExactChunkAt | storage/validator/utils.py:51-52 | When `size` divides the length, chunk k is exactly `data[k*size : k*size + size]`. |
| Chunking.ExactChunks | storage/validator/utils.py:51-52 | When `size` divides the length, there are length / size chunks, each exactly `size` long. |
| Chunking.ChunkDataGenerator | storage/validator/utils.py:40-52 | Chunk size 0 raises ValueError and a negative size yields nothing. A positive size yields ceil(len / size) chunks that join back to the data, none longer than the size and all but the last exactly that size. |
| Chunking.PartitionUids | storage/validator/utils.py:628-639 | `R` = 0 raises ValueError and a negative `R` gives no group. A positive `R` gives ceil(n / R) groups that join back to the uids, all but the last of size `R`, and all of size `R` when `R` divides n. |
| Chunking.AdjustUidsToMultiple | storage/validator/utils.py:642-658 | `R` = 0 raises ZeroDivisionError. A positive `R` gives a prefix whose length is a multiple of `R` and drops fewer than `R` uids. A negative `R` gives the whole list. |
| Chunking.AdjustedPartitionIsExact | storage/validator/utils.py:869-876 | Trimming and then partitioning gives n // R groups of exactly `R` uids, which join back to the kept prefix. |
| Chunking.NumChunks | storage/validator/utils.py:880 | The count formula is ceil(data_size / chunk_size) for a positive size and at most 0 for a negative one. |
| Chunking.PreProcessChunkMetadata | storage/validator/utils.py:877-891 | There is one entry per chunk. Entry i starts at `i * chunk_size`, has length `chunk_size` and is stored by `uid_groups[i % len(uid_groups)]`. A zero chunk size, or a non-empty file with no uid group, raises ZeroDivisionError. |
| Chunking.MetadataAddressesChunks | storage/validator/utils.py:880-889 | There are as many metadata entries as chunks, and entry k reads exactly chunk k of the data. |
| Chunking.CyclicSnoc | storage/validator/utils.py:753-759 | Cycling through the initial groups one step further appends group n mod len(initial). |
| Chunking.ReuseUidGroups | storage/validator/utils.py:750-759 | The group list ends with length max(len(initial), needed). The initial groups stay in front, and group i is `initial[i % len(initial)]`. |
| Chunking.TrailingChunkDropped | storage/validator/utils.py:754-767 | As written, the last chunk gets no uid group exactly when it is partial and there are at least as many full chunks as initial groups. Exactly one chunk is then lost. |
| Chunking.TrailingChunkDroppedExample | storage/validator/utils.py:754-767 | Three bytes in chunks of two with one group yield only the first chunk. |
| Chunking.ReuseDistributesEveryChunk | storage/validator/utils.py:754-767 | With the count rounded up, every chunk is distributed and chunk k goes to initial group k mod len(initial). |
| Combinations.Comb | storage/validator/utils.py:538 | comb(n, k) is 0 exactly when k > n. |
| Combinations.Selections | storage/validator/utils.py:410 | There are comb(n - lo, k) position lists when choosing k of the positions [lo, n). |
| Combinations.SelectionsAreSelections | storage/validator/utils.py:410 | Every listed position list has k strictly increasing positions in [lo, n). |
| Combinations.SelectionsComplete | storage/validator/utils.py:410 | Every strictly increasing choice of k positions in [lo, n) is listed. |
| Combinations.SelectionsSorted | storage/validator/utils.py:410 | The position lists come in strictly increasing lexicographic order, as `itertools.combinations` emits them. |
| Combinations.SelectionsDistinct | storage/validator/utils.py:410 | No position list is listed twice. |
| Combinations.Combinations | storage/validator/utils.py:410 | `combinations(s, k)` has comb(len(s), k) entries. Entry i is the k elements of `s` at the i-th increasing choice of positions. |
| Combinations.CombinationsComplete | storage/validator/utils.py:410 | Every choice of k elements of `s` taken in input order is one of the combinations. |
| Combinations.CombinationsDistinct | storage/validator/utils.py:410 | When `s` has no repeated element, no two combinations are equal. |
| Combinations.GenerateEfficientCombinations | storage/validator/utils.py:389-412 | ValueError iff R > len(uids), or R < 0 (from `combinations`). Otherwise the result is `combinations(uids, R)`, with comb(n, R) > 0 groups. |
| Combinations.GenerateEfficientCombinationsAll | storage/validator/utils.py:389-412 | Over distinct uids, every group of R uids taken in input order is produced, and no group is produced twice. These are all possible combinations, as the docstring promises. |
| ChunkSize.OptimalChunkSize | storage/validator/utils.py:468-514 | `R` = 0 raises ZeroDivisionError. The result is at least the minimum and, when min <= max, at most the maximum. With no chunk slot (`n // R <= 0`) the result is max(min, max). |
| ChunkSize.OptimalChunkSizeFits | storage/validator/utils.py:499-514 | When the ideal size lies inside the bounds, the result is the largest size of which `n // R` chunks fit in the data. |
| ChunkSize.OptimalChunkSize2 | storage/validator/utils.py:517-544 | A negative `R` raises ValueError (from `comb`). The result never exceeds the data size and is the whole data when under 32 MiB or R > n. Otherwise it is at least 32 MiB. |
| ChunkSize.OptimalChunkSize2Fits | storage/validator/utils.py:538-544 | For data of at least 32 MiB and R <= n, the result is the largest size of which `min(data // 32 MiB, comb(n, R))` chunks fit in the data. |
| ChunkSize.ClampedChunkSize | storage/validator/utils.py:603-614 | After the clamp the chunk size is at most the data size and positive iff the data is non-empty. Chunking then yields ceil(len / size) chunks, while empty data makes `chunk_data_generator` raise ValueError. |
| Distribution.BlockOfPrefixAt | storage/validator/utils.py:869-876 | A slice `[g*R, g*R + R)` of the kept prefix is the same slice of the full uid list. |
| Distribution.BlocksOfPrefix | storage/validator/utils.py:869-876 | Partitioning a prefix whose length is a multiple of `R` gives, as group g, uids `[g*R, g*R + R)` of the full list. |
| Distribution.PartitionIsBlocks | storage/validator/utils.py:869-876 | For 0 < R <= n, trimming and partitioning gives n // R > 0 groups, and group g is uids `[g*R, g*R + R)`. |
| Distribution.TrimAndPartition | storage/validator/utils.py:869-876 | `R` = 0 raises ZeroDivisionError, `R` > n raises ValueError and a negative `R` gives no group. For 0 < R <= n the groups are the n // R consecutive blocks of `R` uids. |
| Distribution.EntriesUseBlocks | storage/validator/utils.py:877-889 | When entry i takes group i mod G and the groups are the blocks, entry i is stored by uid block i mod (n // R). |
| Distribution.PreProcessChunkDistribution | storage/validator/utils.py:845-891 | `R` = 0 raises ZeroDivisionError and `R` > len(uids) raises ValueError. Otherwise the chunk size lies in [32 MiB, 256 MiB], there is one entry per chunk, and entry i is stored by uid block i mod (n // R). A negative `R` raises for any non-empty file. |
| Reuse.Passes | storage/validator/utils.py:755-759 | The `while` loop run for at most k passes keeps the groups it starts with in front. Over at least one initial group, a single pass reaches max(len, needed) groups. `EmptyCycleNeverEnds` and `PassIsCyclic` carry the rest. |
| Reuse.PassIsCyclic | storage/validator/utils.py:755-759 | Over at least one initial group, one pass gives the groups read cyclically from them. This is `Chunking.ReuseUidGroups`'s result, so the two models of the loop agree. |
| Reuse.ReuseSetupAsWritten | storage/validator/utils.py:740-754 | As written: `R` = 0 raises ZeroDivisionError and `R` > n raises ValueError. For 0 < R <= n the groups are the consecutive blocks, and a negative `R` succeeds with no group (see `NegativeRedundancyHangs`). |
| Reuse.OuterPass | storage/validator/utils.py:755-759 | One pass of the outer loop leaves the groups unchanged over no initial group. Otherwise it ends with max(len(groups), needed) groups. |
| Reuse.EmptyCycleNeverEnds | storage/validator/utils.py:755-759 | Over no initial group, no number of passes changes the groups, so a true loop guard stays true. |
| Reuse.OnePassEnds | storage/validator/utils.py:755-759 | Over at least one initial group, a single pass leaves at least `total_chunks_needed` groups, and the loop ends. |
| Reuse.NegativeRedundancyHangs | storage/validator/utils.py:740-759 | As written, a negative `R` with a file of at least 256 MiB reaches the loop with no uid group and at least one chunk needed. The guard then holds after any number of passes. |
| Reuse.ReuseSetup | storage/validator/utils.py:740-751 | With a negative `R` refused: `R` = 0 raises ZeroDivisionError and `R` < 0 or `R` > n raises ValueError. A successful setup always has at least one group, and for 0 < R <= n the groups are the consecutive blocks of `R` uids. |
| Reuse.CyclicBlocks | storage/validator/utils.py:755-759 | Reading the blocks cyclically, group i is block i mod G. |
| Reuse.ReuseUidGroupsFor | storage/validator/utils.py:740-759 | With a negative `R` refused, the reuse loop always ends. It gives max(n // R, needed) groups, and group i is uid block i mod (n // R). |
| UidSelection.CheckUidAvailability | storage/validator/utils.py:123-142 | A uid is available iff its axon is serving and it does not hold a validator permit with stake above the limit. |
| UidSelection.FilterOfExcludedIsEmpty | storage/validator/utils.py:279-281 | Filtering the excluded-available list by `exclude` leaves nothing. |
| UidSelection.GetRandomUidsPoolDefault | storage/validator/utils.py:248-288 | With the default `exclude` list, the candidates are exactly the available uids outside 8-13, and the second list holds exactly the available uids 8-13. |
| UidSelection.GetRandomUidsPool | storage/validator/utils.py:248-287 | The candidates are exactly the available, non-excluded uids, in increasing order. The second list holds exactly the available excluded uids, so the supplement adds nothing and no excluded uid is returned. The sample size is min(k, candidates). |

## Left out

- Chain client: `SubstrateInterface`, `query` of `Tempo`, `compose_call`,
  `create_signed_extrinsic`, `submit_extrinsic`, `retrieve_extrinsic_by_hash`
  and `subscribe_block_headers` are network I/O. Their results are inputs
  (the outcomes of each call, `tempo` at construction, the stream of
  headers). The receipt the lookup returns is only logged, so it is not
  modelled.
- The registration check and `exit()` before the subscription, the logging,
  and wandb are side effects with no bearing on the handler's state.
- `update_storage_stats` is only an outcome: returned or raised.
- The submit response is taken to always carry an extrinsic hash. A failed
  submission is the `SubmitRaised` outcome. The `if response:` at
  storage/miner/run.py:124 only logs.
- `KeyboardInterrupt` and concurrency between the handler and the rest of
  the miner are out of scope. Each delivery's `should_exit` is an input.
- storage/validator/verify.py is not part of this model. Its checks delegate
  to hashing, commitment and Merkle code that is not available.
- Randomness: `random.sample` in `get_random_uids`. The final sample of
  `num_to_sample` candidates is not modelled; only its size is. The
  supplement's sample is modelled as the first `min(needed, len(filtered))`
  filtered uids, which is exact because that list is proved empty. The
  shuffles, lognormal file sizes, random files, random chunk sizes and
  pseudorandom uids are not modelled either.
- UidSelection.GetRandomUidsPool: the final `random.sample(candidate_uids,
  num_to_sample)` (with `random` from `Crypto.Random`, which is not part of
  this model) is not modelled. The method gives `num_to_sample` itself, which
  is negative for a negative `k`. The metagraph is only the three fields the
  filter reads.
- Chain, tensor and miner-listing helpers (`get_block_seed`,
  `get_query_miners`, `get_all_validators`, ...) are not modelled. Their
  results, such as the uid list of `pre_process_chunk_distribution_file`,
  are inputs.
- ChunkSize.OptimalChunkSize: the source divides with `/` on floats and then
  truncates. The model uses the floor division of naturals. That is exact in
  real arithmetic but ignores float rounding for very large sizes.
- `optimal_chunk_size3` is not modelled, since it divides by zero when fewer
  uids than `R` are available. `compute_chunk_distribution_mut_exclusive_numpy_reuse_uids2`
  reads an undefined name and is not modelled either.
- File reads (`os.path.getsize`, `open`, `load_chunk`), hashing of chunks,
  numpy arrays and the dictionaries yielded are not modelled. Sizes and
  sequences stand in for them.
- The rest of `compute_chunk_distribution` (indexing the shuffled
  combinations by chunk) and the other `compute_chunk_distribution_*`
  variants are not modelled. Only their shared arithmetic is.
- Chunking.ReuseUidGroups requires a non-empty initial group list whenever
  more chunks are needed. With no group, the source loops forever. A
  positive `R` always leaves a group, and `R` = 0 raises first. A negative
  `R` does reach the loop with no group and hangs on any file of at least
  256 MiB (see Findings). The model then uses `Reuse.ReuseSetup`, which
  refuses a negative `R`.

## Findings

| source | as written | input that shows it | evidently intended | confidence | as-written member | corrected member |
|---|---|---|---|---|---|---|
| storage/validator/utils.py:754 | `total_chunks_needed = data_size // chunk_size` rounds down, and the `zip` at line 765 then drops a trailing partial chunk that has no uid group | 3 bytes, chunk size 2, one uid group: chunks `[1,2]` and `[3]`, but only `[1,2]` is distributed | count chunks rounded up, as line 880 does, so that every chunk is distributed | not executed | Chunking.TrailingChunkDropped | Chunking.ReuseDistributesEveryChunk |
| storage/validator/utils.py:740-759 | a negative `R` passes the check `R > len(available_uids)` at line 744. `adjust_uids_to_multiple` keeps every uid and `partition_uids` returns no group, while `optimal_chunk_size` gives 256 MiB, so `total_chunks_needed` is positive for a file of at least 256 MiB. `for group in cycle([])` then appends nothing, and the `while` loop never ends | R = -1, any uids, a 256 MiB file: no group, one chunk needed, the loop spins forever | raise ValueError for a negative `R` next to the `R > len(available_uids)` check, so that the reuse loop always has a group to cycle through | not executed | Reuse.NegativeRedundancyHangs | Reuse.ReuseUidGroupsFor |
