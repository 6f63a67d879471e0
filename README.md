# Q-Fetcher learning engine in Dafny

Q-Fetcher is a cache prefetcher that learns which address delta to prefetch
with tabular Q-learning. This project models its learning engine and proves
properties of the model:

- **Signature hashing** (`signature_hash.dfy`, module `SignatureHashing`). A
  delta is folded into a bounded signature by shifting left, XOR-ing in the
  delta's variable-width sign-magnitude code, and masking to
  `signature_bits` bits. Python's unbounded `&`, `^`, `bin` and
  `int(s, base=2)` are modelled in `bits.dfy` (module `BitOps`) by div/mod
  recursion on naturals. The `Option` and `Result` values of the error
  paths are in `results.dfy` (module `Results`).
- **LRU replacement** (`replacement_policy.dfy`). The victim is the first
  slot with the smallest valid bit when some slot is not valid. Otherwise it
  is the first slot with the smallest timestamp, as numpy's `argmin` picks
  it.
- **The delta Q-table** (`delta_q.dfy`). This is a class over an
  `array2<real>` with
  - the constructor's checks as a `Result`;
  - the delta/column conversion;
  - epsilon-greedy offset selection, with the random draws as parameters;
  - the in-place Q-learning update.

  The ghost `Snapshot()` gives the table's contents as a value. The pure
  `QUpdate` and its fold `ApplyFeedback` specify the update.
- **The reward-tracking table** (`reward_tracker.dfy`). This is a class
  over an `array<Row>` of seven-column rows with a logical clock and a
  reference to the Q-table. Its methods follow the source's passes
  (`_invalidate_entries`, `_increment_steps`, `_issue_rewards`,
  `_update_existing`, `check_n_give_reward`, `insert`). Each source method's
  masked numpy assignments are loops over the rows. Where a source method
  does several passes, each pass is a method of its own:
  - `FlushExpired` and `ClearExpired` are the two halves of
    `_invalidate_entries`;
  - `PenalizeValid`, `CancelPenalties` and `CreditSemiHits` are the passes
    of `_issue_rewards`;
  - `ReplaceVictim` and `PlaceEntry` are the tail of `insert`.

  Each method is proved against pure transition functions: `Lookup`,
  `Rewarded`, `ExpireAll`, `AgeAll`, `ExpiredFeedback`, `PlaceStep`,
  `InsertStep` and `CheckStep`. The properties of `insert` and
  `check_n_give_reward` are lemmas about those functions.
- **Address preprocessing** (`process_trace.dfy`). A hexadecimal address is
  split into a tag and a block id at `int(log2(cache_line_size))` bits.

The model keeps the source's quirks:
- invalid rows age too;
- expiry clears only the valid bit;
- the clock advances only in `insert`;
- the sign-magnitude code is not injective (-1 and 3 share a code);
- a failed `insert` assertion leaves the table expired and aged.

`insert` also passes the victim's contents to the Q-table whether or not the
victim slot is valid. The comment above that call says this happens only for
a valid entry. A row that expires during an `insert` and is then chosen as
the victim is therefore fed to the Q-table twice (`InsertRefeedsExpiredVictim`).
The model follows the code here.

## Model

| member | source | states |
|---|---|---|
| BitOps.MaskIsMod | utils/signature_hash.py:36-38 | `x & ((1 << k) - 1)` equals `x mod 2^k` |
| BitOps.PowerOfTwoTest | prefetcher/delta_q.py:45-49 | for positive `x`, `x & (x-1) == 0` holds exactly when `x` is a power of two |
| BitOps.BinRoundTrip | utils/signature_hash.py:23-29 | reading back the digits `bin(n)` prints gives `n` |
| BitOps.BinLength | utils/signature_hash.py:11-16 | `bin(m)` has `bit_length(m)` digits, and `2^(len-1) <= m < 2^len` |
| BitOps.FromBinaryLeadingDigit | utils/signature_hash.py:23-29 | a leading digit `c` adds `c * 2^len` to the value read by `int(s, 2)` |
| BitOps.OnesValue | preprocess/process_trace.py:24 | the mask `int('0b' + '1' * k, 2)` is `2^k - 1` |
| SignatureHashing.NewSignatureHash | utils/signature_hash.py:7-16 | the hasher keeps its signature width and shift; `max_bits_per_delta` is `bit_length(max_delta_val) + 1`, and 2 when `max_delta_val` is 0 (`bin(0)` has one digit) |
| SignatureHashing.NextSignature | utils/signature_hash.py:31-38 | the next signature is below `2^signature_bits` and is `(curr << n_shifts) ^ signMag(delta)` reduced mod `2^signature_bits` |
| SignatureHashing.ToSignMagnitude | utils/signature_hash.py:18-29 | a non-negative delta encodes as itself (0 as 0); a negative delta encodes as `abs(delta) + 2^bitlen(abs(delta))`, the sign bit sitting right above the magnitude. `SignMagnitudeBound` and `SignMagnitudeCollision` state its width and that it is not injective |
| SignatureHashing.SignMagnitudeBound | utils/signature_hash.py:18-29 | the code is below `2^(bitlen(abs(delta)) + 1)` |
| SignatureHashing.SignMagnitudeCollision | utils/signature_hash.py:18-29 | the code is not injective: -1 and 3 both encode as 3 |
| ReplacementPolicy.ArgMin | utils/replacement_policy.py:31-33 | `argmin` returns an index of a minimum, and no earlier index holds that minimum |
| ReplacementPolicy.Policy.CheckInvalidEntry | utils/replacement_policy.py:20-22 | true iff some valid bit differs from 1 |
| ReplacementPolicy.Policy.FindVictim | utils/replacement_policy.py:28-35 | the victim is an index in range; with a free slot it is the first index of the minimal valid bit, otherwise the first index of the minimal timestamp |
| ReplacementPolicy.VictimIsFirstFreeSlot | utils/replacement_policy.py:28-31 | with 0/1 valid bits and some 0, the victim is the first slot whose bit is 0 |
| DeltaQ.ValidateConfig | prefetcher/delta_q.py:45-59 | on success, `signature_bits > 1`, the line size is positive, a page holds `page_size // line_size >= 1` blocks, there are `2^signature_bits` rows and `2 * blocks - 1` columns, `largest_delta == blocks - 1`, and `least_delta == -largest_delta`, so there is one column per delta in `[least_delta, largest_delta]` |
| DeltaQ.ValidateConfigSucceedsIff | prefetcher/delta_q.py:45-56 | construction succeeds iff `signature_bits > 1` and page and line sizes are powers of two with the line no larger than the page |
| DeltaQ.PowerOfTwoSizesValid | prefetcher/delta_q.py:44-53 | page and line sizes `2^p >= 2^l` pass the checks with `2^(p-l)` blocks per page, as in the 4096 / 64 = 64 example |
| BitOps.Pow2Quotient | prefetcher/delta_q.py:53 | `2^j // 2^i == 2^(j-i)` for `i <= j` |
| DeltaQ.SeqMaxIsMaximum | prefetcher/delta_q.py:106 | the row maximum bounds every value of the row and occurs in it |
| DeltaQ.DeltaQTable.constructor | prefetcher/delta_q.py:27-65 | the new table has the validated dimensions and bounds, and every cell is 0 |
| DeltaQ.DeltaQTable.Create | prefetcher/delta_q.py:27-65 | construction fails with the first failing check's error, and otherwise yields a fresh well-formed zero table holding the given parameters, sizes and shift, `page_size // line_size` blocks per page and the validated dimensions and delta bounds |
| DeltaQ.DeltaQTable.ColumnIndex | prefetcher/delta_q.py:67-69 | converting a column back gives the delta |
| DeltaQ.DeltaQTable.DeltaFromIndex | prefetcher/delta_q.py:71-73 | on a well-formed table every column maps to a delta in `[least_delta, largest_delta]`; `ColumnBijection` states the converse and the round trips |
| DeltaQ.DeltaQTable.ColumnBijection | prefetcher/delta_q.py:58-73 | the conversions are mutually inverse, and deltas in `[least_delta, largest_delta]` correspond to columns `[0, n_cache_line_offsets)` |
| DeltaQ.DeltaQTable.NextState | prefetcher/delta_q.py:105 | the next signature always indexes a row of the table |
| DeltaQ.DeltaQTable.QUpdateWritesOneCell | prefetcher/delta_q.py:102-110 | an update sets cell `(s, column(delta))` to `old + alpha*(reward + gamma*max(Q[next]) - old)`, with the maximum taken before the write, and changes no other cell |
| DeltaQ.DeltaQTable.ApplyFeedbackSnoc | prefetcher/reward_tracker.py:159-165 | applying samples in order applies the last one to the result of the others |
| DeltaQ.DeltaQTable.ApplyFeedbackAppend | prefetcher/reward_tracker.py:208-226 | feeding one batch of samples and then another equals feeding their concatenation |
| DeltaQ.DeltaQTable.RowArgMax | prefetcher/delta_q.py:85 | `argmax` returns the lowest column that holds the row's maximum |
| DeltaQ.DeltaQTable.GetNextOffset | prefetcher/delta_q.py:75-89 | for a uniform draw in `[0, 1)`, exploring returns the drawn column and exploiting the lowest column of the row's maximum, so epsilon 0 always exploits and epsilon of 1 or more always explores; the delta is in range and maps to that column; the offset is `delta * cache_line_size_bytes` |
| DeltaQ.DeltaQTable.Update | prefetcher/delta_q.py:95-110 | the table afterwards is the Q-learning update of the table before, for this one sample |
| RewardTracker.CountPositive | prefetcher/reward_tracker.py:123 | `mask.sum() > 0` iff some entry of the mask is set |
| RewardTracker.CountAtMostOne | prefetcher/reward_tracker.py:213 | a mask with at most one set entry sums to at most 1 |
| RewardTracker.CountSingle | prefetcher/reward_tracker.py:213 | a mask with exactly one set entry sums to 1 |
| RewardTracker.Lookup | prefetcher/reward_tracker.py:103-125 | the address mask is exactly the valid rows holding the address; the exact mask is those of them with the signature; `found` iff some valid row holds the address |
| RewardTracker.RewardedKeepsKeys | prefetcher/reward_tracker.py:170-184 | rewarding changes no address, delta, signature, step or valid column |
| RewardTracker.RewardsAfterLookup | prefetcher/reward_tracker.py:135-184 | after a lookup, invalid rows are unchanged, other valid rows pay the miss reward, exact matches get the hit reward and the clock as timestamp, and address-only matches get the pseudo-hit reward with their timestamp kept |
| RewardTracker.ExpiredFeedbackInRowOrder | prefetcher/reward_tracker.py:140-168 | expiry feeds each expired row's (signature, delta, reward) exactly once, in row order, and nothing else |
| RewardTracker.ExpiredFeedbackFits | prefetcher/reward_tracker.py:159-165 | every sample expiry feeds indexes the Q-table |
| RewardTracker.FlushedIsApplyFeedback | prefetcher/reward_tracker.py:157-165 | updating the Q-table row by row for the expired rows equals applying their samples in order |
| RewardTracker.ExpiryClearsOnlyValidBits | prefetcher/reward_tracker.py:147-168 | expiry clears the valid bit of exactly the valid rows with `step >= steps_per_entry` and changes no other column |
| RewardTracker.PlaceStepFits | prefetcher/reward_tracker.py:211-234 | after lookup, rewards and replacement, rows still index the Q-table, and so does the victim's sample |
| RewardTracker.InsertStepFits | prefetcher/reward_tracker.py:202-236 | `insert` keeps rows indexing the Q-table, and every sample it feeds indexes it |
| RewardTracker.PreparedKeepsPairsUnique | prefetcher/reward_tracker.py:208-209 | expiry and ageing keep (address, signature) pairs unique among valid rows |
| RewardTracker.RewardedKeepsExactMatches | prefetcher/reward_tracker.py:170-184 | rewarding leaves the lookup's exact matches unchanged and keeps pairs unique |
| RewardTracker.OverwriteWithNewPair | prefetcher/reward_tracker.py:228-234 | writing a valid row for a pair that no valid row holds leaves exactly one row with that pair, and keeps pairs unique if they were |
| RewardTracker.InsertKeepsPairsUnique | prefetcher/reward_tracker.py:211-234 | with unique pairs, `insert`'s assertion holds, afterwards exactly one valid row holds `(pref_addr, delta_signature)`, and pairs stay unique |
| RewardTracker.InsertRecordsPair | prefetcher/reward_tracker.py:211-234 | whenever `insert`'s assertion holds, exactly one valid row holds `(pref_addr, delta_signature)` afterwards |
| RewardTracker.InsertBoundsAge | prefetcher/reward_tracker.py:131-168 | after `insert`, every valid row's step is at most `steps_per_entry` |
| RewardTracker.InsertAgesEveryRow | prefetcher/reward_tracker.py:131-168 | every row not overwritten is one step older, keeps its address, delta and signature, and loses its valid bit exactly when it had expired |
| RewardTracker.InsertOverwritesVictim | prefetcher/reward_tracker.py:216-236 | with no exact match, the victim is chosen before rewards and overwritten with the new row; its rewarded contents are fed after the expired rows', other rows are as rewarded, and the clock advances by 1 |
| RewardTracker.InsertRefeedsExpiredVictim | prefetcher/reward_tracker.py:208-226 | a row that expires in this `insert` and is then the victim is fed to the Q-table twice |
| RewardTracker.LruVictimOfTable | prefetcher/reward_tracker.py:216-217 | on a table with 0/1 valid bits, the victim is the first invalid row, or else the first row with the smallest timestamp |
| RewardTracker.CheckWithoutMatchIsNoOp | prefetcher/reward_tracker.py:186-199 | `check_n_give_reward` leaves the table unchanged when no valid row holds the address |
| RewardTracker.EmptyTableHasUniquePairs | prefetcher/reward_tracker.py:87-93 | the zero-filled table the constructor creates has unique pairs (it has no valid row) |
| RewardTracker.CheckKeepsPairsUnique | prefetcher/reward_tracker.py:186-199 | `check_n_give_reward` keeps (address, signature) pairs unique, so with the two lemmas above `insert`'s assertion never fails on a constructed table |
| RewardTracker.CheckKeepsKeys | prefetcher/reward_tracker.py:186-199 | `check_n_give_reward` never changes the address, delta, signature, step or valid column |
| RewardTracker.RewardTrackerTable.constructor | prefetcher/reward_tracker.py:61-101 | a zero-filled table of `n_entries` rows, the given rewards (by default 16, 8 and -1), the LRU policy and the clock at 0 |
| RewardTracker.RewardTrackerTable.IncrementTicks | prefetcher/reward_tracker.py:127-129 | the clock advances by one |
| RewardTracker.RewardTrackerTable.IncrementSteps | prefetcher/reward_tracker.py:131-133 | every row's step grows by one, valid or not, and nothing else changes |
| RewardTracker.RewardTrackerTable.UpdateExisting | prefetcher/reward_tracker.py:135-138 | masked rows get the clock as timestamp and the hit reward; other rows are unchanged |
| RewardTracker.RewardTrackerTable.FlushExpired | prefetcher/reward_tracker.py:147-165 | the Q-table afterwards has been updated by the expired rows' samples in row order |
| RewardTracker.RewardTrackerTable.ClearExpired | prefetcher/reward_tracker.py:168 | exactly the expired rows lose their valid bit |
| RewardTracker.RewardTrackerTable.InvalidateEntries | prefetcher/reward_tracker.py:140-168 | the table is expired, and the Q-table has applied the expired rows' samples in row order |
| RewardTracker.RewardTrackerTable.PenalizeValid | prefetcher/reward_tracker.py:172-173 | every valid row pays the miss reward |
| RewardTracker.RewardTrackerTable.CancelPenalties | prefetcher/reward_tracker.py:174 | the masked rows get the miss reward back |
| RewardTracker.RewardTrackerTable.CreditSemiHits | prefetcher/reward_tracker.py:177-183 | the masked rows get the pseudo-hit reward |
| RewardTracker.RewardTrackerTable.IssueRewards | prefetcher/reward_tracker.py:170-184 | the table becomes the rewarded table for the given lookup |
| RewardTracker.RewardTrackerTable.CheckNGiveReward | prefetcher/reward_tracker.py:186-199 | the table becomes `CheckStep` of the old table; the clock and the Q-table do not change |
| RewardTracker.RewardTrackerTable.ReplaceVictim | prefetcher/reward_tracker.py:223-234 | the victim's old sample is applied to the Q-table, and the slot then holds the new row with the hit reward, step 0, the clock and valid bit 1 |
| RewardTracker.RewardTrackerTable.PlaceEntry | prefetcher/reward_tracker.py:211-236 | rows, clock, outcome and Q-table afterwards are those of `PlaceStep` on the aged table |
| RewardTracker.RewardTrackerTable.Insert | prefetcher/reward_tracker.py:202-236 | rows, clock and outcome afterwards are those of `InsertStep`, and the Q-table has applied its samples in order |
| ProcessTrace.ParseHex | preprocess/process_trace.py:23 | a value exists iff the text after an optional `0x` is a non-empty run of hex digits |
| ProcessTrace.HexRoundTrip | preprocess/process_trace.py:23 | the hex digits of any natural number parse back to that number |
| ProcessTrace.PrefixIgnored | preprocess/process_trace.py:23 | a `0x` prefix does not change the parsed value |
| ProcessTrace.Log2Floor | preprocess/process_trace.py:19-21 | `int(log2(x))` is 0 exactly for `x == 1` |
| ProcessTrace.Log2FloorBounds | preprocess/process_trace.py:19 | `2^k <= x < 2^(k+1)` for `k = int(log2(x))` |
| ProcessTrace.Log2FloorOfPow2 | preprocess/process_trace.py:19 | on `2^k` the logarithm is exactly `k` |
| ProcessTrace.PreprocessAddress.Preprocess | preprocess/process_trace.py:17-29 | a line size below 2 fails on the line size; otherwise a malformed address fails on the address |
| ProcessTrace.PreprocessSplitsAddress | preprocess/process_trace.py:19-29 | on success the block id is `address mod 2^block_bits` and below the line size, the tag is `address div 2^block_bits`, and `tag * 2^block_bits + block == address` |
| ProcessTrace.PreprocessPowerOfTwoLine | preprocess/process_trace.py:19-29 | with a line size of `2^k`, `k > 0`, a parsable address splits into `(address div 2^k, address mod 2^k)` |

## Left out

- `prefetcher/qfetcher.py`, `main.py`, `utils/config_parser.py`, `utils/output_writer.py`: process wiring and file I/O with no algorithm of their own. They are not part of this model.
- `PreprocessLoadTrace` in `preprocess/process_trace.py`: pandas CSV reading and `exit(1)` on a missing file, which is I/O.
- `DeltaQ.DeltaQTable.GetNextOffset`: the uniform draw and the explored column are parameters instead of calls to numpy's generator, so no probabilities are modelled.
- Q-values are `real`, and `alpha`, `gamma` and `epsilon` are reals. float64 rounding is not modelled.
- Reward, step and timestamp columns are unbounded integers. The wrap-around of the int64 numpy table is not modelled.
- `DeltaQ.DeltaQTable.Update`: requires the signature to be a row and the delta to have a column. numpy would wrap a negative index or raise on an index past the end, and neither is modelled.
- `RewardTracker.RewardTrackerTable.Insert`: requires the new (signature, delta) to index the Q-table, and the class invariant keeps every row so, for the same reason as `Update`.
- `RewardTracker.RewardTrackerTable.constructor`: requires `n_entries > 0`, because `argmin` on an empty table raises. `steps_per_entry` is a natural number.
- `DeltaQ.DeltaQTable.GetNextOffset`: requires the signature to be a row, the drawn column to be a column and the uniform draw to lie in `[0, 1)`, the range `np.random.uniform()` draws from.
- The Q-table's effect is stated on its contents: after `insert`, the table equals the fold of the updates over the sequence of samples. The calls themselves are not logged, so two sample sequences with the same combined effect are not distinguished at the method level. The order and multiplicity of the samples are stated by `ExpiredFeedbackInRowOrder`, `InsertOverwritesVictim` and `InsertStep`.
- The base class with an abstract `find_victim` becomes a datatype with the single variant `LRU`; another policy would be another variant.
- `get_signature_hasher` only returns a field; the field is readable directly.
- `DeltaQ.DeltaQTable.constructor`: `signature_shift` is a natural number; a negative shift, which the constructor accepts, is not modelled.
- `insert`'s failing assertion is the outcome `MultipleMatches` instead of an exception. The table is then left expired and aged, as the source leaves it.
- `ProcessTrace.ParseHex`: accepts only an optional `0x`/`0X` prefix followed by hex digits. Python's `int(s, 16)` also accepts a sign, surrounding whitespace, underscores between digits and non-ASCII Unicode decimal digits (`int('١٢', 16) == 18`); on such text the model reports `InvalidAddress`.
- `ProcessTrace.PreprocessAddress.Preprocess`: a line size of 0 makes `int(np.log2(0))` raise before the assertion; the model reports it as `InvalidCacheLineSize` like a line size of 1. Sizes just below a power of two from `2^49` on are rounded up by float64 `log2` (`int(log2(2**49 - 1)) == 49`, where the model's exact floor gives 48); the model does not reproduce that rounding.
