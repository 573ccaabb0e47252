# Proof-of-stake kernel

A Dafny model of the proof-of-stake kernel of a PPCoin/PIVX-lineage coin
(`src/kernel.cpp`). The kernel decides whether a coin may stake a block. It covers:

- **V1 stake modifier.** A 64-bit value regenerated once per modifier interval.
  Each of its bits is the entropy bit of a block picked, round by round, from a
  window of recent blocks. The pick goes to the block with the smallest
  selection hash.
- **V2 stake modifier.** A 256-bit hash chained from block to block.
- **Kernel modifier lookup.** Finding the modifier a coin must hash with: the
  first modifier generated a whole selection interval after the coin's block.
- **Target test.** The stake hash must be below `value / 100` times the target.
- **Kernel checks.** The V1 and V2 kernel checks, each with a single-shot check
  mode and a search mode. Search mode tries candidate transaction times until
  one hits the target.
- **Block validation.** `CheckProofOfStake`, which validates a coinstake block,
  and `CheckCoinStakeTimestamp`.

Modules:

| module | file | contents |
|---|---|---|
| `Common` | `common.dfy` | `Option`/`Result`; fixed-width integers; `U32` (reduction modulo 2^32); `ToInt32` (two's complement into `int`) |
| `Arith` | `arith.dfy` | division and multiplication facts used by the proofs |
| `Serial` | `serial.dfy` | little-endian serialization and the five hash preimages; each preimage determines its fields |
| `Intervals` | `intervals.dfy` | interval version, selection sections, the selection interval |
| `ChainIndex` | `chain.dfy` | block index records; the walk back to the last modifier; the walk forward to the kernel modifier |
| `Selection` | `selection.dfy` | candidate ordering; the selection hash; `SelectBlockFromCandidates` |
| `StakeModifier` | `modifier.dfy` | `ComputeStakeModifierV2` and `ComputeNextStakeModifier` |
| `Kernel` | `kernel.dfy` | `stakeTargetHit`, `stakeHash`, and both kernel checks with their search loops |
| `ProofOfStake` | `pos.dfy` | `CheckProofOfStake` and `CheckCoinStakeTimestamp` |

How the source's state is represented:

- **Block pointers.** A `CBlockIndex*` walked through `pprev` is the sequence of
  its ancestors, ending with it. The null pointer is the empty sequence.
- **Chain state.** `chainActive` is a sequence indexed by height, and
  `mapBlockIndex` is a map from block hash to record.
- **Oracles.** The hash function, `SetCompact`, `GetTransaction`, `VerifyScript`,
  `ReadBlockFromDisk` and the spork value are parameters.
- **Height polling.** The search loops re-read `chainActive.Height()` so that a
  new tip can interrupt them. These readings are a given function
  `poll: nat -> int` (the `k`-th reading). A real counter in each loop says which
  reading comes next.
- **C++ integer semantics.** Unsigned arithmetic that can wrap is reduced
  modulo 2^32 (`U32`). Values stored into a signed `int` go through `ToInt32`.
  The 256-bit product in `stakeTargetHit` is reduced modulo 2^256.
  `LastHashedBlockHeight` is an `unsigned int`, so the signed height it is
  compared with is first reduced modulo 2^32.

Points of the code that a reader might expect to be otherwise:

- **Section lengths.** The sections of the selection interval grow with the
  section index, because the denominator at `kernel.cpp:57` shrinks as the
  index rises. So later rounds get longer sections
  (`Intervals.SectionsNonDecreasing`).
- **Bucket test.** The test at `kernel.cpp:171` is `>=`, not equality of buckets.
- **Target overflow.** `stakeTargetHit` multiplies in `uint256`, so the product
  wraps. `Kernel.TargetHitWithoutOverflow` gives the range where it does not,
  and there the test is a plain comparison with `weight * target`.
- **Genesis modifiers.** The modifier after a null previous block is 0. The
  block after the genesis block gets the value of the pointer cast at line 158.
  In the model that value is `Config.firstModifier`.

Three consequences of the code as written are proved rather than corrected:

- **The V2 past-times branch never hashes.** When a new tip has arrived and the
  computed difference is at least one stake interval, `HashingStart` is
  negative, provided `nFactor * nStakeInterval` stays below 2^31 (a larger
  product wraps in `int`). The loop compares this signed `int` against an
  `unsigned int`, so the comparison converts it to a huge unsigned value and
  the loop body never runs (`Kernel.PastTimesBranchIsDead`).
- **The same-height branch can start in the past of its own window.** When
  no new tip has arrived, `HashingStart` is one stake interval past
  `LastHashedBlockTime`, measured from the rounded time, so the search only
  tries later times (`Kernel.SameHeightTriesOnlyLaterTimes`). But when the
  rounded time is already more than one interval past `LastHashedBlockTime`,
  that start is negative and, by the same signed/unsigned comparison, the
  search fails without hashing (`Kernel.SameHeightLateStartHashesNothing`).
  How often this happens depends on how the caller updates
  `LastHashedBlockTime`, which lies outside the kernel.
- **V2 rounding can fall below the minimum age.** The V2 search rounds the time
  down to the stake interval but does not repeat the age test. So it can report
  a time that check mode rejects for minimum age
  (`Kernel.RoundingCanUnderrunMinAge`, a concrete instance).

## Model

| member | source | states |
|---|---|---|
| `Intervals.IntervalVersion` | src/kernel.cpp:28-34 | the test-network interval when the flag is set, else the main interval; positive under a valid configuration |
| `Intervals.Section` | src/kernel.cpp:54-59 | a section is the wrapped unsigned product `interval * 63` divided by its denominator, and lies between 0 and one base interval |
| `Intervals.LastSectionIsBaseInterval` | src/kernel.cpp:57 | section 63 equals the base interval when the product does not wrap |
| `Intervals.SectionsNonDecreasing` | src/kernel.cpp:57 | for a ratio of at least 1, a later section is never shorter than an earlier one |
| `Intervals.SumSectionsMonotone` | src/kernel.cpp:64-67 | partial sums of sections are non-negative and grow with the number of sections |
| `Intervals.SumSectionsUpper` | src/kernel.cpp:64-67 | the first n sections add up to at most n base intervals |
| `Intervals.SelectionIntervalBounds` | src/kernel.cpp:62-70 | without wrap-around, the selection interval lies between one and 64 base intervals |
| `Intervals.GetStakeModifierSelectionInterval` | src/kernel.cpp:62-70 | the loop returns the sum of the 64 sections, which is between 0 and 64 base intervals |
| `ChainIndex.NearestGenerated` | src/kernel.cpp:44-45 | the highest ancestor below a position that generated a modifier, with no generating block between; none when no ancestor generated one |
| `ChainIndex.LastStakeModifier` | src/kernel.cpp:40-51 | fails on a null index, fails when no ancestor generated a modifier, and otherwise returns the modifier and time of the nearest generating ancestor-or-self |
| `ChainIndex.GetLastStakeModifier` | src/kernel.cpp:40-51 | the pointer walk returns exactly `LastStakeModifier` |
| `ChainIndex.FirstModifierAtOrAfter` | src/kernel.cpp:261-274 | the first active block from a height on that generated a modifier at or after a threshold time; none when there is no such block |
| `ChainIndex.KernelStakeModifier` | src/kernel.cpp:242-277 | the reference for the lookup: unindexed source fails; a source at or past the threshold gives its own modifier; otherwise the first later active block generated at or after the threshold, failing when there is none; characterized by the lemma below |
| `ChainIndex.KernelStakeModifierIsFirstLaterGeneration` | src/kernel.cpp:242-277 | fails exactly when the source block is unindexed or no later active block generated a modifier a selection interval after it; otherwise it returns the modifier, height and time of the first such block |
| `ChainIndex.GetKernelStakeModifier` | src/kernel.cpp:242-277 | the forward walk returns exactly `KernelStakeModifier` |
| `Selection.Reverse` | src/kernel.cpp:187 | reversal keeps the length |
| `Selection.ReverseAt` | src/kernel.cpp:187 | element k of the reversal is element n-1-k of the input |
| `Selection.ReverseMultiset` | src/kernel.cpp:187 | reversal is a permutation |
| `Selection.Insert` | src/kernel.cpp:188 | insertion into a sorted list gives a sorted permutation with the element added |
| `Selection.SortByTimeHash` | src/kernel.cpp:188 | the result is sorted by (time, hash) and is a permutation of the input |
| `Selection.SelectionHash` | src/kernel.cpp:96-107 | the hash of block hash and previous modifier, shifted right by 32 bits exactly for a proof-of-stake block |
| `Selection.ProofOfStakeFavoured` | src/kernel.cpp:103-107 | a proof-of-stake candidate beats any proof-of-work candidate whose hash is at least 2^224 |
| `Selection.FirstUnselected` | src/kernel.cpp:85-94 | the index of the first candidate not yet selected: every earlier candidate is selected |
| `Selection.WinnerUnique` | src/kernel.cpp:109-116 | a round has at most one winner under the strict `<` with ties going to the earliest |
| `Selection.FirstUnselectedAlwaysCandidate` | src/kernel.cpp:90-94 | the first unselected candidate is scanned whatever the stop time |
| `Selection.SortedWindow` | src/kernel.cpp:85-91 | on a sorted list the scan covers the first unselected candidate and exactly the later ones up to the stop time |
| `Selection.FirstTakenPastStop` | src/kernel.cpp:90-91 | on a sorted list, a first unselected candidate past the stop time is the winner |
| `Selection.WindowExtends` | src/kernel.cpp:85-94 | a candidate reached before any candidate past the stop time is scanned |
| `Selection.WindowEnds` | src/kernel.cpp:90-91 | once a later candidate lies past the stop time, no candidate from there on is scanned |
| `Selection.SelectBlockFromCandidates` | src/kernel.cpp:75-121 | fails exactly when every candidate is already selected; otherwise returns the unique winner, the unselected scanned candidate with the least selection hash, earliest on ties |
| `StakeModifier.ComputeStakeModifierV2` | src/kernel.cpp:136-144 | 0 without a previous block, else the hash of the kernel followed by the previous V2 modifier |
| `StakeModifier.ModifierV2Binding` | src/kernel.cpp:141-143 | two V2 modifiers from different kernels or predecessors coincide only through a hash collision on distinct preimages |
| `StakeModifier.RunStart` | src/kernel.cpp:181-184 | the start of the final run of blocks at or after the selection start: everything after it qualifies and the block before it does not |
| `StakeModifier.ReverseReverse` | src/kernel.cpp:187 | reversing twice gives the input back |
| `StakeModifier.CollectCandidates` | src/kernel.cpp:179-185 | the backward walk pushes exactly the final run of qualifying blocks, latest first |
| `StakeModifier.SelectionStart` | src/kernel.cpp:178 | the start of the modifier interval holding the previous block, minus the selection interval |
| `StakeModifier.Candidates` | src/kernel.cpp:181-188 | the collected run, sorted by (time, hash), a permutation of it, every block at or after the start |
| `StakeModifier.PickedHashes` | src/kernel.cpp:206 | every picked block's hash is in the selected map |
| `StakeModifier.RoundsValidExtend` | src/kernel.cpp:194-206 | the winner of the next round extends a valid run of rounds |
| `StakeModifier.PickStep` | src/kernel.cpp:203-206 | a pick adds its hash to the selected set and its entropy bit at the round's position |
| `StakeModifier.RoundStep` | src/kernel.cpp:194-206 | one round advances the stop time by its section, the selected set and the modifier bits together |
| `StakeModifier.EntropyBit` | src/kernel.cpp:203 | the entropy bit as 0 or 1 |
| `StakeModifier.ModifierFromPicks` | src/kernel.cpp:191-203 | the modifier built from n picks is below 2^n, so each round's bit is clear before it is set |
| `StakeModifier.ModifierBits` | src/kernel.cpp:203 | bit r of the new modifier is the entropy bit of round r's winner, and bits past the last round are 0 |
| `StakeModifier.ModifierFits` | src/kernel.cpp:191-203 | 64 rounds of bits fit in a `uint64_t` |
| `StakeModifier.DistinctAfterSort` | src/kernel.cpp:188 | sorting keeps the number of distinct candidate hashes |
| `StakeModifier.PickedHashesSize` | src/kernel.cpp:206 | n valid rounds select n distinct hashes |
| `StakeModifier.RoundHasCandidate` | src/kernel.cpp:194-200 | with distinct hashes, no round before the last candidate runs out of candidates |
| `StakeModifier.SelectionRounds` | src/kernel.cpp:190-210 | the rounds produce the modifier whose bit r is the entropy bit of round r's winner, for min(64, candidates) rounds, or report the round at which every candidate was taken |
| `StakeModifier.GenerateModifier` | src/kernel.cpp:174-210 | collect, reverse, sort and select yield the selection outcome; with distinct block hashes it always succeeds |
| `StakeModifier.ComputeNextStakeModifier` | src/kernel.cpp:147-238 | 0 after no block, the first-block constant after genesis, the last modifier unchanged in the same interval bucket, a freshly generated one otherwise; with distinct hashes it fails only when no ancestor generated a modifier |
| `Serial.SelectionPreimage` | src/kernel.cpp:99-100 | the 40-byte block hash and previous modifier, little-endian |
| `Serial.ModifierV2Preimage` | src/kernel.cpp:141-142 | the 64-byte kernel and previous V2 modifier |
| `Serial.KernelV2Preimage` | src/kernel.cpp:311 | the 76-byte V2 kernel layout: V2 modifier, source time, output hash, output index, candidate time |
| `Serial.ModifierStream` | src/kernel.cpp:411-412 | the 8-byte modifier the V1 stream starts with |
| `Serial.KernelV1Preimage` | src/kernel.cpp:377 | the 52-byte V1 kernel layout: modifier, source time, output index, output hash, candidate time |
| `Serial.SelectionPreimageFields` | src/kernel.cpp:99-100 | the selection preimage reads back the block hash and previous modifier |
| `Serial.ModifierV2PreimageFields` | src/kernel.cpp:141-142 | the V2 modifier preimage reads back the kernel and previous V2 modifier |
| `Serial.KernelV2PreimageFields` | src/kernel.cpp:311 | each field of the 76-byte V2 kernel preimage reads back from its offset |
| `Serial.KernelV1PreimageFields` | src/kernel.cpp:411-412 | each field of the 52-byte V1 kernel preimage reads back from its offset |
| `Serial.KernelV2PreimageInjective` | src/kernel.cpp:357 | two V2 kernel preimages are equal only when all their fields are |
| `Serial.KernelV1PreimageInjective` | src/kernel.cpp:377 | two V1 kernel preimages are equal only when all their fields are |
| `Serial.FromLEOfLE` | src/kernel.cpp:100 | decoding a little-endian field gives the number back when it fits its width |
| `Serial.LEOfFromLE` | src/kernel.cpp:100 | encoding a decoded field gives the bytes back |
| `Kernel.StakeTargetHit` | src/kernel.cpp:280-287 | defined as: the hash is below the weight times the target, the product reduced modulo 2^256; its meaning is given by the lemmas below |
| `Kernel.Weight` | src/kernel.cpp:283 | the weight is the amount divided by 100 for a non-negative amount, and fits 64 bits |
| `Kernel.SmallValueNeverHits` | src/kernel.cpp:283-286 | an amount below 100 never meets any target |
| `Kernel.TargetHitMonotone` | src/kernel.cpp:280-287 | without overflow, a larger amount never turns a hit into a miss |
| `Kernel.TargetHitWithoutOverflow` | src/kernel.cpp:286 | without overflow the test is exactly `hash < weight * target`; a zero target never hits |
| `Kernel.PreconditionFailure` | src/kernel.cpp:295-302 | rejects, in this order, a time before the source, a failed (wrapping) minimum-age test and a zero amount |
| `Kernel.AgeOkMeansOldEnough` | src/kernel.cpp:298 | when the sum does not wrap, the age test means the coin is at least the minimum age |
| `Kernel.AgeOkLater` | src/kernel.cpp:295-298 | a coin old enough at one time is old enough at any later time |
| `Kernel.StakeHash` | src/kernel.cpp:374-379 | defined as: the hash of the stream followed by the source time, output index, output hash and candidate time |
| `Kernel.KernelHashV2` | src/kernel.cpp:310-312 | defined as: the hash of the 76-byte V2 kernel layout |
| `Kernel.KernelHashV1` | src/kernel.cpp:410-416 | defined as: `stakeHash` on the modifier stream, which is the hash of the 52-byte V1 layout (`Kernel.StakeHashIsKernelV1`) |
| `Kernel.KernelCheckV2` | src/kernel.cpp:295-316 | defined as: no precondition failure and a target hit of the V2 kernel hash at the given time |
| `Kernel.KernelCheckV1` | src/kernel.cpp:388-417 | defined as: no precondition failure, a kernel modifier for the source block, and a target hit of the V1 kernel hash with it at the given time |
| `Kernel.StakeHashIsKernelV1` | src/kernel.cpp:374-379 | `stakeHash` on the prepared stream hashes exactly the 52-byte V1 layout |
| `Kernel.HashingStartV2` | src/kernel.cpp:325-343 | the V2 start offset as stored in a signed `int`; what it means for the search is stated by the lemmas below |
| `Kernel.SameHeightTriesOnlyLaterTimes` | src/kernel.cpp:339-343 | with no new tip and no wrap-around, every time the V2 search tries is later than `LastHashedBlockTime` |
| `Kernel.SameHeightLateStartHashesNothing` | src/kernel.cpp:339-345 | with no new tip, a rounded time more than one interval past `LastHashedBlockTime` gives a negative start, so the search fails without hashing |
| `Kernel.RoundDown` | src/kernel.cpp:320 | the time rounded down to a multiple of the stake interval, less than one interval below |
| `Kernel.PastTimesBranchIsDead` | src/kernel.cpp:325-345 | after a new tip, a difference below one interval starts at 0; otherwise the start is negative and, read as unsigned, at least the drift, so the loop does not run |
| `Kernel.ProbeKernelV2` | src/kernel.cpp:345-368 | probes offsets start, start+interval, ... below the drift, stops at a new tip or the first hit, reports the hit time or the rounded time, and the hash of the last probe |
| `Kernel.SearchKernelV2` | src/kernel.cpp:318-369 | rounds the time, computes the start and runs the probes, with the outcome above: a success is a hash that hits the target, a failure returns the rounded time |
| `Kernel.V2ProbesInWindow` | src/kernel.cpp:345-354 | without wrap, every probed time lies in [rounded, rounded + drift) |
| `Kernel.RoundingCanUnderrunMinAge` | src/kernel.cpp:298-365 | a concrete search that succeeds at a time the minimum-age test (line 298) rejects, because the rounding at line 320 moves the time below it |
| `Kernel.TimePastDifferenceV1` | src/kernel.cpp:422-425 | the V1 past-time difference is capped at 100 |
| `Kernel.HashingEndV1` | src/kernel.cpp:428-429 | the V1 loop bound lies between the drift and drift + 99 |
| `Kernel.HashedIndices` | src/kernel.cpp:431-439 | at most n of the first n loop indices are hashed |
| `Kernel.HashedIndicesExactly` | src/kernel.cpp:431-439 | the hashed indices are increasing, below n, never skipped by the time guard, and include every index that is not skipped |
| `Kernel.SearchKernelV1` | src/kernel.cpp:420-452 | walks i = 0, 1, ... below the loop bound, skips guarded times, stops at a new tip or the first hit; on success the time is the hit time, on failure the time is unchanged |
| `Kernel.V1ProbeBound` | src/kernel.cpp:428-431 | at most drift + 99 times are hashed |
| `Kernel.V1ProbesPassAgeTest` | src/kernel.cpp:438-439 | when the start time passes the age test and nothing wraps, every hashed time passes it too |
| `Kernel.V1ProbesDescend` | src/kernel.cpp:438 | without wrap, the hashed times strictly decrease |
| `Kernel.V2SuccessPassesCheck` | src/kernel.cpp:295-365 | a V2 search success whose time passes the age test is accepted by check mode at that time |
| `Kernel.V1SuccessPassesCheck` | src/kernel.cpp:388-452 | a V1 search success is accepted by check mode at the time it returns, when the entry time passes the age test and the window does not wrap |
| `Kernel.CheckStakeKernelHashV2` | src/kernel.cpp:290-371 | precondition failures change nothing; check mode returns the target test of the V2 hash at the given time; search mode has the V2 search outcome; a success that passes the age test passes check mode |
| `Kernel.CheckStakeKernelHash` | src/kernel.cpp:382-453 | precondition or modifier failures change nothing; check mode returns the target test of the V1 hash at the given time; search mode has the V1 search outcome; without wrap a success passes check mode |
| `ProofOfStake.StakeInputs` | src/kernel.cpp:458-490 | the pre-kernel checks accept only a coinstake whose input 0 spends an existing output of the transaction it names |
| `ProofOfStake.ProofOfStakeVerdict` | src/kernel.cpp:456-504 | a block is accepted exactly when the pre-kernel checks pass and the kernel accepts it; an earlier failure is reported as such |
| `ProofOfStake.AcceptedBlockHitsTarget` | src/kernel.cpp:456-504 | an accepted block's kernel spends a found output with a valid signature, is old enough, stakes a nonzero amount, and the hash of the exact V2 or V1 layout at the block time meets the target |
| `ProofOfStake.ProtocolV2IgnoresV1State` | src/kernel.cpp:493-497 | from the spork height on, the verdict does not depend on the V1 modifier state |
| `ProofOfStake.ProtocolV1IgnoresModifierV2` | src/kernel.cpp:493-502 | below the spork height, the verdict does not depend on the V2 modifier |
| `ProofOfStake.CheckProofOfStake` | src/kernel.cpp:456-504 | returns the verdict; early failures leave the proof hash unchanged; on acceptance the proof hash is the kernel hash of the selected protocol and meets the target |
| `ProofOfStake.CheckCoinStakeTimestamp` | src/kernel.cpp:507-511 | defined as: the block time equals the coinstake's time |
| `ProofOfStake.SearchedTimeAcceptedV2` | src/kernel.cpp:493-497 | a block that passes the input checks and is stamped, as the timestamp rule asks, with the time a successful V2 search returned is accepted, when that time passes the age test |
| `ProofOfStake.SearchedTimeAcceptedV1` | src/kernel.cpp:498-502 | a block that passes the input checks and is stamped with the time a successful V1 search returned is accepted, when the entry time passes the age test and the window does not wrap |

## Left out

- Hashing (`Hash`, `CHashWriter`, double SHA-256) and `uint256::SetCompact` are uninterpreted parameters: their code is not part of this model. The byte layouts fed to the hash are modelled exactly.
- `GetTransaction`, `VerifyScript`, `ReadBlockFromDisk`, `GetSporkValue` and `IsCoinStake`'s output-shape test are oracle parameters, because their code is not part of this model.
- The global chain state is given as parameters: `chainActive`, `mapBlockIndex`, `LastHashedBlockHeight`/`LastHashedBlockTime`, and the tip's time and median time past.
- Concurrent tip updates are not modelled as concurrency. The height readings of the search loops are a given sequence.
- Logging, the `GetBoolArg` flags and the debug selection-map string (src/kernel.cpp:212-233) are left out: they do not affect results.
- The commented-out checksum and checkpoint code (src/kernel.cpp:514-535) is left out: it is not compiled.
- src/qt/uiddstrings.cpp is not part of this model: it is a generated string table with no logic.
- `std::sort` and `std::reverse` are modelled by their results (a sorted permutation, the reversal), not as in-place array algorithms.
- Candidates are sorted as index records by (time, hash) instead of as pairs re-looked up in `mapBlockIndex`. This is the same order, since a record is keyed by its hash.
- Selection.SelectBlockFromCandidates: the failure of the `mapBlockIndex` lookup at src/kernel.cpp:86-87 is not modelled, because the candidates are carried as their index records.
- The value of the pointer cast at src/kernel.cpp:158 is not deterministic, so it is the free constant `Config.firstModifier`.
- The declared types of `nStakeMinAge` and `LastHashedBlockTime` are not visible in the kernel. They are taken as `unsigned int`, so `nTimeBlockFrom + nStakeMinAge` wraps modulo 2^32.
- Out-of-range `txPrev.vout[prevout.n]` is undefined behaviour in the source. The kernel checks require the index in range. `ProofOfStake.CheckProofOfStake` rejects such an index with `OutputIndexOutOfRange` before it reads the output.
- `block.vtx[1]` is read unguarded in the source, so `ProofOfStake.CheckProofOfStake` requires at least two transactions.
- Kernel.ValidParams: the model assumes a positive `nStakeInterval` and `nMaxStakingFutureDrift + nStakeInterval <= 2^31`, so the signed V2 loop counter cannot overflow. Configurations outside this range are not modelled.
- Intervals.ValidConfig: the model assumes positive modifier intervals and `1 <= MODIFIER_INTERVAL_RATIO` with `63 * ratio < 2^31`, so the signed denominator at src/kernel.cpp:57 cannot overflow. Other configurations are not modelled.
- Kernel.PastTimesBranchIsDead: proved only when `nFactor * nStakeInterval < 2^31`; a larger product wraps in `int` and can make `HashingStart` non-negative.
- Kernel.SameHeightTriesOnlyLaterTimes: proved only when the rounded time and `LastHashedBlockTime + nStakeInterval` are below 2^31 and the drift window does not wrap.
- Kernel.SameHeightLateStartHashesNothing: proved only for a rounded time below 2^31, where the negative start does not wrap back to a positive `int`.
- Kernel.CheckStakeKernelHash: check-mode agreement for a search success is stated only when `nTimeTx + drift` does not wrap 32 bits.
- Kernel.CheckStakeKernelHashV2: check-mode agreement for a search success is stated only when the returned time passes the age test, because rounding can break it (`Kernel.RoundingCanUnderrunMinAge`).
- Kernel.V1ProbesDescend: stated only when `nTimeTx >= 99` and nothing wraps, because wrapped try times are not ordered.
- ChainIndex.KernelStakeModifierIsFirstLaterGeneration: stated only when `interval * 63` does not wrap 32 bits, which makes the selection interval at least one base interval.
