# hiero-streams in Dafny

hiero-streams is a Rust crate and command line that parses and verifies Hedera stream files. This
project models the parts of it where an error would be hardest to see from one function body, and
proves what those parts promise each other.

- **Block tree.** A block's items are leaves of five Merkle mountain ranges, folded with the
  footer's chain hashes and the timestamp into one block root. There are two independent walks of a
  block (the scan and the inclusion witness) and two independent computations of each tree (the
  streaming hasher and the offline rebuild). `Wire`, `Merkle`, `Material`, `Binding`, `Proof` and
  `BlockTheorems` show that all of them agree and that a root pins down the block; `ScanTheorems` writes
  every answer out by field number and position.
- **Sentinel.** A resumable check of a live chain, with windows, batches, a state file that survives
  failures, and a search for the newest block: `Sentinel`, `SentinelTheorems`, `Frontier`.
  `ChainTheorems` joins it to the block tree: one saved root fixes every block verified to get to it.
- **Backfill pipelines.** Record files checked day by day and blocks checked after sorting:
  `RecordVerify`, `RecordEtl`, `BlockEtl`, over `ThreadedParse`, `Groups`, `Sorting`, `Transactions`.
- **Arithmetic.** The hinTS weight argument and threshold (`Hints`, over `Domains`, `Polynomial`,
  `Field`), the message expander (`Expander`), the limb encoding (`Wraps`), and the calendar
  (`Calendar`, `DayText`), with what they say of a written row (`PartitionDays`).

SHA-384 and SHA-256 are arbitrary functions, the same one throughout a theorem. Nothing is assumed
of them, injectivity least of all. A binding theorem therefore ends in "or these two computations
hashed two different byte strings to one digest", where each side is the finite set of byte strings
that computation hashed, defined along the computation; the `...Suffice` lemmas show that its result
depends on the hash function at those strings only.

Code that changes state is imperative here as well: `StreamingTreeHasher` and the sentinel's `State`
are classes, and each loop of the program is a loop with invariants. Such a method is tied by its
`ensures` to a function or predicate, and the lemmas are about those.

## What the proofs found

- **Chain hashes are bound only as one string.** `scan_block` does not check the lengths of the two
  footer hashes, so moving bytes from one to the other leaves the block root as it was. Blocks with one
  root have the same hashes exactly when the lengths agree (`SameBlockSameRoot`);
  `ChainHashSplitExample` gives two eleven-byte blocks that differ only there.
  `block_inclusion_witness` does check the lengths, and the exact set of blocks it serves is
  `WitnessExistsExactly`. The sentinel compares roots from block to block, which settles the split for
  every block but the first (`LastRootFixesTheRange`).
- **The empty tree has the root of one empty leaf.** Empty bytes therefore pass for a transaction of a
  block that has none, if its chain hashes are 96 bytes together and its state root 48. That is the only
  claim inclusion leaves open (`InclusionBindsExactly`). No scanned item is empty (`ItemsNonEmpty`), so
  whole-block binding needs no such condition.
- **The weight comparison wraps.** Tripling a weight of 2^128/3 or more wraps in a release build, and
  the comparison can then reject weights that suffice. It never accepts too little
  (`MetIsMoreThanAThird`), and it is exact for every total precisely below that bound
  (`ThresholdIsExactBelowOneThird`).
- **One third, not two.** The module text of `src/block/proof/mod.rs` speaks of more than two thirds
  of the network's weight. The code compares against one third, as the comment beside the constant
  explains, and so does the model.
- **The expander goes on where RFC 9380 aborts.** Past 255 blocks the casts cut counter and length to
  their low bytes and the code returns the bytes of the same recursion; up to there it is the RFC's
  expander with a pad of the output's length.
- **The hinTS argument needs the true evaluations, and one merged opening does not give them.** Step 6
  tests the evaluations a signature carries, and the merged opening ties seven of them to the committed
  polynomials by one combination (`BatchOpensExactly`). The weight theorem holds for accepted values that
  are the true ones, which is so exactly when the batching scalar is not one of fewer than seven
  (`AcceptedIsRightExactly`, `FewFooling`). That count is about values fixed before the scalar, and seven
  scalars would settle it (`CombinationsDecide`); the code batches by powers of the challenge itself, and
  its transcript holds no evaluation. `OneCombinationIsNotEnough` is an accepted input in a field of seven
  elements for which the conclusion fails.
- **Day texts sort as days only in the years -1 to 9999.** In a span of years around 0 they do so exactly
  when it stays within those years (`YearsSortExactly`), which in seconds is -62198755200 up to but
  excluding 253402300800 (`SecondsSortExactly`). They stay distinct in every year.
- **Timestamps sort as text.** The order of rows is the order in time exactly for spans of seconds of
  equally many digits (`TimesSortExactly`), which 2001 to 2286 is.
- **An unparsable record file hides breaks of its own day.** A day is parsed before it is checked, so the
  run reports the first break of the earlier days or else the file (`Verdict`, `UnparsableHidesBreak`).
- **An unknown proof suffix is not checked by the sentinel.** Only blocks of the two known layouts
  have their signature checked (`GoodBlock`, `UnknownSuffixPasses`).

## Model

| member | source | states |
|---|---|---|
| Merkle.StreamingTreeHasher.constructor | src/block/merkle.rs:40-44 | a new hasher has seen no leaf and made no internal hash |
| Merkle.StreamingTreeHasher.AddLeaf | src/block/merkle.rs:47-57 | the stack stays the digests of the mountain range of all leaves added, one more leaf; both pops are in bounds, and internal hashes made plus stack size is the leaf count |
| Merkle.StreamingTreeHasher.Root | src/block/merkle.rs:59-70 | the root of the tree over the leaves added, the empty tree included, after exactly n - 1 internal hashes in all |
| Merkle.RangeIsPerfectSubtrees | src/block/merkle.rs:35-39 | the stack is one perfect subtree per set bit of the leaf count, the largest first; each holds exactly the leaves of its bound, in order |
| Merkle.TreeKeepsLeaves | src/block/merkle.rs:46-71 | the tree behind the root has exactly the added leaves, in order, and n - 1 internal nodes |
| Merkle.PeakBounds | src/block/merkle.rs:111-122 | the top-down scan of the bits gives the bounds defined bottom-up |
| Merkle.BoundsTile | src/block/merkle.rs:109-122 | one bound per set bit, tiling 0..n without gap or overlap |
| Merkle.BoundsHeights | src/block/merkle.rs:109-122 | sizes are strictly falling powers of two, the i-th at most 2^(log2 n - i) |
| Merkle.PerfectRoot | src/block/merkle.rs:126-138 | the level loop gives the digest of the one perfect tree over the leaves |
| Merkle.PerfectTreeIsPerfect | src/block/merkle.rs:124-138 | that tree has height log2 of the leaf count and those leaves in order |
| Merkle.FoldPeaks | src/block/merkle.rs:142-149 | folding roots from the right gives the digest of the peaks joined, none for no peaks |
| Merkle.PeakAtBound | src/block/merkle.rs:35-39 | the peaks a binary counter leaves are the perfect subtrees the offline rebuild slices out |
| Merkle.MerkleRoot | src/block/merkle.rs:153-160 | the offline root is the streaming hasher's root of the same leaves |
| Merkle.RootIsByHalves | src/block/merkle.rs:35-71 | the root is the recursive one: of no leaves sha384(0x00), of one leaf the leaf, of more sha384(0x02, root of the first k, root of the rest), k the largest power of two below their number |
| Merkle.PeakPath | src/block/merkle.rs:201-222 | the siblings met on the way from a position to the top of its peak |
| Merkle.WitnessFor | src/block/merkle.rs:167-198 | own-peak path, left peaks and pre-folded right side of the mountain range; none exactly when the index is out of range |
| Merkle.FoldWitness | src/block/merkle.rs:228-243 | folding a witness of any shape is climbing one list of siblings |
| Merkle.PathReachesPeak | src/block/merkle.rs:200-222 | climbing a leaf's path ends at its peak's digest after log2(size) steps |
| Merkle.LeftPeaksReachRoot | src/block/merkle.rs:239-241 | wrapping by the left peaks turns the right part's digest into the whole root |
| Merkle.WitnessComplete | src/block/merkle.rs:162-243 | for every non-empty leaf list and every index, the witness exists and folds to the streaming root |
| Merkle.WitnessIsShort | src/block/merkle.rs:92-107 | a witness holds at most floor(log2 n) + 1 hashes |
| Wire.ReadVarint | src/block/wire.rs:36-53 | value, end or error of the varint at an offset: at most ten bytes, the sum of the 7-bit groups modulo 2^64 |
| Wire.VarintExactly | src/block/wire.rs:36-53 | reading succeeds with a value and an end if and only if the bytes between are a varint of that value |
| Wire.ReadLengthDelimited | src/block/wire.rs:55-66 | the length-delimited body and its end, or the error met first |
| Wire.ScanItemKind | src/block/wire.rs:96-117 | the field number of an item's one field, or the error; terminates by progress of the offset |
| Wire.ScanBlockItems | src/block/wire.rs:70-92 | the field-1 records in order with their exact bytes and kinds, or the first error |
| Wire.VarintErrors | src/block/wire.rs:36-53 | too long exactly after ten bytes that all go on, truncated exactly where the input ends before that |
| Wire.FieldErrors | src/block/wire.rs:55-82 | a field's error: of its tag, its wire type, its length, or a length beyond 64 bits or beyond the input |
| Wire.ItemErrors | src/block/wire.rs:96-117 | an item's error: empty, that of one of its first two fields, or having a second one |
| WireRoundTrip.KindExactly | src/block/wire.rs:94-117 | an item has a kind if and only if it is one well-formed record of that field |
| WireRoundTrip.ScanExactly | src/block/wire.rs:68-92 | the scan accepts exactly the byte strings that well-formed records tile, listing their items in order |
| WireRoundTrip.ScanErrors | src/block/wire.rs:68-92 | behind records that scan, the first field or item in error gives the scan's error |
| WireRoundTrip.ItemsNonEmpty | src/block/wire.rs:94-117 | every scanned item is non-empty and carries its own kind; there are no more items than bytes |
| WireRoundTrip.EncodeThenScan | src/block/wire.rs:68-117 | scanning the Protocol Buffers encoding of any list of single-field items gives back those items and kinds |
| Material.ClassifyLayout | src/block/material.rs:174-195 | the three parts concatenate to the signature; each known path is one exact length |
| Material.Feed | src/block/material.rs:297-322 | each item is a leaf of one tree by its kind, as `ScanTheorems.ScanAnswers` writes out, or refused |
| Material.ScanLoop | src/block/material.rs:296-344 | the five hashers and the typed views follow the items, and the first fault ends the loop; `ScanTheorems` says what they then hold |
| Material.ScanBlock | src/block/material.rs:281-381 | the scan is a function of the block's items, or its error; `ScanTheorems` says what the function answers |
| Material.WitnessLoop | src/block/material.rs:426-462 | four hashers and the signed-transaction lists follow the same subsequences; only headers and footers are decoded |
| Material.MakeInclusionWitness | src/block/material.rs:409-505 | the leaf bytes and witness of one signed transaction, or the error met first |
| Material.RecomputeBlockRoot | src/block/material.rs:514-529 | the root of the same fixed upper tree, over the folded witness |
| ScanTheorems.ScanSucceedsExactly | src/block/material.rs:296-347 | a block is scanned exactly if every item is of kind 1 to 7 or 9 to 12, headers, footers, proofs and transactions decode, and there are a header and a footer |
| ScanTheorems.FirstUnreadable | src/block/material.rs:313-327 | the first item that is not so decides the error of either walk: filtered for kinds 8 and 19, undecodable, or unknown |
| ScanTheorems.MissingParts | src/block/material.rs:282-283 | a file that does not inflate or scan, a missing header, then a missing footer, then an index out of range give their errors in both walks |
| ScanTheorems.ScanAnswers | src/block/material.rs:346-380 | number and previous-root claim are those of the last header and last footer, and the root is written out: hashes of literal prefixes over the timestamp, the footer's hashes, the state root or 48 zeros, and the trees of kinds {2,3}, {4}, {1,5,6}, {7} and {11} |
| ScanTheorems.ScanCarries | src/block/material.rs:331-338 | the signature is that of the last block proof carrying one, and the bootstrap that of the first signed transaction that decodes to a publication, both exactly |
| ScanTheorems.MaterialIsScanned | src/block/material.rs:233-279 | proof material and chain view hand these answers on; the signature is split at 1096 and 2728 bytes and its layout decided by length |
| ScanTheorems.RootBindsKinds | src/block/material.rs:296-372 | scanned blocks with one root have the same items of kinds {1,5,6}, {2,3}, {4}, {7} and {11} in order, or their computations collide |
| ScanTheorems.WitnessSucceedsExactly | src/block/material.rs:426-500 | a witness is given out exactly if every item is readable, there is a header, the last footer's hashes fit, and the index is below the number of kind-4 items |
| ScanTheorems.WitnessAnswers | src/block/material.rs:467-504 | the index-th kind-4 item and, field by field, the roots of the other trees, the footer's hashes and the timestamp |
| BlockTheorems.WitnessRecomputesRoot | src/block/material.rs:402-529 | whenever both walks of a file succeed, the bytes returned are the index-th signed transaction and recompute the extracted root |
| BlockTheorems.WitnessExistsExactly | src/block/material.rs:464-505 | in a block the scan accepts, an index has a witness if and only if it is in range and the three footer hashes are 48 bytes (the state root possibly absent) |
| BlockTheorems.HeaderIsAnOutput | src/block/material.rs:298-330 | the header taken is the last one among the output leaves |
| BlockTheorems.InterleavingInvariance | src/block/material.rs:296-380 | blocks with equal category subsequences and equal footer have equal number, root and previous-root claim, however their items are interleaved |
| BlockTheorems.OwnInclusionVerifies | src/block/proof/mod.rs:93-112 | checking a block's own transaction with its own witness gives exactly the block's own verification |
| BlockTheorems.InclusionBinding | src/block/proof/mod.rs:93-112 | bytes that get past the root comparison, with a witness of any shape, are one of the block's signed transactions, or the two computations collide; the outcome is then the block's own verification. Excepted is the empty claim: no bytes, a block without transactions, chain hashes of 96 bytes together and a state root of 48 |
| BlockTheorems.EmptyClaimPasses | src/block/merkle.rs:59-61 | for that claim there is a witness that gets past the comparison, and checking it hashes nothing the block did not |
| BlockTheorems.InclusionBindsExactly | src/block/proof/mod.rs:93-112 | for a block whose own hashes do not collide, every witness that gets bytes past the comparison shows them to be in the block, if and only if the claim is not that one |
| BlockTheorems.BlockBinding | src/block/material.rs:346-372 | scanned blocks with one root have the same five leaf lists, header, normalised state root and joined chain hashes, or their computations collide |
| BlockTheorems.SameBlockSameRoot | src/block/material.rs:346-372 | scanned blocks that are the same up to the split of the chain hashes have one root, and their two chain hashes agree if and only if the first ones have one length |
| BlockTheorems.RootIgnoresChainHashSplit | src/block/material.rs:356-359 | parts equal up to the split between the chain hashes have one root, and are equal if and only if the first hashes have one length |
| BlockTheorems.ChainHashSplitExample | src/block/material.rs:281-381 | two eleven-byte blocks the scan accepts, with one root and different previous-root claims, for every hash function |
| Binding.ClimbBinds | src/block/merkle.rs:228-243 | a climb that ends at a tree's digest started at one of its leaves, or collides; leaf and node prefixes keep the two apart |
| Binding.WitnessBinds | src/block/merkle.rs:228-243 | bytes that fold to a root with any witness are one of its leaves, or collide, unless bytes and leaf list are both empty |
| Binding.RootsBind | src/block/merkle.rs:46-71 | lists of non-empty items with one root are equal, their lengths included, or collide |
| Binding.UpperBinds | src/block/material.rs:517-528 | equal block roots mean equal parts, the split of the chain hashes aside, or a collision |
| Binding.NodeInputsSuffice | src/block/merkle.rs:20-26 | hash functions that agree on a tree's inputs give it one digest |
| Binding.TreeInputsSuffice | src/block/merkle.rs:153-160 | hash functions that agree on the inputs of a root give one root |
| Binding.ClimbInputsSuffice | src/block/merkle.rs:228-243 | hash functions that agree on the inputs of a fold give one result |
| Binding.UpperInputsSuffice | src/block/material.rs:517-528 | hash functions that agree on the ten inputs of the upper tree give one root |
| BlockTheorems.BlockInputsSuffice | src/block/material.rs:281-381 | hash functions that agree on all inputs of a block give it one root |
| BlockTheorems.RecomputeInputsSuffice | src/block/material.rs:514-529 | hash functions that agree on all inputs of a recomputation give one root |
| Proof.ValidRestsOnBothChecks | src/block/proof/mod.rs:116-138 | verification is valid if and only if the hinTS check over the given root passed and so did the one suffix check of the layout |
| Proof.BlockProofAnswers | src/block/proof/mod.rs:68-138 | block number, hinTS checks and the one suffix outcome, or the error of the first part that cannot be read |
| Sentinel.State.Load | src/cli/sentinel.rs:52-65 | each field is read from the JSON by name, with the default for one that is missing or of another type |
| Sentinel.State.Save | src/cli/sentinel.rs:67-81 | the JSON holds every field by name, and loading it gives the state back |
| Sentinel.SaveThenLoad | src/cli/sentinel.rs:52-81 | what one run saves the next one loads, for every state with 64-bit numbers |
| Sentinel.SavedExample | src/cli/sentinel.rs:52-81 | a saved state by its field names, and a hex text, literally |
| Sentinel.EmptyIsUninitialized | src/cli/sentinel.rs:52-65 | a file with none of the fields is an uninitialized state |
| Sentinel.HexIsInjective | src/cli/sentinel.rs:320-323 | comparing hex texts of roots is comparing the roots |
| Sentinel.CheckBlock | src/cli/sentinel.rs:311-396 | a block that passes moves the anchor to it; one that does not raises the first alarm that applies and leaves the anchor as it was |
| Sentinel.VerifyBatch | src/cli/sentinel.rs:260-284 | one batch, fetched whole and checked in order, ends as the sequential check of its blocks does |
| Sentinel.VerifyWindow | src/cli/sentinel.rs:256-285 | batches of 32 verify the same prefix, with the same state and alarm, as a sequential loop; block numbers, batch ends and the count are u64 |
| Sentinel.ChooseWindow | src/cli/sentinel.rs:226-249 | the stretch of blocks to verify, in u64 arithmetic, or why there is none |
| Sentinel.Run | src/cli/sentinel.rs:220-306 | window, verification and persistence of one run as a function of the state file, whose answer `SentinelTheorems.RunOutcome` gives; the sums are u64, from a state whose next block and next total fit |
| SentinelTheorems.PassesExactly | src/cli/sentinel.rs:311-396 | a readable next block passes if and only if it extends the verified range in number, root chain, proof path and signature length, without a publication and with its hinTS check passed |
| SentinelTheorems.RunOutcome | src/cli/sentinel.rs:220-306 | a run that takes on blocks ends without an alarm exactly when every block from its first to min(newest, first + cap - 1) is there and extends the range, and that end is then `lastBlock`; otherwise the alarm names the first block that does not and the reason tried first; `checked` is set either way |
| SentinelTheorems.AnyRunOutcome | src/cli/sentinel.rs:220-306 | the same at any point of any sequence of runs |
| SentinelTheorems.IdleRun | src/cli/sentinel.rs:226-240 | a run that takes on no blocks leaves the file alone: no init block, a failed probe, or caught up |
| SentinelTheorems.RunKeepsSafe | src/cli/sentinel.rs:220-306 | one run, failing anywhere, keeps the range gapless, chained and counted; a first range starts at the init block and dates the state, later ones keep the date |
| SentinelTheorems.SafeAfterAnyRuns | src/cli/sentinel.rs:220-396 | after any sequence of runs from the uninitialised file: verified blocks form a gapless root-chained range from some run's init block to `lastBlock`, share path and signature length, carry no bootstrap; the total is their number `lastRoot` the last root, and `since` the day of the run that began |
| SentinelTheorems.ReachableIsResumable | src/cli/sentinel.rs:226-295 | every state reachable by runs whose newest block is 32 below 2^64 is one `Run` asks for: next block and next total fit 64 bits |
| SentinelTheorems.ProductionIsBounded | src/block/material.rs:174-195 | signature lengths are those of buffers, so below 2^63 |
| SentinelTheorems.ReachableIsLoadedBack | src/cli/sentinel.rs:52-81 | every reachable state is what the next run loads from the file the last one saved |
| SentinelTheorems.UnknownSuffixPasses | src/cli/sentinel.rs:332-389 | a block whose signature has an unknown layout passes though every hinTS check fails |
| Sentinel.SplitSequential | src/cli/sentinel.rs:256-285 | checking a range is checking its front and then, without an alarm, its rest |
| SentinelTheorems.RetryRun | src/cli/sentinel.rs:287-297 | a run after an alarm, with the same blocks, raises it again and changes only `checked` |
| SentinelTheorems.WindowIndependence | src/cli/sentinel.rs:241-295 | a run capped at a and then one capped at b leave the state, `checked` aside, and the alarm of one run capped at a + b, wherever a failure falls |
| ChainTheorems.LastRootFixesTheRange | src/cli/sentinel.rs:311-396 | two sentinels, of any builds and run histories, whose state files name one root verified the same blocks back to where the shorter log began, chain hashes included but for the earliest, or two of those blocks collide; equal first numbers give equal lengths |
| ChainTheorems.AgreeBack | src/cli/sentinel.rs:320-330 | root-linked logs that end at one root agree entry by entry backwards, or a collision is found at a named place |
| Frontier.Bisect | src/cli/sentinel.rs:153-161 | halving finds a present block with an absent successor, one probe per bit |
| Frontier.FindNewest | src/cli/sentinel.rs:138-162 | from an existing floor, a present block with an absent successor, the very top when nothing is missing below it, in at most 2 log2(3(top - floor) + 1024) probes, all within 64 bits |
| RecordVerify.VerifyRunningHashChain | src/record/verify.rs:183-208 | no break exactly when every link holds; otherwise the index and reason of the first that does not |
| RecordVerify.FirstBreakIsUnique | src/record/verify.rs:169-176 | a list has one verdict only |
| RecordVerify.VerdictMeans | src/record/verify.rs:186-207 | no break exactly when each file starts at its predecessor's end hash and has the next number; else the first that does not, by hash before number |
| RecordVerify.AcceptedIsConsecutive | src/record/verify.rs:178-182 | in an accepted list file k has block number first + k and starts at its predecessor's end hash |
| RecordVerify.BreakOfConcat | src/record/verify.rs:183-208 | the verdicts on two parts and their seam give the verdict on the whole |
| RecordEtl.GroupByDay | src/cli/etl/record.rs:28-36 | sorted names grouped by prefix, read in day order, are the sorted list; the first short name stops it |
| RecordEtl.CheckDay | src/cli/etl/record.rs:72-91 | seam check and day check together find the first break the day adds to all days before it |
| RecordEtl.RunDay | src/cli/etl/record.rs:43-99 | one day stops with the verdict on the whole list, or hands on an unbroken longer list and the partition of its own files |
| RecordEtl.BreakStands | src/cli/etl/record.rs:72-91 | a break within the first days is the verdict on the whole list, whatever comes on later days |
| RecordEtl.RunDays | src/cli/etl/record.rs:39-99 | the day loop, with one file carried over, gives the verdict on the whole list; each partition written is its own day's files' transactions sorted stably by timestamp text, for the days before the one that stopped it, or for all |
| RecordEtl.Run | src/cli/etl/record.rs:19-99 | the pipeline over sorted names: the verdict of one global check, its kind and file included; a partition for exactly the days before the failure or all, each with the transactions of exactly the files named for its day, and conservation in all |
| RecordEtl.VerdictWhenParsed | src/cli/etl/record.rs:72-91 | all files parsing: done with the sum of their transaction counts, or the first file that does not go on, by name and reason, as a boundary if its first ten characters differ from its predecessor's |
| RecordEtl.VerdictWhenUnparsed | src/cli/etl/record.rs:43-91 | the first unparsable file named, unless the files of earlier days already break |
| RecordEtl.DaysArePrefixes | src/cli/etl/record.rs:30-43 | a partition is written for exactly the ten-character prefixes below the failing file's, or for all |
| RecordEtl.TransactionsAre | src/cli/etl/record.rs:93-96 | all transactions are those of the first file and then all of the others' |
| RecordEtl.DoneExactlyWhenUnbroken | src/cli/etl/record.rs:72-91 | with the chain checked, success if and only if every file parses and the whole list has no break; then numbers are consecutive throughout |
| RecordEtl.UnparsableHidesBreak | src/cli/etl/record.rs:50-91 | a day with a break and an unparsable file, for which the file is reported and the break is not |
| ThreadedParse.ParseThreaded | src/cli/etl/record.rs:49-70 | contiguous chunks joined in order give the sequential parse, a failure and its name included |
| ThreadedParse.ParseMeans | src/cli/etl/record.rs:52-69 | every file in order, or the name of the first that fails |
| BlockEtl.CheckChain | src/cli/etl/block.rs:71-92 | no failure exactly when neighbours are consecutive and root-linked; otherwise the first pair that is not, as gap or break |
| BlockEtl.AcceptedExactly | src/cli/etl/block.rs:69-92 | sorting and checking accepts if and only if some arrangement of the blocks goes up by one in number and names the root before in each footer |
| BlockEtl.BreakMeans | src/cli/etl/block.rs:72-91 | what is reported of a refused set: the first block that does not follow, as a gap between its predecessor and it or else as a broken link |
| BlockEtl.OrderIndependence | src/cli/etl/block.rs:69-92 | acceptance, and the sorted list of an accepted set, depend only on the multiset of blocks |
| BlockEtl.AcceptedFillsARange | src/cli/etl/block.rs:69-92 | accepted numbers fill a range: none missing, none twice |
| BlockEtl.GroupByDay | src/cli/etl/block.rs:94-99 | grouping loses and repeats no transaction and keeps each day's in block order |
| BlockEtl.TransactionsAre | src/cli/etl/block.rs:94-99 | all transactions are those of the first block and then all of the others' |
| BlockEtl.WriteDays | src/cli/etl/block.rs:101-111 | each partition is its own day's group sorted stably by timestamp, partitions in day order, all rows as a multiset |
| BlockEtl.Run | src/cli/etl/block.rs:24-118 | succeeds exactly on accepted sets when the chain is checked, and otherwise reports the first pair of sorted neighbours that breaks, as gap or break; writes every parsed transaction once: a partition for each day, with that day's transactions in block order sorted stably by timestamp text |
| Transactions.WriteDay | src/cli/etl/block.rs:103-104 | a day's rows sorted by timestamp, as a multiset the same, and rows with equal timestamps in their former order |
| PartitionDays.PartitionIsUtcDay | src/block/mod.rs:144-153 | two rows written by the block pipeline share a partition exactly when their consensus seconds share a UTC day |
| PartitionDays.TimeOrder | src/block/mod.rs:121-124 | timestamps with seconds of equally many digits sort by text as by time |
| PartitionDays.TimesSortExactly | src/block/mod.rs:121-124 | all timestamps in a span of non-negative seconds sort by text as by time if and only if its ends have equally many digits |
| Polynomial.TooManyRoots | src/block/proof/hints.rs:454-468 | a polynomial over a prime field with as many roots as coefficients is zero everywhere |
| Domains.LagrangeAtPoint | src/block/proof/hints.rs:398-402 | the last Lagrange polynomial is 1 at the last domain point and 0 at every other |
| Domains.QuotientIsLagrange | src/block/proof/hints.rs:455-459 | the quotient the verifier divides out is that polynomial's value wherever the division exists |
| Hints.ChecksAreIdentities | src/block/proof/hints.rs:454-468 | on the true evaluations the four checks pass if and only if the four polynomial identities hold at the challenge |
| Hints.ManyChallengesBind | src/block/proof/hints.rs:393-468 | with degrees below m, identities that hold at 2m challenges hold everywhere |
| Hints.BitAt | src/block/proof/hints.rs:465-466 | at a domain point the well-formedness identity holds if and only if the bitmap is 0 or 1 there |
| Hints.StepAt | src/block/proof/hints.rs:461-463 | at a domain point the accumulation identity holds if and only if the running sum grows by the member's weight, cyclically and less the claimed weight at the last point |
| Hints.IdentitiesExactly | src/block/proof/hints.rs:398-468 | the identities hold at every domain point if and only if the bitmap is bits with the last set, the running sum is the selected weight so far, and the claimed weight is the selected weight modulo the field order |
| Hints.FewExceptional | src/block/proof/hints.rs:393-468 | with degrees below m, fewer than 2m field elements are challenges at which the identities hold although they fail on the domain |
| Hints.FrToU128 | src/block/proof/hints.rs:349-355 | the canonical value below 2^128, an error from there on |
| Hints.MetIsMoreThanAThird | src/block/proof/hints.rs:373-375 | a threshold reported as met is met, even when the product wraps |
| Hints.ThresholdIsExactBelowOneThird | src/block/proof/hints.rs:373-375 | the comparison is exact for every total weight if and only if three times the weight stays below 2^128 |
| Hints.WrappedThreshold | src/block/proof/hints.rs:373-375 | a weight far above a third of the total that the wrapped comparison rejects |
| Hints.MergeOpenings | src/block/proof/hints.rs:415-420 | the batching loop combines the openings with consecutive powers of the challenge |
| Hints.HonestBatchOpens | src/block/proof/hints.rs:422-425 | quotient polynomials batched alike satisfy the merged opening equation |
| Hints.BatchOpensExactly | src/block/proof/hints.rs:398-425 | some proof polynomial satisfies a batched opening equation at every secret if and only if the claimed values, combined by powers of the scalar, are the combined evaluations |
| Hints.CombinationsDecide | src/block/proof/hints.rs:411-420 | claimed values combine rightly at as many distinct scalars as there are values if and only if every one is right |
| Hints.FewFooling | src/block/proof/hints.rs:403-425 | for claimed values fixed beforehand, not all right, fewer than seven scalars combine them rightly |
| Hints.AcceptedIsRightExactly | src/block/proof/hints.rs:398-468 | claimed evaluations that pass the four checks and both openings are the true ones if and only if the batching scalar is not one of those |
| Hints.TruthIsAcceptedExactly | src/block/proof/hints.rs:398-468 | true evaluations are accepted, with any scalar, if and only if the identities hold at the challenge |
| Hints.AcceptedIsHonest | src/block/proof/hints.rs:398-468 | accepted evaluations, with a scalar that is not one of the fewer than seven and a challenge that is not one of the fewer than 2m, mean an honest argument |
| Hints.SelectedMembersMeetThreshold | src/block/proof/hints.rs:373-468 | for accepted evaluations that are the true ones, at a challenge that is not one of the fewer than 2m exceptions and with the threshold met, the selected members weigh strictly more than a third of the total; the claimed weight is theirs unless theirs exceeds the field. They are the true ones exactly when the scalar is not one of fewer than seven |
| Hints.OneCombinationIsNotEnough | src/block/proof/hints.rs:415-420 | an accepted input in a field of seven elements, with the challenge as the scalar, whose values are not the true ones and whose bitmap selects nobody for a claimed weight of 1 of 2 |
| Expander.ExpandBlocks | src/block/proof/hints.rs:301-315 | the loop's blocks are b_1, b_2, ... of section 5.3.1 of RFC 9380, for any number of them, with counters cut to a byte; `UniformIsBlock` writes them out |
| Expander.UniformIsBlock | src/block/proof/hints.rs:303-315 | the k-th 32 bytes are the hash of b_0, XORed byte by byte with the 32 bytes before from the second block on, then the number in one byte and the tag; the last block may be cut short |
| Expander.ArkworksExpandMessageXmd | src/block/proof/hints.rs:286-317 | the bytes returned, written out block by block from a b_0 of zeros, message, two length bytes, 0 and tag; within the RFC's limits those of its expander with that pad, hence at 64 bytes those of its SHA-256 expander |
| Expander.AbortsExactly | src/block/proof/hints.rs:286-291 | where the RFC's expander aborts: more than 255 blocks or a tag over 255 bytes |
| Wraps.BitInBytes | src/block/proof/wraps.rs:186-190 | the bit read out of the little-endian bytes is the number's bit, 0 past the end |
| Wraps.ReadLimb | src/block/proof/wraps.rs:184-191 | a limb is the 55 bits of the number from its position on |
| Wraps.FqToLimbs | src/block/proof/wraps.rs:180-195 | five limbs below 2^55 whose sum, weighted by powers of 2^55, is the field element |
| Wraps.LimbsAreInjective | src/block/proof/wraps.rs:174-195 | distinct field elements have distinct limbs |
| Wraps.G1ToNonnative | src/block/proof/wraps.rs:197-206 | five limbs that sum to x and then five that sum to y, each below 2^55; ten zeros for infinity |
| Wraps.NonnativeSeparatesPoints | src/block/proof/wraps.rs:197-206 | distinct curve points have distinct encodings, infinity included |
| Calendar.DayFromSecondsIsCivil | src/transaction.rs:124-136 | the 64-bit computation never overflows and depends only on floor(seconds / 86400) |
| Calendar.CivilSteps | src/transaction.rs:124-136 | every day number gives a valid Gregorian date (leap rule of RFC 3339, Appendix C), and the next number the next date |
| Calendar.CivilCounts | src/transaction.rs:120-136 | day 0 is 1970-01-01, and n days later is n calendar steps later, from any day |
| Calendar.EveryDateIsReached | src/transaction.rs:124-136 | every valid date is the date of some day number |
| Calendar.DayPartition | src/transaction.rs:124-136 | for any two instants: equal dates exactly for equal day numbers, earlier dates exactly for smaller ones |
| DayText.PartitionsAreDays | src/transaction.rs:124-136 | the texts of two instants are equal exactly when their UTC days are, over all 64-bit seconds |
| DayText.SecondsSortExactly | src/transaction.rs:124-136 | the texts of all instants in a span around the epoch sort as their days do if and only if it lies in years -1 to 9999 |
| DayText.TextIsInjective | src/transaction.rs:135 | no two dates share a text, in any year |
| DayText.TextOrder | src/transaction.rs:135 | in years -1 to 9999 the text sorts as the calendar does |
| DayText.YearsSortExactly | src/transaction.rs:135 | the texts of all dates in a span of years around 0 sort as the calendar does if and only if it lies within -1 to 9999 |
| DayText.FarYearsSortBackwards | src/transaction.rs:135 | 10000-01-01 sorts before 9999-12-31, and -001-01-01 before -002-12-31 |

## Left out

- Cryptography: SHA-384, SHA-256, pairings, curve arithmetic, Schnorr, RSA, Poseidon and the WRAPS verifier are arbitrary functions or absent; the two opening checks of hinTS appear as equations in the exponent that hold at every secret for a proof polynomial; its other pairing checks are absent.
- Hints.SelectedMembersMeetThreshold: asks that the accepted evaluations be the true ones, which the code's single merged opening does not ensure, see above. Which other values it lets pass in general is not part of this model. The transcript is not modelled either, so how likely a challenge is to be an exception is left open. That the committee's weights are what the key commits to, that the scalar field order is prime, and that the domain has a root of unity are conditions of the theorem.
- Hints.ThresholdMet: a debug build would stop at the wrapped product instead; the model follows a release build.
- Hints.MergeOpenings: group elements are represented by their discrete logarithms.
- Typed decoding (prost) and gzip: arbitrary partial functions, the same ones in both walks of a block. A typed decode fills the case its one field names.
- BlockTheorems.InclusionBinding: excepts the one empty claim for which it fails, see above.
- Merkle.StreamingTreeHasher.AddLeaf: the leaf counter is unbounded; a block of fewer than 2^63 bytes cannot overflow it.
- Buffers: byte strings from decompression are below 2^63 bytes, as every Rust allocation is.
- Sentinel.Run: the clock's text and the console are absent, and a fetch that fails for any reason is a gap. Asks for `--max-blocks` of at least 1, a state file that runs can reach, and a newest block 32 below 2^64.
- Sentinel.State.Load: reading and writing the file and the JSON syntax are absent; the model starts from the parsed values.
- Frontier.FindNewest: the bucket search only. The local directory's maximum of file names, URLs, tokens and HTTP are absent. Asks that nothing exist above a top with 4 top + 1024 below 2^64.
- ThreadedParse.ParseThreaded: workers run one after another; chunking and joining order are kept, scheduling is not. Asks for at least one thread. Reading and parsing one file is one partial function, so the two kinds of failure are one.
- RecordEtl.Run: file names are ASCII, so ten bytes are ten characters; the wording of errors is absent.
- Parquet and JSON output, transfers, and field-by-field mapping of records: straight copying.
- Sorting: a stable insertion sort stands for the library's stable sort.
- Record files beyond the chain: signatures, address books, attestation and the v6 file hash.
- `resolve_bootstrap` and the extraction of the publication from a transaction body.
- Bindings for Node, fuzz targets, examples and command dispatch.
