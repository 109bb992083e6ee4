# Verified accounting core of the p2pool observer

A Dafny model of the part of the p2pool-salvium observer that turns bytes into shares, shares into weights,
weights into payouts, and payouts into a ledger that survives restarts. Four pieces are modelled and joined:

1. **128-bit difficulties** (`GoInt`, `Difficulties`). 64-bit words with every wrap written out, shifts and ORs as
   arithmetic. `Add`, `Sub`, `Cmp`, `Mul64`, `Div64` and the shift-and-subtract `Div` refine natural numbers on all
   inputs.
2. **The PPLNS window and the reward split** (`Window`, `Tally`, `Sorting`, `Split`, `Pplns`, `Accounting`, `Earnings`,
   `Cache`). `Pplns` is the calculation as it runs: a result object, accounts updated in place, an exchange sort on an
   array. Each method is proved equal to a function (`Window.WindowOf`, `Tally.TallyOf`, `Split.RegisterAmounts`), and
   conservation, the cap, bounds and independence of map order are proved of those functions. `Earnings` says of the
   visited shares alone which they are and what every miner earns in them.
3. **The payout ledger** (`PayoutLedger`, `Runs`, `Rebuilds`, `RebuiltRuns`, `Records`, `Daemons`, `Service`).
   `Daemons.Daemon` holds the memory maps over a `Redis` object; its cycle is proved equal to a step of a state machine
   over cycles, failed fetches and restarts, and the invariants are proved of every run of that machine. `Records` says
   of the events alone what the payout keys then hold. `Service.Serve` runs one daemon object after another over one
   store and ends where such a run ends.
4. **Wire and address formats** (`Wire`, `Layout`, `Parsing`, `Parser`, `RoundTrip`, `Panics`, `Imitations`, `Accepted`,
   `Base58`). `Layout` writes the documented layout out as a serializer, `Parser` fills a share record in place as the
   code does, and `RoundTrip` proves exactly when the one inverts the other; `Imitations` says it of the bytes of one
   hash, `Accepted` says what accepted bytes hold, `Panics` when the parser panics.

`EndToEnd` joins them: from a share map to atomic units in one call, and from a window through any run of cycles to the
records that each miner ends up with.

## Modelling decisions

- A parser or reader ends in `Ok`, `Failed` (an error return) or `Panicked` (an index or slice out of range). Conversion
  of lengths to Go's `int` is modelled (`ToInt`), so the parser methods have no preconditions. The guard against an
  empty block body panics while it formats its own error message (`p2pool/parser.go:40-41`); the model says `Panicked`.
- Iteration over a Go map takes any remaining key (`:|`). `TopMiners` is therefore specified by a relation: all accounts
  once, by descending weight, ties in any order. What must not depend on the order is proved not to.
- A Go array held in a struct (`[30]int`) is a value, so it is a sequence here. `MinerWeight` is a class, since the map
  holds pointers that `addWeight` writes through.
- The daemon's set of processed heights stands for its `map[uint64]bool`, which only ever holds `true`.
- Redis is a map whose writes succeed and JSON gives back what was written. One RPC answer per found block and cycle is
  an input; `None` is a failed call. Keccak-256 is an arbitrary function from bytes to 32 bytes.
- Keys are ASCII, and every key matching the payout pattern was written by the daemon (`WellKeyed`, kept by every step).
- No bound on a difficulty or the cap is assumed for the window. Exact payouts are proved for windows whose raw
  difficulty, and its product with the reward, fit 128 bits (`Fits`).

## Where the code and its promises part

Each point comes with an input on which the promise fails and the exact condition under which it holds.

- **Lookahead.** A block without a protocol transaction is misread when the bytes after `rct_type` parse as one; that
  takes exactly four transactions (`FourTransactionsNeeded`). The boundary is found if and only if the lookahead fails
  or what it skips to resynchronises (`BoundaryExact`). The share is recovered if and only if the boundary is found, or
  the sidechain part reads alike from the wrong place, which takes a second copy of the block's four keys there
  (`EntryReadsBack`). In bytes: it is recovered unless its first hash begins like a protocol transaction
  (`EntryRecovered`). `LookaheadCanMislead` gives a valid block whose share is not recovered, `ShareLost` a family.
- **Panics.** Three kinds of length are used without a range check: those of the coinbase transaction's extra field, of
  the lookahead's, and of merge-mining data. `EntryPanics` says of every byte string exactly when parsing it panics. A
  valid block of four transactions can do it, since the lookahead reads their hashes (`ValidEntryPanics`,
  `ParserCanPanic`).
- **Rebuild.** `RebuildAllPayouts` has no guard for processed heights, so it agrees with `calculatePayouts` from an empty
  ledger if and only if no height comes back with a second usable answer, or there is no miner (`RebuildAgrees`,
  `RebuildPaysTwice`). It credits an address if and only if one of its answers has enough outputs to reach it
  (`RebuildCredits`), and leaves the keys of all others in the store. A height's records all come from the rebuild if and
  only if none of these others had one (`RebuiltRecords`); `OnceAfterRebuild` says exactly which heights stay credited
  once, and `RebuildThenTwice` is a run that credits a miner twice.
- **Dust.** The comment at `p2pool/pplns.go:302` gives the dust to the last miner. It goes there if and only if the dust
  of the others together makes no whole atomic unit (`DustLastExactly`, `WindowDust`); with three equal miners and a
  reward of two it does not (`DustNeedNotGoLast`).
- **Penalty.** It is a fifth of the uncle's difficulty if and only if 20 times the difficulty fits 128 bits
  (`PenaltyIsFifth`, `PenaltyNeedNotBeFifth`). It never exceeds the difficulty, so conservation holds regardless.
- **Restarts.** The stores always agree. The memories agree unless a restart follows the last cycle that had found
  blocks and there was something to forget: then a restarted daemon's memory is still empty
  (`RestartsInvisible`, `RestartForgetsMeanwhile`).

## Model

| member | source | states |
|---|---|---|
| Difficulties.Difficulty.Cmp | p2pool/types.go:37-51 | three-way order of the 128-bit values, zero only for equal words |
| Difficulties.Difficulty.Add | p2pool/types.go:224-231 | carry propagation is addition modulo 2^128 |
| Difficulties.Difficulty.Sub | p2pool/types.go:234-241 | borrow propagation is subtraction modulo 2^128 |
| Difficulties.Difficulty.Mul64 | p2pool/types.go:244-260 | four 32-bit partial products make the product modulo 2^128 |
| Difficulties.Difficulty.Div64 | p2pool/types.go:264-288 | two-stage division is the exact floor quotient; a zero divisor gives zero |
| Difficulties.BitsDiv64 | p2pool/types.go:281-285 | the returned word is the one q with q*y <= hi:lo < (q+1)*y, wherever the high word lies below the divisor, as in every call |
| Difficulties.AddThenSub | p2pool/types.go:224-241 | subtraction undoes addition on every pair, wrapping included |
| Difficulties.SubThenAdd | p2pool/types.go:224-241 | addition undoes subtraction on every pair, wrapping included |
| Difficulties.OrderAgrees | p2pool/types.go:37-51 | Cmp shows exactly when a sum or a difference did not wrap |
| Difficulties.ShiftIsSafe | p2pool/types.go:311-323 | the unguarded 128-bit shift loses no bit: the remainder never exceeds the dividend prefix read |
| Difficulties.RoundSubtracts | p2pool/types.go:311-334 | a round that subtracts keeps prefix = quotient * divisor + remainder, remainder below the divisor |
| Difficulties.RoundSkips | p2pool/types.go:311-334 | a round that does not subtract keeps the same invariant |
| Difficulties.Div | p2pool/types.go:292-337 | exact floor quotient for every dividend and nonzero divisor, above 2^127 too; zero divisor gives zero |
| Wire.ReadVarint | p2pool/types.go:154-177 | the loop returns the digit sum modulo 2^64 of the bytes up to the first without continuation bit, or fails |
| Wire.VarintConsumes | p2pool/types.go:154-177 | every success reads 1 to 10 bytes, all but the last continued, and yields their digit sum modulo 2^64 |
| Wire.VarintExact | p2pool/types.go:154-177 | a read succeeds exactly on one to ten bytes of which only the last lacks the continuation bit |
| Wire.VarintReadsBack | p2pool/types.go:154-177 | unsigned LEB128 of any 64-bit number is read back, at any place in any slice, consuming exactly it |
| Wire.EncodingAtMostTen | p2pool/types.go:171-174 | no encoding of a 64-bit number reaches the overflow guard |
| Wire.ReadHash | p2pool/types.go:180-187 | returns the 32 bytes at the offset, whenever they are there |
| Wire.ReadUint32LE | p2pool/types.go:190-196 | returns the number whose little-endian bytes stand at the offset |
| Wire.ReadByte | p2pool/types.go:208-213 | returns the byte at the offset, whenever it is there |
| Wire.SkipBytes | p2pool/types.go:216-221 | advances by n inside the slice and never past its end; a negative or wrapping sum is not refused |
| Parser.SkipAllOutputs | p2pool/parser.go:168-230 | the output loop, full and compact, equals the recursive skip |
| Parser.SkipProtocolTx | p2pool/parser.go:448-530 | equals the lookahead: skips to the end of a protocol transaction or rolls the offset back |
| Parser.ParseMainchainData | p2pool/parser.go:81-280 | outcome, boundary offset and the six filled fields are those of the specified parse |
| Parser.ReadHashList | p2pool/parser.go:346-352 | the reading loop returns the listed hashes and the offset after them, or the same failure |
| Parser.ReadMergeMiningMap | p2pool/parser.go:405-431 | the map the loop fills, later entries for a chain winning, with the same failures |
| Parser.ParseSidechainData | p2pool/parser.go:302-443 | on success leaves exactly the specified share behind, otherwise ends with the same kind of failure |
| Parser.ParseCacheEntry | p2pool/parser.go:18-62 | a fresh record holding the specified share, or the same failure or panic, on every byte string |
| RoundTrip.HeaderReadsBack | p2pool/parser.go:88-152 | every serialized header yields its fields and its exact end |
| RoundTrip.OutputsSkip | p2pool/parser.go:168-230 | full and compact outputs are skipped to their last byte, any asset length |
| RoundTrip.ProtocolTxSkips | p2pool/parser.go:448-530 | a protocol transaction that is there is recognised and skipped exactly |
| RoundTrip.BoundaryExact | p2pool/parser.go:81-280 | every block yields its mainchain fields and the boundary `BoundaryFound` describes; it is the true one if and only if the lookahead is right or resynchronises |
| Imitations.SmallExact | p2pool/types.go:154-177 | a number below 128 is read exactly from its spellings, written out byte by byte, overlong ones included |
| Imitations.ProtocolHeadExact | p2pool/parser.go:456-487 | a head is accepted exactly if spellings of 4, 60 and 1, the byte `ff` and a number stand there |
| RoundTrip.FourTransactionsNeeded | p2pool/parser.go:263-277 | a block without protocol transaction and not exactly four transactions is never mistaken |
| RoundTrip.LookaheadMisleads | p2pool/parser.go:263-277 | a whole family of blocks on which the parser stops 119 bytes early |
| RoundTrip.ShareLost | p2pool/parser.go:18-62 | every block of that family whose first key does not begin with a zero byte comes back as another share or not at all |
| RoundTrip.LookaheadCanMislead | p2pool/parser.go:263-277 | a concrete valid block of that family, whose share ParseCacheEntry does not recover: the condition cannot be dropped |
| RoundTrip.SidechainReadsBack | p2pool/parser.go:302-443 | every serialized sidechain part yields all its fields, duplicate merge-mining chains included |
| RoundTrip.BlockOutcome | p2pool/parser.go:36-61 | on every valid block the outcome is that of the sidechain part read from the boundary found, with its failures and panics |
| RoundTrip.KeysComeFirst | p2pool/parser.go:310-332 | a sidechain part that is read begins with the four keys that come out of it |
| RoundTrip.BlockReadsBack | p2pool/parser.go:36-61 | a block is recovered from its own bytes if and only if the sidechain part reads alike from the boundary found; unless the keys recur there, if and only if the boundary is the true one |
| RoundTrip.EntryReadsBack | p2pool/parser.go:18-62 | ParseCacheEntry inverts the serializer, with any bytes behind the entry, under the same two if-and-only-if conditions |
| Imitations.EntryRecovered | p2pool/parser.go:18-62 | a valid block keeps its boundary and gives back all kept fields unless it has no protocol transaction, version 10 or more, four transactions, and a first hash that begins with spellings of 60 and 1 and `ff` |
| Imitations.ImitationBegins | p2pool/parser.go:456-481 | such a hash begins with the byte `3c` or `bc` |
| Accepted.HeaderExact | p2pool/parser.go:81-152 | a header is accepted exactly if its fields and its constant bytes 4, 1 and `ff` stand in the documented order |
| Accepted.UnclesStand | p2pool/parser.go:334-352 | at most ten uncles are accepted, and they stand after their number |
| Accepted.EntryAccepted | p2pool/parser.go:18-62 | what every accepted entry holds: a complete block of version 1 to 20, the prepended id, the header of the share, at most ten uncles |
| Panics.EntryPanics | p2pool/parser.go:18-62 | on every byte string: parsing panics if and only if the announced block is empty, or has a known version and an extra field whose skipping goes negative or merge-mining data that ends beyond the range of `int` |
| Panics.ExtraPanics | p2pool/parser.go:232-259 | after the outputs, a panic exactly when the length read there makes the offset negative |
| Panics.ProtocolPanics | p2pool/parser.go:448-530 | the lookahead panics exactly when its outputs can be skipped and its extra length makes the offset negative |
| Panics.TransactionsNeverPanic | p2pool/parser.go:267-279 | skipping the transactions never panics, whatever count is read |
| Panics.MergeMiningPanics | p2pool/parser.go:406-431 | reading the entries panics exactly when one that is reached ends beyond the range of `int` |
| Panics.SidechainPanics | p2pool/parser.go:302-443 | nothing else in a sidechain part panics |
| Panics.ValidEntryPanics | p2pool/parser.go:448-530 | a family of valid blocks, by their first transaction hash, whose entries panic |
| Panics.ParserCanPanic | p2pool/parser.go:448-530 | a concrete valid block of that family |
| Base58.EncodeBlock | p2pool/types.go:135-150 | the 64-bit accumulator and the digit loop give the base-58 digits of the block's number |
| Base58.EncodeMoneroBase58 | p2pool/types.go:103-132 | full blocks, then a shorter last one, in the documented sizes |
| Base58.MoneroDecodes | p2pool/types.go:103-150 | an explicit decoder inverts the encoder on every byte string |
| Base58.MoneroLength | p2pool/types.go:109-115 | the length is that of the reserved buffer |
| Base58.MoneroClean | p2pool/types.go:98 | no encoding holds the separator of store keys |
| Base58.ToBase58 | p2pool/types.go:72-88 | 98 characters, none of them ':', for any checksum function |
| Base58.AddressContents | p2pool/types.go:72-88 | decoding an address gives 71 bytes: the network prefix, the two keys, and the first four checksum bytes of what is before them |
| Base58.AddressBegins | p2pool/types.go:70-75 | every address begins with "SC1" |
| Base58.ToBase58Injective | p2pool/types.go:72-88 | distinct key pairs have distinct strings, so the string is a sound payout key |
| Window.PenaltyAtMostDifficulty | p2pool/pplns.go:115-121 | the penalty never exceeds the uncle's difficulty, and penalty and weight add up to it |
| Window.PenaltyIsFifth | p2pool/pplns.go:115-117 | it is a fifth rounded down if and only if 20 times the difficulty fits 128 bits |
| Window.PenaltyNeedNotBeFifth | p2pool/pplns.go:115-117 | an uncle of difficulty 2^124 pays less than a fifth |
| Window.WeightConserved | p2pool/pplns.go:102-148 | total weight = sum of all credits = difficulty of all visited shares and counted uncle references |
| Window.CapRespected | p2pool/pplns.go:85-155 | the weight before each main share and after each uncle is within the cap; the end exceeds it by at most the last share's own difficulty plus the penalties it collects |
| Window.WalkBounded | p2pool/pplns.go:97-177 | 1 to 2160 visits on every map, cyclic ones included, along the parent chain from the tip |
| Window.WalkDistinct | p2pool/pplns.go:149-176 | with consistent heights no share is visited twice and the bottom height is tip - visits + 1 |
| Earnings.WindowExactly | p2pool/pplns.go:97-177 | the visits are the one list that starts at the tip, goes on to the known parent until the weight exceeds twice the difficulty, 2160 shares are visited or the genesis block is, and counts exactly the uncles that are known, less than 2160 below the tip and under the cap at their turn |
| Earnings.AccountsEarned | p2pool/pplns.go:102-148 | an account exists exactly for miners of visited shares and counted uncles, and holds their difficulty, collected penalties and what is left of uncles, their depths, and these by bucket |
| Cache.WalkParentChainFromMap | p2pool/cache.go:162-185 | calls back along the chain up to the depth limit or the first refusal, and reports the refusal |
| Cache.RestWalks | p2pool/cache.go:162-185 | the visited shares are linked by known parents, none but the last refused or a genesis block, and stop only where they must |
| Cache.WindowFollowsWalk | p2pool/cache.go:162-185 | the window's visits are a prefix of that walk at depth 2160 |
| Tally.TallyAccounts | p2pool/pplns.go:190-207 | an account exists exactly for credited miners and holds their weight, counts and positions in order |
| Tally.SumOverAll | p2pool/pplns.go:190-207 | summed over all miners in any order, each measure is that of the credit list |
| Tally.Bucket | p2pool/pplns.go:225-233 | the bucket index is always below 30 |
| Tally.BucketInside | p2pool/pplns.go:225-233 | inside the window the clamp never acts; the first depth is bucket 0, the last bucket 29 |
| Tally.BucketMonotone | p2pool/pplns.go:225-233 | deeper shares never land in earlier buckets |
| Tally.HistogramConserves | p2pool/pplns.go:216-246 | the buckets add up to the number of positions |
| Tally.HistogramCounts | p2pool/pplns.go:216-246 | each bucket counts exactly the positions that fall into it |
| Pplns.PPLNSResult.AddWeight | p2pool/pplns.go:190-207 | the account map after the call is the old one with the credit added, other accounts untouched |
| Pplns.PPLNSResult.FinalizeBuckets | p2pool/pplns.go:210-248 | every account gets the histogram of its positions, in any iteration order |
| Pplns.CountPositions | p2pool/pplns.go:216-246 | the counting loop computes the histogram |
| Sorting.ExchangeSort | p2pool/pplns.go:396-402 | in place, descending, and a permutation |
| Sorting.DescendingUnique | p2pool/pplns.go:396-402 | a multiset of numbers has one descending order, so ties cannot show in it |
| Pplns.SortedIsTopOrder | p2pool/pplns.go:388-408 | any collection order, sorted, lists every account once by descending weight |
| Pplns.PPLNSResult.TopMiners | p2pool/pplns.go:388-408 | the first n of some such order, all of it when n is large enough, and a panic exactly when n is negative |
| Pplns.PPLNSResult.GetOrderedMiners | p2pool/pplns.go:413-424 | the addresses of such an order |
| Pplns.CalculatePPLNS | p2pool/pplns.go:79-186 | the result object holds what the window determines: accounts, buckets, total and counts, and spans from the tip to the last visit in heights and seconds |
| Pplns.SplitReward | p2pool/pplns.go:314-330 | the cumulative loop computes the register amounts |
| Pplns.PPLNSResult.EstimatedPayout | p2pool/pplns.go:303-333 | every miner of the order, and nobody else, is paid its amount; no weight pays nothing |
| Pplns.PPLNSResult.EstimatedPayoutOrdered | p2pool/pplns.go:337-368 | the same amounts as a list, position by position |
| Split.PrefixSum | p2pool/pplns.go:317-330 | the first k payouts sum to floor(W_k * reward / total) |
| Split.SplitConserves | p2pool/pplns.go:317-330 | all payouts sum to the reward |
| Split.AmountNearProportion | p2pool/pplns.go:317-330 | each payout is its proportion rounded down or up, exact where it is whole |
| Split.DustLastExactly | p2pool/pplns.go:302-330 | the last miner gets all the dust if and only if that of the others together is below one unit |
| Split.DustNeedNotGoLast | p2pool/pplns.go:302-330 | three equal miners sharing two units: the second one is paid a unit of dust |
| Split.RegistersExact | p2pool/pplns.go:317-330 | without overflow the 128-bit registers compute the exact split and the subtraction never underflows |
| Split.RegistersWrap | p2pool/pplns.go:314-330 | overflow or not, the amounts in terms of the weights as numbers and remainders |
| Split.CreditByPosition | cmd/daemon/main.go:953-988 | amounts in any order, sorted and credited by position, are still fair and sum to the reward |
| Accounting.MinersSumToTotal | p2pool/pplns.go:44-45 | the miners' weights, in any order, sum to TotalWeight and to the window's difficulty |
| Accounting.WeightsByPosition | p2pool/pplns.go:387-408 | two iteration orders give permutations of the same accounts with the same weight list |
| Accounting.AmountsByPosition | p2pool/pplns.go:345-365 | the amount list does not depend on map iteration, ties included |
| Accounting.PayoutConserves | p2pool/pplns.go:303-333 | for every share map, tip, cap and reward the payouts are the exact split of the window |
| Accounting.WindowDust | p2pool/pplns.go:302-330 | the same condition for the payouts of every window that fits 128 bits |
| Accounting.SnapshotCredits | cmd/daemon/main.go:953-988 | coinbase in one order, snapshot in another: every miner gets its proportion rounded down or up, summing to the reward |
| Accounting.WindowCounted | p2pool/pplns.go:139-148 | one main credit per visit, one uncle credit per counted reference |
| Accounting.CountsConserved | p2pool/pplns.go:139-148 | counts sum over miners to BlocksIncluded and UnclesIncluded |
| Accounting.BucketsConserved | p2pool/pplns.go:190-248 | every recorded depth is below BlocksIncluded, and each miner's buckets sum to its counts |
| Accounting.BucketEndsReached | p2pool/pplns.go:210-248 | with more than one share both end buckets are reached |
| Daemons.ReadAddress | cmd/daemon/main.go:1082-1094 | the byte loop reads the address out of a key |
| PayoutLedger.KeyReadsBack | cmd/daemon/main.go:999 | the address read out of a key is the one it was made of, for every colon-free address |
| Daemons.SortOutputs | cmd/daemon/main.go:953-962 | the outputs in their one descending order |
| Daemons.Daemon.LoadProcessedPayouts | cmd/daemon/main.go:1024-1033 | merges the stored heights into the memory |
| Daemons.Daemon.LoadPPLNSSnapshots | cmd/daemon/main.go:1037-1049 | merges the stored snapshots into the memory |
| Daemons.Daemon.LoadMinerPayouts | cmd/daemon/main.go:1067-1103 | files every stored list under the address in its key, in any key order |
| Daemons.Daemon.LoadEmpty | cmd/daemon/main.go:878-887 | loads exactly the parts of the memory that are empty |
| Daemons.Daemon.CreditOutputs | cmd/daemon/main.go:953-988 | appends one record per position that has both an output and an address |
| Daemons.Daemon.ProcessBlock | cmd/daemon/main.go:901-994 | one ledger step: skip, snapshot, fetch failure, credit and mark; and what the cycle must write |
| Daemons.Daemon.ProcessBlocks | cmd/daemon/main.go:901-994 | the loop folds that step over the found blocks and updates their rewards |
| Daemons.Daemon.PersistPayouts | cmd/daemon/main.go:996-1013 | the store after the writes, old keys kept, in any iteration order |
| Daemons.Daemon.CalculatePayouts | cmd/daemon/main.go:871-1021 | a cycle of the state machine, against some order of the window's miners |
| Daemons.Daemon.SyncCycle | cmd/daemon/main.go:336-354 | the same against the window of the current shares |
| Daemons.Daemon.constructor | cmd/daemon/main.go:878-887 | a new process is the restart step: empty memory over the same store |
| Daemons.Daemon.RebuildAllPayouts | cmd/daemon/main.go:1117-1234 | fails before any change without a tip; otherwise memory and store are those of the rebuild |
| Service.OneCycle | cmd/daemon/main.go:336-354 | a cycle of a daemon object in a state that a run reaches is the next event of that run |
| Service.Serve | cmd/daemon/main.go:273-289 | through any cycles and restarts the daemon running at the end holds, in memory and store, what the run of the ledger holds, and no address has two records of a height |
| Runs.StepInSync | cmd/daemon/main.go:871-1021 | every step keeps memory and store in agreement, and stored keys well-formed |
| Runs.RestartsInvisible | cmd/daemon/main.go:878-887 | dropping the memory between any cycles leaves the same store; the memory is empty while a restart follows the last cycle with found blocks and the same otherwise, so it differs exactly then, unless it began empty and no cycle had found blocks |
| Runs.UnrestartedMemory | cmd/daemon/main.go:900-994 | a daemon that never restarts has an empty memory only if it began so and no cycle had found blocks |
| Runs.RestartForgetsMeanwhile | cmd/daemon/main.go:878-887 | a sighting and a restart after which the memories differ |
| Runs.RunRemembers | cmd/daemon/main.go:996-1013 | what is persisted after a run depends on the list of sighted blocks and answers alone |
| Runs.LedgerExplained | cmd/daemon/main.go:901-994 | closed form of every height: first sighting gives the snapshot, first usable answer the credit |
| Records.FirstSighting | cmd/daemon/main.go:919-927 | the snapshot is the miner order of the first cycle and place at which the height appears |
| Records.FirstAnswer | cmd/daemon/main.go:929-939 | the credit is from the first cycle and place at which its outputs could be fetched and were not empty |
| Records.RecordsSpelledOut | cmd/daemon/main.go:953-1013 | the payout keys, read from the store: one record for each address in reach, with its height, hash, amount by position and time, and none for others; the height processed, its snapshot kept |
| Records.NoRecordsYet | cmd/daemon/main.go:929-939 | without an answer a height has no records and is not processed; without a sighting it has no snapshot |
| Records.TotalIsSum | cmd/daemon/main.go:941-945 | the total of the outputs is their sum modulo 2^64 |
| Records.RewardsStored | cmd/daemon/main.go:904-951 | a cycle in which a block without reward gets one stores the found blocks with these sums filled in and nothing else changed |
| Runs.OneRecordPerHeight | cmd/daemon/main.go:901-994 | at most one record per address and height after any run |
| Runs.FirstSightAttribution | cmd/daemon/main.go:919-992 | the credited addresses are a prefix of the first sighting's miner order, each with the amount at its position |
| Runs.RecordedFrozen | cmd/daemon/main.go:901-917 | once credited, the records of a height never change; before that there are none |
| Runs.CreditedInOneCycle | cmd/daemon/main.go:901-994 | each height is credited in at most one cycle |
| Rebuilds.RebuildAgrees | cmd/daemon/main.go:1142-1206 | same processed heights always; same payouts if and only if no height has a second usable answer |
| Rebuilds.RebuildAgreesOnDistinctHeights | cmd/daemon/main.go:1142-1206 | full agreement on distinct heights |
| Rebuilds.RebuildPaysTwice | cmd/daemon/main.go:1142-1206 | a height found twice: the rebuild records two payouts, the cycle one |
| Records.RebuildSpelledOut | cmd/daemon/main.go:1149-1203 | every list a rebuild leaves, record by record and field by field |
| Records.RebuildProcesses | cmd/daemon/main.go:1149-1203 | a rebuild marks exactly the heights at which some answer has outputs |
| RebuiltRuns.RebuiltLedger | cmd/daemon/main.go:1208-1217 | what the next process loads: rebuilt heights and lists, the old lists of everyone else, the old snapshots |
| RebuiltRuns.RebuildCredits | cmd/daemon/main.go:1180-1200 | the rebuild credits an address if and only if some usable answer has more outputs than miners before it |
| RebuiltRuns.RebuiltRecords | cmd/daemon/main.go:1149-1217 | addresses the answers reach have the rebuilt records of a height, all others their old ones; they all come from the rebuild if and only if none of the others had any |
| RebuiltRuns.RunKeepsOnce | cmd/daemon/main.go:901-994 | from any ledger, a processed height keeps its records and a height credited once is never credited again |
| RebuiltRuns.OnceAfterRebuild | cmd/daemon/main.go:1142-1217 | exactly which heights stay credited once, by the number of usable answers and by who beyond their reach had a record |
| RebuiltRuns.RebuildThenTwice | cmd/daemon/main.go:1142-1217 | a credit, a rebuild that cannot fetch the height, and a cycle that credits the same miner again |
| EndToEnd.PayWindow | p2pool/pplns.go:303-333 | from share map to atomic units: the payouts of a window sum to the block reward, each miner of a visited share or counted uncle getting its part by earnings, rounded down or up; without weight there are none |
| EndToEnd.AmountsEarned | p2pool/pplns.go:317-330 | amounts split by weight are split by earnings, whatever the order of the accounts |
| EndToEnd.CreditedFairly | cmd/daemon/main.go:953-988 | after any run, every miner of the paying window has exactly one record of the height in the store, with the block's hash and time and its part by earnings; nobody else has any, and the amounts sum to the reward |
| EndToEnd.PaidLate | cmd/daemon/main.go:919-939 | every window without overflow meets the hypothesis of `CreditedFairly`, even across a failed fetch, a restart and any later miner order |

## Left out

- Percentages, hashrate, effort and `MinerPercentage`: floating-point numbers for display. A payout record keeps height,
  hash, amount and timestamp.
- Redis, JSON, HTTP, signals, logging and tickers: plumbing around the modelled state; failed or partial writes within a
  cycle are not modelled.
- The list of found blocks is an input of a cycle: loading it, removing orphans and finding the finder are not modelled.
- `findTip`, the choice of the mainchain difficulty and the fallback for it: the tip and the difficulty are inputs.
- `WalkParentChain` and `LoadAllShares` over Redis; the walk over a share map is modelled.
- `cmd/api`, `cmd/web`, `html/` and `p2pool/rpc.go`: handlers, user interface and a network client.
- Keccak-256 itself and the validity of keys as curve points.
- Position strings, `TruncateAddress`, hexadecimal conversion and supply parsing: formatting without consequences.
- Memory limits of the Go runtime: a count that parses but is too large to allocate is not modelled.
- Error messages: a failure says only that it is one.
- EndToEnd.CreditedFairly: assumes the answer holds the split of one window's weights; that the C++ side pays that split is not part of this model.
