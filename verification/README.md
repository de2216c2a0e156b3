# BurritoCoin core: a Dafny model

The project models the algorithmic core of the BurritoCoin node and proves what
it is for: mutable structures as classes, array algorithms on arrays, a
threaded protocol as a state machine, codecs as pairs of inverse functions.
`dafny verify dfyconfig.toml` checks all of it. Hash functions, clocks, random
draws, disk and network are parameters; every statement holds for all of their
values.

| module | models | main result |
|---|---|---|
| `Miner`, `MinerScore`, `MinerCases` | block assembly from ancestor packages, the score order, the minimum fee | every selection, with all refusals of the MWEB miner, ends in an ordered, ancestor-closed, exactly accounted block within limits, and leaves nothing out without a reason at a moment of the run |
| `Coins` | the stack of coin caches | any run changes the stack and answers like one plain map |
| `MerkleBlock`, `MerkleSize` | partial Merkle trees | building and extracting are inverse, and extraction reports only true matches; exactly when the size guarantee holds |
| `AddrMan` | the address manager | the joint invariant of five indexes over every operation; the consistency check passes exactly while the times are in order |
| `CheckQueue` | the script-check queue | in every interleaving Wait returns the exact verdict, and it always returns |
| `Bloom` | the rolling bloom filter | it answers exactly for the last two to three generations |
| `CuckooCache` | the signature cache | conservation under displacement, exact epochs, always room |
| `ArithUint256`, `Compact` | 256-bit arithmetic, compact targets, block proof | limb algorithms compute the numbers modulo 2^BITS; the codec rounds down and is idempotent |
| `Chain`, `ChainWalk` | block index, skip list, active chain, locators | the skip list refines following parents, in at most k^2 steps below height 2^k |
| `Bech32`, `Bech32Poly`, `Bech32Errors`, `Base58`, `Compressor` | address and amount codecs | exact acceptance, inverse both ways, the checksum as a remainder over GF(32), every three errors within 1023 symbols detected |
| `Bech32Field`, `Bech32Bits`, `Bech32Order`, `Bech32Symbols`, `Bech32Zeros` | the field behind that | GF(1024), the order of y, GF(32) inside it, three zeros of the generator |
| `BitStream`, `BlockFilter` | bit streams over bytes, Golomb-coded set filters | decoding undoes encoding, matching is exact on values, exactly the filters of N codes are accepted |
| `BlockEncodings`, `BlockEncodingsCases` | compact block relay | announce, reconstruct, complete gives the block back; what a reused object misses |

`Numbers`, `Collections`, `Hashing` and `Wrappers` hold what the others share.

## Where the code differs from its comments

The model follows the code.

- `src/miner.h:123` subtracts the plain fee of an included parent where
  `src/miner.cpp:305` subtracts the modified fee of the first one reported: the
  recorded package fee is exact if and only if the fee deltas of the other included
  ancestors cancel out (`Miner.RecordedFee`), and in every order of reporting if and
  only if there is at most one included ancestor or none has a delta
  (`Miner.FeeExactIff`). `MinerCases.RecordedFeeIsOff` has a mempool where it is off.
- `src/miner.cpp:343-349` says that the state of the descendants of selected transactions
  is updated. What goes into the block before the MWEB miner refuses a package is never
  reported (`src/miner.cpp:489-492`), so later figures count it again. A package is judged
  by what is still to be added if and only if none of its ancestors went in that way
  (`Miner.JudgedByPackageIff`); in `MinerCases.RefusalTakesRoom` a transaction that would fit
  is turned down for it.
- `src/miner.cpp:424` says that everything else has a lower fee rate when a candidate
  is below the minimum. That is so of the rates, for entries not poorer than their
  package, if and only if the rate by which the candidate is ordered is below the minimum
  rate (`MinerScore.RestIsCheap`); with the rounding and the MWEB fee of the minimum, no
  such entry pays more than it needs if and only if that rate is at most the minimum
  rate (`MinerScore.RestPaysNoMore`). Three runs show what the comment misses:
  a transaction poorer than its package (`MinerCases.RestMayBeDearer`; exactly which are
  safe, `MinerScore.NeverMissedIff`), a candidate short of its MWEB fee
  (`MinerCases.RestMayNeedLess`), and the rounding (`MinerCases.RestMayMeetItsMinimum`;
  exact at a whole number per byte, `MinerScore.RoundingIff`).
- The comparator of `src/txmempool.h:335` is a weak order of the entries that have a size,
  or a fee for no size, and of no others (`MinerScore.ScoreIsWeakOrder`,
  `MinerScore.ScoredIff`); MWEB-only transactions with a lowered fee can precede each other
  in a circle (`MinerCases.ScoreMayCycle`). The selection is proved for every comparator.
- `src/merkleblock.h:52` promises at most 2N-1 flag bits: true if and only if no
  match lies below a node with one child (`MerkleBlock.BitBound`,
  `MerkleBlock.BitBoundFails`). So the size guarantee of `src/merkleblock.h:39` can be
  missed by a byte (`MerkleSize.SizeGuaranteeFails`; exactly when, by the number of
  transactions and the matches, `MerkleSize.SizeIff`).
- `CPartialMerkleTree::ExtractMatches` clears the matches but not the positions
  it is given.
- `CAddrMan::Add_` returns true for an unknown address even when the new entry is
  dropped again.
- `CCoinsViewCache::SpendCoin` also returns true for an entry that is already spent
  but not flushed; `AddCoin` reduces the memory count before it throws. Of the five
  flag states listed in `src/coins.h:131-136` only four occur.
- The packed height of a coin keeps 30 bits, although the field has 31
  (`Coins.CodeRoundTrip`).
- The first cuckoo displacement is from the second location, not the first. The comment
  at `src/cuckoocache.h:425` says that the element just put in is not moved: true
  unless its location comes twice in a row (`CuckooCache.PutInIsMoved`); in
  `CuckooCache.PutInMayMove` an insert takes its own element out again.
- The comment at `src/chain.cpp:80` gives the steps of a walk as seen in simulations;
  `ChainWalk.StepBound` is a bound for every height.
- A `PartiallyDownloadedBlock` used again keeps its `mempool_count`. `InitData` goes through
  all sources if that count is 0 or more than the new IDs; for every other count there is a
  pool with a transaction that it misses (`BlockEncodingsCases.StaleMisses`, `ReuseMisses`,
  and the run `TwoBlocks`).
- The log line at `src/blockencodings.cpp:227` calls `extra_count` a lower bound. It wraps
  around when more IDs have one transaction in the pool and a different one among the
  extra transactions than only the extra transactions have
  (`BlockEncodingsCases.ExtraCountWraps`), and is a lower bound in exactly the other cases
  (`BlockEncodingsCases.LowerBoundIff`).
- `CompressAmount` wraps around for large amounts within MAX_MONEY
  (`Compressor.AmountRoundTrip` has the exact bound).

## Model

| member | source | states |
|---|---|---|
| `Miner.BlockAssembler.AddPackageTxs` | src/miner.cpp:353-494 | For every comparator, also one that is no order, and all answers of the MWEB miner the loop ends with a block that is ancestor-closed, in topological order, exactly accounted, within the weight, sigop and MWEB limits, starts with what was in it, and holds exactly the offered transactions that the MWEB miner took. In every run whatever was turned down, also before a stop, had, at a recorded length of the block, a barred transaction in its package or no room for itself and the ancestors not reported to be in the block; or it is in the rest of a recorded package that passed both tests, went in up to a transaction with MWEB data, and was refused there by the answer to a recorded offer; what went in before a refusal is all that is not reported. Without an early stop that covers everything left out. If all is eligible and fits, only refusals leave anything out, and nothing is left out if the MWEB miner takes everything or there is no MWEB transaction. An early stop means a nearly full block without room for more than a thousand different candidates, or a candidate below the minimum fee that is in the index or next in the walk and, if the comparator is a weak order that the walk follows, that no other entry precedes; its figures are those of itself and the ancestors not reported, with the stated fee deltas, unless it has failed before. A first candidate below the minimum stops an empty block |
| `Miner.BlockAssembler.SelectPackages` | src/miner.cpp:374-493 | The selection loop keeps the shadow index exact for what was reported, every omission and every refusal explained at a moment of the run, and the failure counter equal to the number of candidates there was no room for, over any number of rounds, for every comparator and all answers of the MWEB miner, and terminates; it stops without a change when the first candidate is below the minimum |
| `Miner.BlockAssembler.Rounds` | src/miner.cpp:374-493 | The loop ends with walk and index used up, or with a stop; every round keeps the invariant of the selection |
| `Miner.BlockAssembler.Round` | src/miner.cpp:374-406 | For every comparator one round includes something, or uses up an entry of the walk or of the index, or stops; `assert(!inBlock.count(iter))` holds; what it turns down or the MWEB miner refuses is explained at this moment of the run |
| `Miner.BlockAssembler.Choose` | src/miner.cpp:387-406 | The candidate is the entry of the walk, which then moves on, or an entry of the shadow index; if the comparator is a weak order that the walk follows, no other entry of either precedes it |
| `Miner.BlockAssembler.Consider` | src/miner.cpp:412-493 | The verdict on a candidate is exact: fee below the minimum, no room for it and its unreported ancestors, barred by the transaction checks, whole package added, or refused by the MWEB miner at a transaction with MWEB data, with what went in before and what failed; with the new index, failed set, failure counter and stop flag of each |
| `Miner.BlockAssembler.FiguresFor` | src/miner.cpp:412-421 | The figures a package is judged by never understate what is still to be added; in every run those of a transaction that has not failed are those of itself and the ancestors not reported to be in the block, the fee up to the fee deltas of the reported ancestors other than the first |
| `Miner.BlockAssembler.CheckPackage` | src/miner.cpp:447-462 | The package is the candidate with its ancestors not yet in the block; it passes exactly if all are eligible and none has failed |
| `Miner.BlockAssembler.TurnDown` | src/miner.cpp:429-435 | A rejected candidate leaves the index and is recorded as failed exactly if it came from the index |
| `Miner.BlockAssembler.AddPackage` | src/miner.cpp:467-492 | Adding a tested package keeps the limits and the tracking: all of it goes in and is reported, or it goes in up to a transaction with MWEB data that the MWEB miner refused, the rest fails and nothing is reported |
| `Miner.BlockAssembler.AddSorted` | src/miner.cpp:471-485 | A prefix of the sorted package enters the block and the whole package leaves the index; if it is not all, the next transaction has MWEB data, was offered to the MWEB miner and refused, and the rest from it on is recorded as failed |
| `Miner.BlockAssembler.MarkFailed` | src/miner.cpp:475-478 | Exactly the transactions from the refused one on are recorded as failed and leave the index |
| `Miner.BlockAssembler.SortForBlock` | src/miner.cpp:332-341 | The result is the package, sorted by ancestor count and hash |
| `Miner.BlockAssembler.FirstByCount` | src/miner.cpp:332-341 | The first transaction in that order |
| `Miner.BlockAssembler.OnlyUnconfirmed` | src/miner.cpp:205-216 | Removes exactly what is in the block |
| `Miner.BlockAssembler.TestPackageTransactions` | src/miner.cpp:234-249 | Passes exactly if all are final, allowed to carry their witness and MWEB data, and not failed |
| `Miner.BlockAssembler.AddToBlock` | src/miner.cpp:251-287 | A transaction with MWEB data is offered to the MWEB miner, and is added exactly if it has none or is taken; block order, totals, fees and template stay exact; a refusal changes nothing else |
| `Miner.BlockAssembler.AppendToTemplate` | src/miner.cpp:257-271 | The template lists the included transactions without the MWEB-only ones, each with its fee and sigop cost |
| `Miner.BlockAssembler.UpdatePackagesForAdded` | src/miner.cpp:289-315 | Reporting a set of inclusions takes each of them exactly once out of the figures of each descendant outside the block |
| `Miner.BlockAssembler.UpdateDescendants` | src/miner.cpp:297-312 | Reporting one inclusion to all its descendants |
| `Miner.BlockAssembler.UpdateEntry` | src/miner.cpp:301-311 | First report: cached figures minus the modified fee; later reports: minus the plain fee; the record stays right |
| `Miner.BlockAssembler.constructor` | src/miner.cpp:60-101 | The weight limit is the option cut to between 4000 and the maximum minus 4000; the block is empty and within its limits |
| `Miner.BlockAssembler.Offer` | src/miner.cpp:253-255 | Only a transaction with MWEB data is offered; the block holds exactly what the MWEB miner took |
| `Miner.FirstReduction` | src/miner.cpp:302-308 | The first reduction of the cached figures gives the sums over the package without that ancestor |
| `Miner.NextReduction` | src/miner.h:117-130 | A later reduction keeps size, sigops and MWEB weight exact; the fee is off by the fee deltas of the ancestors reported after the first |
| `Miner.RecordedFee` | src/miner.h:123 | The recorded package fee is the sum over what is left of the package if and only if the fee deltas of the included ancestors other than the first reported cancel out |
| `Miner.FeeExactIff` | src/miner.h:123 | For a set of included ancestors the recorded fee is exact in every order of reporting if and only if there is at most one of them, or none has a fee delta |
| `Miner.FeeIsExact` | src/miner.cpp:412-421 | If no included ancestor has a fee delta, the fee a package is judged by is that of the package, in every run |
| `MinerCases.RecordedFeeIsOff` | src/miner.h:123 | A child of two parents of which the second reported has a fee delta of 1000: its recorded fee is 1000 too high |
| `MinerScore.ScoreIsWeakOrder` | src/txmempool.h:335-373 | In every mempool the comparator is a weak order of the entries that have a score: a size, or a fee for no size |
| `MinerScore.ScoredIff` | src/txmempool.h:335-373 | Exactly those: an entry is in no cycle of the comparator with two entries that have a score if and only if it has one |
| `MinerScore.UnscoredCycle` | src/txmempool.h:335-373 | The cycle through an entry without a score |
| `MinerScore.OutranksMeans` | src/txmempool.h:339-353 | The cross products compare the lower rates of transaction and package, hashes decide between equal ones |
| `MinerScore.OutranksAsymmetric` | src/txmempool.h:339-353 | No two entries precede each other |
| `MinerScore.RestIsCheap` | src/miner.cpp:423-426 | The comment that everything else has a lower fee rate, exactly: the rate by which the candidate is ordered is below the minimum rate if and only if every entry that may come later and is not poorer than its package is below it |
| `MinerScore.RestPaysNoMore` | src/miner.cpp:423-426 | The same for the minimum fee of the code, with its rounding and the MWEB fee: the rate is at most the minimum rate if and only if no such entry pays more than its minimum |
| `MinerScore.NeverMissedIff` | src/miner.cpp:423-426 | For an entry that may be poorer than its package, exactly: no stop at a candidate without MWEB weight comes before it while it pays more than its minimum if and only if it has no size or its package pays no more than the minimum at the rate of the transaction itself |
| `MinerScore.StopLeaves` | src/miner.cpp:423-426 | After a stop at a candidate without MWEB weight an entry not poorer than its package is below the rate and pays no more than its minimum; at a whole number per byte it does not meet it |
| `MinerScore.RoundingIff` | src/policy/feerate.cpp:38-53 | Falling short of the minimum fee is being below the rate, for every size and fee, if and only if the rate is a whole number per byte |
| `MinerScore.FeeMeans` | src/policy/feerate.cpp:38-53 | What falls short of the minimum is below the rate, and what is not above the rate pays no more than the minimum |
| `MinerCases.ScoreMayCycle` | src/txmempool.h:335-373 | A mempool of three entries that precede each other in a circle; the last has no size and a fee below nothing |
| `MinerCases.StopIsRight` | src/miner.cpp:423-426 | When a run stops at a candidate without MWEB weight, whatever it leaves in walk or index that is not poorer than its package is below the minimum rate and pays no more than its minimum |
| `MinerCases.StopAtFirst` | src/miner.cpp:353-426 | A run with the comparator and minimum fee of the code stops with an empty block at a first transaction that is too cheap |
| `MinerCases.RestMayBeDearer` | src/miner.cpp:423-426 | A run that stops at 190 for 200 bytes although the package of a transaction poorer than its package pays 470 for 400 at 1 per byte |
| `MinerCases.RestMayNeedLess` | src/miner.cpp:423-426 | A run that stops at a candidate short of its MWEB fee although a later entry pays 900 and needs 200 |
| `MinerCases.RestMayMeetItsMinimum` | src/miner.cpp:423-426 | A run at 1005 per 1000 bytes that stops at 200 for 200 although a later entry with 100 for 100 meets its minimum |
| `Miner.FiguresBoundPackage` | src/miner.cpp:412-421 | Figures that miss some inclusions bound the package from above; figures that have all of a set of them match the package over that set, the fee up to the stated fee deltas |
| `Miner.JudgedByPackageIff` | src/miner.cpp:489-492 | A package is judged by what is still to be added if and only if none of its ancestors went in before a refusal |
| `MinerCases.RefusalTakesRoom` | src/miner.cpp:428-492 | A run of two candidates: the first is refused and leaves its parent in the block; the second, a child of that parent, finds no room although it alone would fit |
| `Miner.TracksDrop` | src/miner.cpp:429-434 | Dropping included or failed transactions keeps the index sound |
| `Miner.PartFits` | src/miner.cpp:428-445 | Any part of a package that passed the size test fits into the block |
| `Miner.AncestorCountsLess` | src/miner.h:85-95 | An ancestor always has a smaller ancestor count |
| `Miner.SortedPackageFollows` | src/miner.cpp:334-337 | In a sorted package every ancestor of an entry is in the block or sorted before it |
| `Miner.OrderedIsClosed` | src/miner.cpp:343-352 | A block in topological order contains all ancestors of what it contains and nothing twice |
| `Miner.AncestorsTransitive` | src/miner.cpp:450-453 | The ancestor relation generated by the parent links is transitive |
| `Miner.WeightBound` | src/miner.cpp:220-222 | The weight of any set of transactions is at most four times its virtual size |
| `Miner.JudgedExplained` | src/miner.cpp:374-493 | Judging one candidate, also one that is refused, keeps every omission and every refusal explained, each at the moment it happened |
| `Miner.LeftOutRoot` | src/miner.cpp:428-485 | Behind every transaction left out is an ineligible ancestor, an ancestor in the rest of a refused package, or one for which, with its unreported ancestors, there was no room over a prefix of the inclusion order |
| `Miner.NothingLeftOut` | src/miner.cpp:353-494 | If everything is eligible and the whole mempool fits, whatever is left out has itself or an ancestor in the rest of a refused package, or below a transaction that went in before a refusal |
| `Miner.NothingRefused` | src/miner.cpp:253-255 | If the MWEB miner takes every transaction, or there is none with MWEB data, nothing is refused or lost to a refusal |
| `Miner.RefusalGoesOn` | src/miner.cpp:471-485 | What goes in before a refusal was not in the block, so nothing reported earlier becomes unreported |
| `Miner.PartsFit` | src/miner.cpp:218-228 | If the whole mempool fits, every package fits on top of every part of it |
| `Coins.CoinsViewCache.Run` | src/coins.cpp:67-291 | Any run of adding, spending, looking up, uncaching and flushing, on a stack of caches of any depth, changes the effective view and answers like the same operations on one plain map; only a flush into the database needs a best block |
| `Coins.CoinsViewCache.Step` | src/coins.cpp:67-291 | One operation changes the effective view and answers as on a plain map |
| `Coins.CoinsViewCache.Flush` | src/coins.cpp:275-280 | The effective view does not change, the cache is empty, everything is below; the best block changes exactly in the stated case |
| `Coins.CoinsViewCache.BatchWrite` | src/coins.cpp:213-273 | The view becomes the child map laid over the old view; the invariant of every layer is kept |
| `Coins.CoinsViewCache.MergeEntry` | src/coins.cpp:214-264 | Each case of the merge shows the entry of the child; the "FRESH flag misapplied" branch cannot be reached |
| `Coins.CoinsViewCache.MergeAll` | src/coins.cpp:214-264 | All dirty entries are merged |
| `Coins.CoinsViewCache.AddCoin` | src/coins.cpp:76-110 | Exactly when it throws, what the view becomes, and that the flag invariant survives if and only if overwriting was allowed or the coin was absent; the usage count is reduced before the throw |
| `Coins.CoinsViewCache.SpendCoin` | src/coins.cpp:126-140 | The coin is gone from the view and handed out; true also for an entry that is spent but not flushed |
| `Coins.CoinsViewCache.FetchCoin` | src/coins.cpp:50-65 | Fetching fills caches and changes no view |
| `Coins.CoinsViewCache.LookBelow` | src/coins.cpp:50-57 | Asking the layer below changes no view |
| `Coins.CoinsViewCache.GetCoin` | src/coins.cpp:67-74 | Found exactly if in the view, with the coin of the view |
| `Coins.CoinsViewCache.AccessCoin` | src/coins.cpp:144-151 | The coin of the view, or the empty coin |
| `Coins.CoinsViewCache.HaveCoin` | src/coins.cpp:153-169 | True exactly if in the view |
| `Coins.CoinsViewCache.Uncache` | src/coins.cpp:282-291 | Drops exactly an unmodified entry and changes no view |
| `Coins.CoinsViewCache.GetBestBlock` | src/coins.cpp:197-201 | The effective best block, remembered |
| `Coins.CoinsViewCache.Store` | src/coins.cpp:107-109 | Writing an entry together with its memory usage; valid afterwards exactly if the entry is right |
| `Coins.CoinsViewCache.Erase` | src/coins.cpp:133-135 | Removing an entry together with its memory usage |
| `Coins.CoinsViewCache.constructor` | src/coins.cpp:44 | An empty cache shows the view below |
| `Coins.CoinsViewDB.BatchWrite` | src/txdb.cpp:97-160 | The database becomes the child map laid over it |
| `Coins.WriteDown` | src/coins.cpp:213-264 | Writing one entry down leaves the combined view as it was |
| `Coins.LayerUpdate` | src/coins.cpp:83-109 | Writing an entry writes the combined view and keeps the layer invariant exactly if the entry is right |
| `Coins.LayerRemove` | src/coins.cpp:133-135 | When an entry can be dropped and what the view is then |
| `Coins.UsageUpdate` | src/coins.cpp:85-109 | The memory count follows every insertion and removal |
| `Coins.CodeRoundTrip` | src/coins.h:70-85 | Height, coinbase and pegout come back from the packed code if and only if the height is below 2^30 |
| `MerkleBlock.ExtractionIsComplete` | src/merkleblock.cpp:134-181 | What was built from distinct transactions and a mask extracts to the true root and exactly the matched transactions and positions, from its own flag bits or any longer ones of as many bytes, unless the hashed pairs collide |
| `MerkleBlock.ExtractionIsSound` | src/merkleblock.cpp:150-181 | Whatever the received bits and hashes are: if extraction gives the true root, all reported positions are increasing and hold the reported transactions, unless the hashed pairs collide |
| `MerkleBlock.ExtractEncoded` | src/merkleblock.cpp:96-132 | The part stored for a subtree reads back, at any place of the streams |
| `MerkleBlock.ExtractSound` | src/merkleblock.cpp:96-132 | A subtree whose true hash was computed reports only true matches |
| `MerkleBlock.CalcHashIsRoot` | src/merkleblock.cpp:58-76 | The recursive hash with doubling of a last node is the root of the tree shape |
| `MerkleBlock.DistinctSiblings` | src/merkleblock.cpp:121-125 | With distinct transactions no two siblings have equal hashes, unless pairs collide |
| `MerkleBlock.EqualRoots` | src/merkleblock.cpp:121-125 | Equal hashes of subtrees of one height mean equal first transactions, unless pairs collide |
| `MerkleBlock.BadStays` | src/merkleblock.cpp:96-132 | A failure noticed anywhere is still noticed at the end |
| `MerkleBlock.HashBound` | src/merkleblock.h:41-45 | At most one hash per transaction, and at most 1 + matches * height hashes |
| `MerkleBlock.BitBound` | src/merkleblock.h:52 | The documented bound of 2N-1 flag bits holds if and only if no match lies below a node with one child |
| `MerkleBlock.BitCount` | src/merkleblock.h:52 | The number of flag bits is 2N-1 and one more for every one-child node above a match |
| `MerkleSize.SizeIff` | src/merkleblock.h:36-40 | For every number of transactions and every set of matches: the documented size guarantee holds if and only if at most 65535 hashes are stored and no more heights have a lone last node above a match than a stated number, which depends on the hashes only; both counts are given from the number of transactions and the mask |
| `MerkleSize.SizeOfAllIff` | src/merkleblock.h:36-40 | With all of n transactions matched it holds if and only if n is at most 65535 and no more heights have an odd number of nodes than that number |
| `MerkleSize.SpareIs` | src/merkleblock.h:36-52 | The exact number of extra flag bits that the guarantee leaves room for, for every number of hashes |
| `MerkleSize.EdgeHas` | src/merkleblock.h:52 | The extra flag bits are counted by the heights with an odd number of nodes whose last one is above a match |
| `MerkleSize.HashCountIs` | src/merkleblock.h:41-45 | The number of hashes, from the number of transactions and the mask |
| `MerkleSize.AllNearPower` | src/merkleblock.h:36-52 | With all of 2^k + 1 transactions matched there are k one-child nodes above a match, for every k |
| `MerkleSize.SizeGuaranteeFails` | src/merkleblock.h:36-40 | 1025 transactions, all matched, take 33068 bytes where 33067 are promised |
| `MerkleBlock.BitBoundFails` | src/merkleblock.h:52 | Three transactions with the last one matched need four bits for two hashes |
| `MerkleBlock.WidthFormula` | src/merkleblock.h:71-73 | The width formula is halving and rounding up height times |
| `MerkleBlock.ShapeLeaves` | src/merkleblock.cpp:81 | The leaves of a node are the positions of the bit-shifted range, cut off at the end |
| `MerkleBlock.BitsToBytes` | src/merkleblock.cpp:13-20 | Every bit of every byte is the flag bit at its place, and zero beyond |
| `MerkleBlock.BytesToBits` | src/merkleblock.cpp:22-29 | Every flag bit is the bit at its place |
| `MerkleBlock.Repack` | src/merkleblock.h:91-95 | Packing and unpacking gives the flag bits padded to whole bytes |
| `MerkleBlock.WholeTreeLeaves` | src/merkleblock.cpp:139-145 | The whole tree has all transactions as leaves, in order |
| `MerkleBlock.PartialMerkleTree.Build` | src/merkleblock.cpp:134-146 | Building stores exactly the encoding of the whole tree |
| `MerkleBlock.PartialMerkleTree.TraverseAndBuild` | src/merkleblock.cpp:78-94 | Appends exactly the encoding of the subtree |
| `MerkleBlock.PartialMerkleTree.BuildChildren` | src/merkleblock.cpp:90-92 | Appends exactly the encodings of the one or two children |
| `MerkleBlock.PartialMerkleTree.TraverseAndExtract` | src/merkleblock.cpp:96-132 | Computes the extraction of the subtree, with cursor, matches and failure flag |
| `MerkleBlock.PartialMerkleTree.ExtractMatches` | src/merkleblock.cpp:150-181 | The result, the matches and the flag are those of the specification; positions are appended to the given list, which is not cleared |
| `MerkleBlock.PartialMerkleTree.ParentOfMatch` | src/merkleblock.cpp:79-82 | True exactly if a match lies below the node |
| `MerkleBlock.PartialMerkleTree.CalcHeight` | src/merkleblock.cpp:139-142 | The height at which the width is one |
| `MerkleBlock.PartialMerkleTree.CalcTreeWidth` | src/merkleblock.h:71-73 | The shift form gives the width |
| `MerkleBlock.PartialMerkleTree.LeafBelow` | src/merkleblock.cpp:81 | The shift form gives the first leaf |
| `MerkleBlock.PartialMerkleTree.BuildAndExtract` | src/merkleblock.cpp:134-181 | Building a tree and extracting from it gives root, matches and positions back |
| `MerkleBlock.PartialMerkleTree.SendAndExtract` | src/merkleblock.h:73-97 | Building, packing the flag bits into bytes, receiving them and extracting gives root, matches and positions back |
| `AddrMan.CAddrMan.Check` | src/addrman.cpp:406-480 | The check with its three loops returns 0, in any state, exactly if all its tests hold of the tables |
| `AddrMan.CheckEntries` | src/addrman.cpp:414-438 | The first loop passes exactly if every entry does, and lists the tried entries and the reference counts |
| `AddrMan.CheckTried` | src/addrman.cpp:445-457 | The loop that erases from setTried passes exactly if every filled slot is the tried slot of a listed entry; nothing is left exactly if every entry has a slot |
| `AddrMan.CheckNew` | src/addrman.cpp:459-471 | The loop that counts mapNew down passes and leaves nothing exactly if every filled slot belongs to a listed entry at its position and every count is the number of slots |
| `AddrMan.CAddrMan.CheckPasses` | src/addrman.cpp:406-480 | Under the joint invariant the check returns 0 exactly if the times are in order and the key is set |
| `AddrMan.CAddrMan.constructor` | src/addrman.h:557-584 | An empty table is consistent |
| `AddrMan.CAddrMan.Good` | src/addrman.cpp:197-261 | Which entry is meant, and exactly what happens to it: nothing more, waiting for a test, or a move to its tried slot with the occupant back in the new table; all other entries but the displaced one are untouched; times stay in order for a positive time |
| `AddrMan.CAddrMan.Promote` | src/addrman.cpp:226-260 | The same for an untried entry; the bucket search never fails |
| `AddrMan.CAddrMan.FindNewBucket` | src/addrman.cpp:226-241 | An untried entry is always found in a new bucket, so the bail-out is dead |
| `AddrMan.CAddrMan.MakeTried` | src/addrman.cpp:149-195 | The entry takes its tried slot; the occupant returns to the new slot its source stands for with exactly its fields and one reference; whoever held that loses exactly one reference and is gone exactly if it was the last; nobody else changes, all counters exact |
| `AddrMan.CAddrMan.ReturnToNew` | src/addrman.cpp:176-188 | The occupant in the new table, and who loses a reference for it |
| `AddrMan.CAddrMan.RemoveFromNew` | src/addrman.cpp:151-160 | Exactly the references of the entry disappear from the new table |
| `AddrMan.CAddrMan.EvictTried` | src/addrman.cpp:167-188 | The occupant goes back to the new table with one reference |
| `AddrMan.CAddrMan.EnterTried` | src/addrman.cpp:189-194 | The entry fills its empty slot |
| `AddrMan.CAddrMan.Add` | src/addrman.cpp:263-334 | True exactly for a routable unknown address, also when no slot was free; exactly what the tables are afterwards, for unknown and known addresses, with the reference that the holder of the slot loses; the tried table is untouched |
| `AddrMan.CAddrMan.AddUnknown` | src/addrman.cpp:306-332 | A new entry is placed exactly if its slot has room, and dropped otherwise; placed, it takes the slot from its holder, who loses exactly one reference and is gone exactly if it was the last |
| `AddrMan.CAddrMan.AddKnown` | src/addrman.cpp:277-332 | A known entry is renewed, and gets a reference exactly when the rules and the draw allow |
| `AddrMan.CAddrMan.Refresh` | src/addrman.cpp:278-304 | The renewed entry, and when it may get another reference: N references make that 2^N times harder |
| `AddrMan.CAddrMan.PlaceNew` | src/addrman.cpp:312-332 | The slot of the source is kept, taken over or refused by the stated rule |
| `AddrMan.CAddrMan.FillNew` | src/addrman.cpp:323-326 | Taking over a slot: its holder loses exactly one reference and is gone exactly if it was the last, the entry gains one, nobody else changes |
| `AddrMan.CAddrMan.ClearNew` | src/addrman.cpp:134-147 | The slot is emptied; its entry loses one reference and goes exactly if that was the last |
| `AddrMan.CAddrMan.Create` | src/addrman.cpp:88-98 | A fresh id, entered in all indexes |
| `AddrMan.CAddrMan.Delete` | src/addrman.cpp:120-132 | Exactly that entry disappears from all indexes |
| `AddrMan.CAddrMan.SwapRandom` | src/addrman.cpp:100-118 | Two positions of the random order are exchanged, with their back references |
| `AddrMan.CAddrMan.Find` | src/addrman.cpp:75-86 | Finds exactly the entry of the address |
| `AddrMan.CAddrMan.Attempt` | src/addrman.cpp:336-356 | Exactly which statistics of which entry change; times stay in order for a time that is not negative |
| `AddrMan.CAddrMan.Connected` | src/addrman.cpp:508-526 | The time moves on only after 20 minutes |
| `AddrMan.CAddrMan.SetServices` | src/addrman.cpp:528-544 | Only the services of the exact address change |
| `AddrMan.CAddrMan.GetAddr` | src/addrman.cpp:483-506 | At most the quota, no repetition, nothing terrible; fewer than the quota only if all good entries are returned |
| `AddrMan.CAddrMan.Shuffle` | src/addrman.cpp:498-499 | A swap in the random order is invisible outside it |
| `AddrMan.CAddrMan.ResolveCollisions` | src/addrman.cpp:546-603 | With a reading of the clock for every comparison: everyone waiting has one turn, in the order of their ids, with the stated effect on the tables as they are then, and stays listed exactly if its outcome then is to wait; whoever is taken off and still known has its slot held by an entry connected to less than four hours before some reading, possibly itself |
| `AddrMan.CAddrMan.ResolveNext` | src/addrman.cpp:550-600 | One turn: its exact effect, and whether the entry stays listed |
| `AddrMan.CAddrMan.ResolveOne` | src/addrman.cpp:551-595 | The outcome for one waiting entry, by up to four readings of the clock, and its exact effect |
| `AddrMan.CAddrMan.Contest` | src/addrman.cpp:562-590 | The same for an entry whose slot is filled |
| `AddrMan.CAddrMan.Replace` | src/addrman.cpp:580 | The waiting entry holds its tried slot afterwards, and settled slots stay settled |
| `AddrMan.CAddrMan.SelectTriedCollision` | src/addrman.cpp:605-630 | The entry to test is the occupant of the tried slot of the drawn entry; a vanished waiting entry is dropped |
| `AddrMan.RandomSize` | src/addrman.cpp:406-413 | The random order has as many elements as there are entries |
| `AddrMan.SwapRanked` | src/addrman.cpp:100-118 | A swap keeps the random order and its back references inverse |
| `AddrMan.CreateIndexes` | src/addrman.cpp:88-98 | Entering an address keeps the indexes inverse |
| `AddrMan.DeleteIndexes` | src/addrman.cpp:120-132 | Removing the last of the random order keeps the indexes inverse |
| `AddrMan.DropRef` | src/addrman.cpp:139-142 | Emptying a new slot with its reference keeps placement and reference counts |
| `AddrMan.AddRef` | src/addrman.cpp:323-326 | Filling a free new slot with a reference keeps placement and reference counts |
| `AddrMan.UntryEntry` | src/addrman.cpp:170-177 | Taking an entry out of the tried table keeps placement |
| `AddrMan.TryEntry` | src/addrman.cpp:189-194 | Putting an entry into its tried slot keeps placement |
| `AddrMan.CollisionsKept` | src/addrman.cpp:248-254 | The slot of every waiting entry that still exists stays filled |
| `AddrMan.HitIsUnique` | src/addrman.cpp:203-213 | At most one entry has an address with its port |
| `CheckQueue.WaitIsExact` | src/checkqueue.h:67-158 | In every interleaving, when Wait returns, the result is true exactly if all checks added since the last Wait succeed; nothing is queued or held and the queue is as new |
| `CheckQueue.EveryRun` | src/checkqueue.h:67-158 | The invariant holds in every state of every run |
| `CheckQueue.NextKeeps` | src/checkqueue.h:67-158 | Every step of every thread keeps the invariant |
| `CheckQueue.NeverStuck` | src/checkqueue.h:76-101 | While the master waits some thread can make a useful step; a notified master returns: no notification is lost |
| `CheckQueue.WaitEnds` | src/checkqueue.h:74-123 | However useful steps are scheduled, the master returns after no more of them than the work at hand calls for |
| `CheckQueue.UsefulProgress` | src/checkqueue.h:74-123 | Every useful step reduces the remaining work, or the master returns |
| `CheckQueue.ReturnIsRight` | src/checkqueue.h:89-97 | At the return point all checks are accounted for and the flag is the conjunction |
| `CheckQueue.ProceedKeeps` | src/checkqueue.h:89-116 | The loop head keeps the invariant; the division in the batch size is by a positive number |
| `CheckQueue.WaitIsRight` | src/checkqueue.h:98-99 | Going to sleep keeps the invariant |
| `CheckQueue.TakeIsRight` | src/checkqueue.h:107-116 | Taking a batch keeps the invariant |
| `CheckQueue.TakeConserves` | src/checkqueue.h:108-114 | Checks move from the back of the queue to one thread, none lost or doubled |
| `CheckQueue.CleanUpHolds` | src/checkqueue.h:78-87 | Accounting for a batch keeps the invariant |
| `CheckQueue.EvaluateKeeps` | src/checkqueue.h:119-121 | Evaluating one check keeps the invariant |
| `CheckQueue.EvaluateVerdict` | src/checkqueue.h:119-121 | A local result is true only if all done checks succeed, false only if some check of the session fails |
| `CheckQueue.AddKeeps` | src/checkqueue.h:146-158 | Adding checks keeps the invariant |
| `CheckQueue.LockKeeps` | src/checkqueue.h:75-117 | The critical section keeps the invariant |
| `CheckQueue.WakeKeeps` | src/checkqueue.h:99-101 | Waking up, also spuriously, keeps the invariant |
| `CheckQueue.BatchSize` | src/checkqueue.h:107 | At least one check and at most the whole queue |
| `CheckQueue.InitHolds` | src/checkqueue.h:131 | A new queue satisfies the invariant |
| `Bloom.RollingBloomFilter.Contains` | src/bloom.cpp:251-263 | True exactly if every cell of the key is a cell of one of the last 2N + n keys inserted (N keys per generation, n in the current one); so true for every one of those keys |
| `Bloom.RollingBloomFilter.Insert` | src/bloom.cpp:214-243 | The filter represents exactly the last keys after adding this one, also across the wrap of the generation number |
| `Bloom.RollingBloomFilter.Roll` | src/bloom.cpp:216-231 | Taking up the next generation number forgets exactly the oldest run |
| `Bloom.RollingBloomFilter.WriteKey` | src/bloom.cpp:234-242 | Writing the cells of a key makes it the newest of the log |
| `Bloom.RollingBloomFilter.Wipe` | src/bloom.cpp:225-230 | Every word pair loses exactly the cells of the generation |
| `Bloom.RollingBloomFilter.Reset` | src/bloom.cpp:271-277 | The filter is empty |
| `Bloom.RollingBloomFilter.constructor` | src/bloom.cpp:174-199 | An empty filter with half the elements, rounded up, per generation |
| `Bloom.WipeCell` | src/bloom.cpp:226-229 | The masking of a word pair clears the cells of one generation and no other cell |
| `Bloom.WriteCell` | src/bloom.cpp:240-241 | Writing a bit pair changes exactly one cell |
| `Bloom.LastGenRoll` | src/bloom.cpp:216-231 | Going to the next run forgets exactly the keys two runs back |
| `Bloom.LastGenUsed` | src/bloom.cpp:258 | A cell is in use exactly if a key of the window touches it |
| `Bloom.WipeIsRoll` | src/bloom.cpp:216-231 | Wiping one generation number leaves exactly the keys of the last two runs |
| `Bloom.FinishKey` | src/bloom.cpp:234-242 | With all its cells written the key is the newest of the log |
| `Bloom.RollingBloomFilter.HitIsUsed` | src/bloom.cpp:258 | A cell is set exactly if a key of the window touches it |
| `Hashing.FastMod` | src/bloom.cpp:210-212 | Below the size, and each position gets the hash values of one interval |
| `CuckooCache.Cache.Insert` | src/cuckoocache.h:392-440 | Table contents are conserved: exactly one element goes for the one that comes; what goes is garbage, or what the displacement chain carries at the end; the new element is in the table exactly if it is not that one; live copies and epoch counts are exact; the displacement is the recorded chain of swaps and its end |
| `CuckooCache.Cache.Displace` | src/cuckoocache.h:406-439 | The displacement loop is a chain of swaps, each with the location after the last one because none was free, at most as many as the depth, ended by the first free location or by dropping what is in hand; it conserves the table |
| `CuckooCache.Cache.Swap` | src/cuckoocache.h:417-435 | One swap, with the next location |
| `CuckooCache.Cache.Contains` | src/cuckoocache.h:469-479 | Found exactly if in the table; erasing only marks one slot of the element as garbage |
| `CuckooCache.Cache.EpochCheck` | src/cuckoocache.h:288-320 | Aging happens exactly when the counter is used up and the epoch is full; then recent elements are old and old ones garbage; the epoch size bound is kept |
| `CuckooCache.Cache.Age` | src/cuckoocache.h:305-309 | Old slots become garbage, recent slots old |
| `CuckooCache.Cache.CountRecent` | src/cuckoocache.h:296-299 | Counts the live recent slots |
| `CuckooCache.Cache.Refresh` | src/cuckoocache.h:400-405 | An element already present is kept as a recent one |
| `CuckooCache.Cache.FindFree` | src/cuckoocache.h:408-415 | Finds a garbage slot among the eight if there is one |
| `CuckooCache.Cache.constructor` | src/cuckoocache.h:339-352 | Sizes, epoch size of 45 percent, everything garbage |
| `CuckooCache.Cache.RoomLeft` | src/cuckoocache.h:331-352 | With more than 20 slots the two epochs never use up the table: some slot is garbage |
| `CuckooCache.ReuseConserves` | src/cuckoocache.h:408-415 | Ending in a garbage slot loses only garbage |
| `CuckooCache.SwapCarries` | src/cuckoocache.h:430-435 | A swap with the element in hand conserves the contents and leaves garbage slots alone |
| `CuckooCache.NextLoc` | src/cuckoocache.h:430 | The location after the last one, cyclically; the first displacement is from the second location |
| `CuckooCache.PutInIsMoved` | src/cuckoocache.h:417-431 | The swap takes out the element just put in if and only if its location comes twice in a row at its first occurrence among the locations |
| `CuckooCache.PutInMayMove` | src/cuckoocache.h:417-431 | A run on a cache: an insert puts its element in and takes the same element out with the next swap, and it is dropped |
| `CuckooCache.TwoSwaps` | src/cuckoocache.h:417-431 | With all locations equal and a depth of two every displacement does that |
| `CuckooCache.AgingAges` | src/cuckoocache.h:305-309 | The effect of aging on the live copies of every element |
| `ArithUint256.BaseUint.Div` | src/arith_uint256.cpp:83-107 | The quotient for every operand of every width; with divisor zero the number is 0 when the error is reported |
| `ArithUint256.BaseUint.DivLoop` | src/arith_uint256.cpp:97-104 | Shift and subtract leaves the quotient and the remainder |
| `ArithUint256.BaseUint.DivRound` | src/arith_uint256.cpp:98-103 | One bit of the quotient |
| `ArithUint256.BaseUint.Mul` | src/arith_uint256.cpp:67-81 | The product modulo 2^BITS |
| `ArithUint256.BaseUint.Product` | src/arith_uint256.cpp:70-79 | The rounds of schoolbook multiplication |
| `ArithUint256.BaseUint.AddRow` | src/arith_uint256.cpp:71-78 | One row with carries that fit in 64 bits, cut off at the width |
| `ArithUint256.BaseUint.MulSmall` | src/arith_uint256.cpp:55-65 | The product with a word modulo 2^BITS |
| `ArithUint256.BaseUint.Shl` | src/arith_uint256.cpp:21-36 | Times 2^shift modulo 2^BITS, for every shift |
| `ArithUint256.BaseUint.Shr` | src/arith_uint256.cpp:38-53 | Divided by 2^shift, for every shift |
| `ArithUint256.BaseUint.Bits` | src/arith_uint256.cpp:171-184 | The position of the highest one bit, plus 1 |
| `ArithUint256.BaseUint.CompareTo` | src/arith_uint256.cpp:109-119 | The order of the values |
| `ArithUint256.BaseUint.Add` | src/arith_uint256.h:133-143 | The sum modulo 2^BITS |
| `ArithUint256.BaseUint.Sub` | src/arith_uint256.h:145-149 | The difference modulo 2^BITS, through negation |
| `ArithUint256.BaseUint.Negate` | src/arith_uint256.h:75-82 | Two's complement |
| `ArithUint256.BaseUint.Complement` | src/arith_uint256.h:67-73 | 2^BITS - 1 minus the value |
| `ArithUint256.BaseUint.Increment` | src/arith_uint256.h:171-178 | Plus 1 modulo 2^BITS |
| `ArithUint256.BaseUint.Decrement` | src/arith_uint256.h:188-195 | Minus 1 modulo 2^BITS |
| `ArithUint256.BaseUint.Assign64` | src/arith_uint256.h:86-93 | The value of the 64-bit number |
| `ArithUint256.BaseUint.GetLow64` | src/arith_uint256.h:243-247 | The value modulo 2^64 |
| `ArithUint256.VOrder` | src/arith_uint256.cpp:109-119 | The highest differing limb decides the order |
| `ArithUint256.RowStep` | src/arith_uint256.cpp:71-78 | One limb of a row: the new limb and carry account for the product |
| `ArithUint256.ShlStep` | src/arith_uint256.cpp:29-34 | What one round of the left shift puts in two limbs |
| `ArithUint256.ShrStep` | src/arith_uint256.cpp:46-51 | What one round of the right shift puts in two limbs |
| `ArithUint256.TopLimb` | src/arith_uint256.cpp:174-182 | The highest limb that is not zero fixes the bit length |
| `Compact.SetCompact` | src/arith_uint256.cpp:204-222 | For every 32-bit code: the decoded number modulo 2^256, overflow exactly if it does not fit, negative exactly if signed and not zero |
| `Compact.GetCompact` | src/arith_uint256.cpp:224-245 | The one normalized exponent of the number, its mantissa there, and the sign asked for |
| `Compact.CompactRoundTrip` | src/arith_uint256.cpp:204-245 | Encoding rounds down by less than one part in 2^15 and is exact on its own results |
| `Compact.CompactTwice` | src/arith_uint256.cpp:204-245 | Decoding and encoding again gives the same code |
| `Compact.NormalUnique` | src/arith_uint256.cpp:224-245 | A number has at most one normalized exponent |
| `Compact.OverflowTest` | src/arith_uint256.cpp:217-220 | The three comparisons of the overflow test are exactly "does not fit in 256 bits" |
| `Compact.SizeOf` | src/arith_uint256.cpp:226-233 | The size in bytes gives a mantissa of 17 to 24 bits |
| `Compact.TopBytes` | src/arith_uint256.cpp:226-233 | Size in bytes and the three highest bytes |
| `Compact.GetBlockProof` | src/chain.cpp:123-136 | 2^256 / (target + 1) for valid targets, 0 for negative, zero or overflowing ones |
| `Compact.ProofFits` | src/chain.cpp:131-135 | (2^256 - 1 - t) / (t + 1) + 1 is 2^256 / (t + 1) and fits |
| `Compact.TargetNotFull` | src/chain.cpp:131-135 | A target is never 2^256 - 1, so target + 1 does not wrap |
| `Chain.GetAncestor` | src/chain.cpp:85-110 | The walk along the skip list gives the ancestor that following pprev gives, and null out of range; with every skip pointer set it takes the counted steps |
| `ChainWalk.StepBound` | src/chain.cpp:74-110 | From any height below 2^k the walk to any ancestor takes at most k * k steps |
| `ChainWalk.SkipHeightIs` | src/chain.cpp:75-83 | The skip height, bit by bit |
| `Chain.GetSkipHeight` | src/chain.cpp:75-83 | Always below the height |
| `Chain.BlockIndex.Insert` | src/chain.cpp:117-121 | BuildSkip keeps every skip pointer at the ancestor of the skip height |
| `Chain.InsertKeeps` | src/chain.cpp:117-121 | Adding a block keeps all ancestors and skip pointers |
| `Chain.LastCommonAncestor` | src/chain.cpp:157-172 | A common ancestor, and no higher one is common |
| `Chain.CChain.SetTip` | src/chain.cpp:12-22 | The slots become exactly the branch of the tip, although the loop stops at the first right slot |
| `Chain.CChain.FindFork` | src/chain.cpp:52-61 | The highest block of the chain that is the block or its ancestor; null exactly for no block or an empty chain |
| `Chain.CChain.GetLocator` | src/chain.cpp:24-50 | The ancestors at the locator heights, whichever of chain and skip list is used |
| `Chain.CChain.StepBack` | src/chain.cpp:37-44 | Both ways of stepping back give the ancestor |
| `Chain.CChain.ContainsIff` | src/chain.h:421-423 | A block is on the chain exactly if it is the tip or an ancestor of the tip |
| `Chain.BranchAncestor` | src/chain.h:398-449 | Every slot holds the ancestor of every later one |
| `Chain.LocatorDescends` | src/chain.cpp:24-50 | Locator heights go down strictly to 0 |
| `Chain.LocatorBound` | src/chain.cpp:24-50 | A locator from a height below 2^m has at most 11 + m entries |
| `Chain.AncestorTwice` | src/chain.cpp:85-110 | The ancestor of an ancestor |
| `Bech32.Decode` | src/bech32.cpp:168-198 | Succeeds exactly on well-formed strings that are encodings up to case, with what they encode |
| `Bech32.DecodeParts` | src/bech32.cpp:177-197 | Cut at the last separator, read and verified: the one result that the string encodes, or failure |
| `Bech32.Encode` | src/bech32.cpp:152-165 | The string of prefix, separator, data and checksum |
| `Bech32.EncodedDecodes` | src/bech32.cpp:152-198 | What Encode makes of a legal prefix is well-formed and encodes its arguments |
| `Bech32.EncodesUnique` | src/bech32.cpp:168-198 | What a string encodes is determined by what is read from it |
| `Bech32.DecodeIsRight` | src/bech32.cpp:168-198 | The steps give the result the string encodes, and fail if there is none |
| `Bech32.DecodeFails` | src/bech32.cpp:177-190 | A string cut wrong or with a foreign character encodes nothing |
| `Bech32.BurstDetected` | src/bech32.cpp:42-99 | A change within six consecutive symbols always changes the checksum, at any length |
| `Bech32.BurstBreaksChecksum` | src/bech32.cpp:123-133 | Such a change in a valid string breaks the checksum of its variant |
| `Bech32.ChecksumUnique` | src/bech32.cpp:136-147 | Exactly one six-symbol checksum fits, the created one |
| `Bech32.VerifiedIff` | src/bech32.cpp:123-133 | A variant is reported exactly for its own checksum |
| `Bech32.RunLinear` | src/bech32.cpp:42-99 | The checksum is linear over whole sequences |
| `Bech32.RunZeros` | src/bech32.cpp:42-99 | Zero symbols never take a nonzero state to zero |
| `Bech32.StepKernel` | src/bech32.cpp:85-96 | One step is injective |
| `Bech32.RunSix` | src/bech32.cpp:136-147 | Six symbols are added to what six zeros would give |
| `Bech32.PolyMod` | src/bech32.cpp:42-99 | The loop computes the run of the step over the symbols |
| `Bech32.VerifyChecksum` | src/bech32.cpp:123-133 | The variant of the checksum, if any |
| `Bech32.CreateChecksum` | src/bech32.cpp:136-147 | The checksum digits |
| `Bech32.ExpandHRP` | src/bech32.cpp:108-120 | High bits, a zero, low bits |
| `Bech32.CheckChars` | src/bech32.cpp:169-176 | Printable and not of mixed case |
| `Bech32.ReadSymbols` | src/bech32.cpp:181-190 | All symbols, or failure because of a foreign character |
| `Bech32.RevFacts` | src/bech32.cpp:22-31 | Every character that reads as a symbol is its character up to case |
| `Bech32.PackDigits` | src/bech32.cpp:141-145 | Packing and taking base-32 digits are inverse |
| `Bech32Errors.ErrorsDetected` | src/bech32.cpp:49-54 | The promise of the comment: a change of up to three symbols within a window of 1023 changes the checksum, from every state and at any length |
| `Bech32Errors.ErrorsBreakChecksum` | src/bech32.cpp:123-133 | Such a change in a valid string breaks the checksum of its variant |
| `Bech32Errors.ThreeTerms` | src/bech32.cpp:49-54 | Three errors that cancel out at three zeros of the generator, each g times the one before, are zero |
| `Bech32Zeros.RunEval` | src/bech32.cpp:42-99 | At a zero of the generator the loop keeps the value of the polynomial of the symbols |
| `Bech32Zeros.StepEval` | src/bech32.cpp:85-96 | At a zero of the generator a step multiplies by it and adds the symbol |
| `Bech32Zeros.ZeroAt24` | src/bech32.cpp:49-54 | y^24 is a zero of the generator in GF(1024) |
| `Bech32Zeros.ZeroAt25` | src/bech32.cpp:49-54 | y^25 is a zero of the generator |
| `Bech32Zeros.ZeroAt26` | src/bech32.cpp:49-54 | y^26 is a zero of the generator |
| `Bech32Symbols.EmbTimes` | src/bech32.cpp:56-62 | Symbols multiply in GF(1024) as in GF(32) |
| `Bech32Symbols.EmbXor` | src/bech32.cpp:56-62 | Symbols add in GF(1024) as in GF(32) |
| `Bech32Order.OrderIs` | src/bech32.cpp:49-54 | y has order 1023 in GF(1024): no smaller power of it is one |
| `Bech32Order.NoZeroDivisor` | src/bech32.cpp:49-54 | GF(1024) has no zero divisors: every element but zero is a power of y |
| `Bech32Poly.RunIsRemainder` | src/bech32.cpp:42-99 | The state after some symbols is the remainder of the polynomial of state and symbols divided by the generator over GF(32): it and the coefficients taken out are the only quotient and remainder |
| `Bech32Poly.StepDigits` | src/bech32.cpp:85-96 | A step multiplies by x, adds the symbol and takes out the top coefficient times the generator |
| `Bech32Poly.GenDigits` | src/bech32.cpp:85-96 | The five constants are the generator times 1, 2, 4, 8 and 16 in GF(32) |
| `Bech32Poly.DividedUnique` | src/bech32.cpp:42-99 | Quotient and remainder by the generator are unique |
| `Base58.EncodeThenDecode` | src/base58.cpp:39-126 | Decoding an encoding gives the bytes back, or fails exactly if they are too many |
| `Base58.DecodeThenEncode` | src/base58.cpp:39-126 | For every string: if it decodes, encoding the bytes gives its word back, the string without the spaces around it |
| `Base58.DecodeBase58` | src/base58.cpp:39-86 | Succeeds exactly on one word of digits, spaces around it, whose bytes are not too many, with those bytes |
| `Base58.EncodeBase58` | src/base58.cpp:88-126 | The base-58 digits of the same number with the same leading zeros |
| `Base58.DecodesUnique` | src/base58.cpp:39-126 | Strings and byte strings correspond one to one |
| `Base58.MulAdd` | src/base58.cpp:102-112 | One round multiplies and adds; the carry is used up before the buffer ends |
| `Base58.Size58` | src/base58.cpp:98 | The encoding buffer is always large enough |
| `Base58.Size256` | src/base58.cpp:53 | The decoding buffer is always large enough |
| `Base58.FromBase58` | src/base58.cpp:53-72 | The digits so far and their number; failure only for a foreign character or too long a result |
| `Base58.ToBase58` | src/base58.cpp:97-114 | The digits of the bytes |
| `Base58.AllTooLong` | src/base58.cpp:47-70 | Giving up early is right: every result would be too long |
| `Base58.DigitsUnique` | src/base58.cpp:39-126 | Leading zeros and value are the whole of a digit string |
| `Base58.AlphabetIsOk` | src/base58.cpp:18-37 | The two tables are inverse |
| `Compressor.AmountRoundTrip` | src/compressor.cpp:150-193 | In 64-bit arithmetic every amount that is a multiple of 10 or at most 2049638230412172402 is restored, and up to MAX_MONEY no other is |
| `Compressor.WrapLoses` | src/compressor.cpp:150-167 | Beyond that bound up to MAX_MONEY the wrapped form never restores the amount |
| `Compressor.CompressAmount` | src/compressor.cpp:150-167 | The loop computes the compressed form modulo 2^64 |
| `Compressor.DecompressAmount` | src/compressor.cpp:169-193 | The loop computes the restored amount modulo 2^64 |
| `Compressor.RestoresCompressed` | src/compressor.cpp:150-193 | Without wrap-around every amount is restored |
| `Compressor.CompressesRestored` | src/compressor.cpp:150-193 | Without wrap-around every number is the compressed form of one amount |
| `Compressor.NoWrap` | src/compressor.cpp:150-167 | The compressed form fits in 64 bits exactly below the bound or for multiples of 10 |
| `BlockFilter.GCSFilter.MatchAny` | src/blockfilter.cpp:173-177 | True exactly if a query and an element have the same value; never false for a common element |
| `BlockFilter.GCSFilter.Match` | src/blockfilter.cpp:167-171 | True exactly if an element has the value of the query; never false for an element |
| `BlockFilter.GCSFilter.MatchInternal` | src/blockfilter.cpp:135-165 | Merging decoded values with sorted queries finds exactly whether they meet |
| `BlockFilter.GCSFilter.Build` | src/blockfilter.cpp:105-133 | Null exactly for 2^32 elements or more; otherwise the filter of the elements |
| `BlockFilter.GCSFilter.Fill` | src/blockfilter.cpp:123-132 | The encoding of the sorted values |
| `BlockFilter.GCSFilter.WriteDeltas` | src/blockfilter.cpp:125-130 | The bytes are the codes of the differences, padded with zeros |
| `BlockFilter.GCSFilter.Accepts` | src/blockfilter.cpp:85-103 | A received filter is accepted exactly if its bits are N codes followed by less than a byte, and the parameter is at most 64 unless N is 0 |
| `BlockFilter.GCSFilter.ReadCodes` | src/blockfilter.cpp:95-99 | Reads N codes, or fails exactly if the bits do not begin with so many |
| `BlockFilter.FilterIff` | src/blockfilter.cpp:95-103 | Being N codes and less than a byte, said of the codes instead of the reading |
| `BlockFilter.BuiltIsAccepted` | src/blockfilter.cpp:85-133 | The encoding of every set is accepted |
| `BlockFilter.BuildHashedSet` | src/blockfilter.cpp:67-76 | The sorted list of the values of all elements, with multiplicity |
| `BlockFilter.MapIntoRange` | src/blockfilter.cpp:33-57 | The 32-bit pieces give the upper half of the product without overflow, below n |
| `BlockFilter.GolombRiceEncode` | src/util/golombrice.h:13-28 | Quotient in ones, a zero, remainder in P bits |
| `BlockFilter.GolombRiceDecode` | src/util/golombrice.h:30-42 | On any bytes: the number that the bits spell, modulo 2^64, and the bits after it, or failure at the end of the stream or for a parameter above 64 |
| `BlockFilter.DecodedCoded` | src/util/golombrice.h:13-42 | Decoding undoes encoding, whatever bits follow |
| `BlockFilter.Merge` | src/blockfilter.cpp:135-165 | The merge of the values in the bytes with sorted queries |
| `BitStream.BitWriter.Write` | src/streams.h:564-579 | Appends exactly the lowest bits of the number, highest first, across byte boundaries; refused exactly for a width outside 0 to 64 |
| `BitStream.BitWriter.Flush` | src/streams.h:584-592 | The bytes written are all bits so far, padded with zeros |
| `BitStream.BitReader.Read` | src/streams.h:516-535 | Gives the next bits as a number exactly if the width is within 0 to 64 and so many bits are left |
| `BlockFilter.WrittenIsRead` | src/blockfilter.cpp:125-130 | The differences written are the differences read |
| `BlockFilter.BitsSplit` | src/util/golombrice.h:13-28 | Quotient and remainder bits give the number back |
| `BlockEncodings.Relay` | src/blockencodings.cpp:20-213 | Announcing a block, reconstructing it from any pool and extra list and completing it with the requested transactions gives the block back, unless short IDs collide |
| `BlockEncodings.PartiallyDownloadedBlock.InitData` | src/blockencodings.cpp:58-179 | INVALID exactly for a malformed announcement or an object in use, FAILED exactly for colliding IDs or the bucket heuristic; otherwise prefilled slots are right, other filled slots hold a source with their ID, and the search is exactly this run: through the pool and then the extra transactions, each up to the first source after which the count, starting from what an earlier block left, equals the number of IDs; all sources count as looked at if that was 0 or more than the IDs |
| `BlockEncodings.PartiallyDownloadedBlock.Accept` | src/blockencodings.cpp:58-86 | The tests of an announcement: refused exactly if empty, too long, in use or with prefilled positions out of reach |
| `BlockEncodings.PartiallyDownloadedBlock.Prefill` | src/blockencodings.cpp:70-86 | Accepts exactly the lists whose positions can be reached, and puts each transaction into its slot |
| `BlockEncodings.PartiallyDownloadedBlock.TableIds` | src/blockencodings.cpp:92-110 | The short IDs go to the free slots in order |
| `BlockEncodings.PartiallyDownloadedBlock.NextSlot` | src/blockencodings.cpp:95-97 | The search for a free slot stays inside the list |
| `BlockEncodings.PartiallyDownloadedBlock.MatchIds` | src/blockencodings.cpp:92-174 | Fails exactly for an uneven table or equal IDs |
| `BlockEncodings.PartiallyDownloadedBlock.Search` | src/blockencodings.cpp:116-174 | Looks through the pool, then the extra transactions, each to its end of the search; the run with its counts |
| `BlockEncodings.PartiallyDownloadedBlock.Scan` | src/blockencodings.cpp:119-142 | Ends exactly after the first source at which the count equals the number of IDs; that loses nothing when the count started from 0: then every slot is filled |
| `BlockEncodings.PartiallyDownloadedBlock.Look` | src/blockencodings.cpp:120-136 | One source, offered to the slot of its ID |
| `BlockEncodings.PartiallyDownloadedBlock.Offer` | src/blockencodings.cpp:122-136 | First match fills, a second one empties, unless known to be the same |
| `BlockEncodings.PartiallyDownloadedBlock.FillBlock` | src/blockencodings.cpp:189-213 | Missing transactions go to the empty slots in order; exactly when it fails; with too few the slots before the first empty one not served have been given away; afterwards the object cannot be used again |
| `BlockEncodings.BlockRebuilt` | src/blockencodings.cpp:189-213 | Completing with the transactions of the empty slots gives the block |
| `BlockEncodings.UniqueFound` | src/blockencodings.cpp:116-174 | A source that alone has an ID of the block ends up in its slot |
| `BlockEncodings.NothingMissing` | src/blockencodings.cpp:116-174 | If every announced ID has exactly one source nothing needs to be requested |
| `BlockEncodings.FilledRight` | src/blockencodings.cpp:116-174 | Whatever was filled in is right, unless short IDs collide |
| `BlockEncodings.TableExact` | src/blockencodings.cpp:111-114 | Equal sizes mean that every ID has its own slot |
| `BlockEncodings.Announce` | src/blockencodings.cpp:20-38 | For every block: the first and, with MWEB data, the last transaction in full, the short IDs of the others that are not HogEx in order |
| `BlockEncodings.AnnouncementSize` | src/blockencodings.cpp:20-38 | There is a place for every transaction if and only if there is one HogEx with MWEB data and none without |
| `BlockEncodings.AnnouncementShape` | src/blockencodings.cpp:20-38 | Sizes and positions of an announcement of a block whose HogEx is last |
| `BlockEncodingsCases.StaleMisses` | src/blockencodings.cpp:139-174 | For every count from 1 to the number of IDs that an earlier block may have left there is a pool whose search ends before its last source, which alone has an ID of the block |
| `BlockEncodingsCases.ReuseMisses` | src/blockencodings.cpp:58-179 | On a reused object with such a count and such a pool InitData is OK and leaves the slot of that source empty |
| `BlockEncodingsCases.TwoBlocks` | src/blockencodings.cpp:58-213 | InitData, FillBlock and InitData on one object: the second block misses a transaction that the pool has |
| `BlockEncodingsCases.ExtraCountIs` | src/blockencodings.cpp:144-174 | The count of extra transactions is the slots they filled less those they emptied, modulo 2^64 |
| `BlockEncodingsCases.LowerBoundIff` | src/blockencodings.cpp:227 | It is a lower bound for the slots that hold an extra transaction, as logged, if and only if, of the sources looked at, there are no more IDs for which the pool has one transaction and the extra transactions a different one than IDs for which the pool has none and the extra transactions agree on one |
| `BlockEncodingsCases.ChangedAre` | src/blockencodings.cpp:144-174 | Which slots the extra transactions fill and empty, by the sources |
| `BlockEncodingsCases.ExtraProgress` | src/blockencodings.cpp:144-174 | The count after any number of extra transactions, and so where their search ends, by the sources |
| `BlockEncodingsCases.PoolProgress` | src/blockencodings.cpp:116-142 | The count after any number of the pool, and so where its search ends: the IDs that exactly one of them has |
| `BlockEncodingsCases.ExtraCountWraps` | src/blockencodings.cpp:144-174 | A run after which no extra transaction is used and the count is 2^64 - 1 |

## Left out

- Miner: the MWEB miner is its answers, any function of what it was offered before; the comparator is any function, and that of the code is in exact arithmetic, not in doubles; 64-bit wrap-around, the two statistics counters, coinbase and HogEx construction, and the mempool walks that compute ancestors and descendants.
- Coins: best-block reads and writes inside a run (`Flush` states their effect); database write failures, partial batches, SetBackend, MWEB views, AddCoins and HaveInputs.
- MerkleBlock: no hash function is assumed collision-free; the two main results name the sets of pairs on which collisions are excluded. 32-bit wrap-around of positions, which the transaction limit excludes, and the MWEB variant.
- AddrMan: Select_, serialization, asmap lookup and the floating-point chance. `Check` reads a missing address as 0 without entering it in mapAddr, which the invariant rules out. `Add` and `GetAddr` take one time for the call.
- CheckQueue: worker shutdown, the RAII controller; condition variables are modelled by allowing a sleeping thread to wake at any time.
- Bloom: the sizing formulas in floating point, and the plain bloom filter; words are modelled as sets of bit positions.
- CuckooCache: the atomic flags under concurrent readers, setup_bytes, the depth formula, and 32-bit wrap-around of the 45 percent.
- ArithUint256: operands are passed by their limbs, so an operand that is the number itself is read before it is changed; conversions to double, hex and hashes.
- Chain: pointers are indices into a growing list; FindEarliestAtLeast, GetBlockProofEquivalentTime and 32-bit overflow of the locator step.
- Bech32, Base58: strings are lists of bytes; the detection of four errors within 89 characters, which was found by a search over codes; the embedded-NUL refusal and the check variants of Base58, and int overflow for strings of 2^31 characters.
- Compressor: script compression.
- BlockFilter: filters are built for a Golomb-Rice parameter of at most 64, beyond which the bit writer refuses; ReadCompactSize and filter headers.
- BlockEncodings.PartiallyDownloadedBlock.InitData: for up to 65535 transactions, which deserialization ensures; the bucket heuristic is a parameter.
- BlockEncodings.PartiallyDownloadedBlock.FillBlock: the verdict of CheckBlock is a parameter; the two statistics counters are not modelled.
- Networking, validation, wallet, RPC, script interpreter, MWEB cryptography and the libraries bundled with the repository.
