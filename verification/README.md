# A verified model of MemEC's erasure codes, hash index, placement and client accounting

MemEC is an erasure-coded in-memory key-value store. This project models the parts of it whose correctness is least
visible in the code and proves it with Dafny. `dafny verify dfyconfig.toml` checks everything.

**Array codes** (`ModPrime`, `RepairSchedule`, `Buffers`, `ArrayCode`, `Encoding`, `PrimeSearch`, `SmallPrime`,
`Raid5`, `RdpRepair`, `Rdp`, `PlainStripes`, `EvenOddCode`, `EvenOddRepair`, `EvenOdd`, `Bitmasks`). RDP and EVENODD
cut a chunk into p - 1 symbols for a prime p, keep a row parity and a diagonal parity, and repair two lost chunks by
walking along diagonals and rows in place. Chunks are mutable byte arrays, bytes are XORed, and p, k, the symbol size
and all contents are arbitrary. The repair schedule is proved from number theory modulo p and the code's wrapping
index arithmetic; on top of it `Decode` is proved to give back the stored stripe for every loss pattern of at most two
chunks, with the exact condition where the code needs zeroed buffers. Incremental parity updates are proved to keep
the stripe relation. What a stripe is is also said bit by bit, without any of the sums used in the proofs
(`PlainStripes`).

**Cuckoo hash index** (`CuckooIndex`, `CuckooKeys`, `KeyComparison`, `Cuckoo`). Four-slot buckets, two candidate
buckets per key, a random displacement path of at most 500 hops and a backward move that may abort and restart. The
hash is an arbitrary function of bytes; which bytes the code hashes is taken from the layout of the stored object.
`rand()` is an arbitrary number. The table is proved to terminate, to lose nothing and to refine a map for keys that
the code's comparison tells apart.

**Placement** (`StripeRank`, `StripeBalance`, `StripeLists`, `ServerStates`, `Remapping`, `OriginalServers`). The
greedy stripe-list allocator over packed bit matrices, with its balance bound, its layout and the inverse queries
`list` and `get`; and the assignment of substitutes for failed chunks.

**Large objects and chunk layout** (`LargeObjects`, `Reassembly`, `SplitUpdate`, `KeyValues`, `ChunkScan`). Splitting
a value, reassembling splits in any order, spreading an update over the splits, and scanning a packed chunk.

**Client accounting** (`PendingMaps`, `Replies`, `ReplySteps`, `ReplyRuns`, `RevertHandling`, `RevertCounters`,
`RevertSteps`, `RevertRuns`). When an application is answered and when a state transition may be acknowledged.
`PendingMaps` and `RevertHandling` have the handlers as methods; `Replies` and `RevertCounters` are state machines
whose steps are the lock-protected actions, so that their theorems hold for every interleaving of worker threads; the
other modules prove that the handlers, called in any order, are such steps.

Where the code does not do what one would expect, the model follows the code and says exactly when it works:

- RDP clears lost buffers only when two of the data and row parity chunks are lost. In its other branches decoding
  succeeds iff the lost buffers were zero (`Rdp.RdpCoding.Decode`).
- RAID-5 decode with nothing lost zeroes chunk 0 (`Raid5.NothingLostErasesFirst`).
- The error messages ask for a prime p > k + 1 (RDP) or p > k (EVENODD); the searches accept p >= k + 1 and p >= k,
  which suffices.
- Displacing a large object hashes other bytes than inserting it and can move it out of both its buckets: exactly when
  the object is large and not a split whose bytes happen to agree (`CuckooKeys.DisplacementIsSafeIff`), so always for
  first splits (`CuckooKeys.DisplacedCanBeLost`). The map theorems speak of objects that hash the same on
  displacement; that covers every object that is not large and every table with a fixed key size
  (`Cuckoo.CuckooHash.SmallHashesAlike`).
- With variable key sizes, which is how the server keeps its objects, keys are compared with strncmp, which stops at a
  zero byte. Two splits of one large object with offsets below 2^16 always pass for the same key
  (`KeyComparison.SplitsMistakenIff`): where they share a bucket the wrong one is found or deleted
  (`Cuckoo.MistakenSplit`). `Cuckoo.CuckooHash.RightIff` and `Find` say exactly when a lookup is right.
- `insert` reports a full table when a random walk fails; what is proved is that both buckets were full and 499
  displacements did not help, and that this cannot happen if every walk of at most 498 displacements meets an empty
  slot (`Cuckoo.CuckooHash.Insert`).
- An update is classified as large by its end offset. One that ends one to three bytes behind the first split is sent
  to that split alone (`SplitUpdate.ClassificationIsRightIff`, `SplitUpdate.StraddlingUpdateMissed`).
- An empty update at the start of a split of a large object has no pieces, so no server is asked and the application
  is never answered (`ReplyRuns.UpdateAnsweredIff`).
- With more entries than data chunks, remapping can pick the server of another entry among the first 1 + m
  (`OriginalServers.NeverSubstitutesIff`); it never picks the server of a failed one (`Remapping.NoTargetIsFailed`).
- When every prime of the list is too small for k, the search still accepts the last one if it divides the chunk
  (`PrimeSearch.GetSymbolSize`). Two chunks whose columns are p apart can then not be recovered when both are lost
  (`SmallPrime.RdpPairUndetermined`).
- Sizes and offsets of objects lose their highest byte when stored (`KeyValues.Number24Inverts`).

Conventions. `byte` is an 8-bit vector where bytes are XORed; in the object layout a byte is a number below 256. A
ghost parameter such as `st` (the stripe that was stored) or `objs` (the objects of a chunk) names what a contract
speaks about; contracts hold for all its values. Counters and offsets are unbounded integers unless said otherwise.

## Model

| member | source | states |
|---|---|---|
| `RepairSchedule.RdpReadsRepaired` | common/coding/rdpcoding.cc:149-232 | In every iteration the cursor is off the missing diagonal and off row p - 1, and the only other unknown symbol on the diagonal is absent or was repaired by the iteration before, across the swap of the two columns |
| `RepairSchedule.RdpRowsDiffer` | common/coding/rdpcoding.cc:160-232 | The p - 1 iterations of the two-erasure repair visit pairwise different rows, for every prime p and every two columns |
| `RepairSchedule.RdpReachesEveryRow` | common/coding/rdpcoding.cc:160-232 | and so every row 0..p-2 is repaired |
| `RepairSchedule.RdpRowIsNew` | common/coding/rdpcoding.cc:160-232 | No iteration repairs a row that was repaired before |
| `RepairSchedule.RdpAtClosed` | common/coding/rdpcoding.cc:149-232 | The walk has a closed form: multiples of the column difference up to the swap, then multiples of its negative; the index arithmetic wraps at 32 bits as in the code |
| `RepairSchedule.EvenOddReadsRepaired` | common/coding/evenoddcoding.cc:187-239 | The same for EVENODD, whose walk has no swap and may use diagonal p - 1 |
| `RepairSchedule.EvenOddRowsDiffer` | common/coding/evenoddcoding.cc:187-239 | The EVENODD iterations visit pairwise different rows |
| `RepairSchedule.EvenOddReachesEveryRow` | common/coding/evenoddcoding.cc:187-239 | and reach all of them |
| `ModPrime.MultiplesDiffer` | common/coding/rdpcoding.cc:223-225 | Multiples of a nonzero difference below a prime p are different modulo p: the number theory the repair chain rests on |
| `ModPrime.IsPrimeIff` | common/coding/rdpcoding.cc:239-260 | What the list is taken to hold: numbers from 2 on that are no product of two such numbers |
| `Buffers.BitwiseXor` | common/coding/coding.cc:88-108 | The word loop and the byte tail together write the bytewise XOR of the two sources, also when the destination is one of them, and nothing else: a bit of a written byte is clear iff the two source bytes have the same bit there |
| `Buffers.XorBits` | common/coding/coding.cc:97-103 | Each of the eight bits of a XOR is clear iff the operands agree in it |
| `Buffers.ComputeDelta` | common/ds/chunk_util.hh:222-243 | The delta is old XOR new on the range; with applyUpdate the chunk ends up with the new data there and unchanged elsewhere |
| `Buffers.UpdateIsXor` | common/ds/chunk_util.hh:222-243 | The updated chunk is the old one XORed with the delta placed at its offset |
| `Bitmasks.BitmaskArray.constructor` | common/ds/bitmask_array.cc:6-18 | A new bit matrix has the words it needs and every bit clear |
| `Bitmasks.BitmaskArray.Set` | common/ds/bitmask_array.cc:24-28 | Sets exactly one bit of the packed words |
| `Bitmasks.BitmaskArray.Unset` | common/ds/bitmask_array.cc:30-34 | Clears exactly one bit |
| `Bitmasks.BitmaskArray.Check` | common/ds/bitmask_array.cc:36-40 | Reads one bit |
| `Bitmasks.BitmaskArray.CheckAllSet` | common/ds/bitmask_array.cc:42-50 | True iff every bit of the entry is set |
| `Bitmasks.BitmaskArray.Clear` | common/ds/bitmask_array.cc:86-99 | Clears all bits of one entry and no bit of another, including the path that zeroes whole 64-bit words |
| `Bitmasks.AtInjective` | common/ds/bitmask_array.cc:25-26 | Different (entry, bit) pairs have different positions in the packed words |
| `Raid5.Raid5Coding.Encode` | common/coding/raid5coding.cc:14-39 | Adds the XOR of the n - 1 data chunks to the parity buffer |
| `Raid5.Raid5Coding.Decode` | common/coding/raid5coding.cc:41-103 | Succeeds iff at most one of the n chunks is lost, and then adds all the others to that chunk (to chunk 0 if none is lost) |
| `Raid5.AddOthersRestores` | common/coding/raid5coding.cc:88-99 | On a balanced stripe the lost chunk comes back iff its buffer was zero before |
| `Raid5.NothingLostErasesFirst` | common/coding/raid5coding.cc:41-103 | With no chunk lost, decode zeroes chunk 0: the stripe survives iff that chunk was zero already |
| `Raid5.RowParityBalanced` | common/coding/raid5coding.cc:14-39 | Row parity over symbols means that the k + 1 chunks XOR to zero at every byte |
| `ArrayCode.DiagSumSolved` | common/coding/rdpcoding.cc:55-95 | A symbol is what its diagonal's sum leaves when the other columns are taken away |
| `ArrayCode.RowSumSolved` | common/coding/rdpcoding.cc:194-220 | A symbol is what its row leaves, with one or two columns taken away |
| `ArrayCode.DiagSumLinear` | common/coding/rdpcoding.cc:58-95 | Diagonal sums are linear in the stripe |
| `PlainStripes.RdpStripeIffBits` | common/coding/rdpcoding.cc:47-99 | An RDP stripe, in byte positions and bits only: a bit of the row parity is set iff an odd number of data chunks has it set in that row, and a bit of symbol d of the last chunk iff an odd number of the other chunks has it set in their row s with (c + s) % p == d |
| `PlainStripes.EvenOddStripeIffBits` | common/coding/evenoddcoding.cc:12-78 | The same for EVENODD, whose second parity counts the bits of diagonal d together with those of diagonal p - 1 |
| `Encoding.PartOf` | common/coding/rdpcoding.cc:65-73 | The bytes of a symbol processed by a range-limited encode are exactly those inside startOff..endOff |
| `Encoding.VisibleByte` | common/coding/rdpcoding.cc:65-73 | What a range-limited encode takes of a data chunk: the byte at c * chunkSize + s * symbolSize + b iff that position is in startOff..endOff, otherwise zero |
| `Encoding.VisibleIsAll` | common/coding/rdpcoding.cc:58-95 | Limiting the encode to a range outside which the data is zero loses nothing |
| `Encoding.OneChunkUpdated` | common/ds/chunk_util.hh:222-243 | XORing the stripe that is zero but for the delta replaces one chunk by its updated version |
| `PrimeSearch.GetPrime` | common/coding/rdpcoding.cc:239-260 | The binary search ends at the first prime that is large enough, or at the last index; for EVENODD it passes over 2 |
| `PrimeSearch.GetSymbolSize` | common/coding/rdpcoding.cc:262-285 | If a prime is found, p - 1 divides the chunk, symbols fill it exactly and no smaller prime of the list is usable; otherwise none is. The prime found is too small iff the last one of the list is too small and divides |
| `PrimeSearch.NoneBelowIff` | common/coding/rdpcoding.cc:262-285 | No prime of the list below the one found is large enough and divides the chunk size after subtracting one |
| `SmallPrime.WideIsStripe` | common/coding/rdpcoding.cc:55-95 | The sums that the encoding loops make for any number of columns are the stripes of the decoding theorems when p is large enough |
| `SmallPrime.RdpPairUndetermined` | common/coding/rdpcoding.cc:262-285 | With p <= k any stripe of the encoding loops has another one for every chunk x that differs in columns c and c + p only: a loss of both cannot be undone |
| `SmallPrime.EvenOddPairUndetermined` | common/coding/evenoddcoding.cc:12-78 | The same for EVENODD with p < k and two data columns |
| `Rdp.RdpCoding.constructor` | common/coding/rdpcoding.cc:28-34 | p is the smallest usable prime >= k + 1 of the list; the code exits if there is none, and accepts a p below k + 1 iff the last prime of the list is one and divides the chunk |
| `Rdp.RdpCoding.Encode` | common/coding/rdpcoding.cc:40-100 | Index 1 adds the row parity to the buffer, index 2 the diagonal sums over data and row parity with the missing diagonal left out, restricted to the range; any other index changes nothing |
| `Rdp.RdpCoding.StripeIffParities` | common/coding/rdpcoding.cc:47-99 | Data and two parity chunks form a stripe iff the parities are the row and diagonal sums of the data |
| `Rdp.RdpCoding.FreshEncodeIsStripe` | common/coding/rdpcoding.cc:47-99 | Encoding into two zeroed buffers gives a stripe |
| `Rdp.RdpCoding.UpdateKeepsStripe` | common/coding/rdpcoding.cc:40-96 | Encoding a delta, limited to the range it touches, into the old parities gives the stripe of the updated data |
| `Rdp.RdpCoding.InPlaceUpdateKeepsStripe` | common/ds/chunk_util.hh:222-243 | computeDelta on part of a chunk, then encode of that delta over that range, keeps the stripe relation |
| `RdpRepair.RepairPair` | common/coding/rdpcoding.cc:170-220 | One iteration restores one symbol of each lost chunk and touches no other symbol |
| `RdpRepair.RepairBoth` | common/coding/rdpcoding.cc:149-232 | The repair loop restores two cleared chunks among columns 0..k completely |
| `RdpRepair.NextSymbol` | common/coding/rdpcoding.cc:223-231 | The cursor update of the code is the next step of the schedule, wrap-around included |
| `Rdp.RdpCoding.PerformXor` | common/coding/rdpcoding.cc:287-305 | Adds the other chunks among 0..k to the target; out of range nothing happens |
| `Rdp.RdpCoding.Decode` | common/coding/rdpcoding.cc:102-237 | Succeeds iff one or two chunks are lost. Two lost among columns 0..k are always restored exactly; in the other cases the stripe is restored iff the lost buffers were zero on entry; survivors never change |
| `EvenOddCode.DiagonalsAreRows` | common/coding/evenoddcoding.cc:176-185 | All p diagonals together hold the same symbols as all rows |
| `EvenOddCode.AdjusterFromParities` | common/coding/evenoddcoding.cc:176-185 | For odd p the XOR of all row and diagonal parity symbols is the adjuster S |
| `EvenOddCode.AdjusterFromDiagonal` | common/coding/evenoddcoding.cc:126-139 | S is also what the one diagonal that misses the lost column yields |
| `EvenOddCode.SymbolFromDiagonal` | common/coding/evenoddcoding.cc:197-217 | A data symbol is its diagonal's remainder plus parity plus S |
| `EvenOddRepair.AdjusterOfParities` | common/coding/evenoddcoding.cc:176-185 | The loop over both parity chunks leaves S in the buffer |
| `EvenOddRepair.RecoverAdjuster` | common/coding/evenoddcoding.cc:126-139 | So does the loop over the diagonal that misses the lost column; no index reaches row p - 1 |
| `EvenOddRepair.RepairDataChunk` | common/coding/evenoddcoding.cc:141-167 | With S known a lost data chunk is restored from the diagonals alone |
| `EvenOddRepair.RepairTwoChunks` | common/coding/evenoddcoding.cc:174-242 | The zig-zag over diagonals and rows restores two cleared data chunks completely |
| `EvenOdd.EvenOddCoding.constructor` | common/coding/evenoddcoding.cc:4-7 | p is the smallest usable odd prime >= k of the list; the code exits if there is none, and accepts a p below k iff the last prime of the list is one and divides the chunk |
| `EvenOdd.EvenOddCoding.Encode` | common/coding/evenoddcoding.cc:12-78 | Index 1 adds the row parity, index 2 the diagonal sums adjusted by S, restricted to the range |
| `EvenOdd.EvenOddCoding.StripeIffParities` | common/coding/evenoddcoding.cc:12-78 | Data and two parity chunks form a stripe iff the parities are those of the data |
| `EvenOdd.EvenOddCoding.FreshEncodeIsStripe` | common/coding/evenoddcoding.cc:12-78 | Encoding into zeroed buffers gives a stripe |
| `EvenOdd.EvenOddCoding.UpdateKeepsStripe` | common/coding/evenoddcoding.cc:12-78 | Encoding a range-limited delta into the old parities gives the stripe of the updated data |
| `EvenOdd.EvenOddCoding.InPlaceUpdateKeepsStripe` | common/ds/chunk_util.hh:222-243 | The same for an update computed by computeDelta |
| `EvenOdd.EvenOddCoding.Decode` | common/coding/evenoddcoding.cc:80-245 | Succeeds iff one or two chunks are lost, and then every chunk holds the stripe again, whatever the lost buffers held; otherwise nothing changes |
| `CuckooIndex.AltIndexTwice` | common/hash/cuckoo_hash.cc:44-47 | The alternative of the alternative bucket is the bucket itself, for every tag and valid index |
| `CuckooIndex.CandidatesInRange` | common/hash/cuckoo_hash.cc:35-47 | Both candidate buckets exist |
| `CuckooIndex.IndexHashIsTop` | common/hash/cuckoo_hash.cc:35-37 | The first bucket is given by the top bits of the hash value |
| `CuckooIndex.TagHashIs` | common/hash/cuckoo_hash.cc:39-42 | The tag is the low byte of the hash value, with 1 in place of 0 |
| `CuckooIndex.AltIndexBit` | common/hash/cuckoo_hash.cc:44-47 | Bit i of the other bucket is bit i of the index, inverted iff the tag times 0x5bd1e995, cut to 32 bits, has a one there; bits beyond the table size are zero |
| `CuckooIndex.AltIndexSameIff` | common/hash/cuckoo_hash.cc:44-47 | Two tags lead to the same alternative iff they agree modulo the table size: multiplying by the odd constant loses nothing |
| `CuckooIndex.CandidatesDiffer` | common/hash/cuckoo_hash.cc:39-47 | With at least 256 buckets the two candidates of a key differ: this is what the nonzero tag is for |
| `CuckooIndex.OtherCandidateIff` | common/hash/cuckoo_hash.cc:239-258 | With at least 256 buckets displacement from a candidate bucket leads to a candidate bucket iff the tag computed then is the tag of the key |
| `CuckooKeys.HashedBytesAre` | common/hash/cuckoo_hash.cc:366-376 | Hashed are the bytes of the key, followed by the split offset of a large object unless it is zero |
| `CuckooKeys.KeyInMemory` | common/ds/key_value.cc:7-17 | The key of a stored object, read back from its header and the bytes behind the key |
| `CuckooKeys.KickedInMemory` | common/hash/cuckoo_hash.cc:239-251 | In a chunk that holds an object, the range that cpSearch hashes: the key, for a large object preceded by three bytes |
| `CuckooKeys.HashedAlikeIff` | common/hash/cuckoo_hash.cc:239-251 | These are the bytes that insert hashes iff the object is not large, or it is a later split and the bytes of its value size followed by the key equal the key followed by the bytes of its split offset |
| `CuckooKeys.StaysFindableIff` | common/hash/cuckoo_hash.cc:239-258 | For a given hash function an object stays in a candidate bucket under displacement iff the two tags agree |
| `CuckooKeys.DisplacementIsSafeIff` | common/hash/cuckoo_hash.cc:239-258 | It does for every hash function iff the condition of HashedAlikeIff holds |
| `CuckooKeys.DisplacedCanBeLost` | common/hash/cuckoo_hash.cc:239-258 | The first split of every large object can be moved out of both its buckets |
| `Cuckoo.CuckooHash.SmallHashesAlike` | common/hash/cuckoo_hash.cc:239-251 | An object that is not large, and every object of a table with a fixed key size, hashes the same on displacement as on insertion |
| `KeyComparison.SameStringIff` | common/ds/key.hh:51-57 | Comparing two buffers of one length with strncmp finds them equal iff they are, or agree up to and including a common zero byte |
| `KeyComparison.KeysEqualIff` | common/ds/key.hh:51-57 | Two keys are taken for the same iff they are, or have one size and kind and agree, split offset included, through a common zero byte |
| `KeyComparison.ToldApartWithoutZero` | common/ds/key.hh:51-57 | A key without a zero byte, split offset included, is told apart from every other key |
| `KeyComparison.SplitsMistakenIff` | common/ds/key.hh:51-57 | Two different splits of any large object are taken for the same iff the key holds a zero byte, or both offsets are below 2^16, or they differ in the last byte only and the byte before it is zero |
| `Cuckoo.CuckooHash.ToldApart` | common/hash/cuckoo_hash.cc:141-191 | Nothing is mistaken for a key in a table with a fixed key size, nor for a key without a zero byte in the other kind |
| `Cuckoo.CuckooHash.RightIff` | common/hash/cuckoo_hash.cc:141-191 | A lookup is right if no object of another key that passes for this one is in the two buckets searched; and it is right with nothing stored under the key iff there is no such object |
| `Cuckoo.CuckooHash.RightIffFirst` | common/hash/cuckoo_hash.cc:141-191 | When the key has an object the lookup is right iff no mistaken object is searched before it |
| `Cuckoo.MistakenSplit` | common/hash/cuckoo_hash.cc:100-211 | For every large object and every two splits below 2^16 that share a bucket: looking up the second finds the first, and deleting the second removes the first |
| `Cuckoo.CuckooHash.constructor` | common/hash/cuckoo_hash.cc:7-29 | An empty table stands for the empty map |
| `Cuckoo.CuckooHash.CpSearch` | common/hash/cuckoo_hash.cc:213-268 | Extends a linked path to a bucket with an empty slot or gives up only after 499 displacements; the path array is never indexed past its end; where every walk leads to an empty slot in time it finds one, along different buckets |
| `Cuckoo.CuckooHash.CpBackmove` | common/hash/cuckoo_hash.cc:270-312 | Moves objects along the path, stopping where a slot changed; the multiset of objects and their placement are kept; the empty-destination assertion holds at every move; a path through different buckets is moved completely |
| `Cuckoo.CuckooHash.Move` | common/hash/cuckoo_hash.cc:273-298 | One displacement keeps the objects and takes an object from one of its candidate buckets to the other |
| `Cuckoo.CuckooHash.Cuckoo` | common/hash/cuckoo_hash.cc:314-333 | Terminates with measure (500 - kickCount, depth); succeeds, aborts or fails without losing or misplacing an object; on success the first slot of the path is empty; it succeeds if every walk of at most 498 displacements meets an empty slot |
| `Cuckoo.CuckooHash.HeightDrops` | common/hash/cuckoo_hash.cc:213-268 | Displacing from a full bucket leaves fewer displacements to go in the worst case, so such a walk never returns to a bucket |
| `Cuckoo.CuckooHash.Insert` | common/hash/cuckoo_hash.cc:366-411 | Uses the first empty slot of the first bucket, that of the top bits of the hash value, then of the second bucket; with both full it displaces, after which the final tryAdd always succeeds, or fails after 499 displacements, and cannot fail if every walk of at most 498 displacements from the second bucket meets an empty slot. A successful insert adds exactly the object, a failed one loses nothing; for a fresh key the table's map gains exactly that key |
| `Cuckoo.CuckooHash.Find` | common/hash/cuckoo_hash.cc:100-211 | Returns the first object that passes for the key, of the first bucket or else of the second. For a table that stands for a map this is what the map holds under the key iff the lookup is right, in particular whenever nothing in the buckets is mistaken; no object stored under the key is missed |
| `Cuckoo.CuckooHash.Del` | common/hash/cuckoo_hash.cc:413-512 | Empties exactly the slot a lookup finds, or none; the table still stands for a map, without the key of that object: it loses exactly the given key iff the lookup is right |
| `Cuckoo.AddedIsDistinctIff` | common/hash/cuckoo_hash.cc:366-411 | Insert does not look for duplicates: the table remains a map iff the key was fresh |
| `Cuckoo.RemovedDropsKey` | common/hash/cuckoo_hash.cc:494-512 | Deleting an object drops its key from the map |
| `StripeLists.StripeList.PickMin` | common/stripe_list/stripe_list.hh:40-63 | The unused server with the least (load, count), the first of these, for all values of the counters; one with both at 2^32 - 1 is never chosen, and the answer is 0 if no other is left |
| `StripeBalance.BeforeIs` | common/stripe_list/stripe_list.hh:45-57 | Of two servers exactly one is preferred: that of smaller load, with equal loads that of smaller count, then the first |
| `StripeBalance.GreedyKeepsBalance` | common/stripe_list/stripe_list.hh:90-114 | The greedy choice keeps max load - min load <= k |
| `StripeBalance.BalancedNearAverage` | common/stripe_list/stripe_list.hh:90-114 | Every load is within k of the average |
| `StripeBalance.GreedyIsUnique` | common/stripe_list/stripe_list.hh:40-63 | Choosing by load, then count, then position leaves one possible set of parity servers and one of data servers |
| `StripeBalance.PlacementIsUnique` | common/stripe_list/stripe_list.hh:84-122 | So all lists together are determined by the numbers of lists, servers, data and parity chunks |
| `StripeLists.LoadsNext` | common/stripe_list/stripe_list.hh:90-114 | Each list keeps the bound, adds k * (n - k + 1) to the total load and n to the total count, and no counter can wrap |
| `StripeLists.StripeList.Generate` | common/stripe_list/stripe_list.hh:84-122 | After all lists: each was chosen greedily after the lists before it, parity servers first; every load and count is exactly what these lists charge; bound and totals hold; every list has k data and n - k parity servers, all different, entered in ascending order |
| `StripeLists.PositionAscends` | common/stripe_list/stripe_list.hh:101-114 | A server of a list has a smaller chunk id than another iff it keeps data and the other parity, or both keep the same and it comes first |
| `StripeLists.StripeList.constructor` | common/stripe_list/stripe_list.hh:125-143 | A new stripe list satisfies all of this |
| `StripeLists.StripeList.Update` | common/stripe_list/stripe_list.hh:252-272 | After a server was replaced every position refers to the new server and no position, load or count moves |
| `StripeLists.StripeList.List` | common/stripe_list/stripe_list.hh:217-250 | Exactly the lists a server belongs to, in order, each once, with its chunk id and role |
| `StripeLists.StripeList.GetOfEntry` | common/stripe_list/stripe_list.hh:199-202 | get on an entry of list gives the server back; it is a parity entry iff its chunk id is at least k |
| `StripeLists.StripeList.EntryOfGet` | common/stripe_list/stripe_list.hh:217-250 | Conversely every chunk id of a list is an entry of exactly one server |
| `StripeLists.StripeList.ServersAscend` | common/stripe_list/stripe_list.hh:101-114 | Data chunks c < d of a list are on servers s < t, in get as in list, and so are its parity chunks |
| `StripeLists.StripeList.ServersOfListDiffer` | common/stripe_list/stripe_list.hh:101-114 | The n chunks of a list are on different servers |
| `Remapping.Collect` | client/remap/basic_remap_scheme.cc:30-52 | The first pass keeps exactly the entries whose servers failed, in their order (data chunks only for a GET) and collects the excluded servers |
| `Remapping.SocketIs` | client/remap/basic_remap_scheme.cc:33-36 | Chunk ids run over the data servers, then over the parity servers |
| `Remapping.KeptIff` | client/state_transit/state_transit_handler.cc:276-289 | An entry is kept iff its server is known to be in INTERMEDIATE, WAIT_DEGRADED or DEGRADED and, for a GET, it is a data chunk |
| `Remapping.KeptInOrder` | client/remap/basic_remap_scheme.cc:38-46 | and the kept entries stay in their order |
| `Remapping.PickTarget` | client/remap/basic_remap_scheme.cc:65-119 | The first eligible server, unless its latency is known and a later one has a smaller known latency: then the first of the least; the chunk itself only if no server is eligible |
| `Remapping.ChosenIsBest` | client/remap/basic_remap_scheme.cc:82-110 | The same in terms of states and latencies only: what holds between the chosen server and any other that could have been chosen |
| `Remapping.Redirect` | client/remap/basic_remap_scheme.cc:13-128 | Both arrays end up with the kept entries, those whose servers are in INTERMEDIATE, WAIT_DEGRADED or DEGRADED (data chunks only for a GET); each has the substitute chosen for it after those before it, with their latencies raised, and the rest of the array is untouched |
| `Remapping.AssignedIsSafe` | client/remap/basic_remap_scheme.cc:65-124 | A substitute is not excluded, is in NORMAL state if its state is known, and no server substitutes twice |
| `Remapping.LatenciesAre` | client/remap/basic_remap_scheme.cc:116-124 | Afterwards a known latency is higher by the increment for every server that serves as a substitute, and unchanged for every other |
| `Remapping.UnassignedOnlyIfNoneLeft` | client/remap/basic_remap_scheme.cc:113-116 | An entry stays as it is only if every eligible server is already used |
| `Remapping.NoTargetIsFailed` | client/remap/basic_remap_scheme.cc:82-90 | No substitute is the server of a failed entry, its own original included, for any number of entries |
| `Remapping.ChosenIsUnique` | client/remap/basic_remap_scheme.cc:65-119 | The choice of a substitute is determined by the states, the latencies and the choices before it |
| `Remapping.AssignedIsUnique` | client/remap/basic_remap_scheme.cc:65-124 | and so is the whole assignment |
| `OriginalServers.OriginalSubstitutes` | client/remap/basic_remap_scheme.cc:30-52 | An entry whose server is not excluded substitutes for any other entry that can need one, in states where that other server failed and no third one is available |
| `OriginalServers.NeverSubstitutesIff` | client/remap/basic_remap_scheme.cc:30-52 | In no states and with no latencies is the server of entry y a substitute, iff there are no more entries than data chunks, or y is behind the first 1 + m entries, or no other entry can need a substitute |
| `OriginalServers.NeverSubstitutesInWrites` | client/remap/basic_remap_scheme.cc:41-42 | For SET, UPDATE and DELETE, which serve parity chunks too: iff there are no more entries than data chunks or y is behind the first 1 + m |
| `LargeObjects.SplitsTile` | common/ds/key_value.cc:246-279 | Splits start inside the value, are not empty, follow each other without gap and end with the value; there are at least two |
| `LargeObjects.LargeIffTooLong` | common/ds/key_value.cc:246-266 | A value is split iff it does not fit into a chunk behind its four header bytes and its key |
| `LargeObjects.SplitsFollow` | common/ds/key_value.cc:268-279 | Split 0 starts at 0 and every other at the distance of a full split from the one before; a value that is not large is one split |
| `LargeObjects.SplitIndexInverts` | common/ds/key_value.cc:268-295 | getSplitIndex names split i iff the offset lies in split i as placed by getValueOffsetAtSplit |
| `LargeObjects.FullSplitFillsChunk` | common/ds/key_value.cc:246-266 | A split with its headers fits into a chunk, and one that is not the last fills it |
| `Reassembly.SplitBuffer.StoreSplit` | client/worker/server_worker.cc:528-532 | Storing a split sets its flag and its bytes and damages no split stored before |
| `Reassembly.SplitBuffer.HandleSplit` | client/worker/server_worker.cc:513-583 | The value is reported complete iff the response is not the first split and all splits are there, and then the buffer is the value; the first split leads to one request for each other split |
| `Reassembly.SplitBuffer.RemainingSplits` | client/worker/server_worker.cc:550-560 | The requests sent after split 0 are the offsets of all other splits |
| `Reassembly.CompletedAtLast` | client/worker/server_worker.cc:565-577 | In every order of arrival all flags are set exactly after the last response |
| `Reassembly.Receive` | client/worker/server_worker.cc:513-583 | A whole run: whatever the order of the responses after split 0, completion is reported with the last one and no other, and the buffer then holds the value |
| `SplitUpdate.UpdatePieces` | client/worker/application_worker.cc:578-702 | The pieces of an update are its overlaps with consecutive splits, as many as `remaining` says |
| `SplitUpdate.NoPiecesIff` | client/worker/application_worker.cc:578-617 | There are none iff an empty update starts a split of a large object |
| `SplitUpdate.PieceUpdatesSplit` | client/worker/application_worker.cc:658-686 | A piece lies inside its split and inside the new data and has the effect of the whole update there |
| `SplitUpdate.PiecewiseIsWhole` | client/worker/application_worker.cc:627-702 | Writing the pieces into the splits gives exactly the splits of the wholly updated value |
| `SplitUpdate.ByteInSplit` | client/worker/application_worker.cc:658-686 | The splits make up the value: byte v is byte v % splitSize of split v / splitSize, and only the last split is shorter |
| `SplitUpdate.ClassificationIsRightIff` | client/worker/application_worker.cc:578-596 | For a large object the pieces are right iff the update does not end 1 to 3 bytes behind split 0 |
| `SplitUpdate.StraddlingUpdateMissed` | client/worker/application_worker.cc:578-596 | A concrete update over the end of split 0 that is sent to split 0 only |
| `KeyValues.Serialize` | common/ds/key_value.cc:101-140 | Writes exactly the image of the object and nothing else; a null key or value is skipped and leaves what was there |
| `KeyValues.StorableIff` | common/ds/key_value.cc:115-137 | What can be stored and how much of the value is: all of it, or of a large one as much as there is room for, the last split less |
| `KeyValues.Deserialize` | common/ds/key_value.cc:146-179 | Reads the header fields and where key and value start |
| `KeyValues.ImageInverts` | common/ds/key_value.cc:146-179 | Deserialising a serialised object gives its key, sizes, split offset and stored bytes |
| `KeyValues.Number24Inverts` | common/ds/key_value.cc:105-112 | A size or offset survives its three bytes iff it is below 2^24 |
| `ChunkScan.SerializedIsPacked` | common/ds/chunk_util.hh:209-219 | Serialising one more object behind the others keeps the chunk packed |
| `ChunkScan.PackAll` | common/ds/chunk_util.hh:209-219 | Serialising any list of objects that fits, one behind the other, into a zeroed chunk packs it |
| `ChunkScan.PackedIsReadBack` | common/ds/key_value.cc:146-179 | and every object is read back, key, sizes, split offset and bytes, from where it starts |
| `ChunkScan.GetSize` | common/ds/chunk_util.hh:51-91 | The size is the sum of the objects' sizes, or the chunk size for a parity chunk |
| `ChunkScan.GetCount` | common/ds/chunk_util.hh:92-130 | The count is the number of objects, or zero for a parity chunk |
| `ChunkScan.Next` | common/ds/chunk_util.hh:165-189 | next steps from each object's start to the next one's, gives its key and kind, and -1 behind the last |
| `PendingMaps.EraseEntry` | client/ds/pending.cc:310-332 | Takes exactly one entry of the request and server off the map, if there is one |
| `PendingMaps.Pending.Count` | client/ds/pending.cc:620-649 | The number of entries of the request |
| `PendingMaps.Pending.HandleSetRequest` | client/worker/application_worker.cc:394-412 | Enters one entry per split for its data server and every parity server |
| `PendingMaps.Pending.HandleUpdateRequest` | client/worker/application_worker.cc:578-702 | Enters the number of pieces in the application map, then for each piece one entry with the server of its split: as many entries as the number entered |
| `PendingMaps.PieceServersOf` | client/worker/application_worker.cc:627-692 | Every server has one entry for each piece of a split that it keeps |
| `PendingMaps.Pending.SendPiece` | client/worker/application_worker.cc:688-692 | Adds exactly one entry for the request and the server asked |
| `PendingMaps.Pending.EraseKeyValueUpdate` | client/ds/pending.cc:433-465 | Counts the application's entry down and erases it at zero |
| `PendingMaps.Pending.HandleSetResponse` | client/worker/server_worker.cc:317-362 | Takes one entry off; the application is answered when it was the last one |
| `PendingMaps.Pending.HandleUpdateResponse` | client/worker/server_worker.cc:650-688 | Takes one entry off; the application is answered when its countdown reaches zero |
| `Replies.SetFanOut` | client/worker/application_worker.cc:399-412 | A SET has (m + 1) * numSplit entries |
| `Replies.SetServersOf` | client/worker/application_worker.cc:399-412 | Every server has one entry for each split whose data server it is, and every parity server one for each split |
| `Replies.FirstDataServer` | client/worker/application_worker.cc:400 | Split 0 goes to the data server of the chunk id of the key |
| `Replies.NextDataServer` | client/worker/application_worker.cc:400 | and the next split to the next data server, behind the last to the first |
| `Replies.EachDataServerOnce` | client/worker/application_worker.cc:400 | so that as many consecutive splits as there are data servers use each of them exactly once |
| `Replies.RunKeepsInv` | client/worker/server_worker.cc:317-362 | In every interleaving the entries, messages and countdowns of every request agree |
| `Replies.AnsweredOnceWhenDone` | client/worker/server_worker.cc:351-362 | In every reachable state a SET, or an UPDATE with a piece, has been answered once if all its responses are handled and not before; an UPDATE without pieces is never answered |
| `Replies.RequestStays` | client/ds/pending.cc:433-465 | No step changes the kind, the application or the number of pieces of a request |
| `Replies.AnsweredAtLastResponse` | client/worker/server_worker.cc:672-688 | The answer is given in the step that handles the last response |
| `Replies.NothingDiscarded` | client/ds/pending.cc:310-332 | No response misses its server entry or its application entry |
| `ReplySteps.SetRequestIsStep` | client/worker/application_worker.cc:394-412 | HandleSetRequest is the starting step of the state machine, seen through the pending maps of all requests |
| `ReplyRuns.UpdateRequestIsSteps` | client/worker/application_worker.cc:612-702 | HandleUpdateRequest is the starting step of an UPDATE with as many messages as there are pieces, followed by one sending step for each piece, after which nothing is unsent |
| `ReplyRuns.UpdateAnsweredIff` | client/worker/application_worker.cc:578-702 | In every later state of every run an UPDATE whose responses are all handled has been answered once, unless it is empty and starts a split of a large object: then it is never answered |
| `ReplySteps.SendIsStep` | client/worker/application_worker.cc:688-692 | SendPiece is the sending step |
| `ReplySteps.SetResponseIsSteps` | client/worker/server_worker.cc:317-362 | HandleSetResponse is the response step, followed by the finishing step iff it took the last entry of the request |
| `ReplySteps.UpdateResponseIsSteps` | client/worker/server_worker.cc:650-688 | HandleUpdateResponse is the response step followed by the finishing step |
| `ReplyRuns.LegitCalls` | client/worker/application_worker.cc:385-412 | A request with new ids may always come, and so may the response to a message that was sent |
| `ReplyRuns.Serve` | client/worker/server_worker.cc:317-362 | The handlers themselves, called in any order in which requests and responses can come, take the pending maps through a run of enabled steps and keep its invariant |
| `RevertCounters.RunKeepsInv` | client/main/client.cc:756-778 | In every interleaving a counter equals what carries it: events not yet queued, queued events, pending acks, and decrements under way |
| `RevertCounters.NeverUnderflows` | client/worker/server_worker.cc:865-876 | No counter goes below zero |
| `RevertCounters.AcknowledgedIffSettled` | client/state_transit/state_transit_handler.cc:358-414 | checkAckForServer moves a server to WAIT_DEGRADED iff it is in INTERMEDIATE, its normal requests are done and nothing carries its counter any more |
| `RevertHandling.RevertClient.RevertDelta` | client/main/client.cc:756-778 | Every server but the target and the failed ones gets an event; the counter grows by their number; conservation is kept |
| `RevertHandling.RevertEventsAre` | client/main/client.cc:758-774 | Exactly the servers that are not the target and not failed are asked |
| `RevertHandling.RevertEventsDiffer` | client/main/client.cc:758-774 | and each of them once |
| `RevertHandling.RevertClient.Dispatch` | client/worker/server_worker.cc:55-72 | The event taken off the queue becomes a pending ack; conservation is kept |
| `RevertHandling.RevertClient.HandleDeltaAcknowledgement` | client/worker/server_worker.cc:842-876 | A known ack is erased and its counter, positive before, goes down by one; an unknown one changes nothing |
| `RevertHandling.RevertClient.RemovePending` | client/worker/worker.cc:170-191 | Exactly the acks of the failed server are erased, and every counter goes down by the number of its acks among them; conservation is kept |
| `RevertHandling.RevertClient.CheckAckForServer` | client/state_transit/state_transit_handler.cc:358-414 | The coordinator is told iff the server is in COORDINATED, or in INTERMEDIATE with its requests done and no event or ack carrying its counter |
| `RevertHandling.RevertClient.SetState` | client/state_transit/state_transit_handler.cc:149-222 | The signalled state is taken over, but a transition already acknowledged is not started again; one that starts clears the completion of normal requests, asks the other servers to revert and gives up the acks of the failed server |
| `RevertCounters.StaysRemappable` | client/state_transit/state_transit_handler.cc:276-289 | A server that may get substitutes keeps them through the acknowledgement and the signals of its failure |
| `RevertSteps.RevertDeltaIsSteps` | client/main/client.cc:756-778 | RevertDelta is one staging step for each server asked, followed by as many queueing steps, each enabled where it is taken |
| `RevertSteps.DispatchIsStep` | client/worker/server_worker.cc:55-72 | Dispatch is one step, given a request id that is not pending |
| `RevertSteps.AcknowledgementIsSteps` | client/worker/server_worker.cc:842-876 | An answer to a pending ack is an erasing step followed by a decrement |
| `RevertSteps.RemovePendingIsSteps` | client/worker/worker.cc:170-191 | RemovePending is the step that erases the acks of the server, followed by one decrement for each of them |
| `RevertSteps.CheckIsStep` | client/state_transit/state_transit_handler.cc:358-414 | CheckAckForServer is the check step |
| `RevertSteps.SignalIsSteps` | client/state_transit/state_transit_handler.cc:160-204 | A signalled state is the signal step, followed by a note that no normal request is pending if a transition starts without any |
| `RevertSteps.StartIsSteps` | client/state_transit/state_transit_handler.cc:173-222 | and when a transition starts, by the steps of RevertDelta and of RemovePending |
| `RevertRuns.Serve` | client/worker/server_worker.cc:842-876 | The handlers themselves, called in any order, take the client through a run of enabled steps and keep its invariant |

## Left out

- Reed-Solomon and Cauchy coding: the mathematics is in libraries that are not part of the repository. RAID-0 and RAID-1: nothing to prove.
- `Coding::forceSeal`: its index and range conventions towards `encode` differ from those of the codes modelled here.
- Chunk identifier headers, memory pools and packets: a chunk is its data bytes.
- Unsigned 32-bit arithmetic outside the repair cursor, the stripe-list loads and the cuckoo index: offsets inside a stripe, sizes and counters are taken to fit.
- PrimeSearch.GetSymbolSize: the code reads one entry past the list before its bound test. That the entries of the list are primes is assumed.
- EvenOdd.EvenOddCoding.constructor: the base class constructor, which searches a prime for RDP first and may exit, is not modelled.
- Cuckoo.CuckooHash.Find: tags, the wide path array and locking are compiled out or left out; operations are sequential. A table with a fixed key size is given keys of that size. tryRead is never called.
- StripeLists.StripeList.Generate: only the load-aware choice; pickRand and consistent hashing are not modelled. It takes 0 < k <= n <= numServers and loads below 2^32 - 1, which the code does not check. The key-hashing variants of get are plain lookups and are left out.
- StripeLists.StripeList.constructor: the same preconditions. With n > numServers the code picks server 0 again when none is left, so chunks of a list share a server; with counters that reach 2^32 - 1 its initial minimum is never undercut.
- Remapping.Redirect: server states do not change during a call (locks), all entries are of one list, as the caller builds them; the test for an uninitialised scheme is left out.
- LargeObjects.SplitsTile: values to be split although the chunk has no room for a part (chunkSize <= keySize + 7) are excluded; there the code's split size wraps.
- SplitUpdate.UpdatePieces: the rewriting of the key suffix is left out; so is the lookup of a large object by an update that is not classified as large.
- Reassembly.SplitBuffer.HandleSplit: each split is taken to arrive once, with the bytes of one unchanged value; retries after a failed GET are left out.
- ChunkScan.GetSize: only chunks of objects with non-empty keys followed by zeros; deleted objects and the shared zero chunk are left out.
- Replies.RunKeepsInv: normal mode only. Failures, replay and cancellation of requests, degraded mode and server replacement are left out; request and application ids are taken to be unique.
- PendingMaps.Pending.HandleSetResponse: bookkeeping of pending normal requests and latency statistics are left out; map iteration order is one fixed order.
- RevertHandling.RevertClient.SetState: one record of a message; whether normal requests are pending is a parameter; metadata synchronisation and replay are left out, and the acknowledgement that follows is a call of its own.
- RevertCounters.AcknowledgedIffSettled: how pending normal requests become completed is left open (the flag changes freely), and server replacement is left out. That a transition is eventually acknowledged is not claimed: an event dispatched to a server after its acks were removed waits for an answer that may never come, as a remark in the code says.
- Sockets, events, threads, timers, configuration, printing, the coordinator's maps, degraded locks and the benchmark and application clients.
