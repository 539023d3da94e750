# Comanche: a verified model of its algorithmic core

This project models the parts of the Comanche repository where correctness is hard to see from the code, and
proves what those parts are for. Everything is Dafny; `dafny verify dfyconfig.toml` checks it.

**CRC32C in three lanes** (`Gf2`, `Crc32c`, `CrcTables`, `Crc1024`). `crc_1024_c` runs three 336-byte lanes of a
1024-byte buffer independently and merges them through two tables. The reference is a bit-serial shift register
with the reflected Castagnoli polynomial (section 12.1 of RFC 3720). The register is linear over GF(2), so lanes
of any length can be merged by multiplying with powers of x. Both 256-word tables are written out as in the
source, shown linear and generated by one word, and that word is shown to be the right power of x (2712 and 5400
shifts, reached by repeated squaring).

**Huge pages of the patched DPDK** (`PageCalc`, `HugepageTable`, `Memseg`, `HugepageInit`, `Remap`,
`NumaSteering`, over `Bits` for word arithmetic and `Options`). NUMA steering of the first mapping, the remap of
physically contiguous runs, the page calculation, unmapping, compaction into shared memory, coalescing into
segments, and a secondary process that attaches; `HugepageInit.RemapInitAttach` is the whole way from the answers
of the kernel to the attached process. The kernel is an oracle: functions say which calls it grants and where.

**Key-value store experiments** (`KvPool`, `KvExperiments`, `KvThroughput`). The get, erase and throughput
experiments as state machines over a store, with invariants kept by every step and stated of every run.
`DaxLayout` covers the power-of-two rounding and the addresses of DAX devices, `Statistics` the running and binned
statistics over exact reals, `RangeList` the index lists of the command line.

**Mersenne Twister** (`MersenneTwister`, `TwisterWords`). The 64-bit generator that refills its array in place,
against the infinite recurrence of `mersenne_twister_engine` (section 26.5.3.2 of ISO C++11), and which words those
are: the seeding by keys as one recurrence, the tempering bit by bit, and the first number of the default seed.

**Linter** (`Brackets`, `Nesting`). The forward and backward bracket matchers over many lines, and the stack of
open blocks: what each kind of line opens and closes, and how it survives preprocessor conditionals.

Where the code falls short of what it is for, the model keeps the code and states the exact condition:

- An inclusive range of all 2^32 indices parses to the empty list (`RangeList.RangesAgree`).
- The amount saved across a SIGBUS is an `int`; it comes back exactly below 2 GB, or within 2 GB of 2^64
  (`NumaSteering.SigbusRestores`; `NumaSteering.TwoGigabytesLost` gives the first amount that is lost).
- A pool too small for one element takes the whole key set in one batch (`KvPool.BatchWithinCapacity`).
- DAX windows overlap exactly when slots agree modulo the number of slots in the address space
  (`DaxLayout.WindowsMeet`; `DaxLayout.OverflowAliases` is an instance with the strides that the code computes).
- The get experiment stops before it reads the last key (`KvExperiments.ExperimentGet.Run`).
- Equal bin thresholds are accepted and give bins of no width (`Statistics.MakeBins`).
- The device count that the source describes as per NUMA node is kept per core; the maximum is the same
  (`DaxLayout.DevDaxMaxCountPerNode`).

## Model

| member | source | states |
|---|---|---|
| Crc32c.StepNLinear | src/lib/common/crc32.cc:127-157 | any number of shifts of the register is linear over GF(2) |
| Crc32c.InstructionIsProduct | src/lib/common/crc32.cc:127-141 | the `crc32` instruction on a 64-bit word, defined bit by bit, is one polynomial product: xor the word in, shift 64 times |
| Crc32c.InstructionIsSerial | src/lib/common/crc32.cc:127-141 | one instruction on a little-endian load is the bit-serial CRC of the eight bytes in memory order |
| Crc32c.CrcLinear | src/lib/common/crc32.cc:127-157 | for every message, a difference in the initial value reaches the result as through that many zero bytes |
| Crc32c.CrcAppend | testing/os/crc-hw/main.cc:208-216 | the CRC of a concatenation is the CRC of the second part from the CRC of the first |
| Crc32c.ThreeLanes | src/lib/common/crc32.cc:127-157 | for lanes of any three lengths, lanes started at zero and advanced past what follows them add up to the CRC of the whole |
| CrcTables.Square | src/lib/common/crc32.cc:36-124 | squaring x^n in the register ring gives x^(2n) |
| CrcTables.Power2712 | src/lib/common/crc32.cc:36-79 | entry 0x80 of the first table is x^(8*339) |
| CrcTables.Power5400 | src/lib/common/crc32.cc:81-124 | entry 0x80 of the second table is x^(8*675) |
| CrcTables.GeneratedMultiplies | src/lib/common/crc32.cc:36-124 | a table that is linear in the byte, halves its index by multiplying with x and has the right entry 0x80 is multiplication by that power of x on all 256 bytes |
| CrcTables.Table336Multiplies | src/lib/common/crc32.cc:36-79 | the first table as listed multiplies every byte by x^(8*336) |
| CrcTables.Table672Multiplies | src/lib/common/crc32.cc:81-124 | the second table as listed multiplies every byte by x^(8*672) |
| Crc1024.MergeAdvances | src/lib/common/crc32.cc:143-156 | xoring four table words into the last word advances a lane's CRC by the table's power of x, for any table and lane |
| Crc1024.LanesMerge | src/lib/common/crc32.cc:127-157 | the interleaved computation equals the bit-serial CRC for every lane length and any tables that multiply by the matching powers |
| Crc1024.Crc1024C | src/lib/common/crc32.cc:127-157 | for every 1024 bytes and every initial value, the three-lane loop and merge return the bit-serial CRC32C of the bytes in order |
| Crc1024.CrcSegments | testing/os/crc-hw/main.cc:208-216 | chaining over any number of 1024-byte segments is the CRC of all of them |
| MersenneTwister.TemperBijective | src/lib/common/rand.cc:106-113 | tempering is a bijection on 64-bit words, with an explicit inverse |
| TwisterWords.TemperLinear | src/lib/common/rand.cc:106-113 | tempering is linear over GF(2), so that its values at the words of one bit say what it is |
| TwisterWords.TemperBits0 | src/lib/common/rand.cc:106-113 | these values, for bits 0 to 7 |
| TwisterWords.TemperBits8 | src/lib/common/rand.cc:106-113 | these values, for bits 8 to 15 |
| TwisterWords.TemperBits16 | src/lib/common/rand.cc:106-113 | these values, for bits 16 to 23 |
| TwisterWords.TemperBits24 | src/lib/common/rand.cc:106-113 | these values, for bits 24 to 31 |
| TwisterWords.TemperBits32 | src/lib/common/rand.cc:106-113 | these values, for bits 32 to 39 |
| TwisterWords.TemperBits40 | src/lib/common/rand.cc:106-113 | these values, for bits 40 to 47 |
| TwisterWords.TemperBits48 | src/lib/common/rand.cc:106-113 | these values, for bits 48 to 55 |
| TwisterWords.TemperBits56 | src/lib/common/rand.cc:106-113 | these values, for bits 56 to 63 |
| TwisterWords.MixBits | src/lib/common/rand.cc:92-101 | the mixed word has the upper 33 bits of one word and the lower 31 of its neighbour |
| TwisterWords.TwistBits | src/lib/common/rand.cc:92-101 | the twist halves a word and adds the constant of the matrix for the bit lost |
| TwisterWords.MixingValues | src/lib/common/rand.cc:37-78 | values of the three steps that mix seeds, keys and places |
| MersenneTwister.DegenerateStep | src/lib/common/rand.cc:86-104 | a window of words that carries no bit the recurrence reads arises only from such a window, and leads only to one |
| MersenneTwister.NeverDecays | src/lib/common/rand.cc:86-104 | a sequence is degenerate anywhere exactly when it is at its start |
| MersenneTwister.SeedNotDegenerate | src/lib/common/rand.cc:37-42 | no seed whatever starts a degenerate sequence |
| MersenneTwister.Twister.InitGenrand64 | src/lib/common/rand.cc:37-42 | the array holds the seeding recurrence, and nothing has been drawn |
| MersenneTwister.Twister.InitByArray64 | src/lib/common/rand.cc:47-78 | for any keys, the array holds the two mixing passes over the fixed seed's block (`TwisterWords.KeyBlockWords` says which words), and the sequence it starts never decays to zero |
| TwisterWords.KeyBlockWords | src/lib/common/rand.cc:47-78 | for any keys, the block seeded is what one recurrence over single words writes last at each place: from the word written 311 times before and the word just before, with the keys in turn 312 times or once for each, then with the places 311 times, over the block of seed 19650218; word 0 is the top bit |
| MersenneTwister.Twister.Refill | src/lib/common/rand.cc:86-104 | overwriting the array in place, reading words of both generations, leaves the next 312 words of the sequence |
| MersenneTwister.Twister.Genrand64Int64 | src/lib/common/rand.cc:81-114 | each call returns the tempered next word of the sequence from word 312 on, seeding with 5489 if nobody did |
| MersenneTwister.Draw | src/lib/common/rand.cc:37-114 | for every seed and count, the n-th draw is the tempered word 312 + n of the recurrence, across any number of refills |
| TwisterWords.FirstNumber | src/lib/common/rand.cc:81-114 | without a seed, the first number drawn is 14514284786278117030 |
| PageCalc.RemainingMem | deps/dpdk-extras/dpdk-patches-17.08/eal_memory.c:971-974 | the loop computes the capacity of the later page sizes |
| PageCalc.TakeSize | deps/dpdk-extras/dpdk-patches-17.08/eal_memory.c:945-986 | one page size: the whole pages the memory takes, as far as there are any, and one more exactly when the later sizes cannot cover the rest; it overshoots by less than one page and only when done, and keeps whether the rest can be met |
| PageCalc.PagesForIs | deps/dpdk-extras/dpdk-patches-17.08/eal_memory.c:947-984 | the pages of a size are as many as fit into the amount, if there are as many, and the later sizes cover the rest; or one more, because they cannot |
| PageCalc.AllocateSocket | deps/dpdk-extras/dpdk-patches-17.08/eal_memory.c:943-998 | a socket is served exactly when its request is within its capacity, for any order of page sizes, each size taking what those before it left, with less than one page too much |
| PageCalc.GreedyUnique | deps/dpdk-extras/dpdk-patches-17.08/eal_memory.c:943-998 | the pages of each size follow from the request of a socket |
| PageCalc.GetSocketMemSize | deps/dpdk-extras/dpdk-patches-17.08/eal_memory.c:861-874 | the memory in the pages of mounted sizes |
| PageCalc.MountedIsCapacity | deps/dpdk-extras/dpdk-patches-17.08/eal_memory.c:861-874 | mounted memory is the memory there would be if the sizes that are not mounted had no pages |
| PageCalc.MountedAllOrNone | deps/dpdk-extras/dpdk-patches-17.08/eal_memory.c:861-874 | with every size mounted it is all the memory of the socket, with none it is nothing |
| PageCalc.ShareIsProportional | deps/dpdk-extras/dpdk-patches-17.08/eal_memory.c:916-918 | a share by cores is the greatest amount that is in proportion |
| PageCalc.SpreadByCores | deps/dpdk-extras/dpdk-patches-17.08/eal_memory.c:913-926 | the first pass gives each socket its share by cores or all it has, whichever is less, also where it stops early, and what it has not given is what is left |
| PageCalc.SpreadMemory | deps/dpdk-extras/dpdk-patches-17.08/eal_memory.c:898-941 | the automatic split conserves the total, gives each socket at least its share by cores and at most what it has, never underflows, exceeds a share only when the sockets before are full, and leaves a rest only when all are |
| PageCalc.SpreadFits | deps/dpdk-extras/dpdk-patches-17.08/eal_memory.c:898-941 | memory is left over exactly when the total exceeds all mounted memory |
| PageCalc.TotalFits | deps/dpdk-extras/dpdk-patches-17.08/eal_memory.c:898-941 | with every size mounted a total fits exactly when all sockets together can hold it, with none exactly when it is 0 |
| PageCalc.SpreadUnique | deps/dpdk-extras/dpdk-patches-17.08/eal_memory.c:898-941 | the automatic split leaves no choice: one request splits the total this way |
| PageCalc.AllocateAll | deps/dpdk-extras/dpdk-patches-17.08/eal_memory.c:943-1009 | the socket loop succeeds exactly when nothing was left over and every socket's request is within its capacity, though it stops as soon as the total is used up |
| PageCalc.CalcNumPagesPerSocket | deps/dpdk-extras/dpdk-patches-17.08/eal_memory.c:882-1010 | succeeds exactly when the request fits, per socket or in total, which with every size mounted is when all sockets together can hold the total; then the amounts asked of the sockets are the given ones or the automatic split, pages used are within pages available, each socket gets at least its request and less than a page over, from the sizes in order, and the result is the number of pages used |
| HugepageTable.CountPartition | deps/dpdk-extras/dpdk-patches-17.08/eal_memory.c:1231-1249 | the counts per size and socket add up to the table |
| HugepageTable.Recount | deps/dpdk-extras/dpdk-patches-17.08/eal_memory.c:1231-1249 | the recount is the number of pages of each size on each socket |
| HugepageTable.TotalPages | deps/dpdk-extras/dpdk-patches-17.08/eal_memory.c:816-819 | the total recomputed from the counts is the table size |
| HugepageTable.UnmapClass | deps/dpdk-extras/dpdk-patches-17.08/eal_memory.c:821-856 | of one size and socket, the first pages in table order keep their address, the others lose it, and no other page changes |
| HugepageTable.UnmapUnneeded | deps/dpdk-extras/dpdk-patches-17.08/eal_memory.c:808-859 | exactly the pages beyond the count of their size and socket are unmapped; it fails exactly when the file of one of them cannot be unlinked |
| HugepageTable.SurvivorCounts | deps/dpdk-extras/dpdk-patches-17.08/eal_memory.c:808-859 | after unmapping, exactly the calculated number of pages of each size and socket is active, and they add up to the calculation's result |
| HugepageTable.CopyToShared | deps/dpdk-extras/dpdk-patches-17.08/eal_memory.c:762-778 | the destination is the order-preserving filter of the active pages followed by cleared entries; it fails exactly on overflow |
| Memseg.SegIdMonotone | deps/dpdk-extras/dpdk-patches-17.08/eal_memory.c:1321-1375 | segment numbers never decrease and rise by at most one per page |
| Memseg.RunsAreSegments | deps/dpdk-extras/dpdk-patches-17.08/eal_memory.c:1321-1386 | the runs counted are the segments that pages belong to |
| Memseg.FillMemsegs | deps/dpdk-extras/dpdk-patches-17.08/eal_memory.c:1321-1386 | fails exactly when there are more runs than slots; otherwise each segment has the length of its pages and each page lies at the offset of its predecessors, virtually and physically |
| Memseg.SegmentsAreMaximalRuns | deps/dpdk-extras/dpdk-patches-17.08/eal_memory.c:1321-1375 | two pages share a segment exactly when all pages between them continue each other |
| Memseg.SegmentTranslation | deps/dpdk-extras/dpdk-patches-17.08/eal_memory.c:1353-1375 | physical minus virtual address is the same for all pages of a segment |
| Memseg.SegLength | deps/dpdk-extras/dpdk-patches-17.08/eal_memory.c:1321-1375 | a segment has a length exactly when its pages are active: cleared entries form a segment of length zero |
| Memseg.WalkComplete | deps/dpdk-extras/dpdk-patches-17.08/eal_memory.c:1522-1523 | where the walk over segments stops, no active page is left |
| Memseg.Attach | deps/dpdk-extras/dpdk-patches-17.08/eal_memory.c:1522-1562 | attach succeeds exactly when the kernel honours the primary's address of every active page, and then maps each of them there and nothing else |
| HugepageInit.SelectPages | deps/dpdk-extras/dpdk-patches-17.08/eal_memory.c:1231-1308 | recount, calculation, unmapping and copying keep the pages that serve the request, as many as the calculation returned, and fail only for a request that does not fit or a failing unlink |
| HugepageInit.SelectedCompacted | deps/dpdk-extras/dpdk-patches-17.08/eal_memory.c:1289-1308 | the shared table is active pages of the original table followed by cleared entries |
| HugepageInit.SelectionUnique | deps/dpdk-extras/dpdk-patches-17.08/eal_memory.c:1231-1308 | table and request leave no choice: the limits, the shared table and its page count that serve a request are the only ones |
| HugepageInit.InitPrimary | deps/dpdk-extras/dpdk-patches-17.08/eal_memory.c:1231-1390 | the primary process leaves a shared table of the selected pages with their segment numbers and segments that describe them; with unlinking granted and a request that fits, it fails exactly when the runs of the selection that serves the request exceed the segment slots |
| HugepageInit.InitThenAttach | deps/dpdk-extras/dpdk-patches-17.08/eal_memory.c:1231-1562 | whenever the primary succeeds, a secondary maps every kept page at the address the primary has it at, exactly when its kernel honours those addresses; with unlinking granted and a request that fits, the primary fails exactly when the runs of the selection that serves the request exceed the segment slots |
| Remap.AlignsUp | deps/dpdk-extras/dpdk-patches-17.08/eal_memory.c:365-369 | adding and masking rounds an address up to a page boundary, for every power-of-two page size |
| Remap.GetVirtualArea | deps/dpdk-extras/dpdk-patches-17.08/eal_memory.c:322-378 | the longest area of whole pages that is granted with one page of slack, at the first page boundary of the granted area, which it lies inside; NULL exactly when no length is granted |
| Remap.RunEnd | deps/dpdk-extras/dpdk-patches-17.08/eal_memory.c:506-522 | the maximal physically contiguous run from a page |
| Remap.Reserve | deps/dpdk-extras/dpdk-patches-17.08/eal_memory.c:503-531 | the area is the longest stretch of the physical run that the kernel grants room for, at the first page boundary of the granted area, or one page at no address exactly when none is granted; it ends in the address space; when reservations up to the table size are granted, it covers the whole physical run |
| Remap.GenerousKernel | deps/dpdk-extras/dpdk-patches-17.08/eal_memory.c:322-378 | for every limit below the address space there is a kernel that answers sanely, grants every reservation up to the limit and honours every hint in the address space |
| Remap.RemapHugepages | deps/dpdk-extras/dpdk-patches-17.08/eal_memory.c:449-597 | for every sequence of grants the reserved areas tile the pages without gap, overlap or underflow, each area is the one its grants call for, each page is asked for at its place in its area, and mapping stops only at a page that cannot be placed or locked; when reservations up to the table size and one page are granted and hints honoured, physically adjacent pages become virtually adjacent |
| Remap.AreasUnique | deps/dpdk-extras/dpdk-patches-17.08/eal_memory.c:449-597 | the same grants give the same areas |
| Remap.LayoutUnique | deps/dpdk-extras/dpdk-patches-17.08/eal_memory.c:449-597 | the answers of the kernel leave no choice: a complete remap has one result |
| HugepageInit.RemapSize | deps/dpdk-extras/dpdk-patches-17.08/eal_memory.c:1207-1213 | one size is remapped completely, to the addresses that the answers of the kernel call for, or the step fails, and then only if the kernel refused a page; with a generous kernel, pages adjacent physically on one socket lie in one segment |
| HugepageInit.RemapReady | deps/dpdk-extras/dpdk-patches-17.08/eal_memory.c:1147-1221 | a table joined from completely remapped parts has every page mapped, in the address space, of a known size on a known socket |
| HugepageInit.RemapSizes | deps/dpdk-extras/dpdk-patches-17.08/eal_memory.c:1147-1221 | when the loop over the page sizes succeeds, every part has the addresses that the answers of the kernel call for, and the whole table is as the selection of pages requires it; it succeeds if the kernel places and locks every page |
| HugepageInit.RemapsUnique | deps/dpdk-extras/dpdk-patches-17.08/eal_memory.c:1147-1221 | the parts remapped by the same answers are the same |
| HugepageInit.JoinTables | deps/dpdk-extras/dpdk-patches-17.08/eal_memory.c:1147-1221 | the table of all sizes is the parts of the sizes, one after the other |
| HugepageInit.RemapInitAttach | deps/dpdk-extras/dpdk-patches-17.08/eal_memory.c:1147-1562 | from the answers of the kernel to the attached secondary process: on success every part has the addresses that the answers call for, the selection serves the request, the segments describe it, and the secondary has exactly the selected pages at the addresses of the primary or its kernel refused one of them; with a kernel that places, locks and unlinks every page, the primary succeeds exactly when the request fits these parts and the runs of the selection that serves it do not exceed the segment slots |
| NumaSteering.MaxNode | deps/dpdk-extras/dpdk-patches-17.08/eal_memory.c:443-445 | one past the last node with requested memory |
| NumaSteering.NextRequested | deps/dpdk-extras/dpdk-patches-17.08/eal_memory.c:461-465 | the cyclic search terminates at the nearest requested node, without coming around |
| NumaSteering.PickNode | deps/dpdk-extras/dpdk-patches-17.08/eal_memory.c:453-481 | the first node still owed memory, charged for one page, and round robin over requested nodes exactly when none is owed any |
| NumaSteering.AccountSettled | deps/dpdk-extras/dpdk-patches-17.08/eal_memory.c:467-475 | a node paid in full has got exactly its amount rounded up to pages |
| NumaSteering.MapOriginal | deps/dpdk-extras/dpdk-patches-17.08/eal_memory.c:420-597 | in every run each page goes to a requested node, none round robin while any node is owed memory, a round-robin page to the requested node after the last one chosen, and the amounts owed follow from the choices; mapping stops at the first page that cannot be opened, mapped, touched or locked, in this order, and a SIGBUS takes back the last choice up to the saved copy |
| NumaSteering.StaysRound | deps/dpdk-extras/dpdk-patches-17.08/eal_memory.c:453-481 | once a page was placed round robin, every later one of the pass is |
| NumaSteering.RoundRobinFair | deps/dpdk-extras/dpdk-patches-17.08/eal_memory.c:453-481 | in every pass, the pages that any two requested nodes get round robin differ by at most one |
| NumaSteering.SavedExactly | deps/dpdk-extras/dpdk-patches-17.08/eal_memory.c:422-469 | an amount survives the 32-bit signed copy exactly below 2^31, or at 2^64 - 2^31 and above |
| NumaSteering.TwoGigabytesLost | deps/dpdk-extras/dpdk-patches-17.08/eal_memory.c:574-578 | two gigabytes come back as 2^64 - 2^31 |
| NumaSteering.SigbusRestores | deps/dpdk-extras/dpdk-patches-17.08/eal_memory.c:574-578 | a SIGBUS exit restores what was owed exactly when the node's amount survives the copy |
| DaxLayout.RoundUpToPow2 | testing/kvstore/experiment.cpp:75-85 | terminates on every 64-bit word; the least power of two at least n up to 2^63, and 0 for 0 and above |
| Bits.LowBitGrows | testing/kvstore/experiment.cpp:75-85 | adding the lowest set bit makes the lowest set bit grow, which ends the loop |
| Bits.NoPow2Between | testing/kvstore/experiment.cpp:75-85 | no power of two is skipped by a step of the loop |
| DaxLayout.DevDaxMaxSize | testing/kvstore/experiment.cpp:558-569 | the largest device size |
| DaxLayout.DevDaxMaxCountPerNode | testing/kvstore/experiment.cpp:571-592 | one more than the largest device index, as a 32-bit word |
| DaxLayout.Strides | testing/kvstore/experiment.cpp:333-334 | both strides are the rounded maxima; a stride covers every device, and a node stride every index |
| DaxLayout.AddressesFromBase | testing/kvstore/experiment.cpp:326-339 | device 0.0 starts at 0x7000000000, and an address that does not overflow is that base plus the strides |
| DaxLayout.WindowsMeet | testing/kvstore/experiment.cpp:333-339 | two windows on the 64-bit circle have a common address exactly when the slots of their devices agree modulo the slots of the address space |
| DaxLayout.DistinctDevicesApart | testing/kvstore/experiment.cpp:333-339 | distinct devices within the address space get disjoint windows |
| DaxLayout.OverflowAliases | testing/kvstore/experiment.cpp:333-339 | with the strides that the code computes for a map of two devices, whose slots do not fit the address space, their windows share an address |
| DaxLayout.AssignAddresses | testing/kvstore/experiment.cpp:326-339 | the addresses given to the devices of a map follow the layout, and barring address overflow no two distinct devices overlap |
| KvPool.BatchWithinCapacity | testing/kvstore/experiment.cpp:1132-1241 | a batch of distinct keys is within the pool's capacity exactly when one element fits or nothing is left to store; it stores something if anything is left, and stops only at the capacity or the last object |
| KvPool.Pool.MaximumFits | testing/kvstore/experiment.cpp:1132-1241 | the capacity is the greatest number of elements whose size is within that of the pool |
| KvPool.Pool.PopulatePoolToCapacity | testing/kvstore/experiment.cpp:1132-1241 | stores exactly the next batch of keys, up to the capacity or the last object; after a failing put, the keys before it, with the end unchanged |
| KvPool.Pool.ErasePoolEntriesInRange | testing/kvstore/experiment.cpp:1314-1340 | every erase hits, in order; exactly the range is gone |
| KvExperiments.ExperimentGet.WithinCapacity | testing/kvstore/exp_get.h:34-116 | in every reachable state after the first step, the stored keys are within capacity exactly when the pool holds at least one element |
| KvExperiments.ExperimentGet.DoWork | testing/kvstore/exp_get.h:34-116 | each step keeps: the stored keys are the indices from start to end, the next read is among them; it reads that key from the store; reads and erases never miss, only a failing put throws |
| KvExperiments.ExperimentGet.Run | testing/kvstore/exp_get.h:34-116 | in a whole run the store finds every key but the last, in order, and the last batch stays stored, within its bounds |
| KvExperiments.ExperimentErase.WithinCapacity | testing/kvstore/exp_erase.cpp:25-111 | the stored keys are within the capacity exactly when one element fits or every key is erased |
| KvExperiments.ExperimentErase.DoWork | testing/kvstore/exp_erase.cpp:25-111 | each step keeps: the stored keys are the indices from the next erase to the end of the batch; every erase hits |
| KvExperiments.ExperimentErase.Run | testing/kvstore/exp_erase.cpp:25-111 | in a whole run the store erases every key, in order, for any number of objects, and is left empty |
| KvThroughput.Find | testing/kvstore/exp_throughput.cpp:101-105 | the first set entry of the mirror from a position on, or its length |
| KvThroughput.StepCounts | testing/kvstore/exp_throughput.cpp:94-178 | every step counts at most one operation, of the kind drawn, and as many keys stored, found and erased as the store sees, and keeps keys stored + erases - inserts |
| KvThroughput.RunCounts | testing/kvstore/exp_throughput.cpp:94-178 | the same over every run: inserts + updates + erases are the steps that do not read |
| KvThroughput.WritesInTurn | testing/kvstore/exp_throughput.cpp:162-177 | in every run the write cursor counts the writes, modulo the number of keys, and without inserts and erases the n-th write stores the key n places after the first |
| KvThroughput.ReadsInTurn | testing/kvstore/exp_throughput.cpp:99-124 | a run of reads over the first batch finds its keys in turn, and the read cursor counts them modulo its size |
| KvThroughput.FlipTwice | testing/kvstore/exp_throughput.cpp:125-161 | a second insert or erase at a position undoes the first, with one put and one erase of its key |
| KvThroughput.ExperimentThroughput.Setup | testing/kvstore/exp_throughput.cpp:67-92 | the first batch, from the first key to the capacity or the last object, is stored and marked with one put for each key, and the mirror agrees with the store |
| KvThroughput.ExperimentThroughput.Read | testing/kvstore/exp_throughput.cpp:99-124 | reads the cyclically next stored key from the cursor, leaves the cursor one past it, never misses, and counts a read exactly when a key is stored |
| KvThroughput.ExperimentThroughput.InsertErase | testing/kvstore/exp_throughput.cpp:125-161 | flips the entry of the first batch at the drawn position in mirror and store alike, and counts the matching operation |
| KvThroughput.ExperimentThroughput.Write | testing/kvstore/exp_throughput.cpp:162-177 | stores the key at the write cursor, an update exactly when it was already stored, and moves the cursor on |
| KvThroughput.ExperimentThroughput.Operate | testing/kvstore/exp_throughput.cpp:94-178 | the drawn percentage decides between read, insert or erase, and write; mirror and store stay equal |
| KvThroughput.ExperimentThroughput.DoWork | testing/kvstore/exp_throughput.cpp:67-248 | each step of a continuous or timed run does the operation drawn at its cursor or position, moves just that cursor, around the batch or the keys, keeps mirror and store equal, keeps: keys stored + erases = first batch + inserts, and counts exactly the puts, reads and erases that the store sees |
| KvThroughput.ExperimentThroughput.Run | testing/kvstore/exp_throughput.cpp:67-248 | every run, for every sequence of random choices, is a sequence of such steps; at its end mirror and store agree, keys stored + erases = first batch + inserts, inserts + updates + erases are the steps that do not read, puts are the first batch + inserts + updates, keys found are the reads and keys erased the erases, the write cursor has counted the writes modulo the keys, and without inserts and erases the keys were stored in turn; a run goes on exactly as long as it is told to and no put fails |
| Statistics.Welford | testing/kvstore/statistics.h:84-110 | from the mean and squared deviations of any values, one update gives those of the values with one more |
| Statistics.RunningStatistics.AddValue | testing/kvstore/statistics.h:32-110 | after any values, mean times count is their sum, the variance field is the sum of squared deviations from the mean, and minimum and maximum are attained |
| Statistics.BinHoldsValue | testing/kvstore/statistics.h:193-208 | the bin found is the one whose interval holds the value; the outermost bins are open outwards |
| Statistics.EveryUpdateRouted | testing/kvstore/statistics.h:155-167 | the values in the bins are as many as the updates |
| Statistics.BinStatistics.UpdateValueForBin | testing/kvstore/statistics.h:162-167 | each bin holds the statistics of exactly the values routed to it, in order |
| Statistics.BinStatistics.Update | testing/kvstore/statistics.h:155-160 | the same when a value selects its own bin |
| Statistics.BinStatistics.CountsAddUp | testing/kvstore/statistics.h:155-167 | after any updates, the counts of the bins add up to the number of updates |
| Statistics.MakeBins | testing/kvstore/statistics.h:130-151 | an error exactly for no bins or minimum above maximum; otherwise empty bins of equal width that tile the interval |
| RangeList.RoundTrip | testing/kvstore/get_vector_from_string.h:15-67 | any non-empty list of plain or dotted indices, printed with commas, parses back to itself |
| RangeList.ReadPrintedItem | testing/kvstore/dotted_pair.h:24-47 | a printed element reads back as itself, whatever separator follows |
| RangeList.PlainInDotted | testing/kvstore/dotted_pair.h:24-40 | in a dotted list a number without a dot is in node 0 |
| RangeList.DotInPlain | testing/kvstore/get_vector_from_string.h:15-67 | in a plain list a dot is refused |
| RangeList.SpacesSkipped | testing/kvstore/get_vector_from_string.h:18 | white space in front of a number is skipped |
| RangeList.SignsRead | testing/kvstore/get_vector_from_string.h:18 | a minus sign counts down from 2^32, a plus sign changes nothing |
| RangeList.NumbersRefused | testing/kvstore/get_vector_from_string.h:18-19 | numbers of 2^32 and more, and text without a number, are refused |
| RangeList.ListsRefused | testing/kvstore/get_vector_from_string.h:51-65 | a list with anything but a comma after an element, or ending in a comma, is refused |
| RangeList.PrintedForms | testing/kvstore/get_vector_from_string.h:15-42 | what a printed element, list, range and length look like |
| RangeList.ParseRange | testing/kvstore/get_vector_from_string.h:20-27 | an inclusive range counts up with wrap-around for every pair of ends in one node, and is refused across nodes |
| RangeList.ParseLength | testing/kvstore/get_vector_from_string.h:28-36 | a length gives that many indices |
| RangeList.RangesAgree | testing/kvstore/get_vector_from_string.h:15-67 | range, length and enumerated list parse to the same indices exactly unless they are all 2^32 of a node |
| RangeList.Stream.GetItem | testing/kvstore/dotted_pair.h:24-40 | consumes exactly one element of the text, with the node 0 when there is no dot |
| RangeList.Stream.GetInterval | testing/kvstore/get_vector_from_string.h:15-42 | consumes exactly one interval |
| RangeList.Push | testing/kvstore/get_vector_from_string.h:54-57 | the expansion loop terminates for every two ends in one node, with the indices between them in order |
| RangeList.GetVectorFromString | testing/kvstore/get_vector_from_string.h:45-67 | the stream loop computes the list that the grammar gives, and errors exactly when it gives none |
| Brackets.FindEndOfExpressionInLine | apps/caffe/scripts/cpp_lint.py:1234-1255 | one line of the forward scan: the position past the close, or the depth at the end of the line |
| Brackets.FindStartOfExpressionInLine | apps/caffe/scripts/cpp_lint.py:1304-1328 | one line of the backward scan |
| Brackets.ForwardConcat | apps/caffe/scripts/cpp_lint.py:1285-1298 | scanning texts in turn is one scan of their concatenation |
| Brackets.BackwardConcat | apps/caffe/scripts/cpp_lint.py:1357-1370 | the same backward |
| Brackets.ForwardMatches | apps/caffe/scripts/cpp_lint.py:1234-1301 | the scan stops at the bracket that balances the first one with no earlier balance, and at none exactly when there is none |
| Brackets.BackwardMatches | apps/caffe/scripts/cpp_lint.py:1304-1373 | the same for the scan from a closing bracket |
| Brackets.MatchUnique | apps/caffe/scripts/cpp_lint.py:1234-1373 | a bracket is closed by at most one and closes at most one |
| Brackets.CloseExpression | apps/caffe/scripts/cpp_lint.py:1258-1301 | over any number of lines, the line and position past the matching bracket of the whole text; otherwise the answer that says there is none |
| Brackets.ReverseCloseExpression | apps/caffe/scripts/cpp_lint.py:1331-1373 | over any number of lines, the line and position of the matching opening bracket |
| Brackets.CloseThenOpen | apps/caffe/scripts/cpp_lint.py:1258-1373 | searching back from a close that was found returns the line and position of the start |
| Brackets.OpenThenClose | apps/caffe/scripts/cpp_lint.py:1258-1373 | searching forward from an opening that was found returns just past the start |
| Brackets.PairsClose | apps/caffe/scripts/cpp_lint.py:1258-1373 | for round, square, curly and angle brackets, in a text of any lines: with neither bracket of the kind between them, the forward search from the opening ends just past the closing one, and the backward search from there at the opening |
| Brackets.OneLine | apps/caffe/scripts/cpp_lint.py:1258-1301 | the same for one line of brackets around any text without them |
| Brackets.OthersDoNot | apps/caffe/scripts/cpp_lint.py:1279-1283 | a search from any other character finds nothing |
| Nesting.NestingState.UpdatePreprocessor | apps/caffe/scripts/cpp_lint.py:1952-2006 | checkpoints at `#if`, put aside and restored at `#else` and `#elif`, brought back at `#endif`; unpaired directives change nothing |
| Nesting.NestingState.Update | apps/caffe/scripts/cpp_lint.py:2008-2162 | one line: directive, parentheses and assembly, namespaces, class, access, then braces, semicolons and parentheses in order |
| Nesting.NestingState.Process | apps/caffe/scripts/cpp_lint.py:4679-4682 | the lines of a file in turn; from an empty state, outside dead branches, the object's stack is that of the text without them |
| Nesting.RunHolds | apps/caffe/scripts/cpp_lint.py:1952-2006 | at every point of every run, the stack of the text without dead branches is the current one, or the one put aside by the outermost conditional in a dead branch |
| Nesting.DeadBranchesDeleted | apps/caffe/scripts/cpp_lint.py:1952-2162 | for every line stream, at every point outside dead branches, the stack is that of the text with everything from each first `#else` or `#elif` up to its `#endif` deleted |
| Nesting.SourceReadsFirstBranches | apps/caffe/scripts/cpp_lint.py:1952-2162 | a file with conditionals nested to any depth is read as its first branches, and leaves no conditional open |
| Nesting.OtherBranchStartsOver | apps/caffe/scripts/cpp_lint.py:1976-1988 | every further branch is read with the stack from before its `#if`, whatever the branches before it hold |
| Nesting.BalancedRestores | apps/caffe/scripts/cpp_lint.py:2128-2162 | balanced braces and statements inside an open block leave the stack as it was |
| Nesting.DeclarationRestores | apps/caffe/scripts/cpp_lint.py:2135-2161 | a namespace or class head is gone after its body, and after the semicolon or parenthesis of a mere mention |
| Nesting.NamespacesOpen | apps/caffe/scripts/cpp_lint.py:2049-2066 | a line of namespaces with their braces and balanced code opens them by name and in order, and as many closing braces restore the stack |
| Nesting.NamespaceTakesBrace | apps/caffe/scripts/cpp_lint.py:2049-2143 | a namespace without its brace takes the next brace for its own |
| Nesting.ClassOpens | apps/caffe/scripts/cpp_lint.py:2086-2143 | a class or struct outside parentheses opens with its brace, private or public unless the line says otherwise, and derived with a colon |
| Nesting.ClassAmongParameters | apps/caffe/scripts/cpp_lint.py:2086-2096 | inside parentheses a class is not noticed |
| Nesting.AccessChanges | apps/caffe/scripts/cpp_lint.py:2103-2111 | an access specifier changes the access of the innermost class and nothing else |
| Nesting.BraceOpens | apps/caffe/scripts/cpp_lint.py:2135-2145 | any other brace opens a plain block, marked when it is one of assembly |
| Nesting.ParenthesesAdd | apps/caffe/scripts/cpp_lint.py:2022-2027 | over any lines without assembly, the parentheses of the innermost block add up |
| Nesting.AsmStarts | apps/caffe/scripts/cpp_lint.py:2029-2039 | inline assembly starts exactly with a line that says so, changes the open parentheses and leaves one |
| Nesting.AsmStatement | apps/caffe/scripts/cpp_lint.py:2029-2043 | it goes on over any lines while parentheses are open, its last line is the one that closes them, and it is over with the next |

## Left out

- PageCalc.CalcNumPagesPerSocket: amounts are unbounded numbers, so 64-bit overflow of sizes is not modelled; the directory copied along with a page size is not a number and is left out; in forced mode the total is taken to be the sum of the amounts, as option parsing sets it.
- Memseg.FillMemsegs: segment lengths are unbounded sums; addresses do wrap.
- Memseg.Attach: the reservation of the segments over /dev/zero before the walk, the unmapping before each segment and the clean-up on error are not modelled.
- Remap.GetVirtualArea: the hint of a configured base address and its running offset are not modelled; the kernel may answer any address.
- HugepageInit.RemapSizes: the parts of the table for the page sizes are separate arrays, joined afterwards by copying; finding physical addresses and sockets and sorting the pages come before and are not modelled.
- Remap.RemapHugepages: physical addresses do not wrap.
- Statistics.RunningStatistics.AddValue: exact reals in place of floating point, and no wrap of the 32-bit count.
- Statistics.BinHoldsValue: the conversion of a quotient beyond the `int` range, which is undefined in the source, is a plain truncation here.
- KvPool.Pool.PopulatePoolToCapacity: keys are given and distinct where a run needs it; the source draws them at random. The size of an element on disk is an input.
- KvThroughput.ExperimentThroughput.DoWork: only continuous and timed runs; in the others the read cursor is not reduced and can leave the mirror.
- DaxLayout.DevDaxMaxSize: device sizes are inputs; the source reads them from the system.
- RangeList.Stream.GetUnsigned: extraction of an unsigned number follows the standard library's rules as a function.
- Nesting.NestingState.Update: a line comes as the parts that the regular expressions match; the expressions themselves and the style messages are not modelled.
- PowerPC, 32-bit and Xen branches, signal handlers, file locks, /proc and real memory mapping: the kernel appears as functions that grant or refuse.
- The older copies of eal_memory.c: the same algorithms once more.
- `_enforce_maximum_pool_size`, the insert-erase experiment, latency measurement, reports and the histogram printer of the key-value tests.
- The other checks of cpp_lint.py, the component interfaces, and the Caffe, CUDA, Dawn, REST and plotting code: they would only add easy members or have no sharp specification.
