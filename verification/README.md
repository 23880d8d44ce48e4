# Verified models of the algorithms

Dafny models of the programs of this repository that hold an algorithm of their own, with proofs of
what they promise. `dafny verify dfyconfig.toml` checks everything.

- **CRC-32C** (`Crc32cSpec`, `Crc32cMatrix`, `Crc32cHw`, `Crc32cSw` over `Bits`, `Words64`,
  `Slicing`). `Crc32cSpec` is the reflected shift register with polynomial 0x82f63b78, one bit at a
  time: the CRC-32C of section 12.1 of RFC 3720. The three-lane form over the crc32 instruction,
  with its GF(2) matrix operators and zeros tables, the little-endian slicing-by-eight form and the
  big-endian form on swapped words are methods in the source's own loops; each is proved to return
  that register's CRC for every start value, buffer and address, from table construction to the last
  trailing byte. So all three are one function, and it composes over chunks.
- **Three caches** (`LruSpec`, `LruTheory`, `LruBuffers`, `LruLedger`, `LruHistory`, `LruTextbook`,
  `FlatLru`, `FlatCache`, `GenericLru`, `LruAgreement`, `LfuSpec`, `LfuOrder`, `LfuList`,
  `GenericLfu`, `LfuHistory`, `LfuRuns`). Each is a class whose methods are proved against a step of
  a small specification, results included, and then run on every sequence of operations. For
  `flat_lru` the specification is a recency list with tombstones: its `invalidate` leaves a gap in
  the ages, and a later miss can push the oldest live entry to the age that means "not live"
  although there is room; the buffer of that entry stays behind and may be handed back by a later
  update. `LruTextbook` proves for one step when live entries and answer are those of a textbook
  cache, and for runs from an empty cache that they are throughout exactly when no step loses the
  oldest entry; it gives the runs on which the entries and, later, the answer differ. `LruLedger`
  accounts for every buffer of a run: it is handed back, freed by an invalidation of its key, or
  held, and just one of these. Without invalidation `flat_lru` and `generic_lru` answer every run
  alike. `generic_lfu` refines a map from keys to (value, hit count, last touch); on a full cache it
  evicts the entry with the least (hit count, last touch). `LruHistory` and `LfuHistory` say what
  all this means without any state: from the operations and answers so far they tell which keys are
  stored, with which data, how often and when last used, and so the one answer owed to the next
  operation; the textbook list, `generic_lru` and `generic_lfu` give just these answers.
- **Semaphore protocols** (`CommunicationQueue`, `BoundedBuffer`, `CounterPool`). State machines
  with one program counter per process, any number of consumers or workers and every interleaving;
  `++size_`, `--size_` and `++(*p_cnt)` are a load and a store apart, so exclusion matters. Proved:
  the asserts, mutual exclusion, first in first out across all consumers, conservation of the
  semaphores and counters, no deadlock, a bound on every run, and that at the end just the values
  drawn by the producer were consumed, in order.
- **Dijkstra with seeded costs** (`Deykstra`). `main` seeds the costs and leaves the source itself
  at INT_MAX, so the result is the least, over all walks from any node, of the seed of the first
  node plus the weights; the parents form chains back to a node at its seed cost. With the seeds of
  a source these are the walks that leave it over the last of parallel edges, and the chains go back
  to the source. Within bounds on weights and seeds the costs also tell exactly which nodes can be
  reached.
- **The pipeline model** (`PipelineSpec`, `Pipeline`). An event machine with an idealised clock and
  a closed form for the start of every frame, whatever the order of simultaneous events, and for its
  processor unless simultaneous events leave a choice there (`NeedsExactly`, `TiesDecide`).
- **Iterative forms** (`Traversal`, `Words`, `PrefixTree`, `PrefixOrder`, `PrefixDb`,
  `SingleElement`). Stack-driven traversals against the recursive ones and these against orders of
  the ways down to the nodes, the prefix tree as a map printed in order, and three searches for the
  unpaired value.

`Options`, `Sequences`, `Division`, `Finite` and `Sums` hold the option type and the list
operations, arithmetic, counting and summation that several models share.

Where a name or comment and the code differ, the model follows the code: `flat_lru` is named an LRU
cache, but with invalidations it is one only on the runs of `RunsTextbookExactly`. `main` of the
Dijkstra program lets a later parallel edge of the source overwrite a cheaper one; `ParallelEdges`
is such a graph, and `PlainDistanceExactly` says on which graphs the costs are the distances all the
same. The one graph that `main` builds has no parallel edges, so by `WithoutParallels` it is one of
these.

## Model

| member | source | states |
|---|---|---|
| `Crc32cSpec.CrcOfChunks` | crcbench/crc32c.h:11-14 | a CRC-32C may be computed a chunk at a time: continuing from the CRC of s over t is the CRC of s + t, for every start value |
| `Crc32cSpec.CheckValue` | crcbench/crc32c.cpp:48-49 | the bit-at-a-time register with this polynomial and both complements gives the published check value of CRC-32C, 0xe3069283 for the nine digits |
| `Crc32cSpec.BitStepXor` | crcbench/crc32c.cpp:295 | one shift of the register is linear over exclusive or |
| `Crc32cSpec.Superposition` | crcbench/crc32c.cpp:180-183 | the register is linear in its start value: a run from c + d is a run from d plus c pushed through as many zero bits as the data has |
| `Crc32cSpec.JoinLanes` | crcbench/crc32c.cpp:196-197 | lanes computed apart join: the first result pushed through as many zeros as the second lane is long, plus the second lane started at 0 |
| `Crc32cSpec.ShiftByBytes` | crcbench/crc32c.cpp:133-137 | pushing zeros through a CRC can be done on its four bytes apart |
| `Crc32cMatrix.TimesXor` | crcbench/crc32c.cpp:58-71 | the product of a GF(2) matrix with a vector is linear in the vector |
| `Crc32cMatrix.TimesOfProducts` | crcbench/crc32c.cpp:73-78 | a matrix whose rows are the products of m with the rows of s acts as s followed by m |
| `Crc32cMatrix.SquareFeeds` | crcbench/crc32c.cpp:73-78 | the square of the operator for n zero bits is the operator for 2n zero bits, on every 32-bit CRC |
| `Crc32cMatrix.PowersAreIdentity` | crcbench/crc32c.cpp:90-94 | the rows 1, 2, 4, ... are the identity on every vector that fits |
| `Crc32cMatrix.ShiftRegisterFeeds` | crcbench/crc32c.cpp:88-94 | the polynomial followed by the rows 1, 2, 4, ... is the operator for one zero bit, on every 32-bit CRC |
| `Crc32cMatrix.PowerBelowIsLargest` | crcbench/crc32c.cpp:80-84 | what the length is rounded to: the largest power of two up to it, and 1 for 0 |
| `Crc32cHw.Gf2MatrixTimes` | crcbench/crc32c.cpp:58-71 | the bit-by-bit loop computes the GF(2) product for any matrix with as many rows as the vector has bits |
| `Crc32cHw.Gf2MatrixSquare` | crcbench/crc32c.cpp:73-78 | row by row product; an operator for n zero bits becomes one for 2n, whatever n is |
| `Crc32cHw.OneZeroBit` | crcbench/crc32c.cpp:88-94 | odd holds the operator for one zero bit |
| `Crc32cHw.BitsReachedIs` | crcbench/crc32c.cpp:102-112 | how many bits repeated squaring reaches while a length is shifted out |
| `Crc32cHw.Crc32cZerosOp` | crcbench/crc32c.cpp:80-117 | even holds the operator for as many zero bytes as the largest power of two up to len (1 for 0), whichever buffer the squaring ended in |
| `Crc32cHw.Crc32cZeros` | crcbench/crc32c.cpp:119-131 | the four tables hold, for every byte in every place, that byte pushed through so many zero bytes |
| `Crc32cHw.Crc32cShift` | crcbench/crc32c.cpp:133-137 | four lookups push any CRC through the zero bytes of the tables |
| `Crc32cHw.HoldsWord` | crcbench/crc32c.cpp:189-194 | crc32q takes a register over the eight bytes from an address, lowest first, starting anywhere in the data |
| `Crc32cHw.OneSet` | crcbench/crc32c.cpp:185-198 | three independent lanes over one set of blocks, joined by two shifts, leave the register of all three blocks; for any block that is a multiple of 8 |
| `Crc32cHw.ThreeLanes` | crcbench/crc32c.cpp:180-220 | sets are taken while they last; less than one set is left and the register is that of everything before it |
| `Crc32cHw.Join` | crcbench/crc32c.cpp:196-197 | shifting over a block and adding the lane of that block gives the register of both |
| `Crc32cHw.Crc32cHw` | crcbench/crc32c.cpp:160-246 | leading bytes, long sets, short sets, eight-byte units and trailing bytes give the bit-at-a-time CRC-32C, for every start CRC, buffer and address |
| `Crc32cHw.Crc32cInitHw` | crcbench/crc32c.cpp:154-158 | the tables are those of the two block sizes |
| `Words64.SwapReverses` | crcbench/crc32c.cpp:349-359 | the three-step swap reverses the eight bytes |
| `Words64.SwapTwice` | crcbench/crc32c.cpp:400-414 | swapping twice is the identity |
| `Words64.LoadBigIsSwapped` | crcbench/crc32c.cpp:402 | a big-endian load is the swapped little-endian load |
| `Slicing.RegisterIsLanes` | crcbench/crc32c.cpp:329-336 | from a zero start the register is the sum of each byte pushed through the zero bits behind it |
| `Slicing.StepByTable` | crcbench/crc32c.cpp:308 | eight bit steps are one lookup of the low byte plus the rest moved down |
| `Slicing.LanesOfWord` | crcbench/crc32c.cpp:326-336 | a CRC pushed through eight zero bytes is the sum of the lanes of its own bytes |
| `Slicing.EightBytes` | crcbench/crc32c.cpp:326-336 | the register after eight bytes is the sum of the lanes of the loaded word plus the register |
| `Crc32cSw.NextEntry` | crcbench/crc32c.cpp:305-310 | eight more zero bits for a table entry by looking its low byte up |
| `Crc32cSw.ByteByTable` | crcbench/crc32c.cpp:321-324 | one byte by table is one byte step of the register |
| `Crc32cSw.Crc32cInitSwLittle` | crcbench/crc32c.cpp:289-312 | entry n of table k is byte n after k + 1 byte steps |
| `Crc32cSw.LittleByte` | crcbench/crc32c.cpp:321-324 | the table lookup is the byte step |
| `Crc32cSw.EightLookups` | crcbench/crc32c.cpp:329-336 | eight lookups in the order of the bytes are eight byte steps |
| `Crc32cSw.LittleWord` | crcbench/crc32c.cpp:328-336 | eight lookups on the loaded word give the register after its eight bytes |
| `Crc32cSw.Crc32cSwLittle` | crcbench/crc32c.cpp:314-347 | slicing by eight gives the bit-at-a-time CRC-32C, for every start CRC, buffer and address |
| `Crc32cSw.Crc32cInitSwBig` | crcbench/crc32c.cpp:361-386 | the byte table as before, and every little-endian entry with its bytes swapped |
| `Crc32cSw.BigByte` | crcbench/crc32c.cpp:395-398 | the table lookup is the byte step |
| `Crc32cSw.EightSwappedLookups` | crcbench/crc32c.cpp:400-410 | eight lookups in swapped tables on a big-endian load give the swapped register |
| `Crc32cSw.BigWord` | crcbench/crc32c.cpp:402-410 | one pass keeps the register in swapped form |
| `Crc32cSw.Crc32cSwBig` | crcbench/crc32c.cpp:388-421 | slicing by eight on swapped words gives the same CRC-32C, for every start CRC, buffer and address |
| `FlatLru.MeaningAge` | cache/lru/flat_lru.hpp:104-111 | the age of a slot is the position of its key in the list with tombstones; a slot that is not live has none |
| `FlatLru.MeaningWellFormed` | cache/lru/flat_lru.hpp:104-111 | a sound vector means a list with distinct keys and no more slots than the cache may have |
| `FlatLru.TouchLive` | cache/lru/flat_lru.hpp:201-223 | touching a live slot moves its entry to the front and every younger one back by one |
| `FlatLru.TouchParked` | cache/lru/flat_lru.hpp:201-223 | touching a slot that is not live puts it in front; the entry that reaches the last age stops being live |
| `FlatLru.FullAges` | cache/lru/flat_lru.hpp:148-160 | in a full vector of live slots the ages are 0..n-1, so the highest age is n-1 |
| `FlatLru.FindRefines` | cache/lru/flat_lru.hpp:65-71 | a find is the find of the list with tombstones, answer included |
| `FlatLru.UpdateRefines` | cache/lru/flat_lru.hpp:225-284 | overwriting the chosen slot and touching it is the update of the list with tombstones, and the pair given back is the same |
| `FlatLru.InvalidateRefines` | cache/lru/flat_lru.hpp:84-87 | invalidating blanks the position of the key and parks its slot |
| `FlatLru.InvalidateRangeRefines` | cache/lru/flat_lru.hpp:89-92 | invalidating a range blanks every position with a key in it and empties the parked slots in it |
| `FlatCache.EvictInto` | cache/lru/flat_lru.hpp:238-249 | after the rotation and the overwrite the vector is sorted again and holds the new key instead of the evicted one |
| `FlatCache.EvicteeIs` | cache/lru/flat_lru.hpp:148-160 | the position found is the first slot that is not live, or else the one with the highest age |
| `FlatCache.SlotsInRange` | cache/lru/flat_lru.hpp:130-143 | between the two lower bounds lie exactly the slots whose key is in the range |
| `FlatCache.FlatLruCache.constructor` | cache/lru/flat_lru.hpp:47-53 | a new cache is empty |
| `FlatCache.FlatLruCache.LowerBoundFind` | cache/lru/flat_lru.hpp:162-179 | the first position not below the key, and whether a live slot with the key is there |
| `FlatCache.FlatLruCache.EvictIndexFind` | cache/lru/flat_lru.hpp:145-160 | a slot that is not live while all before it are, or else, with all slots live, one of the highest age |
| `FlatCache.FlatLruCache.Touch` | cache/lru/flat_lru.hpp:198-223 | every slot younger than the touched one ages by one, the touched one becomes the youngest, no key moves |
| `FlatCache.FlatLruCache.Find` | cache/lru/flat_lru.hpp:65-71 | keys stay strictly sorted and ages distinct; new state and answer are those of the list with tombstones |
| `FlatCache.FlatLruCache.Update` | cache/lru/flat_lru.hpp:225-284 | keys stay strictly sorted, ages distinct and the size within its bound; new state and displaced pair are those of the list with tombstones; the pair is that of the slot at the place of the key if this has the key or is not live, else, in a full vector, of the first slot that is not live or the oldest one |
| `FlatCache.FlatLruCache.Invalidate` | cache/lru/flat_lru.hpp:84-87 | the position of the key becomes a tombstone |
| `FlatCache.FlatLruCache.InvalidateRange` | cache/lru/flat_lru.hpp:89-92 | every position with a key in the range becomes a tombstone |
| `LruTheory.StepStaysPacked` | cache/lru/flat_lru.hpp:225-284 | without gaps one find or update answers as the textbook list does and leaves no gap |
| `LruTheory.RunsAgree` | cache/lru/flat_lru.hpp:65-92 | on every run without invalidation the list with tombstones gives the answers of the textbook list and stays without gaps |
| `LruTheory.RunsFromEmptyAgree` | cache/lru/flat_lru.hpp:47-53 | the same from an empty cache |
| `LruHistory.RunReflects` | cache/lru/generic_lru.hpp:60-97 | from an empty cache, after every run of the textbook list: it holds exactly the keys put in and since then neither displaced nor invalidated, with the data of their last updates, in the order of their last uses; every find answers the data last put in, and an update of a new key displaces, when the cache is full, the key whose last use is longest ago |
| `LruHistory.OwedIsUnique` | cache/lru/generic_lru.hpp:60-97 | the operations and answers so far leave one possible answer to the next operation |
| `LruHistory.AllOwedIsUnique` | cache/lru/generic_lru.hpp:60-97 | the operations alone leave one possible list of answers |
| `LruTextbook.TextbookExactly` | cache/lru/flat_lru.hpp:225-284 | with invalidations a step treats the live entries as a textbook cache does if and only if it is not a missed update while the oldest position is live and some position is a tombstone; state and answer are both the textbook's if and only if, besides, the missed update takes over no slot that still holds a buffer |
| `LruTextbook.NothingGetsParked` | cache/lru/flat_lru.hpp:104-107 | while no buffer is parked none is handed back, and one gets parked only by a step that loses the oldest entry |
| `LruTextbook.RunsTextbookExactly` | cache/lru/flat_lru.hpp:65-111 | from an empty cache every answer and the live entries after every operation are the textbook's if and only if no step of the run loses the oldest entry |
| `LruTextbook.WithoutInvalidationNeverLoses` | cache/lru/flat_lru.hpp:65-82 | a run without invalidation has no such step |
| `LruTextbook.TombstoneExample` | cache/lru/flat_lru.hpp:104-107 | a cache of two loses key 1 to an update of key 3 although key 2 had been invalidated |
| `LruTextbook.HandedBackExample` | cache/lru/flat_lru.hpp:260-270 | one update later that cache hands key 1 back, where the textbook displaces nothing, although the live entries agree |
| `LruBuffers.UpdateConserves` | cache/lru/flat_lru.hpp:260-270 | no update loses a buffer: the one under any key is held on or handed back under that key, even one parked long before |
| `LruBuffers.StepWellFormed` | cache/lru/flat_lru.hpp:65-111 | every operation keeps live keys distinct, none of them parked, and no more slots than the cache may have |
| `LruLedger.StepBalances` | cache/lru/flat_lru.hpp:65-111 | for one operation of any kind and any key: the buffer held under it followed by the one put in is the one handed back or freed followed by the one held after |
| `LruLedger.RunBalances` | cache/lru/flat_lru.hpp:65-111 | on every run of the four operations the buffers of a key leave in the order in which they came: those that left, handed back by an update or freed by an invalidation of the key, followed by the one held are all there were |
| `LruLedger.EveryBufferOnce` | cache/lru/flat_lru.hpp:47-111 | from an empty cache, for every key: the buffers put in are those handed back or freed followed by the one still held, each just once |
| `GenericLru.IndexFinds` | cache/lru/generic_lru.hpp:60-64 | the index leads to the node that a search of the list would find |
| `GenericLru.SpliceFront` | cache/lru/generic_lru.hpp:121-123 | splicing a node to the front leaves every iterator in the index valid |
| `GenericLru.EraseNode` | cache/lru/generic_lru.hpp:112-115 | erasing a node and its key keeps list and index in step |
| `GenericLru.InsertFront` | cache/lru/generic_lru.hpp:168-169 | a new node in front under a new key keeps list and index in step |
| `GenericLru.GenericLruCache.constructor` | cache/lru/generic_lru.hpp:42-48 | a new cache is empty |
| `GenericLru.GenericLruCache.Find` | cache/lru/generic_lru.hpp:60-66 | the index stays exact; new state and answer are those of the textbook list |
| `GenericLru.GenericLruCache.Update` | cache/lru/generic_lru.hpp:149-172 | the index stays exact and the size within its bound; new state and displaced pair are those of the textbook list |
| `GenericLru.GenericLruCache.Invalidate` | cache/lru/generic_lru.hpp:87-90 | the entry of the key is dropped from list and index |
| `GenericLru.GenericLruCache.InvalidateRange` | cache/lru/generic_lru.hpp:92-97 | invalidating one key after the other leaves just the entries outside the range, in order |
| `LruAgreement.RunFlat` | cache/lru/flat_lru.hpp:65-111 | on every run of finds, updates, invalidations and range invalidations the flat cache gives the answers and the final state of the list with tombstones; while nothing was invalidated its ages are 0..n-1, each once, and the age of a slot is its position in the recency list |
| `LruAgreement.RunGeneric` | cache/lru/generic_lru.hpp:60-97 | on every run of finds, updates, invalidations and range invalidations the list-and-index cache gives the answers and the final state of the textbook list, and these are the answers owed in the sense of LruHistory |
| `LruAgreement.RunBoth` | cache/lru/generic_lru.hpp:149-172 | both caches on the same run give the same answers unless some step loses the oldest entry of the flat one; so always when nothing is invalidated |
| `LruAgreement.AgesArePositions` | cache/lru/flat_lru.hpp:198-223 | slots that mean a textbook list have the ages 0..n-1, each once, and the age of a slot is its position in that list; RunFlat says which runs get there |
| `GenericLfu.FirstIsVictim` | cache/lfu/lfu.hpp:143-146 | the last node of the first bucket has the least (hit count, last touch) of all entries |
| `GenericLfu.TouchedSound` | cache/lfu/lfu.hpp:148-168 | moving a node to the bucket with one more hit, made if missing, and erasing its old bucket if empty keeps the order of buckets and nodes and the index |
| `GenericLfu.AttachedSound` | cache/lfu/lfu.hpp:121-132 | a node put in the bucket of count 1, made if missing, keeps them as well |
| `GenericLfu.DetachedSound` | cache/lfu/lfu.hpp:134-141 | erasing a node, and its bucket if that becomes empty, keeps them as well |
| `GenericLfu.GenericLfuCache.constructor` | cache/lfu/lfu.hpp:43-47 | a new cache is empty |
| `GenericLfu.GenericLfuCache.Touch` | cache/lfu/lfu.hpp:148-168 | the node has one more hit and is the last touched; the iterators returned lead to it |
| `GenericLfu.GenericLfuCache.Get` | cache/lfu/lfu.hpp:60-69 | the value stored under the key, which gets one more hit now; nothing changes on a miss; LfuHistory says for whole runs which value that is and what the hit is for |
| `GenericLfu.GenericLfuCache.Put` | cache/lfu/lfu.hpp:90-112 | a stored key holds the value put, with one more hit now; otherwise a full cache gives back the entry with the least (hit count, last touch) and the new key has one hit; LfuHistory says what this means for whole runs |
| `GenericLfu.GenericLfuCache.VictimIsFirst` | cache/lfu/lfu.hpp:143-146 | in a cache that is not empty the first bucket has a last node, and that is the entry to evict |
| `GenericLfu.GenericLfuCache.LfuAttach` | cache/lfu/lfu.hpp:121-132 | the new key is stored with one hit and the index entry for it leads to its node |
| `GenericLfu.GenericLfuCache.Detach` | cache/lfu/lfu.hpp:134-141 | the node is given back and just its key disappears |
| `GenericLfu.GenericLfuCache.Invalidate` | cache/lfu/lfu.hpp:77-80 | just the entry of the key is dropped |
| `GenericLfu.GenericLfuCache.InvalidateRange` | cache/lfu/lfu.hpp:82-87 | invalidating one key after the other drops just the entries in the range |
| `LfuSpec.RunIsDetermined` | cache/lfu/lfu.hpp:90-168 | the start and the operations determine every state and every answer of a run: there is one entry to evict |
| `LfuHistory.RunReflects` | cache/lfu/lfu.hpp:60-112 | from an empty cache, after every run: a key is stored exactly when it was put and since then neither evicted nor invalidated, its value is that of the last put of it, its hits are its puts and answered gets since it came in, last touches are in the order of the last of these; every get answers the value of the last put of a stored key, and every put of a new key into a full cache gives back the stored key with the least (puts and answered gets, latest of them) |
| `LfuHistory.OwedIsUnique` | cache/lfu/lfu.hpp:60-112 | the operations and answers so far leave one possible answer to the next operation |
| `LfuHistory.AllOwedIsUnique` | cache/lfu/lfu.hpp:60-112 | the operations alone leave one possible list of answers |
| `LfuRuns.RunLfu` | cache/lfu/lfu.hpp:58-87 | on every run of gets, puts, invalidations and range invalidations the cache gives the answers and the final state of the map of hit counts and last touches, and these are the answers owed in the sense of LfuHistory |
| `CommunicationQueue.PushValues` | posix/semaphore/interprocesscountingsemaphore.cpp:36-40 | writing behind the tail appends to the queued values and disturbs none of them |
| `CommunicationQueue.PopValues` | posix/semaphore/interprocesscountingsemaphore.cpp:31-34 | advancing the head takes off the oldest value |
| `CommunicationQueue.Queue.constructor` | posix/semaphore/interprocesscountingsemaphore.cpp:22-54 | a new queue is empty |
| `CommunicationQueue.Queue.Front` | posix/semaphore/interprocesscountingsemaphore.cpp:29 | the oldest queued value |
| `CommunicationQueue.Queue.Pop` | posix/semaphore/interprocesscountingsemaphore.cpp:31-34 | the queue without its oldest value |
| `CommunicationQueue.Queue.Push` | posix/semaphore/interprocesscountingsemaphore.cpp:36-40 | the queue with the value behind all others |
| `BoundedBuffer.InitInv` | posix/semaphore/interprocesscountingsemaphore.cpp:142-146 | the initial semaphore values establish the invariant for any number of consumers |
| `BoundedBuffer.MutualExclusion` | posix/semaphore/interprocesscountingsemaphore.cpp:69-108 | at most one process is between wait and post of the mutex |
| `BoundedBuffer.NeverPushFull` | posix/semaphore/interprocesscountingsemaphore.cpp:98 | a producer inside the mutex finds a free slot |
| `BoundedBuffer.NeverPopEmpty` | posix/semaphore/interprocesscountingsemaphore.cpp:77 | a consumer inside the mutex finds an item |
| `BoundedBuffer.ProducerKeeps` | posix/semaphore/interprocesscountingsemaphore.cpp:90-108 | every step of the producer, the load and the store of the size apart, keeps the invariant, and what was pushed stays the first of the values drawn, the one on its way being the next |
| `BoundedBuffer.ConsumerKeeps` | posix/semaphore/interprocesscountingsemaphore.cpp:69-88 | every step of any consumer keeps the invariant |
| `BoundedBuffer.RunKeeps` | posix/semaphore/interprocesscountingsemaphore.cpp:69-108 | every state of every interleaving satisfies the invariant, what was pushed is the first of the values drawn, and the steps taken are counted exactly |
| `BoundedBuffer.Safety` | posix/semaphore/interprocesscountingsemaphore.cpp:69-108 | in every reachable state both asserts hold, one process at most is inside, semaphore values and claims add up to the capacity, what all consumers popped is a prefix of what was pushed, and this is a prefix of the values drawn |
| `BoundedBuffer.NoDeadlock` | posix/semaphore/interprocesscountingsemaphore.cpp:69-108 | in every state with the invariant some process can go on unless all have finished |
| `BoundedBuffer.RunsEnd` | posix/semaphore/interprocesscountingsemaphore.cpp:167-177 | no run is longer than the work there is |
| `BoundedBuffer.AtTheEnd` | posix/semaphore/interprocesscountingsemaphore.cpp:167-177 | a run that can go no further has consumed just the values drawn, as many as consumers times rounds, each once and in order, with the queue empty and the semaphores back at their initial values |
| `CounterPool.InitInv` | cpp20/semaphore/cpp20countingsemaphore.cpp:58-69 | as many permits as counters, all in the pool, establish the invariant for any number of workers |
| `CounterPool.NeverPopEmpty` | cpp20/semaphore/cpp20countingsemaphore.cpp:78-81 | a worker with a permit and without a counter finds the pool not empty |
| `CounterPool.Alone` | cpp20/semaphore/cpp20countingsemaphore.cpp:74-94 | at most one worker holds the lock of the pool |
| `CounterPool.StepSum` | cpp20/semaphore/cpp20countingsemaphore.cpp:85-86 | the load and the store of an increment are apart, and yet each store adds exactly one to the sum |
| `CounterPool.WorkerKeeps` | cpp20/semaphore/cpp20countingsemaphore.cpp:71-95 | every step of any worker keeps the invariant |
| `CounterPool.RunKeeps` | cpp20/semaphore/cpp20countingsemaphore.cpp:71-95 | every state of every interleaving satisfies the invariant, and the steps taken are counted exactly |
| `CounterPool.Safety` | cpp20/semaphore/cpp20countingsemaphore.cpp:71-95 | in every reachable state the pool can be popped, no two workers own one counter, no counter is lost, and the sum is the number of finished increments |
| `CounterPool.NoDeadlock` | cpp20/semaphore/cpp20countingsemaphore.cpp:71-95 | in every state with the invariant some worker can go on unless all have finished |
| `CounterPool.RunsEnd` | cpp20/semaphore/cpp20countingsemaphore.cpp:104-105 | no run is longer than the work there is |
| `CounterPool.AtTheEnd` | cpp20/semaphore/cpp20countingsemaphore.cpp:104-117 | when no worker can go on all have finished, and the counters add up to workers times increments |
| `Deykstra.RelaxedAt` | algo/deykstra/deykstra.cpp:44-50 | relaxing the edges of a node leaves a cost and its parent, or lowers it to the cost over one of the edges with the node as parent, and leaves none above such a cost |
| `Deykstra.RoundKeeps` | algo/deykstra/deykstra.cpp:42-52 | a round on the cheapest unprocessed node keeps the invariant and the costs and parents of all processed nodes |
| `Deykstra.NoWalkIsCheaper` | algo/deykstra/deykstra.cpp:39-53 | when nothing below INT_MAX is left, no walk is cheaper than the cost of its end |
| `Deykstra.ParentsLeadBack` | algo/deykstra/deykstra.cpp:42-50 | following parents from any node reaches one at its seed cost, each link an edge that accounts for the difference, no node twice |
| `Deykstra.Result` | algo/deykstra/deykstra.cpp:39-53 | what the main loop leaves: least costs and parent chains of at most as many nodes as the graph has |
| `Deykstra.Unreached` | algo/deykstra/deykstra.cpp:39-53 | the cost of a node is below INT_MAX exactly when some walk from a seeded node costs less than that |
| `Deykstra.FindLowestCostNode` | algo/deykstra/deykstra.cpp:26-37 | the first of the cheapest unprocessed nodes below INT_MAX, or none when none is left |
| `Deykstra.Relax` | algo/deykstra/deykstra.cpp:44-50 | the loop over the edges relaxes them all |
| `Deykstra.Round` | algo/deykstra/deykstra.cpp:41-52 | one round, with processed nodes left alone |
| `Deykstra.Deykstra` | algo/deykstra/deykstra.cpp:39-53 | for every graph with weights that are not negative and all seeds: least cost over all walks of the seed of the first node plus the weights, with the parent structure; a node still at its seed cost keeps its parent; the loop ends; for seeds and weights within bounds no sum exceeds INT_MAX and the costs below 2147483647 are those of the nodes that can be reached |
| `Deykstra.RelaxedKept` | algo/deykstra/deykstra.cpp:44-50 | relaxing only lowers costs, and a node that keeps its cost keeps its parent |
| `Deykstra.SeedFrom` | algo/deykstra/deykstra.cpp:65-71 | the seeds are the weights of the edges of the source, the last one counting |
| `Deykstra.SeedIsEdge` | algo/deykstra/deykstra.cpp:65-71 | a seed is INT_MAX without a parent, or the weight of the last edge of the source to the node with the source as parent |
| `Deykstra.SourceDistance` | algo/deykstra/deykstra.cpp:57-73 | seeded like this the result is, for every graph, the least cost of a walk of at least one edge from the source that leaves it over the last of parallel edges |
| `Deykstra.NoSumExceeds` | algo/deykstra/deykstra.cpp:44-50 | if the seeds that are set are at most s, the weights at most w and s + n * w at most INT_MAX for n nodes, no sum of a cost and a weight that any round computes exceeds INT_MAX |
| `Deykstra.ReachedExactly` | algo/deykstra/deykstra.cpp:26-53 | for seeds that are set of at most s, weights of at most w and s + n * w below 2147483647 for n nodes: at the end a cost is below 2147483647 if and only if some walk from a node with a seed leads to the node, and is 2147483647 otherwise |
| `Deykstra.LeadsExactly` | algo/deykstra/deykstra.cpp:57-73 | with the seeds of a source the nodes reached are exactly those that a walk of at least one edge from the source leads to |
| `Deykstra.PlainDistanceExactly` | algo/deykstra/deykstra.cpp:68-73 | each cost is the least cost of a walk of at least one edge from the source, attained by one when below INT_MAX, if and only if to the end of every edge of the source a walk that leaves it over the last of parallel edges is no dearer than the edge |
| `Deykstra.NoneCheaperExactly` | algo/deykstra/deykstra.cpp:68-73 | in terms of the result: no walk from the source is cheaper than the costs if and only if no edge of the source undercuts the cost of its end |
| `Deykstra.PlainDistance` | algo/deykstra/deykstra.cpp:68-73 | the graph is of that kind when the last of parallel edges of the source is the cheapest |
| `Deykstra.WithoutParallels` | algo/deykstra/deykstra.cpp:57-73 | and when the source has no parallel edges, as in the graph that main builds |
| `Deykstra.ParallelEdges` | algo/deykstra/deykstra.cpp:68-71 | with edges of weights 2 and then 9 to one node the cost is 9, though a walk costs 2; the graph is not of that kind |
| `Deykstra.SearchFrom` | algo/deykstra/deykstra.cpp:57-73 | what main computes: those costs, the distances exactly on the graphs of PlainDistanceExactly, and for every node reached a chain of parents back to the source, each link an edge that accounts for the cost; with weights of at most w and w + n * w below 2147483647 the cost of a node is below 2147483647 if a walk from the source leads there and 2147483647 if none does |
| `PipelineSpec.StartIsFirstCome` | pipeline_model/pipeline_model.cpp:63-122 | the closed form is the schedule of first come, first served: a frame starts when it arrives or, if that is later, when the one a round before it is done |
| `PipelineSpec.StartOneRoundLater` | pipeline_model/pipeline_model.cpp:126-138 | from one round to the next a start moves by the longer of the work and the time in which that many frames arrive: no delay in the one regime of the two examples, a growing one in the other |
| `PipelineSpec.NeedsExactly` | pipeline_model/pipeline_model.cpp:82-122 | there is a number of processors that take turns whatever the order of simultaneous events, unless the work is exactly m periods for some m from 1 to the number of processors less one |
| `Pipeline.FirstFree` | pipeline_model/pipeline_model.cpp:107-108 | the first free processor, all before it in use, or none when all are |
| `Pipeline.InUseCount` | pipeline_model/pipeline_model.cpp:82-92 | as many processors are in use as frames are being processed, so one is free exactly when there are fewer |
| `Pipeline.PipelineModel.constructor` | pipeline_model/pipeline_model.cpp:140-151 | no frame yet, all processors free |
| `Pipeline.PipelineModel.FrameSubmit` | pipeline_model/pipeline_model.cpp:34-61 | any frame is started at any time on a free processor: its slot is in use until its timer is due, nothing else changes |
| `Pipeline.PipelineModel.Submitted` | pipeline_model/pipeline_model.cpp:82-91 | starting the next frame at the time of the closed form keeps slots, timers and start times in order |
| `Pipeline.PipelineModel.FrameReceive` | pipeline_model/pipeline_model.cpp:96-122 | a frame starts on arrival if a processor is free, on the free one that has none free before it, and waits behind the others if not; no other slot or timer changes |
| `Pipeline.PipelineModel.OldestFinishes` | pipeline_model/pipeline_model.cpp:63-80 | the timer due next is that of the oldest frame being processed |
| `Pipeline.PipelineModel.FrameProcessed` | pipeline_model/pipeline_model.cpp:63-94 | a processor is freed and the oldest waiting frame, if any, starts at once on the free one that has none free before it |
| `Pipeline.PipelineModel.Drain` | pipeline_model/pipeline_model.cpp:82-91 | waiting frames start in order while a processor is free, each on the free one that has none free before it |
| `Pipeline.NoneIsLate` | pipeline_model/pipeline_model.cpp:82-91 | every frame that should have started before now has |
| `Pipeline.NoneIsForgotten` | pipeline_model/pipeline_model.cpp:96-122 | frame k has started once enough frames have arrived |
| `Pipeline.TurnIsFirst` | pipeline_model/pipeline_model.cpp:107-108 | if c processors are needed and took turns so far, the first free one when frame k starts is k % c |
| `Pipeline.FreedIsTurn` | pipeline_model/pipeline_model.cpp:82-91 | a frame that waited gets the processor just freed, the only free one, and that is k % c |
| `Pipeline.TiesDecide` | pipeline_model/pipeline_model.cpp:82-122 | with two processors and a work of one period, frame 1 gets slot 1 if its arrival goes before the end of frame 0 and slot 0 if not |
| `Pipeline.RunLoop` | pipeline_model/pipeline_model.cpp:34-151 | for every order of simultaneous events: frames start in order, frame k exactly at k * period + (k / slots) * max(0, work - slots * period), every frame after boundedly many events, and frame k on processor k % c when c are needed: all of them if work exceeds (slots - 1) * period, else c with (c - 1) * period < work < c * period |
| `Traversal.PreorderTraversal` | boost/my_algo/inorder_traversal.cpp:13-30 | the stack loop gives the recursive preorder of every tree |
| `Traversal.InorderTraversal` | boost/my_algo/inorder_traversal.cpp:32-62 | the nested stack loops give the recursive inorder of every tree |
| `Traversal.SameValues` | boost/my_algo/inorder_traversal.cpp:13-62 | both traversals give the same values, each as often |
| `Traversal.PreorderVisits` | boost/my_algo/inorder_traversal.cpp:13-30 | the preorder is the values of all nodes, each node once, a node before all below it and what is on its left before what is on its right |
| `Traversal.InorderVisits` | boost/my_algo/inorder_traversal.cpp:32-62 | the inorder is the values of all nodes, each node once, a node after all on its left and before all on its right |
| `PrefixTree.WiredMore` | algo/prefix_tree/prefix_tree.hpp:36-44 | a node made for a letter that had none is the only one for its word, and every other node keeps pointing at just the nodes one letter on |
| `PrefixDb.FirstsKeepsFirst` | algo/prefix_tree/prefix_tree.hpp:55-58 | after a run of inserts an index is kept exactly when it is not empty and occurs, with the first item that has it |
| `PrefixDb.Db.constructor` | algo/prefix_tree/prefix_tree.hpp:55-61 | filled from a list it holds the first item of every index |
| `PrefixDb.Db.Descend` | algo/prefix_tree/prefix_tree.hpp:36-41 | the node for one more letter; exactly one empty node is made when it is not there, and nothing changes when it is |
| `PrefixDb.Db.InsertAtOnce` | algo/prefix_tree/prefix_tree.hpp:26-52 | true exactly when the index is not empty and new; then the item is stored, otherwise the contents stay; the nodes made are just those for the prefixes of the index |
| `PrefixOrder.BelowIncreases` | algo/prefix_tree/prefix_tree.hpp:81-93 | a node before its children, children by letter, is the strictly increasing order of the words |
| `PrefixOrder.BelowIsComplete` | algo/prefix_tree/prefix_tree.hpp:81-93 | every word that extends that of a node is met below it |
| `PrefixOrder.ChildIncreases` | algo/prefix_tree/prefix_tree.hpp:89-92 | what hangs below one child comes in order and extends the word of the node by the letter of the child |
| `PrefixDb.WalkPrints` | algo/prefix_tree/prefix_tree.hpp:73-94 | walking the whole tree prints the contents: each item once, by increasing index |
| `PrefixDb.Db.PushChildren` | algo/prefix_tree/prefix_tree.hpp:76-79 | children are stacked so that the first letter is on top |
| `PrefixDb.Db.Print` | algo/prefix_tree/prefix_tree.hpp:73-94 | the stack loop prints each item of the contents once, in strictly increasing lexicographic order of the indexes |
| `PrefixDb.PrintedIsUnique` | algo/prefix_tree/prefix_tree.hpp:73-94 | that order leaves no choice: two printings of the same contents are equal |
| `Words.LessIsTotal` | algo/prefix_tree/prefix_tree.hpp:87-93 | of two words exactly one is less, or they are equal |
| `Words.LessIsTransitive` | algo/prefix_tree/prefix_tree.hpp:87-93 | the lexicographic order is transitive |
| `Words.BranchOrders` | algo/prefix_tree/prefix_tree.hpp:87-93 | the first letter at which two words differ orders them |
| `SingleElement.SimpleSearch` | boost/my_algo/solution.cpp:8-18 | the scan over pairs finds the single value |
| `SingleElement.XorOfAll` | boost/my_algo/solution.cpp:20-26 | pairs cancel: the exclusive or of all values is the single one |
| `SingleElement.Xor` | boost/my_algo/solution.cpp:20-26 | the fold is the exclusive or of all values, and so the single one |
| `SingleElement.BinarySearch` | boost/my_algo/solution.cpp:28-52 | the parity search finds the single value; it stays in bounds and its window starts even, ends odd and shrinks |
| `SingleElement.SingleIsUnique` | boost/my_algo/solution.cpp:8-52 | an array has at most one such position |

## Left out

- The choice between the hardware and the software CRC (`cpuid`), `pthread_once` and the assembly syntax: crc32b and crc32q are modelled by what they do, tables are filled before use, an aligned 64-bit load is eight bytes in the processor's order, and an address matters only modulo 8.
- Crc32cHw.Crc32cHw: the block sizes are the constants 8192 and 256 of the source; `ThreeLanes` and `Crc32cZeros` hold for any block that is a multiple of 8 and any length.
- Cache keys are integers: any finite set of keys in a total order that agrees with equality embeds in them, and other orders are not modelled. Hash tables are finite maps.
- Buffers and values are opaque; deleters, moves, copies, null buffers, item sizes, `find_mutable`, `exists`, `create` and the dead member `generic_lru::is_valid` are not part of the models.
- List nodes of `generic_lru` and `generic_lfu` are elements of a sequence with an id that stands for their iterator; splicing and erasing are done on the sequence, so the pointer surgery of std::list is not modelled. The vector of `flat_lru` is a sequence that the methods reassign.
- GenericLfu.GenericLfuCache.Put: hit counts are unbounded, so the wrap-around of a 64-bit count is not modelled; `put` by copy and by move are one method.
- LruAgreement.RunFlat: ranges to invalidate are not empty, as the source asserts.
- BoundedBuffer.Safety: the values drawn at random are a parameter, values and indices are unbounded integers (the 32-bit fields stay far below their range), a push or pop is stepped through as four accesses, and real time, `fork`, `mmap`, `waitpid` and logging are left out.
- CounterPool.AtTheEnd: the sum is over unbounded integers; the overflow of an `int` total is not modelled.
- Deykstra.Deykstra: costs are unbounded integers with INT_MAX as the cap for "not reached"; a sum above INT_MAX, undefined in the source, is simply not below it here, and with seeds and weights as in `NoSumExceeds` there is none. Weights are not negative and `graph[i].id == i`, as the algorithm needs.
- Deykstra.SearchFrom: the source itself is not at distance 0 but, as in the source code, at the least cost of a walk that returns to it.
- Pipeline.RunLoop: the clock is idealised, handlers take no time, the period and the number of processors are positive, and error codes and Asio are left out; frame numbers do not wrap around.
- PrefixTree: nodes live in a pool and own each other by position, so ownership by pointers is not modelled; the entry array is the node of the empty word. Letters outside 'A'..'z', which the source does not check, are outside the model.
- PrefixDb.Db.Print: the source binds a reference to the top of its stack and reads the node through it after popping; the model reads a copy of the top.
- Traversal: tree nodes are values, so a tree that shares nodes or changes during the traversal is not modelled.
- SingleElement.BinarySearch: needs only that a value differs from its neighbours unless it is paired with one; an empty array, on which the source reads out of bounds, is excluded.
- The remaining programs (sockets, TLS, daemons, dynamic loading, shared memory, Python bindings, and demos of algorithms that live in a library outside the repository) hold no algorithm of their own or only an easy one.
