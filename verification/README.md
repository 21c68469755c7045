# Verified models of havenask's core containers and codecs

This project models seven stateful components of havenask in Dafny and proves that each compact,
optimised representation agrees with something simple:

* **Hash tables** (`aios/autil`). The flat Robin Hood table (`FlatTable.dfy`, `RobinHood.dfy`) and the
  Bytell table, whose collision chains live inside the slot array (`BytellTable.dfy`, `Chains.dfy`).
  Both refine a finite map over every run of emplace, erase, find, clear and rehash (`MapSpec.dfy`),
  and iterating over either visits each key once (`SlotItems.dfy`). Sizing policies are in
  `HashPolicy.dfy`, the memory that growing needs in `Growth.dfy`. `Crowding.dfy` says exactly which keys a
  flat table of a given size takes and which size it ends up with, `Jamming.dfy` why a Bytell table refuses a
  key. `Overfull.dfy` has keys that collide and `Spread.dfy` keys that do not.
* **CRC32C** (`Crc32c.dfy`). The computation in four interleaved strides equals the bit-by-bit
  checksum, and that is the remainder of the message modulo the polynomial of section 12.1 of RFC 3720
  (`CrcPolynomial.dfy`).
* **MatchDoc allocator** (`aios/matchdoc`). Chunked rows (`VectorStorage.dfy`), document ids
  (`DocIds.dfy`), linked sub-document lists (`SubLists.dfy`), cloning and merging (`MatchDocs.dfy`), and
  whole runs of a client (`DocRuns.dfy`).
* **DataBuffer and Coding.** Unrolled base-128 varints as in the Protocol Buffers encoding
  (`Varint.dfy`), the typed byte queue (`DataBuffer.dfy`), the section container (`Sections.dfy`).
* **Block pool** (`BlockPool.dfy`) as a machine whose steps threads interleave, and the hit window of
  the **block cache** (`BlockCache.dfy`).

Methods that change state carry contracts over ghost fields: `contents` is the map a table stands
for, `outcomes` the history of lookups, `free` and `used` the blocks of a pool. `Valid()` ties them to
the real fields.

`dafny verify dfyconfig.toml` checks the whole project.

## What the proofs found

* Whether a flat table takes a key is decided by the homes of its keys alone. A table of a given size takes
  them exactly when they are within its load and no range of slots is home to more keys than there are slots
  within max_lookups of it (`HeldIsNotCrowded`, `TooFarIsCrowded`). So the size a table ends up with, and
  whether growing to it is refused, is a function of the keys, the size before and the memory
  (`FlatTable.Emplace`, `FlatTable.Run`), and a refusal names the size it failed at (`Setting.Refusal`).
* In the worst case that is few keys: n keys of one hash go into a flat table with memory for 2^k but not for
  2^(k+1) slots exactly when n <= k (`EmplaceOneHash`), under the power-of-two and the default Fibonacci policy,
  while every run that emplaces at most k times succeeds (`FillFlat`). In the best case, keys with different
  homes, n keys go in exactly when 2n <= 2^k (`EmplaceApartFlat`).
* When a Bytell table refuses a key, growing has come to a size that memory does not let it leave, and there the
  load is exceeded, or two keys collide and an arrangement of the keys has a chain that cannot go on
  (`BytellTable.Emplace`). Keys
  with different homes go in exactly when 16n <= 15 * 2^k (`EmplaceApartBytell`). But no memory at all is enough
  for some keys: a table cannot hold two keys of one home together with a key at home in every slot a link from
  there reaches (`NoTableHolds`). Emplacing 127 given keys fails with any memory under the power-of-two and prime
  policies (`OverfillRemainder`), and so do 7877 given keys under the Fibonacci policy (`OverfillFibonacci`).
  With a power of two of slots that exceeds the jump of index n + 1, every run that emplaces at most n times
  succeeds (`FillBytell`).
* Erasing while iterating over a Bytell table misses nothing that is still to come, but an item that has
  been visited comes a second time exactly when it was the last of the erased item's chain and lay above
  it (`BytellTable.EraseAt`). In a flat table what comes next is exactly what came after the erased item
  (`FlatTable.EraseAt`).
* Allocating a batch of documents into a vector that already has some constructs all rows of the vector,
  so the fields of those documents are reset as well (`DocPool.BatchAllocate`).
* Cloning a document with its sub-documents leaves the first copy current, not the last. Adding a
  sub-document right after that keeps the copies exactly when there is at most one
  (`MatchDocAllocator.AddSubToClone`); `CloneThenAdd` is a run of five calls that loses one.
* The unrolled array readers and the 32-bit slow reader accept a varint that never ends its
  continuation bits, which `Coding` rejects; they differ from the strict readers exactly on such input
  (`LenientVersusStrict`), for example on ten bytes 0x80, which read as zero (`TenContinuations`).
* A section description of 65536 bytes or more is written with its length cut to sixteen bits. The
  round trip of a container succeeds exactly for shorter descriptions (`RoundTripExactly`); one section
  with a name of 65536 bytes is already too much (`LongNameFails`). Such a container reads back as plain
  data unless checksums happen to agree (`LongMetaUnrecognised`).

## Model

| member | source | states |
|---|---|---|
| `HashPolicy.PrimeNumberValid` | aios/autil/autil/FlatHashmap.h:879-1271 | for every ascending size list: indices stay in the table, folding an index back is the remainder, a request is served by a size at least as large |
| `HashPolicy.PowerOfTwoValid` | aios/autil/autil/FlatHashmap.h:1277-1288 | the same for power-of-two sizes |
| `HashPolicy.FibonacciValid` | aios/autil/autil/FlatHashmap.h:1290-1305 | the same for multiplicative hashing, for every request up to 2^63; an unallocated table is indexed in its first two slots |
| `Slots.OccupiedCount` | aios/autil/autil/FlatHashmap.h:599-634 | a table that holds a map has at least as many keys as occupied slots |
| `RobinHood.SearchPassesOver` | aios/autil/autil/FlatHashmap.h:384-392 | between the home of an item and the item no distance is small enough to stop a search, which is why stopping at a smaller distance is right |
| `RobinHood.PlaceKeepsSettled` | aios/autil/autil/FlatHashmap.h:599-634 | writing an item over a closer one keeps distance = position - home, distances below the limit, growth by at most one per slot, and the sentinel |
| `RobinHood.EmptiedRangeIsGap` | aios/autil/autil/FlatHashmap.h:495-517 | emptying a range leaves an arrangement that is in order except for one gap |
| `RobinHood.ShiftGap` | aios/autil/autil/FlatHashmap.h:484-517 | moving the item right of a gap to its start moves the gap and spoils nothing else |
| `RobinHood.GapCloses` | aios/autil/autil/FlatHashmap.h:484-517 | a gap whose right neighbour is at home, empty or the sentinel leaves the whole table in order |
| `FlatHashTable.FlatTable.constructor` | aios/autil/autil/FlatHashmap.h:647-653 | an unallocated table at half load, four times the asked buckets to come, stands for the empty map |
| `FlatHashTable.FlatTable.Probe` | aios/autil/autil/FlatHashmap.h:384-392 | the walk ends; it finds the key exactly when the map has it, and otherwise stops where a new item belongs |
| `FlatHashTable.FlatTable.Find` | aios/autil/autil/FlatHashmap.h:384-392 | the end position exactly when the key is absent, else the slot of the key and its value |
| `FlatHashTable.FlatTable.Emplace` | aios/autil/autil/FlatHashmap.h:410-422 | the old map plus the key if it was new, nothing changes if it was present; succeeds exactly when the keys go into a size that growing comes to within memory, and has that size then; does not grow when the home of the key is empty and the load allows |
| `FlatHashTable.FlatTable.EmplaceNewKey` | aios/autil/autil/FlatHashmap.h:599-634 | the same for a new key, through direct construction, displacement, or growth |
| `FlatHashTable.FlatTable.ExchangeInPlace` | aios/autil/autil/FlatHashmap.h:612-624 | the swap with an occupied slot loses nothing: map and hand together stay the same |
| `FlatHashTable.FlatTable.Displace` | aios/autil/autil/FlatHashmap.h:599-634 | displacement adds exactly the new key; if it gives up, the map is the old one and its keys with the new one are crowded |
| `FlatHashTable.FlatTable.TakeBack` | aios/autil/autil/FlatHashmap.h:627-630 | the swap-back takes out the new item and restores the stranded one; distances still tell which slots are occupied, so the table is good for a rehash |
| `FlatHashTable.FlatTable.GrowAndEmplace` | aios/autil/autil/FlatHashmap.h:603-606 | growing a table left in disorder and adding the item gives the old map plus the item, and succeeds exactly when the keys go into some larger size within memory |
| `FlatHashTable.FlatTable.Grow` | aios/autil/autil/FlatHashmap.h:636-639 | the same map in strictly more slots, and exactly when that succeeds and how many |
| `FlatHashTable.FlatTable.Rehash` | aios/autil/autil/FlatHashmap.h:441-472 | the same map in at least the asked number of buckets, even when emplacing an item grows the new table again; exactly when it succeeds and the size then |
| `FlatHashTable.FlatTable.Refill` | aios/autil/autil/FlatHashmap.h:441-472 | emplacing the items of the old slots, recognised by their distances, restores the whole map; the size does not depend on the order of the items |
| `FlatHashTable.FlatTable.EraseAt` | aios/autil/autil/FlatHashmap.h:484-493 | backward shift removes exactly the key of the slot and restores the arrangement; the items from there on are, in order, those that came after, and the returned iterator is at the first of them |
| `FlatHashTable.FlatTable.MoveDown` | aios/autil/autil/FlatHashmap.h:484-517 | an item is only ever moved into an empty slot, with its distance lowered by the move |
| `FlatHashTable.FlatTable.EraseRange` | aios/autil/autil/FlatHashmap.h:495-517 | removes exactly the keys stored in the range; the items from its start on are, in order, those that came after it, and the returned iterator is at the item after the range |
| `FlatHashTable.FlatTable.CloseGap` | aios/autil/autil/FlatHashmap.h:503-516 | the loop with its shrinking move distance puts the table in order, keeps the order of the items, and tracks the item after the range |
| `FlatHashTable.FlatTable.Items` | aios/autil/autil/FlatHashmap.h:347-372 | iterating from the first slot to the sentinel yields the items in slot order, each entry of the map once |
| `SlotItems.ClosedStep` | aios/autil/autil/FlatHashmap.h:484-517 | moving an item down over empty slots does not change the order of iteration |
| `SlotItems.ItemsEachOnce` | aios/autil/autil/FlatHashmap.h:347-372 | the items of the slots of a table are the entries of its map, each once |
| `FlatHashTable.FlatTable.EraseKey` | aios/autil/autil/FlatHashmap.h:519-527 | the map without the key, and whether it was there |
| `FlatHashTable.FlatTable.Clear` | aios/autil/autil/FlatHashmap.h:529-536 | the empty map |
| `FlatHashTable.FlatTable.Run` | aios/autil/autil/FlatHashmap.h:384-536 | every run answers and ends as the same run on a map; it succeeds exactly when a run of sizes, computed from the keys alone, does |
| `FlatHashTable.SameHomeLimit` | aios/autil/autil/FlatHashmap.h:577-580 | a table of any size holds at most max_lookups keys of one home |
| `Crowding.ClusterStart` | aios/autil/autil/FlatHashmap.h:599-634 | left of every item, up to one that is at home, there are only items, and their homes rise |
| `Crowding.TooFarIsCrowded` | aios/autil/autil/FlatHashmap.h:599-634 | when a key would come max_lookups slots from home, more keys have their home in some range than slots are near it |
| `Crowding.HeldIsNotCrowded` | aios/autil/autil/FlatHashmap.h:577-580 | conversely no table holds such keys |
| `Crowding.Setting.TakenInTwo` | aios/autil/autil/FlatHashmap.h:441-472 | taking some of the keys first does not change the size a table ends up with, so neither does the order of a refill |
| `Crowding.Setting.Refusal` | aios/autil/autil/FlatHashmap.h:636-639 | when keys do not go in, growing has come to a size that does not take them and from which the next request exceeds the memory |
| `Crowding.Setting.EnoughForThese` | aios/autil/autil/FlatHashmap.h:636-639 | memory that is enough for any n items is enough for n given keys |
| `Crowding.RunGoesThrough` | aios/autil/autil/FlatHashmap.h:384-536 | a run with memory for its items is never refused |
| `FlatHashTable.FlatTable.FreeHomeTakes` | aios/autil/autil/FlatHashmap.h:599-634 | a table within its load whose home slot for the key is empty takes the key as it is |
| `Growth.LookupsOfPow2` | aios/autil/autil/FlatHashmap.h:577-580 | a table of 2^k slots looks at k slots, and at four at least |
| `Growth.AmpleForLess` | aios/autil/autil/FlatHashmap.h:636-639 | memory that is ample for n items is ample for fewer, so that nested rehashes succeed too |
| `Growth.FlatEnough` | aios/autil/autil/FlatHashmap.h:636-639 | 2^k slots are enough for any k items in a flat table at half load, under the power-of-two and the Fibonacci policy, for every k >= 4 |
| `Growth.BytellEnough` | aios/autil/autil/BytellHashmap.h:853-856 | a power of two above the jump of index n+1, at least sixteen and loaded at most 15/16, is enough for any n items in a Bytell table, under the power-of-two and the Fibonacci policy |
| `Growth.PrimeNumberFits` | aios/autil/autil/FlatHashmap.h:879-1271 | a list of sizes serves every request up to any of its sizes that memory can hold |
| `JumpTable.JumpsAscend` | aios/autil/autil/BytellHashmap.h:29-176 | the 126 jump distances are strictly increasing |
| `JumpTable.JumpsAsChosen` | aios/autil/autil/BytellHashmap.h:38-176 | the first sixteen distances are 0 to 15, the next 66 consecutive triangular numbers, the other 44 triangular numbers |
| `Chains.OneSlotPerRank` | aios/autil/autil/BytellHashmap.h:437-461 | a chain has one slot at each depth, so chains are acyclic |
| `Chains.ChainHasRoot` | aios/autil/autil/BytellHashmap.h:437-461 | the chain of every item starts with a direct hit at the item's home |
| `Chains.EndIsDeepest` | aios/autil/autil/BytellHashmap.h:437-461 | nothing of a chain lies behind the slot that ends it |
| `Chains.AppendKeepsLinked` | aios/autil/autil/BytellHashmap.h:808-825 | linking a new entry behind the end of its chain keeps all chains whole |
| `Chains.RootKeepsLinked` | aios/autil/autil/BytellHashmap.h:760-806 | constructing a root in a free or vacated slot keeps all chains whole |
| `Chains.UnlinkKeepsLinked` | aios/autil/autil/BytellHashmap.h:577-599 | unlinking the end of a chain keeps all chains whole |
| `Chains.SameHomeKeepsLinked` | aios/autil/autil/BytellHashmap.h:577-599 | replacing an item by another of the same chain keeps all chains whole |
| `Chains.Move.Keeps` | aios/autil/autil/BytellHashmap.h:760-806 | one relocation step moves the cut of a severed chain one slot on, or closes it; all other chains are untouched |
| `BytellHashTable.BytellTable.constructor` | aios/autil/autil/BytellHashmap.h:877-882 | an unallocated table at load 15/16, with the asked buckets to come, stands for the empty map |
| `BytellHashTable.BytellTable.Probe` | aios/autil/autil/BytellHashmap.h:479-504 | following the chain of the home ends and finds the key exactly when the map has it; otherwise it tells the free home or the end of the chain |
| `BytellHashTable.BytellTable.Find` | aios/autil/autil/BytellHashmap.h:437-461 | the end position exactly when the key is absent, else the slot of the key and its value |
| `BytellHashTable.BytellTable.Emplace` | aios/autil/autil/BytellHashmap.h:479-504 | the old map plus the key if it was new, nothing changes if it was present; a refusal has a size that is too small for the keys and cannot grow; does not grow when the table is not full and the home is empty or a link from the end of the chain leads to an empty slot; within the load afterwards |
| `BytellHashTable.BytellTable.EmplaceDirectHit` | aios/autil/autil/BytellHashmap.h:760-806 | adds exactly the new key at its home, whatever foreign chain ran through it, also when relocation fails halfway; grows only if full or stuck |
| `BytellHashTable.BytellTable.EmplaceNewKey` | aios/autil/autil/BytellHashmap.h:808-825 | adds exactly the new key behind the end of its chain; grows exactly when the table is full or no link leads to an empty slot |
| `BytellHashTable.BytellTable.Vacate` | aios/autil/autil/BytellHashmap.h:760-806 | relocating a foreign chain tail loses and duplicates nothing; it frees the slot, or stops with a chain that cannot go on while two keys collide |
| `BytellHashTable.BytellTable.MoveOn` | aios/autil/autil/BytellHashmap.h:774-804 | one item goes to the free slot behind the relocated part; the slot is reserved as long as more of the chain follows |
| `BytellHashTable.BytellTable.FindFree` | aios/autil/autil/BytellHashmap.h:842-851 | an empty slot one jump away, or the proof that every jump leads to a taken slot |
| `BytellHashTable.BytellTable.FindParent` | aios/autil/autil/BytellHashmap.h:827-840 | the walk from the home ends at the predecessor of the given entry |
| `BytellHashTable.BytellTable.Grow` | aios/autil/autil/BytellHashmap.h:853-856 | the same map in strictly more slots, also from a table whose chains are in pieces |
| `BytellHashTable.BytellTable.Rehash` | aios/autil/autil/BytellHashmap.h:523-565 | the same map in at least the asked number of slots; a refusal has its cause in the memory |
| `BytellHashTable.BytellTable.Refill` | aios/autil/autil/BytellHashmap.h:545-562 | emplacing the items of the old slots, skipping empty and reserved ones, restores the whole map |
| `BytellHashTable.BytellTable.EraseAt` | aios/autil/autil/BytellHashmap.h:577-599 | removes exactly one key; the last item of its chain fills the hole and nothing else moves; the returned iterator is at the first item from the hole on, and which keys are still to come |
| `BytellHashTable.GoesOnWith` | aios/autil/autil/BytellHashmap.h:898-914 | after an erase iteration goes on with exactly the keys it had not reached, and once more the moved one if it came from a slot visited before |
| `BytellHashTable.BytellTable.Items` | aios/autil/autil/BytellHashmap.h:401-427 | iterating from the last slot down yields the items of the slots in falling order, each entry of the map once |
| `BytellHashTable.BytellTable.FindLast` | aios/autil/autil/BytellHashmap.h:723-758 | the end of a chain and its predecessor |
| `BytellHashTable.BytellTable.EraseInner` | aios/autil/autil/BytellHashmap.h:577-599 | moving the last chain member into the hole removes only the erased key |
| `BytellHashTable.BytellTable.EraseTail` | aios/autil/autil/BytellHashmap.h:577-599 | unlinking a chain's end through its parent removes only its key |
| `BytellHashTable.BytellTable.EraseRange` | aios/autil/autil/BytellHashmap.h:601-639 | removes exactly the keys between the two iterators and returns the first occupied slot from there on, into which an item may have moved |
| `BytellHashTable.BytellTable.EraseDeepestFirst` | aios/autil/autil/BytellHashmap.h:628-633 | erasing in order of falling depth removes exactly the listed keys, although each erase moves items |
| `BytellHashTable.BytellTable.DepthOf` | aios/autil/autil/BytellHashmap.h:611-626 | the walk along a chain counts the depth of a slot |
| `BytellHashTable.BytellTable.Advance` | aios/autil/autil/BytellHashmap.h:401-409 | the next occupied slot in iteration order, nothing between being occupied |
| `BytellHashTable.BytellTable.EraseKey` | aios/autil/autil/BytellHashmap.h:641-649 | the map without the key, and whether it was there |
| `BytellHashTable.BytellTable.Clear` | aios/autil/autil/BytellHashmap.h:651-667 | the empty map |
| `BytellHashTable.BytellTable.Run` | aios/autil/autil/BytellHashmap.h:437-667 | every run answers and ends as the same run on a map; a failure has an operation that memory refuses on the map it meets |
| `Jamming.NoFreeSlot` | aios/autil/autil/BytellHashmap.h:842-851 | a search for a free slot fails only in a table that is too small for its items |
| `Jamming.JamIsNotRoomy` | aios/autil/autil/BytellHashmap.h:842-851 | keys that can jam a table are too many for it in the worst case |
| `Jamming.ChainCollides` | aios/autil/autil/BytellHashmap.h:760-806 | a foreign chain can only stand in the way when two keys have the same home |
| `Jamming.EnoughForKeys` | aios/autil/autil/BytellHashmap.h:853-856 | memory that is enough for any n items refuses no n keys |
| `BytellHashTable.NoTableHolds` | aios/autil/autil/BytellHashmap.h:808-856 | no table of any size and policy holds two keys of one home and a key at home in every slot that a link from there leads to |
| `Overfull.TooManyOfOneHome` | aios/autil/autil/FlatHashmap.h:577-580 | no flat table below 2^(k+1) slots holds more than k keys of one home, k >= 4 |
| `Overfull.OverfillFlat` | aios/autil/autil/FlatHashmap.h:599-639 | emplacing more than k keys of one hash fails when there is no memory for 2^(k+1) slots, whatever the policy |
| `Overfull.FillFlat` | aios/autil/autil/FlatHashmap.h:410-639 | with memory for 2^k slots every run on a new table that emplaces at most k times succeeds and answers as a map, for every hash |
| `Overfull.EmplaceOneHash` | aios/autil/autil/FlatHashmap.h:599-639 | with memory for 2^k but not for 2^(k+1) slots, n keys of one hash go in exactly when n <= k |
| `Overfull.PatternFitsNowhere` | aios/autil/autil/BytellHashmap.h:808-856 | 127 given keys, two of hash 0 and one per jump distance, fit in no table whose policy takes remainders |
| `Overfull.OverfillBytell` | aios/autil/autil/BytellHashmap.h:808-856 | emplacing them fails whatever the memory |
| `Overfull.OverfillRemainder` | aios/autil/autil/BytellHashmap.h:808-856 | so it does for the power-of-two policy and for any list of prime sizes |
| `Overfull.FillBytell` | aios/autil/autil/BytellHashmap.h:479-856 | with memory for a power of two of slots above the jump of index n+1, every run on a new table that emplaces at most n times succeeds and answers as a map, for every hash |
| `Overfull.GoldenUndoes` | aios/autil/autil/FlatHashmap.h:1290-1305 | the multiplication of the Fibonacci policy can be undone, so a key can be aimed at any slot |
| `Overfull.AimedFitNowhere` | aios/autil/autil/BytellHashmap.h:808-856 | 7877 given keys, aimed at every jump of every table size, fit in no table of the Fibonacci policy |
| `Overfull.OverfillFibonacci` | aios/autil/autil/BytellHashmap.h:808-856 | emplacing them fails whatever the memory |
| `Spread.ApartTakes` | aios/autil/autil/FlatHashmap.h:599-634 | keys with different homes crowd nowhere |
| `Spread.FillFlatApart` | aios/autil/autil/FlatHashmap.h:410-639 | keys with different homes in every size from some size on go into a flat table at any number up to half of that size, if it can grow that far |
| `Spread.EmplaceApartFlat` | aios/autil/autil/FlatHashmap.h:410-639 | with memory for 2^k but not for 2^(k+1) slots, n keys with different homes in 2^k slots go in exactly when 2n <= 2^k |
| `Spread.ApartDoNotJam` | aios/autil/autil/BytellHashmap.h:760-851 | keys with different homes never need a free slot besides |
| `Spread.FillBytellApart` | aios/autil/autil/BytellHashmap.h:479-856 | the same for a Bytell table up to 15/16 of the size |
| `Spread.EmplaceApartBytell` | aios/autil/autil/BytellHashmap.h:479-856 | n keys with different homes in 2^k slots go in exactly when 16n <= 15 * 2^k |
| `Spread.EmplaceNumbers` | aios/autil/autil/FlatHashmap.h:410-639 | the first n numbers, each its own hash, in both tables with memory for 2^k slots |
| `Crc32c.StepsLinear` | aios/autil/autil/CRC32C.cpp:202-302 | advancing the register is linear in exclusive or |
| `Crc32c.Step1Updates` | aios/autil/autil/CRC32C.cpp:213-217 | a table step is eight bit steps of the polynomial division |
| `Crc32c.Step4Advances` | aios/autil/autil/CRC32C.cpp:220-225 | a stride step advances a lane by sixteen bytes and takes in its next word |
| `Crc32c.Step4WAdvances` | aios/autil/autil/CRC32C.cpp:238-245 | a word step advances by four bytes |
| `Crc32c.RotateAdvances` | aios/autil/autil/CRC32C.cpp:274-283 | feeding one lane and rotating the four is one word step on their combination |
| `Crc32c.SwathAdvances` | aios/autil/autil/CRC32C.cpp:228-235 | a step on all four lanes takes in the next sixteen bytes |
| `Crc32c.CombineByWords` | aios/autil/autil/CRC32C.cpp:285-290 | the four final word steps give the combination of the lanes |
| `Crc32c.Strides` | aios/autil/autil/CRC32C.cpp:257-291 | from an aligned position with at least sixteen bytes left, the stride loops compute the byte-at-a-time fold and leave fewer than four bytes |
| `Crc32c.Extend` | aios/autil/autil/CRC32C.cpp:202-302 | for every start value, length and alignment the result is the bit-by-bit checksum |
| `Crc32c.ChecksumContinues` | aios/autil/autil/CRC32C.h:16-19 | extending by a and then by b is extending by a followed by b |
| `CrcPolynomial.BitStepDivides` | aios/autil/autil/CRC32C.cpp:202-302 | a bit step multiplies the register by x and takes out the generator when the degree becomes 32 |
| `CrcPolynomial.FoldDivides` | aios/autil/autil/CRC32C.cpp:202-302 | the register after a message is what division by the generator leaves of the start register and the message |
| `CrcPolynomial.RemainderUnique` | aios/autil/autil/CRC32C.cpp:202-302 | a remainder modulo the generator is unique |
| `CrcPolynomial.ChecksumIsRemainder` | aios/autil/autil/CRC32C.cpp:202-302 | the complement of the checksum is the remainder of the message, its start complemented, modulo 0x11EDC6F41 over GF(2) |
| `CrcPolynomial.ChecksumOnly` | aios/autil/autil/CRC32C.cpp:202-302 | no other word is |
| `CrcPolynomial.TableValues` | aios/autil/autil/CRC32C.cpp:202-302 | two entries of the byte table |
| `CrcPolynomial.CheckValue` | aios/autil/autil/CRC32C.cpp:202-302 | the checksum of the digits 1 to 9 is 0xe3069283 |
| `VectorStorage.Storage.FromBuffer` | aios/matchdoc/VectorStorage.cpp:25-46 | the rows of a buffer are read back through chunk and offset |
| `VectorStorage.Storage.Put` | aios/matchdoc/VectorStorage.h:46-48 | writing through chunk and offset changes that row and no other |
| `VectorStorage.Storage.GrowToSize` | aios/matchdoc/VectorStorage.cpp:49-60 | old rows stay; the size is the request rounded up to whole chunks |
| `VectorStorage.Storage.Append` | aios/matchdoc/VectorStorage.cpp:64-69 | row i of the other storage is read at old size + i, own rows are unchanged, the other storage is empty |
| `DocIds.MergedFreeIds` | aios/matchdoc/MatchDocAllocator.cpp:985-1015 | the freed ids after a merge are distinct: own ones, the other's shifted, and the unused tail |
| `DocIds.MergedLive` | aios/matchdoc/MatchDocAllocator.cpp:985-1015 | the live ids after a merge are the old ones and the other's shifted by the old capacity |
| `DocIds.DocPool.Grow` | aios/matchdoc/MatchDocAllocator.cpp:592-597 | one more chunk, all rows kept |
| `DocIds.DocPool.GetOne` | aios/matchdoc/MatchDocAllocator.cpp:192-205 | the new id was not live and is the only one added: the last freed one, or a fresh one when none is freed |
| `DocIds.DocPool.ConstructDocs` | aios/matchdoc/MatchDocAllocator.cpp:1506-1545 | exactly the rows of the given ids are reset |
| `DocIds.DocPool.BatchAllocate` | aios/matchdoc/MatchDocAllocator.cpp:1506-1545 | as many distinct new ids as asked, behind those in the vector; unless advised against, the rows of the whole vector are reset, all other rows are kept |
| `DocIds.DocPool.TakeIds` | aios/matchdoc/MatchDocAllocator.cpp:1514-1535 | the last freed ids, or all of them and then fresh ones in order, none of them live |
| `DocIds.DocPool.Deallocate` | aios/matchdoc/MatchDocAllocator.cpp:554-564 | exactly the given live id is freed |
| `DocIds.DocPool.DeallocateAll` | aios/matchdoc/MatchDocAllocator.cpp:530-552 | the walk over the sorted freed ids visits every live document once, in rising order, and no freed one; the freed set stays the same |
| `DocIds.DocPool.AppendIds` | aios/matchdoc/MatchDocAllocator.cpp:985-1015 | live ids and rows of the other pool appear shifted by the old capacity |
| `DocIds.RunClient` | aios/matchdoc/MatchDocAllocator.cpp:192-564 | in every run with nested merges, the documents a client holds are pairwise different, exactly the live ones, and as many as its calls say |
| `SubLists.ListAcyclic` | aios/matchdoc/SubDocAccessor.h:74-86 | a linked list that ends visits no document twice |
| `SubLists.ListUnique` | aios/matchdoc/SubDocAccessor.h:74-86 | the links determine the list |
| `SubLists.LinkBehind` | aios/matchdoc/MatchDocAllocator.cpp:395-409 | hanging a document behind document k cuts off what followed k |
| `SubLists.LinkBehindAppends` | aios/matchdoc/MatchDocAllocator.cpp:395-409 | afterwards the links give the old list and the new document exactly when k was the last |
| `SubLists.RelocatedList` | aios/matchdoc/MatchDocAllocator.cpp:938-983 | shifting all links of appended rows shifts every list element by element |
| `SubLists.FlattenSlice` | aios/matchdoc/SubDocAccessor.h:108-129 | the shared position reaches each parent's own part of the flattened lists |
| `MatchDocs.MatchDocAllocator.AddSub` | aios/matchdoc/MatchDocAllocator.cpp:395-409 | the new state of the parent's fields and of the current sub-document's link |
| `MatchDocs.MatchDocAllocator.AllocateSub` | aios/matchdoc/MatchDocAllocator.cpp:384-388 | a fresh sub-document with its fields behind the current one; the list up to there is kept, no other row changes but for that link |
| `MatchDocs.MatchDocAllocator.AddSubToClone` | aios/matchdoc/MatchDocAllocator.cpp:359-409 | after a clone, adding a sub-document gives the copies and the new one as the list exactly when there is at most one copy |
| `MatchDocs.MatchDocAllocator.GetSubDocs` | aios/matchdoc/SubDocAccessor.h:108-117 | appends exactly the list of the parent |
| `MatchDocs.MatchDocAllocator.SetSubDocs` | aios/matchdoc/SubDocAccessor.h:119-129 | consumes exactly the parent's part of the vector and relinks its list |
| `MatchDocs.MatchDocAllocator.Relink` | aios/matchdoc/MatchDocAllocator.cpp:897-904 | every listed parent ends with its own list, shared or repeated parents included |
| `MatchDocs.MatchDocAllocator.MergeFrom` | aios/matchdoc/MatchDocAllocator.cpp:874-907 | each moved parent's list is the element-by-element shift of its old list and its first document is current; the live parents and sub-documents; all own rows and all fields are kept |
| `MatchDocs.MatchDocAllocator.MergeAllocatorOnlySame` | aios/matchdoc/MatchDocAllocator.cpp:874-907 | when a merge is refused, a no-op or done, and in each case the handles, the lists, the fields, the live parents and sub-documents, and which allocator counts as merged; a merge that does nothing leaves both as they were |
| `MatchDocs.MatchDocAllocator.IdleMerges` | aios/matchdoc/MatchDocAllocator.cpp:874-907 | any number of empty, self and refused merges changes nothing, and what each answers |
| `MatchDocs.MatchDocAllocator.MergeAfterIdle` | aios/matchdoc/MatchDocAllocator.cpp:874-907 | a merge after them answers and moves the documents as if it were the first |
| `MatchDocs.MatchDocAllocator.CloneWithSub` | aios/matchdoc/MatchDocAllocator.cpp:359-370 | fresh, disjoint copies of the same length and fields that end; the source parent, its list and its current are unchanged |
| `MatchDocs.MatchDocAllocator.CloneSubs` | aios/matchdoc/SubDocAccessor.h:193-213 | the copying loop builds the list of copies although each copy starts with the source's link |
| `MatchDocs.MatchDocAllocator.Deallocate` | aios/matchdoc/SubDocAccessor.h:177-191 | exactly the parent and its sub-documents are freed |
| `MatchDocs.MatchDocAllocator.DeleteSubs` | aios/matchdoc/SubDocAccessor.h:177-191 | exactly the listed sub-documents are freed; lists and the current sub-document are as before |
| `MatchDocs.MatchDocAllocator.DeallocateAll` | aios/matchdoc/MatchDocAllocator.cpp:530-564 | every live parent is visited once in rising order, and exactly the sub-documents of live parents are freed, each once |
| `DocRuns.TidyReplace` | aios/matchdoc/MatchDocAllocator.cpp:384-409 | adding to one list leaves every other list whole and disjoint |
| `DocRuns.MovedTidy` | aios/matchdoc/MatchDocAllocator.cpp:874-907 | the documents taken over by a merge keep disjoint lists of live sub-documents |
| `DocRuns.Run` | aios/matchdoc/MatchDocAllocator.cpp:264-907 | after every run of allocating, adding, cloning, merging and freeing, the documents, their fields and their sub-documents are as a simple account says, exactly the live ones, with pairwise disjoint lists of live sub-documents; a run can fail only when its documents, and two chunks for a merge and one for each further one, exceed the ids |
| `DocRuns.FreeAll` | aios/matchdoc/MatchDocAllocator.cpp:530-564 | freeing all documents of a client visits each once and frees exactly the sub-documents in their lists |
| `DocRuns.CloneThenAdd` | aios/matchdoc/MatchDocAllocator.cpp:359-409 | a document with sub-documents 1 and 2 is cloned and gets sub-document 3: the clone has 1 and 3 |
| `Varint.ParseEncode` | aios/autil/autil/Coding.cpp:55-124 | decoding an encoding followed by anything gives the value and the length of the encoding |
| `Varint.EncodeOf300` | aios/autil/autil/Coding.cpp:55-64 | 300 is encoded as ac 02 |
| `Varint.LenientVersusStrict` | aios/autil/autil/DataBuffer.h:587-772 | the two families of readers differ exactly when the continuation bits never end |
| `Varint.TenContinuations` | aios/autil/autil/DataBuffer.h:723-772 | ten bytes 0x80 are corrupt to the strict reader and zero to the lenient one |
| `Varint.LenientShortest` | aios/autil/autil/DataBuffer.h:570-772 | no value is read from fewer bytes than it is written in, overlong and cut-off varints included |
| `Varint.Encode32` | aios/autil/autil/Coding.cpp:21-47 | the unrolled 32-bit encoder gives the bytes of the general encoding |
| `Varint.EncodeVarint64` | aios/autil/autil/Coding.cpp:55-64 | the loop gives the bytes of the general encoding |
| `Varint.VarintLength` | aios/autil/autil/Coding.cpp:72-79 | the number of bytes of the encoding |
| `Varint.WriteVarint32` | aios/autil/autil/DataBuffer.h:541-568 | writes exactly the encoding and nothing outside five bytes |
| `Varint.WriteVarint64` | aios/autil/autil/DataBuffer.h:618-705 | the three-part unrolled writer writes exactly the encoding and nothing outside ten bytes |
| `Varint.GetVarint32` | aios/autil/autil/Coding.cpp:98-107 | fast path and fallback together are the strict five-byte reader |
| `Varint.GetVarint32Fallback` | aios/autil/autil/Coding.cpp:81-96 | the loop is the strict five-byte reader |
| `Varint.GetVarint64` | aios/autil/autil/Coding.cpp:109-124 | the strict ten-byte reader |
| `Varint.FromArray32` | aios/autil/autil/DataBuffer.h:587-616 | the unrolled reader is the lenient five-byte reader and stays in bounds |
| `Varint.Slow32` | aios/autil/autil/DataBuffer.cpp:29-63 | the bounds-checked reader is the lenient five-byte reader |
| `Varint.FromArray64` | aios/autil/autil/DataBuffer.h:723-772 | the unrolled reader over three parts is the lenient ten-byte reader and stays in bounds |
| `Varint.Slow64` | aios/autil/autil/DataBuffer.cpp:67-83 | the counting reader is the strict ten-byte reader |
| `DataBuffers.UnZigZag` | aios/autil/autil/DataBuffer.h:417-426 | undoes the zigzag mapping |
| `DataBuffers.ZigZagBits` | aios/autil/autil/DataBuffer.h:417-421 | on 64-bit words the left shift exclusive or the spread sign computes the zigzag mapping |
| `DataBuffers.UnZigZagBits` | aios/autil/autil/DataBuffer.h:422-426 | on 64-bit words the right shift exclusive or the spread lowest bit undoes it |
| `DataBuffers.ReadBack` | aios/autil/autil/DataBuffer.h:350-426 | every value is read back from its bytes, whatever follows |
| `DataBuffers.DataBuffer.Expand` | aios/autil/autil/DataBuffer.h:487-516 | the unread bytes are kept by the move and by the reallocation, the needed room is there, the doubling ends |
| `DataBuffers.DataBuffer.WriteU32` | aios/autil/autil/DataBuffer.h:398-410 | appends the encoding |
| `DataBuffers.DataBuffer.WriteI64` | aios/autil/autil/DataBuffer.h:417-426 | appends the encoding of the zigzag number |
| `DataBuffers.DataBuffer.WriteString` | aios/autil/autil/DataBuffer.h:350-361 | appends length and bytes |
| `DataBuffers.DataBuffer.ReadU32` | aios/autil/autil/DataBuffer.h:570-585 | the choice between fast and slow readers is the lenient reader; on bad data the position stays |
| `DataBuffers.DataBuffer.ReadVarint64` | aios/autil/autil/DataBuffer.h:707-721 | the choice between fast and slow readers is the lenient reader; bad data is skipped to the end |
| `DataBuffers.DataBuffer.ReadI64` | aios/autil/autil/DataBuffer.h:417-426 | the zigzag number of that |
| `DataBuffers.DataBuffer.ReadString` | aios/autil/autil/DataBuffer.h:350-361 | the bytes after the length, or failure when they are not all there |
| `DataBuffers.DataBuffer.Run` | aios/autil/autil/DataBuffer.h:350-516 | any interleaving of writes and reads of written values returns the values in order, one for each read |
| `Sections.MetaBack` | aios/autil/autil/DataBuffer.cpp:330-344 | the description of the sections is read back |
| `Sections.TrailerBack` | aios/autil/autil/DataBuffer.cpp:195-225 | flag, checksum, length and description are found from the end |
| `Sections.BuildSectionMeta` | aios/autil/autil/DataBuffer.cpp:292-301 | each section starts where the one before it ends |
| `Sections.SerializeWithSection` | aios/autil/autil/DataBuffer.cpp:133-177 | the container: main data, sections, description, header, flag |
| `Sections.DeserializeWithSection` | aios/autil/autil/DataBuffer.cpp:195-255 | for every byte string the outcome that `OpenExactly` and `OpenEnding` characterise |
| `Sections.OpenExactly` | aios/autil/autil/DataBuffer.cpp:227-255 | all of a string is main data exactly when it does not end with a description, its checksum and length, two bytes and b9 79 37 9e; it is corrupt exactly when it does and the description cannot be read |
| `Sections.OpenEnding` | aios/autil/autil/DataBuffer.cpp:227-255 | a string that ends like that opens to the sections of its description, and to the bytes before them |
| `Sections.RoundTrip` | aios/autil/autil/DataBuffer.cpp:133-255 | deserialising a container restores the main bytes and every named section's bytes |
| `Sections.FindByName` | aios/autil/autil/DataBuffer.cpp:85-91 | of sections with different names each is found by its name with its own bytes, and no other name is found |
| `Sections.ExtractSections` | aios/autil/autil/DataBuffer.cpp:215-225 | the sections by name; of two with one name the first stays |
| `Sections.RoundTripExactly` | aios/autil/autil/DataBuffer.cpp:133-255 | a container opens to its main length and its sections exactly when the description is shorter than 65536 bytes, whatever the checksum function |
| `Sections.LongNameFails` | aios/autil/autil/DataBuffer.cpp:133-255 | a container with one section of a 65536-byte name does not open to that section, whatever the checksum function |
| `Sections.MetaConsumes` | aios/autil/autil/DataBuffer.cpp:330-344 | no description is read from fewer bytes than it is written in |
| `Sections.LongMetaUnrecognised` | aios/autil/autil/DataBuffer.cpp:133-255 | what becomes of a description of 65536 bytes or more |
| `BlockPools.SpliceKeeps` | aios/autil/autil/BlockPool.h:99-126 | putting linked blocks in front of the free list gives their concatenation, acyclic |
| `BlockPools.CellOfChunk` | aios/autil/autil/BlockPool.cpp:75-90 | every block lies aligned and whole in one chunk |
| `BlockPools.BlockPool.Init` | aios/autil/autil/BlockPool.cpp:44-58 | accepted exactly for consistent sizes on a pool not yet initialised; otherwise nothing changes |
| `BlockPools.StringTogether` | aios/autil/autil/BlockPool.cpp:75-90 | the loop links all blocks of a chunk in address order and touches no other memory |
| `BlockPools.BlockPool.Split` | aios/autil/autil/BlockPool.cpp:75-90 | the free list is the chunk's blocks followed by the old list |
| `BlockPools.BlockPool.GetOneBigChunk` | aios/autil/autil/BlockPool.cpp:60-73 | one more chunk exactly when the system gives one, within the capacity |
| `BlockPools.BlockPool.GetBlock` | aios/autil/autil/BlockPool.h:68-83 | null exactly when nothing is free and no chunk can be had; else a block nobody has, the first of the list |
| `BlockPools.BlockPool.FreeBlock` | aios/autil/autil/BlockPool.h:85-97 | the block leads the free list; null is ignored |
| `BlockPools.BlockPool.Write` | aios/autil/autil/BlockPool.h:26-28 | a holder may overwrite the link word of its block without harm to the free list |
| `BlockPools.BlockPool.LinkBlocks` | aios/autil/autil/BlockPool.h:99-119 | outside the lock only the caller's own blocks are written |
| `BlockPools.BlockPool.SpliceBlocks` | aios/autil/autil/BlockPool.h:121-126 | under the lock the linked blocks lead the free list |
| `BlockPools.BlockPool.FreeBlocks` | aios/autil/autil/BlockPool.h:99-126 | exactly the non-null blocks are freed, in order |
| `BlockPools.BlockPool.Conservation` | aios/autil/autil/BlockPool.h:68-126 | free bytes plus used bytes are the bytes of the chunks, at most the capacity; no block is both free and handed out |
| `BlockPools.BlockPool.NeedFreeSize` | aios/autil/autil/BlockPool.h:134-136 | never underflows; returning that much brings the free space to the threshold, and not beyond |
| `BlockPools.Run` | aios/autil/autil/BlockPool.h:68-126 | in every interleaving of the threads' steps, writes into held blocks included, the pool stays sound, every handed-out block has one owner, vectors linked before the lock stay linked, and each step does what it should |
| `BlockCaches.WindowSlides` | aios/autil/autil/BlockCache.cpp:110-130 | sliding the window counts the new outcome in and the outgoing one out |
| `BlockCaches.BlockCache.Get` | aios/autil/autil/BlockCache.cpp:110-130 | totals and running count follow the history of lookups |
| `BlockCaches.RunLookups` | aios/autil/autil/BlockCache.cpp:110-130 | after any run the running count is the hits among the last thousand, whatever the ring held at first |

## Left out

- Termination of hash-table growth for every hash: the model has an allocator limit, requests beyond it fail, and nothing is claimed of a table after a failed request.
- FlatTable, BytellTable: erasing a range is not one of the operations of a run, as which keys are in a range depends on the slots; load factors are exact reals rather than floats; iterators are slot positions; equality of keys is `==`; copying, moving, swapping and the user-set load factor are not modelled.
- BytellHashTable.BytellTable.Emplace: which arrangement a Bytell table has depends on its history, so a refusal is told by an arrangement of the keys that is stuck, not by the keys alone; keys and values hold no references.
- BytellTable: blocks of control bytes and items are one slot array padded to whole blocks.
- The list of primes and the 256-entry CRC tables are not spelled out: any ascending size list is covered, and the tables are the functions they tabulate.
- `Crc32c.Extend`: start values, lengths and alignments are all covered; prefetching and the hardware instruction are not modelled.
- MatchDocs: the fields of a document other than the list links are one value per row, so field groups, references, mount points and their construction are not modelled; whether two allocators have the same fields is a parameter; the copying merge path for different fields is not modelled; ids stay below the invalid id, which `DocPool.HasIds` asks of calls that take ids for sub-documents.
- MatchDocs.MatchDocAllocator.MergeFrom: asks that the rows of both sub-document pools together stay below the invalid id, as the moved ids must.
- MatchDocs.MatchDocAllocator.AddSub: asks that the current sub-document be in range, as the code relies on.
- DocRuns.Run: a merge step takes over all documents of the other allocator; documents left out of a merge are not followed.
- DocIds.DocPool.GetOne: freed rows keep their old contents until constructed; the deleted mark of a handle is not modelled.
- DataBuffer: arithmetic types, containers, maps and user types that are written through the same byte operations; shared (not owned) buffers, which the code never expands; overflow of buffer sizes beyond the machine word.
- Varint: shifts and disjoint ors are written as products, quotients and sums; the exclusive ors of the zigzag mapping are bitwise.
- Sections: compression and the checksum function, which is a parameter.
- `Sections.RoundTrip`: asks for a description shorter than 65536 bytes, the width of the header field; `Sections.LongMetaUnrecognised` says what happens otherwise.
- BlockPools: the mutex is the atomicity of a step; the memory map call is a parameter that must not overlap chunks in use; the free count is not cut to 32 bits.
- BlockCaches: only lookups; putting and replacing blocks rely on other classes, and the counters' updates by several threads at once are not modelled.
- Logging, formatting, file recording, compression, MD5, the query engine, index storage and network services of the repository.
