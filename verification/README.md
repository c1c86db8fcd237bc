# OpenNI container and event layer: a verified model

This project models the containers, events, smart handles and frame buffers in the vendored OpenNI
headers, and proves what they are there to guarantee. Every file declares one module, named after the
header it models where there is one.

- `XnListT`, `XnList`: the circular lists, as rings of heap nodes with an anchor. A ring refines the
  sequence of its values; `XnList` takes its nodes from a pool.
- `XnKeyTable`: hash tables on values. Bins are sequences of pairs; the table stands for a finite map
  from key classes (keys that compare to 0) to values. It also holds the order of iteration.
- `XnHashT`, `XnHash`: the two hash tables on the heap. All 257 bins are separate rings; each method is
  proved against the table on values, so it inherits the map refinement. `XnHash` adds the node pool
  and the iterator that steps both ways.
- `XnUInt32`, `XnArray`, `XnBitSet`: 32-bit arithmetic by binary digits, with wrap-around written out;
  the growable array; the bit set.
- `XnAlgorithms`: the bubble sort.
- `XnEventSpec`, `XnEventT`, `XnEventThreads`: the event on values, the event object, and many threads
  on one event under its recursive lock, as a transition system. `XnEventCalls` tells, from the actions of
  the callers alone, what becomes of each call that is begun.
- `XnMetaData`, `XnNodeWrapper`: copy-on-write frames, and smart handles with their reference counts.

Whether memory is available, the addresses a memory manager hands out, what handlers do and what a key
manager computes are parameters, or are left open, so a theorem holds for every behaviour of theirs.
Positions in a ring (`ghost p`, `ghost i`) accompany node arguments in contracts only.

Where code and comments disagree, or the code does not do what one would expect, the model follows the code:

- `Reserve` above 2^31 computes size 0 (`XnUInt32.NextPowerCovers`), after which `XnArray` writes beyond its buffer.
  `Array.Valid` includes that this has not happened, and each contract says exactly when it does.
- `XnArray` records its base size without looking whether it got the base buffer (`XnArray.Array.constructor`,
  `XnArray.Array.Clear`).
- `XnBitSet::SetSize` says it sets all bits to 0 and sets the size. It zeroes only the words it adds and
  leaves the size in bits alone (`XnBitSet.BitSet.SetSize`).
- `XnBitSet::Set` of index 2^32 - 1 wraps the size, so this one index can be set without lying below
  the size (`XnBitSet.BitSet.Set`).
- `SetDataBytes` drops up to three trailing bytes, and reads four bytes even when given fewer
  (`XnBitSet.DecodesExactly` says exactly when that makes no difference). Given one byte it records size 8, so an
  index read from the other three lies beyond the size (`XnBitSet.BitSet.SetDataBytes`).
- A handle unregistered twice stays queued for removal; a later registration that receives the same
  address is lost (`XnEventSpec.RegisterLaw`, `XnEventSpec.ReusedAddressLosesRegistration`).
- `ApplyListChanges` ignores a failed addition, which loses the callback object (`XnEventSpec.AdditionsLost`).
- `XnListT`, `XnHashT`: assigning a container to itself clears it, and an assignment that runs out of memory leaves
  a partial copy: exactly the entries that found memory (`XnListT.List.Assign`, `XnHashT.HashT.Assign`).
- `XnHash` writes to the base node of a new bin without looking whether it got one (`XnHash.Hash.Set`, `wild`).
- `BubbleSort` exchanges elements that compare equal, so it is not stable. It does not simply reverse them
  either: a greater element can make it turn them twice (`XnAlgorithms.LowerTiesMayStay`). Exactly when it
  reverses them is `XnAlgorithms.ReversedExactly`.
- `XnHash`: `--` from the first entry leads to `end()`, and both steps stay at `end()` from there.
- `DepthMetaData::CopyFrom` that runs out of memory leaves a shallow copy behind (`XnMetaData.MetaData.CopyFrom`).
- `MakeDataWritable` copies out of the buffer it has just freed if and only if the data is the own buffer,
  that buffer is smaller than the recorded size and a new one can be allocated
  (`XnMetaData.MetaData.MakeDataWritable`, `stale`).

## Model

| member | source | states |
|---|---|---|
| `XnListT.List.RingWalk` | vm_deps/openni/Include/XnListT.h:355-406 | following `pNext` from the anchor meets `size` different nodes, none of them the anchor, in the order of the values; `pPrev` walks the same nodes backwards |
| `XnListT.List.RingCloses` | vm_deps/openni/Include/XnListT.h:562-573 | after `size + 1` steps either way the walk is back at the anchor, also on an empty list |
| `XnListT.List.InsertAfter` | vm_deps/openni/Include/XnListT.h:541-560 | ring stays whole; the values are the old ones with the new one inserted; a failed allocation changes nothing |
| `XnListT.List.AddAfter` | vm_deps/openni/Include/XnListT.h:355-363 | sequence insertion behind an iterator; the end is refused with ILLEGAL_POSITION |
| `XnListT.List.AddBefore` | vm_deps/openni/Include/XnListT.h:374-382 | sequence insertion in front of an iterator; the end is refused |
| `XnListT.List.AddFirst` | vm_deps/openni/Include/XnListT.h:391-394 | prepends |
| `XnListT.List.AddLast` | vm_deps/openni/Include/XnListT.h:403-406 | appends |
| `XnListT.List.Find` | vm_deps/openni/Include/XnListT.h:415-424 | the iterator of the first occurrence, or the end exactly when there is none |
| `XnListT.List.Remove` | vm_deps/openni/Include/XnListT.h:446-466 | sequence deletion at the iterator; the end is refused and changes nothing |
| `XnListT.List.RemoveValue` | vm_deps/openni/Include/XnListT.h:475-486 | deletes the first occurrence; NO_MATCH exactly when the value is absent |
| `XnListT.List.Clear` | vm_deps/openni/Include/XnListT.h:491-497 | terminates with an empty ring |
| `XnListT.List.CopyTo` | vm_deps/openni/Include/XnListT.h:521-530 | the array starts with the values in order, the rest of it is untouched |
| `XnListT.List.Assign` | vm_deps/openni/Include/XnListT.h:262-280 | the entries whose allocation succeeds are copied, in order, the source unchanged; assigning a list to itself clears it |
| `XnListT.PickedAll` | vm_deps/openni/Include/XnListT.h:268-272 | such a copy is the whole source if and only if every allocation succeeds |
| `XnList.PooledList.Add` | vm_deps/openni/Include/XnList.h:526-547 | insertion with the node taken from the pool, which succeeds if and only if the pool did not refuse the node; either way the pool nodes held elsewhere are as many as before |
| `XnList.PooledList.AddFirst` | vm_deps/openni/Include/XnList.h:249-252 | prepends, or changes nothing; succeeds if and only if the pool did not refuse the node |
| `XnList.PooledList.AddLast` | vm_deps/openni/Include/XnList.h:261-264 | appends, or changes nothing; succeeds if and only if the pool did not refuse the node |
| `XnList.PooledList.AddAfter` | vm_deps/openni/Include/XnList.h:275-283 | insertion behind an iterator, the end refused; otherwise succeeds if and only if the pool did not refuse the node |
| `XnList.PooledList.AddBefore` | vm_deps/openni/Include/XnList.h:293-301 | insertion in front of an iterator, the end refused; otherwise succeeds if and only if the pool did not refuse the node |
| `XnList.PooledList.Find` | vm_deps/openni/Include/XnList.h:311-325 | first occurrence or the end |
| `XnList.PooledList.Remove` | vm_deps/openni/Include/XnList.h:373-395 | deletion, the node going back to the pool |
| `XnList.PooledList.Clear` | vm_deps/openni/Include/XnList.h:401-407 | terminates empty, every node but the base back in the pool |
| `XnList.PooledList.Size` | vm_deps/openni/Include/XnList.h:420-427 | walking the ring counts what `XnListT` caches |
| `XnKeyTable.DefaultCompareClasses` | vm_deps/openni/Include/XnHashT.h:67-70 | the truncated 64-bit difference is 0 exactly for keys that agree in their low 32 bits |
| `XnKeyTable.DefaultCompareIs` | vm_deps/openni/Include/XnHashT.h:67-70 | the result is the difference of the keys modulo 2^32, read as a signed 32-bit number |
| `XnKeyTable.DefaultHashRespectsClasses` | vm_deps/openni/Include/XnHashT.h:62-65 | keys of one class have one hash (what that hash makes of the order is `DefaultOrder`) |
| `XnKeyTable.DefaultKeyManagerLawful` | vm_deps/openni/Include/XnHashT.h:58-71 | the default manager compares by an equivalence that its hash respects |
| `XnKeyTable.DefaultOrder` | vm_deps/openni/Include/XnHashT.h:62-65 | every table with the default manager is iterated in the order of the low bytes of its keys |
| `XnKeyTable.SetRefines` | vm_deps/openni/Include/XnHashT.h:382-411 | on every well-formed table, Set is update of the finite map of key classes, and keeps one entry per class |
| `XnKeyTable.RemoveRefines` | vm_deps/openni/Include/XnHashT.h:607-618 | Remove takes exactly the class of the key out of the map |
| `XnKeyTable.GetRefines` | vm_deps/openni/Include/XnHashT.h:491-503 | looking a key up in its bin is looking its class up in the map |
| `XnKeyTable.RunRefines` | vm_deps/openni/Include/XnHashT.h:382-629 | every run of Set, operator[], Remove and Clear over the bins is the same run over one finite map |
| `XnKeyTable.EntriesEnumerate` | vm_deps/openni/Include/XnHashT.h:642-649 | iteration order lists every class of the map exactly once with its value; the number of entries is the cardinality of the map |
| `XnKeyTable.PositionOrder` | vm_deps/openni/Include/XnHashT.h:112-136 | positions grow with the bin and, in a bin, with insertion order |
| `XnKeyTable.RunSpreads` | vm_deps/openni/Include/XnHashT.h:382-629 | after every run each bin holds the pairs with its hash from one list of all pairs, in which a new key comes last, a known one keeps its place and its first key, and a removed one is taken out |
| `XnHashT.ConstIterator.constructor` | vm_deps/openni/Include/XnHashT.h:95-103 | an iterator made at the end of a bin stands at the next stored pair or at the end |
| `XnHashT.ConstIterator.Increment` | vm_deps/openni/Include/XnHashT.h:112-136 | arrives at the pair that follows, past missing and empty bins, or at the end |
| `XnHashT.HashT.constructor` | vm_deps/openni/Include/XnHashT.h:306-309 | a new table stores nothing |
| `XnHashT.HashT.Set` | vm_deps/openni/Include/XnHashT.h:382-411 | the rings of all bins stay whole and disjoint, the table becomes `SetTable` of the old one; fails exactly when a needed allocation fails, and then stores nothing; the bin exists afterwards exactly when it did or could be made |
| `XnHashT.HashT.Find` | vm_deps/openni/Include/XnHashT.h:420-453 | the iterator of the pair whose key compares equal, or the end |
| `XnHashT.HashT.Get` | vm_deps/openni/Include/XnHashT.h:491-503 | the stored value, or NO_MATCH with the output untouched |
| `XnHashT.HashT.Index` | vm_deps/openni/Include/XnHashT.h:576-590 | the node of the key, an absent key being added first; without memory for that, the end node and an unchanged table |
| `XnHashT.HashT.Remove` | vm_deps/openni/Include/XnHashT.h:592-605 | deletes the pair at the iterator; the end is refused |
| `XnHashT.HashT.RemoveKey` | vm_deps/openni/Include/XnHashT.h:607-618 | the table becomes `RemoveTable` of the old one; NO_MATCH exactly for an absent key |
| `XnHashT.HashT.Clear` | vm_deps/openni/Include/XnHashT.h:623-629 | terminates with an empty table |
| `XnHashT.HashT.Begin` | vm_deps/openni/Include/XnHashT.h:347-358 | position 0: starting at `m_nMinBin` loses nothing |
| `XnHashT.HashT.End` | vm_deps/openni/Include/XnHashT.h:363-374 | the position behind the last pair |
| `XnHashT.HashT.IsEmpty` | vm_deps/openni/Include/XnHashT.h:634-637 | true exactly when nothing is stored, whatever empty bins there are |
| `XnHashT.HashT.SameNode` | vm_deps/openni/Include/XnHashT.h:199-202 | comparing nodes alone decides whether two iterators are at the same place |
| `XnHashT.HashT.AtEnd` | vm_deps/openni/Include/XnHashT.h:363-374 | `it == End()` holds exactly at the last position |
| `XnHashT.HashT.Next` | vm_deps/openni/Include/XnHashT.h:112-136 | `++it` advances the position by one, and then equals End() exactly when every pair was passed |
| `XnHashT.HashT.Size` | vm_deps/openni/Include/XnHashT.h:642-649 | terminates with the cardinality of the map |
| `XnHashT.HashT.CopyFrom` | vm_deps/openni/Include/XnHashT.h:323-327 | the copying loop ends with every pair of the source passed and the copy at its last stage |
| `XnHashT.HashT.Assign` | vm_deps/openni/Include/XnHashT.h:317-330 | whatever the target held, it ends with exactly those pairs of the source that find memory, the source unchanged; it has the same bins, so the same map and iteration sequence, if and only if every pair finds a node and a bin, where the bin existed before or could be made for that pair or an earlier one of its hash; assigning a table to itself clears it |
| `XnKeyTable.CopyIsTable` | vm_deps/openni/Include/XnHashT.h:323-327 | setting the pairs of a table one by one, in iteration order, on an empty one gives the same bins if and only if none fails |
| `XnKeyTable.SomeIsPart` | vm_deps/openni/Include/XnHashT.h:323-327 | when some fail, the copy holds nothing but what the source holds, and at most one pair for each success |
| `XnKeyTable.NotYetCopied` | vm_deps/openni/Include/XnHashT.h:399-410 | the key of the next pair is not in a partial copy, so Set has to add it |
| `XnKeyTable.CopyHolds` | vm_deps/openni/Include/XnHashT.h:323-327 | a copy with limited memory holds the pairs that find a node and a bin, and only those |
| `XnKeyTable.CopyIsExact` | vm_deps/openni/Include/XnHashT.h:323-327 | such a copy is the source if and only if every pair finds its memory |
| `XnHash.StepsAreInverse` | vm_deps/openni/Include/XnHash.h:88-137 | between two entries, `++` leads from one to the other exactly when `--` leads back |
| `XnHash.StepsAreFunctions` | vm_deps/openni/Include/XnHash.h:88-137 | either step leads to one place only |
| `XnHash.PrecedesPosition` | vm_deps/openni/Include/XnHash.h:117-137 | `--` lowers the position by one, and leads to the end exactly from the first entry |
| `XnHash.ConstIterator.constructor` | vm_deps/openni/Include/XnHash.h:209-222 | finds the first valid entry from the given place on |
| `XnHash.ConstIterator.Increment` | vm_deps/openni/Include/XnHash.h:88-102 | arrives at the following entry or the end, past any missing and empty bins |
| `XnHash.ConstIterator.Decrement` | vm_deps/openni/Include/XnHash.h:117-137 | arrives at the preceding entry, or at the end from the first one; both loops terminate |
| `XnHash.ConstIterator.SkipBackward` | vm_deps/openni/Include/XnHash.h:121-135 | the outer loop: from the anchor of a bin to the last entry of the nearest lower bin that has one, or to the end |
| `XnHash.ConstIterator.ForthAndBack` | vm_deps/openni/Include/XnHash.h:88-137 | `++` then `--` is the identity on every entry that another one follows |
| `XnHash.ConstIterator.BackAndForth` | vm_deps/openni/Include/XnHash.h:88-137 | `--` then `++` is the identity on every entry that another one precedes |
| `XnHash.Hash.Walk` | vm_deps/openni/Include/XnHash.h:699-713 | the list iterator and the table iterator stay in step until a match or the end of the bin |
| `XnHash.Hash.Find` | vm_deps/openni/Include/XnHash.h:699-713 | OK exactly for a stored key, with the iterator at its entry; for a bin that does not exist the caller keeps its iterator |
| `XnHash.Hash.FindKey` | vm_deps/openni/Include/XnHash.h:579-582 | the same, with the hash computed from the key |
| `XnHash.Hash.Set` | vm_deps/openni/Include/XnHash.h:374-433 | fails if and only if the pool refused a node or a new list could not be had, and then stores nothing; otherwise the table becomes `SetTable` of the old one; pool nodes outstanding stay one per bin plus three per entry either way; all this if and only if no new bin is left without its base node |
| `XnHash.Hash.AddEntry` | vm_deps/openni/Include/XnHash.h:402-432 | fails if and only if the pool refused a node; nodes taken before the failure are given back |
| `XnHash.Hash.ReplaceValue` | vm_deps/openni/Include/XnHash.h:383-387 | replacing a value costs no node |
| `XnHash.Hash.Get` | vm_deps/openni/Include/XnHash.h:443-456 | the stored value, or NO_MATCH |
| `XnHash.Hash.Remove` | vm_deps/openni/Include/XnHash.h:514-537 | deletes the entry; its three nodes return to the pool |
| `XnHash.Hash.Begin` | vm_deps/openni/Include/XnHash.h:606-617 | position 0: starting at the least created bin loses nothing |
| `XnHash.Hash.RemoveKey` | vm_deps/openni/Include/XnHash.h:466-481 | removes the class of the key and hands back its value |
| `XnHash.Hash.Clear` | vm_deps/openni/Include/XnHash.h:543-549 | terminates empty, with only the base nodes of the bins outstanding |
| `XnHash.Hash.Size` | vm_deps/openni/Include/XnHash.h:562-569 | terminates with the cardinality of the map |
| `XnUInt32.SmearStep` | vm_deps/openni/Include/XnArray.h:113-117 | one shift-or step doubles the number of leading ones |
| `XnUInt32.SmearFills` | vm_deps/openni/Include/XnArray.h:112-117 | the five steps turn every digit of a 32-bit number into a one |
| `XnUInt32.NextPowerIsLeast` | vm_deps/openni/Include/XnArray.h:111-118 | for every size from 1 to 2^31 the result is the smallest power of two that is at least the size |
| `XnUInt32.NextPowerCovers` | vm_deps/openni/Include/XnArray.h:111-118 | the result covers the size exactly up to 2^31; above that the increment wraps to 0 |
| `XnUInt32.ComplementMasked` | vm_deps/openni/Include/XnBitSet.h:48-48 | `(~nIndex) & 0x1F` is 31 minus the low five bits |
| `XnUInt32.ComplementDigit` | vm_deps/openni/Include/XnBitSet.h:50-50 | a complement has exactly the digits the number has not |
| `XnArray.Array.constructor` | vm_deps/openni/Include/XnArray.h:45-48 | empty, with the base capacity recorded also when the buffer could not be had; valid if and only if it could, or none is needed |
| `XnArray.Array.RoundUp` | vm_deps/openni/Include/XnArray.h:111-118 | the in-place cascade computes that power modulo 2^32 |
| `XnArray.Array.Reserve` | vm_deps/openni/Include/XnArray.h:107-138 | contents and size are kept, the capacity covers the size asked for and is the least power of two when it grew; a failed allocation changes nothing; for a size that does not fit the new buffer is empty, and any element is copied beyond its end |
| `XnArray.Array.SetMinSize` | vm_deps/openni/Include/XnArray.h:177-186 | never shrinks, the old contents being a prefix of the new ones; the array stays valid if and only if the size fits: at most 2^31, or at most the capacity |
| `XnArray.Array.SetSize` | vm_deps/openni/Include/XnArray.h:154-161 | the size asked for, the elements that fit unchanged; the array stays valid if and only if the size fits: at most 2^31, or at most the capacity |
| `XnArray.Array.SetMinSizeFill` | vm_deps/openni/Include/XnArray.h:191-205 | extends with the fill value only, never shrinks; the array stays valid if and only if the size fits: at most 2^31, or at most the capacity |
| `XnArray.Array.SetSizeFill` | vm_deps/openni/Include/XnArray.h:165-172 | cuts or extends with the fill value; the array stays valid if and only if the size fits: at most 2^31, or at most the capacity |
| `XnArray.Array.SetFill` | vm_deps/openni/Include/XnArray.h:226-232 | writes one element, filling the gap it opens; the write stays inside the buffer if and only if the index is below 2^31 or the capacity |
| `XnArray.Array.Set` | vm_deps/openni/Include/XnArray.h:217-223 | writes one element and keeps every other old one; inside the buffer if and only if the index is below 2^31 or the capacity |
| `XnArray.Array.AddLast` | vm_deps/openni/Include/XnArray.h:235-238 | appends, size, capacity and copies following `Appended`, if and only if the size is below 2^31 or the capacity |
| `XnArray.Array.SetData` | vm_deps/openni/Include/XnArray.h:81-91 | the contents become those of the source; valid if and only if the array had to grow and the source has at most 2^31 elements, or else the base buffer could be had |
| `XnArray.Array.Clear` | vm_deps/openni/Include/XnArray.h:255-259 | empty, with the base capacity; valid if and only if the base buffer could be had |
| `XnArray.AppendInvariant` | vm_deps/openni/Include/XnArray.h:107-138 | after n appends the copies made are below a capacity that is at most twice the size |
| `XnArray.AppendsAreCheap` | vm_deps/openni/Include/XnArray.h:217-238 | n appends copy fewer than 2n elements, whatever the base size |
| `XnArray.CapacityIsPower` | vm_deps/openni/Include/XnArray.h:300-305 | from the base size of 8 the capacity is always a power of two |
| `XnBitSet.SetMembers` | vm_deps/openni/Include/XnBitSet.h:45-55 | changing one bit of zero-extended words changes the membership of that index only |
| `XnBitSet.ResizedMembers` | vm_deps/openni/Include/XnBitSet.h:39-42 | resizing keeps the indices that still fit and revives none |
| `XnBitSet.PackedMembers` | vm_deps/openni/Include/XnBitSet.h:84-87 | dword packing and masked lookup compose to plain MSB-first order |
| `XnBitSet.DecodesExactly` | vm_deps/openni/Include/XnBitSet.h:78-90 | the bits are those of the given bytes if and only if the bytes left out, or read beyond them, are zero; so always for a positive multiple of four |
| `XnBitSet.DwordsAre` | vm_deps/openni/Include/XnBitSet.h:78-90 | the bytes read: the length cut to a multiple of four, and four when it is less |
| `XnBitSet.BytesBelow` | vm_deps/openni/Include/XnBitSet.h:78-90 | no index reaches 8 n exactly when the bytes from the n-th on are zero |
| `XnBitSet.WordsBelow` | vm_deps/openni/Include/XnBitSet.h:69-75 | no index reaches 32 n exactly when the words from the n-th on are zero |
| `XnBitSet.BitSet.Set` | vm_deps/openni/Include/XnBitSet.h:45-55 | the set gains or loses exactly the index; set indices stay below the size if and only if the call does not set index 2^32 - 1 |
| `XnBitSet.BitSet.IsSet` | vm_deps/openni/Include/XnBitSet.h:58-66 | decides membership, false beyond the array |
| `XnBitSet.BitSet.SetSize` | vm_deps/openni/Include/XnBitSet.h:39-42 | drops the indices of the words cut off and adds none; there is one word more than whole words in the size, and the recorded size is not touched |
| `XnBitSet.BitSet.SetData` | vm_deps/openni/Include/XnBitSet.h:69-75 | the set is that of the words, a failure leaving it empty; all indices lie below the recorded size if and only if the words that the wrapped size leaves out are zero |
| `XnBitSet.BitSet.SetDataBytes` | vm_deps/openni/Include/XnBitSet.h:78-90 | the set is that of the bytes read, in MSB-first order: the bytes given without the last one to three that fill no dword, or four when fewer are given; all indices lie below the recorded size if and only if the bytes read beyond it are zero |
| `XnBitSet.BitSet.Clear` | vm_deps/openni/Include/XnBitSet.h:117-121 | the empty set, size 0; valid if and only if the base buffer could be had |
| `XnAlgorithms.Pass` | vm_deps/openni/Include/XnAlgorithms.h:53-67 | the row becomes `Carried` of the old one for every comparer, and a swap is reported exactly when some comparison exchanged |
| `XnAlgorithms.CarriedAt` | vm_deps/openni/Include/XnAlgorithms.h:53-67 | for every comparer, what a pass leaves at each place: the element it holds stays where it is relieved or at the end, all others it passes move up by one; elements that compare equal are exchanged |
| `XnAlgorithms.HeldIsFirst` | vm_deps/openni/Include/XnAlgorithms.h:53-67 | under a strict weak order the element a pass carries to the end is the first of the greatest |
| `XnAlgorithms.LowerTies` | vm_deps/openni/Include/XnAlgorithms.h:53-67 | what a pass that meets an element behind x does to the ties of x: the first of those that stand before it goes behind the others of those, the rest keep their order |
| `XnAlgorithms.TiesTurned` | vm_deps/openni/Include/XnAlgorithms.h:42-70 | where the elements that compare equal to x end up, for every x: as the first passes leave them, one for each element behind x, and then turned round |
| `XnAlgorithms.ReversedExactly` | vm_deps/openni/Include/XnAlgorithms.h:42-70 | so they end up in reverse if and only if those first passes leave them in their order |
| `XnAlgorithms.GreatestTurned` | vm_deps/openni/Include/XnAlgorithms.h:42-70 | which is always so for ties that nothing comes behind |
| `XnAlgorithms.NothingToldApart` | vm_deps/openni/Include/XnAlgorithms.h:42-70 | a comparer that tells nothing apart reverses the row |
| `XnAlgorithms.LowerTiesMayStay` | vm_deps/openni/Include/XnAlgorithms.h:42-70 | (5, 0), (5, 1), (7, 2), compared by the first component, end up as they were: lower ties can be turned twice |
| `XnAlgorithms.BubbleSort` | vm_deps/openni/Include/XnAlgorithms.h:42-70 | for every comparer at most `nCount` passes, each starting with n >= 1, and the row ends as those passes leave it; a permutation, sorted under a strict weak order, with the ties of each element where `TiesTurned` says; exactly `nCount` passes and the row reversed when nothing is told apart |
| `XnEventSpec.RegisterLaw` | vm_deps/openni/Include/XnEventT.h:68-94 | a registration is appended to the list in effect if and only if its address is not queued for removal |
| `XnEventSpec.FreshRegisterAppends` | vm_deps/openni/Include/XnEventT.h:68-94 | with handles never reused, over every run Register appends to the list in effect |
| `XnEventSpec.ReusedAddressLosesRegistration` | vm_deps/openni/Include/XnEventT.h:96-117 | unregistering twice and then getting the address again loses the new registration |
| `XnEventSpec.FollowsUnlessLost` | vm_deps/openni/Include/XnEventT.h:68-202 | throughout a run the list in effect is the fold of the calls (append, take out, unchanged, empty) if and only if no registration receives an address queued for removal and no application misses an addition |
| `XnEventSpec.QueuesApart` | vm_deps/openni/Include/XnEventT.h:96-117 | as long as no registration is lost, nothing waits both to be added and to be removed |
| `XnEventSpec.FreshRunLosesNone` | vm_deps/openni/Include/XnEventT.h:68-117 | which is so when no address is issued twice, only issued handles are unregistered, and every addition finds memory |
| `XnEventSpec.UnregisterLaw` | vm_deps/openni/Include/XnEventT.h:96-117 | the list in effect loses exactly that handle |
| `XnEventSpec.ApplyLaw` | vm_deps/openni/Include/XnEventT.h:169-189 | the callback list becomes the list in effect, which stays as it is, and both queues are emptied |
| `XnEventSpec.AdditionsLost` | vm_deps/openni/Include/XnEventT.h:174-186 | applying the queues leaves every callback object owned, freed or lost; none is lost if and only if there is memory for every queued addition |
| `XnEventSpec.RunConserves` | vm_deps/openni/Include/XnEventT.h:68-202 | over every run each callback object issued is owned in exactly one place, was freed exactly once, or was lost for want of memory |
| `XnEventSpec.StepFreesOwned` | vm_deps/openni/Include/XnEventT.h:152-202 | a step frees only what the event owned, each object once, and owns it no longer |
| `XnEventSpec.CallsKeepCallbacks` | vm_deps/openni/Include/XnEventT.h:266-270 | handlers cannot change the list that is being called |
| `XnEventSpec.RequestsReplay` | vm_deps/openni/Include/XnEventT.h:68-117 | what one handler asks for is replayed on the list in effect, request by request |
| `XnEventSpec.CallsReplay` | vm_deps/openni/Include/XnEventT.h:266-270 | after any number of calls the list in effect is the replay of everything their handlers asked for |
| `XnEventSpec.NextRaiseSees` | vm_deps/openni/Include/XnEventT.h:263-273 | what a Raise leaves in effect for the next one is its own list with the requests of all handlers called replayed on it |
| `XnEventSpec.RowsReplayed` | vm_deps/openni/Include/XnEventT.h:266-270 | call number i runs row i of the script: the requests of the first n handlers are the first n rows, one after the other |
| `XnEventSpec.NoRowsLeft` | vm_deps/openni/Include/XnEventT.h:266-270 | handlers beyond the script ask for nothing |
| `XnEventSpec.UnregisteredStaysOut` | vm_deps/openni/Include/XnEventT.h:96-117 | over every run, an unregistered handle is out of the list in effect until its address is registered again |
| `XnEventSpec.OwnedIsFresh` | vm_deps/openni/Include/XnEventT.h:68-117 | handlers that unregister only what the event owns never cause a lost registration |
| `XnEventSpec.CallsFreeOthers` | vm_deps/openni/Include/XnEventT.h:96-117 | handlers free no callback of the list that is being called |
| `XnEventT.EventInterface.Register` | vm_deps/openni/Include/XnEventT.h:68-94 | queues the new callback, or deletes it when queueing fails |
| `XnEventT.EventInterface.Unregister` | vm_deps/openni/Include/XnEventT.h:96-117 | drops a queued callback or queues its removal |
| `XnEventT.EventInterface.RemoveCallback` | vm_deps/openni/Include/XnEventT.h:191-202 | takes out and deletes the first occurrence |
| `XnEventT.EventInterface.ApplyListChanges` | vm_deps/openni/Include/XnEventT.h:169-189 | additions first, those without memory passed over, then removals, with exactly the removed objects deleted |
| `XnEventT.EventInterface.Clear` | vm_deps/openni/Include/XnEventT.h:152-167 | deletes every live callback, each once |
| `XnEventT.EventInterface.Raise` | vm_deps/openni/Include/XnEventT.h:261-274 | calls exactly the list in effect at entry, in registration order, applies what the handlers asked for, and frees exactly what entry, handlers and end remove |
| `XnEventT.EventInterface.CallHandlers` | vm_deps/openni/Include/XnEvent.h:183-230 | the raise loop: a prefix of the list, up to and including the first handler that fails, with exactly the objects freed that the handlers drop |
| `XnEventT.CallsStop` | vm_deps/openni/Include/XnEvent.h:183-230 | the number of calls and the code returned, told from the codes alone: all before the last call are OK, and fewer calls than handlers are made exactly when the last code is not |
| `XnEventT.EventInterface.RaiseWithRetCode` | vm_deps/openni/Include/XnEvent.h:183-233 | exactly the prefix through the first failing handler runs, its code is returned (`StopsAt`), the queues are still applied, and frees are accounted for |
| `XnEventT.EventInterface.RaisedReplays` | vm_deps/openni/Include/XnEventT.h:263-273 | what the next Raise of the same object calls: the list in effect with the requests replayed |
| `XnEventT.CalledBeforeFreed` | vm_deps/openni/Include/XnEventT.h:266-272 | no callback has been freed, since the Raise began, when its turn comes |
| `XnEventThreads.StepKeeps` | vm_deps/openni/Include/XnEventT.h:68-117 | every action of every thread, with memory failing anywhere and Clear included, keeps lock ownership, the called snapshot and the callback accounts |
| `XnEventThreads.EventIsLog` | vm_deps/openni/Include/XnEventT.h:68-202 | under every schedule the event is what the operations, in the order in which their threads held the lock, make of an empty one; `XnEventCalls.LogIsAsked` says which operations these are |
| `XnEventThreads.RaisesCallTheLog` | vm_deps/openni/Include/XnEventT.h:261-274 | under every schedule each finished Raise called the list in effect after the operations logged before it took the lock and its own application of the queues, in registration order; if no registration was lost, that is the fold of those operations; nothing logged later is seen |
| `XnEventThreads.EntryKept` | vm_deps/openni/Include/XnEventT.h:263-266 | a thread gets into a Raise only by applying the queues with the lock held, calls the list then in effect, and keeps it until it leaves |
| `XnEventThreads.NothingLogged` | vm_deps/openni/Include/XnEventT.h:263-264 | between taking the lock and applying the queues no thread changes the event |
| `XnEventThreads.RaisesCallTheSnapshot` | vm_deps/openni/Include/XnEventT.h:261-274 | under every schedule each finished Raise called the list it found on applying the queues, each callback once and in order; if a handler failed, the part up to and including it |
| `XnEventThreads.OneHolder` | vm_deps/openni/Include/XnEventT.h:263-263 | under every schedule no two threads hold the recursive lock |
| `XnEventThreads.NoDeadlock` | vm_deps/openni/Include/XnEventT.h:68-117 | under every schedule, while a call is under way some thread has an enabled step that begins no new call |
| `XnEventThreads.CalledIsAlive` | vm_deps/openni/Include/XnEventT.h:266-270 | a callback that is called has not been freed |
| `XnEventThreads.EveryCallbackAccounted` | vm_deps/openni/Include/XnEventT.h:68-202 | each object is listed once, on its way to the list, freed or lost as often as it was issued, wherever memory fails and when the event is cleared |
| `XnEventCalls.OpenFrames` | vm_deps/openni/Include/XnEventT.h:68-202 | under every schedule the calls a thread is in are those it has begun and not returned from, in their order, each doing what was begun |
| `XnEventCalls.LogIsAsked` | vm_deps/openni/Include/XnEventT.h:68-202 | under every schedule the log, and so the event, is what the actions of the callers ask for: each piece of work is that of the call its thread began last and has not returned from |
| `XnEventCalls.Story` | vm_deps/openni/Include/XnEventT.h:68-202 | whatever other threads do and handlers begin, the steps of every call are those of its kind: lock, its own work, and for a raise the calls one after the other |
| `XnEventCalls.Reporting` | vm_deps/openni/Include/XnEventT.h:261-274 | while a call lasts its thread reports exactly what that call tells: nothing, until a raise has applied the queues for the last time |
| `XnEventCalls.CallDoesItsWork` | vm_deps/openni/Include/XnEventT.h:68-167 | a call to Register, Unregister or Clear that returns took the lock and did one thing: it logged exactly the operation that was asked for, or, except for Clear, found no memory |
| `XnEventCalls.RaiseReports` | vm_deps/openni/Include/XnEventT.h:261-274 | a Raise that returns made these steps: lock, one application of the queues, its calls one after the other, a second application; it made exactly one report, with as many callbacks as it made calls, all of the list in effect after what was logged before its lock and its first application, or the part up to a failing handler, after which it called nothing |
| `XnEventCalls.UnregisteredIsNotCalled` | vm_deps/openni/Include/XnEventT.h:96-117 | once a call to Unregister has done its work, no Raise of any thread that takes the lock later calls that callback, unless its address is registered again in between |
| `XnEventCalls.HandlersMayAsk` | vm_deps/openni/Include/XnEventT.h:68-117 | the lock lets its owner in again: from inside a handler a Register of an unused address or an Unregister can run from its beginning to its return, and logs its operation |
| `XnMetaData.MetaData.Free` | vm_deps/openni/Include/XnCppWrapper.h:329-337 | gives the own buffer back, if there is one |
| `XnMetaData.MetaData.AllocateData` | vm_deps/openni/Include/XnCppWrapper.h:306-324 | the data becomes the own buffer, which is replaced only when too small; a failed allocation changes nothing |
| `XnMetaData.MetaData.MakeDataWritable` | vm_deps/openni/Include/XnCppWrapper.h:343-366 | success leaves an own buffer with the same bytes, zeros for NULL, and the original untouched; on writable data, and on failure, nothing changes; the copy is made from a freed buffer if and only if the data was the own buffer, smaller than the recorded size, and allocation succeeds |
| `XnMetaData.MetaData.MapAllocateData` | vm_deps/openni/Include/XnCppWrapper.h:544-557 | failure changes nothing; success sets both resolutions to x and y, both offsets to 0 and the size to the 32-bit product, every other property staying as it was |
| `XnMetaData.MetaData.MapReAdjust` | vm_deps/openni/Include/XnCppWrapper.h:567-586 | the same over an external buffer or a new one |
| `XnMetaData.MetaData.MapBytesAre` | vm_deps/openni/Include/XnCppWrapper.h:546-549 | the size is x times y times 3, 1 or 2 bytes by pixel format, exactly so below 2^32 |
| `XnMetaData.MetaData.ImageAllocateData` | vm_deps/openni/Include/XnCppWrapper.h:1002-1014 | the same with the pixel format given; failure also restores the old one |
| `XnMetaData.MetaData.ImageReAdjust` | vm_deps/openni/Include/XnCppWrapper.h:1038-1050 | the same over an external buffer or a new one; failure leaves data, size, resolution and pixel format unchanged |
| `XnMetaData.MetaData.CopyFrom` | vm_deps/openni/Include/XnCppWrapper.h:802-808 | a deep copy: same properties and bytes in an own buffer, the source unchanged; copied onto itself, a frame becomes writable |
| `XnNodeWrapper.StepKeeps` | vm_deps/openni/Include/XnCppWrapper.h:1637-1768 | every construct, copy, assign, SetHandle, TakeOwnership, Release, destroy, raw reference and context call keeps: counts equal wrappers plus raw references, and registrations match pointing wrappers |
| `XnNodeWrapper.RunKeeps` | vm_deps/openni/Include/XnCppWrapper.h:1637-1783 | the same over every run |
| `XnNodeWrapper.RunConserves` | vm_deps/openni/Include/XnCppWrapper.h:1716-1768 | after every run the count of a node is the number of wrappers at it plus the ledger of raw references, which is computed from the calls alone |
| `XnNodeWrapper.ContextsNetZero` | vm_deps/openni/Include/XnCppWrapper.h:1716-1758 | over every run wrappers add no context reference: what counts are the raw callers' calls |
| `XnNodeWrapper.EndsWithLastReference` | vm_deps/openni/Include/XnCppWrapper.h:1711-1714 | a node is destroyed by a call if and only if that call gives back its last reference or shuts its context down |
| `XnNodeWrapper.OneRegistrationEach` | vm_deps/openni/Include/XnCppWrapper.h:1751-1752 | a wrapper with a node has exactly one shutdown registration, one without has none |
| `XnNodeWrapper.ShutDownClears` | vm_deps/openni/Include/XnCppWrapper.h:1779-1783 | a context shutdown clears exactly the wrappers that point into the context; none points into it afterwards |
| `XnNodeWrapper.WithHandleKeeps` | vm_deps/openni/Include/XnCppWrapper.h:1724-1758 | setting a handle points that wrapper at it and leaves the other wrappers and all context references as they were |
| `XnNodeWrapper.OwnedKeeps` | vm_deps/openni/Include/XnCppWrapper.h:1760-1768 | taking ownership ends pointing at the node with all counts in step |
| `XnNodeWrapper.NodeWrapper.constructor` | vm_deps/openni/Include/XnCppWrapper.h:1637-1645 | a new wrapper steps the world by `Construct` |
| `XnNodeWrapper.NodeWrapper.LetGo` | vm_deps/openni/Include/XnCppWrapper.h:1733-1739 | the first half of SetHandle: unregistered from the context, the node released |
| `XnNodeWrapper.NodeWrapper.TakeHold` | vm_deps/openni/Include/XnCppWrapper.h:1742-1757 | the second half: the node referenced, the wrapper registered, the context reference given back |
| `XnNodeWrapper.NodeWrapper.ContextShuttingDown` | vm_deps/openni/Include/XnCppWrapper.h:1779-1783 | the handler clears the handle and keeps the callback handle |
| `XnNodeWrapper.NodeWrapper.SetHandle` | vm_deps/openni/Include/XnCppWrapper.h:1724-1758 | the objects and the library end in the world that `WithHandle` describes |
| `XnNodeWrapper.NodeWrapper.TakeOwnership` | vm_deps/openni/Include/XnCppWrapper.h:1760-1768 | the same, with the caller's reference given back |
| `XnNodeWrapper.NodeWrapper.Release` | vm_deps/openni/Include/XnCppWrapper.h:1715-1718 | the wrapper points at nothing |
| `XnNodeWrapper.NodeWrapper.Destroy` | vm_deps/openni/Include/XnCppWrapper.h:1653-1656 | the destructor unregisters, so no handler is left to call with the destroyed wrapper |
| `XnNodeWrapper.Library.ShutDownContext` | vm_deps/openni/Include/XnCppWrapper.h:1779-1783 | calling the handlers of a context clears the wrappers `ShutDown` names |
| `XnNodeWrapper.Library.ReleaseNode` | vm_deps/openni/Include/XnContext.h:350-355 | a raw caller's reference is given back |

## Left out

- MakeDataWritable: reading a freed buffer is modelled as getting undetermined bytes; nothing else about such a read is.
- CopyFrom: the image, infra-red and scene forms copy like the depth form and are not repeated.
- Set: after a write through a missing base node (`wild`), or beyond the end of an array (`overrun`), nothing is said about the program.
- SetData: the source is a sequence, so a source that lies in the array's own buffer is not modelled; the range form of `AddLast`, `CopyFrom` and the iterators of the array are left out.
- SetDataBytes: requires that the bytes it reads exist, which for fewer than four bytes is more than the size it is given.
- Size: counters of list and table sizes are unbounded, so a wrap at 2^32 entries is not modelled.
- Raise: handlers do not raise or clear the event they are called by, and events are not copied (a copy shares callback objects with the original). The three callback lists are sequences; the rings they are made of are proved in `XnListT` and `XnList`. A handler's request that fails changes nothing, so the script lists those that succeed.
- WorkFails: an object that cannot be queued is deleted with the lock still held; the source deletes it just after. No other thread knows the object yet.
- CallHandlers: `XnEvent::Clear` and `XnEvent::ApplyListChanges` take no lock of their own; calls to them from outside `Raise` while another thread is active are not modelled.
- Hash: its bins are the rings of `XnListT`, with the key and value nodes of an entry kept as one pair that counts three in the pool. Destroying a table that still holds entries is left out: the code frees only the bins.
- SetHashFunction and SetCompareFunction of `XnHash`: the key manager is fixed when a table is made.
- `XnHashT::ConstIterator::operator--`: entering an earlier bin it lands on the first entry, so it has no inverse law.
- NodeWrapper: the C functions are modelled by their documented effect. Nodes do not hold other nodes, calls to them succeed, and one thread runs at a time. `SetHandle` is proved in two halves, `LetGo` and `TakeHold`, and clears the handle in between.
- Create: how a node or context comes into being is one step that hands its caller one reference; dependent nodes, node names and node information are not part of the model.
- Destructors of lists, tables, arrays and events, except where they are `Clear`; the memory they free is not tracked.
- The typed list and hash macros and their value translators, queues, stacks, logging, profiling, operating-system wrappers, licensing, the recording and module interfaces, and the Python and alpine parts of the repository.
