# Verification of the TKRZW storage engine

This project models the databases of TKRZW, the key-value storage engine under `lib/TKRZW`, and proves
what they promise. Each part follows the program: what it updates in place is a class with fields, its
loops are loops, and every method is proved against the map or sequence it stands for.

* **The on-memory B+ tree** (`Baby*.dfy`): leaf and inner nodes at addresses, split and merged in place,
  with a queue of leaves to reorganise and iterators that are patched at every restructuring. Every node
  has an interval of keys it answers for; all invariants are stated over these intervals.
* **The file hash table** (`Hash*.dfy`, `FreeBlocks.dfy`): a file as a map from offsets to records, bucket
  chains through it, updates in place with a pool of free blocks or by appending, import forward and
  backward, and the rebuild as a protocol of atomic steps interleaved with writers. The bytes of a record
  are the subject of `ByteCodec.dfy` and `RecordCodec.dfy`.
* **The static skip list** (`Skip*.dfy`): the writer that fills in skip slots as records come, search by key
  and by index through a cache, the external merge sort, the rewrite with a reducer, and the bytes of the
  file, on which all of that is done.
* **Compare-and-exchange over shards** (`ShardExchange.dfy`): calls nested in each other's callbacks.
* **Least-recently-used structures** (`LinkedRecords.dfy`, `LinkedHash.dfy`, `LruCache.dfy`,
  `CacheSlots.dfy`, `CacheUse.dfy`): records in a hash chain and a list at once, two maps in one memory.
* **The compressors that encrypt** (`Ciphers.dfy`, `BlockChaining.dfy`).

`Processing.dfy` has the step on a map that a call with a record processor stands for; `Multiples.dfy` and
`StringOrder.dfy` have the arithmetic and the order the others need.

## Findings

* Going back one key (`lib/TKRZW/tkrzw_dbm_baby.cc:1347-1358`) skips the rest of the current leaf when the
  lower bound of the key is the end of the leaf. It finds the greatest lesser key if and only if the leaf is
  empty or its last key is not less than the current one: `BabyIteration.BabyIterator.Previous` and
  `BabyIteration.PreviousExact`. `BabyIteration.StepBackFromRemoved` is a run in which it fails: two keys are
  stored, the iterator goes to the last one, that one is removed, and going back finds nothing although the
  first key is stored. `BabyIteration.PreviousMisses` is the state in between.
* The cache is to remove the least recently used records when a limit is exceeded
  (`lib/TKRZW/tkrzw_dbm_cache.h:155-156`), but a rebuild of a slot (`lib/TKRZW/tkrzw_dbm_cache.cc:503-537`) keeps
  records from the front of the list. After any run it does drop the least recently used ones if and only if
  either all records are within the new limits or not even one is, which are the two outcomes of the guard at
  line 517 for the last and for the first record: `CacheUse.RebuildDropsLeastUsed`. `CacheUse.RebuildMisses` is a
  slot with two records that is rebuilt for one and keeps the older; `CacheUse.RebuildDropsLatest` says that
  whenever it fails, it keeps what was used before everything it drops.
* A leaf of the B+ tree may have 256 records at most, and one with more is divided
  (`lib/TKRZW/tkrzw_dbm_baby.cc:733-735`). But a leaf with fewer than 128 is merged into the smaller of its
  neighbours whatever the size of that one, and the merged leaf is not queued (`lib/TKRZW/tkrzw_dbm_baby.cc:812-888`).
  `BabyDatabase.BabyDBM.Reorganize` says that the two sizes add up, so the leaf is over the maximum if and only if
  their sum is: 127 and 256 make 383 in the state of `BabyMerges.MergeOverfills`. If no leaf has to be merged,
  reorganising leaves none over the maximum: `BabyDatabase.BabyDBM.ReorganizeTree`.
* A new value for a stored key can take a cache slot over its memory limit, since only an insertion evicts
  (`lib/TKRZW/tkrzw_dbm_cache.cc:357-377`): `CacheUse.UpdateExceeds` is a slot and a call, and
  `CacheUse.MemoryAfterUpdate` says exactly when the limit is met. The limit on the number of records always holds.

## Model

| member | source | states |
|---|---|---|
| BabyDatabase.BabyDBM.SearchTree | lib/TKRZW/tkrzw_dbm_baby.cc:677-695 | the leaf found is the live leaf whose key interval holds the key, in every valid tree |
| BabyDatabase.BabyDBM.TraceTree | lib/TKRZW/tkrzw_dbm_baby.cc:697-716 | the path from the root to the parent of that leaf, one inner node per level above the leaves; with fewer than 2^63 leaves it fits the twenty entries of the callers' buffer, also while leaves are underfull |
| BabyDatabase.BabyDBM.SplitLeaf | lib/TKRZW/tkrzw_dbm_baby.cc:743-770 | cutting a leaf keeps every leaf, chain and iterator invariant: the interval is cut at the new leaf's first key, iterators in the upper half follow their keys, none loses its key |
| BabyDatabase.BabyDBM.DivideNodes | lib/TKRZW/tkrzw_dbm_baby.cc:741-810 | dividing an overfull leaf, and inner nodes upwards as far as needed, keeps the whole tree invariant (order, uniform depth, chain, occupancy, iterators) and the stored map, and moves no other leaf's interval; inner nodes within their maximum stay within it |
| BabyDatabase.BabyDBM.MergeNodes | lib/TKRZW/tkrzw_dbm_baby.cc:812-945 | merging a leaf into a sibling, with merges upwards and the fall of the root, keeps the whole tree invariant and the stored map; exactly that leaf is gone, and every key routed to another leaf is still routed there |
| BabyDatabase.BabyDBM.ReorganizeTree | lib/TKRZW/tkrzw_dbm_baby.cc:718-731 | it terminates, never looks at a leaf that has been merged away, and with the queue worked off every leaf below the root and every inner node is at least half full; no leaf is over the maximum if none had to be merged |
| BabyDatabase.BabyDBM.Reorganize | lib/TKRZW/tkrzw_dbm_baby.cc:725-729 | a leaf over the maximum becomes two halves; one less than half full, unless it is the root, is gone, and its neighbour has the records of both, however many; any other is left alone |
| BabyDatabase.BabyDBM.FuseLeafWithSibling | lib/TKRZW/tkrzw_dbm_baby.cc:812-888 | what takes over the records is a leaf beside it under the same parent, and none there has fewer records |
| BabyDatabase.BabyDBM.ChooseSibling | lib/TKRZW/tkrzw_dbm_baby.cc:895-930 | an inner node is fused with the smaller of its neighbours under the same parent |
| BabyDatabase.BabyDBM.ProcessImpl | lib/TKRZW/tkrzw_dbm_baby.cc:1072-1116 | the processor is told the stored value or that there is none; its answer decides, case by case, whether the key is removed, set or left; every leaf that has got too small or too large waits in the queue |
| BabyDatabase.BabyDBM.AppendImpl | lib/TKRZW/tkrzw_dbm_baby.cc:1118-1141 | the old value is the front of the new one and the delimiter and the value follow; an absent key gets the value; no other key changes |
| BabyDatabase.BabyDBM.Process | lib/TKRZW/tkrzw_dbm_baby.cc:418-433 | the same from any consistent state, with the reorganisation before it; the count is exact and no iterator loses its key; as long as records are only added or changed, no leaf is over the maximum but those that wait in the queue |
| BabyDatabase.BabyDBM.Append | lib/TKRZW/tkrzw_dbm_baby.cc:435-445 | likewise for appending |
| BabyOrder.ChainIsInOrder | lib/TKRZW/tkrzw_dbm_baby.cc:741-945 | following `next` from the first leaf visits exactly the leaves of an in-order traversal, each once, and ends at the last one |
| BabyOrder.FollowInOrder | lib/TKRZW/tkrzw_dbm_baby.cc:741-945 | the n-th leaf of that traversal is n steps along `next` from the first one, and behind the last there is none |
| BabyOrder.ContentsDetermined | lib/TKRZW/tkrzw_dbm_baby.cc:677-695 | no two different maps fit the same tree: the nodes alone determine what is stored |
| BabyOrder.TreeCount | lib/TKRZW/tkrzw_dbm_baby.cc:812-945 | a tree has at least two full subtrees' worth of leaves: exponentially many in its height |
| BabyOrder.PathFits | lib/TKRZW/tkrzw_dbm_baby.cc:34-34 | with fewer than 2^63 leaves there are at most ten levels, so a path never exceeds the maximum of twenty |
| BabyMerges.MergeOverfills | lib/TKRZW/tkrzw_dbm_baby.cc:812-945 | a state in order in which a leaf of n records, too few, waits to be merged beside one of p, and the leaf of n + p records that comes of it |
| BabyIteration.BabyIterator.First | lib/TKRZW/tkrzw_dbm_baby.cc:1157-1162 | it goes to the least stored key, or has no position if nothing is stored |
| BabyIteration.BabyIterator.Last | lib/TKRZW/tkrzw_dbm_baby.cc:1164-1169 | it goes to the greatest stored key |
| BabyIteration.BabyIterator.Jump | lib/TKRZW/tkrzw_dbm_baby.cc:1171-1176 | the position is the given key, stored or not, and no leaf is remembered; no other iterator moves |
| BabyIteration.BabyIterator.JumpLower | lib/TKRZW/tkrzw_dbm_baby.cc:1178-1206 | it lands on the greatest stored key below the given one, or equal to it if inclusive, or on none |
| BabyIteration.BabyIterator.JumpUpper | lib/TKRZW/tkrzw_dbm_baby.cc:1208-1235 | it lands on the least stored key above the given one, or equal to it if inclusive, or on none |
| BabyIteration.BabyIterator.Next | lib/TKRZW/tkrzw_dbm_baby.cc:1312-1334 | from whatever place, also of a key no longer stored, it goes to the least stored key above |
| BabyIteration.BabyIterator.Previous | lib/TKRZW/tkrzw_dbm_baby.cc:1336-1361 | it goes to the greatest stored key below if and only if the current leaf is empty or has a record not below the current key |
| BabyIteration.BabyIterator.SyncPosition | lib/TKRZW/tkrzw_dbm_baby.cc:1363-1398 | it goes to the least stored key not below the current one, and then remembers the leaf of that key |
| BabyIteration.BabyIterator.Process | lib/TKRZW/tkrzw_dbm_baby.cc:1400-1462 | it processes the least stored key not below the position with what the processor is told, and its answer decides case by case; nothing happens if there is none |
| BabyIteration.PreviousExact | lib/TKRZW/tkrzw_dbm_baby.cc:1347-1358 | the leaf-level form of that condition, in both directions |
| BabyIteration.PreviousMisses | lib/TKRZW/tkrzw_dbm_baby.cc:1347-1358 | a state in which going back finds nothing although a lesser key is stored |
| BabyIteration.StepBackFromRemoved | lib/TKRZW/tkrzw_dbm_baby.cc:1347-1358 | a run of calls on an empty database that leads there and finds nothing |
| BabyWalks.Enumeration | lib/TKRZW/tkrzw_dbm_baby.cc:1237-1244 | a walk from First with Next to the end visits exactly the stored keys, in ascending order |
| BabyWalks.Visit | lib/TKRZW/tkrzw_dbm_baby.cc:1157-1162 | such a walk can always be made and ends: the keys visited are exactly those stored, each once, ascending |
| HashFormat.AlignNumber | lib/TKRZW/tkrzw_sys_config.h:378-384 | the least aligned number that is not less |
| HashFormat.WholeSize | lib/TKRZW/tkrzw_dbm_hash_impl.cc:219-232 | the size of a record is aligned, holds key and value, and is the ideal one if that is aligned and large enough |
| HashStore.RecordsDisjoint | lib/TKRZW/tkrzw_dbm_hash.cc:1486-1569 | no two records of the section share a byte, and all lie within the section |
| HashStore.RecordsCover | lib/TKRZW/tkrzw_dbm_hash.cc:1486-1569 | every byte of the section belongs to a record |
| HashUpdate.InPlaceExact | lib/TKRZW/tkrzw_dbm_hash.cc:1486-1569 | in a file updated in place there is exactly one record of each stored key, with its value and in its bucket, and none that says removed |
| HashUpdate.SpliceKeeps | lib/TKRZW/tkrzw_dbm_hash.cc:1486-1569 | taking a record out of its chain, or putting another in its place, in a file updated in place, keeps tiling, chains, index and log consistent |
| HashUpdate.AppendKeeps | lib/TKRZW/tkrzw_dbm_hash.cc:1518-1558 | a record appended before its bucket's chain, shadowing the older ones of its key, keeps them consistent whichever record it is linked to |
| HashUpdate.InsertKeeps | lib/TKRZW/tkrzw_dbm_hash.cc:1605-1629 | a new key's record, at the end of the file or over a free block of exactly its size, keeps them consistent |
| FreeBlocks.FreeBlockPool.InsertFreeBlock | lib/TKRZW/tkrzw_dbm_hash_impl.cc:550-558 | the block is added; a full pool gives up its smallest block for a larger one and is unchanged otherwise |
| FreeBlocks.FreeBlockPool.FetchFreeBlock | lib/TKRZW/tkrzw_dbm_hash_impl.cc:560-569 | the best fitting block is taken, and none only if all are too small |
| HashDatabase.HashDBMImpl.Search | lib/TKRZW/tkrzw_dbm_hash.cc:1435-1590 | the chain is followed to the first record of the key, with the record before it, or to its end if there is none |
| HashDatabase.HashDBMImpl.RewriteInPlace | lib/TKRZW/tkrzw_dbm_hash.cc:1512-1517 | a value that leaves the record its size is written over the old one |
| HashDatabase.HashDBMImpl.EraseInPlace | lib/TKRZW/tkrzw_dbm_hash.cc:1486-1511 | the key, and no other, is gone from the stored map; the file stays consistent and every block in the pool is a void record |
| HashDatabase.HashDBMImpl.MoveInPlace | lib/TKRZW/tkrzw_dbm_hash.cc:1518-1569 | a value that does not fit moves to a free block or to the end of the file, and takes its record's place in the chain |
| HashDatabase.HashDBMImpl.AppendShadow | lib/TKRZW/tkrzw_dbm_hash.cc:1518-1558 | in appending mode exactly one record is logged at the end, and it decides what is stored under the key |
| HashDatabase.HashDBMImpl.AddRecord | lib/TKRZW/tkrzw_dbm_hash.cc:1605-1631 | a key that was not stored is |
| HashDatabase.HashDBMImpl.ProcessImpl | lib/TKRZW/tkrzw_dbm_hash.cc:1426-1634 | in both modes the processor is told the value, or an empty one if it must not read; its answer decides, case by case, whether the key is removed, set or left, and no other key changes; record count and data size are exact; every consistency invariant is kept |
| HashDatabase.HashDBMImpl.PoolIs | lib/TKRZW/tkrzw_dbm_hash_impl.cc:550-569 | every block in the pool is a void record of its size and shares no byte with a live one |
| HashDatabase.HashDBMImpl.ReadBucketKeys | lib/TKRZW/tkrzw_dbm_hash.cc:1834-1884 | an iterator collects from a bucket exactly its stored keys: neither shadowed nor removed ones |
| HashReplay.IndexAndLogAgree | lib/TKRZW/tkrzw_dbm_hash.cc:1886-1936 | in both modes, replaying the record section forward rebuilds exactly the map seen through the bucket chains |
| HashReplay.ReadBackStep | lib/TKRZW/tkrzw_dbm_hash.cc:2019-2095 | going backward with the set of dead keys, one more record gives the replay of one record more |
| HashImport.ImportFromFileForward | lib/TKRZW/tkrzw_dbm_hash_impl.cc:349-429 | importing the records between two places of a file applies exactly their replay |
| HashImport.ExtractOffsets | lib/TKRZW/tkrzw_dbm_hash_impl.cc:431-479 | the file of offsets holds those of all records that are not void, in order, whatever the buffer size |
| HashImport.OffsetReader.ReadOffset | lib/TKRZW/tkrzw_dbm_hash_impl.cc:490-533 | block by block, from the front or from the back, every offset is read once and in that order |
| HashImport.ImportFromFileBackward | lib/TKRZW/tkrzw_dbm_hash.cc:1938-2104 | into an empty database the backward import brings the same map as the forward replay |
| HashRebuild.RebuiltIsExact | lib/TKRZW/tkrzw_dbm_hash.cc:1717-1777 | over every interleaving of writers with the rebuild, the temporary database is the replay of the log up to where it has read, and in the end exactly the live map |
| HashRebuild.PrefixNeverChanges | lib/TKRZW/tkrzw_dbm_hash.cc:1717-1730 | once the mode is appending, every record in the file stays as and where it is |
| HashRebuild.RebuildKeeps | lib/TKRZW/tkrzw_dbm_hash.cc:1730-1777 | whatever the writers do, the rebuild always finds the record it reads next, and keeps the invariant |
| HashRebuild.RebuildAdvances | lib/TKRZW/tkrzw_dbm_hash.cc:1743-1762 | every step of the rebuild lessens what is left to do: stages, tries left, records left |
| HashRebuild.WritesDoNotDelay | lib/TKRZW/tkrzw_dbm_hash.cc:1743-1762 | no write adds to that |
| HashRebuild.RunGoesOn | lib/TKRZW/tkrzw_dbm_hash.cc:1717-1777 | a run may be continued by any write and by the next step of the rebuild, in any order |
| HashRebuild.ReadsWhichWay | lib/TKRZW/tkrzw_dbm_hash.cc:1730-1734 | a file updated in place is read forward, one appended to is first read backward |
| HashRebuild.TriesAreCatchUps | lib/TKRZW/tkrzw_dbm_hash.cc:1736-1757 | over every run the tries are the times the rebuild began to catch up, and there are three at most |
| HashRebuild.ShutsOutForLittle | lib/TKRZW/tkrzw_dbm_hash.cc:1737-1762 | the writers are shut out if and only if no more than 65536 bytes are left to read or it has caught up three times |
| HashRebuild.ProcessWhileRebuilding | lib/TKRZW/tkrzw_dbm_hash.cc:1426-1634 | a call of Process, in place before the switch or appending after it, is a writer's step of that protocol |
| ByteCodec.FixNumRoundTrip | lib/TKRZW/tkrzw_sys_config.h:427-438 | a number of a fixed width is read back just when it fits the width |
| ByteCodec.FixNumDigit | lib/TKRZW/tkrzw_sys_config.h:427-438 | byte i is the digit to the base 256 that has the weight of its place, the first one the greatest |
| ByteCodec.FixValueRoundTrip | lib/TKRZW/tkrzw_sys_config.h:427-438 | every string of bytes is the number read from it |
| ByteCodec.VarNumSize | lib/TKRZW/tkrzw_sys_config.h:440-510 | a variable-length number takes as many bytes as the size function says, for all of 64 bits |
| ByteCodec.LeadingDigit | lib/TKRZW/tkrzw_sys_config.h:440-510 | every byte but the last is a digit to the base 128 with its highest bit set, the first one of the greatest weight |
| ByteCodec.ReadVarNum | lib/TKRZW/tkrzw_sys_config.h:512-529 | what was written is read back with its length; bytes that end before the number does are refused |
| RecordCodec.EncodedSize | lib/TKRZW/tkrzw_dbm_hash_impl.cc:219-232 | the bytes of a record are its size without padding and the padding, also when the padding's own size takes several bytes |
| RecordCodec.SetDataSize | lib/TKRZW/tkrzw_dbm_hash_impl.cc:219-232 | they are exactly as many as the size computed from the ideal size and the alignment |
| RecordCodec.Fill | lib/TKRZW/tkrzw_dbm_hash_impl.cc:252-288 | the parts fill the whole buffer, and nothing else is in it |
| RecordCodec.Write | lib/TKRZW/tkrzw_dbm_hash_impl.cc:252-299 | the record's bytes are at the end of the file or at the given offset, and no other byte has changed |
| RecordCodec.ReadMetadataKey | lib/TKRZW/tkrzw_dbm_hash_impl.cc:53-170 | type, child, key, sizes, checksums and whole size of a record written there are recovered, for every width, alignment and number of bytes read first |
| RecordCodec.ReadBody | lib/TKRZW/tkrzw_dbm_hash_impl.cc:172-182 | key and value are read if and only if they lie within the file |
| RecordCodec.Read | lib/TKRZW/tkrzw_dbm_hash_impl.cc:53-182 | reading the body when the first bytes did not reach it, key and value are recovered whole |
| RecordCodec.WriteThenRead | lib/TKRZW/tkrzw_dbm_hash_impl.cc:252-299 | what is written is read back, whatever the place in the file |
| RecordCodec.LiesStill | lib/TKRZW/tkrzw_dbm_hash_impl.cc:252-299 | writing elsewhere does not change what is read |
| SkipLevels.LevelDivides | lib/TKRZW/tkrzw_dbm_skip_impl.cc:197-211 | a record has a level if and only if that power of the step unit divides its index |
| SkipLevels.LevelIs | lib/TKRZW/tkrzw_dbm_skip_impl.cc:197-211 | so a level is the number of times the step unit divides the index, up to the maximum |
| SkipFile.LinkStep | lib/TKRZW/tkrzw_dbm_skip_impl.cc:235-265 | filling one slot of the record a span back makes one level more of the links right |
| SkipRecords.SkipRecord.Write | lib/TKRZW/tkrzw_dbm_skip_impl.cc:213-233 | the record is at the end, no slot is filled yet, and the file holds one pair more |
| SkipRecords.SkipRecord.UpdatePastRecords | lib/TKRZW/tkrzw_dbm_skip_impl.cc:235-265 | afterwards slot i of every record holds the offset of the record a span ahead, or 0 if it is not yet there; the past offsets are the last record of each level, and the early break is never taken |
| SkipRecords.RecordFile.SlotsAre | lib/TKRZW/tkrzw_dbm_skip_impl.cc:235-265 | that is, slot i of record p has the offset of record p + step^(i+1), or 0 past the end |
| SkipCodec.EncodedSize | lib/TKRZW/tkrzw_dbm_skip_impl.cc:197-211 | the bytes of a record are as many as computed before it is written |
| SkipCodec.Write | lib/TKRZW/tkrzw_dbm_skip_impl.cc:213-233 | magic number, empty slots, two sizes, key and value are appended, and nothing else changes |
| SkipCodec.AppendRepresents | lib/TKRZW/tkrzw_dbm_skip_impl.cc:213-233 | appending the bytes of a record to the bytes of a file gives those of the file with the record |
| SkipCodec.SlotOverwritten | lib/TKRZW/tkrzw_dbm_skip_impl.cc:253-256 | the bytes of the record with a slot filled in are those before with only the bytes at 1 + i * width replaced |
| SkipCodec.SlotRepresents | lib/TKRZW/tkrzw_dbm_skip_impl.cc:253-256 | writing those bytes in the file fills in the slot and leaves every other record as it is |
| SkipCodec.ReadMetadataKey | lib/TKRZW/tkrzw_dbm_skip_impl.cc:68-154 | level, slots, key, sizes and the value, if it is within the bytes read, of a record written there are recovered; another magic number is refused |
| SkipCodec.ReadAt | lib/TKRZW/tkrzw_dbm_skip_impl.cc:68-154 | so reading the bytes of a file at the offset of its i-th record gives that record and the offset of the next |
| SkipRecords.SkipWriter.WriteRecord | lib/TKRZW/tkrzw_dbm_skip.cc:1431-1446 | over every run of calls the file holds the pairs in order with all links right, and the counts are exact |
| SkipSearch.Search | lib/TKRZW/tkrzw_dbm_skip_impl.cc:267-340 | on a sorted file with duplicates, for every cache of records of that file, it finds what a scan would: the first record of the key, or with `upper` the first not below it |
| SkipSearch.SearchByIndex | lib/TKRZW/tkrzw_dbm_skip_impl.cc:342-397 | it finds the record of the index, or none past the end, with as many forward moves as the digit sum of the index to the base of the step unit, the top digit unbounded |
| SkipLevels.DigitSumSpan | lib/TKRZW/tkrzw_dbm_skip_impl.cc:342-397 | going ahead by the largest span that is not too far takes one off the digit sum |
| SkipSort.StableSortUnique | lib/TKRZW/tkrzw_dbm_skip_impl.cc:576-644 | there is only one stable sort of a sequence of pairs |
| SkipSort.OfKeyIs | lib/TKRZW/tkrzw_dbm_skip_impl.cc:576-644 | the values of a key are those at the places of its pairs, in their order, and none is left out |
| SkipSort.LeastIsNext | lib/TKRZW/tkrzw_dbm_skip_impl.cc:646-698 | the least first pair of sorted sources, and of equal ones that of the first source, is the first of their stable sort |
| SkipSort.RecordSorter.Flush | lib/TKRZW/tkrzw_dbm_skip_impl.cc:700-729 | the records in memory become a sorted temporary file, and nothing given is lost or reordered among equals |
| SkipSort.RecordSorter.Finish | lib/TKRZW/tkrzw_dbm_skip_impl.cc:576-644 | for every pattern of flushes, what is to come is the stable sort of all sources |
| SkipSort.RecordSorter.Get | lib/TKRZW/tkrzw_dbm_skip_impl.cc:646-698 | the pairs come in that order, each once |
| SkipStorage.AfterRemovalsIs | lib/TKRZW/tkrzw_dbm_skip.cc:1986-1998 | what is left of a key's values are those behind the last removal |
| SkipStorage.ReduceRemove | lib/TKRZW/tkrzw_dbm_skip.cc:1986-1998 | the loop leaves the values behind the last removal, none of which is one, and all if there is no removal |
| SkipStorage.ReducedIs | lib/TKRZW/tkrzw_dbm_skip.cc:1322-1334 | what is written for a key: nothing if its last value is a removal, otherwise the values behind the last one, or what the reducer makes of them; all values if nothing was ever removed |
| SkipStorage.SkipDBMImpl.UpdateRecord | lib/TKRZW/tkrzw_dbm_skip.cc:1398-1429 | a removal is added to the sorter as the value that stands for it, and noted |
| SkipStorage.SkipDBMImpl.WriteGroup | lib/TKRZW/tkrzw_dbm_skip.cc:1322-1334 | that is written behind what the file holds, in order |
| SkipStorage.SkipDBMImpl.FinishStorage | lib/TKRZW/tkrzw_dbm_skip.cc:1275-1354 | the merged file is sorted and complete with exact counts, and holds for every key the reduction of its old values followed by the new ones in insertion order; once something was removed, no key whose last value is a removal is there, and without a reducer no removal is; if nothing was removed and there is no reducer, every value is there |
| SkipStorage.MergedCanBeSearched | lib/TKRZW/tkrzw_dbm_skip.cc:1275-1354 | such a file meets what searching requires |
| ShardExchange.CompareExchangeMulti | lib/TKRZW/tkrzw_dbm.h:1405-1428 | success if and only if every key is absent, present or has the expected value as asked; then every key is left with what the last setting about it says, or as it was; otherwise nothing changes |
| ShardExchange.PutAllThere | lib/TKRZW/tkrzw_dbm.h:1405-1428 | the last setting about a key decides: the value is stored, or the key gone |
| ShardExchange.PutAllElsewhere | lib/TKRZW/tkrzw_dbm.h:1405-1428 | a key no setting is about stays as it was |
| ShardExchange.ShardDBM.ProcessMulti | lib/TKRZW/tkrzw_dbm_shard.cc:252-378 | the nested calls write the shards' settings if every check of every shard passes, and leave all shards as they were otherwise |
| ShardExchange.ShardDBM.CompareExchangeMulti | lib/TKRZW/tkrzw_dbm_shard.cc:252-378 | for every shard function: success if and only if every expectation holds in its key's shard; then every key has in its shard what the last setting about it says, or what it had; otherwise no shard changes; and map and status are those of the single database |
| ShardExchange.AllShardsPass | lib/TKRZW/tkrzw_dbm_shard.cc:252-378 | all checks of all shards pass if and only if all conditions are met |
| ShardExchange.SettledAlike | lib/TKRZW/tkrzw_dbm_shard.cc:252-378 | the settings shard by shard leave every key with what the settings one by one would |
| ShardExchange.StaysHome | lib/TKRZW/tkrzw_dbm_shard.cc:252-378 | no key gets into a shard that is not its own |
| ShardExchange.TogetherIsHeld | lib/TKRZW/tkrzw_dbm_shard.cc:252-378 | the shards together always stand for such a single database |
| LinkedHash.LinkedHashMap.Get | lib/TKRZW/tkrzw_containers.h:931-985 | a record is found if and only if its key is there, and moved as asked; chains and list go on describing the same records |
| LinkedHash.LinkedHashMap.Set | lib/TKRZW/tkrzw_containers.h:995-1081 | the value is set, kept or newly attached as asked, under that invariant |
| LinkedHash.LinkedHashMap.Remove | lib/TKRZW/tkrzw_containers.h:1083-1113 | exactly the record of the key goes |
| LinkedHash.LinkedHashMap.Migrate | lib/TKRZW/tkrzw_containers.h:1116-1245 | the record goes from one map to the other, where it takes the place of one with its key; both maps keep the invariant and share no record |
| LinkedHash.LinkedHashMap.Rehash | lib/TKRZW/tkrzw_containers.h:1394-1403 | another number of buckets changes nothing but the chains |
| LinkedHash.AfterGetIs | lib/TKRZW/tkrzw_containers.h:931-985 | where a record that was found goes: first, last or nowhere, with the others in their order |
| LinkedHash.AfterSetIs | lib/TKRZW/tkrzw_containers.h:995-1081 | where the record of the key is afterwards and with which value, with the others in their order |
| LruCache.GetKeepsAll | lib/TKRZW/tkrzw_containers.h:1533-1554 | Get, with or without promotion, neither loses nor duplicates an entry, and keeps the hot ones within their capacity |
| LruCache.DoubleLRUCache.Get | lib/TKRZW/tkrzw_containers.h:1533-1554 | what is found is the entry of the id, hot or warm, and it is the last of the hot ones, or of the warm ones without promotion; hot and warm ids stay disjoint; promotion sends the oldest hot entry to the warm ones when there is no room |
| LruCache.DoubleLRUCache.Add | lib/TKRZW/tkrzw_containers.h:1518-1526 | a value already there is kept, otherwise the new one becomes the last warm one |
| LruCache.DoubleLRUCache.GiveBack | lib/TKRZW/tkrzw_containers.h:1528-1531 | an id that is not warm becomes the last warm one, a warm one keeps its value; ids stay distinct if and only if the id is not hot |
| LruCache.DoubleLRUCache.Remove | lib/TKRZW/tkrzw_containers.h:1556-1561 | the id is gone from both |
| LruCache.DoubleLRUCache.RemoveLRU | lib/TKRZW/tkrzw_containers.h:1563-1584 | the first warm entry goes, and the first hot one only if none is warm |
| CacheSlots.CacheSlot.ProcessImpl | lib/TKRZW/tkrzw_dbm_cache.cc:303-412 | any hit moves the record to the end of the list; an insertion makes exactly the first record go just when there are then more records than allowed or more memory than allowed is in use, 8 bytes a bucket, 34 a record and the data; the count never exceeds its limit and the byte total is exact |
| CacheSlots.CacheSlot.RemoveLRU | lib/TKRZW/tkrzw_dbm_cache.cc:558-591 | the first record of the list is found in its chain and goes |
| CacheSlots.CacheSlot.Rebuild | lib/TKRZW/tkrzw_dbm_cache.cc:503-537 | the longest front part of the list within the new limits is kept, in new chains |
| CacheSlots.KeptFromIs | lib/TKRZW/tkrzw_dbm_cache.cc:517-529 | how many are kept: one more as long as neither limit is reached |
| CacheUse.RunInUseOrder | lib/TKRZW/tkrzw_dbm_cache.cc:303-412 | over every run of calls and rebuilds the list is in the order of the last use of its keys |
| CacheUse.EvictedIsOldest | lib/TKRZW/tkrzw_dbm_cache.cc:404-408 | a record that goes unasked has been used before every one that stays, and only an insertion makes it go |
| CacheUse.RebuildDropsLeastUsed | lib/TKRZW/tkrzw_dbm_cache.cc:503-537 | after any run a rebuild drops the least recently used records if and only if all records are within the new limits or none is |
| CacheUse.KeptIs | lib/TKRZW/tkrzw_dbm_cache.cc:517-529 | the guard decides on the last record whether all are kept, and on the empty slot whether any is |
| CacheUse.RebuildMisses | lib/TKRZW/tkrzw_dbm_cache.cc:503-537 | a run of two insertions after which a rebuild for one record keeps the one used less recently |
| CacheUse.RebuildDropsLatest | lib/TKRZW/tkrzw_dbm_cache.cc:503-537 | what a rebuild drops has been used after everything it keeps |
| CacheUse.MemoryAfterUpdate | lib/TKRZW/tkrzw_dbm_cache.cc:357-377 | after a new value for a stored key the memory limit is met if and only if the memory in use and the growth of the value are within it |
| CacheUse.UpdateExceeds | lib/TKRZW/tkrzw_dbm_cache.cc:357-377 | a slot within its limits and a call that takes it over them |
| Ciphers.BoxIsPermutation | lib/TKRZW/tkrzw_compress.cc:478-506 | the substitution box is a permutation of all bytes for every key and vector, however much has been encrypted |
| Ciphers.XorIs | lib/TKRZW/tkrzw_compress.cc:509-509 | the exclusive or of two bytes, bit by bit |
| Ciphers.KeyByteIs | lib/TKRZW/tkrzw_compress.cc:478-492 | the box is mixed with the key and the vector, over and over |
| Ciphers.RC4CompressedIs | lib/TKRZW/tkrzw_compress.cc:469-513 | the compressed string is the vector, most significant byte first, and every byte of the string exclusive-ored with the stream |
| Ciphers.RC4RoundTrip | lib/TKRZW/tkrzw_compress.cc:469-558 | decompressing inverts compressing for every key, vector and string |
| Ciphers.RC4OnlyCompressed | lib/TKRZW/tkrzw_compress.cc:515-558 | and only that string compressed decompresses to it |
| Ciphers.RC4Compressor.Compress | lib/TKRZW/tkrzw_compress.cc:469-513 | the loops compute that |
| Ciphers.RC4Compressor.Decompress | lib/TKRZW/tkrzw_compress.cc:515-558 | a string too short for a vector is refused, of every other one each byte behind the vector is exclusive-ored with the stream of that vector |
| BlockChaining.AESRoundTrip | lib/TKRZW/tkrzw_compress.cc:610-679 | for every invertible block cipher and vector the plain text and its exact length are recovered |
| BlockChaining.AESOnlyCompressed | lib/TKRZW/tkrzw_compress.cc:646-679 | whatever decompresses with a tail as the compressor makes them is a compressed string |
| BlockChaining.CompressedIs | lib/TKRZW/tkrzw_compress.cc:610-644 | byte by byte: the encrypted vector, each block exclusive-ored with the plain block before it and encrypted, and the last block with the number of its bytes |
| BlockChaining.AESCompressor.Compress | lib/TKRZW/tkrzw_compress.cc:610-644 | the loop computes that |
| BlockChaining.AESCompressor.Decompress | lib/TKRZW/tkrzw_compress.cc:646-679 | every compressed string is decompressed to what it was, a string of the wrong size is refused |

## Left out

* Input and output errors, memory maps, direct I/O, renaming, synchronisation, timestamps and metadata: the
  file operations succeed. Update loggers.
* Locks and atomics as code. The rebuild is a protocol of steps that are atomic under the record locks;
  everything else is sequential.
* The widths of machine integers: offsets, indices, counts and powers of the step unit are unbounded. A
  number written with a fixed width is exact about the width.
* Addresses: memory is a map from live addresses to nodes or record fields. Pointers packed into one block
  of bytes are fields, and a block that is reallocated moves or not as an input decides.
* Keys of the B+ tree are real numbers compared by `<`, which stand for any keys with a comparator that is a
  total order on countably many of them.
* BabyDBM: ProcessMulti, ProcessEach and ProcessFirst, which may empty a leaf between reorganisations; import
  and export; the removal of iterators from the list of registered ones.
* HashDBM: the layout of metadata and buckets, CheckHashChain and the validation of a database, the search
  for the next record behind a broken one, the serialised form of the free block pool, and compression of
  values. The pool has room for one block at least.
* HashImport.ExtractOffsets: the file of offsets is a sequence of entries, not of bytes, because the entries have
  one fixed width.
* RecordCodec.ReadMetadataKey: the checksums are fields that are stored and recovered; what they are computed
  from is not modelled, nor is CheckCRC.
* SkipDBM: the fast path for input that comes in order, iterators, MergeSkipDatabase and DiscardStorage. The heap and the stable sort of the standard library are modelled by what they promise.
* SkipCodec.Write: keys and values are strings of characters below 256; the metadata in front of the first
  record is any string of its size.
* SkipSort.RecordSorter: existing skip files are read when they are added, not while merging.
* ShardDBM: its iterator and the heap that merges the shards' keys.
* LRUCache, which is one LinkedHashMap with a bound, and HeapByCostAdd and HeapByCostFinish; iterators over the
  caches, import and export.
* LinkedHash.LinkedHashMap.Rehash: when to rehash is left to the caller.
* CacheSlots.CacheSlot.ProcessImpl: the slot uses the record operations of the linked hash map, because both link
  the same fields in the same way.
* Ciphers: the key schedule and the blocks of AES; any invertible block cipher will do. The random initial
  vectors are inputs.
* All of the game's own code under `src`, the formatting library, AsyncDBM, PolyDBM and the command-line tools.
