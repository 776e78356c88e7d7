# Redis core, modelled in Dafny

This project models the core of an early Redis server (`redis.c` with its
`dict`, `zmalloc` and `zipmap` modules) and proves properties of that model.

- **The hash table of `dict.c`.** It uses chained buckets and power-of-two
  sizes, with an expansion that rehashes every entry into a fresh table.
  Keys are inserted at the head of their chain, unlinked on delete, and
  destructor calls are made on release. The iterator walks bucket by bucket,
  and the random draw picks a non-empty bucket. The table is a class over an
  array of chains, and every method is stated against the map the table
  represents.
- **`zmalloc.c`.** Every block carries a `size_t` prefix, and `used_memory`
  counts what is handed out. The ledger invariant `used_memory ==` the sum of
  the live blocks' sizes plus prefixes is kept by `zmalloc`, `zrealloc`,
  `zfree` and `zstrdup`.
- **`zipmapNew`** allocates the two-byte empty zipmap.
- **The object layer of `redis.c`.** This covers:
  - creating a header, recycled from the free list or freshly allocated;
  - taking and dropping references;
  - the type destructor at zero;
  - the header going back to the free list, or to `zfree` when the list is
    over its bound;
  - the decoded copy of an integer-encoded string;
  - comparison and hashing of string objects, which must agree whatever the
    encoding.
- **The virtual-memory bookkeeping.** This covers the swap-page bitmap, the
  three I/O job queues, `freeIOJob`, `vmCancelThreadedIOJob`, and every path
  of `decrRefCount`, including a key whose value is swapped out or being
  loaded. Module `RedisVm` defines each operation on values. Class
  `RedisServer.Server` performs it step by step, and each method is proved
  equal to the function of the same name.
- **`serverCron`'s maintenance of one database.** This covers:
  - the sparse-table shrink (`htNeedsResize` / `tryResizeHashTables`);
  - the adaptive expiration cycle: bursts of at most 100 random draws,
    repeated while a burst expired more than 25 keys;
  - the save-point check.
- **The configuration helpers:** the save-point array and `yesnotoi`.

These integer widths are written out:
- `dictGenHashFunction` computes modulo 2^32;
- `dictNext` compares its index with the size cast to `int`;
- `dictResize` truncates `used` to an `int`;
- the VM counters are `unsigned` and subtract modulo 2^64;
- `dictGetRandomKey` draws buckets below 2^31 (`Dict.RANDOM_RANGE`), the range of `random()`;
- `size_t` wraps in `zmalloc`.

The bucket of a hash is `hash % size`. `sizemask` is not stored:
`Dict.BucketIsMask` proves that on every power-of-two size the table takes,
`hash & (size - 1)` (with `&` defined bit by bit on naturals) is that bucket.

## Model

| member | source | states |
|---|---|---|
| DictH.BucketIndex | dict.c:214 | the bucket of a hash lies inside the table, and a hash below the size is its own bucket |
| DictH.MaskIsBucketIndex | dict.c:214 | masking a hash with 2^k - 1 keeps exactly its remainder modulo 2^k |
| Dict.BucketIsMask | dict.c:145 | for every power-of-two table size, `hash & sizemask` with `sizemask = size - 1` is the bucket the model uses |
| DictH.FreeEntryKey | dict.h:60-62 | the key destructor runs once on the entry's key exactly when the type has one |
| DictH.FreeEntryVal | dict.h:56-58 | the value destructor runs once on the entry's value exactly when the type has one |
| DictH.KeysFreedAll | dict.c:84-107 | clearing a table whose type destroys keys calls the destructor on every key, in walk order |
| DictH.NullDestructorsTouchNothing | dict.c:84-107 | a type without destructors makes clearing call nothing |
| DictH.KeysFreedAppend | dict.c:84-107 | the destructor calls of two runs of entries are those of each run, in order |
| DictH.StatusCodesDistinct | dict.h:10-11 | DICT_OK and DICT_ERR differ, and the initial size is 4 |
| DictTable.ChainFindAt | dict.c:250-264 | a chain with distinct keys yields each of its entries' values on lookup |
| DictTable.ChainFindAbsent | dict.c:257-263 | a key absent from a chain is not found in it |
| DictTable.ChainFindUnlink | dict.c:207-237 | unlinking another entry leaves a key's lookup unchanged |
| DictTable.EmptyRepresents | dict.c:64-70 | an all-empty table represents the empty map |
| DictTable.NoBucketsNoKeys | dict.c:255 | a table with no buckets holds no key |
| DictTable.KeyInBucket | dict.c:256-262 | every key of the map sits in the bucket its hash chooses, with its value |
| DictTable.InsertHeadRepresents | dict.c:195-202 | linking a new key at the head of its bucket represents the map with that key added |
| DictTable.UnlinkRepresents | dict.c:218-230 | unlinking an entry from its chain represents the map without that key |
| DictTable.MoveHead | dict.c:161-172 | moving the head of an old chain into the new table keeps the old and the new table together representing the map |
| DictTable.WalkYieldsEachEntryOnce | dict.c:277-296 | walking the buckets in order yields each key of the map exactly once with its value, and nothing else |
| Dict.Djb2FromAppend | dict.c:52-58 | hashing a concatenation continues the hash of the prefix over the suffix |
| Dict.GenHashFunction | dict.c:52-58 | the loop computes djb2 (`hash * 33 + c` modulo 2^32, from 5381) over the first `len` bytes |
| Dict.NextPowerLeast | dict.c:348-358 | the next power is at most any power of two at least 4 and at least the size |
| Dict.NextPowerUnique | dict.c:348-358 | the next power of a size is unique |
| Dict.NextPowerOfPower | dict.c:348-358 | a power of two at least 4 is its own next power |
| Dict.NextPower | dict.c:348-358 | the loop yields the least power of two that is at least 4 and at least the size, or LONG_MAX for sizes from LONG_MAX up |
| Dict.Rehash | dict.c:155-176 | moving every chain into a fresh table of the new size represents the same map |
| Dict.Dict.constructor | dict.c:73-81 | a new table has the given type, no buckets, no entries |
| Dict.Dict.Size | dict.h:69 | dictSize is the number of keys in the map |
| Dict.Dict.Slots | dict.h:68 | dictSlots is 0 for an empty unallocated table, else a power of two at least 4 |
| Dict.Dict.Find | dict.c:250-264 | the lookup returns the key's entry exactly when the key is in the map |
| Dict.Dict.Expand | dict.c:133-181 | for sizes up to 2^60, expansion fails exactly when the size is below `used`; on success the table has the next power of the size buckets and the same map |
| Dict.Dict.ExpandIfNeeded | dict.c:336-345 | an unallocated table is expanded to 4, a full one doubled, any other left as it is; the map is unchanged |
| Dict.Dict.KeyIndex | dict.c:363-381 | returns -1 exactly when the key is present, else the key's bucket after any expansion |
| Dict.Dict.Add | dict.c:184-204 | adding fails exactly when the key is present; otherwise the map gains the pair, which heads its bucket |
| Dict.Dict.GenericDelete | dict.c:207-237 | deleting succeeds exactly when the key is present; the map loses it, only its chain changes, and the destructors run on it unless `nofree` |
| Dict.Dict.Delete | dict.c:239-241 | `dictDelete` is the deletion that runs the destructors |
| Dict.Dict.Clear | dict.c:84-107 | clearing empties the map and the table and runs the destructors on every entry in walk order |
| Dict.Dict.Empty | dict.c:383-385 | `dictEmpty` clears the table |
| Dict.Dict.Resize | dict.c:122-129 | resizing to the least power of two at least `used` (and at least 4) keeps the map; it fails when `used` does not fit in an int, since the truncated request is then below `used` |
| Dict.Dict.GetRandomKey | dict.c:306-331 | a random draw finds nothing exactly when the map is empty, and otherwise yields one of its entries; when some non-empty bucket lies below 2^31 (the range of `random()`), the entry drawn lies in such a bucket |
| Dict.Release | dict.c:244-248 | releasing clears the table with every destructor call |
| Dict.WalkLimit | dict.c:282-283 | the walk covers every bucket of a table below 2^31 buckets, since the index is compared with the size cast to `int` |
| Dict.WalkLimitHuge | dict.c:282-283 | a table of 2^31 or more buckets is walked as though it had none |
| Dict.SeekBucket | dict.c:279-295 | with the current chain exhausted, the scan moves to the next non-empty bucket below the `int`-cast size and yields its head, or nothing when no walked bucket is left |
| Dict.Advance | dict.c:277-296 | from a bucket, the entry last returned and the live rest of its chain, one step yields the next entry of the pending walk and leaves the rest pending, with the returned entry's chain tail still linked in its bucket |
| Dict.DictIterator.constructor | dict.c:266-275 | a new iterator has the whole walk of the table pending, or nothing for a table of 2^31 or more buckets |
| Dict.DictIterator.Next | dict.c:277-296 | `dictNext` yields the first entry of the walk and removes it, or NULL at the end; the walk follows the live links from the saved next entry |
| Dict.DeleteReturnedKeepsWalk | dict.c:286-291 | deleting the entry just returned leaves the iterator valid and the rest of the walk unchanged, because the next entry was saved first |
| Dict.DeleteDuringWalk | dict.c:277-296 | deleting any entry other than the saved next entry leaves the iterator valid, and the rest of the walk loses exactly the deleted key |
| Zmalloc.FootprintAdd | zmalloc.c:21-28 | a new block adds its size plus the prefix to the ledger |
| Zmalloc.FootprintReplace | zmalloc.c:88-90 | a block replaced in place changes the ledger by the difference of the sizes |
| Zmalloc.FootprintFree | zmalloc.c:30-37 | freeing a block removes its size plus the prefix from the ledger |
| Zmalloc.MallocRequest | zmalloc.c:53 | the request handed to `malloc` is the size plus the prefix, modulo 2^64 |
| Zmalloc.MallocRequestWraps | zmalloc.c:53 | a size within the prefix of SIZE_MAX asks `malloc` for fewer bytes than the prefix alone |
| Zmalloc.Heap.constructor | zmalloc.c:41 | the ledger starts at zero with no block |
| Zmalloc.Heap.Malloc | zmalloc.c:52-64 | a fresh non-NULL block of the size; the ledger grows by size plus prefix; nothing else changes |
| Zmalloc.Heap.Realloc | zmalloc.c:66-93 | NULL reallocates as `zmalloc`; otherwise the block moves to a fresh address keeping its common prefix of bytes, and the ledger changes by the size difference |
| Zmalloc.Heap.Free | zmalloc.c:95-111 | NULL is ignored; otherwise the block goes and the ledger drops by its size plus prefix |
| Zmalloc.Heap.Store | zipmap.c:16-17 | a byte written into a block changes that byte only, and not the ledger |
| Zmalloc.Heap.Strdup | zmalloc.c:113-118 | the copy is a fresh block holding the string up to and including its NUL; the ledger grows by its length plus prefix |
| Zipmap.MarkersDistinct | zipmap.c:8-10 | the three marker bytes differ and are ordered |
| Zipmap.EmptyZipmap | zipmap.c:13-18 | the empty zipmap is two bytes, a zero count and the end marker, with no end marker before the last byte |
| Zipmap.ZipmapNew | zipmap.c:13-18 | `zipmapNew` allocates a fresh block holding the empty zipmap, at a cost of 2 bytes plus the prefix |
| RedisObject.Digits | redis.c:618 | the decimal rendering is digits only, without leading zeros |
| RedisObject.Decimal | redis.c:618 | `%ld` rendering of a long is non-empty and holds no NUL |
| RedisObject.DigitsRoundTrip | redis.c:618 | parsing the digits of n gives n back |
| RedisObject.DecimalRoundTrip | redis.c:618 | parsing the `%ld` rendering of n gives n back |
| RedisObject.DecimalInjective | redis.c:618 | distinct longs render differently |
| RedisObject.Lex | redis.c:1597 | `sdscmp` / `strcmp` order, normalised to -1, 0 or 1 |
| RedisObject.LexZeroIff | redis.c:1597 | the comparison is zero exactly when the strings are equal |
| RedisObject.LexAntisymmetric | redis.c:1597 | swapping the strings negates the comparison |
| RedisObject.CompareStringObjects | redis.c:1577-1598 | the comparison of two string objects is -1, 0 or 1, and an object equals itself |
| RedisObject.CompareStringObjectsZero | redis.c:1577-1598 | two NUL-free string objects compare equal exactly when they are the same object or denote the same string |
| RedisObject.CompareStringObjectsAntisymmetric | redis.c:1577-1598 | swapping the objects negates the comparison |
| RedisObject.SdsDictKeyCompare | redis.c:558-568 | two sds keys match exactly when they are equal |
| RedisObject.EncObjHash | redis.c:608-629 | a string object hashes as djb2 of the string it denotes, for raw strings shorter than 2^31 bytes |
| RedisObject.EncObjHashIgnoresEncoding | redis.c:608-629 | an integer-encoded object hashes like the raw object of its decimal rendering |
| RedisObject.TypeDestructor | redis.c:1553-1560 | the destructor run at zero is the one of the object's type |
| RedisObject.NewObject | redis.c:1431-1442 | a new header has the type and payload given, raw encoding, one reference, and when VM is on the resident state and the cached clock |
| RedisObject.PutHeaderInv | redis.c:1562-1564 | recycling or freeing a released header keeps the free list and live headers disjoint |
| RedisObject.DecrResidentInv | redis.c:1550-1566 | dropping a reference to a resident object keeps the object-state invariant |
| RedisObject.IncrDecrInverse | redis.c:1521-1566 | taking and then dropping a reference restores the state |
| RedisObject.DecrResidentEffect | redis.c:1550-1566 | above one the count drops by one and nothing else changes; at one the object goes, its destructor runs once, and its header is recycled or freed; other objects are untouched |
| RedisObject.CreateInv | redis.c:1414-1444 | creating reuses the free list's head or a fresh block, and adds exactly the new object |
| RedisObject.CreateThenReleaseRestores | redis.c:1414-1566 | creating an object from the free list and dropping its one reference restores objects, free list and blocks |
| RedisVm.ClearPageEffect | redis.c:1799-1804 | clearing a page frees that page and no other |
| RedisVm.ClearPagesEffect | redis.c:1807-1810 | clearing a run frees exactly the run's pages, and no other |
| RedisVm.RetireOne | redis.c:1870-1906 | unlinking or flagging a live job retires one live job |
| RedisVm.FindJob | redis.c:1860-1865 | the search yields the first live job of the queue whose key compares equal |
| RedisVm.Locate | redis.c:1856-1865 | the located queue is the first of the three holding a match, at the first match's index |
| RedisVm.JobAt | redis.c:1862-1865 | the located job is live and its key matches |
| RedisVm.FreeJobTouchesOnlyObjects | redis.c:1819-1826 | freeing a job changes no queue, page or counter, and frees the job's block |
| RedisVm.RollBack | redis.c:1909-1912 | a cancelled load returns to swapped, a cancelled swap to resident |
| RedisVm.CancelEffect | redis.c:1844-1920 | the cancel retires one live job, unlinking it from the new queue or flagging it in the processed one, and frees its pages exactly when it is a swap not in progress |
| RedisVm.CancelRollsBack | redis.c:1909-1912 | the cancelled key's storage is rolled back and nothing else about it changes |
| RedisVm.AfterLoadCancel | redis.c:1537 | the on-disk release cancels only a load, and the key survives the cancel |
| RedisVm.DecrSpecResident | redis.c:1550-1566 | without jobs involved, `decrRefCount` is the resident release |
| RedisVm.IncrDecrSpecInverse | redis.c:1521-1566 | `incrRefCount` then `decrRefCount` restores the whole VM state |
| RedisVm.ReleaseOnDiskEffect | redis.c:1531-1548 | a swapped or loading key is freed: its string released once, its pages freed, the swapped-object counter lowered, and a pending load cancelled |
| RedisVm.ReleaseOnDiskFreesPages | redis.c:1540 | after the on-disk release a page is free exactly when it was, or when it is one of the key's |
| RedisVm.FreeJobInv | redis.c:1819-1826 | freeing a job keeps the object-state invariant |
| RedisVm.CancelInv | redis.c:1844-1920 | the cancel keeps the object-state invariant |
| RedisVm.ReleaseOnDiskInv | redis.c:1531-1548 | the on-disk release keeps the object-state invariant |
| RedisVm.ReleaseLastInv | redis.c:1550-1566 | the release at zero keeps the object-state invariant |
| RedisVm.DecrSpecInv | redis.c:1526-1567 | every path of `decrRefCount` keeps the object-state invariant |
| RedisServer.Server.CreateObject | redis.c:1414-1444 | the new object is the value-level creation: the free list's head, or a fresh block charged to the ledger |
| RedisServer.Server.IncrRefCount | redis.c:1521-1524 | the count grows by one and nothing else changes |
| RedisServer.Server.VmMarkPagesFree | redis.c:1807-1814 | the run is cleared in the bitmap and the used-page counter drops by the count modulo 2^64 |
| RedisServer.Server.ReleaseHeader | redis.c:1562-1564 | the header is pushed onto the free list, or freed when the list is over its bound |
| RedisServer.Server.DecrRefCount | redis.c:1526-1567 | the new state is the value-level `decrRefCount` of the old |
| RedisServer.Server.ReleaseOnDisk | redis.c:1531-1548 | the new state is the value-level on-disk release |
| RedisServer.Server.ReleaseLast | redis.c:1550-1566 | the new state is the value-level release at zero |
| RedisServer.Server.FreeIOJob | redis.c:1819-1826 | the new state is the value-level `freeIOJob` |
| RedisServer.Server.CancelThreadedIOJob | redis.c:1844-1920 | the new state is the value-level cancel |
| RedisServer.Server.RollBackStorage | redis.c:1909-1912 | only the key's storage changes, rolled back |
| RedisServer.Server.FindJobFor | redis.c:1856-1865 | the search over the three queues finds the located job |
| RedisServer.Server.RetireMatch | redis.c:1870-1913 | the matched job is retired as the value-level definition says |
| RedisServer.Server.GetDecodedObject | redis.c:1602-1618 | a raw object gains a reference and comes back; an integer one yields a new raw object of its decimal rendering |
| RedisServer.Server.DictRedisObjectDestructor | redis.c:570-576 | a NULL value is ignored, anything else has one reference dropped |
| RedisServer.VmFreePage | redis.c:1791-1795 | a page is free exactly when its bit is clear |
| RedisServer.VmMarkPageFree | redis.c:1799-1804 | the page's bit is cleared and no other |
| RedisServer.MarkRunFree | redis.c:1807-1810 | the loop clears exactly the run |
| RedisServer.ScanQueue | redis.c:1860-1865 | the walk over one queue finds the first live match, when there is one |
| RedisConfig.SaveConfig.constructor | redis.c:1118-1121 | the defaults are the three save points 3600/1, 300/100 and 60/10000, in that order |
| RedisConfig.SaveConfig.Append | redis.c:1064-1069 | the array is reallocated one record longer with the new record at its end; no other block changes |
| RedisConfig.SaveConfig.Reset | redis.c:1074-1078 | the array is freed and the pointer and length cleared |
| RedisConfig.StrCaseCmpZero | redis.c:1212 | `strcasecmp` is zero exactly when the strings agree in lower case up to their NULs |
| RedisConfig.StrCaseCmpSwap | redis.c:1212 | swapping the strings negates `strcasecmp` |
| RedisConfig.YesNoToI | redis.c:1211-1219 | the result is -1, 0 or 1 |
| RedisConfig.YesNoToISpec | redis.c:1211-1219 | 1 exactly for "yes", 0 exactly for "no", in any case, -1 for anything else |
| RedisConfig.YesNoToIExamples | redis.c:1211-1219 | "Yes" gives 1, "NO" gives 0, "yess" gives -1 |
| ExpireAccount.RepeatsStep | redis.c:982 | another burst follows only one that expired more than 25 keys |
| ExpireAccount.DeadlinesStep | redis.c:974-977 | each key a burst deletes had a time before that burst's clock reading |
| ExpireAccount.CycleStep | redis.c:962-982 | a burst keeps the cycle's account: counts add up to the keys deleted, each deleted key was due |
| RedisCron.HtNeedsResize | redis.c:769-776 | a table needs resizing exactly when it has more than 4 buckets, some keys, and under 10% fill |
| RedisCron.FillBelow | redis.c:774-775 | the integer fill test `used*100/size < 10` is `10*used < size` |
| RedisCron.SparseTableShrinks | redis.c:769-792 | resizing a table that needs it at least halves its bucket count |
| RedisCron.ResizeIfSparse | redis.c:785-790 | a table is resized only when it needs it, keeps its map, and then shrinks to half or less |
| RedisCron.Db.TryResize | redis.c:780-792 | both tables of a database keep their maps and are resized exactly when sparse |
| RedisCron.Db.DeleteKey | redis.c:379 | the key leaves the keyspace and the expiry table; the result says whether it was present |
| RedisCron.Db.ExpireBurst | redis.c:963-980 | at most 100 draws, no more than there are keys with an expiry; the keys deleted are exactly the drawn keys that were past due |
| RedisCron.Db.ExpireDraw | redis.c:972-979 | a draw finds a key with an expiry exactly when some key has one, and deletes it exactly when it is past due; otherwise nothing changes |
| RedisCron.Db.ExpireCycle | redis.c:962-982 | the bursts repeat exactly while one expired more than 25 keys; every key deleted was past due at its burst's clock reading |
| RedisCron.Db.CycleBurst | redis.c:963-980 | one more burst extends the account by its count |
| RedisCron.DueSavePoint | redis.c:941-951 | the first save point with enough changes and strictly more than its seconds elapsed, or none |

## Left out

- Dict.Dict.GetRandomKey: `random()` yields values below 2^31, so the source never draws a bucket at or above 2^31; when every entry sits in such buckets its do-while never returns, while the model returns an entry of one of them. RedisCron.Db.ExpireDraw inherits this.
- I/O, as not part of the data logic: logging, `usleep`, the mutexes and the I/O threads' own work.
- The clock: `time(NULL)` is a parameter function; `ExpireCycle` reads it once per burst, as the source does.
- `random()`: the random bucket and chain position are nondeterministic choices among the entries that can be drawn.
- The iteration over the `server.dbnum` databases in `tryResizeHashTables` and in the expire loop. Each database's pass is modelled (`RedisCron.Db.TryResize`, `RedisCron.Db.ExpireCycle`), and the databases share no object.
- The `deleteKey` body is not part of these sources. `RedisCron.Db.DeleteKey` models its documented effect: the expiry goes, then the key leaves the keyspace.
- The rest of `serverCron`, `rdbSaveBackground` and the background-save branch. The check returns the save point whose save it would start.
- `time_t` overflow in `now - lastsave` is not modelled; the subtraction is on unbounded integers.
- The save-point records live in `SaveConfig.params`. The bytes of their block in the heap are not written.
- `loadServerConfig`, the rest of `initServerConfig`, and the callers of `yesnotoi`.
- `dictReleaseIterator`, because it only frees the iterator.
- Dictionary tables and iterators are Dafny arrays and objects, not blocks of the `zmalloc` heap, so their allocations are not charged to `used_memory`.
- The `HAVE_MALLOC_SIZE` build of `zmalloc.c`. The prefix build is modelled.
- `zmalloc_oom`: an allocation failure aborts the process, so allocations always succeed in the model.
- Zmalloc.Heap.Malloc: requires the size plus prefix to fit in a `size_t`, so the wrap shown by `Zmalloc.MallocRequestWraps` is not carried into the heap. The same bound holds for Realloc and Strdup.
- Dict.Dict.Expand: requires the size to be at most 2^60 (`MAX_BUCKETS`). The byte count `realsize*sizeof(dictEntry*)` is `size_t` arithmetic and wraps from 2^61 buckets on, after which the source writes past a block too small for the table. Dict.Dict.ExpandIfNeeded requires at most 2^59 buckets so that doubling stays within that bound.
- Dict.Dict.KeyIndex: requires at most 2^30 buckets, because `_dictKeyIndex` returns the bucket as a C `int`. Dict.Dict.Add inherits the bound.
- RedisObject.EncObjHash: requires a raw string to be shorter than 2^31 bytes, because `dictGenHashFunction` takes its length as a C `int len` (dict.c:52); for longer strings the source hashes a truncated or negative length and reads past the buffer, which is not modelled.
- DictH.DictType / Dict.Dict: keys are modelled as values, and `dictCompareHashKeys` is Dafny equality on them. The source compares key objects by content through the type's `keyCompare` (`sdsDictKeyCompare`, `dictEncObjKeyCompare`), so the stored key object and the lookup key are different objects. The model drops that identity: which of two equal key objects `he->key` is, and so which one the key destructor receives in `dictGenericDelete`. It also drops the `int` length bounds inside those comparators.
- RedisObject.SdsDictKeyCompare: requires both keys to be shorter than 2^31 bytes, because the source reads their lengths into C `int`s; longer keys are not modelled.
- RedisServer.Server.CreateObject: the free list and the three I/O job queues are adlist lists whose nodes are not modelled as heap blocks. Popping the free list's head (and pushing a header in RedisServer.Server.ReleaseHeader, or unlinking a job's node in RedisServer.Server.CancelThreadedIOJob) therefore leaves `used_memory` alone, where the real `listDelNode` and `listAddNodeHead` free or allocate one node through `zmalloc`.
- RedisServer.Server.CancelThreadedIOJob: requires that the first matching job is not in `io_processing`. The wait-and-retry loop for a job the I/O thread holds is left out. The final `assert(1 != 1)` is a precondition that some live job matches.
- RedisServer.Server.FreeIOJob: requires the job's key and value to be resident objects whose references can be dropped without a further cancel. The source's jobs hold their own resident copies of keys.
- RedisServer.Server.DecrRefCount: `redisAssert` failures (a type without destructor, a swapped key shared by several references) are preconditions, not aborts.
- Payload destructors (`freeStringObject`, `freeListObject`, …) are recorded as one release call each. The elements they release in turn are not modelled.
- The object free list may reach `REDIS_OBJFREELIST_MAX + 1` headers. This follows the source's `>` test.
- Floating point, networking, replication, persistence, commands and the event loop are outside this core.

## Findings

| source | as written | input that shows it | evidently intended | confidence | as-written member | corrected member |
|---|---|---|---|---|---|---|
| zmalloc.c:53 | `malloc(size+PREFIX_SIZE)` wraps in `size_t` for sizes within `PREFIX_SIZE` of `SIZE_MAX` | `size = SIZE_MAX - 3` asks `malloc` for 4 bytes, fewer than the 8-byte prefix, and the prefix then records `SIZE_MAX - 3` | refuse or abort on a request whose size plus prefix overflows | low, not executed | Zmalloc.MallocRequestWraps | Zmalloc.Heap.Malloc |
