# Verified model of the oblivious storage engines

The repository stores key-value data so that an observer of the storage learns nothing from the accesses. Its
engines are modelled here in Dafny, each with the fields, branches and error cases of the program, and proved
against a simple specification: a dictionary, a list, an array, a sorted map.

* **vORAM** (`Bits`, `Positions`, `Voram*`): blobs of any size, cut into chunks along a path of a tree of encrypted
  buckets. Each bucket holds the keys of its children, and every fetch renames a blob. A stash, a cache, a write
  buffer and the stored bytes together hold one map from idents to blobs. Encryption is an ideal box: a cell can be
  opened with the key it was closed with, and with no other.
* **HIRB** (`Hirb*`): a randomised B-tree of vORAM blobs in which the level of an item is a function of its hash.
  The vORAM is seen here as `BlobMap.Store`, a map together with the trace of the paths that were read.
  `HirbVoram` joins the two: it serves the calls of a HIRB on a vORAM.
* **SFTP store** (`Ssh*`): a list whose elements are remote files, with a write-back buffer and a task queue that
  worker threads serve in any order. `SshNet` is the transition system of the queues and threads; a thread takes
  a task, performs it and answers in three separate steps. At every point where the client looks at something
  shared, an arbitrary schedule of such steps comes first.
* **Path ORAM** (`PathOram*`) with its greedy eviction of the path that was read, and the reverse lexicographic
  eviction schedule (`RevLex`).
* **SkipStash** (`Skip*`), a skip list in linked arrays, and the **LRU cache** (`Lru*`) of the proxy.

Where the program updates objects in place, the model is a class with the same fields. The methods are proved
against functions and predicates of explicit values (`Canon`, `Rep`, `Consistent`, `Protocol`, `Evicted`, `Target`,
`Used`), and the main results are about these or about whole runs. Random draws, thread schedules and the format
sizes are parameters; the draws of hash levels are any function, the random keys of a vORAM any sequence, and idents that are drawn are
assumed to be new.
Hashes and idents are numbers in place of byte strings of one length, which are ordered alike.

Results over whole runs are in `HirbResults`, `HirbVoram`, `VoramResults`, `SshResults`, `PathOramResults` and
`LruResults`.

## Model

| member | source | states |
|---|---|---|
| HirbResults.Run | deps/obliv/obliv/hirb.py:318-553 | from any valid tree without built items, every run of sets, disguised lookups and deletions of present keys answers each lookup as a plain dictionary does; the contents and the size end up the dictionary's; every write-back round since the start has exactly two path reads; no ident's path is ever read twice; and (for b at least 2) the height is the least one whose threshold the largest size met by an assignment does not exceed |
| HirbResults.RunFromEmpty | deps/obliv/obliv/hirb.py:233-245 | from an empty tree, the height after any run follows from leafB, b and the run alone: with g a quarter of leafB rounded up, the peak of the run is at most g times b to the height, and above g times b to the height less one if the tree grew |
| HirbResults.PeakInserts | deps/obliv/obliv/hirb.py:377-388 | for a run that inserts n new keys the peak is n, so that its height is the least one with n at most g times b to the height |
| HirbVoram.RunOnVoram | deps/obliv/obliv/hirb.py:318-553 | the same run with a vORAM below: the vORAM that served the calls holds, decoded, the one tree for the dictionary's contents, and its own trace is made of rounds of two reads, all of different idents; only condition is that the drawn idents have the vORAM's ident length |
| HirbVoram.OnVoram | deps/obliv/obliv/voram.py:382-490 | whatever was done with a HIRB, its calls are all legal for a concrete vORAM, which ends in the encoded state of the HIRB's store, with the same cache, rounds and open reads, and whose fetches returned exactly the encodings of the nodes the HIRB worked with |
| HirbVoram.EncodedReplay | deps/obliv/obliv/voram.py:782-815 | replaying the encoded calls leads to the encoding of what the calls lead to, and returns the encodings of what they return |
| HirbResults.HistoryIndependence | deps/obliv/obliv/hirb.py:236-275 | two trees of one height with the same hash-to-value contents are equal once idents are erased, whatever operations, or bulk build, they came from |
| HirbResults.NoLeakNoDangle | deps/obliv/obliv/hirb.py:345-352 | the idents named by the nodes reachable from the root are, as a multiset, exactly the live blobs: none is leaked, none dangles, none is named twice |
| HirbResults.AbsentDeleteBreaks | deps/obliv/obliv/hirb.py:506-508 | in every tree of height one, a failed deletion followed by a lookup of the same absent hash leaves the root naming a child that no longer exists |
| HirbTree.Hirb.constructor | deps/obliv/obliv/hirb.py:236-275 | the tower build from sorted items gives the valid tree of any initial height with exactly these contents, without a path read, and leaves the size at zero; the first threshold for growing is a quarter of leafB, rounded up, times b to the height |
| HirbTree.Hirb.GetHeight | deps/obliv/obliv/hirb.py:308-316 | all draws below the returned height are zero, and the draw at it is not, unless it is the height of the tree |
| HirbTree.Hirb.Lookup | deps/obliv/obliv/hirb.py:318-363 | the answer is the dictionary's; from a quiet vORAM, exactly `height` rounds of two reads (one without disguise) wherever the hash sits; the tree stays valid if and only if the search did not start at a stale child, a condition on the state before the call |
| HirbTree.Hirb.SetItem | deps/obliv/obliv/hirb.py:377-481 | the contents change at the hash only, the size by whether it is new, the height grows exactly when the threshold is reached, and the rounds are as many as the height after growth, two reads each; all invariants hold again through the splits |
| HirbTree.Hirb.DeleteItem | deps/obliv/obliv/hirb.py:484-553 | removes exactly this hash, with the same rounds, through all merges; for an absent hash it reports failure, changes no contents, and leaves the last reads open |
| HirbTree.Hirb.Grow | deps/obliv/obliv/hirb.py:382-407 | the repeated root splits give the tree of the next height with the same items, without a path read |
| HirbGrow.CapRaised | deps/obliv/obliv/hirb.py:308-316 | raising the cap by one leaves every height below the cap unchanged and moves an item at the cap up by at most one |
| HirbNodes.HirbNode.Split | deps/obliv/obliv/hirb.py:585-642 | the node keeps the part before the wedge and the sibling gets the part after it, with the placeholder child for the sibling's first link |
| HirbNodes.HirbNode.Merge | deps/obliv/obliv/hirb.py:606-648 | the node gets the sibling's items and children after its own; the child that is still to be merged is returned |
| Vorams.Voram.constructor | deps/obliv/obliv/voram.py:221-297 | all buckets written, only the root key held at the end, and never more than levels + 1 keys on the way; the map is empty |
| Vorams.Voram.Fetch | deps/obliv/obliv/voram.py:431-449 | a fetch renames exactly this blob to the next ident, puts it into the cache and reads the path of its old ident; a cached blob costs no read and keeps its ident; an unknown ident is an error after a path read |
| Vorams.Voram.Create | deps/obliv/obliv/voram.py:370-406 | adds exactly one empty blob, after reading the path of a random ident if asked to; the blob then gets the ident that was given or another new one, never the ident just read, and without the read it gets the first new ident |
| VoramResults.CreateUnseen | deps/obliv/obliv/voram.py:382-406 | a default creation with new idents keeps the trace oblivious: its own read and the next fetch of the blob read different paths, neither of them read before |
| Vorams.Voram.DummyOp | deps/obliv/obliv/voram.py:408-418 | reads the path of a random ident and changes no blob |
| Vorams.Voram.Finalize | deps/obliv/obliv/voram.py:451-474 | no blob changes; the cache and write buffer are empty, only the root key is held, the reads become one round, and no blob is left in the stash or higher up that a written bucket below had room for |
| Vorams.Voram.Set | deps/obliv/obliv/voram.py:480-486 | replaces exactly this cached blob; KeyError leaves everything as it is |
| Vorams.Voram.Remove | deps/obliv/obliv/voram.py:488-490 | removes exactly this cached blob; KeyError leaves everything as it is |
| Vorams.Voram.Grow | deps/obliv/obliv/voram.py:348-368 | one more level; every blob, ident and open read stays, and the write buffer ends exactly as it began, even when it was not empty |
| Vorams.Voram.StashEligible | deps/obliv/obliv/voram.py:520-533 | the range query over the stash yields exactly the stash idents whose path goes through the position, once each |
| Vorams.Voram.ReadNode | deps/obliv/obliv/voram.py:610-642 | decrypts a bucket with the key held for it, appends each chunk to what the stash has of its blob, and holds exactly the two child keys more; every blob keeps its value |
| Vorams.Voram.WriteNode | deps/obliv/obliv/voram.py:539-608 | fills a bucket from the stash with the ends of eligible blobs, as much as fits, and with the keys held for its children, and stores its image under a random key that was never drawn before and is held until the parent is written; every blob keeps its value |
| Vorams.Ref.Path | deps/obliv/obliv/voram.py:824-830 | the positions from the root to the leaf that the ident's first bits name |
| Vorams.Ref.Pregen | deps/obliv/obliv/voram.py:842-852 | the next ident is chosen once and then kept |
| Vorams.Ref.Regen | deps/obliv/obliv/voram.py:854-857 | the ident becomes the one chosen in advance, or else a new one, and nothing remains chosen |
| Vorams.Ref.GetRaw | deps/obliv/obliv/voram.py:790-796 | returns the blob under its ident or KeyError, as a fetch, with a write-back if immediate |
| Vorams.Ref.SetRaw | deps/obliv/obliv/voram.py:802-807 | a fetch and a replacement of exactly this blob, or KeyError |
| Vorams.Ref.Destroy | deps/obliv/obliv/voram.py:809-815 | a fetch and a removal of exactly this blob, or KeyError; the reference loses its ident |
| VoramResults.KeyChain | deps/obliv/obliv/voram.py:600-631 | when nothing is read, one who holds only the root key can decrypt every bucket by walking down, and finds the image of what the tree has there |
| VoramResults.ContentsDetermined | deps/obliv/obliv/voram.py:634-640 | the stored bytes, the root key, the stash and the cache determine all blobs |
| VoramCodec.DecodeImage | deps/obliv/obliv/voram.py:554-605 | the image of a bucket is always exactly the bucket size, and reading it gives back both keys and the same chunks |
| VoramCodec.LengthFits | deps/obliv/obliv/voram.py:232-234 | the length of every chunk that fits into a bucket fits into the length field, and the field is no wider than it must be |
| VoramCodec.ImageLayout | deps/obliv/obliv/voram.py:552-598 | a stored bucket is the key of the left child, the key of the right one, the chunks one after the other, and zeros |
| VoramCodec.ChunkLayout | deps/obliv/obliv/voram.py:576-583 | a chunk is its ident, the length of its data and the data, both numbers with the most significant byte first |
| Positions.Eligible | deps/obliv/obliv/voram.py:520-533 | a bucket is on the path of an ident if and only if the ident lies in the interval that the shifts compute, with no upper end for the last position of a level |
| Positions.OnPathAt | deps/obliv/obliv/voram.py:824-830 | a position is on an ident's path if and only if it is one of the positions that the path lists |
| PathOrams.PathOram.constructor | deps/PathORAM/src/OramReadPathEviction.cpp:11-44 | an empty array of blocks, all buckets full of dummies |
| PathOrams.PathOram.Access | deps/PathORAM/src/OramReadPathEviction.cpp:46-155 | a read returns the last block written or nothing, a write changes exactly this block; the index moves to the drawn leaf; the stash that is left has the least possible size over all legal placements of these blocks on the path, and what left it is such a placement |
| PathOrams.PathOram.Evict | deps/PathORAM/src/OramReadPathEviction.cpp:96-142 | the greedy loop puts every block back exactly once, on the path to its own leaf, drops none although adding to a full bucket does nothing, and leaves the least possible stash |
| PathOramGreedy.EvictEnd | deps/PathORAM/src/OramReadPathEviction.cpp:96-142 | no placement of the same blocks within the bucket size and on each block's own path leaves fewer of them than greedy eviction from the leaf up |
| PathOramGreedy.LegalLeaves | deps/PathORAM/src/OramReadPathEviction.cpp:96-142 | every legal placement leaves at least the blocks that can go no deeper than level m, less the room above it |
| PathOramResults.Run | deps/PathORAM/src/OramReadPathEviction.cpp:46-155 | over any run of accesses and draws, every read returns what a plain map holds |
| PathOramResults.OnePlace | deps/PathORAM/src/OramReadPathEviction.cpp:46-155 | each written index is in exactly one place: the stash, or one bucket on the way to its current leaf; an index never written is nowhere |
| PathOramResults.LastWritten | deps/PathORAM/src/OramReadPathEviction.cpp:72-94 | the plain map answers a read with the last block written at the index |
| PathOramTree.PathBucket | deps/PathORAM/src/OramReadPathEviction.cpp:148-155 | the bucket of a leaf at a level, plus one, is the leaf's number with a leading one, cut to its first bits; it is a bucket of that level |
| SshResults.Run | deps/obliv/obliv/mt_ssh_store.py:252-310 | under every interleaving of the threads, every run of reads, assignments, appends and deletions at the end answers like a plain list that started out as the remote files |
| SshResults.LastAssigned | deps/obliv/obliv/mt_ssh_store.py:252-286 | the plain list's answer to a read is the value assigned last to the index |
| SshResults.FinishedMirrors | deps/obliv/obliv/mt_ssh_store.py:312-319 | after a flush, the files are those of the list as soon as the threads have finished, under any schedule |
| SshResults.CloseMisses | deps/obliv/obliv/mt_ssh_store.py:234-245 | for any number of threads, there is a schedule in which closing sees both queues empty although threads still run if and only if no job was outstanding before the stop orders were queued |
| SshResults.InsertBreaks | deps/obliv/obliv/mt_ssh_store.py:304-310 | a store of one element that was never opened: deleting the element and appending another fails, and leaves a length of one for an empty list |
| SshProtocol.RunProtocol | deps/obliv/obliv/mt_ssh_store.py:92-125 | every schedule of thread steps keeps what the queues, threads, pending maps and files hold together |
| SshStores.SshStore.GetItem | deps/obliv/obliv/mt_ssh_store.py:252-266 | returns the list's element; counted from the front or, for a negative index, from the end; IndexError, ValueError and RuntimeError each exactly under a condition on the index and the state before the call |
| SshStores.SshStore.SetItem | deps/obliv/obliv/mt_ssh_store.py:268-286 | replaces exactly this element, keeps at most `bufsize` unwritten entries, and leaves the new value as the last one to be written back; IndexError exactly out of range, RuntimeError exactly when no thread runs and an unanswered write of the index is pending |
| SshStores.SshStore.DelItem | deps/obliv/obliv/mt_ssh_store.py:288-302 | removes the last element; any other index is an IndexError; RuntimeError exactly as for assignment |
| SshStores.SshStore.Insert | deps/obliv/obliv/mt_ssh_store.py:304-310 | appends; RuntimeError exactly when no thread runs and an unanswered write is pending at the new index, and exactly then the store is broken: its length is one more than its list |
| SshStores.SshStore.Prefetch | deps/obliv/obliv/mt_ssh_store.py:321-347 | ValueError, IndexError or success exactly as the arguments decide; then every index asked for is in the buffer, used last, and at most `bufsize` entries are not being written, so that none of them was dropped for the others |
| SshStores.SshStore.HandleOverflow | deps/obliv/obliv/mt_ssh_store.py:373-388 | takes entries out from the front of the order only, and no more than necessary, until at most `bufsize` entries are not being written; of these, reads are given up, and all others are being written and go to the end; no unsaved value is dropped |
| SshStores.SshStore.ClearPending | deps/obliv/obliv/mt_ssh_store.py:360-371 | ends without a pending operation on the index, or fails exactly when no thread runs and an unanswered write is pending |
| SshStores.SshStore.Process | deps/obliv/obliv/mt_ssh_store.py:401-421 | takes the first response, which can only end a pending operation, and removes a value only with its pending write; the whole protocol holds again, and which operations can still be waited for is as before |
| SshStores.SshStore.Flush | deps/obliv/obliv/mt_ssh_store.py:312-319 | afterwards the buffer holds exactly the writes that are pending, and these include every unsaved value |
| SshStores.SshStore.Close | deps/obliv/obliv/mt_ssh_store.py:234-245 | with threads running, in the end every element is in its file, no other file is left but those that were there beyond the original size, and nothing is pending, even when closing fails; it fails only if the buffer was empty and no job outstanding; without threads it changes nothing, so unsaved values stay in the buffer |
| SkipStashes.SkipStash.GetItem | deps/obliv/obliv/stash.py:99-109 | the map's value, or KeyError |
| SkipStashes.SkipStash.SetItem | deps/obliv/obliv/stash.py:111-137 | the map changes at the key only, for new keys and for overwriting; the links are woven through all levels up to the key's height, which may be new |
| SkipStashes.SkipStash.DelItem | deps/obliv/obliv/stash.py:139-157 | the key is gone from every level, or KeyError exactly if it was not there |
| SkipStashes.SkipStash.KeysRange | deps/obliv/obliv/stash.py:165-176 | yields exactly the keys in the range, as a linear scan of a dictionary would, in ascending order |
| SkipStashes.SkipStash.HeightOf | deps/obliv/obliv/stash.py:87-97 | the byte-wise bit trick finds the last bit of the ident that is set: all bytes behind it are zero, and in its byte all lower bits |
| SkipStashes.SkipStash.Len | deps/obliv/obliv/stash.py:84-85 | the size counter is the number of keys |
| SkipStashes.LevelList | deps/obliv/obliv/stash.py:72-137 | following the links of a level from the heads visits exactly the sorted keys whose height reaches the level |
| RevLex.EachBucketOnce | deps/PathORAM/src/OramDeterministic.cpp:100-111 | for every level, any 2^level consecutive values of the counter evict paths that visit each bucket of the level exactly once |
| RevLex.RevRev | deps/PathORAM/src/OramDeterministic.cpp:175-192 | reversing the bits twice gives the number back |
| RevLex.RevBit | deps/PathORAM/src/OramDeterministic.cpp:175-192 | bit k of the reversal is bit k of the number, counted from the other end |
| RevLex.EvictionSchedule.ReverseBits | deps/PathORAM/src/OramDeterministic.cpp:175-192 | the loop computes the reversal of the counter's low bits, which is a leaf |
| RevLex.EvictionSchedule.NextLeaf | deps/PathORAM/src/OramDeterministic.cpp:100-111 | each eviction advances the counter by one and goes through the buckets of the schedule at every level |
| Lru.LRUCache.Get | mains/proxy.go:61-70 | the value of the key, which moves to the front of the list; links, map and order agree again |
| Lru.LRUCache.Put | mains/proxy.go:73-102 | the key with its value is in front; if it was new and the cache full, the last key is gone; links, map and order agree again |
| Lru.LRUCache.Evict | mains/proxy.go:113-145 | removes and returns the last entry, if there is one |
| LruResults.Run | mains/proxy.go:61-145 | over any run the linked cache holds what the simple list holds: the keys in the order of their last uses, with the values stored last, never more than the capacity |
| LruResults.RecentFirst | mains/proxy.go:61-145 | after any run the keys are in the order of their last uses and each has the value stored last |
| LruResults.RecentKept | mains/proxy.go:73-102 | in a run without explicit evictions, a key that was used and is not there was displaced: the cache is full and every key in it was used later |
| LruResults.EvictsLeastRecent | mains/proxy.go:125-145 | the key that eviction removes was used longer ago than every other |

## Findings

Behaviour of the program that differs from what it promises, each with the exact condition.

* **A lookup after a failed deletion can lose a subtree** (deps/obliv/obliv/hirb.py:506-508). Deleting an absent key
  raises KeyError before the reads of the last step are written back, so that the child's new ident is still in the
  vORAM's cache. A lookup that starts at that child pre-generates another ident for it and writes it to the root,
  but the fetch finds the blob in the cache and does not rename it. `HirbTree.Hirb.Lookup` shows that this happens
  if and only if `Stale(x)` held before the call; `HirbResults.AbsentDeleteBreaks` is an instance for every tree of
  height one. Sets and deletions are safe, since they write back first.
* **Closing the SFTP store can fail although all is well** (deps/obliv/obliv/mt_ssh_store.py:428-441). Waiting for the
  threads is skipped when both queues are empty, which also happens when every thread has taken its order to stop
  and none has answered; then the thread count is not zero and the assertion fails. `SshStores.SshStore.Close` and
  `SshResults.CloseMisses` show that this can happen exactly when the buffer is empty and no job is outstanding
  when closing starts. No data is lost: the files equal the list in any case.
* **Appending to a store without threads can break it** (deps/obliv/obliv/mt_ssh_store.py:304-310). The length is
  counted up before the assignment, which raises RuntimeError when a deletion of the same index is still pending.
  `SshStores.SshStore.Insert` has the exact condition, `SshResults.InsertBreaks` two calls that lead there.
* **Closing a store without threads saves nothing** (deps/obliv/obliv/mt_ssh_store.py:244-245): the last clause of
  `SshStores.SshStore.Close`.
* **Items given to the HIRB constructor are not counted** (deps/obliv/obliv/hirb.py:249-275): its length is the number
  of items less `uncounted`, and the threshold for growing is compared with that number.
* The comment of `_assert_running` (deps/obliv/obliv/mt_ssh_store.py:247-250) promises an AssertionError; the code
  raises RuntimeError, and so does the model.
* The comment of the HIRB (deps/obliv/obliv/hirb.py:142-147) promises two reads in each of `height` rounds for any
  operation. A lookup without disguise makes one read a round, and a failed deletion leaves its last round open.

## Left out

- HirbVoram.OnVoram: the vORAM is run after the HIRB, on the calls that the HIRB recorded, and not call by call from inside the HIRB's methods; it has the number of levels it starts with.
- HirbResults.Run: runs contain only deletions of present keys, since a failed deletion leaves the reads open; `DeleteItem` alone covers absent keys.
- HirbResults.RunFromEmpty: b is at least 2; with b equal to 1 the threshold never changes, and every assignment that finds that size adds a level.
- SshResults.Run: runs are about a store with threads and a positive buffer bound; the cases without are in the contracts of the single operations.
- Vorams.Voram.constructor: the size is a multiple of the cipher's block size from the start; the program rounds it up after the length field was fixed (deps/obliv/obliv/voram.py:252-256).
- Vorams.Voram.Create: that a drawn ident is new is a precondition, because idents are long random strings.
- PathOrams.PathOram.constructor: the number of levels is a parameter; the program computes it with floating-point logarithms and throws if the blocks do not fit.
- `Hirb.__iter__`, which raises, the pickling hooks of all classes, progress bars and verbose output.
- The hash and the pseudo-random generator of the HIRB, pickling and compression of blobs, AES: any functions, injective encodings and ideal boxes.
- Probabilities: how full a stash gets, that drawn idents collide, or how many items a node has.
- Parameter estimation for both engines, which is floating-point arithmetic over expected sizes.
- Prefetch hints from the vORAM to its storage, and the access counters.
- The storage of the vORAM is a list in memory; the SFTP store is modelled by itself.
- `ListStash` and `DictStash` as classes: the stash of the vORAM is a map, and SkipStash is proved to be one.
- Errors of SFTP operations: every operation succeeds. A thread that deletes a file which was never written, or reads one that was deleted meanwhile, would stop with an exception in the program; in the model the first does nothing, and the second returns nothing and is never waited for.
- `set_len`, the byte counters, `__getstate__` and `__setstate__` of the SFTP store.
- Weak references from threads to their store, and the time-outs of threads that wait for work.
- `OramDeterministic` as a store: it looks for a block on the path only, not in the stash, and is not an array; only its schedule is modelled.
- The heaps, request batching, HTTP, JSON and etcd code of the Go programs, and the mutex of the LRU cache, whose operations are modelled as atomic.
