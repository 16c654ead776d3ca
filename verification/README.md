# Verified model of spongeDB's core components

spongeDB is a C toolbox: data structures, hashes, an event loop and a reserve
pool. This project models six of its components in Dafny, in the form the C code
has (heap objects, in-place updates, loops), and proves each against an
independent specification.

| modules | component | what it is proved against |
|---|---|---|
| `SkipListOrder`, `SkipListShape`, `SkipLists` | multi-level list of `src/spg_skiplist.c` | a sorted sequence; every level is a subsequence of the bottom chain |
| `SkipListRuns` | whole runs of its interface | an unsorted stack scanned from the most recent entry |
| `SkipListConcurrent` | a search beside any number of inserts | the sequential answer at the moment of its last look |
| `Words`, `Crc32c`, `Crc32cCheck` | `src/algo_crc32.c` | the bit-at-a-time register, polynomial division over GF(2), and published check values |
| `Sha1Spec`, `Sha1Block`, `Sha1Stream`, `Sha1Check` | `src/algo_sha1.c` | FIPS PUB 180-1, sections 4 to 7, and its digest of "abc" |
| `MemPool` | `src/mempool.c` | every node in exactly one place, and a replay of the counters alone |
| `ListHead` | `include/ds/list.h` | sequence operations on well-formed rings |
| `AeClock`, `AeTimers`, `AeMasks`, `AeFiles` | `src/ae.c`, `src/ae_epoll.src` | exact arithmetic, a full scan, a plain sequence of masks with an abstract kernel interest set |
| `Seqs`, `Counters`, `AeCodes` | shared vocabulary | |

How to read it:

- Heap structures carry a ghost sequence (`chain`, `list`, `reserve`, `msg`) and
  a `Valid()` or `Shape()` predicate that ties the pointers to it. Methods state
  the new sequence as a function of the old one; `modifies` clauses name the
  fields written, which is what leaves unrelated structures untouched.
- Values the environment chooses are parameters or free choices: the height
  `skl_gen_level` draws, whether an allocation succeeds, the clock, what a timer
  handler or a finalizer does, whether the kernel refuses a call.
- What the handlers of one pass ask for is a script, one answer a call; behind its
  end they ask for no more. `RunHandler` alone records the calls of handlers,
  `RunFinalizer` alone those of finalizers, and the account of a pass is tied to
  both.
- 32-bit counters wrap explicitly where the code relies on them. `hide`
  statements only narrow what the verifier looks at.

## Where the code does not do what it is for

These are kept as they are, with the exact condition under which they work.

- `skl_insert` never fills `prev[]` below the current level
  (src/spg_skiplist.c:289-301), so it follows a null pointer exactly when the list
  is not empty: `InsertAsWritten`, and in every run at the second insert:
  `SecondInsertWitness`. `Insert` puts the search that exists for this purpose
  (`skl_get_big_equal` with its `prev` argument) in front.
- After a reschedule the cached timer is compared with itself
  (src/ae.c:405-409). It stays right exactly when the rescheduled event is not the
  cached one or no other event is earlier than the new time:
  `RescheduleAsWritten`, with the run `StaleCacheWitness`. The pass is proved for
  both variants; cache agreement over whole runs uses the scan.
- When the clock was set back, every event moves to second 0 and the cache is not
  refreshed (src/ae.c:365-371): behind that check the cache is right exactly when
  the cached event has the fewest milliseconds: `CheckClock`. As the code stands
  the reschedules that follow can leave it wrong, also with a clock past the epoch:
  `SetBackStaleWitness`.
  With the scan after a reschedule it is right after the pass exactly when some
  event was due or it was right behind the check: `ProcessTimeEvents`. With a clock
  past the epoch every event is due (`SetBackIsDue`), so with the scan whole runs
  keep the cache right; before the epoch they need not: `BeforeEpochWitness`.
- A handler that deletes its own event is handled correctly exactly when it then
  asks for no more; otherwise the loop writes into a freed event: `FireOne`. A
  handler that keeps its event and asks for a delay at or below zero, other than
  -1, leaves it due, and only such an event fires again in the same pass:
  `FireOne`, `DueAgain`, `Pass`. The pass ends as long as the handlers do so only
  finitely often.
- A negative delay can leave milliseconds below zero (`AddIsExact` says when,
  `NegativeDelayWitness`); a wait is then too long exactly when they are more than
  a second short of the clock's: `WaitIsExact`.
- `aeDeleteFileEvent` ignores what `epoll_ctl` answers. A refused MOD or DEL leaves
  table and interest set apart unless the descriptor keeps the events it had:
  `DeleteFileEvent`, with `RefusedDeleteWitness`. `aeCreateFileEvent` with a zero
  mask on an idle descriptor does the same: `CreateFileEvent`, with
  `ZeroMaskWitness`.
- `put_mp_nodes` writes past its slots exactly when the resize it needs cannot
  allocate and the reserve would grow beyond the slots: `PutNodes`, with
  `BeyondSlotsWitness`; the rollback of a failed get does so under the same
  condition: `CleanNodeList`, `GetNodes`. A resize that succeeds reads past the old
  slots exactly when the array grows: `Resize`, with `OverreadWitness`.
- The rollback of a failed get puts back every entry up to the first NULL, also
  those the get did not fill in. It stays within the nodes obtained exactly when
  the entry behind them was NULL, and the account of the nodes stays right exactly
  when the others were held by the caller and occur once: `GetNodes`, with
  `StaleEntryWitness`.
- A negative water level, once in force, makes the pool take from an empty reserve:
  `UpdateSyswl`, `UpdateMpwl`, with `NegativeLevelWitness`.
- The block guard of `SHA1Update` wraps when buffered and new bytes reach 2^32, and
  the last copy is then larger than the buffer: `Update`, `GuardExact`, with
  `OverrunWitness`. The address rounding of `get_crc32` wraps in the last three
  bytes of the address space, and the first loop then leaves the buffer:
  `GetCrc32`, `AlignUpExact`, with `WrapWitness`.
- An overdue timer is waited for up to 999 ms, and waits beyond 2^31 - 1 ms do
  not survive the conversion to int: `OverdueWait`, `WaitIsExact`.
- `skl_flush_all` looks at a 32-bit counter and keeps a list of exactly
  k * 2^32 nodes: `FlushAll`.

Where comment and code differ, the code is followed: the comment above
`aeResizeSetSize` refuses a size when a descriptor at or above the size minus one is in use,
the code when one at or above the size is (src/ae.c:151-165).
`list_cut_position` on an empty list leaves the target list uninitialised
(include/ds/list.h:267-268).

## Model

| member | source | states |
|---|---|---|
| SkipListOrder.FirstGEUnique | src/spg_skiplist.c:139-164 | on a sorted list the first key not below the argument is characterised by its neighbours alone |
| SkipListOrder.TakeUndoesPut | src/spg_skiplist.c:316-333 | taking a key right after inserting it yields that very key and restores the sequence |
| SkipListOrder.InsertedSorted | src/spg_skiplist.c:274-313 | inserting before the first key not smaller keeps the order |
| SkipListShape.SuccWith | src/spg_skiplist.c:297-301 | how every level-i successor changes when a tower of any height goes in at any position |
| SkipLists.SkipList.GetBigEqual | src/spg_skiplist.c:139-164 | returns the node a linear scan finds; prev[i] is the last node before it that reaches level i, other slots untouched; terminates on (level, nodes remaining) |
| SkipLists.SkipList.constructor | src/spg_skiplist.c:225-255 | an empty list: only a head of full height, level and length zero |
| SkipLists.SkipList.ThreadLevel | src/spg_skiplist.c:297-301 | publishing one level hangs the new tower in on that level and changes no other link |
| SkipLists.SkipList.LinkIn | src/spg_skiplist.c:297-309 | for every height, linking keeps every level the exact subsequence of the longer bottom chain, with back links and tail right |
| SkipLists.SkipList.FillAbove | src/spg_skiplist.c:289-295 | levels the list did not have start at the head, the level becomes the maximum, other slots stay |
| SkipLists.SkipList.Insert | src/spg_skiplist.c:274-313 | with the predecessor search in front: the whole shape is kept and the key stands before its equals; a failed allocation changes nothing |
| SkipLists.SkipList.InsertAsWritten | src/spg_skiplist.c:274-313 | the code as it stands follows a null pointer if and only if memory was available and the list was not empty |
| SkipLists.SecondInsertWitness | src/spg_skiplist.c:274-313 | for every order, keys and heights the second insert as it stands follows a null pointer |
| SkipLists.SkipList.UnthreadLevel | src/spg_skiplist.c:107-110 | one patch takes the tower out of one level and changes no other link |
| SkipLists.SkipList.Unthread | src/spg_skiplist.c:101-116 | the backward walk patches each level at its true predecessor, never runs off the head, and leaves the tower on no level |
| SkipLists.SkipList.PatchAt | src/spg_skiplist.c:107-110 | one tower on the way back is patched on all levels it reaches and no nearer tower did |
| SkipLists.SkipList.UnhookBack | src/spg_skiplist.c:117-122 | back links and tail of the shorter chain |
| SkipLists.SkipList.LowerLevel | src/spg_skiplist.c:126-134 | the level ends as the greatest height left |
| SkipLists.SkipList.DeleteNode | src/spg_skiplist.c:99-137 | exactly that node leaves the chain and is released, and the whole shape is kept |
| SkipLists.SkipList.FindGet | src/spg_skiplist.c:316-333 | returns and removes the first key equal to the argument, or nothing |
| SkipLists.SkipList.Contain | src/spg_skiplist.c:336-349 | true if and only if some key equals the argument |
| SkipLists.SkipList.TravStraight | src/spg_skiplist.c:89-97 | visits the keys in order |
| SkipLists.SkipList.TravReverse | src/spg_skiplist.c:80-87 | visits the keys in exactly the reverse order |
| SkipLists.SkipList.FlushAll | src/spg_skiplist.c:366-384 | releases every data node once, last first, and leaves an empty list, unless the 32-bit length reads zero |
| SkipLists.SkipList.LevelIsSubsequence | src/spg_skiplist.c:17-26 | following level-i links from the head meets exactly the nodes higher than i in bottom order; all nodes at level 0, none at or above the list level |
| SkipListRuns.Execute | src/spg_skiplist.c:225-384 | every run of insert, find, contain and flush answers like an unsorted stack scanned newest first, and holds the same multiset of keys |
| SkipListRuns.StackPut | src/spg_skiplist.c:274-313 | insertion keeps all equal keys in the stack's order |
| SkipListRuns.StackTake | src/spg_skiplist.c:316-333 | among equal keys the most recently inserted one is found and removed |
| SkipListConcurrent.ScanIsFirstGE | src/spg_skiplist.c:139-164 | the answer used below is the one the sequential list gives: as many nodes before it as keys before the first not smaller |
| SkipListConcurrent.PublishLink | src/spg_skiplist.c:297-301 | publishing one level turns the links of the list into those of the list with that tower one level higher |
| SkipListConcurrent.WriterKeepsInv | src/spg_skiplist.c:289-301 | each shared access of the inserts keeps the links exactly as published so far, and publishing never goes back |
| SkipListConcurrent.BottomLook | src/spg_skiplist.c:148-162 | the last look of a search returns the right answer for the bottom chain as it is at that moment |
| SkipListConcurrent.RunKeepsInv | src/spg_skiplist.c:297-301 | under every interleaving of a search with any number of inserts no step follows a null or dangling link |
| SkipListConcurrent.Window | src/spg_skiplist.c:146-162 | the moments a search records as its begin and its last look are moments of its own run |
| SkipListConcurrent.SearchIsLinearizable | src/spg_skiplist.c:297-301 | under every interleaving with any number of successive inserts a finished search has the sequential answer for the bottom chain at its last look, which lies between its begin and its end |
| SkipListConcurrent.SearchIsWaitFree | src/spg_skiplist.c:146-162 | the search ends within a bound on its own steps however the writer runs |
| SkipListConcurrent.WriterProgress | src/spg_skiplist.c:289-301 | every access of the writer brings the inserts one access nearer to their end, until all are done |
| SkipListConcurrent.AllInserted | src/spg_skiplist.c:289-301 | under every schedule all inserts are done if and only if the writer had one turn and two for each level of each new tower; then every level links exactly the towers that reach it, and the level is the greatest of the initial one and the new heights |
| SkipListConcurrent.LateSearch | src/spg_skiplist.c:146-162 | a search that begins after those turns answers for the complete list |
| Crc32c.ZerosLinear | src/algo_crc32.c:206-209 | pushing zero bits through the register is linear over XOR |
| Crc32c.TablesCountZeros | src/algo_crc32.c:210-217 | table k gives what 8(k+1) zero bits do to a byte |
| Crc32c.TableHoldsPoly | src/algo_crc32.c:35 | entry 128 of table0 is the reversed polynomial |
| Crc32c.FeedByte | src/algo_crc32.c:206-209 | STEP1 feeds the eight bits of a byte, least significant first |
| Crc32c.Step4IsFourStep1 | src/algo_crc32.c:210-217 | one STEP4 on a little-endian load equals four STEP1s |
| Crc32c.AlignUpExact | src/algo_crc32.c:221-222 | the rounded pointer is the next multiple of four if and only if the address is not in the last three bytes of the address space, where it is 0 |
| Crc32c.GetCrc32 | src/algo_crc32.c:200-253 | for every buffer, start address and length the four loops stay inside the buffer if and only if the alignment does not wrap, and then return the complement of the bit-at-a-time register that started from the complement of the argument |
| Crc32c.WrapWitness | src/algo_crc32.c:221-228 | a call whose first loop leaves the buffer |
| Crc32c.CrcChains | src/algo_crc32.c:200-253 | the checksum continued over a second buffer is the checksum of the concatenation |
| Crc32c.PolyIsGenerator | src/algo_crc32.c:35 | the reversed constant has the terms of the generator 0x11EDC6F41 |
| Crc32c.RegisterIsRemainder | src/algo_crc32.c:200-253 | the register is the remainder, of degree below 32, of the initial value and message polynomial divided by the generator |
| Crc32c.CrcIsRemainder | src/algo_crc32.c:200-253 | the dividend starts from the complement of the argument, and the complement of the returned value is the remainder |
| Crc32c.Flip | src/algo_crc32.c:204 | the exclusive or with all ones is the complement, and undoes itself |
| Crc32cCheck.Digits | src/algo_crc32.c:200-253 | the checksum of the nine digits is 0xE3069283 |
| Crc32cCheck.ZeroBytes | src/algo_crc32.c:200-253 | 32 zero bytes give 0x8A9136AA, the value of section B.4 of RFC 3720 |
| Words.LittleIsSum | src/algo_crc32.c:192-198 | a word loaded has the first byte in memory as its lowest digit to the base 256 |
| Words.SwapLittle | src/algo_sha1.c:33-35 | blk0 turns a little-endian load into the big-endian word |
| Words.Rol1Exact | src/algo_sha1.c:29 | the rotation by one doubles the word and brings the top bit in at the bottom |
| Words.Rol5Exact | src/algo_sha1.c:29 | the rotation by five, in terms of quotient and remainder |
| Words.Rol30Exact | src/algo_sha1.c:29 | the rotation by thirty, in terms of quotient and remainder |
| Words.BigBytesAreDigits | src/algo_sha1.c:188-191 | the four bytes written out are the digits of the word to the base 256, most significant first |
| Sha1Block.ChooseRewrite | src/algo_sha1.c:45-46 | the macro's choice function is the standard's |
| Sha1Block.MajorityRewrite | src/algo_sha1.c:48 | the macro's majority function is the standard's |
| Sha1Block.Blk0 | src/algo_sha1.c:33-35 | the in-place load yields schedule word i and keeps the ring |
| Sha1Block.Blk | src/algo_sha1.c:41-42 | the in-place expansion yields schedule word i and keeps the last sixteen |
| Sha1Block.R0 | src/algo_sha1.c:45 | one round with renamed registers is round i of the standard, i below 16 |
| Sha1Block.R1 | src/algo_sha1.c:46 | the same for rounds 16 to 19 |
| Sha1Block.R2 | src/algo_sha1.c:47 | the same for rounds 20 to 39 |
| Sha1Block.R3 | src/algo_sha1.c:48 | the same for rounds 40 to 59 |
| Sha1Block.R4 | src/algo_sha1.c:49 | the same for rounds 60 to 79 |
| Sha1Block.Transform | src/algo_sha1.c:54-110 | the ring of sixteen words and eighty renamed rounds compute the section 7 compression with its 80-word schedule |
| Sha1Stream.CountsGrow | src/algo_sha1.c:133-136 | the two counter words are the bit length modulo 2^64 after every update |
| Sha1Stream.BufferedLength | src/algo_sha1.c:137 | the buffered length is the byte total modulo 64 |
| Sha1Stream.GuardExact | src/algo_sha1.c:138 | the wrapped block guard decides rightly if and only if buffered plus new bytes stay below 2^32 |
| Sha1Stream.NoWrap | src/algo_sha1.c:141 | i + 63 never wraps in the block loop |
| Sha1Stream.Context.constructor | src/algo_sha1.c:115-124 | a fresh context stands for the empty message |
| Sha1Stream.Context.Update | src/algo_sha1.c:129-148 | the last copy fits the buffer if and only if buffered plus new bytes stay below 2^32, and then the context stands for the old message followed by the new bytes |
| Sha1Stream.Context.PadZeros | src/algo_sha1.c:183-186 | the padding loop ends within one block with exactly the zeros section 4 asks for |
| Sha1Stream.Context.Final | src/algo_sha1.c:153-195 | the digest is that of the padded message, and the context is wiped |
| Sha1Stream.HashPieces | src/algo_sha1.c:129-195 | every way of cutting a message into updates that all fit gives the digest of the whole |
| Sha1Stream.OverrunWitness | src/algo_sha1.c:138-147 | two updates of which the second copies past the buffer |
| Sha1Spec.PadFillsBlocks | src/algo_sha1.c:181-187 | the padded length is a whole number of blocks and less than a block longer than needed |
| Sha1Spec.LengthIsBigEndian | src/algo_sha1.c:176-179 | the length field holds the bit count as eight digits to the base 256, most significant first |
| Sha1Check.AbcDigest | src/algo_sha1.c:11-12 | the digest of "abc", all twenty bytes |
| MemPool.Pool.RemoveElement | src/mempool.c:15-19 | the last spare node moves to the caller |
| MemPool.Pool.AddElement | src/mempool.c:21-25 | a node becomes the last spare node; the asserted room below the level is there at every call |
| MemPool.Pool.Resize | src/mempool.c:27-48 | the spare nodes survive; the slot count becomes the level in exactly the cases the guards allow; the copy reads past the old slots if and only if the array grows |
| MemPool.Pool.Trim | src/mempool.c:190-197 | the newest spare nodes beyond the target are released in order, once each; an empty reserve is taken from if and only if the target is negative |
| MemPool.PutConserves | src/mempool.c:141-167 | after putting any nodes back every node is in one place and released once if and only if they were held by the caller and given once each |
| MemPool.AfterTwice | src/mempool.c:101-111 | putting two batches one after the other is putting their concatenation |
| MemPool.Pool.PutNodes | src/mempool.c:141-167 | the first nodes up to the level become spare in order, the rest are released in order; slots are overrun if and only if a needed resize failed |
| MemPool.Pool.CleanNodeList | src/mempool.c:101-111 | stops at the first NULL, puts back exactly the entries before it, whatever they are, and clears them; the exact conditions for overrun slots and for conservation |
| MemPool.Pool.GetNodes | src/mempool.c:122-139 | succeeds if and only if the spare nodes cover the failed allocations, and then gives distinct nodes not held before, spare ones exactly for those, in output order the newest first; failure puts back what was obtained and the entries behind it up to the first NULL, leaves the reserve at min(put back, level), never smaller than before, and keeps every node in one place if and only if the caller held those entries once each |
| MemPool.Pool.TakeOne | src/mempool.c:113-135 | a node from the allocator if it has one, else the newest spare node, else none |
| MemPool.Pool.UpdateSyswl | src/mempool.c:169-188 | the reserve is cut to the new level, the surplus released, the invariant kept, if and only if that level is not negative |
| MemPool.Pool.UpdateMpwl | src/mempool.c:202-210 | the same for new water levels |
| MemPool.Pool.Destroy | src/mempool.c:50-58 | every spare node is released once, the newest first |
| MemPool.CreateMp | src/mempool.c:60-99 | a full reserve if and only if no allocation fails, otherwise all nodes obtained so far are released |
| MemPool.ReachIsFirst | src/mempool.c:127-134 | a get stops at the first failed allocation that finds no spare node |
| MemPool.BeyondSlotsWitness | src/mempool.c:146-153 | a run in which a put writes past the slots |
| MemPool.StaleEntryWitness | src/mempool.c:105-109 | a run in which the pool releases a node it never obtained |
| MemPool.NegativeLevelWitness | src/mempool.c:169-188 | a level change that takes from an empty reserve |
| MemPool.OverreadWitness | src/mempool.c:40-47 | a resize that reads past the old slots |
| MemPool.Run | src/mempool.c:27-210 | over every run in which any allocation and any resize may fail, up to the first faulting call, which a replay of the counters foretells exactly: each node obtained is spare, held by the user or released once, and counters, levels and slots are those of the replay |
| ListHead.InitListHead | include/ds/list.h:43-47 | an empty ring |
| ListHead.ListAdd | include/ds/list.h:55-75 | the entry goes behind any position of the ring |
| ListHead.ListAddTail | include/ds/list.h:85-88 | the entry goes before any position |
| ListHead.ListDelEntry | include/ds/list.h:97-112 | the entry leaves the ring |
| ListHead.ListDel | include/ds/list.h:114-119 | the entry leaves the ring and its links are cleared |
| ListHead.ListDelInit | include/ds/list.h:147-151 | the entry leaves the ring and becomes an empty ring |
| ListHead.ListReplace | include/ds/list.h:128-134 | the new node takes the place of an entry, or of the head, also of an empty ring |
| ListHead.ListMove | include/ds/list.h:158-162 | the entry moves behind any position of its own or another ring, and both stay well formed |
| ListHead.ListMoveTail | include/ds/list.h:169-174 | the entry moves before any position of its own or another ring, and both stay well formed |
| ListHead.ListEmpty | include/ds/list.h:191-194 | true if and only if there is no entry |
| ListHead.ListIsSingular | include/ds/list.h:233-236 | true if and only if there is one entry |
| ListHead.ListRotateLeft | include/ds/list.h:219-227 | the first entry moves to the end |
| ListHead.FullTurn | include/ds/list.h:219-227 | as many rotations as entries are the identity |
| ListHead.RotateAll | include/ds/list.h:219-227 | the same on the heap |
| ListHead.ListCutPosition | include/ds/list.h:238-275 | prefix and suffix become two rings; an empty ring leaves both alone |
| ListHead.ListSplice | include/ds/list.h:277-300 | the entries of one ring go behind any position of another |
| ListHead.ListSpliceTail | include/ds/list.h:307-312 | the entries go before any position |
| ListHead.ListSpliceInit | include/ds/list.h:321-328 | splice, and the emptied list is a ring again |
| ListHead.CutThenSplice | include/ds/list.h:264-328 | cutting anywhere and splicing back restores the ring |
| AeClock.AddIsExact | src/ae.c:256-269 | the sum is now plus delay for every delay; milliseconds are in range if and only if the delay is not negative or takes no more than the current milliseconds below a second |
| AeClock.DueAgain | src/ae.c:385-386 | a rescheduled event is due again, while the clock stands still, if and only if its delay is not positive |
| AeClock.NegativeDelayWitness | src/ae.c:256-269 | a delay of -1 at a full second stores -1 milliseconds |
| AeClock.WaitIsExact | src/ae.c:456-475 | a timer not overdue is waited for exactly if and only if its milliseconds are at most a second short of the clock's and the wait fits an int |
| AeClock.OverdueWait | src/ae_epoll.src:127-128 | an overdue timer is waited for the millisecond part of the difference, at most 999, or not at all when its milliseconds are more than a second short |
| AeTimers.Timers.UpdateLatestTimeEvt | src/ae.c:66-84 | the cache moves only to an event strictly earlier |
| AeTimers.Timers.FindLatestTimeEvt | src/ae.c:86-105 | the cache becomes the first of the nearest events of the list |
| AeTimers.Timers.CreateTimeEvent | src/ae.c:271-291 | a new event in front with the next id; cache agreement is kept; milliseconds stay in range, and proper unless the delay is negative; a failed allocation only uses up the id |
| AeTimers.Timers.DeleteTimeEvent | src/ae.c:293-316 | the event with that id leaves the list and the cache agrees, whatever its finalizer creates and deletes in between, and it alone leaves when the finalizer does nothing; exactly the events that leave are finalized, once each; or an error and no change |
| AeTimers.Timers.RunFinalizer | src/ae.c:304-307 | the event is finalized first, and whatever that does, exactly the events it deletes are finalized after it |
| AeTimers.Timers.Act | src/ae.c:304-307 | any creations and deletions, with finalizers nested to any depth, keep shape, cache membership and cache agreement, and any deletion restores agreement |
| AeTimers.Timers.RescheduleAsWritten | src/ae.c:405-409 | the cache stays right if and only if the event is not the cached one or no other is earlier than its new time; it moves exactly to an event other than the cached one and strictly earlier |
| AeTimers.StaleCacheWitness | src/ae.c:405-409 | a run after which the cache names an event that is not the nearest |
| AeTimers.Timers.Reschedule | src/ae.c:405-409 | a fired event gets now plus its delay, in place, and stays pending if and only if the delay is not positive; no other event changes; as the code stands the cache stays right under the condition of `RescheduleAsWritten` |
| AeTimers.Timers.RunHandler | src/ae.c:389-390 | a handler may create and delete any events, its own included; the call is recorded with the answer and with whether the event survived it |
| AeTimers.Timers.Discard | src/ae.c:411-413 | a fired event that wants no more is gone afterwards and the cache agrees, also when its handler had deleted it already |
| AeTimers.Timers.FireOne | src/ae.c:389-415 | one firing calls the handler of that event exactly once and gets the scripted answer; afterwards the event is out of the list, or stands at the clock plus the answer exactly when it was kept and the answer was not -1; it is pending again if and only if it was kept and asked for no later time; exactly the events deleted meanwhile stop being pending, and none is added; as the code stands the cache is told exactly from the one the handler left |
| AeTimers.Timers.Pass | src/ae.c:374-420 | terminates although it restarts from the head; the calls made are exactly the firings logged, with the script's answers in order, newest event first; the events fired or deleted while due are exactly those due at the start, and only an event that stayed due fires again; each event that fired has left or stands at the clock plus its last answer, the others keep their time; exactly the events that leave are finalized, once each; a freed event is used if and only if some handler deleted its own event and did not ask for no more; the cache behind the last call is exact for both variants |
| AeTimers.Log.OnceEach | src/ae.c:374-420 | when no event stays due each one fires exactly once or was deleted by another handler first |
| AeTimers.Timers.ForceDue | src/ae.c:365-371 | a clock set back moves every event to second 0 and keeps its milliseconds |
| AeTimers.Timers.CheckClock | src/ae.c:350-372 | after the clock check the due events are those of second 0 if the clock was set back, and the cache agrees if and only if it did before, or the cached event has the fewest milliseconds |
| AeTimers.Timers.SetBackIsDue | src/ae.c:365-371 | past the epoch a clock set back makes every event due |
| AeTimers.Timers.ProcessTimeEvents | src/ae.c:350-421 | the pass over the events due after the clock check, with the same account of calls, answers and final times; with the scan the cache agrees afterwards if and only if some event was due or it agreed after the check, and as the code stands it is the one told from the last call |
| AeTimers.BeforeEpochWitness | src/ae.c:365-371 | a run with a clock set back before the epoch that leaves the cache wrong, also with the scan |
| AeTimers.SetBackStaleWitness | src/ae.c:365-409 | after a clock set back, past the epoch, the code as it stands leaves the cache wrong |
| AeTimers.Timers.PollTimeout | src/ae.c:440-489 | when the loop polls, and with which timeout: 0 when it must not wait, -1 without timers, else the wait of the cached timer, milliseconds out of range included |
| AeTimers.Timers.NearestInMilliseconds | src/ae.c:456-475 | with milliseconds in range the cached timer has the least time of all |
| AeTimers.RunThenPoll | src/ae.c:271-489 | with the scan after a reschedule: after every run without negative delays, without a freed event used and with no clock set back to the epoch or before, the wait ends with the nearest timer |
| AeTimers.Run | src/ae.c:271-421 | over every run up to the first use of a freed event, clocks set back and all handlers and finalizers included, the list keeps its shape and the cache names an event of it; with the scan after a reschedule the cache agrees with a scan of the list as long as no clock is set back to the epoch or before |
| AeFiles.FileTable.constructor | src/ae.c:108-135 | no events, no descriptor, an empty interest set |
| AeFiles.FileTable.ApiAddEvent | src/ae_epoll.src:77-97 | ADD for an idle descriptor, MOD for a watched one, merged events |
| AeFiles.FileTable.ApiDelEvent | src/ae_epoll.src:99-120 | MOD with the remaining events, DEL when none remain; nothing changes when the kernel refuses |
| AeFiles.FileTable.CreateFileEvent | src/ae.c:195-215 | each event bit is set afterwards, in the table and in the word the kernel holds, if and only if it was set or asked for, and table, maxfd and interest set agree if and only if some event is left for the descriptor |
| AeFiles.FileTable.DeleteFileEvent | src/ae.c:217-236 | each event bit stays if and only if it was set and is not deleted, maxfd is right, and the interest set agrees if and only if the kernel did not refuse or had nothing to change |
| AeFiles.FileTable.KernelWatches | src/ae_epoll.src:86-91 | as long as they agree the kernel watches for input exactly when the table says readable and for output exactly when it says writable |
| AeMasks.TwoBits | src/ae.c:195-236 | merging and clearing masks, on the readable and the writable bit |
| AeMasks.MergeRest | src/ae.c:206 | merging goes bit by bit: with `MergeLow`, the rest of a merged mask is the merge of the rests |
| AeMasks.ClearRest | src/ae.c:226 | clearing goes bit by bit: with `ClearLow`, the rest of a cleared mask is the cleared rest |
| AeMasks.WatchedBits | src/ae_epoll.src:86-91 | the events word says 1 for readable and 4 for writable, and nothing else |
| AeFiles.FileTable.FindMax | src/ae.c:227-235 | maxfd is again the greatest descriptor with events |
| AeFiles.FileTable.ResizeSetSize | src/ae.c:158-180 | refused exactly when a descriptor in use would not fit; otherwise contents are kept and the new slots, whatever they held, are emptied |
| AeFiles.FileTable.GetFileEvents | src/ae.c:238-245 | the mask, nonempty if and only if the kernel watches the descriptor |
| AeFiles.FileTable.Perform | src/ae.c:158-236 | each call does to the masks what it does to a plain sequence, and keeps the agreement exactly when the masks say so |
| AeFiles.Run | src/ae.c:158-236 | over every run, whatever the kernel refuses: table, maxfd and interest set agree and no ADD, MOD or DEL is out of place until the first call that the masks alone show to break the agreement |
| AeFiles.ZeroMaskWitness | src/ae.c:195-215 | a zero mask on an idle descriptor breaks the agreement |
| AeFiles.RefusedDeleteWitness | src/ae.c:217-236 | a refused DEL breaks the agreement |

## Left out

- SkipLists.SkipList.Insert: runs the predecessor search the code lacks; `InsertAsWritten` is the code without it.
- SkipLists.SkipList.constructor: without a compare function or memory `skl_create` returns no list at all.
- SkipListRuns.Execute: its inserts are `SkipLists.SkipList.Insert`.
- SkipListConcurrent.SearchIsLinearizable: memory accesses are sequentially consistent, one writer inserts and finds its predecessors before its first access; a search beside a deletion is not covered.
- Crc32c.GetCrc32: the four tables are their recurrence, not the 1024 literals.
- Crc32c.TableHoldsPoly: speaks of the table by recurrence; the literal is not compared.
- Sha1Stream.Context.Update: a little-endian host is assumed.
- Sha1Spec.PadFillsBlocks: messages of 2^64 bits and more, which the standard excludes, take their length modulo 2^64.
- MemPool.Pool.PutNodes: at most 2^31 - 1 nodes, although the argument is unsigned, because the loops count with a signed int.
- MemPool.Pool.CleanNodeList: at most 2^31 - 1 nodes, for the same reason.
- MemPool.Pool.GetNodes: at most 2^31 - 1 nodes, for the same reason.
- MemPool.Pool.UpdateSyswl: the level is one of the three; the code indexes its table with any number.
- MemPool.Run: the user hands in NULL-filled arrays and puts back nodes of his own; what happens otherwise is in `GetNodes` and `PutNodes`.
- AeTimers.Timers.Pass: the clock stands still, and the handlers' script is finite; a pass in which they leave events due for ever does not end in the code either.
- AeTimers.Timers.ProcessTimeEvents: whether the cache agrees after the pass is for the scan after a reschedule; as the code stands the cached event is given, and each reschedule has its condition in `Reschedule`.
- AeTimers.Run: cache agreement is for the scan after a reschedule, see `RescheduleAsWritten`.
- AeFiles.FileTable.constructor: without memory or an epoll descriptor `aeCreateEventLoop` returns no loop at all.
- Read and write callbacks, `beforesleep` and the loop in `aeMain`: no structural state of their own.
- `aeApiPoll`'s conversion of ready events and their dispatch in `aeProcessEvents`: a per-entry translation.
- `skl_gen_level`: heights are any value from 1 to 16.
- Skip-list statistics, locks and `skl_destroy`: no structural property.
- `list_replace_init`, `list_splice_tail_init`, `list_is_last`, `list_empty_careful`, the hlist half and the iteration macros of include/ds/list.h: compositions of what is modelled, or a second representation.
- `src/anet.c`, `src/wr_file.c`, `src/zmalloc.c`, `src/spg_vector.c`, reference counts and atomics: plumbing, linear scans or compiler built-ins.
- Overflow of `long` seconds and of timer ids: plain integers here.
