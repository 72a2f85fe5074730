# Verified model of ffiRPC's stateful cores

ffiRPC is an RPC library in C. Under its sockets and foreign calls lie a handful of stateful cores whose
correctness rests on invariants that no single function shows. This project models those cores in Dafny, in the
form the C code has (classes over arrays and maps, loops, mutual recursion over a heap, interleaved thread steps),
and proves what they promise. Check it with `dafny verify dfyconfig.toml`.

| Files | What they model |
|---|---|
| `Bits`, `ProbeTable`, `HashMap`, `HashMapRuns` | the open-addressing hash map: word arithmetic, linear probing, backward-shift deletion, rehash, iteration that survives removal, whole runs |
| `RingQueue`, `OriginTable` | the growing ring queue, and the table of containers with its list of reusable indices |
| `Graph`, `Cascade`, `Ownership`, `Content`, `World`, `OwnershipRuns`, `Witnesses` | containers, tracked objects, reference counts, the back-reference index, the cascade of frees, what a struct reaches, whole runs, and two short runs |
| `Trees`, `Building`, `DeepCopy` | the value a struct unfolds to, and deep copies |
| `Codec`, `Reading`, `Forms`, `Inflation`, `Duplicates`, `Orders`, `Serialise`, `Deserialise`, `RoundTrip` | JSON forms, what JSON input stands for, the search for duplicates, the orders in which keys come, `rpc_struct_serialize`, `rpc_struct_deserialize`, and the round trip |
| `JobQueue`, `ThreadPool`, `PoolQueue` | the pool's linked queue, the pool as a state machine with one program counter per thread, and the tie between them |
| `Services` | dependency-ordered start-up |

## How the model reads

- **Hash map.** The caller's compare and hash functions are a pair `norm`, `hash`: two keys compare equal iff `norm`
  agrees, so compare is an arbitrary equivalence that the hash respects. The secondary hash is part of `hash`.
  The ghost map `M` is the reference the array must agree with.
- **Objects.** An object is an id that is never used again, so a freed pointer cannot come back to life. `World`
  holds every container, leaf, ID and tracker record; `Heap` is a snapshot of it, with the list of freed objects.
  Strings are copied on every set and are plain values. `Slack` is how much a reference count exceeds the number of
  slots the record lists: 0 for every object until something is copied.
- **Trees.** `Unfolds(h, e, t)` says that following references from `e` in `h` gives the tree `t`. A struct's tree
  carries its ID, one subtree per key and the set of key pairs that hold the same object. `StructUnfolds` shows that
  every struct has exactly one tree, so theorems stated for a tree `t` speak about every struct. `Encodes(t, j)` says
  that `j` is a JSON form of `t`, `Reads(j, t)` that any JSON `j` stands for `t`, and `Norm(t)` is what a round trip
  makes of `t`: numbers and reals widened to 64 bits, raw pointers and RPC_none members dropped, function pointers NULL.
- **Order.** Where the C code walks a hash map, the model takes the keys in an arbitrary order. Where the outcome
  depends on that order, the order is a parameter (`Enumerates`); serialising takes one for every struct (`Ordered`).
- **Dangling pointers.** In two places the C code can use a pointer to memory it has given back. The model keeps track
  of it: a pointer into the results of the search for duplicates carries the block it points into, and the load table
  owns its key strings. What the C code then does is undefined; the model lets a write to a freed block be lost, and
  stops before reading a freed key string.
- **Threads.** A step of `ThreadPool` is what one thread does between two points where another can intervene; a
  thread holding a lock over several steps appears in `queueLock` or `countLock`. Spurious wake-ups are steps too. The
  histories `pushed`, `pulled` and `finished` are tied to the steps of the run by `JobsRunOnce`.

## What turned out to be false, and the exact condition

- **Waiting.** `include/ffirpc/C-Thread-Pool/thpool.h:73-97` promises that a caller of `thpool_wait` continues once the
  work is done. The end of the last job signals only one waiter. `ThreadPool.SecondCallerLost` is a run with two callers
  that leaves one blocked with every thread at rest, and `ThreadPool.DeadForever` shows that no further step of threads
  or callers wakes it, only a new push or a spurious wake-up. `ThreadPool.NeverDeadIff` (and `NeverLostIff` for a
  caller blocked at one moment): this never happens if and only if at most one caller waits or there are no threads.
- **Finding duplicates.** `src/rpc_struct.c:362-374` keeps pointers into an array that it reallocates when the 17th
  distinct object is met. An alias found later is recorded through a dangling pointer and lost, and the object is written
  twice (`Duplicates.SeventeenAndAlias` is the input: 17 leaves and a late alias of the first; with 16 leaves the alias is
  kept, `Duplicates.SixteenAndAlias`). A visit is late
  (`Duplicates.Late`) when its object was met before as number r, counted from 0, and r + 1 <= 16 * 2^i < c for some i,
  where c distinct objects have been met so far; `Duplicates.DanglesIff`: these visits and no others use a dangling
  pointer. For one order of keys the groups, and the table, are right if and only if no visit is late
  (`Duplicates.RightForOrderIff`, `Duplicates.TableRightIff`); for all orders, if and only if the struct holds at most 16
  distinct objects or none twice (`Duplicates.GroupsRightIff`). One late visit anywhere below spoils the whole: what is
  written is a form of the struct (`Serialise.SerializeStruct`), and what is read back is the original's value
  (`RoundTrip.SerialiseThenDeserialise`), if and only if no struct reached has a late visit in its order, and the
  aliases of the struct itself come back if and only if its own order has none. This holds whatever the orders if and
  only if every struct reached holds at most 16 distinct objects or none twice (`Orders.EveryOrderIff`).
- **Loading services.** `src/rpc_init.c:91-98` walks the load table's own key strings while loading removes entries and
  frees them. For a given order no freed string is read if and only if no key comes after one that needs it
  (`Services.Loader.LoadAll`); for every order, if and only if no service has dependencies
  (`Services.EveryOrderSafeIff`). `Services.ProgramOrders` is the input: the program's own two services, listed with
  rpc_server first. Order, once-each and termination are promised under the condition. Declaring a service again once
  it has been started is accepted and can close a cycle of dependencies (`Services.DeclaredAgain`).
- **Removing.** `include/ffirpc/rpc_struct.h:117` says that removing a key frees its element.
  `Ownership.RemovedIsFreedIff`: it does if and only if the element's count is 1. Because `rpc_struct_copy` counts each
  slot twice and gives back only one, an object held by a single slot is freed if and only if its slack is 0
  (`Ownership.SoleSlotFreesIff`), and serialising, which works on a scratch copy, raises the slack of every member, by
  exactly the amount `Inflation.Extra` computes (`Serialise.SerializeStruct`). `Witnesses.LeakedBySerialising` is the
  run: create, set, serialise, remove, and the leaf is left in memory with no slot holding it. A deep copy counts an
  object held by n slots 2n - 1 times, so a new object is counted right if and only if one slot holds it
  (`DeepCopy.DeepCopyStruct`). Counts are never too low, so nothing is freed that is still held
  (`Ownership.IndexIsExact`).
- **Freeing.** `include/ffirpc/rpc_struct.h:108` says that freeing a struct frees all its content. `Witnesses.ContentHeldElsewhere`
  is a heap where content held elsewhere stays. `Content.AllContentFreedIff`: everything reached from the struct is freed
  if and only if each such object is counted by its slots alone and all of these are in structs reached from it.
- **Origin tables.** The table is meant to be released when it records nothing. Its index only shrinks when the last
  entry is dropped, so a table can outlive its entries. `OriginTable.ReleasedIff` is the exact condition,
  `OriginTable.EmptiedTableKept` the example.
- **Refusing a buffer.** `src/rpc_sizedbuf.c:101-125` frees, on its error path, a buffer pointer it has not set.
  `Codec.BufDeserialize`: the call is defined if and only if the input's type is RPC_sizedbuf, which its one caller
  checks first.

## Model

| member | source | states |
|---|---|---|
| Bits.MaskIsMod | src/hashmap.c:43 | masking with `table_size - 1` is reduction modulo any power-of-two table size |
| Bits.MaskIsNext | src/hashmap.c:46 | the probe step is the cyclic successor |
| Bits.MaskIsDist | src/hashmap.c:168 | masking a `size_t` difference that wrapped around gives the cyclic distance |
| HashMap.TableSizeFits | src/hashmap.c:57-73 | the chosen size is a power of two, at least size + size/3, never below the initial size, and leaves an empty slot after one more put |
| HashMap.TableSizeLeast | src/hashmap.c:57-73 | and is the least such power of two |
| HashMap.TableSizeMonotone | src/hashmap.c:57-73 | more elements never ask for a smaller table |
| HashMap.ReserveSuffices | src/hashmap.c:285-309 | after `reserve(c)` no count up to `c` asks for a larger table |
| HashMap.HashMap.constructor | src/hashmap.c:247-258 | an initialised map is empty and unallocated, with an initial table size of 128 |
| HashMap.HashMap.CalcIndex | src/hashmap.c:78-90 | the index is the key's home slot, within the table |
| HashMap.HashMap.EntryFind | src/hashmap.c:113-136 | finds the key's slot iff the key is present; otherwise the first empty slot on its probe path, which exists iff the table is not full |
| HashMap.HashMap.EntryRemove | src/hashmap.c:143-177 | removes exactly that key, restores the probe invariant for all others across wrap-around, and moves no key from behind the slot to before it; the loop bound always reaches the end of the cluster |
| ProbeTable.ClusterEnds | src/hashmap.c:160 | if as many consecutive slots are full as there are keys, the next slot is empty: why a bound by `size` is enough |
| ProbeTable.KeepEntry | src/hashmap.c:166-172 | an entry that is not reached over the hole may stay |
| ProbeTable.MoveEntry | src/hashmap.c:166-172 | an entry reached over the hole must and may be shifted into it |
| ProbeTable.CloseHole | src/hashmap.c:162-176 | at the end of the cluster every probe path is intact again |
| ProbeTable.EmptySlotMeansAbsent | src/hashmap.c:122-135 | an empty slot on the probe path proves the key absent |
| HashMap.HashMap.CopyEntry | src/hashmap.c:207-217 | a rehashed entry always finds a free slot: the "algorithm bug" assertion cannot fire |
| HashMap.HashMap.Rehash | src/hashmap.c:184-220 | rehashing to any power of two at least `size` keeps the map and the probe invariant |
| HashMap.HashMap.EnsureCapacity | src/hashmap.c:326-330 | growing keeps the map and makes the table exactly as large as the count asks, so that at most three quarters are in use before the put; nothing moves when the table is large enough |
| HashMap.HashMap.Put | src/hashmap.c:316-363 | adds an absent key, refuses a present one with -EEXIST and NULL arguments with -EINVAL, and never runs out of slots |
| HashMap.HashMap.Insert | src/hashmap.c:371-427 | 1 on add and 0 on update; the stored key is kept and `old_data` is the data replaced, NULL if equal |
| HashMap.HashMap.Get | src/hashmap.c:432-445 | the data stored for an equal key, or NULL |
| HashMap.HashMap.Remove | src/hashmap.c:451-468 | removes exactly an equal key and returns its data |
| HashMap.HashMap.Reserve | src/hashmap.c:290-309 | keeps the map and makes the table as large as the capacity asks, at least 32 |
| HashMap.HashMap.Clear | src/hashmap.c:473-478 | empties the map |
| HashMap.HashMap.Reset | src/hashmap.c:483-497 | empties the map and returns to the initial table size |
| HashMap.HashMap.Collisions | src/hashmap.c:618-644 | the distance of a present key from its home slot, 0 for an absent one |
| HashMap.HashMap.EntryGetPopulated | src/hashmap.c:96-107 | the first populated slot at or after a position, none iff there is none |
| HashMap.HashMap.ForeachSafeRemove | include/ffirpc/hashmap/hashmap.h:59-74 | a safe iteration that removes any chosen keys terminates, visits every key and only those, removed keys once, and leaves exactly the others |
| HashMapRuns.Perform | src/hashmap.c:290-497 | each operation gives the contents and reply of a mathematical map |
| HashMapRuns.Run | src/hashmap.c:290-497 | so does every sequence of operations, however long |
| HashMapRuns.ReserveThenRun | src/hashmap.c:285-309 | after `reserve(c)` the very same table serves every run of puts, inserts, gets and removes that meets at most `c` entries |
| HashMapRuns.RemoveAllKeys | src/rpc_struct.c:239-241 | removing every key inside a safe iteration empties the map, each key visited once |
| RingQueue.WindowUnroll | include/ffirpc/sc_queue.h:82-93 | the two-part copy of a full, wrapped ring is the same sequence from slot 0 |
| RingQueue.RingQueue.constructor | include/ffirpc/sc_queue.h:101-111 | a new queue is empty, with eight slots |
| RingQueue.RingQueue.Size | include/ffirpc/sc_queue.h:137 | the masked difference is the number of elements |
| RingQueue.RingQueue.Empty | include/ffirpc/sc_queue.h:154 | equal ends mean no elements |
| RingQueue.RingQueue.ElementAt | include/ffirpc/sc_queue.h:186 | indexing is indexing the sequence |
| RingQueue.RingQueue.Expand | include/ffirpc/sc_queue.h:65-95 | keeps the contents; afterwards there is room unless memory ran out |
| RingQueue.RingQueue.AddLast | include/ffirpc/sc_queue.h:206-215 | appends, or changes nothing and reports out of memory; a past failure is sticky until the ring is cleared or grows |
| RingQueue.RingQueue.AddFirst | include/ffirpc/sc_queue.h:231-240 | prepends, likewise |
| RingQueue.RingQueue.DelFirst | include/ffirpc/sc_queue.h:242-256 | takes off and returns the first element |
| RingQueue.RingQueue.DelLast | include/ffirpc/sc_queue.h:222-223 | takes off and returns the last element |
| RingQueue.RingQueue.Clear | include/ffirpc/sc_queue.h:143-148 | empties the queue, keeping its buffer |
| RingQueue.Run | include/ffirpc/sc_queue.h:65-256 | every legal run of adds and deletes gives the contents and deleted elements of the same run on a sequence |
| OriginTable.AddRecords | src/rpc_struct.c:178-190 | recording an origin adds it to those recorded and keeps the free list exactly the nulled indices, each once |
| OriginTable.DropForgets | src/rpc_struct.c:204-211 | dropping forgets that origin and no other, and keeps the free list exact |
| OriginTable.DropLength | src/rpc_struct.c:204-211 | the index shrinks by one iff the last entry is the origin dropped |
| OriginTable.ReleasedIff | src/rpc_struct.c:204-217 | a table is released iff it was empty or held only the dropped origin at its only index |
| OriginTable.EmptiedTableKept | src/rpc_struct.c:204-217 | a table may record nothing and still be kept |
| OriginTable.OldestReused | src/rpc_struct.c:178-190 | of two origins dropped, the next one recorded takes the index of the one dropped first |
| OriginTable.DistinctBelow | src/rpc_struct.c:186-209 | the free list can never outgrow the index |
| OriginTable.Table.Add | src/rpc_struct.c:178-190 | the array version takes the oldest free index or a new one, in bounds, growing in time |
| OriginTable.Table.Drop | src/rpc_struct.c:202-217 | the array version drops as specified, with the array in place |
| Graph.IncrementPairs | src/ptracker.c:92-97 | incrementing for a slot adds exactly that (origin, key) pair |
| Graph.DecrementPairs | src/ptracker.c:98-106 | decrementing for a slot removes exactly that pair |
| Graph.TableReleasedIff | src/rpc_struct.c:211-217 | the decrement releases the key's table iff it was empty or recorded just that origin at its only index, and touches no other key's |
| Graph.IndexIncrement | src/rpc_struct.c:735-765 | filling a slot and counting it keeps the index equal to the slots |
| Graph.IndexDecrement | src/rpc_struct.c:296-320 | uncounting a slot takes it out of the index and changes no other slot |
| Ownership.IndexIsExact | src/rpc_struct.c:170-222 | an object's record lists exactly the slots that hold it, its count is their number plus slack and never less, and everything held is tracked, alive and of the kind the slot names |
| Ownership.VictimsAreLeast | src/rpc_struct.c:130-152 | without copies, what a free takes is the least set with the start and every held object all of whose containers are in the set |
| Ownership.FreesKeepCopyFree | src/ptracker.c:98-106 | frees and removals leave every count equal to its number of slots |
| Ownership.SetsKeepCopyFree | src/rpc_struct.c:735-765 | so do sets |
| Ownership.ContainerSurvives | src/rpc_struct.c:306-309 | with acyclic containment the struct a key is removed from survives the cascade, so erasing the slot afterwards is safe |
| Ownership.RemovedIsFreedIff | src/ptracker.c:98-106 | removing a slot frees the object it holds iff the object's count is 1 |
| Ownership.SoleSlotFreesIff | src/rpc_struct.c:296-320 | removing the one slot holding an object frees it iff no copy counted it twice |
| Ownership.CycleFreesContainer | src/rpc_struct.c:306-309 | in a cycle, removing a slot can free the very struct whose slot is to be erased |
| Ownership.SetKeepsConsistent | src/rpc_struct.c:735-765 | setting keeps the index exact and no count too low, even if it closes a cycle |
| Ownership.FreeIsExact | src/ptracker.c:83-106 | a finished cascade has freed exactly its victims |
| Cascade.DoomedClosed | src/rpc_struct.c:130-152 | the victims take along every object only they hold |
| Cascade.DoomedLeast | src/rpc_struct.c:130-152 | and are within every set that does |
| Cascade.DoomedReason | src/rpc_struct.c:130-152 | whatever goes along is counted by its slots alone and held only by what goes |
| Cascade.ZeroIsDoomed | src/ptracker.c:98-106 | an object whose last counted slot is torn down is one of the victims |
| Cascade.ListedQuiet | src/rpc_struct.c:138-143 | the zero callback's removals find the object untracked and touch no record |
| World.World.constructor | src/ptracker.c:55-60 | the empty world satisfies the invariant |
| World.World.CreateStruct | src/rpc_struct.c:80-104 | a new empty struct with a 64-letter ID, nothing else changed |
| World.World.CreateLeaf | src/rpc_sizedbuf.c:43-51 | a new leaf object, nothing else changed |
| World.World.IdSet | src/rpc_struct.c:265-269 | replaces the front of the ID by the characters given and keeps the rest |
| World.World.SetInternal | src/rpc_struct.c:735-765 | refuses a NULL pointer and a key in use, otherwise fills the slot and counts it |
| Ownership.SetBreaksKinds | src/rpc_struct.c:735-765 | setting a value that is dead or of another kind leaves a slot that names no such object |
| World.World.Set | src/rpc_struct.c:735-765 | refuses NULL and a key in use; otherwise fills the slot and counts it, whatever the value; index, counts and kinds stay right iff the value is alive and of its kind, every slack is kept, and the world stays valid iff containment is still acyclic |
| World.World.Copy | src/rpc_struct.c:589-612 | the copy holds the same members; each member's slack grows by the number of slots of the copy holding it |
| World.World.FreeObject | src/rpc_struct.c:253-259 | frees exactly the victims, each once, empties every surviving slot that held the object and changes no other slot |
| World.World.Remove | src/rpc_struct.c:296-320 | erases exactly one slot; the object goes, with exactly what only it held, iff that was its last reference |
| World.World.RemoveSlot | src/rpc_struct.c:296-320 | within a cascade: tears down one slot and what hangs on it, leaving every container above untouched |
| World.World.PrecDecrement | src/ptracker.c:98-106 | decrements and, at zero, deletes |
| World.World.PrecDelete | src/ptracker.c:83-91 | untracks first, which makes the recursion end: the tracker is strictly smaller afterwards |
| World.World.OnZero | src/rpc_struct.c:130-152 | erases exactly the listed slots, then releases the object |
| World.World.RemoveFromOrigins | src/rpc_struct.c:138-143 | the inner loop erases every slot listed under one key |
| World.World.Release | src/rpc_struct.c:116-129 | runs the free function of the object's kind |
| World.World.FreeInternal | src/rpc_struct.c:232-251 | tears down every slot, then frees the struct once |
| Content.ReachedLeast | src/rpc_struct.c:239-241 | what a struct reaches is the least set that contains it and all that its members hold |
| Content.AllContentFreedIff | src/rpc_struct.c:253-259 | freeing a struct frees everything it reaches iff all of that is counted by its slots alone and held from within |
| Witnesses.ContentHeldElsewhere | src/rpc_struct.c:253-259 | a leaf held by two structs outlives one of them |
| Witnesses.LeakedBySerialising | src/rpc_struct.c:399-506 | after serialising a struct, removing its one leaf leaves the leaf in memory, held by no slot |
| OwnershipRuns.FreedIsGone | src/rpc_struct.c:130-152 | a freed object is not alive, not tracked and held by no slot |
| OwnershipRuns.ReadKeepsCopyFree | src/rpc_struct.c:549-586 | deserialising leaves every count equal to its number of slots |
| OwnershipRuns.Perform | src/rpc_struct.c:253-765 | every operation, naming a struct included, has its effect on the heap (`Done`) and keeps the index exact and no count too low; only copy, deep copy and serialise can raise a count above its slots |
| OwnershipRuns.Run | src/rpc_struct.c:253-765 | so does every run of any client that may choose each operation from the state it meets; what was freed stays freed and unheld |
| Trees.UnfoldsUnique | src/rpc_struct.c:399-506 | an element unfolds to at most one tree |
| Trees.StructUnfolds | src/rpc_struct.c:399-506 | acyclic containment makes every struct unfold to exactly one tree |
| Building.UpwardAcyclic | src/rpc_struct.c:549-577 | attaching newer objects to a new struct cannot close a cycle |
| DeepCopy.MirrorAliases | src/rpc_struct.c:624-668 | a one-for-one replacement of objects keeps the aliases |
| DeepCopy.RepeatedMember | src/rpc_struct.c:632-640 | an object met again gets the copy made first, which unfolds as needed |
| DeepCopy.CopyLeaf | src/rpc_sizedbuf.c:53-56 | a copied leaf is a new object with the same payload |
| DeepCopy.OneMoreSlot | src/rpc_struct.c:666-675 | the first slot of a copied object counts once, every further one twice |
| DeepCopy.DeepCopy | src/rpc_struct.c:614-681 | a new struct of new objects only, with the original's tree; no older object changed, its record included; a new object held by n slots has count 2n - 1 |
| DeepCopy.DeepCopyStruct | src/rpc_struct.c:614-681 | for every struct: same tree, same ID, keys alias in the copy iff they alias in the original, nothing shared, the original untouched; a new object held by n slots has count 2n - 1, right iff one slot holds it |
| Codec.SignedRoundTrip | src/rpc_struct.c:458-475 | a 64-bit pattern survives the signed JSON integer |
| Codec.SignedValue | src/rpc_struct.c:458-475 | the integer written lies in [-2^63, 2^63) and is the number itself below 2^63, else less by 2^64 |
| Codec.SignedByteValue | src/rpc_sizedbuf.c:86-99 | a byte is written as itself below 128, else less by 256 |
| Codec.ScalarsComeBack | src/rpc_struct.c:458-548 | numbers that fit their 1, 2, 4 or 8 bytes and reals of 4 or 8 bytes keep their value, 64 bits wide; texts come back as they are |
| Codec.LeavesComeBack | src/rpc_struct.c:437-548 | bytes below 256 and types below 2^32 come back, function pointers as NULL |
| Codec.MembersComeBack | src/rpc_struct.c:411-457 | of the members exactly the raw pointers and RPC_none are dropped; ID and aliases are kept |
| Codec.UnchangedIff | src/rpc_struct.c:399-586 | a round trip leaves a value unchanged iff its numbers and reals are 64 bits wide, bytes and types fit, function pointers are NULL and no member is a raw pointer or RPC_none |
| Codec.BufSerialize | src/rpc_sizedbuf.c:86-99 | the loop writes the bytes as signed chars |
| Codec.BufDeserialize | src/rpc_sizedbuf.c:101-125 | reads them back; for another type the error path frees a pointer never set, so the call is defined iff the type is right |
| Codec.BufRoundTrip | src/rpc_sizedbuf.c:86-125 | a buffer comes back byte for byte |
| Codec.FunSerialize | src/rpc_function.c:84-100 | writes return type and prototype, not the pointer |
| Codec.FunDeserialize | src/rpc_function.c:101-129 | reads them back, refusing another type; the pointer is NULL |
| Codec.FunRoundTrip | src/rpc_function.c:84-129 | a function comes back with its types and a NULL pointer |
| Codec.NormIdempotent | src/rpc_struct.c:399-586 | what a round trip changes, a second one does not change again |
| Duplicates.FoundDuplicates | src/rpc_struct.c:333-395 | the loop follows the search step by step: new objects, growth of the result array, records through live and dangling pointers; what it finds is right iff no visit is late, and so whenever at most 16 distinct objects are held or none twice |
| Duplicates.VisitGroups | src/rpc_struct.c:351-384 | a visit through a live pointer, or of a new object, keeps the groups right |
| Duplicates.DanglingIsLost | src/rpc_struct.c:362-374 | a key visited through a dangling pointer ends up in no group |
| Duplicates.RightForOrderIff | src/rpc_struct.c:333-395 | for one order of keys the groups are right iff no visit is late |
| Duplicates.CapacityIsLeast | src/rpc_struct.c:362-366 | the result array has the least capacity 16 * 2^i that takes the objects met |
| Duplicates.DanglesIff | src/rpc_struct.c:362-374 | a visit uses a dangling pointer iff its object was met before and a capacity that took it has been outgrown since, in terms of the order of keys alone |
| Duplicates.EveryOrderCleanIff | src/rpc_struct.c:333-395 | no order of keys has a late visit iff at most 16 distinct objects are held or none twice |
| Duplicates.GroupsRightIff | src/rpc_struct.c:333-395 | for all orders of keys they are right iff at most 16 distinct objects are held or none twice |
| Duplicates.SeventeenAndAlias | src/rpc_struct.c:362-374 | 17 leaves and a late alias of the first: the alias is lost, and neither key is listed as a duplicate, so both are written as items |
| Duplicates.SixteenAndAlias | src/rpc_struct.c:345-374 | with 16 leaves the same alias is listed as a duplicate of the first key |
| Duplicates.DuplicatesTable | src/rpc_struct.c:490-503 | writes, for each duplicate, the name of its original |
| Duplicates.TableNamesOriginals | src/rpc_struct.c:333-395 | from right groups, every duplicate names a non-duplicate holding the same object, and no two non-duplicates hold the same one |
| Duplicates.TableRightIff | src/rpc_struct.c:490-503 | for one order of keys the table is right iff no visit is late |
| Duplicates.LateLosesAlias | src/rpc_struct.c:362-374 | with a late visit two keys hold the same object and the table makes them stand for different items |
| Duplicates.TableNamesItems | src/rpc_struct.c:490-503 | late visits or not, every duplicate listed names a key that is written and holds the same object |
| Orders.AllCleanSplit | src/rpc_struct.c:437-453 | nothing is lost below a struct iff nothing is lost in it and below each of its members |
| Orders.EveryOrderIff | src/rpc_struct.c:333-395 | nothing is lost below a struct in any order of keys iff every struct reached holds at most 16 distinct objects or none twice |
| Serialise.NeverLast | src/rpc_struct.c:411-421 | no slot of the scratch copy is a last reference |
| Serialise.ScratchVictims | src/rpc_struct.c:411-488 | so trimming or freeing the scratch copy frees no member |
| Serialise.Trim | src/rpc_struct.c:411-421 | drops one key of the scratch copy and nothing else |
| Serialise.TrimOpaque | src/rpc_struct.c:411-416 | drops exactly the raw pointers |
| Serialise.TrimDuplicates | src/rpc_struct.c:417-421 | drops exactly the duplicates |
| Serialise.ItemSerialize | src/rpc_struct.c:437-484 | one item per kept member, safe to read and well formed; it is a JSON form of the member, and stands for it, iff no visit below is late |
| Serialise.ItemsSerialize | src/rpc_struct.c:436-487 | exactly the kept members of the trimmed copy are written, each item right iff nothing below it is lost |
| Serialise.Divided | src/rpc_struct.c:399-506 | items and duplicates together divide the members as the aliases ask, both ways |
| Inflation.ExtraSplit | src/rpc_struct.c:436-453 | the growth of a count does not depend on the order in which nested structs are visited |
| Inflation.HeldIsPinned | src/rpc_struct.c:399-506 | after serialising a struct, every object it holds is counted more often than it is held |
| Serialise.TrimmedHolds | src/rpc_struct.c:411-421 | the trimmed copy holds no object twice and every nested struct once |
| Serialise.AliasesReadIff | src/rpc_struct.c:399-506 | whatever the output is read as, its keys alias as the struct's do iff no visit of the struct is late |
| Serialise.StructFor | src/rpc_struct.c:399-506 | the object written for a struct stands for the struct iff nothing is lost in it or below |
| Serialise.Serialize | src/rpc_struct.c:399-506 | memory is as before and the output is safe to read, well formed and carries the ID; it is a JSON form of the struct's tree, and stands for it, iff no struct reached has a late visit in its order; then every count has grown by exactly one visit of the struct and of each distinct struct below, per visit of its holder |
| Serialise.SerializeStruct | src/rpc_struct.c:399-506 | the same for every struct, whatever tree it unfolds to |
| Deserialise.SetNew | src/rpc_struct.c:735-765 | sets a slot of a struct under construction; older objects keep their slots and counts |
| Reading.DecimalInjective | src/rpc_struct.c:541-544 | different array indices give different keys |
| Reading.NoTablesWellFormed | src/rpc_struct.c:549-586 | input without duplicates tables is well formed, whatever else it holds |
| Reading.DecimalIff | src/rpc_struct.c:541-544 | an index is printed as the one string of digits without leading zeros that denotes it |
| Reading.ArrayStands | src/rpc_struct.c:534-546 | an array stands for a struct with every item that gives a value under the numeral of its index, and nothing else; null, booleans and unknown objects give none |
| Reading.ItemsStand | src/rpc_struct.c:507-567 | an item of a struct stands under its own key for the number, real, text, buffer, function, array or struct it spells out |
| Deserialise.ItemParse | src/rpc_struct.c:507-548 | any well-formed item stores, under a free key, an element that unfolds to what the item stands for; null, booleans and unknown types store nothing; older objects are untouched |
| Deserialise.StructItem | src/rpc_struct.c:524-525 | a nested struct is built only when the key is free, and set |
| Deserialise.ArrayItem | src/rpc_struct.c:534-546 | an array becomes a struct whose members, keyed by decimal index, are what its items stand for |
| Deserialise.FilledAfterParse | src/rpc_struct.c:561-567 | parsing one item more keeps the items already there, and no two keys share an object |
| Deserialise.ParseItems | src/rpc_struct.c:561-567 | in any order, every item is read under its key and nothing else |
| Deserialise.ParseDuplicates | src/rpc_struct.c:571-579 | in the order given, each key not in use gets the element, at that moment, of the key it names |
| Deserialise.AddedAnyhow | src/rpc_struct.c:571-579 | for any table and order: no item is lost, every duplicate's key ends up in use, and new elements are the struct's own or RPC_none |
| Deserialise.AddedProper | src/rpc_struct.c:571-579 | if duplicates name items and use free keys, each gets the element of its original whatever the order |
| Deserialise.RebuiltAliases | src/rpc_struct.c:571-579 | after which two keys alias iff they stand for the same item |
| Deserialise.Abandoned | src/rpc_struct.c:582-585 | the failure path restores memory and every record |
| Deserialise.Deserialize | src/rpc_struct.c:549-586 | succeeds iff the input says it is a struct and has items; well-formed input gives a new struct unfolding to what it stands for, ID and aliases included, every new object counted by its slots alone; failure leaves memory as it was |
| Forms.EncodesSafe | src/rpc_struct.c:399-506 | every JSON form is safe to read, and says that it is a struct if it is one |
| Forms.EncodesWellFormed | src/rpc_struct.c:490-503 | its duplicates tables are well formed |
| Forms.EncodesReads | src/rpc_struct.c:399-586 | a JSON form of a tree stands for no tree but the normalised one |
| Forms.EncodesStands | src/rpc_struct.c:399-586 | and does stand for the normalised tree |
| Forms.ScalarWritten | src/rpc_struct.c:458-480 | a number that fits its slot is written as that number, read as a signed 64-bit integer; reals and texts as they are |
| Forms.LeafWritten | src/rpc_struct.c:437-457 | buffers are written byte for byte as signed chars, functions with their types and without their pointer |
| RoundTrip.SerialiseThenDeserialise | src/rpc_struct.c:399-586 | for every struct and any orders of keys, reading back what was written gives a struct of the same ID, and everything already in memory is as it was; it consists of new objects and has the original's tree, normalised, iff no struct reached has a late visit in its order, and then its members are the original's with their values (`MemberBack`); its keys alias as the original's do iff the original itself has no late visit |
| JobQueue.JobQueue.constructor | src/C-Thread-Pool/thpool.c:422-436 | a new queue has no jobs |
| JobQueue.JobQueue.Push | src/C-Thread-Pool/thpool.c:456-477 | the linked list represents the old jobs followed by the new one |
| JobQueue.JobQueue.Pull | src/C-Thread-Pool/thpool.c:483-509 | unlinks the oldest job, if any, and posts iff jobs remain |
| JobQueue.JobQueue.Clear | src/C-Thread-Pool/thpool.c:440-451 | leaves no jobs |
| PoolQueue.PushStep | src/C-Thread-Pool/thpool.c:195-212 | pushing on the linked queue is the pool's step that links a job |
| PoolQueue.PullStep | src/C-Thread-Pool/thpool.c:483-509 | pulling from the linked queue is the pool's pulling step, going on to post iff jobs remain |
| ThreadPool.InvKept | src/C-Thread-Pool/thpool.c:371-400 | every step of every thread and caller keeps the invariant |
| ThreadPool.ReachableInv | src/C-Thread-Pool/thpool.c:371-400 | it holds in every state of every interleaving |
| ThreadPool.NoStrandedJob | src/C-Thread-Pool/thpool.c:456-571 | with a job queued and no push in progress, the semaphore is up or a thread has passed it and will still pull or post |
| ThreadPool.QueuedWorkProgresses | src/C-Thread-Pool/thpool.c:371-400 | a pool with queued work always has a step of its own to take |
| ThreadPool.QuietMeansDone | src/C-Thread-Pool/thpool.c:371-400 | when no step is left, nothing is queued or running and every job ever pushed has finished |
| ThreadPool.QuietMeansReturned | src/C-Thread-Pool/thpool.c:216-222 | with at most one caller and a thread, no caller is still waiting then |
| ThreadPool.WeightFalls | src/C-Thread-Pool/thpool.c:371-400 | every step of a thread or caller lowers a natural measure |
| ThreadPool.InternalRunsEnd | src/C-Thread-Pool/thpool.c:371-400 | so without new pushes, calls and spurious wake-ups the pool comes to rest within a number of steps known beforehand |
| ThreadPool.JobConservation | src/C-Thread-Pool/thpool.c:195-212 | every pushed job is in exactly one place: queued, held by one counted thread, or finished |
| ThreadPool.PulledInPushOrder | src/C-Thread-Pool/thpool.c:456-509 | jobs are pulled in the order they were pushed |
| ThreadPool.IdleMeansFinished | src/C-Thread-Pool/thpool.c:392-397 | a working count of zero means every pulled job has finished |
| ThreadPool.WaitIsSound | src/C-Thread-Pool/thpool.c:216-222 | a caller that has returned remembers a number of pushed jobs that have all finished, however many callers wait |
| ThreadPool.WaitReturnsDone | src/C-Thread-Pool/thpool.c:216-222 | in every run from a call of `thpool_wait` on, once the caller has returned every job pushed before the call has finished |
| ThreadPool.JobsRunOnce | src/C-Thread-Pool/thpool.c:371-400 | in every run the jobs that count as finished are those whose functions have returned, each once, and what counts as pushed are the pushes |
| ThreadPool.SemaphoreGuards | src/C-Thread-Pool/thpool.c:564-571 | a thread gets past `bsem_wait` only by taking the semaphore down, and only such a thread pulls a job |
| ThreadPool.SecondCallerLost | src/C-Thread-Pool/thpool.c:392-397 | with two callers, a run that leaves one blocked with nothing queued or running and every thread at rest |
| ThreadPool.DeadForever | src/C-Thread-Pool/thpool.c:216-222 | such a caller stays blocked in every run without a new push or a spurious wake-up |
| ThreadPool.NeverDeadIff | src/C-Thread-Pool/thpool.c:216-222 | no caller is ever left so iff at most one waits or there are no threads |
| ThreadPool.NeverLostIff | src/C-Thread-Pool/thpool.c:216-222 | no caller is ever blocked with nothing queued or running iff at most one waits or there are no threads |
| Services.Loader.Add | src/rpc_init.c:41-63 | accepts a service iff its name is present, or it has a handler and all dependencies are present; an accepted new name is stored with its handler and exactly the dependencies declared; the table stays free of cycles unless the name has been started already |
| Services.Loader.AddPacket | src/rpc_init.c:64-68 | stores a list in order iff each service is acceptable when its turn comes, whatever has been started before; each new name with the handler and the dependencies of its first declaration |
| Services.DeclaredAgain | src/rpc_init.c:41-63 | a started service can be declared again with a dependency that needs it: the table then has a cycle |
| Services.DeclaredNames | src/rpc_init.c:64-68 | an accepted list stores exactly the names declared |
| Services.DeclaredFirst | src/rpc_init.c:41-68 | of an accepted list the table holds, for each new name, the handler and exactly the dependencies of its first declaration |
| Services.AcceptedIff | src/rpc_init.c:41-68 | a list is acceptable iff each entry repeats an earlier name, or has a handler and names only services declared before it |
| Services.SafeIff | src/rpc_init.c:91-98 | a listing is safe iff no chain of declared dependencies leads from a key to a later one |
| Services.Loader.Load | src/rpc_init.c:70-89 | starts the service after its dependencies, each once, and terminates; what leaves the table, its key string freed, is exactly the service and all it needs |
| Services.Loader.StartOne | src/rpc_init.c:81-88 | runs the handler of a service whose dependencies have been started and removes the service |
| Services.Loader.LoadAll | src/rpc_init.c:91-98 | reads no freed key string iff no key is listed after one that needs it; then the table is emptied, and each service's own handler is run once, after those of all its dependencies |
| Services.EveryOrderSafeIff | src/rpc_init.c:91-98 | every listing of the keys is safe iff no service has dependencies |
| Services.ProgramOrders | src/rpc_init.c:102-107 | the program's own services: listed with rpc_server first a freed key string is read, the other way round not |
| Services.StartedNeeds | src/rpc_init.c:70-89 | what started services need, directly or not, has been started |
| Services.Start | src/rpc_init.c:41-98 | declaring succeeds iff each entry repeats a name, or has a handler and names only earlier services; loading reads no freed key string iff no chain of declarations leads from a listed key to a later one; then the handler of each first declaration is run, once, after those of all the dependencies it names |

## Left out

- World.World.Set: once a set has closed a cycle, or stored a value that is dead or of another kind, the world is no longer valid, and the other operations are not modelled on it; `Ownership.CycleFreesContainer` shows why.
- World.World.FreeObject: requires a live object; a pointer freed before has no meaning in the model. NULL, which the C functions ignore, is not an object here.
- Deserialise.Deserialize: requires `SafeStruct`, which says only what the C code relies on without checking: type names and IDs are strings, nested objects have a type name, an ID fits its buffer. A NULL document is not a JSON value here. For a table of duplicates that names missing keys or keys in use it promises only that memory stays valid; the elements then depend on the order of the entries, as `Deserialise.ParseDuplicates` and `Deserialise.AddedAnyhow` state.
- HashMap.HashMap.Put: assumes that allocation succeeds and size + size/3 is at most 2^30, where the C expression `1 << bits` is still defined. The same holds for `Insert` and `Reserve`.
- HashMap.HashMap.ForeachSafeRemove: the body may remove the current key only, not other keys.
- RingQueue.Run: assumes that memory is available and that elements are added only while the queue is shorter than half the address space; `AddLast` and `AddFirst` state what happens otherwise.
- OriginTable.Table.Add: assumes that the array, grown by one block, still has a size that fits a C `int`, and that the free list's ring can grow.
- Serialise.Serialize: where the C code records a duplicate through a dangling pointer its behaviour is undefined; the model lets the record be lost and says what is then written and read. How far counts grow is stated only where no visit is late.
- Services.Loader.LoadAll: stops before a freed key string would be read, where the behaviour of the C code is undefined.
- Services.Loader.Add: stands for one service; the structs the C code nests to store it are a plain record, and an assertion that would abort is the result `false`. A name whose service has been started may be declared again, but the table is then no longer promised to be free of cycles, and loading it is not modelled.
- The `World` uses Dafny maps for the containers and the tracker; that the hash map behaves like one is proved separately in `HashMapRuns`. Its origin tables are the value form of `OriginTable`, which the array class is proved to follow.
- Mutexes of structs and trackers: every ownership operation is one step. Manual destructors, `copyof`, and the user's own reference adjustments, which unbalance the counts by design.
- Hash functions, random letters of IDs (any 64 characters here), load factor and collision statistics over doubles.
- JSON text, invalid strings, NaN and rounding of reals: JSON is a tree and reals are exact. A key holding a string with an embedded NUL cannot occur.
- Starting, pausing and destroying the thread pool, its signals and its clock; a job is a number, and its function ends.
- Releasing the JSON argument of `rpc_struct_deserialize`, which `include/ffirpc/rpc_struct.h:133` announces and the code leaves to its callers.
- Sockets, message framing, servers, clients and foreign calls.
