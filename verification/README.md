# Models of VLinux0.11, the Java red-black tree and the QR encoder

A Dafny model of the parts of this repository that are hard to get right, with proofs about all inputs, all runs
and all interleavings. `dafny verify dfyconfig.toml` verifies the whole project.

Code that updates objects in place is modelled by classes whose methods make the same updates in the same order.
Each method is proved against a function or predicate on values, and the lemmas are about those. `hide` clauses
at the start of a body only keep definitions out of a proof.

| files | what they model |
|---|---|
| `PageTables`, `PageSteps`, `LinearPages`, `Memory` | paging with copy-on-write: physical memory as pages of words, the page directory and the page tables in it, `mem_map`, fork; what linear pages show |
| `RedBlack`, `RBTree` | the red-black tree: as a value with a context (a zipper), and as linked nodes with a sentinel root |
| `Zones`, `FileBytes`, `Files` | the zone bitmap, zone trees of inodes, where the bytes of a file are, reading, writing and truncating files |
| `BufferQueues`, `BufferCache` | the buffer cache: hash chains, the ring of free buffers, tasks that sleep inside operations, the block driver |
| `Counting`, `Galois`, `ReedSolomon`, `Division`, `Generators`, `QrBlocks`, `QrReader` | GF(256), polynomials with JavaScript's `undefined` slots, error correction, interleaving, the bit buffer; what a reader of the symbol does |
| `WaitQueues`, `Timers`, `Schedule` | `sleep_on` and `wake_up`, the timer list, `schedule` and the clock tick |
| `Elevator`, `Requests` | the order of a device queue, the request slots, `ll_rw_block` |
| `Buckets`, `Malloc` | the kernel's bucket allocator |
| `ExecArgs` | argument strings, pointer tables and `#!` lines of `do_execve` |
| `LineEditor`, `Tty` | the line discipline: an editor of sequences, and the three ring queues that refine it |

## The main results

- **Paging.** `MemoryManager.Memory.Valid` says that `mem_map` of every page is exactly the number of entries
  naming it, plus its use as a page table, plus the references the kernel holds; that page tables are apart from
  all mapped pages; that pages are shared only between equal offsets of address spaces, so a count stays at 63 or
  less; and that a writable entry names a page with count 1. It holds after any sequence of forks, exits, faults,
  stores and sharings, and a word that a task sees changes in such a sequence only if this task stores to that very
  word or exits (`Run`). Whatever sequence of stores a child makes, its parent and all others see nothing of it
  (`ForkIsolates`). A fork succeeds exactly when there are pages for all page tables, and one that fails halfway
  restores every count (`CopyMem`, and `CopyMemFirst` for task 0). Read off the directory and table words, as the
  processor does, a fork gives the child each page of the parent with its flags but the write bit, and the parent
  loses that bit too (`ForkedPages`).
- **Red-black tree.** `AddNode` keeps order, parent links, black root and the absence of red-red edges of any tree
  that has them. It keeps equal black height *if and only if* the climb meets no non-null black uncle
  (`InsertRedBlack`): `fixInsert` rotates only when the uncle is null. Inserting 1 to 8 in order shows the loss
  (`EightLosesTheHeight`). `Remove` is proved on every tree that `AddNode` can leave: it dereferences a null sibling
  *if and only if* `RemoveFails`, and otherwise deletes exactly the value with the key (`RemoveIs`). On trees that
  meet all rules that never happens, and all rules hold again (`RemoveRedBlack`).
- **Buffer cache.** At every sleeping point and for every interleaving with other tasks and the driver: one buffer
  per block, each in its own hash chain, one ring of all buffers, `b_count` equal to the number of uses, and the
  cache stands for a plain disk that only stores and failed transfers change (`Step`). `Bread` returns what was
  stored last, and a buffer stays its holder's for its block, with these contents, through every run (`Run`). The
  buffer that is taken is the first of the best unused ones in the free list and goes to its end (`Getblk`).
- **Files.** Zone trees of all inodes are disjoint and the zone map is exact. `FileWrite`, `SysRead` and
  `Truncate` are operations on byte sequences (`WriteIsSequence`, `SysRead`, `EmptiedContents`). Which byte of the
  device is which byte of a file is stated by the look-ups in `i_zone` and the indirect blocks alone (`ByteAtIs`).
- **QR.** Data followed by the computed codewords is a multiple of the product of the (x + a^i)
  (`CorrectsIsMultiple`), and de-interleaving the output gives back all blocks (`ReadsBack`). A coefficient 0 in a
  generator would make `glog` throw: generators can be built exactly up to degree 255 (`BuildableIs`), and a block
  gets its codewords exactly for up to 254 of them, or 255 when its data are all 0 (`EncodableIs`). A reader that
  deals the codewords out, joins the blocks and reads mode, count and bytes gets back exactly the message
  (`CreateData`).
- **Scheduler.** Every sleeper has exactly one waker (`OneWaker`). In every infinite run in which whoever is awake
  inside `sleep_on` returns at some later time, one `wake_up` releases everyone queued at that moment
  (`WakeReleasesAll`). Timers fire when due and once; `schedule` picks the longest slice, and the time a task
  waits is bounded by the slices of the others (`WaitBound`). An alarm is sent by the first `schedule` after its
  time and by no other (`AlarmSent`, `AlarmOnce`), and n recharges divide by 2^n what a slice is below twice the
  priority (`SliceAfter`).
- **Requests, allocator, arguments, terminal.** A device queue has at most one descent and its head stays. A read
  added behind a smaller one goes before every write of that run (`ReadsFirst`), and a
  request stays in its slot until its device ends it, whatever happens to the buffers meanwhile
  (`BlockDevices.Run`); live chunks never overlap, keep what they hold until they are freed, however others call,
  store and take pages (`ChunkSurvives`), and pages go back exactly with the last chunk; every pointer of `argv` and `envp` addresses
  its string, and a program starts exactly when its strings fit and there is memory for them (`StartProgram`); the
  ring queues refine a line editor and `secondary.data` counts the line ends. Erase and kill take characters from
  the screen as from the line, exactly unless they are control characters that were not shown or the delete
  character (`EraseUndoesShown`, `KillUndoesShown`).

## Where the code does not do what it should

- `insert_into_queues` stores through `b_next` when it is NULL (`VLinux0.11/fs/buffer.c:163`). That happens exactly
  when the device is not 0 and no other buffer has the hash value of the new block (`Getblk`); on a fresh cache the
  first `getblk` does it (`FirstGetblk`).
- `fixInsert` loses equal black height below a black uncle (`rbtree/src/RBTree.java:403-412`). `fixRemove` can then meet
  a null sibling, against the comment at `rbtree/src/RBTree.java:176`: adding 1 to 8 in order and removing 1 and 3
  does it (`ThreeMeetsNoSibling`, and `RemoveIs` for all trees).
- `add_timer` does not shorten the entry behind the new one, so all later timers slip by the same amount
  (`InsertDue`, `VLinux0.11/kernel/sched.c:317-330`).
- `schedule` hands `switch_to` a pointer that it never changes from task 0 (`VLinux0.11/kernel/sched.c:108` and `154`):
  it is the task that was chosen exactly when no task is runnable (`Schedule`). `Tick` and `WaitBound` are about a
  switch to the chosen task.
- A script started with an empty argument list gets an `argc` that is one short (`ArgcRight`,
  `VLinux0.11/fs/exec.c:263-280`).
- `p-len < 0` in `copy_strings` is never true for an unsigned `p` (`VLinux0.11/fs/exec.c:128`). Strings that do not fit run
  past the start of the page array, which the model calls `Wild` and `Crashed`.
- `new_block` on a device without a free zone sets a bit for which there is no zone, exactly as long as its map blocks
  have a clear bit (`NewBlock`, `VLinux0.11/fs/bitmap.c:90-95`; `OneZoneLosesBit` is an input). No file changes
  (`LostBit`).

- With ECHO and without ECHOCTL a control character shows nothing, and erasing it deletes two characters that stood
  before it (`RubMatches`, `VLinux0.11/kernel/chr_drv/tty_io.c:183-187` and `216-220`).

## Model

| member | source | states |
|---|---|---|
| PageTables.UseIsCounted | VLinux0.11/mm/memory.c:172-185 | A counted page that an entry names has a mem_map value of at least 1 |
| PageTables.SoleUse | VLinux0.11/mm/memory.c:221-231 | Two entries that name a page whose mem_map value is 1 are the same entry, so un_wp_page may set the write bit |
| PageTables.FreeIsUnused | VLinux0.11/mm/memory.c:63-83 | A page with mem_map 0 is named by no entry, is no page table and is not held by the kernel |
| PageTables.OnePerSpace | VLinux0.11/mm/memory.c:172-185 | Among the user address spaces 1..k at most k slots sit at one and the same offset |
| PageTables.UsesBounded | VLinux0.11/mm/memory.c:172-185 | At most 63 entries name a page, so the count byte cannot wrap |
| PageTables.AddShare | VLinux0.11/mm/memory.c:178-184 | One more read-only entry at the same offset of another space, with the count raised, keeps exact counts, copy-on-write and separate tables; the count stays below 256 |
| PageTables.Drop | VLinux0.11/mm/memory.c:119-124 | Dropping an entry of a counted page together with its reference keeps the invariant; the count was at least 1 |
| PageTables.PutHeld | VLinux0.11/mm/memory.c:197-219 | A page held only by the kernel becomes the page behind an absent entry and the invariant stays |
| PageTables.AddTable | VLinux0.11/mm/memory.c:168-171 | A page fresh from get_free_page becomes the page table of an empty directory slot and the invariant stays |
| PageTables.RemoveTable | VLinux0.11/mm/memory.c:126-127 | Giving back a page table without entries: its count was exactly 1, becomes 0, and the invariant stays |
| PageTables.SameNamesSameCounts | VLinux0.11/kernel/fork.c:57-60 | Two memories whose entries name the same pages have equal mem_map arrays |
| PageSteps.CopyStep | VLinux0.11/mm/memory.c:232-237 | The copy branch of un_wp_page gives the entry a page of its own with equal contents, drops one reference of the old page, changes no other entry and keeps the invariant |
| PageSteps.SharedStep | VLinux0.11/mm/memory.c:174-184 | One pass of the inner loop of copy_page_tables keeps the invariant, both entries become equal and read-only (a page below LOW_MEM leaves the source entry alone), and no visible page changes |
| PageSteps.CopyOne | VLinux0.11/mm/memory.c:173-185 | The same pass advances the map of entries by exactly one copied slot |
| PageSteps.PutStep | VLinux0.11/mm/memory.c:206-217 | Storing a held page into an absent entry adds exactly that entry and keeps the invariant |
| PageSteps.PutOverStep | VLinux0.11/mm/memory.c:206-217 | Storing it over a present entry replaces that entry only, and mem_map counts one reference to the old page that no entry has |
| PageSteps.DropTableStep | VLinux0.11/mm/memory.c:126-127 | Clearing a directory word and freeing its empty table removes exactly that table and keeps the invariant |
| PageSteps.StoreStep | VLinux0.11/mm/memory.c:221-259 | A store through an entry that has its page to itself changes one word behind this entry and nothing behind any other entry |
| PageSteps.CopyIsFork | VLinux0.11/kernel/fork.c:40-62 | The copied range gives the child, at equal offsets, exactly the parent's entries within it, read-only and with the same pages; all other entries stay |
| PageSteps.StoresIsolate | VLinux0.11/mm/memory.c:221-259 | Whatever sequence of stores one task makes, every entry of every other task and the page behind it stay |
| PageSteps.ForkIsolates | VLinux0.11/mm/memory.c:221-259 | After a fork the child may store any number of times: every entry of every other task still shows what it showed right after the fork, and what it showed before it unless it maps the page directory in frame 0 |
| PageSteps.RolledBack | VLinux0.11/kernel/fork.c:57-60 | A copy that stopped after k tables and was freed again leaves every mem_map value and every table as before; entries at most lost their write bit |
| PageSteps.NoUsersYet | VLinux0.11/mm/memory.c:399-411 | The mem_map of mem_init is exact for a memory without user page tables |
| PageSteps.FirstEntAt | VLinux0.11/mm/memory.c:169-185 | The entries that the first fork adds: exactly the present ones of the kernel's table, read-only |
| LinearPages.MappedIs | VLinux0.11/mm/memory.c:157-188 | A linear page is mapped, by its directory word and its table word, exactly if the map of entries has its slot, and with the same entry |
| LinearPages.ForkedPages | VLinux0.11/mm/memory.c:172-185 | A fork read off the directory and table words: each of the child's linear pages below the limit is mapped exactly if the parent's is, with the same page, rest, dirty, user and present bits, not writable; so is the parent's own entry unless its page is below 1 MB; the pages of all other tasks are the same |
| LinearPages.ReprotectedPages | VLinux0.11/kernel/fork.c:57-60 | What a fork that failed leaves: every linear page has the entry it had, or that entry without its write bit |
| LinearPages.SharedPages | VLinux0.11/mm/memory.c:326-332 | Two linear pages that share show the same page, both with the flags the one entry had but the write bit; no other page of a task changes |
| LinearPages.StoredPages | VLinux0.11/mm/memory.c:221-259 | A store through a linear page changes one word behind this page and nothing that another page shows |
| LinearPages.ClearedPages | VLinux0.11/mm/memory.c:105-131 | After free_page_tables no linear page of the range is mapped and all others are the same |
| LinearPages.FirstForkedPages | VLinux0.11/mm/memory.c:169-185 | After the first fork the child has exactly the first 160 pages of the kernel's table, with their flags but the write bit |
| MemoryManager.Memory.constructor | VLinux0.11/mm/memory.c:399-411 | mem_init: the pages from start on are free, all others are USED, and the invariant holds |
| MemoryManager.Memory.GetFreePage | VLinux0.11/mm/memory.c:63-83 | Returns the highest free page, zeroed, counted once and held, or 0 exactly when none is free; no entry changes; every one of its 1024 words is 0 |
| MemoryManager.Memory.FreePage | VLinux0.11/mm/memory.c:89-99 | Lowers the count by one; panics exactly for a page beyond memory or with count 0; pages below LOW_MEM are ignored |
| MemoryManager.Memory.FreePageTables | VLinux0.11/mm/memory.c:105-131 | Panics exactly on a wrong alignment or address 0, never inside free_page; otherwise removes exactly the tables and entries of the range and keeps the invariant; read off the page tables, no linear page of the range is mapped and all others are the same |
| MemoryManager.Memory.EmptyTable | VLinux0.11/mm/memory.c:119-125 | The inner loop gives back every page of one table; free_page does not panic |
| MemoryManager.Memory.LastFree | VLinux0.11/mm/memory.c:63-72 | The last 0 in mem_map, or -1 exactly when there is none |
| MemoryManager.Memory.CopyTable | VLinux0.11/mm/memory.c:172-185 | The inner loop: all entries of one table are shared read-only, every count is raised, nothing else changes |
| MemoryManager.Memory.ShareTable | VLinux0.11/mm/memory.c:166-185 | One page table of the range: exactly without a free page nothing happens, otherwise one page becomes the child's table and all entries are in both |
| MemoryManager.Memory.CopyRange | VLinux0.11/mm/memory.c:157-188 | The outer loop, directory slot by directory slot |
| MemoryManager.Memory.CopyPageTables | VLinux0.11/mm/memory.c:150-189 | Panics on a wrong alignment or an existing target table; otherwise shares all pages of the range read-only, or, exactly when the range has more page tables than there are free pages, runs out of memory after a whole number of tables; the invariant holds in both cases |
| MemoryManager.Memory.CopySlot | VLinux0.11/mm/memory.c:157-188 | One directory slot: panics exactly if the target has a page table; takes one page exactly if the source has a table |
| MemoryManager.Memory.CopyFirst | VLinux0.11/mm/memory.c:140-188 | The case from == 0: the first 160 entries of the kernel's table are in the child, read-only; the kernel's own table stays writable and no page below LOW_MEM is counted |
| MemoryManager.Memory.CopyWords | VLinux0.11/mm/memory.c:172-185 | The inner loop with nr = 0xA0 |
| MemoryManager.Memory.PutPage | VLinux0.11/mm/memory.c:197-219 | The held page is behind the entry, with a new page table if there was none; the invariant holds if the entry was absent; an entry that was there is overwritten and the count of its page stays one above its entries; fails, changing nothing, exactly when a table is needed and no page is free; the linear page is mapped with exactly the word user, writable, present, not dirty, rest 0 |
| MemoryManager.Memory.UnWpPage | VLinux0.11/mm/memory.c:221-238 | The entry is writable and alone on a page with the old contents, which is the old page if its count was 1; no other entry changes; fails only when no page is free and the page is shared; a copy gets exactly the word user, writable, present, not dirty, rest 0 |
| MemoryManager.Memory.UserStore | VLinux0.11/mm/memory.c:221-259 | A store by a user task, write fault included, changes one word of this entry's page and nothing any other entry shows, read off the page tables |
| MemoryManager.Memory.WriteVerify | VLinux0.11/mm/memory.c:261-272 | Afterwards the page at the address is private to its entry; an absent entry changes nothing |
| MemoryManager.Memory.NeedTable | VLinux0.11/mm/memory.c:207-214 | Gives a directory slot an empty page table unless it has one; fails, changing nothing, exactly when one is needed and no page is free |
| MemoryManager.Memory.GetEmptyPage | VLinux0.11/mm/memory.c:274-282 | A fresh zeroed page stands behind the absent entry; fails, losing and leaking nothing, exactly when there are not the one or two free pages it needs; free_page does not panic; the entry is exactly the word user, writable, present, not dirty, rest 0 |
| MemoryManager.Memory.TryToShare | VLinux0.11/mm/memory.c:292-334 | Shares exactly a present, clean, counted page at the same offset, both entries read-only afterwards; the panic is met only if the target entry exists already; out of memory exactly when a table is needed and no page is free; read off the page tables both pages show the shared one with its flags but the write bit |
| MemoryManager.Memory.ShareEntries | VLinux0.11/mm/memory.c:326-332 | Both entries name the page, read-only, and its count is one higher |
| MemoryManager.Memory.CopyMem | VLinux0.11/kernel/fork.c:40-62 | Panics exactly on separate or badly limited segments, or at a page table the child has in the range already; otherwise succeeds exactly when there are as many free pages as the parent has page tables in the range; success gives the child, linear page by linear page below the limit, the parent's page with the same flags but the write bit, which the parent loses too, and leaves all other tasks alone; -ENOMEM restores every count and table and leaves pages and entries but for write bits |
| MemoryManager.Memory.CopyMemFirst | VLinux0.11/kernel/fork.c:40-62 | The fork of task 0: panics exactly on a bad limit or if the child has a page table already; otherwise -ENOMEM exactly without a free page, with all counts and tables as before; success gives the child exactly the first 160 pages of the kernel's table, read-only |
| MemoryManager.Memory.Step | VLinux0.11/mm/memory.c:105-334 | Every request - first fork, fork, exit, fault, store, sharing - keeps exact counts, copy-on-write and separate tables, and changes no word that a task sees but the one word it stores to itself |
| MemoryManager.Memory.Run | VLinux0.11/mm/memory.c:105-334 | After every sequence of requests a word behind an entry (in a page other than the page directory) is what it was unless its own task stored to that very word or exited |
| RedBlack.PlugValues | rbtree/src/RBTree.java:45-82 | The in-order sequence of a tree is that of a subtree between what lies before and after it |
| RedBlack.PlugNoRedRed | rbtree/src/RBTree.java:348-354 | A tree has no red-red edge exactly when subtree and context have none and not both ends of their edge are red |
| RedBlack.PlugHeight | rbtree/src/RBTree.java:169-226 | Equal black height of a tree, seen from any subtree in it |
| RedBlack.RotateLeftValues | rbtree/src/RBTree.java:436-460 | A left rotation keeps the in-order sequence |
| RedBlack.RotateRightValues | rbtree/src/RBTree.java:462-485 | A right rotation keeps the in-order sequence |
| RedBlack.DescendSplits | rbtree/src/RBTree.java:324-342 | The way down leaves exactly smaller keys on the left and larger keys on the right |
| RedBlack.FoundSplits | rbtree/src/RBTree.java:69-82 | The node with key k divides the in-order sequence into the smaller and the larger values |
| RedBlack.AbsentSplits | rbtree/src/RBTree.java:324-342 | If the way down ends at an empty place, no value has the key and this place is between the smaller and the larger values |
| RedBlack.StraightenValues | rbtree/src/RBTree.java:361-402 | The one or two rotations of fixInsert keep the in-order sequence |
| RedBlack.FixInsertValues | rbtree/src/RBTree.java:348-416 | fixInsert keeps the in-order sequence |
| RedBlack.FixInsertColours | rbtree/src/RBTree.java:348-416 | fixInsert called at a red node ends with a black root and no red-red edge, whatever the black heights were |
| RedBlack.FixInsertHeight | rbtree/src/RBTree.java:348-416 | Equal black height survives fixInsert if and only if the climb never meets a non-null black uncle |
| RedBlack.FixInsertStaysUneven | rbtree/src/RBTree.java:403-412 | Once the recolouring below a black uncle has made heights uneven, the rest of the climb does not repair them |
| RedBlack.InsertValues | rbtree/src/RBTree.java:274-317 | addNode puts the value between the smaller and larger ones, replaces the one with its key in override mode, and otherwise changes nothing |
| RedBlack.InsertKeeps | rbtree/src/RBTree.java:274-416 | addNode keeps order, black root and absence of red-red edges of any tree that has them |
| RedBlack.InsertRedBlack | rbtree/src/RBTree.java:274-416 | addNode keeps all red-black rules exactly when the key is there already or the climb meets no non-null black uncle |
| RedBlack.EightLosesTheHeight | rbtree/src/RBTree.java:403-412 | Adding 1 to 7 in order gives a tree that obeys all rules, and adding 8 breaks equal black height |
| RedBlack.SiblingExists | rbtree/src/RBTree.java:174-184 | At a place one black node short the sibling is not null and exactly one higher; so are both children of a black one equally high |
| RedBlack.FixRemoveFails | rbtree/src/RBTree.java:169-226 | On any tree without a red-red edge fixRemove dereferences a null sibling exactly when it starts at a black place from which the climb comes to a place without a sibling |
| RedBlack.FixRemoveColours | rbtree/src/RBTree.java:169-226 | Done or stopped at a null sibling, fixRemove leaves a black root and no red-red edge |
| RedBlack.FixRemoveRules | rbtree/src/RBTree.java:169-226 | Started at a place one black node short fixRemove meets no null sibling and ends in a tree with equal black height |
| RedBlack.FixRemoveValues | rbtree/src/RBTree.java:169-226 | fixRemove keeps the in-order sequence |
| RedBlack.SettleColours | rbtree/src/RBTree.java:205-217 | The last rotation of fixRemove leaves no red-red edge, whatever the black heights were |
| RedBlack.SettleRules | rbtree/src/RBTree.java:205-217 | At a place one black node short the last rotation restores all black heights at once |
| RedBlack.LeftCtxRules | rbtree/src/RBTree.java:254-272 | Colours and black heights around the smallest node of a subtree |
| RedBlack.LeftCtxValues | rbtree/src/RBTree.java:254-272 | The smallest node holds the first value of its subtree |
| RedBlack.SuccessorRules | rbtree/src/RBTree.java:102-131 | Replacing a node by the smallest of its right subtree leaves at most the edge at that place to mend |
| RedBlack.SuccessorHeights | rbtree/src/RBTree.java:102-131 | With equal black heights that place is one black node short exactly if the successor was black |
| RedBlack.PlaceHeights | rbtree/src/RBTree.java:102-158 | Where remove takes a black node out of a tree with equal black heights, the place is one black node short |
| RedBlack.PlaceValues | rbtree/src/RBTree.java:102-158 | What is left around the place where remove takes a node out is the in-order sequence without the removed value |
| RedBlack.RemoveIs | rbtree/src/RBTree.java:89-162 | On every tree that addNode can leave - ordered, black root, no red-red edge - remove meets a null sibling exactly when it removes a black node from above a black or empty place with the climb of FixRemoveFails; in both cases exactly the value with the key is out of the tree, which stays ordered, with a black root and no red-red edge |
| RedBlack.RemoveRedBlack | rbtree/src/RBTree.java:89-162 | On a red-black tree remove meets no null sibling, deletes exactly the value with the key and keeps every red-black rule |
| RedBlack.ThreeMeetsNoSibling | rbtree/src/RBTree.java:174-184 | Adding 1 to 8 in order, removing 1 and then 3 meets a null sibling |
| RBTrees.LeftRotated | rbtree/src/RBTree.java:436-460 | The pointer stores of rotateLeft, root and parent links included, turn a heap for a tree into one for the rotated tree |
| RBTrees.RightRotated | rbtree/src/RBTree.java:462-485 | The pointer stores of rotateRight turn a heap for a tree into one for the rotated tree |
| RBTrees.FixInsertStep | rbtree/src/RBTree.java:354-413 | One round of the loop of fixInsert, case by case, with the grandparent that is never null |
| RBTrees.InsertFacts | rbtree/src/RBTree.java:274-317 | What an insertion does at the place where the way down ends |
| RBTrees.FixRemoveStep | rbtree/src/RBTree.java:174-217 | One round of the loop of fixRemove, case by case, the null sibling included; in all others the measure of the loop goes down |
| RBTrees.MinPlace | rbtree/src/RBTree.java:254-272 | A heap for a tree without its smallest node, seen from the top and from that node's place |
| RBTrees.SucceededAt | rbtree/src/RBTree.java:102-125 | A heap in which the successor has taken the removed node's place, seen from where fixRemove starts |
| RBTrees.RemoveCases | rbtree/src/RBTree.java:89-162 | Which repair remove needs, by the children and colours at the node found |
| RBTrees.RemoveFacts | rbtree/src/RBTree.java:89-162 | remove changes the size by one exactly when the key is there |
| RBTrees.RBTree.constructor | rbtree/src/RBTree.java:15-23 | A new tree is empty and valid |
| RBTrees.RBTree.Find | rbtree/src/RBTree.java:69-82 | Returns the value with the key, or null exactly when there is none |
| RBTrees.RBTree.FindParentNode | rbtree/src/RBTree.java:324-342 | Returns the node with the key, or the node below which the key belongs and on which side |
| RBTrees.RBTree.SetParent | rbtree/src/RBTree.java:487-494 | Stores the parent, null for the sentinel |
| RBTrees.RBTree.RotateLeft | rbtree/src/RBTree.java:436-460 | The heap holds the rotated tree in the same context; no node is lost |
| RBTrees.RBTree.RotateRight | rbtree/src/RBTree.java:462-485 | The heap holds the rotated tree in the same context; no node is lost |
| RBTrees.RBTree.GetUncle | rbtree/src/RBTree.java:423-434 | The other child of the grandparent, null without a grandparent |
| RBTrees.RBTree.StraightenAt | rbtree/src/RBTree.java:361-402 | The branch without an uncle: the heap holds the straightened subtree |
| RBTrees.RBTree.RecolourAt | rbtree/src/RBTree.java:403-412 | The branch with an uncle: the heap holds the recoloured subtree, and the climb goes on at the grandparent |
| RBTrees.RBTree.FixInsertRound | rbtree/src/RBTree.java:354-413 | One round keeps that finishing from here gives the specified tree |
| RBTrees.RBTree.FixInsert | rbtree/src/RBTree.java:348-416 | Terminates with exactly the specified tree in the heap |
| RBTrees.RBTree.AddNode | rbtree/src/RBTree.java:58-61 | Returns the value with that key before, if any; the contents become the specified ones; order, parent links, black root, no red-red edge and size hold; equal black height is kept exactly under the condition of InsertRedBlack |
| RBTrees.RBTree.AddTreeNode | rbtree/src/RBTree.java:274-317 | addNode for a node that is not in the tree yet |
| RBTrees.RBTree.GetSibling | rbtree/src/RBTree.java:229-239 | The other child of the parent, also below an empty place |
| RBTrees.RBTree.BlackSibling | rbtree/src/RBTree.java:190-216 | Cases 2 to 4 of fixRemove on the heap |
| RBTrees.RBTree.FixRemoveRound | rbtree/src/RBTree.java:174-217 | One round of fixRemove on the heap: stuck exactly at a null sibling, having changed nothing, and otherwise the measure of the loop goes down |
| RBTrees.RBTree.FixRemove | rbtree/src/RBTree.java:169-226 | Terminates, done or at a null sibling exactly as specified, with exactly the specified tree in the heap |
| RBTrees.RBTree.RemoveMin | rbtree/src/RBTree.java:254-272 | Takes the smallest node out of a subtree unless it is its root, and leaves its fields alone |
| RBTrees.RBTree.TakePlace | rbtree/src/RBTree.java:102-125 | The successor has the place, children and colour of the removed node |
| RBTrees.RBTree.Search | rbtree/src/RBTree.java:89-101 | The loop of remove ends at the node with the key, or at null, and knows the node above |
| RBTrees.RBTree.Detach | rbtree/src/RBTree.java:102-148 | The heap without the node holds the specified tree up to the colour of the root; fails exactly where fixRemove does |
| RBTrees.RBTree.RemoveNode | rbtree/src/RBTree.java:102-158 | The heap holds the specified tree, and unless fixRemove fails the removed node has no links left |
| RBTrees.RBTree.TakeOut | rbtree/src/RBTree.java:100-160 | What remove does with the node it found, in both outcomes |
| RBTrees.RBTree.Remove | rbtree/src/RBTree.java:89-162 | On every valid tree: throws exactly under the condition of RemoveIs, otherwise returns the value with the key, or null if there is none; exactly that value is out of the tree, order, parent links and colours hold and all later calls are covered; the size is one too high for every call that threw; on a red-black tree it never throws and all rules hold again |
| Zones.EntryPut | VLinux0.11/fs/inode.c:100-105 | Storing a zone number in an indirect block changes this entry only |
| Zones.DataSlotsDiffer | VLinux0.11/fs/inode.c:72-138 | Different blocks of a file have different slots in its zone tree |
| Zones.OneWay | VLinux0.11/fs/inode.c:72-138 | Every zone reached is in range, marked in the zone map, and reached from one slot of one inode only |
| Zones.GraftZone | VLinux0.11/fs/inode.c:82-135 | Storing a fresh zone in an empty slot changes the mapping of this slot only, in all zone trees |
| Zones.GraftBytes | VLinux0.11/fs/inode.c:82-135 | Storing a fresh zone in an empty slot changes no byte of any file |
| Zones.GraftGrew | VLinux0.11/fs/inode.c:82-135 | Storing a fresh zone keeps the zone trees disjoint and the zone map exact |
| Zones.LostBit | VLinux0.11/fs/bitmap.c:90-95 | Setting a bit beyond the last zone changes no file and no zone tree |
| Zones.WroteZone | VLinux0.11/fs/file_dev.c:69-82 | Writing bytes into a data block changes no zone tree, of this or any file |
| Zones.WroteByte | VLinux0.11/fs/file_dev.c:69-82 | Writing bytes into a data block changes exactly these bytes of this file |
| Zones.WroteReplaced | VLinux0.11/fs/file_dev.c:69-82 | A round of file_write replaces exactly its bytes, moves the end of the file, keeps all invariants and zeros beyond the end |
| Zones.ReplacedTwice | VLinux0.11/fs/file_dev.c:64-83 | Two adjoining rounds are one longer write |
| Zones.StillMarked | VLinux0.11/fs/truncate.c:11-64 | A zone of the inode that was not given back yet is still marked, so free_block does not panic |
| Zones.BelowAll | VLinux0.11/fs/truncate.c:29-45 | The zones below a slot are its own zone and those of the 512 entries of its block |
| Zones.FreeOne | VLinux0.11/fs/bitmap.c:47-73 | Clearing one bit gives back exactly one zone |
| Zones.EmptiedKeeps | VLinux0.11/fs/truncate.c:47-64 | truncate clears exactly the bits of this inode's zones, empties this file and leaves zones and bytes of all others alone |
| Zones.WriteIsSequence | VLinux0.11/fs/file_dev.c:48-90 | On contents as byte sequences, file_write overwrites at the position, fills a gap with zeros, and changes no other file |
| Zones.ReadIsWindow | VLinux0.11/fs/file_dev.c:17-46 | What file_read returns is the contents from the position on, followed by zeros where it goes beyond the end |
| Zones.WindowInside | VLinux0.11/fs/read_write.c:74-78 | Cut at the end of the file as sys_read does, it is the slice of the contents, empty at or past the end |
| Zones.EmptiedContents | VLinux0.11/fs/truncate.c:47-64 | truncate leaves an empty file and the contents of all others |
| FileBytes.ZoneIs | VLinux0.11/fs/inode.c:72-138 | The zone of a block, read off the device: i_zone[block] below 7; number block - 7 of the block i_zone[7] below 519, as a little-endian short; above that number (block - 519) / 512 of the block i_zone[8] and number (block - 519) % 512 of the block it names; 0 behind a 0 |
| FileBytes.ByteAtIs | VLinux0.11/fs/inode.c:72-138 | A byte of a file is what these look-ups find at p % 1024, 0 in a hole, and nothing else |
| FileBytes.SliceBytes | VLinux0.11/fs/file_dev.c:17-46 | The slice that read() returns, byte by byte by these look-ups |
| FileBytes.ReplacedBytes | VLinux0.11/fs/file_dev.c:48-90 | What a write changes, byte by byte by these look-ups: the data are at the position, the size is what it has to be, a gap is 0, and no other byte below the end of any file changes |
| Files.FindFirstZero | VLinux0.11/fs/bitmap.c:31-45 | The lowest clear bit of a map block, 8192 if there is none |
| Files.FindFree | VLinux0.11/fs/bitmap.c:83-89 | The lowest clear bit of all map blocks |
| Files.ExtendedTwice | VLinux0.11/fs/inode.c:72-138 | Growing a zone tree twice |
| Files.NothingBelow | VLinux0.11/fs/inode.c:96-127 | Below an empty indirect slot every slot is empty |
| Files.EntryToFree | VLinux0.11/fs/truncate.c:11-45 | The i-th entry of an indirect block can still be read and has not been given back |
| Files.DirectAll | VLinux0.11/fs/truncate.c:47-64 | Direct, indirect and double-indirect part share no zone and are all zones of the inode |
| Files.ReadMore | VLinux0.11/fs/file_dev.c:25-42 | One round of file_read appends the bytes at the position, zeros for a hole |
| Files.Regrown | VLinux0.11/fs/file_dev.c:65-82 | Allocating a block between two writes does not disturb what has been written |
| Files.FileSystem.constructor | VLinux0.11/fs/bitmap.c:75-105 | A device with nothing allocated satisfies the invariant and all files are empty |
| Files.FileSystem.NewBlock | VLinux0.11/fs/bitmap.c:75-105 | The lowest free zone, marked, zeroed and dirty, which no file reaches; 0 exactly when all are in use, and then, exactly if the maps have a clear bit left, the lowest such bit, beyond the last zone, is set and nothing else changes; taking a zone sets exactly its bit |
| Files.OneZoneLosesBit | VLinux0.11/fs/bitmap.c:83-95 | A device with one zone in use satisfies all invariants, and new_block sets bit 2 of its map, for which there is no zone |
| Files.FileSystem.RootZone | VLinux0.11/fs/inode.c:82-97 | The pointer in i_zone; with create an empty one gets a fresh zone and nothing else changes |
| Files.FileSystem.EntryZone | VLinux0.11/fs/inode.c:98-107 | The pointer in an indirect block; with create an empty one gets a fresh zone and nothing else changes |
| Files.FileSystem.Bmap0 | VLinux0.11/fs/inode.c:72-138 | The zone of the block; with create at most the pointers on the way to it are new, all other mappings and all bytes stay; 0 only if the device is full; panics exactly outside 0..7+512+512*512-1; the result is the one found by the look-ups in i_zone and the indirect blocks (ZoneIs) |
| Files.FileSystem.FindZone | VLinux0.11/fs/inode.c:82-138 | The three cases of _bmap, by i_zone[0..6], i_zone[7] and i_zone[8] |
| Files.FileSystem.DindZone | VLinux0.11/fs/inode.c:109-137 | The zone of a double-indirect block; with create at most the pointers on the way to it are new |
| Files.FileSystem.Bmap | VLinux0.11/fs/inode.c:140-143 | Changes nothing and returns the zone of the block, 0 for a hole, as the look-ups in i_zone and the indirect blocks find it |
| Files.FileSystem.CreateBlock | VLinux0.11/fs/inode.c:145-148 | Adds at most a fresh path; the zone returned is the one that bmap and the look-ups then find |
| Files.FileSystem.FreeBlock | VLinux0.11/fs/bitmap.c:47-73 | Clears the bit, unless the zone is out of range or its bit clear, where the kernel panics, or somebody else holds its buffer, where nothing changes; giving a zone back clears exactly its bit |
| Files.FileSystem.FreeInd | VLinux0.11/fs/truncate.c:11-27 | Gives back exactly the zones of the indirect block |
| Files.FileSystem.FreeDind | VLinux0.11/fs/truncate.c:29-45 | Gives back exactly the zones of the double-indirect block |
| Files.FileSystem.Truncate | VLinux0.11/fs/truncate.c:47-64 | Gives back exactly the zones of a regular file or directory, never panics, and does nothing for other inodes |
| Files.FileSystem.SysRead | VLinux0.11/fs/read_write.c:55-82 | read() of a regular file or directory returns exactly the bytes of its contents from the position on, at most count and none at or past the end, and moves the position by as many; a negative count is EINVAL; nothing else changes; the bytes are also stated by the look-ups in i_zone and the indirect blocks |
| Files.FileSystem.FileRead | VLinux0.11/fs/file_dev.c:17-46 | Returns count bytes from the position on, zeros in holes, across all block boundaries, and moves the position by them |
| Files.FileSystem.ReadChunk | VLinux0.11/fs/file_dev.c:34-42 | The bytes of one block from a place on, zeros for a hole |
| Files.FileSystem.CopyIn | VLinux0.11/fs/file_dev.c:80-81 | Copies bytes into a block and leaves the rest of it |
| Files.FileSystem.FileWrite | VLinux0.11/fs/file_dev.c:48-90 | Replaces exactly the returned number of bytes at the position or, appending, at the end; short only if the device is full; everything changed is marked to be written back; the bytes and the size of this and all other files are also stated by the look-ups in i_zone and the indirect blocks |
| Files.FileSystem.WriteChunk | VLinux0.11/fs/file_dev.c:69-82 | A round of file_write fills the block to its end or writes all that is left, and replaces exactly these bytes |
| BufferQueues.ChainLess | VLinux0.11/fs/buffer.c:133-139 | Unlinking a buffer leaves the doubly linked chain without it |
| BufferQueues.ChainMore | VLinux0.11/fs/buffer.c:157-163 | Linking a buffer in front leaves a doubly linked chain with it |
| BufferQueues.UnhashKeeps | VLinux0.11/fs/buffer.c:133-139 | The first half of remove_from_queues takes the buffer out of the chain of its hash value and leaves all chains in order |
| BufferQueues.RehashKeeps | VLinux0.11/fs/buffer.c:157-163 | The second half of insert_into_queues puts it into the chain of its new hash value; a buffer of device 0 is in none |
| BufferQueues.UnlistKeeps | VLinux0.11/fs/buffer.c:140-146 | The free list without the buffer is one doubly linked ring |
| BufferQueues.ListKeeps | VLinux0.11/fs/buffer.c:151-156 | The buffer is the last of the doubly linked ring |
| BufferQueues.OnlyOne | VLinux0.11/fs/buffer.c:140-146 | A ring of a single buffer is left as it is |
| BufferQueues.OneChain | VLinux0.11/fs/buffer.c:128-129 | Two blocks are in one hash chain exactly when device and block number, combined by exclusive or, agree modulo 307 |
| BufferQueues.RequeueKeeps | VLinux0.11/fs/buffer.c:238-250 | Giving a buffer to a block that has none keeps hash chains, one ring of all buffers and one buffer a block |
| BufferCache.TakeUse | VLinux0.11/fs/buffer.c:190 | b_count++ by a task keeps b_count equal to the number of uses |
| BufferCache.DropUse | VLinux0.11/fs/buffer.c:257-260 | b_count-- by a task that uses the buffer keeps it; the count was not 0 |
| BufferCache.TakeKeeps | VLinux0.11/fs/buffer.c:239-250 | An unused, unlocked, clean buffer is given to a block that has none: every invariant stays, no buffer in use is touched and the plain disk is the same |
| BufferCache.MovesToEnd | VLinux0.11/fs/buffer.c:239-250 | The buffer given to a new block goes from its place in the free list to the end, and the others keep their order |
| BufferCache.FirstOfBest | VLinux0.11/fs/buffer.c:213-223 | A buffer of least badness (twice b_dirt plus b_lock) that is the first of those is the first of the best: no unused one is better - clean before dirty, then unlocked before locked - and all before it in the free list are worse |
| BufferCache.InUse | VLinux0.11/fs/buffer.c:253-261 | A buffer a task holds or waits for has b_count above 0 |
| BufferCache.LockKeeps | VLinux0.11/kernel/blk_drv/ll_rw_blk.c:42-49 | Locking a buffer for a transfer keeps the invariants |
| BufferCache.QueueKeeps | VLinux0.11/kernel/blk_drv/ll_rw_blk.c:70-71 | The clearing of the dirty flag in add_request keeps the invariants |
| BufferCache.ReadDoneKeeps | VLinux0.11/kernel/blk_drv/blk.h:101-125 | The end of a read, good or bad, keeps the invariants |
| BufferCache.WriteDoneKeeps | VLinux0.11/kernel/blk_drv/blk.h:101-125 | The end of a good write keeps the invariants, also when the buffer was changed under way; a buffer that an earlier error made invalid counts again |
| BufferCache.WriteFailedKeeps | VLinux0.11/kernel/blk_drv/blk.h:101-125 | The end of a failed write clears b_uptodate and keeps the invariants; the plain disk then has at this block what the device has |
| BufferCache.StoreKeeps | VLinux0.11/fs/buffer.c:267-281 | A holder's store changes the plain disk at its block only |
| BufferCache.OneBuffer | VLinux0.11/fs/buffer.c:128-174 | At most one buffer is for a block, and it is in the chain of its hash value |
| BufferCache.NothingLost | VLinux0.11/fs/buffer.c:206-251 | A clean idle buffer equals its block on the device, and a block that no buffer is for is on the device |
| BufferCache.BufferCache.constructor | VLinux0.11/fs/buffer.c:348-381 | buffer_init: empty chains, one ring of n unused buffers; the plain disk is the device |
| BufferCache.BufferCache.FindBuffer | VLinux0.11/fs/buffer.c:166-174 | The buffer for the block, or NULL exactly when no buffer is for it |
| BufferCache.BufferCache.RemoveFromQueues | VLinux0.11/fs/buffer.c:131-147 | The pointer stores leave exactly the queues that UnhashKeeps and UnlistKeeps are about |
| BufferCache.BufferCache.InsertIntoQueues | VLinux0.11/fs/buffer.c:149-164 | The pointer stores leave exactly the queues that ListKeeps and RehashKeeps are about; the store through b_next goes through NULL exactly when the device is not 0 and the hash chain was empty |
| BufferCache.BufferCache.TakeBuffer | VLinux0.11/fs/buffer.c:241-250 | The buffer with count 1, clean, not up to date, in the queues of its new block; the store through NULL happens exactly when the device is not 0 and no other buffer has the hash value of the block |
| BufferCache.BufferCache.Take | VLinux0.11/fs/buffer.c:239-250 | The task holds the buffer, or waits for its contents; the buffer has gone to the end of the free list, the others keep their order; all invariants hold and nothing else in use changes |
| BufferCache.BufferCache.Reassign | VLinux0.11/fs/buffer.c:239-250 | The same on the queues: the buffer is for its new block, at the end of the free list, and every invariant stays |
| BufferCache.BufferCache.ChooseVictim | VLinux0.11/fs/buffer.c:213-223 | The first unused buffer of the free list that no other is better than: all unused ones before it are worse; none exactly when all are in use |
| BufferCache.BufferCache.GetHashTable | VLinux0.11/fs/buffer.c:183-196 | Missing exactly when no buffer is for the block; otherwise the buffer, one use more, or asleep until it is unlocked |
| BufferCache.BufferCache.Getblk | VLinux0.11/fs/buffer.c:206-251 | A buffer for the block, unlocked and counted - the one for it if there is one, else an unused, unlocked, clean one - or asleep for one of the stated reasons; all invariants hold, no buffer in use is taken away and the plain disk is the same; a store through NULL is made exactly when a buffer is taken for a device other than 0 and no other buffer has the hash value of the block; the buffer it takes or waits for is the first of the best in the free list, and one taken goes to the end of the list, so the one longest unused is taken first |
| BufferCache.BufferCache.NewBuffer | VLinux0.11/fs/buffer.c:213-250 | Takes an unused, unlocked, clean buffer, or sleeps because all are in use or the best unused one is locked or dirty; the one chosen is the first of the best in the free list, and one taken goes to its end |
| BufferCache.BufferCache.WaitFor | VLinux0.11/fs/buffer.c:224-237 | The three reasons to sleep: all buffers in use, or the best one locked or dirty |
| BufferCache.BufferCache.Bread | VLinux0.11/fs/buffer.c:267-281 | The buffer returned is up to date and holds what the plain disk has at the block, that is the last bytes stored there; the buffer taken for it is chosen as in getblk |
| BufferCache.BufferCache.Brelse | VLinux0.11/fs/buffer.c:253-261 | One use less, after the buffer is unlocked; the count of a held buffer is not 0, so the panic is not reached |
| BufferCache.BufferCache.Resume | VLinux0.11/fs/buffer.c:183-281 | The same guarantees after any sleeping point, whatever the other tasks did meanwhile; the task stays asleep only while what it waits for is not there |
| BufferCache.BufferCache.ResumeHash | VLinux0.11/fs/buffer.c:191-195 | After wait_on_buffer the buffer still is for the block |
| BufferCache.BufferCache.ResumeFreeSleep | VLinux0.11/fs/buffer.c:224-227 | After sleeping for a free buffer the search starts over, with the same guarantees |
| BufferCache.BufferCache.SearchAgain | VLinux0.11/fs/buffer.c:206-251 | The search from its start, with the same guarantees |
| BufferCache.BufferCache.ResumeVictim | VLinux0.11/fs/buffer.c:228-240 | After waiting for the chosen buffer or syncing its device; all checks are repeated |
| BufferCache.BufferCache.ResumeRelease | VLinux0.11/fs/buffer.c:257-260 | After waiting in brelse: one use less once the buffer is unlocked |
| BufferCache.BufferCache.ResumeRead | VLinux0.11/fs/buffer.c:267-281 | The buffer with the contents of the block; unreadable only after a read that failed |
| BufferCache.BufferCache.StartWrite | VLinux0.11/fs/buffer.c:59-82 | ll_rw_block(WRITE) as sync_dev uses it: the buffer is locked for a write |
| BufferCache.BufferCache.QueueRequest | VLinux0.11/kernel/blk_drv/ll_rw_blk.c:70-71 | The request is queued, a buffer to be written is no longer dirty |
| BufferCache.BufferCache.RequestDone | VLinux0.11/kernel/blk_drv/blk.h:101-125 | A read brings the block of the device; a good write puts the data there, or anything if the buffer was changed meanwhile; after an error the buffer is not up to date; no other buffer in use is touched |
| BufferCache.BufferCache.Store | VLinux0.11/fs/buffer.c:267-281 | The holder's data are what the plain disk now has at the block |
| BufferCache.StepHolds | VLinux0.11/fs/buffer.c:183-281 | Whoever holds a buffer still holds it after a step of anybody, for the same block and up to date as before |
| BufferCache.FirstGetblk | VLinux0.11/fs/buffer.c:149-164 | On a fresh cache the first getblk for a device other than 0 stores through NULL |
| BufferCache.BufferCache.Run | VLinux0.11/fs/buffer.c:59-281 | After every interleaving of tasks, their sleeping points and the driver: a buffer that its holder did not release is still his, for the same block, and up to date if it was and no transfer of it failed; all up-to-date buffers hold what the plain disk has |
| BufferCache.BufferCache.Step | VLinux0.11/fs/buffer.c:59-281 | No step takes a buffer in use away, and only a failed transfer makes one invalid; the plain disk changes only by a store, by a failed write, or by the write of a buffer that an earlier error had made invalid |
| Galois.Order | smurfs/src/main/resources/static/lib/qrcode/qrcode.js:136-138 | a has order 255 in GF(256) |
| Galois.TimesAdd | smurfs/src/main/resources/static/lib/qrcode/qrcode.js:142 | Multiplication by a power of a distributes over exclusive or |
| Galois.ExpInjective | smurfs/src/main/resources/static/lib/qrcode/qrcode.js:138 | The first 255 powers of a differ, so LOG_TABLE is a function |
| Galois.LogExists | smurfs/src/main/resources/static/lib/qrcode/qrcode.js:138 | Every byte but 0 is a power of a, so LOG_TABLE is filled |
| Galois.ExpMod | smurfs/src/main/resources/static/lib/qrcode/qrcode.js:134-136 | gexp may reduce its argument modulo 255 |
| Galois.MulAdd | smurfs/src/main/resources/static/lib/qrcode/qrcode.js:142 | The product defined by the tables distributes |
| Galois.MulSwap | smurfs/src/main/resources/static/lib/qrcode/qrcode.js:142 | The product defined by the tables is commutative |
| Galois.MulNonzero | smurfs/src/main/resources/static/lib/qrcode/qrcode.js:142 | The product of two bytes that are not 0 is not 0 |
| Galois.Recurrence | smurfs/src/main/resources/static/lib/qrcode/qrcode.js:137 | The exclusive or of four earlier entries is the next power of a |
| ReedSolomon.EvalAppend | smurfs/src/main/resources/static/lib/qrcode/qrcode.js:139-141 | The value of two coefficient lists joined |
| ReedSolomon.StrippedEval | smurfs/src/main/resources/static/lib/qrcode/qrcode.js:140-141 | Dropping leading zeros keeps the value of a polynomial |
| ReedSolomon.ProductEval | smurfs/src/main/resources/static/lib/qrcode/qrcode.js:142-143 | The value of the product is the product of the values, everywhere |
| ReedSolomon.GenRoots | smurfs/src/main/resources/static/lib/qrcode/qrcode.js:123-124 | a^0 .. a^(n-1) are roots of the generator |
| ReedSolomon.ReducedEval | smurfs/src/main/resources/static/lib/qrcode/qrcode.js:144-146 | One step of mod keeps the value at every root of the divisor |
| ReedSolomon.QRMath.constructor | smurfs/src/main/resources/static/lib/qrcode/qrcode.js:136-138 | The loops fill EXP_TABLE with the powers of a and LOG_TABLE with their exponents |
| ReedSolomon.QRMath.FillLog | smurfs/src/main/resources/static/lib/qrcode/qrcode.js:138 | LOG_TABLE inverts EXP_TABLE |
| ReedSolomon.QRMath.Glog | smurfs/src/main/resources/static/lib/qrcode/qrcode.js:133-134 | The logarithm; throws exactly for 0 |
| ReedSolomon.QRMath.Gexp | smurfs/src/main/resources/static/lib/qrcode/qrcode.js:134-136 | The power of a for any integer exponent |
| ReedSolomon.NewPolynomial | smurfs/src/main/resources/static/lib/qrcode/qrcode.js:139-141 | Leading zeros dropped, shift slots added |
| ReedSolomon.Multiply | smurfs/src/main/resources/static/lib/qrcode/qrcode.js:142-143 | The product without leading zeros; throws exactly when one of two non-empty factors has a coefficient 0, or both are empty |
| ReedSolomon.GetErrorCorrectPolynomial | smurfs/src/main/resources/static/lib/qrcode/qrcode.js:123-124 | The product of the (x + a^i) for i below n; throws exactly when a generator on the way has a coefficient 0 |
| ReedSolomon.Reduce | smurfs/src/main/resources/static/lib/qrcode/qrcode.js:145 | Adds the multiple of the divisor |
| ReedSolomon.Mod | smurfs/src/main/resources/static/lib/qrcode/qrcode.js:143-146 | Terminates with a remainder shorter than the divisor that has the same value at every root of the divisor; throws exactly when it has to divide and the divisor has a coefficient 0 |
| QrBlocks.RemainderCorrects | smurfs/src/main/resources/static/lib/qrcode/qrcode.js:116 | A remainder, with leading zeros, makes a block a codeword |
| QrBlocks.ErrorCorrection | smurfs/src/main/resources/static/lib/qrcode/qrcode.js:115-116 | The computed codewords: data followed by them vanish at a^0 .. a^(n-1) |
| QrBlocks.Interleave | smurfs/src/main/resources/static/lib/qrcode/qrcode.js:118-119 | Column by column over all blocks |
| QrBlocks.DealColumns | smurfs/src/main/resources/static/lib/qrcode/qrcode.js:118-119 | Dealing an interleaved sequence out again gives back all blocks, at every stage |
| QrBlocks.Deinterleave | smurfs/src/main/resources/static/lib/qrcode/qrcode.js:118-119 | De-interleaving gives back all blocks (section 7.6 of ISO/IEC 18004:2015) |
| QrBlocks.ReadsBack | smurfs/src/main/resources/static/lib/qrcode/qrcode.js:117-120 | De-interleaving the output with the lengths of the block table gives back all data blocks and all their error correction |
| QrBlocks.ColumnsLength | smurfs/src/main/resources/static/lib/qrcode/qrcode.js:117-119 | The interleaved sequence has as many codewords as the blocks together |
| QrBlocks.StandsAt | smurfs/src/main/resources/static/lib/qrcode/qrcode.js:118-119 | Codeword i of block r stands behind the first i of every block, and behind one more of each block before it that has so many |
| QrBlocks.JoinedFrom | smurfs/src/main/resources/static/lib/qrcode/qrcode.js:115-116 | The data blocks from any one on, joined, are the bytes of the buffer from where it starts: no byte is left out or used twice |
| QrBlocks.MessageBack | smurfs/src/main/resources/static/lib/qrcode/qrcode.js:115-120 | Dealing the codewords out by the block lengths and joining the blocks gives the first DataCount bytes of the buffer in their order, 0 beyond its end |
| QrBlocks.CreateBytes | smurfs/src/main/resources/static/lib/qrcode/qrcode.js:115-120 | Data and error correction of all blocks, interleaved; every block is a codeword; throws exactly when a block cannot be encoded; a reader who deals the output out and joins the blocks gets exactly the bytes of the buffer |
| QrBlocks.QRBitBuffer.PutBit | smurfs/src/main/resources/static/lib/qrcode/qrcode.js:150-152 | The bits are the old ones and this one |
| QrBlocks.QRBitBuffer.Put | smurfs/src/main/resources/static/lib/qrcode/qrcode.js:150-152 | The bits are the old ones and the low bits of the number, highest first |
| QrBlocks.QRBitBuffer.Get | smurfs/src/main/resources/static/lib/qrcode/qrcode.js:150 | Reads back the bit put there |
| QrBlocks.SymbolFits | smurfs/src/main/resources/static/lib/qrcode/qrcode.js:104-115 | Terminator and padding fill the symbol exactly and leave the message in front |
| QrBlocks.Fill | smurfs/src/main/resources/static/lib/qrcode/qrcode.js:110-115 | The buffer holds the message, terminator, zero bits and alternating pad bytes up to the capacity |
| QrBlocks.ValueBack | smurfs/src/main/resources/static/lib/qrcode/qrcode.js:150-151 | A number that fits comes back from its bits, the highest first |
| QrBlocks.BytesBack | smurfs/src/main/resources/static/lib/qrcode/qrcode.js:103-104 | The bytes of a segment come back from its bits |
| QrBlocks.SegmentsBack | smurfs/src/main/resources/static/lib/qrcode/qrcode.js:103-104 | A reader that takes four bits of mode, the count and the bytes gets back all segments with modes 1 to 15, bytes, and counts that fit their fields, with what follows left to read |
| QrBlocks.SymbolPadded | smurfs/src/main/resources/static/lib/qrcode/qrcode.js:110-115 | Behind the message the symbol has zeros up to the first byte that leaves room for a terminator of four bits, or to its end, and then bytes 236 and 17 in turn |
| QrBlocks.NothingBehind | smurfs/src/main/resources/static/lib/qrcode/qrcode.js:110-115 | A reader finds no segment in terminator and padding |
| QrBlocks.MessageRead | smurfs/src/main/resources/static/lib/qrcode/qrcode.js:103-115 | Reading the whole symbol gives back exactly the segments |
| QrBlocks.CreateData | smurfs/src/main/resources/static/lib/qrcode/qrcode.js:103-115 | Throws when the message is too long; otherwise the codewords carry exactly the message's bits and every block is a codeword; dealing the codewords out, joining the blocks and reading their bits as mapData does gives back exactly the list of modes and bytes, followed by the padding of section 7.4.10 of ISO/IEC 18004:2015 |
| Division.QuotientExists | smurfs/src/main/resources/static/lib/qrcode/qrcode.js:143-146 | Division with remainder by a polynomial that begins with 1 |
| Division.DivisionEval | smurfs/src/main/resources/static/lib/qrcode/qrcode.js:143-146 | The value of quotient times divisor plus remainder |
| Division.RootsVanish | smurfs/src/main/resources/static/lib/qrcode/qrcode.js:123-124 | A polynomial of n coefficients with the n roots a^0 .. a^(n-1) is 0 |
| Division.CorrectsIsMultiple | smurfs/src/main/resources/static/lib/qrcode/qrcode.js:115-146 | Codewords correct a block exactly when data followed by them is a multiple of the product of the (x + a^i) (section 7.5.2 of ISO/IEC 18004:2015) |
| Division.OneCorrection | smurfs/src/main/resources/static/lib/qrcode/qrcode.js:115-116 | A block has exactly one error correction |
| Generators.NextGenerator | smurfs/src/main/resources/static/lib/qrcode/qrcode.js:123-124 | The coefficients of the next generator from those of the last |
| Generators.Neighbours | smurfs/src/main/resources/static/lib/qrcode/qrcode.js:123-124 | Neighbouring coefficients of a generator determine each other |
| Generators.Nonzero | smurfs/src/main/resources/static/lib/qrcode/qrcode.js:123-124 | A generator of degree below 255 has no coefficient 0 |
| Generators.AllPowers | smurfs/src/main/resources/static/lib/qrcode/qrcode.js:123-124 | The generator of degree 255 has a coefficient 0 |
| Generators.BuildableIs | smurfs/src/main/resources/static/lib/qrcode/qrcode.js:123-124 | getErrorCorrectPolynomial throws exactly for lengths above 255 |
| Generators.EncodableIs | smurfs/src/main/resources/static/lib/qrcode/qrcode.js:116 | Error correction of a block succeeds exactly for up to 254 codewords, and for 255 if its data are all 0 |
| Generators.BlocksEncodableIs | smurfs/src/main/resources/static/lib/qrcode/qrcode.js:115-120 | createBytes can encode exactly the lists of blocks that meet this bound each |
| WaitQueues.SleepKeeps | VLinux0.11/kernel/sched.c:170-183 | Joining a queue keeps the sleepers in disjoint chains |
| WaitQueues.WakeKeeps | VLinux0.11/kernel/sched.c:217-224 | wake_up hands the rest of the chain to the task it wakes |
| WaitQueues.ReturnKeeps | VLinux0.11/kernel/sched.c:183-186 | The end of sleep_on wakes the task saved in tmp, which takes over the rest of the chain |
| WaitQueues.OneWaker | VLinux0.11/kernel/sched.c:170-224 | A task sleeps exactly when some queue pointer or saved tmp names it, and then only one does: nobody is lost or woken twice |
| WaitQueues.StepKeeps | VLinux0.11/kernel/sched.c:170-224 | Every step of sleep_on and wake_up, in any order, keeps the chains |
| WaitQueues.WakeFrees | VLinux0.11/kernel/sched.c:217-224 | After wake_up the i-th task of the queue has exactly i tasks before it |
| WaitQueues.FreedStep | VLinux0.11/kernel/sched.c:170-224 | Only the return of the task it waits behind, which is awake, brings it forward, by one; no other step moves it |
| WaitQueues.RunFrees | VLinux0.11/kernel/sched.c:170-224 | In every run a task on its way out is awake exactly when the task it waits behind and those between have returned, as many as stand before it; until then some awake task stands before it |
| WaitQueues.FairFrees | VLinux0.11/kernel/sched.c:170-224 | Under fair scheduling - whoever is awake inside sleep_on returns at some later time - a task on its way out is released |
| WaitQueues.WakeReleasesAll | VLinux0.11/kernel/sched.c:170-224 | Under fair scheduling one wake_up releases every task that is queued at that moment, whatever other tasks sleep, wake or return meanwhile |
| WaitQueues.WaitQueues.constructor | VLinux0.11/kernel/sched.c:170-187 | Empty queues |
| WaitQueues.WaitQueues.SleepOn | VLinux0.11/kernel/sched.c:170-183 | The step of sleep_on up to schedule(); task 0 panics and changes nothing |
| WaitQueues.WaitQueues.Wakened | VLinux0.11/kernel/sched.c:183-186 | The step at the end of sleep_on |
| WaitQueues.WaitQueues.WakeUp | VLinux0.11/kernel/sched.c:217-224 | The step of wake_up |
| Timers.InsertIs | VLinux0.11/kernel/sched.c:317-330 | The list afterwards is the old one with one entry put in |
| Timers.InsertPositive | VLinux0.11/kernel/sched.c:317-330 | All deltas stay positive |
| Timers.InsertDue | VLinux0.11/kernel/sched.c:317-330 | The new entry is due after exactly the ticks asked for, entries ahead keep their times, and all behind slip by one common residual |
| Timers.InsertConserves | VLinux0.11/kernel/sched.c:317-330 | Exactly one callback is added |
| Timers.TickIs | VLinux0.11/kernel/sched.c:349-359 | A tick fires the first entry if it is due, and nothing else |
| Timers.FiresWhenDue | VLinux0.11/kernel/sched.c:349-359 | If no timer is added, an entry stays until its tick, and that tick fires it alone |
| Timers.FiresOnce | VLinux0.11/kernel/sched.c:351-358 | The loop moves due callbacks from the list to the ones called, none twice |
| Timers.TickConserves | VLinux0.11/kernel/sched.c:349-359 | Callbacks are conserved by every tick |
| Timers.TimerList.constructor | VLinux0.11/kernel/sched.c:294-300 | No timers |
| Timers.TimerList.AddTimer | VLinux0.11/kernel/sched.c:302-333 | The list is the specified one; NULL is ignored, a time not positive calls at once, and it panics exactly when all 64 slots are used |
| Timers.TimerList.MoveBack | VLinux0.11/kernel/sched.c:321-330 | The loop that swaps neighbouring entries puts the new one in its place |
| Timers.TimerList.DoTimer | VLinux0.11/kernel/sched.c:349-359 | The list after a tick, and the callbacks in order |
| Schedule.ChoiceIsOne | VLinux0.11/kernel/sched.c:129-139 | The choice is unique: a runnable task of maximal counter, the last such in the table, or 0 if none is runnable |
| Schedule.RechargeKeeps | VLinux0.11/kernel/sched.c:140-143 | A recharge keeps counters between 0 and twice the priority and makes all runnable counters positive |
| Schedule.SliceAfter | VLinux0.11/kernel/sched.c:140-143 | After n recharges what a slice is below twice the priority is what it was, divided by 2^n and rounded up; nothing else of the task has changed |
| Schedule.SliceLimit | VLinux0.11/kernel/sched.c:140-143 | A task that sleeps through enough recharges has twice its priority less one tick |
| Schedule.SignalsKeep | VLinux0.11/kernel/sched.c:113-124 | Alarms and signals that wake nobody keep the slices of all runnable tasks |
| Schedule.PendingIs | VLinux0.11/kernel/sched.c:119-120 | A signal counts if it is not blocked, and SIGKILL (9) and SIGSTOP (19) always do |
| Schedule.AlarmIs | VLinux0.11/kernel/sched.c:113-124 | An alarm whose time has passed sets the bit of SIGALRM and is cleared, others stay; an interruptible sleeper runs exactly when a signal then counts |
| Schedule.AlarmSent | VLinux0.11/kernel/sched.c:115-118 | Over any calls of schedule(): until its time has passed an alarm stays and sends nothing, and the first call after that sends SIGALRM (bit 0x2000) |
| Schedule.AlarmOnce | VLinux0.11/kernel/sched.c:115-118 | Once sent it is not sent again |
| Schedule.WaitStep | VLinux0.11/kernel/sched.c:362-365 | While a runnable task with time left waits and the set of runnable tasks stays, there is no recharge and every user tick uses up time of the others |
| Schedule.WaitBound | VLinux0.11/kernel/sched.c:362-365 | With a fixed set of runnable tasks it waits at most as many ticks as the others have time left (one more if the running task has none) |
| Schedule.Scheduler.Schedule | VLinux0.11/kernel/sched.c:105-155 | Ends in the second pass at the latest with that choice; alarms and signals are handled first; it recharges only if no runnable task has time left; the pointer for switch_to is always that of task 0, so it is the chosen task exactly when none is runnable |
| Schedule.Scheduler.CheckAlarms | VLinux0.11/kernel/sched.c:113-124 | Sends due alarms and wakes interruptible tasks with an unblocked signal |
| Schedule.Scheduler.Pick | VLinux0.11/kernel/sched.c:129-139 | One pass finds the choice and its counter |
| Schedule.Scheduler.RechargeAll | VLinux0.11/kernel/sched.c:140-143 | Halves every counter and adds the priority |
| Schedule.Scheduler.Tick | VLinux0.11/kernel/sched.c:362-365 | The running task loses a tick; in user mode it is rescheduled when none is left; if alarms and signals wake nobody this is a tick of WaitStep |
| Elevator.InOrderRules | VLinux0.11/kernel/blk_drv/blk.h:40-43 | IN_ORDER is a strict total order on different keys |
| Elevator.AtTheEnd | VLinux0.11/kernel/blk_drv/ll_rw_blk.c:78-84 | A key that fits nowhere in a queue with a descent is larger than the last |
| Elevator.IntoRising | VLinux0.11/kernel/blk_drv/ll_rw_blk.c:78-84 | Insertion into a queue without descent leaves one at most |
| Elevator.IntoFalling | VLinux0.11/kernel/blk_drv/ll_rw_blk.c:78-84 | Insertion into a queue with one descent leaves one |
| Elevator.InsertKeeps | VLinux0.11/kernel/blk_drv/ll_rw_blk.c:64-86 | add_request keeps at most one descent and the head, and adds exactly the request |
| Elevator.PlaceIs | VLinux0.11/kernel/blk_drv/ll_rw_blk.c:78-84 | Where add_request puts a key: in the first run, between what is before and what is behind it, if it belongs between the head and another key of that run, and else in the second run, at the same kind of place |
| Elevator.TailKeeps | VLinux0.11/kernel/blk_drv/blk.h:109-125 | end_request keeps at most one descent |
| Elevator.StepKeeps | VLinux0.11/kernel/blk_drv/hd.c:260-261 | Moving the head to its second sector keeps the order, and its place against every other key |
| Requests.OtherKey | VLinux0.11/kernel/blk_drv/ll_rw_blk.c:88-143 | Requests for different buffers have different keys |
| Requests.KeyFresh | VLinux0.11/kernel/blk_drv/ll_rw_blk.c:88-143 | The request of a buffer that is locked for it has a key that no queued request has |
| Requests.RunIs | VLinux0.11/kernel/blk_drv/blk.h:36-43 | In a run without a descent no write stands before a read, and requests of one command rise by device and sector |
| Requests.AddedInPlace | VLinux0.11/kernel/blk_drv/ll_rw_blk.c:78-84 | The request joins the queue where the elevator has it, by command, device and sector of the requests around it |
| Requests.ReadsFirst | VLinux0.11/kernel/blk_drv/ll_rw_blk.c:78-84 | A read added behind a head that is a read of a smaller sector of its device goes before every write of the head's run; only reads stand before it |
| Requests.AddedQueue | VLinux0.11/kernel/blk_drv/ll_rw_blk.c:64-86 | The links of the queue after add_request, with the request in its place |
| Requests.AddedKeeps | VLinux0.11/kernel/blk_drv/ll_rw_blk.c:64-86 | All queues and slots are in order afterwards |
| Requests.EndedKeeps | VLinux0.11/kernel/blk_drv/blk.h:109-125 | All queues and slots are in order after end_request |
| Requests.StepHeadKeeps | VLinux0.11/kernel/blk_drv/hd.c:260-261 | All queues and slots are in order after the head moved to its second sector |
| Requests.BusyOnce | VLinux0.11/kernel/blk_drv/ll_rw_blk.c:64-86 | A slot is in the queue of a device exactly when it is busy for that device |
| Requests.WritesLimited | VLinux0.11/kernel/blk_drv/ll_rw_blk.c:111-122 | Writes never hold more than 21 of the 32 slots |
| Requests.BlockDevices.constructor | VLinux0.11/kernel/blk_drv/ll_rw_blk.c:157-165 | All slots free, all queues empty |
| Requests.BlockDevices.LlRwBlock | VLinux0.11/kernel/blk_drv/ll_rw_blk.c:145-155 | Which of the outcomes happens, by device, lock, flags and free slots, and what each changes: a queued request is in the highest free slot for its command, with this command, block and buffer, at its place in the queue of its device, and all other slots keep theirs; no head is displaced |
| Requests.BlockDevices.MakeRequest | VLinux0.11/kernel/blk_drv/ll_rw_blk.c:110-142 | The request for the block, two sectors long, with this command and buffer, is in the highest free slot for the command and at its place in its device's queue; read-ahead gives up without a slot |
| Requests.BlockDevices.FindSlot | VLinux0.11/kernel/blk_drv/ll_rw_blk.c:115-122 | The highest free slot of 32 for a read, of the first 21 for a write; -1 exactly when these are all busy |
| Requests.SlotsFor | VLinux0.11/kernel/blk_drv/ll_rw_blk.c:111-122 | Reads may use all 32 slots and writes 21 of them |
| Requests.BlockDevices.AddRequest | VLinux0.11/kernel/blk_drv/ll_rw_blk.c:64-86 | All slots and the queue afterwards: the request in its slot and at its place, all others unchanged up to links; the buffer is no longer dirty; its place is stated by command, device and sector: reads before writes, then by device and sector, in the first run if it belongs between its head and another one of it and else in the second |
| Requests.BlockDevices.SectorDone | VLinux0.11/kernel/blk_drv/hd.c:250-270 | After a sector the head names its second sector, or after the last one is taken off with its buffer up to date and unlocked; no other slot changes |
| Requests.BlockDevices.FinishHead | VLinux0.11/kernel/blk_drv/hd.c:256-264 | end_request right after the count of the last sector has reached 0; no other slot changes |
| Requests.BlockDevices.PutBehind | VLinux0.11/kernel/blk_drv/ll_rw_blk.c:78-85 | The search and the two stores put the request behind the entry that IN_ORDER names |
| Requests.BlockDevices.EndRequest | VLinux0.11/kernel/blk_drv/blk.h:109-125 | The head is taken off, its slot is free, its buffer unlocked; no other slot changes |
| Requests.AddedSays | VLinux0.11/kernel/blk_drv/ll_rw_blk.c:110-142 | A queued request means: one more slot of one queue, holding this command, block and buffer, and all other requests unchanged up to links; the request is at the place that command, device and sector give it |
| Requests.MeanwhileKeeps | VLinux0.11/fs/buffer.c:183-281 | All queues and slots stay in order whatever tasks and the buffer cache do with the buffers, as long as locked ones stay locked and for their blocks |
| Requests.BlockDevices.UseBuffers | VLinux0.11/fs/buffer.c:183-281 | That as a step |
| Requests.BlockDevices.Step | VLinux0.11/kernel/blk_drv/ll_rw_blk.c:64-165 | Every step - ll_rw_block, a sleeper that awakes, a sector, a failure, other use of buffers - keeps all queues and slots in order and every request in its slot but the one that the step ends |
| Requests.BlockDevices.Run | VLinux0.11/kernel/blk_drv/ll_rw_blk.c:64-165 | In every interleaving of these a request stays in its slot with its command, block and buffer until an event on its device ends it |
| Buckets.LiveApart | VLinux0.11/lib/malloc.c:159-170 | Two live chunks of a page share no byte and lie in the page |
| Buckets.SizeIs | VLinux0.11/lib/malloc.c:77-92 | The sizes are the powers of two from 16 to 4096 |
| Malloc.SuitsIs | VLinux0.11/lib/malloc.c:127-134 | The chunk has at least the length asked for, and less than twice that unless it is one of 16 bytes |
| Buckets.TakeKeeps | VLinux0.11/lib/malloc.c:168-170 | Handing out the first free chunk keeps refcnt plus free chunks at 4096/size and all lists in order |
| Buckets.TakenLive | VLinux0.11/lib/malloc.c:168-170 | The chunk handed out was not live, is now, and no other changes |
| Buckets.GiveKeeps | VLinux0.11/lib/malloc.c:205-207 | Taking a chunk back keeps refcnt plus free chunks at 4096/size and all lists in order |
| Buckets.GivenLive | VLinux0.11/lib/malloc.c:205-207 | Exactly this chunk is no longer live |
| Buckets.AllFree | VLinux0.11/lib/malloc.c:208 | When refcnt is 0 every chunk of the page is free |
| Buckets.CloseKeeps | VLinux0.11/lib/malloc.c:213-227 | Unlinking an unused bucket keeps all lists; descriptors are conserved |
| Buckets.ClosedLive | VLinux0.11/lib/malloc.c:213-227 | Unlinking an unused bucket loses no live chunk |
| Buckets.ExtendKeeps | VLinux0.11/lib/malloc.c:97-115 | A page of new descriptors, all free and linked before the others, keeps everything |
| Buckets.OpenKeeps | VLinux0.11/lib/malloc.c:152-166 | A new bucket with all its chunks free; all lists stay in order |
| Buckets.PageIsThreaded | VLinux0.11/lib/malloc.c:159-164 | The loop threads each chunk of the page once |
| Counting.Filled | VLinux0.11/lib/malloc.c:208 | Different numbers between 1 and m fill that range when there are m of them |
| Malloc.Allocator.constructor | VLinux0.11/lib/malloc.c:77-92 | No buckets, no live chunks |
| Malloc.Allocator.InitBucketDesc | VLinux0.11/lib/malloc.c:97-115 | There is a free descriptor, for exactly one page; no live chunk and none of their contents changes; panics only without a page |
| Malloc.Allocator.FindBucket | VLinux0.11/lib/malloc.c:127-134 | The smallest bucket large enough, none exactly above 4096 bytes |
| Malloc.Allocator.FindDesc | VLinux0.11/lib/malloc.c:139-141 | A bucket of the chain with a free chunk; none exactly when all are used up |
| Malloc.Allocator.NewBucket | VLinux0.11/lib/malloc.c:146-167 | A bucket with free chunks, for exactly one page, or two if no descriptor was free; live chunks and their contents stay; fails exactly without these pages |
| Malloc.Allocator.ThreadPage | VLinux0.11/lib/malloc.c:159-164 | The memory after the threading loop |
| Malloc.Allocator.Alloc | VLinux0.11/lib/malloc.c:117-173 | A chunk of the smallest sufficient size that was not live; the others and all they hold stay; takes no page if a bucket of the size has a free chunk, otherwise one, and one more if no descriptor is free; an error exactly above 4096 bytes; out of memory exactly when these pages are not there |
| Buckets.StoreKeeps | VLinux0.11/lib/malloc.c:159-170 | A holder may store anything anywhere in its chunk: all buckets stay in order |
| Buckets.PoolKeeps | VLinux0.11/lib/malloc.c:97-115 | Other code may take and give back pages that belong to no bucket |
| Malloc.StepSurvives | VLinux0.11/lib/malloc.c:117-231 | One call, store or page taken elsewhere leaves a live chunk to its holder, with what it holds |
| Malloc.ChunkSurvives | VLinux0.11/lib/malloc.c:117-231 | In every run of malloc, free_s, stores and page traffic a chunk that is not freed stays live, no part of it is handed out again, and every word in it that is not stored to keeps its value |
| Malloc.Allocator.Store | VLinux0.11/lib/malloc.c:117-173 | A store of a holder as such a step |
| Malloc.Allocator.UsePages | VLinux0.11/lib/malloc.c:97-115 | Pages taken and given back by other code as such a step |
| Malloc.Allocator.FindPage | VLinux0.11/lib/malloc.c:191-203 | The descriptor of the page and the one before it in its chain |
| Malloc.Allocator.CloseBucket | VLinux0.11/lib/malloc.c:213-227 | Gives back the page of a bucket without live chunks; all lists stay in order and no live chunk is lost |
| Malloc.Allocator.FreeS | VLinux0.11/lib/malloc.c:182-231 | Takes back exactly this chunk; its page goes back exactly when it was the last one; panics exactly if the page belongs to no bucket or the size named is larger than the chunk |
| ExecArgs.PackedTwo | VLinux0.11/fs/exec.c:104-152 | Packed strings of two lists joined |
| ExecArgs.StartNext | VLinux0.11/fs/exec.c:59-68 | Where the next string begins |
| ExecArgs.StringAt | VLinux0.11/fs/exec.c:59-68 | The k-th string stands at its start with its NUL |
| ExecArgs.PointsAtStrings | VLinux0.11/fs/exec.c:46-70 | Every pointer of argv and envp addresses a NUL-terminated copy of its string |
| ExecArgs.PutWord | VLinux0.11/fs/exec.c:56-68 | put_fs_long stores a word that reads back and touches no other |
| ExecArgs.ArgcRight | VLinux0.11/fs/exec.c:263-280 | argc equals the number of arguments exactly unless a script is started with an empty argv; then it is one short |
| ExecArgs.Parts | VLinux0.11/fs/exec.c:261-280 | How the copied strings divide into arguments and environment |
| ExecArgs.ArgPages.PutByte | VLinux0.11/fs/exec.c:133-146 | One byte below p, on a fresh page when a boundary is crossed; nothing else changes |
| ExecArgs.ArgPages.PutString | VLinux0.11/fs/exec.c:124-147 | A string with its NUL in front of what was there |
| ExecArgs.ArgPages.CopyStrings | VLinux0.11/fs/exec.c:104-152 | All strings packed in order below p; by the room and the free pages before the call exactly which of four ends it comes to: the place of the first byte, 0 without memory, 0 with the array just full, or past the start of the page array |
| ExecArgs.UserMemory.MapPages | VLinux0.11/fs/exec.c:154-177 | The pages stand at the top of the data segment |
| ExecArgs.UserMemory.SkipString | VLinux0.11/fs/exec.c:61 | Finds the byte behind the NUL |
| ExecArgs.UserMemory.FillTable | VLinux0.11/fs/exec.c:59-68 | A table of pointers to the strings, and NULL, that touches nothing else |
| ExecArgs.UserMemory.CreateTables | VLinux0.11/fs/exec.c:46-70 | argc, argv, envp and both tables stand below the strings without overlap |
| ExecArgs.ParseBang | VLinux0.11/fs/exec.c:232-256 | Name and argument of the interpreter, byte by byte: behind the first two bytes spaces (32) and tabs (9), the name up to the next of them or the newline (10), the last part of the name behind the last slash (47), and the rest of the line as argument; none found exactly when the block has no such line before a NUL and within 1022 characters; name and argument are strings, as StartProgram needs them |
| ExecArgs.CopyText | VLinux0.11/fs/exec.c:235-238 | strncpy takes the characters up to a NUL, 1022 at most |
| ExecArgs.ParseLine | VLinux0.11/fs/exec.c:239-256 | Name and argument in one line; fails exactly for a blank one |
| ExecArgs.ScanName | VLinux0.11/fs/exec.c:247-252 | The end of the name and its last part |
| ExecArgs.CopyAll | VLinux0.11/fs/exec.c:261-317 | The strings copied are interpreter name, optional argument, script name, old tail, environment; succeeds exactly when they leave room in the page array and the pages for them are there |
| ExecArgs.StartProgram | VLinux0.11/fs/exec.c:261-334 | The new program runs exactly when there is that room, and its stack names all arguments and the environment; started from a script with an empty argv, it loses its own name to the environment, or to nobody when that is empty too |
| LineEditor.LinesStay | VLinux0.11/kernel/chr_drv/tty_io.c:145-228 | No character typed changes finished lines |
| LineEditor.CookKeepsLines | VLinux0.11/kernel/chr_drv/tty_io.c:145-228 | No run of copy_to_cooked changes finished lines or goes beyond the room there is |
| LineEditor.CookIs | VLinux0.11/kernel/chr_drv/tty_io.c:149-226 | copy_to_cooked takes its characters one by one, as typed, and stops exactly when none is left or the room is full |
| LineEditor.InputIs | VLinux0.11/kernel/chr_drv/tty_io.c:151-160 | ICRNL turns 13 into 10; IGNCR without it drops 13; INLCR turns 10 into 13; IUCLC turns capitals into small letters; nothing else changes |
| LineEditor.EnterEndsLine | VLinux0.11/kernel/chr_drv/tty_io.c:151-160 | With ICRNL a typed return ends the line, whatever the other input flags are |
| LineEditor.ControlIs | VLinux0.11/kernel/chr_drv/tty_io.c:191-209 | What stop, start, interrupt and quit characters do, and nothing else |
| LineEditor.ShownIs | VLinux0.11/kernel/chr_drv/tty_io.c:212-224 | A control character is shown as ^ and its letter with ECHOCTL and not at all without; a newline as 10 and 13; all others as they are |
| LineEditor.RubMatches | VLinux0.11/kernel/chr_drv/tty_io.c:162-224 | Rubbing a character out restores the screen exactly if it is no control character, or one that was shown, and not the delete character - or the screen was empty |
| LineEditor.EraseUndoesShown | VLinux0.11/kernel/chr_drv/tty_io.c:177-224 | erase takes the last ordinary character from the screen, exactly under that condition |
| LineEditor.KillUndoesShown | VLinux0.11/kernel/chr_drv/tty_io.c:162-224 | kill leaves on the screen what it would have left before any number of such characters were typed; at the start of a line that is what stood there |
| LineEditor.EraseUndoes | VLinux0.11/kernel/chr_drv/tty_io.c:177-190 | erase takes back the last ordinary character |
| LineEditor.KillUndoes | VLinux0.11/kernel/chr_drv/tty_io.c:162-176 | kill takes back everything typed since the line began, and nothing before |
| LineEditor.EndsCut | VLinux0.11/kernel/chr_drv/tty_io.c:162-190 | Removing characters of the open line leaves the number of line ends |
| LineEditor.EndsSplit | VLinux0.11/kernel/chr_drv/tty_io.c:261-272 | Line ends before and behind a place add up |
| LineEditor.TakesIs | VLinux0.11/kernel/chr_drv/tty_io.c:261-272 | A read stops at the number asked for, at the end of what is there, or in canonical mode behind the first end of file, which it does not return |
| LineEditor.NoEnds | VLinux0.11/kernel/chr_drv/tty_io.c:210-211 | The count of line ends is 0 exactly when no character is 10 or the end of file |
| Tty.TtyQueue.Counts | VLinux0.11/include/linux/tty.h:26-30 | EMPTY and LEFT, for any head and tail |
| Tty.TtyQueue.Get | VLinux0.11/include/linux/tty.h:31-32 | Takes the first character |
| Tty.TtyQueue.Put | VLinux0.11/include/linux/tty.h:33-34 | Appends a character; a ring that was full is empty afterwards |
| Tty.TtyQueue.Last | VLinux0.11/include/linux/tty.h:28 | The last character |
| Tty.TtyQueue.DropLast | VLinux0.11/include/linux/tty.h:25 | DEC(head) removes the last character |
| Tty.TtyStruct.Kill | VLinux0.11/kernel/chr_drv/tty_io.c:162-176 | The open line is removed and rubbed out on the screen |
| Tty.TtyStruct.Erase | VLinux0.11/kernel/chr_drv/tty_io.c:177-190 | The last character of the open line is removed and rubbed out; nothing happens at its start |
| Tty.TtyStruct.Echo | VLinux0.11/kernel/chr_drv/tty_io.c:212-224 | What a character shows |
| Tty.TtyStruct.Enter | VLinux0.11/kernel/chr_drv/tty_io.c:210-225 | The character is in the line, the count of line ends is right |
| Tty.TtyStruct.MapInput | VLinux0.11/kernel/chr_drv/tty_io.c:151-160 | ICRNL, IGNCR, INLCR and IUCLC, by their character codes |
| Tty.TtyStruct.CookOne | VLinux0.11/kernel/chr_drv/tty_io.c:149-226 | One round is one step of the sequence editor; secondary.data stays the number of line ends |
| Tty.TtyStruct.ActOn | VLinux0.11/kernel/chr_drv/tty_io.c:161-226 | What the character does once it is mapped: kill, erase, stop, start, signals, or into the line |
| Tty.TtyStruct.CopyToCooked | VLinux0.11/kernel/chr_drv/tty_io.c:145-228 | The whole loop is the editor run as long as there is input and room; no unread character is overwritten |
| Tty.TtyStruct.ReadSome | VLinux0.11/kernel/chr_drv/tty_io.c:249-283 | A round of tty_read: sleeps, or returns the characters up to the end of file and keeps the count of line ends |
| Tty.WaitsIs | VLinux0.11/kernel/chr_drv/tty_io.c:256-260 | It sleeps exactly when nothing is there, or in canonical mode with no newline, no end of file and fewer than 1003 characters |
| Tty.TtyStruct.TakeOne | VLinux0.11/kernel/chr_drv/tty_io.c:262-264 | GETCH takes the first character and the count of line ends goes down with a line end |
| Tty.TtyStruct.Take | VLinux0.11/kernel/chr_drv/tty_io.c:261-272 | The inner loop of tty_read takes the characters up to the end of file or the number asked for |

## Left out

- CopyFirst: the first fork copies at most 4 MB (`INIT_TASK` has 640 KB), and the kernel's page table for its first 640 KB names pages below LOW_MEM, as the boot code sets it up; all other forks are those of tasks 1 to 63 (`CopyPageTables`)
- CopyMem: assumes, as the kernel arranges, that the parent's segments start at 64 MB times its task number; that -ENOMEM restores everything is stated for a child without page tables in the range, since the code frees those too
- PutPage: the caller holds the page alone (mem_map 1); otherwise the code prints a message and goes on
- GetEmptyPage: `oom`, which ends the task, is an outcome; the disk part of `do_no_page` is left out
- TryToShare: the search over tasks in `share_page`, and the `HIGH_MEMORY` test, which no present entry fails
- Memory words are records of the fields of a page-table entry; the kernel's own directory slots 0 to 15 are not counted
- RBTree: `printTree` and the atomic counter; values are a key that is compared and data that is carried along
- Bmap0: read errors of `bread` in the middle of a zone tree, which make the code see a hole; time stamps
- FreeBlock: whether somebody else holds the buffer is a parameter, false for all callers, since one task uses the device; what a freed block holds afterwards is arbitrary
- FileWrite: concurrent appends, and a source buffer that cannot be read
- One device with its zone maps in memory; inodes are values in a map, reference counts of inodes are left out
- Getblk: `b_count` is unbounded, the code has an unsigned char; `sync_dev` is a wait during which the driver may write any dirty buffers, which includes what `sync_dev` does
- Brelse: the wake-up of `buffer_wait` is modelled as the freedom of every sleeper to look again at any time
- Store: a holder stores data and sets the dirty flag in one step; `breada`, `bread_page`, `invalidate_buffers` and floppy changes are left out
- CreateBytes: tables of blocks for each version and level, matrix placement, masks and drawing; block lists are arbitrary here
- CreateData: the widths of the length fields (`getLengthInBits`) come with each segment, and a reader has the same table
- QRBitBuffer.Put: numbers are not negative and unbounded, while JavaScript shifts 32 bits
- SleepOn: `interruptible_sleep_on`, which can put a woken task back to sleep
- DoTimer: callbacks that call `add_timer` themselves; the beep and floppy timers
- WaitBound: `sys_nice`, which breaks the bound for a while; tasks that become runnable or go to sleep while the task waits
- Schedule: which task was running, the log lines and the switch itself
- AddRequest: starting the driver with `request_fn`, and paging requests without a buffer
- LlRwBlock: the sleeps on a locked buffer and for a free slot end the call; its later part is `MakeRequest`
- Alloc: interrupts between its steps; a failed call is a panic and ends the model
- FreeS: for live chunks and for pages of no bucket; freeing twice or freeing an address inside a chunk is not modelled, and neither is the second search for the predecessor (`VLinux0.11/lib/malloc.c:213-217`), which finds the same one without interrupts
- CopyStrings: switching the fs segment, and the panic for an argc larger than the list
- StartProgram: permissions, the a.out header, closing files and freeing the old image
- CopyToCooked: control characters are fixed, job control is a log of signals, and the driver takes all output at once, as `con_write` does; `rs_write` leaves it in the ring, which echoing can then overrun
- ReadSome: VTIME, alarms and signals during a read, and which process sleeps
- `fs/pipe.c`, `kernel/sem.c`, `fs/namei.c`, `kernel/vsprintf.c`, `sds`, `MyHashMap` and the nginx-style pool would add easier members
- `raft`: elections and log replication are not modelled
- Port input and output, interrupts, task switching and device drivers are hardware effects
