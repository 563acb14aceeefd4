# Lists, start handshake and journal set-up of txdriver

A Dafny model of the parts of txdriver that carry real behaviour, with proofs.

* **Circular lists** (`include/list.h`): `Forest.dfy` maps every list head to its cycle, the head followed by the
  entries in order. Each list function is one transformer of that map. `List.dfy` holds the functions themselves,
  over nodes with mutable links, each proved to carry out its transformer and to write no link outside its frame.
  `Links.dfy` gives the links a map prescribes. `Laws.dfy` says what the transformers mean as sequence equations and
  which undo each other. `ListRuns.dfy` covers histories, `Walks.dfy` and `Sweeps.dfy` the traversal loops, and
  `Undo.dfy` the unlink-and-put-back idiom.
* **Hash lists** (the second half of `include/list.h`): `HList.dfy` and `HListRuns.dfy`. The `pprev` pointer is the
  slot it is the address of: the first pointer of a head, or the next pointer of a node.
* **Start handshake of the journal thread** (`src/txd_journal.c`): `Handshake.dfy`, as steps of the loader and of
  every thread it ever created, with spurious wakeups. `Interleavings.dfy` says which runs there are: what each party
  can do at every point, runs with any number of calls and wakeups, and that every run has a schedule.
* **Construction with memory accounting** (`src/txd_malloc.c`, `src/txd_revoke.c`, `src/txd_journal.c`):
  `Memory.dfy`, `Revoke.dfy`, `JournalTypes.dfy` and `JournalInit.dfy`, for every pattern of allocation failures.
* **Loading and resetting the log** (`src/txd_journal.c`): `JournalLoad.dfy`.

`Seqs.dfy` holds sequence facts the others share.

## Reading the contracts

`Represents(G)` says that the links in the heap are exactly those the map `G` prescribes, and that `G` is well formed:
each cycle starts at its head, no node is repeated, no node is on two lists. `G` is a ghost argument and need not hold
every list there is. A head whose old contents the caller gives up (the target of a cut, a head being initialised) is
left out of it, or is in it as an empty list. The preconditions are collected in `Forest.Legal`, `HList.Legal` and
`HListRuns.Allowed`. They say which node must be on a list and which must not; a whole list may be spliced or replaced
by way of its head.

## Where the code does less than its comments or names suggest

* `hlist_move_list` keeps every node's slot right if and only if the target list is empty (`HList.HlistMoveList`).
* A `list_for_each_safe` loop that moves each entry behind the tail of the list it walks ends if and only if the list
  has at most one entry (`Sweeps.SelfMoveEnds`).
* The loader takes only the value 1 for a failed thread creation. With any other error code it waits for ever
  (`Handshake.ReturnsIff`, `Handshake.OrphanWaitsForever`).
* The shift loop of the revoke table ends if and only if the size is not negative (`Revoke.ShiftLoopEnds`).
* A superblock with a block size of 2^31 or more leads to a negative count and a request for more than 2^63 bytes
  (`JournalInit.WbufFits`).
* A quarter of the journal is within the free blocks if and only if the log starts in the first three quarters of the
  area (`JournalLoad.ShareFitsIff`, `JournalLoad.ShareCanExceed`).
* A reset overwrites the tail sequence taken from the superblock with a transaction counter nobody has set, so the
  recorded sequence survives if and only if it is 0 (`JournalLoad.SequenceSurvivesIff`).
* `tx_begin` hands out the journal even when loading it failed (`JournalLoad.Begin`).
* `txd_free_spdk` trusts the size it is given: the counter stays right if and only if that is the size requested
  (`Memory.Allocator.Free`).

## Model

| member | source | states |
|---|---|---|
| Forest.ApplyKeeps | include/list.h:39-357 | every list function keeps all lists well formed and pairwise disjoint, and the nodes on lists afterwards are exactly the old ones minus the one it drops plus the one it links |
| Forest.RunKeepsWellFormed | include/list.h:39-357 | so does any finite history of calls |
| Forest.RunConservesNodes | include/list.h:39-357 | a history without del, replace, splice and splice_tail loses no node; with no newcomers the set of linked nodes is unchanged |
| Forest.RunSnoc | include/list.h:39-357 | a history goes on with exactly the calls whose precondition holds where it stands, and a call has its effect there |
| ListRuns.Execute | include/list.h:39-357 | whichever function is called, the links afterwards are those of its transformer |
| ListRuns.ExecuteAll | include/list.h:39-357 | any finite legal history on any number of lists leaves exactly the links of the abstract history |
| List.InitListHead | include/list.h:39-43 | list becomes an empty list of its own and every other list keeps its links |
| List.RawAdd | include/list.h:52-60 | between two neighbours the entry stands right behind the first; between itself and itself it is an empty list; nothing else moves |
| List.ListAdd | include/list.h:75-78 | carries out Add; writes the entry and the two links facing it |
| List.ListAddTail | include/list.h:89-92 | carries out AddTail; writes the entry and the two links facing it |
| List.RawDel | include/list.h:101-105 | makes the two neighbours point at each other |
| List.RawDelEntry | include/list.h:114-117 | takes the entry off whatever list it is on, without its head, leaving the entry's own links intact |
| List.ListDel | include/list.h:119-124 | its neighbours point at each other, and the entry's links are poisoned |
| List.ListReplace | include/list.h:137-144 | carries out Replace for any cycle length, also when the old node is a head or alone on its cycle |
| List.ListReplaceInit | include/list.h:146-151 | the same, and the old node is an empty list |
| List.ListDelInit | include/list.h:157-161 | carries out DelInit: its neighbours point at each other, and the entry at itself both ways |
| List.ListMove | include/list.h:168-173 | carries out Move, within one list or between two |
| List.ListMoveTail | include/list.h:179-184 | carries out MoveTail, within one list or between two |
| List.TestsDecide | include/list.h:191-246 | empty and empty_careful decide length 0, is_singular length 1, is_last the last position |
| List.ListRotateLeft | include/list.h:229-237 | carries out RotateLeft, writing only its own list; an empty list stays as it is |
| List.RawCutPosition | include/list.h:248-258 | list receives the entries up to and including entry, head keeps those behind it |
| List.ListCutPosition | include/list.h:274-286 | carries out Cut with its three early returns: empty list, single other entry, entry == head |
| List.RawSplice | include/list.h:288-300 | all entries of a non-empty list stand behind the chosen node, in order |
| List.ListSplice | include/list.h:307-312 | carries out Splice, writing at most four links |
| List.ListSpliceTail | include/list.h:319-324 | carries out SpliceTail, writing at most four links |
| List.ListSpliceInit | include/list.h:333-340 | carries out SpliceInit: the source head is an empty list afterwards |
| List.ListSpliceTailInit | include/list.h:350-357 | carries out SpliceTailInit: the source head is an empty list afterwards |
| Links.NextPrev | include/list.h:101-105 | next and prev are inverse to each other on every well-formed heap and never leave a node's list |
| Links.DetachLinks | include/list.h:101-117 | unlinking changes exactly the two links that named the entry |
| Links.LinkOne | include/list.h:52-60 | the links of the lists with one more node, as changes to the old links |
| Links.BeforeIsAfterPrev | include/list.h:89-92 | inserting before a node is inserting after its predecessor |
| Links.RenameRelinks | include/list.h:137-144 | replacing a node redirects exactly the links that named it |
| Links.SplitRelinks | include/list.h:248-258 | the links of the two cut halves, as changes to the old links |
| Links.SpliceRelinks | include/list.h:288-300 | the links of the joined list, as changes to the old links |
| Links.RotateIsMoveTail | include/list.h:229-237 | rotating left is moving the first entry to the tail |
| Laws.AddMeaning | include/list.h:67-92 | list_add puts the entry first and list_add_tail last on head's list; all other lists are unchanged |
| Laws.InitMeaning | include/list.h:39-43 | a node on no list becomes an empty list, and every other list is unchanged |
| Laws.AddAtMeaning | include/list.h:67-92 | an added entry stands right behind or right before the k-th node, be it new or the head of an empty list before |
| Laws.DelMeaning | include/list.h:108-161 | list_del and list_del_init drop position k of its own list alone; the latter leaves the entry an empty list |
| Laws.DelEmptyMeaning | include/list.h:108-161 | deleting the head of an empty list removes that list, and list_del_init on it changes nothing |
| Laws.MoveMeaning | include/list.h:163-173 | list_move takes the j-th node of a list out and puts it right after the k-th node of the same or another list, as a sequence equation |
| Laws.MoveTailMeaning | include/list.h:174-184 | list_move_tail puts it right before the k-th node; before the head is behind the last entry |
| Laws.MoveLone | include/list.h:163-184 | moving the head of an empty list is adding it |
| Laws.DetachAt | include/list.h:101-124 | unlinking the k-th node drops position k of its list and changes no other list |
| Laws.InsertAfterAt | include/list.h:75-78 | inserting behind the k-th node as a sequence equation on its list |
| Laws.InsertBeforeAt | include/list.h:89-92 | inserting before the k-th node; before the head is behind the last entry |
| Laws.ReplaceMeaning | include/list.h:130-151 | the new node, be it new or the head of an empty list, stands in the old one's position; replacing a head hands over the whole list; list_replace_init also leaves the old node an empty list |
| Laws.ReplaceTwice | include/list.h:146-151 | replacing o by n and then n by o restores every list |
| Laws.SpliceMeaning | include/list.h:302-340 | list_splice and list_splice_init put all entries of the source, in order, right after any chosen node of another list; only the latter keeps the source as an empty list |
| Laws.SpliceTailMeaning | include/list.h:314-357 | list_splice_tail and list_splice_tail_init put them right before any chosen node of another list |
| Laws.CutMeaning | include/list.h:260-286 | with an empty target a cut splits the list behind entry, for the last entry and the head too |
| Laws.CutAnyMeaning | include/list.h:260-286 | the same whether the target was an empty list or unknown, with the early returns leaving the target alone |
| Laws.CutThenSplice | include/list.h:248-340 | cut followed by splice_init is the identity on all lists, for every cut point |
| Laws.RelinkRestores | include/list.h:52-117 | putting a node back behind the neighbour it still names restores all lists, also for the head of an empty list |
| Laws.RotateTimes | include/list.h:225-237 | k rotations turn n entries by k mod n places, and leave an empty list alone |
| Laws.RotateFullTurn | include/list.h:225-237 | n rotations of n entries are the identity |
| Undo.UnlinkAll | include/list.h:114-117 | a stack of unlinks leaves each node naming the neighbours it had when it was unlinked |
| Undo.DetachAllMeaning | include/list.h:114-117 | after the unlinks exactly those nodes are gone, and every list left lacks exactly them |
| Undo.AnyEntries | include/list.h:114-117 | distinct entries and heads of empty lists can be unlinked in any order |
| Undo.RelinkAll | include/list.h:52-60 | putting nodes back in reverse order from their own links rebuilds the original lists |
| Undo.UnlinkThenRelink | include/list.h:52-117 | both together restore every link of the heap, even when neighbours were unlinked in between |
| Undo.CutThenSplice | include/list.h:248-340 | list_cut_position into an empty list and list_splice_init back restore every link of the heap |
| Walks.ForEach | include/list.h:391-411 | the forward walk ends and visits the entries in order |
| Walks.ForEachContinue | include/list.h:485-488 | continuing from the k-th node visits exactly the entries behind it |
| Walks.ForEachPrev | include/list.h:418-420 | the backward walk ends and visits the reverse of the forward walk |
| Walks.ForEachSafe | include/list.h:428-430 | with any body that leaves the entries ahead in place, the walk visits exactly the original entries in order and leaves the abstract lists |
| Sweeps.DeleteSweep | include/list.h:428-430 | deleting on a test is such a body, and what remains is exactly the failing entries in order |
| Sweeps.DeleteMatching | include/list.h:119-124 | the same for the loop with list_del on the heap |
| Sweeps.MoveSweep | include/list.h:428-430 | moving on a test to another list: the matching entries follow those already there, the others stay, both in order |
| Sweeps.MoveMatching | include/list.h:179-184 | the same for the loop with list_move_tail on the heap |
| Sweeps.ReverseSweep | include/list.h:428-430 | moving every entry to the front of the list being walked reverses it |
| Sweeps.ReverseInPlace | include/list.h:168-173 | the same for the loop with list_move on the heap |
| Sweeps.SelfMoveEnds | include/list.h:428-430 | with list_move_tail back onto the list being walked, the cursor returns to the head if and only if there is at most one entry |
| Sweeps.SelfMoveWalk | include/list.h:428-430 | that loop on the heap, stopped after any number of rounds: its cursor is back at the head if and only if there is at most one entry |
| HList.SlotHolds | include/list.h:16-18 | on represented chains the slot a linked node names holds that node, its successor names its next slot, and no node follows itself |
| HList.DetachBridges | include/list.h:617-624 | taking a node out changes exactly its slot and its successor's slot name |
| HList.RawHlistDel | include/list.h:617-624 | removes the node from whatever chain it is on without seeing the head; its own pointers stay |
| HList.HlistDel | include/list.h:626-631 | the same, and the node is poisoned |
| HList.HlistDelInit | include/list.h:633-639 | unlinks a linked node and leaves an unhashed one alone; either way it is unhashed afterwards |
| HList.InsertMeaning | include/list.h:652-670 | before and after a node are the positions of its slot and of its own next slot on its chain |
| HList.HlistAddHead | include/list.h:641-649 | the head points at the node, the node at the old first one, and each names the slot before it |
| HList.HlistAddBefore | include/list.h:652-659 | inserts before a node without seeing the head |
| HList.HlistAddAfter | include/list.h:661-670 | inserts after a node, also at the end of the chain |
| HList.HlistMoveList | include/list.h:682-689 | carries out MoveList for any two heads: the target points at the source's first node, which names the target's slot, and the source is null; every old node's slot still holds it if and only if the target was empty |
| HList.TestsDecide | include/list.h:607-615 | hlist_empty decides length 0, and hlist_unhashed fails for every linked node |
| HList.EmptyHeads | include/list.h:600 | null heads, and only those, represent empty chains |
| HList.AddHeadMeaning | include/list.h:641-649 | the new node is first, the old chain follows, all other chains are unchanged |
| HList.AddMeaning | include/list.h:652-670 | the new node stands right before or right after the i-th one, all other chains are unchanged |
| HList.DelMeaning | include/list.h:626-639 | both deletions drop position i of the node's own chain alone |
| HList.DelAbsent | include/list.h:633-639 | hlist_del_init on a node on no chain changes nothing |
| HList.AddThenDel | include/list.h:626-670 | an added node deleted again leaves every chain as it was |
| HList.MoveListMeaning | include/list.h:682-689 | the target's chain is the source's, the source is empty, all others are unchanged; moved onto itself a chain is lost |
| HList.MoveListBack | include/list.h:682-689 | moved onto an empty head and back, everything is as before |
| HList.InitHlistHead | include/list.h:600 | a head, known or new, has an empty chain; nodes it still had are on no chain, and all other chains keep their pointers |
| HList.InitHlistNode | include/list.h:601-605 | a node on no chain becomes unhashed and all chains keep their pointers |
| HList.ApplyKeeps | include/list.h:600-689 | every operation keeps chains disjoint and free of repetition, and the nodes on chains afterwards are the old ones minus those it drops plus the one it links |
| HListRuns.RunKeepsWellFormed | include/list.h:600-689 | so does any finite history, and no idle node is ever on a chain |
| HListRuns.RunSnoc | include/list.h:600-689 | a history goes on with exactly the allowed operations, and an operation has its effect there |
| HListRuns.DelInitTwice | include/list.h:633-639 | hlist_del_init may be repeated and then changes nothing |
| HListRuns.InitNodeMeaning | include/list.h:601-639 | an initialised node may be given to hlist_del_init at once |
| HListRuns.ExecuteAll | include/list.h:600-689 | any finite legal history, with del_init on linked or initialised nodes and moves onto any head, refines the abstract one; every linked node's slot holds it and every idle node is unhashed |
| HListRuns.ForEach | include/list.h:693-695 | the chain ends and the walk meets its nodes in order |
| HListRuns.SweptDelete | include/list.h:697-699 | at every point of a deleting walk the chain is the kept earlier nodes followed by all nodes ahead |
| HListRuns.DeleteMatching | include/list.h:697-699 | the loop with hlist_del on the heap visits every original node and keeps exactly those failing the test |
| Handshake.StepKeepsInv | src/txd_journal.c:389-432 | every step of the loader or of any thread, and every spurious wakeup, keeps the protocol invariant |
| Handshake.RunKeepsInv | src/txd_journal.c:389-432 | so does every run |
| Handshake.Safety | src/txd_journal.c:389-432 | in every run: one owner of the mutex, the wait loop is left only after the thread cleared the flag and released the mutex, no lost wakeup, flag 1 on return with nobody left to change it |
| Interleavings.RunSnoc | src/txd_journal.c:389-432 | a run goes on with exactly the enabled steps |
| Interleavings.MutexRace | src/txd_journal.c:397-426 | at every point of every run a free mutex goes to whoever asks next, the loader or a thread, wherever the other one is |
| Interleavings.WakesAnyTime | src/txd_journal.c:423-424 | a waiting loader can wake up at any moment with nobody else moving |
| Interleavings.LoaderMoves | src/txd_journal.c:406-432 | the loader is held up if and only if it waits, or wants the mutex while a thread is between lock and unlock |
| Interleavings.ThreadMoves | src/txd_journal.c:397-400 | a thread is held up if and only if it is done, or wants the mutex while the loader is between lock and unlock |
| Interleavings.AnyCode | src/txd_journal.c:418-420 | thread creation may come back with any code; only 0 brings a thread and only 1 ends the call |
| Interleavings.StepsAreLocal | src/txd_journal.c:397-400 | a thread changes the flag only to 0 and under the mutex, and wakes the loader only with the flag at 0; no loader step moves a thread |
| Interleavings.AnyCalls | src/txd_journal.c:406-432 | any number of calls, each with either result and any number of wakeups, is a run |
| Interleavings.AnyWakeups | src/txd_journal.c:423-424 | for every n some run has exactly n spurious wakeups and ends in success |
| Interleavings.ThreadFirst | src/txd_journal.c:397-424 | in some run the thread is done before the loader locks, and the loader never waits |
| Interleavings.EveryRunIsScheduled | src/txd_journal.c:406-432 | what follows the schedule made of a run of a call is that run |
| Handshake.SomeStepEnabled | src/txd_journal.c:415-426 | while a call is under way some step other than a spurious wakeup is possible |
| Handshake.RunIsBounded | src/txd_journal.c:397-426 | within a call, steps and remaining rank together are at most the initial rank and three per spurious wakeup |
| Handshake.Finish | src/txd_journal.c:397-426 | from every such state some run without spurious wakeups returns |
| Handshake.OrphanWaitsForever | src/txd_journal.c:418-426 | a loader whose thread was not created never leaves the wait loop |
| Handshake.ReturnsIff | src/txd_journal.c:418-426 | the call can return if and only if thread creation reported 0 or 1 |
| Memory.TotalWithout | src/txd_malloc.c:35-53 | a block contributes its recorded size to the live bytes, whatever the order of counting |
| Memory.TotalWith | src/txd_malloc.c:35-53 | a new block adds its size to the live bytes |
| Memory.Allocator.ZMalloc | src/txd_malloc.c:35-47 | fails if and only if the script says so of this request; a failed request changes nothing, a successful one adds one new block and its bytes to the counter |
| Memory.Allocator.Free | src/txd_malloc.c:49-53 | one live block goes; the counter stays right if and only if the size given is the size requested |
| Revoke.HashShift | src/txd_revoke.c:14-15 | 2^shift <= size < 2^(shift+1) for every positive size, 0 for size 0 |
| Revoke.ShiftIsExact | src/txd_revoke.c:14-15 | 2^shift is the size if and only if the size is a power of two |
| Revoke.ShiftLoopEnds | src/txd_revoke.c:14-15 | repeated shifting reaches 0 if and only if the size is not negative |
| Revoke.FillBuckets | src/txd_revoke.c:26-27 | every bucket ends as an empty list of its own |
| Revoke.EmptyBucketsLinks | src/txd_revoke.c:26-27 | the heap holds these empty lists if and only if every bucket points at itself both ways |
| Revoke.AllocateTable | src/txd_revoke.c:10-24 | the two blocks of a table with its shift, or neither block |
| Revoke.InitRevokeTable | src/txd_revoke.c:4-31 | a full table on two new blocks, or null with the live blocks as before; null if and only if one of its two requests fails |
| Revoke.DestroyRevokeTable | src/txd_revoke.c:33-45 | frees exactly the table's two blocks if all buckets are empty, otherwise stops at the assertion with nothing freed |
| Revoke.EmptyOnHeap | src/txd_revoke.c:38-41 | all buckets are empty if and only if each is its own successor |
| Revoke.DropFirstTable | src/txd_revoke.c:75-77 | unwinding never trips the assertion: a new table's buckets are empty |
| Revoke.InitSecondTable | src/txd_revoke.c:65-79 | the second table beside the first, or both gone |
| Revoke.InitRevoke | src/txd_revoke.c:59-80 | both tables on four new blocks with the later one current, or -ENOMEM with the live blocks as before |
| Revoke.DestroyRevoke | src/txd_revoke.c:48-55 | passes its assertions if and only if every bucket of the tables present is empty; frees exactly the tables before the first one with a bucket in use |
| Revoke.UseThenDestroy | src/txd_revoke.c:33-55 | after any history of list operations on the buckets, destruction passes if and only if that history left every bucket empty |
| Revoke.StopCosts | src/txd_revoke.c:33-55 | the counter shows what it showed before construction if and only if destruction passed |
| Revoke.BuildUseDestroy | src/txd_revoke.c:4-80 | construction, any history and destruction: the counter is back at its old value if and only if nothing was built or every bucket ended empty |
| JournalInit.WbufFits | src/txd_journal.c:169-172 | one pointer per whole tag in a block if and only if the block size is below 2^31; otherwise a negative count and an oversized request |
| JournalInit.SevenRequests | src/txd_journal.c:113-174 | success is that none of seven requests in a row fails |
| JournalInit.FootprintIs | src/txd_journal.c:113-174 | a journal accounts for 8272 bytes and one pointer per 64 bytes of a block |
| JournalInit.AllocateHead | src/txd_journal.c:113-119 | the journal block and the buffer head block, or neither |
| JournalInit.CreateJournal | src/txd_journal.c:139-145 | a new journal is marked for error, with its intervals set and all else zero |
| JournalInit.CopySuperblock | src/txd_journal.c:153-170 | each field taken over from the superblock |
| JournalInit.Configure | src/txd_journal.c:153-170 | the same, with the mark, the zeroed fields and the tables kept |
| JournalInit.AllocateWbuf | src/txd_journal.c:172-188 | the commit array, or the tables given back |
| JournalInit.Complete | src/txd_journal.c:153-188 | with both tables in place, the fields and the commit array, or the tables given back |
| JournalInit.Furnish | src/txd_journal.c:145-188 | tables, fields and commit array, or all of them undone |
| JournalInit.ReleaseHead | src/txd_journal.c:189-193 | the two head blocks are given back |
| JournalInit.Assemble | src/txd_journal.c:139-193 | the finished journal over its head blocks, or only those two left |
| JournalInit.InitCommon | src/txd_journal.c:108-194 | for every failure pattern: a journal over the given superblock with exactly its seven blocks added, the counter raised by them and all buckets empty, or null with live blocks and counter as before; null if and only if one of the seven requests fails |
| JournalInit.GetJournal | src/txd_journal.c:197-229 | the same with the intervals set once more; the fields the superblock determines and the zeroed ones are spelt out |
| JournalLoad.StartThread | src/txd_journal.c:406-432 | the call is a run of the handshake that follows the scheduler; it returns, the flag is 1, a successful call has added one thread, and every thread is done |
| JournalLoad.ResetFields | src/txd_journal.c:447-485 | the log fields after a reset |
| JournalLoad.Reset | src/txd_journal.c:434-490 | a too short log fails and changes nothing; otherwise the log is empty, the next sequence number is the transaction counter, and the result is that of the thread start; no field outside the log is written |
| JournalLoad.UpdateSbLogTail | src/txd_journal.c:365-387 | always reports failure and changes nothing |
| JournalLoad.Load | src/txd_journal.c:492-522 | succeeds if and only if no commit failed, the log is long enough and the thread was created; after a long enough log the fields are those of a reset also when the thread failed, otherwise all are as before |
| JournalLoad.LoadMeaning | src/txd_journal.c:492-522 | after a failed commit nothing changes; otherwise load adds to a reset only the two flags of success |
| JournalLoad.ResetGeometry | src/txd_journal.c:434-486 | first = head = tail < last, free = last - first >= 1023, tail sequence = transaction counter = commit sequence + 1 modulo 2^32, share = a quarter of the journal, flushed set if start is 0 |
| JournalLoad.FormattedResets | src/txd_api.c:28-34 | a formatted area resets if and only if it has at least 1024 blocks, and then a transaction's share is within the free blocks |
| JournalLoad.ShareFitsIff | src/txd_journal.c:452-458 | for any superblock the share is within the free blocks if and only if 4 * first <= 3 * maxlen + 3 |
| JournalLoad.ShareCanExceed | src/txd_journal.c:452-458 | an accepted superblock where it is not |
| JournalLoad.SequenceSurvivesIff | src/txd_journal.c:454 | the recorded sequence number survives a reset if and only if it is 0 |
| JournalLoad.LoadFlags | src/txd_journal.c:466-522 | the flags after any sequence of load attempts |
| JournalLoad.LoadedOrAborted | src/txd_journal.c:492-522 | over abstract logs and any superblocks: exactly one of aborted and loaded is set; loaded if and only if some attempt reset the log and got its thread; flushed if and only if some reset met start 0 |
| JournalLoad.LoadAll | src/txd_journal.c:389-522 | any loads of one new journal on the heap, under any schedulers: the same flags, loaded if and only if the wait queue has a thread, all of which are done; the log is as the last reset left it, or as before |
| JournalLoad.FlushedIffStartZero | src/txd_journal.c:466-522 | with one superblock a journal that was ever loaded is flushed if and only if its start is 0 |
| JournalLoad.Begin | src/txd_api.c:94-115 | building and loading: the flags tell whether the load succeeded, a long enough log is empty with its sequence numbers at the start, the counter rises by the journal's bytes, and all the journal owns is live |

## Left out

- HListRuns.DeleteMatching: other bodies for hlist_for_each_safe are not modelled.
- Sweeps.SelfMoveWalk: takes a number of rounds, because the loop it is about does not end on longer lists.
- JournalLoad.LoadAll: all loads of one journal read the same superblock; JournalLoad.LoadedOrAborted lets it change.
- Undo.UnlinkThenRelink: leaves out unlinking the head of a list that has entries.
- Revoke.InitRevokeTable: is given the memory its second request will hand out; takes sizes from 0 on; for a negative size the shift loop never ends, which Revoke.ShiftLoopEnds states.
- Revoke.DestroyRevoke: the tables' pointers stay in the journal, so a second call is not covered.
- JournalLoad.StartThread: takes the codes 0 and 1 only; for all others the call never returns, which Handshake.ReturnsIff states.
- Memory.Allocator.ZMalloc: the allocator is a script of failing requests and never reuses a block; alignment and contents are not modelled.
- JournalTypes: the zeroed journal is a whole object although its block is requested, and given back, with the size of a pointer (src/txd_journal.c:113 and 192); a table's fields are fixed when it is complete, and its bucket array is the sequence of its buckets' addresses.
- Poison: poisoned links are null, as include/poison.h:25-27 has it outside Linux; nothing is said about the Linux poison addresses.
- list_for_each_prev_safe and the list_for_each_entry family other than the two modelled: the same walks seen through container_of address arithmetic.
- container_of, prefetch, hlist_add_fake, the static initialisers, and readers running beside a list update.
- The other wait queues, mutexes, spin and read-write locks of the journal, sleeping, printing, and log output.
- tx_format and tx_begin as disk operations, the superblock signature check, and all of the SPDK input and output.
- Recovery, log wiping, journal destruction, tx_write, tx_commit and tx_abort: they have no behaviour yet.
- txd_malloc, txd_calloc, txd_free and the dpdk allocators: the plain ones count before they know of a failure.
- The older txdriver_* files, the atomic operations, and the journal and transaction fields no modelled function uses.
