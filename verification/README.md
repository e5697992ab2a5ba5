# librd, modelled and proved in Dafny

librd is a small C library of rapid-development building blocks. This project models its
hardest parts and proves what they keep and compute:

* **The AVL tree** (`AvlTree`, `AvlMap`, `AvlRuns`, `AvlDepth`, `AvlHeap`, `AvlObject`). Balancing and rotation
  call each other and re-balance both moved nodes, and removal hangs one whole subtree below the
  other, so balancing meets any height gap. `AvlTree` proves that the recursion ends (measure: three
  times the gap plus the skew of the heavier child) together with the height bound it needs;
  `AvlMap` and `AvlRuns` relate the operations to an order-theoretic reference over whole runs;
  `AvlDepth` gives the real depths of every tree, the insertions that leave the textbook balance and the
  removals that leave exact heights; `AvlHeap` proves the operations on nodes rewritten in place;
  `AvlObject` is the tree object from outside.
* **The timer system** (`TimerSpec`, `TimerLists`, `TimerSafety`, `TimerEffects`, `TimerOrder`,
  `TimerHeap`, `TimerSystem`): a state machine whose steps are the regions executed under the timers'
  lock. `TimerSafety` proves the invariant of every reachable state, `TimerEffects` says what each step
  does to the timers, the list, the events and the waiting thread, `TimerOrder` when the list of armed
  timers is in order. `TimerHeap` is the doubly linked list of timer objects that the LIST macros relink
  in place, and `TimerSystem` runs the code on these objects: each region does exactly the step of the
  state machine.
* **CRC-32** (`Crc32`): the table against bit-by-bit polynomial division (RFC 1952, section 8), and what
  the checksum detects.
* **The varint and hex codecs** (`Varint`, `Hex`), **the shuffle and its odds** (`Shuffle`,
  `ShuffleOdds`), **the bounded FIFO with reference counts** (`Fifo`), **buffer chains** (`Buffers`) and
  **the two-pass struct allocator** (`CallocStruct`).

`Basics` holds the shared types. Code that the source runs in place is a class or an array method
here, proved against a specification function or a predicate on contents; the laws are lemmas about
those functions. `dafny verify dfyconfig.toml` checks the project.

## What the proofs found

Where the code does not do what its documentation or the textbook says, the model follows the code,
a lemma gives a failing input, and another says exactly when the code is right.

* *AVL heights.* An inserted node is cleared, and is linked below a missing parent without being
  balanced, so it keeps height 0 like a missing child (`rdavl.h:224`, `rdavl.c:104-105`). Real depths
  therefore differ from stored heights: inserting 3, 2, 1 gives a chain of three
  (`AvlRuns.DescendingInsertsMakeAChain`). For every tree and every insertion, rotating or not,
  `AvlDepth.InsertBalancedIff` says from the tree and the search path whether the textbook balance
  holds afterwards, and `AvlDepth.RemoveExactIff` whether a removal leaves exact heights; a removal
  can also end the textbook balance (`AvlDepth.RemovalCanUnbalance`). In every tree stored
  heights are at most one short, siblings' depths differ by at most two, and the search stays logarithmic.
* *Timer order.* `rd_timer_cmp` cuts a 64-bit difference to an `int`. An insertion keeps a sorted list
  sorted exactly when it takes the shortcut at the head or meets only faithful comparisons
  (`TimerSafety.LinkSorted`), and the list is in order throughout a run exactly when every insertion of it
  was such a one (`TimerOrder.OrderIff`); deadlines less than 2^31 microseconds apart are enough
  (`TimerOrder.WindowKeepsOrder`). Otherwise a timer 36 minutes away can be put before one that is a second
  away and hide it (`TimerLists.FarTimerHidesNearOne`), and a wake-up is lost
  (`TimerOrder.WakeupLostOutsideWindow`). That no freed timer is used and none is freed twice does not depend
  on this. `interval_ms * 1000` is a 32-bit product (`TimerSafety.DeadlineExactIff`).
* *Varint overflow.* A tenth byte above 1 overflows 64 bits, but decoding reports success with the value
  of its lowest bit (`Varint.TenthByteIsNotReported`). The reported value is the number that was sent
  exactly when there are fewer than ten bytes or the tenth is at most 1 (`Varint.DecodeExactIff`).
* *Varint lengths.* -10 is returned both for an overflow and for a shortage of nine bytes, and the
  overflow macro (`<= -9`) and the documentation (`< -9`) disagree. `Varint.OverflowMacroIff` and
  `Varint.DocumentedReading` say exactly what each takes for an overflow, and `Varint.ShortageIff` gives
  the test that does tell a shortage from an overflow.
* *Hex text size.* `2n + 1` characters are documented as enough for n bytes; the loop needs `2n + 2` and
  loses exactly the last byte otherwise (`Hex.DocumentedSizeLosesOne`).
* *Random ranges.* `rd_jitter(low, high)` covers `low..low + high`: the documented range exactly when
  low is 0 (`Shuffle.JitterRangeIff`), which is how the shuffle calls it. With m possible draws all
  arrangements are equally likely exactly when m is a multiple of 2, 3, ... up to the length
  (`ShuffleOdds.EquallyLikelyIff`), which a power of two is not for three elements or more.
* *FIFO.* A purged element keeps both references for ever and is never freed
  (`Fifo.PurgedIsNeverFreed`); an addition reads through a null pointer exactly on an empty queue with a
  negative maximum (`Fifo.AddFaultsIff`), which a run can reach (`Fifo.FaultIsReachable`).
* *Serializing.* After a short write the loop goes on with the next buffer and the rest of the first is
  lost (`Buffers.ShortWriteLosesBytes`). The whole contents are written exactly when the writer accepts
  every non-empty buffer in full (`Buffers.NothingLostIff`).

## Model

| member | source | states |
|---|---|---|
| AvlTree.Balance | rdavl.c:64-95 | For any two AVL trees, whatever their height gap, balancing terminates and yields an AVL tree whose height is the larger child height or one more; a gap of at most one changes nothing. |
| AvlTree.RaiseLeft | rdavl.c:68-73 | The right-heavy branch: an AVL tree as high as the right child or one higher; at gap two without inner skew it is the textbook rotation. |
| AvlTree.RaiseRight | rdavl.c:75-82 | The mirrored statement for the left-heavy branch. |
| AvlTree.TurnRight | rdavl.c:69-72 | What the inner rotation makes of a right child: it straightens one kind of skew and undoes itself on the other. |
| AvlTree.TurnLeft | rdavl.c:76-79 | The mirrored statement for a left child. |
| AvlTree.RaiseLeftSteps | rdavl.c:47-61 | Both balancing calls of a rotation have strictly less work than the balancing call that rotates, and their composition is its result. |
| AvlTree.RaiseRightSteps | rdavl.c:47-61 | The same for the rotation to the right. |
| AvlTree.RaiseFitsLeft | rdavl.c:58-60 | After the inner balancing the remaining gap is at most two and the termination measure has dropped, whatever the gap was. |
| AvlTree.RaiseFitsRight | rdavl.c:58-60 | The mirrored statement. |
| AvlTree.BalanceKeepsCells | rdavl.c:47-95 | Balancing at any gap keeps the in-order sequence of nodes and elements. |
| AvlTree.BalanceIsTextbookAtGapTwo | rdavl.c:47-95 | At a gap of two the mutual recursion ends in exactly the textbook single or double rotation, also where the inner re-balance first undoes a rotation. |
| AvlMap.Insert | rdavl.c:97-124 | Insertion into an AVL tree yields an AVL tree. |
| AvlMap.Move | rdavl.c:127-136 | Hanging any AVL tree below the outermost node of another yields an AVL tree. |
| AvlMap.Remove | rdavl.c:150-170 | Removal yields an AVL tree. |
| AvlMap.MoveConcatenates | rdavl.c:127-136 | Joining two trees of any heights gives the in-order sequence of one followed by that of the other. |
| AvlMap.InsertCells | rdavl.c:97-124 | For any lawful comparator the in-order sequence after an insertion is what was before the element, the new cell, and what was after it; the displaced cell is the one that matched. |
| AvlMap.RemoveCells | rdavl.c:138-170 | After a removal it is what was before the element followed by what was after it. |
| AvlMap.FindCell | rdavl.c:174-187 | A search returns the matching cell of the in-order sequence, or nothing when none matches. |
| AvlMap.SortedSplits | rdavl.h:61-64 | Under a lawful comparator any element cuts a sorted sequence into what is before, at most one match, and what is after. |
| AvlMap.SplitStaysSorted | rdavl.c:97-170 | The sequences that insertion and removal leave are sorted again. |
| AvlRuns.RunIsSorted | rdavl.c:97-170 | After any sequence of insertions and removals the tree is a search tree. |
| AvlRuns.FindAfterPut | rdavl.h:220-269 | A search after an insertion finds the new cell under its key and what it found before under any other. |
| AvlRuns.FindAfterDel | rdavl.h:240-269 | A search after a removal finds nothing under the removed key and what it found before under any other. |
| AvlRuns.FindIsLatest | rdavl.h:220-269 | After any run a search finds exactly the cell last inserted under that key and not removed since. |
| AvlRuns.OperationsChangeOneCell | rdavl.h:90-97 | A new key adds one cell, a present key is replaced and its old cell returned; a removal takes out one cell if the key is present and changes nothing if not. |
| AvlRuns.StoredHeightWithinOne | rdavl.h:49-57 | In every tree the code builds a stored height is the real depth or one less. |
| AvlRuns.ExactIffSettled | rdavl.c:84-94 | Stored heights are all exact if and only if no node is left at height 0; the textbook balance then holds. |
| AvlRuns.AvlIsRoughlyBalanced | rdavl.c:64-95 | In every tree the code builds the real depths of siblings differ by at most two. |
| AvlRuns.SettledBalance | rdavl.c:47-95 | Balancing leaves heights exact if and only if both subtrees had them exact. |
| AvlRuns.SettledMove | rdavl.c:127-136 | Joining two trees with exact heights keeps them exact. |
| AvlRuns.SettledRemove | rdavl.c:150-170 | Removal never makes exact heights inexact. |
| AvlRuns.SettledInsert | rdavl.c:104-105 | The displaced cell is what a search finds, and heights are exact afterwards exactly when they were and the key was present. |
| AvlRuns.InsertExactIff | rdavl.h:220-233 | Stored heights are exact after an insertion if and only if they were before and the key was present. |
| AvlRuns.DescendingInsertsMakeAChain | rdavl.c:97-124 | Inserting 3, 2, 1 gives a chain of three nodes, unbalanced and with a wrong stored height. |
| AvlRuns.SizeByHeight | rdavl.c:64-95 | A tree of stored height h holds at least Fib(h + 2) - 1 elements. |
| AvlRuns.VisitsWithinDepth | rdavl.c:174-187 | A search compares with at most as many nodes as the tree is deep. |
| AvlRuns.SearchIsLogarithmic | rdavl.c:174-187 | After any run a search that compares with d nodes implies at least Fib(d + 1) - 1 elements. |
| AvlRuns.MillionElements | rdavl.c:174-187 | After any run a search among fewer than a million elements makes at most 29 comparisons. |
| AvlDepth.DepthIsHeightAndOver | rdavl.c:84-94 | The real depth of every tree the code builds: the stored height, and one more exactly if a path of greatest stored height ends in a node left at height 0. |
| AvlDepth.TrulyBalancedIff | rdavl.c:64-95 | Such a tree has the textbook balance if and only if nowhere a side stored as taller is deeper than stored beside one that is not. |
| AvlDepth.InsertPredicted | rdavl.c:97-124 | Through the rotations of an insertion, the new tree's height, whether it is deeper than stored and whether a node is tilted are all decided by the old tree and the search path. |
| AvlDepth.RotatedTwice | rdavl.c:47-95 | The subtrees that a double rotation of the code joins, for either direction and either side of the inner grandchild. |
| AvlDepth.InsertBalancedIff | rdavl.c:97-124 | For every tree and every insertion: the textbook balance holds afterwards if and only if, for a new key, the search path leaves no tilted node, and for a present key, it held before. |
| AvlDepth.InsertDepth | rdavl.c:97-124 | The exact real depth after any insertion of a new key. |
| AvlDepth.MoveSettledIff | rdavl.c:127-136 | Joining two trees leaves exact heights if and only if every node left at height 0 was on the spine along which they are joined. |
| AvlDepth.RemoveExactIff | rdavl.c:150-170 | For every tree: stored heights are exact after a removal if and only if every node left at height 0 was on the path that the removal balances; the textbook balance then holds too. |
| AvlDepth.RemovalCanUnbalance | rdavl.c:150-170 | A run whose tree has the textbook balance until a removal, after which it has not. |
| AvlHeap.BalanceNode | rdavl.c:64-95 | In-place balancing of a node over disjoint subtrees of any gap terminates and leaves the nodes laid out as the balanced tree, touching only these nodes. |
| AvlHeap.RotateLeft | rdavl.c:47-61 | The in-place rotation to the left is the two nested balancings, each within the caller's work bound. |
| AvlHeap.RotateRight | rdavl.c:47-61 | The same to the right. |
| AvlHeap.BalanceKeepsNodes | rdavl.c:47-95 | Balancing neither loses nor gains a node and introduces no sharing. |
| AvlHeap.InsertNode | rdavl.c:97-124 | In-place insertion leaves the nodes laid out as the inserted tree and hands back the replaced node, which still carries its element. |
| AvlHeap.InsertNodes | rdavl.c:97-124 | After an insertion the node set is the old one with the new node and without the replaced one, and no node occurs twice. |
| AvlHeap.MoveNode | rdavl.c:127-136 | In-place joining leaves the nodes laid out as the joined tree. |
| AvlHeap.MoveNodes | rdavl.c:127-136 | Joining keeps the union of both node sets, without sharing. |
| AvlHeap.RemoveNode | rdavl.c:138-147 | The removed node ends unlinked and keeps its element; its subtrees are joined. |
| AvlHeap.RemoveElm | rdavl.c:150-170 | In-place removal leaves the nodes laid out as the tree after removal and the matching node, if any, unlinked. |
| AvlHeap.RemoveNodes | rdavl.c:150-170 | Removal takes exactly the matching node out of the node set. |
| AvlHeap.FindNode | rdavl.c:174-187 | The search on nodes returns the node the tree search finds, and counts its comparisons. |
| AvlHeap.ForeachNode | rdavl.c:190-201 | The callback is run on the nodes in postorder. |
| AvlHeap.PostorderIsComplete | rdavl.c:190-201 | Every node is handed to the callback exactly once. |
| AvlHeap.SubtreesFirst | rdavl.c:190-201 | Every node is handed out directly behind all nodes of its left subtree and then all of its right one. |
| AvlObject.AvlRoot.constructor | rdavl.h:169-177 | A new tree is empty and has an empty history. |
| AvlObject.AvlRoot.Insert | rdavl.h:218-233 | Adds the node, drops only the replaced one, and returns the element that the object's whole history left under that key. |
| AvlObject.AvlRoot.RemoveElm | rdavl.h:238-244 | Drops exactly the matching node and leaves it unlinked. |
| AvlObject.AvlRoot.Find | rdavl.h:252-269 | Returns what the object's whole history left under the key, after a number of comparisons logarithmic in the size. |
| TimerLists.WithoutMembers | rdtimer.c:137-147 | Taking a timer off the list takes off this one only. |
| TimerLists.InsertMembers | rdsysqueue.h:188-204 | Sorted insertion adds the timer once and loses none. |
| TimerLists.CmpInWindow | rdtimer.c:103-105 | Within a window of 2^31 the truncated comparison is the difference. |
| TimerLists.SortsIffFaithful | rdsysqueue.h:188-204 | Sorted insertion keeps a sorted list sorted if and only if the truncated comparisons on its way are faithful. |
| TimerLists.WindowIsFaithful | rdtimer.c:103-105 | They are when all deadlines are less than 2^31 microseconds from the new one. |
| TimerLists.LatestSortsIff | rdtimer.c:103-129 | A deadline later than all armed ones is put in its place if and only if it is less than 2^31 microseconds after the first. |
| TimerLists.FarTimerHidesNearOne | rdtimer.c:103-129 | A timer 36 minutes away is put before one that is a second away, which a scan then does not fire when due. |
| TimerSpec.FireShrinks | rdtimer.c:195-226 | The scan loop ends, and splits the list: the call-out list holds what left it, in order, and the rest stays. |
| TimerSafety.StopKeeps | rdtimer.c:137-147 | Stopping keeps the list exact and sorted, the cached wake-up time early enough and the event counts right. |
| TimerSafety.StartKeeps | rdtimer.c:111-129 | So does starting, with or without the update, where the update may be skipped. |
| TimerSafety.LinkSorted | rdtimer.c:118-128 | An insertion keeps the list sorted if and only if it takes the shortcut at the head or meets only faithful comparisons. |
| TimerSafety.ShortcutIsSortedInsertion | rdtimer.c:118-128 | Where the shortcut applies, the sorted insertion would give the same list if and only if the first deadline is at most 2^31 microseconds later, modulo 2^32. |
| TimerSafety.DestroyKeeps | rdtimer.c:61-71 | A timer without events is freed, one with events is only marked and taken off the list; the invariant stays. |
| TimerSafety.FireIsExact | rdtimer.c:195-226 | A scan takes off only expired timers and queues exactly one event for each; while the list is in order it takes off all of them, although it stops at the first that has not expired. |
| TimerSafety.RestartKeeps | rdtimer.c:228-234 | Restarting the recurring call-outs without updating the wake-up time keeps the invariant. |
| TimerSafety.ScanKeeps | rdtimer.c:193-239 | One round of the timer thread keeps the invariant and ends waiting, unsignalled, for the first deadline on the list or for an hour. |
| TimerSafety.ScanFiresWhatIsDue | rdtimer.c:193-236 | A scan gives every due timer exactly one more event and changes no other; a one-shot is disarmed, a recurring one armed for at least one interval after the scan. |
| TimerSafety.RestartEffect | rdtimer.c:228-234 | The k-th call-out, if recurring, is due its interval after the k-th clock reading; no other timer changes. |
| TimerSafety.AddKeeps | rdtimer.c:94-101 | Adding an automatic timer keeps the invariant; what it adds is stated by TimerEffects.AddEffect. |
| TimerSafety.StartStepKeeps | rdtimer.h:110-117 | Starting sets the interval and the deadline of this timer and of no other. |
| TimerSafety.DestroyStepKeeps | rdtimer.h:149-153 | Destroying a timer the application owns keeps the invariant. |
| TimerSafety.BeginKeeps | rdtimer.c:150-155 | When an event is taken up its timer is allocated and the assertion on rt_called holds. |
| TimerSafety.EndKeeps | rdtimer.c:157-176 | After the callback a removed timer is freed exactly with its last event and an automatic one-shot is freed; the invariant stays. |
| TimerSafety.StepKeeps | rdtimer.c:45-243 | Every enabled step of the application, the event threads and the timer thread keeps the lifetime invariant, whatever the deadlines, and the list's order and the early enough wake-up time if its insertions are faithful. |
| TimerSafety.ReachableInv | rdtimer.c:45-243 | The lifetime invariant holds in every state of every run, and order and timeliness in every state before which all insertions were faithful. |
| TimerSafety.NoUseAfterFree | rdtimer.c:61-71 | In every run no freed timer is read or freed and no assertion fails; rt_called equals the queued and executing events; a freed timer is off the list, unowned and without events. |
| TimerSafety.FreedStaysFreed | rdtimer.c:61-71 | A timer is freed at most once. |
| TimerSafety.NoLostWakeup | rdtimer.c:45-54 | In every run whose insertions have been faithful: whenever the timer thread waits and no signal is pending, its timeout is no later than any armed deadline. |
| TimerSafety.NoLeak | rdtimer.c:157-176 | A timer without events is owned by the application or an armed automatic one: destroyed and expired ones are gone. |
| TimerSafety.DeadlineExactIff | rdtimer.c:116-116 | The interval survives the 32-bit product if and only if it is at most 4294967 ms. |
| TimerEffects.DeadlineWraps | rdtimer.c:116-116 | For every interval the deadline is less than 2^32 microseconds ahead and agrees with the product modulo 2^32. |
| TimerEffects.CmpWraps | rdtimer.c:103-105 | The comparison is the difference cut to a signed 32-bit integer. |
| TimerEffects.SortedPlace | rdsysqueue.h:188-204 | With faithful comparisons a timer goes behind those due earlier and before all others, also those due at the same time. |
| TimerEffects.CreateEffect | rdtimer.c:76-85 | A new timer has the type asked for, is disarmed, without events and owned by the application; no other timer changes. |
| TimerEffects.AddEffect | rdtimer.c:88-101 | An added timer has the type and interval asked for, is automatic, armed for its deadline, without events and owned by nobody; no other timer changes. |
| TimerEffects.StopEffect | rdtimer.c:137-147 | Stopping disarms this timer only; the thread is woken, for the deadline that follows or in an hour, if and only if the head goes and has no event. |
| TimerEffects.StartEffect | rdtimer.h:110-117 | Starting arms this timer for its deadline; it becomes the first and the thread is woken for it if and only if it is due before the wake-up time left by stopping it. |
| TimerEffects.BeginEffect | rdtimer.c:150-155 | Taking up an event moves one from the queue into execution and changes nothing else. |
| TimerEffects.EndEffect | rdtimer.c:157-176 | An event that ends is no longer counted; its timer is freed if and only if it was removed and this was its last event or it is an automatic one-shot, and nothing else changes. |
| TimerEffects.WaitEndsAndDueFires | rdtimer.c:193-239 | A wait may end without a signal, and what is due when the thread then looks gets one event. |
| TimerOrder.StepSortedIff | rdtimer.c:103-129 | From a state in order, any enabled step, also a scan that restarts many timers, leads to a state in order if and only if all its insertions are faithful. |
| TimerOrder.OrderIff | rdtimer.c:103-129 | In every run the list is in order in all states up to some point if and only if every insertion before it was faithful. |
| TimerOrder.WindowStep | rdtimer.c:103-105 | A step after which all deadlines are less than 2^31 microseconds apart has made faithful insertions only. |
| TimerOrder.WindowKeepsOrder | rdtimer.c:103-129 | Deadlines that always stay within that window keep the list in order throughout a run. |
| TimerOrder.WakeupLostOutsideWindow | rdtimer.c:103-129 | A state is reachable in which the thread sleeps 35 minutes past an armed deadline. |
| TimerHeap.RtList.Remove | rdtimer.c:144-144 | Relinks the neighbours and the head in place; exactly this timer leaves the list. |
| TimerHeap.RtList.InsertHead | rdtimer.c:120-120 | The timer becomes the first, in place. |
| TimerHeap.RtList.InsertBefore | rdsysqueue.h:83-90 | The timer is linked directly before the given one, in place, also when that one is the head. |
| TimerHeap.RtList.InsertAfter | rdsysqueue.h:199-200 | The timer is linked directly behind the given one, in place. |
| TimerHeap.RtList.InsertSorted | rdsysqueue.h:188-204 | The macro's walk and relinking give the sorted insertion of the state machine on well-formed links. |
| TimerSystem.Timers.constructor | rdtimer.c:245-255 | The system starts with no timer and the timer thread running. |
| TimerSystem.Timers.Stop0 | rdtimer.c:137-147 | On linked timer objects: exactly the stop step, with the wake-up time updated from the next link before the unlinking. |
| TimerSystem.Timers.Start0 | rdtimer.c:111-129 | On linked timer objects: exactly the start step, by the shortcut or the sorted insertion. |
| TimerSystem.Timers.Destroy0 | rdtimer.c:61-71 | On linked timer objects: exactly the destroy step; what is freed is on no list. |
| TimerSystem.Timers.Start | rdtimer.h:110-117 | Refines the step, keeps the invariant, and leaves the timer linked with the deadline of its interval. |
| TimerSystem.Timers.Stop | rdtimer.h:119-124 | Refines the step, keeps the invariant and the set of allocated timers. |
| TimerSystem.Timers.AddAtomic | rdtimer.c:94-101 | A new timer object of the given type and interval is linked with its deadline, automatic and without events; no other timer changes, and the invariant stays. |
| TimerSystem.Timers.Destroy | rdtimer.h:149-153 | Refines the step, keeps the invariant, and frees the timer exactly when it has no event. |
| TimerSystem.Timers.End | rdtimer.c:157-176 | Refines the step, keeps the invariant, and frees the timer exactly when it was removed and this was its last event or it is an automatic one-shot. |
| TimerSystem.Timers.Fire | rdtimer.c:195-226 | The first scan loop takes the expired timers off the linked list as the state machine does and collects the same call-outs. |
| TimerSystem.Timers.Restart | rdtimer.c:228-234 | The second scan loop links the recurring call-outs in again as the state machine does. |
| TimerSystem.Timers.Scan | rdtimer.c:181-240 | One round of the thread on the linked objects is exactly the scan step, keeps the invariant and frees nothing. |
| Crc32.TableIsShift8 | rdcrc32.c:23-88 | Each of the 256 table entries is what eight register steps make of its index. |
| Crc32.StepIsShift8 | rdcrc32.c:124-125 | One lookup does the work of eight register steps on the state with the byte mixed in. |
| Crc32.TableDrivenIsDivision | rdcrc32.c:119-130 | For every start value and message the table-driven update is the bit-at-a-time division by 0xEDB88320. |
| Crc32.UpdateLoop | rdcrc32.c:119-130 | The update loop computes that division. |
| Crc32.UpdateConcat | rdcrc32.c:119-130 | Updating by a concatenation is updating by its parts in turn. |
| Crc32.CrcMatchesItsParameters | rdcrc32.h:61-97 | The checksum is the catalogue one: polynomial 0x04C11DB7, bytes and result reflected, 0xFFFFFFFF mixed in before and after. |
| Crc32.CheckValue | rdcrc32.h:61-97 | The digits 1 to 9 have the catalogue's check value 0xCBF43926. |
| Crc32.UpdateInjective | rdcrc32.c:119-130 | Different states stay different under the same bytes. |
| Crc32.WordUpdate | rdcrc32.c:119-130 | Four bytes update the state as 32 register steps on state xor word. |
| Crc32.WordUpdateBijective | rdcrc32.c:119-130 | From every state each state is reached by exactly one word of four bytes. |
| Crc32.BurstsAreDetected | rdcrc32.h:93-97 | Messages of equal length that differ only within four consecutive bytes always have different checksums. |
| Crc32.BitBurstsAreDetected | rdcrc32.h:93-97 | Messages whose bits differ only within any 32 consecutive ones, wherever these start, always have different checksums. |
| Crc32.ResidueIsConstant | rdcrc32.h:93-97 | A message followed by its own checksum, low byte first, always has checksum 0x2144DF1C. |
| Crc32.ReflectLoop | rdcrc32.c:97-108 | The loop yields the word of the low bits in reverse order; a length of 0 acts as 1. |
| Crc32.FullReflection | rdcrc32.c:97-108 | On 32 bits that is the reflection of the catalogue definition, and it undoes itself. |
| Varint.EncodeInto | rdencoding.c:84-102 | Returns -1 exactly when the buffer is shorter than the encoding, else its length; writes the bytes that fit and none behind them. |
| Varint.DecodeLoop | rdencoding.c:35-64 | On every byte string: a shortage, an overflow or a value, classified by the first byte that ends a varint. |
| Varint.AtMostTenBytes | rdencoding.c:84-102 | No 64-bit value needs more than ten bytes. |
| Varint.LengthIff | rdencoding.c:88-94 | An encoding has at most n bytes exactly when the value has at most 7n bits. |
| Varint.EncodeMeans | rdencoding.c:84-102 | The bytes of an encoding are the base-128 digits of the value, lowest first, each but the last with its top bit set. |
| Varint.RoundTrip | rdencoding.c:35-102 | Decoding an encoding followed by any bytes gives the value and the exact length. |
| Varint.PrefixAsksForMore | rdencoding.c:58-61 | A strict prefix of m bytes of an encoding decodes to length -(m + 1). |
| Varint.EncodingIsShortest | rdencoding.c:84-102 | No accepted byte string is shorter than the encoding of the value it stands for. |
| Varint.CanonicalIff | rdencoding.c:35-102 | Encoding what a complete string decodes to gives the string back if and only if it has no superfluous last byte and no bit beyond the 64th. |
| Varint.ShortageIff | rdencoding.c:58-61 | The input lacks bytes if and only if the reported length is -(size + 1). |
| Varint.OverflowMacroIff | rdencoding.h:48-58 | The overflow macro is true of a real overflow and also of every shortage of eight bytes or more. |
| Varint.ShortageTakenForOverflow | rdencoding.h:49-49 | Prefixes of eight bytes or more of valid encodings read as overflow. |
| Varint.DocumentedReading | rdencoding.h:48-58 | The documented ranges: below -9 are the overflows and also every shortage of nine bytes or more, a shortage of eight bytes is in neither range. |
| Varint.TenthByteIsNotReported | rdencoding.c:46-51 | Nine continuing bytes and any ending tenth byte decode successfully, to what the lowest bit of the tenth gives. |
| Varint.DecodeExactIff | rdencoding.c:35-64 | A reported value is the unbounded number the bytes stand for if and only if there are fewer than ten or the tenth is at most 1. |
| Varint.DecodeMeans | rdencoding.c:35-64 | What is reported for t bytes with and then one without the top bit, or without such an end: a shortage of size + 1, an overflow of t, or t + 1 bytes and the number they stand for. |
| Hex.Hex2Bin | rdencoding.c:116-154 | Writes as many whole bytes as the digits and the destination allow, keeps an odd last digit in the next byte's high half, changes nothing else, and returns the number of whole bytes. |
| Hex.CharacterTable | rdencoding.c:123-142 | The values of the 22 digit characters and the six separators; no other character is either. |
| Hex.WindowMeans | rdencoding.c:117-128 | A limit other than -1 is never read past, and a shorter text is read to its end. |
| Hex.CountMeans | rdencoding.c:128-147 | As many whole bytes are written as the digits and the destination allow. |
| Hex.ScanEnds | rdencoding.c:128-143 | The scan stops at the NUL, the limit or the first character that is neither a digit nor ignored, having read all digits before it. |
| Hex.SeparatorsDoNotMatter | rdencoding.c:123-134 | A text decodes as it does with all ignored characters removed. |
| Hex.Bin2Hex | rdencoding.c:157-175 | Two digits for each byte that fits, then a NUL whenever the destination is not empty; nothing else changes. |
| Hex.TextMeans | rdencoding.c:162-170 | The text is two characters of 0-9a-f for each byte, the first worth sixteen times its value. |
| Hex.FitMeans | rdencoding.c:166-170 | Those bytes are written that leave room for two characters behind their own. |
| Hex.AllFitIff | rdencoding.c:166-166 | All n bytes are encoded if and only if n is 0 or the text has room for 2n + 2 characters. |
| Hex.DocumentedSizeLosesOne | rdencoding.h:98-106 | With the documented 2n + 1 characters the last byte is lost. |
| Hex.TextDecodes | rdencoding.c:116-175 | The digits of n bytes, followed by a NUL and anything, decode to these bytes. |
| Hex.ThereAndBack | rdencoding.c:116-175 | Encoding into 2n + 2 characters and decoding into n bytes gives the bytes back and touches nothing behind them. |
| Shuffle.JitterReaches | rdrand.h:36-39 | The values that can come out are exactly low..low + high. |
| Shuffle.JitterIsRemainder | rdrand.h:37-37 | The result is the lower bound plus the remainder that dividing the draw by high + 1 leaves. |
| Shuffle.JitterOnce | rdrand.h:37-37 | Of any high + 1 consecutive draws exactly one gives each result. |
| Shuffle.JitterRangeIff | rdrand.h:32-39 | They are the promised low..high if and only if low is 0. |
| Shuffle.ShuffleArray | rdrand.c:34-50 | The in-place loop yields the shuffle by the choices that the draws make, a permutation of the array. |
| Shuffle.ChoicesDiffer | rdrand.c:40-49 | On distinct elements different choice sequences give different arrangements. |
| Shuffle.ChoicesReach | rdrand.c:40-49 | Every arrangement is reached by some choice sequence. |
| Shuffle.ShuffleIsUniform | rdrand.h:42-45 | The shuffles of a sequence are exactly its permutations, and on distinct elements each comes from exactly one choice sequence. |
| Shuffle.ThreeShuffled | rdrand.c:40-49 | The draws 1000 and 1001 turn 1, 2, 3 into 1, 3, 2. |
| ShuffleOdds.HitsCount | rdrand.h:37-37 | Of m draws m / n give each of n choices, and one more gives each of the first m % n. |
| ShuffleOdds.ChoicesCount | rdrand.c:40-49 | There are n! sequences of choices. |
| ShuffleOdds.DrawsForAre | rdrand.c:40-49 | The draws counted for a sequence of choices are exactly those that make it. |
| ShuffleOdds.DrawsCount | rdrand.c:40-49 | Their number is the product of the numbers for each step. |
| ShuffleOdds.EquallyLikelyIff | rdrand.h:42-45 | All sequences of choices are equally likely if and only if the number of draws is a multiple of every number of choices. |
| ShuffleOdds.EvenShare | rdrand.h:42-45 | Each of the n! sequences then has its n!-th part of all draws. |
| ShuffleOdds.DrawsOfArrangement | rdrand.h:42-45 | An arrangement of distinct elements comes from the draws for one sequence of choices and from no others. |
| Fifo.StepKeeps | rdqueue.c:62-173 | Every addition, pop, release and change of the maximum keeps the conservation, order and count invariant. |
| Fifo.RunKeeps | rdqueue.c:62-173 | The invariant holds in every state of every interleaving. |
| Fifo.NothingLostNothingTwice | rdqueue.c:78-173 | In every run each added element is exactly one of queued, delivered once or purged once, and the counter is the queue's length. |
| Fifo.DeliveredInOrder | rdqueue.c:127-173 | Delivery order is a subsequence of addition order, and what is delivered was added before what is still queued. |
| Fifo.FifoUnlessPurged | rdqueue.c:78-173 | If nothing was purged, what was delivered and what is queued are all additions in order. |
| Fifo.PoppedIsHeld | rdqueue.c:152-168 | A queued element has two references, and a pop leaves it exactly its consumer's. |
| Fifo.HeldUntilReleased | rdqueue.h:105-118 | One step ends a popped element's allocation if and only if it is its release. |
| Fifo.PoppedStaysAllocated | rdqueue.h:105-118 | In every run a popped element keeps its reference through all steps up to its consumer's release. |
| Fifo.FreedStaysFreed | rdqueue.h:105-112 | In every run a released element stays freed and is not delivered or freed again. |
| Fifo.OnlyQueueRefersNever | rdqueue.c:156-162 | No queued element ever has a single reference, so the branches for that case are not taken. |
| Fifo.PurgedIsNeverFreed | rdqueue.c:93-116 | A purged element keeps both references in every later state. |
| Fifo.AdditionPurgesIff | rdqueue.c:93-119 | An addition purges one element, the newest with tail drop and else the oldest, if and only if there is a maximum and the queue is that long; otherwise everything stays and the new element is last. |
| Fifo.AdditionIsBounded | rdqueue.c:93-119 | With a non-negative maximum an addition does not fault, and never makes a queue within the maximum exceed it. |
| Fifo.AddFaultsIff | rdqueue.c:93-107 | An addition reads through a null pointer if and only if the queue is empty and the maximum negative. |
| Fifo.FaultIsReachable | rdqueue.c:62-67 | A run reaches such a state: a negative maximum is accepted. |
| Fifo.Queue.constructor | rdqueue.c:49-60 | A new queue is empty. |
| Fifo.Queue.SetMaxSize | rdqueue.c:62-67 | In place: sets the limits, leaves the queue alone and keeps the invariant. |
| Fifo.Queue.Add | rdqueue.c:78-122 | In place: the new element is last with two references; an element is pushed out, and its pointer handed back, if and only if there is a maximum and the queue was that long. |
| Fifo.Queue.Pop | rdqueue.c:127-173 | In place: takes off the first element and hands it over with its consumer's reference, or nothing on an empty queue; exactly the pop step. |
| Fifo.Queue.ReleaseElm | rdqueue.h:105-112 | Drops one reference and frees the element exactly with the last one. |
| Fifo.Queue.ConsumerRelease | rdqueue.h:114-118 | The consumer's release frees a popped element. |
| Fifo.Queue.Destroy | rdqueue.c:35-47 | Frees every queued element, each once. |
| Buffers.Bufh.constructor | rdbuf.c:79-92 | A new chain has no contents. |
| Buffers.NewBuf | rdbuf.c:117-145 | A copied buffer has the size asked for as capacity, but at least its header's 48 bytes; an owned one is the caller's data. |
| Buffers.Bufh.CounterIsLength | rdbuf.c:43-44 | In every valid chain the counter is the length of the contents modulo 2^32, so the length itself as long as that is smaller. |
| Buffers.Bufh.InsertTail | rdbuf.c:160-169 | Linking a buffer at the end appends its bytes to the contents. |
| Buffers.Bufh.AppendData | rdbuf.c:152-157 | Appends the bytes at the end of the contents and keeps the counter equal to their length modulo 2^32. |
| Buffers.Bufh.GetBuf | rdbuf.c:173-191 | The data ends up behind the old contents, in the last buffer exactly when it is copied and fits there, else in a new one; without data only room is made. |
| Buffers.Bufh.MoveFrom | rdbuf.c:310-326 | The contents become destination followed by source, and the source is empty. |
| Buffers.Bufh.CopyOut | rdbuf.c:333-342 | The destination starts with exactly the contents, nothing behind them changes, and the length is returned. |
| Buffers.Bufh.Serialize | rdbuf.c:374-390 | The general loop hands the writer what the specification says, for any answers of the writer. |
| Buffers.SerialStopsAt | rdbuf.c:374-390 | The writer is called for the non-empty buffers up to the first answer that is not positive; what it accepted is written, and its length is returned unless that answer is an error. |
| Buffers.NothingLostIff | rdbuf.c:374-390 | For any answers of the writer: the whole contents are written, with their length returned, if and only if every non-empty buffer was accepted in full. |
| Buffers.CompleteIff | rdbuf.c:374-390 | Unless the writer fails, the returned length is what was written, so that a caller can tell whether all was. |
| Buffers.FullWriterAgrees | rdbuf.c:361-390 | With a writer that accepts everything the general loop agrees with the copy to memory. |
| Buffers.ShortWriteLosesBytes | rdbuf.c:374-390 | A short write loses the rest of its buffer, although the loop goes on. |
| Buffers.Bufh.Destroy | rdbuf.c:56-76 | The chain ends empty with counter 0, so the assertion holds even when the counter has wrapped around. |
| CallocStruct.AllocStruct | rdmem.c:211-264 | The allocation is the base and, for each element, its string with the NUL or the given number of bytes; each pointer slot holds the address of an exact copy, the copies in order; the rest of the base is zero, and with nothing to copy no pointer is set. |
| CallocStruct.RegionsTile | rdmem.c:239-245 | The element regions are disjoint and fill the memory behind the base: each address there is in exactly one. |
| CallocStruct.StartSteps | rdmem.c:234-245 | The regions are consecutive from the end of the base to the end of the allocation. |
| CallocStruct.StoredPointerReads | rdmem.c:239-240 | A pointer that fits its slot reads back as stored. |

## Left out

- Locks, condition variables, thread creation: each locked region is one atomic step, and clock readings are non-decreasing inputs.
- `epoll`, sockets, files, zlib, signals, the address resolver, logging and the printf family; `rdiothread.c`.
- The tree's locking flags, `rd_avl_destroy`, and traversal of an empty tree, which dereferences the missing root.
- The direction parameter of `rd_avl_rotate` is split into two mirrored methods; `ran_p[2]` is the two fields `left` and `right`.
- AvlRuns.SearchIsLogarithmic: the bound is Fib(d + 1) - 1 rather than Fib(d + 2) - 1, because a node left at height 0 can make a tree one level deeper than its stored height.
- AvlDepth.RemoveExactIff: the exact condition after a removal is for exact heights; for the textbook balance after a removal it is a sufficient condition only, and AvlRuns.AvlIsRoughlyBalanced bounds the depths otherwise.
- TimerSafety.NoLostWakeup: assumes that the insertions so far were faithful, which is exactly that the list has been in order (TimerOrder.OrderIff); a list out of order can lose a wake-up (TimerOrder.WakeupLostOutsideWindow). The lifetime results need no such assumption. Clock readings are positive and, within a step, do not run backwards.
- In the timer system the wrap-around of 64-bit timestamps, `rd_timer_next` and the stall alert are not modelled; the events of all threads are a multiset, without the order of each thread's queue; the application does not use a timer after destroying it.
- TimerSystem.Timers.Restart: the call-out list is a sequence of timer objects. A timer's address is its number, which is not used again after it was freed.
- Varint.DecodeLoop: shift counts of 64 and more, undefined in C, give 0; their results are discarded by the code. Lengths stay below 2^31.
- Hex.Hex2Bin: characters are unsigned, so the table lookup with a negative `char` is not modelled; the text is followed by a NUL, because the code reads the character at the limit before it compares with the limit.
- Signed varints, whose negative values are lost (`rdencoding.c:77-78`, `rdencoding.c:106-107`).
- Shuffle.ShuffleIsUniform: counts choice sequences; ShuffleOdds counts draws, taking each value of rand() to be equally likely and independent.
- Shuffle.JitterRangeIff: upper bounds of at least 0; -1 would divide by zero.
- Fifo.Queue.Pop: waiting is the time between two steps; a time-out and a pop without waiting are the step on an empty queue.
- Fifo.Queue.Add: the linked list is a sequence of element objects.
- Buffers.Bufh.GetBuf: the data is not part of the chain itself, and owned data is not missing; allocation does not fail.
- Buffers.Bufh.Serialize: the writer's answers are an input, within the bounds of write(2); other serializers than the binary one are not modelled.
- Buffers.Bufh.Destroy: that owned data is freed is not recorded.
- `rd_bufh_prepend`, which neither copies the data nor sets a length, `rd_bufh_recv` and the printf variants.
- CallocStruct.AllocStruct: pointers are eight bytes, low byte first; negative sizes other than -1, wrap-around of the total and a failing allocation are not modelled.
- Bit vectors, `rdopt.c`, `rdlru.c`, `rdavg.c`, memory context counters and string helpers: small, or marked as unfinished.
