# IPStat: a Dafny model of the accounting core

IPStat is a billing daemon written in C. This project models the parts of it that carry
invariants, proves what they promise, and, where a promise does not hold, proves exactly
when it does. Every main result is a statement about all inputs, all runs or all
interleavings. `dafny verify dfyconfig.toml` checks the whole project.

| module | models |
|---|---|
| `AvlTree`, `AvlMap`, `AvlHeap` | `src/gtree.c`: rotations and insertion on values, the meaning of whole runs, and the nodes that are rewritten in place |
| `RequestRing` | the request queue of `src/threads.c`, as values and as an array |
| `ThreadPool`, `ThreadRuns` | producers, workers and the cleaner of `src/threads.c` as a step system, and what a worker does from one end to the other |
| `HandleList` | the doubly linked handle list of `src/threads.c` |
| `ListSort` | the in-place merge sort of `src/glist.c` |
| `Inet` | address prefixes and port records of `src/inet.c` |
| `Rules` | the traffic loops of `users_autz` and `users_acct` in `src/core_users.c` |
| `TimeCache` | `src/func_time.c`: a step system for the counters, the sync thread and the tables, and the in-place operations |
| `IpCache` | `src/func_ip.c`, in the same two forms |
| `LimitQuota`, `LimitTraffic`, `LimitSync`, `LimitHooks` | `ipstat_system_group_limit/main.c`: quota enforcement, traffic export, reconciliation with the table, and the hooks in place |
| `Codec` | `src/libxml.c`: printer, destructive tokenizer, parser, lookup |
| `GroupLimits`, `Orders`, `Bits`, `Seqs`, `Store`, `Options` | shared vocabulary: the limit nodes, comparison callbacks, arithmetic, sequences, counters |

How the pieces fit: code that changes state in place is a class or a method with a loop, and
its contract equates the new state with a function of the old one. Properties of whole runs
are proved about those functions. Concurrent parts are step systems: a step is what a thread
does between two points where another thread can see a difference, a run is any sequence of
steps, and a step that is not enabled changes nothing. Histories that the program does not
keep (what was accounted, accepted, lost) are part of the model state so that conservation
can be stated. The in-place classes of the accounting code carry a ghost history and are
always in the state that the step system reaches by it, so that its theorems hold of them.
Conditions on runs ("never runs over", "never doubles a wrapped ring") are stated step by step
over the prefixes of the run, by the guard of the branch that fails.

What the proofs found in the code:

- Doubling a full ring that has wrapped loses the whole queue and the new request
  (`src/threads.c:335`). `RunIsFifoIff` says the queue is FIFO over a run if and only if no
  such growth happens in it; `WrappedGrowthLosesRequests` reaches one with 257 requests.
- A NULL request raises `active_threads` for good (`src/threads.c:263`, `src/threads.c:296`):
  `ActiveThreadsExact` says when the count is exact, `NullLeakIsReached` reaches a leak.
- `IPStat_spawn_thread` tests and raises `total_threads` without a lock, so k threads that
  spawn at a time can exceed `max_threads` by up to k - 1 (`src/threads.c:154`,
  `src/threads.c:184`): `ThreadBound`, `ThreadBoundIsReached`.
- The cleaner tests a handle and then writes THREAD_CANCELLED over whatever it reads by then
  (`src/threads.c:412-415`). If the thread has returned meanwhile, THREAD_EXITED is lost and the
  handle is never swept: `SweepableIff` has the exact condition, `StuckIsReached` a schedule.
- `compare_ports` takes its record as a 16-bit value, so port ranges do not work
  (`src/inet.c:45`): `RangesWorkIff` shows that a record works as its comments say if and only
  if its high half is 0 or equal to its low half. The comments include the ends of a range and
  the branches leave them out; `BranchesWorkIff` has the condition for the branches.
- `ip_export` asks for CURDATE() twice. When the day ends in between, its update finds no row
  and the bytes are lost although both calls worked (`src/func_ip.c:300-309`):
  `IpCache.Conservation` has the exact condition, `MidnightLosesBytes` a run.
- `ip_acct` looks its entry up and adds to it in two lock sections (`src/func_ip.c:152-160`).
  When a sync takes the tree away in between, the packet goes to an entry that is exported
  later, or is lost if its export is over: the condition covers this too, and
  `SyncLosesBytes` is a run.
- The fields under the md5 fingerprint of a limit are joined without a separator, so a changed
  row can keep its fingerprint and is then not reloaded: `FingerprintsCollide`, `PassAgrees`.
- A 32-bit counter that runs over loses 2^32 bytes, and nothing else in the time cache loses any:
  `TimeCache.Conservation`, with runs in the two `RunOverLosesBytes`.
  The `(int)` conversion of alpha loses bytes if and only if an amount of 2^32 or more is
  written: `LimitTraffic.Conservation`, `TruncationLosesBytes`.

## Model

| member | source | states |
|---|---|---|
| `AvlTree.RotateLeftExact` | src/gtree.c:251-279 | a left rotation leaves every stored balance equal to the height difference it stands for, for all subtree heights |
| `AvlTree.RotateRightExact` | src/gtree.c:281-304 | the same for a right rotation |
| `AvlTree.RotateLeftInOrder` | src/gtree.c:251-279 | a left rotation keeps the in-order sequence of keys and values |
| `AvlTree.RotateRightInOrder` | src/gtree.c:281-304 | a right rotation keeps the in-order sequence |
| `AvlTree.RebalanceInOrder` | src/gtree.c:177-188 | rebalancing, single or double, keeps the in-order sequence |
| `AvlTree.RebalanceAvl` | src/gtree.c:177-188 | a node two levels out of balance whose heavy child leans becomes a balanced tree with root balance 0, one level lower, and no missing node is dereferenced |
| `AvlTree.Insert` | src/gtree.c:125-175 | the result is balanced with exact balances, at most one level higher, and "the root balance changed and is not 0" holds exactly when the tree grew |
| `AvlMap.GetPut` | src/gtree.c:125-206 | the map law of the ordered association list that the tree is compared with: a get after a put |
| `AvlMap.LookupIsGet` | src/gtree.c:190-206 | lookup in a search tree is the get of its in-order list |
| `AvlMap.InsertIsPut` | src/gtree.c:125-175 | insertion, rotations included, is a put into the in-order list, and the flag says exactly whether the key was absent |
| `AvlMap.BuildIsMap` | src/gtree.c:61-79 | after any run of insertions the tree is balanced, strictly ascending, has one node per different key, and lookup returns the last value inserted under a key or nothing |
| `AvlMap.InsertedFlag` | src/gtree.c:125-175 | after any run the flag of the next insertion says whether its key never occurred |
| `AvlMap.FibonacciNodes` | src/gtree.c:125-188 | a balanced tree of height h has at least Fib(h + 2) - 1 nodes |
| `AvlMap.LookupIsLogarithmic` | src/gtree.c:190-206 | after any run a lookup makes at most 2 log2(n + 1) + 1 comparisons for n different keys |
| `AvlMap.TraversalsFold` | src/gtree.c:209-248 | the three recursive traversals are early-stopping folds over the in-, pre- and post-order entries, which are the same entries |
| `AvlMap.FoldIsPrefix` | src/gtree.c:209-248 | such a fold visits the entries up to and including the first whose callback asks to stop, and all of them if none does |
| `AvlHeap.RotateLeftNode` | src/gtree.c:251-279 | the pointer and balance updates on the heap are the rotation of the value tree, over the same nodes |
| `AvlHeap.RotateRightNode` | src/gtree.c:281-304 | the mirror image |
| `AvlHeap.BalanceNode` | src/gtree.c:177-188 | rebalancing in place is rebalancing of the value tree |
| `AvlHeap.InsertNode` | src/gtree.c:125-175 | the heap recursion computes the value-level insertion and flag, and adds only fresh nodes |
| `AvlHeap.LookupNode` | src/gtree.c:190-206 | the heap lookup is the value-level lookup |
| `AvlHeap.TraverseNode` | src/gtree.c:224-235 | the heap in-order recursion is the one on the value tree |
| `AvlHeap.TraverseNodePre` | src/gtree.c:209-222 | the same for pre-order |
| `AvlHeap.TraverseNodePost` | src/gtree.c:237-248 | the same for post-order |
| `AvlHeap.SearchTree.Insert` | src/gtree.c:61-68 | the object stays the tree of its insertion history, and reports whether the key is new to that history |
| `AvlHeap.SearchTree.Find` | src/gtree.c:70-78 | returns the last value inserted under the key in the whole history, or nothing |
| `AvlHeap.SearchTree.Traverse` | src/gtree.c:80-96 | in order, each key of the history is visited once, strictly ascending, with its last value, up to the first stop; in pre- and post-order the visits follow those orders of the tree |
| `RequestRing.MaskWraps` | src/threads.c:293-294 | masking with size - 1 is wrap-around, because sizes are 256 * 2^k |
| `RequestRing.FullMeans` | src/threads.c:317-318 | the entry count test is true exactly with one slot left, and then the ring is unwrapped only if head is 0 |
| `RequestRing.GrowMeaning` | src/threads.c:328-345 | doubling a full ring and storing appends if head is 0 and empties the queue otherwise |
| `RequestRing.EnqueueMeaning` | src/threads.c:304-352 | every case of an enqueue in terms of the queued sequence: refused, appended, or everything lost |
| `RequestRing.EnqueueIsFifoIff` | src/threads.c:304-352 | an enqueue appends if and only if it is accepted and does not double a wrapped ring |
| `RequestRing.DequeueMeaning` | src/threads.c:281-301 | a dequeue takes the oldest request, and nothing exactly from an empty queue |
| `RequestRing.RunIsFifoIff` | src/threads.c:281-352 | over a whole run, what was handed out followed by what is queued is what was accepted, if and only if every growth happened with head at 0 |
| `RequestRing.DrainedRestarts` | src/threads.c:313-315 | the next request after a drain is stored in slot 0 of an unchanged ring, wherever head had got to |
| `RequestRing.DrainedTakesBurst` | src/threads.c:304-352 | after any run that leaves the queue empty, a burst of up to 65535 requests is accepted and queued as a whole, in order |
| `RequestRing.WrappedGrowthLosesRequests` | src/threads.c:335-345 | a reachable run in which 256 accepted requests vanish |
| `RequestRing.RequestQueue.DequeueRequest` | src/threads.c:281-301 | the array code computes the dequeue of the ring value |
| `RequestRing.RequestQueue.EnqueueRequest` | src/threads.c:304-352 | the array code, growth included, computes the enqueue of the ring value |
| `ThreadPool.StepKeepsInv` | src/threads.c:147-434 | every step of every thread keeps: tokens, woken workers and owed posts cover the queue; each request is in its places; active_threads is exact up to NULLs; the number of threads is bounded |
| `ThreadPool.Exec` | src/threads.c:147-434 | that invariant after every interleaving of producers, spawners, workers and cleaner |
| `ThreadPool.QueuedRequestsHaveTokens` | src/threads.c:246-262 | when nobody is about to post or dequeue there is a semaphore token for each queued request, so a waiting worker can be woken |
| `ThreadPool.ExactlyOnePlace` | src/threads.c:228-352 | a request accepted once is in exactly one of queued, held and done, over every schedule that never doubles a wrapped ring |
| `ThreadPool.NothingLostIff` | src/threads.c:304-352 | all accepted requests are queued, held, done or skipped NULLs, if and only if no enqueue of the schedule doubles a wrapped ring |
| `ThreadPool.ActiveThreadsExact` | src/threads.c:262-273 | active_threads is the number of busy workers if and only if no fetch of the schedule takes a NULL |
| `ThreadPool.NullRequestLeaks` | src/threads.c:262-263 | taking a NULL request raises active_threads although nobody is busier |
| `ThreadPool.NullLeakIsReached` | src/threads.c:262-263 | a schedule after which active_threads is 1 and no worker is busy |
| `ThreadPool.ThreadBound` | src/threads.c:147-197 | with k threads that can spawn at a time there are at most max_threads + k - 1 threads, and at most max_threads for k = 1 |
| `ThreadPool.ThreadBoundIsReached` | src/threads.c:147-197 | for every maximum and every k some schedule reaches that bound |
| `ThreadPool.SweepableIff` | src/threads.c:375-434 | the handles of all returned threads read EXITED if and only if no cancel of the schedule hits a thread that has returned |
| `ThreadPool.StuckIsReached` | src/threads.c:408-420 | a schedule that leaves the handle of a returned thread CANCELLED |
| `ThreadRuns.ServesOldest` | src/threads.c:246-274 | after any schedule, a waiting worker that gets a token serves the oldest request and waits again, or leaves if it was cancelled; tokens, queue and served requests change by exactly that |
| `ThreadRuns.WakesForNothing` | src/threads.c:246-274 | a worker woken for an empty queue or a NULL spends the token and goes to its loop test |
| `ThreadRuns.WorkersStay` | src/threads.c:246-276 | over every schedule without a cancel and without a failed wait all workers run on and none leaves |
| `ThreadRuns.CancelledIsSwept` | src/threads.c:246-276 | after any schedule, a cancelled worker that reaches its loop test or times out leaves, and the next sweep leaves the pool as if it had not been there |
| `ThreadRuns.TokensExact` | src/threads.c:246-349 | tokens in the semaphore, posts owed and wake-ups so far are together the accepted requests and the cancels so far |
| `ThreadRuns.CrewExact` | src/threads.c:177-184 | the threads are those created and not swept, and total_threads counts those linked and not swept |
| `HandleList.LinkedWithout` | src/threads.c:206-221 | bridging one handle leaves the others a doubly linked list |
| `HandleList.HandlePool.Spawn` | src/threads.c:147-197 | appends a fresh handle exactly if there is room and the thread was created, and keeps the list well formed with total_threads as its length, at most max_threads |
| `HandleList.HandlePool.Drop` | src/threads.c:200-225 | removes exactly the given handle from a well-formed list |
| `HandleList.HandlePool.Sweep` | src/threads.c:375-381 | removes exactly the exited handles, so that no other one goes and none of them stays, and keeps the order of the others |
| `ListSort.MergeStable` | src/glist.c:328-348 | merging puts equal elements of the first list before those of the second |
| `ListSort.SortIsStable` | src/glist.c:298-325 | for any total preorder the sort is ordered, a permutation of the same nodes, and keeps the order of equal ones |
| `ListSort.MergeLists` | src/glist.c:328-348 | relinking in place yields the merge of the two node sequences |
| `ListSort.SplitList` | src/glist.c:312-321 | the slow and fast pointers cut the list into two non-empty halves of half the length |
| `ListSort.SortList` | src/glist.c:298-325 | the in-place sort terminates and links the same nodes in the order of the stable sort |
| `Inet.SamePrefixIff` | src/inet.c:68-79 | the byte-wise comparison is equality of the top mask bits, for byte strings of any length |
| `Inet.CompareWithMaskIff` | src/inet.c:68-79 | for masks up to 32 it is prefix matching as in section 3.1 of RFC 4632 |
| `Inet.PrefixesNest` | src/inet.c:68-79 | of two networks that contain one address, the longer prefix lies inside the other |
| `Inet.RecByPortsMeaning` | src/inet.c:164-170 | the mask and shift give the low and the high half of a record |
| `Inet.PortsRoundTrip` | src/inet.c:155-170 | recbyports undoes portsbyrec |
| `Inet.ComparePortsMeaning` | src/inet.c:44-63 | a record, as it arrives, means one port or all ports |
| `Inet.ComparePortsLow` | src/inet.c:44-63 | of any record only the low half counts: 0 means all ports, else it is the one port |
| `Inet.RangesWorkIff` | src/inet.c:44-63 | a record works as the comments of the function say, for all ports, if and only if its high half is 0 or equal to its low half |
| `Inet.BranchesWorkIff` | src/inet.c:44-63 | a record works as the branches would decide on all 32 bits, for all ports, if and only if its high half is 0 |
| `Inet.RangeExample` | src/inet.c:44-63 | the range 10 to 20 admits port 10 and no other |
| `Rules.JudgeMeaning` | src/core_users.c:289-318 | a traffic rule matches exactly if the remote address (source of an incoming packet, else destination) has its prefix, the remote port its port, and protocol and direction fit; action bits 0 and 1 and status decide on going on, charging and admitting |
| `Rules.LocalEndIgnored` | src/core_users.c:289-295 | the judgement of a rule does not depend on the local address and port |
| `Rules.SameMacIff` | src/core_users.c:282-287 | MAC addresses are compared over 17 characters, without case |
| `Rules.AutzWalk` | src/core_users.c:297-318 | the loop's verdict is true exactly if a touched rule is active, and the packet gets the class of the last touched rule; touched rules are defined without the loop |
| `Rules.User.Autz` | src/core_users.c:263-318 | the same for a user, who is refused when deactivated or when an outgoing packet has another MAC address, compared over 17 characters without case |
| `Rules.ChargeIsMultiple` | src/core_users.c:395-415 | the charged bytes are the packet length times the number of touched rules without CONST_SUM |
| `Rules.SummedCounts` | src/core_users.c:395-415 | that number is the size of the set of touched rules without CONST_SUM |
| `Rules.LastClassIs` | src/core_users.c:297-318 | the class a packet gets is that of the last touched rule, or the one before if there is none |
| `Rules.User.AcctWalk` | src/core_users.c:395-415 | the loop charges exactly the touched rules, once each, with 32-bit counters |
| `Rules.User.Acct` | src/core_users.c:395-415 | exactly the rules that authorisation visits are charged, and the user gains len times the number of those without CONST_SUM |
| `Rules.FirstMatchIsMostSpecific` | src/core_users.c:1203-1258 | in a list ordered as loaded, the first matching rule names the packet's protocol if any matching rule does, has the longest prefix among those with its protocol field, and among those of the same length the largest port record and then the lowest direction |
| `TimeCache.StepKeepsInv` | src/func_time.c:117-328 | every step keeps, for every user, accounted bytes equal to Log_Time + Log_Temp + in flight + cell + run-overs |
| `TimeCache.ExecInv` | src/func_time.c:117-328 | that balance after every interleaving of accounting, sync and regrouping, whatever fails |
| `TimeCache.Conservation` | src/func_time.c:117-270 | no byte is lost or counted twice if and only if no accounting or restoring step of the run adds more to the user's 32-bit cell than it holds, and never below 2^32 accounted bytes |
| `TimeCache.LossIsMultiple` | src/func_time.c:117-270 | what is lost is a multiple of 2^32 |
| `TimeCache.RunOverLosesBytes` | src/func_time.c:134-139 | two packets after which 2^32 bytes are accounted and none is stored |
| `TimeCache.TimeStore.Acct` | src/func_time.c:117-155 | adds the length to the user's cell, creating it if needed; takes the accounting step of the protocol |
| `TimeCache.TimeStore.Export` | src/func_time.c:231-270 | a keyed add to Log_Temp, or nothing if either database call fails |
| `TimeCache.TimeStore.TraverseSync` | src/func_time.c:201-220 | takes the steps Take, Count, Export and Restore of the protocol, by which a cell moves to Log_Temp as a whole or stays as it was |
| `TimeCache.TimeStore.SyncAll` | src/func_time.c:157-174 | takes those steps for every key; cell + Log_Temp is unchanged for every user, and exactly the exported cells are empty |
| `TimeCache.TimeStore.Group` | src/func_time.c:304-328 | Log_Time + Log_Temp is unchanged for every user; a commit empties Log_Temp and a rollback changes nothing; takes the grouping step |
| `IpCache.StepKeepsInv` | src/func_ip.c:129-318 | every lock section and database exchange of the accounting and the sync thread keeps the invariant of the next row |
| `IpCache.ExecInv` | src/func_ip.c:129-318 | after every interleaving the tree's bytes and packet counts are the sums of the packets added since the last swap, a lookup that was not overtaken by a swap still holds, the books balance, every row of a day holds what was written on it, and swapped entries are settled once, in order, dropped only after four failures |
| `IpCache.Conservation` | src/func_ip.c:129-318 | written + dropped + pending + cached bytes of a key are all bytes accounted for it, if and only if no step of the run adds a packet to a counter that cannot hold it or to an entry whose export is over, or exports into a row that is not there |
| `IpCache.TableHoldsWritten` | src/func_ip.c:278-318 | over all days the rows of a key add up to the bytes written for it |
| `IpCache.RunOverLosesBytes` | src/func_ip.c:155-160 | two packets after which 2^32 bytes are accounted and none is kept |
| `IpCache.MidnightLosesBytes` | src/func_ip.c:300-309 | a run with an export over midnight whose calls both work and whose bytes reach no row |
| `IpCache.SyncLosesBytes` | src/func_ip.c:152-160 | a run with a sync between the two lock sections of `ip_acct` after which the packet is nowhere |
| `IpCache.OvertakenAdd` | src/func_ip.c:152-160 | a packet whose tree was taken away adds to its waiting entry if there is one in that tree, strays otherwise, and never touches the new tree |
| `IpCache.OvertakenIsExported` | src/func_ip.c:152-160 | a run in which such a packet is exported with its entry |
| `IpCache.IpStore.Acct` | src/func_ip.c:129-182 | takes both steps of the protocol in a row, and adds the packet to the counters of its source if it is incoming, else of its destination |
| `IpCache.IpStore.Export` | src/func_ip.c:278-318 | a keyed add to the row of the day, or nothing if a query fails or the day ended between the queries |
| `IpCache.IpStore.TraverseSync` | src/func_ip.c:250-267 | takes one attempt of the protocol after another until an export works, at most four, and adds the entry at most once |
| `IpCache.IpStore.Sync` | src/func_ip.c:184-220 | refuses to run twice at a time, else takes the whole tree away and settles every entry by its own attempts up to the first that works; a key gets its bytes in the row of its day exactly if an attempt works, and no other row changes |
| `LimitQuota.Find` | ipstat_system_group_limit/main.c:521-539 | the first node for the user and group, or none exactly if there is none |
| `LimitQuota.StepKeepsInv` | ipstat_system_group_limit/main.c:232-303 | authorisation, accounting and rollover keep traffic plus pending bytes of a limited node below the bound |
| `LimitQuota.OvershootBound` | ipstat_system_group_limit/main.c:232-303 | with at most k packets of at most m bytes under way, the traffic of a limited node never exceeds max(initial, L - 1 + k * m) in any interleaving |
| `LimitQuota.OvershootIsReached` | ipstat_system_group_limit/main.c:232-303 | for every limit and load some run reaches that bound exactly |
| `LimitQuota.VerdictMeaning` | ipstat_system_group_limit/main.c:232-254 | without a node for user and group the packet goes through; the first node refuses it if blocked, admits it if the limitation is -1, and else admits it exactly below the limit |
| `LimitQuota.GateIsVerdict` | ipstat_system_group_limit/main.c:232-254 | that description determines the verdict |
| `LimitQuota.ChargesIsStep` | ipstat_system_group_limit/main.c:274-289 | "the first node for the packet gains its length unless it is not to be summed" determines the accounting step |
| `LimitTraffic.StepKeepsInv` | ipstat_system_group_limit/main.c:374-415 | every step keeps the balance of days and of months for every node |
| `LimitTraffic.NothingCut` | ipstat_system_group_limit/main.c:402-406 | bytes are cut off a node over a run if and only if some successful update wrote 2^32 or more for it |
| `LimitTraffic.Conservation` | ipstat_system_group_limit/main.c:274-415 | closed days + TDay + in flight + alpha, and the same for months, are all bytes accounted since the insertion of the node, if and only if every amount written fitted 32 bits |
| `LimitTraffic.TruncationLosesBytes` | ipstat_system_group_limit/main.c:402 | two packets between two exports after which 2^32 bytes are accounted and the row got none |
| `LimitHooks.LimitList.FindGroupTraffic` | ipstat_system_group_limit/main.c:521-539 | the search loop returns the first node for user and group, and none only if there is none |
| `LimitHooks.LimitList.Autz` | ipstat_system_group_limit/main.c:232-254 | the verdict on the nodes as described for `LimitQuota.VerdictMeaning`, and so the one of the step system |
| `LimitHooks.LimitList.Acct` | ipstat_system_group_limit/main.c:274-289 | the first node for the packet, and no other, gains its length in traffic and in alpha, unless it is not to be summed; takes the accounting steps of `LimitQuota` and `LimitTraffic` |
| `LimitHooks.LimitList.ClosePeriod` | ipstat_system_group_limit/main.c:452-459 | the traffic of exactly the nodes of the period is 0; takes the rollover step of `LimitQuota` |
| `LimitHooks.LimitList.TaskEveryDay` | ipstat_system_group_limit/main.c:721-759 | the traffic of exactly the daily nodes is 0, TDay of every row is 0 exactly if the transaction committed, and no other column changes; takes the steps of `LimitQuota` and `LimitTraffic` |
| `LimitHooks.LimitList.TaskEveryMonth` | ipstat_system_group_limit/main.c:778-817 | the same for months |
| `LimitHooks.LimitList.SyncTraffic` | ipstat_system_group_limit/main.c:374-415 | takes Copy, Update and Restore of `LimitTraffic` for each node; where the update worked alpha is 0, the row holds the node's traffic and verdict and TDay and TMonth gained alpha in 32 bits; all others and their rows are as before |
| `LimitSync.FingerprintsCollide` | ipstat_system_group_limit/main.c:338 | two different configurations with one fingerprint |
| `LimitSync.FingerprintExample` | ipstat_system_group_limit/main.c:338 | the order in which the query joins the fields |
| `LimitSync.IndexIsFirst` | ipstat_system_group_limit/main.c:501-518 | find_limit returns the first node with the id, and none only if there is none |
| `LimitSync.PassMeaning` | ipstat_system_group_limit/main.c:325-441 | mark, walk and sweep leave the old nodes that have a row, refreshed and in their order, then the new ones in table order, and nothing else |
| `LimitSync.PassIds` | ipstat_system_group_limit/main.c:325-441 | after a pass exactly the ids of the table are cached, except new rows whose query failed |
| `LimitSync.PassAgrees` | ipstat_system_group_limit/main.c:325-641 | the node of a row that could be read has the row's configuration if and only if the fingerprints did not collide; old nodes keep traffic and alpha |
| `LimitSync.PassKeepsUnique` | ipstat_system_group_limit/main.c:325-441 | a pass keeps ids unique |
| `LimitSync.MeetMatchesIff` | ipstat_system_group_limit/main.c:592-641 | when a refreshed node equals its row, with traffic and alpha untouched |
| `LimitSync.LimitTable.FindLimit` | ipstat_system_group_limit/main.c:501-518 | the search loop returns the first node with the id |
| `LimitSync.LimitTable.MarkDelete` | ipstat_system_group_limit/main.c:417-424 | marks every node and changes nothing else |
| `LimitSync.LimitTable.MeetRow` | ipstat_system_group_limit/main.c:345-361 | one turn of the row loop updates the node of the row or appends a new one |
| `LimitSync.LimitTable.DeleteLimit` | ipstat_system_group_limit/main.c:644-661 | removes the node with the id and keeps the others in order |
| `LimitSync.LimitTable.LimitsDelete` | ipstat_system_group_limit/main.c:426-441 | removes exactly the marked nodes and keeps the order |
| `LimitSync.LimitTable.SyncLimits` | ipstat_system_group_limit/main.c:325-372 | the three loops in place compute the pass |
| `Codec.RoundTrip` | src/libxml.c:97-135 | parsing what was printed gives back the first 50 nodes, in order |
| `Codec.ParseIsClean` | src/libxml.c:97-135 | a parse yields at most 50 nodes, and none with '=' in its key or a newline in key or value |
| `Codec.TokensSplit` | src/libxml.c:45-71 | the tokens of any text are those before a delimiter followed by those behind it |
| `Codec.WholeToken` | src/libxml.c:45-71 | a text without delimiters is one token, and the empty text none |
| `Codec.LineMeaning` | src/libxml.c:111-128 | a line without '=' yields no node, and else the text before the first '=' names the text behind it, cut to their buffers |
| `Codec.LineIgnored` | src/libxml.c:97-135 | a line without '=' inside a text of at most 50 lines adds nothing to the result of the parse and disturbs nothing |
| `Codec.RoundTripIff` | src/libxml.c:97-243 | for nodes that fit the buffers, the round trip is complete if and only if there are at most 50 of them and none has '=' in its key or a newline |
| `Codec.GetParamIsFirst` | src/libxml.c:155-172 | the lookup by clipped keys returns the first value stored under the key, cut to the size of the result buffer |
| `Codec.XpathGetParam` | src/libxml.c:155-172 | the search loop computes that lookup |
| `Codec.LookupAfterRoundTrip` | src/libxml.c:155-172 | a lookup in a parsed message returns the first value printed under the key |
| `Codec.Strtok` | src/libxml.c:45-71 | the destructive tokenizer takes exactly the first token off the string and leaves the rest |
| `Codec.ParseArg` | src/libxml.c:73-93 | returns the first max_tok + 1 tokens of the buffer |
| `Codec.XpathInit` | src/libxml.c:97-135 | cutting a copy of the text in place computes the parse |
| `Codec.GetXml` | src/libxml.c:217-234 | the printing loop computes one line per node, in order |

## Left out

- The other list functions of `src/glist.c` (append, insert, remove, reverse, find, copy, free), which would only add easy members; `i_tree_remove`, which is declared but not defined.
- `nnodes`, `height` and `parent` of the tree, which the code never maintains.
- The comparison callbacks of the callers: the tree and the sort are proved for any total preorder, and the padding bytes that `ip_compare` reads are not considered.
- The thresholds by which `IPStat_pool_clean` decides to spawn or cancel: the step system lets any running worker whose handle reads SLEEP be tested for cancelling at any time, and threads be spawned at any time.
- Handle list updates that overlap: linking a handle and a sweep are single steps, one cleaner is assumed, and unsynchronised increments of `total_threads` are taken to be atomic.
- The memset at `src/threads.c:336`, which clears memory beyond the doubled part: new slots count as empty, and they are never read before they are written.
- SERVICE_SQUID, and the external authorisation and accounting hooks.
- What a write into a tree does that `ip_clean` has freed: the bytes count as lost. One accounting and one sync thread are assumed in `IpCache` and `TimeCache`.
- `LimitQuota.OvershootBound`, `LimitTraffic.Conservation`: the 64-bit traffic and alpha counters do not run over in the model.
- The database: tables are maps, every call has an outcome that is a parameter, a failed call changes nothing and a transaction is atomic. SQL text and sessions are not modelled.
- The md5 function itself, which is taken to be injective.
- Masks above 32, for which `compare_with_mask` reads outside the address.
- `strncpy` without a terminator: keys of 49 and values of 254 characters or more, lines of 2047 or more, the copy of the text in `xpath_init` (taken to be terminated), and printing beyond the caller's buffer.
- Unloading and deleting users, rules and limits with pending counters; `LimitTraffic` has no step that removes a node.
- Floating-point prices, scheduling, configuration, sockets, plugins, collectors and the web interface.
