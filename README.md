# EECS 678 projects in Dafny

This project models five parts of the EECS 678 coursework in Dafny and proves
properties of them:

- **The buddy allocator** (project3/buddy.c). The arena is 1 MiB (`MAX_ORDER`
  20) and is split into 256 pages of 4 KiB (`MIN_ORDER` 12). The page table is
  an array of `Page` entries. The free lists are a sequence of page indices per
  order, head first. Addresses are byte offsets from the start of the arena.
  The class `Buddy.BuddyAllocator` holds the allocator's state. Its methods
  follow `buddy_init`, `buddy_alloc`, `buddy_free` and `buddy_dump` step by
  step. Each method is proved against a specification in `BuddyState`:
  - the pure functions `FirstFree`, `OrderFor`, `AllocLists` and `Coalesce`;
  - the partition invariant `Inv`, which says the free and allocated blocks
    are disjoint, aligned, cover the arena, and that no two free buddies of the
    same order coexist.

  A ghost sequence `level` records the order of the block each page belongs to.
- **The priority queue** (libpriqueue/libpriqueue.c). The class
  `PriorityQueue.PriQueue` stores the queue's elements as a sequence, head
  first, and keeps `size` beside it. `Offer` repeats the node-by-node swap loop
  of `priqueue_offer`. It is proved against `Insert`, a stable insertion before
  the first element that compares greater.
- **The scheduler's core assignment** (libscheduler/libscheduler.c).
  `Scheduler.JobScheduler` holds an array of optional jobs (`None` means an idle
  core) and the priority queue, ordered by the scheme's comparer.
- **The shell's text handling** (project1/quash.c):
  - `trim` works in place on a NUL-terminated `array<char>`;
  - `parse_cmd` is a `strtok` loop, proved against `Runs`, which splits a
    string into maximal runs of non-delimiters;
  - `Classify` is the dispatch chain of `handle_cmd`;
  - `echo` and `set` are modelled with the environment passed as a map.
- **lab8** (lab8/main.c): the two `qsort` comparators and the two sorts of
  `main`. `qsort` is specified by its outcome: the result is sorted and is a
  permutation of the input. An insertion sort implements that specification.

Where the code and its comments disagree, the model follows the code:
- `priqueue_peek` returns the head node, not the element;
- `trim` leaves leading whitespace in the caller's buffer;
- the second sort in lab8 orders priorities ascending, not descending;
- `buddy_alloc` never sets `block_size_order` on the right halves it splits
  off;
- `buddy_free` sets the freed base page's order to -1.

## Model

| member | source | states |
|---|---|---|
| BuddyAddress.PageToAddr | project3/buddy.c:28 | `PAGE_TO_ADDR` gives a page-aligned offset, inside the arena for a page index in 0..255 |
| BuddyAddress.AddrToPage | project3/buddy.c:31 | `ADDR_TO_PAGE` gives the page whose 4 KiB span holds the offset |
| BuddyAddress.BuddyAddr | project3/buddy.c:34-35 | `BUDDY_ADDR` flips bit o of the offset: it adds `2^o` when that bit is clear and subtracts it when the bit is set |
| BuddyAddress.BuddyPage | project3/buddy.c:34-35 | the same in page indices: the buddy page is `Span(o)` pages up or down, by bit `o - 12` of the page index |
| BuddyAddress.PageAddrRoundTrip | project3/buddy.c:29-32 | `ADDR_TO_PAGE(PAGE_TO_ADDR(i)) == i` for every page index |
| BuddyAddress.AddrPageRoundTrip | project3/buddy.c:29-32 | `PAGE_TO_ADDR(ADDR_TO_PAGE(a)) == a` for a page-aligned offset |
| BuddyAddress.BuddyAddrInvolution | project3/buddy.c:35-36 | `BUDDY_ADDR` is an involution: the buddy of the buddy is the block itself |
| BuddyAddress.BuddyAddrInArena | project3/buddy.c:35-36 | for o < 20, the buddy of an order-o aligned offset in the arena is in the arena, is aligned the same way, and is a different block |
| BuddyAddress.BuddyPageForm | project3/buddy.c:35-36 | the XOR flips bit o: the buddy is the next block up when that bit is clear and the next block down when it is set, and page and byte forms agree |
| BuddyAddress.XorPow2 | project3/buddy.c:35 | XOR with `1 << s` adds `1 << s` when bit s is clear and subtracts it when bit s is set |
| BuddyAddress.MergeBase | project3/buddy.c:261-267 | a block and its buddy are the two halves of the parent block that starts at the lower of the two |
| BuddyAddress.BuddyAtTop | project3/buddy.c:231-245 | at order 20 the buddy of any arena page lies past the arena, so it is on no list |
| BuddyState.Partition | project3/buddy.c:51-74 | under the invariant, blocks sharing a page are the same block, and every free block lies inside the arena |
| BuddyState.Coverage | project3/buddy.c:51-74 | every page belongs to a current block of its recorded level |
| BuddyState.RemoveMember | project3/buddy.c:270 | `list_del` of a listed page keeps the list duplicate-free and removes only that page |
| BuddyState.TakeHead | project3/buddy.c:174-177 | taking the head of a non-empty list and recording its order keeps the invariant |
| BuddyState.SplitStep | project3/buddy.c:185-196 | one split pushes the right half onto the lower list, gives the left half the lower order, and keeps the invariant |
| BuddyState.MergeStep | project3/buddy.c:259-270 | merging with a free buddy happens below order 20, removes the buddy from its list, continues from the lower address one order up, and keeps the invariant |
| BuddyState.PushStep | project3/buddy.c:247-257 | pushing a block whose buddy is not free and setting its order to -1 restores the full invariant |
| BuddyState.FirstFree | project3/buddy.c:153-156 | the first non-empty list at or above the requested order, or none when all are empty |
| BuddyState.OrderFor | project3/buddy.c:140-145 | the smallest order in 12..20 whose block holds the request |
| BuddyState.Coalesce | project3/buddy.c:223-271 | coalescing ends at an order in [o, 20], pushes exactly one block on that order's list, and leaves the lists below o and above the final order unchanged |
| BuddyState.CoalesceContains | project3/buddy.c:259-267 | the block coalescing inserts is aligned to its order and contains the freed block |
| BuddyState.AllocLists | project3/buddy.c:169-192 | the lists after an allocation of order k from list i: list i loses its head (the block taken), and for k < i list k gains the last right half `b + Span(k)` at its head. Its partner is `RoundTripFrom`/`AllocFreeRoundTrip`, which prove that `Coalesce` undoes it |
| BuddyState.AllocListsShape | project3/buddy.c:169-192 | every list j from k to i - 1 gains exactly the right half at `b + Span(j)`, at its head, and every list outside k..i is unchanged |
| BuddyState.AllocListsStep | project3/buddy.c:185-192 | each split level pushes the right half at `left + 2^k/PAGE_SIZE` onto list k |
| BuddyState.RoundTripFrom | project3/buddy.c:169-271 | coalescing the left block of a split puts every right half back and restores the taken block, in place and order |
| BuddyState.AllocFreeRoundTrip | project3/buddy.c:127-272 | `buddy_free` of the block `buddy_alloc` just returned restores every free list exactly |
| BuddyState.InitInv | project3/buddy.c:87-111 | the state `buddy_init` builds satisfies the partition invariant |
| Buddy.BuddyAllocator.Init | project3/buddy.c:87-111 | every page has `index == i` and `block_addr == PAGE_TO_ADDR(i)`; page 0 has order 20 and the others -1; only list 20 is non-empty, holding page 0 |
| Buddy.BuddyAllocator.Alloc | project3/buddy.c:127-206 | NULL with nothing changed for a size outside 1..2^20 or when no list from the order up is non-empty; otherwise returns the head of the first non-empty list, split down with the lists as in `AllocLists`; the returned offset is aligned to `2^o` and its page records order o; the invariant is kept |
| Buddy.BuddyAllocator.TakeBlock | project3/buddy.c:169-178 | removes the head of list i and records order i on that page |
| Buddy.BuddyAllocator.SplitBlock | project3/buddy.c:185-196 | pushes the right half onto list k and sets only the left page's order to k |
| Buddy.BuddyAllocator.Free | project3/buddy.c:217-272 | starting from the page's recorded order, the free lists become `Coalesce`'s, only the inserted block's page changes (to -1), that block contains the freed one, and the invariant is kept |
| Buddy.BuddyAllocator.FindBuddy | project3/buddy.c:232-245 | the list walk stops at the buddy if it is listed, else at the last entry, and returns NULL for an empty list; an address match means a page match |
| Buddy.BuddyAllocator.PushBlock | project3/buddy.c:247-257 | sets the order to -1 and pushes the block onto the head of its list |
| Buddy.BuddyAllocator.MergeBuddy | project3/buddy.c:259-270 | continues from `min(addr, buddy)` with the buddy removed from its list |
| Buddy.BuddyAllocator.Dump | project3/buddy.c:279-291 | one pair (free count, `(1<<o)/1024`) for each order 12..20, changing nothing |
| Buddy.BuddyAllocator.AllocThenFree | project3/buddy.c:127-272 | `buddy_alloc` followed by `buddy_free` of its result leaves the free lists as they were |
| Buddy.InitThenDump | project3/buddy.c:279-291 | right after `buddy_init`, the dump reports one free 1024K block and zero blocks at every other order |
| Buddy.PageAligned | project3/buddy.c:196-200 | the returned offset is a multiple of `2^o` and the block fits in the arena |
| PriorityQueue.InsertPos | libpriqueue/libpriqueue.c:57-87 | the insertion index: every element before it compares `>= 0` against ptr, and the element at it compares `< 0` |
| PriorityQueue.InsertPosUnique | libpriqueue/libpriqueue.c:57-87 | that index is the only position with those two properties |
| PriorityQueue.Insert | libpriqueue/libpriqueue.c:58-87 | the new queue has one more element, the same elements plus ptr, with ptr at the insertion index |
| PriorityQueue.InsertKeepsSorted | libpriqueue/libpriqueue.c:58-76 | under a consistent comparer, an ordered queue stays ordered after an offer |
| PriorityQueue.NeverAheadAppends | libpriqueue/libpriqueue.c:58-87 | a comparer that never returns a negative value appends at the end |
| PriorityQueue.PriQueue.Init | libpriqueue/libpriqueue.c:20-25 | an empty queue of size 0 that uses the given comparer |
| PriorityQueue.PriQueue.Offer | libpriqueue/libpriqueue.c:35-90 | size grows by 1; ptr is placed before the first element that compares greater, with all other elements in order; the returned index is ptr's position (0 on an empty queue) |
| PriorityQueue.PriQueue.ShiftIn | libpriqueue/libpriqueue.c:61-74 | the swap loop inserts the carried element at the node where it started |
| PriorityQueue.PriQueue.Peek | libpriqueue/libpriqueue.c:101-108 | non-NULL exactly when size != 0, and then it is the head node |
| PriorityQueue.PriQueue.Poll | libpriqueue/libpriqueue.c:120-136 | NULL with nothing changed on an empty queue; otherwise returns and removes the head, size drops by 1, and the rest keeps its order |
| PriorityQueue.PriQueue.At | libpriqueue/libpriqueue.c:148-167 | the element at the index for 0 <= index < size, and NULL otherwise |
| PriorityQueue.PriQueue.Size | libpriqueue/libpriqueue.c:227-230 | the number of queued elements |
| Scheduler.FcfsIsFifo | libscheduler/libscheduler.c:16-19 | with FCFScompare every offer appends, so the queue is FIFO |
| Scheduler.FcfsCompare | libscheduler/libscheduler.c:16-19 | FCFScompare is always positive, so a new job never goes ahead (`FcfsIsFifo` draws the FIFO consequence) |
| Scheduler.SjfCompare | libscheduler/libscheduler.c:21-24 | SJFcompare is negative exactly when a's `arrivalTime` field (the running time) is smaller, and 0 exactly when they are equal |
| Scheduler.PriCompare | libscheduler/libscheduler.c:26-29 | PRIcompare is negative exactly when a's priority value is smaller, and 0 exactly when they are equal |
| Scheduler.PpriCompare | libscheduler/libscheduler.c:31-39 | PPRIcompare is lexicographic on (priority, arrivalTime): negative exactly when a comes first, 0 exactly when both fields are equal |
| Scheduler.OrderingSchemesConsistent | libscheduler/libscheduler.c:21-39 | the SJF, PRI and PPRI comparers are consistent orders |
| Scheduler.FirstIdle | libscheduler/libscheduler.c:164-176 | the lowest idle core, or -1 exactly when every core is busy |
| Scheduler.LowestPriCore | libscheduler/libscheduler.c:136-145 | the first core whose job has the maximal priority value |
| Scheduler.JobScheduler.StartUp | libscheduler/libscheduler.c:53-83 | records the core count, marks every core idle, and makes an empty queue with the scheme's comparer |
| Scheduler.JobScheduler.IdleCoreFinder | libscheduler/libscheduler.c:164-176 | returns `FirstIdle` of the cores |
| Scheduler.JobScheduler.LowestPriorityCore | libscheduler/libscheduler.c:136-145 | the search loop returns `LowestPriCore` and that core's priority |
| Scheduler.JobScheduler.NewJob | libscheduler/libscheduler.c:106-162 | the lowest idle core takes the job and the queue is unchanged; else under PPRI, the job preempts the first maximal-priority core if its priority value is lower, and the preempted job is queued; else the job is queued and -1 returned with the cores unchanged; a non-FCFS queue stays sorted |
| Scheduler.JobScheduler.JobFinished | libscheduler/libscheduler.c:192-209 | clears the core; if the queue is non-empty, the head is polled onto that core and its pid returned; otherwise -1 and the core stays idle |
| Scheduler.JobScheduler.QuantumExpired | libscheduler/libscheduler.c:225-228 | always -1, changing nothing |
| Quash.Strlen | project1/quash.c:695 | the index of the first NUL |
| Quash.TrimEndCuts | project1/quash.c:694-702 | trailing-whitespace removal cuts only whitespace, ends on a non-space, and is empty exactly for a blank string |
| Quash.TrimEndIdempotent | project1/quash.c:694-702 | trimming twice trims no more |
| Quash.TrimEndAt | project1/quash.c:694-702 | the cut falls right after the last non-space |
| Quash.Trim | project1/quash.c:684-704 | a blank string is left unchanged; otherwise the only byte written is a NUL right after the last non-space, so leading whitespace stays |
| Quash.FindBack | project1/quash.c:694-699 | the back pointer stops on the last non-space, never before the first non-space |
| Quash.StrTok | project1/quash.c:67-80 | a token is non-empty, holds no delimiter, and the next call resumes past it |
| Quash.RunEnd | project1/quash.c:67-80 | the first delimiter at or after the start, or the end of the string |
| Quash.RunsShape | project1/quash.c:67-80 | no run is empty and none holds a delimiter |
| Quash.RunsEmpty | project1/quash.c:67-80 | there are no runs exactly when every character is a delimiter |
| Quash.StrTokRuns | project1/quash.c:67-80 | each `strtok` call takes exactly the first maximal run off what is left |
| Quash.WordsNone | project1/quash.c:62-86 | there are no tokens exactly when the line holds only spaces |
| Quash.FirstWord | project1/quash.c:67 | the first token is the first maximal run of non-spaces |
| Quash.WordsShape | project1/quash.c:67-80 | no token is empty or holds a space, and no later token holds '=' |
| Quash.ParseCmd | project1/quash.c:62-86 | returns the tokens in input order, and the count grows by their number |
| Quash.Classify | project1/quash.c:616-676 | each action is chosen exactly when its own test holds and every earlier test fails, in the order of the chain: no tokens, exit/quit, a trailing `&` (an error when it is the only token), `<` or `>`, the pipe character (an error with at most 2 tokens), pwd, cd, echo, set, jobs, kill (an error unless there are exactly 3 tokens), and otherwise execute |
| Quash.HandleCmd | project1/quash.c:609-677 | on the raw line: nothing is done exactly when it holds only spaces; the shell exits exactly when its first run of non-spaces is "exit" or "quit"; redirection needs a `<` or `>` in the line, a pipe a `|`, and a builtin or a program run needs none of the three |
| Quash.EchoedAt | project1/quash.c:157-173 | each argument is printed in its place: exactly `$HOME` and `$PATH` as the variable's value, anything else as is, each followed by a space |
| Quash.EchoLine | project1/quash.c:157-173 | the output is `args[1..]` substituted, each followed by a space, then a newline |
| Quash.SetVariable | project1/quash.c:181-202 | fewer than 3 tokens, or a name other than PATH or HOME, is refused with the environment unchanged; otherwise the variable gets the value, nothing else changes, and "already set" is reported exactly when the value was already there |
| Quash.SetThenEcho | project1/quash.c:157-202 | after an accepted `set`, `echo` prints the new value for that variable |
| Lab8.CompareArr | lab8/main.c:29-32 | compareArr is negative, 0 or positive exactly as a's arrival time is below, equal to or above b's |
| Lab8.ComparePri | lab8/main.c:41-49 | comparePri is lexicographic on (priority, arrTime), ascending, and returns 0 only when both fields are equal |
| Lab8.ComparatorsConsistent | lab8/main.c:29-49 | both comparators are consistent orders |
| Lab8.SortedByPriority | lab8/main.c:85-86 | after the second sort, priorities ascend, and arrival times ascend within a priority |
| Lab8.QSort | lab8/main.c:77-86 | afterwards the array is sorted by the comparer and is a permutation of its old contents |
| Lab8.SiftDown | lab8/main.c:77-86 | one insertion pass extends the sorted prefix by one element and keeps the multiset |
| Lab8.SortProcesses | lab8/main.c:76-86 | after the first sort the array is a permutation with arrTime non-decreasing; after the second it is a permutation sorted by (priority, arrTime) |

## Left out

- The bytes of the arena: `g_memory` is never read or written, so only offsets are modelled.
- The intrusive list library `list.h`: it is not part of this model. Each free list is a sequence of page indices with head insertion (`list_add`) and removal of the first match (`list_del`).
- The `USE_DEBUG` printing of project3/buddy.c. `buddy_dump` returns its counts instead of printing them.
- Buddy.BuddyAllocator.Free: requires the base of a live allocation. The C code trusts its argument, and on a bad address it indexes `free_area[-1]`.
- Buddy.BuddyAllocator.Alloc: the recursion `buddy_alloc(1 << (size_order + 1))` is written as a descending split loop. Each recursive call finds the same list, so the steps and their order are the same.
- Scheduler.JobScheduler.StartUp: requires FCFS, SJF, PRI or PPRI. For PSJF and RR the C code never initialises the queue.
- `scheduler_clean_up`, `scheduler_show_queue`, `priqueue_print` and the three average-time functions: they are empty, only print, or return 0.0.
- PriorityQueue.PriQueue.At: the "Invalid index" message `priqueue_at` prints for an index outside 0..size-1 is not modelled. Only its NULL result is.
- `priqueue_remove` and `priqueue_remove_at`: they are stubs that return 0.
- `priqueue_destroy`, `malloc` and `free`: these are memory management only.
- C `int` overflow in the subtracting comparators (`SJFcompare`, `PRIcompare`, `PPRIcompare`, `compareArr`, `comparePri`): integers are unbounded here.
- Lab8.QSort: only sortedness and permutation are stated. `qsort` promises no stability, and an insertion sort stands in for the library's algorithm.
- Quash.EchoLine: for an unset HOME or PATH the model prints "(null)", as glibc's `printf` does for a NULL `%s` argument. In C, passing NULL to `%s` is undefined behaviour, and other C libraries may do something else.
- Quash.SetVariable: an unset HOME or PATH counts as different from the new value. The C code would pass NULL to `strcmp`.
- Quash.Trim: the `if (cmd)` NULL test is not modelled; the buffer always exists.
- Characters in project1/quash.c: a character is a Unicode scalar here, not a C `char` byte. `isspace` on a negative `char` (a byte above 127 where `char` is signed) is undefined behaviour in C; the model classes such characters as non-space.
- The shell's processes and I/O in project1/quash.c: `fork`/`execv`/`pipe`/`dup2`, redirection, `cd`/`pwd`, jobs, `kill`, `get_path_exec` and the `readline` loop.
- lab8 file reading and printing; lab1/a.c; the root-level draft `buddy.c` and `quash.c`.
