# A verified model of the AIJAK kernel

AIJAK is a small 32-bit kernel. This project models the parts of it that carry state from call to call, in Dafny, and
proves what they keep: the heap and page allocator, the process ring and the spin lock, the network path from the
Ethernet driver's descriptor rings to the ARP cache and the route table, the formatter and scanner, `strtok`, `memcpy`
and the page tables.

Code that updates memory is a method over an `array` or a `class`, proved against a function of the old state; what the
code is for is then proved about those functions, over all inputs and all runs.

| files | what they model |
|---|---|
| `words.dfy` | 8-, 16- and 32-bit words as integer ranges; wrap-around is written out with `%` |
| `heap.dfy`, `kernelheap.dfy` | the row of blocks as a value; the allocator over raw bytes |
| `mutex.dfy` | the lock word, and processes that share it, as atomic steps |
| `tasking.dfy`, `reaper.dfy` | round-robin order as a sequence; the process ring over real links; the reaper's laps of the ring |
| `links.dfy`, `netbuf.dfy` | intrusive circular lists; the buffer pool |
| `checksum.dfy`, `frames.dfy`, `framelaws.dfy` | the Internet checksum; Ethernet, ARP, IPv4 and ICMP echo encoding and decoding; every byte of them at its offset |
| `host.dfy`, `hostlaws.dfy`, `wirelaws.dfy` | one host as the wire sees it: what it sends and remembers, and the 16-entry ARP map behind it; what becomes of every packet; to whom every frame goes |
| `netstate.dfy`, `netstack.dfy` | where every buffer is; the driver, ARP, Ethernet, IPv4 and ICMP code over real buffers |
| `route.dfy`, `matching.dfy` | the route table; which destinations a route matches |
| `format.dfy`, `scan.dfy`, `addr.dfy` | `vsnprintf`, `vsscanf`, textual addresses |
| `formatlaws.dfy`, `addrlaws.dfy` | what printed text denotes, and which texts are addresses, told from the characters |
| `strtok.dfy`, `memutils.dfy`, `paging.dfy` | `strtok`, `memcpy`, page-table construction |

## How the pieces fit

* **Heap.** `HeapSpec` describes the heap as a list of blocks. `KernelHeap.Memory` is the byte array; its invariant says
  that the headers in memory are those of the list. Every run of allocations and frees is covered by `EveryRunIsSafe`.
* **Lock.** `MutexSteps` treats each exchange and each store as one step. Under arbitrary preemption there is mutual
  exclusion but no bound on waiting. When processes switch only at the yields the code makes, a waiter is overtaken at
  most n - 2 times, and that bound is reached.
* **Buffers.** `NetState.Net` is a value that records the place and contents of every buffer and the driver's tables.
  `Inv` is kept by every step, that of a sender as long as nobody else sends while it waits for its descriptor;
  `NetStack.Stack.Core` couples it to memory.
* **Host.** `HostSpec` is what an observer on the wire sees: `Step` says what a host sends and remembers for each packet
  it is given and each frame that arrives, replies to ARP requests and to pings included. `Stack` keeps a ghost log of
  these events; `Logged` says that the cache and every frame ever sent are those of the log, and `SendPacket`, `Ping` and
  `Poll` keep it. Theorems about traces of `HostSpec` are therefore about `Stack`; `Remembers` and `Conserved` are two,
  put in terms of the real table and of the frames handed to the card.
* **Device.** The network card is two steps: `DeviceReceive` fills the next receive buffer through the address in its
  descriptor, `DeviceTransmit` reads the oldest unsent frame through its descriptor and marks it done.
* **Receive ring.** `eth_intel_poll` never stores the replacement buffer in its table. `Replace` shows why that is right:
  the pool is a stack, so releasing a buffer and allocating at once gives the same buffer back.

## Where the code and what is said of it differ

* The comment at src/memory/paging.c:11-14 reserves 0 to 8 MB. The pointer to the next table is a word pointer, so
  `last_page += 4096` skips four pages and the tables reach to 0x1401000, above 20 MB (`TablesAreApart`).
* `memory_used` (src/memory/malloc.c:15) drifts: a reused block is charged its request and credited its size, and 4 bytes
  of every block are never credited (`CounterDrift` says by how much, `OneByteDrifts` shows it after one `malloc` and
  `free`).
* `net_route_find` (src/net/route.c:11-22) looks like longest-prefix match. Whether it is depends on the order of insertion.
  `LookupIsLongestIff` is the exact condition, for every order: of the routes that match a destination only the last one
  added counts, and the answer is right if and only if no earlier match has a larger mask, or the head of the table at that
  time matches too. `InsertFindsLongestIff` is the test before one insertion, `DescendingOrderShadows` an input that fails.
* A packet for an unresolved address is deferred only the first time. `NullAddressIff` says exactly when a packet goes to
  00:00:00:00:00:00 instead, `NullAddressOverTraces` says it over whole traces, `PendingAddressIsUsed` is an input.
  A packet for 0.0.0.0 goes there too, because `arp_lookup` then finds an unused entry; `ZeroAddressOverTraces` says when.
* A packet without a route (src/net/ipv4.c:85-94), or for an unknown address with a full cache (src/net/arp.c:144-162), is
  neither sent nor released: `EthSendIntf` and `Ipv4Send` lose its buffer exactly if nothing goes out. `Poll` loses one for
  every ping it cannot answer, and no other.
* `eth_intel_send` (src/drivers/intel_e1000.c:210-231) remembers its slot and the buffer in it, and yields while it waits.
  If another process sends meanwhile, it then overwrites the other's descriptor and releases the old buffer a second time.
  `FinishKeepsInvIff` says that it keeps the books in order if and only if nobody else has sent; `TwoSendersCollide` is an
  input, in which `ReleasedTwice` finds a buffer in the pool with a reference count of 2^32 - 1.
* `kill` of another process only marks it, and the scheduler (src/tasking.c:293) never looks at the mark: the process keeps
  its turns until the reaper comes to it. `KilledProcessRuns` is an input, `RunsUnlessReapedFirst` the exact condition.
  While no process starts, exits or is killed it is one a caller can test: `MarkedRunsUnlessNext` says that a marked process
  runs again at its turn unless the reaper runs before it and goes on to it next. `EveryMarkedIsReaped` bounds the delay.
* The reaper of src/tasking.c:118-142 keeps a pointer across switches. If it has just unlinked a zombie, the exit of the
  zombie's successor before its next turn takes it out of the ring; if it has only passed a process by, that takes the exit
  of this process and then of its successor. `CursorIsGoodIff` says so for both; `SuccessorOfReapedExits` and
  `NeighboursExit` are inputs. `ReapNext` says what such a reaper does: a zombie it unlinks out of the ring cuts the ring if
  exactly one of the zombie's old neighbours is still in it, and if both are but are no longer neighbours.
* The out-of-memory test of `malloc` adds in 32 bits and is right exactly when the sum does not wrap
  (`GuardIsExactIffNoWrap`); `OverrunIffWraps` says which requests it lets through, `LargestRequestOverruns` is an input.
* `addr_strto_ipv4` accepts more than addresses: the numbers may have any size and a minus sign, or no digits at all, and
  anything may follow them (`AcceptedIff`, `AcceptedValue`); "..." followed by any character is 0.0.0.0.
* A route whose network has a one behind its mask never matches (`StrayBitMatchesNothing`).
* An echo reply (src/net/icmp.c:44-68) repeats its own header instead of the data of the request and is one byte longer, so
  it never returns the data as RFC 792 asks (`EchoDataIsNeverReturned`). Its checksum, identifier and sequence number are
  right (`EchoVerifies`, `PingIsAnswered`).

## Model

| member | source | states |
|---|---|---|
| HeapSpec.EveryRunIsSafe | src/memory/malloc.c:75-130 | over every run of allocations and frees of live blocks the blocks tile the heap without a gap, the counter is what the live blocks account for, and no block moves, splits, merges or changes size |
| HeapSpec.CounterOverRun | src/memory/malloc.c:39-129 | over every run, from requests, pointers and block sizes alone: the counter gains request + 8 for each pointer returned, 4 more if the row grew, and loses block size + 8 for each release, modulo 2^32; the slack gains block size - request for each block used again |
| HeapSpec.LivePayloadsAreDisjoint | src/memory/malloc.c:75-130 | in every reachable heap the payloads are disjoint, in order, and below the end of the heap |
| HeapSpec.MallocSparesLive | src/memory/malloc.c:82-113 | what an allocation returns shares no byte, header included, with a block that was live |
| HeapSpec.GrowsOnlyWhenNothingFits | src/memory/malloc.c:82-129 | a block is added exactly when no free block is large enough and the new one ends below the heap's end |
| HeapSpec.FirstFit | src/memory/malloc.c:82-113 | the block chosen is free and large enough, and no earlier block is |
| HeapSpec.MallocAnswers | src/memory/malloc.c:75-130 | which address is returned: none for 0 bytes, that of the first free block of at least the size, or else the one behind the last block if it ends below the heap's end |
| HeapSpec.LivePointerIsUnique | src/memory/malloc.c:39-44 | an address that may be freed is the payload of exactly one live block |
| HeapSpec.TilesAreDisjoint | src/memory/malloc.c:81-113 | blocks that tile lie between the heap's beginning and the next free address, pairwise disjoint |
| HeapSpec.PagesAreApart | src/memory/malloc.c:19-24 | pages are 4096-aligned and off every header and payload; only the padding of the last block can reach into the first page, by at most 3 bytes |
| HeapSpec.CounterDrift | src/memory/malloc.c:39-127 | with everything but the page map freed, the counter has drifted by 4 bytes per block less the total slack of reuses, modulo 2^32, and is back where it began if and only if these are equal modulo 2^32 |
| HeapSpec.DriftOverRun | src/memory/malloc.c:39-129 | from initialisation to any state with only the page map left: the drift is 4 bytes per block made less what reused blocks were too large, modulo 2^32 |
| HeapSpec.ReuseIsChargedTheRequest | src/memory/malloc.c:99-108 | an input: 100 bytes, freed, and 10 in their place leave the counter 22 higher |
| HeapSpec.OneByteDrifts | src/memory/malloc.c:39-129 | after initialisation, allocating and freeing one byte leaves the counter 4 higher |
| HeapSpec.ReuseKeepsValid | src/memory/malloc.c:99-108 | reusing a block keeps tiling and the accounting law: the slack grows by block size minus request |
| HeapSpec.ExtendKeepsValid | src/memory/malloc.c:121-129 | adding a block keeps tiling and the accounting law |
| HeapSpec.FreeKeepsValid | src/memory/malloc.c:39-44 | freeing a live block keeps tiling and the accounting law |
| HeapSpec.GuardIsExactIffNoWrap | src/memory/malloc.c:116 | the 32-bit out-of-memory test answers the true question if and only if the sum does not wrap |
| HeapSpec.OverrunIffWraps | src/memory/malloc.c:82-128 | a request passes the test and clears memory past its end exactly when no free block fits and its sum wraps to below the heap's end |
| HeapSpec.LargestRequestOverruns | src/memory/malloc.c:116-128 | an input: as long as 7 bytes are left, the largest request gets through in every reachable heap |
| KernelHeap.Memory.constructor | src/memory/malloc.c:17-27 | after initialisation the page map is the first block, every page is free, and the heap is valid |
| KernelHeap.Memory.Walk | src/memory/malloc.c:81-113 | the walk over headers in memory stops at the first block that fits, or lands exactly on `last_alloc` |
| KernelHeap.Memory.Malloc | src/memory/malloc.c:75-130 | for every size: the new heap and result are those of the specification, the returned bytes are zero, and no byte outside the block changes; a request whose sum wraps clears everything behind its header and, from 0, everything up to its end |
| KernelHeap.Memory.Wreck | src/memory/malloc.c:121-129 | what such a request writes: its header, and zeros in all of memory but the bytes between its end and the header |
| KernelHeap.Memory.Allocate | src/memory/malloc.c:75-130 | for every size: every live payload, the page map and all pages keep their contents across an allocation, unless its sum wraps: then every page but at most the first is cleared |
| KernelHeap.Memory.Free | src/memory/malloc.c:39-44 | frees the one block whose payload starts at the address given, and writes one byte |
| KernelHeap.Memory.Pmalloc | src/memory/malloc.c:59-73 | returns the lowest page not held, and 0 exactly when all 32 are held; one byte changes |
| KernelHeap.Memory.Pfree | src/memory/malloc.c:46-57 | for any address: releases the page it lies in and writes one byte; one past the last page, that byte is padding of the page map's block |
| KernelHeap.Memset | src/memory/memutils.c:39-45 | fills exactly the range given |
| CopySpec.CopyIsExactIff | src/memory/memutils.c:6-29 | whatever the bytes are, they arrive intact if and only if the destination does not start inside the source |
| CopySpec.ForwardRepeats | src/memory/memutils.c:19-26 | a destination behind the source's start gets the bytes between the two over and over |
| Memutils.Memcpy | src/memory/memutils.c:6-29 | one odd byte and then pairs copy what a byte-by-byte loop copies; apart ranges give a plain copy |
| MutexSteps.Mutex.Attempt | src/mutex.c:12-18 | one exchange: takes a free lock, leaves a held one as it is, and reports which |
| MutexSteps.Mutex.Unlock | src/mutex.c:24-28 | the lock is free |
| MutexSteps.MutualExclusion | src/mutex.c:6-28 | over every preemptive run in which only holders unlock, at most one process holds the lock, and the word is 1 exactly when one does |
| MutexSteps.UnlockIsSafeIff | src/mutex.c:24-28 | an unlock keeps exclusion if and only if the lock is free or the caller holds it |
| MutexSteps.BoundedBypass | src/mutex.c:6-28 | with a switch after every access, n processes: others acquire the lock at most n - 2 times while one waits |
| MutexSteps.BypassBoundIsReached | src/mutex.c:6-28 | there are runs in which the last of n contenders is overtaken n - 2 times |
| MutexSteps.AllContend | src/mutex.c:6-22 | those runs start from a reachable state: all n contend at once |
| MutexSteps.BoundedWaiting | src/mutex.c:6-28 | if every critical section lasts at most k turns of its holder, a waiter spins at most (n - 1)((k + 1)n + 1) turns |
| MutexSteps.NoBoundUnderPreemption | src/mutex.c:20-27 | without the yields a waiter can be overtaken any number of times |
| MutexSteps.ContendedIsReachable | src/mutex.c:6-22 | the state those runs start from is reachable |
| MutexSteps.TurnShrinksAhead | src/mutex.c:6-28 | no turn puts more processes ahead of a waiter, and an acquisition uses one up |
| RoundRobin.WaitIsBounded | src/tasking.c:278-293 | a process at distance d that stays in the ring runs within d plus the number of adds switches, whatever is added, killed and reaped |
| RoundRobin.GoneForGood | src/tasking.c:89-105 | a process that killed itself or was reaped never runs again |
| RoundRobin.ServedInOrder | src/tasking.c:278-293 | processes run in the order of the ring |
| RoundRobin.NewcomerIsNext | src/tasking.c:234-249 | a new process runs right after the running one, and everyone else behind it in the old order |
| RoundRobin.OthersKeepOrder | src/tasking.c:89-142 | whoever leaves or is reaped, the others keep their order |
| RoundRobin.RunsUnlessReapedFirst | src/tasking.c:42-62 | a process that was killed, being only marked, runs again if and only if the reaper does not come to it before its turn |
| ReaperLaps.MarkedRunsUnlessNext | src/tasking.c:42-62 | while no process starts, exits or is killed: a marked process at distance d runs again within d turns, unless the reaper runs before it and goes on to it next; then it never does |
| ReaperLaps.EveryMarkedIsReaped | src/tasking.c:115-142 | and is out of the ring within n * n turns, n processes |
| ReaperLaps.LapIsLook | src/tasking.c:118-142 | from one turn of the reaper to the next: it has gone one process further, unlinking it if marked, and the others are in their old order |
| Tasking.Scheduler.KilledProcessRuns | src/tasking.c:42-62 | killing the next process and switching makes it the running one, marked as it is |
| RoundRobin.StepKeepsDistinct | src/tasking.c:89-142 | switching, adding, leaving and reaping keep the members distinct |
| RoundRobin.CursorIsGoodIff | src/tasking.c:118-142 | while others run, the pointer the reaper goes on from stays in the ring if and only if: behind an unlinked zombie, the process it leads to does not exit; on a process passed by, this process and then its successor do not both exit |
| RoundRobin.RoundLeavesGoodCursor | src/tasking.c:125-140 | when the reaper yields, whether it has unlinked or passed by, its pointer leads into the ring |
| RoundRobin.NeighboursExit | src/tasking.c:118-142 | three processes for which a reaper that passed one by loses the ring |
| RoundRobin.SuccessorOfReapedExits | src/tasking.c:128-140 | four processes for which a reaper that unlinked one loses it, after one exit |
| Tasking.Scheduler.constructor | src/tasking.c:318-324 | the idle process alone, linked to itself, with pid 1 |
| Tasking.Scheduler.CreateProcess | src/tasking.c:200-231 | a live process whose pid is new to the ring unless the 32-bit counter wraps |
| Tasking.Scheduler.AddProcess | src/tasking.c:234-249 | the new process comes right behind the running one; the ring stays a circle with distinct pids and idle in it |
| Tasking.Scheduler.Schedule | src/tasking.c:278-293 | the next process runs; the ring turns by one |
| Tasking.Scheduler.KillSelf | src/tasking.c:89-105 | the running process leaves the ring and its successor runs; idle is refused |
| Tasking.Scheduler.Kill | src/tasking.c:42-62 | marks exactly the process with that pid, or removes the caller; the search ends |
| Tasking.Scheduler.IsPidRunning | src/tasking.c:179-198 | true exactly when a member of the ring has the pid; the search ends |
| Tasking.Scheduler.ReapNext | src/tasking.c:125-137 | from a pointer into the ring: the cursor moves on and a zombie under it, unless it is running, leaves the ring, everyone else staying in order; from one out of the ring: a live process there is passed by, and unlinking a zombie there keeps the ring whole if both its old neighbours have left, cuts it if one has, and otherwise keeps it whole if and only if they are still neighbours |
| Links.LinkAfter | include/link.h:17-25 | the circle with the link inserted behind a given one |
| Links.LinkBefore | include/link.h:27-35 | the circle with the link inserted in front of a given one |
| Links.LinkRemove | include/link.h:37-45 | the circle without the link, whose pointers are cleared; a link alone may be removed too |
| Links.LinkMoveAfter | include/link.h:47-60 | the link leaves its circle and comes right behind a given one, in the same circle or another |
| Links.LinkMoveBefore | include/link.h:62-75 | the link leaves its circle and comes right before a given one, in the same circle or another |
| Links.EmptyMeansAlone | include/link.h:77-80 | a list head is empty exactly when its circle has no other link |
| Links.RemoveUndoesInsert | include/link.h:17-45 | removing what was just inserted restores the list |
| NetBufs.Pool.Alloc | src/net/buf.c:8-28 | the most recently released buffer, or a new one, with one reference and full headroom |
| NetBufs.Pool.Release | src/net/buf.c:30-38 | the last release, and only that, puts the buffer in front of the free list and lowers the count |
| NetBufs.Pool.Recycle | src/drivers/intel_e1000.c:194-195 | releasing the last reference and allocating gives the same buffer and leaves the pool as it was |
| NetState.EachBufferInOnePlace | src/net/buf.c:8-38 | in every state each buffer is in exactly one of free list, receive slot, transmit slot, deferred slot, a caller's hands or dropped, and its reference count is 1 exactly outside the free list |
| NetState.CountIsOutstanding | src/net/buf.c:26-34 | `g_netBufAllocCount` is the number of buffers outside the free list, modulo 2^32 |
| NetState.UnsentStays | src/drivers/intel_e1000.c:208-231 | until its descriptor reports done a frame stays in its slot's buffer, unreleased and unchanged |
| NetState.SentInOrder | src/drivers/intel_e1000.c:208-231 | what the card has transmitted is, in order and unchanged, the front of what it was handed; at most 8 frames lag behind, none when all descriptors are done |
| NetState.FinishKeepsInvIff | src/drivers/intel_e1000.c:210-231 | for a sender whose wait is over: finishing keeps the invariant if and only if the slot and the buffer in it are the ones it remembers |
| NetState.FinishIsAtomic | src/drivers/intel_e1000.c:210-231 | and is then the release of the old buffer followed by the posting of the new one |
| NetState.TwoSendersCollide | src/drivers/intel_e1000.c:208-231 | an input: from any state with all frames sent, two senders that begin before either finishes, the second after the card has sent the first one's frame, break the invariant |
| NetState.ReleasedTwice | src/drivers/intel_e1000.c:218-219 | and the buffer that was in their slot is released twice: it is in the pool with a count of 2^32 - 1 |
| NetState.RxBuffersApart | src/drivers/intel_e1000.c:337-346 | the 32 receive buffers are distinct and in no other place |
| NetState.HandBackDequeues | src/drivers/intel_e1000.c:199-204 | handing a slot back after any processing of its frame keeps descriptors and buffers in agreement and takes one frame off the queue |
| NetState.GoodFramesArrive | src/drivers/intel_e1000.c:181-197 | of the finished frames exactly those without errors are received |
| NetState.UpcallsArePassedUp | src/drivers/intel_e1000.c:181-197 | and what a poll passes up is what these pass up, in order |
| NetState.CacheSpared | src/net/arp.c:29-142 | steps that leave entries and waiting packets alone do not change the host seen on the wire |
| NetStack.Stack.constructor | src/drivers/intel_e1000.c:337-365 | every receive slot has its buffer and every transmit descriptor is done; the invariant holds |
| NetStack.Stack.AllocBuf | src/net/buf.c:8-28 | a buffer in the caller's hands that was free or did not exist; everything held keeps place and contents |
| NetStack.Stack.FreeBuf | src/net/buf.c:30-38 | the buffer is free again, and nothing else on the host or the wire changes |
| NetStack.Stack.DeviceTransmit | src/drivers/intel_e1000.c:213-226 | the card sends the oldest unsent frame as it was handed over, and reports its descriptor done |
| NetStack.Stack.EthIntelSend | src/drivers/intel_e1000.c:208-231 | when nobody else sends during the wait: the frame is handed to the card once; the buffer is in its slot; only buffers whose frame was sent are released |
| NetStack.Stack.FinishSend | src/drivers/intel_e1000.c:217-231 | when nobody else has sent: the real buffers and descriptors change as `NetState.Finish` says, and the invariant is kept |
| NetStack.Stack.Replace | src/drivers/intel_e1000.c:194-196 | the replacement for a received buffer is that buffer, back at its start, with the books unchanged |
| NetStack.Stack.PollOne | src/drivers/intel_e1000.c:181-205 | one finished frame is taken, received unless it has errors, and its slot handed back, with descriptors and buffers still in agreement and cache and wire those of the log |
| NetStack.Stack.Poll | src/drivers/intel_e1000.c:177-206 | every finished frame is taken once, in ring order; what the host then remembers and has sent, replies included, is what the log of these arrivals says; no buffer is lost or left in hand but those of answers to pings that could not be sent |
| NetStack.Stack.Remembers | src/net/arp.c:114-219 | the address in a table entry is the last one heard since the event that made the entry, null if none was |
| NetStack.Stack.Conserved | src/net/eth.c:71-118 | every packet the host was to send has been handed to the card, waits for an address, or was lost to a full cache, counted with repetitions |
| NetStack.Stack.Signed | src/net/eth.c:100-118 | every frame handed to the card carries this host's hardware address as source |
| NetStack.Stack.SendKeepsRing | src/drivers/intel_e1000.c:208-231 | sending leaves the receive ring in order |
| NetStack.Stack.ArpSend | src/net/arp.c:69-112 | the frame on the wire is the ARP packet, addressed to the hardware address given, with this host's as source and sender, byte by byte; cache and other buffers are as before |
| NetStack.Stack.ArpLookup | src/net/arp.c:114-123 | the first entry for the address |
| NetStack.Stack.ArpAdd | src/net/arp.c:125-142 | the first empty entry is filled; a full cache stays as it is |
| NetStack.Stack.ArpRequest | src/net/arp.c:144-162 | the packet waits in the entry, in place of an older one that is released, and one request goes out; with a full cache it is dropped, its buffer and no other lost |
| NetStack.Stack.ArpRecv | src/net/arp.c:188-248 | cache, frames sent and waiting packets change as the specification of the host says |
| NetStack.Stack.LearnSender | src/net/arp.c:213-229 | a known sender is refreshed and the packet waiting for it sent; no buffer is lost |
| NetStack.Stack.AnswerTarget | src/net/arp.c:231-247 | a packet for this host makes an entry for an unknown sender, and a request is answered |
| NetStack.Stack.EthSendIntf | src/net/eth.c:71-118 | per protocol: the frame sent, deferred or dropped as the specification says; the packet's buffer is lost exactly if nothing goes out |
| NetStack.Stack.EthRecv | src/net/eth.c:44-69 | frames are decoded and dispatched: what is remembered and sent is as specified; malformed and unknown frames change nothing |
| NetStack.Stack.Ipv4Recv | src/net/ipv4.c:12-57 | exactly the bytes between header length and total length reach ICMP, and what it sends is as specified |
| NetStack.Stack.IcmpRecv | src/net/icmp.c:96-123 | an echo request is answered through the route to its sender, everything else ignored |
| NetStack.Stack.BuildEcho | src/net/icmp.c:46-64 | the message built in a new buffer, overlapping copy and checksum included |
| NetStack.Stack.SendEcho | src/net/icmp.c:44-94 | the message goes out as an IPv4 packet; buffers held by others are as before |
| NetStack.Stack.Ping | src/net/icmp.c:70-94 | a process's echo request keeps the invariants, the receive ring and the log |
| NetStack.Stack.SendPacket | src/net/ipv4.c:85-94 | a process's packet keeps the invariants, the receive ring and the log |
| NetStack.Stack.Ipv4SendIntf | src/net/ipv4.c:59-83 | the header with its checksum goes in front of the payload, inside the headroom, and the packet to the next hop |
| NetStack.Stack.Ipv4Send | src/net/ipv4.c:85-94 | through the first matching route, to its gateway or to the destination itself; without a route the packet is dropped, its buffer lost |
| HostSpec.CacheRefinesTable | src/net/arp.c:114-248 | over any trace of sends and arriving frames, pings among them, the cache is the 16-entry map of RFC 826, section "Packet Reception", and its used entries stay a prefix with distinct addresses |
| HostSpec.StepRefines | src/net/arp.c:144-248 | one event moves cache and map alike |
| HostSpec.SendRefines | src/net/eth.c:82-94 | a send to an unknown address makes an entry while there is room; one to 0.0.0.0 makes none |
| HostSpec.EntryIsLastHeard | src/net/arp.c:213-219 | an address once present stays, with the sender address of the last well-formed ARP packet from it |
| HostSpec.EntryIsMadeBy | src/net/arp.c:146-237 | an entry is made exactly, while there is room, by sending to the address, a reply to a ping included, without a hardware address, or by an ARP packet for this host, with the sender's |
| HostSpec.EnteredIsLastHeard | src/net/arp.c:144-219 | from the event that made it, an entry holds the last sender address heard, null if there was none |
| HostSpec.CacheIsLastHeard | src/net/arp.c:114-219 | the same of the cache itself, over any trace |
| HostSpec.InitIsValid | src/net/arp.c:169-178 | the empty cache is the empty map |
| HostSpec.Handshake | src/net/arp.c:69-248 | between two hosts, by the bytes: one request to ff:ff:ff:ff:ff:ff with the asker's address as source and sender; a reply to the asker, even from a full cache, with the replier's address as source and sender and the asker's as target; and the deferred packet sent exactly once, to the address learnt, its slot empty |
| HostSpec.AskParksPacket | src/net/arp.c:144-162 | asking for a new address sends one request to everyone, from this host's address, and parks the packet in an entry of its own |
| HostSpec.AskedReplies | src/net/arp.c:231-246 | the host asked replies whatever its cache holds |
| HostSpec.AskedLearns | src/net/arp.c:231-237 | and learns the asker if it knew it or has room |
| HostSpec.ReplyReleasesPacket | src/net/arp.c:213-228 | the reply releases the parked packet, once |
| HostSpec.SecondReplyIsSilent | src/net/arp.c:222-228 | a second reply sends nothing |
| HostSpec.NullAddressIff | src/net/eth.c:84-117 | a packet is sent to the null address if and only if its next hop is not the broadcast address and the first entry with that address has no hardware address; for a next hop other than 0.0.0.0 that means: is in the table without one |
| HostSpec.NullAddressOverTraces | src/net/eth.c:84-117 | over any trace, for a next hop other than 0.0.0.0: if and only if the next hop was entered and nothing, or null, was last heard from it since |
| HostLaws.ZeroAddressOverTraces | src/net/arp.c:114-248 | over any trace from a new host, for 0.0.0.0: if and only if the table is not full, and since its last entry was made no ARP packet came from 0.0.0.0 or the last one had a null sender |
| HostSpec.PendingAddressIsUsed | src/net/eth.c:88-117 | an input: a second packet to a pending address |
| HostLaws.EveryPacketIsSomewhere | src/net/eth.c:71-118 | over any trace, for each packet: as often as it was to be sent or waited at first, it is on the wire, waits, or was lost to a full cache; so none is sent twice or made up |
| HostLaws.PingIsAnswered | src/net/icmp.c:44-123 | between two hosts, whatever the padding: a ping is answered with its identifier and sequence number, and one byte more |
| WireLaws.PacketEvent | src/net/eth.c:71-118 | a packet to be sent makes one frame: itself, to everyone if its next hop is the broadcast address or else to the address the cache has; or a request to everyone for its next hop; none if that is unknown and the cache is full |
| WireLaws.ArpEvent | src/net/arp.c:188-248 | an ARP packet makes exactly: the packet that waited for its sender, to that sender, and an answer to the sender if and only if it asks for this host's address |
| WireLaws.OnlyPingsAreAnswered | src/net/icmp.c:96-123 | an arriving frame other than ARP makes the host send a packet if and only if it is a ping, by its bytes, to whose sender there is a route; the packet then goes to the next hop of that route |
| WireLaws.EveryFrameIsSigned | src/net/eth.c:100-118 | over any trace every frame carries this host's hardware address as source |
| WireLaws.SendPacketHandsOn | src/net/ipv4.c:59-94 | a packet goes to the next hop of its route in a header from this host to the destination; without a route nothing is sent |
| WireLaws.PingComesBack | src/net/icmp.c:44-123 | between two hosts that know each other, by the bytes: a ping reaches the other host, and its answer comes back to this one with the same identifier and sequence number and good checksums |
| ArpCache.AddView | src/net/arp.c:125-142 | adding an unknown address extends the map while there is room and changes nothing otherwise |
| ArpCache.UpdateView | src/net/arp.c:216-219 | refreshing a known entry updates one key |
| ArpCache.ViewSize | src/net/arp.c:29 | the map has as many addresses as the cache has used entries |
| Frames.EncapsulationRoundTrip | src/net/ipv4.c:12-83 | for any payload that fits and any link padding, decoding the frame sent gives back addresses, protocol and exactly the payload |
| FrameLayout.ArpFrameLayout | src/net/arp.c:69-112 | the 42 bytes of an ARP frame at their offsets, as RFC 826 lays them out |
| FrameLayout.IpLayout | src/net/ipv4.c:59-83 | the bytes of an IPv4 header at their offsets: version and length, total length, no fragment, 64 hops, protocol, good checksum, source, destination |
| FrameLayout.EchoLayout | src/net/icmp.c:46-64 | an echo message byte by byte: its data is its own header over and over, with the checksum still zero, and one stray byte |
| FrameLayout.DeliveredIff | src/net/ipv4.c:12-57 | which packets reach ICMP, by their bytes, and what of them: what lies between header and options and the total length; the more-fragments flag is not looked at |
| FrameLayout.ArpDecodeIff | src/net/arp.c:188-211 | which packets `arp_recv` takes, by their bytes; the address lengths are not looked at |
| FrameLayout.EchoDecodeIff | src/net/icmp.c:96-110 | what `icmp_recv` takes for a ping, and what it reads from it |
| FrameLayout.SnapRoundTrip | src/net/eth.c:20-35 | a frame with a length and an RFC 1042 header is decoded to its type and payload; any other 802.2 header is refused |
| FrameLayout.PlainFrame | src/net/eth.c:20-41 | a type above 1500, or a frame too short for such a header, is taken as it is |
| Frames.EthRoundTrip | src/net/eth.c:11-42 | `eth_decode` finds the type and header length `eth_send_intf` wrote |
| Frames.ArpRoundTrip | src/net/arp.c:69-211 | `arp_recv` decodes what `arp_send` built, whatever follows it |
| Frames.IpRoundTrip | src/net/ipv4.c:12-83 | `ipv4_recv` decodes the header `ipv4_send_intf` wrote |
| Frames.IpHeaderVerifies | src/net/ipv4.c:73-78 | every header sent passes the checksum test |
| Frames.EchoVerifies | src/net/icmp.c:50-64 | every echo message sent passes the checksum test |
| Frames.EchoCarries | src/net/icmp.c:50-57 | an echo message carries its type, identifier and sequence number |
| Frames.EchoIsUnderstood | src/net/icmp.c:96-123 | `icmp_recv` reads these from a request, and one byte of data more than was asked for |
| Frames.EchoDataIsNeverReturned | src/net/icmp.c:46-60 | no reply carries the data of its request |
| Checksum.ChecksumIsRfc1071 | src/net/checksum.c:3-32 | up to 131074 bytes the little-endian sum, folded and swapped, is the big-endian one's-complement checksum of RFC 1071, sections 1 and 2(B) |
| Checksum.StoredChecksumVerifies | src/net/ipv4.c:73-78 | storing the checksum in a zeroed field at an even offset makes the checksum of the whole 0, odd lengths included |
| Checksum.ZeroMeansAllOnes | src/net/icmp.c:39 | a receiver gets 0 exactly when the one's-complement sum is all ones |
| Checksum.TwoFoldsSuffice | src/net/checksum.c:27-28 | two folds reduce every 32-bit sum to its one's-complement residue |
| Checksum.WordSumBound | src/net/checksum.c:14-21 | below the limit the 32-bit accumulator cannot wrap |
| Checksum.ExactIffWithinLimit | src/net/checksum.c:3-32 | all messages of a length get the checksum of RFC 1071 if and only if the length is at most 131074 |
| Checksum.NetChecksum | src/net/checksum.c:3-32 | the loop, the folds and the swap compute that checksum |
| RouteSpec.BuildConserves | src/net/route.c:24-46 | over every run of insertions no route is lost or made up |
| RouteSpec.BuildHeadIsLargest | src/net/route.c:37-45 | over every run of insertions the head has the largest mask |
| RouteSpec.InsertIsPush | src/net/route.c:37-45 | a route goes to the head or right behind it, depending only on the head's mask |
| RouteSpec.LookupIsLongestIff | src/net/route.c:11-46 | for every order of insertion and every destination with a match: the lookup is a longest match if and only if no route added before the last match has a larger mask and matches, or the head of the table at that time matches |
| RouteSpec.TableFindsLongestIff | src/net/route.c:11-46 | every lookup is a longest match if and only if that holds for every destination |
| RouteSpec.HeadIsLastLargest | src/net/route.c:37-45 | the head is the last route added among those with the largest mask |
| RouteSpec.InsertLongestAtIff | src/net/route.c:37-45 | what one insertion does to the lookup of one destination, exactly |
| RouteSpec.InsertFindsLongestIff | src/net/route.c:37-45 | an insertion keeps all lookups longest matches if and only if the route becomes the head, or has the largest mask wherever it matches and the head does not |
| RouteSpec.InsertKeepsSortedIff | src/net/route.c:37-45 | an insertion keeps a table sorted by mask if and only if the second route's mask is not larger |
| RouteSpec.SortedFindsLongest | src/net/route.c:11-22 | in a sorted table the route found has the longest matching mask |
| RouteSpec.AscendingFindsLongest | src/net/route.c:11-46 | routes added shortest mask first: nothing is found exactly when nothing matches, and otherwise the longest match of RFC 1812, section 5.2.4.3 |
| RouteSpec.LongestIsLongestPrefix | src/net/route.c:41 | comparing contiguous masks as little-endian words orders them by prefix length |
| RouteSpec.DescendingOrderShadows | src/net/route.c:37-45 | added /24, /16, /8, the table answers with the /8 for an address in the /16 |
| RouteSpec.Find | src/net/route.c:11-22 | the first route that matches; none exactly when no route does |
| RouteMatching.MatchesBitByBit | src/net/route.c:16 | a route matches if and only if in each of the 32 bit positions the network has a one exactly where destination and mask both have one |
| RouteMatching.MatchesByPrefix | src/net/route.c:16 | for a prefix mask of p bits and a network without bits behind it: if and only if the first p bits of destination and network agree, the matching of RFC 1812, section 5.2.4.3 |
| RouteMatching.StrayBitMatchesNothing | src/net/route.c:16 | a network with a one behind its mask matches nothing |
| RouteMatching.MasksAreReversed | src/net/route.c:41 | masks are compared with the last byte counting most |
| RouteMatching.NextHopIff | src/net/route.c:11-51 | the next hop is the gateway of the first route that matches, or the destination if that is 0.0.0.0; none if none matches |
| Routes.RouteTable.Find | src/net/route.c:11-22 | the loop over the linked table finds that route |
| Routes.RouteTable.Add | src/net/route.c:24-46 | the linked table is the old one with the route inserted; a missing gateway is 0.0.0.0 |
| Routes.RouteTable.NextHop | src/net/route.c:48-51 | the gateway of the route found, or the destination when it has none |
| Format.Vsnprintf | src/stdlib/format.c:103-216 | for every well-formed format and every size, 0 included: exactly the first size - 1 characters of the unlimited text, whose meaning is `FormatShows` and `DirectiveDenotes`, a terminator if there is room, nothing outside, and the number stored |
| Format.Formatter.OutC | src/stdlib/format.c:33-37 | a character is stored while there is room and counts as printed in any case |
| Format.Formatter.OutS | src/stdlib/format.c:39-53 | the padded string |
| Format.Formatter.OutDec | src/stdlib/format.c:55-71 | the padded decimal numeral |
| Format.Formatter.OutHex | src/stdlib/format.c:73-95 | the padded hexadecimal numeral |
| Format.Formatter.Digits | src/stdlib/format.c:57-92 | digits written backwards into the scratch buffer are the numeral in base 10 or 16, and fit |
| Format.ParseDirective | src/stdlib/format.c:121-150 | flag, width and type of a directive |
| Format.PrintDirective | src/stdlib/format.c:151-211 | what each type prints, before truncation |
| FormatSpec.FieldLength | src/stdlib/format.c:39-95 | a field has the larger of width and content; the sign of %d and the 0x of %p come on top |
| FormatLaws.NumeralDenotes | src/stdlib/format.c:57-92 | the digits printed in base 10 or 16, read by their place values, give the number |
| FormatLaws.NumeralLooks | src/stdlib/format.c:57-92 | they are digits of the base, letters in the case asked for, without a superfluous zero |
| FormatLaws.DirectiveDenotes | src/stdlib/format.c:151-211 | what %s, %u, %d, %x, %X and %p contribute: a sign or 0x, then the text or digits that read the argument in one run, with padding on one side only, up to the width |
| FormatLaws.CharacterShows | src/stdlib/format.c:151-211 | %c contributes its character and no padding, %% a percent sign, an unknown type nothing |
| FormatLaws.DirectiveIsRead | src/stdlib/format.c:121-150 | a flag, a width and a type written behind a percent sign are parsed as these |
| FormatLaws.FormatShows | src/stdlib/format.c:103-216 | a format made of plain characters and directives prints them in order, each directive with the next argument |
| FormatSpec.NumeralLength | src/stdlib/format.c:57-67 | a number below base^k has at most k digits |
| Scanner.Vsscanf | src/stdlib/format.c:227-293 | the numbers read, the return value, and the bytes left by storing them in order through possibly overlapping pointers |
| Scanner.ReadNumber | src/stdlib/format.c:259-279 | sign, digits modulo 2^32, and where reading stops |
| ScanSpec.LiteralIsMet | src/stdlib/format.c:239-249 | a literal of the format has to be met: any other character ends the scan, and so does the end of the input |
| ScanSpec.BlanksAreSkipped | src/stdlib/format.c:236-238 | a blank of the format stands for all the blanks that come next |
| ScanSpec.CountMeans | src/stdlib/format.c:227-293 | the return value is -1 if the input ends before the first number, else the number of values |
| ScanSpec.StoredWord | src/stdlib/format.c:281-282 | a number is stored as a little-endian word |
| ScanSpec.DecimalRoundTrip | src/stdlib/format.c:176-282 | %d reads back every 32-bit number %d printed |
| Addr.AddressRoundTrip | src/net/addr.c:29-50 | every address survives being printed and read |
| Addr.NumbersAreCut | src/net/addr.c:38-50 | four dotted numbers of any size are accepted and cut to bytes |
| AddrLaws.AcceptedIff | src/net/addr.c:38-50 | a text is accepted if and only if it begins with four number fields, an optional minus sign and any digits each with something left to read, with a dot between them |
| AddrLaws.AcceptedValue | src/net/addr.c:38-50 | and then the address is the four numbers modulo 256, in that order |
| AddrLaws.NamesAreRefused | src/net/addr.c:38-50 | a host name is refused, as is the empty text |
| Addr.OverlappingStores | src/net/addr.c:40-41 | four 4-byte stores one byte apart leave the right low bytes |
| Addr.DottedIsPrinted | src/net/addr.c:29-32 | what "%d.%d.%d.%d" prints |
| Addr.DottedIsRead | src/net/addr.c:41 | and that it reads that back |
| Addr.AddrIpv4ToStr | src/net/addr.c:29-32 | 16 characters always hold the address and its terminator; less truncates it |
| Addr.AddrStrToIpv4 | src/net/addr.c:38-50 | the address read, or none unless four numbers were read |
| Addr.EthIsPrinted | src/net/addr.c:25-28 | always 17 characters, two hexadecimal digits for each byte |
| AddrLaws.EthTextDenotes | src/net/addr.c:25-28 | read two hexadecimal digits at a time, the text gives back the six bytes in order |
| AddrLaws.EthTextLooks | src/net/addr.c:25-28 | colons between the pairs, letters in lower case |
| Strings.Strlen | src/string.c:5-11 | the position of the first terminator |
| Strings.Count | src/string.c:34-45 | the first pass counts one token more than delimiters |
| Strings.Cut | src/string.c:47-57 | the second pass writes exactly as many tokens as the first made room for, and overwrites exactly the delimiters |
| Strings.Strtok | src/string.c:29-60 | each token, read as a C string in the changed buffer, is the piece between two delimiters |
| SplitSpec.JoinRestores | src/string.c:29-60 | joining the tokens with the removed delimiters restores the string |
| SplitSpec.TokenIsDelimiterFree | src/string.c:47-57 | no token contains a delimiter |
| SplitSpec.TokensAreTerminated | src/string.c:51-53 | each token ends in a terminator inside the buffer |
| SplitSpec.CutsAreDelimiters | src/string.c:36-43 | the cuts are all the delimiters, from left to right |
| Paging.PageTables.Init | src/memory/paging.c:40-53 | the walk of sections 4.3 and 4.6 of the Intel SDM, volume 3A, maps every 32-bit virtual address to itself, for reading and writing, with and without CR4.PSE; memory outside the tables is unchanged |
| Paging.PageTables.MapVirtualToPhys | src/memory/paging.c:16-28 | one table and one directory entry are written, nothing else |
| Paging.MapTranslates | src/memory/paging.c:16-28 | for any two addresses: the 4-MB region of the first leads to the pages from the second on, wrapping at 2^32 |
| Paging.MapSparesOthers | src/memory/paging.c:16-28 | every other region keeps its translation |
| Paging.NextRegion | src/memory/paging.c:51-52 | after k rounds exactly the first k regions are mapped, to themselves; the others fault |
| Paging.TablesAreApart | src/memory/paging.c:43-52 | the 1024 tables and the directory are page-aligned and disjoint, and no entry looks like a 4-MB page |

## Left out

- Inline assembly, stack frames, interrupt gates, port and MMIO access, PCI, ATA, keyboard, display, shell: hardware plumbing and user interface.
- The wait loop of `eth_intel_send` as liveness: `NetStack.Stack.AwaitDescriptor` is the state in which it has ended. After eight sends without a completion the tail equals the head and a real card stops, so progress needs at most 7 frames outstanding.
- `_sleep` and the floating-point tick count.
- The pool over the real heap: `net_release_buf` keeps a buffer on the free list and also passes it to `free`; the network model takes that `free` for a no-op and `malloc` for a new object.
- A buffer and its link are one object with the packet memory as a sequence, because the link is the first member of the structure; the TCP fields `seq` and `flags` are not modelled, though the headroom counts their bytes. The tables of the driver and the ARP cache are sequences held in fields.
- HeapSpec.EveryRunIsSafe: callers free only live blocks other than the page map, as the code assumes.
- KernelHeap.Memory.Malloc: running out of memory is the outcome `Panic`, not an endless loop; a request whose size test wraps is the outcome `Overrun`, and of its clearing of up to 4 GB the model has the part that lies in the memory modelled; the heap is given up after it.
- MutexSteps.BoundedBypass: the retry loop of `mutex_lock` is a sequence of steps, not one method, and the number of processes is fixed.
- Tasking.Scheduler.ReapNext: one round of `jack_the_ripper`. The memory of an exited process, which the code frees and goes on reading, stays readable here; once a zombie out of the ring has cut it, nothing more is promised of the ring.
- ReaperLaps.EveryMarkedIsReaped: the reaper is present and its cursor leads into the ring, and nobody starts, exits or is killed meanwhile.
- Switches and interrupts inside a call: heap, network and formatter calls run to completion here. The one exception is a sender that waits, `NetState.FinishKeepsInvIff`; the calls of `NetStack.Stack` are those in which nobody else sends during the wait.
- Tasking.Scheduler.CreateProcess: pids are unique until the 32-bit counter wraps; stack and registers are not modelled.
- Tasking.Scheduler.KillSelf: killing idle is an outcome, not a panic loop.
- NetStack.Stack.LearnSender: the entry is emptied before its deferred packet is sent, not after; on that path nothing reads it in between.
- NetStack.Stack.EthRecv: a received frame starts behind the headroom of its buffer, which is what keeps an echo reply inside its own.
- NetStack.Stack.Poll: the log runs between changes of the route table.
- NetStack.Stack.BuildEcho: the last byte of an echo message is what the buffer held before; it is a parameter of the event.
- NetStack.Stack.Ipv4Send: one interface; the interface pointer of routes and cache entries is not modelled.
- NetStack.Stack.DeviceReceive: the card fills descriptors in order, stops one short of the tail, and writes no more than fits behind the headroom of a buffer.
- NetStack.Stack.DeviceTransmit: the card finishes descriptors in order.
- Format.Vsnprintf: formats that end inside a directive, widths beyond 2^31 and missing arguments are undefined in C and excluded by `WellFormed`; a string argument is its characters up to the terminator.
- ScanSpec.DecimalRoundTrip: signed overflow, undefined in C, is two's-complement wrap here, which is what makes the least number work.
- Addr.AddrStrToIpv4: the four one-byte variables are modelled with the three bytes behind them that the stores overwrite.
- Paging.PageTables.Init: the machine has memory up to 0x1401000; `paging_enable` loads the directory and sets the paging bit and is not modelled.
- `strncmp` and `strprefix` (they compare one character too many), `addr_strto_ipv4_port` (it tests for four of five fields), `itoa` at the least integer, `str_backspace`, the VFS (nothing is ever mounted).
- `memset16` (the loop of `memset` over words) and the functions that only print: they keep no state.
