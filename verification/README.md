# Page-replacement simulators: FIFO and LRU with dirty-page write-back

This project models the two page-replacement simulators of `Trabalho2.py`,
`fifo` and `lru`, and proves properties of them.

Each simulator takes a trace of `(page, access)` pairs and a number of
frames. It processes the accesses in order and returns the number of page
faults and the number of disk writes. Along the way it keeps:

- the resident pages;
- the set of dirty pages;
- for LRU only, the index of each page's last access.

Every access has one of three outcomes:

- **Hit**: the page is already resident. A write access marks it dirty.
- **Fault with a free frame**: the page is loaded.
- **Fault on full frames**: a victim is evicted. FIFO evicts the earliest-admitted page. LRU evicts the resident page with the oldest last access. A dirty victim costs one disk write.

After a fault, a write access marks the loaded page dirty.

The model is organised as follows:

- `paging.dfy` (module `Paging`): pages, accesses (`R` and `W`), traces, and facts about frame sequences.
- `fifo.dfy` (module `Fifo`) and `lru.dfy` (module `Lru`): each has the engine's state (`FifoState` or `LruState`) and a step function `Step` for one access. `Run` folds `Step` over a trace.
- Each of those two files also has a method (`Fifo.Fifo`, `Lru.Lru`). It runs the source's loop over local variables and is proved to return `Run`'s counters.
- The properties are `ensures` clauses of `Step` and `Run`, plus lemmas about `Run`.
- `lru_stack.dfy` (module `LruStack`): the inclusion (stack) property of LRU. The pages LRU holds with `k` frames are always the top `k` entries of the trace's recency stack. Consequently, LRU never faults more often when frames are added.

One might expect that adding frames never increases faults for either policy. This holds for LRU (`LruStack.FaultsMonotone`) but not for FIFO. `Fifo.BeladyAnomaly` proves that, on a 12-access trace, FIFO faults 9 times with 3 frames and 10 times with 4 frames (Belady's anomaly). The FIFO code is a correct FIFO; the expectation is what fails.

Access tags: the source compares the tag with `'W'` and nothing else. So `R` stands for every tag other than `'W'`.

Frame count:

- The frame count is a `nat`.
- With 0 frames, the source fails on the first access: `popleft` on an empty deque in `fifo`, and `min` of an empty list in `lru`.
- The methods and `Run` therefore require at least one frame unless the trace is empty. On an empty trace, both return `(0, 0)` for any frame count.

## Model

| member | source | states |
|---|---|---|
| Paging.RemoveAt | Trabalho2.py:74 | removing the victim's entry keeps the other residents in order; on a duplicate-free list, the result lacks exactly the removed page |
| Fifo.Step | Trabalho2.py:15-38 | one FIFO access keeps capacity, no duplicates and dirty ⊆ resident. A fault is counted exactly when the page was not resident. The page is resident afterwards, and dirty after a write. A hit, even a write hit, keeps the queue order. A cold fault appends at the tail. A full fault evicts the head (the earliest admitted) and appends at the tail. At most one write-back per access, and only for a dirty victim on a full fault. Dirtiness is set only by a write and cleared only by eviction |
| Fifo.Run | Trabalho2.py:12-42 | after any trace, the FIFO invariant holds and 0 ≤ writes ≤ faults ≤ number of accesses |
| Fifo.Fifo | Trabalho2.py:5-47 | the loop returns exactly the fault and write counts of `Run` on the trace, so disk writes ≤ page faults ≤ trace length |
| Fifo.ColdStart | Trabalho2.py:21-26 | when the distinct pages fit in the frames, FIFO holds exactly the trace's pages, faults once per distinct page and writes nothing; on the empty trace, both counts are 0 |
| Fifo.DiskWritesBound | Trabalho2.py:30-37 | FIFO disk writes plus pages still dirty never exceed the number of write accesses |
| Fifo.ReadOnlyTraceNeverWrites | Trabalho2.py:17-18 | under FIFO, a trace with no write access causes no disk write |
| Fifo.ScenarioA | Trabalho2.py:24-37 | on reads of 1, 2, 3, 1 and a write of 4, with 3 frames, FIFO ends with frames [2, 3, 4], page 4 dirty, 4 faults and 0 writes: page 1 is evicted though it was just used |
| Fifo.BeladyThreeFrames | Trabalho2.py:24-34 | FIFO with 3 frames faults 9 times on reads of 1,2,3,4,1,2,5,1,2,3,4,5 |
| Fifo.BeladyFourFrames | Trabalho2.py:24-34 | FIFO with 4 frames faults 10 times on the same trace |
| Fifo.BeladyAnomaly | Trabalho2.py:138-145 | across the frame-count sweep, FIFO's fault count is not monotone: 4 frames fault more often than 3 on that trace |
| Lru.LeastRecent | Trabalho2.py:73 | `min` by last-access key (-1 for a page never accessed): the result indexes a resident page whose key is ≤ every other resident's key and < the keys of all residents before it (the first minimum, as `min` returns) |
| Lru.VictimIsUnique | Trabalho2.py:73 | when every resident page has a stamp and stamps are distinct, the chosen victim's stamp is strictly below every other resident's: no tie occurs |
| Lru.Hit | Trabalho2.py:60-64 | a hit keeps frames and counters, marks the page dirty on a write, stamps it with the current index, and keeps the LRU invariant |
| Lru.Load | Trabalho2.py:66-71 | a fault with a free frame appends the page, counts one fault, and keeps the LRU invariant |
| Lru.Evict | Trabalho2.py:72-83 | a fault on full frames removes the least recently used page and appends the new one. It counts one fault, plus one write exactly when the victim was dirty. The victim leaves the dirty set. The LRU invariant is kept |
| Lru.Step | Trabalho2.py:60-86 | one LRU access keeps capacity, no duplicates, dirty ⊆ resident, every resident stamped and stamps distinct and below the next index. The page is stamped with the current index. A fault is counted exactly when the page was not resident. A hit keeps the frames. A full fault evicts the resident page whose stamp is strictly the oldest. At most one write-back, only for a dirty victim. Dirtiness is set only by a write and cleared only by eviction |
| Lru.Run | Trabalho2.py:57-89 | after any trace, the LRU invariant holds with stamps below the trace length, and 0 ≤ writes ≤ faults ≤ number of accesses |
| Lru.Lru | Trabalho2.py:49-94 | the loop returns exactly the fault and write counts of `Run` on the trace, so disk writes ≤ page faults ≤ trace length |
| Lru.RecencyIsLastAccess | Trabalho2.py:86 | after any trace, a page has a stamp iff the trace touched it; the stamp is the index of an access to that page, and no later access touches it |
| Lru.ColdStart | Trabalho2.py:66-71 | when the distinct pages fit in the frames, LRU holds exactly the trace's pages, faults once per distinct page and writes nothing; on the empty trace, both counts are 0 |
| Lru.DiskWritesBound | Trabalho2.py:76-83 | LRU disk writes plus pages still dirty never exceed the number of write accesses |
| Lru.ReadOnlyTraceNeverWrites | Trabalho2.py:62-63 | under LRU, a trace with no write access causes no disk write |
| Lru.ScenarioB | Trabalho2.py:72-80 | on a write of 1, reads of 2, 3, 1 and a write of 4, with 3 frames, LRU evicts page 2, not page 1 (loaded first but used later). It ends with frames [1, 3, 4], pages 1 and 4 dirty, 4 faults and 0 writes |
| Lru.ScenarioC | Trabalho2.py:76-78 | with page 2 written instead of read, the same eviction flushes a dirty page: 4 faults and 1 disk write |
| LruStack.StepOnStack | Trabalho2.py:60-86 | one LRU access keeps the state on the recency stack: residents = the top `cap` entries, stamped pages = all entries, stack ordered by stamps. Central case: the evicted page is the `cap`-th entry |
| LruStack.RunOnStack | Trabalho2.py:57-89 | after any trace, the resident pages of LRU with `cap` frames are the top `cap` entries of the trace's recency stack |
| LruStack.Misses | Trabalho2.py:60-66 | the reference fault count: an access misses when its page is outside the top `k` of the stack before it; at most one miss per access |
| LruStack.FaultsAreMisses | Trabalho2.py:66 | LRU's fault count equals the reference stack-miss count, for every trace and frame count |
| LruStack.Inclusion | Trabalho2.py:69-80 | the pages LRU holds with `cap` frames are a subset of those it holds with any larger frame count, after every trace |
| LruStack.FaultsMonotone | Trabalho2.py:138-145 | across the frame-count sweep, LRU never faults more often with more frames, on any trace |

## Left out

- The `log` list, its messages and the `verbose` printing (`Trabalho2.py:13-45`, `58-92`): diagnostic text with no effect on the returned counts.
- `generate_locality_sequence_with_rw` (`Trabalho2.py:97-116`): its output depends on a pseudo-random generator and on floating-point thresholds. Its inner loop at line 103 never ends when the working set is larger than the page range.
- The `__main__` block (`Trabalho2.py:118-205`): a parameter sweep, tables, plots and demo runs. This is I/O with no replacement logic of its own. Its sweep over frame counts is what `Fifo.BeladyAnomaly` and `LruStack.FaultsMonotone` speak about.
- Negative frame counts: the frame count is a `nat`. The source fails on a negative count exactly as on 0: the first access reaches `popleft` or `min` of an empty container.
- Page identities are modelled as `int`. The source accepts any hashable value; only equality is ever used.
- In-place container updates: the deque and list of the source are modelled as sequences that the loop reassigns. These containers are local to one call, so no aliasing is lost.
