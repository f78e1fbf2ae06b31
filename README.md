# HYBRIDJOIN stream–relation join, in Dafny

This project models the join engine of a retail ETL pipeline. The `HybridJoin` class
(`hybrid_join.py`) enriches a stream of transaction tuples with master data:

- Stream tuples wait in a bounded buffer of 5000.
- Up to `w` of them are moved into a slot-chained hash table keyed on `Customer_ID`. Their keys
  join a FIFO key queue and a key map.
- The oldest queued key selects a "disk partition": the first `vP` rows of the in-memory relation
  with that key.
- Each partition row probes the table. A matching stream tuple is merged with the row (relation
  fields win), appended to the join output and deleted from the table, and `w` grows by the
  number of matches.

The roles are reversed compared with the textbook algorithm. The stream is hashed and the
relation probes it, so each stream tuple is joined at most once, with the first relation row
that carries its key. There is no spilling to disk.

The model also covers two pieces of the ETL driver (`main.py`):

- the customer × product relation that the join probes with;
- the calendar attributes (quarter, season, weekend flag) stored for each transaction date.

Files:

- `records.dfy` (module `Records`): records as maps from field name to value, the join key
  `str(r.get('Customer_ID', ''))` and the dictionary merge `{**a, **b}`.
- `hybrid_join_spec.dfy` (module `HybridJoinSpec`): the engine's fields as one value `Engine`.
  Each step of the algorithm is a function of that value: loading, the oldest key, the partition,
  probing, one main-loop iteration, and the main loop with fuel. The module also defines the
  engine invariant `Inv`.
- `hybrid_join_lemmas.dfy` (module `HybridJoinLemmas`): what the steps promise, and that each
  step keeps `Inv`.
- `hybrid_join.dfy` (module `HybridJoinEngine`): the class `HybridJoin`, whose fields its methods
  update in place with the source's own loops. Each method is proved to leave the fields equal
  to the matching step function applied to the old fields. Each public method (the constructor,
  `AddStreamTuple`, `Stop`, `LoadStreamTuples`, `LoadDiskPartition`, `ProbeAndJoin`, `Iteration`
  and `Execute`) also keeps `Inv`. The loop-body helpers (`LoadTuple`, `ScanRelation`,
  `ProbeWith`, `JoinChain`, `DeleteMatched`, `ProbeDiskBuffer`) work between two states of `Inv`
  and promise only the step.
- `etl.dfy` (module `Etl`): the date attributes as functions, and the relation build as a method
  with the source's nested loops.

The engine invariant `Inv` says:

- the buffer holds at most 5000 tuples;
- every stored slot is in range and non-empty, and holds only tuples whose key hashes to it;
- (tuples in the table) + `tuples_joined` = `tuples_processed`;
- `|join_output|` = `tuples_joined`;
- every key in the key map is queued, maps to a stored tuple with that key, and every stored
  tuple's key is in the map;
- (tuples in the table) + `w` ≤ `hS`.

The main loop is `execute`'s `while`, run for at most `fuel` iterations. Its `break`s become the
`stop` result of one iteration. `Execute` reports whether the loop ended of its own accord
within the fuel.

The loop need not end. `RunStalls` proves this: once no free-slot credit is left (`w == 0`), an
oldest key that has no relation row stays at the front, and so does a stale duplicate key whose
map entry is gone. Then, while the stream is open or tuples are still buffered (`Running`), every
iteration loads nothing, reloads the same partition (so `partitions_processed` rises), probes with
it, matches nothing and dequeues nothing, for every amount of fuel. The table need not be full
for this. Every load sets `w` to 0 however few tuples it moved (`LoadDropsCredit`), and only
matches raise it again.

An empty key at the front of the queue (a tuple without `Customer_ID`) stalls the loop too
(`RunEmptyKeyStalls`). Each iteration takes the `not oldest_key` branch: it loads what it can but
loads no partition and probes nothing, so `partitions_processed` stays put and the empty key is
never dequeued. While the stream is open the loop goes round for every amount of fuel and joins
nothing. Once the stop flag is set it ends at once, after at most one more load, and every tuple
still in the table stays unjoined.

## Model

| member | source | states |
|---|---|---|
| Records.KeyOf | hybrid_join.py:118 | the join key is `""` when the record has no `Customer_ID`, the field itself when it is a string, and the decimal numeral when it is a non-negative integer |
| Records.DigitsInjective | hybrid_join.py:118 | different non-negative integers have different numerals, so `str()` keeps integer ids apart |
| Records.IntegerKeys | hybrid_join.py:184-191 | a stream tuple with a string id and a relation row with integer id n share a key exactly when the string is n's numeral, and rows with different integer ids never share a key |
| Records.Text | hybrid_join.py:118 | no contract of its own; `KeyOf` states what it gives for a missing, string or non-negative integer id, and `DigitsInjective` that distinct naturals give distinct texts |
| Records.Merge | hybrid_join.py:193-196 | the merged record has the fields of both records; the second record's value wins where both have a field, and the first record's other values are kept |
| Records.MergeKeepsKey | hybrid_join.py:191-196 | a record merged from a stream tuple and a relation row with the same key keeps that key |
| HybridJoinSpec.Put | hybrid_join.py:75-90 | the tuple is accepted exactly when fewer than 5000 are buffered, and then joins the back of the buffer with every other field unchanged; `PutPreservesInv` adds that `Inv` is kept |
| HybridJoinSpec.Slot | hybrid_join.py:92-102 | `hash(key) % hS` lies in `0 .. hS-1` |
| HybridJoinSpec.Replace | hybrid_join.py:202-214 | after storing a filtered chain, that slot reads as the new chain, every other slot is unchanged, and the slot is absent exactly when the chain is empty |
| HybridJoinSpec.Without | hybrid_join.py:202-205 | the list comprehension keeps exactly the tuples whose key differs from the probe key, and is no longer than the chain |
| HybridJoinSpec.LoadOne | hybrid_join.py:115-129 | no contract of its own; `LoadOneCore` states that one pass keeps the slot, count and key-map invariant and stores one more tuple, and `LoadNChains` and `LoadNQueue` where the tuple and its key go |
| HybridJoinSpec.LoadCount | hybrid_join.py:113-132 | the number of tuples loaded is at most `w` and at most the buffer size, and equal to one of them: min(w, buffer size) |
| HybridJoinSpec.Load | hybrid_join.py:104-138 | loading leaves `w == 0`, drops exactly the first `LoadCount` tuples from the buffer, counts them in `tuples_processed`, and leaves the disk buffer, output and other counters alone; `LoadPreservesInv`, `LoadNQueue`, `LoadNChains` and `LoadDropsCredit` state where the tuples go |
| HybridJoinSpec.OldestKey | hybrid_join.py:140-149 | there is an oldest key exactly when the key queue is non-empty, and it is the queue's front; `OldestKeyIsFifo` relates it to the keys that were loaded |
| HybridJoinSpec.Partition | hybrid_join.py:159-170 | the partition holds at most `vP` rows, each a relation row with key k; `PartitionShape` and `PartitionSaturated` state that it is the first min(vP, n) such rows in relation order |
| HybridJoinSpec.LoadN | hybrid_join.py:113-132 | after n loading passes the buffer has lost exactly its first n tuples and `tuples_processed` has grown by n; `w`, the disk buffer, the output and the other counters are untouched |
| HybridJoinSpec.JoinRow | hybrid_join.py:184-199 | one disk row emits no more records than its chain holds; `JoinRowMerges` states that they are the chain's tuples with its key, merged with the row, in chain order |
| HybridJoinSpec.ProbeRow | hybrid_join.py:184-214 | no contract of its own; `ProbeRowCore`, `ProbeRowChains` and `ProbeRowCounts` state that one row's probe keeps `Inv`, filters every chain by the row's key and appends its slot's matches |
| HybridJoinSpec.RemoveFirst | hybrid_join.py:208-210 | `deque.remove(k)` drops one occurrence of k: the result's multiset is the queue's minus `{k}` |
| HybridJoinSpec.ProbeRows | hybrid_join.py:183-214 | probing only appends to the join output: the old output is a prefix, it grows by exactly the increase of `tuples_joined`, and the buffer, `w`, disk buffer and other counters are unchanged |
| HybridJoinSpec.Probe | hybrid_join.py:173-220 | no contract of its own; `ProbePreservesInv` states that it keeps `Inv`, raises `w`, `tuples_joined` and the output length by the same amount, and leaves no stored tuple with a disk row's key |
| HybridJoinSpec.Iterate | hybrid_join.py:235-264 | no contract of its own; `IteratePreservesInv`, `IterateJoinsOldestKey`, `IterateStalls` and `EmptyKeyStalls` state what one iteration keeps, joins and fails to do |
| HybridJoinSpec.Run | hybrid_join.py:235-264 | no contract of its own; `RunPreservesInv`, `RunExit`, `RunStalls` and `RunEmptyKeyStalls` state that the loop keeps `Inv` and the old output, how it ends, and that it need not end |
| HybridJoinLemmas.OccupiedSlots | hybrid_join.py:51 | with no empty slot stored, the number of stored slots (`len(hash_table)`) is at most the number of stored tuples |
| HybridJoinLemmas.SplitLength | hybrid_join.py:190-205 | a chain splits into the tuples with the probe key and those without it, and no tuple is lost |
| HybridJoinLemmas.SplitByKey | hybrid_join.py:190-205 | the split is a permutation: the two parts together have the chain's multiset |
| HybridJoinLemmas.JoinRowMerges | hybrid_join.py:190-199 | one disk row emits one record per stream tuple in the chain with its key, in chain order, each the tuple merged with the row |
| HybridJoinLemmas.KeyAbsent | hybrid_join.py:190-205 | a chain with no tuple of the key is left as it is and yields no match |
| HybridJoinLemmas.WithoutThenKey | hybrid_join.py:183-205 | deleting the keys of successive disk rows one at a time equals deleting them all at once |
| HybridJoinLemmas.JoinAfterRemoval | hybrid_join.py:183-205 | once a key's tuples are deleted, a later disk row with that key joins nothing, so a stream tuple is joined at most once |
| HybridJoinLemmas.RemoveFirstAt | hybrid_join.py:208-210 | `deque.remove(k)` deletes exactly the first occurrence of k and keeps the rest in order |
| HybridJoinLemmas.RemoveFirstKeeps | hybrid_join.py:208-210 | removing k leaves every other queued key in the queue |
| HybridJoinLemmas.LoadNQueue | hybrid_join.py:125 | loading appends the keys of the loaded tuples to the back of the key queue, in arrival order |
| HybridJoinLemmas.LoadNChains | hybrid_join.py:115-122 | loading appends to the end of each slot's chain exactly the loaded tuples that hash to it, in arrival order |
| HybridJoinLemmas.LoadOneCore | hybrid_join.py:115-129 | one loading pass keeps the slot, count and key-map invariant and stores one more tuple |
| HybridJoinLemmas.InsertSlots | hybrid_join.py:121-122 | appending a tuple to its own slot keeps every stored slot non-empty and holding only tuples of its own slot |
| HybridJoinLemmas.InsertKeys | hybrid_join.py:121-126 | storing a tuple, queueing its key and mapping the key to it keeps the key map consistent with the queue and the table |
| HybridJoinLemmas.LoadNCore | hybrid_join.py:113-132 | n loading passes keep the invariant and store exactly n more tuples |
| HybridJoinLemmas.LoadPreservesInv | hybrid_join.py:104-138 | `_load_stream_tuples` keeps `Inv`, leaves `w == 0`, and stores and counts exactly min(w, buffer size) more tuples |
| HybridJoinLemmas.LoadDropsCredit | hybrid_join.py:113-135 | when the buffer holds fewer than `w` tuples, loading empties it and still sets `w` to 0: the table plus the credit shrinks by exactly the unused credit |
| HybridJoinLemmas.OldestKeyIsFifo | hybrid_join.py:140-149 | after loading, the oldest key is the old queue's front, or else the first loaded tuple's key, or none when nothing is queued |
| HybridJoinLemmas.ProbeRowChains | hybrid_join.py:184-214 | probing with one row leaves every slot's chain equal to the old chain without the row's key |
| HybridJoinLemmas.ProbeRowCounts | hybrid_join.py:184-214 | one row's probe appends its slot's matches to the output, raises `tuples_joined` by their number, and keeps (stored + joined) fixed |
| HybridJoinLemmas.ProbeRowKeys | hybrid_join.py:184-214 | one row's probe keeps the key map consistent with the queue and the table |
| HybridJoinLemmas.DeleteKeyQueue | hybrid_join.py:208-210 | after removing a mapped key from the queue and the map, every mapped key is still queued |
| HybridJoinLemmas.DeleteKeyMap | hybrid_join.py:202-210 | after deleting a key's tuples and its map entry, every remaining map entry still names a stored tuple with its key |
| HybridJoinLemmas.DeleteKeyTable | hybrid_join.py:202-210 | after the deletion, every stored tuple's key is still in the map |
| HybridJoinLemmas.ProbeRowSlots | hybrid_join.py:202-214 | the filtered chain is stored back only when non-empty, so no empty slot is ever stored |
| HybridJoinLemmas.ProbeRowCore | hybrid_join.py:184-214 | one row's probe keeps the invariant, filters every chain by the row's key and appends the slot's matches |
| HybridJoinLemmas.ProbeRowsCore | hybrid_join.py:183-214 | probing with all disk rows keeps the invariant, deletes every tuple whose key is any row's key, keeps the other tuples in order, and appends each row's first matches |
| HybridJoinLemmas.ProbePreservesInv | hybrid_join.py:173-220 | `_probe_and_join` keeps `Inv`; the increases of `w`, `tuples_joined` and the output length are equal; the output only grows at its end; no stored tuple keeps a disk row's key |
| HybridJoinLemmas.FirstJoinsSingleKey | hybrid_join.py:183-205 | when all disk rows carry one key, the output is the chain's tuples of that key merged with the first row only |
| HybridJoinLemmas.PartitionShape | hybrid_join.py:159-170 | the partition is the first min(vP, n) rows of the relation with the key, in relation order |
| HybridJoinLemmas.WithKeyPrefix | hybrid_join.py:163-168 | the matches in a prefix of the relation are a prefix of all its matches |
| HybridJoinLemmas.PartitionSaturated | hybrid_join.py:167-168 | once vP matches are found the scan can stop: the rest of the relation does not change the partition |
| HybridJoinLemmas.ScanStep | hybrid_join.py:163-168 | each pass of the scan keeps the buffer equal to the matches so far, or to the full partition once it reaches vP |
| HybridJoinLemmas.ScanEnd | hybrid_join.py:163-168 | whether the scan breaks or reaches the end, the buffer is the partition |
| HybridJoinLemmas.PutPreservesInv | hybrid_join.py:75-90 | adding a tuple fails exactly when the buffer holds 5000, and otherwise appends it at the back and keeps `Inv` |
| HybridJoinLemmas.SignalStopPreservesInv | hybrid_join.py:70 | raising the stop flag keeps `Inv` |
| HybridJoinLemmas.InitialInv | hybrid_join.py:41-70 | the freshly initialised engine satisfies `Inv` |
| HybridJoinLemmas.ProbeStep | hybrid_join.py:173-220 | a probe keeps `Inv` and keeps the old output as a prefix |
| HybridJoinLemmas.InvWithPartition | hybrid_join.py:159-170 | loading a partition keeps `Inv` |
| HybridJoinLemmas.IteratePreservesInv | hybrid_join.py:235-264 | one iteration keeps `Inv` and keeps the old output as a prefix |
| HybridJoinLemmas.ProbeOneKey | hybrid_join.py:183-214 | probing a partition of one key emits that key's stored tuples merged with the first row, and empties that key from its slot |
| HybridJoinLemmas.ProbePartition | hybrid_join.py:255-259 | the same for the oldest key's partition as `_load_disk_partition` builds it |
| HybridJoinLemmas.IterateJoinsOldestKey | hybrid_join.py:235-259 | when the oldest key has relation rows, the iteration joins all of its stored tuples with its first row and removes them from the table |
| HybridJoinLemmas.WithSingleKey | hybrid_join.py:202-205 | deleting the keys of rows that all carry k is deleting k |
| HybridJoinLemmas.ProbeRowUnchanged | hybrid_join.py:184-214 | a row whose key is unmapped and unmatched in its slot leaves the engine unchanged |
| HybridJoinLemmas.ProbeRowNoMatch | hybrid_join.py:184-214 | under the invariant, a row whose key is not in the key map changes nothing |
| HybridJoinLemmas.ProbeRowsNoMatch | hybrid_join.py:183-214 | disk rows whose keys are all unmapped change nothing |
| HybridJoinLemmas.IterateStalls | hybrid_join.py:235-264 | with `w == 0` and an oldest key that is stale or has no relation row, an iteration only reloads the same partition and does not break |
| HybridJoinLemmas.LoadIdle | hybrid_join.py:113-135 | with `w == 0`, loading changes nothing |
| HybridJoinLemmas.ProbeNoMatch | hybrid_join.py:173-220 | a disk buffer with no mapped key leaves the engine unchanged, `w` included |
| HybridJoinLemmas.RunStalls | hybrid_join.py:235-264 | in that stalled state the main loop never ends of its own accord, whatever the fuel |
| HybridJoinLemmas.EmptyKeyStalls | hybrid_join.py:240-253 | with the empty key at the front, an iteration only loads, keeps the empty key at the front, appends nothing, loads no partition, and breaks exactly when the stop flag is set |
| HybridJoinLemmas.RunEmptyKeyStalls | hybrid_join.py:235-253 | with the empty key at the front, the loop never ends of its own accord while the stream is open and joins nothing; with the stop flag set and tuples buffered it breaks after one load |
| HybridJoinLemmas.RunExit | hybrid_join.py:235-272 | a loop left when the fuel ran out or the condition failed ends in that state, and the output only grew |
| HybridJoinLemmas.RunPreservesInv | hybrid_join.py:222-272 | the whole main loop keeps `Inv` and the old output as a prefix of the returned output |
| HybridJoinEngine.HybridJoin.constructor | hybrid_join.py:33-73 | with 10000 slots and partitions of 500 unless given, every slot is free, every container empty, the counters zero, and `Inv` holds |
| HybridJoinEngine.HybridJoin.AddStreamTuple | hybrid_join.py:75-90 | the tuple is accepted exactly when fewer than 5000 are buffered and is then appended at the back; a refused tuple changes nothing |
| HybridJoinEngine.HybridJoin.Stop | hybrid_join.py:70 | sets the stop flag and nothing else |
| HybridJoinEngine.HybridJoin.HashFunction | hybrid_join.py:92-102 | the slot lies in `0 .. hS-1` |
| HybridJoinEngine.HybridJoin.LoadTuple | hybrid_join.py:115-129 | one pass of the loading loop moves the front tuple to the end of its chain and its key to the back of the queue |
| HybridJoinEngine.HybridJoin.LoadStreamTuples | hybrid_join.py:104-138 | returns min(w, buffer size), performs the load step and keeps `Inv` |
| HybridJoinEngine.HybridJoin.GetOldestKey | hybrid_join.py:140-149 | the front of the key queue, or none |
| HybridJoinEngine.HybridJoin.LoadDiskPartition | hybrid_join.py:151-171 | the disk buffer becomes the partition of the key, `partitions_processed` grows by 1, nothing else changes, and `Inv` holds |
| HybridJoinEngine.HybridJoin.ScanRelation | hybrid_join.py:159-168 | the scan loop with its early break leaves exactly the partition in the disk buffer |
| HybridJoinEngine.HybridJoin.ProbeWith | hybrid_join.py:184-214 | one pass of the probe loop performs the one-row probe step and returns its number of matches |
| HybridJoinEngine.HybridJoin.JoinChain | hybrid_join.py:190-199 | the matching loop appends exactly the merged matches of the chain, in chain order, and counts them |
| HybridJoinEngine.HybridJoin.DeleteMatched | hybrid_join.py:201-214 | the slot is replaced by its filtered chain and dropped when empty; a mapped key leaves the queue (first occurrence) and the map |
| HybridJoinEngine.HybridJoin.ProbeDiskBuffer | hybrid_join.py:183-214 | the probe loop over the disk buffer performs the probe of all its rows in order |
| HybridJoinEngine.HybridJoin.ProbeAndJoin | hybrid_join.py:173-220 | performs the probe step, keeps `Inv`, and returns a count equal to the increases of `tuples_joined`, `w` and the output length |
| HybridJoinEngine.HybridJoin.Iteration | hybrid_join.py:236-264 | one iteration of the main loop performs the iteration step and reports its breaks, keeping `Inv` |
| HybridJoinEngine.HybridJoin.Turn | hybrid_join.py:235-264 | one iteration advances the loop by one step of the loop function |
| HybridJoinEngine.HybridJoin.MainLoop | hybrid_join.py:235-264 | the `while` loop leaves the engine where the loop function says, stopping on a break, a false condition or no fuel |
| HybridJoinEngine.HybridJoin.Execute | hybrid_join.py:222-272 | returns the join output of the main loop run for at most `fuel` iterations, keeps `Inv`, and never changes earlier output |
| HybridJoinEngine.HybridJoin.GetStatistics | hybrid_join.py:274-282 | reports the engine's own `tuples_processed`, `tuples_joined`, `partitions_processed`, queue length and number of occupied slots; under the invariant `tuples_joined ≤ tuples_processed` and at most (processed − joined) slots are occupied |
| Etl.Quarter | main.py:412 | the quarter q is the one whose months `3q-2 .. 3q` contain the month |
| Etl.QuarterRange | main.py:412 | months 1..12 get quarters 1..4 |
| Etl.QuarterMonotone | main.py:412 | a later month never has an earlier quarter |
| Etl.SeasonOf | main.py:417-424 | no contract of its own; `SeasonBlocks` states that a month's season is its three-month block counted from December, and `SeasonMonths` that each season has three months |
| Etl.SeasonBlocks | main.py:417-424 | for months 1..12 the season is the block of three consecutive months, counted from December, that contains the month |
| Etl.SeasonMonths | main.py:417-424 | each season covers exactly three of the twelve months |
| Etl.IsWeekend | main.py:414 | the flag is 0 or 1 |
| Etl.WeekendDays | main.py:413-414 | the flag is 1 exactly on Saturday and Sunday in the Monday = 0 numbering |
| Etl.SeasonNameInjective | main.py:417-424 | the four season texts are distinct |
| Etl.TimeAttributesOf | main.py:412-424 | the derived quarter contains the month; the stored season text is one of the four names and, for a real month, the name of its three-month block counted from December; the weekend flag is 1 exactly for day numbers from 5 and 0 exactly for those below |
| Etl.Row | main.py:173-177 | no contract of its own; `RowAt` states that a customer's row has one entry per product, entry j merging the customer with product j |
| Etl.Product | main.py:169-177 | no contract of its own; `ProductLength` and `ProductAt` state its length and each entry, and `BuildRelation` that the loops compute it |
| Etl.BuildRelation | main.py:169-177 | the nested loops build exactly the customer-major product of customers and products |
| Etl.RowAt | main.py:173-177 | a customer's row has one entry per product, entry j merging the customer with product j |
| Etl.ProductLength | main.py:169-177 | the relation has \|customers\| · \|products\| entries |
| Etl.ProductAt | main.py:169-177 | entry i·\|products\|+j merges customer i with product j |
| Etl.RelationEntryFields | main.py:174-177 | in every entry the product's fields win and the customer's other fields are kept |

## Left out

- Threads, the unused lock, `threading.Event` and the blocking `put(timeout=10)` are not
  modelled. The model is sequential. `AddStreamTuple` refuses a tuple when the buffer is full:
  with no consumer running during the wait, the timed-out `put` re-raises `queue.Full`.
- `time.sleep(0.1)` is left out. The iteration that sleeps simply does not break.
- Logging is not modelled.
- `HybridJoinEngine.HybridJoin.Execute`: runs at most `fuel` iterations instead of looping
  unboundedly, because the loop need not terminate (see `RunStalls`). It reports whether the
  loop ended within the fuel.
- Python's `hash` is randomised per process, so it is an uninterpreted parameter `hash` of the
  engine. `hS` is required to be positive. With `hS <= 0`, `w` starts at or below 0, so nothing
  is ever loaded or hashed and the join produces nothing. The model leaves out both cases.
- `partition_size` is a natural number in the model. The source also accepts a negative value,
  which behaves like 0: `if count >= self.vP: break` fires on the first relation row, so every
  partition is empty and nothing is ever joined.
- `HybridJoinSpec.RemoveFirst`: the `ValueError` of `deque.remove` for a missing key is not
  modelled. The code calls it only for keys in the key map, and the invariant puts every such key
  in the queue.
- `str()` of a field value is exact for strings and integers. Any other value (a float, a date)
  carries its text as given, because float formatting is not modelled.
- The database work, the CSV and stream-reader thread, `int()` parsing, and the float price and
  amount arithmetic of `main.py` are left out: they are external calls and floating point.
- `datetime.strptime` and `weekday()` are left out. Month and day of week are integer inputs of
  `Etl.Quarter`, `Etl.SeasonOf`, `Etl.IsWeekend` and `Etl.TimeAttributesOf`.
- The plotting scripts under `visuals/` are left out.
