/**
 * The `HybridJoin` class: the engine's fields, updated in place by its
 * methods. Each method is proved to leave the fields equal to the step of
 * hybrid_join_spec.dfy applied to the fields it started from. The public
 * methods (the constructor, `AddStreamTuple`, `Stop`, `LoadStreamTuples`,
 * `LoadDiskPartition`, `ProbeAndJoin`, `Iteration` and `Execute`) also keep
 * the engine invariant `Inv`, whose consequences are proved in
 * hybrid_join_lemmas.dfy; the loop-body helpers (`LoadTuple`,
 * `ScanRelation`, `ProbeWith`, `JoinChain`, `DeleteMatched`,
 * `ProbeDiskBuffer`) work between two states of `Inv` and promise only
 * their step.
 */
module HybridJoinEngine {
  import opened Records
  import opened HybridJoinSpec
  import opened HybridJoinLemmas

  /** The dictionary `get_statistics` returns. */
  datatype Statistics = Statistics(
    tuplesProcessed: nat,
    tuplesJoined: nat,
    partitionsProcessed: nat,
    hashTableSize: nat,
    queueSize: nat)

  class HybridJoin {
    /** Python's built-in `hash` on strings. */
    const hash: string -> int
    const hS: Positive
    const vP: nat

    var w: nat
    var streamBuffer: seq<Record>
    var hashTable: Table
    var keyQueue: seq<string>
    var keyQueueMap: map<string, Record>
    var diskBuffer: seq<Record>
    var joinOutput: seq<Record>
    var tuplesJoined: nat
    var tuplesProcessed: nat
    var partitionsProcessed: nat
    var stopFlag: bool

    function Cfg(): Config
    {
      Config(hash, hS, vP)
    }

    /** The fields as one value. */
    ghost function Abs(): Engine
      reads this
    {
      Engine(streamBuffer, w, hashTable, keyQueue, keyQueueMap, diskBuffer, joinOutput,
             tuplesJoined, tuplesProcessed, partitionsProcessed, stopFlag)
    }

    ghost predicate Valid()
      reads this
    {
      Inv(Cfg(), Abs())
    }

    /** `__init__`: every slot free and every container empty. */
    constructor(hash: string -> int, hashSlots: Positive := DefaultHashSlots,
                partitionSize: nat := DefaultPartitionSize)
      ensures this.hash == hash && hS == hashSlots && vP == partitionSize
      ensures Abs() == Initial(Cfg())
      ensures Valid()
    {
      this.hash := hash;
      hS := hashSlots;
      vP := partitionSize;
      w := hashSlots;
      streamBuffer := [];
      hashTable := map[];
      keyQueue := [];
      keyQueueMap := map[];
      diskBuffer := [];
      joinOutput := [];
      tuplesJoined := 0;
      tuplesProcessed := 0;
      partitionsProcessed := 0;
      stopFlag := false;
      new;
      InitialInv(Cfg());
    }

    /** `add_stream_tuple`: the tuple joins the back of the buffer unless the
        buffer is full, in which case it is refused and nothing changes. */
    method AddStreamTuple(t: Record) returns (ok: bool)
      requires Valid()
      modifies this
      ensures Valid()
      ensures ok <==> old(|streamBuffer|) < StreamBufferCapacity
      ensures Put(old(Abs()), t) == if ok then Some(Abs()) else None
      ensures ok ==> streamBuffer == old(streamBuffer) + [t]
      ensures !ok ==> Abs() == old(Abs())
    {
      PutPreservesInv(Cfg(), Abs(), t);
      if |streamBuffer| < StreamBufferCapacity {
        streamBuffer := streamBuffer + [t];
        ok := true;
      } else {
        ok := false;
      }
    }

    /** The producer setting `stop_flag`. */
    method Stop()
      requires Valid()
      modifies this
      ensures Valid()
      ensures Abs() == SignalStop(old(Abs()))
    {
      SignalStopPreservesInv(Cfg(), Abs());
      stopFlag := true;
    }

    /** `_hash_function`. */
    function HashFunction(key: string): (s: int)
      ensures 0 <= s < hS
      ensures s == Slot(Cfg(), key)
    {
      hash(key) % hS
    }

    /** One pass of the loop of `_load_stream_tuples`: the front tuple of
        the buffer goes to the end of its slot's chain, and its key to the
        back of the key queue and into the key map. */
    method LoadTuple()
      requires streamBuffer != []
      modifies this
      ensures Abs() == LoadOne(Cfg(), old(Abs()))
    {
      LoadOneFields(Cfg(), Abs());
      var tuple := streamBuffer[0];
      streamBuffer := streamBuffer[1..];
      var joinKey := KeyOf(tuple);
      var slot := HashFunction(joinKey);
      hashTable := hashTable[slot := Chain(hashTable, slot) + [tuple]];
      keyQueue := keyQueue + [joinKey];
      keyQueueMap := keyQueueMap[joinKey := tuple];
      tuplesProcessed := tuplesProcessed + 1;
    }

    /** `_load_stream_tuples`: moves min(w, buffer size) tuples from the
        front of the buffer into the table, then sets w to 0. */
    method LoadStreamTuples() returns (loaded: nat)
      requires Valid()
      modifies this
      ensures Valid()
      ensures loaded == LoadCount(old(Abs()))
      ensures Abs() == Load(Cfg(), old(Abs()))
    {
      loaded := 0;
      while loaded < w && streamBuffer != []
        invariant loaded <= LoadCount(old(Abs()))
        invariant Abs() == LoadN(Cfg(), old(Abs()), loaded)
        decreases |streamBuffer|
      {
        LoadTuple();
        loaded := loaded + 1;
      }
      assert loaded == LoadCount(old(Abs()));
      ghost var pre := Abs();
      w := 0;
      assert Abs() == pre.(w := 0);
      LoadPreservesInv(Cfg(), old(Abs()));
    }

    /** `_get_oldest_key`: the front of the key queue, or None. */
    function GetOldestKey(): (k: Option<string>)
      reads this
      ensures k == OldestKey(Abs())
    {
      if keyQueue != [] then Some(keyQueue[0]) else None
    }

    /** `_load_disk_partition`: the first vP relation rows of the key, in
        relation order, become the disk buffer, and one more partition is
        counted. */
    method LoadDiskPartition(relationData: seq<Record>, key: string)
      requires Valid()
      modifies this
      ensures Valid()
      ensures Abs() == old(Abs()).(disk := Partition(Cfg(), relationData, key),
                                   partitions := old(partitionsProcessed) + 1)
    {
      ScanRelation(relationData, key);
      partitionsProcessed := partitionsProcessed + 1;
      InvWithPartition(Cfg(), old(Abs()), diskBuffer, partitionsProcessed);
    }

    /** The scan of `_load_disk_partition`: the disk buffer is emptied, then
        receives the relation rows of the key in order until it holds vP of
        them. */
    method ScanRelation(relationData: seq<Record>, key: string)
      modifies this
      ensures Abs() == old(Abs()).(disk := Partition(Cfg(), relationData, key))
    {
      diskBuffer := [];
      var count := 0;
      var i := 0;
      while i < |relationData|
        invariant i <= |relationData|
        invariant diskBuffer == WithKey(relationData[..i], key)
        invariant count == |diskBuffer| && (i > 0 ==> count < vP)
        modifies `diskBuffer
      {
        ScanStep(Cfg(), relationData, i, key, diskBuffer);
        var row := relationData[i];
        if KeyOf(row) == key && count < vP {
          diskBuffer := diskBuffer + [row];
          count := count + 1;
        }
        i := i + 1;
        if count >= vP {
          break;
        }
      }
      ScanEnd(Cfg(), relationData, i, key, diskBuffer);
    }

    /** One pass of the probe loop of `_probe_and_join`, for one disk row:
        every stream tuple of the row's key in the row's slot is joined with
        the row and removed, and the key leaves the key queue. */
    method ProbeWith(row: Record) returns (matched: nat)
      modifies this
      ensures Abs() == ProbeRow(Cfg(), old(Abs()), row)
      ensures matched == tuplesJoined - old(tuplesJoined)
    {
      var joinKey := KeyOf(row);
      var slot := HashFunction(joinKey);
      matched := 0;
      if slot in hashTable {
        ghost var before := Abs();
        var chain := hashTable[slot];
        matched := JoinChain(chain, row);
        ghost var mid := Abs();
        assert mid == before.(out := before.out + JoinRow(chain, row), joined := before.joined + matched);
        DeleteMatched(slot, joinKey);
        assert Abs() == mid.(table := Replace(before.table, slot, Without(chain, joinKey)),
                             queue := if joinKey in before.keyMap then RemoveFirst(before.queue, joinKey) else before.queue,
                             keyMap := if joinKey in before.keyMap then before.keyMap - {joinKey} else before.keyMap);
        assert Abs() == ProbeRow(Cfg(), before, row) by {
          ProbeRowFields(Cfg(), before, row);
        }
      }
    }

    /** The inner loop of the probe: every stream tuple of the chain whose
        key is the row's is merged with the row and appended to the output,
        in chain order. */
    method JoinChain(chain: seq<Record>, row: Record) returns (matched: nat)
      modifies `joinOutput, `tuplesJoined
      ensures joinOutput == old(joinOutput) + JoinRow(chain, row)
      ensures matched == |JoinRow(chain, row)|
      ensures tuplesJoined == old(tuplesJoined) + matched
    {
      ghost var out0, joined0 := joinOutput, tuplesJoined;
      matched := 0;
      var j := 0;
      while j < |chain|
        invariant j <= |chain|
        invariant joinOutput == out0 + JoinRow(chain[..j], row)
        invariant matched == |JoinRow(chain[..j], row)|
        invariant tuplesJoined == joined0 + matched
      {
        var streamTuple := chain[j];
        JoinRowStep(out0, chain, j, row);
        if KeyOf(streamTuple) == KeyOf(row) {
          joinOutput := joinOutput + [Merge(streamTuple, row)];
          matched := matched + 1;
          tuplesJoined := tuplesJoined + 1;
        }
        j := j + 1;
      }
      assert chain[..j] == chain;
    }

    /** The deletion after the inner loop: the slot keeps only the tuples of
        other keys and is dropped once empty, and a key still in the key map
        leaves the map and the queue (its first occurrence). */
    method DeleteMatched(slot: int, joinKey: string)
      requires slot in hashTable
      modifies `hashTable, `keyQueue, `keyQueueMap
      ensures hashTable == Replace(old(hashTable), slot, Without(old(hashTable)[slot], joinKey))
      ensures keyQueue == if joinKey in old(keyQueueMap) then RemoveFirst(old(keyQueue), joinKey) else old(keyQueue)
      ensures keyQueueMap == if joinKey in old(keyQueueMap) then old(keyQueueMap) - {joinKey} else old(keyQueueMap)
    {
      var rest := Without(hashTable[slot], joinKey);
      var table := hashTable[slot := rest];
      if rest == [] {
        table := table - {slot};
      }
      assert table == Replace(hashTable, slot, rest);
      hashTable := table;
      if joinKey in keyQueueMap {
        keyQueue := RemoveFirst(keyQueue, joinKey);
        keyQueueMap := keyQueueMap - {joinKey};
      }
    }

    /** `_probe_and_join`: probe with every disk row in order, then give back
        one free slot per matched tuple; returns the number matched. */
    method ProbeAndJoin() returns (matchedCount: nat)
      requires Valid()
      modifies this
      ensures Valid()
      ensures Abs() == Probe(Cfg(), old(Abs()))
      ensures matchedCount == tuplesJoined - old(tuplesJoined) == w - old(w)
      ensures matchedCount == |joinOutput| - |old(joinOutput)|
    {
      ghost var start := Abs();
      matchedCount := ProbeDiskBuffer();
      ghost var probed := Abs();
      w := w + matchedCount;
      assert Abs() == probed.(w := start.w + matchedCount);
      assert Abs() == Probe(Cfg(), start);
      assert Inv(Cfg(), Probe(Cfg(), start)) by {
        ProbePreservesInv(Cfg(), start);
      }
    }

    /** The loop of `_probe_and_join`: every disk row, in order, probes the
        hash table; returns the number of tuples joined. */
    method ProbeDiskBuffer() returns (matchedCount: nat)
      modifies this
      ensures Abs() == ProbeRows(Cfg(), old(Abs()), old(diskBuffer))
      ensures matchedCount == tuplesJoined - old(tuplesJoined)
    {
      ghost var start := Abs();
      matchedCount := 0;
      var i := 0;
      while i < |diskBuffer|
        invariant i <= |diskBuffer| && diskBuffer == start.disk
        invariant Abs() == ProbeRows(Cfg(), start, diskBuffer[..i])
        invariant matchedCount == tuplesJoined - start.joined
      {
        ProbeRowsStep(Cfg(), start, diskBuffer, i);
        var matched := ProbeWith(diskBuffer[i]);
        matchedCount := matchedCount + matched;
        i := i + 1;
      }
      assert diskBuffer[..i] == diskBuffer;
    }

    /** One iteration of the main loop of `execute`; returns whether the loop
        breaks. */
    method Iteration(relationData: seq<Record>) returns (stop: bool)
      requires Valid()
      modifies this
      ensures Valid()
      ensures (Abs(), stop) == Iterate(Cfg(), old(Abs()), relationData)
    {
      IterateBranches(Cfg(), Abs(), relationData);
      ghost var e := Abs();
      var loaded := LoadStreamTuples();
      ghost var e1 := Abs();
      if loaded == 0 && streamBuffer == [] && keyQueue == [] {
        return true;
      }
      var oldestKey := GetOldestKey();
      if oldestKey.None? || oldestKey.value == "" {
        return stopFlag;
      }
      LoadDiskPartition(relationData, oldestKey.value);
      ghost var e2 := Abs();
      assert e2 == e1.(disk := Partition(Cfg(), relationData, e1.queue[0]), partitions := e1.partitions + 1);
      var matched := ProbeAndJoin();
      stop := stopFlag && keyQueue == [];
      assert Abs() == Probe(Cfg(), e2);
    }

    /** One turn of the main loop of `execute`, related to the rest of it. */
    method Turn(relationData: seq<Record>, remaining: nat) returns (stop: bool)
      requires Valid() && Running(Abs()) && remaining > 0
      modifies this
      ensures Valid()
      ensures Run(Cfg(), old(Abs()), relationData, remaining) ==
              if stop then (Abs(), true) else Run(Cfg(), Abs(), relationData, remaining - 1)
    {
      ghost var before := Abs();
      stop := Iteration(relationData);
      RunAfter(Cfg(), before, relationData, remaining, Abs(), stop);
    }

    /** `execute`, allowed at most `fuel` iterations: returns the join
        output and whether the loop ended of its own accord. */
    method Execute(relationData: seq<Record>, fuel: nat) returns (output: seq<Record>, finished: bool)
      requires Valid()
      modifies this
      ensures Valid()
      ensures (Abs(), finished) == Run(Cfg(), old(Abs()), relationData, fuel)
      ensures output == joinOutput
      ensures |old(joinOutput)| <= |output| && output[..|old(joinOutput)|] == old(joinOutput)
    {
      ghost var start := Abs();
      var stop, remaining := MainLoop(relationData, start, fuel);
      finished := stop || !(!stopFlag || streamBuffer != []);
      RunExit(Cfg(), start, relationData, fuel, Abs(), remaining, stop);
      output := joinOutput;
    }

    /** The main loop of `execute`, given at most `fuel` iterations: it ends
        when it breaks, when it stops running, or when the iterations are
        used up. */
    method MainLoop(relationData: seq<Record>, ghost start: Engine, fuel: nat)
      returns (stop: bool, remaining: nat)
      requires Valid() && start == Abs()
      modifies this
      ensures Valid()
      ensures Run(Cfg(), start, relationData, fuel) ==
              if stop then (Abs(), true) else Run(Cfg(), Abs(), relationData, remaining)
      ensures !stop ==> !Running(Abs()) || remaining == 0
    {
      remaining := fuel;
      stop := false;
      while (!stopFlag || streamBuffer != []) && !stop && remaining > 0
        invariant Valid()
        invariant Run(Cfg(), start, relationData, fuel) ==
                  if stop then (Abs(), true) else Run(Cfg(), Abs(), relationData, remaining)
        decreases remaining
      {
        stop := Turn(relationData, remaining);
        remaining := remaining - 1;
      }
    }

    /** `get_statistics`. Under the invariant no more tuples are joined than
        were taken from the stream, and the number of occupied slots is at
        most the number of tuples still waiting in the table. */
    function GetStatistics(): (s: Statistics)
      reads this
      requires Valid()
      ensures s.tuplesProcessed == tuplesProcessed && s.tuplesJoined == tuplesJoined
      ensures s.hashTableSize == |hashTable|
      ensures s.tuplesJoined <= s.tuplesProcessed
      ensures s.hashTableSize <= s.tuplesProcessed - s.tuplesJoined
      ensures s.queueSize == |keyQueue| && s.partitionsProcessed == partitionsProcessed
    {
      OccupiedSlots(Cfg(), hashTable);
      Statistics(tuplesProcessed, tuplesJoined, partitionsProcessed, |hashTable|, |keyQueue|)
    }
  }
}
