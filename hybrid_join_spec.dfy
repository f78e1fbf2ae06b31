/**
 * The state of one HYBRIDJOIN engine as a value, and each step of the engine
 * as a function of that value. The class in hybrid_join.dfy performs these
 * steps in place; each of its methods is proved to leave its fields equal to
 * the function given here, and hybrid_join_lemmas.dfy proves what the steps
 * promise.
 *
 * Roles are as in the code: the stream tuples are hashed into the table and
 * the relation rows probe it.
 */
module HybridJoinSpec {
  import opened Records

  /** `queue.Queue(maxsize=5000)`. */
  const StreamBufferCapacity: nat := 5000
  type Positive = n: int | n > 0 witness 1

  /** Default `hash_slots` and `partition_size` of the constructor. */
  const DefaultHashSlots: Positive := 10000
  const DefaultPartitionSize: nat := 500

  /** Slot number to the chain of stream tuples stored in that slot. */
  type Table = map<int, seq<Record>>

  datatype Option<T> = None | Some(value: T)

  /** Fixed parameters of one engine: Python's built-in `hash` on strings
      (randomised per process, so left uninterpreted), the slot count `hS`
      and the partition size `vP`. */
  datatype Config = Config(hash: string -> int, hS: Positive, vP: nat)

  /** The fields of a `HybridJoin` object. */
  datatype Engine = Engine(
    buffer: seq<Record>,             // stream_buffer, front first
    w: nat,                          // free slots
    table: Table,                    // hash_table
    queue: seq<string>,              // key_queue, oldest first
    keyMap: map<string, Record>,     // key_queue_map
    disk: seq<Record>,               // disk_buffer
    out: seq<Record>,                // join_output
    joined: nat,                     // tuples_joined
    processed: nat,                  // tuples_processed
    partitions: nat,                 // partitions_processed
    stop: bool)                      // stop_flag

  /** The state `__init__` leaves: every slot free, everything empty. */
  function Initial(c: Config): Engine
  {
    Engine([], c.hS, map[], [], map[], [], [], 0, 0, 0, false)
  }

  // ---------------------------------------------------------------------
  // add_stream_tuple and the stop flag

  /** `add_stream_tuple`, run by one thread alone: a tuple joins the back of
      the buffer while the buffer is below its capacity; at capacity the
      blocking `put` times out, since no consumer can drain the buffer
      meanwhile, and the tuple is refused. */
  function Put(e: Engine, t: Record): (r: Option<Engine>)
    ensures r.Some? <==> |e.buffer| < StreamBufferCapacity
    ensures r.Some? ==> r.value.buffer == e.buffer + [t] && r.value.(buffer := e.buffer) == e
  {
    if |e.buffer| < StreamBufferCapacity then Some(e.(buffer := e.buffer + [t])) else None
  }

  /** The producer's `stop_flag = True` once the stream is exhausted. */
  function SignalStop(e: Engine): Engine
  {
    e.(stop := true)
  }

  // ---------------------------------------------------------------------
  // Hashing and the table

  /** `_hash_function`: `hash(key) % hS`. Python's `%` with a positive
      divisor never yields a negative number, and neither does Dafny's. */
  function Slot(c: Config, key: string): (s: int)
    ensures 0 <= s < c.hS
  {
    c.hash(key) % c.hS
  }

  /** The chain of a slot; an absent slot reads as empty. */
  function Chain(t: Table, s: int): seq<Record>
  {
    if s in t then t[s] else []
  }

  /** Store a chain in a slot, or drop the slot when the chain is empty. */
  function Replace(t: Table, s: int, cs: seq<Record>): (t': Table)
    ensures forall x :: Chain(t', x) == if x == s then cs else Chain(t, x)
    ensures forall x :: x in t' <==> if x == s then cs != [] else x in t
  {
    if cs == [] then t - {s} else t[s := cs]
  }

  /** Number of tuples stored in the slots below n. */
  function CountBelow(t: Table, n: nat): nat
  {
    if n == 0 then 0 else CountBelow(t, n - 1) + |Chain(t, n - 1)|
  }

  /** Number of stream tuples held in the table. */
  function Stored(c: Config, t: Table): nat
  {
    CountBelow(t, c.hS)
  }

  // ---------------------------------------------------------------------
  // Filters over sequences of records, each keeping relative order

  /** The records whose join key is k. */
  function WithKey(rs: seq<Record>, k: string): (m: seq<Record>)
    ensures |m| <= |rs|
    ensures forall r {:trigger r in m} :: r in m <==> r in rs && KeyOf(r) == k
  {
    if rs == [] then []
    else WithKey(rs[..|rs| - 1], k) + (if KeyOf(rs[|rs| - 1]) == k then [rs[|rs| - 1]] else [])
  }

  /** The records whose join key is not k (the list comprehension that
      deletes matched tuples from a chain). */
  function Without(rs: seq<Record>, k: string): (m: seq<Record>)
    ensures |m| <= |rs|
    ensures forall r {:trigger r in m} :: r in m <==> r in rs && KeyOf(r) != k
  {
    if rs == [] then []
    else Without(rs[..|rs| - 1], k) + (if KeyOf(rs[|rs| - 1]) != k then [rs[|rs| - 1]] else [])
  }

  /** The records whose join key is none of ks. */
  function WithoutKeys(rs: seq<Record>, ks: seq<string>): (m: seq<Record>)
    ensures |m| <= |rs|
    ensures forall r {:trigger r in m} :: r in m <==> r in rs && KeyOf(r) !in ks
  {
    if rs == [] then []
    else WithoutKeys(rs[..|rs| - 1], ks) + (if KeyOf(rs[|rs| - 1]) !in ks then [rs[|rs| - 1]] else [])
  }

  /** The records whose key hashes to slot s. */
  function InSlot(c: Config, rs: seq<Record>, s: int): (m: seq<Record>)
    ensures forall r {:trigger r in m} :: r in m <==> r in rs && Slot(c, KeyOf(r)) == s
  {
    if rs == [] then []
    else InSlot(c, rs[..|rs| - 1], s) + (if Slot(c, KeyOf(rs[|rs| - 1])) == s then [rs[|rs| - 1]] else [])
  }

  /** The join keys of a sequence of records, in order. */
  function KeysOf(rs: seq<Record>): (ks: seq<string>)
    ensures |ks| == |rs|
    ensures forall i :: 0 <= i < |rs| ==> ks[i] == KeyOf(rs[i])
  {
    if rs == [] then [] else KeysOf(rs[..|rs| - 1]) + [KeyOf(rs[|rs| - 1])]
  }

  // ---------------------------------------------------------------------
  // _load_stream_tuples

  /** One pass of the loading loop: the front tuple of the buffer goes to the
      end of its slot's chain, its key to the back of the key queue and into
      the key map. */
  function LoadOne(c: Config, e: Engine): Engine
    requires e.buffer != []
  {
    var t := e.buffer[0];
    var k := KeyOf(t);
    var s := Slot(c, k);
    e.(buffer := e.buffer[1..],
       table := e.table[s := Chain(e.table, s) + [t]],
       queue := e.queue + [k],
       keyMap := e.keyMap[k := t],
       processed := e.processed + 1)
  }

  /** n passes of the loading loop. */
  function LoadN(c: Config, e: Engine, n: nat): (r: Engine)
    requires n <= |e.buffer|
    ensures r.buffer == e.buffer[n..]
    ensures r.processed == e.processed + n
    ensures r.w == e.w && r.disk == e.disk && r.out == e.out && r.joined == e.joined
    ensures r.partitions == e.partitions && r.stop == e.stop
    decreases n
  {
    if n == 0 then e else LoadOne(c, LoadN(c, e, n - 1))
  }

  /** How many tuples `_load_stream_tuples` moves: min(w, buffer size). */
  function LoadCount(e: Engine): (n: nat)
    ensures n <= e.w && n <= |e.buffer|
    ensures n == e.w || n == |e.buffer|
  {
    if e.w < |e.buffer| then e.w else |e.buffer|
  }

  /** `_load_stream_tuples`: load min(w, buffer size) tuples, then w := 0. */
  function Load(c: Config, e: Engine): (r: Engine)
    ensures r.w == 0
    ensures r.buffer == e.buffer[LoadCount(e)..] && r.processed == e.processed + LoadCount(e)
    ensures r.disk == e.disk && r.out == e.out && r.joined == e.joined
    ensures r.partitions == e.partitions && r.stop == e.stop
  {
    LoadN(c, e, LoadCount(e)).(w := 0)
  }

  // ---------------------------------------------------------------------
  // _get_oldest_key

  /** `key_queue[0]` when the queue is not empty. */
  function OldestKey(e: Engine): (k: Option<string>)
    ensures k.Some? <==> e.queue != []
    ensures k.Some? ==> k.value in e.queue && k.value == e.queue[0]
  {
    if e.queue == [] then None else Some(e.queue[0])
  }

  // ---------------------------------------------------------------------
  // _load_disk_partition

  /** The first vP rows of the relation whose key is k, in relation order. */
  function Partition(c: Config, rel: seq<Record>, k: string): (p: seq<Record>)
    ensures |p| <= c.vP
    ensures forall r {:trigger r in p} :: r in p ==> r in rel && KeyOf(r) == k
  {
    var m := WithKey(rel, k);
    if |m| <= c.vP then m
    else
      assert forall r {:trigger r in m[..c.vP]} :: r in m[..c.vP] ==> r in m;
      m[..c.vP]
  }

  // ---------------------------------------------------------------------
  // _probe_and_join

  /** The records one disk row produces against a chain: every stream tuple
      of the chain with the row's key, merged with the row (relation fields
      win), in chain order. */
  function JoinRow(cs: seq<Record>, row: Record): (js: seq<Record>)
    ensures |js| <= |cs|
  {
    if cs == [] then []
    else
      var t := cs[|cs| - 1];
      JoinRow(cs[..|cs| - 1], row) + (if KeyOf(t) == KeyOf(row) then [Merge(t, row)] else [])
  }

  /** `deque.remove(k)`: drop the first occurrence of k. */
  function RemoveFirst(q: seq<string>, k: string): (r: seq<string>)
    ensures multiset(r) == multiset(q) - multiset{k}
  {
    if q == [] then []
    else
      assert q == [q[0]] + q[1..];
      if q[0] == k then q[1..]
      else [q[0]] + RemoveFirst(q[1..], k)
  }

  /** One pass of the probe loop, for one disk row. */
  function ProbeRow(c: Config, e: Engine, row: Record): Engine
  {
    var k := KeyOf(row);
    var s := Slot(c, k);
    if s !in e.table then e
    else
      var hits := JoinRow(e.table[s], row);
      var rest := Without(e.table[s], k);
      var e1 := e.(out := e.out + hits, joined := e.joined + |hits|, table := Replace(e.table, s, rest));
      if k in e.keyMap then e1.(queue := RemoveFirst(e.queue, k), keyMap := e.keyMap - {k})
      else e1
  }

  /** The probe loop over a sequence of disk rows, in order. */
  function ProbeRows(c: Config, e: Engine, rows: seq<Record>): (r: Engine)
    ensures r.joined >= e.joined
    ensures |r.out| == |e.out| + (r.joined - e.joined)
    ensures r.out[..|e.out|] == e.out
    ensures r.buffer == e.buffer && r.w == e.w && r.disk == e.disk
    ensures r.processed == e.processed && r.partitions == e.partitions && r.stop == e.stop
  {
    if rows == [] then e else ProbeRow(c, ProbeRows(c, e, rows[..|rows| - 1]), rows[|rows| - 1])
  }

  /** `_probe_and_join`: probe with every row of the disk buffer, then give
      back one free slot per matched tuple. */
  function Probe(c: Config, e: Engine): Engine
  {
    var r := ProbeRows(c, e, e.disk);
    r.(w := e.w + (r.joined - e.joined))
  }

  // ---------------------------------------------------------------------
  // execute

  /** The condition of the main loop. */
  predicate Running(e: Engine)
  {
    !e.stop || e.buffer != []
  }

  /** One iteration of the main loop: the new state, and whether the loop
      breaks. An empty key counts as no key, as `not oldest_key` does; with
      the stream still open the loop then sleeps and goes round again. */
  function Iterate(c: Config, e: Engine, rel: seq<Record>): (Engine, bool)
  {
    var loaded := LoadCount(e);
    var e1 := Load(c, e);
    if loaded == 0 && e1.buffer == [] && e1.queue == [] then (e1, true)
    else
      match OldestKey(e1)
      case None => (e1, e1.stop)
      case Some(k) =>
        if k == "" then (e1, e1.stop)
        else
          var e2 := e1.(disk := Partition(c, rel, k), partitions := e1.partitions + 1);
          var e3 := Probe(c, e2);
          (e3, e3.stop && e3.queue == [])
  }

  /** At most `fuel` iterations of the main loop: the final state, and
      whether the loop ended of its own accord. First the loop condition. */
  function Run(c: Config, e: Engine, rel: seq<Record>, fuel: nat): (Engine, bool)
    decreases fuel, 2
  {
    if !Running(e) then (e, true) else Continue(c, e, rel, fuel)
  }

  /** The loop condition holds: go round again unless no iterations are
      left. */
  function Continue(c: Config, e: Engine, rel: seq<Record>, fuel: nat): (Engine, bool)
    decreases fuel, 1
  {
    if fuel == 0 then (e, false) else Resume(c, e, rel, fuel)
  }

  /** One iteration, then the rest of the loop unless it broke. */
  function Resume(c: Config, e: Engine, rel: seq<Record>, fuel: nat): (Engine, bool)
    requires fuel > 0
    decreases fuel, 0
  {
    var (e1, stopped) := Iterate(c, e, rel);
    if stopped then (e1, true) else Run(c, e1, rel, fuel - 1)
  }

  // ---------------------------------------------------------------------
  // Invariants

  /** Every stored slot is in range and non-empty, and holds only tuples
      whose key hashes to it. */
  ghost predicate SlotsValid(c: Config, t: Table)
  {
    forall s :: s in t ==>
      0 <= s < c.hS && t[s] != [] &&
      forall r :: r in t[s] ==> Slot(c, KeyOf(r)) == s
  }

  /** The key map names exactly the keys of the stored tuples, maps each to a
      stored tuple with that key, and every mapped key is still queued. */
  ghost predicate KeysTracked(c: Config, e: Engine)
  {
    && (forall k :: k in e.keyMap ==> k in e.queue)
    && (forall k :: k in e.keyMap ==>
          KeyOf(e.keyMap[k]) == k && e.keyMap[k] in Chain(e.table, Slot(c, k)))
    && (forall s, r :: s in e.table && r in e.table[s] ==> KeyOf(r) in e.keyMap)
  }

  /** What holds between any two steps of every loop. */
  ghost predicate Core(c: Config, e: Engine)
  {
    && |e.buffer| <= StreamBufferCapacity
    && SlotsValid(c, e.table)
    && Stored(c, e.table) + e.joined == e.processed
    && |e.out| == e.joined
    && KeysTracked(c, e)
  }

  /** The object invariant: Core, and the table never holds more tuples than
      there are slots, w counting the ones still free. */
  ghost predicate Inv(c: Config, e: Engine)
  {
    Core(c, e) && Stored(c, e.table) + e.w <= c.hS
  }
}
