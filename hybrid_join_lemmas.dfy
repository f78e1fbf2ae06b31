/**
 * What the HYBRIDJOIN steps promise, proved about the functions of
 * HybridJoinSpec: the object invariant is established by the constructor and
 * kept by every step, loading is FIFO, probing removes exactly the tuples it
 * joins and joins each with the first disk row of its key, and an iteration
 * whose oldest key cannot be matched makes no progress.
 */
module HybridJoinLemmas {
  import opened Records
  import opened HybridJoinSpec

  lemma AppendAssoc<T>(a: seq<T>, b: seq<T>, c: seq<T>)
    ensures (a + b) + c == a + (b + c)
  {
  }

  lemma AppendEmpty<T>(a: seq<T>)
    ensures a + [] == a
  {
  }

  lemma PrefixOfAppend<T>(a: seq<T>, b: seq<T>)
    ensures |a| <= |a + b| && (a + b)[..|a|] == a
  {
  }

  lemma PrefixTrans<T>(a: seq<T>, b: seq<T>, d: seq<T>)
    requires |a| <= |b| && b[..|a|] == a
    requires |b| <= |d| && d[..|b|] == b
    ensures d[..|a|] == a
  {
    assert d[..|a|] == d[..|b|][..|a|];
  }

  lemma Prefix<T>(a: seq<T>, n: nat)
    requires 0 < n <= |a|
    ensures a[..n] == a[..n - 1] + [a[n - 1]]
    ensures a[..n][..n - 1] == a[..n - 1]
  {
  }

  // ---------------------------------------------------------------------
  // Counting tuples in the table

  /** Changing one chain changes the count by the difference in its length. */
  lemma {:induction false} CountBelowUpdate(t: Table, t': Table, s: int, n: nat)
    requires forall x :: x != s ==> Chain(t', x) == Chain(t, x)
    ensures 0 <= s < n ==> CountBelow(t', n) + |Chain(t, s)| == CountBelow(t, n) + |Chain(t', s)|
    ensures !(0 <= s < n) ==> CountBelow(t', n) == CountBelow(t, n)
  {
    if n > 0 {
      CountBelowUpdate(t, t', s, n - 1);
    }
  }

  lemma {:induction false} CountBelowEmpty(n: nat)
    ensures CountBelow(map[], n) == 0
  {
    if n > 0 {
      CountBelowEmpty(n - 1);
    }
  }

  /** With no empty chain stored, the slots below n are at most the tuples
      stored below n. */
  lemma {:induction false} OccupiedBelow(t: Table, n: nat)
    requires forall s :: s in t ==> t[s] != []
    ensures |set s | s in t && 0 <= s < n| <= CountBelow(t, n)
  {
    if n > 0 {
      OccupiedBelow(t, n - 1);
      var below := set s | s in t && 0 <= s < n - 1;
      var upto := set s | s in t && 0 <= s < n;
      if n - 1 in t {
        assert upto == below + {n - 1};
        assert |Chain(t, n - 1)| >= 1;
      } else {
        assert upto == below;
      }
    }
  }

  /** `len(hash_table)` never exceeds the number of stored tuples. */
  lemma OccupiedSlots(c: Config, t: Table)
    requires SlotsValid(c, t)
    ensures |t| <= Stored(c, t)
  {
    OccupiedBelow(t, c.hS);
    assert t.Keys == set s | s in t && 0 <= s < c.hS;
  }

  // ---------------------------------------------------------------------
  // Filters

  lemma {:induction false} SplitLength(cs: seq<Record>, k: string)
    ensures |WithKey(cs, k)| + |Without(cs, k)| == |cs|
  {
    if cs != [] {
      SplitLength(cs[..|cs| - 1], k);
    }
  }

  /** Every tuple of a chain is either matched (kept by WithKey) or kept by
      Without, and never both. */
  lemma {:induction false} SplitByKey(cs: seq<Record>, k: string)
    ensures multiset(WithKey(cs, k)) + multiset(Without(cs, k)) == multiset(cs)
  {
    if cs != [] {
      SplitByKey(cs[..|cs| - 1], k);
      Prefix(cs, |cs|);
      assert cs[..|cs|] == cs;
    }
  }

  /** A row joins as many records as the chain has tuples of its key. */
  lemma {:induction false} JoinRowLength(cs: seq<Record>, row: Record)
    ensures |JoinRow(cs, row)| == |WithKey(cs, KeyOf(row))|
  {
    if cs != [] {
      JoinRowLength(cs[..|cs| - 1], row);
    }
  }

  /** JoinRow merges exactly the chain's tuples with the row's key, in chain
      order, each with the row. */
  lemma {:induction false} JoinRowMerges(cs: seq<Record>, row: Record)
    ensures |JoinRow(cs, row)| == |WithKey(cs, KeyOf(row))|
    ensures forall i :: 0 <= i < |JoinRow(cs, row)| ==>
              JoinRow(cs, row)[i] == Merge(WithKey(cs, KeyOf(row))[i], row)
  {
    if cs != [] {
      JoinRowMerges(cs[..|cs| - 1], row);
    }
  }

  /** A chain with no tuple of key k is left as it is and joins nothing. */
  lemma {:induction false} KeyAbsent(cs: seq<Record>, k: string)
    requires forall r :: r in cs ==> KeyOf(r) != k
    ensures Without(cs, k) == cs
    ensures WithKey(cs, k) == []
  {
    if cs != [] {
      KeyAbsent(cs[..|cs| - 1], k);
      Prefix(cs, |cs|);
      assert cs[..|cs|] == cs;
    }
  }

  lemma {:induction false} WithoutNoKeys(cs: seq<Record>)
    ensures WithoutKeys(cs, []) == cs
  {
    if cs != [] {
      WithoutNoKeys(cs[..|cs| - 1]);
      assert cs == cs[..|cs| - 1] + [cs[|cs| - 1]];
    }
  }

  /** Deleting key k after keys ks is deleting ks + [k], order kept. */
  lemma {:induction false} WithoutThenKey(cs: seq<Record>, ks: seq<string>, k: string)
    ensures Without(WithoutKeys(cs, ks), k) == WithoutKeys(cs, ks + [k])
  {
    if cs != [] {
      var init := cs[..|cs| - 1];
      var t := cs[|cs| - 1];
      WithoutThenKey(init, ks, k);
      var kept := WithoutKeys(init, ks);
      if KeyOf(t) !in ks {
        assert WithoutKeys(cs, ks) == kept + [t];
        assert (kept + [t])[..|kept + [t]| - 1] == kept;
      } else {
        assert WithoutKeys(cs, ks) == kept;
      }
    }
  }

  /** A row joins nothing against a chain its key was already deleted
      from, and otherwise joins what it would against the whole chain. */
  lemma {:induction false} JoinAfterRemoval(cs: seq<Record>, ks: seq<string>, row: Record)
    ensures JoinRow(WithoutKeys(cs, ks), row) == if KeyOf(row) in ks then [] else JoinRow(cs, row)
  {
    if cs != [] {
      var init := cs[..|cs| - 1];
      var t := cs[|cs| - 1];
      JoinAfterRemoval(init, ks, row);
      var kept := WithoutKeys(init, ks);
      if KeyOf(t) !in ks {
        assert WithoutKeys(cs, ks) == kept + [t];
        assert (kept + [t])[..|kept + [t]| - 1] == kept;
      } else {
        assert WithoutKeys(cs, ks) == kept;
      }
    }
  }

  // ---------------------------------------------------------------------
  // The key queue

  /** `deque.remove(k)` takes out the first occurrence of k and keeps the
      rest in order. */
  lemma {:induction false} RemoveFirstAt(q: seq<string>, k: string, i: nat)
    requires i < |q| && q[i] == k && k !in q[..i]
    ensures RemoveFirst(q, k) == q[..i] + q[i + 1..]
  {
    if i > 0 {
      var t := q[1..];
      assert q[..i] == [q[0]] + t[..i - 1];
      assert q[0] != k;
      assert k !in t[..i - 1];
      RemoveFirstAt(t, k, i - 1);
      assert t[i..] == q[i + 1..];
      AppendAssoc([q[0]], t[..i - 1], t[i..]);
    }
  }

  // ---------------------------------------------------------------------
  // Loading

  /** Loading n tuples takes them from the front of the buffer in arrival
      order and queues their keys in that order. */
  lemma {:induction false} LoadNQueue(c: Config, e: Engine, n: nat)
    requires n <= |e.buffer|
    ensures LoadN(c, e, n).queue == e.queue + KeysOf(e.buffer[..n])
    decreases n
  {
    if n > 0 {
      LoadNQueue(c, e, n - 1);
      Prefix(e.buffer, n);
      var ks := KeysOf(e.buffer[..n - 1]);
      assert KeysOf(e.buffer[..n]) == ks + [KeyOf(e.buffer[n - 1])];
      AppendAssoc(e.queue, ks, [KeyOf(e.buffer[n - 1])]);
    }
  }

  /** Loading n tuples appends each, in arrival order, to the end of its own
      slot's chain. */
  lemma {:induction false} LoadNChains(c: Config, e: Engine, n: nat)
    requires n <= |e.buffer|
    ensures forall s :: Chain(LoadN(c, e, n).table, s) == Chain(e.table, s) + InSlot(c, e.buffer[..n], s)
    decreases n
  {
    if n == 0 {
      forall s ensures Chain(e.table, s) == Chain(e.table, s) + InSlot(c, e.buffer[..0], s) {
        AppendEmpty(Chain(e.table, s));
      }
    } else {
      LoadNChains(c, e, n - 1);
      Prefix(e.buffer, n);
      var t := e.buffer[n - 1];
      forall s ensures Chain(LoadN(c, e, n).table, s) == Chain(e.table, s) + InSlot(c, e.buffer[..n], s) {
        var before := InSlot(c, e.buffer[..n - 1], s);
        var added: seq<Record> := if Slot(c, KeyOf(t)) == s then [t] else [];
        assert InSlot(c, e.buffer[..n], s) == before + added;
        assert Chain(LoadN(c, e, n).table, s) == Chain(LoadN(c, e, n - 1).table, s) + added;
        AppendAssoc(Chain(e.table, s), before, added);
      }
    }
  }

  lemma LoadOneCore(c: Config, e: Engine)
    requires Core(c, e) && e.buffer != []
    ensures Core(c, LoadOne(c, e))
    ensures Stored(c, LoadOne(c, e).table) == Stored(c, e.table) + 1
  {
    var t := e.buffer[0];
    var s := Slot(c, KeyOf(t));
    var e' := LoadOne(c, e);
    assert e'.table == e.table[s := Chain(e.table, s) + [t]];
    assert e'.keyMap == e.keyMap[KeyOf(t) := t] && e'.queue == e.queue + [KeyOf(t)];
    InsertChains(e.table, s, t);
    CountBelowUpdate(e.table, e'.table, s, c.hS);
    InsertSlots(c, e.table, t);
    InsertKeys(c, e, e', t);
  }

  /** Appending a tuple to its slot's chain leaves every other chain as it
      was. */
  lemma InsertChains(t: Table, s: int, x: Record)
    ensures forall y :: Chain(t[s := Chain(t, s) + [x]], y) ==
                          if y == s then Chain(t, s) + [x] else Chain(t, y)
  {
  }

  /** Appending a tuple to the chain of the slot its key hashes to keeps
      every slot valid. */
  lemma InsertSlots(c: Config, t: Table, x: Record)
    requires SlotsValid(c, t)
    ensures SlotsValid(c, t[Slot(c, KeyOf(x)) := Chain(t, Slot(c, KeyOf(x))) + [x]])
  {
    var s := Slot(c, KeyOf(x));
    var t' := t[s := Chain(t, s) + [x]];
    forall y | y in t'
      ensures 0 <= y < c.hS && t'[y] != [] && forall r :: r in t'[y] ==> Slot(c, KeyOf(r)) == y
    {
      if y == s {
        forall r | r in t'[y] ensures Slot(c, KeyOf(r)) == y {
          if r != x {
            assert r in Chain(t, s);
          }
        }
      }
    }
  }

  /** Storing a tuple, queueing its key and making it the key's latest tuple
      keeps every key tracked. */
  lemma InsertKeys(c: Config, e: Engine, e': Engine, x: Record)
    requires KeysTracked(c, e)
    requires e'.table == e.table[Slot(c, KeyOf(x)) := Chain(e.table, Slot(c, KeyOf(x))) + [x]]
    requires e'.keyMap == e.keyMap[KeyOf(x) := x] && e'.queue == e.queue + [KeyOf(x)]
    ensures KeysTracked(c, e')
  {
    var k := KeyOf(x);
    InsertChains(e.table, Slot(c, k), x);
    forall k' | k' in e'.keyMap
      ensures KeyOf(e'.keyMap[k']) == k' && e'.keyMap[k'] in Chain(e'.table, Slot(c, k'))
    {
      if k' != k {
        assert e.keyMap[k'] in Chain(e.table, Slot(c, k'));
      }
    }
    forall y, r | y in e'.table && r in e'.table[y]
      ensures KeyOf(r) in e'.keyMap
    {
      assert r in Chain(e'.table, y);
      if r != x {
        assert r in Chain(e.table, y);
      }
    }
  }


  /** `LoadOne` field by field. */
  lemma LoadOneFields(c: Config, e: Engine)
    requires e.buffer != []
    ensures var t := e.buffer[0];
            var s := Slot(c, KeyOf(t));
            LoadOne(c, e) ==
              Engine(e.buffer[1..], e.w, e.table[s := Chain(e.table, s) + [t]], e.queue + [KeyOf(t)],
                     e.keyMap[KeyOf(t) := t], e.disk, e.out, e.joined, e.processed + 1, e.partitions, e.stop)
  {
  }

  lemma {:induction false} LoadNCore(c: Config, e: Engine, n: nat)
    requires Core(c, e) && n <= |e.buffer|
    ensures Core(c, LoadN(c, e, n))
    ensures Stored(c, LoadN(c, e, n).table) == Stored(c, e.table) + n
  {
    if n > 0 {
      LoadNCore(c, e, n - 1);
      LoadOneCore(c, LoadN(c, e, n - 1));
    }
  }

  /** `_load_stream_tuples` keeps the invariant, moves min(w, buffer size)
      tuples into the table, and leaves w at 0. */
  lemma LoadPreservesInv(c: Config, e: Engine)
    requires Inv(c, e)
    ensures Inv(c, Load(c, e))
    ensures Load(c, e).w == 0
    ensures Stored(c, Load(c, e).table) == Stored(c, e.table) + LoadCount(e)
    ensures Load(c, e).processed == e.processed + LoadCount(e)
  {
    LoadNCore(c, e, LoadCount(e));
  }

  /** Loading zeroes w however few tuples it moves. When the buffer holds
      fewer than w tuples, the free-slot credit of the tuples not loaded is
      lost: the table plus the credit shrinks by exactly that amount, and
      only matches give credit back. */
  lemma LoadDropsCredit(c: Config, e: Engine)
    requires Inv(c, e) && |e.buffer| < e.w
    ensures Load(c, e).buffer == []
    ensures Stored(c, Load(c, e).table) + Load(c, e).w == Stored(c, e.table) + e.w - (e.w - |e.buffer|)
    ensures Stored(c, Load(c, e).table) + Load(c, e).w < Stored(c, e.table) + e.w
  {
    LoadPreservesInv(c, e);
  }

  /** The oldest key after loading is the oldest key before, or, when the
      queue was empty, the key of the first tuple loaded. */
  lemma OldestKeyIsFifo(c: Config, e: Engine)
    ensures OldestKey(Load(c, e)) ==
      if e.queue != [] then Some(e.queue[0])
      else if LoadCount(e) > 0 then Some(KeyOf(e.buffer[0]))
      else None
  {
    LoadNQueue(c, e, LoadCount(e));
  }

  // ---------------------------------------------------------------------
  // Probing

  /** Probing with one row deletes that row's key from every chain, and
      touches nothing else in the table. */
  lemma ProbeRowChains(c: Config, e: Engine, row: Record)
    requires SlotsValid(c, e.table)
    ensures forall s :: Chain(ProbeRow(c, e, row).table, s) == Without(Chain(e.table, s), KeyOf(row))
  {
    var k := KeyOf(row);
    var t' := ProbeRow(c, e, row).table;
    forall s
      ensures Chain(t', s) == Without(Chain(e.table, s), k)
    {
      if s != Slot(c, k) {
        assert Chain(t', s) == Chain(e.table, s);
        forall r | r in Chain(e.table, s) ensures KeyOf(r) != k {
          assert Slot(c, KeyOf(r)) == s;
        }
        KeyAbsent(Chain(e.table, s), k);
      }
    }
  }

  /** Probing with one row removes from the table exactly the tuples it
      appends to the output. */
  lemma ProbeRowCounts(c: Config, e: Engine, row: Record)
    requires SlotsValid(c, e.table)
    ensures ProbeRow(c, e, row).out == e.out + JoinRow(Chain(e.table, Slot(c, KeyOf(row))), row)
    ensures ProbeRow(c, e, row).joined == e.joined + |JoinRow(Chain(e.table, Slot(c, KeyOf(row))), row)|
    ensures Stored(c, ProbeRow(c, e, row).table) + ProbeRow(c, e, row).joined == Stored(c, e.table) + e.joined
  {
    var k := KeyOf(row);
    var s := Slot(c, k);
    var t' := ProbeRow(c, e, row).table;
    ProbeRowChains(c, e, row);
    var ch := Chain(e.table, s);
    if s in e.table {
      SplitLength(ch, k);
      JoinRowLength(ch, row);
      assert forall x :: x != s ==> Chain(t', x) == Chain(e.table, x);
      CountBelowUpdate(e.table, t', s, c.hS);
    } else {
      assert ProbeRow(c, e, row) == e;
      assert JoinRow(ch, row) == [];
      assert e.out + [] == e.out;
    }
  }

  /** Other keys survive `deque.remove(k)`. */
  lemma RemoveFirstKeeps(q: seq<string>, k: string, k': string)
    requires k' in q && k' != k
    ensures k' in RemoveFirst(q, k)
  {
    assert multiset(q)[k'] > 0;
  }

  /** Probing with one row keeps the key map in step with the table. */
  lemma ProbeRowKeys(c: Config, e: Engine, row: Record)
    requires SlotsValid(c, e.table) && KeysTracked(c, e)
    ensures KeysTracked(c, ProbeRow(c, e, row))
  {
    var k := KeyOf(row);
    var e' := ProbeRow(c, e, row);
    ProbeRowChains(c, e, row);
    if Slot(c, k) in e.table {
      assert e'.keyMap == if k in e.keyMap then e.keyMap - {k} else e.keyMap;
      assert e'.queue == if k in e.keyMap then RemoveFirst(e.queue, k) else e.queue;
      DeleteKeyQueue(e, e', k);
      DeleteKeyMap(c, e, e', k);
      DeleteKeyTable(c, e, e', k);
    }
  }

  /** After key k is deleted, the keys left in the key map are still
      queued. */
  lemma DeleteKeyQueue(e: Engine, e': Engine, k: string)
    requires forall k' :: k' in e.keyMap ==> k' in e.queue
    requires e'.keyMap == if k in e.keyMap then e.keyMap - {k} else e.keyMap
    requires e'.queue == if k in e.keyMap then RemoveFirst(e.queue, k) else e.queue
    ensures forall k' :: k' in e'.keyMap ==> k' in e'.queue
  {
    forall k' | k' in e'.keyMap
      ensures k' in e'.queue
    {
      if k in e.keyMap {
        RemoveFirstKeeps(e.queue, k, k');
      }
    }
  }

  /** After the tuples of key k leave the table, every other key's latest
      tuple is still in its slot. */
  lemma DeleteKeyMap(c: Config, e: Engine, e': Engine, k: string)
    requires forall k' :: k' in e.keyMap ==>
               KeyOf(e.keyMap[k']) == k' && e.keyMap[k'] in Chain(e.table, Slot(c, k'))
    requires e'.keyMap == if k in e.keyMap then e.keyMap - {k} else e.keyMap
    requires forall s :: Chain(e'.table, s) == Without(Chain(e.table, s), k)
    requires k !in e'.keyMap
    ensures forall k' :: k' in e'.keyMap ==>
              KeyOf(e'.keyMap[k']) == k' && e'.keyMap[k'] in Chain(e'.table, Slot(c, k'))
  {
    forall k' | k' in e'.keyMap
      ensures KeyOf(e'.keyMap[k']) == k' && e'.keyMap[k'] in Chain(e'.table, Slot(c, k'))
    {
      var r := e.keyMap[k'];
      assert r in Chain(e.table, Slot(c, k')) && KeyOf(r) == k' != k;
      assert r in Without(Chain(e.table, Slot(c, k')), k);
    }
  }

  /** After the tuples of key k leave the table, every stored tuple's key is
      still in the key map. */
  lemma DeleteKeyTable(c: Config, e: Engine, e': Engine, k: string)
    requires forall s, r :: s in e.table && r in e.table[s] ==> KeyOf(r) in e.keyMap
    requires e'.keyMap == if k in e.keyMap then e.keyMap - {k} else e.keyMap
    requires forall s :: Chain(e'.table, s) == Without(Chain(e.table, s), k)
    ensures forall s, r :: s in e'.table && r in e'.table[s] ==> KeyOf(r) in e'.keyMap
  {
    forall s, r | s in e'.table && r in e'.table[s]
      ensures KeyOf(r) in e'.keyMap
    {
      assert r in Chain(e'.table, s);
      assert r in Chain(e.table, s) && KeyOf(r) != k;
      assert s in e.table && r in e.table[s];
    }
  }


  lemma ProbeRowCore(c: Config, e: Engine, row: Record)
    requires Core(c, e)
    ensures Core(c, ProbeRow(c, e, row))
    ensures forall s :: Chain(ProbeRow(c, e, row).table, s) == Without(Chain(e.table, s), KeyOf(row))
    ensures ProbeRow(c, e, row).out == e.out + JoinRow(Chain(e.table, Slot(c, KeyOf(row))), row)
  {
    ProbeRowChains(c, e, row);
    ProbeRowCounts(c, e, row);
    ProbeRowKeys(c, e, row);
    ProbeRowSlots(c, e, row);
  }

  /** Probing with one row stores no empty chain and moves no tuple. */
  lemma ProbeRowSlots(c: Config, e: Engine, row: Record)
    requires SlotsValid(c, e.table)
    ensures SlotsValid(c, ProbeRow(c, e, row).table)
  {
    var t' := ProbeRow(c, e, row).table;
    ProbeRowChains(c, e, row);
    forall s | s in t'
      ensures 0 <= s < c.hS && t'[s] != [] && forall r :: r in t'[s] ==> Slot(c, KeyOf(r)) == s
    {
      assert t'[s] == Chain(t', s);
      assert s in e.table;
    }
  }

  /** `ProbeRow` field by field. */
  lemma ProbeRowFields(c: Config, e: Engine, row: Record)
    ensures var k := KeyOf(row);
            var s := Slot(c, k);
            ProbeRow(c, e, row) ==
              if s !in e.table then e
              else
                var hits := JoinRow(e.table[s], row);
                Engine(e.buffer, e.w, Replace(e.table, s, Without(e.table[s], k)),
                       if k in e.keyMap then RemoveFirst(e.queue, k) else e.queue,
                       if k in e.keyMap then e.keyMap - {k} else e.keyMap,
                       e.disk, e.out + hits, e.joined + |hits|, e.processed, e.partitions, e.stop)
  {
  }

  /** The inner loop of the probe, one stream tuple further: the tuple is
      joined with the row when their keys agree. */
  lemma JoinRowStep(out: seq<Record>, cs: seq<Record>, j: nat, row: Record)
    requires j < |cs|
    ensures var hit: seq<Record> := if KeyOf(cs[j]) == KeyOf(row) then [Merge(cs[j], row)] else [];
            && out + JoinRow(cs[..j + 1], row) == (out + JoinRow(cs[..j], row)) + hit
            && |JoinRow(cs[..j + 1], row)| == |JoinRow(cs[..j], row)| + |hit|
  {
    Prefix(cs, j + 1);
    var hit: seq<Record> := if KeyOf(cs[j]) == KeyOf(row) then [Merge(cs[j], row)] else [];
    assert JoinRow(cs[..j + 1], row) == JoinRow(cs[..j], row) + hit;
    AppendAssoc(out, JoinRow(cs[..j], row), hit);
  }

  /** The output of probing with the rows against table t, defined without
      deleting anything: each row joins its chain in t only if no earlier
      row had its key. */
  ghost function FirstJoins(c: Config, t: Table, rows: seq<Record>): seq<Record>
  {
    if rows == [] then []
    else
      var prev := rows[..|rows| - 1];
      var row := rows[|rows| - 1];
      FirstJoins(c, t, prev) +
        (if KeyOf(row) in KeysOf(prev) then [] else JoinRow(Chain(t, Slot(c, KeyOf(row))), row))
  }

  /** The probe loop, one disk row further. */
  lemma ProbeRowsStep(c: Config, e: Engine, rows: seq<Record>, i: nat)
    requires i < |rows|
    ensures ProbeRows(c, e, rows[..i + 1]) == ProbeRow(c, ProbeRows(c, e, rows[..i]), rows[i])
  {
    Prefix(rows, i + 1);
  }

  /** The table after probing with a sequence of rows: the rows' keys deleted
      from every chain, other tuples left in their order. The output: each
      row, if it is the first of its key, joined against the table as it was
      before probing; any later row of the same key joins nothing. */
  lemma {:induction false} ProbeRowsCore(c: Config, e: Engine, rows: seq<Record>)
    requires Core(c, e)
    ensures Core(c, ProbeRows(c, e, rows))
    ensures forall s :: Chain(ProbeRows(c, e, rows).table, s) == WithoutKeys(Chain(e.table, s), KeysOf(rows))
    ensures ProbeRows(c, e, rows).out == e.out + FirstJoins(c, e.table, rows)
  {
    if rows == [] {
      assert FirstJoins(c, e.table, rows) == [];
      assert e.out + [] == e.out;
      forall s ensures Chain(e.table, s) == WithoutKeys(Chain(e.table, s), []) {
        WithoutNoKeys(Chain(e.table, s));
      }
    } else {
      var prev := rows[..|rows| - 1];
      var row := rows[|rows| - 1];
      var k := KeyOf(row);
      ProbeRowsCore(c, e, prev);
      var mid := ProbeRows(c, e, prev);
      ProbeRowCore(c, mid, row);
      assert KeysOf(rows) == KeysOf(prev) + [k];
      forall s ensures Chain(ProbeRows(c, e, rows).table, s) == WithoutKeys(Chain(e.table, s), KeysOf(rows)) {
        WithoutThenKey(Chain(e.table, s), KeysOf(prev), k);
      }
      var ch := Chain(e.table, Slot(c, k));
      assert Chain(mid.table, Slot(c, k)) == WithoutKeys(ch, KeysOf(prev));
      JoinAfterRemoval(ch, KeysOf(prev), row);
      assert ProbeRows(c, e, rows) == ProbeRow(c, mid, row);
      var j := JoinRow(Chain(mid.table, Slot(c, k)), row);
      assert j == if k in KeysOf(prev) then [] else JoinRow(ch, row);
      assert FirstJoins(c, e.table, rows) == FirstJoins(c, e.table, prev) + j;
      assert ProbeRow(c, mid, row).out == mid.out + j;
      assert mid.out == e.out + FirstJoins(c, e.table, prev);
      AppendAssoc(e.out, FirstJoins(c, e.table, prev), j);
    }
  }

  /** `_probe_and_join` keeps the invariant; the records appended, the match
      count, the rise of `tuples_joined` and the rise of w are one number;
      the output only grows at its end; no tuple of a disk row's key is left
      in the table; and every other tuple keeps its place in its chain. */
  lemma ProbePreservesInv(c: Config, e: Engine)
    requires Inv(c, e)
    ensures Inv(c, Probe(c, e))
    ensures Probe(c, e).w - e.w == Probe(c, e).joined - e.joined == |Probe(c, e).out| - |e.out|
    ensures Probe(c, e).out == e.out + FirstJoins(c, e.table, e.disk)
    ensures forall s :: Chain(Probe(c, e).table, s) == WithoutKeys(Chain(e.table, s), KeysOf(e.disk))
    ensures forall s, r :: s in Probe(c, e).table && r in Probe(c, e).table[s] ==> KeyOf(r) !in KeysOf(e.disk)
  {
    ProbeRowsCore(c, e, e.disk);
    var p := Probe(c, e);
    forall s, r | s in p.table && r in p.table[s]
      ensures KeyOf(r) !in KeysOf(e.disk)
    {
      assert r in Chain(p.table, s);
    }
  }

  /** When every disk row has the same key, as a partition loaded for one key
      does, the probe joins the tuples of that key with the first row only. */
  lemma {:induction false} FirstJoinsSingleKey(c: Config, t: Table, rows: seq<Record>, k: string)
    requires rows != []
    requires forall i :: 0 <= i < |rows| ==> KeyOf(rows[i]) == k
    ensures FirstJoins(c, t, rows) == JoinRow(Chain(t, Slot(c, k)), rows[0])
  {
    var prev := rows[..|rows| - 1];
    if prev != [] {
      FirstJoinsSingleKey(c, t, prev, k);
      assert KeysOf(prev)[0] == k;
    }
  }

  // ---------------------------------------------------------------------
  // Loading a partition

  /** The partition holds min(vP, n) rows, all of key k, and is the front of
      the relation's rows of key k, so it is in relation order. */
  lemma PartitionShape(c: Config, rel: seq<Record>, k: string)
    ensures |Partition(c, rel, k)| == if |WithKey(rel, k)| <= c.vP then |WithKey(rel, k)| else c.vP
    ensures Partition(c, rel, k) == WithKey(rel, k)[..|Partition(c, rel, k)|]
    ensures forall i :: 0 <= i < |Partition(c, rel, k)| ==> KeyOf(Partition(c, rel, k)[i]) == k
  {
    var p := Partition(c, rel, k);
    forall i | 0 <= i < |p| ensures KeyOf(p[i]) == k {
      assert p[i] in WithKey(rel, k);
    }
  }

  /** The rows of key k among the first i rows of the relation are a prefix
      of all its rows of key k. */
  lemma {:induction false} WithKeyPrefix(rel: seq<Record>, i: nat, k: string)
    requires i <= |rel|
    ensures WithKey(rel[..i], k) <= WithKey(rel, k)
    decreases |rel|
  {
    if i < |rel| {
      var init := rel[..|rel| - 1];
      assert rel[..i] == init[..i];
      WithKeyPrefix(init, i, k);
    } else {
      assert rel[..i] == rel;
    }
  }

  /** Once the first i rows hold vP rows of key k, the rest of the relation
      does not change the partition: the scan may stop there. */
  lemma PartitionSaturated(c: Config, rel: seq<Record>, i: nat, k: string)
    requires i <= |rel| && |WithKey(rel[..i], k)| >= c.vP
    ensures Partition(c, rel, k) == Partition(c, rel[..i], k)
  {
    WithKeyPrefix(rel, i, k);
    var m := WithKey(rel, k);
    var mi := WithKey(rel[..i], k);
    assert mi[..c.vP] == m[..c.vP];
  }

  /** The scan that builds a partition, one row further: row i is appended
      when it has key k. */
  lemma WithKeyStep(rel: seq<Record>, i: nat, k: string)
    requires i < |rel|
    ensures WithKey(rel[..i + 1], k) == WithKey(rel[..i], k) + (if KeyOf(rel[i]) == k then [rel[i]] else [])
  {
    Prefix(rel, i + 1);
  }

  /** One row of the scan in `_load_disk_partition`: the buffer either
      stays below vP and is the rows of key k seen so far, or has reached vP
      and is the whole partition. */
  lemma ScanStep(c: Config, rel: seq<Record>, i: nat, k: string, buffer: seq<Record>)
    requires i < |rel| && buffer == WithKey(rel[..i], k) && (i > 0 ==> |buffer| < c.vP)
    ensures var next := if KeyOf(rel[i]) == k && |buffer| < c.vP then buffer + [rel[i]] else buffer;
            && (|next| < c.vP ==> next == WithKey(rel[..i + 1], k))
            && (|next| >= c.vP ==> next == Partition(c, rel, k))
  {
    WithKeyStep(rel, i, k);
    var next := if KeyOf(rel[i]) == k && |buffer| < c.vP then buffer + [rel[i]] else buffer;
    if |next| >= c.vP {
      PartitionSaturated(c, rel, i + 1, k);
    }
  }

  /** Where the scan stops, the buffer is the partition: either vP rows were
      found, or the whole relation was read. */
  lemma ScanEnd(c: Config, rel: seq<Record>, i: nat, k: string, buffer: seq<Record>)
    requires i <= |rel|
    requires (|buffer| >= c.vP && buffer == Partition(c, rel, k)) ||
             (i == |rel| && buffer == WithKey(rel[..i], k) && |buffer| <= c.vP)
    ensures buffer == Partition(c, rel, k)
  {
    if !(|buffer| >= c.vP && buffer == Partition(c, rel, k)) {
      assert rel[..i] == rel;
    }
  }

  // ---------------------------------------------------------------------
  // add_stream_tuple

  /** The buffer never grows past its capacity, and a tuple is refused
      exactly when the buffer is full. */
  lemma PutPreservesInv(c: Config, e: Engine, t: Record)
    requires Inv(c, e)
    ensures Put(e, t).None? <==> |e.buffer| == StreamBufferCapacity
    ensures Put(e, t).Some? ==> Inv(c, Put(e, t).value) && Put(e, t).value.buffer == e.buffer + [t]
  {
    if Put(e, t).Some? {
      var e' := Put(e, t).value;
      assert e'.table == e.table && e'.keyMap == e.keyMap && e'.queue == e.queue;
    }
  }

  /** Signalling the stop keeps the invariant. */
  lemma SignalStopPreservesInv(c: Config, e: Engine)
    requires Inv(c, e)
    ensures Inv(c, SignalStop(e)) && SignalStop(e).stop
  {
    var e' := SignalStop(e);
    assert e'.table == e.table && e'.keyMap == e.keyMap && e'.queue == e.queue;
  }

  // ---------------------------------------------------------------------
  // The main loop

  /** `__init__` establishes the invariant. */
  lemma InitialInv(c: Config)
    ensures Inv(c, Initial(c))
  {
    CountBelowEmpty(c.hS);
  }

  /** Probing a freshly loaded partition keeps the invariant and only
      appends to the output. */
  lemma ProbeStep(c: Config, e: Engine)
    requires Inv(c, e)
    ensures Inv(c, Probe(c, e))
    ensures |e.out| <= |Probe(c, e).out|
    ensures Probe(c, e).out[..|e.out|] == e.out
  {
    ProbePreservesInv(c, e);
    PrefixOfAppend(e.out, FirstJoins(c, e.table, e.disk));
  }

  /** The invariant does not depend on the disk buffer or the partition
      count. */
  lemma InvWithPartition(c: Config, e: Engine, disk: seq<Record>, partitions: nat)
    requires Inv(c, e)
    ensures Inv(c, e.(disk := disk, partitions := partitions))
  {
    var e' := e.(disk := disk, partitions := partitions);
    assert e'.table == e.table && e'.keyMap == e.keyMap && e'.queue == e.queue;
  }

  /** What one iteration leaves behind: it loads the stream buffer, and then
      probes with the partition of the oldest key when there is one and it
      is not empty text. */
  lemma IterateState(c: Config, e: Engine, rel: seq<Record>)
    ensures var e1 := Load(c, e);
            Iterate(c, e, rel).0 ==
              if e1.queue != [] && e1.queue[0] != "" then
                Probe(c, e1.(disk := Partition(c, rel, e1.queue[0]), partitions := e1.partitions + 1))
              else e1
  {
  }

  /** The three ways out of one iteration, each written out: nothing left
      to do, no usable oldest key, or a probe with the oldest key's
      partition. */
  lemma IterateBranches(c: Config, e: Engine, rel: seq<Record>)
    ensures var e1 := Load(c, e);
            LoadCount(e) == 0 && e1.buffer == [] && e1.queue == [] ==>
              Iterate(c, e, rel) == (e1, true)
    ensures var e1 := Load(c, e);
            !(LoadCount(e) == 0 && e1.buffer == [] && e1.queue == []) &&
            (e1.queue == [] || e1.queue[0] == "") ==>
              Iterate(c, e, rel) == (e1, e1.stop)
    ensures var e1 := Load(c, e);
            !(LoadCount(e) == 0 && e1.buffer == [] && e1.queue == []) &&
            e1.queue != [] && e1.queue[0] != "" ==>
              var e3 := Probe(c, e1.(disk := Partition(c, rel, e1.queue[0]), partitions := e1.partitions + 1));
              Iterate(c, e, rel) == (e3, e3.stop && e3.queue == [])
  {
  }

  /** One iteration keeps the invariant and only appends to the output. */
  lemma IteratePreservesInv(c: Config, e: Engine, rel: seq<Record>)
    requires Inv(c, e)
    ensures Inv(c, Iterate(c, e, rel).0)
    ensures |e.out| <= |Iterate(c, e, rel).0.out|
    ensures Iterate(c, e, rel).0.out[..|e.out|] == e.out
  {
    var e1 := Load(c, e);
    assert Inv(c, e1) by {
      LoadPreservesInv(c, e);
    }
    assert e1.out == e.out;
    var r := Iterate(c, e, rel).0;
    IterateState(c, e, rel);
    if e1.queue != [] && e1.queue[0] != "" {
      var e2 := e1.(disk := Partition(c, rel, e1.queue[0]), partitions := e1.partitions + 1);
      InvWithPartition(c, e1, e2.disk, e2.partitions);
      assert r == Probe(c, e2);
      ProbeStep(c, e2);
    } else {
      assert r == e1;
    }
  }

  /** Probing with disk rows that all have key k appends, to the output,
      every tuple of key k in the table merged with the first row, in chain
      order, and removes exactly those tuples from k's slot. */
  lemma ProbeOneKey(c: Config, e: Engine, k: string)
    requires Inv(c, e) && e.disk != []
    requires forall i :: 0 <= i < |e.disk| ==> KeyOf(e.disk[i]) == k
    ensures var ch := Chain(e.table, Slot(c, k));
            && Probe(c, e).out == e.out + JoinRow(ch, e.disk[0])
            && |JoinRow(ch, e.disk[0])| == |WithKey(ch, k)|
            && Chain(Probe(c, e).table, Slot(c, k)) == Without(ch, k)
  {
    ProbePreservesInv(c, e);
    FirstJoinsSingleKey(c, e.table, e.disk, k);
    var ch := Chain(e.table, Slot(c, k));
    JoinRowLength(ch, e.disk[0]);
    WithSingleKey(ch, e.disk, k);
  }

  /** Probing with the partition of key k, as an iteration does once k is
      the oldest key. */
  lemma ProbePartition(c: Config, e: Engine, rel: seq<Record>, k: string)
    requires Inv(c, e) && Partition(c, rel, k) != []
    ensures var p := Partition(c, rel, k);
            var ch := Chain(e.table, Slot(c, k));
            var r := Probe(c, e.(disk := p, partitions := e.partitions + 1));
            && r.out == e.out + JoinRow(ch, p[0])
            && |JoinRow(ch, p[0])| == |WithKey(ch, k)|
            && Chain(r.table, Slot(c, k)) == Without(ch, k)
  {
    PartitionShape(c, rel, k);
    var p := Partition(c, rel, k);
    InvWithPartition(c, e, p, e.partitions + 1);
    var e2 := e.(disk := p, partitions := e.partitions + 1);
    assert e2.table == e.table && e2.out == e.out && e2.disk[0] == p[0];
    ProbeOneKey(c, e2, k);
  }

  /** An iteration that probes key k appends, to the output, every tuple of
      key k then in the table merged with the first relation row of key k,
      in chain order, and removes exactly those tuples from the table. */
  lemma IterateJoinsOldestKey(c: Config, e: Engine, rel: seq<Record>, k: string)
    requires Inv(c, e)
    requires OldestKey(Load(c, e)) == Some(k) && k != ""
    requires Partition(c, rel, k) != []
    ensures var e1 := Load(c, e);
            var ch := Chain(e1.table, Slot(c, k));
            && Iterate(c, e, rel).0.out == e1.out + JoinRow(ch, Partition(c, rel, k)[0])
            && |JoinRow(ch, Partition(c, rel, k)[0])| == |WithKey(ch, k)|
            && Chain(Iterate(c, e, rel).0.table, Slot(c, k)) == Without(ch, k)
  {
    var e1 := Load(c, e);
    var ch := Chain(e1.table, Slot(c, k));
    var row := Partition(c, rel, k)[0];
    var e3 := Probe(c, e1.(disk := Partition(c, rel, k), partitions := e1.partitions + 1));
    assert Iterate(c, e, rel).0 == e3 by {
      assert e1.queue != [] && e1.queue[0] == k;
      IterateState(c, e, rel);
    }
    assert e3.out == e1.out + JoinRow(ch, row) && |JoinRow(ch, row)| == |WithKey(ch, k)|
        && Chain(e3.table, Slot(c, k)) == Without(ch, k) by {
      LoadPreservesInv(c, e);
      ProbePartition(c, e1, rel, k);
    }
  }

  /** Deleting the keys of rows that all have key k is deleting k. */
  lemma {:induction false} WithSingleKey(cs: seq<Record>, rows: seq<Record>, k: string)
    requires rows != []
    requires forall i :: 0 <= i < |rows| ==> KeyOf(rows[i]) == k
    ensures WithoutKeys(cs, KeysOf(rows)) == Without(cs, k)
  {
    if cs != [] {
      WithSingleKey(cs[..|cs| - 1], rows, k);
      assert KeysOf(rows)[0] == k;
      assert KeyOf(cs[|cs| - 1]) in KeysOf(rows) <==> KeyOf(cs[|cs| - 1]) == k;
    }
  }

  /** Probing with a row whose key has no tuple in its slot changes
      nothing. */
  lemma ProbeRowUnchanged(c: Config, e: Engine, row: Record)
    requires KeyOf(row) !in e.keyMap
    requires Slot(c, KeyOf(row)) in e.table ==> e.table[Slot(c, KeyOf(row))] != []
    requires forall r :: r in Chain(e.table, Slot(c, KeyOf(row))) ==> KeyOf(r) != KeyOf(row)
    ensures ProbeRow(c, e, row) == e
  {
    var k := KeyOf(row);
    var s := Slot(c, k);
    if s in e.table {
      var ch := e.table[s];
      assert JoinRow(ch, row) == [] && Without(ch, k) == ch by {
        KeyAbsent(ch, k);
        JoinRowLength(ch, row);
      }
      assert e.out + JoinRow(ch, row) == e.out by {
        AppendEmpty(e.out);
      }
      assert Replace(e.table, s, Without(ch, k)) == e.table;
    }
  }


  /** Probing with a row whose key has no tuple in the table changes
      nothing. */
  lemma ProbeRowNoMatch(c: Config, e: Engine, row: Record)
    requires Core(c, e) && KeyOf(row) !in e.keyMap
    ensures ProbeRow(c, e, row) == e
  {
    var k := KeyOf(row);
    var s := Slot(c, k);
    forall r | r in Chain(e.table, s) ensures KeyOf(r) != k {
      assert KeyOf(r) in e.keyMap;
    }
    ProbeRowUnchanged(c, e, row);
  }

  lemma {:induction false} ProbeRowsNoMatch(c: Config, e: Engine, rows: seq<Record>)
    requires Core(c, e)
    requires forall i :: 0 <= i < |rows| ==> KeyOf(rows[i]) !in e.keyMap
    ensures ProbeRows(c, e, rows) == e
  {
    if rows != [] {
      var prev := rows[..|rows| - 1];
      ProbeRowsNoMatch(c, e, prev);
      ProbeRowNoMatch(c, e, rows[|rows| - 1]);
    }
  }

  /** An iteration with no free slot whose oldest key is stale (no longer in
      the key map) or has no relation row changes nothing but the disk
      buffer and the partition count, and does not break the loop. */
  lemma IterateStalls(c: Config, e: Engine, rel: seq<Record>)
    requires Inv(c, e) && e.w == 0 && e.queue != [] && e.queue[0] != ""
    requires e.queue[0] !in e.keyMap || Partition(c, rel, e.queue[0]) == []
    ensures Iterate(c, e, rel) ==
      (e.(disk := Partition(c, rel, e.queue[0]), partitions := e.partitions + 1), false)
  {
    var k := e.queue[0];
    var p := Partition(c, rel, k);
    var e2 := e.(disk := p, partitions := e.partitions + 1);
    LoadIdle(c, e);
    PartitionShape(c, rel, k);
    ProbeNoMatch(c, e2);
    assert Iterate(c, e, rel) == (Probe(c, e2), Probe(c, e2).stop && Probe(c, e2).queue == []);
  }

  /** With no free slot, loading does nothing. */
  lemma LoadIdle(c: Config, e: Engine)
    requires e.w == 0
    ensures Load(c, e) == e
  {
  }

  /** Probing with disk rows none of whose keys has a tuple in the table
      changes nothing. */
  lemma ProbeNoMatch(c: Config, e: Engine)
    requires Core(c, e)
    requires forall i :: 0 <= i < |e.disk| ==> KeyOf(e.disk[i]) !in e.keyMap
    ensures Probe(c, e) == e
  {
    ProbeRowsNoMatch(c, e, e.disk);
  }


  /** Hence from such a state the main loop never ends of its own accord,
      however many iterations it is given. */
  lemma {:induction false} RunStalls(c: Config, e: Engine, rel: seq<Record>, fuel: nat)
    requires Inv(c, e) && Running(e) && e.w == 0 && e.queue != [] && e.queue[0] != ""
    requires e.queue[0] !in e.keyMap || Partition(c, rel, e.queue[0]) == []
    ensures !Run(c, e, rel, fuel).1
    decreases fuel
  {
    if fuel > 0 {
      IterateStalls(c, e, rel);
      var e' := e.(disk := Partition(c, rel, e.queue[0]), partitions := e.partitions + 1);
      RunAfter(c, e, rel, fuel, e', false);
      RunStalls(c, e', rel, fuel - 1);
    }
  }

  /** An iteration whose oldest key is the empty key loads what it can, then
      takes the `not oldest_key` branch: no partition is loaded, nothing is
      probed, and the loop breaks exactly when the stop flag is set. The
      empty key stays at the front. */
  lemma EmptyKeyStalls(c: Config, e: Engine, rel: seq<Record>)
    requires e.queue != [] && e.queue[0] == ""
    ensures Iterate(c, e, rel) == (Load(c, e), e.stop)
    ensures Load(c, e).queue != [] && Load(c, e).queue[0] == ""
    ensures Load(c, e).out == e.out && Load(c, e).partitions == e.partitions
  {
    LoadNQueue(c, e, LoadCount(e));
  }

  /** Hence with the empty key at the front the main loop never ends of its
      own accord while the stream is open, and joins nothing; once the stop
      flag is set it breaks on its next iteration, leaving every stored tuple
      unjoined. */
  lemma {:induction false} RunEmptyKeyStalls(c: Config, e: Engine, rel: seq<Record>, fuel: nat)
    requires e.queue != [] && e.queue[0] == ""
    ensures !e.stop ==> !Run(c, e, rel, fuel).1 && Run(c, e, rel, fuel).0.out == e.out
    ensures e.stop && e.buffer != [] && fuel > 0 ==> Run(c, e, rel, fuel) == (Load(c, e), true)
    decreases fuel
  {
    if fuel > 0 && Running(e) {
      EmptyKeyStalls(c, e, rel);
      RunAfter(c, e, rel, fuel, Load(c, e), e.stop);
      if !e.stop {
        RunEmptyKeyStalls(c, Load(c, e), rel, fuel - 1);
      }
    }
  }

  /** One turn of the main loop, written out. */
  lemma RunStep(c: Config, e: Engine, rel: seq<Record>, fuel: nat)
    requires Running(e) && fuel > 0
    ensures Run(c, e, rel, fuel) ==
      if Iterate(c, e, rel).1 then (Iterate(c, e, rel).0, true)
      else Run(c, Iterate(c, e, rel).0, rel, fuel - 1)
  {
    assert Run(c, e, rel, fuel) == Continue(c, e, rel, fuel) == Resume(c, e, rel, fuel);
  }

  /** The rest of the main loop after one iteration that left e' and said
      whether to break. */
  lemma RunAfter(c: Config, e: Engine, rel: seq<Record>, fuel: nat, e': Engine, stop: bool)
    requires Running(e) && fuel > 0
    requires (e', stop) == Iterate(c, e, rel)
    ensures Run(c, e, rel, fuel) == if stop then (e', true) else Run(c, e', rel, fuel - 1)
  {
    RunStep(c, e, rel, fuel);
  }

  /** Where the main loop has got to when it exits: it broke, it stopped
      running, or it ran out of iterations. */
  lemma RunExit(c: Config, start: Engine, rel: seq<Record>, fuel: nat, e: Engine, remaining: nat, stop: bool)
    requires Inv(c, start)
    requires Run(c, start, rel, fuel) == if stop then (e, true) else Run(c, e, rel, remaining)
    requires !stop ==> !Running(e) || remaining == 0
    ensures Run(c, start, rel, fuel) == (e, stop || !Running(e))
    ensures |start.out| <= |e.out| && e.out[..|start.out|] == start.out
  {
    RunPreservesInv(c, start, rel, fuel);
  }

  /** A loop that is not running, or has no iterations left, returns the
      state it was given. */
  lemma RunDone(c: Config, e: Engine, rel: seq<Record>, fuel: nat)
    requires !Running(e) || fuel == 0
    ensures Run(c, e, rel, fuel).0 == e
  {
  }

  /** One turn of the main loop from a state that keeps the invariant: the
      state it leaves keeps it too and extends the output, and the rest of
      the loop runs from there unless it broke. */
  lemma RunNext(c: Config, e: Engine, rel: seq<Record>, fuel: nat) returns (e1: Engine, stop: bool)
    requires Inv(c, e) && Running(e) && fuel > 0
    ensures Inv(c, e1) && |e.out| <= |e1.out| && e1.out[..|e.out|] == e.out
    ensures Run(c, e, rel, fuel) == if stop then (e1, true) else Run(c, e1, rel, fuel - 1)
  {
    IteratePreservesInv(c, e, rel);
    e1, stop := Iterate(c, e, rel).0, Iterate(c, e, rel).1;
    RunAfter(c, e, rel, fuel, e1, stop);
  }

  /** The main loop keeps the invariant and only appends to the output. */
  lemma {:induction false} RunPreservesInv(c: Config, e: Engine, rel: seq<Record>, fuel: nat)
    requires Inv(c, e)
    ensures Inv(c, Run(c, e, rel, fuel).0)
    ensures |e.out| <= |Run(c, e, rel, fuel).0.out|
    ensures Run(c, e, rel, fuel).0.out[..|e.out|] == e.out
    decreases fuel
  {
    if !Running(e) || fuel == 0 {
      RunDone(c, e, rel, fuel);
    } else {
      var e1, stop := RunNext(c, e, rel, fuel);
      if !stop {
        RunPreservesInv(c, e1, rel, fuel - 1);
        PrefixTrans(e.out, e1.out, Run(c, e1, rel, fuel - 1).0.out);
      }
    }
  }
}
