/** What a sliding window does to appending and to freeing.  Past the window a table is meant to
    repeat itself; on those grounds only that part of it is released. */
module SlidingWindow {
  import opened Common
  import opened Arithmetic
  import opened BlockState
  import opened RefCounts
  import opened Allocation
  import opened Sharing
  import opened Appending

  ghost predicate Pools(m: State) {
    PoolOk(m, Gpu) && PoolOk(m, Cpu)
  }

  /** The blocks of `blocks` are counted `k` less in `m1` than in `m`, and no others. */
  ghost predicate Lowered(m: State, m1: State, blocks: set<Block>, k: nat) {
    && Pools(m1) && m1.rc.Keys == m.rc.Keys
    && forall b :: b in m.rc ==> m1.rc[b] == m.rc[b] - if b in blocks then k else 0
  }

  /** The loop of `free_block_table` releases every block once, however often the table has it. */
  lemma {:induction false} FreeLoopOnce(m: State, rest: Table, seen: set<nat>)
    requires Pools(m) && OnDevice(rest, Gpu)
    requires forall b :: b in rest ==> b in m.rc && (b.number in seen || m.rc[b] > 0)
    ensures
      var (m1, r) := FreeLoop(m, rest, seen);
      r.Ok? && m1.tables == m.tables && Lowered(m, m1, set b | b in rest && b.number !in seen, 1)
    decreases |rest|
  {
    hide PoolOk;
    if rest != [] {
      var b := rest[0];
      assert rest == [b] + rest[1..];
      if b.number in seen {
        FreeLoopOnce(m, rest[1..], seen);
      } else {
        ReleasePools(m, b);
        FreeLoopOnce(ReleaseBlock(m, b.device, b).0, rest[1..], seen + {b.number});
      }
    }
  }

  /** Freeing one sequence of the table `table`. */
  lemma FreeOne(m: State, w: nat, id: nat)
    requires Pools(m) && id in m.tables && w <= |m.tables[id]| && OnDevice(m.tables[id], Gpu)
    requires forall b :: b in m.tables[id][w..] ==> b in m.rc && m.rc[b] > 0
    ensures
      var (m1, r) := FreeSeq(m, Some(w), id);
      r.Ok? && m1.tables == m.tables - {id} && Lowered(m, m1, Elements(m.tables[id][w..]), 1)
  {
    hide PoolOk;
    var rest := m.tables[id][w..];
    FreeLoopOnce(m, rest, {});
    assert (set b | b in rest && b.number !in {}) == Elements(rest);
    var m1 := FreeLoop(m, rest, {}).0;
    SamePools(m1, m1.WithTables(m1.tables - {id}));
  }

  lemma SamePools(m: State, m1: State)
    requires Pools(m) && m1.rc == m.rc && m1.gpuFree == m.gpuFree && m1.cpuFree == m.cpuFree
    ensures Pools(m1)
  {
  }

  lemma {:induction false} FreeAllExact(m: State, w: nat, ids: seq<nat>, table: Table)
    requires Pools(m) && NoDup(ids) && w <= |table| && OnDevice(table, Gpu)
    requires forall id :: id in ids ==> id in m.tables && m.tables[id] == table
    requires forall b :: b in table[w..] ==> b in m.rc && m.rc[b] >= |ids|
    ensures
      var (m1, r) := FreeAll(m, Some(w), ids);
      r.Ok? && m1.tables == m.tables - Elements(ids) && Lowered(m, m1, Elements(table[w..]), |ids|)
    decreases |ids|
  {
    hide Pools, FreeSeq, OnDevice;
    if ids != [] {
      var id, rest := ids[0], ids[1..];
      assert ids == [id] + rest;
      FreeOne(m, w, id);
      FreeAllExact(FreeSeq(m, Some(w), id).0, w, rest, table);
      assert m.tables - {id} - Elements(rest) == m.tables - Elements(ids);
    }
  }

  // ---------------------------------------------------------------- allocate, then free

  /** The part of a round-robin table past the window has every block of it exactly if it goes
      once all the way round. */
  lemma PastWindow(w: nat, table: Table)
    requires 0 < w <= |table| && RoundRobin(Some(w), table) && NoDup(table[..w])
    ensures (forall b :: b in table ==> b in table[w..]) <==> |table| >= 2 * w
  {
    if |table| >= 2 * w {
      forall b | b in table
        ensures b in table[w..]
      {
        var i :| 0 <= i < |table| && table[i] == b;
        InRound(w, table, if i < w then i else i - w);
      }
    } else {
      var b := table[..w][w - 1];
      assert b == table[w - 1] && b in table;
      forall i | 0 <= i < |table[w..]|
        ensures table[w..][i] != b
      {
        DivUnique(w + i, w, 1);
        assert table[w..][i] == table[w + i] == table[..w][i];
      }
    }
  }

  lemma InRound(w: nat, table: Table, i: nat)
    requires 0 < w && i + w < |table| && RoundRobin(Some(w), table)
    ensures table[i + w] in table[w..] && (i < w ==> table[i + w] == table[i])
  {
    assert table[w..][i] == table[i + w];
    if i < w {
      DivUnique(i + w, w, 1);
    }
  }

  /** The tables are those of `m`, but the blocks of `table` that are not past the window are still
      counted `k` times. */
  ghost predicate LeftCounted(m: State, m2: State, table: Table, w: nat, k: nat)
    requires w <= |table|
  {
    && m2.tables == m.tables && m2.rc.Keys == m.rc.Keys
    && forall b :: b in m.rc ==> m2.rc[b] == if b in table && b !in table[w..] then k else m.rc[b]
  }

  /** With a window of `w` blocks, a group that was allocated `n` blocks is given back whole if and
      only if `n` is at least twice the window.  With fewer than `w` blocks freeing panics; between
      the two the first blocks of the table stay counted although no table has them. */
  lemma FreeRestores(m: State, w: nat, numGpu: nat, g: Group, n: nat) returns (table: Table)
    requires Pools(m) && w > 0 && CanAllocate(m, Some(w), numGpu, g) == CanNow && SharedPrompt(g, n)
    requires NoDup(IdsWith(g, Waiting)) && Elements(IdsWith(g, Waiting)) !! m.tables.Keys
    ensures
      var ids := IdsWith(g, Waiting);
      var (m1, r) := Allocate(m, Some(w), g);
      && r.Ok? && |table| == n && m1.tables == AssignAll(m.tables, Elements(ids), table)
      && var (m2, q) := FreeAll(m1, Some(w), ids);
         && (q.Ok? <==> n >= w) && (q.Err? ==> q.error == Panic)
         && (q.Ok? ==> LeftCounted(m, m2, table, w, |ids|))
         && (q.Ok? && m2.rc == m.rc <==> n >= 2 * w)
  {
    hide Pools, FreeSeq, CanAllocate, IdsWith, FirstBlocks, FreeAll, Allocate, RoundRobin, OnDevice, LeftCounted,
         SharedPrompt;
    FirstOfShared(g, n);
    var ids := IdsWith(g, Waiting);
    table := WindowedTable(m, w, numGpu, g);
    var m1 := Allocate(m, Some(w), g).0;
    assert ids[0] in Elements(ids);
    if n < w {
      FreePanics(m1, w, ids);
    } else {
      GivenBack(m, m1, w, ids, table);
    }
  }

  lemma GivenBack(m: State, m1: State, w: nat, ids: seq<nat>, table: Table)
    requires Pools(m1) && 0 < w <= |table| && ids != [] && NoDup(ids) && m1.rc.Keys == m.rc.Keys
    requires Elements(ids) !! m.tables.Keys && m1.tables == AssignAll(m.tables, Elements(ids), table)
    requires OnDevice(table, Gpu) && RoundRobin(Some(w), table) && NoDup(table[..w])
    requires forall b :: b in table ==> b in m.rc && m.rc[b] == 0 && m1.rc[b] == |ids|
    requires forall b :: b in m.rc && b !in table ==> m1.rc[b] == m.rc[b]
    ensures
      var (m2, q) := FreeAll(m1, Some(w), ids);
      q.Ok? && LeftCounted(m, m2, table, w, |ids|) && (m2.rc == m.rc <==> |table| >= 2 * w)
  {
    hide Pools, FreeAll, RoundRobin, OnDevice;
    assert forall id :: id in Elements(ids) <==> id in ids;
    assert forall b :: b in table[w..] ==> b in table;
    FreeAllExact(m1, w, ids, table);
    assert m1.tables - Elements(ids) == m.tables;
    PastWindow(w, table);
    Restored(m, FreeAll(m1, Some(w), ids).0, table, w, |ids|);
  }

  lemma WindowedTable(m: State, w: nat, numGpu: nat, g: Group) returns (table: Table)
    requires Pools(m) && w > 0 && CanAllocate(m, Some(w), numGpu, g) == CanNow
    ensures
      var n, ids := FirstBlocks(g, Waiting).value, IdsWith(g, Waiting);
      var (m1, r) := Allocate(m, Some(w), g);
      && r.Ok? && Pools(m1) && ids != [] && |table| == n && m1.rc.Keys == m.rc.Keys
      && m1.tables == AssignAll(m.tables, Elements(ids), table)
      && OnDevice(table, Gpu) && RoundRobin(Some(w), table) && (n >= w ==> NoDup(table[..w]))
      && (forall b :: b in table ==> b in m.rc && m.rc[b] == 0 && m1.rc[b] == |ids|)
      && (forall b :: b in m.rc && b !in table ==> m1.rc[b] == m.rc[b])
  {
    hide PoolOk, IdsWith, FirstBlocks, RoundRobin, OnDevice;
    FirstMeansSome(g, Waiting);
    AllocateMeetsVerdict(m, Some(w), numGpu, g);
    var n, ids := FirstBlocks(g, Waiting).value, IdsWith(g, Waiting);
    var m1 := Allocate(m, Some(w), g).0;
    table :| |table| == n && Filling(m, Some(w), |ids|, m1.WithTables(m.tables), table)
             && m1.tables == AssignAll(m.tables, Elements(ids), table);
    SamePools(m1.WithTables(m.tables), m1);
  }

  lemma FreePanics(m: State, w: nat, ids: seq<nat>)
    requires ids != [] && ids[0] in m.tables && |m.tables[ids[0]]| < w
    ensures FreeAll(m, Some(w), ids) == (m, Err(Panic))
  {
  }

  lemma Restored(m: State, m2: State, table: Table, w: nat, k: nat)
    requires k > 0 && w <= |table| && LeftCounted(m, m2, table, w, k)
    requires forall b :: b in table ==> b in m.rc && m.rc[b] == 0
    ensures m2.rc == m.rc <==> forall b :: b in table ==> b in table[w..]
  {
    if b :| b in table && b !in table[w..] {
      assert m2.rc[b] != m.rc[b];
    }
  }

  /** A sequence of three blocks, in a fresh pool of four with a window of two: one block is never
      given back. */
  lemma BlockLeaked()
    ensures
      var m := Initial(4, 0);
      var g := [SeqInfo(0, Waiting, 3)];
      var (m1, r) := Allocate(m, Some(2), g);
      var (m2, q) := FreeSeq(m1, Some(2), 0);
      CanAllocate(m, Some(2), 4, g) == CanNow && r.Ok? && q.Ok? && m2.tables == map[] && m2.rc != m.rc
  {
    hide Pools, FreeSeq, Allocate;
    var m := Initial(4, 0);
    var g := [SeqInfo(0, Waiting, 3)];
    InitialInv(4, 0);
    InvPools(m);
    assert IdsWith(g, Waiting) == [0];
    var table := FreeRestores(m, 2, 4, g, 3);
    var m1 := Allocate(m, Some(2), g).0;
    FreeAllOne(m1, Some(2), 0);
  }

  lemma InvPools(m: State)
    requires Inv(m)
    ensures Pools(m)
  {
  }

  lemma FreeAllOne(m: State, window: Option<nat>, id: nat)
    ensures FreeAll(m, window, [id]) == FreeSeq(m, window, id)
  {
    assert [id][1..] == [];
  }

  // ---------------------------------------------------------------- counts with repeated entries

  /** Whether a block is counted once more: it is in the table, and no block of its number was seen. */
  predicate CountedAgain(table: Table, seen: set<nat>, b: Block) {
    b in table && b.number !in seen
  }

  /** One block after the other. */
  lemma CountedCons(table: Table, seen: set<nat>, d: Device, x: Block)
    requires table != [] && OnDevice(table, d)
    ensures
      var b := table[0];
      CountedAgain(table, seen, x)
      <==> (x == b && b.number !in seen) || CountedAgain(table[1..], seen + {b.number}, x)
    ensures CountedAgain(table[1..], seen + {table[0].number}, x) ==> x != table[0]
  {
    assert table == [table[0]] + table[1..];
    assert table[0] in table;
  }

  lemma RestOf(table: Table, d: Device)
    requires table != [] && OnDevice(table, d)
    ensures OnDevice(table[1..], d) && table[0] in table && forall x :: x in table[1..] ==> x in table
  {
  }

  /** Forking counts every block of the table once more, however often the table has it. */
  lemma {:induction false} ForkLoopOnce(m: State, table: Table, seen: set<nat>, d: Device)
    requires OnDevice(table, d) && forall b :: b in table ==> b in m.rc
    ensures
      var m1 := ForkLoop(m, table, seen);
      && m1.tables == m.tables && m1.gpuFree == m.gpuFree && m1.cpuFree == m.cpuFree && m1.rc.Keys == m.rc.Keys
      && forall b :: b in m.rc ==> m1.rc[b] == m.rc[b] + if CountedAgain(table, seen, b) then 1 else 0
    decreases |table|
  {
    hide OnDevice, CountedAgain;
    if table == [] {
      NoneCounted(seen);
    } else {
      var b, rest := table[0], table[1..];
      RestOf(table, d);
      var m0 := if b.number in seen then m else m.WithCount(b, m.Count(b) + 1);
      ForkLoopOnce(m0, rest, seen + {b.number}, d);
      var m1 := ForkLoop(m0, rest, seen + {b.number});
      assert ForkLoop(m, table, seen) == m1;
      hide ForkLoop;
      forall x | x in m.rc
        ensures m1.rc[x] == m.rc[x] + if CountedAgain(table, seen, x) then 1 else 0
      {
        CountedCons(table, seen, d, x);
      }
    }
  }

  lemma NoneCounted(seen: set<nat>)
    ensures forall b :: !CountedAgain([], seen, b)
  {
  }

  /** So counts stay equal to the number of tables that hold the block, with or without a window. */
  lemma ForkCounts(m: State, parent: nat, child: nat, d: Device)
    requires CountsOk(m) && parent in m.tables && child !in m.tables && OnDevice(m.tables[parent], d)
    requires forall b :: b in m.tables[parent] ==> b in m.rc
    ensures
      var (m1, r) := Fork(m, parent, child);
      && r.Ok? && CountsOk(m1) && m1.tables == m.tables[child := m.tables[parent]]
      && m1.gpuFree == m.gpuFree && m1.cpuFree == m.cpuFree
  {
    hide ForkLoop, Holders, OnDevice;
    var table := m.tables[parent];
    var m1 := Fork(m, parent, child).0;
    ForkLoopOnce(m.WithTables(m.tables[child := table]), table, {}, d);
    assert AssignAll(m.tables, {child}, table) == m.tables[child := table];
    forall b | b in m1.rc
      ensures m1.rc[b] == Holders(m1.tables, b)
    {
      HoldersAssignAll(m.tables, {child}, table, b);
    }
  }

  /** After allocation with a window, too. */
  lemma AllocateCounts(m: State, w: nat, numGpu: nat, g: Group)
    requires Pools(m) && CountsOk(m) && w > 0 && CanAllocate(m, Some(w), numGpu, g) == CanNow
    requires NoDup(IdsWith(g, Waiting)) && Elements(IdsWith(g, Waiting)) !! m.tables.Keys
    ensures CountsOk(Allocate(m, Some(w), g).0)
  {
    hide Pools, CanAllocate, IdsWith, FirstBlocks, Allocate, RoundRobin, OnDevice, Holders;
    var table := WindowedTable(m, w, numGpu, g);
    var m1, ids := Allocate(m, Some(w), g).0, IdsWith(g, Waiting);
    NoDupCard(ids);
    forall b | b in m1.rc
      ensures m1.rc[b] == Holders(m1.tables, b)
    {
      HoldersAssignAll(m.tables, Elements(ids), table, b);
    }
  }

  // ---------------------------------------------------------------- appending

  /** As long as the table is shorter than the window, or needs no new entry, the window makes no
      difference. */
  lemma AppendInWindow(m: State, w: nat, id: nat, needed: nat)
    requires id in m.tables && (|m.tables[id]| < w || |m.tables[id]| >= needed)
    ensures AppendSlots(m, Some(w), id, needed) == AppendSlots(m, None, id, needed)
  {
  }

  /** Past the window, an entry reused by this sequence alone keeps the table repeating itself and
      takes nothing.  A shared one is replaced by a copy, and then the table repeats itself no
      longer: the earlier entry is still the old block. */
  lemma AppendPastWindow(m: State, w: nat, id: nat)
    requires Pools(m) && m.gpuFree != [] && id in m.tables && OnDevice(m.tables[id], Gpu) && 0 < w <= |m.tables[id]|
    requires RoundRobin(Some(w), m.tables[id]) && forall b :: b in m.tables[id] ==> b in m.rc && m.rc[b] > 0
    ensures
      var table := m.tables[id];
      var b := table[|table| % w];
      var (m1, r) := AppendSlots(m, Some(w), id, |table| + 1);
      && r.Ok? && m1.tables.Keys == m.tables.Keys
      && (forall s :: s in m.tables && s != id ==> m1.tables[s] == m.tables[s])
      && (m.rc[b] == 1 ==>
           r == Ok(None) && m1.tables[id] == table + [b] && m1.rc == m.rc && m1.gpuFree == m.gpuFree)
      && (m.rc[b] > 1 ==>
           var fresh1 := Last(m.gpuFree);
           && r == Ok(Some((b.number, fresh1.number))) && m1.tables[id] == table + [fresh1]
           && m1.rc == m.rc[fresh1 := 1][b := m.rc[b] - 1] && |m1.gpuFree| + 1 == |m.gpuFree|)
      && (RoundRobin(Some(w), m1.tables[id]) <==> m.rc[b] == 1)
  {
    var table := m.tables[id];
    var k := |table| % w;
    var b := table[k];
    var m0 := m.WithTables(m.tables[id := table + [b]]);
    assert b in table && b in m.rc;
    assert AppendSlots(m, Some(w), id, |table| + 1) == PrivateLast(m0, id);
    assert m0.tables[id] == table + [b] && Last(m0.tables[id]) == b;
    if m.rc[b] == 1 {
      StillRepeats(w, table, b);
    } else {
      var c := Last(m.gpuFree);
      assert c in m.gpuFree && m.rc[c] == 0 && c != b;
      var m1 := AppendSlots(m, Some(w), id, |table| + 1).0;
      assert m1.tables[id] == (table + [b])[|table| := c] == table + [c];
      StillRepeats(w, table, c);
    }
  }

  lemma StillRepeats(w: nat, table: Table, b: Block)
    requires 0 < w <= |table| && RoundRobin(Some(w), table)
    ensures RoundRobin(Some(w), table + [b]) <==> b == table[|table| % w]
  {
    var longer := table + [b];
    assert longer[|table|] == b && longer[|table| % w] == table[|table| % w];
    forall i | w <= i < |table|
      ensures longer[i] == table[i] && longer[i % w] == table[i % w]
    {
    }
  }

  /** The requests that are refused, and what is not an error; the state is then as it was. */
  lemma AppendRefused(m: State, window: Option<nat>, id: nat, needed: nat)
    ensures needed == 0 ==> AppendSlots(m, window, id, needed) == (m, Err(EmptySequence))
    ensures needed > 0 && id !in m.tables ==> AppendSlots(m, window, id, needed) == (m, Ok(None))
    ensures id in m.tables && needed > |m.tables[id]| + 1 ==>
      AppendSlots(m, window, id, needed) == (m, Err(AppendSlotError))
    ensures m.gpuFree == [] && window.None? && id in m.tables && needed == |m.tables[id]| + 1 ==>
      AppendSlots(m, window, id, needed) == (m, Err(OutOfMemory))
  {
  }
}
