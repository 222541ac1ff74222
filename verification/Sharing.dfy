/** Sharing a table and giving it back: `fork`, `free` and `reset`. */
module Sharing {
  import opened Common
  import opened BlockState
  import opened RefCounts

  function Nums(table: Table): set<nat> {
    set b | b in table :: b.number
  }

  ghost predicate NumbersDistinct(table: Table) {
    forall i, j :: 0 <= i < j < |table| ==> table[i].number != table[j].number
  }

  /** Every table is on one device, so that block numbers tell its blocks apart. */
  ghost predicate Homed(tables: map<nat, Table>) {
    forall s :: s in tables ==> OnDevice(tables[s], Gpu) || OnDevice(tables[s], Cpu)
  }

  lemma HomedNumbers(table: Table, d: Device)
    requires NoDup(table) && OnDevice(table, d)
    ensures NumbersDistinct(table)
  {
  }

  lemma NotAgain(done: Table, rest: Table)
    requires rest != [] && NumbersDistinct(done + rest)
    ensures rest[0] !in rest[1..] && forall c :: c in done ==> c.number != rest[0].number
  {
    var all := done + rest;
    assert all[|done|] == rest[0];
    assert forall j :: 0 <= j < |done| ==> all[j] == done[j];
    assert forall j :: 0 <= j < |rest[1..]| ==> all[|done| + 1 + j] == rest[1..][j];
  }

  lemma HeadNumber(table: Table)
    requires table != [] && NumbersDistinct(table)
    ensures NumbersDistinct(table[1..]) && table[0].number !in Nums(table[1..])
    ensures Nums(table) == {table[0].number} + Nums(table[1..])
  {
  }

  /** `m1` counts the blocks of `table` by `delta` more than `m` does, and no others. */
  ghost predicate Recounted(m: State, m1: State, table: Table, delta: int) {
    && m1.tables == m.tables && m1.rc.Keys == m.rc.Keys
    && forall b :: b in m.rc ==> m1.rc[b] == m.rc[b] + if b in table then delta else 0
  }

  // ---------------------------------------------------------------- fork

  /** The loop of `fork` on the blocks `rest`; `vt` is the block tables with the child's table
      counted as far as the loop has come. */
  lemma {:induction false} ForkLoopInv(m: State, vt: map<nat, Table>, child: nat, rest: Table, seen: set<nat>)
    requires Inv(m.WithTables(vt)) && child in vt
    requires NumbersDistinct(vt[child] + rest) && seen == Nums(vt[child])
    requires forall b :: b in rest ==> b in m.rc && m.rc[b] > 0
    ensures var m1 := ForkLoop(m, rest, seen);
      && Inv(m1.WithTables(vt[child := vt[child] + rest]))
      && Recounted(m, m1, rest, 1) && m1.gpuFree == m.gpuFree && m1.cpuFree == m.cpuFree
    decreases |rest|
  {
    hide Inv;
    if rest == [] {
      assert vt[child] + rest == vt[child];
      assert vt[child := vt[child]] == vt;
    } else {
      var b := rest[0];
      var done := vt[child];
      NotAgain(done, rest);
      PushHeld(m.WithTables(vt), child, b);
      var m1 := m.WithCount(b, m.rc[b] + 1);
      var vt1 := vt[child := done + [b]];
      assert m1.WithTables(vt1) == m.WithTables(vt).WithCount(b, m.rc[b] + 1).WithTables(vt1);
      assert (done + [b]) + rest[1..] == done + rest;
      assert Nums(done + [b]) == seen + {b.number};
      ForkLoopInv(m1, vt1, child, rest[1..], seen + {b.number});
      assert vt1[child := vt1[child] + rest[1..]] == vt[child := done + rest];
      assert forall c :: c in rest <==> c == b || c in rest[1..];
    }
  }

  /** Forking to a fresh child cannot fail once the parent has a table, takes no block, keeps
      the invariant, and counts each block of the parent once more. */
  lemma ForkKeepsInv(m: State, parent: nat, child: nat)
    requires Inv(m) && Homed(m.tables) && parent in m.tables && child !in m.tables
    ensures var (m1, r) := Fork(m, parent, child);
      && r.Ok? && Inv(m1) && m1.tables == m.tables[child := m.tables[parent]]
      && m1.gpuFree == m.gpuFree && m1.cpuFree == m.cpuFree
      && Recounted(m.WithTables(m1.tables), m1, m.tables[parent], 1)
  {
    hide Inv, ForkLoop, NumbersDistinct;
    var table := m.tables[parent];
    var m0 := m.WithTables(m.tables[child := table]);
    var vt := m.tables[child := []];
    EmptyTable(m, child);
    assert m0.WithTables(vt) == m.WithTables(vt);
    assert NumbersDistinct([] + table) by {
      HomedDistinct(m, parent);
      assert [] + table == table;
    }
    forall b | b in table
      ensures b in m0.rc && m0.rc[b] > 0
    {
      HeldIsCounted(m, parent, b);
    }
    ForkLoopInv(m0, vt, child, table, {});
    assert [] + table == table;
    assert vt[child := table] == m0.tables;
    var m1 := ForkLoop(m0, table, {});
    assert m1.WithTables(m0.tables) == m1;
  }

  // ---------------------------------------------------------------- free

  /** The loop of `free_block_table` on the table that `vt` gives to `s`. */
  lemma {:induction false} FreeLoopInv(m: State, vt: map<nat, Table>, s: nat, seen: set<nat>)
    requires Inv(m.WithTables(vt)) && s in vt && NumbersDistinct(vt[s]) && seen !! Nums(vt[s])
    ensures var (m1, r) := FreeLoop(m, vt[s], seen);
      && r.Ok? && Inv(m1.WithTables(vt[s := []])) && Recounted(m, m1, vt[s], -1)
      && ((forall b :: b in vt[s] ==> m.Count(b) > 1) ==> m1.gpuFree == m.gpuFree && m1.cpuFree == m.cpuFree)
    decreases |vt[s]|
  {
    hide Inv;
    var table := vt[s];
    if table == [] {
      assert vt[s := []] == vt;
    } else {
      var b := table[0];
      assert b.number in Nums(table);
      HeadNumber(table);
      DropFirst(m.WithTables(vt), s);
      var (m1, r) := ReleaseBlock(m, b.device, b);
      var vt1 := vt[s := table[1..]];
      assert m1.WithTables(vt1) == ReleaseBlock(m.WithTables(vt), b.device, b).0.WithTables(vt1);
      FreeLoopInv(m1, vt1, s, seen + {b.number});
      assert vt1[s := []] == vt[s := []];
      assert forall c :: c in table <==> c == b || c in table[1..];
      assert b !in table[1..] by { assert b.number !in Nums(table[1..]); }
    }
  }

  lemma HomedDistinct(m: State, s: nat)
    requires Inv(m) && Homed(m.tables) && s in m.tables
    ensures NumbersDistinct(m.tables[s])
  {
  }

  /** `free` meets no double free, keeps the invariant, and lowers the count of each block of
      the table by one; freeing again does nothing. */
  lemma FreeKeepsInv(m: State, s: nat)
    requires Inv(m) && Homed(m.tables)
    ensures var (m1, r) := FreeSeq(m, None, s);
      && r.Ok? && Inv(m1) && m1.tables == m.tables - {s}
      && Recounted(m.WithTables(m1.tables), m1, if s in m.tables then m.tables[s] else [], -1)
      && FreeSeq(m1, None, s) == (m1, Ok(()))
  {
    hide Inv, Homed, NumbersDistinct, FreeLoop;
    if s in m.tables {
      HomedDistinct(m, s);
      assert m.WithTables(m.tables) == m;
      FreeLoopInv(m, m.tables, s, {});
      var (m1, r) := FreeLoop(m, m.tables[s], {});
      var vt := m.tables[s := []];
      EmptyTable(m1.WithTables(vt), s);
      assert vt - {s} == m.tables - {s};
      assert m1.WithTables(vt).WithTables(vt - {s}) == m1.WithTables(m.tables - {s});
    } else {
      assert m.tables - {s} == m.tables;
      assert m.WithTables(m.tables) == m;
    }
  }

  /** Forking to a fresh child and freeing the child again restores the state exactly: every
      table, every count and both free lists. */
  lemma ForkThenFree(m: State, parent: nat, child: nat)
    requires Inv(m) && Homed(m.tables) && parent in m.tables && child !in m.tables
    ensures FreeSeq(Fork(m, parent, child).0, None, child) == (m, Ok(()))
  {
    hide Inv;
    ForkKeepsInv(m, parent, child);
    var (m1, r) := Fork(m, parent, child);
    var table := m.tables[parent];
    HomedDistinct(m1, child);
    assert m1.WithTables(m1.tables) == m1;
    forall b | b in table
      ensures m1.Count(b) > 1
    {
      HeldIsCounted(m, parent, b);
    }
    FreeLoopInv(m1, m1.tables, child, {});
    var (m2, q) := FreeLoop(m1, table, {});
    assert m2.rc == m.rc;
    assert m2.tables - {child} == m.tables;
  }

  /** Frees the listed sequences one after the other. */
  function FreeAll(m: State, window: Option<nat>, ids: seq<nat>): (State, Result<(), Error>)
    decreases |ids|
  {
    if ids == [] then (m, Ok(()))
    else
      var (m1, r) := FreeSeq(m, window, ids[0]);
      match r
      case Err(e) => (m1, Err(e))
      case Ok(_) => FreeAll(m1, window, ids[1..])
  }

  lemma {:induction false} FreeAllKeepsInv(m: State, ids: seq<nat>)
    requires Inv(m) && Homed(m.tables)
    ensures
      var (m1, r) := FreeAll(m, None, ids);
      r.Ok? && Inv(m1) && m1.tables == m.tables - Elements(ids) && m1.rc.Keys == m.rc.Keys
    decreases |ids|
  {
    hide Inv, FreeSeq;
    if ids != [] {
      FreeKeepsInv(m, ids[0]);
      var m1 := FreeSeq(m, None, ids[0]).0;
      FreeAllKeepsInv(m1, ids[1..]);
      assert ids == [ids[0]] + ids[1..];
      assert m.tables - {ids[0]} - Elements(ids[1..]) == m.tables - Elements(ids);
    } else {
      assert m.tables - {} == m.tables;
    }
  }

  // ---------------------------------------------------------------- reset

  lemma DropEmptyTables(m: State, vt: map<nat, Table>)
    requires Inv(m.WithTables(vt)) && forall s :: s in vt ==> vt[s] == []
    ensures Inv(m.WithTables(map[]))
  {
  }

  /** The loop of `reset`; `vt` is the block tables with those freed so far counted as empty. */
  lemma {:induction false} ResetLoopInv(m: State, vt: map<nat, Table>, order: seq<nat>)
    requires Inv(m.WithTables(vt)) && vt.Keys == m.tables.Keys && Homed(m.tables) && NoDup(order)
    requires forall s :: s in vt ==> if s in order then vt[s] == m.tables[s] else vt[s] == []
    ensures var (m1, r) := ResetLoop(m, None, order);
      && r.Ok? && m1.tables == map[] && Inv(m1) && m1.rc.Keys == m.rc.Keys
    decreases |order|
  {
    hide Inv, FreeLoop;
    if order == [] {
      DropEmptyTables(m, vt);
    } else {
      var s := order[0];
      assert order == [s] + order[1..];
      if s in m.tables {
        assert vt[s] == m.tables[s];
        HomedDistinct(m.WithTables(vt), s);
        FreeLoopInv(m, vt, s, {});
        var (m1, r) := FreeLoop(m, m.tables[s], {});
        ResetLoopInv(m1, vt[s := []], order[1..]);
      } else {
        ResetLoopInv(m, vt, order[1..]);
      }
    }
  }

  /** From any reachable state, in whatever order the tables are visited, `reset` succeeds and
      refills both pools completely. */
  lemma ResetRestores(m: State, order: seq<nat>, numGpu: nat, numCpu: nat)
    requires Inv(m) && Homed(m.tables) && m.rc.Keys == Universe(numGpu, numCpu)
    requires NoDup(order) && Elements(order) == m.tables.Keys
    ensures var (m1, r) := ResetLoop(m, None, order);
      && r.Ok? && Inv(m1) && m1.tables == map[] && m1.rc == Initial(numGpu, numCpu).rc
      && |m1.gpuFree| == numGpu && Elements(m1.gpuFree) == Elements(Initial(numGpu, numCpu).gpuFree)
      && |m1.cpuFree| == numCpu && Elements(m1.cpuFree) == Elements(Initial(numGpu, numCpu).cpuFree)
  {
    assert m.WithTables(m.tables) == m;
    forall s | s in m.tables
      ensures s in order
    {
      assert s in Elements(order);
    }
    ResetLoopInv(m, m.tables, order);
    var m1 := ResetLoop(m, None, order).0;
    forall b | b in m1.rc
      ensures m1.rc[b] == 0
    {
      NoHolders(map[], b);
    }
    EmptyPools(m1, numGpu, numCpu);
  }

  /** With no counted block, the free lists are the whole pools. */
  lemma EmptyPools(m: State, numGpu: nat, numCpu: nat)
    requires PoolOk(m, Gpu) && PoolOk(m, Cpu) && m.rc.Keys == Universe(numGpu, numCpu)
    requires forall b :: b in m.rc ==> m.rc[b] == 0
    ensures |m.gpuFree| == numGpu && Elements(m.gpuFree) == Elements(PoolBlocks(Gpu, numGpu))
    ensures |m.cpuFree| == numCpu && Elements(m.cpuFree) == Elements(PoolBlocks(Cpu, numCpu))
  {
    EmptyPool(m, Gpu, numGpu, numCpu);
    EmptyPool(m, Cpu, numGpu, numCpu);
  }

  lemma EmptyPool(m: State, d: Device, numGpu: nat, numCpu: nat)
    requires PoolOk(m, d) && m.rc.Keys == Universe(numGpu, numCpu)
    requires forall b :: b in m.rc && b.device == d ==> m.rc[b] == 0
    ensures
      var n := if d == Gpu then numGpu else numCpu;
      |m.Free(d)| == n && Elements(m.Free(d)) == Elements(PoolBlocks(d, n))
  {
    var n := if d == Gpu then numGpu else numCpu;
    assert Elements(m.Free(d)) == Elements(PoolBlocks(d, n));
    NoDupCard(m.Free(d));
    assert NoDup(PoolBlocks(d, n));
    NoDupCard(PoolBlocks(d, n));
  }

  /** The same counts and free lists, whatever the tables. */
  ghost predicate EqualPools(m: State, m2: State) {
    m2.rc == m.rc && m2.gpuFree == m.gpuFree && m2.cpuFree == m.cpuFree
  }

  lemma {:induction false} FreeLoopBlocks(m: State, m2: State, table: Table, seen: set<nat>)
    requires EqualPools(m, m2)
    ensures EqualPools(FreeLoop(m, table, seen).0, FreeLoop(m2, table, seen).0)
    ensures FreeLoop(m2, table, seen).1 == FreeLoop(m, table, seen).1
    ensures FreeLoop(m, table, seen).0.tables == m.tables
    ensures FreeLoop(m2, table, seen).0.tables == m2.tables
    decreases |table|
  {
    if table != [] {
      var b := table[0];
      if b.number in seen {
        FreeLoopBlocks(m, m2, table[1..], seen);
      } else {
        FreeLoopBlocks(ReleaseBlock(m, b.device, b).0, ReleaseBlock(m2, b.device, b).0, table[1..], seen + {b.number});
      }
    }
  }

  /** With any window, `reset` is `free` of every sequence: it fails if that fails, and leaves the
      same counts and free lists. */
  lemma {:induction false} ResetIsFreeAll(m: State, m2: State, window: Option<nat>, order: seq<nat>)
    requires EqualPools(m, m2) && NoDup(order)
    requires forall s :: s in order ==>
      (s in m.tables <==> s in m2.tables) && (s in m.tables ==> m.tables[s] == m2.tables[s])
    ensures
      var (m1, r) := ResetLoop(m, window, order);
      var (m3, q) := FreeAll(m2, window, order);
      r == q && EqualPools(m1, m3) && (r.Ok? ==> m1.tables == map[])
    decreases |order|
  {
    if order != [] {
      var s, rest := order[0], order[1..];
      assert order == [s] + rest;
      if s !in m.tables {
        ResetIsFreeAll(m, m2, window, rest);
      } else {
        var table := m.tables[s];
        if !(window.Some? && window.value > |table|) {
          var part := if window.Some? then table[window.value..] else table;
          FreeLoopBlocks(m, m2, part, {});
          var m4 := FreeLoop(m2, part, {}).0;
          if FreeLoop(m2, part, {}).1.Ok? {
            ResetIsFreeAll(FreeLoop(m, part, {}).0, m4.WithTables(m4.tables - {s}), window, rest);
          }
        }
      }
    }
  }

  // ---------------------------------------------------------------- verdicts over time

  lemma FreeBounded(m: State, numGpu: nat, numCpu: nat)
    requires PoolOk(m, Gpu) && m.rc.Keys == Universe(numGpu, numCpu)
    ensures |m.gpuFree| <= numGpu
  {
    Conservation(m, Gpu);
    PoolSize(numGpu, numCpu, Gpu);
    assert (set b | b in m.rc && b.device == Gpu) == (set b | b in Universe(numGpu, numCpu) && b.device == Gpu);
    assert m.Free(Gpu) == m.gpuFree;
  }

  /** A group that is refused for ever is refused in every state of these pools. */
  lemma NeverIsFinal(m: State, later: State, window: Option<nat>, numGpu: nat, numCpu: nat, g: Group)
    requires CanAllocate(m, window, numGpu, g) == Never
    requires Inv(later) && later.rc.Keys == Universe(numGpu, numCpu)
    ensures CanAllocate(later, window, numGpu, g) == Never
  {
    FreeBounded(later, numGpu, numCpu);
  }

  /** A group that has to wait fits once all tables have been freed. */
  lemma LaterComes(m: State, order: seq<nat>, numGpu: nat, numCpu: nat, g: Group)
    requires Inv(m) && Homed(m.tables) && m.rc.Keys == Universe(numGpu, numCpu)
    requires NoDup(order) && Elements(order) == m.tables.Keys
    requires CanAllocate(m, None, numGpu, g) == Later
    ensures CanAllocate(ResetLoop(m, None, order).0, None, numGpu, g) == CanNow
  {
    ResetRestores(m, order, numGpu, numCpu);
  }
}
