/** The invariant of the block manager, and the one-block steps that keep it.

    Every operation changes tables one entry at a time: it places a block in a table, or
    replaces one, or drops one.  The invariant is kept by each such step, so the loops are
    reasoned about on states whose table is half old and half new. */
module RefCounts {
  import opened Common
  import opened BlockState

  ghost function HolderSet(tables: map<nat, Table>, b: Block): set<nat> {
    set s | s in tables && b in tables[s]
  }

  /** The number of tables that hold `b`. */
  ghost function Holders(tables: map<nat, Table>, b: Block): nat {
    |HolderSet(tables, b)|
  }

  /** The free list is duplicate-free and holds exactly the pool's blocks of count zero. */
  ghost predicate PoolOk(m: State, d: Device) {
    && NoDup(m.Free(d))
    && forall b :: b in m.Free(d) <==> b in m.rc && b.device == d && m.rc[b] == 0
  }

  ghost predicate TablesOk(m: State) {
    forall s :: s in m.tables ==> NoDup(m.tables[s]) && forall b :: b in m.tables[s] ==> b in m.rc
  }

  ghost predicate CountsOk(m: State) {
    forall b :: b in m.rc ==> m.rc[b] == Holders(m.tables, b)
  }

  ghost predicate Inv(m: State) {
    PoolOk(m, Gpu) && PoolOk(m, Cpu) && TablesOk(m) && CountsOk(m)
  }

  /** All blocks of a table are on one device. */
  ghost predicate OnDevice(table: Table, d: Device) {
    forall b :: b in table ==> b.device == d
  }

  lemma InitialInv(numGpu: nat, numCpu: nat)
    ensures Inv(Initial(numGpu, numCpu))
    ensures Initial(numGpu, numCpu).rc.Keys == Universe(numGpu, numCpu)
  {
  }

  /** Free and held blocks together make up the pool. */
  lemma Conservation(m: State, d: Device)
    requires PoolOk(m, d)
    ensures |m.Free(d)| + |set b | b in m.rc && b.device == d && m.rc[b] > 0|
         == |set b | b in m.rc && b.device == d|
  {
    var held := set b | b in m.rc && b.device == d && m.rc[b] > 0;
    NoDupCard(m.Free(d));
    assert (set b | b in m.rc && b.device == d) == Elements(m.Free(d)) + held;
    assert Elements(m.Free(d)) !! held;
  }

  lemma PoolSize(numGpu: nat, numCpu: nat, d: Device)
    ensures |set b | b in Universe(numGpu, numCpu) && b.device == d| == if d == Gpu then numGpu else numCpu
  {
    var n := if d == Gpu then numGpu else numCpu;
    var pool := PoolBlocks(d, n);
    NoDupCard(pool);
    assert forall i :: 0 <= i < n ==> pool[i] in pool;
    assert (set b | b in Universe(numGpu, numCpu) && b.device == d) == Elements(pool);
  }

  // ---------------------------------------------------------------- counting holders

  /** Assigning one table changes the holder count by whether it gains or loses the block. */
  lemma HoldersAssign(tables: map<nat, Table>, s: nat, table: Table, b: Block)
    ensures Holders(tables[s := table], b)
         == Holders(tables, b) - (if s in tables && b in tables[s] then 1 else 0) + (if b in table then 1 else 0)
  {
    var others := HolderSet(tables, b) - {s};
    assert HolderSet(tables, b) == if s in tables && b in tables[s] then others + {s} else others;
    assert HolderSet(tables[s := table], b) == if b in table then others + {s} else others;
  }

  lemma HoldersRemove(tables: map<nat, Table>, s: nat, b: Block)
    ensures Holders(tables - {s}, b) == Holders(tables, b) - (if s in tables && b in tables[s] then 1 else 0)
  {
    assert HolderSet(tables - {s}, b) == HolderSet(tables, b) - {s};
  }

  /** A block in no table has no holders, and conversely. */
  lemma NoHolders(tables: map<nat, Table>, b: Block)
    ensures Holders(tables, b) == 0 <==> forall s :: s in tables ==> b !in tables[s]
  {
    var holders := HolderSet(tables, b);
    if Holders(tables, b) == 0 {
      assert holders == {};
      forall s | s in tables
        ensures b !in tables[s]
      {
        assert s !in holders;
      }
    } else {
      var s :| s in holders;
    }
  }

  /** A block with a single holder is in no other table. */
  lemma SoleHolder(tables: map<nat, Table>, b: Block, s: nat, t: nat)
    requires Holders(tables, b) == 1
    requires s in tables && b in tables[s] && t in tables && b in tables[t]
    ensures s == t
  {
    if s != t {
      CardMonotone({s, t}, HolderSet(tables, b));
    }
  }

  /** The block that the allocator hands out is in no table and had count zero. */
  lemma TakenIsFresh(m: State, d: Device)
    requires Inv(m) && m.Free(d) != []
    ensures TakeBlock(m, d).1.Ok?
    ensures var b := TakeBlock(m, d).1.value;
            b in m.rc && b.device == d && m.rc[b] == 0 && forall s :: s in m.tables ==> b !in m.tables[s]
  {
    var b := TakeBlock(m, d).1.value;
    assert PoolOk(m, d);
    assert b in m.Free(d);
    NoHolders(m.tables, b);
  }

  /** A block of a table has a positive count, so releasing it cannot be a double free. */
  lemma HeldIsCounted(m: State, s: nat, b: Block)
    requires Inv(m) && s in m.tables && b in m.tables[s]
    ensures b in m.rc && m.rc[b] > 0
  {
    NoHolders(m.tables, b);
  }

  // ---------------------------------------------------------------- one-block steps

  /** Replacing the table of `s` keeps the invariant if the counts follow the entries gained
      and lost, and the free lists follow the counts. */
  lemma RetableInv(m: State, m1: State, s: nat, table: Table)
    requires Inv(m) && PoolOk(m1, Gpu) && PoolOk(m1, Cpu)
    requires m1.tables == m.tables[s := table] && m1.rc.Keys == m.rc.Keys
    requires NoDup(table) && forall b :: b in table ==> b in m.rc
    requires forall b :: b in m.rc ==>
      m1.rc[b] + (if s in m.tables && b in m.tables[s] then 1 else 0) == m.rc[b] + (if b in table then 1 else 0)
    ensures Inv(m1)
  {
    forall b | b in m1.rc
      ensures m1.rc[b] == Holders(m1.tables, b)
    {
      HoldersAssign(m.tables, s, table, b);
    }
  }

  /** Taking a block removes it from its free list and counts it once. */
  lemma TakePools(m: State, d: Device)
    requires PoolOk(m, Gpu) && PoolOk(m, Cpu) && m.Free(d) != []
    ensures var (m1, r) := TakeBlock(m, d);
      && r.Ok? && r.value in m.rc && r.value.device == d && m.rc[r.value] == 0
      && m1 == m.WithFree(d, m.Free(d)[..|m.Free(d)| - 1]).WithCount(r.value, 1)
      && PoolOk(m1, Gpu) && PoolOk(m1, Cpu) && m1.rc.Keys == m.rc.Keys
  {
  }

  /** Releasing a counted block to its own pool lowers its count by one, and frees it at zero. */
  lemma ReleasePools(m: State, b: Block)
    requires PoolOk(m, Gpu) && PoolOk(m, Cpu) && b in m.rc && m.rc[b] > 0
    ensures var (m1, r) := ReleaseBlock(m, b.device, b);
      && r.Ok? && m1.tables == m.tables && m1.rc == m.rc[b := m.rc[b] - 1]
      && PoolOk(m1, Gpu) && PoolOk(m1, Cpu) && m1.rc.Keys == m.rc.Keys
      && (m.rc[b] > 1 ==> m1.gpuFree == m.gpuFree && m1.cpuFree == m.cpuFree)
  {
  }

  /** The free list is a stack: a block that is released for the last time is the next one taken,
      and that restores the state; so does releasing a block that was just taken. */
  lemma TakeUndoesRelease(m: State, b: Block)
    requires b in m.rc && m.rc[b] == 1
    ensures ReleaseBlock(m, b.device, b).1.Ok?
    ensures TakeBlock(ReleaseBlock(m, b.device, b).0, b.device) == (m, Ok(b))
  {
    var m1 := ReleaseBlock(m, b.device, b).0;
    assert m1.Free(b.device)[..|m.Free(b.device)|] == m.Free(b.device);
    assert m1.rc[b := 1] == m.rc;
  }

  lemma ReleaseUndoesTake(m: State, d: Device)
    requires PoolOk(m, d) && m.Free(d) != []
    ensures
      var (m1, r) := TakeBlock(m, d);
      r.Ok? && r.value.device == d && ReleaseBlock(m1, d, r.value) == (m, Ok(()))
  {
    var (m1, r) := TakeBlock(m, d);
    var b := r.value;
    assert b in m.Free(d);
    assert m1.Free(d) + [b] == m.Free(d);
    assert m1.rc[b := 0] == m.rc;
  }

  /** Counting a held block once more leaves the pools alone. */
  lemma CountUpPools(m: State, b: Block)
    requires PoolOk(m, Gpu) && PoolOk(m, Cpu) && b in m.rc && m.rc[b] > 0
    ensures var m1 := m.WithCount(b, m.rc[b] + 1);
      PoolOk(m1, Gpu) && PoolOk(m1, Cpu) && m1.rc.Keys == m.rc.Keys
  {
  }

  /** Appending a fresh block to a table. */
  lemma PushFresh(m: State, s: nat, d: Device)
    requires Inv(m) && s in m.tables && m.Free(d) != []
    ensures var (m1, r) := TakeBlock(m, d);
      && r.Ok? && r.value !in m.tables[s]
      && Inv(m1.WithTables(m.tables[s := m.tables[s] + [r.value]]))
  {
    TakenIsFresh(m, d);
    TakePools(m, d);
    var (m1, r) := TakeBlock(m, d);
    var table := m.tables[s] + [r.value];
    assert forall b :: b in table <==> b in m.tables[s] || b == r.value;
    RetableInv(m, m1.WithTables(m.tables[s := table]), s, table);
  }

  /** Replacing a block by a fresh one, then releasing the old one: copy on write, and the
      first move of a block to the other pool. */
  lemma ReplaceFresh(m: State, s: nat, i: nat, d: Device)
    requires Inv(m) && s in m.tables && i < |m.tables[s]| && m.Free(d) != []
    ensures var b := m.tables[s][i];
      var (m1, r) := TakeBlock(m, d);
      && r.Ok? && r.value.device == d && r.value in m.rc && m.rc[r.value] == 0
      && (forall t :: t in m.tables ==> r.value !in m.tables[t])
      && var (m2, q) := ReleaseBlock(m1, b.device, b);
      && q.Ok? && m2.tables == m.tables && m2.rc.Keys == m.rc.Keys
      && m2.rc == m.rc[r.value := 1][b := m.rc[b] - 1]
      && Inv(m2.WithTables(m.tables[s := m.tables[s][i := r.value]]))
  {
    var b := m.tables[s][i];
    HeldIsCounted(m, s, b);
    TakenIsFresh(m, d);
    TakePools(m, d);
    var (m1, r) := TakeBlock(m, d);
    assert b != r.value;
    ReleasePools(m1, b);
    var (m2, q) := ReleaseBlock(m1, b.device, b);
    ReplacedTable(m.tables[s], i, r.value);
    RetableInv(m, m2.WithTables(m.tables[s := m.tables[s][i := r.value]]), s, m.tables[s][i := r.value]);
  }

  /** Replacing a block by one that other tables already hold. */
  lemma ReplaceHeld(m: State, s: nat, i: nat, c: Block)
    requires Inv(m) && s in m.tables && i < |m.tables[s]|
    requires c in m.rc && m.rc[c] > 0 && c !in m.tables[s]
    ensures var b := m.tables[s][i];
      var m1 := m.WithCount(c, m.rc[c] + 1);
      var (m2, q) := ReleaseBlock(m1, b.device, b);
      && q.Ok? && m2.tables == m.tables && m2.rc.Keys == m.rc.Keys
      && m2.rc == m.rc[c := m.rc[c] + 1][b := m.rc[b] - 1]
      && Inv(m2.WithTables(m.tables[s := m.tables[s][i := c]]))
  {
    var b := m.tables[s][i];
    HeldIsCounted(m, s, b);
    CountUpPools(m, c);
    var m1 := m.WithCount(c, m.rc[c] + 1);
    ReleasePools(m1, b);
    var (m2, q) := ReleaseBlock(m1, b.device, b);
    ReplacedTable(m.tables[s], i, c);
    RetableInv(m, m2.WithTables(m.tables[s := m.tables[s][i := c]]), s, m.tables[s][i := c]);
  }

  lemma ReplacedTable(table: Table, i: nat, c: Block)
    requires NoDup(table) && i < |table| && c !in table
    ensures NoDup(table[i := c])
    ensures forall b :: b in table[i := c] <==> b == c || (b in table && b != table[i])
  {
    forall b
      ensures b in table[i := c] <==> b == c || (b in table && b != table[i])
    {
      if b in table && b != table[i] {
        var j :| 0 <= j < |table| && table[j] == b;
        assert table[i := c][j] == b;
      }
      assert table[i := c][i] == c;
    }
  }

  /** Giving one table a block that others hold: a step of `fork`. */
  lemma PushHeld(m: State, s: nat, c: Block)
    requires Inv(m) && s in m.tables && c in m.rc && m.rc[c] > 0 && c !in m.tables[s]
    ensures Inv(m.WithCount(c, m.rc[c] + 1).WithTables(m.tables[s := m.tables[s] + [c]]))
  {
    CountUpPools(m, c);
    var table := m.tables[s] + [c];
    assert forall b :: b in table <==> b in m.tables[s] || b == c;
    RetableInv(m, m.WithCount(c, m.rc[c] + 1).WithTables(m.tables[s := table]), s, table);
  }

  /** Dropping the first block of a table: a step of `free`. */
  lemma DropFirst(m: State, s: nat)
    requires Inv(m) && s in m.tables && m.tables[s] != []
    ensures var b := m.tables[s][0];
      var (m1, r) := ReleaseBlock(m, b.device, b);
      && b in m.rc && m.rc[b] > 0
      && r.Ok? && m1.tables == m.tables && m1.rc == m.rc[b := m.rc[b] - 1]
      && (m.rc[b] > 1 ==> m1.gpuFree == m.gpuFree && m1.cpuFree == m.cpuFree)
      && Inv(m1.WithTables(m.tables[s := m.tables[s][1..]]))
  {
    var b := m.tables[s][0];
    HeldIsCounted(m, s, b);
    ReleasePools(m, b);
    var (m1, r) := ReleaseBlock(m, b.device, b);
    var table := m.tables[s][1..];
    assert m.tables[s] == [b] + table;
    RetableInv(m, m1.WithTables(m.tables[s := table]), s, table);
  }

  /** An empty table holds nothing. */
  lemma EmptyTable(m: State, s: nat)
    requires Inv(m)
    ensures s !in m.tables ==> Inv(m.WithTables(m.tables[s := []]))
    ensures s in m.tables && m.tables[s] == [] ==> Inv(m.WithTables(m.tables - {s}))
  {
    forall b | b in m.rc
      ensures s !in m.tables ==> m.rc[b] == Holders(m.tables[s := []], b)
      ensures s in m.tables && m.tables[s] == [] ==> m.rc[b] == Holders(m.tables - {s}, b)
    {
      HoldersAssign(m.tables, s, [], b);
      HoldersRemove(m.tables, s, b);
    }
  }

  // ---------------------------------------------------------------- steps beside the tables

  /** Taking and releasing blocks neither read nor write the block tables. */
  lemma TakeCommutes(m: State, vt: map<nat, Table>, d: Device)
    ensures TakeBlock(m.WithTables(vt), d) == (TakeBlock(m, d).0.WithTables(vt), TakeBlock(m, d).1)
  {
  }

  lemma ReleaseCommutes(m: State, vt: map<nat, Table>, d: Device, b: Block)
    ensures ReleaseBlock(m.WithTables(vt), d, b) == (ReleaseBlock(m, d, b).0.WithTables(vt), ReleaseBlock(m, d, b).1)
  {
  }

  /** `ReplaceFresh` between the pools, on a state whose tables are accounted for by `vt`. */
  lemma MoveFreshStep(m: State, vt: map<nat, Table>, s: nat, i: nat, d: Device)
    requires Inv(m.WithTables(vt)) && s in vt && i < |vt[s]| && vt[s][i].device != d && m.Free(d) != []
    ensures var b := vt[s][i];
      var (m1, r) := TakeBlock(m, d);
      && r.Ok?
      && var c := r.value;
      var (m2, q) := ReleaseBlock(m1, b.device, b);
      && q.Ok? && m2.tables == m.tables && m2.rc.Keys == m.rc.Keys
      && b in m.rc && m.rc[b] > 0 && c in m.rc && m.rc[c] == 0 && c.device == d
      && m2.rc == m.rc[c := 1][b := m.rc[b] - 1] && |m2.Free(d)| + 1 == |m.Free(d)|
      && Inv(m2.WithTables(vt[s := vt[s][i := c]]))
  {
    hide Inv;
    var mv := m.WithTables(vt);
    var b := vt[s][i];
    HeldIsCounted(mv, s, b);
    ReplaceFresh(mv, s, i, d);
    TakeCommutes(m, vt, d);
    var (m1, r) := TakeBlock(m, d);
    ReleaseCommutes(m1, vt, b.device, b);
  }

  /** `ReplaceHeld` between the pools. */
  lemma MoveHeldStep(m: State, vt: map<nat, Table>, s: nat, i: nat, c: Block)
    requires Inv(m.WithTables(vt)) && s in vt && i < |vt[s]| && vt[s][i].device != c.device
    requires c in m.rc && m.rc[c] > 0 && c !in vt[s]
    ensures var b := vt[s][i];
      var (m2, q) := ReleaseBlock(m.WithCount(c, m.Count(c) + 1), b.device, b);
      && q.Ok? && m2.tables == m.tables && m2.rc.Keys == m.rc.Keys
      && b in m.rc && m.rc[b] > 0
      && m2.rc == m.rc[c := m.rc[c] + 1][b := m.rc[b] - 1] && m2.Free(c.device) == m.Free(c.device)
      && Inv(m2.WithTables(vt[s := vt[s][i := c]]))
  {
    hide Inv;
    var mv := m.WithTables(vt);
    var b := vt[s][i];
    HeldIsCounted(mv, s, b);
    ReplaceHeld(mv, s, i, c);
    assert mv.WithCount(c, m.rc[c] + 1) == m.WithCount(c, m.Count(c) + 1).WithTables(vt);
    ReleaseCommutes(m.WithCount(c, m.Count(c) + 1), vt, b.device, b);
  }
}
