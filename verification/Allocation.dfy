/** Allocation and its verdicts: what `can_allocate` promises, `allocate` does. */
module Allocation {
  import opened Common
  import opened BlockState
  import opened RefCounts

  /** The blocks that `n` logical blocks need: all of them, or at most a window's worth. */
  function Needed(window: Option<nat>, n: nat): nat {
    if window.Some? && window.value < n then window.value else n
  }

  /** Past the window a table repeats itself. */
  ghost predicate RoundRobin(window: Option<nat>, table: Table) {
    window.Some? && window.value > 0 ==>
      forall i :: window.value <= i < |table| ==> table[i] == table[i % window.value]
  }

  ghost predicate Usable(window: Option<nat>) {
    window.Some? ==> window.value > 0
  }

  /** `allocate`, started on `m0`, has reached `m` with `table` filled so far: it has taken one
      free block for each entry up to the window, and counted each of them `k` times. */
  ghost predicate Filling(m0: State, window: Option<nat>, k: nat, m: State, table: Table) {
    && PoolOk(m, Gpu) && PoolOk(m, Cpu)
    && m.tables == m0.tables && m.cpuFree == m0.cpuFree && m.rc.Keys == m0.rc.Keys
    && |m.gpuFree| + Needed(window, |table|) == |m0.gpuFree|
    && OnDevice(table, Gpu) && RoundRobin(window, table) && NoDup(table[..Needed(window, |table|)])
    && (forall b :: b in table ==> b in m0.rc && m0.rc[b] == 0 && m.rc[b] == k)
    && (forall b :: b in m0.rc && b !in table ==> m.rc[b] == m0.rc[b])
  }

  lemma FillReused(m0: State, window: Option<nat>, k: nat, m: State, table: Table)
    requires Filling(m0, window, k, m, table) && window.Some? && 0 < window.value <= |table|
    ensures var b := table[|table| % window.value];
      m.WithCount(b, k) == m && Filling(m0, window, k, m, table + [b])
  {
    hide PoolOk, NoDup;
    var b := table[|table| % window.value];
    assert b in table;
    assert m.rc[b := k] == m.rc;
    assert (table + [b])[..window.value] == table[..window.value];
  }

  lemma FillFresh(m0: State, window: Option<nat>, k: nat, m: State, table: Table)
    requires Filling(m0, window, k, m, table) && k > 0 && m.gpuFree != []
    requires window.Some? ==> |table| < window.value
    ensures var (m1, r) := TakeBlock(m, Gpu);
      r.Ok? && Filling(m0, window, k, m1.WithCount(r.value, k), table + [r.value])
  {
    hide PoolOk;
    TakePools(m, Gpu);
    var (m1, r) := TakeBlock(m, Gpu);
    var b := r.value;
    var m2 := m1.WithCount(b, k);
    assert forall x :: x in m2.rc ==> m2.rc[x] == if x == b then k else m.rc[x];
    assert m1.rc[b] == 1;
    PoolAfterCount(m1, b, k);
    assert table[..|table|] == table && (table + [b])[..|table| + 1] == table + [b];
  }

  lemma PoolAfterCount(m: State, b: Block, k: nat)
    requires PoolOk(m, Gpu) && PoolOk(m, Cpu) && b in m.rc && m.rc[b] > 0 && k > 0
    ensures PoolOk(m.WithCount(b, k), Gpu) && PoolOk(m.WithCount(b, k), Cpu)
  {
  }

  /** The loop of `allocate` succeeds exactly when the free list covers what it needs; otherwise it
      has emptied the free list.  A window of zero blocks, which the manager accepts, makes it
      panic at the first block. */
  lemma {:induction false} AllocateLoopExact(m0: State, window: Option<nat>, n: nat, k: nat, m: State, table: Table)
    requires Filling(m0, window, k, m, table) && k > 0 && |table| <= n
    ensures var (m1, r) := AllocateLoop(m, window, n, k, table);
      && (r.Ok? <==> |m0.gpuFree| >= Needed(window, n) && (Usable(window) || |table| == n))
      && (r.Err? ==> r.error == if Usable(window) then OutOfMemory else Panic)
      && (r.Ok? ==> |r.value| == n && Filling(m0, window, k, m1, r.value))
      && (r == Err(OutOfMemory) ==> m1.gpuFree == [] && m1.tables == m0.tables && m1.cpuFree == m0.cpuFree)
    decreases n - |table|
  {
    if |table| < n {
      if !Usable(window) {
      } else if window.Some? && |table| >= window.value {
        FillReused(m0, window, k, m, table);
        AllocateLoopExact(m0, window, n, k, m, table + [table[|table| % window.value]]);
      } else if m.gpuFree != [] {
        FillFresh(m0, window, k, m, table);
        var (m1, r) := TakeBlock(m, Gpu);
        AllocateLoopExact(m0, window, n, k, m1.WithCount(r.value, k), table + [r.value]);
      }
    }
  }

  lemma FillingStart(m: State, window: Option<nat>, k: nat)
    requires PoolOk(m, Gpu) && PoolOk(m, Cpu)
    ensures Filling(m, window, k, m, [])
  {
  }

  /** With any window, `allocate` succeeds exactly when `can_allocate` says `Ok`, unless the window
      is zero and there is a block to allocate: then it panics whatever the verdict.  Otherwise it
      takes exactly min(L, window) GPU blocks, in a round-robin table of blocks that were free,
      each counted once per waiting sequence. */
  lemma AllocateMeetsVerdict(m: State, window: Option<nat>, numGpu: nat, g: Group)
    requires PoolOk(m, Gpu) && PoolOk(m, Cpu)
    ensures FirstBlocks(g, Waiting).None? ==>
      CanAllocate(m, window, numGpu, g) == Nothing && Allocate(m, window, g) == (m, Ok(()))
    ensures FirstBlocks(g, Waiting).Some? ==>
      var workable := Usable(window) || FirstBlocks(g, Waiting).value == 0;
      && (Allocate(m, window, g).1.Ok? <==> CanAllocate(m, window, numGpu, g) == CanNow && workable)
      && (Allocate(m, window, g).1.Err? ==> Allocate(m, window, g).1.error == if workable then OutOfMemory else Panic)
    ensures FirstBlocks(g, Waiting).Some? && Allocate(m, window, g).1.Ok? ==>
      var m1 := Allocate(m, window, g).0;
      var n := FirstBlocks(g, Waiting).value;
      var ids := IdsWith(g, Waiting);
      && |m1.gpuFree| == |m.gpuFree| - Needed(window, n)
      && exists table: Table ::
           && |table| == n && Filling(m, window, |ids|, m1.WithTables(m.tables), table)
           && m1.tables == AssignAll(m.tables, Elements(ids), table)
  {
    if FirstBlocks(g, Waiting).None? {
      return;
    }
    var n := FirstBlocks(g, Waiting).value;
    var ids := IdsWith(g, Waiting);
    FirstMeansSome(g, Waiting);
    FillingStart(m, window, |ids|);
    AllocateLoopExact(m, window, n, |ids|, m, []);
    var (m1, r) := AllocateLoop(m, window, n, |ids|, []);
    if r.Ok? {
      var m2 := Allocate(m, window, g).0;
      assert m2.WithTables(m.tables) == m1;
      assert m2.tables == AssignAll(m.tables, Elements(ids), r.value);
    }
  }

  lemma FirstMeansSome(g: Group, status: Status)
    ensures FirstBlocks(g, status).Some? <==> IdsWith(g, status) != []
  {
  }

  /** The count that is asked for is that of the first member with the status. */
  lemma FirstIsMember(g: Group, status: Status, n: nat)
    ensures FirstBlocks(g, status) == Some(n) <==> exists i ::
      && 0 <= i < |g| && g[i].status == status && g[i].logicalBlocks == n
      && forall j :: 0 <= j < i ==> g[j].status != status
  {
    if g != [] && g[0].status != status {
      var rest := g[1..];
      FirstIsMember(rest, status, n);
      if FirstBlocks(rest, status) == Some(n) {
        var i :| 0 <= i < |rest| && rest[i].status == status && rest[i].logicalBlocks == n
                 && forall j :: 0 <= j < i ==> rest[j].status != status;
        FirstLater(g, status, n, i);
      }
      if i :| 0 <= i < |g| && g[i].status == status && g[i].logicalBlocks == n
              && forall j :: 0 <= j < i ==> g[j].status != status {
        assert rest[i - 1] == g[i];
        assert forall j :: 0 <= j < i - 1 ==> rest[j] == g[j + 1];
      }
    }
  }

  lemma FirstLater(g: Group, status: Status, n: nat, i: nat)
    requires g != [] && g[0].status != status && i < |g[1..]|
    requires g[1..][i].status == status && g[1..][i].logicalBlocks == n
    requires forall j :: 0 <= j < i ==> g[1..][j].status != status
    ensures g[i + 1].status == status && g[i + 1].logicalBlocks == n
    ensures forall j :: 0 <= j < i + 1 ==> g[j].status != status
  {
    forall j | 0 <= j < i + 1
      ensures g[j].status != status
    {
      assert j == 0 || g[j] == g[1..][j - 1];
    }
  }

  /** The group has waiting members, and all of them need `n` blocks: they share a prompt. */
  ghost predicate SharedPrompt(g: Group, n: nat) {
    && (exists x :: x in g && x.status == Waiting)
    && forall x :: x in g && x.status == Waiting ==> x.logicalBlocks == n
  }

  lemma FirstOfShared(g: Group, n: nat)
    requires SharedPrompt(g, n)
    ensures FirstBlocks(g, Waiting) == Some(n) && IdsWith(g, Waiting) != []
  {
    if g[0].status != Waiting {
      assert g == [g[0]] + g[1..];
      FirstOfShared(g[1..], n);
    }
  }

  /** For such a group the verdict compares what it needs with the free list and the pool,
      allocation succeeds by the same comparison, and each member gets the same `n` entries.  One
      that fails has used up the free list. */
  lemma SharedPromptAllocated(m: State, window: Option<nat>, numGpu: nat, g: Group, n: nat)
    requires PoolOk(m, Gpu) && PoolOk(m, Cpu) && SharedPrompt(g, n)
    ensures
      var needed := if window.Some? && window.value < n then window.value else n;
      var (m1, r) := Allocate(m, window, g);
      && (CanAllocate(m, window, numGpu, g) == CanNow <==> needed <= |m.gpuFree|)
      && (CanAllocate(m, window, numGpu, g) == Never <==> |m.gpuFree| < needed && numGpu < needed)
      && (CanAllocate(m, window, numGpu, g) == Later <==> |m.gpuFree| < needed <= numGpu)
      && (r.Ok? <==> needed <= |m.gpuFree| && (window == Some(0) ==> n == 0))
      && (r.Ok? ==>
           && |m1.gpuFree| == |m.gpuFree| - needed
           && exists table: Table :: |table| == n && GivenTo(m.tables, m1.tables, g, table))
      && (r == Err(OutOfMemory) ==> m1.gpuFree == [] && m1.tables == m.tables)
      && (r.Err? ==> r.error == if window == Some(0) then Panic else OutOfMemory)
  {
    FirstOfShared(g, n);
    AllocateMeetsVerdict(m, window, numGpu, g);
    FillingStart(m, window, |IdsWith(g, Waiting)|);
    AllocateLoopExact(m, window, n, |IdsWith(g, Waiting)|, m, []);
    if Allocate(m, window, g).1.Ok? {
      var m1, ids := Allocate(m, window, g).0, IdsWith(g, Waiting);
      var table: Table :| |table| == n && Filling(m, window, |ids|, m1.WithTables(m.tables), table)
                          && m1.tables == AssignAll(m.tables, Elements(ids), table);
      AssignedToWaiting(m.tables, g, table);
    }
  }

  /** Exactly the waiting members now have the table, and every other sequence has what it had. */
  ghost predicate GivenTo(tables: map<nat, Table>, tables1: map<nat, Table>, g: Group, table: Table) {
    && (forall x :: x in g && x.status == Waiting ==> x.id in tables1 && tables1[x.id] == table)
    && forall s :: (forall x :: x in g && x.status == Waiting ==> x.id != s) ==>
         && (s in tables1 <==> s in tables)
         && (s in tables ==> tables1[s] == tables[s])
  }

  lemma AssignedToWaiting(tables: map<nat, Table>, g: Group, table: Table)
    ensures GivenTo(tables, AssignAll(tables, Elements(IdsWith(g, Waiting)), table), g, table)
  {
    var ids := IdsWith(g, Waiting);
    forall s
      ensures s in ids <==> exists x :: x in g && x.id == s && x.status == Waiting
    {
    }
  }

  lemma HoldersAssignAll(tables: map<nat, Table>, ids: set<nat>, table: Table, b: Block)
    requires ids !! tables.Keys
    ensures Holders(AssignAll(tables, ids, table), b) == Holders(tables, b) + if b in table then |ids| else 0
  {
    var after := HolderSet(AssignAll(tables, ids, table), b);
    assert after == if b in table then HolderSet(tables, b) + ids else HolderSet(tables, b);
  }

  /** Without a window and with fresh sequences, an admitted allocation keeps the invariant;
      the blocks of the new table were in no table before. */
  lemma AllocateKeepsInv(m: State, numGpu: nat, g: Group) returns (table: Table)
    requires Inv(m) && CanAllocate(m, None, numGpu, g) == CanNow
    requires NoDup(IdsWith(g, Waiting)) && Elements(IdsWith(g, Waiting)) !! m.tables.Keys
    ensures var (m1, r) := Allocate(m, None, g);
      var n := FirstBlocks(g, Waiting).value;
      && r.Ok? && Inv(m1) && m1.rc.Keys == m.rc.Keys && |m1.gpuFree| == |m.gpuFree| - n
      && m1.tables == AssignAll(m.tables, Elements(IdsWith(g, Waiting)), table)
      && |table| == n
    ensures NoDup(table) && OnDevice(table, Gpu) && forall b :: b in table ==> b in m.rc
    ensures forall b, s :: b in table && s in m.tables ==> b !in m.tables[s]
  {
    var n := FirstBlocks(g, Waiting).value;
    var ids := IdsWith(g, Waiting);
    AllocateMeetsVerdict(m, None, numGpu, g);
    var m1 := Allocate(m, None, g).0;
    table :| |table| == n && Filling(m, None, |ids|, m1.WithTables(m.tables), table)
             && m1.tables == AssignAll(m.tables, Elements(ids), table);
    NoDupCard(ids);
    FilledKeepsInv(m, m1, Elements(ids), table);
  }

  lemma FilledKeepsInv(m: State, m1: State, ids: set<nat>, table: Table)
    requires Inv(m) && ids !! m.tables.Keys
    requires Filling(m, None, |ids|, m1.WithTables(m.tables), table)
    requires m1.tables == AssignAll(m.tables, ids, table)
    ensures Inv(m1) && m1.rc.Keys == m.rc.Keys && |m1.gpuFree| == |m.gpuFree| - |table|
    ensures NoDup(table) && OnDevice(table, Gpu) && forall b :: b in table ==> b in m.rc
    ensures forall b, s :: b in table && s in m.tables ==> b !in m.tables[s]
  {
    assert table[..|table|] == table;
    AssignedCounts(m, m1, ids, table);
    forall b, s | b in table && s in m.tables
      ensures b !in m.tables[s]
    {
      NoHolders(m.tables, b);
    }
    SamePools(m1.WithTables(m.tables), m1);
  }

  lemma SamePools(m: State, m1: State)
    requires PoolOk(m, Gpu) && PoolOk(m, Cpu)
    requires m1.rc == m.rc && m1.gpuFree == m.gpuFree && m1.cpuFree == m.cpuFree
    ensures PoolOk(m1, Gpu) && PoolOk(m1, Cpu)
  {
  }

  lemma AssignedCounts(m: State, m1: State, ids: set<nat>, table: Table)
    requires CountsOk(m) && ids !! m.tables.Keys && m1.rc.Keys == m.rc.Keys
    requires m1.tables == AssignAll(m.tables, ids, table)
    requires forall b :: b in m.rc ==>
      m1.rc[b] == if b in table then |ids| else m.rc[b]
    requires forall b :: b in table ==> b in m.rc && m.rc[b] == 0
    ensures CountsOk(m1)
  {
    forall b | b in m1.rc
      ensures m1.rc[b] == Holders(m1.tables, b)
    {
      HoldersAssignAll(m.tables, ids, table, b);
    }
  }
}
