/** The answers of `can_swap_in`, `can_swap_out` and `can_append_slots` are no stricter than what
    the operations need, and `Later` and `Never` mean what they say. */
module Admission {
  import opened Common
  import opened BlockState
  import opened RefCounts
  import opened Sharing
  import opened Swapping
  import opened Appending

  // ---------------------------------------------------------------- swaps that cannot finish

  /** The blocks of a table that is still to be moved are counted, and those it can be moved to
      are in the other pool. */
  ghost predicate Movable(m: State, src: Device, dst: Device, table: Table, mapping: map<nat, Block>) {
    && src != dst && NumbersDistinct(table) && OnDevice(table, src)
    && (forall b :: b in table ==> m.Count(b) > 0)
    && (forall b :: b in m.Free(dst) ==> b.device == dst)
    && (forall n :: n in mapping ==> mapping[n].device == dst)
  }

  /** Releasing a counted block of the other pool leaves this pool's free list and the other counts
      alone. */
  lemma ReleaseElsewhere(m: State, src: Device, dst: Device, b: Block)
    requires src != dst
    ensures
      var (m2, q) := ReleaseBlock(m, src, b);
      && (q.Ok? <==> m.Count(b) > 0) && m2.Free(dst) == m.Free(dst) && m2.tables == m.tables
      && forall x :: x != b ==> m2.Count(x) == m.Count(x)
  {
  }

  lemma TakeOne(m: State, dst: Device)
    requires m.Free(dst) != []
    ensures
      var (m1, r) := TakeBlock(m, dst);
      && r.Ok? && r.value in m.Free(dst) && m1.tables == m.tables
      && m1.Free(dst) == m.Free(dst)[..|m.Free(dst)| - 1]
      && forall x :: x != r.value ==> m1.Count(x) == m.Count(x)
  {
  }

  /** One block of a table moved to the block that its number was moved to before. */
  lemma MoveHeldAgain(m: State, src: Device, dst: Device, table: Table, mapping: map<nat, Block>, moved: Table)
      returns (m2: State)
    requires Movable(m, src, dst, table, mapping) && table != [] && table[0].number in mapping
    ensures m2.Free(dst) == m.Free(dst) && Movable(m2, src, dst, table[1..], mapping)
    ensures MoveTable(m, src, dst, table, mapping, moved)
         == MoveTable(m2, src, dst, table[1..], mapping, moved + [mapping[table[0].number]])
  {
    hide ReleaseBlock, NumbersDistinct;
    var b, c := table[0], mapping[table[0].number];
    var m1 := m.WithCount(c, m.Count(c) + 1);
    SameMapping(mapping, b.number);
    assert b in table && m1.Count(b) > 0;
    ReleaseElsewhere(m1, src, dst, b);
    m2 := ReleaseBlock(m1, src, b).0;
    RestMovable(m, m2, src, dst, table, mapping, mapping, c);
  }

  lemma SameMapping(mapping: map<nat, Block>, n: nat)
    requires n in mapping
    ensures mapping[n := mapping[n]] == mapping
  {
  }

  /** The rest of the table can be moved after its first block has been. */
  lemma RestMovable(m: State, m2: State, src: Device, dst: Device, table: Table, mapping: map<nat, Block>,
                    mapping2: map<nat, Block>, c: Block)
    requires Movable(m, src, dst, table, mapping) && table != [] && c.device == dst
    requires forall x :: x != table[0] && x != c ==> m2.Count(x) == m.Count(x)
    requires forall x :: x in m2.Free(dst) ==> x in m.Free(dst)
    requires mapping2 == mapping || mapping2 == mapping[table[0].number := c]
    ensures Movable(m2, src, dst, table[1..], mapping2)
  {
    assert table == [table[0]] + table[1..];
    assert forall x :: x in table[1..] ==> x in table && x.number != table[0].number;
  }

  /** One block of a table moved to a block that is free. */
  lemma MoveToFree(m: State, src: Device, dst: Device, table: Table, mapping: map<nat, Block>, moved: Table)
      returns (m2: State, c: Block)
    requires Movable(m, src, dst, table, mapping) && table != [] && table[0].number !in mapping && m.Free(dst) != []
    ensures |m2.Free(dst)| == |m.Free(dst)| - 1 && Movable(m2, src, dst, table[1..], mapping[table[0].number := c])
    ensures MoveTable(m, src, dst, table, mapping, moved)
         == MoveTable(m2, src, dst, table[1..], mapping[table[0].number := c], moved + [c])
  {
    hide TakeBlock, ReleaseBlock, NumbersDistinct;
    var b := table[0];
    TakeOne(m, dst);
    var (m1, r) := TakeBlock(m, dst);
    c := r.value;
    assert b in table && c.device == dst && m1.Count(b) > 0;
    ReleaseElsewhere(m1, src, dst, b);
    m2 := ReleaseBlock(m1, src, b).0;
    RestMovable(m, m2, src, dst, table, mapping, mapping[b.number := c], c);
  }

  /** With too few free blocks in `dst`, moving a table runs out of memory. */
  lemma {:induction false} MoveTableFails(m: State, src: Device, dst: Device, table: Table,
                                          mapping: map<nat, Block>, moved: Table)
    requires Movable(m, src, dst, table, mapping) && StillToMove(table, mapping.Keys) > |m.Free(dst)|
    ensures MoveTable(m, src, dst, table, mapping, moved).1 == Err(OutOfMemory)
    decreases |table|
  {
    hide Movable, StillToMove, MoveTable;
    if table == [] {
      NoNums(mapping.Keys);
    } else if table[0].number in mapping {
      var m2 := MoveHeldAgain(m, src, dst, table, mapping, moved);
      HeldLeft(table, mapping.Keys);
      MoveTableFails(m2, src, dst, table[1..], mapping, moved + [mapping[table[0].number]]);
    } else if m.Free(dst) == [] {
      NothingFree(m, src, dst, table, mapping, moved);
    } else {
      var m2, c := MoveToFree(m, src, dst, table, mapping, moved);
      NewLeft(table, mapping.Keys);
      KeysGrow(mapping, table[0].number, c);
      MoveTableFails(m2, src, dst, table[1..], mapping[table[0].number := c], moved + [c]);
    }
  }

  lemma NothingFree(m: State, src: Device, dst: Device, table: Table, mapping: map<nat, Block>, moved: Table)
    requires table != [] && table[0].number !in mapping && m.Free(dst) == []
    ensures MoveTable(m, src, dst, table, mapping, moved) == (m, Err(OutOfMemory))
  {
  }

  /** How many block numbers of a table have not been moved. */
  function StillToMove(table: Table, keys: set<nat>): nat {
    |Nums(table) - keys|
  }

  lemma KeysGrow(mapping: map<nat, Block>, n: nat, c: Block)
    ensures mapping[n := c].Keys == mapping.Keys + {n}
  {
  }

  lemma NoNums(keys: set<nat>)
    ensures StillToMove([], keys) == 0
  {
    assert Nums([]) - keys == {};
  }

  lemma HeldLeft(table: Table, keys: set<nat>)
    requires table != [] && table[0].number in keys
    ensures StillToMove(table, keys) == StillToMove(table[1..], keys)
  {
    hide Nums;
    ConsNums(table);
    assert Nums(table) - keys == Nums(table[1..]) - keys;
  }

  lemma NewLeft(table: Table, keys: set<nat>)
    requires table != [] && table[0].number !in keys
    ensures StillToMove(table, keys) <= StillToMove(table[1..], keys + {table[0].number}) + 1
  {
    hide Nums;
    ConsNums(table);
    var n := table[0].number;
    assert Nums(table) - keys == {n} + (Nums(table[1..]) - (keys + {n}));
  }

  lemma MovableStart(m: State, s: nat, f: map<nat, Block>, src: Device, dst: Device)
    requires Inv(m) && s in m.tables && src != dst && OnDevice(m.tables[s], src) && MapOk(m, f, dst)
    ensures Movable(m, src, dst, m.tables[s], f)
  {
    HomedNumbers(m.tables[s], src);
    assert PoolOk(m, dst);
    forall b | b in m.tables[s]
      ensures m.Count(b) > 0
    {
      HeldIsCounted(m, s, b);
    }
  }

  /** And so does moving a group, at whichever of its tables. */
  lemma {:induction false} MoveGroupFails(m: State, ids: seq<nat>, f: map<nat, Block>, src: Device, dst: Device)
    requires Inv(m) && src != dst && NoDup(ids) && AllOn(m.tables, ids, src) && MapOk(m, f, dst)
    requires |GroupNums(m.tables, ids) - f.Keys| > |m.Free(dst)|
    ensures MoveGroup(m, src, dst, ids, f).2 == Err(OutOfMemory)
    decreases |ids|
  {
    hide Inv, MoveTable, Image, MapOk, Progress, AllOn, Nums, GroupNums, NoDup, Movable;
    GroupNumsCons(m.tables, ids);
    if ids == [] {
      NoneToMove(f.Keys);
    } else {
      AllOnRest(m.tables, ids, src);
      if ids[0] !in m.tables {
        MoveGroupFails(m, ids[1..], f, src, dst);
      } else {
        var table := m.tables[ids[0]];
        if |Nums(table) - f.Keys| <= |m.Free(dst)| {
          MoveFirst(m, ids, f, src, dst);
          var (m1, q) := MoveTable(m, src, dst, table, f, []);
          var (f1, moved) := q.value;
          var m2 := m1.WithTables(m.tables[ids[0] := moved]);
          ProgressMapOk(m, m2, f, f1, Nums(table), dst);
          MoveGroupFails(m2, ids[1..], f1, src, dst);
        } else {
          FirstOn(m.tables, ids, src);
          MovableStart(m, ids[0], f, src, dst);
          MoveTableFails(m, src, dst, table, f, []);
        }
      }
    }
  }

  lemma NoneToMove(keys: set<nat>)
    ensures |{} - keys| == 0
  {
    assert {} - keys == {};
  }

  lemma FirstOn(tables: map<nat, Table>, ids: seq<nat>, src: Device)
    requires ids != [] && ids[0] in tables && AllOn(tables, ids, src)
    ensures OnDevice(tables[ids[0]], src)
  {
  }

  /** A swap succeeds if and only if there is a free block for every block number to be moved;
      otherwise it runs out of memory. */
  lemma SwapSucceedsExactly(m: State, g: Group, src: Device, dst: Device, from: Status, to: Status)
    requires Inv(m) && DistinctIds(g) && src != dst && AllOn(m.tables, IdsWith(g, from), src)
    ensures
      var r := MoveStatus(m, g, src, dst, from, to).2;
      if |GroupNums(m.tables, IdsWith(g, from))| <= |m.Free(dst)| then r.Ok? else r == Err(OutOfMemory)
  {
    hide Inv, AllOn, GroupNums, MoveGroup, Progress, TablesMoved, DistinctIds, NoDup, IdsWith;
    var ids := IdsWith(g, from);
    IdsDistinct(g, from);
    var none: map<nat, Block> := map[];
    assert GroupNums(m.tables, ids) - none.Keys == GroupNums(m.tables, ids);
    if |GroupNums(m.tables, ids)| <= |m.Free(dst)| {
      MoveGroupExact(m, ids, none, src, dst);
    } else {
      MoveGroupFails(m, ids, none, src, dst);
    }
  }

  // ---------------------------------------------------------------- swaps that stop halfway

  /** What can be taken in `dst`, or has been taken there, is in `dst`. */
  ghost predicate Homeward(m: State, mapping: map<nat, Block>, dst: Device) {
    && (forall b :: b in m.Free(dst) ==> b.device == dst)
    && (forall n :: n in mapping ==> mapping[n].device == dst)
  }

  lemma {:induction false} MoveTableHome(m: State, src: Device, dst: Device, table: Table,
                                         mapping: map<nat, Block>, moved: Table)
    requires src != dst && Homeward(m, mapping, dst) && OnDevice(moved, dst)
    ensures
      var (m1, r) := MoveTable(m, src, dst, table, mapping, moved);
      && m1.tables == m.tables
      && (r.Ok? ==> Homeward(m1, r.value.0, dst) && OnDevice(r.value.1, dst))
    decreases |table|
  {
    hide TakeBlock, ReleaseBlock;
    if table != [] {
      var b, rest := table[0], table[1..];
      if b.number in mapping {
        var c := mapping[b.number];
        var m1 := m.WithCount(c, m.Count(c) + 1);
        SameMapping(mapping, b.number);
        ReleaseElsewhere(m1, src, dst, b);
        MoveTableHome(ReleaseBlock(m1, src, b).0, src, dst, rest, mapping, moved + [c]);
      } else if m.Free(dst) != [] {
        TakeOne(m, dst);
        var (m1, r) := TakeBlock(m, dst);
        ReleaseElsewhere(m1, src, dst, b);
        MoveTableHome(ReleaseBlock(m1, src, b).0, src, dst, rest, mapping[b.number := r.value], moved + [r.value]);
      } else {
        NothingFree(m, src, dst, table, mapping, moved);
      }
    }
  }

  /** The first `n` sequences have been moved, the others are as they were. */
  ghost predicate MovedUpTo(tables: map<nat, Table>, tables1: map<nat, Table>, ids: seq<nat>, n: nat, dst: Device)
    requires n <= |ids|
  {
    && tables1.Keys == tables.Keys
    && (forall s :: s in ids[..n] && s in tables ==> OnDevice(tables1[s], dst))
    && (forall s :: s !in ids[..n] && s in tables ==> tables1[s] == tables[s])
  }

  lemma {:induction false} MoveGroupHalf(m: State, src: Device, dst: Device, ids: seq<nat>, mapping: map<nat, Block>)
    requires src != dst && NoDup(ids) && Homeward(m, mapping, dst)
    ensures
      var (m1, n, r) := MoveGroup(m, src, dst, ids, mapping);
      (r.Ok? <==> n == |ids|) && MovedUpTo(m.tables, m1.tables, ids, n, dst)
    decreases |ids|
  {
    hide MoveTable, Homeward;
    if ids != [] {
      var s, rest := ids[0], ids[1..];
      if s !in m.tables {
        MoveGroupHalf(m, src, dst, rest, mapping);
        var (m1, n, r) := MoveGroup(m, src, dst, rest, mapping);
        MovedCons(m.tables, m.tables, m1.tables, ids, n, dst);
      } else {
        MoveTableHome(m, src, dst, m.tables[s], mapping, []);
        var (m1, q) := MoveTable(m, src, dst, m.tables[s], mapping, []);
        if q.Ok? {
          var m2 := m1.WithTables(m1.tables[s := q.value.1]);
          HomewardTables(m1, m2, q.value.0, dst);
          MoveGroupHalf(m2, src, dst, rest, q.value.0);
          var (m3, n, r) := MoveGroup(m2, src, dst, rest, q.value.0);
          MovedCons(m.tables, m2.tables, m3.tables, ids, n, dst);
        }
      }
    }
  }

  lemma HomewardTables(m: State, m1: State, mapping: map<nat, Block>, dst: Device)
    requires Homeward(m, mapping, dst) && m1.gpuFree == m.gpuFree && m1.cpuFree == m.cpuFree
    ensures Homeward(m1, mapping, dst)
  {
  }

  lemma MovedCons(tables: map<nat, Table>, tables1: map<nat, Table>, tables2: map<nat, Table>, ids: seq<nat>, n: nat,
                  dst: Device)
    requires ids != [] && NoDup(ids) && n < |ids| && MovedUpTo(tables1, tables2, ids[1..], n, dst)
    requires tables1.Keys == tables.Keys && forall s :: s in tables && s != ids[0] ==> tables1[s] == tables[s]
    requires ids[0] in tables ==> OnDevice(tables1[ids[0]], dst)
    ensures MovedUpTo(tables, tables2, ids, n + 1, dst)
  {
    var first, rest := ids[0], ids[1..];
    assert ids[..n + 1] == [first] + rest[..n];
    assert forall j :: 0 <= j < n ==> rest[..n][j] == ids[j + 1];
  }

  /** Where a swap stops, even halfway: a member that was to be moved has the new status and its
      table in the new pool, or the old status and its old table; all others are as they were. */
  lemma SwapStopsClean(m: State, g: Group, src: Device, dst: Device, from: Status, to: Status, i: nat)
    requires Inv(m) && DistinctIds(g) && src != dst && from != to && i < |g|
    ensures
      var (m1, g1, r) := MoveStatus(m, g, src, dst, from, to);
      && |g1| == |g| && m1.tables.Keys == m.tables.Keys && g1[i].id == g[i].id
      && (g1[i].status == g[i].status || (g[i].status == from && g1[i].status == to))
      && (r.Ok? && g[i].status == from ==> g1[i].status == to)
      && (g[i].id in m.tables ==>
            if g1[i].status == g[i].status then m1.tables[g[i].id] == m.tables[g[i].id]
            else OnDevice(m1.tables[g[i].id], dst))
  {
    var ids := IdsWith(g, from);
    assert PoolOk(m, dst);
    hide Inv, IdsWith, MoveGroup, PoolOk, NoDup, DistinctIds, MovedUpTo;
    IdsDistinct(g, from);
    MoveGroupHalf(m, src, dst, ids, map[]);
    var (m1, n, r) := MoveGroup(m, src, dst, ids, map[]);
    assert ids == ids[..n] + ids[n..];
    MemberMoves(g, from, i, ids[..n], ids[n..]);
    MemberPlace(m.tables, m1.tables, ids, n, dst, g[i].id);
  }

  lemma MemberPlace(tables: map<nat, Table>, tables1: map<nat, Table>, ids: seq<nat>, n: nat, dst: Device, s: nat)
    requires n <= |ids| && MovedUpTo(tables, tables1, ids, n, dst)
    ensures tables1.Keys == tables.Keys
    ensures s in tables ==> if s in ids[..n] then OnDevice(tables1[s], dst) else tables1[s] == tables[s]
  {
  }

  lemma MemberMoves(g: Group, from: Status, i: nat, done: seq<nat>, rest: seq<nat>)
    requires DistinctIds(g) && i < |g| && done + rest == IdsWith(g, from)
    ensures g[i].id in done ==> g[i].status == from
    ensures g[i].status == from && g[i].id !in done ==> g[i].id in rest
  {
    hide IdsWith;
    assert g[i] in g;
    if g[i].id in done {
      assert g[i].id in done + rest;
      var x :| x in g && x.id == g[i].id && x.status == from;
    }
    if g[i].status == from {
      assert g[i].id in done + rest;
    }
  }

  // ---------------------------------------------------------------- the verdicts on swaps

  /** The member is not finished. */
  predicate Live(x: SeqInfo) {
    x.status == Waiting || x.status == Running || x.status == Swapped
  }

  /** The block numbers in the tables of the members that are not finished. */
  ghost function HeldNums(tables: map<nat, Table>, g: Group): set<nat> {
    set x, b | x in g && Live(x) && x.id in tables && b in tables[x.id] :: b.number
  }

  /** What `get_physical_blocks` counts. */
  lemma PhysicalCount(m: State, g: Group)
    ensures |PhysicalBlocks(m, g)| == |HeldNums(m.tables, g)|
  {
    hide HeldNums, PhysicalBlocksOf, UnfinishedIds, GroupNums;
    PhysicalBlocksExact(m, UnfinishedIds(g), []);
    DistinctNumsCard(PhysicalBlocks(m, g));
    UnfinishedNums(m.tables, g);
    assert Nums([]) == {};
  }

  lemma UnfinishedNums(tables: map<nat, Table>, g: Group)
    ensures GroupNums(tables, UnfinishedIds(g)) == HeldNums(tables, g)
  {
    var nums := GroupNums(tables, UnfinishedIds(g));
    forall n | n in nums
      ensures n in HeldNums(tables, g)
    {
      var id, b :| id in UnfinishedIds(g) && id in tables && b in tables[id] && b.number == n;
      var x :| x in g && x.id == id && !x.status.IsFinished();
      assert Live(x);
    }
    forall n | n in HeldNums(tables, g)
      ensures n in nums
    {
      var x, b :| x in g && Live(x) && x.id in tables && b in tables[x.id] && b.number == n;
      assert !x.status.IsFinished();
      assert x.id in UnfinishedIds(g);
    }
  }

  /** All members that are not finished and have a table have this status, and the table on `d`. */
  ghost predicate AllAre(m: State, g: Group, status: Status, d: Device) {
    forall x :: x in g && Live(x) && x.id in m.tables ==> x.status == status && OnDevice(m.tables[x.id], d)
  }

  lemma StatusNums(m: State, g: Group, status: Status, d: Device)
    requires AllAre(m, g, status, d) && (status == Running || status == Swapped)
    ensures GroupNums(m.tables, IdsWith(g, status)) == HeldNums(m.tables, g)
    ensures DistinctIds(g) ==> AllOn(m.tables, IdsWith(g, status), d)
  {
    var nums := GroupNums(m.tables, IdsWith(g, status));
    forall n | n in nums
      ensures n in HeldNums(m.tables, g)
    {
      var id, b :| id in IdsWith(g, status) && id in m.tables && b in m.tables[id] && b.number == n;
      var x :| x in g && x.id == id && x.status == status;
      assert Live(x);
    }
    forall n | n in HeldNums(m.tables, g)
      ensures n in nums
    {
      var x, b :| x in g && Live(x) && x.id in m.tables && b in m.tables[x.id] && b.number == n;
      assert x.id in IdsWith(g, status);
    }
  }

  /** `can_swap_out` says yes to a running group if and only if the swap-out then succeeds; a
      refused one would run out of CPU blocks. */
  lemma CanSwapOutExact(m: State, g: Group)
    requires Inv(m) && DistinctIds(g) && AllAre(m, g, Running, Gpu)
    ensures CanSwapOut(m, g) <==> SwapOut(m, g).2.Ok?
    ensures !CanSwapOut(m, g) ==> SwapOut(m, g).2 == Err(OutOfMemory)
  {
    hide Inv, MoveStatus, PhysicalBlocks, HeldNums, GroupNums, AllAre, DistinctIds;
    PhysicalCount(m, g);
    StatusNums(m, g, Running, Gpu);
    SwapSucceedsExactly(m, g, Gpu, Cpu, Running, Swapped);
  }

  /** For a swapped group: yes if and only if the swap-in succeeds and leaves a free block for each
      of its members; never, if that is more than the pool has. */
  lemma CanSwapInExact(m: State, numGpu: nat, numCpu: nat, g: Group)
    requires Inv(m) && m.rc.Keys == Universe(numGpu, numCpu) && DistinctIds(g) && AllAre(m, g, Swapped, Cpu)
    ensures
      var (m1, g1, r) := SwapIn(m, g);
      var verdict := CanSwapIn(m, numGpu, g);
      && (verdict == CanNow <==> r.Ok? && |m1.gpuFree| >= |IdsWith(g, Swapped)|)
      && (verdict == Never <==> |HeldNums(m.tables, g)| + |IdsWith(g, Swapped)| > numGpu)
      && (verdict == CanNow || verdict == Never || verdict == Later)
  {
    hide Inv, MoveStatus, PhysicalBlocks, HeldNums, GroupNums, AllAre, DistinctIds, IdsWith, SwappedAs, Universe;
    PhysicalCount(m, g);
    StatusNums(m, g, Swapped, Cpu);
    SwapSucceedsExactly(m, g, Cpu, Gpu, Swapped, Running);
    GpuBounded(m, numGpu, numCpu);
    if |GroupNums(m.tables, IdsWith(g, Swapped))| <= |m.gpuFree| {
      SwapExact(m, g, Cpu, Gpu, Swapped, Running);
      SwapUses(m, SwapIn(m, g).0, IdsWith(g, Swapped), SwapIn(m, g).2.value, Cpu, Gpu);
    }
  }

  lemma GpuBounded(m: State, numGpu: nat, numCpu: nat)
    requires Inv(m) && m.rc.Keys == Universe(numGpu, numCpu)
    ensures |m.gpuFree| <= numGpu
  {
    FreeBounded(m, numGpu, numCpu);
  }

  lemma SwapUses(m: State, m1: State, ids: seq<nat>, numbers: map<nat, nat>, src: Device, dst: Device)
    requires SwappedAs(m, m1, ids, numbers, src, dst)
    ensures |m1.Free(dst)| + |GroupNums(m.tables, ids)| == |m.Free(dst)|
  {
  }

  // ---------------------------------------------------------------- verdicts over time

  /** The live members of the group have the same tables in both states. */
  ghost predicate SameTables(m: State, later: State, g: Group) {
    forall x :: x in g && Live(x) ==>
      && (x.id in m.tables <==> x.id in later.tables)
      && (x.id in m.tables ==> later.tables[x.id] == m.tables[x.id])
  }

  lemma SameNums(m: State, later: State, g: Group)
    requires SameTables(m, later, g)
    ensures HeldNums(later.tables, g) == HeldNums(m.tables, g)
  {
  }

  /** A group that is refused for ever is refused in every state in which it has these tables. */
  lemma SwapInNeverIsFinal(m: State, later: State, numGpu: nat, numCpu: nat, g: Group)
    requires CanSwapIn(m, numGpu, g) == Never && SameTables(m, later, g)
    requires Inv(later) && later.rc.Keys == Universe(numGpu, numCpu)
    ensures CanSwapIn(later, numGpu, g) == Never
    ensures |later.gpuFree| < |HeldNums(later.tables, g)| + |IdsWith(g, Swapped)|
  {
    hide PhysicalBlocks, HeldNums, SameTables, Inv, Universe;
    PhysicalCount(m, g);
    PhysicalCount(later, g);
    SameNums(m, later, g);
    GpuBounded(later, numGpu, numCpu);
  }

  /** A group on the CPU that has to wait can come back once all other tables have been freed. */
  lemma SwapInLaterComes(m: State, others: seq<nat>, numGpu: nat, numCpu: nat, g: Group)
    requires Inv(m) && Homed(m.tables) && m.rc.Keys == Universe(numGpu, numCpu) && AllAre(m, g, Swapped, Cpu)
    requires NoDup(others) && forall s :: s in others <==> s in m.tables && forall x :: x in g && Live(x) ==> x.id != s
    requires CanSwapIn(m, numGpu, g) == Later
    ensures FreeAll(m, None, others).1.Ok? && CanSwapIn(FreeAll(m, None, others).0, numGpu, g) == CanNow
  {
    hide PhysicalBlocks, HeldNums, Inv, Universe, FreeAll, Homed;
    FreeAllKeepsInv(m, others);
    var m1 := FreeAll(m, None, others).0;
    PhysicalCount(m, g);
    PhysicalCount(m1, g);
    assert SameTables(m, m1, g);
    SameNums(m, m1, g);
    forall s | s in m1.tables
      ensures OnDevice(m1.tables[s], Cpu)
    {
      var x :| x in g && Live(x) && x.id == s;
    }
    GpuEmpty(m1, numGpu, numCpu);
  }

  /** With all tables on the CPU the whole GPU pool is free. */
  lemma GpuEmpty(m: State, numGpu: nat, numCpu: nat)
    requires Inv(m) && m.rc.Keys == Universe(numGpu, numCpu)
    requires forall s :: s in m.tables ==> OnDevice(m.tables[s], Cpu)
    ensures |m.gpuFree| == numGpu
  {
    forall b | b in m.rc && b.device == Gpu
      ensures m.rc[b] == 0
    {
      NoHolders(m.tables, b);
    }
    EmptyPool(m, Gpu, numGpu, numCpu);
  }

  // ---------------------------------------------------------------- slots

  /** Every running member has a table that lacks one block. */
  ghost predicate AllNeedBlocks(m: State, g: Group) {
    forall s :: s in g && s.status == Running ==> s.id in m.tables && |m.tables[s.id]| + 1 == s.logicalBlocks
  }

  /** If every running member needs a new block, the round takes one for each. */
  lemma {:induction false} RoundTakes(m: State, g: Group)
    requires DistinctIds(g) && AllNeedBlocks(m, g)
    ensures AppendRound(m, None, g).1.Ok? ==> |m.gpuFree| >= |IdsWith(g, Running)|
    decreases |g|
  {
    if g != [] {
      var rest := g[1..];
      assert g == [g[0]] + rest;
      assert DistinctIds(rest) && forall s :: s in rest ==> s in g && s.id != g[0].id;
      if g[0].status != Running {
        RoundTakes(m, rest);
      } else if m.gpuFree != [] {
        RoundTakes(AppendSlots(m, None, g[0].id, g[0].logicalBlocks).0, rest);
      }
    }
  }

  /** So `can_append_slots` asks for no more than a round can need: then it says yes if and only if
      the round succeeds. */
  lemma CanAppendExact(m: State, g: Group)
    requires Inv(m) && RoundReady(m, g) && AllNeedBlocks(m, g)
    ensures CanAppendSlots(m, g) <==> AppendRound(m, None, g).1.Ok?
  {
    RoundTakes(m, g);
    hide Inv, RoundReady, AllNeedBlocks, AppendRound;
    if CanAppendSlots(m, g) {
      RoundExact(m, g);
    }
  }
}
