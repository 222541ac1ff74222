/** Swapping groups of sequences between the two pools, and its admission tests. */
module Swapping {
  import opened Common
  import opened BlockState
  import opened RefCounts
  import opened Sharing

  /** `mapping` sends block numbers to distinct held blocks of pool `dst`. */
  ghost predicate MapOk(m: State, mapping: map<nat, Block>, dst: Device) {
    && (forall n :: n in mapping ==> mapping[n] in m.rc && m.rc[mapping[n]] > 0 && mapping[n].device == dst)
    && (forall n, k :: n in mapping && k in mapping && n != k ==> mapping[n] != mapping[k])
  }

  /** `moved` is the image of `table` under `mapping`, entry by entry. */
  ghost predicate Image(mapping: map<nat, Block>, table: Table, moved: Table) {
    && |moved| == |table|
    && forall i :: 0 <= i < |table| ==> table[i].number in mapping && moved[i] == mapping[table[i].number]
  }

  ghost predicate Extends(mapping: map<nat, Block>, mapping1: map<nat, Block>) {
    forall n :: n in mapping ==> n in mapping1 && mapping1[n] == mapping[n]
  }

  /** What `mapping1` adds to `mapping` are blocks that were free in `m`. */
  ghost predicate AddsFree(m: State, mapping: map<nat, Block>, mapping1: map<nat, Block>) {
    forall n :: n in mapping1 && n !in mapping ==> mapping1[n] in m.rc && m.rc[mapping1[n]] == 0
  }

  ghost predicate CountsGrow(m: State, m1: State, dst: Device) {
    m1.rc.Keys == m.rc.Keys && forall b :: b in m.rc && b.device == dst ==> m1.rc[b] >= m.rc[b]
  }

  /** From `m` to `m1` only new blocks of `dst` were mapped to: each was free in `m`, each was
      taken from the free list, and no count of a `dst` block went down. */
  ghost predicate Progress(m: State, m1: State, mapping: map<nat, Block>, mapping1: map<nat, Block>,
                           need: set<nat>, dst: Device)
  {
    && MapOk(m1, mapping1, dst) && Extends(mapping, mapping1) && AddsFree(m, mapping, mapping1)
    && mapping1.Keys == mapping.Keys + need
    && |m1.Free(dst)| + |need - mapping.Keys| == |m.Free(dst)|
    && CountsGrow(m, m1, dst)
  }

  /** The table of `s` has been moved up to `moved`, and `rest` of it is still to be moved. */
  ghost predicate Moving(m: State, vt: map<nat, Table>, s: nat, done: Table, moved: Table, rest: Table,
                         mapping: map<nat, Block>, src: Device, dst: Device)
  {
    && src != dst && Inv(m.WithTables(vt)) && s in vt && vt[s] == moved + rest
    && Image(mapping, done, moved) && NumbersDistinct(done + rest) && OnDevice(rest, src)
    && MapOk(m, mapping, dst)
    && |Nums(rest) - mapping.Keys| <= |m.Free(dst)|
  }

  lemma ProgressTrans(m: State, m1: State, m2: State, f: map<nat, Block>, f1: map<nat, Block>,
                      f2: map<nat, Block>, need1: set<nat>, need2: set<nat>, dst: Device)
    requires Progress(m, m1, f, f1, need1, dst) && Progress(m1, m2, f1, f2, need2, dst)
    ensures Progress(m, m2, f, f2, need1 + need2, dst)
  {
    hide MapOk, Extends, AddsFree, CountsGrow;
    FreshTrans(m, m1, m2, f, f1, f2, dst);
    NeedAdds(f.Keys, need1, need2);
  }

  lemma NeedAdds(keys: set<nat>, need1: set<nat>, need2: set<nat>)
    ensures |(need1 + need2) - keys| == |need1 - keys| + |need2 - (keys + need1)|
    ensures keys + need1 + need2 == keys + (need1 + need2)
  {
    assert (need1 + need2) - keys == (need1 - keys) + (need2 - (keys + need1));
  }

  lemma FreshTrans(m: State, m1: State, m2: State, f: map<nat, Block>, f1: map<nat, Block>,
                   f2: map<nat, Block>, dst: Device)
    requires MapOk(m2, f2, dst) && Extends(f, f1) && Extends(f1, f2)
    requires AddsFree(m, f, f1) && AddsFree(m1, f1, f2) && CountsGrow(m, m1, dst) && CountsGrow(m1, m2, dst)
    ensures AddsFree(m, f, f2) && Extends(f, f2) && CountsGrow(m, m2, dst)
  {
  }

  lemma ImageExtends(f: map<nat, Block>, f1: map<nat, Block>, table: Table, moved: Table)
    requires Image(f, table, moved) && Extends(f, f1)
    ensures Image(f1, table, moved)
  {
  }

  lemma ImageSnoc(f: map<nat, Block>, table: Table, moved: Table, b: Block)
    requires Image(f, table, moved) && b.number in f
    ensures Image(f, table + [b], moved + [f[b.number]])
  {
  }

  /** The mapped block is in no place of the half-moved table. */
  lemma MappedIsElsewhere(m: State, vt: map<nat, Table>, s: nat, done: Table, moved: Table, rest: Table,
                          f: map<nat, Block>, src: Device, dst: Device)
    requires Moving(m, vt, s, done, moved, rest, f, src, dst) && rest != [] && rest[0].number in f
    ensures var c := f[rest[0].number];
      c !in vt[s] && c in m.rc && m.rc[c] > 0 && c.device == dst
  {
    hide Inv;
    var c := f[rest[0].number];
    NotAgain(done, rest);
    forall j | 0 <= j < |moved|
      ensures moved[j] != c
    {
      assert done[j] in done;
    }
  }

  /** What one round of the loop leaves to do. */
  lemma NeedShrinks(table: Table, keys: set<nat>)
    requires table != [] && NumbersDistinct(table)
    ensures var n := table[0].number;
      && |Nums(table[1..]) - (keys + {n})| + (if n in keys then 0 else 1) == |Nums(table) - keys|
      && Nums(table) == {n} + Nums(table[1..])
  {
    HeadNumber(table);
    var n := table[0].number;
    var later := Nums(table[1..]) - (keys + {n});
    assert Nums(table) - keys == if n in keys then later else later + {n};
  }

  /** Small facts about sequences and maps, kept away from the states. */
  lemma ReplaceAt(moved: Table, rest: Table, c: Block)
    requires rest != []
    ensures (moved + rest)[|moved|] == rest[0]
    ensures (moved + rest)[|moved| := c] == moved + [c] + rest[1..]
  {
  }

  lemma RestOnDevice(rest: Table, src: Device)
    requires rest != [] && OnDevice(rest, src)
    ensures rest[0].device == src && OnDevice(rest[1..], src)
  {
  }

  lemma GrownKeys(f: map<nat, Block>, n: nat, c: Block)
    requires n !in f
    ensures f[n := c].Keys == f.Keys + {n} && {n} - f.Keys == {n} && Extends(f, f[n := c])
  {
  }

  lemma KnownKeys(f: map<nat, Block>, n: nat)
    requires n in f
    ensures f.Keys + {n} == f.Keys && {n} - f.Keys == {} && f[n := f[n]] == f && Extends(f, f)
  {
  }

  lemma MoveHeld(m: State, vt: map<nat, Table>, s: nat, done: Table, moved: Table, rest: Table,
                 f: map<nat, Block>, src: Device, dst: Device)
    requires Moving(m, vt, s, done, moved, rest, f, src, dst) && rest != [] && rest[0].number in f
    ensures var b := rest[0];
      var c := f[b.number];
      var (m2, q) := ReleaseBlock(m.WithCount(c, m.Count(c) + 1), src, b);
      && q.Ok? && m2.tables == m.tables && f[b.number := c] == f
      && Moving(m2, vt[s := moved + [c] + rest[1..]], s, done + [b], moved + [c], rest[1..], f, src, dst)
      && Progress(m, m2, f, f, {b.number}, dst)
  {
    hide Inv, NumbersDistinct, MapOk, Image, Extends, AddsFree, CountsGrow, OnDevice, Nums, ReleaseBlock;
    var b := rest[0];
    var c := f[b.number];
    MappedIsElsewhere(m, vt, s, done, moved, rest, f, src, dst);
    ReplaceAt(moved, rest, c);
    RestOnDevice(rest, src);
    MoveHeldStep(m, vt, s, |moved|, c);
    var m2 := ReleaseBlock(m.WithCount(c, m.Count(c) + 1), src, b).0;
    MovingNext(done, rest);
    NeedShrinks(rest, f.Keys);
    KnownKeys(f, b.number);
    ImageSnoc(f, done, moved, b);
    MapKept(m, m2, f, b, dst);
  }

  /** Counts of the `dst` blocks that do not go down keep a mapping. */
  lemma MapKept(m: State, m2: State, f: map<nat, Block>, b: Block, dst: Device)
    requires MapOk(m, f, dst) && m2.rc.Keys == m.rc.Keys && b.device != dst
    requires forall x :: x in m.rc && x != b ==> m2.rc[x] >= m.rc[x]
    ensures MapOk(m2, f, dst) && AddsFree(m, f, f) && CountsGrow(m, m2, dst)
  {
  }

  lemma MovingNext(done: Table, rest: Table)
    requires rest != [] && NumbersDistinct(done + rest)
    ensures NumbersDistinct(done + [rest[0]] + rest[1..]) && NumbersDistinct(rest)
  {
    assert done + [rest[0]] + rest[1..] == done + rest;
    forall i, j | 0 <= i < j < |rest|
      ensures rest[i].number != rest[j].number
    {
      assert (done + rest)[|done| + i] == rest[i] && (done + rest)[|done| + j] == rest[j];
    }
  }

  lemma MoveFresh(m: State, vt: map<nat, Table>, s: nat, done: Table, moved: Table, rest: Table,
                  f: map<nat, Block>, src: Device, dst: Device)
    requires Moving(m, vt, s, done, moved, rest, f, src, dst) && rest != [] && rest[0].number !in f
    ensures var b := rest[0];
      var (m1, r) := TakeBlock(m, dst);
      && r.Ok?
      && var c := r.value;
      var (m2, q) := ReleaseBlock(m1, src, b);
      var f1 := f[b.number := c];
      && q.Ok? && m2.tables == m.tables
      && Moving(m2, vt[s := moved + [c] + rest[1..]], s, done + [b], moved + [c], rest[1..], f1, src, dst)
      && Progress(m, m2, f, f1, {b.number}, dst)
  {
    hide Inv, NumbersDistinct, MapOk, Image, Extends, AddsFree, CountsGrow, OnDevice, Nums, TakeBlock, ReleaseBlock,
         Progress;
    var b := rest[0];
    MovingNext(done, rest);
    NeedShrinks(rest, f.Keys);
    RestOnDevice(rest, src);
    MoveFreshTable(m, vt, s, moved, rest, dst);
    var (m1, r) := TakeBlock(m, dst);
    var c := r.value;
    var m2 := ReleaseBlock(m1, src, b).0;
    var f1 := f[b.number := c];
    GrownKeys(f, b.number, c);
    MapGrows(m, m2, f, b, c, dst);
    FreshProgress(m, m2, f, b, c, dst);
    ImageExtends(f, f1, done, moved);
    ImageSnoc(f1, done, moved, b);
  }

  lemma FreshProgress(m: State, m2: State, f: map<nat, Block>, b: Block, c: Block, dst: Device)
    requires b.number !in f && MapOk(m2, f[b.number := c], dst) && AddsFree(m, f, f[b.number := c])
    requires CountsGrow(m, m2, dst) && |m2.Free(dst)| + 1 == |m.Free(dst)|
    ensures Progress(m, m2, f, f[b.number := c], {b.number}, dst)
  {
    assert {b.number} - f.Keys == {b.number};
  }

  /** The state after one block has moved to a block that was free. */
  lemma MoveFreshTable(m: State, vt: map<nat, Table>, s: nat, moved: Table, rest: Table, dst: Device)
    requires Inv(m.WithTables(vt)) && s in vt && vt[s] == moved + rest && rest != []
    requires rest[0].device != dst && m.Free(dst) != []
    ensures var b := rest[0];
      var (m1, r) := TakeBlock(m, dst);
      && r.Ok?
      && var c := r.value;
      var (m2, q) := ReleaseBlock(m1, b.device, b);
      && q.Ok? && m2.tables == m.tables && m2.rc.Keys == m.rc.Keys
      && b in m.rc && m.rc[b] > 0 && c in m.rc && m.rc[c] == 0 && c.device == dst
      && m2.rc == m.rc[c := 1][b := m.rc[b] - 1] && |m2.Free(dst)| + 1 == |m.Free(dst)|
      && Inv(m2.WithTables(vt[s := moved + [c] + rest[1..]]))
  {
    hide Inv, TakeBlock, ReleaseBlock;
    ReplaceAt(moved, rest, rest[0]);
    MoveFreshStep(m, vt, s, |moved|, dst);
    ReplaceAt(moved, rest, TakeBlock(m, dst).1.value);
  }

  /** A mapping may be extended by a block that was free. */
  lemma MapGrows(m: State, m2: State, f: map<nat, Block>, b: Block, c: Block, dst: Device)
    requires MapOk(m, f, dst) && m2.rc.Keys == m.rc.Keys && b.device != dst && b.number !in f
    requires c in m.rc && c.device == dst && m.rc[c] == 0 && m2.rc[c] > 0
    requires forall x :: x in m.rc && x != b ==> m2.rc[x] >= m.rc[x]
    ensures MapOk(m2, f[b.number := c], dst) && AddsFree(m, f, f[b.number := c]) && CountsGrow(m, m2, dst)
  {
  }

  /** With enough free blocks in `dst`, moving a table meets neither an empty pool nor a double
      free, and the new table is the image of the old one. */
  lemma {:induction false} MoveTableExact(m: State, vt: map<nat, Table>, s: nat, done: Table, moved: Table,
                                          rest: Table, f: map<nat, Block>, src: Device, dst: Device)
    requires Moving(m, vt, s, done, moved, rest, f, src, dst)
    ensures var (m1, r) := MoveTable(m, src, dst, rest, f, moved);
      && r.Ok? && m1.tables == m.tables
      && var (f1, moved1) := r.value;
      && Inv(m1.WithTables(vt[s := moved1])) && Image(f1, done + rest, moved1)
      && Progress(m, m1, f, f1, Nums(rest), dst)
    decreases |rest|
  {
    hide Inv, NumbersDistinct, Progress, Moving, Image, TakeBlock, ReleaseBlock, Nums;
    if rest == [] {
      MoveTableDone(m, vt, s, done, moved, f, src, dst);
    } else {
      var b := rest[0];
      var m2, c, f1;
      if b.number in f {
        MoveHeld(m, vt, s, done, moved, rest, f, src, dst);
        c := f[b.number];
        f1 := f;
        m2 := ReleaseBlock(m.WithCount(c, m.Count(c) + 1), src, b).0;
      } else {
        MoveFresh(m, vt, s, done, moved, rest, f, src, dst);
        c := TakeBlock(m, dst).1.value;
        f1 := f[b.number := c];
        m2 := ReleaseBlock(TakeBlock(m, dst).0, src, b).0;
      }
      var vt1 := vt[s := moved + [c] + rest[1..]];
      MoveTableExact(m2, vt1, s, done + [b], moved + [c], rest[1..], f1, src, dst);
      var (m3, r) := MoveTable(m2, src, dst, rest[1..], f1, moved + [c]);
      assert MoveTable(m, src, dst, rest, f, moved) == (m3, r);
      var (f3, moved3) := r.value;
      assert vt1[s := moved3] == vt[s := moved3];
      assert done + [b] + rest[1..] == done + rest;
      ProgressTrans(m, m2, m3, f, f1, f3, {b.number}, Nums(rest[1..]), dst);
      ConsNums(rest);
    }
  }

  lemma ConsNums(table: Table)
    requires table != []
    ensures Nums(table) == {table[0].number} + Nums(table[1..])
  {
  }

  lemma MoveTableDone(m: State, vt: map<nat, Table>, s: nat, done: Table, moved: Table,
                      f: map<nat, Block>, src: Device, dst: Device)
    requires Moving(m, vt, s, done, moved, [], f, src, dst)
    ensures Inv(m.WithTables(vt[s := moved])) && Image(f, done + [], moved) && Progress(m, m, f, f, Nums([]), dst)
  {
    hide Inv;
    assert moved + [] == moved && done + [] == done && vt[s := moved] == vt;
    assert Nums([]) == {};
    assert f.Keys + {} == f.Keys && {} - f.Keys == {};
  }

  // ---------------------------------------------------------------- whole groups

  /** The block numbers in the tables of the listed sequences. */
  function GroupNums(tables: map<nat, Table>, ids: seq<nat>): (nums: set<nat>)
    ensures forall id, b :: id in ids && id in tables && b in tables[id] ==> b.number in nums
    ensures forall n :: n in nums ==> exists id, b :: id in ids && id in tables && b in tables[id] && b.number == n
  {
    if ids == [] then {}
    else (if ids[0] in tables then Nums(tables[ids[0]]) else {}) + GroupNums(tables, ids[1..])
  }

  lemma GroupNumsUpdate(tables: map<nat, Table>, ids: seq<nat>, s: nat, table: Table)
    requires s !in ids && s in tables
    ensures GroupNums(tables[s := table], ids) == GroupNums(tables, ids)
  {
  }

  /** The tables of the listed sequences are images of what they were; the others are untouched. */
  ghost predicate TablesMoved(tables: map<nat, Table>, tables1: map<nat, Table>, ids: seq<nat>, f: map<nat, Block>) {
    && tables1.Keys == tables.Keys
    && forall s :: s in tables ==>
         if s in ids then Image(f, tables[s], tables1[s]) else tables1[s] == tables[s]
  }

  /** All listed sequences that have a table have it on `src`. */
  ghost predicate AllOn(tables: map<nat, Table>, ids: seq<nat>, src: Device) {
    forall s :: s in ids && s in tables ==> OnDevice(tables[s], src)
  }

  lemma MovingStart(m: State, s: nat, f: map<nat, Block>, src: Device, dst: Device)
    requires Inv(m) && s in m.tables && src != dst && OnDevice(m.tables[s], src) && MapOk(m, f, dst)
    requires |Nums(m.tables[s]) - f.Keys| <= |m.Free(dst)|
    ensures Moving(m, m.tables, s, [], [], m.tables[s], f, src, dst)
  {
    HomedNumbers(m.tables[s], src);
    assert m.WithTables(m.tables) == m;
    assert [] + m.tables[s] == m.tables[s];
  }

  lemma TablesMovedCons(tables: map<nat, Table>, moved: Table, tables2: map<nat, Table>,
                        ids: seq<nat>, f1: map<nat, Block>, f2: map<nat, Block>)
    requires ids != [] && NoDup(ids) && ids[0] in tables && Extends(f1, f2)
    requires Image(f1, tables[ids[0]], moved)
    requires TablesMoved(tables[ids[0] := moved], tables2, ids[1..], f2)
    ensures TablesMoved(tables, tables2, ids, f2)
  {
  }

  lemma FirstOfIds(ids: seq<nat>)
    requires ids != []
    ensures ids == [ids[0]] + ids[1..]
  {
  }

  /** Moving the first table of a group leaves a state in which the rest can be moved. */
  lemma MoveFirst(m: State, ids: seq<nat>, f: map<nat, Block>, src: Device, dst: Device)
    requires Inv(m) && src != dst && NoDup(ids) && AllOn(m.tables, ids, src) && MapOk(m, f, dst)
    requires ids != [] && ids[0] in m.tables && |Nums(m.tables[ids[0]]) - f.Keys| <= |m.Free(dst)|
    ensures var table := m.tables[ids[0]];
      var (m1, q) := MoveTable(m, src, dst, table, f, []);
      && q.Ok? && m1.tables == m.tables
      && var (f1, moved) := q.value;
      var m2 := m1.WithTables(m.tables[ids[0] := moved]);
      && Inv(m2) && AllOn(m2.tables, ids[1..], src) && Image(f1, table, moved)
      && Progress(m, m2, f, f1, Nums(table), dst)
      && GroupNums(m2.tables, ids[1..]) == GroupNums(m.tables, ids[1..])
      && |m2.Free(dst)| + |GroupNums(m.tables, ids) - f.Keys|
         == |m.Free(dst)| + |GroupNums(m.tables, ids[1..]) - f1.Keys|
  {
    hide Inv, MoveTable, Image, MapOk, Moving, NumbersDistinct, Nums, Extends, AddsFree, CountsGrow;
    var s := ids[0];
    FirstOfIds(ids);
    var table := m.tables[s];
    MovingStart(m, s, f, src, dst);
    MoveTableExact(m, m.tables, s, [], [], table, f, src, dst);
    var (m1, q) := MoveTable(m, src, dst, table, f, []);
    var (f1, moved) := q.value;
    assert [] + table == table;
    ProgressRetable(m, m1, m.tables[s := moved], f, f1, Nums(table), dst);
    GroupNumsUpdate(m.tables, ids[1..], s, moved);
    GroupNumsCons(m.tables, ids);
    NeedAdds(f.Keys, Nums(table), GroupNums(m.tables, ids[1..]));
  }

  lemma ProgressRetable(m: State, m1: State, vt: map<nat, Table>, f: map<nat, Block>, f1: map<nat, Block>,
                        need: set<nat>, dst: Device)
    requires Progress(m, m1, f, f1, need, dst)
    ensures Progress(m, m1.WithTables(vt), f, f1, need, dst)
  {
  }

  /** With enough free blocks in `dst`, moving a group succeeds: every table becomes the image
      of the old one under an injective mapping whose keys are exactly the moved blocks. */
  lemma {:induction false} MoveGroupExact(m: State, ids: seq<nat>, f: map<nat, Block>, src: Device, dst: Device)
    requires Inv(m) && src != dst && NoDup(ids) && AllOn(m.tables, ids, src) && MapOk(m, f, dst)
    requires |GroupNums(m.tables, ids) - f.Keys| <= |m.Free(dst)|
    ensures var (m1, n, r) := MoveGroup(m, src, dst, ids, f);
      && n == |ids| && r.Ok? && Inv(m1)
      && Progress(m, m1, f, r.value, GroupNums(m.tables, ids), dst)
      && TablesMoved(m.tables, m1.tables, ids, r.value)
    decreases |ids|
  {
    hide Inv, MoveTable, Image, MapOk, Progress, TablesMoved, AllOn, Nums, GroupNums, NoDup;
    GroupNumsCons(m.tables, ids);
    if ids == [] {
      MoveNothing(m, f, dst);
    } else {
      AllOnRest(m.tables, ids, src);
      if ids[0] in m.tables {
        var table := m.tables[ids[0]];
        CardMonotone(Nums(table) - f.Keys, GroupNums(m.tables, ids) - f.Keys);
        MoveFirst(m, ids, f, src, dst);
        var (m1, q) := MoveTable(m, src, dst, table, f, []);
        var (f1, moved) := q.value;
        var m2 := m1.WithTables(m.tables[ids[0] := moved]);
        ProgressMapOk(m, m2, f, f1, Nums(table), dst);
        MoveGroupExact(m2, ids[1..], f1, src, dst);
        var (m3, n, r) := MoveGroup(m2, src, dst, ids[1..], f1);
        var need := GroupNums(m.tables, ids[1..]);
        ProgressTrans(m, m2, m3, f, f1, r.value, Nums(table), need, dst);
        ProgressMapOk(m2, m3, f1, r.value, need, dst);
        TablesMovedCons(m.tables, moved, m3.tables, ids, f1, r.value);
      } else {
        MoveGroupExact(m, ids[1..], f, src, dst);
        var (m3, n, r) := MoveGroup(m, src, dst, ids[1..], f);
        TablesMovedSkip(m.tables, m3.tables, ids, r.value);
      }
    }
  }

  lemma GroupNumsCons(tables: map<nat, Table>, ids: seq<nat>)
    ensures ids == [] ==> GroupNums(tables, ids) == {}
    ensures ids != [] && ids[0] in tables ==>
      GroupNums(tables, ids) == Nums(tables[ids[0]]) + GroupNums(tables, ids[1..])
    ensures ids != [] && ids[0] !in tables ==> GroupNums(tables, ids) == GroupNums(tables, ids[1..])
  {
  }

  lemma AllOnRest(tables: map<nat, Table>, ids: seq<nat>, src: Device)
    requires ids != [] && NoDup(ids) && AllOn(tables, ids, src)
    ensures NoDup(ids[1..]) && AllOn(tables, ids[1..], src)
  {
  }

  lemma TablesMovedSkip(tables: map<nat, Table>, tables2: map<nat, Table>, ids: seq<nat>, f: map<nat, Block>)
    requires ids != [] && ids[0] !in tables && TablesMoved(tables, tables2, ids[1..], f)
    ensures TablesMoved(tables, tables2, ids, f)
  {
  }

  lemma ProgressMapOk(m: State, m1: State, f: map<nat, Block>, f1: map<nat, Block>, need: set<nat>, dst: Device)
    requires Progress(m, m1, f, f1, need, dst)
    ensures MapOk(m1, f1, dst) && Extends(f, f1)
  {
  }

  lemma MoveNothing(m: State, f: map<nat, Block>, dst: Device)
    requires MapOk(m, f, dst)
    ensures Progress(m, m, f, f, {}, dst) && TablesMoved(m.tables, m.tables, [], f)
  {
  }

  // ---------------------------------------------------------------- admission

  /** `get_physical_blocks` keeps one block per number. */
  lemma {:induction false} FirstOfNumberExact(table: Table, output: Table)
    requires NumbersDistinct(output)
    ensures var r := FirstOfNumber(table, output);
      NumbersDistinct(r) && Nums(r) == Nums(output) + Nums(table)
    decreases |table|
  {
    if table != [] {
      var b := table[0];
      ConsNums(table);
      if exists c :: c in output && c.number == b.number {
        FirstOfNumberExact(table[1..], output);
      } else {
        assert Nums(output + [b]) == Nums(output) + {b.number};
        assert forall j :: 0 <= j < |output| ==> output[j] in output;
        FirstOfNumberExact(table[1..], output + [b]);
      }
    }
  }

  lemma {:induction false} PhysicalBlocksExact(m: State, ids: seq<nat>, output: Table)
    requires NumbersDistinct(output)
    ensures var r := PhysicalBlocksOf(m, ids, output);
      NumbersDistinct(r) && Nums(r) == Nums(output) + GroupNums(m.tables, ids)
    decreases |ids|
  {
    if ids != [] {
      if ids[0] in m.tables {
        FirstOfNumberExact(m.tables[ids[0]], output);
        PhysicalBlocksExact(m, ids[1..], FirstOfNumber(m.tables[ids[0]], output));
      } else {
        PhysicalBlocksExact(m, ids[1..], output);
      }
    }
  }

  lemma DistinctNumsCard(table: Table)
    requires NumbersDistinct(table)
    ensures |Nums(table)| == |table|
  {
    if table != [] {
      HeadNumber(table);
      DistinctNumsCard(table[1..]);
    }
  }

  /** The admission tests count at least the blocks of the members that are to be moved, even
      when the group is spread over both devices. */
  lemma AdmissionCounts(m: State, g: Group, status: Status)
    requires !status.IsFinished()
    ensures |GroupNums(m.tables, IdsWith(g, status))| <= |PhysicalBlocks(m, g)|
  {
    PhysicalBlocksExact(m, UnfinishedIds(g), []);
    DistinctNumsCard(PhysicalBlocks(m, g));
    assert GroupNums(m.tables, IdsWith(g, status)) <= GroupNums(m.tables, UnfinishedIds(g));
    CardMonotone(GroupNums(m.tables, IdsWith(g, status)), Nums(PhysicalBlocks(m, g)));
  }

  /** A group is a hash map, so its members have distinct ids. */
  ghost predicate DistinctIds(g: Group) {
    forall i, j :: 0 <= i < j < |g| ==> g[i].id != g[j].id
  }

  lemma IdsDistinct(g: Group, status: Status)
    requires DistinctIds(g)
    ensures NoDup(IdsWith(g, status))
  {
    if g != [] {
      assert forall s :: s in g[1..] ==> s.id != g[0].id;
      IdsDistinct(g[1..], status);
      assert g[0].id !in IdsWith(g[1..], status);
    }
  }

  /** Different block numbers go to different blocks of `dst`, all of them free in `m`. */
  ghost predicate FreshNumbers(m: State, numbers: map<nat, nat>, dst: Device) {
    && (forall n, k :: n in numbers && k in numbers && n != k ==> numbers[n] != numbers[k])
    && (forall n :: n in numbers ==> Block(dst, numbers[n]) in m.rc && m.rc[Block(dst, numbers[n])] == 0)
  }

  /** The tables of `ids` are renumbered entry by entry; the others are untouched. */
  ghost predicate TablesRenumbered(tables: map<nat, Table>, tables1: map<nat, Table>, ids: seq<nat>,
                                   numbers: map<nat, nat>, dst: Device)
  {
    && tables1.Keys == tables.Keys
    && (forall s :: s in tables && s !in ids ==> tables1[s] == tables[s])
    && (forall s :: s in tables && s in ids ==> Renumbered(tables[s], tables1[s], numbers, dst))
  }

  ghost predicate Renumbered(table: Table, moved: Table, numbers: map<nat, nat>, dst: Device) {
    && |moved| == |table|
    && forall i :: 0 <= i < |table| ==>
         table[i].number in numbers && moved[i] == Block(dst, numbers[table[i].number])
  }

  /** Blocks of `src` that no table holds are in the free list of `src`. */
  ghost predicate UnheldAreFree(m: State, src: Device) {
    forall b :: b in m.rc && b.device == src && (forall s :: s in m.tables ==> b !in m.tables[s]) ==> b in m.Free(src)
  }

  /** What a completed swap of the sequences `ids` from `src` to `dst` has done, read off the
      block tables and the returned block numbers. */
  ghost predicate SwappedAs(m: State, m1: State, ids: seq<nat>, numbers: map<nat, nat>, src: Device, dst: Device) {
    && m1.rc.Keys == m.rc.Keys
    && numbers.Keys == GroupNums(m.tables, ids) && FreshNumbers(m, numbers, dst)
    && TablesRenumbered(m.tables, m1.tables, ids, numbers, dst)
    && |m1.Free(dst)| + |numbers.Keys| == |m.Free(dst)|
    && UnheldAreFree(m1, src)
  }

  lemma SwapExact(m: State, g: Group, src: Device, dst: Device, from: Status, to: Status)
    requires Inv(m) && DistinctIds(g) && src != dst && !from.IsFinished()
    requires AllOn(m.tables, IdsWith(g, from), src) && |PhysicalBlocks(m, g)| <= |m.Free(dst)|
    ensures var (m1, g1, r) := MoveStatus(m, g, src, dst, from, to);
      && r.Ok? && Inv(m1) && SwappedAs(m, m1, IdsWith(g, from), r.value, src, dst)
      && g1 == WithStatus(g, Elements(IdsWith(g, from)), to)
  {
    hide Inv, AllOn, GroupNums, PhysicalBlocks, MoveGroup, Progress, TablesMoved, SwappedAs, DistinctIds, NoDup,
         IdsWith;
    var ids := IdsWith(g, from);
    IdsDistinct(g, from);
    AdmissionCounts(m, g, from);
    var none: map<nat, Block> := map[];
    assert GroupNums(m.tables, ids) - none.Keys == GroupNums(m.tables, ids);
    MoveGroupExact(m, ids, none, src, dst);
    var (m1, n, r) := MoveGroup(m, src, dst, ids, map[]);
    assert ids[..n] == ids;
    NumbersSwapped(m, m1, ids, r.value, src, dst);
  }

  lemma NumbersSwapped(m: State, m1: State, ids: seq<nat>, f: map<nat, Block>, src: Device, dst: Device)
    requires Inv(m1) && Progress(m, m1, map[], f, GroupNums(m.tables, ids), dst)
    requires TablesMoved(m.tables, m1.tables, ids, f)
    ensures SwappedAs(m, m1, ids, Numbers(f), src, dst)
  {
    hide Inv, TablesMoved, GroupNums, MapOk, AddsFree, CountsGrow, Extends, FreshNumbers, TablesRenumbered,
         UnheldAreFree;
    var none: map<nat, Block> := map[];
    var need := GroupNums(m.tables, ids);
    assert need - none.Keys == need && none.Keys + need == need;
    NumbersFresh(m, m1, f, dst);
    NumbersTables(m1, m.tables, m1.tables, ids, f, dst);
    FreedBlocks(m1, src);
  }

  lemma NumbersFresh(m: State, m1: State, f: map<nat, Block>, dst: Device)
    requires MapOk(m1, f, dst) && AddsFree(m, map[], f) && CountsGrow(m, m1, dst)
    ensures FreshNumbers(m, Numbers(f), dst) && Numbers(f).Keys == f.Keys && m1.rc.Keys == m.rc.Keys
  {
  }

  lemma NumbersTables(m1: State, tables: map<nat, Table>, tables1: map<nat, Table>, ids: seq<nat>,
                      f: map<nat, Block>, dst: Device)
    requires MapOk(m1, f, dst) && TablesMoved(tables, tables1, ids, f)
    ensures TablesRenumbered(tables, tables1, ids, Numbers(f), dst)
  {
  }

  lemma FreedBlocks(m1: State, src: Device)
    requires Inv(m1)
    ensures UnheldAreFree(m1, src)
  {
  }

  /** `can_swap_out` is enough for `swap_out`: no empty pool, no double free. */
  lemma SwapOutAdmitted(m: State, g: Group)
    requires Inv(m) && DistinctIds(g) && AllOn(m.tables, IdsWith(g, Running), Gpu)
    requires CanSwapOut(m, g)
    ensures var (m1, g1, r) := SwapOut(m, g);
      && r.Ok? && Inv(m1) && SwappedAs(m, m1, IdsWith(g, Running), r.value, Gpu, Cpu)
      && g1 == WithStatus(g, Elements(IdsWith(g, Running)), Swapped)
  {
    SwapExact(m, g, Gpu, Cpu, Running, Swapped);
  }

  /** `can_swap_in` is enough for `swap_in`, and leaves a free GPU block for every sequence
      swapped in. */
  lemma SwapInAdmitted(m: State, numGpu: nat, g: Group)
    requires Inv(m) && DistinctIds(g) && AllOn(m.tables, IdsWith(g, Swapped), Cpu)
    requires CanSwapIn(m, numGpu, g) == CanNow
    ensures var (m1, g1, r) := SwapIn(m, g);
      && r.Ok? && Inv(m1) && SwappedAs(m, m1, IdsWith(g, Swapped), r.value, Cpu, Gpu)
      && g1 == WithStatus(g, Elements(IdsWith(g, Swapped)), Running)
      && |m1.gpuFree| >= |IdsWith(g, Swapped)|
  {
    SwapExact(m, g, Cpu, Gpu, Swapped, Running);
    AdmissionCounts(m, g, Swapped);
  }

  lemma SwapParts(m: State, m1: State, ids: seq<nat>, numbers: map<nat, nat>, src: Device, dst: Device)
    requires SwappedAs(m, m1, ids, numbers, src, dst)
    ensures m1.rc.Keys == m.rc.Keys && numbers.Keys == GroupNums(m.tables, ids) && FreshNumbers(m, numbers, dst)
  {
  }

  /** A swap keeps exactly the sharing of blocks there was. */
  lemma SharingKept(m: State, m1: State, ids: seq<nat>, numbers: map<nat, nat>, src: Device, dst: Device,
                    s: nat, i: nat, t: nat, j: nat)
    requires SwappedAs(m, m1, ids, numbers, src, dst) && AllOn(m.tables, ids, src)
    requires s in ids && s in m.tables && i < |m.tables[s]| && t in ids && t in m.tables && j < |m.tables[t]|
    ensures i < |m1.tables[s]| && j < |m1.tables[t]|
    ensures m1.tables[s][i] == m1.tables[t][j] <==> m.tables[s][i] == m.tables[t][j]
  {
  }

  /** A swap sets the status of exactly the members that had `from`, and changes nothing else. */
  lemma StatusesSet(g: Group, from: Status, to: Status)
    requires DistinctIds(g)
    ensures
      var g1 := WithStatus(g, Elements(IdsWith(g, from)), to);
      && |g1| == |g|
      && forall i :: 0 <= i < |g| ==>
           && g1[i].id == g[i].id && g1[i].logicalBlocks == g[i].logicalBlocks
           && g1[i].status == if g[i].status == from then to else g[i].status
  {
    hide IdsWith;
    forall i | 0 <= i < |g|
      ensures g[i].id in IdsWith(g, from) <==> g[i].status == from
    {
      assert g[i] in g;
      if g[i].id in IdsWith(g, from) {
        var k :| 0 <= k < |g| && g[k].id == g[i].id && g[k].status == from;
      }
    }
  }

  /** Setting the status of all members with status `from` adds them to those with status `to`. */
  lemma StatusIds(g: Group, ids: set<nat>, from: Status, to: Status)
    requires from != to && ids == Elements(IdsWith(g, from)) && DistinctIds(g)
    ensures forall id :: id in IdsWith(WithStatus(g, ids, to), to) <==> id in IdsWith(g, from) || id in IdsWith(g, to)
    ensures DistinctIds(WithStatus(g, ids, to))
  {
    hide IdsWith;
    var g1 := WithStatus(g, ids, to);
    forall id | id in IdsWith(g1, to)
      ensures id in IdsWith(g, from) || id in IdsWith(g, to)
    {
      var k :| 0 <= k < |g1| && g1[k].id == id && g1[k].status == to;
      assert g[k] in g;
    }
    forall id | id in IdsWith(g, from) || id in IdsWith(g, to)
      ensures id in IdsWith(g1, to)
    {
      var k :| 0 <= k < |g| && g[k].id == id && (g[k].status == from || g[k].status == to);
      assert g[k] in g;
      assert g1[k] in g1 && g1[k].id == id;
      assert g1[k].status == to;
    }
  }

  /** Swapping a group out and in again succeeds, and two places of its tables hold the same
      block afterwards exactly if they did before. */
  lemma SwapRoundTrip(m: State, numGpu: nat, g: Group)
    requires Inv(m) && DistinctIds(g)
    requires AllOn(m.tables, IdsWith(g, Running), Gpu) && AllOn(m.tables, IdsWith(g, Swapped), Cpu)
    requires CanSwapOut(m, g) && CanSwapIn(SwapOut(m, g).0, numGpu, SwapOut(m, g).1) == CanNow
    ensures var (m1, g1, r1) := SwapOut(m, g);
      var (m2, g2, r2) := SwapIn(m1, g1);
      && r1.Ok? && r2.Ok? && Inv(m2) && m2.tables.Keys == m.tables.Keys
      && forall s, t | s in IdsWith(g, Running) && s in m.tables && t in IdsWith(g, Running) && t in m.tables ::
           && |m2.tables[s]| == |m.tables[s]| && |m2.tables[t]| == |m.tables[t]|
           && forall i, j :: 0 <= i < |m.tables[s]| && 0 <= j < |m.tables[t]| ==>
                (m2.tables[s][i] == m2.tables[t][j] <==> m.tables[s][i] == m.tables[t][j])
  {
    hide Inv, MoveStatus, SwappedAs;
    SwapOutAdmitted(m, g);
    var ids := IdsWith(g, Running);
    var (m1, g1, r1) := SwapOut(m, g);
    StatusIds(g, Elements(ids), Running, Swapped);
    var ids1 := IdsWith(g1, Swapped);
    SwappedOnDst(m, m1, ids, r1.value, Gpu, Cpu);
    assert AllOn(m1.tables, ids1, Cpu);
    SwapInAdmitted(m1, numGpu, g1);
    var (m2, g2, r2) := SwapIn(m1, g1);
    SwappedOnDst(m1, m2, ids1, r2.value, Cpu, Gpu);
    forall s, t, i, j | s in ids && s in m.tables && t in ids && t in m.tables
                        && 0 <= i < |m.tables[s]| && 0 <= j < |m.tables[t]|
      ensures i < |m2.tables[s]| && j < |m2.tables[t]|
      ensures m2.tables[s][i] == m2.tables[t][j] <==> m.tables[s][i] == m.tables[t][j]
    {
      SharingKept(m, m1, ids, r1.value, Gpu, Cpu, s, i, t, j);
      SharingKept(m1, m2, ids1, r2.value, Cpu, Gpu, s, i, t, j);
    }
  }

  lemma SwappedOnDst(m: State, m1: State, ids: seq<nat>, numbers: map<nat, nat>, src: Device, dst: Device)
    requires SwappedAs(m, m1, ids, numbers, src, dst)
    ensures m1.tables.Keys == m.tables.Keys && AllOn(m1.tables, ids, dst)
    ensures forall s :: s in m.tables ==> |m1.tables[s]| == |m.tables[s]|
    ensures forall s :: s in m.tables && s !in ids ==> m1.tables[s] == m.tables[s]
  {
  }
}
