/** What the scheduler makes of the block manager's answers. */
module Scheduling {
  import opened Common
  import opened BlockState
  import opened RefCounts
  import opened Allocation
  import opened Swapping
  import opened Appending

  // ---------------------------------------------------------------- swapping in, then appending

  lemma {:induction false} RunningAfter(g: Group, ids: set<nat>)
    requires forall s :: s in g ==> (s.id in ids <==> s.status == Swapped)
    ensures |IdsWith(WithStatus(g, ids, Running), Running)| == |IdsWith(g, Running)| + |IdsWith(g, Swapped)|
    decreases |g|
  {
    if g != [] {
      var g1 := WithStatus(g, ids, Running);
      assert g1[1..] == WithStatus(g[1..], ids, Running);
      assert g[0] in g && forall s :: s in g[1..] ==> s in g;
      RunningAfter(g[1..], ids);
    }
  }

  lemma SwappedIds(g: Group, s: SeqInfo)
    requires DistinctIds(g) && s in g
    ensures s.id in Elements(IdsWith(g, Swapped)) <==> s.status == Swapped
  {
    if s.id in Elements(IdsWith(g, Swapped)) {
      var t :| t in g && t.id == s.id && t.status == Swapped;
      SameId(g, s, t);
    }
  }

  lemma SameId(g: Group, s: SeqInfo, t: SeqInfo)
    requires DistinctIds(g) && s in g && t in g && s.id == t.id
    ensures s == t
  {
  }

  /** Whether the free GPU blocks are enough for the swapped blocks and for a new block of every
      member, the ones that were running all along included. */
  ghost predicate RoomForAll(m: State, g: Group) {
    |GroupNums(m.tables, IdsWith(g, Swapped))| + |IdsWith(g, Running)| + |IdsWith(g, Swapped)| <= |m.gpuFree|
  }

  /** An admitted swap-in leaves room for the next token of every sequence that came back; for
      those of the whole group exactly if there is that much room. */
  lemma SwapInLeavesRoom(m: State, numGpu: nat, g: Group)
    requires Inv(m) && DistinctIds(g) && AllOn(m.tables, IdsWith(g, Swapped), Cpu)
    requires CanSwapIn(m, numGpu, g) == CanNow
    ensures
      var (m1, g1, r) := SwapIn(m, g);
      && r.Ok? && Inv(m1) && |IdsWith(g, Swapped)| <= |m1.gpuFree|
      && (CanAppendSlots(m1, g1) <==> RoomForAll(m, g))
    ensures IdsWith(g, Running) == [] ==> RoomForAll(m, g)
  {
    hide Inv, CanSwapIn, SwapIn, AllOn, IdsWith, GroupNums;
    SwapInAdmitted(m, numGpu, g);
    var ids := Elements(IdsWith(g, Swapped));
    forall s | s in g
      ensures s.id in ids <==> s.status == Swapped
    {
      SwappedIds(g, s);
    }
    RunningAfter(g, ids);
  }

  /** One member running with one GPU block, one swapped out with a CPU block of the same number. */
  function Mixed(): (State, Group) {
    var x, y, z1, z2 := Block(Gpu, 0), Block(Cpu, 0), Block(Gpu, 1), Block(Gpu, 2);
    (State(map[x := 1, z1 := 0, z2 := 0, y := 1], [z1, z2], [], map[0 := [x], 1 := [y]]),
     [SeqInfo(0, Running, 1), SeqInfo(1, Swapped, 1)])
  }

  lemma MixedCounts()
    ensures
      var (m, g) := Mixed();
      PhysicalBlocks(m, g) == [Block(Gpu, 0)] && |GroupNums(m.tables, IdsWith(g, Swapped))| == 1
  {
    var (m, g) := Mixed();
    var x, y := Block(Gpu, 0), Block(Cpu, 0);
    assert UnfinishedIds(g) == [0, 1] && IdsWith(g, Swapped) == [1];
    assert FirstOfNumber([x], []) == [x] && FirstOfNumber([y], [x]) == [x];
    assert PhysicalBlocksOf(m, [0, 1], []) == PhysicalBlocksOf(m, [1], [x]) == PhysicalBlocksOf(m, [], [x]);
    assert GroupNums(m.tables, [1]) == {0};
  }

  lemma MixedInv()
    ensures Inv(Mixed().0)
  {
    var m := Mixed().0;
    assert HolderSet(m.tables, Block(Gpu, 0)) == {0};
    assert HolderSet(m.tables, Block(Cpu, 0)) == {1};
  }

  /** The test counts their two blocks as one, so it admits a swap-in that leaves one block for
      two members. */
  lemma MixedGroupLacksRoom()
    ensures
      var (m, g) := Mixed();
      Inv(m) && DistinctIds(g) && CanSwapIn(m, 3, g) == CanNow && !RoomForAll(m, g)
        && !CanAppendSlots(SwapIn(m, g).0, SwapIn(m, g).1)
  {
    hide Inv, PhysicalBlocks, GroupNums, SwapIn, CanAppendSlots;
    MixedInv();
    MixedCounts();
    var (m, g) := Mixed();
    assert IdsWith(g, Swapped) == [1] && IdsWith(g, Running) == [0];
    SwapInLeavesRoom(m, 3, g);
  }

  /** Where there is that room, the round that follows succeeds for the whole group. */
  lemma SwapInThenRound(m: State, numGpu: nat, g: Group)
    requires Inv(m) && DistinctIds(g) && AllOn(m.tables, IdsWith(g, Swapped), Cpu)
      && AllOn(m.tables, IdsWith(g, Running), Gpu)
    requires CanSwapIn(m, numGpu, g) == CanNow && RoomForAll(m, g)
    requires forall s :: s in g && (s.status == Swapped || s.status == Running) ==>
      && s.logicalBlocks > 0
      && (s.id in m.tables ==> s.logicalBlocks - 1 <= |m.tables[s.id]| <= s.logicalBlocks)
    ensures var (m1, g1, r) := SwapIn(m, g); AppendRound(m1, None, g1).1.Ok?
  {
    hide Inv, CanSwapIn, SwapIn, RoomForAll;
    SwapInLeavesRoom(m, numGpu, g);
    SwapInAdmitted(m, numGpu, g);
    var (m1, g1, r) := SwapIn(m, g);
    SwappedOnDst(m, m1, IdsWith(g, Swapped), r.value, Cpu, Gpu);
    forall s1 | s1 in g1 && s1.status == Running
      ensures s1.logicalBlocks > 0
      ensures s1.id in m1.tables ==>
        OnDevice(m1.tables[s1.id], Gpu) && s1.logicalBlocks - 1 <= |m1.tables[s1.id]| <= s1.logicalBlocks
    {
      var i :| 0 <= i < |g1| && g1[i] == s1;
      assert g[i] in g;
      SwappedIds(g, g[i]);
    }
    assert DistinctIds(g1);
    RoundExact(m1, g1);
  }

  // ---------------------------------------------------------------- the scheduler's copy map

  lemma {:induction false} AllWrite(m: State, g: Group, b: Block)
    requires forall s :: s in g ==> WritesTo(m, s, b)
    ensures Writers(m, g, b) == |g|
    decreases |g|
  {
    if g != [] {
      assert g[0] in g && forall s :: s in g[1..] ==> s in g;
      AllWrite(m, g[1..], b);
    }
  }

  /** Three or more sequences are allocated one prompt whose last block is not full, and two or
      more of them then append a token: the map the scheduler passes on lacks a copy. */
  lemma SharedPromptLosesCopy(m: State, numGpu: nat, g: Group, n: nat, round: Group)
    requires Inv(m) && CanAllocate(m, None, numGpu, g) == CanNow && SharedPrompt(g, n) && n > 0
    requires NoDup(IdsWith(g, Waiting)) && Elements(IdsWith(g, Waiting)) !! m.tables.Keys
    requires |IdsWith(g, Waiting)| >= 3
    requires DistinctIds(round) && |round| >= 2
    requires forall s :: s in round ==>
      s.status == Running && s.id in IdsWith(g, Waiting) && s.logicalBlocks == n
    requires CanAppendSlots(Allocate(m, None, g).0, round)
    ensures var (m1, r) := Allocate(m, None, g);
      && r.Ok? && AppendRound(m1, None, round).1.Ok?
      && !MapKeeps(AppendRound(m1, None, round).1.value)
  {
    hide Inv, CanAllocate, Allocate, AppendRound, MapKeeps, IdsWith;
    FirstOfShared(g, n);
    var table := AllocateKeepsInv(m, numGpu, g);
    var m1 := Allocate(m, None, g).0;
    var b := table[|table| - 1];
    SharedCount(m, m1, IdsWith(g, Waiting), table, b);
    AllWrite(m1, round, b);
    RoundMapKeepsCopies(m1, round);
    assert b in m1.rc && b.device == Gpu && m1.rc[b] >= 3;
  }

  /** Three sequences of a one-block prompt in a fresh pool of five blocks, two of which append. */
  lemma CopyLost()
    ensures
      var m := Initial(5, 0);
      var g := [SeqInfo(0, Waiting, 1), SeqInfo(1, Waiting, 1), SeqInfo(2, Waiting, 1)];
      var round := [SeqInfo(0, Running, 1), SeqInfo(1, Running, 1)];
      var (m1, r) := Allocate(m, None, g);
      && Inv(m) && CanAllocate(m, None, 5, g) == CanNow && r.Ok?
      && CanAppendSlots(m1, round) && AppendRound(m1, None, round).1.Ok?
      && !MapKeeps(AppendRound(m1, None, round).1.value)
  {
    hide Inv, Allocate, AppendRound, MapKeeps;
    var m := Initial(5, 0);
    var g := [SeqInfo(0, Waiting, 1), SeqInfo(1, Waiting, 1), SeqInfo(2, Waiting, 1)];
    var round := [SeqInfo(0, Running, 1), SeqInfo(1, Running, 1)];
    InitialInv(5, 0);
    assert IdsWith(g, Waiting) == [0, 1, 2];
    assert IdsWith(round, Running) == [0, 1];
    var table := AllocateKeepsInv(m, 5, g);
    SharedPromptLosesCopy(m, 5, g, 1, round);
  }

  lemma SharedCount(m: State, m1: State, ids: seq<nat>, table: Table, b: Block)
    requires Inv(m1) && NoDup(ids) && Elements(ids) !! m.tables.Keys && m1.rc.Keys == m.rc.Keys
    requires m1.tables == AssignAll(m.tables, Elements(ids), table) && b in table && b in m.rc
    ensures m1.rc[b] >= |ids|
  {
    HoldersAssignAll(m.tables, Elements(ids), table, b);
    NoDupCard(ids);
    assert CountsOk(m1);
  }
}
