/** Appending slots, one sequence at a time and for a whole round of running sequences. */
module Appending {
  import opened Common
  import opened BlockState
  import opened RefCounts
  import opened Swapping

  function Last(table: Table): Block
    requires table != []
  {
    table[|table| - 1]
  }

  /** What `append_slots` has done for `id`, which now has `needed` blocks: it has left the
      last block private, either untouched, or new, or a copy of a shared block. */
  ghost predicate Appended(m: State, m1: State, id: nat, needed: nat, copy: Option<(nat, nat)>) {
    && id in m.tables && id in m1.tables && |m.tables[id]| <= |m1.tables[id]| == needed && needed > 0
    && m1.tables == m.tables[id := m1.tables[id]] && m1.rc.Keys == m.rc.Keys && m1.cpuFree == m.cpuFree
    && OnDevice(m1.tables[id], Gpu)
    && var table := m.tables[id];
    var table1 := m1.tables[id];
    var slot := Last(table1);
    && m1.Count(slot) == 1
    && (copy.None? && |table| == needed ==> m1 == m)
    && (copy.Some? || |table| < needed ==>
          && m.gpuFree != [] && slot == Last(m.gpuFree) && slot in m.rc && m.rc[slot] == 0
          && m1.gpuFree == m.gpuFree[..|m.gpuFree| - 1])
    && (|table| < needed ==> copy.None? && table1 == table + [slot] && m1.rc == m.rc[slot := 1])
    && (copy.Some? ==>
          && |table| == needed && table1 == table[needed - 1 := slot]
          && Last(table) == Block(Gpu, copy.value.0) && slot == Block(Gpu, copy.value.1)
          && m.Count(Last(table)) > 1
          && m1.rc == m.rc[slot := 1][Last(table) := m.rc[Last(table)] - 1])
  }

  /** A running sequence that needs at most one more block gets its slot as long as one GPU
      block is free, and the invariant is kept. */
  lemma AppendExact(m: State, id: nat, needed: nat)
    requires Inv(m) && id in m.tables && OnDevice(m.tables[id], Gpu) && m.gpuFree != []
    requires needed > 0 && needed - 1 <= |m.tables[id]| <= needed
    ensures var (m1, r) := AppendSlots(m, None, id, needed);
      r.Ok? && Inv(m1) && Appended(m, m1, id, needed, r.value)
  {
    if |m.tables[id]| < needed {
      AppendPush(m, id);
    } else {
      AppendInPlace(m, id);
    }
  }

  lemma AppendPush(m: State, id: nat)
    requires Inv(m) && id in m.tables && OnDevice(m.tables[id], Gpu) && m.gpuFree != []
    ensures var needed := |m.tables[id]| + 1;
      var (m1, r) := AppendSlots(m, None, id, needed);
      r.Ok? && Inv(m1) && Appended(m, m1, id, needed, r.value)
  {
    PushFresh(m, id, Gpu);
    TakenIsFresh(m, Gpu);
    hide Inv;
  }

  lemma AppendInPlace(m: State, id: nat)
    requires Inv(m) && id in m.tables && OnDevice(m.tables[id], Gpu) && m.gpuFree != [] && m.tables[id] != []
    ensures var needed := |m.tables[id]|;
      var (m1, r) := AppendSlots(m, None, id, needed);
      r.Ok? && Inv(m1) && Appended(m, m1, id, needed, r.value)
  {
    hide Inv;
    var table := m.tables[id];
    var last := Last(table);
    assert last in table;
    HeldIsCounted(m, id, last);
    if m.Count(last) == 1 {
      assert m.tables[id := table] == m.tables;
    } else {
      ReplaceFresh(m, id, |table| - 1, Gpu);
    }
  }

  // ---------------------------------------------------------------- a round

  /** Every running member with a table has it on the GPU and needs at most one more block. */
  ghost predicate RoundReady(m: State, g: Group) {
    && DistinctIds(g)
    && forall s :: s in g && s.status == Running ==>
         && s.logicalBlocks > 0
         && (s.id in m.tables ==>
               OnDevice(m.tables[s.id], Gpu) && s.logicalBlocks - 1 <= |m.tables[s.id]| <= s.logicalBlocks)
  }

  /** The copies go to distinct blocks that were free, and come from blocks that were shared. */
  ghost predicate CopiesOk(m: State, copies: seq<(nat, nat)>) {
    && (forall i, j :: 0 <= i < j < |copies| ==> copies[i].1 != copies[j].1)
    && (forall i :: 0 <= i < |copies| ==> Block(Gpu, copies[i].1) in m.gpuFree)
    && (forall i :: 0 <= i < |copies| ==> m.Count(Block(Gpu, copies[i].0)) > 1)
  }

  /** After the round every running member has its slot in a block of its own. */
  ghost predicate RoundDone(m: State, m1: State, g: Group) {
    && m1.tables.Keys == m.tables.Keys
    && (forall s :: s in g && s.status == Running && s.id in m.tables ==>
          && |m1.tables[s.id]| == s.logicalBlocks && s.logicalBlocks > 0
          && OnDevice(m1.tables[s.id], Gpu) && m1.Count(Last(m1.tables[s.id])) == 1)
    && (forall id :: id in m.tables && id !in IdsWith(g, Running) ==> m1.tables[id] == m.tables[id])
  }

  /** Only free blocks are taken, none is returned, and private blocks stay private. */
  ghost predicate RoundPools(m: State, m1: State) {
    && m1.rc.Keys == m.rc.Keys && m1.cpuFree == m.cpuFree
    && m1.gpuFree <= m.gpuFree
    && forall b :: b in m.rc && m.rc[b] == 1 ==> m1.rc[b] == 1
  }

  lemma AppendedPools(m: State, m1: State, id: nat, needed: nat, copy: Option<(nat, nat)>)
    requires Appended(m, m1, id, needed, copy)
    ensures RoundPools(m, m1) && |m1.gpuFree| + 1 >= |m.gpuFree|
  {
  }

  lemma AppendedCopies(m: State, m1: State, id: nat, needed: nat, copy: Option<(nat, nat)>, rest: seq<(nat, nat)>)
    requires NoDup(m.gpuFree) && Appended(m, m1, id, needed, copy) && CopiesOk(m1, rest)
    ensures CopiesOk(m, (if copy.Some? then [copy.value] else []) + rest)
  {
  }

  lemma RoundReadyNext(m: State, m1: State, g: Group)
    requires RoundReady(m, g) && g != []
    requires m1.tables.Keys == m.tables.Keys
    requires forall s :: s in m.tables && s != g[0].id ==> m1.tables[s] == m.tables[s]
    ensures RoundReady(m1, g[1..])
    ensures forall s :: s in g[1..] ==> s.id != g[0].id
    ensures g[0].id !in IdsWith(g[1..], Running)
  {
  }

  lemma RoundDoneCons(m: State, m1: State, m2: State, g: Group, copy: Option<(nat, nat)>)
    requires g != [] && g[0].status == Running && DistinctIds(g) && g[0].id !in IdsWith(g[1..], Running)
    requires g[0].id in m.tables && Appended(m, m1, g[0].id, g[0].logicalBlocks, copy)
    requires RoundDone(m1, m2, g[1..]) && RoundPools(m1, m2)
    ensures RoundDone(m, m2, g)
  {
    assert g == [g[0]] + g[1..];
    forall s | s in g && s.status == Running && s.id in m.tables
      ensures && |m2.tables[s.id]| == s.logicalBlocks && s.logicalBlocks > 0
              && OnDevice(m2.tables[s.id], Gpu) && m2.Count(Last(m2.tables[s.id])) == 1
    {
      if s == g[0] {
        assert m2.tables[s.id] == m1.tables[s.id];
      } else {
        assert s in g[1..];
      }
    }
  }

  lemma RoundDoneSkip(m: State, m2: State, g: Group)
    requires g != [] && (g[0].status != Running || g[0].id !in m.tables) && RoundDone(m, m2, g[1..])
    ensures RoundDone(m, m2, g)
  {
  }

  lemma PoolsTrans(m: State, m1: State, m2: State)
    requires RoundPools(m, m1) && RoundPools(m1, m2)
    ensures RoundPools(m, m2)
  {
  }

  lemma NoFreeTwice(m: State)
    requires Inv(m)
    ensures NoDup(m.gpuFree)
  {
  }

  /** `can_append_slots` is enough for a whole round: in any order, every running sequence gets
      its slot from at most one GPU block, and the copies can be applied in any order. */
  lemma {:induction false} RoundExact(m: State, g: Group)
    requires Inv(m) && RoundReady(m, g) && CanAppendSlots(m, g)
    ensures var (m1, r) := AppendRound(m, None, g);
      && r.Ok? && Inv(m1) && RoundDone(m, m1, g) && RoundPools(m, m1) && CopiesOk(m, r.value)
      && |m1.gpuFree| + |IdsWith(g, Running)| >= |m.gpuFree|
    decreases |g|
  {
    hide Inv, RoundPools, RoundDone, CopiesOk, Appended;
    if g == [] {
      RoundNothing(m);
    } else if g[0].status != Running || g[0].id !in m.tables {
      RoundReadyNext(m, m, g);
      assert g[0] in g;
      RoundExact(m, g[1..]);
      var (m2, q) := AppendRound(m, None, g[1..]);
      RoundDoneSkip(m, m2, g);
      assert [] + q.value == q.value;
    } else {
      var id := g[0].id;
      assert g[0] in g;
      AppendExact(m, id, g[0].logicalBlocks);
      var (m1, r) := AppendSlots(m, None, id, g[0].logicalBlocks);
      AppendedTables(m, m1, id, g[0].logicalBlocks, r.value);
      AppendedPools(m, m1, id, g[0].logicalBlocks, r.value);
      RoundReadyNext(m, m1, g);
      RoundExact(m1, g[1..]);
      var (m2, q) := AppendRound(m1, None, g[1..]);
      RoundDoneCons(m, m1, m2, g, r.value);
      PoolsTrans(m, m1, m2);
      NoFreeTwice(m);
      AppendedCopies(m, m1, id, g[0].logicalBlocks, r.value, q.value);
    }
  }

  lemma AppendedTables(m: State, m1: State, id: nat, needed: nat, copy: Option<(nat, nat)>)
    requires Appended(m, m1, id, needed, copy)
    ensures m1.tables.Keys == m.tables.Keys
    ensures forall s :: s in m.tables && s != id ==> m1.tables[s] == m.tables[s]
  {
  }

  lemma RoundNothing(m: State)
    ensures RoundDone(m, m, []) && RoundPools(m, m) && CopiesOk(m, [])
  {
  }

  // ---------------------------------------------------------------- the scheduler's copy map

  /** The number of running members whose next token goes into the existing block `b`. */
  ghost function Writers(m: State, g: Group, b: Block): nat {
    if g == [] then 0
    else (if WritesTo(m, g[0], b) then 1 else 0) + Writers(m, g[1..], b)
  }

  ghost predicate WritesTo(m: State, s: SeqInfo, b: Block) {
    s.status == Running && WritesInto(m, s.id, s.logicalBlocks, b)
  }

  /** With `needed` blocks the sequence needs no new one, and its last block is `b`. */
  ghost predicate WritesInto(m: State, id: nat, needed: nat, b: Block) {
    id in m.tables && m.tables[id] != [] && |m.tables[id]| >= needed && Last(m.tables[id]) == b
  }

  /** The number of copies out of block number `x`. */
  ghost function CopiesFrom(copies: seq<(nat, nat)>, x: nat): nat {
    if copies == [] then 0 else (if copies[0].0 == x then 1 else 0) + CopiesFrom(copies[1..], x)
  }

  /** All writers to a block with `count` holders copy it, except the last holder. */
  ghost function Expected(count: nat, writers: nat): nat {
    if count == 0 then 0
    else if writers < count then writers
    else count - 1
  }

  lemma WritersKept(m: State, m1: State, g: Group, id: nat, b: Block)
    requires forall s :: s in g ==> s.id != id
    requires m1.tables.Keys == m.tables.Keys && forall s :: s in m.tables && s != id ==> m1.tables[s] == m.tables[s]
    ensures Writers(m1, g, b) == Writers(m, g, b)
  {
  }

  /** One step of the count below; `writers` is the number of those that are still to come. */
  lemma ExpectedStep(m: State, m1: State, id: nat, needed: nat, copy: Option<(nat, nat)>, writers: nat, b: Block)
    requires Appended(m, m1, id, needed, copy) && OnDevice(m.tables[id], Gpu) && b in m.rc && b.device == Gpu
    ensures Expected(m.Count(b), (if WritesInto(m, id, needed, b) then 1 else 0) + writers)
         == (if copy.Some? && copy.value.0 == b.number then 1 else 0) + Expected(m1.Count(b), writers)
  {
  }

  /** A round copies out of a block exactly as often as sequences write to it while it is
      shared: all of them, or all but the last of its holders. */
  lemma {:induction false} RoundSources(m: State, g: Group, b: Block)
    requires Inv(m) && RoundReady(m, g) && CanAppendSlots(m, g) && b in m.rc && b.device == Gpu
    ensures var (m1, r) := AppendRound(m, None, g);
      r.Ok? && CopiesFrom(r.value, b.number) == Expected(m.Count(b), Writers(m, g, b))
    decreases |g|
  {
    hide Inv, Appended, Expected, WritesInto, CopiesFrom, AppendSlots;
    if g == [] {
      NoExpected(m.Count(b));
      NoneFrom(b.number);
    } else if g[0].status != Running || g[0].id !in m.tables {
      RoundReadyNext(m, m, g);
      assert g[0] in g;
      NoWriter(m, g[0], b);
      if g[0].status == Running {
        MissingAppends(m, g[0]);
      }
      RoundSources(m, g[1..], b);
      var (m2, q) := AppendRound(m, None, g[1..]);
      assert [] + q.value == q.value;
    } else {
      var id := g[0].id;
      assert g[0] in g;
      AppendExact(m, id, g[0].logicalBlocks);
      var (m1, r) := AppendSlots(m, None, id, g[0].logicalBlocks);
      AppendedTables(m, m1, id, g[0].logicalBlocks, r.value);
      AppendedPools(m, m1, id, g[0].logicalBlocks, r.value);
      RoundReadyNext(m, m1, g);
      RoundSources(m1, g[1..], b);
      WritersKept(m, m1, g[1..], id, b);
      ExpectedStep(m, m1, id, g[0].logicalBlocks, r.value, Writers(m1, g[1..], b), b);
      var (m2, q) := AppendRound(m1, None, g[1..]);
      CopiesFromJoin(if r.value.Some? then [r.value.value] else [], q.value, b.number);
      CopiesFromOne(r.value, b.number);
    }
  }

  lemma CopiesFromOne(copy: Option<(nat, nat)>, x: nat)
    ensures CopiesFrom(if copy.Some? then [copy.value] else [], x) == if copy.Some? && copy.value.0 == x then 1 else 0
  {
  }

  lemma CopiesFromJoin(first: seq<(nat, nat)>, rest: seq<(nat, nat)>, x: nat)
    requires |first| <= 1
    ensures CopiesFrom(first + rest, x) == CopiesFrom(first, x) + CopiesFrom(rest, x)
  {
    if first == [] {
      assert first + rest == rest;
    } else {
      assert (first + rest)[1..] == rest && first[1..] == [];
    }
  }

  lemma NoneFrom(x: nat)
    ensures CopiesFrom([], x) == 0
  {
  }

  lemma ExpectedAtMostOne(count: nat, writers: nat)
    ensures Expected(count, writers) <= 1 <==> (count >= 3 ==> writers < 2)
  {
  }

  lemma MissingAppends(m: State, s: SeqInfo)
    requires s.logicalBlocks > 0 && s.id !in m.tables
    ensures AppendSlots(m, None, s.id, s.logicalBlocks) == (m, Ok(None))
  {
  }

  lemma NoWriter(m: State, s: SeqInfo, b: Block)
    requires s.status != Running || s.id !in m.tables
    ensures !WritesTo(m, s, b)
  {
  }

  lemma NoExpected(count: nat)
    ensures Expected(count, 0) == 0
  {
  }

  lemma {:induction false} CopyMapMembers(copies: seq<(nat, nat)>)
    ensures forall x :: x in CopyMap(copies) ==> (x, CopyMap(copies)[x]) in copies
    ensures forall x :: x in CopyMap(copies) <==> CopiesFrom(copies, x) > 0
  {
    if copies != [] {
      CopyMapMembers(copies[1..]);
      assert copies == [copies[0]] + copies[1..];
    }
  }

  /** Of several copies out of one block the map has the last. */
  lemma {:induction false} CopyMapLast(copies: seq<(nat, nat)>, i: nat)
    requires i < |copies| && forall j :: i < j < |copies| ==> copies[j].0 != copies[i].0
    ensures copies[i].0 in CopyMap(copies) && CopyMap(copies)[copies[i].0] == copies[i].1
  {
    var rest := copies[1..];
    if i > 0 {
      assert rest[i - 1] == copies[i];
      forall j | i - 1 < j < |rest|
        ensures rest[j].0 != rest[i - 1].0
      {
        assert rest[j] == copies[j + 1];
      }
      CopyMapLast(rest, i - 1);
    } else {
      NotInMap(rest, copies[0].0);
    }
  }

  lemma {:induction false} NotInMap(copies: seq<(nat, nat)>, x: nat)
    requires forall j :: 0 <= j < |copies| ==> copies[j].0 != x
    ensures x !in CopyMap(copies)
  {
    if copies != [] {
      assert forall j :: 0 <= j < |copies[1..]| ==> copies[1..][j] == copies[j + 1];
      NotInMap(copies[1..], x);
    }
  }

  /** No copy of a round is lost when the copies are put in the map. */
  ghost predicate MapKeeps(copies: seq<(nat, nat)>) {
    forall p :: p in copies ==> p.0 in CopyMap(copies) && CopyMap(copies)[p.0] == p.1
  }

  ghost predicate SourcesOnce(copies: seq<(nat, nat)>) {
    forall x :: CopiesFrom(copies, x) <= 1
  }

  lemma {:induction false} MapKeepsIff(copies: seq<(nat, nat)>)
    requires forall i, j :: 0 <= i < j < |copies| ==> copies[i].1 != copies[j].1
    ensures MapKeeps(copies) <==> SourcesOnce(copies)
  {
    if copies != [] {
      var c := copies[0];
      var rest := copies[1..];
      assert copies == [c] + rest;
      MapKeepsIff(rest);
      CopyMapMembers(rest);
      assert forall p :: p in rest ==> p.1 != c.1;
      assert MapKeeps(copies) <==> MapKeeps(rest) && c.0 !in CopyMap(rest) by {
        KeptHead(copies);
      }
      SourcesOnceHead(copies);
    }
  }

  lemma SourcesOnceHead(copies: seq<(nat, nat)>)
    requires copies != []
    ensures SourcesOnce(copies) <==> SourcesOnce(copies[1..]) && CopiesFrom(copies[1..], copies[0].0) == 0
  {
    var rest := copies[1..];
    if SourcesOnce(copies) {
      assert CopiesFrom(copies, copies[0].0) <= 1;
      forall x
        ensures CopiesFrom(rest, x) <= 1
      {
        assert CopiesFrom(copies, x) <= 1;
      }
    }
    if SourcesOnce(rest) && CopiesFrom(rest, copies[0].0) == 0 {
      forall x
        ensures CopiesFrom(copies, x) <= 1
      {
        assert CopiesFrom(rest, x) <= 1;
      }
    }
  }

  lemma KeptHead(copies: seq<(nat, nat)>)
    requires copies != [] && forall p :: p in copies[1..] ==> p.1 != copies[0].1
    ensures MapKeeps(copies) <==> MapKeeps(copies[1..]) && copies[0].0 !in CopyMap(copies[1..])
  {
    var c := copies[0];
    var rest := copies[1..];
    assert copies == [c] + rest;
    CopyMapMembers(rest);
    if MapKeeps(copies) {
      assert c in copies;
      forall p | p in rest
        ensures p.0 in CopyMap(rest) && CopyMap(rest)[p.0] == p.1
      {
        assert p in copies;
        MemberCounts(rest, p);
      }
    }
  }

  lemma {:induction false} MemberCounts(copies: seq<(nat, nat)>, p: (nat, nat))
    ensures p in copies ==> CopiesFrom(copies, p.0) > 0
  {
    if copies != [] {
      assert copies == [copies[0]] + copies[1..];
      MemberCounts(copies[1..], p);
    }
  }

  /** The map the scheduler keeps has every copy of the round if and only if no block that is
      shared by three or more tables is written to by two or more sequences of the round. */
  lemma RoundMapKeepsCopies(m: State, g: Group)
    requires Inv(m) && RoundReady(m, g) && CanAppendSlots(m, g)
    ensures AppendRound(m, None, g).1.Ok?
    ensures MapKeeps(AppendRound(m, None, g).1.value)
       <==> forall b :: b in m.rc && b.device == Gpu && m.rc[b] >= 3 ==> Writers(m, g, b) < 2
  {
    RoundExact(m, g);
    hide Inv, RoundReady, RoundDone, AppendRound, Writers, CopiesOk, RoundPools;
    var copies := AppendRound(m, None, g).1.value;
    MapKeepsIff(copies);
    forall x
      ensures CopiesFrom(copies, x) <= 1
        <==> (Block(Gpu, x) in m.rc && m.rc[Block(Gpu, x)] >= 3 ==> Writers(m, g, Block(Gpu, x)) < 2)
    {
      CopiedOnce(m, g, x);
    }
    if forall b :: b in m.rc && b.device == Gpu && m.rc[b] >= 3 ==> Writers(m, g, b) < 2 {
      assert forall x :: CopiesFrom(copies, x) <= 1;
      assert SourcesOnce(copies);
    }
    if SourcesOnce(copies) {
      forall b | b in m.rc && b.device == Gpu && m.rc[b] >= 3
        ensures Writers(m, g, b) < 2
      {
        assert b == Block(Gpu, b.number) && CopiesFrom(copies, b.number) <= 1;
      }
    }
  }

  lemma CopiedOnce(m: State, g: Group, x: nat)
    requires Inv(m) && RoundReady(m, g) && CanAppendSlots(m, g)
    ensures AppendRound(m, None, g).1.Ok?
    ensures CopiesFrom(AppendRound(m, None, g).1.value, x) <= 1
      <==> (Block(Gpu, x) in m.rc && m.rc[Block(Gpu, x)] >= 3 ==> Writers(m, g, Block(Gpu, x)) < 2)
  {
    RoundExact(m, g);
    hide Inv, RoundReady, RoundDone, RoundPools, AppendRound, Writers, CopiesFrom, Expected;
    if Block(Gpu, x) in m.rc {
      RoundSources(m, g, Block(Gpu, x));
      ExpectedAtMostOne(m.rc[Block(Gpu, x)], Writers(m, g, Block(Gpu, x)));
    } else {
      NotCopied(m, AppendRound(m, None, g).1.value, x);
    }
  }

  lemma NotCopied(m: State, copies: seq<(nat, nat)>, x: nat)
    requires CopiesOk(m, copies) && Block(Gpu, x) !in m.rc
    ensures CopiesFrom(copies, x) == 0
  {
  }
}
