/** A scheduling round: slots for all running sequences first, then all copies in any order. */
module Rounds {
  import opened Common
  import opened Arithmetic
  import opened BlockState
  import opened RefCounts
  import opened Swapping
  import opened Appending
  import opened PagedMemory

  function ApplyCopies(store: Store, copies: seq<(nat, nat)>): Store
    decreases |copies|
  {
    if copies == [] then store
    else ApplyCopies(CopyBlock(store, Block(Gpu, copies[0].0), Block(Gpu, copies[0].1)), copies[1..])
  }

  /** Destinations are distinct and are no sources. */
  ghost predicate CopiesApart(copies: seq<(nat, nat)>) {
    && (forall i, j :: 0 <= i < j < |copies| ==> copies[i].1 != copies[j].1)
    && (forall i, j :: 0 <= i < |copies| && 0 <= j < |copies| ==> copies[i].1 != copies[j].0)
  }

  /** `store1` is `store` with every destination holding what its source held in `store`. */
  ghost predicate CopiedTo(store: Store, store1: Store, copies: seq<(nat, nat)>) {
    && store1.Keys == store.Keys
    && (forall p :: p in copies ==>
          && Block(Gpu, p.1) in store && Block(Gpu, p.0) in store
          && store1[Block(Gpu, p.1)] == store[Block(Gpu, p.0)])
    && (forall b :: b in store && (forall p :: p in copies ==> b != Block(Gpu, p.1)) ==> store1[b] == store[b])
  }

  lemma {:induction false} ApplyCopiesExact(store: Store, copies: seq<(nat, nat)>)
    requires CopiesApart(copies)
    requires forall p :: p in copies ==> Block(Gpu, p.0) in store && Block(Gpu, p.1) in store
    ensures CopiedTo(store, ApplyCopies(store, copies), copies)
    decreases |copies|
  {
    if copies != [] {
      var c := copies[0];
      var rest := copies[1..];
      assert copies == [c] + rest;
      var store1 := CopyBlock(store, Block(Gpu, c.0), Block(Gpu, c.1));
      ApplyCopiesExact(store1, rest);
      var store2 := ApplyCopies(store1, rest);
      forall p | p in copies
        ensures store2[Block(Gpu, p.1)] == store[Block(Gpu, p.0)]
      {
        if p in rest {
          assert p.0 != c.1;
        } else {
          assert forall q :: q in rest ==> q.1 != c.1;
        }
      }
    }
  }

  lemma CopiedToUnique(store: Store, s1: Store, s2: Store, c1: seq<(nat, nat)>, c2: seq<(nat, nat)>)
    requires CopiedTo(store, s1, c1) && CopiedTo(store, s2, c2) && Elements(c1) == Elements(c2)
    ensures s1 == s2
  {
    assert forall p :: p in c1 <==> p in Elements(c1);
    assert forall p :: p in c2 <==> p in Elements(c2);
    forall b | b in store
      ensures s1[b] == s2[b]
    {
      if exists p :: p in c1 && b == Block(Gpu, p.1) {
        var p :| p in c1 && b == Block(Gpu, p.1);
      }
    }
  }

  /** Copies whose destinations are distinct and are no sources give the same store in
      whatever order they are made. */
  lemma CopyOrderIrrelevant(store: Store, copies: seq<(nat, nat)>, other: seq<(nat, nat)>)
    requires CopiesApart(copies) && NoDup(other) && Elements(other) == Elements(copies)
    requires forall p :: p in copies ==> Block(Gpu, p.0) in store && Block(Gpu, p.1) in store
    ensures ApplyCopies(store, other) == ApplyCopies(store, copies)
  {
    forall p | p in other
      ensures p in copies
    {
      assert p in Elements(other);
    }
    assert forall i :: 0 <= i < |other| ==> other[i] in other;
    ApplyCopiesExact(store, copies);
    ApplyCopiesExact(store, other);
    CopiedToUnique(store, ApplyCopies(store, other), ApplyCopies(store, copies), other, copies);
  }

  /** The slots of a round, as steps of a run. */
  function RoundOps(tables: map<nat, Table>, g: Group): seq<Op> {
    if g == [] then []
    else (if g[0].status == Running && g[0].id in tables then [AppendSlot(g[0].id, g[0].logicalBlocks)] else [])
         + RoundOps(tables, g[1..])
  }

  /** Every running member of the group needs room for exactly one more token. */
  ghost predicate RoundAdmitted(sys: System, g: Group) {
    && DistinctIds(g) && CanAppendSlots(sys.m, g)
    && forall s :: s in g && s.status == Running ==>
         && s.logicalBlocks > 0
         && (s.id in sys.m.tables ==>
               && s.id !in sys.swapped && s.id !in sys.pending
               && s.logicalBlocks == CeilDiv(Length(sys, s.id) + 1, sys.blockSize))
  }

  lemma RoundAdmittedReady(sys: System, g: Group)
    requires SysInv(sys) && RoundAdmitted(sys, g)
    ensures RoundReady(sys.m, g)
  {
    hide Inv, StoreOk;
    forall s | s in g && s.status == Running && s.id in sys.m.tables
      ensures OnDevice(sys.m.tables[s.id], Gpu) && s.logicalBlocks - 1 <= |sys.m.tables[s.id]| <= s.logicalBlocks
    {
      assert TableShape(sys, s.id);
      CeilDivNext(Length(sys, s.id), sys.blockSize);
    }
  }

  lemma RoundFirst(sys: System, g: Group)
    requires SysInv(sys) && RoundAdmitted(sys, g) && g != [] && g[0].status == Running && g[0].id in sys.m.tables
    ensures var op := AppendSlot(g[0].id, g[0].logicalBlocks);
      var sys1 := Step(sys, op);
      var (m1, r) := AppendSlots(sys.m, None, g[0].id, g[0].logicalBlocks);
      && Admitted(sys, op) && SysInv(sys1) && RoundAdmitted(sys1, g[1..])
      && r.Ok? && sys1.m == m1 && sys1.m.tables.Keys == sys.m.tables.Keys
      && sys1.store == if r.value.Some?
                       then CopyBlock(sys.store, Block(Gpu, r.value.value.0), Block(Gpu, r.value.value.1))
                       else sys.store
  {
    hide SysInv, AppendSlots, Admitted, RoundAdmitted, RoundReady, Inv, Appended, CopyBlock, View, HistStep;
    var id, needed := g[0].id, g[0].logicalBlocks;
    var op := AppendSlot(id, needed);
    RoundAdmittedReady(sys, g);
    RoundAdmittedHead(sys, g);
    StepSim(sys, op);
    AppendReady(sys, id, needed);
    var (m1, r) := AppendSlots(sys.m, None, id, needed);
    AppendedTables(sys.m, m1, id, needed, r.value);
    AppendedPools(sys.m, m1, id, needed, r.value);
    RoundReadyNext(sys.m, m1, g);
    RoundAdmittedTail(sys, Step(sys, op), g);
  }

  lemma RoundAdmittedHead(sys: System, g: Group)
    requires RoundAdmitted(sys, g) && g != [] && g[0].status == Running && g[0].id in sys.m.tables
    ensures Admitted(sys, AppendSlot(g[0].id, g[0].logicalBlocks))
  {
  }

  lemma RoundAdmittedTail(sys: System, sys1: System, g: Group)
    requires RoundAdmitted(sys, g) && g != [] && g[0].status == Running
    requires forall s :: s in g[1..] ==> s.id != g[0].id
    requires sys1.m.tables.Keys == sys.m.tables.Keys && |sys1.m.gpuFree| + 1 >= |sys.m.gpuFree|
    requires sys1.swapped == sys.swapped && sys1.pending == sys.pending + {g[0].id}
    requires sys1.len == sys.len && sys1.blockSize == sys.blockSize
    ensures RoundAdmitted(sys1, g[1..])
  {
  }

  /** Making each copy at once, or all of them after the slots: the same state and store. */
  lemma {:induction false} RoundIsRun(sys: System, g: Group)
    requires SysInv(sys) && RoundAdmitted(sys, g)
    ensures var ops := RoundOps(sys.m.tables, g);
      var (m1, r) := AppendRound(sys.m, None, g);
      && AdmittedRun(sys, ops) && r.Ok?
      && Run(sys, ops).m == m1 && Run(sys, ops).store == ApplyCopies(sys.store, r.value)
    decreases |g|
  {
    hide SysInv, Step, Admitted, AppendSlots;
    if g == [] {
    } else if g[0].status != Running || g[0].id !in sys.m.tables {
      RoundSkip(sys, g);
      RoundIsRun(sys, g[1..]);
      assert [] + RoundOps(sys.m.tables, g[1..]) == RoundOps(sys.m.tables, g[1..]);
      var (m2, q) := AppendRound(sys.m, None, g[1..]);
      assert [] + q.value == q.value;
    } else {
      RoundFirst(sys, g);
      var op := AppendSlot(g[0].id, g[0].logicalBlocks);
      var sys1 := Step(sys, op);
      RoundIsRun(sys1, g[1..]);
      RoundOpsKeys(sys.m.tables, sys1.m.tables, g[1..]);
      var ops := RoundOps(sys.m.tables, g);
      assert ops[0] == op && ops[1..] == RoundOps(sys1.m.tables, g[1..]);
      var (m1, r) := AppendSlots(sys.m, None, g[0].id, g[0].logicalBlocks);
      var (m2, q) := AppendRound(m1, None, g[1..]);
      if r.value.Some? {
        assert ([r.value.value] + q.value)[1..] == q.value;
      } else {
        assert [] + q.value == q.value;
      }
    }
  }

  lemma RoundOpsKeys(tables: map<nat, Table>, tables1: map<nat, Table>, g: Group)
    requires tables1.Keys == tables.Keys
    ensures RoundOps(tables1, g) == RoundOps(tables, g)
  {
  }

  lemma RoundSkip(sys: System, g: Group)
    requires g != [] && (g[0].status != Running || g[0].id !in sys.m.tables) && RoundAdmitted(sys, g)
    ensures RoundAdmitted(sys, g[1..])
    ensures g[0].status == Running ==> AppendSlots(sys.m, None, g[0].id, g[0].logicalBlocks) == (sys.m, Ok(None))
  {
  }

  /** After a round whose copies are made in any order, every sequence reads what it read
      before, and the sequences of the round can write their next token privately. */
  lemma RoundInAnyOrder(sys: System, g: Group, other: seq<(nat, nat)>)
    requires SysInv(sys) && RoundAdmitted(sys, g)
    requires var copies := AppendRound(sys.m, None, g).1;
      copies.Ok? ==> NoDup(other) && Elements(other) == Elements(copies.value)
    ensures var ops := RoundOps(sys.m.tables, g);
      var sys1 := Run(sys, ops);
      && sys1.m == AppendRound(sys.m, None, g).0 && sys1.store == ApplyCopies(sys.store, other)
      && SysInv(sys1) && View(sys1) == View(sys)
  {
    RoundIsRun(sys, g);
    RoundAdmittedReady(sys, g);
    RoundExact(sys.m, g);
    var copies := AppendRound(sys.m, None, g).1.value;
    RoundCopiesApart(sys, copies);
    CopyOrderIrrelevant(sys.store, copies, other);
    RunRefinesHistories(sys, RoundOps(sys.m.tables, g));
    SlotsKeepHistories(View(sys), sys.m.tables, g);
  }

  lemma RoundCopiesApart(sys: System, copies: seq<(nat, nat)>)
    requires SysInv(sys) && CopiesOk(sys.m, copies)
    ensures CopiesApart(copies)
    ensures forall p :: p in copies ==> Block(Gpu, p.0) in sys.store && Block(Gpu, p.1) in sys.store
  {
  }

  lemma {:induction false} SlotsKeepHistories(h: map<nat, seq<Token>>, tables: map<nat, Table>, g: Group)
    ensures HistRun(h, RoundOps(tables, g)) == h
    decreases |g|
  {
    if g != [] {
      SlotsKeepHistories(h, tables, g[1..]);
      var rest := RoundOps(tables, g[1..]);
      if g[0].status == Running && g[0].id in tables {
        assert RoundOps(tables, g)[1..] == rest;
      } else {
        assert [] + rest == rest;
      }
    }
  }
}
