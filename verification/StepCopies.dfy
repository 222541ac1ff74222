/** Which copies of a whole step the scheduler's map keeps. */
module StepCopies {
  import opened Common
  import opened BlockState
  import opened RefCounts
  import opened Appending
  import opened PagedMemory
  import opened Steps

  /** A step that preempts, if anything: nothing is swapped back in. */
  predicate NoSwapIn(ops: seq<Op>) {
    forall op :: op in ops ==> !op.SwapIn?
  }

  predicate AppendsTo(op: Op, id: nat) {
    op.AppendSlot? && op.id == id
  }

  /** The number of slots of the step that are in the existing block `b`. */
  ghost function StepWriters(m: State, ops: seq<Op>, b: Block): nat {
    if ops == [] then 0
    else
      (if ops[0].AppendSlot? && WritesInto(m, ops[0].id, ops[0].needed, b) then 1 else 0)
      + StepWriters(m, ops[1..], b)
  }

  /** The sequence gets no slot in the rest of the step. */
  predicate Settled(sys: System, id: nat) {
    id !in sys.m.tables || id in sys.pending || id in sys.swapped
  }

  lemma StaysSettled(sys: System, family: Families, done: set<nat>, op: Op, id: nat)
    requires SysInv(sys) && Admitted(sys, op) && StepOp(sys.m.tables, family, done, op) && !op.SwapIn?
    requires Settled(sys, id)
    ensures Settled(Step(sys, op), id) && !AppendsTo(op, id)
  {
    hide Inv, StoreOk, ShapesOk, WholeGroups, Unheld, NumberMoved, FreeSeq, BlockState.SwapOut, AppendSlots, Faithful,
         CanSwapOut;
    match op
    case AppendSlot(i, needed) => AppendChanges(sys, i, needed);
    case SwapOut(g) => SwapOutChanges(sys, g);
    case Free(i) => FreeTables(sys, i);
    case _ =>
  }

  lemma {:induction false} SettledNotAppended(sys: System, family: Families, done: set<nat>, ops: seq<Op>, id: nat)
    requires SysInv(sys) && FamiliesApart(sys.m.tables, family) && OneStep(sys, family, done, ops) && NoSwapIn(ops)
    requires Settled(sys, id)
    ensures forall op :: op in ops ==> !AppendsTo(op, id)
    decreases |ops|
  {
    hide SysInv, Admitted, StepOp, FamiliesApart, Advances, Demands, Step, Handled, Settled, AppendsTo;
    if ops != [] {
      var op, rest := ops[0], ops[1..];
      assert ops == [op] + rest;
      OpKeepsApart(sys, family, done, op);
      NextApart(sys, family, done, op);
      StaysSettled(sys, family, done, op, id);
      SettledNotAppended(Step(sys, op), family, Handled(sys.m.tables, family, done, op), rest, id);
    }
  }

  lemma {:induction false} WritersSame(m: State, m1: State, ops: seq<Op>, b: Block)
    requires forall op :: op in ops && op.AppendSlot? ==>
      (WritesInto(m, op.id, op.needed, b) <==> WritesInto(m1, op.id, op.needed, b))
    ensures StepWriters(m1, ops, b) == StepWriters(m, ops, b)
  {
    hide WritesInto;
    if ops != [] {
      assert ops == [ops[0]] + ops[1..];
      WritersSame(m, m1, ops[1..], b);
    }
  }

  /** What an operation does to a sequence that is not settled after it. */
  lemma OthersUntouched(sys: System, family: Families, done: set<nat>, op: Op, id: nat)
    requires SysInv(sys) && Admitted(sys, op) && StepOp(sys.m.tables, family, done, op) && !op.SwapIn?
    requires !Settled(Step(sys, op), id)
    ensures id in sys.m.tables && Step(sys, op).m.tables[id] == sys.m.tables[id]
  {
    hide Inv, StoreOk, ShapesOk, WholeGroups, Unheld, NumberMoved, FreeSeq, BlockState.SwapOut, AppendSlots, Faithful,
         CanSwapOut;
    match op
    case AppendSlot(i, needed) => AppendChanges(sys, i, needed);
    case SwapOut(g) => SwapOutChanges(sys, g);
    case Free(i) => FreeTables(sys, i);
    case _ =>
  }

  /** The writers still to come are the same seen from before and from after the operation. */
  lemma WritersNext(sys: System, family: Families, done: set<nat>, ops: seq<Op>, b: Block)
    requires SysInv(sys) && FamiliesApart(sys.m.tables, family) && OneStep(sys, family, done, ops) && NoSwapIn(ops)
    requires ops != []
    ensures StepWriters(Step(sys, ops[0]).m, ops[1..], b) == StepWriters(sys.m, ops[1..], b)
  {
    hide SysInv, Admitted, StepOp, FamiliesApart, Advances, Demands, Step, Handled, Settled;
    var op, rest := ops[0], ops[1..];
    var sys1 := Step(sys, op);
    assert ops == [op] + rest;
    OpKeepsApart(sys, family, done, op);
    NextApart(sys, family, done, op);
    forall next | next in rest && next.AppendSlot?
      ensures WritesInto(sys.m, next.id, next.needed, b) <==> WritesInto(sys1.m, next.id, next.needed, b)
    {
      if Settled(sys1, next.id) {
        SettledNotAppended(sys1, family, Handled(sys.m.tables, family, done, op), rest, next.id);
        Appends(next);
        assert false;
      }
      OthersUntouched(sys, family, done, op, next.id);
      UnsettledHasTable(sys1, next.id);
    }
    WritersSame(sys.m, sys1.m, rest, b);
  }

  lemma UnsettledHasTable(sys: System, id: nat)
    requires !Settled(sys, id)
    ensures id in sys.m.tables
  {
  }

  /** If all holders of a block are settled after the operation, nothing writes to it later. */
  lemma NoneToCome(sys: System, family: Families, done: set<nat>, ops: seq<Op>, b: Block)
    requires SysInv(sys) && FamiliesApart(sys.m.tables, family) && OneStep(sys, family, done, ops) && NoSwapIn(ops)
    requires ops != [] && forall t :: t in sys.m.tables && b in sys.m.tables[t] ==> Settled(Step(sys, ops[0]), t)
    ensures StepWriters(sys.m, ops[1..], b) == 0
  {
    hide SysInv, Admitted, StepOp, FamiliesApart, Advances, Demands, Step, Handled, Settled, AppendsTo;
    var op, rest := ops[0], ops[1..];
    assert ops == [op] + rest;
    OpKeepsApart(sys, family, done, op);
    NextApart(sys, family, done, op);
    forall next | next in rest && next.AppendSlot?
      ensures !WritesInto(sys.m, next.id, next.needed, b)
    {
      if next.id in sys.m.tables && b in sys.m.tables[next.id] {
        SettledNotAppended(Step(sys, op), family, Handled(sys.m.tables, family, done, op), rest, next.id);
        Appends(next);
        assert false;
      }
    }
    NoneWrites(sys.m, rest, b);
  }

  lemma Appends(op: Op)
    requires op.AppendSlot?
    ensures AppendsTo(op, op.id)
  {
  }

  lemma {:induction false} NoneWrites(m: State, ops: seq<Op>, b: Block)
    requires forall op :: op in ops && op.AppendSlot? ==> !WritesInto(m, op.id, op.needed, b)
    ensures StepWriters(m, ops, b) == 0
  {
    hide WritesInto;
    if ops != [] {
      assert ops == [ops[0]] + ops[1..];
      NoneWrites(m, ops[1..], b);
    }
  }

  /** The table `tables` lose: those of `ids`, as far as the GPU is concerned. */
  ghost predicate Released(tables: map<nat, Table>, tables1: map<nat, Table>, ids: set<nat>, b: Block) {
    && (forall t :: t in tables && t !in ids ==> t in tables1 && tables1[t] == tables[t])
    && (forall t :: t in tables1 && t !in ids ==> t in tables)
    && (forall t :: t in tables1 && t in ids ==> b !in tables1[t])
    && (forall s, t :: s in tables && t in tables && s in ids && b in tables[s] && b in tables[t] ==> t in ids)
  }

  /** A release lets go of a block altogether, or leaves its holders alone. */
  lemma ReleasedHolders(tables: map<nat, Table>, tables1: map<nat, Table>, ids: set<nat>, b: Block)
    requires Released(tables, tables1, ids, b)
    ensures
      || Holders(tables1, b) == Holders(tables, b)
      || (Holders(tables1, b) == 0 && forall t :: t in tables && b in tables[t] ==> t in ids)
  {
    if exists s :: s in tables && s in ids && b in tables[s] {
      var s :| s in tables && s in ids && b in tables[s];
      forall t | t in tables1
        ensures b !in tables1[t]
      {
        assert t in ids || t in tables;
      }
      NoHolders(tables1, b);
    } else {
      assert HolderSet(tables1, b) == HolderSet(tables, b);
    }
  }

  function ReleasedIds(op: Op): set<nat> {
    match op
    case SwapOut(g) => Elements(IdsWith(g, Running))
    case Free(id) => {id}
    case _ => {}
  }

  lemma FreeReleases(sys: System, family: Families, done: set<nat>, id: nat, b: Block)
    requires SysInv(sys) && FamiliesApart(sys.m.tables, family) && StepOp(sys.m.tables, family, done, Free(id))
    ensures Released(sys.m.tables, Step(sys, Free(id)).m.tables, {id}, b)
    ensures Settled(Step(sys, Free(id)), id)
  {
    hide SysInv, FreeSeq;
    FreeTables(sys, id);
    AloneNotDone(sys.m.tables, family, done, id);
  }

  lemma SwapReleases(sys: System, family: Families, done: set<nat>, g: Group, b: Block)
    requires SysInv(sys) && FamiliesApart(sys.m.tables, family) && Admitted(sys, SwapOut(g))
    requires StepOp(sys.m.tables, family, done, SwapOut(g)) && SysInv(Step(sys, SwapOut(g))) && b.device == Gpu
    ensures Released(sys.m.tables, Step(sys, SwapOut(g)).m.tables, Elements(IdsWith(g, Running)), b)
    ensures forall t :: t in sys.m.tables && t in Elements(IdsWith(g, Running)) ==> Settled(Step(sys, SwapOut(g)), t)
  {
    hide SysInv, BlockState.SwapOut, NumberMoved, Admitted, FamiliesApart, TablesReplaced, IdsWith, WholeGroups;
    SwapOutChanges(sys, g);
    NotOnCpu(Step(sys, SwapOut(g)), b);
    ReplacedReleases(sys.m.tables, Step(sys, SwapOut(g)).m.tables, family, done, IdsWith(g, Running),
                     Step(sys, SwapOut(g)).swapped, b);
  }

  lemma NotOnCpu(sys: System, b: Block)
    requires SysInv(sys) && b.device == Gpu
    ensures forall t :: t in sys.m.tables && t in sys.swapped ==> b !in sys.m.tables[t]
  {
    hide Inv, StoreOk, LastIsPrivate;
    forall t | t in sys.m.tables && t in sys.swapped
      ensures b !in sys.m.tables[t]
    {
      assert TableShape(sys, t);
    }
  }

  lemma ReplacedReleases(tables: map<nat, Table>, tables1: map<nat, Table>, family: Families, done: set<nat>,
                         ids: seq<nat>, swapped: set<nat>, b: Block)
    requires FamiliesApart(tables, family) && TablesReplaced(tables, tables1, ids)
      && WholeGroups(tables, family, done, ids)
    requires forall t :: t in tables1 && t in swapped ==> b !in tables1[t]
    requires forall t :: t in ids && t in tables ==> t in swapped
    ensures Released(tables, tables1, Elements(ids), b)
  {
  }

  lemma CountIsHolders(sys: System, b: Block)
    requires SysInv(sys) && b in sys.m.rc
    ensures sys.m.Count(b) == Holders(sys.m.tables, b)
  {
  }

  lemma SameBlocks(sys: System, op: Op)
    requires SysInv(sys) && SysInv(Step(sys, op))
    ensures Step(sys, op).m.rc.Keys == sys.m.rc.Keys
  {
    hide Inv, ShapesOk;
    KeysStay(sys, op);
  }

  lemma ReleasedCount(sys: System, family: Families, done: set<nat>, op: Op, b: Block)
    requires SysInv(sys) && FamiliesApart(sys.m.tables, family) && Admitted(sys, op)
      && StepOp(sys.m.tables, family, done, op)
    requires (op.SwapOut? || op.Free?) && b in sys.m.rc && b.device == Gpu && SysInv(Step(sys, op))
    ensures var sys1 := Step(sys, op);
      || sys1.m.Count(b) == sys.m.Count(b)
      || (sys1.m.Count(b) == 0 && forall t :: t in sys.m.tables && b in sys.m.tables[t] ==> Settled(sys1, t))
  {
    hide SysInv, Admitted, StepOp, FamiliesApart, Step, Released, Settled, Holders;
    var sys1 := Step(sys, op);
    if op.Free? {
      FreeReleases(sys, family, done, op.id, b);
    } else {
      SwapReleases(sys, family, done, op.g, b);
    }
    SameBlocks(sys, op);
    CountIsHolders(sys, b);
    CountIsHolders(sys1, b);
    ReleasedHolders(sys.m.tables, sys1.m.tables, ReleasedIds(op), b);
  }

  // ---------------------------------------------------------------- how often a block is copied

  lemma AppendCount(sys: System, id: nat, needed: nat, writers: nat, b: Block)
    requires SysInv(sys) && Admitted(sys, AppendSlot(id, needed)) && b in sys.m.rc && b.device == Gpu
    ensures var op := AppendSlot(id, needed);
      Expected(sys.m.Count(b), (if WritesInto(sys.m, id, needed, b) then 1 else 0) + writers)
        == CopiesFrom(CopyOf(sys, op), b.number) + Expected(Step(sys, op).m.Count(b), writers)
  {
    hide Inv, StoreOk, AppendSlots, Appended, Expected, WritesInto, LastIsPrivate;
    AppendReady(sys, id, needed);
    assert TableShape(sys, id);
    ExpectedStep(sys.m, Step(sys, AppendSlot(id, needed)).m, id, needed, AppendSlots(sys.m, None, id, needed).1.value,
                 writers, b);
  }

  lemma ReleaseExpects(sys: System, family: Families, done: set<nat>, ops: seq<Op>, b: Block)
    requires SysInv(sys) && FamiliesApart(sys.m.tables, family) && OneStep(sys, family, done, ops) && NoSwapIn(ops)
    requires ops != [] && (ops[0].SwapOut? || ops[0].Free?) && b in sys.m.rc && b.device == Gpu
      && SysInv(Step(sys, ops[0]))
    ensures Expected(sys.m.Count(b), StepWriters(sys.m, ops[1..], b))
         == Expected(Step(sys, ops[0]).m.Count(b), StepWriters(sys.m, ops[1..], b))
  {
    hide SysInv, Admitted, StepOp, FamiliesApart, Step, Settled, StepWriters;
    ReleasedCount(sys, family, done, ops[0], b);
    if Step(sys, ops[0]).m.Count(b) != sys.m.Count(b) {
      NoneToCome(sys, family, done, ops, b);
    }
  }

  /** A step copies out of a block exactly as often as its sequences write to it while it is
      shared: all of them, or all but the last of its holders. */
  lemma {:induction false} StepSources(sys: System, family: Families, done: set<nat>, ops: seq<Op>, b: Block)
    requires SysInv(sys) && FamiliesApart(sys.m.tables, family) && OneStep(sys, family, done, ops) && NoSwapIn(ops)
    requires b in sys.m.rc && b.device == Gpu
    ensures CopiesFrom(Copies(sys, ops), b.number) == Expected(sys.m.Count(b), StepWriters(sys.m, ops, b))
    decreases |ops|
  {
    hide SysInv, Admitted, StepOp, FamiliesApart, Advances, Demands, Step, Handled, CopyOf, Expected, WritesInto,
         CopiesFrom;
    if ops == [] {
      NoExpected(sys.m.Count(b));
      NoneFrom(b.number);
    } else {
      var op, rest := ops[0], ops[1..];
      var sys1 := Step(sys, op);
      assert ops == [op] + rest;
      OpKeepsApart(sys, family, done, op);
      NextApart(sys, family, done, op);
      SameBlocks(sys, op);
      StepSources(sys1, family, Handled(sys.m.tables, family, done, op), rest, b);
      WritersNext(sys, family, done, ops, b);
      CopyShort(sys, op);
      CopiesFromJoin(CopyOf(sys, op), Copies(sys1, rest), b.number);
      if op.AppendSlot? {
        AppendCount(sys, op.id, op.needed, StepWriters(sys.m, rest, b), b);
      } else {
        StepKinds(sys.m.tables, family, done, op);
        NothingAsked(sys, op);
        NoneFrom(b.number);
        ReleaseExpects(sys, family, done, ops, b);
      }
    }
  }

  lemma OnlyBlocksCopied(copies: seq<(nat, nat)>, keys: set<Block>, x: nat)
    requires forall c :: c in copies ==> Block(Gpu, c.0) in keys
    ensures CopiesFrom(copies, x) > 0 ==> Block(Gpu, x) in keys
  {
    if copies != [] {
      assert copies == [copies[0]] + copies[1..];
      OnlyBlocksCopied(copies[1..], keys, x);
    }
  }

  /** The scheduler's one map for a step has every copy of the step if and only if no block that
      is shared by three or more tables is written to by two or more sequences of the step. */
  lemma StepMapKeepsCopies(sys: System, family: Families, ops: seq<Op>)
    requires SysInv(sys) && FamiliesApart(sys.m.tables, family) && OneStep(sys, family, {}, ops) && NoSwapIn(ops)
    ensures MapKeeps(Copies(sys, ops))
       <==> forall b :: b in sys.m.rc && b.device == Gpu && sys.m.rc[b] >= 3 ==> StepWriters(sys.m, ops, b) < 2
  {
    hide FamiliesApart, OneStep, Copies, StepWriters, Expected, MapKeeps, NoSwapIn, CopiesFrom, Inv, ShapesOk, MapFits;
    var copies := Copies(sys, ops);
    StepDemandsFit(sys, family, {}, ops);
    MapKeepsIff(copies);
    forall x
      ensures Block(Gpu, x) !in sys.m.rc ==> CopiesFrom(copies, x) == 0
      ensures Block(Gpu, x) in sys.m.rc ==>
        (CopiesFrom(copies, x) <= 1 <==> (sys.m.rc[Block(Gpu, x)] >= 3 ==> StepWriters(sys.m, ops, Block(Gpu, x)) < 2))
    {
      OnlyBlocksCopied(copies, sys.store.Keys, x);
      if Block(Gpu, x) in sys.m.rc {
        StepSources(sys, family, {}, ops, Block(Gpu, x));
        ExpectedAtMostOne(sys.m.rc[Block(Gpu, x)], StepWriters(sys.m, ops, Block(Gpu, x)));
      }
    }
    if SourcesOnce(copies) {
      forall b | b in sys.m.rc && b.device == Gpu && sys.m.rc[b] >= 3
        ensures StepWriters(sys.m, ops, b) < 2
      {
        assert b == Block(Gpu, b.number) && CopiesFrom(copies, b.number) <= 1;
      }
    }
  }
}
