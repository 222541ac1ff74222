/** A whole step of the scheduler: slots for some groups, others preempted or swapped back in, in
    any order.  The worker makes the copies the step asks for afterwards: first those between the
    pools, then those within the GPU pool. */
module Steps {
  import opened Common
  import opened BlockState
  import opened RefCounts
  import opened Sharing
  import opened Swapping
  import opened Appending
  import opened PagedMemory
  import opened Rounds

  // ---------------------------------------------------------------- what a step asks for

  function CopyOf(sys: System, op: Op): seq<(nat, nat)> {
    if !op.AppendSlot? then []
    else
      var r := AppendSlots(sys.m, None, op.id, op.needed).1;
      if r.Ok? && r.value.Some? then [r.value.value] else []
  }

  function SwapInOf(sys: System, op: Op): map<nat, nat> {
    if !op.SwapIn? then map[]
    else
      var r := BlockState.SwapIn(sys.m, op.g).2;
      if r.Ok? then r.value else map[]
  }

  function SwapOutOf(sys: System, op: Op): map<nat, nat> {
    if !op.SwapOut? then map[]
    else
      var r := BlockState.SwapOut(sys.m, op.g).2;
      if r.Ok? then r.value else map[]
  }

  /** The copies within the GPU pool, in the order in which they came. */
  ghost function Copies(sys: System, ops: seq<Op>): seq<(nat, nat)>
    decreases |ops|
  {
    if ops == [] then [] else CopyOf(sys, ops[0]) + Copies(Step(sys, ops[0]), ops[1..])
  }

  /** The hash maps that are extended with the mapping of each swap. */
  ghost function SwapIns(sys: System, ops: seq<Op>): map<nat, nat>
    decreases |ops|
  {
    if ops == [] then map[] else SwapInOf(sys, ops[0]) + SwapIns(Step(sys, ops[0]), ops[1..])
  }

  ghost function SwapOuts(sys: System, ops: seq<Op>): map<nat, nat>
    decreases |ops|
  {
    if ops == [] then map[] else SwapOutOf(sys, ops[0]) + SwapOuts(Step(sys, ops[0]), ops[1..])
  }

  /** What the worker makes of the cache. */
  ghost function CacheSwap(store: Store, swapIns: map<nat, nat>, swapOuts: map<nat, nat>,
                           copies: seq<(nat, nat)>): Store {
    ApplyCopies(CopyAcross(CopyAcross(store, swapIns, Cpu, Gpu), swapOuts, Gpu, Cpu), copies)
  }

  // ---------------------------------------------------------------- families

  /** The group of every sequence. */
  type Families = nat -> nat

  /** Sequences that share a block are of one group. */
  ghost predicate FamiliesApart(tables: map<nat, Table>, family: Families) {
    forall s, t, b :: s in tables && t in tables && b in tables[s] && b in tables[t] ==> family(s) == family(t)
  }

  /** The sequences whose blocks an operation moves between the pools. */
  function Moved(op: Op): seq<nat> {
    match op
    case SwapOut(g) => IdsWith(g, Running)
    case SwapIn(g) => IdsWith(g, Swapped)
    case _ => []
  }

  /** An operation of a step in which the groups `done` have been dealt with: groups are swapped
      or freed as a whole (only groups of one sequence are freed), and only if they have not yet
      been dealt with. */
  predicate StepOp(tables: map<nat, Table>, family: Families, done: set<nat>, op: Op) {
    match op
    case AppendSlot(_, _) => true
    case SwapOut(_) => WholeGroups(tables, family, done, Moved(op))
    case SwapIn(_) => WholeGroups(tables, family, done, Moved(op))
    case Free(id) => WholeGroups(tables, family, done, [id])
    case _ => false
  }

  predicate WholeGroups(tables: map<nat, Table>, family: Families, done: set<nat>, ids: seq<nat>) {
    forall s :: s in ids && s in tables ==>
      && family(s) !in done
      && forall t :: t in tables && family(t) == family(s) ==> t in ids
  }

  /** The groups dealt with after the operation. */
  function Handled(tables: map<nat, Table>, family: Families, done: set<nat>, op: Op): set<nat> {
    match op
    case AppendSlot(id, _) => done + {family(id)}
    case SwapOut(_) => done + FamiliesOf(tables, family, Moved(op))
    case SwapIn(_) => done + FamiliesOf(tables, family, Moved(op))
    case _ => done
  }

  function FamiliesOf(tables: map<nat, Table>, family: Families, ids: seq<nat>): set<nat> {
    set s | s in ids && s in tables :: family(s)
  }

  ghost predicate OneStep(sys: System, family: Families, done: set<nat>, ops: seq<Op>)
    decreases |ops|
  {
    ops != [] ==>
      && Admitted(sys, ops[0]) && StepOp(sys.m.tables, family, done, ops[0])
      && OneStep(Step(sys, ops[0]), family, Handled(sys.m.tables, family, done, ops[0]), ops[1..])
  }

  /** A group that has been dealt with holds the block. */
  ghost predicate Kept(tables: map<nat, Table>, family: Families, done: set<nat>, b: Block) {
    exists t :: t in tables && family(t) in done && b in tables[t]
  }

  /** Only groups that have been dealt with hold the block, if any. */
  ghost predicate Guarded(tables: map<nat, Table>, family: Families, done: set<nat>, b: Block) {
    forall t :: t in tables && b in tables[t] ==> family(t) in done
  }

  ghost predicate Unheld(tables: map<nat, Table>, b: Block) {
    forall t :: t in tables ==> b !in tables[t]
  }

  // ---------------------------------------------------------------- what one operation changes

  /** The blocks of a table that are new were unheld; those that are gone were not, or are still
      held by another sequence of the group. */
  ghost predicate SlotChange(tables: map<nat, Table>, tables1: map<nat, Table>, id: nat, copy: seq<(nat, nat)>) {
    && id in tables && tables1.Keys == tables.Keys && tables1[id] != []
    && (forall t :: t in tables && t != id ==> tables1[t] == tables[t])
    && (forall b :: b in tables1[id] && b !in tables[id] ==> Unheld(tables, b))
    && (forall b :: b in tables[id] && b !in tables1[id] ==> exists t :: t in tables && t != id && b in tables[t])
    && |copy| <= 1
    && (forall c :: c in copy ==>
          && Unheld(tables, Block(Gpu, c.1)) && Block(Gpu, c.1) == Last(tables1[id])
          && Block(Gpu, c.0) in tables[id]
          && exists t :: t in tables && t != id && Block(Gpu, c.0) in tables[t])
  }

  lemma AppendChanges(sys: System, id: nat, needed: nat)
    requires SysInv(sys) && Admitted(sys, AppendSlot(id, needed))
    ensures var sys1 := Step(sys, AppendSlot(id, needed));
      var copy := CopyOf(sys, AppendSlot(id, needed));
      && SlotChange(sys.m.tables, sys1.m.tables, id, copy)
      && sys1.store == ApplyCopies(sys.store, copy)
      && sys1.pending == sys.pending + {id} && id !in sys.pending
    ensures forall c :: c in CopyOf(sys, AppendSlot(id, needed)) ==>
      Block(Gpu, c.0) in sys.store && Block(Gpu, c.1) in sys.store
  {
    hide Inv, AppendSlots, CopyBlock, LastIsPrivate, ShapesOk, Appended, SlotChange, Universe;
    AppendReady(sys, id, needed);
    var (m1, r) := AppendSlots(sys.m, None, id, needed);
    AppendedChange(sys.m, m1, id, needed, r.value);
  }

  lemma AppendedChange(m: State, m1: State, id: nat, needed: nat, copy: Option<(nat, nat)>)
    requires Inv(m) && Appended(m, m1, id, needed, copy)
    ensures SlotChange(m.tables, m1.tables, id, if copy.Some? then [copy.value] else [])
    ensures copy.Some? ==> Block(Gpu, copy.value.0) in m.rc && Block(Gpu, copy.value.1) in m.rc
  {
    hide Inv;
    var slot := Last(m1.tables[id]);
    if copy.Some? || |m.tables[id]| < needed {
      UncountedIsUnheld(m, slot);
    }
    if copy.Some? {
      var b := Last(m.tables[id]);
      assert b in m.tables[id];
      HeldIsCounted(m, id, b);
      var t := OtherHolder(m, id, b);
      assert t in m.tables && t != id && b in m.tables[t];
      forall c | c in m.tables[id] && c !in m1.tables[id]
        ensures c == b
      {
        Replaced(m.tables[id], needed - 1, slot, c);
      }
    }
  }

  lemma Replaced(table: Table, k: nat, slot: Block, c: Block)
    requires k < |table| && c in table
    ensures c in table[k := slot] || c == table[k]
  {
    var i :| 0 <= i < |table| && table[i] == c;
    assert i == k || table[k := slot][i] == c;
  }

  lemma OtherHolder(m: State, id: nat, b: Block) returns (t: nat)
    requires Inv(m) && b in m.rc && m.rc[b] > 1
    ensures t in m.tables && t != id && b in m.tables[t]
  {
    if HolderSet(m.tables, b) <= {id} {
      CardMonotone(HolderSet(m.tables, b), {id});
      assert false;
    }
    t :| t in HolderSet(m.tables, b) && t != id;
  }

  /** A swap of whole sequences: what they hold afterwards was unheld, and is shared only where
      it was shared before. */
  ghost predicate TablesReplaced(tables: map<nat, Table>, tables1: map<nat, Table>, ids: seq<nat>) {
    && tables1.Keys == tables.Keys
    && (forall t :: t in tables && t !in ids ==> tables1[t] == tables[t])
    && (forall t, b :: t in tables && t in ids && b in tables1[t] ==> Unheld(tables, b))
    && (forall s, t, b :: s in tables && s in ids && t in tables && t in ids && b in tables1[s] && b in tables1[t] ==>
          exists c :: c in tables[s] && c in tables[t])
  }

  /** One of the sequences held the block, and one holds the block it is moved to. */
  ghost predicate NumberMoved(tables: map<nat, Table>, tables1: map<nat, Table>, ids: seq<nat>, from: Block,
                              to: Block) {
    && (exists t :: t in tables && t in ids && from in tables[t])
    && (exists t :: t in tables1 && t in ids && to in tables1[t])
    && Unheld(tables, to)
  }

  ghost predicate SwapChange(tables: map<nat, Table>, tables1: map<nat, Table>, ids: seq<nat>,
                             numbers: map<nat, nat>, src: Device, dst: Device)
  {
    && TablesReplaced(tables, tables1, ids)
    && forall n :: n in numbers ==> NumberMoved(tables, tables1, ids, Block(src, n), Block(dst, numbers[n]))
  }

  lemma SwapDoneChange(m: State, m1: State, ids: seq<nat>, numbers: map<nat, nat>, src: Device, dst: Device)
    requires Inv(m) && AllOn(m.tables, ids, src) && SwappedAs(m, m1, ids, numbers, src, dst)
    ensures SwapChange(m.tables, m1.tables, ids, numbers, src, dst)
  {
    hide Inv, FreshNumbers, UnheldAreFree, AllOn, TablesRenumbered, GroupNums, NumberMoved, TablesReplaced;
    SwapTables(m, m1, ids, numbers, src, dst);
    forall n | n in numbers
      ensures NumberMoved(m.tables, m1.tables, ids, Block(src, n), Block(dst, numbers[n]))
    {
      TargetUnheld(m, numbers, dst, n);
      MovedHolder(m.tables, m1.tables, ids, numbers, src, dst, n);
    }
  }

  lemma SwapTables(m: State, m1: State, ids: seq<nat>, numbers: map<nat, nat>, src: Device, dst: Device)
    requires Inv(m) && AllOn(m.tables, ids, src) && FreshNumbers(m, numbers, dst)
    requires TablesRenumbered(m.tables, m1.tables, ids, numbers, dst)
    ensures TablesReplaced(m.tables, m1.tables, ids)
  {
    hide Inv, FreshNumbers, AllOn, Renumbered, Unheld;
    forall t, b | t in m.tables && t in ids && b in m1.tables[t]
      ensures Unheld(m.tables, b)
    {
      var n := RenumberedFrom(m.tables[t], m1.tables[t], numbers, dst, b);
      TargetUnheld(m, numbers, dst, n);
    }
    forall s, t, b | s in m.tables && s in ids && t in m.tables && t in ids && b in m1.tables[s] && b in m1.tables[t]
      ensures exists c :: c in m.tables[s] && c in m.tables[t]
    {
      SharedBefore(m, m1, ids, numbers, src, dst, s, t, b);
    }
  }

  lemma SharedBefore(m: State, m1: State, ids: seq<nat>, numbers: map<nat, nat>, src: Device, dst: Device,
                     s: nat, t: nat, b: Block)
    requires AllOn(m.tables, ids, src) && FreshNumbers(m, numbers, dst)
    requires TablesRenumbered(m.tables, m1.tables, ids, numbers, dst)
    requires s in m.tables && s in ids && t in m.tables && t in ids && b in m1.tables[s] && b in m1.tables[t]
    ensures exists c :: c in m.tables[s] && c in m.tables[t]
  {
    hide FreshNumbers, AllOn, Renumbered;
    var n := RenumberedFrom(m.tables[s], m1.tables[s], numbers, dst, b);
    var k := RenumberedFrom(m.tables[t], m1.tables[t], numbers, dst, b);
    SameSource(m, numbers, dst, n, k);
    HeldOnSource(m.tables, ids, src, s, n);
    HeldOnSource(m.tables, ids, src, t, n);
  }

  lemma MovedHolder(tables: map<nat, Table>, tables1: map<nat, Table>, ids: seq<nat>, numbers: map<nat, nat>,
                    src: Device, dst: Device, n: nat)
    requires AllOn(tables, ids, src) && TablesRenumbered(tables, tables1, ids, numbers, dst)
    requires n in GroupNums(tables, ids) && n in numbers && Unheld(tables, Block(dst, numbers[n]))
    ensures NumberMoved(tables, tables1, ids, Block(src, n), Block(dst, numbers[n]))
  {
    hide AllOn, Renumbered, GroupNums, Unheld;
    var t, b :| t in ids && t in tables && b in tables[t] && b.number == n;
    RenumberedTo(tables[t], tables1[t], numbers, dst, b);
    OnSource(tables, ids, src, t, b);
    assert t in tables1;
  }

  lemma SameSource(m: State, numbers: map<nat, nat>, dst: Device, n: nat, k: nat)
    requires FreshNumbers(m, numbers, dst) && n in numbers && k in numbers && numbers[n] == numbers[k]
    ensures n == k
  {
  }

  lemma HeldOnSource(tables: map<nat, Table>, ids: seq<nat>, src: Device, t: nat, n: nat)
    requires AllOn(tables, ids, src) && t in ids && t in tables && exists b :: b in tables[t] && b.number == n
    ensures Block(src, n) in tables[t]
  {
  }

  lemma TargetUnheld(m: State, numbers: map<nat, nat>, dst: Device, n: nat)
    requires Inv(m) && FreshNumbers(m, numbers, dst) && n in numbers
    ensures Unheld(m.tables, Block(dst, numbers[n]))
  {
    UncountedIsUnheld(m, Block(dst, numbers[n]));
  }

  lemma OnSource(tables: map<nat, Table>, ids: seq<nat>, src: Device, t: nat, b: Block)
    requires AllOn(tables, ids, src) && t in ids && t in tables && b in tables[t]
    ensures b == Block(src, b.number)
  {
  }

  lemma RenumberedTo(table: Table, table1: Table, numbers: map<nat, nat>, dst: Device, b: Block)
    requires Renumbered(table, table1, numbers, dst) && b in table
    ensures b.number in numbers && Block(dst, numbers[b.number]) in table1
  {
    var i :| 0 <= i < |table| && table[i] == b;
    assert table1[i] == Block(dst, numbers[b.number]);
  }

  lemma RenumberedFrom(table: Table, table1: Table, numbers: map<nat, nat>, dst: Device, c: Block) returns (n: nat)
    requires Renumbered(table, table1, numbers, dst) && c in table1
    ensures n in numbers && c == Block(dst, numbers[n]) && exists b :: b in table && b.number == n
  {
    var i :| 0 <= i < |table1| && table1[i] == c;
    n := table[i].number;
  }

  lemma SwapOutChanges(sys: System, g: Group)
    requires SysInv(sys) && Admitted(sys, SwapOut(g))
    ensures var sys1 := Step(sys, SwapOut(g));
      var numbers := SwapOutOf(sys, SwapOut(g));
      && SwapChange(sys.m.tables, sys1.m.tables, IdsWith(g, Running), numbers, Gpu, Cpu)
      && sys1.store == CopyAcross(sys.store, numbers, Gpu, Cpu) && sys1.pending == sys.pending
      && FreshNumbers(sys.m, numbers, Cpu)
      && Elements(IdsWith(g, Running)) !! sys.pending
  {
    hide Inv, StoreOk, ShapesOk, SwapChange, BlockState.SwapOut, Faithful, CanSwapOut, IdsWith, FreshNumbers,
         CopyAcross, Copied;
    SwapOutDone(sys, g);
    SwapDoneChange(sys.m, Step(sys, SwapOut(g)).m, IdsWith(g, Running), SwapOutOf(sys, SwapOut(g)), Gpu, Cpu);
  }

  lemma SwapInChanges(sys: System, g: Group)
    requires SysInv(sys) && Admitted(sys, SwapIn(g))
    ensures var sys1 := Step(sys, SwapIn(g));
      var numbers := SwapInOf(sys, SwapIn(g));
      && SwapChange(sys.m.tables, sys1.m.tables, IdsWith(g, Swapped), numbers, Cpu, Gpu)
      && sys1.store == CopyAcross(sys.store, numbers, Cpu, Gpu) && sys1.pending == sys.pending
      && FreshNumbers(sys.m, numbers, Gpu)
      && forall id :: id in sys.m.tables && id in IdsWith(g, Swapped) ==> id !in sys.pending
  {
    hide Inv, StoreOk, ShapesOk, SwapChange, BlockState.SwapIn, Faithful, CanSwapIn, IdsWith, FreshNumbers,
         CopyAcross, Copied;
    SwapInDone(sys, g);
    SwapDoneChange(sys.m, Step(sys, SwapIn(g)).m, IdsWith(g, Swapped), SwapInOf(sys, SwapIn(g)), Cpu, Gpu);
  }

  // ---------------------------------------------------------------- what an operation leaves alone

  /** Blocks of groups dealt with stay theirs, and stay apart from the others. */
  ghost predicate Advances(tables: map<nat, Table>, tables1: map<nat, Table>, family: Families, done: set<nat>,
                           done1: set<nat>) {
    && FamiliesApart(tables1, family)
    && (forall b :: Kept(tables, family, done, b) ==> Kept(tables1, family, done1, b))
    && (forall b :: Guarded(tables, family, done, b) ==> Guarded(tables1, family, done1, b))
  }

  lemma SlotApart(tables: map<nat, Table>, tables1: map<nat, Table>, family: Families, id: nat, copy: seq<(nat, nat)>)
    requires FamiliesApart(tables, family) && SlotChange(tables, tables1, id, copy)
    ensures FamiliesApart(tables1, family)
  {
    forall s, t, b | s in tables1 && t in tables1 && b in tables1[s] && b in tables1[t]
      ensures family(s) == family(t)
    {
      if s != t {
        assert b in tables[s] && b in tables[t];
      }
    }
  }

  lemma SlotKeeps(tables: map<nat, Table>, tables1: map<nat, Table>, family: Families, done: set<nat>, id: nat,
                  copy: seq<(nat, nat)>, b: Block)
    requires FamiliesApart(tables, family) && SlotChange(tables, tables1, id, copy)
    requires Kept(tables, family, done, b)
    ensures Kept(tables1, family, done + {family(id)}, b)
  {
    var t :| t in tables && family(t) in done && b in tables[t];
    if t == id && b !in tables1[id] {
      var u :| u in tables && u != id && b in tables[u];
      assert b in tables1[u];
    } else {
      assert b in tables1[t];
    }
  }

  lemma SlotAdvances(tables: map<nat, Table>, tables1: map<nat, Table>, family: Families, done: set<nat>, id: nat,
                     copy: seq<(nat, nat)>)
    requires FamiliesApart(tables, family) && SlotChange(tables, tables1, id, copy)
    ensures Advances(tables, tables1, family, done, done + {family(id)})
    ensures forall c :: c in copy ==>
      && Kept(tables1, family, done + {family(id)}, Block(Gpu, c.0))
      && Kept(tables1, family, done + {family(id)}, Block(Gpu, c.1))
      && Guarded(tables1, family, done + {family(id)}, Block(Gpu, c.1))
  {
    SlotApart(tables, tables1, family, id, copy);
    forall b | Kept(tables, family, done, b)
      ensures Kept(tables1, family, done + {family(id)}, b)
    {
      SlotKeeps(tables, tables1, family, done, id, copy, b);
    }
    forall c | c in copy
      ensures Kept(tables1, family, done + {family(id)}, Block(Gpu, c.0))
      ensures Kept(tables1, family, done + {family(id)}, Block(Gpu, c.1))
      ensures Guarded(tables1, family, done + {family(id)}, Block(Gpu, c.1))
    {
      var t :| t in tables && t != id && Block(Gpu, c.0) in tables[t];
      assert Block(Gpu, c.0) in tables1[t];
      assert Block(Gpu, c.1) in tables1[id];
    }
  }

  lemma MovedTogether(tables: map<nat, Table>, tables1: map<nat, Table>, ids: seq<nat>, s: nat, t: nat, b: Block)
    requires TablesReplaced(tables, tables1, ids)
    requires s in tables1 && t in tables1 && b in tables1[s] && b in tables1[t]
    ensures s in ids <==> t in ids
  {
    assert s in tables1.Keys && t in tables1.Keys;
    assert s in ids ==> Unheld(tables, b);
    assert t in ids ==> Unheld(tables, b);
    assert s !in ids ==> b in tables[s];
    assert t !in ids ==> b in tables[t];
  }

  lemma SwapApart(tables: map<nat, Table>, tables1: map<nat, Table>, family: Families, ids: seq<nat>)
    requires FamiliesApart(tables, family) && TablesReplaced(tables, tables1, ids)
    ensures FamiliesApart(tables1, family)
  {
    forall s, t, b | s in tables1 && t in tables1 && b in tables1[s] && b in tables1[t]
      ensures family(s) == family(t)
    {
      MovedTogether(tables, tables1, ids, s, t, b);
      if s in ids {
        var c :| c in tables[s] && c in tables[t];
      }
    }
  }

  lemma SwapKeeps(tables: map<nat, Table>, tables1: map<nat, Table>, family: Families, done: set<nat>, ids: seq<nat>,
                  b: Block)
    requires TablesReplaced(tables, tables1, ids) && WholeGroups(tables, family, done, ids)
    ensures Kept(tables, family, done, b) ==> Kept(tables1, family, done + FamiliesOf(tables, family, ids), b)
    ensures Guarded(tables, family, done, b) ==> Guarded(tables1, family, done + FamiliesOf(tables, family, ids), b)
  {
    if Kept(tables, family, done, b) {
      var t :| t in tables && family(t) in done && b in tables[t];
      assert b in tables1[t];
    }
  }

  lemma SwapAdvances(tables: map<nat, Table>, tables1: map<nat, Table>, family: Families, done: set<nat>, ids: seq<nat>)
    requires FamiliesApart(tables, family) && TablesReplaced(tables, tables1, ids)
      && WholeGroups(tables, family, done, ids)
    ensures Advances(tables, tables1, family, done, done + FamiliesOf(tables, family, ids))
  {
    hide FamiliesApart, TablesReplaced, WholeGroups, FamiliesOf, Kept, Guarded;
    SwapApart(tables, tables1, family, ids);
    forall b
      ensures Kept(tables, family, done, b) ==> Kept(tables1, family, done + FamiliesOf(tables, family, ids), b)
      ensures Guarded(tables, family, done, b) ==> Guarded(tables1, family, done + FamiliesOf(tables, family, ids), b)
    {
      SwapKeeps(tables, tables1, family, done, ids, b);
    }
  }

  /** A block that is moved was held by a group not dealt with before; afterwards none holds it. */
  lemma MovedBlocks(tables: map<nat, Table>, tables1: map<nat, Table>, family: Families, done: set<nat>, ids: seq<nat>,
                    from: Block, to: Block)
    requires FamiliesApart(tables, family) && TablesReplaced(tables, tables1, ids)
    requires WholeGroups(tables, family, done, ids) && NumberMoved(tables, tables1, ids, from, to)
    ensures Kept(tables1, family, done + FamiliesOf(tables, family, ids), to)
    ensures Guarded(tables1, family, done + FamiliesOf(tables, family, ids), from)
    ensures !Guarded(tables, family, done, from)
  {
    var t :| t in tables && t in ids && from in tables[t];
    var u :| u in tables1 && u in ids && to in tables1[u];
    assert u in tables && family(u) in FamiliesOf(tables, family, ids);
    forall s | s in tables1 && from in tables1[s]
      ensures family(s) in FamiliesOf(tables, family, ids)
    {
      StaysWithFamily(tables, tables1, family, ids, s, t, from);
    }
  }

  lemma StaysWithFamily(tables: map<nat, Table>, tables1: map<nat, Table>, family: Families, ids: seq<nat>,
                        s: nat, t: nat, b: Block)
    requires FamiliesApart(tables, family) && TablesReplaced(tables, tables1, ids)
    requires t in tables && t in ids && b in tables[t] && s in tables1 && b in tables1[s]
    ensures family(s) in FamiliesOf(tables, family, ids)
  {
    assert s in tables;
    if s !in ids {
      assert b in tables[s];
      assert family(s) == family(t);
    }
  }

  lemma FreeAdvances(tables: map<nat, Table>, family: Families, done: set<nat>, id: nat)
    requires FamiliesApart(tables, family) && (id in tables ==> family(id) !in done)
    ensures Advances(tables, tables - {id}, family, done, done)
  {
    forall b | Kept(tables, family, done, b)
      ensures Kept(tables - {id}, family, done, b)
    {
      var t :| t in tables && family(t) in done && b in tables[t];
      assert t in tables - {id};
    }
  }

  /** Copies go to unheld blocks, which they make private to their group, and come from blocks
      that the group goes on holding. */
  ghost predicate CopyFresh(tables: map<nat, Table>, tables1: map<nat, Table>, family: Families, done1: set<nat>,
                            c: (nat, nat)) {
    && Unheld(tables, Block(Gpu, c.1)) && Kept(tables1, family, done1, Block(Gpu, c.1))
    && Guarded(tables1, family, done1, Block(Gpu, c.1)) && Kept(tables1, family, done1, Block(Gpu, c.0))
    && !Unheld(tables, Block(Gpu, c.0))
  }

  /** Moves go to unheld blocks, and come from blocks of groups that had not been dealt with. */
  ghost predicate MoveFresh(tables: map<nat, Table>, tables1: map<nat, Table>, family: Families, done: set<nat>,
                            done1: set<nat>, from: Block, to: Block)
  {
    && Unheld(tables, to) && Kept(tables1, family, done1, to)
    && Guarded(tables1, family, done1, from) && !Guarded(tables, family, done, from)
  }

  ghost predicate Demands(sys: System, family: Families, done: set<nat>, op: Op) {
    var tables, tables1 := sys.m.tables, Step(sys, op).m.tables;
    var done1 := Handled(tables, family, done, op);
    && (forall c :: c in CopyOf(sys, op) ==> CopyFresh(tables, tables1, family, done1, c))
    && (forall n :: n in SwapInOf(sys, op) ==>
          MoveFresh(tables, tables1, family, done, done1, Block(Cpu, n), Block(Gpu, SwapInOf(sys, op)[n])))
    && (forall n :: n in SwapOutOf(sys, op) ==>
          MoveFresh(tables, tables1, family, done, done1, Block(Gpu, n), Block(Cpu, SwapOutOf(sys, op)[n])))
  }

  ghost predicate OpAdvances(sys: System, family: Families, done: set<nat>, op: Op) {
    var sys1 := Step(sys, op);
    && SysInv(sys1)
    && Advances(sys.m.tables, sys1.m.tables, family, done, Handled(sys.m.tables, family, done, op))
    && Demands(sys, family, done, op)
  }

  lemma MoveIsFresh(tables: map<nat, Table>, tables1: map<nat, Table>, family: Families, done: set<nat>, ids: seq<nat>,
                    numbers: map<nat, nat>, src: Device, dst: Device)
    requires FamiliesApart(tables, family) && SwapChange(tables, tables1, ids, numbers, src, dst)
    requires WholeGroups(tables, family, done, ids)
    ensures
      var done1 := done + FamiliesOf(tables, family, ids);
      && Advances(tables, tables1, family, done, done1)
      && forall n :: n in numbers ==>
           MoveFresh(tables, tables1, family, done, done1, Block(src, n), Block(dst, numbers[n]))
  {
    hide FamiliesApart, TablesReplaced, WholeGroups, FamiliesOf, Kept, Guarded, Unheld, Advances;
    SwapAdvances(tables, tables1, family, done, ids);
    forall n | n in numbers
      ensures MoveFresh(tables, tables1, family, done, done + FamiliesOf(tables, family, ids),
                        Block(src, n), Block(dst, numbers[n]))
    {
      MovedBlocks(tables, tables1, family, done, ids, Block(src, n), Block(dst, numbers[n]));
    }
  }

  lemma AppendAdvances(sys: System, family: Families, done: set<nat>, id: nat, needed: nat)
    requires SysInv(sys) && FamiliesApart(sys.m.tables, family) && Admitted(sys, AppendSlot(id, needed))
    ensures OpAdvances(sys, family, done, AppendSlot(id, needed))
  {
    hide SysInv, Admitted, FamiliesApart, Kept, Guarded, Advances, Step, HistStep, CopyOf, ApplyCopies;
    var op := AppendSlot(id, needed);
    StepSim(sys, op);
    AppendChanges(sys, id, needed);
    SlotAdvances(sys.m.tables, Step(sys, op).m.tables, family, done, id, CopyOf(sys, op));
    forall c | c in CopyOf(sys, op)
      ensures CopyFresh(sys.m.tables, Step(sys, op).m.tables, family, done + {family(id)}, c)
    {
    }
  }

  /** Every operation of a step respects the groups that have been dealt with. */
  lemma OpKeepsApart(sys: System, family: Families, done: set<nat>, op: Op)
    requires SysInv(sys) && FamiliesApart(sys.m.tables, family)
    requires Admitted(sys, op) && StepOp(sys.m.tables, family, done, op)
    ensures OpAdvances(sys, family, done, op)
  {
    hide SysInv, Admitted, FamiliesApart, Advances, Step, HistStep, SwapChange, WholeGroups, MoveFresh, CopyFresh,
         Homed, FreeSeq, BlockState.SwapIn, BlockState.SwapOut;
    StepSim(sys, op);
    var tables, tables1 := sys.m.tables, Step(sys, op).m.tables;
    match op
    case AppendSlot(id, needed) => AppendAdvances(sys, family, done, id, needed);
    case SwapOut(g) =>
      SwapOutChanges(sys, g);
      MoveIsFresh(tables, tables1, family, done, Moved(op), SwapOutOf(sys, op), Gpu, Cpu);
    case SwapIn(g) =>
      SwapInChanges(sys, g);
      MoveIsFresh(tables, tables1, family, done, Moved(op), SwapInOf(sys, op), Cpu, Gpu);
    case Free(id) =>
      FreeTables(sys, id);
      AloneNotDone(tables, family, done, id);
      FreeAdvances(tables, family, done, id);
    case _ =>
  }

  lemma AloneNotDone(tables: map<nat, Table>, family: Families, done: set<nat>, id: nat)
    requires WholeGroups(tables, family, done, [id])
    ensures id in tables ==> family(id) !in done && forall t :: t in tables && family(t) == family(id) ==> t == id
  {
    assert id in [id];
    assert forall t :: t in [id] ==> t == id;
  }

  lemma FreeTables(sys: System, id: nat)
    requires SysInv(sys)
    ensures Step(sys, Free(id)).m.tables == sys.m.tables - {id}
  {
    hide Inv, FreeSeq, Homed;
    ShapesHomed(sys);
    FreeKeepsInv(sys.m, id);
  }

  // ---------------------------------------------------------------- what later operations avoid

  /** What the worker is asked to copy to and from. */
  ghost predicate WritesBlock(copies: seq<(nat, nat)>, swapIns: map<nat, nat>, swapOuts: map<nat, nat>, b: Block) {
    || (exists c :: c in copies && b == Block(Gpu, c.1))
    || (exists n :: n in swapIns && b == Block(Gpu, swapIns[n]))
    || (exists n :: n in swapOuts && b == Block(Cpu, swapOuts[n]))
  }

  ghost predicate MovesBlock(swapIns: map<nat, nat>, swapOuts: map<nat, nat>, b: Block) {
    (b.device == Cpu && b.number in swapIns) || (b.device == Gpu && b.number in swapOuts)
  }

  lemma KeptIsHeld(tables: map<nat, Table>, family: Families, done: set<nat>, b: Block)
    requires Kept(tables, family, done, b)
    ensures !Unheld(tables, b)
  {
  }

  /** A block that a group dealt with holds is not written to by the rest of the step. */
  lemma {:induction false} KeptNotWritten(sys: System, family: Families, done: set<nat>, ops: seq<Op>, b: Block)
    requires SysInv(sys) && FamiliesApart(sys.m.tables, family) && OneStep(sys, family, done, ops)
    requires Kept(sys.m.tables, family, done, b)
    ensures !WritesBlock(Copies(sys, ops), SwapIns(sys, ops), SwapOuts(sys, ops), b)
    decreases |ops|
  {
    hide SysInv, Admitted, StepOp, FamiliesApart, Kept, Guarded, Unheld, Step, CopyOf, SwapInOf, SwapOutOf, Handled;
    if ops != [] {
      var op := ops[0];
      OpKeepsApart(sys, family, done, op);
      KeptIsHeld(sys.m.tables, family, done, b);
      KeptNotWritten(Step(sys, op), family, Handled(sys.m.tables, family, done, op), ops[1..], b);
    }
  }

  /** A block that only groups dealt with hold is not moved by the rest of the step. */
  lemma {:induction false} GuardedNotMoved(sys: System, family: Families, done: set<nat>, ops: seq<Op>, b: Block)
    requires SysInv(sys) && FamiliesApart(sys.m.tables, family) && OneStep(sys, family, done, ops)
    requires Guarded(sys.m.tables, family, done, b)
    ensures !MovesBlock(SwapIns(sys, ops), SwapOuts(sys, ops), b)
    decreases |ops|
  {
    hide SysInv, Admitted, StepOp, FamiliesApart, Kept, Guarded, Unheld, Step, CopyOf, SwapInOf, SwapOutOf, Handled;
    if ops != [] {
      var op := ops[0];
      OpKeepsApart(sys, family, done, op);
      GuardedNotMoved(Step(sys, op), family, Handled(sys.m.tables, family, done, op), ops[1..], b);
    }
  }

  /** A sequence with a slot for its next token keeps its table for the rest of the step. */
  lemma SlotStays(sys: System, family: Families, done: set<nat>, op: Op, id: nat)
    requires SysInv(sys) && Admitted(sys, op) && StepOp(sys.m.tables, family, done, op)
    requires id in sys.pending && id in sys.m.tables && family(id) in done
    ensures var sys1 := Step(sys, op);
      id in sys1.pending && id in sys1.m.tables && sys1.m.tables[id] == sys.m.tables[id]
  {
    hide SysInv, Admitted, WholeGroups, Unheld, NumberMoved, FreeSeq, BlockState.SwapIn, BlockState.SwapOut,
         AppendSlots;
    match op
    case AppendSlot(i, needed) => AppendChanges(sys, i, needed);
    case SwapOut(g) => SwapOutChanges(sys, g);
    case SwapIn(g) => SwapInChanges(sys, g);
    case Free(i) =>
      FreeTables(sys, i);
      AloneNotDone(sys.m.tables, family, done, i);
    case _ =>
  }

  /** And nothing is copied out of its last block. */
  lemma {:induction false} SlotNotCopied(sys: System, family: Families, done: set<nat>, ops: seq<Op>, id: nat, b: Block)
    requires SysInv(sys) && FamiliesApart(sys.m.tables, family) && OneStep(sys, family, done, ops)
    requires id in sys.pending && id in sys.m.tables && family(id) in done
    requires sys.m.tables[id] != [] && b == Last(sys.m.tables[id])
    ensures forall c :: c in Copies(sys, ops) ==> b != Block(Gpu, c.0)
    decreases |ops|
  {
    hide SysInv, Admitted, StepOp, FamiliesApart, Kept, Guarded, Demands, Unheld, Step, CopyOf, Handled;
    if ops != [] {
      var op := ops[0];
      OpKeepsApart(sys, family, done, op);
      SlotStays(sys, family, done, op, id);
      NotSource(sys, op, id);
      HandledGrows(sys.m.tables, family, done, op);
      SlotNotCopied(Step(sys, op), family, Handled(sys.m.tables, family, done, op), ops[1..], id, b);
    }
  }

  lemma HandledGrows(tables: map<nat, Table>, family: Families, done: set<nat>, op: Op)
    ensures done <= Handled(tables, family, done, op)
  {
  }

  lemma NotSource(sys: System, op: Op, id: nat)
    requires SysInv(sys) && Admitted(sys, op) && id in sys.pending
    ensures id in sys.m.tables && sys.m.tables[id] != []
    ensures forall c :: c in CopyOf(sys, op) ==> Last(sys.m.tables[id]) != Block(Gpu, c.0)
  {
    hide Inv, StoreOk, TableShape, Admitted, CopyOf;
    assert LastIsPrivate(sys.m.tables, id);
    if op.AppendSlot? {
      AppendChanges(sys, op.id, op.needed);
    } else {
      assert CopyOf(sys, op) == [] by { NoCopy(sys, op); }
    }
  }

  lemma NoCopy(sys: System, op: Op)
    requires !op.AppendSlot?
    ensures CopyOf(sys, op) == []
  {
  }

  // ---------------------------------------------------------------- the copies between the pools

  /** Different blocks go to different blocks, all of them there. */
  ghost predicate MapFits(numbers: map<nat, nat>, src: Device, dst: Device, keys: set<Block>) {
    && (forall n, k :: n in numbers && k in numbers && n != k ==> numbers[n] != numbers[k])
    && (forall n :: n in numbers ==> Block(src, n) in keys && Block(dst, numbers[n]) in keys)
  }

  lemma AcrossExact(store: Store, numbers: map<nat, nat>, src: Device, dst: Device)
    requires MapFits(numbers, src, dst, store.Keys)
    ensures Copied(store, CopyAcross(store, numbers, src, dst), numbers, src, dst)
  {
    var store1 := CopyAcross(store, numbers, src, dst);
    forall n | n in numbers
      ensures Block(dst, numbers[n]) in store && store1[Block(dst, numbers[n])] == store[Block(src, n)]
    {
      var b := Block(dst, numbers[n]);
      assert n in numbers && numbers[n] == b.number && Block(src, n) in store;
    }
  }

  lemma CopiedUnique(store: Store, s1: Store, s2: Store, numbers: map<nat, nat>, src: Device, dst: Device)
    requires Copied(store, s1, numbers, src, dst) && Copied(store, s2, numbers, src, dst)
    ensures s1 == s2
  {
    forall b | b in store
      ensures s1[b] == s2[b]
    {
      if b.device == dst && exists n :: n in numbers && numbers[n] == b.number {
        var n :| n in numbers && numbers[n] == b.number;
        assert b == Block(dst, numbers[n]);
      }
    }
  }

  lemma AcrossNothing(store: Store, src: Device, dst: Device)
    ensures CopyAcross(store, map[], src, dst) == store
  {
  }

  ghost predicate Disjoint(a: map<nat, nat>, b: map<nat, nat>) {
    && (forall n :: n in a ==> n !in b)
    && (forall n, k :: n in a && k in b ==> a[n] != b[k])
  }

  /** Two mappings with nothing in common make the copies of both when one is extended with the
      other. */
  lemma AcrossTwice(store: Store, a: map<nat, nat>, b: map<nat, nat>, src: Device, dst: Device)
    requires src != dst && MapFits(a, src, dst, store.Keys) && MapFits(b, src, dst, store.Keys) && Disjoint(a, b)
    ensures MapFits(a + b, src, dst, store.Keys)
    ensures CopyAcross(CopyAcross(store, a, src, dst), b, src, dst) == CopyAcross(store, a + b, src, dst)
  {
    hide CopyAcross;
    FitsBoth(a, b, src, dst, store.Keys);
    var store1 := CopyAcross(store, a, src, dst);
    var store2 := CopyAcross(store1, b, src, dst);
    AcrossExact(store, a, src, dst);
    AcrossExact(store1, b, src, dst);
    AcrossExact(store, a + b, src, dst);
    CopiedTwice(store, store1, store2, a, b, src, dst);
    CopiedUnique(store, store2, CopyAcross(store, a + b, src, dst), a + b, src, dst);
  }

  lemma FitsBoth(a: map<nat, nat>, b: map<nat, nat>, src: Device, dst: Device, keys: set<Block>)
    requires MapFits(a, src, dst, keys) && MapFits(b, src, dst, keys) && Disjoint(a, b)
    ensures MapFits(a + b, src, dst, keys)
  {
  }

  lemma CopiedTwice(store: Store, store1: Store, store2: Store, a: map<nat, nat>, b: map<nat, nat>, src: Device,
                    dst: Device)
    requires src != dst && Copied(store, store1, a, src, dst) && Copied(store1, store2, b, src, dst) && Disjoint(a, b)
    ensures Copied(store, store2, a + b, src, dst)
  {
    forall n | n in a + b
      ensures Block(src, n) in store && Block(dst, (a + b)[n]) in store
      ensures store2[Block(dst, (a + b)[n])] == store[Block(src, n)]
    {
      if n in b {
        assert store1[Block(src, n)] == store[Block(src, n)];
      } else {
        assert store2[Block(dst, a[n])] == store1[Block(dst, a[n])];
      }
    }
    forall c | c in store && !(c.device == dst && exists n :: n in a + b && (a + b)[n] == c.number)
      ensures store2[c] == store[c]
    {
      InEither(a, b, c.number);
    }
  }

  lemma InEither(a: map<nat, nat>, b: map<nat, nat>, x: nat)
    requires Disjoint(a, b)
    ensures (exists n :: n in a && a[n] == x) || (exists n :: n in b && b[n] == x) ==>
      exists n :: n in a + b && (a + b)[n] == x
  {
    if exists n :: n in a && a[n] == x {
      var n :| n in a && a[n] == x;
      assert n in a + b && (a + b)[n] == x;
    } else if exists n :: n in b && b[n] == x {
      var n :| n in b && b[n] == x;
      assert n in a + b && (a + b)[n] == x;
    }
  }

  /** A copy between the pools and one within the GPU pool can change places if the first leaves
      both blocks of the second alone, and does not read its target. */
  lemma AcrossCommutes(store: Store, numbers: map<nat, nat>, src: Device, dst: Device, from: Block, to: Block)
    requires src != dst && MapFits(numbers, src, dst, store.Keys) && from in store && to in store
    requires forall n :: n in numbers ==>
      Block(dst, numbers[n]) != from && Block(dst, numbers[n]) != to && Block(src, n) != to
    ensures CopyBlock(CopyAcross(store, numbers, src, dst), from, to)
      == CopyAcross(CopyBlock(store, from, to), numbers, src, dst)
  {
    hide CopyAcross;
    var store1 := CopyAcross(store, numbers, src, dst);
    var store2 := CopyBlock(store, from, to);
    AcrossExact(store, numbers, src, dst);
    assert store2.Keys == store.Keys;
    AcrossExact(store2, numbers, src, dst);
    CopiedCommutes(store, store1, numbers, src, dst, from, to);
    CopiedUnique(store2, CopyBlock(store1, from, to), CopyAcross(store2, numbers, src, dst), numbers, src, dst);
  }

  lemma CopiedCommutes(store: Store, store1: Store, numbers: map<nat, nat>, src: Device, dst: Device, from: Block,
                       to: Block)
    requires src != dst && Copied(store, store1, numbers, src, dst) && from in store && to in store
    requires forall n :: n in numbers ==>
      Block(dst, numbers[n]) != from && Block(dst, numbers[n]) != to && Block(src, n) != to
    ensures Copied(CopyBlock(store, from, to), CopyBlock(store1, from, to), numbers, src, dst)
  {
    Unwritten(numbers, dst, from);
    Unwritten(numbers, dst, to);
  }

  lemma Unwritten(numbers: map<nat, nat>, dst: Device, b: Block)
    requires forall n :: n in numbers ==> Block(dst, numbers[n]) != b
    ensures !(b.device == dst && exists n :: n in numbers && numbers[n] == b.number)
  {
    forall n | n in numbers && numbers[n] == b.number
      ensures b.device != dst
    {
      assert Block(dst, numbers[n]) != b;
    }
  }

  // ---------------------------------------------------------------- deferring the copies

  /** What a step asks for can be asked for: blocks of the cache, each written to once. */
  ghost predicate StepFits(sys: System, ops: seq<Op>) {
    && MapFits(SwapIns(sys, ops), Cpu, Gpu, sys.store.Keys)
    && MapFits(SwapOuts(sys, ops), Gpu, Cpu, sys.store.Keys)
    && CopiesApart(Copies(sys, ops))
    && forall c :: c in Copies(sys, ops) ==> Block(Gpu, c.0) in sys.store && Block(Gpu, c.1) in sys.store
  }

  lemma KeysStay(sys: System, op: Op)
    requires SysInv(sys) && SysInv(Step(sys, op))
    ensures Step(sys, op).store.Keys == sys.store.Keys
  {
    hide Inv, ShapesOk, BlockState.Allocate, AppendSlots, BlockState.Fork, BlockState.SwapIn, BlockState.SwapOut,
         FreeSeq, Prefill, CopyAcross, WriteNext, CopyBlock, Universe;
    assert Step(sys, op).numGpu == sys.numGpu && Step(sys, op).numCpu == sys.numCpu;
  }

  lemma MovesFit(sys: System, op: Op)
    requires SysInv(sys) && Admitted(sys, op)
    ensures MapFits(SwapInOf(sys, op), Cpu, Gpu, sys.store.Keys)
    ensures MapFits(SwapOutOf(sys, op), Gpu, Cpu, sys.store.Keys)
    ensures forall c :: c in CopyOf(sys, op) ==> Block(Gpu, c.0) in sys.store && Block(Gpu, c.1) in sys.store
  {
    hide SysInv, Admitted, SwapChange, MapFits, FreshNumbers, SlotChange, Step, ApplyCopies, CopyAcross, SwapInOf,
         SwapOutOf, CopyOf;
    NothingAsked(sys, op);
    NothingFits(sys.store.Keys);
    match op
    case AppendSlot(id, needed) => AppendChanges(sys, id, needed);
    case SwapOut(g) =>
      SwapOutChanges(sys, g);
      HeldInStore(sys, SwapOutOf(sys, op), IdsWith(g, Running), Gpu, Step(sys, op).m.tables, Cpu);
    case SwapIn(g) =>
      SwapInChanges(sys, g);
      HeldInStore(sys, SwapInOf(sys, op), IdsWith(g, Swapped), Cpu, Step(sys, op).m.tables, Gpu);
    case _ =>
  }

  lemma HeldInStore(sys: System, numbers: map<nat, nat>, ids: seq<nat>, src: Device, tables1: map<nat, Table>,
                    dst: Device)
    requires SysInv(sys) && FreshNumbers(sys.m, numbers, dst)
      && SwapChange(sys.m.tables, tables1, ids, numbers, src, dst)
    ensures MapFits(numbers, src, dst, sys.store.Keys)
  {
    hide Inv, ShapesOk, TablesReplaced;
    forall n | n in numbers
      ensures Block(src, n) in sys.store
    {
      var t :| t in sys.m.tables && t in ids && Block(src, n) in sys.m.tables[t];
      InStore(sys, t);
    }
  }

  /** The rest of a step neither writes to the blocks of a copy nor reads its target. */
  ghost predicate LeavesAlone(copies: seq<(nat, nat)>, swapIns: map<nat, nat>, swapOuts: map<nat, nat>, c: (nat, nat)) {
    && !WritesBlock(copies, swapIns, swapOuts, Block(Gpu, c.0))
    && !WritesBlock(copies, swapIns, swapOuts, Block(Gpu, c.1))
    && !MovesBlock(swapIns, swapOuts, Block(Gpu, c.1))
    && forall k :: k in copies ==> k.0 != c.1
  }

  lemma CopyLeftAlone(sys: System, family: Families, done: set<nat>, ops: seq<Op>, c: (nat, nat))
    requires SysInv(sys) && FamiliesApart(sys.m.tables, family) && OneStep(sys, family, done, ops)
    requires ops != [] && c in CopyOf(sys, ops[0])
    ensures var sys1 := Step(sys, ops[0]);
      LeavesAlone(Copies(sys1, ops[1..]), SwapIns(sys1, ops[1..]), SwapOuts(sys1, ops[1..]), c)
  {
    hide SysInv, Admitted, StepOp, FamiliesApart, Kept, Guarded, Unheld, Step, CopyOf, Copies, SwapIns, SwapOuts,
         WritesBlock, MovesBlock;
    var op := ops[0];
    var sys1, done1 := Step(sys, op), Handled(sys.m.tables, family, done, op);
    OpKeepsApart(sys, family, done, op);
    KeptNotWritten(sys1, family, done1, ops[1..], Block(Gpu, c.0));
    KeptNotWritten(sys1, family, done1, ops[1..], Block(Gpu, c.1));
    GuardedNotMoved(sys1, family, done1, ops[1..], Block(Gpu, c.1));
    SlotTaken(sys, op, c);
    SlotNotCopied(sys1, family, done1, ops[1..], op.id, Block(Gpu, c.1));
  }

  lemma SlotTaken(sys: System, op: Op, c: (nat, nat))
    requires SysInv(sys) && Admitted(sys, op) && c in CopyOf(sys, op)
    ensures op.AppendSlot? && c.0 != c.1
    ensures var sys1 := Step(sys, op);
      && op.id in sys1.pending && op.id in sys1.m.tables && sys1.m.tables[op.id] != []
      && Block(Gpu, c.1) == Last(sys1.m.tables[op.id])
  {
    hide SysInv, Admitted, AppendSlots, ApplyCopies;
    AppendChanges(sys, op.id, op.needed);
  }

  /** What the first operation moves and what the others move has nothing in common. */
  lemma MovesDisjoint(sys: System, family: Families, done: set<nat>, ops: seq<Op>)
    requires SysInv(sys) && FamiliesApart(sys.m.tables, family) && OneStep(sys, family, done, ops) && ops != []
    ensures var sys1 := Step(sys, ops[0]);
      && Disjoint(SwapInOf(sys, ops[0]), SwapIns(sys1, ops[1..]))
      && Disjoint(SwapOutOf(sys, ops[0]), SwapOuts(sys1, ops[1..]))
  {
    hide SysInv, Admitted, StepOp, FamiliesApart, Kept, Guarded, Unheld, Step, SwapInOf, SwapOutOf, SwapIns, SwapOuts,
         Copies, Handled;
    var op := ops[0];
    var sys1, done1 := Step(sys, op), Handled(sys.m.tables, family, done, op);
    OpKeepsApart(sys, family, done, op);
    forall n | n in SwapInOf(sys, op)
      ensures n !in SwapIns(sys1, ops[1..])
      ensures forall k :: k in SwapIns(sys1, ops[1..]) ==> SwapInOf(sys, op)[n] != SwapIns(sys1, ops[1..])[k]
    {
      GuardedNotMoved(sys1, family, done1, ops[1..], Block(Cpu, n));
      KeptNotWritten(sys1, family, done1, ops[1..], Block(Gpu, SwapInOf(sys, op)[n]));
    }
    forall n | n in SwapOutOf(sys, op)
      ensures n !in SwapOuts(sys1, ops[1..])
      ensures forall k :: k in SwapOuts(sys1, ops[1..]) ==> SwapOutOf(sys, op)[n] != SwapOuts(sys1, ops[1..])[k]
    {
      GuardedNotMoved(sys1, family, done1, ops[1..], Block(Gpu, n));
      KeptNotWritten(sys1, family, done1, ops[1..], Block(Cpu, SwapOutOf(sys, op)[n]));
    }
  }

  lemma {:induction false} StepDemandsFit(sys: System, family: Families, done: set<nat>, ops: seq<Op>)
    requires SysInv(sys) && FamiliesApart(sys.m.tables, family) && OneStep(sys, family, done, ops)
    ensures StepFits(sys, ops)
    decreases |ops|
  {
    hide SysInv, Admitted, StepOp, FamiliesApart, Advances, Demands, Step, SwapInOf, SwapOutOf, CopyOf, Handled,
         MapFits, CopiesApart, LeavesAlone, Disjoint;
    if ops == [] {
      NothingFits(sys.store.Keys);
    } else {
      var op, rest := ops[0], ops[1..];
      var sys1 := Step(sys, op);
      OpKeepsApart(sys, family, done, op);
      NextApart(sys, family, done, op);
      StepDemandsFit(sys1, family, Handled(sys.m.tables, family, done, op), rest);
      KeysStay(sys, op);
      MovesFit(sys, op);
      MovesDisjoint(sys, family, done, ops);
      FitsBoth(SwapInOf(sys, op), SwapIns(sys1, rest), Cpu, Gpu, sys.store.Keys);
      FitsBoth(SwapOutOf(sys, op), SwapOuts(sys1, rest), Gpu, Cpu, sys.store.Keys);
      forall c | c in CopyOf(sys, op)
        ensures LeavesAlone(Copies(sys1, rest), SwapIns(sys1, rest), SwapOuts(sys1, rest), c) && c.0 != c.1
      {
        CopyLeftAlone(sys, family, done, ops, c);
        SlotTaken(sys, op, c);
      }
      CopyShort(sys, op);
      ApartCons(CopyOf(sys, op), Copies(sys1, rest), SwapIns(sys1, rest), SwapOuts(sys1, rest));
    }
  }

  lemma CopyShort(sys: System, op: Op)
    ensures |CopyOf(sys, op)| <= 1
  {
  }

  lemma NothingFits(keys: set<Block>)
    ensures MapFits(map[], Cpu, Gpu, keys) && MapFits(map[], Gpu, Cpu, keys) && CopiesApart([])
  {
  }

  lemma NextApart(sys: System, family: Families, done: set<nat>, op: Op)
    requires OpAdvances(sys, family, done, op)
    ensures FamiliesApart(Step(sys, op).m.tables, family) && SysInv(Step(sys, op))
  {
  }

  lemma ApartCons(first: seq<(nat, nat)>, rest: seq<(nat, nat)>, swapIns: map<nat, nat>, swapOuts: map<nat, nat>)
    requires |first| <= 1 && CopiesApart(rest)
    requires forall c :: c in first ==> LeavesAlone(rest, swapIns, swapOuts, c) && c.0 != c.1
    ensures CopiesApart(first + rest)
  {
    if first != [] {
      var c := first[0];
      assert c in first;
      forall j | 0 <= j < |rest|
        ensures rest[j].1 != c.0 && rest[j].1 != c.1 && rest[j].0 != c.1
      {
        assert rest[j] in rest;
      }
      assert forall i :: 0 < i < |first + rest| ==> (first + rest)[i] == rest[i - 1];
    } else {
      assert first + rest == rest;
    }
  }

  /** The worker gets to the same contents if the first copy of a step is made before the rest. */
  lemma CopyFirst(store: Store, c: (nat, nat), swapIns: map<nat, nat>, swapOuts: map<nat, nat>, copies: seq<(nat, nat)>)
    requires MapFits(swapIns, Cpu, Gpu, store.Keys) && MapFits(swapOuts, Gpu, Cpu, store.Keys)
    requires Block(Gpu, c.0) in store && Block(Gpu, c.1) in store && LeavesAlone(copies, swapIns, swapOuts, c)
    ensures CacheSwap(ApplyCopies(store, [c]), swapIns, swapOuts, copies)
      == CacheSwap(store, swapIns, swapOuts, [c] + copies)
  {
    hide CopyAcross, MapFits;
    var from, to := Block(Gpu, c.0), Block(Gpu, c.1);
    var store1 := CopyAcross(store, swapIns, Cpu, Gpu);
    AcrossKeys(store, swapIns, Cpu, Gpu);
    AcrossCommutes(store, swapIns, Cpu, Gpu, from, to);
    AcrossCommutes(store1, swapOuts, Gpu, Cpu, from, to);
    assert ApplyCopies(store, [c]) == CopyBlock(store, from, to);
    assert ([c] + copies)[1..] == copies;
  }

  lemma AcrossKeys(store: Store, numbers: map<nat, nat>, src: Device, dst: Device)
    ensures CopyAcross(store, numbers, src, dst).Keys == store.Keys
  {
  }

  /** A swap before the rest of the step. */
  lemma SwapInFirst(store: Store, a: map<nat, nat>, swapIns: map<nat, nat>, swapOuts: map<nat, nat>,
                    copies: seq<(nat, nat)>)
    requires MapFits(a, Cpu, Gpu, store.Keys) && MapFits(swapIns, Cpu, Gpu, store.Keys) && Disjoint(a, swapIns)
    ensures CacheSwap(CopyAcross(store, a, Cpu, Gpu), swapIns, swapOuts, copies)
      == CacheSwap(store, a + swapIns, swapOuts, copies)
  {
    hide CopyAcross, MapFits, Disjoint;
    AcrossTwice(store, a, swapIns, Cpu, Gpu);
  }

  lemma SwapOutFirst(store: Store, a: map<nat, nat>, swapIns: map<nat, nat>, swapOuts: map<nat, nat>,
                     copies: seq<(nat, nat)>)
    requires MapFits(a, Gpu, Cpu, store.Keys) && MapFits(swapOuts, Gpu, Cpu, store.Keys) && Disjoint(a, swapOuts)
    requires swapIns == map[] || a == map[]
    ensures CacheSwap(CopyAcross(store, a, Gpu, Cpu), swapIns, swapOuts, copies)
      == CacheSwap(store, swapIns, a + swapOuts, copies)
  {
    hide CopyAcross, MapFits, Disjoint;
    if a == map[] {
      AcrossNothing(store, Gpu, Cpu);
      assert a + swapOuts == swapOuts;
    } else {
      AcrossNothing(store, Cpu, Gpu);
      AcrossNothing(CopyAcross(store, a, Gpu, Cpu), Cpu, Gpu);
      AcrossTwice(store, a, swapOuts, Gpu, Cpu);
    }
  }

  /** What the worker makes of a step is what the first operation makes, and then the worker of
      the rest. */
  lemma StepUnfolds(sys: System, family: Families, done: set<nat>, ops: seq<Op>)
    requires SysInv(sys) && FamiliesApart(sys.m.tables, family) && OneStep(sys, family, done, ops) && ops != []
    requires SwapIns(sys, ops) == map[] || SwapOuts(sys, ops) == map[]
    ensures var sys1 := Step(sys, ops[0]);
      CacheSwap(sys.store, SwapIns(sys, ops), SwapOuts(sys, ops), Copies(sys, ops))
        == CacheSwap(sys1.store, SwapIns(sys1, ops[1..]), SwapOuts(sys1, ops[1..]), Copies(sys1, ops[1..]))
  {
    hide SysInv, Admitted, FamiliesApart, Advances, Demands, Handled, MapFits, WholeGroups, CopiesApart, LeavesAlone,
         Disjoint, CacheSwap, SwapChange, ApplyCopies, AppendSlots, BlockState.SwapIn, BlockState.SwapOut, CopyAcross,
         FreshNumbers, SlotChange, FreeSeq, SwapInOf, SwapOutOf, CopyOf, Step, SwapIns, SwapOuts, Copies, StepOp;
    var op, rest := ops[0], ops[1..];
    var sys1 := Step(sys, op);
    var ins, outs, copies := SwapIns(sys1, rest), SwapOuts(sys1, rest), Copies(sys1, rest);
    AskedFirst(sys, ops);
    NoneAsked(SwapInOf(sys, op), ins);
    NoneAsked(SwapOutOf(sys, op), outs);
    StepKinds(sys.m.tables, family, done, op);
    RestFits(sys, family, done, ops);
    MovesFit(sys, op);
    MovesDisjoint(sys, family, done, ops);
    NothingAsked(sys, op);
    assert map[] + ins == ins && map[] + outs == outs && [] + copies == copies;
    match op
    case AppendSlot(id, needed) =>
      AppendChanges(sys, id, needed);
      CopyShort(sys, op);
      if CopyOf(sys, op) == [] {
        ApplyNothing(sys.store);
      } else {
        var c := CopyOf(sys, op)[0];
        CopyLeftAlone(sys, family, done, ops, c);
        CopyFirst(sys.store, c, ins, outs, copies);
        assert CopyOf(sys, op) == [c];
      }
    case SwapOut(g) =>
      SwapOutChanges(sys, g);
      SwapOutFirst(sys.store, SwapOutOf(sys, op), ins, outs, copies);
    case SwapIn(g) =>
      SwapInChanges(sys, g);
      SwapInFirst(sys.store, SwapInOf(sys, op), ins, outs, copies);
    case Free(id) =>
      FreeStore(sys, id);
  }

  lemma AskedFirst(sys: System, ops: seq<Op>)
    requires ops != []
    ensures SwapIns(sys, ops) == SwapInOf(sys, ops[0]) + SwapIns(Step(sys, ops[0]), ops[1..])
    ensures SwapOuts(sys, ops) == SwapOutOf(sys, ops[0]) + SwapOuts(Step(sys, ops[0]), ops[1..])
    ensures Copies(sys, ops) == CopyOf(sys, ops[0]) + Copies(Step(sys, ops[0]), ops[1..])
  {
  }

  lemma StepKinds(tables: map<nat, Table>, family: Families, done: set<nat>, op: Op)
    requires StepOp(tables, family, done, op)
    ensures op.AppendSlot? || op.SwapOut? || op.SwapIn? || op.Free?
  {
  }

  lemma FreeStore(sys: System, id: nat)
    ensures Step(sys, Free(id)).store == sys.store
  {
  }

  lemma ApplyNothing(store: Store)
    ensures ApplyCopies(store, []) == store
  {
  }

  lemma NothingAsked(sys: System, op: Op)
    ensures !op.AppendSlot? ==> CopyOf(sys, op) == []
    ensures !op.SwapIn? ==> SwapInOf(sys, op) == map[]
    ensures !op.SwapOut? ==> SwapOutOf(sys, op) == map[]
  {
  }

  lemma RestFits(sys: System, family: Families, done: set<nat>, ops: seq<Op>)
    requires SysInv(sys) && FamiliesApart(sys.m.tables, family) && OneStep(sys, family, done, ops) && ops != []
    ensures var sys1 := Step(sys, ops[0]);
      && MapFits(SwapIns(sys1, ops[1..]), Cpu, Gpu, sys.store.Keys)
      && MapFits(SwapOuts(sys1, ops[1..]), Gpu, Cpu, sys.store.Keys)
  {
    hide SysInv, Admitted, StepOp, FamiliesApart, Advances, Demands, Step, Handled, MapFits, CopiesApart, Copies,
         SwapIns, SwapOuts;
    OpKeepsApart(sys, family, done, ops[0]);
    NextApart(sys, family, done, ops[0]);
    KeysStay(sys, ops[0]);
    StepDemandsFit(Step(sys, ops[0]), family, Handled(sys.m.tables, family, done, ops[0]), ops[1..]);
  }

  lemma {:induction false} StepDeferred(sys: System, family: Families, done: set<nat>, ops: seq<Op>)
    requires SysInv(sys) && FamiliesApart(sys.m.tables, family) && OneStep(sys, family, done, ops)
    requires SwapIns(sys, ops) == map[] || SwapOuts(sys, ops) == map[]
    ensures AdmittedRun(sys, ops)
    ensures Run(sys, ops).store == CacheSwap(sys.store, SwapIns(sys, ops), SwapOuts(sys, ops), Copies(sys, ops))
    decreases |ops|
  {
    hide SysInv, Admitted, StepOp, FamiliesApart, Advances, Demands, Step, Handled, CacheSwap, SwapInOf, SwapOutOf,
         CopyOf;
    if ops == [] {
      NothingDeferred(sys.store);
    } else {
      var op, rest := ops[0], ops[1..];
      OpKeepsApart(sys, family, done, op);
      NextApart(sys, family, done, op);
      StepUnfolds(sys, family, done, ops);
      NoneAsked(SwapInOf(sys, op), SwapIns(Step(sys, op), rest));
      NoneAsked(SwapOutOf(sys, op), SwapOuts(Step(sys, op), rest));
      StepDeferred(Step(sys, op), family, Handled(sys.m.tables, family, done, op), rest);
    }
  }

  lemma NoneAsked(a: map<nat, nat>, b: map<nat, nat>)
    ensures a + b == map[] ==> a == map[] && b == map[]
  {
    if a + b == map[] {
      assert forall n :: n in a ==> n in a + b;
      assert forall n :: n in b ==> n in a + b;
    }
  }

  lemma NothingDeferred(store: Store)
    ensures CacheSwap(store, map[], map[], []) == store
  {
    AcrossNothing(store, Cpu, Gpu);
    AcrossNothing(store, Gpu, Cpu);
  }

  /** A whole step: where it does not swap both ways, the worker's two passes, with the copies in
      whatever order, leave the cache as if each copy had been made at once, so every sequence
      that is still there reads what it read before. */
  lemma StepAsWorker(sys: System, family: Families, ops: seq<Op>, other: seq<(nat, nat)>)
    requires SysInv(sys) && FamiliesApart(sys.m.tables, family) && OneStep(sys, family, {}, ops)
    requires SwapIns(sys, ops) == map[] || SwapOuts(sys, ops) == map[]
    requires NoDup(other) && Elements(other) == Elements(Copies(sys, ops))
    ensures var sys1 := Run(sys, ops);
      && sys1.store == CacheSwap(sys.store, SwapIns(sys, ops), SwapOuts(sys, ops), other)
      && SysInv(sys1) && forall id :: id in View(sys1) ==> id in View(sys) && View(sys1)[id] == View(sys)[id]
  {
    hide SysInv, FamiliesApart, OneStep, SwapIns, SwapOuts, Copies, CopiesApart, CopyAcross, View, MapFits, Run,
         AdmittedRun;
    StepDeferred(sys, family, {}, ops);
    StepDemandsFit(sys, family, {}, ops);
    var store2 := CopyAcross(CopyAcross(sys.store, SwapIns(sys, ops), Cpu, Gpu), SwapOuts(sys, ops), Gpu, Cpu);
    AcrossKeys(sys.store, SwapIns(sys, ops), Cpu, Gpu);
    AcrossKeys(CopyAcross(sys.store, SwapIns(sys, ops), Cpu, Gpu), SwapOuts(sys, ops), Gpu, Cpu);
    CopyOrderIrrelevant(store2, Copies(sys, ops), other);
    RunRefinesHistories(sys, ops);
    StepKeepsHistories(sys, family, {}, ops, View(sys));
  }

  lemma {:induction false} StepKeepsHistories(sys: System, family: Families, done: set<nat>, ops: seq<Op>,
                                              h: map<nat, seq<Token>>)
    requires OneStep(sys, family, done, ops)
    ensures forall id :: id in HistRun(h, ops) ==> id in h && HistRun(h, ops)[id] == h[id]
    decreases |ops|
  {
    hide Admitted, Step, Handled;
    if ops != [] {
      StepKeepsHistories(Step(sys, ops[0]), family, Handled(sys.m.tables, family, done, ops[0]), ops[1..],
                         HistStep(h, ops[0]));
    }
  }

  // ---------------------------------------------------------------- groups over whole runs

  /** Sequences come to share blocks within a group only. */
  ghost predicate WithinGroup(family: Families, op: Op) {
    match op
    case Allocate(g, _) =>
      forall s, t :: s in IdsWith(g, Waiting) && t in IdsWith(g, Waiting) ==> family(s) == family(t)
    case Fork(parent, child) => family(child) == family(parent)
    case _ => true
  }

  lemma AllocateApart(sys: System, family: Families, g: Group, prompt: seq<Token>)
    requires SysInv(sys) && FamiliesApart(sys.m.tables, family)
    requires Admitted(sys, Allocate(g, prompt)) && WithinGroup(family, Allocate(g, prompt))
    ensures FamiliesApart(Step(sys, Allocate(g, prompt)).m.tables, family)
  {
    hide SysInv, BlockState.Allocate, CanAllocate, Prefill, ReadTable, IdsWith, StoreOk, Inv;
    var table := AllocatedFacts(sys, g, prompt);
    var ids := IdsWith(g, Waiting);
    assert forall s :: s in Elements(ids) ==> s in ids;
  }

  lemma ForkApart(sys: System, family: Families, parent: nat, child: nat)
    requires SysInv(sys) && FamiliesApart(sys.m.tables, family)
    requires Admitted(sys, Fork(parent, child)) && WithinGroup(family, Fork(parent, child))
    ensures FamiliesApart(Step(sys, Fork(parent, child)).m.tables, family)
  {
    hide Inv, BlockState.Fork, Homed;
    ShapesHomed(sys);
    ForkKeepsInv(sys.m, parent, child);
  }

  lemma StepKeepsFamilies(sys: System, family: Families, op: Op)
    requires SysInv(sys) && FamiliesApart(sys.m.tables, family) && Admitted(sys, op) && WithinGroup(family, op)
    ensures FamiliesApart(Step(sys, op).m.tables, family)
  {
    hide SysInv, Admitted, FamiliesApart, SlotChange, TablesReplaced, NumberMoved, FreeSeq, BlockState.SwapIn,
         BlockState.SwapOut, BlockState.Allocate, BlockState.Fork, AppendSlots, WithinGroup;
    match op
    case Allocate(g, prompt) => AllocateApart(sys, family, g, prompt);
    case Fork(parent, child) => ForkApart(sys, family, parent, child);
    case AppendSlot(id, needed) =>
      AppendChanges(sys, id, needed);
      SlotApart(sys.m.tables, Step(sys, op).m.tables, family, id, CopyOf(sys, op));
    case SwapOut(g) =>
      SwapOutChanges(sys, g);
      SwapApart(sys.m.tables, Step(sys, op).m.tables, family, Moved(op));
    case SwapIn(g) =>
      SwapInChanges(sys, g);
      SwapApart(sys.m.tables, Step(sys, op).m.tables, family, Moved(op));
    case Free(id) =>
      FreeTables(sys, id);
      FreeApart(sys.m.tables, family, id);
    case Write(_, _) =>
  }

  lemma FreeApart(tables: map<nat, Table>, family: Families, id: nat)
    requires FamiliesApart(tables, family)
    ensures FamiliesApart(tables - {id}, family)
  {
  }

  /** From the empty cache on, groups stay apart as long as sequences are allocated together and
      forked within one group only. */
  lemma {:induction false} RunKeepsFamilies(sys: System, family: Families, ops: seq<Op>)
    requires SysInv(sys) && FamiliesApart(sys.m.tables, family) && AdmittedRun(sys, ops)
    requires forall op :: op in ops ==> WithinGroup(family, op)
    ensures FamiliesApart(Run(sys, ops).m.tables, family)
    decreases |ops|
  {
    hide SysInv, Admitted, FamiliesApart, Step, HistStep, View, WithinGroup;
    if ops != [] {
      assert ops == [ops[0]] + ops[1..];
      StepSim(sys, ops[0]);
      StepKeepsFamilies(sys, family, ops[0]);
      RunKeepsFamilies(Step(sys, ops[0]), family, ops[1..]);
    }
  }
}
