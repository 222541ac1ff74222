/** The paged cache over whole runs.

    A system is the block manager together with the cache contents, which the model executor
    copies and writes as the manager tells it to.  Read through the block tables, it behaves
    as if every sequence had a private history of tokens. */
module PagedMemory {
  import opened Common
  import opened Arithmetic
  import opened BlockState
  import opened RefCounts
  import opened Allocation
  import opened Sharing
  import opened Swapping
  import opened Appending

  /** What the cache keeps for one position of a sequence. */
  datatype Token = Token(value: nat)

  type Pos = n: nat | n > 0 witness 1

  type Store = map<Block, seq<Token>>

  datatype System = System(
    m: State,
    blockSize: Pos,
    numGpu: nat,
    numCpu: nat,
    store: Store,
    len: map<nat, nat>,     // tokens stored, per sequence
    swapped: set<nat>,      // sequences whose blocks are on the CPU
    pending: set<nat>)      // sequences with a slot for a token not yet written

  /** One operation of the manager together with the copies or writes that go with it. */
  datatype Op =
    | Allocate(g: Group, prompt: seq<Token>)   // then the prompt is computed
    | AppendSlot(id: nat, needed: nat)         // then the returned copy is made
    | Write(id: nat, token: Token)             // the model writes the last slot
    | Fork(parent: nat, child: nat)
    | SwapOut(g: Group)                        // then the mapped blocks are copied
    | SwapIn(g: Group)
    | Free(id: nat)

  // ---------------------------------------------------------------- private histories

  /** The simple machine: a private token history for every sequence, and no blocks. */
  function HistStep(h: map<nat, seq<Token>>, op: Op): map<nat, seq<Token>> {
    match op
    case Allocate(g, prompt) => h + (map s | s in Elements(IdsWith(g, Waiting)) :: prompt)
    case AppendSlot(_, _) => h
    case Write(id, token) => if id in h then h[id := h[id] + [token]] else h
    case Fork(parent, child) => if parent in h then h[child := h[parent]] else h
    case SwapOut(_) => h
    case SwapIn(_) => h
    case Free(id) => h - {id}
  }

  function HistRun(h: map<nat, seq<Token>>, ops: seq<Op>): map<nat, seq<Token>>
    decreases |ops|
  {
    if ops == [] then h else HistRun(HistStep(h, ops[0]), ops[1..])
  }

  // ---------------------------------------------------------------- the paged machine

  /** The token at position `p` of a sequence with the given block table. */
  function Cell(store: Store, blockSize: Pos, table: Table, p: nat): Token {
    var i := p / blockSize;
    if i < |table| && table[i] in store && p % blockSize < |store[table[i]]| then store[table[i]][p % blockSize]
    else Token(0)
  }

  function ReadTable(store: Store, blockSize: Pos, table: Table, n: nat): (h: seq<Token>)
    ensures |h| == n
  {
    seq(n, p requires 0 <= p < n => Cell(store, blockSize, table, p))
  }

  function Length(sys: System, id: nat): nat {
    if id in sys.len then sys.len[id] else 0
  }

  /** What every sequence reads through its block table. */
  function View(sys: System): map<nat, seq<Token>> {
    map id | id in sys.m.tables :: ReadTable(sys.store, sys.blockSize, sys.m.tables[id], Length(sys, id))
  }

  /** The blocks of a table after the prompt has been written to them. */
  function Prefill(store: Store, blockSize: Pos, table: Table, prompt: seq<Token>): Store
    decreases |table|
  {
    if table == [] || prompt == [] then store
    else
      var b := table[0];
      var n := if |prompt| < blockSize then |prompt| else blockSize;
      var was := if b in store then store[b] else [];
      Prefill(store[b := prompt[..n] + (if n <= |was| then was[n..] else [])],
              blockSize, table[1..], prompt[n..])
  }

  function CopyBlock(store: Store, src: Block, dst: Block): Store {
    if src in store then store[dst := store[src]] else store
  }

  /** Every block of `dst` that the mapping names gets the contents of its source. */
  ghost function CopyAcross(store: Store, numbers: map<nat, nat>, src: Device, dst: Device): Store {
    map b | b in store ::
      if b.device == dst && exists n :: n in numbers && numbers[n] == b.number && Block(src, n) in store then
        var n :| n in numbers && numbers[n] == b.number && Block(src, n) in store;
        store[Block(src, n)]
      else store[b]
  }

  /** Writes the next token of a sequence. */
  function WriteNext(sys: System, id: nat, token: Token): Store {
    var n := Length(sys, id);
    var i := n / sys.blockSize;
    if id in sys.m.tables && i < |sys.m.tables[id]| && sys.m.tables[id][i] in sys.store
       && n % sys.blockSize < |sys.store[sys.m.tables[id][i]]| then
      var b := sys.m.tables[id][i];
      sys.store[b := sys.store[b][n % sys.blockSize := token]]
    else sys.store
  }

  /** The members of a group that have the given status and a table. */
  function Members(m: State, g: Group, status: Status): set<nat> {
    set id | id in IdsWith(g, status) && id in m.tables
  }

  ghost function Step(sys: System, op: Op): System {
    match op
    case Allocate(g, prompt) =>
      var (m1, r) := BlockState.Allocate(sys.m, None, g);
      var ids := IdsWith(g, Waiting);
      var table := if ids != [] && ids[0] in m1.tables then m1.tables[ids[0]] else [];
      sys.(m := m1, store := Prefill(sys.store, sys.blockSize, table, prompt),
           len := sys.len + (map s | s in Elements(ids) :: |prompt|))
    case AppendSlot(id, needed) =>
      var (m1, r) := AppendSlots(sys.m, None, id, needed);
      sys.(m := m1,
           store := if r.Ok? && r.value.Some?
                    then CopyBlock(sys.store, Block(Gpu, r.value.value.0), Block(Gpu, r.value.value.1))
                    else sys.store,
           pending := sys.pending + {id})
    case Write(id, token) =>
      sys.(store := WriteNext(sys, id, token), len := sys.len[id := Length(sys, id) + 1],
           pending := sys.pending - {id})
    case Fork(parent, child) =>
      var (m1, r) := BlockState.Fork(sys.m, parent, child);
      sys.(m := m1, len := sys.len[child := Length(sys, parent)],
           swapped := sys.swapped + if parent in sys.swapped then {child} else {})
    case SwapOut(g) =>
      var (m1, g1, r) := BlockState.SwapOut(sys.m, g);
      sys.(m := m1, store := if r.Ok? then CopyAcross(sys.store, r.value, Gpu, Cpu) else sys.store,
           swapped := sys.swapped + Members(sys.m, g, Running))
    case SwapIn(g) =>
      var (m1, g1, r) := BlockState.SwapIn(sys.m, g);
      sys.(m := m1, store := if r.Ok? then CopyAcross(sys.store, r.value, Cpu, Gpu) else sys.store,
           swapped := sys.swapped - Members(sys.m, g, Swapped))
    case Free(id) =>
      var (m1, r) := FreeSeq(sys.m, None, id);
      sys.(m := m1, len := sys.len - {id}, swapped := sys.swapped - {id}, pending := sys.pending - {id})
  }

  ghost function Run(sys: System, ops: seq<Op>): System
    decreases |ops|
  {
    if ops == [] then sys else Run(Step(sys, ops[0]), ops[1..])
  }

  function Start(blockSize: Pos, numGpu: nat, numCpu: nat): System {
    System(Initial(numGpu, numCpu), blockSize, numGpu, numCpu,
           map b | b in Universe(numGpu, numCpu) :: seq(blockSize, _ => Token(0)), map[], {}, {})
  }

  // ---------------------------------------------------------------- admission and invariant

  /** The statuses in a group agree with where its sequences are. */
  ghost predicate Faithful(sys: System, g: Group) {
    && DistinctIds(g)
    && forall s :: s in g && s.id in sys.m.tables ==>
         (s.status == Running ==> s.id !in sys.swapped) && (s.status == Swapped ==> s.id in sys.swapped)
  }

  /** What the scheduler checks before each operation: the matching `can_*` question, fresh
      ids, and that no sequence with an unwritten slot is shared or moved. */
  ghost predicate Admitted(sys: System, op: Op) {
    match op
    case Allocate(g, prompt) =>
      && DistinctIds(g) && Elements(IdsWith(g, Waiting)) !! sys.m.tables.Keys
      && SharedPrompt(g, CeilDiv(|prompt|, sys.blockSize))
      && CanAllocate(sys.m, None, sys.numGpu, g) == CanNow
    case AppendSlot(id, needed) =>
      && id in sys.m.tables && id !in sys.swapped && id !in sys.pending
      && needed == CeilDiv(Length(sys, id) + 1, sys.blockSize) && sys.m.gpuFree != []
    case Write(id, _) => id in sys.pending
    case Fork(parent, child) => parent in sys.m.tables && parent !in sys.pending && child !in sys.m.tables
    case SwapOut(g) => Faithful(sys, g) && CanSwapOut(sys.m, g) && Elements(IdsWith(g, Running)) !! sys.pending
    case SwapIn(g) => Faithful(sys, g) && CanSwapIn(sys.m, sys.numGpu, g) == CanNow
    case Free(_) => true
  }

  ghost predicate AdmittedRun(sys: System, ops: seq<Op>)
    decreases |ops|
  {
    ops != [] ==> Admitted(sys, ops[0]) && AdmittedRun(Step(sys, ops[0]), ops[1..])
  }

  /** No other table holds the last block of `id`. */
  ghost predicate LastIsPrivate(tables: map<nat, Table>, id: nat) {
    && id in tables && tables[id] != []
    && forall t :: t in tables && t != id ==> Last(tables[id]) !in tables[t]
  }

  ghost predicate StoreOk(sys: System) {
    && sys.store.Keys == sys.m.rc.Keys == Universe(sys.numGpu, sys.numCpu)
    && forall b :: b in sys.store ==> |sys.store[b]| == sys.blockSize
  }

  /** Sizes and places of the tables. */
  ghost predicate TableShape(sys: System, id: nat)
    requires id in sys.m.tables
  {
    && OnDevice(sys.m.tables[id], if id in sys.swapped then Cpu else Gpu)
    && |sys.m.tables[id]| == CeilDiv(Length(sys, id) + (if id in sys.pending then 1 else 0), sys.blockSize)
  }

  ghost predicate ShapesOk(sys: System) {
    && sys.len.Keys == sys.m.tables.Keys && sys.pending <= sys.m.tables.Keys
    && sys.swapped <= sys.m.tables.Keys && sys.pending !! sys.swapped
    && (forall id :: id in sys.m.tables ==> TableShape(sys, id))
    && (forall id :: id in sys.pending ==> LastIsPrivate(sys.m.tables, id))
  }

  ghost predicate SysInv(sys: System) {
    Inv(sys.m) && StoreOk(sys) && ShapesOk(sys)
  }

  /** The step keeps the invariant, and changes what is read as the simple machine says. */
  ghost predicate Simulates(sys: System, op: Op) {
    SysInv(Step(sys, op)) && View(Step(sys, op)) == HistStep(View(sys), op)
  }

  /** The part of the above that concerns one sequence. */
  ghost predicate SeqSimulates(sys: System, op: Op, id: nat) {
    var sys1 := Step(sys, op);
    && id in sys1.m.tables && TableShape(sys1, id)
    && (id in sys1.pending ==> LastIsPrivate(sys1.m.tables, id))
    && id in HistStep(View(sys), op) && View(sys1)[id] == HistStep(View(sys), op)[id]
  }

  lemma Assemble(sys: System, op: Op)
    requires var sys1 := Step(sys, op);
      && Inv(sys1.m) && StoreOk(sys1)
      && sys1.len.Keys == sys1.m.tables.Keys && sys1.pending <= sys1.m.tables.Keys
      && sys1.swapped <= sys1.m.tables.Keys && sys1.pending !! sys1.swapped
      && HistStep(View(sys), op).Keys == sys1.m.tables.Keys
      && forall id :: id in sys1.m.tables ==> SeqSimulates(sys, op, id)
    ensures Simulates(sys, op)
  {
    hide Inv, StoreOk, Step, HistStep, TableShape, LastIsPrivate, ReadTable;
    var sys1 := Step(sys, op);
    forall id | id in sys1.m.tables
      ensures TableShape(sys1, id) && (id in sys1.pending ==> LastIsPrivate(sys1.m.tables, id))
      ensures View(sys1)[id] == HistStep(View(sys), op)[id]
    {
      assert SeqSimulates(sys, op, id);
    }
    assert View(sys1) == HistStep(View(sys), op);
  }

  // ---------------------------------------------------------------- reading

  /** Two tables read the same if their blocks have the same contents, place by place. */
  lemma ReadCongruent(store: Store, table: Table, store1: Store, table1: Table, d: Pos, n: nat)
    requires n <= |table| * d && |table| <= |table1|
    requires forall i :: 0 <= i < |table| ==>
      table[i] in store && table1[i] in store1 && store1[table1[i]] == store[table[i]]
    ensures ReadTable(store1, d, table1, n) == ReadTable(store, d, table, n)
  {
    forall p | 0 <= p < n
      ensures Cell(store1, d, table1, p) == Cell(store, d, table, p)
    {
      DivLess(p, |table|, d);
    }
  }

  /** A table reads as its first block followed by the rest. */
  lemma ReadSplit(store: Store, d: Pos, table: Table, h: seq<Token>)
    requires table != [] && table[0] in store && |store[table[0]]| == d
    requires var n := if |h| < d then |h| else d;
      store[table[0]][..n] == h[..n] && ReadTable(store, d, table[1..], |h| - n) == h[n..]
    ensures ReadTable(store, d, table, |h|) == h
  {
    hide Cell;
    var n := if |h| < d then |h| else d;
    forall p | 0 <= p < |h|
      ensures Cell(store, d, table, p) == h[p]
    {
      if p < d {
        CellHead(store, d, table, p);
        assert store[table[0]][..n][p] == h[..n][p];
      } else {
        CellTail(store, d, table, p);
        assert ReadTable(store, d, table[1..], |h| - n)[p - d] == h[n..][p - d];
      }
    }
  }

  lemma CellHead(store: Store, d: Pos, table: Table, p: nat)
    requires table != [] && table[0] in store && |store[table[0]]| == d && p < d
    ensures Cell(store, d, table, p) == store[table[0]][p]
  {
    DivUnique(p, d, 0);
  }

  lemma CellTail(store: Store, d: Pos, table: Table, p: nat)
    requires table != [] && p >= d
    ensures Cell(store, d, table, p) == Cell(store, d, table[1..], p - d)
  {
    DivShift(p, d);
  }

  lemma PrefillHead(store: Store, d: Pos, table: Table, prompt: seq<Token>)
    requires table != [] && table[0] in store && |store[table[0]]| == d && |prompt| <= |table| * d
    ensures var n := if |prompt| < d then |prompt| else d;
      var cells := prompt[..n] + store[table[0]][n..];
      && |cells| == d && cells[..n] == prompt[..n] && |prompt[n..]| <= |table[1..]| * d
  {
  }

  /** Computing the prompt fills the blocks of the table with it, and touches no other block. */
  lemma {:induction false} PrefillReads(store: Store, d: Pos, table: Table, prompt: seq<Token>)
    requires NoDup(table) && |prompt| <= |table| * d
    requires forall b :: b in table ==> b in store
    requires forall b :: b in store ==> |store[b]| == d
    ensures var store1 := Prefill(store, d, table, prompt);
      && store1.Keys == store.Keys && (forall b :: b in store1 ==> |store1[b]| == d)
      && (forall b :: b in store && b !in table ==> store1[b] == store[b])
      && ReadTable(store1, d, table, |prompt|) == prompt
    decreases |table|
  {
    if table == [] || prompt == [] {
    } else {
      var b := table[0];
      var n := if |prompt| < d then |prompt| else d;
      PrefillHead(store, d, table, prompt);
      var filled := store[b := prompt[..n] + store[b][n..]];
      assert table == [b] + table[1..];
      hide ReadTable;
      PrefillReads(filled, d, table[1..], prompt[n..]);
      ReadSplit(Prefill(store, d, table, prompt), d, table, prompt);
    }
  }

  // ---------------------------------------------------------------- sequences not concerned

  /** The blocks of `table` have the same contents in both stores. */
  ghost predicate Untouched(store: Store, store1: Store, table: Table) {
    forall b :: b in table ==> b in store && b in store1 && store1[b] == store[b]
  }

  /** A sequence whose table, length and blocks are untouched keeps its shape and its reading. */
  lemma KeepsReading(sys: System, sys1: System, id: nat)
    requires SysInv(sys) && id in sys.m.tables && id in sys1.m.tables
    requires sys1.m.tables[id] == sys.m.tables[id] && sys1.blockSize == sys.blockSize
    requires Length(sys1, id) == Length(sys, id)
    requires (id in sys1.swapped <==> id in sys.swapped) && (id in sys1.pending <==> id in sys.pending)
    requires Untouched(sys.store, sys1.store, sys.m.tables[id])
    ensures TableShape(sys1, id)
    ensures ReadTable(sys1.store, sys1.blockSize, sys1.m.tables[id], Length(sys1, id))
         == ReadTable(sys.store, sys.blockSize, sys.m.tables[id], Length(sys, id))
  {
    hide Inv;
    assert TableShape(sys, id);
    Fits(sys, id);
    ReadCongruent(sys.store, sys.m.tables[id], sys1.store, sys1.m.tables[id], sys.blockSize, Length(sys, id));
  }

  /** The stored tokens fit in the blocks of the table. */
  lemma Fits(sys: System, id: nat)
    requires id in sys.m.tables && TableShape(sys, id)
    ensures Length(sys, id) <= |sys.m.tables[id]| * sys.blockSize
  {
  }

  /** Every table of `sys` is made of blocks of the store. */
  lemma InStore(sys: System, id: nat)
    requires SysInv(sys) && id in sys.m.tables
    ensures forall b :: b in sys.m.tables[id] ==> b in sys.store && b in sys.m.rc
  {
  }

  /** A block with count zero is in no table. */
  lemma UncountedIsUnheld(m: State, b: Block)
    requires Inv(m) && b in m.rc && m.rc[b] == 0
    ensures forall t :: t in m.tables ==> b !in m.tables[t]
  {
    NoHolders(m.tables, b);
  }

  // ---------------------------------------------------------------- write

  /** The block that the next token of `id` is written to, when its slot is pending. */
  lemma WriteSlot(sys: System, id: nat)
    requires SysInv(sys) && id in sys.pending
    ensures var table := sys.m.tables[id];
      var i := Length(sys, id) / sys.blockSize;
      && id in sys.m.tables && id !in sys.swapped && |table| == i + 1 && NoDup(table) && table[i] == Last(table)
      && (forall b :: b in table ==> b in sys.store)
      && (forall t :: t in sys.m.tables && t != id ==> table[i] !in sys.m.tables[t])
  {
    assert TableShape(sys, id) && LastIsPrivate(sys.m.tables, id);
    CeilDivNext(Length(sys, id), sys.blockSize);
    InStore(sys, id);
    assert TablesOk(sys.m);
  }

  lemma WriteOther(sys: System, id: nat, token: Token, t: nat)
    requires SysInv(sys) && id in sys.pending && t in sys.m.tables && t != id
    ensures SeqSimulates(sys, Write(id, token), t)
  {
    WriteSlot(sys, id);
    InStore(sys, t);
    hide Inv;
    KeepsReading(sys, Step(sys, Write(id, token)), t);
  }

  lemma WriteKeepsStore(sys: System, id: nat, token: Token)
    requires SysInv(sys) && id in sys.pending
    ensures StoreOk(Step(sys, Write(id, token)))
  {
    hide Inv;
    assert WriteNext(sys, id, token).Keys == sys.store.Keys;
  }

  lemma WriteOwn(sys: System, id: nat, token: Token)
    requires SysInv(sys) && id in sys.pending
    ensures SeqSimulates(sys, Write(id, token), id)
  {
    WriteSlot(sys, id);
    hide Inv, StoreOk;
    assert TableShape(sys, id);
    WriteReads(sys.store, sys.blockSize, sys.m.tables[id], Length(sys, id), token);
  }

  lemma WriteSim(sys: System, id: nat, token: Token)
    requires SysInv(sys) && Admitted(sys, Write(id, token))
    ensures Simulates(sys, Write(id, token))
  {
    hide Inv, StoreOk, TableShape, LastIsPrivate, WriteNext, SeqSimulates, ReadTable, Simulates;
    WriteKeepsStore(sys, id, token);
    WriteOwn(sys, id, token);
    forall t | t in sys.m.tables && t != id
      ensures SeqSimulates(sys, Write(id, token), t)
    {
      WriteOther(sys, id, token, t);
    }
    Assemble(sys, Write(id, token));
  }

  /** Writing the slot after the last token appends that token to what is read. */
  lemma WriteReads(store: Store, d: Pos, table: Table, n: nat, token: Token)
    requires |table| == n / d + 1 && NoDup(table)
    requires forall b :: b in table ==> b in store && |store[b]| == d
    ensures var b := table[n / d];
      ReadTable(store[b := store[b][n % d := token]], d, table, n + 1) == ReadTable(store, d, table, n) + [token]
  {
  }

  // ---------------------------------------------------------------- append_slots

  lemma AppendReady(sys: System, id: nat, needed: nat)
    requires SysInv(sys) && Admitted(sys, AppendSlot(id, needed))
    ensures var (m1, r) := AppendSlots(sys.m, None, id, needed);
      && r.Ok? && Inv(m1) && Appended(sys.m, m1, id, needed, r.value)
      && |sys.m.tables[id]| <= needed && sys.m.Count(Last(m1.tables[id])) <= 1
      && LastIsPrivate(m1.tables, id)
  {
    hide Inv;
    assert TableShape(sys, id);
    CeilDivNext(Length(sys, id), sys.blockSize);
    AppendExact(sys.m, id, needed);
    var (m1, r) := AppendSlots(sys.m, None, id, needed);
    OwnLast(m1, id);
  }

  lemma OwnLast(m: State, id: nat)
    requires Inv(m) && id in m.tables && m.tables[id] != [] && m.Count(Last(m.tables[id])) == 1
    ensures LastIsPrivate(m.tables, id)
  {
    var b := Last(m.tables[id]);
    assert b in m.tables[id];
    HeldIsCounted(m, id, b);
    forall t | t in m.tables && t != id
      ensures b !in m.tables[t]
    {
      if b in m.tables[t] {
        SoleHolder(m.tables, b, id, t);
      }
    }
  }

  /** The store after a copy differs only in a block that no table held. */
  lemma AppendStore(sys: System, id: nat, needed: nat)
    requires SysInv(sys) && Admitted(sys, AppendSlot(id, needed))
    ensures var sys1 := Step(sys, AppendSlot(id, needed));
      StoreOk(sys1) && forall t :: t in sys.m.tables ==> Untouched(sys.store, sys1.store, sys.m.tables[t])
  {
    hide Inv, SysInv, AppendSlots, LastIsPrivate, ShapesOk, CopyBlock, Admitted;
    AppendReady(sys, id, needed);
    var (m1, r) := AppendSlots(sys.m, None, id, needed);
    CopyStore(sys, m1, id, needed, r.value);
    forall t | t in sys.m.tables
      ensures forall b :: b in sys.m.tables[t] ==> b in sys.store
    {
      InStore(sys, t);
    }
  }

  lemma CopyStore(sys: System, m1: State, id: nat, needed: nat, copy: Option<(nat, nat)>)
    requires SysInv(sys) && id in sys.m.tables && Appended(sys.m, m1, id, needed, copy)
    ensures
      var store1 :=
        if copy.Some? then CopyBlock(sys.store, Block(Gpu, copy.value.0), Block(Gpu, copy.value.1)) else sys.store;
      && StoreOk(sys.(m := m1, store := store1))
      && forall t :: t in sys.m.tables ==> Untouched(sys.store, store1, sys.m.tables[t])
  {
    hide Inv, ShapesOk;
    if copy.Some? {
      UncountedIsUnheld(sys.m, Last(m1.tables[id]));
      assert Last(sys.m.tables[id]) in sys.m.tables[id];
      InStore(sys, id);
    }
    forall t | t in sys.m.tables
      ensures forall b :: b in sys.m.tables[t] ==> b in sys.store
    {
      InStore(sys, t);
    }
  }

  /** Place by place, the new table holds what the old one held. */
  lemma AppendContents(m: State, m1: State, id: nat, needed: nat, copy: Option<(nat, nat)>, store: Store)
    requires Appended(m, m1, id, needed, copy)
    requires forall b :: b in m.tables[id] ==> b in store && (b == Last(m1.tables[id]) ==> m.Count(b) == 1)
    ensures
      var store1 :=
        if copy.Some? then CopyBlock(store, Block(Gpu, copy.value.0), Block(Gpu, copy.value.1)) else store;
      var table := m.tables[id];
      forall i :: 0 <= i < |table| ==>
        table[i] in store && m1.tables[id][i] in store1 && store1[m1.tables[id][i]] == store[table[i]]
  {
    var table := m.tables[id];
    assert forall i :: 0 <= i < |table| ==> table[i] in table;
    if copy.Some? {
      assert m.Count(Last(m1.tables[id])) == 0;
    }
  }

  lemma AppendOwn(sys: System, id: nat, needed: nat)
    requires SysInv(sys) && Admitted(sys, AppendSlot(id, needed))
    ensures SeqSimulates(sys, AppendSlot(id, needed), id)
  {
    hide Inv, StoreOk, AppendSlots, LastIsPrivate, CopyBlock, ShapesOk;
    AppendReady(sys, id, needed);
    var (m1, r) := AppendSlots(sys.m, None, id, needed);
    SlotInTable(sys.m, m1, id, needed, r.value);
    InStore(sys, id);
    AppendContents(sys.m, m1, id, needed, r.value, sys.store);
    var sys1 := Step(sys, AppendSlot(id, needed));
    ShapeOf(sys, id);
    Fits(sys, id);
    ReadCongruent(sys.store, sys.m.tables[id], sys1.store, sys1.m.tables[id], sys.blockSize, Length(sys, id));
  }

  lemma ShapeOf(sys: System, id: nat)
    requires ShapesOk(sys) && id in sys.m.tables
    ensures TableShape(sys, id)
  {
  }

  /** The slot's block was in the table only if it was private already. */
  lemma SlotInTable(m: State, m1: State, id: nat, needed: nat, copy: Option<(nat, nat)>)
    requires Inv(m) && Appended(m, m1, id, needed, copy)
    ensures Last(m1.tables[id]) in m.tables[id] ==> m.Count(Last(m1.tables[id])) == 1
  {
    hide Inv;
    if Last(m1.tables[id]) in m.tables[id] {
      HeldIsCounted(m, id, Last(m1.tables[id]));
    }
  }

  lemma AppendOther(sys: System, id: nat, needed: nat, t: nat)
    requires SysInv(sys) && Admitted(sys, AppendSlot(id, needed)) && t in sys.m.tables && t != id
    ensures SeqSimulates(sys, AppendSlot(id, needed), t)
  {
    AppendReady(sys, id, needed);
    AppendStore(sys, id, needed);
    hide Inv, AppendSlots;
    var sys1 := Step(sys, AppendSlot(id, needed));
    KeepsReading(sys, sys1, t);
    if t in sys.pending {
      StillPrivate(sys.m, sys1.m, id, needed, AppendSlots(sys.m, None, id, needed).1.value, t);
    }
  }

  lemma StillPrivate(m: State, m1: State, id: nat, needed: nat, copy: Option<(nat, nat)>, t: nat)
    requires Inv(m) && Appended(m, m1, id, needed, copy) && t != id && LastIsPrivate(m.tables, t)
    ensures LastIsPrivate(m1.tables, t)
  {
    hide Inv;
    var slot := Last(m1.tables[id]);
    if copy.Some? || |m.tables[id]| < needed {
      UncountedIsUnheld(m, slot);
      assert Last(m.tables[t]) in m.tables[t];
    }
    forall b | b in m1.tables[id] && b != slot
      ensures b in m.tables[id]
    {
    }
  }

  lemma AppendSlotSim(sys: System, id: nat, needed: nat)
    requires SysInv(sys) && Admitted(sys, AppendSlot(id, needed))
    ensures Simulates(sys, AppendSlot(id, needed))
  {
    hide Inv, StoreOk, TableShape, LastIsPrivate, AppendSlots, CopyBlock, Untouched, SeqSimulates, ReadTable, Simulates;
    AppendReady(sys, id, needed);
    AppendStore(sys, id, needed);
    AppendOwn(sys, id, needed);
    forall t | t in sys.m.tables && t != id
      ensures SeqSimulates(sys, AppendSlot(id, needed), t)
    {
      AppendOther(sys, id, needed, t);
    }
    var sys1 := Step(sys, AppendSlot(id, needed));
    AppendedTables(sys.m, sys1.m, id, needed, AppendSlots(sys.m, None, id, needed).1.value);
    Assemble(sys, AppendSlot(id, needed));
  }

  // ---------------------------------------------------------------- fork and free

  lemma ShapesHomed(sys: System)
    requires ShapesOk(sys)
    ensures Homed(sys.m.tables)
  {
  }

  lemma ForkSeq(sys: System, parent: nat, child: nat, t: nat)
    requires SysInv(sys) && Admitted(sys, Fork(parent, child)) && (t == child || t in sys.m.tables)
    requires Step(sys, Fork(parent, child)).m.tables == sys.m.tables[child := sys.m.tables[parent]]
    ensures SeqSimulates(sys, Fork(parent, child), t)
  {
    hide Inv, StoreOk, BlockState.Fork, CeilDiv, OnDevice, ReadTable;
  }

  lemma ForkSim(sys: System, parent: nat, child: nat)
    requires SysInv(sys) && Admitted(sys, Fork(parent, child))
    ensures Simulates(sys, Fork(parent, child))
  {
    ShapesHomed(sys);
    hide Inv, StoreOk, BlockState.Fork, SeqSimulates, TableShape, LastIsPrivate, ReadTable, Simulates, Homed;
    ForkKeepsInv(sys.m, parent, child);
    var sys1 := Step(sys, Fork(parent, child));
    forall t | t in sys1.m.tables
      ensures SeqSimulates(sys, Fork(parent, child), t)
    {
      ForkSeq(sys, parent, child, t);
    }
    SameStore(sys, sys1);
    Assemble(sys, Fork(parent, child));
  }

  lemma SameStore(sys: System, sys1: System)
    requires StoreOk(sys) && sys1.store == sys.store && sys1.m.rc.Keys == sys.m.rc.Keys
    requires sys1.blockSize == sys.blockSize && sys1.numGpu == sys.numGpu && sys1.numCpu == sys.numCpu
    ensures StoreOk(sys1)
  {
  }

  lemma FreeSeqSim(sys: System, id: nat, t: nat)
    requires SysInv(sys) && t in sys.m.tables && t != id
    requires Step(sys, Free(id)).m.tables == sys.m.tables - {id}
    ensures SeqSimulates(sys, Free(id), t)
  {
    hide Inv, StoreOk, FreeSeq, CeilDiv, OnDevice, ReadTable;
  }

  lemma FreeSim(sys: System, id: nat)
    requires SysInv(sys)
    ensures Simulates(sys, Free(id))
  {
    ShapesHomed(sys);
    hide Inv, StoreOk, FreeSeq, SeqSimulates, TableShape, LastIsPrivate, ReadTable, Simulates, Homed;
    FreeKeepsInv(sys.m, id);
    var sys1 := Step(sys, Free(id));
    forall t | t in sys1.m.tables
      ensures SeqSimulates(sys, Free(id), t)
    {
      FreeSeqSim(sys, id, t);
    }
    SameStore(sys, sys1);
    Assemble(sys, Free(id));
  }

  // ---------------------------------------------------------------- allocate

  /** What an admitted allocation has done: one table of unheld blocks, filled with the prompt. */
  ghost predicate Allocated(sys: System, g: Group, prompt: seq<Token>, table: Table) {
    var sys1 := Step(sys, Allocate(g, prompt));
    && sys1.m.tables == AssignAll(sys.m.tables, Elements(IdsWith(g, Waiting)), table)
    && |table| == CeilDiv(|prompt|, sys.blockSize) && OnDevice(table, Gpu)
    && (forall b, s :: b in table && s in sys.m.tables ==> b !in sys.m.tables[s])
    && (forall b :: b in sys.store && b !in table ==> b in sys1.store && sys1.store[b] == sys.store[b])
    && ReadTable(sys1.store, sys.blockSize, table, |prompt|) == prompt
  }

  lemma AllocatedFacts(sys: System, g: Group, prompt: seq<Token>) returns (table: Table)
    requires SysInv(sys) && Admitted(sys, Allocate(g, prompt))
    ensures var sys1 := Step(sys, Allocate(g, prompt));
      Inv(sys1.m) && StoreOk(sys1) && Allocated(sys, g, prompt, table)
  {
    hide Inv, BlockState.Allocate, ReadTable, Prefill, CeilDiv, CanAllocate, ShapesOk, StoreOk, OnDevice, NoDup,
         DistinctIds, IdsWith, FirstBlocks, View, SharedPrompt;
    IdsDistinct(g, Waiting);
    FirstOfShared(g, CeilDiv(|prompt|, sys.blockSize));
    table := AllocateKeepsInv(sys.m, sys.numGpu, g);
    var ids := IdsWith(g, Waiting);
    var sys1 := Step(sys, Allocate(g, prompt));
    assert ids[0] in Elements(ids);
    AllocatedStore(sys, sys1, table, prompt);
  }

  lemma AllocatedStore(sys: System, sys1: System, table: Table, prompt: seq<Token>)
    requires StoreOk(sys) && NoDup(table) && |table| == CeilDiv(|prompt|, sys.blockSize)
    requires forall b :: b in table ==> b in sys.m.rc
    requires sys1.m.rc.Keys == sys.m.rc.Keys && sys1.store == Prefill(sys.store, sys.blockSize, table, prompt)
    requires sys1.blockSize == sys.blockSize && sys1.numGpu == sys.numGpu && sys1.numCpu == sys.numCpu
    ensures StoreOk(sys1)
    ensures forall b :: b in sys.store && b !in table ==> b in sys1.store && sys1.store[b] == sys.store[b]
    ensures ReadTable(sys1.store, sys.blockSize, table, |prompt|) == prompt
  {
    hide Prefill, ReadTable;
    CeilDivBounds(|prompt|, sys.blockSize);
    PrefillReads(sys.store, sys.blockSize, table, prompt);
  }

  lemma AllocateOld(sys: System, g: Group, prompt: seq<Token>, table: Table, t: nat)
    requires SysInv(sys) && Admitted(sys, Allocate(g, prompt)) && Allocated(sys, g, prompt, table)
    requires t in sys.m.tables
    ensures SeqSimulates(sys, Allocate(g, prompt), t)
  {
    hide Inv, BlockState.Allocate, Prefill, StoreOk, CanAllocate, SharedPrompt, IdsWith, DistinctIds;
    var sys1 := Step(sys, Allocate(g, prompt));
    InStore(sys, t);
    assert t !in Elements(IdsWith(g, Waiting));
    assert Untouched(sys.store, sys1.store, sys.m.tables[t]);
    KeepsReading(sys, sys1, t);
    if t in sys.pending {
      assert LastIsPrivate(sys.m.tables, t);
      assert Last(sys.m.tables[t]) in sys.m.tables[t];
    }
  }

  lemma AllocateNew(sys: System, g: Group, prompt: seq<Token>, table: Table, t: nat)
    requires SysInv(sys) && Admitted(sys, Allocate(g, prompt)) && Allocated(sys, g, prompt, table)
    requires t in IdsWith(g, Waiting)
    ensures SeqSimulates(sys, Allocate(g, prompt), t)
  {
    hide Inv, BlockState.Allocate, Prefill, StoreOk, ReadTable, CeilDiv, CanAllocate, IdsWith, SharedPrompt;
    assert t in Elements(IdsWith(g, Waiting));
  }

  lemma AllocateSim(sys: System, g: Group, prompt: seq<Token>)
    requires SysInv(sys) && Admitted(sys, Allocate(g, prompt))
    ensures Simulates(sys, Allocate(g, prompt))
  {
    hide Inv, BlockState.Allocate, SeqSimulates, TableShape, LastIsPrivate, ReadTable, Simulates, Prefill, CeilDiv,
         CanAllocate, StoreOk;
    var table := AllocatedFacts(sys, g, prompt);
    var sys1 := Step(sys, Allocate(g, prompt));
    forall t | t in sys1.m.tables
      ensures SeqSimulates(sys, Allocate(g, prompt), t)
    {
      if t in sys.m.tables {
        AllocateOld(sys, g, prompt, table, t);
      } else {
        AllocateNew(sys, g, prompt, table, t);
      }
    }
    Assemble(sys, Allocate(g, prompt));
  }

  // ---------------------------------------------------------------- swapping

  /** The copies between the pools, made as the mapping says, in terms of the old contents. */
  ghost predicate Copied(store: Store, store1: Store, numbers: map<nat, nat>, src: Device, dst: Device) {
    && store1.Keys == store.Keys
    && (forall n :: n in numbers ==>
          && Block(src, n) in store && Block(dst, numbers[n]) in store
          && store1[Block(dst, numbers[n])] == store[Block(src, n)])
    && (forall b :: b in store && !(b.device == dst && exists n :: n in numbers && numbers[n] == b.number)
          ==> store1[b] == store[b])
  }

  lemma CopyAcrossExact(m: State, store: Store, numbers: map<nat, nat>, src: Device, dst: Device)
    requires FreshNumbers(m, numbers, dst) && store.Keys == m.rc.Keys
    requires forall n :: n in numbers ==> Block(src, n) in store
    ensures Copied(store, CopyAcross(store, numbers, src, dst), numbers, src, dst)
  {
    var store1 := CopyAcross(store, numbers, src, dst);
    forall n | n in numbers
      ensures Block(dst, numbers[n]) in store && store1[Block(dst, numbers[n])] == store[Block(src, n)]
    {
      var b := Block(dst, numbers[n]);
      assert n in numbers && numbers[n] == b.number && Block(src, n) in store;
    }
  }

  /** The numbers of a group's blocks are numbers of blocks of the pool they are in. */
  lemma SourcesExist(m: State, ids: seq<nat>, src: Device)
    requires Inv(m) && AllOn(m.tables, ids, src)
    ensures forall n :: n in GroupNums(m.tables, ids) ==> Block(src, n) in m.rc
  {
  }

  /** The system after a completed swap of the sequences `ids`. */
  ghost predicate SwapDone(sys: System, sys1: System, ids: seq<nat>, numbers: map<nat, nat>, src: Device, dst: Device) {
    && src != dst && AllOn(sys.m.tables, ids, src)
    && SwappedAs(sys.m, sys1.m, ids, numbers, src, dst)
    && Copied(sys.store, sys1.store, numbers, src, dst)
    && sys1.blockSize == sys.blockSize && sys1.len == sys.len && sys1.pending == sys.pending
    && (forall id :: id in sys.m.tables && id in ids ==> id !in sys.pending && (id in sys1.swapped <==> dst == Cpu))
    && (forall id :: id in sys.m.tables && id !in ids ==> (id in sys1.swapped <==> id in sys.swapped))
  }

  /** Blocks that a table held are not written by the copies. */
  lemma HeldNotCopied(m: State, store: Store, store1: Store, numbers: map<nat, nat>, src: Device, dst: Device, t: nat)
    requires Inv(m) && FreshNumbers(m, numbers, dst) && Copied(store, store1, numbers, src, dst)
    requires t in m.tables && store.Keys == m.rc.Keys
    ensures Untouched(store, store1, m.tables[t])
  {
    assert TablesOk(m);
    forall b | b in m.tables[t]
      ensures b in store && b in store1 && store1[b] == store[b]
    {
      HeldIsCounted(m, t, b);
    }
  }

  lemma SwapUnmoved(sys: System, sys1: System, ids: seq<nat>, numbers: map<nat, nat>, src: Device, dst: Device, t: nat)
    requires SysInv(sys) && SwapDone(sys, sys1, ids, numbers, src, dst) && t in sys.m.tables && t !in ids
    ensures t in sys1.m.tables && TableShape(sys1, t) && View(sys1)[t] == View(sys)[t]
  {
    HeldNotCopied(sys.m, sys.store, sys1.store, numbers, src, dst, t);
    hide Inv, FreshNumbers, Copied, UnheldAreFree, GroupNums, Untouched, ReadTable;
    KeepsReading(sys, sys1, t);
  }

  lemma SwapMoved(sys: System, sys1: System, ids: seq<nat>, numbers: map<nat, nat>, src: Device, dst: Device, t: nat)
    requires SysInv(sys) && SwapDone(sys, sys1, ids, numbers, src, dst) && t in sys.m.tables && t in ids
    ensures t in sys1.m.tables && TableShape(sys1, t) && View(sys1)[t] == View(sys)[t]
  {
    hide Inv, FreshNumbers, UnheldAreFree, GroupNums, StoreOk;
    var table := sys.m.tables[t];
    var table1 := sys1.m.tables[t];
    assert Renumbered(table, table1, numbers, dst);
    assert TableShape(sys, t);
    Fits(sys, t);
    forall i | 0 <= i < |table|
      ensures table[i] in sys.store && table1[i] in sys1.store && sys1.store[table1[i]] == sys.store[table[i]]
    {
      assert table[i] in table && table[i] == Block(src, table[i].number);
    }
    ReadCongruent(sys.store, table, sys1.store, table1, sys.blockSize, Length(sys, t));
  }

  lemma SwapPrivate(m: State, m1: State, ids: seq<nat>, numbers: map<nat, nat>, src: Device, dst: Device, t: nat)
    requires Inv(m) && SwappedAs(m, m1, ids, numbers, src, dst) && t !in ids && LastIsPrivate(m.tables, t)
    ensures LastIsPrivate(m1.tables, t)
  {
    var last := Last(m.tables[t]);
    assert last in m.tables[t];
    HeldIsCounted(m, t, last);
    hide Inv, UnheldAreFree, GroupNums;
    forall u | u in m1.tables && u != t
      ensures last !in m1.tables[u]
    {
      if u in ids {
        assert Renumbered(m.tables[u], m1.tables[u], numbers, dst);
      }
    }
  }

  lemma SwapSeq(sys: System, sys1: System, ids: seq<nat>, numbers: map<nat, nat>, src: Device, dst: Device, t: nat)
    requires SysInv(sys) && SwapDone(sys, sys1, ids, numbers, src, dst) && t in sys.m.tables
    ensures t in sys1.m.tables && TableShape(sys1, t) && View(sys1)[t] == View(sys)[t]
    ensures t in sys1.pending ==> LastIsPrivate(sys1.m.tables, t)
  {
    hide Inv, StoreOk, SwappedAs, Copied, TableShape, ReadTable, LastIsPrivate, AllOn;
    if t in ids {
      SwapMoved(sys, sys1, ids, numbers, src, dst, t);
    } else {
      SwapUnmoved(sys, sys1, ids, numbers, src, dst, t);
      if t in sys.pending {
        SwapPrivate(sys.m, sys1.m, ids, numbers, src, dst, t);
      }
    }
  }

  lemma CopiedStore(sys: System, sys1: System, ids: seq<nat>, numbers: map<nat, nat>, src: Device, dst: Device)
    requires StoreOk(sys) && Copied(sys.store, sys1.store, numbers, src, dst)
    requires sys1.m.rc.Keys == sys.m.rc.Keys
    requires sys1.blockSize == sys.blockSize && sys1.numGpu == sys.numGpu && sys1.numCpu == sys.numCpu
    ensures StoreOk(sys1)
  {
  }

  /** The sequences with the status that is to be moved are where the group says they are. */
  lemma FaithfulPlaces(sys: System, g: Group)
    requires ShapesOk(sys) && Faithful(sys, g)
    ensures AllOn(sys.m.tables, IdsWith(g, Running), Gpu) && AllOn(sys.m.tables, IdsWith(g, Swapped), Cpu)
    ensures forall id :: id in IdsWith(g, Running) && id in sys.m.tables ==> id !in sys.swapped
    ensures forall id :: id in IdsWith(g, Swapped) && id in sys.m.tables ==> id in sys.swapped
  {
  }

  lemma SwapOutFlags(sys: System, sys1: System, g: Group)
    requires ShapesOk(sys) && Elements(IdsWith(g, Running)) !! sys.pending
    requires sys1.pending == sys.pending && sys1.swapped == sys.swapped + Members(sys.m, g, Running)
    ensures forall id :: id in sys.m.tables && id in IdsWith(g, Running) ==> id !in sys.pending && id in sys1.swapped
    ensures forall id :: id in sys.m.tables && id !in IdsWith(g, Running) ==>
      (id in sys1.swapped <==> id in sys.swapped)
    ensures sys1.swapped <= sys.m.tables.Keys
  {
  }

  lemma SwapOutDone(sys: System, g: Group)
    requires SysInv(sys) && Admitted(sys, SwapOut(g))
    ensures var sys1 := Step(sys, SwapOut(g));
      var r := BlockState.SwapOut(sys.m, g).2;
      && r.Ok? && Inv(sys1.m) && StoreOk(sys1)
      && SwapDone(sys, sys1, IdsWith(g, Running), r.value, Gpu, Cpu)
  {
    hide Inv, ShapesOk, IdsWith, BlockState.SwapOut, CanSwapOut, FreshNumbers, TablesRenumbered, UnheldAreFree,
         GroupNums, AllOn, Copied, CopyAcross, DistinctIds, StoreOk, Members, Elements, SwappedAs;
    FaithfulPlaces(sys, g);
    SourcesExist(sys.m, IdsWith(g, Running), Gpu);
    SwapOutAdmitted(sys.m, g);
    var (m1, g1, r) := BlockState.SwapOut(sys.m, g);
    var sys1 := Step(sys, SwapOut(g));
    SwapParts(sys.m, m1, IdsWith(g, Running), r.value, Gpu, Cpu);
    StoreKeys(sys);
    CopyAcrossExact(sys.m, sys.store, r.value, Gpu, Cpu);
    CopiedStore(sys, sys1, IdsWith(g, Running), r.value, Gpu, Cpu);
    SwapOutFlags(sys, sys1, g);
  }

  lemma StoreKeys(sys: System)
    requires StoreOk(sys)
    ensures sys.store.Keys == sys.m.rc.Keys
  {
  }

  lemma SwapInFlags(sys: System, sys1: System, g: Group)
    requires ShapesOk(sys) && Faithful(sys, g)
    requires sys1.pending == sys.pending && sys1.swapped == sys.swapped - Members(sys.m, g, Swapped)
    ensures forall id :: id in sys.m.tables && id in IdsWith(g, Swapped) ==> id !in sys.pending && id !in sys1.swapped
    ensures forall id :: id in sys.m.tables && id !in IdsWith(g, Swapped) ==>
      (id in sys1.swapped <==> id in sys.swapped)
    ensures sys1.swapped <= sys.m.tables.Keys
  {
  }

  lemma SwapInDone(sys: System, g: Group)
    requires SysInv(sys) && Admitted(sys, SwapIn(g))
    ensures var sys1 := Step(sys, SwapIn(g));
      var r := BlockState.SwapIn(sys.m, g).2;
      && r.Ok? && Inv(sys1.m) && StoreOk(sys1)
      && SwapDone(sys, sys1, IdsWith(g, Swapped), r.value, Cpu, Gpu)
  {
    hide Inv, ShapesOk, IdsWith, BlockState.SwapIn, CanSwapIn, FreshNumbers, TablesRenumbered, UnheldAreFree, GroupNums,
         AllOn, Copied, CopyAcross, DistinctIds, StoreOk, Members, Elements;
    FaithfulPlaces(sys, g);
    SourcesExist(sys.m, IdsWith(g, Swapped), Cpu);
    SwapInAdmitted(sys.m, sys.numGpu, g);
    var (m1, g1, r) := BlockState.SwapIn(sys.m, g);
    var sys1 := Step(sys, SwapIn(g));
    SwapParts(sys.m, m1, IdsWith(g, Swapped), r.value, Cpu, Gpu);
    StoreKeys(sys);
    CopyAcrossExact(sys.m, sys.store, r.value, Cpu, Gpu);
    CopiedStore(sys, sys1, IdsWith(g, Swapped), r.value, Cpu, Gpu);
    SwapInFlags(sys, sys1, g);
  }

  lemma SwapAssemble(sys: System, op: Op, ids: seq<nat>, numbers: map<nat, nat>, src: Device, dst: Device)
    requires SysInv(sys) && (op.SwapOut? || op.SwapIn?)
    requires var sys1 := Step(sys, op);
      && Inv(sys1.m) && StoreOk(sys1) && SwapDone(sys, sys1, ids, numbers, src, dst)
      && sys1.swapped <= sys.m.tables.Keys
    ensures Simulates(sys, op)
  {
    hide Inv, StoreOk, SeqSimulates, TableShape, LastIsPrivate, ReadTable, Simulates, SwapDone, BlockState.SwapIn,
         BlockState.SwapOut, CopyAcross;
    var sys1 := Step(sys, op);
    SwapKeys(sys, sys1, ids, numbers, src, dst);
    forall t | t in sys1.m.tables
      ensures SeqSimulates(sys, op, t)
    {
      SwapSeq(sys, sys1, ids, numbers, src, dst, t);
      SeqIntro(sys, op, t);
    }
    Assemble(sys, op);
  }

  lemma SwapKeys(sys: System, sys1: System, ids: seq<nat>, numbers: map<nat, nat>, src: Device, dst: Device)
    requires ShapesOk(sys) && SwapDone(sys, sys1, ids, numbers, src, dst)
    ensures sys1.m.tables.Keys == sys.m.tables.Keys && sys1.len.Keys == sys1.m.tables.Keys
    ensures sys1.pending == sys.pending && sys1.pending !! sys1.swapped
  {
  }

  lemma SeqIntro(sys: System, op: Op, t: nat)
    requires var sys1 := Step(sys, op);
      && t in sys1.m.tables && TableShape(sys1, t) && (t in sys1.pending ==> LastIsPrivate(sys1.m.tables, t))
      && t in sys.m.tables && View(sys1)[t] == View(sys)[t] && HistStep(View(sys), op) == View(sys)
    ensures SeqSimulates(sys, op, t)
  {
  }

  lemma SwapOutSim(sys: System, g: Group)
    requires SysInv(sys) && Admitted(sys, SwapOut(g))
    ensures Simulates(sys, SwapOut(g))
  {
    SwapOutDone(sys, g);
    hide Inv, StoreOk, BlockState.SwapOut, SwapDone, Simulates, CanSwapOut, Faithful;
    SwapAssemble(sys, SwapOut(g), IdsWith(g, Running), BlockState.SwapOut(sys.m, g).2.value, Gpu, Cpu);
  }

  lemma SwapInSim(sys: System, g: Group)
    requires SysInv(sys) && Admitted(sys, SwapIn(g))
    ensures Simulates(sys, SwapIn(g))
  {
    SwapInDone(sys, g);
    hide Inv, StoreOk, BlockState.SwapIn, SwapDone, Simulates, CanSwapIn, Faithful;
    SwapAssemble(sys, SwapIn(g), IdsWith(g, Swapped), BlockState.SwapIn(sys.m, g).2.value, Cpu, Gpu);
  }

  // ---------------------------------------------------------------- whole runs

  lemma StepSim(sys: System, op: Op)
    requires SysInv(sys) && Admitted(sys, op)
    ensures Simulates(sys, op)
  {
    hide SysInv, Admitted, Simulates;
    match op
    case Allocate(g, prompt) => AllocateSim(sys, g, prompt);
    case AppendSlot(id, needed) => AppendSlotSim(sys, id, needed);
    case Write(id, token) => WriteSim(sys, id, token);
    case Fork(parent, child) => ForkSim(sys, parent, child);
    case SwapOut(g) => SwapOutSim(sys, g);
    case SwapIn(g) => SwapInSim(sys, g);
    case Free(id) => FreeSim(sys, id);
  }

  /** The sequences whose history an operation is about. */
  function Concerned(op: Op): set<nat> {
    match op
    case Allocate(g, _) => Elements(IdsWith(g, Waiting))
    case AppendSlot(_, _) => {}
    case Write(id, _) => {id}
    case Fork(_, child) => {child}
    case SwapOut(_) => {}
    case SwapIn(_) => {}
    case Free(id) => {id}
  }

  /** No step changes what another sequence reads, or whether it exists. */
  lemma OthersReadTheSame(sys: System, op: Op, id: nat)
    requires SysInv(sys) && Admitted(sys, op) && id !in Concerned(op)
    ensures id in View(Step(sys, op)) <==> id in View(sys)
    ensures id in View(sys) ==> View(Step(sys, op))[id] == View(sys)[id]
  {
    hide SysInv, Admitted, Step, View;
    StepSim(sys, op);
  }

  /** Over any admitted run the invariant is kept, and every sequence reads through its block
      table exactly the history that the machine of private histories gives it. */
  lemma {:induction false} RunRefinesHistories(sys: System, ops: seq<Op>)
    requires SysInv(sys) && AdmittedRun(sys, ops)
    ensures SysInv(Run(sys, ops)) && View(Run(sys, ops)) == HistRun(View(sys), ops)
    decreases |ops|
  {
    hide SysInv, Admitted, Step, HistStep, View;
    if ops != [] {
      StepSim(sys, ops[0]);
      RunRefinesHistories(Step(sys, ops[0]), ops[1..]);
    }
  }

  lemma StartInv(blockSize: Pos, numGpu: nat, numCpu: nat)
    ensures SysInv(Start(blockSize, numGpu, numCpu)) && View(Start(blockSize, numGpu, numCpu)) == map[]
  {
  }

  /** From the empty cache: contents, exact reference counts, and conservation of both pools. */
  lemma PagedCacheCorrect(blockSize: Pos, numGpu: nat, numCpu: nat, ops: seq<Op>)
    requires AdmittedRun(Start(blockSize, numGpu, numCpu), ops)
    ensures var sys := Run(Start(blockSize, numGpu, numCpu), ops);
      && View(sys) == HistRun(map[], ops)
      && (forall b :: b in sys.m.rc ==> sys.m.rc[b] == Holders(sys.m.tables, b))
      && (forall d: Device ::
            && NoDup(sys.m.Free(d))
            && (forall b :: b in sys.m.Free(d) <==> b in sys.m.rc && b.device == d && sys.m.rc[b] == 0)
            && |sys.m.Free(d)| + |set b | b in sys.m.rc && b.device == d && sys.m.rc[b] > 0|
               == (if d == Gpu then numGpu else numCpu))
  {
    StartInv(blockSize, numGpu, numCpu);
    RunRefinesHistories(Start(blockSize, numGpu, numCpu), ops);
    RunPools(Start(blockSize, numGpu, numCpu), ops);
    var sys := Run(Start(blockSize, numGpu, numCpu), ops);
    forall d: Device
      ensures NoDup(sys.m.Free(d))
      ensures forall b :: b in sys.m.Free(d) <==> b in sys.m.rc && b.device == d && sys.m.rc[b] == 0
      ensures |sys.m.Free(d)| + |set b | b in sys.m.rc && b.device == d && sys.m.rc[b] > 0|
           == if d == Gpu then numGpu else numCpu
    {
      assert PoolOk(sys.m, d);
      Conservation(sys.m, d);
      PoolSize(numGpu, numCpu, d);
      assert (set b | b in sys.m.rc && b.device == d) == (set b | b in Universe(numGpu, numCpu) && b.device == d);
    }
  }

  lemma {:induction false} RunPools(sys: System, ops: seq<Op>)
    ensures Run(sys, ops).numGpu == sys.numGpu && Run(sys, ops).numCpu == sys.numCpu
    ensures Run(sys, ops).blockSize == sys.blockSize
    decreases |ops|
  {
    if ops != [] {
      RunPools(Step(sys, ops[0]), ops[1..]);
    }
  }
}
