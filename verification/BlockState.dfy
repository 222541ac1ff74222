/** The block manager's state as a value, and what each operation does to it.

    The classes in BlockManager.dfy are proved to compute exactly these functions; the
    lemmas about reference counts, swapping and stored tokens are stated about them.  A
    state may be misused: every function is defined on every state, and the error results,
    including the half-done states that an error leaves behind, are those of the program. */
module BlockState {
  import opened Common

  datatype Device = Cpu | Gpu

  /** A physical block, named by its pool and its number in that pool. */
  datatype Block = Block(device: Device, number: nat)

  type Table = seq<Block>

  /** `Panic` stands for a panic of the program: a slice or index out of range, or a
      remainder by zero. */
  datatype Error =
    | OutOfMemory
    | CannotDoubleFree(number: nat)
    | EmptySequence
    | AppendSlotError
    | MissingSequence
    | Panic

  datatype Status =
    | Waiting
    | Running
    | Swapped
    | FinishedStopped
    | FinishedLengthCapped
    | FinishedAborted
    | FinishedIgnored
  {
    predicate IsFinished() {
      !Waiting? && !Running? && !Swapped?
    }
  }

  /** What the manager reads of one sequence of a group. */
  datatype SeqInfo = SeqInfo(id: nat, status: Status, logicalBlocks: nat)

  /** A sequence group in the order in which its hash map happens to be iterated. */
  type Group = seq<SeqInfo>

  datatype AllocationStatus = CanNow | Later | Never | Nothing

  function IdsWith(g: Group, status: Status): (ids: seq<nat>)
    ensures forall id :: id in ids <==> exists s :: s in g && s.id == id && s.status == status
  {
    if g == [] then []
    else if g[0].status == status then [g[0].id] + IdsWith(g[1..], status)
    else IdsWith(g[1..], status)
  }

  function UnfinishedIds(g: Group): (ids: seq<nat>)
    ensures forall id :: id in ids <==> exists s :: s in g && s.id == id && !s.status.IsFinished()
  {
    if g == [] then []
    else if !g[0].status.IsFinished() then [g[0].id] + UnfinishedIds(g[1..])
    else UnfinishedIds(g[1..])
  }

  /** The logical block count of the first sequence with the given status, if there is one. */
  function FirstBlocks(g: Group, status: Status): Option<nat> {
    if g == [] then None
    else if g[0].status == status then Some(g[0].logicalBlocks)
    else FirstBlocks(g[1..], status)
  }

  /** Sets the status of the sequences named by `ids`. */
  function WithStatus(g: Group, ids: set<nat>, status: Status): Group {
    seq(|g|, i requires 0 <= i < |g| => if g[i].id in ids then g[i].(status := status) else g[i])
  }

  /** Reference counts of the blocks of both pools, the two free lists, and the block tables. */
  datatype State = State(
    rc: map<Block, nat>,
    gpuFree: seq<Block>,
    cpuFree: seq<Block>,
    tables: map<nat, Table>)
  {
    function Count(b: Block): nat {
      if b in rc then rc[b] else 0
    }

    function Free(d: Device): seq<Block> {
      if d == Gpu then gpuFree else cpuFree
    }

    function WithFree(d: Device, free: seq<Block>): State {
      if d == Gpu then this.(gpuFree := free) else this.(cpuFree := free)
    }

    function WithCount(b: Block, n: nat): State {
      this.(rc := rc[b := n])
    }

    function WithTables(t: map<nat, Table>): State {
      this.(tables := t)
    }
  }

  function PoolBlocks(d: Device, n: nat): (s: seq<Block>)
    ensures |s| == n && forall i :: 0 <= i < n ==> s[i] == Block(d, i)
  {
    seq(n, i requires 0 <= i < n => Block(d, i))
  }

  function Universe(numGpu: nat, numCpu: nat): set<Block> {
    Elements(PoolBlocks(Gpu, numGpu)) + Elements(PoolBlocks(Cpu, numCpu))
  }

  function Initial(numGpu: nat, numCpu: nat): State {
    State(map b | b in Universe(numGpu, numCpu) :: 0,
          PoolBlocks(Gpu, numGpu), PoolBlocks(Cpu, numCpu), map[])
  }

  // ---------------------------------------------------------------- one allocator

  function TakeBlock(m: State, d: Device): (State, Result<Block, Error>) {
    var free := m.Free(d);
    if free == [] then (m, Err(OutOfMemory))
    else
      var b := free[|free| - 1];
      (m.WithFree(d, free[..|free| - 1]).WithCount(b, m.Count(b) + 1), Ok(b))
  }

  function ReleaseBlock(m: State, d: Device, b: Block): (State, Result<(), Error>) {
    if m.Count(b) == 0 then (m, Err(CannotDoubleFree(b.number)))
    else
      var m1 := m.WithCount(b, m.Count(b) - 1);
      (if m1.Count(b) == 0 then m1.WithFree(d, m1.Free(d) + [b]) else m1, Ok(()))
  }

  // ---------------------------------------------------------------- allocate

  function CanAllocate(m: State, window: Option<nat>, numGpu: nat, g: Group): AllocationStatus {
    match FirstBlocks(g, Waiting)
    case None => Nothing
    case Some(n) =>
      var required := if window.Some? && window.value < n then window.value else n;
      if |m.gpuFree| >= required then CanNow
      else if numGpu < required then Never
      else Later
  }

  /** Fills a table with `n` blocks, each counted `k` times; past the window, blocks of the
      table itself are reused round-robin. */
  function AllocateLoop(m: State, window: Option<nat>, n: nat, k: nat, table: Table):
    (State, Result<Table, Error>)
    decreases n - |table|
  {
    var i := |table|;
    if i >= n then (m, Ok(table))
    else if window.Some? && i >= window.value then
      if window.value == 0 then (m, Err(Panic))
      else
        var b := table[i % window.value];
        AllocateLoop(m.WithCount(b, k), window, n, k, table + [b])
    else
      var (m1, r) := TakeBlock(m, Gpu);
      match r
      case Err(e) => (m1, Err(e))
      case Ok(b) => AllocateLoop(m1.WithCount(b, k), window, n, k, table + [b])
  }

  /** Gives every listed sequence the same table. */
  function AssignAll(tables: map<nat, Table>, ids: set<nat>, table: Table): map<nat, Table> {
    tables + (map s | s in ids :: table)
  }

  function Allocate(m: State, window: Option<nat>, g: Group): (State, Result<(), Error>) {
    match FirstBlocks(g, Waiting)
    case None => (m, Ok(()))
    case Some(n) =>
      var ids := IdsWith(g, Waiting);
      var (m1, r) := AllocateLoop(m, window, n, |ids|, []);
      match r
      case Err(e) => (m1, Err(e))
      case Ok(table) => (m1.WithTables(AssignAll(m1.tables, Elements(ids), table)), Ok(()))
  }

  // ---------------------------------------------------------------- append_slots

  function CanAppendSlots(m: State, g: Group): bool {
    |IdsWith(g, Running)| <= |m.gpuFree|
  }

  /** Makes the last block of a table private, copying it when it is shared. */
  function PrivateLast(m: State, id: nat): (State, Result<Option<(nat, nat)>, Error>)
    requires id in m.tables && m.tables[id] != []
  {
    var table := m.tables[id];
    var last := table[|table| - 1];
    if m.Count(last) == 1 then (m, Ok(None))
    else
      var (m1, r) := TakeBlock(m, Gpu);
      match r
      case Err(e) => (m1, Err(e))
      case Ok(b) =>
        var (m2, q) := ReleaseBlock(m1, Gpu, last);
        match q
        case Err(e) => (m2, Err(e))
        case Ok(_) =>
          (m2.WithTables(m2.tables[id := table[|table| - 1 := b]]), Ok(Some((last.number, b.number))))
  }

  function AppendSlots(m: State, window: Option<nat>, id: nat, needed: nat):
    (State, Result<Option<(nat, nat)>, Error>)
  {
    if needed == 0 then (m, Err(EmptySequence))
    else if id !in m.tables then (m, Ok(None))
    else
      var table := m.tables[id];
      if |table| >= needed then PrivateLast(m, id)
      else if |table| != needed - 1 then (m, Err(AppendSlotError))
      else if window.Some? && |table| >= window.value then
        if window.value == 0 then (m, Err(Panic))
        else
          var reused := table[|table| % window.value];
          PrivateLast(m.WithTables(m.tables[id := table + [reused]]), id)
      else
        var (m1, r) := TakeBlock(m, Gpu);
        match r
        case Err(e) => (m1, Err(e))
        case Ok(b) => (m1.WithTables(m1.tables[id := table + [b]]), Ok(None))
  }

  /** The scheduler's round: `append_slots` for every running member of a group, with the
      copies asked for in the order they came. */
  function AppendRound(m: State, window: Option<nat>, g: Group): (State, Result<seq<(nat, nat)>, Error>)
    decreases |g|
  {
    if g == [] then (m, Ok([]))
    else if g[0].status != Running then AppendRound(m, window, g[1..])
    else
      var (m1, r) := AppendSlots(m, window, g[0].id, g[0].logicalBlocks);
      match r
      case Err(e) => (m1, Err(e))
      case Ok(copy) =>
        var (m2, q) := AppendRound(m1, window, g[1..]);
        match q
        case Err(e) => (m2, Err(e))
        case Ok(copies) => (m2, Ok((if copy.Some? then [copy.value] else []) + copies))
  }

  /** The hash map into which the scheduler inserts the copies in order, keyed by the source
      block: what is inserted later replaces what was there. */
  function CopyMap(copies: seq<(nat, nat)>): map<nat, nat> {
    if copies == [] then map[]
    else map[copies[0].0 := copies[0].1] + CopyMap(copies[1..])
  }

  // ---------------------------------------------------------------- fork

  /** Counts each block of the table once more, once per distinct block number. */
  function ForkLoop(m: State, table: Table, seen: set<nat>): State
    decreases |table|
  {
    if table == [] then m
    else
      var b := table[0];
      ForkLoop(if b.number in seen then m else m.WithCount(b, m.Count(b) + 1),
               table[1..], seen + {b.number})
  }

  function Fork(m: State, parent: nat, child: nat): (State, Result<(), Error>) {
    if parent !in m.tables then (m, Err(MissingSequence))
    else
      var table := m.tables[parent];
      (ForkLoop(m.WithTables(m.tables[child := table]), table, {}), Ok(()))
  }

  // ---------------------------------------------------------------- swapping

  /** Keeps the first block of each number. */
  function FirstOfNumber(table: Table, output: Table): Table
    decreases |table|
  {
    if table == [] then output
    else if exists b :: b in output && b.number == table[0].number then FirstOfNumber(table[1..], output)
    else FirstOfNumber(table[1..], output + [table[0]])
  }

  function PhysicalBlocksOf(m: State, ids: seq<nat>, output: Table): Table
    decreases |ids|
  {
    if ids == [] then output
    else
      PhysicalBlocksOf(m, ids[1..],
        if ids[0] in m.tables then FirstOfNumber(m.tables[ids[0]], output) else output)
  }

  function PhysicalBlocks(m: State, g: Group): Table {
    PhysicalBlocksOf(m, UnfinishedIds(g), [])
  }

  function CanSwapOut(m: State, g: Group): bool {
    |PhysicalBlocks(m, g)| <= |m.cpuFree|
  }

  function CanSwapIn(m: State, numGpu: nat, g: Group): AllocationStatus {
    var required := |PhysicalBlocks(m, g)| + |IdsWith(g, Swapped)|;
    if numGpu < required then Never
    else if |m.gpuFree| >= required then CanNow
    else Later
  }

  /** Moves the blocks of one table from pool `src` to pool `dst`; `mapping` remembers, by block
      number, what has been moved so far, and `moved` is the new table. */
  function MoveTable(m: State, src: Device, dst: Device, table: Table,
                     mapping: map<nat, Block>, moved: Table):
    (State, Result<(map<nat, Block>, Table), Error>)
    decreases |table|
  {
    if table == [] then (m, Ok((mapping, moved)))
    else
      var b := table[0];
      var (m1, r) :=
        if b.number in mapping then
          var c := mapping[b.number];
          (m.WithCount(c, m.Count(c) + 1), Ok(c))
        else TakeBlock(m, dst);
      match r
      case Err(e) => (m1, Err(e))
      case Ok(c) =>
        var (m2, q) := ReleaseBlock(m1, src, b);
        match q
        case Err(e) => (m2, Err(e))
        case Ok(_) => MoveTable(m2, src, dst, table[1..], mapping[b.number := c], moved + [c])
  }

  /** Moves the tables of the listed sequences; the natural number says how many of them were
      completed, and so had their status updated. */
  function MoveGroup(m: State, src: Device, dst: Device, ids: seq<nat>, mapping: map<nat, Block>):
    (r: (State, nat, Result<map<nat, Block>, Error>))
    ensures r.1 <= |ids|
    decreases |ids|
  {
    if ids == [] then (m, 0, Ok(mapping))
    else if ids[0] !in m.tables then
      var (m2, n, r) := MoveGroup(m, src, dst, ids[1..], mapping);
      (m2, n + 1, r)
    else
      var (m1, q) := MoveTable(m, src, dst, m.tables[ids[0]], mapping, []);
      match q
      case Err(e) => (m1, 0, Err(e))
      case Ok((mapping1, moved)) =>
        var (m2, n, r) := MoveGroup(m1.WithTables(m1.tables[ids[0] := moved]), src, dst, ids[1..], mapping1);
        (m2, n + 1, r)
  }

  function Numbers(mapping: map<nat, Block>): map<nat, nat> {
    map n | n in mapping :: mapping[n].number
  }

  /** The state, the group with its statuses updated, and the block number mapping. */
  function MoveStatus(m: State, g: Group, src: Device, dst: Device, from: Status, to: Status):
    (State, Group, Result<map<nat, nat>, Error>)
  {
    var ids := IdsWith(g, from);
    var (m1, n, r) := MoveGroup(m, src, dst, ids, map[]);
    (m1,
     WithStatus(g, Elements(ids[..n]), to),
     match r case Ok(mapping) => Ok(Numbers(mapping)) case Err(e) => Err(e))
  }

  function SwapOut(m: State, g: Group): (State, Group, Result<map<nat, nat>, Error>) {
    MoveStatus(m, g, Gpu, Cpu, Running, Swapped)
  }

  function SwapIn(m: State, g: Group): (State, Group, Result<map<nat, nat>, Error>) {
    MoveStatus(m, g, Cpu, Gpu, Swapped, Running)
  }

  // ---------------------------------------------------------------- free and reset

  function FreeLoop(m: State, table: Table, seen: set<nat>): (State, Result<(), Error>)
    decreases |table|
  {
    if table == [] then (m, Ok(()))
    else
      var b := table[0];
      if b.number in seen then FreeLoop(m, table[1..], seen)
      else
        var (m1, r) := ReleaseBlock(m, b.device, b);
        match r
        case Err(e) => (m1, Err(e))
        case Ok(_) => FreeLoop(m1, table[1..], seen + {b.number})
  }

  function FreeBlockTable(m: State, window: Option<nat>, table: Table): (State, Result<(), Error>) {
    if window.Some? && window.value > |table| then (m, Err(Panic))
    else FreeLoop(m, if window.Some? then table[window.value..] else table, {})
  }

  function FreeSeq(m: State, window: Option<nat>, id: nat): (State, Result<(), Error>) {
    if id !in m.tables then (m, Ok(()))
    else
      var (m1, r) := FreeBlockTable(m, window, m.tables[id]);
      match r
      case Err(e) => (m1, Err(e))
      case Ok(_) => (m1.WithTables(m1.tables - {id}), Ok(()))
  }

  /** Frees the tables of `order`, then drops all tables. */
  function ResetLoop(m: State, window: Option<nat>, order: seq<nat>): (State, Result<(), Error>)
    decreases |order|
  {
    if order == [] then (m.WithTables(map[]), Ok(()))
    else if order[0] !in m.tables then ResetLoop(m, window, order[1..])
    else
      var (m1, r) := FreeBlockTable(m, window, m.tables[order[0]]);
      match r
      case Err(e) => (m1, Err(e))
      case Ok(_) => ResetLoop(m1, window, order[1..])
  }
}
