/** The block manager as the program has it: shared, mutable blocks that many tables refer to.

    Every method is proved to do to the blocks, free lists and tables exactly what the
    function of the same name in BlockState does to the state that they represent. */
module BlockManager {
  import opened Common
  import opened BlockState

  class PhysicalTokenBlock {
    const blockNumber: nat
    const blockSize: nat
    const device: Device
    var refCount: nat

    constructor (blockNumber: nat, blockSize: nat, device: Device)
      ensures this.blockNumber == blockNumber && this.blockSize == blockSize && this.device == device
      ensures refCount == 0
    {
      this.blockNumber := blockNumber;
      this.blockSize := blockSize;
      this.device := device;
      refCount := 0;
    }

    method IncrementRefCount()
      modifies this
      ensures refCount == old(refCount) + 1
    {
      refCount := refCount + 1;
    }

    method SetRefCountBy(value: nat)
      modifies this
      ensures refCount == value
    {
      refCount := value;
    }

    /** Refuses to go below zero. */
    method DecreaseRefCount() returns (ok: bool)
      modifies this
      ensures ok <==> old(refCount) > 0
      ensures refCount == if ok then old(refCount) - 1 else old(refCount)
    {
      ok := refCount > 0;
      if ok {
        refCount := refCount - 1;
      }
    }

    ghost function Id(): Block {
      Block(device, blockNumber)
    }
  }

  /** The value-level table that a table of shared blocks stands for. */
  ghost function Ids(s: seq<PhysicalTokenBlock>): (t: Table)
    ensures |t| == |s| && forall i :: 0 <= i < |s| ==> t[i] == s[i].Id()
  {
    seq(|s|, i requires 0 <= i < |s| => s[i].Id())
  }

  ghost function TableIds(tables: map<nat, seq<PhysicalTokenBlock>>): map<nat, Table> {
    map s | s in tables :: Ids(tables[s])
  }

  lemma IdsFacts(s: seq<PhysicalTokenBlock>, b: PhysicalTokenBlock)
    ensures Ids(s + [b]) == Ids(s) + [b.Id()]
    ensures s != [] ==> Ids(s[..|s| - 1]) == Ids(s)[..|s| - 1] && Ids(s)[|s| - 1] == s[|s| - 1].Id()
  {
  }

  class BlockAllocator {
    const numBlocks: nat
    ghost const pool: seq<PhysicalTokenBlock>
    var freeBlocks: seq<PhysicalTokenBlock>

    constructor (blockSize: nat, device: Device, numBlocks: nat)
      ensures this.numBlocks == numBlocks && freeBlocks == pool && |pool| == numBlocks
      ensures forall i :: 0 <= i < numBlocks ==>
        fresh(pool[i]) && pool[i].Id() == Block(device, i) && pool[i].refCount == 0
    {
      var blocks: seq<PhysicalTokenBlock> := [];
      for i := 0 to numBlocks
        invariant |blocks| == i
        invariant forall j :: 0 <= j < i ==>
          fresh(blocks[j]) && blocks[j].Id() == Block(device, j) && blocks[j].refCount == 0
      {
        var block := new PhysicalTokenBlock(i, blockSize, device);
        blocks := blocks + [block];
      }
      this.numBlocks := numBlocks;
      this.pool := blocks;
      this.freeBlocks := blocks;
    }

    /** Hands out the block at the end of the free list, counted once more. */
    method Allocate() returns (r: Result<PhysicalTokenBlock, Error>)
      modifies this, if freeBlocks == [] then {} else {freeBlocks[|freeBlocks| - 1]}
      ensures old(freeBlocks) == [] ==> r == Err(OutOfMemory) && freeBlocks == []
      ensures old(freeBlocks) != [] ==>
        && var n := |old(freeBlocks)| - 1;
        && r == Ok(old(freeBlocks)[n]) && freeBlocks == old(freeBlocks)[..n]
        && r.value.refCount == old(freeBlocks[|freeBlocks| - 1].refCount) + 1
    {
      if freeBlocks == [] {
        return Err(OutOfMemory);
      }
      var n := |freeBlocks| - 1;
      var block := freeBlocks[n];
      freeBlocks := freeBlocks[..n];
      block.IncrementRefCount();
      return Ok(block);
    }

    /** Counts a block once less, and puts it back on this free list when the count reaches zero. */
    method Free(block: PhysicalTokenBlock) returns (r: Result<(), Error>)
      modifies this, block
      ensures old(block.refCount) == 0 ==>
        r == Err(CannotDoubleFree(block.blockNumber)) && freeBlocks == old(freeBlocks) && block.refCount == 0
      ensures old(block.refCount) > 0 ==>
        && r == Ok(()) && block.refCount == old(block.refCount) - 1
        && freeBlocks == if block.refCount == 0 then old(freeBlocks) + [block] else old(freeBlocks)
    {
      if block.refCount == 0 {
        return Err(CannotDoubleFree(block.blockNumber));
      }
      var ok := block.DecreaseRefCount();
      if block.refCount == 0 {
        freeBlocks := freeBlocks + [block];
      }
      return Ok(());
    }
  }

  /** A sequence group; swapping updates the statuses of its sequences. */
  class SequenceGroup {
    var sequences: Group

    constructor (sequences: Group)
      ensures this.sequences == sequences
    {
      this.sequences := sequences;
    }
  }

  class BlockSpaceManager {
    const blockSize: nat
    const numGpuBlocks: nat
    const blockSlidingWindow: Option<nat>
    const cpuAllocator: BlockAllocator
    const gpuAllocator: BlockAllocator
    var blockTables: map<nat, seq<PhysicalTokenBlock>>

    ghost function Pool(d: Device): seq<PhysicalTokenBlock> {
      if d == Gpu then gpuAllocator.pool else cpuAllocator.pool
    }

    /** Block `b` is one of the manager's own. */
    ghost predicate Owns(b: PhysicalTokenBlock) {
      b.blockNumber < |Pool(b.device)| && Pool(b.device)[b.blockNumber] == b
    }

    ghost predicate OwnsAll(s: seq<PhysicalTokenBlock>) {
      forall b :: b in s ==> Owns(b)
    }

    ghost predicate PoolsOk() {
      && gpuAllocator != cpuAllocator
      && gpuAllocator.numBlocks == |gpuAllocator.pool| && cpuAllocator.numBlocks == |cpuAllocator.pool|
      && numGpuBlocks == |gpuAllocator.pool|
      && (forall i :: 0 <= i < |gpuAllocator.pool| ==> gpuAllocator.pool[i].Id() == Block(Gpu, i))
      && (forall i :: 0 <= i < |cpuAllocator.pool| ==> cpuAllocator.pool[i].Id() == Block(Cpu, i))
    }

    ghost predicate Valid()
      reads this, gpuAllocator, cpuAllocator
    {
      && PoolsOk() && OwnsAll(gpuAllocator.freeBlocks) && OwnsAll(cpuAllocator.freeBlocks)
      && forall s :: s in blockTables ==> OwnsAll(blockTables[s])
    }

    ghost function Counts(): (rc: map<Block, nat>)
      requires PoolsOk()
      reads gpuAllocator.pool, cpuAllocator.pool
    {
      map id: Block | id in Universe(|gpuAllocator.pool|, |cpuAllocator.pool|) :: Pool(id.device)[id.number].refCount
    }

    /** The state that the blocks, free lists and tables represent. */
    ghost function Abs(): State
      requires Valid()
      reads this, gpuAllocator, cpuAllocator, gpuAllocator.pool, cpuAllocator.pool
    {
      State(Counts(), Ids(gpuAllocator.freeBlocks), Ids(cpuAllocator.freeBlocks),
            TableIds(blockTables))
    }

    constructor (blockSize: nat, numCpuBlocks: nat, numGpuBlocks: nat, slidingWindow: Option<nat>)
      requires slidingWindow.Some? ==> blockSize > 0
      ensures Valid() && Abs() == Initial(numGpuBlocks, numCpuBlocks)
      ensures fresh(gpuAllocator) && fresh(cpuAllocator)
      ensures this.numGpuBlocks == numGpuBlocks
      ensures blockSlidingWindow == if slidingWindow.Some? then Some(CeilDiv(slidingWindow.value, blockSize)) else None
    {
      this.blockSize := blockSize;
      this.numGpuBlocks := numGpuBlocks;
      this.blockSlidingWindow := if slidingWindow.Some? then Some(CeilDiv(slidingWindow.value, blockSize)) else None;
      this.cpuAllocator := new BlockAllocator(blockSize, Cpu, numCpuBlocks);
      this.gpuAllocator := new BlockAllocator(blockSize, Gpu, numGpuBlocks);
      this.blockTables := map[];
      new;
      assert Ids(gpuAllocator.freeBlocks) == PoolBlocks(Gpu, numGpuBlocks);
      assert Ids(cpuAllocator.freeBlocks) == PoolBlocks(Cpu, numCpuBlocks);
      forall id | id in Universe(numGpuBlocks, numCpuBlocks)
        ensures Counts()[id] == 0
      {
        InPool(id);
      }
      assert Counts() == Initial(numGpuBlocks, numCpuBlocks).rc;
    }

    lemma InPool(id: Block)
      requires PoolsOk()
      ensures id in Universe(|gpuAllocator.pool|, |cpuAllocator.pool|) <==> id.number < |Pool(id.device)|
      ensures id.number < |Pool(id.device)| ==> Pool(id.device)[id.number].Id() == id
    {
    }

    // -------------------------------------------------------------- one block at a time

    /** `n` is the new count of `b`, and no other count has changed. */
    twostate lemma OneCount(b: PhysicalTokenBlock)
      requires PoolsOk() && Owns(b)
      requires forall x :: (x in gpuAllocator.pool || x in cpuAllocator.pool) && x != b ==> unchanged(x)
      ensures b.Id() in old(Counts()) && old(Counts())[b.Id()] == old(b.refCount)
      ensures Counts() == old(Counts())[b.Id() := b.refCount]
    {
      InPool(b.Id());
      forall id | id in Counts()
        ensures Counts()[id] == if id == b.Id() then b.refCount else old(Counts())[id]
      {
        InPool(id);
        var x := Pool(id.device)[id.number];
        assert x in gpuAllocator.pool || x in cpuAllocator.pool;
      }
    }

    lemma Owned(b: PhysicalTokenBlock)
      requires PoolsOk() && Owns(b)
      ensures b in gpuAllocator.pool || b in cpuAllocator.pool
    {
    }

    method TakeFrom(d: Device) returns (r: Result<PhysicalTokenBlock, Error>)
      requires Valid()
      modifies gpuAllocator, cpuAllocator, gpuAllocator.pool, cpuAllocator.pool
      ensures Valid() && blockTables == old(blockTables)
      ensures r.Ok? ==> Owns(r.value) && TakeBlock(old(Abs()), d) == (Abs(), Ok(r.value.Id()))
      ensures r.Err? ==> TakeBlock(old(Abs()), d) == (Abs(), Err(r.error))
    {
      hide Ids, TableIds, Counts, Universe;
      var allocator := if d == Gpu then gpuAllocator else cpuAllocator;
      ghost var free := allocator.freeBlocks;
      if free != [] {
        var last := free[|free| - 1];
        assert last in free;
        Owned(last);
        IdsFacts(free, last);
      }
      r := allocator.Allocate();
      if r.Ok? {
        OneCount(r.value);
      }
    }

    method ReleaseTo(d: Device, b: PhysicalTokenBlock) returns (r: Result<(), Error>)
      requires Valid() && Owns(b)
      modifies gpuAllocator, cpuAllocator, gpuAllocator.pool, cpuAllocator.pool
      ensures Valid() && blockTables == old(blockTables)
      ensures ReleaseBlock(old(Abs()), d, b.Id()) == (Abs(), r)
    {
      hide Ids, TableIds, Counts, Universe;
      var allocator := if d == Gpu then gpuAllocator else cpuAllocator;
      Owned(b);
      IdsFacts(allocator.freeBlocks, b);
      r := allocator.Free(b);
      OneCount(b);
      if r.Err? {
        assert Counts() == old(Counts());
      }
    }

    method SetCount(b: PhysicalTokenBlock, n: nat)
      requires Valid() && Owns(b)
      modifies gpuAllocator.pool, cpuAllocator.pool
      ensures Valid() && Abs() == old(Abs()).WithCount(b.Id(), n)
    {
      hide Ids, TableIds, Universe;
      Owned(b);
      b.SetRefCountBy(n);
      OneCount(b);
    }

    method CountUp(b: PhysicalTokenBlock)
      requires Valid() && Owns(b)
      modifies gpuAllocator.pool, cpuAllocator.pool
      ensures Valid() && Abs() == old(Abs()).WithCount(b.Id(), old(Abs()).Count(b.Id()) + 1)
    {
      hide Ids, TableIds, Universe;
      Owned(b);
      b.IncrementRefCount();
      OneCount(b);
    }

    /** What Valid and Abs say about the table of `s`. */
    lemma TableOf(s: nat)
      requires Valid()
      ensures s in blockTables <==> s in Abs().tables
      ensures s in blockTables ==> OwnsAll(blockTables[s]) && Abs().tables[s] == Ids(blockTables[s])
    {
    }

    lemma FreeCounts()
      requires Valid()
      ensures |gpuAllocator.freeBlocks| == |Abs().gpuFree| && |cpuAllocator.freeBlocks| == |Abs().cpuFree|
      ensures gpuAllocator.numBlocks == numGpuBlocks
    {
    }

    method SetTable(id: nat, table: seq<PhysicalTokenBlock>)
      requires Valid() && OwnsAll(table)
      modifies this`blockTables
      ensures Valid() && blockTables == old(blockTables)[id := table]
      ensures Abs() == old(Abs()).WithTables(old(Abs()).tables[id := Ids(table)])
    {
      blockTables := blockTables[id := table];
      assert TableIds(blockTables) == old(TableIds(blockTables))[id := Ids(table)];
    }

    method RemoveTables(ids: set<nat>)
      requires Valid()
      modifies this`blockTables
      ensures Valid() && blockTables == old(blockTables) - ids
      ensures Abs() == old(Abs()).WithTables(old(Abs()).tables - ids)
    {
      blockTables := blockTables - ids;
      assert TableIds(blockTables) == old(TableIds(blockTables)) - ids;
    }

    // -------------------------------------------------------------- allocate

    method CanAllocate(g: Group) returns (status: AllocationStatus)
      requires Valid()
      ensures status == BlockState.CanAllocate(Abs(), blockSlidingWindow, numGpuBlocks, g)
    {
      var first := FirstBlocks(g, Waiting);
      if first.None? {
        return Nothing;
      }
      var required := first.value;
      if blockSlidingWindow.Some? && blockSlidingWindow.value < required {
        required := blockSlidingWindow.value;
      }
      var free := |gpuAllocator.freeBlocks|;
      FreeCounts();
      if free >= required {
        status := CanNow;
      } else if numGpuBlocks < required {
        status := Never;
      } else {
        status := Later;
      }
    }

    method Allocate(g: Group) returns (r: Result<(), Error>)
      requires Valid()
      modifies this`blockTables, gpuAllocator, cpuAllocator, gpuAllocator.pool, cpuAllocator.pool
      ensures Valid()
      ensures (Abs(), r) == BlockState.Allocate(old(Abs()), blockSlidingWindow, g)
    {
      hide Valid, Abs, TakeBlock, Ids, Owns;
      var first := FirstBlocks(g, Waiting);
      if first.None? {
        return Ok(());
      }
      var n := first.value;
      var k := |IdsWith(g, Waiting)|;
      var table: seq<PhysicalTokenBlock> := [];
      assert Ids(table) == [];
      while |table| < n
        invariant Valid() && OwnsAll(table) && |table| <= n
        invariant AllocateLoop(Abs(), blockSlidingWindow, n, k, Ids(table))
               == AllocateLoop(old(Abs()), blockSlidingWindow, n, k, [])
        decreases n - |table|
      {
        var block;
        if blockSlidingWindow.Some? && |table| >= blockSlidingWindow.value {
          if blockSlidingWindow.value == 0 {
            return Err(Panic);
          }
          block := table[|table| % blockSlidingWindow.value];
          assert block in table && Ids(table)[|table| % blockSlidingWindow.value] == block.Id();
        } else {
          var taken := TakeFrom(Gpu);
          if taken.Err? {
            return Err(taken.error);
          }
          block := taken.value;
        }
        SetCount(block, k);
        IdsFacts(table, block);
        table := table + [block];
      }
      ghost var m1 := Abs();
      var ids := IdsWith(g, Waiting);
      assert AssignAll(m1.tables, Elements(ids[..0]), Ids(table)) == m1.tables;
      for j := 0 to |ids|
        invariant Valid() && OwnsAll(table)
        invariant Abs() == m1.WithTables(AssignAll(m1.tables, Elements(ids[..j]), Ids(table)))
      {
        SetTable(ids[j], table);
        AssignNext(m1.tables, ids, j, Ids(table));
      }
      assert ids[..|ids|] == ids;
      return Ok(());
    }

    // -------------------------------------------------------------- append_slots

    method CanAppendSlots(g: Group) returns (ok: bool)
      requires Valid()
      ensures ok == BlockState.CanAppendSlots(Abs(), g)
    {
      FreeCounts();
      ok := |IdsWith(g, Running)| <= |gpuAllocator.freeBlocks|;
    }

    method AppendSlots(id: nat, needed: nat) returns (r: Result<Option<(nat, nat)>, Error>)
      requires Valid()
      modifies this`blockTables, gpuAllocator, cpuAllocator, gpuAllocator.pool, cpuAllocator.pool
      ensures Valid()
      ensures (Abs(), r) == BlockState.AppendSlots(old(Abs()), blockSlidingWindow, id, needed)
    {
      hide Valid, Abs, TakeBlock, Ids, Owns, PrivateLast;
      if needed == 0 {
        return Err(EmptySequence);
      }
      TableOf(id);
      if id !in blockTables {
        return Ok(None);
      }
      var table := blockTables[id];
      if |table| < needed {
        if |table| != needed - 1 {
          return Err(AppendSlotError);
        }
        if blockSlidingWindow.Some? && |table| >= blockSlidingWindow.value {
          if blockSlidingWindow.value == 0 {
            return Err(Panic);
          }
          var reused := table[|table| % blockSlidingWindow.value];
          assert reused in table && Ids(table)[|table| % blockSlidingWindow.value] == reused.Id();
          IdsFacts(table, reused);
          SetTable(id, table + [reused]);
        } else {
          var taken := TakeFrom(Gpu);
          if taken.Err? {
            return Err(taken.error);
          }
          IdsFacts(table, taken.value);
          SetTable(id, table + [taken.value]);
          return Ok(None);
        }
      }
      r := MakeLastPrivate(id);
    }

    /** The token goes into the last block, which is copied first if others share it. */
    method MakeLastPrivate(id: nat) returns (r: Result<Option<(nat, nat)>, Error>)
      requires Valid() && id in blockTables && blockTables[id] != []
      modifies this`blockTables, gpuAllocator, cpuAllocator, gpuAllocator.pool, cpuAllocator.pool
      ensures Valid()
      ensures id in old(Abs()).tables && old(Abs()).tables[id] != []
      ensures (Abs(), r) == PrivateLast(old(Abs()), id)
    {
      hide Valid, Abs, TakeBlock, ReleaseBlock, Ids, Owns;
      TableOf(id);
      var table := blockTables[id];
      var last := table[|table| - 1];
      assert last in table && Ids(table)[|table| - 1] == last.Id();
      CountOf(last);
      if last.refCount == 1 {
        return Ok(None);
      }
      var taken := TakeFrom(Gpu);
      if taken.Err? {
        return Err(taken.error);
      }
      var block := taken.value;
      var released := ReleaseTo(Gpu, last);
      if released.Err? {
        return Err(released.error);
      }
      var replaced := table[|table| - 1 := block];
      assert Ids(replaced) == Ids(table)[|table| - 1 := block.Id()];
      SetTable(id, replaced);
      return Ok(Some((last.blockNumber, block.blockNumber)));
    }

    lemma CountOf(b: PhysicalTokenBlock)
      requires Valid() && Owns(b)
      ensures Abs().Count(b.Id()) == b.refCount
    {
    }

    // -------------------------------------------------------------- fork

    method Fork(parent: nat, child: nat) returns (r: Result<(), Error>)
      requires Valid()
      modifies this`blockTables, gpuAllocator.pool, cpuAllocator.pool
      ensures Valid()
      ensures (Abs(), r) == BlockState.Fork(old(Abs()), parent, child)
    {
      hide Valid, Abs, Ids, Owns, Elements;
      TableOf(parent);
      if parent !in blockTables {
        return Err(MissingSequence);
      }
      var table := blockTables[parent];
      SetTable(child, table);
      ghost var m0 := Abs();
      var seen: seq<nat> := [];
      assert Ids(table)[0..] == Ids(table);
      NoneSeen();
      for i := 0 to |table|
        invariant Valid() && OwnsAll(table)
        invariant ForkLoop(Abs(), Ids(table)[i..], Elements(seen)) == ForkLoop(m0, Ids(table), {})
      {
        var block := table[i];
        assert block in table;
        assert Ids(table)[i..][0] == block.Id() && Ids(table)[i..][1..] == Ids(table)[i + 1..];
        SeenNext(seen, block.blockNumber);
        if block.blockNumber !in seen {
          CountUp(block);
        }
        seen := seen + [block.blockNumber];
      }
      return Ok(());
    }

    // -------------------------------------------------------------- swapping

    method GetPhysicalBlocks(g: Group) returns (output: seq<PhysicalTokenBlock>)
      requires Valid()
      ensures Ids(output) == PhysicalBlocks(Abs(), g)
    {
      hide Valid, Abs, Ids, Owns;
      output := [];
      var numbers: seq<nat> := [];
      var ids := UnfinishedIds(g);
      assert Ids(output) == [] && ids[0..] == ids;
      for j := 0 to |ids|
        invariant Valid() && NumbersOf(output, numbers)
        invariant PhysicalBlocksOf(Abs(), ids[j..], Ids(output)) == PhysicalBlocks(Abs(), g)
      {
        assert ids[j..][0] == ids[j] && ids[j..][1..] == ids[j + 1..];
        TableOf(ids[j]);
        if ids[j] in blockTables {
          var table := blockTables[ids[j]];
          ghost var before := Ids(output);
          assert Ids(table)[0..] == Ids(table);
          for i := 0 to |table|
            invariant NumbersOf(output, numbers)
            invariant FirstOfNumber(Ids(table)[i..], Ids(output)) == FirstOfNumber(Ids(table), before)
          {
            var block := table[i];
            assert Ids(table)[i..][0] == block.Id() && Ids(table)[i..][1..] == Ids(table)[i + 1..];
            NumbersIn(output, numbers, block.blockNumber);
            if block.blockNumber !in numbers {
              IdsFacts(output, block);
              numbers := numbers + [block.blockNumber];
              output := output + [block];
            }
          }
          assert Ids(table)[|table|..] == [];
        }
      }
      assert ids[|ids|..] == [];
    }

    ghost predicate NumbersOf(output: seq<PhysicalTokenBlock>, numbers: seq<nat>) {
      |numbers| == |output| && forall i :: 0 <= i < |output| ==> numbers[i] == output[i].blockNumber
    }

    lemma NumbersIn(output: seq<PhysicalTokenBlock>, numbers: seq<nat>, n: nat)
      requires NumbersOf(output, numbers)
      ensures n in numbers <==> exists b :: b in Ids(output) && b.number == n
    {
      if n in numbers {
        var i :| 0 <= i < |numbers| && numbers[i] == n;
        assert Ids(output)[i] in Ids(output) && Ids(output)[i].number == n;
      }
      if exists b :: b in Ids(output) && b.number == n {
        var b :| b in Ids(output) && b.number == n;
        var i :| 0 <= i < |output| && Ids(output)[i] == b;
        assert numbers[i] == n;
      }
    }

    method CanSwapIn(g: Group) returns (status: AllocationStatus)
      requires Valid()
      ensures status == BlockState.CanSwapIn(Abs(), numGpuBlocks, g)
    {
      var blocks := GetPhysicalBlocks(g);
      FreeCounts();
      assert |blocks| == |Ids(blocks)|;
      var required := |blocks| + |IdsWith(g, Swapped)|;
      if gpuAllocator.numBlocks < required {
        status := Never;
      } else if |gpuAllocator.freeBlocks| >= required {
        status := CanNow;
      } else {
        status := Later;
      }
    }

    method CanSwapOut(g: Group) returns (ok: bool)
      requires Valid()
      ensures ok == BlockState.CanSwapOut(Abs(), g)
    {
      var blocks := GetPhysicalBlocks(g);
      FreeCounts();
      assert |blocks| == |Ids(blocks)|;
      ok := |blocks| <= |cpuAllocator.freeBlocks|;
    }

    /** Moves the blocks of one table, remembering in the mapping what has been moved. */
    method MoveTable(src: Device, dst: Device, table: seq<PhysicalTokenBlock>, mapping: map<nat, PhysicalTokenBlock>)
      returns (r: Result<(map<nat, PhysicalTokenBlock>, seq<PhysicalTokenBlock>), Error>)
      requires Valid() && OwnsAll(table) && OwnsMap(mapping)
      modifies gpuAllocator, cpuAllocator, gpuAllocator.pool, cpuAllocator.pool
      ensures Valid() && blockTables == old(blockTables)
      ensures r.Ok? ==>
        && OwnsMap(r.value.0) && OwnsAll(r.value.1)
        && BlockState.MoveTable(old(Abs()), src, dst, Ids(table), IdMap(mapping), [])
           == (Abs(), Ok((IdMap(r.value.0), Ids(r.value.1))))
      ensures r.Err? ==>
        BlockState.MoveTable(old(Abs()), src, dst, Ids(table), IdMap(mapping), []) == (Abs(), Err(r.error))
    {
      hide Valid, Abs, TakeBlock, ReleaseBlock, Ids, IdMap, Owns;
      var moved: seq<PhysicalTokenBlock> := [];
      var known: map<nat, PhysicalTokenBlock> := mapping;
      assert Ids(table)[0..] == Ids(table) && Ids(moved) == [];
      for i := 0 to |table|
        invariant Valid() && OwnsAll(moved) && OwnsMap(known)
        invariant BlockState.MoveTable(Abs(), src, dst, Ids(table)[i..], IdMap(known), Ids(moved))
               == BlockState.MoveTable(old(Abs()), src, dst, Ids(table), IdMap(mapping), [])
      {
        var block := table[i];
        assert block in table;
        assert Ids(table)[i..][0] == block.Id() && Ids(table)[i..][1..] == Ids(table)[i + 1..];
        IdMapFacts(known, block.blockNumber);
        var target;
        if block.blockNumber in known {
          target := known[block.blockNumber];
          CountUp(target);
        } else {
          var taken := TakeFrom(dst);
          if taken.Err? {
            return Err(taken.error);
          }
          target := taken.value;
        }
        IdMapUpdate(known, block.blockNumber, target);
        IdsFacts(moved, target);
        known := known[block.blockNumber := target];
        moved := moved + [target];
        var released := ReleaseTo(src, block);
        if released.Err? {
          return Err(released.error);
        }
      }
      assert Ids(table)[|table|..] == [];
      return Ok((known, moved));
    }

    lemma OwnsNone()
      ensures OwnsMap(map[])
    {
    }

    ghost predicate OwnsMap(mapping: map<nat, PhysicalTokenBlock>) {
      forall n :: n in mapping ==> Owns(mapping[n])
    }

    /** Moves one sequence of a group, of which `rest` is still to be moved. */
    method MoveSequence(id: nat, src: Device, dst: Device, mapping: map<nat, PhysicalTokenBlock>, ghost rest: seq<nat>)
      returns (r: Result<map<nat, PhysicalTokenBlock>, Error>)
      requires Valid() && OwnsMap(mapping)
      modifies this`blockTables, gpuAllocator, cpuAllocator, gpuAllocator.pool, cpuAllocator.pool
      ensures Valid() && (r.Ok? ==> OwnsMap(r.value))
      ensures MovedOne(old(Abs()), src, dst, id, rest, mapping, Abs(), r)
    {
      hide Valid, Abs, Ids, IdMap, Owns, BlockState.MoveTable, OwnsMap, OwnsAll;
      assert ([id] + rest)[1..] == rest;
      TableOf(id);
      r := Ok(mapping);
      if id in blockTables {
        var moved := MoveTable(src, dst, blockTables[id], mapping);
        if moved.Err? {
          return Err(moved.error);
        }
        SetTable(id, moved.value.1);
        r := Ok(moved.value.0);
      }
    }

    /** Moves the sequences of a group that have status `from`, and gives them status `to`. */
    method MoveSequences(g: Group, src: Device, dst: Device, from: Status, to: Status)
      returns (g1: Group, r: Result<map<nat, nat>, Error>)
      requires Valid()
      modifies this`blockTables, gpuAllocator, cpuAllocator, gpuAllocator.pool, cpuAllocator.pool
      ensures Valid()
      ensures (Abs(), g1, r) == BlockState.MoveStatus(old(Abs()), g, src, dst, from, to)
    {
      hide *;
      var mapping: map<nat, PhysicalTokenBlock> := map[];
      var ids := IdsWith(g, from);
      g1 := g;
      OwnsNone();
      ghost var m0 := Abs();
      MovingStart(m0, src, dst, ids);
      WithStatusNone(g, ids, to);
      for j := 0 to |ids|
        invariant Valid() && OwnsMap(mapping) && MovingOn(m0, src, dst, ids, j, Abs(), mapping)
        invariant g1 == WithStatus(g, Elements(ids[..j]), to)
      {
        ghost var m := Abs();
        var moved := MoveSequence(ids[j], src, dst, mapping, ids[j + 1..]);
        MovingNext(m0, src, dst, ids, j, m, mapping, Abs(), moved);
        if moved.Err? {
          MoveStatusIs(m0, g, src, dst, from, to, Abs(), j, Err(moved.error));
          return g1, Err(moved.error);
        }
        mapping := moved.value;
        WithStatusMore(g, ids, j, to);
        g1 := WithStatus(g1, {ids[j]}, to);
      }
      MovingEnd(m0, src, dst, ids, Abs(), mapping);
      MoveStatusIs(m0, g, src, dst, from, to, Abs(), |ids|, Ok(IdMap(mapping)));
      return g1, Ok(NumberMap(mapping));
    }

    method SwapIn(g: SequenceGroup) returns (r: Result<map<nat, nat>, Error>)
      requires Valid()
      modifies g, this`blockTables, gpuAllocator, cpuAllocator, gpuAllocator.pool, cpuAllocator.pool
      ensures Valid()
      ensures (Abs(), g.sequences, r) == BlockState.SwapIn(old(Abs()), old(g.sequences))
    {
      hide BlockState.MoveStatus;
      var g1;
      g1, r := MoveSequences(g.sequences, Cpu, Gpu, Swapped, Running);
      g.sequences := g1;
    }

    method SwapOut(g: SequenceGroup) returns (r: Result<map<nat, nat>, Error>)
      requires Valid()
      modifies g, this`blockTables, gpuAllocator, cpuAllocator, gpuAllocator.pool, cpuAllocator.pool
      ensures Valid()
      ensures (Abs(), g.sequences, r) == BlockState.SwapOut(old(Abs()), old(g.sequences))
    {
      hide BlockState.MoveStatus;
      var g1;
      g1, r := MoveSequences(g.sequences, Gpu, Cpu, Running, Swapped);
      g.sequences := g1;
    }

    // -------------------------------------------------------------- free and reset

    method FreeBlockTable(table: seq<PhysicalTokenBlock>) returns (r: Result<(), Error>)
      requires Valid() && OwnsAll(table)
      modifies gpuAllocator, cpuAllocator, gpuAllocator.pool, cpuAllocator.pool
      ensures Valid() && blockTables == old(blockTables)
      ensures (Abs(), r) == BlockState.FreeBlockTable(old(Abs()), blockSlidingWindow, Ids(table))
    {
      hide Valid, Abs, ReleaseBlock, Ids, Owns;
      if blockSlidingWindow.Some? && blockSlidingWindow.value > |table| {
        return Err(Panic);
      }
      var blocks := if blockSlidingWindow.Some? then table[blockSlidingWindow.value..] else table;
      assert Ids(blocks) == if blockSlidingWindow.Some? then Ids(table)[blockSlidingWindow.value..] else Ids(table);
      var seen: seq<nat> := [];
      assert Ids(blocks)[0..] == Ids(blocks) && Elements(seen) == {};
      for i := 0 to |blocks|
        invariant Valid()
        invariant FreeLoop(Abs(), Ids(blocks)[i..], Elements(seen)) == FreeLoop(old(Abs()), Ids(blocks), {})
      {
        var block := blocks[i];
        assert block in table;
        assert Ids(blocks)[i..][0] == block.Id() && Ids(blocks)[i..][1..] == Ids(blocks)[i + 1..];
        if block.blockNumber !in seen {
          assert Elements(seen + [block.blockNumber]) == Elements(seen) + {block.blockNumber};
          seen := seen + [block.blockNumber];
          var released;
          if block.device == Cpu {
            released := ReleaseTo(Cpu, block);
          } else {
            released := ReleaseTo(Gpu, block);
          }
          if released.Err? {
            return released;
          }
        }
      }
      assert Ids(blocks)[|blocks|..] == [];
      return Ok(());
    }

    method Free(id: nat) returns (r: Result<(), Error>)
      requires Valid()
      modifies this`blockTables, gpuAllocator, cpuAllocator, gpuAllocator.pool, cpuAllocator.pool
      ensures Valid()
      ensures (Abs(), r) == FreeSeq(old(Abs()), blockSlidingWindow, id)
    {
      hide Valid, Abs, Ids, Owns, BlockState.FreeBlockTable;
      TableOf(id);
      if id !in blockTables {
        return Ok(());
      }
      r := FreeBlockTable(blockTables[id]);
      if r.Err? {
        return;
      }
      RemoveTables({id});
      return Ok(());
    }

    /** `order` is the order in which the hash map of tables happened to be iterated. */
    method Reset() returns (r: Result<(), Error>, ghost order: seq<nat>)
      requires Valid()
      modifies this`blockTables, gpuAllocator, cpuAllocator, gpuAllocator.pool, cpuAllocator.pool
      ensures Valid()
      ensures NoDup(order) && Elements(order) == old(Abs()).tables.Keys
      ensures (Abs(), r) == ResetLoop(old(Abs()), blockSlidingWindow, order)
    {
      hide Valid, Abs, Ids, Owns, BlockState.FreeBlockTable, NoDup, Continues, ResetLoop, TableIds, Elements;
      var todo := blockTables.Keys;
      order := [];
      TableKeys();
      ghost var m0 := Abs();
      OrderStart(m0, blockSlidingWindow);
      while todo != {}
        invariant Valid() && blockTables == old(blockTables) && Abs().tables == m0.tables
        invariant NoDup(order) && Elements(order) !! todo && Elements(order) + todo == m0.tables.Keys
        invariant Continues(m0, blockSlidingWindow, order, Abs())
        decreases todo
      {
        var id :| id in todo;
        TableOf(id);
        ghost var m := Abs();
        r := FreeBlockTable(blockTables[id]);
        TableKeys();
        todo := todo - {id};
        OrderNext(order, id);
        if r.Err? {
          order := OrderRest(m0, blockSlidingWindow, order, m, id, todo);
          return;
        }
        ContinuesNext(m0, blockSlidingWindow, order, m, id, Abs());
        order := order + [id];
      }
      ContinuesEnd(m0, blockSlidingWindow, order, Abs());
      RemoveTables(blockTables.Keys);
      return Ok(()), order;
    }

    lemma TableKeys()
      requires Valid()
      ensures Abs().tables == TableIds(blockTables) && Abs().tables.Keys == blockTables.Keys
    {
    }
  }

  lemma NoneSeen()
    ensures Elements<nat>([]) == {}
  {
  }

  lemma SeenNext(seen: seq<nat>, n: nat)
    ensures Elements(seen + [n]) == Elements(seen) + {n}
    ensures n in Elements(seen) <==> n in seen
  {
  }

  lemma AssignNext(tables: map<nat, Table>, ids: seq<nat>, j: nat, table: Table)
    requires j < |ids|
    ensures AssignAll(tables, Elements(ids[..j]), table)[ids[j] := table]
      == AssignAll(tables, Elements(ids[..j + 1]), table)
  {
  }

  ghost function IdMap(mapping: map<nat, PhysicalTokenBlock>): map<nat, Block> {
    map n | n in mapping :: mapping[n].Id()
  }

  lemma IdMapFacts(mapping: map<nat, PhysicalTokenBlock>, n: nat)
    ensures n in IdMap(mapping) <==> n in mapping
    ensures n in mapping ==> IdMap(mapping)[n] == mapping[n].Id()
  {
  }

  lemma IdMapUpdate(mapping: map<nat, PhysicalTokenBlock>, n: nat, b: PhysicalTokenBlock)
    ensures IdMap(mapping[n := b]) == IdMap(mapping)[n := b.Id()]
  {
  }

  function NumberMap(mapping: map<nat, PhysicalTokenBlock>): map<nat, nat> {
    map n | n in mapping :: mapping[n].blockNumber
  }

  type Moved = Result<map<nat, PhysicalTokenBlock>, Error>

  /** Moving the first `j` sequences of `ids` has led from `m0` to `m`. */
  ghost predicate MovingOn(m0: State, src: Device, dst: Device, ids: seq<nat>, j: nat, m: State,
                           mapping: map<nat, PhysicalTokenBlock>)
  {
    j <= |ids| &&
    var rest := MoveGroup(m, src, dst, ids[j..], IdMap(mapping));
    MoveGroup(m0, src, dst, ids, map[]) == (rest.0, j + rest.1, rest.2)
  }

  /** One sequence of a group has been moved, or could not be. */
  ghost predicate MovedOne(m: State, src: Device, dst: Device, id: nat, rest: seq<nat>,
                           mapping: map<nat, PhysicalTokenBlock>, m1: State, r: Moved)
  {
    var all := MoveGroup(m, src, dst, [id] + rest, IdMap(mapping));
    match r
    case Err(e) => all == (m1, 0, Err(e))
    case Ok(known) =>
      var later := MoveGroup(m1, src, dst, rest, IdMap(known));
      all == (later.0, 1 + later.1, later.2)
  }

  lemma MovingStart(m0: State, src: Device, dst: Device, ids: seq<nat>)
    ensures MovingOn(m0, src, dst, ids, 0, m0, map[])
  {
  }

  lemma MovingNext(m0: State, src: Device, dst: Device, ids: seq<nat>, j: nat, m: State,
                   mapping: map<nat, PhysicalTokenBlock>, m1: State, r: Moved)
    requires j < |ids| && MovingOn(m0, src, dst, ids, j, m, mapping)
    requires MovedOne(m, src, dst, ids[j], ids[j + 1..], mapping, m1, r)
    ensures r.Ok? ==> MovingOn(m0, src, dst, ids, j + 1, m1, r.value)
    ensures r.Err? ==> MoveGroup(m0, src, dst, ids, map[]) == (m1, j, Err(r.error))
  {
    hide MoveGroup, IdMap;
    assert ids[j..] == [ids[j]] + ids[j + 1..];
  }

  lemma MovingEnd(m0: State, src: Device, dst: Device, ids: seq<nat>, m: State, mapping: map<nat, PhysicalTokenBlock>)
    requires MovingOn(m0, src, dst, ids, |ids|, m, mapping)
    ensures MoveGroup(m0, src, dst, ids, map[]) == (m, |ids|, Ok(IdMap(mapping)))
    ensures NumberMap(mapping) == Numbers(IdMap(mapping)) && ids[..|ids|] == ids
  {
  }

  lemma MoveStatusIs(m0: State, g: Group, src: Device, dst: Device, from: Status, to: Status,
                     m1: State, n: nat, r: Result<map<nat, Block>, Error>)
    requires MoveGroup(m0, src, dst, IdsWith(g, from), map[]) == (m1, n, r)
    ensures n <= |IdsWith(g, from)|
    ensures MoveStatus(m0, g, src, dst, from, to)
         == (m1, WithStatus(g, Elements(IdsWith(g, from)[..n]), to),
             match r case Ok(mapping) => Ok(Numbers(mapping)) case Err(e) => Err(e))
  {
  }

  lemma WithStatusNone(g: Group, ids: seq<nat>, to: Status)
    ensures WithStatus(g, Elements(ids[..0]), to) == g
  {
  }

  lemma WithStatusMore(g: Group, ids: seq<nat>, j: nat, to: Status)
    requires j < |ids|
    ensures WithStatus(WithStatus(g, Elements(ids[..j]), to), {ids[j]}, to) == WithStatus(g, Elements(ids[..j + 1]), to)
  {
  }

  /** From `m`, `reset` goes on as it would from `m0` after visiting `order`. */
  ghost predicate Continues(m0: State, window: Option<nat>, order: seq<nat>, m: State) {
    forall rest: seq<nat> :: ResetLoop(m0, window, order + rest) == ResetLoop(m, window, rest)
  }

  lemma OrderStart(m0: State, window: Option<nat>)
    ensures Continues(m0, window, [], m0) && NoDup<nat>([]) && Elements<nat>([]) == {}
  {
    forall rest: seq<nat>
      ensures [] + rest == rest
    {
    }
  }

  lemma ContinuesNext(m0: State, window: Option<nat>, order: seq<nat>, m: State, id: nat, m1: State)
    requires Continues(m0, window, order, m) && id in m.tables
    requires var (m2, r) := BlockState.FreeBlockTable(m, window, m.tables[id]); m2 == m1 && r.Ok?
    ensures Continues(m0, window, order + [id], m1)
  {
    forall rest: seq<nat>
      ensures ResetLoop(m0, window, order + [id] + rest) == ResetLoop(m1, window, rest)
    {
      assert order + [id] + rest == order + ([id] + rest);
      assert ([id] + rest)[1..] == rest;
    }
  }

  lemma ContinuesEnd(m0: State, window: Option<nat>, order: seq<nat>, m: State)
    requires Continues(m0, window, order, m)
    ensures ResetLoop(m0, window, order) == (m.WithTables(m.tables - m.tables.Keys), Ok(()))
  {
    assert order + [] == order;
    assert ResetLoop(m0, window, order + []) == ResetLoop(m, window, []);
    assert m.tables - m.tables.Keys == map[];
  }

  lemma OrderNext(order: seq<nat>, id: nat)
    requires NoDup(order)
    ensures Elements(order + [id]) == Elements(order) + {id}
    ensures id !in Elements(order) ==> NoDup(order + [id])
  {
  }

  /** The sequences not yet visited when a table could not be freed come last. */
  ghost method OrderRest(m0: State, window: Option<nat>, order: seq<nat>, m: State, id: nat, todo: set<nat>)
    returns (all: seq<nat>)
    requires Continues(m0, window, order, m) && id in m.tables
    requires BlockState.FreeBlockTable(m, window, m.tables[id]).1.Err?
    requires NoDup(order) && id !in Elements(order) + todo && Elements(order) !! todo
    ensures NoDup(all) && Elements(all) == Elements(order) + {id} + todo
    ensures ResetLoop(m0, window, all) == BlockState.FreeBlockTable(m, window, m.tables[id])
  {
    var rest := SomeOrder(todo);
    OrderNext(order, id);
    all := order + ([id] + rest);
    assert ([id] + rest)[0] == id;
    JoinOrders(order + [id], rest);
    assert order + [id] + rest == all;
  }
}
