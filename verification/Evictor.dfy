/** The least-recently-used evictor: a table in insertion order, scanned from the front until the
    timestamps grow. */
module Evictor {
  import opened Common

  datatype CachedBlock = CachedBlock(number: nat, lastAccessed: nat, numHashedTokens: nat, computed: bool)

  datatype EvictorError = EmptyFreeTable

  type FreeTable = seq<CachedBlock>

  /** The position of the block with the given number; the length of the table if there is none. */
  function IndexOf(t: FreeTable, number: nat): (i: nat)
    ensures i <= |t|
    ensures i < |t| ==> t[i].number == number
    ensures forall j :: 0 <= j < i ==> t[j].number != number
  {
    if t == [] || t[0].number == number then 0 else 1 + IndexOf(t[1..], number)
  }

  function RemoveAt(t: FreeTable, i: nat): FreeTable
    requires i < |t|
  {
    t[..i] + t[i + 1..]
  }

  /** A block whose number is already in the table takes the place of the old one. */
  function Inserted(t: FreeTable, b: CachedBlock): FreeTable {
    var i := IndexOf(t, b.number);
    if i < |t| then t[i := b] else t + [b]
  }

  function Removed(t: FreeTable, number: nat): FreeTable {
    var i := IndexOf(t, number);
    if i < |t| then RemoveAt(t, i) else t
  }

  /** Where the scan ends up, with `best` as the candidate so far and `i` as the next position. */
  function Victim(t: FreeTable, best: nat, i: nat): (v: nat)
    requires best < |t| && i <= |t|
    ensures v < |t|
    decreases |t| - i
  {
    if i == |t| || t[best].lastAccessed < t[i].lastAccessed then best
    else Victim(t, if t[best].numHashedTokens < t[i].numHashedTokens then i else best, i + 1)
  }

  /** The table is keyed by block number. */
  ghost predicate Keyed(t: FreeTable) {
    forall i, j :: 0 <= i < j < |t| ==> t[i].number != t[j].number
  }

  ghost predicate Holds(t: FreeTable, number: nat) {
    exists i :: 0 <= i < |t| && t[i].number == number
  }

  class LRUEvictor {
    var freeTable: FreeTable

    ghost predicate Valid()
      reads this
    {
      Keyed(freeTable)
    }

    constructor ()
      ensures Valid() && freeTable == []
    {
      freeTable := [];
    }

    method Contains(number: nat) returns (r: bool)
      ensures r <==> Holds(freeTable, number)
    {
      r := IndexOf(freeTable, number) < |freeTable|;
    }

    /** The block at which the scan stops leaves the table, and the others stay in order. */
    method Evict() returns (r: Result<CachedBlock, EvictorError>)
      requires Valid()
      modifies this
      ensures Valid()
      ensures old(freeTable) == [] ==> r == Err(EmptyFreeTable) && freeTable == []
      ensures old(freeTable) != [] ==>
        var v := Victim(old(freeTable), 0, 1);
        && r == Ok(old(freeTable)[v].(computed := false)) && freeTable == RemoveAt(old(freeTable), v)
        && (Ordered(old(freeTable)) ==> IsOldest(old(freeTable), v))
    {
      if freeTable == [] {
        return Err(EmptyFreeTable);
      }
      var evicted := 0;
      var i := 1;
      while i < |freeTable|
        invariant 1 <= i <= |freeTable| && evicted < |freeTable| && freeTable == old(freeTable)
        invariant Victim(freeTable, evicted, i) == Victim(freeTable, 0, 1)
      {
        var block := freeTable[i];
        if freeTable[evicted].lastAccessed < block.lastAccessed {
          break;
        }
        if freeTable[evicted].numHashedTokens < block.numHashedTokens {
          evicted := i;
        }
        i := i + 1;
      }
      ghost var ordered := Ordered(freeTable);
      if ordered {
        EvictsOldest(freeTable);
      }
      var block := freeTable[evicted];
      freeTable := RemoveAt(freeTable, evicted);
      return Ok(block.(computed := false));
    }

    /** Afterwards the block is held.  A block with a number that was held before takes the place of
        the old one and moves nothing; a block with a new number comes last. */
    method Add(block: CachedBlock)
      requires Valid()
      modifies this
      ensures Valid() && block in freeTable
      ensures Holds(old(freeTable), block.number) ==>
        && |freeTable| == |old(freeTable)|
        && forall i :: 0 <= i < |freeTable| ==>
             freeTable[i] == if old(freeTable)[i].number == block.number then block else old(freeTable)[i]
      ensures !Holds(old(freeTable), block.number) ==> freeTable == old(freeTable) + [block]
      ensures freeTable == Step(old(freeTable), Op.Add(block))
    {
      var i := IndexOf(freeTable, block.number);
      if i < |freeTable| {
        freeTable := freeTable[i := block];
        assert freeTable[i] == block;
      } else {
        freeTable := freeTable + [block];
        assert freeTable[|freeTable| - 1] == block;
      }
    }

    /** Afterwards no block with that number is held; the one that was is returned, and the others
        stay in order. */
    method Remove(number: nat) returns (r: Option<CachedBlock>)
      requires Valid()
      modifies this
      ensures Valid() && !Holds(freeTable, number)
      ensures r.None? <==> !Holds(old(freeTable), number)
      ensures r.None? ==> freeTable == old(freeTable)
      ensures r.Some? ==>
        && r.value.number == number
        && exists before, after :: old(freeTable) == before + [r.value] + after && freeTable == before + after
      ensures freeTable == Step(old(freeTable), Op.Remove(number))
    {
      var i := IndexOf(freeTable, number);
      if i == |freeTable| {
        return None;
      }
      ghost var before, after := freeTable[..i], freeTable[i + 1..];
      assert freeTable == before + [freeTable[i]] + after;
      r := Some(freeTable[i]);
      freeTable := RemoveAt(freeTable, i);
    }

    method NumBlocks() returns (n: nat)
      ensures n == |freeTable|
    {
      n := |freeTable|;
    }
  }

  // ---------------------------------------------------------------- what is evicted

  /** Numbers are distinct and timestamps do not decrease. */
  ghost predicate Ordered(t: FreeTable) {
    forall i, j :: 0 <= i < j < |t| ==> t[i].number != t[j].number && t[i].lastAccessed <= t[j].lastAccessed
  }

  /** The oldest block; of several the one with the most hashed tokens; of several the first. */
  ghost predicate IsOldest(t: FreeTable, v: nat)
    requires v < |t|
  {
    forall i :: 0 <= i < |t| ==>
      && t[v].lastAccessed <= t[i].lastAccessed
      && (t[i].lastAccessed == t[v].lastAccessed ==> t[i].numHashedTokens <= t[v].numHashedTokens)
      && (t[i].lastAccessed == t[v].lastAccessed && t[i].numHashedTokens == t[v].numHashedTokens ==> v <= i)
  }

  /** The scan may stop early in an ordered table. */
  lemma {:induction false} ScanFindsOldest(t: FreeTable, best: nat, i: nat)
    requires Ordered(t) && best < i <= |t| && t[best].lastAccessed == t[0].lastAccessed
    requires forall j :: 0 <= j < i ==> t[j].lastAccessed == t[0].lastAccessed
    requires IsOldest(t[..i], best)
    ensures IsOldest(t, Victim(t, best, i))
    decreases |t| - i
  {
    if i == |t| {
      assert t[..i] == t;
    } else if t[best].lastAccessed < t[i].lastAccessed {
      forall j | 0 <= j < |t|
        ensures t[best].lastAccessed <= t[j].lastAccessed
        ensures t[j].lastAccessed == t[best].lastAccessed ==> j < i
      {
      }
      assert forall j :: 0 <= j < i ==> t[j] == t[..i][j];
    } else {
      assert t[i].lastAccessed == t[0].lastAccessed;
      var best1 := if t[best].numHashedTokens < t[i].numHashedTokens then i else best;
      assert forall j :: 0 <= j < i ==> t[..i + 1][j] == t[..i][j];
      ScanFindsOldest(t, best1, i + 1);
    }
  }

  lemma EvictsOldest(t: FreeTable)
    requires Ordered(t) && t != []
    ensures IsOldest(t, Victim(t, 0, 1))
  {
    ScanFindsOldest(t, 0, 1);
  }

  /** Out of order, the early end of the scan misses an older block. */
  lemma UnorderedMissesOldest() returns (t: FreeTable)
    ensures t != [] && !Ordered(t) && !IsOldest(t, Victim(t, 0, 1))
  {
    t := [CachedBlock(0, 2, 0, true), CachedBlock(1, 3, 0, true), CachedBlock(2, 1, 0, true)];
    assert Victim(t, 0, 1) == 0;
    assert t[2].lastAccessed < t[0].lastAccessed;
  }

  // ---------------------------------------------------------------- over whole runs

  /** Of the first `n` blocks, `v` is the first of those with the most hashed tokens. */
  ghost predicate FirstMost(t: FreeTable, n: nat, v: nat) {
    && v < n <= |t|
    && (forall j :: 0 <= j < n ==> t[j].numHashedTokens <= t[v].numHashedTokens)
    && (forall j :: 0 <= j < v ==> t[j].numHashedTokens < t[v].numHashedTokens)
  }

  /** The scan, on any table: it stops before the first block that is newer than the choice so
      far, and its choice is the first block with the most hashed tokens before that. */
  lemma VictimExact(t: FreeTable)
    requires t != []
    ensures exists p :: FirstMost(t, p, Victim(t, 0, 1)) && ScanStops(t, p, Victim(t, 0, 1)) && ScanPasses(t, 1, p)
  {
    var p := ScanFrom(t, 0, 1);
  }

  ghost predicate ScanStops(t: FreeTable, p: nat, v: nat)
    requires v < |t|
  {
    p >= |t| || t[v].lastAccessed < t[p].lastAccessed
  }

  /** Up to `p` no block is newer than the choice among those before it. */
  ghost predicate ScanPasses(t: FreeTable, from: nat, p: nat) {
    forall i: nat, b: nat :: from <= i < p && i < |t| && FirstMost(t, i, b) ==> t[i].lastAccessed <= t[b].lastAccessed
  }

  lemma {:induction false} ScanFrom(t: FreeTable, best: nat, i: nat) returns (p: nat)
    requires FirstMost(t, i, best)
    ensures FirstMost(t, p, Victim(t, best, i)) && ScanStops(t, p, Victim(t, best, i)) && ScanPasses(t, i, p)
    decreases |t| - i
  {
    if i == |t| || t[best].lastAccessed < t[i].lastAccessed {
      p := i;
    } else {
      var next := if t[best].numHashedTokens < t[i].numHashedTokens then i else best;
      p := ScanFrom(t, next, i + 1);
      forall k: nat, b: nat | i <= k < p && k < |t| && FirstMost(t, k, b)
        ensures t[k].lastAccessed <= t[b].lastAccessed
      {
        if k == i {
          OneFirstMost(t, i, b, best);
        }
      }
    }
  }

  lemma OneFirstMost(t: FreeTable, n: nat, a: nat, b: nat)
    requires FirstMost(t, n, a) && FirstMost(t, n, b)
    ensures a == b
  {
    assert t[a].numHashedTokens <= t[b].numHashedTokens <= t[a].numHashedTokens;
  }


  /** When adding a block keeps the table in order: a new block must be no older than those held,
      and one that takes a known number must fit where the old one was. */
  predicate FitsIn(t: FreeTable, b: CachedBlock) {
    var i := IndexOf(t, b.number);
    && (0 < i ==> t[i - 1].lastAccessed <= b.lastAccessed)
    && (i + 1 < |t| ==> b.lastAccessed <= t[i + 1].lastAccessed)
  }

  lemma AddKeepsOrder(t: FreeTable, b: CachedBlock)
    requires Ordered(t)
    ensures Ordered(Inserted(t, b)) <==> FitsIn(t, b)
  {
    var i := IndexOf(t, b.number);
    var t1 := Inserted(t, b);
    if Ordered(t1) {
      assert 0 < i ==> t1[i - 1] == t[i - 1] && t1[i] == b;
      assert i + 1 < |t| ==> t1[i + 1] == t[i + 1];
    }
    if FitsIn(t, b) {
      forall j, k | 0 <= j < k < |t1|
        ensures t1[j].number != t1[k].number && t1[j].lastAccessed <= t1[k].lastAccessed
      {
        if j == i {
          assert t[i + 1].lastAccessed <= t[k].lastAccessed;
        } else if k == i {
          assert t[j].lastAccessed <= t[i - 1].lastAccessed;
        }
      }
    }
  }

  lemma RemoveKeepsOrder(t: FreeTable, i: nat)
    requires Ordered(t) && i < |t|
    ensures Ordered(RemoveAt(t, i))
  {
  }

  datatype Op = Add(block: CachedBlock) | Evict | Remove(number: nat)

  function Step(t: FreeTable, op: Op): FreeTable {
    match op
    case Add(b) => Inserted(t, b)
    case Evict => if t == [] then t else RemoveAt(t, Victim(t, 0, 1))
    case Remove(n) => Removed(t, n)
  }

  function Run(t: FreeTable, ops: seq<Op>): FreeTable
    decreases |ops|
  {
    if ops == [] then t else Run(Step(t, ops[0]), ops[1..])
  }

  /** Every added block has a fresh number and is no older than the blocks then held. */
  ghost predicate Timely(t: FreeTable, ops: seq<Op>)
    decreases |ops|
  {
    ops != [] ==>
      && (ops[0].Add? ==> forall i :: 0 <= i < |t| ==>
            t[i].number != ops[0].block.number && t[i].lastAccessed <= ops[0].block.lastAccessed)
      && Timely(Step(t, ops[0]), ops[1..])
  }

  /** Whatever was added, evicted and removed before, the next eviction takes the oldest block. */
  lemma {:induction false} RunEvictsOldest(t: FreeTable, ops: seq<Op>)
    requires Ordered(t) && Timely(t, ops)
    ensures Ordered(Run(t, ops))
    ensures Run(t, ops) != [] ==> IsOldest(Run(t, ops), Victim(Run(t, ops), 0, 1))
    decreases |ops|
  {
    if ops == [] {
      if t != [] {
        EvictsOldest(t);
      }
    } else {
      match ops[0] {
        case Add(b) => AddKeepsOrder(t, b);
        case Evict =>
          if t != [] {
            RemoveKeepsOrder(t, Victim(t, 0, 1));
          }
        case Remove(n) =>
          if IndexOf(t, n) < |t| {
            RemoveKeepsOrder(t, IndexOf(t, n));
          }
      }
      RunEvictsOldest(Step(t, ops[0]), ops[1..]);
    }
  }
}
