/** The logical blocks of a sequence: its tokens, cut into blocks that are filled one after the
    other.  The number of blocks is what the block manager is asked to provide. */
module LogicalBlocks {
  import opened Common
  import opened Arithmetic

  datatype BlockError = AllocationError

  class LogicalTokenBlock {
    const blockNumber: nat
    const blockSize: nat
    var tokenIds: seq<nat>
    var numTokens: nat

    ghost predicate Valid()
      reads this
    {
      numTokens == |tokenIds| <= blockSize
    }

    constructor (blockNumber: nat, blockSize: nat)
      ensures Valid() && tokenIds == [] && this.blockNumber == blockNumber && this.blockSize == blockSize
    {
      this.blockNumber := blockNumber;
      this.blockSize := blockSize;
      tokenIds := [];
      numTokens := 0;
    }

    predicate IsFull()
      reads this
    {
      numTokens == blockSize
    }

    function GetNumEmptySlots(): nat
      requires Valid()
      reads this
    {
      blockSize - numTokens
    }

    /** Appends all tokens, or none if they do not fit. */
    method AppendTokens(ids: seq<nat>) returns (r: Result<(), BlockError>)
      requires Valid()
      modifies this
      ensures Valid()
      ensures r.Ok? <==> |old(tokenIds)| + |ids| <= blockSize
      ensures tokenIds == if r.Ok? then old(tokenIds) + ids else old(tokenIds)
    {
      if |ids| <= GetNumEmptySlots() {
        tokenIds := tokenIds + ids;
        numTokens := numTokens + |ids|;
        return Ok(());
      }
      return Err(AllocationError);
    }
  }

  // ---------------------------------------------------------------- blocks as values

  /** The tokens of all blocks, in order. */
  function Flatten(c: seq<seq<nat>>): seq<nat>
    decreases |c|
  {
    if c == [] then [] else Flatten(c[..|c| - 1]) + c[|c| - 1]
  }

  /** All blocks are full but the last, which holds at least one token. */
  ghost predicate Packed(c: seq<seq<nat>>, d: nat) {
    forall i :: 0 <= i < |c| ==> 0 < |c[i]| <= d && (i < |c| - 1 ==> |c[i]| == d)
  }

  lemma {:induction false} PackedLength(c: seq<seq<nat>>, d: nat)
    requires d > 0 && Packed(c, d)
    ensures |Flatten(c)| == if c == [] then 0 else (|c| - 1) * d + |c[|c| - 1]|
    decreases |c|
  {
    if |c| > 1 {
      PackedLength(c[..|c| - 1], d);
      assert (|c| - 1) * d == (|c| - 2) * d + d;
    } else if |c| == 1 {
      assert Flatten(c[..0]) == [];
      assert 0 * d == 0;
    }
  }

  /** As many blocks as the tokens need, and no more. */
  lemma BlocksNeeded(c: seq<seq<nat>>, d: nat)
    requires d > 0 && Packed(c, d)
    ensures |c| == CeilDiv(|Flatten(c)|, d)
  {
    PackedLength(c, d);
    if c != [] {
      assert (|c| - 1) * d == |c| * d - d;
      CeilDivUnique(|Flatten(c)|, d, |c|);
    } else {
      CeilDivUnique(0, d, 0);
    }
  }

  /** Position `r` of block `q` holds token `q * d + r`. */
  lemma {:induction false} TokenAt(c: seq<seq<nat>>, d: nat, q: nat, r: nat)
    requires d > 0 && Packed(c, d) && q < |c| && r < |c[q]|
    ensures 0 <= q * d && q * d + r < |Flatten(c)| && Flatten(c)[q * d + r] == c[q][r]
    decreases |c|
  {
    var n := |c| - 1;
    FullLength(c, d);
    if q < n {
      TokenAt(c[..n], d, q, r);
    }
  }

  /** The blocks before the last are full. */
  lemma FullLength(c: seq<seq<nat>>, d: nat)
    requires d > 0 && Packed(c, d) && c != []
    ensures |Flatten(c[..|c| - 1])| == (|c| - 1) * d
  {
    var n := |c| - 1;
    PackedLength(c[..n], d);
    NextMultiple(n - 1, d);
  }

  lemma NextMultiple(n: int, d: int)
    ensures (n + 1) * d == n * d + d
  {
  }

  /** Token `p` is at position `p % d` of block `p / d`. */
  lemma TokenPlace(c: seq<seq<nat>>, d: nat, p: nat)
    requires d > 0 && Packed(c, d) && p < |Flatten(c)|
    ensures p / d < |c| && p % d < |c[p / d]| && c[p / d][p % d] == Flatten(c)[p]
  {
    var q, r := Place(p, d);
    InBlocks(c, d, q, r);
    TokenAt(c, d, q, r);
  }

  lemma Place(p: nat, d: nat) returns (q: nat, r: nat)
    requires d > 0
    ensures q == p / d && r == p % d && 0 <= q * d && p == q * d + r && r < d
  {
    DivBounds(p, d);
    q, r := p / d, p % d;
    MulMonotone(0, q, d);
  }

  lemma InBlocks(c: seq<seq<nat>>, d: nat, q: nat, r: nat)
    requires d > 0 && Packed(c, d) && 0 <= q * d && q * d + r < |Flatten(c)| && r < d
    ensures q < |c| && r < |c[q]|
  {
    var n := |c| - 1;
    PackedLength(c, d);
    NextMultiple(n, d);
    if q > n {
      MulMonotone(n + 1, q, d);
    }
  }

  function Upto(a: nat, b: nat): nat {
    if a < b then a else b
  }

  // ---------------------------------------------------------------- the sequence

  class Sequence {
    const blockSize: nat
    var logicalTokenBlocks: seq<LogicalTokenBlock>

    ghost function Contents(): (c: seq<seq<nat>>)
      reads this, logicalTokenBlocks
      ensures |c| == |logicalTokenBlocks|
    {
      seq(|logicalTokenBlocks|,
          i requires 0 <= i < |logicalTokenBlocks| reads this, logicalTokenBlocks => logicalTokenBlocks[i].tokenIds)
    }

    ghost predicate Valid()
      reads this, logicalTokenBlocks
    {
      && blockSize > 0
      && (forall i :: 0 <= i < |logicalTokenBlocks| ==>
            logicalTokenBlocks[i].Valid() && logicalTokenBlocks[i].blockNumber == i
              && logicalTokenBlocks[i].blockSize == blockSize)
      && (forall i, j :: 0 <= i < j < |logicalTokenBlocks| ==> logicalTokenBlocks[i] != logicalTokenBlocks[j])
    }

    constructor (blockSize: nat)
      requires blockSize > 0
      ensures Valid() && this.blockSize == blockSize && Contents() == []
    {
      this.blockSize := blockSize;
      logicalTokenBlocks := [];
    }

    method AppendLogicalBlock()
      requires Valid()
      modifies this
      ensures Valid() && Contents() == old(Contents()) + [[]]
      ensures |logicalTokenBlocks| > 0 && fresh(logicalTokenBlocks[|logicalTokenBlocks| - 1])
      ensures logicalTokenBlocks[..|logicalTokenBlocks| - 1] == old(logicalTokenBlocks)
    {
      var block := new LogicalTokenBlock(|logicalTokenBlocks|, blockSize);
      logicalTokenBlocks := logicalTokenBlocks + [block];
    }

    predicate IsLastBlockFull()
      reads this, logicalTokenBlocks
    {
      logicalTokenBlocks != [] && logicalTokenBlocks[|logicalTokenBlocks| - 1].IsFull()
    }

    /** A new block if there is none, or if the last one is full. */
    method EnsureRoom()
      requires Valid() && Packed(Contents(), blockSize)
      modifies this
      ensures Valid() && logicalTokenBlocks != [] && |Contents()[|Contents()| - 1]| < blockSize
      ensures
        var c := old(Contents());
        Contents() == c || (Contents() == c + [[]] && (c == [] || |c[|c| - 1]| == blockSize))
      ensures forall b :: b in logicalTokenBlocks ==> b in old(logicalTokenBlocks) || fresh(b)
    {
      if logicalTokenBlocks == [] {
        AppendLogicalBlock();
      }
      assert |Contents()[|Contents()| - 1]| == logicalTokenBlocks[|logicalTokenBlocks| - 1].numTokens;
      if IsLastBlockFull() {
        AppendLogicalBlock();
      }
    }

    /** Appends to the last block, which must have room. */
    method AppendToLast(ids: seq<nat>) returns (r: Result<(), BlockError>)
      requires Valid() && logicalTokenBlocks != []
      requires |Contents()[|Contents()| - 1]| + |ids| <= blockSize
      modifies logicalTokenBlocks[|logicalTokenBlocks| - 1]
      ensures r.Ok? && Valid()
      ensures
        var c := old(Contents());
        Contents() == c[..|c| - 1] + [c[|c| - 1] + ids]
    {
      r := logicalTokenBlocks[|logicalTokenBlocks| - 1].AppendTokens(ids);
    }

    /** The tokens go behind those already there, block by block, and never fail to fit. */
    method AppendTokensToBlocks(ids: seq<nat>) returns (r: Result<(), BlockError>)
      requires Valid() && Packed(Contents(), blockSize)
      modifies this, logicalTokenBlocks
      ensures r.Ok? && Valid() && Packed(Contents(), blockSize)
      ensures Flatten(Contents()) == old(Flatten(Contents())) + ids
      ensures forall b :: b in logicalTokenBlocks ==> b in old(logicalTokenBlocks) || fresh(b)
    {
      hide Flatten, Packed;
      ghost var tokens := Flatten(Contents());
      var cursor := 0;
      while cursor < |ids|
        invariant Valid() && Packed(Contents(), blockSize) && 0 <= cursor
        invariant Flatten(Contents()) == tokens + ids[..Upto(cursor, |ids|)]
        invariant forall b :: b in logicalTokenBlocks ==> b in old(logicalTokenBlocks) || fresh(b)
        decreases |ids| - cursor
      {
        ghost var c0 := Contents();
        EnsureRoom();
        var last := logicalTokenBlocks[|logicalTokenBlocks| - 1];
        var numEmptySlots := last.GetNumEmptySlots();
        var end := Upto(cursor + numEmptySlots, |ids|);
        ghost var c1 := Contents();
        assert last in logicalTokenBlocks;
        var appended := AppendToLast(ids[cursor..end]);
        FlattenOneMore(c0, c1, Contents(), ids[cursor..end], blockSize);
        assert ids[..end] == ids[..cursor] + ids[cursor..end];
        cursor := cursor + numEmptySlots;
      }
      assert ids[..|ids|] == ids;
      return Ok(());
    }

    method GetNumTotalLogicalTokenBlocks() returns (n: nat)
      requires Valid() && Packed(Contents(), blockSize)
      ensures n == CeilDiv(|Flatten(Contents())|, blockSize)
    {
      BlocksNeeded(Contents(), blockSize);
      n := |logicalTokenBlocks|;
    }
  }

  lemma FlattenOneMore(c0: seq<seq<nat>>, c1: seq<seq<nat>>, c2: seq<seq<nat>>, ids: seq<nat>, d: nat)
    requires Packed(c0, d) && ids != []
    requires c1 == c0 || (c1 == c0 + [[]] && (c0 == [] || |c0[|c0| - 1]| == d))
    requires c1 != [] && |c1[|c1| - 1]| + |ids| <= d
    requires c2 == c1[..|c1| - 1] + [c1[|c1| - 1] + ids]
    ensures Packed(c2, d) && Flatten(c2) == Flatten(c0) + ids
  {
  }
}
