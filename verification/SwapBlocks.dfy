/** Moving blocks between two cache tensors, block by block, in whatever order the mapping is
    iterated. */
module SwapBlocks {
  import opened Common
  import opened Arithmetic
  import opened BlockState
  import opened PagedMemory

  /** An iteration order of the mapping: every key once. */
  ghost predicate Enumerates(order: seq<nat>, mapping: map<nat, nat>) {
    NoDup(order) && forall k :: k in order <==> k in mapping
  }

  ghost predicate Injective(mapping: map<nat, nat>) {
    forall j, k :: j in mapping && k in mapping && mapping[j] == mapping[k] ==> j == k
  }

  predicate HasBlock(length: nat, blockSize: nat, n: nat) {
    n * blockSize + blockSize <= length
  }

  /** Block `n` of a tensor. */
  function BlockOf<T>(tensor: seq<T>, blockSize: nat, n: nat): (b: seq<T>)
    requires HasBlock(|tensor|, blockSize, n)
    ensures |b| == blockSize
  {
    tensor[n * blockSize..n * blockSize + blockSize]
  }

  ghost predicate MappingFits(mapping: map<nat, nat>, blockSize: nat, srcLength: nat, dstLength: nat) {
    forall k :: k in mapping ==> HasBlock(srcLength, blockSize, k) && HasBlock(dstLength, blockSize, mapping[k])
  }

  /** The destination after the blocks in `done` have been copied: those have their source's
      contents, and all other blocks are as before. */
  ghost predicate CopiedBlocks<T>(src: seq<T>, before: seq<T>, after: seq<T>, blockSize: nat, mapping: map<nat, nat>,
                                  done: set<nat>)
    requires MappingFits(mapping, blockSize, |src|, |before|)
  {
    && |after| == |before|
    && (forall k :: k in done && k in mapping ==> BlockOf(after, blockSize, mapping[k]) == BlockOf(src, blockSize, k))
    && (forall n :: HasBlock(|before|, blockSize, n) && (forall k :: k in done && k in mapping ==> mapping[k] != n) ==>
          BlockOf(after, blockSize, n) == BlockOf(before, blockSize, n))
  }

  function Overwritten<T>(t: seq<T>, blockSize: nat, n: nat, contents: seq<T>): (r: seq<T>)
    requires HasBlock(|t|, blockSize, n) && |contents| == blockSize
    ensures |r| == |t|
  {
    t[..n * blockSize] + contents + t[n * blockSize + blockSize..]
  }

  lemma BlocksApart(n: nat, m: nat, d: nat)
    ensures 0 <= n * d && 0 <= m * d
    ensures m < n ==> m * d + d <= n * d
    ensures n < m ==> n * d + d <= m * d
  {
    MulMonotone(0, n, d);
    MulMonotone(0, m, d);
    NextMultiple(m, d);
    NextMultiple(n, d);
    if m < n {
      MulMonotone(m + 1, n, d);
    } else if n < m {
      MulMonotone(n + 1, m, d);
    }
  }

  lemma NextMultiple(m: int, d: int)
    ensures (m + 1) * d == m * d + d
  {
  }

  /** Writing `d` elements at `b` leaves those at `a` alone if the stretches do not overlap. */
  lemma Spliced<T>(before: seq<T>, after: seq<T>, a: nat, b: nat, d: nat, contents: seq<T>)
    requires a + d <= |before| && b + d <= |before| && |contents| == d
    requires after == before[..b] + contents + before[b + d..]
    ensures |after| == |before|
    ensures a == b ==> after[a..a + d] == contents
    ensures a + d <= b || b + d <= a ==> after[a..a + d] == before[a..a + d]
  {
  }

  /** Writing one block changes that block only. */
  lemma OneBlock<T>(before: seq<T>, after: seq<T>, blockSize: nat, n: nat, m: nat, contents: seq<T>)
    requires HasBlock(|before|, blockSize, n) && HasBlock(|before|, blockSize, m) && |contents| == blockSize
    requires after == Overwritten(before, blockSize, n, contents)
    ensures |after| == |before|
    ensures BlockOf(after, blockSize, m) == if m == n then contents else BlockOf(before, blockSize, m)
  {
    BlocksApart(n, m, blockSize);
    Spliced(before, after, m * blockSize, n * blockSize, blockSize, contents);
  }

  method CopyStretch<T>(src: array<T>, dst: array<T>, srcOffset: nat, dstOffset: nat, size: nat)
    requires src != dst && srcOffset + size <= src.Length && dstOffset + size <= dst.Length
    modifies dst
    ensures dst[..] == old(dst[..dstOffset]) + src[srcOffset..srcOffset + size] + old(dst[dstOffset + size..])
  {
    forall i | 0 <= i < size {
      dst[dstOffset + i] := src[srcOffset + i];
    }
  }

  /** The destination after the blocks of `order` have been copied, one after the other. */
  function CopyInOrder<T>(src: seq<T>, dst: seq<T>, blockSize: nat, mapping: map<nat, nat>,
                          order: seq<nat>): (r: seq<T>)
    requires MappingFits(mapping, blockSize, |src|, |dst|) && forall k :: k in order ==> k in mapping
    ensures |r| == |dst|
    decreases |order|
  {
    if order == [] then dst
    else
      var dst1 := Overwritten(dst, blockSize, mapping[order[0]], BlockOf(src, blockSize, order[0]));
      CopyInOrder(src, dst1, blockSize, mapping, order[1..])
  }

  /** Copies block after block.  For an injective mapping every target becomes its source and every
      other block stays as it was, whatever the order. */
  method Swap<T>(src: array<T>, dst: array<T>, blockSize: nat, mapping: map<nat, nat>, order: seq<nat>)
    requires src != dst && Enumerates(order, mapping)
    requires MappingFits(mapping, blockSize, src.Length, dst.Length)
    modifies dst
    ensures dst[..] == CopyInOrder(src[..], old(dst[..]), blockSize, mapping, order)
    ensures Injective(mapping) ==> CopiedBlocks(src[..], old(dst[..]), dst[..], blockSize, mapping, mapping.Keys)
  {
    hide CopiedBlocks, Injective, Overwritten, BlockOf, HasBlock;
    assert order[0..] == order;
    for n := 0 to |order|
      invariant CopyInOrder(src[..], dst[..], blockSize, mapping, order[n..])
             == CopyInOrder(src[..], old(dst[..]), blockSize, mapping, order)
    {
      var srcBlock := order[n];
      assert order[n..][0] == srcBlock && order[n..][1..] == order[n + 1..];
      CopyOne(src, dst, blockSize, srcBlock, mapping[srcBlock]);
    }
    if Injective(mapping) {
      InjectiveCopied(src[..], old(dst[..]), blockSize, mapping, order);
    }
  }

  /** Copies one block. */
  method CopyOne<T>(src: array<T>, dst: array<T>, blockSize: nat, from: nat, to: nat)
    requires src != dst && HasBlock(src.Length, blockSize, from) && HasBlock(dst.Length, blockSize, to)
    modifies dst
    ensures dst[..] == Overwritten(old(dst[..]), blockSize, to, BlockOf(src[..], blockSize, from))
  {
    BlocksApart(from, to, blockSize);
    CopyStretch(src, dst, from * blockSize, to * blockSize, blockSize);
  }

  lemma InjectiveCopied<T>(src: seq<T>, dst: seq<T>, blockSize: nat, mapping: map<nat, nat>, order: seq<nat>)
    requires MappingFits(mapping, blockSize, |src|, |dst|) && Enumerates(order, mapping) && Injective(mapping)
    ensures CopiedBlocks(src, dst, CopyInOrder(src, dst, blockSize, mapping, order), blockSize, mapping, mapping.Keys)
  {
    hide CopiedBlocks, Injective, Consistent, CopyInOrder;
    assert {} + Elements(order) == mapping.Keys;
    InjectiveConsistent(src, blockSize, mapping);
    NoneCopied(src, dst, blockSize, mapping);
    CopyInOrderExact(src, dst, dst, blockSize, mapping, order, {});
  }

  lemma NoneCopied<T>(src: seq<T>, dst: seq<T>, blockSize: nat, mapping: map<nat, nat>)
    requires MappingFits(mapping, blockSize, |src|, |dst|)
    ensures CopiedBlocks(src, dst, dst, blockSize, mapping, {})
  {
  }

  // ---------------------------------------------------------------- when the order does not matter

  /** Blocks that are sent to the same place hold the same. */
  ghost predicate Consistent<T>(src: seq<T>, blockSize: nat, mapping: map<nat, nat>)
    requires forall k :: k in mapping ==> HasBlock(|src|, blockSize, k)
  {
    forall j, k :: j in mapping && k in mapping && mapping[j] == mapping[k] ==>
      BlockOf(src, blockSize, j) == BlockOf(src, blockSize, k)
  }

  lemma InjectiveConsistent<T>(src: seq<T>, blockSize: nat, mapping: map<nat, nat>)
    requires Injective(mapping) && forall k :: k in mapping ==> HasBlock(|src|, blockSize, k)
    ensures Consistent(src, blockSize, mapping)
  {
    hide BlockOf, HasBlock;
  }

  lemma CopiedOneMore<T>(src: seq<T>, before: seq<T>, mid: seq<T>, after: seq<T>, blockSize: nat,
                         mapping: map<nat, nat>, done: set<nat>, k: nat)
    requires MappingFits(mapping, blockSize, |src|, |before|) && Consistent(src, blockSize, mapping) && k in mapping
    requires CopiedBlocks(src, before, mid, blockSize, mapping, done)
    requires HasBlock(|mid|, blockSize, mapping[k]) && HasBlock(|src|, blockSize, k)
    requires after == Overwritten(mid, blockSize, mapping[k], BlockOf(src, blockSize, k))
    ensures CopiedBlocks(src, before, after, blockSize, mapping, done + {k})
  {
    hide BlockOf, HasBlock, Overwritten;
    var contents := BlockOf(src, blockSize, k);
    forall n | HasBlock(|before|, blockSize, n)
      ensures |after| == |before|
      ensures BlockOf(after, blockSize, n) == if n == mapping[k] then contents else BlockOf(mid, blockSize, n)
    {
      OneBlock(mid, after, blockSize, mapping[k], n, contents);
    }
    OneBlock(mid, after, blockSize, mapping[k], mapping[k], contents);
  }

  lemma {:induction false} CopyInOrderExact<T>(src: seq<T>, before: seq<T>, mid: seq<T>, blockSize: nat,
                                               mapping: map<nat, nat>, order: seq<nat>, done: set<nat>)
    requires MappingFits(mapping, blockSize, |src|, |before|) && Consistent(src, blockSize, mapping)
    requires forall k :: k in order ==> k in mapping
    requires CopiedBlocks(src, before, mid, blockSize, mapping, done)
    ensures CopiedBlocks(src, before, CopyInOrder(src, mid, blockSize, mapping, order), blockSize, mapping,
                         done + Elements(order))
    decreases |order|
  {
    hide BlockOf, HasBlock, Overwritten, CopiedBlocks, Consistent;
    SameLength(src, before, mid, blockSize, mapping, done);
    if order == [] {
      assert done + Elements(order) == done;
    } else {
      var k := order[0];
      var mid1 := Overwritten(mid, blockSize, mapping[k], BlockOf(src, blockSize, k));
      CopiedOneMore(src, before, mid, mid1, blockSize, mapping, done, k);
      CopyInOrderExact(src, before, mid1, blockSize, mapping, order[1..], done + {k});
      assert order == [k] + order[1..];
      assert done + {k} + Elements(order[1..]) == done + Elements(order);
    }
  }

  lemma SameLength<T>(src: seq<T>, before: seq<T>, after: seq<T>, blockSize: nat, mapping: map<nat, nat>,
                      done: set<nat>)
    requires MappingFits(mapping, blockSize, |src|, |before|)
      && CopiedBlocks(src, before, after, blockSize, mapping, done)
    ensures |after| == |before|
  {
  }

  ghost predicate SameBlocks<T>(a: seq<T>, b: seq<T>, blockSize: nat) {
    |a| == |b| && forall n :: HasBlock(|a|, blockSize, n) ==> BlockOf(a, blockSize, n) == BlockOf(b, blockSize, n)
  }

  /** All iteration orders of the mapping lead to the same blocks. */
  ghost predicate OrderFree<T(!new)>(src: seq<T>, dst: seq<T>, blockSize: nat, mapping: map<nat, nat>)
    requires MappingFits(mapping, blockSize, |src|, |dst|)
  {
    forall a, b :: Enumerates(a, mapping) && Enumerates(b, mapping) ==>
      SameBlocks(CopyInOrder(src, dst, blockSize, mapping, a), CopyInOrder(src, dst, blockSize, mapping, b), blockSize)
  }

  /** That is so exactly if blocks sent to the same place hold the same. */
  lemma OrderFreeExactly<T(!new)>(src: seq<T>, dst: seq<T>, blockSize: nat, mapping: map<nat, nat>)
    requires MappingFits(mapping, blockSize, |src|, |dst|)
    ensures OrderFree(src, dst, blockSize, mapping) <==> Consistent(src, blockSize, mapping)
  {
    hide BlockOf, HasBlock, SameBlocks, CopiedBlocks;
    if Consistent(src, blockSize, mapping) {
      forall a, b | Enumerates(a, mapping) && Enumerates(b, mapping)
        ensures SameBlocks(CopyInOrder(src, dst, blockSize, mapping, a),
                           CopyInOrder(src, dst, blockSize, mapping, b), blockSize)
      {
        ConsistentOrders(src, dst, blockSize, mapping, a, b);
      }
    } else {
      var j, k :| j in mapping && k in mapping && mapping[j] == mapping[k]
        && BlockOf(src, blockSize, j) != BlockOf(src, blockSize, k);
      var a, b := TwoOrders(mapping, j, k);
      LastWins(src, dst, blockSize, mapping, a);
      LastWins(src, dst, blockSize, mapping, b);
      Differ(CopyInOrder(src, dst, blockSize, mapping, a), CopyInOrder(src, dst, blockSize, mapping, b), blockSize,
             mapping[j]);
    }
  }

  lemma Differ<T>(a: seq<T>, b: seq<T>, blockSize: nat, n: nat)
    requires |a| == |b| && HasBlock(|a|, blockSize, n) && BlockOf(a, blockSize, n) != BlockOf(b, blockSize, n)
    ensures !SameBlocks(a, b, blockSize)
  {
  }

  lemma ConsistentOrders<T>(src: seq<T>, dst: seq<T>, blockSize: nat, mapping: map<nat, nat>, a: seq<nat>, b: seq<nat>)
    requires MappingFits(mapping, blockSize, |src|, |dst|) && Consistent(src, blockSize, mapping)
    requires Enumerates(a, mapping) && Enumerates(b, mapping)
    ensures SameBlocks(CopyInOrder(src, dst, blockSize, mapping, a),
                       CopyInOrder(src, dst, blockSize, mapping, b), blockSize)
  {
    hide BlockOf, HasBlock, Consistent, CopyInOrder;
    NoneCopied(src, dst, blockSize, mapping);
    CopyInOrderExact(src, dst, dst, blockSize, mapping, a, {});
    CopyInOrderExact(src, dst, dst, blockSize, mapping, b, {});
    assert {} + Elements(a) == mapping.Keys == {} + Elements(b);
    var x, y := CopyInOrder(src, dst, blockSize, mapping, a), CopyInOrder(src, dst, blockSize, mapping, b);
    forall n | HasBlock(|dst|, blockSize, n)
      ensures BlockOf(x, blockSize, n) == BlockOf(y, blockSize, n)
    {
      if k :| k in mapping && mapping[k] == n {
        assert BlockOf(x, blockSize, mapping[k]) == BlockOf(src, blockSize, k) == BlockOf(y, blockSize, mapping[k]);
      }
    }
  }

  /** Two orders that differ in which of `j` and `k` comes last. */
  lemma TwoOrders(mapping: map<nat, nat>, j: nat, k: nat) returns (a: seq<nat>, b: seq<nat>)
    requires j in mapping && k in mapping && j != k
    ensures Enumerates(a, mapping) && Enumerates(b, mapping) && a != [] && b != []
    ensures a[|a| - 1] == k && b[|b| - 1] == j
  {
    var rest := SomeOrder(mapping.Keys - {j, k});
    forall x
      ensures x in rest <==> x in mapping && x != j && x != k
    {
      assert x in rest <==> x in Elements(rest);
    }
    a, b := rest + [j, k], rest + [k, j];
  }

  lemma {:induction false} LastWins<T>(src: seq<T>, dst: seq<T>, blockSize: nat, mapping: map<nat, nat>,
                                       order: seq<nat>)
    requires MappingFits(mapping, blockSize, |src|, |dst|) && order != [] && forall k :: k in order ==> k in mapping
    ensures
      var k := order[|order| - 1];
      BlockOf(CopyInOrder(src, dst, blockSize, mapping, order), blockSize, mapping[k]) == BlockOf(src, blockSize, k)
    decreases |order|
  {
    hide BlockOf, HasBlock, Overwritten;
    var dst1 := Overwritten(dst, blockSize, mapping[order[0]], BlockOf(src, blockSize, order[0]));
    if |order| == 1 {
      OneBlock(dst, dst1, blockSize, mapping[order[0]], mapping[order[0]], BlockOf(src, blockSize, order[0]));
    } else {
      LastWins(src, dst1, blockSize, mapping, order[1..]);
    }
  }

  // ---------------------------------------------------------------- the copies that a swap asks for

  /** A cache tensor holds the contents of a device's blocks. */
  ghost predicate Holds(tensor: seq<Token>, store: Store, device: Device, blockSize: nat) {
    forall n :: Block(device, n) in store ==>
      HasBlock(|tensor|, blockSize, n) && BlockOf(tensor, blockSize, n) == store[Block(device, n)]
  }

  /** Copying the tensors as the mapping says is what the paged cache needs of a swap. */
  lemma SwapMovesContents(store: Store, store1: Store, numbers: map<nat, nat>, src: Device, dst: Device, blockSize: nat,
                          from: seq<Token>, before: seq<Token>, after: seq<Token>)
    requires Copied(store, store1, numbers, src, dst) && src != dst
    requires Holds(from, store, src, blockSize) && Holds(before, store, dst, blockSize)
    requires MappingFits(numbers, blockSize, |from|, |before|)
    requires CopiedBlocks(from, before, after, blockSize, numbers, numbers.Keys)
    ensures Holds(from, store1, src, blockSize) && Holds(after, store1, dst, blockSize)
  {
  }
}
