/** Where the attention kernel reads the keys and values of a paged sequence. */
module PagedAddress {
  import opened Arithmetic
  import opened BlockState
  import opened RefCounts
  import opened PagedMemory

  /** How the threads of a block share the copy of a tile of `blockN` rows. */
  datatype Traits = Traits(threads: nat, threadsPerRow: nat, elemsPerLoad: nat, rowsPerThread: nat, blockN: nat)

  predicate Laid(t: Traits) {
    && t.threads > 0 && t.threadsPerRow > 0 && t.elemsPerLoad > 0 && t.rowsPerThread > 0
    && t.threads % t.threadsPerRow == 0
    && t.blockN == t.rowsPerThread * (t.threads / t.threadsPerRow)
  }

  /** The first row and column of a thread's slice, within the tile. */
  function SliceRow(t: Traits, tidx: nat): nat
    requires t.threadsPerRow > 0
  {
    tidx / t.threadsPerRow * t.rowsPerThread
  }

  function SliceCol(t: Traits, tidx: nat): nat
    requires t.threadsPerRow > 0
  {
    tidx % t.threadsPerRow * t.elemsPerLoad
  }

  function GlobalRow(t: Traits, tidx: nat, nBlockMax: nat): nat
    requires t.threadsPerRow > 0 && nBlockMax > 0
  {
    SliceRow(t, tidx) + (nBlockMax - 1) * t.blockN
  }

  function PageOf(row: nat, pageSize: nat): nat
    requires pageSize > 0
  {
    row / pageSize
  }

  function OffsetOf(row: nat, pageSize: nat): nat
    requires pageSize > 0
  {
    row % pageSize
  }

  /** The offset at which a thread's slice of block `nBlockMax - 1` begins.  The block table is
      read as memory, whose length nothing checks. */
  function ResolveSlice(t: Traits, tidx: nat, nBlockMax: nat, pageSize: nat, table: nat -> nat,
                        pageStride: nat, rowStride: nat): nat
    requires t.threadsPerRow > 0 && nBlockMax > 0 && pageSize > 0
  {
    var row := GlobalRow(t, tidx, nBlockMax);
    table(PageOf(row, pageSize)) * pageStride + OffsetOf(row, pageSize) * rowStride + SliceCol(t, tidx)
  }

  // ---------------------------------------------------------------- slices and pages

  /** The rows from `row` on lie in one page. */
  predicate InOnePage(row: nat, rows: nat, pageSize: nat)
    requires pageSize > 0
  {
    forall r :: row <= r < row + rows ==> PageOf(r, pageSize) == PageOf(row, pageSize)
  }

  /** No thread's slice of any block crosses a page. */
  ghost predicate SlicesInPages(t: Traits, pageSize: nat)
    requires Laid(t) && pageSize > 0
  {
    forall tidx, nBlockMax :: 0 <= tidx < t.threads && nBlockMax > 0 ==>
      InOnePage(GlobalRow(t, tidx, nBlockMax), t.rowsPerThread, pageSize)
  }

  lemma DividesSum(a: int, b: int, d: nat)
    requires d > 0 && a % d == 0
    ensures (a + b) % d == b % d
  {
    DivBounds(a, d);
    DivBounds(b, d);
    assert (a / d + b / d) * d == a / d * d + b / d * d;
    DivUnique(a + b, d, a / d + b / d);
  }

  lemma MultipleMod(k: int, d: nat)
    requires d > 0
    ensures (k * d) % d == 0
  {
    DivUnique(k * d, d, k);
  }

  /** Every slice starts at a multiple of its height. */
  lemma SliceAligned(t: Traits, tidx: nat, nBlockMax: nat)
    requires Laid(t) && nBlockMax > 0
    ensures GlobalRow(t, tidx, nBlockMax) % t.rowsPerThread == 0
  {
    var R, T := t.rowsPerThread, t.threads / t.threadsPerRow;
    MultipleMod((nBlockMax - 1) * T, R);
    assert (nBlockMax - 1) * (R * T) == (nBlockMax - 1) * T * R;
    MultipleMod(tidx / t.threadsPerRow, R);
    DividesSum(SliceRow(t, tidx), (nBlockMax - 1) * t.blockN, R);
  }

  lemma AlignedSliceInPage(row: nat, R: nat, pageSize: nat, i: nat)
    requires R > 0 && pageSize > 0 && row % R == 0 && pageSize % R == 0 && i < R
    ensures (row + i) / pageSize == row / pageSize && (row + i) % pageSize == row % pageSize + i
  {
    DivBounds(row, R);
    DivBounds(pageSize, R);
    DivBounds(row, pageSize);
    var a, b, q := row / R, pageSize / R, row / pageSize;
    var x := a - q * b;
    assert q * (b * R) == q * b * R;
    assert row % pageSize == x * R by { assert (a - q * b) * R == a * R - q * b * R; }
    if x > b - 1 {
      MulMonotone(b, x, R);
    }
    MulMonotone(x, b - 1, R);
    assert (b - 1) * R == b * R - R;
    DivUnique(row + i, pageSize, q);
  }

  /** Slices stay within pages exactly if a page is a whole number of slices high. */
  lemma SlicesStayInPages(t: Traits, pageSize: nat)
    requires Laid(t) && pageSize > 0
    ensures SlicesInPages(t, pageSize) <==> pageSize % t.rowsPerThread == 0
  {
    hide GlobalRow, InOnePage;
    if pageSize % t.rowsPerThread == 0 {
      forall tidx, nBlockMax | 0 <= tidx < t.threads && nBlockMax > 0
        ensures InOnePage(GlobalRow(t, tidx, nBlockMax), t.rowsPerThread, pageSize)
      {
        SliceAligned(t, tidx, nBlockMax);
        AlignedInOnePage(GlobalRow(t, tidx, nBlockMax), t.rowsPerThread, pageSize);
      }
    } else {
      var tidx, nBlockMax := SliceAt(t, pageSize / t.rowsPerThread);
      CrossesPage(t.rowsPerThread, pageSize);
    }
  }

  lemma AlignedInOnePage(row: nat, R: nat, pageSize: nat)
    requires R > 0 && pageSize > 0 && row % R == 0 && pageSize % R == 0
    ensures InOnePage(row, R, pageSize)
  {
    forall r | row <= r < row + R
      ensures PageOf(r, pageSize) == PageOf(row, pageSize)
    {
      AlignedSliceInPage(row, R, pageSize, r - row);
    }
  }

  /** The slice that holds the first row of the second page crosses into it. */
  lemma CrossesPage(R: nat, pageSize: nat)
    requires R > 0 && pageSize > 0 && pageSize % R != 0
    ensures pageSize / R * R >= 0 && !InOnePage(pageSize / R * R, R, pageSize)
  {
    DivBounds(pageSize, R);
    var row := pageSize / R * R;
    DivUnique(row, pageSize, 0);
    DivUnique(pageSize, pageSize, 1);
    assert PageOf(pageSize, pageSize) != PageOf(row, pageSize);
  }

  /** The slice that starts at row `a` times the height of a slice. */
  lemma SliceAt(t: Traits, a: nat) returns (tidx: nat, nBlockMax: nat)
    requires Laid(t)
    ensures tidx < t.threads && nBlockMax > 0 && GlobalRow(t, tidx, nBlockMax) == a * t.rowsPerThread
  {
    var R, T, P := t.rowsPerThread, t.threads / t.threadsPerRow, t.threadsPerRow;
    DivBounds(t.threads, P);
    if T <= 0 {
      MulMonotone(T, 0, P);
    }
    DivBounds(a, T);
    tidx, nBlockMax := a % T * P, a / T + 1;
    MulMonotone(a % T + 1, T, P);
    assert (a % T + 1) * P == a % T * P + P;
    DivUnique(tidx, P, a % T);
    assert a / T * (R * T) == a / T * T * R;
    assert a % T * R + a / T * T * R == (a % T + a / T * T) * R;
  }

  /** The check of the callers: pages whose size is a multiple of 16 fit all slices of the kernels. */
  lemma PagesOf16(t: Traits, pageSize: nat)
    requires Laid(t) && pageSize % 16 == 0 && 16 % t.rowsPerThread == 0
    ensures pageSize % t.rowsPerThread == 0
  {
    var R := t.rowsPerThread;
    DivBounds(16, R);
    DivBounds(pageSize, 16);
    var p, q := pageSize / 16, 16 / R;
    assert p * (q * R) == p * q * R;
    MultipleMod(p * q, R);
  }

  /** The layout of the paged copies of the split kernel, for a head dimension that it is built for. */
  function KernelTraits(headDim: nat): Traits {
    var threads, elemsPerLoad := 4 * 32, 8;
    var blockN := if headDim <= 64 then 256 else if headDim <= 128 then 128 else 64;
    var threadsPerRow := (if headDim % 64 == 0 then 64 else 32) / elemsPerLoad;
    Traits(threads, threadsPerRow, elemsPerLoad, blockN / (threads / threadsPerRow), blockN)
  }

  predicate Built(headDim: nat) {
    headDim in {32, 64, 96, 128, 160, 192, 224, 256}
  }

  lemma KernelLaid(headDim: nat)
    requires Built(headDim)
    ensures Laid(KernelTraits(headDim)) && KernelTraits(headDim).rowsPerThread in {2, 4, 8, 16}
  {
  }

  /** In numbers: 128 threads with loads of 8 elements; 256 rows up to head dimension 64, 128 up to
      128, and 64 beyond; 64 columns at a time where they divide the head, 32 where they do not. */
  lemma KernelShapes()
    ensures KernelTraits(32) == Traits(128, 4, 8, 8, 256) && KernelTraits(64) == Traits(128, 8, 8, 16, 256)
    ensures KernelTraits(96) == Traits(128, 4, 8, 4, 128) && KernelTraits(128) == Traits(128, 8, 8, 8, 128)
    ensures KernelTraits(160) == Traits(128, 4, 8, 2, 64) && KernelTraits(192) == Traits(128, 8, 8, 4, 64)
    ensures KernelTraits(224) == Traits(128, 4, 8, 2, 64) && KernelTraits(256) == Traits(128, 8, 8, 4, 64)
  {
  }

  /** For every one of them the slices tile the block and fit the pages that the callers accept. */
  lemma KernelPagesFit(headDim: nat, pageSize: nat)
    requires Built(headDim)
    ensures Laid(KernelTraits(headDim)) && 16 % KernelTraits(headDim).rowsPerThread == 0
    ensures pageSize > 0 && pageSize % 16 == 0 ==> SlicesInPages(KernelTraits(headDim), pageSize)
  {
    KernelLaid(headDim);
    hide KernelTraits, Laid, SlicesInPages;
    var t := KernelTraits(headDim);
    if pageSize > 0 && pageSize % 16 == 0 {
      PagesOf16(t, pageSize);
      SlicesStayInPages(t, pageSize);
    }
  }

  // ---------------------------------------------------------------- the table is long enough

  /** No thread of any of the first `blocks` key blocks looks past the end of a table of
      `entries` pages. */
  ghost predicate LookupsInTable(t: Traits, pageSize: nat, blocks: nat, entries: nat)
    requires Laid(t) && pageSize > 0
  {
    forall tidx, nBlockMax :: 0 <= tidx < t.threads && 0 < nBlockMax <= blocks ==>
      PageOf(GlobalRow(t, tidx, nBlockMax), pageSize) < entries
  }

  /** Only the last slice of the last block matters. */
  lemma LookupsInTableExactly(t: Traits, pageSize: nat, blocks: nat, entries: nat)
    requires Laid(t) && pageSize > 0 && blocks > 0
    ensures LookupsInTable(t, pageSize, blocks, entries) <==> GlobalRow(t, t.threads - 1, blocks) < entries * pageSize
  {
    hide GlobalRow;
    var last := GlobalRow(t, t.threads - 1, blocks);
    PageWithin(last, pageSize, entries);
    if last < entries * pageSize {
      forall tidx, nBlockMax | 0 <= tidx < t.threads && 0 < nBlockMax <= blocks
        ensures PageOf(GlobalRow(t, tidx, nBlockMax), pageSize) < entries
      {
        LastSlice(t, tidx, nBlockMax, blocks);
        PageWithin(GlobalRow(t, tidx, nBlockMax), pageSize, entries);
      }
    }
  }

  lemma PageWithin(row: nat, pageSize: nat, entries: nat)
    requires pageSize > 0
    ensures PageOf(row, pageSize) < entries <==> row < entries * pageSize
  {
    var page := row / pageSize;
    DivBounds(row, pageSize);
    if page < entries {
      MulMonotone(page + 1, entries, pageSize);
      assert (page + 1) * pageSize == page * pageSize + pageSize;
    } else {
      MulMonotone(entries, page, pageSize);
    }
  }

  lemma LastSlice(t: Traits, tidx: nat, nBlockMax: nat, blocks: nat)
    requires Laid(t) && tidx < t.threads && 0 < nBlockMax <= blocks
    ensures GlobalRow(t, tidx, nBlockMax) <= GlobalRow(t, t.threads - 1, blocks)
  {
    var P := t.threadsPerRow;
    DivBounds(t.threads - 1, P);
    DivLess(tidx, (t.threads - 1) / P + 1, P);
    MulMonotone(tidx / P, (t.threads - 1) / P, t.rowsPerThread);
    MulMonotone(nBlockMax - 1, blocks - 1, t.blockN);
  }

  /** A short sequence in its own table: the kernel for head dimension 64 looks up page 15 of a
      table of one page of 16 rows. */
  lemma ShortTableOverrun()
    ensures PageOf(GlobalRow(KernelTraits(64), 120, 1), 16) == 15
    ensures Laid(KernelTraits(64)) && !LookupsInTable(KernelTraits(64), 16, 1, 1)
  {
    var t := KernelTraits(64);
    assert t == Traits(128, 8, 8, 16, 256);
    assert PageOf(GlobalRow(t, 120, 1), 16) == 15;
  }

  // ---------------------------------------------------------------- the tile is covered once

  /** Thread `tidx` copies the element at row `r` and column `c` of the tile. */
  predicate Copies(t: Traits, tidx: nat, r: nat, c: nat)
    requires Laid(t)
  {
    && tidx < t.threads
    && SliceRow(t, tidx) <= r < SliceRow(t, tidx) + t.rowsPerThread
    && SliceCol(t, tidx) <= c < SliceCol(t, tidx) + t.elemsPerLoad
  }

  function Owner(t: Traits, r: nat, c: nat): nat
    requires Laid(t)
  {
    r / t.rowsPerThread * t.threadsPerRow + c / t.elemsPerLoad
  }

  /** Every element of the tile is copied by exactly one thread, and nothing else is copied. */
  lemma TileCopiedOnce(t: Traits, tidx: nat, r: nat, c: nat)
    requires Laid(t)
    ensures Copies(t, tidx, r, c) <==> r < t.blockN && c < t.threadsPerRow * t.elemsPerLoad && tidx == Owner(t, r, c)
  {
    hide Laid, Copies, Owner;
    if Copies(t, tidx, r, c) {
      CopiesInTile(t, tidx, r, c);
    }
    if r < t.blockN && c < t.threadsPerRow * t.elemsPerLoad {
      OwnerCopies(t, r, c);
    }
  }

  /** Block `n` of the keys, and nothing else, is what all threads together read when they are asked
      for the block before `n + 1`: each of its elements exactly once. */
  lemma BlockReadOnce(t: Traits, n: nat, r: nat, c: nat)
    requires Laid(t)
    ensures
      (exists tidx, i, e :: Reads(t, n, tidx, i, e, r, c))
      <==> n * t.blockN <= r < (n + 1) * t.blockN && c < t.threadsPerRow * t.elemsPerLoad
    ensures forall tidx, i, e, tidx1, i1, e1 ::
      Reads(t, n, tidx, i, e, r, c) && Reads(t, n, tidx1, i1, e1, r, c) ==> tidx == tidx1 && i == i1 && e == e1
  {
    NextRow(n, t.blockN);
    var base := n * t.blockN;
    forall tidx, i, e | Reads(t, n, tidx, i, e, r, c)
      ensures base <= r < base + t.blockN && c < t.threadsPerRow * t.elemsPerLoad && tidx == Owner(t, r - base, c)
      ensures i == r - base - SliceRow(t, tidx) && e == c - SliceCol(t, tidx)
    {
      TileCopiedOnce(t, tidx, r - base, c);
    }
    if base <= r < base + t.blockN && c < t.threadsPerRow * t.elemsPerLoad {
      var tidx := Owner(t, r - base, c);
      TileCopiedOnce(t, tidx, r - base, c);
      assert Reads(t, n, tidx, r - base - SliceRow(t, tidx), c - SliceCol(t, tidx), r, c);
    }
  }

  /** Element `e` of row `i` of the thread's slice is row `r` and column `c` of the keys. */
  predicate Reads(t: Traits, n: nat, tidx: nat, i: int, e: int, r: nat, c: nat)
    requires Laid(t)
  {
    && tidx < t.threads && 0 <= i < t.rowsPerThread && 0 <= e < t.elemsPerLoad
    && r == GlobalRow(t, tidx, n + 1) + i && c == SliceCol(t, tidx) + e
  }

  lemma NextRow(n: nat, d: nat)
    ensures n * d >= 0 && (n + 1) * d == n * d + d
  {
  }

  lemma CopiesInTile(t: Traits, tidx: nat, r: nat, c: nat)
    requires Laid(t) && Copies(t, tidx, r, c)
    ensures r < t.blockN && c < t.threadsPerRow * t.elemsPerLoad && tidx == Owner(t, r, c)
  {
    var R, E, P, T := t.rowsPerThread, t.elemsPerLoad, t.threadsPerRow, t.threads / t.threadsPerRow;
    DivBounds(t.threads, P);
    DivBounds(tidx, P);
    DivUnique(r, R, tidx / P);
    DivUnique(c, E, tidx % P);
    DivLess(tidx, T, P);
    InRow(tidx / P, R, T, r);
    InRow(tidx % P, E, P, c);
  }

  lemma OwnerCopies(t: Traits, r: nat, c: nat)
    requires Laid(t) && r < t.blockN && c < t.threadsPerRow * t.elemsPerLoad
    ensures Copies(t, Owner(t, r, c), r, c)
  {
    var R, E, P, T := t.rowsPerThread, t.elemsPerLoad, t.threadsPerRow, t.threads / t.threadsPerRow;
    DivBounds(t.threads, P);
    DivBounds(r, R);
    DivBounds(c, E);
    Commute(R, T);
    DivLess(r, T, R);
    DivLess(c, P, E);
    DivUnique(Owner(t, r, c), P, r / R);
    InRow(r / R, P, T, Owner(t, r, c));
  }

  lemma Commute(a: int, b: int)
    ensures a * b == b * a
  {
  }

  lemma InRow(k: int, d: int, n: int, x: int)
    requires d > 0 && 0 <= k < n && k * d <= x < k * d + d
    ensures 0 <= x < n * d && x < d * n
  {
    MulMonotone(k + 1, n, d);
    assert (k + 1) * d == k * d + d;
    MulMonotone(0, k, d);
  }

  // ---------------------------------------------------------------- addresses

  /** Where row `offset` of page `number` begins in the cache tensor. */
  function Address(number: nat, offset: nat, col: nat, pageStride: nat, rowStride: nat): nat {
    number * pageStride + offset * rowStride + col
  }

  /** Where element `e` of row `i` of a slice is, if the slice begins at `base`. */
  function ElementOf(base: nat, i: nat, e: nat, rowStride: nat): nat {
    base + i * rowStride + e
  }

  /** The address a thread computes for element (`i`, `e`) of its slice is that of the row in the
      page that the block table gives for it. */
  lemma ResolveExact(t: Traits, tidx: nat, nBlockMax: nat, pageSize: nat, table: nat -> nat, pageStride: nat,
                     rowStride: nat, i: nat, e: nat, row: nat, col: nat)
    requires Laid(t) && nBlockMax > 0 && pageSize > 0 && pageSize % t.rowsPerThread == 0 && i < t.rowsPerThread
    requires row == GlobalRow(t, tidx, nBlockMax) + i && col == SliceCol(t, tidx) + e
    ensures PageOf(GlobalRow(t, tidx, nBlockMax), pageSize) == PageOf(row, pageSize)
    ensures ElementOf(ResolveSlice(t, tidx, nBlockMax, pageSize, table, pageStride, rowStride), i, e, rowStride)
      == Address(table(PageOf(row, pageSize)), OffsetOf(row, pageSize), col, pageStride, rowStride)
  {
    hide SliceCol;
    SliceAligned(t, tidx, nBlockMax);
    var first := GlobalRow(t, tidx, nBlockMax);
    hide GlobalRow;
    AlignedSliceInPage(first, t.rowsPerThread, pageSize, i);
    assert (first % pageSize + i) * rowStride == first % pageSize * rowStride + i * rowStride;
  }

  /** Different cells of the cache tensor have different addresses. */
  lemma AddressInjective(n1: nat, o1: nat, c1: nat, n2: nat, o2: nat, c2: nat, pageSize: nat, pageStride: nat,
                         rowStride: nat)
    requires o1 < pageSize && o2 < pageSize && c1 < rowStride && c2 < rowStride && pageSize * rowStride <= pageStride
    ensures Address(n1, o1, c1, pageStride, rowStride) == Address(n2, o2, c2, pageStride, rowStride) ==>
      n1 == n2 && o1 == o2 && c1 == c2
  {
    if Address(n1, o1, c1, pageStride, rowStride) == Address(n2, o2, c2, pageStride, rowStride) {
      InRow(o1, rowStride, pageSize, o1 * rowStride + c1);
      InRow(o2, rowStride, pageSize, o2 * rowStride + c2);
      DivUnique(Address(n1, o1, c1, pageStride, rowStride), pageStride, n1);
      DivUnique(Address(n1, o1, c1, pageStride, rowStride), pageStride, n2);
      DivUnique(o1 * rowStride + c1, rowStride, o1);
      DivUnique(o1 * rowStride + c1, rowStride, o2);
    }
  }

  // ---------------------------------------------------------------- what the kernel reads

  /** The block table as the kernel gets it: the numbers of the sequence's blocks, and then padding
      or whatever follows in memory. */
  ghost predicate GivesTable(memory: nat -> nat, table: Table) {
    forall i :: 0 <= i < |table| ==> memory(i) == table[i].number
  }

  /** The cache tensor holds, cell by cell, what the blocks of the GPU hold. */
  ghost predicate Stores(mem: int -> real, store: Store, entry: (Token, nat) -> real, cols: nat, pageStride: nat,
                         rowStride: nat) {
    forall n, o, c ::
      Block(Gpu, n) in store && 0 <= o < |store[Block(Gpu, n)]| && 0 <= c < cols ==>
        mem(Address(n, o, c, pageStride, rowStride)) == entry(store[Block(Gpu, n)][o], c)
  }

  /** Whatever the manager has shared, copied or moved, every element that a thread copies for a
      row of the sequence is that of the token in the sequence's own history. */
  lemma KernelReadsHistory(sys: System, id: nat, t: Traits, tidx: nat, nBlockMax: nat, i: nat, e: nat, row: nat,
                           col: nat, table: nat -> nat, mem: int -> real, entry: (Token, nat) -> real, cols: nat,
                           pageStride: nat, rowStride: nat)
    requires SysInv(sys) && id in sys.m.tables && id !in sys.swapped && GivesTable(table, sys.m.tables[id])
    requires Laid(t) && nBlockMax > 0 && sys.blockSize % 16 == 0 && 16 % t.rowsPerThread == 0
    requires Stores(mem, sys.store, entry, cols, pageStride, rowStride)
    requires i < t.rowsPerThread && row == GlobalRow(t, tidx, nBlockMax) + i < Length(sys, id)
    requires col == SliceCol(t, tidx) + e < cols
    ensures PageOf(GlobalRow(t, tidx, nBlockMax), sys.blockSize) < |sys.m.tables[id]|
    ensures
      var base := ResolveSlice(t, tidx, nBlockMax, sys.blockSize, table, pageStride, rowStride);
      mem(ElementOf(base, i, e, rowStride)) == entry(View(sys)[id][row], col)
  {
    hide SysInv, Laid, GlobalRow, SliceCol, PageOf, OffsetOf, Address, ElementOf, ResolveSlice, View, Stores, Length;
    var b, offset := CellOf(sys, id, row);
    PagesOf16(t, sys.blockSize);
    ResolveExact(t, tidx, nBlockMax, sys.blockSize, table, pageStride, rowStride, i, e, row, col);
    StoredAt(mem, sys.store, entry, cols, pageStride, rowStride, b, offset, col);
  }

  /** The same over whole runs: after any admitted run from the empty cache, what the kernel reads
      for a sequence is the history that sequence was given. */
  lemma KernelReadsRun(blockSize: Pos, numGpu: nat, numCpu: nat, ops: seq<Op>, id: nat,
                       t: Traits, tidx: nat, nBlockMax: nat, i: nat, e: nat, row: nat, col: nat,
                       table: nat -> nat, mem: int -> real, entry: (Token, nat) -> real,
                       cols: nat, pageStride: nat, rowStride: nat)
    requires AdmittedRun(Start(blockSize, numGpu, numCpu), ops)
    requires
      var sys, history := Run(Start(blockSize, numGpu, numCpu), ops), HistRun(map[], ops);
      && id in history && id !in sys.swapped && Stores(mem, sys.store, entry, cols, pageStride, rowStride)
      && row < |history[id]| && (id in sys.m.tables ==> GivesTable(table, sys.m.tables[id]))
    requires Laid(t) && nBlockMax > 0 && blockSize % 16 == 0 && 16 % t.rowsPerThread == 0
    requires i < t.rowsPerThread && row == GlobalRow(t, tidx, nBlockMax) + i && col == SliceCol(t, tidx) + e < cols
    ensures
      var sys := Run(Start(blockSize, numGpu, numCpu), ops);
      var base := ResolveSlice(t, tidx, nBlockMax, blockSize, table, pageStride, rowStride);
      && id in sys.m.tables && PageOf(GlobalRow(t, tidx, nBlockMax), blockSize) < |sys.m.tables[id]|
      && mem(ElementOf(base, i, e, rowStride)) == entry(HistRun(map[], ops)[id][row], col)
  {
    hide SysInv, AdmittedRun, Run, HistRun, Laid, GlobalRow, SliceCol, PageOf, OffsetOf, ElementOf, ResolveSlice,
         Stores;
    var start := Start(blockSize, numGpu, numCpu);
    StartInv(blockSize, numGpu, numCpu);
    RunRefinesHistories(start, ops);
    RunPools(start, ops);
    KernelReadsHistory(Run(start, ops), id, t, tidx, nBlockMax, i, e, row, col, table, mem, entry, cols, pageStride,
                       rowStride);
  }

  lemma StoredAt(mem: int -> real, store: Store, entry: (Token, nat) -> real, cols: nat, pageStride: nat,
                 rowStride: nat, b: Block, offset: nat, c: nat)
    requires Stores(mem, store, entry, cols, pageStride, rowStride)
    requires b.device == Gpu && b in store && offset < |store[b]| && c < cols
    ensures mem(Address(b.number, offset, c, pageStride, rowStride)) == entry(store[b][offset], c)
  {
  }

  /** Where the token at position `row` of a sequence is. */
  lemma CellOf(sys: System, id: nat, row: nat) returns (b: Block, offset: nat)
    requires SysInv(sys) && id in sys.m.tables && id !in sys.swapped && row < Length(sys, id)
    ensures PageOf(row, sys.blockSize) < |sys.m.tables[id]|
    ensures b == sys.m.tables[id][PageOf(row, sys.blockSize)] && b.device == Gpu
      && offset == OffsetOf(row, sys.blockSize)
    ensures b in sys.store && offset < |sys.store[b]| && View(sys)[id][row] == sys.store[b][offset]
  {
    hide Inv;
    var blocks, d := sys.m.tables[id], sys.blockSize;
    assert TableShape(sys, id);
    Fits(sys, id);
    DivLess(row, |blocks|, d);
    DivBounds(row, d);
    InStore(sys, id);
    b, offset := blocks[row / d], row % d;
    assert b in blocks;
  }
}
