/** Whole runs of the slab allocator: what every sequence of requests and releases keeps. */
module SlabRuns {
  import opened SlabAllocator

  datatype Op = Allocate(size: nat) | Deallocate(p: Pointer)

  // Requests within the bound of the row, releases of live pointers.
  predicate CanDo(s: Slab, count: nat, blockSize: nat, op: Op)
    requires blockSize >= 2
  {
    match op
    case Allocate(size) => size < count * (blockSize - 1)
    case Deallocate(p) => IsLive(s, p)
  }

  ghost function Do(s: Slab, count: nat, blockSize: nat, op: Op): (t: Slab)
    requires WellFormed(s, count, blockSize) && CanDo(s, count, blockSize, op)
    ensures WellFormed(t, count, blockSize)
  {
    match op
    case Allocate(size) =>
      AllocateKeepsWellFormed(s, count, blockSize, size);
      Allocated(s, blockSize, size).0
    case Deallocate(p) =>
      DeallocateKeepsWellFormed(s, count, blockSize, p);
      Deallocated(s, p)
  }

  ghost predicate Legal(s: Slab, count: nat, blockSize: nat, ops: seq<Op>)
    requires WellFormed(s, count, blockSize)
    decreases |ops|
  {
    ops == [] ||
    (CanDo(s, count, blockSize, ops[0]) && Legal(Do(s, count, blockSize, ops[0]), count, blockSize, ops[1..]))
  }

  ghost function After(s: Slab, count: nat, blockSize: nat, ops: seq<Op>): (t: Slab)
    requires WellFormed(s, count, blockSize) && Legal(s, count, blockSize, ops)
    ensures WellFormed(t, count, blockSize)
    decreases |ops|
  {
    if ops == [] then s else After(Do(s, count, blockSize, ops[0]), count, blockSize, ops[1..])
  }

  // ------------------------------------------------------------ what the use bytes say

  // Block j of the live run that starts at h.
  lemma InsideRun(cells: seq<Cell>, runs: map<nat, Run>, h: nat, j: nat)
    requires Tiled(cells, runs) && h in runs && h <= j < h + runs[h].blocks
    ensures j < |cells| && cells[j] == if j == h then runs[h].blocks else CONTINUED
    ensures 1 <= runs[h].blocks < CONTINUED
    ensures j in runs <==> j == h
  {
    assert IsRun(cells, h, runs[h].blocks);
  }

  lemma HeadCovered(cells: seq<Cell>, runs: map<nat, Run>, h: nat)
    requires RunsMarked(cells, runs) && h in runs
    ensures Covered(runs, h) && h + runs[h].blocks <= |cells|
  {
    assert IsRun(cells, h, runs[h].blocks);
  }

  // The byte of a block tells what it is: heads are exactly the live pointers, 255 marks exactly
  // the other blocks of live runs, 0 exactly the rest.
  lemma BytesMeanRuns(s: Slab, count: nat, blockSize: nat, j: nat)
    requires WellFormed(s, count, blockSize) && j < count
    ensures j in s.runs <==> 0 < s.cells[j] < CONTINUED
    ensures Covered(s.runs, j) && j !in s.runs <==> s.cells[j] == CONTINUED
    ensures !Covered(s.runs, j) <==> s.cells[j] == 0
  {
    if j in s.runs {
      HeadCovered(s.cells, s.runs, j);
    }
    if Covered(s.runs, j) {
      var h :| h in s.runs && h <= j < h + s.runs[h].blocks;
      InsideRun(s.cells, s.runs, h, j);
    }
  }

  // Bytes of the storage: the first one of a block, and those of a run.
  function Address(i: nat, blockSize: nat): nat {
    i * blockSize
  }

  // A live run lies inside the storage and has more bytes than were requested.
  lemma LiveRunIsLargeEnough(cells: seq<Cell>, runs: map<nat, Run>, blockSize: nat, i: nat)
    requires RunsMarked(cells, runs) && i in runs && blockSize >= 2
    requires runs[i].blocks == BlocksRequired(runs[i].size, blockSize)
    ensures Address(i, blockSize) + runs[i].size < Address(i + runs[i].blocks, blockSize) <= Address(|cells|, blockSize)
  {
    RunInside(cells, runs, i);
    EnoughBytes(i, runs[i], |cells|, blockSize);
  }

  lemma RunInside(cells: seq<Cell>, runs: map<nat, Run>, i: nat)
    requires RunsMarked(cells, runs) && i in runs
    ensures i + runs[i].blocks <= |cells|
  {
    assert IsRun(cells, i, runs[i].blocks);
  }

  lemma EnoughBytes(i: nat, run: Run, count: nat, blockSize: nat)
    requires blockSize >= 2 && run.blocks == BlocksRequired(run.size, blockSize) && i + run.blocks <= count
    ensures Address(i, blockSize) + run.size < Address(i + run.blocks, blockSize) <= Address(count, blockSize)
  {
    MultiplyMonotone(i + run.blocks, count, blockSize);
    BlocksFit(run.size, blockSize, 0);
    assert (i + run.blocks) * blockSize == i * blockSize + run.blocks * blockSize;
  }

  // Two live runs never share a byte.
  lemma LiveRunsAreDisjoint(runs: map<nat, Run>, blockSize: nat, i: nat, j: nat)
    requires RunsApart(runs) && i in runs && j in runs && i < j
    ensures Address(i + runs[i].blocks, blockSize) <= Address(j, blockSize)
  {
    MultiplyMonotone(i + runs[i].blocks, j, blockSize);
  }

  // ------------------------------------------------------------ what a pointer stands for

  // Every request within the bound gets a run inside the storage with more bytes than it asked for, or a
  // new heap allocation of its size.
  lemma AllocationServesRequest(s: Slab, count: nat, blockSize: nat, size: nat)
    requires WellFormed(s, count, blockSize) && size < count * (blockSize - 1)
    ensures var (t, p) := Allocated(s, blockSize, size);
            match p
            case Block(i) =>
              && i in t.runs && t.runs[i].size == size
              && i + t.runs[i].blocks <= count && size < t.runs[i].blocks * blockSize
            case Heap(id) => id !in s.heap && id in t.heap && t.heap[id] == size
  {
    AllocatedExactly(s, count, blockSize, size);
    BlocksFit(size, blockSize, count);
  }

  // The new run shares no block with any that was live.
  lemma AllocationIsApart(s: Slab, count: nat, blockSize: nat, size: nat, j: nat)
    requires WellFormed(s, count, blockSize) && size < count * (blockSize - 1) && j in s.runs
    ensures var (t, p) := Allocated(s, blockSize, size);
            p.Block? ==>
              && p.i in t.runs && j in t.runs && t.runs[j] == s.runs[j]
              && (j + t.runs[j].blocks <= p.i || p.i + t.runs[p.i].blocks <= j)
  {
    AllocatedExactly(s, count, blockSize, size);
    var (t, p) := Allocated(s, blockSize, size);
    if p.Block? {
      ApartFromFree(s.cells, s.runs, p.i, t.runs[p.i].blocks, j);
    }
  }

  // A live pointer keeps its run, or its heap allocation.
  predicate SameAllocation(s: Slab, t: Slab, p: Pointer)
    requires IsLive(s, p)
  {
    match p
    case Block(i) => i in t.runs && t.runs[i] == s.runs[i]
    case Heap(id) => id in t.heap && t.heap[id] == s.heap[id]
  }

  lemma OtherNotReleased(s: Slab, q: Pointer, p: Pointer)
    requires IsLive(s, q) && (q.Block? ==> q.i < |s.cells| && q.i + s.cells[q.i] <= |s.cells|)
    requires IsLive(s, p) && p != q
    ensures SameAllocation(s, Deallocated(s, q), p)
  {
  }

  lemma OtherNotReplaced(s: Slab, blockSize: nat, size: nat, p: Pointer)
    requires blockSize >= 2 && |s.cells| < 254 && size < |s.cells| * (blockSize - 1)
    requires RunsMarked(s.cells, s.runs) && IsLive(s, p) && forall id <- s.heap :: id < s.nextHeap
    ensures SameAllocation(s, Allocated(s, blockSize, size).0, p)
  {
    BlocksFit(size, blockSize, |s.cells|);
    if p.Block? {
      HeadUsed(s.cells, s.runs, p.i);
    }
  }

  lemma OtherStaysLive(s: Slab, count: nat, blockSize: nat, op: Op, p: Pointer)
    requires WellFormed(s, count, blockSize) && CanDo(s, count, blockSize, op)
    requires IsLive(s, p) && op != Deallocate(p)
    ensures SameAllocation(s, Do(s, count, blockSize, op), p)
  {
    match op
    case Allocate(size) => OtherNotReplaced(s, blockSize, size, p);
    case Deallocate(q) =>
      DeallocatedExactly(s, count, blockSize, q);
      OtherNotReleased(s, q, p);
  }

  // Whatever is allocated and released in between, an allocation stays what it is until it is released.
  lemma {:induction false} LiveUntilReleased(s: Slab, count: nat, blockSize: nat, ops: seq<Op>, p: Pointer)
    requires WellFormed(s, count, blockSize) && Legal(s, count, blockSize, ops)
    requires IsLive(s, p) && Deallocate(p) !in ops
    ensures SameAllocation(s, After(s, count, blockSize, ops), p)
    decreases |ops|
  {
    if ops == [] {
    } else {
      OtherStaysLive(s, count, blockSize, ops[0], p);
      LiveUntilReleased(Do(s, count, blockSize, ops[0]), count, blockSize, ops[1..], p);
    }
  }

  // Any request within the bound, and the release of any live pointer, may come next.
  lemma {:induction false} AnyRequest(s: Slab, count: nat, blockSize: nat, ops: seq<Op>, op: Op)
    requires WellFormed(s, count, blockSize) && Legal(s, count, blockSize, ops)
    requires match op
             case Allocate(size) => size < count * (blockSize - 1)
             case Deallocate(Block(i)) => i in After(s, count, blockSize, ops).runs
             case Deallocate(Heap(id)) => id in After(s, count, blockSize, ops).heap
    ensures Legal(s, count, blockSize, ops + [op])
    decreases |ops|
  {
    if ops == [] {
      assert (ops + [op])[1..] == [];
    } else {
      assert (ops + [op])[1..] == ops[1..] + [op];
      AnyRequest(Do(s, count, blockSize, ops[0]), count, blockSize, ops[1..], op);
    }
  }

  // ------------------------------------------------------------ conservation

  function FreeBlocks(cells: seq<Cell>, n: nat): nat
    requires n <= |cells|
  {
    if n == 0 then 0 else FreeBlocks(cells, n - 1) + if cells[n - 1] == 0 then 1 else 0
  }

  // Blocks in live runs that start before n.
  function LiveBlocks(runs: map<nat, Run>, n: nat): nat {
    if n == 0 then 0 else LiveBlocks(runs, n - 1) + if n - 1 in runs then runs[n - 1].blocks else 0
  }

  lemma {:induction false} CountRun(cells: seq<Cell>, runs: map<nat, Run>, h: nat, n: nat)
    requires h in runs && h < n <= |cells|
    requires forall j | h <= j < n :: cells[j] != 0
    requires forall j | h < j < n :: j !in runs
    ensures FreeBlocks(cells, n) == FreeBlocks(cells, h)
    ensures LiveBlocks(runs, n) == LiveBlocks(runs, h) + runs[h].blocks
  {
    if h + 1 < n {
      CountRun(cells, runs, h, n - 1);
    }
  }

  // No run crosses position n.
  ghost predicate Border(runs: map<nat, Run>, n: nat) {
    forall i | i in runs && i < n :: i + runs[i].blocks <= n
  }

  lemma NextBorder(runs: map<nat, Run>, n: nat, m: nat)
    requires Border(runs, n) && n < m
    requires if n in runs then m == n + runs[n].blocks else m == n + 1
    requires forall j | n < j < m :: j !in runs
    ensures Border(runs, m)
  {
  }

  // A used block that no earlier run reaches starts a run.
  lemma NextRun(cells: seq<Cell>, runs: map<nat, Run>, n: nat)
    requires Tiled(cells, runs) && n < |cells| && cells[n] != 0 && Border(runs, n)
    ensures n in runs && n < n + runs[n].blocks <= |cells|
    ensures forall j | n <= j < n + runs[n].blocks :: cells[j] != 0 && (n < j ==> j !in runs)
  {
    assert Covered(runs, n);
    var h :| h in runs && h <= n < h + runs[h].blocks;
    assert h == n;
    forall j | n <= j < n + runs[n].blocks ensures j < |cells| && cells[j] != 0 && (n < j ==> j !in runs) {
      InsideRun(cells, runs, n, j);
    }
    HeadCovered(cells, runs, n);
  }

  lemma FreeIsNoHead(cells: seq<Cell>, runs: map<nat, Run>, n: nat)
    requires RunsMarked(cells, runs) && n < |cells| && cells[n] == 0
    ensures n !in runs
  {
    if n in runs {
      HeadUsed(cells, runs, n);
    }
  }

  lemma HeadUsed(cells: seq<Cell>, runs: map<nat, Run>, h: nat)
    requires RunsMarked(cells, runs) && h in runs
    ensures h < |cells| && cells[h] != 0
  {
    assert IsRun(cells, h, runs[h].blocks);
  }

  // Walking the row tile by tile, every block is free or counted in one run.
  lemma CountBlocks(cells: seq<Cell>, runs: map<nat, Run>)
    requires Tiled(cells, runs)
    ensures FreeBlocks(cells, |cells|) + LiveBlocks(runs, |cells|) == |cells|
  {
    var n := 0;
    while n < |cells|
      invariant 0 <= n <= |cells|
      invariant Border(runs, n)
      invariant FreeBlocks(cells, n) + LiveBlocks(runs, n) == n
    {
      n := CountTile(cells, runs, n);
    }
  }

  lemma CountTile(cells: seq<Cell>, runs: map<nat, Run>, n: nat) returns (m: nat)
    requires Tiled(cells, runs) && n < |cells| && Border(runs, n)
    ensures n < m <= |cells| && Border(runs, m)
    ensures FreeBlocks(cells, m) + LiveBlocks(runs, m) == FreeBlocks(cells, n) + LiveBlocks(runs, n) + m - n
  {
    if cells[n] == 0 {
      m := n + 1;
      FreeIsNoHead(cells, runs, n);
    } else {
      NextRun(cells, runs, n);
      m := n + runs[n].blocks;
      CountRun(cells, runs, n, m);
    }
    NextBorder(runs, n, m);
  }

  // After any run: free blocks and the blocks of live runs make up the row.
  lemma Conservation(count: nat, blockSize: nat, ops: seq<Op>)
    requires 1 <= count < 254 && blockSize >= 2 && Legal(Empty(count), count, blockSize, ops)
    ensures var s := After(Empty(count), count, blockSize, ops);
            FreeBlocks(s.cells, count) + LiveBlocks(s.runs, count) == count
  {
    var s := After(Empty(count), count, blockSize, ops);
    CountBlocks(s.cells, s.runs);
  }

  lemma {:induction false} FreeAfterClaim(cells: seq<Cell>, i: nat, k: nat, n: nat)
    requires FreeRun(cells, i, k) && 1 <= k < 255 && n <= |cells|
    ensures FreeBlocks(Claim(cells, i, k), n) + (if n <= i then 0 else if n <= i + k then n - i else k)
         == FreeBlocks(cells, n)
  {
    if n == 0 {
    } else {
      FreeAfterClaim(cells, i, k, n - 1);
    }
  }

  // A block pointer costs exactly the blocks its request requires.
  lemma AllocationTakesBlocks(s: Slab, count: nat, blockSize: nat, size: nat)
    requires WellFormed(s, count, blockSize) && size < count * (blockSize - 1)
    ensures var (t, p) := Allocated(s, blockSize, size);
            |t.cells| == count && FreeBlocks(t.cells, count)
                               == FreeBlocks(s.cells, count) - if p.Block? then BlocksRequired(size, blockSize) else 0
  {
    BlocksFit(size, blockSize, count);
    var k := BlocksRequired(size, blockSize);
    match FirstFit(s.cells, k, 0)
    case Some(i) => FreeAfterClaim(s.cells, i, k, count);
    case None =>
  }

  // ------------------------------------------------------------ what releasing undoes

  lemma ReleaseUndoesClaim(cells: seq<Cell>, i: nat, k: nat)
    requires FreeRun(cells, i, k) && 1 <= k < 255
    ensures Claim(cells, i, k)[i] == k && Release(Claim(cells, i, k), i) == cells
  {
  }

  lemma ReleaseUndoesWithRun(s: Slab, i: nat, k: nat, size: nat)
    requires FreeRun(s.cells, i, k) && 1 <= k < 255 && RunsMarked(s.cells, s.runs)
    ensures i !in s.runs
    ensures var t := WithRun(s, i, k, size);
            i + t.cells[i] <= |t.cells| && Deallocated(t, Block(i)) == s
  {
    if i in s.runs {
      HeadCovered(s.cells, s.runs, i);
    }
    ReleaseUndoesClaim(s.cells, i, k);
    assert WithRun(s, i, k, size).runs - {i} == s.runs;
  }

  // An allocation followed by its release restores the use bytes and everything live.
  lemma ReleaseUndoesAllocate(s: Slab, count: nat, blockSize: nat, size: nat)
    requires WellFormed(s, count, blockSize) && size < count * (blockSize - 1)
    ensures var (t, p) := Allocated(s, blockSize, size);
            && IsLive(t, p) && !IsLive(s, p)
            && (p.Block? ==> p.i < count && p.i + t.cells[p.i] <= |t.cells|)
            && Deallocated(t, p) == s.(nextHeap := t.nextHeap)
  {
    BlocksFit(size, blockSize, count);
    var k := BlocksRequired(size, blockSize);
    match FirstFit(s.cells, k, 0)
    case Some(i) => ReleaseUndoesWithRun(s, i, k, size);
    case None => assert s.heap[s.nextHeap := size] - {s.nextHeap} == s.heap;
  }

  // Whatever was allocated, in whatever order it was released: once nothing is live on the slab,
  // the use bytes are those of a new allocator.
  lemma AllReleasedIsEmpty(count: nat, blockSize: nat, ops: seq<Op>)
    requires 1 <= count < 254 && blockSize >= 2 && Legal(Empty(count), count, blockSize, ops)
    requires After(Empty(count), count, blockSize, ops).runs == map[]
    ensures After(Empty(count), count, blockSize, ops).cells == Empty(count).cells
  {
    var s := After(Empty(count), count, blockSize, ops);
    forall j | 0 <= j < count ensures s.cells[j] == 0 {
      BytesMeanRuns(s, count, blockSize, j);
    }
  }

  // Heap allocations leave the slab alone, and are made exactly when no free run is long enough.
  lemma HeapIsTheLastResort(s: Slab, count: nat, blockSize: nat, size: nat)
    requires WellFormed(s, count, blockSize) && size < count * (blockSize - 1)
    ensures var (t, p) := Allocated(s, blockSize, size); var k := BlocksRequired(size, blockSize);
            && (p.Heap? <==> forall i :: !FreeRun(s.cells, i, k))
            && (p.Heap? ==> t.cells == s.cells && t.runs == s.runs)
            && (p.Block? ==> FreeRun(s.cells, p.i, k) && forall i | i < p.i :: !FreeRun(s.cells, i, k))
  {
    BlocksFit(size, blockSize, count);
    var k := BlocksRequired(size, blockSize);
    var fit := FirstFit(s.cells, k, 0);
    forall i | FreeRun(s.cells, i, k) ensures fit.Some? && fit.value <= i {
      assert 0 <= i;
    }
  }

  // ------------------------------------------------------------ oversized requests

  // The search reads behind the use bytes exactly for requests of at least count * (blockSize - 1)
  // bytes, whatever is in use.
  lemma OversizedExactly(cells: seq<Cell>, blockSize: nat, size: nat)
    requires blockSize >= 3 && |cells| < SIZE_VALUES && size < SIZE_VALUES
    ensures BlocksRequired(size, blockSize) < SIZE_VALUES
    ensures SearchFrom(cells, BlocksRequired(size, blockSize), 0) == OutOfBounds <==> size >= |cells| * (blockSize - 1)
  {
    BlocksFit(size, blockSize, |cells|);
    BlocksFit(size, blockSize, SIZE_VALUES - 1);
    MultiplyMonotone(2, blockSize - 1, SIZE_VALUES - 1);
    SearchIsFirstFit(cells, BlocksRequired(size, blockSize), 0);
  }

  const STORAGES_COUNT := 4
  const STORAGES_MIN_SIZE := 256

  // The allocator of the server's connections serves every request of up to 1019 bytes.
  lemma ConnectionAllocator(cells: seq<Cell>, size: nat)
    requires |cells| == STORAGES_COUNT && size < SIZE_VALUES
    ensures BlocksRequired(size, STORAGES_MIN_SIZE) < SIZE_VALUES
    ensures SearchFrom(cells, BlocksRequired(size, STORAGES_MIN_SIZE), 0) == OutOfBounds <==> size >= 1020
  {
    OversizedExactly(cells, STORAGES_MIN_SIZE, size);
  }
}
