/** The slab allocator: a row of N blocks of B bytes, first fit, with the use of the blocks kept in one
    byte each: 0 for a free block, the run length at the head of a run, 255 behind it. */
module SlabAllocator {
  import opened Wrappers

  type Cell = c: int | 0 <= c < 256 // unsigned char

  const CONTINUED: Cell := 255
  const SIZE_VALUES := 0x1_0000_0000_0000_0000 // number of values of a std::size_t

  // What `allocate` returns: the address of a block, or one from the heap.
  datatype Pointer = Block(i: nat) | Heap(id: nat)

  // ------------------------------------------------------------ first fit, the simple form

  predicate FreeRun(cells: seq<Cell>, i: int, k: nat) {
    0 <= i && i + k <= |cells| && forall j | i <= j < i + k :: cells[j] == 0
  }

  // The lowest start of a free run of k blocks, from `from` on.
  function FirstFit(cells: seq<Cell>, k: nat, from: nat): (r: Option<nat>)
    ensures r.Some? ==> FreeRun(cells, r.value, k) && from <= r.value
    ensures forall i | from <= i && FreeRun(cells, i, k) :: r.Some? && r.value <= i
    decreases |cells| + 1 - from
  {
    if |cells| < from + k then None
    else if FreeRun(cells, from, k) then Some(from)
    else if from < |cells| then FirstFit(cells, k, from + 1)
    else None
  }

  function Claim(cells: seq<Cell>, i: nat, k: nat): (r: seq<Cell>)
    requires i + k <= |cells| && 1 <= k < 255
    ensures |r| == |cells|
    ensures forall j | 0 <= j < |cells| :: r[j] == if j == i then k else if i < j < i + k then CONTINUED else cells[j]
  {
    cells[..i] + [k] + seq(k - 1, _ => CONTINUED) + cells[i + k..]
  }

  function Release(cells: seq<Cell>, i: nat): (r: seq<Cell>)
    requires i < |cells| && i + cells[i] <= |cells|
    ensures |r| == |cells|
    ensures forall j | 0 <= j < |cells| :: r[j] == if i <= j < i + cells[i] then 0 else cells[j]
  {
    cells[..i] + seq(cells[i], _ => 0) + cells[i + cells[i]..]
  }

  // Blocks for a request: each block counts one byte less than it has.
  function BlocksRequired(size: nat, blockSize: nat): (k: nat)
    requires blockSize >= 2
    ensures k >= 1
  {
    size / (blockSize - 1) + 1
  }

  lemma MultiplyMonotone(a: nat, b: nat, d: nat)
    requires a <= b
    ensures a * d <= b * d
  {
    assert b * d == a * d + (b - a) * d;
  }

  // The fewest blocks whose counted bytes exceed the request; their real bytes do so too.
  lemma BlocksFit(size: nat, blockSize: nat, n: nat)
    requires blockSize >= 2
    ensures BlocksRequired(size, blockSize) <= n <==> size < n * (blockSize - 1)
    ensures size < BlocksRequired(size, blockSize) * blockSize
  {
    var d, k := blockSize - 1, BlocksRequired(size, blockSize);
    assert size == (k - 1) * d + size % d;
    assert k * d == (k - 1) * d + d;
    assert k * blockSize == k * d + k;
    if k <= n {
      MultiplyMonotone(k, n, d);
    } else {
      MultiplyMonotone(n, k - 1, d);
    }
  }

  // ------------------------------------------------------------ the search as written

  datatype Search = Fit(i: nat) | Exhausted | OutOfBounds

  // The inner loop: free blocks seen from i on, up to k, stopping at a used block or at the end
  // of the array.
  function CountFree(cells: seq<Cell>, i: nat, k: nat, free: nat): (r: nat)
    requires free <= k && i + free <= |cells| && FreeRun(cells, i, free)
    ensures free <= r <= k && i + r <= |cells| && FreeRun(cells, i, r)
    ensures r == k || i + r == |cells| || cells[i + r] != 0
    decreases k - free
  {
    if free == k || i + free == |cells| || cells[i + free] != 0 then free else CountFree(cells, i, k, free + 1)
  }

  // allocate_multiple's search: the loop bound is an unsigned subtraction, and a failed attempt
  // continues behind the block that stopped it.
  function SearchFrom(cells: seq<Cell>, k: nat, i: nat): Search
    requires 1 <= k < SIZE_VALUES && |cells| < SIZE_VALUES
    decreases |cells| + k - i
  {
    var last := (|cells| - k) % SIZE_VALUES;
    if last < i then Exhausted
    else if |cells| <= i then OutOfBounds
    else if cells[i] != 0 then SearchFrom(cells, k, i + 1)
    else
      var free := CountFree(cells, i, k, 1);
      if free == k then Fit(i)
      else if i + free == |cells| then OutOfBounds
      else SearchFrom(cells, k, i + free + 1)
  }

  // Skipping ahead never misses a fit: as long as the request fits the row at all, the search is
  // first fit.  It reads behind the row exactly when the request has more blocks than the row.
  lemma {:induction false} SearchIsFirstFit(cells: seq<Cell>, k: nat, i: nat)
    requires 1 <= k < SIZE_VALUES && |cells| < SIZE_VALUES
    requires i <= |cells| && forall j | 0 <= j < i :: !FreeRun(cells, j, k)
    ensures k <= |cells| ==>
              SearchFrom(cells, k, i)
              == match FirstFit(cells, k, 0) { case Some(f) => Fit(f) case None => Exhausted }
    ensures SearchFrom(cells, k, i) == OutOfBounds <==> k > |cells|
    decreases |cells| + k - i
  {
    WrappedBound(|cells|, k);
    if i < |cells| && (k > |cells| || i + k <= |cells|) {
      if cells[i] != 0 {
        SearchIsFirstFit(cells, k, i + 1);
      } else {
        var free := CountFree(cells, i, k, 1);
        if free < k && i + free < |cells| {
          BlockedRuns(cells, i, free, k);
          SearchIsFirstFit(cells, k, i + free + 1);
        }
      }
    }
  }

  // A used block rules out every run across it.
  lemma BlockedRuns(cells: seq<Cell>, i: nat, free: nat, k: nat)
    requires free < k && i + free < |cells| && cells[i + free] != 0
    ensures forall j | i <= j <= i + free :: !FreeRun(cells, j, k)
  {
  }

  lemma WrappedBound(n: nat, k: nat)
    requires 1 <= k < SIZE_VALUES && n < SIZE_VALUES
    ensures (n - k) % SIZE_VALUES == if k <= n then n - k else n - k + SIZE_VALUES
  {
  }

  // ------------------------------------------------------------ the allocator on values

  // A live allocation of blocks, and the size it was requested with.
  datatype Run = Run(blocks: nat, size: nat)

  // The use bytes, and what is live: the runs by their first block, and the heap allocations'
  // sizes by their address.
  datatype Slab = Slab(cells: seq<Cell>, runs: map<nat, Run>, heap: map<nat, nat>, nextHeap: nat)

  function Empty(count: nat): Slab {
    Slab(seq(count, _ => 0), map[], map[], 0)
  }

  // The outcome of a search for k blocks: the first fit is claimed, and the heap is used
  // exactly when there is none.
  ghost predicate Placed(cells: seq<Cell>, next: nat, k: nat, cells': seq<Cell>, next': nat, p: Pointer)
    requires 1 <= k < 255
  {
    match FirstFit(cells, k, 0)
    case Some(i) => p == Block(i) && cells' == Claim(cells, i, k) && next' == next
    case None => p == Heap(next) && cells' == cells && next' == next + 1
  }

  function WithRun(s: Slab, i: nat, k: nat, size: nat): Slab
    requires i + k <= |s.cells| && 1 <= k < 255
  {
    s.(cells := Claim(s.cells, i, k), runs := s.runs[i := Run(k, size)])
  }

  function Allocated(s: Slab, blockSize: nat, size: nat): (Slab, Pointer)
    requires blockSize >= 2 && |s.cells| < 254 && size < |s.cells| * (blockSize - 1)
  {
    BlocksFit(size, blockSize, |s.cells|);
    var k := BlocksRequired(size, blockSize);
    match FirstFit(s.cells, k, 0)
    case Some(i) => (WithRun(s, i, k, size), Block(i))
    case None => (s.(heap := s.heap[s.nextHeap := size], nextHeap := s.nextHeap + 1), Heap(s.nextHeap))
  }

  predicate IsLive(s: Slab, p: Pointer) {
    match p
    case Block(i) => i in s.runs
    case Heap(id) => id in s.heap
  }

  function Deallocated(s: Slab, p: Pointer): Slab
    requires IsLive(s, p) && (p.Block? ==> p.i < |s.cells| && p.i + s.cells[p.i] <= |s.cells|)
  {
    match p
    case Block(i) => s.(cells := Release(s.cells, i), runs := s.runs - {i})
    case Heap(id) => s.(heap := s.heap - {id})
  }

  // The run that starts at block i and has k blocks.
  predicate IsRun(cells: seq<Cell>, i: nat, k: nat) {
    && 1 <= k < 255 && i + k <= |cells|
    && cells[i] == k && forall j | i < j < i + k :: cells[j] == CONTINUED
  }

  ghost predicate RunsMarked(cells: seq<Cell>, runs: map<nat, Run>) {
    forall i <- runs :: IsRun(cells, i, runs[i].blocks)
  }

  ghost predicate RunsApart(runs: map<nat, Run>) {
    forall i, j | i in runs && j in runs && i < j :: i + runs[i].blocks <= j
  }

  ghost predicate Covered(runs: map<nat, Run>, j: nat) {
    exists i :: i in runs && i <= j < i + runs[i].blocks
  }

  // The use bytes tile the row: disjoint runs, one for each live allocation, and free blocks.
  ghost predicate Tiled(cells: seq<Cell>, runs: map<nat, Run>) {
    && RunsMarked(cells, runs)
    && RunsApart(runs)
    && forall j | 0 <= j < |cells| && cells[j] != 0 :: Covered(runs, j)
  }

  ghost predicate WellFormed(s: Slab, count: nat, blockSize: nat) {
    && 1 <= count < 254 && blockSize >= 2 && |s.cells| == count
    && Tiled(s.cells, s.runs)
    && (forall i <- s.runs :: s.runs[i].blocks == BlocksRequired(s.runs[i].size, blockSize))
    && (forall id <- s.heap :: id < s.nextHeap)
  }

  lemma ApartFromFree(cells: seq<Cell>, runs: map<nat, Run>, i: nat, k: nat, j: nat)
    requires RunsMarked(cells, runs) && FreeRun(cells, i, k) && 1 <= k && j in runs
    ensures j + runs[j].blocks <= i || i + k <= j
  {
    assert IsRun(cells, j, runs[j].blocks);
    assert cells[i] == 0;
  }

  lemma ClaimKeepsTiled(cells: seq<Cell>, runs: map<nat, Run>, i: nat, k: nat, size: nat)
    requires Tiled(cells, runs) && 1 <= k < 255 && FreeRun(cells, i, k)
    ensures i !in runs && Tiled(Claim(cells, i, k), runs[i := Run(k, size)])
  {
    var cells', runs' := Claim(cells, i, k), runs[i := Run(k, size)];
    forall j <- runs ensures j != i && (j + runs[j].blocks <= i || i + k <= j) {
      ApartFromFree(cells, runs, i, k, j);
    }
    forall j <- runs' ensures IsRun(cells', j, runs'[j].blocks) {
      assert j != i ==> IsRun(cells, j, runs[j].blocks);
    }
    assert RunsApart(runs');
    forall j | 0 <= j < |cells'| && cells'[j] != 0 ensures Covered(runs', j) {
      if i <= j < i + k {
        assert i in runs';
      } else {
        assert Covered(runs, j);
        var h :| h in runs && h <= j < h + runs[h].blocks;
        assert h in runs';
      }
    }
  }

  lemma ReleaseKeepsTiled(cells: seq<Cell>, runs: map<nat, Run>, i: nat)
    requires Tiled(cells, runs) && i in runs
    ensures i < |cells| && cells[i] == runs[i].blocks && i + cells[i] <= |cells|
    ensures Tiled(Release(cells, i), runs - {i})
  {
    assert IsRun(cells, i, runs[i].blocks);
    var cells', runs' := Release(cells, i), runs - {i};
    forall j <- runs' ensures IsRun(cells', j, runs'[j].blocks) {
      assert IsRun(cells, j, runs[j].blocks);
    }
    assert RunsApart(runs');
    forall j | 0 <= j < |cells'| && cells'[j] != 0 ensures Covered(runs', j) {
      assert Covered(runs, j);
      var h :| h in runs && h <= j < h + runs[h].blocks;
      assert h in runs';
    }
  }

  lemma ClaimKeepsWellFormed(s: Slab, count: nat, blockSize: nat, i: nat, k: nat, size: nat)
    requires WellFormed(s, count, blockSize) && 1 <= k < 255 && FreeRun(s.cells, i, k)
    requires k == BlocksRequired(size, blockSize)
    ensures WellFormed(WithRun(s, i, k, size), count, blockSize)
  {
    ClaimKeepsTiled(s.cells, s.runs, i, k, size);
  }

  lemma AllocateKeepsWellFormed(s: Slab, count: nat, blockSize: nat, size: nat)
    requires WellFormed(s, count, blockSize) && size < count * (blockSize - 1)
    ensures WellFormed(Allocated(s, blockSize, size).0, count, blockSize)
  {
    BlocksFit(size, blockSize, count);
    var k := BlocksRequired(size, blockSize);
    match FirstFit(s.cells, k, 0)
    case Some(i) => ClaimKeepsWellFormed(s, count, blockSize, i, k, size);
    case None =>
  }

  lemma DeallocateKeepsWellFormed(s: Slab, count: nat, blockSize: nat, p: Pointer)
    requires WellFormed(s, count, blockSize) && IsLive(s, p)
    ensures p.Block? ==> p.i < count && p.i + s.cells[p.i] <= count
    ensures WellFormed(Deallocated(s, p), count, blockSize)
  {
    if p.Block? {
      ReleaseKeepsTiled(s.cells, s.runs, p.i);
    }
  }

  // What an allocation changes: a block pointer is the head of a new run of just the blocks required,
  // recorded with the requested size; otherwise one more allocation of that size is on the heap.
  lemma AllocatedExactly(s: Slab, count: nat, blockSize: nat, size: nat)
    requires WellFormed(s, count, blockSize) && size < count * (blockSize - 1)
    ensures var (t, p) := Allocated(s, blockSize, size);
            match p
            case Block(i) =>
              && var k := BlocksRequired(size, blockSize);
              && i !in s.runs && FreeRun(s.cells, i, k)
              && t.runs == s.runs[i := Run(k, size)] && t.heap == s.heap
            case Heap(id) => id !in s.heap && t.runs == s.runs && t.heap == s.heap[id := size]
  {
    BlocksFit(size, blockSize, count);
    var k := BlocksRequired(size, blockSize);
    match FirstFit(s.cells, k, 0)
    case Some(i) => ClaimKeepsTiled(s.cells, s.runs, i, k, size);
    case None =>
  }

  // The use bytes it leaves: the number of blocks at the head of the run and 255 behind it.
  lemma AllocatedBytes(s: Slab, count: nat, blockSize: nat, size: nat, j: nat)
    requires WellFormed(s, count, blockSize) && size < count * (blockSize - 1) && j < count
    ensures var (t, p) := Allocated(s, blockSize, size);
            var k := BlocksRequired(size, blockSize);
            |t.cells| == count && t.cells[j] == if p == Block(j) then k
                                                else if p.Block? && p.i < j < p.i + k then 255
                                                else s.cells[j]
  {
    BlocksFit(size, blockSize, count);
  }

  // What a release changes: one run, or one heap allocation, is gone.
  lemma DeallocatedExactly(s: Slab, count: nat, blockSize: nat, p: Pointer)
    requires WellFormed(s, count, blockSize) && IsLive(s, p)
    ensures p.Block? ==> p.i < count && p.i + s.cells[p.i] <= count
    ensures var t := Deallocated(s, p);
            match p
            case Block(i) => t.runs == s.runs - {i} && t.heap == s.heap
            case Heap(id) => t.runs == s.runs && t.heap == s.heap - {id}
  {
    if p.Block? {
      ReleaseKeepsTiled(s.cells, s.runs, p.i);
    }
  }

  // Just the blocks of the run become free.
  lemma DeallocatedBytes(s: Slab, count: nat, blockSize: nat, p: Pointer, j: nat)
    requires WellFormed(s, count, blockSize) && IsLive(s, p) && j < count
    ensures p.Block? ==> p.i < count && p.i + s.cells[p.i] <= count
    ensures var t := Deallocated(s, p);
            |t.cells| == count && t.cells[j] == if p.Block? && p.i <= j < p.i + s.runs[p.i].blocks then 0
                                                else s.cells[j]
  {
    if p.Block? {
      ReleaseKeepsTiled(s.cells, s.runs, p.i);
    }
  }

  // ------------------------------------------------------------ the allocator

  class SlabAllocator {
    const count: nat
    const blockSize: nat
    const inUse: array<Cell>
    var nextHeap: nat // the address the heap hands out next
    ghost var runs: map<nat, Run>
    ghost var heap: map<nat, nat>

    ghost predicate Valid()
      reads this, inUse
    {
      inUse.Length == count && WellFormed(View(), count, blockSize)
    }

    ghost function View(): Slab
      reads this, inUse
    {
      Slab(inUse[..], runs, heap, nextHeap)
    }

    constructor (count: nat, blockSize: nat)
      requires 1 <= count < 254 && blockSize >= 2
      ensures Valid() && fresh(inUse)
      ensures this.count == count && this.blockSize == blockSize && View() == Empty(count)
    {
      this.count, this.blockSize := count, blockSize;
      inUse := new Cell[count](_ => 0);
      nextHeap, runs, heap := 0, map[], map[];
      new;
      assert inUse[..] == Empty(count).cells;
    }

    // std::fill on the use bytes.
    method Fill(from: nat, to: nat, value: Cell)
      requires from <= to <= inUse.Length
      modifies inUse
      ensures inUse[..] == old(inUse[..from]) + seq(to - from, _ => value) + old(inUse[to..])
    {
      forall i | from <= i < to {
        inUse[i] := value;
      }
    }

    method AllocateSingle() returns (p: Pointer)
      requires inUse.Length == count
      modifies this`nextHeap, inUse
      ensures Placed(old(inUse[..]), old(nextHeap), 1, inUse[..], nextHeap, p)
    {
      for i := 0 to count
        invariant forall j | 0 <= j < i :: !FreeRun(inUse[..], j, 1)
        invariant inUse[..] == old(inUse[..]) && nextHeap == old(nextHeap)
      {
        if inUse[i] == 0 {
          assert FreeRun(inUse[..], i, 1);
          inUse[i] := 1;
          assert inUse[..] == Claim(old(inUse[..]), i, 1);
          return Block(i);
        }
        assert !FreeRun(inUse[..], i, 1);
      }
      p := Heap(nextHeap);
      nextHeap := nextHeap + 1;
    }

    method AllocateMultiple(k: nat) returns (p: Pointer)
      requires inUse.Length == count < 254 && 1 <= k <= count
      modifies this`nextHeap, inUse
      ensures Placed(old(inUse[..]), old(nextHeap), k, inUse[..], nextHeap, p)
    {
      ghost var cells := inUse[..];
      var i := 0;
      while i <= count - k
        invariant 0 <= i <= count + 1
        invariant inUse[..] == cells && nextHeap == old(nextHeap)
        invariant forall j | 0 <= j < i :: !FreeRun(cells, j, k)
      {
        if inUse[i] != 0 {
          assert !FreeRun(cells, i, k);
          i := i + 1;
          continue;
        }
        var free := 1;
        while free < k && inUse[i + free] == 0
          invariant 1 <= free <= k && FreeRun(cells, i, free)
        {
          free := free + 1;
        }
        if free != k {
          BlockedRuns(cells, i, free, k);
          i := i + free + 1;
          continue;
        }
        inUse[i] := k;
        Fill(i + 1, i + k, CONTINUED);
        assert inUse[..] == Claim(cells, i, k);
        return Block(i);
      }
      p := Heap(nextHeap);
      nextHeap := nextHeap + 1;
    }

    // Requests that would need more blocks than the row has make the search read behind the row.
    method Allocate(size: nat) returns (p: Pointer)
      requires Valid() && size < count * (blockSize - 1)
      modifies this, inUse
      ensures Valid() && View() == Allocated(old(View()), blockSize, size).0
      ensures p == Allocated(old(View()), blockSize, size).1
      ensures match p
              case Block(i) => i in runs && runs[i].size == size && heap == old(heap)
              case Heap(id) => id in heap && heap[id] == size && runs == old(runs)
    {
      ghost var before := View();
      AllocateKeepsWellFormed(before, count, blockSize, size);
      BlocksFit(size, blockSize, count);
      var k := BlocksRequired(size, blockSize);
      if k == 1 {
        p := AllocateSingle();
      } else {
        p := AllocateMultiple(k);
      }
      match p {
        case Block(i) => runs := runs[i := Run(k, size)];
        case Heap(id) => heap := heap[id := size];
      }
      assert View() == Allocated(before, blockSize, size).0;
    }

    method ReleaseAt(i: nat)
      requires i < inUse.Length && i + inUse[i] <= inUse.Length
      modifies inUse
      ensures inUse[..] == Release(old(inUse[..]), i)
    {
      Fill(i, i + inUse[i], 0);
    }

    method Deallocate(p: Pointer)
      requires Valid() && IsLive(View(), p)
      modifies this, inUse
      ensures Valid() && View() == Deallocated(old(View()), p)
      ensures p.Block? ==> runs == old(runs) - {p.i} && heap == old(heap)
      ensures p.Block? ==> forall j | 0 <= j < count ::
                             inUse[j] == if p.i <= j < p.i + old(runs[p.i].blocks) then 0 else old(inUse[j])
      ensures p.Heap? ==> inUse[..] == old(inUse[..]) && runs == old(runs) && heap == old(heap) - {p.id}
    {
      ghost var before := View();
      DeallocateKeepsWellFormed(before, count, blockSize, p);
      DeallocatedExactly(before, count, blockSize, p);
      for i: nat := 0 to count
        invariant p.Block? ==> i <= p.i
        invariant inUse[..] == before.cells
      {
        if p == Block(i) {
          ReleaseAt(i);
          runs := runs - {i};
          assert View() == Deallocated(before, p);
          return;
        }
      }
      heap := heap - {p.id};
      assert View() == Deallocated(before, p);
    }
  }
}
