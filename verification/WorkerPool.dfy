/** The worker threads of `boost_io_service`: one atomic target, workers that compare their index with
    it before every `run_one`, and a controller that grows, shrinks and stops the pool.  The protocol
    is a step system over all interleavings; calls of the controller are serialised. */
module WorkerPool {

  const MAX_THREADS := 65535 // numeric_limits<unsigned short>::max()

  function ThreadsCount(configured: nat, hardware: nat): (r: nat)
    ensures 1 <= r <= MAX_THREADS
    ensures 1 <= configured <= MAX_THREADS ==> r == configured
    ensures configured == 0 && 1 <= hardware <= MAX_THREADS ==> r == hardware
    ensures configured == 0 && hardware == 0 ==> r == 2
    ensures configured > MAX_THREADS || (configured == 0 && hardware > MAX_THREADS) ==> r == MAX_THREADS
  {
    var wanted := if configured != 0 then configured else if hardware != 0 then hardware else 2;
    if wanted > MAX_THREADS then MAX_THREADS else wanted
  }

  // A worker is about to compare its index, inside run_one, or past its loop.
  datatype Phase = Checking | Running | Exited

  datatype Worker = Worker(index: nat, phase: Phase)

  // Where the controller is: outside, in the creation loop of `reload`, or inside `stop`.
  datatype Control =
    | Idle
    | Creating(next: nat, until: nat)
    | WorkReleased
    | TargetZeroed
    | Joining

  datatype Pool = Pool(
    target: nat, // required_threads_count_
    work: bool, // work_ is set
    stopped: bool, // io_service_ is stopped
    control: Control,
    workers: seq<Worker> // every thread ever created, in order
  )

  const START := Pool(0, false, false, Idle, [])

  // What a worker does next: compare its index; return from run_one after a handler ran or threw;
  // or leave because run_one returned 0.
  datatype Act = Check | Finish | Leave

  datatype Move =
    | Step(id: nat, act: Act)
    | Reload(count: nat) // up to and including the store
    | FailReload // the logger lookup throws, after work_ was set and before the store
    | CreateThread
    | ReleaseWork
    | ZeroTarget
    | StopService
    | Joined

  predicate In(p: Pool, id: nat, phase: Phase) {
    id < |p.workers| && p.workers[id].phase == phase
  }

  predicate Live(p: Pool, id: nat) {
    id < |p.workers| && !p.workers[id].phase.Exited?
  }

  // run_one returns 0 only on a stopped service or one without work.
  predicate Enabled(p: Pool, move: Move) {
    match move
    case Reload(count) => p.control.Idle? && 1 <= count <= MAX_THREADS
    case FailReload => p.control.Idle?
    case CreateThread => p.control.Creating?
    case Step(id, Check) => In(p, id, Checking)
    case Step(id, Finish) => In(p, id, Running)
    case Step(id, Leave) => In(p, id, Running) && (p.stopped || !p.work)
    case ReleaseWork => p.control.Idle?
    case ZeroTarget => p.control.WorkReleased?
    case StopService => p.control.TargetZeroed?
    case Joined => p.control.Joining? && forall id | 0 <= id < |p.workers| :: !Live(p, id)
  }

  function SetPhase(p: Pool, id: nat, phase: Phase): Pool
    requires id < |p.workers|
  {
    p.(workers := p.workers[id := p.workers[id].(phase := phase)])
  }

  function Do(p: Pool, move: Move): Pool
    requires Enabled(p, move)
  {
    match move
    case Reload(count) =>
      p.(target := count, work := true, control := if p.target < count then Creating(p.target, count) else Idle)
    case FailReload => p.(work := true)
    case CreateThread =>
      var next, until := p.control.next + 1, p.control.until;
      p.(workers := p.workers + [Worker(p.control.next, Checking)],
         control := if next < until then Creating(next, until) else Idle)
    case Step(id, Check) => SetPhase(p, id, if p.target > p.workers[id].index then Running else Exited)
    case Step(id, Finish) => SetPhase(p, id, Checking)
    case Step(id, Leave) => SetPhase(p, id, Exited)
    case ReleaseWork => p.(work := false, control := WorkReleased)
    case ZeroTarget => p.(target := 0, control := TargetZeroed)
    case StopService => p.(stopped := true, control := Joining)
    case Joined => p.(stopped := false, control := Idle)
  }

  // The controller's moves among them, in order.
  function Calls(moves: seq<Move>): seq<Move> {
    if moves == [] then [] else
    var last := moves[|moves| - 1];
    Calls(moves[..|moves| - 1]) + if last.Step? then [] else [last]
  }

  predicate Legal(p: Pool, moves: seq<Move>)
    decreases |moves|
  {
    moves == [] || (Enabled(p, moves[0]) && Legal(Do(p, moves[0]), moves[1..]))
  }

  function After(p: Pool, moves: seq<Move>): Pool
    requires Legal(p, moves)
    decreases |moves|
  {
    if moves == [] then p else After(Do(p, moves[0]), moves[1..])
  }

  lemma {:induction false} AfterSnoc(p: Pool, moves: seq<Move>, move: Move)
    requires Legal(p, moves) && Enabled(After(p, moves), move)
    ensures Legal(p, moves + [move]) && After(p, moves + [move]) == Do(After(p, moves), move)
    decreases |moves|
  {
    if moves == [] {
      assert moves + [move] == [move];
      assert [move][1..] == [];
    } else {
      assert (moves + [move])[1..] == moves[1..] + [move];
      AfterSnoc(Do(p, moves[0]), moves[1..], move);
    }
  }

  // ------------------------------------------------------------ every index is served

  predicate Serves(p: Pool, id: nat, i: nat) {
    Live(p, id) && p.workers[id].index == i
  }

  ghost predicate Served(p: Pool, i: nat) {
    exists id: nat :: Serves(p, id, i)
  }

  predicate Pending(p: Pool, i: nat) {
    p.control.Creating? && p.control.next <= i
  }

  // Before a stop: each index below the target has a worker that has not left its loop, or is
  // still to be created.  Outside, with target 0, no worker is left.
  ghost predicate Inv(p: Pool) {
    && p.target <= MAX_THREADS
    && (p.control.Creating? ==> p.control.next < p.control.until == p.target)
    && (p.control.Idle? || p.control.Creating? ==>
          && !p.stopped
          && (!p.work ==> p.target == 0)
          && (p.target == 0 ==> p.control.Idle? && forall id: nat :: !Live(p, id))
          && forall i: nat | i < p.target :: Pending(p, i) || Served(p, i))
    && (p.control.WorkReleased? ==> !p.work && !p.stopped)
    && (p.control.TargetZeroed? ==> !p.work && p.target == 0 && !p.stopped)
    && (p.control.Joining? ==> !p.work && p.target == 0 && p.stopped)
  }

  lemma CreateKeepsServed(p: Pool, i: nat)
    requires p.control.Creating? && (Pending(p, i) || Served(p, i)) && i < p.control.until
    ensures var q := Do(p, CreateThread); Pending(q, i) || Served(q, i)
  {
    var q := Do(p, CreateThread);
    if i == p.control.next {
      assert Serves(q, |p.workers|, i);
    } else if Served(p, i) {
      var id: nat :| Serves(p, id, i);
      assert Serves(q, id, i);
    }
  }

  lemma WorkerKeepsServed(p: Pool, move: Move, i: nat)
    requires move.Step? && Enabled(p, move) && p.work && !p.stopped
    requires Served(p, i) && i < p.target
    ensures Served(Do(p, move), i)
  {
    var id: nat :| Serves(p, id, i);
    assert Serves(Do(p, move), id, i);
  }

  lemma DoKeepsInv(p: Pool, move: Move)
    requires Inv(p) && Enabled(p, move)
    ensures Inv(Do(p, move))
  {
    var q := Do(p, move);
    assert move.Step? ==> Live(p, move.id);
    if q.control.Idle? || q.control.Creating? {
      forall i: nat | i < q.target ensures Pending(q, i) || Served(q, i) {
        if move.CreateThread? {
          CreateKeepsServed(p, i);
        } else if move.Step? {
          if !Pending(p, i) { WorkerKeepsServed(p, move, i); }
        } else if i < p.target {
          assert Served(p, i);
          var id: nat :| Serves(p, id, i);
          assert Serves(q, id, i);
        }
      }
    }
    if move.Joined? || move.FailReload? {
      forall id: nat ensures Live(q, id) ==> Live(p, id) && !move.Joined? {
        if id < |p.workers| && move.Joined? { assert !Live(p, id); }
      }
    }
  }

  lemma {:induction false} RunKeepsInv(p: Pool, moves: seq<Move>)
    requires Inv(p) && Legal(p, moves)
    ensures Inv(After(p, moves))
    decreases |moves|
  {
    if moves == [] {
    } else {
      DoKeepsInv(p, moves[0]);
      RunKeepsInv(Do(p, moves[0]), moves[1..]);
    }
  }

  // In every reachable state outside `stop`: the target is 0 with no worker left, or it lies in
  // 1..65535 and every index below it is served or about to be created; so once `reload` has
  // returned, every index below the target is served.
  lemma EveryIndexServed(moves: seq<Move>)
    requires Legal(START, moves)
    ensures var p := After(START, moves);
            && p.target <= MAX_THREADS
            && (p.control.Idle? || p.control.Creating? ==>
                  forall index: nat | index < p.target :: Pending(p, index) || Served(p, index))
            && (p.control.Idle? ==> forall index: nat | index < p.target :: Served(p, index))
            && (p.control.Idle? && p.target == 0 ==> forall id: nat :: !Live(p, id))
  {
    RunKeepsInv(START, moves);
  }

  // ------------------------------------------------------------ one worker per index

  // No two workers that are in their loop have the same index.
  predicate Distinct(p: Pool) {
    forall a, b | 0 <= a < b < |p.workers| && Live(p, a) && Live(p, b) :: p.workers[a].index != p.workers[b].index
  }

  // No worker from an earlier, larger pool is left in its loop.
  predicate NoneIn(p: Pool, low: nat, high: nat) {
    forall id | 0 <= id < |p.workers| && Live(p, id) :: !(low <= p.workers[id].index < high)
  }

  // The moves that interleave with one call of `reload` after its store.
  predicate Interleaved(moves: seq<Move>) {
    forall m <- moves :: m.Step? || m.CreateThread?
  }

  lemma StepKeepsWorkers(p: Pool, move: Move)
    requires Enabled(p, move) && move.Step?
    ensures var q := Do(p, move);
            && |q.workers| == |p.workers|
            && (forall id | 0 <= id < |p.workers| ::
                  q.workers[id].index == p.workers[id].index && (Live(q, id) ==> Live(p, id)))
            && q == p.(workers := q.workers)
  {
  }

  // While `reload` creates, a distinct pool without leftovers in the range still to be created stays so.
  lemma {:induction false} CleanGrowth(p: Pool, moves: seq<Move>)
    requires Inv(p) && Legal(p, moves) && Interleaved(moves)
    requires Distinct(p) && (p.control.Creating? ==> NoneIn(p, p.control.next, p.control.until))
    ensures Distinct(After(p, moves))
    decreases |moves|
  {
    if moves == [] {
    } else {
      var move := moves[0];
      assert move in moves;
      DoKeepsInv(p, move);
      if move.Step? {
        StepKeepsWorkers(p, move);
      }
      CleanGrowth(Do(p, move), moves[1..]);
    }
  }

  // A leftover worker in that range finds the larger target and stays, next to the new one.
  ghost predicate Doubled(p: Pool, id: nat) {
    && Live(p, id) && p.workers[id].index < p.target
    && (Pending(p, p.workers[id].index) || exists other: nat :: other != id && Serves(p, other, p.workers[id].index))
  }

  lemma DoKeepsDoubled(p: Pool, move: Move, id: nat)
    requires Inv(p) && Enabled(p, move) && (move.Step? || move.CreateThread?) && p.work && !p.stopped
    requires Doubled(p, id)
    ensures Doubled(Do(p, move), id)
  {
    var q := Do(p, move);
    var i := p.workers[id].index;
    assert Serves(q, id, i);
    if Pending(p, i) {
      if move.CreateThread? && i == p.control.next {
        assert Serves(q, |p.workers|, i);
      }
    } else {
      var other: nat :| other != id && Serves(p, other, i);
      assert Serves(q, other, i);
    }
  }

  lemma {:induction false} LeftoverStays(p: Pool, moves: seq<Move>, id: nat)
    requires Inv(p) && Legal(p, moves) && Interleaved(moves)
    requires p.work && !p.stopped && Doubled(p, id)
    ensures Doubled(After(p, moves), id)
    decreases |moves|
  {
    if moves == [] {
    } else {
      assert moves[0] in moves;
      DoKeepsInv(p, moves[0]);
      DoKeepsDoubled(p, moves[0], id);
      LeftoverStays(Do(p, moves[0]), moves[1..], id);
    }
  }

  // Growing a pool of distinct workers, whatever interleaves: afterwards the workers are still distinct if
  // and only if, when the new target was stored, no worker was left over in the range that grew.
  lemma GrowthExactly(p: Pool, count: nat, moves: seq<Move>)
    requires Inv(p) && Distinct(p) && Enabled(p, Reload(count)) && p.target < count
    requires var r := Do(p, Reload(count)); Legal(r, moves) && Interleaved(moves) && After(r, moves).control.Idle?
    ensures Distinct(After(Do(p, Reload(count)), moves)) <==> NoneIn(p, p.target, count)
  {
    var r := Do(p, Reload(count));
    DoKeepsInv(p, Reload(count));
    if NoneIn(p, p.target, count) {
      CleanGrowth(r, moves);
    } else {
      var id :| 0 <= id < |p.workers| && Live(p, id) && p.target <= p.workers[id].index < count;
      LeftoverStays(r, moves, id);
      DoubledNotDistinct(After(r, moves), id);
    }
  }

  lemma DoubledNotDistinct(p: Pool, id: nat)
    requires Doubled(p, id) && p.control.Idle?
    ensures !Distinct(p)
  {
    var i := p.workers[id].index;
    var other: nat :| other != id && Serves(p, other, i);
    var a, b := if id < other then id else other, if id < other then other else id;
    assert Live(p, a) && Live(p, b);
  }

  // Shrinking to one thread and growing again at once leaves two workers with index 1.
  lemma QuickRegrowDoubles()
    ensures var moves := [Reload(2), CreateThread, CreateThread, Reload(1), Reload(2), CreateThread];
            Legal(START, moves) && !Distinct(After(START, moves))
  {
    var p := Pool(2, true, false, Idle, [Worker(0, Checking), Worker(1, Checking)]);
    BuildTwo();
    var q := p.(workers := p.workers + [Worker(1, Checking)]);
    var more := [Reload(1), Reload(2), CreateThread];
    assert more[1..] == [Reload(2), CreateThread] && more[1..][1..] == [CreateThread] && more[1..][1..][1..] == [];
    var p1 := p.(target := 1);
    assert Do(p, Reload(1)) == p1;
    var p2 := p.(control := Creating(1, 2));
    assert Do(p1, Reload(2)) == p2;
    assert Do(p2, CreateThread) == q;
    assert Legal(p2, [CreateThread]) && After(p2, [CreateThread]) == q;
    assert Legal(p1, more[1..]) && After(p1, more[1..]) == q;
    assert Legal(p, more) && After(p, more) == q;
    var first := [Reload(2), CreateThread, CreateThread];
    AfterConcat(START, first, more);
    assert first + more == [Reload(2), CreateThread, CreateThread, Reload(1), Reload(2), CreateThread];
    assert Live(q, 1) && Live(q, 2) && q.workers[1].index == q.workers[2].index;
  }

  lemma BuildTwo()
    ensures var first := [Reload(2), CreateThread, CreateThread];
            && Legal(START, first)
            && After(START, first) == Pool(2, true, false, Idle, [Worker(0, Checking), Worker(1, Checking)])
  {
    var first := [Reload(2), CreateThread, CreateThread];
    assert first[1..] == [CreateThread, CreateThread];
    assert first[1..][1..] == [CreateThread] && first[1..][1..][1..] == [];
    var a := Do(START, Reload(2));
    var b := Do(a, CreateThread);
    var c := Do(b, CreateThread);
    assert Legal(b, [CreateThread]) && After(b, [CreateThread]) == c;
    assert Legal(a, first[1..]) && After(a, first[1..]) == c;
  }

  lemma {:induction false} AfterConcat(p: Pool, moves: seq<Move>, more: seq<Move>)
    requires Legal(p, moves) && Legal(After(p, moves), more)
    ensures Legal(p, moves + more) && After(p, moves + more) == After(After(p, moves), more)
    decreases |moves|
  {
    if moves == [] {
      assert moves + more == more;
    } else {
      assert (moves + more)[1..] == moves[1..] + more;
      AfterConcat(Do(p, moves[0]), moves[1..], more);
    }
  }

  // Every grow finds the earlier shrinks drained.
  predicate DrainedGrows(p: Pool, moves: seq<Move>)
    requires Legal(p, moves)
    decreases |moves|
  {
    moves == [] ||
    ((moves[0].Reload? ==> NoneIn(p, p.target, moves[0].count)) && DrainedGrows(Do(p, moves[0]), moves[1..]))
  }

  lemma {:induction false} DrainedKeepsDistinct(p: Pool, moves: seq<Move>)
    requires Inv(p) && Legal(p, moves) && DrainedGrows(p, moves)
    requires Distinct(p) && (p.control.Creating? ==> NoneIn(p, p.control.next, p.control.until))
    ensures Distinct(After(p, moves))
    decreases |moves|
  {
    if moves == [] {
    } else {
      DoKeepsInv(p, moves[0]);
      if moves[0].Step? {
        StepKeepsWorkers(p, moves[0]);
      }
      DrainedKeepsDistinct(Do(p, moves[0]), moves[1..]);
    }
  }

  // With drained shrinks, outside `reload` and `stop` each index below the target has exactly one worker in
  // its loop.
  lemma ExactlyOnePerIndex(moves: seq<Move>, i: nat)
    requires Legal(START, moves) && DrainedGrows(START, moves)
    requires After(START, moves).control.Idle? && i < After(START, moves).target
    ensures var p := After(START, moves);
            exists id: nat :: Serves(p, id, i) && forall other: nat | Serves(p, other, i) :: other == id
  {
    RunKeepsInv(START, moves);
    DrainedKeepsDistinct(START, moves);
    var p := After(START, moves);
    assert Served(p, i);
    var id: nat :| Serves(p, id, i);
    forall other: nat | Serves(p, other, i) ensures other == id {
      assert Live(p, id) && Live(p, other);
    }
  }

  // ------------------------------------------------------------ shrinking

  predicate TargetAtMost(p: Pool, moves: seq<Move>, n: nat)
    requires Legal(p, moves)
    decreases |moves|
  {
    p.target <= n && (moves == [] || TargetAtMost(Do(p, moves[0]), moves[1..], n))
  }

  function Finishes(moves: seq<Move>, id: nat): nat {
    if moves == [] then 0 else (if moves[0] == Step(id, Finish) then 1 else 0) + Finishes(moves[1..], id)
  }

  // While the target stays at or below its index, a worker finishes at most one more run_one: the one it
  // was in.
  lemma {:induction false} AtMostOneMoreTask(p: Pool, moves: seq<Move>, n: nat, id: nat)
    requires Legal(p, moves) && TargetAtMost(p, moves, n)
    requires id < |p.workers| && n <= p.workers[id].index
    ensures Finishes(moves, id) <= if In(p, id, Running) then 1 else 0
    decreases |moves|
  {
    if moves == [] {
    } else {
      AtMostOneMoreTask(Do(p, moves[0]), moves[1..], n, id);
    }
  }

  function StepsOf(moves: seq<Move>, id: nat): nat {
    if moves == [] then 0 else (if moves[0].Step? && moves[0].id == id then 1 else 0) + StepsOf(moves[1..], id)
  }

  // It takes at most two more steps, and as long as it has not left it can take one: a shrunk pool drains.
  lemma {:induction false} ShrunkWorkerLeaves(p: Pool, moves: seq<Move>, n: nat, id: nat)
    requires Legal(p, moves) && TargetAtMost(p, moves, n)
    requires id < |p.workers| && n <= p.workers[id].index
    ensures var most := match p.workers[id].phase case Running => 2 case Checking => 1 case Exited => 0;
            StepsOf(moves, id) <= most && (StepsOf(moves, id) == most ==> In(After(p, moves), id, Exited))
    ensures id < |After(p, moves).workers|
    ensures !In(After(p, moves), id, Exited) ==>
              Enabled(After(p, moves), Step(id, Check)) || Enabled(After(p, moves), Step(id, Finish))
    decreases |moves|
  {
    if moves == [] {
    } else {
      ShrunkWorkerLeaves(Do(p, moves[0]), moves[1..], n, id);
    }
  }

  // ------------------------------------------------------------ stopping

  // Steps the workers can still take once the service is stopped and the target is 0.
  function StepsLeft(ws: seq<Worker>): nat {
    if ws == [] then 0 else
    (match ws[0].phase case Exited => 0 case Checking => 1 case Running => 2) + StepsLeft(ws[1..])
  }

  lemma {:induction false} StepsLeftUpdate(ws: seq<Worker>, id: nat, phase: Phase)
    requires id < |ws|
    ensures StepsLeft(ws[id := ws[id].(phase := phase)]) + StepsLeft([ws[id]])
         == StepsLeft(ws) + StepsLeft([ws[id].(phase := phase)])
  {
    var us := ws[id := ws[id].(phase := phase)];
    if id == 0 {
      assert us[1..] == ws[1..];
    } else {
      assert us[1..] == ws[1..][id - 1 := ws[id].(phase := phase)];
      StepsLeftUpdate(ws[1..], id - 1, phase);
    }
  }

  lemma StepDecreases(p: Pool, move: Move)
    requires p.target == 0 && move.Step? && Enabled(p, move)
    ensures StepsLeft(Do(p, move).workers) < StepsLeft(p.workers)
  {
    StepsLeftUpdate(p.workers, move.id, Do(p, move).workers[move.id].phase);
  }

  // Joining ends: at most StepsLeft worker steps are possible, and while any worker is left one of
  // them is.
  lemma {:induction false} JoinEnds(p: Pool, moves: seq<Move>)
    requires p.control.Joining? && Inv(p) && Legal(p, moves) && forall m <- moves :: m.Step?
    ensures |moves| <= StepsLeft(p.workers)
    ensures !Enabled(After(p, moves), Joined) ==> exists id: nat, act :: Enabled(After(p, moves), Step(id, act))
    decreases |moves|
  {
    if moves == [] {
      if !Enabled(p, Joined) {
        var id :| 0 <= id < |p.workers| && Live(p, id);
        assert Enabled(p, Step(id, if In(p, id, Checking) then Check else Leave));
      }
    } else {
      assert moves[0] in moves;
      DoKeepsInv(p, moves[0]);
      StepDecreases(p, moves[0]);
      JoinEnds(Do(p, moves[0]), moves[1..]);
    }
  }

  // After `stop` nothing is left, and the next start builds one worker per index from 0 on.
  lemma RestartIsClean(moves: seq<Move>, count: nat, more: seq<Move>)
    requires Legal(START, moves) && Enabled(After(START, moves), Joined) && 1 <= count <= MAX_THREADS
    requires var r := Do(Do(After(START, moves), Joined), Reload(count));
             Legal(r, more) && Interleaved(more) && After(r, more).control.Idle?
    ensures var p := Do(After(START, moves), Joined);
            && (forall id: nat :: !Live(p, id))
            && Do(p, Reload(count)).control == Creating(0, count)
            && var q := After(Do(p, Reload(count)), more);
               Distinct(q) && q.target == count && forall index: nat | index < count :: Served(q, index)
  {
    RunKeepsInv(START, moves);
    DoKeepsInv(After(START, moves), Joined);
    var p := Do(After(START, moves), Joined);
    GrowthExactly(p, count, more);
    DoKeepsInv(p, Reload(count));
    RunKeepsInv(Do(p, Reload(count)), more);
    InterleavedKeepsTarget(Do(p, Reload(count)), more);
  }

  lemma {:induction false} InterleavedKeepsTarget(p: Pool, moves: seq<Move>)
    requires Legal(p, moves) && Interleaved(moves)
    ensures After(p, moves).target == p.target
    decreases |moves|
  {
    if moves == [] {
    } else {
      assert moves[0] in moves;
      InterleavedKeepsTarget(Do(p, moves[0]), moves[1..]);
    }
  }
}
