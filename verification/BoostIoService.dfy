/** The io service application: `reload` and `stop` as they run, with other threads taking any number of
    steps between any two of the controller's. */
module BoostIoService {
  import opened WorkerPool

  function Max(a: int, b: int): (m: int)
    ensures a <= m && b <= m && (m == a || m == b)
  {
    if a < b then b else a
  }

  function Creations(n: nat): (moves: seq<Move>)
    ensures |moves| == n
  {
    seq(n, _ => CreateThread)
  }

  class IoService {
    var requiredThreads: nat // required_threads_count_
    var work: bool
    var stopped: bool
    var threads: seq<Worker> // threads_
    ghost var control: Control // where the controller is
    ghost var trace: seq<Move> // everything that happened

    ghost function View(): Pool
      reads this
    {
      Pool(requiredThreads, work, stopped, control, threads)
    }

    ghost predicate Valid()
      reads this
    {
      Legal(START, trace) && After(START, trace) == View() && Inv(View())
    }

    constructor ()
      ensures Valid() && View() == START && trace == []
    {
      requiredThreads, work, stopped, threads := 0, false, false, [];
      control, trace := Idle, [];
    }

    // Appends a move the fields have just made.
    ghost method Record(move: Move, before: Pool)
      requires Legal(START, trace) && After(START, trace) == before && Inv(before)
      requires Enabled(before, move) && View() == Do(before, move)
      modifies this`trace
      ensures Valid() && trace == old(trace) + [move]
      ensures Calls(trace) == Calls(old(trace)) + if move.Step? then [] else [move]
    {
      AfterSnoc(START, trace, move);
      DoKeepsInv(before, move);
      trace := trace + [move];
    }

    // One iteration step of `run`: the comparison, or the return of run_one, which returns 0 at
    // its own choice when the service is stopped or has no work.
    method RunStep(id: nat, nothingToRun: bool)
      requires Valid() && Live(View(), id)
      modifies this`threads, this`trace
      ensures Valid() && old(trace) < trace
      ensures Calls(trace) == Calls(old(trace))
      ensures |threads| == |old(threads)|
      ensures forall j: nat | j != id :: Live(View(), j) ==> old(Live(View(), j))
      ensures var was := old(threads)[id];
              var phase := if was.phase.Checking? then (if requiredThreads > was.index then Running else Exited)
                           else if nothingToRun && (stopped || !work) then Exited else Checking;
              threads == old(threads)[id := Worker(was.index, phase)]
      ensures requiredThreads == 0 ==> StepsLeft(threads) < StepsLeft(old(threads))
    {
      ghost var before := View();
      var worker := threads[id];
      if worker.phase.Checking? {
        threads := threads[id := worker.(phase := if requiredThreads > worker.index then Running else Exited)];
        Record(Step(id, Check), before);
      } else if nothingToRun && (stopped || !work) {
        threads := threads[id := worker.(phase := Exited)];
        Record(Step(id, Leave), before);
      } else {
        threads := threads[id := worker.(phase := Checking)];
        Record(Step(id, Finish), before);
      }
      StepsLeftUpdate(before.workers, id, threads[id].phase);
    }

    // Any other threads, for any number of steps.
    method OthersRun()
      requires Valid()
      modifies this`threads, this`trace
      ensures Valid() && old(trace) <= trace && |threads| == |old(threads)|
      ensures Calls(trace) == Calls(old(trace))
    {
      var steps: nat :| true;
      for i := 0 to steps
        invariant Valid() && old(trace) <= trace && |threads| == |old(threads)|
        invariant Calls(trace) == Calls(old(trace))
      {
        var id: nat :| true;
        var nothingToRun := *;
        if id < |threads| && !threads[id].phase.Exited? {
          RunStep(id, nothingToRun);
        }
      }
    }

    // Between two stores of the controller.
    method Continue(ghost move: Move, ghost before: Pool)
      requires Legal(START, trace) && After(START, trace) == before && Inv(before)
      requires !move.Step? && Enabled(before, move) && View() == Do(before, move)
      modifies this`threads, this`trace
      ensures Valid() && old(trace) < trace && |threads| == |old(threads)|
      ensures Calls(trace) == Calls(old(trace)) + [move]
    {
      Record(move, before);
      OthersRun();
    }

    // When it returns, every index below the new count is served; when the logger lookup throws, nothing
    // but the work has changed.
    method Reload(configured: nat, hardware: nat, loggerFound: bool) returns (ok: bool)
      requires Valid() && control.Idle?
      modifies this
      ensures Valid() && control.Idle? && old(trace) < trace && work
      ensures ok == loggerFound
      ensures !ok ==> View() == old(View()).(work := true)
      ensures ok ==> requiredThreads == ThreadsCount(configured, hardware)
      ensures ok ==> forall i: nat | i < requiredThreads :: Served(View(), i)
      ensures ok ==> |threads| == |old(threads)| + Max(0, requiredThreads - old(requiredThreads))
      ensures Calls(trace) == Calls(old(trace)) +
                              if ok
                              then [WorkerPool.Reload(requiredThreads)]
                                   + Creations(Max(0, requiredThreads - old(requiredThreads)))
                              else [FailReload]
    {
      ghost var before := View();
      var countOld := requiredThreads;
      var countNew := ThreadsCount(configured, hardware);
      work := true;
      if !loggerFound {
        Record(FailReload, before);
        return false;
      }
      requiredThreads := countNew;
      control := if countOld < countNew then Creating(countOld, countNew) else Idle;
      Continue(WorkerPool.Reload(countNew), before);
      CreateThreads(countOld, countNew);
      return true;
    }

    // The creation loop of `reload`; with a smaller count it does nothing.
    method CreateThreads(countOld: nat, countNew: nat)
      requires Valid() && control == if countOld < countNew then Creating(countOld, countNew) else Idle
      modifies this`threads, this`control, this`trace
      ensures Valid() && control.Idle? && old(trace) <= trace
      ensures |threads| == |old(threads)| + Max(0, countNew - countOld)
      ensures Calls(trace) == Calls(old(trace)) + Creations(Max(0, countNew - countOld))
    {
      var i := countOld;
      while i < countNew
        invariant Valid() && old(trace) <= trace
        invariant if countOld < countNew then countOld <= i <= countNew else i == countOld
        invariant control == if i < countNew then Creating(i, countNew) else Idle
        invariant |threads| == |old(threads)| + i - countOld
        invariant Calls(trace) == Calls(old(trace)) + Creations(i - countOld)
      {
        ghost var before := View();
        threads := threads + [Worker(i, Checking)];
        i := i + 1;
        control := if i < countNew then Creating(i, countNew) else Idle;
        Continue(CreateThread, before);
      }
    }

    // It returns, and then no worker is left.
    method Stop()
      requires Valid() && control.Idle?
      modifies this
      ensures Valid() && control.Idle? && old(trace) < trace
      ensures requiredThreads == 0 && !work && !stopped
      ensures |threads| == |old(threads)| && forall id: nat :: !Live(View(), id)
      ensures Calls(trace) == Calls(old(trace)) + [ReleaseWork, ZeroTarget, StopService, Joined]
    {
      BeginStop();
      JoinAll();
      ghost var before := View();
      stopped, control := false, Idle;
      Record(Joined, before);
    }

    // The stores of `stop`, up to the join.
    method BeginStop()
      requires Valid() && control.Idle?
      modifies this
      ensures Valid() && control.Joining? && old(trace) < trace
      ensures requiredThreads == 0 && !work && stopped && |threads| == |old(threads)|
      ensures Calls(trace) == Calls(old(trace)) + [ReleaseWork, ZeroTarget, StopService]
    {
      ReleaseTheWork();
      ZeroTheTarget();
      ghost var before := View();
      stopped, control := true, WorkerPool.Joining;
      Record(StopService, before);
    }

    method ReleaseTheWork()
      requires Valid() && control.Idle?
      modifies this`work, this`control, this`threads, this`trace
      ensures Valid() && control == WorkReleased && !work && old(trace) < trace && |threads| == |old(threads)|
      ensures Calls(trace) == Calls(old(trace)) + [ReleaseWork]
    {
      ghost var before := View();
      work, control := false, WorkReleased;
      Continue(ReleaseWork, before);
    }

    method ZeroTheTarget()
      requires Valid() && control == WorkReleased
      modifies this`requiredThreads, this`control, this`threads, this`trace
      ensures Valid() && control == TargetZeroed && requiredThreads == 0 && old(trace) < trace
      ensures |threads| == |old(threads)|
      ensures Calls(trace) == Calls(old(trace)) + [ZeroTarget]
    {
      ghost var before := View();
      requiredThreads, control := 0, TargetZeroed;
      Continue(ZeroTarget, before);
    }

    // threads_.join_all(), one thread after the other.  Until the one waited for has left, any of them takes
    // any of its steps: a handler in flight may finish, or run_one may return 0.
    method JoinAll()
      requires Valid() && control.Joining?
      modifies this`threads, this`trace
      ensures Valid() && old(trace) <= trace && |threads| == |old(threads)|
      ensures Calls(trace) == Calls(old(trace))
      ensures forall id: nat :: !Live(View(), id)
    {
      var id := 0;
      while id < |threads|
        invariant Valid() && old(trace) <= trace && |threads| == |old(threads)|
        invariant Calls(trace) == Calls(old(trace))
        invariant 0 <= id <= |threads| && forall j: nat | j < id :: !Live(View(), j)
        decreases |threads| - id, StepsLeft(threads)
      {
        if threads[id].phase.Exited? {
          id := id + 1;
        } else {
          var other: nat :| other < |threads| && !threads[other].phase.Exited?;
          var nothingToRun := *;
          RunStep(other, nothingToRun);
        }
      }
    }
  }
}
