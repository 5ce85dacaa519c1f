/** The server object: `start`, `reload`, `stop`, `get`, `construct` and `free` on its maps. */
module Server {
  import opened Wrappers
  import opened ConfigMerge
  import opened Registry

  // A configuration that was read: the merged list, the types found in the binaries it names with
  // their paths, and `core: logger:`.
  datatype Config = Config(entries: seq<Entry>, binaries: map<string, string>, logger: Option<string>)

  datatype Failure = UnreadableConfig | ChangedBinaries | AtEntry(at: nat) | NoLogger

  datatype Outcome = Done | Failed(why: Failure)

  // The logger in use: the one that delays, the built-in one, or an application.
  datatype Logger = Delayed | Builtin | Application(app: nat)

  lemma StopCallsAdd(s: State, names: set<string>, name: string, stops: seq<Call>)
    requires WellFormed(s) && names <= s.instances.Keys && name in s.instances && name !in names
    requires multiset(stops) == multiset(StopCalls(s.instances, names))
    ensures multiset(stops + [Stopped(s.instances[name])]) == multiset(StopCalls(s.instances, names + {name}))
  {
    var before, call := StopCalls(s.instances, names), Stopped(s.instances[name]);
    assert call !in before;
    assert StopCalls(s.instances, names + {name}) == before + {call};
    assert multiset(before + {call}) == multiset(before) + multiset{call};
  }

  class Server {
    var instances: map<string, nat>
    var appToPath: map<string, string>
    var log: Logger
    var constructed: seq<string> // the types of all application objects so far
    ghost var calls: seq<Call>
    const loggerTypes: set<string> // types whose objects are loggers

    constructor (loggerTypes: set<string>)
      ensures Valid() && View() == State(map[], [], [], map[]) && log == Delayed
      ensures this.loggerTypes == loggerTypes
    {
      instances, appToPath, log, constructed, calls := map[], map[], Delayed, [], [];
      this.loggerTypes := loggerTypes;
    }

    ghost function View(): State
      reads this
    {
      State(instances, constructed, calls, appToPath)
    }

    ghost predicate Valid()
      reads this
    {
      Separate(instances, |constructed|)
    }

    method Get(name: string) returns (r: Option<nat>)
      ensures r.Some? <==> name in instances
      ensures r.Some? ==> r.value == instances[name]
    {
      r := if name in instances then Some(instances[name]) else None;
    }

    // start_instance: constructs, starts, and only then looks for the name in the target map.
    method StartInstance(entry: Entry, bins: map<string, string>, target: map<string, nat>, threw: bool)
      returns (r: Option<map<string, nat>>)
      modifies this`constructed, this`calls
      ensures View() == if entry.typ in bins then Launched(old(View()), entry, threw) else old(View())
      ensures r == if entry.typ !in bins || threw || entry.Name() in target then None
                   else Some(target[entry.Name() := |old(constructed)|])
    {
      if entry.typ !in bins {
        return None;
      }
      var app := |constructed|;
      constructed := constructed + [entry.typ];
      calls := calls + [Started(app, instances.Keys, threw)];
      if threw || entry.Name() in target {
        return None;
      }
      return Some(target[entry.Name() := app]);
    }

    // The configured logger is registered and is one, or none is configured.
    predicate HasLogger(logger: Option<string>)
      requires Valid()
      reads this
    {
      logger.None? || (logger.value in instances && constructed[instances[logger.value]] in loggerTypes)
    }

    method InitLogger(logger: Option<string>) returns (r: Outcome)
      requires Valid()
      modifies this`log
      ensures r == if HasLogger(logger) then Done else Failed(NoLogger)
      ensures r == Done <==>
              logger.None? || (logger.value in instances && constructed[instances[logger.value]] in loggerTypes)
      ensures r == Done ==> log == if logger.None? then Builtin else Application(instances[logger.value])
      ensures r != Done ==> log == old(log)
    {
      if logger.None? {
        log := Builtin;
        return Done;
      }
      var app := Get(logger.value);
      if app.None? || constructed[app.value] !in loggerTypes {
        return Failed(NoLogger);
      }
      log := Application(app.value);
      return Done;
    }

    // The loop of `start`; returns the entry at which it threw.
    method StartEntries(entries: seq<Entry>, throws: set<nat>) returns (failed: Option<nat>)
      requires Valid()
      modifies this`instances, this`constructed, this`calls
      ensures Valid()
      ensures match StartAll(old(View()), entries, throws)
              case Stuck(t, at) => failed == Some(at) && View() == t
              case Going(t) => failed == None && View() == t
    {
      ghost var s0 := View();
      for i := 0 to |entries|
        invariant StartAll(s0, entries[..i], throws) == Going(View())
      {
        assert entries[..i + 1][..i] == entries[..i];
        var next := StartInstance(entries[i], appToPath, instances, i in throws);
        if next.None? {
          StartStops(s0, entries, throws, i + 1);
          StartLoop(s0, entries, throws);
          return Some(i);
        }
        instances := next.value;
      }
      assert entries[..|entries|] == entries;
      StartLoop(s0, entries, throws);
      return None;
    }

    method Start(config: Option<Config>, throws: set<nat>) returns (r: Outcome)
      requires Valid()
      modifies this
      ensures Valid()
      ensures config.None? ==> r == Failed(UnreadableConfig) && View() == old(View())
      ensures config.Some? ==>
                match StartAll(old(View()).(binaries := config.value.binaries + old(appToPath)),
                               config.value.entries, throws)
                case Stuck(t, at) => r == Failed(AtEntry(at)) && View() == t
                case Going(t) => View() == t && r == if HasLogger(config.value.logger) then Done else Failed(NoLogger)
      ensures config.Some? ==>
                appToPath.Keys == old(appToPath).Keys + config.value.binaries.Keys
                && forall typ <- appToPath ::
                     appToPath[typ] == if typ in old(appToPath) then old(appToPath)[typ] else config.value.binaries[typ]
      ensures LogAfter(r, config, old(log))
    {
      if config.None? {
        return Failed(UnreadableConfig);
      }
      appToPath := config.value.binaries + appToPath; // emplace keeps what is there
      var failed := StartEntries(config.value.entries, throws);
      if failed.Some? {
        return Failed(AtEntry(failed.value));
      }
      r := InitLogger(config.value.logger);
    }

    // What became of the log: the configured application of a logger type, the built-in one, or no change.
    predicate LogAfter(r: Outcome, config: Option<Config>, before: Logger)
      requires Valid()
      reads this
    {
      if r != Done || config.None? then log == before
      else if config.value.logger.None? then log == Builtin
      else
        var name := config.value.logger.value;
        name in instances && constructed[instances[name]] in loggerTypes && log == Application(instances[name])
    }

    // The stop calls of the instances, in whatever order the map is enumerated.
    method StopAll() returns (ghost stops: seq<Call>)
      requires Valid()
      modifies this`calls
      ensures calls == old(calls) + stops && StopsOf(instances, stops)
      ensures forall app: nat :: multiset(stops)[Stopped(app)] == if app in instances.Values then 1 else 0
    {
      stops := [];
      var left := instances.Keys;
      while left != {}
        invariant left <= instances.Keys && calls == old(calls) + stops
        invariant multiset(stops) == multiset(StopCalls(instances, instances.Keys - left))
      {
        var name :| name in left;
        StopCallsAdd(View(), instances.Keys - left, name, stops);
        assert instances.Keys - (left - {name}) == instances.Keys - left + {name};
        calls := calls + [Stopped(instances[name])];
        stops := stops + [Stopped(instances[name])];
        left := left - {name};
      }
      assert instances.Keys - left == instances.Keys;
      forall app: nat ensures multiset(stops)[Stopped(app)] == if app in instances.Values then 1 else 0 {
        StopsExactly(instances, stops, app);
      }
    }

    method Stop() returns (ghost stops: seq<Call>)
      requires Valid()
      modifies this
      ensures Valid() && log == old(log)
      ensures StopsOf(old(instances), stops)
      ensures forall app: nat :: multiset(stops)[Stopped(app)] == if app in old(instances).Values then 1 else 0
      ensures View() == State(map[], old(constructed), old(calls) + stops, map[])
    {
      stops := StopAll();
      instances, appToPath := map[], map[];
    }

    method Reload(config: Option<Config>, throws: set<nat>) returns (r: Outcome, ghost stops: seq<Call>)
      requires Valid()
      modifies this
      ensures Valid()
      ensures config.None? ==> r == Failed(UnreadableConfig) && View() == old(View())
      ensures config.Some? && old(appToPath) != map[] && config.value.binaries != old(appToPath) ==>
                r == Failed(ChangedBinaries) && View() == old(View())
      ensures config.Some? && (old(appToPath) == map[] || config.value.binaries == old(appToPath)) ==>
                match ReloadAll(old(View()), config.value.binaries, config.value.entries, throws)
                case Reloading(Stuck(t, at), _) => r == Failed(AtEntry(at)) && View() == t
                case Reloading(Going(t), renewed) =>
                  && r == (if HasLogger(config.value.logger) then Done else Failed(NoLogger))
                  && StopsOf(t.instances, stops)
                  && View() == Swapped(t, renewed, config.value.binaries, stops)
                  && appToPath == config.value.binaries
      ensures LogAfter(r, config, old(log))
    {
      stops := [];
      if config.None? {
        return Failed(UnreadableConfig), [];
      }
      var bins := config.value.binaries;
      if appToPath != map[] && bins != appToPath {
        return Failed(ChangedBinaries), [];
      }
      var failed;
      failed, stops := ReloadWith(config.value.entries, bins, throws);
      if failed.Some? {
        return Failed(AtEntry(failed.value)), [];
      }
      r := InitLogger(config.value.logger);
    }

    // The loops of `reload`, and the swaps.
    method ReloadWith(entries: seq<Entry>, bins: map<string, string>, throws: set<nat>)
      returns (failed: Option<nat>, ghost stops: seq<Call>)
      requires Valid()
      modifies this`instances, this`constructed, this`calls, this`appToPath
      ensures Valid()
      ensures match ReloadAll(old(View()), bins, entries, throws)
              case Reloading(Stuck(t, at), _) => failed == Some(at) && View() == t
              case Reloading(Going(t), renewed) =>
                failed == None && StopsOf(t.instances, stops) && View() == Swapped(t, renewed, bins, stops)
    {
      ReloadKeepsSeparate(View(), bins, entries, throws);
      stops := [];
      var newInstances;
      failed, newInstances := ReloadEntries(entries, bins, throws);
      if failed.None? {
        stops := StopAll();
        instances, appToPath := newInstances, bins;
      }
    }

    // The loop of `reload`; returns the entry at which it threw, and the new map.
    method ReloadEntries(entries: seq<Entry>, bins: map<string, string>, throws: set<nat>)
      returns (failed: Option<nat>, newInstances: map<string, nat>)
      requires Valid()
      modifies this`instances, this`constructed, this`calls
      ensures Valid()
      ensures match ReloadAll(old(View()), bins, entries, throws)
              case Reloading(Stuck(t, at), _) => failed == Some(at) && View() == t
              case Reloading(Going(t), renewed) => failed == None && View() == t && newInstances == renewed
    {
      ghost var s0 := View();
      newInstances := map[];
      ReloadKeepsSeparate(s0, bins, entries, throws);
      for i := 0 to |entries|
        invariant ReloadAll(s0, bins, entries[..i], throws) == Reloading(Going(View()), newInstances)
      {
        assert entries[..i + 1][..i] == entries[..i];
        var next := ReloadStep(entries[i], bins, newInstances, i in throws, i);
        if next.None? {
          ReloadStops(s0, bins, entries, throws, i + 1);
          return Some(i), newInstances;
        }
        newInstances := next.value;
      }
      assert entries[..|entries|] == entries;
      return None, newInstances;
    }

    // The body of the reload loop.
    method ReloadStep(entry: Entry, bins: map<string, string>, newInstances: map<string, nat>, threw: bool,
                      ghost at: nat)
      returns (r: Option<map<string, nat>>)
      modifies this`instances, this`constructed, this`calls
      ensures match ReloadEntry(old(View()), newInstances, bins, entry, threw, at)
              case Reloading(Stuck(t, _), _) => r == None && View() == t
              case Reloading(Going(t), renewed) => r == Some(renewed) && View() == t
    {
      var found := Get(entry.Name());
      if found.None? {
        r := StartInstance(entry, bins, newInstances, threw);
        if r.Some? {
          instances := instances[entry.Name() := r.value[entry.Name()]];
        }
      } else {
        calls := calls + [Reloaded(found.value, instances.Keys, threw)];
        if threw {
          return None;
        }
        r := Some(if entry.Name() in newInstances then newInstances else newInstances[entry.Name() := found.value]);
      }
    }

    // app::construct, with the parsed configuration of one instance.
    method Construct(entry: Entry, threw: bool) returns (app: Option<nat>)
      requires Valid()
      modifies this
      ensures Valid()
      ensures match StartEntry(old(View()), entry, threw, 0)
              case Stuck(t, _) => app == None && View() == t
              case Going(t) => View() == t && app == Some(t.instances[entry.Name()])
    {
      var next := StartInstance(entry, appToPath, instances, threw);
      if next.None? {
        return None;
      }
      instances := next.value;
      app := Some(instances[entry.Name()]);
    }

    // app::free: the entry goes, without a stop.
    method Free(name: string)
      requires Valid()
      modifies this`instances
      ensures Valid() && instances == old(instances) - {name} && View().calls == old(calls)
    {
      instances := instances - {name};
    }
  }

  lemma {:induction false} StartStops(s: State, entries: seq<Entry>, throws: set<nat>, i: nat)
    requires i <= |entries| && StartAll(s, entries[..i], throws).Stuck?
    ensures StartAll(s, entries, throws) == StartAll(s, entries[..i], throws)
    decreases |entries|
  {
    if i < |entries| {
      assert entries[..|entries| - 1][..i] == entries[..i];
      StartStops(s, entries[..|entries| - 1], throws, i);
    } else {
      assert entries[..i] == entries;
    }
  }

  lemma {:induction false} ReloadStops(s: State, bins: map<string, string>, entries: seq<Entry>,
                                       throws: set<nat>, i: nat)
    requires i <= |entries| && ReloadAll(s, bins, entries[..i], throws).p.Stuck?
    ensures ReloadAll(s, bins, entries, throws) == ReloadAll(s, bins, entries[..i], throws)
    decreases |entries|
  {
    if i < |entries| {
      assert entries[..|entries| - 1][..i] == entries[..i];
      ReloadStops(s, bins, entries[..|entries| - 1], throws, i);
    } else {
      assert entries[..i] == entries;
    }
  }
}
