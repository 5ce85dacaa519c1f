/** The application registry of the server, on values: starting, reloading and stopping instances.
    An application object is the number of its construction; what it does when called is up to it. */
module Registry {
  import opened Wrappers
  import opened ConfigMerge

  // A call of an application object, with the instance names `get` finds during the call.
  datatype Call =
    | Started(app: nat, visible: set<string>, threw: bool)
    | Reloaded(app: nat, visible: set<string>, threw: bool)
    | Stopped(app: nat)

  datatype State = State(
    instances: map<string, nat>, // instances_
    types: seq<string>, // the type of every object ever constructed
    calls: seq<Call>, // every call of an object, in order
    binaries: map<string, string> // app_to_path_
  )

  // ------------------------------------------------------------ starting

  // The state when a loop over the configuration has reached its end, or an exception: `at` is the entry.
  datatype Progress = Going(s: State) | Stuck(s: State, at: nat)

  // Constructs the object and calls its start; the registry is not touched yet.
  function Launched(s: State, entry: Entry, threw: bool): State {
    s.(types := s.types + [entry.typ], calls := s.calls + [Started(|s.types|, s.instances.Keys, threw)])
  }

  // Also registers the object under the entry's name.
  function WithInstance(s: State, entry: Entry): State {
    Launched(s, entry, false).(instances := s.instances[entry.Name() := |s.types|])
  }

  // start_instance with the registry itself as the target.  The name is compared only after the
  // application was started.
  function StartEntry(s: State, entry: Entry, threw: bool, at: nat): Progress {
    if entry.typ !in s.binaries then Stuck(s, at)
    else
      var t := Launched(s, entry, threw);
      if threw || entry.Name() in s.instances then Stuck(t, at)
      else Going(WithInstance(s, entry))
  }

  // The entries in order; `throws` are the positions at which the application's own code throws.
  function StartAll(s: State, entries: seq<Entry>, throws: set<nat>): Progress {
    if entries == [] then Going(s) else
    var k := |entries| - 1;
    match StartAll(s, entries[..k], throws)
    case Stuck(t, at) => Stuck(t, at)
    case Going(t) => StartEntry(t, entries[k], k in throws, k)
  }

  // ------------------------------------------------------------ reloading

  datatype Reloading = Reloading(p: Progress, renewed: map<string, nat>)

  // One entry of the reload loop: a new name is started into the new map and then registered, a
  // known one is reloaded.
  function ReloadEntry(s: State, renewed: map<string, nat>, bins: map<string, string>, entry: Entry,
                       threw: bool, at: nat): Reloading {
    if entry.Name() !in s.instances then
      if entry.typ !in bins then Reloading(Stuck(s, at), renewed)
      else
        var t := Launched(s, entry, threw);
        if threw || entry.Name() in renewed then Reloading(Stuck(t, at), renewed)
        else
          Reloading(Going(WithInstance(s, entry)), renewed[entry.Name() := |s.types|])
    else
      var app := s.instances[entry.Name()];
      var t := s.(calls := s.calls + [Reloaded(app, s.instances.Keys, threw)]);
      if threw then Reloading(Stuck(t, at), renewed)
      else Reloading(Going(t), if entry.Name() in renewed then renewed else renewed[entry.Name() := app])
  }

  function ReloadAll(s: State, bins: map<string, string>, entries: seq<Entry>, throws: set<nat>): Reloading {
    if entries == [] then Reloading(Going(s), map[]) else
    var k := |entries| - 1;
    match ReloadAll(s, bins, entries[..k], throws)
    case Reloading(Stuck(t, at), renewed) => Reloading(Stuck(t, at), renewed)
    case Reloading(Going(t), renewed) => ReloadEntry(t, renewed, bins, entries[k], k in throws, k)
  }

  // ------------------------------------------------------------ names and types

  function Names(entries: seq<Entry>): set<string> {
    set e <- entries :: e.Name()
  }

  predicate DistinctNames(entries: seq<Entry>) {
    forall i, j | 0 <= i < j < |entries| :: entries[i].Name() != entries[j].Name()
  }

  // The type of the first entry with the name.
  function FirstType(entries: seq<Entry>, name: string): string
    requires name in Names(entries)
  {
    var init, last := entries[..|entries| - 1], entries[|entries| - 1];
    assert forall e <- entries :: e in init || e == last;
    if name in Names(init) then FirstType(init, name) else last.typ
  }

  // Different names are different objects, all of them constructed.
  predicate Separate(instances: map<string, nat>, count: nat) {
    && (forall n <- instances :: instances[n] < count)
    && (forall m, n | m in instances && n in instances && m != n :: instances[m] != instances[n])
  }

  predicate WellFormed(s: State) {
    Separate(s.instances, |s.types|)
  }

  function TypeOf(s: State, name: string): string
    requires WellFormed(s) && name in s.instances
  {
    s.types[s.instances[name]]
  }

  lemma NamesSnoc(entries: seq<Entry>, k: nat)
    requires k < |entries|
    ensures Names(entries[..k + 1]) == Names(entries[..k]) + {entries[k].Name()}
  {
    assert entries[..k + 1] == entries[..k] + [entries[k]];
  }

  // ------------------------------------------------------------ what the reload loop does

  // After the entries with the given names: what was registered is kept, with the same objects, and what is
  // new has new objects.
  predicate Kept(s0: State, names: set<string>, t: State) {
    && WellFormed(t) && s0.types <= t.types && t.binaries == s0.binaries
    && t.instances.Keys == s0.instances.Keys + names
    && (forall n <- s0.instances :: t.instances[n] == s0.instances[n])
    && (forall n <- t.instances :: n in s0.instances || t.instances[n] >= |s0.types|)
  }

  // In a reload, moreover, the new map is the part of the registry with those names.
  predicate Carried(s0: State, names: set<string>, t: State, renewed: map<string, nat>) {
    && Kept(s0, names, t)
    && renewed.Keys == names
    && (forall n <- renewed :: renewed[n] == t.instances[n])
  }

  lemma NewEntryKeeps(s0: State, names: set<string>, s: State, entry: Entry)
    requires Kept(s0, names, s) && entry.Name() !in s.instances
    ensures Kept(s0, names + {entry.Name()}, WithInstance(s, entry))
  {
  }

  lemma NewEntryCarries(s0: State, names: set<string>, s: State, renewed: map<string, nat>, entry: Entry)
    requires Carried(s0, names, s, renewed) && entry.Name() !in s.instances
    ensures Carried(s0, names + {entry.Name()}, WithInstance(s, entry), renewed[entry.Name() := |s.types|])
  {
    NewEntryKeeps(s0, names, s, entry);
  }

  lemma KnownEntryCarries(s0: State, names: set<string>, s: State, renewed: map<string, nat>, name: string,
                          calls: seq<Call>)
    requires Carried(s0, names, s, renewed) && name in s.instances
    ensures Carried(s0, names + {name}, s.(calls := calls),
                    if name in renewed then renewed else renewed[name := s.instances[name]])
  {
  }

  lemma ReloadEntryCarries(s0: State, names: set<string>, s: State, renewed: map<string, nat>,
                           bins: map<string, string>, entry: Entry, threw: bool, at: nat)
    requires Carried(s0, names, s, renewed)
    ensures var r := ReloadEntry(s, renewed, bins, entry, threw, at);
            && (r.p.Going? ==> Carried(s0, names + {entry.Name()}, r.p.s, r.renewed))
            && (r.p.Stuck? ==> r.p.at == at && Carried(s0, names, r.p.s, r.renewed))
            && (r.p.Going? <==> !threw && (entry.Name() in s.instances || entry.typ in bins))
  {
    if entry.Name() in s.instances {
      var call := Reloaded(s.instances[entry.Name()], s.instances.Keys, threw);
      KnownEntryCarries(s0, names, s, renewed, entry.Name(), s.calls + [call]);
    } else {
      NewEntryCarries(s0, names, s, renewed, entry);
    }
  }

  // Whether every entry gets through: its application does not throw, and a name not seen before has a
  // known type.
  predicate AllReload(s: State, bins: map<string, string>, entries: seq<Entry>, throws: set<nat>) {
    entries == [] ||
    var k := |entries| - 1;
    AllReload(s, bins, entries[..k], throws) && k !in throws &&
    (entries[k].Name() in s.instances.Keys + Names(entries[..k]) || entries[k].typ in bins)
  }

  // The reload loop succeeds exactly when every entry gets through: the "already exist" error cannot fire.
  // When it stops at an entry, the registry is what the entries before it made of it.
  lemma {:induction false} ReloadLoop(s: State, bins: map<string, string>, entries: seq<Entry>, throws: set<nat>)
    requires WellFormed(s)
    ensures var r := ReloadAll(s, bins, entries, throws);
            && (r.p.Going? ==> Carried(s, Names(entries), r.p.s, r.renewed))
            && (r.p.Stuck? ==> r.p.at < |entries| && Carried(s, Names(entries[..r.p.at]), r.p.s, r.renewed))
            && (r.p.Going? <==> AllReload(s, bins, entries, throws))
  {
    if entries == [] {
    } else {
      var k := |entries| - 1;
      var init := entries[..k];
      ReloadLoop(s, bins, init, throws);
      NamesSnoc(entries, k);
      assert entries[..k + 1] == entries;
      var r := ReloadAll(s, bins, init, throws);
      if r.p.Going? {
        ReloadEntryCarries(s, Names(init), r.p.s, r.renewed, bins, entries[k], k in throws, k);
      } else {
        assert init[..r.p.at] == entries[..r.p.at];
      }
    }
  }

  lemma ReloadKeepsSeparate(s: State, bins: map<string, string>, entries: seq<Entry>, throws: set<nat>)
    requires WellFormed(s)
    ensures var r := ReloadAll(s, bins, entries, throws);
            WellFormed(r.p.s) && (r.p.Going? ==> Separate(r.renewed, |r.p.s.types|))
  {
    ReloadLoop(s, bins, entries, throws);
  }

  // New instances have the type of the first entry with their name, whatever repeats it later.
  lemma {:induction false} ReloadTypes(s: State, bins: map<string, string>, entries: seq<Entry>,
                                       throws: set<nat>, name: string)
    requires WellFormed(s) && ReloadAll(s, bins, entries, throws).p.Going?
    requires name in Names(entries) && name !in s.instances
    ensures var t := ReloadAll(s, bins, entries, throws).p.s;
            WellFormed(t) && name in t.instances && TypeOf(t, name) == FirstType(entries, name)
  {
    var k := |entries| - 1;
    var init := entries[..k];
    assert entries[..k + 1] == entries;
    NamesSnoc(entries, k);
    ReloadLoop(s, bins, init, throws);
    ReloadLoop(s, bins, entries, throws);
    if name in Names(init) {
      ReloadTypes(s, bins, init, throws, name);
    }
  }

  // Call number `at` is made for the entry with the name, to the object registered under it: a start for a
  // name not seen before, a reload otherwise.
  predicate CallAt(t: State, at: nat, name: string, visible: set<string>) {
    && at < |t.calls| && name in t.instances
    && t.calls[at] == if name in visible then Reloaded(t.instances[name], visible, false)
                      else Started(t.instances[name], visible, false)
  }

  lemma ReloadEntryCalls(s: State, renewed: map<string, nat>, bins: map<string, string>, entry: Entry,
                         threw: bool, at: nat)
    requires ReloadEntry(s, renewed, bins, entry, threw, at).p.Going?
    ensures var t := ReloadEntry(s, renewed, bins, entry, threw, at).p.s;
            && entry.Name() in t.instances
            && t.calls == s.calls + [if entry.Name() in s.instances
                                     then Reloaded(t.instances[entry.Name()], s.instances.Keys, false)
                                     else Started(t.instances[entry.Name()], s.instances.Keys, false)]
            && (forall n <- s.instances :: n in t.instances && t.instances[n] == s.instances[n])
  {
  }

  // Nothing that was called or registered is taken back.
  predicate Grown(s: State, t: State) {
    && s.calls <= t.calls
    && forall n <- s.instances :: n in t.instances && t.instances[n] == s.instances[n]
  }

  lemma {:induction false} ReloadGrows(s: State, bins: map<string, string>, entries: seq<Entry>,
                                       throws: set<nat>, j: nat)
    requires ReloadAll(s, bins, entries, throws).p.Going? && j <= |entries|
    ensures ReloadAll(s, bins, entries[..j], throws).p.Going?
    ensures Grown(ReloadAll(s, bins, entries[..j], throws).p.s, ReloadAll(s, bins, entries, throws).p.s)
    decreases |entries|
  {
    if j == |entries| {
      assert entries[..j] == entries;
    } else {
      var k := |entries| - 1;
      var r := ReloadAll(s, bins, entries[..k], throws);
      ReloadEntryCalls(r.p.s, r.renewed, bins, entries[k], k in throws, k);
      assert entries[..k][..j] == entries[..j];
      ReloadGrows(s, bins, entries[..k], throws, j);
    }
  }

  lemma {:induction false} ReloadCallCount(s: State, bins: map<string, string>, entries: seq<Entry>, throws: set<nat>)
    requires ReloadAll(s, bins, entries, throws).p.Going?
    ensures |ReloadAll(s, bins, entries, throws).p.s.calls| == |s.calls| + |entries|
    decreases |entries|
  {
    if entries == [] {
    } else {
      var k := |entries| - 1;
      ReloadCallCount(s, bins, entries[..k], throws);
      var r := ReloadAll(s, bins, entries[..k], throws);
      ReloadEntryCalls(r.p.s, r.renewed, bins, entries[k], k in throws, k);
    }
  }

  lemma ReloadLastCall(s: State, bins: map<string, string>, entries: seq<Entry>, throws: set<nat>)
    requires WellFormed(s) && entries != [] && ReloadAll(s, bins, entries, throws).p.Going?
    ensures var k := |entries| - 1;
            CallAt(ReloadAll(s, bins, entries, throws).p.s, |s.calls| + k, entries[k].Name(),
                   s.instances.Keys + Names(entries[..k]))
  {
    var k := |entries| - 1;
    var r := ReloadAll(s, bins, entries[..k], throws);
    ReloadLoop(s, bins, entries[..k], throws);
    ReloadCallCount(s, bins, entries[..k], throws);
    ReloadEntryCalls(r.p.s, r.renewed, bins, entries[k], k in throws, k);
    assert r.p.s.instances.Keys == s.instances.Keys + Names(entries[..k]);
  }

  lemma CallKept(mid: State, t: State, at: nat, name: string, visible: set<string>)
    requires CallAt(mid, at, name, visible) && Grown(mid, t)
    ensures CallAt(t, at, name, visible)
  {
  }

  lemma ReloadCallsOfAll(s: State, bins: map<string, string>, entries: seq<Entry>, throws: set<nat>, i: nat)
    requires WellFormed(s) && ReloadAll(s, bins, entries, throws).p.Going? && i < |entries|
    ensures CallAt(ReloadAll(s, bins, entries, throws).p.s, |s.calls| + i, entries[i].Name(),
                   s.instances.Keys + Names(entries[..i]))
  {
    var upTo := entries[..i + 1];
    assert upTo[..i] == entries[..i];
    ReloadGrows(s, bins, entries, throws, i + 1);
    ReloadLastCall(s, bins, upTo, throws);
    CallKept(ReloadAll(s, bins, upTo, throws).p.s, ReloadAll(s, bins, entries, throws).p.s,
             |s.calls| + i, entries[i].Name(), s.instances.Keys + Names(entries[..i]));
  }

  // A loop that stops got through the entries before.
  lemma {:induction false} ReloadStopsAt(s: State, bins: map<string, string>, entries: seq<Entry>, throws: set<nat>)
    requires ReloadAll(s, bins, entries, throws).p.Stuck?
    ensures var r := ReloadAll(s, bins, entries, throws);
            var at := r.p.at;
            && at < |entries|
            && var before := ReloadAll(s, bins, entries[..at], throws);
            && before.p.Going?
            && r == ReloadEntry(before.p.s, before.renewed, bins, entries[at], at in throws, at)
  {
    var k := |entries| - 1;
    if ReloadAll(s, bins, entries[..k], throws).p.Stuck? {
      ReloadStopsAt(s, bins, entries[..k], throws);
      var at := ReloadAll(s, bins, entries[..k], throws).p.at;
      assert entries[..k][..at] == entries[..at];
    }
  }

  // The number of entries a loop got through.
  function Reached(p: Progress, entries: seq<Entry>): nat {
    if p.Going? then |entries| else p.at
  }

  // Entry by entry up to where the loop stops, one call, during which `get` finds every instance
  // registered before and every entry before this one.
  lemma ReloadCalls(s: State, bins: map<string, string>, entries: seq<Entry>, throws: set<nat>, i: nat)
    requires WellFormed(s) && i < Reached(ReloadAll(s, bins, entries, throws).p, entries)
    ensures i < |entries|
    ensures CallAt(ReloadAll(s, bins, entries, throws).p.s, |s.calls| + i, entries[i].Name(),
                   s.instances.Keys + Names(entries[..i]))
  {
    var r := ReloadAll(s, bins, entries, throws);
    if r.p.Going? {
      ReloadCallsOfAll(s, bins, entries, throws, i);
    } else {
      ReloadStopsAt(s, bins, entries, throws);
      var before := entries[..r.p.at];
      assert before[..i] == entries[..i];
      ReloadCallsOfAll(s, bins, before, throws, i);
      CallKept(ReloadAll(s, bins, before, throws).p.s, r.p.s,
               |s.calls| + i, entries[i].Name(), s.instances.Keys + Names(entries[..i]));
    }
  }

  // The entry at which the loop stops: an unknown type of a new name, without a call; or one more call,
  // which throws, and during which `get` finds the same.
  lemma ReloadStopCall(s: State, bins: map<string, string>, entries: seq<Entry>, throws: set<nat>)
    requires WellFormed(s) && ReloadAll(s, bins, entries, throws).p.Stuck?
    ensures var r := ReloadAll(s, bins, entries, throws);
            var t, at := r.p.s, r.p.at;
            && at < |entries|
            && var name, visible := entries[at].Name(), s.instances.Keys + Names(entries[..at]);
            && t.instances.Keys == visible
            && (name !in visible && entries[at].typ !in bins ==> |t.calls| == |s.calls| + at)
            && (name in visible || entries[at].typ in bins ==>
                  && at in throws && |t.calls| == |s.calls| + at + 1
                  && (name in visible ==> t.calls[|s.calls| + at] == Reloaded(t.instances[name], visible, true))
                  && (name !in visible ==>
                        && t.types != [] && t.types[|t.types| - 1] == entries[at].typ
                        && t.calls[|s.calls| + at] == Started(|t.types| - 1, visible, true)))
  {
    ReloadStopsAt(s, bins, entries, throws);
    var at := ReloadAll(s, bins, entries, throws).p.at;
    var before := ReloadAll(s, bins, entries[..at], throws);
    ReloadLoop(s, bins, entries[..at], throws);
    ReloadCallCount(s, bins, entries[..at], throws);
    assert before.p.s.instances.Keys == s.instances.Keys + Names(entries[..at]);
  }

  // ------------------------------------------------------------ the end of a reload

  function StopCalls(instances: map<string, nat>, names: set<string>): set<Call>
    requires names <= instances.Keys
  {
    set n <- names :: Stopped(instances[n])
  }

  // One stop for each registered object; the map is enumerated in any order.
  ghost predicate StopsOf(instances: map<string, nat>, calls: seq<Call>) {
    multiset(calls) == multiset(StopCalls(instances, instances.Keys))
  }

  // The stop loop over the registry, then both swaps.
  function Swapped(t: State, renewed: map<string, nat>, bins: map<string, string>, stops: seq<Call>): State {
    State(renewed, t.types, t.calls + stops, bins)
  }

  // The last call of the object was not a stop.
  predicate Running(calls: seq<Call>, app: nat) {
    calls != [] &&
    var last := calls[|calls| - 1];
    if last.app == app then !last.Stopped? else Running(calls[..|calls| - 1], app)
  }

  lemma {:induction false} StoppedAtLast(calls: seq<Call>, stops: seq<Call>, app: nat)
    requires Stopped(app) in stops && forall c <- stops :: c.Stopped?
    ensures !Running(calls + stops, app)
  {
    var n := |stops| - 1;
    assert (calls + stops)[..|calls + stops| - 1] == calls + stops[..n];
    if stops[n].app != app {
      assert Stopped(app) in stops[..n];
      StoppedAtLast(calls, stops[..n], app);
    }
  }

  lemma StopsOfEach(instances: map<string, nat>, stops: seq<Call>, name: string)
    requires StopsOf(instances, stops) && name in instances
    ensures multiset(stops)[Stopped(instances[name])] == 1
    ensures forall c <- stops :: c.Stopped?
  {
    var all := StopCalls(instances, instances.Keys);
    assert Stopped(instances[name]) in all;
    forall c <- stops ensures c.Stopped? {
      assert c in multiset(stops);
      assert c in all;
    }
  }

  // One stop for each object, and no other call.
  lemma StopsExactly(instances: map<string, nat>, stops: seq<Call>, app: nat)
    requires StopsOf(instances, stops)
    ensures multiset(stops)[Stopped(app)] == if app in instances.Values then 1 else 0
    ensures forall c <- stops :: c.Stopped? && c.app in instances.Values
  {
    var all := StopCalls(instances, instances.Keys);
    if app in instances.Values {
      var name :| name in instances && instances[name] == app;
      StopsOfEach(instances, stops, name);
    } else {
      assert Stopped(app) !in all;
    }
    forall c <- stops ensures c.Stopped? && c.app in instances.Values {
      assert c in multiset(stops);
      assert c in all;
    }
  }

  // A completed reload.  The names are those of the merged configuration; a name registered before keeps its
  // object; another name has an object constructed by this reload; an object no longer named is unreachable
  // and was stopped once.
  lemma ReloadResult(s: State, bins: map<string, string>, entries: seq<Entry>, throws: set<nat>,
                     stops: seq<Call>, name: string)
    requires WellFormed(s) && ReloadAll(s, bins, entries, throws).p.Going?
    requires StopsOf(ReloadAll(s, bins, entries, throws).p.s.instances, stops)
    ensures var r := ReloadAll(s, bins, entries, throws);
            var f := Swapped(r.p.s, r.renewed, bins, stops);
            && WellFormed(f) && f.instances.Keys == Names(entries)
            && f.binaries == bins && f.types == r.p.s.types && f.calls == r.p.s.calls + stops
            && (name in Names(entries) && name in s.instances ==> f.instances[name] == s.instances[name])
            && (name in Names(entries) && name !in s.instances ==>
                  f.instances[name] >= |s.types| && TypeOf(f, name) == FirstType(entries, name))
            && (name in s.instances && name !in Names(entries) ==>
                  s.instances[name] !in f.instances.Values && multiset(stops)[Stopped(s.instances[name])] == 1)
  {
    ReloadLoop(s, bins, entries, throws);
    var r := ReloadAll(s, bins, entries, throws);
    if name in Names(entries) && name !in s.instances {
      ReloadTypes(s, bins, entries, throws, name);
    }
    if name in s.instances {
      StopsOfEach(r.p.s.instances, stops, name);
    }
  }

  // The stop loop runs over the registry, not over what was dropped from it: after a reload every registered
  // application was stopped last, so all of them are running exactly when there are none.
  lemma ReloadStopsEverything(s: State, bins: map<string, string>, entries: seq<Entry>, throws: set<nat>,
                              stops: seq<Call>)
    requires WellFormed(s) && ReloadAll(s, bins, entries, throws).p.Going?
    requires StopsOf(ReloadAll(s, bins, entries, throws).p.s.instances, stops)
    ensures var r := ReloadAll(s, bins, entries, throws);
            var f := Swapped(r.p.s, r.renewed, bins, stops);
            && (forall n <- f.instances :: !Running(f.calls, f.instances[n]))
            && ((forall n <- f.instances :: Running(f.calls, f.instances[n])) <==> entries == [])
  {
    ReloadLoop(s, bins, entries, throws);
    var r := ReloadAll(s, bins, entries, throws);
    var f := Swapped(r.p.s, r.renewed, bins, stops);
    forall n <- f.instances ensures !Running(f.calls, f.instances[n]) {
      StopsOfEach(r.p.s.instances, stops, n);
      assert Stopped(f.instances[n]) in multiset(stops);
      StoppedAtLast(r.p.s.calls, stops, f.instances[n]);
    }
    if entries != [] {
      assert entries[0].Name() in f.instances;
    }
  }

  // ------------------------------------------------------------ starting from a configuration

  // Whether every entry starts: its type is known, its application does not throw, and its name is
  // neither registered nor used by an entry before it.
  predicate AllStart(s: State, entries: seq<Entry>, throws: set<nat>) {
    entries == [] ||
    var k := |entries| - 1;
    AllStart(s, entries[..k], throws) && k !in throws && entries[k].typ in s.binaries &&
    entries[k].Name() !in s.instances.Keys + Names(entries[..k])
  }

  lemma StartEntryKeeps(s0: State, names: set<string>, s: State, entry: Entry, threw: bool, at: nat)
    requires Kept(s0, names, s)
    ensures var p := StartEntry(s, entry, threw, at);
            && (p.Going? ==> Kept(s0, names + {entry.Name()}, p.s))
            && (p.Stuck? ==> p.at == at && Kept(s0, names, p.s))
            && (p.Going? <==> !threw && entry.typ in s0.binaries && entry.Name() !in s0.instances.Keys + names)
  {
    if entry.Name() !in s.instances {
      NewEntryKeeps(s0, names, s, entry);
    }
  }

  // `start` succeeds exactly when every entry starts; when it stops at an entry, what the entries before it
  // registered stays.
  lemma {:induction false} StartLoop(s: State, entries: seq<Entry>, throws: set<nat>)
    requires WellFormed(s)
    ensures var p := StartAll(s, entries, throws);
            && (p.Going? ==> Kept(s, Names(entries), p.s))
            && (p.Stuck? ==> p.at < |entries| && Kept(s, Names(entries[..p.at]), p.s))
            && (p.Going? <==> AllStart(s, entries, throws))
  {
    if entries == [] {
    } else {
      var k := |entries| - 1;
      var init := entries[..k];
      StartLoop(s, init, throws);
      NamesSnoc(entries, k);
      assert entries[..k + 1] == entries;
      var p := StartAll(s, init, throws);
      if p.Stuck? {
        assert init[..p.at] == entries[..p.at];
      } else {
        StartEntryKeeps(s, Names(init), p.s, entries[k], k in throws, k);
      }
    }
  }

  // A repeated name is noticed after its application was started: that object is left running, registered
  // nowhere.
  lemma RepeatIsStartedAndLost(s: State, entry: Entry, at: nat)
    requires WellFormed(s) && entry.typ in s.binaries && entry.Name() in s.instances
    ensures var t := StartEntry(s, entry, false, at).s;
            && StartEntry(s, entry, false, at) == Stuck(t, at) && t.instances == s.instances
            && t.types == s.types + [entry.typ] && |s.types| !in t.instances.Values
            && Running(t.calls, |s.types|)
  {
  }

  lemma {:induction false} StartGrows(s: State, entries: seq<Entry>, throws: set<nat>, j: nat)
    requires StartAll(s, entries, throws).Going? && j <= |entries|
    ensures StartAll(s, entries[..j], throws).Going?
    ensures Grown(StartAll(s, entries[..j], throws).s, StartAll(s, entries, throws).s)
    decreases |entries|
  {
    if j == |entries| {
      assert entries[..j] == entries;
    } else {
      var k := |entries| - 1;
      assert entries[..k][..j] == entries[..j];
      StartGrows(s, entries[..k], throws, j);
    }
  }

  lemma {:induction false} StartCallCount(s: State, entries: seq<Entry>, throws: set<nat>)
    requires StartAll(s, entries, throws).Going?
    ensures |StartAll(s, entries, throws).s.calls| == |s.calls| + |entries|
    decreases |entries|
  {
    if entries == [] {
    } else {
      StartCallCount(s, entries[..|entries| - 1], throws);
    }
  }

  lemma StartLastCall(s: State, entries: seq<Entry>, throws: set<nat>)
    requires WellFormed(s) && entries != [] && StartAll(s, entries, throws).Going?
    ensures var k := |entries| - 1;
            var visible := s.instances.Keys + Names(entries[..k]);
            && entries[k].Name() !in visible
            && CallAt(StartAll(s, entries, throws).s, |s.calls| + k, entries[k].Name(), visible)
  {
    var k := |entries| - 1;
    StartLoop(s, entries[..k], throws);
    StartCallCount(s, entries[..k], throws);
    assert StartAll(s, entries[..k], throws).s.instances.Keys == s.instances.Keys + Names(entries[..k]);
  }

  lemma StartCallsOfAll(s: State, entries: seq<Entry>, throws: set<nat>, i: nat)
    requires WellFormed(s) && StartAll(s, entries, throws).Going? && i < |entries|
    ensures var visible := s.instances.Keys + Names(entries[..i]);
            && entries[i].Name() !in visible
            && CallAt(StartAll(s, entries, throws).s, |s.calls| + i, entries[i].Name(), visible)
  {
    var upTo := entries[..i + 1];
    assert upTo[..i] == entries[..i];
    StartGrows(s, entries, throws, i + 1);
    StartLastCall(s, upTo, throws);
    CallKept(StartAll(s, upTo, throws).s, StartAll(s, entries, throws).s,
             |s.calls| + i, entries[i].Name(), s.instances.Keys + Names(entries[..i]));
  }

  lemma {:induction false} StartStopsAt(s: State, entries: seq<Entry>, throws: set<nat>)
    requires StartAll(s, entries, throws).Stuck?
    ensures var p := StartAll(s, entries, throws);
            && p.at < |entries|
            && var before := StartAll(s, entries[..p.at], throws);
            && before.Going?
            && p == StartEntry(before.s, entries[p.at], p.at in throws, p.at)
  {
    var k := |entries| - 1;
    if StartAll(s, entries[..k], throws).Stuck? {
      StartStopsAt(s, entries[..k], throws);
      var at := StartAll(s, entries[..k], throws).at;
      assert entries[..k][..at] == entries[..at];
    }
  }

  // During `start` too, each entry up to where the loop stops makes one call, the start of its own
  // object, and `get` finds every entry before it.
  lemma StartCalls(s: State, entries: seq<Entry>, throws: set<nat>, i: nat)
    requires WellFormed(s) && i < Reached(StartAll(s, entries, throws), entries)
    ensures i < |entries|
    ensures var visible := s.instances.Keys + Names(entries[..i]);
            && entries[i].Name() !in visible
            && CallAt(StartAll(s, entries, throws).s, |s.calls| + i, entries[i].Name(), visible)
  {
    var p := StartAll(s, entries, throws);
    if p.Going? {
      StartCallsOfAll(s, entries, throws, i);
    } else {
      StartStopsAt(s, entries, throws);
      var before := entries[..p.at];
      assert before[..i] == entries[..i];
      StartCallsOfAll(s, before, throws, i);
      CallKept(StartAll(s, before, throws).s, p.s,
               |s.calls| + i, entries[i].Name(), s.instances.Keys + Names(entries[..i]));
    }
  }

  lemma StartedSoFar(s: State, entries: seq<Entry>, throws: set<nat>)
    requires WellFormed(s) && StartAll(s, entries, throws).Going?
    ensures var t := StartAll(s, entries, throws).s;
            && WellFormed(t) && t.binaries == s.binaries
            && t.instances.Keys == s.instances.Keys + Names(entries)
            && |t.calls| == |s.calls| + |entries|
  {
    StartLoop(s, entries, throws);
    StartCallCount(s, entries, throws);
  }

  lemma StartEntryStops(s: State, entry: Entry, threw: bool, at: nat)
    requires WellFormed(s) && StartEntry(s, entry, threw, at).Stuck?
    ensures var t := StartEntry(s, entry, threw, at).s;
            && t.instances == s.instances
            && (entry.typ !in s.binaries ==> t == s)
            && (entry.typ in s.binaries ==>
                  && (threw || entry.Name() in s.instances)
                  && t.types == s.types + [entry.typ] && |s.types| !in t.instances.Values
                  && t.calls == s.calls + [Started(|s.types|, s.instances.Keys, threw)])
  {
  }

  // The entry at which a start stops: an unknown type, without a call; or the start of one more object,
  // which throws or returns to find its name taken, and which is registered nowhere.
  lemma StartStopCall(s: State, entries: seq<Entry>, throws: set<nat>)
    requires WellFormed(s) && StartAll(s, entries, throws).Stuck?
    ensures var p := StartAll(s, entries, throws);
            var t, at := p.s, p.at;
            && at < |entries|
            && var name, visible := entries[at].Name(), s.instances.Keys + Names(entries[..at]);
            && t.instances.Keys == visible
            && (entries[at].typ !in s.binaries ==> |t.calls| == |s.calls| + at)
            && (entries[at].typ in s.binaries ==>
                  && (at in throws || name in visible) && |t.calls| == |s.calls| + at + 1
                  && t.types != [] && |t.types| - 1 !in t.instances.Values
                  && t.calls[|s.calls| + at] == Started(|t.types| - 1, visible, at in throws))
  {
    StartStopsAt(s, entries, throws);
    var at := StartAll(s, entries, throws).at;
    var before := StartAll(s, entries[..at], throws);
    StartedSoFar(s, entries[..at], throws);
    StartEntryStops(before.s, entries[at], at in throws, at);
  }

  lemma DistinctSnoc(entries: seq<Entry>)
    requires entries != []
    ensures var k := |entries| - 1;
            DistinctNames(entries) <==> DistinctNames(entries[..k]) && entries[k].Name() !in Names(entries[..k])
  {
    var k := |entries| - 1;
    var init := entries[..k];
    if entries[k].Name() in Names(init) {
      var e :| e in init && e.Name() == entries[k].Name();
      var i :| 0 <= i < k && entries[i] == e;
    } else {
      forall i | 0 <= i < k ensures entries[i].Name() != entries[k].Name() {
        assert entries[i] in init;
      }
      assert DistinctNames(init) ==> forall i, j | 0 <= i < j < k :: init[i].Name() != init[j].Name();
    }
  }

  lemma {:induction false} AllStartDistinct(s: State, entries: seq<Entry>)
    requires s.instances == map[] && forall e <- entries :: e.typ in s.binaries
    ensures AllStart(s, entries, {}) <==> DistinctNames(entries)
  {
    if entries == [] {
    } else {
      AllStartDistinct(s, entries[..|entries| - 1]);
      DistinctSnoc(entries);
    }
  }

  // With known types and applications that do not throw, a start fails exactly when the configuration repeats
  // a name; a reload never does.
  lemma StartNeedsDistinctNames(s: State, entries: seq<Entry>)
    requires WellFormed(s) && s.instances == map[]
    requires forall e <- entries :: e.typ in s.binaries
    ensures StartAll(s, entries, {}).Going? <==> DistinctNames(entries)
    ensures ReloadAll(s, s.binaries, entries, {}).p.Going?
  {
    StartLoop(s, entries, {});
    AllStartDistinct(s, entries);
    ReloadLoop(s, s.binaries, entries, {});
    AllTypesKnown(s, s.binaries, entries);
  }

  lemma {:induction false} StartTypes(s: State, entries: seq<Entry>, throws: set<nat>, name: string)
    requires WellFormed(s) && StartAll(s, entries, throws).Going? && name in Names(entries)
    ensures var t := StartAll(s, entries, throws).s;
            WellFormed(t) && name in t.instances && TypeOf(t, name) == FirstType(entries, name)
  {
    var k := |entries| - 1;
    var init := entries[..k];
    assert entries[..k + 1] == entries;
    NamesSnoc(entries, k);
    StartLoop(s, init, throws);
    StartLoop(s, entries, throws);
    if name in Names(init) {
      StartTypes(s, init, throws, name);
    }
  }

  lemma StartOfStopped(s: State, bins: map<string, string>, entries: seq<Entry>)
    requires s.instances == map[] && DistinctNames(entries) && forall e <- entries :: e.typ in bins
    ensures var p := StartAll(s.(binaries := bins), entries, {});
            p.Going? && WellFormed(p.s) && p.s.instances.Keys == Names(entries)
  {
    var started := s.(binaries := bins);
    StartNeedsDistinctNames(started, entries);
    StartLoop(started, entries, {});
  }

  lemma ReloadOfStopped(s: State, bins: map<string, string>, entries: seq<Entry>)
    requires s.instances == map[] && forall e <- entries :: e.typ in bins
    ensures var r := ReloadAll(s, bins, entries, {});
            && r.p.Going? && WellFormed(r.p.s) && r.renewed.Keys == Names(entries)
            && r.renewed == r.p.s.instances
  {
    AllTypesKnown(s, bins, entries);
    ReloadLoop(s, bins, entries, {});
  }

  // With distinct names of known types, and applications that do not throw, reloading a stopped server
  // registers the same names as starting it ...
  lemma ReloadOfStoppedIsStart(s: State, bins: map<string, string>, entries: seq<Entry>)
    requires s.instances == map[] && DistinctNames(entries) && forall e <- entries :: e.typ in bins
    ensures var p, r := StartAll(s.(binaries := bins), entries, {}), ReloadAll(s, bins, entries, {});
            p.Going? && r.p.Going? && p.s.instances.Keys == r.renewed.Keys == Names(entries)
  {
    StartOfStopped(s, bins, entries);
    ReloadOfStopped(s, bins, entries);
  }

  // ... with the same types.
  lemma ReloadOfStoppedTypes(s: State, bins: map<string, string>, entries: seq<Entry>, name: string)
    requires s.instances == map[] && DistinctNames(entries) && forall e <- entries :: e.typ in bins
    requires name in Names(entries)
    ensures var p, r := StartAll(s.(binaries := bins), entries, {}).s, ReloadAll(s, bins, entries, {}).p.s;
            && WellFormed(p) && WellFormed(r) && name in p.instances && name in r.instances
            && TypeOf(p, name) == TypeOf(r, name)
  {
    StartOfStopped(s, bins, entries);
    ReloadOfStopped(s, bins, entries);
    StartTypes(s.(binaries := bins), entries, {}, name);
    ReloadTypes(s, bins, entries, {}, name);
  }

  lemma {:induction false} AllTypesKnown(s: State, bins: map<string, string>, entries: seq<Entry>)
    requires forall e <- entries :: e.typ in bins
    ensures AllReload(s, bins, entries, {})
  {
    if entries == [] {
    } else {
      AllTypesKnown(s, bins, entries[..|entries| - 1]);
    }
  }

  // ------------------------------------------------------------ in terms of the configuration

  lemma {:induction false} AllStartAt(s: State, entries: seq<Entry>, throws: set<nat>, k: nat)
    requires AllStart(s, entries, throws) && k < |entries|
    ensures k !in throws && entries[k].typ in s.binaries
    ensures entries[k].Name() !in s.instances && entries[k].Name() !in Names(entries[..k])
  {
    var n := |entries| - 1;
    if k < n {
      AllStartAt(s, entries[..n], throws, k);
      assert entries[..n][..k] == entries[..k];
    }
  }

  // A completed start: at no entry did the application throw, every type is known, every name is new.
  lemma StartNeeds(s: State, entries: seq<Entry>, throws: set<nat>, k: nat)
    requires WellFormed(s) && StartAll(s, entries, throws).Going? && k < |entries|
    ensures k !in throws && entries[k].typ in s.binaries && entries[k].Name() !in s.instances
    ensures forall j | 0 <= j < k :: entries[j].Name() != entries[k].Name()
  {
    StartLoop(s, entries, throws);
    AllStartAt(s, entries, throws, k);
    NamedBefore(entries, k);
  }

  // One that stops does so at an entry that fails one of these.
  lemma StartStopReason(s: State, entries: seq<Entry>, throws: set<nat>)
    requires WellFormed(s) && StartAll(s, entries, throws).Stuck?
    ensures var at := StartAll(s, entries, throws).at;
            && at < |entries|
            && (at in throws || entries[at].typ !in s.binaries || entries[at].Name() in s.instances
                || exists j | 0 <= j < at :: entries[j].Name() == entries[at].Name())
  {
    StartStopCall(s, entries, throws);
    NamedBefore(entries, StartAll(s, entries, throws).at);
  }

  lemma NamedBefore(entries: seq<Entry>, k: nat)
    requires k < |entries|
    ensures entries[k].Name() in Names(entries[..k]) <==>
            exists j | 0 <= j < k :: entries[j].Name() == entries[k].Name()
  {
    var init := entries[..k];
    if j :| 0 <= j < k && entries[j].Name() == entries[k].Name() {
      assert init[j] in init;
    }
    if entries[k].Name() in Names(init) {
      var e :| e in init && e.Name() == entries[k].Name();
      var j :| 0 <= j < k && init[j] == e;
      assert entries[j].Name() == entries[k].Name();
    }
  }

  lemma {:induction false} AllReloadAt(s: State, bins: map<string, string>, entries: seq<Entry>,
                                       throws: set<nat>, k: nat)
    requires AllReload(s, bins, entries, throws) && k < |entries|
    ensures k !in throws
    ensures entries[k].Name() in s.instances || entries[k].Name() in Names(entries[..k]) || entries[k].typ in bins
  {
    var n := |entries| - 1;
    if k < n {
      AllReloadAt(s, bins, entries[..n], throws, k);
      assert entries[..n][..k] == entries[..k];
    }
  }

  // A completed reload loop: at no entry did the application throw, and a name that was neither registered
  // nor used before has a known type.
  lemma ReloadNeeds(s: State, bins: map<string, string>, entries: seq<Entry>, throws: set<nat>, k: nat)
    requires WellFormed(s) && ReloadAll(s, bins, entries, throws).p.Going? && k < |entries|
    ensures k !in throws
    ensures entries[k].Name() in s.instances || entries[k].typ in bins
            || exists j | 0 <= j < k :: entries[j].Name() == entries[k].Name()
  {
    ReloadLoop(s, bins, entries, throws);
    AllReloadAt(s, bins, entries, throws, k);
    NamedBefore(entries, k);
  }

  // One that stops does so at an entry that throws, or has a new name of unknown type.
  lemma ReloadStopReason(s: State, bins: map<string, string>, entries: seq<Entry>, throws: set<nat>)
    requires WellFormed(s) && ReloadAll(s, bins, entries, throws).p.Stuck?
    ensures var at := ReloadAll(s, bins, entries, throws).p.at;
            && at < |entries|
            && (at in throws
                || (entries[at].typ !in bins && entries[at].Name() !in s.instances
                    && forall j | 0 <= j < at :: entries[j].Name() != entries[at].Name()))
  {
    ReloadStopCall(s, bins, entries, throws);
    NamedBefore(entries, ReloadAll(s, bins, entries, throws).p.at);
  }

  // The object registered under the name has the type.
  predicate HasObject(t: State, name: string, typ: string) {
    name in t.instances && t.instances[name] < |t.types| && t.types[t.instances[name]] == typ
  }

  lemma StartEntryRegisters(s: State, entry: Entry, threw: bool, at: nat)
    requires StartEntry(s, entry, threw, at).Going?
    ensures var t := StartEntry(s, entry, threw, at).s;
            && HasObject(t, entry.Name(), entry.typ) && entry.Name() !in s.instances
            && forall name, typ | HasObject(s, name, typ) :: HasObject(t, name, typ)
  {
  }

  lemma {:induction false} EachIsRegistered(s: State, entries: seq<Entry>, throws: set<nat>, k: nat)
    requires WellFormed(s) && StartAll(s, entries, throws).Going? && k < |entries|
    ensures entries[k].Name() !in s.instances
    ensures HasObject(StartAll(s, entries, throws).s, entries[k].Name(), entries[k].typ)
  {
    var n := |entries| - 1;
    var init := entries[..n];
    StartedSoFar(s, init, throws);
    StartEntryRegisters(StartAll(s, init, throws).s, entries[n], n in throws, n);
    if k < n {
      EachIsRegistered(s, init, throws, k);
      assert init[k] == entries[k];
    }
  }

  // A start registers each entry it got through under its `instance-name`, or under its type when it has
  // none, with an object of its type; it does so too when it stops at a later entry.
  lemma StartRegisters(s: State, entries: seq<Entry>, throws: set<nat>, k: nat)
    requires WellFormed(s) && k < Reached(StartAll(s, entries, throws), entries)
    ensures k < |entries|
    ensures var t := StartAll(s, entries, throws).s;
            var e := entries[k];
            var name := if e.instanceName.Some? then e.instanceName.value else e.typ;
            && name in t.instances && name !in s.instances
            && t.instances[name] < |t.types| && t.types[t.instances[name]] == e.typ
  {
    var p := StartAll(s, entries, throws);
    if p.Going? {
      EachIsRegistered(s, entries, throws, k);
    } else {
      StartStopsAt(s, entries, throws);
      var at := p.at;
      var before := StartAll(s, entries[..at], throws).s;
      StartedSoFar(s, entries[..at], throws);
      StartEntryStops(before, entries[at], at in throws, at);
      EachIsRegistered(s, entries[..at], throws, k);
      assert entries[..at][k] == entries[k];
    }
  }

  // Whatever becomes of a start or of the loop of a reload, what was registered keeps its object.
  lemma LoopsKeepOld(s: State, bins: map<string, string>, entries: seq<Entry>, throws: set<nat>, name: string)
    requires WellFormed(s) && name in s.instances
    ensures var t := StartAll(s, entries, throws).s; name in t.instances && t.instances[name] == s.instances[name]
    ensures var t := ReloadAll(s, bins, entries, throws).p.s;
            name in t.instances && t.instances[name] == s.instances[name]
  {
    StartLoop(s, entries, throws);
    ReloadLoop(s, bins, entries, throws);
  }

  // After a completed reload each entry is in the new map, under its `instance-name` or its type; a name that
  // was registered has kept its object.
  lemma ReloadRegisters(s: State, bins: map<string, string>, entries: seq<Entry>, throws: set<nat>, k: nat)
    requires WellFormed(s) && ReloadAll(s, bins, entries, throws).p.Going? && k < |entries|
    ensures var renewed := ReloadAll(s, bins, entries, throws).renewed;
            var e := entries[k];
            var name := if e.instanceName.Some? then e.instanceName.value else e.typ;
            name in renewed && (name in s.instances ==> renewed[name] == s.instances[name])
  {
    ReloadLoop(s, bins, entries, throws);
    assert entries[k].Name() in Names(entries);
  }

  // Two instances of one type, under two names, are two objects: a start makes both, and so does a reload.
  lemma TwoOfOneType(s: State, bins: map<string, string>, typ: string, a: string, b: string)
    requires WellFormed(s) && s.instances == map[] && typ in s.binaries && typ in bins && a != b
    ensures var entries := [Entry(typ, Some(a)), Entry(typ, Some(b))];
            var p, r := StartAll(s, entries, {}), ReloadAll(s, bins, entries, {});
            && p.Going? && p.s.instances == map[a := |s.types|, b := |s.types| + 1]
            && r.p.Going? && r.renewed == map[a := |s.types|, b := |s.types| + 1]
  {
    var first, second := Entry(typ, Some(a)), Entry(typ, Some(b));
    var entries := [first, second];
    assert entries[..1] == [first] && [first][..0] == [];
    assert StartAll(s, [], {}) == Going(s);
    assert StartAll(s, [first], {}) == StartEntry(s, first, false, 0);
    assert ReloadAll(s, bins, [], {}) == Reloading(Going(s), map[]);
    assert ReloadAll(s, bins, [first], {}) == ReloadEntry(s, map[], bins, first, false, 0);
  }
}
