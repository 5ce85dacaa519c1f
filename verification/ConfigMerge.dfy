/** The merged application list: the main file's entries, then those of every dependent file. */
module ConfigMerge {
  import opened Wrappers

  // An entry of an `applications` list: `type`, and `instance-name`, which defaults to the type.
  datatype Entry = Entry(typ: string, instanceName: Option<string>) {
    function Name(): string {
      if instanceName.Some? then instanceName.value else typ
    }
  }

  // What a path in `core: configs:` denotes: a directory, with its non-directory members in
  // whatever order they are enumerated; a regular file; or neither.
  datatype Location = Directory(files: seq<string>) | File(path: string) | Neither

  // The entries of every file that can be loaded.
  type Files = map<string, seq<Entry>>

  // ------------------------------------------------------------ sorting names

  // operator< of std::string
  predicate Less(a: string, b: string) {
    if a == [] || b == [] then a == [] && b != []
    else a[0] < b[0] || (a[0] == b[0] && Less(a[1..], b[1..]))
  }

  lemma {:induction false} LessTotal(a: string, b: string)
    ensures Less(a, b) || Less(b, a) || a == b
    ensures !(Less(a, b) && Less(b, a)) && !Less(a, a)
  {
    if a != [] && b != [] {
      LessTotal(a[1..], b[1..]);
      assert a == [a[0]] + a[1..] && b == [b[0]] + b[1..];
    }
    if a == [] {
    } else {
      LessTotal(a[1..], a[1..]);
    }
  }

  lemma {:induction false} LessTransitive(a: string, b: string, c: string)
    requires !Less(b, a) && !Less(c, b)
    ensures !Less(c, a)
  {
    if a != [] && b != [] && c != [] && a[0] == b[0] == c[0] {
      LessTransitive(a[1..], b[1..], c[1..]);
    }
  }

  // The order in full: a name comes before another when it is a proper prefix of it, or has the smaller
  // character where they first differ.
  lemma {:induction false} LessExactly(a: string, b: string)
    ensures Less(a, b) <==>
            (a <= b && a != b) || exists k | 0 <= k < |a| && k < |b| :: a[..k] == b[..k] && a[k] < b[k]
  {
    if a == [] || b == [] {
      assert a == [] ==> (a <= b);
    } else {
      LessExactly(a[1..], b[1..]);
      if a[0] < b[0] {
        assert a[..0] == b[..0];
      } else if a[0] == b[0] {
        LessShift(a, b);
      }
    }
  }

  lemma LessShift(a: string, b: string)
    requires a != [] && b != [] && a[0] == b[0]
    ensures a <= b && a != b <==> a[1..] <= b[1..] && a[1..] != b[1..]
    ensures (exists k | 0 <= k < |a| && k < |b| :: a[..k] == b[..k] && a[k] < b[k]) <==>
            exists k | 0 <= k < |a[1..]| && k < |b[1..]| :: a[1..][..k] == b[1..][..k] && a[1..][k] < b[1..][k]
  {
    assert a == [a[0]] + a[1..] && b == [b[0]] + b[1..];
    if k :| 0 <= k < |a| && k < |b| && a[..k] == b[..k] && a[k] < b[k] {
      assert a[1..][..k - 1] == a[..k][1..] && b[1..][..k - 1] == b[..k][1..];
      assert a[1..][k - 1] < b[1..][k - 1];
    }
    if k :| 0 <= k < |a[1..]| && k < |b[1..]| && a[1..][..k] == b[1..][..k] && a[1..][k] < b[1..][k] {
      assert a[..k + 1] == [a[0]] + a[1..][..k] && b[..k + 1] == [b[0]] + b[1..][..k];
      assert a[k + 1] < b[k + 1];
    }
  }

  // Names that first differ behind a common prefix.
  lemma {:induction false} FirstDifference(p: string, x: char, s: string, y: char, t: string)
    requires x < y
    ensures Less(p + [x] + s, p + [y] + t) && !Less(p + [y] + t, p + [x] + s)
  {
    var a, b := p + [x] + s, p + [y] + t;
    if p == [] {
      assert a[0] == x && b[0] == y;
    } else {
      assert a[0] == b[0] == p[0];
      assert a[1..] == p[1..] + [x] + s && b[1..] == p[1..] + [y] + t;
      FirstDifference(p[1..], x, s, y, t);
    }
  }

  lemma {:induction false} PrefixIsLess(p: string, s: string)
    requires s != []
    ensures Less(p, p + s) && !Less(p + s, p)
  {
    if p == [] {
      assert p + s == s;
    } else {
      assert (p + s)[1..] == p[1..] + s;
      PrefixIsLess(p[1..], s);
    }
  }

  predicate Sorted(s: seq<string>) {
    forall i, j | 0 <= i < j < |s| :: !Less(s[j], s[i])
  }

  function Insert(x: string, s: seq<string>): seq<string> {
    if s == [] || Less(x, s[0]) then [x] + s else [s[0]] + Insert(x, s[1..])
  }

  function Sort(s: seq<string>): seq<string> {
    if s == [] then [] else Insert(s[0], Sort(s[1..]))
  }

  lemma {:induction false} InsertAdds(x: string, s: seq<string>)
    ensures multiset(Insert(x, s)) == multiset(s) + multiset{x}
  {
    if s != [] && !Less(x, s[0]) {
      InsertAdds(x, s[1..]);
      assert s == [s[0]] + s[1..];
    }
  }

  lemma BelowAll(x: string, s: seq<string>)
    requires Sorted(s) && s != [] && !Less(s[0], x)
    ensures forall j | 0 <= j < |s| :: !Less(s[j], x)
  {
    forall j | 0 < j < |s| ensures !Less(s[j], x) {
      LessTransitive(x, s[0], s[j]);
    }
  }

  lemma {:induction false} InsertSorts(x: string, s: seq<string>)
    requires Sorted(s)
    ensures Sorted(Insert(x, s))
  {
    if s == [] {
    } else if Less(x, s[0]) {
      LessTotal(x, s[0]);
      BelowAll(x, s);
    } else {
      InsertSorts(x, s[1..]);
      InsertAdds(x, s[1..]);
      var t := Insert(x, s[1..]);
      forall j | 0 <= j < |t| ensures !Less(t[j], s[0]) {
        assert t[j] in multiset(t);
        assert t[j] == x || t[j] in s[1..];
      }
    }
  }

  lemma {:induction false} SortSorts(s: seq<string>)
    ensures Sorted(Sort(s)) && multiset(Sort(s)) == multiset(s)
  {
    if s == [] {
    } else {
      SortSorts(s[1..]);
      InsertSorts(s[0], Sort(s[1..]));
      InsertAdds(s[0], Sort(s[1..]));
      assert s == [s[0]] + s[1..];
    }
  }

  lemma SameHead(a: seq<string>, b: seq<string>)
    requires Sorted(a) && Sorted(b) && multiset(a) == multiset(b) && a != []
    ensures b != [] && a[0] == b[0]
  {
    assert a[0] in multiset(b);
    assert b[0] in multiset(a);
    var i :| 0 <= i < |b| && b[i] == a[0];
    var j :| 0 <= j < |a| && a[j] == b[0];
    LessTotal(a[0], b[0]);
  }

  lemma TailMultiset(s: seq<string>)
    requires s != []
    ensures s == [s[0]] + s[1..] && multiset(s[1..]) == multiset(s) - multiset{s[0]}
  {
    assert s == [s[0]] + s[1..];
  }

  // There is one sorted arrangement.
  lemma {:induction false} SortedUnique(a: seq<string>, b: seq<string>)
    requires Sorted(a) && Sorted(b) && multiset(a) == multiset(b)
    ensures a == b
  {
    if a == [] {
      assert |multiset(a)| == |multiset(b)|;
    } else {
      SameHead(a, b);
      TailMultiset(a);
      TailMultiset(b);
      SortedUnique(a[1..], b[1..]);
    }
  }

  // ------------------------------------------------------------ merging

  function FilesOf(location: Location): seq<string> {
    match location
    case Directory(files) => files
    case File(path) => [path]
    case Neither => []
  }

  // The entries of the given files, in order; None when one cannot be loaded.
  function Load(paths: seq<string>, files: Files): Option<seq<Entry>> {
    if paths == [] then Some([]) else
    var last := paths[|paths| - 1];
    match Load(paths[..|paths| - 1], files)
    case Some(es) => if last in files then Some(es + files[last]) else None
    case None => None
  }

  function Merged(main: seq<Entry>, configs: seq<Location>, files: Files): Option<seq<Entry>> {
    if configs == [] then Some(main) else
    match Merged(main, configs[..|configs| - 1], files)
    case None => None
    case Some(es) =>
      match Load(Sort(FilesOf(configs[|configs| - 1])), files)
      case None => None
      case Some(more) => Some(es + more)
  }

  // The file names a location stands for, as they are enumerated.
  method ListFiles(location: Location) returns (configs: seq<string>)
    ensures configs == FilesOf(location)
  {
    configs := [];
    if location.Directory? {
      for i := 0 to |location.files|
        invariant configs == location.files[..i]
      {
        configs := configs + [location.files[i]];
      }
    }
    if location.File? {
      configs := configs + [location.path];
    }
  }

  // The loop that loads the files and appends their entries to the list under construction.
  method LoadFiles(configs: seq<string>, files: Files, apps: seq<Entry>) returns (r: Option<seq<Entry>>)
    ensures r == match Load(configs, files)
                 case None => None
                 case Some(more) => Some(apps + more)
  {
    var patched := apps;
    for i := 0 to |configs|
      invariant Load(configs[..i], files).Some? && patched == apps + Load(configs[..i], files).value
    {
      assert configs[..i + 1][..i] == configs[..i];
      if configs[i] !in files {
        LoadStops(configs, files, i + 1);
        return None;
      }
      patched := patched + files[configs[i]];
    }
    assert configs[..|configs|] == configs;
    return Some(patched);
  }

  // read_single_config_file
  method ReadSingleConfigFile(location: Location, files: Files, apps: seq<Entry>) returns (r: Option<seq<Entry>>)
    ensures r == match Load(Sort(FilesOf(location)), files)
                 case None => None
                 case Some(more) => Some(apps + more)
    ensures location.Neither? ==> r == Some(apps)
    ensures location.File? ==> r == if location.path in files then Some(apps + files[location.path]) else None
  {
    FileContents(location, files);
    var configs := ListFiles(location);
    r := LoadFiles(Sort(configs), files, apps);
    assert apps + [] == apps;
  }

  // Of a path that is no directory: the one file, or nothing.
  lemma FileContents(location: Location, files: Files)
    ensures location.Neither? ==> Load(Sort(FilesOf(location)), files) == Some([])
    ensures location.File? ==>
              Load(Sort(FilesOf(location)), files)
              == if location.path in files then Some(files[location.path]) else None
  {
    if location.File? {
      assert Sort([location.path]) == [location.path];
      LoadOne(location.path, files);
    }
  }

  lemma LoadOne(path: string, files: Files)
    ensures Load([path], files) == if path in files then Some(files[path]) else None
  {
    assert [path][..0] == [];
    assert Load([path][..0], files) == Some([]);
    assert path in files ==> [] + files[path] == files[path];
  }

  // Files are loaded one after the other, repeated names repeatedly.
  lemma {:induction false} LoadConcat(a: seq<string>, b: seq<string>, files: Files)
    ensures Load(a + b, files) == match Load(a, files)
                                  case None => None
                                  case Some(x) => match Load(b, files)
                                                  case None => None
                                                  case Some(y) => Some(x + y)
    decreases |b|
  {
    if b == [] {
      assert a + b == a;
      assert Load(a, files).Some? ==> Load(a, files).value + [] == Load(a, files).value;
    } else {
      var n := |b| - 1;
      LoadConcat(a, b[..n], files);
      assert (a + b)[..|a + b| - 1] == a + b[..n];
      if Load(a, files).Some? && Load(b, files).Some? {
        AppendAssociates(Load(a, files).value, Load(b[..n], files).value, files[b[n]]);
      }
    }
  }

  lemma AppendAssociates(a: seq<Entry>, b: seq<Entry>, c: seq<Entry>)
    ensures a + (b + c) == a + b + c
  {
  }

  // A directory is read in the order of its names, however it is enumerated.
  lemma DirectoryInOrder(names: seq<string>, listed: seq<string>, files: Files)
    requires Sorted(names) && multiset(names) == multiset(listed)
    ensures Load(Sort(FilesOf(Directory(listed))), files) == Load(names, files)
  {
    SortSorts(listed);
    SortedUnique(names, Sort(listed));
  }

  // Two files of a directory whose names first differ at x and y: the entries of the smaller name are
  // first, in whichever order the directory lists them.
  lemma TwoFilesInOrder(p: string, x: char, s: string, y: char, t: string, files: Files)
    requires x < y && p + [x] + s in files && p + [y] + t in files
    ensures var a, b := p + [x] + s, p + [y] + t;
            && Load(Sort(FilesOf(Directory([a, b]))), files) == Some(files[a] + files[b])
            && Load(Sort(FilesOf(Directory([b, a]))), files) == Some(files[a] + files[b])
  {
    var a, b := p + [x] + s, p + [y] + t;
    FirstDifference(p, x, s, y, t);
    DirectoryInOrder([a, b], [a, b], files);
    assert multiset([a, b]) == multiset([b, a]);
    DirectoryInOrder([a, b], [b, a], files);
    assert [a, b] == [a] + [b];
    LoadConcat([a], [b], files);
    LoadOne(a, files);
    LoadOne(b, files);
  }

  // The merged list in order: without dependent configurations the main list, and with more of them, what
  // they add to the list so far.
  lemma {:induction false} MergedConcat(main: seq<Entry>, a: seq<Location>, b: seq<Location>, files: Files)
    ensures Merged(main, [], files) == Some(main)
    ensures Merged(main, a + b, files) == match Merged(main, a, files)
                                          case None => None
                                          case Some(es) => Merged(es, b, files)
    decreases |b|
  {
    if b == [] {
      assert a + b == a;
    } else {
      var n := |b| - 1;
      MergedConcat(main, a, b[..n], files);
      assert (a + b)[..|a + b| - 1] == a + b[..n];
    }
  }

  // One dependent configuration: a file's entries behind the list so far; a directory's in name order.
  lemma MergedOne(main: seq<Entry>, location: Location, names: seq<string>, files: Files)
    requires location.Directory? ==> Sorted(names) && multiset(names) == multiset(location.files)
    ensures location.Neither? ==> Merged(main, [location], files) == Some(main)
    ensures location.File? ==>
              Merged(main, [location], files)
              == if location.path in files then Some(main + files[location.path]) else None
    ensures location.Directory? ==>
              Merged(main, [location], files)
              == if Load(names, files).Some? then Some(main + Load(names, files).value) else None
  {
    assert [location][..0] == [];
    assert Merged(main, [location][..0], files) == Some(main);
    assert main + [] == main;
    FileContents(location, files);
    if location.Directory? {
      DirectoryInOrder(names, location.files, files);
    }
  }

  lemma {:induction false} LoadStops(paths: seq<string>, files: Files, i: nat)
    requires i <= |paths| && Load(paths[..i], files).None?
    ensures Load(paths, files).None?
  {
    if i < |paths| {
      assert paths[..|paths| - 1][..i] == paths[..i];
      LoadStops(paths[..|paths| - 1], files, i);
    } else {
      assert paths[..i] == paths;
    }
  }

  lemma {:induction false} MergedStops(main: seq<Entry>, configs: seq<Location>, files: Files, i: nat)
    requires i <= |configs| && Merged(main, configs[..i], files).None?
    ensures Merged(main, configs, files).None?
  {
    if i < |configs| {
      assert configs[..|configs| - 1][..i] == configs[..i];
      MergedStops(main, configs[..|configs| - 1], files, i);
    } else {
      assert configs[..i] == configs;
    }
  }

  // read_config, with `main` None when the main file itself cannot be loaded.
  method ReadConfig(main: Option<seq<Entry>>, configs: seq<Location>, files: Files) returns (r: Option<seq<Entry>>)
    ensures r == if main.None? then None else Merged(main.value, configs, files)
  {
    if main.None? {
      return None;
    }
    r := main;
    for i := 0 to |configs|
      invariant r.Some? && Merged(main.value, configs[..i], files) == r
    {
      assert configs[..i + 1][..i] == configs[..i];
      r := ReadSingleConfigFile(configs[i], files, r.value);
      if r.None? {
        MergedStops(main.value, configs, files, i + 1);
        return;
      }
    }
    assert configs[..|configs|] == configs;
  }

  // ------------------------------------------------------------ what the merged list depends on

  // The same files, enumerated in any order.
  predicate SameFiles(a: seq<Location>, b: seq<Location>) {
    |a| == |b| && forall i | 0 <= i < |a| :: multiset(FilesOf(a[i])) == multiset(FilesOf(b[i]))
  }

  // Directory enumeration order does not matter.
  lemma {:induction false} EnumerationOrderIrrelevant(main: seq<Entry>, a: seq<Location>, b: seq<Location>,
                                                      files: Files)
    requires SameFiles(a, b)
    ensures Merged(main, a, files) == Merged(main, b, files)
  {
    if a == [] {
    } else {
      var n := |a| - 1;
      EnumerationOrderIrrelevant(main, a[..n], b[..n], files);
      SortSorts(FilesOf(a[n]));
      SortSorts(FilesOf(b[n]));
      SortedUnique(Sort(FilesOf(a[n])), Sort(FilesOf(b[n])));
    }
  }

  // Some file with one of the names has the entry.
  ghost predicate Listed(paths: seq<string>, files: Files, e: Entry) {
    exists p :: p in paths && p in files && e in files[p]
  }

  lemma ListedSnoc(init: seq<string>, last: string, files: Files, e: Entry)
    ensures Listed(init + [last], files, e) <==> Listed(init, files, e) || (last in files && e in files[last])
  {
    if Listed(init, files, e) {
      var p :| p in init && p in files && e in files[p];
      assert p in init + [last];
    }
    assert last in init + [last];
  }

  lemma {:induction false} LoadContents(paths: seq<string>, files: Files)
    ensures Load(paths, files).Some? <==> forall p <- paths :: p in files
    ensures Load(paths, files).Some? ==> forall e :: e in Load(paths, files).value <==> Listed(paths, files, e)
  {
    if paths == [] {
      assert forall e :: !Listed(paths, files, e);
    } else {
      var init, last := paths[..|paths| - 1], paths[|paths| - 1];
      LoadContents(init, files);
      assert paths == init + [last];
      forall e ensures Listed(paths, files, e) <==> Listed(init, files, e) || (last in files && e in files[last]) {
        ListedSnoc(init, last, files, e);
      }
    }
  }

  // Some entry of `core: configs:` names the file.
  ghost predicate Named(configs: seq<Location>, path: string) {
    exists l :: l in configs && path in FilesOf(l)
  }

  lemma NamedSnoc(configs: seq<Location>, last: Location, path: string)
    ensures Named(configs + [last], path) <==> Named(configs, path) || path in FilesOf(last)
  {
    if Named(configs, path) {
      var l :| l in configs && path in FilesOf(l);
      assert l in configs + [last];
    }
    if path in FilesOf(last) {
      assert last in configs + [last];
    }
  }

  // Reading fails exactly when some file named by the configuration cannot be loaded, and otherwise
  // lists exactly the entries of the main file and of those files.
  lemma {:induction false} MergedContents(main: seq<Entry>, configs: seq<Location>, files: Files)
    ensures Merged(main, configs, files).Some? <==> forall p :: Named(configs, p) ==> p in files
    ensures Merged(main, configs, files).Some? ==>
              forall e :: e in Merged(main, configs, files).value
                     <==> e in main || exists p :: Named(configs, p) && e in files[p]
  {
    if configs == [] {
      assert forall p :: !Named(configs, p);
    } else {
      var init, last := configs[..|configs| - 1], configs[|configs| - 1];
      MergedContents(main, init, files);
      assert configs == init + [last];
      forall p ensures Named(configs, p) <==> Named(init, p) || p in Sort(FilesOf(last)) {
        NamedSnoc(init, last, p);
        SortSorts(FilesOf(last));
        assert p in multiset(Sort(FilesOf(last))) <==> p in multiset(FilesOf(last));
      }
      LoadContents(Sort(FilesOf(last)), files);
    }
  }
}
