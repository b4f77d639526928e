/** The dependency-tree builder (src/core/analyzer.ts).

    The filesystem is a value: the root package.json, the package.json found under
    `node_modules/<name>` for each name, and the sizes of the files the directory walk
    reports under `node_modules/<name>`. The visited set is a `set<string>` threaded
    through `BuildDependencyTree` and returned, which is how its in-place updates are
    shared between sibling calls. */
module Analyzer {
  import opened Wrappers
  import opened Records
  import opened Types

  /** What reading one package.json yields. */
  datatype FileState = Parsed(info: PackageInfo) | Unreadable(reason: string)

  /** The part of the filesystem the analyzer reads. */
  datatype Disk = Disk(
    root: FileState,                     // ./package.json
    manifests: map<string, FileState>,   // node_modules/<name>/package.json
    files: map<string, seq<nat>>)        // sizes of the files under node_modules/<name>

  /** `join('node_modules', name, 'package.json')` */
  function ManifestPath(name: string): string {
    "node_modules/" + name + "/package.json"
  }

  /** The runtime's message for a file that does not exist. */
  function NotFound(path: string): string {
    "ENOENT: no such file or directory, open '" + path + "'"
  }

  const ReadFailed: string := "Failed to read package.json: "

  /** The message `buildDependencyTree` throws for package `name`, wrapping `inner`. */
  function AnalyzeFailed(name: string, inner: string): string {
    "Failed to analyze dependency " + name + ": " + inner
  }

  /** `readPackageJson`: the parsed manifest, or the read or parse failure wrapped in
      one fixed prefix. */
  function ReadPackageJson(file: FileState): (r: Result<PackageInfo, string>)
    ensures r.Success? <==> file.Parsed?
    ensures file.Parsed? ==> r.value == file.info
    ensures file.Unreadable? ==> r.error == ReadFailed + file.reason
  {
    match file
    case Parsed(info) => Success(info)
    case Unreadable(reason) => Failure(ReadFailed + reason)
  }

  /** The manifest of an installed package, looked up by name alone whatever the depth. */
  function ManifestOf(disk: Disk, name: string): FileState {
    if name in disk.manifests then disk.manifests[name]
    else Unreadable(NotFound(ManifestPath(name)))
  }

  /** `packageInfo.dependencies || {}` */
  function DepsOf(info: PackageInfo): Record<string> {
    info.dependencies.GetOr([])
  }

  /** `packageInfo.devDependencies || {}` */
  function DevDepsOf(info: PackageInfo): Record<string> {
    info.devDependencies.GetOr([])
  }

  // ---------------------------------------------------------------------------
  // Version normalisation: `version.replace(/^\^|~/, '')`

  /** The position of the first `~` in `v`, or `|v|` when there is none. */
  function TildeIndex(v: string): (i: nat)
    ensures i <= |v|
    ensures i < |v| ==> v[i] == '~'
    ensures forall j :: 0 <= j < i ==> v[j] != '~'
  {
    if v == [] then 0
    else if v[0] == '~' then 0
    else 1 + TildeIndex(v[1..])
  }

  /** The regular expression `^\^|~` without the `g` flag removes its leftmost match
      only: a `^` at the start, or else the first `~` anywhere. */
  function StripRange(v: string): (r: string)
    ensures |v| > 0 && v[0] == '^' ==> r == v[1..]
    ensures !(|v| > 0 && v[0] == '^') && '~' !in v ==> r == v
    ensures !(|v| > 0 && v[0] == '^') && '~' in v ==>
              exists i :: 0 <= i < |v| && v[i] == '~' && '~' !in v[..i] && r == v[..i] + v[i + 1..]
  {
    if |v| > 0 && v[0] == '^' then v[1..]
    else
      var i := TildeIndex(v);
      if i < |v| then
        assert '~' !in v[..i];
        v[..i] + v[i + 1..]
      else
        v
  }

  /** The key under which a declared dependency entry is visited. */
  function EntryKey(entry: (string, string)): string {
    Key(entry.0, StripRange(entry.1))
  }

  // ---------------------------------------------------------------------------
  // Installed size

  /** The sum of a list of file sizes. */
  function Sum(sizes: seq<nat>): nat {
    if sizes == [] then 0 else Sum(sizes[..|sizes| - 1]) + sizes[|sizes| - 1]
  }

  /** The installed size of package `name`: the sum of the sizes of the files the walk
      reports, or 0 when the directory cannot be walked. */
  function DirSize(disk: Disk, name: string): nat {
    if name in disk.files then Sum(disk.files[name]) else 0
  }

  /** `getDependencySize`: walks `node_modules/<name>` adding up file sizes; any
      failure yields 0. The version is not consulted. */
  method GetDependencySize(disk: Disk, name: string, version: string) returns (size: nat)
    ensures size == DirSize(disk, name)
  {
    if name !in disk.files {
      return 0;
    }
    var sizes := disk.files[name];
    var totalSize := 0;
    var i := 0;
    while i < |sizes|
      invariant 0 <= i <= |sizes|
      invariant totalSize == Sum(sizes[..i])
    {
      assert sizes[..i + 1][..i] == sizes[..i];
      totalSize := totalSize + sizes[i];
      i := i + 1;
    }
    assert sizes[..i] == sizes;
    size := totalSize;
  }

  // ---------------------------------------------------------------------------
  // The tree builder, as a specification

  /** Every key any installed manifest can make the builder visit below the root. */
  function Universe(disk: Disk): set<string> {
    set n, i | n in disk.manifests && disk.manifests[n].Parsed? && 0 <= i < |DepsOf(disk.manifests[n].info)|
      :: EntryKey(DepsOf(disk.manifests[n].info)[i])
  }

  lemma DepsInUniverse(disk: Disk, name: string)
    requires name in disk.manifests && disk.manifests[name].Parsed?
    ensures forall i :: 0 <= i < |DepsOf(disk.manifests[name].info)| ==>
              EntryKey(DepsOf(disk.manifests[name].info)[i]) in Universe(disk)
  {
  }

  lemma TailWithin(u: set<string>, entries: Record<string>)
    requires entries != []
    requires forall i :: 0 <= i < |entries| ==> EntryKey(entries[i]) in u
    ensures forall i :: 0 <= i < |entries[1..]| ==> EntryKey(entries[1..][i]) in u
  {
  }

  lemma DiffShrinks(u: set<string>, a: set<string>, b: set<string>)
    requires a <= b
    ensures |u - b| <= |u - a|
  {
    assert u - a == (u - b) + ((u - a) - (u - b));
  }

  lemma AddKeyShrinks(u: set<string>, visited: set<string>, key: string)
    requires key !in visited
    ensures |u - (visited + {key})| < |(u + {key}) - visited|
  {
    assert (u + {key}) - visited == (u - (visited + {key})) + {key};
  }

  /** The stub returned for an occurrence whose key is already visited. */
  function Stub(name: string, version: string, isDev: bool): DependencyNode {
    DependencyNode(name, version, [], None, None, Some(isDev), Some(Key(name, version)), None)
  }

  /** The outcome of a step of the builder: the tree or the failure, the visited set
      after the step, and the keys the step expanded, in the order it expanded them. */
  datatype Outcome<T> = Outcome(result: Result<T, string>, visited: set<string>, expanded: seq<string>)

  /** No key occurs twice in `s`. */
  predicate Distinct(s: seq<string>) {
    forall i, j :: 0 <= i < j < |s| ==> s[i] != s[j]
  }

  /** `buildDependencyTree(name, version, visited, isDev)`: a stub if the key was
      visited; otherwise the key is added, the manifest read, the size computed and
      the manifest's runtime dependencies built in order, sharing the visited set. */
  function Build(disk: Disk, name: string, version: string, visited: set<string>, isDev: bool): (o: Outcome<DependencyNode>)
    ensures visited <= o.visited
    decreases |(Universe(disk) + {Key(name, version)}) - visited|, 0, 0
  {
    var key := Key(name, version);
    if key in visited then
      Outcome(Success(Stub(name, version, isDev)), visited, [])
    else
      var visited' := visited + {key};
      match ReadPackageJson(ManifestOf(disk, name))
      case Failure(e) => Outcome(Failure(AnalyzeFailed(name, e)), visited', [key])
      case Success(info) =>
        DepsInUniverse(disk, name);
        AddKeyShrinks(Universe(disk), visited, key);
        var children := BuildChildren(disk, DepsOf(info), [], visited', isDev);
        var expanded := [key] + children.expanded;
        match children.result
        case Failure(e) => Outcome(Failure(AnalyzeFailed(name, e)), children.visited, expanded)
        case Success(deps) =>
          var node := DependencyNode(name, info.version, deps, Some(DirSize(disk, name)),
                                     info.license, Some(isDev), None, None);
          Outcome(Success(node), children.visited, expanded)
  }

  /** The `for` loop over a manifest's runtime dependencies: `entries` are the ones
      still to build, `acc` the record filled so far. */
  function BuildChildren(disk: Disk, entries: Record<string>, acc: Record<DependencyNode>,
                         visited: set<string>, isDev: bool): (o: Outcome<Record<DependencyNode>>)
    requires forall i :: 0 <= i < |entries| ==> EntryKey(entries[i]) in Universe(disk)
    ensures visited <= o.visited
    decreases |Universe(disk) - visited|, 1, |entries|
  {
    if entries == [] then Outcome(Success(acc), visited, [])
    else
      var (depName, depVersion) := entries[0];
      assert EntryKey(entries[0]) in Universe(disk);
      assert Universe(disk) + {Key(depName, StripRange(depVersion))} == Universe(disk);
      var child := Build(disk, depName, StripRange(depVersion), visited, isDev);
      match child.result
      case Failure(e) => Outcome(Failure(e), child.visited, child.expanded)
      case Success(node) =>
        DiffShrinks(Universe(disk), visited, child.visited);
        var rest := BuildChildren(disk, entries[1..], Put(acc, depName, node), child.visited, isDev);
        Outcome(rest.result, rest.visited, child.expanded + rest.expanded)
  }

  // ---------------------------------------------------------------------------
  // The visited set: it only grows, and each key is expanded at most once

  /** The keys listed in `s`. */
  function Elems(s: seq<string>): set<string> {
    set k | k in s
  }

  /** A builder step adds to `visited` exactly the keys it expanded, each one new and
      none twice. */
  predicate Traced<T>(o: Outcome<T>, visited: set<string>) {
    && o.visited == visited + Elems(o.expanded)
    && Distinct(o.expanded)
    && Elems(o.expanded) !! visited
  }

  lemma TracedAppend<S, T>(first: Outcome<S>, rest: Outcome<T>, visited: set<string>)
    requires Traced(first, visited) && Traced(rest, first.visited)
    ensures Traced(Outcome(rest.result, rest.visited, first.expanded + rest.expanded), visited)
  {
    var e := first.expanded + rest.expanded;
    assert Elems(e) == Elems(first.expanded) + Elems(rest.expanded);
    forall i, j | 0 <= i < j < |e| ensures e[i] != e[j] {
      if j < |first.expanded| {
      } else if i >= |first.expanded| {
        assert e[i] == rest.expanded[i - |first.expanded|];
        assert e[j] == rest.expanded[j - |first.expanded|];
      } else {
        assert e[i] in Elems(first.expanded);
        assert e[j] == rest.expanded[j - |first.expanded|];
        assert e[j] in Elems(rest.expanded);
      }
    }
  }

  /** Each key is added to the visited set before its manifest is read and is never
      removed; a key already visited is never expanded again. */
  lemma {:induction false} BuildTraced(disk: Disk, name: string, version: string, visited: set<string>, isDev: bool)
    ensures Traced(Build(disk, name, version, visited, isDev), visited)
    decreases |(Universe(disk) + {Key(name, version)}) - visited|, 0, 0
  {
    var key := Key(name, version);
    if key !in visited {
      assert Elems([key]) == {key};
      if ManifestOf(disk, name).Parsed? {
        var visited' := visited + {key};
        DepsInUniverse(disk, name);
        AddKeyShrinks(Universe(disk), visited, key);
        BuildExpands(disk, name, version, visited, isDev);
        var children := BuildChildren(disk, DepsOf(ManifestOf(disk, name).info), [], visited', isDev);
        BuildChildrenTraced(disk, DepsOf(ManifestOf(disk, name).info), [], visited', isDev);
        TracedAppend(Outcome(Success(0), visited', [key]), children, visited);
      }
    }
  }

  lemma {:induction false} BuildChildrenTraced(disk: Disk, entries: Record<string>, acc: Record<DependencyNode>,
                                               visited: set<string>, isDev: bool)
    requires forall i :: 0 <= i < |entries| ==> EntryKey(entries[i]) in Universe(disk)
    ensures Traced(BuildChildren(disk, entries, acc, visited, isDev), visited)
    decreases |Universe(disk) - visited|, 1, |entries|
  {
    if entries != [] {
      var (depName, depVersion) := entries[0];
      ChildrenStep(disk, entries, acc, visited, isDev);
      assert Universe(disk) + {Key(depName, StripRange(depVersion))} == Universe(disk);
      var child := Build(disk, depName, StripRange(depVersion), visited, isDev);
      BuildTraced(disk, depName, StripRange(depVersion), visited, isDev);
      if child.result.Success? {
        DiffShrinks(Universe(disk), visited, child.visited);
        var rest := BuildChildren(disk, entries[1..], Put(acc, depName, child.result.value), child.visited, isDev);
        BuildChildrenTraced(disk, entries[1..], Put(acc, depName, child.result.value), child.visited, isDev);
        TracedAppend(child, rest, visited);
      }
    }
  }

  // ---------------------------------------------------------------------------
  // The tree builder as the source runs it

  /** An unvisited key with a readable manifest is expanded from its runtime
      dependencies, built with the key added to the visited set. */
  lemma BuildExpands(disk: Disk, name: string, version: string, visited: set<string>, isDev: bool)
    requires Key(name, version) !in visited
    requires ManifestOf(disk, name).Parsed?
    ensures var info := ManifestOf(disk, name).info;
            var c := BuildChildren(disk, DepsOf(info), [], visited + {Key(name, version)}, isDev);
            var o := Build(disk, name, version, visited, isDev);
            && o.visited == c.visited
            && o.expanded == [Key(name, version)] + c.expanded
            && (c.result.Failure? ==> o.result == Failure(AnalyzeFailed(name, c.result.error)))
            && (c.result.Success? ==>
                  o.result == Success(DependencyNode(name, info.version, c.result.value, Some(DirSize(disk, name)),
                                                     info.license, Some(isDev), None, None)))
  {
    DepsInUniverse(disk, name);
  }

  /** One turn of the loop over a manifest's dependencies: the first entry is built
      with the current visited set; a failure ends the loop, a success is stored and
      the loop goes on with the visited set the child left behind. */
  lemma ChildrenStep(disk: Disk, entries: Record<string>, acc: Record<DependencyNode>,
                     visited: set<string>, isDev: bool)
    requires entries != []
    requires forall i :: 0 <= i < |entries| ==> EntryKey(entries[i]) in Universe(disk)
    ensures forall i :: 0 <= i < |entries[1..]| ==> EntryKey(entries[1..][i]) in Universe(disk)
    ensures var child := Build(disk, entries[0].0, StripRange(entries[0].1), visited, isDev);
            var o := BuildChildren(disk, entries, acc, visited, isDev);
            && (child.result.Failure? ==>
                  o.result == Failure(child.result.error) && o.visited == child.visited && o.expanded == child.expanded)
            && (child.result.Success? ==>
                  var rest := BuildChildren(disk, entries[1..], Put(acc, entries[0].0, child.result.value), child.visited, isDev);
                  o.result == rest.result && o.visited == rest.visited && o.expanded == child.expanded + rest.expanded)
  {
    TailWithin(Universe(disk), entries);
  }

  /** `buildDependencyTree`: `visited` is the set on entry and `visitedOut` the same
      set after the call, with every key this call and its recursive calls added. */
  method BuildDependencyTree(disk: Disk, name: string, version: string, visited: set<string>, isDev: bool)
    returns (r: Result<DependencyNode, string>, visitedOut: set<string>)
    ensures r == Build(disk, name, version, visited, isDev).result
    ensures visitedOut == Build(disk, name, version, visited, isDev).visited
    decreases |(Universe(disk) + {Key(name, version)}) - visited|, 0
  {
    var key := Key(name, version);
    if key in visited {
      return Success(Stub(name, version, isDev)), visited;
    }
    visitedOut := visited + {key};
    var read := ReadPackageJson(ManifestOf(disk, name));
    if read.Failure? {
      return Failure(AnalyzeFailed(name, read.error)), visitedOut;
    }
    var info := read.value;
    var size := GetDependencySize(disk, name, version);
    var deps := DepsOf(info);
    DepsInUniverse(disk, name);
    AddKeyShrinks(Universe(disk), visited, key);
    BuildExpands(disk, name, version, visited, isDev);
    var children;
    children, visitedOut := BuildDependencies(disk, deps, visitedOut, isDev);
    if children.Failure? {
      return Failure(AnalyzeFailed(name, children.error)), visitedOut;
    }
    var dependencies := children.value;
    r := Success(DependencyNode(name, info.version, dependencies, Some(size), info.license, Some(isDev), None, None));
  }

  /** The `for` loop of `buildDependencyTree` over a manifest's runtime dependencies:
      each entry is built with the visited set the previous one left behind and
      stored under its name; the first failure ends the loop. */
  method BuildDependencies(disk: Disk, deps: Record<string>, visited: set<string>, isDev: bool)
    returns (r: Result<Record<DependencyNode>, string>, visitedOut: set<string>)
    requires forall i :: 0 <= i < |deps| ==> EntryKey(deps[i]) in Universe(disk)
    ensures r == BuildChildren(disk, deps, [], visited, isDev).result
    ensures visitedOut == BuildChildren(disk, deps, [], visited, isDev).visited
    decreases |Universe(disk) - visited|, 1
  {
    var dependencies: Record<DependencyNode> := [];
    visitedOut := visited;
    var entries := deps;
    while entries != []
      invariant visited <= visitedOut
      invariant forall j :: 0 <= j < |entries| ==> EntryKey(entries[j]) in Universe(disk)
      invariant BuildChildren(disk, entries, dependencies, visitedOut, isDev).result
             == BuildChildren(disk, deps, [], visited, isDev).result
      invariant BuildChildren(disk, entries, dependencies, visitedOut, isDev).visited
             == BuildChildren(disk, deps, [], visited, isDev).visited
      decreases |entries|
    {
      var (depName, depVersion) := entries[0];
      ChildrenStep(disk, entries, dependencies, visitedOut, isDev);
      assert Universe(disk) + {Key(depName, StripRange(depVersion))} == Universe(disk);
      DiffShrinks(Universe(disk), visited, visitedOut);
      var child, visitedNow := BuildDependencyTree(disk, depName, StripRange(depVersion), visitedOut, isDev);
      if child.Failure? {
        return Failure(child.error), visitedNow;
      }
      dependencies := Put(dependencies, depName, child.value);
      visitedOut := visitedNow;
      entries := entries[1..];
    }
    r := Success(dependencies);
  }

  // ---------------------------------------------------------------------------
  // The whole project

  /** One root-level loop of `analyzeProject`: every entry starts from a fresh, empty
      visited set and is stored under its name. */
  function BuildRoot(disk: Disk, entries: Record<string>, acc: Record<DependencyNode>, isDev: bool)
    : Result<Record<DependencyNode>, string>
    decreases |entries|
  {
    if entries == [] then Success(acc)
    else
      var (depName, depVersion) := entries[0];
      match Build(disk, depName, StripRange(depVersion), {}, isDev).result
      case Failure(e) => Failure(e)
      case Success(node) => BuildRoot(disk, entries[1..], Put(acc, depName, node), isDev)
  }

  /** `analyzeProject`: the root manifest's runtime dependencies, then its
      devDependencies, under a root that carries only name, version, license and
      dependencies. */
  function Analyze(disk: Disk): Result<DependencyNode, string> {
    match ReadPackageJson(disk.root)
    case Failure(e) => Failure(e)
    case Success(root) =>
      match BuildRoot(disk, DepsOf(root), [], false)
      case Failure(e) => Failure(e)
      case Success(runtime) =>
        match BuildRoot(disk, DevDepsOf(root), runtime, true)
        case Failure(e) => Failure(e)
        case Success(all) =>
          Success(DependencyNode(root.name, root.version, all, None, root.license, None, None, None))
  }

  /** One turn of a root-level loop. */
  lemma RootStep(disk: Disk, entries: Record<string>, acc: Record<DependencyNode>, isDev: bool)
    requires entries != []
    ensures var child := Build(disk, entries[0].0, StripRange(entries[0].1), {}, isDev).result;
            BuildRoot(disk, entries, acc, isDev)
            == if child.Failure? then Failure(child.error)
               else BuildRoot(disk, entries[1..], Put(acc, entries[0].0, child.value), isDev)
  {
  }

  /** The two root-level loops of `analyzeProject`: each entry is built from a fresh,
      empty visited set and stored under its name in the record filled so far. */
  method BuildRootEntries(disk: Disk, entries: Record<string>, acc: Record<DependencyNode>, isDev: bool)
    returns (r: Result<Record<DependencyNode>, string>)
    ensures r == BuildRoot(disk, entries, acc, isDev)
  {
    var dependencies := acc;
    var rest := entries;
    while rest != []
      invariant BuildRoot(disk, rest, dependencies, isDev) == BuildRoot(disk, entries, acc, isDev)
      decreases |rest|
    {
      var (name, version) := rest[0];
      RootStep(disk, rest, dependencies, isDev);
      var child, _ := BuildDependencyTree(disk, name, StripRange(version), {}, isDev);
      if child.Failure? {
        return Failure(child.error);
      }
      dependencies := Put(dependencies, name, child.value);
      rest := rest[1..];
    }
    return Success(dependencies);
  }

  /** `analyzeProject(options)`: the options are never consulted. */
  method AnalyzeProject(disk: Disk, options: AnalysisOptions) returns (r: Result<DependencyNode, string>)
    ensures r == Analyze(disk)
  {
    var read := ReadPackageJson(disk.root);
    if read.Failure? {
      return Failure(read.error);
    }
    var rootPackage := read.value;
    var runtime := BuildRootEntries(disk, DepsOf(rootPackage), [], false);
    if runtime.Failure? {
      return Failure(runtime.error);
    }
    var all := BuildRootEntries(disk, DevDepsOf(rootPackage), runtime.value, true);
    if all.Failure? {
      return Failure(all.error);
    }
    var dependencies := all.value;
    r := Success(DependencyNode(rootPackage.name, rootPackage.version, dependencies, None, rootPackage.license, None, None, None));
  }

  // ---------------------------------------------------------------------------
  // The shape of what the builder returns

  /** A duplicate occurrence costs no manifest read: whatever is installed, the result
      is a childless stub recording the key, the declared version and the inherited
      dev flag, and the visited set is left as it was. */
  lemma StubIgnoresDisk(disk: Disk, other: Disk, name: string, version: string, visited: set<string>, isDev: bool)
    requires Key(name, version) in visited
    ensures Build(disk, name, version, visited, isDev) == Build(other, name, version, visited, isDev)
    ensures var o := Build(disk, name, version, visited, isDev);
            && o.visited == visited && o.expanded == []
            && o.result == Success(DependencyNode(name, version, [], None, None, Some(isDev), Some(Key(name, version)), None))
  {
  }

  /** Every node of a built subtree carries the dev flag of the edge it was reached
      through; a stub has no children, no size and no license; an expanded node has
      a size; every dependency record has distinct keys; nothing is marked outdated. */
  predicate Resolved(node: DependencyNode, isDev: bool)
    decreases node
  {
    && node.isDevDependency == Some(isDev)
    && node.outdated.None?
    && (node.duplicateOf.Some? ==> node.dependencies == [] && node.size.None? && node.license.None?)
    && (node.duplicateOf.None? ==> node.size.Some?)
    && UniqueKeys(node.dependencies)
    && forall i :: 0 <= i < |node.dependencies| ==> Resolved(node.dependencies[i].1, isDev)
  }

  /** Every value of a record is `Resolved`. */
  predicate ResolvedAll(r: Record<DependencyNode>, isDev: bool) {
    forall i :: 0 <= i < |r| ==> Resolved(r[i].1, isDev)
  }

  lemma ResolvedPut(r: Record<DependencyNode>, k: string, node: DependencyNode, isDev: bool)
    requires ResolvedAll(r, isDev) && Resolved(node, isDev)
    ensures ResolvedAll(Put(r, k, node), isDev)
  {
    var r' := Put(r, k, node);
    if k in KeySet(r) {
      var i := Find(r, k);
      assert r' == r[i := (k, node)];
    }
  }

  /** The dev flag is passed unchanged to every recursive call, and every node has the
      shape its case calls for. */
  lemma {:induction false} BuildResolved(disk: Disk, name: string, version: string, visited: set<string>, isDev: bool)
    ensures var o := Build(disk, name, version, visited, isDev);
            o.result.Success? ==> Resolved(o.result.value, isDev)
    decreases |(Universe(disk) + {Key(name, version)}) - visited|, 0, 0
  {
    var key := Key(name, version);
    if key !in visited {
      var visited' := visited + {key};
      match ReadPackageJson(ManifestOf(disk, name))
      case Failure(e) =>
      case Success(info) =>
        DepsInUniverse(disk, name);
        AddKeyShrinks(Universe(disk), visited, key);
        BuildChildrenResolved(disk, DepsOf(info), [], visited', isDev);
    }
  }

  lemma {:induction false} BuildChildrenResolved(disk: Disk, entries: Record<string>, acc: Record<DependencyNode>,
                                                 visited: set<string>, isDev: bool)
    requires forall i :: 0 <= i < |entries| ==> EntryKey(entries[i]) in Universe(disk)
    requires UniqueKeys(acc) && ResolvedAll(acc, isDev)
    ensures var o := BuildChildren(disk, entries, acc, visited, isDev);
            o.result.Success? ==> UniqueKeys(o.result.value) && ResolvedAll(o.result.value, isDev)
    decreases |Universe(disk) - visited|, 1, |entries|
  {
    if entries != [] {
      var (depName, depVersion) := entries[0];
      ChildrenStep(disk, entries, acc, visited, isDev);
      assert Universe(disk) + {Key(depName, StripRange(depVersion))} == Universe(disk);
      var child := Build(disk, depName, StripRange(depVersion), visited, isDev);
      BuildResolved(disk, depName, StripRange(depVersion), visited, isDev);
      if child.result.Success? {
        DiffShrinks(Universe(disk), visited, child.visited);
        ResolvedPut(acc, depName, child.result.value, isDev);
        BuildChildrenResolved(disk, entries[1..], Put(acc, depName, child.result.value), child.visited, isDev);
      }
    }
  }

  /** The children of an expanded node are keyed exactly by its manifest's runtime
      dependencies, in their order: the record the loop fills ends up with the keys
      it started with followed by the keys of the entries. */
  lemma {:induction false} BuildChildrenKeys(disk: Disk, entries: Record<string>, acc: Record<DependencyNode>,
                                             visited: set<string>, isDev: bool)
    requires forall i :: 0 <= i < |entries| ==> EntryKey(entries[i]) in Universe(disk)
    requires Distinct(Keys(acc) + Keys(entries))
    ensures var o := BuildChildren(disk, entries, acc, visited, isDev);
            o.result.Success? ==> Keys(o.result.value) == Keys(acc) + Keys(entries)
    decreases |Universe(disk) - visited|, 1, |entries|
  {
    if entries != [] {
      var (depName, depVersion) := entries[0];
      ChildrenStep(disk, entries, acc, visited, isDev);
      assert Universe(disk) + {Key(depName, StripRange(depVersion))} == Universe(disk);
      var child := Build(disk, depName, StripRange(depVersion), visited, isDev);
      if child.result.Success? {
        DiffShrinks(Universe(disk), visited, child.visited);
        HeadIsNew(acc, entries);
        var acc' := Put(acc, depName, child.result.value);
        KeysShift(acc, entries, child.result.value);
        BuildChildrenKeys(disk, entries[1..], acc', child.visited, isDev);
        assert BuildChildren(disk, entries, acc, visited, isDev).result
            == BuildChildren(disk, entries[1..], acc', child.visited, isDev).result;
      }
    }
  }

  /** With distinct keys, the name of the next entry is not yet in the record. */
  lemma HeadIsNew(acc: Record<DependencyNode>, entries: Record<string>)
    requires entries != []
    requires Distinct(Keys(acc) + Keys(entries))
    ensures entries[0].0 !in KeySet(acc)
  {
    var ks := Keys(acc) + Keys(entries);
    forall t | 0 <= t < |acc| ensures acc[t].0 != entries[0].0 {
      assert ks[t] == acc[t].0 && ks[|acc|] == entries[0].0;
    }
  }

  lemma KeysShift(acc: Record<DependencyNode>, entries: Record<string>, node: DependencyNode)
    requires entries != []
    ensures Keys(acc + [(entries[0].0, node)]) + Keys(entries[1..]) == Keys(acc) + Keys(entries)
  {
    var l := Keys(acc + [(entries[0].0, node)]) + Keys(entries[1..]);
    var r := Keys(acc) + Keys(entries);
    assert |l| == |r|;
    forall i | 0 <= i < |l| ensures l[i] == r[i] {
      if i < |acc| {
      } else if i == |acc| {
      } else {
        assert l[i] == entries[1..][i - |acc| - 1].0;
      }
    }
  }

  /** An expanded node takes its version and license from the installed manifest, not
      the declared version; its size from the directory walk; and one child per entry
      of the manifest's `dependencies`, in order. The manifest's devDependencies play
      no part. */
  lemma ExpandedNode(disk: Disk, name: string, version: string, visited: set<string>, isDev: bool)
    requires Key(name, version) !in visited
    requires name in disk.manifests && disk.manifests[name].Parsed?
    requires Distinct(Keys(DepsOf(disk.manifests[name].info)))
    ensures var info := disk.manifests[name].info;
            var o := Build(disk, name, version, visited, isDev);
            o.result.Success? ==>
              && o.result.value.name == name
              && o.result.value.version == info.version
              && o.result.value.license == info.license
              && o.result.value.size == Some(DirSize(disk, name))
              && o.result.value.duplicateOf.None?
              && Keys(o.result.value.dependencies) == Keys(DepsOf(info))
  {
    var info := disk.manifests[name].info;
    DepsInUniverse(disk, name);
    assert Keys<DependencyNode>([]) + Keys(DepsOf(info)) == Keys(DepsOf(info));
    BuildChildrenKeys(disk, DepsOf(info), [], visited + {Key(name, version)}, isDev);
  }

  /** A dependency whose manifest cannot be read fails with the reason wrapped first
      by the read and then by the builder. */
  lemma MissingManifest(disk: Disk, name: string, version: string, visited: set<string>, isDev: bool)
    requires Key(name, version) !in visited
    requires name !in disk.manifests
    ensures Build(disk, name, version, visited, isDev).result
         == Failure(AnalyzeFailed(name, ReadFailed + NotFound(ManifestPath(name))))
  {
  }

  /** A failure anywhere below a node is reported under that node's name: the message
      starts with "Failed to analyze dependency <name>: ". */
  lemma BuildFailurePrefix(disk: Disk, name: string, version: string, visited: set<string>, isDev: bool)
    ensures var o := Build(disk, name, version, visited, isDev);
            o.result.Failure? ==> exists inner :: o.result.error == AnalyzeFailed(name, inner)
  {
    var o := Build(disk, name, version, visited, isDev);
    if Key(name, version) !in visited {
      var read := ReadPackageJson(ManifestOf(disk, name));
      if read.Failure? {
        assert o.result.error == AnalyzeFailed(name, read.error);
      } else {
        BuildExpands(disk, name, version, visited, isDev);
        DepsInUniverse(disk, name);
        var c := BuildChildren(disk, DepsOf(read.value), [], visited + {Key(name, version)}, isDev);
        if c.result.Failure? {
          assert o.result.error == AnalyzeFailed(name, c.result.error);
        }
      }
    }
  }

  // ---------------------------------------------------------------------------
  // Duplicate collapse within one root-level branch

  /** Every manifest on disk lists each runtime dependency once, as a JSON object does. */
  predicate ValidDisk(disk: Disk) {
    forall n :: n in disk.manifests && disk.manifests[n].Parsed? ==> Distinct(Keys(DepsOf(disk.manifests[n].info)))
  }

  /** The number of fully expanded (non-stub) nodes in a tree. */
  function ExpandedCount(node: DependencyNode): nat
    decreases node, 1
  {
    (if node.duplicateOf.None? then 1 else 0) + ExpandedFrom(node, 0)
  }

  function ExpandedFrom(node: DependencyNode, i: nat): nat
    requires i <= |node.dependencies|
    decreases node, 0, |node.dependencies| - i
  {
    if i == |node.dependencies| then 0
    else ExpandedCount(node.dependencies[i].1) + ExpandedFrom(node, i + 1)
  }

  /** The number of expanded nodes under the values of a record. */
  function ExpandedIn(r: Record<DependencyNode>): nat {
    if r == [] then 0 else ExpandedCount(r[0].1) + ExpandedIn(r[1..])
  }

  lemma {:induction false} ExpandedFromIn(node: DependencyNode, i: nat)
    requires i <= |node.dependencies|
    ensures ExpandedFrom(node, i) == ExpandedIn(node.dependencies[i..])
    decreases |node.dependencies| - i
  {
    if i < |node.dependencies| {
      ExpandedFromIn(node, i + 1);
      assert node.dependencies[i..][1..] == node.dependencies[i + 1..];
    }
  }

  lemma {:induction false} ExpandedInAppend(r: Record<DependencyNode>, k: string, node: DependencyNode)
    ensures ExpandedIn(r + [(k, node)]) == ExpandedIn(r) + ExpandedCount(node)
  {
    if r != [] {
      assert (r + [(k, node)])[1..] == r[1..] + [(k, node)];
      ExpandedInAppend(r[1..], k, node);
    }
  }

  /** Every stub in the tree refers to a key in `keys`. */
  predicate StubsIn(node: DependencyNode, keys: set<string>)
    decreases node
  {
    && (node.duplicateOf.Some? ==> node.duplicateOf.value in keys)
    && forall i :: 0 <= i < |node.dependencies| ==> StubsIn(node.dependencies[i].1, keys)
  }

  lemma {:induction false} StubsInGrow(node: DependencyNode, keys: set<string>, more: set<string>)
    requires StubsIn(node, keys) && keys <= more
    ensures StubsIn(node, more)
    decreases node
  {
    forall i | 0 <= i < |node.dependencies| ensures StubsIn(node.dependencies[i].1, more) {
      StubsInGrow(node.dependencies[i].1, keys, more);
    }
  }

  lemma StubsInAll(node: DependencyNode, keys: set<string>)
    requires forall i :: 0 <= i < |node.dependencies| ==> StubsIn(node.dependencies[i].1, keys)
    requires node.duplicateOf.None?
    ensures StubsIn(node, keys)
  {
  }

  /** What one step of the builder contributes: as many expanded nodes as keys it
      expanded, and stubs only for keys visited by the time it finished. */
  lemma {:induction false} BuildCounted(disk: Disk, name: string, version: string, visited: set<string>, isDev: bool)
    requires ValidDisk(disk)
    ensures var o := Build(disk, name, version, visited, isDev);
            o.result.Success? ==> ExpandedCount(o.result.value) == |o.expanded| && StubsIn(o.result.value, o.visited)
    decreases |(Universe(disk) + {Key(name, version)}) - visited|, 0, 0
  {
    var key := Key(name, version);
    if key !in visited {
      var visited' := visited + {key};
      match ReadPackageJson(ManifestOf(disk, name))
      case Failure(e) =>
      case Success(info) =>
        DepsInUniverse(disk, name);
        AddKeyShrinks(Universe(disk), visited, key);
        var children := BuildChildren(disk, DepsOf(info), [], visited', isDev);
        assert Keys<DependencyNode>([]) + Keys(DepsOf(info)) == Keys(DepsOf(info));
        BuildChildrenCounted(disk, DepsOf(info), [], visited', isDev);
        if children.result.Success? {
          var node := Build(disk, name, version, visited, isDev).result.value;
          assert node.dependencies == children.result.value;
          ExpandedFromIn(node, 0);
          assert node.dependencies[0..] == node.dependencies;
          StubsInAll(node, children.visited);
        }
    }
  }

  lemma {:induction false} BuildChildrenCounted(disk: Disk, entries: Record<string>, acc: Record<DependencyNode>,
                                                visited: set<string>, isDev: bool)
    requires ValidDisk(disk)
    requires forall i :: 0 <= i < |entries| ==> EntryKey(entries[i]) in Universe(disk)
    requires Distinct(Keys(acc) + Keys(entries))
    requires forall i :: 0 <= i < |acc| ==> StubsIn(acc[i].1, visited)
    ensures var o := BuildChildren(disk, entries, acc, visited, isDev);
            o.result.Success? ==>
              && ExpandedIn(o.result.value) == ExpandedIn(acc) + |o.expanded|
              && forall i :: 0 <= i < |o.result.value| ==> StubsIn(o.result.value[i].1, o.visited)
    decreases |Universe(disk) - visited|, 1, |entries|
  {
    if entries != [] {
      var (depName, depVersion) := entries[0];
      ChildrenStep(disk, entries, acc, visited, isDev);
      assert Universe(disk) + {Key(depName, StripRange(depVersion))} == Universe(disk);
      var child := Build(disk, depName, StripRange(depVersion), visited, isDev);
      BuildCounted(disk, depName, StripRange(depVersion), visited, isDev);
      if child.result.Success? {
        DiffShrinks(Universe(disk), visited, child.visited);
        HeadIsNew(acc, entries);
        var acc' := Put(acc, depName, child.result.value);
        KeysShift(acc, entries, child.result.value);
        ExpandedInAppend(acc, depName, child.result.value);
        StubsAppend(acc, depName, child.result.value, visited, child.visited);
        TailWithin(Universe(disk), entries);
        BuildChildrenCounted(disk, entries[1..], acc', child.visited, isDev);
        assert BuildChildren(disk, entries, acc, visited, isDev).result
            == BuildChildren(disk, entries[1..], acc', child.visited, isDev).result;
      }
    }
  }

  lemma StubsAppend(acc: Record<DependencyNode>, k: string, node: DependencyNode, keys: set<string>, more: set<string>)
    requires forall i :: 0 <= i < |acc| ==> StubsIn(acc[i].1, keys)
    requires keys <= more && StubsIn(node, more)
    ensures forall i :: 0 <= i < |acc + [(k, node)]| ==> StubsIn((acc + [(k, node)])[i].1, more)
  {
    forall i | 0 <= i < |acc| ensures StubsIn(acc[i].1, more) {
      StubsInGrow(acc[i].1, keys, more);
    }
  }

  /** Duplicate collapse: within the branch of one root-level entry, which starts from
      an empty visited set, the expanded nodes are as many as the distinct keys
      visited, no key is expanded twice, and every other occurrence is a stub naming
      one of those keys. */
  lemma BranchExpandsEachKeyOnce(disk: Disk, name: string, version: string, isDev: bool)
    requires ValidDisk(disk)
    ensures var o := Build(disk, name, version, {}, isDev);
            o.result.Success? ==>
              && Distinct(o.expanded)
              && Elems(o.expanded) == o.visited
              && ExpandedCount(o.result.value) == |o.visited|
              && StubsIn(o.result.value, o.visited)
  {
    var o := Build(disk, name, version, {}, isDev);
    BuildTraced(disk, name, version, {}, isDev);
    BuildCounted(disk, name, version, {}, isDev);
    DistinctCard(o.expanded);
  }

  lemma {:induction false} DistinctCard(s: seq<string>)
    requires Distinct(s)
    ensures |Elems(s)| == |s|
  {
    if s != [] {
      DistinctCard(s[1..]);
      assert Elems(s) == {s[0]} + Elems(s[1..]);
      assert s[0] !in Elems(s[1..]);
    }
  }

  // ---------------------------------------------------------------------------
  // The root

  /** One root-level loop keeps the names already present in place and appends the
      new ones in order. */
  lemma {:induction false} BuildRootKeys(disk: Disk, entries: Record<string>, acc: Record<DependencyNode>, isDev: bool)
    requires Distinct(Keys(entries))
    ensures var r := BuildRoot(disk, entries, acc, isDev);
            r.Success? ==>
              && KeySet(r.value) == KeySet(acc) + KeySet(entries)
              && |r.value| >= |acc| && Keys(r.value)[..|acc|] == Keys(acc)
              && (KeySet(acc) !! KeySet(entries) ==> Keys(r.value) == Keys(acc) + Keys(entries))
    decreases |entries|
  {
    if entries != [] {
      var (name, version) := entries[0];
      var child := Build(disk, name, StripRange(version), {}, isDev).result;
      if child.Success? {
        var acc' := Put(acc, name, child.value);
        GetHead(entries);
        DistinctTail(entries);
        BuildRootKeys(disk, entries[1..], acc', isDev);
        var r := BuildRoot(disk, entries, acc, isDev);
        assert r == BuildRoot(disk, entries[1..], acc', isDev);
        if r.Success? {
          PrefixKeys(acc, name, child.value, r.value);
          if KeySet(acc) !! KeySet(entries) {
            KeysShift(acc, entries, child.value);
          }
        }
      }
    }
  }

  /** The order a root-level loop leaves: the names already present, in place, then
      the entries' names not already present, in declared order. Keys stay unique. */
  lemma {:induction false} BuildRootOrder(disk: Disk, entries: Record<string>, acc: Record<DependencyNode>, isDev: bool)
    requires Distinct(Keys(entries))
    ensures var r := BuildRoot(disk, entries, acc, isDev);
            r.Success? ==>
              && Keys(r.value) == Keys(acc) + Unseen(Keys(entries), KeySet(acc))
              && (UniqueKeys(acc) ==> UniqueKeys(r.value))
    decreases |entries|
  {
    if entries != [] {
      RootStep(disk, entries, acc, isDev);
      var child := Build(disk, entries[0].0, StripRange(entries[0].1), {}, isDev).result;
      if child.Success? {
        DistinctTail(entries);
        BuildRootOrder(disk, entries[1..], Put(acc, entries[0].0, child.value), isDev);
        var r := BuildRoot(disk, entries, acc, isDev);
        if r.Success? {
          RootOrderStep(entries, acc, child.value, r.value);
        }
      }
    }
  }

  lemma RootOrderStep(entries: Record<string>, acc: Record<DependencyNode>, node: DependencyNode, out: Record<DependencyNode>)
    requires entries != [] && Distinct(Keys(entries))
    requires var acc' := Put(acc, entries[0].0, node);
             Keys(out) == Keys(acc') + Unseen(Keys(entries[1..]), KeySet(acc'))
    ensures Keys(out) == Keys(acc) + Unseen(Keys(entries), KeySet(acc))
  {
    KeysCons(entries);
    DistinctHead(Keys(entries));
    PutUnseen(acc, entries[0].0, node, Keys(entries[1..]));
  }

  /** The first of distinct names does not occur again. */
  lemma DistinctHead(ks: seq<string>)
    requires ks != [] && Distinct(ks)
    ensures ks[0] !in ks[1..]
  {
    forall t | 0 <= t < |ks| - 1 ensures ks[1..][t] != ks[0] {
      assert ks[1..][t] == ks[t + 1];
    }
  }

  /** The rest of a record with distinct keys has distinct keys, none of them the first. */
  lemma DistinctTail<V>(entries: Record<V>)
    requires entries != [] && Distinct(Keys(entries))
    ensures Distinct(Keys(entries[1..]))
    ensures entries[0].0 !in KeySet(entries[1..])
  {
    assert Keys(entries[1..]) == Keys(entries)[1..];
    forall t | 0 <= t < |entries[1..]| ensures entries[1..][t].0 != entries[0].0 {
      assert Keys(entries)[t + 1] == entries[1..][t].0 && Keys(entries)[0] == entries[0].0;
    }
  }

  lemma PrefixKeys(acc: Record<DependencyNode>, name: string, node: DependencyNode, r: Record<DependencyNode>)
    requires |r| >= |Put(acc, name, node)| && Keys(r)[..|Put(acc, name, node)|] == Keys(Put(acc, name, node))
    ensures |r| >= |acc| && Keys(r)[..|acc|] == Keys(acc)
  {
    PutKeepsPrefix(acc, name, node);
    PrefixOfPrefix(Keys(r), Keys(Put(acc, name, node)), Keys(acc));
  }

  /** One root-level loop stores under each entry's name the subtree built for it from
      a fresh, empty visited set with the loop's dev flag; other names keep their value. */
  lemma {:induction false} BuildRootValues(disk: Disk, entries: Record<string>, acc: Record<DependencyNode>, isDev: bool)
    requires Distinct(Keys(entries))
    ensures var r := BuildRoot(disk, entries, acc, isDev);
            r.Success? ==>
              && (forall k :: k in KeySet(entries) ==>
                    Get(r.value, k).Some? &&
                    Build(disk, k, StripRange(Get(entries, k).value), {}, isDev).result == Success(Get(r.value, k).value))
              && (forall k :: k !in KeySet(entries) ==> Get(r.value, k) == Get(acc, k))
    decreases |entries|
  {
    if entries != [] {
      var (name, version) := entries[0];
      var child := Build(disk, name, StripRange(version), {}, isDev).result;
      if child.Success? {
        var acc' := Put(acc, name, child.value);
        GetHead(entries);
        DistinctTail(entries);
        BuildRootValues(disk, entries[1..], acc', isDev);
        var r := BuildRoot(disk, entries, acc, isDev);
        assert r == BuildRoot(disk, entries[1..], acc', isDev);
        if r.Success? {
          forall k | k in KeySet(entries)
            ensures Get(r.value, k).Some?
            ensures Build(disk, k, StripRange(Get(entries, k).value), {}, isDev).result == Success(Get(r.value, k).value)
          {
            if k != name {
              GetTail(entries, k);
            }
          }
        }
      }
    }
  }

  /** `analyzeProject`: the root carries the root manifest's name, version and license
      and nothing else; its children are the runtime dependencies in declared order,
      followed by the devDependencies not already present (a devDependency that is
      also a runtime dependency keeps the runtime entry's position). */
  lemma AnalyzeRoot(disk: Disk)
    requires disk.root.Parsed?
    requires Distinct(Keys(DepsOf(disk.root.info))) && Distinct(Keys(DevDepsOf(disk.root.info)))
    ensures var info := disk.root.info;
            var r := Analyze(disk);
            r.Success? ==>
              && r.value.name == info.name && r.value.version == info.version && r.value.license == info.license
              && r.value.size.None? && r.value.isDevDependency.None? && r.value.duplicateOf.None? && r.value.outdated.None?
              && KeySet(r.value.dependencies) == KeySet(DepsOf(info)) + KeySet(DevDepsOf(info))
              && |r.value.dependencies| >= |DepsOf(info)|
              && Keys(r.value.dependencies)[..|DepsOf(info)|] == Keys(DepsOf(info))
  {
    var info := disk.root.info;
    var deps := DepsOf(info);
    var runtime := BuildRoot(disk, deps, [], false);
    if runtime.Success? {
      var all := BuildRoot(disk, DevDepsOf(info), runtime.value, true);
      if all.Success? {
        assert Analyze(disk) == Success(DependencyNode(info.name, info.version, all.value, None, info.license, None, None, None));
        assert Keys(runtime.value) == Keys(deps) by {
          BuildRootKeys(disk, deps, [], false);
          assert Keys<DependencyNode>([]) + Keys(deps) == Keys(deps);
        }
        assert Keys(all.value)[..|runtime.value|] == Keys(runtime.value) by {
          BuildRootKeys(disk, DevDepsOf(info), runtime.value, true);
        }
        assert KeySet(all.value) == KeySet(deps) + KeySet(DevDepsOf(info)) by {
          BuildRootKeys(disk, deps, [], false);
          BuildRootKeys(disk, DevDepsOf(info), runtime.value, true);
        }
      }
    }
  }

  /** The order of the root's children, which is the order of the rendered lines and
      of the table rows: the runtime dependencies in declared order, then the
      devDependencies that are not also runtime dependencies, in declared order. No
      name occurs twice. */
  lemma AnalyzeOrder(disk: Disk)
    requires disk.root.Parsed?
    requires Distinct(Keys(DepsOf(disk.root.info))) && Distinct(Keys(DevDepsOf(disk.root.info)))
    ensures var info := disk.root.info;
            var r := Analyze(disk);
            r.Success? ==>
              && Keys(r.value.dependencies) == Keys(DepsOf(info)) + Unseen(Keys(DevDepsOf(info)), KeySet(DepsOf(info)))
              && UniqueKeys(r.value.dependencies)
  {
    var info := disk.root.info;
    var deps := DepsOf(info);
    var runtime := BuildRoot(disk, deps, [], false);
    if runtime.Success? {
      var all := BuildRoot(disk, DevDepsOf(info), runtime.value, true);
      if all.Success? {
        assert Analyze(disk).value.dependencies == all.value;
        FirstLoopOrder(disk, deps);
        SecondLoopOrder(disk, DevDepsOf(info), runtime.value, deps);
      }
    }
  }

  /** The runtime loop starts from an empty object, so it appends every name. */
  lemma FirstLoopOrder(disk: Disk, deps: Record<string>)
    requires Distinct(Keys(deps))
    ensures var r := BuildRoot(disk, deps, [], false);
            r.Success? ==> Keys(r.value) == Keys(deps) && UniqueKeys(r.value)
  {
    var empty: Record<DependencyNode> := [];
    BuildRootOrder(disk, deps, empty, false);
    assert KeySet(empty) == {};
    UnseenNone(Keys(deps));
    assert Keys(empty) + Keys(deps) == Keys(deps);
  }

  /** The devDependencies loop starts from the runtime loop's object. */
  lemma SecondLoopOrder(disk: Disk, devDeps: Record<string>, runtime: Record<DependencyNode>, deps: Record<string>)
    requires Distinct(Keys(devDeps))
    requires Keys(runtime) == Keys(deps) && UniqueKeys(runtime)
    ensures var r := BuildRoot(disk, devDeps, runtime, true);
            r.Success? ==>
              && Keys(r.value) == Keys(deps) + Unseen(Keys(devDeps), KeySet(deps))
              && UniqueKeys(r.value)
  {
    BuildRootOrder(disk, devDeps, runtime, true);
    assert KeySet(runtime) == KeySet(deps) by {
      forall k ensures k in KeySet(runtime) <==> k in KeySet(deps) {
        if k in KeySet(runtime) {
          var t :| 0 <= t < |runtime| && runtime[t].0 == k;
          assert Keys(deps)[t] == k;
        }
        if k in KeySet(deps) {
          var t :| 0 <= t < |deps| && deps[t].0 == k;
          assert Keys(runtime)[t] == k;
        }
      }
    }
  }

  /** Each child of the root is the subtree built for its entry from a fresh visited
      set, so nothing collapses across root entries; a devDependency replaces the
      runtime entry of the same name; and every node under a child carries that
      child's dev flag. */
  lemma AnalyzeChildren(disk: Disk)
    requires disk.root.Parsed?
    requires Distinct(Keys(DepsOf(disk.root.info))) && Distinct(Keys(DevDepsOf(disk.root.info)))
    ensures var deps := DepsOf(disk.root.info);
            var devDeps := DevDepsOf(disk.root.info);
            var r := Analyze(disk);
            r.Success? ==>
              && (forall k :: k in KeySet(devDeps) ==>
                    && Get(r.value.dependencies, k).Some?
                    && Build(disk, k, StripRange(Get(devDeps, k).value), {}, true).result == Success(Get(r.value.dependencies, k).value)
                    && Resolved(Get(r.value.dependencies, k).value, true))
              && (forall k :: k in KeySet(deps) && k !in KeySet(devDeps) ==>
                    && Get(r.value.dependencies, k).Some?
                    && Build(disk, k, StripRange(Get(deps, k).value), {}, false).result == Success(Get(r.value.dependencies, k).value)
                    && Resolved(Get(r.value.dependencies, k).value, false))
  {
    var deps := DepsOf(disk.root.info);
    var devDeps := DevDepsOf(disk.root.info);
    BuildRootValues(disk, deps, [], false);
    var runtime := BuildRoot(disk, deps, [], false);
    if runtime.Success? {
      BuildRootValues(disk, devDeps, runtime.value, true);
      var all := BuildRoot(disk, devDeps, runtime.value, true);
      if all.Success? {
        forall k | k in KeySet(devDeps) ensures Resolved(Get(all.value, k).value, true) {
          BuildResolved(disk, k, StripRange(Get(devDeps, k).value), {}, true);
        }
        forall k | k in KeySet(deps) && k !in KeySet(devDeps) ensures Resolved(Get(all.value, k).value, false) {
          BuildResolved(disk, k, StripRange(Get(deps, k).value), {}, false);
        }
      }
    }
  }

  /** An unreadable root manifest aborts the analysis with the read error, unwrapped. */
  lemma RootUnreadable(disk: Disk)
    requires disk.root.Unreadable?
    ensures Analyze(disk) == Failure(ReadFailed + disk.root.reason)
  {
  }
}
