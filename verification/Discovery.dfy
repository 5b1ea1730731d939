/**
 * The classification of the Python files below the configured roots. Roots may lie inside one another,
 * and files may be met several times on the walk; every file belongs to the deepest root above it,
 * whatever the order of the configuration.
 */
module Discovery {
  import opened Options
  import opened Ownership
  import opened OwnershipOrder
  import opened ProjectPaths
  import opened Sorting

  datatype ScopeRoot = ScopeRoot(scope: ScopeName, path: Path)

  /** One file met while walking a root; `parts` is its path below the root where the walker gives it. */
  datatype Entry = Entry(isSymlink: bool, resolved: Path, parts: Option<Path>)

  datatype ScopedFile = ScopedFile(path: Path, root: Path, scope: ScopeName, relativeParts: Path,
                                   owner: Option<OwnershipRoot>,
                                   ownershipParts: Path)

  // ---------- Configured roots ----------

  function PathsOf(sources: seq<Source>): (paths: seq<Path>)
    ensures |paths| == |sources| && forall i :: 0 <= i < |paths| ==> paths[i] == sources[i].path
  {
    seq(|sources|, i requires 0 <= i < |sources| => sources[i].path)
  }

  function RootsOf(scope: ScopeName, paths: seq<Path>): (roots: seq<ScopeRoot>)
    ensures |roots| == |paths| && forall i :: 0 <= i < |roots| ==> roots[i] == ScopeRoot(scope, paths[i])
  {
    seq(|paths|, i requires 0 <= i < |paths| => ScopeRoot(scope, paths[i]))
  }

  function Configured(layout: Layout): seq<ScopeRoot> {
    RootsOf(Root, PathsOf(layout.runtimeSources)) + RootsOf(Test, layout.testRoots)
    + RootsOf(Tooling, PathsOf(layout.toolingSources))
  }

  function Depth(root: ScopeRoot): int {
    |root.path|
  }

  // ---------- What a file is ----------

  /** `root` is the deepest of `roots` above `path`. */
  ghost predicate IsDeepest(roots: seq<ScopeRoot>, path: Path, root: ScopeRoot) {
    && root in roots && Under(path, root.path)
    && forall r <- roots | Under(path, r.path) :: |r.path| <= |root.path|
  }

  /** No path is a root of two scopes. */
  ghost predicate OneScopeEach(roots: seq<ScopeRoot>) {
    forall r, s | r in roots && s in roots && r.path == s.path :: r.scope == s.scope
  }

  lemma DeepestIsUnique(roots: seq<ScopeRoot>, path: Path, r: ScopeRoot, s: ScopeRoot)
    requires OneScopeEach(roots) && IsDeepest(roots, path, r) && IsDeepest(roots, path, s)
    ensures r == s
  {
    assert r.path == path[..|r.path|] && s.path == path[..|s.path|];
  }

  function Classified(path: Path, root: ScopeRoot, layout: Layout): ScopedFile
    requires Under(path, root.path)
  {
    var relative := path[|root.path|..];
    var position := OwnershipPosition(path, relative, root.scope, layout);
    ScopedFile(path, root.path, root.scope, relative, position.owner, position.parts)
  }

  /** `file` is what the layout makes of its path. */
  ghost predicate IsClassified(layout: Layout, file: ScopedFile) {
    exists root :: IsDeepest(Configured(layout), file.path, root) && file == Classified(file.path, root, layout)
  }

  /** `path` is a configured root of the scope. */
  ghost predicate IsRootOf(layout: Layout, scope: ScopeName, path: Path) {
    match scope
    case Root => exists s <- layout.runtimeSources :: s.path == path
    case Test => path in layout.testRoots
    case Tooling => exists s <- layout.toolingSources :: s.path == path
  }

  /** No configured root above the path is deeper. */
  ghost predicate DeepestRoot(layout: Layout, path: Path, root: Path) {
    forall scope, p: Path | IsRootOf(layout, scope, p) && p <= path :: |p| <= |root|
  }

  /**
   * A file stands below a root of its scope, no other configured root above it is deeper, and its owner and
   * owned part are those of its scope.
   */
  ghost predicate Placed(layout: Layout, file: ScopedFile) {
    && IsRootOf(layout, file.scope, file.root) && file.path == file.root + file.relativeParts
    && DeepestRoot(layout, file.path, file.root)
    && Positioned(file.path, file.relativeParts, file.scope, layout, file.owner, file.ownershipParts)
  }

  lemma ConfiguredMeaning(layout: Layout, r: ScopeRoot)
    ensures r in Configured(layout) <==> IsRootOf(layout, r.scope, r.path)
  {
    RootIn(Root, PathsOf(layout.runtimeSources), r);
    RootIn(Test, layout.testRoots, r);
    RootIn(Tooling, PathsOf(layout.toolingSources), r);
    PathIn(layout.runtimeSources, r.path);
    PathIn(layout.toolingSources, r.path);
  }

  lemma PathIn(sources: seq<Source>, path: Path)
    ensures path in PathsOf(sources) <==> exists s <- sources :: s.path == path
  {
    if s :| s in sources && s.path == path {
      var i :| 0 <= i < |sources| && sources[i] == s;
      assert PathsOf(sources)[i] == path;
    }
  }

  lemma DeepestMeaning(layout: Layout, path: Path, root: ScopeRoot)
    requires IsDeepest(Configured(layout), path, root)
    ensures IsRootOf(layout, root.scope, root.path) && root.path <= path && DeepestRoot(layout, path, root.path)
  {
    ConfiguredMeaning(layout, root);
    forall scope, p: Path | IsRootOf(layout, scope, p) && p <= path ensures |p| <= |root.path| {
      ConfiguredMeaning(layout, ScopeRoot(scope, p));
      assert ScopeRoot(scope, p) in Configured(layout) && Under(path, p);
    }
  }

  lemma BelowRoot(path: Path, root: Path)
    requires root <= path
    ensures path == root + path[|root|..]
  {
  }

  lemma ClassifiedIsPlaced(layout: Layout, file: ScopedFile)
    requires IsClassified(layout, file)
    ensures Placed(layout, file)
  {
    var root :| IsDeepest(Configured(layout), file.path, root) && file == Classified(file.path, root, layout);
    DeepestMeaning(layout, file.path, root);
    BelowRoot(file.path, root.path);
    PositionMeaning(file.path, file.path[|root.path|..], root.scope, layout);
  }

  // ---------- The walk ----------

  /** Walking `root` meets exactly the files below it, besides links and files that resolve elsewhere. */
  ghost predicate IsWalk(root: Path, entries: seq<Entry>, files: set<Path>) {
    && (forall e <- entries | !e.isSymlink && Under(e.resolved, root) :: e.resolved in files)
    && (forall f <- files | Under(f, root) :: exists e :: e in entries && !e.isSymlink && e.resolved == f)
    && (forall e <- entries | e.parts.Some? && Under(e.resolved, root) :: e.parts.value == e.resolved[|root|..])
  }

  /** What was found below the first `count` roots. */
  ghost predicate Found(layout: Layout, roots: seq<ScopeRoot>, count: nat, files: set<Path>,
                        found: map<Path, ScopedFile>)
    requires count <= |roots|
  {
    && (forall f :: f in found <==> f in files && AnyAbove(roots, count, f))
    && forall f <- found :: IsFirst(layout, roots, f, found[f])
  }

  ghost predicate AnyAbove(roots: seq<ScopeRoot>, count: nat, f: Path)
    requires count <= |roots|
  {
    exists k :: 0 <= k < count && Under(f, roots[k].path)
  }

  /** The first root above a file classifies it. */
  ghost predicate IsFirst(layout: Layout, roots: seq<ScopeRoot>, f: Path, file: ScopedFile) {
    exists k: nat :: ClassifiesAt(layout, roots, k, f, file)
  }

  ghost predicate ClassifiesAt(layout: Layout, roots: seq<ScopeRoot>, k: nat, f: Path, file: ScopedFile) {
    && k < |roots| && Under(f, roots[k].path) && file == Classified(f, roots[k], layout)
    && forall j | 0 <= j < k :: !Under(f, roots[j].path)
  }

  /** What was found below root `count` after `seen` entries. */
  ghost predicate FoundIn(layout: Layout, roots: seq<ScopeRoot>, count: nat, files: set<Path>, entries: seq<Entry>,
                          seen: nat, found: map<Path, ScopedFile>)
    requires count < |roots| && seen <= |entries|
  {
    && (forall f :: f in found ==> f in files)
    && (forall f <- files | AnyAbove(roots, count, f) :: f in found)
    && (forall k | 0 <= k < seen :: Taken(roots[count].path, entries[k], found))
    && forall f <- found :: IsFirst(layout, roots, f, found[f]) && AnyAbove(roots, count + 1, f)
  }

  ghost predicate Taken(root: Path, e: Entry, found: map<Path, ScopedFile>) {
    !e.isSymlink && Under(e.resolved, root) ==> e.resolved in found
  }

  /** Take one entry of a root. */
  method TakeEntry(layout: Layout, ghost roots: seq<ScopeRoot>, ghost count: nat, ghost files: set<Path>,
                   root: ScopeRoot, entry: Entry, found: map<Path, ScopedFile>)
    returns (taken: map<Path, ScopedFile>)
    requires count < |roots| && roots[count] == root
    requires !entry.isSymlink && Under(entry.resolved, root.path) ==> entry.resolved in files
    requires entry.parts.Some? && Under(entry.resolved, root.path) ==>
             entry.parts.value == entry.resolved[|root.path|..]
    requires entry.resolved in files && AnyAbove(roots, count, entry.resolved) ==> entry.resolved in found
    ensures Taken(root.path, entry, taken)
    ensures forall f <- found :: f in taken && taken[f] == found[f]
    ensures forall f <- taken | f !in found ::
              && f in files && AnyAbove(roots, count + 1, f) && IsFirst(layout, roots, f, taken[f])
  {
    taken := found;
    if entry.isSymlink || !Under(entry.resolved, root.path) || entry.resolved in found {
      return;
    }
    var relative := if entry.parts.Some? then entry.parts.value else entry.resolved[|root.path|..];
    var position := PositionOf(entry.resolved, relative, root.scope, layout);
    taken := found[entry.resolved :=
      ScopedFile(entry.resolved, root.path, root.scope, relative, position.owner, position.parts)];
    assert ClassifiesAt(layout, roots, count, entry.resolved, taken[entry.resolved]);
  }

  method PositionOf(path: Path, relative: Path, scope: ScopeName, layout: Layout) returns (position: Position)
    ensures position == OwnershipPosition(path, relative, scope, layout)
  {
    match scope
    case Tooling =>
      position := Position(None, relative);
    case Root =>
      position := OwnedBy(path, layout.ownershipRoots);
    case Test =>
      var projected := SearchTestPath(relative, layout.runtimeSources);
      position := if projected.None? then Position(None, relative) else OwnedBy(projected.value, layout.ownershipRoots);
  }

  method WalkRoot(layout: Layout, ghost roots: seq<ScopeRoot>, ghost count: nat, ghost files: set<Path>,
                  root: ScopeRoot, entries: seq<Entry>, found: map<Path, ScopedFile>)
    returns (walked: map<Path, ScopedFile>)
    requires count < |roots| && roots[count] == root && IsWalk(root.path, entries, files)
    requires Found(layout, roots, count, files, found)
    ensures Found(layout, roots, count + 1, files, walked)
  {
    walked := found;
    for k := 0 to |entries|
      invariant FoundIn(layout, roots, count, files, entries, k, walked)
    {
      assert entries[k] in entries;
      walked := TakeEntry(layout, roots, count, files, root, entries[k], walked);
    }
    WalkedAll(layout, roots, count, files, entries, walked);
  }

  lemma WalkedAll(layout: Layout, roots: seq<ScopeRoot>, count: nat, files: set<Path>, entries: seq<Entry>,
                  found: map<Path, ScopedFile>)
    requires count < |roots| && IsWalk(roots[count].path, entries, files)
    requires FoundIn(layout, roots, count, files, entries, |entries|, found)
    ensures Found(layout, roots, count + 1, files, found)
  {
    forall f <- files | AnyAbove(roots, count + 1, f) ensures f in found {
      if !AnyAbove(roots, count, f) {
        var e :| e in entries && !e.isSymlink && e.resolved == f;
        var k :| 0 <= k < |entries| && entries[k] == e;
        assert Taken(roots[count].path, entries[k], found);
      }
    }
  }

  ghost predicate AreWalks(roots: seq<ScopeRoot>, walks: map<Path, seq<Entry>>, files: set<Path>) {
    forall r <- roots ::
      if r.path in walks then IsWalk(r.path, walks[r.path], files) else forall f <- files :: !Under(f, r.path)
  }

  /** The files below the roots, each with the first root above it; `walks` holds the directories. */
  method DiscoverFiles(layout: Layout, walks: map<Path, seq<Entry>>, ghost files: set<Path>)
    returns (roots: seq<ScopeRoot>, found: map<Path, ScopedFile>)
    requires AreWalks(Configured(layout), walks, files)
    ensures roots == SortFalling(Configured(layout), Depth)
    ensures Found(layout, roots, |roots|, files, found)
  {
    roots := SortFalling(Configured(layout), Depth);
    SortedFalls(Configured(layout), Depth);
    found := map[];
    for k := 0 to |roots|
      invariant Found(layout, roots, k, files, found)
    {
      assert roots[k] in roots;
      if roots[k].path in walks {
        found := WalkRoot(layout, roots, k, files, roots[k], walks[roots[k].path], found);
      } else {
        NothingBelow(layout, roots, k, files, found);
      }
    }
  }

  lemma NothingBelow(layout: Layout, roots: seq<ScopeRoot>, count: nat, files: set<Path>, found: map<Path, ScopedFile>)
    requires count < |roots| && Found(layout, roots, count, files, found)
    requires forall f <- files :: !Under(f, roots[count].path)
    ensures Found(layout, roots, count + 1, files, found)
  {
    forall f <- files ensures AnyAbove(roots, count + 1, f) <==> AnyAbove(roots, count, f) {
    }
  }

  /** The first root above a file, by falling depth, is its deepest. */
  lemma FirstIsDeepest(layout: Layout, roots: seq<ScopeRoot>, f: Path, file: ScopedFile)
    requires roots == SortFalling(Configured(layout), Depth) && IsFirst(layout, roots, f, file)
    ensures file.path == f && IsClassified(layout, file)
  {
    SortedFalls(Configured(layout), Depth);
    var k: nat :| ClassifiesAt(layout, roots, k, f, file);
    forall r <- Configured(layout) | Under(f, r.path) ensures |r.path| <= |roots[k].path| {
      assert r in roots;
      var j :| 0 <= j < |roots| && roots[j] == r;
    }
    assert roots[k] in roots;
    assert IsDeepest(Configured(layout), f, roots[k]);
  }

  method SortedPaths(paths: set<Path>) returns (sorted: seq<Path>)
    ensures Sorted(sorted, PathLess)
    ensures forall p :: p in sorted <==> p in paths
  {
    PathOrder();
    sorted := SortedOf(paths, PathLess);
  }

  /** The files of `found`, in order of path. */
  method InOrderOfPath(found: map<Path, ScopedFile>) returns (listed: seq<ScopedFile>)
    requires forall f <- found :: found[f].path == f
    ensures Ordered(listed)
    ensures forall file: ScopedFile :: file in listed <==> file.path in found && found[file.path] == file
  {
    var paths := SortedPaths(found.Keys);
    listed := [];
    for k := 0 to |paths|
      invariant |listed| == k
      invariant forall i :: 0 <= i < k ==> paths[i] in found && listed[i] == found[paths[i]]
    {
      assert paths[k] in paths;
      listed := listed + [found[paths[k]]];
    }
    forall file: ScopedFile | file.path in found && found[file.path] == file ensures file in listed {
      var i :| 0 <= i < |paths| && paths[i] == file.path;
      assert listed[i] == file;
    }
    forall i, j | 0 <= i < j < |listed| ensures PathBefore(listed[i].path, listed[j].path) {
      PathLessMeaning(listed[i].path, listed[j].path);
    }
  }

  ghost predicate Ordered(listed: seq<ScopedFile>) {
    forall i, j | 0 <= i < j < |listed| :: PathBefore(listed[i].path, listed[j].path)
  }

  ghost predicate BelowSomeRoot(roots: seq<ScopeRoot>, f: Path) {
    exists r :: r in roots && Under(f, r.path)
  }

  lemma EveryRootCounts(roots: seq<ScopeRoot>, f: Path)
    ensures AnyAbove(roots, |roots|, f) <==> BelowSomeRoot(roots, f)
  {
    if BelowSomeRoot(roots, f) {
      var r :| r in roots && Under(f, r.path);
      var k :| 0 <= k < |roots| && roots[k] == r;
    }
    if AnyAbove(roots, |roots|, f) {
      var k :| 0 <= k < |roots| && Under(f, roots[k].path);
      assert roots[k] in roots;
    }
  }

  lemma FoundMeaning(layout: Layout, roots: seq<ScopeRoot>, files: set<Path>, found: map<Path, ScopedFile>, f: Path)
    requires roots == SortFalling(Configured(layout), Depth) && Found(layout, roots, |roots|, files, found)
    ensures f in found <==> f in files && BelowSomeRoot(Configured(layout), f)
    ensures f in found ==> found[f].path == f && IsClassified(layout, found[f])
  {
    SortedFalls(Configured(layout), Depth);
    EveryRootCounts(roots, f);
    assert BelowSomeRoot(roots, f) <==> BelowSomeRoot(Configured(layout), f);
    if f in found {
      FirstIsDeepest(layout, roots, f, found[f]);
    }
  }

  /** `listed` has one entry for every file below a configured root, each classified by the layout. */
  ghost predicate IsDiscovery(layout: Layout, files: set<Path>, listed: seq<ScopedFile>) {
    && Ordered(listed)
    && (forall file <- listed :: file.path in files && IsClassified(layout, file))
    && (forall f <- files | BelowSomeRoot(Configured(layout), f) :: Lists(listed, f))
  }

  ghost predicate Lists(listed: seq<ScopedFile>, f: Path) {
    exists file :: file in listed && file.path == f
  }

  /**
   * Every Python file below a configured root is listed once, in order of path, under the deepest root
   * above it; nothing else is listed.
   */
  method DiscoverScopedFiles(layout: Layout, walks: map<Path, seq<Entry>>, ghost files: set<Path>)
    returns (listed: seq<ScopedFile>)
    requires AreWalks(Configured(layout), walks, files)
    ensures IsDiscovery(layout, files, listed)
    ensures forall file <- listed :: Placed(layout, file)
  {
    var roots, found := DiscoverFiles(layout, walks, files);
    forall f
      ensures f in found <==> f in files && BelowSomeRoot(Configured(layout), f)
      ensures f in found ==> found[f].path == f && IsClassified(layout, found[f])
    {
      FoundMeaning(layout, roots, files, found, f);
    }
    listed := InOrderOfPath(found);
    forall f <- files | BelowSomeRoot(Configured(layout), f) ensures Lists(listed, f) {
      assert found[f] in listed;
    }
    forall file <- listed ensures Placed(layout, file) {
      ClassifiedIsPlaced(layout, file);
    }
  }

  // ---------- One scope for every root ----------

  /** Two scopes and the least path that is a root of both. */
  datatype SharedRoot = SharedRoot(owner: ScopeName, other: ScopeName, path: Path)

  function PathsIn(layout: Layout, scope: ScopeName): seq<Path> {
    match scope
    case Root => PathsOf(layout.runtimeSources)
    case Test => layout.testRoots
    case Tooling => PathsOf(layout.toolingSources)
  }

  lemma ConfiguredRoots(layout: Layout, r: ScopeRoot)
    ensures r in Configured(layout) <==> r.path in PathsIn(layout, r.scope)
  {
    RootIn(Root, PathsOf(layout.runtimeSources), r);
    RootIn(Test, layout.testRoots, r);
    RootIn(Tooling, PathsOf(layout.toolingSources), r);
  }

  lemma RootIn(scope: ScopeName, paths: seq<Path>, r: ScopeRoot)
    ensures r in RootsOf(scope, paths) <==> r.scope == scope && r.path in paths
  {
    if r.scope == scope && r.path in paths {
      var i :| 0 <= i < |paths| && paths[i] == r.path;
      assert RootsOf(scope, paths)[i] == r;
    }
  }

  predicate Apart(first: seq<Path>, second: seq<Path>) {
    forall p <- first :: p !in second
  }

  lemma OneScopeMeaning(layout: Layout)
    ensures OneScopeEach(Configured(layout))
       <==> && Apart(PathsIn(layout, Root), PathsIn(layout, Test))
            && Apart(PathsIn(layout, Root), PathsIn(layout, Tooling))
            && Apart(PathsIn(layout, Test), PathsIn(layout, Tooling))
  {
    forall r ensures r in Configured(layout) <==> r.path in PathsIn(layout, r.scope) {
      ConfiguredRoots(layout, r);
    }
    if OneScopeEach(Configured(layout)) {
      forall a: ScopeName, b: ScopeName, p | a != b && p in PathsIn(layout, a) ensures p !in PathsIn(layout, b) {
        assert ScopeRoot(a, p) in Configured(layout);
        assert p in PathsIn(layout, b) ==> ScopeRoot(b, p) in Configured(layout);
      }
    }
  }

  /** The least path in both lists. */
  method LeastShared(first: seq<Path>, second: seq<Path>) returns (least: Option<Path>)
    ensures least.None? <==> Apart(first, second)
    ensures least.Some? ==> least.value in first && least.value in second
    ensures least.Some? ==> forall p <- first | p in second :: p == least.value || PathBefore(least.value, p)
  {
    var duplicates := set p | p in first && p in second;
    if duplicates == {} {
      assert forall p <- first :: p in second ==> p in duplicates;
      return None;
    }
    var sorted := SortedPaths(duplicates);
    assert sorted != [] by {
      var p :| p in duplicates;
      assert p in sorted;
    }
    assert sorted[0] in sorted;
    forall p <- first | p in second ensures p == sorted[0] || PathBefore(sorted[0], p) {
      assert p in sorted;
      var i :| 0 <= i < |sorted| && sorted[i] == p;
      PathLessMeaning(sorted[0], p);
    }
    return Some(sorted[0]);
  }

  lemma ApartMeaning(layout: Layout)
    ensures && Apart(PathsIn(layout, Root), PathsIn(layout, Test))
            && Apart(PathsIn(layout, Root), PathsIn(layout, Tooling))
            && Apart(PathsIn(layout, Test), PathsIn(layout, Tooling))
       <==> forall a, b, p: Path | IsRootOf(layout, a, p) && IsRootOf(layout, b, p) :: a == b
  {
    forall scope, p: Path ensures p in PathsIn(layout, scope) <==> IsRootOf(layout, scope, p) {
      PathsInMeaning(layout, scope, p);
    }
    forall a: ScopeName, b: ScopeName ensures Apart(PathsIn(layout, a), PathsIn(layout, b)) <==>
                                              forall p: Path :: !(IsRootOf(layout, a, p) && IsRootOf(layout, b, p))
    {
    }
  }

  lemma PathsInMeaning(layout: Layout, scope: ScopeName, p: Path)
    ensures p in PathsIn(layout, scope) <==> IsRootOf(layout, scope, p)
  {
    PathIn(layout.runtimeSources, p);
    PathIn(layout.toolingSources, p);
  }

  /** Refuses a layout exactly when some path is a root of two scopes. */
  method ValidateCrossScopeRoots(layout: Layout) returns (error: Option<SharedRoot>)
    ensures error.None? <==> OneScopeEach(Configured(layout))
    ensures error.None? <==> forall a, b, p: Path | IsRootOf(layout, a, p) && IsRootOf(layout, b, p) :: a == b
    ensures error.Some? ==> var e := error.value;
      && e.owner != e.other && IsRootOf(layout, e.owner, e.path) && IsRootOf(layout, e.other, e.path)
      && forall p | IsRootOf(layout, e.owner, p) && IsRootOf(layout, e.other, p) :: p == e.path || PathBefore(e.path, p)
  {
    OneScopeMeaning(layout);
    forall scope, p: Path ensures p in PathsIn(layout, scope) <==> IsRootOf(layout, scope, p) {
      PathsInMeaning(layout, scope, p);
    }
    ApartMeaning(layout);
    var pairs := [(Root, Test), (Root, Tooling), (Test, Tooling)];
    for k := 0 to |pairs|
      invariant forall j :: 0 <= j < k ==> Apart(PathsIn(layout, pairs[j].0), PathsIn(layout, pairs[j].1))
    {
      var (owner, other) := pairs[k];
      var least := LeastShared(PathsIn(layout, owner), PathsIn(layout, other));
      if least.Some? {
        return Some(SharedRoot(owner, other, least.value));
      }
    }
    assert pairs[0] == (Root, Test) && pairs[1] == (Root, Tooling) && pairs[2] == (Test, Tooling);
    return None;
  }

  // ---------- Order of configuration ----------

  /** The scope, root and relative path of a file, without its owner. */
  ghost predicate SamePlace(a: ScopedFile, b: ScopedFile) {
    a.path == b.path && a.root == b.root && a.scope == b.scope && a.relativeParts == b.relativeParts
  }

  /** The place of a file under its owner. */
  function PlaceUnderOwner(file: ScopedFile): Place {
    PlaceOf(Position(file.owner, file.ownershipParts))
  }

  /**
   * The configured order decides nothing about where a file belongs, nor about the path of its owner and its
   * owned part if it is not a test file; for a test file it can only decide between runtime roots that
   * tie. Where the ownership roots are configured, the same holds of the owner's declaration.
   */
  lemma ConfigurationOrderIrrelevant(layout: Layout, other: Layout, file: ScopedFile, same: ScopedFile)
    requires forall r :: r in Configured(layout) <==> r in Configured(other)
    requires OneScopeEach(Configured(layout))
    requires IsClassified(layout, file) && IsClassified(other, same) && file.path == same.path
    ensures SamePlace(file, same)
    ensures Reordered(layout, other) && (file.scope == Test ==> NoTies(file.relativeParts, layout)) ==>
              PlaceUnderOwner(file) == PlaceUnderOwner(same)
    ensures && Reordered(layout, other) && (file.scope == Test ==> NoTies(file.relativeParts, layout))
            && layout.ownershipRoots == other.ownershipRoots
            ==> file == same
    ensures layout.ownershipRoots == other.ownershipRoots && file.scope != Test ==> file == same
  {
    var r :| IsDeepest(Configured(layout), file.path, r) && file == Classified(file.path, r, layout);
    var s :| IsDeepest(Configured(other), same.path, s) && same == Classified(same.path, s, other);
    assert IsDeepest(Configured(layout), file.path, s);
    DeepestIsUnique(Configured(layout), file.path, r, s);
    if Reordered(layout, other) {
      PlaceDependsOnPaths(file.path, layout.ownershipRoots, other.ownershipRoots);
      SameMembers(layout.runtimeSources, other.runtimeSources);
      if NoTies(file.relativeParts, layout) {
        OrderDecidesOnlyTies(file.path, file.relativeParts, layout, other);
      }
    }
  }

  // ---------- The offset handed to the native rules ----------

  /** The place in the relative path where the owned part begins. */
  function NativeOffset(file: ScopedFile): Option<int> {
    if file.owner.None? then None else Some(|file.relativeParts| - |file.ownershipParts|)
  }

  lemma RuntimeRootIsASource(layout: Layout, root: ScopeRoot) returns (source: Source)
    requires root in Configured(layout) && root.scope == Root
    ensures source in layout.runtimeSources && source.path == root.path
  {
    var runtime, tests := RootsOf(Root, PathsOf(layout.runtimeSources)), RootsOf(Test, layout.testRoots);
    var tooling := RootsOf(Tooling, PathsOf(layout.toolingSources));
    assert forall r <- tests :: r.scope == Test;
    assert forall r <- tooling :: r.scope == Tooling;
    assert root in runtime;
    var k :| 0 <= k < |runtime| && runtime[k] == root;
    source := layout.runtimeSources[k];
  }

  /**
   * With runtime roots that are not nested, every owned file has its owned part at the end of its
   * relative path, so the offset is in range and cuts exactly that part off.
   */
  lemma OffsetIsInRange(layout: Layout, repository: Path, file: ScopedFile)
    requires Resolved(layout, repository) && RuntimeNotNested(layout)
    requires IsClassified(layout, file)
    ensures NativeOffset(file).Some? ==>
              && 0 <= NativeOffset(file).value <= |file.relativeParts|
              && file.relativeParts[NativeOffset(file).value..] == file.ownershipParts
  {
    var root :| IsDeepest(Configured(layout), file.path, root) && file == Classified(file.path, root, layout);
    match root.scope
    case Tooling =>
    case Test =>
      TestPartsAreASuffix(file.path, file.relativeParts, layout, repository);
    case Root =>
      var source := RuntimeRootIsASource(layout, root);
      OwnersBelowRoots(file.path, source, layout, repository);
      RootPartsAreASuffixExactly(file.path, root.path, layout);
  }

  /** Nested runtime roots can put an owner above a file's root, and then the offset is negative. */
  lemma NestedRootsMisplaceTheOffset() returns (layout: Layout, repository: Path, file: ScopedFile)
    ensures Resolved(layout, repository) && IsClassified(layout, file)
    ensures NativeOffset(file).Some? && NativeOffset(file).value < 0
  {
    var outer, inner := Source(["src"], ["src"]), Source(["src", "inner"], ["src", "inner"]);
    layout, repository := Layout([outer, inner], [], [], [OwnershipRoot(["src"], "src")]), [];
    var path, root := ["src", "inner", "a.py"], ScopeRoot(Root, ["src", "inner"]);
    file := Classified(path, root, layout);
    assert Configured(layout) == [ScopeRoot(Root, ["src"]), root];
    assert IsDeepest(Configured(layout), path, root);
    assert outer in layout.runtimeSources;
    OwnerMeaning(path, layout.ownershipRoots);
    assert layout.ownershipRoots[0] in layout.ownershipRoots;
  }
}
