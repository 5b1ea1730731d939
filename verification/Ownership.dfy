/** Which domain root owns a file, and where in the file's own path its owned part begins. */
module Ownership {
  import opened Options
  import opened ProjectPaths
  import opened Sorting

  datatype ScopeName = Root | Test | Tooling

  datatype Source = Source(path: Path, relativeParts: Path)

  datatype OwnershipRoot = OwnershipRoot(path: Path, declaration: string)

  datatype Layout = Layout(runtimeSources: seq<Source>, testRoots: seq<Path>, toolingSources: seq<Source>,
                           ownershipRoots: seq<OwnershipRoot>)

  // ---------- Mirrored test paths ----------

  predicate WindowAt(directories: Path, parts: Path, index: nat) {
    index + |parts| <= |directories| && directories[index..index + |parts|] == parts
  }

  /** The first place, from `index` on, where `parts` stand in `directories`. */
  function FirstWindow(directories: Path, parts: Path, index: nat): (found: Option<nat>)
    ensures found.Some? ==> WindowAt(directories, parts, found.value) && index <= found.value
    ensures found.Some? ==> forall i: nat | index <= i < found.value :: !WindowAt(directories, parts, i)
    ensures found.None? ==> forall i: nat | index <= i :: !WindowAt(directories, parts, i)
    decreases |directories| - index
  {
    if index + |parts| > |directories| then None
    else if WindowAt(directories, parts, index) then Some(index)
    else FirstWindow(directories, parts, index + 1)
  }

  function Directories(relative: Path): Path {
    if relative == [] then [] else relative[..|relative| - 1]
  }

  /** The path of `source` followed by what stands behind its first window. */
  function Projection(relative: Path, source: Source): Option<Path> {
    match FirstWindow(Directories(relative), source.relativeParts, 0)
    case None => None
    case Some(i) => Some(source.path + relative[i + |source.relativeParts|..])
  }

  function ProjectFrom(sources: seq<Source>, relative: Path): Option<Path> {
    if sources == [] then None
    else if Projection(relative, sources[0]).Some? then Projection(relative, sources[0])
    else ProjectFrom(sources[1..], relative)
  }

  function Width(source: Source): int {
    |source.relativeParts|
  }

  /** The source file a test file mirrors. */
  function ProjectTestPath(relative: Path, sources: seq<Source>): Option<Path> {
    ProjectFrom(SortFalling(sources, Width), relative)
  }

  ghost predicate Mirrors(directories: Path, source: Source) {
    exists i: nat :: WindowAt(directories, source.relativeParts, i)
  }

  lemma ProjectionExists(relative: Path, source: Source)
    ensures Projection(relative, source).Some? <==> Mirrors(Directories(relative), source)
  {
  }

  /** The first of the widest mirrored sources, in configured order. */
  function FirstWidest(relative: Path, sources: seq<Source>): (widest: Option<Source>)
    ensures widest.Some? ==> Projection(relative, widest.value).Some?
  {
    if sources == [] then None
    else
      var last, best := sources[|sources| - 1], FirstWidest(relative, sources[..|sources| - 1]);
      if Projection(relative, last).Some? && (best.None? || Width(best.value) < Width(last)) then Some(last) else best
  }

  ghost predicate AnyAsWide(relative: Path, sources: seq<Source>, source: Source) {
    exists s :: s in sources && Projection(relative, s).Some? && Width(s) >= Width(source)
  }

  /** A source inserted by width is found unless a mirrored one at least as wide comes before it. */
  lemma {:induction false} InsertedProjection(sources: seq<Source>, source: Source, relative: Path)
    requires Falling(sources, Width)
    ensures ProjectFrom(InsertFalling(sources, source, Width), relative) ==
            if Projection(relative, source).Some? && !AnyAsWide(relative, sources, source)
            then Projection(relative, source) else ProjectFrom(sources, relative)
  {
    var inserted := InsertFalling(sources, source, Width);
    if sources == [] || Width(sources[0]) < Width(source) {
      assert inserted[1..] == sources;
      forall s <- sources ensures Width(s) < Width(source) {
        var k :| 0 <= k < |sources| && sources[k] == s;
      }
    } else {
      var rest := sources[1..];
      assert inserted[0] == sources[0] && inserted[1..] == InsertFalling(rest, source, Width);
      if Projection(relative, sources[0]).Some? {
        assert AnyAsWide(relative, sources, source) by { assert sources[0] in sources; }
      } else {
        InsertedProjection(rest, source, relative);
        assert forall s :: s in sources <==> s == sources[0] || s in rest;
      }
    }
  }

  /** What the fold keeps is mirrored and a widest one. */
  ghost predicate IsWidest(relative: Path, sources: seq<Source>, source: Source) {
    && source in sources && Projection(relative, source).Some?
    && forall s | s in sources && Projection(relative, s).Some? :: Width(s) <= Width(source)
  }

  lemma {:induction false} FirstWidestMeaning(relative: Path, sources: seq<Source>)
    ensures FirstWidest(relative, sources).None? <==> forall s <- sources :: Projection(relative, s).None?
    ensures FirstWidest(relative, sources).Some? ==> IsWidest(relative, sources, FirstWidest(relative, sources).value)
  {
    if sources != [] {
      FirstWidestMeaning(relative, sources[..|sources| - 1]);
      assert sources == sources[..|sources| - 1] + [sources[|sources| - 1]];
    }
  }

  /** The search by falling width finds the first of the widest mirrored sources. */
  lemma {:induction false} SearchFindsFirstWidest(relative: Path, sources: seq<Source>)
    ensures ProjectTestPath(relative, sources) ==
            match FirstWidest(relative, sources) case None => None case Some(s) => Projection(relative, s)
  {
    if sources != [] {
      var init, last := sources[..|sources| - 1], sources[|sources| - 1];
      SearchFindsFirstWidest(relative, init);
      FirstWidestMeaning(relative, init);
      SortedFalls(init, Width);
      InsertedProjection(SortFalling(init, Width), last, relative);
    }
  }

  /**
   * A test file mirrors a source exactly when its directories spell some runtime root; of several it
   * mirrors a longest one, where its directories first spell it.
   */
  lemma ProjectionMeaning(relative: Path, sources: seq<Source>)
    ensures ProjectTestPath(relative, sources).None? <==> forall s <- sources :: !Mirrors(Directories(relative), s)
    ensures ProjectTestPath(relative, sources).Some? ==>
              exists s :: IsWidest(relative, sources, s) && ProjectTestPath(relative, sources) ==
                  Projection(relative, s)
  {
    SearchFindsFirstWidest(relative, sources);
    FirstWidestMeaning(relative, sources);
    forall s <- sources ensures Projection(relative, s).Some? <==> Mirrors(Directories(relative), s) {
      ProjectionExists(relative, s);
    }
  }

  // ---------- Mirrored paths, spelled out ----------

  /** The directories of the relative path are those before the source's own parts, the parts, and those behind. */
  ghost predicate Spells(relative: Path, source: Source, before: Path, behind: Path) {
    if relative == [] then before + source.relativeParts + behind == []
    else relative == before + source.relativeParts + behind + [relative[|relative| - 1]]
  }

  ghost predicate SpelledIn(relative: Path, source: Source) {
    exists before: Path, behind: Path :: Spells(relative, source, before, behind)
  }

  lemma SpelledAtWindow(relative: Path, source: Source, before: Path, behind: Path)
    requires Spells(relative, source, before, behind)
    ensures WindowAt(Directories(relative), source.relativeParts, |before|)
  {
    assert Directories(relative) == before + source.relativeParts + behind;
  }

  lemma WindowSpells(relative: Path, source: Source, i: nat)
    requires WindowAt(Directories(relative), source.relativeParts, i)
    ensures Spells(relative, source, Directories(relative)[..i], Directories(relative)[i + |source.relativeParts|..])
  {
    var directories, n := Directories(relative), i + |source.relativeParts|;
    assert directories == directories[..i] + directories[i..n] + directories[n..];
    assert relative != [] ==> relative == directories + [relative[|relative| - 1]];
  }

  lemma SpelledExactly(relative: Path, source: Source)
    ensures SpelledIn(relative, source) <==> Projection(relative, source).Some?
  {
    var found := FirstWindow(Directories(relative), source.relativeParts, 0);
    if before: Path, behind: Path :| Spells(relative, source, before, behind) {
      SpelledAtWindow(relative, source, before, behind);
    }
    if found.Some? {
      WindowSpells(relative, source, found.value);
    }
  }

  /** The mirrored path: the source followed by what stands behind its parts where they are first spelled. */
  ghost predicate ProjectsTo(relative: Path, source: Source, projected: Path) {
    exists before: Path, behind: Path ::
      && Spells(relative, source, before, behind)
      && (forall b: Path, d: Path | Spells(relative, source, b, d) :: |before| <= |b|)
      && projected == source.path + relative[|before + source.relativeParts|..]
  }

  lemma ProjectionSpelled(relative: Path, source: Source)
    requires Projection(relative, source).Some?
    ensures ProjectsTo(relative, source, Projection(relative, source).value)
  {
    var directories := Directories(relative);
    var i := FirstWindow(directories, source.relativeParts, 0).value;
    var before, behind := directories[..i], directories[i + |source.relativeParts|..];
    WindowSpells(relative, source, i);
    forall b: Path, d: Path | Spells(relative, source, b, d) ensures |before| <= |b| {
      SpelledAtWindow(relative, source, b, d);
    }
    assert |before + source.relativeParts| == i + |source.relativeParts|;
  }

  lemma {:induction false} FirstWidestPlace(relative: Path, sources: seq<Source>) returns (k: nat)
    requires FirstWidest(relative, sources).Some?
    ensures k < |sources| && FirstWidest(relative, sources) == Some(sources[k])
    ensures forall j | 0 <= j < k && Projection(relative, sources[j]).Some? :: Width(sources[j]) < Width(sources[k])
  {
    var n := |sources| - 1;
    var init := sources[..n];
    FirstWidestMeaning(relative, init);
    if FirstWidest(relative, sources) == FirstWidest(relative, init) {
      k := FirstWidestPlace(relative, init);
    } else {
      k := n;
      assert forall j | 0 <= j < n :: sources[j] in init;
    }
  }

  /** Source `k` is the first of the widest sources that the relative path spells. */
  ghost predicate MirroredFrom(relative: Path, sources: seq<Source>, k: nat, projected: Path) {
    && k < |sources| && ProjectsTo(relative, sources[k], projected)
    && forall j | 0 <= j < |sources| && SpelledIn(relative, sources[j]) ::
         if j < k then |sources[j].relativeParts| < |sources[k].relativeParts|
         else |sources[j].relativeParts| <= |sources[k].relativeParts|
  }

  /** The projection of a test file, in terms of the parts of its path. */
  lemma MirrorMeaning(relative: Path, sources: seq<Source>)
    ensures ProjectTestPath(relative, sources).None? <==> forall s <- sources :: !SpelledIn(relative, s)
    ensures ProjectTestPath(relative, sources).Some? ==>
              exists k: nat :: MirroredFrom(relative, sources, k, ProjectTestPath(relative, sources).value)
  {
    SearchFindsFirstWidest(relative, sources);
    FirstWidestMeaning(relative, sources);
    forall s ensures SpelledIn(relative, s) <==> Projection(relative, s).Some? {
      SpelledExactly(relative, s);
    }
    if FirstWidest(relative, sources).Some? {
      var k := FirstWidestPlace(relative, sources);
      ProjectionSpelled(relative, sources[k]);
      assert MirroredFrom(relative, sources, k, ProjectTestPath(relative, sources).value);
    }
  }

  lemma SkipSource(sources: seq<Source>, k: nat, relative: Path)
    requires k < |sources| && FirstWindow(Directories(relative), sources[k].relativeParts, 0).None?
    ensures ProjectFrom(sources[k..], relative) == ProjectFrom(sources[k + 1..], relative)
  {
    assert sources[k..][1..] == sources[k + 1..];
  }

  method SearchWindow(directories: Path, parts: Path) returns (found: Option<nat>)
    ensures found == FirstWindow(directories, parts, 0)
  {
    var width, index := |parts|, 0;
    while index < |directories| - width + 1
      invariant FirstWindow(directories, parts, index) == FirstWindow(directories, parts, 0)
    {
      if directories[index..index + width] == parts {
        return Some(index);
      }
      index := index + 1;
    }
    return None;
  }

  /** The search over sources and places. */
  method SearchTestPath(relative: Path, sources: seq<Source>) returns (projected: Option<Path>)
    ensures projected == ProjectTestPath(relative, sources)
  {
    var directories, sorted := Directories(relative), SortFalling(sources, Width);
    for k := 0 to |sorted|
      invariant ProjectFrom(sorted[k..], relative) == ProjectFrom(sorted, relative)
    {
      var found := SearchWindow(directories, sorted[k].relativeParts);
      if found.Some? {
        return Some(sorted[k].path + relative[found.value + |sorted[k].relativeParts|..]);
      }
      SkipSource(sorted, k, relative);
    }
    return None;
  }

  // ---------- The owner ----------

  function Matches(roots: seq<OwnershipRoot>, path: Path): (matches: seq<OwnershipRoot>)
    ensures forall r :: r in matches <==> r in roots && Under(path, r.path)
  {
    if roots == [] then []
    else (if Under(path, roots[0].path) then [roots[0]] else []) + Matches(roots[1..], path)
  }

  /** `max(matches, key=depth)`: the first of the deepest roots. */
  function Deepest(matches: seq<OwnershipRoot>): (root: OwnershipRoot)
    requires matches != []
    ensures root in matches
    ensures forall r <- matches :: |r.path| <= |root.path|
  {
    if |matches| == 1 then matches[0]
    else
      var best := Deepest(matches[1..]);
      assert forall r :: r in matches <==> r == matches[0] || r in matches[1..];
      if |best.path| > |matches[0].path| then best else matches[0]
  }

  datatype Position = Position(owner: Option<OwnershipRoot>, parts: Path)

  function OwnedBy(path: Path, roots: seq<OwnershipRoot>): Position {
    var matches := Matches(roots, path);
    if matches == [] then Position(None, [])
    else
      var root := Deepest(matches);
      Position(Some(root), path[|root.path|..])
  }

  function OwnershipPosition(path: Path, relative: Path, scope: ScopeName, layout: Layout): Position {
    match scope
    case Tooling => Position(None, relative)
    case Root => OwnedBy(path, layout.ownershipRoots)
    case Test =>
      match ProjectTestPath(relative, layout.runtimeSources)
      case None => Position(None, relative)
      case Some(projected) => OwnedBy(projected, layout.ownershipRoots)
  }

  /** The path below the owner and the owner make up the owned path, and no deeper root owns it. */
  lemma OwnerMeaning(path: Path, roots: seq<OwnershipRoot>)
    ensures var position := OwnedBy(path, roots);
      && (position.owner.None? <==> forall r <- roots :: !Under(path, r.path))
      && (position.owner.Some? ==>
            && position.owner.value in roots
            && path == position.owner.value.path + position.parts
            && forall r <- roots | Under(path, r.path) :: r.path <= position.owner.value.path)
  {
    var matches := Matches(roots, path);
    if matches != [] {
      var root := Deepest(matches);
      forall r <- roots | Under(path, r.path) ensures r.path <= root.path {
        assert r in matches;
        assert r.path == path[..|r.path|] && root.path == path[..|root.path|];
      }
      assert path == root.path + path[|root.path|..];
    } else {
      forall r <- roots ensures !Under(path, r.path) {
        assert r !in matches;
      }
    }
  }

  /** The deepest ownership root above `path` and the rest of the path, or nothing at all without one. */
  ghost predicate OwnedFrom(path: Path, roots: seq<OwnershipRoot>, owner: Option<OwnershipRoot>, parts: Path) {
    if owner.None? then parts == [] && forall r <- roots :: !(r.path <= path)
    else
      && owner.value in roots && path == owner.value.path + parts
      && forall r <- roots | r.path <= path :: |r.path| <= |owner.value.path|
  }

  /** Who owns a file of each scope, and which part of it. */
  ghost predicate Positioned(path: Path, relative: Path, scope: ScopeName, layout: Layout,
                             owner: Option<OwnershipRoot>, parts: Path)
  {
    match scope
    case Tooling => owner.None? && parts == relative
    case Root => OwnedFrom(path, layout.ownershipRoots, owner, parts)
    case Test =>
      if forall s <- layout.runtimeSources :: !SpelledIn(relative, s) then owner.None? && parts == relative
      else exists k: nat, projected: Path ::
             MirroredFrom(relative, layout.runtimeSources, k, projected)
             && OwnedFrom(projected, layout.ownershipRoots, owner, parts)
  }

  lemma OwnedByMeaning(path: Path, roots: seq<OwnershipRoot>)
    ensures OwnedFrom(path, roots, OwnedBy(path, roots).owner, OwnedBy(path, roots).parts)
  {
    OwnerMeaning(path, roots);
  }

  /** Files outside all ownership roots included. */
  lemma PositionMeaning(path: Path, relative: Path, scope: ScopeName, layout: Layout)
    ensures var position := OwnershipPosition(path, relative, scope, layout);
      Positioned(path, relative, scope, layout, position.owner, position.parts)
  {
    match scope
    case Tooling =>
    case Root => OwnedByMeaning(path, layout.ownershipRoots);
    case Test =>
      MirrorMeaning(relative, layout.runtimeSources);
      if ProjectTestPath(relative, layout.runtimeSources).Some? {
        OwnedByMeaning(ProjectTestPath(relative, layout.runtimeSources).value, layout.ownershipRoots);
      }
  }

  // ---------- The offset handed to the native rules ----------

  predicate IsSuffix(suffix: Path, path: Path) {
    |suffix| <= |path| && path[|path| - |suffix|..] == suffix
  }

  /** The paths of a layout lie in the repository, and each ownership root beneath a runtime root. */
  ghost predicate Resolved(layout: Layout, repository: Path) {
    && (forall s <- layout.runtimeSources :: s.path == repository + s.relativeParts)
    && (forall o <- layout.ownershipRoots :: exists s :: s in layout.runtimeSources && Under(o.path, s.path))
  }

  lemma OwnersInRepository(layout: Layout, repository: Path, o: OwnershipRoot)
    requires Resolved(layout, repository) && o in layout.ownershipRoots
    ensures Under(o.path, repository)
  {
    var s :| s in layout.runtimeSources && Under(o.path, s.path);
  }

  lemma SuffixOfSlice(a: Path, b: Path, n: nat)
    requires IsSuffix(a, b) && n <= |a|
    ensures IsSuffix(a[n..], b)
  {
    assert b[|b| - |a|..][n..] == b[|b| - |a| + n..];
  }

  /**
   * A mirrored test file's owned part is always a suffix of its own path: its directories spell the
   * runtime root, so even an owner above that root finds its part there.
   */
  lemma TestPartsAreASuffix(path: Path, relative: Path, layout: Layout, repository: Path)
    requires Resolved(layout, repository)
    ensures var position := OwnershipPosition(path, relative, Test, layout);
      IsSuffix(position.parts, relative)
  {
    ProjectionMeaning(relative, layout.runtimeSources);
    var found := ProjectTestPath(relative, layout.runtimeSources);
    if found.Some? {
      var s :| IsWidest(relative, layout.runtimeSources, s) && found == Projection(relative, s);
      MirroredSuffix(relative, s, found.value, repository);
      OwnerMeaning(found.value, layout.ownershipRoots);
      var position := OwnedBy(found.value, layout.ownershipRoots);
      if position.owner.Some? {
        OwnersInRepository(layout, repository, position.owner.value);
        BelowRepository(found.value, repository, position.owner.value.path);
        SuffixOfSlice(found.value[|repository|..], relative, |position.owner.value.path| - |repository|);
      }
    }
  }

  lemma BelowRepository(path: Path, repository: Path, owner: Path)
    requires Under(owner, repository) && Under(path, owner)
    ensures |repository| <= |owner| <= |path|
    ensures path[|repository|..][|owner| - |repository|..] == path[|owner|..]
  {
  }

  lemma Spelled(relative: Path, parts: Path, i: nat)
    requires WindowAt(Directories(relative), parts, i)
    ensures i + |parts| <= |relative| && relative[i..] == parts + relative[i + |parts|..]
  {
    var directories := Directories(relative);
    assert relative[i..] == directories[i..i + |parts|] + relative[i + |parts|..];
  }

  lemma DropFront(front: Path, middle: Path, back: Path)
    ensures (front + middle + back)[|front|..] == middle + back
  {
  }

  lemma MirroredSuffix(relative: Path, source: Source, projected: Path, repository: Path)
    requires source.path == repository + source.relativeParts && Projection(relative, source) == Some(projected)
    ensures Under(projected, repository) && IsSuffix(projected[|repository|..], relative)
  {
    var i: nat :| FirstWindow(Directories(relative), source.relativeParts, 0) == Some(i)
      && projected == source.path + relative[i + |source.relativeParts|..];
    Spelled(relative, source.relativeParts, i);
    DropFront(repository, source.relativeParts, relative[i + |source.relativeParts|..]);
  }

  /**
   * A runtime file's owned part is a suffix of its path below its root exactly when its owner does not
   * lie above that root.
   */
  lemma RootPartsAreASuffixExactly(path: Path, root: Path, layout: Layout)
    requires Under(path, root)
    ensures var position := OwnershipPosition(path, path[|root|..], Root, layout);
      position.owner.Some? ==>
        (IsSuffix(position.parts, path[|root|..]) <==> Under(position.owner.value.path, root))
  {
    OwnerMeaning(path, layout.ownershipRoots);
    var position := OwnedBy(path, layout.ownershipRoots);
    if position.owner.Some? {
      var owner := position.owner.value.path;
      if |root| <= |owner| {
        assert root == path[..|root|] && owner == path[..|owner|];
        assert path[|root|..][|owner| - |root|..] == path[|owner|..];
      }
    }
  }

  ghost predicate RuntimeNotNested(layout: Layout) {
    forall s, t | s in layout.runtimeSources && t in layout.runtimeSources &&
        PartsNested(s.path, t.path) :: s.path == t.path
  }

  /** Runtime roots that are not nested keep owners from lying above the root of a file. */
  lemma OwnersBelowRoots(path: Path, source: Source, layout: Layout, repository: Path)
    requires Resolved(layout, repository) && RuntimeNotNested(layout)
    requires source in layout.runtimeSources && Under(path, source.path)
    ensures var owner := OwnedBy(path, layout.ownershipRoots).owner;
      owner.Some? ==> Under(owner.value.path, source.path)
  {
    OwnerMeaning(path, layout.ownershipRoots);
    var position := OwnedBy(path, layout.ownershipRoots);
    if position.owner.Some? {
      var s :| s in layout.runtimeSources && Under(position.owner.value.path, s.path);
      assert Under(path, s.path);
      NestedMeaning(source.path, s.path);
    }
  }
}
