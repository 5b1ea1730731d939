/** What the configured order of the runtime roots decides about the owner of a file, exactly. */
module OwnershipOrder {
  import opened Options
  import opened Ownership
  import opened ProjectPaths
  import opened Sorting

  // ---------- The place of a file ----------

  /** The path of the owner and the owned part, whatever configuration declares the owner. */
  datatype Place = Place(owner: Option<Path>, parts: Path)

  function PlaceOf(position: Position): Place {
    Place(if position.owner.None? then None else Some(position.owner.value.path), position.parts)
  }

  ghost predicate Owns(roots: seq<OwnershipRoot>, p: Path) {
    exists r :: r in roots && r.path == p
  }

  ghost predicate SameOwnerPaths(roots: seq<OwnershipRoot>, others: seq<OwnershipRoot>) {
    forall p :: Owns(roots, p) <==> Owns(others, p)
  }

  lemma OwnerIsMet(path: Path, roots: seq<OwnershipRoot>, others: seq<OwnershipRoot>)
    requires SameOwnerPaths(roots, others) && OwnedBy(path, roots).owner.Some?
    ensures OwnedBy(path, others).owner.Some?
    ensures OwnedBy(path, roots).owner.value.path <= OwnedBy(path, others).owner.value.path
  {
    OwnerMeaning(path, roots);
    OwnerMeaning(path, others);
    var p := OwnedBy(path, roots).owner.value.path;
    assert Owns(roots, p);
    var r :| r in others && r.path == p;
  }

  /** The owner's path and the owned part depend on the paths of the ownership roots alone. */
  lemma PlaceDependsOnPaths(path: Path, roots: seq<OwnershipRoot>, others: seq<OwnershipRoot>)
    requires SameOwnerPaths(roots, others)
    ensures PlaceOf(OwnedBy(path, roots)) == PlaceOf(OwnedBy(path, others))
  {
    OwnerMeaning(path, roots);
    OwnerMeaning(path, others);
    if OwnedBy(path, roots).owner.Some? {
      OwnerIsMet(path, roots, others);
    }
    if OwnedBy(path, others).owner.Some? {
      OwnerIsMet(path, others, roots);
    }
  }

  // ---------- The declaration of the owner ----------

  function FirstAt(roots: seq<OwnershipRoot>, p: Path): Option<OwnershipRoot> {
    if roots == [] then None else if roots[0].path == p then Some(roots[0]) else FirstAt(roots[1..], p)
  }

  lemma {:induction false} DeepestIsFirst(matches: seq<OwnershipRoot>)
    requires matches != []
    ensures FirstAt(matches, Deepest(matches).path) == Some(Deepest(matches))
  {
    if |matches| > 1 {
      DeepestIsFirst(matches[1..]);
    }
  }

  lemma FirstAtCons(root: OwnershipRoot, rest: seq<OwnershipRoot>, p: Path)
    ensures FirstAt([root] + rest, p) == if root.path == p then Some(root) else FirstAt(rest, p)
  {
    assert ([root] + rest)[1..] == rest;
  }

  lemma {:induction false} FirstAtOfMatches(path: Path, roots: seq<OwnershipRoot>, p: Path)
    requires Under(path, p)
    ensures FirstAt(Matches(roots, path), p) == FirstAt(roots, p)
  {
    if roots != [] {
      FirstAtOfMatches(path, roots[1..], p);
      FirstAtCons(roots[0], Matches(roots[1..], path), p);
      assert [] + Matches(roots[1..], path) == Matches(roots[1..], path);
    }
  }

  /** Of several roots at one path the first is the owner. */
  lemma OwnerIsFirst(path: Path, roots: seq<OwnershipRoot>)
    requires Matches(roots, path) != []
    ensures var root := Deepest(Matches(roots, path)); FirstAt(roots, root.path) == Some(root)
  {
    var root := Deepest(Matches(roots, path));
    assert root in Matches(roots, path);
    DeepestIsFirst(Matches(roots, path));
    FirstAtOfMatches(path, roots, root.path);
  }

  /** Among the same ownership roots, the place says all. */
  lemma PlaceFixesPosition(path: Path, other: Path, roots: seq<OwnershipRoot>)
    requires PlaceOf(OwnedBy(path, roots)) == PlaceOf(OwnedBy(other, roots))
    ensures OwnedBy(path, roots) == OwnedBy(other, roots)
  {
    if Matches(roots, path) != [] {
      OwnerIsFirst(path, roots);
    }
    if Matches(roots, other) != [] {
      OwnerIsFirst(other, roots);
    }
  }

  // ---------- Test files ----------

  /** All widest mirrored runtime roots lead to the same place. */
  ghost predicate NoTies(relative: Path, layout: Layout) {
    forall s, t | IsWidest(relative, layout.runtimeSources, s) && IsWidest(relative, layout.runtimeSources, t) ::
      PlaceOf(OwnedBy(Projection(relative, s).value, layout.ownershipRoots)) ==
      PlaceOf(OwnedBy(Projection(relative, t).value, layout.ownershipRoots))
  }

  /** The same runtime roots in another order, and ownership roots at the same paths. */
  ghost predicate Reordered(layout: Layout, other: Layout) {
    && multiset(layout.runtimeSources) == multiset(other.runtimeSources)
    && SameOwnerPaths(layout.ownershipRoots, other.ownershipRoots)
  }

  ghost predicate PlaceKeepsInAnyOrder(path: Path, relative: Path, layout: Layout) {
    forall other | Reordered(layout, other) ::
      PlaceOf(OwnershipPosition(path, relative, Test, other)) ==
          PlaceOf(OwnershipPosition(path, relative, Test, layout))
  }

  lemma TestOwner(path: Path, relative: Path, layout: Layout)
    ensures OwnershipPosition(path, relative, Test, layout) ==
            match FirstWidest(relative, layout.runtimeSources)
            case None => Position(None, relative)
            case Some(s) => OwnedBy(Projection(relative, s).value, layout.ownershipRoots)
    ensures FirstWidest(relative, layout.runtimeSources).Some? ==>
              IsWidest(relative, layout.runtimeSources, FirstWidest(relative, layout.runtimeSources).value)
  {
    SearchFindsFirstWidest(relative, layout.runtimeSources);
    FirstWidestMeaning(relative, layout.runtimeSources);
  }

  lemma SameMembers(sources: seq<Source>, others: seq<Source>)
    requires multiset(sources) == multiset(others)
    ensures forall s :: s in sources <==> s in others
  {
    forall s ensures s in sources <==> s in others {
      assert s in sources <==> s in multiset(sources);
      assert s in others <==> s in multiset(others);
    }
  }

  lemma OrderDecidesOnlyTies(path: Path, relative: Path, layout: Layout, other: Layout)
    requires NoTies(relative, layout) && SameOwnerPaths(layout.ownershipRoots, other.ownershipRoots)
    requires forall s :: s in layout.runtimeSources <==> s in other.runtimeSources
    ensures PlaceOf(OwnershipPosition(path, relative, Test, other)) ==
            PlaceOf(OwnershipPosition(path, relative, Test, layout))
    ensures layout.ownershipRoots == other.ownershipRoots ==>
              OwnershipPosition(path, relative, Test, other) == OwnershipPosition(path, relative, Test, layout)
  {
    TestOwner(path, relative, layout);
    TestOwner(path, relative, other);
    FirstWidestMeaning(relative, layout.runtimeSources);
    FirstWidestMeaning(relative, other.runtimeSources);
    var s, t := FirstWidest(relative, layout.runtimeSources), FirstWidest(relative, other.runtimeSources);
    if t.Some? {
      assert IsWidest(relative, layout.runtimeSources, t.value);
      var p, q := Projection(relative, s.value).value, Projection(relative, t.value).value;
      PlaceDependsOnPaths(q, layout.ownershipRoots, other.ownershipRoots);
      PlaceFixesPosition(p, q, layout.ownershipRoots);
    }
  }

  /** The sources with one of them moved to the front. */
  function InFront(sources: seq<Source>, k: nat): (others: seq<Source>)
    requires k < |sources|
    ensures others != [] && others[0] == sources[k]
  {
    [sources[k]] + (sources[..k] + sources[k + 1..])
  }

  lemma InFrontIsReordered(sources: seq<Source>, k: nat)
    requires k < |sources|
    ensures multiset(InFront(sources, k)) == multiset(sources)
  {
    assert sources == sources[..k] + [sources[k]] + sources[k + 1..];
  }

  lemma {:induction false} FrontWins(relative: Path, sources: seq<Source>)
    requires sources != [] && IsWidest(relative, sources, sources[0])
    ensures FirstWidest(relative, sources) == Some(sources[0])
  {
    var init := sources[..|sources| - 1];
    if init == [] {
      assert FirstWidest(relative, init).None?;
    } else {
      assert forall s | s in init :: s in sources;
      FrontWins(relative, init);
    }
  }

  lemma InFrontWins(path: Path, relative: Path, layout: Layout, s: Source) returns (other: Layout)
    requires IsWidest(relative, layout.runtimeSources, s)
    ensures Reordered(layout, other)
    ensures OwnershipPosition(path, relative, Test, other) ==
            OwnedBy(Projection(relative, s).value, layout.ownershipRoots)
  {
    var k :| 0 <= k < |layout.runtimeSources| && layout.runtimeSources[k] == s;
    other := layout.(runtimeSources := InFront(layout.runtimeSources, k));
    InFrontIsReordered(layout.runtimeSources, k);
    SameMembers(layout.runtimeSources, other.runtimeSources);
    FrontWins(relative, other.runtimeSources);
    TestOwner(path, relative, other);
  }

  /** The order of the runtime roots decides nothing about the place of a test file exactly when no ties disagree. */
  lemma TestOwnerOrderIrrelevantExactly(path: Path, relative: Path, layout: Layout)
    ensures PlaceKeepsInAnyOrder(path, relative, layout) <==> NoTies(relative, layout)
  {
    if NoTies(relative, layout) {
      forall other | Reordered(layout, other)
        ensures PlaceOf(OwnershipPosition(path, relative, Test, other)) ==
                PlaceOf(OwnershipPosition(path, relative, Test, layout))
      {
        SameMembers(layout.runtimeSources, other.runtimeSources);
        OrderDecidesOnlyTies(path, relative, layout, other);
      }
    }
    if PlaceKeepsInAnyOrder(path, relative, layout) {
      forall s, t | IsWidest(relative, layout.runtimeSources, s) && IsWidest(relative, layout.runtimeSources, t)
        ensures PlaceOf(OwnedBy(Projection(relative, s).value, layout.ownershipRoots)) ==
                PlaceOf(OwnedBy(Projection(relative, t).value, layout.ownershipRoots))
      {
        var a := InFrontWins(path, relative, layout, s);
        var b := InFrontWins(path, relative, layout, t);
        assert Reordered(layout, a) && Reordered(layout, b);
      }
    }
  }

  // ---------- Two roots that tie ----------

  const TIED_TEST: Path := ["b", "a", "t.py"]

  const TIED_OWNERS := [OwnershipRoot(["a"], "a"), OwnershipRoot(["b"], "b")]

  /** Two roots that are not nested tie for a test file below directories named like both. */
  lemma TiedRootsDisagree() returns (layout: Layout, other: Layout)
    ensures Reordered(layout, other) && RuntimeNotNested(layout)
    ensures OwnershipPosition(TIED_TEST, TIED_TEST, Test, layout) == Position(Some(TIED_OWNERS[0]), ["t.py"])
    ensures OwnershipPosition(TIED_TEST, TIED_TEST, Test, other) == Position(Some(TIED_OWNERS[1]), ["a", "t.py"])
  {
    var a, b := Source(["a"], ["a"]), Source(["b"], ["b"]);
    layout, other := Layout([a, b], [], [], TIED_OWNERS), Layout([b, a], [], [], TIED_OWNERS);
    TiedNotNested(layout);
    assert multiset([a] + [b]) == multiset([b] + [a]);
    TiedProjections(a, b);
    FirstOfTwoWins(layout, a, b);
    FirstOfTwoWins(other, b, a);
    TiedOwners(["t.py"], ["a", "t.py"]);
  }

  lemma TiedNotNested(layout: Layout)
    requires layout.runtimeSources == [Source(["a"], ["a"]), Source(["b"], ["b"])]
    ensures RuntimeNotNested(layout)
  {
    assert "a"[0] != "b"[0] && ["a"][0] != ["b"][0];
    forall s <- layout.runtimeSources ensures |s.path| == 1 {
    }
  }

  lemma FirstOfTwoWins(layout: Layout, s: Source, t: Source)
    requires layout.runtimeSources == [s, t] && Width(s) == Width(t)
    requires Projection(TIED_TEST, s).Some? && Projection(TIED_TEST, t).Some?
    ensures OwnershipPosition(TIED_TEST, TIED_TEST, Test, layout) ==
            OwnedBy(Projection(TIED_TEST, s).value, layout.ownershipRoots)
  {
    assert IsWidest(TIED_TEST, [s, t], s) by { assert [s, t][0] in [s, t]; }
    FrontWins(TIED_TEST, [s, t]);
    TestOwner(TIED_TEST, TIED_TEST, layout);
  }

  lemma TiedOwners(below: Path, above: Path)
    ensures OwnedBy(["a"] + below, TIED_OWNERS) == Position(Some(TIED_OWNERS[0]), below)
    ensures OwnedBy(["b"] + above, TIED_OWNERS) == Position(Some(TIED_OWNERS[1]), above)
  {
    assert "a"[0] != "b"[0];
    OwnerMeaning(["a"] + below, TIED_OWNERS);
    OwnerMeaning(["b"] + above, TIED_OWNERS);
    assert TIED_OWNERS[0] in TIED_OWNERS && TIED_OWNERS[1] in TIED_OWNERS;
  }

  lemma TiedProjections(a: Source, b: Source)
    requires a == Source(["a"], ["a"]) && b == Source(["b"], ["b"])
    ensures Projection(TIED_TEST, a) == Some(["a"] + ["t.py"])
    ensures Projection(TIED_TEST, b) == Some(["b"] + ["a", "t.py"])
  {
    var directories := Directories(TIED_TEST);
    assert directories == ["b", "a"] && "a"[0] != "b"[0];
    assert directories[0..0 + 1] == ["b"] && directories[1..1 + 1] == ["a"];
    assert !WindowAt(directories, ["a"], 0) by { assert directories[0..0 + 1][0] != ["a"][0]; }
    FirstWindowIs(directories, ["a"], 1);
    FirstWindowIs(directories, ["b"], 0);
    assert TIED_TEST[1 + 1..] == ["t.py"] && TIED_TEST[0 + 1..] == ["a", "t.py"];
  }

  lemma FirstWindowIs(directories: Path, parts: Path, index: nat)
    requires WindowAt(directories, parts, index) && forall i: nat | i < index :: !WindowAt(directories, parts, i)
    ensures FirstWindow(directories, parts, 0) == Some(index)
  {
  }

  // ---------- Default ownership roots ----------

  function Decimal(n: nat): (text: string)
    ensures text != ""
  {
    if n < 10 then ["0123456789"[n]] else Decimal(n / 10) + ["0123456789"[n % 10]]
  }

  function ValueOf(text: string): int {
    if text == "" then 0 else 10 * ValueOf(text[..|text| - 1]) + (text[|text| - 1] as int - '0' as int)
  }

  /** Decimal digits without a leading zero, with the number as their value. */
  lemma {:induction false} DecimalMeaning(n: nat)
    ensures ValueOf(Decimal(n)) == n && (forall c <- Decimal(n) :: '0' <= c <= '9')
    ensures n > 0 ==> Decimal(n)[0] != '0'
  {
    DigitValue(n % 10);
    if n >= 10 {
      var shorter, digit := Decimal(n / 10), ["0123456789"[n % 10]];
      DecimalMeaning(n / 10);
      assert Decimal(n) == shorter + digit && (shorter + digit)[..|shorter|] == shorter;
    } else {
      assert Decimal(n)[..0] == "";
    }
  }

  lemma DigitValue(d: nat)
    requires d < 10
    ensures "0123456789"[d] as int == d + '0' as int
  {
  }

  function Declaration(index: nat): string {
    "roots[" + Decimal(index) + "]"
  }

  lemma OnlyZeroIsZero(index: nat)
    ensures Declaration(index) == Declaration(0) <==> index == 0
  {
    if index > 0 {
      DecimalMeaning(index);
      assert Declaration(index)[6] == Decimal(index)[0] && Declaration(0)[6] == '0';
    }
  }

  /** Without configured ownership roots every runtime root is one, declared by its index. */
  function DefaultOwners(sources: seq<Source>): (roots: seq<OwnershipRoot>)
    ensures |roots| == |sources|
    ensures forall i :: 0 <= i < |roots| ==> roots[i] == OwnershipRoot(sources[i].path, Declaration(i))
  {
    seq(|sources|, i requires 0 <= i < |sources| => OwnershipRoot(sources[i].path, Declaration(i)))
  }

  lemma DefaultOwnersOwn(sources: seq<Source>, p: Path)
    ensures Owns(DefaultOwners(sources), p) <==> exists s :: s in sources && s.path == p
  {
    var roots := DefaultOwners(sources);
    if s :| s in sources && s.path == p {
      var i :| 0 <= i < |sources| && sources[i] == s;
      assert roots[i] in roots;
    }
    if r :| r in roots && r.path == p {
      var i :| 0 <= i < |roots| && roots[i] == r;
      assert sources[i] in sources;
    }
  }

  /** Default layouts are among the reordered ones, although their declarations change. */
  lemma DefaultsAreReordered(layout: Layout, other: Layout)
    requires multiset(layout.runtimeSources) == multiset(other.runtimeSources)
    requires layout.ownershipRoots == DefaultOwners(layout.runtimeSources)
    requires other.ownershipRoots == DefaultOwners(other.runtimeSources)
    ensures Reordered(layout, other)
  {
    SameMembers(layout.runtimeSources, other.runtimeSources);
    forall p ensures Owns(layout.ownershipRoots, p) <==> Owns(other.ownershipRoots, p) {
      DefaultOwnersOwn(layout.runtimeSources, p);
      DefaultOwnersOwn(other.runtimeSources, p);
    }
  }

  ghost predicate IsFirstIndex(sources: seq<Source>, p: Path, k: nat) {
    k < |sources| && sources[k].path == p && forall j | 0 <= j < k :: sources[j].path != p
  }

  lemma {:induction false} FirstAtIndex(roots: seq<OwnershipRoot>, p: Path) returns (k: nat)
    requires FirstAt(roots, p).Some?
    ensures k < |roots| && FirstAt(roots, p) == Some(roots[k]) && roots[k].path == p
    ensures forall j | 0 <= j < k :: roots[j].path != p
  {
    if roots[0].path == p {
      k := 0;
    } else {
      k := FirstAtIndex(roots[1..], p);
      assert forall j | 0 < j <= k :: roots[j] == roots[1..][j - 1];
      k := k + 1;
    }
  }

  /** A default owner is declared by the first index of its path. */
  lemma DeclarationFollowsIndex(path: Path, sources: seq<Source>) returns (k: nat)
    requires OwnedBy(path, DefaultOwners(sources)).owner.Some?
    ensures var owner := OwnedBy(path, DefaultOwners(sources)).owner.value;
      IsFirstIndex(sources, owner.path, k) && owner.declaration == Declaration(k)
  {
    var roots := DefaultOwners(sources);
    OwnerIsFirst(path, roots);
    k := FirstAtIndex(roots, OwnedBy(path, roots).owner.value.path);
  }

  ghost predicate OwnerKeepsInAnyOrder(path: Path, sources: seq<Source>) {
    forall others | multiset(others) == multiset(sources) ::
      OwnedBy(path, DefaultOwners(others)).owner == OwnedBy(path, DefaultOwners(sources)).owner
  }

  lemma SamePlaceInAnyOrder(path: Path, sources: seq<Source>, others: seq<Source>)
    requires multiset(others) == multiset(sources)
    ensures PlaceOf(OwnedBy(path, DefaultOwners(others))) == PlaceOf(OwnedBy(path, DefaultOwners(sources)))
  {
    SameMembers(sources, others);
    forall p ensures Owns(DefaultOwners(sources), p) <==> Owns(DefaultOwners(others), p) {
      DefaultOwnersOwn(sources, p);
      DefaultOwnersOwn(others, p);
    }
    PlaceDependsOnPaths(path, DefaultOwners(sources), DefaultOwners(others));
  }

  /** With default owners, a source in front is declared by zero if and only if it is the owner. */
  lemma DeclarationInFront(path: Path, sources: seq<Source>, k: nat)
    requires k < |sources| && OwnedBy(path, DefaultOwners(sources)).owner.Some?
    ensures var owner := OwnedBy(path, DefaultOwners(InFront(sources, k))).owner;
      && owner.Some?
      && (owner.value.declaration == Declaration(0) <==>
          sources[k].path == OwnedBy(path, DefaultOwners(sources)).owner.value.path)
  {
    InFrontIsReordered(sources, k);
    SamePlaceInAnyOrder(path, sources, InFront(sources, k));
    var i := DeclarationFollowsIndex(path, InFront(sources, k));
    OnlyZeroIsZero(i);
  }

  /**
   * In a default layout the declaration of a file's owner is the same in every order of the runtime roots
   * exactly when the file has no owner or all runtime roots lie at the owner's path.
   */
  lemma DeclarationOrderIrrelevantExactly(path: Path, sources: seq<Source>)
    ensures var owner := OwnedBy(path, DefaultOwners(sources)).owner;
      OwnerKeepsInAnyOrder(path, sources) <==> owner.None? || forall s <- sources :: s.path == owner.value.path
  {
    var owner := OwnedBy(path, DefaultOwners(sources)).owner;
    if owner.None? || forall s <- sources :: s.path == owner.value.path {
      forall others | multiset(others) == multiset(sources)
        ensures OwnedBy(path, DefaultOwners(others)).owner == owner
      {
        SamePlaceInAnyOrder(path, sources, others);
        SameMembers(sources, others);
        if owner.Some? {
          var i := DeclarationFollowsIndex(path, sources);
          var j := DeclarationFollowsIndex(path, others);
          assert sources[0] in sources && others[0] in others;
        }
      }
    } else {
      var k := DeclarationFollowsIndex(path, sources);
      var s :| s in sources && s.path != owner.value.path;
      var n :| 0 <= n < |sources| && sources[n] == s;
      DeclarationInFront(path, sources, k);
      DeclarationInFront(path, sources, n);
      InFrontIsReordered(sources, k);
      InFrontIsReordered(sources, n);
    }
  }

  /** Swapping two roots leaves a runtime file where it is, under another declaration. */
  lemma SwappedRootsRedeclare()
    ensures var a, b := Source(["a"], ["a"]), Source(["b"], ["b"]);
      && OwnedBy(["a", "x.py"], DefaultOwners([a, b])) == Position(Some(OwnershipRoot(["a"], "roots[0]")), ["x.py"])
      && OwnedBy(["a", "x.py"], DefaultOwners([b, a])) == Position(Some(OwnershipRoot(["a"], "roots[1]")), ["x.py"])
  {
    var a, b := Source(["a"], ["a"]), Source(["b"], ["b"]);
    assert "a"[0] != "b"[0];
    assert ["a"] + ["x.py"] == ["a", "x.py"];
    assert Decimal(0) == "0" && Decimal(1) == "1";
    assert Declaration(0) == "roots[0]" && Declaration(1) == "roots[1]";
    RedeclaredOwner(DefaultOwners([a, b]), 0);
    RedeclaredOwner(DefaultOwners([b, a]), 1);
  }

  lemma RedeclaredOwner(roots: seq<OwnershipRoot>, k: nat)
    requires |roots| == 2 && k < 2 && roots[k].path == ["a"] && roots[1 - k].path == ["b"]
    ensures OwnedBy(["a"] + ["x.py"], roots) == Position(Some(roots[k]), ["x.py"])
  {
    OwnerMeaning(["a"] + ["x.py"], roots);
    assert roots[k] in roots && Under(["a"] + ["x.py"], roots[k].path);
    assert "a"[0] != "b"[0] && ["a"][0] != ["b"][0];
  }
}
