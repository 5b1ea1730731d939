/** What the answers to project queries are, written out in terms of files, paths and parsers. */
module QueryMeanings {
  import opened Options
  import opened ProjectWorld
  import opened Sequences
  import opened Sorting

  // ---------- Sources ----------

  /** The text of a file, and nothing for one that cannot be read or decoded. */
  ghost predicate Decodes(decode: Bytes -> Option<string>, w: World, key: Path, text: Option<string>) {
    text == if w.read(key).None? then None else decode(w.read(key).value)
  }

  /** A discovered file is parsed strictly, any other tolerantly; nothing comes of a file without a text. */
  ghost predicate Analyses(env: Environment, tree: Tree, w: World, key: Path, analysis: Option<Analysis>) {
    exists text ::
      && Decodes(env.decodePython, w, key, text)
      && if text.None? then analysis.None?
         else analysis == if key in tree.discovered then env.parseNative(key, text.value)
                          else env.parsePython(key, text.value)
  }

  /** The strict parse of a file with its path and the identity of its content, nothing if it does not parse. */
  ghost predicate ParsesStrictly(env: Environment, w: World, key: Path, parsed: Option<ParsedModule>) {
    exists text ::
      && Decodes(env.decodePython, w, key, text)
      && if text.None? || env.parseNative(key, text.value).None? then parsed.None?
         else parsed == Some(ParsedModule(key, Sha256(w.read(key).value), env.parseNative(key, text.value).value))
  }

  lemma ParseMeaning(env: Environment, w: World, key: Path)
    ensures ParsesStrictly(env, w, key, DiscoveredModule(env, w, key))
  {
    assert Decodes(env.decodePython, w, key, SourceText(env, w, key));
  }

  lemma AnalysisMeaning(env: Environment, tree: Tree, w: World, key: Path)
    ensures Analyses(env, tree, w, key, AnalysisAt(env, tree, w, key))
  {
    assert Decodes(env.decodePython, w, key, SourceText(env, w, key));
  }

  /** What one of the parsers of the metadata finds in its UTF-8 text, nothing without a text. */
  ghost predicate FoundInMetadata<T>(env: Environment, tree: Tree, w: World, parse: string -> seq<T>, found: seq<T>) {
    exists text ::
      && Decodes(env.decodeUtf8, w, env.resolve(tree.root + ["pyproject.toml"]), text)
      && found == if text.None? then [] else parse(text.value)
  }

  lemma MetadataMeaning(env: Environment, tree: Tree, w: World)
    ensures FoundInMetadata(env, tree, w, env.entrypointModules, EntrypointModulesOf(env, tree, w))
    ensures FoundInMetadata(env, tree, w, env.entrypointSymbols, EntrypointSymbolsOf(env, tree, w))
  {
    assert Decodes(env.decodeUtf8, w, env.resolve(tree.root + ["pyproject.toml"]), MetadataText(env, tree, w));
  }

  // ---------- Functions ----------

  /** The first function of the name, nothing if none has it. */
  ghost predicate FirstOfName(functions: seq<FunctionFact>, name: string, fact: Option<FunctionFact>) {
    if fact.None? then forall f <- functions :: f.name != name
    else exists k :: 0 <= k < |functions| && functions[k] == fact.value && fact.value.name == name
                     && forall j | 0 <= j < k :: functions[j].name != name
  }

  lemma {:induction false} FirstNamedMeaning(functions: seq<FunctionFact>, name: string)
    ensures FirstOfName(functions, name, FirstNamed(functions, name))
  {
    if functions != [] && functions[0].name != name {
      FirstNamedMeaning(functions[1..], name);
      var fact := FirstNamed(functions[1..], name);
      if fact.Some? {
        var k :| 0 <= k < |functions| - 1 && functions[1..][k] == fact.value
          && forall j | 0 <= j < k :: functions[1..][j].name != name;
        assert functions[k + 1] == fact.value;
        forall j | 0 <= j < k + 1 ensures functions[j].name != name {
          assert j > 0 ==> functions[j] == functions[1..][j - 1];
        }
      } else {
        assert forall f <- functions :: f == functions[0] || f in functions[1..];
      }
    }
  }

  // ---------- The lookup of a module ----------

  predicate IsNamed(part: string) {
    part != ""
  }

  /** `rest` are the parts behind the first that are not empty. */
  ghost predicate Behind(parts: seq<string>, rest: seq<string>)
    requires parts != []
  {
    Selects(parts[1..], IsNamed, rest)
  }

  lemma {:induction false} NonEmptyIsChosen(parts: seq<string>)
    ensures NonEmpty(parts) == Chosen(parts, IsNamed)
  {
    if parts != [] {
      NonEmptyIsChosen(parts[1..]);
      ChosenInFront(parts[0], parts[1..], IsNamed);
      assert parts == [parts[0]] + parts[1..];
    }
  }

  lemma BehindExactly(parts: seq<string>, rest: seq<string>)
    requires parts != []
    ensures Behind(parts, rest) <==> rest == NonEmpty(parts[1..])
  {
    NonEmptyIsChosen(parts[1..]);
    ChosenIsSelected(parts[1..], IsNamed);
    if Behind(parts, rest) {
      SelectionIsUnique(parts[1..], IsNamed, rest);
    }
  }

  ghost predicate IsFileAt(env: Environment, w: World, p: Path) {
    w.isFile(env.resolve(p))
  }

  /** `a/b.py` below the source. */
  ghost predicate ModuleAt(env: Environment, w: World, source: ProjectSource, rest: seq<string>, p: Path) {
    && rest != [] && p == source.path + rest[..|rest| - 1] + [rest[|rest| - 1] + ".py"]
    && IsFileAt(env, w, p)
  }

  /** `a/b/__init__.py` below the source. */
  ghost predicate PackageAt(env: Environment, w: World, source: ProjectSource, rest: seq<string>, p: Path) {
    p == source.path + rest + ["__init__.py"] && IsFileAt(env, w, p)
  }

  /**
   * The file that defines the module under the source: for a package itself its `__init__.py`, otherwise the
   * module's own file or, where that is no file, the `__init__.py` of its directory.
   */
  ghost predicate DefinedAt(env: Environment, w: World, source: ProjectSource, parts: seq<string>, rest: seq<string>,
                            p: Path)
    requires parts != []
  {
    && source.packageName == parts[0]
    && if |parts| == 1 then PackageAt(env, w, source, [], p)
       else ModuleAt(env, w, source, rest, p)
            || (PackageAt(env, w, source, rest, p) && forall q :: !ModuleAt(env, w, source, rest, q))
  }

  ghost predicate DefinedUnder(env: Environment, w: World, source: ProjectSource, parts: seq<string>,
                               rest: seq<string>)
    requires parts != []
  {
    exists p :: DefinedAt(env, w, source, parts, rest, p)
  }

  /** Naming the files of a module raises where nothing but empty parts stand behind the package. */
  predicate CannotBeNamed(parts: seq<string>, rest: seq<string>) {
    |parts| > 1 && rest == []
  }

  /** What the sources lead to: the file under the first one that defines the module. */
  ghost predicate LeadsBy(env: Environment, w: World, sources: seq<ProjectSource>, parts: seq<string>,
                          rest: seq<string>, r: Lookup)
    requires parts != []
  {
    if CannotBeNamed(parts, rest) then
      if exists s <- sources :: s.packageName == parts[0] then r == Invalid else r == Missing
    else
      match r
      case Found(p) => exists i: nat :: FirstDefines(env, w, sources, parts, rest, i, p)
      case Missing => forall s <- sources :: !DefinedUnder(env, w, s, parts, rest)
      case Invalid => false
  }

  ghost predicate FirstDefines(env: Environment, w: World, sources: seq<ProjectSource>, parts: seq<string>,
                               rest: seq<string>, i: nat, p: Path)
    requires parts != []
  {
    && i < |sources| && DefinedAt(env, w, sources[i], parts, rest, p)
    && forall j | 0 <= j < i :: !DefinedUnder(env, w, sources[j], parts, rest)
  }

  /** The lookup of a module by the parts of its name. */
  ghost predicate Leads(env: Environment, w: World, sources: seq<ProjectSource>, parts: seq<string>, r: Lookup) {
    if parts == [] then r == Missing
    else exists rest :: Behind(parts, rest) && LeadsBy(env, w, sources, parts, rest, r)
  }

  lemma TriedMeaning(env: Environment, w: World, source: ProjectSource, parts: seq<string>, rest: seq<string>)
    requires parts != [] && rest == NonEmpty(parts[1..]) && !CannotBeNamed(parts, rest)
    ensures Tried(source, parts).Some?
    ensures var found := FirstFile(env, w, Tried(source, parts).value);
      && (found.Some? ==> DefinedAt(env, w, source, parts, rest, found.value))
      && (found.None? ==> !DefinedUnder(env, w, source, parts, rest))
  {
    if source.packageName == parts[0] {
      if |parts| == 1 {
        FirstOfOne(env, w, PackageFile(source, []));
      } else {
        FirstOfTwo(env, w, ModuleFile(source, rest), PackageFile(source, rest));
      }
    }
  }

  lemma FirstOfOne(env: Environment, w: World, p: Path)
    ensures FirstFile(env, w, [p]) == if IsFileAt(env, w, p) then Some(p) else None
  {
    assert [p][1..] == [];
  }

  lemma FirstOfTwo(env: Environment, w: World, p: Path, q: Path)
    ensures FirstFile(env, w, [p, q]) ==
            if IsFileAt(env, w, p) then Some(p) else if IsFileAt(env, w, q) then Some(q) else None
  {
    assert [p, q][1..] == [q];
    FirstOfOne(env, w, q);
  }

  lemma {:induction false} NameableLeads(env: Environment, w: World, sources: seq<ProjectSource>, parts: seq<string>,
                                         rest: seq<string>, k: nat)
    requires parts != [] && rest == NonEmpty(parts[1..]) && !CannotBeNamed(parts, rest) && k <= |sources|
    requires forall j | 0 <= j < k :: !DefinedUnder(env, w, sources[j], parts, rest)
    ensures LeadsBy(env, w, sources, parts, rest, ModulePath(env, w, sources[k..], parts))
    decreases |sources| - k
  {
    if k < |sources| {
      assert sources[k..][0] == sources[k] && sources[k..][1..] == sources[k + 1..];
      TriedMeaning(env, w, sources[k], parts, rest);
      var found := FirstFile(env, w, Tried(sources[k], parts).value);
      if found.Some? {
        assert FirstDefines(env, w, sources, parts, rest, k, found.value);
      } else {
        NameableLeads(env, w, sources, parts, rest, k + 1);
      }
    } else {
      assert sources[k..] == [];
      assert forall s <- sources :: !DefinedUnder(env, w, s, parts, rest);
    }
  }

  lemma {:induction false} UnnameableLeads(env: Environment, w: World, sources: seq<ProjectSource>, parts: seq<string>)
    requires |parts| > 1 && NonEmpty(parts[1..]) == []
    ensures ModulePath(env, w, sources, parts) ==
            if exists s <- sources :: s.packageName == parts[0] then Invalid else Missing
  {
    if sources != [] {
      assert forall s :: s in sources <==> s == sources[0] || s in sources[1..];
      if sources[0].packageName != parts[0] {
        UnnameableLeads(env, w, sources[1..], parts);
        assert FirstFile(env, w, []) == None;
      }
    }
  }

  /** The search over the sources leads where the files say. */
  lemma ModulePathMeaning(env: Environment, w: World, sources: seq<ProjectSource>, parts: seq<string>)
    ensures Leads(env, w, sources, parts, ModulePath(env, w, sources, parts))
  {
    if parts != [] {
      var rest := NonEmpty(parts[1..]);
      BehindExactly(parts, rest);
      if CannotBeNamed(parts, rest) {
        UnnameableLeads(env, w, sources, parts);
      } else {
        NameableLeads(env, w, sources, parts, rest, 0);
        assert sources[0..] == sources;
      }
    }
  }

  lemma DefinedOnce(env: Environment, w: World, source: ProjectSource, parts: seq<string>, rest: seq<string>,
                    p: Path, q: Path)
    requires parts != []
    requires DefinedAt(env, w, source, parts, rest, p) && DefinedAt(env, w, source, parts, rest, q)
    ensures p == q
  {
  }

  lemma FoundOnce(env: Environment, w: World, sources: seq<ProjectSource>, parts: seq<string>, rest: seq<string>,
                  i: nat, p: Path, j: nat, q: Path)
    requires parts != []
    requires FirstDefines(env, w, sources, parts, rest, i, p) && FirstDefines(env, w, sources, parts, rest, j, q)
    ensures p == q
  {
    assert DefinedUnder(env, w, sources[i], parts, rest) && DefinedUnder(env, w, sources[j], parts, rest);
    assert i == j;
    DefinedOnce(env, w, sources[i], parts, rest, p, q);
  }

  lemma FoundIsNotMissing(env: Environment, w: World, sources: seq<ProjectSource>, parts: seq<string>,
                          rest: seq<string>, i: nat, p: Path)
    requires parts != [] && FirstDefines(env, w, sources, parts, rest, i, p)
    ensures exists s <- sources :: DefinedUnder(env, w, s, parts, rest)
  {
    assert sources[i] in sources && DefinedUnder(env, w, sources[i], parts, rest);
  }

  /** They lead to one thing only. */
  lemma LeadsToOne(env: Environment, w: World, sources: seq<ProjectSource>, parts: seq<string>, r: Lookup, s: Lookup)
    requires Leads(env, w, sources, parts, r) && Leads(env, w, sources, parts, s)
    ensures r == s
  {
    if parts != [] {
      var rest :| Behind(parts, rest) && LeadsBy(env, w, sources, parts, rest, r);
      var other :| Behind(parts, other) && LeadsBy(env, w, sources, parts, other, s);
      BehindExactly(parts, rest);
      BehindExactly(parts, other);
      LeadsByOne(env, w, sources, parts, rest, r, s);
    }
  }

  lemma LeadsByOne(env: Environment, w: World, sources: seq<ProjectSource>, parts: seq<string>, rest: seq<string>,
                   r: Lookup, s: Lookup)
    requires parts != [] && LeadsBy(env, w, sources, parts, rest, r) && LeadsBy(env, w, sources, parts, rest, s)
    ensures r == s
  {
    if !CannotBeNamed(parts, rest) {
      if r.Found? {
        var i: nat :| FirstDefines(env, w, sources, parts, rest, i, r.path);
        FoundIsNotMissing(env, w, sources, parts, rest, i, r.path);
      }
      if s.Found? {
        var j: nat :| FirstDefines(env, w, sources, parts, rest, j, s.path);
        FoundIsNotMissing(env, w, sources, parts, rest, j, s.path);
      }
      if r.Found? && s.Found? {
        var i: nat :| FirstDefines(env, w, sources, parts, rest, i, r.path);
        var j: nat :| FirstDefines(env, w, sources, parts, rest, j, s.path);
        FoundOnce(env, w, sources, parts, rest, i, r.path, j, s.path);
      }
    }
  }

  lemma OnlyModulePath(env: Environment, w: World, sources: seq<ProjectSource>, parts: seq<string>)
    ensures var r := ModulePath(env, w, sources, parts);
      Leads(env, w, sources, parts, r) && forall other | Leads(env, w, sources, parts, other) :: other == r
  {
    var r := ModulePath(env, w, sources, parts);
    ModulePathMeaning(env, w, sources, parts);
    forall other | Leads(env, w, sources, parts, other) ensures other == r {
      LeadsToOne(env, w, sources, parts, r, other);
    }
  }

  /** The first function of the name in the analysis of the file that the name of the module leads to. */
  ghost predicate FunctionOf(env: Environment, tree: Tree, w: World, lookup: Lookup, name: string, r: Response) {
    match lookup
    case Invalid => r == Raised
    case Missing => r == FunctionIs(None)
    case Found(p) =>
      r.FunctionIs? && exists analysis ::
        && Analyses(env, tree, w, env.resolve(p), analysis)
        && if analysis.None? then r.fact.None? else FirstOfName(analysis.value.functions, name, r.fact)
  }

  lemma FunctionMeaning(env: Environment, tree: Tree, w: World, lookup: Lookup, name: string)
    ensures FunctionOf(env, tree, w, lookup, name, FunctionResponse(env, tree, w, lookup, name))
  {
    if lookup.Found? {
      var analysis := AnalysisAt(env, tree, w, env.resolve(lookup.path));
      AnalysisMeaning(env, tree, w, env.resolve(lookup.path));
      if analysis.Some? {
        FirstNamedMeaning(analysis.value.functions, name);
      }
    }
  }

  // ---------- Anchors ----------

  /** One of the paths, and the first of them where paths are in order. */
  ghost predicate FirstPath(env: Environment, paths: seq<Path>, first: Option<Path>) {
    && first.Some? && first.value in paths
    && (StrictOrder(env.pathBefore) ==> forall p <- paths :: p == first.value || env.pathBefore(first.value, p))
  }

  lemma {:induction false} LeastMeaning(env: Environment, paths: seq<Path>)
    requires paths != []
    ensures FirstPath(env, paths, Least(env, paths))
  {
    assert forall p :: p in paths <==> p == paths[0] || p in paths[1..];
    if |paths| > 1 {
      LeastMeaning(env, paths[1..]);
    } else {
      assert Least(env, paths[1..]) == None;
    }
  }

  /** The directory's `__init__.py`, else its first module, else the first module anywhere below it. */
  ghost predicate AnchoredAt(env: Environment, w: World, path: Path, anchor: Option<Path>) {
    if IsFileAt(env, w, path + ["__init__.py"]) then anchor == Some(path + ["__init__.py"])
    else if w.glob(path, "*.py", false) != [] then FirstPath(env, w.glob(path, "*.py", false), anchor)
    else if w.glob(path, "*.py", true) != [] then FirstPath(env, w.glob(path, "*.py", true), anchor)
    else anchor == None
  }

  lemma AnchorMeaning(env: Environment, w: World, path: Path)
    ensures AnchoredAt(env, w, path, AnchorAt(env, w, path))
  {
    if w.glob(path, "*.py", false) != [] {
      LeastMeaning(env, w.glob(path, "*.py", false));
    } else if w.glob(path, "*.py", true) != [] {
      LeastMeaning(env, w.glob(path, "*.py", true));
    }
  }

  // ---------- All queries ----------

  /** `r` is the answer to the query, in terms of the files and parsers alone. */
  ghost predicate Means(env: Environment, tree: Tree, w: World, query: Query, r: Response) {
    match query
    case AnalysisOf(path) => r.AnalysisIs? && Analyses(env, tree, w, env.resolve(path), r.analysis)
    case NativeSourceOf(path) => r.SourceIs? && Decodes(env.decodePython, w, env.resolve(path), r.source)
    case DataclassesOf(path) =>
      r.Names? && exists analysis ::
        && Analyses(env, tree, w, env.resolve(path), analysis)
        && r.names == if analysis.None? then [] else analysis.value.dataclasses
    case ModuleFunction(parts, name) =>
      exists lookup :: Leads(env, w, tree.sources, parts, lookup) && FunctionOf(env, tree, w, lookup, name, r)
    case EntrypointModules => r.Names? && FoundInMetadata(env, tree, w, env.entrypointModules, r.names)
    case EntrypointSymbols => r.Symbols? && FoundInMetadata(env, tree, w, env.entrypointSymbols, r.symbols)
    case Exists(path) => r == Flag(w.present(env.resolve(path)))
    case IsFile(path) => r == Flag(w.isFile(env.resolve(path)))
    case IsDir(path) => r == Flag(w.isDir(env.resolve(path)))
    case DirectoryEntries(path) =>
      if w.entries(env.absolute(path)).None? then r == Raised else r == PathList(w.entries(env.absolute(path)).value)
    case Glob(path, pattern, recursive) => r == PathList(w.glob(env.absolute(path), pattern, recursive))
    case PythonAnchor(path) => r.AnchorIs? && AnchoredAt(env, w, env.absolute(path), r.anchor)
  }

  /** The reference answers are the answers. */
  lemma ReferenceMeaning(env: Environment, tree: Tree, w: World, query: Query)
    ensures Means(env, tree, w, query, Reference(env, tree, w, query))
  {
    match query
    case AnalysisOf(path) => AnalysisMeaning(env, tree, w, env.resolve(path));
    case DataclassesOf(path) => AnalysisMeaning(env, tree, w, env.resolve(path));
    case ModuleFunction(parts, name) =>
      ModulePathMeaning(env, w, tree.sources, parts);
      FunctionMeaning(env, tree, w, ModulePath(env, w, tree.sources, parts), name);
    case EntrypointModules => MetadataMeaning(env, tree, w);
    case EntrypointSymbols => MetadataMeaning(env, tree, w);
    case PythonAnchor(path) => AnchorMeaning(env, w, env.absolute(path));
    case _ =>
  }
}
