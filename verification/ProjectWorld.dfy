/** The world that project queries are answered from: a file system, the parsers applied to its
    bytes, and the memo-free meaning of every query. */
module ProjectWorld {
  import opened Options

  type Path = seq<string>
  type Bytes = seq<nat>

  /** The content identity of a file; distinct contents have distinct identities. */
  datatype Fingerprint = Sha256(content: Bytes)

  datatype FunctionFact = FunctionFact(name: string, meaningfulResult: bool)

  datatype Analysis = Analysis(path: Path, source: string, dataclasses: seq<string>, functions: seq<FunctionFact>)

  datatype ParsedModule = ParsedModule(path: Path, fingerprint: Fingerprint, analysis: Analysis)

  /** Everything the answers depend on besides the file system: path arithmetic under a fixed
      working directory and link structure, text decoding and parsing. */
  datatype Environment = Environment(
    resolve: Path -> Path,
    absolute: Path -> Path,
    decodePython: Bytes -> Option<string>,
    decodeUtf8: Bytes -> Option<string>,
    parseNative: (Path, string) -> Option<Analysis>,
    parsePython: (Path, string) -> Option<Analysis>,
    entrypointModules: string -> seq<string>,
    entrypointSymbols: string -> seq<(string, string)>,
    pathBefore: (Path, Path) -> bool)

  /** Resolving is idempotent and does not care whether a path was made absolute first. */
  ghost predicate ValidEnvironment(env: Environment) {
    && (forall p {:trigger env.resolve(env.resolve(p))} :: env.resolve(env.resolve(p)) == env.resolve(p))
    && (forall p {:trigger env.resolve(env.absolute(p))} :: env.resolve(env.absolute(p)) == env.resolve(p))
    && (forall p {:trigger env.absolute(env.absolute(p))} :: env.absolute(env.absolute(p)) == env.absolute(p))
  }

  /** One snapshot of the file system. Opening a path follows links, so contents and file tests are
      functions of the resolved path; listing is done at the path as spelled. */
  datatype World = World(
    read: Path -> Option<Bytes>,
    present: Path -> bool,
    isFile: Path -> bool,
    isDir: Path -> bool,
    entries: Path -> Option<seq<Path>>,
    glob: (Path, string, bool) -> seq<Path>)

  datatype ProjectSource = ProjectSource(path: Path, packageName: string)

  /** The discovered tree: its root, its import roots and its discovered files. */
  datatype Tree = Tree(root: Path, sources: seq<ProjectSource>, discovered: set<Path>)

  ghost predicate ValidTree(env: Environment, tree: Tree) {
    forall p | p in tree.discovered :: env.resolve(p) == p
  }

  const INIT_FILE: string := "__init__.py"
  const TEST_TYPES_FILE: string := "_test_types.py"

  function MetadataPath(tree: Tree): Path {
    tree.root + ["pyproject.toml"]
  }

  function FileName(path: Path): string {
    if path == [] then "" else path[|path| - 1]
  }

  // ---------------------------------------------------------------------------------------------
  // Sources
  // ---------------------------------------------------------------------------------------------

  function FingerprintAt(w: World, key: Path): Option<Fingerprint> {
    match w.read(key)
    case None => None
    case Some(content) => Some(Sha256(content))
  }

  /** The text of a file under Python's source encoding rules. */
  function SourceText(env: Environment, w: World, key: Path): Option<string> {
    match w.read(key)
    case None => None
    case Some(content) => env.decodePython(content)
  }

  /** Strict parse of a discovered file. */
  function DiscoveredModule(env: Environment, w: World, key: Path): Option<ParsedModule> {
    match SourceText(env, w, key)
    case None => None
    case Some(text) =>
      match env.parseNative(key, text)
      case None => None
      case Some(analysis) => Some(ParsedModule(key, Sha256(w.read(key).value), analysis))
  }

  /** Tolerant analysis of a file outside discovery. */
  function ExternalAnalysis(env: Environment, w: World, key: Path): Option<Analysis> {
    match SourceText(env, w, key)
    case None => None
    case Some(text) => env.parsePython(key, text)
  }

  function AnalysisAt(env: Environment, tree: Tree, w: World, key: Path): Option<Analysis> {
    if key in tree.discovered then
      match DiscoveredModule(env, w, key)
      case None => None
      case Some(parsed) => Some(parsed.analysis)
    else
      ExternalAnalysis(env, w, key)
  }

  /** UTF-8 text of the project metadata. */
  function MetadataText(env: Environment, tree: Tree, w: World): Option<string> {
    match w.read(env.resolve(MetadataPath(tree)))
    case None => None
    case Some(content) => env.decodeUtf8(content)
  }

  function EntrypointModulesOf(env: Environment, tree: Tree, w: World): seq<string> {
    match MetadataText(env, tree, w)
    case None => []
    case Some(text) => env.entrypointModules(text)
  }

  function EntrypointSymbolsOf(env: Environment, tree: Tree, w: World): seq<(string, string)> {
    match MetadataText(env, tree, w)
    case None => []
    case Some(text) => env.entrypointSymbols(text)
  }

  // ---------------------------------------------------------------------------------------------
  // Observations
  // ---------------------------------------------------------------------------------------------

  datatype Kind = SourceKind | ExistsKind | IsFileKind | IsDirKind | EntriesKind | GlobKind | AnchorKind

  datatype Answer = NoAnswer | Identity(fingerprint: Fingerprint) | Truth(holds: bool) | Paths(paths: seq<Path>)

  /** One question to the file system. `metadata` marks the question asked for the project metadata,
      which is answered with nothing unless the bytes are UTF-8. */
  datatype Observation = Observation(kind: Kind, path: Path, pattern: Option<string>, recursive: bool, metadata: bool)

  function Plain(kind: Kind, path: Path): Observation {
    Observation(kind, path, None, false, false)
  }

  function SourceAnswer(fingerprint: Option<Fingerprint>): Answer {
    match fingerprint
    case None => NoAnswer
    case Some(f) => Identity(f)
  }

  /** The first path in sorting order. */
  function Least(env: Environment, paths: seq<Path>): Option<Path> {
    if paths == [] then None else
      match Least(env, paths[1..])
      case None => Some(paths[0])
      case Some(best) => if env.pathBefore(best, paths[0]) then Some(best) else Some(paths[0])
  }

  /** `__init__.py`, else the first direct module, else the first module below. */
  function AnchorAt(env: Environment, w: World, path: Path): Option<Path> {
    var init := path + [INIT_FILE];
    if w.isFile(env.resolve(init)) then Some(init)
    else if w.glob(path, "*.py", false) != [] then Least(env, w.glob(path, "*.py", false))
    else Least(env, w.glob(path, "*.py", true))
  }

  function AnchorAnswer(anchor: Option<Path>): seq<Path> {
    match anchor
    case None => []
    case Some(path) => [path]
  }

  /** The query observer: what asking the file system answers, `None` when asking raises. */
  function Observe(env: Environment, w: World, kind: Kind, path: Path, pattern: Option<string>,
                   recursive: bool): Option<Answer> {
    match kind
    case SourceKind => Some(SourceAnswer(FingerprintAt(w, env.resolve(path))))
    case ExistsKind => Some(Truth(w.present(env.resolve(path))))
    case IsFileKind => Some(Truth(w.isFile(env.resolve(path))))
    case IsDirKind => Some(Truth(w.isDir(env.resolve(path))))
    case EntriesKind =>
      (match w.entries(env.absolute(path))
       case None => None
       case Some(entries) => Some(Paths(entries)))
    case GlobKind => if pattern.None? then None else Some(Paths(w.glob(env.absolute(path), pattern.value, recursive)))
    case AnchorKind => Some(Paths(AnchorAnswer(AnchorAt(env, w, env.absolute(path)))))
  }

  // ---------------------------------------------------------------------------------------------
  // Queries
  // ---------------------------------------------------------------------------------------------

  datatype Query =
    | AnalysisOf(path: Path)
    | NativeSourceOf(path: Path)
    | DataclassesOf(path: Path)
    | ModuleFunction(moduleParts: seq<string>, name: string)
    | EntrypointModules
    | EntrypointSymbols
    | Exists(path: Path)
    | IsFile(path: Path)
    | IsDir(path: Path)
    | DirectoryEntries(path: Path)
    | Glob(path: Path, pattern: string, recursive: bool)
    | PythonAnchor(path: Path)

  /** One recorded question with its answer, as rules may list it. */
  datatype Dependency = Dependency(
    requester: Path, queryPath: Path, dependency: Path, kind: Kind, answer: Answer, pattern: Option<string>,
    recursive: bool)

  datatype Response =
    | Raised
    | AnalysisIs(analysis: Option<Analysis>)
    | SourceIs(source: Option<string>)
    | Names(names: seq<string>)
    | FunctionIs(fact: Option<FunctionFact>)
    | Symbols(symbols: seq<(string, string)>)
    | Flag(holds: bool)
    | PathList(paths: seq<Path>)
    | AnchorIs(anchor: Option<Path>)
    | DependencyList(dependencies: seq<Dependency>)

  function DataclassesIn(analysis: Option<Analysis>): seq<string> {
    match analysis
    case None => []
    case Some(a) => a.dataclasses
  }

  function FirstNamed(functions: seq<FunctionFact>, name: string): Option<FunctionFact> {
    if functions == [] then None
    else if functions[0].name == name then Some(functions[0])
    else FirstNamed(functions[1..], name)
  }

  function FunctionIn(analysis: Option<Analysis>, name: string): Option<FunctionFact> {
    match analysis
    case None => None
    case Some(a) => FirstNamed(a.functions, name)
  }

  // Module lookup -------------------------------------------------------------------------------

  /** Empty components disappear when a path is joined. */
  function NonEmpty(parts: seq<string>): seq<string> {
    if parts == [] then []
    else if parts[0] == "" then NonEmpty(parts[1..])
    else [parts[0]] + NonEmpty(parts[1..])
  }

  function ModuleFile(source: ProjectSource, relative: seq<string>): Path
    requires relative != []
  {
    source.path + relative[..|relative| - 1] + [relative[|relative| - 1] + ".py"]
  }

  function PackageFile(source: ProjectSource, relative: seq<string>): Path {
    source.path + relative + [INIT_FILE]
  }

  datatype Lookup = Found(path: Path) | Missing | Invalid

  /** The files that may define the module under one source, in the order they are tried; `None`
      when naming them raises. */
  function Tried(source: ProjectSource, parts: seq<string>): Option<seq<Path>>
    requires parts != []
  {
    var relative := NonEmpty(parts[1..]);
    if source.packageName != parts[0] then Some([])
    else if |parts| == 1 then Some([PackageFile(source, [])])
    else if relative == [] then None
    else Some([ModuleFile(source, relative), PackageFile(source, relative)])
  }

  /** The first of the candidate files that is a file. */
  function FirstFile(env: Environment, w: World, candidates: seq<Path>): Option<Path> {
    if candidates == [] then None
    else if w.isFile(env.resolve(candidates[0])) then Some(candidates[0])
    else FirstFile(env, w, candidates[1..])
  }

  function FileChecks(env: Environment, w: World, candidates: seq<Path>): seq<Observation> {
    if candidates == [] then []
    else [Plain(IsFileKind, candidates[0])] +
         (if w.isFile(env.resolve(candidates[0])) then [] else FileChecks(env, w, candidates[1..]))
  }

  function ModulePath(env: Environment, w: World, sources: seq<ProjectSource>, parts: seq<string>): Lookup {
    if parts == [] || sources == [] then Missing else
      match Tried(sources[0], parts)
      case None => Invalid
      case Some(candidates) =>
        match FirstFile(env, w, candidates)
        case Some(path) => Found(path)
        case None => ModulePath(env, w, sources[1..], parts)
  }

  function ModuleChecks(env: Environment, w: World, sources: seq<ProjectSource>, parts: seq<string>): seq<Observation> {
    if parts == [] || sources == [] then [] else
      match Tried(sources[0], parts)
      case None => []
      case Some(candidates) =>
        FileChecks(env, w, candidates) +
        (if FirstFile(env, w, candidates).Some? then [] else ModuleChecks(env, w, sources[1..], parts))
  }

  function FunctionResponse(env: Environment, tree: Tree, w: World, lookup: Lookup, name: string): Response {
    match lookup
    case Invalid => Raised
    case Missing => FunctionIs(None)
    case Found(path) => FunctionIs(FunctionIn(AnalysisAt(env, tree, w, env.resolve(path)), name))
  }

  function LookupSource(lookup: Lookup): seq<Observation> {
    if lookup.Found? then [Plain(SourceKind, lookup.path)] else []
  }

  // Reference answers ---------------------------------------------------------------------------

  /** The answer to a query as a function of the world alone. */
  function Reference(env: Environment, tree: Tree, w: World, query: Query): Response {
    match query
    case AnalysisOf(path) => AnalysisIs(AnalysisAt(env, tree, w, env.resolve(path)))
    case NativeSourceOf(path) => SourceIs(SourceText(env, w, env.resolve(path)))
    case DataclassesOf(path) => Names(DataclassesIn(AnalysisAt(env, tree, w, env.resolve(path))))
    case ModuleFunction(parts, name) => FunctionResponse(env, tree, w, ModulePath(env, w, tree.sources, parts), name)
    case EntrypointModules => Names(EntrypointModulesOf(env, tree, w))
    case EntrypointSymbols => Symbols(EntrypointSymbolsOf(env, tree, w))
    case Exists(path) => Flag(w.present(env.resolve(path)))
    case IsFile(path) => Flag(w.isFile(env.resolve(path)))
    case IsDir(path) => Flag(w.isDir(env.resolve(path)))
    case DirectoryEntries(path) =>
      (match w.entries(env.absolute(path))
       case None => Raised
       case Some(entries) => PathList(entries))
    case Glob(path, pattern, recursive) => PathList(w.glob(env.absolute(path), pattern, recursive))
    case PythonAnchor(path) => AnchorIs(AnchorAt(env, w, env.absolute(path)))
  }

  /** The file-system questions a query depends on, in the order they are asked. */
  function Footprint(env: Environment, tree: Tree, w: World, query: Query): seq<Observation> {
    match query
    case AnalysisOf(path) => [Plain(SourceKind, path)]
    case NativeSourceOf(path) => [Plain(SourceKind, path)]
    case DataclassesOf(path) => [Plain(SourceKind, path)]
    case ModuleFunction(parts, _) =>
      ModuleChecks(env, w, tree.sources, parts) + LookupSource(ModulePath(env, w, tree.sources, parts))
    case EntrypointModules => [MetadataObservation(tree)]
    case EntrypointSymbols => [MetadataObservation(tree)]
    case Exists(path) => [Plain(ExistsKind, path)]
    case IsFile(path) => [Plain(IsFileKind, path)]
    case IsDir(path) => [Plain(IsDirKind, path)]
    case DirectoryEntries(path) =>
      if w.entries(env.absolute(path)).None? then [] else [Plain(EntriesKind, env.absolute(path))]
    case Glob(path, pattern, recursive) => [Observation(GlobKind, env.absolute(path), Some(pattern), recursive, false)]
    case PythonAnchor(path) => [Plain(AnchorKind, env.absolute(path))]
  }

  function MetadataObservation(tree: Tree): Observation {
    Observation(SourceKind, MetadataPath(tree), None, false, true)
  }
}
