// The bounded include graph rooted at the entry file (internal/config/include.go).
module IncludeGraph {
  import opened Outcomes
  import Forms = ScannerForms
  import Steps = ScannerSteps

  type Path = string

  datatype EntryType = Regular | Directory | Symlink | Special

  datatype Status = Resolved | Missing | External | Unresolved | ToSymlink | ToSpecial | Cycle

  datatype Dependency = Dependency(source: Path, line: nat, column: nat, display: string, target: Path,
                                   status: Status, cycle: bool)

  /** What an include expression can stand for. */
  datatype Resolution = Inside(pattern: Path, display: string, hasGlob: bool) | Outside | Unknown

  datatype Limits = Limits(scan: Forms.Limits, maxEdges: int, maxDepth: int)

  /** The input of an expansion; resolving and matching expressions are given functions. */
  datatype Tree = Tree(manifest: map<Path, EntryType>, paths: seq<Path>,
                       read: Path -> Option<string>, resolve: string -> Resolution,
                       matches: (Path, Path) -> bool, limits: Limits)

  datatype ExpandError =
    InvalidLimits | EntryNotManaged | ReadFailed(path: Path) | ScanFailed(path: Path) | TooDeep | TooManyEdges

  /** No validated path contains a zero byte. */
  predicate ValidPaths(tree: Tree) {
    forall path | path in tree.manifest :: '\0' !in path
  }

  function HasSuffix(s: string, suffix: string): bool {
    |suffix| <= |s| && s[|s| - |suffix|..] == suffix
  }

  predicate IsSensitive(name: string) {
    || name == "ssl_password_file" || name == "auth_basic_user_file" || HasSuffix(name, "_certificate")
    || HasSuffix(name, "_certificate_key") || HasSuffix(name, "_trusted_certificate") || HasSuffix(name, "_crl")
  }

  function Matching(tree: Tree, pattern: Path, candidates: seq<Path>): seq<Path> {
    if candidates == [] then []
    else Matching(tree, pattern, candidates[..|candidates| - 1])
         + (if tree.matches(pattern, candidates[|candidates| - 1]) then [candidates[|candidates| - 1]] else [])
  }

  function Targets(tree: Tree, r: Resolution): seq<Path>
    requires r.Inside?
  {
    if !r.hasGlob then [r.pattern] else Matching(tree, r.pattern, tree.paths)
  }

  function TargetStatus(tree: Tree, target: Path): (status: Status)
    ensures status == Resolved <==> target in tree.manifest && tree.manifest[target] == Regular
    ensures status != Cycle
  {
    if target !in tree.manifest then Missing
    else match tree.manifest[target]
      case Regular => Resolved
      case Symlink => ToSymlink
      case Directory => ToSpecial
      case Special => ToSpecial
  }

  function JoinArguments(arguments: seq<string>): string {
    if arguments == [] then ""
    else if |arguments| == 1 then arguments[0]
    else JoinArguments(arguments[..|arguments| - 1]) + "\0" + arguments[|arguments| - 1]
  }

  /** What makes two edges the same. */
  datatype Key = Key(source: Path, target: Path, status: Status, expression: string)

  function TargetKey(tree: Tree, source: Path, target: Path, expression: string): Key {
    Key(source, target, TargetStatus(tree, target), expression)
  }

  /** The edges a directive asks for, cycles not yet told apart. */
  function Calls(tree: Tree, source: Path, d: Forms.Directive): seq<Key> {
    if IsSensitive(d.name) || d.name != "include" then []
    else if |d.arguments| != 1 then [Key(source, "", Unresolved, JoinArguments(d.arguments))]
    else
      var expression := d.arguments[0];
      match tree.resolve(expression)
      case Unknown => [Key(source, "", Unresolved, expression)]
      case Outside => [Key(source, "", External, expression)]
      case Inside(_, _, _) =>
        var targets := Targets(tree, tree.resolve(expression));
        if targets == [] then [Key(source, "", Missing, expression)]
        else seq(|targets|, i requires 0 <= i < |targets| => TargetKey(tree, source, targets[i], expression))
  }

  /** The files a directive marks as holding secrets. */
  function Secrets(tree: Tree, d: Forms.Directive): seq<Path> {
    if IsSensitive(d.name) && |d.arguments| == 1 && tree.resolve(d.arguments[0]).Inside? then
      Targets(tree, tree.resolve(d.arguments[0]))
    else []
  }

  function Directives(tree: Tree, path: Path): Result<seq<Forms.Directive>, ExpandError> {
    match tree.read(path)
    case None => Failure(ReadFailed(path))
    case Some(content) =>
      match Steps.Scan(content, tree.limits.scan)
      case Success(ds) => Success(ds)
      case Failure(_) => Failure(ScanFailed(path))
  }

  // ----- the graph that is there to be found

  predicate Asks(tree: Tree, key: Key) {
    match Directives(tree, key.source)
    case Success(ds) => exists i | 0 <= i < |ds| :: key in Calls(tree, key.source, ds[i])
    case Failure(_) => false
  }

  ghost predicate Includes(tree: Tree, source: Path, target: Path) {
    exists expression :: Asks(tree, Key(source, target, Resolved, expression))
  }

  predicate Hides(tree: Tree, source: Path, target: Path) {
    match Directives(tree, source)
    case Success(ds) => exists i | 0 <= i < |ds| :: target in Secrets(tree, ds[i])
    case Failure(_) => false
  }

  ghost predicate IsWalk(tree: Tree, walk: seq<Path>) {
    walk != [] && forall i | 0 <= i < |walk| - 1 :: Includes(tree, walk[i], walk[i + 1])
  }

  ghost predicate WalkBetween(tree: Tree, from: Path, walk: seq<Path>, to: Path) {
    IsWalk(tree, walk) && walk[0] == from && walk[|walk| - 1] == to
  }

  ghost predicate Reachable(tree: Tree, entry: Path, path: Path) {
    exists walk :: WalkBetween(tree, entry, walk, path)
  }

  predicate Distinct<T(==)>(s: seq<T>) {
    forall i, j | 0 <= i < j < |s| :: s[i] != s[j]
  }

  function Elements<T>(s: seq<T>): set<T> {
    set x | x in s
  }

  /** The key of an edge before cycles are told apart. */
  function Uncycled(key: Key): Key {
    if key.status == Cycle then key.(status := Resolved) else key
  }

  predicate Recorded(log: seq<Key>, key: Key) {
    key in log || (key.status == Resolved && key.(status := Cycle) in log)
  }

  /** What is shown of the expression of an include directive. */
  function Display(tree: Tree, d: Forms.Directive): string {
    if |d.arguments| != 1 then "[unresolved]"
    else
      match tree.resolve(d.arguments[0])
      case Unknown => "[unresolved]"
      case Outside => "[external]"
      case Inside(_, display, _) => display
  }

  /** The edge is that of directive i, the first one of its file that asks for it. */
  predicate StandsAt(tree: Tree, edge: Dependency, key: Key, i: nat) {
    match Directives(tree, key.source)
    case Failure(_) => false
    case Success(ds) =>
      && i < |ds| && Uncycled(key) in Calls(tree, key.source, ds[i])
      && (forall j | 0 <= j < i :: Uncycled(key) !in Calls(tree, key.source, ds[j]))
      && edge.line == ds[i].line && edge.column == ds[i].column && edge.display == Display(tree, ds[i])
  }

  ghost predicate Describes(tree: Tree, edge: Dependency, key: Key) {
    && edge.source == key.source && edge.target == key.target
    && edge.status == key.status && edge.cycle == (key.status == Cycle)
    && exists i :: StandsAt(tree, edge, key, i)
  }

  function CountStatus(log: seq<Key>, status: Status): nat {
    if log == [] then 0 else CountStatus(log[..|log| - 1], status) + if log[|log| - 1].status == status then 1 else 0
  }
}
