// What an include directive and a directive that names secrets mean, told by their names and
// arguments and by the files that are there (internal/config/include.go).
module IncludeMeaning {
  import opened Outcomes
  import opened IncludeGraph
  import Forms = ScannerForms

  // ----- names and targets

  predicate EndsIn(name: string, suffix: string) {
    exists n | 0 <= n <= |name| :: name == name[..n] + suffix
  }

  /** A directive with this name takes a file that holds secrets. */
  predicate NamesSecret(name: string) {
    || name == "ssl_password_file" || name == "auth_basic_user_file"
    || EndsIn(name, "_certificate") || EndsIn(name, "_certificate_key") || EndsIn(name, "_trusted_certificate")
    || EndsIn(name, "_crl")
  }

  /** The expression stands for the target: itself, or a path in the tree that its pattern matches. */
  predicate StandsFor(tree: Tree, expression: string, target: Path) {
    match tree.resolve(expression)
    case Inside(pattern, _, hasGlob) =>
      if hasGlob then target in tree.paths && tree.matches(pattern, target) else target == pattern
    case _ => false
  }

  /** What is there at the target. */
  predicate IsThere(tree: Tree, target: Path, status: Status) {
    match status
    case Missing => target !in tree.manifest
    case Resolved => target in tree.manifest && tree.manifest[target] == Regular
    case Cycle => target in tree.manifest && tree.manifest[target] == Regular
    case ToSymlink => target in tree.manifest && tree.manifest[target] == Symlink
    case ToSpecial => target in tree.manifest && tree.manifest[target] in {Directory, Special}
    case _ => false
  }

  /** The directive asks for an edge to the target. */
  ghost predicate PointsTo(tree: Tree, d: Forms.Directive, target: Path, status: Status, display: string) {
    && d.name == "include"
    && if |d.arguments| != 1 then target == "" && status == Unresolved && display == "[unresolved]"
       else
         match tree.resolve(d.arguments[0])
         case Unknown => target == "" && status == Unresolved && display == "[unresolved]"
         case Outside => target == "" && status == External && display == "[external]"
         case Inside(_, shown, _) =>
           && display == shown
           && if exists t :: StandsFor(tree, d.arguments[0], t) then
                StandsFor(tree, d.arguments[0], target) && IsThere(tree, target, status)
              else target == "" && status == Missing
  }

  /** The directive marks the target as holding secrets. */
  predicate MarksSecret(tree: Tree, d: Forms.Directive, target: Path) {
    NamesSecret(d.name) && |d.arguments| == 1 && StandsFor(tree, d.arguments[0], target)
  }

  predicate StandsIn(tree: Tree, d: Forms.Directive, path: Path) {
    Directives(tree, path).Success? && d in Directives(tree, path).value
  }

  // ----- the whole expansion

  ghost predicate IsAsked(tree: Tree, edge: Dependency) {
    exists d ::
      && StandsIn(tree, d, edge.source) && d.line == edge.line && d.column == edge.column
      && PointsTo(tree, d, edge.target, edge.status, edge.display)
  }

  predicate HasEdge(edges: seq<Dependency>, source: Path, target: Path, status: Status) {
    exists edge | edge in edges :: edge.source == source && edge.target == target
      && (edge.status == status || (status == Resolved && edge.status == Cycle))
  }

  ghost predicate IsMarked(tree: Tree, files: set<Path>, target: Path) {
    exists source, d :: source in files && StandsIn(tree, d, source) && MarksSecret(tree, d, target)
  }

  /** Each edge is asked for where it stands, and each edge that is asked for is there. */
  ghost predicate EdgesAsAsked(tree: Tree, files: set<Path>, edges: seq<Dependency>) {
    && (forall edge | edge in edges ::
          edge.source in files && edge.cycle == (edge.status == Cycle) && IsAsked(tree, edge))
    && forall source, d, target, status, display |
         source in files && StandsIn(tree, d, source) && status != Cycle
           && PointsTo(tree, d, target, status, display) ::
         HasEdge(edges, source, target, status)
  }

  /** The files are the entry and every regular target of an edge. */
  ghost predicate FilesAsLinked(edges: seq<Dependency>, included: set<Path>) {
    forall target :: target in included <==> exists source :: HasEdge(edges, source, target, Resolved)
  }

  ghost predicate SecretsAsMarked(tree: Tree, files: set<Path>, sensitive: set<Path>) {
    forall target :: target in sensitive <==> IsMarked(tree, files, target)
  }

  ghost function EdgesWith(edges: seq<Dependency>, status: Status): set<nat> {
    set i: nat | i < |edges| && edges[i].status == status
  }

  // ----- the definitions of the graph say the same

  lemma SuffixEnds(name: string, suffix: string)
    ensures HasSuffix(name, suffix) <==> EndsIn(name, suffix)
  {
    if HasSuffix(name, suffix) {
      var n := |name| - |suffix|;
      assert name == name[..n] + suffix;
    }
    if EndsIn(name, suffix) {
      var n :| 0 <= n <= |name| && name == name[..n] + suffix;
      assert |name| == n + |suffix|;
      assert name[n..] == suffix;
    }
  }

  lemma SensitiveNames(name: string)
    ensures IsSensitive(name) <==> NamesSecret(name)
  {
    SuffixEnds(name, "_certificate");
    SuffixEnds(name, "_certificate_key");
    SuffixEnds(name, "_trusted_certificate");
    SuffixEnds(name, "_crl");
    hide HasSuffix, EndsIn;
  }

  lemma IncludeIsNoSecret()
    ensures !IsSensitive("include")
  {
    var name := "include";
    assert name[|name| - 1] == 'e' && "_crl"[3] == 'l' && name[3..][3] == name[6];
  }

  lemma {:induction false} MatchingIsExact(tree: Tree, pattern: Path, candidates: seq<Path>, target: Path)
    ensures target in Matching(tree, pattern, candidates) <==> target in candidates && tree.matches(pattern, target)
    decreases |candidates|
  {
    if candidates != [] {
      var front, last := candidates[..|candidates| - 1], candidates[|candidates| - 1];
      MatchingIsExact(tree, pattern, front, target);
      assert candidates == front + [last];
    }
  }

  lemma TargetsStand(tree: Tree, expression: string, target: Path)
    requires tree.resolve(expression).Inside?
    ensures target in Targets(tree, tree.resolve(expression)) <==> StandsFor(tree, expression, target)
  {
    MatchingIsExact(tree, tree.resolve(expression).pattern, tree.paths, target);
  }

  lemma SomeTargetStands(tree: Tree, expression: string)
    requires tree.resolve(expression).Inside?
    ensures Targets(tree, tree.resolve(expression)) == [] <==> !exists t :: StandsFor(tree, expression, t)
  {
    var targets := Targets(tree, tree.resolve(expression));
    if targets != [] { TargetsStand(tree, expression, targets[0]); }
    forall t | StandsFor(tree, expression, t) ensures targets != [] { TargetsStand(tree, expression, t); }
  }

  lemma StatusIsThere(tree: Tree, target: Path, status: Status)
    requires status != Cycle
    ensures TargetStatus(tree, target) == status <==> IsThere(tree, target, status)
  {
  }

  lemma SecretsAreMarked(tree: Tree, d: Forms.Directive, target: Path)
    ensures target in Secrets(tree, d) <==> MarksSecret(tree, d, target)
  {
    SensitiveNames(d.name);
    if |d.arguments| == 1 && tree.resolve(d.arguments[0]).Inside? { TargetsStand(tree, d.arguments[0], target); }
    hide IsSensitive, NamesSecret, Targets, StandsFor;
    if |d.arguments| == 1 && !tree.resolve(d.arguments[0]).Inside? { NothingStands(tree, d.arguments[0], target); }
  }

  lemma NothingStands(tree: Tree, expression: string, target: Path)
    requires !tree.resolve(expression).Inside?
    ensures !StandsFor(tree, expression, target)
  {
  }

  /** The edges a directive asks for. */
  lemma CallsAreAsked(tree: Tree, source: Path, d: Forms.Directive, target: Path, status: Status)
    requires status != Cycle
    ensures PointsTo(tree, d, target, status, Display(tree, d)) <==>
            exists expression :: Key(source, target, status, expression) in Calls(tree, source, d)
    ensures forall display | PointsTo(tree, d, target, status, display) :: display == Display(tree, d)
  {
    IncludeIsNoSecret();
    hide IsSensitive, JoinArguments;
    var calls := Calls(tree, source, d);
    if d.name == "include" && |d.arguments| == 1 && tree.resolve(d.arguments[0]).Inside? {
      InsideCalls(tree, source, d, target, status);
    } else if d.name == "include" {
      assert |calls| == 1;
      assert calls[0] in calls;
    }
  }

  lemma InsideCalls(tree: Tree, source: Path, d: Forms.Directive, target: Path, status: Status)
    requires status != Cycle && d.name == "include" && |d.arguments| == 1 && tree.resolve(d.arguments[0]).Inside?
    requires !IsSensitive("include")
    ensures PointsTo(tree, d, target, status, Display(tree, d)) <==>
            exists expression :: Key(source, target, status, expression) in Calls(tree, source, d)
  {
    hide IsSensitive;
    var expression, calls := d.arguments[0], Calls(tree, source, d);
    var targets := Targets(tree, tree.resolve(expression));
    SomeTargetStands(tree, expression);
    TargetsStand(tree, expression, target);
    StatusIsThere(tree, target, status);
    hide StandsFor, IsThere, TargetStatus, Targets;
    var key := Key(source, target, status, expression);
    if targets == [] {
      assert calls == [Key(source, "", Missing, expression)];
      assert PointsTo(tree, d, target, status, Display(tree, d)) <==> target == "" && status == Missing;
      if target == "" && status == Missing { assert key in calls; }
    } else {
      if PointsTo(tree, d, target, status, Display(tree, d)) {
        var i :| 0 <= i < |targets| && targets[i] == target;
        assert calls[i] == key;
      }
      if e :| Key(source, target, status, e) in calls {
        var i :| 0 <= i < |calls| && calls[i] == Key(source, target, status, e);
        assert calls[i] == TargetKey(tree, source, targets[i], expression);
        assert targets[i] == target;
      }
    }
  }

  lemma AsksOnText(tree: Tree, source: Path, target: Path, status: Status)
    requires status != Cycle
    ensures (exists expression :: Asks(tree, Key(source, target, status, expression))) <==>
            exists d :: StandsIn(tree, d, source) && PointsTo(tree, d, target, status, Display(tree, d))
  {
    hide Calls, PointsTo, Display;
    if Directives(tree, source).Success? {
      var ds := Directives(tree, source).value;
      if expression :| Asks(tree, Key(source, target, status, expression)) {
        var i :| 0 <= i < |ds| && Key(source, target, status, expression) in Calls(tree, source, ds[i]);
        CallsAreAsked(tree, source, ds[i], target, status);
        assert StandsIn(tree, ds[i], source);
      }
      if d :| StandsIn(tree, d, source) && PointsTo(tree, d, target, status, Display(tree, d)) {
        CallsAreAsked(tree, source, d, target, status);
        var expression :| Key(source, target, status, expression) in Calls(tree, source, d);
        var i :| 0 <= i < |ds| && ds[i] == d;
        assert Asks(tree, Key(source, target, status, expression));
      }
    }
  }

  lemma HidesOnText(tree: Tree, source: Path, target: Path)
    ensures Hides(tree, source, target) <==> exists d :: StandsIn(tree, d, source) && MarksSecret(tree, d, target)
  {
    hide Secrets, MarksSecret;
    if Directives(tree, source).Success? {
      var ds := Directives(tree, source).value;
      if Hides(tree, source, target) {
        var i :| 0 <= i < |ds| && target in Secrets(tree, ds[i]);
        SecretsAreMarked(tree, ds[i], target);
        assert StandsIn(tree, ds[i], source);
      }
      if d :| StandsIn(tree, d, source) && MarksSecret(tree, d, target) {
        SecretsAreMarked(tree, d, target);
        var i :| 0 <= i < |ds| && ds[i] == d;
      }
    }
  }

  /** An edge that stands at its directive is asked for there. */
  lemma DescribedIsAsked(tree: Tree, edge: Dependency, key: Key)
    requires Describes(tree, edge, key)
    ensures IsAsked(tree, edge) && edge.source == key.source && edge.target == key.target && edge.status == key.status
    ensures edge.cycle == (edge.status == Cycle)
  {
    hide Calls, PointsTo, Display;
    var i: nat :| StandsAt(tree, edge, key, i);
    var d := Directives(tree, key.source).value[i];
    var asked := Uncycled(key);
    CallsAreAsked(tree, key.source, d, key.target, asked.status);
    assert asked == Key(key.source, key.target, asked.status, asked.expression);
    assert StandsIn(tree, d, key.source);
    if key.status == Cycle { CyclePoints(tree, d, key.target, Display(tree, d)); }
  }

  lemma CyclePoints(tree: Tree, d: Forms.Directive, target: Path, display: string)
    requires PointsTo(tree, d, target, Resolved, display)
    ensures PointsTo(tree, d, target, Cycle, display)
  {
  }
}
