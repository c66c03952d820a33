// Expanding the include graph of a configuration tree: the search as a class, and why its
// result is exact (internal/config/include.go).
module IncludeExpansion {
  import opened Outcomes
  import opened IncludeGraph
  import opened IncludeMeaning
  import opened IncludeSearch
  import Forms = ScannerForms
  import Scanner = IncludeScanner

  datatype Expansion = Expansion(edges: seq<Dependency>, cycles: seq<seq<Path>>, missingCount: nat,
                                 externalCount: nat, included: set<Path>, sensitive: set<Path>)

  // ----- what an expansion is for

  ghost predicate ReadsOnceEach(tree: Tree, entry: Path, readLog: seq<Path>) {
    Distinct(readLog) && forall path :: path in readLog <==> Reachable(tree, entry, path)
  }

  /**
   * The edges are those the reachable files ask for, each once and where it is asked for
   * first, cycle edges among the resolved ones.
   */
  ghost predicate EdgesExact(tree: Tree, entry: Path, edges: seq<Dependency>, keys: seq<Key>) {
    && |edges| == |keys| && (forall i | 0 <= i < |keys| :: Describes(tree, edges[i], keys[i])) && OneFormEach(keys)
    && forall key: Key | key.status != Cycle ::
         Recorded(keys, key) <==> Asks(tree, key) && Reachable(tree, entry, key.source)
  }

  ghost predicate IncludedFrom(tree: Tree, entry: Path, source: Path, target: Path) {
    Reachable(tree, entry, source) && Includes(tree, source, target)
  }

  ghost predicate IncludedExact(tree: Tree, entry: Path, included: set<Path>) {
    forall target :: target in included <==> exists source :: IncludedFrom(tree, entry, source, target)
  }

  ghost predicate HiddenFrom(tree: Tree, entry: Path, source: Path, target: Path) {
    Reachable(tree, entry, source) && Hides(tree, source, target)
  }

  ghost predicate SensitiveExact(tree: Tree, entry: Path, sensitive: set<Path>) {
    forall target :: target in sensitive <==> exists source :: HiddenFrom(tree, entry, source, target)
  }

  ghost predicate IsCircle(walk: seq<Path>) {
    |walk| >= 2 && walk[0] == walk[|walk| - 1]
  }

  /** No circle of resolved edges. */
  ghost predicate Acyclic(keys: seq<Key>) {
    forall walk | Linked(keys, walk) :: !IsCircle(walk)
  }

  ghost predicate IncludeCircle(tree: Tree, entry: Path, walk: seq<Path>) {
    IsWalk(tree, walk) && IsCircle(walk) && Reachable(tree, entry, walk[0])
  }

  /** Every recorded cycle is one, every cycle edge has one, and there is one whenever the graph has a circle. */
  ghost predicate CyclesExact(tree: Tree, entry: Path, cycles: seq<seq<Path>>, keys: seq<Key>) {
    && Distinct(cycles) && AllClosed(tree, keys, cycles) && AllHaveCycles(keys, cycles)
    && (cycles != [] <==> exists walk :: IncludeCircle(tree, entry, walk))
  }

  ghost predicate IsExpansion(tree: Tree, entry: Path, x: Expansion, keys: seq<Key>, readLog: seq<Path>) {
    && ReadsOnceEach(tree, entry, readLog) && EdgesExact(tree, entry, x.edges, keys) && |keys| <= tree.limits.maxEdges
    && IncludedExact(tree, entry, x.included) && SensitiveExact(tree, entry, x.sensitive)
    && Acyclic(keys) && CyclesExact(tree, entry, x.cycles, keys)
    && x.missingCount == CountStatus(keys, Missing) && x.externalCount == CountStatus(keys, External)
  }

  /** The expansion, told by the directives of the files: the entry, and every regular target of an edge. */
  ghost predicate ExpandsAsToldBy(tree: Tree, entry: Path, x: Expansion) {
    var files := {entry} + x.included;
    && EdgesAsAsked(tree, files, x.edges) && FilesAsLinked(x.edges, x.included)
    && SecretsAsMarked(tree, files, x.sensitive)
    && x.missingCount == |EdgesWith(x.edges, Missing)| && x.externalCount == |EdgesWith(x.edges, External)|
  }

  // ----- a finished search is an expansion

  ghost predicate Ended(tree: Tree, entry: Path, s: SearchState) {
    Kept(tree, entry, s, []) && s.stack == [] && entry in s.visited
  }

  lemma EndedParts(tree: Tree, entry: Path, s: SearchState)
    requires Ended(tree, entry, s)
    ensures s.visited == Elements(s.done) && Distinct(s.done) && AllDone(tree, s.log, s.sensitive, s.done)
    ensures AllReached(tree, entry, s.done) && Ordered(s.log, [], s.done) && Sourced(tree, s.log, s.visited)
  {
    hide AllDone, AllReached, Ordered, Sourced, Distinct, SecretsKnown, EdgesKept;
    assert s.done + s.stack == s.done;
    hide IsRegular;
    assert EdgesKept(tree, s);
    SourcedPart(tree, s);
  }

  lemma SourcedPart(tree: Tree, s: SearchState)
    requires EdgesKept(tree, s)
    ensures Sourced(tree, s.log, s.visited) && OneFormEach(s.log) && Marked(s.log, s.included)
    ensures CyclesOf(tree, s.log, s.cycles, s.cycleKeys) && Logged(tree, s.log, s.edges, s.list, s.missing, s.external)
  {
    hide Sourced, OneFormEach, Marked, CyclesOf, Logged;
  }

  /** Every include of a searched file is recorded, and its target searched. */
  lemma IncludesRecorded(tree: Tree, entry: Path, s: SearchState, source: Path, target: Path)
    requires Ended(tree, entry, s) && source in s.visited && Includes(tree, source, target)
    ensures target in s.visited
    ensures Links(s.log, source, target, Resolved) || Links(s.log, source, target, Cycle)
  {
    EndedParts(tree, entry, s);
    hide Kept, Calls, Distinct, AllReached, Sourced;
    var expression :| Asks(tree, Key(source, target, Resolved, expression));
    assert FileDone(tree, s.log, s.sensitive, source);
    var ds := Directives(tree, source).value;
    var i :| 0 <= i < |ds| && Key(source, target, Resolved, expression) in Calls(tree, source, ds[i]);
    assert DirectiveDone(tree, s.log, s.sensitive, source, ds[i]);
    var key := Key(source, target, Resolved, expression);
    var k :| 0 <= k < |s.done| && s.done[k] == source;
    if key in s.log {
      assert OrderedKey(key, [], s.done);
    } else {
      assert BackKey(key.(status := Cycle), [], s.done);
    }
  }

  lemma {:induction false} WalkStays(tree: Tree, entry: Path, s: SearchState, walk: seq<Path>)
    requires Ended(tree, entry, s) && IsWalk(tree, walk) && walk[0] in s.visited
    ensures forall i | 0 <= i < |walk| :: walk[i] in s.visited
    decreases |walk|
  {
    hide Ended, Includes;
    if |walk| > 1 {
      var front := walk[..|walk| - 1];
      assert IsWalk(tree, front);
      WalkStays(tree, entry, s, front);
      assert Includes(tree, walk[|walk| - 2], walk[|walk| - 1]);
      assert walk[|walk| - 2] == front[|walk| - 2];
      IncludesRecorded(tree, entry, s, walk[|walk| - 2], walk[|walk| - 1]);
    }
  }

  lemma VisitedIsReachable(tree: Tree, entry: Path, s: SearchState)
    requires Ended(tree, entry, s)
    ensures forall path :: path in s.visited <==> Reachable(tree, entry, path)
  {
    EndedParts(tree, entry, s);
    hide Kept, AllDone, Ordered, Sourced, Distinct, IsWalk;
    forall path ensures path in s.visited <==> Reachable(tree, entry, path) {
      if Reachable(tree, entry, path) {
        var walk :| WalkBetween(tree, entry, walk, path);
        assert walk != [] by { assert IsWalk(tree, walk); IsWalkNonEmpty(tree, walk); }
        WalkStays(tree, entry, s, walk);
      }
    }
  }

  lemma IsWalkNonEmpty(tree: Tree, walk: seq<Path>)
    requires IsWalk(tree, walk)
    ensures walk != []
  {
  }

  /** Along resolved edges the finishing time goes down. */
  lemma {:induction false} WalkDescends(tree: Tree, s: SearchState, walk: seq<Path>, i: nat) returns (j: nat)
    requires Ordered(s.log, [], s.done) && Linked(s.log, walk) && walk != [] && i < |s.done| && s.done[i] == walk[0]
    ensures j <= i && s.done[j] == walk[|walk| - 1] && (|walk| > 1 ==> j < i)
    decreases |walk|
  {
    if |walk| == 1 {
      return i;
    }
    assert Links(s.log, walk[0], walk[1], Resolved);
    var expression :| Key(walk[0], walk[1], Resolved, expression) in s.log;
    assert OrderedKey(Key(walk[0], walk[1], Resolved, expression), [], s.done);
    var k :| 0 <= k < i && s.done[k] == walk[1];
    var rest := walk[1..];
    forall n | 0 <= n < |rest| - 1 ensures Links(s.log, rest[n], rest[n + 1], Resolved) {
      assert Links(s.log, walk[n + 1], walk[n + 2], Resolved);
    }
    hide Ordered, Linked, Links;
    j := WalkDescends(tree, s, rest, k);
  }

  lemma SearchIsAcyclic(tree: Tree, entry: Path, s: SearchState)
    requires Ended(tree, entry, s)
    ensures Acyclic(s.log)
  {
    EndedParts(tree, entry, s);
    hide Kept, AllDone, AllReached, Ordered;
    forall walk | Linked(s.log, walk) ensures !IsCircle(walk) {
      if IsCircle(walk) {
        var expression :| Key(walk[0], walk[1], Resolved, expression)
          in s.log by { assert Links(s.log, walk[0], walk[1], Resolved); }
        assert walk[0] in s.visited;
        var i :| 0 <= i < |s.done| && s.done[i] == walk[0];
        var _ := WalkDescends(tree, s, walk, i);
      }
    }
  }

  /** Over the visited files: what is asked for is recorded, and nothing else. */
  lemma KeyIsExact(tree: Tree, entry: Path, s: SearchState, key: Key)
    requires Ended(tree, entry, s) && key.status != Cycle
    ensures Recorded(s.log, key) <==> Asks(tree, key) && key.source in s.visited
  {
    EndedParts(tree, entry, s);
    hide Kept, Calls, Distinct, AllReached, Ordered;
    if Asks(tree, key) && key.source in s.visited {
      assert FileDone(tree, s.log, s.sensitive, key.source);
      var ds := Directives(tree, key.source).value;
      var i :| 0 <= i < |ds| && key in Calls(tree, key.source, ds[i]);
      assert DirectiveDone(tree, s.log, s.sensitive, key.source, ds[i]);
    }
    if Recorded(s.log, key) {
      var form := if key in s.log then key else key.(status := Cycle);
      assert form in s.log && Uncycled(form) == key;
    }
  }

  lemma LinkIncludes(tree: Tree, log: seq<Key>, visited: set<Path>, key: Key)
    requires Sourced(tree, log, visited) && key in log && (key.status == Resolved || key.status == Cycle)
    ensures key.source in visited && Includes(tree, key.source, key.target)
  {
    hide Asks;
    assert Uncycled(key) == Key(key.source, key.target, Resolved, key.expression);
  }

  lemma LinkIsPointed(log: seq<Key>, source: Path, target: Path)
    requires Links(log, source, target, Resolved) || Links(log, source, target, Cycle)
    ensures IsPointedAt(log, target)
  {
    var status := if Links(log, source, target, Resolved) then Resolved else Cycle;
    var expression :| Key(source, target, status, expression) in log;
    var i :| 0 <= i < |log| && log[i] == Key(source, target, status, expression);
    assert Points(log[i], target);
  }

  lemma TargetIsExact(tree: Tree, entry: Path, s: SearchState, target: Path)
    requires Ended(tree, entry, s)
    ensures target in s.included <==> exists source :: source in s.visited && Includes(tree, source, target)
  {
    hide Kept, Ended, CyclesOf, Logged, OneFormEach, Sourced, Includes, Links;
    EndedEdges(tree, entry, s);
    if target in s.included {
      var i :| 0 <= i < |s.log| && Points(s.log[i], target);
      LinkIncludes(tree, s.log, s.visited, s.log[i]);
    }
    if source :| source in s.visited && Includes(tree, source, target) {
      IncludesRecorded(tree, entry, s, source, target);
      LinkIsPointed(s.log, source, target);
    }
  }

  lemma EndedEdges(tree: Tree, entry: Path, s: SearchState)
    requires Ended(tree, entry, s)
    ensures Sourced(tree, s.log, s.visited) && OneFormEach(s.log) && Marked(s.log, s.included)
    ensures CyclesOf(tree, s.log, s.cycles, s.cycleKeys) && Logged(tree, s.log, s.edges, s.list, s.missing, s.external)
  {
    hide EdgesKept, FilesKept, Ordered, Linked;
    SourcedPart(tree, s);
  }

  lemma SecretIsExact(tree: Tree, entry: Path, s: SearchState, target: Path)
    requires Ended(tree, entry, s)
    ensures target in s.sensitive <==> exists source :: source in s.visited && Hides(tree, source, target)
  {
    EndedParts(tree, entry, s);
    assert SecretsKnown(tree, s.sensitive, s.visited);
    hide Kept, Calls, Secrets, Distinct, AllReached, Ordered, Sourced, Recorded;
    if source :| source in s.visited && Hides(tree, source, target) {
      assert FileDone(tree, s.log, s.sensitive, source);
      var ds := Directives(tree, source).value;
      var i :| 0 <= i < |ds| && target in Secrets(tree, ds[i]);
      assert DirectiveDone(tree, s.log, s.sensitive, source, ds[i]);
    }
  }

  /** Without a recorded cycle every include is a resolved edge, so there is no circle. */
  lemma NoCycleNoCircle(tree: Tree, entry: Path, s: SearchState, walk: seq<Path>)
    requires Ended(tree, entry, s) && s.cycles == [] && IsWalk(tree, walk) && walk[0] in s.visited
    ensures !IsCircle(walk)
  {
    SourcedPart(tree, s);
    SearchIsAcyclic(tree, entry, s);
    WalkStays(tree, entry, s, walk);
    hide Ended, Kept, Logged, Sourced, OneFormEach, Marked;
    forall i | 0 <= i < |walk| - 1 ensures Links(s.log, walk[i], walk[i + 1], Resolved) {
      assert Includes(tree, walk[i], walk[i + 1]);
      IncludesRecorded(tree, entry, s, walk[i], walk[i + 1]);
    }
    assert Linked(s.log, walk);
  }

  /** A recorded cycle is a circle of includes between reachable files. */
  lemma CycleIsCircle(tree: Tree, entry: Path, s: SearchState, cycle: seq<Path>)
    requires Ended(tree, entry, s) && ClosedIn(s.log, cycle)
    ensures IsWalk(tree, cycle) && IsCircle(cycle) && cycle[0] in s.visited
  {
    hide Ended, Kept, CyclesOf, Logged, OneFormEach, Marked, Sourced, Includes;
    EndedEdges(tree, entry, s);
    var front, last := cycle[..|cycle| - 1], |cycle| - 2;
    StackIsWalk(tree, s.log, s.visited, front);
    var expression :| Key(cycle[last], cycle[last + 1], Cycle, expression) in s.log;
    LinkIncludes(tree, s.log, s.visited, Key(cycle[last], cycle[last + 1], Cycle, expression));
    forall i | 0 <= i < |cycle| - 1 ensures Includes(tree, cycle[i], cycle[i + 1]) {
      if i < last { assert Includes(tree, front[i], front[i + 1]); }
    }
    if |front| > 1 {
      var first :| Key(front[0], front[1], Resolved, first)
        in s.log by { assert Links(s.log, front[0], front[1], Resolved); }
      LinkIncludes(tree, s.log, s.visited, Key(front[0], front[1], Resolved, first));
    }
  }

  lemma CyclesAreExact(tree: Tree, entry: Path, s: SearchState)
    requires Ended(tree, entry, s)
    ensures CyclesExact(tree, entry, s.cycles, s.log)
  {
    SourcedPart(tree, s);
    VisitedIsReachable(tree, entry, s);
    hide Ended, Kept, Logged, Sourced, OneFormEach, Marked, IsWalk, AllHaveCycles, IsCircle, Reachable, ClosedIn;
    if s.cycles != [] {
      assert ClosedIn(s.log, s.cycles[0]);
      CycleIsCircle(tree, entry, s, s.cycles[0]);
      assert IncludeCircle(tree, entry, s.cycles[0]);
    } else {
      forall walk ensures !IncludeCircle(tree, entry, walk) {
        if IncludeCircle(tree, entry, walk) {
          IsWalkNonEmpty(tree, walk);
          NoCycleNoCircle(tree, entry, s, walk);
        }
      }
    }
  }

  function ExpansionOf(s: SearchState): Expansion {
    Expansion(s.list, s.cycles, s.missing, s.external, s.included, s.sensitive)
  }

  lemma EdgesAreExact(tree: Tree, entry: Path, s: SearchState)
    requires Ended(tree, entry, s)
    ensures EdgesExact(tree, entry, s.list, s.log) && |s.log| <= tree.limits.maxEdges
    ensures s.missing == CountStatus(s.log, Missing) && s.external == CountStatus(s.log, External)
  {
    hide Ended, Kept, Sourced, OneFormEach, Marked, CyclesOf, Reachable, Asks, Recorded, Describes, CountStatus;
    EndedEdges(tree, entry, s);
    VisitedIsReachable(tree, entry, s);
    forall key: Key | key.status != Cycle ensures Recorded(s.log, key)
        <==> Asks(tree, key) && Reachable(tree, entry, key.source) {
      KeyIsExact(tree, entry, s, key);
    }
  }

  lemma TargetsAreExact(tree: Tree, entry: Path, s: SearchState)
    requires Ended(tree, entry, s)
    ensures IncludedExact(tree, entry, s.included) && SensitiveExact(tree, entry, s.sensitive)
  {
    hide Ended, Reachable, Includes, Hides;
    VisitedIsReachable(tree, entry, s);
    forall target ensures target in s.included <==> exists source :: IncludedFrom(tree, entry, source, target) {
      TargetIsExact(tree, entry, s, target);
      assert forall source ::
          source in s.visited && Includes(tree, source, target) <==> IncludedFrom(tree, entry, source, target);
    }
    forall target ensures target in s.sensitive <==> exists source :: HiddenFrom(tree, entry, source, target) {
      SecretIsExact(tree, entry, s, target);
      assert forall source ::
          source in s.visited && Hides(tree, source, target) <==> HiddenFrom(tree, entry, source, target);
    }
  }

  /** A search that has ended has found exactly what there is to find. */
  lemma EndedIsExpansion(tree: Tree, entry: Path, s: SearchState)
    requires Ended(tree, entry, s)
    ensures IsExpansion(tree, entry, ExpansionOf(s), s.log, s.readLog)
  {
    hide Ended, EdgesExact, IncludedExact, SensitiveExact, Acyclic, CyclesExact, Distinct, Reachable, CountStatus;
    EndedReads(tree, entry, s);
    VisitedIsReachable(tree, entry, s);
    EdgesAreExact(tree, entry, s);
    TargetsAreExact(tree, entry, s);
    SearchIsAcyclic(tree, entry, s);
    CyclesAreExact(tree, entry, s);
  }

  lemma EndedReads(tree: Tree, entry: Path, s: SearchState)
    requires Ended(tree, entry, s)
    ensures Distinct(s.readLog) && Elements(s.readLog) == s.visited
  {
    hide Placed, AllDone, AllReached, SecretsKnown, Distinct, EdgesKept, Ordered;
  }

  lemma KeptLog(tree: Tree, entry: Path, s: SearchState)
    requires Kept(tree, entry, s, s.stack)
    ensures Logged(tree, s.log, s.edges, s.list, s.missing, s.external) && s.active.Keys == Elements(s.stack)
    ensures forall k | 0 <= k < |s.stack| :: s.active[s.stack[k]] == k
    ensures s.stack != [] ==> s.stack[|s.stack| - 1] in s.visited
  {
    hide AllDone, AllReached, SecretsKnown, Distinct, Ordered, Linked, OneFormEach, Sourced, Marked, CyclesOf, Logged,
      IsRegular;
  }

  lemma TargetIncluded(tree: Tree, key: Key)
    requires key.status == Resolved && Asks(tree, key)
    ensures Includes(tree, key.source, key.target)
  {
    hide Asks;
    assert key == Key(key.source, key.target, Resolved, key.expression);
  }

  lemma RecordedGrows(log: seq<Key>, more: seq<Key>, key: Key)
    requires Recorded(log, key) && log <= more
    ensures Recorded(more, key)
  {
  }

  lemma DirectiveStaysDone(tree: Tree, s: SearchState, t: SearchState, source: Path, d: Forms.Directive)
    requires DirectiveDone(tree, s.log, s.sensitive, source, d) && Grew(s, t)
    ensures DirectiveDone(tree, t.log, t.sensitive, source, d)
  {
    hide Calls, Secrets;
  }

  lemma CallIsAsked(tree: Tree, s: SearchState, source: Path, index: nat, d: Forms.Directive, key: Key)
    requires AtDirective(tree, s.log, s.sensitive, source, index, d)
    requires key in Calls(tree, source, d) && key.status != Cycle && key.source == source
    ensures Asks(tree, key)
  {
    hide Calls, DirectiveDone;
  }

  lemma IsDirective(tree: Tree, s: SearchState, source: Path, index: nat, d: Forms.Directive)
    requires AtDirective(tree, s.log, s.sensitive, source, index, d)
    ensures Directives(tree, source).Success? && index < |Directives(tree, source).value|
    ensures Directives(tree, source).value[index] == d
  {
    hide DirectiveDone, Directives;
  }

  lemma ReachedDirective(tree: Tree, s: SearchState, source: Path, ds: seq<Forms.Directive>, index: nat)
    requires Directives(tree, source) == Success(ds) && index < |ds|
    requires forall k | 0 <= k < index :: DirectiveDone(tree, s.log, s.sensitive, source, ds[k])
    ensures AtDirective(tree, s.log, s.sensitive, source, index, ds[index])
  {
    hide DirectiveDone, Directives;
  }

  lemma AtDirectiveStill(tree: Tree, s: SearchState, t: SearchState, source: Path, index: nat, d: Forms.Directive)
    requires AtDirective(tree, s.log, s.sensitive, source, index, d) && Grew(s, t)
    ensures AtDirective(tree, t.log, t.sensitive, source, index, d)
  {
    hide DirectiveDone, Directives;
    var ds := Directives(tree, source).value;
    forall j | 0 <= j < index ensures DirectiveDone(tree, t.log, t.sensitive, source, ds[j]) {
      DirectiveStaysDone(tree, s, t, source, ds[j]);
    }
  }

  lemma DescribedStatus(tree: Tree, edge: Dependency, key: Key)
    requires Describes(tree, edge, key)
    ensures edge.status == key.status
  {
  }

  /** An edge from the directive at work describes its key, if that is new. */
  lemma NewIsDescribed(tree: Tree, entry: Path, s: SearchState, edge: Dependency, key: Key, index: nat,
                       d: Forms.Directive)
    requires Kept(tree, entry, s, s.stack) && s.stack != [] && key.source == s.stack[|s.stack| - 1]
    requires AtDirective(tree, s.log, s.sensitive, key.source, index, d) && Uncycled(key) in Calls(tree, key.source, d)
    requires key.status == Cycle ==> key.target in s.stack
    requires key.status == Resolved ==> key.target !in s.stack
    requires edge == Dependency(key.source, d.line, d.column, Display(tree, d), key.target, key.status,
                                key.status == Cycle)
    ensures key !in s.log ==> Describes(tree, edge, key)
  {
    hide Kept, AtDirective, StandsAt, Calls, Display;
    if key !in s.log { NewStandsHere(tree, entry, s, edge, key, index, d); }
  }

  lemma TargetsAreCalled(tree: Tree, source: Path, d: Forms.Directive, targets: seq<Path>)
    requires !IsSensitive(d.name) && d.name == "include" && |d.arguments| == 1 && tree.resolve(d.arguments[0]).Inside?
    requires targets == Targets(tree, tree.resolve(d.arguments[0])) && targets != []
    ensures |Calls(tree, source, d)| == |targets|
    ensures forall k | 0 <= k < |targets| ::
        Calls(tree, source, d)[k] == TargetKey(tree, source, targets[k], d.arguments[0])
    ensures forall k | 0 <= k < |targets| ::
        TargetKey(tree, source, targets[k], d.arguments[0]) in Calls(tree, source, d)
  {
    hide IsSensitive, Targets, TargetKey;
    forall k | 0 <= k < |targets| ensures TargetKey(tree, source, targets[k], d.arguments[0])
        in Calls(tree, source, d) {
      assert Calls(tree, source, d)[k] == TargetKey(tree, source, targets[k], d.arguments[0]);
    }
  }

  lemma EnteredTop(s: SearchState, source: Path)
    ensures var t := Pushed(s, source); t.stack == s.stack + [source] && t.visited == s.visited + {source}
  {
  }

  lemma LeaveGrew(before: SearchState, source: Path, after: SearchState)
    requires Grew(Pushed(before, source), after)
    ensures after.stack != [] && Grew(before, Popped(after)) && Popped(after).stack == before.stack
    ensures source in Popped(after).visited
  {
  }

  const START := SearchState({}, map[], [], {}, [], 0, 0, [], {}, {}, {}, [], [], [])

  lemma StartKept(tree: Tree, entry: Path)
    requires ValidPaths(tree) && IsRegular(tree, entry) && tree.limits.maxEdges > 0
    ensures Kept(tree, entry, START, Entering([], {}, entry))
  {
  }

  lemma KnownIsIncluded(tree: Tree, entry: Path, s: SearchState, key: Key)
    requires Kept(tree, entry, s, s.stack) && key in s.log && key.status == Cycle
    ensures s.included + {key.target} == s.included
  {
    hide FilesKept, Ordered, Linked, Logged, OneFormEach, Sourced, CyclesOf;
    var i :| 0 <= i < |s.log| && s.log[i] == key;
    assert Points(s.log[i], key.target);
    assert IsPointedAt(s.log, key.target);
  }

  // ----- the search itself

  /** One expansion in progress. */
  class GraphSearch {
    const tree: Tree
    const entry: Path

    var visited: set<Path>
    var active: map<Path, nat>
    var stack: seq<Path>
    var edges: set<Key>
    var list: seq<Dependency>
    var missingCount: nat
    var externalCount: nat
    var cycles: seq<seq<Path>>
    var cycleKeys: set<string>
    var included: set<Path>
    var sensitive: set<Path>

    /** The keys of the edge list, the files left and the files read, in order. */
    ghost var log: seq<Key>
    ghost var done: seq<Path>
    ghost var readLog: seq<Path>

    ghost function State(): SearchState
      reads this
    {
      SearchState(visited, active, stack, edges, list, missingCount, externalCount, cycles, cycleKeys,
                  included, sensitive, log, done, readLog)
    }

    constructor (tree: Tree, entry: Path)
      ensures this.tree == tree && this.entry == entry
      ensures State() == START
    {
      this.tree, this.entry := tree, entry;
      visited, active, stack := {}, map[], [];
      edges, list, missingCount, externalCount := {}, [], 0, 0;
      cycles, cycleKeys, included, sensitive := [], {}, {}, {};
      log, done, readLog := [], [], [];
    }

    method AddEdge(edge: Dependency, key: Key) returns (added: bool, failure: Option<ExpandError>)
      requires Logged(tree, log, edges, list, missingCount, externalCount)
      requires key !in log ==> Describes(tree, edge, key)
      modifies this`edges, this`list, this`missingCount, this`externalCount, this`log
      ensures failure.None? ==> added == (key !in old(log))
      ensures failure.Some?
          ==> failure == Some(TooManyEdges) && !added && key !in log && |old(log)| == tree.limits.maxEdges
      ensures State() == if added then WithEdge(old(State()), edge, key) else old(State())
      ensures added ==> |old(log)| < tree.limits.maxEdges
    {
      hide CountStatus, Distinct, Describes;
      if key in edges {
        return false, None;
      }
      DescribedStatus(tree, edge, key);
      if |list| >= tree.limits.maxEdges {
        return false, Some(TooManyEdges);
      }
      edges := edges + {key};
      list := list + [edge];
      log := log + [key];
      if edge.status == Missing {
        missingCount := missingCount + 1;
      } else if edge.status == External {
        externalCount := externalCount + 1;
      }
      return true, None;
    }

    /** A target in the tree: a cycle edge if it is being searched, else searched in turn. */
    method FollowTarget(source: Path, ghost index: nat, d: Forms.Directive, expression: string, display: string,
                        target: Path, depth: nat)
      returns (failure: Option<ExpandError>)
      requires Kept(tree, entry, State(), stack) && stack != [] && stack[|stack| - 1] == source
      requires |stack| == depth <= tree.limits.maxDepth && AtDirective(tree, log, sensitive, source, index, d)
      requires TargetKey(tree, source, target, expression) in Calls(tree, source, d) && display == Display(tree, d)
      modifies this
      ensures failure.Some? ==> Blamed(tree, entry, failure.value)
      ensures failure.None? ==> Kept(tree, entry, State(), stack) && Grew(old(State()), State())
      ensures failure.None? ==> Recorded(log, TargetKey(tree, source, target, expression))
      decreases tree.manifest.Keys - visited, 2
    {
      ghost var before := State();
      hide Kept, Asks, Blamed, Includes, Logged, AtDirective, Calls, Display, Describes;
      KeptLog(tree, entry, before);
      var status := TargetStatus(tree, target);
      if status == Resolved && target in active {
        failure := FollowCycle(source, index, d, expression, display, target);
        return;
      }
      var key := TargetKey(tree, source, target, expression);
      var edge := Dependency(source, d.line, d.column, display, target, status, false);
      CallIsAsked(tree, before, source, index, d, key);
      NewIsDescribed(tree, entry, before, edge, key, index, d);
      if |log| == tree.limits.maxEdges && key !in log { TooMany(tree, entry, before, key); }
      var added;
      added, failure := AddEdge(edge, key);
      if added { EdgeKept(tree, entry, before, edge, key); }
      if !added || status != Resolved {
        return;
      }
      included := included + {target};
      TargetIncluded(tree, key);
      ghost var middle := State();
      failure := Visit(target, depth + 1);
      if failure.None? {
        assert Grew(before, middle) && Grew(middle, State());
        RecordedGrows(middle.log, log, key);
      }
    }

    method FollowCycle(source: Path, ghost index: nat, d: Forms.Directive, expression: string, display: string,
                       target: Path)
      returns (failure: Option<ExpandError>)
      requires Kept(tree, entry, State(), stack) && stack != [] && stack[|stack| - 1] == source && target in active
      requires TargetStatus(tree, target) == Resolved && AtDirective(tree, log, sensitive, source, index, d)
      requires TargetKey(tree, source, target, expression) in Calls(tree, source, d) && display == Display(tree, d)
      modifies this
      ensures failure.Some? ==> Blamed(tree, entry, failure.value)
      ensures failure.None? ==> Kept(tree, entry, State(), stack) && Grew(old(State()), State())
      ensures failure.None? ==> Recorded(log, TargetKey(tree, source, target, expression))
    {
      ghost var before := State();
      hide Kept, Asks, Blamed, IsRegular, Logged, CycleKey, AtDirective, Calls, Display, Describes;
      KeptLog(tree, entry, before);
      var key := Key(source, target, Cycle, expression);
      var edge := Dependency(source, d.line, d.column, display, target, Cycle, true);
      CallIsAsked(tree, before, source, index, d, Uncycled(key));
      NewIsDescribed(tree, entry, before, edge, key, index, d);
      if |log| == tree.limits.maxEdges && key !in log { TooMany(tree, entry, before, key); }
      var added;
      added, failure := AddEdge(edge, key);
      if failure.Some? {
        return;
      }
      included := included + {target};
      if added {
        var cycle := stack[active[target]..] + [target];
        CycleKept(tree, entry, before, edge, key, active[target]);
        var text := CycleKey(cycle);
        if text !in cycleKeys {
          cycleKeys := cycleKeys + {text};
          cycles := cycles + [cycle];
        }
      } else {
        KnownIsIncluded(tree, entry, before, key);
      }
    }

    method CollectTargets(resolution: Resolution) returns (targets: seq<Path>)
      requires resolution.Inside?
      ensures targets == Targets(tree, resolution)
    {
      if !resolution.hasGlob {
        return [resolution.pattern];
      }
      targets := [];
      for i := 0 to |tree.paths|
        invariant targets == Matching(tree, resolution.pattern, tree.paths[..i])
      {
        assert tree.paths[..i + 1][..i] == tree.paths[..i];
        if tree.matches(resolution.pattern, tree.paths[i]) {
          targets := targets + [tree.paths[i]];
        }
      }
      assert tree.paths[..|tree.paths|] == tree.paths;
    }

    method FollowTargets(source: Path, index: nat, d: Forms.Directive, resolution: Resolution, targets: seq<Path>,
                         depth: nat)
      returns (failure: Option<ExpandError>)
      requires Kept(tree, entry, State(), stack) && stack != [] && stack[|stack| - 1] == source
      requires |stack| == depth <= tree.limits.maxDepth && resolution.Inside? && |d.arguments| == 1
      requires AtDirective(tree, log, sensitive, source, index, d)
      requires forall k | 0 <= k < |targets| ::
                 TargetKey(tree, source, targets[k], d.arguments[0]) in Calls(tree, source, d)
      requires resolution.display == Display(tree, d)
      modifies this
      ensures failure.Some? ==> Blamed(tree, entry, failure.value)
      ensures failure.None? ==> Kept(tree, entry, State(), stack) && Grew(old(State()), State())
      ensures failure.None?
          ==> forall k | 0 <= k < |targets| :: Recorded(log, TargetKey(tree, source, targets[k], d.arguments[0]))
      decreases tree.manifest.Keys - visited, 3
    {
      hide Kept, Asks, Blamed, AtDirective, Recorded, Calls, Display;
      ghost var before := State();
      var expression := d.arguments[0];
      for i := 0 to |targets|
        invariant Kept(tree, entry, State(), stack) && Grew(before, State())
        invariant forall k | 0 <= k < i :: Recorded(log, TargetKey(tree, source, targets[k], expression))
      {
        ghost var earlier := log;
        AtDirectiveStill(tree, before, State(), source, index, d);
        failure := FollowTarget(source, index, d, expression, resolution.display, targets[i], depth);
        if failure.Some? {
          return;
        }
        forall k | 0 <= k < i ensures Recorded(log, TargetKey(tree, source, targets[k], expression)) {
          RecordedGrows(earlier, log, TargetKey(tree, source, targets[k], expression));
        }
      }
      failure := None;
    }

    /** One directive of the file on top of the stack. */
    method Follow(source: Path, index: nat, d: Forms.Directive, depth: nat) returns (failure: Option<ExpandError>)
      requires Kept(tree, entry, State(), stack) && stack != [] && stack[|stack| - 1] == source
      requires |stack| == depth <= tree.limits.maxDepth
      requires AtDirective(tree, log, sensitive, source, index, d)
      modifies this
      ensures failure.Some? ==> Blamed(tree, entry, failure.value)
      ensures failure.None? ==> Kept(tree, entry, State(), stack) && Grew(old(State()), State())
      ensures failure.None? ==> DirectiveDone(tree, log, sensitive, source, d)
      decreases tree.manifest.Keys - visited, 4
    {
      ghost var before := State();
      hide Kept, Asks, Blamed, IsRegular, HasSuffix, JoinArguments, Matching, Recorded, Targets, TargetKey, AtDirective;
      if IsSensitive(d.name) {
        if |d.arguments| == 1 {
          var resolved := tree.resolve(d.arguments[0]);
          if resolved.Inside? {
            var targets := CollectTargets(resolved);
            sensitive := sensitive + Elements(targets);
          }
        }
        KeptLog(tree, entry, before);
        IsDirective(tree, before, source, index, d);
        SecretsKept(tree, entry, before, source, index);
        return None;
      }
      if d.name != "include" {
        return None;
      }
      if |d.arguments| != 1 {
        failure := FollowLeaf(source, index, d, "[unresolved]", Unresolved, JoinArguments(d.arguments));
        return;
      }
      var expression := d.arguments[0];
      match tree.resolve(expression)
      case Unknown =>
        failure := FollowLeaf(source, index, d, "[unresolved]", Unresolved, expression);
      case Outside =>
        failure := FollowLeaf(source, index, d, "[external]", External, expression);
      case Inside(_, display, _) =>
        var targets := CollectTargets(tree.resolve(expression));
        if targets == [] {
          failure := FollowLeaf(source, index, d, display, Missing, expression);
        } else {
          TargetsAreCalled(tree, source, d, targets);
          failure := FollowTargets(source, index, d, tree.resolve(expression), targets, depth);
        }
    }

    /** A directive that leads nowhere in the tree. */
    method FollowLeaf(source: Path, index: nat, d: Forms.Directive, display: string, status: Status,
                      expression: string)
      returns (failure: Option<ExpandError>)
      requires Kept(tree, entry, State(), stack) && stack != [] && stack[|stack| - 1] == source
      requires AtDirective(tree, log, sensitive, source, index, d)
      requires Calls(tree, source, d) == [Key(source, "", status, expression)] && Secrets(tree, d) == []
      requires display == Display(tree, d)
      requires status != Cycle && status != Resolved
      modifies this
      ensures failure.Some? ==> Blamed(tree, entry, failure.value)
      ensures failure.None? ==> Kept(tree, entry, State(), stack) && Grew(old(State()), State())
      ensures failure.None? ==> DirectiveDone(tree, log, sensitive, source, d)
    {
      ghost var before := State();
      hide Kept, Asks, Blamed, Calls, Secrets, AtDirective, Display, Describes;
      var key := Key(source, "", status, expression);
      var edge := Dependency(source, d.line, d.column, display, "", status, false);
      KeptLog(tree, entry, before);
      CallIsAsked(tree, before, source, index, d, key);
      NewIsDescribed(tree, entry, before, edge, key, index, d);
      if |log| == tree.limits.maxEdges && key !in log { TooMany(tree, entry, before, key); }
      var added;
      added, failure := AddEdge(edge, key);
      if added { EdgeKept(tree, entry, before, edge, key); }
    }

    method Enter(source: Path)
      modifies this
      ensures State() == Pushed(old(State()), source)
    {
      visited := visited + {source};
      active := active[source := |stack|];
      stack := stack + [source];
      readLog := readLog + [source];
    }

    method Leave()
      requires stack != []
      modifies this
      ensures State() == Popped(old(State()))
    {
      var source := stack[|stack| - 1];
      stack := stack[..|stack| - 1];
      active := active - {source};
      done := done + [source];
    }

    method ReadDirectives(source: Path) returns (r: Result<seq<Forms.Directive>, ExpandError>)
      requires Reachable(tree, entry, source)
      ensures r == Directives(tree, source)
      ensures r.Failure? ==> Blamed(tree, entry, r.error)
    {
      hide Reachable;
      var content := tree.read(source);
      if content.None? {
        return Failure(ReadFailed(source));
      }
      var directives := Scanner.ScanDirectives(content.value, tree.limits.scan);
      if directives.Failure? {
        return Failure(ScanFailed(source));
      }
      return Success(directives.value);
    }

    /** Reads and searches a file unless that has been done. */
    method Visit(source: Path, depth: nat) returns (failure: Option<ExpandError>)
      requires source !in stack && IsRegular(tree, source) && |stack| + 1 == depth <= tree.limits.maxDepth + 1
      requires Kept(tree, entry, State(), Entering(stack, visited, source)) && tree.limits.maxDepth > 0
      requires if stack == [] then source == entry else Includes(tree, stack[|stack| - 1], source)
      modifies this
      ensures failure.Some? ==> Blamed(tree, entry, failure.value)
      ensures failure.None? ==> Kept(tree, entry, State(), stack) && Grew(old(State()), State()) && source in visited
      decreases tree.manifest.Keys - visited, 1
    {
      hide Kept, IsRegular, Includes, Reachable, IsWalk, Blamed;
      ghost var before := State();
      if depth > tree.limits.maxDepth {
        TooDeepWalk(tree, entry, before, source);
        return Some(TooDeep);
      }
      if source in visited {
        return None;
      }
      failure := VisitNew(source, depth);
    }

    method VisitNew(source: Path, depth: nat) returns (failure: Option<ExpandError>)
      requires source !in stack && source !in visited && IsRegular(tree, source)
      requires |stack| + 1 == depth <= tree.limits.maxDepth && Kept(tree, entry, State(), stack + [source])
      modifies this
      ensures failure.Some? ==> Blamed(tree, entry, failure.value)
      ensures failure.None? ==> Kept(tree, entry, State(), stack) && Grew(old(State()), State()) && source in visited
      decreases tree.manifest.Keys - visited, 0
    {
      hide Kept, DirectiveDone, Reachable, Directives, Blamed, Pushed, Popped;
      ghost var before := State();
      PushKept(tree, entry, before, source);
      EnteredTop(before, source);
      Enter(source);
      ghost var pushed := State();
      StackReached(tree, entry, pushed, source);
      var directives := ReadDirectives(source);
      if directives.Failure? {
        return Some(directives.error);
      }
      failure := FollowAll(source, directives.value, depth);
      if failure.Some? {
        return;
      }
      PopKept(tree, entry, State());
      LeaveGrew(before, source, State());
      Leave();
    }

    method FollowAll(source: Path, directives: seq<Forms.Directive>, depth: nat)
        returns (failure: Option<ExpandError>)
      requires Kept(tree, entry, State(), stack) && stack != [] && stack[|stack| - 1] == source
      requires |stack| == depth <= tree.limits.maxDepth && Directives(tree, source) == Success(directives)
      modifies this
      ensures failure.Some? ==> Blamed(tree, entry, failure.value)
      ensures failure.None? ==> Kept(tree, entry, State(), stack) && Grew(old(State()), State())
      ensures failure.None? ==> FileDone(tree, log, sensitive, source)
      decreases tree.manifest.Keys - visited, 5
    {
      hide Kept, Blamed, Directives, DirectiveDone;
      ghost var before := State();
      for i := 0 to |directives|
        invariant Kept(tree, entry, State(), stack) && Grew(before, State())
        invariant forall k | 0 <= k < i :: DirectiveDone(tree, log, sensitive, source, directives[k])
      {
        ghost var earlier := State();
        ReachedDirective(tree, earlier, source, directives, i);
        failure := Follow(source, i, directives[i], depth);
        if failure.Some? {
          return;
        }
        forall k | 0 <= k < i ensures DirectiveDone(tree, log, sensitive, source, directives[k]) {
          DirectiveStaysDone(tree, earlier, State(), source, directives[k]);
        }
      }
      failure := None;
    }
  }

  // ----- the expansion on text

  lemma FilesAreReached(tree: Tree, entry: Path, included: set<Path>, path: Path)
    requires IncludedExact(tree, entry, included)
    ensures Reachable(tree, entry, path) <==> path == entry || path in included
  {
    hide Includes;
    if path == entry {
      assert WalkBetween(tree, entry, [entry], entry);
    } else if path in included {
      var source :| IncludedFrom(tree, entry, source, path);
      var walk :| WalkBetween(tree, entry, walk, source);
      assert WalkBetween(tree, entry, walk + [path], path);
    }
    if Reachable(tree, entry, path) && path != entry {
      var walk :| WalkBetween(tree, entry, walk, path);
      var n := |walk|;
      assert n > 1;
      var source := walk[n - 2];
      assert WalkBetween(tree, entry, walk[..n - 1], source);
      assert Includes(tree, walk[n - 2], walk[n - 2 + 1]);
      assert IncludedFrom(tree, entry, source, path);
    }
  }

  lemma RecordedHasEdge(tree: Tree, edges: seq<Dependency>, keys: seq<Key>, key: Key)
    requires |edges| == |keys| && (forall i | 0 <= i < |keys| :: Describes(tree, edges[i], keys[i]))
    requires Recorded(keys, key)
    ensures HasEdge(edges, key.source, key.target, key.status)
  {
    hide Describes;
    var form := if key in keys then key else key.(status := Cycle);
    var i :| 0 <= i < |keys| && keys[i] == form;
    DescribedIsAsked(tree, edges[i], keys[i]);
    assert edges[i] in edges;
  }

  lemma EdgeIsRecorded(tree: Tree, edges: seq<Dependency>, keys: seq<Key>, edge: Dependency) returns (key: Key)
    requires |edges| == |keys| && (forall i | 0 <= i < |keys| :: Describes(tree, edges[i], keys[i]))
    requires edge in edges
    ensures key in keys && Recorded(keys, Uncycled(key)) && IsAsked(tree, edge) && edge.cycle == (edge.status == Cycle)
    ensures key.source == edge.source && key.target == edge.target && key.status == edge.status
  {
    hide Describes, IsAsked;
    var i :| 0 <= i < |edges| && edges[i] == edge;
    key := keys[i];
    DescribedIsAsked(tree, edge, key);
    assert key.status == Cycle ==> Uncycled(key).(status := Cycle) == key;
  }

  lemma EdgesOnText(tree: Tree, entry: Path, x: Expansion, keys: seq<Key>)
    requires EdgesExact(tree, entry, x.edges, keys) && IncludedExact(tree, entry, x.included)
    ensures EdgesAsAsked(tree, {entry} + x.included, x.edges)
  {
    hide IsAsked, PointsTo, HasEdge, Asks, Describes, Recorded, Uncycled, Reachable, IncludedExact, StandsIn;
    var files := {entry} + x.included;
    forall edge | edge in x.edges
      ensures edge.source in files && edge.cycle == (edge.status == Cycle) && IsAsked(tree, edge)
    {
      var key := EdgeIsRecorded(tree, x.edges, keys, edge);
      var plain := Uncycled(key);
      UncycledParts(key);
      assert Recorded(keys, plain) && plain.status != Cycle;
      FilesAreReached(tree, entry, x.included, plain.source);
    }
    forall source, d, target, status, display |
      source in files && StandsIn(tree, d, source) && status != Cycle && PointsTo(tree, d, target, status, display)
      ensures HasEdge(x.edges, source, target, status)
    {
      CallsAreAsked(tree, source, d, target, status);
      AsksOnText(tree, source, target, status);
      var expression :| Asks(tree, Key(source, target, status, expression));
      FilesAreReached(tree, entry, x.included, source);
      RecordedHasEdge(tree, x.edges, keys, Key(source, target, status, expression));
    }
  }

  lemma UncycledParts(key: Key)
    ensures Uncycled(key).source == key.source && Uncycled(key).target == key.target && Uncycled(key).status != Cycle
    ensures Uncycled(key).expression == key.expression
    ensures key.status == Resolved || key.status == Cycle ==> Uncycled(key).status == Resolved
  {
  }

  lemma FilesOnText(tree: Tree, entry: Path, x: Expansion, keys: seq<Key>)
    requires EdgesExact(tree, entry, x.edges, keys) && IncludedExact(tree, entry, x.included)
    ensures FilesAsLinked(x.edges, x.included)
  {
    hide IsAsked, Asks, Describes, Recorded, Uncycled, Reachable;
    forall target ensures target in x.included <==> exists source :: HasEdge(x.edges, source, target, Resolved) {
      if target in x.included {
        var source :| IncludedFrom(tree, entry, source, target);
        var expression :| Asks(tree, Key(source, target, Resolved, expression));
        RecordedHasEdge(tree, x.edges, keys, Key(source, target, Resolved, expression));
      }
      if source :| HasEdge(x.edges, source, target, Resolved) {
        var edge :| edge in x.edges && edge.source == source && edge.target == target
          && (edge.status == Resolved || edge.status == Cycle);
        var key := EdgeIsRecorded(tree, x.edges, keys, edge);
        UncycledParts(key);
        var plain := Uncycled(key);
        assert Asks(tree, plain) && plain == Key(source, target, Resolved, plain.expression);
        assert IncludedFrom(tree, entry, source, target);
      }
    }
  }

  lemma SecretsOnText(tree: Tree, entry: Path, x: Expansion)
    requires SensitiveExact(tree, entry, x.sensitive) && IncludedExact(tree, entry, x.included)
    ensures SecretsAsMarked(tree, {entry} + x.included, x.sensitive)
  {
    hide Hides, MarksSecret, StandsIn, Reachable, IncludedExact;
    var files := {entry} + x.included;
    forall target ensures target in x.sensitive <==> IsMarked(tree, files, target) {
      if target in x.sensitive {
        var source :| HiddenFrom(tree, entry, source, target);
        FilesAreReached(tree, entry, x.included, source);
        HidesOnText(tree, source, target);
      }
      if source, d :| source in files && StandsIn(tree, d, source) && MarksSecret(tree, d, target) {
        FilesAreReached(tree, entry, x.included, source);
        HidesOnText(tree, source, target);
        assert HiddenFrom(tree, entry, source, target);
      }
    }
  }

  lemma EdgesWithSnoc(edges: seq<Dependency>, edge: Dependency, status: Status)
    ensures EdgesWith(edges + [edge], status)
         == EdgesWith(edges, status) + if edge.status == status then {|edges|} else {}
    ensures |edges| !in EdgesWith(edges, status)
  {
    var more := edges + [edge];
    assert more[|edges|] == edge && forall i: nat | i < |edges| :: more[i] == edges[i];
  }

  lemma {:induction false} CountsOnText(edges: seq<Dependency>, keys: seq<Key>, status: Status)
    requires |edges| == |keys| && forall i | 0 <= i < |keys| :: edges[i].status == keys[i].status
    ensures CountStatus(keys, status) == |EdgesWith(edges, status)|
    decreases |edges|
  {
    if edges == [] {
      assert EdgesWith(edges, status) == {};
    } else {
      var n := |edges| - 1;
      CountsOnText(edges[..n], keys[..n], status);
      EdgesWithSnoc(edges[..n], edges[n], status);
      assert edges == edges[..n] + [edges[n]];
      hide EdgesWith;
    }
  }

  lemma SameStatuses(tree: Tree, edges: seq<Dependency>, keys: seq<Key>)
    requires |edges| == |keys| && (forall i | 0 <= i < |keys| :: Describes(tree, edges[i], keys[i]))
    ensures forall i | 0 <= i < |keys| :: edges[i].status == keys[i].status
  {
    hide StandsAt;
  }

  /** An exact expansion, told by the directives that stand in its files. */
  lemma ExpansionIsAsTold(tree: Tree, entry: Path, x: Expansion, keys: seq<Key>, readLog: seq<Path>)
    requires IsExpansion(tree, entry, x, keys, readLog)
    ensures ExpandsAsToldBy(tree, entry, x)
  {
    hide IncludedExact, SensitiveExact, EdgesAsAsked, FilesAsLinked, SecretsAsMarked, CyclesExact, Acyclic, Describes,
      Recorded, CountStatus, EdgesWith, ReadsOnceEach;
    EdgesOnText(tree, entry, x, keys);
    FilesOnText(tree, entry, x, keys);
    SecretsOnText(tree, entry, x);
    SameStatuses(tree, x.edges, keys);
    CountsOnText(x.edges, keys, Missing);
    CountsOnText(x.edges, keys, External);
  }

  /** Expands the includes of the entry file. */
  method ExpandIncludeGraph(tree: Tree, entry: Path)
    returns (r: Result<Expansion, ExpandError>, ghost keys: seq<Key>, ghost readLog: seq<Path>)
    requires ValidPaths(tree)
    ensures r.Success? ==> IsExpansion(tree, entry, r.value, keys, readLog) && ExpandsAsToldBy(tree, entry, r.value)
    ensures r.Failure? ==> Blamed(tree, entry, r.error)
  {
    keys, readLog := [], [];
    if tree.limits.maxEdges <= 0 || tree.limits.maxDepth <= 0 {
      return Failure(InvalidLimits), keys, readLog;
    }
    if entry !in tree.manifest || tree.manifest[entry] != Regular {
      return Failure(EntryNotManaged), keys, readLog;
    }
    var search := new GraphSearch(tree, entry);
    StartKept(tree, entry);
    hide IsExpansion, Blamed, Kept, ExpandsAsToldBy;
    var failure := search.Visit(entry, 1);
    if failure.Some? {
      return Failure(failure.value), keys, readLog;
    }
    EndedIsExpansion(tree, entry, search.State());
    keys, readLog := search.log, search.readLog;
    r := Success(Expansion(search.list, search.cycles, search.missingCount, search.externalCount,
                           search.included, search.sensitive));
    ExpansionIsAsTold(tree, entry, r.value, keys, readLog);
  }
}
