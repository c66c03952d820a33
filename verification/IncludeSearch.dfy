// The state of the depth-first expansion of the include graph, its invariant, and the steps
// that keep it (internal/config/include.go).
module IncludeSearch {
  import opened Outcomes
  import opened IncludeGraph
  import Scanner = IncludeScanner

  // ----- what the search keeps

  /** Every visited file is either on the stack or finished. */
  predicate Placed(stack: seq<Path>, done: seq<Path>, visited: set<Path>, active: map<Path, nat>) {
    && Distinct(done + stack)
    && visited == Elements(done) + Elements(stack)
    && active.Keys == Elements(stack)
    && forall k | 0 <= k < |stack| :: active[stack[k]] == k
  }

  predicate IsRegular(tree: Tree, path: Path) {
    path in tree.manifest && tree.manifest[path] == Regular
  }

  ghost predicate AllReached(tree: Tree, entry: Path, done: seq<Path>) {
    forall path | path in done :: Reachable(tree, entry, path)
  }

  /** The edge list, its keys and its counters. */
  ghost predicate Logged(tree: Tree, log: seq<Key>, edges: set<Key>, list: seq<Dependency>,
                         missing: nat, external: nat)
  {
    && edges == Elements(log) && |list| == |log| <= tree.limits.maxEdges
    && (forall i | 0 <= i < |log| :: Describes(tree, list[i], log[i]))
    && missing == CountStatus(log, Missing) && external == CountStatus(log, External)
  }

  predicate Sourced(tree: Tree, log: seq<Key>, visited: set<Path>) {
    forall key | key in log :: key.source in visited && Asks(tree, Uncycled(key))
  }

  /** Resolved edges lead to finished files, finished before their source; or down the stack. */
  predicate OrderedKey(key: Key, stack: seq<Path>, done: seq<Path>) {
    && (forall i | 0 <= i < |done| && done[i] == key.source :: key.target in done[..i])
    && forall i | 0 <= i < |stack| && stack[i] == key.source ::
         key.target in done || (i + 1 < |stack| && stack[i + 1] == key.target)
  }

  /** Cycle edges lead back up the stack. */
  predicate BackKey(key: Key, stack: seq<Path>, done: seq<Path>) {
    && (key.target in stack || key.target in done)
    && forall i | 0 <= i < |stack| && stack[i] == key.source :: key.target in stack[..i + 1]
  }

  predicate Ordered(log: seq<Key>, stack: seq<Path>, done: seq<Path>) {
    forall key | key in log ::
      && (key.status == Resolved ==> OrderedKey(key, stack, done))
      && (key.status == Cycle ==> BackKey(key, stack, done))
  }

  ghost predicate Links(log: seq<Key>, source: Path, target: Path, status: Status) {
    exists expression :: Key(source, target, status, expression) in log
  }

  ghost predicate Linked(log: seq<Key>, stack: seq<Path>) {
    forall i | 0 <= i < |stack| - 1 :: Links(log, stack[i], stack[i + 1], Resolved)
  }

  predicate DirectiveDone(tree: Tree, log: seq<Key>, sensitive: set<Path>, source: Path, d: Forms.Directive) {
    && (forall key | key in Calls(tree, source, d) :: Recorded(log, key))
    && forall path | path in Secrets(tree, d) :: path in sensitive
  }

  predicate FileDone(tree: Tree, log: seq<Key>, sensitive: set<Path>, source: Path) {
    && Directives(tree, source).Success?
    && var ds := Directives(tree, source).value;
       forall i | 0 <= i < |ds| :: DirectiveDone(tree, log, sensitive, source, ds[i])
  }

  /** Directive `index` of a file is at work, and all before it are done. */
  predicate AtDirective(tree: Tree, log: seq<Key>, sensitive: set<Path>, source: Path,
                        index: nat, d: Forms.Directive)
  {
    match Directives(tree, source)
    case Failure(_) => false
    case Success(ds) =>
      && index < |ds| && ds[index] == d
      && forall j | 0 <= j < index :: DirectiveDone(tree, log, sensitive, source, ds[j])
  }

  predicate AllDone(tree: Tree, log: seq<Key>, sensitive: set<Path>, done: seq<Path>) {
    forall path | path in done :: FileDone(tree, log, sensitive, path)
  }

  ghost predicate SecretsKnown(tree: Tree, sensitive: set<Path>, visited: set<Path>) {
    forall path | path in sensitive :: exists source :: source in visited && Hides(tree, source, path)
  }

  predicate Points(key: Key, target: Path) {
    key.target == target && (key.status == Resolved || key.status == Cycle)
  }

  ghost predicate IsPointedAt(log: seq<Key>, target: Path) {
    exists i :: 0 <= i < |log| && Points(log[i], target)
  }

  ghost predicate Marked(log: seq<Key>, included: set<Path>) {
    forall target :: target in included <==> IsPointedAt(log, target)
  }

  function CycleKey(cycle: seq<Path>): string {
    if cycle == [] then "" else cycle[0] + "\0" + CycleKey(cycle[1..])
  }

  /** A recorded cycle: recorded resolved edges, closed by a recorded cycle edge. */
  ghost predicate ClosedIn(log: seq<Key>, cycle: seq<Path>) {
    && |cycle| >= 2 && cycle[0] == cycle[|cycle| - 1]
    && Linked(log, cycle[..|cycle| - 1])
    && Links(log, cycle[|cycle| - 2], cycle[|cycle| - 1], Cycle)
  }

  predicate Closes(cycle: seq<Path>, key: Key) {
    |cycle| >= 2 && cycle[|cycle| - 2] == key.source && cycle[|cycle| - 1] == key.target
  }

  predicate HasCycleFor(cycles: seq<seq<Path>>, key: Key) {
    exists i | 0 <= i < |cycles| :: Closes(cycles[i], key)
  }

  ghost predicate AllClosed(tree: Tree, log: seq<Key>, cycles: seq<seq<Path>>) {
    forall i | 0 <= i < |cycles| :: ClosedIn(log, cycles[i]) && forall path | path in cycles[i] :: path in tree.manifest
  }

  predicate HasKey(cycles: seq<seq<Path>>, text: string) {
    exists i | 0 <= i < |cycles| :: CycleKey(cycles[i]) == text
  }

  predicate Keyed(cycles: seq<seq<Path>>, cycleKeys: set<string>) {
    && Distinct(cycles)
    && (forall i | 0 <= i < |cycles| :: CycleKey(cycles[i]) in cycleKeys)
    && forall text | text in cycleKeys :: HasKey(cycles, text)
  }

  predicate AllHaveCycles(log: seq<Key>, cycles: seq<seq<Path>>) {
    forall key | key in log && key.status == Cycle :: HasCycleFor(cycles, key)
  }

  ghost predicate CyclesOf(tree: Tree, log: seq<Key>, cycles: seq<seq<Path>>, cycleKeys: set<string>) {
    AllClosed(tree, log, cycles) && Keyed(cycles, cycleKeys) && AllHaveCycles(log, cycles)
  }

  // ----- facts about single steps

  lemma {:induction false} CycleKeyIsInjective(a: seq<Path>, b: seq<Path>)
    requires forall path | path in a + b :: '\0' !in path
    requires CycleKey(a) == CycleKey(b)
    ensures a == b
    decreases |a|
  {
    if a != [] && b != [] {
      var s, t := CycleKey(a), CycleKey(b);
      assert a[0] in a + b && b[0] in a + b;
      assert s[|a[0]|] == '\0' && t[|b[0]|] == '\0';
      assert forall i | 0 <= i < |b[0]| :: t[i] == b[0][i] && b[0][i] != '\0';
      assert forall i | 0 <= i < |a[0]| :: s[i] == a[0][i] && a[0][i] != '\0';
      assert |a[0]| == |b[0]|;
      assert a[0] == s[..|a[0]|] && b[0] == t[..|b[0]|];
      assert CycleKey(a[1..]) == s[|a[0]| + 1..] && CycleKey(b[1..]) == t[|b[0]| + 1..];
      assert forall path | path in a[1..] + b[1..] :: path in a + b;
      CycleKeyIsInjective(a[1..], b[1..]);
      assert a == [a[0]] + a[1..] && b == [b[0]] + b[1..];
    }
  }

  lemma StackIsWalk(tree: Tree, log: seq<Key>, visited: set<Path>, stack: seq<Path>)
    requires Sourced(tree, log, visited) && Linked(log, stack) && stack != []
    ensures IsWalk(tree, stack)
  {
    forall i | 0 <= i < |stack| - 1 ensures Includes(tree, stack[i], stack[i + 1]) {
      var expression :| Key(stack[i], stack[i + 1], Resolved, expression) in log;
      assert Asks(tree, Uncycled(Key(stack[i], stack[i + 1], Resolved, expression)));
    }
  }

  lemma WalkReaches(tree: Tree, entry: Path, walk: seq<Path>, k: nat)
    requires IsWalk(tree, walk) && walk[0] == entry && k < |walk|
    ensures Reachable(tree, entry, walk[k])
  {
    assert WalkBetween(tree, entry, walk[..k + 1], walk[k]);
  }

  lemma DistinctParts(done: seq<Path>, stack: seq<Path>)
    requires Distinct(done + stack)
    ensures Distinct(done) && Distinct(stack)
    ensures forall i, j | 0 <= i < |done| && 0 <= j < |stack| :: done[i] != stack[j]
  {
    var all := done + stack;
    assert forall i | 0 <= i < |done| :: done[i] == all[i];
    assert forall j | 0 <= j < |stack| :: stack[j] == all[|done| + j];
    forall i, j | 0 <= i < |done| && 0 <= j < |stack| ensures done[i] != stack[j] {
      assert all[i] != all[|done| + j];
    }
    forall i, j | 0 <= i < j < |stack| ensures stack[i] != stack[j] {
      assert all[|done| + i] != all[|done| + j];
    }
  }

  lemma FinishOrdered(log: seq<Key>, stack: seq<Path>, done: seq<Path>)
    requires Ordered(log, stack, done) && stack != [] && Distinct(done + stack)
    ensures Ordered(log, stack[..|stack| - 1], done + [stack[|stack| - 1]])
  {
    var top, rest := stack[|stack| - 1], stack[..|stack| - 1];
    var done' := done + [top];
    forall key | key in log
      ensures key.status == Resolved ==> OrderedKey(key, rest, done')
      ensures key.status == Cycle ==> BackKey(key, rest, done')
    {
      if key.status == Resolved {
        forall i | 0 <= i < |done'| && done'[i] == key.source ensures key.target in done'[..i] {
          if i < |done| { assert done'[..i] == done[..i]; } else { assert done'[..i] == done; }
        }
      }
      if key.status == Cycle {
        forall i | 0 <= i < |rest| && rest[i] == key.source ensures key.target in rest[..i + 1] {
          assert rest[..i + 1] == stack[..i + 1];
        }
      }
    }
  }

  /** The stack a visit runs on: an unvisited file is pushed first. */
  function Entering(stack: seq<Path>, visited: set<Path>, path: Path): seq<Path> {
    if path in visited then stack else stack + [path]
  }

  /** A resolved edge from the top of the stack to a file that is not on it. */
  lemma AddResolved(tree: Tree, log: seq<Key>, stack: seq<Path>, done: seq<Path>, visited: set<Path>, key: Key)
    requires Ordered(log, stack, done) && stack != [] && Distinct(done + stack)
    requires visited == Elements(done) + Elements(stack)
    requires Sourced(tree, log, visited)
    requires key.status == Resolved && key.source == stack[|stack| - 1] && key.target !in stack
    ensures Ordered(log + [key], Entering(stack, visited, key.target), done)
  {
    var entering := Entering(stack, visited, key.target);
    DistinctParts(done, stack);
    forall k | k in log + [key]
      ensures k.status == Resolved ==> OrderedKey(k, entering, done)
      ensures k.status == Cycle ==> BackKey(k, entering, done)
    {
      if k.status == Resolved {
        forall i | 0 <= i < |entering| && entering[i] == k.source
          ensures k.target in done || (i + 1 < |entering| && entering[i + 1] == k.target)
        {
        }
      }
      if k.status == Cycle {
        forall i | 0 <= i < |entering| && entering[i] == k.source ensures k.target in entering[..i + 1] {
          if i < |stack| { assert entering[..i + 1] == stack[..i + 1]; }
        }
      }
    }
  }

  /** Any other edge from the top of the stack; a cycle edge leads into the stack. */
  lemma AddOther(log: seq<Key>, stack: seq<Path>, done: seq<Path>, key: Key)
    requires Ordered(log, stack, done) && stack != [] && Distinct(done + stack)
    requires key.source == stack[|stack| - 1] && key.status != Resolved && (key.status == Cycle ==> key.target in stack)
    ensures Ordered(log + [key], stack, done)
  {
    DistinctParts(done, stack);
    forall k | k in log + [key]
      ensures k.status == Resolved ==> OrderedKey(k, stack, done)
      ensures k.status == Cycle ==> BackKey(k, stack, done)
    {
      if k == key && k.status == Cycle {
        forall i | 0 <= i < |stack| && stack[i] == k.source ensures k.target in stack[..i + 1] {
          assert i == |stack| - 1 && stack[..i + 1] == stack;
        }
      }
    }
  }

  /**
   * The two forms of an edge never come together: while its source is searched its target stays on
   * or off the stack.
   */
  lemma UncycledIsNew(log: seq<Key>, stack: seq<Path>, done: seq<Path>, key: Key)
    requires Ordered(log, stack, done) && stack != [] && Distinct(done + stack) && key !in log
    requires key.source == stack[|stack| - 1]
    requires key.status == Cycle ==> key.target in stack
    requires key.status == Resolved ==> key.target !in stack
    ensures forall k | k in log :: Uncycled(k) != Uncycled(key)
  {
    DistinctParts(done, stack);
    assert stack[..|stack|] == stack;
    forall k | k in log ensures Uncycled(k) != Uncycled(key) {
      assert k.status == Resolved ==> OrderedKey(k, stack, done);
      assert k.status == Cycle ==> BackKey(k, stack, done);
    }
  }

  lemma LogGrows(tree: Tree, log: seq<Key>, more: seq<Key>, stack: seq<Path>, cycle: seq<Path>, sensitive: set<Path>,
                 done: seq<Path>)
    requires log <= more
    ensures Linked(log, stack) ==> Linked(more, stack)
    ensures ClosedIn(log, cycle) ==> ClosedIn(more, cycle)
    ensures AllDone(tree, log, sensitive, done) ==> AllDone(tree, more, sensitive, done)
  {
    assert forall key | key in log :: key in more;
    forall i | 0 <= i < |stack| - 1
        && Links(log, stack[i], stack[i + 1], Resolved) ensures Links(more, stack[i], stack[i + 1], Resolved) {
    }
  }

  lemma PointedAtGrows(log: seq<Key>, key: Key, target: Path)
    ensures IsPointedAt(log + [key], target) <==> IsPointedAt(log, target) || Points(key, target)
  {
    hide Points;
    var more := log + [key];
    if i :| 0 <= i < |log| && Points(log[i], target) { assert Points(more[i], target); }
    if Points(key, target) { assert Points(more[|log|], target); }
    if i :| 0 <= i < |more| && Points(more[i], target) { assert i < |log| ==> Points(log[i], target); }
  }

  lemma MarkedGrows(log: seq<Key>, key: Key, included: set<Path>)
    requires Marked(log, included)
    ensures var pointed := key.status == Resolved || key.status == Cycle;
            Marked(log + [key], if pointed then included + {key.target} else included)
  {
    forall target ensures IsPointedAt(log + [key], target) <==> IsPointedAt(log, target) || Points(key, target) {
      PointedAtGrows(log, key, target);
    }
    hide IsPointedAt;
  }

  lemma ClosedGrows(tree: Tree, log: seq<Key>, key: Key, cycles: seq<seq<Path>>)
    requires AllClosed(tree, log, cycles)
    ensures AllClosed(tree, log + [key], cycles)
  {
    forall i | 0 <= i < |cycles| ensures ClosedIn(log + [key], cycles[i]) {
      LogGrows(tree, log, log + [key], [], cycles[i], {}, []);
    }
  }

  lemma CyclesGrow(tree: Tree, log: seq<Key>, key: Key, cycles: seq<seq<Path>>, cycleKeys: set<string>)
    requires CyclesOf(tree, log, cycles, cycleKeys) && (key.status == Cycle ==> HasCycleFor(cycles, key))
    ensures CyclesOf(tree, log + [key], cycles, cycleKeys)
  {
    ClosedGrows(tree, log, key, cycles);
    hide AllClosed, Keyed, HasCycleFor;
  }

  /** The cycle from a file on the stack down to the top and back. */
  lemma StackCloses(log: seq<Key>, stack: seq<Path>, start: nat, key: Key)
    requires Linked(log, stack) && start < |stack|
    requires key.status == Cycle && key.source == stack[|stack| - 1] && key.target == stack[start]
    ensures ClosedIn(log + [key], stack[start..] + [key.target]) && Closes(stack[start..] + [key.target], key)
  {
    var part := stack[start..];
    var cycle := part + [key.target];
    assert cycle[..|cycle| - 1] == part;
    assert Key(key.source, key.target, Cycle, key.expression) in log + [key];
    forall i | 0 <= i < |part| - 1 ensures Links(log + [key], part[i], part[i + 1], Resolved) {
      assert Links(log, stack[start + i], stack[start + i + 1], Resolved);
    }
  }

  lemma KeyedGrows(cycles: seq<seq<Path>>, cycleKeys: set<string>, cycle: seq<Path>)
    requires Keyed(cycles, cycleKeys) && CycleKey(cycle) !in cycleKeys
    ensures Keyed(cycles + [cycle], cycleKeys + {CycleKey(cycle)})
  {
    hide CycleKey;
    var all, keys := cycles + [cycle], cycleKeys + {CycleKey(cycle)};
    forall i | 0 <= i < |all| ensures CycleKey(all[i]) in keys {
      assert i < |cycles| ==> all[i] == cycles[i];
    }
    forall text | text in keys ensures HasKey(all, text) {
      if text in cycleKeys {
        var i :| 0 <= i < |cycles| && CycleKey(cycles[i]) == text;
        assert CycleKey(all[i]) == text;
      } else {
        assert CycleKey(all[|cycles|]) == text;
      }
    }
    forall i, j | 0 <= i < j < |all| ensures all[i] != all[j] {
      assert CycleKey(cycles[i]) in cycleKeys;
    }
  }

  lemma HasCyclesGrows(log: seq<Key>, cycles: seq<seq<Path>>, key: Key, cycle: seq<Path>)
    requires AllHaveCycles(log, cycles) && Closes(cycle, key)
    ensures AllHaveCycles(log + [key], cycles + [cycle])
  {
    hide Closes;
    var all := cycles + [cycle];
    forall k | k in log + [key] && k.status == Cycle ensures HasCycleFor(all, k) {
      if k in log {
        var i :| 0 <= i < |cycles| && Closes(cycles[i], k);
        assert Closes(all[i], k);
      } else {
        assert Closes(all[|cycles|], k);
      }
    }
  }

  lemma ClosedSnoc(tree: Tree, log: seq<Key>, cycles: seq<seq<Path>>, cycle: seq<Path>)
    requires AllClosed(tree, log, cycles) && ClosedIn(log, cycle) && forall path | path in cycle ::
        path in tree.manifest
    ensures AllClosed(tree, log, cycles + [cycle])
  {
    hide ClosedIn;
  }

  lemma NewCycle(tree: Tree, log: seq<Key>, key: Key, cycles: seq<seq<Path>>, cycleKeys: set<string>, cycle: seq<Path>)
    requires CyclesOf(tree, log, cycles, cycleKeys) && CycleKey(cycle) !in cycleKeys
    requires ClosedIn(log + [key], cycle) && Closes(cycle, key)
    requires forall path | path in cycle :: path in tree.manifest
    ensures CyclesOf(tree, log + [key], cycles + [cycle], cycleKeys + {CycleKey(cycle)})
  {
    hide AllClosed, ClosedIn, CycleKey, Closes, Keyed, AllHaveCycles;
    ClosedGrows(tree, log, key, cycles);
    ClosedSnoc(tree, log + [key], cycles, cycle);
    KeyedGrows(cycles, cycleKeys, cycle);
    HasCyclesGrows(log, cycles, key, cycle);
  }

  /** A cycle whose key is known is recorded already. */
  lemma KnownCycle(tree: Tree, log: seq<Key>, key: Key, cycles: seq<seq<Path>>, cycleKeys: set<string>,
                   cycle: seq<Path>)
    requires ValidPaths(tree) && CyclesOf(tree, log, cycles, cycleKeys) && CycleKey(cycle) in cycleKeys
    requires Closes(cycle, key)
    requires forall path | path in cycle :: path in tree.manifest
    ensures CyclesOf(tree, log + [key], cycles, cycleKeys)
  {
    hide ClosedIn, Closes, CycleKey;
    var i :| 0 <= i < |cycles| && CycleKey(cycles[i]) == CycleKey(cycle);
    CycleKeyIsInjective(cycles[i], cycle);
    assert Closes(cycles[i], key);
    CyclesGrow(tree, log, key, cycles, cycleKeys);
  }

  /** No two edges differ only in being a cycle edge. */
  predicate OneFormEach(log: seq<Key>) {
    forall i, j | 0 <= i < j < |log| :: Uncycled(log[i]) != Uncycled(log[j])
  }

  lemma FormsGrow(tree: Tree, log: seq<Key>, stack: seq<Path>, done: seq<Path>, visited: set<Path>, key: Key)
    requires Ordered(log, stack, done) && stack != [] && Distinct(done + stack) && key !in log && OneFormEach(log)
    requires key.source == stack[|stack| - 1] && key.source in visited && Sourced(tree, log, visited)
    requires Asks(tree, Uncycled(key))
    requires key.status == Cycle ==> key.target in stack
    requires key.status == Resolved ==> key.target !in stack
    ensures OneFormEach(log + [key]) && Sourced(tree, log + [key], visited)
  {
    UncycledIsNew(log, stack, done, key);
    hide Uncycled, Asks;
  }

  /** Why an expansion may fail. */
  ghost predicate Blamed(tree: Tree, entry: Path, error: ExpandError) {
    match error
    case InvalidLimits => tree.limits.maxEdges <= 0 || tree.limits.maxDepth <= 0
    case EntryNotManaged => !IsRegular(tree, entry)
    case ReadFailed(path) => Reachable(tree, entry, path) && tree.read(path).None?
    case ScanFailed(path) => Reachable(tree, entry, path) && Directives(tree, path) == Failure(error)
    case TooDeep => exists walk :: IsWalk(tree, walk) && walk[0] == entry && |walk| == tree.limits.maxDepth + 1
    case TooManyEdges => exists keys :: ManyEdges(tree, entry, keys)
  }

  /** More distinct edges than the limit allows. */
  ghost predicate ManyEdges(tree: Tree, entry: Path, keys: seq<Key>) {
    && |keys| == tree.limits.maxEdges + 1 && OneFormEach(keys)
    && forall i | 0 <= i < |keys| :: Asks(tree, Uncycled(keys[i])) && Reachable(tree, entry, keys[i].source)
  }

  lemma ManyFrom(tree: Tree, entry: Path, keys: seq<Key>, visited: set<Path>)
    requires |keys| == tree.limits.maxEdges + 1 && OneFormEach(keys) && Sourced(tree, keys, visited)
    requires forall path | path in visited :: Reachable(tree, entry, path)
    ensures Blamed(tree, entry, TooManyEdges)
  {
    hide Asks, Uncycled, OneFormEach, Reachable;
    forall i | 0 <= i < |keys| ensures Asks(tree, Uncycled(keys[i])) && Reachable(tree, entry, keys[i].source) {
      assert keys[i] in keys;
    }
    assert ManyEdges(tree, entry, keys);
  }

  // ----- the search state and its invariant

  datatype SearchState = SearchState(
    visited: set<Path>, active: map<Path, nat>, stack: seq<Path>, edges: set<Key>, list: seq<Dependency>,
    missing: nat, external: nat, cycles: seq<seq<Path>>, cycleKeys: set<string>,
    included: set<Path>, sensitive: set<Path>,
    log: seq<Key>, done: seq<Path>, readLog: seq<Path>)

  ghost predicate FilesKept(tree: Tree, entry: Path, s: SearchState) {
    && ValidPaths(tree) && Placed(s.stack, s.done, s.visited, s.active)
    && (forall path | path in s.visited :: IsRegular(tree, path))
    && (s.stack != [] ==> s.stack[0] == entry) && AllReached(tree, entry, s.done)
    && AllDone(tree, s.log, s.sensitive, s.done) && SecretsKnown(tree, s.sensitive, s.visited)
    && Distinct(s.readLog) && Elements(s.readLog) == s.visited
  }

  ghost predicate EdgesKept(tree: Tree, s: SearchState) {
    && Logged(tree, s.log, s.edges, s.list, s.missing, s.external) && OneFormEach(s.log)
    && Sourced(tree, s.log, s.visited) && Marked(s.log, s.included) && CyclesOf(tree, s.log, s.cycles, s.cycleKeys)
  }

  /** What the search keeps while it runs on the given stack. */
  ghost predicate Kept(tree: Tree, entry: Path, s: SearchState, running: seq<Path>) {
    && FilesKept(tree, entry, s) && EdgesKept(tree, s)
    && (running != [] ==> running[0] == entry) && Ordered(s.log, running, s.done) && Linked(s.log, running)
  }

  /** A search leaves the stack as it was and only adds to what is known. */
  predicate Grew(before: SearchState, after: SearchState) {
    && after.stack == before.stack && before.log <= after.log && before.done <= after.done
    && before.sensitive <= after.sensitive && before.visited <= after.visited
  }

  function WithEdge(s: SearchState, edge: Dependency, key: Key): SearchState {
    s.(edges := s.edges + {key}, list := s.list + [edge], log := s.log + [key],
       missing := s.missing + (if key.status == Missing then 1 else 0),
       external := s.external + if key.status == External then 1 else 0)
  }

  lemma LoggedGrows(tree: Tree, s: SearchState, edge: Dependency, key: Key)
    requires Logged(tree, s.log, s.edges, s.list, s.missing, s.external) && Describes(tree, edge, key)
    requires |s.log| < tree.limits.maxEdges
    ensures var t := WithEdge(s, edge, key); Logged(tree, t.log, t.edges, t.list, t.missing, t.external)
  {
    var more := s.log + [key];
    assert more[..|more| - 1] == s.log;
  }

  lemma TopIsVisited(tree: Tree, entry: Path, s: SearchState, source: Path)
    requires FilesKept(tree, entry, s) && s.stack != [] && source == s.stack[|s.stack| - 1]
    ensures source in s.visited && Distinct(s.done + s.stack) && s.visited == Elements(s.done) + Elements(s.stack)
    ensures s.active.Keys == Elements(s.stack)
  {
    hide AllDone, SecretsKnown, AllReached, Distinct;
  }

  lemma FilesGrow(tree: Tree, entry: Path, s: SearchState, edge: Dependency, key: Key, included: set<Path>,
                  cycles: seq<seq<Path>>, cycleKeys: set<string>)
    requires FilesKept(tree, entry, s)
    ensures FilesKept(tree, entry,
        WithEdge(s, edge, key).(included := included, cycles := cycles, cycleKeys := cycleKeys))
  {
    LogGrows(tree, s.log, s.log + [key], [], [], s.sensitive, s.done);
    hide AllDone, SecretsKnown, AllReached, Distinct, Placed, IsRegular;
  }

  /** A new edge that is not a cycle edge, from the top of the stack. */
  lemma EdgeKept(tree: Tree, entry: Path, s: SearchState, edge: Dependency, key: Key)
    requires Kept(tree, entry, s, s.stack) && s.stack != [] && key.source == s.stack[|s.stack| - 1]
    requires key !in s.log && |s.log| < tree.limits.maxEdges && Describes(tree, edge, key)
    requires key.status != Cycle && (key.status == Resolved ==> key.target !in s.stack) && Asks(tree, key)
    ensures var included := if key.status == Resolved then s.included + {key.target} else s.included;
            Kept(tree, entry, WithEdge(s, edge, key).(included := included),
                 if key.status == Resolved then Entering(s.stack, s.visited, key.target) else s.stack)
  {
    hide FilesKept, Logged, Describes, OneFormEach, Sourced, Marked, CyclesOf, Distinct, Asks, Ordered;
    TopIsVisited(tree, entry, s, key.source);
    var included := if key.status == Resolved then s.included + {key.target} else s.included;
    FilesGrow(tree, entry, s, edge, key, included, s.cycles, s.cycleKeys);
    LoggedGrows(tree, s, edge, key);
    FormsGrow(tree, s.log, s.stack, s.done, s.visited, key);
    MarkedGrows(s.log, key, s.included);
    CyclesGrow(tree, s.log, key, s.cycles, s.cycleKeys);
    LogGrows(tree, s.log, s.log + [key], s.stack, [], {}, []);
    if key.status == Resolved {
      AddResolved(tree, s.log, s.stack, s.done, s.visited, key);
      LinkTarget(s.log + [key], s.stack, key);
    } else {
      AddOther(s.log, s.stack, s.done, key);
    }
    hide Linked;
  }

  lemma LinkTarget(log: seq<Key>, stack: seq<Path>, key: Key)
    requires Linked(log, stack) && stack != [] && key in log && key.status == Resolved
    requires key.source == stack[|stack| - 1]
    ensures Linked(log, stack + [key.target])
  {
    assert Key(key.source, key.target, Resolved, key.expression) in log;
  }

  lemma CyclesKept(tree: Tree, s: SearchState, key: Key, k: nat)
    requires ValidPaths(tree) && CyclesOf(tree, s.log, s.cycles, s.cycleKeys) && Linked(s.log, s.stack)
    requires forall path | path in s.stack :: path in tree.manifest
    requires k < |s.stack| && key.status == Cycle && key.source == s.stack[|s.stack| - 1] && key.target == s.stack[k]
    ensures var cycle := s.stack[k..] + [key.target];
            if CycleKey(cycle) in s.cycleKeys then CyclesOf(tree, s.log + [key], s.cycles, s.cycleKeys)
            else CyclesOf(tree, s.log + [key], s.cycles + [cycle], s.cycleKeys + {CycleKey(cycle)})
  {
    hide CyclesOf, Linked, Closes, ClosedIn, CycleKey, ValidPaths;
    var cycle := s.stack[k..] + [key.target];
    StackCloses(s.log, s.stack, k, key);
    if CycleKey(cycle) in s.cycleKeys { KnownCycle(tree, s.log, key, s.cycles, s.cycleKeys, cycle); }
    else { NewCycle(tree, s.log, key, s.cycles, s.cycleKeys, cycle); }
  }

  lemma StackIsManaged(tree: Tree, entry: Path, s: SearchState)
    requires FilesKept(tree, entry, s)
    ensures ValidPaths(tree) && forall path | path in s.stack :: path in tree.manifest
    ensures forall k | 0 <= k < |s.stack| :: s.stack[k] in s.active && s.active[s.stack[k]] == k
  {
    hide AllDone, SecretsKnown, AllReached, Distinct;
    forall path | path in s.stack ensures path in tree.manifest { assert path in s.visited; }
  }

  function WithCycle(s: SearchState, edge: Dependency, key: Key, cycle: seq<Path>): SearchState {
    var t := WithEdge(s, edge, key).(included := s.included + {key.target});
    if CycleKey(cycle) in s.cycleKeys then t
    else t.(cycles := s.cycles + [cycle], cycleKeys := s.cycleKeys + {CycleKey(cycle)})
  }

  /** A new cycle edge, from the top of the stack back into it. */
  lemma CycleKept(tree: Tree, entry: Path, s: SearchState, edge: Dependency, key: Key, k: nat)
    requires Kept(tree, entry, s, s.stack) && s.stack != [] && key.source == s.stack[|s.stack| - 1]
    requires key !in s.log && |s.log| < tree.limits.maxEdges && Describes(tree, edge, key)
    requires k < |s.stack| && key.status == Cycle && key.target == s.stack[k] && Asks(tree, Uncycled(key))
    ensures Kept(tree, entry, WithCycle(s, edge, key, s.stack[k..] + [key.target]), s.stack)
  {
    hide FilesKept, Logged, Describes, OneFormEach, Sourced, Marked, CyclesOf, Distinct, Asks, Ordered, Linked,
      CycleKey, Uncycled, Elements, ValidPaths;
    var t := WithCycle(s, edge, key, s.stack[k..] + [key.target]);
    TopIsVisited(tree, entry, s, key.source);
    StackIsManaged(tree, entry, s);
    CyclesKept(tree, s, key, k);
    FilesGrow(tree, entry, s, edge, key, t.included, t.cycles, t.cycleKeys);
    LoggedGrows(tree, s, edge, key);
    FormsGrow(tree, s.log, s.stack, s.done, s.visited, key);
    MarkedGrows(s.log, key, s.included);
    LogGrows(tree, s.log, s.log + [key], s.stack, [], {}, []);
    AddOther(s.log, s.stack, s.done, key);
  }

  function Pushed(s: SearchState, source: Path): SearchState {
    s.(visited := s.visited + {source}, active := s.active[source := |s.stack|], stack := s.stack + [source],
       readLog := s.readLog + [source])
  }

  lemma PushPlaces(s: SearchState, source: Path)
    requires Placed(s.stack, s.done, s.visited, s.active) && source !in s.visited
    ensures var t := Pushed(s, source); Placed(t.stack, t.done, t.visited, t.active)
  {
    var t := Pushed(s, source);
    assert t.done + t.stack == (s.done + s.stack) + [source];
    assert forall path | path in s.done + s.stack :: path in s.visited;
    forall k | 0 <= k < |t.stack| ensures t.active[t.stack[k]] == k {
      if k < |s.stack| { assert t.stack[k] == s.stack[k] && s.stack[k] in s.stack; }
    }
  }

  lemma VisitedGrows(tree: Tree, log: seq<Key>, sensitive: set<Path>, visited: set<Path>, more: set<Path>)
    requires Sourced(tree, log, visited) && SecretsKnown(tree, sensitive, visited) && visited <= more
    ensures Sourced(tree, log, more) && SecretsKnown(tree, sensitive, more)
  {
    hide Asks, Hides, Uncycled;
    forall path | path in sensitive ensures exists source :: source in more && Hides(tree, source, path) {
      var source :| source in visited && Hides(tree, source, path);
      assert source in more;
    }
  }

  lemma ReadOnce(readLog: seq<Path>, visited: set<Path>, source: Path)
    requires Distinct(readLog) && Elements(readLog) == visited && source !in visited
    ensures Distinct(readLog + [source]) && Elements(readLog + [source]) == visited + {source}
  {
    forall i, j | 0 <= i < j < |readLog + [source]| ensures (readLog + [source])[i] != (readLog + [source])[j] {
      assert readLog[i] in Elements(readLog);
    }
  }

  /** Entering an unvisited file. */
  lemma PushKept(tree: Tree, entry: Path, s: SearchState, source: Path)
    requires Kept(tree, entry, s, s.stack + [source]) && source !in s.visited && IsRegular(tree, source)
    ensures Kept(tree, entry, Pushed(s, source), s.stack + [source])
  {
    hide Placed, AllDone, AllReached, ValidPaths, IsRegular, Logged, OneFormEach, Marked, CyclesOf, Ordered, Linked,
      Sourced, SecretsKnown, Distinct, Elements;
    PushPlaces(s, source);
    VisitedGrows(tree, s.log, s.sensitive, s.visited, s.visited + {source});
    ReadOnce(s.readLog, s.visited, source);
  }

  function Popped(s: SearchState): SearchState
    requires s.stack != []
  {
    var top := s.stack[|s.stack| - 1];
    s.(stack := s.stack[..|s.stack| - 1], active := s.active - {top}, done := s.done + [top])
  }

  lemma PopPlaces(s: SearchState)
    requires Placed(s.stack, s.done, s.visited, s.active) && s.stack != []
    ensures var t := Popped(s); Placed(t.stack, t.done, t.visited, t.active)
  {
    var t, top := Popped(s), s.stack[|s.stack| - 1];
    DistinctParts(s.done, s.stack);
    assert s.stack == t.stack + [top];
    forall i, j | 0 <= i < j < |t.done + t.stack| ensures (t.done + t.stack)[i] != (t.done + t.stack)[j] {
    }
  }

  /** An edge that is new belongs to the directive at work: no earlier one has asked for it. */
  lemma NewStandsHere(tree: Tree, entry: Path, s: SearchState, edge: Dependency, key: Key,
                      index: nat, d: Forms.Directive)
    requires Kept(tree, entry, s, s.stack) && s.stack != [] && key.source == s.stack[|s.stack| - 1]
    requires AtDirective(tree, s.log, s.sensitive, key.source, index, d) && Uncycled(key) in Calls(tree, key.source, d)
    requires key !in s.log && (key.status == Cycle ==> key.target in s.stack)
    requires key.status == Resolved ==> key.target !in s.stack
    requires edge.line == d.line && edge.column == d.column && edge.display == Display(tree, d)
    ensures StandsAt(tree, edge, key, index)
  {
    hide Calls, Display, Secrets, Logged, OneFormEach, Sourced, Marked, CyclesOf, AllDone, AllReached, SecretsKnown,
      Distinct, Linked, Ordered, Placed;
    TopIsVisited(tree, entry, s, key.source);
    UncycledIsNew(s.log, s.stack, s.done, key);
    var ds := Directives(tree, key.source).value;
    forall j | 0 <= j < index ensures Uncycled(key) !in Calls(tree, key.source, ds[j]) {
      assert DirectiveDone(tree, s.log, s.sensitive, key.source, ds[j]);
      RecordedForm(s.log, key);
    }
  }

  /** A call that is recorded is recorded under one of its forms. */
  lemma RecordedForm(log: seq<Key>, key: Key)
    requires forall k | k in log :: Uncycled(k) != Uncycled(key)
    ensures !Recorded(log, Uncycled(key))
  {
    var plain := Uncycled(key);
    var cycle := plain.(status := Cycle);
    assert Uncycled(plain) == plain && (plain.status == Resolved ==> Uncycled(cycle) == plain);
  }

  lemma StackReached(tree: Tree, entry: Path, s: SearchState, path: Path)
    requires Kept(tree, entry, s, s.stack) && path in s.visited
    ensures Reachable(tree, entry, path)
  {
    hide Ordered, AllDone, SecretsKnown, Logged, OneFormEach, Marked, CyclesOf, Distinct, Linked, Sourced, Reachable,
      IsWalk;
    if path in s.stack {
      StackIsWalk(tree, s.log, s.visited, s.stack);
      var k :| 0 <= k < |s.stack| && s.stack[k] == path;
      WalkReaches(tree, entry, s.stack, k);
    }
  }

  lemma DoneGrows(tree: Tree, entry: Path, log: seq<Key>, sensitive: set<Path>, done: seq<Path>, path: Path)
    requires AllReached(tree, entry, done) && AllDone(tree, log, sensitive, done)
    requires Reachable(tree, entry, path) && FileDone(tree, log, sensitive, path)
    ensures AllReached(tree, entry, done + [path]) && AllDone(tree, log, sensitive, done + [path])
  {
    hide Reachable, FileDone;
  }

  lemma LinkedPrefix(log: seq<Key>, stack: seq<Path>)
    requires Linked(log, stack) && stack != []
    ensures Linked(log, stack[..|stack| - 1])
  {
    hide Links;
  }

  /** Leaving a file whose directives are all followed. */
  lemma PopKept(tree: Tree, entry: Path, s: SearchState)
    requires Kept(tree, entry, s, s.stack) && s.stack != []
    requires FileDone(tree, s.log, s.sensitive, s.stack[|s.stack| - 1])
    ensures Kept(tree, entry, Popped(s), Popped(s).stack)
  {
    hide Placed, FileDone, SecretsKnown, ValidPaths, Logged, OneFormEach, Marked, CyclesOf, Ordered, Sourced,
      Distinct, Reachable, IsRegular, Elements, AllReached, AllDone, Linked;
    var top := s.stack[|s.stack| - 1];
    TopIsVisited(tree, entry, s, top);
    StackReached(tree, entry, s, top);
    PopPlaces(s);
    FinishOrdered(s.log, s.stack, s.done);
    DoneGrows(tree, entry, s.log, s.sensitive, s.done, top);
    LinkedPrefix(s.log, s.stack);
  }

  function WithSecrets(s: SearchState, paths: seq<Path>): SearchState {
    s.(sensitive := s.sensitive + Elements(paths))
  }

  lemma SameEdges(tree: Tree, s: SearchState, t: SearchState)
    requires EdgesKept(tree, s) && t == s.(sensitive := t.sensitive)
    ensures EdgesKept(tree, t)
  {
    hide Logged, OneFormEach, Sourced, Marked, CyclesOf;
  }

  lemma SecretsKept(tree: Tree, entry: Path, s: SearchState, source: Path, i: nat)
    requires Kept(tree, entry, s, s.stack) && source in s.visited
    requires Directives(tree, source).Success? && i < |Directives(tree, source).value|
    ensures Kept(tree, entry, WithSecrets(s, Secrets(tree, Directives(tree, source).value[i])), s.stack)
  {
    var t := WithSecrets(s, Secrets(tree, Directives(tree, source).value[i]));
    hide Placed, AllDone, AllReached, ValidPaths, IsRegular, EdgesKept, Ordered, Linked, Distinct, Secrets, Directives;
    forall path | path in t.sensitive ensures exists from :: from in s.visited && Hides(tree, from, path) {
      if path !in s.sensitive { assert Hides(tree, source, path); }
    }
    MoreSecrets(tree, s.log, s.sensitive, t.sensitive, s.done);
    SameEdges(tree, s, t);
  }

  lemma MoreSecrets(tree: Tree, log: seq<Key>, sensitive: set<Path>, more: set<Path>, done: seq<Path>)
    requires AllDone(tree, log, sensitive, done) && sensitive <= more
    ensures AllDone(tree, log, more, done)
  {
    hide Recorded, Calls, Secrets;
    forall path | path in done ensures FileDone(tree, log, more, path) {
      assert FileDone(tree, log, sensitive, path);
    }
  }

  lemma TooMany(tree: Tree, entry: Path, s: SearchState, key: Key)
    requires Kept(tree, entry, s, s.stack) && s.stack != [] && key.source == s.stack[|s.stack| - 1]
    requires key !in s.log && |s.log| == tree.limits.maxEdges && Asks(tree, Uncycled(key))
    requires key.status == Cycle ==> key.target in s.stack
    requires key.status == Resolved ==> key.target !in s.stack
    ensures Blamed(tree, entry, TooManyEdges)
  {
    TopIsVisited(tree, entry, s, key.source);
    forall path | path in s.visited ensures Reachable(tree, entry, path) { StackReached(tree, entry, s, path); }
    hide FilesKept, Logged, OneFormEach, Sourced, Marked, CyclesOf, Distinct, Asks, Ordered, Linked, Uncycled, Blamed,
      Reachable;
    FormsGrow(tree, s.log, s.stack, s.done, s.visited, key);
    ManyFrom(tree, entry, s.log + [key], s.visited);
  }

  /** Deeper than the limit: the stack and the next file are a walk that is too long. */
  lemma TooDeepWalk(tree: Tree, entry: Path, s: SearchState, path: Path)
    requires Kept(tree, entry, s, s.stack) || Kept(tree, entry, s, s.stack + [path])
    requires |s.stack| == tree.limits.maxDepth > 0 && Includes(tree, s.stack[|s.stack| - 1], path)
    ensures Blamed(tree, entry, TooDeep)
  {
    hide Ordered, AllDone, SecretsKnown, Logged, OneFormEach, Marked, CyclesOf, Distinct, Sourced, Includes, Placed,
      AllReached;
    assert Linked(s.log, s.stack) by {
      if Kept(tree, entry, s, s.stack + [path]) {
        forall i | 0 <= i < |s.stack| - 1 ensures Links(s.log, s.stack[i], s.stack[i + 1], Resolved) {
          assert Links(s.log, (s.stack + [path])[i], (s.stack + [path])[i + 1], Resolved);
        }
      }
    }
    StackIsWalk(tree, s.log, s.visited, s.stack);
    var walk := s.stack + [path];
    assert IsWalk(tree, walk);
    assert walk[0] == entry && |walk| == tree.limits.maxDepth + 1;
  }
}
