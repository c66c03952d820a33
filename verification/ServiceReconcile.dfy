// Reconciliation of all workspaces at start-up (internal/config/reconcile.go).
module ServiceReconcile {
  import opened Outcomes
  import opened WorkspaceDelete
  import opened WorkspaceDisk

  /** Tombstones first, then registered workspaces, then directories without a row. */
  function Phase(w: World): nat {
    if w.place.Tombstone? then 0 else if w.row.Some? then 1 else 2
  }

  /** Workspace i is reconciled before workspace b. */
  predicate Earlier(worlds: seq<World>, i: nat, b: nat)
    requires i < |worlds| && b < |worlds|
  {
    Phase(worlds[i]) < Phase(worlds[b]) || (Phase(worlds[i]) == Phase(worlds[b]) && i < b)
  }

  /** Everything before b is reconciled and everything behind it is as it was. */
  predicate ReachedOnly(worlds: seq<World>, after: seq<World>, b: nat) {
    && |after| == |worlds| && b < |worlds|
    && forall i | 0 <= i < |worlds| && i != b ::
         if Earlier(worlds, i, b) then !CannotLock(worlds[i]) && after[i] == Reconciled(worlds[i])
         else after[i] == worlds[i]
  }

  /** The first workspace whose lock cannot be taken ends the run with an error. */
  predicate StopsAt(worlds: seq<World>, after: seq<World>, b: nat) {
    ReachedOnly(worlds, after, b) && CannotLock(worlds[b]) && after[b] == worlds[b]
  }

  /** The process dies while workspace b is reconciled. */
  predicate DiesAt(worlds: seq<World>, after: seq<World>, b: nat, k: nat) {
    ReachedOnly(worlds, after, b) && !CannotLock(worlds[b]) && after[b] == Cut(worlds[b], ReconcileSteps(worlds[b]), k)
  }

  predicate Completes(worlds: seq<World>, after: seq<World>) {
    && |after| == |worlds|
    && forall i | 0 <= i < |worlds| :: !CannotLock(worlds[i]) && after[i] == Reconciled(worlds[i])
  }

  // ----- the three loops

  /** What the loops have done when the one of `phase` has come to index n. */
  predicate SweptTo(worlds: seq<World>, after: seq<World>, phase: nat, n: nat) {
    && |after| == |worlds|
    && forall i | 0 <= i < |worlds| ::
         if Phase(worlds[i]) < phase || (Phase(worlds[i]) == phase && i < n) then
           !CannotLock(worlds[i]) && after[i] == Reconciled(worlds[i])
         else after[i] == worlds[i]
  }

  /** One loop; it returns with the workspace whose lock it could not take. */
  method Sweep(worlds: seq<World>, before: seq<World>, phase: nat) returns (after: seq<World>, stuck: Option<nat>)
    requires SweptTo(worlds, before, phase, 0)
    ensures stuck.None? ==> SweptTo(worlds, after, phase + 1, 0)
    ensures stuck.Some? ==> StopsAt(worlds, after, stuck.value)
  {
    hide Reconciled, CannotLock;
    after := before;
    for i := 0 to |worlds|
      invariant SweptTo(worlds, after, phase, i)
    {
      if Phase(worlds[i]) == phase {
        if CannotLock(worlds[i]) {
          return after, Some(i);
        }
        after := after[i := Reconciled(worlds[i])];
      }
    }
    return after, None;
  }

  /** Completes exactly if every lock can be taken, and stops at the first one that cannot. */
  method ReconcileAll(worlds: seq<World>) returns (after: seq<World>, stuck: Option<nat>)
    ensures if stuck.None? then Completes(worlds, after) else StopsAt(worlds, after, stuck.value)
    ensures stuck.None? <==> forall w | w in worlds :: !CannotLock(w)
  {
    hide Reconciled, CannotLock;
    after := worlds;
    for phase := 0 to 3
      invariant SweptTo(worlds, after, phase, 0)
    {
      after, stuck := Sweep(worlds, after, phase);
      if stuck.Some? {
        assert worlds[stuck.value] in worlds;
        return;
      }
    }
    assert forall w :: Phase(w) < 3;
    stuck := None;
  }

  // ----- what a stuck tombstone does to all others

  /** What one start of the service can leave: it completes, stops, or dies. */
  ghost predicate Starts(worlds: seq<World>, after: seq<World>) {
    || Completes(worlds, after)
    || (exists b :: StopsAt(worlds, after, b))
    || exists b, k :: DiesAt(worlds, after, b, k)
  }

  ghost predicate History(runs: seq<seq<World>>) {
    runs != [] && forall n | 0 < n < |runs| :: Starts(runs[n - 1], runs[n])
  }

  predicate IsStuck(worlds: seq<World>, b: nat) {
    b < |worlds| && worlds[b].place.Tombstone? && CannotLock(worlds[b])
  }

  /** One start with a stuck tombstone: it does not complete, and reaches only other tombstones. */
  lemma StuckStart(worlds: seq<World>, after: seq<World>, b: nat)
    requires IsStuck(worlds, b) && Starts(worlds, after)
    ensures |after| == |worlds| && after[b] == worlds[b] && !Completes(worlds, after)
    ensures forall i | 0 <= i < |worlds| && !worlds[i].place.Tombstone? :: after[i] == worlds[i]
  {
    hide Reconciled, ReconcileSteps, Cut;
    if c :| StopsAt(worlds, after, c) {
      assert c == b || !Earlier(worlds, b, c);
    } else if c, k :| DiesAt(worlds, after, c, k) {
      assert !Earlier(worlds, b, c);
    }
  }

  /**
   * As long as a tombstone is there whose lock cannot be taken, no start completes,
   * whatever crashes; the tombstone stays as it is, and so does every workspace that is
   * not itself a tombstone, even one that would have been recovered.
   */
  lemma {:induction false} StuckForEver(runs: seq<seq<World>>, b: nat, n: nat)
    requires History(runs) && IsStuck(runs[0], b) && n < |runs|
    ensures |runs[n]| == |runs[0]| && runs[n][b] == runs[0][b]
    ensures forall i | 0 <= i < |runs[0]| && !runs[0][i].place.Tombstone? :: runs[n][i] == runs[0][i]
    ensures n > 0 ==> !Completes(runs[n - 1], runs[n])
    decreases n
  {
    hide Starts, Completes;
    if n > 0 {
      StuckForEver(runs, b, n - 1);
      StuckStart(runs[n - 1], runs[n], b);
    }
  }

  /**
   * How it comes to that: a deletion whose removal is cut between removing the directory
   * `control` and removing the workspace directory, and at no other point.
   */
  lemma DeletionGetsStuck(w0: World, operation: string, k: nat, worlds: seq<World>, b: nat)
    requires Deletable(w0) && k <= |DeleteSteps(w0, operation, false)| && b < |worlds|
    requires worlds[b] == Perform(w0, DeleteSteps(w0, operation, false)[..k])
    ensures IsStuck(worlds, b) <==> UNLOCKABLE <= k < |DeleteSteps(w0, operation, false)|
  {
    AmbiguousCutPoints(w0, operation, k);
  }
}
