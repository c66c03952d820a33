// Tombstone deletion (internal/config/service.go, reconcile.go).
module WorkspaceDelete {
  import C = CrashRecovery
  import F = FileMutation
  import L = LostJournal
  import opened Outcomes
  import opened WorkspaceDisk

  datatype Place = Original | Tombstone(operation: string) | Gone

  /** The deletion journal; the operation identifies its audit record. */
  datatype DeleteJournal = DeleteJournal(operation: string, phase: Phase, expectedRevision: nat, before: Manifest,
                                         after: Manifest)

  /** A workspace has one journal: that of a deletion, or of a file mutation that was interrupted. */
  datatype AnyJournal = Deletion(own: DeleteJournal) | Mutation(file: Journal)

  /** The control records beside the lifecycle state. */
  datatype Records = Records(manifest: Manifest, baseManifest: Option<Manifest>, recovery: Recovery)

  /** The audit record that the database writes together with the deletion of the row. */
  datatype Audit = Audit(operation: string, before: Manifest, name: string)

  /**
   * One workspace: its directory, wherever it is, its row and its deletion audit. The
   * journal, the lifecycle state and the records are files of the directory `control`,
   * which also holds the lock; `hasControl` says whether that directory exists.
   */
  datatype World = World(place: Place, base: Option<Tree>, draft: Option<Tree>, journal: Option<AnyJournal>,
                         control: Option<ControlState>, records: Option<Records>, hasControl: bool, name: string,
                         row: Option<Row>, audit: Option<Audit>)

  /** A registered workspace in its place with all its parts, as file mutations know it. */
  predicate Whole(w: World) {
    && w.place == Original && w.row.Some?
    && w.base.Some? && w.draft.Some? && w.hasControl && w.control.Some? && w.records.Some?
    && (w.journal.Some? ==> w.journal.value.Mutation?)
  }

  function AsDisk(w: World): Disk
    requires Whole(w)
  {
    Disk(w.draft.value, w.base.value, w.row.value,
         w.records.value.manifest, w.control.value, w.records.value.baseManifest,
         if w.journal.Some? then Some(w.journal.value.file) else None, w.records.value.recovery)
  }

  function WithDisk(w: World, d: Disk): (r: World)
    requires Whole(w)
    ensures Whole(r) && AsDisk(r) == d
  {
    w.(draft := Some(d.draft), base := Some(d.base), row := Some(d.row), control := Some(d.controlState),
       records := Some(Records(d.controlManifest, d.baseManifest, d.recovery)),
       journal := if d.journal.Some? then Some(Mutation(d.journal.value)) else None)
  }

  datatype DeleteStep =
    | PutJournal(journal: DeleteJournal)
    | DropJournal
    | Move(to: Place)
    | DeleteRow(expectedRevision: nat, record: Audit)
    | MarkRow(expectedRevision: nat, next: Row)
    | PutControl(state: ControlState)
    | ClearBase
    | ClearRecords
    | ClearState
    | RemoveControl
    | ClearDraft
    | RemoveDirectory
    | Repair(step: Step)

  /**
   * A move needs its target free; the row changes only at the expected revision; a file
   * is written only into a directory that exists, and only an empty directory is removed.
   * A repair is a step of file recovery.
   */
  function Apply(w: World, step: DeleteStep): World {
    match step
    case PutJournal(j) => if w.hasControl then w.(journal := Some(Deletion(j))) else w
    case DropJournal => w.(journal := None)
    case Move(to) => w.(place := to)
    case DeleteRow(expected, record) =>
      if w.row.Some? && w.row.value.revision == expected then w.(row := None, audit := Some(record)) else w
    case MarkRow(expected, next) => if w.row.Some? && w.row.value.revision == expected then w.(row := Some(next)) else w
    case PutControl(state) => if w.hasControl then w.(control := Some(state)) else w
    case ClearBase => w.(base := None)
    case ClearRecords => w.(records := None)
    case ClearState => w.(control := None)
    case RemoveControl =>
      if w.journal.None? && w.records.None? && w.control.None? then w.(hasControl := false) else w
    case ClearDraft => w.(draft := None)
    case RemoveDirectory => if w.base.None? && !w.hasControl && w.draft.None? then w.(place := Gone) else w
    case Repair(step) => if Whole(w) then WithDisk(w, ApplyStep(AsDisk(w), step)) else w
  }

  function Perform(w: World, steps: seq<DeleteStep>): World
    decreases |steps|
  {
    if steps == [] then w else Perform(Apply(w, steps[0]), steps[1..])
  }

  // ----- the deletion

  /** What may be deleted: any workspace but a published one, also with a journal that is still waiting. */
  predicate Deletable(w: World) {
    Whole(w.(journal := None)) && w.row.value.state != Published && w.audit.None?
  }

  function JournalAt(w: World, operation: string, phase: Phase): DeleteJournal
    requires w.row.Some?
  {
    DeleteJournal(operation, phase, w.row.value.revision, w.row.value.draftDigest, w.row.value.draftDigest)
  }

  function AuditOf(w: World, operation: string): Audit
    requires w.row.Some?
  {
    Audit(operation, w.row.value.draftDigest, w.name)
  }

  /**
   * Clearing goes through the directory in name order: base, control, draft, and so
   * through control itself: the journal before the manifest, the recovery evidence and
   * the lifecycle state.
   */
  function RemovalSteps(): seq<DeleteStep> {
    [ClearBase, DropJournal] + LastSteps()
  }

  /** What is left to do once the journal is gone. */
  function LastSteps(): seq<DeleteStep> {
    [ClearRecords, ClearState, RemoveControl, ClearDraft, RemoveDirectory]
  }

  function BeforeDatabase(w: World, operation: string): seq<DeleteStep>
    requires w.row.Some?
  {
    [PutJournal(JournalAt(w, operation, Prepared)), Move(Tombstone(operation)),
     PutJournal(JournalAt(w, operation, FilesApplied))]
  }

  function AfterDatabase(w: World, operation: string): seq<DeleteStep>
    requires w.row.Some?
  {
    [PutJournal(JournalAt(w, operation, SqlCommitted)), PutJournal(JournalAt(w, operation, ControlCommitted))]
    + RemovalSteps()
  }

  /** The steps of a deletion; when the database refuses, the directory moves back. */
  function DeleteSteps(w: World, operation: string, refused: bool): seq<DeleteStep>
    requires w.row.Some?
  {
    BeforeDatabase(w, operation)
    + if refused then [Move(Original), DropJournal]
      else [DeleteRow(w.row.value.revision, AuditOf(w, operation))] + AfterDatabase(w, operation)
  }

  /** The number of steps after which the deletion of the row is durable. */
  const DURABLE := 4

  /** The numbers of steps after which the journal and the directory `control` are gone. */
  const UNJOURNALLED := 8
  const UNLOCKABLE := 11

  // ----- reconciliation

  const TOMBSTONE_MISMATCH := "DELETE_TOMBSTONE_MISMATCH"
  const WORKSPACE_MISSING := "WORKSPACE_MISSING"
  const WORKSPACE_INVALID := "WORKSPACE_INVALID"
  const DATABASE_MISSING := "DATABASE_MISSING"

  predicate OwnJournal(w: World) {
    w.journal.Some? && w.journal.value.Deletion?
  }

  function Repairs(steps: seq<Step>): (repairs: seq<DeleteStep>)
    ensures |repairs| == |steps|
  {
    seq(|steps|, i requires 0 <= i < |steps| => Repair(steps[i]))
  }

  /** Whether the audit records exactly this deletion; a different record is a conflict. */
  function DeleteCommitted(w: World, j: DeleteJournal): Option<bool> {
    match w.audit
    case None => Some(false)
    case Some(a) =>
      if a.operation != j.operation then Some(false)
      else if a.before == j.before && (w.row.Some? ==> a.name == w.name) then Some(true)
      else None
  }

  function MarkAttention(w: World, reason: string, withControl: bool): seq<DeleteStep>
    requires w.row.Some?
  {
    var row := w.row.value;
    if row.state == NeedsAttention then []
    else
      var next := row.(state := NeedsAttention, reason := reason, revision := row.revision + 1);
      [MarkRow(row.revision, next)] + if withControl then [PutControl(ControlOf(next))] else []
  }

  function MarkOrphan(w: World, reason: string): seq<DeleteStep> {
    match w.control
    case Some(c) =>
      if c.state == NeedsAttention && c.reason == reason then []
      else [PutControl(ControlState(NeedsAttention, reason, c.revision + 1))]
    case None => [PutControl(ControlState(NeedsAttention, reason, 1))]
  }

  /** A directory without a row is marked anew every time, unless its state cannot be written. */
  function MarkUnregistered(w: World): seq<DeleteStep> {
    if !w.hasControl then []
    else
      var revision := if w.control.Some? then w.control.value.revision + 1 else 1;
      [PutControl(ControlState(NeedsAttention, DATABASE_MISSING, revision))]
  }

  predicate PastDatabase(p: Phase) {
    p == SqlCommitted || p == ControlCommitted
  }

  /**
   * The lock file lies in the directory `control`. Without that directory the lock of a
   * tombstone or of a registered workspace cannot be taken, and reconciliation fails
   * before it does anything.
   */
  predicate CannotLock(w: World) {
    w.place != Gone && !w.hasControl && (w.place.Tombstone? || w.row.Some?)
  }

  function TombstoneSteps(w: World, operation: string): seq<DeleteStep> {
    if !OwnJournal(w) then
      if w.row.Some? then MarkAttention(w, TOMBSTONE_MISMATCH, false) else MarkOrphan(w, TOMBSTONE_MISMATCH)
    else
      var j := w.journal.value.own;
      if j.operation != operation || DeleteCommitted(w, j).None? then
        if w.row.Some? then MarkAttention(w, TOMBSTONE_MISMATCH, false) else MarkOrphan(w, TOMBSTONE_MISMATCH)
      else if w.row.Some? then
        if DeleteCommitted(w, j).value || PastDatabase(j.phase)
          || j.expectedRevision != w.row.value.revision || j.before != w.row.value.draftDigest
        then MarkAttention(w, TOMBSTONE_MISMATCH, false)
        else [Move(Original), DropJournal]
      else if !DeleteCommitted(w, j).value then MarkOrphan(w, TOMBSTONE_MISMATCH)
      else RemovalSteps()
  }

  /** Without a deletion's journal the workspace is recovered as after a file mutation. */
  function OriginalSteps(w: World): seq<DeleteStep> {
    match w.row
    case None => MarkUnregistered(w)
    case Some(row) =>
      if OwnJournal(w) then
        var j := w.journal.value.own;
        if j.expectedRevision != row.revision || j.before != row.draftDigest || j.after != row.draftDigest
          || DeleteCommitted(w, j) != Some(false) || PastDatabase(j.phase)
        then MarkAttention(w, TOMBSTONE_MISMATCH, true)
        else [DropJournal]
      else if Whole(w) then Repairs(F.ReconcileSteps(AsDisk(w)))
      else if w.journal.None? && row.state != Ready then []
      else MarkAttention(w, WORKSPACE_INVALID, true)
  }

  function ReconcileSteps(w: World): seq<DeleteStep> {
    if CannotLock(w) then []
    else
      match w.place
      case Tombstone(operation) => TombstoneSteps(w, operation)
      case Original => OriginalSteps(w)
      case Gone => if w.row.Some? then MarkAttention(w, WORKSPACE_MISSING, false) else []
  }

  function Reconciled(w: World): World {
    Perform(w, ReconcileSteps(w))
  }

  function Cut(w: World, steps: seq<DeleteStep>, k: nat): World {
    Perform(w, if k <= |steps| then steps[..k] else steps)
  }

  /** One crashing reconciliation after the other. */
  function Crashes(w: World, cuts: seq<nat>): World
    decreases |cuts|
  {
    if cuts == [] then w else Crashes(Cut(w, ReconcileSteps(w), cuts[0]), cuts[1..])
  }

  // ----- the states of a run

  /** The deletion has begun: the directory is at either place, with a journal of this deletion. */
  predicate Begun(w0: World, operation: string, w: World)
    requires Deletable(w0)
  {
    && w == w0.(place := w.place, journal := w.journal)
    && (w.journal == Some(Deletion(JournalAt(w0, operation, Prepared)))
        || w.journal == Some(Deletion(JournalAt(w0, operation, FilesApplied))))
    && (w.place == Original || w.place == Tombstone(operation))
  }

  /** What undoing the deletion leaves; an earlier journal is not given back. */
  function Restored(w0: World): World {
    w0.(journal := None)
  }

  /** The deletion is undone, and reconciliation may have looked at the workspace since. */
  predicate Undone(w0: World, w: World)
    requires Deletable(w0)
  {
    Whole(w) && w == WithDisk(Restored(w0), AsDisk(w)) && L.Left(AsDisk(Restored(w0)), AsDisk(w))
  }

  /** The row is gone and audited: a tombstone with its journal, or nothing at all. */
  predicate Deleted(w0: World, operation: string, w: World)
    requires Deletable(w0)
  {
    && w.row.None? && w.audit == Some(AuditOf(w0, operation))
    && (w.place == Gone || (w.place == Tombstone(operation) && w.hasControl
        && exists phase :: w.journal == Some(Deletion(JournalAt(w0, operation, phase)))))
  }

  /** The removal was cut after the journal went: nothing tells any more whose tombstone it is. */
  predicate Ambiguous(w0: World, operation: string, w: World)
    requires Deletable(w0)
  {
    && w.row.None? && w.audit == Some(AuditOf(w0, operation))
    && w.place == Tombstone(operation) && w.journal.None?
  }

  ghost predicate InDeletion(w0: World, operation: string, durable: bool, w: World)
    requires Deletable(w0)
  {
    if durable then Deleted(w0, operation, w) || Ambiguous(w0, operation, w)
    else Begun(w0, operation, w) || Undone(w0, w)
  }

  lemma {:induction false} PerformOne(w: World, a: DeleteStep)
    ensures Perform(w, [a]) == Apply(w, a)
  {
    assert [a][1..] == [];
  }

  lemma {:induction false} PerformConcat(w: World, a: seq<DeleteStep>, b: seq<DeleteStep>)
    ensures Perform(w, a + b) == Perform(Perform(w, a), b)
    decreases |a|
  {
    hide Apply;
    if a == [] {
      assert a + b == b;
    } else {
      assert (a + b)[1..] == a[1..] + b;
      PerformConcat(Apply(w, a[0]), a[1..], b);
    }
  }

  /** Every prefix of the steps leaves the world in the run. */
  ghost predicate Stays(w0: World, operation: string, durable: bool, w: World, steps: seq<DeleteStep>)
    requires Deletable(w0)
    decreases |steps|
  {
    && InDeletion(w0, operation, durable, w)
    && (steps == [] || Stays(w0, operation, durable, Apply(w, steps[0]), steps[1..]))
  }

  lemma {:induction false} StaysAtPrefix(w0: World, operation: string, durable: bool, w: World,
                                         steps: seq<DeleteStep>, k: nat)
    requires Deletable(w0) && Stays(w0, operation, durable, w, steps) && k <= |steps|
    ensures InDeletion(w0, operation, durable, Perform(w, steps[..k]))
    decreases k
  {
    hide Apply, InDeletion;
    if k > 0 {
      assert steps[..k][1..] == steps[1..][..k - 1];
      StaysAtPrefix(w0, operation, durable, Apply(w, steps[0]), steps[1..], k - 1);
    }
  }

  lemma {:induction false} StaysCons(w0: World, operation: string, durable: bool, w: World, step: DeleteStep,
                                     rest: seq<DeleteStep>)
    requires Deletable(w0) && InDeletion(w0, operation, durable, w)
    requires Stays(w0, operation, durable, Apply(w, step), rest)
    ensures Stays(w0, operation, durable, w, [step] + rest)
    ensures Perform(w, [step] + rest) == Perform(Apply(w, step), rest)
  {
    hide Apply, InDeletion;
    assert ([step] + rest)[1..] == rest;
  }

  lemma {:induction false} StaysNil(w0: World, operation: string, durable: bool, w: World)
    requires Deletable(w0) && InDeletion(w0, operation, durable, w)
    ensures Stays(w0, operation, durable, w, []) && Perform(w, []) == w
  {
  }

  predicate IsLast(step: DeleteStep) {
    step.ClearRecords? || step.ClearState? || step.RemoveControl? || step.ClearDraft? || step.RemoveDirectory?
  }

  /** Without a journal no step of the removal leaves the run. */
  lemma {:induction false} LastStay(w0: World, operation: string, w: World, steps: seq<DeleteStep>)
    requires Deletable(w0) && forall i | 0 <= i < |steps| :: IsLast(steps[i])
    requires Ambiguous(w0, operation, w) || (Deleted(w0, operation, w) && w.place == Gone)
    ensures Stays(w0, operation, true, w, steps)
    decreases |steps|
  {
    if steps != [] {
      assert IsLast(steps[0]);
      LastStay(w0, operation, Apply(w, steps[0]), steps[1..]);
    }
  }

  /** The world after the first n of the last steps. */
  function AfterLast(w: World, n: nat): World {
    w.(records := if n >= 1 then None else w.records, control := if n >= 2 then None else w.control,
       hasControl := n < 3, draft := if n >= 4 then None else w.draft, place := if n >= 5 then Gone else w.place)
  }

  lemma {:induction false} LastAre(w: World, n: nat)
    requires w.place != Gone && w.base.None? && w.journal.None? && w.hasControl && n <= |LastSteps()|
    ensures Perform(w, LastSteps()[..n]) == AfterLast(w, n)
  {
    if n > 0 {
      var steps := LastSteps();
      LastAre(w, n - 1);
      assert steps[..n] == steps[..n - 1] + [steps[n - 1]];
      PerformConcat(w, steps[..n - 1], [steps[n - 1]]);
      PerformOne(Perform(w, steps[..n - 1]), steps[n - 1]);
    }
  }

  /** Which parts a removal that is cut leaves: what decides is the journal, the directory `control` and the whole. */
  lemma {:induction false} RemovalCut(w: World, n: nat)
    requires w.place != Gone && w.journal.Some? && w.hasControl && n <= |RemovalSteps()|
    ensures var t := Perform(w, RemovalSteps()[..n]);
      && (t.journal.None? <==> 2 <= n) && (t.hasControl <==> n < 5) && (t.place == Gone <==> n == 7)
      && t.row == w.row && (t.place == Gone || t.place == w.place)
  {
    var first, last := [ClearBase, DropJournal], LastSteps();
    PerformOne(w, ClearBase);
    if n <= 1 {
      assert RemovalSteps()[..n] == [ClearBase][..n];
    } else {
      assert first == [ClearBase] + [DropJournal];
      PerformConcat(w, [ClearBase], [DropJournal]);
      PerformOne(Apply(w, ClearBase), DropJournal);
      assert RemovalSteps()[..n] == first + last[..n - 2];
      PerformConcat(w, first, last[..n - 2]);
      LastAre(Perform(w, first), n - 2);
    }
  }

  /** Removing a tombstone never leaves the run and ends with nothing. */
  lemma {:induction false} RemovalStays(w0: World, operation: string, w: World)
    requires Deletable(w0) && Deleted(w0, operation, w) && w.place != Gone
    ensures Stays(w0, operation, true, w, RemovalSteps())
    ensures Perform(w, RemovalSteps()).place == Gone && Perform(w, RemovalSteps()).row.None?
  {
    var w1 := Apply(w, ClearBase);
    var last := LastSteps();
    RemovalCut(w, 7);
    assert RemovalSteps()[..7] == RemovalSteps();
    LastStay(w0, operation, Apply(w1, DropJournal), last);
    assert w1.journal == w.journal;
    StaysCons(w0, operation, true, w1, DropJournal, last);
    StaysCons(w0, operation, true, w, ClearBase, [DropJournal] + last);
    hide Stays, Perform;
    assert [ClearBase] + ([DropJournal] + last) == RemovalSteps();
  }

  /**
   * A tombstone without journal cannot be resolved. It is marked as long as its lock can
   * be taken; otherwise nothing about it ever changes.
   */
  lemma {:induction false} AmbiguousStays(w0: World, operation: string, w: World)
    requires Deletable(w0) && Ambiguous(w0, operation, w)
    ensures Stays(w0, operation, true, w, ReconcileSteps(w)) && Ambiguous(w0, operation, Reconciled(w))
    ensures CannotLock(w) <==> !w.hasControl
    ensures |ReconcileSteps(w)| <= 1 && Reconciled(w).hasControl == w.hasControl
    ensures if CannotLock(w) then Reconciled(w) == w
            else Reconciled(w).control.Some? && Reconciled(w).control.value.state == NeedsAttention
  {
    var steps := ReconcileSteps(w);
    if steps == [] {
      StaysNil(w0, operation, true, w);
    } else {
      StaysNil(w0, operation, true, Apply(w, steps[0]));
      StaysCons(w0, operation, true, w, steps[0], []);
      assert steps == [steps[0]] + [];
    }
  }

  /** A reconciliation that undoes the deletion may itself be cut anywhere. */
  lemma {:induction false} BegunIsUndone(w0: World, operation: string, w: World)
    requires Deletable(w0) && Begun(w0, operation, w)
    ensures Stays(w0, operation, false, w, ReconcileSteps(w)) && Reconciled(w) == Restored(w0)
  {
    var steps := ReconcileSteps(w);
    var back := w.(place := Original);
    RestoredIsUndone(w0);
    StaysNil(w0, operation, false, Restored(w0));
    StaysCons(w0, operation, false, back, DropJournal, []);
    assert [DropJournal] + [] == [DropJournal];
    if w.place != Original {
      StaysCons(w0, operation, false, w, Move(Original), [DropJournal]);
      assert [Move(Original)] + [DropJournal] == steps;
    }
  }

  lemma RestoredIsUndone(w0: World)
    requires Deletable(w0)
    ensures Undone(w0, Restored(w0))
  {
  }

  lemma {:induction false} PerformRepairs(w: World, steps: seq<Step>)
    requires Whole(w)
    ensures Perform(w, Repairs(steps)) == WithDisk(w, Exec(AsDisk(w), steps))
    decreases |steps|
  {
    hide ApplyStep;
    if steps != [] {
      var next := WithDisk(w, ApplyStep(AsDisk(w), steps[0]));
      assert Repairs(steps)[1..] == Repairs(steps[1..]);
      PerformRepairs(next, steps[1..]);
    }
  }

  /** Once the deletion is undone, reconciliation is that of a workspace without a journal. */
  lemma {:induction false} UndoneStays(w0: World, w: World, k: nat)
    requires Deletable(w0) && Undone(w0, w)
    ensures Undone(w0, Cut(w, ReconcileSteps(w), k))
    ensures Reconciled(w) == WithDisk(Restored(w0), C.Reconciled(AsDisk(w))) && Undone(w0, Reconciled(w))
  {
    var d := AsDisk(w);
    var steps := F.ReconcileSteps(d);
    var n := if k <= |steps| then k else |steps|;
    assert ReconcileSteps(w) == Repairs(steps);
    L.RestIsLeft(AsDisk(Restored(w0)), d, n);
    hide F.ReconcileSteps, L.Left, C.Reconciled;
    assert Repairs(steps)[..n] == Repairs(steps[..n]) && steps[..|steps|] == steps;
    PerformRepairs(w, steps[..n]);
    PerformRepairs(w, steps);
  }

  /** One reconciliation of any world of the run, cut anywhere. */
  lemma {:induction false} ReconcileCut(w0: World, operation: string, durable: bool, w: World, k: nat)
    requires Deletable(w0) && InDeletion(w0, operation, durable, w)
    ensures InDeletion(w0, operation, durable, Cut(w, ReconcileSteps(w), k))
  {
    if !durable && Undone(w0, w) {
      UndoneStays(w0, w, k);
    } else {
      var steps := ReconcileSteps(w);
      if durable { DeletedStays(w0, operation, w); } else { BegunIsUndone(w0, operation, w); }
      hide InDeletion, ReconcileSteps, Deletable;
      assert steps[..|steps|] == steps;
      StaysAtPrefix(w0, operation, durable, w, steps, if k <= |steps| then k else |steps|);
    }
  }

  /** What a reconciliation does once the deletion of the row is durable. */
  lemma {:induction false} DeletedStays(w0: World, operation: string, w: World)
    requires Deletable(w0) && InDeletion(w0, operation, true, w)
    ensures Stays(w0, operation, true, w, ReconcileSteps(w))
    ensures Ambiguous(w0, operation, w) ==> Ambiguous(w0, operation, Reconciled(w))
    ensures !Ambiguous(w0, operation, w) ==> Reconciled(w).place == Gone && Reconciled(w).row.None?
  {
    if Ambiguous(w0, operation, w) {
      AmbiguousStays(w0, operation, w);
    } else if w.place == Gone {
      StaysNil(w0, operation, true, w);
    } else {
      assert ReconcileSteps(w) == RemovalSteps();
      RemovalStays(w0, operation, w);
    }
  }

  lemma {:induction false} CrashesStay(w0: World, operation: string, durable: bool, w: World, cuts: seq<nat>)
    requires Deletable(w0) && InDeletion(w0, operation, durable, w)
    ensures InDeletion(w0, operation, durable, Crashes(w, cuts))
    decreases |cuts|
  {
    hide InDeletion, ReconcileSteps, Deletable;
    if cuts != [] {
      ReconcileCut(w0, operation, durable, w, cuts[0]);
      CrashesStay(w0, operation, durable, Cut(w, ReconcileSteps(w), cuts[0]), cuts[1..]);
    }
  }

  /** Up to the database a deletion changes only place and journal. */
  lemma {:induction false} BeforeStays(w0: World, operation: string)
    requires Deletable(w0)
    ensures var w1 := Apply(w0, PutJournal(JournalAt(w0, operation, Prepared)));
      && Stays(w0, operation, false, w1, BeforeDatabase(w0, operation)[1..])
      && Perform(w1, BeforeDatabase(w0, operation)[1..]) == Tombstoned(w0, operation)
    ensures Begun(w0, operation, Tombstoned(w0, operation))
  {
    var b, c := Move(Tombstone(operation)), PutJournal(JournalAt(w0, operation, FilesApplied));
    var w1 := Apply(w0, PutJournal(JournalAt(w0, operation, Prepared)));
    var w2 := Apply(w1, b);
    var w3 := Apply(w2, c);
    StaysNil(w0, operation, false, w3);
    StaysCons(w0, operation, false, w2, c, []);
    StaysCons(w0, operation, false, w1, b, [c]);
    hide Stays, Perform;
    assert [c] + [] == [c] && BeforeDatabase(w0, operation)[1..] == [b] + [c];
  }

  function Tombstoned(w0: World, operation: string): World
    requires Deletable(w0)
  {
    w0.(place := Tombstone(operation), journal := Some(Deletion(JournalAt(w0, operation, FilesApplied))))
  }

  /** After the database it removes what is left. */
  lemma {:induction false} AfterStays(w0: World, operation: string, w: World)
    requires Deletable(w0) && Deleted(w0, operation, w) && w.place != Gone
    ensures Stays(w0, operation, true, w, AfterDatabase(w0, operation))
    ensures Perform(w, AfterDatabase(w0, operation)).place == Gone
  {
    var a := PutJournal(JournalAt(w0, operation, SqlCommitted));
    var b := PutJournal(JournalAt(w0, operation, ControlCommitted));
    var w1 := Apply(w, a);
    var w2 := Apply(w1, b);
    RemovalStays(w0, operation, w2);
    assert Deleted(w0, operation, w1);
    StaysCons(w0, operation, true, w1, b, RemovalSteps());
    StaysCons(w0, operation, true, w, a, [b] + RemovalSteps());
    hide Stays, Perform;
    assert [a] + ([b] + RemovalSteps()) == AfterDatabase(w0, operation);
  }

  /** Wherever a deletion is cut behind its first step, its world is one of the run. */
  lemma {:induction false} DeletionStays(w0: World, operation: string, refused: bool, k: nat)
    requires Deletable(w0) && k <= |DeleteSteps(w0, operation, refused)| && (k > 0 || w0.journal.None?)
    ensures InDeletion(w0, operation, !refused && k >= DURABLE, Perform(w0, DeleteSteps(w0, operation, refused)[..k]))
  {
    var before, steps := BeforeDatabase(w0, operation), DeleteSteps(w0, operation, refused);
    BeforeStays(w0, operation);
    PerformBefore(w0, operation);
    if k == 0 {
      RestoredIsUndone(w0);
      assert steps[..0] == [];
    } else if k <= 3 {
      assert steps[..k] == [before[0]] + before[1..][..k - 1];
      PerformConcat(w0, [before[0]], before[1..][..k - 1]);
      PerformOne(w0, before[0]);
      StaysAtPrefix(w0, operation, false, Apply(w0, before[0]), before[1..], k - 1);
    } else if refused {
      var undo, w3 := [Move(Original), DropJournal], Tombstoned(w0, operation);
      BegunIsUndone(w0, operation, w3);
      assert ReconcileSteps(w3) == undo;
      assert steps[..k] == before + undo[..k - 3];
      PerformConcat(w0, before, undo[..k - 3]);
      StaysAtPrefix(w0, operation, false, w3, undo, k - 3);
    } else {
      var after := AfterDatabase(w0, operation);
      DeletedCut(w0, operation, k);
      AfterStays(w0, operation, RowGone(w0, operation));
      StaysAtPrefix(w0, operation, true, RowGone(w0, operation), after, k - 4);
    }
  }

  lemma {:induction false} PerformBefore(w0: World, operation: string)
    requires Deletable(w0)
    ensures Perform(w0, BeforeDatabase(w0, operation)) == Tombstoned(w0, operation)
  {
    var before := BeforeDatabase(w0, operation);
    BeforeStays(w0, operation);
    hide Apply;
    assert before == [before[0]] + before[1..];
    PerformConcat(w0, [before[0]], before[1..]);
    PerformOne(w0, before[0]);
  }

  /** The tombstone right after the deletion of its row. */
  function RowGone(w0: World, operation: string): World
    requires Deletable(w0)
  {
    Tombstoned(w0, operation).(row := None, audit := Some(AuditOf(w0, operation)))
  }

  lemma {:induction false} DeletedCut(w0: World, operation: string, k: nat)
    requires Deletable(w0) && DURABLE <= k <= |DeleteSteps(w0, operation, false)|
    ensures Deleted(w0, operation, RowGone(w0, operation))
    ensures Perform(w0, DeleteSteps(w0, operation, false)[..k])
            == Perform(RowGone(w0, operation), AfterDatabase(w0, operation)[..k - DURABLE])
  {
    var before, after := BeforeDatabase(w0, operation), AfterDatabase(w0, operation);
    var remove := DeleteRow(w0.row.value.revision, AuditOf(w0, operation));
    PerformBefore(w0, operation);
    assert DeleteSteps(w0, operation, false)[..k] == before + ([remove] + after[..k - 4]);
    PerformConcat(w0, before, [remove] + after[..k - 4]);
    PerformConcat(Tombstoned(w0, operation), [remove], after[..k - 4]);
    PerformOne(Tombstoned(w0, operation), remove);
    assert RowGone(w0, operation).journal == Some(Deletion(JournalAt(w0, operation, FilesApplied)));
  }

  /**
   * All or nothing: wherever a deletion is cut and however often its reconciliation is
   * cut, a final reconciliation gives the workspace back, without any journal, if the
   * deletion of its row was not durable; otherwise the tombstone is gone, unless a
   * removal was cut after the journal went. Such a tombstone stays, and it is marked for
   * attention exactly if it still has the directory its lock is in.
   */
  lemma {:induction false} DeletionIsAtomic(w0: World, operation: string, refused: bool, k: nat, cuts: seq<nat>)
    requires Deletable(w0) && k <= |DeleteSteps(w0, operation, refused)| && (k > 0 || w0.journal.None?)
    ensures var w := Crashes(Perform(w0, DeleteSteps(w0, operation, refused)[..k]), cuts);
      var r := Reconciled(w);
      if refused || k < DURABLE then IsGivenBack(w0, w, r)
      else if w.place == Gone || w.journal.Some? then r.place == Gone && r.row.None?
      else if CannotLock(w) then r == w
      else r.place == w.place && r.control.Some? && r.control.value.state == NeedsAttention
  {
    var durable, d := !refused && k >= DURABLE, Perform(w0, DeleteSteps(w0, operation, refused)[..k]);
    DeletionStays(w0, operation, refused, k);
    CrashesStay(w0, operation, durable, d, cuts);
    var w := Crashes(d, cuts);
    hide DeleteSteps, ReconcileSteps, Crashes;
    if durable {
      DeletedStays(w0, operation, w);
      if Ambiguous(w0, operation, w) { AmbiguousStays(w0, operation, w); }
    } else {
      UndoneEnds(w0, operation, w);
    }
  }

  /**
   * The reconciliation that undoes the deletion leaves the workspace as it was without
   * any journal. A later one treats it as any workspace without a journal: trees and
   * manifests stay, and it is marked exactly if it does not pass the checks.
   */
  predicate IsGivenBack(w0: World, w: World, r: World)
    requires Deletable(w0)
  {
    var d := AsDisk(Restored(w0));
    && Undone(w0, r)
    && (w.journal.Some? ==> r == Restored(w0))
    && (w.journal.None? ==>
          if L.Verified(d) then r == WithDisk(Restored(w0), L.Checked(d)) else r.row.value.state == NeedsAttention)
  }

  lemma {:induction false} UndoneEnds(w0: World, operation: string, w: World)
    requires Deletable(w0) && InDeletion(w0, operation, false, w)
    ensures IsGivenBack(w0, w, Reconciled(w))
  {
    if Undone(w0, w) {
      UndoneStays(w0, w, 0);
      L.RestIsLeft(AsDisk(Restored(w0)), AsDisk(w), 0);
    } else {
      BegunIsUndone(w0, operation, w);
      RestoredIsUndone(w0);
    }
  }

  /**
   * A deletion that is not durable gives the workspace back exactly if and only if it
   * had no journal before and, when reconciliation looks at it once more, has nothing
   * for it to do.
   */
  lemma {:induction false} GivenBackExactly(w0: World, operation: string, refused: bool, k: nat, cuts: seq<nat>)
    requires Deletable(w0) && 0 < k <= |DeleteSteps(w0, operation, refused)| && (refused || k < DURABLE)
    ensures var w := Crashes(Perform(w0, DeleteSteps(w0, operation, refused)[..k]), cuts);
      Reconciled(w) == w0 <==> w0.journal.None? && (w.journal.Some? || L.Quiet(AsDisk(w0)))
  {
    var d := Perform(w0, DeleteSteps(w0, operation, refused)[..k]);
    DeletionStays(w0, operation, refused, k);
    CrashesStay(w0, operation, false, d, cuts);
    var w := Crashes(d, cuts);
    hide DeleteSteps, ReconcileSteps, Crashes;
    UndoneEnds(w0, operation, w);
    if Undone(w0, w) {
      L.QuietIsExact(AsDisk(Restored(w0)), AsDisk(w));
      UndoneStays(w0, w, 0);
    }
  }

  /**
   * Deleting a workspace whose last mutation was interrupted, and failing, costs the
   * mutation its journal. Where reconciliation would have recovered it, the next one
   * does so only if the files already agree with the outcome.
   */
  lemma {:induction false} DeletionStrandsMutation(w0: World, operation: string, refused: bool, k: nat,
                                                   cuts: seq<nat>, d0: Disk, p: F.Proposal, durable: bool)
    requires Deletable(w0) && Whole(w0) && C.Started(d0, p) && C.InRun(d0, p, C.Mode(durable, false), AsDisk(w0))
    requires 0 < k <= |DeleteSteps(w0, operation, refused)| && (refused || k < DURABLE)
    requires Crashes(Perform(w0, DeleteSteps(w0, operation, refused)[..k]), cuts).journal.None?
    ensures var r := Reconciled(Crashes(Perform(w0, DeleteSteps(w0, operation, refused)[..k]), cuts));
      var outcome, d := if durable then C.Finished(d0, p) else d0, AsDisk(w0);
      && C.Reconciled(d) == outcome && Whole(r)
      && (AsDisk(r) == outcome <==> if durable then d.controlManifest == C.After(d0, p) && d.baseManifest.Some?
                                    else d.draft == C.Before(d0))
      && (AsDisk(r) == outcome || r.row.value.state == NeedsAttention)
  {
    DeletionIsAtomic(w0, operation, refused, k, cuts);
    var e := AsDisk(w0).(journal := None);
    assert AsDisk(Restored(w0)) == e;
    hide C.Reconciled, C.InRun, C.Started, C.Finished, C.After, C.Before, L.Verified, L.Checked, Crashes,
      ReconcileSteps, DeleteSteps;
    L.JournalLost(d0, p, durable, AsDisk(w0));
    L.RestIsLeft(e, e, 0);
    C.OutcomeIsReady(d0, p);
  }

  /**
   * Exactly the cuts inside the removal, after the journal went and before the directory
   * does, cannot be resolved; from the removal of the directory `control` on not even the
   * lock can be taken.
   */
  lemma {:induction false} AmbiguousCutPoints(w0: World, operation: string, k: nat)
    requires Deletable(w0) && k <= |DeleteSteps(w0, operation, false)|
    ensures var w := Perform(w0, DeleteSteps(w0, operation, false)[..k]);
      && (Ambiguous(w0, operation, w) <==> UNJOURNALLED <= k < |DeleteSteps(w0, operation, false)|)
      && (CannotLock(w) <==> UNLOCKABLE <= k < |DeleteSteps(w0, operation, false)|)
  {
    if k == 0 {
      assert DeleteSteps(w0, operation, false)[..0] == [];
    } else if k < DURABLE {
      BegunCut(w0, operation, k);
    } else {
      DeletionStays(w0, operation, false, k);
      DeletedCut(w0, operation, k);
      AfterCut(w0, operation, RowGone(w0, operation), k - DURABLE);
    }
  }

  lemma {:induction false} BegunCut(w0: World, operation: string, k: nat)
    requires Deletable(w0) && 0 < k < DURABLE
    ensures var w := Perform(w0, DeleteSteps(w0, operation, false)[..k]); w.row.Some? && w.hasControl
  {
    DeletionStays(w0, operation, false, k);
  }

  lemma {:induction false} AfterCut(w0: World, operation: string, w: World, n: nat)
    requires Deletable(w0) && Deleted(w0, operation, w) && w.place == Tombstone(operation)
    requires n <= |AfterDatabase(w0, operation)|
    ensures var t := Perform(w, AfterDatabase(w0, operation)[..n]);
      && (t.place != Gone && t.journal.None? <==> 4 <= n < |AfterDatabase(w0, operation)|)
      && (CannotLock(t) <==> 7 <= n < |AfterDatabase(w0, operation)|)
  {
    var a := PutJournal(JournalAt(w0, operation, SqlCommitted));
    var b := PutJournal(JournalAt(w0, operation, ControlCommitted));
    var after, removal := AfterDatabase(w0, operation), RemovalSteps();
    if n <= 1 {
      assert after[..n] == [a][..n];
      if n == 1 { PerformOne(w, a); }
    } else {
      assert after[..n] == [a] + ([b] + removal[..n - 2]);
      PerformConcat(w, [a], [b] + removal[..n - 2]);
      PerformOne(w, a);
      PerformConcat(Apply(w, a), [b], removal[..n - 2]);
      PerformOne(Apply(w, a), b);
      RemovalCut(Apply(Apply(w, a), b), n - 2);
    }
  }

  /** A reconciliation that removes the tombstone, cut after the journal went, or even the directory of its lock. */
  predicate TornCut(w: World, c: nat) {
    w.row.None? && w.place != Gone && w.journal.Some? && 2 <= c < |RemovalSteps()|
  }

  predicate StuckCut(w: World, c: nat) {
    TornCut(w, c) && 5 <= c
  }

  /** One of the cuts, made at the world that the earlier ones leave, is such a cut. */
  predicate SomeCutTorn(w: World, cuts: seq<nat>)
    decreases |cuts|
  {
    cuts != [] && (TornCut(w, cuts[0]) || SomeCutTorn(Cut(w, ReconcileSteps(w), cuts[0]), cuts[1..]))
  }

  predicate SomeCutStuck(w: World, cuts: seq<nat>)
    decreases |cuts|
  {
    cuts != [] && (StuckCut(w, cuts[0]) || SomeCutStuck(Cut(w, ReconcileSteps(w), cuts[0]), cuts[1..]))
  }

  /** However often it is reconciled, an unresolvable tombstone stays, and its lock can be taken as before. */
  lemma {:induction false} AmbiguousIsFinal(w0: World, operation: string, w: World, cuts: seq<nat>)
    requires Deletable(w0) && Ambiguous(w0, operation, w)
    ensures Ambiguous(w0, operation, Crashes(w, cuts)) && (CannotLock(Crashes(w, cuts)) <==> CannotLock(w))
    ensures CannotLock(w) ==> Crashes(w, cuts) == w
    ensures !SomeCutStuck(w, cuts) && !SomeCutTorn(w, cuts)
    decreases |cuts|
  {
    AmbiguousStays(w0, operation, w);
    AmbiguousStays(w0, operation, Reconciled(w));
    if cuts != [] {
      var steps := ReconcileSteps(w);
      assert steps[..|steps|] == steps && steps[..0] == [];
      hide ReconcileSteps, Stays;
      AmbiguousIsFinal(w0, operation, Cut(w, steps, cuts[0]), cuts[1..]);
    }
  }

  /** One cut of a reconciliation behind the durable deletion. */
  lemma {:induction false} DeletedIsCut(w0: World, operation: string, w: World, c: nat)
    requires Deletable(w0) && Deleted(w0, operation, w)
    ensures var t := Cut(w, ReconcileSteps(w), c);
      && (Ambiguous(w0, operation, t) <==> TornCut(w, c)) && (CannotLock(t) <==> StuckCut(w, c))
      && (!TornCut(w, c) ==> Deleted(w0, operation, t))
  {
    var steps := ReconcileSteps(w);
    var k := if c <= |steps| then c else |steps|;
    DeletedStays(w0, operation, w);
    assert steps[..|steps|] == steps;
    StaysAtPrefix(w0, operation, true, w, steps, k);
    if w.place == Gone {
      assert steps == [] && Cut(w, steps, c) == w;
    } else {
      assert steps == RemovalSteps();
      RemovalCut(w, k);
    }
  }

  lemma {:induction false} DeletedCrashes(w0: World, operation: string, w: World, cuts: seq<nat>)
    requires Deletable(w0) && Deleted(w0, operation, w)
    ensures Ambiguous(w0, operation, Crashes(w, cuts)) <==> SomeCutTorn(w, cuts)
    ensures CannotLock(Crashes(w, cuts)) <==> SomeCutStuck(w, cuts)
    decreases |cuts|
  {
    hide ReconcileSteps, TornCut, StuckCut;
    if cuts == [] {
      assert !CannotLock(w);
    } else {
      var next := Cut(w, ReconcileSteps(w), cuts[0]);
      DeletedIsCut(w0, operation, w, cuts[0]);
      StuckIsTorn(w, cuts[0]);
      if TornCut(w, cuts[0]) {
        AmbiguousIsFinal(w0, operation, next, cuts[1..]);
      } else {
        DeletedCrashes(w0, operation, next, cuts[1..]);
      }
    }
  }

  lemma StuckIsTorn(w: World, c: nat)
    ensures StuckCut(w, c) ==> TornCut(w, c)
  {
  }

  /**
   * How a durable deletion ends over every schedule of crashes: with nothing left if and
   * only if no removal was cut after the journal went; with a tombstone that can never be
   * locked again if and only if one was cut after the directory of the lock went too; and
   * else with a tombstone that is marked.
   */
  lemma {:induction false} DeletionCompletes(w0: World, operation: string, k: nat, cuts: seq<nat>)
    requires Deletable(w0) && DURABLE <= k <= |DeleteSteps(w0, operation, false)|
    ensures var d, whole := Perform(w0, DeleteSteps(w0, operation, false)[..k]), |DeleteSteps(w0, operation, false)|;
      var w := Crashes(d, cuts);
      && (Reconciled(w).place == Gone <==> !(UNJOURNALLED <= k < whole) && !SomeCutTorn(d, cuts))
      && (CannotLock(w) <==> UNLOCKABLE <= k < whole || SomeCutStuck(d, cuts))
      && (CannotLock(w) ==> Reconciled(w) == w)
      && (CannotLock(w) || Reconciled(w).place == Gone
          || (Reconciled(w).control.Some? && Reconciled(w).control.value.state == NeedsAttention))
      && Reconciled(w).row.None?
  {
    var d := Perform(w0, DeleteSteps(w0, operation, false)[..k]);
    DeletionStays(w0, operation, false, k);
    AmbiguousCutPoints(w0, operation, k);
    CrashesStay(w0, operation, true, d, cuts);
    var w := Crashes(d, cuts);
    DeletedStays(w0, operation, w);
    hide ReconcileSteps, DeleteSteps, Crashes, SomeCutTorn, SomeCutStuck;
    if Ambiguous(w0, operation, d) {
      AmbiguousIsFinal(w0, operation, d, cuts);
    } else {
      DeletedCrashes(w0, operation, d, cuts);
    }
    if Ambiguous(w0, operation, w) { AmbiguousStays(w0, operation, w); }
  }
}
