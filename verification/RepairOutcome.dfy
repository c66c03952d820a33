// What one whole reconciliation leaves of any workspace, told by the parts of its disk
// (internal/config/reconcile.go, files.go, replace_files.go).
module RepairOutcome {
  import opened CrashRecovery
  import opened FileMutation
  import opened Outcomes
  import opened WorkspaceDisk

  // ----- the outcome

  /** Row and control record carry the reason, one revision later; a row that is marked already stays as it is. */
  ghost predicate MarkedAs(d: Disk, e: Disk, reason: string) {
    if d.row.state == NeedsAttention then e.row == d.row && e.controlState == d.controlState
    else
      && e.row == Row(NeedsAttention, reason, d.row.revision + 1, d.row.draftDigest, d.row.baseDigest)
      && e.controlState == ControlState(NeedsAttention, reason, d.row.revision + 1)
  }

  /** The base manifest names the files of the base tree and their sizes; before the first change there may be none. */
  ghost predicate BaseManifestFits(d: Disk) {
    match d.baseManifest
    case None => d.row.revision == 1 && d.controlManifest == d.row.baseDigest
    case Some(m) =>
      && (forall path :: path in m.files <==> path in d.base)
      && forall path | path in m.files && path in d.base :: |m.files[path]| == |d.base[path]|
  }

  /** A ready workspace without a journal: it stays ready if every part fits, else the first that does not is told. */
  ghost predicate ReadyOutcome(d: Disk, e: Disk) {
    && e.draft == d.draft && e.base == d.base && e.controlManifest == d.controlManifest
    && e.baseManifest == d.baseManifest && e.journal.None? && e.recovery == Recovery(None, None, None, None, [])
    && if d.controlState.revision > d.row.revision then MarkedAs(d, e, "REVISION_MISMATCH")
       else if d.controlState.state != Ready then MarkedAs(d, e, "CONTROL_INVALID")
       else if d.controlManifest != d.row.draftDigest then MarkedAs(d, e, "MANIFEST_METADATA_MISMATCH")
       else if d.base != d.row.baseDigest.files || !BaseManifestFits(d) then MarkedAs(d, e, "BASE_DIGEST_MISMATCH")
       else if d.draft != d.row.draftDigest.files then MarkedAs(d, e, "DRAFT_DIGEST_MISMATCH")
       else e.row == d.row && e.controlState == if d.controlState.revision == d.row.revision then d.controlState
                                                else ControlState(Ready, d.row.reason, d.row.revision)
  }

  /** The journal is one of a file operation: consecutive revisions and as many different paths as its kind names. */
  ghost predicate JournalFits(j: Journal) {
    && j.nextRevision == j.expectedRevision + 1
    && (if j.kind == ReplaceBatch then |j.paths| > 0 else |j.paths| == if j.kind in {Copy, Rename} then 2 else 1)
    && forall i, k | 0 <= i < |j.paths| && 0 <= k < |j.paths| && i != k :: j.paths[i] != j.paths[k]
  }

  /** The evidence has both manifests, the old contents the journal calls for and no others, and a base to trust. */
  ghost predicate EvidenceFits(d: Disk, j: Journal)
    requires JournalFits(j)
  {
    var before, after := j.beforeDigest.files, j.afterDigest.files;
    && d.recovery.beforeManifest == Some(j.beforeDigest) && d.recovery.afterManifest == Some(j.afterDigest)
    && (match j.kind
        case ReplaceBatch =>
          forall i | 0 <= i < |j.paths| ::
            && j.paths[i] in before && j.paths[i] in after && after[j.paths[i]] != before[j.paths[i]]
            && i < |d.recovery.batch| && d.recovery.batch[i] == Some(before[j.paths[i]])
        case Create => d.recovery.beforeContent.None?
        case Copy => d.recovery.beforeContent.None?
        case _ => j.paths[0] in before && d.recovery.beforeContent == Some(before[j.paths[0]]))
    && if d.baseManifest.Some? then d.baseManifest.value == d.row.baseDigest
       else j.expectedRevision == 1 && d.recovery.baseManifest == Some(d.row.baseDigest)
  }

  /** The draft is the old or the new one; of a batch only its own files are looked at, one by one. */
  ghost predicate DraftFits(d: Disk, j: Journal) {
    var before, after := j.beforeDigest.files, j.afterDigest.files;
    if j.kind != ReplaceBatch then d.draft in {before, after}
    else
      forall path | path in j.paths ::
        && path in before && path in after && path in d.draft && d.draft[path] in {before[path], after[path]}
  }

  ghost function PathSet(paths: seq<Path>): set<Path> {
    set path | path in paths
  }

  /** What the operation has put where nothing was. */
  ghost function Added(j: Journal): set<Path>
    requires JournalFits(j)
  {
    match j.kind
    case Create => {j.paths[0]}
    case Copy => {j.paths[1]}
    case Rename => {j.paths[1]}
    case _ => {}
  }

  /** What it has changed or removed. */
  ghost function Lost(j: Journal): set<Path>
    requires JournalFits(j)
  {
    match j.kind
    case Create => {}
    case Copy => {}
    case ReplaceBatch => PathSet(j.paths)
    case _ => {j.paths[0]}
  }

  /** The draft without what was added and with what was lost. */
  ghost function Restored(draft: Tree, j: Journal): Tree
    requires JournalFits(j) && forall path | path in Lost(j) :: path in j.beforeDigest.files
  {
    map path | path in draft.Keys - Added(j) + Lost(j) ::
      if path in Lost(j) then j.beforeDigest.files[path] else draft[path]
  }

  /** A removed file has come back with other content. */
  ghost predicate Conflicts(d: Disk, j: Journal)
    requires JournalFits(j)
  {
    && j.kind in {Delete, Rename} && d.draft != j.beforeDigest.files && j.paths[0] in d.draft
    && (j.paths[0] in j.beforeDigest.files ==> d.draft[j.paths[0]] != j.beforeDigest.files[j.paths[0]])
  }

  /** What the cleanup leaves of the evidence: contents of a batch that the journal does not name. */
  ghost function Leftover(r: Recovery, j: Journal): Recovery {
    var named := if j.kind == ReplaceBatch then |j.paths| else 0;
    if forall i | named <= i < |r.batch| :: r.batch[i].None? then Recovery(None, None, None, None, [])
    else Recovery(None, None, None, None, seq(|r.batch|, i requires 0 <= i < |r.batch| =>
                                                          if i < named then None else r.batch[i]))
  }

  /** The row is still that of before the operation, and no later phase was reached. */
  ghost predicate GoesBack(d: Disk, j: Journal) {
    && d.row.revision == j.expectedRevision && d.row.draftDigest == j.beforeDigest
    && j.phase in {Prepared, FilesApplied}
  }

  /** The row is that of after the operation, and so is the draft. */
  ghost predicate GoesForward(d: Disk, j: Journal) {
    && d.row.revision == j.nextRevision && d.row.draftDigest == j.afterDigest && d.draft == j.afterDigest.files
    && j.phase != Prepared
  }

  /** A workspace with a journal: back, forward, or marked with the reason. */
  ghost predicate JournalOutcome(d: Disk, j: Journal, e: Disk) {
    if !JournalFits(j) then MarkedAs(d, e, "JOURNAL_INVALID") && OnlyMarked(d, e)
    else if !EvidenceFits(d, j) then MarkedAs(d, e, "RECOVERY_INVALID") && OnlyMarked(d, e)
    else if !DraftFits(d, j) || !(GoesBack(d, j) || GoesForward(d, j)) then
      MarkedAs(d, e, "RECOVERY_STATE_MISMATCH") && OnlyMarked(d, e)
    else if GoesForward(d, j) then
      e == d.(controlManifest := j.afterDigest, controlState := ControlState(d.row.state, d.row.reason, d.row.revision),
              baseManifest := Some(d.row.baseDigest), journal := None, recovery := Leftover(d.recovery, j))
    else if Conflicts(d, j) then
      MarkedAs(d, e, "RECOVERY_INVALID") && OnlyMarked(d.(draft := d.draft - Added(j)), e)
    else
      var draft := if j.kind != ReplaceBatch && d.draft == j.beforeDigest.files then d.draft else Restored(d.draft, j);
      if draft != j.beforeDigest.files then
        MarkedAs(d, e, "RECOVERY_STATE_MISMATCH") && OnlyMarked(d.(draft := draft), e)
      else
        e == d.(draft := draft, controlManifest := j.beforeDigest,
                controlState := ControlState(d.row.state, d.row.reason, d.row.revision),
                journal := None, recovery := Leftover(d.recovery, j))
  }

  ghost predicate OnlyMarked(d: Disk, e: Disk) {
    e == d.(row := e.row, controlState := e.controlState)
  }

  /** What a whole reconciliation makes of a disk. */
  ghost predicate Outcome(d: Disk, e: Disk) {
    match d.journal
    case Some(j) => JournalOutcome(d, j, e)
    case None =>
      if d.row.state == Ready then ReadyOutcome(d, e) else e == d.(recovery := Recovery(None, None, None, None, []))
  }

  // ----- without a journal

  lemma {:induction false} MarkingMarks(d: Disk, reason: string)
    ensures MarkedAs(d, Exec(d, AttentionSteps(d.row, reason)), reason)
    ensures OnlyMarked(d, Exec(d, AttentionSteps(d.row, reason)))
  {
    var steps := AttentionSteps(d.row, reason);
    if d.row.state != NeedsAttention {
      ExecTwo(d, steps[0], steps[1]);
      assert steps == [steps[0], steps[1]];
    }
  }

  lemma {:induction false} ReadyStaysExactly(d: Disk)
    requires d.journal.None?
    ensures Outcome(d, Reconciled(d))
  {
    OrphansAreRemoved(d);
    ExecConcat(d, OrphanSteps(d.recovery), VerifySteps(d));
    var d1 := d.(recovery := NO_RECOVERY);
    hide OrphanSteps, AttentionSteps, Exec;
    BaseFits(d);
    if d.row.state == Ready {
      MarkingMarks(d1, REVISION_MISMATCH);
      MarkingMarks(d1, CONTROL_INVALID);
      MarkingMarks(d1, MANIFEST_METADATA_MISMATCH);
      MarkingMarks(d1, BASE_DIGEST_MISMATCH);
      MarkingMarks(d1, DRAFT_DIGEST_MISMATCH);
    }
    ExecOne(d1, WriteControlState(ControlOf(d.row)));
    ExecNothing(d1);
  }

  lemma ExecNothing(d: Disk)
    ensures Exec(d, []) == d
  {
  }

  lemma BaseFits(d: Disk)
    ensures BaseVerified(d) <==> d.base == d.row.baseDigest.files && BaseManifestFits(d)
  {
  }

  // ----- with a journal

  lemma FitsIsWellFormed(j: Journal)
    ensures JournalFits(j) <==> WellFormed(j)
  {
  }

  lemma EvidenceFitsExactly(d: Disk, j: Journal)
    requires JournalFits(j)
    ensures EvidenceFits(d, j) <==>
            && d.recovery.beforeManifest == Some(j.beforeDigest) && d.recovery.afterManifest == Some(j.afterDigest)
            && ContentEvidence(d, j) && RecoveryBase(d, j).Some?
    ensures EvidenceFits(d, j) ==> RecoveryBase(d, j) == Some((d.row.baseDigest, d.baseManifest.None?))
  {
    if j.kind == ReplaceBatch && EvidenceFits(d, j) {
      var last := |j.paths| - 1;
      assert j.paths[last] in j.beforeDigest.files;
      assert last < |d.recovery.batch| && d.recovery.batch[last] == Some(j.beforeDigest.files[j.paths[last]]);
    }
  }

  lemma DraftFitsExactly(d: Disk, j: Journal)
    ensures DraftFits(d, j) <==> DraftRecognised(d, j)
  {
    if j.kind == ReplaceBatch {
      if DraftRecognised(d, j) {
        forall path | path in j.paths
          ensures path in j.beforeDigest.files && path in j.afterDigest.files && path in d.draft
            && d.draft[path] in {j.beforeDigest.files[path], j.afterDigest.files[path]}
        {
          var i :| 0 <= i < |j.paths| && j.paths[i] == path;
        }
      }
      if DraftFits(d, j) {
        forall i | 0 <= i < |j.paths|
          ensures j.paths[i] in j.beforeDigest.files && j.paths[i] in j.afterDigest.files && j.paths[i] in d.draft
            && (d.draft[j.paths[i]] == j.beforeDigest.files[j.paths[i]]
                || d.draft[j.paths[i]] == j.afterDigest.files[j.paths[i]])
        {
          assert j.paths[i] in j.paths;
        }
      }
    }
  }

  /** The batch written back up to k. */
  ghost function BatchUpTo(draft: Tree, j: Journal, k: nat): Tree
    requires k <= |j.paths| && forall path | path in j.paths :: path in j.beforeDigest.files
  {
    map path | path in draft.Keys + PathSet(j.paths[..k]) ::
      if path in j.paths[..k] then j.beforeDigest.files[path] else draft[path]
  }

  lemma {:induction false} BatchComesBack(d: Disk, j: Journal, k: nat)
    requires k <= |j.paths| && forall path | path in j.paths :: path in j.beforeDigest.files
    ensures Exec(d, RestoreBatch(j)[..k]) == d.(draft := BatchUpTo(d.draft, j, k))
    decreases k
  {
    var steps := RestoreBatch(j);
    if k == 0 {
      assert steps[..0] == [];
      assert BatchUpTo(d.draft, j, 0) == d.draft;
    } else {
      BatchComesBack(d, j, k - 1);
      assert steps[..k] == steps[..k - 1] + [steps[k - 1]];
      ExecSnoc(d, steps[..k - 1], steps[k - 1]);
      OneMoreBack(d.draft, j, k - 1);
      hide Exec, BatchUpTo;
    }
  }

  lemma OneMoreBack(draft: Tree, j: Journal, k: nat)
    requires k < |j.paths| && forall path | path in j.paths :: path in j.beforeDigest.files
    ensures BatchUpTo(draft, j, k)[j.paths[k] := j.beforeDigest.files[j.paths[k]]] == BatchUpTo(draft, j, k + 1)
  {
    assert j.paths[..k + 1] == j.paths[..k] + [j.paths[k]];
  }

  /** The undo ends with the restored draft, or meets a conflict after it has removed what was added. */
  lemma {:induction false} UndoRestores(d: Disk, j: Journal)
    requires JournalFits(j) && WellFormed(j) && EvidenceFits(d, j) && ContentEvidence(d, j)
    ensures UndoSteps(d, j).None? <==> Conflicts(d, j)
    ensures Conflicts(d, j) ==> Exec(d, FailedUndoSteps(d, j)) == d.(draft := d.draft - Added(j))
    ensures !Conflicts(d, j) ==> Exec(d, UndoSteps(d, j).value) == d.(draft :=
        if j.kind != ReplaceBatch && d.draft == j.beforeDigest.files then d.draft else Restored(d.draft, j))
  {
    if j.kind == ReplaceBatch {
      UndoOfBatch(d, j);
    } else if d.draft != j.beforeDigest.files {
      UndoOfOne(d, j);
      hide *;
    }
  }

  lemma NamedWereThere(d: Disk, j: Journal)
    requires JournalFits(j) && j.kind == ReplaceBatch && EvidenceFits(d, j)
    ensures forall path | path in j.paths :: path in j.beforeDigest.files
    ensures Added(j) == {} && Lost(j) == PathSet(j.paths)
  {
    forall path | path in j.paths ensures path in j.beforeDigest.files {
      var i :| 0 <= i < |j.paths| && j.paths[i] == path;
    }
  }

  lemma {:induction false} UndoOfBatch(d: Disk, j: Journal)
    requires JournalFits(j) && j.kind == ReplaceBatch && EvidenceFits(d, j)
    ensures forall path | path in j.paths :: path in j.beforeDigest.files
    ensures Exec(d, RestoreBatch(j)) == d.(draft := Restored(d.draft, j))
  {
    NamedWereThere(d, j);
    hide Exec, EvidenceFits, JournalFits;
    BatchComesBack(d, j, |j.paths|);
    assert RestoreBatch(j)[..|j.paths|] == RestoreBatch(j) && j.paths[..|j.paths|] == j.paths;
    assert BatchUpTo(d.draft, j, |j.paths|) == Restored(d.draft, j);
  }

  lemma {:induction false} DropIsDrop(d: Disk, path: Path)
    ensures Exec(d, DropIfPresent(d.draft, path)) == d.(draft := d.draft - {path})
  {
    if path in d.draft {
      ExecOne(d, DropDraft(path));
    } else {
      assert d.draft - {path} == d.draft;
    }
  }

  lemma {:induction false} UndoOfOne(d: Disk, j: Journal)
    requires JournalFits(j) && WellFormed(j) && EvidenceFits(d, j) && ContentEvidence(d, j)
    requires j.kind != ReplaceBatch && d.draft != j.beforeDigest.files
    ensures UndoSteps(d, j).None? <==> Conflicts(d, j)
    ensures Conflicts(d, j) ==> Exec(d, FailedUndoSteps(d, j)) == d.(draft := d.draft - Added(j))
    ensures !Conflicts(d, j) ==> Exec(d, UndoSteps(d, j).value) == d.(draft := Restored(d.draft, j))
  {
    var before := j.beforeDigest.files;
    match j.kind
    case Create =>
      DropIsDrop(d, j.paths[0]);
      assert d.draft - {j.paths[0]} == Restored(d.draft, j);
    case Copy =>
      DropIsDrop(d, j.paths[1]);
      assert d.draft - {j.paths[1]} == Restored(d.draft, j);
    case Replace =>
      ExecOne(d, PutDraft(j.paths[0], before[j.paths[0]]));
      assert d.draft[j.paths[0] := before[j.paths[0]]] == Restored(d.draft, j);
    case Delete =>
      PutBack(d, j.paths[0], before[j.paths[0]]);
      assert d.draft - {} == d.draft;
      if !Conflicts(d, j) { assert d.draft[j.paths[0] := before[j.paths[0]]] == Restored(d.draft, j); }
    case Rename =>
      var drop, d1 := DropIfPresent(d.draft, j.paths[1]), d.(draft := d.draft - {j.paths[1]});
      DropIsDrop(d, j.paths[1]);
      PutBack(d1, j.paths[0], before[j.paths[0]]);
      if !Conflicts(d, j) {
        var restore := RestoreSteps(d.draft, j.paths[0], before[j.paths[0]]).value;
        ExecConcat(d, drop, restore);
        assert d1.draft[j.paths[0] := before[j.paths[0]]] == Restored(d.draft, j);
      }
  }

  lemma {:induction false} PutBack(d: Disk, path: Path, content: Content)
    ensures RestoreSteps(d.draft, path, content).Some? ==>
              Exec(d, RestoreSteps(d.draft, path, content).value) == d.(draft := d.draft[path := content])
  {
    ExecOne(d, PutDraft(path, content));
    if path in d.draft && d.draft[path] == content { assert d.draft[path := content] == d.draft; }
  }

  lemma {:induction false} BatchDropped(d: Disk, n: nat)
    ensures Exec(d, DropBatch(n)) == d.(recovery := d.recovery.(batch :=
        seq(|d.recovery.batch|, i requires 0 <= i < |d.recovery.batch| =>
                                  if i < n then None else d.recovery.batch[i])))
    decreases n
  {
    if n > 0 {
      assert DropBatch(n) == DropBatch(n - 1) + [DropRecovery(BatchContent(n - 1))];
      BatchDropped(d, n - 1);
      ExecSnoc(d, DropBatch(n - 1), DropRecovery(BatchContent(n - 1)));
    } else {
      assert DropBatch(0) == [];
    }
  }

  lemma {:induction false} CleanupLeaves(d: Disk, j: Journal)
    ensures Exec(d, CleanupSteps(j)) == d.(recovery := Leftover(d.recovery, j), journal := None)
  {
    var a, b, c, e := DropRecovery(BeforeContent), DropRecovery(AfterManifest), DropRecovery(BeforeManifest),
      DropRecovery(BaseManifest);
    var batch := if j.kind == ReplaceBatch then DropBatch(|j.paths|) else [];
    var named := if j.kind == ReplaceBatch then |j.paths| else 0;
    ExecTwo(d, a, b);
    var d1 := Exec(d, [a, b]);
    ExecTwo(d1, c, e);
    var d2 := Exec(d1, [c, e]);
    assert d2 == d.(recovery := NO_RECOVERY.(batch := d.recovery.batch));
    BatchDropped(d2, named);
    assert DropBatch(0) == [];
    var d3 := Exec(d2, batch);
    ExecTwo(d3, RemoveRecoveryDirectory, RemoveJournal);
    LeftoverIsRest(d, j, d3);
    hide Exec;
    assert CleanupSteps(j) == [a, b] + [c, e] + batch + [RemoveRecoveryDirectory, RemoveJournal];
    ExecConcat(d, [a, b] + [c, e] + batch, [RemoveRecoveryDirectory, RemoveJournal]);
    ExecConcat(d, [a, b] + [c, e], batch);
    ExecConcat(d, [a, b], [c, e]);
  }

  lemma LeftoverIsRest(d: Disk, j: Journal, d3: Disk)
    requires var named := if j.kind == ReplaceBatch then |j.paths| else 0;
      d3 == d.(recovery := Recovery(None, None, None, None,
          seq(|d.recovery.batch|, i requires 0 <= i < |d.recovery.batch| =>
                                    if i < named then None else d.recovery.batch[i])))
    ensures ApplyStep(ApplyStep(d3, RemoveRecoveryDirectory), RemoveJournal)
         == d.(recovery := Leftover(d.recovery, j), journal := None)
  {
    var named := if j.kind == ReplaceBatch then |j.paths| else 0;
    assert d3.recovery.IsEmpty() <==> forall i | named <= i < |d.recovery.batch| :: d.recovery.batch[i].None? by {
      if d3.recovery.IsEmpty() {
        forall i | named <= i < |d.recovery.batch| ensures d.recovery.batch[i].None? {
          assert d3.recovery.batch[i].None?;
        }
      }
    }
  }

  /** Steps with which a change begins, and the mark behind it. */
  lemma {:induction false} MarkedBehind(d: Disk, first: seq<Step>, draft: Tree, reason: string)
    requires Exec(d, first) == d.(draft := draft)
    ensures var e := Exec(d, first + AttentionSteps(d.row, reason));
      MarkedAs(d, e, reason) && OnlyMarked(d.(draft := draft), e)
  {
    ExecConcat(d, first, AttentionSteps(d.row, reason));
    MarkingMarks(d.(draft := draft), reason);
    hide Exec, AttentionSteps;
  }

  lemma {:induction false} BackWhole(d: Disk, j: Journal, undo: seq<Step>)
    requires Exec(d, undo) == d.(draft := j.beforeDigest.files)
    ensures Exec(d, undo + [WriteControlManifest(j.beforeDigest), WriteControlState(ControlOf(d.row))]
                    + CleanupSteps(j))
         == d.(draft := j.beforeDigest.files, controlManifest := j.beforeDigest, controlState := ControlOf(d.row),
               journal := None, recovery := Leftover(d.recovery, j))
  {
    var control := [WriteControlManifest(j.beforeDigest), WriteControlState(ControlOf(d.row))];
    var d1 := d.(draft := j.beforeDigest.files);
    ExecConcat(d, undo + control, CleanupSteps(j));
    ExecConcat(d, undo, control);
    ExecTwo(d1, control[0], control[1]);
    CleanupLeaves(d1.(controlManifest := j.beforeDigest, controlState := ControlOf(d.row)), j);
    hide Exec, CleanupSteps, Leftover;
  }

  lemma {:induction false} BackExactly(d: Disk, j: Journal)
    requires d.journal == Some(j) && JournalFits(j) && WellFormed(j) && EvidenceFits(d, j) && ContentEvidence(d, j)
    requires DraftFits(d, j) && GoesBack(d, j)
    ensures JournalOutcome(d, j, Exec(d, RollBackSteps(d, j)))
  {
    UndoRestores(d, j);
    RevisionsDiffer(d, j);
    hide UndoSteps, FailedUndoSteps, Exec, CleanupSteps, AttentionSteps, Restored, Conflicts, EvidenceFits,
      ContentEvidence, DraftFits, JournalFits, WellFormed, Leftover, MarkedAs, OnlyMarked, Added;
    if Conflicts(d, j) {
      MarkedBehind(d, FailedUndoSteps(d, j), d.draft - Added(j), RECOVERY_INVALID);
    } else {
      var undo := UndoSteps(d, j).value;
      var draft := Exec(d, undo).draft;
      if draft != j.beforeDigest.files {
        MarkedBehind(d, undo, draft, RECOVERY_STATE_MISMATCH);
      } else {
        BackWhole(d, j, undo);
      }
    }
  }

  lemma RevisionsDiffer(d: Disk, j: Journal)
    requires JournalFits(j)
    ensures !(GoesBack(d, j) && GoesForward(d, j))
  {
  }

  lemma {:induction false} ForwardExactly(d: Disk, j: Journal)
    requires d.journal == Some(j) && JournalFits(j) && EvidenceFits(d, j) && DraftFits(d, j) && GoesForward(d, j)
    requires RecoveryBase(d, j) == Some((d.row.baseDigest, d.baseManifest.None?))
    ensures JournalOutcome(d, j, Exec(d, RollForwardSteps(d, j, RecoveryBase(d, j).value)))
  {
    var base := if d.baseManifest.None? then Some(d.row.baseDigest) else None;
    var first := (match base case None => [] case Some(m) => [WriteBaseManifest(m)])
      + [WriteControlManifest(j.afterDigest), WriteControlState(ControlOf(d.row))];
    assert d.baseManifest.Some? ==> d.baseManifest == Some(d.row.baseDigest);
    hide Exec, CleanupSteps, AttentionSteps, EvidenceFits, DraftFits, JournalFits, Leftover, RecoveryBase;
    ExecPublish(d, base, j.afterDigest, ControlOf(d.row));
    ExecConcat(d, first, CleanupSteps(j));
    CleanupLeaves(Exec(d, first), j);
  }

  /** A journal, any journal: back, forward or marked, exactly as its parts say. */
  lemma {:induction false} JournalIsResolvedExactly(d: Disk, j: Journal)
    requires d.journal == Some(j)
    ensures JournalOutcome(d, j, Exec(d, JournalSteps(d, j)))
  {
    FitsIsWellFormed(j);
    if JournalFits(j) { EvidenceFitsExactly(d, j); }
    DraftFitsExactly(d, j);
    MarkingMarks(d, JOURNAL_INVALID);
    MarkingMarks(d, RECOVERY_INVALID);
    MarkingMarks(d, RECOVERY_STATE_MISMATCH);
    hide Exec, AttentionSteps, CleanupSteps, JournalFits, WellFormed, EvidenceFits, ContentEvidence, DraftFits,
      DraftRecognised, UndoSteps, FailedUndoSteps, RecoveryBase;
    if JournalFits(j) && EvidenceFits(d, j) && DraftFits(d, j) {
      if GoesBack(d, j) {
        BackExactly(d, j);
        RevisionsOrdered(j);
      } else if GoesForward(d, j) {
        ForwardExactly(d, j);
        RevisionsOrdered(j);
      }
    }
  }

  lemma RevisionsOrdered(j: Journal)
    requires JournalFits(j)
    ensures j.expectedRevision < j.nextRevision
  {
  }

  /** Whatever a disk is, one whole reconciliation leaves of it what its parts say. */
  lemma {:induction false} ReconciledIsOutcome(d: Disk)
    ensures Outcome(d, Reconciled(d))
  {
    if d.journal.Some? {
      JournalIsResolvedExactly(d, d.journal.value);
      hide JournalSteps, JournalOutcome, Exec;
    } else {
      ReadyStaysExactly(d);
    }
  }
}
