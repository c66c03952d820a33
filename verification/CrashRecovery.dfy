// Crash safety of file mutations (internal/config/files.go).
module CrashRecovery {

  // A crash keeps a prefix of the durable steps; reconciliation runs, and may itself crash
  // any number of times.

  import opened Outcomes
  import opened WorkspaceDisk
  import opened FileMutation

  // ----- the states of one interrupted mutation

  function Before(d0: Disk): Tree {
    d0.row.draftDigest.files
  }

  predicate Started(d0: Disk, p: Proposal) {
    Settled(d0) && Acceptable(Before(d0), p)
  }

  function After(d0: Disk, p: Proposal): Manifest
    requires Started(d0, p)
  {
    Manifest(AfterFiles(Before(d0), p))
  }

  /** The complete recovery evidence of the mutation. */
  function Evidence(d0: Disk, p: Proposal): Recovery
    requires Started(d0, p)
  {
    var files := Before(d0);
    Recovery(if NeedsContent(KindOf(p)) then Some(files[PathsOf(p)[0]]) else None,
             Some(After(d0, p)), Some(d0.row.draftDigest),
             if d0.baseManifest.None? then Some(d0.row.baseDigest) else None,
             if p.ReplaceFiles? then SavedBatch(files, p.replacements) else [])
  }

  function SavedBatch(files: Tree, rs: seq<Replacement>): seq<Option<Content>>
    requires forall i | 0 <= i < |rs| :: rs[i].path in files
  {
    seq(|rs|, i requires 0 <= i < |rs| => Some(files[rs[i].path]))
  }

  /** The disk when the mutation has run to completion. */
  function Finished(d0: Disk, p: Proposal): Disk
    requires Started(d0, p)
  {
    var row := NextRow(d0, p);
    d0.(draft := After(d0, p).files, row := row, controlManifest := After(d0, p), controlState := ControlOf(row),
        baseManifest := Some(d0.row.baseDigest))
  }

  predicate JournalIn(d0: Disk, p: Proposal, d: Disk, phases: set<Phase>)
    requires Started(d0, p)
  {
    d.journal.Some? && d.journal.value.phase in phases && d.journal.value == JournalAt(d0, p, d.journal.value.phase)
  }

  /** Nothing but orphaned evidence differs from the start. */
  predicate Idle(d0: Disk, d: Disk) {
    d == d0.(recovery := d.recovery)
  }

  /** Every file is the old or the new one; outside a batch, all of them together. */
  predicate DraftPlausible(d0: Disk, p: Proposal, draft: Tree)
    requires Started(d0, p)
  {
    var before, after := Before(d0), After(d0, p).files;
    if p.ReplaceFiles? then
      draft.Keys == before.Keys && after.Keys == before.Keys
      && forall path | path in before :: draft[path] == before[path] || draft[path] == after[path]
    else draft == before || draft == after
  }

  /** Journalled, the database update not durable. */
  predicate InFlight(d0: Disk, p: Proposal, d: Disk)
    requires Started(d0, p)
  {
    && d == d0.(draft := d.draft, journal := d.journal, recovery := Evidence(d0, p))
    && JournalIn(d0, p, d, {Prepared, FilesApplied})
    && DraftPlausible(d0, p, d.draft)
  }

  /** Journalled, the database update durable. */
  predicate Committed(d0: Disk, p: Proposal, d: Disk)
    requires Started(d0, p)
  {
    && d == Finished(d0, p).(journal := d.journal, recovery := Evidence(d0, p), controlManifest := d.controlManifest,
                             controlState := d.controlState, baseManifest := d.baseManifest)
    && JournalIn(d0, p, d, {FilesApplied, SqlCommitted, ControlCommitted})
    && d.controlManifest in {d0.controlManifest, After(d0, p)}
    && d.controlState in {d0.controlState, ControlOf(NextRow(d0, p))}
    && d.baseManifest in {d0.baseManifest, Some(d0.row.baseDigest)}
  }

  predicate Done(d0: Disk, p: Proposal, d: Disk)
    requires Started(d0, p)
  {
    d == Finished(d0, p).(recovery := d.recovery)
  }

  /**
   * The two situations reconciliation cannot resolve, as it can observe them: the
   * journal outlived part of its evidence, or the draft is neither old nor new.
   */
  predicate Interrupted(d: Disk) {
    match d.journal
    case None => false
    case Some(j) =>
      || d.recovery.beforeManifest != Some(j.beforeDigest)
      || d.recovery.afterManifest != Some(j.afterDigest)
      || !ContentEvidence(d, j)
      || !DraftRecognised(d, j)
  }

  /** Whether the database update is durable, and whether an interrupted disk is possible. */
  datatype Mode = Mode(durable: bool, torn: bool)

  /** Every disk that crashes can leave, before and after the database update. */
  predicate InRun(d0: Disk, p: Proposal, m: Mode, d: Disk)
    requires Started(d0, p)
  {
    || (m.torn && Interrupted(d))
    || (if m.durable then Committed(d0, p, d) || Done(d0, p, d) else Idle(d0, d) || InFlight(d0, p, d))
  }

  // ----- prefixes of step lists

  /** Every prefix of the steps leaves a disk of the run. */
  ghost predicate Stays(d0: Disk, p: Proposal, m: Mode, d: Disk, steps: seq<Step>)
    requires Started(d0, p)
    decreases |steps|
  {
    InRun(d0, p, m, d) && (steps == [] || Stays(d0, p, m, ApplyStep(d, steps[0]), steps[1..]))
  }

  lemma {:induction false} StaysAtPrefix(d0: Disk, p: Proposal, m: Mode, d: Disk, steps: seq<Step>, k: nat)
    requires Started(d0, p) && Stays(d0, p, m, d, steps) && k <= |steps|
    ensures InRun(d0, p, m, Exec(d, steps[..k]))
    decreases |steps|
  {
    hide InRun, ApplyStep;
    if k == 0 {
      assert steps[..0] == [];
    } else {
      assert steps[..k][0] == steps[0] && steps[..k][1..] == steps[1..][..k - 1];
      StaysAtPrefix(d0, p, m, ApplyStep(d, steps[0]), steps[1..], k - 1);
    }
  }

  lemma {:induction false} StaysConcat(d0: Disk, p: Proposal, m: Mode, d: Disk, a: seq<Step>, b: seq<Step>)
    requires Started(d0, p) && Stays(d0, p, m, d, a) && Stays(d0, p, m, Exec(d, a), b)
    ensures Stays(d0, p, m, d, a + b)
    decreases |a|
  {
    hide InRun, ApplyStep;
    if a == [] {
      assert a + b == b;
    } else {
      assert (a + b)[0] == a[0] && (a + b)[1..] == a[1..] + b;
      StaysConcat(d0, p, m, ApplyStep(d, a[0]), a[1..], b);
    }
  }

  lemma {:induction false} StaysOne(d0: Disk, p: Proposal, m: Mode, d: Disk, step: Step)
    requires Started(d0, p) && InRun(d0, p, m, d) && InRun(d0, p, m, ApplyStep(d, step))
    ensures Stays(d0, p, m, d, [step]) && Exec(d, [step]) == ApplyStep(d, step)
  {
    hide InRun, ApplyStep;
    assert [step][1..] == [];
    assert Stays(d0, p, m, ApplyStep(d, step), []);
  }

  // ----- evidence

  predicate IsSave(step: Step) {
    step.SaveContent? || step.SaveAfterManifest? || step.SaveBeforeManifest? || step.SaveBaseManifest?
      || step.SaveBatchContent?
  }

  predicate IsDrop(step: Step) {
    step.DropRecovery? || step.RemoveRecoveryDirectory?
  }

  /** Evidence without a journal is only an orphan. */
  lemma {:induction false} IdleWhileSaving(d0: Disk, p: Proposal, torn: bool, d: Disk, steps: seq<Step>)
    requires Started(d0, p) && Idle(d0, d) && forall i | 0 <= i < |steps| :: IsSave(steps[i]) || IsDrop(steps[i])
    ensures Stays(d0, p, Mode(false, torn), d, steps) && Idle(d0, Exec(d, steps))
    decreases |steps|
  {
    if steps != [] {
      assert IsSave(steps[0]) || IsDrop(steps[0]);
      IdleWhileSaving(d0, p, torn, ApplyStep(d, steps[0]), steps[1..]);
    }
  }

  lemma {:induction false} DoneWhileDropping(d0: Disk, p: Proposal, torn: bool, d: Disk, steps: seq<Step>)
    requires Started(d0, p) && Done(d0, p, d) && forall i | 0 <= i < |steps| :: IsDrop(steps[i])
    ensures Stays(d0, p, Mode(true, torn), d, steps) && Done(d0, p, Exec(d, steps))
    decreases |steps|
  {
    if steps != [] {
      assert IsDrop(steps[0]);
      DoneWhileDropping(d0, p, torn, ApplyStep(d, steps[0]), steps[1..]);
    }
  }

  lemma {:induction false} SaveBatchSaves(d: Disk, files: Tree, rs: seq<Replacement>, k: nat)
    requires forall i | 0 <= i < |rs| :: rs[i].path in files
    requires k <= |rs| && d.recovery.batch == SavedBatch(files, rs)[..k]
    ensures Exec(d, SaveBatch(files, rs)[k..]) == d.(recovery := d.recovery.(batch := SavedBatch(files, rs)))
    decreases |rs| - k
  {
    var steps := SaveBatch(files, rs)[k..];
    if k < |rs| {
      var next := ApplyStep(d, steps[0]);
      assert steps[0] == SaveBatchContent(files[rs[k].path]);
      assert next.recovery.batch == SavedBatch(files, rs)[..k + 1];
      assert steps[1..] == SaveBatch(files, rs)[k + 1..];
      SaveBatchSaves(next, files, rs, k + 1);
    } else {
      assert steps == [];
    }
  }

  lemma {:induction false} ContentIsSaved(d0: Disk, p: Proposal)
    requires Started(d0, p)
    ensures Exec(d0, ContentSteps(Before(d0), p))
         == d0.(recovery := NO_RECOVERY.(beforeContent := Evidence(d0, p).beforeContent,
                                         batch := Evidence(d0, p).batch))
  {
    var files := Before(d0);
    if p.ReplaceFiles? {
      SaveBatchSaves(d0, files, p.replacements, 0);
      assert SaveBatch(files, p.replacements)[0..] == ContentSteps(files, p);
    } else if NeedsContent(KindOf(p)) {
      ExecOne(d0, SaveContent(files[PathsOf(p)[0]]));
    }
  }

  lemma {:induction false} EvidenceIsSaved(d0: Disk, p: Proposal)
    requires Started(d0, p)
    ensures Exec(d0, RecoverySteps(d0, p)) == d0.(recovery := Evidence(d0, p))
  {
    var content := ContentSteps(Before(d0), p);
    var after, before := SaveAfterManifest(After(d0, p)), SaveBeforeManifest(d0.row.draftDigest);
    var base := if d0.baseManifest.None? then [SaveBaseManifest(d0.row.baseDigest)] else [];
    ContentIsSaved(d0, p);
    var d1 := Exec(d0, content);
    ExecTwo(d1, after, before);
    var d2 := Exec(d1, [after, before]);
    assert Exec(d2, base) == d0.(recovery := Evidence(d0, p)) by {
      if d0.baseManifest.None? {
        ExecOne(d2, base[0]);
      }
    }
    hide Exec;
    assert RecoverySteps(d0, p) == content + [after, before] + base;
    ExecConcat(d0, content + [after, before], base);
    ExecConcat(d0, content, [after, before]);
  }

  // ----- the draft steps

  lemma {:induction false} PutAllKeys(files: Tree, rs: seq<Replacement>, k: nat)
    requires Acceptable(files, ReplaceFiles(rs)) && k <= |rs|
    ensures PutAll(files, rs[..k]).Keys == files.Keys
    ensures forall i | 0 <= i < |rs| ::
        PutAll(files, rs[..k])[rs[i].path] == if i < k then rs[i].content else files[rs[i].path]
    ensures forall path | path in files && (forall i | 0 <= i < |rs| :: rs[i].path != path) ::
        PutAll(files, rs[..k])[path] == files[path]
  {
    if k > 0 {
      PutAllKeys(files, rs, k - 1);
      assert rs[..k][..k - 1] == rs[..k - 1];
    }
  }

  lemma PutAllPlausible(d0: Disk, p: Proposal, k: nat)
    requires Started(d0, p) && p.ReplaceFiles? && k <= |p.replacements|
    ensures DraftPlausible(d0, p, PutAll(Before(d0), p.replacements[..k]))
  {
    var rs := p.replacements;
    PutAllKeys(Before(d0), rs, k);
    PutAllKeys(Before(d0), rs, |rs|);
    assert rs[..|rs|] == rs;
    var draft, after := PutAll(Before(d0), rs[..k]), After(d0, p).files;
    forall path | path in Before(d0)
      ensures draft[path] == Before(d0)[path] || draft[path] == after[path]
    {
      if i :| 0 <= i < |rs| && rs[i].path == path {
      }
    }
  }

  lemma JournalEvidence(d0: Disk, p: Proposal, d: Disk, phase: Phase)
    requires Started(d0, p) && d.journal == Some(JournalAt(d0, p, phase)) && d.recovery == Evidence(d0, p)
    ensures ContentEvidence(d, d.journal.value)
    ensures d.row.baseDigest == d0.row.baseDigest && d.baseManifest in {d0.baseManifest, Some(d0.row.baseDigest)} ==>
              RecoveryBase(d, d.journal.value).Some?
    ensures WellFormed(d.journal.value)
  {
    if p.ReplaceFiles? {
      PutAllKeys(Before(d0), p.replacements, |p.replacements|);
      assert p.replacements[..|p.replacements|] == p.replacements;
    }
  }

  lemma PlausibleIsRecognised(d0: Disk, p: Proposal, d: Disk, phase: Phase)
    requires Started(d0, p) && d.journal == Some(JournalAt(d0, p, phase)) && DraftPlausible(d0, p, d.draft)
    ensures DraftRecognised(d, d.journal.value)
  {
  }

  lemma InFlightIsNotInterrupted(d0: Disk, p: Proposal, d: Disk)
    requires Started(d0, p) && (InFlight(d0, p, d) || Committed(d0, p, d))
    ensures !Interrupted(d) && WellFormed(d.journal.value) && RecoveryBase(d, d.journal.value).Some?
    ensures ContentEvidence(d, d.journal.value)
  {
    var phase := d.journal.value.phase;
    JournalEvidence(d0, p, d, phase);
    if Committed(d0, p, d) && p.ReplaceFiles? {
      PutAllPlausible(d0, p, |p.replacements|);
      assert p.replacements[..|p.replacements|] == p.replacements;
    }
    PlausibleIsRecognised(d0, p, d, phase);
  }

  lemma InFlightWithDraft(d0: Disk, p: Proposal, d: Disk, draft: Tree)
    requires Started(d0, p) && InFlight(d0, p, d) && DraftPlausible(d0, p, draft)
    ensures InFlight(d0, p, d.(draft := draft))
  {
    hide Evidence, JournalAt, DraftPlausible, Settled, Acceptable;
  }

  lemma PutBatchStep(d: Disk, rs: seq<Replacement>, k: nat)
    requires k < |rs|
    ensures PutSteps(rs)[k..] == [PutDraft(rs[k].path, rs[k].content)] + PutSteps(rs)[k + 1..]
    ensures rs[..k + 1][..k] == rs[..k]
  {
  }

  lemma BatchPrefixInFlight(d0: Disk, p: Proposal, d: Disk, k: nat)
    requires Started(d0, p) && p.ReplaceFiles? && InFlight(d0, p, d) && k <= |p.replacements|
    ensures InFlight(d0, p, d.(draft := PutAll(Before(d0), p.replacements[..k])))
  {
    PutAllPlausible(d0, p, k);
    InFlightWithDraft(d0, p, d, PutAll(Before(d0), p.replacements[..k]));
  }

  lemma {:induction false} BatchIsApplied(d0: Disk, p: Proposal, torn: bool, d: Disk, k: nat)
    requires Started(d0, p) && p.ReplaceFiles? && InFlight(d0, p, d) && k <= |p.replacements|
    requires d.draft == PutAll(Before(d0), p.replacements[..k])
    ensures Exec(d, PutSteps(p.replacements)[k..]) == d.(draft := PutAll(Before(d0), p.replacements))
    ensures Stays(d0, p, Mode(false, torn), d, PutSteps(p.replacements)[k..])
    decreases |p.replacements| - k
  {
    hide InFlight, Interrupted, Idle, PutSteps, Settled, Acceptable;
    var rs, steps := p.replacements, PutSteps(p.replacements)[k..];
    if k < |rs| {
      PutBatchStep(d, rs, k);
      BatchPrefixInFlight(d0, p, d, k + 1);
      BatchIsApplied(d0, p, torn, d.(draft := d.draft[rs[k].path := rs[k].content]), k + 1);
    } else {
      assert steps == [] && rs[..k] == rs;
    }
  }

  /** Between its two steps a rename leaves both files: neither the old nor the new tree. */
  lemma TornRename(d0: Disk, p: Proposal, d: Disk)
    requires Started(d0, p) && p.RenameFile? && d.journal == Some(JournalAt(d0, p, Prepared))
    requires d.draft == Before(d0)[p.destination := Before(d0)[p.source]]
    ensures Interrupted(d)
  {
    assert p.destination in d.draft && p.destination !in Before(d0);
    assert p.source in d.draft && p.source !in After(d0, p).files;
  }

  lemma OneDraftStep(d0: Disk, p: Proposal, d: Disk)
    requires Started(d0, p) && !p.ReplaceFiles? && !p.RenameFile? && d.draft == Before(d0)
    ensures |DraftSteps(Before(d0), p)| == 1
    ensures ApplyStep(d, DraftSteps(Before(d0), p)[0]) == d.(draft := After(d0, p).files)
  {
  }

  lemma RenameDraftSteps(d0: Disk, p: Proposal, d: Disk)
    requires Started(d0, p) && p.RenameFile? && d.draft == Before(d0)
    ensures |DraftSteps(Before(d0), p)| == 2
    ensures var steps := DraftSteps(Before(d0), p);
      && ApplyStep(d, steps[0]) == d.(draft := Before(d0)[p.destination := Before(d0)[p.source]])
      && ApplyStep(ApplyStep(d, steps[0]), steps[1]) == d.(draft := After(d0, p).files)
  {
    assert Before(d0)[p.destination := Before(d0)[p.source]] - {p.source} == After(d0, p).files;
  }

  /** Applying the proposal turns the old tree into the new one, never leaving the run. */
  lemma {:induction false} ProposalIsApplied(d0: Disk, p: Proposal, torn: bool, d: Disk)
    requires torn || !p.RenameFile?
    requires Started(d0, p) && InFlight(d0, p, d) && d.draft == Before(d0) && d.journal.value.phase == Prepared
    ensures Exec(d, DraftSteps(Before(d0), p)) == d.(draft := After(d0, p).files)
    ensures Stays(d0, p, Mode(false, torn), d, DraftSteps(Before(d0), p))
  {
    var steps, m := DraftSteps(Before(d0), p), Mode(false, torn);
    AfterIsPlausible(d0, p);
    InFlightWithDraft(d0, p, d, After(d0, p).files);
    if p.ReplaceFiles? {
      assert p.replacements[..0] == [] && steps[0..] == steps;
      BatchIsApplied(d0, p, torn, d, 0);
    } else if p.RenameFile? {
      RenameDraftSteps(d0, p, d);
      TornRename(d0, p, ApplyStep(d, steps[0]));
      hide InFlight, Interrupted, DraftSteps;
      StaysOne(d0, p, m, d, steps[0]);
      StaysOne(d0, p, m, ApplyStep(d, steps[0]), steps[1]);
      StaysConcat(d0, p, m, d, [steps[0]], [steps[1]]);
      assert [steps[0]] + [steps[1]] == steps;
      ExecTwo(d, steps[0], steps[1]);
    } else {
      OneDraftStep(d0, p, d);
      hide InFlight, DraftSteps;
      StaysOne(d0, p, m, d, steps[0]);
      assert steps == [steps[0]];
    }
  }

  // ----- evidence cleanup

  /** Dropping evidence behind a journal leaves it without its new manifest. */
  lemma {:induction false} CutWhileDropping(d0: Disk, p: Proposal, m: Mode, d: Disk, steps: seq<Step>)
    requires Started(d0, p) && m.torn && d.journal.Some? && d.recovery.afterManifest.None?
    requires forall i | 0 <= i < |steps| :: IsDrop(steps[i])
    ensures Stays(d0, p, m, d, steps)
    decreases |steps|
  {
    assert Interrupted(d);
    if steps != [] {
      assert IsDrop(steps[0]);
      CutWhileDropping(d0, p, m, ApplyStep(d, steps[0]), steps[1..]);
    }
  }

  lemma {:induction false} BatchIsDropped(d: Disk, n: nat, k: nat)
    requires |d.recovery.batch| == n && k <= n && forall i | 0 <= i < k :: d.recovery.batch[i].None?
    ensures var r := Exec(d, DropBatch(n)[k..]).recovery;
      && Exec(d, DropBatch(n)[k..]) == d.(recovery := d.recovery.(batch := r.batch))
      && |r.batch| == n && forall i | 0 <= i < n :: r.batch[i].None?
    decreases n - k
  {
    var steps := DropBatch(n)[k..];
    if k < n {
      var next := ApplyStep(d, steps[0]);
      assert steps[0] == DropRecovery(BatchContent(k)) && steps[1..] == DropBatch(n)[k + 1..];
      BatchIsDropped(next, n, k + 1);
    } else {
      assert steps == [];
      assert d == d.(recovery := d.recovery.(batch := d.recovery.batch));
    }
  }

  /** Dropping every evidence file one by one empties the recovery directory. */
  lemma {:induction false} RecoveryIsRemoved(d: Disk, j: Journal)
    requires |d.recovery.batch| == if j.kind == ReplaceBatch then |j.paths| else 0
    ensures Exec(d, RemoveRecoverySteps(j)) == d.(recovery := NO_RECOVERY)
  {
    var a, b, c, e := DropRecovery(BeforeContent), DropRecovery(AfterManifest), DropRecovery(BeforeManifest),
      DropRecovery(BaseManifest);
    var batch := if j.kind == ReplaceBatch then DropBatch(|j.paths|) else [];
    ExecTwo(d, a, b);
    var d1 := Exec(d, [a, b]);
    ExecTwo(d1, c, e);
    var d2 := Exec(d1, [c, e]);
    assert d2 == d.(recovery := NO_RECOVERY.(batch := d.recovery.batch));
    BatchIsDropped(d2, |d.recovery.batch|, 0);
    var d3 := Exec(d2, batch);
    assert DropBatch(|d.recovery.batch|)[0..] == batch;
    assert d3.recovery.IsEmpty();
    ExecOne(d3, RemoveRecoveryDirectory);
    assert Exec(d3, [RemoveRecoveryDirectory]) == d.(recovery := NO_RECOVERY);
    hide Exec;
    assert RemoveRecoverySteps(j) == [a, b] + [c, e] + batch + [RemoveRecoveryDirectory];
    ExecConcat(d, [a, b] + [c, e] + batch, [RemoveRecoveryDirectory]);
    ExecConcat(d, [a, b] + [c, e], batch);
    ExecConcat(d, [a, b], [c, e]);
  }

  /** The disk with its evidence and journal gone. */
  function Cleaned(d: Disk): Disk {
    d.(recovery := NO_RECOVERY, journal := None)
  }

  /** Cleanup ends at rest; cut short, it leaves a journal that is missing evidence. */
  lemma {:induction false} CleanupStays(d0: Disk, p: Proposal, m: Mode, d: Disk, phase: Phase)
    requires Started(d0, p) && m.torn && InRun(d0, p, m, d)
    requires d.journal == Some(JournalAt(d0, p, phase)) && d.recovery == Evidence(d0, p)
    requires InRun(d0, p, m, Cleaned(d))
    ensures Stays(d0, p, m, d, CleanupSteps(JournalAt(d0, p, phase)))
    ensures Exec(d, CleanupSteps(JournalAt(d0, p, phase))) == Cleaned(d)
  {
    var j := JournalAt(d0, p, phase);
    assert |d.recovery.batch| == if j.kind == ReplaceBatch then |j.paths| else 0;
    RecoveryIsRemoved(d, j);
    RemoveRecoveryStays(d0, p, m, d, j);
    LastRemoval(d0, p, m, d.(recovery := NO_RECOVERY));
    hide *;
    ExecConcat(d, RemoveRecoverySteps(j), [RemoveJournal]);
    StaysConcat(d0, p, m, d, RemoveRecoverySteps(j), [RemoveJournal]);
    CleanupIsRemoval(j, d);
  }

  lemma {:induction false} LastRemoval(d0: Disk, p: Proposal, m: Mode, d: Disk)
    requires Started(d0, p) && m.torn && d.journal.Some? && d.recovery.afterManifest.None?
    requires InRun(d0, p, m, ApplyStep(d, RemoveJournal))
    ensures Stays(d0, p, m, d, [RemoveJournal]) && Exec(d, [RemoveJournal]) == ApplyStep(d, RemoveJournal)
  {
    assert Interrupted(d);
    StaysOne(d0, p, m, d, RemoveJournal);
  }

  lemma CleanupIsRemoval(j: Journal, d: Disk)
    ensures CleanupSteps(j) == RemoveRecoverySteps(j) + [RemoveJournal]
    ensures ApplyStep(d.(recovery := NO_RECOVERY), RemoveJournal) == Cleaned(d)
  {
    hide RemoveRecoverySteps;
  }

  lemma {:induction false} RemoveRecoveryStays(d0: Disk, p: Proposal, m: Mode, d: Disk, j: Journal)
    requires Started(d0, p) && m.torn && InRun(d0, p, m, d)
    requires d.journal == Some(j) && d.recovery == Evidence(d0, p) && j.kind == KindOf(p)
    ensures Stays(d0, p, m, d, RemoveRecoverySteps(j))
  {
    var steps := RemoveRecoverySteps(j);
    var a, b := DropRecovery(BeforeContent), DropRecovery(AfterManifest);
    var d1 := ApplyStep(d, a);
    assert InRun(d0, p, m, d1) by {
      if NeedsContent(j.kind) {
        assert Interrupted(d1);
      } else {
        assert d1 == d;
      }
    }
    StaysOne(d0, p, m, d, a);
    var d2 := ApplyStep(d1, b);
    assert Interrupted(d2);
    StaysOne(d0, p, m, d1, b);
    assert forall i | 0 <= i < |steps| :: IsDrop(steps[i]);
    CutWhileDropping(d0, p, m, d2, steps[2..]);
    ExecOne(d, a);
    ExecTwo(d, a, b);
    StaysConcat(d0, p, m, d, [a], [b]);
    assert [a] + [b] == [a, b];
    StaysConcat(d0, p, m, d, [a, b], steps[2..]);
    assert steps == [a, b] + steps[2..];
  }

  // ----- the mutation

  /** The steps up to the database update, which decides the outcome. */
  function StepsBeforeDatabase(d0: Disk, p: Proposal): seq<Step>
    requires Started(d0, p)
  {
    RecoverySteps(d0, p) + [WriteJournal(JournalAt(d0, p, Prepared))] + DraftSteps(Before(d0), p)
    + [WriteJournal(JournalAt(d0, p, FilesApplied))]
  }

  function StepsAfterDatabase(d0: Disk, p: Proposal): seq<Step>
    requires Started(d0, p)
  {
    [WriteJournal(JournalAt(d0, p, SqlCommitted))] + ControlSteps(d0, p)
      + [WriteJournal(JournalAt(d0, p, ControlCommitted))]
    + CleanupSteps(JournalAt(d0, p, ControlCommitted))
  }

  lemma StepsAroundDatabase(d0: Disk, p: Proposal)
    requires Started(d0, p)
    ensures MutationSteps(d0, p)
        == StepsBeforeDatabase(d0, p) + [UpdateRow(d0.row.revision, NextRow(d0, p))] + StepsAfterDatabase(d0, p)
  {
    hide RecoverySteps, DraftSteps, ControlSteps, CleanupSteps, JournalAt, NextRow;
  }

  function Applied(d0: Disk, p: Proposal): Disk
    requires Started(d0, p)
  {
    d0.(recovery := Evidence(d0, p), journal := Some(JournalAt(d0, p, FilesApplied)), draft := After(d0, p).files)
  }

  lemma AfterIsPlausible(d0: Disk, p: Proposal)
    requires Started(d0, p)
    ensures DraftPlausible(d0, p, After(d0, p).files) && DraftPlausible(d0, p, Before(d0))
  {
    if p.ReplaceFiles? {
      PutAllPlausible(d0, p, |p.replacements|);
      PutAllPlausible(d0, p, 0);
      assert p.replacements[..|p.replacements|] == p.replacements;
    }
  }

  /** Journalling the prepared evidence, and later the applied files. */
  lemma InFlightJournals(d0: Disk, p: Proposal)
    requires Started(d0, p)
    ensures var prepared := ApplyStep(d0.(recovery := Evidence(d0, p)), WriteJournal(JournalAt(d0, p, Prepared)));
      && InFlight(d0, p, prepared) && prepared.draft == Before(d0) && prepared.journal.value.phase == Prepared
      && InFlight(d0, p, prepared.(draft := After(d0, p).files))
      && ApplyStep(prepared.(draft := After(d0, p).files), WriteJournal(JournalAt(d0, p, FilesApplied)))
         == Applied(d0, p)
    ensures InFlight(d0, p, Applied(d0, p))
  {
    AfterIsPlausible(d0, p);
    hide AfterFiles, Evidence, DraftPlausible;
  }

  lemma {:induction false} UpToDatabase(d0: Disk, p: Proposal, torn: bool)
    requires Started(d0, p) && (torn || !p.RenameFile?)
    ensures Stays(d0, p, Mode(false, torn), d0, StepsBeforeDatabase(d0, p))
    ensures Exec(d0, StepsBeforeDatabase(d0, p)) == Applied(d0, p)
  {
    var recovery, draft := RecoverySteps(d0, p), DraftSteps(Before(d0), p);
    var prepared, applied := WriteJournal(JournalAt(d0, p, Prepared)), WriteJournal(JournalAt(d0, p, FilesApplied));
    RecoveryIsIdle(d0, p, torn);
    EvidenceIsSaved(d0, p);
    InFlightJournals(d0, p);
    var d1 := Exec(d0, recovery);
    var d2 := ApplyStep(d1, prepared);
    ProposalIsApplied(d0, p, torn, d2);
    var d3 := Exec(d2, draft);
    hide Idle, InFlight, Interrupted, JournalAt, RecoverySteps, DraftSteps, AfterFiles, Evidence, ApplyStep, Settled,
      Acceptable;
    StaysOne(d0, p, Mode(false, torn), d1, prepared);
    StaysOne(d0, p, Mode(false, torn), d3, applied);
    hide *;
    ChainFour(d0, p, torn, recovery, prepared, draft, applied);
  }

  lemma {:induction false} RecoveryIsIdle(d0: Disk, p: Proposal, torn: bool)
    requires Started(d0, p)
    ensures Stays(d0, p, Mode(false, torn), d0, RecoverySteps(d0, p)) && Idle(d0, Exec(d0, RecoverySteps(d0, p)))
  {
    IdleWhileSaving(d0, p, torn, d0, RecoverySteps(d0, p));
  }

  lemma {:induction false} ChainFour(d0: Disk, p: Proposal, torn: bool, a: seq<Step>, b: Step, c: seq<Step>, e: Step)
    requires Started(d0, p) && Stays(d0, p, Mode(false, torn), d0, a)
    requires var d1 := Exec(d0, a);
      && Stays(d0, p, Mode(false, torn), d1, [b]) && Exec(d1, [b]) == ApplyStep(d1, b)
      && var d2 := ApplyStep(d1, b);
         Stays(d0, p, Mode(false, torn), d2, c)
         && var d3 := Exec(d2, c); Stays(d0, p, Mode(false, torn), d3, [e]) && Exec(d3, [e]) == ApplyStep(d3, e)
    ensures Stays(d0, p, Mode(false, torn), d0, a + [b] + c + [e])
    ensures Exec(d0, a + [b] + c + [e]) == ApplyStep(Exec(ApplyStep(Exec(d0, a), b), c), e)
  {
    hide *;
    StaysConcat(d0, p, Mode(false, torn), d0, a, [b]);
    ExecConcat(d0, a, [b]);
    StaysConcat(d0, p, Mode(false, torn), d0, a + [b], c);
    ExecConcat(d0, a + [b], c);
    StaysConcat(d0, p, Mode(false, torn), d0, a + [b] + c, [e]);
    ExecConcat(d0, a + [b] + c, [e]);
  }

  /** The steps that publish a durable database update. */
  predicate IsPublishing(d0: Disk, p: Proposal, step: Step)
    requires Started(d0, p)
  {
    match step
    case WriteBaseManifest(m) => m == d0.row.baseDigest
    case WriteControlManifest(m) => m == After(d0, p)
    case WriteControlState(s) => s == ControlOf(NextRow(d0, p))
    case WriteJournal(j) => j == JournalAt(d0, p, SqlCommitted) || j == JournalAt(d0, p, ControlCommitted)
    case _ => false
  }

  lemma PublishingKeepsCommitted(d0: Disk, p: Proposal, d: Disk, step: Step)
    requires Started(d0, p) && Committed(d0, p, d) && IsPublishing(d0, p, step)
    ensures Committed(d0, p, ApplyStep(d, step))
  {
    hide Evidence, AfterFiles, Settled, Acceptable;
  }

  lemma {:induction false} CommittedWhilePublishing(d0: Disk, p: Proposal, torn: bool, d: Disk, steps: seq<Step>)
    requires Started(d0, p) && Committed(d0, p, d) && forall i | 0 <= i < |steps| :: IsPublishing(d0, p, steps[i])
    ensures Stays(d0, p, Mode(true, torn), d, steps) && Committed(d0, p, Exec(d, steps))
    decreases |steps|
  {
    if steps != [] {
      assert IsPublishing(d0, p, steps[0]);
      PublishingKeepsCommitted(d0, p, d, steps[0]);
      hide Committed, Interrupted, Done, IsPublishing;
      CommittedWhilePublishing(d0, p, torn, ApplyStep(d, steps[0]), steps[1..]);
    }
  }

  function PublishSteps(d0: Disk, p: Proposal, d: Disk): seq<Step>
    requires Started(d0, p)
  {
    (if d.baseManifest.None? then [WriteBaseManifest(d0.row.baseDigest)] else [])
    + [WriteControlManifest(After(d0, p)), WriteControlState(ControlOf(NextRow(d0, p)))]
  }

  lemma {:induction false} ExecPublish(d: Disk, base: Option<Manifest>, manifest: Manifest, control: ControlState)
    ensures Exec(d, (match base case None => [] case Some(m) => [WriteBaseManifest(m)])
                    + [WriteControlManifest(manifest), WriteControlState(control)])
         == d.(baseManifest := if base.Some? then base else d.baseManifest,
               controlManifest := manifest, controlState := control)
  {
    var first := match base case None => [] case Some(m) => [WriteBaseManifest(m)];
    ExecConcat(d, first, [WriteControlManifest(manifest), WriteControlState(control)]);
    if base.Some? {
      ExecOne(d, first[0]);
    }
    ExecTwo(Exec(d, first), WriteControlManifest(manifest), WriteControlState(control));
  }

  /** Publishing the base manifest where it is missing, the control manifest and the control state. */
  lemma {:induction false} PublishControl(d0: Disk, p: Proposal, torn: bool, d: Disk)
    requires Started(d0, p) && Committed(d0, p, d)
    ensures Stays(d0, p, Mode(true, torn), d, PublishSteps(d0, p, d))
    ensures Exec(d, PublishSteps(d0, p, d)) == Finished(d0, p).(journal := d.journal, recovery := d.recovery)
  {
    CommittedWhilePublishing(d0, p, torn, d, PublishSteps(d0, p, d));
    hide Stays, InRun, AfterFiles, Evidence, JournalAt, JournalIn, Acceptable, IsPublishing, Exec;
    var base := if d.baseManifest.None? then Some(d0.row.baseDigest) else None;
    ExecPublish(d, base, After(d0, p), ControlOf(NextRow(d0, p)));
  }

  /** Evidence and journal of a fully published update can go. */
  lemma {:induction false} CleanupAfterPublishing(d0: Disk, p: Proposal, d: Disk, phase: Phase)
    requires Started(d0, p) && phase in {FilesApplied, SqlCommitted, ControlCommitted}
    requires d == Finished(d0, p).(journal := Some(JournalAt(d0, p, phase)), recovery := Evidence(d0, p))
    ensures Stays(d0, p, Mode(true, true), d, CleanupSteps(JournalAt(d0, p, phase)))
    ensures Exec(d, CleanupSteps(JournalAt(d0, p, phase))) == Finished(d0, p)
  {
    assert Done(d0, p, Cleaned(d)) && Cleaned(d) == Finished(d0, p);
    assert Committed(d0, p, d);
    CleanupStays(d0, p, Mode(true, true), d, phase);
  }

  /** The steps that publish a durable update, up to the cleanup of its evidence. */
  function PublishAfterDatabase(d0: Disk, p: Proposal): seq<Step>
    requires Started(d0, p)
  {
    [WriteJournal(JournalAt(d0, p, SqlCommitted))] + ControlSteps(d0, p)
      + [WriteJournal(JournalAt(d0, p, ControlCommitted))]
  }

  function Updated(d0: Disk, p: Proposal): Disk
    requires Started(d0, p)
  {
    ApplyStep(Applied(d0, p), UpdateRow(d0.row.revision, NextRow(d0, p)))
  }

  lemma {:induction false} PublishedAfterDatabase(d0: Disk, p: Proposal, torn: bool)
    requires Started(d0, p)
    ensures Stays(d0, p, Mode(true, torn), Updated(d0, p), PublishAfterDatabase(d0, p))
    ensures Exec(Updated(d0, p), PublishAfterDatabase(d0, p))
         == Finished(d0, p).(journal := Some(JournalAt(d0, p, ControlCommitted)), recovery := Evidence(d0, p))
  {
    var d1 := Updated(d0, p);
    assert Committed(d0, p, d1);
    var sql, last := WriteJournal(JournalAt(d0, p, SqlCommitted)), WriteJournal(JournalAt(d0, p, ControlCommitted));
    var control := ControlSteps(d0, p);
    CommittedWhilePublishing(d0, p, torn, d1, [sql]);
    ExecOne(d1, sql);
    var d2 := Exec(d1, [sql]);
    PublishControl(d0, p, torn, d2);
    assert PublishSteps(d0, p, d2) == control;
    var d3 := Exec(d2, control);
    CommittedWhilePublishing(d0, p, torn, d3, [last]);
    ExecOne(d3, last);
    hide *;
    StaysConcat(d0, p, Mode(true, torn), d1, [sql], control);
    ExecConcat(d1, [sql], control);
    StaysConcat(d0, p, Mode(true, torn), d1, [sql] + control, [last]);
    ExecConcat(d1, [sql] + control, [last]);
  }

  lemma {:induction false} PastDatabase(d0: Disk, p: Proposal)
    requires Started(d0, p)
    ensures Stays(d0, p, Mode(true, true), Updated(d0, p), StepsAfterDatabase(d0, p))
    ensures Exec(Updated(d0, p), StepsAfterDatabase(d0, p)) == Finished(d0, p)
  {
    var publish, cleanup := PublishAfterDatabase(d0, p), CleanupSteps(JournalAt(d0, p, ControlCommitted));
    PublishedAfterDatabase(d0, p, true);
    CleanupAfterPublishing(d0, p, Exec(Updated(d0, p), publish), ControlCommitted);
    assert StepsAfterDatabase(d0, p) == publish + cleanup;
    hide *;
    StaysConcat(d0, p, Mode(true, true), Updated(d0, p), publish, cleanup);
    ExecConcat(Updated(d0, p), publish, cleanup);
  }

  /** The database update is durable once this many steps are. */
  function DatabaseSteps(d0: Disk, p: Proposal): nat
    requires Started(d0, p)
  {
    |StepsBeforeDatabase(d0, p)| + 1
  }

  /** The crash point between the two filesystem steps of a rename. */
  predicate BetweenRenameSteps(d0: Disk, p: Proposal, k: nat)
    requires Started(d0, p)
  {
    p.RenameFile? && k == |RecoverySteps(d0, p)| + 2
  }

  /** A crash point that is neither there nor inside the evidence cleanup. */
  predicate CleanPoint(d0: Disk, p: Proposal, k: nat)
    requires Started(d0, p)
  {
    && !BetweenRenameSteps(d0, p, k)
    && (k <= DatabaseSteps(d0, p) + |PublishAfterDatabase(d0, p)| || k == |MutationSteps(d0, p)|)
  }

  lemma StepsAfterSplit(d0: Disk, p: Proposal)
    requires Started(d0, p)
    ensures StepsAfterDatabase(d0, p) == PublishAfterDatabase(d0, p) + CleanupSteps(JournalAt(d0, p, ControlCommitted))
    ensures InRun(d0, p, Mode(true, false), Finished(d0, p))
  {
  }

  /** A rename cut before the database update, but not between its two filesystem steps. */
  lemma {:induction false} RenameCut(d0: Disk, p: Proposal, k: nat)
    requires Started(d0, p) && p.RenameFile? && k < DatabaseSteps(d0, p) && !BetweenRenameSteps(d0, p, k)
    ensures InRun(d0, p, Mode(false, false), Exec(d0, StepsBeforeDatabase(d0, p)[..k]))
  {
    var recovery, draft, steps := RecoverySteps(d0, p), DraftSteps(Before(d0), p), StepsBeforeDatabase(d0, p);
    var prepared, applied := WriteJournal(JournalAt(d0, p, Prepared)), WriteJournal(JournalAt(d0, p, FilesApplied));
    var n := |recovery|;
    EvidenceIsSaved(d0, p);
    InFlightJournals(d0, p);
    RecoveryIsIdle(d0, p, false);
    var d1 := Exec(d0, recovery);
    var d2 := ApplyStep(d1, prepared);
    RenameDraftSteps(d0, p, d2);
    hide RecoverySteps, DraftSteps, JournalAt, Exec, Evidence, InFlight, Idle, Stays, Settled, Acceptable;
    if k <= n {
      assert steps[..k] == recovery[..k];
      StaysAtPrefix(d0, p, Mode(false, false), d0, recovery, k);
    } else {
      ExecSnoc(d0, recovery, prepared);
      assert steps[..n + 1] == recovery + [prepared];
      if k > n + 1 {
        assert steps[..n + 3] == (recovery + [prepared]) + [draft[0], draft[1]];
        ExecConcat(d0, recovery + [prepared], [draft[0], draft[1]]);
        ExecTwo(d2, draft[0], draft[1]);
        if k > n + 3 {
          assert steps[..n + 4] == steps[..n + 3] + [applied];
          ExecSnoc(d0, steps[..n + 3], applied);
        }
      }
    }
  }

  /** Cut before the database update. */
  lemma {:induction false} CutBeforeDatabase(d0: Disk, p: Proposal, torn: bool, k: nat)
    requires Started(d0, p) && k < DatabaseSteps(d0, p) && (torn || !BetweenRenameSteps(d0, p, k))
    ensures k <= |MutationSteps(d0, p)|
    ensures InRun(d0, p, Mode(false, torn), Exec(d0, MutationSteps(d0, p)[..k]))
  {
    StepsAroundDatabase(d0, p);
    var before := StepsBeforeDatabase(d0, p);
    assert MutationSteps(d0, p)[..k] == before[..k];
    if p.RenameFile? && !torn {
      RenameCut(d0, p, k);
    } else {
      UpToDatabase(d0, p, torn);
      hide *;
      StaysAtPrefix(d0, p, Mode(false, torn), d0, before, k);
    }
  }

  lemma {:induction false} ExecPastDatabase(d0: Disk, p: Proposal, n: nat)
    requires Started(d0, p) && n <= |StepsAfterDatabase(d0, p)|
    ensures DatabaseSteps(d0, p) + n <= |MutationSteps(d0, p)|
    ensures Exec(d0, MutationSteps(d0, p)[..DatabaseSteps(d0, p) + n])
        == Exec(Updated(d0, p), StepsAfterDatabase(d0, p)[..n])
    ensures |MutationSteps(d0, p)| == DatabaseSteps(d0, p) + |StepsAfterDatabase(d0, p)|
  {
    var before, update, after := StepsBeforeDatabase(d0, p), UpdateRow(d0.row.revision, NextRow(d0, p)),
      StepsAfterDatabase(d0, p);
    StepsAroundDatabase(d0, p);
    UpToDatabase(d0, p, true);
    var steps := MutationSteps(d0, p);
    hide Exec, ApplyStep, Stays, MutationSteps, StepsBeforeDatabase, StepsAfterDatabase;
    assert steps[..DatabaseSteps(d0, p) + n] == before + [update] + after[..n];
    ExecSnoc(d0, before, update);
    ExecConcat(d0, before + [update], after[..n]);
  }

  /** Cut behind the database update. */
  lemma {:induction false} CutPastDatabase(d0: Disk, p: Proposal, torn: bool, n: nat)
    requires Started(d0, p) && n <= |StepsAfterDatabase(d0, p)|
    requires torn || n <= |PublishAfterDatabase(d0, p)| || n == |StepsAfterDatabase(d0, p)|
    ensures InRun(d0, p, Mode(true, torn), Exec(Updated(d0, p), StepsAfterDatabase(d0, p)[..n]))
  {
    var publish, after := PublishAfterDatabase(d0, p), StepsAfterDatabase(d0, p);
    StepsAfterSplit(d0, p);
    PastDatabase(d0, p);
    PublishedAfterDatabase(d0, p, torn);
    hide StepsAfterDatabase, PublishAfterDatabase, CleanupSteps, Stays, Exec, Updated;
    if n == |after| {
      assert after[..n] == after;
    } else if n <= |publish| {
      assert after[..n] == publish[..n];
      StaysAtPrefix(d0, p, Mode(true, torn), Updated(d0, p), publish, n);
    } else {
      StaysAtPrefix(d0, p, Mode(true, true), Updated(d0, p), after, n);
    }
  }

  /** Wherever a mutation is cut, the disk is one of its run; uncut, it is finished. */
  lemma {:induction false} MutationStays(d0: Disk, p: Proposal, torn: bool, k: nat)
    requires Started(d0, p) && k <= |MutationSteps(d0, p)| && (torn || CleanPoint(d0, p, k))
    ensures InRun(d0, p, Mode(k >= DatabaseSteps(d0, p), torn), Exec(d0, MutationSteps(d0, p)[..k]))
    ensures Exec(d0, MutationSteps(d0, p)) == Finished(d0, p)
  {
    var after := StepsAfterDatabase(d0, p);
    MutationFinishes(d0, p);
    if k < DatabaseSteps(d0, p) {
      CutBeforeDatabase(d0, p, torn, k);
    } else {
      var n := k - DatabaseSteps(d0, p);
      ExecPastDatabase(d0, p, n);
      hide Exec, InRun, MutationSteps, StepsAfterDatabase, PublishAfterDatabase, StepsBeforeDatabase, Finished;
      CutPastDatabase(d0, p, torn, n);
      assert k == DatabaseSteps(d0, p) + n;
    }
  }

  lemma {:induction false} MutationFinishes(d0: Disk, p: Proposal)
    requires Started(d0, p)
    ensures Exec(d0, MutationSteps(d0, p)) == Finished(d0, p)
    ensures |MutationSteps(d0, p)| == DatabaseSteps(d0, p) + |StepsAfterDatabase(d0, p)|
  {
    hide MutationSteps, StepsBeforeDatabase, StepsAfterDatabase, Finished, Updated, Exec, Stays, Settled, Acceptable;
    var steps, after := MutationSteps(d0, p), StepsAfterDatabase(d0, p);
    ExecPastDatabase(d0, p, |after|);
    PastDatabase(d0, p);
    assert after[..|after|] == after;
    assert steps[..|steps|] == steps;
  }

  // ----- reconciliation

  lemma InterruptedIgnoresRow(d: Disk, row: Row, control: ControlState)
    requires Interrupted(d)
    ensures Interrupted(d.(row := row)) && Interrupted(d.(row := row, controlState := control))
  {
  }

  lemma InterruptedIsNotResolved(d: Disk)
    requires Interrupted(d)
    ensures ReconcileSteps(d) == AttentionSteps(d.row, JournalReason(d, d.journal.value))
  {
    hide AttentionSteps, ContentEvidence, DraftRecognised, RecoveryBase, RollBackSteps, RollForwardSteps;
  }

  /** What reconciliation cannot resolve it only marks, and a marked row it leaves alone. */
  lemma {:induction false} InterruptedIsMarked(d0: Disk, p: Proposal, m: Mode, d: Disk)
    requires Started(d0, p) && m.torn && Interrupted(d)
    ensures Stays(d0, p, m, d, ReconcileSteps(d))
    ensures Exec(d, ReconcileSteps(d)).row.state == NeedsAttention
    ensures Interrupted(Exec(d, ReconcileSteps(d)))
  {
    InterruptedIsNotResolved(d);
    var steps := ReconcileSteps(d);
    hide ReconcileSteps, JournalReason, Interrupted;
    if d.row.state != NeedsAttention {
      var next := steps[0].next;
      InterruptedIgnoresRow(d, next, ControlOf(next));
      StaysOne(d0, p, m, d, steps[0]);
      StaysOne(d0, p, m, ApplyStep(d, steps[0]), steps[1]);
      StaysConcat(d0, p, m, d, [steps[0]], [steps[1]]);
      assert [steps[0]] + [steps[1]] == steps;
      ExecTwo(d, steps[0], steps[1]);
    }
  }

  /** The reason code of an interrupted journal. */
  function JournalReason(d: Disk, j: Journal): string {
    if !WellFormed(j) then JOURNAL_INVALID
    else if d.recovery.beforeManifest != Some(j.beforeDigest)
      || d.recovery.afterManifest != Some(j.afterDigest) then RECOVERY_INVALID
    else if !ContentEvidence(d, j) || RecoveryBase(d, j).None? then RECOVERY_INVALID
    else RECOVERY_STATE_MISMATCH
  }

  /** Orphaned evidence is removed file by file. */
  lemma {:induction false} OrphansAreRemoved(d: Disk)
    ensures Exec(d, OrphanSteps(d.recovery)) == d.(recovery := NO_RECOVERY)
    ensures forall i | 0 <= i < |OrphanSteps(d.recovery)| :: IsDrop(OrphanSteps(d.recovery)[i])
  {
    var base, batch := DropRecovery(BaseManifest), DropBatch(|d.recovery.batch|);
    var before, content, after, directory := DropRecovery(BeforeManifest), DropRecovery(BeforeContent),
      DropRecovery(AfterManifest), RemoveRecoveryDirectory;
    ExecOne(d, base);
    var d1 := Exec(d, [base]);
    BatchIsDropped(d1, |d.recovery.batch|, 0);
    assert batch[0..] == batch;
    var d2 := Exec(d1, batch);
    ExecTwo(d2, before, content);
    var d3 := Exec(d2, [before, content]);
    ExecTwo(d3, after, directory);
    assert Exec(d3, [after, directory]) == d.(recovery := NO_RECOVERY);
    assert OrphanSteps(d.recovery) == [base] + batch + [before, content] + [after, directory];
    hide Exec;
    ExecConcat(d, [base] + batch + [before, content], [after, directory]);
    ExecConcat(d, [base] + batch, [before, content]);
    ExecConcat(d, [base], batch);
  }

  /** Nothing durable happened beyond orphaned evidence: the workspace is as it was. */
  lemma {:induction false} ReconcileIdle(d0: Disk, p: Proposal, torn: bool, d: Disk)
    requires Started(d0, p) && Idle(d0, d)
    ensures Stays(d0, p, Mode(false, torn), d, ReconcileSteps(d)) && Exec(d, ReconcileSteps(d)) == d0
  {
    assert VerifySteps(d) == [];
    assert ReconcileSteps(d) == OrphanSteps(d.recovery);
    OrphansAreRemoved(d);
    IdleWhileSaving(d0, p, torn, d, OrphanSteps(d.recovery));
  }

  lemma {:induction false} ReconcileDone(d0: Disk, p: Proposal, torn: bool, d: Disk)
    requires Started(d0, p) && Done(d0, p, d)
    ensures Stays(d0, p, Mode(true, torn), d, ReconcileSteps(d)) && Exec(d, ReconcileSteps(d)) == Finished(d0, p)
  {
    assert VerifySteps(d) == [];
    assert ReconcileSteps(d) == OrphanSteps(d.recovery);
    OrphansAreRemoved(d);
    DoneWhileDropping(d0, p, torn, d, OrphanSteps(d.recovery));
  }

  /** A durable update is published to the end. */
  lemma {:induction false} ReconcileCommitted(d0: Disk, p: Proposal, d: Disk)
    requires Started(d0, p) && Committed(d0, p, d)
    ensures ReconcileSteps(d) == PublishSteps(d0, p, d) + CleanupSteps(d.journal.value)
    ensures Stays(d0, p, Mode(true, true), d, ReconcileSteps(d)) && Exec(d, ReconcileSteps(d)) == Finished(d0, p)
  {
    var j := d.journal.value;
    InFlightIsNotInterrupted(d0, p, d);
    assert RecoveryBase(d, j).value == (d0.row.baseDigest, d.baseManifest.None?);
    assert ReconcileSteps(d) == PublishSteps(d0, p, d) + CleanupSteps(j);
    PublishControl(d0, p, true, d);
    CleanupAfterPublishing(d0, p, Exec(d, PublishSteps(d0, p, d)), j.phase);
    hide *;
    StaysConcat(d0, p, Mode(true, true), d, PublishSteps(d0, p, d), CleanupSteps(j));
    ExecConcat(d, PublishSteps(d0, p, d), CleanupSteps(j));
  }

  // ----- undoing the draft changes

  lemma RestoreBatchStep(d0: Disk, p: Proposal, d: Disk, k: nat)
    requires Started(d0, p) && p.ReplaceFiles? && InFlight(d0, p, d) && k <= |p.replacements|
    ensures forall path | path in d.journal.value.paths :: path in d.journal.value.beforeDigest.files
    ensures var rs, steps := p.replacements, RestoreBatch(d.journal.value);
      && |steps| == |rs|
      && (k < |rs| ==> steps[k..] == [PutDraft(rs[k].path, Before(d0)[rs[k].path])] + steps[k + 1..])
  {
    hide Evidence, DraftPlausible, AfterFiles;
  }

  lemma RestoredPlausible(d0: Disk, p: Proposal, draft: Tree, path: Path)
    requires Started(d0, p) && p.ReplaceFiles? && DraftPlausible(d0, p, draft) && path in Before(d0)
    ensures DraftPlausible(d0, p, draft[path := Before(d0)[path]])
  {
    hide AfterFiles;
  }

  lemma AllRestored(d0: Disk, p: Proposal, draft: Tree)
    requires Started(d0, p) && p.ReplaceFiles? && DraftPlausible(d0, p, draft)
    requires forall i | 0 <= i < |p.replacements| :: draft[p.replacements[i].path] == Before(d0)[p.replacements[i].path]
    ensures draft == Before(d0)
  {
    var rs := p.replacements;
    PutAllKeys(Before(d0), rs, |rs|);
    assert rs[..|rs|] == rs;
    forall path | path in Before(d0)
      ensures draft[path] == Before(d0)[path]
    {
      if i :| 0 <= i < |rs| && rs[i].path == path {
      }
    }
  }

  lemma {:induction false} BatchIsRestored(d0: Disk, p: Proposal, torn: bool, d: Disk, k: nat)
    requires Started(d0, p) && p.ReplaceFiles? && InFlight(d0, p, d) && k <= |p.replacements|
    requires forall i | 0 <= i < k :: d.draft[p.replacements[i].path] == Before(d0)[p.replacements[i].path]
    ensures forall path | path in d.journal.value.paths :: path in d.journal.value.beforeDigest.files
    ensures k <= |RestoreBatch(d.journal.value)|
    ensures Exec(d, RestoreBatch(d.journal.value)[k..]) == d.(draft := Before(d0))
    ensures Stays(d0, p, Mode(false, torn), d, RestoreBatch(d.journal.value)[k..])
    decreases |p.replacements| - k
  {
    var rs := p.replacements;
    RestoreBatchStep(d0, p, d, k);
    var steps := RestoreBatch(d.journal.value)[k..];
    assert InRun(d0, p, Mode(false, torn), d);
    if k < |rs| {
      var path := rs[k].path;
      assert steps[0] == PutDraft(path, Before(d0)[path]);
      RestoredPlausible(d0, p, d.draft, path);
      InFlightWithDraft(d0, p, d, d.draft[path := Before(d0)[path]]);
      hide InRun, InFlight, DraftPlausible, RestoreBatch;
      BatchIsRestored(d0, p, torn, ApplyStep(d, steps[0]), k + 1);
    } else {
      assert steps == [];
      AllRestored(d0, p, d.draft);
    }
  }

  /** Between the two steps that undo a rename neither file exists. */
  lemma TornUndo(d0: Disk, p: Proposal, d: Disk)
    requires Started(d0, p) && p.RenameFile? && JournalIn(d0, p, d, {Prepared, FilesApplied})
    requires d.draft == After(d0, p).files - {p.destination}
    ensures Interrupted(d)
  {
    assert p.source in Before(d0) && p.source !in d.draft;
    assert p.destination in After(d0, p).files && p.destination !in d.draft;
  }

  /** Undoing restores the old tree exactly, from the old tree, the new one, or any mix within a batch. */
  lemma {:induction false} DraftIsUndone(d0: Disk, p: Proposal, torn: bool, d: Disk)
    requires torn || !p.RenameFile?
    requires Started(d0, p) && InFlight(d0, p, d)
    requires WellFormed(d.journal.value) && ContentEvidence(d, d.journal.value)
    ensures UndoSteps(d, d.journal.value).Some?
    ensures Exec(d, UndoSteps(d, d.journal.value).value) == d.(draft := Before(d0))
    ensures Stays(d0, p, Mode(false, torn), d, UndoSteps(d, d.journal.value).value)
  {
    var j := d.journal.value;
    if p.ReplaceFiles? {
      BatchIsRestored(d0, p, torn, d, 0);
      assert RestoreBatch(j)[0..] == RestoreBatch(j);
    } else if d.draft != Before(d0) {
      UndoOne(d0, p, torn, d);
    }
  }

  /** Undoing a single create, copy, replace or delete is one step. */
  lemma UndoIsOneStep(d0: Disk, p: Proposal, d: Disk)
    requires Started(d0, p) && !p.ReplaceFiles? && !p.RenameFile? && InFlight(d0, p, d)
    requires d.draft == After(d0, p).files != Before(d0)
    requires WellFormed(d.journal.value) && ContentEvidence(d, d.journal.value)
    ensures UndoSteps(d, d.journal.value).Some? && |UndoSteps(d, d.journal.value).value| == 1
    ensures ApplyStep(d, UndoSteps(d, d.journal.value).value[0]) == d.(draft := Before(d0))
  {
    match p
    case CreateFile(destination, _) => assert d.draft - {destination} == Before(d0);
    case CopyFile(_, destination) => assert d.draft - {destination} == Before(d0);
    case ReplaceFile(source, _) => assert d.draft[source := Before(d0)[source]] == Before(d0);
    case DeleteFile(source) => assert d.draft[source := Before(d0)[source]] == Before(d0);
  }

  lemma UndoOfRename(d0: Disk, p: Proposal, d: Disk)
    requires Started(d0, p) && p.RenameFile? && InFlight(d0, p, d) && d.draft == After(d0, p).files
    requires WellFormed(d.journal.value) && ContentEvidence(d, d.journal.value)
    ensures d.draft != Before(d0)
    ensures UndoSteps(d, d.journal.value) == Some([DropDraft(p.destination), PutDraft(p.source, Before(d0)[p.source])])
    ensures (d.draft - {p.destination})[p.source := Before(d0)[p.source]] == Before(d0)
  {
    assert p.destination in d.draft && p.destination !in Before(d0);
    assert p.source !in d.draft;
    var drop, restore := DropDraft(p.destination), PutDraft(p.source, Before(d0)[p.source]);
    assert [drop] + [restore] == [drop, restore];
  }

  lemma {:induction false} UndoOne(d0: Disk, p: Proposal, torn: bool, d: Disk)
    requires torn || !p.RenameFile?
    requires Started(d0, p) && !p.ReplaceFiles? && InFlight(d0, p, d) && d.draft == After(d0, p).files != Before(d0)
    requires WellFormed(d.journal.value) && ContentEvidence(d, d.journal.value)
    ensures UndoSteps(d, d.journal.value).Some?
    ensures Exec(d, UndoSteps(d, d.journal.value).value) == d.(draft := Before(d0))
    ensures Stays(d0, p, Mode(false, torn), d, UndoSteps(d, d.journal.value).value)
  {
    var m := Mode(false, torn);
    AfterIsPlausible(d0, p);
    InFlightWithDraft(d0, p, d, Before(d0));
    if p.RenameFile? {
      UndoOfRename(d0, p, d);
      var undo := UndoSteps(d, d.journal.value).value;
      var between := ApplyStep(d, undo[0]);
      TornUndo(d0, p, between);
      hide UndoSteps, InFlight, Interrupted, ContentEvidence;
      StaysOne(d0, p, m, d, undo[0]);
      StaysOne(d0, p, m, between, undo[1]);
      StaysConcat(d0, p, m, d, [undo[0]], [undo[1]]);
      assert [undo[0]] + [undo[1]] == undo;
      ExecTwo(d, undo[0], undo[1]);
    } else {
      UndoIsOneStep(d0, p, d);
      var undo := UndoSteps(d, d.journal.value).value;
      hide UndoSteps, InFlight, ContentEvidence;
      StaysOne(d0, p, m, d, undo[0]);
      assert undo == [undo[0]];
    }
  }

  /** The rollback, up to the cleanup of its evidence. */
  function RollbackSteps(d: Disk, j: Journal): seq<Step>
    requires WellFormed(j) && ContentEvidence(d, j)
  {
    match UndoSteps(d, j)
    case None => []
    case Some(undo) => undo + [WriteControlManifest(j.beforeDigest), WriteControlState(ControlOf(d.row))]
  }

  lemma {:induction false} RolledBack(d0: Disk, p: Proposal, torn: bool, d: Disk)
    requires Started(d0, p) && InFlight(d0, p, d) && (torn || !p.RenameFile?)
    ensures WellFormed(d.journal.value) && ContentEvidence(d, d.journal.value)
    ensures Stays(d0, p, Mode(false, torn), d, RollbackSteps(d, d.journal.value))
    ensures Exec(d, RollbackSteps(d, d.journal.value)) == d.(draft := Before(d0))
    ensures ReconcileSteps(d) == RollbackSteps(d, d.journal.value) + CleanupSteps(d.journal.value)
  {
    var j := d.journal.value;
    InFlightIsNotInterrupted(d0, p, d);
    DraftIsUndone(d0, p, torn, d);
    var undo := UndoSteps(d, j).value;
    var control := [WriteControlManifest(j.beforeDigest), WriteControlState(ControlOf(d.row))];
    assert ReconcileSteps(d) == undo + control + CleanupSteps(j);
    RewriteControl(d0, p, torn, d.(draft := Before(d0)));
    hide *;
    StaysConcat(d0, p, Mode(false, torn), d, undo, control);
    ExecConcat(d, undo, control);
  }

  /** An update that is not durable is rolled back to the very disk the mutation started from. */
  lemma {:induction false} ReconcileInFlight(d0: Disk, p: Proposal, d: Disk)
    requires Started(d0, p) && InFlight(d0, p, d)
    ensures Stays(d0, p, Mode(false, true), d, ReconcileSteps(d)) && Exec(d, ReconcileSteps(d)) == d0
  {
    RolledBack(d0, p, true, d);
    var j := d.journal.value;
    var d1 := d.(draft := Before(d0));
    AfterIsPlausible(d0, p);
    assert InFlight(d0, p, d1) && Cleaned(d1) == d0 && Idle(d0, Cleaned(d1));
    CleanupStays(d0, p, Mode(false, true), d1, j.phase);
    var rollback := RollbackSteps(d, j);
    hide *;
    StaysConcat(d0, p, Mode(false, true), d, rollback, CleanupSteps(j));
    ExecConcat(d, rollback, CleanupSteps(j));
  }

  /** Rewriting control records that already hold the old values. */
  lemma {:induction false} RewriteControl(d0: Disk, p: Proposal, torn: bool, d: Disk)
    requires Started(d0, p) && d == d0.(journal := d.journal, recovery := d.recovery)
    requires JournalIn(d0, p, d, {Prepared, FilesApplied})
    requires d.recovery == Evidence(d0, p)
    ensures var steps := [WriteControlManifest(d.journal.value.beforeDigest), WriteControlState(ControlOf(d.row))];
      Stays(d0, p, Mode(false, torn), d, steps) && Exec(d, steps) == d && InFlight(d0, p, d)
  {
    AfterIsPlausible(d0, p);
    var manifest, control := WriteControlManifest(d.journal.value.beforeDigest), WriteControlState(ControlOf(d.row));
    assert ApplyStep(d, manifest) == d && ApplyStep(d, control) == d;
    StaysOne(d0, p, Mode(false, torn), d, manifest);
    StaysOne(d0, p, Mode(false, torn), d, control);
    StaysConcat(d0, p, Mode(false, torn), d, [manifest], [control]);
    assert [manifest] + [control] == [manifest, control];
    ExecTwo(d, manifest, control);
  }

  // ----- all runs

  function Cut(d: Disk, steps: seq<Step>, k: nat): Disk {
    Exec(d, if k <= |steps| then steps[..k] else steps)
  }

  /** One crashing reconciliation after the other, each cut after the given number of steps. */
  function Crashes(d: Disk, cuts: seq<nat>): Disk
    decreases |cuts|
  {
    if cuts == [] then d else Crashes(Cut(d, ReconcileSteps(d), cuts[0]), cuts[1..])
  }

  function Reconciled(d: Disk): Disk {
    Exec(d, ReconcileSteps(d))
  }

  lemma {:induction false} ReconcileStays(d0: Disk, p: Proposal, durable: bool, d: Disk)
    requires Started(d0, p) && InRun(d0, p, Mode(durable, true), d)
    ensures Stays(d0, p, Mode(durable, true), d, ReconcileSteps(d))
    ensures if Interrupted(d) then Reconciled(d).row.state == NeedsAttention
            else Reconciled(d) == if durable then Finished(d0, p) else d0
  {
    if Interrupted(d) {
      InterruptedIsMarked(d0, p, Mode(durable, true), d);
    } else if durable {
      if Committed(d0, p, d) { ReconcileCommitted(d0, p, d); } else { ReconcileDone(d0, p, true, d); }
    } else {
      if Idle(d0, d) { ReconcileIdle(d0, p, true, d); } else { ReconcileInFlight(d0, p, d); }
    }
  }

  lemma {:induction false} CrashesStay(d0: Disk, p: Proposal, durable: bool, d: Disk, cuts: seq<nat>)
    requires Started(d0, p) && InRun(d0, p, Mode(durable, true), d)
    ensures InRun(d0, p, Mode(durable, true), Crashes(d, cuts))
    decreases |cuts|
  {
    hide InRun, ReconcileSteps;
    if cuts != [] {
      var steps := ReconcileSteps(d);
      var k := if cuts[0] <= |steps| then cuts[0] else |steps|;
      ReconcileStays(d0, p, durable, d);
      assert steps[..|steps|] == steps;
      StaysAtPrefix(d0, p, Mode(durable, true), d, steps, k);
      CrashesStay(d0, p, durable, Cut(d, steps, cuts[0]), cuts[1..]);
    }
  }

  /**
   * Atomicity over every crash schedule. Whatever prefix of the mutation survives and
   * however often reconciliation is cut short, a final reconciliation either finds the
   * disk interrupted and fails closed, or leaves exactly the disk the mutation started
   * from (the update was not durable) or exactly the finished one (it was).
   */
  lemma {:induction false} MutationIsAtomic(d0: Disk, p: Proposal, k: nat, cuts: seq<nat>)
    requires Settled(d0) && Acceptable(d0.row.draftDigest.files, p) && k <= |MutationSteps(d0, p)|
    ensures var d := Crashes(Exec(d0, MutationSteps(d0, p)[..k]), cuts);
            if Interrupted(d) then Reconciled(d).row.state == NeedsAttention
            else Reconciled(d) == if k < DatabaseSteps(d0, p) then d0 else Exec(d0, MutationSteps(d0, p))
  {
    hide InRun, ReconcileSteps, MutationSteps, Interrupted;
    MutationStays(d0, p, true, k);
    var durable := k >= DatabaseSteps(d0, p);
    var d1 := Exec(d0, MutationSteps(d0, p)[..k]);
    CrashesStay(d0, p, durable, d1, cuts);
    ReconcileStays(d0, p, durable, Crashes(d1, cuts));
  }

  lemma RunIsNotInterrupted(d0: Disk, p: Proposal, durable: bool, d: Disk)
    requires Started(d0, p) && InRun(d0, p, Mode(durable, false), d)
    ensures !Interrupted(d) && InRun(d0, p, Mode(durable, true), d)
  {
    if d.journal.Some? {
      InFlightIsNotInterrupted(d0, p, d);
    }
  }

  /** A finished mutation leaves a workspace at rest, ready for the next one. */
  lemma FinishedIsSettled(d0: Disk, p: Proposal)
    requires Started(d0, p)
    ensures Settled(Finished(d0, p))
    ensures Finished(d0, p).draft == AfterFiles(d0.draft, p) && Finished(d0, p).row.revision == d0.row.revision + 1
  {
  }

  // ----- where a crash cannot be undone

  lemma {:induction false} DropsStayCut(d: Disk, steps: seq<Step>)
    requires d.journal.Some? && d.recovery.afterManifest.None? && forall i | 0 <= i < |steps| :: IsDrop(steps[i])
    ensures Exec(d, steps).journal == d.journal && Exec(d, steps).recovery.afterManifest.None?
    decreases |steps|
  {
    if steps != [] {
      assert IsDrop(steps[0]);
      DropsStayCut(ApplyStep(d, steps[0]), steps[1..]);
    }
  }

  /** Cleanup steps after which the evidence is incomplete: the old content goes first, if there is one. */
  function HarmlessDrops(kind: Kind): nat {
    if NeedsContent(kind) then 0 else 1
  }

  /** Inside its evidence cleanup a mutation is interrupted as soon as one evidence file is gone. */
  lemma {:induction false} CleanupIsNotAtomic(d0: Disk, p: Proposal, d: Disk, phase: Phase, c: nat)
    requires Started(d0, p) && d.journal == Some(JournalAt(d0, p, phase)) && d.recovery == Evidence(d0, p)
    requires c < |CleanupSteps(JournalAt(d0, p, phase))|
    ensures c <= HarmlessDrops(KindOf(p)) ==> Exec(d, CleanupSteps(JournalAt(d0, p, phase))[..c]) == d
    ensures c > HarmlessDrops(KindOf(p)) ==> Interrupted(Exec(d, CleanupSteps(JournalAt(d0, p, phase))[..c]))
  {
    var j := JournalAt(d0, p, phase);
    var steps := CleanupSteps(j)[..c];
    var a, b := DropRecovery(BeforeContent), DropRecovery(AfterManifest);
    if c == 1 {
      assert steps == [a];
      ExecOne(d, a);
    } else if c >= 2 {
      var rest := steps[2..];
      assert steps == [a, b] + rest && forall i | 0 <= i < |rest| :: IsDrop(rest[i]);
      ExecTwo(d, a, b);
      DropsStayCut(Exec(d, [a, b]), rest);
      ExecConcat(d, [a, b], rest);
    }
  }

  /** The number of steps after which a mutation starts to remove its evidence. */
  function CleanupStart(d0: Disk, p: Proposal): nat
    requires Started(d0, p)
  {
    DatabaseSteps(d0, p) + |PublishAfterDatabase(d0, p)|
  }

  lemma {:induction false} ExecInsideCleanup(d0: Disk, p: Proposal, c: nat)
    requires Started(d0, p) && CleanupStart(d0, p) + c < |MutationSteps(d0, p)|
    ensures var d := Finished(d0, p).(journal := Some(JournalAt(d0, p, ControlCommitted)), recovery := Evidence(d0, p));
      && c < |CleanupSteps(JournalAt(d0, p, ControlCommitted))|
      && Exec(d0, MutationSteps(d0, p)[..CleanupStart(d0, p) + c])
         == Exec(d, CleanupSteps(JournalAt(d0, p, ControlCommitted))[..c])
  {
    var publish, cleanup := PublishAfterDatabase(d0, p), CleanupSteps(JournalAt(d0, p, ControlCommitted));
    PublishedAfterDatabase(d0, p, true);
    StepsAfterSplit(d0, p);
    MutationFinishes(d0, p);
    hide MutationSteps, StepsBeforeDatabase, StepsAfterDatabase, PublishAfterDatabase, CleanupSteps, Updated, Exec,
      Stays, Finished, Evidence;
    ExecPastDatabase(d0, p, |publish| + c);
    assert (publish + cleanup)[..|publish| + c] == publish + cleanup[..c];
    ExecConcat(Updated(d0, p), publish, cleanup[..c]);
  }

  lemma {:induction false} InsideCleanup(d0: Disk, p: Proposal, c: nat)
    requires Started(d0, p) && CleanupStart(d0, p) + c < |MutationSteps(d0, p)|
    ensures Interrupted(Exec(d0, MutationSteps(d0, p)[..CleanupStart(d0, p) + c])) <==> c > HarmlessDrops(KindOf(p))
    ensures c <= HarmlessDrops(KindOf(p))
        ==> InRun(d0, p, Mode(true, false), Exec(d0, MutationSteps(d0, p)[..CleanupStart(d0, p) + c]))
  {
    var d := Finished(d0, p).(journal := Some(JournalAt(d0, p, ControlCommitted)), recovery := Evidence(d0, p));
    ExecInsideCleanup(d0, p, c);
    CleanupIsNotAtomic(d0, p, d, ControlCommitted, c);
    if c <= HarmlessDrops(KindOf(p)) {
      CleanupStartsClean(d0, p);
      hide *;
      ExecInsideCleanup(d0, p, 0);
      CleanupIsNotAtomic(d0, p, d, ControlCommitted, 0);
      MutationStays(d0, p, false, CleanupStart(d0, p));
      RunIsNotInterrupted(d0, p, true, Exec(d0, MutationSteps(d0, p)[..CleanupStart(d0, p)]));
    }
  }

  lemma CleanupStartsClean(d0: Disk, p: Proposal)
    requires Started(d0, p)
    ensures CleanPoint(d0, p, CleanupStart(d0, p)) && CleanupStart(d0, p) >= DatabaseSteps(d0, p)
    ensures CleanupStart(d0, p) + 0 == CleanupStart(d0, p)
    ensures 0 <= HarmlessDrops(KindOf(p))
  {
    if p.RenameFile? { RenameComesEarly(d0, p); }
  }

  lemma RenameComesEarly(d0: Disk, p: Proposal)
    requires Started(d0, p) && p.RenameFile?
    ensures |RecoverySteps(d0, p)| + 2 < DatabaseSteps(d0, p)
  {
    hide RecoverySteps, JournalAt, Settled;
    assert |DraftSteps(Before(d0), p)| == 2;
  }

  /** The crash points of a mutation that cannot be recovered from. */
  predicate TornPoint(d0: Disk, p: Proposal, k: nat)
    requires Started(d0, p)
  {
    || BetweenRenameSteps(d0, p, k)
    || CleanupStart(d0, p) + HarmlessDrops(KindOf(p)) < k < |MutationSteps(d0, p)|
  }

  /**
   * The crash points that cannot be recovered from, exactly: between the two filesystem
   * steps of a rename, and inside the evidence cleanup, so that a finished update is
   * among what is lost.
   */
  lemma {:induction false} UnrecoverableCrashPoints(d0: Disk, p: Proposal, k: nat)
    requires Settled(d0) && Acceptable(d0.row.draftDigest.files, p) && k <= |MutationSteps(d0, p)|
    ensures var d := Exec(d0, MutationSteps(d0, p)[..k]);
      && (Interrupted(d) <==> TornPoint(d0, p, k))
      && (!Interrupted(d) ==> InRun(d0, p, Mode(k >= DatabaseSteps(d0, p), false), d))
  {
    assert Started(d0, p);
    CleanupStartsClean(d0, p);
    hide MutationSteps, Interrupted, Exec, InRun, Finished, Evidence, Started, Settled, Acceptable, HarmlessDrops,
      KindOf, PublishAfterDatabase, StepsBeforeDatabase, RecoverySteps, DatabaseSteps, CleanPoint, JournalAt,
      AfterFiles, CleanupSteps, Committed, Done, Idle, InFlight;
    if CleanupStart(d0, p) < k < |MutationSteps(d0, p)| {
      var c := k - CleanupStart(d0, p);
      InsideCleanup(d0, p, c);
      assert CleanupStart(d0, p) + c == k;
      if p.RenameFile? { RenameComesEarly(d0, p); }
    } else if BetweenRenameSteps(d0, p, k) {
      RenameTears(d0, p);
    } else {
      PointIsClean(d0, p, k);
      CleanPointStays(d0, p, k);
    }
  }

  lemma PointIsClean(d0: Disk, p: Proposal, k: nat)
    requires Started(d0, p) && k <= |MutationSteps(d0, p)| && !BetweenRenameSteps(d0, p, k)
    requires k <= CleanupStart(d0, p) || k == |MutationSteps(d0, p)|
    ensures CleanPoint(d0, p, k)
  {
    hide MutationSteps, PublishAfterDatabase, StepsBeforeDatabase, RecoverySteps, DatabaseSteps;
  }

  lemma {:induction false} CleanPointStays(d0: Disk, p: Proposal, k: nat)
    requires Started(d0, p) && k <= |MutationSteps(d0, p)| && CleanPoint(d0, p, k)
    ensures var d := Exec(d0, MutationSteps(d0, p)[..k]);
      !Interrupted(d) && InRun(d0, p, Mode(k >= DatabaseSteps(d0, p), false), d)
  {
    hide InRun, Interrupted, Exec, MutationSteps, CleanPoint, DatabaseSteps, Settled, Acceptable;
    MutationStays(d0, p, false, k);
    RunIsNotInterrupted(d0, p, k >= DatabaseSteps(d0, p), Exec(d0, MutationSteps(d0, p)[..k]));
  }

  /** A rename cut between its two filesystem steps cannot be recovered from. */
  lemma {:induction false} RenameTears(d0: Disk, p: Proposal)
    requires Settled(d0) && Acceptable(d0.row.draftDigest.files, p) && p.RenameFile?
    ensures |RecoverySteps(d0, p)| + 2 <= |MutationSteps(d0, p)|
    ensures Interrupted(Exec(d0, MutationSteps(d0, p)[..|RecoverySteps(d0, p)| + 2]))
  {
    var recovery := RecoverySteps(d0, p);
    var journal, put := WriteJournal(JournalAt(d0, p, Prepared)), PutDraft(p.destination, Before(d0)[p.source]);
    EvidenceIsSaved(d0, p);
    var d1 := Exec(d0, recovery);
    ExecTwo(d1, journal, put);
    TornRename(d0, p, ApplyStep(ApplyStep(d1, journal), put));
    assert MutationSteps(d0, p)[..|recovery| + 2] == recovery + [journal, put];
    ExecConcat(d0, recovery, [journal, put]);
  }

  /** Once interrupted, the workspace ends in needs_attention on every further schedule. */
  lemma {:induction false} InterruptedIsFinal(d: Disk, cuts: seq<nat>)
    requires Interrupted(d)
    ensures Interrupted(Crashes(d, cuts)) && Reconciled(Crashes(d, cuts)).row.state == NeedsAttention
    decreases |cuts|
  {
    InterruptedIsNotResolved(d);
    var steps := AttentionSteps(d.row, JournalReason(d, d.journal.value));
    hide ReconcileSteps, JournalReason, Interrupted;
    var next := if steps == [] then d.row else steps[0].next;
    InterruptedIgnoresRow(d, next, ControlOf(next));
    if steps != [] {
      ExecTwo(d, steps[0], steps[1]);
      ExecOne(d, steps[0]);
      assert steps == [steps[0], steps[1]] && steps[..1] == [steps[0]] && steps[..2] == steps;
    }
    assert steps[..0] == [];
    if cuts != [] {
      assert Interrupted(Cut(d, steps, cuts[0]));
      InterruptedIsFinal(Cut(d, steps, cuts[0]), cuts[1..]);
    }
  }

  // ----- where a crash of reconciliation cannot be undone

  /** Steps that reconciliation takes before it starts to remove evidence behind a journal. */
  function StepsBeforeCleanup(d: Disk): int {
    match d.journal
    case None => |ReconcileSteps(d)|
    case Some(j) => |ReconcileSteps(d)| - |CleanupSteps(j)|
  }

  /** Reconciliation begins by undoing a rename: it drops the new file, then puts the old one back. */
  predicate UndoesRename(d: Disk) {
    match d.journal
    case None => false
    case Some(j) => j.kind == Rename && d.row.revision == j.expectedRevision && d.draft != j.beforeDigest.files
  }

  /** The cuts of a reconciliation that cannot be recovered from. */
  predicate TornCut(d: Disk, c: nat) {
    || (UndoesRename(d) && c == 1)
    || (d.journal.Some? && StepsBeforeCleanup(d) + HarmlessDrops(d.journal.value.kind) < c < |ReconcileSteps(d)|)
  }

  /** A cut behind some steps that keep the run, inside the evidence cleanup that follows them. */
  lemma {:induction false} CleanupCut(d0: Disk, p: Proposal, durable: bool, d: Disk, first: seq<Step>, phase: Phase,
                                      c: nat)
    requires Started(d0, p)
    requires var t := Exec(d, first);
      InRun(d0, p, Mode(durable, false), t) && t.journal == Some(JournalAt(d0, p, phase))
        && t.recovery == Evidence(d0, p)
    requires |first| <= c < |first| + |CleanupSteps(JournalAt(d0, p, phase))|
    ensures var t := Exec(d, (first + CleanupSteps(JournalAt(d0, p, phase)))[..c]);
      if c - |first| > HarmlessDrops(KindOf(p)) then Interrupted(t) else InRun(d0, p, Mode(durable, false), t)
  {
    var cleanup, n := CleanupSteps(JournalAt(d0, p, phase)), c - |first|;
    CleanupIsNotAtomic(d0, p, Exec(d, first), phase, n);
    hide *;
    assert (first + cleanup)[..c] == first + cleanup[..n];
    ExecConcat(d, first, cleanup[..n]);
  }

  lemma {:induction false} FirstPartCut(d0: Disk, p: Proposal, m: Mode, d: Disk, first: seq<Step>, rest: seq<Step>,
                                        c: nat)
    requires Started(d0, p) && Stays(d0, p, m, d, first) && c <= |first|
    ensures InRun(d0, p, m, Exec(d, (first + rest)[..c]))
  {
    hide *;
    assert (first + rest)[..c] == first[..c];
    StaysAtPrefix(d0, p, m, d, first, c);
  }

  /** What is to be shown of one cut. */
  predicate CutAsTold(d0: Disk, p: Proposal, durable: bool, d: Disk, c: nat)
    requires Started(d0, p)
  {
    var t := Cut(d, ReconcileSteps(d), c);
    if TornCut(d, c) then Interrupted(t) else InRun(d0, p, Mode(durable, false), t)
  }

  /** A cut of the two parts, as steps of the one or the other. */
  lemma CutOfParts(d: Disk, j: Journal, first: seq<Step>, c: nat)
    requires d.journal == Some(j) && ReconcileSteps(d) == first + CleanupSteps(j)
    ensures Cut(d, ReconcileSteps(d), c) ==
            if c <= |first| then Exec(d, first[..c])
            else if c < |ReconcileSteps(d)| then Exec(d, (first + CleanupSteps(j))[..c]) else Reconciled(d)
    ensures TornCut(d, c) <==> (UndoesRename(d) && c == 1)
                               || |first| + HarmlessDrops(j.kind) < c < |first| + |CleanupSteps(j)|
  {
    hide ReconcileSteps, CleanupSteps, Exec, UndoesRename, HarmlessDrops;
    var steps := ReconcileSteps(d);
    if c <= |first| {
      assert steps[..c] == first[..c];
    } else if c >= |steps| {
      assert steps[..|steps|] == steps;
    }
  }

  lemma {:induction false} CommittedCut(d0: Disk, p: Proposal, d: Disk, c: nat)
    requires Started(d0, p) && Committed(d0, p, d)
    ensures CutAsTold(d0, p, true, d, c)
  {
    var j, first := d.journal.value, PublishSteps(d0, p, d);
    ReconcileCommitted(d0, p, d);
    PublishControl(d0, p, false, d);
    PublishedKeepsJournal(d0, p, d);
    RestIsInRun(d0, p);
    CommittedParts(d0, p, d);
    hide *;
    CutOfParts(d, j, first, c);
    if c <= |first| {
      FirstPartCut(d0, p, Mode(true, false), d, first, [], c);
      assert first + [] == first;
    } else if c < |ReconcileSteps(d)| {
      CleanupCut(d0, p, true, d, first, j.phase, c);
    }
  }

  lemma CommittedParts(d0: Disk, p: Proposal, d: Disk)
    requires Started(d0, p) && Committed(d0, p, d)
    ensures d.journal == Some(JournalAt(d0, p, d.journal.value.phase)) && d.journal.value.kind == KindOf(p)
    ensures !UndoesRename(d)
  {
  }

  lemma PublishedKeepsJournal(d0: Disk, p: Proposal, d: Disk)
    requires Started(d0, p) && Committed(d0, p, d)
    ensures var t := Exec(d, PublishSteps(d0, p, d));
      t.journal == d.journal && t.recovery == Evidence(d0, p) && InRun(d0, p, Mode(true, false), t)
  {
    PublishControl(d0, p, false, d);
    assert PublishSteps(d0, p, d)[..|PublishSteps(d0, p, d)|] == PublishSteps(d0, p, d);
    StaysAtPrefix(d0, p, Mode(true, false), d, PublishSteps(d0, p, d), |PublishSteps(d0, p, d)|);
  }

  lemma RestIsInRun(d0: Disk, p: Proposal)
    requires Started(d0, p)
    ensures InRun(d0, p, Mode(false, false), d0) && InRun(d0, p, Mode(true, false), Finished(d0, p))
  {
  }

  /** What a rollback starts with and what it leaves for the cleanup. */
  lemma {:induction false} InFlightParts(d0: Disk, p: Proposal, d: Disk)
    requires Started(d0, p) && InFlight(d0, p, d)
    ensures d.journal == Some(JournalAt(d0, p, d.journal.value.phase)) && d.journal.value.kind == KindOf(p)
    ensures WellFormed(d.journal.value) && ContentEvidence(d, d.journal.value)
    ensures UndoesRename(d) <==> p.RenameFile? && d.draft == After(d0, p).files
    ensures var first, t := RollbackSteps(d, d.journal.value), Exec(d, RollbackSteps(d, d.journal.value));
      && ReconcileSteps(d) == first + CleanupSteps(d.journal.value)
      && t.journal == d.journal && t.recovery == Evidence(d0, p) && InRun(d0, p, Mode(false, false), t)
      && Exec(d, ReconcileSteps(d)) == d0
  {
    RolledBack(d0, p, true, d);
    ReconcileInFlight(d0, p, d);
    AfterIsPlausible(d0, p);
    InFlightWithDraft(d0, p, d, Before(d0));
    if p.RenameFile? { assert p.destination in After(d0, p).files && p.destination !in Before(d0); }
    hide DraftPlausible, RollbackSteps, ReconcileSteps, ContentEvidence, WellFormed;
  }

  /** The two steps that undo a rename, and what the disk is between and after them. */
  lemma {:induction false} RenameRollbackParts(d0: Disk, p: Proposal, d: Disk)
    requires Started(d0, p) && p.RenameFile? && InFlight(d0, p, d) && d.draft == After(d0, p).files
    requires WellFormed(d.journal.value) && ContentEvidence(d, d.journal.value)
    ensures UndoSteps(d, d.journal.value).Some? && |UndoSteps(d, d.journal.value).value| == 2
    ensures var undo := UndoSteps(d, d.journal.value).value;
      Interrupted(Exec(d, [undo[0]])) && Exec(d, undo) == d.(draft := Before(d0))
  {
    var j := d.journal.value;
    UndoOfRename(d0, p, d);
    var undo := UndoSteps(d, j).value;
    TornUndo(d0, p, ApplyStep(d, undo[0]));
    hide InRun, Interrupted, RollbackSteps, UndoSteps, ContentEvidence, Exec, Evidence, AfterFiles;
    ExecTwo(d, undo[0], undo[1]);
    ExecOne(d, undo[0]);
    assert undo == [undo[0], undo[1]];
  }

  /** Rolling a rename back never tears the disk but between the two steps that undo it. */
  lemma {:induction false} RenameRollbackCut(d0: Disk, p: Proposal, d: Disk, c: nat)
    requires Started(d0, p) && p.RenameFile? && InFlight(d0, p, d) && d.draft == After(d0, p).files
    requires WellFormed(d.journal.value) && ContentEvidence(d, d.journal.value)
    requires c <= |RollbackSteps(d, d.journal.value)|
    ensures var t := Exec(d, RollbackSteps(d, d.journal.value)[..c]);
      if c == 1 then Interrupted(t) else InRun(d0, p, Mode(false, false), t)
    ensures |RollbackSteps(d, d.journal.value)| >= 2
  {
    var j := d.journal.value;
    var control := [WriteControlManifest(j.beforeDigest), WriteControlState(ControlOf(d.row))];
    RenameRollbackParts(d0, p, d);
    var undo := UndoSteps(d, j).value;
    var restored := d.(draft := Before(d0));
    var steps := RollbackSteps(d, j);
    assert steps == undo + control;
    RewriteControl(d0, p, false, restored);
    NothingCut(d0, p, d);
    hide *;
    if c == 0 {
      assert steps[..0] == [];
    } else if c == 1 {
      assert steps[..1] == [undo[0]];
    } else {
      assert steps[..c] == undo + control[..c - 2];
      ExecConcat(d, undo, control[..c - 2]);
      StaysAtPrefix(d0, p, Mode(false, false), restored, control, c - 2);
    }
  }

  lemma NothingCut(d0: Disk, p: Proposal, d: Disk)
    requires Started(d0, p) && InFlight(d0, p, d)
    ensures InRun(d0, p, Mode(false, false), Exec(d, []))
  {
  }

  lemma {:induction false} RollbackCut(d0: Disk, p: Proposal, d: Disk, c: nat)
    requires Started(d0, p) && InFlight(d0, p, d)
    requires WellFormed(d.journal.value) && ContentEvidence(d, d.journal.value)
    requires c <= |RollbackSteps(d, d.journal.value)|
    requires UndoesRename(d) <==> p.RenameFile? && d.draft == After(d0, p).files
    ensures var t := Exec(d, RollbackSteps(d, d.journal.value)[..c]);
      if UndoesRename(d) && c == 1 then Interrupted(t) else InRun(d0, p, Mode(false, false), t)
    ensures UndoesRename(d) ==> |RollbackSteps(d, d.journal.value)| >= 2
  {
    var j := d.journal.value;
    if UndoesRename(d) {
      RenameRollbackCut(d0, p, d, c);
    } else if p.RenameFile? {
      var control := [WriteControlManifest(j.beforeDigest), WriteControlState(ControlOf(d.row))];
      RewriteControl(d0, p, false, d);
      assert RollbackSteps(d, j) == control;
      StaysAtPrefix(d0, p, Mode(false, false), d, control, c);
    } else {
      RolledBack(d0, p, false, d);
      hide InRun, RollbackSteps, Stays, Exec;
      StaysAtPrefix(d0, p, Mode(false, false), d, RollbackSteps(d, j), c);
    }
  }

  lemma {:induction false} InFlightCut(d0: Disk, p: Proposal, d: Disk, c: nat)
    requires Started(d0, p) && InFlight(d0, p, d)
    ensures CutAsTold(d0, p, false, d, c)
  {
    InFlightParts(d0, p, d);
    RestIsInRun(d0, p);
    var j, first := d.journal.value, RollbackSteps(d, d.journal.value);
    RollbackCut(d0, p, d, 0);
    hide *;
    CutOfParts(d, j, first, c);
    if c <= |first| {
      RollbackCut(d0, p, d, c);
    } else if c < |ReconcileSteps(d)| {
      CleanupCut(d0, p, false, d, first, j.phase, c);
    }
  }

  lemma {:induction false} QuietCut(d0: Disk, p: Proposal, durable: bool, d: Disk, c: nat)
    requires Started(d0, p) && d.journal.None? && if durable then Done(d0, p, d) else Idle(d0, d)
    ensures CutAsTold(d0, p, durable, d, c)
  {
    if durable { ReconcileDone(d0, p, false, d); } else { ReconcileIdle(d0, p, false, d); }
    var steps := ReconcileSteps(d);
    assert steps[..|steps|] == steps;
    hide InRun, ReconcileSteps, Stays, Exec;
    StaysAtPrefix(d0, p, Mode(durable, false), d, steps, if c <= |steps| then c else |steps|);
  }

  /** The cuts of one reconciliation that cannot be recovered from, exactly; every other cut keeps the run. */
  lemma {:induction false} ReconcileCutPoints(d0: Disk, p: Proposal, durable: bool, d: Disk, c: nat)
    requires Started(d0, p) && InRun(d0, p, Mode(durable, false), d)
    ensures Interrupted(Cut(d, ReconcileSteps(d), c)) <==> TornCut(d, c)
    ensures !TornCut(d, c) ==> InRun(d0, p, Mode(durable, false), Cut(d, ReconcileSteps(d), c))
  {
    if durable {
      if Committed(d0, p, d) { CommittedCut(d0, p, d, c); } else { QuietCut(d0, p, true, d, c); }
    } else {
      if Idle(d0, d) { QuietCut(d0, p, false, d, c); } else { InFlightCut(d0, p, d, c); }
    }
    hide InRun, ReconcileSteps, TornCut, Interrupted, Cut, Started;
    if !TornCut(d, c) { RunIsNotInterrupted(d0, p, durable, Cut(d, ReconcileSteps(d), c)); }
  }

  /** One of the cuts, made at the disk that the earlier ones leave, cannot be recovered from. */
  predicate SomeCutTorn(d: Disk, cuts: seq<nat>)
    decreases |cuts|
  {
    cuts != [] && (TornCut(d, cuts[0]) || SomeCutTorn(Cut(d, ReconcileSteps(d), cuts[0]), cuts[1..]))
  }

  lemma {:induction false} CrashesAreTold(d0: Disk, p: Proposal, durable: bool, d: Disk, cuts: seq<nat>)
    requires Started(d0, p) && InRun(d0, p, Mode(durable, false), d)
    ensures Interrupted(Crashes(d, cuts)) <==> SomeCutTorn(d, cuts)
    decreases |cuts|
  {
    hide InRun, ReconcileSteps, TornCut, Interrupted, Cut, Started;
    if cuts == [] {
      RunIsNotInterrupted(d0, p, durable, d);
    } else {
      ReconcileCutPoints(d0, p, durable, d, cuts[0]);
      var next := Cut(d, ReconcileSteps(d), cuts[0]);
      if TornCut(d, cuts[0]) {
        InterruptedIsFinal(next, cuts[1..]);
      } else {
        CrashesAreTold(d0, p, durable, next, cuts[1..]);
      }
    }
  }

  /**
   * When recovery succeeds, exactly: over every schedule of crashes the last reconciliation
   * leaves the disk the mutation started from, or the finished one, if and only if neither
   * the mutation nor any reconciliation was cut at one of the points told above; otherwise
   * it leaves the workspace marked.
   */
  lemma {:induction false} MutationRecovers(d0: Disk, p: Proposal, k: nat, cuts: seq<nat>)
    requires Settled(d0) && Acceptable(d0.row.draftDigest.files, p) && k <= |MutationSteps(d0, p)|
    ensures var d1 := Exec(d0, MutationSteps(d0, p)[..k]);
      var end, outcome := Reconciled(Crashes(d1, cuts)), if k < DatabaseSteps(d0, p) then d0
        else Exec(d0, MutationSteps(d0, p));
      && (end == outcome <==> !TornPoint(d0, p, k) && !SomeCutTorn(d1, cuts))
      && (end == outcome || end.row.state == NeedsAttention)
  {
    var d1 := Exec(d0, MutationSteps(d0, p)[..k]);
    UnrecoverableCrashPoints(d0, p, k);
    MutationIsAtomic(d0, p, k, cuts);
    MutationFinishes(d0, p);
    OutcomeIsReady(d0, p);
    hide InRun, ReconcileSteps, TornPoint, SomeCutTorn, Interrupted, MutationSteps, Finished, Exec, DatabaseSteps;
    if TornPoint(d0, p, k) {
      InterruptedIsFinal(d1, cuts);
    } else {
      CrashesAreTold(d0, p, k >= DatabaseSteps(d0, p), d1, cuts);
    }
  }

  lemma OutcomeIsReady(d0: Disk, p: Proposal)
    requires Started(d0, p)
    ensures d0.row.state == Ready && Finished(d0, p).row.state == Ready
  {
  }
}
