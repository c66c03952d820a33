// Reconciliation of a workspace whose journal is gone (internal/config/reconcile.go).
module LostJournal {
  import opened CrashRecovery
  import opened FileMutation
  import opened Outcomes
  import opened WorkspaceDisk

  /** What reconciliation checks on a ready workspace without a journal; no other state is checked. */
  predicate Verified(d: Disk) {
    d.row.state == Ready ==>
      && d.controlState.revision <= d.row.revision && d.controlState.state == Ready
      && d.controlManifest == d.row.draftDigest && BaseVerified(d) && d.draft == d.row.draftDigest.files
  }

  /** A workspace that passes: its orphaned evidence is gone and an older control record is renewed. */
  function Checked(d: Disk): Disk {
    var isOld := d.row.state == Ready && d.controlState.revision < d.row.revision;
    d.(recovery := NO_RECOVERY, controlState := if isOld then ControlOf(d.row) else d.controlState)
  }

  /** A workspace that reconciliation leaves alone. */
  predicate Quiet(d: Disk) {
    Verified(d) && d.recovery == NO_RECOVERY && (d.row.state == Ready ==> d.controlState.revision == d.row.revision)
  }

  /** Every disk that cut reconciliations leave of one without a journal. */
  predicate Left(d0: Disk, d: Disk) {
    && d0.journal.None?
    && d == d0.(row := d.row, controlState := d.controlState, recovery := d.recovery)
    && (d0.recovery == NO_RECOVERY ==> d.recovery == NO_RECOVERY)
    && (if d.row == d0.row then
          d.controlState == d0.controlState || (Verified(d0) && d.controlState == Checked(d0).controlState)
        else !Verified(d0) && d.row.state == NeedsAttention)
  }

  lemma LeftIsVerified(d0: Disk, d: Disk)
    requires Left(d0, d)
    ensures d.row == d0.row ==> (Verified(d) <==> Verified(d0))
    ensures Verified(d) && d.row == d0.row ==> Checked(d) == Checked(d0)
    ensures d.row != d0.row ==> VerifySteps(d) == []
  {
  }

  lemma {:induction false} LeftWhileDropping(d0: Disk, d: Disk, steps: seq<Step>, k: nat)
    requires Left(d0, d) && k <= |steps| && forall i | 0 <= i < |steps| :: IsDrop(steps[i])
    ensures Left(d0, Exec(d, steps[..k]))
    decreases k
  {
    if k == 0 {
      assert steps[..0] == [];
    } else {
      assert IsDrop(steps[0]);
      assert steps[..k][1..] == steps[1..][..k - 1];
      LeftWhileDropping(d0, ApplyStep(d, steps[0]), steps[1..], k - 1);
    }
  }

  /** The row that marks a workspace for attention. */
  function Marked(row: Row, reason: string): Row {
    row.(state := NeedsAttention, reason := reason, revision := row.revision + 1)
  }

  /** The checks renew an older control record, mark the workspace, or do nothing. */
  lemma ChecksAre(d: Disk) returns (reason: string)
    ensures VerifySteps(d) ==
            if !Verified(d) then
              [UpdateRow(d.row.revision, Marked(d.row, reason)), WriteControlState(ControlOf(Marked(d.row, reason)))]
            else if d.row.state == Ready
              && d.controlState.revision < d.row.revision then [WriteControlState(ControlOf(d.row))]
            else []
  {
    hide BaseVerified, ControlOf;
    reason := if Verified(d) then "" else VerifySteps(d)[0].next.reason;
  }

  /** The checks behind the orphaned evidence, cut anywhere and whole. */
  lemma {:induction false} LeftWhileChecking(d0: Disk, d: Disk, k: nat)
    requires Left(d0, d) && k <= |VerifySteps(d)|
    ensures Left(d0, Exec(d.(recovery := NO_RECOVERY), VerifySteps(d)[..k]))
    ensures var e := Exec(d.(recovery := NO_RECOVERY), VerifySteps(d));
      if Verified(d0) then e == Checked(d0) else e.row.state == NeedsAttention && e.row != d0.row
  {
    LeftIsVerified(d0, d);
    var reason := ChecksAre(d);
    var d1, steps := d.(recovery := NO_RECOVERY), VerifySteps(d);
    hide VerifySteps, Verified, Exec;
    assert steps[..0] == [] && steps[..|steps|] == steps;
    ExecNone(d1);
    if |steps| == 1 {
      ExecOne(d1, steps[0]);
      assert steps == [steps[0]];
    } else if |steps| == 2 {
      ExecOne(d1, steps[0]);
      ExecTwo(d1, steps[0], steps[1]);
      assert steps == [steps[0], steps[1]] && steps[..1] == [steps[0]];
    }
  }

  lemma ExecNone(d: Disk)
    ensures Exec(d, []) == d
  {
  }

  /** Reconciliation without a journal, cut anywhere and whole. */
  lemma {:induction false} RestIsLeft(d0: Disk, d: Disk, k: nat)
    requires Left(d0, d) && k <= |ReconcileSteps(d)|
    ensures Left(d0, Exec(d, ReconcileSteps(d)[..k]))
    ensures if Verified(d0) then Reconciled(d) == Checked(d0)
            else Reconciled(d).row.state == NeedsAttention && Reconciled(d).row != d0.row
    ensures Left(d0, Reconciled(d))
  {
    var orphans, checks, steps := OrphanSteps(d.recovery), VerifySteps(d), ReconcileSteps(d);
    OrphansAreRemoved(d);
    LeftWhileChecking(d0, d, |checks|);
    hide *;
    assert steps == orphans + checks;
    assert checks[..|checks|] == checks;
    ExecConcat(d, orphans, checks);
    if k <= |orphans| {
      assert steps[..k] == orphans[..k];
      LeftWhileDropping(d0, d, orphans, k);
    } else {
      assert steps[..k] == orphans + checks[..k - |orphans|];
      ExecConcat(d, orphans, checks[..k - |orphans|]);
      LeftWhileChecking(d0, d, k - |orphans|);
    }
  }

  /** Reconciliation gives back what it started from exactly when there was nothing to do. */
  lemma QuietIsExact(d0: Disk, d: Disk)
    requires Left(d0, d)
    ensures Reconciled(d) == d0 <==> Quiet(d0)
  {
    RestIsLeft(d0, d, 0);
    hide Reconciled, ReconcileSteps;
  }

  lemma CheckedOfDurable(d0: Disk, p: Proposal, d: Disk)
    requires Started(d0, p) && (Committed(d0, p, d) || Done(d0, p, d))
    ensures var e := d.(journal := None);
      && (Verified(e) <==> d.controlManifest == After(d0, p) && d.baseManifest.Some?)
      && (Verified(e) ==> Checked(e) == Finished(d0, p))
  {
    hide AfterFiles, Evidence, JournalIn, Acceptable;
  }

  lemma CheckedOfPending(d0: Disk, p: Proposal, d: Disk)
    requires Started(d0, p) && (Idle(d0, d) || InFlight(d0, p, d))
    ensures var e := d.(journal := None);
      && (Verified(e) <==> d.draft == Before(d0))
      && (Verified(e) ==> Checked(e) == d0)
  {
    hide AfterFiles, Evidence, JournalIn, Acceptable, DraftPlausible;
  }

  /**
   * An interrupted mutation that loses its journal can only be recovered if the disk
   * already agrees with the outcome; with its journal it always can.
   */
  lemma JournalLost(d0: Disk, p: Proposal, durable: bool, d: Disk)
    requires Started(d0, p) && InRun(d0, p, Mode(durable, false), d)
    ensures var e, outcome := Reconciled(d.(journal := None)), if durable then Finished(d0, p) else d0;
      && Reconciled(d) == outcome
      && (e == outcome <==> if durable then d.controlManifest == After(d0, p) && d.baseManifest.Some?
                            else d.draft == Before(d0))
      && (e == outcome || e.row.state == NeedsAttention)
  {
    var e := d.(journal := None);
    RunIsNotInterrupted(d0, p, durable, d);
    ReconcileStays(d0, p, durable, d);
    if durable { CheckedOfDurable(d0, p, d); } else { CheckedOfPending(d0, p, d); }
    RestIsLeft(e, e, 0);
    OutcomeIsReady(d0, p);
    hide InRun, Started, Stays, ReconcileSteps, Verified, Checked, Finished;
  }
}
