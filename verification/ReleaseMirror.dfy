// Mirroring a release log (internal/config/release_service.go).
module ReleaseMirror {
  import opened Outcomes
  import opened TaskLog

  datatype Name =
    | AtQueued | Rechecking | BackupCreating | BackupVerified | CandidateValidated | FilesApplying | FilesApplied
    | ProductionValidated | ReloadRequested | RuntimeConfirmed | Committed
    | RollbackApplying | RollbackFilesRestored | RollbackValidated | RollbackReloadRequested | AtRolledBack
    | AtFailed | AtNeedsAttention | OtherName

  /** Anything an Agent may answer. */
  datatype Reply = Reply(release: string, state: State, stage: Name, backup: Evidence, stages: seq<Stage<Name>>,
                         errorCode: string, finishedAt: int)

  // ----- the pure checks

  function StateFor(name: Name): State {
    match name
    case AtQueued => Queued
    case Committed => Succeeded
    case AtRolledBack => RolledBack
    case AtNeedsAttention => NeedsAttention
    case AtFailed => Failed
    case RollbackApplying => RollingBack
    case RollbackFilesRestored => RollingBack
    case RollbackValidated => RollingBack
    case RollbackReloadRequested => RollingBack
    case OtherName => NeedsAttention
    case _ => Running
  }

  predicate IsTerminal(name: Name) {
    Terminal(StateFor(name))
  }

  function Order(name: Name): int {
    match name
    case AtQueued => 0
    case Rechecking => 1
    case BackupCreating => 2
    case BackupVerified => 3
    case CandidateValidated => 4
    case FilesApplying => 5
    case FilesApplied => 6
    case ProductionValidated => 7
    case ReloadRequested => 8
    case RuntimeConfirmed => 9
    case Committed => 10
    case RollbackApplying => 20
    case RollbackFilesRestored => 21
    case RollbackValidated => 22
    case RollbackReloadRequested => 23
    case AtRolledBack => 24
    case AtFailed => 30
    case AtNeedsAttention => 31
    case OtherName => -1
  }

  predicate ValidStages(stages: seq<Stage<Name>>, id: string) {
    forall i | 0 <= i < |stages| :: ValidStageAt(stages, id, i)
  }

  predicate ValidStageAt(stages: seq<Stage<Name>>, id: string, i: nat)
    requires i < |stages|
  {
    var s := stages[i];
    && s.task == id && s.sequence == i + 1 && Order(s.name) >= 0 && s.result != OtherResult && s.at != 0
    && s.details.isJson
    && (i > 0 ==> Order(stages[i - 1].name) <= Order(s.name))
    && (i + 1 < |stages| ==> !IsTerminal(s.name))
  }

  predicate ValidProgress(r: Reply, release: Task<Name>, mirrored: nat) {
    && r.release == release.id && 1 <= mirrored <= |r.stages| < STAGE_LIMIT
    && r.state != OtherState && Order(r.stage) >= 0
    && (r.state == Cancelled || StateFor(r.stage) == r.state)
    && ValidStages(r.stages, release.id)
    && r.stages[0].name == Rechecking
    && (mirrored > 1 ==> r.stages[mirrored - 1].name == release.stage)
  }

  /** The stages before the one that ends the release. */
  function NonTerminalCount(stages: seq<Stage<Name>>): (n: nat)
    ensures n == |stages| ==> stages == [] || !IsTerminal(stages[|stages| - 1].name)
    ensures n != |stages| ==> n == |stages| - 1 && IsTerminal(stages[n].name)
  {
    if stages != [] && IsTerminal(stages[|stages| - 1].name) then |stages| - 1 else |stages|
  }

  predicate RequiresBackup(r: Reply) {
    || r.state == Succeeded || r.state == RolledBack || r.state == NeedsAttention
    || exists i | 0 <= i < |r.stages| :: r.stages[i].name == BackupVerified
  }

  predicate ValidEvidence(e: Evidence, release: Task<Name>) {
    && e.backupId == release.backupId && e.taskId == release.id && e.productionDigest == release.productionDigest
    && e.treeDigest.Some? && e.entryCount > 0 && e.totalBytes >= 0 && e.verifiedAt != 0 && e.utc
  }

  predicate ValidResult(r: Reply, release: Task<Name>, mirrored: nat) {
    && ValidProgress(r, release, mirrored) && Terminal(r.state) && r.finishedAt != 0
    && r.stage == r.stages[|r.stages| - 1].name
    && NonTerminalCount(r.stages) != |r.stages|
    && (RequiresBackup(r) ==> ValidEvidence(r.backup, release))
    && (r.backup.backupId != "" ==> ValidEvidence(r.backup, release))
  }

  /** The stages of a release in their order: to the commit, back from it, and the two other ends. */
  const COURSE := [AtQueued, Rechecking, BackupCreating, BackupVerified, CandidateValidated, FilesApplying,
                   FilesApplied, ProductionValidated, ReloadRequested, RuntimeConfirmed, Committed,
                   RollbackApplying, RollbackFilesRestored, RollbackValidated, RollbackReloadRequested,
                   AtRolledBack, AtFailed, AtNeedsAttention]

  lemma StagesAreOrdered()
    ensures forall i | 0 <= i < |COURSE| :: Order(COURSE[i]) == if i <= 10 then i else if i <= 15 then i + 9 else i + 14
    ensures forall name :: name in COURSE <==> name != OtherName
    ensures Order(OtherName) < 0
  {
  }

  lemma StatesOfStages()
    ensures forall name :: StateFor(name) == Succeeded <==> name == Committed
    ensures forall name :: StateFor(name) == RolledBack <==> name == AtRolledBack
    ensures forall name :: StateFor(name) == Failed <==> name == AtFailed
    ensures forall name :: StateFor(name) == NeedsAttention <==> name == AtNeedsAttention || name == OtherName
    ensures forall name :: StateFor(name) == Queued <==> name == AtQueued
    ensures forall name :: StateFor(name) == Running <==> name in COURSE[1..10]
    ensures forall name :: StateFor(name) == RollingBack <==> name in COURSE[11..15]
    ensures forall state :: Terminal(state) <==> state in {Succeeded, Failed, RolledBack, NeedsAttention, Cancelled}
    ensures forall name ::
              IsTerminal(name) <==> name in {Committed, AtRolledBack, AtFailed, AtNeedsAttention, OtherName}
  {
    forall name ensures StateFor(name) == Running <==> name in COURSE[1..10] {
      assert COURSE[1..10] == [Rechecking, BackupCreating, BackupVerified, CandidateValidated, FilesApplying,
                               FilesApplied, ProductionValidated, ReloadRequested, RuntimeConfirmed];
    }
    forall name ensures StateFor(name) == RollingBack <==> name in COURSE[11..15] {
      assert COURSE[11..15] == [RollbackApplying, RollbackFilesRestored, RollbackValidated, RollbackReloadRequested];
    }
  }

  // ----- the checks as they are made

  method CheckStages(stages: seq<Stage<Name>>, id: string) returns (ok: bool)
    ensures ok <==> ValidStages(stages, id)
  {
    hide Order, IsTerminal;
    var lastOrder := -1;
    for index := 0 to |stages|
      invariant forall i | 0 <= i < index :: ValidStageAt(stages, id, i)
      invariant lastOrder == if index == 0 then -1 else Order(stages[index - 1].name)
    {
      var stage := stages[index];
      var order := Order(stage.name);
      if stage.task != id || stage.sequence != index + 1 || order < 0 || order < lastOrder
        || stage.result == OtherResult || stage.at == 0 || !stage.details.isJson {
        assert !ValidStageAt(stages, id, index);
        return false;
      }
      if index + 1 < |stages| && IsTerminal(stage.name) {
        assert !ValidStageAt(stages, id, index);
        return false;
      }
      lastOrder := order;
    }
    return true;
  }

  method CheckProgress(r: Reply, release: Task<Name>, mirrored: nat) returns (ok: bool)
    ensures ok <==> ValidProgress(r, release, mirrored)
  {
    hide ValidStages, Order, StateFor;
    if r.release != release.id || mirrored < 1 || |r.stages| < mirrored || |r.stages| >= 512 || r.state == OtherState
      || Order(r.stage) < 0 || (r.state != Cancelled && StateFor(r.stage) != r.state) {
      return false;
    }
    ok := CheckStages(r.stages, release.id);
    if !ok || r.stages[0].name != Rechecking {
      return false;
    }
    if mirrored > 1 && r.stages[mirrored - 1].name != release.stage {
      return false;
    }
  }

  method CheckEvidence(e: Evidence, release: Task<Name>) returns (ok: bool)
    ensures ok <==> ValidEvidence(e, release)
  {
    ok := e.backupId == release.backupId && e.taskId == release.id && e.productionDigest == release.productionDigest
      && e.treeDigest.Some? && e.entryCount > 0 && e.totalBytes >= 0 && e.verifiedAt != 0 && e.utc;
  }

  method NeedsBackup(r: Reply) returns (needed: bool)
    ensures needed <==> RequiresBackup(r)
  {
    match r.state
    case Succeeded => return true;
    case RolledBack => return true;
    case NeedsAttention => return true;
    case _ =>
    for i := 0 to |r.stages|
      invariant forall k | 0 <= k < i :: r.stages[k].name != BackupVerified
    {
      if r.stages[i].name == BackupVerified {
        return true;
      }
    }
    return false;
  }

  method CheckResult(r: Reply, release: Task<Name>, mirrored: nat) returns (ok: bool)
    ensures ok <==> ValidResult(r, release, mirrored)
  {
    hide ValidProgress, ValidEvidence, RequiresBackup, IsTerminal, Terminal;
    ok := CheckProgress(r, release, mirrored);
    if !ok {
      return false;
    }
    ProgressHasStages(r, release, mirrored);
    if !Terminal(r.state) || r.finishedAt == 0 || r.stage != r.stages[|r.stages| - 1].name
      || !IsTerminal(r.stages[|r.stages| - 1].name) {
      return false;
    }
    var needed := NeedsBackup(r);
    if needed || r.backup.backupId != "" {
      ok := CheckEvidence(r.backup, release);
    }
  }

  lemma ProgressHasStages(r: Reply, release: Task<Name>, mirrored: nat)
    requires ValidProgress(r, release, mirrored)
    ensures r.stages != []
  {
  }

  // ----- what the persisted release always satisfies

  /** Sequences 1..n, stages in order, nothing after a terminal one; the row names the last stage. */
  predicate LogInOrder(release: Task<Name>, log: seq<Stage<Name>>) {
    && log != [] && log[|log| - 1].name == release.stage
    && forall i | 0 <= i < |log| :: InOrderAt(release.id, log, i)
  }

  predicate InOrderAt(id: string, log: seq<Stage<Name>>, i: nat)
    requires i < |log|
  {
    && log[i].sequence == i + 1 && log[i].task == id && Order(log[i].name) >= 0
    && (i + 1 < |log| ==> !IsTerminal(log[i].name) && Order(log[i].name) <= Order(log[i + 1].name))
  }

  predicate Safe(release: Task<Name>, log: seq<Stage<Name>>, backup: Option<Evidence>, leased: bool) {
    && release.id != "" && release.backupId != "" && release.updatedAt != 0 && release.state != OtherState
    && LogInOrder(release, log)
    && (release.state == StateFor(release.stage) || release.state == Cancelled)
    && (Terminal(release.state) <==> release.finishedAt != 0) && (Terminal(release.state) <==> !leased)
    && (!Terminal(release.state) ==> |log| <= STAGE_LIMIT)
    && (backup.Some? ==> ValidEvidence(backup.value, release))
    && (release.state == Succeeded ==> backup.Some?)
    && release.updatedAt == log[|log| - 1].at && (!Terminal(release.state) ==> release.errorCode == log[|log| - 1].code)
    && (|log| == 1 ==> release.errorCode == "")
  }

  predicate IsSafe(repo: Repository<Name>)
    reads repo
  {
    Safe(repo.task, repo.log, repo.backup, repo.leased)
  }

  /** Every call of the database works. */
  ghost predicate Works(repo: Repository<Name>) {
    forall n :: repo.works(n)
  }

  /** The stages of an answer from one on have details that can be stored. */
  predicate RestFits(r: Reply, from: nat) {
    from <= |r.stages| && DetailsFit(r.stages[from..])
  }

  /** A release is queued with its first stage. */
  lemma QueuedIsSafe(id: string, backupId: string, productionDigest: string, now: int)
    requires id != "" && backupId != "" && now != 0
    ensures Safe(Task(id, backupId, productionDigest, Queued, AtQueued, "", now, 0),
                 [Stage(id, 1, AtQueued, Pending, "", NO_DETAILS, now)], None, true)
  {
  }

  function NextRelease(release: Task<Name>, r: Reply, stage: Stage<Name>): Task<Name> {
    var isLast := Terminal(r.state) && stage.sequence == |r.stages| && stage.name == r.stage;
    var state := if isLast then r.state else StateFor(stage.name);
    var next := release.(stage := stage.name, state := state, updatedAt := stage.at, errorCode := stage.code);
    if Terminal(state) then next.(finishedAt := r.finishedAt, errorCode := r.errorCode) else next
  }

  function Uncertain(release: Task<Name>, code: string, now: int): Task<Name> {
    release.(state := NeedsAttention, stage := AtNeedsAttention, errorCode := code, updatedAt := now, finishedAt := now)
  }

  // ----- mirroring

  /** What a copy of the stages from..to holds of stage i. */
  lemma CopyOfPart(stages: seq<Stage<Name>>, id: string, from: nat, to: nat, i: nat)
    requires from <= i < to <= |stages|
    ensures MirroredAll(stages[from..to], id, from + 2)[i - from] == Mirrored(stages[i], id, i + 2)
  {
    CopyAt(stages[from..to], id, from + 2, i - from);
  }

  /** The Agent's stages from the given one on continue the persisted log. */
  predicate Continues(release: Task<Name>, log: seq<Stage<Name>>, r: Reply, from: nat) {
    && ValidStages(r.stages, release.id) && |r.stages| < STAGE_LIMIT && 1 <= from && |log| == from + 1
    && (from < |r.stages| ==> Order(release.stage) <= Order(r.stages[from].name))
  }

  /** A successful transition keeps the release safe. */
  lemma TransitionIsSafe(release: Task<Name>, log: seq<Stage<Name>>, backup: Option<Evidence>, next: Task<Name>,
                         stage: Stage<Name>)
    requires Safe(release, log, backup, true) && Storable(next) && stage.task == next.id && stage.name == next.stage
    requires next == release.(state := next.state, stage := next.stage, errorCode := next.errorCode,
                              updatedAt := next.updatedAt, finishedAt := next.finishedAt)
    requires stage.sequence == |log| + 1 && Order(release.stage) <= Order(stage.name) && Order(stage.name) >= 0
    requires next.state == StateFor(next.stage) || next.state == Cancelled
    requires (next.state == Succeeded ==> backup.Some?) && (!Terminal(next.state) ==> |log| < STAGE_LIMIT)
    requires next.updatedAt == stage.at && (!Terminal(next.state) ==> next.errorCode == stage.code)
    ensures Safe(next, log + [stage], backup, !Terminal(next.state))
  {
    var more := log + [stage];
    forall i | 0 <= i < |more| ensures InOrderAt(next.id, more, i) {
      if i < |log| { assert InOrderAt(release.id, log, i); }
    }
  }

  /** Once a release has ended no transition is accepted any more. */
  lemma EndedIsFinal(release: Task<Name>, log: seq<Stage<Name>>, backup: Option<Evidence>, leased: bool, r: Reply,
                     stage: Stage<Name>)
    requires Safe(release, log, backup, leased) && Terminal(release.state)
    ensures !leased
    ensures Storable(NextRelease(release, r, stage)) ==> Terminal(NextRelease(release, r, stage).state)
  {
  }

  method MarkUncertain(repo: Repository<Name>, release: Task<Name>, sequence: nat, code: string, now: int)
    requires IsSafe(repo) && release == repo.task && sequence == |repo.log| + 1 && now != 0
    modifies repo
    ensures IsSafe(repo) && repo.backup == old(repo.backup)
    ensures || (repo.task == old(repo.task) && repo.log == old(repo.log))
            || (repo.task == Uncertain(release, code, now) && !Terminal(old(repo.task.state))
                && repo.log == old(repo.log) + [Stage(release.id, sequence, AtNeedsAttention, StageResult.Failure, code,
                                                      NO_DETAILS, now)])
    ensures Works(repo) ==> Terminal(repo.task.state)
  {
    SafeParts(repo.task, repo.log, repo.backup, repo.leased);
    var next := release.(state := NeedsAttention, stage := AtNeedsAttention, errorCode := code, updatedAt := now,
                         finishedAt := now);
    var stage := Stage(release.id, sequence, AtNeedsAttention, StageResult.Failure, code, NO_DETAILS, now);
    if !Terminal(release.state) { TransitionIsSafe(release, repo.log, repo.backup, next, stage); }
    var _ := repo.Transition(release.state, release.stage, next, stage);
  }

  /** Mirroring one more stage, from a release that has not ended. */
  lemma MirrorOneIsSafe(next: Task<Name>, log: seq<Stage<Name>>, backup: Option<Evidence>, r: Reply, i: nat)
    requires Safe(next, log, backup, true) && ValidStages(r.stages, next.id) && i < |r.stages| < STAGE_LIMIT
    requires |log| == i + 1
    requires Order(next.stage) <= Order(r.stages[i].name) && ValidReplyState(r)
    requires NextRelease(next, r, r.stages[i]).state == Succeeded ==> backup.Some?
    ensures var following := NextRelease(next, r, r.stages[i]);
      && (Storable(following) ==>
            Safe(following, log + [Mirrored(r.stages[i], next.id, i + 2)], backup, !Terminal(following.state)))
      && (i + 1 < |r.stages| ==> Order(following.stage) <= Order(r.stages[i + 1].name))
  {
    assert ValidStageAt(r.stages, next.id, i);
    if i + 1 < |r.stages| { assert ValidStageAt(r.stages, next.id, i + 1); }
    var following := NextRelease(next, r, r.stages[i]);
    if Storable(following) {
      TransitionIsSafe(next, log, backup, following, Mirrored(r.stages[i], next.id, i + 2));
    }
  }

  /** The state of a reply is the one of its stage, or cancelled. */
  predicate ValidReplyState(r: Reply) {
    r.state == Cancelled || StateFor(r.stage) == r.state
  }

  lemma MirrorIsMemoryless(release: Task<Name>, r: Reply, earlier: Stage<Name>, stage: Stage<Name>)
    requires !Terminal(release.state) && release.finishedAt == 0 && !Terminal(NextRelease(release, r, earlier).state)
    ensures NextRelease(NextRelease(release, r, earlier), r, stage) == NextRelease(release, r, stage)
  {
  }

  lemma NextKeepsIdentity(release: Task<Name>, r: Reply, stage: Stage<Name>)
    ensures var next := NextRelease(release, r, stage);
      && next == release.(state := next.state, stage := next.stage, errorCode := next.errorCode,
                          updatedAt := next.updatedAt, finishedAt := next.finishedAt)
      && next.stage == stage.name
  {
  }

  lemma SafeParts(release: Task<Name>, log: seq<Stage<Name>>, backup: Option<Evidence>, leased: bool)
    requires Safe(release, log, backup, leased)
    ensures log != [] && LastSequence(log) == |log| && (Terminal(release.state) <==> !leased)
    ensures release.id != "" && release.backupId != "" && (!Terminal(release.state) ==> release.finishedAt == 0)
    ensures release.state == StateFor(release.stage) || release.state == Cancelled
    ensures !Terminal(release.state) ==> |log| <= STAGE_LIMIT
    ensures release.state == Succeeded ==> backup.Some?
  {
    assert InOrderAt(release.id, log, |log| - 1);
  }

  lemma MirrorIsStorable(release: Task<Name>, r: Reply, i: nat)
    requires !Terminal(release.state) && release.finishedAt == 0 && release.id != "" && ValidReplyState(r)
    requires ValidStages(r.stages, release.id) && i < |r.stages|
    ensures var following := NextRelease(release, r, r.stages[i]);
      && (StorableStage(Mirrored(r.stages[i], release.id, i + 2)) <==> |r.stages[i].details.text| <= DETAILS_LIMIT)
      && (Storable(following) <==> (Terminal(following.state) ==> r.finishedAt != 0))
  {
    assert ValidStageAt(r.stages, release.id, i);
  }

  /** One more stage, if the database accepts it. */
  method MirrorOne(repo: Repository<Name>, release: Task<Name>, r: Reply, i: nat)
      returns (next: Task<Name>, accepted: bool)
    requires IsSafe(repo) && release == repo.task && |repo.log| == i + 1
    requires ValidStages(r.stages, release.id) && i < |r.stages| < STAGE_LIMIT
    requires Order(release.stage) <= Order(r.stages[i].name) && ValidReplyState(r)
    requires NextRelease(release, r, r.stages[i]).state == Succeeded ==> repo.backup.Some?
    modifies repo
    ensures IsSafe(repo) && next == repo.task && repo.backup == old(repo.backup)
    ensures accepted ==> repo.log == old(repo.log) + [Mirrored(r.stages[i], release.id, i + 2)]
                         && next == NextRelease(release, r, r.stages[i])
    ensures accepted && i + 1 < |r.stages| ==> Order(next.stage) <= Order(r.stages[i + 1].name)
    ensures !accepted ==> repo.log == old(repo.log) && next == release
    ensures Terminal(release.state) ==> !accepted
    ensures accepted ==> |r.stages[i].details.text| <= DETAILS_LIMIT
    ensures Works(repo) && !Terminal(release.state) && |r.stages[i].details.text| <= DETAILS_LIMIT
            && (Terminal(NextRelease(release, r, r.stages[i]).state) ==> r.finishedAt != 0)
            ==> accepted
  {
    hide Safe, ValidStages, NextRelease, ValidReplyState, Storable, StorableStage, Order;
    SafeParts(release, repo.log, repo.backup, repo.leased);
    var following := NextRelease(release, r, r.stages[i]);
    var stage := Mirrored(r.stages[i], release.id, i + 2);
    if Terminal(release.state) {
      EndedIsFinal(release, repo.log, repo.backup, repo.leased, r, r.stages[i]);
    } else {
      MirrorOneIsSafe(release, repo.log, repo.backup, r, i);
      MirrorIsStorable(release, r, i);
    }
    NextKeepsIdentity(release, r, r.stages[i]);
    accepted := repo.Transition(release.state, release.stage, following, stage);
    next := if accepted then following else release;
  }

  /** Copies the Agent's stages from..to, stopping at the first refused transition. */
  method MirrorStages(repo: Repository<Name>, release: Task<Name>, r: Reply, from: nat, to: nat)
      returns (next: Task<Name>, sequence: nat, ok: bool)
    requires IsSafe(repo) && release == repo.task && from <= to <= |r.stages| && Continues(release, repo.log, r, from)
    requires ValidReplyState(r)
    requires repo.backup.Some? || forall i | from <= i < to :: NextRelease(release, r, r.stages[i]).state != Succeeded
    modifies repo
    ensures IsSafe(repo) && next == repo.task && sequence == |repo.log| + 1 && repo.backup == old(repo.backup)
    ensures from + 1 <= |repo.log| <= to + 1
    ensures repo.log == old(repo.log) + MirroredAll(r.stages[from..to], release.id, from + 2)[..|repo.log| - (from + 1)]
    ensures if ok then |repo.log| == to + 1 && DetailsFit(r.stages[from..to]) else |repo.log| <= to
    ensures Terminal(release.state) ==> next == release && repo.log == old(repo.log)
    ensures next == if |repo.log| == from + 1 then release else NextRelease(release, r, r.stages[|repo.log| - 2])
    ensures !ok && Works(repo) ==>
      || Terminal(next.state) || !DetailsFit(r.stages[from..to])
      || (r.finishedAt == 0 && exists i | from <= i < to :: Terminal(NextRelease(release, r, r.stages[i]).state))
  {
    hide Safe, ValidStages, NextRelease, ValidReplyState, Order, Terminal, MirroredAll, Mirrored, DetailsFit, Works;
    NothingFits(r.stages, from);
    SafeParts(release, repo.log, repo.backup, repo.leased);
    next, sequence := release, |repo.log| + 1;
    ghost var before, copies := repo.log, MirroredAll(r.stages[from..to], release.id, from + 2);
    for i := from to to
      invariant IsSafe(repo) && next == repo.task && sequence == |repo.log| + 1 == i + 2
      invariant repo.backup == old(repo.backup)
      invariant repo.log == before + copies[..i - from]
      invariant Terminal(release.state) ==> i == from
      invariant DetailsFit(r.stages[from..i])
      invariant next == if i == from then release else NextRelease(release, r, r.stages[i - 1])
      invariant next.id == release.id
      invariant i < |r.stages| ==> Order(next.stage) <= Order(r.stages[i].name)
    {
      // The limit the source checks here is never reached: a valid reply has fewer stages.
      assert sequence <= STAGE_LIMIT;
      SafeParts(next, repo.log, repo.backup, repo.leased);
      if i > from && !Terminal(next.state) { MirrorIsMemoryless(release, r, r.stages[i - 1], r.stages[i]); }
      SucceedsAlike(release, next, r, r.stages[i]);
      ghost var current := next;
      var accepted;
      next, accepted := MirrorOne(repo, next, r, i);
      FitGrows(r.stages, from, i);
      if !accepted {
        if DetailsFit(r.stages[from..to]) { FitAt(r.stages, from, to, i); }
        return next, sequence, false;
      }
      sequence := sequence + 1;
      NextKeepsIdentity(current, r, r.stages[i]);
      CopyOfPart(r.stages, release.id, from, to, i);
      CopiesGrow(copies, before, before + copies[..i - from], Mirrored(r.stages[i], release.id, i + 2), i - from);
    }
    return next, sequence, true;
  }

  // ----- one run

  datatype Event = Tick(progress: Option<Reply>) | Done(result: Reply) | Stop

  lemma StepContinues(release: Task<Name>, log: seq<Stage<Name>>, r: Reply, mirrored: nat)
    requires ValidProgress(r, release, mirrored) && |log| == mirrored + 1
    requires (mirrored == 1 ==> release.stage == Rechecking)
    ensures Continues(release, log, r, mirrored) && ValidReplyState(r)
  {
    if mirrored < |r.stages| { assert ValidStageAt(r.stages, release.id, mirrored); }
  }

  /** No stage that polling copies is terminal, and none makes the release succeed. */
  lemma PolledStage(release: Task<Name>, r: Reply, mirrored: nat, i: nat)
    requires ValidProgress(r, release, mirrored) && i < NonTerminalCount(r.stages)
    ensures !IsTerminal(r.stages[i].name)
    ensures var next := NextRelease(release, r, r.stages[i]);
      && next.state != Succeeded
      && (Terminal(next.state) <==> r.state == Cancelled && i == |r.stages| - 1 && r.stages[i].name == r.stage)
      && (Terminal(next.state) ==> next.state == Cancelled)
  {
    assert ValidStageAt(r.stages, release.id, i);
  }

  /** Only the progress of a release changes. */
  predicate SameRelease(task: Task<Name>, start: Task<Name>) {
    task == start.(state := task.state, stage := task.stage, errorCode := task.errorCode,
                   updatedAt := task.updatedAt, finishedAt := task.finishedAt)
  }

  /** One answered poll: copies the new stages that do not end the release. */
  method Poll(repo: Repository<Name>, release: Task<Name>, r: Reply, mirrored: nat)
      returns (next: Task<Name>, sequence: nat, ok: bool)
    requires IsSafe(repo) && release == repo.task && ValidProgress(r, release, mirrored)
    requires mirrored < NonTerminalCount(r.stages)
    requires |repo.log| == mirrored + 1 && (mirrored == 1 ==> release.stage == Rechecking) && !IsTerminal(release.stage)
    modifies repo
    ensures IsSafe(repo) && next == repo.task && sequence == |repo.log| + 1 && repo.backup == old(repo.backup)
    ensures old(repo.log) <= repo.log && (ok ==> |repo.log| == NonTerminalCount(r.stages) + 1)
    ensures !IsTerminal(next.stage) && forall i | |old(repo.log)| <= i < |repo.log| :: !IsTerminal(repo.log[i].name)
    ensures Terminal(next.state) && !Terminal(release.state)
        ==> next.state == Cancelled && r.state == Cancelled && next.stage == r.stage
    ensures Terminal(release.state) ==> repo.task == old(repo.task) && repo.log == old(repo.log)
    ensures SameRelease(next, release)
    ensures ok ==>
      repo.log == old(repo.log) + MirroredAll(r.stages[mirrored..NonTerminalCount(r.stages)], release.id, mirrored + 2)
    ensures Works(repo) && !Terminal(release.state) && DetailsFit(r.stages)
        && (r.state == Cancelled ==> r.finishedAt != 0)
        ==> ok
  {
    hide Safe, ValidProgress, NextRelease, ValidReplyState, StateFor, DetailsFit, Works, MirroredAll;
    StepContinues(release, repo.log, r, mirrored);
    var available := NonTerminalCount(r.stages);
    forall i | mirrored <= i < available
      ensures NextRelease(release, r, r.stages[i]).state != Succeeded && !IsTerminal(r.stages[i].name)
      ensures Terminal(NextRelease(release, r, r.stages[i]).state) ==> r.state == Cancelled
    {
      PolledStage(release, r, mirrored, i);
    }
    ghost var before := repo.log;
    next, sequence, ok := MirrorStages(repo, release, r, mirrored, available);
    if |repo.log| > |before| {
      NextKeepsIdentity(release, r, r.stages[|repo.log| - 2]);
      PolledStage(release, r, mirrored, |repo.log| - 2);
    }
    forall i | |before| <= i < |repo.log| ensures !IsTerminal(repo.log[i].name) {
      CopyAt(r.stages[mirrored..available], release.id, mirrored + 2, i - |before|);
    }
    if DetailsFit(r.stages) { FitPart(r.stages, mirrored, available); }
    ghost var copies := MirroredAll(r.stages[mirrored..available], release.id, mirrored + 2);
    assert copies[..|copies|] == copies;
  }

  /** A succeeded release and the full Agent result it comes from. */
  predicate Completes(r: Reply, release: Task<Name>, log: seq<Stage<Name>>, backup: Option<Evidence>) {
    && r.release == release.id && r.state == Succeeded && r.finishedAt != 0 && ValidStages(r.stages, release.id)
    && r.stages != [] && r.stages[|r.stages| - 1].name == Committed == release.stage
    && ValidEvidence(r.backup, release) && backup.Some?
    && |log| == |r.stages| + 1 && log[|log| - 1] == Mirrored(r.stages[|r.stages| - 1], release.id, |log|)
  }

  lemma SucceedsAlike(release: Task<Name>, other: Task<Name>, r: Reply, stage: Stage<Name>)
    ensures NextRelease(release, r, stage).state == NextRelease(other, r, stage).state
  {
  }

  lemma ResultHasMore(release: Task<Name>, r: Reply, mirrored: nat)
    requires ValidResult(r, release, mirrored) && !IsTerminal(release.stage)
    ensures mirrored < |r.stages| && IsTerminal(r.stages[|r.stages| - 1].name)
    ensures ValidProgress(r, release, mirrored) && r.finishedAt != 0 && Terminal(r.state)
  {
  }

  lemma ResultBackup(release: Task<Name>, r: Reply, mirrored: nat)
    requires ValidResult(r, release, mirrored) && release.backupId != ""
    ensures r.backup.backupId != "" ==> ValidEvidence(r.backup, release)
    ensures RequiresBackup(r) ==> r.backup.backupId != ""
  {
  }

  /** Only a result that requires a backup can make the release succeed. */
  lemma SuccessNeedsBackup(release: Task<Name>, r: Reply, mirrored: nat, i: nat)
    requires ValidResult(r, release, mirrored) && i < |r.stages|
    requires NextRelease(release, r, r.stages[i]).state == Succeeded
    ensures RequiresBackup(r)
  {
    assert ValidStageAt(r.stages, release.id, i);
  }

  lemma LastStageEnds(release: Task<Name>, r: Reply, mirrored: nat)
    requires ValidResult(r, release, mirrored)
    ensures var next := NextRelease(release, r, r.stages[|r.stages| - 1]);
      next.state == r.state && next.stage == r.stage
  {
    assert ValidStageAt(r.stages, release.id, |r.stages| - 1);
  }

  lemma EarlierStageDoesNotEnd(release: Task<Name>, r: Reply, mirrored: nat, i: nat)
    requires ValidResult(r, release, mirrored) && i < |r.stages| - 1
    ensures !Terminal(NextRelease(release, r, r.stages[i]).state)
  {
    assert ValidStageAt(r.stages, release.id, i);
  }

  lemma CompletionHolds(release: Task<Name>, next: Task<Name>, r: Reply, mirrored: nat, log: seq<Stage<Name>>,
                        backup: Option<Evidence>)
    requires ValidResult(r, release, mirrored) && release.backupId != ""
    requires next == NextRelease(release, r, r.stages[|r.stages| - 1])
    requires r.state == Succeeded && backup.Some?
    requires |log| == |r.stages| + 1 && log[|log| - 1] == Mirrored(r.stages[|r.stages| - 1], release.id, |log|)
    ensures Completes(r, next, log, backup)
  {
    LastStageEnds(release, r, mirrored);
    NextKeepsIdentity(release, r, r.stages[|r.stages| - 1]);
  }

  /** Stores the backup that an accepted result reports, if any. */
  method StoreBackup(repo: Repository<Name>, release: Task<Name>, r: Reply, mirrored: nat) returns (stored: bool)
    requires IsSafe(repo) && release == repo.task && ValidResult(r, release, mirrored)
    modifies repo
    ensures IsSafe(repo) && repo.task == old(repo.task) && repo.log == old(repo.log) && repo.leased == old(repo.leased)
    ensures repo.backup == if stored then BackupAfter(old(repo.backup), r) else old(repo.backup)
    ensures stored && RequiresBackup(r) ==> repo.backup.Some?
    ensures Works(repo) ==> stored
  {
    SafeParts(release, repo.log, repo.backup, repo.leased);
    ResultBackup(release, r, mirrored);
    hide ValidResult, RequiresBackup;
    stored := true;
    if r.backup.backupId != "" {
      stored := repo.PutBackup(r.backup);
    }
  }

  /** What is indexed once the result has been taken over. */
  function BackupAfter(backup: Option<Evidence>, r: Reply): Option<Evidence> {
    if r.backup.backupId != "" then Some(Indexed(backup, r.backup)) else backup
  }

  /** Stores the backup of an accepted result, then mirrors the rest of its stages. */
  method MirrorResult(repo: Repository<Name>, release: Task<Name>, r: Reply, from: nat, now: int)
    requires IsSafe(repo) && release == repo.task && now != 0 && |repo.log| == from + 1
    requires ValidResult(r, release, from) && (from == 1 ==> release.stage == Rechecking) && !IsTerminal(release.stage)
    modifies repo
    ensures IsSafe(repo) && old(repo.log) <= repo.log
    ensures repo.task.state == Succeeded && old(repo.task.state) != Succeeded
        ==> Completes(r, repo.task, repo.log, repo.backup)
    ensures Terminal(release.state) ==> repo.task == old(repo.task) && repo.log == old(repo.log)
    ensures Works(repo) && !Terminal(release.state) ==>
              (Terminal(repo.task.state) <==> RestFits(r, from))
    ensures Works(repo) && !Terminal(release.state) && RestFits(r, from) ==>
      && repo.task == NextRelease(release, r, r.stages[|r.stages| - 1])
      && repo.task.state == r.state && repo.task.stage == r.stage
      && repo.log == old(repo.log) + MirroredAll(r.stages[from..], release.id, from + 2)
      && repo.backup == BackupAfter(old(repo.backup), r)
  {
    hide ValidResult, ValidProgress, NextRelease, ValidReplyState, Completes, ValidEvidence, RequiresBackup,
      ValidStages, DetailsFit, MirroredAll, Works, BackupAfter, Safe;
    SafeParts(release, repo.log, repo.backup, repo.leased);
    ResultHasMore(release, r, from);
    assert r.stages[from..] == r.stages[from..|r.stages|];
    StepContinues(release, repo.log, r, from);
    ghost var before := repo.log;
    var stored := StoreBackup(repo, release, r, from);
    if !stored {
      MarkUncertain(repo, release, |repo.log| + 1, "backup_index_persistence_failed", now);
      return;
    }
    forall i | from <= i < |r.stages| && NextRelease(release, r, r.stages[i]).state == Succeeded
      ensures repo.backup.Some?
    {
      SuccessNeedsBackup(release, r, from, i);
    }
    var next, sequence, ok := MirrorStages(repo, release, r, from, |r.stages|);
    MirroredEnds(repo, before, release, r, from);
    // The source checks here that the release ended as the result says; it always did.
    assert ok ==> next.state == r.state && next.stage == r.stage by { LastStageEnds(release, r, from); }
    ghost var copies := MirroredAll(r.stages[from..], release.id, from + 2);
    assert copies[..|copies|] == copies;
  }

  /** After mirroring a result the release has ended exactly when every stage was accepted. */
  lemma MirroredEnds(repo: Repository<Name>, before: seq<Stage<Name>>, release: Task<Name>, r: Reply, from: nat)
    requires ValidResult(r, release, from) && from < |r.stages| && release.backupId != "" && |before| == from + 1
    requires Safe(repo.task, repo.log, repo.backup, repo.leased)
    requires from + 1 <= |repo.log| <= |r.stages| + 1
    requires repo.log == before + MirroredAll(r.stages[from..], release.id, from + 2)[..|repo.log| - (from + 1)]
    requires repo.task == if |repo.log| == from + 1 then release else NextRelease(release, r, r.stages[|repo.log| - 2])
    ensures |repo.log| == |r.stages| + 1 ==> Terminal(repo.task.state)
    ensures from + 1 < |repo.log| <= |r.stages| ==> !Terminal(repo.task.state)
    ensures repo.task.state == Succeeded && release.state != Succeeded
        ==> Completes(r, repo.task, repo.log, repo.backup)
  {
    hide ValidProgress, NextRelease, Completes, ValidEvidence, RequiresBackup, MirroredAll;
    SafeParts(repo.task, repo.log, repo.backup, repo.leased);
    var last := |repo.log| - 2;
    if |repo.log| == |r.stages| + 1 {
      LastStageEnds(release, r, from);
      CopyAt(r.stages[from..], release.id, from + 2, last - from);
      assert repo.log[last + 1] == Mirrored(r.stages[last], release.id, last + 2);
      if r.state == Succeeded { CompletionHolds(release, repo.task, r, from, repo.log, repo.backup); }
    } else if |repo.log| > from + 1 {
      EarlierStageDoesNotEnd(release, r, from, last);
    }
  }

  lemma StartIsSafe(release: Task<Name>, log: seq<Stage<Name>>, backup: Option<Evidence>, leased: bool, now: int)
    requires Safe(release, log, backup, leased) && release.state == Queued && release.stage == AtQueued && |log| == 1
    requires now != 0
    ensures var running := release.(state := Running, stage := Rechecking, updatedAt := now);
      && Storable(running) && leased
      && Safe(running, log + [Stage(release.id, 2, Rechecking, InProgress, "", NO_DETAILS, now)], backup, true)
  {
    var running := release.(state := Running, stage := Rechecking, updatedAt := now);
    TransitionIsSafe(release, log, backup, running, Stage(release.id, 2, Rechecking, InProgress, "", NO_DETAILS, now));
  }

  // ----- what a schedule is

  /** The polls before the first event that is none. */
  ghost function Polls(schedule: seq<Event>): (n: nat)
    ensures n <= |schedule| && (forall k | 0 <= k < n :: schedule[k].Tick?)
    ensures n < |schedule| ==> !schedule[n].Tick?
  {
    if schedule == [] || !schedule[0].Tick? then 0 else 1 + Polls(schedule[1..])
  }

  /** Nothing that a poll reports is refused by a working database. */
  ghost predicate PollsFit(schedule: seq<Event>, n: nat)
    requires n <= |schedule|
  {
    forall k | 0 <= k < n && schedule[k].Tick? && schedule[k].progress.Some? ::
      var p := schedule[k].progress.value; DetailsFit(p.stages) && (p.state == Cancelled ==> p.finishedAt != 0)
  }

  /** Every poll reports the beginning of the same log, and none that the release was cancelled. */
  ghost predicate Honest(schedule: seq<Event>, n: nat, h: Reply)
    requires n <= |schedule|
  {
    forall k | 0 <= k < n && schedule[k].Tick? && schedule[k].progress.Some? ::
      schedule[k].progress.value.stages <= h.stages && schedule[k].progress.value.state != Cancelled
  }

  /** How many stages of the Agent's log the first n polls have shown that do not end it. */
  ghost function Shown(schedule: seq<Event>, n: nat, release: Task<Name>): (shown: nat)
    requires n <= |schedule|
    ensures shown >= 1
  {
    if n == 0 then 1
    else
      var before := Shown(schedule, n - 1, release);
      match schedule[n - 1]
      case Tick(Some(p)) =>
        if ValidProgress(p, release, 1) && NonTerminalCount(p.stages) > before then NonTerminalCount(p.stages)
        else before
      case _ => before
  }

  /** The own two stages and the Agent's stages behind its first, up to n of them. */
  ghost predicate Shows(log: seq<Stage<Name>>, queued: seq<Stage<Name>>, id: string, stages: seq<Stage<Name>>, n: nat,
                        now: int) {
    && 1 <= n <= |stages| && |queued| == 1 && |log| == n + 1 && log[0] == queued[0]
    && log[1] == Stage(id, 2, Rechecking, InProgress, "", Details("{}", true), now)
    && forall i | 1 <= i < n ::
         log[i + 1] == Stage(id, i + 2, stages[i].name, stages[i].result, stages[i].code, stages[i].details,
           stages[i].at)
  }

  /** The row that a result leaves behind. */
  ghost predicate EndsAs(task: Task<Name>, release: Task<Name>, r: Reply) {
    r.stages != [] && task == release.(state := r.state, stage := r.stage, errorCode := r.errorCode,
                                       updatedAt := r.stages[|r.stages| - 1].at, finishedAt := r.finishedAt)
  }

  lemma ResultEndsAs(release: Task<Name>, base: Task<Name>, r: Reply, mirrored: nat)
    requires ValidResult(r, release, mirrored)
    requires release == base.(state := release.state, stage := release.stage, errorCode := release.errorCode,
                              updatedAt := release.updatedAt, finishedAt := release.finishedAt)
    ensures EndsAs(NextRelease(release, r, r.stages[|r.stages| - 1]), base, r)
  {
    assert ValidStageAt(r.stages, release.id, |r.stages| - 1);
  }

  lemma ShowsMore(log: seq<Stage<Name>>, queued: seq<Stage<Name>>, id: string, stages: seq<Stage<Name>>, n: nat, m: nat,
                  now: int)
    requires Shows(log, queued, id, stages, n, now) && n <= m <= |stages|
    ensures Shows(log + MirroredAll(stages[n..m], id, n + 2), queued, id, stages, m, now)
  {
    var copies := MirroredAll(stages[n..m], id, n + 2);
    forall i | n <= i < m ensures copies[i - n] == Mirrored(stages[i], id, i + 2) {
      CopyAt(stages[n..m], id, n + 2, i - n);
    }
  }

  lemma ShownBySame(log: seq<Stage<Name>>, queued: seq<Stage<Name>>, id: string, stages: seq<Stage<Name>>,
                    longer: seq<Stage<Name>>, n: nat, now: int)
    requires stages <= longer && n <= |stages| && Shows(log, queued, id, longer, n, now)
    ensures Shows(log, queued, id, stages, n, now)
  {
  }

  lemma ShownByLonger(log: seq<Stage<Name>>, queued: seq<Stage<Name>>, id: string, stages: seq<Stage<Name>>,
                      longer: seq<Stage<Name>>, n: nat, now: int)
    requires stages <= longer && Shows(log, queued, id, stages, n, now)
    ensures Shows(log, queued, id, longer, n, now)
  {
  }

  /** Of an honest Agent a poll or a result is valid at any point if it is at the start. */
  lemma ProgressAtAnyPoint(p: Reply, release: Task<Name>, start: Task<Name>, log: seq<Stage<Name>>,
                           queued: seq<Stage<Name>>, stages: seq<Stage<Name>>, n: nat, now: int)
    requires release.id == start.id && log != [] && log[|log| - 1].name == release.stage
    requires Shows(log, queued, start.id, stages, n, now) && p.stages <= stages && n <= |p.stages|
    ensures ValidProgress(p, release, n) <==> ValidProgress(p, start, 1)
  {
    hide ValidStages, Order, StateFor;
    assert n > 1 ==> log[n].name == stages[n - 1].name == p.stages[n - 1].name;
  }

  lemma ResultAtAnyPoint(p: Reply, release: Task<Name>, start: Task<Name>, n: nat)
    requires ValidProgress(p, release, n) <==> ValidProgress(p, start, 1)
    requires release.id == start.id && release.backupId == start.backupId
      && release.productionDigest == start.productionDigest
    ensures ValidResult(p, release, n) <==> ValidResult(p, start, 1)
  {
    hide ValidProgress;
  }

  lemma CountIsWithin(stages: seq<Stage<Name>>)
    ensures NonTerminalCount(stages) <= |stages|
  {
  }

  lemma NamesItsStage(release: Task<Name>, log: seq<Stage<Name>>, backup: Option<Evidence>, leased: bool)
    requires Safe(release, log, backup, leased)
    ensures log != [] && log[|log| - 1].name == release.stage
  {
  }

  /** A release as it is created. */
  predicate IsQueued(release: Task<Name>, log: seq<Stage<Name>>) {
    release.state == Queued && release.stage == AtQueued && |log| == 1
  }

  /** What any schedule leaves of a queued release: the last row of the polls, or the end that the result calls for. */
  ghost predicate Outcome(start: Task<Name>, schedule: seq<Event>, row: Task<Name>, taken: nat, failed: bool,
                          end: Task<Name>, length: nat, now: int) {
    var n := Polls(schedule);
    && (PollsFit(schedule, n) && !Terminal(row.state) ==> !failed)
    && SameRelease(row, start) && !IsTerminal(row.stage) && (Terminal(row.state) ==> row.state == Cancelled)
    && if n == |schedule| || schedule[n].Stop? then end == row && (!failed ==> length == taken + 1)
       else if Terminal(row.state) then end == row
       else if !ValidResult(schedule[n].result, row, taken) then end == Uncertain(row, "agent_evidence_invalid", now)
       else if failed then end == Uncertain(row, "release_stage_persistence_failed", now)
       else if RestFits(schedule[n].result, taken) then EndsAs(end, start, schedule[n].result)
       else !Terminal(end.state)
  }

  /** With honest polls the log is as much of the Agent's as they have shown, and all of it at the result. */
  ghost predicate HonestOutcome(start: Task<Name>, queued: seq<Stage<Name>>, kept: Option<Evidence>,
                                schedule: seq<Event>,
                                h: Reply, row: Task<Name>, taken: nat, end: Task<Name>, log: seq<Stage<Name>>,
                                backup: Option<Evidence>, now: int) {
    var n := Polls(schedule);
    PollsFit(schedule, n) && Honest(schedule, n, h) ==>
      && taken == Shown(schedule, n, start) && !Terminal(row.state)
      && (n == |schedule| || schedule[n].Stop? ==>
            backup == kept && (h.stages != [] ==> Shows(log, queued, start.id, h.stages, taken, now)))
      && (n < |schedule| && schedule[n] == Done(h) && ValidResult(h, start, 1) && RestFits(h, 1) ==>
            && EndsAs(end, start, h) && Shows(log, queued, start.id, h.stages, |h.stages|, now)
            && backup == BackupAfter(kept, h))
  }

  /** What is known of the release after the first k events, all of them polls. */
  ghost predicate Watching(task: Task<Name>, log: seq<Stage<Name>>, start: Task<Name>, queued: seq<Stage<Name>>,
                           schedule: seq<Event>, k: nat, mirrored: nat, failed: bool, works: bool, h: Reply, now: int) {
    && k <= |schedule| && (forall j | 0 <= j < k :: schedule[j].Tick?)
    && SameRelease(task, start) && !IsTerminal(task.stage) && (Terminal(task.state) ==> task.state == Cancelled)
    && (works && PollsFit(schedule, k) && !Terminal(task.state) ==> !failed)
    && (works && PollsFit(schedule, k) && Honest(schedule, k, h) ==>
          && mirrored == Shown(schedule, k, start) && !Terminal(task.state)
          && (h.stages != [] ==> Shows(log, queued, start.id, h.stages, mirrored, now)))
  }

  lemma WatchingStarts(start: Task<Name>, queued: seq<Stage<Name>>, schedule: seq<Event>, works: bool, h: Reply,
                       now: int)
    requires |queued| == 1 && !Terminal(start.state) && start.state != Cancelled
    ensures Watching(start.(state := Running, stage := Rechecking, updatedAt := now),
                     queued + [Stage(start.id, 2, Rechecking, InProgress, "", NO_DETAILS, now)],
                     start, queued, schedule, 0, 1, false, works, h, now)
  {
  }

  /** A poll that is not taken over leaves what is known. */
  lemma PollIgnored(task: Task<Name>, log: seq<Stage<Name>>, start: Task<Name>, queued: seq<Stage<Name>>,
                    schedule: seq<Event>, k: nat, mirrored: nat, failed: bool, works: bool, h: Reply, now: int)
    requires Watching(task, log, start, queued, schedule, k, mirrored, failed, works, h, now)
    requires k < |schedule| && schedule[k].Tick? && log != [] && log[|log| - 1].name == task.stage
    requires failed || schedule[k].progress.None? || !ValidProgress(schedule[k].progress.value, task, mirrored)
      || NonTerminalCount(schedule[k].progress.value.stages) <= mirrored
    ensures Watching(task, log, start, queued, schedule, k + 1, mirrored, failed, works, h, now)
  {
    hide ValidProgress, Shows, NonTerminalCount, DetailsFit, Terminal;
    if works && PollsFit(schedule, k + 1) && Honest(schedule, k + 1, h) {
      assert PollsFit(schedule, k) && Honest(schedule, k, h);
      if schedule[k].progress.Some? {
        var p := schedule[k].progress.value;
        CountIsWithin(p.stages);
        if NonTerminalCount(p.stages) > mirrored {
          ProgressAtAnyPoint(p, task, start, log, queued, h.stages, mirrored, now);
        }
      }
    }
  }

  /** A poll that is taken over, whole or up to a failure. */
  lemma PollTaken(task: Task<Name>, log: seq<Stage<Name>>, start: Task<Name>, queued: seq<Stage<Name>>,
                  schedule: seq<Event>, k: nat, mirrored: nat, works: bool, h: Reply, now: int, ok: bool,
                  next: Task<Name>, more: seq<Stage<Name>>)
    requires Watching(task, log, start, queued, schedule, k, mirrored, false, works, h, now)
    requires k < |schedule| && schedule[k].Tick? && log != [] && log[|log| - 1].name == task.stage
    requires schedule[k].progress.Some? && ValidProgress(schedule[k].progress.value, task, mirrored)
      && NonTerminalCount(schedule[k].progress.value.stages) > mirrored
    requires SameRelease(next, task) && !IsTerminal(next.stage)
    requires Terminal(next.state) && !Terminal(task.state)
        ==> next.state == schedule[k].progress.value.state == Cancelled
    requires Terminal(task.state) ==> next == task
    requires var p := schedule[k].progress.value;
      && (works && !Terminal(task.state) && DetailsFit(p.stages) && (p.state == Cancelled ==> p.finishedAt != 0) ==> ok)
      && (ok ==>
            more == log + MirroredAll(p.stages[mirrored..NonTerminalCount(p.stages)], task.id, mirrored + 2))
    ensures Watching(next, more, start, queued, schedule, k + 1,
                     if ok then NonTerminalCount(schedule[k].progress.value.stages) else mirrored, !ok, works, h, now)
  {
    hide ValidProgress, Shows, NonTerminalCount, DetailsFit, Terminal, MirroredAll;
    var p := schedule[k].progress.value;
    CountIsWithin(p.stages);
    var available := NonTerminalCount(p.stages);
    if works && PollsFit(schedule, k + 1) && Honest(schedule, k + 1, h) {
      assert PollsFit(schedule, k) && Honest(schedule, k, h);
      assert p.stages[mirrored..available] == h.stages[mirrored..available];
      ProgressAtAnyPoint(p, task, start, log, queued, h.stages, mirrored, now);
      ShowsMore(log, queued, start.id, h.stages, mirrored, available, now);
    }
  }

  lemma PollsAre(schedule: seq<Event>, k: nat)
    requires k <= |schedule| && (forall j | 0 <= j < k :: schedule[j].Tick?) && (k < |schedule| ==> !schedule[k].Tick?)
    ensures Polls(schedule) == k
  {
  }

  /** The polls end without a result. */
  lemma WatchedIsOutcome(task: Task<Name>, log: seq<Stage<Name>>, start: Task<Name>, queued: seq<Stage<Name>>,
                         schedule: seq<Event>, k: nat, mirrored: nat, failed: bool, works: bool, h: Reply, now: int,
                         backup: Option<Evidence>)
    requires Watching(task, log, start, queued, schedule, k, mirrored, failed, works, h, now)
    requires k < |schedule| ==> schedule[k].Stop?
    requires !failed ==> |log| == mirrored + 1
    ensures works ==>
      && Outcome(start, schedule, task, mirrored, failed, task, |log|, now)
      && HonestOutcome(start, queued, backup, schedule, h, task, mirrored, task, log, backup, now)
  {
    hide PollsFit, Honest, Shown, Shows, EndsAs, RestFits, ValidResult, Terminal, IsTerminal, BackupAfter, Polls;
    PollsAre(schedule, k);
  }

  lemma NextCallWorks(repo: Repository<Name>)
    ensures Works(repo) ==> repo.works(repo.calls)
  {
  }

  lemma RestOfFitting(r: Reply, n: nat)
    requires RestFits(r, 1) && 1 <= n <= |r.stages|
    ensures RestFits(r, n)
  {
    var rest := r.stages[1..];
    assert r.stages[n..] == rest[n - 1..];
    FitPart(rest, n - 1, |rest|);
    assert rest[n - 1..|rest|] == rest[n - 1..];
  }

  /** Watching ends with a result. */
  lemma ResultIsOutcome(task: Task<Name>, log: seq<Stage<Name>>, start: Task<Name>, queued: seq<Stage<Name>>,
                        schedule: seq<Event>, k: nat, mirrored: nat, failed: bool, works: bool, h: Reply, now: int,
                        kept: Option<Evidence>, end: Task<Name>, more: seq<Stage<Name>>, backup: Option<Evidence>)
    requires Watching(task, log, start, queued, schedule, k, mirrored, failed, works, h, now)
    requires k < |schedule| && schedule[k].Done? && log != [] && log[|log| - 1].name == task.stage
    requires var r := schedule[k].result;
      works ==>
        if Terminal(task.state) then end == task
        else if !ValidResult(r, task, mirrored) then end == Uncertain(task, "agent_evidence_invalid", now)
        else if failed then end == Uncertain(task, "release_stage_persistence_failed", now)
        else if RestFits(r, mirrored) then
          r.stages != [] && mirrored <= |r.stages| && end == NextRelease(task, r, r.stages[|r.stages| - 1])
          && more == log + MirroredAll(r.stages[mirrored..], task.id, mirrored + 2) && backup == BackupAfter(kept, r)
        else !Terminal(end.state)
    ensures works ==>
      && Outcome(start, schedule, task, mirrored, failed, end, |more|, now)
      && HonestOutcome(start, queued, kept, schedule, h, task, mirrored, end, more, backup, now)
  {
    hide PollsFit, Honest, Shown, Shows, EndsAs, RestFits, ValidResult, ValidProgress, Terminal, IsTerminal,
      BackupAfter, Polls, NextRelease, Uncertain, MirroredAll;
    PollsAre(schedule, k);
    var r := schedule[k].result;
    if works && !Terminal(task.state) && ValidResult(r, task, mirrored) { ResultEndsAs(task, start, r, mirrored); }
    if works && PollsFit(schedule, k) && Honest(schedule, k, h) && r == h && ValidResult(h, start, 1)
      && RestFits(h, 1) {
      ResultHasStages(h, start);
      WithinShown(log, queued, start.id, h.stages, mirrored, now);
      ProgressAtAnyPoint(h, task, start, log, queued, h.stages, mirrored, now);
      ResultAtAnyPoint(h, task, start, mirrored);
      RestOfFitting(h, mirrored);
      ShowsMore(log, queued, start.id, h.stages, mirrored, |h.stages|, now);
      assert h.stages[mirrored..|h.stages|] == h.stages[mirrored..];
    }
  }

  lemma ResultHasStages(h: Reply, start: Task<Name>)
    requires ValidResult(h, start, 1)
    ensures h.stages != []
  {
  }

  lemma WithinShown(log: seq<Stage<Name>>, queued: seq<Stage<Name>>, id: string, stages: seq<Stage<Name>>, n: nat,
                    now: int)
    requires Shows(log, queued, id, stages, n, now)
    ensures 1 <= n <= |stages|
  {
  }

  /** One poll is answered: nothing new, new stages, or a failure to store them. */
  method TakePoll(repo: Repository<Name>, release: Task<Name>, progress: Reply, mirrored: nat, now: int,
                  ghost start: Task<Name>, ghost queued: seq<Stage<Name>>, ghost schedule: seq<Event>, ghost k: nat,
                  ghost h: Reply)
    returns (next: Task<Name>, taken: nat, failed: bool)
    requires IsSafe(repo) && release == repo.task && !IsTerminal(release.stage) && release.state != Succeeded
    requires |repo.log| == mirrored + 1 && 1 <= mirrored && (mirrored == 1 ==> release.stage == Rechecking)
    requires k < |schedule| && schedule[k] == Tick(Some(progress))
    requires Watching(release, repo.log, start, queued, schedule, k, mirrored, false, Works(repo), h, now)
    modifies repo
    ensures IsSafe(repo) && next == repo.task && old(repo.log) <= repo.log && repo.backup == old(repo.backup)
    ensures !IsTerminal(next.stage) && next.state != Succeeded
    ensures !failed ==> |repo.log| == taken + 1 && 1 <= taken && (taken == 1 ==> next.stage == Rechecking)
    ensures Watching(next, repo.log, start, queued, schedule, k + 1, taken, failed, Works(repo), h, now)
  {
    hide Safe, ValidProgress, Works, Watching, DetailsFit, NonTerminalCount, MirroredAll, IsTerminal, StateFor;
    NamesItsStage(release, repo.log, repo.backup, repo.leased);
    next, taken, failed := release, mirrored, false;
    var valid := CheckProgress(progress, release, mirrored);
    if valid && NonTerminalCount(progress.stages) > mirrored {
      ghost var log := repo.log;
      var sequence, ok;
      next, sequence, ok := Poll(repo, release, progress, mirrored);
      PollTaken(release, log, start, queued, schedule, k, mirrored, Works(repo), h, now, ok, next, repo.log);
      failed := !ok;
      if ok {
        taken := NonTerminalCount(progress.stages);
      }
      NotSucceeded(repo.task, repo.log, repo.backup, repo.leased);
    } else {
      PollIgnored(release, repo.log, start, queued, schedule, k, mirrored, false, Works(repo), h, now);
    }
  }

  /** The result comes: it is refused, or marked, or mirrored. */
  method Complete(repo: Repository<Name>, release: Task<Name>, result: Reply, mirrored: nat, persistenceFailed: bool,
                  now: int, ghost start: Task<Name>, ghost queued: seq<Stage<Name>>, ghost schedule: seq<Event>,
                  ghost k: nat, ghost h: Reply)
    requires IsSafe(repo) && release == repo.task && now != 0 && !IsTerminal(release.stage)
    requires !persistenceFailed
        ==> |repo.log| == mirrored + 1 && 1 <= mirrored && (mirrored == 1 ==> release.stage == Rechecking)
    requires k < |schedule| && schedule[k] == Done(result)
    requires repo.log != [] && repo.log[|repo.log| - 1].name == release.stage
    requires Watching(release, repo.log, start, queued, schedule, k, mirrored, persistenceFailed, Works(repo), h, now)
    modifies repo
    ensures IsSafe(repo) && old(repo.log) <= repo.log
    ensures repo.task.state == Succeeded && old(repo.task.state) != Succeeded
        ==> Completes(result, repo.task, repo.log, repo.backup)
    ensures Works(repo) ==>
      && Outcome(start, schedule, release, mirrored, persistenceFailed, repo.task, |repo.log|, now)
      && HonestOutcome(start, queued, old(repo.backup), schedule, h, release, mirrored, repo.task, repo.log,
                       repo.backup, now)
  {
    hide Safe, ValidResult, Completes, Works, BackupAfter, Watching, MirroredAll, Outcome, HonestOutcome, RestFits,
      NextRelease, IsTerminal;
    var valid := CheckResult(result, release, mirrored);
    ghost var log, kept := repo.log, repo.backup;
    if !valid {
      MarkUncertain(repo, release, |repo.log| + 1, "agent_evidence_invalid", now);
    } else if persistenceFailed {
      var _ := StoreBackup(repo, release, result, mirrored);
      MarkUncertain(repo, release, |repo.log| + 1, "release_stage_persistence_failed", now);
    } else {
      ResultHasMore(release, result, mirrored);
      MirrorResult(repo, release, result, mirrored, now);
    }
    ResultIsOutcome(release, log, start, queued, schedule, k, mirrored, persistenceFailed, Works(repo), h, now, kept,
                    repo.task, repo.log, repo.backup);
  }

  /**
   * One run of a queued release over any schedule of polls, ending with the Agent's
   * result, a cancellation or, when the schedule is exhausted, a crash. `row` is the
   * release when the polls end, `taken` how many Agent stages it has by then, `failed`
   * whether one could not be stored; `h` is any answer the polls are compared with.
   */
  method Run(repo: Repository<Name>, schedule: seq<Event>, now: int, ghost h: Reply)
    returns (ghost row: Task<Name>, ghost taken: nat, ghost failed: bool)
    requires IsSafe(repo) && now != 0
    modifies repo
    ensures IsSafe(repo) && old(repo.log) <= repo.log
    ensures old(repo.task.state) != Queued || old(repo.task.stage) != AtQueued
        ==> repo.task == old(repo.task) && repo.log == old(repo.log) && repo.backup == old(repo.backup)
    ensures repo.task.state == Succeeded && old(repo.task.state) != Succeeded ==>
      exists k :: 0 <= k < |schedule| && schedule[k].Done?
                  && Completes(schedule[k].result, repo.task, repo.log, repo.backup)
    ensures Works(repo) && IsQueued(old(repo.task), old(repo.log)) ==>
      && Outcome(old(repo.task), schedule, row, taken, failed, repo.task, |repo.log|, now)
      && HonestOutcome(old(repo.task), old(repo.log), old(repo.backup), schedule, h, row, taken, repo.task, repo.log,
                       repo.backup, now)
  {
    hide Safe, ValidResult, ValidProgress, Completes, ValidEvidence, Continues, Storable, Works, PollsFit, Honest,
      Shown,
      Shows, EndsAs, RestFits, Indexed, BackupAfter, Watching, DetailsFit, NonTerminalCount, MirroredAll, Outcome;
    ghost var start, queued, kept := repo.task, repo.log, repo.backup;
    row, taken, failed := start, 1, false;
    var release := repo.task;
    SafeParts(release, repo.log, repo.backup, repo.leased);
    if release.state != Queued || release.stage != AtQueued {
      return;
    }
    var running := release.(state := Running, stage := Rechecking, updatedAt := now);
    if |repo.log| == 1 {
      StartIsSafe(release, repo.log, repo.backup, repo.leased, now);
      WatchingStarts(start, queued, schedule, Works(repo), h, now);
    }
    NextCallWorks(repo);
    var started := repo.Transition(release.state, release.stage, running,
                                          Stage(release.id, 2, Rechecking, InProgress, "", NO_DETAILS, now));
    if !started {
      return;
    }
    release := running;
    var mirrored: nat, persistenceFailed := 1, false;
    row := release;
    for k := 0 to |schedule|
      invariant IsSafe(repo) && release == repo.task && old(repo.log) <= repo.log
      invariant !IsTerminal(release.stage) && release.state != Succeeded && repo.backup == kept
      invariant !persistenceFailed
          ==> |repo.log| == mirrored + 1 && 1 <= mirrored && (mirrored == 1 ==> release.stage == Rechecking)
      invariant row == release && taken == mirrored && failed == persistenceFailed
      invariant Watching(release, repo.log, start, queued, schedule, k, mirrored, persistenceFailed, Works(repo), h,
                         now)
    {
      NamesItsStage(release, repo.log, repo.backup, repo.leased);
      match schedule[k]
      case Stop =>
        WatchedIsOutcome(release, repo.log, start, queued, schedule, k, mirrored, persistenceFailed, Works(repo), h,
                         now, repo.backup);
        return;
      case Tick(progress) =>
        if !persistenceFailed && progress.Some? {
          release, mirrored, persistenceFailed :=
            TakePoll(repo, release, progress.value, mirrored, now, start, queued, schedule, k, h);
          row, taken, failed := release, mirrored, persistenceFailed;
        } else {
          PollIgnored(release, repo.log, start, queued, schedule, k, mirrored, persistenceFailed, Works(repo), h, now);
        }
      case Done(result) =>
        Complete(repo, release, result, mirrored, persistenceFailed, now, start, queued, schedule, k, h);
        return;
    }
    WatchedIsOutcome(release, repo.log, start, queued, schedule, |schedule|, mirrored, persistenceFailed, Works(repo),
                     h, now, repo.backup);
  }


  lemma NotSucceeded(release: Task<Name>, log: seq<Stage<Name>>, backup: Option<Evidence>, leased: bool)
    requires Safe(release, log, backup, leased) && !IsTerminal(release.stage)
    ensures release.state != Succeeded
  {
  }

  /** The persisted log names the Agent's stages, its own first entry aside, up to entry n. */
  predicate NamesAgree(log: seq<Stage<Name>>, stages: seq<Stage<Name>>, n: nat) {
    n <= |log| && forall i | 1 <= i < n :: i <= |stages| && log[i].name == stages[i - 1].name
  }

  lemma NamesGrow(log: seq<Stage<Name>>, stages: seq<Stage<Name>>, n: nat)
    requires 1 <= n <= |log|
    ensures NamesAgree(log, stages, 1)
    ensures n < |log| && n <= |stages| && NamesAgree(log, stages, n) && log[n].name == stages[n - 1].name
            ==> NamesAgree(log, stages, n + 1)
    ensures n < |log| && n <= |stages| && log[n].name != stages[n - 1].name ==> !NamesAgree(log, stages, |log|)
  {
  }

  /** The recovery answer is accepted: it continues the persisted log and ends the release. */
  predicate Recovers(r: Reply, release: Task<Name>, log: seq<Stage<Name>>) {
    && !(release.state == Queued && release.stage == AtQueued)
    && r.release == release.id && r.stages != [] && r.stages[0].name == Rechecking && 1 <= |log| <= |r.stages| + 1
    && NamesAgree(log, r.stages, |log|) && ValidResult(r, release, |log| - 1)
  }

  /** Some persisted stage has another name than the Agent's. */
  ghost predicate Differs(log: seq<Stage<Name>>, stages: seq<Stage<Name>>) {
    exists i | 0 <= i < |log| - 1 && i < |stages| :: log[i + 1].name != stages[i].name
  }

  /** What recovery leaves: an end that the answer calls for, or a mark with the reason. */
  ghost predicate RecoveryOutcome(release: Task<Name>, log: seq<Stage<Name>>, backup: Option<Evidence>, r: Reply,
                                  end: Task<Name>, more: seq<Stage<Name>>, after: Option<Evidence>, now: int) {
    var n := |log| - 1;
    if release.state == Queued && release.stage == AtQueued then
      end == release.(state := Failed, stage := AtFailed, errorCode := "interrupted_before_agent", updatedAt := now,
                      finishedAt := now)
    else if r.release != release.id || r.stages == [] || r.stages[0].name != Rechecking || n > |r.stages| then
      end == Uncertain(release, "agent_recovery_evidence_invalid", now)
    else if Differs(log, r.stages) then
      end == Uncertain(release, "agent_recovery_stage_mismatch", now)
    else if n < 0 || !ValidResult(r, release, n) then end == Uncertain(release, "agent_recovery_evidence_invalid", now)
    else if RestFits(r, n) then
      && EndsAs(end, release, r) && after == BackupAfter(backup, r)
      && n <= |r.stages| && more == log + MirroredAll(r.stages[n..], release.id, n + 2)
    else !Terminal(end.state)
  }

  lemma MismatchIsThere(log: seq<Stage<Name>>, stages: seq<Stage<Name>>)
    requires 1 <= |log| <= |stages| + 1
    ensures NamesAgree(log, stages, |log|) <==> !Differs(log, stages)
  {
    if NamesAgree(log, stages, |log|) {
      forall i | 0 <= i < |log| - 1 ensures log[i + 1].name == stages[i].name { assert log[i + 1] == log[i + 1]; }
    } else {
      var i :| 1 <= i < |log| && !(i <= |stages| && log[i].name == stages[i - 1].name);
      assert log[i - 1 + 1].name != stages[i - 1].name;
    }
  }

  /** Details that do not fit pass the checks of an answer: this one is accepted and cannot be stored. */
  lemma LongDetailsAreAccepted(release: Task<Name>) returns (r: Reply)
    ensures ValidResult(r, release, 1) && r.state == Failed && !RestFits(r, 1)
  {
    var long := Details("\"" + seq(DETAILS_LIMIT, _ => 'x') + "\"", true);
    var first := Stage(release.id, 1, Rechecking, InProgress, "", NO_DETAILS, 1);
    var last := Stage(release.id, 2, AtFailed, StageResult.Failure, "", long, 1);
    var none := Evidence("", "", "", None, 0, 0, 0, false);
    r := Reply(release.id, Failed, AtFailed, none, [first, last], "", 1);
    assert ValidStageAt(r.stages, release.id, 0) && ValidStageAt(r.stages, release.id, 1);
    assert r.stages[1..][0] == last;
  }

  /**
   * After an interruption: asks the Agent to recover and mirrors what it answers. With a
   * working database the release ends, except when an accepted answer holds details that
   * the database refuses.
   */
  method Reconcile(repo: Repository<Name>, r: Reply, now: int)
    requires IsSafe(repo) && now != 0
    modifies repo
    ensures IsSafe(repo) && old(repo.log) <= repo.log
    ensures Terminal(old(repo.task.state)) ==> repo.task == old(repo.task) && repo.log == old(repo.log)
    ensures repo.task.state == Succeeded && old(repo.task.state) != Succeeded ==>
      Completes(r, repo.task, repo.log, repo.backup)
      && NamesAgree(old(repo.log), r.stages, |old(repo.log)|)
    ensures Works(repo) && !Terminal(old(repo.task.state)) ==>
              (Terminal(repo.task.state) <==>
               !Recovers(r, old(repo.task), old(repo.log)) || RestFits(r, |old(repo.log)| - 1))
    ensures Works(repo) && !Terminal(old(repo.task.state)) ==>
      RecoveryOutcome(old(repo.task), old(repo.log), old(repo.backup), r, repo.task, repo.log, repo.backup, now)
  {
    hide Safe, ValidResult, ValidProgress, Completes, ValidEvidence, Continues, Storable, RestFits, NamesAgree, Works,
      BackupAfter, MirroredAll, EndsAs, NextRelease, Differs, IsTerminal;
    var release := repo.task;
    SafeParts(release, repo.log, repo.backup, repo.leased);
    if Terminal(release.state) {
      return;
    }
    var stages := repo.log;
    assert |stages| <= STAGE_LIMIT;
    LastIsCurrent(release, stages, repo.backup, repo.leased);
    if release.state == Queued && release.stage == AtQueued {
      Abandon(repo, release, now);
      return;
    }
    if r.release != release.id || r.stages == [] || r.stages[0].name != Rechecking || |stages| > |r.stages| + 1 {
      MarkUncertain(repo, release, |stages| + 1, "agent_recovery_evidence_invalid", now);
      return;
    }
    MismatchIsThere(stages, r.stages);
    NamesGrow(stages, r.stages, 1);
    for index := 1 to |stages|
      invariant repo.log == stages && repo.task == release && repo.backup == old(repo.backup) && IsSafe(repo)
      invariant NamesAgree(stages, r.stages, index)
    {
      NamesGrow(stages, r.stages, index);
      if stages[index].name != r.stages[index - 1].name {
        MarkUncertain(repo, release, |stages| + 1, "agent_recovery_stage_mismatch", now);
        return;
      }
    }
    MirrorRecovered(repo, release, r, now);
  }

  /** The answer names the persisted stages: it is checked and mirrored from there on. */
  method MirrorRecovered(repo: Repository<Name>, release: Task<Name>, r: Reply, now: int)
    requires IsSafe(repo) && now != 0 && release == repo.task && !Terminal(release.state) && !IsTerminal(release.stage)
    requires 1 <= |repo.log| <= |r.stages| + 1 && r.stages != [] && r.stages[0].name == Rechecking
    requires r.release == release.id && !(release.state == Queued && release.stage == AtQueued)
    requires !Differs(repo.log, r.stages) && (|repo.log| == 2 ==> release.stage == Rechecking)
    modifies repo
    ensures IsSafe(repo) && old(repo.log) <= repo.log
    ensures repo.task.state == Succeeded ==> Completes(r, repo.task, repo.log, repo.backup)
    ensures Works(repo) ==>
              (Terminal(repo.task.state) <==>
               !ValidResult(r, release, |old(repo.log)| - 1) || RestFits(r, |old(repo.log)| - 1))
    ensures Works(repo) ==>
      RecoveryOutcome(release, old(repo.log), old(repo.backup), r, repo.task, repo.log, repo.backup, now)
  {
    hide Safe, ValidResult, ValidProgress, Completes, ValidEvidence, Continues, Storable, RestFits, Works,
      BackupAfter, MirroredAll, EndsAs, NextRelease, Differs, IsTerminal;
    SafeParts(release, repo.log, repo.backup, repo.leased);
    var from := |repo.log| - 1;
    var valid := CheckResult(r, release, from);
    if !valid {
      MarkUncertain(repo, release, from + 2, "agent_recovery_evidence_invalid", now);
      return;
    }
    ResultEndsAs(release, release, r, from);
    ResultHasMore(release, r, from);
    MirrorResult(repo, release, r, from, now);
  }

  lemma LastIsCurrent(release: Task<Name>, log: seq<Stage<Name>>, backup: Option<Evidence>, leased: bool)
    requires Safe(release, log, backup, leased) && !Terminal(release.state)
    ensures log != [] && log[|log| - 1].name == release.stage && !IsTerminal(release.stage)
  {
  }

  /** A release that never reached the Agent fails. */
  method Abandon(repo: Repository<Name>, release: Task<Name>, now: int)
    requires IsSafe(repo) && release == repo.task && release.state == Queued && release.stage == AtQueued && now != 0
    modifies repo
    ensures IsSafe(repo) && old(repo.log) <= repo.log && repo.task.state != Succeeded
    ensures Works(repo) ==>
      repo.task == release.(state := Failed, stage := AtFailed, errorCode := "interrupted_before_agent",
                            updatedAt := now, finishedAt := now)
  {
    SafeParts(release, repo.log, repo.backup, repo.leased);
    var next := release.(state := Failed, stage := AtFailed, errorCode := "interrupted_before_agent",
                         updatedAt := now, finishedAt := now);
    var stage := Stage(release.id, |repo.log| + 1, AtFailed, StageResult.Failure, next.errorCode, NO_DETAILS, now);
    TransitionIsSafe(release, repo.log, repo.backup, next, stage);
    var _ := repo.Transition(release.state, release.stage, next, stage);
  }
}
