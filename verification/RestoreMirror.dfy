// Mirroring a restore log (internal/config/recovery_orchestration.go).
module RestoreMirror {
  import opened Outcomes
  import opened TaskLog

  datatype Name =
    | AtQueued | TargetVerifying | TargetValidated | SafetyBackupCreating | SafetyBackupVerified
    | FilesRestoring | FilesRestored | ProductionValidated | ReloadRequested | RuntimeConfirmed | AtSucceeded
    | RollbackApplying | RollbackFilesRestored | RollbackValidated | RollbackReloadRequested | AtRolledBack
    | AtFailed | AtNeedsAttention | OtherName

  /** Anything an Agent may answer, for the preparation as for the execution. */
  datatype Reply = Reply(restore: string, state: State, stage: Name, backup: Evidence, stages: seq<Stage<Name>>,
                         errorCode: string, finishedAt: int)

  // ----- the pure checks

  function StateFor(name: Name): State {
    match name
    case AtQueued => Queued
    case AtSucceeded => Succeeded
    case AtFailed => Failed
    case AtRolledBack => RolledBack
    case AtNeedsAttention => NeedsAttention
    case RollbackApplying => RollingBack
    case RollbackFilesRestored => RollingBack
    case RollbackValidated => RollingBack
    case RollbackReloadRequested => RollingBack
    case OtherName => OtherState
    case _ => Running
  }

  predicate Ends(name: Name) {
    Terminal(StateFor(name))
  }

  function Order(name: Name): int {
    match name
    case AtQueued => 0
    case TargetVerifying => 1
    case TargetValidated => 2
    case SafetyBackupCreating => 3
    case SafetyBackupVerified => 4
    case FilesRestoring => 5
    case FilesRestored => 6
    case ProductionValidated => 7
    case ReloadRequested => 8
    case RuntimeConfirmed => 9
    case AtSucceeded => 10
    case RollbackApplying => 20
    case RollbackFilesRestored => 21
    case RollbackValidated => 22
    case RollbackReloadRequested => 23
    case AtRolledBack => 24
    case AtFailed => 30
    case AtNeedsAttention => 31
    case OtherName => -1
  }

  predicate ValidStageAt(stages: seq<Stage<Name>>, id: string, i: nat)
    requires i < |stages|
  {
    var s := stages[i];
    && s.task == id && s.sequence == i + 1 && Order(s.name) >= 0 && s.result != OtherResult && s.at != 0
    && s.details.isJson
    && (i > 0 ==> Order(stages[i - 1].name) <= Order(s.name))
  }

  /** Unlike for a release, a stage that ends the restore may stand in the middle. */
  predicate ValidStages(stages: seq<Stage<Name>>, id: string) {
    forall i | 0 <= i < |stages| :: ValidStageAt(stages, id, i)
  }

  /** What every accepted reply states about itself. */
  predicate ValidReply(r: Reply, id: string) {
    && r.restore == id && r.stages != [] && r.stage == r.stages[|r.stages| - 1].name && StateFor(r.stage) == r.state
    && ValidStages(r.stages, id)
  }

  predicate ValidPreparation(r: Reply, task: Task<Name>) {
    && ValidReply(r, task.id) && r.stages[0].name == TargetVerifying
    && if Terminal(r.state) then r.finishedAt != 0
       else r.state == Running && r.stage == SafetyBackupVerified && r.finishedAt == 0
            && r.backup.backupId == task.backupId && r.backup.productionDigest == task.productionDigest
  }

  predicate SameSafetyBackup(r: Reply, task: Task<Name>, prepared: Reply) {
    r.backup.backupId == task.backupId && r.backup.treeDigest == prepared.backup.treeDigest
  }

  predicate ValidProgress(r: Reply, task: Task<Name>, prepared: Reply, prefix: seq<Stage<Name>>) {
    && ValidReply(r, task.id) && |prefix| <= |r.stages| < STAGE_LIMIT && r.stages[0].name == TargetVerifying
    && SameSafetyBackup(r, task, prepared)
    && (r.state == Running || r.state == RollingBack || Terminal(r.state))
    && (Terminal(r.state) <==> r.finishedAt != 0)
    && (|prefix| > 1 ==> r.stages[|prefix| - 1].name == task.stage)
    && prefix <= r.stages
  }

  predicate ValidExecution(r: Reply, task: Task<Name>, prepared: Reply, prefix: seq<Stage<Name>>) {
    && ValidReply(r, task.id) && Terminal(r.state) && r.finishedAt != 0 && |prepared.stages| < |r.stages|
    && prepared.stages <= r.stages && SameSafetyBackup(r, task, prepared)
    && prefix <= r.stages && |prefix| < |r.stages|
  }

  /** The stages of a reply without the one that ended the restore. */
  function NonTerminalCount(r: Reply): (n: nat)
    ensures n <= |r.stages| <= n + 1
    ensures r.stages != [] ==> (n < |r.stages| <==> Terminal(r.state))
  {
    if Terminal(r.state) && r.stages != [] then |r.stages| - 1 else |r.stages|
  }

  predicate ValidSafetyBackup(e: Evidence, task: Task<Name>) {
    && e.backupId == task.backupId && e.taskId == task.id && e.productionDigest == task.productionDigest
    && e.treeDigest.Some? && e.entryCount > 0 && e.totalBytes >= 0 && e.verifiedAt != 0
  }

  /** The stages of a restore in their order: to the success, back from it, and the two other ends. */
  const COURSE := [AtQueued, TargetVerifying, TargetValidated, SafetyBackupCreating, SafetyBackupVerified,
                   FilesRestoring, FilesRestored, ProductionValidated, ReloadRequested, RuntimeConfirmed, AtSucceeded,
                   RollbackApplying, RollbackFilesRestored, RollbackValidated, RollbackReloadRequested,
                   AtRolledBack, AtFailed, AtNeedsAttention]

  lemma StagesAreOrdered()
    ensures forall i | 0 <= i < |COURSE| :: Order(COURSE[i]) == if i <= 10 then i else if i <= 15 then i + 9 else i + 14
    ensures forall name :: name in COURSE <==> name != OtherName
    ensures Order(OtherName) < 0
  {
  }

  lemma StatesOfStages()
    ensures forall name :: StateFor(name) == Succeeded <==> name == AtSucceeded
    ensures forall name :: StateFor(name) == RolledBack <==> name == AtRolledBack
    ensures forall name :: StateFor(name) == Failed <==> name == AtFailed
    ensures forall name :: StateFor(name) == NeedsAttention <==> name == AtNeedsAttention
    ensures forall name :: StateFor(name) == Queued <==> name == AtQueued
    ensures forall name :: StateFor(name) == OtherState <==> name == OtherName
    ensures forall name :: StateFor(name) == Running <==> name in COURSE[1..10]
    ensures forall name :: StateFor(name) == RollingBack <==> name in COURSE[11..15]
    ensures forall name :: Ends(name) <==> name in {AtSucceeded, AtRolledBack, AtFailed, AtNeedsAttention}
  {
    forall name ensures StateFor(name) == Running <==> name in COURSE[1..10] {
      assert COURSE[1..10] == [TargetVerifying, TargetValidated, SafetyBackupCreating, SafetyBackupVerified,
                               FilesRestoring, FilesRestored, ProductionValidated, ReloadRequested, RuntimeConfirmed];
    }
    forall name ensures StateFor(name) == RollingBack <==> name in COURSE[11..15] {
      assert COURSE[11..15] == [RollbackApplying, RollbackFilesRestored, RollbackValidated, RollbackReloadRequested];
    }
  }

  // ----- the checks as they are made

  method CheckStages(stages: seq<Stage<Name>>, id: string) returns (ok: bool)
    ensures ok <==> ValidStages(stages, id)
  {
    hide Order;
    var lastOrder := -1;
    for index := 0 to |stages|
      invariant forall i | 0 <= i < index :: ValidStageAt(stages, id, i)
      invariant lastOrder == if index == 0 then -1 else Order(stages[index - 1].name)
    {
      var stage := stages[index];
      var order := Order(stage.name);
      if stage.task != id || stage.sequence != index + 1 || order < 0 || order < lastOrder
        || stage.result == OtherResult || stage.at == 0 || !stage.details.isJson {
        assert !ValidStageAt(stages, id, index);
        return false;
      }
      lastOrder := order;
    }
    return true;
  }

  method CheckReply(r: Reply, id: string) returns (ok: bool)
    ensures ok <==> ValidReply(r, id)
  {
    hide ValidStages, StateFor;
    if r.restore != id || r.stages == [] || r.stage != r.stages[|r.stages| - 1].name || StateFor(r.stage) != r.state {
      return false;
    }
    ok := CheckStages(r.stages, id);
  }

  method CheckPreparation(r: Reply, task: Task<Name>) returns (ok: bool)
    ensures ok <==> ValidPreparation(r, task)
  {
    hide StateFor, ValidStages;
    ok := CheckReply(r, task.id);
    if !ok || r.stages[0].name != TargetVerifying {
      return false;
    }
    if Terminal(r.state) {
      return r.finishedAt != 0;
    }
    return r.state == Running && r.stage == SafetyBackupVerified && r.finishedAt == 0
      && r.backup.backupId == task.backupId && r.backup.productionDigest == task.productionDigest;
  }

  /** One by one the stages of the prefix are compared. */
  method SamePrefix(prefix: seq<Stage<Name>>, stages: seq<Stage<Name>>) returns (same: bool)
    ensures same <==> prefix <= stages
  {
    if |prefix| > |stages| {
      return false;
    }
    for index := 0 to |prefix|
      invariant prefix[..index] == stages[..index]
    {
      if prefix[index] != stages[index] {
        return false;
      }
    }
    return true;
  }

  method CheckProgress(r: Reply, task: Task<Name>, prepared: Reply, prefix: seq<Stage<Name>>) returns (ok: bool)
    ensures ok <==> ValidProgress(r, task, prepared, prefix)
  {
    hide ValidStages, StateFor;
    if |r.stages| < |prefix| || |r.stages| >= 512 {
      return false;
    }
    ok := CheckReply(r, task.id);
    if !ok || r.stages[0].name != TargetVerifying || r.backup.backupId != task.backupId
      || r.backup.treeDigest != prepared.backup.treeDigest {
      return false;
    }
    if r.state != Running && r.state != RollingBack && !Terminal(r.state) {
      return false;
    }
    if Terminal(r.state) != (r.finishedAt != 0) {
      return false;
    }
    if |prefix| > 1 && r.stages[|prefix| - 1].name != task.stage {
      return false;
    }
    ok := SamePrefix(prefix, r.stages);
  }

  method CheckExecution(r: Reply, task: Task<Name>, prepared: Reply, prefix: seq<Stage<Name>>) returns (ok: bool)
    ensures ok <==> ValidExecution(r, task, prepared, prefix)
  {
    hide ValidStages, StateFor;
    if !Terminal(r.state) || r.finishedAt == 0 || |r.stages| <= |prepared.stages| {
      return false;
    }
    ok := CheckReply(r, task.id);
    if !ok {
      return false;
    }
    ok := SamePrefix(prepared.stages, r.stages);
    if !ok || r.backup.backupId != task.backupId || r.backup.treeDigest != prepared.backup.treeDigest {
      return false;
    }
    ok := SamePrefix(prefix, r.stages);
    ok := ok && |prefix| < |r.stages|;
  }

  // ----- what the persisted restore always satisfies

  predicate InOrderAt(id: string, log: seq<Stage<Name>>, i: nat)
    requires i < |log|
  {
    && log[i].sequence == i + 1 && log[i].task == id && Order(log[i].name) >= 0
    && (i + 1 < |log| ==> !Ends(log[i].name) && Order(log[i].name) <= Order(log[i + 1].name))
  }

  /** Sequences 1..n, stages in order, nothing after one that ends the restore; the row names the last stage. */
  predicate Safe(task: Task<Name>, log: seq<Stage<Name>>, leased: bool) {
    && task.id != "" && task.updatedAt != 0 && task.state == StateFor(task.stage) && task.state != OtherState
    && (Terminal(task.state) <==> task.finishedAt != 0) && (Terminal(task.state) <==> !leased)
    && log != [] && log[|log| - 1].name == task.stage && (forall i | 0 <= i < |log| :: InOrderAt(task.id, log, i))
    && task.updatedAt == log[|log| - 1].at && (!Terminal(task.state) ==> task.errorCode == log[|log| - 1].code)
    && (|log| == 1 ==> task.errorCode == "")
  }

  predicate IsSafe(repo: Repository<Name>)
    reads repo
  {
    Safe(repo.task, repo.log, repo.leased)
  }

  /** Every call of the database works. */
  ghost predicate Works(repo: Repository<Name>) {
    forall n :: repo.works(n)
  }

  /** It also accepts the details of these stages. */
  ghost predicate Accepts(repo: Repository<Name>, stages: seq<Stage<Name>>) {
    Works(repo) && DetailsFit(stages)
  }

  lemma SafeParts(task: Task<Name>, log: seq<Stage<Name>>, leased: bool)
    requires Safe(task, log, leased)
    ensures log != [] && LastSequence(log) == |log| && (Terminal(task.state) <==> !leased) && task.id != ""
    ensures |log| == 1 ==> task.errorCode == ""
    ensures (Terminal(task.state) <==> task.finishedAt != 0) && task.state == StateFor(task.stage)
    ensures Terminal(task.state) <==> Ends(task.stage)
  {
    assert InOrderAt(task.id, log, |log| - 1);
  }

  lemma TransitionIsSafe(task: Task<Name>, log: seq<Stage<Name>>, next: Task<Name>, stage: Stage<Name>)
    requires Safe(task, log, true) && Storable(next) && stage.task == next.id && stage.name == next.stage
    requires next == task.(state := next.state, stage := next.stage, errorCode := next.errorCode,
                           updatedAt := next.updatedAt, finishedAt := next.finishedAt)
    requires stage.sequence == |log| + 1 && Order(task.stage) <= Order(stage.name) && Order(stage.name) >= 0
    requires next.state == StateFor(next.stage)
    requires next.updatedAt == stage.at && (!Terminal(next.state) ==> next.errorCode == stage.code)
    ensures Safe(next, log + [stage], !Terminal(next.state))
  {
    var more := log + [stage];
    forall i | 0 <= i < |more| ensures InOrderAt(next.id, more, i) {
      if i < |log| { assert InOrderAt(task.id, log, i); }
    }
  }

  // ----- mirroring

  /** The row that a whole reply leaves behind. */
  ghost predicate EndsAs(now: Task<Name>, task: Task<Name>, r: Reply) {
    r.stages != [] && now == task.(state := r.state, stage := r.stage, errorCode := r.errorCode,
                                   updatedAt := r.stages[|r.stages| - 1].at, finishedAt := r.finishedAt)
  }

  function Uncertain(task: Task<Name>, code: string, now: int): Task<Name> {
    task.(state := NeedsAttention, stage := AtNeedsAttention, errorCode := code, updatedAt := now, finishedAt := now)
  }

  /** The last stage of a batch takes the state of the whole reply. */
  function NextTask(task: Task<Name>, r: Reply, stage: Stage<Name>, isLast: bool): Task<Name> {
    var state := if isLast && stage.name == r.stage && Terminal(r.state) then r.state else StateFor(stage.name);
    var next := task.(stage := stage.name, state := state, updatedAt := stage.at, errorCode := stage.code);
    if Terminal(state) then next.(finishedAt := r.finishedAt, errorCode := r.errorCode) else next
  }

  /** Nothing but an uncertain end was added, if anything. */
  predicate MarkedAtMost(before: seq<Stage<Name>>, log: seq<Stage<Name>>) {
    before <= log && |log| <= |before| + 1 && (|log| == |before| + 1 ==> log[|before|].name == AtNeedsAttention)
  }

  method MarkUncertain(repo: Repository<Name>, task: Task<Name>, sequence: nat, code: string, now: int)
    requires IsSafe(repo) && task == repo.task && sequence == |repo.log| + 1 && now != 0
    modifies repo
    ensures IsSafe(repo) && MarkedAtMost(old(repo.log), repo.log) && repo.backup == old(repo.backup)
    ensures |repo.log| == |old(repo.log)| ==> repo.task == task
    ensures SameRestore(repo.task, task)
    ensures |repo.log| != |old(repo.log)| ==>
      && repo.task == Uncertain(task, code, now)
      && repo.log == old(repo.log) + [Stage(task.id, sequence, AtNeedsAttention, StageResult.Failure, code,
                                            Details("{}", true), now)]
    ensures Terminal(task.state) ==> repo.task == task && repo.log == old(repo.log)
    ensures Works(repo) && !Terminal(task.state) ==> repo.task == Uncertain(task, code, now)
    ensures Works(repo) ==> Terminal(repo.task.state)
  {
    SafeParts(task, repo.log, repo.leased);
    var next := task.(state := NeedsAttention, stage := AtNeedsAttention, errorCode := code, updatedAt := now,
                      finishedAt := now);
    var stage := Stage(task.id, sequence, AtNeedsAttention, StageResult.Failure, code, NO_DETAILS, now);
    if !Terminal(task.state) {
      LastIsBelow(task, repo.log, repo.leased);
      TransitionIsSafe(task, repo.log, next, stage);
    }
    var _ := repo.Transition(task.state, task.stage, next, stage);
  }

  lemma LastIsBelow(task: Task<Name>, log: seq<Stage<Name>>, leased: bool)
    requires Safe(task, log, leased)
    ensures 0 <= Order(task.stage) <= Order(AtNeedsAttention)
  {
    assert InOrderAt(task.id, log, |log| - 1);
  }

  /** What mirroring one stage of a valid reply does to the row. */
  lemma MirrorIsSafe(task: Task<Name>, log: seq<Stage<Name>>, leased: bool, r: Reply, i: nat, isLast: bool)
    requires Safe(task, log, leased) && ValidReply(r, task.id) && i < |r.stages| && |log| == i + 1
    requires Order(task.stage) <= Order(r.stages[i].name)
    ensures var next := NextTask(task, r, r.stages[i], isLast);
      && next.state == StateFor(next.stage) && next.stage == r.stages[i].name && next.id == task.id
      && next == task.(state := next.state, stage := next.stage, errorCode := next.errorCode,
                       updatedAt := next.updatedAt, finishedAt := next.finishedAt)
      && (StorableStage(Mirrored(r.stages[i], task.id, i + 2)) <==> |r.stages[i].details.text| <= DETAILS_LIMIT)
      && (leased && Storable(next) ==> Safe(next, log + [Mirrored(r.stages[i], task.id, i + 2)], !Terminal(next.state)))
      && (leased ==> (Storable(next) <==> (Ends(r.stages[i].name) ==> r.finishedAt != 0)))
      && (!leased && Storable(next) ==> Terminal(next.state))
      && (i + 1 < |r.stages| ==> Order(next.stage) <= Order(r.stages[i + 1].name))
  {
    assert ValidStageAt(r.stages, task.id, i);
    if i + 1 < |r.stages| { assert ValidStageAt(r.stages, task.id, i + 1); }
    var next := NextTask(task, r, r.stages[i], isLast);
    if leased && Storable(next) {
      TransitionIsSafe(task, log, next, Mirrored(r.stages[i], task.id, i + 2));
    }
  }

  /** What no transition changes. */
  predicate SameRestore(next: Task<Name>, task: Task<Name>) {
    next.id == task.id && next.backupId == task.backupId && next.productionDigest == task.productionDigest
  }

  method MirrorOne(repo: Repository<Name>, task: Task<Name>, r: Reply, i: nat, isLast: bool)
      returns (next: Task<Name>, accepted: bool)
    requires IsSafe(repo) && task == repo.task && |repo.log| == i + 1
    requires ValidReply(r, task.id) && i < |r.stages| && Order(task.stage) <= Order(r.stages[i].name)
    modifies repo
    ensures IsSafe(repo) && next == repo.task && SameRestore(next, task) && repo.backup == old(repo.backup)
    ensures accepted ==> repo.log == old(repo.log) + [Mirrored(r.stages[i], task.id, i + 2)]
                         && next == NextTask(task, r, r.stages[i], isLast) && next.stage == r.stages[i].name
    ensures accepted && i + 1 < |r.stages| ==> Order(next.stage) <= Order(r.stages[i + 1].name)
    ensures !accepted ==> repo.log == old(repo.log) && next == task
    ensures Terminal(task.state) ==> !accepted
    ensures accepted ==> |r.stages[i].details.text| <= DETAILS_LIMIT
    ensures Works(repo) && !Terminal(task.state) && |r.stages[i].details.text| <= DETAILS_LIMIT
               && (Ends(r.stages[i].name) ==> r.finishedAt != 0)
            ==> accepted
  {
    hide Safe, ValidReply, NextTask, Storable, StorableStage, Order;
    SafeParts(task, repo.log, repo.leased);
    MirrorIsSafe(task, repo.log, repo.leased, r, i, isLast);
    var following := NextTask(task, r, r.stages[i], isLast);
    accepted := repo.Transition(task.state, task.stage, following, Mirrored(r.stages[i], task.id, i + 2));
    next := if accepted then following else task;
  }

  lemma LastStageEnds(task: Task<Name>, current: Task<Name>, r: Reply)
    requires SameRestore(current, task) && ValidReply(r, task.id) && Terminal(r.state)
    ensures EndsAs(NextTask(current, r, r.stages[|r.stages| - 1], true), task, r)
  {
  }

  lemma ReplyHasStages(r: Reply, id: string)
    requires ValidReply(r, id)
    ensures r.stages != []
  {
  }

  /** No stage before the last one ends the restore. */
  predicate EndsOnlyLast(stages: seq<Stage<Name>>) {
    forall i | 0 <= i < |stages| - 1 :: !Ends(stages[i].name)
  }

  /**
   * The log after its first two entries is the Agent's log after its first, up to n stages,
   * sequences shifted by one.
   */
  predicate Copies(id: string, log: seq<Stage<Name>>, stages: seq<Stage<Name>>, n: int) {
    1 <= n < |log| && (n == 1 || n <= |stages|) && forall i | 1 <= i < n :: log[i + 1] == Mirrored(stages[i], id, i + 2)
  }

  /** Where the first stage that ends the restore stands, if there is one. */
  function FirstEnd(stages: seq<Stage<Name>>): (k: nat)
    ensures k <= |stages| && (k < |stages| ==> Ends(stages[k].name))
    ensures forall i | 0 <= i < k :: !Ends(stages[i].name)
  {
    if stages == [] || Ends(stages[0].name) then 0
    else
      var k := FirstEnd(stages[1..]);
      assert forall i | 1 <= i < k + 1 :: stages[i] == stages[1..][i - 1];
      k + 1
  }

  /** The persisted log is a prefix of the Agent's whose first stage was written locally, but for an uncertain end. */
  predicate Traced(id: string, log: seq<Stage<Name>>, stages: seq<Stage<Name>>) {
    || Copies(id, log, stages, |log| - 1)
    || (|log| > 1 && log[|log| - 1].name == AtNeedsAttention && Copies(id, log, stages, |log| - 2))
  }

  lemma CopiesExtend(id: string, log: seq<Stage<Name>>, stages: seq<Stage<Name>>, n: nat)
    requires Copies(id, log, stages, n) && n < |stages| && |log| == n + 1
    ensures Copies(id, log + [Mirrored(stages[n], id, n + 2)], stages, n + 1)
  {
  }

  lemma CopiesOfPrefix(id: string, log: seq<Stage<Name>>, prefix: seq<Stage<Name>>, stages: seq<Stage<Name>>, n: nat)
    requires Copies(id, log, prefix, n) && prefix <= stages
    ensures Copies(id, log, stages, n)
  {
  }

  lemma CopiesKept(id: string, before: seq<Stage<Name>>, log: seq<Stage<Name>>, stages: seq<Stage<Name>>, n: nat)
    requires Copies(id, before, stages, n) && before <= log
    ensures Copies(id, log, stages, n)
  {
  }

  /** None of the stages ends the restore, except that the last one may at the time the reply states. */
  predicate MayMirror(r: Reply, from: nat, to: nat)
    requires to <= |r.stages|
  {
    forall i | from <= i < to :: Ends(r.stages[i].name) ==> i == to - 1 && r.finishedAt != 0
  }

  /** Copies the Agent's stages from..to, stopping at the first refused transition or at the limit. */
  method MirrorStages(repo: Repository<Name>, task: Task<Name>, r: Reply, from: nat, to: nat, now: int)
    returns (next: Task<Name>, sequence: nat, ok: bool)
    requires IsSafe(repo) && task == repo.task && now != 0 && from <= to <= |r.stages| && |repo.log| == from + 1
    requires ValidReply(r, task.id) && Copies(task.id, repo.log, r.stages, from)
    requires from < |r.stages| ==> Order(task.stage) <= Order(r.stages[from].name)
    modifies repo
    ensures IsSafe(repo) && old(repo.log) <= repo.log && SameRestore(repo.task, task) && repo.backup == old(repo.backup)
    ensures from + 2 <= sequence <= to + 2 && Copies(task.id, repo.log, r.stages, sequence - 2)
    ensures Traced(task.id, repo.log, r.stages)
    ensures |r.stages| < STAGE_LIMIT || ok ==> next == repo.task && |repo.log| == sequence - 1
    ensures ok ==> sequence == to + 2 && (from < to ==> next.stage == r.stages[to - 1].name)
                   && DetailsFit(r.stages[from..to])
    ensures ok && from < to == |r.stages| && Terminal(r.state) ==> EndsAs(repo.task, task, r)
    ensures |repo.log| == from + 1 ==> repo.task == task
    ensures Accepts(repo, r.stages[from..to]) && !ok && (r.finishedAt != 0 || MayMirror(r, from, to))
            ==> Terminal(repo.task.state)
    ensures Accepts(repo, r.stages[from..to]) && !Terminal(task.state) && to < STAGE_LIMIT && MayMirror(r, from, to)
            ==> ok
  {
    hide Works, Safe, ValidReply, Order, Mirrored, StateFor, Terminal, Ends, Copies, ValidStages, Storable, DetailsFit,
      EndsAs, NextTask;
    NothingFits(r.stages, from);
    SafeParts(task, repo.log, repo.leased);
    next, sequence := task, |repo.log| + 1;
    for i := from to to
      invariant IsSafe(repo) && next == repo.task && sequence == |repo.log| + 1 == i + 2 && old(repo.log) <= repo.log
      invariant SameRestore(next, task) && ValidReply(r, task.id) && Copies(task.id, repo.log, r.stages, i)
      invariant repo.backup == old(repo.backup)
      invariant i < |r.stages| ==> Order(next.stage) <= Order(r.stages[i].name)
      invariant i > from ==> next.stage == r.stages[i - 1].name
      invariant i == from ==> next == task
      invariant from < i == to == |r.stages| && Terminal(r.state) ==> EndsAs(next, task, r)
      invariant DetailsFit(r.stages[from..i])
      invariant Terminal(next.state) <==> Ends(next.stage)
    {
      ghost var before, current := repo.log, next;
      if sequence > STAGE_LIMIT {
        MarkUncertain(repo, next, sequence, "restore_stage_limit", now);
        CopiesKept(task.id, before, repo.log, r.stages, i);
        return next, sequence, false;
      }
      var accepted;
      next, accepted := MirrorOne(repo, next, r, i, i == to - 1);
      FitGrows(r.stages, from, i);
      if !accepted {
        if DetailsFit(r.stages[from..to]) { FitAt(r.stages, from, to, i); }
        return next, sequence, false;
      }
      sequence := sequence + 1;
      if i == |r.stages| - 1 && Terminal(r.state) { LastStageEnds(task, current, r); }
      CopiesExtend(task.id, before, r.stages, i);
      SafeParts(next, repo.log, repo.leased);
    }
    return next, sequence, true;
  }

  // ----- one run

  datatype Event = Tick(progress: Option<Reply>) | Done(result: Reply) | Stop

  /**
   * How a run returned: without asking the Agent, left for reconciliation, uncertain, or with a
   * reply it mirrored, wholly or not.
   */
  datatype End = Refused | Interrupted | Doubted | Mirrors(reply: Reply, whole: bool)

  /** What the run knows between two polls. */
  predicate Follows(task: Task<Name>, log: seq<Stage<Name>>, prefix: seq<Stage<Name>>) {
    && prefix != [] && |log| == |prefix| + 1 && Copies(task.id, log, prefix, |prefix|)
    && task.stage == prefix[|prefix| - 1].name
  }

  /** The row ended with the first of the Agent's stages that ends the restore. */
  predicate EndsWith(task: Task<Name>, log: seq<Stage<Name>>, stages: seq<Stage<Name>>) {
    var k := FirstEnd(stages);
    0 < k < |stages| && Copies(task.id, log, stages, k + 1) && |log| == k + 2 && task.stage == stages[k].name
      && task.state == StateFor(task.stage)
  }

  lemma SafeEndsWith(task: Task<Name>, log: seq<Stage<Name>>, leased: bool, stages: seq<Stage<Name>>)
    requires Safe(task, log, leased) && Terminal(task.state) && |log| > 2 && Copies(task.id, log, stages, |log| - 1)
    requires !Ends(stages[0].name)
    ensures EndsWith(task, log, stages)
  {
    var n := |log| - 1;
    forall i | 1 <= i < n - 1 ensures !Ends(stages[i].name) {
      assert InOrderAt(task.id, log, i + 1);
      assert log[i + 1] == Mirrored(stages[i], task.id, i + 2);
    }
    assert log[n] == Mirrored(stages[n - 1], task.id, n + 1);
  }

  lemma OnlyLastEnds(stages: seq<Stage<Name>>)
    requires stages != [] && Ends(stages[|stages| - 1].name)
    ensures EndsOnlyLast(stages) <==> FirstEnd(stages) == |stages| - 1
  {
  }

  lemma ResultParts(r: Reply, task: Task<Name>, prepared: Reply, prefix: seq<Stage<Name>>)
    requires ValidExecution(r, task, prepared, prefix) && prefix != []
    ensures ValidReply(r, task.id) && Terminal(r.state) && r.finishedAt != 0 && prefix < r.stages
    ensures Ends(r.stages[|r.stages| - 1].name) && StateFor(r.stage) == r.state
    ensures r.stage == r.stages[|r.stages| - 1].name
    ensures Order(prefix[|prefix| - 1].name) <= Order(r.stages[|prefix|].name)
  {
    assert ValidStageAt(r.stages, task.id, |prefix|);
  }

  lemma TracedMarked(task: Task<Name>, before: seq<Stage<Name>>, leased: bool, log: seq<Stage<Name>>,
                     source: seq<Stage<Name>>)
    requires Safe(task, before, leased) && Traced(task.id, before, source) && MarkedAtMost(before, log)
    requires Terminal(task.state) ==> log == before
    ensures Traced(task.id, log, source)
  {
    if Copies(task.id, before, source, |before| - 1) { CopiesKept(task.id, before, log, source, |before| - 1); }
  }

  /** Judges the Agent's result and mirrors the rest of its log. */
  method Finish(repo: Repository<Name>, task: Task<Name>, prepared: Reply, prefix: seq<Stage<Name>>, failed: bool,
                r: Reply, now: int, ghost source: seq<Stage<Name>>)
    returns (end: End)
    requires IsSafe(repo) && task == repo.task && now != 0 && prefix != [] && !Ends(prefix[0].name)
    requires !failed ==> Follows(task, repo.log, prefix)
    requires Traced(task.id, repo.log, source)
    modifies repo
    ensures IsSafe(repo) && old(repo.log) <= repo.log && repo.backup == old(repo.backup) && SameRestore(repo.task, task)
    ensures if ValidExecution(r, task, prepared, prefix) && !failed then end.Mirrors?
        && end.reply == r else end == Doubted
    ensures end == Doubted ==> MarkedAtMost(old(repo.log), repo.log) && Traced(task.id, repo.log, source)
    ensures end.Mirrors? ==> Traced(task.id, repo.log, r.stages)
    ensures end == Mirrors(r, true)
        ==> |repo.log| == |r.stages| + 1 && repo.task.state == r.state && repo.task.stage == r.stage
    ensures Works(repo) && end == Doubted ==> Terminal(repo.task.state)
    ensures Works(repo) && end == Doubted ==>
      repo.task == if Terminal(task.state) then task
                   else
                     var code := if ValidExecution(r, task, prepared, prefix) then "restore_stage_persistence_failed"
                                 else "restore_execution_evidence_invalid";
                     Uncertain(task, code, now)
    ensures end == Mirrors(r, true) ==> EndsAs(repo.task, task, r) && Copies(task.id, repo.log, r.stages, |r.stages|)
    ensures Accepts(repo, r.stages) && end.Mirrors? ==> Terminal(repo.task.state)
    ensures Accepts(repo, r.stages) && end.Mirrors? && |r.stages| < STAGE_LIMIT ==>
      EndsWith(repo.task, repo.log, r.stages) && (end.whole <==> EndsOnlyLast(r.stages))
  {
    hide Works, Safe, ValidExecution, ValidReply, Order, Copies, ValidStages, Mirrored, StateFor, FirstEnd, Ends,
      Storable, Terminal, InOrderAt, Traced, MarkedAtMost, DetailsFit, EndsAs;
    SafeParts(task, repo.log, repo.leased);
    ghost var before, wasLeased := repo.log, repo.leased;
    var valid := CheckExecution(r, task, prepared, prefix);
    if !valid {
      MarkUncertain(repo, task, |repo.log| + 1, "restore_execution_evidence_invalid", now);
      TracedMarked(task, before, wasLeased, repo.log, source);
      return Doubted;
    }
    if failed {
      MarkUncertain(repo, task, |repo.log| + 1, "restore_stage_persistence_failed", now);
      TracedMarked(task, before, wasLeased, repo.log, source);
      return Doubted;
    }
    ResultParts(r, task, prepared, prefix);
    CopiesOfPrefix(task.id, repo.log, prefix, r.stages, |prefix|);
    if EndsOnlyLast(r.stages) { assert !Ends(prefix[|prefix| - 1].name); }
    if DetailsFit(r.stages) { FitPart(r.stages, |prefix|, |r.stages|); }
    var next, sequence, ok := MirrorStages(repo, task, r, |prefix|, |r.stages|, now);
    SafeParts(repo.task, repo.log, repo.leased);
    // The source compares the row with the result here once more; they always agree.
    assert ok ==> next.state == r.state && next.stage == r.stage;
    if |r.stages| < STAGE_LIMIT && Terminal(repo.task.state) {
      FirstEndIsReached(repo.task, repo.log, repo.leased, r.stages, prefix);
      OnlyLastEnds(r.stages);
    }
    return Mirrors(r, ok);
  }

  lemma FirstEndIsReached(now: Task<Name>, log: seq<Stage<Name>>, leased: bool, stages: seq<Stage<Name>>,
                          prefix: seq<Stage<Name>>)
    requires Safe(now, log, leased) && Terminal(now.state) && Copies(now.id, log, stages, |log| - 1)
    requires prefix != [] && prefix < stages && !Ends(prefix[0].name) && |log| >= |prefix| + 1
    requires |log| == |prefix| + 1 ==> now.stage == prefix[|prefix| - 1].name
    ensures EndsWith(now, log, stages)
  {
    SafeParts(now, log, leased);
    SafeEndsWith(now, log, leased, stages);
  }

  lemma ProgressParts(r: Reply, task: Task<Name>, prepared: Reply, prefix: seq<Stage<Name>>)
    requires ValidProgress(r, task, prepared, prefix) && prefix != [] && |prefix| < NonTerminalCount(r)
    ensures ValidReply(r, task.id) && prefix < r.stages && |r.stages| < STAGE_LIMIT
    ensures prefix <= r.stages[..NonTerminalCount(r)]
    ensures Order(prefix[|prefix| - 1].name) <= Order(r.stages[|prefix|].name)
  {
    assert ValidStageAt(r.stages, task.id, |prefix|);
  }

  /** One valid poll: mirrors the new stages that do not end the restore. */
  method Poll(repo: Repository<Name>, task: Task<Name>, prepared: Reply, prefix: seq<Stage<Name>>, r: Reply, now: int)
    returns (next: Task<Name>, ok: bool)
    requires IsSafe(repo) && task == repo.task && now != 0 && Follows(task, repo.log, prefix)
    requires ValidProgress(r, task, prepared, prefix) && |prefix| < NonTerminalCount(r)
    modifies repo
    ensures IsSafe(repo) && next == repo.task && old(repo.log) <= repo.log && SameRestore(next, task)
    ensures repo.backup == old(repo.backup)
    ensures Traced(task.id, repo.log, r.stages)
    ensures ok ==> Follows(next, repo.log, r.stages[..NonTerminalCount(r)])
    ensures Accepts(repo, r.stages) && !Ends(prefix[|prefix| - 1].name) && MayMirror(r, |prefix|, NonTerminalCount(r))
            ==> ok
  {
    hide Works, Safe, ValidProgress, ValidReply, Order, Copies, ValidStages, Mirrored, StateFor, Ends, Storable,
      Terminal, Traced;
    SafeParts(task, repo.log, repo.leased);
    ProgressParts(r, task, prepared, prefix);
    CopiesOfPrefix(task.id, repo.log, prefix, r.stages, |prefix|);
    var available := NonTerminalCount(r);
    if DetailsFit(r.stages) { FitPart(r.stages, |prefix|, available); }
    var sequence;
    next, sequence, ok := MirrorStages(repo, task, r, |prefix|, available, now);
    if ok { CopiesWithin(task.id, repo.log, r.stages, available); }
  }

  lemma CopiesWithin(id: string, log: seq<Stage<Name>>, stages: seq<Stage<Name>>, n: nat)
    requires Copies(id, log, stages, n) && n <= |stages|
    ensures Copies(id, log, stages[..n], n)
  {
  }

  /** Agent logs that come to a success and then to a rollback. */
  function SucceededThenRolledBack(base: seq<Stage<Name>>, id: string): seq<Stage<Name>> {
    base + [Stage(id, |base| + 1, AtSucceeded, StageResult.Success, "", NO_DETAILS, 1),
            Stage(id, |base| + 2, AtRolledBack, StageResult.Success, "", NO_DETAILS, 1)]
  }

  lemma MiddleEndIsValid(base: seq<Stage<Name>>, id: string)
    requires base != [] && ValidStages(base, id) && base[|base| - 1].name == SafetyBackupVerified
    ensures ValidStages(SucceededThenRolledBack(base, id), id) && forall i | 0 <= i < |base| :: !Ends(base[i].name)
  {
    hide Ends, Terminal;
    var stages := SucceededThenRolledBack(base, id);
    forall i | 0 <= i < |base| ensures ValidStageAt(stages, id, i) && !Ends(base[i].name) {
      assert ValidStageAt(base, id, i);
      OrderedStages(base, id, i, |base| - 1);
      EarlyStage(base[i].name);
    }
    assert ValidStageAt(stages, id, |base|) && ValidStageAt(stages, id, |base| + 1);
  }

  lemma EarlyStage(name: Name)
    requires Order(name) <= Order(SafetyBackupVerified)
    ensures name != OtherName ==> !Ends(name)
    ensures name == OtherName <==> Order(name) < 0
  {
  }

  /**
   * After any preparation the checks accept a result that rolled back, of which the row would keep
   * that it succeeded.
   */
  lemma AcceptedMiddleEnd(task: Task<Name>, prepared: Reply) returns (r: Reply)
    requires ValidPreparation(prepared, task) && !Terminal(prepared.state)
    ensures ValidExecution(r, task, prepared, prepared.stages) && !EndsOnlyLast(r.stages)
    ensures r.state == RolledBack && FirstEnd(r.stages) == |prepared.stages|
    ensures r.stages[FirstEnd(r.stages)].name == AtSucceeded
  {
    hide ValidStages, Order;
    var n := |prepared.stages|;
    MiddleEndIsValid(prepared.stages, task.id);
    r := prepared.(state := RolledBack, stage := AtRolledBack,
                  stages := SucceededThenRolledBack(prepared.stages, task.id), finishedAt := 1);
    assert Ends(r.stages[n].name) && forall i | 0 <= i < n :: r.stages[i] == prepared.stages[i];
  }

  /** The logs that the Agent has answered with. */
  predicate Answered(prepared: Reply, schedule: seq<Event>, stages: seq<Stage<Name>>) {
    || stages == prepared.stages
    || (exists k | 0 <= k < |schedule| ::
       schedule[k].Tick? && schedule[k].progress.Some? && schedule[k].progress.value.stages == stages)
    || (exists k | 0 <= k < |schedule| :: schedule[k].Done? && schedule[k].result.stages == stages)
  }

  /** An Agent that reports one growing log, ends it once and answers in the end. */
  predicate Honest(task: Task<Name>, prepared: Reply, schedule: seq<Event>, h: Reply) {
    && ValidExecution(h, task, prepared, prepared.stages) && EndsOnlyLast(h.stages) && |h.stages| < STAGE_LIMIT
    && schedule != [] && schedule[|schedule| - 1] == Done(h)
    && forall k | 0 <= k < |schedule| - 1 ::
         schedule[k].Tick? && (schedule[k].progress.Some? ==> schedule[k].progress.value.stages <= h.stages)
  }

  lemma HonestPoll(task: Task<Name>, prepared: Reply, prefix: seq<Stage<Name>>, r: Reply, h: Reply)
    requires ValidProgress(r, task, prepared, prefix) && prefix != [] && |prefix| < NonTerminalCount(r)
    requires EndsOnce(h) && r.stages <= h.stages
    ensures r.stages[..NonTerminalCount(r)] < h.stages && MayMirror(r, |prefix|, NonTerminalCount(r))
    ensures !Ends(prefix[|prefix| - 1].name)
  {
    if |r.stages| == |h.stages| {
      assert r.stages == h.stages;
    }
    assert prefix[|prefix| - 1] == h.stages[|prefix| - 1];
  }

  /** A result is judged by what no transition of the restore changes. */
  lemma ExecutionOfSame(task: Task<Name>, now: Task<Name>, prepared: Reply, prefix: seq<Stage<Name>>,
                        more: seq<Stage<Name>>, r: Reply)
    requires SameRestore(now, task) && ValidExecution(r, task, prepared, prefix) && prefix <= more < r.stages
    ensures ValidExecution(r, now, prepared, more)
  {
  }

  /** The whole log of an Agent that ends the restore once. */
  predicate EndsOnce(h: Reply) {
    && Terminal(h.state) && h.stages != [] && StateFor(h.stages[|h.stages| - 1].name) == h.state
    && EndsOnlyLast(h.stages)
  }

  lemma HonestParts(task: Task<Name>, prepared: Reply, schedule: seq<Event>, h: Reply)
    requires Honest(task, prepared, schedule, h)
    ensures prepared.stages < h.stages && EndsOnce(h) && schedule != [] && Honestly(schedule, 0, prepared, h)
    ensures EndsOnlyLast(h.stages) && |h.stages| < STAGE_LIMIT
  {
  }

  /** Of an honest Agent's schedule only the last event is no poll. */
  lemma HonestEvent(task: Task<Name>, prepared: Reply, schedule: seq<Event>, h: Reply, k: nat)
    requires Honest(task, prepared, schedule, h) && k < |schedule|
    ensures !schedule[k].Stop? && (schedule[k].Done? ==> schedule[k].result == h && ValidExecution(h, task, prepared,
                                                                                                  prepared.stages))
    ensures schedule[k].Tick? ==> k + 1 < |schedule|
    ensures schedule[k].Tick? && schedule[k].progress.Some? ==> schedule[k].progress.value.stages <= h.stages
  {
  }

  lemma HonestlyGrows(schedule: seq<Event>, k: nat, prepared: Reply, h: Reply)
    requires k < |schedule| && schedule[k].Tick?
    ensures Honestly(schedule, k + 1, prepared, h) <==> (Honestly(schedule, k, prepared, h)
        && (schedule[k].progress.Some? ==> schedule[k].progress.value.stages <= h.stages))
    ensures Honestly(schedule, k, prepared, h) ==> EndsOnce(h) && prepared.stages < h.stages
  {
    hide EndsOnce;
  }

  lemma NothingPolled(schedule: seq<Event>, prepared: Reply, h: Reply)
    ensures Honestly(schedule, 0, prepared, h) <==> EndsOnce(h) && prepared.stages < h.stages
  {
    hide EndsOnce;
  }

  lemma HonestFits(task: Task<Name>, prepared: Reply, schedule: seq<Event>, h: Reply)
    ensures Honest(task, prepared, schedule, h) && DetailsFit(h.stages) ==> DetailsFit(prepared.stages)
  {
    hide DetailsFit;
    if Honest(task, prepared, schedule, h) && DetailsFit(h.stages) {
      FitPart(h.stages, 0, |prepared.stages|);
      assert h.stages[0..|prepared.stages|] == prepared.stages;
    }
  }

  lemma FollowsIsTraced(task: Task<Name>, log: seq<Stage<Name>>, prefix: seq<Stage<Name>>)
    requires Follows(task, log, prefix)
    ensures Traced(task.id, log, prefix) && prefix != []
  {
  }

  /** How many stages are known after a poll: those it reports, if it is valid, without one that ended the restore. */
  ghost function Seen(progress: Option<Reply>, task: Task<Name>, prepared: Reply, before: nat): nat {
    match progress
    case Some(p) =>
      var count := if Terminal(p.state) then |p.stages| - 1 else |p.stages|;
      if ValidProgress(p, task, prepared, []) && count > before then count else before
    case None => before
  }

  lemma NothingSeen(task: Task<Name>, prepared: Reply, before: nat)
    ensures Seen(None, task, prepared, before) == before
  {
  }

  /** How many stages of the Agent's log the preparation and the first n polls have shown. */
  ghost function Shown(schedule: seq<Event>, n: nat, task: Task<Name>, prepared: Reply): nat
    requires n <= |schedule|
  {
    if n == 0 then |prepared.stages|
    else
      var before := Shown(schedule, n - 1, task, prepared);
      match schedule[n - 1]
      case Tick(progress) => Seen(progress, task, prepared, before)
      case _ => before
  }

  /** Of an honest Agent a poll is valid at any point if it is valid at the start. */
  lemma SeenAtAnyPoint(r: Reply, task: Task<Name>, log: seq<Stage<Name>>, prepared: Reply, prefix: seq<Stage<Name>>,
                       h: Reply)
    requires Follows(task, log, prefix) && r.stages <= h.stages && prefix < h.stages
    ensures Seen(Some(r), task, prepared, |prefix|)
         == if ValidProgress(r, task, prepared, prefix) then (if NonTerminalCount(r) > |prefix| then NonTerminalCount(r)
                                                              else |prefix|) else |prefix|
  {
    hide ValidStages, StateFor, Copies, Order;
    if |prefix| <= |r.stages| {
      assert prefix <= r.stages && prefix[|prefix| - 1] == r.stages[|prefix| - 1];
    }
  }

  /**
   * One tick of the poll: what was not answered, not valid or not new is passed over, and so is
   * everything after a failure.
   */
  method Observe(repo: Repository<Name>, task: Task<Name>, prepared: Reply, prefix: seq<Stage<Name>>, failed: bool,
                 progress: Option<Reply>, now: int, ghost source: seq<Stage<Name>>, ghost h: Reply)
    returns (next: Task<Name>, more: seq<Stage<Name>>, fails: bool, ghost reported: seq<Stage<Name>>)
    requires IsSafe(repo) && task == repo.task && now != 0 && prefix != []
    requires (!failed ==> Follows(task, repo.log, prefix))
    requires Traced(task.id, repo.log, source)
    modifies repo
    ensures IsSafe(repo) && next == repo.task && old(repo.log) <= repo.log && SameRestore(next, task)
    ensures repo.backup == old(repo.backup)
    ensures prefix <= more && (!fails ==> Follows(next, repo.log, more)) && Traced(task.id, repo.log, reported)
    ensures reported == source || (progress.Some? && reported == progress.value.stages)
    ensures Accepts(repo, h.stages) && !failed && prefix < h.stages && EndsOnce(h)
            && (progress.Some? ==> progress.value.stages <= h.stages)
            ==> !fails && more < h.stages && |more| == Seen(progress, task, prepared, |prefix|)
  {
    hide Works, Safe, ValidProgress, Order, Copies, StateFor, Ends, Terminal, EndsOnlyLast, Traced, MayMirror,
      NonTerminalCount, Follows, Seen;
    NothingSeen(task, prepared, |prefix|);
    next, more, fails, reported := task, prefix, failed, source;
    if failed || progress.None? {
      return;
    }
    var r := progress.value;
    if r.stages <= h.stages && prefix < h.stages { SeenAtAnyPoint(r, task, repo.log, prepared, prefix, h); }
    var valid := CheckProgress(r, task, prepared, prefix);
    if !valid || NonTerminalCount(r) <= |prefix| {
      return;
    }
    ProgressParts(r, task, prepared, prefix);
    if EndsOnce(h) && r.stages <= h.stages {
      HonestPoll(task, prepared, prefix, r, h);
      if DetailsFit(h.stages) { FitPart(h.stages, 0, |r.stages|); }
    }
    var ok;
    next, ok := Poll(repo, task, prepared, prefix, r, now);
    return next, if ok then r.stages[..NonTerminalCount(r)] else prefix, !ok, r.stages;
  }

  /**
   * The reply comes from the Agent and has been accepted: a preparation that ended the restore, or
   * the final result.
   */
  ghost predicate Accepted(reply: Reply, task: Task<Name>, preparation: Reply, schedule: seq<Event>) {
    || (reply == preparation && ValidPreparation(reply, task))
    || (Done(reply) in schedule && exists prefix ::
       preparation.stages <= prefix && ValidExecution(reply, task, preparation, prefix))
  }

  lemma ResultIsAccepted(reply: Reply, task: Task<Name>, now: Task<Name>, preparation: Reply, schedule: seq<Event>,
                         prefix: seq<Stage<Name>>)
    requires Done(reply) in schedule && preparation.stages <= prefix < reply.stages
    requires ValidExecution(reply, task, preparation, prefix)
    requires SameRestore(now, task)
    ensures Accepted(reply, now, preparation, schedule)
  {
    ExecutionOfSame(task, now, preparation, prefix, prefix, reply);
  }

  /** The polls before the first event that is none. */
  ghost function Polls(schedule: seq<Event>): (n: nat)
    ensures n <= |schedule| && (forall k | 0 <= k < n :: schedule[k].Tick?)
    ensures n < |schedule| ==> !schedule[n].Tick?
  {
    if schedule == [] || !schedule[0].Tick? then 0 else 1 + Polls(schedule[1..])
  }

  lemma PollsAre(schedule: seq<Event>, n: nat)
    requires n <= |schedule| && (forall k | 0 <= k < n :: schedule[k].Tick?) && (n < |schedule| ==> !schedule[n].Tick?)
    ensures Polls(schedule) == n
  {
  }

  /** The first n events are polls that report the beginning of the log of an Agent that ends the restore once. */
  ghost predicate Honestly(schedule: seq<Event>, n: nat, prepared: Reply, h: Reply)
    requires n <= |schedule|
  {
    && EndsOnce(h) && prepared.stages < h.stages
    && forall k | 0 <= k < n ::
         schedule[k].Tick? && (schedule[k].progress.Some? ==> schedule[k].progress.value.stages <= h.stages)
  }

  /** What any schedule leaves: the row of the polls, a mark with its reason, or the end that the result states. */
  ghost predicate Outcome(task: Task<Name>, prepared: Reply, schedule: seq<Event>, row: Task<Name>,
                          prefix: seq<Stage<Name>>, failed: bool, end: End, now: Task<Name>, at: int) {
    var n := Polls(schedule);
    && SameRestore(row, task)
    && if n == |schedule| || schedule[n].Stop? then end == Interrupted && now == row
       else
         var r := schedule[n].result;
         var valid := ValidExecution(r, row, prepared, prefix);
         if valid && !failed then end.Mirrors? && end.reply == r && (end.whole ==> EndsAs(now, row, r))
         else
           var code := if valid then "restore_stage_persistence_failed" else "restore_execution_evidence_invalid";
           end == Doubted && now == if Terminal(row.state) then row else Uncertain(row, code, at)
  }

  lemma OutcomeIsReached(task: Task<Name>, prepared: Reply, schedule: seq<Event>, row: Task<Name>,
                         prefix: seq<Stage<Name>>, failed: bool, end: End, now: Task<Name>, at: int, k: nat)
    requires k <= |schedule| && (forall j | 0 <= j < k :: schedule[j].Tick?) && SameRestore(row, task)
    requires k < |schedule| ==> !schedule[k].Tick?
    requires k == |schedule| || schedule[k].Stop? ==> end == Interrupted && now == row
    requires k < |schedule| && schedule[k].Done? ==>
      var r := schedule[k].result;
      var valid := ValidExecution(r, row, prepared, prefix);
      && ((valid && !failed) ==> end.Mirrors? && end.reply == r && (end.whole ==> EndsAs(now, row, r)))
      && (!(valid && !failed) ==>
            end == Doubted
            && now == if Terminal(row.state) then row
                      else Uncertain(row, if valid then "restore_stage_persistence_failed"
                                          else "restore_execution_evidence_invalid", at))
    ensures Outcome(task, prepared, schedule, row, prefix, failed, end, now, at)
  {
    hide ValidExecution, EndsAs, Terminal, Uncertain;
    PollsAre(schedule, k);
  }

  lemma PreparationAnswers(prepared: Reply, schedule: seq<Event>)
    ensures Answered(prepared, schedule, prepared.stages)
  {
  }

  lemma EventAnswers(prepared: Reply, schedule: seq<Event>, k: nat, stages: seq<Stage<Name>>)
    requires k < |schedule|
    requires (schedule[k].Done? && schedule[k].result.stages == stages)
          || (schedule[k].Tick? && schedule[k].progress.Some? && schedule[k].progress.value.stages == stages)
    ensures Answered(prepared, schedule, stages)
  {
  }

  /** The result comes after k polls. */
  method Conclude(repo: Repository<Name>, task: Task<Name>, prepared: Reply, prefix: seq<Stage<Name>>, failed: bool,
                  r: Reply, now: int, ghost before: seq<Stage<Name>>, ghost start: Task<Name>,
                  ghost schedule: seq<Event>, ghost k: nat)
    returns (end: End, ghost source: seq<Stage<Name>>)
    requires IsSafe(repo) && task == repo.task && now != 0 && prefix != [] && !Ends(prefix[0].name)
    requires !failed ==> Follows(task, repo.log, prefix)
    requires Traced(task.id, repo.log, before) && Answered(prepared, schedule, before) && SameRestore(task, start)
    requires k < |schedule| && schedule[k] == Done(r) && (forall j | 0 <= j < k :: schedule[j].Tick?)
    requires prepared.stages <= prefix
    modifies repo
    ensures IsSafe(repo) && old(repo.log) <= repo.log && repo.backup == old(repo.backup)
        && SameRestore(repo.task, start)
    ensures end == Doubted || (end.Mirrors? && source == end.reply.stages)
    ensures Answered(prepared, schedule, source) && Traced(repo.task.id, repo.log, source)
    ensures end.Mirrors? ==> Accepted(end.reply, repo.task, prepared, schedule)
    ensures end.Mirrors? && end.whole
        ==> |repo.log| == |source| + 1 && repo.task.state == end.reply.state && repo.task.stage == end.reply.stage
            && EndsAs(repo.task, start, end.reply) && Copies(repo.task.id, repo.log, source, |source|)
    ensures Works(repo) && end == Doubted ==> Terminal(repo.task.state)
    ensures Accepts(repo, source) && end.Mirrors? ==> Terminal(repo.task.state)
    ensures Accepts(repo, source) && end.Mirrors? && |source| < STAGE_LIMIT ==>
      EndsWith(repo.task, repo.log, source) && (end.whole <==> EndsOnlyLast(source))
    ensures Works(repo) ==> Outcome(start, prepared, schedule, task, prefix, failed, end, repo.task, now)
    ensures ValidExecution(r, task, prepared, prefix) && !failed ==> end.Mirrors? && end.reply == r
  {
    hide Works, Safe, ValidExecution, Copies, Ends, Terminal, EndsWith, EndsOnlyLast, Accepted, Traced, Outcome, EndsAs,
      DetailsFit, Follows, Uncertain, Answered, Polls;
    end := Finish(repo, task, prepared, prefix, failed, r, now, before);
    source := before;
    if Works(repo) { OutcomeIsReached(start, prepared, schedule, task, prefix, failed, end, repo.task, now, k); }
    if end.Mirrors? {
      source := r.stages;
      EventAnswers(prepared, schedule, k, source);
      ResultParts(r, task, prepared, prefix);
      ResultIsAccepted(r, task, repo.task, prepared, schedule, prefix);
      if end.whole { EndsAsSame(repo.task, task, start, r); }
    }
  }

  /**
   * Polls while the Agent executes, over any schedule of answers; an exhausted schedule is a crash.
   * `row` is the restore when the polls end, `prefix` the Agent's stages it has by then, `failed` says
   * whether one could not be stored; `h` is any answer the polls are compared with.
   */
  method Execute(repo: Repository<Name>, prepared: Reply, schedule: seq<Event>, now: int, ghost h: Reply)
    returns (end: End, ghost source: seq<Stage<Name>>, ghost row: Task<Name>, ghost known: seq<Stage<Name>>,
             ghost failing: bool)
    requires IsSafe(repo) && now != 0 && Follows(repo.task, repo.log, prepared.stages) && !Ends(prepared.stages[0].name)
    modifies repo
    ensures IsSafe(repo) && old(repo.log) <= repo.log && repo.backup == old(repo.backup)
    ensures SameRestore(repo.task, old(repo.task))
    ensures end == Interrupted || end == Doubted || (end.Mirrors? && source == end.reply.stages)
    ensures Answered(prepared, schedule, source) && Traced(repo.task.id, repo.log, source)
    ensures end.Mirrors? ==> Accepted(end.reply, repo.task, prepared, schedule)
    ensures end.Mirrors? && end.whole
        ==> |repo.log| == |source| + 1 && repo.task.state == end.reply.state && repo.task.stage == end.reply.stage
            && EndsAs(repo.task, old(repo.task), end.reply) && Copies(repo.task.id, repo.log, source, |source|)
    ensures Works(repo) && end == Doubted ==> Terminal(repo.task.state)
    ensures Accepts(repo, source) && end.Mirrors? ==> Terminal(repo.task.state)
    ensures Accepts(repo, source) && end.Mirrors? && |source| < STAGE_LIMIT ==>
      EndsWith(repo.task, repo.log, source) && (end.whole <==> EndsOnlyLast(source))
    ensures Works(repo)
        ==> Outcome(old(repo.task), prepared, schedule, row, known, failing, end, repo.task, now)
    ensures Accepts(repo, h.stages) && Honestly(schedule, Polls(schedule), prepared, h) ==>
      && !failing && known < h.stages && |known| == Shown(schedule, Polls(schedule), old(repo.task), prepared)
      && (end == Interrupted ==> Follows(row, repo.log, known))
    ensures Accepts(repo, h.stages) && Honest(old(repo.task), prepared, schedule, h) ==> end == Mirrors(h, true)
  {
    hide Works, Safe, ValidExecution, Copies, Ends, Terminal, EndsWith, EndsOnlyLast, Accepted, Traced, EndsOnce,
      Outcome, Seen, Shown, EndsAs, DetailsFit, Honest, Honestly, Follows, Uncertain, Answered, Polls;
    var task := repo.task;
    var prefix, failed := prepared.stages, false;
    source, row, known, failing := prepared.stages, task, prefix, failed;
    ghost var start, accepts := task, Accepts(repo, h.stages);
    ghost var honest := accepts && Honest(task, prepared, schedule, h);
    FollowsIsTraced(task, repo.log, prefix);
    if honest { HonestParts(task, prepared, schedule, h); }
    ShownFirst(schedule, task, prepared);
    NothingPolled(schedule, prepared, h);
    PreparationAnswers(prepared, schedule);
    for k := 0 to |schedule|
      invariant IsSafe(repo) && task == repo.task && old(repo.log) <= repo.log && repo.backup == old(repo.backup)
      invariant SameRestore(task, start) && prepared.stages <= prefix
      invariant row == task && known == prefix && failing == failed
      invariant !failed ==> Follows(task, repo.log, prefix)
      invariant Answered(prepared, schedule, source) && Traced(task.id, repo.log, source)
      invariant prefix != [] && (honest ==> EndsOnce(h) && k < |schedule|)
      invariant forall j | 0 <= j < k :: schedule[j].Tick?
      invariant honest ==> Honestly(schedule, k, prepared, h)
      invariant accepts && Honestly(schedule, k, prepared, h)
          ==> !failed && prefix < h.stages && |prefix| == Shown(schedule, k, start, prepared)
    {
      if honest { HonestEvent(start, prepared, schedule, h, k); }
      match schedule[k]
      case Stop =>
        end := Interrupted;
        OutcomeIsReached(start, prepared, schedule, row, prefix, failed, end, repo.task, now, k);
        PollsAre(schedule, k);
        return;
      case Tick(progress) =>
        ghost var before, at := task, |prefix|;
        HonestlyGrows(schedule, k, prepared, h);
        if progress.Some? { EventAnswers(prepared, schedule, k, progress.value.stages); }
        task, prefix, failed, source := Observe(repo, task, prepared, prefix, failed, progress, now, source, h);
        ShownGrows(schedule, k, start, before, prepared, at);
        row, known, failing := task, prefix, failed;
      case Done(result) =>
        if honest { ExecutionOfSame(start, task, prepared, prepared.stages, prefix, h); }
        PollsAre(schedule, k);
        end, source := Conclude(repo, task, prepared, prefix, failed, result, now, source, start, schedule, k);
        return;
    }
    end := Interrupted;
    OutcomeIsReached(start, prepared, schedule, row, prefix, failed, end, repo.task, now, |schedule|);
    PollsAre(schedule, |schedule|);
  }

  lemma EndsAsSame(now: Task<Name>, row: Task<Name>, start: Task<Name>, r: Reply)
    requires SameRestore(row, start) && EndsAs(now, row, r)
    ensures EndsAs(now, start, r)
  {
  }

  lemma ShownFirst(schedule: seq<Event>, task: Task<Name>, prepared: Reply)
    ensures Shown(schedule, 0, task, prepared) == |prepared.stages|
  {
  }

  lemma ShownGrows(schedule: seq<Event>, k: nat, start: Task<Name>, task: Task<Name>, prepared: Reply, before: nat)
    requires k < |schedule| && schedule[k].Tick? && SameRestore(task, start)
    ensures before == Shown(schedule, k, start, prepared)
        ==> Shown(schedule, k + 1, start, prepared) == Seen(schedule[k].progress, task, prepared, before)
  {
    hide ValidReply;
  }

  lemma StartIsSafe(task: Task<Name>, log: seq<Stage<Name>>, leased: bool, state: State, name: Name,
                    stage: Stage<Name>, next: Task<Name>)
    requires Safe(task, log, leased) && task.state == Queued && |log| == 1 && stage.at != 0 && StorableStage(stage)
    requires name != AtQueued && name != OtherName && state == StateFor(name) && stage.name == name
    requires stage.task == task.id && stage.sequence == 2
    requires next == task.(state := state, stage := name, errorCode := stage.code, updatedAt := stage.at,
                           finishedAt := if Terminal(state) then stage.at else 0)
    ensures leased && Storable(next) && Safe(next, log + [stage], !Terminal(state))
  {
    SafeParts(task, log, leased);
    assert InOrderAt(task.id, log, 0);
    TransitionIsSafe(task, log, next, stage);
  }

  /** A restore that never reached the Agent fails. */
  method FailQueued(repo: Repository<Name>, task: Task<Name>, code: string, now: int)
    requires IsSafe(repo) && task == repo.task && task.state == Queued && task.stage == AtQueued && now != 0
    modifies repo
    ensures IsSafe(repo) && old(repo.log) <= repo.log && SameRestore(repo.task, task)
    ensures repo.task == task || repo.task.state == Failed
    ensures Works(repo) && |old(repo.log)| == 1 ==>
      repo.task == task.(state := Failed, stage := AtFailed, errorCode := code, updatedAt := now, finishedAt := now)
    ensures repo.backup == old(repo.backup)
  {
    SafeParts(task, repo.log, repo.leased);
    var next := task.(state := Failed, stage := AtFailed, errorCode := code, updatedAt := now, finishedAt := now);
    var stage := Stage(task.id, 2, AtFailed, StageResult.Failure, code, NO_DETAILS, now);
    if |repo.log| == 1 { StartIsSafe(task, repo.log, repo.leased, Failed, AtFailed, stage, next); }
    var _ := repo.Transition(task.state, task.stage, next, stage);
  }

  lemma PreparationParts(r: Reply, task: Task<Name>)
    requires ValidPreparation(r, task)
    ensures ValidReply(r, task.id) && r.stages[0].name == TargetVerifying && !Ends(TargetVerifying)
    ensures r.state == StateFor(r.stage) && r.stage == r.stages[|r.stages| - 1].name
    ensures Terminal(r.state) ==> r.finishedAt != 0 && Ends(r.stage) && 1 < |r.stages|
    ensures !Terminal(r.state)
        ==> r.stage == SafetyBackupVerified && 1 < |r.stages| && r.backup.backupId == task.backupId
    ensures 1 < |r.stages| ==> Order(TargetVerifying) <= Order(r.stages[1].name)
    ensures !Terminal(r.state) ==> MayMirror(r, 1, |r.stages|)
  {
    if 1 < |r.stages| { assert ValidStageAt(r.stages, task.id, 1); }
    if !Terminal(r.state) {
      forall i | 1 <= i < |r.stages| ensures !Ends(r.stages[i].name) {
        OrderedStages(r.stages, task.id, i, |r.stages| - 1);
      }
    }
  }

  lemma {:induction false} OrderedStages(stages: seq<Stage<Name>>, id: string, i: nat, j: nat)
    requires ValidStages(stages, id) && i <= j < |stages|
    ensures 0 <= Order(stages[i].name) <= Order(stages[j].name)
    decreases j - i
  {
    assert ValidStageAt(stages, id, i);
    if i < j {
      OrderedStages(stages, id, i + 1, j);
      assert ValidStageAt(stages, id, i + 1);
    }
  }

  /** The restore succeeded with a stage that the Agent reported. */
  lemma SuccessIsReported(task: Task<Name>, log: seq<Stage<Name>>, leased: bool, stages: seq<Stage<Name>>)
    requires Safe(task, log, leased) && Traced(task.id, log, stages) && task.state == Succeeded
    requires |log| > 1 && log[1].name == TargetVerifying
    ensures 1 < |log| - 1 && |log| - 2 < |stages| && stages[|log| - 2].name == AtSucceeded
  {
    assert log[|log| - 1] == Mirrored(stages[|log| - 2], task.id, |log|);
  }

  lemma HonestOfSame(task: Task<Name>, now: Task<Name>, prepared: Reply, schedule: seq<Event>, h: Reply)
    requires SameRestore(now, task) && Honest(task, prepared, schedule, h)
    ensures Honest(now, prepared, schedule, h) && |prepared.stages| < STAGE_LIMIT
  {
  }

  /** A preparation that lets the execution begin. */
  predicate Prepares(r: Reply, task: Task<Name>) {
    ValidPreparation(r, task) && !Terminal(r.state) && ValidSafetyBackup(r.backup, task) && |r.stages| < STAGE_LIMIT
  }

  /** Indexes the safety backup, if its evidence is the one of this restore. */
  method StoreBackup(repo: Repository<Name>, task: Task<Name>, evidence: Evidence) returns (stored: bool)
    modifies repo
    ensures repo.task == old(repo.task) && repo.log == old(repo.log) && repo.leased == old(repo.leased)
    ensures repo.backup == if stored then Some(Indexed(old(repo.backup), evidence)) else old(repo.backup)
    ensures stored ==> ValidSafetyBackup(evidence, task)
    ensures Works(repo) ==> (stored <==> ValidSafetyBackup(evidence, task))
  {
    if evidence.backupId != task.backupId || evidence.taskId != task.id
      || evidence.productionDigest != task.productionDigest || evidence.treeDigest.None? || evidence.entryCount <= 0
      || evidence.totalBytes < 0 || evidence.verifiedAt == 0 {
      return false;
    }
    stored := repo.PutBackup(evidence);
  }

  lemma NothingCopied(id: string, log: seq<Stage<Name>>, stages: seq<Stage<Name>>)
    requires |log| == 2
    ensures Copies(id, log, stages, 1) && Traced(id, log, stages)
  {
  }

  /** Why a preparation is not mirrored, or nothing. */
  function UnusableBecause(r: Reply, task: Task<Name>): string {
    if !ValidPreparation(r, task) then "restore_preparation_evidence_invalid"
    else if r.backup.backupId != "" && !ValidSafetyBackup(r.backup, task) then "restore_safety_index_failed"
    else ""
  }

  function Indexes(r: Reply, backup: Option<Evidence>): Option<Evidence> {
    if r.backup.backupId != "" then Some(Indexed(backup, r.backup)) else backup
  }

  lemma BecauseParts(r: Reply, task: Task<Name>)
    ensures UnusableBecause(r, task) == ""
            <==> ValidPreparation(r, task) && (r.backup.backupId != "" ==> ValidSafetyBackup(r.backup, task))
    ensures Prepares(r, task) && task.backupId != "" ==> UnusableBecause(r, task) == ""
    ensures forall backup :: r.backup.backupId != "" ==> Indexes(r, backup).Some?
    ensures ValidPreparation(r, task) && !Terminal(r.state) && task.backupId != "" ==> r.backup.backupId != ""
  {
    hide ValidReply, ValidSafetyBackup;
  }

  /** Checks the preparation and indexes the safety backup it reports; or marks the restore. */
  method Admit(repo: Repository<Name>, task: Task<Name>, r: Reply, now: int) returns (ok: bool)
    requires IsSafe(repo) && task == repo.task && now != 0 && |repo.log| == 2 && task.state == Running
    modifies repo
    ensures IsSafe(repo) && old(repo.log) <= repo.log && SameRestore(repo.task, task)
    ensures ok ==> repo.task == task && repo.log == old(repo.log) && repo.backup == Indexes(r, old(repo.backup))
                   && UnusableBecause(r, task) == ""
    ensures !ok ==> repo.task.state != Succeeded && Traced(task.id, repo.log, r.stages)
    ensures Works(repo) && !ok ==> Terminal(repo.task.state)
    ensures Works(repo) ==> (ok <==> UnusableBecause(r, task) == "")
    ensures Works(repo) && !ok ==> repo.task == Uncertain(task, UnusableBecause(r, task), now)
  {
    hide Works, Safe, ValidPreparation, Traced, ValidSafetyBackup, MarkedAtMost;
    NothingCopied(task.id, repo.log, r.stages);
    ghost var before, leased := repo.log, repo.leased;
    ok := CheckPreparation(r, task);
    if !ok {
      MarkUncertain(repo, task, 3, "restore_preparation_evidence_invalid", now);
      TracedMarked(task, before, leased, repo.log, r.stages);
      return;
    }
    if r.backup.backupId != "" {
      ok := StoreBackup(repo, task, r.backup);
      if !ok {
        MarkUncertain(repo, task, 3, "restore_safety_index_failed", now);
        TracedMarked(task, before, leased, repo.log, r.stages);
      }
    }
  }

  /** Mirrors what the preparation reported beyond its first stage. */
  method Prepare(repo: Repository<Name>, task: Task<Name>, r: Reply, now: int) returns (end: End)
    requires IsSafe(repo) && task == repo.task && now != 0 && |repo.log| == 2 && task.stage == TargetVerifying
    requires task.state == Running && task.backupId != ""
    modifies repo
    ensures IsSafe(repo) && old(repo.log) <= repo.log && SameRestore(repo.task, task)
    ensures Traced(task.id, repo.log, r.stages)
    ensures (end == Doubted && repo.task.state != Succeeded)
        || (end.Mirrors? && end.reply == r && ValidPreparation(r, task))
    ensures end == Mirrors(r, true)
        ==> Follows(repo.task, repo.log, r.stages) && repo.task.stage == r.stage && repo.task.state == r.state
    ensures end == Mirrors(r, true) ==> |repo.log| == |r.stages| + 1
    ensures end.Mirrors? && !Terminal(r.state) ==> repo.backup.Some?
    ensures Works(repo) && end == Doubted ==> Terminal(repo.task.state)
    ensures end.Mirrors? && Terminal(r.state) && end.whole
        ==> EndsAs(repo.task, task, r) && Copies(task.id, repo.log, r.stages, |r.stages|)
    ensures Works(repo) ==> if UnusableBecause(r, task) == "" then
                              end.Mirrors? && repo.backup == Indexes(r, old(repo.backup))
                            else end == Doubted && repo.task == Uncertain(task, UnusableBecause(r, task), now)
    ensures Accepts(repo, r.stages) && end != Mirrors(r, true) ==> Terminal(repo.task.state)
    ensures Accepts(repo, r.stages) && end.Mirrors? && Terminal(r.state) && |r.stages| < STAGE_LIMIT ==>
      EndsWith(repo.task, repo.log, r.stages) && (end.whole <==> EndsOnlyLast(r.stages))
    ensures Accepts(repo, r.stages) && Prepares(r, task) ==> end == Mirrors(r, true)
  {
    hide Works, Safe, ValidPreparation, ValidReply, Order, ValidStages, Mirrored, StateFor, FirstEnd,
      ValidSafetyBackup, Storable, InOrderAt, Ends, Copies, Traced, DetailsFit, EndsAs, Uncertain, UnusableBecause,
      Indexes, EndsOnlyLast, MarkedAtMost;
    BecauseParts(r, task);
    var admitted := Admit(repo, task, r, now);
    if !admitted {
      return Doubted;
    }
    SafeParts(task, repo.log, repo.leased);
    NothingCopied(task.id, repo.log, r.stages);
    PreparationParts(r, task);
    if DetailsFit(r.stages) { FitPart(r.stages, 1, |r.stages|); }
    var next, sequence, ok := MirrorStages(repo, task, r, 1, |r.stages|, now);
    SafeParts(repo.task, repo.log, repo.leased);
    if Terminal(r.state) && |r.stages| < STAGE_LIMIT && Terminal(repo.task.state) {
      FirstEndIsReached(repo.task, repo.log, repo.leased, r.stages, r.stages[..1]);
      OnlyLastEnds(r.stages);
    }
    return Mirrors(r, ok);
  }

  function Failing(task: Task<Name>, code: string, now: int): Task<Name> {
    task.(state := Failed, stage := AtFailed, errorCode := code, updatedAt := now, finishedAt := now)
  }

  /** The row and the log of a restore that runs without anything from the Agent yet. */
  ghost predicate Begun(running: Task<Name>, task: Task<Name>, log: seq<Stage<Name>>, queued: seq<Stage<Name>>,
                        now: int) {
    && running == task.(state := Running, stage := TargetVerifying, updatedAt := now)
    && |queued| == 1
    && log == queued + [Stage(task.id, 2, TargetVerifying, InProgress, "", Details("{}", true), now)]
  }

  /** The own two stages and the Agent's stages behind its first, up to n of them. */
  ghost predicate Shows(log: seq<Stage<Name>>, queued: seq<Stage<Name>>, id: string, stages: seq<Stage<Name>>, n: nat,
                        now: int) {
    && 1 <= n <= |stages| && |queued| == 1 && |log| == n + 1 && log[0] == queued[0]
    && log[1] == Stage(id, 2, TargetVerifying, InProgress, "", Details("{}", true), now)
    && forall i | 1 <= i < n ::
         log[i + 1] == Stage(id, i + 2, stages[i].name, stages[i].result, stages[i].code, stages[i].details,
           stages[i].at)
  }

  lemma CopiesAreShown(task: Task<Name>, running: Task<Name>, begun: seq<Stage<Name>>, queued: seq<Stage<Name>>,
                       log: seq<Stage<Name>>, stages: seq<Stage<Name>>, n: nat, now: int)
    requires Begun(running, task, begun, queued, now) && begun <= log && Copies(task.id, log, stages, n)
    requires |log| == n + 1 && n <= |stages|
    ensures Shows(log, queued, task.id, stages, n, now)
  {
    assert log[0] == begun[0] && log[1] == begun[1];
  }

  lemma FollowsIsShown(task: Task<Name>, running: Task<Name>, begun: seq<Stage<Name>>, queued: seq<Stage<Name>>,
                       row: Task<Name>, log: seq<Stage<Name>>, known: seq<Stage<Name>>, stages: seq<Stage<Name>>,
                       now: int)
    requires Begun(running, task, begun, queued, now) && begun <= log && Follows(row, log, known) && known <= stages
    requires row.id == task.id
    ensures Shows(log, queued, task.id, stages, |known|, now)
  {
    CopiesOfPrefix(task.id, log, known, stages, |known|);
    CopiesAreShown(task, running, begun, queued, log, stages, |known|, now);
  }

  /** How a run of a queued restore ends while the database works. */
  ghost predicate RunOutcome(task: Task<Name>, targetUsable: bool, preparation: Reply, schedule: seq<Event>,
                             row: Task<Name>, prefix: seq<Stage<Name>>, failed: bool, end: End, now: Task<Name>,
                             kept: Option<Evidence>, backup: Option<Evidence>, at: int) {
    var because := UnusableBecause(preparation, task);
    var running := task.(state := Running, stage := TargetVerifying, updatedAt := at);
    if !targetUsable then
      end == Refused && now == Failing(task, "restore_target_index_invalid", at) && backup == kept
    else if because != "" then end == Doubted && now == Uncertain(running, because, at)
    else
      && backup == Indexes(preparation, kept)
      && if Terminal(preparation.state) then end.Mirrors? && end.reply == preparation
         else
           || (end == Mirrors(preparation, false) && !(DetailsFit(preparation.stages) && |preparation.stages| < 512))
           || Outcome(task, preparation, schedule, row, prefix, failed, end, now, at)
  }

  lemma RefusedIsOutcome(task: Task<Name>, targetUsable: bool, preparation: Reply, schedule: seq<Event>,
                         row: Task<Name>,
                         prefix: seq<Stage<Name>>, failed: bool, now: Task<Name>, kept: Option<Evidence>, at: int)
    ensures !targetUsable && now == Failing(task, "restore_target_index_invalid", at) ==>
      RunOutcome(task, targetUsable, preparation, schedule, row, prefix, failed, Refused, now, kept, kept, at)
  {
  }

  lemma RunIsOutcome(task: Task<Name>, targetUsable: bool, preparation: Reply, schedule: seq<Event>, row: Task<Name>,
                     prefix: seq<Stage<Name>>, failed: bool, end: End, now: Task<Name>, kept: Option<Evidence>,
                     backup: Option<Evidence>, at: int, cut: bool)
    requires var because := UnusableBecause(preparation, task);
      var running := task.(state := Running, stage := TargetVerifying, updatedAt := at);
      && targetUsable && (because != "" ==> end == Doubted && now == Uncertain(running, because, at))
      && (because == "" ==>
            && backup == Indexes(preparation, kept)
            && (Terminal(preparation.state) ==> end.Mirrors? && end.reply == preparation)
            && (!Terminal(preparation.state) ==>
                  cut || Outcome(task, preparation, schedule, row, prefix, failed, end, now, at)))
    requires cut ==> end == Mirrors(preparation, false)
                     && !(DetailsFit(preparation.stages) && |preparation.stages| < 512)
    ensures RunOutcome(task, targetUsable, preparation, schedule, row, prefix, failed, end, now, kept, backup, at)
  {
    hide UnusableBecause, Outcome, DetailsFit, Uncertain, Indexes, Terminal;
  }

  lemma BegunParts(running: Task<Name>, task: Task<Name>, log: seq<Stage<Name>>, queued: seq<Stage<Name>>, now: int)
    requires Begun(running, task, log, queued, now)
    ensures |log| == 2 && log[1].name == TargetVerifying && queued <= log
    ensures running == task.(state := Running, stage := TargetVerifying, updatedAt := now)
  {
  }

  lemma UnusableOfSame(r: Reply, task: Task<Name>, now: Task<Name>)
    requires SameRestore(now, task)
    ensures UnusableBecause(r, now) == UnusableBecause(r, task)
    ensures ValidPreparation(r, now) <==> ValidPreparation(r, task)
    ensures Prepares(r, now) <==> Prepares(r, task)
    ensures Prepares(r, task) ==> !Terminal(r.state)
  {
    hide ValidReply;
  }

  lemma UsableIsPrepared(r: Reply, task: Task<Name>)
    requires UnusableBecause(r, task) == "" && !Terminal(r.state) && |r.stages| < 512 && task.backupId != ""
    ensures Prepares(r, task)
  {
    hide ValidReply;
  }

  lemma OutcomeOfSame(task: Task<Name>, start: Task<Name>, prepared: Reply, schedule: seq<Event>, row: Task<Name>,
                      prefix: seq<Stage<Name>>, failed: bool, end: End, now: Task<Name>, at: int)
    requires SameRestore(task, start) && Outcome(task, prepared, schedule, row, prefix, failed, end, now, at)
    ensures Outcome(start, prepared, schedule, row, prefix, failed, end, now, at) && SameRestore(row, start)
  {
    hide ValidExecution;
  }

  lemma {:induction false} ShownOfSame(schedule: seq<Event>, n: nat, task: Task<Name>, start: Task<Name>,
                                       prepared: Reply)
    requires n <= |schedule| && SameRestore(task, start)
    ensures Shown(schedule, n, task, prepared) == Shown(schedule, n, start, prepared)
  {
    hide ValidReply;
    if n > 0 { ShownOfSame(schedule, n - 1, task, start, prepared); }
  }

  /** Moves a queued restore to its first local stage, unless its target can no longer be used. */
  method Start(repo: Repository<Name>, targetUsable: bool, now: int) returns (started: bool)
    requires IsSafe(repo) && now != 0 && (repo.task.state == Queued ==> |repo.log| == 1)
    modifies repo
    ensures IsSafe(repo) && old(repo.log) <= repo.log && SameRestore(repo.task, old(repo.task))
    ensures started ==> old(repo.task.state) == Queued && repo.task.stage == TargetVerifying
                        && repo.task.state == Running
    ensures started ==> Begun(repo.task, old(repo.task), repo.log, old(repo.log), now)
    ensures !started ==> repo.task == old(repo.task) || repo.task.state == Failed
    ensures old(repo.task.state) != Queued ==> repo.task == old(repo.task) && repo.log == old(repo.log)
    ensures Works(repo) && old(repo.task.state) == Queued
        ==> if targetUsable then started
            else !started && repo.task == Failing(old(repo.task), "restore_target_index_invalid", now)
    ensures repo.backup == old(repo.backup)
  {
    hide Safe, InOrderAt;
    var task := repo.task;
    SafeParts(task, repo.log, repo.leased);
    QueuedStage(task);
    if task.state != Queued || task.stage != AtQueued {
      return false;
    }
    if !targetUsable {
      FailQueued(repo, task, "restore_target_index_invalid", now);
      return false;
    }
    var running := task.(state := Running, stage := TargetVerifying, updatedAt := now);
    var stage := Stage(task.id, 2, TargetVerifying, InProgress, "", NO_DETAILS, now);
    StartIsSafe(task, repo.log, repo.leased, Running, TargetVerifying, stage, running);
    started := repo.Transition(task.state, task.stage, running, stage);
  }

  lemma QueuedStage(task: Task<Name>)
    requires task.state == StateFor(task.stage)
    ensures task.state == Queued <==> task.stage == AtQueued
  {
  }

  lemma PreparationIsAccepted(reply: Reply, task: Task<Name>, now: Task<Name>, schedule: seq<Event>)
    requires ValidPreparation(reply, task) && SameRestore(now, task)
    ensures Accepted(reply, now, reply, schedule)
  {
  }

  /** The execution of a restore of which the start and the preparation are mirrored. */
  method ExecuteBegun(repo: Repository<Name>, preparation: Reply, schedule: seq<Event>, now: int, ghost h: Reply,
                      ghost start: Task<Name>, ghost queued: seq<Stage<Name>>, ghost running: Task<Name>,
                      ghost begun: seq<Stage<Name>>)
    returns (end: End, ghost source: seq<Stage<Name>>, ghost row: Task<Name>, ghost known: seq<Stage<Name>>,
             ghost failing: bool)
    requires IsSafe(repo) && now != 0 && Follows(repo.task, repo.log, preparation.stages)
    requires !Ends(preparation.stages[0].name) && SameRestore(repo.task, start)
    requires Begun(running, start, begun, queued, now) && begun <= repo.log
    modifies repo
    ensures IsSafe(repo) && old(repo.log) <= repo.log && repo.backup == old(repo.backup)
    ensures SameRestore(repo.task, start)
    ensures end == Interrupted || end == Doubted || (end.Mirrors? && source == end.reply.stages)
    ensures Answered(preparation, schedule, source) && Traced(repo.task.id, repo.log, source)
    ensures end.Mirrors? ==> Accepted(end.reply, repo.task, preparation, schedule)
    ensures end.Mirrors? && end.whole ==>
      && |repo.log| == |source| + 1 && repo.task.state == end.reply.state && repo.task.stage == end.reply.stage
      && EndsAs(repo.task, start, end.reply) && Shows(repo.log, queued, start.id, source, |source|, now)
    ensures Works(repo) && end == Doubted ==> Terminal(repo.task.state)
    ensures Accepts(repo, source) && end.Mirrors? ==> Terminal(repo.task.state)
    ensures Accepts(repo, source) && end.Mirrors? && |source| < STAGE_LIMIT ==>
      EndsWith(repo.task, repo.log, source) && (end.whole <==> EndsOnlyLast(source))
    ensures Works(repo) ==> Outcome(start, preparation, schedule, row, known, failing, end, repo.task, now)
    ensures Accepts(repo, h.stages) && Honestly(schedule, Polls(schedule), preparation, h) && end == Interrupted ==>
      Shows(repo.log, queued, start.id, h.stages, Shown(schedule, Polls(schedule), start, preparation), now)
    ensures Accepts(repo, h.stages) && Honest(start, preparation, schedule, h) ==> end == Mirrors(h, true)
  {
    hide Works, Safe, Traced, Copies, EndsWith, EndsOnlyLast, Ends, Honest, Accepted, Follows, Terminal, DetailsFit,
      Outcome, EndsAs, Shown, Shows, Honestly, Begun, Answered;
    ghost var at := repo.task;
    if Honest(start, preparation, schedule, h) { HonestOfSame(start, at, preparation, schedule, h); }
    end, source, row, known, failing := Execute(repo, preparation, schedule, now, h);
    ShownOfSame(schedule, Polls(schedule), at, start, preparation);
    if Works(repo) { OutcomeOfSame(at, start, preparation, schedule, row, known, failing, end, repo.task, now); }
    if end.Mirrors? && end.whole {
      EndsAsSame(repo.task, at, start, end.reply);
      CopiesAreShown(start, running, begun, queued, repo.log, source, |source|, now);
    }
    if Accepts(repo, h.stages) && end == Interrupted && Honestly(schedule, Polls(schedule), preparation, h) {
      FollowsIsShown(start, running, begun, queued, row, repo.log, known, h.stages, now);
    }
  }

  /** A restore that has started: its preparation, and the execution if the preparation lets it begin. */
  method Proceed(repo: Repository<Name>, preparation: Reply, schedule: seq<Event>, now: int, ghost h: Reply,
                 ghost start: Task<Name>, ghost queued: seq<Stage<Name>>)
    returns (end: End, ghost source: seq<Stage<Name>>, ghost row: Task<Name>, ghost known: seq<Stage<Name>>,
             ghost failing: bool)
    requires IsSafe(repo) && now != 0 && repo.task.backupId != "" && Begun(repo.task, start, repo.log, queued, now)
    modifies repo
    ensures IsSafe(repo) && old(repo.log) <= repo.log && SameRestore(repo.task, start) && end != Refused
    ensures Answered(preparation, schedule, source) && Traced(repo.task.id, repo.log, source)
    ensures end.Mirrors? ==> source == end.reply.stages && Accepted(end.reply, repo.task, preparation, schedule)
    ensures end.Mirrors? && end.whole ==>
      && |repo.log| == |source| + 1 && repo.task.state == end.reply.state && repo.task.stage == end.reply.stage
      && EndsAs(repo.task, start, end.reply) && Shows(repo.log, queued, repo.task.id, source, |source|, now)
    ensures repo.task.state == Succeeded ==>
      1 < |repo.log| - 1 <= |source| && source[|repo.log| - 2].name == AtSucceeded
        && (repo.backup.Some? || Terminal(preparation.state))
    ensures Works(repo) && end == Doubted ==> Terminal(repo.task.state)
    ensures Accepts(repo, source) && end.Mirrors? ==> Terminal(repo.task.state)
    ensures Accepts(repo, source) && end.Mirrors? && Terminal(end.reply.state) && |source| < STAGE_LIMIT ==>
      EndsWith(repo.task, repo.log, source) && (end.whole <==> EndsOnlyLast(source))
    ensures Works(repo) ==> RunOutcome(start, true, preparation, schedule, row, known, failing, end, repo.task,
                                       old(repo.backup), repo.backup, now)
    ensures Accepts(repo, h.stages) && end == Interrupted && Honestly(schedule, Polls(schedule), preparation, h) ==>
      Shows(repo.log, queued, repo.task.id, h.stages, Shown(schedule, Polls(schedule), start, preparation), now)
    ensures Accepts(repo, h.stages) && Prepares(preparation, start) && Honest(start, preparation, schedule, h)
            ==> end == Mirrors(h, true)
  {
    hide Works, Safe, ValidPreparation, ValidExecution, ValidReply, Order, ValidStages, Mirrored, FirstEnd,
      ValidSafetyBackup, InOrderAt, Traced, Copies, EndsWith, EndsOnlyLast, MarkedAtMost, StateFor, Ends, Storable,
      StorableStage, Honest, Prepares, Accepted, Follows, Terminal, DetailsFit, Outcome, RunOutcome, EndsAs, Shown,
      UnusableBecause, Indexes, Uncertain, Shows, Honestly, Begun, Answered, Polls;
    PreparationAnswers(preparation, schedule);
    var running := repo.task;
    ghost var begun, kept := repo.log, repo.backup;
    source, row, known, failing := preparation.stages, start, [], false;
    BegunParts(running, start, begun, queued, now);
    UnusableOfSame(preparation, start, running);
    HonestFits(start, preparation, schedule, h);
    end := Prepare(repo, running, preparation, now);
    if end.Mirrors? {
      PreparationParts(preparation, running);
      PreparationIsAccepted(preparation, running, repo.task, schedule);
    }
    if UnusableBecause(preparation, start) == "" && !Terminal(preparation.state) && |preparation.stages| < 512 {
      UsableIsPrepared(preparation, start);
    }
    if end == Mirrors(preparation, true) && Terminal(preparation.state) {
      EndsAsSame(repo.task, running, start, preparation);
      CopiesAreShown(start, running, begun, queued, repo.log, source, |source|, now);
    }
    ghost var cut := end == Mirrors(preparation, false)
        && !(DetailsFit(preparation.stages) && |preparation.stages| < 512);
    if end == Mirrors(preparation, true) && !Terminal(preparation.state) {
      // The source asks here once more whether the preparation is complete; it always is.
      assert repo.task.stage == SafetyBackupVerified;
      end, source, row, known, failing :=
        ExecuteBegun(repo, preparation, schedule, now, h, start, queued, running, begun);
    }
    if Works(repo) {
      RunIsOutcome(start, true, preparation, schedule, row, known, failing, end, repo.task, kept, repo.backup, now,
                   cut);
    }
    if repo.task.state == Succeeded { SuccessIsReported(repo.task, repo.log, repo.leased, source); }
  }

  /**
   * One run of a queued restore against any Agent: the copied log is a prefix of one the
   * Agent answered with, and all of the accepted one when the run says so. With a
   * database that works the row ends with the first stage of the accepted log that ends
   * the restore, so a whole copy needs that stage to be the last one.
   */
  method Run(repo: Repository<Name>, targetUsable: bool, preparation: Reply, schedule: seq<Event>, now: int,
             ghost h: Reply)
    returns (end: End, ghost source: seq<Stage<Name>>, ghost row: Task<Name>, ghost known: seq<Stage<Name>>,
             ghost failing: bool)
    requires IsSafe(repo) && now != 0 && repo.task.backupId != "" && (repo.task.state == Queued ==> |repo.log| == 1)
    modifies repo
    ensures IsSafe(repo) && old(repo.log) <= repo.log && SameRestore(repo.task, old(repo.task))
    ensures old(repo.task.state) != Queued
        ==> end == Refused && repo.task == old(repo.task) && repo.log == old(repo.log)
    ensures end == Refused ==> repo.task.state == old(repo.task.state) || repo.task.state == Failed
    ensures end != Refused ==> Answered(preparation, schedule, source) && Traced(repo.task.id, repo.log, source)
    ensures end.Mirrors? ==> source == end.reply.stages && Accepted(end.reply, repo.task, preparation, schedule)
    ensures end.Mirrors? && end.whole ==>
      |repo.log| == |source| + 1 && repo.task.state == end.reply.state && repo.task.stage == end.reply.stage
    ensures repo.task.state == Succeeded && old(repo.task.state) == Queued ==>
      1 < |repo.log| - 1 <= |source| && source[|repo.log| - 2].name == AtSucceeded
        && (repo.backup.Some? || Terminal(preparation.state))
    ensures Works(repo) && end == Doubted ==> Terminal(repo.task.state)
    ensures Accepts(repo, source) && end.Mirrors? ==> Terminal(repo.task.state)
    ensures Accepts(repo, source) && end.Mirrors? && Terminal(end.reply.state) && |source| < STAGE_LIMIT ==>
      EndsWith(repo.task, repo.log, source) && (end.whole <==> EndsOnlyLast(source))
    ensures end.Mirrors? && end.whole ==>
      EndsAs(repo.task, old(repo.task), end.reply)
      && Shows(repo.log, old(repo.log), repo.task.id, source, |source|, now)
    ensures Works(repo) && old(repo.task.state) == Queued ==>
      RunOutcome(old(repo.task), targetUsable, preparation, schedule, row, known, failing, end, repo.task,
                 old(repo.backup), repo.backup, now)
    ensures Accepts(repo, h.stages) && end == Interrupted && Honestly(schedule, Polls(schedule), preparation, h) ==>
      Shows(repo.log, old(repo.log), repo.task.id, h.stages,
            Shown(schedule, Polls(schedule), old(repo.task), preparation), now)
    ensures Accepts(repo, h.stages) && old(repo.task.state) == Queued && targetUsable
            && Prepares(preparation, old(repo.task)) && Honest(old(repo.task), preparation, schedule, h)
            ==> end == Mirrors(h, true)
  {
    hide Works, Safe, ValidPreparation, ValidExecution, ValidReply, Order, ValidStages, Mirrored, FirstEnd,
      ValidSafetyBackup, InOrderAt, Traced, Copies, EndsWith, EndsOnlyLast, MarkedAtMost, StateFor, Ends, Storable,
      StorableStage, Honest, Prepares, Accepted, Follows, Terminal, DetailsFit, Outcome, RunOutcome, EndsAs, Shown,
      UnusableBecause, Indexes, Uncertain, Shows, Honestly, Begun;
    ghost var start, queued, kept := repo.task, repo.log, repo.backup;
    source, row, known, failing := preparation.stages, start, [], false;
    var started := Start(repo, targetUsable, now);
    if !started {
      end := Refused;
      RefusedIsOutcome(start, targetUsable, preparation, schedule, row, known, failing, repo.task, kept, now);
      return;
    }
    end, source, row, known, failing := Proceed(repo, preparation, schedule, now, h, start, queued);
  }
}
