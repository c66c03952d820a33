// The persisted log of one production task: a row that names its last stage, and the
// stages themselves (internal/config/release_types.go, recovery_types.go,
// internal/store/release_repository.go, recovery_task_repository.go).
module TaskLog {
  import opened Outcomes

  datatype State = Queued | Running | RollingBack | Succeeded | Failed | RolledBack | NeedsAttention | Cancelled
      | OtherState

  datatype StageResult = Pending | InProgress | Success | Failure | Warning | OtherResult

  /** Zero times are unset; `isJson` says whether the details parse. */
  datatype Details = Details(text: string, isJson: bool)
  datatype Stage<N> = Stage(task: string, sequence: nat, name: N, result: StageResult, code: string, details: Details,
                            at: int)

  /** The mutable part of a task row and the identities that evidence is checked against. */
  datatype Task<N> = Task(id: string, backupId: string, productionDigest: string, state: State, stage: N,
                          errorCode: string, updatedAt: int, finishedAt: int)

  datatype Evidence = Evidence(backupId: string, taskId: string, productionDigest: string, treeDigest: Option<string>,
                               entryCount: int, totalBytes: int, verifiedAt: int, utc: bool)

  const STAGE_LIMIT := 512

  /** The column check on the details of a stage. */
  const DETAILS_LIMIT := 65536

  predicate Terminal(state: State) {
    state == Succeeded || state == Failed || state == RolledBack || state == NeedsAttention || state == Cancelled
  }

  // ----- what the database accepts

  predicate Storable<N>(task: Task<N>) {
    && task.id != "" && task.state != OtherState && task.updatedAt != 0
    && (Terminal(task.state) <==> task.finishedAt != 0)
  }

  predicate StorableStage<N>(stage: Stage<N>) {
    && stage.task != "" && stage.sequence > 0 && stage.at != 0 && stage.result != OtherResult
    && stage.details.isJson && |stage.details.text| <= DETAILS_LIMIT
  }

  /** An Agent's details need not fit the column; a stage whose details do not is refused. */
  predicate DetailsFit<N>(stages: seq<Stage<N>>) {
    forall i | 0 <= i < |stages| :: |stages[i].details.text| <= DETAILS_LIMIT
  }

  lemma FitGrows<N>(stages: seq<Stage<N>>, from: nat, i: nat)
    requires from <= i < |stages|
    ensures DetailsFit(stages[from..i + 1])
            <==> DetailsFit(stages[from..i]) && |stages[i].details.text| <= DETAILS_LIMIT
  {
    var less, more := stages[from..i], stages[from..i + 1];
    assert more == less + [stages[i]];
    assert more[i - from] == stages[i] && forall k | 0 <= k < |less| :: more[k] == less[k];
  }

  lemma NothingFits<N>(stages: seq<Stage<N>>, from: nat)
    requires from <= |stages|
    ensures DetailsFit(stages[from..from])
  {
  }

  lemma FitAt<N>(stages: seq<Stage<N>>, from: nat, to: nat, i: nat)
    requires from <= i < to <= |stages| && DetailsFit(stages[from..to])
    ensures |stages[i].details.text| <= DETAILS_LIMIT
  {
    assert stages[from..to][i - from] == stages[i];
  }

  lemma FitPart<N>(stages: seq<Stage<N>>, from: nat, to: nat)
    requires from <= to <= |stages| && DetailsFit(stages)
    ensures DetailsFit(stages[from..to])
  {
    assert forall i | 0 <= i < to - from :: stages[from..to][i] == stages[from + i];
  }

  function LastSequence<N>(log: seq<Stage<N>>): nat {
    if log == [] then 0 else log[|log| - 1].sequence
  }

  /** What is mirrored of an Agent stage. */
  function Mirrored<N>(stage: Stage<N>, id: string, sequence: nat): Stage<N> {
    stage.(task := id, sequence := sequence)
  }

  function MirroredAll<N>(stages: seq<Stage<N>>, id: string, first: nat): (r: seq<Stage<N>>)
    ensures |r| == |stages|
  {
    seq(|stages|, i requires 0 <= i < |stages| => Mirrored(stages[i], id, first + i))
  }

  lemma CopyAt<N>(stages: seq<Stage<N>>, id: string, first: nat, k: nat)
    requires k < |stages|
    ensures MirroredAll(stages, id, first)[k] == Mirrored(stages[k], id, first + k)
  {
  }

  lemma CopiesGrow<N>(copies: seq<Stage<N>>, before: seq<Stage<N>>, log: seq<Stage<N>>, stage: Stage<N>, k: nat)
    requires k < |copies| && log == before + copies[..k] && stage == copies[k]
    ensures log + [stage] == before + copies[..k + 1]
  {
  }

  predicate SameOrigin(a: Evidence, b: Evidence) {
    a.backupId == b.backupId && a.taskId == b.taskId && a.productionDigest == b.productionDigest
  }

  /** What is indexed of the task's backup after new evidence. */
  function Indexed(index: Option<Evidence>, evidence: Evidence): Evidence {
    match index
    case None => evidence
    case Some(known) => if SameOrigin(known, evidence) && known.treeDigest.None? then evidence else known
  }

  const NO_DETAILS := Details("{}", true)

  /** One task in the database. A call that does not work, in particular any call after a crash, changes nothing. */
  class Repository<N(==)> {
    const works: nat -> bool
    var calls: nat
    var task: Task<N>
    var log: seq<Stage<N>>
    var backup: Option<Evidence>
    var leased: bool

    /** A queued task, its first stage and the production lease are created together. */
    constructor Queue(task: Task<N>, stage: Stage<N>, works: nat -> bool)
      ensures this.task == task && log == [stage] && backup == None && leased && this.works == works
    {
      this.works, calls := works, 0;
      this.task, log, backup, leased := task, [stage], None, true;
    }

    /** One compare-and-set on state and stage that appends the next stage and gives up the lease at the end. */
    method Transition(expectedState: State, expectedStage: N, next: Task<N>, stage: Stage<N>) returns (ok: bool)
      modifies this
      ensures calls == old(calls) + 1 && backup == old(backup)
      ensures ok <==> works(old(calls)) && Storable(next) && StorableStage(stage)
                      && stage.task == next.id && stage.name == next.stage
                      && old(task.id) == next.id && old(task.state) == expectedState && old(task.stage) == expectedStage
                      && LastSequence(old(log)) + 1 == stage.sequence && (Terminal(next.state) ==> old(leased))
      ensures if ok then
                && task == old(task).(backupId := next.backupId, state := next.state, stage := next.stage,
                                      errorCode := next.errorCode, updatedAt := next.updatedAt,
                                      finishedAt := next.finishedAt)
                && log == old(log) + [stage] && leased == (old(leased) && !Terminal(next.state))
              else task == old(task) && log == old(log) && leased == old(leased)
    {
      calls := calls + 1;
      if !Storable(next) || !StorableStage(stage) || stage.task != next.id || stage.name != next.stage
        || !works(calls - 1) {
        return false;
      }
      if task.id != next.id || task.state != expectedState || task.stage != expectedStage
        || LastSequence(log) + 1 != stage.sequence || (Terminal(next.state) && !leased) {
        return false;
      }
      task := task.(backupId := next.backupId, state := next.state, stage := next.stage, errorCode := next.errorCode,
                          updatedAt := next.updatedAt, finishedAt := next.finishedAt);
      log := log + [stage];
      leased := leased && !Terminal(next.state);
      return true;
    }

    /** The index is written once; only one without a tree digest is completed later, by evidence of the same origin. */
    method PutBackup(evidence: Evidence) returns (ok: bool)
      modifies this
      ensures calls == old(calls) + 1 && task == old(task) && log == old(log) && leased == old(leased)
      ensures ok == works(old(calls)) && backup == if ok then Some(Indexed(old(backup), evidence)) else old(backup)
    {
      calls := calls + 1;
      ok := works(calls - 1);
      if ok {
        if backup.None? {
          backup := Some(evidence);
        } else if SameOrigin(backup.value, evidence) && backup.value.treeDigest.None? {
          backup := Some(backup.value.(treeDigest := evidence.treeDigest, entryCount := evidence.entryCount,
                                       totalBytes := evidence.totalBytes, verifiedAt := evidence.verifiedAt,
                                         utc := evidence.utc));
        }
      }
    }
  }
}
