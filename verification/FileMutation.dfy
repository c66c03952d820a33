// File mutations as lists of durable steps, and what reconciliation does with
// the state it finds (internal/config/files.go, replace_files.go, reconcile.go).
module FileMutation {
  import opened Outcomes
  import opened WorkspaceDisk

  datatype Replacement = Replacement(path: Path, content: Content)

  datatype Proposal =
    | CreateFile(destination: Path, content: Content)
    | ReplaceFile(source: Path, content: Content)
    | CopyFile(source: Path, destination: Path)
    | RenameFile(source: Path, destination: Path)
    | DeleteFile(source: Path)
    | ReplaceFiles(replacements: seq<Replacement>)

  function KindOf(p: Proposal): Kind {
    match p
    case CreateFile(_, _) => Create
    case ReplaceFile(_, _) => Replace
    case CopyFile(_, _) => Copy
    case RenameFile(_, _) => Rename
    case DeleteFile(_) => Delete
    case ReplaceFiles(_) => ReplaceBatch
  }

  /** The paths a journal names, in its order. */
  function PathsOf(p: Proposal): (paths: seq<Path>)
    ensures p.ReplaceFiles? ==> |paths| == |p.replacements|
  {
    match p
    case CreateFile(destination, _) => [destination]
    case CopyFile(source, destination) => [source, destination]
    case RenameFile(source, destination) => [source, destination]
    case ReplaceFile(source, _) => [source]
    case DeleteFile(source) => [source]
    case ReplaceFiles(rs) => seq(|rs|, i requires 0 <= i < |rs| => rs[i].path)
  }

  /** What the managed files of a workspace allow. */
  predicate Acceptable(files: Tree, p: Proposal) {
    match p
    case CreateFile(destination, _) => destination !in files
    case ReplaceFile(source, _) => source in files
    case CopyFile(source, destination) => source in files && destination !in files
    case RenameFile(source, destination) => source in files && destination !in files
    case DeleteFile(source) => source in files
    case ReplaceFiles(rs) =>
      && rs != []
      && (forall i | 0 <= i < |rs| :: rs[i].path in files && files[rs[i].path] != rs[i].content)
      && forall i, j | 0 <= i < j < |rs| :: rs[i].path != rs[j].path
  }

  function PutAll(files: Tree, rs: seq<Replacement>): Tree {
    if rs == [] then files else PutAll(files, rs[..|rs| - 1])[rs[|rs| - 1].path := rs[|rs| - 1].content]
  }

  /** The managed files after the mutation. */
  function AfterFiles(files: Tree, p: Proposal): Tree
    requires Acceptable(files, p)
  {
    match p
    case CreateFile(destination, content) => files[destination := content]
    case ReplaceFile(source, content) => files[source := content]
    case CopyFile(source, destination) => files[destination := files[source]]
    case RenameFile(source, destination) => (files - {source})[destination := files[source]]
    case DeleteFile(source) => files - {source}
    case ReplaceFiles(rs) => PutAll(files, rs)
  }

  // ----- the steps of a mutation

  function JournalAt(d: Disk, p: Proposal, phase: Phase): Journal
    requires Acceptable(d.row.draftDigest.files, p)
  {
    Journal(KindOf(p), phase, d.row.revision, d.row.revision + 1, d.row.draftDigest,
            Manifest(AfterFiles(d.row.draftDigest.files, p)), PathsOf(p))
  }

  predicate NeedsContent(kind: Kind) {
    kind == Replace || kind == Rename || kind == Delete
  }

  function SaveBatch(files: Tree, rs: seq<Replacement>): (steps: seq<Step>)
    requires forall i | 0 <= i < |rs| :: rs[i].path in files
    ensures |steps| == |rs|
  {
    seq(|rs|, i requires 0 <= i < |rs| => SaveBatchContent(files[rs[i].path]))
  }

  function ContentSteps(files: Tree, p: Proposal): seq<Step>
    requires Acceptable(files, p)
  {
    if p.ReplaceFiles? then SaveBatch(files, p.replacements)
    else if NeedsContent(KindOf(p)) then [SaveContent(files[PathsOf(p)[0]])]
    else []
  }

  /** Recovery evidence is complete before the journal exists. */
  function RecoverySteps(d: Disk, p: Proposal): seq<Step>
    requires Acceptable(d.row.draftDigest.files, p)
  {
    var files := d.row.draftDigest.files;
    ContentSteps(files, p)
    + [SaveAfterManifest(Manifest(AfterFiles(files, p))), SaveBeforeManifest(d.row.draftDigest)]
    + (if d.baseManifest.None? then [SaveBaseManifest(d.row.baseDigest)] else [])
  }

  function PutSteps(rs: seq<Replacement>): (steps: seq<Step>)
    ensures |steps| == |rs|
  {
    seq(|rs|, i requires 0 <= i < |rs| => PutDraft(rs[i].path, rs[i].content))
  }

  /** What the draft tree goes through; a rename is two steps. */
  function DraftSteps(files: Tree, p: Proposal): seq<Step>
    requires Acceptable(files, p)
  {
    match p
    case CreateFile(destination, content) => [PutDraft(destination, content)]
    case ReplaceFile(source, content) => [PutDraft(source, content)]
    case CopyFile(source, destination) => [PutDraft(destination, files[source])]
    case RenameFile(source, destination) => [PutDraft(destination, files[source]), DropDraft(source)]
    case DeleteFile(source) => [DropDraft(source)]
    case ReplaceFiles(rs) => PutSteps(rs)
  }

  function NextRow(d: Disk, p: Proposal): Row
    requires Acceptable(d.row.draftDigest.files, p)
  {
    d.row.(revision := d.row.revision + 1, draftDigest := Manifest(AfterFiles(d.row.draftDigest.files, p)))
  }

  function ControlSteps(d: Disk, p: Proposal): seq<Step>
    requires Acceptable(d.row.draftDigest.files, p)
  {
    (if d.baseManifest.None? then [WriteBaseManifest(d.row.baseDigest)] else [])
    + [WriteControlManifest(NextRow(d, p).draftDigest), WriteControlState(ControlOf(NextRow(d, p)))]
  }

  /** Removing a file that is not there changes nothing. */
  function RemoveRecoverySteps(j: Journal): seq<Step> {
    [DropRecovery(BeforeContent), DropRecovery(AfterManifest), DropRecovery(BeforeManifest), DropRecovery(BaseManifest)]
    + (if j.kind == ReplaceBatch then DropBatch(|j.paths|) else [])
    + [RemoveRecoveryDirectory]
  }

  function DropBatch(n: nat): (steps: seq<Step>)
    ensures |steps| == n && forall i | 0 <= i < n :: steps[i] == DropRecovery(BatchContent(i))
  {
    seq(n, i requires 0 <= i < n => DropRecovery(BatchContent(i)))
  }

  function CleanupSteps(j: Journal): seq<Step> {
    RemoveRecoverySteps(j) + [RemoveJournal]
  }

  function MutationSteps(d: Disk, p: Proposal): seq<Step>
    requires Acceptable(d.row.draftDigest.files, p)
  {
    RecoverySteps(d, p)
    + [WriteJournal(JournalAt(d, p, Prepared))]
    + DraftSteps(d.row.draftDigest.files, p)
    + [WriteJournal(JournalAt(d, p, FilesApplied)), UpdateRow(d.row.revision, NextRow(d, p)),
      WriteJournal(JournalAt(d, p, SqlCommitted))]
    + ControlSteps(d, p)
    + [WriteJournal(JournalAt(d, p, ControlCommitted))]
    + CleanupSteps(JournalAt(d, p, ControlCommitted))
  }

  // ----- what a workspace must look like

  predicate BaseAgrees(d: Disk) {
    && d.base == d.row.baseDigest.files
    && match d.baseManifest
       case Some(m) => m == d.row.baseDigest
       case None => d.row.revision == 1 && d.controlManifest == d.row.baseDigest
  }

  /** A ready workspace at rest: the check every mutation makes before it starts. */
  predicate Settled(d: Disk) {
    && d.row.state == Ready && d.controlState == ControlOf(d.row)
    && d.journal.None? && d.recovery == NO_RECOVERY
    && d.controlManifest == d.row.draftDigest && d.draft == d.row.draftDigest.files
    && BaseAgrees(d)
  }

  // ----- reconciliation

  /**
   * Reconciliation hashes the base tree itself: it accepts a base manifest with
   * the right paths and sizes even if the manifest states other digests.
   */
  predicate BaseVerified(d: Disk) {
    && d.base == d.row.baseDigest.files
    && match d.baseManifest
       case Some(m) => m.files.Keys == d.base.Keys && forall path | path in d.base :: |m.files[path]| == |d.base[path]|
       case None => d.row.revision == 1 && d.controlManifest == d.row.baseDigest
  }

  const RECOVERY_INVALID := "RECOVERY_INVALID"
  const RECOVERY_STATE_MISMATCH := "RECOVERY_STATE_MISMATCH"
  const JOURNAL_INVALID := "JOURNAL_INVALID"
  const REVISION_MISMATCH := "REVISION_MISMATCH"
  const CONTROL_INVALID := "CONTROL_INVALID"
  const MANIFEST_METADATA_MISMATCH := "MANIFEST_METADATA_MISMATCH"
  const BASE_DIGEST_MISMATCH := "BASE_DIGEST_MISMATCH"
  const DRAFT_DIGEST_MISMATCH := "DRAFT_DIGEST_MISMATCH"

  /** Fail-closed: the row first, then the control record. A row already marked is left alone. */
  function AttentionSteps(row: Row, reason: string): seq<Step> {
    if row.state == NeedsAttention then []
    else
      var next := row.(state := NeedsAttention, reason := reason, revision := row.revision + 1);
      [UpdateRow(row.revision, next), WriteControlState(ControlOf(next))]
  }

  /** The base manifest to trust, and whether it still has to be published. */
  function RecoveryBase(d: Disk, j: Journal): Option<(Manifest, bool)> {
    match d.baseManifest
    case Some(m) => if m == d.row.baseDigest then Some((m, false)) else None
    case None =>
      if j.expectedRevision == 1
        && d.recovery.baseManifest == Some(d.row.baseDigest) then Some((d.row.baseDigest, true)) else None
  }

  /** The evidence for undoing the draft changes is there and matches the old manifest. */
  predicate ContentEvidence(d: Disk, j: Journal) {
    var before, after := j.beforeDigest.files, j.afterDigest.files;
    if j.kind == ReplaceBatch then
      && |d.recovery.batch| >= |j.paths|
      && forall i | 0 <= i < |j.paths| ::
           && j.paths[i] in before && j.paths[i] in after && before[j.paths[i]] != after[j.paths[i]]
           && d.recovery.batch[i] == Some(before[j.paths[i]])
    else if NeedsContent(j.kind) then
      j.paths != [] && j.paths[0] in before && d.recovery.beforeContent == Some(before[j.paths[0]])
    else d.recovery.beforeContent.None?
  }

  /** The draft is one the interrupted operation can have left. */
  predicate DraftRecognised(d: Disk, j: Journal) {
    var before, after := j.beforeDigest.files, j.afterDigest.files;
    if j.kind == ReplaceBatch then
      forall i | 0 <= i < |j.paths| ::
        && j.paths[i] in before && j.paths[i] in after && j.paths[i] in d.draft
        && (d.draft[j.paths[i]] == before[j.paths[i]] || d.draft[j.paths[i]] == after[j.paths[i]])
    else d.draft == before || d.draft == after
  }

  function DropIfPresent(draft: Tree, path: Path): seq<Step> {
    if path in draft then [DropDraft(path)] else []
  }

  /** Puts a removed file back; a file with other content is a conflict. */
  function RestoreSteps(draft: Tree, path: Path, content: Content): Option<seq<Step>> {
    if path !in draft then Some([PutDraft(path, content)])
    else if draft[path] == content then Some([])
    else None
  }

  function RestoreBatch(j: Journal): seq<Step>
    requires forall path | path in j.paths :: path in j.beforeDigest.files
  {
    seq(|j.paths|, i requires 0 <= i < |j.paths| => PutDraft(j.paths[i], j.beforeDigest.files[j.paths[i]]))
  }

  function UndoSteps(d: Disk, j: Journal): Option<seq<Step>>
    requires ContentEvidence(d, j)
    requires match j.kind
             case ReplaceBatch => true
             case Copy => |j.paths| == 2
             case Rename => |j.paths| == 2
             case _ => |j.paths| == 1
  {
    if j.kind == ReplaceBatch then
      Some(RestoreBatch(j))
    else if d.draft == j.beforeDigest.files then Some([])
    else
      match j.kind
      case Create => Some(DropIfPresent(d.draft, j.paths[0]))
      case Copy => Some(DropIfPresent(d.draft, j.paths[1]))
      case Replace => Some([PutDraft(j.paths[0], d.recovery.beforeContent.value)])
      case Delete => RestoreSteps(d.draft, j.paths[0], d.recovery.beforeContent.value)
      case Rename =>
        match RestoreSteps(d.draft, j.paths[0], d.recovery.beforeContent.value) {
          case None => None
          case Some(restore) => Some(DropIfPresent(d.draft, j.paths[1]) + restore)
        }
  }

  /** What an undo that meets a conflict has done before: a rename loses its new file first. */
  function FailedUndoSteps(d: Disk, j: Journal): seq<Step>
    requires WellFormed(j)
  {
    if j.kind == Rename then DropIfPresent(d.draft, j.paths[1]) else []
  }

  function RollBackSteps(d: Disk, j: Journal): seq<Step>
    requires ContentEvidence(d, j)
    requires WellFormed(j)
  {
    if d.row.draftDigest != j.beforeDigest || j.phase == SqlCommitted || j.phase == ControlCommitted then
      AttentionSteps(d.row, RECOVERY_STATE_MISMATCH)
    else
      match UndoSteps(d, j)
      case None => FailedUndoSteps(d, j) + AttentionSteps(d.row, RECOVERY_INVALID)
      case Some(undo) =>
        if Exec(d, undo).draft != j.beforeDigest.files then undo + AttentionSteps(d.row, RECOVERY_STATE_MISMATCH)
        else undo + [WriteControlManifest(j.beforeDigest), WriteControlState(ControlOf(d.row))] + CleanupSteps(j)
  }

  function RollForwardSteps(d: Disk, j: Journal, base: (Manifest, bool)): seq<Step> {
    if d.row.draftDigest != j.afterDigest || d.draft != j.afterDigest.files || j.phase == Prepared then
      AttentionSteps(d.row, RECOVERY_STATE_MISMATCH)
    else
      (if base.1 then [WriteBaseManifest(base.0)] else [])
      + [WriteControlManifest(j.afterDigest), WriteControlState(ControlOf(d.row))]
      + CleanupSteps(j)
  }

  predicate DistinctPaths(paths: seq<Path>) {
    forall i, k | 0 <= i < k < |paths| :: paths[i] != paths[k]
  }

  /** The path count that the journal kind calls for, no path twice. */
  predicate WellFormed(j: Journal) {
    && j.expectedRevision + 1 == j.nextRevision && DistinctPaths(j.paths)
    && match j.kind
       case ReplaceBatch => j.paths != []
       case Copy => |j.paths| == 2
       case Rename => |j.paths| == 2
       case _ => |j.paths| == 1
  }

  function JournalSteps(d: Disk, j: Journal): seq<Step> {
    if !WellFormed(j) then AttentionSteps(d.row, JOURNAL_INVALID)
    else if d.recovery.beforeManifest != Some(j.beforeDigest) || d.recovery.afterManifest != Some(j.afterDigest) then
      AttentionSteps(d.row, RECOVERY_INVALID)
    else if !ContentEvidence(d, j) || RecoveryBase(d, j).None? then AttentionSteps(d.row, RECOVERY_INVALID)
    else if !DraftRecognised(d, j) then AttentionSteps(d.row, RECOVERY_STATE_MISMATCH)
    else if d.row.revision == j.expectedRevision then RollBackSteps(d, j)
    else if d.row.revision == j.nextRevision then RollForwardSteps(d, j, RecoveryBase(d, j).value)
    else AttentionSteps(d.row, RECOVERY_STATE_MISMATCH)
  }

  /** Evidence without a journal belongs to an operation that never started. */
  function OrphanSteps(r: Recovery): seq<Step> {
    [DropRecovery(BaseManifest)] + DropBatch(|r.batch|)
    + [DropRecovery(BeforeManifest), DropRecovery(BeforeContent), DropRecovery(AfterManifest), RemoveRecoveryDirectory]
  }

  /** The checks on a ready workspace without a journal. */
  function VerifySteps(d: Disk): seq<Step> {
    if d.row.state != Ready then []
    else if d.controlState.revision > d.row.revision then AttentionSteps(d.row, REVISION_MISMATCH)
    else if d.controlState.state != Ready then AttentionSteps(d.row, CONTROL_INVALID)
    else if d.controlManifest != d.row.draftDigest then AttentionSteps(d.row, MANIFEST_METADATA_MISMATCH)
    else if !BaseVerified(d) then AttentionSteps(d.row, BASE_DIGEST_MISMATCH)
    else if d.draft != d.row.draftDigest.files then AttentionSteps(d.row, DRAFT_DIGEST_MISMATCH)
    else if d.controlState.revision < d.row.revision then [WriteControlState(ControlOf(d.row))]
    else []
  }

  /** Everything one reconciliation of a registered workspace does to the disk. */
  function ReconcileSteps(d: Disk): seq<Step> {
    match d.journal
    case Some(j) => JournalSteps(d, j)
    case None => OrphanSteps(d.recovery) + VerifySteps(d)
  }
}
