// The durable state of one workspace and the atomic steps that change it
// (internal/config/files.go, reconcile.go, journal.go, control.go).
module WorkspaceDisk {
  import opened Outcomes

  type Path = string
  type Content = string
  type Tree = map<Path, Content>

  /**
   * A manifest stands for its own digest: digests are injective. Only the managed
   * files matter here; the other entries are the same in every manifest of a
   * workspace and the dependency list is computed from the files.
   */
  datatype Manifest = Manifest(files: Tree)

  datatype State = Ready | Stale | Published | NeedsAttention

  /** The database row of a workspace. */
  datatype Row = Row(state: State, reason: string, revision: nat, draftDigest: Manifest, baseDigest: Manifest)

  datatype ControlState = ControlState(state: State, reason: string, revision: nat)

  function ControlOf(row: Row): ControlState {
    ControlState(row.state, row.reason, row.revision)
  }

  datatype Phase = Prepared | FilesApplied | SqlCommitted | ControlCommitted

  datatype Kind = Create | Replace | Copy | Rename | Delete | ReplaceBatch

  datatype Journal = Journal(kind: Kind, phase: Phase, expectedRevision: nat, nextRevision: nat,
                             beforeDigest: Manifest, afterDigest: Manifest, paths: seq<Path>)

  datatype EvidenceName = BeforeContent | AfterManifest | BeforeManifest | BaseManifest | BatchContent(index: nat)

  /** The recovery directory of the interrupted operation, file by file. */
  datatype Recovery = Recovery(
    beforeContent: Option<Content>, afterManifest: Option<Manifest>, beforeManifest: Option<Manifest>,
    baseManifest: Option<Manifest>, batch: seq<Option<Content>>)
  {
    function Drop(name: EvidenceName): Recovery {
      match name
      case BeforeContent => this.(beforeContent := None)
      case AfterManifest => this.(afterManifest := None)
      case BeforeManifest => this.(beforeManifest := None)
      case BaseManifest => this.(baseManifest := None)
      case BatchContent(i) => if i < |batch| then this.(batch := batch[i := None]) else this
    }

    predicate IsEmpty() {
      beforeContent.None? && afterManifest.None? && beforeManifest.None? && baseManifest.None?
      && forall i | 0 <= i < |batch| :: batch[i].None?
    }
  }

  const NO_RECOVERY := Recovery(None, None, None, None, [])

  datatype Disk = Disk(draft: Tree, base: Tree, row: Row, controlManifest: Manifest, controlState: ControlState,
                       baseManifest: Option<Manifest>, journal: Option<Journal>, recovery: Recovery)

  /** One durable change; a crash falls between two of them. */
  datatype Step =
    | SaveContent(content: Content)
    | SaveAfterManifest(manifest: Manifest)
    | SaveBeforeManifest(manifest: Manifest)
    | SaveBaseManifest(manifest: Manifest)
    | SaveBatchContent(content: Content)
    | DropRecovery(name: EvidenceName)
    | RemoveRecoveryDirectory
    | WriteJournal(journal: Journal)
    | RemoveJournal
    | PutDraft(path: Path, content: Content)
    | DropDraft(path: Path)
    | UpdateRow(expectedRevision: nat, next: Row)
    | WriteBaseManifest(manifest: Manifest)
    | WriteControlManifest(manifest: Manifest)
    | WriteControlState(control: ControlState)

  function ApplyStep(d: Disk, step: Step): Disk {
    match step
    case SaveContent(c) => d.(recovery := d.recovery.(beforeContent := Some(c)))
    case SaveAfterManifest(m) => d.(recovery := d.recovery.(afterManifest := Some(m)))
    case SaveBeforeManifest(m) => d.(recovery := d.recovery.(beforeManifest := Some(m)))
    case SaveBaseManifest(m) => d.(recovery := d.recovery.(baseManifest := Some(m)))
    case SaveBatchContent(c) => d.(recovery := d.recovery.(batch := d.recovery.batch + [Some(c)]))
    case DropRecovery(name) => d.(recovery := d.recovery.Drop(name))
    case RemoveRecoveryDirectory => if d.recovery.IsEmpty() then d.(recovery := NO_RECOVERY) else d
    case WriteJournal(j) => d.(journal := Some(j))
    case RemoveJournal => d.(journal := None)
    case PutDraft(path, c) => d.(draft := d.draft[path := c])
    case DropDraft(path) => d.(draft := d.draft - {path})
    case UpdateRow(expected, next) => if d.row.revision == expected then d.(row := next) else d
    case WriteBaseManifest(m) => d.(baseManifest := Some(m))
    case WriteControlManifest(m) => d.(controlManifest := m)
    case WriteControlState(s) => d.(controlState := s)
  }

  function Exec(d: Disk, steps: seq<Step>): Disk
    decreases |steps|
  {
    if steps == [] then d else Exec(ApplyStep(d, steps[0]), steps[1..])
  }

  lemma {:induction false} ExecConcat(d: Disk, a: seq<Step>, b: seq<Step>)
    ensures Exec(d, a + b) == Exec(Exec(d, a), b)
    decreases |a|
  {
    if a == [] {
      assert a + b == b;
    } else {
      assert (a + b)[1..] == a[1..] + b;
      ExecConcat(ApplyStep(d, a[0]), a[1..], b);
    }
  }

  lemma {:induction false} ExecSnoc(d: Disk, a: seq<Step>, step: Step)
    ensures Exec(d, a + [step]) == ApplyStep(Exec(d, a), step)
  {
    ExecConcat(d, a, [step]);
    assert [step][1..] == [];
  }

  lemma {:induction false} ExecOne(d: Disk, a: Step)
    ensures Exec(d, [a]) == ApplyStep(d, a)
  {
    hide ApplyStep;
    assert [a][1..] == [];
  }

  lemma {:induction false} ExecTwo(d: Disk, a: Step, b: Step)
    ensures Exec(d, [a, b]) == ApplyStep(ApplyStep(d, a), b)
  {
    hide ApplyStep;
    assert [a, b][1..] == [b];
    ExecOne(ApplyStep(d, a), b);
  }
}
