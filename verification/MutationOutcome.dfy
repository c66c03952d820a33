// What one change of the files leaves of a workspace, told by the parts of its disk
// (internal/config/files.go, replace_files.go).
module MutationOutcome {
  import opened CrashRecovery
  import opened FileMutation
  import opened Outcomes
  import opened RepairOutcome
  import opened WorkspaceDisk

  function Look(files: Tree, path: Path): Option<Content> {
    if path in files then Some(files[path]) else None
  }

  /** The files that the change needs are there, what it would overwrite is not, and after it they are as asked. */
  ghost predicate ChangedBy(p: Proposal, before: Tree, after: Tree) {
    match p
    case CreateFile(destination, content) =>
      && destination !in before && Look(after, destination) == Some(content) && SameBut(before, after, {destination})
    case ReplaceFile(source, content) =>
      && source in before && Look(after, source) == Some(content) && SameBut(before, after, {source})
    case CopyFile(source, destination) =>
      && source in before && destination !in before && Look(after, destination) == Some(before[source])
      && SameBut(before, after, {destination})
    case RenameFile(source, destination) =>
      && source in before && destination !in before && Look(after, destination) == Some(before[source])
      && source !in after && SameBut(before, after, {source, destination})
    case DeleteFile(source) => source in before && source !in after && SameBut(before, after, {source})
    case ReplaceFiles(rs) =>
      && (forall r | r in rs ::
         r.path in before && before[r.path] != r.content && Look(after, r.path) == Some(r.content))
      && rs != [] && SameBut(before, after, Targets(rs))
  }

  ghost function Targets(rs: seq<Replacement>): set<Path> {
    set r | r in rs :: r.path
  }

  ghost predicate SameBut(before: Tree, after: Tree, paths: set<Path>) {
    forall path | path !in paths :: Look(after, path) == Look(before, path)
  }

  /** The row, the control record and both trees agree, and nothing is under way. */
  ghost predicate AtRest(d: Disk) {
    && Undisturbed(d) && BaseIsKnown(d) && d.draft == d.row.draftDigest.files
  }

  ghost predicate Undisturbed(d: Disk) {
    && d.row.state == Ready && d.controlState == ControlState(Ready, d.row.reason, d.row.revision)
    && d.journal.None? && d.controlManifest == d.row.draftDigest
  }

  ghost predicate BaseIsKnown(d: Disk) {
    && d.base == d.row.baseDigest.files
    && if d.baseManifest.Some? then d.baseManifest.value == d.row.baseDigest
       else d.row.revision == 1 && d.row.draftDigest == d.row.baseDigest
  }

  /** Without a crash: the changed files and records of them, or a refusal; only damage is marked. */
  ghost predicate MutationLeaves(d: Disk, p: Proposal, e: Disk, done: bool) {
    if done then
      && AtRest(d) && ChangedBy(p, d.draft, e.draft)
      && e == d.(draft := e.draft, baseManifest := Some(d.row.baseDigest), controlManifest := Manifest(e.draft),
                 row := Row(Ready, d.row.reason, d.row.revision + 1, Manifest(e.draft), d.row.baseDigest),
                 controlState := ControlState(Ready, d.row.reason, d.row.revision + 1))
    else if !Undisturbed(d) then e == d
    else if !BaseIsKnown(d) then MarkedAs(d, e, "BASE_DIGEST_MISMATCH") && OnlyMarked(d, e)
    else if d.draft != d.row.draftDigest.files then MarkedAs(d, e, "DRAFT_DIGEST_MISMATCH") && OnlyMarked(d, e)
    else e == d
  }

  lemma RestIsSettled(d: Disk)
    ensures Settled(d) <==> AtRest(d) && d.recovery == NO_RECOVERY
  {
  }

  lemma {:induction false} PutAllPuts(files: Tree, rs: seq<Replacement>)
    requires forall i, j | 0 <= i < j < |rs| :: rs[i].path != rs[j].path
    ensures forall r | r in rs :: Look(PutAll(files, rs), r.path) == Some(r.content)
    ensures SameBut(files, PutAll(files, rs), Targets(rs))
    decreases |rs|
  {
    if rs != [] {
      var front, last := rs[..|rs| - 1], rs[|rs| - 1];
      PutAllPuts(files, front);
      forall r | r in front ensures r.path != last.path {
        var i :| 0 <= i < |front| && front[i] == r;
        assert rs[i] == r && rs[|rs| - 1] == last;
      }
      OneMorePut(files, PutAll(files, front), front, last);
      assert rs == front + [last];
    }
  }

  lemma OneMorePut(files: Tree, after: Tree, front: seq<Replacement>, last: Replacement)
    requires forall r | r in front :: r.path != last.path && Look(after, r.path) == Some(r.content)
    requires SameBut(files, after, Targets(front))
    ensures var more := after[last.path := last.content];
      && (forall r | r in front + [last] :: Look(more, r.path) == Some(r.content))
      && SameBut(files, more, Targets(front + [last]))
  {
    assert last in front + [last];
    assert forall r | r in front :: r in front + [last];
  }

  /** The files of every accepted change are as asked. */
  lemma {:induction false} ChangeIsAsked(files: Tree, p: Proposal)
    requires Acceptable(files, p)
    ensures ChangedBy(p, files, AfterFiles(files, p))
  {
    if p.ReplaceFiles? {
      PutAllPuts(files, p.replacements);
      forall r | r in p.replacements ensures r.path in files && files[r.path] != r.content {
        var i :| 0 <= i < |p.replacements| && p.replacements[i] == r;
      }
    }
  }

  /** A mutation that is not cut leaves the changed files and the records of them. */
  lemma {:induction false} MutationChanges(d: Disk, p: Proposal)
    requires Started(d, p)
    ensures MutationLeaves(d, p, Exec(d, MutationSteps(d, p)), true)
  {
    MutationFinishes(d, p);
    ChangeIsAsked(d.row.draftDigest.files, p);
    RestIsSettled(d);
    hide MutationSteps, Exec, ChangedBy, AtRest;
    assert d.row.state == Ready && d.draft == d.row.draftDigest.files;
  }
}
