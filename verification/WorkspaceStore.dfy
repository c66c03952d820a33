// Changing and repairing a workspace in place (internal/config/files.go, reconcile.go).
module WorkspaceStore {
  import opened CrashRecovery
  import opened FileMutation
  import opened MutationOutcome
  import opened Outcomes
  import opened RepairOutcome
  import opened WorkspaceDisk

  datatype MutationError = Conflict | EntryNotManaged | Exists | PathInvalid | LimitExceeded | Crashed

  /** The steps that are taken: all of them, or as many as there is power for. */
  function Taken(steps: seq<Step>, power: nat): seq<Step> {
    if power < |steps| then steps[..power] else steps
  }

  /** Verification before a mutation: a mismatch of base or draft is marked. */
  function AccessSteps(d: Disk): seq<Step> {
    if d.row.state != Ready || d.controlState != ControlOf(d.row) || d.journal.Some?
      || d.controlManifest != d.row.draftDigest then []
    else if !BaseAgrees(d) then AttentionSteps(d.row, BASE_DIGEST_MISMATCH)
    else if d.draft != d.row.draftDigest.files then AttentionSteps(d.row, DRAFT_DIGEST_MISMATCH)
    else []
  }

  /** A workspace that is not at rest is refused; damage is marked. */
  lemma {:induction false} AccessLeaves(d: Disk, p: Proposal)
    requires !Settled(d) && d.recovery == NO_RECOVERY
    ensures MutationLeaves(d, p, Exec(d, AccessSteps(d)), false) && !AtRest(d)
  {
    RestIsSettled(d);
    MarkingMarks(d, BASE_DIGEST_MISMATCH);
    MarkingMarks(d, DRAFT_DIGEST_MISMATCH);
    assert Exec(d, []) == d;
    hide Exec, AttentionSteps, MarkedAs, OnlyMarked;
  }

  lemma RefusedLeaves(d: Disk, p: Proposal)
    requires Settled(d)
    ensures MutationLeaves(d, p, d, false) && AtRest(d) && d.draft == d.row.draftDigest.files
  {
    RestIsSettled(d);
  }

  lemma {:induction false} MutatedRow(d: Disk, p: Proposal)
    requires Started(d, p)
    ensures Exec(d, MutationSteps(d, p)).row == NextRow(d, p)
  {
    hide MutationSteps, Exec;
    MutationFinishes(d, p);
  }

  lemma PrefixOfMore<T>(a: seq<T>, b: seq<T>, c: seq<T>)
    requires a <= b
    ensures a <= b + c
  {
  }

  /** Why the managed files do not allow a change. */
  function Refusal(files: Tree, p: Proposal): MutationError {
    match p
    case CreateFile(_, _) => Exists
    case ReplaceFile(_, _) => EntryNotManaged
    case CopyFile(source, _) => if source !in files then EntryNotManaged else Exists
    case RenameFile(source, _) => if source !in files then EntryNotManaged else Exists
    case DeleteFile(_) => EntryNotManaged
    case ReplaceFiles(rs) =>
      if rs == [] then LimitExceeded
      else if exists i, j | 0 <= i < j < |rs| :: rs[i].path == rs[j].path then PathInvalid
      else if exists i | 0 <= i < |rs| :: rs[i].path !in files then EntryNotManaged
      else Conflict
  }

  /** The reason of a refusal: the first check that fails. */
  ghost predicate RefusedFor(files: Tree, p: Proposal, error: MutationError) {
    match error
    case Exists =>
      match p {
        case CreateFile(destination, _) => destination in files
        case CopyFile(source, destination) => source in files && destination in files
        case RenameFile(source, destination) => source in files && destination in files
        case _ => false
      }
    case EntryNotManaged =>
      match p {
        case CreateFile(_, _) => false
        case ReplaceFiles(rs) => rs != [] && NoneTwice(rs) && exists r | r in rs :: r.path !in files
        case _ => p.source !in files
      }
    case PathInvalid => p.ReplaceFiles? && !NoneTwice(p.replacements)
    case LimitExceeded => p.ReplaceFiles? && |p.replacements| == 0
    case Conflict =>
      && p.ReplaceFiles? && NoneTwice(p.replacements) && (forall r | r in p.replacements :: r.path in files)
      && exists r | r in p.replacements :: r.path in files && files[r.path] == r.content
    case Crashed => false
  }

  ghost predicate NoneTwice(rs: seq<Replacement>) {
    forall i, j | 0 <= i < |rs| && 0 <= j < |rs| && rs[i].path == rs[j].path :: i == j
  }

  lemma RefusalIsRight(files: Tree, p: Proposal)
    requires !Acceptable(files, p)
    ensures RefusedFor(files, p, Refusal(files, p))
  {
    if p.ReplaceFiles? && p.replacements != [] {
      var rs := p.replacements;
      if Refusal(files, p) == EntryNotManaged {
        var i :| 0 <= i < |rs| && rs[i].path !in files;
        assert rs[i] in rs;
      } else if Refusal(files, p) == Conflict {
        var i :| 0 <= i < |rs| && files[rs[i].path] == rs[i].content;
        assert rs[i] in rs;
      }
    }
  }

  /** A list of steps can be taken in two parts. */
  lemma Fits(trail: seq<Step>, a: seq<Step>, b: seq<Step>, goal: seq<Step>)
    requires trail + (a + b) <= goal
    ensures trail + a <= goal && trail + a + b <= goal && trail + a + b == trail + (a + b)
  {
    assert trail + a + b == trail + (a + b);
  }

  /** Running out of power before the goal is exactly having taken as many steps as there was power for. */
  lemma OutOfPower(origin: Disk, goal: seq<Step>, trail: seq<Step>, budget: nat, alive: bool)
    requires trail <= goal && |trail| <= budget
    requires if alive then trail == goal else |trail| == budget < |goal|
    ensures trail == Taken(goal, budget) && alive == (budget >= |goal|)
  {
  }

  /** The durable state of one workspace; `power` steps are left before the process dies. */
  class Workspace {
    var draft: Tree
    var base: Tree
    var row: Row
    var controlManifest: Manifest
    var controlState: ControlState
    var baseManifest: Option<Manifest>
    var journal: Option<Journal>
    var recovery: Recovery
    var power: nat

    /** Where the running operation started and what it has done since. */
    ghost var origin: Disk
    ghost var trail: seq<Step>
    ghost var budget: nat

    ghost function State(): Disk
      reads this
    {
      Disk(draft, base, row, controlManifest, controlState, baseManifest, journal, recovery)
    }

    /** The state is exactly what the steps taken so far make of the origin. */
    ghost predicate Traced()
      reads this
    {
      State() == Exec(origin, trail) && |trail| + power == budget
    }

    ghost method Begin()
      modifies this`origin, this`trail, this`budget
      ensures Traced() && origin == State() && trail == [] && budget == power
    {
      origin, trail, budget := State(), [], power;
    }

    /** One write to the disk or the database. */
    method Write(step: Step)
      modifies this`draft, this`row, this`controlManifest, this`controlState, this`baseManifest, this`journal,
          this`recovery
      ensures State() == ApplyStep(old(State()), step)
    {
      match step {
        case SaveContent(c) => recovery := recovery.(beforeContent := Some(c));
        case SaveAfterManifest(m) => recovery := recovery.(afterManifest := Some(m));
        case SaveBeforeManifest(m) => recovery := recovery.(beforeManifest := Some(m));
        case SaveBaseManifest(m) => recovery := recovery.(baseManifest := Some(m));
        case SaveBatchContent(c) => recovery := recovery.(batch := recovery.batch + [Some(c)]);
        case DropRecovery(name) => recovery := recovery.Drop(name);
        case RemoveRecoveryDirectory => if recovery.IsEmpty() { recovery := NO_RECOVERY; }
        case WriteJournal(j) => journal := Some(j);
        case RemoveJournal => journal := None;
        case PutDraft(path, c) => draft := draft[path := c];
        case DropDraft(path) => draft := draft - {path};
        case UpdateRow(expected, next) => if row.revision == expected { row := next; }
        case WriteBaseManifest(m) => baseManifest := Some(m);
        case WriteControlManifest(m) => controlManifest := m;
        case WriteControlState(s) => controlState := s;
      }
    }

    /** One durable step, unless the process has died; the steps taken stay a prefix of the goal. */
    method Do(step: Step, ghost goal: seq<Step>) returns (alive: bool)
      requires Traced() && trail + [step] <= goal
      modifies this
      ensures Traced() && origin == old(origin) && budget == old(budget)
      ensures alive ==> trail == old(trail) + [step] && State() == ApplyStep(old(State()), step)
      ensures !alive ==> power == 0 && trail == old(trail) && |trail| < |goal| && State() == old(State())
    {
      hide ApplyStep;
      if power == 0 {
        return false;
      }
      Write(step);
      power := power - 1;
      ExecSnoc(origin, trail, step);
      trail := trail + [step];
      return true;
    }

    // ----- recovery evidence

    /** The old contents of a batch, in its order. */
    method SaveContents(files: Tree, rs: seq<Replacement>, ghost goal: seq<Step>) returns (alive: bool)
      requires forall i | 0 <= i < |rs| :: rs[i].path in files
      requires Traced() && trail + SaveBatch(files, rs) <= goal
      modifies this
      ensures Traced() && origin == old(origin) && budget == old(budget) && trail <= goal
      ensures alive ==> trail == old(trail) + SaveBatch(files, rs)
      ensures !alive ==> power == 0 && |trail| < |goal|
    {
      hide ApplyStep, Exec;
      ghost var steps := SaveBatch(files, rs);
      for i := 0 to |rs|
        invariant Traced() && origin == old(origin) && budget == old(budget) && trail == old(trail) + steps[..i]
      {
        assert old(trail) + steps[..i] + [steps[i]] == old(trail) + steps[..i + 1];
        PrefixOfMore(old(trail) + steps[..i + 1], old(trail) + steps[..i + 1], steps[i + 1..]);
        assert old(trail) + steps[..i + 1] + steps[i + 1..] == old(trail) + steps;
        alive := Do(SaveBatchContent(files[rs[i].path]), goal);
        if !alive {
          return;
        }
      }
      assert steps[..|rs|] == steps;
      return true;
    }

    /** Recovery evidence is complete before the journal exists. */
    method WriteRecovery(p: Proposal, after: Manifest, ensureBase: bool, ghost goal: seq<Step>) returns (alive: bool)
      requires Acceptable(row.draftDigest.files, p) && after == Manifest(AfterFiles(row.draftDigest.files, p))
      requires ensureBase == baseManifest.None?
      requires Traced() && trail + RecoverySteps(State(), p) <= goal
      modifies this
      ensures Traced() && origin == old(origin) && budget == old(budget) && trail <= goal
      ensures alive ==> trail == old(trail) + RecoverySteps(old(State()), p)
      ensures !alive ==> power == 0 && |trail| < |goal|
    {
      hide ApplyStep, Exec, ContentSteps;
      var before, baseDigest := row.draftDigest, row.baseDigest;
      ghost var content := ContentSteps(before.files, p);
      ghost var manifests := [SaveAfterManifest(after), SaveBeforeManifest(before)];
      ghost var rest := if ensureBase then [SaveBaseManifest(baseDigest)] else [];
      RecoveryParts(State(), p);
      Fits(trail, content, manifests + rest, goal);
      alive := SaveOldContent(p, before.files, goal);
      if !alive {
        return;
      }
      Fits(trail, [SaveAfterManifest(after)], [SaveBeforeManifest(before)] + rest, goal);
      assert [SaveAfterManifest(after)] + ([SaveBeforeManifest(before)] + rest) == manifests + rest;
      alive := Do(SaveAfterManifest(after), goal);
      if !alive {
        return;
      }
      Fits(trail, [SaveBeforeManifest(before)], rest, goal);
      alive := Do(SaveBeforeManifest(before), goal);
      if !alive {
        return;
      }
      if ensureBase {
        alive := Do(SaveBaseManifest(baseDigest), goal);
      }
    }

    method SaveOldContent(p: Proposal, files: Tree, ghost goal: seq<Step>) returns (alive: bool)
      requires Acceptable(files, p) && Traced() && trail + ContentSteps(files, p) <= goal
      modifies this
      ensures Traced() && origin == old(origin) && budget == old(budget) && trail <= goal
      ensures alive ==> trail == old(trail) + ContentSteps(files, p)
      ensures !alive ==> power == 0 && |trail| < |goal|
    {
      hide ApplyStep, Exec;
      if p.ReplaceFiles? {
        alive := SaveContents(files, p.replacements, goal);
      } else if NeedsContent(KindOf(p)) {
        alive := Do(SaveContent(files[PathsOf(p)[0]]), goal);
      } else {
        assert trail + [] == trail;
        alive := true;
      }
    }

    // ----- the draft

    method ApplyProposal(p: Proposal, files: Tree, ghost goal: seq<Step>) returns (alive: bool)
      requires Acceptable(files, p) && Traced() && trail + DraftSteps(files, p) <= goal
      modifies this
      ensures Traced() && origin == old(origin) && budget == old(budget) && trail <= goal
      ensures alive ==> trail == old(trail) + DraftSteps(files, p)
      ensures !alive ==> power == 0 && |trail| < |goal|
    {
      hide ApplyStep, Exec;
      match p
      case CreateFile(destination, content) => alive := Do(PutDraft(destination, content), goal);
      case ReplaceFile(source, content) => alive := Do(PutDraft(source, content), goal);
      case CopyFile(source, destination) => alive := Do(PutDraft(destination, files[source]), goal);
      case RenameFile(source, destination) =>
        var content := files[source];
        Fits(trail, [PutDraft(destination, content)], [DropDraft(source)], goal);
        alive := Do(PutDraft(destination, content), goal);
        if alive {
          alive := Do(DropDraft(source), goal);
        }
      case DeleteFile(source) => alive := Do(DropDraft(source), goal);
      case ReplaceFiles(rs) => alive := ApplyReplacements(rs, goal);
    }

    method ApplyReplacements(rs: seq<Replacement>, ghost goal: seq<Step>) returns (alive: bool)
      requires Traced() && trail + PutSteps(rs) <= goal
      modifies this
      ensures Traced() && origin == old(origin) && budget == old(budget) && trail <= goal
      ensures alive ==> trail == old(trail) + PutSteps(rs)
      ensures !alive ==> power == 0 && |trail| < |goal|
    {
      hide ApplyStep, Exec;
      ghost var steps := PutSteps(rs);
      for i := 0 to |rs|
        invariant Traced() && origin == old(origin) && budget == old(budget) && trail == old(trail) + steps[..i]
      {
        assert steps == steps[..i] + ([steps[i]] + steps[i + 1..]);
        Fits(old(trail), steps[..i], [steps[i]] + steps[i + 1..], goal);
        Fits(trail, [steps[i]], steps[i + 1..], goal);
        assert steps[..i] + [steps[i]] == steps[..i + 1];
        alive := Do(PutDraft(rs[i].path, rs[i].content), goal);
        if !alive {
          return;
        }
      }
      assert steps[..|rs|] == steps;
      return true;
    }

    // ----- control records and cleanup

    method PublishControl(ensureBase: bool, next: Row, ghost steps: seq<Step>, ghost goal: seq<Step>)
        returns (alive: bool)
      requires steps == (if ensureBase then [WriteBaseManifest(next.baseDigest)] else [])
                        + [WriteControlManifest(next.draftDigest), WriteControlState(ControlOf(next))]
      requires Traced() && trail + steps <= goal
      modifies this
      ensures Traced() && origin == old(origin) && budget == old(budget) && trail <= goal
      ensures alive ==> trail == old(trail) + steps
      ensures !alive ==> power == 0 && |trail| < |goal|
    {
      hide ApplyStep, Exec;
      ghost var manifest, state := WriteControlManifest(next.draftDigest), WriteControlState(ControlOf(next));
      if ensureBase {
        Fits(trail, [WriteBaseManifest(next.baseDigest)], [manifest, state], goal);
        alive := Do(WriteBaseManifest(next.baseDigest), goal);
        if !alive {
          return;
        }
      } else {
        assert [] + [manifest, state] == [manifest, state];
      }
      assert [manifest] + [state] == [manifest, state];
      Fits(trail, [manifest], [state], goal);
      alive := Do(WriteControlManifest(next.draftDigest), goal);
      if alive {
        alive := Do(WriteControlState(ControlOf(next)), goal);
      }
    }

    method DropAll(names: seq<EvidenceName>, ghost goal: seq<Step>) returns (alive: bool)
      requires Traced() && trail + Drops(names) <= goal
      modifies this
      ensures Traced() && origin == old(origin) && budget == old(budget) && trail <= goal
      ensures State() == old(State()).(recovery := recovery)
      ensures alive ==> trail == old(trail) + Drops(names)
      ensures !alive ==> power == 0 && |trail| < |goal|
    {
      hide Exec;
      ghost var drops := Drops(names);
      ghost var start, before := trail, State();
      for i := 0 to |names|
        invariant Traced() && origin == old(origin) && budget == old(budget) && trail == start + drops[..i]
        invariant State() == before.(recovery := recovery)
      {
        assert drops == drops[..i] + ([drops[i]] + drops[i + 1..]);
        Fits(start, drops[..i], [drops[i]] + drops[i + 1..], goal);
        Fits(trail, [drops[i]], drops[i + 1..], goal);
        assert drops[..i] + [drops[i]] == drops[..i + 1];
        alive := Do(DropRecovery(names[i]), goal);
        if !alive {
          return;
        }
      }
      assert drops[..|names|] == drops;
      return true;
    }

    /** Removes the evidence file by file, then the journal. */
    method Cleanup(j: Journal, ghost goal: seq<Step>) returns (alive: bool)
      requires Traced() && trail + CleanupSteps(j) <= goal
      modifies this
      ensures Traced() && origin == old(origin) && budget == old(budget) && trail <= goal
      ensures alive ==> trail == old(trail) + CleanupSteps(j)
      ensures !alive ==> power == 0 && |trail| < |goal|
    {
      hide ApplyStep, Exec, CleanupSteps;
      var names := [BeforeContent, AfterManifest, BeforeManifest, BaseManifest];
      if j.kind == ReplaceBatch {
        names := names + BatchNames(|j.paths|);
      }
      ghost var drops := Drops(names);
      CleanupIsDrops(j, names);
      Fits(trail, drops, [RemoveRecoveryDirectory] + [RemoveJournal], goal);
      alive := DropAll(names, goal);
      if !alive {
        return;
      }
      Fits(trail, [RemoveRecoveryDirectory], [RemoveJournal], goal);
      alive := Do(RemoveRecoveryDirectory, goal);
      if alive {
        alive := Do(RemoveJournal, goal);
      }
    }

    // ----- one mutation

    /** Fail-closed: the row first, then the control record. */
    method MarkNeedsAttention(reason: string, ghost goal: seq<Step>) returns (alive: bool)
      requires Traced() && trail + AttentionSteps(row, reason) <= goal
      modifies this
      ensures Traced() && origin == old(origin) && budget == old(budget) && trail <= goal
      ensures alive ==> trail == old(trail) + AttentionSteps(old(row), reason)
      ensures !alive ==> power == 0 && |trail| < |goal|
    {
      hide ApplyStep, Exec;
      if row.state == NeedsAttention {
        assert trail + [] == trail;
        return true;
      }
      var next := row.(state := NeedsAttention, reason := reason, revision := row.revision + 1);
      var expected := row.revision;
      assert [UpdateRow(expected, next)] + [WriteControlState(ControlOf(next))] == AttentionSteps(row, reason);
      Fits(trail, [UpdateRow(expected, next)], [WriteControlState(ControlOf(next))], goal);
      alive := Do(UpdateRow(expected, next), goal);
      if alive {
        alive := Do(WriteControlState(ControlOf(next)), goal);
      }
    }

    /** The checks every mutation makes first, whatever evidence is left; a damaged base or draft is marked. */
    method VerifyAccess(ghost goal: seq<Step>) returns (verified: bool, ensureBase: bool, alive: bool)
      requires Traced() && trail == [] && AccessSteps(State()) <= goal
      modifies this
      ensures Traced() && origin == old(origin) && budget == old(budget) && trail <= goal
      ensures verified <==> Settled(old(State()).(recovery := NO_RECOVERY))
      ensures verified ==> alive && State() == old(State()) && trail == [] && ensureBase == baseManifest.None?
      ensures alive ==> trail == AccessSteps(old(State()))
      ensures !alive ==> power == 0 && |trail| < |goal|
    {
      hide ApplyStep, Exec;
      if row.state != Ready || controlState != ControlOf(row) || journal.Some? || controlManifest != row.draftDigest {
        return false, false, true;
      }
      ensureBase := baseManifest.None? && row.revision == 1;
      var trusted := if ensureBase then Some(controlManifest) else baseManifest;
      if trusted != Some(row.baseDigest) || base != row.baseDigest.files {
        assert trail + AttentionSteps(row, BASE_DIGEST_MISMATCH) == AccessSteps(State());
        alive := MarkNeedsAttention(BASE_DIGEST_MISMATCH, goal);
        return false, ensureBase, alive;
      }
      if draft != row.draftDigest.files {
        assert trail + AttentionSteps(row, DRAFT_DIGEST_MISMATCH) == AccessSteps(State());
        alive := MarkNeedsAttention(DRAFT_DIGEST_MISMATCH, goal);
        return false, ensureBase, alive;
      }
      return true, ensureBase, true;
    }

    /** From the recovery evidence to the applied draft. */
    method PrepareAndApply(p: Proposal, after: Manifest, ensureBase: bool, prepared: Journal, ghost d0: Disk,
                           ghost goal: seq<Step>)
      returns (alive: bool)
      requires Started(d0, p) && State() == d0 == origin && trail == [] && Traced()
      requires after == After(d0, p) && ensureBase == baseManifest.None? && prepared == JournalAt(d0, p, Prepared)
      requires RecoverySteps(d0, p) + ([WriteJournal(prepared)] + DraftSteps(Before(d0), p)) <= goal
      modifies this
      ensures Traced() && origin == old(origin) && budget == old(budget) && trail <= goal
      ensures alive ==> trail == RecoverySteps(d0, p) + ([WriteJournal(prepared)] + DraftSteps(Before(d0), p))
                        && draft == after.files
      ensures !alive ==> power == 0 && |trail| < |goal|
    {
      hide ApplyStep, Exec, RecoverySteps, DraftSteps, Settled, AfterFiles;
      var files := row.draftDigest.files;
      ghost var evidence, journalStep, changes := RecoverySteps(d0, p), [WriteJournal(prepared)], DraftSteps(files, p);
      assert trail + (evidence + (journalStep + changes)) == evidence + (journalStep + changes);
      Fits(trail, evidence, journalStep + changes, goal);
      alive := WriteRecovery(p, after, ensureBase, goal);
      if !alive {
        return;
      }
      assert trail == evidence;
      Fits(trail, journalStep, changes, goal);
      alive := Do(WriteJournal(prepared), goal);
      if !alive {
        return;
      }
      alive := ApplyProposal(p, files, goal);
      if alive {
        assert trail == evidence + (journalStep + changes);
        DraftIsApplied(d0, p);
      }
    }

    /** From the applied draft to the end. */
    method CommitAndCleanup(p: Proposal, next: Row, ensureBase: bool, prepared: Journal, ghost d0: Disk,
                            ghost goal: seq<Step>)
      returns (alive: bool)
      requires Acceptable(Before(d0), p) && next == NextRow(d0, p) && ensureBase == d0.baseManifest.None?
      requires prepared == JournalAt(d0, p, Prepared) && Traced() && trail + CommitSteps(d0, p) <= goal
      modifies this
      ensures Traced() && origin == old(origin) && budget == old(budget) && trail <= goal
      ensures alive ==> trail == old(trail) + CommitSteps(d0, p)
      ensures !alive ==> power == 0 && |trail| < |goal|
    {
      hide ApplyStep, Exec, ControlSteps, CleanupSteps, AfterFiles;
      var j := prepared.(phase := FilesApplied);
      ghost var a, b, c := [WriteJournal(j)], [UpdateRow(d0.row.revision, next)],
          [WriteJournal(j.(phase := SqlCommitted))];
      ghost var control, e := ControlSteps(d0, p), [WriteJournal(j.(phase := ControlCommitted))];
      ghost var cleanup := CleanupSteps(j.(phase := ControlCommitted));
      var expected := j.expectedRevision;
      Fits(trail, a, b + (c + (control + (e + cleanup))), goal);
      alive := Do(WriteJournal(j), goal);
      if !alive {
        return;
      }
      Fits(trail, b, c + (control + (e + cleanup)), goal);
      alive := Do(UpdateRow(expected, next), goal);
      if !alive {
        return;
      }
      j := j.(phase := SqlCommitted);
      Fits(trail, c, control + (e + cleanup), goal);
      alive := Do(WriteJournal(j), goal);
      if !alive {
        return;
      }
      Fits(trail, control, e + cleanup, goal);
      ControlParts(d0, p);
      alive := PublishControl(ensureBase, next, control, goal);
      if !alive {
        return;
      }
      j := j.(phase := ControlCommitted);
      Fits(trail, e, cleanup, goal);
      alive := Do(WriteJournal(j), goal);
      if alive {
        alive := Cleanup(j, goal);
      }
    }

    /**
     * One mutation of the draft. It refuses a workspace that is not at rest and a change
     * that its files do not allow; otherwise it takes the steps of the mutation, all of
     * them or, when the process dies or a step fails, the first ones.
     */
    method MutateFile(p: Proposal) returns (r: Result<Row, MutationError>)
      requires recovery == NO_RECOVERY
      modifies this
      ensures var d0 := old(State());
        if !Settled(d0) then
          r.Failure? && State() == Exec(d0, Taken(AccessSteps(d0), old(power)))
        else if !Acceptable(d0.row.draftDigest.files, p) then
          r == Failure(Refusal(d0.row.draftDigest.files, p)) && RefusedFor(d0.row.draftDigest.files, p, r.error)
          && State() == d0
        else
          State() == Exec(d0, Taken(MutationSteps(d0, p), old(power)))
          && r == if old(power) >= |MutationSteps(d0, p)| then Success(NextRow(d0, p)) else Failure(Crashed)
      ensures r != Failure(Crashed) ==> MutationLeaves(old(State()), p, State(), r.Success?)
      ensures r.Success? ==> r.value == row
      ensures r.Failure? && r.error != Crashed ==>
        if AtRest(old(State())) then RefusedFor(old(draft), p, r.error) else r.error == Conflict
    {
      hide ApplyStep, Exec, AccessSteps, MutationSteps, Settled, Acceptable, AfterFiles, Refusal, RefusedFor,
        DraftSteps, RecoverySteps, MutationLeaves, AtRest;
      Begin();
      ghost var d0 := State();
      assert d0.(recovery := NO_RECOVERY) == d0;
      var verified, ensureBase, alive := VerifyAccess(AccessSteps(d0));
      if !verified {
        OutOfPower(d0, AccessSteps(d0), trail, old(power), alive);
        if alive { AccessLeaves(d0, p); }
        return Failure(if alive then Conflict else Crashed);
      }
      AccessIsFree(d0);
      var files := row.draftDigest.files;
      if !Acceptable(files, p) {
        RefusalIsRight(files, p);
        RefusedLeaves(d0, p);
        return Failure(Refusal(files, p));
      }
      var after := Manifest(AfterFiles(files, p));
      var next := row.(revision := row.revision + 1, draftDigest := after);
      var prepared := Journal(KindOf(p), Prepared, row.revision, next.revision, row.draftDigest, after, PathsOf(p));
      ghost var goal := MutationSteps(d0, p);
      MutationParts(d0, p);
      alive := PrepareAndApply(p, after, ensureBase, prepared, d0, goal);
      if alive {
        assert draft == after.files;
        alive := CommitAndCleanup(p, next, ensureBase, prepared, d0, goal);
      }
      OutOfPower(d0, goal, trail, old(power), alive);
      MutationChanges(d0, p);
      MutatedRow(d0, p);
      return if alive then Success(next) else Failure(Crashed);
    }

    // ----- reconciliation

    /** Evidence without a journal, each file and then the directory. */
    method CleanupOrphans(ghost goal: seq<Step>) returns (alive: bool)
      requires Traced() && trail + OrphanSteps(recovery) <= goal
      modifies this
      ensures Traced() && origin == old(origin) && budget == old(budget) && trail <= goal
      ensures State() == old(State()).(recovery := recovery)
      ensures alive ==> trail == old(trail) + OrphanSteps(old(recovery))
      ensures !alive ==> power == 0 && |trail| < |goal|
    {
      hide Exec;
      var names := [BaseManifest] + BatchNames(|recovery.batch|) + [BeforeManifest, BeforeContent, AfterManifest];
      OrphansAreDrops(recovery, names);
      Fits(trail, Drops(names), [RemoveRecoveryDirectory], goal);
      alive := DropAll(names, goal);
      if alive {
        alive := Do(RemoveRecoveryDirectory, goal);
      }
    }

    /** A ready workspace without a journal: damage is marked, a control record left behind is brought up to date. */
    method VerifyReady(ghost goal: seq<Step>) returns (alive: bool)
      requires Traced() && trail + VerifySteps(State()) <= goal
      modifies this
      ensures Traced() && origin == old(origin) && budget == old(budget) && trail <= goal
      ensures alive ==> trail == old(trail) + VerifySteps(old(State()))
      ensures !alive ==> power == 0 && |trail| < |goal|
    {
      hide ApplyStep, Exec, AttentionSteps, BaseVerified;
      alive := true;
      if row.state != Ready {
        assert trail + [] == trail;
      } else if controlState.revision > row.revision {
        alive := MarkNeedsAttention(REVISION_MISMATCH, goal);
      } else if controlState.state != Ready {
        alive := MarkNeedsAttention(CONTROL_INVALID, goal);
      } else if controlManifest != row.draftDigest {
        alive := MarkNeedsAttention(MANIFEST_METADATA_MISMATCH, goal);
      } else if !BaseVerified(Disk(draft, base, row, controlManifest, controlState, baseManifest, journal, recovery)) {
        alive := MarkNeedsAttention(BASE_DIGEST_MISMATCH, goal);
      } else if draft != row.draftDigest.files {
        alive := MarkNeedsAttention(DRAFT_DIGEST_MISMATCH, goal);
      } else if controlState.revision < row.revision {
        alive := Do(WriteControlState(ControlOf(row)), goal);
      } else {
        assert trail + [] == trail;
      }
    }

    method DropIfThere(path: Path, ghost goal: seq<Step>) returns (alive: bool)
      requires Traced() && trail + DropIfPresent(draft, path) <= goal
      modifies this
      ensures Traced() && origin == old(origin) && budget == old(budget) && trail <= goal
      ensures State() == old(State()).(draft := draft) && draft == (if alive then old(draft) - {path} else old(draft))
      ensures alive ==> trail == old(trail) + DropIfPresent(old(draft), path)
      ensures !alive ==> power == 0 && |trail| < |goal|
    {
      hide Exec;
      if path !in draft {
        assert trail + [] == trail;
        return true;
      }
      alive := Do(DropDraft(path), goal);
    }

    /** Puts a removed file back; a file with other content is a conflict. */
    method Restore(path: Path, content: Content, ghost goal: seq<Step>) returns (ok: bool, alive: bool)
      requires Traced()
      requires match RestoreSteps(draft, path, content)
               case Some(steps) => trail + steps <= goal
               case None => trail <= goal
      modifies this
      ensures Traced() && origin == old(origin) && budget == old(budget) && trail <= goal
      ensures State() == old(State()).(draft := draft) && (!ok ==> alive && trail == old(trail))
      ensures ok <==> RestoreSteps(old(draft), path, content).Some?
      ensures ok && alive ==> trail == old(trail) + RestoreSteps(old(draft), path, content).value
      ensures !alive ==> power == 0 && |trail| < |goal|
    {
      hide Exec;
      if path !in draft {
        alive := Do(PutDraft(path, content), goal);
        return true, alive;
      }
      if draft[path] != content {
        return false, true;
      }
      assert trail + [] == trail;
      return true, true;
    }

    /** Takes back the draft changes of one file operation. */
    method UndoFile(j: Journal, ghost goal: seq<Step>) returns (ok: bool, alive: bool)
      requires WellFormed(j) && j.kind != ReplaceBatch && draft != j.beforeDigest.files
      requires Traced() && ContentEvidence(State(), j)
      requires match UndoSteps(State(), j)
               case Some(steps) => trail + steps <= goal
               case None => trail + FailedUndoSteps(State(), j) <= goal
      modifies this
      ensures Traced() && origin == old(origin) && budget == old(budget) && trail <= goal
      ensures State() == old(State()).(draft := draft)
      ensures alive ==> ok == UndoSteps(old(State()), j).Some?
      ensures alive ==> trail == old(trail) + if ok then UndoSteps(old(State()), j).value
                        else FailedUndoSteps(old(State()), j)
      ensures !alive ==> power == 0 && |trail| < |goal|
    {
      hide Exec;
      ok := true;
      match j.kind
      case Create => alive := DropIfThere(j.paths[0], goal);
      case Copy => alive := DropIfThere(j.paths[1], goal);
      case Replace => alive := Do(PutDraft(j.paths[0], recovery.beforeContent.value), goal);
      case Delete => ok, alive := Restore(j.paths[0], recovery.beforeContent.value, goal);
      case Rename => ok, alive := UndoRename(j, recovery.beforeContent.value, goal);
    }

    /** The new file goes before the old one comes back. */
    method UndoRename(j: Journal, content: Content, ghost goal: seq<Step>) returns (ok: bool, alive: bool)
      requires |j.paths| == 2 && j.paths[0] != j.paths[1] && Traced()
      requires match RestoreSteps(draft, j.paths[0], content)
        case Some(steps) => trail + (DropIfPresent(draft, j.paths[1]) + steps) <= goal
        case None => trail + DropIfPresent(draft, j.paths[1]) <= goal
      modifies this
      ensures Traced() && origin == old(origin) && budget == old(budget) && trail <= goal
      ensures State() == old(State()).(draft := draft)
      ensures alive ==> ok == RestoreSteps(old(draft), j.paths[0], content).Some?
      ensures alive ==> trail == old(trail) + (DropIfPresent(old(draft), j.paths[1])
                                 + if ok then RestoreSteps(old(draft), j.paths[0], content).value else [])
      ensures !alive ==> power == 0 && |trail| < |goal|
    {
      hide Exec;
      ghost var drop, restore := DropIfPresent(draft, j.paths[1]), RestoreSteps(draft, j.paths[0], content);
      Fits(trail, drop, if restore.Some? then restore.value else [], goal) by { assert drop + [] == drop; }
      alive := DropIfThere(j.paths[1], goal);
      ok := true;
      if alive {
        ok, alive := Restore(j.paths[0], content, goal);
      }
    }

    /** Writes every old file of a batch back, in its order. */
    method RestoreFiles(j: Journal, ghost goal: seq<Step>) returns (alive: bool)
      requires forall path | path in j.paths :: path in j.beforeDigest.files
      requires Traced() && trail + RestoreBatch(j) <= goal
      modifies this
      ensures Traced() && origin == old(origin) && budget == old(budget) && trail <= goal
      ensures State() == old(State()).(draft := draft)
      ensures alive ==> trail == old(trail) + RestoreBatch(j)
      ensures !alive ==> power == 0 && |trail| < |goal|
    {
      hide Exec;
      ghost var steps, start, before := RestoreBatch(j), trail, State();
      for i := 0 to |j.paths|
        invariant Traced() && origin == old(origin) && budget == old(budget) && trail == start + steps[..i]
        invariant State() == before.(draft := draft)
      {
        assert steps == steps[..i] + ([steps[i]] + steps[i + 1..]);
        Fits(start, steps[..i], [steps[i]] + steps[i + 1..], goal);
        Fits(trail, [steps[i]], steps[i + 1..], goal);
        assert steps[..i] + [steps[i]] == steps[..i + 1];
        alive := Do(PutDraft(j.paths[i], j.beforeDigest.files[j.paths[i]]), goal);
        if !alive {
          return;
        }
      }
      assert steps[..|j.paths|] == steps;
      return true;
    }

    /** Takes the draft back to the old files, if they are not there already. */
    method Undo(j: Journal, ghost goal: seq<Step>) returns (ok: bool, alive: bool)
      requires WellFormed(j) && Traced() && ContentEvidence(State(), j)
      requires match UndoSteps(State(), j)
               case Some(steps) => trail + steps <= goal
               case None => trail + FailedUndoSteps(State(), j) <= goal
      modifies this
      ensures Traced() && origin == old(origin) && budget == old(budget) && trail <= goal
      ensures State() == old(State()).(draft := draft)
      ensures alive ==> ok == UndoSteps(old(State()), j).Some?
      ensures alive ==> trail == old(trail) + if ok then UndoSteps(old(State()), j).value
                        else FailedUndoSteps(old(State()), j)
      ensures !alive ==> power == 0 && |trail| < |goal|
    {
      if j.kind == ReplaceBatch {
        alive := RestoreFiles(j, goal);
        return true, alive;
      }
      if draft == j.beforeDigest.files {
        assert trail + [] == trail;
        return true, true;
      }
      hide Exec, UndoSteps, FailedUndoSteps, ContentEvidence;
      ok, alive := UndoFile(j, goal);
    }

    method RollBack(j: Journal, ghost goal: seq<Step>) returns (alive: bool)
      requires WellFormed(j) && Traced() && trail == [] && State() == origin && ContentEvidence(State(), j)
      requires goal == RollBackSteps(State(), j)
      modifies this
      ensures Traced() && origin == old(origin) && budget == old(budget) && trail <= goal
      ensures alive ==> trail == goal
      ensures !alive ==> power == 0 && |trail| < |goal|
    {
      ghost var d := State();
      hide Exec, UndoSteps, FailedUndoSteps, ContentEvidence, AttentionSteps, CleanupSteps;
      if row.draftDigest != j.beforeDigest || j.phase == SqlCommitted || j.phase == ControlCommitted {
        assert trail + goal == goal;
        alive := MarkNeedsAttention(RECOVERY_STATE_MISMATCH, goal);
        assert trail + [] == trail;
        return;
      }
      UndoFits(d, j);
      var ok;
      ok, alive := Undo(j, goal);
      if !alive {
        return;
      }
      if !ok {
        assert trail + AttentionSteps(row, RECOVERY_INVALID) == goal;
        alive := MarkNeedsAttention(RECOVERY_INVALID, goal);
        return;
      }
      ghost var undo := UndoSteps(d, j).value;
      assert trail == undo;
      if draft != j.beforeDigest.files {
        assert trail + AttentionSteps(row, RECOVERY_STATE_MISMATCH) == goal;
        alive := MarkNeedsAttention(RECOVERY_STATE_MISMATCH, goal);
        return;
      }
      ghost var control := [WriteControlManifest(row.draftDigest), WriteControlState(ControlOf(row))];
      assert [] + control == control;
      assert goal == undo + (control + CleanupSteps(j));
      Fits(trail, control, CleanupSteps(j), goal);
      alive := PublishControl(false, row, control, goal);
      if alive {
        alive := Cleanup(j, goal);
      }
    }

    method RollForward(j: Journal, trusted: (Manifest, bool), ghost goal: seq<Step>) returns (alive: bool)
      requires Traced() && trail == [] && State() == origin && trusted.0 == row.baseDigest
      requires goal == RollForwardSteps(State(), j, trusted)
      modifies this
      ensures Traced() && origin == old(origin) && budget == old(budget) && trail <= goal
      ensures alive ==> trail == goal
      ensures !alive ==> power == 0 && |trail| < |goal|
    {
      hide Exec, AttentionSteps, CleanupSteps, ApplyStep;
      if row.draftDigest != j.afterDigest || draft != j.afterDigest.files || j.phase == Prepared {
        assert trail + goal == goal;
        alive := MarkNeedsAttention(RECOVERY_STATE_MISMATCH, goal);
        return;
      }
      ghost var publish := (if trusted.1 then [WriteBaseManifest(row.baseDigest)] else [])
                           + [WriteControlManifest(row.draftDigest), WriteControlState(ControlOf(row))];
      assert goal == publish + CleanupSteps(j);
      assert trail + (publish + CleanupSteps(j)) == goal;
      Fits(trail, publish, CleanupSteps(j), goal);
      alive := PublishControl(trusted.1, row, publish, goal);
      if alive {
        alive := Cleanup(j, goal);
      }
    }

    /** What the journal and its evidence allow: back, forward, or nothing but a mark. */
    method ReconcileJournal(j: Journal, ghost goal: seq<Step>) returns (alive: bool)
      requires Traced() && trail == [] && State() == origin && goal == JournalSteps(State(), j)
      modifies this
      ensures Traced() && origin == old(origin) && budget == old(budget) && trail <= goal
      ensures alive ==> trail == goal
      ensures !alive ==> power == 0 && |trail| < |goal|
    {
      hide Exec, AttentionSteps, RollBackSteps, RollForwardSteps, ContentEvidence, DraftRecognised, WellFormed;
      var d := Disk(draft, base, row, controlManifest, controlState, baseManifest, journal, recovery);
      assert trail + goal == goal;
      if !WellFormed(j) {
        alive := MarkNeedsAttention(JOURNAL_INVALID, goal);
      } else if recovery.beforeManifest != Some(j.beforeDigest) || recovery.afterManifest != Some(j.afterDigest) {
        alive := MarkNeedsAttention(RECOVERY_INVALID, goal);
      } else if !ContentEvidence(d, j) {
        alive := MarkNeedsAttention(RECOVERY_INVALID, goal);
      } else {
        var trusted := RecoveryBase(d, j);
        if trusted.None? {
          alive := MarkNeedsAttention(RECOVERY_INVALID, goal);
        } else if !DraftRecognised(d, j) {
          alive := MarkNeedsAttention(RECOVERY_STATE_MISMATCH, goal);
        } else if row.revision == j.expectedRevision {
          alive := RollBack(j, goal);
        } else if row.revision == j.nextRevision {
          alive := RollForward(j, trusted.value, goal);
        } else {
          alive := MarkNeedsAttention(RECOVERY_STATE_MISMATCH, goal);
        }
      }
    }

    /** Repairs the workspace after a restart, or marks it; the process may die again at any step. */
    method Reconcile() returns (alive: bool)
      modifies this
      ensures State() == Exec(old(State()), Taken(ReconcileSteps(old(State())), old(power)))
      ensures alive == (old(power) >= |ReconcileSteps(old(State()))|)
      ensures alive ==> Outcome(old(State()), State())
    {
      hide Exec, JournalSteps, OrphanSteps, VerifySteps, Outcome;
      Begin();
      ReconciledIsOutcome(State());
      ghost var d := State();
      ghost var goal := ReconcileSteps(d);
      if journal.Some? {
        alive := ReconcileJournal(journal.value, goal);
      } else {
        assert trail + goal == goal;
        Fits(trail, OrphanSteps(recovery), VerifySteps(d), goal);
        alive := CleanupOrphans(goal);
        if alive {
          VerifyIgnoresRecovery(d, recovery);
          alive := VerifyReady(goal);
        }
      }
      OutOfPower(d, goal, trail, old(power), alive);
    }
  }

  /** However the disk is repaired, the first steps are those of the undo. */
  lemma UndoFits(d: Disk, j: Journal)
    requires WellFormed(j) && ContentEvidence(d, j)
    requires d.row.draftDigest == j.beforeDigest && j.phase != SqlCommitted && j.phase != ControlCommitted
    ensures match UndoSteps(d, j) case Some(steps) => [] + steps <= RollBackSteps(d, j)
                                  case None => [] + FailedUndoSteps(d, j) <= RollBackSteps(d, j)
  {
    hide UndoSteps, FailedUndoSteps, Exec, AttentionSteps, CleanupSteps, ContentEvidence;
    if UndoSteps(d, j).Some? {
      var steps := UndoSteps(d, j).value;
      assert [] + steps == steps;
    } else {
      assert [] + FailedUndoSteps(d, j) == FailedUndoSteps(d, j);
    }
  }

  lemma VerifyIgnoresRecovery(d: Disk, recovery: Recovery)
    ensures VerifySteps(d.(recovery := recovery)) == VerifySteps(d)
  {
  }

  /** The steps from the applied draft on. */
  function CommitSteps(d0: Disk, p: Proposal): seq<Step>
    requires Acceptable(Before(d0), p)
  {
    [WriteJournal(JournalAt(d0, p, FilesApplied))]
    + ([UpdateRow(d0.row.revision, NextRow(d0, p))]
    + ([WriteJournal(JournalAt(d0, p, SqlCommitted))]
    + (ControlSteps(d0, p)
    + ([WriteJournal(JournalAt(d0, p, ControlCommitted))]
    + CleanupSteps(JournalAt(d0, p, ControlCommitted))))))
  }

  lemma MutationParts(d0: Disk, p: Proposal)
    requires Acceptable(Before(d0), p)
    ensures var first :=
        RecoverySteps(d0, p) + ([WriteJournal(JournalAt(d0, p, Prepared))] + DraftSteps(Before(d0), p));
      first <= MutationSteps(d0, p) && MutationSteps(d0, p) == first + CommitSteps(d0, p)
  {
    hide RecoverySteps, DraftSteps, ControlSteps, CleanupSteps, JournalAt, NextRow, Acceptable;
    Regroup(RecoverySteps(d0, p), [WriteJournal(JournalAt(d0, p, Prepared))], DraftSteps(Before(d0), p),
            WriteJournal(JournalAt(d0, p, FilesApplied)), UpdateRow(d0.row.revision, NextRow(d0, p)),
            WriteJournal(JournalAt(d0, p, SqlCommitted)), ControlSteps(d0, p),
            [WriteJournal(JournalAt(d0, p, ControlCommitted))], CleanupSteps(JournalAt(d0, p, ControlCommitted)));
  }

  lemma Regroup(a: seq<Step>, b: seq<Step>, c: seq<Step>, x: Step, y: Step, z: Step, e: seq<Step>, f: seq<Step>,
                g: seq<Step>)
    ensures a + b + c + [x, y, z] + e + f + g == a + (b + c) + ([x] + ([y] + ([z] + (e + (f + g)))))
  {
  }

  lemma ControlParts(d0: Disk, p: Proposal)
    requires Acceptable(Before(d0), p)
    ensures var next := NextRow(d0, p);
      ControlSteps(d0, p) == (if d0.baseManifest.None? then [WriteBaseManifest(next.baseDigest)] else [])
                             + [WriteControlManifest(next.draftDigest), WriteControlState(ControlOf(next))]
  {
  }

  lemma AccessIsFree(d: Disk)
    requires Settled(d)
    ensures AccessSteps(d) == []
  {
  }

  /** After its draft steps the draft is the intended one. */
  lemma {:induction false} DraftIsApplied(d0: Disk, p: Proposal)
    requires Started(d0, p)
    ensures Exec(d0, RecoverySteps(d0, p)
        + ([WriteJournal(JournalAt(d0, p, Prepared))] + DraftSteps(Before(d0), p))).draft == After(d0, p).files
  {
    var recovery, prepared, changes := RecoverySteps(d0, p), WriteJournal(JournalAt(d0, p, Prepared)),
      DraftSteps(Before(d0), p);
    EvidenceIsSaved(d0, p);
    InFlightJournals(d0, p);
    var d2 := ApplyStep(d0.(recovery := Evidence(d0, p)), prepared);
    ProposalIsApplied(d0, p, true, d2);
    hide RecoverySteps, DraftSteps, Settled, AfterFiles, InFlight, Evidence, ApplyStep;
    ExecConcat(d0, recovery, [prepared] + changes);
    ExecConcat(d0.(recovery := Evidence(d0, p)), [prepared], changes);
    ExecOne(d0.(recovery := Evidence(d0, p)), prepared);
  }

  function BatchNames(n: nat): (names: seq<EvidenceName>)
    ensures |names| == n
  {
    seq(n, i requires 0 <= i < n => BatchContent(i))
  }

  function Drops(names: seq<EvidenceName>): (steps: seq<Step>)
    ensures |steps| == |names| && forall i | 0 <= i < |names| :: steps[i] == DropRecovery(names[i])
  {
    seq(|names|, i requires 0 <= i < |names| => DropRecovery(names[i]))
  }

  lemma CleanupIsDrops(j: Journal, names: seq<EvidenceName>)
    requires names == [BeforeContent, AfterManifest, BeforeManifest, BaseManifest]
                      + if j.kind == ReplaceBatch then BatchNames(|j.paths|) else []
    ensures CleanupSteps(j) == Drops(names) + ([RemoveRecoveryDirectory] + [RemoveJournal])
  {
    var first := [BeforeContent, AfterManifest, BeforeManifest, BaseManifest];
    var drops := [DropRecovery(BeforeContent), DropRecovery(AfterManifest), DropRecovery(BeforeManifest),
                  DropRecovery(BaseManifest)];
    assert Drops(first) == drops;
    if j.kind == ReplaceBatch {
      assert Drops(names) == drops + DropBatch(|j.paths|);
    } else {
      assert names == first;
      assert drops + [] == drops;
    }
  }

  lemma RecoveryParts(d: Disk, p: Proposal)
    requires Acceptable(d.row.draftDigest.files, p)
    ensures var files := d.row.draftDigest.files;
      RecoverySteps(d, p) == ContentSteps(files, p)
        + ([SaveAfterManifest(Manifest(AfterFiles(files, p))), SaveBeforeManifest(d.row.draftDigest)]
           + if d.baseManifest.None? then [SaveBaseManifest(d.row.baseDigest)] else [])
  {
    hide ContentSteps, AfterFiles;
  }

  lemma OrphansAreDrops(r: Recovery, names: seq<EvidenceName>)
    requires names == [BaseManifest] + BatchNames(|r.batch|) + [BeforeManifest, BeforeContent, AfterManifest]
    ensures OrphanSteps(r) == Drops(names) + [RemoveRecoveryDirectory]
  {
    assert Drops(names) == [DropRecovery(BaseManifest)] + DropBatch(|r.batch|)
                           + [DropRecovery(BeforeManifest), DropRecovery(BeforeContent), DropRecovery(AfterManifest)];
  }

  lemma TakenIsCut(d: Disk, steps: seq<Step>, k: nat)
    ensures Exec(d, Taken(steps, k)) == Cut(d, steps, k)
  {
    hide Exec;
    assert steps[..|steps|] == steps;
  }

  lemma {:induction false} CrashesSnoc(d: Disk, cuts: seq<nat>, k: nat)
    ensures Crashes(d, cuts + [k]) == Cut(Crashes(d, cuts), ReconcileSteps(Crashes(d, cuts)), k)
    decreases |cuts|
  {
    hide Cut, ReconcileSteps;
    if cuts == [] {
      assert [k][1..] == [];
    } else {
      assert (cuts + [k])[1..] == cuts[1..] + [k] && (cuts + [k])[0] == cuts[0];
      CrashesSnoc(Cut(d, ReconcileSteps(d), cuts[0]), cuts[1..], k);
    }
  }

  /**
   * A mutation with power for its first steps only, any number of restarts that die in
   * reconciliation, and a last one: when that one runs to its end the workspace is as
   * before the mutation, or as after it, or marked for attention because a rename or an
   * evidence cleanup was cut.
   */
  method MutateWithCrashes(w: Workspace, p: Proposal, first: nat, cuts: seq<nat>, last: nat) returns (repaired: bool)
    requires Settled(w.State()) && Acceptable(w.State().row.draftDigest.files, p)
    modifies w
    ensures var d0 := old(w.State());
      repaired ==> w.State() == d0 || w.State() == Exec(d0, MutationSteps(d0, p))
                   || w.State().row.state == NeedsAttention
    ensures var d0 := old(w.State());
      repaired && w.State().row.state != NeedsAttention ==>
        w.State() == if first < DatabaseSteps(d0, p) then d0 else Exec(d0, MutationSteps(d0, p))
  {
    hide Exec, MutationSteps, ReconcileSteps, Interrupted, NextRow, AccessSteps, Refusal;
    ghost var d0 := w.State();
    ghost var steps := MutationSteps(d0, p);
    w.power := first;
    var _ := w.MutateFile(p);
    TakenIsCut(d0, steps, first);
    ghost var start := w.State();
    for i := 0 to |cuts|
      invariant w.State() == Crashes(start, cuts[..i])
    {
      w.power := cuts[i];
      CrashesSnoc(start, cuts[..i], cuts[i]);
      assert cuts[..i] + [cuts[i]] == cuts[..i + 1];
      TakenIsCut(w.State(), ReconcileSteps(w.State()), cuts[i]);
      var _ := w.Reconcile();
    }
    assert cuts[..|cuts|] == cuts;
    ghost var d := w.State();
    w.power := last;
    repaired := w.Reconcile();
    ghost var k := if first < |steps| then first else |steps|;
    assert start == Exec(d0, steps[..k]) by { assert steps[..|steps|] == steps; }
    DatabaseIsInside(d0, p);
    MutationIsAtomic(d0, p, k, cuts);
  }

  lemma DatabaseIsInside(d0: Disk, p: Proposal)
    requires Started(d0, p)
    ensures DatabaseSteps(d0, p) <= |MutationSteps(d0, p)|
  {
    StepsAroundDatabase(d0, p);
  }
}
