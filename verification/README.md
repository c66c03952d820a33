# Verified models of the NGINX UIX core

Dafny models of the configuration engine (`internal/config`) and of three
protocols around it (`internal/certificate`, `internal/app`), with proofs that
hold for every input, every reply of a collaborator, every interleaving and
every place at which the process can die. `dafny verify dfyconfig.toml` checks
all of it.

- **Line differ** (`EditScripts`, `Myers`, `Hunks`, `PatchText`, `LineDiff`). The
  O(ND) search over a map of furthest diagonals, its backtracking, the work
  budget, hunks and the unified format. An independent recursive distance stands
  beside the search; a complete run costs exactly that distance. A parser for the
  rendered text stands beside the renderer; whatever the budget, parsing a patch
  and applying it to the old lines gives the new ones.
- **Mutation journal** (`WorkspaceDisk`, `FileMutation`, `CrashRecovery`,
  `RepairOutcome`, `MutationOutcome`, `WorkspaceStore`). A mutation and a
  reconciliation are lists of durable steps; a crash keeps a prefix. `WorkspaceStore`
  has the code's own shape, a class whose methods write the fields step by step,
  proved to take exactly those steps. The theorems are about any cut of the mutation
  followed by any number of reconciliations that are cut themselves. What a whole
  mutation and a whole reconciliation leave is told once more by the parts of the
  disk, without the steps (`RepairOutcome`, `MutationOutcome`).
- **Workspace deletion** (`LostJournal`, `WorkspaceDelete`, `ServiceReconcile`). The same
  for the tombstone protocol, from any workspace that may be deleted, also one whose
  last mutation was interrupted; and the three loops that reconcile all workspaces.
- **Include scanner** (`ScannerForms`, `ScannerSteps`, `ScannedForms`,
  `IncludeScanner`). The byte-level scanner as a step function and its loop. Beside it
  stand written forms: words of bare, quoted and escaped pieces, blanks, comments, ends.
  Every text is the text of a form, and scanning it gives the meaning of that form.
- **Include graph** (`IncludeGraph`, `IncludeSearch`, `IncludeMeaning`,
  `IncludeExpansion`). The bounded depth-first search as a class. The result is
  compared with reachability in the graph that the file contents define.
- **Canonical manifest** (`ManifestBytes`, `Sorting`, `Manifests`, `ManifestCodec`).
  The length-prefixed codec on bytes, with Go's 64-bit arithmetic in the size
  bound and in the sum of managed bytes.
- **Log mirroring** (`TaskLog`, `ReleaseMirror`, `RestoreMirror`). The database row
  and log as a class with compare-and-set transitions that may fail at any call;
  the Agent may answer anything.
- **Retention** (`RetentionPlan`, `RetentionRun`). The greedy plan against the
  shortest prefix, and the executor over any pattern of failures and restarts.
- **Task owner** (`CertificateTasks`). Goroutines as an interleaving state machine.
- **Challenge ownership** (`ChallengeOwnership`). An order whose every call may
  work, fail, or take effect and report an error.
- **Server references** (`SourceEdits`, `ServerBinding`, `ServerRefs`). What a
  binding plan predicts against what is derived again from the edited source.
- **Literal search** (`Search`). Byte offsets, runes, lines and snippets.

## What the proofs found

- A mutation is lost to `needs_attention` exactly when the process dies between the
  two filesystem steps of a rename, or inside its evidence cleanup after the first
  evidence file is gone (`CrashRecovery.UnrecoverableCrashPoints`). The same holds of
  a reconciliation, between the two steps that undo a rename and inside its cleanup
  (`CrashRecovery.ReconcileCutPoints`); every other schedule of crashes recovers
  (`CrashRecovery.MutationRecovers`).
- A workspace deletion cannot be resolved exactly when its removal is cut after
  the journal went and before the directory does
  (`WorkspaceDelete.AmbiguousCutPoints`, `WorkspaceDelete.DeletionCompletes`). Such a
  tombstone is marked exactly as long as it has its `control` directory. Cut after
  that went too, the tombstone cannot be locked any more: then no start of the service
  ever completes its reconciliation, and no workspace that is not itself a tombstone
  is looked at again (`ServiceReconcile.DeletionGetsStuck`,
  `ServiceReconcile.StuckForEver`).
- A deletion that fails gives a workspace back without the journal it had before
  (`WorkspaceDelete.GivenBackExactly`). If that was the journal of an interrupted
  mutation, the mutation can no longer be undone or finished, unless the files
  already agree with its outcome (`WorkspaceDelete.DeletionStrandsMutation`).
- Polling a release never stores a terminal stage, but it can store the terminal
  state `cancelled`: exactly when the reply says so and its last stage is one that
  polling copies (`ReleaseMirror.PolledStage`). Nothing is stored after that.
- The Agent's details are checked to be JSON, but not to fit their database column. An
  accepted answer with longer details (`ReleaseMirror.LongDetailsAreAccepted`) is
  mirrored up to that stage and the release does not end, exactly then
  (`ReleaseMirror.Reconcile`).
- The checks on a restore log allow a stage that ends the restore to stand in the
  middle. The row then keeps that stage: a result that the Agent calls rolled back
  can leave `succeeded` (`RestoreMirror.AcceptedMiddleEnd`). With a database that
  works the row agrees with the whole accepted log, below the stage limit, if and
  only if only its last stage ends the restore (`RestoreMirror.Finish`). A preparation that ends the
  restore is accepted without a safety backup, so success alone does not imply one.
- A TXT record whose creation was reported as an error, or whose process died
  before it stored an artifact, is never cleaned; these are the only records that
  a settled task can leave (`ChallengeOwnership.RunAndReconcile`). An HTTP
  challenge has no such gap.
- The fingerprint of a server does not tell where its names end and its listeners
  begin: two servers of one file share an identity exactly when names followed by
  listeners are the same (`ServerBinding.FingerprintIsExact`).
- The listener plan compares `ssl` by case folding, the prediction in lower case.
  ASCII arguments make no difference (`ServerBinding.AsciiFoldsInLowerCase`). Where
  folding alone finds `ssl`, the predicted listeners are wrong unless the listeners
  that the prediction changes are among the others anyway
  (`ServerBinding.PredictionIsExact`); a long s is enough to break it
  (`ServerBinding.LongSFolds`), and a listener written as one quoted argument can
  hide it (`ServerBinding.QuotedListenerHidesIt`).
- Three checks are never reached from the callers that are modelled: the stage
  limit and the final comparison when a release is mirrored, and the final
  comparisons of a restore. They are in the bodies as assertions.

## Model

| member | source | states |
|---|---|---|
| EditScripts.DistIsShortest | internal/config/diff.go:369-489 | A script whose cost is the recursive distance is a shortest edit script. |
| EditScripts.DistIsLcs | internal/config/diff.go:369-489 | The distance is both lengths minus twice the longest common subsequence. |
| EditScripts.ScriptAtLeastDist | internal/config/diff.go:369-489 | No script between two texts costs less than the distance. |
| EditScripts.ShortestKeepsMost | internal/config/diff.go:369-489 | A shortest script keeps at least as many lines as any other script. |
| EditScripts.DistCommonEdges | internal/config/diff.go:155-173 | Trimming a common prefix and suffix does not change the distance. |
| EditScripts.EdgesAroundScript | internal/config/diff.go:161-173 | A script for the trimmed middle between kept edges is a script for the whole texts. |
| Myers.EndIsFurther | internal/config/diff.go:408-435 | While no searched diagonal stops at the end, the distance of the texts is larger: the overshooting search misses nothing. |
| Myers.StopsAtTheEnd | internal/config/diff.go:430-434 | The first stop at or beyond both ends is exactly at both ends. |
| Myers.NeighboursBeyond | internal/config/diff.go:414-420 | From the furthest points of the two neighbours the search starts at or after everything the smaller distance reaches. |
| Myers.SlideEndsFurthest | internal/config/diff.go:420-430 | After following equal lines a diagonal holds its furthest point for this distance. |
| Myers.SearchScript | internal/config/diff.go:393-438 | The search with its snapshots and budget returns a script of exactly the distance, or gives up, and that only below a stated amount of work. |
| Myers.Backtrack | internal/config/diff.go:440-489 | Walking the snapshots back stays inside the grid and yields a script of exactly the distance. |
| Myers.ReplacementOperations | internal/config/diff.go:491-500 | All old lines removed, then all new ones added, each in order. |
| Myers.MyersDiff | internal/config/diff.go:369-489 | Complete means a script of exactly the distance; incomplete means the budget was below a stated bound. |
| Hunks.DiffHunks | internal/config/diff.go:546-571 | The extents are ordered and disjoint, cover exactly the operations within three of a change, and everything outside is equal. |
| Hunks.HunkCoordinates | internal/config/diff.go:573-601 | Start and count of both sides locate the lines of the extent, also for empty ranges. |
| Hunks.HunksReproduceAfter | internal/config/diff.go:546-601 | Applying the hunks of any script to its old lines gives its new lines. |
| PatchText.ParseRenderedOperation | internal/config/diff.go:525-541 | One rendered line is read back with its kind; the missing final newline marker is unambiguous. |
| PatchText.ParseFormattedRange | internal/config/diff.go:603-608 | A formatted range is read back, with the count left out when it is one. |
| PatchText.ParseRenderedHunks | internal/config/diff.go:509-544 | Parsing rendered hunks gives the same hunks. |
| LineDiff.SplitDiffLines | internal/config/diff.go:328-344 | The lines join to the content, and each but the last ends with its only newline. |
| LineDiff.SplitIsUnique | internal/config/diff.go:328-344 | There is one such split. |
| LineDiff.CommonDiffEdges | internal/config/diff.go:346-367 | The edges are common, do not overlap and cannot be extended. |
| LineDiff.RenderUnifiedPatch | internal/config/diff.go:509-544 | The rendered text is the header followed by the rendered hunks of the script, and parses to them. |
| LineDiff.PatchReproducesAfter | internal/config/diff.go:509-544 | The rendered patch of any script parses and applies to give the new lines. |
| LineDiff.DiffLines | internal/config/diff.go:155-173 | Always a script between the lines, and a shortest one whenever the search completes; otherwise the budget was below a stated bound on the trimmed middle, which is then replaced whole between the kept edges. |
| LineDiff.UnifiedDiff | internal/config/diff.go:139-183 | The patch begins with the two header lines of its status, parses and turns the old lines into the new ones; the counts are those of its script, and minimal for the whole files whenever the search completes, otherwise those of the replaced middle. |
| CrashRecovery.EvidenceIsSaved | internal/config/files.go:924-965 | The recovery steps leave exactly the evidence that reconciliation reads. |
| CrashRecovery.ProposalIsApplied | internal/config/files.go:720-756 | Every cut of the draft steps leaves a draft that the journal recognises, the last one the new tree. |
| CrashRecovery.PlausibleIsRecognised | internal/config/replace_files.go:549-586 | A draft with any mix of old and new files of a batch is recognised. |
| CrashRecovery.BatchIsRestored | internal/config/replace_files.go:588-611 | Restoring a batch from any mix of old and new files, cut anywhere, ends at the old tree. |
| CrashRecovery.DraftIsUndone | internal/config/files.go:1243-1274 | Undoing any recognised draft gives the tree from before the mutation. |
| CrashRecovery.UpToDatabase | internal/config/files.go:254-306 | Until the database update every cut is an idle or a recognised unfinished mutation. |
| CrashRecovery.PastDatabase | internal/config/files.go:306-354 | After the database update the remaining steps lead to the finished disk. |
| CrashRecovery.RolledBack | internal/config/files.go:1113-1184 | An unfinished mutation at the old revision is rolled back to exactly the old disk. |
| CrashRecovery.ReconcileCommitted | internal/config/files.go:1113-1184 | A mutation at the next revision is carried forward to exactly the finished disk. |
| CrashRecovery.MutationFinishes | internal/config/files.go:163-364 | Uncut, a mutation ends at the finished disk. |
| CrashRecovery.FinishedIsSettled | internal/config/files.go:306-354 | The finished disk is at rest: draft, control manifest, digest and revision agree and no journal is left. |
| CrashRecovery.MutationIsAtomic | internal/config/files.go:163-364 | For every cut and every schedule of cut reconciliations the last one leaves the old disk, the finished disk if the update was durable, or needs_attention for an interrupted one. |
| CrashRecovery.MutationRecovers | internal/config/files.go:1113-1304 | Over every schedule of crashes the result is the old or the finished disk if and only if neither the mutation nor a reconciliation was cut at one of the points told below; otherwise the workspace is marked. |
| CrashRecovery.UnrecoverableCrashPoints | internal/config/files.go:163-364 | The cuts of a mutation that end in needs_attention are exactly the one between the two filesystem steps of a rename and those inside the cleanup after the first evidence file is gone. |
| CrashRecovery.ReconcileCutPoints | internal/config/files.go:1113-1304 | The cuts of one reconciliation that cannot be recovered from are exactly the one between the two steps that undo a rename and those inside the cleanup after the first evidence file is gone. |
| CrashRecovery.InsideCleanup | internal/config/files.go:967-988 | Inside the cleanup a cut is unrecoverable exactly from the first removed evidence on. |
| CrashRecovery.RenameTears | internal/config/files.go:744-750 | A rename of any file cut between its two filesystem steps is unrecoverable. |
| CrashRecovery.InterruptedIsFinal | internal/config/reconcile.go:296-323 | An interrupted workspace ends in needs_attention whatever reconciliations follow. |
| RepairOutcome.ReadyStaysExactly | internal/config/reconcile.go:119-224 | Whatever a workspace without a journal is: it stays ready if and only if draft and base are those of the two digests, the control manifest is the draft digest and control record and base manifest fit; otherwise it carries the reason of the first part that does not. |
| RepairOutcome.JournalIsResolvedExactly | internal/config/files.go:1113-1304 | Whatever a workspace with a journal is: it is rolled back, carried forward or marked, each exactly when journal, evidence, draft and row say so, with the resulting files path by path. |
| MutationOutcome.MutationChanges | internal/config/files.go:163-364 | After a mutation that is not cut exactly the named paths have changed, as asked, and all records agree with them. |
| LostJournal.RestIsLeft | internal/config/reconcile.go:119-224 | Without a journal a reconciliation, cut anywhere, changes evidence and lifecycle records only; whole, it renews an older control record, or marks the workspace exactly when it does not verify. |
| LostJournal.QuietIsExact | internal/config/reconcile.go:119-224 | Reconciliation gives back the disk it started from exactly when there was nothing to do. |
| LostJournal.JournalLost | internal/config/reconcile.go:119-224 | An interrupted mutation that loses its journal is recovered exactly when the disk already agrees with the outcome. |
| WorkspaceStore.Workspace.WriteRecovery | internal/config/files.go:924-965 | Writes the evidence in the order of the recovery steps, as far as the process lives. |
| WorkspaceStore.Workspace.ApplyProposal | internal/config/files.go:720-756 | Changes the draft by exactly the draft steps. |
| WorkspaceStore.Workspace.ApplyReplacements | internal/config/replace_files.go:365-383 | Replaces the files of a batch in order. |
| WorkspaceStore.Workspace.Cleanup | internal/config/files.go:1299-1304 | Removes evidence before the journal, in the order of the cleanup steps. |
| WorkspaceStore.Workspace.MutateFile | internal/config/files.go:163-364 | Refuses exactly a workspace not at rest or a change its files do not allow, with the first reason that holds; otherwise takes the steps of the mutation, or their prefix when it dies. Told by parts: on success exactly the named paths changed, as asked, and row, manifest and control record agree with them at the next revision. |
| WorkspaceStore.Workspace.MarkNeedsAttention | internal/config/reconcile.go:296-323 | Marks row and control state by the attention steps. |
| WorkspaceStore.Workspace.VerifyAccess | internal/config/files.go:430-502 | Finds the workspace at rest exactly when its parts agree, whatever evidence is left, and marks damaged trees. |
| WorkspaceStore.Workspace.RollBack | internal/config/files.go:1113-1184 | Takes the rollback steps for the state it finds. |
| WorkspaceStore.Workspace.RollForward | internal/config/files.go:1113-1184 | Takes the steps that complete a durable update. |
| WorkspaceStore.Workspace.ReconcileJournal | internal/config/files.go:1113-1184 | Takes the journal steps for the state it finds. |
| WorkspaceStore.Workspace.CleanupOrphans | internal/config/files.go:1306-1355 | Removes evidence that no journal refers to. |
| WorkspaceStore.Workspace.Reconcile | internal/config/reconcile.go:119-224 | Takes exactly the reconciliation steps for the state it finds, or their prefix when it dies. Told by parts: a ready workspace without a journal stays ready if and only if its trees, digests and records fit, else it carries the reason of the first that does not; one with a journal goes back, forward, or is marked, each exactly when its parts say so. |
| WorkspaceStore.MutateWithCrashes | internal/config/files.go:163-364 | The methods run one after the other with deaths anywhere: a completed reconciliation leaves the old or the finished workspace or needs_attention. |
| WorkspaceDelete.DeletionIsAtomic | internal/config/service.go:371-479 | For every workspace that may be deleted, every cut and schedule: a refused or not durable deletion gives the workspace back without a journal, and marked later only if it does not verify; a durable one ends with nothing left, unless the removal lost its journal: then the tombstone stays, marked if it can be locked and unchanged if it cannot. |
| WorkspaceDelete.GivenBackExactly | internal/config/journal.go:122-138 | A deletion that is not durable gives the workspace back exactly if and only if it had no journal before, and has nothing for a later reconciliation to do. |
| WorkspaceDelete.DeletionStrandsMutation | internal/config/service.go:418-455 | After a failed deletion an interrupted mutation is recovered exactly when the files already agree with its outcome; with its journal it would have been. |
| WorkspaceDelete.AmbiguousCutPoints | internal/config/root.go:331-376 | The cuts of a deletion that cannot be resolved are exactly those between removing the journal and removing the directory, and the lock cannot be taken exactly from the removal of the control directory on. |
| WorkspaceDelete.DeletionCompletes | internal/config/reconcile.go:399-516 | A durable deletion ends with the directory gone if and only if no removal, of the deletion or of a reconciliation, was cut after its journal went; with a tombstone that can never be locked if and only if one was cut after its control directory went; and else with a marked one. |
| WorkspaceDelete.UndoneStays | internal/config/reconcile.go:119-224 | Once a deletion is undone, every cut and every whole reconciliation is that of a workspace without a journal. |
| WorkspaceDelete.BegunIsUndone | internal/config/reconcile.go:452-494 | Cut anywhere, undoing a deletion stays within the run; whole, it leaves the workspace as it was without a journal. |
| WorkspaceDelete.AmbiguousStays | internal/config/reconcile.go:399-432 | An unresolvable tombstone stays where it is; it is marked if it can be locked, and otherwise nothing about it changes. |
| WorkspaceDelete.RemovalCut | internal/config/root.go:331-376 | A removal that is cut has lost its journal, its control directory and its directory exactly from their steps on. |
| ServiceReconcile.ReconcileAll | internal/config/reconcile.go:45-117 | The three loops reconcile tombstones, then registered workspaces, then the others; they complete exactly if every lock can be taken, and stop at the first that cannot with everything behind it as it was. |
| ServiceReconcile.StuckForEver | internal/config/reconcile.go:68-80 | While there is a tombstone that cannot be locked no start completes, over any history of starts and crashes, and every workspace that is not itself a tombstone stays as it is. |
| ServiceReconcile.DeletionGetsStuck | internal/config/service.go:864-881 | A deletion leaves such a tombstone exactly when it is cut between removing the control directory and removing the workspace directory. |
| IncludeScanner.ScanDirectives | internal/config/include.go:64-243 | The scanning loop computes the fold of the step function over all bytes, with its errors; and that is the meaning of the text: of every way to read it as written words, blanks, comments and ends, of which there is one. |
| IncludeScanner.ScanConcat | internal/config/include.go:64-243 | Scanning a concatenation at a directive boundary is scanning both parts, positions shifted, same errors. |
| IncludeScanner.ScanPrinted | internal/config/include.go:64-243 | Scanning undoes a printer that quotes and escapes every word, for every list of directives within the limits. |
| ScannedForms.FormIsScanned | internal/config/include.go:64-243 | For every written form within the limits scanning its text gives its words, with the line and column of the first byte of each first word counted from the text: words of bare, single-quoted, double-quoted and escaped pieces, blanks of every kind, comments up to the newline, `;` or `{` as the end, stray braces; beyond the limits or unfinished it is an error. |
| ScannedForms.EveryTextHasForm | internal/config/include.go:64-243 | Every text is the text of such a form. |
| ScannedForms.FormsSaySame | internal/config/include.go:64-243 | Two forms of one text mean the same. |
| IncludeSearch.CycleKeyIsInjective | internal/config/include.go:450-464 | Two cycles of valid paths have the same key only if they are the same. |
| IncludeSearch.EdgeKept | internal/config/include.go:284-307 | Recording an edge keeps the search invariant. |
| IncludeSearch.CycleKept | internal/config/include.go:408-427 | Recording a cycle along the active stack keeps the search invariant. |
| IncludeSearch.PushKept | internal/config/include.go:312-332 | Entering a file keeps the search invariant; it is read once. |
| IncludeSearch.PopKept | internal/config/include.go:325-328 | Leaving a file keeps the search invariant. |
| IncludeSearch.TooDeepWalk | internal/config/include.go:312-321 | Exceeding the depth limit shows a walk of includes of that length. |
| IncludeSearch.TooMany | internal/config/include.go:284-298 | Exceeding the edge limit shows that many different edges of reachable files. |
| IncludeSearch.NewStandsHere | internal/config/include.go:284-307 | An edge that is recorded belongs to the directive at work: no earlier directive of its file has asked for it. |
| IncludeMeaning.SensitiveNames | internal/config/include.go:532-539 | The names whose targets are secret are exactly the two full names and those with one of the four endings. |
| IncludeMeaning.CallsAreAsked | internal/config/include.go:340-440 | What a directive asks for is told by its name and arguments: only an include asks; without its one argument, or one that cannot be resolved, for an edge without a target, else for each path it stands for with the status of what is there, or for a missing one. |
| IncludeMeaning.SecretsAreMarked | internal/config/include.go:345-360 | A directive takes secrets from exactly the paths its one argument stands for, if its name says so. |
| IncludeExpansion.VisitedIsReachable | internal/config/include.go:312-443 | A finished search visited exactly the reachable files. |
| IncludeExpansion.KeyIsExact | internal/config/include.go:340-440 | The recorded edges are exactly those the directives of reachable files ask for. |
| IncludeExpansion.TargetIsExact | internal/config/include.go:397-440 | The included set is exactly the regular targets included from reachable files. |
| IncludeExpansion.SearchIsAcyclic | internal/config/include.go:397-440 | The resolved edges form no circle. |
| IncludeExpansion.CyclesAreExact | internal/config/include.go:408-427 | Recorded cycles are closed walks along recorded edges, and there is one if and only if a reachable include circle exists. |
| IncludeExpansion.EndedIsExpansion | internal/config/include.go:246-448 | A finished search is the exact expansion. |
| IncludeExpansion.ExpansionIsAsTold | internal/config/include.go:246-448 | The exact expansion in terms of the directives of reachable files: edges as asked for, included files as linked, sensitive paths as marked. |
| IncludeExpansion.GraphSearch.FollowTarget | internal/config/include.go:397-440 | Follows one target: new, visited, or on the stack. |
| IncludeExpansion.GraphSearch.Visit | internal/config/include.go:312-443 | Visits a file and everything below it; terminates by unvisited files. |
| IncludeExpansion.ExpandIncludeGraph | internal/config/include.go:246-448 | On success the exact expansion, each edge with line, column and display of the first directive that asks for it, each reachable file read once, and every target of a secret directive of a reachable file among the sensitive paths, nothing else; on failure a cause that is there. |
| ManifestBytes.ValueOfBigEndian | internal/config/manifest.go:594-634 | Fixed-width integers are read back. |
| ManifestBytes.CompareIsExact | internal/config/manifest.go:503-524 | The byte comparison is zero exactly on equal strings and antisymmetric. |
| ManifestBytes.CompareIsLexicographic | internal/config/manifest.go:503-524 | The comparison is negative exactly if the first string is a proper prefix of the second, or has the smaller byte at the first place where they differ. |
| Manifests.DependencyOrderOnText | internal/config/manifest.go:507-524 | Dependencies are ordered by source, then line, column, target, status by name, and display, each compared in that sense. |
| Sorting.SortIgnoresOrder | internal/config/manifest.go:103-157 | Sorting by a strict order gives the same result for every order of the same elements. |
| Sorting.IncreasingIsUnique | internal/config/manifest.go:103-157 | An increasing sequence is determined by its elements. |
| ManifestCodec.EntryRoundTrip | internal/config/manifest.go:356-437 | A valid entry is read back from its record. |
| ManifestCodec.DependencyRoundTrip | internal/config/manifest.go:439-501 | A canonical dependency is read back from its record. |
| ManifestCodec.EntryLayout | internal/config/manifest.go:356-437 | Which byte of an entry record holds which field. |
| ManifestCodec.DependencyLayout | internal/config/manifest.go:439-501 | Which byte of a dependency record holds which field. |
| ManifestCodec.Validate | internal/config/manifest.go:49-100 | Accepts exactly valid manifests, with the sum of managed bytes in 64 bits. |
| ManifestCodec.MarshalBinary | internal/config/manifest.go:103-157 | Writes the encoding of the normal form of a valid manifest, and nothing else. Told by bytes: version, counts and one length-prefixed record for each entry and dependency, the paths of adjacent entries ascending byte by byte. |
| ManifestCodec.ParseManifest | internal/config/manifest.go:160-237 | The reading loops compute the parser on the whole payload, trailing bytes refused; what is accepted is valid, its counts stand in the head, and its records ascend. |
| ManifestCodec.MarshalRoundTrip | internal/config/manifest.go:103-237 | Parsing what was marshalled gives the manifest in sorted, normalised form. |
| ManifestCodec.MarshalIgnoresOrder | internal/config/manifest.go:103-157 | The bytes do not depend on the order of entries and dependencies. |
| ManifestCodec.MarshalIsInjective | internal/config/manifest.go:103-157 | Equal bytes mean equal normal forms. |
| ManifestCodec.MarshalFits | internal/config/manifest.go:636-647 | The length never exceeds the maximum payload under the default limits. |
| ManifestCodec.ParsedIsNormal | internal/config/manifest.go:160-237 | Whatever the parser accepts is a valid manifest in normal form. |
| ManifestCodec.LooseRecordIsRead | internal/config/manifest.go:407-416 | A record with a zero digest on an unmanaged entry is read like the shorter one: the reverse is not an identity. |
| TaskLog.Repository.Transition | internal/store/release_repository.go:128-199 | One compare-and-set on state and stage that appends the next sequence, or nothing. |
| TaskLog.Repository.PutBackup | internal/store/release_repository.go:258-297 | Written once; an index without a tree digest is completed by later evidence of the same origin, and no other is changed. |
| ReleaseMirror.TransitionIsSafe | internal/config/release_service.go:409-443 | An accepted transition keeps sequences 1..n, stage order, and nothing after a terminal stage. |
| ReleaseMirror.QueuedIsSafe | internal/config/release_service.go:217-228 | A queued release and its first stage satisfy what every transition keeps. |
| ReleaseMirror.StagesAreOrdered | internal/config/release_service.go:594-634 | The stages of a release in their order, every one with its number. |
| ReleaseMirror.StatesOfStages | internal/config/release_service.go:490-510 | Which stages stand for which state, and which states end a release. |
| ReleaseMirror.CheckResult | internal/config/release_service.go:512-575 | The checks as they are made accept exactly valid results of the running release. |
| ReleaseMirror.EndedIsFinal | internal/config/release_service.go:409-443 | No transition is accepted once a release has ended. |
| ReleaseMirror.PolledStage | internal/config/release_service.go:290-312 | Polling never copies a terminal stage; the state becomes terminal exactly when the reply is cancelled with a last stage that is copied. |
| ReleaseMirror.MarkUncertain | internal/config/release_service.go:654-670 | Adds one needs_attention stage, or nothing. |
| ReleaseMirror.MirrorStages | internal/config/release_service.go:409-443 | What is appended is a prefix of the Agent's stages with shifted sequences. |
| ReleaseMirror.Poll | internal/config/release_service.go:290-312 | Appends only stages that do not end the release, all the new ones if the database works and takes their details; never succeeded. |
| ReleaseMirror.MirrorResult | internal/config/release_service.go:368-407 | Stores the backup first and reaches succeeded only with the whole validated result and its evidence; with a working database the release ends exactly when the details of the rest can be stored, and then as the result says, with all its stages. |
| ReleaseMirror.Run | internal/config/release_service.go:234-317 | For any schedule of replies the log stays safe, and succeeded comes only from a validated full result whose backup was stored. With a working database: a result that is valid and whose details fit gives the row its state, stage, code and times, one that is not is marked with the reason; with honest polls the log is the two own stages followed by the Agent's after its first, all of them at the result, those the polls have shown at a stop, and the evidence is indexed. |
| ReleaseMirror.Reconcile | internal/config/release_service.go:320-366 | The same after an interruption, the persisted log naming the stages of the answer; with a working database an accepted answer gives the row its end and the log its rest, a refused one marks it with the reason, and the release stays open exactly when an accepted answer holds details that the database refuses. |
| ReleaseMirror.LongDetailsAreAccepted | internal/store/migrations/0004_config_releases.sql:95 | An answer that passes every check and has details longer than their column. |
| RestoreMirror.TransitionIsSafe | internal/config/recovery_orchestration.go:644-681 | An accepted transition keeps sequences, order, and nothing after a stage that ends the restore. |
| RestoreMirror.StagesAreOrdered | internal/config/recovery_orchestration.go:1137-1178 | The stages of a restore in their order, every one with its number. |
| RestoreMirror.StatesOfStages | internal/config/recovery_orchestration.go:1072-1124 | Which stages stand for which state, and which end a restore. |
| RestoreMirror.CheckPreparation | internal/config/recovery_orchestration.go:823-841 | The checks as they are made accept exactly valid preparations. |
| RestoreMirror.CheckProgress | internal/config/recovery_orchestration.go:865-893 | The checks as they are made accept exactly polls that continue the known stages. |
| RestoreMirror.CheckExecution | internal/config/recovery_orchestration.go:843-863 | The checks as they are made accept exactly results that continue preparation and polls. |
| RestoreMirror.MarkUncertain | internal/config/recovery_orchestration.go:737-756 | Adds one needs_attention stage, or nothing once ended. |
| RestoreMirror.MirrorStages | internal/config/recovery_orchestration.go:644-681 | Copies stages content-equal with shifted sequences up to the first refusal or the limit, and says when it copies all. |
| RestoreMirror.Poll | internal/config/recovery_orchestration.go:217-245 | A valid poll extends the copied prefix by its stages that do not end the restore. |
| RestoreMirror.Finish | internal/config/recovery_orchestration.go:250-268 | A contradicting result, or one after a failed poll, marks the restore with that reason; an accepted one is copied up to its first stage that ends, whole exactly when that is the last, and then gives the row its state, stage, code and times. |
| RestoreMirror.Prepare | internal/config/recovery_orchestration.go:170-192 | The preparation's safety backup is indexed before anything of it is mirrored; a preparation or a backup that is not valid marks the restore with that reason, exactly then if the database works. |
| RestoreMirror.Execute | internal/config/recovery_orchestration.go:193-268 | The copied log is a prefix of one the Agent answered with, over any schedule of polls; of an honest Agent it has exactly the stages that preparation and polls have shown. |
| RestoreMirror.Run | internal/config/recovery_orchestration.go:139-277 | The whole run: traced log, and with a working database the exact end of any schedule: failed, marked with the reason, left at the last poll, or the end that the accepted log states; for an honest Agent whose details fit the log is the own two stages followed by those it has shown, at the end all of them. |
| RestoreMirror.AcceptedMiddleEnd | internal/config/recovery_orchestration.go:937-949 | After any preparation a result that rolled back but whose log first succeeds is accepted. |
| RetentionPlan.CheckBackups | internal/config/recovery_service.go:463-477 | Accepts exactly complete backups without repeated ids. |
| RetentionPlan.CollectProtected | internal/config/recovery_service.go:367-391 | Collects exactly the protected ids with their reasons. |
| RetentionPlan.Decide | internal/config/recovery_service.go:408-451 | The greedy loop decides the shortest prefix of the sorted list that suffices. |
| RetentionPlan.CandidatesAreAll | internal/config/recovery_service.go:413-430 | Candidates are exactly the unprotected backups that are old enough, in the order of the list. |
| RetentionPlan.ShortestIsUnique | internal/config/recovery_service.go:408-441 | Only one prefix is the shortest that suffices. |
| RetentionPlan.UnreachableIsExact | internal/config/recovery_service.go:449-451 | After the shortest prefix a bound is still violated exactly when deleting every candidate would not help either. |
| RetentionPlan.MinimumSurvives | internal/config/recovery_service.go:367-391 | Only eligible backups are deleted, so none that is protected or too young, and at least the configured minimum survives. |
| RetentionPlan.PlanIgnoresOrder | internal/config/recovery_service.go:351-357 | The list that is planned, oldest first, does not depend on the order in which the repository lists the backups. |
| RetentionPlan.SortedAscends | internal/config/recovery_service.go:352-357 | The sorted list holds the same backups by time, ties in byte order of the id. |
| RetentionPlan.PlanOnList | internal/config/recovery_service.go:339-456 | The plan of the sorted list is a retention plan of the list as given, told without the sorted one. |
| RetentionPlan.PlanRetention | internal/config/recovery_service.go:339-456 | Succeeds exactly on valid backups whose sum fits 64 bits. Told on the list as given: the items are its backups by time and then by id, none is deleted that is protected, too young or among the newest to keep, no eligible one is kept that is older than a deleted one, and each deletion was needed for the count or the bytes; deleted and kept bytes add up. |
| RetentionRun.Execution.RunRetention | internal/config/recovery_service.go:84-198 | Over any failures and restarts a body goes only behind a durable deletion, and the run succeeds only when every item is settled. |
| RetentionRun.Execution.ResumeDeletion | internal/config/recovery_service.go:200-244 | Resumes an item in deleting without touching others. |
| RetentionRun.Execution.ReconcileFailedDeletion | internal/config/recovery_service.go:246-273 | After a failed removal the item is settled only by what is verified. |
| RetentionRun.CountsAfterUpdate | internal/config/recovery_service.go:84-198 | The counters of the run follow the states of its items. |
| CertificateTasks.RunIsSafe | internal/app/certificate_tasks.go:52-166 | Every interleaving keeps sets, slots and counters consistent. |
| CertificateTasks.BoundedOwner | internal/app/certificate_tasks.go:52-113 | At most 4 active and 100 owned tasks, disjoint sets, no id owned twice at once. |
| CertificateTasks.NothingStartsAfterStop | internal/app/certificate_tasks.go:140-166 | Once stopping, nothing enters either set. |
| CertificateTasks.StopLeavesNothing | internal/app/certificate_tasks.go:140-166 | When the wait group has been seen at zero both sets are empty and stay so. |
| CertificateTasks.NoneIsStuck | internal/app/certificate_tasks.go:78-111 | Once the context is closed every unfinished goroutine can take a step. |
| CertificateTasks.StepUsesWork | internal/app/certificate_tasks.go:78-111 | Each step of a goroutine after stopping uses up a finite measure. |
| CertificateTasks.StopEnds | internal/app/certificate_tasks.go:140-166 | From any reached state that is stopping with the context closed, no run takes more goroutine steps than there is work, every run that takes as many ends all goroutines and empties both sets, and there is such a run. |
| ChallengeOwnership.CleanupDns | internal/certificate/order_service.go:599-630 | Success means every artifact is cleaned, and an artifact is marked only after its record is gone. |
| ChallengeOwnership.CleanupHttp | internal/certificate/http_challenge_manager.go:121-198 | Success means the include is gone and its artifact cleaned; an include in place keeps an owner. |
| ChallengeOwnership.ProvisionHttp | internal/certificate/http_challenge_manager.go:59-118 | Ownership is stored before anything is published. |
| ChallengeOwnership.ProvisionRecord | internal/certificate/order_service.go:522-570 | A created record gets an owner or is deleted; otherwise the outcome is in doubt. |
| ChallengeOwnership.ProvisionDns | internal/certificate/order_service.go:504-572 | At most one record is without owner, and only in a doubtful outcome. |
| ChallengeOwnership.Retreat | internal/certificate/order_service.go:360-375 | A failed authorization is cleaned before the task fails. |
| ChallengeOwnership.Issue | internal/certificate/order_service.go:383-447 | Finalising changes the row only; undisturbed it goes through its four stages and succeeds. |
| ChallengeOwnership.Solve | internal/certificate/order_service.go:340-418 | Whatever happens a settled task has nothing left to clean. |
| ChallengeOwnership.Run | internal/certificate/order_service.go:264-418 | No issue or renewal settles while it owns an artifact, an include or a reported record; undisturbed it takes exactly its stages. |
| ChallengeOwnership.CleanupInterrupted | internal/certificate/order_service.go:173-220 | Success means everything the artifacts promise is cleaned. |
| ChallengeOwnership.Reconcile | internal/certificate/order_service.go:134-171 | A reconciled failure has nothing left exactly when no record was without owner before. |
| ChallengeOwnership.RunAndReconcile | internal/certificate/order_service.go:134-418 | A run cut anywhere and then reconciled: for HTTP nothing is ever left, for DNS at most one record. |
| SourceEdits.OffsetAfterEdits | internal/certificate/binding.go:467-483 | The loop adds up the edits that end at or before the offset, or refuses. |
| SourceEdits.OffsetLands | internal/certificate/binding.go:467-483 | An offset that no edit spans splits the edited text exactly where the prediction says. |
| SourceEdits.FirstByteLands | internal/certificate/binding.go:467-483 | The first byte of an untouched server is at the predicted offset. |
| SourceEdits.LandsAsPredicted | internal/certificate/binding.go:467-483 | Whatever the order and the other files of the planned edits, the first byte of a server is found in the edited text at the predicted offset. |
| SourceEdits.ShiftIgnoresOrder | internal/certificate/binding.go:467-483 | The order in which the edits are listed does not matter. |
| ServerBinding.SortedUniqueIsExact | internal/certificate/binding.go:646-655 | The list is increasing and holds exactly the words that may be kept. |
| ServerBinding.SortedUniqueIsIdempotent | internal/certificate/binding.go:634-644 | A derived list passes its own validity check again. |
| ServerBinding.ServerSummary | internal/certificate/binding.go:529-562 | Names, listeners and the TLS flag of a server; told by characters: each list ascends and holds exactly what is named in lower case, patterns as written, and may be kept. |
| ServerBinding.PlanTlsListen | internal/certificate/binding.go:355-380 | Keeps, extends the first listener on port 443, or adds one. |
| ServerBinding.EndpointOn443 | internal/certificate/binding.go:663-670 | Port 443 is read from the text of an endpoint: the bare port or a host with it, no variable and no socket. |
| ServerBinding.PlanServerBinding | internal/certificate/binding.go:241-297 | Succeeds exactly when each certificate directive is there at most once with one plain word, and then the block has both, each other directive as it was but the one that listens on port 443, and what was missing behind them. |
| ServerBinding.PredictListeners | internal/certificate/binding.go:432-465 | The predicted listeners are those of the block changed by the lower-case plan. |
| ServerBinding.BoundSummary | internal/certificate/binding.go:241-297 | The bound block has the same names and the listeners of the plan. |
| ServerBinding.PredictionIsExact | internal/certificate/binding.go:355-465 | The predicted listeners are those of the bound server exactly when folding finds no ssl that lower case does not find, or what the prediction changes is not kept or is there anyway. |
| ServerBinding.PlanIsPredicted | internal/certificate/binding.go:355-465 | The prediction takes the plan that is made exactly when folding finds no further ssl. |
| ServerBinding.AsciiFoldsInLowerCase | internal/certificate/binding.go:355-380 | With ASCII listen arguments folding finds no further ssl. |
| ServerBinding.SameWordsKept | internal/certificate/binding.go:646-655 | Two lists give the same sorted list exactly when the same words of them are kept. |
| ServerBinding.FoldingIsMispredicted | internal/certificate/binding.go:355-465 | Where folding alone finds ssl, the predicted listeners differ from the derived ones exactly when the added or exchanged listener makes a difference to what is kept, for every server block. |
| ServerBinding.LongSFolds | internal/certificate/binding.go:362-366 | For a listener with a long s the prediction adds one that the source never has. |
| ServerBinding.QuotedListenerHidesIt | internal/certificate/binding.go:432-465 | A listener that reads like the added one, quoted as one argument, hides the wrong prediction. |
| ServerBinding.BoundIsTls | internal/certificate/binding.go:355-380 | The bound server listens with ssl exactly in the same case. |
| ServerBinding.BindingIsIdempotent | internal/certificate/binding.go:241-297 | Binding again to the same version changes nothing. |
| ServerBinding.BoundIsUnbindable | internal/certificate/binding.go:299-329 | What has been bound passes the checks of unbinding. |
| ServerBinding.UnbindingUndoesBinding | internal/certificate/binding.go:299-329 | Unbinding leaves of a binding only what it did to the listeners. |
| ServerBinding.FingerprintIsExact | internal/certificate/binding.go:625-632 | Equal fingerprint input exactly for equal paths and equal names followed by listeners. |
| ServerBinding.NamesRunIntoListeners | internal/certificate/binding.go:625-632 | Two servers with different names that share a fingerprint. |
| ServerRefs.FindServer | internal/certificate/binding.go:148-168 | The only editable server of an identity, or none. |
| ServerRefs.CheckRef | internal/certificate/binding.go:634-644 | The checks as they are made accept exactly valid references. |
| ServerRefs.ResolveServerRefs | internal/certificate/binding.go:133-171 | Resolves exactly lists of valid, distinct references that each name one editable server. |
| ServerRefs.PredictRef | internal/certificate/binding.go:399-415 | The predicted reference of one server. |
| ServerRefs.OneCounted | internal/certificate/binding.go:396-427 | A count of one means that no other server has the identity. |
| ServerRefs.PredictionIsDerived | internal/certificate/binding.go:432-465 | The predicted reference of a server equals the one derived from its edited source, start included, exactly when the predicted listeners are those of the bound server. |
| ServerRefs.PublishedServerRefs | internal/certificate/binding.go:382-430 | Succeeds exactly when all predictions are valid and the targets' identities stay unique. |
| ServerRefs.PublishedRefsResolve | internal/certificate/binding.go:382-430 | Published references equal those derived from the edited texts, starts included, and resolve to the same servers. |
| Search.SearchLine | internal/config/search.go:144-161 | Appends the occurrences of one line in order up to the limit. |
| Search.SearchContent | internal/config/search.go:125-164 | Appends exactly the first matches of a file and reports whether there are more. |
| Search.SearchFiles | internal/config/search.go:69-113 | Over all files exactly the first matches up to the limit, incomplete exactly when there are more. |
| Search.OffsetsAreGreedy | internal/config/search.go:144-161 | The offsets are occurrences that do not overlap and leave no room for another one. |
| Search.GreedyIsUnique | internal/config/search.go:144-161 | There is only one such list. |
| Search.OccursAtBoundary | internal/config/search.go:144-158 | In UTF-8 an occurrence starts between runes, so counting runes before it gives its column. |
| Search.ClipWindow | internal/config/search.go:166-186 | As many runes as fit, at most 240: a match of at most 240 runes in the middle, unless the line ends before; else the first 240 of the match. |
| Search.ClippedSnippet | internal/config/search.go:166-186 | The snippet is that window of the line's runes around the runes of its own match, not of another occurrence. |

## Left out

- Contexts, timeouts and clocks: cancellation is an environment choice, times are given numbers.
- Policy and path validation, ETag, actor and production checks of a mutation, and capacity arithmetic: they refuse before any durable step.
- Creating a workspace and its preparing state: the recovery of a creation is not part of the model.
- The order in which a batch is sorted (`canonicalReplacements`): the list is taken in its given order, and its paths as distinct.
- A failing include expansion inside `manifestFromContents`, entries that are not managed, stray temporary files: below or outside the step model.
- WorkspaceStore.Workspace.MutateFile: evidence of one operation at a time; directories that earlier failed operations left behind have other names and wait for `cleanupOrphanRecovery`.
- Errors of single filesystem or database calls in a mutation or a deletion: modelled as the process stopping there, so an error path that goes on to clean up in the same process is not.
- Cutting a diff to the response limit (`boundDiffResult`): presentation.
- Characters stand for bytes in the differ and the scanner; the theorems do not depend on the values of other characters.
- A newline inside a path would break the header of a patch; `ParsePatch` takes the header of the known path off before it parses.
- `resolveExpression` and `path.Match`: given functions of the include graph.
- The texts of codec and scanner errors: an error is an error, not which one for the codec.
- SHA-256: digests are compared as values, and the fingerprint of a server stands for its input.
- The SQL of the repositories: compare-and-set contracts on one task.
- What a release does to its workspace (`applyWorkspaceReleaseOutcome`) and the resolution of attention cases: separate rows.
- Restart mirroring, `reconcileRestore` and `reconcileRestart`: the recovery comparison uses the time of the locally written stage, so success is not claimed.
- RestoreMirror.Run: whether the restore target can be used is a given answer, and UTC is not checked because times are numbers.
- RetentionRun.Execution.RunRetention: relies on an Agent that does not claim a removal that did not happen, nor a missing body that is there, nor verified evidence of a body that is gone.
- TaskLog.Repository.PutBackup: one index per task, of its own backup; the `creating` state of an index is left out, as none of the services writes it.
- WorkspaceDelete.DeletionIsAtomic: a workspace whose base, draft or records were lost to something else is outside; of the files of one directory only the journal, the lifecycle state and the directory `control` are told apart.
- ServiceReconcile.ReconcileAll: one list of workspaces stands for the directory entries and for the rows; a failing database or file system call ends a run like a crash.
- ChallengeOwnership.Run: ACME, vault and X.509 calls are answers that work or fail; the plan's challenge and credential are those of its task, and which zone a record is in does not matter to ownership.
- ChallengeOwnership.Reconcile: one task at a time; the paging of active tasks and the treatment of binding tasks are not modelled.
- ServerBinding.BoundSummary: a directive belongs to one server; a listen directive in a file that several servers include is edited for all of them and predicted for one.
- ServerBinding.ServerSummary: lower case is exact for ASCII letters; other letters are left as they are.
- ServerRefs.ResolveServerRefs: candidates keep the order of the source, as a unique match does not depend on it; the parser that finds blocks and directives is not part of this model.
- Search.SearchFiles: the query has been checked and managed text is UTF-8, as query check and policy see to; the files are given in path order.
- Rendering a binding plan as patches (`renderBindingPlan`): it calls the differ.
- HTTP handlers, group management and start-up: plumbing.
