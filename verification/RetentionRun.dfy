// Executing a retention plan, resumable (internal/config/recovery_service.go).
module RetentionRun {
  import opened Outcomes

  type Id = string

  datatype RunState = RunPlanned | Executing | RunSucceeded | RunFailed | RunNeedsAttention | RunExpired

  datatype Decision = Keep | Delete

  datatype ItemState = Planned | Kept | Deleting | Deleted | SkippedProtected | Failed | NeedsAttention

  datatype Item = Item(backup: Id, decision: Decision, state: ItemState, createdAt: int, totalBytes: int)

  datatype BackupState = Creating | Complete | Invalid | BodyDeleting | BodyDeleted

  /** A backup row; `ours` says that this run is deleting it. */
  datatype Backup = Backup(state: BackupState, bodyPresent: bool, createdAt: int, totalBytes: int,
                           productionDigest: Option<string>, treeDigest: Option<string>, entryCount: int,
                           verifiedAt: int, ours: bool)

  datatype Evidence = Evidence(backup: Id, productionDigest: Option<string>, treeDigest: Option<string>,
                               entryCount: int, totalBytes: int, verifiedAt: int)

  datatype Verified = Found(evidence: Evidence) | NotExist | VerifyError

  /**
   * What the surroundings do at the n-th call. A database call that does not work
   * changes nothing, in particular after a crash. The Agent may remove a body and still
   * report an error, and may answer a verification with anything; it does not claim a
   * removal that did not happen, nor a missing body that is there.
   */
  datatype Fate = Fate(works: bool, protected_: bool, removes: bool, errs: bool, evidence: Evidence)

  datatype BeginResult = Begun | Protected | Refused

  /** Items in these states are not touched again. */
  predicate IsFinal(state: ItemState) {
    state == Kept || state == Deleted || state == SkippedProtected
  }

  predicate MatchesSnapshot(b: Backup, item: Item) {
    && b.state == Complete && b.bodyPresent && b.createdAt == item.createdAt && b.totalBytes == item.totalBytes
    && b.productionDigest.Some? && b.treeDigest.Some? && b.entryCount >= 0 && b.verifiedAt != 0
  }

  predicate EvidenceMatches(id: Id, b: Backup, e: Evidence) {
    && e.backup == id && e.productionDigest == b.productionDigest && e.treeDigest == b.treeDigest
    && e.entryCount == b.entryCount && e.totalBytes == b.totalBytes && e.verifiedAt == b.verifiedAt
  }

  /** What one item guarantees about its backup: a body is gone only behind a durable deletion. */
  predicate ItemSafe(item: Item, backups: map<Id, Backup>, bodies: set<Id>) {
    && item.backup in backups
    && (item.state == Kept ==> item.decision == Keep)
    && (item.state in {Deleting, Deleted, SkippedProtected, NeedsAttention} ==> item.decision == Delete)
    && (item.state == Deleting
       ==> backups[item.backup].state == BodyDeleting && backups[item.backup].bodyPresent && backups[item.backup].ours)
    && (item.state == Deleted
       ==> item.backup !in bodies && backups[item.backup].state == BodyDeleted && !backups[item.backup].bodyPresent)
    && (item.state != Deleting && item.state != Deleted && item.state != NeedsAttention ==> item.backup in bodies)
  }

  predicate DistinctBackups(items: seq<Item>) {
    forall i, j | 0 <= i < j < |items| :: items[i].backup != items[j].backup
  }

  function CountDeleted(items: seq<Item>): nat {
    if items == [] then 0 else CountDeleted(items[..|items| - 1]) + if items[|items| - 1].state == Deleted then 1 else 0
  }

  function BytesDeleted(items: seq<Item>): int {
    if items == [] then 0
    else BytesDeleted(items[..|items| - 1]) + if items[|items| - 1].state == Deleted then items[|items| - 1].totalBytes
      else 0
  }

  /** The whole run: every item, the totals, and success only when nothing is left open. */
  predicate RunSafe(run: RunState, items: seq<Item>, backups: map<Id, Backup>, bodies: set<Id>, deletedCount: nat,
                    deletedBytes: int) {
    && DistinctBackups(items) && (forall i | 0 <= i < |items| :: ItemSafe(items[i], backups, bodies))
    && deletedCount == CountDeleted(items) && deletedBytes == BytesDeleted(items)
    && (run == RunSucceeded ==> forall i | 0 <= i < |items| :: IsFinal(items[i].state))
  }

  /** At most this backup's body is gone. */
  predicate OnlyOwnBody(before: set<Id>, after: set<Id>, id: Id) {
    after == before || after == before - {id}
  }

  predicate Chosen(items: seq<Item>, id: Id) {
    exists i | 0 <= i < |items| :: items[i].backup == id && items[i].decision == Delete
  }

  /** No body appears, and only bodies the plan decided to delete disappear. */
  predicate OnlyChosenBodies(before: set<Id>, after: set<Id>, items: seq<Item>) {
    after <= before && forall id | id in before && id !in after :: Chosen(items, id)
  }

  predicate SameButStates(before: seq<Item>, after: seq<Item>) {
    && |before| == |after|
    && forall i | 0 <= i < |before| ::
       after[i] == before[i].(state := after[i].state) && (IsFinal(before[i].state) ==> after[i] == before[i])
  }

  lemma {:induction false} CountsAfterUpdate(items: seq<Item>, i: nat, item: Item)
    requires i < |items| && items[i].state != Deleted && item == items[i].(state := item.state)
    ensures CountDeleted(items[i := item]) == CountDeleted(items) + if item.state == Deleted then 1 else 0
    ensures BytesDeleted(items[i := item]) == BytesDeleted(items) + if item.state == Deleted then item.totalBytes else 0
    decreases |items|
  {
    var last := |items| - 1;
    if i < last {
      assert items[i := item][..last] == items[..last][i := item];
      CountsAfterUpdate(items[..last], i, item);
    } else {
      assert items[i := item][..last] == items[..last];
    }
  }

  /** One item moves on, with its backup row. */
  lemma ItemMoves(run: RunState, items: seq<Item>, backups: map<Id, Backup>, bodies: set<Id>, deletedCount: nat,
                  deletedBytes: int, i: nat, item: Item, backup: Backup)
    requires RunSafe(run, items, backups, bodies, deletedCount, deletedBytes) && run != RunSucceeded && i < |items|
    requires items[i].state != Deleted && item == items[i].(state := item.state)
    requires ItemSafe(item, backups[item.backup := backup], bodies)
    ensures RunSafe(run, items[i := item], backups[item.backup := backup], bodies,
                    deletedCount + (if item.state == Deleted then 1 else 0),
                    deletedBytes + if item.state == Deleted then item.totalBytes else 0)
  {
    CountsAfterUpdate(items, i, item);
    var after, rows := items[i := item], backups[item.backup := backup];
    forall k | 0 <= k < |after| ensures ItemSafe(after[k], rows, bodies) {
      if k != i { assert ItemSafe(items[k], backups, bodies) && items[k].backup != item.backup; }
    }
  }

  /** A body may go while its item is durably being deleted. */
  lemma BodyGoes(run: RunState, items: seq<Item>, backups: map<Id, Backup>, bodies: set<Id>, deletedCount: nat,
                 deletedBytes: int, i: nat)
    requires RunSafe(run, items, backups, bodies, deletedCount, deletedBytes) && i < |items|
    requires items[i].state == Deleting
    ensures RunSafe(run, items, backups, bodies - {items[i].backup}, deletedCount, deletedBytes)
  {
    forall k | 0 <= k < |items| ensures ItemSafe(items[k], backups, bodies - {items[i].backup}) {
      assert ItemSafe(items[k], backups, bodies);
      if k != i { assert items[k].backup != items[i].backup; }
    }
  }

  lemma SameStates(items: seq<Item>)
    ensures SameButStates(items, items)
  {
  }

  lemma OneMoved(before: seq<Item>, items: seq<Item>, i: nat, state: ItemState)
    requires SameButStates(before, items) && i < |items| && !IsFinal(before[i].state)
    ensures SameButStates(before, items[i := items[i].(state := state)])
  {
  }

  /** One retention run: its rows in the database and the backup bodies behind the Agent. */
  class Execution {
    const fates: nat -> Fate
    var calls: nat
    var run: RunState
    var items: seq<Item>
    var backups: map<Id, Backup>
    var bodies: set<Id>
    var deletedCount: nat
    var deletedBytes: int

    predicate Safe()
      reads this
    {
      RunSafe(run, items, backups, bodies, deletedCount, deletedBytes)
    }

    // ----- the database

    /** A compare-and-set on the state of one item. */
    method TransitionItem(i: nat, expected: ItemState, next: ItemState) returns (ok: bool)
      requires i < |items|
      modifies this`calls, this`items
      ensures calls == old(calls) + 1 && ok == (fates(old(calls)).works && old(items)[i].state == expected)
      ensures items == if ok then old(items)[i := old(items)[i].(state := next)] else old(items)
    {
      ok := fates(calls).works && items[i].state == expected;
      calls := calls + 1;
      if ok {
        items := items[i := items[i].(state := next)];
      }
    }

    /** Marks row and item as being deleted, unless the backup has been protected or changed meanwhile. */
    method BeginDeletion(i: nat) returns (r: BeginResult)
      requires i < |items|
      modifies this`calls, this`items, this`backups
      ensures calls == old(calls) + 1
      ensures r == Begun ==>
        && run == Executing && old(items)[i].decision == Delete && old(items)[i].state == Planned
        && old(items)[i].backup in old(backups)
        && old(backups)[old(items)[i].backup].state == Complete && old(backups)[old(items)[i].backup].bodyPresent
        && items == old(items)[i := old(items)[i].(state := Deleting)]
        && backups == old(backups)[old(items)[i].backup :=
           old(backups)[old(items)[i].backup].(state := BodyDeleting, ours := true)]
      ensures r != Begun ==> items == old(items) && backups == old(backups)
    {
      var fate := fates(calls);
      calls := calls + 1;
      var item := items[i];
      if !fate.works || run != Executing || item.decision != Delete || item.state != Planned
        || item.backup !in backups {
        return Refused;
      }
      var b := backups[item.backup];
      if b.state != Complete || !b.bodyPresent || b.createdAt != item.createdAt || b.totalBytes != item.totalBytes {
        return Refused;
      }
      if fate.protected_ {
        return Protected;
      }
      backups := backups[item.backup := b.(state := BodyDeleting, ours := true)];
      items := items[i := item.(state := Deleting)];
      return Begun;
    }

    /** The row and item transition out of a deletion; only the run that began it may end it. */
    method EndDeletion(i: nat, next: ItemState) returns (ok: bool)
      requires i < |items| && items[i].backup in backups
      modifies this`calls, this`items, this`backups, this`deletedCount, this`deletedBytes
      ensures calls == old(calls) + 1
      ensures ok ==> var item, b := old(items)[i], old(backups)[old(items)[i].backup];
        && item.state == Deleting && items == old(items)[i := item.(state := next)]
        && backups == old(backups)[item.backup :=
             match next
             case Deleted => b.(state := BodyDeleted, bodyPresent := false)
             case Failed => b.(state := Complete, ours := false)
             case _ => b]
        && deletedCount == old(deletedCount) + (if next == Deleted then 1 else 0)
        && deletedBytes == old(deletedBytes) + if next == Deleted then item.totalBytes else 0
      ensures !ok ==> items == old(items) && backups == old(backups) && deletedCount == old(deletedCount)
                      && deletedBytes == old(deletedBytes)
    {
      var item, b := items[i], backups[items[i].backup];
      ok := fates(calls).works && run == Executing && item.state == Deleting
            && (next == NeedsAttention || (b.state == BodyDeleting && b.bodyPresent && b.ours));
      calls := calls + 1;
      if ok {
        items := items[i := item.(state := next)];
        match next {
          case Deleted =>
            backups := backups[item.backup := b.(state := BodyDeleted, bodyPresent := false)];
            deletedCount, deletedBytes := deletedCount + 1, deletedBytes + item.totalBytes;
          case Failed =>
            backups := backups[item.backup := b.(state := Complete, ours := false)];
          case _ =>
            assert backups == backups[item.backup := b];
        }
      }
    }

    /** Ends an executing run; a run that has ended stays as it is. */
    method Finish(next: RunState)
      requires Safe() && next != Executing
      requires next == RunSucceeded ==> forall i | 0 <= i < |items| :: IsFinal(items[i].state)
      modifies this`calls, this`run
      ensures Safe() && (run == old(run) || (old(run) == Executing && run == next))
      ensures (forall n :: fates(n).works) ==> run != Executing
    {
      var works := fates(calls).works;
      calls := calls + 1;
      if works && run == Executing {
        run := next;
      }
    }

    // ----- the Agent

    method VerifyBackup(id: Id) returns (r: Verified)
      modifies this`calls
      ensures calls == old(calls) + 1
      ensures r == NotExist ==> id !in bodies
      ensures r.Found? ==> id in bodies
    {
      var fate := fates(calls);
      calls := calls + 1;
      if fate.errs {
        return VerifyError;
      }
      return if id in bodies then Found(fate.evidence) else NotExist;
    }

    /** The only call that removes a body: its item must be durably in deletion. */
    method DeleteBackup(i: nat) returns (ok: bool)
      requires i < |items| && items[i].state == Deleting && items[i].decision == Delete && Safe()
      modifies this`calls, this`bodies
      ensures Safe() && calls == old(calls) + 1
      ensures bodies == old(bodies) || bodies == old(bodies) - {items[i].backup}
      ensures ok ==> items[i].backup !in bodies
    {
      var fate := fates(calls);
      calls := calls + 1;
      if fate.removes {
        BodyGoes(run, items, backups, bodies, deletedCount, deletedBytes, i);
        bodies := bodies - {items[i].backup};
      }
      return !fate.errs && items[i].backup !in bodies;
    }

    // ----- the executor

    /** Moves item i from a state that is not final, keeping the run safe. */
    method Settle(i: nat, next: ItemState) returns (ok: bool)
      requires Safe() && run == Executing && i < |items| && items[i].state == Planned
      requires next == Kept || next == SkippedProtected || next == Failed
      requires if next == Kept then items[i].decision == Keep else items[i].decision == Delete
      modifies this`calls, this`items
      ensures Safe() && SameButStates(old(items), items)
      ensures items == if ok then old(items)[i := old(items)[i].(state := next)] else old(items)
    {
      assert ItemSafe(items[i], backups, bodies);
      ItemMoves(run, items, backups, bodies, deletedCount, deletedBytes, i, items[i].(state := next),
                backups[items[i].backup]);
      assert backups == backups[items[i].backup := backups[items[i].backup]];
      ok := TransitionItem(i, Planned, next);
    }

    /** Ends the deletion of item i, keeping the run safe. */
    method Close(i: nat, next: ItemState) returns (ok: bool)
      requires Safe() && run == Executing && i < |items| && items[i].state == Deleting && items[i].decision == Delete
      requires next == Deleted || next == Failed || next == NeedsAttention
      requires (next == Deleted ==> items[i].backup !in bodies) && (next == Failed ==> items[i].backup in bodies)
      modifies this`calls, this`items, this`backups, this`deletedCount, this`deletedBytes
      ensures Safe() && SameButStates(old(items), items)
      ensures items == if ok then old(items)[i := old(items)[i].(state := next)] else old(items)
    {
      var item, b := items[i], backups[items[i].backup];
      assert ItemSafe(item, backups, bodies);
      ItemMoves(run, items, backups, bodies, deletedCount, deletedBytes, i, item.(state := next),
                match next
                case Deleted => b.(state := BodyDeleted, bodyPresent := false)
                case Failed => b.(state := Complete, ours := false)
                case _ => b);
      ok := EndDeletion(i, next);
    }

    /** After a deletion that reported an error: what is there decides. */
    method ReconcileFailedDeletion(i: nat, b: Backup) returns (goOn: bool)
      requires Safe() && run == Executing && i < |items| && items[i].state == Deleting && items[i].decision == Delete
      modifies this
      ensures OnlyOwnBody(old(bodies), bodies, old(items)[i].backup)
      ensures Safe() && SameButStates(old(items), items)
      ensures goOn ==> run == Executing && items == old(items)[i := old(items)[i].(state := Deleted)]
      ensures !goOn && (forall n :: fates(n).works) ==> run != Executing
    {
      var verified := VerifyBackup(items[i].backup);
      match verified
      case Found(evidence) =>
        if EvidenceMatches(items[i].backup, b, evidence) {
          var _ := Close(i, Failed);
          Finish(RunFailed);
        } else {
          var _ := Close(i, NeedsAttention);
          Finish(RunNeedsAttention);
        }
        return false;
      case NotExist =>
        goOn := RecordDeletion(i);
      case VerifyError =>
        var _ := Close(i, NeedsAttention);
        Finish(RunNeedsAttention);
        return false;
    }

    /** Records a deletion whose body is gone. */
    method RecordDeletion(i: nat) returns (goOn: bool)
      requires Safe() && run == Executing && i < |items| && items[i].state == Deleting && items[i].decision == Delete
      requires items[i].backup !in bodies
      modifies this
      ensures OnlyOwnBody(old(bodies), bodies, old(items)[i].backup)
      ensures Safe() && SameButStates(old(items), items)
      ensures goOn ==> run == Executing && items == old(items)[i := old(items)[i].(state := Deleted)]
      ensures !goOn && (forall n :: fates(n).works) ==> run != Executing
    {
      goOn := Close(i, Deleted);
      if !goOn { Finish(RunNeedsAttention); }
    }

    /** Deletes the body of an item in deletion and records it. */
    method DeleteBody(i: nat, b: Backup) returns (goOn: bool)
      requires Safe() && run == Executing && i < |items| && items[i].state == Deleting && items[i].decision == Delete
      modifies this
      ensures OnlyOwnBody(old(bodies), bodies, old(items)[i].backup)
      ensures Safe() && SameButStates(old(items), items)
      ensures goOn ==> run == Executing && items == old(items)[i := old(items)[i].(state := Deleted)]
      ensures !goOn && (forall n :: fates(n).works) ==> run != Executing
    {
      var deleted := DeleteBackup(i);
      if deleted {
        goOn := RecordDeletion(i);
      } else {
        goOn := ReconcileFailedDeletion(i, b);
      }
    }

    /** An item found in deletion after an interruption. */
    method ResumeDeletion(i: nat) returns (goOn: bool)
      requires Safe() && run == Executing && i < |items| && items[i].state == Deleting && items[i].decision == Delete
      modifies this
      ensures OnlyOwnBody(old(bodies), bodies, old(items)[i].backup)
      ensures Safe() && SameButStates(old(items), items)
      ensures goOn ==> run == Executing && items == old(items)[i := old(items)[i].(state := Deleted)]
      ensures !goOn && (forall n :: fates(n).works) ==> run != Executing
    {
      var readable := fates(calls).works;
      calls := calls + 1;
      var item := items[i];
      assert ItemSafe(item, backups, bodies);
      var b := backups[item.backup];
      if !readable || b.state != BodyDeleting || !b.bodyPresent || b.createdAt != item.createdAt
        || b.totalBytes != item.totalBytes
        || b.productionDigest.None? || b.treeDigest.None? {
        Finish(RunNeedsAttention);
        return false;
      }
      var verified := VerifyBackup(item.backup);
      if verified == NotExist {
        goOn := RecordDeletion(i);
        return;
      }
      if verified == VerifyError || !EvidenceMatches(item.backup, b, verified.evidence) {
        var _ := Close(i, NeedsAttention);
        Finish(RunNeedsAttention);
        return false;
      }
      goOn := DeleteBody(i, b);
    }

    /** Makes the deletion of a planned item durable, keeping the run safe. */
    method Begin(i: nat, b: Backup) returns (r: BeginResult)
      requires Safe() && run == Executing && i < |items| && items[i].state == Planned && items[i].decision == Delete
      requires items[i].backup in backups && backups[items[i].backup] == b && b.bodyPresent
      modifies this`calls, this`items, this`backups
      ensures Safe()
      ensures items == if r == Begun then old(items)[i := old(items)[i].(state := Deleting)] else old(items)
    {
      assert ItemSafe(items[i], backups, bodies);
      ItemMoves(run, items, backups, bodies, deletedCount, deletedBytes, i, items[i].(state := Deleting),
                b.(state := BodyDeleting, ours := true));
      hide RunSafe;
      r := BeginDeletion(i);
    }

    /** The plan no longer fits: the item and the run fail. */
    method FailItem(i: nat)
      requires Safe() && run == Executing && i < |items| && items[i].state == Planned && items[i].decision == Delete
      modifies this`calls, this`items, this`run
      ensures Safe() && SameButStates(old(items), items)
      ensures (forall n :: fates(n).works) ==> run != Executing
    {
      var _ := Settle(i, Failed);
      Finish(RunFailed);
    }

    /** Deletes a verified planned item. */
    method DeleteVerified(i: nat, b: Backup) returns (goOn: bool)
      requires Safe() && run == Executing && i < |items| && items[i].state == Planned && items[i].decision == Delete
      requires items[i].backup in backups && backups[items[i].backup] == b && b.bodyPresent
      modifies this
      ensures OnlyOwnBody(old(bodies), bodies, old(items)[i].backup)
      ensures Safe() && SameButStates(old(items), items)
      ensures goOn ==> run == Executing && IsFinal(items[i].state) && items == old(items)[i := items[i]]
      ensures !goOn && (forall n :: fates(n).works) ==> run != Executing
    {
      hide RunSafe, ItemSafe, SameButStates;
      ghost var before := items;
      SameStates(before);
      var begun := Begin(i, b);
      match begun
      case Protected =>
        goOn := Settle(i, SkippedProtected);
        if !goOn { Finish(RunNeedsAttention); }
      case Refused =>
        FailItem(i);
        return false;
      case Begun =>
        OneMoved(before, before, i, Deleting);
        ghost var begunItems := items;
        goOn := DeleteBody(i, b);
        StatesCompose(before, begunItems, items);
    }

    /** An item planned for deletion. */
    method DeletePlanned(i: nat) returns (goOn: bool)
      requires Safe() && run == Executing && i < |items| && items[i].state == Planned && items[i].decision == Delete
      modifies this
      ensures OnlyOwnBody(old(bodies), bodies, old(items)[i].backup)
      ensures Safe() && SameButStates(old(items), items)
      ensures goOn ==> run == Executing && IsFinal(items[i].state) && items == old(items)[i := items[i]]
      ensures !goOn && (forall n :: fates(n).works) ==> run != Executing
    {
      var readable := fates(calls).works;
      calls := calls + 1;
      var item := items[i];
      assert ItemSafe(item, backups, bodies);
      hide RunSafe, ItemSafe, SameButStates;
      var b := backups[item.backup];
      if !readable || !MatchesSnapshot(b, item) {
        FailItem(i);
        return false;
      }
      var verified := VerifyBackup(item.backup);
      if !verified.Found? || !EvidenceMatches(item.backup, b, verified.evidence) {
        FailItem(i);
        return false;
      }
      goOn := DeleteVerified(i, b);
    }

    /**
     * Executes the plan item by item; cancellation or a crash may end it anywhere and it
     * may be called again any number of times.
     */
    method RunRetention(cancelAt: nat)
      requires Safe()
      modifies this
      ensures Safe() && SameButStates(old(items), items) && OnlyChosenBodies(old(bodies), bodies, old(items))
      ensures old(run) != Executing ==> run == old(run) && items == old(items) && bodies == old(bodies)
      ensures run == RunSucceeded && old(run) == Executing ==> forall i | 0 <= i < |items| :: IsFinal(items[i].state)
      ensures (forall n :: fates(n).works) && cancelAt >= |items| ==> run != Executing
    {
      if run != Executing {
        return;
      }
      for index := 0 to |items|
        invariant Safe() && run == Executing && SameButStates(old(items), items)
        invariant OnlyChosenBodies(old(bodies), bodies, old(items))
        invariant forall k | 0 <= k < index :: IsFinal(items[k].state)
      {
        if cancelAt == index {
          return;
        }
        var item := items[index];
        ghost var before, present := items, bodies;
        assert ItemSafe(item, backups, bodies);
        hide RunSafe, ItemSafe, OnlyChosenBodies, Chosen, OnlyOwnBody;
        var goOn := true;
        match item.state {
        case Kept =>
        case Deleted =>
        case SkippedProtected =>
        case Deleting =>
          goOn := ResumeDeletion(index);
        case Failed =>
          Finish(RunNeedsAttention);
          return;
        case NeedsAttention =>
          Finish(RunNeedsAttention);
          return;
        case Planned =>
          if item.decision == Keep {
            goOn := Settle(index, Kept);
            if !goOn { Finish(RunNeedsAttention); }
          } else {
            goOn := DeletePlanned(index);
          }
        }
        StatesCompose(old(items), before, items);
        SameBodies(present, item.backup);
        BodiesCompose(old(bodies), present, bodies, old(items), index);
        if !goOn {
          return;
        }
      }
      Finish(RunSucceeded);
    }
  }

  lemma SameBodies(bodies: set<Id>, id: Id)
    ensures OnlyOwnBody(bodies, bodies, id)
  {
  }

  lemma BodiesCompose(a: set<Id>, b: set<Id>, c: set<Id>, items: seq<Item>, i: nat)
    requires OnlyChosenBodies(a, b, items) && i < |items| && OnlyOwnBody(b, c, items[i].backup)
    requires b != c ==> items[i].decision == Delete
    ensures OnlyChosenBodies(a, c, items)
  {
  }

  lemma StatesCompose(a: seq<Item>, b: seq<Item>, c: seq<Item>)
    requires SameButStates(a, b) && SameButStates(b, c)
    ensures SameButStates(a, c)
  {
    forall i | 0 <= i < |a| ensures c[i] == a[i].(state := c[i].state) && (IsFinal(a[i].state) ==> c[i] == a[i]) {
      assert b[i] == a[i].(state := b[i].state) && c[i] == b[i].(state := c[i].state);
    }
  }
}
