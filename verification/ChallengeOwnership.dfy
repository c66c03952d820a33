// Who owns an ACME challenge (internal/certificate/order_service.go, RFC 8555).
module ChallengeOwnership {

  // TXT records and published includes against the artifacts that promise their cleanup
  // (RFC 8555, sections 7.5.1, 8.3 and 8.4; internal/certificate/http_challenge_manager.go).

  datatype State = Queued | Running | Cancelling | Succeeded | Failed | Cancelled | NeedsAttention
  datatype Step =
    | AtQueued | Preparing | Ordering | Provisioning | Propagating | Authorizing | Cleaning | Finalizing | Validating
      | Deploying
    | Completed | AtFailed | AtCancelled | AtNeedsAttention

  datatype Challenge = Http01 | Dns01
  datatype Kind = HttpInclude | CloudflareTxt
  datatype Mark = Created | Cleaned | Doubtful
  datatype Record = Record(zone: nat, id: nat)
  datatype Artifact = Artifact(kind: Kind, mark: Mark, credential: nat, record: Record)

  /** What the runner holds of its task; the kind decides how a failure is recorded. */
  datatype Task = Task(state: State, step: Step, log: seq<Step>, challenge: Challenge, credential: nat, renews: bool)

  /** What becomes of one call: it works, does nothing, or takes effect although an error is reported. */
  datatype Fate = Works | Fails | Lost

  predicate Terminal(state: State) {
    state == Succeeded || state == Failed || state == Cancelled || state == NeedsAttention
  }

  /** An end that promises that nothing is left to clean. */
  predicate Settled(state: State) {
    state == Succeeded || state == Failed || state == Cancelled
  }

  predicate Pending(a: Artifact) {
    a.mark != Cleaned
  }

  predicate Owns(artifacts: seq<Artifact>, r: Record) {
    exists i | 0 <= i < |artifacts| ::
      Pending(artifacts[i]) && artifacts[i].kind == CloudflareTxt && artifacts[i].record == r
  }

  ghost function OrphansOf(live: set<Record>, unreported: set<Record>, artifacts: seq<Artifact>): set<Record> {
    set r | r in live && r !in unreported && !Owns(artifacts, r)
  }

  predicate OwnsInclude(artifacts: seq<Artifact>) {
    exists i | 0 <= i < |artifacts| :: Pending(artifacts[i]) && artifacts[i].kind == HttpInclude
  }

  predicate AllCleaned(artifacts: seq<Artifact>) {
    forall i | 0 <= i < |artifacts| :: !Pending(artifacts[i])
  }

  predicate SameTask(next: Task, task: Task) {
    next.challenge == task.challenge && next.credential == task.credential && next.renews == task.renews
  }

  predicate Same(r: Record, s: Record) {
    r == s
  }

  /** The artifacts that a task of this challenge can own. */
  predicate Fits(artifacts: seq<Artifact>, task: Task) {
    forall i | 0 <= i < |artifacts| ::
      artifacts[i].kind == (if task.challenge == Http01 then HttpInclude else CloudflareTxt)
      && (task.challenge == Dns01 ==> artifacts[i].credential == task.credential)
  }

  /**
   * The database row of one task with its artifacts, the zones and the live
   * configuration. A crash is a call from which on every call fails.
   */
  class World {
    const fates: nat -> Fate
    /** What the environment chooses: a cancellation, an interruption, staging, an uncertain release. */
    const chosen: nat -> bool
    var calls: nat
    var row: Task
    var artifacts: seq<Artifact>
    /** TXT records in place, how many were ever made, and those whose creation was reported as an error. */
    var live: set<Record>
    var made: nat
    var unreported: set<Record>
    /** Whether the include of this task is in the live configuration. */
    var published: bool

    constructor (task: Task, fates: nat -> Fate, chosen: nat -> bool)
      ensures row == task && artifacts == [] && live == {} == unreported && made == 0 && !published
      ensures this.fates == fates && this.chosen == chosen
    {
      this.fates, this.chosen, calls := fates, chosen, 0;
      row, artifacts, live, made, unreported, published := task, [], {}, 0, {}, false;
    }

    /** Records in place that nobody promises to clean, although their creation was reported. */
    ghost function Orphans(): set<Record>
      reads this
    {
      OrphansOf(live, unreported, artifacts)
    }

    /** An include in place has an artifact that is not cleaned: ownership is stored before the publication. */
    ghost predicate IncludeIsOwned()
      reads this
    {
      published ==> OwnsInclude(artifacts)
    }

    /** Only a record whose creation was reported as an error may be left when the task has settled. */
    ghost predicate NothingLeft()
      reads this
    {
      AllCleaned(artifacts) && !published && live <= unreported
    }

    /** What holds of a task between any two calls of its run. */
    ghost predicate Guarded()
      reads this
    {
      && IncludeIsOwned() && Fits(artifacts, row) && (Settled(row.state) ==> NothingLeft())
      && (row.challenge == Http01 ==> Orphans() == {}) && forall r, s | r in Orphans() && s in Orphans() :: Same(r, s)
    }

    /** Every call works and nothing is chosen. */
    ghost predicate Smooth() {
      forall n :: fates(n).Works? && !chosen(n)
    }

    method Choose() returns (yes: bool)
      modifies this`calls
      ensures Smooth() ==> !yes
    {
      calls := calls + 1;
      yes := chosen(calls - 1);
    }

    /** One answer of the ACME server, the vault, a read, or the clock. */
    method Ask() returns (ok: bool)
      modifies this`calls
      ensures Smooth() ==> ok
    {
      calls := calls + 1;
      ok := fates(calls - 1).Works?;
    }

    // ----- the database

    /** One compare-and-set on the row that appends the next stage; an ended task stays as it is. */
    method Transition(task: Task, state: State, step: Step) returns (next: Task, ok: bool)
      modifies this`calls, this`row
      ensures row == old(row)
          || (task == old(row) && !Terminal(task.state)
             && row == task.(state := state, step := step, log := task.log + [step]))
      ensures if ok then next == row == task.(state := state, step := step, log := task.log + [step])
          && !Terminal(task.state) else next == task
      ensures Smooth() && task == old(row) && !Terminal(task.state) ==> ok
    {
      calls := calls + 1;
      var after := task.(state := state, step := step, log := task.log + [step]);
      if fates(calls - 1).Fails? || row != task || Terminal(row.state) {
        return task, false;
      }
      row := after;
      if fates(calls - 1).Lost? {
        return task, false;
      }
      return after, true;
    }

    method CreateArtifact(a: Artifact) returns (ok: bool)
      modifies this`calls, this`artifacts
      ensures artifacts == old(artifacts) || artifacts == old(artifacts) + [a]
      ensures ok ==> artifacts == old(artifacts) + [a]
      ensures Smooth() ==> ok
    {
      calls := calls + 1;
      if !fates(calls - 1).Fails? {
        artifacts := artifacts + [a];
      }
      ok := fates(calls - 1).Works?;
    }

    /** Only a created artifact changes its mark. */
    method UpdateArtifact(i: nat, mark: Mark) returns (ok: bool)
      requires i < |artifacts| && mark != Created
      modifies this`calls, this`artifacts
      ensures artifacts == old(artifacts) || artifacts == old(artifacts)[i := old(artifacts)[i].(mark := mark)]
      ensures ok ==> artifacts == old(artifacts)[i := old(artifacts)[i].(mark := mark)]
      ensures Smooth() && old(artifacts)[i].mark == Created ==> ok
    {
      calls := calls + 1;
      if artifacts[i].mark != Created {
        return false;
      }
      if !fates(calls - 1).Fails? {
        artifacts := artifacts[i := artifacts[i].(mark := mark)];
      }
      ok := fates(calls - 1).Works?;
    }

    // ----- the zones and the configuration

    method CreateTxt(zone: nat) returns (record: Record, ok: bool)
      modifies this`calls, this`live, this`made, this`unreported
      ensures Smooth() ==> ok
      ensures made == old(made) + 1 && record == Record(zone, old(made))
      ensures if ok then live == old(live) + {record} && unreported == old(unreported)
              else (live == old(live) && unreported == old(unreported))
                   || (live == old(live) + {record} && unreported == old(unreported) + {record})
    {
      calls := calls + 1;
      record := Record(zone, made);
      made := made + 1;
      ok := fates(calls - 1).Works?;
      if !fates(calls - 1).Fails? {
        live := live + {record};
        unreported := if ok then unreported else unreported + {record};
      }
    }

    method DeleteRecord(record: Record) returns (ok: bool)
      modifies this`calls, this`live
      ensures live == old(live) || live == old(live) - {record}
      ensures ok ==> live == old(live) - {record}
      ensures Smooth() ==> ok
    {
      calls := calls + 1;
      if !fates(calls - 1).Fails? {
        live := live - {record};
      }
      ok := fates(calls - 1).Works?;
    }

    /** A release of the configuration with or without the include. */
    method Publish(present: bool) returns (ok: bool)
      modifies this`calls, this`published
      ensures published == present || published == old(published)
      ensures ok ==> published == present
      ensures Smooth() ==> ok
    {
      calls := calls + 1;
      if !fates(calls - 1).Fails? {
        published := present;
      }
      ok := fates(calls - 1).Works?;
    }
  }

  // ----- cleaning

  /** Deletes every record that an artifact names, and marks the artifact only then. */
  method CleanupDns(w: World, credential: nat) returns (ok: bool)
    modifies w`calls, w`live, w`artifacts
    ensures w.Orphans() == old(w.Orphans()) && w.live <= old(w.live)
    ensures SameArtifacts(old(w.artifacts), w.artifacts)
    ensures ok ==> AllCleaned(w.artifacts)
    ensures !OwnsInclude(old(w.artifacts)) && ok ==> !OwnsInclude(w.artifacts)
    ensures OwnsInclude(old(w.artifacts)) ==> OwnsInclude(w.artifacts)
    ensures w.Smooth() && AllCreated(old(w.artifacts), CloudflareTxt, credential) ==> ok
  {
    var read := w.Ask();
    if !read {
      return false;
    }
    ok := true;
    ghost var before := w.artifacts;
    for i := 0 to |w.artifacts|
      invariant |w.artifacts| == |before| && SameArtifacts(before, w.artifacts)
      invariant forall k | i <= k < |before| :: w.artifacts[k] == before[k]
      invariant forall k | 0 <= k < i && Pending(w.artifacts[k]) :: !ok
      invariant w.Smooth() && AllCreated(before, CloudflareTxt, credential) ==> ok
      invariant forall k | 0 <= k < |before| && before[k].kind == HttpInclude :: w.artifacts[k] == before[k]
      invariant w.Orphans() == old(w.Orphans()) && w.live <= old(w.live)
    {
      var a := w.artifacts[i];
      if Pending(a) {
        if a.kind != CloudflareTxt || a.credential != credential {
          ok := false;
        } else {
          ghost var artifacts, live := w.artifacts, w.live;
          var deleted := w.DeleteRecord(a.record);
          if !deleted {
            ok := false;
          } else {
            var marked := w.UpdateArtifact(i, Cleaned);
            ok := ok && marked;
          }
        }
      }
    }
  }

  predicate AllCreated(artifacts: seq<Artifact>, kind: Kind, credential: nat) {
    forall i | 0 <= i < |artifacts| ::
        artifacts[i].kind == kind && artifacts[i].mark == Created && artifacts[i].credential == credential
  }

  /** The same artifacts, of which some that were only created may have another mark now. */
  predicate SameArtifacts(before: seq<Artifact>, after: seq<Artifact>) {
    |after| == |before| && forall i | 0 <= i < |before| ::
      after[i].(mark := before[i].mark) == before[i] && (!Pending(before[i]) ==> after[i] == before[i])
  }

  /** Removes the include of the only created artifact, and marks the artifact only then. */
  method CleanupHttp(w: World) returns (ok: bool)
    requires w.IncludeIsOwned()
    modifies w`calls, w`published, w`artifacts
    ensures w.IncludeIsOwned() && SameArtifacts(old(w.artifacts), w.artifacts)
    ensures forall i | 0 <= i < |w.artifacts| && w.artifacts[i].kind == CloudflareTxt ::
        w.artifacts[i] == old(w.artifacts[i])
    ensures ok ==> !w.published && !OwnsInclude(w.artifacts)
    ensures w.Smooth() && |old(w.artifacts)| == 1 && AllCreated(old(w.artifacts), HttpInclude, 0) ==> ok
  {
    var task := w.Ask();
    if !task {
      return false;
    }
    var read := w.Ask();
    if !read {
      return false;
    }
    var created: seq<nat> := [];
    for i := 0 to |w.artifacts|
      invariant |created| <= i
      invariant forall k | k in created :: k < i && w.artifacts[k].kind == HttpInclude && w.artifacts[k].mark == Created
      invariant forall k | 0 <= k < i && w.artifacts[k].kind == HttpInclude && Pending(w.artifacts[k]) :: k in created
    {
      if w.artifacts[i].kind == HttpInclude {
        match w.artifacts[i].mark
        case Created => created := created + [i];
        case Cleaned =>
        case Doubtful => return false;
      }
    }
    if created == [] {
      return true;
    }
    if |created| != 1 {
      return false;
    }
    var only := created[0];
    ghost var before := w.artifacts;
    var removed := w.Publish(false);
    assert OwnsInclude(w.artifacts) by { assert only in created && Pending(w.artifacts[only]); }
    if !removed {
      var uncertain := w.Choose();
      if uncertain {
        var _ := w.UpdateArtifact(only, Doubtful);
        assert Pending(w.artifacts[only]) && w.artifacts[only].kind == HttpInclude;
      }
      return false;
    }
    ok := w.UpdateArtifact(only, Cleaned);
  }

  /** What a whole provisioning leaves behind. */
  predicate Fresh(artifacts: seq<Artifact>, task: Task) {
    match task.challenge
    case Http01 => |artifacts| == 1 && AllCreated(artifacts, HttpInclude, 0)
    case Dns01 => AllCreated(artifacts, CloudflareTxt, task.credential)
  }

  lemma AllAccountedFor(w: World)
    requires AllCleaned(w.artifacts) && w.Orphans() == {}
    ensures w.live <= w.unreported
  {
    forall r | r in w.live ensures r in w.unreported {
      assert r !in w.Orphans() && !Owns(w.artifacts, r);
    }
  }

  /** The cleanup that a failed or finished challenge runs: none when nothing was provisioned. */
  method Cleanup(w: World, task: Task, provisioned: bool) returns (ok: bool)
    requires w.IncludeIsOwned() && Fits(w.artifacts, task) && (!provisioned ==> w.artifacts == [])
    modifies w`calls, w`published, w`artifacts, w`live
    ensures w.IncludeIsOwned() && Fits(w.artifacts, task) && w.Orphans() == old(w.Orphans())
    ensures ok ==> AllCleaned(w.artifacts) && !w.published && (old(w.Orphans()) == {} ==> w.NothingLeft())
    ensures SameArtifacts(old(w.artifacts), w.artifacts) && w.live <= old(w.live)
    ensures w.Smooth() && (provisioned ==> Fresh(old(w.artifacts), task)) ==> ok
  {
    if !provisioned {
      if w.Orphans() == {} { AllAccountedFor(w); }
      return true;
    }
    match task.challenge {
      case Http01 =>
        ok := CleanupHttp(w);
        OwnersKept(old(w.artifacts), w.artifacts);
      case Dns01 =>
        ok := CleanupDns(w, task.credential);
    }
    if AllCleaned(w.artifacts) && w.Orphans() == {} { AllAccountedFor(w); }
  }

  lemma OwnersKept(before: seq<Artifact>, after: seq<Artifact>)
    requires SameArtifacts(before, after)
    requires forall i | 0 <= i < |after| && after[i].kind == CloudflareTxt :: after[i] == before[i]
    ensures forall r: Record :: Owns(before, r) <==> Owns(after, r)
  {
    forall r: Record | Owns(before, r) ensures Owns(after, r) {
      var i :| 0 <= i < |before| && Pending(before[i]) && before[i].kind == CloudflareTxt && before[i].record == r;
      assert after[i] == before[i];
    }
  }

  // ----- provisioning

  /** Stores the promise to clean before anything is published. */
  method ProvisionHttp(w: World) returns (ok: bool)
    requires w.IncludeIsOwned()
    modifies w`calls, w`artifacts, w`published
    ensures w.IncludeIsOwned()
    ensures w.artifacts == old(w.artifacts)
        || (old(w.artifacts) == [] && |w.artifacts| == 1 && w.artifacts[0].kind == HttpInclude)
    ensures ok ==> w.published && |w.artifacts| == 1 && AllCreated(w.artifacts, HttpInclude, 0)
    ensures w.Smooth() && old(w.artifacts) == [] ==> ok
  {
    var existing := w.Ask();
    if !existing || w.artifacts != [] {
      return false;
    }
    var prepared := w.Ask();
    if !prepared {
      return false;
    }
    var artifact := Artifact(HttpInclude, Created, 0, Record(0, 0));
    var stored := w.CreateArtifact(artifact);
    if !stored {
      return false;
    }
    assert Pending(w.artifacts[0]);
    var published := w.Publish(true);
    if !published {
      return false;
    }
    ok := w.Ask();
  }

  /** What provisioning came to: without a cleanup nothing was done; a doubt means that a record may be left behind. */
  datatype Provisioned = Ready | Refused | Broken(doubt: bool)

  lemma OwnersGrow(before: seq<Artifact>, after: seq<Artifact>)
    requires before <= after
    ensures forall r: Record | Owns(before, r) :: Owns(after, r)
  {
    forall r: Record | Owns(before, r) ensures Owns(after, r) {
      var i :| 0 <= i < |before| && Pending(before[i]) && before[i].kind == CloudflareTxt && before[i].record == r;
      assert after[i] == before[i];
    }
  }

  lemma OnlyOrphan(live: set<Record>, now: set<Record>, unreported: set<Record>, before: seq<Artifact>,
                   after: seq<Artifact>, record: Record)
    requires OrphansOf(live, unreported, before) == {} && now <= live + {record} && before <= after
    ensures forall r | r in OrphansOf(now, unreported, after) :: r == record
  {
    OwnersGrow(before, after);
    assert forall r | r in live && r !in unreported :: r !in OrphansOf(live, unreported, before);
  }

  /** Creates one record and stores its owner, or deletes it again. */
  method ProvisionRecord(w: World, credential: nat, zone: nat) returns (outcome: Provisioned)
    requires w.Orphans() == {}
    modifies w`calls, w`artifacts, w`live, w`made, w`unreported
    ensures w.artifacts == old(w.artifacts) || Adds(old(w.artifacts), w.artifacts, credential)
    ensures w.Orphans() != {} ==> outcome == Broken(true)
    ensures forall r, s | r in w.Orphans() && s in w.Orphans() :: Same(r, s)
    ensures outcome == Ready ==> Adds(old(w.artifacts), w.artifacts, credential)
    ensures outcome != Refused && (w.Smooth() ==> outcome == Ready)
  {
    ghost var before, live := w.artifacts, w.live;
    var found := w.Ask();
    if !found {
      return Broken(false);
    }
    var record, created := w.CreateTxt(zone);
    if !created {
      return Broken(false);
    }
    var stored := false;
    var identified := w.Ask();
    if identified {
      stored := w.CreateArtifact(Artifact(CloudflareTxt, Created, credential, record));
      OwnersGrow(before, w.artifacts);
    }
    if !stored {
      var deleted := w.DeleteRecord(record);
      OnlyOrphan(live, w.live, w.unreported, before, w.artifacts, record);
      return Broken(!deleted);
    }
    assert Owns(w.artifacts, record) by { assert Pending(w.artifacts[|before|]); }
    var observed := w.Ask();
    if !observed {
      return Broken(false);
    }
    var propagated := w.Ask();
    return if propagated then Ready else Broken(false);
  }

  /** One created artifact more. */
  predicate Adds(before: seq<Artifact>, after: seq<Artifact>, credential: nat) {
    |after| == |before| + 1 && after[..|before|] == before && AllCreated(after[|before|..], CloudflareTxt, credential)
  }

  lemma AddsMore(first: seq<Artifact>, before: seq<Artifact>, after: seq<Artifact>, credential: nat)
    requires first <= before && AllCreated(before[|first|..], CloudflareTxt, credential)
    requires Adds(before, after, credential)
    ensures first <= after && AllCreated(after[|first|..], CloudflareTxt, credential)
  {
    forall i | 0 <= i < |after| - |first|
      ensures after[|first|..][i] == if |first| + i < |before| then before[|first|..][i] else after[|before|..][0]
    {
    }
  }

  /** Creates the records one after the other and waits for each. */
  method ProvisionDns(w: World, credential: nat, authorizations: nat) returns (outcome: Provisioned)
    requires w.Orphans() == {}
    modifies w`calls, w`artifacts, w`live, w`made, w`unreported
    ensures old(w.artifacts) <= w.artifacts && AllCreated(w.artifacts[|old(w.artifacts)|..], CloudflareTxt, credential)
    ensures w.Orphans() != {} ==> outcome == Broken(true)
    ensures forall r, s | r in w.Orphans() && s in w.Orphans() :: Same(r, s)
    ensures outcome == Refused
        ==> w.artifacts == old(w.artifacts) && w.live == old(w.live) && w.unreported == old(w.unreported)
    ensures outcome == Ready ==> |w.artifacts| == |old(w.artifacts)| + authorizations
    ensures w.Smooth() ==> outcome == Ready
  {
    var token := w.Ask();
    if !token {
      return Refused;
    }
    var used := w.Ask();
    if !used {
      return Refused;
    }
    for k := 0 to authorizations
      invariant w.Orphans() == {} && |w.artifacts| == |old(w.artifacts)| + k
      invariant old(w.artifacts) <= w.artifacts
      invariant AllCreated(w.artifacts[|old(w.artifacts)|..], CloudflareTxt, credential)
    {
      ghost var before := w.artifacts;
      outcome := ProvisionRecord(w, credential, k);
      if w.artifacts != before { AddsMore(old(w.artifacts), before, w.artifacts, credential); }
      if outcome != Ready {
        return;
      }
    }
    return Ready;
  }

  // ----- one run

  lemma NothingIsOrphaned(w: World)
    requires w.NothingLeft() && Fits(w.artifacts, w.row)
    ensures w.Guarded() && w.Orphans() == {}
  {
  }

  method Advance(w: World, task: Task, step: Step) returns (next: Task, ok: bool)
    requires task == w.row
    modifies w`calls, w`row
    ensures SameTask(w.row, old(w.row)) && (Terminal(w.row.state) <==> Terminal(old(w.row).state))
    ensures Terminal(old(w.row).state) ==> w.row == task && !ok
    ensures ok ==> next == w.row == task.(state := Running, step := step, log := task.log + [step])
    ensures w.Smooth() && !Terminal(task.state) ==> ok
  {
    next, ok := w.Transition(task, Running, step);
  }

  method Attend(w: World, task: Task)
    modifies w`calls, w`row
    ensures SameTask(w.row, old(w.row)) && (w.row.state == old(w.row).state || w.row.state == NeedsAttention)
    ensures Terminal(old(w.row).state) ==> w.row == old(w.row)
  {
    if Terminal(task.state) {
      return;
    }
    var _, _ := w.Transition(task, NeedsAttention, AtNeedsAttention);
  }

  /** Fails the task, or cancels it when it was interrupted because of that. */
  method Fail(w: World, task: Task)
    modifies w`calls, w`row
    ensures SameTask(w.row, old(w.row))
    ensures (w.row.state == old(w.row).state || w.row.state == Failed || w.row.state == Cancelled)
    ensures Terminal(old(w.row).state) ==> w.row == old(w.row)
  {
    if Terminal(task.state) {
      return;
    }
    var interrupted := w.Choose();
    if interrupted {
      var requested := w.Choose();
      if requested {
        Cancel(w, w.row);
        return;
      }
    }
    if task.renews {
      var renewal := w.Ask();
      if !renewal {
        return;
      }
    }
    var _, _ := w.Transition(task, Failed, AtFailed);
  }

  method Cancel(w: World, task: Task)
    modifies w`calls, w`row
    ensures SameTask(w.row, old(w.row)) && (w.row.state == old(w.row).state || w.row.state == Cancelled)
    ensures Terminal(old(w.row).state) ==> w.row == old(w.row)
  {
    if Terminal(task.state) {
      return;
    }
    var _, _ := w.Transition(task, Cancelled, AtCancelled);
  }

  /** Finalises the order and deploys the certificate, when all challenges are cleaned. */
  method Issue(w: World, task: Task)
    requires task == w.row
    modifies w`calls, w`row
    ensures SameTask(w.row, old(w.row))
    ensures w.Smooth() && !Terminal(task.state) ==>
      w.row.state == Succeeded && w.row.log == task.log + [Finalizing, Validating, Deploying, Completed]
  {
    var current, ok := Advance(w, task, Finalizing);
    if !ok { return; }
    ok := w.Ask();
    if !ok { Fail(w, current); return; }
    current, ok := Advance(w, current, Validating);
    if !ok { return; }
    ok := w.Ask();
    if !ok { Fail(w, current); return; }
    var staging := w.Choose();
    if staging {
      var _, _ := w.Transition(current, Succeeded, Completed);
      return;
    }
    ok := w.Ask();
    if !ok { Fail(w, current); return; }
    current, ok := Advance(w, current, Deploying);
    if !ok { return; }
    ok := w.Ask();
    if !ok {
      var uncertain := w.Choose();
      if uncertain { Attend(w, current); return; }
      var deleted := w.Ask();
      if !deleted { Attend(w, current); return; }
      Fail(w, current);
      return;
    }
    var released := w.Ask();
    if !released { Attend(w, current); return; }
    if current.renews {
      var renewable := w.Ask();
      if !renewable { Attend(w, current); return; }
    }
    ok := w.Ask();
    if !ok { Fail(w, current); return; }
    var next, committed := w.Transition(current, Succeeded, Completed);
    if !committed { Attend(w, current); }
  }

  /** Provisions the challenges, has them accepted and cleans them again. */
  method Solve(w: World, task: Task, authorizations: nat)
    requires task == w.row && !Terminal(task.state) && w.artifacts == [] && w.NothingLeft()
    modifies w`calls, w`row, w`artifacts, w`live, w`made, w`unreported, w`published
    ensures w.Guarded() && SameTask(w.row, old(w.row))
    ensures w.Orphans() != {} ==> !Settled(w.row.state)
    ensures w.Smooth() ==>
      w.row.state == Succeeded
        && w.row.log == task.log + [Authorizing, Cleaning, Finalizing, Validating, Deploying, Completed]
  {
    var outcome := Provision(w, task, authorizations);
    if outcome.Broken? || outcome == Refused {
      var cleaned := Cleanup(w, task, outcome.Broken?);
      if !cleaned || outcome == Broken(true) {
        Attend(w, task);
      } else {
        Fail(w, task);
      }
      return;
    }
    var current, ok := Advance(w, task, Authorizing);
    if !ok { return; }
    ok := Authorize(w, current, authorizations);
    if !ok { return; }
    Conclude(w, current, authorizations > 0);
  }

  /** Cleans the accepted challenges before the order is finalised. */
  method Conclude(w: World, task: Task, provisioned: bool)
    requires task == w.row && !Terminal(task.state) && w.Guarded() && w.Orphans() == {}
    requires (!provisioned ==> w.artifacts == [])
    modifies w`calls, w`row, w`artifacts, w`live, w`published
    ensures w.Guarded() && w.Orphans() == {} && SameTask(w.row, old(w.row))
    ensures w.Smooth() && (provisioned ==> Fresh(old(w.artifacts), task)) ==>
      w.row.state == Succeeded && w.NothingLeft()
        && w.row.log == task.log + [Cleaning, Finalizing, Validating, Deploying, Completed]
  {
    var current, ok := Advance(w, task, Cleaning);
    if !ok { return; }
    ok := Cleanup(w, current, provisioned);
    if !ok { Attend(w, current); return; }
    Issue(w, current);
    NothingIsOrphaned(w);
  }

  method Authorize(w: World, task: Task, authorizations: nat) returns (ok: bool)
    requires task == w.row && !Terminal(task.state) && w.Guarded() && w.Orphans() == {}
    modifies w`calls, w`row, w`artifacts, w`live, w`published
    ensures w.Guarded() && w.Orphans() == {} && SameTask(w.row, task)
    ensures w.Smooth() ==> ok
    ensures ok ==> w.row == task && w.artifacts == old(w.artifacts) && w.live == old(w.live)
                   && w.published == old(w.published)
  {
    for k := 0 to authorizations
      invariant unchanged(w`row) && unchanged(w`artifacts) && unchanged(w`live) && unchanged(w`published)
    {
      var accepted := w.Ask();
      if !accepted { Retreat(w, task); return false; }
      var authorized := w.Ask();
      if !authorized { Retreat(w, task); return false; }
    }
    return true;
  }

  /** Cleans and fails, or keeps what could not be cleaned for attention. */
  method Retreat(w: World, task: Task)
    requires task == w.row && !Terminal(task.state) && w.Guarded() && w.Orphans() == {}
    modifies w`calls, w`row, w`artifacts, w`live, w`published
    ensures w.Guarded() && w.Orphans() == {} && SameTask(w.row, task)
  {
    var cleaned := Cleanup(w, task, true);
    if !cleaned {
      Attend(w, task);
    } else {
      Fail(w, task);
    }
  }

  /** An order without open authorizations needs no challenge. */
  method Provision(w: World, task: Task, authorizations: nat) returns (outcome: Provisioned)
    requires task == w.row && !Terminal(task.state) && w.artifacts == [] && w.NothingLeft()
    modifies w`calls, w`artifacts, w`live, w`made, w`unreported, w`published
    ensures w.Guarded() && (w.Orphans() != {} ==> outcome == Broken(true))
    ensures outcome == Refused || authorizations == 0 ==> w.artifacts == []
    ensures w.Smooth() ==> outcome == Ready
    ensures outcome == Ready && authorizations > 0 ==> Fresh(w.artifacts, task)
  {
    if authorizations == 0 {
      NothingIsOrphaned(w);
      return Ready;
    }
    match task.challenge
    case Dns01 =>
      outcome := ProvisionDns(w, task.credential, authorizations);
    case Http01 =>
      var responses := w.Ask();
      if !responses {
        return Refused;
      }
      var provisioned := ProvisionHttp(w);
      outcome := if provisioned then Ready else Broken(false);
  }

  /** The stages of an order that nothing disturbs. */
  function Path(challenge: Challenge): seq<Step> {
    [Preparing, Ordering, Provisioning] + (if challenge == Dns01 then [Propagating] else [])
    + [Authorizing, Cleaning, Finalizing, Validating, Deploying, Completed]
  }

  /** Runs one queued task, whatever any call comes to. */
  method Run(w: World, authorizations: nat)
    requires w.row.state == Queued ==> w.artifacts == [] && w.NothingLeft()
    requires w.Guarded()
    modifies w`calls, w`row, w`artifacts, w`live, w`made, w`unreported, w`published
    ensures w.Guarded() && SameTask(w.row, old(w.row))
    ensures w.Orphans() != old(w.Orphans()) ==> !Settled(w.row.state)
    ensures w.Smooth() && old(w.row.state) == Queued && old(w.row.step) == AtQueued ==>
      w.row.state == Succeeded && w.NothingLeft() && w.row.log == old(w.row.log) + Path(w.row.challenge)
  {
    var task := w.row;
    if task.state != Queued || task.step != AtQueued { return; }
    NothingIsOrphaned(w);
    var requested := w.Choose();
    if requested { Cancel(w, task); return; }
    var ok := w.Ask();
    if !ok { Fail(w, task); return; }
    task, ok := Advance(w, task, Preparing);
    if !ok { return; }
    ok := w.Ask();
    if !ok { Fail(w, task); return; }
    task, ok := Advance(w, task, Ordering);
    if !ok { return; }
    ok := w.Ask();
    if !ok { Fail(w, task); return; }
    task, ok := Advance(w, task, Provisioning);
    if !ok { return; }
    if task.challenge == Dns01 {
      task, ok := Advance(w, task, Propagating);
      if !ok { return; }
    }
    Solve(w, task, authorizations);
  }

  // ----- after an interruption

  /** Cleans what the artifacts promise, then ends the task. */
  method Reconcile(w: World)
    requires w.Guarded() && !Terminal(w.row.state)
    modifies w`calls, w`row, w`artifacts, w`live, w`published
    ensures SameTask(w.row, old(w.row)) && w.IncludeIsOwned() && Fits(w.artifacts, w.row)
    ensures w.Orphans() == old(w.Orphans())
    ensures w.row.state == Failed
        ==> AllCleaned(w.artifacts) && !w.published && (w.NothingLeft() <==> old(w.Orphans()) == {})
    ensures w.row.state == old(w.row.state) || w.row.state == Failed || w.row.state == NeedsAttention
    ensures w.Smooth() && Fresh(old(w.artifacts), w.row) ==> w.row.state == Failed
  {
    var task := w.row;
    var cleaned := CleanupInterrupted(w, task);
    if cleaned && w.Orphans() == {} { AllAccountedFor(w); }
    var _, _ := w.Transition(task, if cleaned then Failed else NeedsAttention,
                             if cleaned then AtFailed else AtNeedsAttention);
  }

  /** Looks for what is not cleaned and cleans it with the means of its kind. */
  method CleanupInterrupted(w: World, task: Task) returns (ok: bool)
    requires w.IncludeIsOwned() && Fits(w.artifacts, task)
    modifies w`calls, w`artifacts, w`live, w`published
    ensures w.IncludeIsOwned() && Fits(w.artifacts, task) && w.Orphans() == old(w.Orphans())
    ensures ok ==> AllCleaned(w.artifacts) && !w.published
    ensures w.Smooth() && Fresh(old(w.artifacts), task) ==> ok
  {
    var read := w.Ask();
    if !read { return false; }
    var hasHttp, hasDns := false, false;
    for i := 0 to |w.artifacts|
      invariant hasHttp || hasDns <==> exists k | 0 <= k < i :: Pending(w.artifacts[k])
      invariant hasHttp ==> exists k | 0 <= k < i :: Pending(w.artifacts[k]) && w.artifacts[k].kind == HttpInclude
      invariant hasDns ==> exists k | 0 <= k < i :: Pending(w.artifacts[k]) && w.artifacts[k].kind == CloudflareTxt
    {
      var a := w.artifacts[i];
      if Pending(a) {
        match a.kind
        case HttpInclude => hasHttp := true;
        case CloudflareTxt =>
          if a.credential != task.credential { return false; }
          hasDns := true;
      }
    }
    if hasHttp && hasDns { return false; }
    if hasHttp {
      ok := CleanupHttp(w);
      OwnersKept(old(w.artifacts), w.artifacts);
      return;
    }
    if hasDns {
      var token := w.Ask();
      if !token { return false; }
      ok := CleanupDns(w, task.credential);
      return;
    }
    return true;
  }

  /** A run, cut anywhere by a crash, and the reconciliation that the next process makes of it. */
  method RunAndReconcile(w: World, authorizations: nat)
    requires w.row.state == Queued && w.artifacts == [] && w.NothingLeft()
    modifies w
    ensures w.row.challenge == Http01 && Settled(w.row.state) ==> w.NothingLeft()
    ensures Settled(w.row.state) ==> AllCleaned(w.artifacts) && !w.published
    ensures forall r, s | r in w.Orphans() && s in w.Orphans() :: Same(r, s)
    ensures w.row.state == Succeeded || w.row.state == Cancelled ==> w.NothingLeft()
  {
    NothingIsOrphaned(w);
    Run(w, authorizations);
    if !Terminal(w.row.state) {
      Reconcile(w);
    }
  }
}
