// Which backups a retention plan deletes (internal/config/recovery_service.go).
module RetentionPlan {
  import opened Outcomes
  import Bytes = ManifestBytes
  import Sorting

  type Id = Bytes.Bytes

  /** Times are seconds; `complete` sums up the checks on state, body and digests of a row. */
  datatype Backup = Backup(id: Id, createdAt: int, totalBytes: nat, manuallyProtected: bool, complete: bool)

  datatype Policy = Policy(minimumComplete: int, maximumComplete: int, maximumTotalBytes: int, minimumAge: int)

  predicate ValidPolicy(p: Policy) {
    p.minimumComplete >= 1 && p.maximumComplete >= p.minimumComplete && p.maximumTotalBytes > 0 && p.minimumAge >= 0
  }

  datatype Reason = ManualProtection | AttentionCase | MinimumComplete | MinimumAge | MaximumComplete
      | MaximumTotalBytes | PolicySatisfied

  datatype PlanError = Conflict | LimitExceeded

  datatype Item = Item(ordinal: nat, backup: Id, delete: bool, reason: Reason, createdAt: int, totalBytes: nat)

  datatype Plan = Plan(items: seq<Item>, backupCount: nat, totalBytes: nat, protectedCount: nat, deleteCount: nat,
                       deleteBytes: nat, unreachable: bool)

  const MAX_INT64 := 0x7FFF_FFFF_FFFF_FFFF

  // ----- oldest first

  function BackupLess(): (Backup, Backup) -> bool {
    (a: Backup, b: Backup) => a.createdAt < b.createdAt || (a.createdAt == b.createdAt && Bytes.Compare(a.id, b.id) < 0)
  }

  predicate DistinctIds(backups: seq<Backup>) {
    forall i, j | 0 <= i < j < |backups| :: backups[i].id != backups[j].id
  }

  lemma BackupOrder()
    ensures Sorting.StrictOrder(BackupLess())
  {
    forall x: Backup, y: Backup, z: Backup
      ensures !BackupLess()(x, x)
      ensures BackupLess()(x, y) && BackupLess()(y, z) ==> BackupLess()(x, z)
    {
      Bytes.CompareIsExact(x.id, x.id);
      if BackupLess()(x, y) && BackupLess()(y, z)
        && x.createdAt == z.createdAt { Bytes.CompareIsTransitive(x.id, y.id, z.id); }
    }
  }

  lemma DistinctAreComparable(backups: seq<Backup>)
    requires DistinctIds(backups)
    ensures Sorting.Comparable(BackupLess(), backups)
  {
    forall i, j | 0 <= i < j < |backups|
      ensures BackupLess()(backups[i], backups[j]) || BackupLess()(backups[j], backups[i])
    {
      Bytes.CompareIsExact(backups[i].id, backups[j].id);
    }
  }

  function OldestFirst(backups: seq<Backup>): (r: seq<Backup>)
    ensures |r| == |backups|
  {
    Sorting.Sorted(BackupLess(), backups)
  }

  // ----- what may be deleted, and how much has to be

  predicate IsNewest(policy: Policy, n: nat, i: nat) {
    i >= n - policy.minimumComplete
  }

  /** Nothing protects this backup and it is old enough. */
  predicate Eligible(backups: seq<Backup>, attention: set<Id>, policy: Policy, now: int, i: nat)
    requires i < |backups|
  {
    && !backups[i].manuallyProtected && backups[i].id !in attention && !IsNewest(policy, |backups|, i)
    && backups[i].createdAt <= now - policy.minimumAge
  }

  /** The first protection that applies; an eligible backup has none. */
  function Protection(backups: seq<Backup>, attention: set<Id>, policy: Policy, i: nat): Option<Reason>
    requires i < |backups|
  {
    if backups[i].manuallyProtected then Some(ManualProtection)
    else if backups[i].id in attention then Some(AttentionCase)
    else if IsNewest(policy, |backups|, i) then Some(MinimumComplete)
    else None
  }

  /** Why a backup is kept when it is not eligible, else the reason given. */
  function ReasonOf(backups: seq<Backup>, attention: set<Id>, policy: Policy, now: int, i: nat, other: Reason): Reason
    requires i < |backups|
  {
    match Protection(backups, attention, policy, i)
    case Some(reason) => reason
    case None => if Eligible(backups, attention, policy, now, i) then other else MinimumAge
  }

  /** The positions of the eligible backups among the first n, oldest first. */
  function Candidates(backups: seq<Backup>, attention: set<Id>, policy: Policy, now: int, n: nat): (r: seq<nat>)
    requires n <= |backups|
    ensures |r| <= n && forall k | 0 <= k < |r| :: r[k] < n && Eligible(backups, attention, policy, now, r[k])
  {
    if n == 0 then []
    else
      Candidates(backups, attention, policy, now, n - 1)
      + if Eligible(backups, attention, policy, now, n - 1) then [n - 1] else []
  }

  lemma {:induction false} CandidatesAreAll(backups: seq<Backup>, attention: set<Id>, policy: Policy, now: int, n: nat)
    requires n <= |backups|
    ensures var r := Candidates(backups, attention, policy, now, n);
      && (forall i | 0 <= i < n :: Eligible(backups, attention, policy, now, i) <==> i in r)
      && forall j, k | 0 <= j < k < |r| :: r[j] < r[k]
    decreases n
  {
    if n > 0 { CandidatesAreAll(backups, attention, policy, now, n - 1); }
  }

  function SumBytes(backups: seq<Backup>): nat {
    if backups == [] then 0 else SumBytes(backups[..|backups| - 1]) + backups[|backups| - 1].totalBytes
  }

  function BytesAt(backups: seq<Backup>, places: seq<nat>): nat
    requires forall k | 0 <= k < |places| :: places[k] < |backups|
  {
    if places == [] then 0 else BytesAt(backups, places[..|places| - 1]) + backups[places[|places| - 1]].totalBytes
  }

  /** The bounds are exceeded after deleting the k oldest candidates. */
  predicate Exceeds(backups: seq<Backup>, candidates: seq<nat>, policy: Policy, k: nat)
    requires k <= |candidates| && forall i | 0 <= i < |candidates| :: candidates[i] < |backups|
  {
    |backups| - k > policy.maximumComplete
      || SumBytes(backups) - BytesAt(backups, candidates[..k]) > policy.maximumTotalBytes
  }

  /** The plan deletes the k oldest candidates: as few as bring the backups within bounds, or all of them. */
  predicate Shortest(backups: seq<Backup>, candidates: seq<nat>, policy: Policy, k: nat)
    requires k <= |candidates| && forall i | 0 <= i < |candidates| :: candidates[i] < |backups|
  {
    && (forall j | 0 <= j < k :: Exceeds(backups, candidates, policy, j))
    && (k < |candidates| ==> !Exceeds(backups, candidates, policy, k))
  }

  /** What happens to an eligible backup once all eligible ones before it are deleted. */
  function EligibleReason(backups: seq<Backup>, attention: set<Id>, policy: Policy, now: int, i: nat): Reason
    requires i < |backups|
  {
    var before := Candidates(backups, attention, policy, now, i);
    if |backups| - |before| > policy.maximumComplete then MaximumComplete
    else if SumBytes(backups) - BytesAt(backups, before) > policy.maximumTotalBytes then MaximumTotalBytes
    else PolicySatisfied
  }

  function ExactReason(backups: seq<Backup>, attention: set<Id>, policy: Policy, now: int, i: nat): Reason
    requires i < |backups|
  {
    ReasonOf(backups, attention, policy, now, i, EligibleReason(backups, attention, policy, now, i))
  }

  /** Which items a plan deletes, and its totals. */
  ghost predicate IsPlan(backups: seq<Backup>, attention: set<Id>, policy: Policy, now: int, plan: Plan, k: nat) {
    var candidates := Candidates(backups, attention, policy, now, |backups|);
    && k <= |candidates| && Shortest(backups, candidates, policy, k)
    && |plan.items| == |backups| == plan.backupCount
    && (forall i | 0 <= i < |backups| ::
         && plan.items[i].ordinal == i && plan.items[i].backup == backups[i].id
         && plan.items[i].createdAt == backups[i].createdAt && plan.items[i].totalBytes == backups[i].totalBytes
         && plan.items[i].delete == (i in candidates[..k]))
    && (forall i | 0 <= i < |backups| ::
       plan.items[i].reason == ExactReason(backups, attention, policy, now, i))
    && plan.totalBytes == SumBytes(backups) <= MAX_INT64
    && plan.deleteCount == k && plan.deleteBytes == BytesAt(backups, candidates[..k])
    && plan.unreachable == Exceeds(backups, candidates, policy, k)
  }

  function KeptBytes(items: seq<Item>): nat {
    if items == [] then 0
    else KeptBytes(items[..|items| - 1]) + if items[|items| - 1].delete then 0 else items[|items| - 1].totalBytes
  }

  // ----- consequences

  lemma {:induction false} BytesAtPrefix(backups: seq<Backup>, places: seq<nat>, j: nat, k: nat)
    requires j <= k <= |places| && forall i | 0 <= i < |places| :: places[i] < |backups|
    ensures BytesAt(backups, places[..j]) <= BytesAt(backups, places[..k])
    decreases k
  {
    if j < k {
      assert places[..k][..k - 1] == places[..k - 1];
      BytesAtPrefix(backups, places, j, k - 1);
    }
  }

  /** The number of deletions is determined: no plan with the same bounds deletes more or fewer. */
  lemma ShortestIsUnique(backups: seq<Backup>, candidates: seq<nat>, policy: Policy, j: nat, k: nat)
    requires forall i | 0 <= i < |candidates| :: candidates[i] < |backups|
    requires j <= |candidates| && k <= |candidates|
    requires Shortest(backups, candidates, policy, j) && Shortest(backups, candidates, policy, k)
    ensures j == k
  {
  }

  /**
   * Deleting more candidates never exceeds a bound again, so the plan is unreachable exactly when
   * even all of them do not help.
   */
  lemma UnreachableIsExact(backups: seq<Backup>, candidates: seq<nat>, policy: Policy, k: nat)
    requires forall i | 0 <= i < |candidates| :: candidates[i] < |backups|
    requires k <= |candidates| && Shortest(backups, candidates, policy, k)
    ensures Exceeds(backups, candidates, policy, k) <==> Exceeds(backups, candidates, policy, |candidates|)
  {
    BytesAtPrefix(backups, candidates, k, |candidates|);
  }

  lemma {:induction false} AscendingIsBounded(r: seq<nat>, k: nat)
    requires k < |r| && forall i, j | 0 <= i < j < |r| :: r[i] < r[j]
    ensures r[k] >= k
    decreases k
  {
    if k > 0 { AscendingIsBounded(r, k - 1); }
  }

  /** Only eligible backups are deleted, and at least the configured minimum survives, the newest among them. */
  lemma MinimumSurvives(backups: seq<Backup>, attention: set<Id>, policy: Policy, now: int, plan: Plan, k: nat)
    requires ValidPolicy(policy) && IsPlan(backups, attention, policy, now, plan, k)
    ensures forall i | 0 <= i < |backups| && plan.items[i].delete :: Eligible(backups, attention, policy, now, i)
    ensures |backups| - k >= if policy.minimumComplete < |backups| then policy.minimumComplete else |backups|
  {
    hide Shortest, Exceeds, BytesAt, SumBytes;
    var candidates := Candidates(backups, attention, policy, now, |backups|);
    CandidatesAreAll(backups, attention, policy, now, |backups|);
    if candidates != [] { AscendingIsBounded(candidates, |candidates| - 1); }
  }

  // ----- the plan on the list as it is given

  /** Older, or as old and with the id that comes first byte by byte. */
  ghost predicate Older(a: Backup, b: Backup) {
    a.createdAt < b.createdAt || (a.createdAt == b.createdAt && Bytes.Precedes(a.id, b.id))
  }

  ghost function NewerThan(backups: seq<Backup>, b: Backup): set<Backup> {
    set c | c in backups && Older(b, c)
  }

  ghost predicate AmongNewest(backups: seq<Backup>, policy: Policy, b: Backup) {
    |NewerThan(backups, b)| < policy.minimumComplete
  }

  ghost predicate MayBeDeleted(backups: seq<Backup>, attention: seq<Option<Id>>, policy: Policy, now: int, b: Backup) {
    && !b.manuallyProtected && Some(b.id) !in attention && !AmongNewest(backups, policy, b)
    && b.createdAt <= now - policy.minimumAge
  }

  /** What is deleted before b comes up, if everything that may be deleted is. */
  ghost function DeletableBefore(backups: seq<Backup>, attention: seq<Option<Id>>, policy: Policy, now: int,
                                 b: Backup): set<Backup> {
    set c | c in backups && Older(c, b) && MayBeDeleted(backups, attention, policy, now, c)
  }

  ghost function BytesOf(backups: seq<Backup>, chosen: set<Backup>): nat {
    if backups == [] then 0
    else BytesOf(backups[1..], chosen) + if backups[0] in chosen then backups[0].totalBytes else 0
  }

  ghost predicate TooMany(backups: seq<Backup>, policy: Policy, deleted: set<Backup>) {
    |backups| - |deleted| > policy.maximumComplete
  }

  ghost predicate TooManyBytes(backups: seq<Backup>, policy: Policy, deleted: set<Backup>) {
    BytesOf(backups, set b | b in backups) - BytesOf(backups, deleted) > policy.maximumTotalBytes
  }

  /** Whether a backup is deleted, and why or why not. */
  ghost predicate RightlyDecided(backups: seq<Backup>, attention: seq<Option<Id>>, policy: Policy, now: int, b: Backup,
                                 item: Item) {
    var before := DeletableBefore(backups, attention, policy, now, b);
    && item.backup == b.id && item.createdAt == b.createdAt && item.totalBytes == b.totalBytes
    && (item.delete <==>
        && MayBeDeleted(backups, attention, policy, now, b)
        && (TooMany(backups, policy, before) || TooManyBytes(backups, policy, before)))
    && item.reason ==
       if b.manuallyProtected then ManualProtection
       else if Some(b.id) in attention then AttentionCase
       else if AmongNewest(backups, policy, b) then MinimumComplete
       else if b.createdAt > now - policy.minimumAge then Reason.MinimumAge
       else if TooMany(backups, policy, before) then MaximumComplete
       else if TooManyBytes(backups, policy, before) then MaximumTotalBytes
       else PolicySatisfied
  }

  /** The sorted list: what is listed before is older. */
  ghost predicate Ascending(sorted: seq<Backup>) {
    forall i, j | 0 <= i < j < |sorted| :: Older(sorted[i], sorted[j])
  }

  lemma OlderIsStrict(a: Backup, b: Backup)
    ensures Older(a, b) ==> !Older(b, a) && a != b
    ensures BackupLess()(a, b) <==> Older(a, b)
  {
    Bytes.CompareIsLexicographic(a.id, b.id);
    Bytes.PrecedesIsTotal(a.id, b.id);
  }

  lemma SortedAscends(backups: seq<Backup>)
    requires DistinctIds(backups)
    ensures Ascending(OldestFirst(backups)) && multiset(OldestFirst(backups)) == multiset(backups)
  {
    BackupOrder();
    DistinctAreComparable(backups);
    Sorting.SortKeeps(BackupLess(), backups);
    Sorting.SortIncreases(BackupLess(), backups);
    var sorted := OldestFirst(backups);
    forall i, j | 0 <= i < j < |sorted| ensures Older(sorted[i], sorted[j]) {
      OlderIsStrict(sorted[i], sorted[j]);
    }
  }

  lemma BeforeInList(sorted: seq<Backup>, i: nat, j: nat)
    requires Ascending(sorted) && i < |sorted| && j < |sorted|
    ensures Older(sorted[i], sorted[j]) <==> i < j
    ensures sorted[i] == sorted[j] <==> i == j
  {
    hide Older;
    OlderIsStrict(sorted[i], sorted[j]);
    OlderIsStrict(sorted[j], sorted[i]);
  }

  lemma {:induction false} SizeOfChosen(sorted: seq<Backup>, places: seq<nat>)
    requires Ascending(sorted) && forall k | 0 <= k < |places| :: places[k] < |sorted|
    requires forall j, k | 0 <= j < k < |places| :: places[j] < places[k]
    ensures |set k | 0 <= k < |places| :: sorted[places[k]]| == |places|
    decreases |places|
  {
    hide Older;
    var chosen := set k | 0 <= k < |places| :: sorted[places[k]];
    if places == [] {
      assert chosen == {};
    } else {
      var front, last := places[..|places| - 1], sorted[places[|places| - 1]];
      SizeOfChosen(sorted, front);
      var fewer := set k | 0 <= k < |front| :: sorted[front[k]];
      if last in fewer {
        var k :| 0 <= k < |front| && sorted[front[k]] == last;
        BeforeInList(sorted, front[k], places[|places| - 1]);
      }
      assert chosen == fewer + {last};
    }
  }

  function Range(from: nat, to: nat): (r: seq<nat>)
    requires from <= to
    ensures |r| == to - from && forall k | 0 <= k < |r| :: r[k] == from + k
  {
    seq(to - from, k requires 0 <= k < to - from => from + k)
  }

  /** In the sorted list, the backups newer than one are those behind it. */
  lemma NewerAreBehind(backups: seq<Backup>, sorted: seq<Backup>, policy: Policy, i: nat)
    requires multiset(sorted) == multiset(backups) && Ascending(sorted) && i < |sorted|
    ensures AmongNewest(backups, policy, sorted[i]) <==> IsNewest(policy, |sorted|, i)
  {
    hide Older, Ascending;
    var newer := NewerThan(backups, sorted[i]);
    var behind := Range(i + 1, |sorted|);
    var chosen := set k | 0 <= k < |behind| :: sorted[behind[k]];
    Sorting.SameMembers(sorted, backups);
    forall c ensures c in newer <==> c in chosen {
      if c in newer {
        var j :| 0 <= j < |sorted| && sorted[j] == c;
        BeforeInList(sorted, i, j);
        assert sorted[behind[j - i - 1]] == c;
      }
      if c in chosen {
        var k :| 0 <= k < |behind| && sorted[behind[k]] == c;
        BeforeInList(sorted, i, behind[k]);
      }
    }
    assert newer == chosen;
    SizeOfChosen(sorted, behind);
  }

  /** The sorted list of a given list, and the open cases as a set. */
  ghost predicate Sorts(backups: seq<Backup>, attention: seq<Option<Id>>, sorted: seq<Backup>, cases: set<Id>) {
    multiset(sorted) == multiset(backups) && Ascending(sorted) && forall id :: id in cases <==> Some(id) in attention
  }

  lemma EligibleOnList(backups: seq<Backup>, attention: seq<Option<Id>>, policy: Policy, now: int,
                       sorted: seq<Backup>, cases: set<Id>, i: nat)
    requires Sorts(backups, attention, sorted, cases) && i < |sorted|
    ensures MayBeDeleted(backups, attention, policy, now, sorted[i]) <==> Eligible(sorted, cases, policy, now, i)
    ensures AmongNewest(backups, policy, sorted[i]) <==> IsNewest(policy, |sorted|, i)
  {
    NewerAreBehind(backups, sorted, policy, i);
    hide AmongNewest, IsNewest;
  }

  ghost function Chosen(sorted: seq<Backup>, places: seq<nat>): set<Backup>
    requires forall k | 0 <= k < |places| :: places[k] < |sorted|
  {
    set k | 0 <= k < |places| :: sorted[places[k]]
  }

  lemma DeletableAreCandidates(backups: seq<Backup>, attention: seq<Option<Id>>, policy: Policy, now: int,
                               sorted: seq<Backup>, cases: set<Id>, i: nat)
    requires Sorts(backups, attention, sorted, cases) && i < |sorted|
    ensures DeletableBefore(backups, attention, policy, now, sorted[i])
         == Chosen(sorted, Candidates(sorted, cases, policy, now, i))
    ensures |DeletableBefore(backups, attention, policy, now, sorted[i])|
         == |Candidates(sorted, cases, policy, now, i)|
  {
    hide Older, Ascending, MayBeDeleted, Eligible, Candidates;
    var before, places := DeletableBefore(backups, attention, policy, now, sorted[i]),
      Candidates(sorted, cases, policy, now, i);
    CandidatesAreAll(sorted, cases, policy, now, i);
    Sorting.SameMembers(sorted, backups);
    forall c ensures c in before <==> c in Chosen(sorted, places) {
      if c in before {
        var j :| 0 <= j < |sorted| && sorted[j] == c;
        BeforeInList(sorted, j, i);
        EligibleOnList(backups, attention, policy, now, sorted, cases, j);
        assert j in places;
        var k :| 0 <= k < |places| && places[k] == j;
      }
      if c in Chosen(sorted, places) {
        var k :| 0 <= k < |places| && sorted[places[k]] == c;
        BeforeInList(sorted, places[k], i);
        EligibleOnList(backups, attention, policy, now, sorted, cases, places[k]);
      }
    }
    assert before == Chosen(sorted, places);
    SizeOfChosen(sorted, places);
  }

  // ----- sums over a set of backups

  lemma {:induction false} BytesOfConcat(a: seq<Backup>, b: seq<Backup>, chosen: set<Backup>)
    ensures BytesOf(a + b, chosen) == BytesOf(a, chosen) + BytesOf(b, chosen)
    decreases |a|
  {
    if a == [] {
      assert a + b == b;
    } else {
      assert (a + b)[1..] == a[1..] + b;
      BytesOfConcat(a[1..], b, chosen);
    }
  }

  lemma BytesOfFirst(b: seq<Backup>, j: nat, chosen: set<Backup>)
    requires j < |b|
    ensures var moved := [b[j]] + (b[..j] + b[j + 1..]);
      multiset(moved) == multiset(b) && BytesOf(moved, chosen) == BytesOf(b, chosen)
  {
    var before, after := b[..j], b[j + 1..];
    assert b == before + ([b[j]] + after);
    BytesOfConcat(before, [b[j]] + after, chosen);
    BytesOfConcat([b[j]], after, chosen);
    BytesOfConcat([b[j]], before + after, chosen);
    BytesOfConcat(before, after, chosen);
  }

  lemma {:induction false} BytesOfAnyOrder(a: seq<Backup>, b: seq<Backup>, chosen: set<Backup>)
    requires multiset(a) == multiset(b)
    ensures BytesOf(a, chosen) == BytesOf(b, chosen)
    decreases |a|
  {
    Sorting.SameSize(a, b);
    if a != [] {
      assert a[0] in multiset(b);
      var j :| 0 <= j < |b| && b[j] == a[0];
      BytesOfFirst(b, j, chosen);
      var moved := [b[j]] + (b[..j] + b[j + 1..]);
      Sorting.RestIsSame(a, moved);
      BytesOfAnyOrder(a[1..], moved[1..], chosen);
    }
  }

  lemma BytesOfSnoc(s: seq<Backup>, n: nat, chosen: set<Backup>)
    requires n < |s|
    ensures BytesOf(s[..n + 1], chosen) == BytesOf(s[..n], chosen) + if s[n] in chosen then s[n].totalBytes else 0
  {
    assert s[..n + 1] == s[..n] + [s[n]];
    BytesOfConcat(s[..n], [s[n]], chosen);
    assert [s[n]][1..] == [];
  }

  lemma {:induction false} BytesOfAll(s: seq<Backup>, n: nat, chosen: set<Backup>)
    requires n <= |s| && forall b | b in s :: b in chosen
    ensures BytesOf(s[..n], chosen) == SumBytes(s[..n])
    decreases n
  {
    if n > 0 {
      BytesOfAll(s, n - 1, chosen);
      BytesOfSnoc(s, n - 1, chosen);
      assert s[..n][..n - 1] == s[..n - 1];
    }
  }

  lemma CandidatesSnoc(sorted: seq<Backup>, cases: set<Id>, policy: Policy, now: int, n: nat)
    requires n < |sorted|
    ensures BytesAt(sorted, Candidates(sorted, cases, policy, now, n + 1))
         == BytesAt(sorted, Candidates(sorted, cases, policy, now, n))
          + if Eligible(sorted, cases, policy, now, n) then sorted[n].totalBytes else 0
  {
    hide Eligible;
    var fewer := Candidates(sorted, cases, policy, now, n);
    assert (fewer + [n])[..|fewer|] == fewer && fewer + [] == fewer;
  }

  /** Among the first n, the backups chosen by the candidates before i. */
  lemma {:induction false} BytesOfCandidates(sorted: seq<Backup>, cases: set<Id>, policy: Policy, now: int, i: nat,
                                             n: nat)
    requires Ascending(sorted) && i < |sorted| && n <= |sorted|
    ensures BytesOf(sorted[..n], Chosen(sorted, Candidates(sorted, cases, policy, now, i)))
         == BytesAt(sorted, Candidates(sorted, cases, policy, now, if n < i then n else i))
    decreases n
  {
    hide Older, Ascending, Eligible, Candidates, Chosen;
    var places := Candidates(sorted, cases, policy, now, i);
    var chosen := Chosen(sorted, places);
    if n > 0 {
      BytesOfCandidates(sorted, cases, policy, now, i, n - 1);
      BytesOfSnoc(sorted, n - 1, chosen);
      CandidatesAreAll(sorted, cases, policy, now, i);
      ChosenAtPlace(sorted, places, n - 1);
      if n - 1 < i {
        CandidatesSnoc(sorted, cases, policy, now, n - 1);
      }
    }
  }

  lemma ChosenAtPlace(sorted: seq<Backup>, places: seq<nat>, n: nat)
    requires Ascending(sorted) && n < |sorted| && forall k | 0 <= k < |places| :: places[k] < |sorted|
    ensures sorted[n] in Chosen(sorted, places) <==> n in places
  {
    hide Older, Ascending;
    if sorted[n] in Chosen(sorted, places) {
      var k :| 0 <= k < |places| && sorted[places[k]] == sorted[n];
      BeforeInList(sorted, places[k], n);
    }
    if n in places {
      var k :| 0 <= k < |places| && places[k] == n;
      assert sorted[places[k]] == sorted[n];
    }
  }

  /** The items are those of the given backups, each rightly decided. */
  ghost predicate ItemsOf(backups: seq<Backup>, attention: seq<Option<Id>>, policy: Policy, now: int,
                          items: seq<Item>) {
    && |items| == |backups|
    && (forall i | 0 <= i < |items| :: HasBackup(backups, attention, policy, now, items[i]))
    && forall b | b in backups :: HasItem(backups, attention, policy, now, b, items)
  }

  ghost predicate HasBackup(backups: seq<Backup>, attention: seq<Option<Id>>, policy: Policy, now: int, item: Item) {
    exists b | b in backups :: RightlyDecided(backups, attention, policy, now, b, item)
  }

  ghost predicate HasItem(backups: seq<Backup>, attention: seq<Option<Id>>, policy: Policy, now: int, b: Backup,
                          items: seq<Item>) {
    exists i | 0 <= i < |items| :: RightlyDecided(backups, attention, policy, now, b, items[i])
  }

  /** The oldest first, and the id that comes first byte by byte among those of the same time. */
  ghost predicate ItemsAscend(items: seq<Item>) {
    && (forall i | 0 <= i < |items| :: items[i].ordinal == i)
    && forall i, j | 0 <= i < j < |items| ::
         || items[i].createdAt < items[j].createdAt
         || (items[i].createdAt == items[j].createdAt && Bytes.Precedes(items[i].backup, items[j].backup))
  }

  /** A backup that is kept although it could go is newer than every one that is deleted. */
  predicate OldestGo(items: seq<Item>) {
    forall i, j | 0 <= i < |items| && 0 <= j < |items| && items[i].delete && items[j].reason == PolicySatisfied :: i < j
  }

  /** Protected by hand, by an open case, or as one of the newest. */
  ghost function ProtectedIds(backups: seq<Backup>, attention: seq<Option<Id>>, policy: Policy): set<Id> {
    (set b | b in backups && (b.manuallyProtected || AmongNewest(backups, policy, b)) :: b.id) + CasesOf(attention)
  }

  ghost predicate IsRetentionPlan(backups: seq<Backup>, attention: seq<Option<Id>>, policy: Policy, now: int,
                                  plan: Plan) {
    && ItemsOf(backups, attention, policy, now, plan.items) && ItemsAscend(plan.items) && OldestGo(plan.items)
    && plan.backupCount == |backups| && plan.protectedCount == |ProtectedIds(backups, attention, policy)|
    && plan.totalBytes == BytesOf(backups, set b | b in backups) <= MAX_INT64
    && plan.deleteCount == |set i | 0 <= i < |plan.items| && plan.items[i].delete|
    && plan.deleteBytes + KeptBytes(plan.items) == plan.totalBytes
    && (plan.unreachable <==>
        || |backups| - plan.deleteCount > policy.maximumComplete
        || KeptBytes(plan.items) > policy.maximumTotalBytes)
  }

  /** One item of the plan on the sorted list, seen from the given one. */
  lemma DecidedOnList(backups: seq<Backup>, attention: seq<Option<Id>>, policy: Policy, now: int,
                      sorted: seq<Backup>, cases: set<Id>, plan: Plan, k: nat, i: nat)
    requires Sorts(backups, attention, sorted, cases) && IsPlan(sorted, cases, policy, now, plan, k) && i < |sorted|
    ensures RightlyDecided(backups, attention, policy, now, sorted[i], plan.items[i])
  {
    hide Older, Ascending, Candidates, BytesAt, BytesOf, SumBytes, AmongNewest, MayBeDeleted, DeletableBefore, Exceeds,
      Chosen, IsNewest;
    var b, places := sorted[i], Candidates(sorted, cases, policy, now, i);
    EligibleOnList(backups, attention, policy, now, sorted, cases, i);
    NotEligibleBecause(backups, attention, policy, now, b);
    DeletableAreCandidates(backups, attention, policy, now, sorted, cases, i);
    BytesOnList(backups, attention, policy, now, sorted, cases, i);
    DeletedIsExceeding(sorted, cases, policy, now, k, i);
    Sorting.SameSize(sorted, backups);
  }

  lemma NotEligibleBecause(backups: seq<Backup>, attention: seq<Option<Id>>, policy: Policy, now: int, b: Backup)
    ensures MayBeDeleted(backups, attention, policy, now, b) <==>
            && !b.manuallyProtected && Some(b.id) !in attention && !AmongNewest(backups, policy, b)
            && b.createdAt <= now - policy.minimumAge
  {
    hide AmongNewest;
  }

  lemma BytesOnList(backups: seq<Backup>, attention: seq<Option<Id>>, policy: Policy, now: int,
                    sorted: seq<Backup>, cases: set<Id>, i: nat)
    requires Sorts(backups, attention, sorted, cases) && i < |sorted|
    ensures BytesOf(backups, set b | b in backups) == SumBytes(sorted)
    ensures BytesOf(backups, DeletableBefore(backups, attention, policy, now, sorted[i]))
         == BytesAt(sorted, Candidates(sorted, cases, policy, now, i))
  {
    hide Older, Ascending, Candidates, BytesAt, BytesOf, SumBytes, DeletableBefore, Chosen;
    var n := |sorted|;
    assert sorted[..n] == sorted;
    TotalOnList(backups, sorted);
    DeletableAreCandidates(backups, attention, policy, now, sorted, cases, i);
    BytesOfCandidates(sorted, cases, policy, now, i, n);
    BytesOfAnyOrder(sorted, backups, DeletableBefore(backups, attention, policy, now, sorted[i]));
  }

  lemma TotalOnList(backups: seq<Backup>, sorted: seq<Backup>)
    requires multiset(sorted) == multiset(backups)
    ensures BytesOf(backups, set b | b in backups) == SumBytes(sorted)
  {
    hide BytesOf, SumBytes;
    var all := set b | b in backups;
    assert sorted[..|sorted|] == sorted;
    Sorting.SameMembers(sorted, backups);
    BytesOfAll(sorted, |sorted|, all);
    BytesOfAnyOrder(sorted, backups, all);
  }

  /** An eligible backup is among the k deleted ones exactly when a bound is still exceeded before it. */
  lemma DeletedIsExceeding(sorted: seq<Backup>, cases: set<Id>, policy: Policy, now: int, k: nat, i: nat)
    requires i < |sorted|
    requires var c := Candidates(sorted, cases, policy, now, |sorted|); k <= |c| && Shortest(sorted, c, policy, k)
    ensures i in Candidates(sorted, cases, policy, now, |sorted|)[..k] <==>
            Eligible(sorted, cases, policy, now, i) && EligibleReason(sorted, cases, policy, now, i) != PolicySatisfied
  {
    hide BytesAt, SumBytes, Eligible, Candidates;
    var n := |sorted|;
    var all, before := Candidates(sorted, cases, policy, now, n), Candidates(sorted, cases, policy, now, i);
    var j := |before|;
    CandidatesAreAll(sorted, cases, policy, now, n);
    if Eligible(sorted, cases, policy, now, i) {
      CandidateHasPlace(sorted, cases, policy, now, i, n);
      assert all[j] == i && all[..j] == before;
      assert i in all[..k] <==> j < k by {
        if j < k { assert all[..k][j] == i; }
        if i in all[..k] { var l :| 0 <= l < k && all[..k][l] == i; }
      }
      assert Exceeds(sorted, all, policy, j) <==> EligibleReason(sorted, cases, policy, now, i) != PolicySatisfied;
      if j >= k { BytesAtPrefix(sorted, all, k, j); }
    }
  }

  lemma {:induction false} CandidateHasPlace(sorted: seq<Backup>, cases: set<Id>, policy: Policy, now: int, i: nat,
                                             n: nat)
    requires i < n <= |sorted| && Eligible(sorted, cases, policy, now, i)
    ensures var all, before := Candidates(sorted, cases, policy, now, n), Candidates(sorted, cases, policy, now, i);
      |before| < |all| && all[..|before|] == before && all[|before|] == i
    decreases n
  {
    hide Eligible;
    if i < n - 1 {
      CandidateHasPlace(sorted, cases, policy, now, i, n - 1);
    }
  }

  lemma PlanOnList(backups: seq<Backup>, attention: seq<Option<Id>>, policy: Policy, now: int,
                   sorted: seq<Backup>, cases: set<Id>, plan: Plan, k: nat)
    requires Sorts(backups, attention, sorted, cases) && IsPlan(sorted, cases, policy, now, plan, k)
    requires plan.deleteBytes + KeptBytes(plan.items) == plan.totalBytes
    requires plan.protectedCount == |ProtectedIds(backups, attention, policy)|
    ensures IsRetentionPlan(backups, attention, policy, now, plan)
  {
    hide ProtectedIds, ItemsOf, ItemsAscend, OldestGo, BytesOf, KeptBytes, SumBytes, Candidates, BytesAt, Shortest,
      Ascending;
    Sorting.SameSize(sorted, backups);
    AllOnList(backups, attention, policy, now, sorted, cases, plan, k);
    AscendOnList(sorted, cases, policy, now, plan, k);
    TotalOnList(backups, sorted);
    KeptAreLater(sorted, cases, policy, now, plan, k);
    DeletedAreCounted(sorted, cases, policy, now, plan, k);
  }

  lemma AllOnList(backups: seq<Backup>, attention: seq<Option<Id>>, policy: Policy, now: int,
                  sorted: seq<Backup>, cases: set<Id>, plan: Plan, k: nat)
    requires Sorts(backups, attention, sorted, cases) && IsPlan(sorted, cases, policy, now, plan, k)
    ensures ItemsOf(backups, attention, policy, now, plan.items)
  {
    forall i | 0 <= i < |sorted| ensures RightlyDecided(backups, attention, policy, now, sorted[i], plan.items[i]) {
      DecidedOnList(backups, attention, policy, now, sorted, cases, plan, k, i);
    }
    hide RightlyDecided, ItemsOf, Candidates, Shortest, BytesAt, SumBytes, ExactReason, Ascending;
    PairsAreItems(backups, attention, policy, now, sorted, plan.items);
  }

  lemma PairsAreItems(backups: seq<Backup>, attention: seq<Option<Id>>, policy: Policy, now: int,
                      sorted: seq<Backup>, items: seq<Item>)
    requires multiset(sorted) == multiset(backups) && |items| == |sorted|
    requires forall i | 0 <= i < |sorted| :: RightlyDecided(backups, attention, policy, now, sorted[i], items[i])
    ensures ItemsOf(backups, attention, policy, now, items)
  {
    hide RightlyDecided;
    Sorting.SameSize(sorted, backups);
    Sorting.SameMembers(sorted, backups);
    forall b | b in backups ensures HasItem(backups, attention, policy, now, b, items) {
      var i :| 0 <= i < |sorted| && sorted[i] == b;
      assert RightlyDecided(backups, attention, policy, now, b, items[i]);
    }
    forall i | 0 <= i < |items| ensures HasBackup(backups, attention, policy, now, items[i]) {
      assert sorted[i] in backups && RightlyDecided(backups, attention, policy, now, sorted[i], items[i]);
    }
  }

  lemma AscendOnList(sorted: seq<Backup>, cases: set<Id>, policy: Policy, now: int, plan: Plan, k: nat)
    requires IsPlan(sorted, cases, policy, now, plan, k) && Ascending(sorted)
    ensures ItemsAscend(plan.items)
  {
    hide Candidates, BytesAt, SumBytes, Shortest, Exceeds, Eligible, EligibleReason, Bytes.Precedes;
    forall i, j | 0 <= i < j < |plan.items| ensures Older(sorted[i], sorted[j]) {
    }
  }

  lemma KeptAreLater(sorted: seq<Backup>, cases: set<Id>, policy: Policy, now: int, plan: Plan, k: nat)
    requires IsPlan(sorted, cases, policy, now, plan, k)
    ensures OldestGo(plan.items)
  {
    hide Candidates, BytesAt, SumBytes, Shortest, Exceeds, Eligible, EligibleReason;
    var all := Candidates(sorted, cases, policy, now, |sorted|);
    CandidatesAreAll(sorted, cases, policy, now, |sorted|);
    forall i, j | 0 <= i < |plan.items| && 0 <= j < |plan.items|
        && plan.items[i].delete && plan.items[j].reason == PolicySatisfied
      ensures i < j
    {
      var x :| 0 <= x < k && all[..k][x] == i;
      assert j in all && j !in all[..k] by { DeletedIsExceeding(sorted, cases, policy, now, k, j); }
      var y :| 0 <= y < |all| && all[y] == j;
      assert all[x] == i;
    }
  }

  lemma DeletedAreCounted(sorted: seq<Backup>, cases: set<Id>, policy: Policy, now: int, plan: Plan, k: nat)
    requires IsPlan(sorted, cases, policy, now, plan, k)
    requires plan.deleteBytes + KeptBytes(plan.items) == plan.totalBytes
    ensures plan.deleteCount == |set i | 0 <= i < |plan.items| && plan.items[i].delete|
    ensures plan.unreachable <==>
      || |sorted| - plan.deleteCount > policy.maximumComplete
      || KeptBytes(plan.items) > policy.maximumTotalBytes
  {
    hide Candidates, BytesAt, SumBytes, Shortest, Eligible, KeptBytes;
    var all := Candidates(sorted, cases, policy, now, |sorted|);
    CandidatesAreAll(sorted, cases, policy, now, |sorted|);
    var deleted := set i | 0 <= i < |plan.items| && plan.items[i].delete;
    PlacesSize(all[..k]);
    forall i ensures i in deleted <==> i in PlaceSet(all[..k]) {
      if i in all[..k] { var x :| 0 <= x < k && all[..k][x] == i; }
    }
    assert deleted == PlaceSet(all[..k]);
  }

  ghost function PlaceSet(places: seq<nat>): set<nat> {
    set i | i in places
  }

  lemma {:induction false} PlacesSize(places: seq<nat>)
    requires forall j, k | 0 <= j < k < |places| :: places[j] < places[k]
    ensures |PlaceSet(places)| == |places|
    decreases |places|
  {
    if places == [] {
      assert PlaceSet(places) == {};
    } else {
      var front, last := places[..|places| - 1], places[|places| - 1];
      PlacesSize(front);
      assert places == front + [last];
      assert last !in front;
      assert PlaceSet(places) == PlaceSet(front) + {last};
    }
  }

  // ----- the planner

  method CheckBackups(backups: seq<Backup>) returns (ok: bool)
    ensures ok <==> DistinctIds(backups) && forall i | 0 <= i < |backups| :: backups[i].complete
  {
    var seen: set<Id> := {};
    for i := 0 to |backups|
      invariant DistinctIds(backups[..i]) && forall k | 0 <= k < i :: backups[k].complete && backups[k].id in seen
      invariant forall id | id in seen :: exists k | 0 <= k < i :: backups[k].id == id
    {
      if !backups[i].complete || backups[i].id in seen {
        return false;
      }
      seen := seen + {backups[i].id};
    }
    assert backups[..|backups|] == backups;
    return true;
  }

  predicate ProtectedByRow(backups: seq<Backup>, policy: Policy, id: Id) {
    exists i | 0 <= i < |backups| :: backups[i].id == id
      && (backups[i].manuallyProtected || IsNewest(policy, |backups|, i))
  }

  lemma ProtectedOnList(backups: seq<Backup>, attention: seq<Option<Id>>, policy: Policy,
                        sorted: seq<Backup>, cases: set<Id>, ids: set<Id>)
    requires Sorts(backups, attention, sorted, cases)
    requires forall id :: id in ids <==> id in cases || ProtectedByRow(sorted, policy, id)
    ensures ids == ProtectedIds(backups, attention, policy)
  {
    hide Ascending, AmongNewest, IsNewest;
    var byRow := set b | b in backups && (b.manuallyProtected || AmongNewest(backups, policy, b)) :: b.id;
    Sorting.SameMembers(sorted, backups);
    forall id ensures id in byRow <==> ProtectedByRow(sorted, policy, id) {
      if id in byRow {
        var b :| b in backups && (b.manuallyProtected || AmongNewest(backups, policy, b)) && b.id == id;
        var i :| 0 <= i < |sorted| && sorted[i] == b;
        NewerAreBehind(backups, sorted, policy, i);
      }
      if ProtectedByRow(sorted, policy, id) {
        var i :| 0 <= i < |sorted| && sorted[i].id == id
          && (sorted[i].manuallyProtected || IsNewest(policy, |sorted|, i));
        NewerAreBehind(backups, sorted, policy, i);
        assert sorted[i] in backups;
      }
    }
  }

  /** The map after its three steps: by hand, then by open cases, then the newest. */
  lemma ProtectionFound(backups: seq<Backup>, cases: set<Id>, policy: Policy, manual: set<Id>, early: set<Id>,
                        found: map<Id, Reason>)
    requires DistinctIds(backups) && early == manual + cases
    requires forall id :: id in manual <==> exists k | 0 <= k < |backups| ::
        backups[k].id == id && backups[k].manuallyProtected
    requires forall id :: id in found <==>
        (id in early || exists k | 0 <= k < |backups| && IsNewest(policy, |backups|, k) :: backups[k].id == id)
    requires forall id | id in found :: found[id] == if id in manual then ManualProtection
        else if id in cases then AttentionCase else MinimumComplete
    ensures forall id :: id in found <==> id in cases || ProtectedByRow(backups, policy, id)
    ensures forall i | 0 <= i < |backups| ::
        Protection(backups, cases, policy, i) == if backups[i].id in found then Some(found[backups[i].id]) else None
  {
    hide IsNewest;
    forall i | 0 <= i < |backups|
      ensures backups[i].id in manual <==> backups[i].manuallyProtected
      ensures backups[i].id in found <==>
          backups[i].manuallyProtected || backups[i].id in cases || IsNewest(policy, |backups|, i)
    {
    }
  }

  method CollectProtected(backups: seq<Backup>, attention: seq<Option<Id>>, policy: Policy)
    returns (protected_: map<Id, Reason>, cases: set<Id>)
    requires DistinctIds(backups)
    ensures forall id :: id in cases <==> Some(id) in attention
    ensures forall id :: id in protected_ <==> id in cases || ProtectedByRow(backups, policy, id)
    ensures forall i | 0 <= i < |backups| ::
      Protection(backups, cases, policy, i) == if backups[i].id in protected_ then Some(protected_[backups[i].id])
        else None
  {
    protected_, cases := map[], {};
    for i := 0 to |backups|
      invariant forall id ::
          id in protected_ <==> exists k | 0 <= k < i :: backups[k].id == id && backups[k].manuallyProtected
      invariant forall id | id in protected_ :: protected_[id] == ManualProtection
    {
      if backups[i].manuallyProtected {
        protected_ := protected_[backups[i].id := ManualProtection];
      }
    }
    ghost var manual := protected_;
    for i := 0 to |attention|
      invariant forall id :: id in cases <==> Some(id) in attention[..i]
      invariant forall id :: id in protected_ <==> id in manual || id in cases
      invariant forall id | id in protected_ ::
          protected_[id] == if id in manual then ManualProtection else AttentionCase
    {
      if attention[i].Some? {
        cases := cases + {attention[i].value};
        if attention[i].value !in protected_ {
          protected_ := protected_[attention[i].value := AttentionCase];
        }
      }
    }
    assert attention[..|attention|] == attention;
    ghost var early := protected_;
    var n := |backups|;
    var minimum := if policy.minimumComplete < n then policy.minimumComplete else n;
    var first := if n - minimum >= 0 then n - minimum else 0;
    var index := first;
    while index < n
      invariant first <= index && (index <= n || index == first)
      invariant forall id | id in early :: id in protected_ && protected_[id] == early[id]
      invariant forall id | id in protected_ && id !in early :: protected_[id] == MinimumComplete
      invariant forall id ::
          id in protected_ <==> id in early || exists k | first <= k < index && k < n :: backups[k].id == id
    {
      if backups[index].id !in protected_ {
        protected_ := protected_[backups[index].id := MinimumComplete];
      }
      index := index + 1;
    }
    ProtectionFound(backups, cases, policy, manual.Keys, early.Keys, protected_);
  }

  /** Candidates so far; the k oldest of them are deleted. */
  ghost predicate Progress(backups: seq<Backup>, cases: set<Id>, policy: Policy, now: int, n: nat, k: nat) {
    && n <= |backups| && k <= |Candidates(backups, cases, policy, now, n)|
    && Shortest(backups, Candidates(backups, cases, policy, now, n), policy, k)
  }

  lemma OneMoreDeleted(backups: seq<Backup>, cases: set<Id>, policy: Policy, now: int, n: nat, k: nat)
    requires n < |backups| && Progress(backups, cases, policy, now, n, k) && Eligible(backups, cases, policy, now, n)
    requires Exceeds(backups, Candidates(backups, cases, policy, now, n), policy, k)
    ensures Progress(backups, cases, policy, now, n + 1, k + 1)
    ensures k == |Candidates(backups, cases, policy, now, n)|
    ensures Candidates(backups, cases, policy, now, n + 1)[..k + 1]
        == Candidates(backups, cases, policy, now, n)[..k] + [n]
    ensures BytesAt(backups, Candidates(backups, cases, policy, now, n + 1)[..k + 1])
         == BytesAt(backups, Candidates(backups, cases, policy, now, n)[..k]) + backups[n].totalBytes
  {
    var c, more := Candidates(backups, cases, policy, now, n), Candidates(backups, cases, policy, now, n + 1);
    assert c[..k] == c && more == c + [n] && more[..k + 1] == more;
    assert more[..|more| - 1] == c;
    forall j | 0 <= j < k + 1 ensures Exceeds(backups, more, policy, j) {
      assert more[..j] == c[..j];
      assert Exceeds(backups, c, policy, j);
    }
  }

  lemma OneMoreKept(backups: seq<Backup>, cases: set<Id>, policy: Policy, now: int, n: nat, k: nat)
    requires n < |backups| && Progress(backups, cases, policy, now, n, k)
    requires Eligible(backups, cases, policy, now, n)
        ==> !Exceeds(backups, Candidates(backups, cases, policy, now, n), policy, k)
    ensures Progress(backups, cases, policy, now, n + 1, k)
    ensures Candidates(backups, cases, policy, now, n + 1)[..k] == Candidates(backups, cases, policy, now, n)[..k]
  {
    var c, more := Candidates(backups, cases, policy, now, n), Candidates(backups, cases, policy, now, n + 1);
    forall j | 0 <= j <= k ensures more[..j] == c[..j] {
    }
    forall j | 0 <= j < k ensures Exceeds(backups, more, policy, j) {
      assert Exceeds(backups, c, policy, j);
    }
  }

  function ItemOf(b: Backup, i: nat, delete: bool, reason: Reason): Item {
    Item(i, b.id, delete, reason, b.createdAt, b.totalBytes)
  }

  /** The items so far, given the candidates among them. */
  ghost predicate Decided(backups: seq<Backup>, cases: set<Id>, policy: Policy, now: int, deleted: seq<nat>,
                          items: seq<Item>) {
    && |items| <= |backups|
    && forall j | 0 <= j < |items| ::
         items[j] == ItemOf(backups[j], j, j in deleted, ExactReason(backups, cases, policy, now, j))
  }

  lemma DecidedGrows(backups: seq<Backup>, cases: set<Id>, policy: Policy, now: int, deleted: seq<nat>,
                     items: seq<Item>, more: seq<nat>, reason: Reason)
    requires |items| < |backups| && Decided(backups, cases, policy, now, deleted, items)
    requires more == deleted || more == deleted + [|items|]
    requires |items| !in deleted && reason == ExactReason(backups, cases, policy, now, |items|)
    ensures Decided(backups, cases, policy, now, more,
        items + [ItemOf(backups[|items|], |items|, more != deleted, reason)])
  {
    hide ExactReason;
    var n := |items|;
    var all := items + [ItemOf(backups[n], n, more != deleted, reason)];
    assert more != deleted ==> more[|deleted|] == n;
    forall j | 0 <= j < |all|
      ensures all[j] == ItemOf(backups[j], j, j in more, ExactReason(backups, cases, policy, now, j))
    {
      if j < n { assert items[j] == all[j]; }
    }
  }

  lemma KeptGrows(items: seq<Item>, item: Item)
    ensures KeptBytes(items + [item]) == KeptBytes(items) + if item.delete then 0 else item.totalBytes
  {
    assert (items + [item])[..|items + [item]| - 1] == items;
  }

  lemma SumSnoc(backups: seq<Backup>, i: nat)
    requires i < |backups|
    ensures SumBytes(backups[..i + 1]) == SumBytes(backups[..i]) + backups[i].totalBytes
  {
    assert backups[..i + 1][..i] == backups[..i];
  }

  /** What the plan decides about backup i, from what is left at that point. */
  function Choose(b: Backup, protected_: map<Id, Reason>, policy: Policy, now: int, remainingCount: int,
                  remainingBytes: int): (bool, Reason) {
    if b.id in protected_ then (false, protected_[b.id])
    else if b.createdAt > now - policy.minimumAge then (false, Reason.MinimumAge)
    else if remainingCount > policy.maximumComplete then (true, MaximumComplete)
    else if remainingBytes > policy.maximumTotalBytes then (true, MaximumTotalBytes)
    else (false, PolicySatisfied)
  }

  lemma ChooseIsRight(backups: seq<Backup>, protected_: map<Id, Reason>, cases: set<Id>, policy: Policy, now: int,
                      i: nat, k: nat, remainingCount: int, remainingBytes: int)
    requires i < |backups| && Progress(backups, cases, policy, now, i, k)
    requires remainingCount == |backups| - k
    requires remainingBytes == SumBytes(backups) - BytesAt(backups, Candidates(backups, cases, policy, now, i)[..k])
    requires Protection(backups, cases, policy, i) == if backups[i].id in protected_ then
        Some(protected_[backups[i].id]) else None
    ensures var (delete, reason) := Choose(backups[i], protected_, policy, now, remainingCount, remainingBytes);
      && reason == ExactReason(backups, cases, policy, now, i)
      && (delete <==> Eligible(backups, cases, policy, now, i)
                      && (remainingCount > policy.maximumComplete || remainingBytes > policy.maximumTotalBytes))
  {
    hide Candidates, SumBytes, BytesAt;
    var before := Candidates(backups, cases, policy, now, i);
    assert before[..|before|] == before;
    if k < |before| { BytesAtPrefix(backups, before, k, |before|); }
  }

  /** The decisions for backups in age order. */
  method Decide(backups: seq<Backup>, protected_: map<Id, Reason>, ghost cases: set<Id>, policy: Policy, now: int,
                totalBytes: nat)
    returns (plan: Plan, ghost k: nat)
    requires totalBytes == SumBytes(backups) <= MAX_INT64
    requires forall i | 0 <= i < |backups| ::
      Protection(backups, cases, policy, i) == if backups[i].id in protected_ then Some(protected_[backups[i].id])
        else None
    ensures IsPlan(backups, cases, policy, now, plan, k)
    ensures plan.deleteBytes + KeptBytes(plan.items) == plan.totalBytes && plan.protectedCount == |protected_|
  {
    hide Shortest, Candidates, ExactReason, Protection, Eligible, Choose, KeptBytes, SumBytes, BytesAt, Decided, ItemOf;
    var n := |backups|;
    var remainingCount, remainingBytes: int := n, totalBytes;
    var items: seq<Item> := [];
    var deleteCount: nat, deleteBytes: nat := 0, 0;
    k := 0;
    NothingYet(backups, cases, policy, now);
    for i := 0 to n
      invariant Progress(backups, cases, policy, now, i, k) && |items| == i
      invariant deleteCount == k && deleteBytes == BytesAt(backups, Candidates(backups, cases, policy, now, i)[..k])
      invariant remainingCount == n - k && remainingBytes == totalBytes - deleteBytes
      invariant deleteBytes + KeptBytes(items) == SumBytes(backups[..i])
      invariant Decided(backups, cases, policy, now, Candidates(backups, cases, policy, now, i)[..k], items)
    {
      ghost var deleted := Candidates(backups, cases, policy, now, i)[..k];
      NotYetListed(backups, cases, policy, now, i, k);
      ChooseIsRight(backups, protected_, cases, policy, now, i, k, remainingCount, remainingBytes);
      var (delete, reason) := Choose(backups[i], protected_, policy, now, remainingCount, remainingBytes);
      if delete {
        OneMoreDeleted(backups, cases, policy, now, i, k);
        k := k + 1;
        remainingCount := remainingCount - 1;
        remainingBytes := remainingBytes - backups[i].totalBytes;
        deleteCount := deleteCount + 1;
        deleteBytes := deleteBytes + backups[i].totalBytes;
      } else {
        OneMoreKept(backups, cases, policy, now, i, k);
      }
      ghost var more := Candidates(backups, cases, policy, now, i + 1)[..k];
      assert delete == (more != deleted) by { assert delete ==> |more| == |deleted| + 1; }
      DecidedGrows(backups, cases, policy, now, deleted, items, more, reason);
      var item := ItemOf(backups[i], i, delete, reason);
      KeptGrows(items, item);
      SumSnoc(backups, i);
      ItemParts(backups[i], i, delete, reason);
      items := items + [item];
    }
    assert backups[..n] == backups;
    plan := Plan(items, n, totalBytes, |protected_|, deleteCount, deleteBytes,
                 remainingCount > policy.maximumComplete || remainingBytes > policy.maximumTotalBytes);
    DecidedIsPlan(backups, cases, policy, now, plan, k);
  }

  lemma ItemParts(b: Backup, i: nat, delete: bool, reason: Reason)
    ensures ItemOf(b, i, delete, reason).delete == delete && ItemOf(b, i, delete, reason).totalBytes == b.totalBytes
  {
  }

  lemma DecidedIsPlan(backups: seq<Backup>, cases: set<Id>, policy: Policy, now: int, plan: Plan, k: nat)
    requires Progress(backups, cases, policy, now, |backups|, k)
    requires Decided(backups, cases, policy, now, Candidates(backups, cases, policy, now, |backups|)[..k], plan.items)
    requires |plan.items| == |backups| == plan.backupCount && plan.totalBytes == SumBytes(backups) <= MAX_INT64
    requires plan.deleteCount == k
    requires plan.deleteBytes == BytesAt(backups, Candidates(backups, cases, policy, now, |backups|)[..k])
    requires plan.unreachable == Exceeds(backups, Candidates(backups, cases, policy, now, |backups|), policy, k)
    ensures IsPlan(backups, cases, policy, now, plan, k)
  {
    hide Shortest, Candidates, ExactReason, SumBytes, BytesAt, Exceeds;
  }

  lemma NothingYet(backups: seq<Backup>, cases: set<Id>, policy: Policy, now: int)
    ensures Progress(backups, cases, policy, now, 0, 0)
    ensures BytesAt(backups, Candidates(backups, cases, policy, now, 0)[..0]) == 0
    ensures KeptBytes([]) == 0 && SumBytes(backups[..0]) == 0
    ensures Decided(backups, cases, policy, now, Candidates(backups, cases, policy, now, 0)[..0], [])
  {
  }

  lemma NotYetListed(backups: seq<Backup>, cases: set<Id>, policy: Policy, now: int, n: nat, k: nat)
    requires n < |backups| && k <= |Candidates(backups, cases, policy, now, n)|
    ensures n !in Candidates(backups, cases, policy, now, n)[..k]
  {
  }

  /** A plan for backups in any order, given the open attention cases. */
  method PlanRetention(backups: seq<Backup>, attention: seq<Option<Id>>, policy: Policy, now: int)
    returns (r: Result<Plan, PlanError>, ghost cases: set<Id>, ghost k: nat)
    ensures forall id :: id in cases <==> Some(id) in attention
    ensures r.Success? ==> IsPlan(OldestFirst(backups), cases, policy, now, r.value, k)
    ensures r.Success? ==> IsRetentionPlan(backups, attention, policy, now, r.value)
    ensures r.Success? <==>
            && DistinctIds(backups) && (forall b | b in backups :: b.complete)
            && BytesOf(backups, set b | b in backups) <= MAX_INT64
    ensures r.Failure? ==>
      r.error == if DistinctIds(backups) && forall b | b in backups :: b.complete then LimitExceeded else Conflict
  {
    hide BytesOf, IsRetentionPlan, IsPlan, KeptBytes, Protection, Ascending, ProtectedIds, ProtectedByRow;
    var sorted := OldestFirst(backups);
    k, cases := 0, {};
    Sorting.SortKeeps(BackupLess(), backups);
    SameIds(backups, sorted);
    TotalOnList(backups, sorted);
    var ok := CheckBackups(sorted);
    if !ok {
      cases := CasesOf(attention);
      return Failure(Conflict), cases, k;
    }
    var protected_, found := CollectProtected(sorted, attention, policy);
    cases := found;
    var totalBytes := 0;
    for i := 0 to |sorted|
      invariant totalBytes == SumBytes(sorted[..i]) <= MAX_INT64
    {
      assert sorted[..i + 1][..i] == sorted[..i];
      SumGrows(sorted, i + 1);
      if sorted[i].totalBytes > MAX_INT64 - totalBytes {
        return Failure(LimitExceeded), cases, k;
      }
      totalBytes := totalBytes + sorted[i].totalBytes;
    }
    assert sorted[..|sorted|] == sorted;
    var plan;
    plan, k := Decide(sorted, protected_, cases, policy, now, totalBytes);
    SortedAscends(backups);
    ProtectedOnList(backups, attention, policy, sorted, cases, protected_.Keys);
    PlanOnList(backups, attention, policy, now, sorted, cases, plan, k);
    return Success(plan), cases, k;
  }

  ghost function CasesOf(attention: seq<Option<Id>>): set<Id>
    ensures forall id :: id in CasesOf(attention) <==> Some(id) in attention
  {
    set i | 0 <= i < |attention| && attention[i].Some? :: attention[i].value
  }

  lemma {:induction false} SumGrows(backups: seq<Backup>, n: nat)
    requires n <= |backups|
    ensures SumBytes(backups[..n]) <= SumBytes(backups)
    decreases |backups| - n
  {
    if n < |backups| {
      SumGrows(backups, n + 1);
      assert backups[..n + 1][..n] == backups[..n];
    } else {
      assert backups[..n] == backups;
    }
  }

  lemma SameIds(a: seq<Backup>, b: seq<Backup>)
    requires multiset(a) == multiset(b)
    ensures DistinctIds(a) <==> DistinctIds(b)
    ensures (forall x | x in a :: x.complete) <==> forall i | 0 <= i < |b| :: b[i].complete
  {
    Sorting.SameMembers(a, b);
    if DistinctIds(a) { DistinctKept(a, b); }
    if DistinctIds(b) { DistinctKept(b, a); }
  }

  lemma {:induction false} DistinctKept(a: seq<Backup>, b: seq<Backup>)
    requires multiset(a) == multiset(b) && DistinctIds(a)
    ensures DistinctIds(b)
  {
    forall i, j | 0 <= i < j < |b| ensures b[i].id != b[j].id {
      assert b[i] in multiset(a) && b[j] in multiset(a);
      var k :| 0 <= k < |a| && a[k] == b[i];
      var l :| 0 <= l < |a| && a[l] == b[j];
      OnceInDistinct(a, k);
      TwiceInSequence(b, i, j);
    }
  }

  lemma TwiceInSequence(b: seq<Backup>, i: nat, j: nat)
    requires i < j < |b|
    ensures b[i] == b[j] ==> multiset(b)[b[i]] >= 2
  {
    assert b == b[..i] + [b[i]] + b[i + 1..j] + [b[j]] + b[j + 1..];
  }

  lemma OnceInDistinct(a: seq<Backup>, k: nat)
    requires DistinctIds(a) && k < |a|
    ensures multiset(a)[a[k]] == 1
  {
    assert a == a[..k] + [a[k]] + a[k + 1..];
    assert a[k] !in a[..k] && a[k] !in a[k + 1..];
  }

  /** The plan does not depend on the order in which the repository lists the backups. */
  lemma PlanIgnoresOrder(a: seq<Backup>, b: seq<Backup>)
    requires multiset(a) == multiset(b) && DistinctIds(a)
    ensures OldestFirst(a) == OldestFirst(b)
  {
    DistinctKept(a, b);
    BackupOrder();
    DistinctAreComparable(a);
    DistinctAreComparable(b);
    Sorting.SortIgnoresOrder(BackupLess(), a, b);
  }
}
