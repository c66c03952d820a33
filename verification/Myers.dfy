// The bounded Myers O(ND) search and its backtracking (internal/config/diff.go).
module Myers {
  import opened EditScripts

  // ----- the map of furthest-reaching diagonals

  /** A map read as the source reads it: an absent diagonal is zero. */
  function At(vectors: map<int, int>, diagonal: int): int {
    if diagonal in vectors then vectors[diagonal] else 0
  }

  /** The diagonals the search visits for one distance. */
  predicate OnDiagonals(distance: int, diagonal: int) {
    -distance <= diagonal <= distance && (diagonal + distance) % 2 == 0
  }

  /** Whether the diagonal is entered from above, by adding a line, rather than from the left. */
  predicate EntersByAdd(vectors: map<int, int>, distance: int, diagonal: int) {
    diagonal == -distance || (diagonal != distance && At(vectors, diagonal - 1) < At(vectors, diagonal + 1))
  }

  /** Column at which the diagonal is entered, before free matches. */
  function Origin(vectors: map<int, int>, distance: int, diagonal: int): int {
    if EntersByAdd(vectors, distance, diagonal) then At(vectors, diagonal + 1) else At(vectors, diagonal - 1) + 1
  }

  /** Column x is the last one on its diagonal within the distance, overshoot included. */
  ghost predicate Furthest<T>(a: seq<T>, b: seq<T>, distance: int, diagonal: int, x: int) {
    0 <= x && 0 <= x - diagonal && Dist(a, b, x, x - diagonal) <= distance < Dist(a, b, x + 1, x + 1 - diagonal)
  }

  /** The cell at column x of a diagonal is a free match. */
  predicate FreeOn<T(==)>(a: seq<T>, b: seq<T>, diagonal: int, x: int) {
    Matches(a, b, x, x - diagonal)
  }

  ghost predicate AllFree<T>(a: seq<T>, b: seq<T>, diagonal: int, lo: int, hi: int) {
    forall x | lo <= x < hi :: FreeOn(a, b, diagonal, x)
  }

  ghost predicate Frontier<T>(a: seq<T>, b: seq<T>, vectors: map<int, int>, distance: int) {
    forall k | OnDiagonals(distance, k) :: Furthest(a, b, distance, k, At(vectors, k))
  }

  /** What the map holds when the search for a distance starts. */
  ghost predicate Ready<T>(a: seq<T>, b: seq<T>, vectors: map<int, int>, distance: nat) {
    if distance == 0 then At(vectors, 1) == 0 else Frontier(a, b, vectors, distance - 1)
  }

  /** Snapshot c of the trace is the map as the search for distance c found it. */
  ghost predicate Snapshots<T>(a: seq<T>, b: seq<T>, trace: seq<map<int, int>>) {
    forall c | 0 <= c < |trace| :: Ready(a, b, trace[c], c)
  }

  lemma {:induction false} OriginReached<T>(a: seq<T>, b: seq<T>, v: map<int, int>, d: nat, k: int)
    requires Ready(a, b, v, d) && OnDiagonals(d, k)
    ensures var x := Origin(v, d, k); 0 <= x && 0 <= x - k && Dist(a, b, x, x - k) <= d
  {
    var x := Origin(v, d, k);
    if d == 0 {
      assert Dist(a, b, 0, 0) == 0;
    } else if EntersByAdd(v, d, k) {
      assert Furthest(a, b, d - 1, k + 1, At(v, k + 1));
      DistLipschitz(a, b, x, x - k);
    } else {
      assert Furthest(a, b, d - 1, k - 1, At(v, k - 1));
      DistLipschitz(a, b, x, x - k);
    }
  }

  /** Past the furthest column of a diagonal everything is out of reach. */
  lemma {:induction false} PastFurthest<T>(a: seq<T>, b: seq<T>, d: int, k: int, furthest: int, x: int)
    requires Furthest(a, b, d, k, furthest) && furthest < x
    ensures 0 <= x - k && Dist(a, b, x, x - k) > d
  {
    DistDiagonal(a, b, furthest + 1, furthest + 1 - k, x, x - k);
  }

  /** From the origin on, the positions beside the diagonal are out of reach for distance d - 1. */
  lemma {:induction false} NeighboursBeyond<T>(a: seq<T>, b: seq<T>, v: map<int, int>, d: int, k: int, x: int)
    requires d >= 0 && Ready(a, b, v, d) && OnDiagonals(d, k)
    requires 0 <= Origin(v, d, k) <= x && 0 <= x - k
    ensures Dist(a, b, x, x + 1 - k) >= d && Dist(a, b, x + 1, x - k) >= d
  {
    if k == -d {
      DistIsLcs(a, b, x, x + 1 - k);
    } else {
      PastFurthest(a, b, d - 1, k - 1, At(v, k - 1), x);
    }
    if k == d {
      DistIsLcs(a, b, x + 1, x - k);
    } else {
      PastFurthest(a, b, d - 1, k + 1, At(v, k + 1), x + 1);
    }
  }

  /** Sliding from the origin until nothing matches ends at the furthest column. */
  lemma {:induction false} SlideEndsFurthest<T>(a: seq<T>, b: seq<T>, v: map<int, int>, d: nat, k: int, x: int)
    requires Ready(a, b, v, d) && OnDiagonals(d, k)
    requires 0 <= Origin(v, d, k) <= x && 0 <= x - k
    requires Dist(a, b, x, x - k) <= d && !Matches(a, b, x, x - k)
    ensures Furthest(a, b, d, k, x)
  {
    NeighboursBeyond(a, b, v, d, k, x);
  }

  /** Conversely every column between the origin and the furthest one is a free match. */
  lemma {:induction false} FurthestWasSlid<T>(a: seq<T>, b: seq<T>, v: map<int, int>, d: nat, k: int, x: int)
    requires Ready(a, b, v, d) && OnDiagonals(d, k) && Furthest(a, b, d, k, x)
    ensures 0 <= Origin(v, d, k) <= x && 0 <= Origin(v, d, k) - k
    ensures AllFree(a, b, k, Origin(v, d, k), x)
  {
    OriginReached(a, b, v, d, k);
    var o := Origin(v, d, k);
    if o > x {
      DistDiagonal(a, b, x + 1, x + 1 - k, o, o - k);
    }
    forall j | o <= j < x
      ensures FreeOn(a, b, k, j)
    {
      NeighboursBeyond(a, b, v, d, k, j);
      DistDiagonal(a, b, j + 1, j + 1 - k, x, x - k);
    }
  }

  /** The first position past both texts is their common end, at the shortest distance. */
  lemma {:induction false} StopsAtTheEnd<T>(a: seq<T>, b: seq<T>, d: int, k: int, x: int)
    requires Furthest(a, b, d, k, x) && x >= |a| && x - k >= |b|
    requires Dist(a, b, |a|, |b|) >= d
    ensures x == |a| && x - k == |b| && Dist(a, b, |a|, |b|) == d
  {
    DistOutside(a, b, x, x - k);
    DistOutside(a, b, |a|, x - k);
  }

  /** If no diagonal reached the end for this distance, the end is further away. */
  lemma {:induction false} EndIsFurther<T>(a: seq<T>, b: seq<T>, v: map<int, int>, d: nat)
    requires Frontier(a, b, v, d) && Dist(a, b, |a|, |b|) >= d
    requires forall k | OnDiagonals(d, k) :: !(At(v, k) >= |a| && At(v, k) - k >= |b|)
    ensures Dist(a, b, |a|, |b|) >= d + 1
  {
    if Dist(a, b, |a|, |b|) == d {
      DistIsLcs(a, b, |a|, |b|);
      var k := |a| - |b|;
      assert OnDiagonals(d, k);
      assert Furthest(a, b, d, k, At(v, k));
      if At(v, k) < |a| {
        DistDiagonal(a, b, At(v, k) + 1, At(v, k) + 1 - k, |a|, |b|);
      }
    }
  }

  // ----- work accounting

  /** Work that one distance can use up: the snapshot, and every diagonal with its slide. */
  function WorkPerDistance(n: nat, m: nat): nat {
    (2 * (n + m) + 3) + (n + m + 1) * (n + 1)
  }

  /** A budget that is always enough for texts of n and m lines. */
  function EnoughWork(n: nat, m: nat): nat {
    (n + m + 1) * WorkPerDistance(n, m) + n + m
  }

  ghost function Range(lo: int, hi: int): (r: set<int>)
    ensures forall i :: i in r <==> lo <= i < hi
    ensures |r| == if lo <= hi then hi - lo else 0
    decreases hi - lo
  {
    if hi <= lo then {} else Range(lo, hi - 1) + {hi - 1}
  }

  lemma SubsetSize(small: set<int>, large: set<int>)
    requires small <= large
    ensures |small| <= |large|
  {
    assert large == small + (large - small);
  }

  lemma VectorsSize(v: map<int, int>, distance: int)
    requires distance >= 0 && forall k | k in v :: -distance < k < distance || k == 1
    ensures |v| <= 2 * distance + 1
  {
    SubsetSize(v.Keys, Range(1 - distance, distance) + {1});
  }

  // ----- backtracking

  function Reversed<T>(s: seq<T>): (r: seq<T>)
    ensures |r| == |s|
  {
    if s == [] then [] else Reversed(s[1..]) + [s[0]]
  }

  lemma {:induction false} ReversedAppend<T>(s: seq<T>, x: T)
    ensures Reversed(s + [x]) == [x] + Reversed(s)
  {
    if s != [] {
      assert (s + [x])[1..] == s[1..] + [x];
      ReversedAppend(s[1..], x);
    } else {
      assert (s + [x])[1..] == [];
    }
  }

  /** The steps collected so far, in reverse, rewrite what is left of the texts from (x, y) on. */
  ghost predicate Collected<T>(steps: seq<Operation<T>>, a: seq<T>, b: seq<T>, x: int, y: int, cost: int) {
    && 0 <= x <= |a| && 0 <= y <= |b|
    && IsScript(Reversed(steps), a[x..], b[y..])
    && Cost(Reversed(steps)) == cost
  }

  /** Adding one step in front of the collected (reversed) steps. */
  lemma {:induction false} CollectStep<T>(steps: seq<Operation<T>>, op: Operation<T>, a: seq<T>, b: seq<T>, x: int,
                                          y: int, cost: int)
    requires Collected(steps, a, b, x, y, cost)
    requires op.kind != Add ==> x > 0 && op.line == a[x - 1]
    requires op.kind != Delete ==> y > 0 && op.line == b[y - 1]
    ensures Collected(steps + [op], a, b, if op.kind == Add then x else x - 1, if op.kind == Delete then y else y - 1,
                      if op.kind == Equal then cost else cost + 1)
  {
    ReversedAppend(steps, op);
    Prepend(op, Reversed(steps));
    if x > 0 { assert [a[x - 1]] + a[x..] == a[x - 1..]; }
    if y > 0 { assert [b[y - 1]] + b[y..] == b[y - 1..]; }
  }

  /** Collects the free matches of one diagonal for as long as both columns exceed the given corner. */
  method CollectMatches<T(==)>(before: seq<T>, after: seq<T>, steps: seq<Operation<T>>, startX: int, startY: int,
                               toX: int, toY: int, ghost cost: int)
    returns (reversed: seq<Operation<T>>, x: int, y: int)
    requires Collected(steps, before, after, startX, startY, cost) && 0 <= toX <= startX && 0 <= toY <= startY
    requires AllFree(before, after, startX - startY, Max(toX, toY + startX - startY), startX)
    ensures x - y == startX - startY && toX <= x <= startX && toY <= y <= startY && (x == toX || y == toY)
    ensures Collected(reversed, before, after, x, y, cost)
  {
    reversed, x, y := steps, startX, startY;
    while x > toX && y > toY
      invariant toX <= x <= startX && toY <= y <= startY && x - y == startX - startY
      invariant Collected(reversed, before, after, x, y, cost)
    {
      assert FreeOn(before, after, startX - startY, x - 1);
      var op := Operation(Equal, before[x - 1]);
      CollectStep(reversed, op, before, after, x, y, cost);
      reversed, x, y := reversed + [op], x - 1, y - 1;
    }
  }

  /** The corner one distance earlier, and the free matches that lead from it to the current position. */
  lemma {:induction false} EarlierCorner<T>(a: seq<T>, b: seq<T>, v: map<int, int>, d: nat, k: int, x: int)
    requires d > 0 && Ready(a, b, v, d) && OnDiagonals(d, k) && Furthest(a, b, d, k, x)
    ensures var k' := if EntersByAdd(v, d, k) then k + 1 else k - 1;
      && OnDiagonals(d - 1, k') && Furthest(a, b, d - 1, k', At(v, k'))
      && 0 <= At(v, k') <= x && 0 <= At(v, k') - k' <= x - k
      && AllFree(a, b, k, Max(At(v, k'), At(v, k') - k' + k), x)
  {
    FurthestWasSlid(a, b, v, d, k, x);
  }

  /** Between two steps the walk stands on a furthest position, with the rest of the script collected. */
  ghost predicate Walking<T>(a: seq<T>, b: seq<T>, steps: seq<Operation<T>>, x: int, y: int, current: int, cost: int) {
    && OnDiagonals(current, x - y)
    && Furthest(a, b, current, x - y, x)
    && Collected(steps, a, b, x, y, cost)
  }

  /** The walk starts at the common end, with nothing collected. */
  lemma {:induction false} WalkStarts<T>(a: seq<T>, b: seq<T>, distance: int)
    requires OnDiagonals(distance, |a| - |b|) && Furthest(a, b, distance, |a| - |b|, |a|)
    ensures Walking(a, b, [], |a|, |b|, distance, 0)
  {
    assert a[|a|..] == [] && b[|b|..] == [];
  }

  lemma {:induction false} EverythingCollected<T>(steps: seq<Operation<T>>, a: seq<T>, b: seq<T>, cost: int)
    requires Collected(steps, a, b, 0, 0, cost)
    ensures IsScript(Reversed(steps), a, b) && Cost(Reversed(steps)) == cost
  {
    assert a[0..] == a && b[0..] == b;
  }

  /** At distance zero only free matches from the start are left. */
  lemma {:induction false} AtDistanceZero<T>(a: seq<T>, b: seq<T>, v: map<int, int>, x: int, y: int)
    requires Ready(a, b, v, 0) && OnDiagonals(0, x - y) && Furthest(a, b, 0, x - y, x)
    ensures x == y && AllFree(a, b, x - y, Max(0, 0 + x - y), x)
  {
    FurthestWasSlid(a, b, v, 0, 0, x);
  }

  /** One step of the walk: the free matches of the diagonal, then the edit that entered it. */
  method StepBack<T(==)>(before: seq<T>, after: seq<T>, trace: seq<map<int, int>>, current: int,
                         steps: seq<Operation<T>>, startX: int, startY: int, ghost cost: int)
    returns (reversed: seq<Operation<T>>, x: int, y: int)
    requires Snapshots(before, after, trace) && 0 < current < |trace|
    requires Walking(before, after, steps, startX, startY, current, cost)
    ensures Walking(before, after, reversed, x, y, current - 1, cost + 1)
  {
    var vector := trace[current];
    var diagonal := startX - startY;
    var previousDiagonal := diagonal - 1;
    if EntersByAdd(vector, current, diagonal) {
      previousDiagonal := diagonal + 1;
    }
    var previousX := At(vector, previousDiagonal);
    var previousY := previousX - previousDiagonal;
    EarlierCorner(before, after, vector, current, diagonal, startX);
    reversed, x, y := CollectMatches(before, after, steps, startX, startY, previousX, previousY, cost);
    if x == previousX {
      var op := Operation(Add, after[y - 1]);
      CollectStep(reversed, op, before, after, x, y, cost);
      reversed, y := reversed + [op], y - 1;
    } else {
      var op := Operation(Delete, before[x - 1]);
      CollectStep(reversed, op, before, after, x, y, cost);
      reversed, x := reversed + [op], x - 1;
    }
  }

  /** The free matches left at distance zero complete the script, which is then put in order. */
  method WalkToStart<T(==)>(before: seq<T>, after: seq<T>, ghost trace: seq<map<int, int>>, steps: seq<Operation<T>>,
                            startX: int, startY: int, ghost cost: int)
    returns (ops: seq<Operation<T>>)
    requires |trace| > 0 && Snapshots(before, after, trace) && Walking(before, after, steps, startX, startY, 0, cost)
    ensures IsScript(ops, before, after) && Cost(ops) == cost
  {
    AtDistanceZero(before, after, trace[0], startX, startY);
    var reversed, x, y := CollectMatches(before, after, steps, startX, startY, 0, 0, cost);
    assert x == 0 && y == 0;
    EverythingCollected(reversed, before, after, cost);
    ops := Reversed(reversed);
  }

  /**
   * Rebuilds the script from the snapshots, walking from the common end back to
   * the start. It fails exactly when the remaining budget is below one unit per step.
   */
  method Backtrack<T(==)>(before: seq<T>, after: seq<T>, trace: seq<map<int, int>>, distance: nat, spent: int,
                          maxWork: int)
    returns (ops: seq<Operation<T>>, ok: bool)
    requires |trace| == distance + 1
    requires Snapshots(before, after, trace)
    requires OnDiagonals(distance, |before| - |after|)
    requires Furthest(before, after, distance, |before| - |after|, |before|)
    requires spent <= maxWork
    ensures ok <==> spent + distance <= maxWork
    ensures ok ==> IsScript(ops, before, after) && Cost(ops) == distance
    ensures !ok ==> ops == []
  {
    hide *;
    var work := spent;
    var x, y := |before|, |after|;
    var reversed: seq<Operation<T>> := [];
    var current := distance;
    ghost var cost := 0;
    WalkStarts(before, after, distance);
    while current > 0
      invariant 0 <= current <= distance && work == spent + cost <= maxWork && cost == distance - current
      invariant Walking(before, after, reversed, x, y, current, cost)
    {
      if work >= maxWork {
        return [], false;
      }
      work := work + 1;
      reversed, x, y := StepBack(before, after, trace, current, reversed, x, y, cost);
      current, cost := current - 1, cost + 1;
    }
    ops := WalkToStart(before, after, trace, reversed, x, y, cost);
    ok := true;
  }

  // ----- the search

  /** Follows free matches, one unit of work each, as far as the budget allows. */
  method Slide<T(==)>(before: seq<T>, after: seq<T>, startX: int, diagonal: int, spent: int, maxWork: int)
    returns (x: int, work: int, ok: bool)
    requires 0 <= startX && 0 <= startX - diagonal && spent <= maxWork
    ensures startX <= x && AllFree(before, after, diagonal, startX, x)
    ensures ok ==> !Matches(before, after, x, x - diagonal)
    ensures spent <= work <= maxWork && work <= spent + |before|
    ensures !ok ==> work == maxWork
  {
    x, work := startX, spent;
    var y := startX - diagonal;
    while x < |before| && y < |after| && before[x] == after[y]
      invariant startX <= x && y == x - diagonal && (x == startX || x <= |before|)
      invariant AllFree(before, after, diagonal, startX, x)
      invariant work == spent + x - startX <= maxWork
    {
      if work > maxWork - 1 {
        return x, work, false;
      }
      work := work + 1;
      x, y := x + 1, y + 1;
    }
    ok := true;
  }

  lemma {:induction false} SlideIsFree<T>(a: seq<T>, b: seq<T>, k: int, lo: int, hi: int)
    requires 0 <= lo <= hi && 0 <= lo - k && AllFree(a, b, k, lo, hi)
    ensures Dist(a, b, hi, hi - k) == Dist(a, b, lo, lo - k)
    decreases hi
  {
    if lo < hi {
      assert FreeOn(a, b, k, hi - 1);
      SlideIsFree(a, b, k, lo, hi - 1);
    }
  }

  /** Within one distance the map still holds the previous frontier where it is read. */
  ghost predicate KeepsFrontier(vectors: map<int, int>, snapshot: map<int, int>, distance: int) {
    && (distance == 0 ==> At(vectors, 1) == At(snapshot, 1))
    && forall k | OnDiagonals(distance - 1, k) :: At(vectors, k) == At(snapshot, k)
  }

  lemma SameOrigin(vectors: map<int, int>, snapshot: map<int, int>, distance: int, diagonal: int)
    requires KeepsFrontier(vectors, snapshot, distance) && OnDiagonals(distance, diagonal)
    ensures Origin(vectors, distance, diagonal) == Origin(snapshot, distance, diagonal)
  {
    assert diagonal != -distance ==> OnDiagonals(distance - 1, diagonal - 1);
    assert diagonal != distance ==> OnDiagonals(distance - 1, diagonal + 1);
  }

  /** The entry and slide of one diagonal reach its furthest column unless the budget runs out. */
  method ReachDiagonal<T(==)>(before: seq<T>, after: seq<T>, vectors: map<int, int>, ghost snapshot: map<int, int>,
                              distance: int, diagonal: int, spent: int, maxWork: int)
    returns (x: int, work: int, ok: bool)
    requires distance >= 0 && Ready(before, after, snapshot, distance) && KeepsFrontier(vectors, snapshot, distance)
    requires OnDiagonals(distance, diagonal) && spent <= maxWork
    ensures ok ==> Furthest(before, after, distance, diagonal, x)
    ensures spent <= work <= maxWork && work <= spent + 1 + |before|
    ensures !ok ==> work == maxWork
  {
    if spent > maxWork - 1 {
      return 0, spent, false;
    }
    SameOrigin(vectors, snapshot, distance, diagonal);
    OriginReached(before, after, snapshot, distance, diagonal);
    var start: int;
    if diagonal == -distance || (diagonal != distance && At(vectors, diagonal - 1) < At(vectors, diagonal + 1)) {
      start := At(vectors, diagonal + 1);
    } else {
      start := At(vectors, diagonal - 1) + 1;
    }
    x, work, ok := Slide(before, after, start, diagonal, spent + 1, maxWork);
    if ok {
      SlideIsFree(before, after, diagonal, start, x);
      SlideEndsFurthest(before, after, snapshot, distance, diagonal, x);
    }
  }

  /** The diagonals below the current one are furthest for this distance and none has reached the end. */
  ghost predicate Advanced<T>(a: seq<T>, b: seq<T>, vectors: map<int, int>, distance: int, diagonal: int) {
    forall k | OnDiagonals(distance, k) && k < diagonal ::
      Furthest(a, b, distance, k, At(vectors, k)) && !(At(vectors, k) >= |a| && At(vectors, k) - k >= |b|)
  }

  lemma AdvanceOne<T>(a: seq<T>, b: seq<T>, vectors: map<int, int>, snapshot: map<int, int>, distance: int,
                      diagonal: int, x: int)
    requires KeepsFrontier(vectors, snapshot, distance) && Advanced(a, b, vectors, distance, diagonal)
    requires OnDiagonals(distance, diagonal) && Furthest(a, b, distance, diagonal, x)
    requires !(x >= |a| && x - diagonal >= |b|)
    ensures KeepsFrontier(vectors[diagonal := x], snapshot, distance)
    ensures Advanced(a, b, vectors[diagonal := x], distance, diagonal + 2)
  {
    forall k
      ensures At(vectors[diagonal := x], k) == if k == diagonal then x else At(vectors, k)
    {
    }
  }

  lemma {:induction false} NextDistance<T>(a: seq<T>, b: seq<T>, vectors: map<int, int>, distance: nat)
    requires Advanced(a, b, vectors, distance, distance + 1) && Dist(a, b, |a|, |b|) >= distance
    ensures Ready(a, b, vectors, distance + 1) && Dist(a, b, |a|, |b|) >= distance + 1
  {
    assert Frontier(a, b, vectors, distance);
    EndIsFurther(a, b, vectors, distance);
  }

  /** Most work that can be spent before the search for a distance starts. */
  function SpentBefore(n: nat, m: nat, distance: int): int {
    distance * WorkPerDistance(n, m)
  }

  /** Where a budget stands when some diagonals of a distance have been searched. */
  ghost predicate WithinBudget(n: nat, m: nat, distance: int, searched: int, work: int) {
    work <= SpentBefore(n, m, distance) + (2 * distance + 1) + searched * (n + 1)
  }

  lemma BudgetOfDistance(n: nat, m: nat, distance: int, searched: int, work: int)
    requires 0 <= searched <= distance + 1 && distance <= n + m && WithinBudget(n, m, distance, searched, work)
    ensures work <= SpentBefore(n, m, distance + 1)
  {
    var per := WorkPerDistance(n, m);
    assert searched * (n + 1) <= (n + m + 1) * (n + 1);
    assert distance * per + per == (distance + 1) * per;
  }

  lemma BudgetGrows(n: nat, m: nat, distance: int)
    ensures SpentBefore(n, m, distance) + 2 * (n + m) + 1 < SpentBefore(n, m, distance + 1)
  {
    var per := WorkPerDistance(n, m);
    assert distance * per + per == (distance + 1) * per;
  }

  lemma BudgetOfSearch(n: nat, m: nat, distance: int)
    requires 0 <= distance <= n + m
    ensures SpentBefore(n, m, distance + 1) + n + m <= EnoughWork(n, m)
  {
    Monotone(distance + 1, n + m + 1, WorkPerDistance(n, m));
    hide WorkPerDistance;
  }

  lemma Monotone(a: nat, b: nat, c: nat)
    requires a <= b
    ensures a * c <= b * c
  {
  }

  lemma OnEveryOther(distance: int, searched: int)
    requires 0 <= searched <= distance
    ensures OnDiagonals(distance, -distance + 2 * searched)
  {
  }

  lemma WithinBudgetAtStart(n: nat, m: nat, distance: int, work: int)
    requires work <= SpentBefore(n, m, distance) + 2 * distance + 1
    ensures WithinBudget(n, m, distance, 0, work)
  {
  }

  lemma SpendOnDiagonal(n: nat, m: nat, distance: int, searched: int, work: int, spent: int)
    requires WithinBudget(n, m, distance, searched, work) && spent <= work + 1 + n
    ensures WithinBudget(n, m, distance, searched + 1, spent)
  {
    assert (searched + 1) * (n + 1) == searched * (n + 1) + (n + 1);
  }

  lemma {:induction false} AllSearched<T>(a: seq<T>, b: seq<T>, vectors: map<int, int>, distance: nat, diagonal: int)
    requires Advanced(a, b, vectors, distance, diagonal) && diagonal > distance
    requires Dist(a, b, |a|, |b|) >= distance
    ensures Ready(a, b, vectors, distance + 1) && Dist(a, b, |a|, |b|) >= distance + 1
  {
    assert Advanced(a, b, vectors, distance, distance + 1);
    NextDistance(a, b, vectors, distance);
  }

  /** Deletes everything, then adds everything: the fallback script. */
  method ReplacementOperations<T>(before: seq<T>, after: seq<T>) returns (ops: seq<Operation<T>>)
    ensures ops == AllOf(Delete, before) + AllOf(Add, after)
    ensures IsScript(ops, before, after) && Cost(ops) == |before| + |after|
    ensures |before| == 0 || |after| == 0 ==> Cost(ops) == Dist(before, after, |before|, |after|)
  {
    ops := [];
    for i := 0 to |before|
      invariant IsScript(ops, before[..i], []) && Cost(ops) == i && ops == AllOf(Delete, before[..i])
    {
      assert before[..i + 1][..i] == before[..i];
      AppendOperation(ops, Operation(Delete, before[i]));
      ops := ops + [Operation(Delete, before[i])];
      assert before[..i + 1] == before[..i] + [before[i]];
    }
    assert before[..|before|] == before;
    for i := 0 to |after|
      invariant IsScript(ops, before, after[..i]) && Cost(ops) == |before| + i
      invariant ops == AllOf(Delete, before) + AllOf(Add, after[..i])
    {
      assert after[..i + 1][..i] == after[..i];
      AppendOperation(ops, Operation(Add, after[i]));
      ops := ops + [Operation(Add, after[i])];
      assert after[..i + 1] == after[..i] + [after[i]];
    }
    assert after[..|after|] == after;
  }

  datatype Progress = ReachedEnd | NotYet | OutOfBudget

  lemma {:induction false} NothingSearched<T>(a: seq<T>, b: seq<T>, vectors: map<int, int>, distance: int)
    ensures KeepsFrontier(vectors, vectors, distance) && Advanced(a, b, vectors, distance, -distance)
  {
  }

  /** Searches every diagonal of one distance, updating the map in place. */
  method SearchDistance<T(==)>(before: seq<T>, after: seq<T>, snapshot: map<int, int>, distance: int, spent: int,
                               maxWork: int)
    returns (vectors: map<int, int>, work: int, progress: Progress)
    requires distance >= 0 && Ready(before, after, snapshot, distance)
    requires Dist(before, after, |before|, |after|) >= distance
    requires forall k | k in snapshot :: -distance < k < distance || k == 1
    requires spent <= maxWork && spent <= SpentBefore(|before|, |after|, distance) + 2 * distance + 1
    ensures forall k | k in vectors :: -distance - 1 < k < distance + 1 || k == 1
    ensures spent <= work <= maxWork
    ensures progress.NotYet? ==> Ready(before, after, vectors, distance + 1)
    ensures progress.NotYet? ==> Dist(before, after, |before|, |after|) >= distance + 1
    ensures progress.ReachedEnd? ==> OnDiagonals(distance, |before| - |after|)
    ensures progress.ReachedEnd? ==> Furthest(before, after, distance, |before| - |after|, |before|)
    ensures progress.ReachedEnd? ==> Dist(before, after, |before|, |after|) == distance
    ensures distance <= |before| + |after| ==> work <= SpentBefore(|before|, |after|, distance + 1)
    ensures progress.OutOfBudget? ==> work == maxWork
  {
    hide *;
    vectors, work := snapshot, spent;
    var diagonal := -distance;
    ghost var searched := 0;
    NothingSearched(before, after, snapshot, distance);
    WithinBudgetAtStart(|before|, |after|, distance, spent);
    while diagonal <= distance
      invariant diagonal == -distance + 2 * searched && 0 <= searched <= distance + 1
      invariant KeepsFrontier(vectors, snapshot, distance) && Advanced(before, after, vectors, distance, diagonal)
      invariant forall k | k in vectors :: -distance - 1 < k < distance + 1 || k == 1
      invariant spent <= work <= maxWork && WithinBudget(|before|, |after|, distance, searched, work)
    {
      OnEveryOther(distance, searched);
      var x, reachedWork, ok := ReachDiagonal(before, after, vectors, snapshot, distance, diagonal, work, maxWork);
      SpendOnDiagonal(|before|, |after|, distance, searched, work, reachedWork);
      work := reachedWork;
      if distance <= |before| + |after| {
        BudgetOfDistance(|before|, |after|, distance, searched + 1, work);
      }
      if !ok {
        return vectors, work, OutOfBudget;
      }
      if x >= |before| && x - diagonal >= |after| {
        vectors := vectors[diagonal := x];
        StopsAtTheEnd(before, after, distance, diagonal, x);
        assert diagonal == |before| - |after|;
        return vectors, work, ReachedEnd;
      }
      AdvanceOne(before, after, vectors, snapshot, distance, diagonal, x);
      vectors := vectors[diagonal := x];
      diagonal, searched := diagonal + 2, searched + 1;
    }
    AllSearched(before, after, vectors, distance, diagonal);
    if distance <= |before| + |after| {
      BudgetOfDistance(|before|, |after|, distance, searched, work);
    }
    progress := NotYet;
  }

  lemma {:induction false} SnapshotTaken<T>(a: seq<T>, b: seq<T>, trace: seq<map<int, int>>, vectors: map<int, int>)
    requires Snapshots(a, b, trace) && Ready(a, b, vectors, |trace|)
    ensures Snapshots(a, b, trace + [vectors])
  {
  }

  lemma {:induction false} SearchStarts<T>(a: seq<T>, b: seq<T>)
    ensures Ready(a, b, map[1 := 0], 0) && Snapshots(a, b, []) && SpentBefore(|a|, |b|, 0) == 0
  {
  }

  /** The search proper, for two texts that are both non-empty. */
  method SearchScript<T(==)>(before: seq<T>, after: seq<T>, maxWork: int)
    returns (ops: seq<Operation<T>>, complete: bool)
    requires before != [] && after != [] && maxWork > 0
    ensures complete ==> IsScript(ops, before, after) && Cost(ops) == Dist(before, after, |before|, |after|)
    ensures !complete ==> ops == [] && maxWork < EnoughWork(|before|, |after|)
  {
    hide *;
    var work := 0;
    var vectors: map<int, int> := map[1 := 0];
    var trace: seq<map<int, int>> := [];
    SearchStarts(before, after);
    var maximumDistance := |before| + |after|;
    var distance := 0;
    while distance <= maximumDistance
      invariant 0 <= distance == |trace| && Snapshots(before, after, trace)
      invariant Ready(before, after, vectors, distance) && Dist(before, after, |before|, |after|) >= distance
      invariant forall k | k in vectors :: -distance < k < distance || k == 1
      invariant work <= maxWork && work <= SpentBefore(|before|, |after|, distance)
      decreases maximumDistance - distance
    {
      VectorsSize(vectors, distance);
      BudgetOfSearch(|before|, |after|, distance);
      BudgetGrows(|before|, |after|, distance);
      if work > maxWork - |vectors| {
        return [], false;
      }
      work := work + |vectors|;
      SnapshotTaken(before, after, trace, vectors);
      trace := trace + [vectors];
      var progress;
      vectors, work, progress := SearchDistance(before, after, vectors, distance, work, maxWork);
      match progress
      case OutOfBudget =>
        return [], false;
      case ReachedEnd =>
        ops, complete := Backtrack(before, after, trace, distance, work, maxWork);
        return;
      case NotYet =>
        distance := distance + 1;
    }
    DistIsLcs(before, after, |before|, |after|);
    assert false;
    ops, complete := [], false;
  }

  /**
   * Searches for a shortest script. The search is bounded by a work budget only:
   * whatever it completes with is shortest, and a budget of EnoughWork always completes.
   */
  method MyersDiff<T(==)>(before: seq<T>, after: seq<T>, maxWork: int)
    returns (ops: seq<Operation<T>>, complete: bool)
    ensures complete ==> IsScript(ops, before, after) && Cost(ops) == Dist(before, after, |before|, |after|)
    ensures !complete ==> ops == [] && maxWork < EnoughWork(|before|, |after|)
  {
    if |before| == 0 {
      ops := ReplacementOperations([], after);
      return ops, true;
    }
    if |after| == 0 {
      ops := ReplacementOperations(before, []);
      return ops, true;
    }
    if maxWork <= 0 {
      return [], false;
    }
    ops, complete := SearchScript(before, after, maxWork);
  }
}
