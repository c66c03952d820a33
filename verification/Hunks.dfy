// Grouping edit scripts into hunks and applying hunks to a text (internal/config/diff.go).
module Hunks {
  import opened EditScripts
  import opened Outcomes

  const CONTEXT_LINES := 3

  /** A half-open range of operations. */
  datatype Extent = Extent(start: int, end: int)

  /** One hunk as a patch states it: 1-based starts, line counts, and the body. */
  datatype Hunk<T> = Hunk(beforeStart: nat, beforeCount: nat, afterStart: nat, afterCount: nat, body: seq<Operation<T>>)

  predicate IsChange<T>(ops: seq<Operation<T>>, c: int) {
    0 <= c < |ops| && ops[c].kind != Equal
  }

  ghost predicate AllEqual<T>(ops: seq<Operation<T>>, lo: int, hi: int) {
    forall c {:trigger IsChange(ops, c)} | lo <= c < hi :: !IsChange(ops, c)
  }

  /** Some change lies within the context distance of position i. */
  ghost predicate NearChange<T>(ops: seq<Operation<T>>, i: int) {
    exists c :: IsChange(ops, c) && i - CONTEXT_LINES <= c <= i + CONTEXT_LINES
  }

  ghost predicate Covered(extents: seq<Extent>, i: int) {
    exists e :: e in extents && e.start <= i < e.end
  }

  /** Non-empty, inside the script, in order, and separated by at least one operation. */
  ghost predicate Ordered<T>(ops: seq<Operation<T>>, extents: seq<Extent>) {
    && (forall h | 0 <= h < |extents| :: 0 <= extents[h].start < extents[h].end <= |ops|)
    && forall g, h | 0 <= g < h < |extents| :: extents[g].end < extents[h].start
  }

  /**
   * The hunks of a script: exactly the operations within the context distance of
   * a change, as maximal runs. This determines the extents uniquely.
   */
  ghost predicate IsGrouping<T>(ops: seq<Operation<T>>, extents: seq<Extent>) {
    && Ordered(ops, extents)
    && forall i | 0 <= i < |ops| :: Covered(extents, i) <==> NearChange(ops, i)
  }

  /** Everything before `index` is grouped, and nothing near it is still to come. */
  ghost predicate GroupedUpTo<T>(ops: seq<Operation<T>>, extents: seq<Extent>, index: int) {
    && 0 <= index <= |ops|
    && Ordered(ops, extents)
    && (forall h | 0 <= h < |extents| :: extents[h].end <= index)
    && (forall i | 0 <= i < index :: Covered(extents, i) <==> NearChange(ops, i))
    && (extents != [] && index < |ops| ==> AllEqual(ops, index - CONTEXT_LINES, index + CONTEXT_LINES + 1))
    && (extents == [] ==> AllEqual(ops, 0, index))
  }

  /** From the first change on, everything up to the context after the last one is near a change. */
  ghost predicate Growing<T>(ops: seq<Operation<T>>, first: int, lastChange: int, index: int) {
    && 0 <= first <= lastChange < |ops| && IsChange(ops, first) && IsChange(ops, lastChange)
    && lastChange <= index <= |ops| && index <= lastChange + 2 * CONTEXT_LINES + 1
    && (forall i | first - CONTEXT_LINES <= i <= lastChange + CONTEXT_LINES :: NearChange(ops, i))
    && AllEqual(ops, lastChange + 1, index)
  }

  lemma NearOne<T>(ops: seq<Operation<T>>, c: int)
    requires IsChange(ops, c)
    ensures forall i | c - CONTEXT_LINES <= i <= c + CONTEXT_LINES :: NearChange(ops, i)
  {
  }

  /** A hunk that stops growing is separated from every later change by more than twice the context. */
  lemma CloseHunk<T>(ops: seq<Operation<T>>, extents: seq<Extent>, index: int, first: int, lastChange: int, e: Extent)
    requires GroupedUpTo(ops, extents, index) && index <= first && AllEqual(ops, index, first)
    requires Growing(ops, first, lastChange, Min(|ops|, lastChange + 2 * CONTEXT_LINES + 1))
    requires AllEqual(ops, lastChange + 1, lastChange + 2 * CONTEXT_LINES + 2)
    requires e.start == Max(0, first - CONTEXT_LINES) && e.end == Min(|ops|, lastChange + 1 + CONTEXT_LINES)
    ensures GroupedUpTo(ops, extents + [e], e.end)
  {
    var all := extents + [e];
    if extents != [] {
      assert IsChange(ops, first);
      assert first > index + CONTEXT_LINES;
    }
    assert Ordered(ops, all);
    forall i | 0 <= i < e.end
      ensures Covered(all, i) <==> NearChange(ops, i)
    {
      if i >= e.start {
        assert e in all;
        assert NearChange(ops, i);
      } else {
        assert Covered(all, i) <==> Covered(extents, i) by {
          forall x | x in all && x.start <= i < x.end
            ensures x in extents
          {
          }
        }
        if i >= index {
          assert !Covered(extents, i);
          assert forall c | IsChange(ops, c) :: c < index - CONTEXT_LINES || c >= first;
        }
      }
    }
  }

  /** Walks the script once and returns its hunks. */
  method DiffHunks<T>(ops: seq<Operation<T>>) returns (extents: seq<Extent>)
    ensures IsGrouping(ops, extents)
    ensures forall i | 0 <= i < |ops| ::
        Covered(extents, i) <==> exists c | 0 <= c < |ops| && i - 3 <= c <= i + 3 :: ops[c].kind != Equal
  {
    extents := [];
    var index := 0;
    while index < |ops|
      invariant GroupedUpTo(ops, extents, index)
      decreases |ops| - index
    {
      ghost var from := index;
      while index < |ops| && ops[index].kind == Equal
        invariant from <= index <= |ops| && AllEqual(ops, from, index)
      {
        index := index + 1;
      }
      if index == |ops| {
        assert GroupedUpTo(ops, extents, index) by { NothingLeft(ops, extents, from); }
        break;
      }
      var first := index;
      var start := Max(0, index - CONTEXT_LINES);
      var lastChange := index;
      NearOne(ops, first);
      while index < |ops|
        invariant Growing(ops, first, lastChange, index)
      {
        if ops[index].kind != Equal {
          NearOne(ops, index);
          lastChange := index;
        }
        if index - lastChange > 2 * CONTEXT_LINES {
          break;
        }
        index := index + 1;
      }
      var end := Min(|ops|, lastChange + 1 + CONTEXT_LINES);
      CloseHunk(ops, extents, from, first, lastChange, Extent(start, end));
      extents := extents + [Extent(start, end)];
      index := end;
    }
    forall i | 0 <= i < |ops|
      ensures NearChange(ops, i) <==> exists c | 0 <= c < |ops| && i - 3 <= c <= i + 3 :: ops[c].kind != Equal
    {
      NearIsWithinThree(ops, i);
    }
  }

  lemma NearIsWithinThree<T>(ops: seq<Operation<T>>, i: int)
    ensures NearChange(ops, i) <==> exists c | 0 <= c < |ops| && i - 3 <= c <= i + 3 :: ops[c].kind != Equal
  {
    if c :| 0 <= c < |ops| && i - 3 <= c <= i + 3 && ops[c].kind != Equal {
      assert IsChange(ops, c);
    }
  }

  lemma NothingLeft<T>(ops: seq<Operation<T>>, extents: seq<Extent>, index: int)
    requires GroupedUpTo(ops, extents, index) && AllEqual(ops, index, |ops|)
    ensures GroupedUpTo(ops, extents, |ops|)
  {
    assert index < |ops| ==> forall c | IsChange(ops, c) :: c < index - CONTEXT_LINES;
  }

  // ----- coordinates

  /** The line a range starts on: the line before it when the range is empty. */
  function StartLine(linesBefore: nat, count: nat): nat {
    if count == 0 then linesBefore else linesBefore + 1
  }

  /** The hunk that a patch states for a range of operations. */
  function HunkAt<T>(ops: seq<Operation<T>>, e: Extent): Hunk<T>
    requires 0 <= e.start <= e.end <= |ops|
  {
    var body := ops[e.start..e.end];
    var beforeCount, afterCount := |BeforeSide(body)|, |AfterSide(body)|;
    Hunk(StartLine(|BeforeSide(ops[..e.start])|, beforeCount), beforeCount,
         StartLine(|AfterSide(ops[..e.start])|, afterCount), afterCount, body)
  }

  /** Counts the lines before and inside a range on both sides. */
  method HunkCoordinates<T>(ops: seq<Operation<T>>, start: int, end: int)
    returns (beforeStart: nat, afterStart: nat, beforeCount: nat, afterCount: nat)
    requires 0 <= start <= end <= |ops|
    ensures Hunk(beforeStart, beforeCount, afterStart, afterCount, ops[start..end]) == HunkAt(ops, Extent(start, end))
  {
    var beforeLines, afterLines := 0, 0;
    for i := 0 to start
      invariant beforeLines == |BeforeSide(ops[..i])| && afterLines == |AfterSide(ops[..i])|
    {
      assert ops[..i + 1] == ops[..i] + [ops[i]];
      AppendOperation(ops[..i], ops[i]);
      if ops[i].kind != Add {
        beforeLines := beforeLines + 1;
      }
      if ops[i].kind != Delete {
        afterLines := afterLines + 1;
      }
    }
    beforeCount, afterCount := 0, 0;
    assert ops[start..start] == [];
    for i := start to end
      invariant beforeCount == |BeforeSide(ops[start..i])| && afterCount == |AfterSide(ops[start..i])|
    {
      assert ops[start..i + 1] == ops[start..i] + [ops[i]];
      AppendOperation(ops[start..i], ops[i]);
      if ops[i].kind != Add {
        beforeCount := beforeCount + 1;
      }
      if ops[i].kind != Delete {
        afterCount := afterCount + 1;
      }
    }
    beforeStart, afterStart := beforeLines + 1, afterLines + 1;
    if beforeCount == 0 {
      beforeStart := beforeLines;
    }
    if afterCount == 0 {
      afterStart := afterLines;
    }
  }

  function HunksAt<T>(ops: seq<Operation<T>>, extents: seq<Extent>): (hunks: seq<Hunk<T>>)
    requires forall e | e in extents :: 0 <= e.start <= e.end <= |ops|
    ensures |hunks| == |extents|
    ensures forall h | 0 <= h < |hunks| :: hunks[h] == HunkAt(ops, extents[h])
  {
    seq(|extents|, h requires 0 <= h < |extents| => HunkAt(ops, extents[h]))
  }

  // ----- strict application of a patch

  /** Lines that precede a range with the given start line and count. */
  function LinesBefore(start: nat, count: nat): int {
    if count == 0 then start else start - 1
  }

  /**
   * Applies hunks to a text, the way a strict patch tool does: every hunk must lie
   * behind the previous one, state counts that agree with its body, find its old
   * lines exactly where it says, and put its new lines exactly where it says.
   */
  function Apply<T(==)>(lines: seq<T>, hunks: seq<Hunk<T>>, consumed: nat, produced: nat): Option<seq<T>>
    requires consumed <= |lines|
  {
    if hunks == [] then Some(lines[consumed..])
    else
      var hunk := hunks[0];
      var at := LinesBefore(hunk.beforeStart, hunk.beforeCount);
      var removed, inserted := BeforeSide(hunk.body), AfterSide(hunk.body);
      if !(consumed <= at && at + |removed| <= |lines| && lines[at..at + |removed|] == removed) then None
      else if !(|removed| == hunk.beforeCount && |inserted| == hunk.afterCount) then None
      else if LinesBefore(hunk.afterStart, hunk.afterCount) != produced + (at - consumed) then None
      else
        match Apply(lines, hunks[1..], at + |removed|, produced + (at - consumed) + |inserted|)
        case None => None
        case Some(rest) => Some(lines[consumed..at] + inserted + rest)
  }

  lemma {:induction false} EqualSidesAgree<T>(ops: seq<Operation<T>>)
    requires AllEqual(ops, 0, |ops|)
    ensures BeforeSide(ops) == AfterSide(ops)
  {
    if ops != [] {
      assert !IsChange(ops, |ops| - 1);
      var init := ops[..|ops| - 1];
      forall c | 0 <= c < |init|
        ensures !IsChange(init, c)
      {
        assert !IsChange(ops, c);
      }
      EqualSidesAgree(ops[..|ops| - 1]);
    }
  }

  lemma {:induction false} SplitSides<T>(ops: seq<Operation<T>>, i: int, j: int)
    requires 0 <= i <= j <= |ops|
    ensures BeforeSide(ops[i..]) == BeforeSide(ops[i..j]) + BeforeSide(ops[j..])
    ensures AfterSide(ops[i..]) == AfterSide(ops[i..j]) + AfterSide(ops[j..])
    ensures BeforeSide(ops[..j]) == BeforeSide(ops[..i]) + BeforeSide(ops[i..j])
    ensures AfterSide(ops[..j]) == AfterSide(ops[..i]) + AfterSide(ops[i..j])
  {
    assert ops[i..] == ops[i..j] + ops[j..];
    assert ops[..j] == ops[..i] + ops[i..j];
    SideConcat(ops[i..j], ops[j..], Add);
    SideConcat(ops[i..j], ops[j..], Delete);
    SideConcat(ops[..i], ops[i..j], Add);
    SideConcat(ops[..i], ops[i..j], Delete);
  }

  ghost predicate InGap(extents: seq<Extent>, h: int, lo: int, hi: int, length: int)
    requires 0 <= h <= |extents|
  {
    && lo == (if h == 0 then 0 else extents[h - 1].end)
    && hi == (if h == |extents| then length else extents[h].start)
  }

  lemma GapIsUncovered<T>(ops: seq<Operation<T>>, extents: seq<Extent>, h: int, lo: int, hi: int, i: int)
    requires Ordered(ops, extents) && 0 <= h <= |extents| && InGap(extents, h, lo, hi, |ops|) && lo <= i < hi
    ensures !Covered(extents, i)
  {
    forall g | 0 <= g < |extents|
      ensures !(extents[g].start <= i < extents[g].end)
    {
      assert g < h - 1 ==> extents[g].end < extents[h - 1].start;
      assert g > h ==> extents[h].end < extents[g].start;
    }
  }

  /** Nothing changes in a gap before, between or after hunks. */
  lemma GapIsEqual<T>(ops: seq<Operation<T>>, extents: seq<Extent>, h: int, lo: int, hi: int)
    requires IsGrouping(ops, extents) && 0 <= h <= |extents| && InGap(extents, h, lo, hi, |ops|)
    requires 0 <= lo <= hi <= |ops|
    ensures BeforeSide(ops[lo..hi]) == AfterSide(ops[lo..hi])
  {
    forall c | 0 <= c < hi - lo
      ensures !IsChange(ops[lo..hi], c)
    {
      GapIsUncovered(ops, extents, h, lo, hi, lo + c);
      assert !NearChange(ops, lo + c);
      assert !IsChange(ops, lo + c);
    }
    EqualSidesAgree(ops[lo..hi]);
  }

  lemma {:induction false} ApplyFrom<T>(ops: seq<Operation<T>>, extents: seq<Extent>, h: int)
    requires IsGrouping(ops, extents) && 0 <= h <= |extents|
    ensures var p := if h == 0 then 0 else extents[h - 1].end;
      && |BeforeSide(ops[..p])| <= |BeforeSide(ops)|
      && Apply(BeforeSide(ops), HunksAt(ops, extents)[h..], |BeforeSide(ops[..p])|, |AfterSide(ops[..p])|)
         == Some(AfterSide(ops[p..]))
    decreases |extents| - h
  {
    var p := if h == 0 then 0 else extents[h - 1].end;
    var lines := BeforeSide(ops);
    assert ops[..|ops|] == ops;
    if h == |extents| {
      GapIsEqual(ops, extents, h, p, |ops|);
      assert ops[p..|ops|] == ops[p..];
      SplitSides(ops, p, |ops|);
      assert HunksAt(ops, extents)[h..] == [];
    } else {
      var s, t := extents[h].start, extents[h].end;
      var hunks := HunksAt(ops, extents)[h..];
      assert hunks[0] == HunkAt(ops, extents[h]) && hunks[1..] == HunksAt(ops, extents)[h + 1..];
      GapIsEqual(ops, extents, h, p, s);
      ApplyFrom(ops, extents, h + 1);
      ApplyOne(ops, p, extents[h], hunks);
    }
  }

  /** One application step on a text cut at the hunk. */
  lemma {:induction false} ApplyStep<T>(head: seq<T>, gap: seq<T>, tail: seq<T>, hunks: seq<Hunk<T>>, produced: nat,
                                        rest: seq<T>)
    requires hunks != []
    requires var hunk := hunks[0];
      && hunk.beforeCount == |BeforeSide(hunk.body)| && hunk.afterCount == |AfterSide(hunk.body)|
      && LinesBefore(hunk.beforeStart, hunk.beforeCount) == |head| + |gap|
      && LinesBefore(hunk.afterStart, hunk.afterCount) == produced + |gap|
      && Apply(head + gap + BeforeSide(hunk.body) + tail, hunks[1..], |head| + |gap| + hunk.beforeCount,
               produced + |gap| + hunk.afterCount) == Some(rest)
    ensures Apply(head + gap + BeforeSide(hunks[0].body) + tail, hunks, |head|, produced)
        == Some(gap + AfterSide(hunks[0].body) + rest)
  {
    var removed := BeforeSide(hunks[0].body);
    var lines := head + gap + removed + tail;
    assert lines[|head|..|head| + |gap|] == gap;
    assert lines[|head| + |gap|..|head| + |gap| + |removed|] == removed;
  }

  /** One hunk of a script, given the gap before it and the outcome of the hunks behind it. */
  lemma {:induction false} ApplyOne<T>(ops: seq<Operation<T>>, p: int, e: Extent, hunks: seq<Hunk<T>>)
    requires 0 <= p <= e.start <= e.end <= |ops| && hunks != [] && hunks[0] == HunkAt(ops, e)
    requires BeforeSide(ops[p..e.start]) == AfterSide(ops[p..e.start])
    requires |BeforeSide(ops[..e.end])| <= |BeforeSide(ops)|
    requires Apply(BeforeSide(ops), hunks[1..], |BeforeSide(ops[..e.end])|, |AfterSide(ops[..e.end])|)
        == Some(AfterSide(ops[e.end..]))
    ensures |BeforeSide(ops[..p])| <= |BeforeSide(ops)|
    ensures Apply(BeforeSide(ops), hunks, |BeforeSide(ops[..p])|, |AfterSide(ops[..p])|) == Some(AfterSide(ops[p..]))
  {
    hide Side;
    var body := ops[e.start..e.end];
    SplitSides(ops, p, e.start);
    SplitSides(ops, e.start, e.end);
    SplitSides(ops, 0, p);
    assert ops[0..] == ops;
    var head, gap, tail := BeforeSide(ops[..p]), BeforeSide(ops[p..e.start]), BeforeSide(ops[e.end..]);
    assert BeforeSide(ops) == head + gap + BeforeSide(body) + tail by {
      assert ops[0..p] == ops[..p];
    }
    ApplyStep(head, gap, tail, hunks, |AfterSide(ops[..p])|, AfterSide(ops[e.end..]));
    assert AfterSide(ops[p..]) == gap + AfterSide(body) + AfterSide(ops[e.end..]);
  }

  /** Applying the hunks of a script to the text it starts from gives the text it produces. */
  lemma HunksReproduceAfter<T>(ops: seq<Operation<T>>, extents: seq<Extent>)
    requires IsGrouping(ops, extents)
    ensures Apply(BeforeSide(ops), HunksAt(ops, extents), 0, 0) == Some(AfterSide(ops))
  {
    ApplyFrom(ops, extents, 0);
    assert ops[..0] == [] && ops[0..] == ops;
    assert HunksAt(ops, extents)[0..] == HunksAt(ops, extents);
  }
}
