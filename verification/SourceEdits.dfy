// Disjoint edits of one source text and where an offset lands (internal/certificate/binding.go).
module SourceEdits {
  import opened Outcomes

  /** Replaces the bytes from..to of the text at `path`. */
  datatype Edit = Edit(path: string, from: nat, to: nat, text: string)

  /** In order and without overlap, all of one path and inside the text from `start` on. */
  predicate Disjoint(path: string, edits: seq<Edit>, start: nat, end: nat) {
    if edits == [] then start <= end
    else edits[0].path == path && start <= edits[0].from <= edits[0].to && Disjoint(path, edits[1..], edits[0].to, end)
  }

  /** The text from `start` on with the edits made. */
  function Apply(path: string, text: string, edits: seq<Edit>, start: nat): string
    requires Disjoint(path, edits, start, |text|)
    decreases |edits|
  {
    DisjointFits(path, edits, start, |text|);
    if edits == [] then text[start..]
    else text[start..edits[0].from] + edits[0].text + Apply(path, text, edits[1..], edits[0].to)
  }

  lemma {:induction false} DisjointFits(path: string, edits: seq<Edit>, start: nat, end: nat)
    requires Disjoint(path, edits, start, end)
    ensures start <= end && (edits != [] ==> edits[0].to <= end)
    decreases |edits|
  {
    if edits != [] { DisjointFits(path, edits[1..], edits[0].to, end); }
  }

  /** How far one edit moves an offset: not at all when it ends after it. */
  function Moved(path: string, edit: Edit, offset: nat): int {
    if edit.path == path && edit.to <= offset then |edit.text| - (edit.to - edit.from) else 0
  }

  function Shift(path: string, edits: seq<Edit>, offset: nat): int {
    if edits == [] then 0 else Shift(path, edits[..|edits| - 1], offset) + Moved(path, edits[|edits| - 1], offset)
  }

  /** No edit that moves the offset ends before it starts. */
  predicate Forward(path: string, edits: seq<Edit>, offset: nat) {
    forall e | e in edits && e.path == path && e.to <= offset :: e.from <= e.to
  }

  /** Moves an offset by the edits that end at or before it, whatever their order. */
  method OffsetAfterEdits(path: string, offset: nat, edits: seq<Edit>) returns (r: Option<nat>)
    ensures r.Some? <==> Forward(path, edits, offset) && 0 <= offset + Shift(path, edits, offset)
    ensures r.Some? ==> r.value == offset + Shift(path, edits, offset)
  {
    var adjusted: int := offset;
    for k := 0 to |edits|
      invariant adjusted == offset + Shift(path, edits[..k], offset)
      invariant forall i | 0 <= i < k && edits[i].path == path && edits[i].to <= offset :: edits[i].from <= edits[i].to
    {
      assert edits[..k + 1][..k] == edits[..k];
      var edit := edits[k];
      if edit.path == path && edit.to <= offset {
        var removed := edit.to - edit.from;
        if removed < 0 {
          assert edit in edits;
          return None;
        }
        adjusted := adjusted + |edit.text| - removed;
      }
    }
    assert edits[..|edits|] == edits;
    if adjusted < 0 {
      return None;
    }
    return Some(adjusted);
  }

  /** No edit spans the offset: it ends at or before it, or starts there or later. */
  predicate Clear(edits: seq<Edit>, offset: nat) {
    forall i | 0 <= i < |edits| :: edits[i].to <= offset || offset <= edits[i].from
  }

  /** The edits that end at or before an offset, and the others. */
  function Before(edits: seq<Edit>, offset: nat): (n: nat)
    ensures n <= |edits| && forall i | 0 <= i < n :: edits[i].to <= offset
    ensures n < |edits| ==> edits[n].to > offset
  {
    if edits == [] || edits[0].to > offset then 0
    else
      var n := Before(edits[1..], offset);
      assert forall i | 1 <= i < n + 1 :: edits[i] == edits[1..][i - 1];
      n + 1
  }

  lemma {:induction false} ShiftFromFront(path: string, edits: seq<Edit>, offset: nat)
    requires edits != []
    ensures Shift(path, edits, offset) == Shift(path, edits[1..], offset) + Moved(path, edits[0], offset)
    decreases |edits|
  {
    if |edits| > 1 {
      var front := edits[..|edits| - 1];
      ShiftFromFront(path, front, offset);
      assert front[1..] == edits[1..][..|edits| - 2];
    } else {
      assert edits[..0] == [] && edits[1..] == [];
    }
  }

  lemma {:induction false} LateEditsDoNotShift(path: string, edits: seq<Edit>, start: nat, end: nat, offset: nat)
    requires Disjoint(path, edits, start, end) && offset < start
    ensures Shift(path, edits, offset) == 0
    decreases |edits|
  {
    if edits != [] {
      ShiftFromFront(path, edits, offset);
      LateEditsDoNotShift(path, edits[1..], edits[0].to, end, offset);
    }
  }

  /** What `OffsetLands` says of a split of the edits at n. */
  predicate SplitsAt(path: string, text: string, edits: seq<Edit>, start: nat, offset: nat, n: nat)
    requires Disjoint(path, edits, start, |text|) && start <= offset <= |text| && n <= |edits|
  {
    && Disjoint(path, edits[..n], start, offset) && Disjoint(path, edits[n..], offset, |text|)
    && Apply(path, text, edits, start)
       == Apply(path, text[..offset], edits[..n], start) + Apply(path, text, edits[n..], offset)
    && |Apply(path, text[..offset], edits[..n], start)| == offset - start + Shift(path, edits, offset)
  }

  lemma {:induction false} NothingBefore(path: string, text: string, edits: seq<Edit>, start: nat, offset: nat)
    requires Disjoint(path, edits, start, |text|) && start <= offset <= |text| && Clear(edits, offset)
    requires Before(edits, offset) == 0
    requires edits != [] ==> offset <= edits[0].from
    ensures SplitsAt(path, text, edits, start, offset, 0)
  {
    hide Shift, Before;
    assert edits[..0] == [] && edits[0..] == edits && text[..offset][start..] == text[start..offset];
    NothingMoves(path, edits, start, |text|, offset);
    if edits == [] {
      assert text[start..] == text[start..offset] + text[offset..];
    } else {
      DisjointFits(path, edits, start, |text|);
      assert text[start..edits[0].from] == text[start..offset] + text[offset..edits[0].from];
    }
  }

  lemma {:induction false} NothingMoves(path: string, edits: seq<Edit>, start: nat, end: nat, offset: nat)
    requires Disjoint(path, edits, start, end) && Before(edits, offset) == 0
    ensures Shift(path, edits, offset) == 0
  {
    if edits != [] {
      ShiftFromFront(path, edits, offset);
      LateEditsDoNotShift(path, edits[1..], edits[0].to, end, offset);
    }
  }

  lemma {:induction false} OneBefore(path: string, text: string, edits: seq<Edit>, start: nat, offset: nat, n: nat)
    requires Disjoint(path, edits, start, |text|) && start <= offset <= |text| && 0 < n <= |edits|
    requires edits[0].to <= offset
    requires SplitsAt(path, text, edits[1..], edits[0].to, offset, n - 1)
    ensures SplitsAt(path, text, edits, start, offset, n)
  {
    hide Shift, Before, Clear;
    var first, front, rest := edits[0], edits[..n], edits[1..];
    assert front[1..] == rest[..n - 1] && edits[n..] == rest[n - 1..] && front[0] == first;
    ShiftFromFront(path, edits, offset);
    assert text[..offset][start..first.from] == text[start..first.from];
    assert Disjoint(path, front, start, offset);
    var head := text[start..first.from] + first.text;
    assert Apply(path, text[..offset], front, start) == head + Apply(path, text[..offset], rest[..n - 1], first.to);
    assert Apply(path, text, edits, start) == head + Apply(path, text, rest, first.to);
  }

  /**
   * An offset that no edit spans lands where the edits move it: everything before it is
   * what its own edits made of the text before, and everything from it on is the text from it on, edited.
   */
  lemma {:induction false} OffsetLands(path: string, text: string, edits: seq<Edit>, start: nat, offset: nat)
    requires Disjoint(path, edits, start, |text|) && start <= offset <= |text| && Clear(edits, offset)
    ensures SplitsAt(path, text, edits, start, offset, Before(edits, offset))
    decreases |edits|
  {
    hide SplitsAt, Apply, Shift;
    if Before(edits, offset) == 0 {
      assert edits != [] ==> offset <= edits[0].from;
      NothingBefore(path, text, edits, start, offset);
    } else {
      assert Clear(edits[1..], offset) by { assert forall i | 0 <= i < |edits| - 1 :: edits[1..][i] == edits[i + 1]; }
      OffsetLands(path, text, edits[1..], edits[0].to, offset);
      OneBefore(path, text, edits, start, offset, Before(edits, offset));
    }
  }

  /** The first byte of a server that no edit touches is the byte at the predicted offset. */
  lemma FirstByteLands(path: string, text: string, edits: seq<Edit>, offset: nat)
    requires Disjoint(path, edits, 0, |text|) && offset < |text| && Clear(edits, offset)
    requires forall e | e in edits :: e.from != offset || e.to == offset
    ensures var p := offset + Shift(path, edits, offset);
      0 <= p < |Apply(path, text, edits, 0)| && Apply(path, text, edits, 0)[p] == text[offset]
  {
    OffsetLands(path, text, edits, 0, offset);
    var n := Before(edits, offset);
    DisjointFits(path, edits[n..], offset, |text|);
    if n < |edits| { assert edits[n..][0] == edits[n] && edits[n] in edits; }
  }

  /**
   * Where an offset of the text is found in the edited text: behind everything that the
   * edits before it made of the text before it.
   */
  function Landing(path: string, text: string, edits: seq<Edit>, offset: nat): nat
    requires Disjoint(path, edits, 0, |text|) && offset <= |text| && Clear(edits, offset)
  {
    OffsetLands(path, text, edits, 0, offset);
    |Apply(path, text[..offset], edits[..Before(edits, offset)], 0)|
  }

  /** The edits of one path. */
  function Of(path: string, edits: seq<Edit>): seq<Edit> {
    if edits == [] then []
    else Of(path, edits[..|edits| - 1]) + if edits[|edits| - 1].path == path then [edits[|edits| - 1]] else []
  }

  lemma {:induction false} ShiftOfPath(path: string, edits: seq<Edit>, offset: nat)
    ensures Shift(path, edits, offset) == Shift(path, Of(path, edits), offset)
    decreases |edits|
  {
    if edits != [] {
      var front, last := edits[..|edits| - 1], edits[|edits| - 1];
      ShiftOfPath(path, front, offset);
      var rest := Of(path, front);
      assert (rest + [last])[..|rest|] == rest && rest + [] == rest;
    }
  }

  /**
   * Whatever the order and the other files of the planned edits: the offset is found, with its
   * byte, where they move it.
   */
  lemma LandsAsPredicted(path: string, text: string, made: seq<Edit>, planned: seq<Edit>, offset: nat)
    requires Disjoint(path, made, 0, |text|) && offset < |text| && Clear(made, offset)
    requires forall e | e in made :: e.from != offset || e.to == offset
    requires multiset(made) == multiset(Of(path, planned))
    ensures var p := Landing(path, text, made, offset);
      p == offset + Shift(path, planned, offset) && p < |Apply(path, text, made, 0)|
        && Apply(path, text, made, 0)[p] == text[offset]
  {
    OffsetLands(path, text, made, 0, offset);
    FirstByteLands(path, text, made, offset);
    ShiftIgnoresOrder(path, made, Of(path, planned), offset);
    ShiftOfPath(path, planned, offset);
  }

  lemma Removed<T>(b: seq<T>, i: nat)
    requires i < |b|
    ensures multiset(b[..i] + b[i + 1..]) == multiset(b) - multiset{b[i]}
  {
    assert b == b[..i] + ([b[i]] + b[i + 1..]);
    assert multiset(b) == multiset(b[..i]) + multiset([b[i]] + b[i + 1..]);
  }

  lemma Without<T>(a: seq<T>, b: seq<T>) returns (i: nat)
    requires multiset(a) == multiset(b) && a != []
    ensures i < |b| && b[i] == a[0] && multiset(b[..i] + b[i + 1..]) == multiset(a[1..])
  {
    assert a[0] in multiset(a);
    assert a[0] in b;
    i :| 0 <= i < |b| && b[i] == a[0];
    Removed(a, 0);
    Removed(b, i);
    assert a[..0] + a[1..] == a[1..];
  }

  /** The planner may list the edits in any order. */
  lemma {:induction false} ShiftIgnoresOrder(path: string, a: seq<Edit>, b: seq<Edit>, offset: nat)
    requires multiset(a) == multiset(b)
    ensures Shift(path, a, offset) == Shift(path, b, offset)
    decreases |a|
  {
    if a == [] {
      assert |multiset(b)| == |b|;
    } else {
      hide Shift;
      var i := Without(a, b);
      ShiftIgnoresOrder(path, a[1..], b[..i] + b[i + 1..], offset);
      ShiftFromFront(path, a, offset);
      ShiftWithout(path, b, i, offset);
    }
  }

  lemma {:induction false} ShiftWithout(path: string, b: seq<Edit>, i: nat, offset: nat)
    requires i < |b|
    ensures Shift(path, b, offset) == Shift(path, b[..i] + b[i + 1..], offset) + Moved(path, b[i], offset)
    decreases |b|
  {
    hide Moved;
    var rest := b[..i] + b[i + 1..];
    if i < |b| - 1 {
      var front := b[..|b| - 1];
      ShiftWithout(path, front, i, offset);
      assert rest[..|rest| - 1] == front[..i] + front[i + 1..] && rest[|rest| - 1] == b[|b| - 1];
    } else {
      assert rest == b[..|b| - 1];
    }
  }
}
