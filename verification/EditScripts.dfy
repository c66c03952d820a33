// Edit scripts and the edit distance of the grid (internal/config/diff.go).
module EditScripts {

  datatype Kind = Equal | Delete | Add

  datatype Operation<T> = Operation(kind: Kind, line: T)

  function Min(x: int, y: int): int {
    if x <= y then x else y
  }

  function Max(x: int, y: int): int {
    if x >= y then x else y
  }

  /** The lines of every operation whose kind is not `dropped`, in order. */
  function Side<T>(ops: seq<Operation<T>>, dropped: Kind): seq<T> {
    if ops == [] then []
    else
      var last := ops[|ops| - 1];
      Side(ops[..|ops| - 1], dropped) + (if last.kind == dropped then [] else [last.line])
  }

  /** The text a script starts from: everything except the added lines. */
  function BeforeSide<T>(ops: seq<Operation<T>>): seq<T> {
    Side(ops, Add)
  }

  /** The text a script produces: everything except the deleted lines. */
  function AfterSide<T>(ops: seq<Operation<T>>): seq<T> {
    Side(ops, Delete)
  }

  function Count<T>(ops: seq<Operation<T>>, kind: Kind): nat {
    if ops == [] then 0
    else Count(ops[..|ops| - 1], kind) + (if ops[|ops| - 1].kind == kind then 1 else 0)
  }

  /** Additions plus deletions. */
  function Cost<T>(ops: seq<Operation<T>>): nat {
    Count(ops, Add) + Count(ops, Delete)
  }

  ghost predicate IsScript<T>(ops: seq<Operation<T>>, before: seq<T>, after: seq<T>) {
    BeforeSide(ops) == before && AfterSide(ops) == after
  }

  /** No script between the same two texts adds and deletes fewer lines. */
  ghost predicate IsShortest<T(!new)>(ops: seq<Operation<T>>, before: seq<T>, after: seq<T>) {
    && IsScript(ops, before, after)
    && forall other: seq<Operation<T>> :: IsScript(other, before, after) ==> Cost(ops) <= Cost(other)
  }

  function AllOf<T>(kind: Kind, lines: seq<T>): (ops: seq<Operation<T>>)
    ensures |ops| == |lines|
  {
    if lines == [] then []
    else AllOf(kind, lines[..|lines| - 1]) + [Operation(kind, lines[|lines| - 1])]
  }

  // ----- projections and counts distribute over concatenation

  lemma {:induction false} SideConcat<T>(a: seq<Operation<T>>, b: seq<Operation<T>>, dropped: Kind)
    ensures Side(a + b, dropped) == Side(a, dropped) + Side(b, dropped)
  {
    if b == [] {
      assert a + b == a;
    } else {
      assert (a + b)[..|a + b| - 1] == a + b[..|b| - 1];
      SideConcat(a, b[..|b| - 1], dropped);
    }
  }

  lemma {:induction false} CountConcat<T>(a: seq<Operation<T>>, b: seq<Operation<T>>, kind: Kind)
    ensures Count(a + b, kind) == Count(a, kind) + Count(b, kind)
  {
    if b == [] {
      assert a + b == a;
    } else {
      assert (a + b)[..|a + b| - 1] == a + b[..|b| - 1];
      CountConcat(a, b[..|b| - 1], kind);
    }
  }

  lemma {:induction false} AllOfSides<T>(kind: Kind, lines: seq<T>, other: Kind)
    ensures Side(AllOf(kind, lines), other) == if kind == other then [] else lines
    ensures Count(AllOf(kind, lines), other) == if kind == other then |lines| else 0
  {
    if lines != [] {
      AllOfSides(kind, lines[..|lines| - 1], other);
      var ops := AllOf(kind, lines);
      assert ops[..|ops| - 1] == AllOf(kind, lines[..|lines| - 1]);
    }
  }

  /** Prepending one operation extends both sides at the front. */
  lemma {:induction false} Prepend<T>(op: Operation<T>, ops: seq<Operation<T>>)
    ensures BeforeSide([op] + ops) == (if op.kind == Add then [] else [op.line]) + BeforeSide(ops)
    ensures AfterSide([op] + ops) == (if op.kind == Delete then [] else [op.line]) + AfterSide(ops)
    ensures Cost([op] + ops) == Cost(ops) + (if op.kind == Equal then 0 else 1)
  {
    SideConcat([op], ops, Add);
    SideConcat([op], ops, Delete);
    CountConcat([op], ops, Add);
    CountConcat([op], ops, Delete);
    assert [op][..0] == [];
  }

  /** The sides of a script, read from its first operation on. */
  lemma {:induction false} HeadSides<T>(ops: seq<Operation<T>>)
    requires ops != []
    ensures BeforeSide(ops) == (if ops[0].kind == Add then [] else [ops[0].line]) + BeforeSide(ops[1..])
    ensures AfterSide(ops) == (if ops[0].kind == Delete then [] else [ops[0].line]) + AfterSide(ops[1..])
  {
    assert ops == [ops[0]] + ops[1..];
    Prepend(ops[0], ops[1..]);
  }

  /** Appending one operation extends both sides at the end. */
  lemma {:induction false} AppendOperation<T>(ops: seq<Operation<T>>, op: Operation<T>)
    ensures BeforeSide(ops + [op]) == BeforeSide(ops) + (if op.kind == Add then [] else [op.line])
    ensures AfterSide(ops + [op]) == AfterSide(ops) + (if op.kind == Delete then [] else [op.line])
    ensures Cost(ops + [op]) == Cost(ops) + (if op.kind == Equal then 0 else 1)
  {
    assert (ops + [op])[..|ops|] == ops;
  }

  // ----- the edit grid

  /** Whether the step from (x, y) to (x+1, y+1) is free; never outside the grid. */
  predicate Matches<T(==)>(a: seq<T>, b: seq<T>, x: int, y: int) {
    0 <= x < |a| && 0 <= y < |b| && a[x] == b[y]
  }

  /**
   * Fewest non-free steps from (0, 0) to (x, y). The grid is unbounded: beyond
   * either text nothing matches, so overshooting positions have a distance too.
   */
  ghost function Dist<T>(a: seq<T>, b: seq<T>, x: nat, y: nat): nat
    decreases x + y
  {
    if x == 0 then y
    else if y == 0 then x
    else if Matches(a, b, x - 1, y - 1) then Dist(a, b, x - 1, y - 1)
    else 1 + Min(Dist(a, b, x - 1, y), Dist(a, b, x, y - 1))
  }

  lemma {:induction false} DistLipschitz<T>(a: seq<T>, b: seq<T>, x: nat, y: nat)
    ensures x > 0 ==> Dist(a, b, x, y) <= Dist(a, b, x - 1, y) + 1 && Dist(a, b, x - 1, y) <= Dist(a, b, x, y) + 1
    ensures y > 0 ==> Dist(a, b, x, y) <= Dist(a, b, x, y - 1) + 1 && Dist(a, b, x, y - 1) <= Dist(a, b, x, y) + 1
    decreases x + y
  {
    if x > 0 && y > 0 {
      DistLipschitz(a, b, x - 1, y);
      DistLipschitz(a, b, x, y - 1);
    }
  }

  /** Distances never drop along a diagonal. */
  lemma {:induction false} DistDiagonal<T>(a: seq<T>, b: seq<T>, x: nat, y: nat, x': nat, y': nat)
    requires x <= x' && x' - x == y' - y
    ensures Dist(a, b, x, y) <= Dist(a, b, x', y')
    decreases x'
  {
    if x < x' {
      DistDiagonal(a, b, x, y, x' - 1, y' - 1);
      DistLipschitz(a, b, x' - 1, y');
      DistLipschitz(a, b, x', y' - 1);
    }
  }

  /** Length of the longest common subsequence of the first x and the first y lines. */
  ghost function Lcs<T>(a: seq<T>, b: seq<T>, x: nat, y: nat): nat
    decreases x + y
  {
    if x == 0 || y == 0 then 0
    else if Matches(a, b, x - 1, y - 1) then Lcs(a, b, x - 1, y - 1) + 1
    else Max(Lcs(a, b, x - 1, y), Lcs(a, b, x, y - 1))
  }

  /** Every line outside the longest common subsequence costs one step. */
  lemma {:induction false} DistIsLcs<T>(a: seq<T>, b: seq<T>, x: nat, y: nat)
    ensures Dist(a, b, x, y) == x + y - 2 * Lcs(a, b, x, y)
    ensures Lcs(a, b, x, y) <= x && Lcs(a, b, x, y) <= y
    decreases x + y
  {
    if x > 0 && y > 0 {
      if Matches(a, b, x - 1, y - 1) {
        DistIsLcs(a, b, x - 1, y - 1);
      } else {
        DistIsLcs(a, b, x - 1, y);
        DistIsLcs(a, b, x, y - 1);
      }
    }
  }

  /** Past the end of both texts every further step costs one. */
  lemma {:induction false} DistOutside<T>(a: seq<T>, b: seq<T>, x: nat, y: nat)
    ensures y >= |b| ==> Dist(a, b, x, y) == Dist(a, b, x, |b|) + (y - |b|)
    ensures x >= |a| ==> Dist(a, b, x, y) == Dist(a, b, |a|, y) + (x - |a|)
    decreases x + y
  {
    if x > 0 && y > 0 {
      DistOutside(a, b, x - 1, y);
      DistOutside(a, b, x, y - 1);
      if y > |b| {
        DistLipschitz(a, b, x, |b|);
      }
      if x > |a| {
        DistLipschitz(a, b, |a|, y);
      }
    }
  }

  /** A script that consumes the first x and y lines costs at least Dist(x, y). */
  lemma {:induction false} ScriptAtLeastDist<T>(ops: seq<Operation<T>>, a: seq<T>, b: seq<T>, x: nat, y: nat)
    requires x <= |a| && y <= |b|
    requires IsScript(ops, a[..x], b[..y])
    ensures Cost(ops) >= Dist(a, b, x, y)
  {
    if ops != [] {
      var rest, last := ops[..|ops| - 1], ops[|ops| - 1];
      var x' := if last.kind == Add then x else x - 1;
      var y' := if last.kind == Delete then y else y - 1;
      if last.kind != Add {
        assert BeforeSide(ops) == BeforeSide(rest) + [last.line];
        assert BeforeSide(rest) == a[..x][..x - 1] == a[..x - 1];
        assert a[..x][x - 1] == last.line;
      }
      if last.kind != Delete {
        assert AfterSide(ops) == AfterSide(rest) + [last.line];
        assert AfterSide(rest) == b[..y][..y - 1] == b[..y - 1];
        assert b[..y][y - 1] == last.line;
      }
      ScriptAtLeastDist(rest, a, b, x', y');
      DistLipschitz(a, b, x, y);
    }
  }

  /** A script that costs exactly the distance between two texts is a shortest one. */
  lemma {:induction false} DistIsShortest<T(!new)>(ops: seq<Operation<T>>, a: seq<T>, b: seq<T>)
    requires IsScript(ops, a, b) && Cost(ops) == Dist(a, b, |a|, |b|)
    ensures IsShortest(ops, a, b)
  {
    assert a[..|a|] == a && b[..|b|] == b;
    forall other: seq<Operation<T>> | IsScript(other, a, b)
      ensures Cost(ops) <= Cost(other)
    {
      ScriptAtLeastDist(other, a, b, |a|, |b|);
    }
  }

  lemma {:induction false} LengthsAndCounts<T>(ops: seq<Operation<T>>)
    ensures |BeforeSide(ops)| == Count(ops, Equal) + Count(ops, Delete)
    ensures |AfterSide(ops)| == Count(ops, Equal) + Count(ops, Add)
  {
    if ops != [] {
      LengthsAndCounts(ops[..|ops| - 1]);
    }
  }

  /** A shortest script keeps as many lines as any script can. */
  lemma {:induction false} ShortestKeepsMost<T(!new)>(ops: seq<Operation<T>>, a: seq<T>, b: seq<T>,
                                                      other: seq<Operation<T>>)
    requires IsShortest(ops, a, b) && IsScript(other, a, b)
    ensures Count(other, Equal) <= Count(ops, Equal)
    ensures Cost(ops) == |a| + |b| - 2 * Count(ops, Equal)
  {
    LengthsAndCounts(ops);
    LengthsAndCounts(other);
  }

  // ----- trimming common edges preserves the distance

  lemma {:induction false} DistOnPrefixes<T>(a: seq<T>, b: seq<T>, a': seq<T>, b': seq<T>, x: nat, y: nat)
    requires x <= |a| && x <= |a'| && a[..x] == a'[..x]
    requires y <= |b| && y <= |b'| && b[..y] == b'[..y]
    ensures Dist(a, b, x, y) == Dist(a', b', x, y)
    decreases x + y
  {
    if x > 0 && y > 0 {
      assert a[x - 1] == a[..x][x - 1] == a'[x - 1];
      assert b[y - 1] == b[..y][y - 1] == b'[y - 1];
      assert a[..x - 1] == a[..x][..x - 1] == a'[..x - 1];
      assert b[..y - 1] == b[..y][..y - 1] == b'[..y - 1];
      DistOnPrefixes(a, b, a', b', x - 1, y - 1);
      DistOnPrefixes(a, b, a', b', x - 1, y);
      DistOnPrefixes(a, b, a', b', x, y - 1);
    }
  }

  lemma {:induction false} DistCommonHead<T>(c: T, a: seq<T>, b: seq<T>, x: nat, y: nat)
    ensures Dist([c] + a, [c] + b, x + 1, y + 1) == Dist(a, b, x, y)
    decreases x + y
  {
    if x > 0 {
      DistCommonHead(c, a, b, x - 1, y);
    }
    if y > 0 {
      DistCommonHead(c, a, b, x, y - 1);
    }
    if x > 0 && y > 0 {
      DistCommonHead(c, a, b, x - 1, y - 1);
    }
    assert x > 0 && y > 0 ==> Matches([c] + a, [c] + b, x, y) == Matches(a, b, x - 1, y - 1);
  }

  lemma {:induction false} DistCommonPrefix<T>(p: seq<T>, a: seq<T>, b: seq<T>)
    ensures Dist(p + a, p + b, |p| + |a|, |p| + |b|) == Dist(a, b, |a|, |b|)
  {
    if p == [] {
      assert p + a == a && p + b == b;
    } else {
      DistCommonPrefix(p[1..], a, b);
      assert [p[0]] + (p[1..] + a) == p + a;
      assert [p[0]] + (p[1..] + b) == p + b;
      DistCommonHead(p[0], p[1..] + a, p[1..] + b, |p| - 1 + |a|, |p| - 1 + |b|);
    }
  }

  lemma {:induction false} DistCommonSuffix<T>(a: seq<T>, b: seq<T>, s: seq<T>)
    ensures Dist(a + s, b + s, |a| + |s|, |b| + |s|) == Dist(a, b, |a|, |b|)
  {
    if s == [] {
      assert a + s == a && b + s == b;
    } else {
      var n := |s| - 1;
      DistCommonSuffix(a, b, s[..n]);
      assert (a + s)[..|a| + n] == a + s[..n] == (a + s[..n])[..|a| + n];
      assert (b + s)[..|b| + n] == b + s[..n] == (b + s[..n])[..|b| + n];
      DistOnPrefixes(a + s, b + s, a + s[..n], b + s[..n], |a| + n, |b| + n);
    }
  }

  lemma {:induction false} EdgesAroundSides<T>(p: seq<T>, ops: seq<Operation<T>>, s: seq<T>, kind: Kind)
    requires kind != Equal
    ensures Side(AllOf(Equal, p) + ops + AllOf(Equal, s), kind) == p + Side(ops, kind) + s
    ensures Count(AllOf(Equal, p) + ops + AllOf(Equal, s), kind) == Count(ops, kind)
  {
    var head, tail := AllOf(Equal, p), AllOf(Equal, s);
    AllOfSides(Equal, p, kind);
    AllOfSides(Equal, s, kind);
    SideConcat(head + ops, tail, kind);
    SideConcat(head, ops, kind);
    CountConcat(head + ops, tail, kind);
    CountConcat(head, ops, kind);
  }

  /** Trimming common edges first loses nothing. */
  lemma {:induction false} DistCommonEdges<T>(p: seq<T>, a: seq<T>, b: seq<T>, s: seq<T>)
    ensures Dist(p + a + s, p + b + s, |p| + |a| + |s|, |p| + |b| + |s|) == Dist(a, b, |a|, |b|)
  {
    DistCommonPrefix(p, a, b);
    DistCommonSuffix(p + a, p + b, s);
  }

  /** Wrapping a script in untouched common edges. */
  lemma {:induction false} EdgesAroundScript<T>(p: seq<T>, ops: seq<Operation<T>>, s: seq<T>, a: seq<T>, b: seq<T>)
    requires IsScript(ops, a, b)
    ensures IsScript(AllOf(Equal, p) + ops + AllOf(Equal, s), p + a + s, p + b + s)
    ensures Cost(AllOf(Equal, p) + ops + AllOf(Equal, s)) == Cost(ops)
  {
    EdgesAroundSides(p, ops, s, Add);
    EdgesAroundSides(p, ops, s, Delete);
  }
}
