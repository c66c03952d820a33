// Literal search in managed text: occurrences in order, line and rune columns, and
// clipped snippets (internal/config/search.go).
module Search {
  import opened ManifestBytes
  import opened Outcomes

  const SNIPPET_RUNES := 240
  const NEWLINE: byte := 0x0A
  const RETURN: byte := 0x0D

  // ----- runes

  /** An invalid byte counts as one rune. */
  function RuneWidth(s: Bytes): (n: nat)
    requires s != []
    ensures 1 <= n <= |s|
  {
    if RuneLength(s) > 0 then RuneLength(s) else 1
  }

  /** The bytes of each rune. */
  function Runes(s: Bytes): (r: seq<Bytes>)
    ensures |r| <= |s|
    decreases |s|
  {
    if s == [] then [] else [s[..RuneWidth(s)]] + Runes(s[RuneWidth(s)..])
  }

  function Joined(runes: seq<Bytes>): Bytes {
    if runes == [] then [] else runes[0] + Joined(runes[1..])
  }

  lemma {:induction false} JoinedRunes(s: Bytes)
    ensures Joined(Runes(s)) == s
    decreases |s|
  {
    if s != [] {
      var n := RuneWidth(s);
      JoinedRunes(s[n..]);
      assert s == s[..n] + s[n..];
      hide RuneWidth;
      assert Runes(s)[1..] == Runes(s[n..]);
    }
  }

  lemma RuneLengthOfPrefix(s: Bytes, rest: Bytes)
    requires RuneLength(s) > 0
    ensures RuneLength(s + rest) == RuneLength(s)
  {
    assert forall i | 0 <= i < |s| :: (s + rest)[i] == s[i];
  }

  /** A valid text is read rune by rune whatever follows it. */
  lemma {:induction false} RunesConcat(s: Bytes, rest: Bytes)
    requires ValidUtf8(s)
    ensures Runes(s + rest) == Runes(s) + Runes(rest)
    ensures ValidUtf8(s + rest) <==> ValidUtf8(rest)
    decreases |s|
  {
    if s == [] {
      assert s + rest == rest;
    } else {
      var n := RuneLength(s);
      RuneLengthOfPrefix(s, rest);
      hide RuneLength;
      assert (s + rest)[n..] == s[n..] + rest && (s + rest)[..n] == s[..n];
      RunesConcat(s[n..], rest);
      assert RuneWidth(s + rest) == n && RuneWidth(s) == n;
      assert Runes(s + rest) == [s[..n]] + (Runes(s[n..]) + Runes(rest));
    }
  }

  predicate OccursAt(line: Bytes, query: Bytes, i: nat) {
    i + |query| <= |line| && line[i..i + |query|] == query
  }

  lemma TailsAreInside(s: Bytes, k: nat)
    requires s != [] && 0 < k < RuneLength(s)
    ensures 0x80 <= s[k] < 0xC0
  {
  }

  lemma FirstIsNoTail(q: Bytes)
    requires q != [] && ValidUtf8(q)
    ensures !(0x80 <= q[0] < 0xC0)
  {
  }

  /** UTF-8 synchronises itself: a valid text occurs in a valid text only at a rune boundary. */
  lemma {:induction false} OccursAtBoundary(line: Bytes, q: Bytes, i: nat)
    requires ValidUtf8(line) && ValidUtf8(q) && q != [] && OccursAt(line, q, i)
    ensures ValidUtf8(line[..i])
    decreases |line|
  {
    var n := RuneLength(line);
    assert line[i] == line[i..i + |q|][0] == q[0];
    FirstIsNoTail(q);
    if i >= n {
      assert line[n..][i - n..i - n + |q|] == line[i..i + |q|];
      OccursAtBoundary(line[n..], q, i - n);
      assert line[..i] == line[..n] + line[n..][..i - n];
      assert line == line[..i] + line[i..];
      PrefixRune(line, i);
      assert line[..i][n..] == line[n..][..i - n];
    } else if i > 0 {
      TailsAreInside(line, i);
    }
  }

  lemma PrefixRune(line: Bytes, i: nat)
    requires line != [] && 0 < RuneLength(line) <= i <= |line|
    ensures RuneLength(line[..i]) == RuneLength(line)
  {
    assert forall k | 0 <= k < i :: line[..i][k] == line[k];
  }

  lemma MiddleSlice<T>(a: seq<T>, b: seq<T>, c: seq<T>)
    ensures (a + (b + c))[|a|..|a| + |b|] == b
  {
  }

  lemma SplitAtOccurrence(line: Bytes, q: Bytes, i: nat)
    requires OccursAt(line, q, i)
    ensures line == line[..i] + (q + line[i + |q|..])
  {
  }

  /** Where the runes of an occurrence stand among the runes of its line. */
  lemma OccurrenceRunes(line: Bytes, q: Bytes, i: nat)
    requires ValidUtf8(line) && ValidUtf8(q) && q != [] && OccursAt(line, q, i)
    ensures |Runes(line[..i])| + |Runes(q)| <= |Runes(line)|
    ensures Runes(line)[|Runes(line[..i])|..|Runes(line[..i])| + |Runes(q)|] == Runes(q)
  {
    hide Runes, ValidUtf8;
    OccursAtBoundary(line, q, i);
    SplitAtOccurrence(line, q, i);
    var before, after := line[..i], line[i + |q|..];
    RunesConcat(before, q + after);
    RunesConcat(q, after);
    MiddleSlice(Runes(before), Runes(q), Runes(after));
  }

  // ----- snippets

  /** The runes of a line that a snippet shows, from and to. */
  datatype Window = Window(start: nat, end: nat)

  /** At most 240 runes around a match of q runes that starts at rune `at`. */
  method ClipWindow(n: nat, at: nat, q: nat) returns (w: Window)
    requires at + q <= n
    ensures w.start <= w.end <= n && w.end - w.start == if n <= 240 then n else 240
    ensures if q <= 240 then w.start <= at && at + q <= w.end else w.start == at
    ensures q <= 240 < n ==>
      var middle := at - (240 - q) / 2;
      w.start == if middle < 0 then 0 else if middle > n - 240 then n - 240 else middle
  {
    if n <= SNIPPET_RUNES {
      return Window(0, n);
    }
    if q >= SNIPPET_RUNES {
      var end := if n < at + SNIPPET_RUNES then n else at + SNIPPET_RUNES;
      var start := if end - SNIPPET_RUNES > 0 then end - SNIPPET_RUNES else 0;
      return Window(start, end);
    }
    var context := SNIPPET_RUNES - q;
    var start := if at - context / 2 > 0 then at - context / 2 else 0;
    var end := start + SNIPPET_RUNES;
    if end > n {
      end := n;
      start := end - SNIPPET_RUNES;
    }
    return Window(start, end);
  }

  lemma {:induction false} JoinedConcat(a: seq<Bytes>, b: seq<Bytes>)
    ensures Joined(a + b) == Joined(a) + Joined(b)
    decreases |a|
  {
    if a == [] {
      assert a + b == b;
    } else {
      assert (a + b)[1..] == a[1..] + b;
      JoinedConcat(a[1..], b);
    }
  }

  predicate Contains(text: Bytes, query: Bytes) {
    exists i | 0 <= i <= |text| :: OccursAt(text, query, i)
  }

  lemma WindowContains(runes: seq<Bytes>, w: Window, at: nat, q: nat)
    requires w.start <= at && at + q <= w.end <= |runes|
    ensures Contains(Joined(runes[w.start..w.end]), Joined(runes[at..at + q]))
  {
    var a, b, c := runes[w.start..at], runes[at..at + q], runes[at + q..w.end];
    assert runes[w.start..w.end] == a + (b + c);
    JoinedConcat(a, b + c);
    JoinedConcat(b, c);
    MiddleSlice(Joined(a), Joined(b), Joined(c));
    assert OccursAt(Joined(runes[w.start..w.end]), Joined(b), |Joined(a)|);
  }

  /** A window over n runes is as wide as it may be and shows the q runes from `at` on, or their first 240. */
  predicate ShowsMatch(n: nat, at: nat, q: nat, i: int, j: int) {
    && 0 <= i <= j <= n && j - i == (if n <= SNIPPET_RUNES then n else SNIPPET_RUNES)
    && if q <= SNIPPET_RUNES then i <= at && at + q <= j else i == at
  }

  /** A snippet shows the runes of its own match among those around it, and so contains the text that was searched. */
  predicate IsSnippet(line: Bytes, query: Bytes, offset: nat, snippet: Bytes)
    requires offset <= |line|
  {
    var runes, at, q := Runes(line), |Runes(line[..offset])|, |Runes(query)|;
    && (exists i, j | 0 <= i <= j <= |runes| :: ShowsMatch(|runes|, at, q, i, j) && snippet == Joined(runes[i..j]))
    && at + q <= |runes| && runes[at..at + q] == Runes(query)
    && (q <= SNIPPET_RUNES ==> Contains(snippet, query))
  }

  method ClippedSnippet(line: Bytes, matchOffset: nat, query: Bytes) returns (snippet: Bytes)
    requires ValidUtf8(line) && ValidUtf8(query) && query != [] && OccursAt(line, query, matchOffset)
    ensures matchOffset <= |line| && IsSnippet(line, query, matchOffset, snippet)
  {
    hide Runes, Joined, ValidUtf8;
    OccurrenceRunes(line, query, matchOffset);
    var runes, at, q := Runes(line), |Runes(line[..matchOffset])|, |Runes(query)|;
    var w := ClipWindow(|runes|, at, q);
    snippet := Joined(runes[w.start..w.end]);
    assert ShowsMatch(|runes|, at, q, w.start, w.end);
    if q <= SNIPPET_RUNES {
      JoinedRunes(query);
      WindowContains(runes, w, at, q);
    }
  }

  // ----- occurrences

  /** The leftmost occurrence from an offset on. */
  function FirstFrom(line: Bytes, query: Bytes, offset: nat): (r: Option<nat>)
    requires offset <= |line|
    ensures r.None? ==> forall i | offset <= i :: !OccursAt(line, query, i)
    ensures r.Some? ==> offset <= r.value && OccursAt(line, query, r.value) && forall i | offset <= i < r.value ::
                        !OccursAt(line, query, i)
    decreases |line| - offset
  {
    if OccursAt(line, query, offset) then Some(offset)
    else if offset == |line| then None
    else FirstFrom(line, query, offset + 1)
  }

  function Offsets(line: Bytes, query: Bytes, offset: nat): seq<nat>
    requires query != [] && offset <= |line|
    decreases |line| - offset
  {
    match FirstFrom(line, query, offset)
    case None => []
    case Some(i) => [i] + Offsets(line, query, i + |query|)
  }

  predicate Covered(offsets: seq<nat>, query: Bytes, i: nat) {
    exists k | 0 <= k < |offsets| :: offsets[k] <= i < offsets[k] + |query|
  }

  predicate AllOccur(line: Bytes, query: Bytes, offset: nat, r: seq<nat>) {
    forall k | 0 <= k < |r| :: offset <= r[k] && OccursAt(line, query, r[k])
  }

  predicate Apart(query: Bytes, r: seq<nat>) {
    forall j, k | 0 <= j < k < |r| :: r[j] + |query| <= r[k]
  }

  ghost predicate AllCovered(line: Bytes, query: Bytes, offset: nat, r: seq<nat>) {
    forall i: nat | offset <= i && OccursAt(line, query, i) :: Covered(r, query, i)
  }

  /** Occurrences in order that do not overlap and leave no room for another one before or between them. */
  ghost predicate IsGreedy(line: Bytes, query: Bytes, offset: nat, r: seq<nat>) {
    AllOccur(line, query, offset, r) && Apart(query, r) && AllCovered(line, query, offset, r)
  }

  lemma CoveredByFirst(first: nat, rest: seq<nat>, query: Bytes, i: nat)
    ensures first <= i < first + |query| || Covered(rest, query, i) ==> Covered([first] + rest, query, i)
    ensures Covered([first] + rest, query, i) && i >= first + |query| ==> Covered(rest, query, i)
  {
    var r := [first] + rest;
    if first <= i < first + |query| {
      assert r[0] <= i < r[0] + |query|;
    } else if k :| 0 <= k < |rest| && rest[k] <= i < rest[k] + |query| {
      assert r[k + 1] == rest[k];
    }
    if k :| 0 <= k < |r| && r[k] <= i < r[k] + |query| {
      assert k > 0 ==> rest[k - 1] == r[k];
    }
  }

  lemma GreedyStep(line: Bytes, query: Bytes, offset: nat, first: nat, rest: seq<nat>)
    requires query != [] && offset <= first && OccursAt(line, query, first)
    requires forall i | offset <= i < first :: !OccursAt(line, query, i)
    requires IsGreedy(line, query, first + |query|, rest)
    ensures IsGreedy(line, query, offset, [first] + rest)
  {
    hide OccursAt, Covered;
    forall i: nat | offset <= i && OccursAt(line, query, i) ensures Covered([first] + rest, query, i) {
      CoveredByFirst(first, rest, query, i);
    }
  }

  lemma {:induction false} OffsetsAreGreedy(line: Bytes, query: Bytes, offset: nat)
    requires query != [] && offset <= |line|
    ensures IsGreedy(line, query, offset, Offsets(line, query, offset))
    decreases |line| - offset
  {
    hide OccursAt, IsGreedy;
    var first := FirstFrom(line, query, offset);
    match first
    case Some(i) =>
      OccursInside(line, query, i);
      OffsetsAreGreedy(line, query, i + |query|);
      GreedyStep(line, query, offset, i, Offsets(line, query, i + |query|));
    case None =>
      NothingIsGreedy(line, query, offset);
  }

  lemma OccursInside(line: Bytes, query: Bytes, i: nat)
    requires OccursAt(line, query, i)
    ensures i + |query| <= |line|
  {
  }

  lemma NothingIsGreedy(line: Bytes, query: Bytes, offset: nat)
    requires forall i | offset <= i :: !OccursAt(line, query, i)
    ensures IsGreedy(line, query, offset, [])
  {
  }

  lemma GreedyFirst(line: Bytes, query: Bytes, offset: nat, a: seq<nat>, b: seq<nat>)
    requires query != [] && IsGreedy(line, query, offset, a) && IsGreedy(line, query, offset, b) && a != []
    ensures b != [] && b[0] <= a[0]
  {
    hide OccursAt;
    assert Covered(b, query, a[0]);
  }

  /** There is only one such list, so it is the leftmost one. */
  lemma {:induction false} GreedyIsUnique(line: Bytes, query: Bytes, offset: nat, a: seq<nat>, b: seq<nat>)
    requires query != [] && IsGreedy(line, query, offset, a) && IsGreedy(line, query, offset, b)
    ensures a == b
    decreases |a|
  {
    hide IsGreedy;
    if a != [] { GreedyFirst(line, query, offset, a, b); }
    if b != [] { GreedyFirst(line, query, offset, b, a); }
    if a != [] {
      assert a == [a[0]] + a[1..] && b == [b[0]] + b[1..];
      GreedyRest(line, query, offset, a);
      GreedyRest(line, query, offset, b);
      GreedyIsUnique(line, query, a[0] + |query|, a[1..], b[1..]);
    }
  }

  lemma GreedyRest(line: Bytes, query: Bytes, offset: nat, a: seq<nat>)
    requires query != [] && IsGreedy(line, query, offset, a) && a != []
    ensures IsGreedy(line, query, a[0] + |query|, a[1..])
  {
    hide OccursAt, Covered;
    assert a == [a[0]] + a[1..];
    forall i: nat | a[0] + |query| <= i && OccursAt(line, query, i) ensures Covered(a[1..], query, i) {
      CoveredByFirst(a[0], a[1..], query, i);
    }
  }

  // ----- whole files

  datatype Match = Match(path: Bytes, line: nat, column: nat, snippet: Bytes)

  function NewlineFrom(content: Bytes, start: nat): (end: nat)
    requires start <= |content|
    ensures start <= end <= |content| && (end < |content| ==> content[end] == 0x0A)
    ensures forall i | start <= i < end :: content[i] != 0x0A
    decreases |content| - start
  {
    if start == |content| || content[start] == NEWLINE then start else NewlineFrom(content, start + 1)
  }

  function WithoutReturn(line: Bytes): Bytes {
    if line != [] && line[|line| - 1] == RETURN then line[..|line| - 1] else line
  }

  /** The places of all matches from a line on: line number, line and offset. */
  datatype Place = Place(number: nat, line: Bytes, offset: nat)

  function LinePlaces(number: nat, line: Bytes, offsets: seq<nat>): (r: seq<Place>)
    ensures |r| == |offsets|
  {
    seq(|offsets|, i requires 0 <= i < |offsets| => Place(number, line, offsets[i]))
  }

  function Places(content: Bytes, query: Bytes, start: nat, number: nat): seq<Place>
    requires query != [] && start <= |content|
    decreases |content| - start
  {
    if start == |content| then []
    else
      var end := NewlineFrom(content, start);
      var line := WithoutReturn(content[start..end]);
      LinePlaces(number, line, Offsets(line, query, 0))
      + Places(content, query, if end < |content| then end + 1 else end, number + 1)
  }

  /** A match shows its place: line number, rune column and snippet. */
  predicate Shows(m: Match, path: Bytes, p: Place, query: Bytes) {
    && m.path == path && m.line == p.number && p.offset <= |p.line| && m.column == |Runes(p.line[..p.offset])| + 1
    && IsSnippet(p.line, query, p.offset, m.snippet)
  }

  predicate AllShow(ms: seq<Match>, path: Bytes, places: seq<Place>, query: Bytes) {
    |ms| == |places| && forall i | 0 <= i < |ms| :: Shows(ms[i], path, places[i], query)
  }

  /** The matches grow by the first places that fit the limit; the search is complete exactly when all of them do. */
  predicate Extends(before: seq<Match>, after: seq<Match>, complete: bool, path: Bytes, places: seq<Place>,
                    query: Bytes, limit: nat) {
    && |before| <= limit && before <= after
    && |after| == (if |before| + |places| <= limit then |before| + |places| else limit)
    && AllShow(after[|before|..], path, places[..|after| - |before|], query)
    && complete == (|before| + |places| <= limit)
  }

  lemma ExtendsBoth(a: seq<Match>, b: seq<Match>, c: seq<Match>, complete: bool, path: Bytes, first: seq<Place>,
                    second: seq<Place>, query: Bytes, limit: nat)
    requires Extends(a, b, true, path, first, query, limit) && Extends(b, c, complete, path, second, query, limit)
    ensures Extends(a, c, complete, path, first + second, query, limit)
  {
    hide Shows;
    var all, places := c[|a|..], (first + second)[..|c| - |a|];
    assert b[|a|..] == all[..|first|] && c[|b|..] == all[|first|..];
    assert places == first + second[..|c| - |b|] && first[..|b| - |a|] == first;
    forall i | 0 <= i < |all| ensures Shows(all[i], path, places[i], query) {
      if i < |first| {
        assert Shows(b[|a|..][i], path, first[i], query);
      } else {
        assert Shows(c[|b|..][i - |first|], path, second[..|c| - |b|][i - |first|], query);
      }
    }
  }

  lemma ExtendsStopped(a: seq<Match>, b: seq<Match>, path: Bytes, first: seq<Place>, second: seq<Place>, query: Bytes,
                       limit: nat)
    requires Extends(a, b, false, path, first, query, limit)
    ensures Extends(a, b, false, path, first + second, query, limit)
  {
    hide Shows;
    assert (first + second)[..|b| - |a|] == first[..|b| - |a|];
  }

  lemma ExtendsByNothing(a: seq<Match>, path: Bytes, query: Bytes, limit: nat)
    requires |a| <= limit
    ensures Extends(a, a, true, path, [], query, limit)
  {
  }

  lemma ExtendsByOne(a: seq<Match>, m: Match, path: Bytes, p: Place, query: Bytes, limit: nat)
    requires |a| < limit && Shows(m, path, p, query)
    ensures Extends(a, a + [m], true, path, [p], query, limit)
  {
    hide Shows;
  }

  lemma ExtendsFull(a: seq<Match>, path: Bytes, places: seq<Place>, query: Bytes, limit: nat)
    requires |a| == limit && places != []
    ensures Extends(a, a, false, path, places, query, limit)
  {
  }

  lemma LinePlacesStep(number: nat, line: Bytes, i: nat, rest: seq<nat>)
    ensures LinePlaces(number, line, [i] + rest) == [Place(number, line, i)] + LinePlaces(number, line, rest)
  {
  }

  lemma OffsetsStep(line: Bytes, query: Bytes, offset: nat)
    requires query != [] && offset <= |line|
    ensures match FirstFrom(line, query, offset)
      case None => Offsets(line, query, offset) == []
      case Some(i) => i + |query| <= |line| && Offsets(line, query, offset) == [i] + Offsets(line, query, i + |query|)
  {
  }

  method SearchLine(path: Bytes, number: nat, line: Bytes, query: Bytes, limit: nat, matches: seq<Match>)
    returns (after: seq<Match>, complete: bool)
    requires query != [] && ValidUtf8(query) && ValidUtf8(line) && |matches| <= limit
    ensures Extends(matches, after, complete, path, LinePlaces(number, line, Offsets(line, query, 0)), query, limit)
  {
    hide Extends, Shows, IsSnippet, ValidUtf8, Runes, LinePlaces, Offsets, FirstFrom;
    after := matches;
    var offset := 0;
    ghost var done: seq<Place> := [];
    ExtendsByNothing(matches, path, query, limit);
    while offset + |query| <= |line|
      invariant offset <= |line| && |after| <= limit
      invariant Extends(matches, after, true, path, done, query, limit)
      invariant LinePlaces(number, line, Offsets(line, query, 0))
          == done + LinePlaces(number, line, Offsets(line, query, offset))
      decreases |line| - offset
    {
      OffsetsStep(line, query, offset);
      var first := FirstFrom(line, query, offset);
      ghost var rest := LinePlaces(number, line, Offsets(line, query, offset));
      if first.None? {
        NoPlaces(number, line);
        assert done + [] == done;
        return after, true;
      }
      var i := first.value;
      FirstOccurs(line, query, offset);
      var place := Place(number, line, i);
      LinePlacesStep(number, line, i, Offsets(line, query, i + |query|));
      if |after| == limit {
        ExtendsFull(after, path, rest, query, limit);
        ExtendsBoth(matches, after, after, false, path, done, rest, query, limit);
        return after, false;
      }
      var snippet := ClippedSnippet(line, i, query);
      var found := Match(path, number, |Runes(line[..i])| + 1, snippet);
      ShowsFound(found, path, place, query);
      ExtendsByOne(after, found, path, place, query, limit);
      ExtendsBoth(matches, after, after + [found], true, path, done, [place], query, limit);
      ConcatAssociates(done, [place], LinePlaces(number, line, Offsets(line, query, i + |query|)));
      done := done + [place];
      after := after + [found];
      ExtendsBound(matches, after, true, path, done, query, limit);
      offset := i + |query|;
    }
    NothingFits(line, query, offset);
    NoPlaces(number, line);
    assert done + [] == done;
    return after, true;
  }

  lemma NoPlaces(number: nat, line: Bytes)
    ensures LinePlaces(number, line, []) == []
  {
  }

  lemma FirstOccurs(line: Bytes, query: Bytes, offset: nat)
    requires offset <= |line| && FirstFrom(line, query, offset).Some?
    ensures OccursAt(line, query, FirstFrom(line, query, offset).value)
    ensures offset <= FirstFrom(line, query, offset).value
  {
  }

  lemma NothingFits(line: Bytes, query: Bytes, offset: nat)
    requires query != [] && offset <= |line| < offset + |query|
    ensures Offsets(line, query, offset) == []
  {
    OffsetsStep(line, query, offset);
  }

  lemma ShowsFound(m: Match, path: Bytes, p: Place, query: Bytes)
    requires m.path == path && m.line == p.number && p.offset <= |p.line| && m.column == |Runes(p.line[..p.offset])| + 1
    requires IsSnippet(p.line, query, p.offset, m.snippet)
    ensures Shows(m, path, p, query)
  {
  }

  lemma ExtendsBound(before: seq<Match>, after: seq<Match>, complete: bool, path: Bytes, places: seq<Place>,
                     query: Bytes, limit: nat)
    requires Extends(before, after, complete, path, places, query, limit)
    ensures |after| <= limit && (!complete ==> |after| == limit)
  {
  }

  lemma ConcatAssociates<T>(a: seq<T>, b: seq<T>, c: seq<T>)
    ensures a + (b + c) == a + b + c
  {
  }

  /** A valid text can be cut at an ASCII byte. */
  lemma CutAtAscii(text: Bytes, n: nat)
    requires ValidUtf8(text) && n < |text| && text[n] < 0x80
    ensures ValidUtf8(text[..n]) && ValidUtf8(text[n + 1..])
  {
    var mark := [text[n]];
    AsciiIsValid(mark);
    assert text[n..n + |mark|] == mark;
    OccursAtBoundary(text, mark, n);
    SplitAtOccurrence(text, mark, n);
    hide ValidUtf8;
    RunesConcat(text[..n], mark + text[n + 1..]);
    RunesConcat(mark, text[n + 1..]);
  }

  lemma LineIsValid(content: Bytes, start: nat, end: nat)
    requires start <= end <= |content| && ValidUtf8(content[start..]) && (end < |content| ==> content[end] == NEWLINE)
    ensures ValidUtf8(content[start..end]) && (end < |content| ==> ValidUtf8(content[end + 1..]))
    ensures ValidUtf8(WithoutReturn(content[start..end]))
  {
    hide ValidUtf8;
    var text, n, line := content[start..], end - start, content[start..end];
    assert text[..n] == line;
    if end < |content| {
      CutAtAscii(text, n);
      assert text[n + 1..] == content[end + 1..];
    } else {
      assert text[..n] == text;
    }
    if line != [] && line[|line| - 1] == RETURN { CutAtAscii(line, |line| - 1); }
  }

  /** All lines of one file, appending to the matches found before. */
  method SearchContent(path: Bytes, content: Bytes, query: Bytes, limit: nat, matches: seq<Match>)
    returns (after: seq<Match>, complete: bool)
    requires query != [] && ValidUtf8(query) && ValidUtf8(content) && |matches| <= limit
    ensures Extends(matches, after, complete, path, Places(content, query, 0, 1), query, limit)
  {
    hide Extends, Shows, ValidUtf8, LinePlaces, Offsets, WithoutReturn;
    after := matches;
    var start, number := 0, 1;
    ghost var done: seq<Place> := [];
    ExtendsByNothing(matches, path, query, limit);
    assert content[0..] == content;
    while start < |content|
      invariant start <= |content| && |after| <= limit && ValidUtf8(content[start..])
      invariant Extends(matches, after, true, path, done, query, limit)
      invariant Places(content, query, 0, 1) == done + Places(content, query, start, number)
    {
      var end := NewlineFrom(content, start);
      LineIsValid(content, start, end);
      var line := WithoutReturn(content[start..end]);
      ghost var here := LinePlaces(number, line, Offsets(line, query, 0));
      var next := if end < |content| then end + 1 else end;
      ghost var rest := Places(content, query, next, number + 1);
      ghost var before := after;
      after, complete := SearchLine(path, number, line, query, limit, after);
      ExtendsBound(before, after, complete, path, here, query, limit);
      ExtendsBoth(matches, before, after, complete, path, done, here, query, limit);
      ConcatAssociates(done, here, rest);
      if !complete {
        ExtendsStopped(matches, after, path, done + here, rest, query, limit);
        return after, false;
      }
      done := done + here;
      start, number := next, number + 1;
      assert end == |content| ==> content[start..] == content[end..];
      EmptyIsValid(content, start);
    }
    assert done + [] == done;
    return after, true;
  }

  lemma EmptyIsValid(content: Bytes, start: nat)
    requires start == |content|  || (0 < start <= |content| && ValidUtf8(content[start..]))
    ensures ValidUtf8(content[start..])
  {
  }

  datatype File = File(path: Bytes, content: Bytes)

  function FilePlaces(files: seq<File>, query: Bytes): seq<(Bytes, Place)>
    requires query != []
  {
    if files == [] then []
    else
      var last := files[|files| - 1];
      FilePlaces(files[..|files| - 1], query) + Tagged(last.path, Places(last.content, query, 0, 1))
  }

  function Tagged(path: Bytes, places: seq<Place>): (r: seq<(Bytes, Place)>)
    ensures |r| == |places|
  {
    seq(|places|, i requires 0 <= i < |places| => (path, places[i]))
  }

  predicate FileMatches(ms: seq<Match>, found: seq<(Bytes, Place)>, query: Bytes) {
    |ms| <= |found| && forall i | 0 <= i < |ms| :: Shows(ms[i], found[i].0, found[i].1, query)
  }

  lemma FileMatchesGrow(before: seq<Match>, after: seq<Match>, complete: bool, path: Bytes, places: seq<Place>,
                        query: Bytes, limit: nat, found: seq<(Bytes, Place)>)
    requires Extends(before, after, complete, path, places, query, limit)
    requires FileMatches(before, found, query) && |before| == |found|
    ensures FileMatches(after, found + Tagged(path, places), query)
    ensures complete ==> |after| == |found + Tagged(path, places)|
    ensures !complete ==> |after| == limit < |found + Tagged(path, places)|
  {
    hide Shows;
    var all := found + Tagged(path, places);
    forall i | 0 <= i < |after| ensures Shows(after[i], all[i].0, all[i].1, query) {
      if i < |before| {
        assert after[i] == before[i];
      } else {
        assert Shows(after[|before|..][i - |before|], path, places[..|after| - |before|][i - |before|], query);
      }
    }
  }

  /** Managed files in path order: exactly the first `limit` matches, incomplete exactly when there are more. */
  method SearchFiles(files: seq<File>, query: Bytes, limit: nat) returns (matches: seq<Match>, complete: bool)
    requires query != [] && ValidUtf8(query) && forall i | 0 <= i < |files| :: ValidUtf8(files[i].content)
    ensures var found := FilePlaces(files, query);
      && FileMatches(matches, found, query) && |matches| == (if |found| <= limit then |found| else limit)
      && complete == (|found| <= limit)
  {
    hide Extends, Shows, ValidUtf8, Places, FileMatches;
    matches := [];
    ghost var found := [];
    assert FileMatches([], [], query) by { NoFileMatches(query); }
    for i := 0 to |files|
      invariant found == FilePlaces(files[..i], query) && FileMatches(matches, found, query)
      invariant |matches| == |found| <= limit
    {
      ghost var before := matches;
      matches, complete := SearchContent(files[i].path, files[i].content, query, limit, matches);
      ghost var here := Places(files[i].content, query, 0, 1);
      FileMatchesGrow(before, matches, complete, files[i].path, here, query, limit, found);
      ExtendsBound(before, matches, complete, files[i].path, here, query, limit);
      assert files[..i + 1][..i] == files[..i];
      found := found + Tagged(files[i].path, here);
      if !complete {
        MorePlaces(files, query, i + 1);
        FileMatchesPrefix(matches, found, FilePlaces(files, query), query);
        return;
      }
    }
    assert files[..|files|] == files;
    return matches, true;
  }

  lemma NoFileMatches(query: Bytes)
    ensures FileMatches([], [], query)
  {
  }

  lemma {:induction false} MorePlaces(files: seq<File>, query: Bytes, n: nat)
    requires query != [] && n <= |files|
    ensures FilePlaces(files[..n], query) <= FilePlaces(files, query)
    decreases |files| - n
  {
    if n < |files| {
      MorePlaces(files, query, n + 1);
      assert files[..n + 1][..n] == files[..n];
    } else {
      assert files[..n] == files;
    }
  }

  lemma FileMatchesPrefix(ms: seq<Match>, found: seq<(Bytes, Place)>, more: seq<(Bytes, Place)>, query: Bytes)
    requires FileMatches(ms, found, query) && found <= more
    ensures FileMatches(ms, more, query)
  {
    hide Shows;
  }
}
