// Line-based unified diffs of whole files (internal/config/diff.go).
module LineDiff {
  import opened EditScripts
  import opened Hunks
  import Myers
  import opened Outcomes
  import opened PatchText

  // ----- lines of a file

  function Flatten(lines: seq<Line>): string {
    if lines == [] then "" else Flatten(lines[..|lines| - 1]) + lines[|lines| - 1]
  }

  /** The lines are maximal: every one but the last is terminated. */
  ghost predicate IsSplit(lines: seq<Line>, content: string) {
    && Flatten(lines) == content
    && (forall i | 0 <= i < |lines| :: IsLine(lines[i]))
    && forall i | 0 <= i < |lines| - 1 :: Terminated(lines[i])
  }

  lemma {:induction false} FlattenFront(lines: seq<Line>)
    requires lines != []
    ensures Flatten(lines) == lines[0] + Flatten(lines[1..])
  {
    if |lines| > 1 {
      var init := lines[..|lines| - 1];
      FlattenFront(init);
      assert init[1..] == lines[1..][..|lines| - 2];
    }
  }

  /** Where the first line of a split ends is determined by the content alone. */
  lemma FirstLineEnds(lines: seq<Line>, content: string)
    requires IsSplit(lines, content) && lines != []
    ensures LineEnd(content) == |lines[0]| && content == lines[0] + Flatten(lines[1..])
  {
    FlattenFront(lines);
    if Terminated(lines[0]) {
      LineEndOfLine(lines[0], Flatten(lines[1..]));
    } else {
      assert |lines| == 1 && lines[1..] == [];
      LineEndUnterminated(lines[0]);
    }
  }

  lemma {:induction false} LineEndUnterminated(line: Line)
    requires IsLine(line) && !Terminated(line)
    ensures LineEnd(line) == |line|
  {
    if |line| > 1 {
      assert line[0] in line[..|line| - 1];
      assert line[1..][..|line| - 2] == line[..|line| - 1][1..];
      LineEndUnterminated(line[1..]);
    }
  }

  /** A file has only one split into lines, so the lines determine the file and the other way round. */
  lemma {:induction false} SplitIsUnique(a: seq<Line>, b: seq<Line>, content: string)
    requires IsSplit(a, content) && IsSplit(b, content)
    ensures a == b
    decreases |a|
  {
    if a != [] { FlattenFront(a); }
    if b != [] { FlattenFront(b); }
    if a != [] && b != [] {
      FirstLineEnds(a, content);
      FirstLineEnds(b, content);
      assert a[0] == content[..|a[0]|] == b[0];
      assert Flatten(a[1..]) == content[|a[0]|..] == Flatten(b[1..]);
      SplitIsUnique(a[1..], b[1..], content[|a[0]|..]);
      assert a == [a[0]] + a[1..] && b == [b[0]] + b[1..];
    }
  }

  /** The lines of a file. */
  function Lines(content: string): seq<Line>
    decreases |content|
  {
    if content == "" then [] else [content[..LineEnd(content)]] + Lines(content[LineEnd(content)..])
  }

  lemma {:induction false} LinesAreSplit(lines: seq<Line>, content: string)
    requires IsSplit(lines, content)
    ensures lines == Lines(content)
    decreases |lines|
  {
    if lines != [] {
      FirstLineEnds(lines, content);
      var rest := content[|lines[0]|..];
      assert rest == Flatten(lines[1..]);
      LinesAreSplit(lines[1..], rest);
      assert lines == [lines[0]] + lines[1..];
    }
  }

  /** Position of the first newline, or the length when there is none. */
  method IndexNewline(content: string) returns (end: nat)
    ensures end <= |content| && '\n' !in content[..end]
    ensures end < |content| ==> content[end] == '\n'
  {
    end := 0;
    while end < |content| && content[end] != '\n'
      invariant end <= |content| && '\n' !in content[..end]
    {
      end := end + 1;
    }
  }

  method SplitDiffLines(content: string) returns (lines: seq<Line>)
    ensures IsSplit(lines, content) && lines == Lines(content)
  {
    lines := [];
    var rest := content;
    while |rest| > 0
      invariant Flatten(lines) + rest == content
      invariant forall i | 0 <= i < |lines| :: IsLine(lines[i]) && Terminated(lines[i])
      decreases |rest|
    {
      var end := IndexNewline(rest);
      if end == |rest| {
        FlattenAppend(lines, rest);
        assert rest[..|rest| - 1] == rest[..end][..|rest| - 1];
        LinesAreSplit(lines + [rest], content);
        return lines + [rest];
      }
      var line := rest[..end + 1];
      FlattenAppend(lines, line);
      assert line[..|line| - 1] == rest[..end];
      assert rest == line + rest[end + 1..];
      assert Flatten(lines) + line + rest[end + 1..] == Flatten(lines) + rest;
      lines, rest := lines + [line], rest[end + 1..];
    }
    LinesAreSplit(lines, content);
  }

  lemma FlattenAppend(lines: seq<Line>, line: Line)
    ensures Flatten(lines + [line]) == Flatten(lines) + line
  {
    assert (lines + [line])[..|lines|] == lines;
  }

  // ----- common edges

  /** Common edges that do not overlap and cannot be longer, the prefix taken first. */
  predicate AreEdges(before: seq<Line>, after: seq<Line>, prefix: nat, suffix: nat) {
    && prefix + suffix <= |before| && prefix + suffix <= |after|
    && before[..prefix] == after[..prefix] && before[|before| - suffix..] == after[|after| - suffix..]
    && (prefix < |before| && prefix < |after| ==> before[prefix] != after[prefix])
    && (prefix + suffix < |before| && prefix + suffix < |after| ==>
          before[|before| - 1 - suffix] != after[|after| - 1 - suffix])
  }

  method CommonDiffEdges(before: seq<Line>, after: seq<Line>) returns (prefix: nat, suffix: nat)
    ensures AreEdges(before, after, prefix, suffix)
  {
    prefix := 0;
    while prefix < |before| && prefix < |after| && before[prefix] == after[prefix]
      invariant prefix <= |before| && prefix <= |after| && before[..prefix] == after[..prefix]
    {
      prefix := prefix + 1;
    }
    suffix := 0;
    while suffix < |before| - prefix && suffix < |after| - prefix
      && before[|before| - 1 - suffix] == after[|after| - 1 - suffix]
      invariant prefix + suffix <= |before| && prefix + suffix <= |after|
      invariant before[|before| - suffix..] == after[|after| - suffix..]
    {
      suffix := suffix + 1;
    }
  }

  // ----- rendering

  datatype Status = Unchanged | Created | Deleted | Modified

  /** Status of a path; an absent side is a file that does not exist. */
  function DiffStatus(before: Option<string>, after: Option<string>): Status {
    if before.None? && after.None? then Unchanged
    else if before.None? then Created
    else if after.None? then Deleted
    else if before == after then Unchanged
    else Modified
  }

  function Header(path: string, status: Status): string {
    match status
    case Created => "--- /dev/null\n+++ b/" + path + "\n"
    case Deleted => "--- a/" + path + "\n+++ /dev/null\n"
    case _ => "--- a/" + path + "\n+++ b/" + path + "\n"
  }

  /** Reads the hunks of a patch whose file header is known. */
  function ParsePatch(path: string, status: Status, patch: string): Option<seq<Hunk<Line>>> {
    match StripPrefix(patch, Header(path, status))
    case None => None
    case Some(rest) => ParseHunks(rest)
  }

  /** The patch of a script is its header and its hunks, rendered. */
  ghost predicate IsPatch(path: string, status: Status, ops: seq<Operation<Line>>, patch: string) {
    exists extents :: IsPatchOf(path, status, ops, extents, patch)
  }

  ghost predicate IsPatchOf(path: string, status: Status, ops: seq<Operation<Line>>, extents: seq<Extent>,
                            patch: string) {
    IsGrouping(ops, extents) && patch == Header(path, status) + RenderHunks(HunksAt(ops, extents))
  }

  /** What the renderer writes parses back to the hunks it was given. */
  lemma RenderedPatchParses(path: string, status: Status, ops: seq<Operation<Line>>, extents: seq<Extent>,
                            patch: string)
    requires HasLines(ops) && IsPatchOf(path, status, ops, extents, patch)
    ensures ParsePatch(path, status, patch) == Some(HunksAt(ops, extents))
  {
    var hunks := HunksAt(ops, extents);
    assert forall hunk | hunk in hunks :: IsCounted(hunk);
    ParseRenderedHunks(hunks);
    var header, text := Header(path, status), RenderHunks(hunks);
    assert (header + text)[|header|..] == text;
  }

  /** Parsing a rendered patch and applying it to one side of its script gives the other. */
  lemma PatchReproducesAfter(path: string, status: Status, ops: seq<Operation<Line>>, patch: string)
    requires HasLines(ops) && IsPatch(path, status, ops, patch)
    ensures ParsePatch(path, status, patch).Some?
    ensures Apply(BeforeSide(ops), ParsePatch(path, status, patch).value, 0, 0) == Some(AfterSide(ops))
  {
    var extents :| IsPatchOf(path, status, ops, extents, patch);
    RenderedPatchParses(path, status, ops, extents, patch);
    HunksReproduceAfter(ops, extents);
  }

  lemma RenderHunksAppend(hunks: seq<Hunk<Line>>, h: nat)
    requires h < |hunks|
    ensures RenderHunks(hunks[..h + 1]) == RenderHunks(hunks[..h]) + RenderHunk(hunks[h])
  {
    hide RenderHunk;
    assert hunks[..h + 1][..h] == hunks[..h];
  }

  method RenderLine(op: Operation<Line>) returns (text: string)
    ensures text == RenderOperation(op)
    ensures var mark := if op.kind == Equal then ' ' else if op.kind == Delete then '-' else '+';
      text == [mark] + op.line + if op.line != "" && op.line[|op.line| - 1] == '\n' then ""
                                 else "\n\\ No newline at end of file\n"
  {
    text := [KindChar(op.kind)] + op.line;
    if |op.line| == 0 || op.line[|op.line| - 1] != '\n' {
      text := text + ("\n" + NO_NEWLINE);
    }
  }

  lemma RenderBodyAt(ops: seq<Operation<Line>>, i: nat, text: string)
    requires i < |ops|
    ensures text + RenderBody(ops[i..]) == text + RenderOperation(ops[i]) + RenderBody(ops[i + 1..])
  {
    hide RenderOperation;
    assert ops[i..][1..] == ops[i + 1..];
  }

  method RenderOneHunk(ops: seq<Operation<Line>>, extent: Extent) returns (text: string)
    requires 0 <= extent.start <= extent.end <= |ops|
    ensures text == RenderHunk(HunkAt(ops, extent))
  {
    hide RenderOperation, RenderBody, Side;
    var beforeStart, afterStart, beforeCount, afterCount := HunkCoordinates(ops, extent.start, extent.end);
    text := "@@ -" + FormatRange(beforeStart, beforeCount) + " +" + FormatRange(afterStart, afterCount) + " @@\n";
    ghost var header := text;
    var body := ops[extent.start..extent.end];
    assert text + RenderBody(body[0..]) == header + RenderBody(body) by {
      assert body[0..] == body;
    }
    for i := 0 to |body|
      invariant text + RenderBody(body[i..]) == header + RenderBody(body)
    {
      var line := RenderLine(body[i]);
      RenderBodyAt(body, i, text);
      text := text + line;
    }
    NoBodyLeft(body);
  }

  lemma NoBodyLeft(ops: seq<Operation<Line>>)
    ensures RenderBody(ops[|ops|..]) == ""
  {
  }

  method RenderUnifiedPatch(path: string, status: Status, ops: seq<Operation<Line>>) returns (patch: string)
    requires HasLines(ops)
    ensures IsPatch(path, status, ops, patch)
  {
    hide RenderHunk, RenderHunks, Side, Header;
    patch := Header(path, status);
    var extents := DiffHunks(ops);
    ghost var hunks := HunksAt(ops, extents);
    NothingRendered(hunks);
    for h := 0 to |extents|
      invariant patch == Header(path, status) + RenderHunks(hunks[..h])
    {
      var text := RenderOneHunk(ops, extents[h]);
      RenderHunksAppend(hunks, h);
      patch := patch + text;
    }
    assert hunks[..|hunks|] == hunks;
    assert IsPatchOf(path, status, ops, extents, patch) && IsPatch(path, status, ops, patch);
  }

  lemma NothingRendered(hunks: seq<Hunk<Line>>)
    ensures RenderHunks(hunks[..0]) == ""
  {
  }

  // ----- whole files

  datatype FileDiffSummary = FileDiffSummary(status: Status, addedLines: nat, removedLines: nat)

  /** An absent file compares like an empty one. */
  function Text(content: Option<string>): string {
    if content.None? then "" else content.value
  }

  /** A patch and its counts, as one script between the two files. */
  ghost predicate Describes(path: string, before: Option<string>, after: Option<string>, patch: string,
                            summary: FileDiffSummary, ops: seq<Operation<Line>>) {
    && summary.status == DiffStatus(before, after)
    && IsScript(ops, Lines(Text(before)), Lines(Text(after)))
    && IsPatch(path, summary.status, ops, patch)
    && summary.addedLines == Count(ops, Add) && summary.removedLines == Count(ops, Delete)
  }

  /** A shortest way to turn the lines of one file into those of the other changes this many lines. */
  ghost predicate IsMinimal(before: string, after: string, changedLines: nat) {
    forall other: seq<Operation<Line>> :: IsScript(other, Lines(before), Lines(after)) ==> changedLines <= Cost(other)
  }

  lemma {:induction false} SidesHaveLines(ops: seq<Operation<Line>>)
    requires forall line | line in BeforeSide(ops) || line in AfterSide(ops) :: IsLine(line)
    ensures HasLines(ops)
  {
    if ops != [] {
      SidesHaveLines(ops[..|ops| - 1]);
    }
  }

  /** What is used when the budget is too small: everything between the common edges is replaced. */
  ghost predicate IsFallback(ops: seq<Operation<Line>>, before: seq<Line>, after: seq<Line>, prefix: nat, suffix: nat,
                             maxWork: int) {
    && AreEdges(before, after, prefix, suffix)
    && var middleBefore, middleAfter := before[prefix..|before| - suffix], after[prefix..|after| - suffix];
       && ops == AllOf(Equal, before[..prefix]) + (AllOf(Delete, middleBefore) + AllOf(Add, middleAfter))
                 + AllOf(Equal, before[|before| - suffix..])
       && maxWork < Myers.EnoughWork(|middleBefore|, |middleAfter|)
  }

  /**
   * What the trimmed search returns, put back between the common edges: a shortest script
   * whenever the search completes, the replacement of the whole middle otherwise.
   */
  method DiffLines(before: seq<Line>, after: seq<Line>, maxWork: int)
    returns (ops: seq<Operation<Line>>, complete: bool, prefix: nat, suffix: nat)
    ensures IsScript(ops, before, after) && AreEdges(before, after, prefix, suffix)
    ensures complete ==> Cost(ops) == Dist(before, after, |before|, |after|)
    ensures !complete ==> IsFallback(ops, before, after, prefix, suffix, maxWork)
  {
    prefix, suffix := CommonDiffEdges(before, after);
    hide *;
    TrimmedParts(before, prefix, suffix);
    TrimmedParts(after, prefix, suffix);
    var middleBefore, middleAfter := before[prefix..|before| - suffix], after[prefix..|after| - suffix];
    var middle;
    middle, complete := Myers.MyersDiff(middleBefore, middleAfter, maxWork);
    if !complete {
      middle := Myers.ReplacementOperations(middleBefore, middleAfter);
    }
    var head, tail := before[..prefix], before[|before| - suffix..];
    ops := AllOf(Equal, head) + middle + AllOf(Equal, tail);
    EdgesAroundScript(head, middle, tail, middleBefore, middleAfter);
    DistCommonEdges(head, middleBefore, middleAfter, tail);
    if !complete { FallbackHolds(ops, before, after, prefix, suffix, maxWork); }
  }

  lemma FallbackHolds(ops: seq<Operation<Line>>, before: seq<Line>, after: seq<Line>, prefix: nat, suffix: nat,
                      maxWork: int)
    requires AreEdges(before, after, prefix, suffix)
    requires ops == AllOf(Equal, before[..prefix])
                    + (AllOf(Delete, before[prefix..|before| - suffix]) + AllOf(Add, after[prefix..|after| - suffix]))
                    + AllOf(Equal, before[|before| - suffix..])
    requires maxWork < Myers.EnoughWork(|before| - suffix - prefix, |after| - suffix - prefix)
    ensures IsFallback(ops, before, after, prefix, suffix, maxWork)
  {
    hide AllOf;
  }

  lemma TrimmedParts(lines: seq<Line>, prefix: nat, suffix: nat)
    requires prefix + suffix <= |lines|
    ensures lines == lines[..prefix] + lines[prefix..|lines| - suffix] + lines[|lines| - suffix..]
  {
  }

  method CountLines(ops: seq<Operation<Line>>) returns (added: nat, removed: nat)
    ensures added == Count(ops, Add) && removed == Count(ops, Delete)
  {
    added, removed := 0, 0;
    for i := 0 to |ops|
      invariant added == Count(ops[..i], Add) && removed == Count(ops[..i], Delete)
    {
      assert ops[..i + 1][..i] == ops[..i];
      match ops[i].kind
      case Add => added := added + 1;
      case Delete => removed := removed + 1;
      case Equal =>
    }
    assert ops[..|ops|] == ops;
  }

  /**
   * The patch of one file: applying the hunks that its text states to the old lines gives
   * the new lines, whatever the budget. Its counts are minimal whenever the search
   * completes; otherwise everything between the common edges is replaced.
   */
  method UnifiedDiff(path: string, before: Option<string>, after: Option<string>, maxWork: int)
    returns (patch: string, summary: FileDiffSummary, complete: bool)
    ensures DiffStatus(before, after) == Unchanged
        ==> patch == "" && summary == FileDiffSummary(Unchanged, 0, 0) && complete
    ensures DiffStatus(before, after) != Unchanged ==> exists ops :: Describes(path, before, after, patch, summary, ops)
    ensures DiffStatus(before, after) != Unchanged ==>
              var hunks := ParsePatch(path, summary.status, patch);
              hunks.Some? && Apply(Lines(Text(before)), hunks.value, 0, 0) == Some(Lines(Text(after)))
    ensures if before == after then patch == "" && summary.status == Unchanged
            else if before.None? then summary.status == Created && "--- /dev/null\n+++ b/" + path + "\n" <= patch
            else if after.None? then summary.status == Deleted && "--- a/" + path + "\n+++ /dev/null\n" <= patch
            else summary.status == Modified && "--- a/" + path + "\n+++ b/" + path + "\n" <= patch
    ensures complete ==> IsMinimal(Text(before), Text(after), summary.addedLines + summary.removedLines)
    ensures !complete ==> exists ops, prefix, suffix :: Describes(path, before, after, patch, summary, ops)
                            && IsFallback(ops, Lines(Text(before)), Lines(Text(after)), prefix, suffix, maxWork)
  {
    var status := DiffStatus(before, after);
    if status == Unchanged {
      return "", FileDiffSummary(Unchanged, 0, 0), true;
    }
    var beforeLines := SplitDiffLines(Text(before));
    var afterLines := SplitDiffLines(Text(after));
    var ops, prefix, suffix;
    ops, complete, prefix, suffix := DiffLines(beforeLines, afterLines, maxWork);
    var added, removed := CountLines(ops);
    SidesHaveLines(ops);
    patch := RenderUnifiedPatch(path, status, ops);
    summary := FileDiffSummary(status, added, removed);
    assert Describes(path, before, after, patch, summary, ops);
    PatchReproducesAfter(path, status, ops, patch);
    if complete { DistIsShortest(ops, beforeLines, afterLines); }
  }
}
