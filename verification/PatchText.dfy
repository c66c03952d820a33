// Rendering and parsing patch text (internal/config/diff.go).
module PatchText {

  // The parser reads the "Diff -u" format of IEEE Std 1003.1-2017, independently of the renderer.

  import opened EditScripts
  import opened Hunks
  import opened Outcomes

  /** A line of text, with its newline unless it is an unterminated last line. */
  type Line = string

  predicate Terminated(line: Line) {
    line != [] && line[|line| - 1] == '\n'
  }

  /** Non-empty, and no newline except as the last character. */
  predicate IsLine(line: Line) {
    line != [] && '\n' !in line[..|line| - 1]
  }

  predicate HasLines(ops: seq<Operation<Line>>) {
    forall op | op in ops :: IsLine(op.line)
  }

  // ----- decimal numbers

  predicate IsDigit(c: char) {
    '0' <= c <= '9'
  }

  function DigitValue(c: char): nat
    requires IsDigit(c)
  {
    c as int - '0' as int
  }

  function Decimal(n: nat): string {
    if n < 10 then [('0' as int + n) as char] else Decimal(n / 10) + [('0' as int + n % 10) as char]
  }

  /** Reads digits on top of an accumulated value, up to the first other character. */
  function ReadDigits(s: string, value: nat): (nat, string) {
    if s == [] || !IsDigit(s[0]) then (value, s) else ReadDigits(s[1..], value * 10 + DigitValue(s[0]))
  }

  function ParseNumber(s: string): Option<(nat, string)> {
    if s == [] || !IsDigit(s[0]) then None else Some(ReadDigits(s, 0))
  }

  predicate EndsNumber(rest: string) {
    rest == [] || !IsDigit(rest[0])
  }

  lemma {:induction false} DecimalStartsWithDigit(n: nat)
    ensures Decimal(n) != [] && IsDigit(Decimal(n)[0])
  {
    if n >= 10 {
      DecimalStartsWithDigit(n / 10);
    }
  }

  /** Reading the decimal form of n continues as if n had been accumulated. */
  lemma {:induction false} ReadDecimal(n: nat, rest: string)
    ensures ReadDigits(Decimal(n) + rest, 0) == ReadDigits(rest, n)
  {
    if n < 10 {
      assert (Decimal(n) + rest)[1..] == rest;
    } else {
      var last := [('0' as int + n % 10) as char];
      assert Decimal(n) + rest == Decimal(n / 10) + (last + rest);
      ReadDecimal(n / 10, last + rest);
      assert (last + rest)[1..] == rest;
    }
  }

  lemma ParseDecimal(n: nat, rest: string)
    requires EndsNumber(rest)
    ensures ParseNumber(Decimal(n) + rest) == Some((n, rest))
  {
    DecimalStartsWithDigit(n);
    ReadDecimal(n, rest);
  }

  // ----- hunk headers

  function FormatRange(start: nat, count: nat): string {
    if count == 1 then Decimal(start) else Decimal(start) + "," + Decimal(count)
  }

  function StripPrefix(s: string, prefix: string): Option<string> {
    if prefix <= s then Some(s[|prefix|..]) else None
  }

  /** A start line with an optional count, which is one when left out. */
  function ParseRange(s: string): Option<((nat, nat), string)> {
    match ParseNumber(s)
    case None => None
    case Some((start, rest)) =>
      if rest == [] || rest[0] != ',' then Some(((start, 1), rest))
      else
        match ParseNumber(rest[1..])
        case None => None
        case Some((count, tail)) => Some(((start, count), tail))
  }

  lemma ParseFormattedRange(start: nat, count: nat, rest: string)
    requires EndsNumber(rest) && (rest == [] || rest[0] != ',')
    ensures ParseRange(FormatRange(start, count) + rest) == Some(((start, count), rest))
  {
    if count == 1 {
      ParseDecimal(start, rest);
    } else {
      var tail := "," + (Decimal(count) + rest);
      assert FormatRange(start, count) + rest == Decimal(start) + tail;
      ParseDecimal(start, tail);
      ParseDecimal(count, rest);
      assert tail[1..] == Decimal(count) + rest;
    }
  }

  // ----- hunk bodies

  const NO_NEWLINE := "\\ No newline at end of file\n"

  function KindChar(kind: Kind): char {
    match kind
    case Equal => ' '
    case Delete => '-'
    case Add => '+'
  }

  function RenderOperation(op: Operation<Line>): string {
    [KindChar(op.kind)] + op.line + (if Terminated(op.line) then "" else "\n" + NO_NEWLINE)
  }

  function RenderBody(ops: seq<Operation<Line>>): string {
    if ops == [] then "" else RenderOperation(ops[0]) + RenderBody(ops[1..])
  }

  function KindOf(c: char): Option<Kind> {
    if c == ' ' then Some(Equal) else if c == '-' then Some(Delete) else if c == '+' then Some(Add) else None
  }

  /** Index just past the first newline, or the length when there is none. */
  function LineEnd(s: string): (n: nat)
    ensures n <= |s| && (s != [] ==> n > 0)
  {
    if s == [] then 0 else if s[0] == '\n' then 1 else 1 + LineEnd(s[1..])
  }

  /** One body line: its kind, its text, and what follows the optional no-newline marker. */
  function ParseOperation(s: string): (r: Option<(Operation<Line>, string)>)
    ensures r.Some? ==> |r.value.1| < |s|
  {
    if s == [] then None
    else
      var n := LineEnd(s[1..]);
      var raw, rest := s[1..][..n], s[1..][n..];
      match KindOf(s[0])
      case None => None
      case Some(kind) =>
        if !Terminated(raw) then None
        else if NO_NEWLINE <= rest then Some((Operation(kind, raw[..n - 1]), rest[|NO_NEWLINE|..]))
        else Some((Operation(kind, raw), rest))
  }

  /** Reads body lines until the counts of the hunk header are used up. */
  function ParseBody(s: string, before: nat, after: nat): (r: Option<(seq<Operation<Line>>, string)>)
    ensures r.Some? ==> |r.value.1| <= |s|
    decreases |s|
  {
    if before == 0 && after == 0 then Some(([], s))
    else
      match ParseOperation(s)
      case None => None
      case Some((op, rest)) =>
        if (op.kind != Add && before == 0) || (op.kind != Delete && after == 0) then None
        else
          match ParseBody(rest, if op.kind == Add then before else before - 1,
                          if op.kind == Delete then after else after - 1)
          case None => None
          case Some((ops, tail)) => Some(([op] + ops, tail))
  }

  lemma {:induction false} LineEndOfLine(line: Line, rest: string)
    requires IsLine(line)
    ensures LineEnd((if Terminated(line) then line else line + "\n") + rest) == if Terminated(line) then |line|
        else |line| + 1
  {
    var text := (if Terminated(line) then line else line + "\n") + rest;
    if |line| > 1 {
      assert line[0] in line[..|line| - 1];
      var shorter := line[1..];
      assert shorter[..|shorter| - 1] == line[..|line| - 1][1..];
      LineEndOfLine(shorter, rest);
      assert text[1..] == (if Terminated(shorter) then shorter else shorter + "\n") + rest;
    } else if !Terminated(line) {
      assert text[1..] == "\n" + rest;
    }
  }

  predicate NoMarker(rest: string) {
    rest == [] || rest[0] != '\\'
  }

  /** The marker is unambiguous: no body line, hunk header or end of text starts like it. */
  lemma ParseRenderedOperation(op: Operation<Line>, rest: string)
    requires IsLine(op.line) && NoMarker(rest)
    ensures ParseOperation(RenderOperation(op) + rest) == Some((op, rest))
  {
    var s := RenderOperation(op) + rest;
    if Terminated(op.line) {
      assert s[1..] == op.line + rest;
      LineEndOfLine(op.line, rest);
      assert NO_NEWLINE[0] == '\\';
    } else {
      assert s[1..] == (op.line + "\n") + (NO_NEWLINE + rest);
      LineEndOfLine(op.line, NO_NEWLINE + rest);
      assert s[1..][|op.line| + 1..] == NO_NEWLINE + rest;
      assert s[1..][..|op.line| + 1] == op.line + "\n";
    }
  }

  lemma {:induction false} BodyHasNoMarker(ops: seq<Operation<Line>>, rest: string)
    requires NoMarker(rest)
    ensures NoMarker(RenderBody(ops) + rest)
  {
    if ops != [] {
      assert RenderOperation(ops[0])[0] == KindChar(ops[0].kind);
    }
  }

  lemma {:induction false} ParseBodyStep(s: string, tail: string, op: Operation<Line>, ops: seq<Operation<Line>>,
                                         rest: string, before: nat, after: nat, before': nat, after': nat)
    requires ParseOperation(s) == Some((op, tail)) && ParseBody(tail, before', after') == Some((ops, rest))
    requires before == (if op.kind == Add then before' else before' + 1)
    requires after == (if op.kind == Delete then after' else after' + 1)
    ensures ParseBody(s, before, after) == Some(([op] + ops, rest))
  {
    hide ParseOperation;
  }

  lemma {:induction false} RenderBodyFront(ops: seq<Operation<Line>>, rest: string)
    requires ops != []
    ensures RenderBody(ops) + rest == RenderOperation(ops[0]) + (RenderBody(ops[1..]) + rest)
  {
    hide RenderOperation;
  }

  lemma {:induction false} ParseRenderedBody(ops: seq<Operation<Line>>, rest: string)
    requires HasLines(ops) && NoMarker(rest)
    ensures ParseBody(RenderBody(ops) + rest, |BeforeSide(ops)|, |AfterSide(ops)|) == Some((ops, rest))
  {
    if ops == [] {
      assert RenderBody(ops) + rest == rest;
    } else {
      var op, later := ops[0], ops[1..];
      var tail := RenderBody(later) + rest;
      var before', after' := |BeforeSide(later)|, |AfterSide(later)|;
      assert ParseOperation(RenderBody(ops) + rest) == Some((op, tail)) by {
        BodyHasNoMarker(later, rest);
        ParseRenderedOperation(op, tail);
        RenderBodyFront(ops, rest);
      }
      assert |BeforeSide(ops)| == if op.kind == Add then before' else before' + 1 by { HeadSides(ops); }
      assert |AfterSide(ops)| == if op.kind == Delete then after' else after' + 1 by { HeadSides(ops); }
      ParseRenderedBody(later, rest);
      hide *;
      ParseBodyStep(RenderBody(ops) + rest, tail, op, later, rest, |BeforeSide(ops)|, |AfterSide(ops)|, before',
        after');
      assert [op] + later == ops;
    }
  }

  // ----- hunks and patches

  function RenderHunk(h: Hunk<Line>): string {
    "@@ -" + FormatRange(h.beforeStart, h.beforeCount) + " +" + FormatRange(h.afterStart, h.afterCount) + " @@\n"
      + RenderBody(h.body)
  }

  function RenderHunks(hunks: seq<Hunk<Line>>): string {
    if hunks == [] then "" else RenderHunks(hunks[..|hunks| - 1]) + RenderHunk(hunks[|hunks| - 1])
  }

  function ParseHunk(s: string): (r: Option<(Hunk<Line>, string)>)
    ensures r.Some? ==> |r.value.1| < |s|
  {
    match StripPrefix(s, "@@ -")
    case None => None
    case Some(s1) =>
      match ParseRange(s1)
      case None => None
      case Some((before, s2)) =>
        match StripPrefix(s2, " +")
        case None => None
        case Some(s3) =>
          match ParseRange(s3)
          case None => None
          case Some((after, s4)) =>
            match StripPrefix(s4, " @@\n")
            case None => None
            case Some(s5) =>
              match ParseBody(s5, before.1, after.1)
              case None => None
              case Some((body, rest)) =>
                if |rest| < |s| then Some((Hunk(before.0, before.1, after.0, after.1, body), rest)) else None
  }

  function ParseHunks(s: string): Option<seq<Hunk<Line>>>
    decreases |s|
  {
    if s == [] then Some([])
    else
      match ParseHunk(s)
      case None => None
      case Some((hunk, rest)) =>
        match ParseHunks(rest)
        case None => None
        case Some(hunks) => Some([hunk] + hunks)
  }

  /** A hunk whose counts describe its body. */
  predicate IsCounted(h: Hunk<Line>) {
    HasLines(h.body) && h.beforeCount == |BeforeSide(h.body)| && h.afterCount == |AfterSide(h.body)|
  }

  lemma ParseRenderedHunk(h: Hunk<Line>, rest: string)
    requires IsCounted(h) && NoMarker(rest)
    ensures ParseHunk(RenderHunk(h) + rest) == Some((h, rest))
  {
    hide ParseBody, ParseRange, FormatRange, RenderBody, Side, HasLines;
    var s := RenderHunk(h) + rest;
    var s5 := RenderBody(h.body) + rest;
    var s4 := " @@\n" + s5;
    var s3 := FormatRange(h.afterStart, h.afterCount) + s4;
    var s2 := " +" + s3;
    var s1 := FormatRange(h.beforeStart, h.beforeCount) + s2;
    assert s == "@@ -" + s1;
    assert s[|"@@ -"|..] == s1 && s2[|" +"|..] == s3 && s4[|" @@\n"|..] == s5;
    ParseFormattedRange(h.beforeStart, h.beforeCount, s2);
    ParseFormattedRange(h.afterStart, h.afterCount, s4);
    ParseRenderedBody(h.body, rest);
  }

  lemma {:induction false} RenderHunksFront(hunks: seq<Hunk<Line>>)
    requires hunks != []
    ensures RenderHunks(hunks) == RenderHunk(hunks[0]) + RenderHunks(hunks[1..])
  {
    hide RenderHunk;
    if |hunks| > 1 {
      var init := hunks[..|hunks| - 1];
      RenderHunksFront(init);
      assert init[1..] == hunks[1..][..|hunks| - 2];
    }
  }

  /** Parsing rendered hunks gives back the same hunks. */
  lemma {:induction false} ParseRenderedHunks(hunks: seq<Hunk<Line>>)
    requires forall h | h in hunks :: IsCounted(h)
    ensures ParseHunks(RenderHunks(hunks)) == Some(hunks)
    ensures NoMarker(RenderHunks(hunks))
  {
    if hunks != [] {
      RenderHunksFront(hunks);
      ParseRenderedHunks(hunks[1..]);
      ParseRenderedHunk(hunks[0], RenderHunks(hunks[1..]));
      assert RenderHunk(hunks[0])[0] == '@';
      assert hunks == [hunks[0]] + hunks[1..];
    }
  }
}
