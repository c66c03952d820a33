// The lexical scan of Nginx directives (internal/config/include.go).
module IncludeScanner {
  import opened Outcomes
  import opened ScannedForms
  import opened ScannerForms
  import opened ScannerSteps

  /** The directives of any text, as its forms say them. */
  method ScanDirectives(content: string, limits: Limits) returns (r: Result<seq<Directive>, ScanError>)
    ensures r == Scan(content, limits)
    ensures exists f :: HasForm(f, content) && r == Meaning(f, limits)
    ensures forall f | HasForm(f, content) :: r == Meaning(f, limits)
  {
    hide Scanner.Step, Scanner.Result, Meaning, ValidForm, Text;
    ScanIsMeaning(content, limits);
    if limits.tokenBytes <= 0 || limits.directiveBytes <= 0 {
      return Failure(LimitExceeded);
    }
    var state := START;
    for i := 0 to |content|
      invariant Run(START, content[..i], limits) == Success(state)
    {
      assert content == content[..i] + ([content[i]] + content[i + 1..]);
      assert content[..i + 1] == content[..i] + [content[i]];
      RunConcat(START, content[..i], [content[i]] + content[i + 1..], limits);
      RunConcat(START, content[..i], [content[i]], limits);
      RunConcat(state, [content[i]], content[i + 1..], limits);
      RunOne(state, content[i], limits);
      state :- state.Step(content[i], limits);
    }
    assert content[..|content|] == content;
    return state.Result();
  }

  // ----- a scan can be cut at the end of a directive

  function ShiftLine(at: Scanner, line: nat): nat {
    if at.line + line >= 1 then at.line + line - 1 else 0
  }

  /** Only the first line of the second text continues a line of the first. */
  function ShiftColumn(at: Scanner, line: nat, column: nat): nat {
    if line == 1 && at.column + column >= 1 then at.column + column - 1 else column
  }

  function ShiftDirective(at: Scanner, d: Directive): Directive {
    d.(line := ShiftLine(at, d.line), column := ShiftColumn(at, d.line, d.column))
  }

  function Shifted(at: Scanner, ds: seq<Directive>): (r: seq<Directive>)
    ensures |r| == |ds|
  {
    seq(|ds|, i requires 0 <= i < |ds| => ShiftDirective(at, ds[i]))
  }

  /** State s scans after `at` what state t scans from the start of a text. */
  predicate Continues(at: Scanner, t: Scanner, s: Scanner) {
    && s.directives == at.directives + Shifted(at, t.directives)
    && s.line == ShiftLine(at, t.line) && s.column == ShiftColumn(at, t.line, t.column)
    && (t.directiveOpen ==> s.directiveLine == ShiftLine(at, t.directiveLine))
    && (t.directiveOpen ==> s.directiveColumn == ShiftColumn(at, t.directiveLine, t.directiveColumn))
    && s == t.(directives := s.directives, line := s.line, column := s.column,
               directiveLine := s.directiveLine, directiveColumn := s.directiveColumn)
  }

  lemma ShiftedSnoc(at: Scanner, ds: seq<Directive>, d: Directive)
    ensures Shifted(at, ds + [d]) == Shifted(at, ds) + [ShiftDirective(at, d)]
  {
  }

  lemma FinishContinues(at: Scanner, t: Scanner, s: Scanner)
    requires Tidy(at) && Tidy(t) && Continues(at, t, s)
    ensures Continues(at, t.FinishWord(), s.FinishWord()) && Continues(at, t.FinishDirective(), s.FinishDirective())
  {
    hide Shifted;
    var u := t.FinishWord();
    if u.words != [] {
      ShiftedSnoc(at, t.directives, Directive(u.words[0], u.words[1..], u.directiveLine, u.directiveColumn));
    }
  }

  /** Both scans fail, or both go on. */
  predicate BothContinue(at: Scanner, t: Result<Scanner, ScanError>, s: Result<Scanner, ScanError>) {
    match t
    case Success(t) => s.Success? && Continues(at, t, s.value)
    case Failure(e) => s == Failure(e)
  }

  lemma OpenContinues(at: Scanner, t: Scanner, s: Scanner, limits: Limits)
    requires Tidy(at) && Tidy(t) && Continues(at, t, s)
    ensures BothContinue(at, t.OpenWord(limits), s.OpenWord(limits))
  {
    hide Shifted;
  }

  lemma MarkContinues(at: Scanner, t: Scanner, s: Scanner, c: char)
    requires Continues(at, t, s)
    ensures Continues(at, t.Mark(c), s.Mark(c))
  {
    hide Shifted, ShiftLine, ShiftColumn;
  }

  lemma InsideContinues(at: Scanner, t: Scanner, s: Scanner, c: char)
    requires Continues(at, t, s)
    ensures t.quote.Some? ==> s.quote.Some? && Continues(at, t.Quoted(c), s.Quoted(c))
    ensures Continues(at, t.(word := t.word + [c], escaped := false), s.(word := s.word + [c], escaped := false))
  {
    hide Shifted, ShiftLine, ShiftColumn;
  }

  lemma CommentContinues(at: Scanner, t: Scanner, s: Scanner, inComment: bool)
    requires Continues(at, t, s)
    ensures Continues(at, t.(inComment := inComment), s.(inComment := inComment))
  {
    hide Shifted, ShiftLine, ShiftColumn;
  }

  lemma PlainContinues(at: Scanner, t: Scanner, s: Scanner, c: char, limits: Limits)
    requires Tidy(at) && Tidy(t) && Continues(at, t, s)
    ensures BothContinue(at, t.Plain(c, limits), s.Plain(c, limits))
  {
    FinishContinues(at, t, s);
    OpenContinues(at, t, s, limits);
    CommentContinues(at, t.FinishWord(), s.FinishWord(), true);
    var t', s' := t.OpenWord(limits), s.OpenWord(limits);
    if t'.Success? { MarkContinues(at, t'.value, s'.value, c); }
    hide Continues, Tidy, Scanner.OpenWord, Scanner.FinishWord, Scanner.FinishDirective, Scanner.Mark;
  }

  lemma AdvanceContinues(at: Scanner, t: Scanner, s: Scanner, c: char)
    requires Tidy(at) && Continues(at, t, s) && t.line >= 1 && t.column >= 1
    ensures Continues(at, t.Advance(c), s.Advance(c))
  {
    hide Shifted;
  }

  lemma CountContinues(at: Scanner, t: Scanner, s: Scanner, limits: Limits)
    requires Continues(at, t, s)
    ensures BothContinue(at, t.CountTokenByte(limits), s.CountTokenByte(limits))
    ensures BothContinue(at, t.CountDirectiveByte(limits), s.CountDirectiveByte(limits))
  {
    hide Shifted, ShiftLine, ShiftColumn;
  }

  lemma QuotedContinues(at: Scanner, t: Scanner, s: Scanner, c: char, limits: Limits)
    requires Tidy(t) && Continues(at, t, s) && (t.escaped || t.quote.Some?)
    ensures BothContinue(at, t.InsideWord(c, limits), s.InsideWord(c, limits))
  {
    CountContinues(at, t, s, limits);
    var t', s' := t.CountTokenByte(limits), s.CountTokenByte(limits);
    assert t.escaped == s.escaped && t.quote == s.quote;
    if t'.Success? {
      assert t'.value.quote == t.quote && s'.value.quote == s.quote;
      InsideContinues(at, t'.value, s'.value, c);
    }
    hide Continues, Tidy, Scanner.CountTokenByte, Scanner.Quoted;
  }

  lemma StepContinues(at: Scanner, t: Scanner, s: Scanner, c: char, limits: Limits)
    requires Tidy(at) && Tidy(t) && Continues(at, t, s)
    ensures BothContinue(at, t.Step(c, limits), s.Step(c, limits))
  {
    if t.inComment {
      CommentContinues(at, t, s, false);
      var t', s' := if c == '\n' then t.(inComment := false) else t, if c == '\n' then s.(inComment := false) else s;
      AdvanceContinues(at, t', s', c);
    } else {
      CountContinues(at, t, s, limits);
      var t', s' := t.CountOpen(limits), s.CountOpen(limits);
      if t'.Success? {
        assert Tidy(t'.value);
        assert t'.value.escaped == s'.value.escaped && t'.value.quote == s'.value.quote;
        if t'.value.escaped || t'.value.quote.Some? {
          QuotedContinues(at, t'.value, s'.value, c, limits);
        } else {
          PlainContinues(at, t'.value, s'.value, c, limits);
        }
        var t'', s'' := t'.value.Take(c, limits), s'.value.Take(c, limits);
        if t''.Success? {
          KeepsPosition(t'.value, c, limits);
          AdvanceContinues(at, t''.value, s''.value, c);
        }
      }
    }
    hide Scanner.Plain, Scanner.InsideWord, Continues, Tidy, Scanner.Advance, Scanner.CountOpen;
  }

  lemma OpenKeepsPosition(s: Scanner, c: char, limits: Limits)
    requires s.OpenWord(limits).Success?
    ensures s.OpenWord(limits).value.Mark(c).line == s.line && s.OpenWord(limits).value.Mark(c).column == s.column
  {
  }

  lemma KeepsPosition(s: Scanner, c: char, limits: Limits)
    requires s.Take(c, limits).Success?
    ensures s.Take(c, limits).value.line == s.line && s.Take(c, limits).value.column == s.column
  {
    if s.OpenWord(limits).Success? { OpenKeepsPosition(s, c, limits); }
    hide Scanner.OpenWord, Scanner.Mark;
  }

  lemma {:induction false} RunContinues(at: Scanner, t: Scanner, s: Scanner, content: string, limits: Limits)
    requires Tidy(at) && Tidy(t) && Continues(at, t, s)
    ensures BothContinue(at, Run(t, content, limits), Run(s, content, limits))
    decreases |content|
  {
    hide Scanner.Step, Tidy, Continues;
    if content != "" {
      StepContinues(at, t, s, content[0], limits);
      var next := t.Step(content[0], limits);
      if next.Success? {
        StaysTidy(t, content[0], limits);
        RunContinues(at, next.value, s.Step(content[0], limits).value, content[1..], limits);
      }
    }
  }

  /**
   * Scanning two texts one after the other: when the first ends between two
   * directives, the second is scanned as if it stood alone, positions shifted,
   * with the same directives and the same errors.
   */
  lemma {:induction false} ScanConcat(a: string, b: string, limits: Limits)
    requires limits.tokenBytes > 0 && limits.directiveBytes > 0
    requires Run(START, a, limits).Success? && Between(Run(START, a, limits).value)
    ensures var at := Run(START, a, limits).value;
            && Scan(a, limits) == Success(at.directives)
            && match Scan(b, limits)
               case Success(ds) => Scan(a + b, limits) == Success(at.directives + Shifted(at, ds))
               case Failure(e) => Scan(a + b, limits) == Failure(e)
  {
    hide Scanner.Step;
    var at := Run(START, a, limits).value;
    RunIsTidy(START, a, limits);
    RunConcat(START, a, b, limits);
    assert at.directives + Shifted(at, []) == at.directives;
    RunContinues(at, START, at, b, limits);
  }

  // ----- scanning undoes a quoting printer

  function EscapeChar(c: char): (r: string)
    ensures 1 <= |r| <= 2
  {
    if c == '"' || c == '\\' then ['\\', c] else [c]
  }

  function Escape(word: string): string {
    if word == "" then ""
    else EscapeChar(word[0]) + Escape(word[1..])
  }

  function PrintWord(word: string): string {
    "\"" + Escape(word) + "\""
  }

  function PrintWords(words: seq<string>): string {
    if words == [] then ";" else " " + PrintWord(words[0]) + PrintWords(words[1..])
  }

  /** A directive: quoted words, blanks between them, a semicolon. */
  function PrintDirective(words: seq<string>): string {
    if words == [] then ";" else PrintWord(words[0]) + PrintWords(words[1..])
  }

  function Print(directives: seq<seq<string>>): string {
    if directives == [] then "" else PrintDirective(directives[0]) + Print(directives[1..])
  }

  predicate Fits(words: seq<string>, limits: Limits) {
    && words != [] && |PrintDirective(words)| <= limits.directiveBytes
    && forall i | 0 <= i < |words| :: |PrintWord(words[i])| <= limits.tokenBytes
  }

  /** Inside a quoted word that still fits. */
  predicate InQuotes(s: Scanner) {
    s.quote == Some('"') && !s.escaped && !s.inComment && s.wordStarted && s.directiveOpen && s.directiveBytes > 0
  }

  /** The same scan elsewhere in the text. */
  predicate SameScan(s: Scanner, t: Scanner) {
    s == t.(line := s.line, column := s.column)
  }

  /** The scan after n more bytes of a word. */
  function Grown(s: Scanner, word: string, n: nat): Scanner {
    s.(word := s.word + word, tokenBytes := s.tokenBytes + n, directiveBytes := s.directiveBytes + n)
  }

  lemma {:induction false} ScanChar(s: Scanner, c: char, limits: Limits)
    requires InQuotes(s)
    requires s.tokenBytes + |EscapeChar(c)| <= limits.tokenBytes
    requires s.directiveBytes + |EscapeChar(c)| <= limits.directiveBytes
    ensures var r := Run(s, EscapeChar(c), limits);
      r.Success? && InQuotes(r.value) && SameScan(r.value, Grown(s, [c], |EscapeChar(c)|))
  {
    if |EscapeChar(c)| == 1 {
      RunOne(s, c, limits);
    } else {
      assert EscapeChar(c) == ['\\'] + [c];
      RunConcat(s, ['\\'], [c], limits);
      RunOne(s, '\\', limits);
      RunOne(s.Step('\\', limits).value, c, limits);
    }
  }

  lemma {:induction false} ScanClosingQuote(s: Scanner, limits: Limits)
    requires InQuotes(s) && s.tokenBytes + 1 <= limits.tokenBytes && s.directiveBytes + 1 <= limits.directiveBytes
    ensures var r := Run(s, "\"", limits); r.Success? && SameScan(r.value, Grown(s, "", 1).(quote := None))
  {
    RunOne(s, '"', limits);
    assert s.word + "" == s.word;
  }

  lemma GrownTwice(s: Scanner, t: Scanner, u: Scanner, a: string, b: string, n: nat, m: nat)
    requires SameScan(t, Grown(s, a, n)) && SameScan(u, Grown(t, b, m).(quote := None))
    ensures SameScan(u, Grown(s, a + b, n + m).(quote := None))
  {
    assert s.word + a + b == s.word + (a + b);
  }

  /** The rest of a quoted word, up to and including its closing quote. */
  lemma {:induction false} ScanQuoted(s: Scanner, word: string, limits: Limits)
    requires InQuotes(s)
    requires s.tokenBytes + |Escape(word)| + 1 <= limits.tokenBytes
    requires s.directiveBytes + |Escape(word)| + 1 <= limits.directiveBytes
    ensures var r := Run(s, Escape(word) + "\"", limits);
      r.Success? && SameScan(r.value, Grown(s, word, |Escape(word)| + 1).(quote := None))
    decreases |word|
  {
    hide Run;
    if word == "" {
      assert Escape(word) + "\"" == "\"";
      ScanClosingQuote(s, limits);
    } else {
      var first, rest := EscapeChar(word[0]), Escape(word[1..]) + "\"";
      assert Escape(word) + "\"" == first + rest;
      RunConcat(s, first, rest, limits);
      ScanChar(s, word[0], limits);
      var t := Run(s, first, limits).value;
      ScanQuoted(t, word[1..], limits);
      assert [word[0]] + word[1..] == word;
      var n, m := |first|, |Escape(word[1..])| + 1;
      assert n + m == |Escape(word)| + 1;
      GrownTwice(s, t, Run(t, rest, limits).value, [word[0]], word[1..], n, m);
    }
  }

  predicate MayStart(s: Scanner) {
    Tidy(s) && !s.wordStarted && !s.inComment
  }

  /** A complete word that the next blank or semicolon ends. */
  predicate Pending(s: Scanner, directives: seq<Directive>, words: seq<string>, word: string, bytes: nat) {
    && s.directives == directives && s.words == words && s.word == word && s.wordStarted
    && s.quote.None? && !s.escaped && !s.inComment && s.directiveBytes == bytes && Tidy(s)
  }

  lemma {:induction false} ScanOpeningQuote(s: Scanner, limits: Limits)
    requires MayStart(s) && 1 <= limits.tokenBytes && s.directiveBytes + 1 <= limits.directiveBytes
    ensures var r := Run(s, "\"", limits);
      && r.Success? && InQuotes(r.value) && r.value.tokenBytes == 1 && r.value.directiveBytes == s.directiveBytes + 1
      && r.value.word == "" && r.value.words == s.words && r.value.directives == s.directives
  {
    RunOne(s, '"', limits);
  }

  lemma {:induction false} ScanWord(s: Scanner, word: string, limits: Limits)
    requires MayStart(s) && |PrintWord(word)| <= limits.tokenBytes
    requires s.directiveBytes + |PrintWord(word)| <= limits.directiveBytes
    ensures var r := Run(s, PrintWord(word), limits);
      r.Success? && Pending(r.value, s.directives, s.words, word, s.directiveBytes + |PrintWord(word)|)
  {
    RunIsTidyIfAny(s, PrintWord(word), limits);
    ScanOpeningQuote(s, limits);
    var t := Run(s, "\"", limits).value;
    hide Run, Tidy;
    assert PrintWord(word) == "\"" + (Escape(word) + "\"");
    RunConcat(s, "\"", Escape(word) + "\"", limits);
    ScanQuoted(t, word, limits);
    assert "" + word == word;
  }

  lemma RunIsTidyIfAny(s: Scanner, content: string, limits: Limits)
    requires Tidy(s)
    ensures Run(s, content, limits).Success? ==> Tidy(Run(s, content, limits).value)
  {
    if Run(s, content, limits).Success? { RunIsTidy(s, content, limits); }
  }

  predicate Spells(d: Directive, words: seq<string>) {
    [d.name] + d.arguments == words
  }

  /** Exactly one more directive, with these words. */
  predicate OneMore(s: Scanner, directives: seq<Directive>, words: seq<string>) {
    && Between(s) && Tidy(s) && |s.directives| == |directives| + 1
    && s.directives[..|directives|] == directives && Spells(s.directives[|directives|], words)
  }

  lemma {:induction false} ScanSemicolon(s: Scanner, directives: seq<Directive>, words: seq<string>, word: string,
                                         bytes: nat, limits: Limits)
    requires Pending(s, directives, words, word, bytes) && bytes + 1 <= limits.directiveBytes
    ensures var r := Run(s, ";", limits); r.Success? && OneMore(r.value, directives, words + [word])
  {
    RunOne(s, ';', limits);
    var all := words + [word];
    assert [all[0]] + all[1..] == all;
  }

  lemma {:induction false} ScanBlank(s: Scanner, directives: seq<Directive>, words: seq<string>, word: string,
                                     bytes: nat, limits: Limits)
    requires Pending(s, directives, words, word, bytes) && bytes + 1 <= limits.directiveBytes
    ensures var r := Run(s, " ", limits);
      && r.Success? && MayStart(r.value) && r.value.directives == directives && r.value.words == words + [word]
      && r.value.directiveBytes == bytes + 1
  {
    RunOne(s, ' ', limits);
  }

  lemma {:induction false} ScanWords(s: Scanner, directives: seq<Directive>, words: seq<string>, word: string,
                                     bytes: nat, rest: seq<string>, limits: Limits)
    requires Pending(s, directives, words, word, bytes) && bytes + |PrintWords(rest)| <= limits.directiveBytes
    requires forall i | 0 <= i < |rest| :: |PrintWord(rest[i])| <= limits.tokenBytes
    ensures var r := Run(s, PrintWords(rest), limits); r.Success? && OneMore(r.value, directives, words + [word] + rest)
    decreases |rest|
  {
    hide Run, Pending, MayStart, OneMore, PrintWord;
    if rest == [] {
      ScanSemicolon(s, directives, words, word, bytes, limits);
      assert words + [word] + rest == words + [word];
    } else {
      var printed, tail := PrintWord(rest[0]), PrintWords(rest[1..]);
      assert PrintWords(rest) == " " + (printed + tail);
      assert |PrintWords(rest)| == 1 + |printed| + |tail|;
      ScanBlank(s, directives, words, word, bytes, limits);
      var t := Run(s, " ", limits).value;
      ScanWord(t, rest[0], limits);
      var u := Run(t, printed, limits).value;
      var longer := bytes + 1 + |printed|;
      ScanWords(u, directives, words + [word], rest[0], longer, rest[1..], limits);
      RunConcat(s, " ", printed + tail, limits);
      RunConcat(t, printed, tail, limits);
      assert words + [word] + [rest[0]] + rest[1..] == words + [word] + rest;
    }
  }

  lemma {:induction false} ScanOneDirective(s: Scanner, words: seq<string>, limits: Limits)
    requires Between(s) && Tidy(s) && Fits(words, limits)
    ensures var r := Run(s, PrintDirective(words), limits); r.Success? && OneMore(r.value, s.directives, words)
  {
    var printed, tail := PrintWord(words[0]), PrintWords(words[1..]);
    assert s.directiveBytes == 0;
    hide Run, OneMore, PrintWord, PrintWords, Tidy;
    assert |PrintDirective(words)| == |printed| + |tail|;
    assert MayStart(s) by { assert Tidy(s); }
    ScanWord(s, words[0], limits);
    var t := Run(s, printed, limits).value;
    ScanWords(t, s.directives, [], words[0], |printed|, words[1..], limits);
    RunConcat(s, printed, tail, limits);
    assert [] + [words[0]] + words[1..] == words;
  }

  lemma {:induction false} ScanAll(s: Scanner, directives: seq<seq<string>>, limits: Limits)
    requires Between(s) && Tidy(s) && forall i | 0 <= i < |directives| :: Fits(directives[i], limits)
    ensures var r := Run(s, Print(directives), limits);
      && r.Success? && Between(r.value) && |r.value.directives| == |s.directives| + |directives|
      && r.value.directives[..|s.directives|] == s.directives
      && forall i | 0 <= i < |directives| :: Spells(r.value.directives[|s.directives| + i], directives[i])
    decreases |directives|
  {
    hide PrintDirective, Tidy, Spells;
    if directives != [] {
      var first, rest := PrintDirective(directives[0]), Print(directives[1..]);
      ScanOneDirective(s, directives[0], limits);
      var t := Run(s, first, limits).value;
      RunConcat(s, first, rest, limits);
      ScanAll(t, directives[1..], limits);
      var found := Run(t, rest, limits).value.directives;
      assert found[..|s.directives|] == found[..|t.directives|][..|s.directives|];
      forall i | 0 <= i < |directives| ensures Spells(found[|s.directives| + i], directives[i]) {
        if i > 0 {
          assert directives[i] == directives[1..][i - 1]
            && found[|s.directives| + i] == found[|t.directives| + (i - 1)];
        } else {
          assert found[|s.directives|] == found[..|t.directives|][|s.directives|];
        }
      }
    }
  }

  /** Any directives that fit the limits can be printed quoted and scanned back word for word. */
  lemma {:induction false} ScanPrinted(directives: seq<seq<string>>, limits: Limits)
    requires limits.tokenBytes > 0 && limits.directiveBytes > 0
    requires forall i | 0 <= i < |directives| :: Fits(directives[i], limits)
    ensures var r := Scan(Print(directives), limits);
      && r.Success? && |r.value| == |directives|
      && forall i | 0 <= i < |directives| :: Spells(r.value[i], directives[i])
  {
    ScanAll(START, directives, limits);
  }
}
