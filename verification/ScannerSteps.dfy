// The lexical scan of Nginx directives, byte by byte: quotes, escapes and comments;
// characters stand for bytes (internal/config/include.go).
module ScannerSteps {
  import opened Outcomes
  import opened ScannerForms

  /** What the scan remembers between two bytes. */
  datatype Scanner = Scanner(
    directives: seq<Directive>, words: seq<string>, word: string, wordStarted: bool, inComment: bool,
      quote: Option<char>,
    escaped: bool, tokenBytes: nat, directiveBytes: nat, directiveOpen: bool, directiveLine: nat, directiveColumn: nat,
    line: nat, column: nat)
  {
    function StartWord(): Scanner {
      if wordStarted then this
      else
        var s := this.(wordStarted := true, tokenBytes := 0);
        if words != [] then s
        else s.(directiveLine := line, directiveColumn := column, directiveBytes := 0, directiveOpen := true)
    }

    function FinishWord(): Scanner {
      if !wordStarted then this
      else this.(words := words + [word], word := "", wordStarted := false, tokenBytes := 0)
    }

    function FinishDirective(): Scanner {
      var s := FinishWord();
      if s.words == [] then s
      else
        var found := Directive(s.words[0], s.words[1..], s.directiveLine, s.directiveColumn);
        s.(directives := s.directives + [found], words := [], directiveBytes := 0, directiveOpen := false)
    }

    function Advance(c: char): Scanner {
      if c == '\n' then this.(line := line + 1, column := 1) else this.(column := column + 1)
    }

    function CountTokenByte(limits: Limits): Result<Scanner, ScanError> {
      if tokenBytes + 1 > limits.tokenBytes then Failure(LimitExceeded)
        else Success(this.(tokenBytes := tokenBytes + 1))
    }

    function CountDirectiveByte(limits: Limits): Result<Scanner, ScanError> {
      if directiveBytes + 1 > limits.directiveBytes then Failure(LimitExceeded)
      else Success(this.(directiveBytes := directiveBytes + 1))
    }

    /** The first byte of a directive is counted where its first word starts. */
    function OpenWord(limits: Limits): Result<Scanner, ScanError> {
      var s :- StartWord().CountTokenByte(limits);
      if s.directiveBytes == 0 then s.CountDirectiveByte(limits) else Success(s)
    }

    function Quoted(c: char): Scanner
      requires quote.Some?
    {
      if c == '\\' then this.(escaped := true)
      else if c == quote.value then this.(quote := None)
      else this.(word := word + [c])
    }

    /** What a byte outside quotes means to the word it starts or continues. */
    function Mark(c: char): Scanner {
      if c == '\'' || c == '"' then this.(quote := Some(c))
      else if c == '\\' then this.(escaped := true)
      else this.(word := word + [c])
    }

    function Plain(c: char, limits: Limits): Result<Scanner, ScanError> {
      if c == '#' then Success(FinishWord().(inComment := true))
      else if c == ';' || c == '{' then Success(FinishDirective())
      else if c == '}' then Success(this)
      else if c == ' ' || c == '\t' || c == '\r' || c == '\n' then Success(FinishWord())
      else
        var s :- OpenWord(limits);
        Success(s.Mark(c))
    }

    function InsideWord(c: char, limits: Limits): Result<Scanner, ScanError>
      requires escaped || quote.Some?
    {
      var s :- CountTokenByte(limits);
      Success(if escaped then s.(word := s.word + [c], escaped := false) else s.Quoted(c))
    }

    function CountOpen(limits: Limits): Result<Scanner, ScanError> {
      if directiveOpen then CountDirectiveByte(limits) else Success(this)
    }

    function Take(c: char, limits: Limits): Result<Scanner, ScanError> {
      if escaped || quote.Some? then InsideWord(c, limits) else Plain(c, limits)
    }

    function Step(c: char, limits: Limits): Result<Scanner, ScanError> {
      if inComment then Success((if c == '\n' then this.(inComment := false) else this).Advance(c))
      else
        var s :- CountOpen(limits);
        var t :- s.Take(c, limits);
        Success(t.Advance(c))
    }

    function Result(): Result<seq<Directive>, ScanError> {
      if escaped then Failure(DanglingEscape)
      else if quote.Some? then Failure(UnterminatedQuote)
      else if wordStarted || words != [] then Failure(MissingTerminator)
      else Success(directives)
    }
  }

  const START := Scanner([], [], "", false, false, None, false, 0, 0, false, 0, 0, 1, 1)

  function Run(s: Scanner, content: string, limits: Limits): Result<Scanner, ScanError>
    decreases |content|
  {
    if content == "" then Success(s)
    else
      var t :- s.Step(content[0], limits);
      Run(t, content[1..], limits)
  }

  function Scan(content: string, limits: Limits): Result<seq<Directive>, ScanError> {
    if limits.tokenBytes <= 0 || limits.directiveBytes <= 0 then Failure(LimitExceeded)
    else
      var s :- Run(START, content, limits);
      s.Result()
  }

  lemma {:induction false} RunConcat(s: Scanner, a: string, b: string, limits: Limits)
    ensures Run(s, a + b, limits) == match Run(s, a, limits)
                                     case Success(t) => Run(t, b, limits)
                                     case Failure(e) => Failure(e)
    decreases |a|
  {
    hide Scanner.Step;
    if a == "" {
      assert a + b == b;
    } else {
      assert (a + b)[0] == a[0] && (a + b)[1..] == a[1..] + b;
      var t := s.Step(a[0], limits);
      if t.Success? { RunConcat(t.value, a[1..], b, limits); }
    }
  }

  lemma {:induction false} RunOne(s: Scanner, c: char, limits: Limits)
    ensures Run(s, [c], limits) == s.Step(c, limits)
  {
    hide Scanner.Step;
    assert [c][1..] == "";
  }

  // ----- what every scan keeps

  /** Between two directives, outside a comment. */
  predicate Between(s: Scanner) {
    s.words == [] && !s.wordStarted && !s.inComment && s.quote.None? && !s.escaped
  }

  /** What every scan keeps. */
  predicate Tidy(s: Scanner) {
    && (s.directiveOpen <==> s.wordStarted || s.words != [])
    && (!s.directiveOpen ==> s.directiveBytes == 0)
    && (!s.wordStarted ==> s.word == "" && s.tokenBytes == 0 && s.quote.None? && !s.escaped)
    && s.line >= 1 && s.column >= 1 && (s.directiveOpen ==> s.directiveLine >= 1 && s.directiveColumn >= 1)
  }

  lemma OpenStaysTidy(s: Scanner, c: char, limits: Limits)
    requires Tidy(s) && s.OpenWord(limits).Success?
    ensures Tidy(s.OpenWord(limits).value.Mark(c))
  {
  }

  lemma PlainStaysTidy(s: Scanner, c: char, limits: Limits)
    requires Tidy(s) && s.quote.None? && !s.escaped && s.Plain(c, limits).Success?
    ensures Tidy(s.Plain(c, limits).value)
  {
    if s.OpenWord(limits).Success? { OpenStaysTidy(s, c, limits); }
    hide Scanner.OpenWord;
  }

  lemma StaysTidy(s: Scanner, c: char, limits: Limits)
    requires Tidy(s) && s.Step(c, limits).Success?
    ensures Tidy(s.Step(c, limits).value)
  {
    hide Scanner.Plain;
    if !s.inComment && !s.escaped && s.quote.None? {
      var t := if s.directiveOpen then s.CountDirectiveByte(limits).value else s;
      PlainStaysTidy(t, c, limits);
    }
  }

  lemma {:induction false} RunIsTidy(s: Scanner, content: string, limits: Limits)
    requires Tidy(s) && Run(s, content, limits).Success?
    ensures Tidy(Run(s, content, limits).value)
    decreases |content|
  {
    hide Scanner.Step, Tidy;
    if content != "" {
      StaysTidy(s, content[0], limits);
      RunIsTidy(s.Step(content[0], limits).value, content[1..], limits);
    }
  }
}
