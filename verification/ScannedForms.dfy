// Every lexical form is scanned as it says, and every text has a form (internal/config/include.go).
module ScannedForms {
  import opened Outcomes
  import opened ScannerForms
  import opened ScannerSteps

  // ----- every form, scanned

  /** Within the limits so far. */
  predicate InLimits(s: Scanner, limits: Limits) {
    s.tokenBytes <= limits.tokenBytes && s.directiveBytes <= limits.directiveBytes
  }

  /** The state t behind a text, at its place; beyond the limits, the error. */
  function Landed(s: Scanner, t: Scanner, text: string, limits: Limits): Result<Scanner, ScanError> {
    if InLimits(t, limits) then
      Success(t.(line := LineAfter(s.line, text), column := ColumnAfter(s.column, text)))
    else Failure(LimitExceeded)
  }

  lemma {:induction false} MovedConcat(line: nat, column: nat, a: string, b: string)
    ensures LineAfter(line, a + b) == LineAfter(LineAfter(line, a), b)
    ensures ColumnAfter(column, a + b) == ColumnAfter(ColumnAfter(column, a), b)
    decreases |a|
  {
    if a == "" {
      assert a + b == b;
    } else {
      assert (a + b)[0] == a[0] && (a + b)[1..] == a[1..] + b;
      MovedConcat(if a[0] == '\n' then line + 1 else line, if a[0] == '\n' then 1 else column + 1, a[1..], b);
    }
  }

  lemma MovedOne(line: nat, column: nat, c: char)
    ensures LineAfter(line, [c]) == if c == '\n' then line + 1 else line
    ensures ColumnAfter(column, [c]) == if c == '\n' then 1 else column + 1
  {
    assert [c][1..] == "";
  }

  /** Two parts of a text, the second from where the first has landed. */
  lemma {:induction false} LandedTwice(s: Scanner, a: string, t: Scanner, b: string, u: Scanner, w: Scanner,
                                       limits: Limits)
    requires Run(s, a, limits) == Landed(s, t, a, limits)
    requires InLimits(t, limits) ==>
      var at := Landed(s, t, a, limits).value; Run(at, b, limits) == Landed(at, u, b, limits)
    requires InLimits(t, limits) ==> u == w.(line := u.line, column := u.column)
    requires InLimits(w, limits) ==> InLimits(t, limits)
    ensures Run(s, a + b, limits) == Landed(s, w, a + b, limits)
  {
    hide Run, LineAfter, ColumnAfter;
    RunConcat(s, a, b, limits);
    MovedConcat(s.line, s.column, a, b);
  }

  /** Outside quotes, comments and escapes. */
  predicate Ready(s: Scanner) {
    Tidy(s) && s.quote.None? && !s.escaped && !s.inComment
  }

  // ----- words

  /** In quotes, with so many more bytes and characters. */
  function Longer(s: Scanner, word: string, bytes: nat): Scanner {
    s.(word := s.word + word, tokenBytes := s.tokenBytes + bytes, directiveBytes := s.directiveBytes + bytes)
  }

  predicate WithinQuotes(s: Scanner, q: char) {
    s.quote == Some(q) && !s.escaped && !s.inComment && s.wordStarted && s.directiveOpen
  }

  lemma {:induction false} BackslashScanned(s: Scanner, q: char, limits: Limits)
    requires WithinQuotes(s, q) && q != '\\'
    ensures Run(s, "\\", limits) == Landed(s, Longer(s, "", 1).(escaped := true), "\\", limits)
  {
    RunOne(s, '\\', limits);
    MovedOne(s.line, s.column, '\\');
    assert s.word + "" == s.word;
    hide LineAfter, ColumnAfter, Run;
  }

  lemma {:induction false} EscapedScanned(s: Scanner, c: char, limits: Limits)
    requires s.escaped && !s.inComment && s.wordStarted && s.directiveOpen
    ensures Run(s, [c], limits) == Landed(s, Longer(s, [c], 1).(escaped := false), [c], limits)
  {
    RunOne(s, c, limits);
    MovedOne(s.line, s.column, c);
    hide LineAfter, ColumnAfter, Run;
  }

  lemma {:induction false} KeptScanned(s: Scanner, q: char, c: char, limits: Limits)
    requires WithinQuotes(s, q) && c != q && c != '\\'
    ensures Run(s, [c], limits) == Landed(s, Longer(s, [c], 1), [c], limits)
  {
    RunOne(s, c, limits);
    MovedOne(s.line, s.column, c);
    hide LineAfter, ColumnAfter, Run;
  }

  lemma {:induction false} QuoteClosed(s: Scanner, q: char, limits: Limits)
    requires WithinQuotes(s, q) && q != '\\'
    ensures Run(s, [q], limits) == Landed(s, Longer(s, "", 1).(quote := None), [q], limits)
  {
    RunOne(s, q, limits);
    MovedOne(s.line, s.column, q);
    assert s.word + "" == s.word;
    hide LineAfter, ColumnAfter, Run;
  }

  lemma LongerTwice(s: Scanner, a: string, b: string, n: nat, m: nat)
    ensures Longer(Longer(s, a, n), b, m) == Longer(s, a + b, n + m)
  {
    assert s.word + a + b == s.word + (a + b);
  }

  lemma {:induction false} GuardedScanned(s: Scanner, q: char, c: char, limits: Limits)
    requires WithinQuotes(s, q) && q != '\\'
    ensures Run(s, ['\\', c], limits) == Landed(s, Longer(s, [c], 2), ['\\', c], limits)
  {
    var t := Longer(s, "", 1).(escaped := true);
    BackslashScanned(s, q, limits);
    if InLimits(t, limits) {
      var at := Landed(s, t, "\\", limits).value;
      EscapedScanned(at, c, limits);
      assert "" + [c] == [c] && s.word + "" == s.word;
      LandedTwice(s, "\\", t, [c], Longer(at, [c], 1).(escaped := false), Longer(s, [c], 2), limits);
    } else {
      LandedTwice(s, "\\", t, [c], s, Longer(s, [c], 2), limits);
    }
    assert "\\" + [c] == ['\\', c];
  }

  /** Characters in quotes. */
  lemma {:induction false} QuotedScanned(s: Scanner, q: char, chars: seq<Quoted>, limits: Limits)
    requires WithinQuotes(s, q) && ValidQuoted(q, chars) && InLimits(s, limits)
    ensures Run(s, QuotedText(chars), limits)
         == Landed(s, Longer(s, QuotedMeaning(chars), |QuotedText(chars)|), QuotedText(chars), limits)
    decreases |chars|
  {
    hide Run, LineAfter, ColumnAfter;
    if chars == [] {
      NothingScanned(s, limits);
      assert s.word + "" == s.word;
    } else {
      var rest := chars[1..];
      var first := if chars[0].Kept? then [chars[0].c] else ['\\', chars[0].c];
      var t := Longer(s, [chars[0].c], |first|);
      if chars[0].Kept? { KeptScanned(s, q, chars[0].c, limits); } else { GuardedScanned(s, q, chars[0].c, limits); }
      LongerTwice(s, [chars[0].c], QuotedMeaning(rest), |first|, |QuotedText(rest)|);
      var w := Longer(s, QuotedMeaning(chars), |QuotedText(chars)|);
      if InLimits(t, limits) {
        var at := Landed(s, t, first, limits).value;
        QuotedScanned(at, q, rest, limits);
        LandedTwice(s, first, t, QuotedText(rest), Longer(at, QuotedMeaning(rest), |QuotedText(rest)|), w, limits);
      } else {
        LandedTwice(s, first, t, QuotedText(rest), s, w, limits);
      }
    }
  }

  lemma NothingScanned(s: Scanner, limits: Limits)
    requires InLimits(s, limits)
    ensures Run(s, "", limits) == Landed(s, s, "", limits)
  {
  }

  /** The word at hand, or a new one where the scan stands. */
  function Opened(s: Scanner): Scanner {
    if s.wordStarted then s
    else if s.words != [] then s.(wordStarted := true)
    else s.(wordStarted := true, directiveOpen := true, directiveLine := s.line, directiveColumn := s.column)
  }

  /** The first byte of a piece. */
  lemma {:induction false} FirstByte(s: Scanner, c: char, limits: Limits)
    requires Ready(s) && !IsBlank(c) && !IsEnd(c) && c != '#' && c != '}'
    ensures Run(s, [c], limits)
         == Landed(s, Opened(s).Mark(c).(tokenBytes := s.tokenBytes + 1, directiveBytes := s.directiveBytes + 1), [c],
                   limits)
  {
    RunOne(s, c, limits);
    MovedOne(s.line, s.column, c);
    hide LineAfter, ColumnAfter, Run;
  }

  function AfterPiece(s: Scanner, p: Piece): Scanner {
    if p.Hole? then s.(directiveBytes := s.directiveBytes + 1)
    else Longer(Opened(s), PieceMeaning(p), |PieceText(p)|)
  }

  lemma {:induction false} HoleScanned(s: Scanner, limits: Limits)
    requires Ready(s) && s.directiveOpen && InLimits(s, limits)
    ensures Run(s, "}", limits) == Landed(s, s.(directiveBytes := s.directiveBytes + 1), "}", limits)
  {
    RunOne(s, '}', limits);
    MovedOne(s.line, s.column, '}');
    hide LineAfter, ColumnAfter, Run;
  }

  lemma {:induction false} QuoteScanned(s: Scanner, q: char, chars: seq<Quoted>, limits: Limits)
    requires Ready(s) && ValidQuoted(q, chars)
    ensures Run(s, [q] + QuotedText(chars), limits)
         == Landed(s, Longer(Opened(s), QuotedMeaning(chars), 1 + |QuotedText(chars)|).(quote := Some(q)),
                   [q] + QuotedText(chars), limits)
  {
    hide Run, LineAfter, ColumnAfter, QuotedText, QuotedMeaning;
    var t := Opened(s).Mark(q).(tokenBytes := s.tokenBytes + 1, directiveBytes := s.directiveBytes + 1);
    var w := Longer(Opened(s), QuotedMeaning(chars), 1 + |QuotedText(chars)|).(quote := Some(q));
    FirstByte(s, q, limits);
    if InLimits(t, limits) {
      var at := Landed(s, t, [q], limits).value;
      QuotedScanned(at, q, chars, limits);
      LandedTwice(s, [q], t, QuotedText(chars), Longer(at, QuotedMeaning(chars), |QuotedText(chars)|), w, limits);
    } else {
      LandedTwice(s, [q], t, QuotedText(chars), s, w, limits);
    }
  }

  lemma {:induction false} PieceScanned(s: Scanner, p: Piece, limits: Limits)
    requires Ready(s) && ValidPiece(p) && InLimits(s, limits) && (p.Hole? ==> s.wordStarted)
    ensures Run(s, PieceText(p), limits) == Landed(s, AfterPiece(s, p), PieceText(p), limits)
  {
    hide Run, LineAfter, ColumnAfter, QuotedText, QuotedMeaning;
    match p
    case Bare(c) =>
      FirstByte(s, c, limits);
    case Hole =>
      HoleScanned(s, limits);
    case Escaped(c) =>
      var t := Opened(s).(escaped := true, tokenBytes := s.tokenBytes + 1, directiveBytes := s.directiveBytes + 1);
      FirstByte(s, '\\', limits);
      if InLimits(t, limits) {
        var at := Landed(s, t, "\\", limits).value;
        EscapedScanned(at, c, limits);
        LandedTwice(s, "\\", t, [c], Longer(at, [c], 1).(escaped := false), AfterPiece(s, p), limits);
      } else {
        LandedTwice(s, "\\", t, [c], s, AfterPiece(s, p), limits);
      }
      assert "\\" + [c] == ['\\', c];
    case Quote(q, chars) =>
      var text := [q] + QuotedText(chars);
      var t := Longer(Opened(s), QuotedMeaning(chars), |text|).(quote := Some(q));
      QuoteScanned(s, q, chars, limits);
      if InLimits(t, limits) {
        var at := Landed(s, t, text, limits).value;
        QuoteClosed(at, q, limits);
        assert QuotedMeaning(chars) + "" == QuotedMeaning(chars);
        LongerTwice(Opened(s), QuotedMeaning(chars), "", |text|, 1);
        LandedTwice(s, text, t, [q], Longer(at, "", 1).(quote := None), AfterPiece(s, p), limits);
      } else {
        LandedTwice(s, text, t, [q], s, AfterPiece(s, p), limits);
      }
  }

  /** The pieces of a word. */
  function WithPieces(s: Scanner, pieces: seq<Piece>): Scanner {
    var u := if pieces == [] then s else Opened(s);
    u.(word := u.word + PiecesMeaning(pieces), tokenBytes := u.tokenBytes + TokenBytes(pieces),
         directiveBytes := u.directiveBytes + |PiecesText(pieces)|)
  }

  lemma WithOnePiece(s: Scanner, at: Scanner, pieces: seq<Piece>)
    requires pieces != [] && (pieces[0].Hole? ==> s.wordStarted)
    requires var t := AfterPiece(s, pieces[0]); at == t.(line := at.line, column := at.column)
    ensures var w, u := WithPieces(s, pieces), WithPieces(at, pieces[1..]); u == w.(line := u.line, column := u.column)
  {
    HoleSaysNothing();
    hide PieceText, PieceMeaning;
    var rest := pieces[1..];
    var u := Opened(s);
    assert PiecesMeaning(pieces) == PieceMeaning(pieces[0]) + PiecesMeaning(rest);
    assert u.word + PieceMeaning(pieces[0]) + PiecesMeaning(rest) == u.word + PiecesMeaning(pieces);
    if pieces[0].Hole? {
      assert PiecesMeaning(pieces) == PiecesMeaning(rest);
    } else {
      OpenedStays(s, at);
    }
  }

  lemma HoleSaysNothing()
    ensures PieceMeaning(Hole) == "" && PieceText(Hole) == "}"
  {
  }

  lemma OpenedStays(s: Scanner, at: Scanner)
    requires at.wordStarted
    ensures Opened(at) == at && Opened(s).wordStarted
  {
  }

  lemma {:induction false} PiecesScanned(s: Scanner, pieces: seq<Piece>, limits: Limits)
    requires Ready(s) && InLimits(s, limits) && (forall i | 0 <= i < |pieces| :: ValidPiece(pieces[i]))
    requires pieces != [] && pieces[0].Hole? ==> s.wordStarted
    ensures Run(s, PiecesText(pieces), limits) == Landed(s, WithPieces(s, pieces), PiecesText(pieces), limits)
    decreases |pieces|
  {
    hide Run, LineAfter, ColumnAfter, PieceText, PieceMeaning, ValidPiece;
    if pieces == [] {
      assert s.word + "" == s.word;
      NothingScanned(s, limits);
    } else {
      var first, rest := PieceText(pieces[0]), pieces[1..];
      var t, w := AfterPiece(s, pieces[0]), WithPieces(s, pieces);
      PieceScanned(s, pieces[0], limits);
      PieceKeepsReady(s, pieces[0], limits);
      assert InLimits(w, limits) ==> InLimits(t, limits) by { PieceCounts(s, pieces); }
      if InLimits(t, limits) {
        var at := Landed(s, t, first, limits).value;
        WithOnePiece(s, at, pieces);
        PiecesScanned(at, rest, limits);
        LandedTwice(s, first, t, PiecesText(rest), WithPieces(at, rest), w, limits);
      } else {
        LandedTwice(s, first, t, PiecesText(rest), s, w, limits);
      }
    }
  }

  lemma PieceCounts(s: Scanner, pieces: seq<Piece>)
    requires pieces != []
    ensures AfterPiece(s, pieces[0]).tokenBytes <= WithPieces(s, pieces).tokenBytes
    ensures AfterPiece(s, pieces[0]).directiveBytes <= WithPieces(s, pieces).directiveBytes
  {
    hide PieceMeaning;
  }

  lemma PieceKeepsReady(s: Scanner, p: Piece, limits: Limits)
    requires Ready(s) && (p.Hole? ==> s.wordStarted)
    requires Run(s, PieceText(p), limits) == Landed(s, AfterPiece(s, p), PieceText(p), limits)
    ensures InLimits(AfterPiece(s, p), limits) ==>
      var at := Landed(s, AfterPiece(s, p), PieceText(p), limits).value; Ready(at) && at.wordStarted
  {
    if InLimits(AfterPiece(s, p), limits) { RunIsTidy(s, PieceText(p), limits); }
    hide Run, LineAfter, ColumnAfter, PieceText, PieceMeaning;
  }

  // ----- spaces

  lemma {:induction false} RemarkScanned(s: Scanner, text: string, limits: Limits)
    requires s.inComment && '\n' !in text && InLimits(s, limits)
    ensures Run(s, text, limits) == Landed(s, s, text, limits)
    decreases |text|
  {
    hide LineAfter, ColumnAfter;
    if text == "" {
      NothingScanned(s, limits);
    } else {
      var c, rest := text[0], text[1..];
      RunOne(s, c, limits);
      MovedOne(s.line, s.column, c);
      var at := Landed(s, s, [c], limits).value;
      RemarkScanned(at, rest, limits);
      hide Run;
      LandedTwice(s, [c], s, rest, at, s, limits);
      assert [c] + rest == text;
    }
  }

  lemma {:induction false} CommentStarts(s: Scanner, limits: Limits)
    requires Ready(s) && InLimits(s, limits)
    ensures var t := s.FinishWord().(inComment := true,
        directiveBytes := if s.directiveOpen then s.directiveBytes + 1 else s.directiveBytes);
      Run(s, "#", limits) == Landed(s, t, "#", limits)
  {
    RunOne(s, '#', limits);
    MovedOne(s.line, s.column, '#');
    hide LineAfter, ColumnAfter, Run;
  }

  lemma {:induction false} CommentEnds(s: Scanner, limits: Limits)
    requires s.inComment && InLimits(s, limits)
    ensures Run(s, "\n", limits) == Landed(s, s.(inComment := false), "\n", limits)
  {
    RunOne(s, '\n', limits);
    MovedOne(s.line, s.column, '\n');
    hide LineAfter, ColumnAfter, Run;
  }

  /** An open comment, from its first byte on. */
  lemma {:induction false} OpenCommentScanned(s: Scanner, text: string, limits: Limits)
    requires Ready(s) && InLimits(s, limits) && '\n' !in text
    ensures var t := s.FinishWord().(inComment := true,
        directiveBytes := if s.directiveOpen then s.directiveBytes + 1 else s.directiveBytes);
      Run(s, "#" + text, limits) == Landed(s, t, "#" + text, limits)
  {
    hide Run, LineAfter, ColumnAfter;
    var t := s.FinishWord().(inComment := true,
        directiveBytes := if s.directiveOpen then s.directiveBytes + 1 else s.directiveBytes);
    CommentStarts(s, limits);
    if InLimits(t, limits) {
      var at := Landed(s, t, "#", limits).value;
      RemarkScanned(at, text, limits);
      LandedTwice(s, "#", t, text, at, t, limits);
    } else {
      LandedTwice(s, "#", t, text, s, t, limits);
    }
  }

  /** What one space does. */
  function Spaced(s: Scanner, space: Space): Scanner {
    (if Separates(space) then s.FinishWord() else s).(directiveBytes :=
        if s.directiveOpen then s.directiveBytes + 1 else s.directiveBytes)
  }

  lemma {:induction false} SpaceScanned(s: Scanner, space: Space, limits: Limits)
    requires Ready(s) && InLimits(s, limits) && ValidSpace(space, !s.directiveOpen)
    ensures Run(s, SpaceText(space), limits) == Landed(s, Spaced(s, space), SpaceText(space), limits)
  {
    match space
    case Remark(text) =>
      hide Run, LineAfter, ColumnAfter;
      var t, u := s.FinishWord().(inComment := true,
          directiveBytes := if s.directiveOpen then s.directiveBytes + 1 else s.directiveBytes), Spaced(s, space);
      OpenCommentScanned(s, text, limits);
      if InLimits(t, limits) {
        var at := Landed(s, t, "#" + text, limits).value;
        CommentEnds(at, limits);
        LandedTwice(s, "#" + text, t, "\n", at.(inComment := false), u, limits);
      } else {
        LandedTwice(s, "#" + text, t, "\n", s, u, limits);
      }
    case Blank(c) =>
      BlankScanned(s, c, limits);
    case Stray =>
      StrayScanned(s, limits);
    case Loose(c) =>
      RunOne(s, c, limits);
      MovedOne(s.line, s.column, c);
      hide LineAfter, ColumnAfter, Run;
  }

  lemma {:induction false} BlankScanned(s: Scanner, c: char, limits: Limits)
    requires Ready(s) && InLimits(s, limits) && IsBlank(c)
    ensures Run(s, [c], limits) == Landed(s, Spaced(s, Blank(c)), [c], limits)
  {
    RunOne(s, c, limits);
    MovedOne(s.line, s.column, c);
    hide LineAfter, ColumnAfter, Run;
  }

  lemma {:induction false} StrayScanned(s: Scanner, limits: Limits)
    requires Ready(s) && InLimits(s, limits)
    ensures Run(s, "}", limits) == Landed(s, Spaced(s, Stray), "}", limits)
  {
    RunOne(s, '}', limits);
    MovedOne(s.line, s.column, '}');
    hide LineAfter, ColumnAfter, Run;
  }

  /** Spaces behind a word or between directives. */
  function WithSpaces(s: Scanner, spaces: seq<Space>): Scanner {
    if spaces == [] then s
    else s.FinishWord().(directiveBytes :=
        if s.directiveOpen then s.directiveBytes + SpaceBytes(spaces) else s.directiveBytes)
  }

  lemma WithOneSpace(s: Scanner, at: Scanner, spaces: seq<Space>)
    requires spaces != [] && (s.wordStarted ==> Separates(spaces[0]))
    requires var t := Spaced(s, spaces[0]); at == t.(line := at.line, column := at.column)
    ensures var w, u := WithSpaces(s, spaces), WithSpaces(at, spaces[1..]); u == w.(line := u.line, column := u.column)
    ensures InLimitsOf(Spaced(s, spaces[0]), WithSpaces(s, spaces))
  {
    assert SpaceBytes(spaces) == 1 + SpaceBytes(spaces[1..]);
    assert spaces[1..] == [] ==> SpaceBytes(spaces[1..]) == 0;
  }

  /** The counters of t are not beyond those of w. */
  predicate InLimitsOf(t: Scanner, w: Scanner) {
    t.tokenBytes <= w.tokenBytes && t.directiveBytes <= w.directiveBytes
  }

  lemma {:induction false} SpacesScanned(s: Scanner, spaces: seq<Space>, limits: Limits)
    requires Ready(s) && InLimits(s, limits) && ValidSpaces(spaces, !s.directiveOpen)
    requires s.wordStarted && spaces != [] ==> Separates(spaces[0])
    ensures Run(s, SpacesText(spaces), limits) == Landed(s, WithSpaces(s, spaces), SpacesText(spaces), limits)
    ensures InLimits(WithSpaces(s, spaces), limits) ==>
      Ready(Landed(s, WithSpaces(s, spaces), SpacesText(spaces), limits).value)
    decreases |spaces|
  {
    hide Run, LineAfter, ColumnAfter, SpaceText, ValidSpace;
    if spaces == [] {
      NothingScanned(s, limits);
      RunIsTidy(s, "", limits);
    } else {
      var first, rest := SpaceText(spaces[0]), spaces[1..];
      var t, w := Spaced(s, spaces[0]), WithSpaces(s, spaces);
      SpaceScanned(s, spaces[0], limits);
      if InLimits(t, limits) {
        var at := Landed(s, t, first, limits).value;
        RunIsTidy(s, first, limits);
        assert Ready(at);
        WithOneSpace(s, at, spaces);
        SpacesScanned(at, rest, limits);
        LandedTwice(s, first, t, SpacesText(rest), WithSpaces(at, rest), w, limits);
      } else {
        LandedTwice(s, first, t, SpacesText(rest), s, w, limits);
      }
      if InLimits(w, limits) { RunIsTidy(s, SpacesText(spaces), limits); }
    }
  }

  // ----- whole words and directives

  /** The state t behind a text that fits, at its place; else the error. */
  function Reached(s: Scanner, t: Scanner, text: string, fits: bool): Result<Scanner, ScanError> {
    if fits then Success(t.(line := LineAfter(s.line, text), column := ColumnAfter(s.column, text)))
    else Failure(LimitExceeded)
  }

  lemma {:induction false} ReachedTwice(s: Scanner, a: string, t: Scanner, aFits: bool, b: string, u: Scanner,
                                        bFits: bool, w: Scanner, limits: Limits)
    requires Run(s, a, limits) == Reached(s, t, a, aFits)
    requires aFits ==> var at := Reached(s, t, a, true).value; Run(at, b, limits) == Reached(at, u, b, bFits)
    requires aFits && bFits ==> u == w.(line := u.line, column := u.column)
    ensures Run(s, a + b, limits) == Reached(s, w, a + b, aFits && bFits)
  {
    hide Run, LineAfter, ColumnAfter;
    RunConcat(s, a, b, limits);
    MovedConcat(s.line, s.column, a, b);
  }

  lemma LandedIsReached(s: Scanner, t: Scanner, text: string, limits: Limits)
    ensures Landed(s, t, text, limits) == Reached(s, t, text, InLimits(t, limits))
  {
  }

  predicate WordFits(s: Scanner, w: Word, limits: Limits) {
    && TokenBytes(w.pieces) <= limits.tokenBytes
    && s.directiveBytes + |PiecesText(w.pieces)| + SpaceBytes(w.after) <= limits.directiveBytes
  }

  function WithWord(s: Scanner, w: Word): Scanner {
    WithSpaces(WithPieces(s, w.pieces), w.after)
  }

  lemma PiecesOpen(s: Scanner, pieces: seq<Piece>, limits: Limits)
    requires Ready(s) && pieces != []
    requires Run(s, PiecesText(pieces), limits) == Landed(s, WithPieces(s, pieces), PiecesText(pieces), limits)
    ensures InLimits(WithPieces(s, pieces), limits) ==>
      var at := Landed(s, WithPieces(s, pieces), PiecesText(pieces), limits).value;
      Ready(at) && at.wordStarted && at.directiveOpen
  {
    if InLimits(WithPieces(s, pieces), limits) { RunIsTidy(s, PiecesText(pieces), limits); }
    hide Run, LineAfter, ColumnAfter, PiecesText, PiecesMeaning, TokenBytes;
  }

  lemma WithPiecesCounts(s: Scanner, pieces: seq<Piece>)
    requires Tidy(s)
    ensures var t := WithPieces(s, pieces);
      t.tokenBytes == s.tokenBytes + TokenBytes(pieces) && t.directiveBytes == s.directiveBytes + |PiecesText(pieces)|
      && (pieces != [] ==> t.directiveOpen && t.wordStarted)
  {
  }

  lemma {:induction false} WordScanned(s: Scanner, w: Word, limits: Limits)
    requires Ready(s) && !s.wordStarted && InLimits(s, limits)
    requires ValidWord(w, true) && w.pieces != []
    ensures Run(s, WordText(w), limits) == Reached(s, WithWord(s, w), WordText(w), WordFits(s, w, limits))
    ensures WordFits(s, w, limits) ==> Ready(Reached(s, WithWord(s, w), WordText(w), true).value)
  {
    hide Run, LineAfter, ColumnAfter, PiecesText, PiecesMeaning, TokenBytes, SpacesText, ValidPiece, ValidSpace;
    var a, b, t := PiecesText(w.pieces), SpacesText(w.after), WithPieces(s, w.pieces);
    PiecesScanned(s, w.pieces, limits);
    PiecesOpen(s, w.pieces, limits);
    WithPiecesCounts(s, w.pieces);
    LandedIsReached(s, t, a, limits);
    assert s.tokenBytes == 0;
    if InLimits(t, limits) {
      var at := Reached(s, t, a, true).value;
      SpacesScanned(at, w.after, limits);
      var u := WithSpaces(at, w.after);
      LandedIsReached(at, u, b, limits);
      ReachedTwice(s, a, t, true, b, u, InLimits(u, limits), WithWord(s, w), limits);
      assert InLimits(u, limits) <==> WordFits(s, w, limits) by { AfterCounts(at, w.after); }
      if WordFits(s, w, limits) { RunIsTidy(s, WordText(w), limits); }
    } else {
      ReachedTwice(s, a, t, false, b, s, true, WithWord(s, w), limits);
    }
  }

  lemma AfterCounts(s: Scanner, after: seq<Space>)
    requires s.directiveOpen && Tidy(s)
    ensures WithSpaces(s, after).directiveBytes == s.directiveBytes + SpaceBytes(after)
    ensures WithSpaces(s, after).tokenBytes <= s.tokenBytes
  {
  }

  /** The words of a directive one after the other. */
  function WithWords(s: Scanner, words: seq<Word>): Scanner
    decreases |words|
  {
    if words == [] then s else WithWords(WithWord(s, words[0]), words[1..])
  }

  predicate WordsFitFrom(s: Scanner, words: seq<Word>, limits: Limits) {
    WordsFit(words, limits) && (words != [] ==> s.directiveBytes + DirectiveBytes(words) <= limits.directiveBytes)
  }

  lemma WordsFitSplit(s: Scanner, at: Scanner, words: seq<Word>, limits: Limits)
    requires words != []
    requires at.directiveBytes
        == s.directiveBytes + |PiecesText(words[0].pieces)| + SpaceBytes(words[0].after)
    ensures WordsFitFrom(s, words, limits) <==> WordFits(s, words[0], limits) && WordsFitFrom(at, words[1..], limits)
  {
    hide PiecesText, SpaceBytes, TokenBytes;
    var rest := words[1..];
    assert DirectiveBytes(words)
        == |PiecesText(words[0].pieces)| + SpaceBytes(words[0].after) + DirectiveBytes(rest);
    if WordsFit(words, limits) {
      assert TokenBytes(words[0].pieces) <= limits.tokenBytes;
      forall i | 0 <= i < |rest| ensures TokenBytes(rest[i].pieces) <= limits.tokenBytes {
        assert rest[i] == words[i + 1];
      }
    }
    if WordFits(s, words[0], limits) && WordsFit(rest, limits) {
      forall i | 0 <= i < |words| ensures TokenBytes(words[i].pieces) <= limits.tokenBytes {
        if i > 0 { assert rest[i - 1] == words[i]; }
      }
    }
    assert rest == [] ==> DirectiveBytes(rest) == 0;
  }

  /** Elsewhere in the text the words say the same once one is there. */
  lemma {:induction false} WordsElsewhere(s: Scanner, t: Scanner, words: seq<Word>)
    requires s == t.(line := s.line, column := s.column) && (s.words != [] || s.wordStarted)
    requires forall i | 0 <= i < |words| :: words[i].pieces != []
    ensures var u, w := WithWords(s, words), WithWords(t, words); u == w.(line := u.line, column := u.column)
    decreases |words|
  {
    hide PiecesText, PiecesMeaning, TokenBytes, SpaceBytes;
    if words != [] { WordsElsewhere(WithWord(s, words[0]), WithWord(t, words[0]), words[1..]); }
  }

  /** All words are there and the last has something of itself. */
  predicate FullWords(words: seq<Word>) {
    ValidWords(words) && forall i | 0 <= i < |words| :: words[i].pieces != []
  }

  lemma FullRest(words: seq<Word>)
    requires FullWords(words) && words != []
    ensures FullWords(words[1..]) && ValidWord(words[0], true) && words[0].pieces != []
    ensures |words| > 1 ==> words[0].after != []
  {
    hide ValidPieces, ValidSpaces;
    var rest := words[1..];
    assert ValidWord(words[0], 0 == |words| - 1);
    forall i | 0 <= i < |rest| ensures ValidWord(rest[i], i == |rest| - 1) {
      assert ValidWord(words[i + 1], i + 1 == |words| - 1);
    }
  }

  lemma WordIsOver(s: Scanner, w: Word)
    requires Tidy(s) && !s.wordStarted && w.pieces != []
    ensures var t := WithWord(s, w);
      && t.directiveBytes == s.directiveBytes + |PiecesText(w.pieces)| + SpaceBytes(w.after)
      && (w.after != [] ==> !t.wordStarted && t.tokenBytes == 0 && t.words == s.words + [PiecesMeaning(w.pieces)])
      && (t.wordStarted || t.words != []) && t.directiveOpen
  {
    hide PiecesText, PiecesMeaning, TokenBytes;
    assert "" + PiecesMeaning(w.pieces) == PiecesMeaning(w.pieces);
  }

  lemma {:induction false} WordsScanned(s: Scanner, words: seq<Word>, limits: Limits)
    requires Ready(s) && !s.wordStarted && InLimits(s, limits) && FullWords(words)
    ensures Run(s, WordsText(words), limits)
         == Reached(s, WithWords(s, words), WordsText(words), WordsFitFrom(s, words, limits))
    ensures WordsFitFrom(s, words, limits) ==> Ready(Reached(s, WithWords(s, words), WordsText(words), true).value)
    decreases |words|
  {
    hide Run, LineAfter, ColumnAfter, WordText, WithWord, WordFits, ValidWord, DirectiveBytes, Tidy, WordsFit;
    if words == [] {
      NothingReached(s, limits);
      assert WordsFit(words, limits) by { NoWordsFit(limits); }
    } else {
      var a, b, rest, t := WordText(words[0]), WordsText(words[1..]), words[1..], WithWord(s, words[0]);
      FullRest(words);
      WordScanned(s, words[0], limits);
      WordIsOver(s, words[0]);
      WordsFitSplit(s, t, words, limits);
      if WordFits(s, words[0], limits) {
        var at := Reached(s, t, a, true).value;
        WordStaysInLimits(s, words[0], limits);
        WordsElsewhere(at, t, rest);
        if rest == [] {
          NothingReached(at, limits);
          NoWordsFit(limits);
          ReachedTwice(s, a, t, true, b, at, true, WithWords(s, words), limits);
        } else {
          WordsScanned(at, rest, limits);
          ReachedTwice(s, a, t, true, b, WithWords(at, rest), WordsFitFrom(at, rest, limits), WithWords(s, words),
            limits);
        }
        if WordsFitFrom(s, words, limits) { ReadyAtEnd(s, words, limits); }
      } else {
        ReachedTwice(s, a, t, false, b, s, true, WithWords(s, words), limits);
      }
    }
  }

  lemma NoWordsFit(limits: Limits)
    ensures WordsFit([], limits)
  {
  }

  lemma NothingReached(s: Scanner, limits: Limits)
    ensures Run(s, "", limits) == Reached(s, s, "", true) && Reached(s, s, "", true).value == s
  {
  }

  lemma WordStaysInLimits(s: Scanner, w: Word, limits: Limits)
    requires Tidy(s) && !s.wordStarted && w.pieces != [] && WordFits(s, w, limits)
    ensures InLimits(WithWord(s, w), limits)
  {
    hide PiecesText, PiecesMeaning, TokenBytes;
  }

  /** Words leave the scan outside quotes and comments. */
  lemma {:induction false} WordsStayReady(s: Scanner, words: seq<Word>)
    requires s.quote.None? && !s.escaped && !s.inComment
    ensures var t := WithWords(s, words); t.quote.None? && !t.escaped && !t.inComment
    decreases |words|
  {
    hide PiecesText, PiecesMeaning, TokenBytes, SpaceBytes;
    if words != [] { WordsStayReady(WithWord(s, words[0]), words[1..]); }
  }

  lemma {:induction false} ReadyAtEnd(s: Scanner, words: seq<Word>, limits: Limits)
    requires Ready(s)
    requires Run(s, WordsText(words), limits) == Reached(s, WithWords(s, words), WordsText(words), true)
    ensures Ready(Reached(s, WithWords(s, words), WordsText(words), true).value)
  {
    RunIsTidy(s, WordsText(words), limits);
    WordsStayReady(s, words);
    hide Run, LineAfter, ColumnAfter, WordsText, WithWords;
  }

  /** What the words of a directive leave: their meanings, and where the first one starts. */
  lemma {:induction false} WordsSay(s: Scanner, words: seq<Word>)
    requires Tidy(s) && !s.wordStarted && FullWords(words) && words != []
    ensures var t, last := WithWords(s, words), words[|words| - 1];
      && t.FinishWord().words == s.words + Meanings(words) && t.directives == s.directives
      && t.directiveBytes == s.directiveBytes + DirectiveBytes(words) && t.directiveOpen
      && t.directiveLine == (if s.words == [] then s.line else s.directiveLine)
      && t.directiveColumn == (if s.words == [] then s.column else s.directiveColumn)
      && t.tokenBytes == (if last.after == [] then TokenBytes(last.pieces) else 0)
      && t.wordStarted == (last.after == [])
    decreases |words|
  {
    hide PiecesText, PiecesMeaning, TokenBytes, SpaceBytes, ValidWord;
    FullRest(words);
    var rest, t := words[1..], WithWord(s, words[0]);
    FirstWordSays(s, words[0]);
    assert Meanings(words) == [PiecesMeaning(words[0].pieces)] + Meanings(rest);
    assert DirectiveBytes(words) == |PiecesText(words[0].pieces)| + SpaceBytes(words[0].after) + DirectiveBytes(rest);
    if rest == [] {
      assert DirectiveBytes(rest) == 0 && Meanings(rest) == [];
    } else {
      WordsSay(t, rest);
      assert s.words + [PiecesMeaning(words[0].pieces)] + Meanings(rest)
          == s.words + ([PiecesMeaning(words[0].pieces)] + Meanings(rest));
    }
  }

  lemma FirstWordSays(s: Scanner, w: Word)
    requires Tidy(s) && !s.wordStarted && w.pieces != []
    ensures var t := WithWord(s, w);
      && t.FinishWord().words == s.words + [PiecesMeaning(w.pieces)] && t.directives == s.directives
      && t.directiveBytes == s.directiveBytes + |PiecesText(w.pieces)| + SpaceBytes(w.after) && t.directiveOpen
      && t.directiveLine == (if s.words == [] then s.line else s.directiveLine)
      && t.directiveColumn == (if s.words == [] then s.column else s.directiveColumn)
      && t.tokenBytes == (if w.after == [] then TokenBytes(w.pieces) else 0)
      && t.wordStarted == (w.after == []) && (w.after != [] ==> Tidy(t) && t.words != [])
      && t.line == s.line && t.column == s.column
  {
    hide PiecesText, PiecesMeaning, TokenBytes;
    assert "" + PiecesMeaning(w.pieces) == PiecesMeaning(w.pieces);
  }

  lemma {:induction false} EndScanned(s: Scanner, c: char, limits: Limits)
    requires Ready(s) && s.directiveOpen && IsEnd(c)
    ensures Run(s, [c], limits) == Reached(s, s.FinishDirective(), [c], s.directiveBytes + 1 <= limits.directiveBytes)
  {
    RunOne(s, c, limits);
    MovedOne(s.line, s.column, c);
    hide LineAfter, ColumnAfter, Run;
  }

  lemma FinishedIsIdle(s: Scanner)
    requires Ready(s) && s.directiveOpen
    ensures var t, words := s.FinishDirective(), s.FinishWord().words;
      && words != []
      && t == START.(directives := s.directives + [Directive(words[0], words[1..], s.directiveLine, s.directiveColumn)],
                     directiveLine := s.directiveLine, directiveColumn := s.directiveColumn, line := s.line,
                     column := s.column)
  {
  }

  /** A directive, from between two directives. */
  lemma {:induction false} LaidScanned(s: Scanner, l: Laid, before: string, limits: Limits)
    requires Between(s) && Tidy(s) && ValidLaid(l) && InLimits(s, limits)
    requires s.line == LineAfter(1, before) && s.column == ColumnAfter(1, before)
    ensures var d := DirectiveOf(l, before);
      Run(s, LaidText(l), limits)
      == Reached(s, START.(directives := s.directives + [d], directiveLine := d.line, directiveColumn := d.column),
                 LaidText(l), LaidFits(l, limits))
  {
    hide Run, LineAfter, ColumnAfter, SpacesText, WordsText, WithWords, Meanings, DirectiveBytes, WordsFit,
      ValidWords, ValidSpaces;
    var a, b, d := SpacesText(l.before), WordsText(l.words), DirectiveOf(l, before);
    var end := START.(directives := s.directives + [d], directiveLine := d.line, directiveColumn := d.column);
    SpacesScanned(s, l.before, limits);
    LandedIsReached(s, WithSpaces(s, l.before), a, limits);
    assert WithSpaces(s, l.before) == s;
    var at := Reached(s, s, a, true).value;
    MovedConcat(1, 1, before, a);
    assert at.line == LineAfter(1, before + a) && at.column == ColumnAfter(1, before + a);
    LaidIsFull(l);
    WordsScanned(at, l.words, limits);
    WordsSay(at, l.words);
    var t, wordsFit := WithWords(at, l.words), WordsFitFrom(at, l.words, limits);
    if wordsFit {
      var u := Reached(at, t, b, true).value;
      EndScanned(u, l.end, limits);
      FinishedIsIdle(u);
      assert u.FinishWord().words == Meanings(l.words);
      var endFits := u.directiveBytes + 1 <= limits.directiveBytes;
      ReachedTwice(at, b, t, true, [l.end], u.FinishDirective(), endFits, end, limits);
      assert LaidFits(l, limits) == endFits;
      ReachedTwice(s, a, s, true, b + [l.end], end, endFits, end, limits);
    } else {
      ReachedTwice(at, b, t, false, [l.end], at, true, end, limits);
      ReachedTwice(s, a, s, true, b + [l.end], end, false, end, limits);
    }
  }

  lemma LaidIsFull(l: Laid)
    requires ValidLaid(l)
    ensures FullWords(l.words)
  {
    hide ValidPieces, ValidSpaces;
    forall i | 0 <= i < |l.words| ensures l.words[i].pieces != [] {
      assert ValidWord(l.words[i], i == |l.words| - 1);
    }
  }

  /** Where the scan stands between directives. */
  function Idle(laid: seq<Laid>): Scanner
    requires forall i | 0 <= i < |laid| :: laid[i].words != []
  {
    var ds := DirectivesOf(laid);
    if ds == [] then START
    else START.(directives := ds, directiveLine := ds[|ds| - 1].line, directiveColumn := ds[|ds| - 1].column)
  }

  predicate AllFit(laid: seq<Laid>, limits: Limits) {
    forall i | 0 <= i < |laid| :: LaidFits(laid[i], limits)
  }

  lemma {:induction false} AllScanned(laid: seq<Laid>, limits: Limits)
    requires limits.tokenBytes > 0 && limits.directiveBytes > 0 && forall i | 0 <= i < |laid| :: ValidLaid(laid[i])
    ensures forall i | 0 <= i < |laid| :: laid[i].words != []
    ensures Run(START, AllText(laid), limits) == Reached(START, Idle(laid), AllText(laid), AllFit(laid, limits))
    decreases |laid|
  {
    hide Run, LineAfter, ColumnAfter, ValidLaid, LaidText, LaidFits, DirectiveOf;
    assert forall i | 0 <= i < |laid| :: laid[i].words != [] by { AllHaveWords(laid); }
    if laid == [] {
      NothingReached(START, limits);
    } else {
      var n := |laid| - 1;
      var front, l := laid[..n], laid[n];
      AllScanned(front, limits);
      assert AllFit(laid, limits) <==> AllFit(front, limits) && LaidFits(l, limits) by {
        assert forall i | 0 <= i < n :: front[i] == laid[i];
      }
      var a, b := AllText(front), LaidText(l);
      if AllFit(front, limits) {
        var at := Reached(START, Idle(front), a, true).value;
        RunIsTidy(START, a, limits);
        LaidScanned(at, l, a, limits);
        var d := DirectiveOf(l, a);
        ReachedTwice(START, a, Idle(front), true, b,
                     START.(directives := at.directives + [d], directiveLine := d.line, directiveColumn := d.column),
                     LaidFits(l, limits), Idle(laid), limits);
      } else {
        ReachedTwice(START, a, Idle(front), false, b, START, true, Idle(laid), limits);
      }
    }
  }

  lemma AllHaveWords(laid: seq<Laid>)
    requires forall i | 0 <= i < |laid| :: ValidLaid(laid[i])
    ensures forall i | 0 <= i < |laid| :: laid[i].words != []
  {
  }

  // ----- where a text stops

  /** The state at the end of an unfinished piece. */
  function WithOpen(s: Scanner, open: Open): Scanner {
    match open
    case Closed => s
    case Backslash => Opened(s).(escaped := true, tokenBytes := s.tokenBytes + 1,
                      directiveBytes := s.directiveBytes + 1)
    case InQuote(q, chars) => Longer(Opened(s), QuotedMeaning(chars), 1 + |QuotedText(chars)|).(quote := Some(q))
    case QuoteBackslash(q, chars) =>
      Longer(Opened(s), QuotedMeaning(chars), 2 + |QuotedText(chars)|).(quote := Some(q), escaped := true)
  }

  predicate ValidOpenPiece(open: Open) {
    match open
    case InQuote(q, chars) => ValidQuoted(q, chars)
    case QuoteBackslash(q, chars) => ValidQuoted(q, chars)
    case _ => true
  }

  lemma {:induction false} OpenScanned(s: Scanner, open: Open, limits: Limits)
    requires Ready(s) && InLimits(s, limits) && ValidOpenPiece(open)
    ensures Run(s, OpenText(open), limits) == Landed(s, WithOpen(s, open), OpenText(open), limits)
  {
    hide Run, LineAfter, ColumnAfter, QuotedText, QuotedMeaning, ValidQuoted;
    match open
    case Closed => NothingScanned(s, limits);
    case Backslash => FirstByte(s, '\\', limits);
    case InQuote(q, chars) => QuoteScanned(s, q, chars, limits);
    case QuoteBackslash(q, chars) =>
      var text := [q] + QuotedText(chars);
      var t := Longer(Opened(s), QuotedMeaning(chars), |text|).(quote := Some(q));
      QuoteScanned(s, q, chars, limits);
      assert q != '\\' by { QuotesAreQuotes(q, chars); }
      if InLimits(t, limits) {
        var at := Landed(s, t, text, limits).value;
        BackslashScanned(at, q, limits);
        assert t.word + "" == t.word;
        LandedTwice(s, text, t, "\\", Longer(at, "", 1).(escaped := true), WithOpen(s, open), limits);
      } else {
        LandedTwice(s, text, t, "\\", s, WithOpen(s, open), limits);
      }
  }

  lemma QuotesAreQuotes(q: char, chars: seq<Quoted>)
    requires ValidQuoted(q, chars)
    ensures q != '\\'
  {
  }

  /** An unfinished directive: its words, and the piece or comment the text stops in. */
  function WithRest(s: Scanner, words: seq<Word>, open: Open, comment: Option<string>): Scanner {
    var t := WithOpen(WithWords(s, words), open);
    if comment.None? then t
    else t.FinishWord().(inComment := true,
                         directiveBytes := if t.directiveOpen then t.directiveBytes + 1 else t.directiveBytes)
  }

  /** Words with something in them, and the piece behind them. */
  predicate TailFits(s: Scanner, words: seq<Word>, open: Open, comment: Option<string>, limits: Limits) {
    var t := WithWords(s, words);
    && WordsFitFrom(s, words, limits) && InLimits(WithOpen(t, open), limits)
    && (comment.Some? && WithOpen(t, open).directiveOpen ==>
          WithOpen(t, open).directiveBytes + 1 <= limits.directiveBytes)
  }

  lemma {:induction false} TailScanned(s: Scanner, words: seq<Word>, open: Open, comment: Option<string>,
                                       limits: Limits)
    requires Ready(s) && !s.wordStarted && InLimits(s, limits) && FullWords(words) && ValidOpenPiece(open)
    requires comment.Some? ==> open.Closed? && '\n' !in comment.value
    ensures var text := WordsText(words) + (OpenText(open) + CommentText(comment));
      Run(s, text, limits)
      == Reached(s, WithRest(s, words, open, comment), text, TailFits(s, words, open, comment, limits))
  {
    hide Run, LineAfter, ColumnAfter, WordsText, WithWords, WordsFitFrom, WithOpen, OpenText;
    var a, b, c := WordsText(words), OpenText(open), CommentText(comment);
    var t, w := WithWords(s, words), WithRest(s, words, open, comment);
    WordsScanned(s, words, limits);
    if WordsFitFrom(s, words, limits) {
      var at := Reached(s, t, a, true).value;
      FitIsInLimits(s, words, limits);
      if words == [] { WordsOfNothing(s, limits); }
      OpenScanned(at, open, limits);
      var v := WithOpen(at, open);
      LandedIsReached(at, v, b, limits);
      OpenElsewhere(at, t, open);
      var vFits := InLimits(v, limits);
      if comment.None? {
        assert b + c == b;
        ReachedTwice(s, a, t, true, b, v, vFits, w, limits);
      } else {
        ClosedIsNothing(at);
        var u := at.FinishWord().(inComment := true,
            directiveBytes := if at.directiveOpen then at.directiveBytes + 1 else at.directiveBytes);
        OpenCommentScanned(at, comment.value, limits);
        LandedIsReached(at, u, c, limits);
        ReachedTwice(s, a, t, true, c, u, InLimits(u, limits), w, limits);
        assert b + c == c;
      }
    } else {
      ReachedTwice(s, a, t, false, b + c, s, true, w, limits);
    }
  }

  lemma ClosedIsNothing(s: Scanner)
    ensures WithOpen(s, Closed) == s && OpenText(Closed) == ""
  {
  }

  lemma WordsOfNothing(s: Scanner, limits: Limits)
    ensures WithWords(s, []) == s && WordsText([]) == "" && Reached(s, s, "", true).value == s
  {
    NothingReached(s, limits);
  }

  lemma OpenElsewhere(s: Scanner, t: Scanner, open: Open)
    requires s == t.(line := s.line, column := s.column) && (s.words != [] || s.wordStarted || open.Closed? || s == t)
    ensures var u, w := WithOpen(s, open), WithOpen(t, open); u == w.(line := u.line, column := u.column)
  {
    hide QuotedText, QuotedMeaning;
    if s != t && !open.Closed? {
      var u, w := Opened(s), Opened(t);
      assert u == w.(line := u.line, column := u.column);
      hide Opened;
    }
  }

  lemma FitIsInLimits(s: Scanner, words: seq<Word>, limits: Limits)
    requires Ready(s) && !s.wordStarted && InLimits(s, limits) && FullWords(words) && WordsFitFrom(s, words, limits)
    ensures InLimits(WithWords(s, words), limits)
    ensures words != [] ==> WithWords(s, words).words != [] || WithWords(s, words).wordStarted
  {
    if words != [] {
      WordsSay(s, words);
      FullLast(words);
    }
    hide WithWords, DirectiveBytes, TokenBytes, Meanings;
  }

  lemma FullLast(words: seq<Word>)
    requires FullWords(words) && words != []
    ensures |Meanings(words)| > 0
  {
  }

  // ----- every form

  /** The unfinished words that have something in them; only the last may have nothing but an open piece. */
  function Spelled(words: seq<Word>): seq<Word> {
    if words != [] && words[|words| - 1].pieces == [] then words[..|words| - 1] else words
  }

  lemma {:induction false} WordsSnoc(words: seq<Word>)
    requires words != []
    ensures WordsText(words) == WordsText(words[..|words| - 1]) + WordText(words[|words| - 1])
    ensures DirectiveBytes(words) == DirectiveBytes(words[..|words| - 1])
        + |PiecesText(words[|words| - 1].pieces)| + SpaceBytes(words[|words| - 1].after)
    decreases |words|
  {
    hide PiecesText, SpaceBytes, WordText;
    var front, n := words[..|words| - 1], |words|;
    if n == 1 {
      assert words[1..] == [] && front == [];
    } else {
      var rest := words[1..];
      WordsSnoc(rest);
      assert front[1..] == rest[..n - 2] && front[0] == words[0] && rest[n - 2] == words[n - 1];
    }
  }

  /** Without its last word, if that says nothing yet. */
  lemma WithoutLast(words: seq<Word>, limits: Limits)
    requires words != [] && words[|words| - 1] == Word([], []) && ValidWords(words) && limits.tokenBytes > 0
    ensures var full := words[..|words| - 1];
      && WordsText(full) == WordsText(words) && FullWords(full) && DirectiveBytes(full) == DirectiveBytes(words)
      && (WordsFit(full, limits) <==> WordsFit(words, limits))
      && (full != [] ==> full[|full| - 1].after != [])
  {
    hide ValidPieces, ValidSpaces;
    var full, n := words[..|words| - 1], |words|;
    WordsSnoc(words);
    NothingInWord();
    forall i | 0 <= i < n - 1 ensures full[i] == words[i] && ValidWord(full[i], false) {
      assert ValidWord(words[i], i == n - 1);
    }
    hide WordsText, DirectiveBytes, WordText, ValidWords, TokenBytes;
    assert WordsText(full) + "" == WordsText(full);
    assert FullWords(full) by { FullFromFront(full); }
    if WordsFit(full, limits) {
      forall i | 0 <= i < n ensures TokenBytes(words[i].pieces) <= limits.tokenBytes {
        if i < n - 1 { assert full[i] == words[i]; }
      }
    }
  }

  lemma NothingInWord()
    ensures WordText(Word([], [])) == "" && |PiecesText([])| == 0 && SpaceBytes([]) == 0 && TokenBytes([]) == 0
  {
  }

  lemma FullFromFront(words: seq<Word>)
    requires forall i | 0 <= i < |words| :: ValidWord(words[i], false)
    ensures FullWords(words)
  {
    hide ValidPieces, ValidSpaces;
  }

  lemma SpelledSaysSame(f: Form, limits: Limits)
    requires ValidForm(f) && limits.tokenBytes > 0
    ensures WordsText(Spelled(f.words)) == WordsText(f.words) && FullWords(Spelled(f.words))
    ensures DirectiveBytes(Spelled(f.words)) == DirectiveBytes(f.words)
    ensures WordsFit(Spelled(f.words), limits) <==> WordsFit(f.words, limits)
    ensures ValidOpenPiece(f.open) && (f.open.Closed? ==> Spelled(f.words) == f.words)
    ensures f.words != [] && Spelled(f.words) != f.words ==>
      && TokenBytes(f.words[|f.words| - 1].pieces) == 0
      && (Spelled(f.words) != [] ==> Spelled(f.words)[|f.words| - 2].after != [])
  {
    hide ValidPieces, ValidSpaces, ValidLaid, WordsText, DirectiveBytes, WordsFit;
    var words, n := f.words, |f.words|;
    if n > 0 && words[n - 1].pieces == [] {
      NothingInWord();
      assert words[n - 1] == Word([], []);
      WithoutLast(words, limits);
    } else {
      forall i | 0 <= i < n ensures words[i].pieces != [] { assert ValidWord(words[i], i == n - 1); }
    }
  }

  lemma TailFitsAsTold(s: Scanner, f: Form, limits: Limits)
    requires ValidForm(f) && limits.tokenBytes > 0 && limits.directiveBytes > 0
    requires Ready(s) && !s.directiveOpen && InLimits(s, limits)
    ensures TailFits(s, Spelled(f.words), f.open, f.comment, limits) <==> RestFits(f, limits)
  {
    hide WithWords, TokenBytes, DirectiveBytes, WordsFit, ValidForm, PiecesText, QuotedText, QuotedMeaning, Meanings;
    SpelledSaysSame(f, limits);
    OpenIsUsed(f);
    LastFits(f.words, limits);
    var full := Spelled(f.words);
    if full != [] { WordsSay(s, full); } else { WordsOfNothing(s, limits); NoBytes(); }
    hide FullWords;
    NoWordsFit(limits);
    assert s.tokenBytes == 0 && s.directiveBytes == 0;
    OpenCounts(WithWords(s, full), f.open);
  }

  lemma LastFits(words: seq<Word>, limits: Limits)
    ensures words != [] && WordsFit(words, limits) ==>
      TokenBytes(words[|words| - 1].pieces) <= limits.tokenBytes
    ensures OpenText(Closed) == ""
  {
  }

  lemma NoBytes()
    ensures DirectiveBytes([]) == 0
  {
  }

  lemma OpenIsUsed(f: Form)
    requires ValidForm(f)
    ensures !f.open.Closed? ==> f.words != [] && f.words[|f.words| - 1].after == []
    ensures f.comment.Some? ==> f.open.Closed? && '\n' !in f.comment.value
  {
  }

  lemma OpenCounts(s: Scanner, open: Open)
    ensures var t := WithOpen(s, open);
      && t.tokenBytes == s.tokenBytes + |OpenText(open)| && t.directiveBytes == s.directiveBytes + |OpenText(open)|
      && (t.directiveOpen <==> s.directiveOpen || (!open.Closed? && !s.wordStarted && s.words == []))
  {
    hide QuotedText, QuotedMeaning;
  }

  /** The result of a scan that stops there. */
  lemma RestResult(s: Scanner, f: Form, limits: Limits)
    requires ValidForm(f) && limits.tokenBytes > 0 && limits.directiveBytes > 0
    requires Ready(s) && !s.directiveOpen && InLimits(s, limits) && WordsFitFrom(s, Spelled(f.words), limits)
    ensures var e := WithRest(s, Spelled(f.words), f.open, f.comment);
      e.Result() ==
      if f.open.Backslash? || f.open.QuoteBackslash? then Failure(DanglingEscape)
      else if f.open.InQuote? then Failure(UnterminatedQuote)
      else if f.words != [] then Failure(MissingTerminator)
      else Success(s.directives)
  {
    hide WithWords, WordsFitFrom, ValidForm, QuotedText, QuotedMeaning;
    SpelledSaysSame(f, limits);
    OpenIsUsed(f);
    FitIsInLimits(s, Spelled(f.words), limits);
    WordsStayReady(s, Spelled(f.words));
    if Spelled(f.words) == [] { WordsOfNothing(s, limits); }
  }

  lemma ResultIgnoresPlace(s: Scanner, line: nat, column: nat)
    ensures s.(line := line, column := column).Result() == s.Result()
  {
  }

  /**
   * Every form, scanned: its directives with their words and their places, if it fits the
   * limits and stops between directives; else the error that says why not.
   */
  lemma {:induction false} FormIsScanned(f: Form, limits: Limits)
    requires ValidForm(f)
    ensures Scan(Text(f), limits) == Meaning(f, limits)
  {
    if limits.tokenBytes > 0 && limits.directiveBytes > 0 {
      ScannedForm(f, limits);
    }
  }

  lemma {:induction false} ScannedForm(f: Form, limits: Limits)
    requires ValidForm(f) && limits.tokenBytes > 0 && limits.directiveBytes > 0
    ensures Scan(Text(f), limits) == Meaning(f, limits)
  {
    hide Run, LineAfter, ColumnAfter, AllText, SpacesText, WordsText, OpenText, CommentText, WithRest, TailFits,
      RestFits, LaidFits, ValidLaid, ValidSpaces, ValidWords, DirectivesOf, Idle, Scanner.Result, FullWords;
    AllScanned(f.laid, limits);
    var a, b := AllText(f.laid), SpacesText(f.before);
    var c := WordsText(f.words) + (OpenText(f.open) + CommentText(f.comment));
    var idle, fit := Idle(f.laid), AllFit(f.laid, limits);
    IdleIsIdle(f.laid);
    SpelledSaysSame(f, limits);
    OpenIsUsed(f);
    var e := WithRest(idle, Spelled(f.words), f.open, f.comment);
    if fit {
      var at := Reached(START, idle, a, true).value;
      RunIsTidy(START, a, limits);
      SpacesScanned(at, f.before, limits);
      LandedIsReached(at, WithSpaces(at, f.before), b, limits);
      assert WithSpaces(at, f.before) == at;
      var ready := Reached(at, at, b, true).value;
      RunIsTidy(at, b, limits);
      TailScanned(ready, Spelled(f.words), f.open, f.comment, limits);
      var end := WithRest(ready, Spelled(f.words), f.open, f.comment);
      TailFitsAsTold(ready, f, limits);
      ReachedTwice(at, b, at, true, c, end, RestFits(f, limits), end, limits);
      ReachedTwice(START, a, idle, true, b + c, end, RestFits(f, limits), end, limits);
      if RestFits(f, limits) {
        FitsFromHere(ready, f, limits);
        RestResult(ready, f, limits);
        var all := Reached(START, end, a + (b + c), true).value;
        ResultIgnoresPlace(end, all.line, all.column);
      }
    } else {
      ReachedTwice(START, a, idle, false, b + c, idle, true, e, limits);
    }
  }

  lemma FitsFromHere(s: Scanner, f: Form, limits: Limits)
    requires ValidForm(f) && limits.tokenBytes > 0 && limits.directiveBytes > 0
    requires Ready(s) && !s.directiveOpen && InLimits(s, limits) && RestFits(f, limits)
    ensures WordsFitFrom(s, Spelled(f.words), limits)
  {
    SpelledSaysSame(f, limits);
    hide ValidForm, WordsFit, DirectiveBytes, TokenBytes;
  }

  lemma IdleIsIdle(laid: seq<Laid>)
    requires forall i | 0 <= i < |laid| :: laid[i].words != []
    ensures var s := Idle(laid);
      && Between(s) && !s.directiveOpen && s.tokenBytes == 0 && s.directiveBytes == 0
      && s.directives == DirectivesOf(laid)
  {
  }

  // ----- every text has a form

  function OnLast(words: seq<Word>, w: Word): seq<Word>
    requires words != []
  {
    words[..|words| - 1] + [w]
  }

  function AddPiece(words: seq<Word>, p: Piece): seq<Word>
    requires words != []
  {
    OnLast(words, words[|words| - 1].(pieces := words[|words| - 1].pieces + [p]))
  }

  function AddSpace(words: seq<Word>, space: Space): seq<Word>
    requires words != []
  {
    OnLast(words, words[|words| - 1].(after := words[|words| - 1].after + [space]))
  }

  /** The last word, or a new one behind a space. */
  function Continued(words: seq<Word>): (r: seq<Word>)
    ensures r != [] && r[|r| - 1].after == []
  {
    if words == [] || words[|words| - 1].after != [] then words + [Word([], [])] else words
  }

  function AddBlank(f: Form, space: Space): Form {
    if f.words == [] then f.(before := f.before + [space]) else f.(words := AddSpace(f.words, space))
  }

  /** One more character outside words, quotes and comments. */
  function AddPlain(f: Form, c: char): Form {
    if c == '#' then f.(comment := Some(""))
    else if IsEnd(c) then
      if f.words == [] then f.(before := f.before + [Loose(c)])
      else f.(laid := f.laid + [Laid(f.before, f.words, c)], before := [], words := [])
    else if c == '}' then
      if f.words != [] && f.words[|f.words| - 1].after == [] then f.(words := AddPiece(f.words, Hole))
      else AddBlank(f, Stray)
    else if IsBlank(c) then AddBlank(f, Blank(c))
    else if IsQuote(c) then f.(words := Continued(f.words), open := InQuote(c, []))
    else if c == '\\' then f.(words := Continued(f.words), open := Backslash)
    else f.(words := AddPiece(Continued(f.words), Bare(c)))
  }

  function Add(f: Form, c: char): Form
    requires ValidForm(f)
  {
    match f.open
    case Backslash => f.(words := AddPiece(f.words, Escaped(c)), open := Closed)
    case QuoteBackslash(q, chars) => f.(open := InQuote(q, chars + [Guarded(c)]))
    case InQuote(q, chars) =>
      if c == '\\' then f.(open := QuoteBackslash(q, chars))
      else if c == q then f.(words := AddPiece(f.words, Quote(q, chars)), open := Closed)
      else f.(open := InQuote(q, chars + [Kept(c)]))
    case Closed =>
      match f.comment {
        case None => AddPlain(f, c)
        case Some(text) =>
          if c == '\n' then AddBlank(f.(comment := None), Remark(text)) else f.(comment := Some(text + [c]))
      }
  }

  lemma {:induction false} PiecesSnoc(pieces: seq<Piece>, p: Piece)
    ensures PiecesText(pieces + [p]) == PiecesText(pieces) + PieceText(p)
    decreases |pieces|
  {
    hide PieceText;
    if pieces == [] {
      assert ([] + [p])[1..] == [];
    } else {
      assert (pieces + [p])[1..] == pieces[1..] + [p];
      PiecesSnoc(pieces[1..], p);
    }
  }

  lemma {:induction false} SpacesSnoc(spaces: seq<Space>, space: Space)
    ensures SpacesText(spaces + [space]) == SpacesText(spaces) + SpaceText(space)
    decreases |spaces|
  {
    hide SpaceText;
    if spaces == [] {
      assert ([] + [space])[1..] == [];
    } else {
      assert (spaces + [space])[1..] == spaces[1..] + [space];
      SpacesSnoc(spaces[1..], space);
    }
  }

  lemma {:induction false} QuotedSnoc(chars: seq<Quoted>, q: Quoted)
    ensures QuotedText(chars + [q]) == QuotedText(chars) + match q case Kept(c) => [c] case Guarded(c) => ['\\', c]
    decreases |chars|
  {
    if chars == [] {
      assert ([] + [q])[1..] == [];
    } else {
      assert (chars + [q])[1..] == chars[1..] + [q];
      QuotedSnoc(chars[1..], q);
    }
  }

  lemma OnLastParts(words: seq<Word>, w: Word)
    requires words != []
    ensures var front, more := words[..|words| - 1], OnLast(words, w);
      WordsText(words) == WordsText(front) + WordText(words[|words| - 1])
      && WordsText(more) == WordsText(front) + WordText(w)
  {
    hide WordText;
    var front, more := words[..|words| - 1], OnLast(words, w);
    WordsSnoc(words);
    WordsSnoc(more);
    assert more[..|words| - 1] == front && more[|words| - 1] == w;
  }

  lemma OnLastText(words: seq<Word>, w: Word, text: string)
    requires words != [] && WordText(w) == WordText(words[|words| - 1]) + text
    ensures WordsText(OnLast(words, w)) == WordsText(words) + text
  {
    OnLastParts(words, w);
    Regroup(WordsText(words[..|words| - 1]), WordText(words[|words| - 1]), text);
    hide *;
  }

  lemma Regroup(a: string, b: string, c: string)
    ensures a + (b + c) == a + b + c
  {
  }

  lemma AddPieceText(words: seq<Word>, p: Piece)
    requires words != [] && words[|words| - 1].after == []
    ensures WordsText(AddPiece(words, p)) == WordsText(words) + PieceText(p)
  {
    var w := words[|words| - 1];
    MorePieceText(w, p);
    OnLastText(words, w.(pieces := w.pieces + [p]), PieceText(p));
  }

  lemma MorePieceText(w: Word, p: Piece)
    requires w.after == []
    ensures WordText(w.(pieces := w.pieces + [p])) == WordText(w) + PieceText(p)
  {
    PiecesSnoc(w.pieces, p);
    hide PiecesText, PieceText;
  }

  lemma AddSpaceText(words: seq<Word>, space: Space)
    requires words != []
    ensures WordsText(AddSpace(words, space)) == WordsText(words) + SpaceText(space)
  {
    var w := words[|words| - 1];
    MoreSpaceText(w, space);
    OnLastText(words, w.(after := w.after + [space]), SpaceText(space));
  }

  lemma MoreSpaceText(w: Word, space: Space)
    ensures WordText(w.(after := w.after + [space])) == WordText(w) + SpaceText(space)
  {
    SpacesSnoc(w.after, space);
    Regroup(PiecesText(w.pieces), SpacesText(w.after), SpaceText(space));
    hide SpacesText, SpaceText, PiecesText;
  }

  lemma ContinuedText(words: seq<Word>)
    ensures WordsText(Continued(words)) == WordsText(words)
  {
    var more := words + [Word([], [])];
    WordsSnoc(more);
    assert more[..|words|] == words && WordText(Word([], [])) == "";
    assert WordsText(words) + "" == WordsText(words);
  }

  // ----- and a valid one

  /** All words but the last are whole. */
  predicate ValidFront(words: seq<Word>) {
    forall i | 0 <= i < |words| - 1 :: ValidWord(words[i], false)
  }

  lemma WordsByFront(words: seq<Word>)
    ensures ValidWords(words) <==> ValidFront(words) && (words != [] ==> ValidWord(words[|words| - 1], true))
  {
    hide ValidWord;
    if ValidWords(words) {
      forall i | 0 <= i < |words| - 1 ensures ValidWord(words[i], false) {
        assert ValidWord(words[i], i == |words| - 1);
      }
      if words != [] { assert ValidWord(words[|words| - 1], |words| - 1 == |words| - 1); }
    }
  }

  lemma OnLastValid(words: seq<Word>, w: Word)
    requires words != [] && ValidWords(words) && ValidWord(w, true)
    ensures ValidWords(OnLast(words, w)) && OnLast(words, w)[|words| - 1] == w && |OnLast(words, w)| == |words|
  {
    hide ValidWord;
    var more := OnLast(words, w);
    WordsByFront(words);
    WordsByFront(more);
    assert forall i | 0 <= i < |words| - 1 :: more[i] == words[i];
  }

  lemma AddPieceValid(words: seq<Word>, p: Piece)
    requires words != [] && ValidWords(words) && words[|words| - 1].after == [] && ValidPiece(p)
    requires p.Hole? ==> words[|words| - 1].pieces != []
    ensures ValidWords(AddPiece(words, p)) && AddPiece(words, p) != []
    ensures AddPiece(words, p)[|words| - 1].pieces != [] && |AddPiece(words, p)| == |words|
  {
    WordsByFront(words);
    var w := words[|words| - 1].(pieces := words[|words| - 1].pieces + [p]);
    assert ValidPieces(w.pieces) by { hide ValidPiece; }
    OnLastValid(words, w);
  }

  lemma AddSpaceValid(words: seq<Word>, space: Space)
    requires words != [] && ValidWords(words) && ValidSpace(space, false) && words[|words| - 1].pieces != []
    requires words[|words| - 1].after == [] ==> Separates(space)
    ensures ValidWords(AddSpace(words, space)) && |AddSpace(words, space)| == |words|
    ensures AddSpace(words, space)[|words| - 1].pieces != []
  {
    hide ValidPieces, ValidSpace;
    WordsByFront(words);
    var w := words[|words| - 1].(after := words[|words| - 1].after + [space]);
    OnLastValid(words, w);
  }

  lemma ContinuedValid(words: seq<Word>)
    requires ValidWords(words) && (words != [] ==> words[|words| - 1].pieces != [])
    ensures ValidWords(Continued(words))
  {
    var more := Continued(words);
    assert ValidPieces([]) && ValidSpaces([], false);
    hide ValidPieces, ValidSpaces;
    WordsByFront(words);
    WordsByFront(more);
  }

  lemma AddBlankIsForm(f: Form, space: Space)
    requires ValidForm(f) && f.open.Closed? && f.comment.None? && ValidSpace(space, false)
    requires f.words != [] && f.words[|f.words| - 1].after == [] ==> Separates(space)
    ensures ValidForm(AddBlank(f, space)) && Text(AddBlank(f, space)) == Text(f) + SpaceText(space)
  {
    hide AllText, WordsText, SpacesText, SpaceText, ValidLaid, ValidWords;
    assert ValidSpace(space, true);
    var a := AllText(f.laid);
    if f.words == [] {
      SpacesSnoc(f.before, space);
      assert WordsText([]) == "" by { ContinuedNothing(); }
      assert a + (SpacesText(f.before) + SpaceText(space) + "") == a + (SpacesText(f.before) + "") + SpaceText(space);
      assert "" + ("" + "") == "";
    } else {
      AddSpaceValid(f.words, space);
      AddSpaceText(f.words, space);
      var b, c := SpacesText(f.before), WordsText(f.words);
      assert "" + "" == "";
      assert a + (b + (c + SpaceText(space) + "")) == a + (b + (c + "")) + SpaceText(space);
    }
  }

  lemma ContinuedNothing()
    ensures WordsText([]) == "" && SpacesText([]) == ""
  {
  }

  /** Behind what a text ends in, its last part grows by the character. */
  lemma EndGrows(f: Form, words: seq<Word>, open: Open, comment: Option<string>, c: char)
    requires WordsText(words) + (OpenText(open) + CommentText(comment))
          == WordsText(f.words) + (OpenText(f.open) + CommentText(f.comment)) + [c]
    ensures Text(f.(words := words, open := open, comment := comment)) == Text(f) + [c]
  {
    hide AllText, WordsText, SpacesText, OpenText, CommentText;
    var a, b := AllText(f.laid), SpacesText(f.before);
    var d := WordsText(f.words) + (OpenText(f.open) + CommentText(f.comment));
    assert a + (b + (d + [c])) == a + (b + d) + [c];
  }

  lemma OpenParts(f: Form)
    requires ValidForm(f) && !f.open.Closed?
    ensures f.words != [] && f.words[|f.words| - 1].after == [] && ValidWords(f.words) && f.comment.None?
    ensures ValidOpenPiece(f.open)
  {
  }

  /** The piece that was open is closed. */
  lemma ClosePiece(f: Form, p: Piece, c: char)
    requires ValidForm(f) && !f.open.Closed? && ValidPiece(p) && !p.Hole? && PieceText(p) == OpenText(f.open) + [c]
    ensures var g := f.(words := AddPiece(f.words, p), open := Closed); ValidForm(g) && Text(g) == Text(f) + [c]
  {
    hide ValidLaid, ValidPiece, ValidPieces, ValidSpaces, PieceText, WordsText, ValidWord;
    OpenParts(f);
    AddPieceValid(f.words, p);
    AddPieceText(f.words, p);
    var a, b := WordsText(f.words), OpenText(f.open);
    hide OpenText, ValidWords;
    ClosedText();
    assert a + (b + [c]) + ("" + "") == a + (b + "") + [c];
    EndGrows(f, AddPiece(f.words, p), Closed, None, c);
  }

  lemma ClosedText()
    ensures OpenText(Closed) == "" && CommentText(None) == ""
  {
  }

  /** The piece stays open. */
  lemma GrowPiece(f: Form, open: Open, c: char)
    requires ValidForm(f) && !f.open.Closed? && !open.Closed? && ValidOpenPiece(open)
    requires OpenText(open) == OpenText(f.open) + [c]
    ensures var g := f.(open := open); ValidForm(g) && Text(g) == Text(f) + [c]
  {
    hide ValidLaid, ValidSpaces, OpenText, WordsText, ValidWord;
    OpenParts(f);
    ClosedText();
    var a, b := WordsText(f.words), OpenText(f.open);
    assert a + (b + [c] + "") == a + (b + "") + [c];
    EndGrows(f, f.words, open, None, c);
  }

  lemma AddToOpen(f: Form, c: char)
    requires ValidForm(f) && !f.open.Closed?
    ensures ValidForm(Add(f, c)) && Text(Add(f, c)) == Text(f) + [c]
  {
    hide ValidForm, Text, AddPiece, QuotedText;
    OpenParts(f);
    match f.open
    case Backslash =>
      assert "\\" + [c] == ['\\', c];
      ClosePiece(f, Escaped(c), c);
    case QuoteBackslash(q, chars) =>
      QuotedSnoc(chars, Guarded(c));
      assert [q] + (QuotedText(chars) + ['\\', c]) == [q] + QuotedText(chars) + "\\" + [c];
      GrowPiece(f, InQuote(q, chars + [Guarded(c)]), c);
    case InQuote(q, chars) =>
      if c == '\\' {
        GrowPiece(f, QuoteBackslash(q, chars), c);
      } else if c == q {
        ClosePiece(f, Quote(q, chars), c);
      } else {
        QuotedSnoc(chars, Kept(c));
        assert [q] + (QuotedText(chars) + [c]) == [q] + QuotedText(chars) + [c];
        GrowPiece(f, InQuote(q, chars + [Kept(c)]), c);
      }
  }

  lemma AddToComment(f: Form, c: char)
    requires ValidForm(f) && f.comment.Some?
    ensures ValidForm(Add(f, c)) && Text(Add(f, c)) == Text(f) + [c]
  {
    hide WordsText, AllText, SpacesText, ValidLaid, ValidSpaces, ValidWord;
    var text := f.comment.value;
    ClosedText();
    if c == '\n' {
      var g := f.(comment := None);
      AddBlankIsForm(g, Remark(text));
      var a, b, d := AllText(f.laid), SpacesText(f.before), WordsText(f.words);
      assert a + (b + (d + ("" + ""))) + ("#" + text + "\n") == a + (b + (d + ("" + ("#" + text)))) + "\n";
    } else {
      var a := WordsText(f.words);
      assert a + ("" + ("#" + (text + [c]))) == a + ("" + ("#" + text)) + [c];
      EndGrows(f, f.words, Closed, Some(text + [c]), c);
    }
  }

  /** A new piece begins, in the last word or a new one. */
  lemma BeginPiece(f: Form, open: Open, c: char)
    requires ValidForm(f) && f.open.Closed? && f.comment.None? && !open.Closed? && ValidOpenPiece(open)
    requires OpenText(open) == [c]
    ensures var g := f.(words := Continued(f.words), open := open); ValidForm(g) && Text(g) == Text(f) + [c]
  {
    hide WordsText, ValidLaid, ValidSpaces, ValidWord, OpenText;
    ContinuedText(f.words);
    ContinuedValid(f.words);
    ClosedText();
    var a := WordsText(f.words);
    assert a + ([c] + "") == a + ("" + "") + [c];
    EndGrows(f, Continued(f.words), open, None, c);
  }

  lemma AddBare(f: Form, c: char)
    requires ValidForm(f) && f.open.Closed? && f.comment.None? && ValidPiece(Bare(c))
    ensures var g := f.(words := AddPiece(Continued(f.words), Bare(c))); ValidForm(g) && Text(g) == Text(f) + [c]
  {
    hide WordsText, ValidLaid, ValidSpaces, ValidWord, ValidPiece;
    ContinuedText(f.words);
    ContinuedValid(f.words);
    AddPieceValid(Continued(f.words), Bare(c));
    AddPieceText(Continued(f.words), Bare(c));
    ClosedText();
    var a := WordsText(f.words);
    assert a + [c] + ("" + "") == a + ("" + "") + [c];
    hide AddPiece, Continued;
    EndGrows(f, AddPiece(Continued(f.words), Bare(c)), Closed, None, c);
  }

  lemma AddHole(f: Form)
    requires ValidForm(f) && f.open.Closed? && f.comment.None? && f.words != []
    requires f.words[|f.words| - 1].after == []
    ensures var g := f.(words := AddPiece(f.words, Hole)); ValidForm(g) && Text(g) == Text(f) + "}"
  {
    hide WordsText, ValidLaid, ValidSpaces, ValidWord, ValidPiece;
    assert ValidPiece(Hole) by { AnyHoleIsValid(); }
    AddPieceValid(f.words, Hole);
    AddPieceText(f.words, Hole);
    ClosedText();
    var a := WordsText(f.words);
    assert a + "}" + ("" + "") == a + ("" + "") + "}";
    hide AddPiece;
    EndGrows(f, AddPiece(f.words, Hole), Closed, None, '}');
  }

  lemma AnyHoleIsValid()
    ensures ValidPiece(Hole)
  {
  }

  lemma AddEnd(f: Form, c: char)
    requires ValidForm(f) && f.open.Closed? && f.comment.None? && IsEnd(c)
    ensures ValidForm(AddPlain(f, c)) && Text(AddPlain(f, c)) == Text(f) + [c]
  {
    hide WordsText, SpacesText, AllText, ValidWord, ValidWords;
    ClosedText();
    ContinuedNothing();
    var a, b, d := AllText(f.laid), SpacesText(f.before), WordsText(f.words);
    if f.words == [] {
      SpacesSnoc(f.before, Loose(c));
      assert a + (b + [c] + ("" + ("" + ""))) == a + (b + ("" + ("" + ""))) + [c];
    } else {
      var l := Laid(f.before, f.words, c);
      assert ValidLaid(l);
      assert ValidWords([]) by { NoWordsValid(); }
      AllSnoc(f.laid, l);
      hide ValidLaid, ValidSpaces;
      var more := f.laid + [l];
      assert forall i | 0 <= i < |more| :: more[i] == if i < |f.laid| then f.laid[i] else l;
      assert a + (b + (d + [c])) + ("" + ("" + ("" + ""))) == a + (b + (d + ("" + ""))) + [c];
    }
  }

  lemma NoWordsValid()
    ensures ValidWords([])
  {
  }

  lemma AllSnoc(laid: seq<Laid>, l: Laid)
    ensures AllText(laid + [l]) == AllText(laid) + LaidText(l)
  {
    assert (laid + [l])[..|laid|] == laid;
  }

  lemma AddCommentStart(f: Form)
    requires ValidForm(f) && f.open.Closed? && f.comment.None?
    ensures var g := f.(comment := Some("")); ValidForm(g) && Text(g) == Text(f) + "#"
  {
    hide WordsText, ValidLaid, ValidSpaces, ValidWord;
    ClosedText();
    var a := WordsText(f.words);
    assert "#" + "" == "#";
    assert a + ("" + "#") == a + ("" + "") + "#";
    EndGrows(f, f.words, Closed, Some(""), '#');
  }

  lemma AddIsForm(f: Form, c: char)
    requires ValidForm(f)
    ensures ValidForm(Add(f, c)) && Text(Add(f, c)) == Text(f) + [c]
  {
    if !f.open.Closed? {
      AddToOpen(f, c);
    } else if f.comment.Some? {
      AddToComment(f, c);
    } else if c == '#' {
      AddCommentStart(f);
    } else if IsEnd(c) {
      AddEnd(f, c);
    } else if c == '}' {
      if f.words != [] && f.words[|f.words| - 1].after == [] {
        AddHole(f);
      } else {
        AddBlankIsForm(f, Stray);
      }
    } else if IsBlank(c) {
      AddBlankIsForm(f, Blank(c));
    } else if IsQuote(c) {
      BeginPiece(f, InQuote(c, []), c);
    } else if c == '\\' {
      BeginPiece(f, Backslash, c);
    } else {
      AddBare(f, c);
    }
    hide ValidForm, Text, AddPiece, AddBlank, Continued;
  }

  const NO_FORM := Form([], [], [], Closed, None)

  lemma NoFormIsValid()
    ensures ValidForm(NO_FORM) && Text(NO_FORM) == ""
  {
    ClosedText();
  }

  /** Every text has a form. */
  lemma {:induction false} EveryTextHasForm(content: string) returns (f: Form)
    ensures ValidForm(f) && Text(f) == content
    decreases |content|
  {
    hide ValidForm, Text, Add;
    if content == "" {
      NoFormIsValid();
      f := NO_FORM;
    } else {
      var front, c := content[..|content| - 1], content[|content| - 1];
      var g := EveryTextHasForm(front);
      AddIsForm(g, c);
      f := Add(g, c);
      assert front + [c] == content;
    }
  }

  /** Two forms of a text say the same. */
  lemma {:induction false} FormsSaySame(f: Form, g: Form, limits: Limits)
    requires ValidForm(f) && ValidForm(g) && Text(f) == Text(g)
    ensures Meaning(f, limits) == Meaning(g, limits)
  {
    FormIsScanned(f, limits);
    FormIsScanned(g, limits);
    hide Scan, Text, Meaning, ValidForm;
  }

  /** The form is one of the text. */
  ghost predicate HasForm(f: Form, content: string) {
    ValidForm(f) && Text(f) == content
  }

  lemma ScanIsMeaning(content: string, limits: Limits)
    ensures exists f :: HasForm(f, content) && Scan(content, limits) == Meaning(f, limits)
    ensures forall f | HasForm(f, content) :: Scan(content, limits) == Meaning(f, limits)
  {
    hide Scan, Meaning, ValidForm, Text;
    var f := EveryTextHasForm(content);
    FormIsScanned(f, limits);
    assert HasForm(f, content);
    forall g | HasForm(g, content) ensures Scan(content, limits) == Meaning(g, limits) {
      FormIsScanned(g, limits);
    }
  }
}
