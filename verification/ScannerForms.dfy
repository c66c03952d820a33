// The lexical forms of Nginx configuration text, what they are as text, and what they
// say; characters stand for bytes (internal/config/include.go).
module ScannerForms {
  import opened Outcomes

  datatype Directive = Directive(name: string, arguments: seq<string>, line: nat, column: nat)

  datatype Limits = Limits(tokenBytes: int, directiveBytes: int)

  datatype ScanError = LimitExceeded | DanglingEscape | UnterminatedQuote | MissingTerminator

  // ----- the forms

  /** Inside quotes: a character as it is, or any one behind a backslash. */
  datatype Quoted = Kept(c: char) | Guarded(c: char)

  /** A part of a word; a closing brace within a word is passed over. */
  datatype Piece = Bare(c: char) | Escaped(c: char) | Quote(q: char, chars: seq<Quoted>) | Hole

  /** Between words: a blank, a closing brace, a comment with its newline, and between directives a loose end. */
  datatype Space = Blank(c: char) | Stray | Remark(text: string) | Loose(c: char)

  datatype Word = Word(pieces: seq<Piece>, after: seq<Space>)

  datatype Laid = Laid(before: seq<Space>, words: seq<Word>, end: char)

  /** What a text stops in. */
  datatype Open = Closed | InQuote(q: char, chars: seq<Quoted>) | Backslash
      | QuoteBackslash(q: char, chars: seq<Quoted>)

  /** Whole directives, and at the end an unfinished one, word, quote or comment. */
  datatype Form = Form(laid: seq<Laid>, before: seq<Space>, words: seq<Word>, open: Open, comment: Option<string>)

  predicate IsBlank(c: char) {
    c == ' ' || c == '\t' || c == '\r' || c == '\n'
  }

  predicate IsEnd(c: char) {
    c == ';' || c == '{'
  }

  predicate IsQuote(c: char) {
    c == '\'' || c == '"'
  }

  predicate ValidQuoted(q: char, chars: seq<Quoted>) {
    IsQuote(q) && forall i | 0 <= i < |chars| && chars[i].Kept? :: chars[i].c != q && chars[i].c != '\\'
  }

  predicate ValidPiece(p: Piece) {
    match p
    case Bare(c) => !IsBlank(c) && !IsEnd(c) && !IsQuote(c) && c != '\\' && c != '#' && c != '}'
    case Escaped(_) => true
    case Quote(q, chars) => ValidQuoted(q, chars)
    case Hole => true
  }

  predicate ValidPieces(pieces: seq<Piece>) {
    (forall i | 0 <= i < |pieces| :: ValidPiece(pieces[i])) && (pieces != [] ==> !pieces[0].Hole?)
  }

  predicate Separates(s: Space) {
    s.Blank? || s.Remark?
  }

  predicate ValidSpace(s: Space, between: bool) {
    match s
    case Blank(c) => IsBlank(c)
    case Stray => true
    case Remark(text) => '\n' !in text
    case Loose(c) => between && IsEnd(c)
  }

  predicate ValidSpaces(spaces: seq<Space>, between: bool) {
    forall i | 0 <= i < |spaces| :: ValidSpace(spaces[i], between)
  }

  /** A word is ended by a blank or a comment, but for the last one that the end of the directive ends. */
  predicate ValidWord(w: Word, last: bool) {
    && ValidPieces(w.pieces) && ValidSpaces(w.after, false)
    && (w.after != [] ==> Separates(w.after[0])) && (last || w.after != []) && (last || w.pieces != [])
  }

  predicate ValidWords(words: seq<Word>) {
    forall i | 0 <= i < |words| :: ValidWord(words[i], i == |words| - 1)
  }

  predicate ValidLaid(l: Laid) {
    && ValidSpaces(l.before, true) && l.words != [] && ValidWords(l.words) && l.words[|l.words| - 1].pieces != []
    && IsEnd(l.end)
  }

  predicate ValidOpen(words: seq<Word>, open: Open) {
    match open
    case Closed => words != [] ==> words[|words| - 1].pieces != []
    case Backslash => words != [] && words[|words| - 1].after == []
    case InQuote(q, chars) => words != [] && words[|words| - 1].after == [] && ValidQuoted(q, chars)
    case QuoteBackslash(q, chars) => words != [] && words[|words| - 1].after == [] && ValidQuoted(q, chars)
  }

  predicate ValidForm(f: Form) {
    && (forall i | 0 <= i < |f.laid| :: ValidLaid(f.laid[i]))
    && ValidSpaces(f.before, true) && ValidWords(f.words) && ValidOpen(f.words, f.open)
    && (f.comment.Some? ==> f.open.Closed? && '\n' !in f.comment.value)
  }

  // ----- as text

  function QuotedText(chars: seq<Quoted>): string {
    if chars == [] then ""
    else (match chars[0] case Kept(c) => [c] case Guarded(c) => ['\\', c]) + QuotedText(chars[1..])
  }

  function PieceText(p: Piece): (text: string)
    ensures text != ""
  {
    match p
    case Bare(c) => [c]
    case Escaped(c) => ['\\', c]
    case Quote(q, chars) => [q] + QuotedText(chars) + [q]
    case Hole => "}"
  }

  function PiecesText(pieces: seq<Piece>): string {
    if pieces == [] then "" else PieceText(pieces[0]) + PiecesText(pieces[1..])
  }

  function SpaceText(s: Space): string {
    match s
    case Blank(c) => [c]
    case Stray => "}"
    case Remark(text) => "#" + text + "\n"
    case Loose(c) => [c]
  }

  function SpacesText(spaces: seq<Space>): string {
    if spaces == [] then "" else SpaceText(spaces[0]) + SpacesText(spaces[1..])
  }

  function WordText(w: Word): string {
    PiecesText(w.pieces) + SpacesText(w.after)
  }

  function WordsText(words: seq<Word>): string {
    if words == [] then "" else WordText(words[0]) + WordsText(words[1..])
  }

  function LaidText(l: Laid): string {
    SpacesText(l.before) + (WordsText(l.words) + [l.end])
  }

  function AllText(laid: seq<Laid>): string {
    if laid == [] then "" else AllText(laid[..|laid| - 1]) + LaidText(laid[|laid| - 1])
  }

  function OpenText(open: Open): string {
    match open
    case Closed => ""
    case InQuote(q, chars) => [q] + QuotedText(chars)
    case Backslash => "\\"
    case QuoteBackslash(q, chars) => [q] + QuotedText(chars) + "\\"
  }

  function CommentText(comment: Option<string>): string {
    match comment
    case None => ""
    case Some(text) => "#" + text
  }

  function Text(f: Form): string {
    AllText(f.laid) + (SpacesText(f.before) + (WordsText(f.words) + (OpenText(f.open) + CommentText(f.comment))))
  }

  // ----- what it says

  function QuotedMeaning(chars: seq<Quoted>): (word: string)
    ensures |word| == |chars|
  {
    if chars == [] then "" else [chars[0].c] + QuotedMeaning(chars[1..])
  }

  function PieceMeaning(p: Piece): string {
    match p
    case Bare(c) => [c]
    case Escaped(c) => [c]
    case Quote(_, chars) => QuotedMeaning(chars)
    case Hole => ""
  }

  function PiecesMeaning(pieces: seq<Piece>): string {
    if pieces == [] then "" else PieceMeaning(pieces[0]) + PiecesMeaning(pieces[1..])
  }

  function Meanings(words: seq<Word>): (r: seq<string>)
    ensures |r| == |words|
  {
    if words == [] then [] else [PiecesMeaning(words[0].pieces)] + Meanings(words[1..])
  }

  /** The line a text ends in, counted from the given one: one more for every newline. */
  function LineAfter(line: nat, text: string): nat
    decreases |text|
  {
    if text == "" then line else LineAfter(if text[0] == '\n' then line + 1 else line, text[1..])
  }

  /** The column a text ends in: one behind the last newline, and one more for every character since. */
  function ColumnAfter(column: nat, text: string): nat
    decreases |text|
  {
    if text == "" then column else ColumnAfter(if text[0] == '\n' then 1 else column + 1, text[1..])
  }

  /** The words of a directive, and where the first of them starts behind the text before it. */
  function DirectiveOf(l: Laid, before: string): Directive
    requires l.words != []
  {
    var words, text := Meanings(l.words), before + SpacesText(l.before);
    Directive(words[0], words[1..], LineAfter(1, text), ColumnAfter(1, text))
  }

  function DirectivesOf(laid: seq<Laid>): (r: seq<Directive>)
    requires forall i | 0 <= i < |laid| :: laid[i].words != []
    ensures |r| == |laid|
  {
    if laid == [] then []
    else DirectivesOf(laid[..|laid| - 1]) + [DirectiveOf(laid[|laid| - 1], AllText(laid[..|laid| - 1]))]
  }

  // ----- what fits the limits

  /** Of a word every byte counts, but for a closing brace. */
  function TokenBytes(pieces: seq<Piece>): nat {
    if pieces == [] then 0 else (if pieces[0].Hole? then 0 else |PieceText(pieces[0])|) + TokenBytes(pieces[1..])
  }

  /** Of a comment only its first byte counts. */
  function SpaceBytes(spaces: seq<Space>): nat {
    if spaces == [] then 0 else 1 + SpaceBytes(spaces[1..])
  }

  function DirectiveBytes(words: seq<Word>): nat {
    if words == [] then 0
    else |PiecesText(words[0].pieces)| + SpaceBytes(words[0].after) + DirectiveBytes(words[1..])
  }

  predicate WordsFit(words: seq<Word>, limits: Limits) {
    forall i | 0 <= i < |words| :: TokenBytes(words[i].pieces) <= limits.tokenBytes
  }

  predicate LaidFits(l: Laid, limits: Limits) {
    WordsFit(l.words, limits) && DirectiveBytes(l.words) + 1 <= limits.directiveBytes
  }

  predicate RestFits(f: Form, limits: Limits) {
    && WordsFit(f.words, limits)
    && (f.words != [] ==>
          && TokenBytes(f.words[|f.words| - 1].pieces) + |OpenText(f.open)| <= limits.tokenBytes
          && DirectiveBytes(f.words) + |OpenText(f.open)| + (if f.comment.Some? then 1 else 0) <= limits.directiveBytes)
  }

  predicate Fits(f: Form, limits: Limits) {
    && limits.tokenBytes > 0 && limits.directiveBytes > 0
    && (forall i | 0 <= i < |f.laid| :: LaidFits(f.laid[i], limits)) && RestFits(f, limits)
  }

  function Meaning(f: Form, limits: Limits): Result<seq<Directive>, ScanError>
    requires ValidForm(f)
  {
    if !Fits(f, limits) then Failure(LimitExceeded)
    else if f.open.Backslash? || f.open.QuoteBackslash? then Failure(DanglingEscape)
    else if f.open.InQuote? then Failure(UnterminatedQuote)
    else if f.words != [] then Failure(MissingTerminator)
    else Success(DirectivesOf(f.laid))
  }
}
