// What a certificate binding does to the directives of one server, and what the planner
// predicts of it (internal/certificate/binding.go).
module ServerBinding {
  import opened Outcomes
  import opened SourceEdits

  /** One directive of a server block; `commented` says that its source holds a comment sign. */
  datatype Directive = Directive(name: string, args: seq<string>, commented: bool)

  const CERTIFICATE := "ssl_certificate"
  const KEY := "ssl_certificate_key"

  // ----- words

  function LowerChar(c: char): char {
    if 'A' <= c <= 'Z' then c - 'A' + 'a' else c
  }

  /** Lower case; of other letters than the ASCII ones nothing is said here. */
  function Lower(s: string): (r: string)
    ensures |r| == |s| && forall i | 0 <= i < |s| :: r[i] == LowerChar(s[i])
  {
    seq(|s|, i requires 0 <= i < |s| => LowerChar(s[i]))
  }

  /** Equal to "ssl" up to case folding, which also takes the long s for an s. */
  predicate FoldsToSsl(s: string) {
    |s| == 3 && FoldsToS(s[0]) && FoldsToS(s[1]) && (s[2] == 'l' || s[2] == 'L')
  }

  predicate FoldsToS(c: char) {
    c == 's' || c == 'S' || c == '\U{017F}'
  }

  predicate StartsWith(s: string, prefix: string) {
    |prefix| <= |s| && s[..|prefix|] == prefix
  }

  predicate EndsWith(s: string, suffix: string) {
    |suffix| <= |s| && s[|s| - |suffix|..] == suffix
  }

  predicate Is443(endpoint: string) {
    var lower := Lower(endpoint);
    '$' !in lower && !StartsWith(lower, "unix:") && (lower == "443" || EndsWith(lower, ":443"))
  }

  function LowerAll(args: seq<string>): (r: seq<string>)
    ensures |r| == |args|
  {
    seq(|args|, i requires 0 <= i < |args| => Lower(args[i]))
  }

  function Join(words: seq<string>, separator: char): string {
    if words == [] then ""
    else if |words| == 1 then words[0]
    else words[0] + [separator] + Join(words[1..], separator)
  }

  // ----- increasing lists of words

  predicate Less(a: string, b: string) {
    b != [] && (a == [] || a[0] < b[0] || (a[0] == b[0] && Less(a[1..], b[1..])))
  }

  /** The bytes of a character in UTF-8. */
  function Width(c: char): nat {
    if c < '\U{0080}' then 1 else if c < '\U{0800}' then 2 else if c < '\U{10000}' then 3 else 4
  }

  function ByteLength(word: string): nat {
    if word == [] then 0 else Width(word[0]) + ByteLength(word[1..])
  }

  lemma {:induction false} AsciiLength(word: string)
    requires forall c | c in word :: c < '\U{0080}'
    ensures ByteLength(word) == |word|
    decreases |word|
  {
    if word != [] {
      assert word[0] in word && forall c | c in word[1..] :: c in word;
      AsciiLength(word[1..]);
    }
  }

  predicate Kept(word: string) {
    word != "" && ByteLength(word) <= 512 && '\0' !in word
  }

  function InsertWord(word: string, words: seq<string>): seq<string> {
    if words == [] || Less(word, words[0]) then [word] + words
    else if word == words[0] then words
    else [words[0]] + InsertWord(word, words[1..])
  }

  /** The words that are kept, in increasing order and each once. */
  function SortedUnique(words: seq<string>): seq<string> {
    if words == [] then []
    else
      var rest := SortedUnique(words[..|words| - 1]);
      if Kept(words[|words| - 1]) then InsertWord(words[|words| - 1], rest) else rest
  }

  predicate Increasing(words: seq<string>) {
    forall i, j | 0 <= i < j < |words| :: Less(words[i], words[j])
  }

  lemma {:induction false} LessIsStrict(a: string, b: string)
    ensures !Less(a, a) && (Less(a, b) || a == b || Less(b, a)) && !(Less(a, b) && Less(b, a))
    decreases |a|
  {
    if a != [] {
      if b != [] {
        LessIsStrict(a[1..], b[1..]);
        if a[1..] == b[1..] && a[0] == b[0] { assert a == [a[0]] + a[1..] && b == [b[0]] + b[1..]; }
      } else {
        LessIsStrict(a[1..], b);
      }
    }
  }

  lemma {:induction false} LessIsTransitive(a: string, b: string, c: string)
    requires Less(a, b) && Less(b, c)
    ensures Less(a, c)
    decreases |a|
  {
    if a != [] && a[0] == b[0] && b[0] == c[0] { LessIsTransitive(a[1..], b[1..], c[1..]); }
  }

  lemma {:induction false} InsertIncreases(word: string, words: seq<string>)
    requires Increasing(words)
    ensures Increasing(InsertWord(word, words))
    ensures forall w :: w in InsertWord(word, words) <==> w == word || w in words
    decreases |words|
  {
    if words == [] || word == words[0] {
    } else if Less(word, words[0]) {
      forall i | 0 < i < |words| ensures Less(word, words[i]) { LessIsTransitive(word, words[0], words[i]); }
    } else {
      LessIsStrict(word, words[0]);
      InsertIncreases(word, words[1..]);
      var rest := InsertWord(word, words[1..]);
      forall w | w in rest ensures Less(words[0], w) {
        if w != word { var i :| 0 <= i < |words[1..]| && words[1..][i] == w; assert w == words[i + 1]; }
      }
    }
  }

  /** Sorting and removing repetitions keeps exactly the words that may be kept. */
  lemma {:induction false} SortedUniqueIsExact(words: seq<string>)
    ensures Increasing(SortedUnique(words))
    ensures forall w :: w in SortedUnique(words) <==> w in words && Kept(w)
    decreases |words|
  {
    if words != [] {
      var front, last := words[..|words| - 1], words[|words| - 1];
      assert words == front + [last];
      SortedUniqueIsExact(front);
      InsertIncreases(last, SortedUnique(front));
    }
  }

  lemma {:induction false} InsertLast(word: string, words: seq<string>)
    requires Increasing(words + [word])
    ensures InsertWord(word, words) == words + [word]
    decreases |words|
  {
    if words != [] {
      var all := words + [word];
      assert Less(all[0], all[|words|]);
      LessIsStrict(word, words[0]);
      assert all[1..] == words[1..] + [word];
      InsertLast(word, words[1..]);
    }
  }

  lemma {:induction false} SortedUniqueOfIncreasing(words: seq<string>)
    requires Increasing(words) && forall w | w in words :: Kept(w)
    ensures SortedUnique(words) == words
    decreases |words|
  {
    if words != [] {
      var front, last := words[..|words| - 1], words[|words| - 1];
      assert words == front + [last] && Kept(last);
      SortedUniqueOfIncreasing(front);
      InsertLast(last, front);
    }
  }

  /** A list that has been sorted once is left as it is: such a reference stays valid. */
  lemma SortedUniqueIsIdempotent(words: seq<string>)
    ensures SortedUnique(SortedUnique(words)) == SortedUnique(words)
  {
    SortedUniqueIsExact(words);
    SortedUniqueOfIncreasing(SortedUnique(words));
  }

  lemma {:induction false} IncreasingIsUnique(a: seq<string>, b: seq<string>)
    requires Increasing(a) && Increasing(b) && forall w :: w in a <==> w in b
    ensures a == b
    decreases |a|
  {
    assert a != [] ==> a[0] in a;
    assert b != [] ==> b[0] in b;
    if a != [] {
      FirstIsSmallest(a, b);
      RestHolds(a);
      RestHolds(b);
      IncreasingIsUnique(a[1..], b[1..]);
      assert a == [a[0]] + a[1..] && b == [b[0]] + b[1..];
    }
  }

  lemma FirstIsSmallest(a: seq<string>, b: seq<string>)
    requires Increasing(a) && Increasing(b) && a != [] && b != [] && a[0] in b && b[0] in a
    ensures a[0] == b[0]
  {
    LessIsStrict(a[0], b[0]);
    LessIsStrict(b[0], a[0]);
  }

  lemma RestHolds(words: seq<string>)
    requires Increasing(words) && words != []
    ensures Increasing(words[1..]) && forall w :: w in words[1..] <==> w in words && w != words[0]
  {
    LessIsStrict(words[0], words[0]);
    assert forall i | 1 <= i < |words| :: words[1..][i - 1] == words[i];
  }

  /** The words that are kept of a list. */
  predicate KeepSame(a: seq<string>, b: seq<string>) {
    forall w | w in a + b && Kept(w) :: w in a && w in b
  }

  /** Two lists give the same sorted list exactly when the same words of them are kept. */
  lemma SameWordsKept(a: seq<string>, b: seq<string>)
    ensures SortedUnique(a) == SortedUnique(b) <==> KeepSame(a, b)
  {
    SortedUniqueIsExact(a);
    SortedUniqueIsExact(b);
    hide SortedUnique, Kept;
    assert forall w :: w in a + b <==> w in a || w in b;
    if KeepSame(a, b) {
      IncreasingIsUnique(SortedUnique(a), SortedUnique(b));
    } else {
      var w :| w in a + b && Kept(w) && !(w in a && w in b);
      assert w in SortedUnique(a) <==> w in a;
      assert w in SortedUnique(b) <==> w in b;
    }
  }

  // ----- what is read from a server

  function Words(args: seq<string>): seq<string> {
    if args == [] then []
    else
      var last := args[|args| - 1];
      Words(args[..|args| - 1]) + [if StartsWith(last, "~") then last else Lower(last)]
  }

  function RawNames(ds: seq<Directive>): seq<string> {
    if ds == [] then []
    else
      var last := ds[|ds| - 1];
      RawNames(ds[..|ds| - 1]) + if last.name == "server_name" then Words(last.args) else []
  }

  predicate Listens(d: Directive) {
    d.name == "listen" && d.args != []
  }

  function Listener(d: Directive): string {
    Join(LowerAll(d.args), ' ')
  }

  function RawListeners(ds: seq<Directive>): seq<string> {
    if ds == [] then []
    else
      var last := ds[|ds| - 1];
      RawListeners(ds[..|ds| - 1]) + if Listens(last) then [Listener(last)] else []
  }

  /** A listen directive has the argument ssl, compared in lower case. */
  predicate Tls(ds: seq<Directive>) {
    exists d | d in ds :: d.name == "listen" && "ssl" in LowerAll(d.args)
  }

  /** A listen directive has an argument that folds to ssl. */
  predicate FoldedTls(ds: seq<Directive>) {
    exists d | d in ds :: d.name == "listen" && exists a | a in d.args :: FoldsToSsl(a)
  }

  method ReadNames(args: seq<string>) returns (words: seq<string>)
    ensures words == Words(args)
  {
    words := [];
    for k := 0 to |args|
      invariant words == Words(args[..k])
    {
      assert args[..k + 1][..k] == args[..k];
      words := words + [if StartsWith(args[k], "~") then args[k] else Lower(args[k])];
    }
    assert args[..|args|] == args;
  }

  method ReadListen(args: seq<string>) returns (values: seq<string>, tls: bool)
    ensures values == LowerAll(args) && tls == ("ssl" in values)
  {
    values, tls := [], false;
    for k := 0 to |args|
      invariant values == LowerAll(args)[..k] && tls == ("ssl" in values)
    {
      values := values + [Lower(args[k])];
      tls := tls || Lower(args[k]) == "ssl";
    }
    assert values == LowerAll(args);
  }

  lemma ListenersGrow(ds: seq<Directive>, i: nat)
    requires i < |ds|
    ensures RawListeners(ds[..i + 1]) == RawListeners(ds[..i]) + if Listens(ds[i]) then [Listener(ds[i])] else []
  {
    assert ds[..i + 1][..i] == ds[..i];
  }

  lemma SummaryGrows(ds: seq<Directive>, i: nat)
    requires i < |ds|
    ensures RawNames(ds[..i + 1]) == RawNames(ds[..i]) + if ds[i].name == "server_name" then Words(ds[i].args) else []
    ensures Tls(ds[..i + 1]) <==> Tls(ds[..i]) || (ds[i].name == "listen" && "ssl" in LowerAll(ds[i].args))
  {
    assert ds[..i + 1] == ds[..i] + [ds[i]] && ds[..i + 1][..i] == ds[..i];
  }

  // ----- what is read, on text

  /** ASCII letters become small ones; other letters are left as they are. */
  ghost predicate InLowerCase(r: string, s: string) {
    |r| == |s| && forall i | 0 <= i < |s| :: r[i] == if 'A' <= s[i] <= 'Z' then (s[i] as int + 32) as char else s[i]
  }

  /** Words with one blank between each two. */
  function Spaced(words: seq<string>): string {
    if words == [] then ""
    else if |words| == 1 then words[0]
    else Spaced(words[..|words| - 1]) + " " + words[|words| - 1]
  }

  /** At the first difference the smaller character comes first, and an end before any character. */
  ghost predicate WordBefore(a: string, b: string) {
    exists k: nat | k <= |a| && k < |b| :: a[..k] == b[..k] && (k == |a| || a[k] < b[k])
  }

  /** A pattern is read as it is written, any other name in lower case. */
  ghost predicate NameRead(w: string, a: string) {
    if a != "" && a[0] == '~' then w == a else InLowerCase(w, a)
  }

  /** The arguments in lower case with blanks between them. */
  ghost predicate ListenerRead(w: string, args: seq<string>) {
    exists words :: |words| == |args| && (forall i | 0 <= i < |args| :: InLowerCase(words[i], args[i]))
                    && w == Spaced(words)
  }

  predicate MayBeKept(w: string) {
    w != "" && ByteLength(w) <= 512 && forall i | 0 <= i < |w| :: w[i] != '\0'
  }

  ghost predicate Ascend(words: seq<string>) {
    forall i, j | 0 <= i < j < |words| :: WordBefore(words[i], words[j])
  }

  ghost predicate NamesOf(ds: seq<Directive>, w: string) {
    exists d, a :: d in ds && d.name == "server_name" && a in d.args && NameRead(w, a)
  }

  ghost predicate ListenersOf(ds: seq<Directive>, w: string) {
    exists d :: d in ds && d.name == "listen" && d.args != [] && ListenerRead(w, d.args)
  }

  ghost predicate ListensWithSsl(ds: seq<Directive>) {
    exists d, a :: d in ds && d.name == "listen" && a in d.args && InLowerCase("ssl", a)
  }

  /** Every name and every listener that may be kept, once and in order, and whether one listens with ssl. */
  ghost predicate SummaryAsRead(ds: seq<Directive>, names: seq<string>, listeners: seq<string>, tls: bool) {
    && Ascend(names) && Ascend(listeners) && (tls <==> ListensWithSsl(ds))
    && (forall w :: w in names <==> MayBeKept(w) && NamesOf(ds, w))
    && (forall w :: w in listeners <==> MayBeKept(w) && ListenersOf(ds, w))
  }

  lemma LowerIsLowerCase(r: string, s: string)
    ensures r == Lower(s) <==> InLowerCase(r, s)
  {
    forall i | 0 <= i < |s|
      ensures LowerChar(s[i]) == if 'A' <= s[i] <= 'Z' then (s[i] as int + 32) as char else s[i]
    {
    }
  }

  lemma {:induction false} LessIsLexicographic(a: string, b: string)
    ensures Less(a, b) <==> WordBefore(a, b)
    decreases |a|
  {
    if a == "" {
      assert b != "" ==> a[..0] == b[..0];
    } else if b != "" {
      if a[0] != b[0] {
        assert a[..0] == b[..0];
        forall k: nat | 0 < k <= |a| && k < |b| ensures a[..k] != b[..k] { assert a[..k][0] != b[..k][0]; }
      } else {
        LessIsLexicographic(a[1..], b[1..]);
        BeforeLater(a, b);
      }
    }
  }

  lemma BeforeLater(a: string, b: string)
    requires a != "" && b != "" && a[0] == b[0]
    ensures WordBefore(a, b) <==> WordBefore(a[1..], b[1..])
  {
    if WordBefore(a, b) {
      var k: nat :| k <= |a| && k < |b| && a[..k] == b[..k] && (k == |a| || a[k] < b[k]);
      assert a[1..][..k - 1] == a[..k][1..] && b[1..][..k - 1] == b[..k][1..];
    }
    if WordBefore(a[1..], b[1..]) {
      var c, d := a[1..], b[1..];
      var k: nat :| k <= |c| && k < |d| && c[..k] == d[..k] && (k == |c| || c[k] < d[k]);
      assert a[..k + 1] == [a[0]] + c[..k] && b[..k + 1] == [b[0]] + d[..k];
    }
  }

  lemma {:induction false} JoinIsSpaced(words: seq<string>)
    ensures Join(words, ' ') == Spaced(words)
    decreases |words|
  {
    if |words| > 1 {
      var front, last := words[..|words| - 1], words[|words| - 1];
      JoinIsSpaced(front);
      JoinSnoc(front, last);
      assert words == front + [last];
    }
  }

  lemma {:induction false} JoinSnoc(words: seq<string>, last: string)
    requires words != []
    ensures Join(words + [last], ' ') == Join(words, ' ') + " " + last
    decreases |words|
  {
    assert (words + [last])[1..] == words[1..] + [last];
    if |words| > 1 {
      JoinSnoc(words[1..], last);
      assert words[0] + [' '] + (Join(words[1..], ' ') + " " + last)
          == words[0] + [' '] + Join(words[1..], ' ') + " " + last;
    } else {
      assert words[1..] == [] && [last][1..] == [];
    }
  }

  lemma SortedUniqueAscends(words: seq<string>)
    ensures Ascend(SortedUnique(words))
    ensures forall w :: w in SortedUnique(words) <==> w in words && MayBeKept(w)
  {
    SortedUniqueIsExact(words);
    hide SortedUnique, Less, WordBefore;
    var sorted := SortedUnique(words);
    forall i, j | 0 <= i < j < |sorted| ensures WordBefore(sorted[i], sorted[j]) {
      LessIsLexicographic(sorted[i], sorted[j]);
    }
  }

  ghost predicate NameAmong(args: seq<string>, w: string) {
    exists a | a in args :: NameRead(w, a)
  }

  lemma {:induction false} WordsAreRead(args: seq<string>, w: string)
    ensures w in Words(args) <==> NameAmong(args, w)
    decreases |args|
  {
    if args != [] {
      var front, last := args[..|args| - 1], args[|args| - 1];
      WordsAreRead(front, w);
      assert args == front + [last];
      assert NameAmong(args, w) <==> NameAmong(front, w) || NameRead(w, last);
      LowerIsLowerCase(w, last);
      assert StartsWith(last, "~") <==> last != "" && last[0] == '~';
      hide NameAmong, InLowerCase, StartsWith, Lower;
    }
  }

  lemma {:induction false} RawNamesAreRead(ds: seq<Directive>, w: string)
    ensures w in RawNames(ds) <==> NamesOf(ds, w)
    decreases |ds|
  {
    if ds != [] {
      var front, last := ds[..|ds| - 1], ds[|ds| - 1];
      RawNamesAreRead(front, w);
      WordsAreRead(last.args, w);
      NamesGrow(front, last, w);
      assert ds == front + [last];
      hide Words, NameAmong, NamesOf;
    }
  }

  lemma NamesGrow(front: seq<Directive>, last: Directive, w: string)
    ensures NamesOf(front + [last], w)
        <==> (NamesOf(front, w) || (last.name == "server_name" && NameAmong(last.args, w)))
  {
    hide NameRead;
    var ds := front + [last];
    if NamesOf(ds, w) && !NamesOf(front, w) {
      var d, a :| d in ds && d.name == "server_name" && a in d.args && NameRead(w, a);
      assert d == last;
    }
    if NamesOf(front, w) {
      var d, a :| d in front && d.name == "server_name" && a in d.args && NameRead(w, a);
      assert d in ds;
    }
    if last.name == "server_name" && NameAmong(last.args, w) {
      var a :| a in last.args && NameRead(w, a);
      assert last in ds;
    }
  }

  lemma ListenerIsRead(d: Directive, w: string)
    ensures w == Listener(d) <==> ListenerRead(w, d.args)
  {
    JoinIsSpaced(LowerAll(d.args));
    forall i | 0 <= i < |d.args| ensures InLowerCase(LowerAll(d.args)[i], d.args[i]) {
      LowerIsLowerCase(LowerAll(d.args)[i], d.args[i]);
    }
    if ListenerRead(w, d.args) {
      var words :| |words| == |d.args| && (forall i | 0 <= i < |d.args| :: InLowerCase(words[i], d.args[i]))
        && w == Spaced(words);
      forall i | 0 <= i < |d.args| ensures words[i] == LowerAll(d.args)[i] { LowerIsLowerCase(words[i], d.args[i]); }
      assert words == LowerAll(d.args);
    }
  }

  lemma {:induction false} RawListenersAreRead(ds: seq<Directive>, w: string)
    ensures w in RawListeners(ds) <==> ListenersOf(ds, w)
    decreases |ds|
  {
    if ds != [] {
      var front, last := ds[..|ds| - 1], ds[|ds| - 1];
      RawListenersAreRead(front, w);
      ListenerIsRead(last, w);
      ListenersOfMore(front, last, w);
      assert ds == front + [last];
      hide Listener, ListenerRead, ListenersOf;
    }
  }

  lemma ListenersOfMore(front: seq<Directive>, last: Directive, w: string)
    ensures ListenersOf(front + [last], w) <==> (ListenersOf(front, w) || (Listens(last) && ListenerRead(w, last.args)))
  {
    hide ListenerRead;
    var ds := front + [last];
    if ListenersOf(ds, w) && !ListenersOf(front, w) {
      var d :| d in ds && d.name == "listen" && d.args != [] && ListenerRead(w, d.args);
      assert d == last;
    }
    if Listens(last) && ListenerRead(w, last.args) { assert last in ds; }
    if ListenersOf(front, w) {
      var d :| d in front && d.name == "listen" && d.args != [] && ListenerRead(w, d.args);
      assert d in ds;
    }
  }

  lemma TlsIsRead(ds: seq<Directive>)
    ensures Tls(ds) <==> ListensWithSsl(ds)
  {
    if Tls(ds) {
      var d :| d in ds && d.name == "listen" && "ssl" in LowerAll(d.args);
      var i :| 0 <= i < |d.args| && LowerAll(d.args)[i] == "ssl";
      LowerIsLowerCase("ssl", d.args[i]);
      assert d.args[i] in d.args;
    }
    if d, a :| d in ds && d.name == "listen" && a in d.args && InLowerCase("ssl", a) {
      var i :| 0 <= i < |d.args| && d.args[i] == a;
      LowerIsLowerCase("ssl", a);
      assert LowerAll(d.args)[i] == "ssl";
    }
  }

  lemma SummaryIsRead(ds: seq<Directive>)
    ensures SummaryAsRead(ds, SortedUnique(RawNames(ds)), SortedUnique(RawListeners(ds)), Tls(ds))
  {
    hide SortedUnique, RawNames, RawListeners, Tls, MayBeKept, NamesOf, ListenersOf, ListensWithSsl, Ascend;
    SortedUniqueAscends(RawNames(ds));
    SortedUniqueAscends(RawListeners(ds));
    TlsIsRead(ds);
    forall w ensures w in RawNames(ds) <==> NamesOf(ds, w) { RawNamesAreRead(ds, w); }
    forall w ensures w in RawListeners(ds) <==> ListenersOf(ds, w) { RawListenersAreRead(ds, w); }
  }

  /** An endpoint on port 443: the bare port, or a host with the port behind it; no variable and no socket. */
  lemma EndpointOn443(e: string)
    ensures Is443(e) <==> (HasNoVariable(e) && !NamesSocket(e) && EndsIn443(e))
  {
    var lower := Lower(e);
    VariableInLower(e);
    SocketInLower(e);
    PortInLower(e);
    hide HasNoVariable, NamesSocket, EndsIn443, StartsWith, EndsWith;
  }

  ghost predicate HasNoVariable(e: string) {
    forall i | 0 <= i < |e| :: e[i] != '$'
  }

  ghost predicate NamesSocket(e: string) {
    exists rest :: InLowerCase("unix:" + rest, e)
  }

  ghost predicate EndsIn443(e: string) {
    e == "443" || exists n | 0 <= n <= |e| :: e == e[..n] + ":443"
  }

  lemma VariableInLower(e: string)
    ensures '$' !in Lower(e) <==> HasNoVariable(e)
  {
    if '$' in Lower(e) { var i :| 0 <= i < |e| && Lower(e)[i] == '$'; assert e[i] == '$'; }
    if i :| 0 <= i < |e| && e[i] == '$' { assert Lower(e)[i] == '$'; }
  }

  lemma SocketInLower(e: string)
    ensures StartsWith(Lower(e), "unix:") <==> NamesSocket(e)
  {
    var lower := Lower(e);
    if StartsWith(lower, "unix:") {
      assert lower == "unix:" + lower[5..];
      LowerIsLowerCase("unix:" + lower[5..], e);
    }
    if rest :| InLowerCase("unix:" + rest, e) {
      LowerIsLowerCase("unix:" + rest, e);
    }
  }

  lemma PortInLower(e: string)
    ensures Lower(e) == "443" || EndsWith(Lower(e), ":443") <==> EndsIn443(e)
  {
    var lower := Lower(e);
    hide Lower;
    LowerPart(e, 0, "443");
    assert |e| == 3 ==> lower[0..3] == lower && e[0..3] == e;
    if |e| >= 4 {
      var n := |e| - 4;
      LowerPart(e, n, ":443");
      assert lower[n..|e|] == lower[n..] && e[n..|e|] == e[n..] && e == e[..n] + e[n..];
    }
    if n :| 0 <= n <= |e| && e == e[..n] + ":443" {
      assert n == |e| - 4 && e[n..] == ":443";
    }
  }

  /** Characters that are no letters are found in lower case where they stand. */
  lemma LowerPart(e: string, at: nat, part: string)
    requires forall i | 0 <= i < |part| :: !('a' <= part[i] <= 'z') && !('A' <= part[i] <= 'Z')
    ensures at + |part| <= |e| ==> (Lower(e)[at..at + |part|] == part <==> e[at..at + |part|] == part)
  {
    if at + |part| <= |e| {
      var n := at + |part|;
      forall i | at <= i < n ensures Lower(e)[i] == part[i - at] <==> e[i] == part[i - at] {
      }
      if Lower(e)[at..n] == part {
        forall i | at <= i < n ensures e[i] == part[i - at] { assert Lower(e)[at..n][i - at] == Lower(e)[i]; }
        assert e[at..n] == part;
      }
      if e[at..n] == part {
        forall i | at <= i < n ensures Lower(e)[i] == part[i - at] { assert e[at..n][i - at] == e[i]; }
        assert Lower(e)[at..n] == part;
      }
    }
  }

  /** The loop that summarises a server. */
  method ServerSummary(ds: seq<Directive>) returns (names: seq<string>, listeners: seq<string>, tls: bool)
    ensures names == SortedUnique(RawNames(ds)) && listeners == SortedUnique(RawListeners(ds)) && tls == Tls(ds)
    ensures SummaryAsRead(ds, names, listeners, tls)
  {
    hide SummaryAsRead;
    SummaryIsRead(ds);
    names, listeners, tls := [], [], false;
    for i := 0 to |ds|
      invariant names == RawNames(ds[..i]) && listeners == RawListeners(ds[..i]) && tls == Tls(ds[..i])
    {
      hide RawNames, RawListeners, Tls, SortedUnique, Join, Words;
      var d := ds[i];
      SummaryGrows(ds, i);
      ListenersGrow(ds, i);
      if d.name == "server_name" {
        var words := ReadNames(d.args);
        names := names + words;
      } else if d.name == "listen" {
        var values, ssl := ReadListen(d.args);
        tls := tls || ssl;
        if |values| > 0 {
          listeners := listeners + [Join(values, ' ')];
        }
      }
    }
    assert ds[..|ds|] == ds;
    names, listeners := SortedUnique(names), SortedUnique(listeners);
  }

  // ----- binding one server

  /** What to do so that the server listens with ssl: nothing, one more argument, or one more directive. */
  datatype ListenPlan = Keep | Extend(at: nat) | Add

  function FirstOn443(ds: seq<Directive>): (k: nat)
    ensures k <= |ds| && (k < |ds| ==> Listens(ds[k]) && Is443(ds[k].args[0]))
    ensures forall i | 0 <= i < k && Listens(ds[i]) :: !Is443(ds[i].args[0])
  {
    if ds == [] || (Listens(ds[0]) && Is443(ds[0].args[0])) then 0
    else
      var k := FirstOn443(ds[1..]);
      assert forall i | 1 <= i < k + 1 :: ds[i] == ds[1..][i - 1];
      k + 1
  }

  function PlanFor(ds: seq<Directive>): ListenPlan {
    if FoldedTls(ds) then Keep else if FirstOn443(ds) < |ds| then Extend(FirstOn443(ds)) else Add
  }

  method PlanTlsListen(ds: seq<Directive>) returns (plan: ListenPlan)
    ensures plan == PlanFor(ds)
  {
    for i := 0 to |ds|
      invariant !FoldedTls(ds[..i])
    {
      assert ds[..i + 1] == ds[..i] + [ds[i]];
      if Listens(ds[i]) {
        for k := 0 to |ds[i].args|
          invariant forall j | 0 <= j < k :: !FoldsToSsl(ds[i].args[j])
        {
          if FoldsToSsl(ds[i].args[k]) {
            assert ds[i] in ds && ds[i].args[k] in ds[i].args;
            return Keep;
          }
        }
      }
    }
    assert ds[..|ds|] == ds;
    for i := 0 to |ds|
      invariant forall k | 0 <= k < i && Listens(ds[k]) :: !Is443(ds[k].args[0])
    {
      if Listens(ds[i]) && Is443(ds[i].args[0]) {
        return Extend(i);
      }
    }
    return Add;
  }

  /** The places of the directives of one name. */
  function Places(ds: seq<Directive>, name: string): (r: seq<nat>)
    ensures forall j | 0 <= j < |r| :: r[j] < |ds| && ds[r[j]].name == name
    ensures forall i: nat :: i < |ds| && ds[i].name == name ==> i in r
  {
    if ds == [] then []
    else Places(ds[..|ds| - 1], name) + if ds[|ds| - 1].name == name then [|ds| - 1] else []
  }

  /** A directive whose whole text may be replaced. */
  predicate Replaceable(d: Directive) {
    |d.args| == 1 && '$' !in d.args[0] && !d.commented
  }

  /** One directive of the name that can be replaced, or none at all. */
  predicate Settable(ds: seq<Directive>, name: string) {
    var places := Places(ds, name);
    |places| == 0 || (|places| == 1 && Replaceable(ds[places[0]]))
  }

  predicate Bindable(ds: seq<Directive>) {
    Settable(ds, CERTIFICATE) && Settable(ds, KEY)
  }

  function Static(name: string, value: string): Directive {
    Directive(name, [value], false)
  }

  function WithStatic(ds: seq<Directive>, name: string, value: string): (r: seq<Directive>)
    ensures |r| == |ds|
  {
    seq(|ds|, i requires 0 <= i < |ds| => if ds[i].name == name then Static(name, value) else ds[i])
  }

  function WithSsl(d: Directive): Directive {
    d.(args := d.args + ["ssl"])
  }

  function Extended(ds: seq<Directive>, plan: ListenPlan): (r: seq<Directive>)
    ensures |r| == |ds|
  {
    if plan.Extend? && plan.at < |ds| then ds[plan.at := WithSsl(ds[plan.at])] else ds
  }

  const LISTEN_443 := Directive("listen", ["443", "ssl"], false)

  /** The lines appended to the block. */
  function Appended(ds: seq<Directive>, fullchain: string, key: string): seq<Directive> {
    (if PlanFor(ds) == Add then [LISTEN_443] else [])
    + (if Places(ds, CERTIFICATE) == [] then [Static(CERTIFICATE, fullchain)] else [])
    + (if Places(ds, KEY) == [] then [Static(KEY, key)] else [])
  }

  /** The server after its binding has been published. */
  function Bound(ds: seq<Directive>, fullchain: string, key: string): seq<Directive> {
    WithStatic(WithStatic(Extended(ds, PlanFor(ds)), CERTIFICATE, fullchain), KEY, key) + Appended(ds, fullchain, key)
  }

  // ----- what the planner predicts

  /** What the prediction takes the plan to be: it compares with ssl in lower case. */
  function PredictedPlan(ds: seq<Directive>): ListenPlan {
    if Tls(ds) then Keep else if FirstOn443(ds) < |ds| then Extend(FirstOn443(ds)) else Add
  }

  /** The listeners of the server once its listen directives follow a plan. */
  function ListenersAfter(ds: seq<Directive>, plan: ListenPlan): seq<string> {
    RawListeners(Extended(ds, plan)) + if plan == Add then [Listener(LISTEN_443)] else []
  }

  lemma ListenerWithSsl(d: Directive)
    requires Listens(d)
    ensures Listens(WithSsl(d)) && LowerAll(WithSsl(d).args) == LowerAll(d.args) + ["ssl"]
  {
    assert Lower("ssl") == "ssl";
  }

  lemma NewListener()
    ensures Listener(LISTEN_443) == "443 ssl"
  {
    assert Lower("443") == "443" && Lower("ssl") == "ssl";
    assert LowerAll(["443", "ssl"]) == ["443", "ssl"];
    assert ["443", "ssl"][1..] == ["ssl"];
  }

  lemma NoListeners(ds: seq<Directive>)
    requires ds == []
    ensures RawListeners(ds) == []
  {
  }

  lemma ListensMeans(d: Directive)
    ensures Listens(d) ==> d.args != []
  {
  }

  /** The loop that predicts the listeners. */
  method PredictListeners(ds: seq<Directive>, current: seq<string>, tls: bool) returns (listeners: seq<string>)
    requires current == SortedUnique(RawListeners(ds)) && tls == Tls(ds)
    ensures listeners == SortedUnique(ListenersAfter(ds, PredictedPlan(ds)))
  {
    hide SortedUnique, Is443, Tls, Join, LowerAll, RawListeners, Listens, Kept;
    if tls {
      assert RawListeners(ds) + [] == RawListeners(ds);
      return current;
    }
    var raw, updated := [], false;
    ghost var k := FirstOn443(ds);
    ghost var after := Extended(ds, PredictedPlan(ds));
    NoListeners(after[..0]);
    for i := 0 to |ds|
      invariant updated <==> k < i
      invariant raw == RawListeners(after[..i])
    {
      var d := ds[i];
      ListenersGrow(after, i);
      ListensMeans(d);
      assert i != k ==> after[i] == d;
      if Listens(d) {
        var values := LowerAll(d.args);
        if !updated && Is443(d.args[0]) {
          ListenerWithSsl(d);
          values := values + ["ssl"];
          updated := true;
        }
        raw := raw + [Join(values, ' ')];
      }
    }
    assert after[..|ds|] == after && RawListeners(after) + [] == RawListeners(after);
    if !updated {
      NewListener();
      raw := raw + ["443 ssl"];
    }
    return SortedUnique(raw);
  }

  // ----- the binding does what was predicted

  lemma {:induction false} ListenersJoin(a: seq<Directive>, b: seq<Directive>)
    ensures RawListeners(a + b) == RawListeners(a) + RawListeners(b)
    decreases |b|
  {
    if b == [] {
      assert a + b == a;
    } else {
      assert (a + b)[..|a + b| - 1] == a + b[..|b| - 1];
      ListenersJoin(a, b[..|b| - 1]);
    }
  }

  lemma {:induction false} NamesJoin(a: seq<Directive>, b: seq<Directive>)
    ensures RawNames(a + b) == RawNames(a) + RawNames(b)
    decreases |b|
  {
    if b == [] {
      assert a + b == a;
    } else {
      assert (a + b)[..|a + b| - 1] == a + b[..|b| - 1];
      NamesJoin(a, b[..|b| - 1]);
    }
  }

  /** Two blocks that differ only in directives of other names. */
  predicate AgreeOn(name: string, a: seq<Directive>, b: seq<Directive>) {
    |a| == |b| && forall i | 0 <= i < |a| && (a[i].name == name || b[i].name == name) :: a[i] == b[i]
  }

  lemma {:induction false} ListenersAgree(a: seq<Directive>, b: seq<Directive>)
    requires AgreeOn("listen", a, b)
    ensures RawListeners(a) == RawListeners(b)
    decreases |a|
  {
    if a != [] { ListenersAgree(a[..|a| - 1], b[..|b| - 1]); }
  }

  lemma {:induction false} NamesAgree(a: seq<Directive>, b: seq<Directive>)
    requires AgreeOn("server_name", a, b)
    ensures RawNames(a) == RawNames(b)
    decreases |a|
  {
    if a != [] { NamesAgree(a[..|a| - 1], b[..|b| - 1]); }
  }

  /** The part of the bound block that was there before. */
  function Rewritten(ds: seq<Directive>, fullchain: string, key: string): (r: seq<Directive>)
    ensures |r| == |ds|
  {
    WithStatic(WithStatic(Extended(ds, PlanFor(ds)), CERTIFICATE, fullchain), KEY, key)
  }

  lemma AppendedListeners(ds: seq<Directive>, fullchain: string, key: string)
    ensures RawListeners(Appended(ds, fullchain, key)) == if PlanFor(ds) == Add then [Listener(LISTEN_443)] else []
    ensures RawNames(Appended(ds, fullchain, key)) == []
  {
    hide PlanFor, Places, Listener;
    var listen := if PlanFor(ds) == Add then [LISTEN_443] else [];
    var certificate := if Places(ds, CERTIFICATE) == [] then [Static(CERTIFICATE, fullchain)] else [];
    var secret := if Places(ds, KEY) == [] then [Static(KEY, key)] else [];
    ListenersJoin(listen + certificate, secret);
    ListenersJoin(listen, certificate);
    NamesJoin(listen + certificate, secret);
    NamesJoin(listen, certificate);
  }

  /** The published server has the names it had, and the listeners of the plan. */
  lemma BoundSummary(ds: seq<Directive>, fullchain: string, key: string)
    ensures RawNames(Bound(ds, fullchain, key)) == RawNames(ds)
    ensures RawListeners(Bound(ds, fullchain, key)) == ListenersAfter(ds, PlanFor(ds))
  {
    hide PlanFor, Places, Listener, RawNames, RawListeners, Appended;
    var extended, rewritten, appended := Extended(ds, PlanFor(ds)), Rewritten(ds, fullchain, key),
      Appended(ds, fullchain, key);
    ListenersJoin(rewritten, appended);
    NamesJoin(rewritten, appended);
    AppendedListeners(ds, fullchain, key);
    ListenersAgree(extended, rewritten);
    PlanExtendsListen(ds);
    NamesAgree(ds, rewritten);
  }

  lemma PlanExtendsListen(ds: seq<Directive>)
    ensures PlanFor(ds).Extend? ==> PlanFor(ds).at < |ds| && ds[PlanFor(ds).at].name == "listen"
  {
  }

  lemma SslFolds(a: string)
    requires Lower(a) == "ssl"
    ensures FoldsToSsl(a)
  {
    assert |a| == 3;
    assert LowerChar(a[0]) == 's' && LowerChar(a[1]) == 's' && LowerChar(a[2]) == 'l';
  }

  lemma TlsFolds(ds: seq<Directive>)
    requires Tls(ds)
    ensures FoldedTls(ds)
  {
    var d :| d in ds && d.name == "listen" && "ssl" in LowerAll(d.args);
    var i :| 0 <= i < |d.args| && LowerAll(d.args)[i] == "ssl";
    SslFolds(d.args[i]);
    assert d.args[i] in d.args;
  }

  /** No listen argument becomes ssl by folding alone. */
  predicate NoFoldingAlone(ds: seq<Directive>) {
    FoldedTls(ds) ==> Tls(ds)
  }

  /** Arguments of ASCII characters never do. */
  lemma AsciiFoldsInLowerCase(ds: seq<Directive>)
    requires forall d, a, c | d in ds && d.name == "listen" && a in d.args && c in a :: c < '\U{0080}'
    ensures NoFoldingAlone(ds)
  {
    if FoldedTls(ds) {
      var d :| d in ds && d.name == "listen" && exists a | a in d.args :: FoldsToSsl(a);
      var i :| 0 <= i < |d.args| && FoldsToSsl(d.args[i]);
      var a := d.args[i];
      assert a in d.args && a[0] in a && a[1] in a;
      assert Lower(a) == "ssl";
      assert LowerAll(d.args)[i] == "ssl";
    }
  }

  /** The prediction follows the plan exactly when folding finds no ssl that lower case does not find. */
  lemma PlanIsPredicted(ds: seq<Directive>)
    ensures PredictedPlan(ds) == PlanFor(ds) <==> NoFoldingAlone(ds)
    ensures PredictedPlan(ds) == PlanFor(ds)
        <==> ListenersAfter(ds, PredictedPlan(ds)) == ListenersAfter(ds, PlanFor(ds))
  {
    if Tls(ds) { TlsFolds(ds); }
    if PredictedPlan(ds) != PlanFor(ds) {
      PlansDiffer(ds);
    }
  }

  /** The listeners beside the one that the prediction changes. */
  function OtherListeners(ds: seq<Directive>, k: nat): seq<string>
    requires k < |ds|
  {
    RawListeners(ds[..k]) + RawListeners(ds[k + 1..])
  }

  /**
   * The listener that the prediction adds, or the two that it exchanges, are among the
   * other listeners of the server or are not kept in a reference.
   */
  predicate ChangeIsInvisible(ds: seq<Directive>) {
    var k := FirstOn443(ds);
    if k == |ds| then "443 ssl" in RawListeners(ds)
    else
      && (Kept(Listener(ds[k])) ==> Listener(ds[k]) in OtherListeners(ds, k))
      && (Kept(Listener(WithSsl(ds[k]))) ==> Listener(WithSsl(ds[k])) in OtherListeners(ds, k))
  }

  lemma OneListener(d: Directive)
    requires Listens(d)
    ensures RawListeners([d]) == [Listener(d)]
  {
    assert [d][..0] == [];
  }

  lemma ListenersAround(front: seq<Directive>, d: Directive, back: seq<Directive>)
    requires Listens(d)
    ensures RawListeners(front + [d] + back) == RawListeners(front) + [Listener(d)] + RawListeners(back)
  {
    hide Listener;
    ListenersJoin(front + [d], back);
    ListenersJoin(front, [d]);
    OneListener(d);
  }

  lemma ExchangeIsInvisible(a: seq<string>, x: string, y: string, b: seq<string>)
    requires x != y
    ensures KeepSame(a + [x] + b, a + [y] + b) <==> (Kept(x) ==> x in a + b) && (Kept(y) ==> y in a + b)
  {
    hide Kept;
    var p, q := a + [x] + b, a + [y] + b;
    assert forall w :: w in p <==> w == x || w in a + b;
    assert forall w :: w in q <==> w == y || w in a + b;
    assert x in p + q && y in p + q;
  }

  lemma AdditionIsInvisible(a: seq<string>, x: string)
    requires Kept(x)
    ensures KeepSame(a + [x], a) <==> x in a
  {
    hide Kept;
    assert x in a + [x] && x in a + [x] + a;
  }

  /** Where folding alone finds ssl nothing is edited, and yet a change of the listeners is predicted. */
  lemma FoldingIsMispredicted(ds: seq<Directive>)
    requires !NoFoldingAlone(ds)
    ensures SortedUnique(ListenersAfter(ds, PredictedPlan(ds))) == SortedUnique(ListenersAfter(ds, PlanFor(ds)))
        <==> ChangeIsInvisible(ds)
  {
    hide Is443, Tls, FoldedTls, Listener, RawListeners, SortedUnique, KeepSame, Kept, ByteLength;
    var k := FirstOn443(ds);
    SameWordsKept(ListenersAfter(ds, PredictedPlan(ds)), ListenersAfter(ds, PlanFor(ds)));
    assert ListenersAfter(ds, PlanFor(ds)) == RawListeners(ds);
    if k < |ds| {
      SslInPlace(ds, k);
      SslLengthens(ds[k]);
      var a, b := RawListeners(ds[..k]), RawListeners(ds[k + 1..]);
      ExchangeIsInvisible(a, Listener(WithSsl(ds[k])), Listener(ds[k]), b);
      assert ListenersAfter(ds, PredictedPlan(ds)) == a + [Listener(WithSsl(ds[k]))] + b;
    } else {
      NewListener();
      NewListenerIsKept();
      AdditionIsInvisible(RawListeners(ds), "443 ssl");
    }
  }

  lemma SslInPlace(ds: seq<Directive>, k: nat)
    requires k < |ds| && Listens(ds[k])
    ensures RawListeners(ds) == RawListeners(ds[..k]) + [Listener(ds[k])] + RawListeners(ds[k + 1..])
    ensures RawListeners(ds[k := WithSsl(ds[k])])
         == RawListeners(ds[..k]) + [Listener(WithSsl(ds[k]))] + RawListeners(ds[k + 1..])
  {
    hide RawListeners, Listener;
    var front, back := ds[..k], ds[k + 1..];
    assert ds == front + [ds[k]] + back && ds[k := WithSsl(ds[k])] == front + [WithSsl(ds[k])] + back;
    ListenersAround(front, ds[k], back);
    ListenerWithSsl(ds[k]);
    ListenersAround(front, WithSsl(ds[k]), back);
  }

  lemma NewListenerIsKept()
    ensures Kept("443 ssl")
  {
    AsciiLength("443 ssl");
  }

  /**
   * The predicted listeners are those of the bound server exactly when folding finds no ssl
   * that lower case does not find, or the change makes no difference to what is kept.
   */
  lemma PredictionIsExact(ds: seq<Directive>)
    ensures SortedUnique(ListenersAfter(ds, PredictedPlan(ds))) == SortedUnique(ListenersAfter(ds, PlanFor(ds)))
            <==> NoFoldingAlone(ds) || ChangeIsInvisible(ds)
  {
    PlanIsPredicted(ds);
    if !NoFoldingAlone(ds) { FoldingIsMispredicted(ds); }
  }

  /** Where the listener of one directive stands. */
  lemma ListenerAt(front: seq<Directive>, d: Directive, back: seq<Directive>)
    requires Listens(d)
    ensures var i, all := |RawListeners(front)|, RawListeners(front + [d] + back); i < |all| && all[i] == Listener(d)
  {
    hide Listener;
    ListenersJoin(front + [d], back);
    ListenersJoin(front, [d]);
  }

  lemma PlansDiffer(ds: seq<Directive>)
    requires !Tls(ds) && FoldedTls(ds)
    ensures ListenersAfter(ds, PredictedPlan(ds)) != ListenersAfter(ds, PlanFor(ds))
  {
    hide Is443, Tls, FoldedTls, Listener, RawListeners;
    var k := FirstOn443(ds);
    if k < |ds| {
      assert ds == ds[..k] + [ds[k]] + ds[k + 1..]
        && ds[k := WithSsl(ds[k])] == ds[..k] + [WithSsl(ds[k])] + ds[k + 1..];
      ListenerAt(ds[..k], ds[k], ds[k + 1..]);
      ListenerWithSsl(ds[k]);
      ListenerAt(ds[..k], WithSsl(ds[k]), ds[k + 1..]);
      SslLengthens(ds[k]);
      var i := |RawListeners(ds[..k])|;
      assert ListenersAfter(ds, PredictedPlan(ds))[i] != ListenersAfter(ds, PlanFor(ds))[i];
    } else {
      assert |ListenersAfter(ds, PredictedPlan(ds))| == |ListenersAfter(ds, PlanFor(ds))| + 1;
    }
  }

  lemma {:induction false} JoinMore(words: seq<string>, word: string)
    requires words != []
    ensures Join(words + [word], ' ') == Join(words, ' ') + [' '] + word
    decreases |words|
  {
    assert (words + [word])[1..] == words[1..] + [word];
    if |words| > 1 { JoinMore(words[1..], word); }
  }

  lemma SslLengthens(d: Directive)
    requires Listens(d)
    ensures |Listener(WithSsl(d))| > |Listener(d)|
  {
    ListenerWithSsl(d);
    JoinMore(LowerAll(d.args), "ssl");
  }

  /** Where the directives of the bound block come from. */
  lemma BoundAt(ds: seq<Directive>, fullchain: string, key: string)
    ensures var after := Bound(ds, fullchain, key);
      && |after| >= |ds| && after[|ds|..] == Appended(ds, fullchain, key)
      && forall i | 0 <= i < |ds| ::
           after[i] == if ds[i].name == CERTIFICATE then Static(CERTIFICATE, fullchain) else if ds[i].name == KEY then
             Static(KEY, key)
                       else if PlanFor(ds) == Extend(i) then WithSsl(ds[i]) else ds[i]
  {
    PlanExtendsListen(ds);
    hide PlanFor, Appended;
  }

  lemma InParts<T>(whole: seq<T>, n: nat, x: T)
    requires n <= |whole|
    ensures x in whole <==> (exists i | 0 <= i < n :: whole[i] == x) || x in whole[n..]
  {
    assert whole == whole[..n] + whole[n..];
    assert x in whole[..n] <==> exists i | 0 <= i < n :: whole[i] == x;
  }

  lemma BoundListens(ds: seq<Directive>, fullchain: string, key: string, d: Directive)
    requires d.name == "listen" && PlanFor(ds) == Keep
    ensures d in Bound(ds, fullchain, key) <==> d in ds
  {
    BoundAt(ds, fullchain, key);
    var after := Bound(ds, fullchain, key);
    hide PlanFor, Bound, Places;
    assert d !in Appended(ds, fullchain, key);
    InParts(after, |ds|, d);
    InParts(ds, |ds|, d);
    assert forall i | 0 <= i < |ds| :: after[i] == d <==> ds[i] == d;
  }

  lemma NewSslListener(after: seq<Directive>, i: nat)
    requires i < |after| && after[i].name == "listen" && "ssl" in LowerAll(after[i].args)
    ensures Tls(after) && FoldedTls(after)
  {
    assert after[i] in after;
    TlsFolds(after);
  }

  /** A bound server listens with ssl, unless folding alone found an ssl before. */
  lemma BoundIsTls(ds: seq<Directive>, fullchain: string, key: string)
    ensures Tls(Bound(ds, fullchain, key)) <==> (FoldedTls(ds) ==> Tls(ds))
    ensures FoldedTls(Bound(ds, fullchain, key))
  {
    var after := Bound(ds, fullchain, key);
    if FoldedTls(ds) {
      assert PlanFor(ds) == Keep;
      forall d: Directive | d.name == "listen" ensures d in after <==> d in ds { BoundListens(ds, fullchain, key, d); }
      hide Bound, LowerAll, FoldsToSsl;
    } else {
      BoundAt(ds, fullchain, key);
      hide Bound, Tls, FoldedTls, Is443, Places;
      if PlanFor(ds).Extend? {
        var k := FirstOn443(ds);
        PlanExtendsListen(ds);
        ListenerWithSsl(ds[k]);
        assert LowerAll(after[k].args)[|ds[k].args|] == "ssl";
        NewSslListener(after, k);
      } else {
        assert after[|ds|..][0] == LISTEN_443 && Lower("ssl") == "ssl" && LowerAll(LISTEN_443.args)[1] == "ssl";
        NewSslListener(after, |ds|);
      }
    }
  }

  /** What the binding makes of one of the two names. */
  function Wanted(name: string, fullchain: string, key: string): Directive {
    Static(name, if name == CERTIFICATE then fullchain else key)
  }

  lemma OtherName()
    ensures CERTIFICATE != KEY && CERTIFICATE != "listen" && KEY != "listen"
  {
    assert |CERTIFICATE| != |KEY| && |CERTIFICATE| != |"listen"| && |KEY| != |"listen"|;
  }

  lemma AppendedIsWanted(ds: seq<Directive>, fullchain: string, key: string, name: string)
    requires name == CERTIFICATE || name == KEY
    ensures forall e | e in Appended(ds, fullchain, key) && e.name == name :: e == Wanted(name, fullchain, key)
  {
    hide PlanFor, Places;
    OtherName();
  }

  lemma RewrittenIsWanted(ds: seq<Directive>, fullchain: string, key: string, name: string)
    requires name == CERTIFICATE || name == KEY
    ensures forall i | 0 <= i < |ds| && Bound(ds, fullchain, key)[i].name == name ::
        Bound(ds, fullchain, key)[i] == Wanted(name, fullchain, key)
    ensures forall i | 0 <= i < |ds| && ds[i].name == name :: Bound(ds, fullchain, key)[i].name == name
  {
    OtherName();
    BoundAt(ds, fullchain, key);
    hide Bound, PlanFor;
  }

  /** The bound server has the directive of the name, and only with the new value. */
  lemma BoundPlaces(ds: seq<Directive>, fullchain: string, key: string, name: string)
    requires name == CERTIFICATE || name == KEY
    ensures var after := Bound(ds, fullchain, key);
      && (exists d :: d in after && d.name == name)
      && (forall d | d in after && d.name == name :: d == Wanted(name, fullchain, key))
  {
    var after, d := Bound(ds, fullchain, key), Wanted(name, fullchain, key);
    BoundAt(ds, fullchain, key);
    RewrittenIsWanted(ds, fullchain, key, name);
    AppendedIsWanted(ds, fullchain, key, name);
    hide Bound, PlanFor, Places, Appended, Wanted, Static, WithSsl;
    forall e | e in after && e.name == name ensures e == d {
      InParts(after, |ds|, e);
    }
    if Places(ds, name) == [] {
      AppendsMissing(ds, fullchain, key, name);
      InParts(after, |ds|, d);
    } else {
      var p := Places(ds, name)[0];
      assert after[p].name == name && after[p] in after;
    }
  }

  lemma AppendsMissing(ds: seq<Directive>, fullchain: string, key: string, name: string)
    requires (name == CERTIFICATE || name == KEY) && Places(ds, name) == []
    ensures Wanted(name, fullchain, key).name == name && Wanted(name, fullchain, key) in Appended(ds, fullchain, key)
  {
    hide PlanFor, Places;
  }

  /** Binding the bound server to the same version again changes nothing. */
  lemma BindingIsIdempotent(ds: seq<Directive>, fullchain: string, key: string)
    ensures Bound(Bound(ds, fullchain, key), fullchain, key) == Bound(ds, fullchain, key)
  {
    var after := Bound(ds, fullchain, key);
    BoundIsTls(ds, fullchain, key);
    BoundPlaces(ds, fullchain, key, CERTIFICATE);
    BoundPlaces(ds, fullchain, key, KEY);
    hide Bound, FoldedTls;
    assert PlanFor(after) == Keep;
    HasPlace(after, CERTIFICATE);
    HasPlace(after, KEY);
    assert Appended(after, fullchain, key) == [];
    assert WithStatic(WithStatic(after, CERTIFICATE, fullchain), KEY, key) == after by {
      forall i | 0 <= i < |after| ensures WithStatic(WithStatic(after, CERTIFICATE, fullchain), KEY, key)[i]
          == after[i] {
        assert after[i] in after;
      }
    }
    BoundIs(after, fullchain, key);
  }

  lemma BoundIs(ds: seq<Directive>, fullchain: string, key: string)
    ensures Bound(ds, fullchain, key) == Rewritten(ds, fullchain, key) + Appended(ds, fullchain, key)
  {
  }

  lemma HasPlace(ds: seq<Directive>, name: string)
    requires exists d :: d in ds && d.name == name
    ensures Places(ds, name) != []
  {
    var d :| d in ds && d.name == name;
    var i: nat :| i < |ds| && ds[i] == d;
    assert i in Places(ds, name);
  }

  // ----- the binding, on text

  /** Three letters that read ssl in any case, a long s for an s included. */
  ghost predicate ReadsSsl(a: string) {
    exists b :: InLowerCase(b, a) && |b| == 3 && b[0] in "sſ" && b[1] in "sſ" && b[2] == 'l'
  }

  /** At most one directive of the name, with one word without variables and no comment in it. */
  ghost predicate MaySet(ds: seq<Directive>, name: string) {
    && (forall i, j | 0 <= i < |ds| && 0 <= j < |ds| && ds[i].name == name && ds[j].name == name :: i == j)
    && forall d | d in ds && d.name == name :: |d.args| == 1 && !d.commented && HasNoVariable(d.args[0])
  }

  ghost predicate HasSsl(ds: seq<Directive>) {
    exists d, a :: d in ds && d.name == "listen" && a in d.args && ReadsSsl(a)
  }

  ghost predicate ListensOn443(d: Directive) {
    d.name == "listen" && d.args != [] && HasNoVariable(d.args[0]) && !NamesSocket(d.args[0]) && EndsIn443(d.args[0])
  }

  ghost predicate IsFirstOn443(ds: seq<Directive>, i: nat)
    requires i < |ds|
  {
    ListensOn443(ds[i]) && forall k | 0 <= k < i :: !ListensOn443(ds[k])
  }

  /** What stands where directive i stood. */
  ghost function Becomes(ds: seq<Directive>, i: nat, fullchain: string, key: string): Directive
    requires i < |ds|
  {
    if ds[i].name == "ssl_certificate" then Directive("ssl_certificate", [fullchain], false)
    else if ds[i].name == "ssl_certificate_key" then Directive("ssl_certificate_key", [key], false)
    else if !HasSsl(ds) && IsFirstOn443(ds, i) then Directive("listen", ds[i].args + ["ssl"], ds[i].commented)
    else ds[i]
  }

  ghost predicate NoneNamed(ds: seq<Directive>, name: string) {
    forall d | d in ds :: d.name != name
  }

  /** Every directive in its place, what was missing behind them. */
  ghost predicate BoundAsAsked(ds: seq<Directive>, fullchain: string, key: string, after: seq<Directive>) {
    && |ds| <= |after| && (forall i | 0 <= i < |ds| :: after[i] == Becomes(ds, i, fullchain, key))
    && after[|ds|..]
       == (if !HasSsl(ds) && (forall d | d in ds :: !ListensOn443(d)) then [Directive("listen", ["443", "ssl"], false)]
           else [])
          + (if NoneNamed(ds, "ssl_certificate") then [Directive("ssl_certificate", [fullchain], false)] else [])
          + (if NoneNamed(ds, "ssl_certificate_key") then [Directive("ssl_certificate_key", [key], false)] else [])
  }

  lemma SslIsRead(a: string)
    ensures FoldsToSsl(a) <==> ReadsSsl(a)
  {
    if FoldsToSsl(a) {
      LowerIsLowerCase(Lower(a), a);
      assert Lower(a)[0] in "sſ" && Lower(a)[1] in "sſ" && Lower(a)[2] == 'l';
    }
  }

  lemma FoldedIsRead(ds: seq<Directive>)
    ensures FoldedTls(ds) <==> HasSsl(ds)
  {
    hide FoldsToSsl, ReadsSsl;
    forall a ensures FoldsToSsl(a) <==> ReadsSsl(a) { SslIsRead(a); }
  }

  lemma ListensIsRead(d: Directive)
    ensures Listens(d) && Is443(d.args[0]) <==> ListensOn443(d)
  {
    hide Is443, HasNoVariable, NamesSocket, EndsIn443;
    if Listens(d) { EndpointOn443(d.args[0]); }
  }

  lemma PlanIsRead(ds: seq<Directive>)
    ensures (PlanFor(ds) == Add) <==> !HasSsl(ds) && forall d | d in ds :: !ListensOn443(d)
    ensures forall i: nat | i < |ds| :: PlanFor(ds) == Extend(i) <==> !HasSsl(ds) && IsFirstOn443(ds, i)
    ensures PlanFor(ds).Extend? ==> PlanFor(ds).at < |ds|
  {
    FoldedIsRead(ds);
    forall d ensures Listens(d) && Is443(d.args[0]) <==> ListensOn443(d) { ListensIsRead(d); }
    hide Is443, Listens, ListensOn443, HasSsl, FoldedTls;
    var k := FirstOn443(ds);
    assert forall i | 0 <= i < k :: !ListensOn443(ds[i]);
    if k < |ds| { assert ds[k] in ds; }
    forall i: nat | i < |ds| && IsFirstOn443(ds, i) ensures i == k { }
  }

  lemma {:induction false} PlacesAreRead(ds: seq<Directive>, name: string)
    ensures Places(ds, name) == [] <==> NoneNamed(ds, name)
    ensures Settable(ds, name) <==> MaySet(ds, name)
  {
    var places := Places(ds, name);
    PlacesAscend(ds, name);
    forall d | d in ds && d.name == name ensures exists j | 0 <= j < |places| :: ds[places[j]] == d {
      var i :| 0 <= i < |ds| && ds[i] == d;
      assert i in places;
    }
    if places == [] {
    } else if |places| == 1 {
      OnePlace(ds, name, places[0]);
    } else {
      assert places[0] < places[1];
    }
  }

  lemma OnePlace(ds: seq<Directive>, name: string, i: nat)
    requires i < |ds| && ds[i].name == name && forall k | 0 <= k < |ds| && ds[k].name == name :: k == i
    ensures Replaceable(ds[i]) <==> MaySet(ds, name)
  {
    assert |ds[i].args| == 1 ==> ('$' !in ds[i].args[0] <==> HasNoVariable(ds[i].args[0]));
    assert forall d | d in ds && d.name == name :: d == ds[i];
    assert ds[i] in ds;
  }

  lemma {:induction false} PlacesAscend(ds: seq<Directive>, name: string)
    ensures forall j, k | 0 <= j < k < |Places(ds, name)| :: Places(ds, name)[j] < Places(ds, name)[k]
    decreases |ds|
  {
    if ds != [] { PlacesAscend(ds[..|ds| - 1], name); }
  }

  /** The bound block is the block with what the binding asks for. */
  lemma BindingIsAsAsked(ds: seq<Directive>, fullchain: string, key: string)
    ensures Bindable(ds) <==> MaySet(ds, "ssl_certificate") && MaySet(ds, "ssl_certificate_key")
    ensures BoundAsAsked(ds, fullchain, key, Bound(ds, fullchain, key))
  {
    PlacesAreRead(ds, CERTIFICATE);
    PlacesAreRead(ds, KEY);
    PlanIsRead(ds);
    hide PlanFor, Places, Settable, MaySet, HasSsl, IsFirstOn443, ListensOn443, NoneNamed;
    var after := Bound(ds, fullchain, key);
    assert after[|ds|..] == Appended(ds, fullchain, key);
    forall i | 0 <= i < |ds| ensures after[i] == Becomes(ds, i, fullchain, key) {
      ListenIsNoKey(ds, i);
    }
  }

  lemma ListenIsNoKey(ds: seq<Directive>, i: nat)
    requires i < |ds|
    ensures IsFirstOn443(ds, i) ==> ds[i].name == "listen"
  {
  }

  /** Plans the binding of one server: an error unless each directive is there at most once and can be replaced. */
  method PlanServerBinding(ds: seq<Directive>, fullchain: string, key: string) returns (r: Option<seq<Directive>>)
    ensures r == if Bindable(ds) then Some(Bound(ds, fullchain, key)) else None
    ensures r.Some? <==> MaySet(ds, "ssl_certificate") && MaySet(ds, "ssl_certificate_key")
    ensures r.Some? ==> BoundAsAsked(ds, fullchain, key, r.value)
  {
    BindingIsAsAsked(ds, fullchain, key);
    hide PlanFor, Replaceable, MaySet, BoundAsAsked;
    var certificates, keys := Places(ds, CERTIFICATE), Places(ds, KEY);
    if |certificates| > 1 || |keys| > 1 {
      return None;
    }
    if |certificates| == 1 && !Replaceable(ds[certificates[0]]) {
      return None;
    }
    if |keys| == 1 && !Replaceable(ds[keys[0]]) {
      return None;
    }
    var plan := PlanTlsListen(ds);
    var appended := if plan == Add then [LISTEN_443] else [];
    if |certificates| == 0 {
      appended := appended + [Static(CERTIFICATE, fullchain)];
    }
    if |keys| == 0 {
      appended := appended + [Static(KEY, key)];
    }
    assert appended == Appended(ds, fullchain, key);
    return Some(WithStatic(WithStatic(Extended(ds, plan), CERTIFICATE, fullchain), KEY, key) + appended);
  }

  // ----- unbinding one server

  predicate Binds(d: Directive) {
    d.name == CERTIFICATE || d.name == KEY
  }

  /** The server without its certificate directives. */
  function Unbound(ds: seq<Directive>): seq<Directive> {
    if ds == [] then []
    else Unbound(ds[..|ds| - 1]) + if Binds(ds[|ds| - 1]) then [] else [ds[|ds| - 1]]
  }

  /** Exactly one directive of each name, with this value. */
  predicate Unbindable(ds: seq<Directive>, fullchain: string, key: string) {
    var certificates, keys := Places(ds, CERTIFICATE), Places(ds, KEY);
    && |certificates| == 1 && |keys| == 1
    && HasExactly(ds[certificates[0]], fullchain) && HasExactly(ds[keys[0]], key)
  }

  predicate HasExactly(d: Directive, value: string) {
    |d.args| == 1 && '$' !in d.args[0] && d.args[0] == value
  }

  lemma {:induction false} UnboundJoins(a: seq<Directive>, b: seq<Directive>)
    ensures Unbound(a + b) == Unbound(a) + Unbound(b)
    decreases |b|
  {
    if b == [] {
      assert a + b == a;
    } else {
      assert (a + b)[..|a + b| - 1] == a + b[..|b| - 1];
      UnboundJoins(a, b[..|b| - 1]);
    }
  }

  lemma {:induction false} UnboundAgrees(a: seq<Directive>, b: seq<Directive>)
    requires |a| == |b| && forall i | 0 <= i < |a| :: (Binds(a[i]) && Binds(b[i])) || (a[i] == b[i] && !Binds(a[i]))
    ensures Unbound(a) == Unbound(b)
    decreases |a|
  {
    if a != [] { UnboundAgrees(a[..|a| - 1], b[..|b| - 1]); }
  }

  lemma AppendedUnbound(ds: seq<Directive>, fullchain: string, key: string)
    ensures Unbound(Appended(ds, fullchain, key)) == if PlanFor(ds) == Add then [LISTEN_443] else []
  {
    hide PlanFor, Places;
    OtherName();
    var listen := if PlanFor(ds) == Add then [LISTEN_443] else [];
    var certificate := if Places(ds, CERTIFICATE) == [] then [Static(CERTIFICATE, fullchain)] else [];
    var secret := if Places(ds, KEY) == [] then [Static(KEY, key)] else [];
    UnboundJoins(listen + certificate, secret);
    UnboundJoins(listen, certificate);
  }

  /** Unbinding leaves of a binding what it did to the listen directives, and nothing else. */
  lemma UnbindingUndoesBinding(ds: seq<Directive>, fullchain: string, key: string)
    ensures Unbound(Bound(ds, fullchain, key))
            == Unbound(Extended(ds, PlanFor(ds))) + if PlanFor(ds) == Add then [LISTEN_443] else []
  {
    OtherName();
    BoundIs(ds, fullchain, key);
    PlanExtendsListen(ds);
    hide PlanFor, Bound, Appended, Unbound;
    UnboundJoins(Rewritten(ds, fullchain, key), Appended(ds, fullchain, key));
    UnboundAgrees(Rewritten(ds, fullchain, key), Extended(ds, PlanFor(ds)));
    AppendedUnbound(ds, fullchain, key);
  }

  lemma {:induction false} PlacesJoin(a: seq<Directive>, b: seq<Directive>, name: string)
    ensures |Places(a + b, name)| == |Places(a, name)| + |Places(b, name)|
    decreases |b|
  {
    if b == [] {
      assert a + b == a;
    } else {
      assert (a + b)[..|a + b| - 1] == a + b[..|b| - 1];
      PlacesJoin(a, b[..|b| - 1], name);
    }
  }

  lemma {:induction false} PlacesAgree(a: seq<Directive>, b: seq<Directive>, name: string)
    requires |a| == |b| && forall i | 0 <= i < |a| :: a[i].name == b[i].name
    ensures |Places(a, name)| == |Places(b, name)|
    decreases |a|
  {
    if a != [] { PlacesAgree(a[..|a| - 1], b[..|b| - 1], name); }
  }

  lemma AppendedPlaces(ds: seq<Directive>, fullchain: string, key: string, name: string)
    requires name == CERTIFICATE || name == KEY
    ensures |Places(Appended(ds, fullchain, key), name)| == if Places(ds, name) == [] then 1 else 0
  {
    hide PlanFor;
    OtherName();
    var listen := if PlanFor(ds) == Add then [LISTEN_443] else [];
    var certificate := if Places(ds, CERTIFICATE) == [] then [Static(CERTIFICATE, fullchain)] else [];
    var secret := if Places(ds, KEY) == [] then [Static(KEY, key)] else [];
    PlacesJoin(listen + certificate, secret, name);
    PlacesJoin(listen, certificate, name);
  }

  lemma OnlyPlace(ds: seq<Directive>, fullchain: string, key: string, name: string)
    requires (name == CERTIFICATE || name == KEY) && |Places(ds, name)| <= 1
    ensures |Places(Bound(ds, fullchain, key), name)| == 1
  {
    BoundIs(ds, fullchain, key);
    hide PlanFor, Bound, Appended, Places;
    PlacesJoin(Rewritten(ds, fullchain, key), Appended(ds, fullchain, key), name);
    PlacesAgree(Rewritten(ds, fullchain, key), ds, name);
    AppendedPlaces(ds, fullchain, key, name);
  }

  lemma OnlyPlaceHolds(ds: seq<Directive>, fullchain: string, key: string, name: string, value: string)
    requires (name == CERTIFICATE || name == KEY) && |Places(ds, name)| <= 1
    requires value == (if name == CERTIFICATE then fullchain else key) && '$' !in value
    ensures var places := Places(Bound(ds, fullchain, key), name);
      |places| == 1 && HasExactly(Bound(ds, fullchain, key)[places[0]], value)
  {
    var after := Bound(ds, fullchain, key);
    OnlyPlace(ds, fullchain, key, name);
    BoundPlaces(ds, fullchain, key, name);
    hide Bound;
    assert after[Places(after, name)[0]] in after;
  }

  /** What has been bound can be unbound again. */
  lemma BoundIsUnbindable(ds: seq<Directive>, fullchain: string, key: string)
    requires Bindable(ds) && '$' !in fullchain && '$' !in key
    ensures Unbindable(Bound(ds, fullchain, key), fullchain, key)
  {
    hide Bound, Places, HasExactly, Replaceable;
    OtherName();
    OnlyPlaceHolds(ds, fullchain, key, CERTIFICATE, fullchain);
    OnlyPlaceHolds(ds, fullchain, key, KEY, key);
  }

  // ----- identities

  function Slots(words: seq<string>): seq<string> {
    if words == [] then [""] else words
  }

  const SEPARATOR := '\0'

  /** What is digested: the path, the names and the listeners, each word ended by a zero byte. */
  function Fingerprint(path: string, names: seq<string>, listeners: seq<string>): string {
    path + [SEPARATOR] + Join(names, SEPARATOR) + [SEPARATOR] + Join(listeners, SEPARATOR)
  }

  predicate Plain(words: seq<string>) {
    words != [] && forall w | w in words :: SEPARATOR !in w
  }

  lemma {:induction false} JoinOfTwo(a: seq<string>, b: seq<string>)
    requires a != [] && b != []
    ensures Join(a + b, SEPARATOR) == Join(a, SEPARATOR) + [SEPARATOR] + Join(b, SEPARATOR)
    decreases |a|
  {
    assert (a + b)[1..] == a[1..] + b;
    if |a| > 1 { JoinOfTwo(a[1..], b); }
  }

  lemma FirstWordIsSame(a: string, x: string, b: string, y: string)
    requires SEPARATOR !in a && SEPARATOR !in b && a + x == b + y
    requires (x == "" || x[0] == SEPARATOR) && (y == "" || y[0] == SEPARATOR)
    ensures a == b && x == y
  {
    WordThenSeparator(a, x);
    WordThenSeparator(b, y);
    assert |a| == |b|;
    assert a == (a + x)[..|a|] && b == (b + y)[..|b|] && x == (a + x)[|a|..] && y == (b + y)[|b|..];
  }

  lemma WordThenSeparator(word: string, rest: string)
    requires SEPARATOR !in word && (rest == "" || rest[0] == SEPARATOR)
    ensures forall i | 0 <= i < |word| :: (word + rest)[i] != SEPARATOR
    ensures |word| < |word + rest| ==> (word + rest)[|word|] == SEPARATOR
  {
    assert forall i | 0 <= i < |word| :: (word + rest)[i] == word[i] && word[i] in word;
  }

  lemma {:induction false} JoinIsInjective(a: seq<string>, b: seq<string>)
    requires Plain(a) && Plain(b) && Join(a, SEPARATOR) == Join(b, SEPARATOR)
    ensures a == b
    decreases |a|
  {
    var x := if |a| == 1 then "" else [SEPARATOR] + Join(a[1..], SEPARATOR);
    var y := if |b| == 1 then "" else [SEPARATOR] + Join(b[1..], SEPARATOR);
    assert Join(a, SEPARATOR) == a[0] + x && Join(b, SEPARATOR) == b[0] + y;
    FirstWordIsSame(a[0], x, b[0], y);
    if |a| > 1 {
      assert x[1..] == Join(a[1..], SEPARATOR) && y[1..] == Join(b[1..], SEPARATOR);
      JoinIsInjective(a[1..], b[1..]);
      assert a == [a[0]] + a[1..] && b == [b[0]] + b[1..];
    } else {
      assert a == [a[0]] && b == [b[0]];
    }
  }

  lemma FingerprintIsJoin(path: string, names: seq<string>, listeners: seq<string>)
    ensures Fingerprint(path, names, listeners) == Join([path] + Slots(names) + Slots(listeners), SEPARATOR)
  {
    JoinOfTwo([path] + Slots(names), Slots(listeners));
    JoinOfTwo([path], Slots(names));
  }

  lemma AllPlain(path: string, names: seq<string>, listeners: seq<string>)
    requires SEPARATOR !in path && forall w | w in names + listeners :: Kept(w)
    ensures Plain([path] + Slots(names) + Slots(listeners))
  {
    forall w | w in [path] + Slots(names) + Slots(listeners) ensures SEPARATOR !in w {
      if w != path && w != "" { assert w in names || w in listeners; assert w in names + listeners; }
    }
  }

  /**
   * Two servers have the same identity exactly when their path is the same and their names
   * followed by their listeners are: where the names end is not told apart.
   */
  lemma FingerprintIsExact(p: string, n: seq<string>, l: seq<string>, q: string, m: seq<string>, k: seq<string>)
    requires SEPARATOR !in p && SEPARATOR !in q && forall w | w in n + l || w in m + k :: Kept(w)
    ensures Fingerprint(p, n, l) == Fingerprint(q, m, k) <==> p == q && Slots(n) + Slots(l) == Slots(m) + Slots(k)
  {
    FingerprintIsJoin(p, n, l);
    FingerprintIsJoin(q, m, k);
    AllPlain(p, n, l);
    AllPlain(q, m, k);
    var a, b := [p] + Slots(n) + Slots(l), [q] + Slots(m) + Slots(k);
    assert a == [p] + (Slots(n) + Slots(l)) && b == [q] + (Slots(m) + Slots(k));
    assert a[1..] == Slots(n) + Slots(l) && b[1..] == Slots(m) + Slots(k) && a[0] == p && b[0] == q;
    if Join(a, SEPARATOR) == Join(b, SEPARATOR) { JoinIsInjective(a, b); }
  }

  /** For instance, a name that reads like a listener: only the place of the second word differs. */
  lemma NamesRunIntoListeners()
    ensures Fingerprint("a.conf", ["a.org", "b.org"], ["80"]) == Fingerprint("a.conf", ["a.org"], ["b.org", "80"])
  {
    var l: seq<string>, k: seq<string> := ["80"], ["b.org", "80"];
    assert ["a.org", "b.org"][1..] == ["b.org"] && k[1..] == l;
  }

  /** A long s is enough: for this listener the prediction adds one that the source never has. */
  lemma LongSFolds()
    ensures var ds := [Directive("listen", ["80", "\U{017F}sl"], false)];
      !NoFoldingAlone(ds) && !ChangeIsInvisible(ds)
  {
    var d := Directive("listen", ["80", "\U{017F}sl"], false);
    LongSListener(d.args);
    assert d in [d];
    OneListener(d);
    OffPort443();
    assert FirstOn443([d]) == 1;
  }

  lemma OffPort443()
    ensures !Is443("80") && !Is443("443 ssl") && Lower("443 ssl") == "443 ssl"
  {
    assert Lower("80")[0] == '8' && "443"[0] == '4' && |Lower("80")| == 2;
    assert Lower("443 ssl") == "443 ssl" && "443 ssl"[3..] == " ssl" && ":443"[0] == ':';
  }

  lemma LongSListener(args: seq<string>)
    requires args == ["80", "\U{017F}sl"]
    ensures (exists a | a in args :: FoldsToSsl(a)) && "ssl" !in LowerAll(args)
    ensures Join(LowerAll(args), ' ') != "443 ssl"
  {
    var words := LowerAll(args);
    assert |words[0]| == 2 && words[0][0] == '8' && words[1][0] == '\U{017F}';
    assert args[1] in args && FoldsToSsl(args[1]);
    assert words == [words[0], words[1]] && "ssl"[0] == 's';
    assert Join(words, ' ')[0] == '8' && "443 ssl"[0] == '4';
  }

  lemma TwoOff443(c: Directive, d: Directive)
    requires Listens(c) && !Is443(c.args[0]) && Listens(d) && !Is443(d.args[0])
    ensures FirstOn443([c, d]) == 2 && Listener(c) in RawListeners([c, d])
  {
    hide Is443, Listener;
    assert [c, d][1..] == [d] && [d][1..] == [];
    assert FirstOn443([d]) == 1;
    OneListener(c);
    ListenersJoin([c], [d]);
    assert [c, d] == [c] + [d];
    assert RawListeners([c, d])[0] == Listener(c);
  }

  lemma FoldsAlone(c: Directive, d: Directive)
    requires c.name == "listen" && "ssl" !in LowerAll(c.args)
    requires d.name == "listen" && "ssl" !in LowerAll(d.args) && exists a | a in d.args :: FoldsToSsl(a)
    ensures !NoFoldingAlone([c, d])
  {
    hide FoldsToSsl, LowerAll;
    assert d in [c, d];
  }

  /** With a listener that reads the same as the added one, written as one argument, the difference cannot be seen. */
  lemma QuotedListenerHidesIt()
    ensures var ds := [Directive("listen", ["443 ssl"], false), Directive("listen", ["80", "\U{017F}sl"], false)];
      !NoFoldingAlone(ds) && ChangeIsInvisible(ds)
  {
    var c, d := Directive("listen", ["443 ssl"], false), Directive("listen", ["80", "\U{017F}sl"], false);
    LongSListener(d.args);
    OffPort443();
    OneQuoted(c.args);
    hide *;
    FoldsAlone(c, d);
    TwoOff443(c, d);
  }

  lemma OneQuoted(args: seq<string>)
    requires args == ["443 ssl"]
    ensures Join(LowerAll(args), ' ') == "443 ssl" && "ssl" !in LowerAll(args)
  {
    OffPort443();
    assert LowerAll(args) == ["443 ssl"];
    assert |"443 ssl"| == 7 && |"ssl"| == 3;
  }
}
