/** The tokenizer of exec command lines (splitCmd in src/internal/sshserver/exec.go). */
module Exec {
  import opened Wrappers

  predicate IsQuote(c: char) {
    c == '"' || c == '\''
  }

  /** unicode.IsSpace. */
  predicate IsSpace(c: char) {
    || '\t' <= c <= '\r' || c == ' ' || c == '\U{85}' || c == '\U{A0}' || c == '\U{1680}'
    || '\U{2000}' <= c <= '\U{200A}' || c == '\U{2028}' || c == '\U{2029}' || c == '\U{202F}'
    || c == '\U{205F}' || c == '\U{3000}'
  }

  /** The characters with the property White_Space of the Unicode Character Database. */
  const WHITE: string :=
    "\t\n\U{0B}\U{0C}\r \U{85}\U{A0}\U{1680}\U{2000}\U{2001}\U{2002}\U{2003}\U{2004}\U{2005}\U{2006}"
    + "\U{2007}\U{2008}\U{2009}\U{200A}\U{2028}\U{2029}\U{202F}\U{205F}\U{3000}"

  // ---------------------------------------------------------- grammar of a line

  /** A command line is a row of pieces: white space, bare characters and closed quoted runs. */
  datatype Piece = Space(c: char) | Bare(c: char) | Quoted(q: char, body: string)

  /** Whether `q` does not occur. */
  predicate Lacks(s: string, q: char) {
    forall i :: 0 <= i < |s| ==> s[i] != q
  }

  predicate WellFormed(p: Piece) {
    match p
    case Space(c) => IsSpace(c)
    case Bare(c) => !IsSpace(c) && !IsQuote(c)
    case Quoted(q, body) => IsQuote(q) && Lacks(body, q)
  }

  predicate Line(ps: seq<Piece>) {
    forall i :: 0 <= i < |ps| ==> WellFormed(ps[i])
  }

  function PieceText(p: Piece): string {
    match p
    case Space(c) => [c]
    case Bare(c) => [c]
    case Quoted(q, body) => [q] + body + [q]
  }

  function Text(ps: seq<Piece>): string {
    if ps == [] then "" else PieceText(ps[0]) + Text(ps[1..])
  }

  function PieceValue(p: Piece): string {
    match p
    case Space(_) => ""
    case Bare(c) => [c]
    case Quoted(_, body) => body
  }

  /** What a group of pieces without space contributes to its argument. */
  function Value(ps: seq<Piece>): string {
    if ps == [] then "" else PieceValue(ps[0]) + Value(ps[1..])
  }

  /** How many pieces come before the first space. */
  function GroupLength(ps: seq<Piece>): (n: nat)
    ensures n <= |ps| && forall i :: 0 <= i < n ==> !ps[i].Space?
    ensures n < |ps| ==> ps[n].Space?
  {
    if ps == [] || ps[0].Space? then 0 else 1 + GroupLength(ps[1..])
  }

  /** One argument for each longest group of pieces without space. */
  function Args(ps: seq<Piece>): seq<string> {
    if ps == [] then []
    else if ps[0].Space? then Args(ps[1..])
    else
      var n := GroupLength(ps);
      [Value(ps[..n])] + Args(ps[n..])
  }

  // -------------------------------------------------------- reading the pieces

  function Then(ps: seq<Piece>, rest: Option<seq<Piece>>): Option<seq<Piece>> {
    if rest.None? then None else Some(ps + rest.value)
  }

  function Find(s: string, q: char): (n: nat)
    ensures n <= |s| && Lacks(s[..n], q) && (n < |s| ==> s[n] == q)
  {
    if s == "" || s[0] == q then 0 else 1 + Find(s[1..], q)
  }

  /** The pieces a line consists of; None if its last quoted run is never closed. */
  function Lex(s: string): Option<seq<Piece>>
    decreases |s|
  {
    if s == "" then Some([])
    else if IsQuote(s[0]) then
      var n := Find(s[1..], s[0]);
      if n == |s| - 1 then None else Then([Quoted(s[0], s[1..n + 1])], Lex(s[n + 2..]))
    else Then([if IsSpace(s[0]) then Space(s[0]) else Bare(s[0])], Lex(s[1..]))
  }

  datatype Result = Ok(args: seq<string>) | UnclosedQuote

  function Split(s: string): Result {
    var pieces := Lex(s);
    if pieces.None? then UnclosedQuote else Ok(Args(pieces.value))
  }

  lemma FindIs(s: string, q: char, n: nat)
    requires n <= |s| && Lacks(s[..n], q) && (n < |s| ==> s[n] == q)
    ensures Find(s, q) == n
  {
  }

  lemma TextCons(p: Piece, ps: seq<Piece>)
    ensures Text([p] + ps) == PieceText(p) + Text(ps)
  {
    var all := [p] + ps;
    assert all[0] == p && all[1..] == ps;
  }

  lemma TextThen(p: Piece, ps: seq<Piece>, rest: string)
    ensures Text([p] + ps) + rest == PieceText(p) + (Text(ps) + rest)
  {
    TextCons(p, ps);
    Regroup(PieceText(p), Text(ps), rest);
  }

  /** Whether the line is nothing but a quoted run that is never closed. */
  predicate OpensOnly(s: string) {
    s != "" && IsQuote(s[0]) && Find(s[1..], s[0]) == |s| - 1
  }

  /** The first piece of a line and what is left behind it. */
  lemma LexFirst(s: string) returns (p: Piece, n: nat)
    requires s != "" && !OpensOnly(s)
    ensures 0 < n <= |s| && WellFormed(p) && PieceText(p) == s[..n]
    ensures Lex(s) == Then([p], Lex(s[n..]))
  {
    if IsQuote(s[0]) {
      var m := Find(s[1..], s[0]);
      p, n := Quoted(s[0], s[1..m + 1]), m + 2;
      assert s[1..][..m] == s[1..m + 1];
    } else {
      p, n := if IsSpace(s[0]) then Space(s[0]) else Bare(s[0]), 1;
    }
  }

  /** Reading takes a line apart into well-formed pieces that make it up. */
  lemma {:induction false} LexText(s: string)
    requires Lex(s).Some?
    ensures Line(Lex(s).value) && Text(Lex(s).value) == s
    decreases |s|
  {
    if s != "" {
      var p, n := LexFirst(s);
      LexText(s[n..]);
      TextCons(p, Lex(s[n..]).value);
      assert s == s[..n] + s[n..];
    }
  }

  lemma LexPiece(p: Piece, rest: string)
    requires WellFormed(p)
    ensures Lex(PieceText(p) + rest) == Then([p], Lex(rest))
  {
    var s := PieceText(p) + rest;
    if p.Quoted? {
      assert s[1..] == p.body + [p.q] + rest;
      assert s[1..][..|p.body|] == p.body;
      FindIs(s[1..], p.q, |p.body|);
      assert s[1..|p.body| + 1] == p.body;
      assert s[|p.body| + 2..] == rest;
    } else {
      assert s[1..] == rest;
    }
  }

  lemma ThenThen(p: Piece, ps: seq<Piece>, rest: Option<seq<Piece>>)
    ensures Then([p], Then(ps, rest)) == Then([p] + ps, rest)
    ensures Then([], rest) == rest
  {
    if rest.Some? {
      assert [p] + (ps + rest.value) == [p] + ps + rest.value;
      assert [] + rest.value == rest.value;
    }
  }

  /** Only one row of pieces makes up a line, so reading finds the very pieces written. */
  lemma {:induction false} LexAll(ps: seq<Piece>, rest: string)
    requires Line(ps)
    ensures Lex(Text(ps) + rest) == Then(ps, Lex(rest))
  {
    if ps == [] {
      assert Text(ps) + rest == rest;
      ThenThen(Bare('a'), [], Lex(rest));
    } else {
      LexAll(ps[1..], rest);
      LexPiece(ps[0], Text(ps[1..]) + rest);
      TextThen(ps[0], ps[1..], rest);
      ThenThen(ps[0], ps[1..], Lex(rest));
      assert [ps[0]] + ps[1..] == ps;
    }
  }

  /** Every line made of closed pieces is split into one argument for each group. */
  lemma SplitsLines(ps: seq<Piece>)
    requires Line(ps)
    ensures Split(Text(ps)) == Ok(Args(ps))
  {
    LexAll(ps, "");
    assert Text(ps) + "" == Text(ps) && ps + [] == ps;
  }

  /** The line is closed pieces and then a quoted run that is never closed. */
  predicate OpenAfter(s: string, ps: seq<Piece>, q: char, body: string) {
    Line(ps) && IsQuote(q) && Lacks(body, q) && s == Text(ps) + ([q] + body)
  }

  lemma OpenLater(s: string, p: Piece, n: nat, ps: seq<Piece>, q: char, body: string)
    requires n <= |s| && WellFormed(p) && PieceText(p) == s[..n] && OpenAfter(s[n..], ps, q, body)
    ensures OpenAfter(s, [p] + ps, q, body)
  {
    TextThen(p, ps, [q] + body);
    assert s == s[..n] + s[n..];
  }

  lemma {:induction false} OpenTail(s: string) returns (ps: seq<Piece>, q: char, body: string)
    requires Lex(s).None?
    ensures OpenAfter(s, ps, q, body)
    decreases |s|
  {
    if OpensOnly(s) {
      assert s[1..][..|s| - 1] == s[1..];
      return [], s[0], s[1..];
    }
    var p, n := LexFirst(s);
    ps, q, body := OpenTail(s[n..]);
    OpenLater(s, p, n, ps, q, body);
    ps := [p] + ps;
  }

  lemma OpenFails(s: string, ps: seq<Piece>, q: char, body: string)
    requires OpenAfter(s, ps, q, body)
    ensures Split(s) == UnclosedQuote
  {
    var tail := [q] + body;
    LexAll(ps, tail);
    assert tail[1..] == body && body[..|body|] == body;
    FindIs(body, q, |body|);
  }

  /** The tokenizer fails on exactly the lines that end inside a quoted run. */
  lemma FailsIffLeftOpen(s: string)
    ensures Split(s) == UnclosedQuote <==> exists ps, q, body :: OpenAfter(s, ps, q, body)
  {
    forall ps, q, body | OpenAfter(s, ps, q, body)
      ensures Split(s) == UnclosedQuote
    {
      OpenFails(s, ps, q, body);
    }
    if Split(s) == UnclosedQuote {
      var ps, q, body := OpenTail(s);
    }
  }

  // ---------------------------------------------------------------- arguments

  predicate Group(ps: seq<Piece>) {
    forall i :: 0 <= i < |ps| ==> !ps[i].Space?
  }

  lemma GroupLengthIs(ps: seq<Piece>, n: nat)
    requires n <= |ps| && Group(ps[..n]) && (n < |ps| ==> ps[n].Space?)
    ensures GroupLength(ps) == n
  {
    assert forall i :: 0 <= i < n ==> !ps[..n][i].Space? && ps[..n][i] == ps[i];
  }

  lemma ArgsGroup(group: seq<Piece>, rest: seq<Piece>)
    requires group != [] && Group(group) && (rest == [] || rest[0].Space?)
    ensures Args(group + rest) == [Value(group)] + Args(rest)
  {
    var ps := group + rest;
    assert ps[..|group|] == group && ps[|group|..] == rest;
    GroupLengthIs(ps, |group|);
  }

  lemma CutAt<T>(a: seq<T>, n: nat, b: seq<T>)
    requires n <= |a|
    ensures a + b == a[..n] + (a[n..] + b)
  {
  }

  lemma FirstGroup(ps: seq<Piece>)
    ensures Group(ps[..GroupLength(ps)])
  {
  }

  /** Behind a space the arguments start afresh. */
  lemma {:induction false} ArgsAfterSpace(closed: seq<Piece>, rest: seq<Piece>)
    requires closed == [] || closed[|closed| - 1].Space?
    ensures Args(closed + rest) == Args(closed) + Args(rest)
    decreases |closed|
  {
    if closed == [] {
      assert closed + rest == rest;
    } else if closed[0].Space? {
      ArgsAfterSpace(closed[1..], rest);
      assert (closed + rest)[1..] == closed[1..] + rest;
    } else {
      var n := GroupLength(closed);
      ArgsAfterSpace(closed[n..], rest);
      FirstGroup(closed);
      ArgsGroup(closed[..n], closed[n..] + rest);
      CutAt(closed, n, rest);
      Regroup([Value(closed[..n])], Args(closed[n..]), Args(rest));
    }
  }

  lemma ValueCons(p: Piece, ps: seq<Piece>)
    ensures Value([p] + ps) == PieceValue(p) + Value(ps)
  {
    var all := [p] + ps;
    assert all[0] == p && all[1..] == ps;
  }

  lemma {:induction false} ValueSnoc(ps: seq<Piece>, p: Piece)
    ensures Value(ps + [p]) == Value(ps) + PieceValue(p)
  {
    if ps == [] {
      ValueCons(p, []);
      assert ps + [p] == [p] + [];
    } else {
      ValueSnoc(ps[1..], p);
      ValueCons(ps[0], ps[1..] + [p]);
      assert ps + [p] == [ps[0]] + (ps[1..] + [p]);
      Regroup(PieceValue(ps[0]), Value(ps[1..]), PieceValue(p));
    }
  }

  // ----------------------------------------------------------- a quoting printer

  /** An argument as double-quoted runs, and single-quoted ones for its double quotes. */
  function Runs(arg: string): (ps: seq<Piece>)
    ensures arg != "" ==> ps != []
    decreases |arg|
  {
    if arg == "" then []
    else
      var q := if arg[0] == '"' then '\'' else '"';
      var n := Find(arg, q);
      [Quoted(q, arg[..n])] + Runs(arg[n..])
  }

  lemma RunThenRuns(p: Piece, ps: seq<Piece>)
    requires p.Quoted? && WellFormed(p) && Line(ps) && Group(ps)
    ensures Line([p] + ps) && Group([p] + ps) && Value([p] + ps) == p.body + Value(ps)
  {
    ValueCons(p, ps);
  }

  lemma FirstRun(arg: string) returns (q: char, n: nat)
    requires arg != ""
    ensures 0 < n <= |arg| && WellFormed(Quoted(q, arg[..n]))
    ensures Runs(arg) == [Quoted(q, arg[..n])] + Runs(arg[n..])
  {
    q := if arg[0] == '"' then '\'' else '"';
    n := Find(arg, q);
  }

  lemma {:induction false} RunsMean(arg: string)
    ensures Line(Runs(arg)) && Group(Runs(arg)) && Value(Runs(arg)) == arg
    decreases |arg|
  {
    if arg != "" {
      var q, n := FirstRun(arg);
      RunsMean(arg[n..]);
      RunThenRuns(Quoted(q, arg[..n]), Runs(arg[n..]));
      assert arg == arg[..n] + arg[n..];
    }
  }

  function PrintedArg(arg: string): (ps: seq<Piece>)
    ensures Line(ps) && Group(ps) && ps != [] && Value(ps) == arg
  {
    RunsMean(arg);
    if arg == "" then [Quoted('"', "")] else Runs(arg)
  }

  function Printed(args: seq<string>): seq<Piece> {
    if args == [] then []
    else if |args| == 1 then PrintedArg(args[0])
    else PrintedArg(args[0]) + [Space(' ')] + Printed(args[1..])
  }

  lemma GroupThenMore(group: seq<Piece>, more: seq<Piece>)
    requires Line(group) && Group(group) && group != [] && Line(more)
    ensures Line(group + [Space(' ')] + more)
    ensures Args(group + [Space(' ')] + more) == [Value(group)] + Args(more)
  {
    var rest := [Space(' ')] + more;
    assert rest[1..] == more && group + [Space(' ')] + more == group + rest;
    ArgsGroup(group, rest);
  }

  lemma {:induction false} PrintedMeans(args: seq<string>)
    ensures Line(Printed(args)) && Args(Printed(args)) == args
  {
    if args != [] {
      var first, more := PrintedArg(args[0]), args[1..];
      assert args == [args[0]] + more;
      if more == [] {
        ArgsGroup(first, []);
        assert first + [] == first;
      } else {
        PrintedMeans(more);
        GroupThenMore(first, Printed(more));
      }
    }
  }

  /** Splitting gives back any list of strings, with empty ones and either quote character in them. */
  lemma PrintSplitRoundTrip(args: seq<string>)
    ensures Split(Text(Printed(args))) == Ok(args)
  {
    PrintedMeans(args);
    SplitsLines(Printed(args));
  }

  // ------------------------------------------------------------ words and white space

  /** The ranges of `IsSpace` are the 25 characters listed, one by one. */
  lemma SpaceIsListed(c: char)
    ensures IsSpace(c) <==> c in WHITE
  {
    var code := c as int;
    assert c == code as char;
    if 0x2000 <= code <= 0x200a {
      assert WHITE[9 + (code - 0x2000)] == c;
    } else if 9 <= code <= 13 {
      assert WHITE[code - 9] == c;
    } else if IsSpace(c) {
      assert c == WHITE[5] || c == WHITE[6] || c == WHITE[7] || c == WHITE[8] || c == WHITE[20] || c == WHITE[21]
          || c == WHITE[22] || c == WHITE[23] || c == WHITE[24];
    }
  }

  predicate Blank(s: string) {
    forall i :: 0 <= i < |s| ==> s[i] in WHITE
  }

  predicate Word(s: string) {
    s != "" && forall i :: 0 <= i < |s| ==> s[i] !in WHITE && s[i] != '"' && s[i] != '\''
  }

  /** A gap before each word and one behind the last; between words there is at least one character. */
  predicate WordsAndGaps(words: seq<string>, gaps: seq<string>) {
    && |gaps| == |words| + 1
    && (forall i :: 0 <= i < |words| ==> Word(words[i]))
    && (forall i :: 0 <= i < |gaps| ==> Blank(gaps[i]) && (0 < i < |words| ==> gaps[i] != ""))
  }

  function Spread(words: seq<string>, gaps: seq<string>): string
    requires |gaps| == |words| + 1
  {
    if words == [] then gaps[0] else gaps[0] + (words[0] + Spread(words[1..], gaps[1..]))
  }

  function Each(s: string): seq<Piece> {
    seq(|s|, i requires 0 <= i < |s| => if IsSpace(s[i]) then Space(s[i]) else Bare(s[i]))
  }

  lemma EachCons(s: string)
    requires s != ""
    ensures Each(s) == [Each(s)[0]] + Each(s[1..])
  {
  }

  lemma {:induction false} EachMeans(s: string)
    requires forall i :: 0 <= i < |s| ==> !IsQuote(s[i])
    ensures Line(Each(s)) && Text(Each(s)) == s
    ensures Group(Each(s)) ==> Value(Each(s)) == s
  {
    if s != "" {
      EachMeans(s[1..]);
      EachCons(s);
      TextCons(Each(s)[0], Each(s[1..]));
      ValueCons(Each(s)[0], Each(s[1..]));
      assert Group(Each(s)) ==> Group(Each(s[1..])) by { assert Each(s)[1..] == Each(s[1..]); }
      assert s == [s[0]] + s[1..];
    }
  }

  lemma TextJoinCons(p: Piece, ps: seq<Piece>, rest: seq<Piece>)
    requires Text(ps + rest) == Text(ps) + Text(rest)
    ensures Text([p] + ps + rest) == Text([p] + ps) + Text(rest)
  {
    TextThen(p, ps, Text(rest));
    TextCons(p, ps + rest);
    Regroup([p], ps, rest);
  }

  lemma {:induction false} TextJoin(ps: seq<Piece>, rest: seq<Piece>)
    ensures Text(ps + rest) == Text(ps) + Text(rest)
  {
    if ps == [] {
      assert ps + rest == rest;
    } else {
      TextJoin(ps[1..], rest);
      TextJoinCons(ps[0], ps[1..], rest);
      assert [ps[0]] + ps[1..] == ps;
    }
  }

  lemma BlankGap(gap: string, rest: seq<Piece>)
    requires Blank(gap)
    ensures Line(Each(gap)) && Text(Each(gap)) == gap && Args(Each(gap) + rest) == Args(rest)
    ensures gap != "" ==> Each(gap)[0].Space?
  {
    forall i | 0 <= i < |gap|
      ensures IsSpace(gap[i]) && !IsQuote(gap[i])
    {
      SpaceIsListed(gap[i]);
    }
    EachMeans(gap);
    OnlySpace(Each(gap), rest);
  }

  lemma {:induction false} OnlySpace(ps: seq<Piece>, rest: seq<Piece>)
    requires forall i :: 0 <= i < |ps| ==> ps[i].Space?
    ensures Args(ps + rest) == Args(rest)
  {
    if ps == [] {
      assert ps + rest == rest;
    } else {
      OnlySpace(ps[1..], rest);
      assert (ps + rest)[1..] == ps[1..] + rest;
    }
  }

  lemma PlainWord(word: string, rest: seq<Piece>)
    requires Word(word) && (rest == [] || rest[0].Space?)
    ensures Line(Each(word)) && Text(Each(word)) == word && Args(Each(word) + rest) == [word] + Args(rest)
  {
    forall i | 0 <= i < |word|
      ensures !IsSpace(word[i]) && !IsQuote(word[i])
    {
      SpaceIsListed(word[i]);
    }
    EachMeans(word);
    ArgsGroup(Each(word), rest);
  }

  lemma WordBefore(gap: string, word: string, later: seq<Piece>) returns (ps: seq<Piece>)
    requires Blank(gap) && Word(word) && Line(later) && (later == [] || later[0].Space?)
    ensures Line(ps) && Text(ps) == gap + (word + Text(later)) && Args(ps) == [word] + Args(later)
    ensures gap != "" ==> ps != [] && ps[0].Space?
  {
    PlainWord(word, later);
    var fromWord := Each(word) + later;
    BlankGap(gap, fromWord);
    TextJoin(Each(word), later);
    TextJoin(Each(gap), fromWord);
    ps := Each(gap) + fromWord;
  }

  /** Pieces that make up words and gaps. */
  lemma {:induction false} SpreadPieces(words: seq<string>, gaps: seq<string>) returns (ps: seq<Piece>)
    requires WordsAndGaps(words, gaps)
    ensures Line(ps) && Text(ps) == Spread(words, gaps) && Args(ps) == words
    ensures gaps[0] != "" ==> ps != [] && ps[0].Space?
    ensures words == [] && gaps[0] == "" ==> ps == []
  {
    if words == [] {
      BlankGap(gaps[0], []);
      ps := Each(gaps[0]);
      assert ps + [] == ps;
    } else {
      var later := SpreadPieces(words[1..], gaps[1..]);
      ps := WordBefore(gaps[0], words[0], later);
      assert words == [words[0]] + words[1..];
    }
  }

  /** Words with any white space between and around them are split into the words. */
  lemma WordsAreSplit(words: seq<string>, gaps: seq<string>)
    requires WordsAndGaps(words, gaps)
    ensures Split(Spread(words, gaps)) == Ok(words)
  {
    var ps := SpreadPieces(words, gaps);
    SplitsLines(ps);
  }

  // ------------------------------------------------------------------ the loop

  /** Where the loop stands at a piece boundary: `closed` ends in space, `group` is being read. */
  ghost predicate Reading(s: string, at: nat, closed: seq<Piece>, group: seq<Piece>) {
    && at <= |s|
    && Lex(s) == Then(closed + group, Lex(s[at..]))
    && (closed == [] || closed[|closed| - 1].Space?) && Group(group)
  }

  lemma ThenSnoc(closed: seq<Piece>, group: seq<Piece>, p: Piece, rest: Option<seq<Piece>>)
    ensures Then(closed + group, Then([p], rest)) == Then(closed + (group + [p]), rest)
                                                  == Then(closed + group + [p] + [], rest)
  {
    assert closed + group + [p] + [] == closed + (group + [p]);
    if rest.Some? {
      assert closed + group + ([p] + rest.value) == closed + (group + [p]) + rest.value;
    }
  }

  lemma ReadStart(s: string)
    ensures Reading(s, 0, [], [])
  {
    var none: seq<Piece> := [];
    assert s[0..] == s && none + none == none;
    ThenThen(Bare('a'), [], Lex(s));
  }

  lemma LexBehind(s: string, at: nat, next: nat, p: Piece)
    requires at <= next <= |s| && WellFormed(p) && s[at..next] == PieceText(p)
    ensures Lex(s[at..]) == Then([p], Lex(s[next..]))
  {
    LexPiece(p, s[next..]);
    assert s[at..] == s[at..next] + s[next..];
  }

  /** A bare character or a closed quoted run joins the group. */
  lemma ReadInGroup(s: string, at: nat, next: nat, p: Piece, closed: seq<Piece>, group: seq<Piece>)
    requires Reading(s, at, closed, group)
    requires at <= next <= |s| && WellFormed(p) && !p.Space? && s[at..next] == PieceText(p)
    ensures Reading(s, next, closed, group + [p])
  {
    LexBehind(s, at, next, p);
    ThenSnoc(closed, group, p, Lex(s[next..]));
  }

  /** A space closes the group, which has become an argument if it holds anything. */
  lemma ReadSpace(s: string, at: nat, closed: seq<Piece>, group: seq<Piece>)
    requires Reading(s, at, closed, group) && at < |s| && IsSpace(s[at])
    ensures Reading(s, at + 1, closed + group + [Space(s[at])], [])
    ensures Args(closed + group + [Space(s[at])])
         == if group == [] then Args(closed) else Args(closed) + [Value(group)]
  {
    var p := Space(s[at]);
    LexBehind(s, at, at + 1, p);
    ThenSnoc(closed, group, p, Lex(s[at + 1..]));
    CloseGroup(closed, group, p);
  }

  lemma ReadBare(s: string, at: nat, closed: seq<Piece>, group: seq<Piece>)
    requires Reading(s, at, closed, group) && at < |s| && !IsQuote(s[at]) && !IsSpace(s[at])
    ensures Reading(s, at + 1, closed, group + [Bare(s[at])])
    ensures Value(group + [Bare(s[at])]) == Value(group) + [s[at]]
  {
    ReadInGroup(s, at, at + 1, Bare(s[at]), closed, group);
    ValueSnoc(group, Bare(s[at]));
  }

  /** Whether `i` lies behind an opening quote at `at`, with none to close it in between. */
  ghost predicate InQuote(s: string, at: nat, i: nat, q: char) {
    at < i <= |s| && s[at] == q && IsQuote(q) && forall k :: at < k < i ==> s[k] != q
  }

  lemma StillInQuote(s: string, at: nat, i: nat, q: char)
    requires InQuote(s, at, i, q) && i < |s| && s[i] != q
    ensures InQuote(s, at, i + 1, q) && s[at + 1..i + 1] == s[at + 1..i] + [s[i]]
  {
  }

  lemma QuotedText(s: string, at: nat, i: nat, q: char)
    requires InQuote(s, at, i, q) && i < |s| && s[i] == q
    ensures WellFormed(Quoted(q, s[at + 1..i])) && s[at..i + 1] == PieceText(Quoted(q, s[at + 1..i]))
  {
    assert s[at..i + 1] == [s[at]] + s[at + 1..i] + [s[i]];
  }

  lemma ReadQuoted(s: string, at: nat, i: nat, q: char, body: string, closed: seq<Piece>, group: seq<Piece>)
    requires Reading(s, at, closed, group) && InQuote(s, at, i, q) && i < |s| && s[i] == q && body == s[at + 1..i]
    ensures Reading(s, i + 1, closed, group + [Quoted(q, body)])
  {
    QuotedText(s, at, i, q);
    ReadInGroup(s, at, i + 1, Quoted(q, body), closed, group);
  }

  lemma CloseGroup(closed: seq<Piece>, group: seq<Piece>, p: Piece)
    requires (closed == [] || closed[|closed| - 1].Space?) && Group(group) && p.Space?
    ensures Args(closed + group + [p]) == if group == [] then Args(closed) else Args(closed) + [Value(group)]
  {
    assert [p][1..] == [];
    ArgsAfterSpace(closed, group + [p]);
    assert closed + (group + [p]) == closed + group + [p];
    if group == [] {
      assert group + [p] == [p];
    } else {
      ArgsGroup(group, [p]);
    }
  }

  lemma ReadToEnd(s: string, closed: seq<Piece>, group: seq<Piece>)
    requires Reading(s, |s|, closed, group)
    ensures Split(s) == Ok(if group == [] then Args(closed) else Args(closed) + [Value(group)])
  {
    assert s[|s|..] == "";
    assert closed + group + [] == closed + group;
    ArgsAfterSpace(closed, group);
    if group != [] {
      ArgsGroup(group, []);
      assert group + [] == group;
    }
  }

  lemma OpenAtEnd(s: string, at: nat, closed: seq<Piece>, group: seq<Piece>)
    requires Reading(s, at, closed, group) && at < |s| && InQuote(s, at, |s|, s[at])
    ensures Split(s) == UnclosedQuote
  {
    assert s[at + 1..|s|] == s[at + 1..];
    var tail := s[at..];
    assert tail[1..] == s[at + 1..] && tail[1..][..|tail| - 1] == tail[1..];
    FindIs(tail[1..], s[at], |tail| - 1);
  }

  /** What the loop variables hold at `i`: outside quotes, and inside a run opened at `at`. */
  ghost predicate Outside(s: string, i: nat, closed: seq<Piece>, group: seq<Piece>,
                          args: seq<string>, cur: string, hasContent: bool)
  {
    Reading(s, i, closed, group) && args == Args(closed) && cur == Value(group) && (hasContent <==> group != [])
  }

  ghost predicate Inside(s: string, i: nat, at: nat, q: char, closed: seq<Piece>, group: seq<Piece>,
                         args: seq<string>, cur: string)
  {
    && Reading(s, at, closed, group) && args == Args(closed)
    && InQuote(s, at, i, q) && cur == Value(group) + s[at + 1..i]
  }

  lemma OpenQuote(s: string, i: nat, closed: seq<Piece>, group: seq<Piece>, args: seq<string>, cur: string, has: bool)
    requires Outside(s, i, closed, group, args, cur, has) && i < |s| && IsQuote(s[i])
    ensures Inside(s, i + 1, i, s[i], closed, group, args, cur)
  {
  }

  lemma StepInside(s: string, i: nat, at: nat, q: char, closed: seq<Piece>, group: seq<Piece>,
                   args: seq<string>, cur: string)
    requires Inside(s, i, at, q, closed, group, args, cur) && i < |s|
    ensures s[i] != q ==> Inside(s, i + 1, at, q, closed, group, args, cur + [s[i]])
    ensures s[i] == q ==> Outside(s, i + 1, closed, group + [Quoted(q, s[at + 1..i])], args, cur, true)
  {
    if s[i] == q {
      var body := s[at + 1..i];
      ReadQuoted(s, at, i, q, body, closed, group);
      ValueSnoc(group, Quoted(q, body));
    } else {
      StillInQuote(s, at, i, q);
    }
  }

  lemma StepOutside(s: string, i: nat, closed: seq<Piece>, group: seq<Piece>, args: seq<string>, cur: string, has: bool)
    requires Outside(s, i, closed, group, args, cur, has) && i < |s| && !IsQuote(s[i])
    ensures !IsSpace(s[i]) ==> Outside(s, i + 1, closed, group + [Bare(s[i])], args, cur + [s[i]], true)
    ensures IsSpace(s[i]) ==>
      Outside(s, i + 1, closed + group + [Space(s[i])], [], if has then args + [cur] else args, "", false)
  {
    if IsSpace(s[i]) {
      ReadSpace(s, i, closed, group);
    } else {
      ReadBare(s, i, closed, group);
    }
  }

  lemma EndOutside(s: string, closed: seq<Piece>, group: seq<Piece>, args: seq<string>, cur: string, has: bool)
    requires Outside(s, |s|, closed, group, args, cur, has)
    ensures Split(s) == Ok(if has then args + [cur] else args)
  {
    ReadToEnd(s, closed, group);
  }

  /** What the loop variables hold before the rune at `i`. */
  ghost predicate Before(s: string, i: nat, at: nat, quoteCh: char, closed: seq<Piece>, group: seq<Piece>,
                         args: seq<string>, cur: string, hasContent: bool)
  {
    if quoteCh == '\0' then Outside(s, i, closed, group, args, cur, hasContent)
    else Inside(s, i, at, quoteCh, closed, group, args, cur) && hasContent
  }

  lemma StepQuoted(s: string, i: nat, at: nat, q: char, closed: seq<Piece>, group: seq<Piece>,
                   args: seq<string>, cur: string, has: bool)
    requires Before(s, i, at, q, closed, group, args, cur, has) && i < |s| && q != '\0'
    ensures at + 1 <= i
    ensures s[i] == q ==> Before(s, i + 1, at, '\0', closed, group + [Quoted(q, s[at + 1..i])], args, cur, true)
    ensures s[i] != q ==> Before(s, i + 1, at, q, closed, group, args, cur + [s[i]], true)
  {
    StepInside(s, i, at, q, closed, group, args, cur);
  }

  lemma StepUnquoted(s: string, i: nat, at: nat, closed: seq<Piece>, group: seq<Piece>,
                     args: seq<string>, cur: string, has: bool)
    requires Before(s, i, at, '\0', closed, group, args, cur, has) && i < |s|
    ensures IsQuote(s[i]) ==> Before(s, i + 1, i, s[i], closed, group, args, cur, true)
    ensures !IsQuote(s[i]) && IsSpace(s[i]) ==>
      && Before(s, i + 1, at, '\0', closed + group + [Space(s[i])], [], if has then args + [cur] else args, "", false)
      && (!has ==> cur == "")
    ensures !IsQuote(s[i]) && !IsSpace(s[i]) ==>
      Before(s, i + 1, at, '\0', closed, group + [Bare(s[i])], args, cur + [s[i]], true)
  {
    if IsQuote(s[i]) {
      OpenQuote(s, i, closed, group, args, cur, has);
    } else {
      StepOutside(s, i, closed, group, args, cur, has);
    }
  }

  lemma AtEnd(s: string, at: nat, q: char, closed: seq<Piece>, group: seq<Piece>,
              args: seq<string>, cur: string, has: bool)
    requires Before(s, |s|, at, q, closed, group, args, cur, has)
    ensures Split(s) == if q != '\0' then UnclosedQuote else Ok(if has then args + [cur] else args)
  {
    if q != '\0' {
      OpenAtEnd(s, at, closed, group);
    } else {
      EndOutside(s, closed, group, args, cur, has);
    }
  }

  method SplitCmd(s: string) returns (result: Result)
    ensures result == Split(s)
  {
    var args: seq<string>, cur, quoteCh, hasContent := [], "", '\0', false;
    ghost var at, closed: seq<Piece>, group: seq<Piece> := 0, [], [];
    ReadStart(s);
    var i := 0;
    while i < |s|
      invariant 0 <= i <= |s|
      invariant Before(s, i, at, quoteCh, closed, group, args, cur, hasContent)
    {
      var r := s[i];
      if quoteCh != '\0' {
        StepQuoted(s, i, at, quoteCh, closed, group, args, cur, hasContent);
        if r == quoteCh {
          group := group + [Quoted(quoteCh, s[at + 1..i])];
          quoteCh := '\0';
        } else {
          cur := cur + [r];
        }
        hasContent := true;
      } else {
        StepUnquoted(s, i, at, closed, group, args, cur, hasContent);
        if IsQuote(r) {
          quoteCh, at := r, i;
          hasContent := true;
        } else if IsSpace(r) {
          if hasContent {
            args := args + [cur];
            cur := "";
            hasContent := false;
          }
          closed, group := closed + group + [Space(r)], [];
        } else {
          cur := cur + [r];
          hasContent := true;
          group := group + [Bare(r)];
        }
      }
      i := i + 1;
    }
    AtEnd(s, at, quoteCh, closed, group, args, cur, hasContent);
    if quoteCh != '\0' {
      return UnclosedQuote;
    }
    if hasContent {
      args := args + [cur];
    }
    return Ok(args);
  }
}
