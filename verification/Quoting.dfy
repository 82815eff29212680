/**
 Command lines built from argument vectors (src/regional_install.cpp, `quoteArg` and
 `runProcess`), split again by the rules of the program that receives them: the POSIX shell
 (sections 2.2.1 and 2.2.2 of the POSIX Shell Command Language) and the Windows C runtime.
 */
module Blanks {
  predicate Blank(c: char) { c == ' ' || c == '\t' }

  /** What may follow a word. */
  predicate WordEnds(tail: string) { tail == "" || Blank(tail[0]) }

  lemma Associate(a: string, b: string, c: string)
    ensures (a + b) + c == a + (b + c)
  {}
}

module PosixQuoting {
  import opened Core
  import opened Blanks

  const REDIRECT := "2>&1"

  /** Characters the shell interprets outside quotes. */
  predicate Special(c: char) {
    || c == '|' || c == '&' || c == ';' || c == '<' || c == '>' || c == '(' || c == ')' || c == '$' || c == '`'
    || c == '"' || c == '*' || c == '?' || c == '[' || c == ']' || c == '#' || c == '~' || c == '=' || c == '%'
    || c == '!' || c == '{' || c == '}' || c == '\n'
  }

  /** A piece of a word, and what follows it. */
  datatype Piece = Piece(text: string, rest: string)

  function Prepend(text: string, p: Option<Piece>): Option<Piece> {
    match p case None => None case Some(q) => Some(Piece(text + q.text, q.rest))
  }

  // ---------------------------------------------------------------- splitting

  /** Inside single quotes every character stands for itself, up to the next quote. */
  function Quoted(s: string): (r: Option<Piece>)
    ensures r.Some? ==> |r.value.rest| < |s|
  {
    if s == "" then None
    else if s[0] == '\'' then Some(Piece("", s[1..]))
    else Prepend([s[0]], Quoted(s[1..]))
  }

  /** The rest of a word: quoted parts, escaped characters and plain characters. */
  function Word(s: string): (r: Option<Piece>)
    ensures r.Some? ==> |r.value.rest| <= |s|
    ensures r.Some? && !WordEnds(s) ==> |r.value.rest| < |s|
    decreases |s|
  {
    if WordEnds(s) then Some(Piece("", s))
    else if s[0] == '\'' then
      match Quoted(s[1..])
      case None => None
      case Some(q) => Prepend(q.text, Word(q.rest))
    else if s[0] == '\\' then
      if |s| < 2 || s[1] == '\n' then None else Prepend([s[1]], Word(s[2..]))
    else if Special(s[0]) then None
    else Prepend([s[0]], Word(s[1..]))
  }

  /** The arguments of a simple command; a trailing redirection is not one of them. */
  function Split(s: string): Option<seq<string>>
    decreases |s|
  {
    if s == "" || s == REDIRECT then Some([])
    else if Blank(s[0]) then Split(s[1..])
    else match Word(s)
      case None => None
      case Some(w) =>
        match Split(w.rest)
        case None => None
        case Some(more) => Some([w.text] + more)
  }

  // ---------------------------------------------------------------- quoting

  function EscapeChar(c: char): string { if c == '\'' then "'\\''" else [c] }

  function Escape(arg: string): string {
    if arg == "" then "" else EscapeChar(arg[0]) + Escape(arg[1..])
  }

  function Quote(arg: string): string { "'" + Escape(arg) + "'" }

  method QuoteArg(arg: string) returns (out: string)
    ensures out == Quote(arg)
  {
    out := "'";
    var i := 0;
    assert arg[0..] == arg;
    while i < |arg|
      invariant 0 <= i <= |arg|
      invariant out + Escape(arg[i..]) == "'" + Escape(arg)
    {
      assert arg[i..][1..] == arg[i + 1..];
      Associate(out, EscapeChar(arg[i]), Escape(arg[i + 1..]));
      out := out + (if arg[i] == '\'' then "'\\''" else [arg[i]]);
      i := i + 1;
    }
    assert arg[i..] == "";
    out := out + "'";
  }

  /** Every argument preceded by a blank. */
  function Tail(args: seq<string>): string {
    if args == [] then "" else " " + Quote(args[0]) + Tail(args[1..])
  }

  function CommandLine(args: seq<string>): string {
    (if args == [] then "" else Quote(args[0]) + Tail(args[1..])) + " " + REDIRECT
  }

  /** `runProcess`, up to starting the command. */
  method BuildCommand(argv: seq<string>) returns (cmd: string)
    ensures cmd == CommandLine(argv)
  {
    hide Quote;
    cmd := "";
    if argv != [] {
      cmd := QuoteArg(argv[0]);
      var i := 1;
      while i < |argv|
        invariant 1 <= i <= |argv|
        invariant cmd + Tail(argv[i..]) == Quote(argv[0]) + Tail(argv[1..])
      {
        var q := QuoteArg(argv[i]);
        assert argv[i..][1..] == argv[i + 1..];
        Associate(cmd, " " + q, Tail(argv[i + 1..]));
        Associate(cmd, " ", q);
        cmd := cmd + " " + q;
        i := i + 1;
      }
      assert Tail(argv[i..]) == "";
    }
    cmd := cmd + " " + REDIRECT;
  }

  /** Quotes around the argument, and `'\\''` for each quote in it. */
  lemma QuoteIs(arg: string, more: string)
    ensures (forall i :: 0 <= i < |arg| ==> arg[i] != '\'') ==> Quote(arg) == "'" + arg + "'"
    ensures Quote(arg + "'" + more) == Quote(arg)[..|Quote(arg)| - 1] + "'\\''" + Quote(more)[1..]
  {
    hide Escape;
    EscapePlain(arg);
    EscapeConcat(arg + "'", more);
    EscapeConcat(arg, "'");
    EscapeOne();
    var q := Quote(arg);
    assert q[..|q| - 1] == "'" + Escape(arg) && Quote(more)[1..] == Escape(more) + "'";
  }

  lemma EscapeOne()
    ensures Escape("'") == "'\\''"
  {}

  lemma {:induction false} EscapePlain(arg: string)
    ensures (forall i :: 0 <= i < |arg| ==> arg[i] != '\'') ==> Escape(arg) == arg
  {
    if arg != "" {
      EscapePlain(arg[1..]);
      assert arg == [arg[0]] + arg[1..];
    }
  }

  lemma {:induction false} EscapeConcat(a: string, b: string)
    ensures Escape(a + b) == Escape(a) + Escape(b)
  {
    if a == "" {
      assert a + b == b;
    } else {
      assert (a + b)[1..] == a[1..] + b;
      EscapeConcat(a[1..], b);
      Associate(EscapeChar(a[0]), Escape(a[1..]), Escape(b));
    }
  }

  /** Outside quotes an operator ends the parse, and a character like any other stands for itself. */
  lemma OutsideQuotes(c: char, s: string)
    ensures c == '|' || c == '&' || c == ';' || c == '<' || c == '>' || c == '$' || c == '`' || c == '(' || c == '*' || c == '"' ==>
      Word([c] + s) == None
    ensures 'a' <= c <= 'z' || '0' <= c <= '9' || c == '/' || c == '-' || c == '_' || c == '.' ==>
      Word([c] + s) == Prepend([c], Word(s))
  {
    var t := [c] + s;
    assert t[0] == c && t[1..] == s;
  }

  /** Both outputs of the command go to one stream. */
  lemma Redirected(args: seq<string>)
    ensures |CommandLine(args)| >= 5 && CommandLine(args)[|CommandLine(args)| - 5..] == " 2>&1"
  {
    hide Quote, Tail;
    var head := if args == [] then "" else Quote(args[0]) + Tail(args[1..]);
    assert CommandLine(args) == head + " 2>&1";
  }

  // ---------------------------------------------------------------- round trip

  /** Reading on from inside a quote. */
  function Inside(s: string): Option<Piece> {
    match Quoted(s) case None => None case Some(q) => Prepend(q.text, Word(q.rest))
  }

  lemma PrependTwice(a: string, b: string, p: Option<Piece>)
    ensures Prepend(a, Prepend(b, p)) == Prepend(a + b, p)
    ensures Prepend("", p) == p
  {
    if p.Some? {
      Associate(a, b, p.value.text);
      assert "" + p.value.text == p.value.text;
    }
  }

  lemma InsideChar(c: char, s: string)
    requires c != '\''
    ensures Inside([c] + s) == Prepend([c], Inside(s))
  {
    hide Word;
    assert ([c] + s)[1..] == s;
    if Quoted(s).Some? { PrependTwice([c], Quoted(s).value.text, Word(Quoted(s).value.rest)); }
  }

  /** Closing the quote, an escaped quote, and opening it again stand for one quote. */
  lemma InsideQuote(s: string)
    ensures Inside("'\\''" + s) == Prepend("'", Inside(s))
  {
    var t := "'\\''" + s;
    assert t[1..] == "\\''" + s;
    assert Quoted(t) == Some(Piece("", "\\''" + s));
    var u := "\\''" + s;
    assert u[2..] == "'" + s;
    assert Word(u) == Prepend("'", Word("'" + s));
    assert ("'" + s)[1..] == s;
    assert Word("'" + s) == Inside(s);
    PrependTwice("", "'", Inside(s));
    assert "" + "'" == "'";
  }

  lemma {:induction false} InsideEscape(arg: string, tail: string)
    requires WordEnds(tail)
    ensures Inside(Escape(arg) + "'" + tail) == Some(Piece(arg, tail))
  {
    hide Inside;
    if arg == "" {
      InsideEnd(tail);
      assert Escape(arg) + "'" + tail == "'" + tail;
    } else {
      var more := Escape(arg[1..]) + "'" + tail;
      Associate(EscapeChar(arg[0]), Escape(arg[1..]), "'" + tail);
      Associate(Escape(arg[1..]), "'", tail);
      Associate(Escape(arg), "'", tail);
      assert Escape(arg) + "'" + tail == EscapeChar(arg[0]) + more;
      InsideEscape(arg[1..], tail);
      if arg[0] == '\'' { InsideQuote(more); } else { InsideChar(arg[0], more); }
      assert arg == [arg[0]] + arg[1..];
    }
  }

  lemma InsideEnd(tail: string)
    requires WordEnds(tail)
    ensures Inside("'" + tail) == Some(Piece("", tail))
  {
    assert ("'" + tail)[1..] == tail;
    assert Word(tail) == Some(Piece("", tail));
    PrependTwice("", "", Word(tail));
  }

  /** A quoted argument is read back whole, whatever word end follows. */
  lemma QuoteTrip(arg: string, tail: string)
    requires WordEnds(tail)
    ensures Word(Quote(arg) + tail) == Some(Piece(arg, tail))
    ensures Quote(arg) != "" && Quote(arg)[0] == '\''
  {
    hide Escape;
    InsideEscape(arg, tail);
    var s := Quote(arg) + tail;
    assert s[1..] == Escape(arg) + "'" + tail;
    assert Word(s) == Inside(s[1..]);
  }

  lemma QuoteSplits(arg: string, tail: string)
    requires WordEnds(tail) && Split(tail).Some?
    ensures Split(Quote(arg) + tail) == Some([arg] + Split(tail).value)
    ensures Split(" " + Quote(arg) + tail) == Some([arg] + Split(tail).value)
  {
    hide Word, Quote;
    QuoteTrip(arg, tail);
    var s := Quote(arg) + tail;
    assert s[0] == '\'' && REDIRECT[0] == '2';
    assert s != REDIRECT && !Blank(s[0]);
    assert " " + Quote(arg) + tail == " " + s;
    assert (" " + s)[1..] == s;
    assert (" " + s)[0] == ' ';
  }

  lemma {:induction false} TailSplits(args: seq<string>)
    ensures WordEnds(Tail(args) + " " + REDIRECT) && Split(Tail(args) + " " + REDIRECT) == Some(args)
  {
    hide Quote, Split;
    if args == [] {
      RedirectSplits();
      assert Tail(args) + " " + REDIRECT == " " + REDIRECT;
    } else {
      var more := Tail(args[1..]) + " " + REDIRECT;
      TailSplits(args[1..]);
      QuoteSplits(args[0], more);
      assert Tail(args) + " " + REDIRECT == " " + Quote(args[0]) + more;
      assert (" " + Quote(args[0]) + more)[0] == ' ';
      assert args == [args[0]] + args[1..];
    }
  }

  lemma RedirectSplits()
    ensures Split(" " + REDIRECT) == Some([])
  {
    assert (" " + REDIRECT)[1..] == REDIRECT;
    assert (" " + REDIRECT)[0] == ' ';
  }

  /** Splitting the built line gives back the argument vector, whatever the arguments hold. */
  lemma RoundTrip(args: seq<string>)
    ensures Split(CommandLine(args)) == Some(args)
  {
    hide Quote, Split;
    if args == [] {
      RedirectSplits();
      assert CommandLine(args) == " " + REDIRECT;
    } else {
      var more := Tail(args[1..]) + " " + REDIRECT;
      TailSplits(args[1..]);
      QuoteSplits(args[0], more);
      assert CommandLine(args) == Quote(args[0]) + more;
      assert args == [args[0]] + args[1..];
    }
  }
}

module WindowsQuoting {
  import opened Core
  import opened Blanks

  function Slashes(n: nat): (s: string)
    ensures |s| == n
  {
    if n == 0 then "" else "\\" + Slashes(n - 1)
  }

  /** An argument, and what follows it. */
  datatype Piece = Piece(text: string, rest: string)

  function Prepend(text: string, p: Piece): Piece { Piece(text + p.text, p.rest) }

  // ---------------------------------------------------------------- splitting

  /**
   The C runtime's argument parser, with `n` backslashes read but not yet decided. Before a
   quote each pair stands for one; an odd one escapes the quote; a doubled quote inside
   quotes stands for one; elsewhere backslashes stand for themselves.
   */
  function Arg(s: string, n: nat, inQuotes: bool): (r: Piece)
    ensures |r.rest| <= |s|
    ensures s != "" && (inQuotes || !Blank(s[0])) ==> |r.rest| < |s|
    decreases |s|
  {
    if s == "" then Piece(Slashes(n), "")
    else if s[0] == '\\' then Arg(s[1..], n + 1, inQuotes)
    else if s[0] == '"' then
      if n % 2 == 1 then Prepend(Slashes(n / 2) + "\"", Arg(s[1..], 0, inQuotes))
      else if inQuotes && |s| > 1 && s[1] == '"' then Prepend(Slashes(n / 2) + "\"", Arg(s[2..], 0, inQuotes))
      else Prepend(Slashes(n / 2), Arg(s[1..], 0, !inQuotes))
    else if Blank(s[0]) && !inQuotes then Piece(Slashes(n), s)
    else Prepend(Slashes(n) + [s[0]], Arg(s[1..], 0, inQuotes))
  }

  function Split(s: string): seq<string>
    decreases |s|
  {
    if s == "" then []
    else if Blank(s[0]) then Split(s[1..])
    else
      var p := Arg(s, 0, false);
      [p.text] + Split(p.rest)
  }

  // ---------------------------------------------------------------- quoting

  predicate NeedsNoQuotes(arg: string) {
    arg != "" && forall c :: c in arg ==> !Blank(c) && c != '"'
  }

  /** What follows the opening quote, with `n` backslashes pending. */
  function Body(arg: string, n: nat): string
    decreases |arg|
  {
    if arg == "" then Slashes(2 * n)
    else if arg[0] == '\\' then Body(arg[1..], n + 1)
    else if arg[0] == '"' then Slashes(2 * n + 1) + "\"" + Body(arg[1..], 0)
    else Slashes(n) + [arg[0]] + Body(arg[1..], 0)
  }

  function Quote(arg: string): string {
    if NeedsNoQuotes(arg) then arg else "\"" + Body(arg, 0) + "\""
  }

  method QuoteArg(arg: string) returns (out: string)
    ensures out == Quote(arg)
  {
    if NeedsNoQuotes(arg) { return arg; }
    out := "\"";
    var backslashes: nat := 0;
    var i := 0;
    assert arg[0..] == arg;
    while i < |arg|
      invariant 0 <= i <= |arg|
      invariant out + Body(arg[i..], backslashes) == "\"" + Body(arg, 0)
    {
      var c := arg[i];
      ghost var more := arg[i + 1..];
      assert arg[i..][1..] == more;
      i := i + 1;
      if c == '\\' { backslashes := backslashes + 1; continue; }
      if c == '"' {
        Associate(out, Slashes(2 * backslashes + 1) + "\"", Body(more, 0));
        Associate(out, Slashes(2 * backslashes + 1), "\"");
        out := out + Slashes(2 * backslashes + 1);
        backslashes := 0;
        out := out + "\"";
        continue;
      }
      Associate(out, Slashes(backslashes) + [c], Body(more, 0));
      Associate(out, Slashes(backslashes), [c]);
      out := out + Slashes(backslashes);
      backslashes := 0;
      out := out + [c];
    }
    assert arg[i..] == "";
    out := out + Slashes(2 * backslashes) + "\"";
  }

  function Tail(args: seq<string>): string {
    if args == [] then "" else " " + Quote(args[0]) + Tail(args[1..])
  }

  function CommandLine(args: seq<string>): string {
    if args == [] then "" else Quote(args[0]) + Tail(args[1..])
  }

  // ---------------------------------------------------------------- round trip

  lemma {:induction false} SlashSnoc(n: nat)
    ensures Slashes(n + 1) == Slashes(n) + "\\"
  {
    if n > 0 { SlashSnoc(n - 1); }
  }

  lemma {:induction false} SlashRun(k: nat, s: string, n: nat, inQuotes: bool)
    ensures Arg(Slashes(k) + s, n, inQuotes) == Arg(s, n + k, inQuotes)
  {
    if k == 0 {
      assert Slashes(0) + s == s;
    } else {
      assert (Slashes(k) + s)[1..] == Slashes(k - 1) + s;
      SlashRun(k - 1, s, n + 1, inQuotes);
    }
  }

  lemma PrependTwice(a: string, b: string, p: Piece)
    ensures Prepend(a, Prepend(b, p)) == Prepend(a + b, p)
  {
    Associate(a, b, p.text);
  }

  lemma CloseQuote(n: nat, tail: string)
    requires WordEnds(tail)
    ensures Arg("\"" + tail, 2 * n, true) == Piece(Slashes(n), tail)
  {
    assert ("\"" + tail)[1..] == tail;
    assert Arg(tail, 0, false) == Piece("", tail);
    assert Slashes(n) + "" == Slashes(n);
  }

  lemma EscapedQuote(n: nat, s: string)
    ensures Arg("\"" + s, 2 * n + 1, true) == Prepend(Slashes(n) + "\"", Arg(s, 0, true))
  {
    assert ("\"" + s)[1..] == s;
  }

  lemma PlainChar(c: char, n: nat, s: string, inQuotes: bool)
    requires c != '\\' && c != '"' && (inQuotes || !Blank(c))
    ensures Arg([c] + s, n, inQuotes) == Prepend(Slashes(n) + [c], Arg(s, 0, inQuotes))
  {
    assert ([c] + s)[1..] == s;
  }

  lemma {:induction false} BodyTrip(arg: string, n: nat, tail: string)
    requires WordEnds(tail)
    ensures Arg(Body(arg, n) + "\"" + tail, 0, true) == Piece(Slashes(n) + arg, tail)
    decreases |arg|
  {
    hide Arg;
    if arg == "" {
      SlashRun(2 * n, "\"" + tail, 0, true);
      Associate(Slashes(2 * n), "\"", tail);
      CloseQuote(n, tail);
      assert Slashes(n) + arg == Slashes(n);
    } else {
      var c, more := arg[0], arg[1..];
      assert arg == [c] + more;
      if c == '\\' {
        BodyTrip(more, n + 1, tail);
        SlashSnoc(n);
        Associate(Slashes(n), "\\", more);
      } else {
        BodyTrip(more, 0, tail);
        var rest := Body(more, 0) + "\"" + tail;
        assert Slashes(0) + more == more;
        Associate(Slashes(n), [c], more);
        if c == '"' { QuoteChar(n, more, tail, rest); } else { OtherChar(c, n, more, tail, rest); }
      }
    }
  }

  lemma QuoteChar(n: nat, more: string, tail: string, rest: string)
    requires rest == Body(more, 0) + "\"" + tail && Arg(rest, 0, true) == Piece(more, tail)
    ensures Arg(Slashes(2 * n + 1) + "\"" + Body(more, 0) + "\"" + tail, 0, true) == Piece((Slashes(n) + "\"") + more, tail)
  {
    hide Arg, Body;
    var line := Slashes(2 * n + 1) + "\"" + Body(more, 0) + "\"" + tail;
    assert line == Slashes(2 * n + 1) + ("\"" + rest);
    SlashRun(2 * n + 1, "\"" + rest, 0, true);
    EscapedQuote(n, rest);
  }

  lemma OtherChar(c: char, n: nat, more: string, tail: string, rest: string)
    requires c != '\\' && c != '"'
    requires rest == Body(more, 0) + "\"" + tail && Arg(rest, 0, true) == Piece(more, tail)
    ensures Arg(Slashes(n) + [c] + Body(more, 0) + "\"" + tail, 0, true) == Piece((Slashes(n) + [c]) + more, tail)
  {
    hide Arg, Body;
    var line := Slashes(n) + [c] + Body(more, 0) + "\"" + tail;
    assert line == Slashes(n) + ([c] + rest);
    SlashRun(n, [c] + rest, 0, true);
    PlainChar(c, n, rest, true);
  }

  lemma {:induction false} PlainTrip(arg: string, n: nat, tail: string)
    requires WordEnds(tail) && forall c :: c in arg ==> !Blank(c) && c != '"'
    ensures Arg(arg + tail, n, false) == Piece(Slashes(n) + arg, tail)
    decreases |arg|
  {
    if arg == "" {
      assert arg + tail == tail && Slashes(n) + arg == Slashes(n);
    } else {
      PlainStep(arg, n, tail);
    }
  }

  lemma PlainStep(arg: string, n: nat, tail: string)
    requires arg != "" && WordEnds(tail) && forall c :: c in arg ==> !Blank(c) && c != '"'
    ensures Arg(arg + tail, n, false) == Piece(Slashes(n) + arg, tail)
    decreases |arg|, 0
  {
    hide Arg;
    var c, more := arg[0], arg[1..];
    assert c in arg;
    assert arg + tail == [c] + (more + tail) && arg == [c] + more;
    if c == '\\' {
      PlainTrip(more, n + 1, tail);
      SlashRun(1, more + tail, n, false);
      OneSlash();
      SlashSnoc(n);
      Associate(Slashes(n), [c], more);
    } else {
      PlainTrip(more, 0, tail);
      PlainChar(c, n, more + tail, false);
      assert Slashes(0) + more == more;
      Associate(Slashes(n), [c], more);
    }
  }

  lemma OneSlash()
    ensures Slashes(1) == "\\"
  {
    assert Slashes(1) == "\\" + Slashes(0);
  }

  /** A quoted argument is read back whole, whatever word end follows. */
  lemma QuoteTrip(arg: string, tail: string)
    requires WordEnds(tail)
    ensures Arg(Quote(arg) + tail, 0, false) == Piece(arg, tail)
    ensures Quote(arg) != "" && !Blank(Quote(arg)[0])
  {
    hide Arg, Body;
    if NeedsNoQuotes(arg) {
      PlainTrip(arg, 0, tail);
      assert Slashes(0) + arg == arg;
      assert arg[0] in arg;
    } else {
      BodyTrip(arg, 0, tail);
      var s := Body(arg, 0) + "\"" + tail;
      OpenQuote(s, Body(arg, 0) + "\"", tail);
      assert Quote(arg) + tail == "\"" + s;
      assert Slashes(0) + arg == arg;
    }
  }

  lemma OpenQuote(s: string, front: string, tail: string)
    requires s == front + tail
    ensures Arg("\"" + s, 0, false) == Arg(s, 0, true)
  {
    assert ("\"" + s)[1..] == s;
    var p := Arg(s, 0, true);
    assert Prepend("", p) == p by { assert "" + p.text == p.text; }
  }

  lemma {:induction false} TailSplits(args: seq<string>)
    ensures WordEnds(Tail(args)) && Split(Tail(args)) == args
  {
    hide Quote, Arg;
    if args != [] {
      var more := Tail(args[1..]);
      TailSplits(args[1..]);
      QuoteSplits(args[0], more);
      assert Tail(args) == " " + (Quote(args[0]) + more);
      assert Tail(args)[1..] == Quote(args[0]) + more;
      assert Tail(args)[0] == ' ';
      assert args == [args[0]] + args[1..];
    }
  }

  lemma QuoteSplits(arg: string, tail: string)
    requires WordEnds(tail)
    ensures Split(Quote(arg) + tail) == [arg] + Split(tail)
  {
    hide Arg, Quote;
    QuoteTrip(arg, tail);
    assert (Quote(arg) + tail)[0] == Quote(arg)[0];
  }

  /** Splitting the built line gives back the argument vector, whatever the arguments hold. */
  lemma RoundTrip(args: seq<string>)
    ensures Split(CommandLine(args)) == args
  {
    hide Quote, Split;
    if args == [] {
      EmptySplits();
    } else {
      TailSplits(args[1..]);
      QuoteSplits(args[0], Tail(args[1..]));
      assert args == [args[0]] + args[1..];
    }
  }

  lemma EmptySplits()
    ensures Split("") == []
  {}
}
