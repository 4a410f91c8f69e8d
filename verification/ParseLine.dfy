/** tsh.c's parseline: a tokenizer that works by overwriting delimiters with NUL. */
module ParseLine {
  import opened Basics
  import opened Words

  const NUL: char := '\0'
  const MAXLINE: nat := 1024

  /** A NULL pointer; other pointers are offsets into the line buffer. */
  const NONE: int := -1

  // ---- what the line says ----

  function SkipSpaces(s: string): (r: string)
    ensures |r| <= |s|
  {
    if s != [] && s[0] == ' ' then SkipSpaces(s[1..]) else s
  }

  /** The first index of c, |s| if there is none. */
  function IndexOf(s: string, c: char): (r: nat)
    ensures r <= |s|
    ensures r < |s| ==> s[r] == c
  {
    if s == [] || s[0] == c then 0 else 1 + IndexOf(s[1..], c)
  }

  predicate IsQuoted(s: string) {
    s != [] && s[0] == '\''
  }

  /** The arguments of a line whose last character is already a space. */
  function Tokens(s: string): seq<string>
    decreases |s|, 2
  {
    TokensAt(SkipSpaces(s))
  }

  /** The arguments of a line that does not start with a space: the first one ends at the next
      quote if it starts with one, else at the next space. */
  function TokensAt(s: string): seq<string>
    decreases |s|, 1
  {
    if IsQuoted(s) then Cut(s[1..], '\'') else Cut(s, ' ')
  }

  /** The arguments of a line whose first argument ends at the first c; no c, no argument. */
  function Cut(s: string, c: char): seq<string>
    decreases |s|, 0
  {
    var d := IndexOf(s, c);
    if d == |s| then [] else [s[..d]] + Tokens(s[d + 1..])
  }

  /** The line after its trailing character was replaced. */
  function Line(cmdline: string): string
    requires cmdline != []
  {
    cmdline[..|cmdline| - 1] + [' ']
  }

  predicate IsAmp(t: string) {
    t != [] && t[0] == '&'
  }

  /** The arguments and the background flag; a blank line counts as background. */
  function Interpret(ts: seq<string>): (seq<string>, bool) {
    if ts == [] then ([], true)
    else if IsAmp(ts[|ts| - 1]) then (ts[..|ts| - 1], true)
    else (ts, false)
  }

  function Parse(cmdline: string): (seq<string>, bool)
    requires cmdline != []
  {
    Interpret(Tokens(Line(cmdline)))
  }

  // ---- rendering ----

  /** One argument as typed, and the number of spaces after it. */
  datatype Arg = Plain(text: string, gap: nat) | Quoted(text: string, gap: nat)

  function Spaces(n: nat): (s: string)
    ensures |s| == n
  {
    if n == 0 then [] else [' '] + Spaces(n - 1)
  }

  function Show(a: Arg): string {
    match a
    case Plain(t, g) => t + Spaces(g)
    case Quoted(t, g) => ['\''] + t + ['\''] + Spaces(g)
  }

  function Render(args: seq<Arg>): string {
    if args == [] then [] else Show(args[0]) + Render(args[1..])
  }

  function Texts(args: seq<Arg>): (r: seq<string>)
    ensures |r| == |args|
  {
    if args == [] then [] else [args[0].text] + Texts(args[1..])
  }

  /** An unquoted argument is not empty, has no space and does not start with a quote; a quoted
      one has no quote. */
  predicate ArgOk(a: Arg) {
    match a
    case Plain(t, g) => t != [] && ' ' !in t && t[0] != '\''
    case Quoted(t, _) => '\'' !in t
  }

  /** The arguments are typed properly, and an unquoted one is followed by a space unless it is
      the last. */
  predicate Typed(args: seq<Arg>) {
    args != [] ==>
      ArgOk(args[0]) && (args[0].Quoted? || args[0].gap > 0 || |args| == 1) && Typed(args[1..])
  }

  // ---- parsing what was rendered ----

  lemma {:induction false} TokensAfterSpaces(n: nat, s: string)
    ensures Tokens(Spaces(n) + s) == Tokens(s)
  {
    if n == 0 {
      assert Spaces(0) + s == s;
    } else {
      TokensAfterSpaces(n - 1, s);
      assert (Spaces(n) + s)[1..] == Spaces(n - 1) + s;
    }
  }

  lemma {:induction false} FirstIndex(t: string, c: char, s: string)
    requires c !in t
    ensures IndexOf(t + ([c] + s), c) == |t|
  {
    var l := t + ([c] + s);
    if t == [] {
      assert l[0] == c;
    } else {
      assert l[0] == t[0] && l[1..] == t[1..] + ([c] + s);
      FirstIndex(t[1..], c, s);
    }
  }

  lemma CutAt(t: string, c: char, s: string)
    requires c !in t
    ensures Cut(t + ([c] + s), c) == [t] + Tokens(s)
  {
    var l := t + ([c] + s);
    FirstIndex(t, c, s);
    assert l[..|t|] == t && l[|t| + 1..] == s;
  }

  lemma PlainToken(t: string, s: string)
    requires t != [] && ' ' !in t && t[0] != '\''
    ensures Tokens(t + ([' '] + s)) == [t] + Tokens(s)
  {
    var l := t + ([' '] + s);
    assert l[0] == t[0];
    assert SkipSpaces(l) == l;
    CutAt(t, ' ', s);
  }

  lemma QuotedToken(t: string, s: string)
    requires '\'' !in t
    ensures Tokens(['\''] + (t + (['\''] + s))) == [t] + Tokens(s)
  {
    var l := ['\''] + (t + (['\''] + s));
    assert SkipSpaces(l) == l;
    assert l[1..] == t + (['\''] + s);
    CutAt(t, '\'', s);
  }

  /** The first argument of a rendered list is the first token; the rest of the line after it may
      be anything if the argument ends by itself, and starts with a space otherwise. */
  lemma ShownToken(a: Arg, rest: string)
    requires ArgOk(a)
    requires a.Plain? && a.gap == 0 ==> rest == [' ']
    ensures Tokens(Show(a) + rest) == [a.text] + Tokens(rest)
  {
    match a {
      case Plain(t, g) =>
        if g > 0 {
          assert Show(a) + rest == t + ([' '] + (Spaces(g - 1) + rest));
          PlainToken(t, Spaces(g - 1) + rest);
          TokensAfterSpaces(g - 1, rest);
        } else {
          assert Show(a) + rest == t + ([' '] + []);
          PlainToken(t, []);
          assert SkipSpaces([' ']) == SkipSpaces([' '][1..]);
        }
      case Quoted(t, g) =>
        assert Show(a) + rest == ['\''] + (t + (['\''] + (Spaces(g) + rest)));
        QuotedToken(t, Spaces(g) + rest);
        TokensAfterSpaces(g, rest);
    }
  }

  lemma {:induction false} NoIndex(s: string, c: char)
    requires c !in s
    ensures IndexOf(s, c) == |s|
  {
    if s != [] {
      NoIndex(s[1..], c);
    }
  }

  /** A quote that is never closed: no argument, and nothing after it is read. */
  lemma UnclosedQuote(t: string)
    requires '\'' !in t
    ensures Tokens(['\''] + (t + [' '])) == []
  {
    var l := ['\''] + (t + [' ']);
    assert SkipSpaces(l) == l && l[1..] == t + [' '];
    NoIndex(t + [' '], '\'');
    assert Tokens(l) == TokensAt(l) == Cut(l[1..], '\'');
  }

  /** What may follow the arguments of a line: nothing, or a quote that is never closed. */
  predicate Dropped(tail: string) {
    tail == [] || (tail[0] == '\'' && '\'' !in tail[1..])
  }

  /** The last argument does not run into the tail. */
  predicate Apart(args: seq<Arg>, tail: string) {
    args != [] && tail != [] ==> args[|args| - 1].Quoted? || args[|args| - 1].gap > 0
  }

  /** The tokens of a rendered argument list are the arguments; from an unclosed quote on
      everything is dropped. */
  lemma {:induction false} TokensBefore(args: seq<Arg>, tail: string)
    requires Typed(args) && Dropped(tail) && Apart(args, tail)
    ensures Tokens(Render(args) + (tail + [' '])) == Texts(args)
  {
    if args == [] {
      assert Render(args) + (tail + [' ']) == tail + [' '];
      if tail == [] {
        assert tail + [' '] == [' '];
        assert SkipSpaces([' ']) == SkipSpaces([' '][1..]);
      } else {
        assert tail + [' '] == ['\''] + (tail[1..] + [' ']);
        UnclosedQuote(tail[1..]);
      }
    } else {
      var rest := Render(args[1..]) + (tail + [' ']);
      TokensBefore(args[1..], tail);
      assert Render(args) + (tail + [' ']) == Show(args[0]) + rest;
      ShownToken(args[0], rest);
    }
  }

  lemma TokensOfRender(args: seq<Arg>)
    requires Typed(args)
    ensures Tokens(Render(args) + [' ']) == Texts(args)
  {
    TokensBefore(args, []);
    assert [] + [' '] == [' '];
  }

  // ---- what any line says ----

  /** A line is leading spaces, arguments, and what is dropped. */
  predicate Reads(line: string, lead: nat, args: seq<Arg>, tail: string) {
    && line == Spaces(lead) + (Render(args) + tail)
    && Typed(args) && Dropped(tail) && Apart(args, tail)
  }

  /** An argument as it stands in the line, without the spaces after it. */
  function Bare(a: Arg): string {
    if a.Plain? then a.text else ['\''] + a.text + ['\'']
  }

  lemma RenderNext(a: Arg, args: seq<Arg>, tail: string)
    ensures Bare(a) + (Spaces(a.gap) + (Render(args) + tail)) == Render([a] + args) + tail
  {
    assert ([a] + args)[1..] == args;
    assert Show(a) == Bare(a) + Spaces(a.gap);
    Regroup(Bare(a), Spaces(a.gap), Render(args) + tail);
    Regroup(Show(a), Render(args), tail);
  }

  lemma NoSpaces(s: string)
    ensures s == Spaces(0) + s
  {
  }

  lemma OneSpace(n: nat, s: string)
    ensures [' '] + (Spaces(n) + s) == Spaces(n + 1) + s
  {
    Regroup([' '], Spaces(n), s);
  }

  /** What follows an argument is a line, its leading spaces the gap after the argument. */
  lemma ReadsNext(a: Arg, rest: string, args: seq<Arg>, tail: string)
    requires Reads(rest, a.gap, args, tail) && ArgOk(a)
    requires a.Plain? ==> a.gap > 0 || rest == []
    ensures Reads(Bare(a) + rest, 0, [a] + args, tail)
  {
    RenderNext(a, args, tail);
    NoSpaces(Render([a] + args) + tail);
    assert ([a] + args)[1..] == args;
    NothingRead(rest, a.gap, args, tail);
  }

  lemma NothingRead(line: string, lead: nat, args: seq<Arg>, tail: string)
    requires Reads(line, lead, args, tail)
    ensures line == [] ==> args == [] && tail == []
  {
    if args != [] {
      assert Render(args) == Show(args[0]) + Render(args[1..]);
    }
  }

  lemma {:induction false} IndexFirst(s: string, c: char)
    ensures c !in s[..IndexOf(s, c)]
  {
    if s != [] && s[0] != c {
      IndexFirst(s[1..], c);
      assert s[..IndexOf(s, c)] == [s[0]] + s[1..][..IndexOf(s[1..], c)];
    }
  }

  /** The first argument of a line that starts with a quote, and what follows it. */
  lemma QuotedFirst(line: string) returns (t: string, rest: string)
    requires IsQuoted(line) && '\'' in line[1..]
    ensures '\'' !in t && line == ['\''] + t + ['\''] + rest
  {
    var s := line[1..];
    IndexFirst(s, '\'');
    var k := IndexOf(s, '\'');
    t, rest := s[..k], s[k + 1..];
    assert s == t + ['\''] + rest;
  }

  /** The first argument of a line that starts with neither a quote nor a space. */
  lemma PlainFirst(line: string) returns (t: string, rest: string)
    requires line != [] && !IsQuoted(line) && line[0] != ' '
    ensures ArgOk(Plain(t, 0)) && line == t + rest && (rest == [] || rest[0] == ' ')
  {
    IndexFirst(line, ' ');
    var k := IndexOf(line, ' ');
    t, rest := line[..k], line[k..];
    assert t[0] == line[0];
  }

  /** Every line can be read so. */
  lemma {:induction false} EveryLine(line: string) returns (lead: nat, args: seq<Arg>, tail: string)
    ensures Reads(line, lead, args, tail)
    ensures line != [] && line[0] == ' ' ==> lead > 0
    decreases |line|
  {
    lead, args, tail := 0, [], [];
    if line == [] {
    } else if line[0] == ' ' {
      lead, args, tail := EveryLine(line[1..]);
      assert line == [' '] + line[1..];
      OneSpace(lead, Render(args) + tail);
      lead := lead + 1;
    } else if IsQuoted(line) && '\'' !in line[1..] {
      tail := line;
      NoSpaces(line);
      assert Render([]) + line == line;
    } else if IsQuoted(line) {
      var t, rest := QuotedFirst(line);
      var gap;
      gap, args, tail := EveryLine(rest);
      ReadsNext(Quoted(t, gap), rest, args, tail);
      args := [Quoted(t, gap)] + args;
    } else {
      var t, rest := PlainFirst(line);
      var gap;
      gap, args, tail := EveryLine(rest);
      ReadsNext(Plain(t, gap), rest, args, tail);
      args := [Plain(t, gap)] + args;
    }
  }

  /** What parseline makes of any line, whatever its last character: the arguments, but a last one
      that starts with an ampersand, which is the background mark; without any the line counts as
      background. */
  lemma ParseIs(cmdline: string) returns (lead: nat, args: seq<Arg>, tail: string)
    requires cmdline != []
    ensures Reads(cmdline[..|cmdline| - 1], lead, args, tail)
    ensures
      var (ts, n) := (Texts(args), |args|);
      var mark := n > 0 && ts[n - 1] != [] && ts[n - 1][0] == '&';
      Parse(cmdline) == (if mark then ts[..n - 1] else ts, mark || n == 0)
  {
    var line := cmdline[..|cmdline| - 1];
    lead, args, tail := EveryLine(line);
    Regroup(Spaces(lead), Render(args) + tail, [' ']);
    Regroup(Render(args), tail, [' ']);
    TokensAfterSpaces(lead, Render(args) + (tail + [' ']));
    TokensBefore(args, tail);
  }

  /** What is typed: leading spaces, the arguments, an ampersand if the command is to run in the
      background, and the newline. */
  function Command(lead: nat, args: seq<Arg>, bg: bool): (s: string)
    ensures s != []
  {
    Spaces(lead) + Render(WithAmp(args, bg)) + ['\n']
  }

  function WithAmp(args: seq<Arg>, bg: bool): seq<Arg> {
    if bg then args + [Plain("&", 0)] else args
  }

  lemma {:induction false} TextsAppend(args: seq<Arg>, a: Arg)
    ensures Texts(args + [a]) == Texts(args) + [a.text]
  {
    if args != [] {
      TextsAppend(args[1..], a);
      assert (args + [a])[1..] == args[1..] + [a];
    } else {
      assert (args + [a])[1..] == [];
    }
  }

  lemma CommandTokens(lead: nat, args: seq<Arg>, bg: bool)
    requires Typed(WithAmp(args, bg))
    ensures Tokens(Line(Command(lead, args, bg))) == Texts(WithAmp(args, bg))
  {
    var all := WithAmp(args, bg);
    assert Line(Command(lead, args, bg)) == Spaces(lead) + (Render(all) + [' ']);
    TokensAfterSpaces(lead, Render(all) + [' ']);
    TokensOfRender(all);
  }

  lemma InterpretIff(ts: seq<string>, bg: bool)
    ensures Interpret(if bg then ts + ["&"] else ts) == (ts, bg) <==>
              bg || (ts != [] && !IsAmp(ts[|ts| - 1]))
  {
    var all := ts + ["&"];
    assert all[..|all| - 1] == ts && all[|all| - 1] == "&";
  }

  /** Parsing inverts rendering, whatever the spacing and quoting, exactly when the command runs
      in the background or has a last argument that does not start with an ampersand. */
  lemma ParseInvertsRender(lead: nat, args: seq<Arg>, bg: bool)
    requires Typed(WithAmp(args, bg))
    ensures Parse(Command(lead, args, bg)) == (Texts(args), bg) <==>
              bg || (args != [] && !IsAmp(Texts(args)[|args| - 1]))
  {
    CommandTokens(lead, args, bg);
    TextsAppend(args, Plain("&", 0));
    InterpretIff(Texts(args), bg);
  }

  /** A last argument that starts with an ampersand is taken for the background mark and lost. */
  lemma AmpersandLost()
    ensures Parse(Command(0, [Plain("&x", 0)], false)) == ([], true)
  {
    var args := [Plain("&x", 0)];
    assert args[1..] == [] && Texts(args) == ["&x"];
    CommandTokens(0, args, false);
    assert ["&x"][..0] == [];
  }

  /** A blank line is reported as background. */
  lemma BlankIsBackground(lead: nat)
    ensures Parse(Command(lead, [], false)) == ([], true)
  {
    CommandTokens(lead, [], false);
  }

  // ---- parseline itself ----

  /** a holds the C string s at p. */
  predicate CString(a: string, p: int, s: string) {
    0 <= p && p + |s| < |a| && a[p..p + |s|] == s && a[p + |s|] == NUL && NUL !in s
  }

  /** The first entries of argv are the strings done, and they end before hi. */
  ghost predicate Filled(a: string, argv: seq<int>, done: seq<string>, hi: int) {
    |done| <= |argv| &&
    forall i {:trigger argv[i]} {:trigger done[i]} :: 0 <= i < |done| ==>
      CString(a, argv[i], done[i]) && argv[i] + |done[i]| < hi
  }

  lemma CStringKept(a: string, p: int, s: string, q: int)
    requires CString(a, p, s) && p + |s| < q < |a|
    ensures CString(a[q := NUL], p, s)
  {
    var b := a[q := NUL];
    assert b[p..p + |s|] == a[p..p + |s|];
  }

  /** Terminating the next argument in place and pointing at it. */
  lemma FilledStep(a: string, argv: seq<int>, done: seq<string>, p: nat, q: nat)
    requires Filled(a, argv, done, p) && p <= q < |a| && |done| < |argv| && NUL !in a[p..q]
    ensures Filled(a[q := NUL], argv[|done| := p], done + [a[p..q]], q + 1)
  {
    var b, v, d := a[q := NUL], argv[|done| := p], done + [a[p..q]];
    forall i {:trigger v[i]} {:trigger d[i]} | 0 <= i < |d|
      ensures CString(b, v[i], d[i]) && v[i] + |d[i]| < q + 1
    {
      if i < |done| {
        assert argv[i] == v[i] && done[i] == d[i];
        CStringKept(a, argv[i], done[i], q);
      } else {
        assert b[p..q] == a[p..q];
      }
    }
  }

  lemma FilledMore(a: string, argv: seq<int>, done: seq<string>, hi: int, more: int)
    requires Filled(a, argv, done, hi) && hi <= more
    ensures Filled(a, argv, done, more)
  {
  }

  /** Writing argv past the strings changes none of them. */
  lemma FilledEnds(a: string, argv: seq<int>, done: seq<string>, hi: int, more: int, x: int)
    requires Filled(a, argv, done, hi) && hi <= more && |done| < |argv|
    ensures Filled(a, argv[|done| := x], done, more)
  {
    assert forall i :: 0 <= i < |done| ==> argv[|done| := x][i] == argv[i];
  }

  /** The character at the last pointer tells whether the last argument starts with an
      ampersand. */
  lemma LastChar(a: string, argv: seq<int>, done: seq<string>, hi: int)
    requires Filled(a, argv, done, hi) && done != []
    ensures 0 <= argv[|done| - 1] < |a|
    ensures a[argv[|done| - 1]] == '&' <==> IsAmp(done[|done| - 1])
  {
    var p, t := argv[|done| - 1], done[|done| - 1];
    if t != [] {
      assert a[p] == a[p..p + |t|][0];
    }
  }

  /** The part of a line buffer between a pointer and the terminating NUL. */
  ghost predicate Open(a: string, p: int, n: int) {
    0 <= p <= n < |a| && a[n] == NUL && forall i :: p <= i < n ==> a[i] != NUL
  }

  /** strchr's result as an offset. */
  function Found(a: string, p: nat, n: nat, c: char): int
    requires p <= n <= |a|
  {
    var d := IndexOf(a[p..n], c);
    if d == n - p then NONE else p + d
  }

  method StrCpy(dst: array<char>, src: string)
    requires |src| < dst.Length
    modifies dst
    ensures dst[..|src|] == src && dst[|src|] == NUL
  {
    var i := 0;
    while i < |src|
      invariant 0 <= i <= |src|
      invariant dst[..i] == src[..i]
    {
      dst[i] := src[i];
      i := i + 1;
    }
    dst[i] := NUL;
    assert src[..i] == src;
  }

  method StrChr(a: array<char>, p: nat, c: char, ghost n: nat) returns (d: int)
    requires Open(a[..], p, n) && c != NUL
    ensures d == Found(a[..], p, n, c)
  {
    d := p;
    while a[d] != NUL && a[d] != c
      invariant p <= d <= n
      invariant Found(a[..], d, n, c) == Found(a[..], p, n, c)
      decreases n - d
    {
      assert a[..][d..n][1..] == a[..][d + 1..n];
      d := d + 1;
    }
    if a[d] == NUL {
      d := NONE;
    }
  }

  method SkipBlanks(a: array<char>, p: nat, ghost n: nat) returns (q: nat)
    requires Open(a[..], p, n)
    ensures p <= q <= n && SkipSpaces(a[..][p..n]) == a[..][q..n]
  {
    q := p;
    while a[q] != NUL && a[q] == ' '
      invariant p <= q <= n
      invariant SkipSpaces(a[..][q..n]) == SkipSpaces(a[..][p..n])
      decreases n - q
    {
      assert a[..][q..n][1..] == a[..][q + 1..n];
      q := q + 1;
    }
  }

  /** Moves to the next argument and finds its end. */
  method NextArg(a: array<char>, p: nat, ghost n: nat) returns (buf: nat, delim: int, ghost c: char)
    requires Open(a[..], p, n)
    ensures p <= buf <= n && delim == Found(a[..], buf, n, c)
    ensures Tokens(a[..][p..n]) == Cut(a[..][buf..n], c)
  {
    buf := SkipBlanks(a, p, n);
    if a[buf] == '\'' {
      c := '\'';
      assert a[..][buf..n][1..] == a[..][buf + 1..n];
      buf := buf + 1;
      delim := StrChr(a, buf, '\'', n);
    } else {
      c := ' ';
      delim := StrChr(a, buf, ' ', n);
    }
  }

  /** A found delimiter ends the next token. */
  lemma CutStep(a: string, buf: nat, n: nat, c: char)
    requires Open(a, buf, n) && Found(a, buf, n, c) != NONE
    ensures var d := Found(a, buf, n, c);
            && buf <= d < n
            && Cut(a[buf..n], c) == [a[buf..d]] + Tokens(a[d + 1..n])
            && NUL !in a[buf..d]
            && Open(a[d := NUL], d + 1, n)
            && a[d := NUL][d + 1..n] == a[d + 1..n]
  {
    var d := Found(a, buf, n, c);
    var s := a[buf..n];
    assert s[..d - buf] == a[buf..d] && s[d - buf + 1..] == a[d + 1..n];
  }

  /** One round of the tokenizing loop. */
  lemma RoundDone(a: string, argv: seq<int>, all: seq<string>, done: seq<string>, buf: nat, n: nat, c: char)
    requires Open(a, buf, n) && Found(a, buf, n, c) != NONE
    requires all == done + Cut(a[buf..n], c) && |all| < |argv| && Filled(a, argv, done, buf)
    ensures
      var d := Found(a, buf, n, c);
      && buf <= d < n
      && Open(a[d := NUL], d + 1, n)
      && all == (done + [a[buf..d]]) + Tokens(a[d := NUL][d + 1..n])
      && Filled(a[d := NUL], argv[|done| := buf], done + [a[buf..d]], d + 1)
  {
    var d := Found(a, buf, n, c);
    CutStep(a, buf, n, c);
    FilledStep(a, argv, done, buf, d);
    Regroup(done, [a[buf..d]], Tokens(a[d + 1..n]));
  }

  /** Of all arguments the done ones are stored and the rest is still to come, folded. */
  ghost predicate Remains(all: seq<string>, done: seq<string>, rest: seq<string>) {
    forall i {:trigger Unfold(i)} :: Unfold(i) ==> all == done + rest
  }

  lemma RemainsIs(all: seq<string>, done: seq<string>, rest: seq<string>)
    requires Remains(all, done, rest)
    ensures all == done + rest
    ensures rest == [] ==> all == done
  {
    assert Unfold(0);
  }

  /** The argument at buf ends at delim: argv points at it and it is terminated in place. */
  method EndArg(buffer: array<char>, argv: array<int>, argc: nat, buf: nat, delim: nat,
                ghost n: nat, ghost c: char, ghost all: seq<string>, ghost done: seq<string>)
    returns (ghost more: seq<string>)
    requires Open(buffer[..], buf, n) && delim == Found(buffer[..], buf, n, c)
    requires argc == |done| && Remains(all, done, Cut(buffer[..][buf..n], c)) && |all| < argv.Length
    requires Filled(buffer[..], argv[..], done, buf)
    modifies buffer, argv
    ensures buf <= delim < n && Open(buffer[..], delim + 1, n)
    ensures |more| == argc + 1 && Remains(all, more, Tokens(buffer[..][delim + 1..n]))
    ensures Filled(buffer[..], argv[..], more, delim + 1)
  {
    ghost var a := buffer[..];
    RemainsIs(all, done, Cut(a[buf..n], c));
    RoundDone(a, argv[..], all, done, buf, n, c);
    more := done + [a[buf..delim]];
    argv[argc] := buf;
    buffer[delim] := NUL;
    assert buffer[..] == a[delim := NUL];
  }

  /** The tokenizing loop: terminates every argument in place and points argv at it. */
  method BuildArgv(buffer: array<char>, argv: array<int>, ghost n: nat) returns (argc: nat)
    requires Open(buffer[..], 0, n)
    requires |Tokens(buffer[..][0..n])| < argv.Length
    modifies buffer, argv
    ensures argc == |old(Tokens(buffer[..][0..n]))| < argv.Length && argv[argc] == NONE
    ensures Filled(buffer[..], argv[..], old(Tokens(buffer[..][0..n])), n)
  {
    ghost var all := Tokens(buffer[..][0..n]);
    ghost var done: seq<string> := [];
    argc := 0;
    var buf, delim;
    ghost var c;
    buf, delim, c := NextArg(buffer, 0, n);
    while delim != NONE
      invariant Open(buffer[..], buf, n)
      invariant delim == Found(buffer[..], buf, n, c)
      invariant argc == |done| && Remains(all, done, Cut(buffer[..][buf..n], c))
      invariant Filled(buffer[..], argv[..], done, buf)
      decreases n - buf
    {
      done := EndArg(buffer, argv, argc, buf, delim, n, c, all, done);
      argc := argc + 1;
      var from := delim + 1;
      buf, delim, c := NextArg(buffer, from, n);
      FilledMore(buffer[..], argv[..], done, from, buf);
    }
    assert Cut(buffer[..][buf..n], c) == [];
    RemainsIs(all, done, []);
    FilledEnds(buffer[..], argv[..], done, buf, n, NONE);
    argv[argc] := NONE;
  }

  /** The strings of argv are the arguments of the line and the result its background flag. */
  method ParseLine(cmdline: string, buffer: array<char>, argv: array<int>) returns (bg: bool)
    requires cmdline != [] && NUL !in cmdline && |cmdline| < buffer.Length == MAXLINE
    requires |Tokens(Line(cmdline))| < argv.Length
    modifies buffer, argv
    ensures bg == Parse(cmdline).1
    ensures |Parse(cmdline).0| < argv.Length && argv[|Parse(cmdline).0|] == NONE
    ensures forall i {:trigger argv[i]} :: 0 <= i < |Parse(cmdline).0| ==>
              CString(buffer[..], argv[i], Parse(cmdline).0[i])
  {
    StrCpy(buffer, cmdline);
    buffer[|cmdline| - 1] := ' ';
    assert buffer[..][0..|cmdline|] == Line(cmdline);
    var argc := BuildArgv(buffer, argv, |cmdline|);
    ghost var ts := Tokens(Line(cmdline));
    if argc == 0 {
      return true;
    }
    LastChar(buffer[..], argv[..], ts, |cmdline|);
    bg := buffer[argv[argc - 1]] == '&';
    if bg {
      argc := argc - 1;
      argv[argc] := NONE;
    }
  }
}
