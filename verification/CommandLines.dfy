/** Command lines of the shell as strings: how they fall into arguments and redirections, and that
    quoting is undone. */
module CommandLines {
  import opened Basics

  const MAXARGS: nat := 128
  const MAXLINE: nat := 1024

  datatype Tokens = Tokens(args: seq<string>, infile: Option<string>, outfile: Option<string>)

  datatype State = Normal | InFile | OutFile

  datatype Scanned = Failed | Done(state: State, tokens: Tokens)

  datatype Builtin = NotBuiltin | Quit | Jobs | Bg | Fg

  datatype Parsed = Error | Empty | Command(background: bool, tokens: Tokens, builtin: Builtin)

  predicate IsBlank(c: char) {
    c == ' ' || c == '\t' || c == '\r' || c == '\n'
  }

  predicate IsQuote(c: char) {
    c == '\'' || c == '\"'
  }

  /** strspn(s, delims). */
  function BlankLength(s: string): (n: nat)
    ensures n <= |s| && (forall i :: 0 <= i < n ==> IsBlank(s[i])) && (n < |s| ==> !IsBlank(s[n]))
  {
    if s == "" || !IsBlank(s[0]) then 0 else 1 + BlankLength(s[1..])
  }

  /** strcspn(s, delims). */
  function WordLength(s: string): (n: nat)
    ensures n <= |s| && (forall i :: 0 <= i < n ==> !IsBlank(s[i])) && (n < |s| ==> IsBlank(s[n]))
  {
    if s == "" || IsBlank(s[0]) then 0 else 1 + WordLength(s[1..])
  }

  /** The position of q in s, |s| if there is none. */
  function QuoteLength(s: string, q: char): (n: nat)
    ensures n <= |s| && (forall i :: 0 <= i < n ==> s[i] != q) && (n < |s| ==> s[n] == q)
  {
    if s == "" || s[0] == q then 0 else 1 + QuoteLength(s[1..], q)
  }

  function Recorded(t: Tokens, st: State, s: string): Tokens {
    match st
    case Normal => t.(args := t.args + [s])
    case InFile => t.(infile := Some(s))
    case OutFile => t.(outfile := Some(s))
  }

  /** The rest s of a line, scanned in a state with the tokens so far. */
  function Scan(s: string, st: State, t: Tokens): Scanned
    decreases |s|, 0
  {
    var r := s[BlankLength(s)..];
    if r == "" then Done(st, t)
    else if r[0] == '<' then (if t.infile.Some? then Failed else Scan(r[1..], InFile, t))
    else if r[0] == '>' then (if t.outfile.Some? then Failed else Scan(r[1..], OutFile, t))
    else if IsQuote(r[0]) then
      var n := QuoteLength(r[1..], r[0]);
      if n == |r| - 1 then Failed
      else After(r[1..][..n], r[1..][n + 1..], st, t)
    else
      var n := WordLength(r);
      After(r[..n], if n == |r| then "" else r[n + 1..], st, t)
  }

  /** A token is recorded; scanning goes on unless the argument list is full. */
  function After(token: string, rest: string, st: State, t: Tokens): Scanned
    decreases |rest|, 1
  {
    var u := Recorded(t, st, token);
    if |u.args| >= MAXARGS - 1 then Done(Normal, u) else Scan(rest, Normal, u)
  }

  function BuiltinOf(s: string): Builtin {
    if s == "quit" then Quit else if s == "jobs" then Jobs else if s == "bg" then Bg else if s == "fg" then Fg
        else NotBuiltin
  }

  /** What parseline returns for a line. */
  function ParseLine(line: string): Parsed {
    Interpret(Scan(line[..if |line| < MAXLINE then |line| else MAXLINE - 1], Normal, Tokens([], None, None)))
  }

  predicate StartsWithAmpersand(s: string) {
    s != "" && s[0] == '&'
  }

  function Interpret(r: Scanned): Parsed {
    match r
    case Failed => Error
    case Done(st, t) =>
      if st != Normal then Error
      else if t.args == [] then Empty
      else
        var builtin, last, n := BuiltinOf(t.args[0]), t.args[|t.args| - 1], |t.args| - 1;
        if StartsWithAmpersand(last) then
          if n == 0 then Empty else Command(true, t.(args := t.args[..n]), builtin)
        else Command(false, t, builtin)
  }

  // ----- the steps of scanning -----

  lemma SkipStep(s: string, st: State, t: Tokens)
    ensures var r := s[BlankLength(s)..]; Scan(s, st, t) == Scan(r, st, t) && (r != "" ==> !IsBlank(r[0]))
  {
    var r := s[BlankLength(s)..];
    assert BlankLength(r) == 0;
    SameScan(s, r, st, t);
  }

  lemma SameScan(a: string, b: string, st: State, t: Tokens)
    requires a[BlankLength(a)..] == b[BlankLength(b)..]
    ensures Scan(a, st, t) == Scan(b, st, t)
  {
  }

  lemma TokenStep(r: string, st: State, t: Tokens)
    requires r != "" && !IsBlank(r[0])
    ensures r[0] == '<' ==> Scan(r, st, t) == if t.infile.Some? then Failed else Scan(r[1..], InFile, t)
    ensures r[0] == '>' ==> Scan(r, st, t) == if t.outfile.Some? then Failed else Scan(r[1..], OutFile, t)
    ensures IsQuote(r[0]) ==> var n := QuoteLength(r[1..], r[0]);
                              Scan(r, st, t) == if n == |r| - 1 then Failed
                                  else After(r[1..][..n], r[1..][n + 1..], st, t)
    ensures r[0] != '<' && r[0] != '>' && !IsQuote(r[0]) ==> var n := WordLength(r);
                              Scan(r, st, t) == After(r[..n], if n == |r| then "" else r[n + 1..], st, t)
  {
    hide BlankLength, WordLength, QuoteLength, After, Recorded;
    assert BlankLength(r) == 0 && r[0..] == r;
  }

  // ----- quoting -----

  function Quoted(s: string): string {
    "\"" + s + "\""
  }

  function Joined(args: seq<string>): string {
    if args == [] then "" else Quoted(args[0]) + if |args| == 1 then "" else " " + Joined(args[1..])
  }

  function FilePart(c: char, file: Option<string>): string {
    if file.None? then "" else [' ', c] + Quoted(file.value)
  }

  /** Quoted arguments and files, and perhaps an ampersand. */
  function CommandLine(t: Tokens, background: bool): string {
    Joined(t.args) + (FilePart('<', t.infile) + (FilePart('>', t.outfile) + if background then " &" else ""))
  }

  predicate Quotable(s: string) {
    forall i {:trigger s[i]} :: 0 <= i < |s| ==> s[i] != '\"' && s[i] != '\0'
  }

  lemma {:induction false} QuoteEnds(s: string, rest: string)
    requires Quotable(s)
    ensures QuoteLength(s + "\"" + rest, '\"') == |s|
  {
    if s == "" {
      assert s + "\"" + rest == "\"" + rest;
    } else {
      assert (s + "\"" + rest)[1..] == s[1..] + "\"" + rest;
      assert (s + "\"" + rest)[0] == s[0];
      QuoteEnds(s[1..], rest);
    }
  }

  /** A quoted token is read back whole. */
  lemma ScanQuoted(s: string, rest: string, st: State, t: Tokens)
    requires Quotable(s)
    ensures Scan(Quoted(s) + rest, st, t) == After(s, rest, st, t)
  {
    var line := Quoted(s) + rest;
    assert line[0] == '\"' && BlankLength(line) == 0 && line[0..] == line;
    assert line[1..] == s + "\"" + rest;
    QuoteEnds(s, rest);
    assert line[1..][..|s|] == s && line[1..][|s| + 1..] == rest;
  }

  lemma ScanBlank(s: string, st: State, t: Tokens)
    ensures Scan(" " + s, st, t) == Scan(s, st, t)
  {
    assert (" " + s)[1..] == s && (" " + s)[0] == ' ';
    var n := BlankLength(s);
    assert BlankLength(" " + s) == 1 + n;
    assert (" " + s)[1 + n..] == s[n..];
    SameScan(" " + s, s, st, t);
  }

  /** Quoted arguments are read back in order. */
  lemma {:induction false} ScanJoined(args: seq<string>, tail: string, t: Tokens)
    requires forall i {:trigger args[i]} :: 0 <= i < |args| ==> Quotable(args[i])
    requires |t.args| + |args| <= MAXARGS - 2
    ensures Scan(Joined(args) + tail, Normal, t) == Scan(tail, Normal, t.(args := t.args + args))
    decreases |args|
  {
    hide Scan, Quoted, Quotable;
    if args == [] {
      assert Joined(args) + tail == tail && t.args + args == t.args;
    } else {
      var u := t.(args := t.args + [args[0]]);
      var rest := args[1..];
      if |args| == 1 {
        assert Joined(args) + tail == Quoted(args[0]) + tail;
        ScanQuoted(args[0], tail, Normal, t);
        assert t.args + args == u.args;
      } else {
        assert Joined(args) + tail == Quoted(args[0]) + (" " + (Joined(rest) + tail));
        ScanQuoted(args[0], " " + (Joined(rest) + tail), Normal, t);
        ScanBlank(Joined(rest) + tail, Normal, u);
        ScanJoined(rest, tail, u);
        assert u.args + rest == t.args + args;
      }
    }
  }

  lemma FileLine(c: char, file: string, tail: string)
    ensures FilePart(c, Some(file)) + tail == " " + ([c] + (Quoted(file) + tail))
    ensures ([c] + (Quoted(file) + tail))[1..] == Quoted(file) + tail && ([c] + (Quoted(file) + tail))[0] == c
  {
  }

  /** A redirection is read back. */
  lemma ScanIn(file: Option<string>, tail: string, t: Tokens)
    requires (file.Some? ==> Quotable(file.value)) && t.infile == None && |t.args| < MAXARGS - 1
    ensures Scan(FilePart('<', file) + tail, Normal, t) == Scan(tail, Normal, t.(infile := file))
  {
    hide Scan, Quoted, After, Quotable;
    if file.Some? {
      var r := "<" + (Quoted(file.value) + tail);
      FileLine('<', file.value, tail);
      ScanBlank(r, Normal, t);
      TokenStep(r, Normal, t);
      ScanQuoted(file.value, tail, InFile, t);
      AfterFile(file.value, tail, InFile, t);
    } else {
      assert FilePart('<', file) + tail == tail;
    }
  }

  lemma ScanOut(file: Option<string>, tail: string, t: Tokens)
    requires (file.Some? ==> Quotable(file.value)) && t.outfile == None && |t.args| < MAXARGS - 1
    ensures Scan(FilePart('>', file) + tail, Normal, t) == Scan(tail, Normal, t.(outfile := file))
  {
    hide Scan, Quoted, After, Quotable;
    if file.Some? {
      var r := ">" + (Quoted(file.value) + tail);
      FileLine('>', file.value, tail);
      ScanBlank(r, Normal, t);
      TokenStep(r, Normal, t);
      ScanQuoted(file.value, tail, OutFile, t);
      AfterFile(file.value, tail, OutFile, t);
    } else {
      assert FilePart('>', file) + tail == tail;
    }
  }

  lemma AfterFile(file: string, tail: string, st: State, t: Tokens)
    requires |t.args| < MAXARGS - 1 && st != Normal
    ensures After(file, tail, st, t) == Scan(tail, Normal, Recorded(t, st, file))
  {
  }

  /** The end of the line, with or without an ampersand. */
  lemma ScanEnd(background: bool, t: Tokens)
    requires |t.args| < MAXARGS - 1
    ensures Scan(if background then " &" else "", Normal, t)
        == Done(Normal, if background then t.(args := t.args + ["&"]) else t)
  {
    if background {
      assert " &" == " " + "&";
      ScanBlank("&", Normal, t);
      assert "&"[0..] == "&" && WordLength("&") == 1 && "&"[..1] == "&";
      ScanNothing(t.(args := t.args + ["&"]));
    } else {
      ScanNothing(t);
    }
  }

  lemma ScanNothing(t: Tokens)
    ensures Scan("", Normal, t) == Done(Normal, t)
  {
  }

  /** With 127 arguments or more the list fills up, and the rest of the line is never looked at. */
  lemma {:induction false} ScanFull(args: seq<string>, tail: string, t: Tokens)
    requires forall i {:trigger args[i]} :: 0 <= i < |args| ==> Quotable(args[i])
    requires |t.args| < MAXARGS - 1 <= |t.args| + |args|
    ensures Scan(Joined(args) + tail, Normal, t)
         == Done(Normal, t.(args := t.args + args[..MAXARGS - 1 - |t.args|]))
    decreases |args|
  {
    hide Scan, Quoted, Quotable;
    var u := t.(args := t.args + [args[0]]);
    var rest := args[1..];
    var more := if |args| == 1 then tail else " " + (Joined(rest) + tail);
    assert Joined(args) + tail == Quoted(args[0]) + more;
    ScanQuoted(args[0], more, Normal, t);
    if |u.args| == MAXARGS - 1 {
      assert args[..1] == [args[0]];
    } else {
      ScanBlank(Joined(rest) + tail, Normal, u);
      ScanFull(rest, tail, u);
      assert t.args + args[..MAXARGS - 1 - |t.args|] == u.args + rest[..MAXARGS - 1 - |u.args|];
    }
  }

  ghost predicate AllQuotable(t: Tokens) {
    && (forall i {:trigger t.args[i]} :: 0 <= i < |t.args| ==> Quotable(t.args[i]))
    && (t.infile.Some? ==> Quotable(t.infile.value))
    && (t.outfile.Some? ==> Quotable(t.outfile.value))
  }

  /** What the scanner makes of a quoted command line: everything, up to 126 arguments; only the first 127
      arguments beyond. */
  lemma ScanCommandLine(t: Tokens, background: bool)
    requires AllQuotable(t)
    ensures Scan(CommandLine(t, background), Normal, Tokens([], None, None))
         == Done(Normal, if |t.args| >= MAXARGS - 1 then Tokens(t.args[..MAXARGS - 1], None, None)
                         else if background then t.(args := t.args + ["&"]) else t)
  {
    hide Scan, Joined, FilePart, Quotable;
    var end := if background then " &" else "";
    var start := Tokens([], None, None);
    var files := FilePart('<', t.infile) + (FilePart('>', t.outfile) + end);
    if |t.args| >= MAXARGS - 1 {
      ScanFull(t.args, files, start);
      assert start.args + t.args[..MAXARGS - 1] == t.args[..MAXARGS - 1];
    } else {
      ScanJoined(t.args, files, start);
      assert start.args + t.args == t.args;
      ScanIn(t.infile, FilePart('>', t.outfile) + end, Tokens(t.args, None, None));
      ScanOut(t.outfile, end, Tokens(t.args, t.infile, None));
      ScanEnd(background, t);
    }
  }

  /** Exactly when parsing undoes quoting. In the background the limit is 126 arguments. In the foreground the
      last argument must not start with an ampersand, and a 127th argument is read only if nothing follows it. */
  lemma ParseExact(t: Tokens, background: bool)
    requires AllQuotable(t) && t.args != [] && |CommandLine(t, background)| < MAXLINE
    ensures ParseLine(CommandLine(t, background)) == Command(background, t, BuiltinOf(t.args[0]))
       <==> if background then |t.args| <= 126
            else && !StartsWithAmpersand(t.args[|t.args| - 1])
                 && (|t.args| <= 126 || (|t.args| == 127 && t.infile == None && t.outfile == None))
  {
    hide Scan, Joined, FilePart, Quotable;
    var line := CommandLine(t, background);
    assert line[..|line|] == line;
    ScanCommandLine(t, background);
    assert (t.args + ["&"])[..|t.args|] == t.args;
    assert |t.args| == MAXARGS - 1 ==> t.args[..MAXARGS - 1] == t.args;
  }

  /** Parsing undoes quoting; the ampersand changes nothing but where the command runs. */
  lemma ParseQuoted(t: Tokens, background: bool)
    requires AllQuotable(t) && 1 <= |t.args| <= MAXARGS - 2 && |CommandLine(t, background)| < MAXLINE
    requires !StartsWithAmpersand(t.args[|t.args| - 1])
    ensures ParseLine(CommandLine(t, background)) == Command(background, t, BuiltinOf(t.args[0]))
  {
    ParseExact(t, background);
  }

  /** The least command line that is not read back: 127 arguments in the background. The ampersand is lost, and
      the command runs in the foreground. */
  lemma BackgroundLost()
    ensures var t := Tokens(seq(MAXARGS - 1, _ => ""), None, None);
            ParseLine(CommandLine(t, true)) == Command(false, t, NotBuiltin)
  {
    hide Scan;
    var t := Tokens(seq(MAXARGS - 1, _ => ""), None, None);
    var line := CommandLine(t, true);
    JoinedLength(t.args);
    assert |line| < MAXLINE;
    assert line[..|line|] == line;
    ScanCommandLine(t, true);
    assert t.args[..MAXARGS - 1] == t.args;
  }

  /** Empty arguments need two quotes and a blank each. */
  lemma {:induction false} JoinedLength(args: seq<string>)
    requires forall i {:trigger args[i]} :: 0 <= i < |args| ==> args[i] == ""
    ensures |Joined(args)| <= 3 * |args|
    decreases |args|
  {
    if args != [] { JoinedLength(args[1..]); }
  }
}
