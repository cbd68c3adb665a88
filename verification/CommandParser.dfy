/** parseline: a command line is copied into a buffer, split in place by terminators, and described by
    positions in the buffer. */
module CommandParser {
  import opened Basics
  import opened CommandLines

  /** The tokens record: positions of strings in buf. */
  class TokenRecord {
    const buf: array<char>
    var argc: nat
    const argv: array<Option<nat>>
    var infile: Option<nat>
    var outfile: Option<nat>
    var builtin: Builtin

    constructor ()
      ensures buf.Length == MAXLINE && argv.Length == MAXARGS && fresh(buf) && fresh(argv)
    {
      buf := new char[MAXLINE](_ => '\0');
      argv := new Option<nat>[MAXARGS](_ => None);
      argc, infile, outfile, builtin := 0, None, None, NotBuiltin;
    }
  }

  /** The terminated string at position i of a buffer is s. */
  ghost predicate StringAt(b: seq<char>, i: nat, s: string) {
    i + |s| < |b| && b[i..i + |s|] == s && b[i + |s|] == '\0' && '\0' !in s
  }

  ghost predicate MaybeAt(b: seq<char>, p: Option<nat>, s: Option<string>, limit: nat) {
    (p.None? <==> s.None?) && (p.Some? ==> StringAt(b, p.value, s.value) && p.value + |s.value| < limit)
  }

  /** The arguments recorded so far are the strings at their positions, all before `limit`. */
  ghost predicate ArgsAt(b: seq<char>, argv: seq<Option<nat>>, argc: nat, args: seq<string>, limit: nat) {
    && argc == |args| <= |argv|
    && forall j {:trigger argv[j]} :: 0 <= j < argc ==>
       argv[j].Some? && StringAt(b, argv[j].value, args[j])
       && argv[j].value + |args[j]| < limit
  }

  /** Nothing before `limit` differs. */
  lemma ArgsKept(b: seq<char>, c: seq<char>, argv: seq<Option<nat>>, argc: nat, args: seq<string>, limit: nat)
    requires ArgsAt(b, argv, argc, args, limit) && |b| == |c| && limit <= |b| && b[..limit] == c[..limit]
    ensures ArgsAt(c, argv, argc, args, limit)
  {
    forall j {:trigger argv[j]} | 0 <= j < argc
      ensures argv[j].Some? && StringAt(c, argv[j].value, args[j]) && argv[j].value + |args[j]| < limit
    {
      StringKept(b, c, argv[j].value, args[j], limit);
    }
  }

  lemma StringKept(b: seq<char>, c: seq<char>, i: nat, s: string, limit: nat)
    requires StringAt(b, i, s) && i + |s| < limit <= |b| && |b| == |c| && b[..limit] == c[..limit]
    ensures StringAt(c, i, s)
  {
    assert c[i..i + |s|] == c[..limit][i..i + |s|];
    assert b[i..i + |s|] == b[..limit][i..i + |s|];
    assert c[i + |s|] == c[..limit][i + |s|] && b[i + |s|] == b[..limit][i + |s|];
  }

  /** strspn(buf + p, delims), up to the end of the line. */
  method SkipBlanks(b: array<char>, p: nat, end: nat) returns (q: nat)
    requires p <= end <= b.Length
    ensures q == p + BlankLength(b[p..end])
  {
    q := p;
    while q < end && IsBlank(b[q])
      invariant p <= q <= end && p + BlankLength(b[p..end]) == q + BlankLength(b[q..end])
    {
      assert b[q..end][1..] == b[q + 1..end];
      q := q + 1;
    }
  }

  method FindBlank(b: array<char>, p: nat, end: nat) returns (q: nat)
    requires p <= end <= b.Length
    ensures q == p + WordLength(b[p..end])
  {
    q := p;
    while q < end && !IsBlank(b[q])
      invariant p <= q <= end && p + WordLength(b[p..end]) == q + WordLength(b[q..end])
    {
      assert b[q..end][1..] == b[q + 1..end];
      q := q + 1;
    }
  }

  /** strchr(buf + p, c), the end of the line if there is no such character. */
  method FindChar(b: array<char>, p: nat, end: nat, c: char) returns (q: nat)
    requires p <= end <= b.Length
    ensures q == p + QuoteLength(b[p..end], c)
  {
    q := p;
    while q < end && b[q] != c
      invariant p <= q <= end && p + QuoteLength(b[p..end], c) == q + QuoteLength(b[q..end], c)
    {
      assert b[q..end][1..] == b[q + 1..end];
      q := q + 1;
    }
  }

  /** strncpy of the line and the forced terminator. */
  method CopyLine(b: array<char>, line: string) returns (end: nat)
    requires b.Length == MAXLINE && '\0' !in line
    modifies b
    ensures end == if |line| < MAXLINE then |line| else MAXLINE - 1
    ensures b[..end] == line[..end] && b[end] == '\0'
  {
    forall i | 0 <= i < MAXLINE {
      b[i] := if i < |line| then line[i] else '\0';
    }
    b[MAXLINE - 1] := '\0';
    end := 0;
    while b[end] != '\0'
      invariant end <= MAXLINE - 1 && end <= |line| && forall i :: 0 <= i < end ==> b[i] == line[i]
      decreases MAXLINE - end
    {
      end := end + 1;
    }
  }

  /** The record describes tokens t by strings before `limit`. */
  ghost predicate Describes(r: TokenRecord, t: Tokens, limit: nat)
    reads r`argc, r`infile, r`outfile, r.buf, r.argv
  {
    && r.buf.Length == MAXLINE && r.argv.Length == MAXARGS
    && ArgsAt(r.buf[..], r.argv[..], r.argc, t.args, limit)
    && MaybeAt(r.buf[..], r.infile, t.infile, limit) && MaybeAt(r.buf[..], r.outfile, t.outfile, limit)
  }

  lemma MaybeKept(b: seq<char>, c: seq<char>, p: Option<nat>, s: Option<string>, limit: nat, more: nat)
    requires MaybeAt(b, p, s, limit) && |b| == |c| && limit <= |b| && limit <= more && b[..limit] == c[..limit]
    ensures MaybeAt(c, p, s, more)
  {
    if p.Some? { StringKept(b, c, p.value, s.value, limit); }
  }

  lemma ArgsMore(b: seq<char>, argv: seq<Option<nat>>, argc: nat, args: seq<string>, limit: nat, more: nat)
    requires ArgsAt(b, argv, argc, args, limit) && limit <= more
    ensures ArgsAt(b, argv, argc, args, more)
  {
  }

  /** Terminates the token between start and next and records it where the state says. */
  method Record(r: TokenRecord, st: State, start: nat, next: nat, ghost t: Tokens, ghost token: string,
      ghost limit: nat)
    requires Describes(r, t, limit) && limit <= start <= next < MAXLINE && token == r.buf[start..next] && '\0' !in token
    requires r.argc < MAXARGS - 1
    modifies r`argc, r`infile, r`outfile, r.buf, r.argv
    ensures Describes(r, Recorded(t, st, token), next + 1)
    ensures r.buf[..] == old(r.buf[..])[next := '\0']
  {
    ghost var b := r.buf[..];
    r.buf[next] := '\0';
    ghost var c := r.buf[..];
    ArgsKept(b, c, r.argv[..], r.argc, t.args, limit);
    ArgsMore(c, r.argv[..], r.argc, t.args, limit, next + 1);
    MaybeKept(b, c, r.infile, t.infile, limit, next + 1);
    MaybeKept(b, c, r.outfile, t.outfile, limit, next + 1);
    assert c[start..start + |token|] == token;
    assert StringAt(c, start, token);
    match st
    case Normal =>
      ghost var argv := r.argv[..];
      r.argv[r.argc] := Some(start);
      r.argc := r.argc + 1;
      assert forall j :: 0 <= j < r.argc - 1 ==> r.argv[..][j] == argv[j];
    case InFile =>
      r.infile := Some(start);
    case OutFile =>
      r.outfile := Some(start);
  }

  lemma NothingYet(r: TokenRecord)
    requires r.buf.Length == MAXLINE && r.argv.Length == MAXARGS && r.argc == 0 && r.infile == None && r.outfile == None
    ensures Describes(r, Tokens([], None, None), 0)
  {
  }

  lemma ArgsFacts(r: TokenRecord, t: Tokens)
    requires Describes(r, t, MAXLINE)
    ensures r.argc == |t.args| <= MAXARGS
    ensures forall j :: 0 <= j < r.argc ==> r.argv[j].Some? && StringAt(r.buf[..], r.argv[j].value, t.args[j])
  {
    forall j | 0 <= j < r.argc ensures r.argv[j].Some? && StringAt(r.buf[..], r.argv[j].value, t.args[j]) {
      assert r.argv[..][j] == r.argv[j];
    }
  }

  lemma DescribesMore(r: TokenRecord, t: Tokens, limit: nat, more: nat)
    requires Describes(r, t, limit) && limit <= more <= MAXLINE
    ensures Describes(r, t, more)
  {
    ArgsMore(r.buf[..], r.argv[..], r.argc, t.args, limit, more);
    if limit <= MAXLINE {
      MaybeKept(r.buf[..], r.buf[..], r.infile, t.infile, limit, more);
      MaybeKept(r.buf[..], r.buf[..], r.outfile, t.outfile, limit, more);
    }
  }

  /** The next token, at p: from where to where it goes, without its quotes. */
  method FindToken(b: array<char>, p: nat, end: nat, ghost st: State, ghost t: Tokens, ghost rest: string)
      returns (ok: bool, from: nat, next: nat)
    requires p < end < b.Length && rest == b[p..end] && '\0' !in rest
    requires !IsBlank(rest[0]) && rest[0] != '<' && rest[0] != '>'
    ensures !ok ==> Scan(rest, st, t) == Failed
    ensures ok ==> p <= from <= next <= end && p < next + 1 && '\0' !in b[from..next]
    ensures ok ==>
        '\0' !in TailOf(b[..], next, end)
        && Scan(rest, st, t) == After(b[from..next], TailOf(b[..], next, end), st, t)
  {
    hide Scan, After, BlankLength, WordLength, QuoteLength;
    TokenStep(rest, st, t);
    from, next := p, p;
    if IsQuote(b[p]) {
      from := p + 1;
      assert b[from..end] == rest[1..];
      next := FindChar(b, from, end, b[from - 1]);
      if next == end {
        return false, p, p;
      }
    } else {
      next := FindBlank(b, p, end);
    }
    TokenParts(b[..], p, from, next, end, rest);
    assert b[..][p..end] == rest && b[..][from..next] == b[from..next];
    assert next == end ==> rest[..next - p] == rest;
    ok := true;
  }

  /** What follows the terminator at next on the line. */
  function TailOf(b: seq<char>, next: nat, end: nat): string
    requires next <= end <= |b|
  {
    if next < end then b[next + 1..end] else ""
  }

  /** The next token is found, terminated and recorded. */
  method TakeToken(r: TokenRecord, p: nat, end: nat, st: State, ghost t: Tokens, ghost rest: string)
      returns (ok: bool, q: nat, ghost token: string)
    requires Describes(r, t, p) && p < end < MAXLINE && rest == r.buf[p..end] && '\0' !in rest && r.argc < MAXARGS - 1
    requires !IsBlank(rest[0]) && rest[0] != '<' && rest[0] != '>'
    modifies r`argc, r`infile, r`outfile, r.buf, r.argv
    ensures !ok ==> Scan(rest, st, t) == Failed
    ensures ok ==> p < q <= end + 1 && Describes(r, Recorded(t, st, token), q)
    ensures ok ==> var tail := if q <= end then r.buf[q..end] else "";
        '\0' !in tail && Scan(rest, st, t) == After(token, tail, st, t)
  {
    hide Scan, After, ArgsAt, MaybeAt, BlankLength, WordLength, QuoteLength, Describes, Recorded;
    FileFacts(r, t, p);
    token, q := "", p;
    var from, next;
    ok, from, next := FindToken(r.buf, p, end, st, t, rest);
    if ok {
      ghost var b := r.buf[..];
      token := r.buf[from..next];
      Record(r, st, from, next, t, token, p);
      q := next + 1;
      assert next < end ==> r.buf[q..end] == b[q..end];
    }
  }

  lemma NoTerminator(s: string, i: nat, j: nat)
    requires i <= j <= |s| && '\0' !in s
    ensures '\0' !in s[i..j]
  {
  }

  /** The pieces of the line around a token. */
  lemma TokenParts(b: seq<char>, p: nat, from: nat, next: nat, end: nat, rest: string)
    requires p <= from <= next <= end <= |b| && rest == b[p..end] && '\0' !in rest
    ensures '\0' !in b[from..next]
    ensures from == p ==> rest[..next - p] == b[from..next] && (next < end ==> rest[next - p + 1..] == b[next + 1..end])
    ensures from == p + 1 && next < end ==>
        rest[1..][..next - from] == b[from..next]
        && rest[1..][next - from + 1..] == b[next + 1..end]
    ensures next < end ==> '\0' !in b[next + 1..end]
  {
    NoTerminator(rest, from - p, next - p);
    SliceOfSlice(b, p, end, from, next);
    if next < end {
      NoTerminator(rest, next + 1 - p, end - p);
      SliceOfSlice(b, p, end, next + 1, end);
    }
  }

  lemma SliceOfSlice(b: seq<char>, p: nat, end: nat, i: nat, j: nat)
    requires p <= i <= j <= end <= |b|
    ensures b[p..end][i - p..j - p] == b[i..j]
  {
    var x, y := b[p..end][i - p..j - p], b[i..j];
    assert |x| == |y|;
    forall k | 0 <= k < |x| ensures x[k] == y[k] { }
  }

  lemma FileFacts(r: TokenRecord, t: Tokens, limit: nat)
    requires Describes(r, t, limit)
    ensures (r.infile.Some? <==> t.infile.Some?) && (r.outfile.Some? <==> t.outfile.Some?) && r.argc == |t.args|
    ensures r.buf.Length == MAXLINE && r.argv.Length == MAXARGS
  {
  }

  lemma ScanOver(st: State, t: Tokens)
    ensures Scan("", st, t) == Done(st, t)
  {
  }

  /** The start of the next token on the line, or its end. */
  method NextToken(r: TokenRecord, p: nat, end: nat, ghost st: State, ghost t: Tokens, ghost rest: string)
      returns (q: nat)
    requires Describes(r, t, p) && p <= end < MAXLINE && rest == r.buf[p..end] && '\0' !in rest
    ensures p <= q <= end && Describes(r, t, q) && '\0' !in r.buf[q..end]
    ensures Scan(r.buf[q..end], st, t) == Scan(rest, st, t) && (q < end ==> !IsBlank(r.buf[q]))
  {
    hide Scan, ArgsAt, MaybeAt, WordLength, QuoteLength;
    FileFacts(r, t, p);
    hide Describes;
    SkipStep(rest, st, t);
    q := SkipBlanks(r.buf, p, end);
    TokenParts(r.buf[..], p, q, q, end, rest);
    DescribesMore(r, t, p, q);
  }

  /** The loop of parseline over the line in buf[..end]. */
  method Split(r: TokenRecord, end: nat, ghost line: string) returns (ok: bool, st: State, ghost t: Tokens)
    requires Describes(r, Tokens([], None, None), 0) && end < MAXLINE && r.buf[..end] == line && '\0' !in line
    modifies r`argc, r`infile, r`outfile, r.buf, r.argv
    ensures Scan(line, Normal, Tokens([], None, None)) == if ok then Done(st, t) else Failed
    ensures ok ==> Describes(r, t, MAXLINE) && r.argc < MAXARGS
  {
    hide Scan, ArgsAt, MaybeAt, BlankLength, WordLength, QuoteLength, Describes, Recorded, After;
    ok, st, t := true, Normal, Tokens([], None, None);
    ghost var whole := Scan(line, st, t);
    var p: nat := 0;
    ghost var rest := line;
    FileFacts(r, t, 0);
    while p < end
      invariant p <= end + 1 && rest == (if p <= end then r.buf[p..end] else "") && '\0' !in rest
      invariant Describes(r, t, p) && r.argc < MAXARGS - 1 && Scan(rest, st, t) == whole
      decreases end - p
    {
      p := NextToken(r, p, end, st, t, rest);
      rest := r.buf[p..end];
      if p >= end {
        break;
      }
      TokenStep(rest, st, t);
      FileFacts(r, t, p);
      if r.buf[p] == '<' {
        if r.infile.Some? {
          return false, st, t;
        }
        st := InFile;
        DescribesMore(r, t, p, p + 1);
        rest := rest[1..];
        p := p + 1;
        continue;
      } else if r.buf[p] == '>' {
        if r.outfile.Some? {
          return false, st, t;
        }
        st := OutFile;
        DescribesMore(r, t, p, p + 1);
        rest := rest[1..];
        p := p + 1;
        continue;
      }
      var found, q;
      ghost var token;
      found, q, token := TakeToken(r, p, end, st, t, rest);
      if !found {
        return false, st, t;
      }
      rest := if q <= end then r.buf[q..end] else "";
      AfterStep(token, rest, st, t);
      t := Recorded(t, st, token);
      FileFacts(r, t, q);
      st := Normal;
      p := q;
      if r.argc >= MAXARGS - 1 {
        break;
      }
    }
    ScanOver(st, t);
    DescribesMore(r, t, p, MAXLINE);
  }

  lemma AfterStep(token: string, rest: string, st: State, t: Tokens)
    ensures var u := Recorded(t, st, token); After(token, rest, st, t) == if |u.args| >= MAXARGS - 1
        then Done(Normal, u) else Scan(rest, Normal, u)
    ensures |Recorded(t, st, token).args| <= |t.args| + 1
  {
  }

  /** The terminator of a string is the first one from its position on. */
  lemma StringEnd(b: seq<char>, i: nat, s: string, k: nat)
    requires StringAt(b, i, s) && i <= k <= i + |s|
    ensures k < |b| && (b[k] == '\0' <==> k == i + |s|) && b[i..i + |s|] == s
  {
    if k < i + |s| {
      assert b[i..i + |s|][k - i] == b[k];
    }
  }

  /** The string at a position. */
  method ReadString(b: array<char>, i: nat, ghost s: string) returns (r: string)
    requires StringAt(b[..], i, s)
    ensures r == s
  {
    var k := i;
    StringEnd(b[..], i, s, k);
    while b[k] != '\0'
      invariant i <= k <= i + |s| && k < b.Length && (b[k] == '\0' <==> k == i + |s|)
      decreases i + |s| - k
    {
      k := k + 1;
      StringEnd(b[..], i, s, k);
    }
    r := b[i..k];
    assert r == b[..][i..i + |s|];
  }

  /** argv[argc] = NULL, for an argument count that may be lower than before. */
  method EndArgs(r: TokenRecord, n: nat, ghost t: Tokens)
    requires Describes(r, t, MAXLINE) && n <= |t.args| && n < MAXARGS
    modifies r`argc, r.argv
    ensures Describes(r, t.(args := t.args[..n]), MAXLINE) && r.argc == n && r.argv[n] == None
  {
    ghost var argv := r.argv[..];
    r.argc := n;
    r.argv[n] := None;
    assert forall j :: 0 <= j < n ==> r.argv[..][j] == argv[j];
  }

  /** The answer and the record say what the parsed line is. */
  ghost predicate Reports(r: TokenRecord, res: Answer, p: Parsed)
    reads r, r.buf, r.argv
  {
    match p
    case Error => res == ParseError
    case Empty => res == ParseEmpty
    case Command(background, t, builtin) =>
      && res == (if background then ParseBg else ParseFg) && Describes(r, t, MAXLINE) && r.builtin == builtin
      && r.argc < MAXARGS && r.argv[r.argc] == None
  }

  /** The end of parseline, for at least one argument: builtins, and an ampersand as the last one. */
  method Classify(r: TokenRecord, ghost t: Tokens) returns (res: Answer)
    requires Describes(r, t, MAXLINE) && 0 < r.argc < MAXARGS && r.argv[r.argc] == None
    modifies r`builtin, r`argc, r.argv
    ensures !Interpret(Done(Normal, t)).Error? && Reports(r, res, Interpret(Done(Normal, t)))
  {
    ArgsFacts(r, t);
    hide Describes, StringAt;
    var first := ReadString(r.buf, r.argv[0].value, t.args[0]);
    r.builtin := BuiltinOf(first);
    var at := r.argv[r.argc - 1].value;
    FirstChar(r.buf[..], at, t.args[|t.args| - 1]);
    if r.buf[at] == '&' {
      EndArgs(r, r.argc - 1, t);
      return if r.argc == 0 then ParseEmpty else ParseBg;
    }
    return ParseFg;
  }

  lemma FirstChar(b: seq<char>, i: nat, s: string)
    requires StringAt(b, i, s)
    ensures i < |b| && (b[i] == '&' <==> s != "" && s[0] == '&')
  {
    if s != "" { assert b[i..i + |s|][0] == b[i]; }
  }

  datatype Answer = ParseError | ParseEmpty | ParseFg | ParseBg

  /** parseline: the answer, and for a command its tokens in the record. */
  method Parse(r: TokenRecord, line: string) returns (res: Answer)
    requires r.buf.Length == MAXLINE && r.argv.Length == MAXARGS && '\0' !in line
    modifies r, r.buf, r.argv
    ensures Reports(r, res, ParseLine(line))
  {
    hide Scan, ArgsAt, MaybeAt;
    var end := CopyLine(r.buf, line);
    r.argc, r.infile, r.outfile := 0, None, None;
    ghost var text := line[..end];
    NoTerminator(line, 0, end);
    NothingYet(r);
    var ok, st;
    ghost var t;
    ok, st, t := Split(r, end, text);
    if !ok || st != Normal {
      return ParseError;
    }
    ArgsFacts(r, t);
    EndArgs(r, r.argc, t);
    assert t.args[..|t.args|] == t.args;
    if r.argc == 0 {
      return ParseEmpty;
    }
    res := Classify(r, t);
  }
}
