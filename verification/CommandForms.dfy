/** Command lines as a user writes them: words in double quotes, in single quotes or bare, redirections, and blanks
    between them; and what the shell makes of each. */
module CommandForms {
  import opened Basics
  import opened CommandLines

  datatype Form = InDouble | InSingle | Bare

  datatype Word = Word(form: Form, text: string)

  /** A piece of a line: an argument or a redirection, with the blanks before it and before the file name. */
  datatype Item = Argument(gap: string, word: Word) | Input(gap: string, inner: string, word: Word)
                | Output(gap: string, inner: string, word: Word)

  predicate Space(c: char) {
    c == ' ' || c == '\t' || c == '\r' || c == '\n'
  }

  ghost predicate Spaces(s: string) {
    forall i {:trigger s[i]} :: 0 <= i < |s| ==> Space(s[i])
  }

  ghost predicate Without(s: string, c: char) {
    forall i {:trigger s[i]} :: 0 <= i < |s| ==> s[i] != c && s[i] != '\0'
  }

  /** The word can be written in its form. */
  ghost predicate Allowed(w: Word) {
    match w.form
    case InDouble => Without(w.text, '\"')
    case InSingle => Without(w.text, '\'')
    case Bare =>
      && w.text != "" && w.text[0] != '<' && w.text[0] != '>' && w.text[0] != '\'' && w.text[0] != '\"'
      && forall i {:trigger w.text[i]} :: 0 <= i < |w.text| ==> !Space(w.text[i]) && w.text[i] != '\0'
  }

  function Written(w: Word): string {
    match w.form
    case InDouble => "\"" + w.text + "\""
    case InSingle => "\'" + w.text + "\'"
    case Bare => w.text
  }

  function Text(x: Item): string {
    match x
    case Argument(gap, w) => gap + Written(w)
    case Input(gap, inner, w) => gap + ("<" + (inner + Written(w)))
    case Output(gap, inner, w) => gap + (">" + (inner + Written(w)))
  }

  function Line(items: seq<Item>): string {
    if items == [] then "" else Text(items[0]) + Line(items[1..])
  }

  ghost predicate ItemOk(x: Item) {
    Allowed(x.word) && Spaces(x.gap) && (!x.Argument? ==> Spaces(x.inner))
  }

  /** Items that can be written one after the other: there are blanks between them. */
  ghost predicate Items(items: seq<Item>) {
    && (forall i {:trigger items[i]} :: 0 <= i < |items| ==> ItemOk(items[i]))
    && (forall i {:trigger items[i].gap} :: 0 < i < |items| ==> items[i].gap != "")
  }

  /** The arguments, the input files and the output files, in order. */
  function Arguments(items: seq<Item>): seq<string> {
    if items == [] then [] else (if items[0].Argument? then [items[0].word.text] else []) + Arguments(items[1..])
  }

  function Inputs(items: seq<Item>): seq<string> {
    if items == [] then [] else (if items[0].Input? then [items[0].word.text] else []) + Inputs(items[1..])
  }

  function Outputs(items: seq<Item>): seq<string> {
    if items == [] then [] else (if items[0].Output? then [items[0].word.text] else []) + Outputs(items[1..])
  }

  function First(files: seq<string>): Option<string> {
    if files == [] then None else Some(files[0])
  }

  /** At most one redirection of each kind, and few enough arguments. */
  predicate Plain(items: seq<Item>) {
    |Arguments(items)| <= 126 && |Inputs(items)| <= 1 && |Outputs(items)| <= 1
  }

  /** The builtin that a first argument stands for. */
  ghost predicate IsBuiltin(b: Builtin, s: string) {
    && (b == Quit <==> s == "quit") && (b == Jobs <==> s == "jobs")
    && (b == Bg <==> s == "bg") && (b == Fg <==> s == "fg")
  }

  // ----- scanning one word -----

  lemma {:induction false} ScanGap(gap: string, s: string, st: State, t: Tokens)
    requires Spaces(gap)
    ensures Scan(gap + s, st, t) == Scan(s, st, t)
  {
    hide Scan;
    if gap == "" {
      assert gap + s == s;
    } else {
      assert gap + s == [gap[0]] + (gap[1..] + s);
      OneBlank(gap[0], gap[1..] + s, st, t);
      ScanGap(gap[1..], s, st, t);
    }
  }

  lemma OneBlank(c: char, s: string, st: State, t: Tokens)
    requires Space(c)
    ensures Scan([c] + s, st, t) == Scan(s, st, t)
  {
    var n := BlankLength(s);
    assert ([c] + s)[1..] == s && BlankLength([c] + s) == 1 + n;
    assert ([c] + s)[1 + n..] == s[n..];
    SameScan([c] + s, s, st, t);
  }

  lemma {:induction false} QuoteAt(s: string, q: char, rest: string)
    requires Without(s, q)
    ensures QuoteLength(s + [q] + rest, q) == |s|
  {
    var all := s + [q] + rest;
    if s == "" {
      assert all[0] == q;
    } else {
      assert all[1..] == s[1..] + [q] + rest && all[0] == s[0];
      QuoteAt(s[1..], q, rest);
    }
  }

  lemma ScanQuote(s: string, q: char, rest: string, st: State, t: Tokens)
    requires (q == '\"' || q == '\'') && Without(s, q)
    ensures Scan([q] + s + [q] + rest, st, t) == After(s, rest, st, t)
  {
    var line := [q] + s + [q] + rest;
    QuoteAt(s, q, rest);
    assert line[1..] == s + [q] + rest;
    assert line[1..][..|s|] == s && line[1..][|s| + 1..] == rest;
    TokenStep(line, st, t);
  }

  lemma {:induction false} WordAt(s: string, rest: string)
    requires forall i {:trigger s[i]} :: 0 <= i < |s| ==> !Space(s[i])
    requires rest == "" || Space(rest[0])
    ensures WordLength(s + rest) == |s|
  {
    if s == "" {
      assert s + rest == rest;
    } else {
      assert (s + rest)[1..] == s[1..] + rest && (s + rest)[0] == s[0];
      WordAt(s[1..], rest);
    }
  }

  lemma ScanBare(w: Word, rest: string, st: State, t: Tokens)
    requires w.form == Bare && Allowed(w) && (rest == "" || Space(rest[0]))
    ensures Scan(w.text + rest, st, t) == After(w.text, if rest == "" then "" else rest[1..], st, t)
  {
    var line := w.text + rest;
    WordAt(w.text, rest);
    assert line[0] == w.text[0] && line[..|w.text|] == w.text;
    assert rest != "" ==> line[|w.text| + 1..] == rest[1..];
    TokenStep(line, st, t);
  }

  /** A word is read back in every form. */
  lemma ScanWord(w: Word, rest: string, st: State, t: Tokens)
    requires Allowed(w) && (rest == "" || Space(rest[0])) && |Recorded(t, st, w.text).args| <= 126
    ensures Scan(Written(w) + rest, st, t) == Scan(rest, Normal, Recorded(t, st, w.text))
  {
    hide Scan;
    var u := Recorded(t, st, w.text);
    match w.form
    case InDouble => ScanQuote(w.text, '\"', rest, st, t); assert Written(w) == ['\"'] + w.text + ['\"'];
    case InSingle => ScanQuote(w.text, '\'', rest, st, t); assert Written(w) == ['\''] + w.text + ['\''];
    case Bare =>
      ScanBare(w, rest, st, t);
      if rest != "" {
        assert rest == [rest[0]] + rest[1..];
        OneBlank(rest[0], rest[1..], Normal, u);
      }
  }

  // ----- scanning a line -----

  /** The tokens after one more item. */
  function Taken(t: Tokens, x: Item): Tokens {
    match x
    case Argument(_, w) => t.(args := t.args + [w.text])
    case Input(_, _, w) => t.(infile := Some(w.text))
    case Output(_, _, w) => t.(outfile := Some(w.text))
  }

  lemma ScanItem(x: Item, rest: string, t: Tokens)
    requires ItemOk(x) && (rest == "" || Space(rest[0]))
    requires |t.args| < 126 || (|t.args| == 126 && !x.Argument?)
    requires (x.Input? ==> t.infile == None) && (x.Output? ==> t.outfile == None)
    ensures Scan(Text(x) + rest, Normal, t) == Scan(rest, Normal, Taken(t, x))
  {
    hide Scan, Written, Allowed, After;
    match x
    case Argument(gap, w) =>
      assert Text(x) + rest == gap + (Written(w) + rest);
      ScanGap(gap, Written(w) + rest, Normal, t);
      ScanWord(w, rest, Normal, t);
    case Input(gap, inner, w) =>
      ScanRedirection('<', gap, inner, w, rest, t);
      ScanWord(w, rest, InFile, t);
    case Output(gap, inner, w) =>
      ScanRedirection('>', gap, inner, w, rest, t);
      ScanWord(w, rest, OutFile, t);
  }

  /** The sign and the blanks around it. */
  lemma ScanRedirection(c: char, gap: string, inner: string, w: Word, rest: string, t: Tokens)
    requires (c == '<' && t.infile == None) || (c == '>' && t.outfile == None)
    requires Spaces(gap) && Spaces(inner)
    ensures Scan(gap + ([c] + (inner + Written(w))) + rest, Normal, t)
         == Scan(Written(w) + rest, if c == '<' then InFile else OutFile, t)
  {
    hide Scan, Written;
    var st := if c == '<' then InFile else OutFile;
    var s := [c] + (inner + (Written(w) + rest));
    assert gap + ([c] + (inner + Written(w))) + rest == gap + s;
    ScanGap(gap, s, Normal, t);
    TokenStep(s, Normal, t);
    assert s[1..] == inner + (Written(w) + rest);
    ScanGap(inner, Written(w) + rest, st, t);
  }

  /** The tokens after all items. */
  function Final(t: Tokens, items: seq<Item>): Tokens {
    Tokens(t.args + Arguments(items),
           if Inputs(items) == [] then t.infile else First(Inputs(items)),
           if Outputs(items) == [] then t.outfile else First(Outputs(items)))
  }

  lemma GapStarts(items: seq<Item>, tail: string)
    requires items != [] && ItemOk(items[0]) && items[0].gap != ""
    ensures Line(items) + tail != "" && Space((Line(items) + tail)[0])
  {
    assert (Line(items) + tail)[0] == items[0].gap[0];
  }

  /** The items one by one. */
  lemma FinalStep(t: Tokens, items: seq<Item>)
    requires items != [] && |Inputs(items)| <= 1 && |Outputs(items)| <= 1
    requires |Inputs(items)| <= (if t.infile == None then 1 else 0) && |Outputs(items)| <= if t.outfile == None then 1
        else 0
    ensures var x, rest := items[0], items[1..]; var u := Taken(t, x);
            && Final(u, rest) == Final(t, items)
            && |u.args| + |Arguments(rest)| == |t.args| + |Arguments(items)|
            && (x.Argument? ==> |t.args| < |u.args|)
            && |Inputs(rest)| <= (if u.infile == None then 1 else 0) && (x.Input? ==> t.infile == None)
            && |Outputs(rest)| <= (if u.outfile == None then 1 else 0) && (x.Output? ==> t.outfile == None)
  {
    OneItem(items);
    hide Arguments, Inputs, Outputs;
    var rest := items[1..];
    match items[0]
    case Argument(_, w) =>
      assert t.args + [w.text] + Arguments(rest) == t.args + ([w.text] + Arguments(rest));
    case Input(_, _, w) =>
      assert Inputs(rest) == [] && Inputs(items) == [w.text];
    case Output(_, _, w) =>
      assert Outputs(rest) == [] && Outputs(items) == [w.text];
  }

  lemma OneItem(items: seq<Item>)
    requires items != []
    ensures var x, rest := items[0], items[1..];
            && Arguments(items) == (if x.Argument? then [x.word.text] + Arguments(rest) else Arguments(rest))
            && Inputs(items) == (if x.Input? then [x.word.text] + Inputs(rest) else Inputs(rest))
            && Outputs(items) == (if x.Output? then [x.word.text] + Outputs(rest) else Outputs(rest))
  {
  }

  /** Whatever follows a readable part of the line is scanned with the tokens of that part. */
  lemma {:induction false} ScanItems(items: seq<Item>, tail: string, t: Tokens)
    requires Items(items) && (tail == "" || Space(tail[0]))
    requires |t.args| + |Arguments(items)| <= 126
    requires |Inputs(items)| <= if t.infile == None then 1 else 0
    requires |Outputs(items)| <= if t.outfile == None then 1 else 0
    ensures Scan(Line(items) + tail, Normal, t) == Scan(tail, Normal, Final(t, items))
    decreases |items|
  {
    hide Scan, Text, ItemOk, Arguments, Inputs, Outputs, Final, Taken, Space;
    if items == [] {
      assert Line(items) + tail == tail;
      FinalNothing(t);
    } else {
      var x, rest := items[0], items[1..];
      FinalStep(t, items);
      NextStarts(items, tail);
      ScanItem(x, Line(rest) + tail, t);
      ScanItems(rest, tail, Taken(t, x));
    }
  }

  lemma FinalNothing(t: Tokens)
    ensures Final(t, []) == t
  {
    assert t.args + [] == t.args;
  }

  /** After the first item the line ends, or a blank follows. */
  lemma NextStarts(items: seq<Item>, tail: string)
    requires Items(items) && items != [] && (tail == "" || Space(tail[0]))
    ensures ItemOk(items[0]) && Items(items[1..])
    ensures Line(items) + tail == Text(items[0]) + (Line(items[1..]) + tail)
    ensures Line(items[1..]) + tail == "" || Space((Line(items[1..]) + tail)[0])
  {
    hide ItemOk, Text, Space;
    var rest := items[1..];
    ItemsRest(items);
    assert ItemOk(items[0]);
    if rest != [] {
      assert rest[0] == items[1] && ItemOk(items[1]) && items[1].gap != "";
      GapStarts(rest, tail);
    } else {
      assert Line(rest) + tail == tail;
    }
  }

  lemma ItemsRest(items: seq<Item>)
    requires Items(items) && items != []
    ensures Items(items[1..])
  {
    var rest := items[1..];
    forall i {:trigger rest[i]} | 0 <= i < |rest| ensures ItemOk(rest[i]) { assert rest[i] == items[i + 1]; }
    forall i {:trigger rest[i].gap} | 0 < i < |rest| ensures rest[i].gap != "" { assert items[i + 1].gap != ""; }
  }

  const START := Tokens([], None, None)

  lemma ScanLine(items: seq<Item>, tail: string)
    requires Items(items) && Plain(items) && (tail == "" || Space(tail[0]))
    ensures Scan(Line(items) + tail, Normal, START)
         == Scan(tail, Normal, Tokens(Arguments(items), First(Inputs(items)), First(Outputs(items))))
  {
    hide Scan;
    ScanItems(items, tail, START);
    assert [] + Arguments(items) == Arguments(items);
  }

  lemma ScanTrail(trail: string, st: State, t: Tokens)
    requires Spaces(trail)
    ensures Scan(trail, st, t) == Done(st, t)
  {
    ScanGap(trail, "", st, t);
    assert trail + "" == trail && BlankLength("") == 0;
  }

  // ----- what the shell makes of the line -----

  /** A line of readable items: the arguments and files come out as they were meant. A last argument that starts with
      an ampersand is dropped, and the command runs in the background. */
  lemma ParseWritten(items: seq<Item>, trail: string) returns (b: Builtin)
    requires Items(items) && Plain(items) && Spaces(trail) && |Line(items) + trail| < 1024
    ensures var args := Arguments(items); var n := |args| - 1;
            var background := args != [] && args[n] != "" && args[n][0] == '&';
            ParseLine(Line(items) + trail) ==
              if args == [] || (background && n == 0) then Empty
              else Command(background, Tokens(if background then args[..n] else args,
                                              First(Inputs(items)), First(Outputs(items))), b)
    ensures Arguments(items) != [] ==> IsBuiltin(b, Arguments(items)[0])
  {
    hide Scan, Arguments, Inputs, Outputs, Line, Items, Spaces, Plain, First, BuiltinOf;
    var args, line := Arguments(items), Line(items) + trail;
    b := if args == [] then NotBuiltin else BuiltinOf(args[0]);
    if args != [] { BuiltinIs(args[0]); }
    assert line[..|line|] == line;
    SpacesStart(trail);
    ScanLine(items, trail);
    ScanTrail(trail, Normal, Tokens(args, First(Inputs(items)), First(Outputs(items))));
  }

  lemma SpacesStart(s: string)
    requires Spaces(s)
    ensures s == "" || Space(s[0])
  {
  }

  lemma BuiltinIs(s: string)
    ensures IsBuiltin(BuiltinOf(s), s)
  {
  }

  /** A second redirection of the same kind is an error, whatever follows. */
  lemma SecondRedirection(items: seq<Item>, gap: string, c: char, tail: string)
    requires Items(items) && Plain(items) && Spaces(gap) && gap != ""
    requires (c == '<' && Inputs(items) != []) || (c == '>' && Outputs(items) != [])
    requires |Line(items) + (gap + ([c] + tail))| < 1024
    ensures ParseLine(Line(items) + (gap + ([c] + tail))) == Error
  {
    hide Scan;
    var line := Line(items) + (gap + ([c] + tail));
    var t := Tokens(Arguments(items), First(Inputs(items)), First(Outputs(items)));
    assert line[..|line|] == line;
    ScanLine(items, gap + ([c] + tail));
    ScanGap(gap, [c] + tail, Normal, t);
    TokenStep([c] + tail, Normal, t);
  }

  /** So is a redirection without a file name. */
  lemma NoFileName(items: seq<Item>, gap: string, c: char, trail: string)
    requires Items(items) && Plain(items) && Spaces(gap) && gap != "" && Spaces(trail) && (c == '<' || c == '>')
    requires |Line(items) + (gap + ([c] + trail))| < 1024
    ensures ParseLine(Line(items) + (gap + ([c] + trail))) == Error
  {
    hide Scan;
    var line := Line(items) + (gap + ([c] + trail));
    var t := Tokens(Arguments(items), First(Inputs(items)), First(Outputs(items)));
    assert line[..|line|] == line;
    ScanLine(items, gap + ([c] + trail));
    ScanGap(gap, [c] + trail, Normal, t);
    TokenStep([c] + trail, Normal, t);
    assert ([c] + trail)[1..] == trail;
    ScanTrail(trail, if c == '<' then InFile else OutFile, t);
  }

  /** And a quote that is not closed. */
  lemma OpenQuote(items: seq<Item>, gap: string, q: char, s: string)
    requires Items(items) && Plain(items) && Spaces(gap) && gap != "" && (q == '\"' || q == '\'') && Without(s, q)
    requires |Line(items) + (gap + ([q] + s))| < 1024
    ensures ParseLine(Line(items) + (gap + ([q] + s))) == Error
  {
    hide Scan;
    var line := Line(items) + (gap + ([q] + s));
    var t := Tokens(Arguments(items), First(Inputs(items)), First(Outputs(items)));
    assert line[..|line|] == line;
    ScanLine(items, gap + ([q] + s));
    ScanGap(gap, [q] + s, Normal, t);
    TokenStep([q] + s, Normal, t);
    assert ([q] + s)[1..] == s;
    NoQuote(s, q);
  }

  lemma {:induction false} NoQuote(s: string, q: char)
    requires Without(s, q)
    ensures QuoteLength(s, q) == |s|
  {
    if s != "" { NoQuote(s[1..], q); }
  }

  /** Only the first 1023 characters of a line count. */
  lemma LongLine(line: string)
    requires |line| >= 1024
    ensures ParseLine(line) == ParseLine(line[..1023])
  {
    assert line[..1023][..1023] == line[..1023];
  }
}
