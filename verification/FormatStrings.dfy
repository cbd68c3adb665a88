/** Format strings of the safe printf: how the next piece is recognised, what it expands to, and what its
    argument must be. A format is the string up to its terminator. */
module FormatStrings {
  import opened Basics
  import opened Numerals
  import opened SafePrintf

  /** An argument: a number, or a string or null pointer. */
  datatype Arg = Number(v: int) | Text(s: string) | NoText

  /** The width of an integer argument. */
  datatype Width = Short | Long

  datatype Conversion = Literal | Percent | Character | String | Pointer
                      | Signed(w: Width, wrapped: bool) | Unsigned(w: Width, b: nat)

  /** The next piece of a format: how it is converted and how many characters it takes. */
  datatype Piece = Piece(conversion: Conversion, length: nat)

  /** The character at an index, the terminator at the end. */
  function CharAt(f: string, i: nat): char {
    if i < |f| then f[i] else '\0'
  }

  /** strcspn(f, "%"). */
  function PlainLength(f: string): (n: nat)
    ensures n <= |f|
    ensures forall i :: 0 <= i < n ==> f[i] != '%'
    ensures n < |f| ==> f[n] == '%'
  {
    if f == "" || f[0] == '%' then 0 else 1 + PlainLength(f[1..])
  }

  function BaseOf(c: char): nat {
    if c == 'x' then 16 else if c == 'o' then 8 else 10
  }

  /** The piece at the start of a nonempty format. */
  function NextPiece(f: string): (p: Piece)
    requires f != ""
    ensures 0 < p.length <= |f|
    ensures p.conversion.Unsigned? ==> p.conversion.b == 8 || p.conversion.b == 10 || p.conversion.b == 16
  {
    var plain := Piece(Literal, 1 + PlainLength(f[1..]));
    if f[0] != '%' then plain
    else
      var c, d := CharAt(f, 1), CharAt(f, 2);
      if c == 'c' then Piece(Character, 2)
      else if c == 's' then Piece(String, 2)
      else if c == '%' then Piece(Percent, 2)
      else if c == 'p' then Piece(Pointer, 2)
      else if c == 'd' || c == 'i' then Piece(Signed(Short, false), 2)
      else if c == 'u' || c == 'x' || c == 'o' then Piece(Unsigned(Short, BaseOf(c)), 2)
      else if (c == 'l' || c == 'z') && (d == 'd' || d == 'i') then Piece(Signed(Long, c == 'z'), 3)
      else if (c == 'l' || c == 'z') && (d == 'u' || d == 'x' || d == 'o') then Piece(Unsigned(Long, BaseOf(d)), 3)
      else plain
  }

  predicate TakesArgument(c: Conversion) {
    !c.Literal? && !c.Percent?
  }

  /** What the caller has to pass for a conversion. */
  predicate Suits(c: Conversion, a: Arg) {
    match c
    case Literal => true
    case Percent => true
    case Character => a.Number?
    case String => !a.Number?
    case Pointer => a.Number? && 0 <= a.v < WORD_LIMIT
    case Signed(w, wrapped) =>
      a.Number? && if wrapped then 0 <= a.v < WORD_LIMIT else if w == Long then -HALF_LIMIT <= a.v < HALF_LIMIT
          else -0x8000_0000 <= a.v < 0x8000_0000
    case Unsigned(w, _) => a.Number? && 0 <= a.v < if w == Long then WORD_LIMIT else 0x1_0000_0000
  }

  /** A size_t read as a signed number. */
  function AsSigned(v: nat): int {
    if v < HALF_LIMIT then v else v - WORD_LIMIT
  }

  /** An int cut to a char. */
  function AsChar(v: int): char {
    (v % 256) as char
  }

  /** What a piece of format f with argument a expands to. */
  function Expansion(f: string, p: Piece, a: Arg): string
    requires p.length <= |f| && Suits(p.conversion, a)
    requires p.conversion.Unsigned? ==> IsBase(p.conversion.b)
  {
    match p.conversion
    case Literal => f[..p.length]
    case Percent => "%"
    case Character => [AsChar(a.v)]
    case String => if a.Text? then a.s else "(null)"
    case Pointer => if a.v == 0 then "(nil)" else "0x" + Numeral(a.v, 16)
    case Signed(_, wrapped) => SignedNumeral(if wrapped then AsSigned(a.v) else a.v, 10)
    case Unsigned(_, b) => Numeral(a.v, b)
  }

  /** The arguments suit the conversions of the format in order. */
  predicate WellTyped(f: string, args: seq<Arg>)
    decreases |f|
  {
    f == "" ||
    var p := NextPiece(f);
    if TakesArgument(p.conversion) then args != [] && Suits(p.conversion, args[0])
        && WellTyped(f[p.length..], args[1..])
    else WellTyped(f[p.length..], args)
  }

  /** The left-to-right expansion of a format. */
  function Expand(f: string, args: seq<Arg>): string
    requires WellTyped(f, args)
    decreases |f|
  {
    if f == "" then ""
    else
      var p := NextPiece(f);
      if TakesArgument(p.conversion) then Expansion(f, p, args[0]) + Expand(f[p.length..], args[1..])
      else Expansion(f, p, NoText) + Expand(f[p.length..], args)
  }

  lemma SmallWords()
    ensures WORD_LIMIT <= Pow8(22)
  {
    assert Pow8(4) == 0x1000;
    assert Pow8(8) == 0x1000 * 0x1000 by { PowSum(4, 4); }
    assert Pow8(16) == Pow8(8) * Pow8(8) by { PowSum(8, 8); }
    assert Pow8(6) == 0x40000;
    assert Pow8(22) == Pow8(16) * Pow8(6) by { PowSum(16, 6); }
  }

  lemma {:induction false} PowSum(a: nat, b: nat)
    ensures Pow8(a + b) == Pow8(a) * Pow8(b)
  {
    if a > 0 { PowSum(a - 1, b); }
  }

  /** No conversion of a number needs more than 24 characters. */
  lemma ShortNumerals(v: int, b: nat)
    requires IsBase(b) && b >= 8 && -WORD_LIMIT < v < WORD_LIMIT
    ensures |SignedNumeral(v, b)| <= 23
    ensures v >= 0 ==> |Numeral(v, b)| <= 22
  {
    SmallWords();
    LengthBound(if v < 0 then -v else v, b, 22);
  }

  // ----- literal text -----

  /** A format without percent signs expands to itself. */
  lemma PlainFormat(f: string)
    requires forall i :: 0 <= i < |f| ==> f[i] != '%'
    ensures WellTyped(f, []) && Expand(f, []) == f
  {
    if f != "" {
      var p := NextPiece(f);
      assert p.length == |f|;
      assert f[p.length..] == "";
    }
  }

  /** Doubled percent signs stand for single ones. */
  function Escaped(s: string): string {
    if s == "" then "" else (if s[0] == '%' then "%%" else [s[0]]) + Escaped(s[1..])
  }

  lemma {:induction false} EscapedPlain(t: string, s: string)
    requires forall i :: 0 <= i < |t| ==> t[i] != '%'
    ensures Escaped(t + s) == t + Escaped(s)
  {
    if t == "" {
      assert t + s == s;
    } else {
      assert (t + s)[1..] == t[1..] + s;
      EscapedPlain(t[1..], s);
    }
  }

  lemma {:induction false} PlainLengthIs(t: string, g: string)
    requires (forall i :: 0 <= i < |t| ==> t[i] != '%') && (g == "" || g[0] == '%')
    ensures PlainLength(t + g) == |t|
  {
    if t == "" {
      assert t + g == g;
    } else {
      assert (t + g)[1..] == t[1..] + g;
      PlainLengthIs(t[1..], g);
    }
  }

  /** Plain text in front of a format comes out as it is. */
  lemma PlainPrefix(t: string, g: string)
    requires t != "" && (forall i :: 0 <= i < |t| ==> t[i] != '%') && (g == "" || g[0] == '%') && WellTyped(g, [])
    ensures WellTyped(t + g, []) && Expand(t + g, []) == t + Expand(g, [])
  {
    var f := t + g;
    assert f[1..] == t[1..] + g;
    PlainLengthIs(t[1..], g);
    assert NextPiece(f) == Piece(Literal, |t|);
    assert f[|t|..] == g && f[..|t|] == t;
  }

  /** Printing an escaped string prints the string. */
  lemma {:induction false} EscapedPrints(s: string)
    ensures WellTyped(Escaped(s), []) && Expand(Escaped(s), []) == s
    decreases |s|
  {
    if s == "" {
    } else if s[0] == '%' {
      EscapedPrints(s[1..]);
      var f := Escaped(s);
      assert f[2..] == Escaped(s[1..]);
      assert NextPiece(f) == Piece(Percent, 2);
      assert s == "%" + s[1..];
    } else {
      var k := 1 + PlainLength(s[1..]);
      var t, rest := s[..k], s[k..];
      assert s == t + rest;
      forall i | 0 <= i < k ensures t[i] != '%' { assert i > 0 ==> t[i] == s[1..][i - 1]; }
      assert rest != "" ==> rest[0] == s[1..][k - 1];
      EscapedPrints(rest);
      EscapedPlain(t, rest);
      PlainPrefix(t, Escaped(rest));
    }
  }
}
