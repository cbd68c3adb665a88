/** What the safe printf prints, directive by directive, in terms of the text of the format and the numbers and
    strings passed. */
module FormatMeaning {
  import opened Basics
  import opened Numerals
  import opened SafePrintf
  import opened FormatStrings

  /** s is the numeral of v in base b, without leading zeros. */
  ghost predicate Writes(s: string, v: nat, b: nat) {
    Canonical(s, b) && Value(s, b) == v
  }

  /** The digits are the ten decimal ones and then the small letters, in order. */
  lemma DigitsAre(d: nat)
    requires d < 36
    ensures Digit(d) == "0123456789abcdefghijklmnopqrstuvwxyz"[d]
    ensures forall c: char :: DigitValue(c) == d <==> c == "0123456789abcdefghijklmnopqrstuvwxyz"[d]
  {
  }

  /** The first n characters of a format are one directive that takes an argument. */
  lemma Directive(d: string, g: string, p: Piece, a: Arg, args: seq<Arg>)
    requires d != "" && NextPiece(d + g) == p && p.length == |d| && TakesArgument(p.conversion)
        && Suits(p.conversion, a)
    requires WellTyped(g, args)
    ensures WellTyped(d + g, [a] + args)
    ensures Expand(d + g, [a] + args) == Expansion(d + g, p, a) + Expand(g, args)
  {
    assert (d + g)[|d|..] == g && ([a] + args)[1..] == args;
    hide NextPiece;
  }

  lemma UnsignedPiece(w: string, c: char, g: string)
    requires (w == "" || w == "l" || w == "z") && (c == 'u' || c == 'x' || c == 'o')
    ensures NextPiece("%" + w + [c] + g) == Piece(Unsigned(if w == "" then Short else Long, BaseOf(c)), 2 + |w|)
  {
    var f := "%" + w + [c] + g;
    assert f[0] == '%' && CharAt(f, 1) == if w == "" then c else w[0];
    assert w != "" ==> CharAt(f, 2) == c;
  }

  lemma SignedPiece(w: string, c: char, g: string)
    requires (w == "" || w == "l" || w == "z") && (c == 'd' || c == 'i')
    ensures NextPiece("%" + w + [c] + g) == Piece(Signed(if w == "" then Short else Long, w == "z"), 2 + |w|)
  {
    var f := "%" + w + [c] + g;
    assert f[0] == '%' && CharAt(f, 1) == if w == "" then c else w[0];
    assert w != "" ==> CharAt(f, 2) == c;
  }

  /** A minus sign for a negative number, and the numeral of its size. */
  lemma SignedNumeralIs(n: int)
    ensures var s := SignedNumeral(n, 10);
            if n < 0 then |s| > 0 && s[0] == '-' && Writes(s[1..], -n, 10) else Writes(s, n, 10)
  {
    hide Canonical, Value, Numeral;
    NumeralIs(if n < 0 then -n else n, 10);
    assert n < 0 ==> SignedNumeral(n, 10)[1..] == Numeral(-n, 10);
  }

  /** %u, %x and %o, alone or with the size l or z: base 10, 16 or 8. */
  lemma UnsignedPrints(w: string, c: char, v: nat, g: string, args: seq<Arg>) returns (s: string)
    requires (w == "" || w == "l" || w == "z") && (c == 'u' || c == 'x' || c == 'o') && WellTyped(g, args)
    requires v < if w == "" then 0x1_0000_0000 else 0x1_0000_0000_0000_0000
    ensures Writes(s, v, if c == 'x' then 16 else if c == 'o' then 8 else 10)
    ensures WellTyped("%" + w + [c] + g, [Number(v)] + args)
    ensures Expand("%" + w + [c] + g, [Number(v)] + args) == s + Expand(g, args)
  {
    hide NextPiece, Canonical, Value, Numeral, WellTyped, Expand;
    var d := "%" + w + [c];
    UnsignedPiece(w, c, g);
    var p := NextPiece(d + g);
    Directive(d, g, p, Number(v), args);
    s := Expansion(d + g, p, Number(v));
    NumeralIs(v, p.conversion.b);
  }

  /** %d and %i: a minus sign for a negative number, and the decimal numeral. With the size z the argument is
      unsigned and read as a signed number. */
  lemma SignedPrints(w: string, c: char, v: int, g: string, args: seq<Arg>) returns (s: string)
    requires (w == "" || w == "l" || w == "z") && (c == 'd' || c == 'i') && WellTyped(g, args)
    requires w == "" ==> -0x8000_0000 <= v < 0x8000_0000
    requires w == "l" ==> -0x8000_0000_0000_0000 <= v < 0x8000_0000_0000_0000
    requires w == "z" ==> 0 <= v < 0x1_0000_0000_0000_0000
    ensures var n := if w == "z" && v >= 0x8000_0000_0000_0000 then v - 0x1_0000_0000_0000_0000 else v;
            if n < 0 then |s| > 0 && s[0] == '-' && Writes(s[1..], -n, 10) else Writes(s, n, 10)
    ensures WellTyped("%" + w + [c] + g, [Number(v)] + args)
    ensures Expand("%" + w + [c] + g, [Number(v)] + args) == s + Expand(g, args)
  {
    hide NextPiece, Canonical, Value, Numeral, SignedNumeral, WellTyped, Expand;
    var d := "%" + w + [c];
    SignedPiece(w, c, g);
    var p := NextPiece(d + g);
    Directive(d, g, p, Number(v), args);
    s := Expansion(d + g, p, Number(v));
    SignedNumeralIs(if w == "z" then AsSigned(v) else v);
  }

  /** %p: 0x and the hexadecimal numeral, or (nil). */
  lemma PointerPrints(v: nat, g: string, args: seq<Arg>) returns (s: string)
    requires v < 0x1_0000_0000_0000_0000 && WellTyped(g, args)
    ensures if v == 0 then s == "(nil)" else |s| > 2 && s[..2] == "0x" && Writes(s[2..], v, 16)
    ensures WellTyped("%p" + g, [Number(v)] + args)
    ensures Expand("%p" + g, [Number(v)] + args) == s + Expand(g, args)
  {
    var p := NextPiece("%p" + g);
    Directive("%p", g, p, Number(v), args);
    s := Expansion("%p" + g, p, Number(v));
    NumeralIs(v, 16);
    assert v > 0 ==> s[2..] == Numeral(v, 16);
  }

  /** %s: the string, or (null). */
  lemma StringPrints(a: Arg, g: string, args: seq<Arg>)
    requires !a.Number? && WellTyped(g, args)
    ensures WellTyped("%s" + g, [a] + args)
    ensures Expand("%s" + g, [a] + args) == (if a.Text? then a.s else "(null)") + Expand(g, args)
  {
    Directive("%s", g, NextPiece("%s" + g), a, args);
  }

  /** %c: the character whose code is the argument, cut to a byte. */
  lemma CharacterPrints(v: int, g: string, args: seq<Arg>)
    requires WellTyped(g, args)
    ensures WellTyped("%c" + g, [Number(v)] + args)
    ensures Expand("%c" + g, [Number(v)] + args) == [(v % 256) as char] + Expand(g, args)
  {
    Directive("%c", g, NextPiece("%c" + g), Number(v), args);
  }

  /** %%: a percent sign. */
  lemma PercentPrints(g: string, args: seq<Arg>)
    requires WellTyped(g, args)
    ensures WellTyped("%%" + g, args) && Expand("%%" + g, args) == "%" + Expand(g, args)
  {
    assert ("%%" + g)[2..] == g;
  }

  // ----- everything else -----

  /** The format starts with a directive. */
  predicate StartsDirective(f: string) {
    && |f| >= 2 && f[0] == '%'
    && (f[1] in "cs%pdiuxo" || (|f| >= 3 && f[1] in "lz" && f[2] in "diuxo"))
  }

  /** Text without a percent sign, but perhaps for one at its start that begins no directive, prints itself. */
  lemma TextPrints(t: string, g: string, args: seq<Arg>)
    requires t != "" && (forall i :: 1 <= i < |t| ==> t[i] != '%') && (g == "" || g[0] == '%')
    requires !StartsDirective(t + g) && WellTyped(g, args)
    ensures WellTyped(t + g, args) && Expand(t + g, args) == t + Expand(g, args)
  {
    var f := t + g;
    assert f[1..] == t[1..] + g && f[|t|..] == g && f[..|t|] == t;
    PlainLengthIs(t[1..], g);
    assert NextPiece(f) == Piece(Literal, |t|);
  }
}
