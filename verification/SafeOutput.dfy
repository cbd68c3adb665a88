/** sio_vdprintf: a format is expanded piece by piece into a descriptor. */
module SafeOutput {
  import opened Basics
  import opened Numerals
  import opened SafePrintf
  import opened FormatStrings

  /** A descriptor that takes a number of characters before writing to it fails. */
  class Sink {
    var written: string
    var room: nat

    constructor (room: nat)
      ensures written == "" && this.room == room
    {
      written, this.room := "", room;
    }

    /** rio_writen: all of s, or an error after a part of it. */
    method WriteN(s: string) returns (r: int)
      modifies this
      ensures r == if |s| <= old(room) then |s| else -1
      ensures r >= 0 ==> written == old(written) + s && room == old(room) - |s|
      ensures r < 0 ==> written == old(written) + s[..old(room)] && room == 0
    {
      if |s| <= room {
        written := written + s;
        room := room - |s|;
        return |s|;
      }
      written := written + s[..room];
      room := 0;
      return -1;
    }
  }

  /** _handle_format: the length of the piece at the start of f, what it prints, and the arguments left. */
  method HandleFormat(f: string, args: seq<Arg>, buf: array<char>) returns (pos: nat, str: string, left: seq<Arg>)
    requires f != "" && WellTyped(f, args) && buf.Length == 128
    modifies buf
    ensures pos == NextPiece(f).length
    ensures left == if TakesArgument(NextPiece(f).conversion) then args[1..] else args
    ensures var p := NextPiece(f); str == Expansion(f, p, if TakesArgument(p.conversion) then args[0] else NoText)
  {
    pos, str, left := 0, "", args;
    var handled, convertType, value := false, '\0', 0;
    if f[0] == '%' {
      var c := CharAt(f, 1);
      if c == 'c' {
        buf[0] := AsChar(args[0].v);
        buf[1] := '\0';
        str, left := [buf[0]], args[1..];
        handled, pos := true, 2;
      } else if c == 's' {
        str, left := if args[0].NoText? then "(null)" else args[0].s, args[1..];
        handled, pos := true, 2;
      } else if c == '%' {
        str := f[..1];
        handled, pos := true, 2;
      } else if c == 'p' {
        if args[0].v == 0 {
          str, handled := "(nil)", true;
        } else {
          convertType, value := 'p', args[0].v;
        }
        left, pos := args[1..], 2;
      } else if c == 'd' || c == 'i' {
        convertType, value, left, pos := 'd', args[0].v, args[1..], 2;
      } else if c == 'u' || c == 'x' || c == 'o' {
        convertType, value, left, pos := c, args[0].v, args[1..], 2;
      } else if c == 'l' || c == 'z' {
        var d := CharAt(f, 2);
        if d == 'd' || d == 'i' {
          convertType, value, left, pos := 'd', if c == 'z' then AsSigned(args[0].v) else args[0].v, args[1..], 3;
        } else if d == 'u' || d == 'x' || d == 'o' {
          convertType, value, left, pos := d, args[0].v, args[1..], 3;
        }
      }
      if convertType != '\0' {
        str := Convert(convertType, value, buf);
        handled := true;
      }
    }
    if !handled {
      var n := 1 + PlainLength(f[1..]);
      str := f[..n];
      pos := pos + n;
    }
  }

  /** The conversions of numbers. */
  method Convert(t: char, v: int, buf: array<char>) returns (str: string)
    requires t == 'd' || t == 'u' || t == 'x' || t == 'o' || t == 'p'
    requires -WORD_LIMIT < v < WORD_LIMIT && (t == 'd' || v >= 0) && buf.Length == 128
    modifies buf
    ensures str == if t == 'd' then SignedNumeral(v, 10) else if t == 'p' then "0x" + Numeral(v, 16)
        else Numeral(v, BaseOf(t))
  {
    hide Numeral;
    ShortNumerals(v, 10);
    ShortNumerals(v, 16);
    ShortNumerals(v, 8);
    if t == 'd' {
      var len := SignedToString(v, buf, 0, 10);
      str := buf[..len];
      assert buf[0..len] == str;
    } else if t == 'p' {
      buf[0] := '0';
      buf[1] := 'x';
      ghost var start := buf[..];
      var len := UnsignedToString(v, buf, 2, 16);
      str := buf[..len + 2];
      assert start[..2] == "0x";
      assert str == buf[..2] + buf[2..2 + len];
    } else {
      var len := UnsignedToString(v, buf, 0, BaseOf(t));
      str := buf[..len];
      assert buf[0..len] == str;
    }
  }

  /** Prints the expansion of the format, or fails when the descriptor does. */
  method Vdprintf(out: Sink, f: string, args: seq<Arg>) returns (r: int)
    requires WellTyped(f, args)
    modifies out
    ensures r == if |Expand(f, args)| <= old(out.room) then |Expand(f, args)| else -1
    ensures out.written == old(out.written) + if r >= 0 then Expand(f, args) else Expand(f, args)[..old(out.room)]
  {
    hide *;
    ghost var whole := Expand(f, args);
    var pos, left := 0, args;
    r := 0;
    ghost var done := "";
    assert f[0..] == f;
    while pos < |f|
      invariant 0 <= pos <= |f| && WellTyped(f[pos..], left) && whole == done + Expand(f[pos..], left)
      invariant r == |done| && |done| <= old(out.room) && out.room == old(out.room) - |done|
          && out.written == old(out.written) + done
    {
      var buf := new char[128](_ => '\0');
      ExpandStep(f[pos..], left);
      var n, str, next := HandleFormat(f[pos..], left, buf);
      DropDrop(f, pos, n);
      pos, left := pos + n, next;
      Associate(done, str, Expand(f[pos..], left));
      if |str| > 0 {
        var w := out.WriteN(str);
        if w < 0 || w != |str| {
          CutInside(done, str, Expand(f[pos..], left), old(out.room));
          Associate(old(out.written), done, str[..old(out.room) - |done|]);
          return -1;
        }
        r := r + |str|;
        Associate(old(out.written), done, str);
      } else {
        Nothing(done, str);
      }
      done := done + str;
    }
    assert f[pos..] == "";
    ExpandNothing(left);
    Nothing(done, Expand(f[pos..], left));
  }

  lemma Associate(a: string, b: string, c: string)
    ensures a + (b + c) == (a + b) + c
  {
  }

  lemma DropDrop(f: string, i: nat, n: nat)
    requires i + n <= |f|
    ensures f[i..][n..] == f[i + n..]
  {
  }

  lemma Nothing(a: string, b: string)
    requires |b| == 0
    ensures a + b == a
  {
  }

  /** A cut inside the second of three parts. */
  lemma CutInside(a: string, b: string, c: string, n: nat)
    requires |a| <= n < |a| + |b|
    ensures |(a + b) + c| > n && ((a + b) + c)[..n] == a + b[..n - |a|]
  {
  }

  lemma ExpandNothing(args: seq<Arg>)
    ensures WellTyped("", args) && Expand("", args) == ""
  {
  }

  /** The expansion starts with the expansion of the first piece. */
  lemma ExpandStep(f: string, args: seq<Arg>)
    requires f != "" && WellTyped(f, args)
    ensures var p := NextPiece(f);
            var takes := TakesArgument(p.conversion);
            && (takes ==> args != [])
            && 0 < p.length <= |f| && WellTyped(f[p.length..], if takes then args[1..] else args)
            && Suits(p.conversion, if takes then args[0] else NoText)
            && Expand(f, args) == Expansion(f, p, if takes then args[0] else NoText)
                                  + Expand(f[p.length..], if takes then args[1..] else args)
  {
  }
}
