/** Buffered reading from a descriptor that hands out its bytes in pieces of any size and may be
    interrupted. */
module RobustRead {
  import opened Basics

  const NEWLINE: Byte := 10
  const BUFFER_SIZE: nat := 8192

  /** What a call of read does: deliver at most some number of bytes, get interrupted, or fail. */
  datatype Event = Deliver(atMost: nat) | Interrupted | Failed

  /** A descriptor: the bytes to come, and what the next calls of read will do. When nothing is foreseen
      a call delivers all it can. */
  class Descriptor {
    var stream: seq<Byte>
    var events: seq<Event>

    constructor (stream: seq<Byte>, events: seq<Event>)
      ensures this.stream == stream && this.events == events
    {
      this.stream, this.events := stream, events;
    }

    /** read: the number of bytes put at the start of buf, 0 at the end of the stream, -1 for an error. */
    method Read(buf: array<Byte>, n: nat) returns (r: int, interrupted: bool)
      requires n <= buf.Length && n > 0
      modifies this, buf
      ensures -1 <= r <= n
      ensures r <= 0 ==> stream == old(stream) && buf[..] == old(buf[..])
      ensures r == 0 ==> stream == []
      ensures r > 0 ==> r <= |old(stream)| && buf[..r] == old(stream)[..r] && stream == old(stream)[r..]
      ensures |events| <= |old(events)| && (r == -1 ==> |events| < |old(events)|)
      ensures interrupted ==> r == -1
      ensures r == -1 && !interrupted ==> Failed in old(events)
      ensures forall e :: e in events ==> e in old(events)
      ensures events == if old(events) == [] then [] else old(events)[1..]
      ensures old(events) == [] ==> r == Min(|old(stream)|, n)
      ensures old(events) != [] ==>
                match old(events)[0]
                case Interrupted => r == -1 && interrupted
                case Failed => r == -1 && !interrupted
                case Deliver(m) => r == Min(Min(|old(stream)|, if m == 0 then 1 else m), n)
    {
      var event := Deliver(n);
      interrupted := false;
      if events != [] {
        event := events[0];
        events := events[1..];
      }
      match event
      case Interrupted => return -1, true;
      case Failed => return -1, false;
      case Deliver(atMost) =>
        var k := if atMost == 0 then 1 else atMost;
        r := if |stream| < k then |stream| else k;
        r := if n < r then n else r;
        forall i | 0 <= i < r {
          buf[i] := stream[i];
        }
        stream := stream[r..];
    }
  }

  // ----- lines -----

  /** The length of the line at the start of s, with its newline, cut at m bytes. */
  function LineLength(s: seq<Byte>, m: nat): (n: nat)
    ensures n <= |s| && n <= m
  {
    if s == [] || m == 0 then 0 else if s[0] == NEWLINE then 1 else 1 + LineLength(s[1..], m - 1)
  }

  /** The line ends at its first newline, at m bytes, or at the end of s. */
  lemma {:induction false} LineEnds(s: seq<Byte>, m: nat)
    ensures var n := LineLength(s, m);
            && (forall i :: 0 <= i < n - 1 ==> s[i] != 10)
            && ((n > 0 && s[n - 1] == 10) || n == m || n == |s|)
  {
    if s != [] && m > 0 && s[0] != NEWLINE { LineEnds(s[1..], m - 1); }
  }

  lemma {:induction false} LineStep(s: seq<Byte>, m: nat, k: nat)
    requires k < |s| && k < m && forall i :: 0 <= i < k ==> s[i] != NEWLINE
    ensures LineLength(s, m) == k + LineLength(s[k..], m - k)
    ensures s[k] == NEWLINE ==> LineLength(s, m) == k + 1
  {
    if k > 0 {
      LineStep(s[1..], m - 1, k - 1);
      assert s[1..][k - 1..] == s[k..];
    }
  }

  lemma {:induction false} NoLineEnd(s: seq<Byte>, m: nat)
    requires forall i :: 0 <= i < |s| && i < m ==> s[i] != NEWLINE
    ensures LineLength(s, m) == if |s| < m then |s| else m
  {
    if s != [] && m > 0 { NoLineEnd(s[1..], m - 1); }
  }

  /** How many bytes a line takes to read: those of the line, and one more if only the end of s ends it. */
  function Asked(s: seq<Byte>, m: nat): nat {
    if m == 0 then 0 else if s == [] || s[0] == NEWLINE then 1 else 1 + Asked(s[1..], m - 1)
  }

  lemma {:induction false} AskedIs(s: seq<Byte>, m: nat)
    ensures var n := LineLength(s, m);
            Asked(s, m) == if n == m || (n > 0 && s[n - 1] == NEWLINE) then n else n + 1
  {
    if m > 0 && s != [] && s[0] != NEWLINE { AskedIs(s[1..], m - 1); }
  }

  lemma {:induction false} AskedStep(s: seq<Byte>, m: nat, k: nat)
    requires k <= |s| && k <= m && forall i :: 0 <= i < k ==> s[i] != NEWLINE
    ensures Asked(s, m) == k + Asked(s[k..], m - k)
    ensures k < m ==> k < Asked(s, m)
    ensures k < m && (k == |s| || s[k] == NEWLINE) ==> Asked(s, m) == k + 1
    ensures k == m ==> Asked(s, m) == m
  {
    if k > 0 {
      AskedStep(s[1..], m - 1, k - 1);
      assert s[1..][k - 1..] == s[k..];
    }
  }

  // ----- when reading fails -----

  /** Where a reader stands: bytes in its buffer, bytes still in the stream, and what read will do. */
  datatype Standing = Standing(buffered: nat, rest: nat, events: seq<Event>)

  /** The buffer is refilled if it is empty, whatever interrupts; None if read fails. */
  function Refilled(s: Standing): (r: Option<Standing>)
    ensures r.Some? ==> r.value.buffered + r.value.rest == s.buffered + s.rest
    ensures r.Some? && r.value.buffered == 0 ==> s.buffered == 0 && s.rest == 0
    decreases |s.events|
  {
    if s.buffered > 0 then Some(s)
    else if s.events == [] then Some(Standing(Min(s.rest, BUFFER_SIZE), s.rest - Min(s.rest, BUFFER_SIZE), []))
    else
      match s.events[0]
      case Interrupted => Refilled(s.(events := s.events[1..]))
      case Failed => None
      case Deliver(atMost) =>
        var k := Min(Min(s.rest, if atMost == 0 then 1 else atMost), BUFFER_SIZE);
        Some(Standing(k, s.rest - k, s.events[1..]))
  }

  lemma RefilledNow(s: Standing)
    ensures s.buffered > 0 ==> Refilled(s) == Some(s)
  {
  }

  /** What one call of read does for a refill. */
  lemma RefilledStep(s: Standing)
    requires s.buffered == 0
    ensures s.events == [] ==>
        Refilled(s)
        == Some(Standing(Min(s.rest, BUFFER_SIZE), s.rest - Min(s.rest, BUFFER_SIZE), []))
    ensures s.events != [] ==>
              match s.events[0]
              case Interrupted => Refilled(s) == Refilled(s.(events := s.events[1..]))
              case Failed => Refilled(s) == None
              case Deliver(m) =>
                var k := Min(Min(s.rest, if m == 0 then 1 else m), BUFFER_SIZE);
                Refilled(s) == Some(Standing(k, s.rest - k, s.events[1..]))
  {
  }

  /** n more bytes, or all up to the end of the stream, can be read without a failure. */
  predicate CanRead(s: Standing, n: nat)
    decreases n
  {
    n == 0 || var r := Refilled(s);
              r.Some? && (r.value.buffered == 0 || CanRead(r.value.(buffered := r.value.buffered - 1), n - 1))
  }

  /** Bytes that are in the buffer can be read. */
  lemma {:induction false} CanReadBuffered(s: Standing, k: nat, n: nat)
    requires k <= n && k <= s.buffered
    ensures CanRead(s, n) <==> CanRead(s.(buffered := s.buffered - k), n - k)
    decreases k
  {
    if k > 0 { CanReadBuffered(s.(buffered := s.buffered - 1), k - 1, n - 1); }
  }

  lemma CanReadNothing(s: Standing)
    ensures CanRead(s, 0)
  {
  }

  lemma CanReadStep(s: Standing, n: nat)
    requires n > 0
    ensures Refilled(s) == None ==> !CanRead(s, n)
    ensures Refilled(s).Some? && Refilled(s).value.buffered == 0 ==> CanRead(s, n)
    ensures Refilled(s).Some? && Refilled(s).value.buffered > 0 ==> (CanRead(s, n) <==> CanRead(Refilled(s).value, n))
  {
  }

  // ----- the buffered reader -----

  class Reader {
    const fd: Descriptor
    const buf: array<Byte>
    var cnt: int
    var ptr: nat

    ghost predicate Valid()
      reads this
    {
      buf.Length == BUFFER_SIZE && (cnt > 0 ==> ptr + cnt <= BUFFER_SIZE)
    }

    /** All bytes that have not been handed out yet. */
    ghost function Undelivered(): seq<Byte>
      requires Valid()
      reads this, buf, fd
    {
      (if cnt > 0 then buf[ptr..ptr + cnt] else []) + fd.stream
    }

    ghost function Now(): Standing
      reads this, fd
    {
      Standing(if cnt > 0 then cnt else 0, |fd.stream|, fd.events)
    }

    /** rio_readinitb. */
    constructor (fd: Descriptor)
      ensures Valid() && this.fd == fd && Undelivered() == fd.stream && fresh(buf)
    {
      this.fd := fd;
      buf := new Byte[BUFFER_SIZE](_ => 0);
      cnt, ptr := 0, 0;
    }

    /** Refills the buffer if it is empty: 1 when there are bytes, 0 at the end, -1 for an error. */
    method Refill() returns (r: int)
      requires Valid()
      modifies this, buf, fd
      ensures Valid() && Undelivered() == old(Undelivered())
      ensures r == 1 || r == 0 || r == -1
      ensures r == 1 ==> cnt > 0
      ensures r == 0 ==> Undelivered() == []
      ensures r == -1 ==> Failed in old(fd.events)
      ensures r == -1 <==> Refilled(old(Now())) == None
      ensures r >= 0 ==> Some(Now()) == Refilled(old(Now()))
      ensures forall e :: e in fd.events ==> e in old(fd.events)
    {
      hide Refilled;
      ghost var all := Undelivered();
      RefilledNow(Now());
      while cnt <= 0
        invariant Valid() && Undelivered() == all && Refilled(Now()) == Refilled(old(Now()))
        invariant cnt > 0 ==> Refilled(Now()) == Some(Now())
        invariant forall e :: e in fd.events ==> e in old(fd.events)
        decreases |fd.events|, cnt <= 0
      {
        var interrupted;
        RefilledStep(Now());
        cnt, interrupted := fd.Read(buf, BUFFER_SIZE);
        RefilledNow(Now());
        if cnt < 0 {
          if !interrupted {
            return -1;
          }
        } else if cnt == 0 {
          return 0;
        } else {
          ptr := 0;
        }
      }
      return 1;
    }

    /** rio_read: up to n bytes to usr from offset o on. */
    method Read(usr: array<Byte>, o: nat, n: nat) returns (r: int)
      requires Valid() && n > 0 && o + n <= usr.Length && usr != buf
      modifies this, buf, fd, usr
      ensures Valid()
      ensures -1 <= r <= n
      ensures r >= 0 ==> r <= |old(Undelivered())| && Undelivered() == old(Undelivered())[r..]
      ensures r >= 0 ==> usr[..] == old(usr[..o]) + old(Undelivered())[..r] + old(usr[o + r..])
      ensures r == 0 ==> old(Undelivered()) == []
      ensures r == -1 ==> Undelivered() == old(Undelivered()) && Failed in old(fd.events)
      ensures r == -1 <==> Refilled(old(Now())) == None
      ensures r == 0 ==> Refilled(old(Now())).value.buffered == 0
      ensures r > 0 ==> var s := Refilled(old(Now())).value;
                        r == Min(n, s.buffered) && Now() == s.(buffered := s.buffered - r)
      ensures forall e :: e in fd.events ==> e in old(fd.events)
    {
      hide Valid, Undelivered, Refilled;
      var filled := Refill();
      if filled < 1 {
        if filled == 0 { NothingBuffered(); }
        return filled;
      }
      SomeBuffered();
      var count := n;
      if cnt < n {
        count := cnt;
      }
      HandOut(usr, o, count);
      return count;
    }

    lemma NothingBuffered()
      requires Valid() && Undelivered() == []
      ensures Now().buffered == 0
    {
    }

    lemma SomeBuffered()
      requires Valid() && cnt > 0
      ensures Now().buffered == cnt && cnt <= |Undelivered()| && ptr + cnt <= buf.Length
    {
    }

    /** The end of rio_read: bytes from the buffer. */
    method HandOut(usr: array<Byte>, o: nat, count: nat)
      requires Valid() && 0 < count <= cnt && o + count <= usr.Length && usr != buf
      modifies this, usr
      ensures Valid() && Now() == old(Now()).(buffered := old(cnt) - count)
      ensures Undelivered() == old(Undelivered())[count..] && count <= |old(Undelivered())|
      ensures usr[..] == old(usr[..o]) + old(Undelivered())[..count] + old(usr[o + count..])
    {
      ghost var piece := buf[ptr..ptr + count];
      assert Undelivered()[..count] == piece;
      assert Undelivered()[count..] == buf[ptr + count..ptr + cnt] + fd.stream;
      CopyOut(usr, o, count);
      ptr := ptr + count;
      cnt := cnt - count;
      assert cnt == 0 ==> buf[ptr..ptr + cnt] == [];
    }

    /** memcpy from the internal buffer. */
    method CopyOut(usr: array<Byte>, o: nat, count: nat)
      requires ptr + count <= buf.Length && o + count <= usr.Length && usr != buf
      modifies usr
      ensures usr[..] == old(usr[..o]) + buf[ptr..ptr + count] + old(usr[o + count..])
    {
      forall i | 0 <= i < count {
        usr[o + i] := buf[ptr + i];
      }
    }

    /** rio_readnb: n bytes unless the stream ends before. */
    method ReadN(usr: array<Byte>, n: nat) returns (r: int)
      requires Valid() && n <= usr.Length && usr != buf
      modifies this, buf, fd, usr
      ensures Valid() && -1 <= r <= n
      ensures r >= 0 ==> r == Min(n, |old(Undelivered())|)
      ensures r >= 0 ==> usr[..r] == old(Undelivered())[..r] && Undelivered() == old(Undelivered())[r..]
      ensures r >= 0 ==> usr[r..] == old(usr[r..])
      ensures r == -1 ==> Failed in old(fd.events)
      ensures r >= 0 <==> CanRead(old(Now()), n)
      ensures forall e :: e in fd.events ==> e in old(fd.events)
    {
      hide Valid, Undelivered, Refilled, CanRead, Now;
      ghost var all := Undelivered();
      var left := n;
      assert all[0..] == all && usr[0..] == usr[..];
      while left > 0
        invariant 0 <= left <= n && Valid() && n - left <= |all|
        invariant usr[..n - left] == all[..n - left] && Undelivered() == all[n - left..]
        invariant usr[n - left..] == old(usr[..])[n - left..]
        invariant CanRead(Now(), left) <==> CanRead(old(Now()), n)
        invariant forall e :: e in fd.events ==> e in old(fd.events)
      {
        ghost var o, before := n - left, usr[..];
        ghost var start := Now();
        CanReadStep(start, left);
        var got := Read(usr, n - left, left);
        if got < 0 {
          return -1;
        } else if got == 0 {
          break;
        }
        Extend(all, before, usr[..], o, got);
        CanReadBuffered(Refilled(start).value, got, left);
        assert old(usr[..])[o..][got..] == old(usr[..])[o + got..];
        left := left - got;
      }
      if left == 0 { CanReadNothing(Now()); }
      return n - left;
    }

    /** Bytes already delivered, and got more. */
    static lemma Extend(all: seq<Byte>, before: seq<Byte>, after: seq<Byte>, o: nat, got: nat)
      requires o + got <= |all| && o + got <= |before| && before[..o] == all[..o]
      requires after == before[..o] + all[o..][..got] + before[o + got..]
      ensures after[..o + got] == all[..o + got] && after[o + got..] == before[o + got..]
          && all[o..][got..] == all[o + got..]
    {
    }

    /** rio_read of one byte into a local variable. */
    method ReadByte() returns (r: int, c: Byte)
      requires Valid()
      modifies this, buf, fd
      ensures Valid() && -1 <= r <= 1
      ensures r == 1 ==>
          |old(Undelivered())| > 0 && c == old(Undelivered())[0]
          && Undelivered() == old(Undelivered())[1..]
      ensures r == 0 ==> old(Undelivered()) == [] && Undelivered() == []
      ensures r == -1 ==> Failed in old(fd.events)
      ensures r == -1 <==> Refilled(old(Now())) == None
      ensures r == 0 ==> Refilled(old(Now())).value.buffered == 0
      ensures r > 0 ==> var s := Refilled(old(Now())).value;
                        0 < s.buffered && Now() == s.(buffered := s.buffered - 1)
      ensures forall e :: e in fd.events ==> e in old(fd.events)
    {
      hide Refilled, Now;
      var cell := new Byte[1](_ => 0);
      r := Read(cell, 0, 1);
      c := cell[0];
      assert r == 1 ==> cell[..][0] == old(Undelivered())[..1][0];
    }

    /** One byte of the `need` that are still to be read. */
    method NextByte(ghost need: nat) returns (r: int, c: Byte)
      requires Valid() && need > 0
      modifies this, buf, fd
      ensures Valid() && -1 <= r <= 1
      ensures r == 1 ==>
                && |old(Undelivered())| > 0 && c == old(Undelivered())[0]
                && Undelivered() == old(Undelivered())[1..] && (CanRead(Now(), need - 1) <==> CanRead(old(Now()), need))
      ensures r == 0 ==> old(Undelivered()) == [] && Undelivered() == [] && CanRead(old(Now()), need)
      ensures r == -1 ==> Failed in old(fd.events) && !CanRead(old(Now()), need)
      ensures forall e :: e in fd.events ==> e in old(fd.events)
    {
      hide Valid, Undelivered, Refilled, CanRead, Now;
      ghost var start := Now();
      CanReadStep(start, need);
      r, c := ReadByte();
      if r == 1 { CanReadBuffered(Refilled(start).value, 1, need); }
    }

    /** The first k bytes of `now` are those of all, the others are those of `was`. */
    static ghost predicate Filled(was: seq<Byte>, now: seq<Byte>, all: seq<Byte>, k: nat) {
      && |was| == |now| && k <= |all| && k <= |now|
      && (forall i :: 0 <= i < k ==> now[i] == all[i]) && (forall i :: k <= i < |now| ==> now[i] == was[i])
    }

    static lemma FilledStart(was: seq<Byte>, all: seq<Byte>)
      ensures Filled(was, was, all, 0) && all[0..] == all
    {
    }

    static lemma FilledMore(was: seq<Byte>, now: seq<Byte>, all: seq<Byte>, k: nat)
      requires Filled(was, now, all, k) && k < |all| && k < |now|
      ensures Filled(was, now[k := all[k]], all, k + 1) && all[k..][1..] == all[k + 1..] && all[k..][0] == all[k]
    {
    }

    static lemma FilledIs(was: seq<Byte>, now: seq<Byte>, all: seq<Byte>, k: nat)
      requires Filled(was, now, all, k)
      ensures k <= |all| && k <= |now| == |was| && now[..k] == all[..k] && now[k..] == was[k..]
    {
    }

    /** The loop of rio_readlineb: the bytes of a line of at most m; eof says that the stream had ended before. */
    method FillLine(usr: array<Byte>, m: nat) returns (k: int, eof: bool)
      requires Valid() && m < usr.Length && usr != buf
      modifies this, buf, fd, usr
      ensures Valid() && -1 <= k <= m
      ensures k >= 0 ==>
                && k == LineLength(old(Undelivered()), m) && usr[..k] == old(Undelivered())[..k]
                && usr[k..] == old(usr[k..]) && Undelivered() == old(Undelivered())[k..]
                && (eof <==> m > 0 && old(Undelivered()) == [])
      ensures k >= 0 <==> CanRead(old(Now()), Asked(old(Undelivered()), m))
      ensures k == -1 ==> Failed in old(fd.events)
      ensures forall e :: e in fd.events ==> e in old(fd.events)
    {
      hide Valid, Undelivered, LineLength, Refilled, CanRead, Now, Asked, Filled;
      ghost var all := Undelivered();
      ghost var need := Asked(all, m);
      var bufp := 0;
      AskedStep(all, m, 0);
      FilledStart(usr[..], all);
      while bufp < m
        invariant bufp <= m && Valid() && bufp <= |all|
        invariant Filled(old(usr[..]), usr[..], all, bufp) && Undelivered() == all[bufp..]
        invariant forall i :: 0 <= i < bufp ==> all[i] != NEWLINE
        invariant bufp <= need && (CanRead(Now(), need - bufp) <==> CanRead(old(Now()), need))
        invariant forall e :: e in fd.events ==> e in old(fd.events)
      {
        AskedStep(all, m, bufp);
        var rc, c := NextByte(need - bufp);
        if rc == 1 {
          FilledMore(old(usr[..]), usr[..], all, bufp);
          usr[bufp] := c;
          bufp := bufp + 1;
          if c == NEWLINE {
            LineStep(all, m, bufp - 1);
            CanReadNothing(Now());
            FilledIs(old(usr[..]), usr[..], all, bufp);
            return bufp, false;
          }
        } else if rc == 0 {
          NoLineEnd(all, m);
          FilledIs(old(usr[..]), usr[..], all, bufp);
          return bufp, bufp == 0;
        } else {
          return -1, false;
        }
      }
      AskedStep(all, m, m);
      CanReadNothing(Now());
      NoLineEnd(all, m);
      FilledIs(old(usr[..]), usr[..], all, bufp);
      return bufp, false;
    }

    /** rio_readlineb: a line of at most maxlen - 1 bytes, terminated by 0; nothing is written at the end of
        the stream. */
    method ReadLine(usr: array<Byte>, maxlen: nat) returns (r: int)
      requires Valid() && maxlen <= usr.Length && 0 < usr.Length && usr != buf
      modifies this, buf, fd, usr
      ensures Valid() && -1 <= r
      ensures r >= 0 ==> r == LineLength(old(Undelivered()), if maxlen == 0 then 0 else maxlen - 1)
      ensures r >= 0 ==>
          r < usr.Length && usr[..r] == old(Undelivered())[..r]
          && Undelivered() == old(Undelivered())[r..]
      ensures r >= 0 ==> usr[r + 1..] == old(usr[r + 1..])
      ensures r >= 0 ==> usr[r] == if maxlen > 1 && old(Undelivered()) == [] then old(usr[0]) else 0
      ensures r >= 0 <==> CanRead(old(Now()), Asked(old(Undelivered()), if maxlen == 0 then 0 else maxlen - 1))
      ensures r == -1 ==> Failed in old(fd.events)
      ensures forall e :: e in fd.events ==> e in old(fd.events)
    {
      hide Valid, Undelivered, LineLength, Refilled, CanRead, Now, Asked;
      var eof;
      r, eof := FillLine(usr, if maxlen == 0 then 0 else maxlen - 1);
      if r < 0 || eof {
        return;
      }
      usr[r] := 0;
    }
  }

  // ----- sequences of calls -----

  datatype Call = Bytes(n: nat) | Line(maxlen: nat)

  /** The number of bytes that a call hands out when s is still to come. */
  function Taken(s: seq<Byte>, c: Call): (n: nat)
    ensures n <= |s|
  {
    match c
    case Bytes(n) => Min(n, |s|)
    case Line(maxlen) => LineLength(s, if maxlen == 0 then 0 else maxlen - 1)
  }

  /** The number of bytes that a call tries to read. */
  function Wanted(s: seq<Byte>, c: Call): nat {
    match c
    case Bytes(n) => n
    case Line(maxlen) => Asked(s, if maxlen == 0 then 0 else maxlen - 1)
  }

  /** What successive calls hand out. */
  function Segments(s: seq<Byte>, calls: seq<Call>): seq<seq<Byte>>
    decreases |calls|
  {
    if calls == [] then [] else [s[..Taken(s, calls[0])]] + Segments(s[Taken(s, calls[0])..], calls[1..])
  }

  function Rest(s: seq<Byte>, calls: seq<Call>): seq<Byte>
    decreases |calls|
  {
    if calls == [] then s else Rest(s[Taken(s, calls[0])..], calls[1..])
  }

  function Join(segments: seq<seq<Byte>>): seq<Byte> {
    if segments == [] then [] else segments[0] + Join(segments[1..])
  }

  lemma Associate(a: seq<Byte>, b: seq<Byte>, c: seq<Byte>)
    ensures (a + b) + c == a + (b + c)
  {
  }

  /** The pieces that successive calls hand out, and the rest, make up the stream. */
  lemma {:induction false} Consecutive(s: seq<Byte>, calls: seq<Call>)
    ensures Join(Segments(s, calls)) + Rest(s, calls) == s
    decreases |calls|
  {
    if calls != [] {
      var k := Taken(s, calls[0]);
      Consecutive(s[k..], calls[1..]);
      var tail := Segments(s[k..], calls[1..]);
      assert Segments(s, calls)[1..] == tail && Segments(s, calls)[0] == s[..k];
      Associate(s[..k], Join(tail), Rest(s[k..], calls[1..]));
    }
  }

  /** One call with a buffer of its own: what it hands out, and whether it succeeds. */
  method RunCall(reader: Reader, c: Call) returns (ok: bool, piece: seq<Byte>)
    requires reader.Valid()
    modifies reader, reader.buf, reader.fd
    ensures reader.Valid() && forall e :: e in reader.fd.events ==> e in old(reader.fd.events)
    ensures ok ==> var s, k := old(reader.Undelivered()), Taken(old(reader.Undelivered()), c);
                   piece == s[..k] && reader.Undelivered() == s[k..]
    ensures ok <==> CanRead(old(reader.Now()), Wanted(old(reader.Undelivered()), c))
    ensures !ok ==> Failed in old(reader.fd.events)
  {
    hide Reader.Valid, Reader.Undelivered, Reader.Now, Refilled, CanRead, LineLength, Asked;
    var r;
    match c
    case Bytes(n) =>
      var usr := new Byte[n](_ => 0);
      r := reader.ReadN(usr, n);
      ok, piece := r >= 0, if r >= 0 then usr[..r] else [];
    case Line(maxlen) =>
      var usr := new Byte[maxlen + 1](_ => 0);
      r := reader.ReadLine(usr, maxlen);
      ok, piece := r >= 0, if r >= 0 then usr[..r] else [];
  }

  /** Any sequence of calls, up to the first that fails: the calls that succeed hand out consecutive pieces of
      what was to come, each of them a whole line or the bytes asked for. */
  method RunCalls(reader: Reader, calls: seq<Call>) returns (out: seq<seq<Byte>>)
    requires reader.Valid()
    modifies reader, reader.buf, reader.fd
    ensures reader.Valid() && |out| <= |calls|
    ensures out == Segments(old(reader.Undelivered()), calls[..|out|])
    ensures |out| == |calls| ==> reader.Undelivered() == Rest(old(reader.Undelivered()), calls)
    ensures |out| == |calls| ==> Join(out) + reader.Undelivered() == old(reader.Undelivered())
    ensures |out| < |calls| ==> Failed in old(reader.fd.events)
    decreases |calls|
  {
    hide Reader.Valid, Reader.Undelivered, Taken;
    ghost var s := reader.Undelivered();
    out := [];
    if calls == [] {
      return;
    }
    var ok, piece := RunCall(reader, calls[0]);
    if ok {
      var rest := RunCalls(reader, calls[1..]);
      out := [piece] + rest;
      assert calls[..|out|][1..] == calls[1..][..|rest|];
      assert calls[..|out|][0] == calls[0];
      if |out| == |calls| {
        assert calls[..|out|] == calls;
        Consecutive(s, calls);
      }
    }
  }
}
