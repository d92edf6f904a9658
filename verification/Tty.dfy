/** The ring buffer of a terminal and a write by a lone writer (tty.c, console.c). */
module Tty {

  const OBUF: nat := 512       // TTY_OBUF_SIZE

  // ----- CR-LF expansion -----

  function ByteOut(c: char): seq<char> {
    if c == '\n' then ['\r', '\n'] else [c]
  }

  function Expand(s: seq<char>): seq<char> {
    if s == [] then [] else ByteOut(s[0]) + Expand(s[1..])
  }

  lemma {:induction false} ExpandAppend(a: seq<char>, b: seq<char>)
    ensures Expand(a + b) == Expand(a) + Expand(b)
  {
    hide Expand, ByteOut;
    if a == [] {
      assert a + b == b;
      ExpandNone(a);
    } else {
      ExpandAppend(a[1..], b);
      assert (a + b)[1..] == a[1..] + b;
      ExpandNext(a + b, 0);
      ExpandNext(a, 0);
      assert (a + b)[0..] == a + b && a[0..] == a;
      assert Expand(a) + Expand(b) == ByteOut(a[0]) + (Expand(a[1..]) + Expand(b));
    }
  }

  /** What a reader gets that takes each CR-LF for a newline. */
  function Collapse(s: seq<char>): seq<char> {
    if |s| < 2 then s
    else if s[0] == '\r' && s[1] == '\n' then ['\n'] + Collapse(s[2..])
    else [s[0]] + Collapse(s[1..])
  }

  /** The expansion loses nothing: taking each CR-LF for a newline gives the input back. */
  lemma {:induction false} CollapseExpand(s: seq<char>)
    ensures Collapse(Expand(s)) == s
    ensures Expand(s) != [] ==> Expand(s)[0] != '\n'
  {
    if s != [] {
      var x, rest := Expand(s), Expand(s[1..]);
      CollapseExpand(s[1..]);
      if s[0] == '\n' {
        assert x == ['\r', '\n'] + rest && x[2..] == rest;
      } else {
        assert x == [s[0]] + rest && x[1..] == rest;
      }
    }
  }

  /** ... and no newline goes out without its return. */
  lemma {:induction false} NewlinesReturn(s: seq<char>, i: nat)
    requires i < |Expand(s)| && Expand(s)[i] == '\n'
    ensures i > 0 && Expand(s)[i - 1] == '\r'
  {
    if s != [] {
      var n := |ByteOut(s[0])|;
      CollapseExpand(s[1..]);
      if i >= n { NewlinesReturn(s[1..], i - n); }
    }
  }

  /** It is longer by one byte for each newline. */
  lemma {:induction false} ExpandLength(s: seq<char>)
    ensures |Expand(s)| == |s| + multiset(s)['\n']
  {
    if s != [] {
      assert s == [s[0]] + s[1..];
      ExpandLength(s[1..]);
    }
  }

  // ----- the ring -----

  /** `n` cells of the ring from index `at` on. */
  function Ring(buf: seq<char>, at: nat, n: nat): seq<char>
    requires at < |buf|
    decreases n
  {
    if n == 0 then [] else [buf[at]] + Ring(buf, if at + 1 == |buf| then 0 else at + 1, n - 1)
  }

  function Wrap(i: nat, size: nat): nat {
    if i >= size then i - size else i
  }

  lemma {:induction false} RingAt(buf: seq<char>, at: nat, n: nat, i: nat)
    requires at < |buf| && n <= |buf| && i < n
    ensures |Ring(buf, at, n)| == n && Ring(buf, at, n)[i] == buf[Wrap(at + i, |buf|)]
    decreases n
  {
    var next := if at + 1 == |buf| then 0 else at + 1;
    if i > 0 { RingAt(buf, next, n - 1, i - 1); }
    else if n > 1 { RingAt(buf, next, n - 1, 0); }
  }

  lemma RingLength(buf: seq<char>, at: nat, n: nat)
    requires at < |buf| && n <= |buf|
    ensures |Ring(buf, at, n)| == n
  {
    if n > 0 { RingAt(buf, at, n, 0); }
  }

  /** Storing behind the last cell appends. */
  lemma RingPut(buf: seq<char>, at: nat, n: nat, c: char)
    requires at < |buf| && n < |buf|
    ensures Wrap(at + n, |buf|) < |buf|
    ensures Ring(buf[Wrap(at + n, |buf|) := c], at, n + 1) == Ring(buf, at, n) + [c]
  {
    var b := buf[Wrap(at + n, |buf|) := c];
    RingLength(b, at, n + 1);
    RingLength(buf, at, n);
    forall i | 0 <= i <= n ensures Ring(b, at, n + 1)[i] == (Ring(buf, at, n) + [c])[i] {
      RingAt(b, at, n + 1, i);
      if i < n { RingAt(buf, at, n, i); }
    }
  }

  class Fifo {
    var buf: array<char>
    var read: nat
    var write: nat
    var count: nat

    ghost predicate Valid()
      reads this
    {
      && buf.Length > 0 && read < buf.Length && count <= buf.Length
      && write == Wrap(read + count, buf.Length)
    }

    ghost function Contents(): seq<char>
      reads this, buf
      requires Valid()
    {
      Ring(buf[..], read, count)
    }

    lemma CountIsLength()
      requires Valid()
      ensures |Contents()| == count
    {
      RingLength(buf[..], read, count);
    }

    /** `tty_fifo_init` */
    constructor (size: nat)
      requires size > 0
      ensures Valid() && fresh(buf) && buf.Length == size && Contents() == []
    {
      buf := new char[size];
      count, read, write := 0, 0, 0;
    }

    /** `tty_fifo_get`: takes the oldest byte; fails, changing nothing, on an empty ring. */
    method Get() returns (err: int, c: char)
      requires Valid()
      modifies this
      ensures Valid() && buf == old(buf)
      ensures err == if old(Contents()) == [] then -1 else 0
      ensures old(Contents()) == if err == 0 then [c] + Contents() else Contents()
      ensures count == |Contents()|
    {
      RingLength(buf[..], read, count);
      if count <= 0 { return -1, ' '; }
      c := buf[read];
      read := read + 1;
      if read >= buf.Length { read := 0; }
      count := count - 1;
      RingLength(buf[..], read, count);
      return 0, c;
    }

    /** `tty_fifo_put`: appends one byte; fails, changing nothing, on a full ring. */
    method Put(c: char) returns (err: int)
      requires Valid()
      modifies this, buf
      ensures Valid() && buf == old(buf)
      ensures err == if |old(Contents())| >= buf.Length then -1 else 0
      ensures Contents() == if err == 0 then old(Contents()) + [c] else old(Contents())
      ensures count == |Contents()|
    {
      RingLength(buf[..], read, count);
      if count >= buf.Length { return -1; }
      RingPut(buf[..], read, count, c);
      buf[write] := c;
      write := write + 1;
      if write >= buf.Length { write := 0; }
      count := count + 1;
      return 0;
    }
  }

  // ----- a lone writer -----

  /** One terminal: its output ring, the count of its semaphore and the bytes its console
      has shown. */
  class Terminal {
    const ofifo: Fifo
    var osem: nat
    var shown: seq<char>

    ghost predicate Valid()
      reads this, ofifo
    {
      && ofifo.Valid() && ofifo.buf.Length == OBUF && osem + ofifo.count == OBUF
    }

    constructor ()
      ensures Valid() && fresh(ofifo) && fresh(ofifo.buf) && ofifo.Contents() == [] && shown == []
    {
      ofifo := new Fifo(OBUF);
      osem, shown := OBUF, [];
      new;
    }

    /** `sem_wait` then `tty_fifo_put`; `asleep` when there is no token, so that the writer
        would be put to sleep. */
    method WaitPut(c: char) returns (asleep: bool, err: int)
      requires Valid()
      modifies this`osem, ofifo, ofifo.buf
      ensures Valid() && ofifo.buf == old(ofifo.buf)
      ensures asleep <==> |old(ofifo.Contents())| == OBUF
      ensures err == 0
      ensures ofifo.Contents() == if asleep then old(ofifo.Contents()) else old(ofifo.Contents()) + [c]
    {
      ofifo.CountIsLength();
      if osem == 0 { return true, 0; }
      osem := osem - 1;
      err := ofifo.Put(c);
      asleep := false;
    }

    /** One turn of the drain loop: the token goes back, the byte is shown, the next is taken. */
    method DrainOne(c: char) returns (err: int, next: char)
      requires ofifo.Valid() && ofifo.buf.Length == OBUF && osem + ofifo.count + 1 == OBUF
      modifies this`osem, this`shown, ofifo
      ensures ofifo.Valid() && ofifo.buf == old(ofifo.buf) && shown == old(shown) + [c]
      ensures err == (if old(ofifo.Contents()) == [] then -1 else 0)
      ensures old(ofifo.Contents()) == if err == 0 then [next] + ofifo.Contents() else []
      ensures ofifo.count == |ofifo.Contents()| && (err != 0 ==> ofifo.Contents() == [])
      ensures osem + ofifo.count + (if err == 0 then 1 else 0) == OBUF
      ensures ofifo.count + (if err == 0 then 1 else 0) == old(ofifo.count)
    {
      hide Fifo.Valid, Fifo.Contents;
      ofifo.CountIsLength();
      osem := osem + 1;
      shown := shown + [c];
      err, next := ofifo.Get();
    }

    /** The drain loop of `console_write`. */
    method ConsoleWrite() returns (len: nat)
      requires Valid()
      modifies this`osem, this`shown, ofifo
      ensures Valid() && ofifo.Contents() == [] && ofifo.buf == old(ofifo.buf)
      ensures shown == old(shown) + old(ofifo.Contents()) && len == |old(ofifo.Contents())|
    {
      hide Fifo.Valid, Fifo.Contents;
      len := 0;
      ofifo.CountIsLength();
      var err, c := ofifo.Get();
      while err >= 0
        invariant ofifo.Valid() && ofifo.buf == old(ofifo.buf) && err in {-1, 0}
        invariant osem + ofifo.count + (if err == 0 then 1 else 0) == OBUF
        invariant old(shown) + old(ofifo.Contents())
               == shown + (if err == 0 then [c] + ofifo.Contents() else ofifo.Contents())
        invariant ofifo.count == |ofifo.Contents()|
        invariant len == |shown| - |old(shown)|
        invariant err < 0 ==> ofifo.Contents() == [] && ofifo.count == 0
        decreases ofifo.count + (if err == 0 then 1 else 0)
      {
        err, c := DrainOne(c);
        len := len + 1;
      }
    }

    /** The loop body of `tty_write`: one byte of input, two of output for a newline. */
    method WriteByte(c: char) returns (asleep: bool, err: int)
      requires Valid()
      modifies this`osem, ofifo, ofifo.buf
      ensures Valid() && ofifo.buf == old(ofifo.buf) && err == 0
      ensures asleep <==> |old(ofifo.Contents()) + ByteOut(c)| > OBUF
      ensures ofifo.Contents() == if asleep then (old(ofifo.Contents()) + ByteOut(c))[..OBUF]
                                  else old(ofifo.Contents()) + ByteOut(c)
    {
      ofifo.CountIsLength();
      ghost var was := ofifo.Contents();
      asleep, err := false, 0;
      if c == '\n' {
        asleep, err := WaitPut('\r');
        ofifo.CountIsLength();
      }
      if !asleep && err >= 0 {
        ghost var half := ofifo.Contents();
        assert half + [c] == was + ByteOut(c);
        asleep, err := WaitPut(c);
        ofifo.CountIsLength();
      }
    }

    /** `tty_write` by the only writer, on a drained terminal: it shows the CR-LF expansion
        of its input exactly when that has no more than 512 bytes; a longer one leaves it
        asleep on a full ring, with nobody to drain it. */
    method TtyWrite(data: seq<char>) returns (finished: bool, len: nat)
      requires Valid() && ofifo.Contents() == []
      modifies this`osem, this`shown, ofifo, ofifo.buf
      ensures Valid() && (finished <==> |Expand(data)| <= OBUF)
      ensures finished ==> len == |data| && ofifo.Contents() == [] && shown == old(shown) + Expand(data)
      ensures !finished ==> ofifo.Contents() == Expand(data)[..OBUF] && osem == 0 && shown == old(shown)
    {
      hide Expand, ByteOut, Fifo.Valid, Fifo.Contents;
      len := 0;
      while len < |data|
        invariant len <= |data| && Valid() && ofifo.buf == old(ofifo.buf) && shown == old(shown)
        invariant Expand(data) == ofifo.Contents() + Expand(data[len..])
      {
        ExpandNext(data, len);
        ghost var was := ofifo.Contents();
        ofifo.CountIsLength();
        var asleep, err := WriteByte(data[len]);
        ofifo.CountIsLength();
        assert Expand(data) == (was + ByteOut(data[len])) + Expand(data[len + 1..]);
        if asleep {
          assert Expand(data)[..OBUF] == (was + ByteOut(data[len]))[..OBUF];
          return false, len;
        }
        if err < 0 { break; }
        len := len + 1;
      }
      ofifo.CountIsLength();
      assert Expand(data[len..]) == [] by { ExpandNone(data[len..]); }
      var drained := ConsoleWrite();
      finished := true;
    }
  }

  lemma ExpandNext(s: seq<char>, i: nat)
    requires i < |s|
    ensures Expand(s[i..]) == ByteOut(s[i]) + Expand(s[i + 1..])
  {
    assert s[i..][1..] == s[i + 1..];
  }

  lemma ExpandNone(s: seq<char>)
    requires s == []
    ensures Expand(s) == []
  {
  }
}
