/** kernel/tty_io.c as it runs, on the ring queues of include/linux/tty.h. The screen takes all of the write queue when
  echo is written; a device may take any part of it while tty_write runs. No signal is pending. */
module TtyCode {
  import opened Tty

  /** n & (TTY_BUF_SIZE - 1), for the differences and successors of places in the ring. */
  function Wrapped(n: int): (p: nat)
    requires 0 <= n + SIZE && n < 2 * SIZE
    ensures p < SIZE && p == n % SIZE
  {
    if n < 0 then n + SIZE else if n < SIZE then n else n - SIZE
  }

  /** struct tty_queue: a ring of 1024 bytes, of which one stays unused. `q` is the bytes from tail to head, round the
      ring. */
  class Queue {
    var data: int
    var head: nat
    var tail: nat
    const buf: array<char8>
    ghost var q: seq<char8>

    ghost predicate Valid()
      reads this, buf
    {
      && head < SIZE && tail < SIZE && buf.Length == SIZE && |q| == Wrapped(head - tail)
      && forall i {:trigger q[i]} :: 0 <= i < |q| ==> q[i] == buf[Wrapped(tail + i)]
    }

    constructor ()
      ensures Valid() && q == [] && data == 0 && fresh(buf)
    {
      data, head, tail, q := 0, 0, 0, [];
      buf := new char8[SIZE](i => 0);
    }

    method Empty() returns (b: bool)
      requires Valid()
      ensures b <==> q == []
    {
      b := head == tail;
    }

    method Left() returns (n: nat)
      requires Valid()
      ensures n == SIZE - 1 - |q|
    {
      n := Wrapped(tail - head - 1);
    }

    method Last() returns (c: char8)
      requires Valid() && q != []
      ensures c == q[|q| - 1]
    {
      c := buf[Wrapped(head - 1)];
    }

    method GetCh() returns (c: char8)
      requires Valid() && q != []
      modifies `tail, `q
      ensures Valid() && old(q) == [c] + q
    {
      c := buf[tail];
      tail := Wrapped(tail + 1);
      assert c == q[0];
      q := q[1..];
    }

    /** Into a full queue this puts a byte and empties it. */
    method PutCh(c: char8)
      requires Valid()
      modifies `head, `q, buf
      ensures Valid() && q == if |old(q)| < SIZE - 1 then old(q) + [c] else []
    {
      buf[head] := c;
      head := Wrapped(head + 1);
      q := if |q| < SIZE - 1 then q + [c] else [];
    }

    /** DEC(head). From an empty queue it makes a full one, of bytes that had been taken off it. */
    method DropLast()
      requires Valid()
      modifies `head, `q
      ensures Valid() && if old(q) == [] then |q| == SIZE - 1 else q == old(q)[..|old(q)| - 1]
    {
      head := Wrapped(head - 1);
      q := if q != [] then q[..|q| - 1] else Round(buf[..], tail);
    }

    /** The bytes from `tail` round the ring. */
    static ghost function Round(b: seq<char8>, tail: nat): (s: seq<char8>)
      requires |b| == SIZE && tail < SIZE
      ensures |s| == SIZE - 1 && forall i :: 0 <= i < |s| ==> s[i] == b[Wrapped(tail + i)]
    {
      seq(SIZE - 1, i requires 0 <= i < SIZE - 1 => b[Wrapped(tail + i)])
    }

    /** CHARS */
    method Chars() returns (n: nat)
      requires Valid()
      ensures n == |q|
    {
      n := Wrapped(head - tail);
    }
  }

  class TtyStruct {
    const readQ: Queue
    const writeQ: Queue
    const secondary: Queue
    var stopped: bool
    var interrupts: nat
    var out: seq<char8>
    var crFlag: bool

    ghost predicate Valid()
      reads this, readQ, readQ.buf, writeQ, writeQ.buf, secondary, secondary.buf
    {
      && readQ.Valid() && writeQ.Valid() && secondary.Valid()
      && readQ != writeQ && readQ != secondary && writeQ != secondary
      && readQ.buf != writeQ.buf && readQ.buf != secondary.buf && writeQ.buf != secondary.buf
    }

    /** The terminal as a line discipline sees it. */
    ghost function L(): Line
      reads this, readQ, writeQ, secondary
    {
      Line(readQ.q, secondary.q, secondary.data, out, writeQ.q, stopped, interrupts)
    }

    /** All that has ever been put in the write queue. */
    ghost function Emitted(): seq<char8>
      reads this, writeQ
    {
      out + writeQ.q
    }

    constructor ()
      ensures Valid() && L() == Line([], [], 0, [], [], false, 0) && !crFlag
      ensures fresh(readQ) && fresh(readQ.buf) && fresh(writeQ) && fresh(writeQ.buf)
      ensures fresh(secondary) && fresh(secondary.buf)
    {
      readQ := new Queue();
      writeQ := new Queue();
      secondary := new Queue();
      stopped, interrupts, out, crFlag := false, 0, [], false;
    }

    // -------------------------------------------------------------------------------------------------------
    // copy_to_cooked

    /** tty->write for a screen that takes all of the queue. */
    method WriteAll()
      requires Valid()
      modifies `out, writeQ
      ensures Valid() && L() == Flushed(old(L()))
    {
      ghost var e := Emitted();
      var none := writeQ.Empty();
      while !none
        invariant Valid() && Emitted() == e && (none <==> writeQ.q == [])
        decreases |writeQ.q|
      {
        TakeOne();
        none := writeQ.Empty();
      }
      assert out + [] == out;
    }

    /** PUTCH of the echo of a byte that goes into the secondary queue. */
    method PutEcho(t: Input, c: char8)
      requires Valid()
      modifies writeQ, writeQ.buf
      ensures Valid() && writeQ.q == if t.echo then PutAll(old(writeQ.q), Echo(t, c)) else old(writeQ.q)
    {
      if t.echo {
        if c == NL {
          PutTwo(NL, CR);
        } else if c < 32 {
          if t.echoctl {
            PutTwo('^' as int, Narrow(c + 64));
          }
        } else {
          PutOne(c);
        }
      }
    }

    method PutOne(c: char8)
      requires Valid()
      modifies writeQ, writeQ.buf
      ensures Valid() && writeQ.q == PutAll(old(writeQ.q), [c])
    {
      assert PutAll(writeQ.q, [c]) == PutAll(Put(writeQ.q, c), [c][1..]) == Put(writeQ.q, c);
      writeQ.PutCh(c);
    }

    method PutTwo(c: char8, d: char8)
      requires Valid()
      modifies writeQ, writeQ.buf
      ensures Valid() && writeQ.q == PutAll(old(writeQ.q), [c, d])
    {
      assert [c, d][1..] == [d];
      assert PutAll(writeQ.q, [c, d]) == PutAll(Put(writeQ.q, c), [d]);
      writeQ.PutCh(c);
      PutOne(d);
    }

    /** The erase character, up to the call of tty->write. */
    method EraseUp(t: Input) returns (r: Rest)
      requires Valid() && t.canon
      modifies writeQ, writeQ.buf
      ensures Valid() && (L(), r) == UpToErase(old(L()), t)
    {
      var none := secondary.Empty();
      if none {
        return Done;
      }
      var c := secondary.Last();
      if c == NL || c == t.eof {
        return Done;
      }
      PutErase(t, c);
      r := Drop(t.echo);
    }

    method PutErase(t: Input, c: char8)
      requires Valid()
      modifies writeQ, writeQ.buf
      ensures Valid()
      ensures writeQ.q == if t.echo then PutAll(old(writeQ.q), if c < 32 then [127, 127] else [127]) else old(writeQ.q)
    {
      if t.echo {
        if c < 32 {
          PutTwo(127, 127);
        } else {
          PutOne(127);
        }
      }
    }

    /** A mapped byte, up to the call of tty->write. */
    method CookUp(t: Input, c: char8) returns (r: Rest)
      requires Valid()
      modifies this, writeQ, writeQ.buf, secondary
      ensures Valid() && (L(), r) == UpToWrite(old(L()), t, c) && readQ.q == old(readQ.q)
    {
      if t.canon {
        if c == t.erase {
          r := EraseUp(t);
          return;
        }
        if c == t.stop {
          stopped := true;
          return Done;
        }
        if c == t.start {
          stopped := false;
          return Done;
        }
      }
      if !t.isig {
        if c == t.intr {
          interrupts := interrupts + 1;
          return Done;
        }
      }
      if c == NL || c == t.eof {
        secondary.data := secondary.data + 1;
      }
      PutEcho(t, c);
      r := Accept(c, t.echo);
    }

    /** From the return of tty->write on. What that may have done to the secondary queue is taken as it is. */
    method FinishRound(r: Rest)
      requires Valid()
      modifies secondary, secondary.buf
      ensures Valid() && readQ.q == old(readQ.q) && writeQ.q == old(writeQ.q)
      ensures (r.Accept? ==> !Full(old(secondary.q))) && (r.Drop? ==> old(secondary.q) != []) ==>
        L() == Finished(old(L()), r)
    {
      match r
      case Done =>
      case Accept(c, _) => secondary.PutCh(c);
      case Drop(_) => secondary.DropLast();
    }

    /** A byte off the read queue, mapped; not if it is left out. */
    method NextByte(t: Input) returns (c: char8, keep: bool)
      requires Valid() && readQ.q != []
      modifies readQ
      ensures Valid() && old(readQ.q) != [] && L() == old(L()).(read := old(readQ.q)[1..])
      ensures var d := old(readQ.q)[0]; keep == !(d == CR && !t.crnl && t.nocr) && (keep ==> c == Mapped(t, d))
    {
      ghost var q := readQ.q;
      c := readQ.GetCh();
      assert readQ.q == q[1..];
      keep := true;
      if c == CR {
        if t.crnl {
          c := NL;
        } else if t.nocr {
          return c, false;
        }
      } else if c == NL && t.nlcr {
        c := CR;
      }
      if t.uclc {
        c := ToLower(c);
      }
    }

    /** copy_to_cooked, on a terminal whose write function takes all of the write queue. */
    method CopyToCooked(t: Input)
      requires Valid()
      modifies this, readQ, writeQ, writeQ.buf, secondary, secondary.buf
      ensures Valid() && L() == Cook(old(L()), t)
    {
      var none := readQ.Empty();
      var left := secondary.Left();
      while !none && left != 0
        invariant Valid() && Cook(L(), t) == Cook(old(L()), t)
        invariant (none <==> readQ.q == []) && left == SIZE - 1 - |secondary.q|
        decreases |readQ.q|
      {
        CookNext(t);
        none := readQ.Empty();
        left := secondary.Left();
      }
    }

    /** One round of the loop. */
    method CookNext(t: Input)
      requires Valid() && readQ.q != [] && |secondary.q| < SIZE - 1
      modifies this, readQ, writeQ, writeQ.buf, secondary, secondary.buf
      ensures Valid() && old(readQ.q) != [] && L() == Round(old(L()), t)
    {
      ghost var l := L();
      var c, keep := NextByte(t);
      if !keep {
        return;
      }
      UpTo(L(), t, c);
      var r := CookUp(t, c);
      if Writes(r) {
        WriteAll();
      }
      FinishRound(r);
    }

    // -------------------------------------------------------------------------------------------------------
    // The dequeue loop of tty_read

    /** A byte off the secondary queue. */
    method TakeByte(t: Input) returns (c: char8)
      requires Valid() && secondary.q != []
      modifies secondary
      ensures Valid() && [c] + secondary.q == old(secondary.q)
      ensures secondary.data == old(secondary.data) - (if Ends(t, c) then 1 else 0)
      ensures readQ.q == old(readQ.q)
    {
      c := secondary.GetCh();
      if c == t.eof || c == NL {
        secondary.data := secondary.data - 1;
      }
    }

    /** The do-while loop of tty_read. */
    method Dequeue(t: Input, nr: nat) returns (b: seq<char8>)
      requires Valid() && nr > 0 && secondary.q != []
      modifies secondary
      ensures Valid() && (L(), b) == Read(old(L()), t, nr)
    {
      b := [];
      var n := nr;
      var none := false;
      ghost var r := Read(L(), t, nr);
      assert [] + r.1 == r.1;
      while n > 0 && !none
        invariant Valid() && (none <==> secondary.q == [])
        invariant r.0 == Read(L(), t, n).0 && r.1 == b + Read(L(), t, n).1
        decreases n
      {
        ghost var l := L();
        var c := TakeByte(t);
        ghost var m := L();
        assert l.secondary[0] == c && m == Taken(l, t);
        if c == t.eof && t.canon {
          assert b + [] == b;
          return;
        }
        assert b + ([c] + Read(m, t, n - 1).1) == b + [c] + Read(m, t, n - 1).1;
        b := b + [c];
        n := n - 1;
        none := secondary.Empty();
      }
      assert b + [] == b;
    }

    // -------------------------------------------------------------------------------------------------------
    // tty_write

    method TakeOne()
      requires Valid() && writeQ.q != []
      modifies `out, writeQ
      ensures Valid() && Emitted() == old(Emitted()) && |writeQ.q| == |old(writeQ.q)| - 1
      ensures writeQ.data == old(writeQ.data)
    {
      ghost var before := writeQ.q;
      var c := writeQ.GetCh();
      out := out + [c];
      assert out + writeQ.q == out[..|out| - 1] + before;
    }

    /** The device takes some of the queue; `least` bytes if there are as many. */
    method DeviceTakes(least: nat)
      requires Valid()
      modifies `out, writeQ
      ensures Valid() && Emitted() == old(Emitted())
      ensures |writeQ.q| <= if |old(writeQ.q)| < least then 0 else |old(writeQ.q)| - least
      ensures writeQ.data == old(writeQ.data)
    {
      var more: nat :| true;
      var n := least + more;
      ghost var e := Emitted();
      ghost var q := writeQ.q;
      var k := 0;
      var none := writeQ.Empty();
      while k < n && !none
        invariant Valid() && Emitted() == e && k <= n && (none <==> writeQ.q == []) && writeQ.data == old(writeQ.data)
        invariant |writeQ.q| + k == |q|
        decreases n - k
      {
        TakeOne();
        none := writeQ.Empty();
        k := k + 1;
      }
    }

    /** sleep_if_full: a full queue is waited for until 128 places are free. */
    method SleepIfFull()
      requires Valid()
      modifies `out, writeQ
      ensures Valid() && Emitted() == old(Emitted()) && |writeQ.q| < SIZE - 1
    {
      var left := writeQ.Left();
      if left == 0 {
        DeviceTakes(128);
      }
    }

    method Send(c: char8)
      requires Valid() && |writeQ.q| < SIZE - 1
      modifies writeQ, writeQ.buf
      ensures Valid() && Emitted() == old(Emitted()) + [c]
    {
      ghost var e, q := Emitted(), writeQ.q;
      writeQ.PutCh(c);
      assert out + (q + [c]) == (out + q) + [c];
    }

    lemma SentTaken(f: Output, cr: bool, s: seq<char8>, e: seq<char8>)
      requires s != [] && !NeedsCr(f, cr, s[0])
      ensures e + Sent(f, cr, s) == (e + [Out(f, s[0])]) + Sent(f, false, s[1..])
    {
      var x, r := [Out(f, s[0])], Sent(f, false, s[1..]);
      assert Sent(f, cr, s) == x + r by { assert [] + x == x; }
      assert e + (x + r) == (e + x) + r;
    }

    lemma SentReturn(f: Output, s: seq<char8>, e: seq<char8>)
      requires s != [] && NeedsCr(f, false, s[0])
      ensures e + Sent(f, false, s) == (e + [CR]) + Sent(f, true, s)
    {
      var x, r := [Out(f, s[0])], Sent(f, false, s[1..]);
      assert Sent(f, true, s) == x + r by { assert [] + x == x; }
      assert Sent(f, false, s) == [CR] + x + r;
      assert e + ([CR] + x + r) == (e + [CR]) + (x + r);
    }

    /** One round of the inner loop of tty_write; it leaves the byte for the next round when it sends a carriage return
        before it. */
    method PutNext(f: Output, ghost s: seq<char8>, c0: char8) returns (taken: bool)
      requires Valid() && |writeQ.q| < SIZE - 1 && s != [] && s[0] == c0
      modifies `crFlag, writeQ, writeQ.buf
      ensures Valid() && (taken ==> !crFlag) && (!taken ==> crFlag && !old(crFlag))
      ensures Emitted() + Sent(f, crFlag, if taken then s[1..] else s) == old(Emitted()) + Sent(f, old(crFlag), s)
    {
      ghost var e := Emitted();
      var c := c0;
      if f.post {
        if c == CR && f.crnl {
          c := NL;
        } else if c == NL && f.nlret {
          c := CR;
        }
        if c == NL && !crFlag && f.nlcr {
          crFlag := true;
          Send(CR);
          SentReturn(f, s, e);
          return false;
        }
        if f.lcuc {
          c := ToUpper(c);
        }
      }
      SentTaken(f, crFlag, s, e);
      crFlag := false;
      Send(c);
      taken := true;
    }

    function Rank(n: nat, j: nat, cr: bool): int { 2 * (n - j) - (if cr then 1 else 0) }

    /** The inner loop of tty_write, from byte `i` of the user's buffer, until the queue is full. */
    method FillQueue(f: Output, s: seq<char8>, i: nat) returns (j: nat)
      requires Valid() && i < |s| && |writeQ.q| < SIZE - 1
      modifies `crFlag, writeQ, writeQ.buf
      ensures Valid() && i <= j <= |s| && (j == |s| ==> !crFlag) && Rank(|s|, j, crFlag) < Rank(|s|, i, old(crFlag))
      ensures Emitted() + Sent(f, crFlag, s[j..]) == old(Emitted()) + Sent(f, old(crFlag), s[i..])
    {
      j := i;
      ghost var e := Emitted() + Sent(f, crFlag, s[i..]);
      var left := writeQ.Left();
      while j < |s| && left != 0
        invariant Valid() && i <= j <= |s| && Emitted() + Sent(f, crFlag, s[j..]) == e
        invariant left == SIZE - 1 - |writeQ.q|
        invariant if j == i && crFlag == old(crFlag) then left != 0
          else Rank(|s|, j, crFlag) < Rank(|s|, i, old(crFlag))
        invariant j == |s| ==> !crFlag
        decreases Rank(|s|, j, crFlag)
      {
        var taken := PutNext(f, s[j..], s[j]);
        assert s[j..][1..] == s[j + 1..];
        if taken {
          j := j + 1;
        }
        left := writeQ.Left();
      }
    }

    /** tty_write, on the bytes of the user's buffer. Whatever the device takes meanwhile, and wherever the queue fills
        up, what goes through it is what Sent says. */
    method TtyWrite(f: Output, s: seq<char8>) returns (n: nat)
      requires Valid()
      modifies `out, `crFlag, writeQ, writeQ.buf
      ensures Valid() && n == |s| && (s != [] ==> !crFlag)
      ensures Emitted() == old(Emitted()) + Sent(f, old(crFlag), s)
    {
      n := 0;
      while n < |s|
        invariant Valid() && n <= |s| && Emitted() + Sent(f, crFlag, s[n..]) == old(Emitted()) + Sent(f, old(crFlag), s)
        invariant n == |s| && s != [] ==> !crFlag
        decreases Rank(|s|, n, crFlag)
      {
        SleepIfFull();
        n := FillQueue(f, s, n);
        DeviceTakes(0);
      }
    }
  }
}
