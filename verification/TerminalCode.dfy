/** con_write and respond of kernel/console.c and copy_to_cooked of kernel/tty_io.c on one terminal, as they call each
  other. Where con_write would read past the end of the write queue the model ends, and con_write returns false. */
module TerminalCode {
  import opened Console
  import opened Tty
  import opened Terminal
  import TtyCode
  import ConsoleCode

  class Crt {
    const tty: TtyCode.TtyStruct
    const screen: ConsoleCode.Screen

    function Repr(): set<object> {
      {tty, tty.readQ, tty.readQ.buf, tty.writeQ, tty.writeQ.buf, tty.secondary, tty.secondary.buf}
      + {screen, screen.cells, screen.par}
    }

    ghost predicate Valid()
      reads Repr()
    {
      && tty.Valid() && screen.Valid()
      && {screen as object, screen.cells, screen.par} !!
        {tty as object, tty.readQ, tty.readQ.buf, tty.writeQ, tty.writeQ.buf, tty.secondary, tty.secondary.buf}
    }

    constructor ()
      ensures Valid() && fresh(Repr()) && tty.L() == Line([], [], 0, [], [], false, 0)
    {
      tty := new TtyCode.TtyStruct();
      screen := new ConsoleCode.Screen();
    }

    /** How many more times ESC Z can be answered. */
    ghost function Left(): nat
      requires Valid()
      reads Repr()
    {
      Escapes(tty.writeQ.q) + Pending(screen.Show())
    }

    /** What every call keeps: answers run out, and only bytes that start none are put in the read queue. */
    twostate predicate Settles(f: Input)
      requires old(Valid()) && Valid()
      reads Repr()
    {
      AllHarmless(f, tty.readQ.q) && Left() <= old(Left())
    }

    /** con_write: true if it has taken each byte of the write queue once. */
    method ConWrite(f: Input) returns (ok: bool)
      requires Valid() && AllHarmless(f, tty.readQ.q)
      modifies Repr()
      ensures Valid() && Settles(f) && (Left() < old(Left()) || tty.readQ.q == old(tty.readQ.q))
      ensures ok <==> Clean(old(screen.Show()), old(tty.L()), f)
      ensures ok ==> (screen.Show(), tty.L()) == After(old(screen.Show()), old(tty.L()), f)
      decreases Left(), 1
    {
      ghost var t, l := screen.Show(), tty.L();
      ghost var lost := false;
      var nr := tty.writeQ.Chars();
      while nr > 0
        invariant Valid() && Settles(f) && (Left() < old(Left()) || tty.readQ.q == old(tty.readQ.q))
        invariant lost ==> tty.writeQ.q == [] && nr > 0 && !Clean(t, l, f)
        invariant !lost ==> nr == |tty.writeQ.q| && (Clean(screen.Show(), tty.L(), f) <==> Clean(t, l, f))
        invariant !lost && Clean(t, l, f) ==> After(screen.Show(), tty.L(), f) == After(t, l, f)
        decreases nr
      {
        var none := tty.writeQ.Empty();
        if none {
          return false;
        }
        nr := nr - 1;
        ghost var t1, l1 := screen.Show(), tty.L();
        ok, lost := OneByte(f);
        CleanStep(ok, lost, t1, l1, screen.Show(), tty.L(), f);
        if !ok {
          return;
        }
      }
      ok := true;
    }

    /** One round of its loop. */
    method OneByte(f: Input) returns (ok: bool, ghost lost: bool)
      requires Valid() && AllHarmless(f, tty.readQ.q) && tty.writeQ.q != []
      modifies Repr()
      ensures Valid() && Settles(f) && (Left() < old(Left()) || tty.readQ.q == old(tty.readQ.q))
      ensures old(tty.writeQ.q) != []
      ensures Became(ok, lost, old(screen.Show()), old(tty.L()), screen.Show(), tty.L(), f)
      decreases Left(), 0
    {
      ghost var t, l := screen.Show(), tty.L();
      var answers, c := Draw(f);
      ok, lost := true, false;
      if answers {
        lost := Shows(Asked(tty.L()), f) && tty.writeQ.q != [];
        ok := Respond(f);
      }
    }

    /** GETCH and what the screen does with the byte. */
    method Draw(f: Input) returns (answers: bool, c: char8)
      requires Valid() && tty.writeQ.q != []
      modifies Repr()
      ensures Valid() && tty.readQ.q == old(tty.readQ.q) && old(tty.writeQ.q) != [] && c == old(tty.writeQ.q)[0]
      ensures answers == Answers(old(screen.Show()), c)
      ensures screen.Show() == Byte(old(screen.Show()), c, f.erase) && tty.L() == Taken1(old(tty.L()))
      ensures Left() + (if answers then 1 else 0) <= old(Left())
    {
      ghost var t, l := screen.Show(), tty.L();
      c := tty.writeQ.GetCh();
      tty.out := tty.out + [c];
      assert tty.L() == Taken1(l);
      answers := screen.state == 1 && c == 'Z' as int;
      ByteState(t, c, f.erase);
      screen.WriteByte(c, f.erase);
    }

    /** respond */
    method Respond(f: Input) returns (ok: bool)
      requires Valid() && AllHarmless(f, tty.readQ.q)
      modifies Repr()
      ensures Valid() && Settles(f)
      ensures Copied(ok, old(screen.Show()), Asked(old(tty.L())), screen.Show(), tty.L(), f)
      decreases Left(), 6
    {
      PutAnswer(f);
      ok := CopyToCooked(f);
    }

    method PutAnswer(f: Input)
      requires Valid() && AllHarmless(f, tty.readQ.q)
      modifies Repr()
      ensures Valid() && Settles(f) && screen.Show() == old(screen.Show()) && tty.L() == Asked(old(tty.L()))
    {
      AnswerHarmless(f);
      ghost var l := tty.L();
      var i := 0;
      assert ANSWER[0..] == ANSWER;
      while i < |ANSWER|
        invariant i <= |ANSWER| && Valid() && Settles(f) && screen.Show() == old(screen.Show())
        invariant tty.L() == l.(read := tty.readQ.q) && PutAll(tty.readQ.q, ANSWER[i..]) == PutAll(l.read, ANSWER)
      {
        AnswerStep(tty.readQ.q, i);
        PutRead(f, ANSWER[i]);
        i := i + 1;
      }
    }

    method PutRead(f: Input, c: char8)
      requires Valid() && AllHarmless(f, tty.readQ.q) && Harmless(f, c)
      modifies Repr()
      ensures Valid() && Settles(f) && screen.Show() == old(screen.Show())
      ensures tty.L() == old(tty.L()).(read := Put(old(tty.readQ.q), c)) && tty.readQ.q == Put(old(tty.readQ.q), c)
    {
      tty.readQ.PutCh(c);
    }

    /** copy_to_cooked */
    method CopyToCooked(f: Input) returns (ok: bool)
      requires Valid() && AllHarmless(f, tty.readQ.q)
      modifies Repr()
      ensures Valid() && Settles(f)
      ensures Copied(ok, old(screen.Show()), old(tty.L()), screen.Show(), tty.L(), f)
      decreases Left(), 5
    {
      ghost var t, l := screen.Show(), tty.L();
      ghost var wrote := false;
      var more := More();
      while more
        invariant Valid() && Settles(f) && Copying(wrote, t, l, screen.Show(), tty.L(), f)
        invariant more <==> tty.readQ.q != [] && !Full(tty.secondary.q)
        decreases Left(), |tty.readQ.q|
      {
        ok, wrote := CookOn(f, wrote, t, l);
        if !ok {
          return;
        }
        more := More();
      }
      CopyEnds(wrote, t, l, screen.Show(), tty.L(), f);
      ok := true;
    }

    method More() returns (b: bool)
      requires Valid()
      ensures b <==> tty.readQ.q != [] && !Full(tty.secondary.q)
    {
      var none := tty.readQ.Empty();
      var left := tty.secondary.Left();
      b := !none && left != 0;
    }

    /** One round of its loop, in the terms of the whole call. */
    method CookOn(f: Input, ghost wrote: bool, ghost t: Term, ghost l: Line) returns (ok: bool, ghost wrote': bool)
      requires Valid() && AllHarmless(f, tty.readQ.q) && tty.readQ.q != [] && !Full(tty.secondary.q)
      requires Ok(t) && Copying(wrote, t, l, screen.Show(), tty.L(), f)
      modifies Repr()
      ensures Valid() && Settles(f) && (Left() < old(Left()) || |tty.readQ.q| < |old(tty.readQ.q)|)
      ensures if ok then Copying(wrote', t, l, screen.Show(), tty.L(), f)
        else Copied(ok, t, l, screen.Show(), tty.L(), f)
      decreases Left(), 4
    {
      ghost var t1, l1 := screen.Show(), tty.L();
      ok := CookNext(f);
      wrote' := wrote || ShowsNext(l1, f);
      CopyStep(wrote, ok, t, l, t1, l1, screen.Show(), tty.L(), f);
    }

    /** One round of its loop. */
    method CookNext(f: Input) returns (ok: bool)
      requires Valid() && AllHarmless(f, tty.readQ.q) && tty.readQ.q != [] && !Full(tty.secondary.q)
      modifies Repr()
      ensures Valid() && Settles(f) && (Left() < old(Left()) || |tty.readQ.q| < |old(tty.readQ.q)|)
      ensures old(tty.readQ.q) != []
      ensures Rounded(ok, old(screen.Show()), old(tty.L()), screen.Show(), tty.L(), f)
      decreases Left(), 3
    {
      ghost var t, l := screen.Show(), tty.L();
      var c, keep := TakeRead(f);
      if !keep {
        return true;
      }
      UpTo(tty.L(), f, c);
      var r := CookUp(f, c, l);
      ghost var l1 := tty.L();
      ok := Write(f, r, t, l);
      if ok {
        Finish(f, r);
      }
      RoundedIs(ok, t, l, l1, r, screen.Show(), tty.L(), f);
    }

    /** The parts of the round that only use the queues. */
    method TakeRead(f: Input) returns (c: char8, keep: bool)
      requires Valid() && AllHarmless(f, tty.readQ.q) && tty.readQ.q != []
      modifies Repr()
      ensures Valid() && Settles(f) && screen.Show() == old(screen.Show())
      ensures old(tty.readQ.q) != [] && tty.L() == old(tty.L()).(read := old(tty.readQ.q)[1..])
      ensures var d := old(tty.readQ.q)[0];
        Harmless(f, d) && keep == !(d == CR && !f.crnl && f.nocr) && (keep ==> c == Mapped(f, d))
    {
      c, keep := tty.NextByte(f);
    }

    method CookUp(f: Input, c: char8, ghost l: Line) returns (r: Rest)
      requires Valid() && AllHarmless(f, tty.readQ.q) && l.read != [] && Harmless(f, l.read[0])
      requires tty.L() == l.(read := l.read[1..]) && c == Mapped(f, l.read[0])
      requires !(l.read[0] == CR && !f.crnl && f.nocr)
      modifies Repr()
      ensures Valid() && Settles(f) && screen.Show() == old(screen.Show()) && tty.readQ.q == old(tty.readQ.q)
      ensures (tty.L(), r) == UpToWrite(old(tty.L()), f, c)
    {
      QueueEcho(l, f);
      r := tty.CookUp(f, c);
    }

    method Finish(f: Input, r: Rest)
      requires Valid() && AllHarmless(f, tty.readQ.q)
      modifies Repr()
      ensures Valid() && Settles(f) && screen.Show() == old(screen.Show())
      ensures tty.readQ.q == old(tty.readQ.q) && tty.writeQ.q == old(tty.writeQ.q)
      ensures (r.Accept? ==> !Full(old(tty.secondary.q))) && (r.Drop? ==> old(tty.secondary.q) != []) ==>
        tty.L() == Finished(old(tty.L()), r)
    {
      tty.FinishRound(r);
    }

    /** tty->write, where the round calls it. */
    method Write(f: Input, r: Rest, ghost t: Term, ghost l: Line) returns (ok: bool)
      requires Valid() && AllHarmless(f, tty.readQ.q) && l.read != [] && Harmless(f, l.read[0]) && t == screen.Show()
      requires var c := l.read[0];
        && !(c == CR && !f.crnl && f.nocr) && (tty.L(), r) == UpToWrite(l.(read := l.read[1..]), f, Mapped(f, c))
      modifies Repr()
      ensures Valid() && Settles(f) && (Left() < old(Left()) || tty.readQ.q == old(tty.readQ.q))
      ensures !Writes(r) ==> ok && screen.Show() == t && tty.L() == old(tty.L())
      ensures Writes(r) && ok ==> tty.writeQ.q == []
      ensures Writes(r) && l.waiting == [] && t.state == 0 ==>
        && ok && tty.L() == Flushed(old(tty.L())) && screen.Show().state == 0
        && screen.Show() == Bytes(t, EchoOf(l.(read := l.read[1..]), f, l.read[0]), f.erase)
      decreases Left(), 2
    {
      ghost var l1 := tty.L();
      ok := true;
      if Writes(r) {
        if l.waiting == [] && t.state == 0 { EchoClean(t, l, f); }
        ok := ConWrite(f);
        if ok { AfterIsEmpty(t, l1, f); }
      }
    }
  }
}
