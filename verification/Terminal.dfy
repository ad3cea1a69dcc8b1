/** The console as a terminal: con_write of kernel/console.c answers ESC Z through copy_to_cooked of kernel/tty_io.c,
  which echoes the answer by a nested con_write. */
module Terminal {
  import opened Console
  import opened Tty

  const ANSWER: seq<char8> := [27, '[' as int, '?' as int, '1' as int, ';' as int, '2' as int, 'c' as int]

  /** The byte makes con_write answer. */
  predicate Answers(t: Term, c: char8) { t.state == 1 && c == 'Z' as int }

  /** respond, before it calls copy_to_cooked. */
  function Asked(l: Line): Line { l.(read := PutAll(l.read, ANSWER)) }

  /** With room in the read queue the answer, ESC [ ? 1 ; 2 c as in the screen's own record of it, is typed in full. */
  lemma AnswerIsTyped(t: Term, l: Line, erase: nat)
    requires Ok(t) && t.state == 1 && |l.read| + 7 < 1024
    ensures Asked(l) == l.(read := l.read + [27, 91, 63, 49, 59, 50, 99])
    ensures var r := Byte(t, 'Z' as int, erase).reply;
      |r| == |t.reply| + 7 && forall i :: 0 <= i < 7 ==> r[|t.reply| + i] as int == ANSWER[i]
  {
    PutAllFits(l.read, ANSWER);
  }

  /** copy_to_cooked calls tty->write. */
  function Shows(l: Line, f: Input): bool
    decreases |l.read|
  {
    l.read != [] && !Full(l.secondary) && (ShowsNext(l, f) || Shows(Tty.Round(l, f), f))
  }

  predicate ShowsNext(l: Line, f: Input)
    requires l.read != []
  {
    var c := l.read[0];
    !(c == CR && !f.crnl && f.nocr) && Writes(UpToWrite(l.(read := l.read[1..]), f, Mapped(f, c)).1)
  }

  /** Without echo nothing is written. */
  lemma {:induction false} NoEcho(l: Line, f: Input)
    requires !f.echo
    ensures !Shows(l, f)
    decreases |l.read|
  {
    if l.read != [] && !Full(l.secondary) { NoEcho(Tty.Round(l, f), f); }
  }

  /** Then the write queue and the screen are as they were. */
  lemma {:induction false} HiddenKeeps(l: Line, f: Input)
    requires !Shows(l, f)
    ensures Cook(l, f).waiting == l.waiting && Cook(l, f).echoed == l.echoed
    decreases |l.read|
  {
    if l.read != [] && !Full(l.secondary) {
      HiddenRound(l, f);
      HiddenKeeps(Tty.Round(l, f), f);
      OneRound(l, f);
    }
  }

  lemma HiddenRound(l: Line, f: Input)
    requires l.read != [] && !ShowsNext(l, f)
    ensures Tty.Round(l, f).waiting == l.waiting && Tty.Round(l, f).echoed == l.echoed
  {
  }

  /** con_write's next byte has gone to the screen. */
  function Taken1(l: Line): (m: Line)
    requires l.waiting != []
  {
    l.(waiting := l.waiting[1..], echoed := l.echoed + [l.waiting[0]])
  }

  // ---------------------------------------------------------------------------------------------------------
  // con_write

  /** con_write takes each byte of the write queue once: no answer is echoed while bytes are left in the queue. */
  predicate Clean(t: Term, l: Line, f: Input)
    requires Ok(t)
    decreases |l.waiting|
  {
    if l.waiting == [] then true
    else
      var u, l1 := Byte(t, l.waiting[0], f.erase), Taken1(l);
      if !Answers(t, l.waiting[0]) then Clean(u, l1, f)
      else if Shows(Asked(l1), f) then l1.waiting == []
      else
        HiddenKeeps(Asked(l1), f);
        Clean(u, Cook(Asked(l1), f), f)
  }

  /** The screen and the terminal after it. */
  function After(t: Term, l: Line, f: Input): (r: (Term, Line))
    requires Ok(t) && Clean(t, l, f)
    ensures Ok(r.0)
    decreases |l.waiting|
  {
    if l.waiting == [] then (t, l)
    else
      var u, l1 := Byte(t, l.waiting[0], f.erase), Taken1(l);
      if !Answers(t, l.waiting[0]) then After(u, l1, f)
      else if Shows(Asked(l1), f) then (Bytes(u, EchoText(Asked(l1), f), f.erase), Cook(Asked(l1), f))
      else
        HiddenKeeps(Asked(l1), f);
        After(u, Cook(Asked(l1), f), f)
  }

  /** The first byte that is answered. */
  function FirstAnswer(t: Term, s: seq<char8>, erase: nat): (i: nat)
    requires Ok(t)
    ensures i <= |s|
    decreases |s|
  {
    if s == [] || Answers(t, s[0]) then 0 else 1 + FirstAnswer(Byte(t, s[0], erase), s[1..], erase)
  }

  /** Whether an answer would be echoed depends neither on the write queue nor on the screen. */
  lemma {:induction false} ShowsSame(l: Line, m: Line, f: Input)
    requires m == l.(echoed := m.echoed, waiting := m.waiting)
    ensures Shows(m, f) == Shows(l, f)
    decreases |l.read|
  {
    if l.read != [] && !Full(l.secondary) {
      var l1, m1 := l.(read := l.read[1..]), m.(read := m.read[1..]);
      UpToEcho(l1, m1, f, Mapped(f, l.read[0]));
      ByteEcho(l1, m1, f, l.read[0]);
      ShowsSame(Tty.Round(l, f), Tty.Round(m, f), f);
    }
  }

  /** If answers are echoed, each byte is taken once if and only if nothing follows the first ESC Z that is answered. */
  lemma {:induction false} CleanMeans(t: Term, l: Line, f: Input)
    requires Ok(t) && Shows(Asked(l), f)
    ensures Clean(t, l, f) <==> FirstAnswer(t, l.waiting, f.erase) + 1 >= |l.waiting|
    decreases |l.waiting|
  {
    if l.waiting != [] {
      ShowsSame(Asked(l), Asked(Taken1(l)), f);
      if !Answers(t, l.waiting[0]) { CleanMeans(Byte(t, l.waiting[0], f.erase), Taken1(l), f); }
    }
  }

  /** Which is so, if nothing is typed and unread, exactly when echo is on; provided that ESC is no control character of
      the terminal. */
  lemma EchoShows(l: Line, f: Input)
    requires l.read == [] && !Full(l.secondary) && f.erase != 27 && f.stop != 27 && f.start != 27 && f.intr != 27
    ensures Shows(Asked(l), f) <==> f.echo
  {
    if f.echo {
      PutAllFits(l.read, ANSWER);
      assert [] + ANSWER == ANSWER;
      assert ShowsNext(Asked(l), f);
    } else {
      NoEcho(Asked(l), f);
    }
  }

  /** ESC Z and one byte more, on the console as it is set up: con_write reads past the end of the queue. */
  lemma ReadsPastTheEnd(t: Term, l: Line, f: Input, c: char8)
    requires Ok(t) && t.state == 0 && l.waiting == [27, 'Z' as int, c] && Shows(Asked(l), f)
    ensures !Clean(t, l, f)
  {
    var s := l.waiting;
    var u := Byte(t, s[0], f.erase);
    assert u.state == 1 && s[1..] == ['Z' as int, c];
    assert FirstAnswer(u, s[1..], f.erase) == 0;
    assert FirstAnswer(t, s, f.erase) == 1;
    CleanMeans(t, l, f);
  }

  /** If none are, it always is, and the screen shows just the bytes of the queue. */
  lemma {:induction false} CleanWithoutEcho(t: Term, l: Line, f: Input)
    requires Ok(t) && !f.echo
    ensures Clean(t, l, f) && After(t, l, f).0 == Bytes(t, l.waiting, f.erase) && After(t, l, f).1.waiting == []
    ensures After(t, l, f).1.echoed == l.echoed + l.waiting
    decreases |l.waiting|
  {
    if l.waiting != [] {
      var u, l1 := Byte(t, l.waiting[0], f.erase), Taken1(l);
      assert l.echoed + l.waiting == l1.echoed + l1.waiting;
      NoEcho(Asked(l1), f);
      HiddenKeeps(Asked(l1), f);
      if Answers(t, l.waiting[0]) {
        CleanWithoutEcho(u, Cook(Asked(l1), f), f);
      } else {
        CleanWithoutEcho(u, l1, f);
      }
    } else {
      assert l.echoed + l.waiting == l.echoed;
    }
  }

  /** Nor does echo matter where nothing is answered. */
  lemma {:induction false} CleanWithoutAnswer(t: Term, l: Line, f: Input)
    requires Ok(t) && FirstAnswer(t, l.waiting, f.erase) == |l.waiting|
    ensures Clean(t, l, f) && After(t, l, f) == (Bytes(t, l.waiting, f.erase), Flushed(l))
    decreases |l.waiting|
  {
    if l.waiting != [] {
      var u, l1 := Byte(t, l.waiting[0], f.erase), Taken1(l);
      assert l.echoed + l.waiting == l1.echoed + l1.waiting;
      CleanWithoutAnswer(u, l1, f);
    } else {
      assert l.echoed + l.waiting == l.echoed;
    }
  }

  /** Afterwards the write queue is empty. */
  lemma {:induction false} AfterIsEmpty(t: Term, l: Line, f: Input)
    requires Ok(t) && Clean(t, l, f)
    ensures After(t, l, f).1.waiting == []
    decreases |l.waiting|
  {
    if l.waiting != [] {
      var u, l1 := Byte(t, l.waiting[0], f.erase), Taken1(l);
      if !Answers(t, l.waiting[0]) {
        AfterIsEmpty(u, l1, f);
      } else if Shows(Asked(l1), f) {
        NothingWaits(Asked(l1), f);
      } else {
        HiddenKeeps(Asked(l1), f);
        AfterIsEmpty(u, Cook(Asked(l1), f), f);
      }
    }
  }

  lemma {:induction false} NothingWaits(l: Line, f: Input)
    requires l.waiting == []
    ensures Cook(l, f).waiting == []
    decreases |l.read|
  {
    if l.read != [] && !Full(l.secondary) {
      EchoGoes(l.(read := l.read[1..]), f, l.read[0]);
      OneRound(l, f);
      NothingWaits(Tty.Round(l, f), f);
    }
  }

  // ---------------------------------------------------------------------------------------------------------
  // The calls one by one

  /** What one round of con_write's loop has done. With `lost`, an answer was echoed while bytes were left, and a nested
      con_write has taken them; where that one did not end well, neither does this one. */
  ghost predicate Became(ok: bool, lost: bool, t: Term, l: Line, t2: Term, l2: Line, f: Input)
    requires Ok(t) && l.waiting != []
  {
    var u, l1 := Byte(t, l.waiting[0], f.erase), Taken1(l);
    if !Answers(t, l.waiting[0]) then ok && !lost && t2 == u && l2 == l1
    else lost == (Shows(Asked(l1), f) && l1.waiting != []) && Copied(ok, u, Asked(l1), t2, l2, f)
  }

  /** What copy_to_cooked has done. */
  ghost predicate Copied(ok: bool, t: Term, l: Line, t2: Term, l2: Line, f: Input)
    requires Ok(t)
  {
    if !Shows(l, f) then ok && t2 == t && l2 == Cook(l, f)
    else if l.waiting == [] && t.state == 0 then ok && t2 == Bytes(t, EchoText(l, f), f.erase) && l2 == Cook(l, f)
    else ok ==> l2.waiting == []
  }

  /** What it has done so far, if it has written or not. */
  ghost predicate Copying(wrote: bool, t: Term, l: Line, t2: Term, l2: Line, f: Input)
    requires Ok(t)
  {
    if !wrote then
      && t2 == t && l2.waiting == l.waiting && Cook(l2, f) == Cook(l, f) && Shows(l2, f) == Shows(l, f)
      && EchoText(l2, f) == EchoText(l, f)
    else
      && Shows(l, f) && l2.waiting == []
      && (l.waiting == [] && t.state == 0 ==>
        && Ok(t2) && t2.state == 0 && Cook(l2, f) == Cook(l, f)
        && Bytes(t2, EchoText(l2, f), f.erase) == Bytes(t, EchoText(l, f), f.erase))
  }

  /** One round of its loop. */
  ghost predicate Rounded(ok: bool, t: Term, l: Line, t2: Term, l2: Line, f: Input)
    requires Ok(t) && l.read != []
  {
    if !ShowsNext(l, f) then ok && t2 == t && l2 == Tty.Round(l, f)
    else
      && (ok ==> l2.waiting == [])
      && (l.waiting == [] && t.state == 0 ==>
        && ok && l2 == Tty.Round(l, f) && t2.state == 0
        && t2 == Bytes(t, EchoOf(l.(read := l.read[1..]), f, l.read[0]), f.erase))
  }

  lemma CleanStep(ok: bool, lost: bool, t: Term, l: Line, t2: Term, l2: Line, f: Input)
    requires Ok(t) && Ok(t2) && l.waiting != [] && Became(ok, lost, t, l, t2, l2, f)
    ensures !ok || lost ==> !Clean(t, l, f) && (ok ==> l2.waiting == [] && |l.waiting| > 1)
    ensures ok && !lost ==>
      && |l2.waiting| == |l.waiting| - 1 && (Clean(t2, l2, f) <==> Clean(t, l, f))
      && (Clean(t, l, f) ==> After(t2, l2, f) == After(t, l, f))
  {
    var u, l1 := Byte(t, l.waiting[0], f.erase), Taken1(l);
    if Answers(t, l.waiting[0]) {
      AnsweredState(t, f.erase);
      if !Shows(Asked(l1), f) { HiddenKeeps(Asked(l1), f); } else if l1.waiting == [] { NothingWaits(Asked(l1), f); }
    }
  }

  lemma AnsweredState(t: Term, erase: nat)
    requires Ok(t) && t.state == 1
    ensures Byte(t, 'Z' as int, erase).state == 0
  {
  }

  lemma CopyStep(wrote: bool, ok: bool, t: Term, l: Line, t1: Term, l1: Line, t2: Term, l2: Line, f: Input)
    requires Ok(t) && Ok(t1) && Ok(t2) && l1.read != [] && !Full(l1.secondary)
    requires Copying(wrote, t, l, t1, l1, f) && Rounded(ok, t1, l1, t2, l2, f)
    ensures ok ==> Copying(wrote || ShowsNext(l1, f), t, l, t2, l2, f)
    ensures !ok ==> Shows(l, f) && !(l.waiting == [] && t.state == 0)
  {
    OneRound(l1, f);
    var e, r := EchoOf(l1.(read := l1.read[1..]), f, l1.read[0]), EchoText(Tty.Round(l1, f), f);
    BytesConcat(t1, e, r, f.erase);
    if ShowsNext(l1, f) {
    } else {
      HiddenRound(l1, f);
      HiddenEcho(l1, f);
      assert [] + r == r;
    }
  }

  lemma HiddenEcho(l: Line, f: Input)
    requires l.read != [] && !ShowsNext(l, f)
    ensures EchoOf(l.(read := l.read[1..]), f, l.read[0]) == []
  {
  }

  lemma CopyEnds(wrote: bool, t: Term, l: Line, t2: Term, l2: Line, f: Input)
    requires Ok(t) && Copying(wrote, t, l, t2, l2, f) && (l2.read == [] || Full(l2.secondary))
    ensures Copied(true, t, l, t2, l2, f)
  {
  }

  // ---------------------------------------------------------------------------------------------------------
  // Escapes run out

  /** The bytes of the queue that can start an ESC Z. */
  function Escapes(q: seq<char8>): nat {
    if q == [] then 0 else (if q[0] == 27 then 1 else 0) + Escapes(q[1..])
  }

  function Pending(t: Term): nat { if t.state == 1 then 1 else 0 }

  /** Only an ESC outside a sequence leads to the state in which Z is answered. */
  lemma ByteState(t: Term, c: char8, erase: nat)
    requires Ok(t)
    ensures Pending(Byte(t, c, erase)) + (if Answers(t, c) then 1 else 0) <= Pending(t) + (if c == 27 then 1 else 0)
    ensures t.state == 0 && c != 27 ==> Byte(t, c, erase).state == 0
  {
    if t.state == 0 {
      PlainState(t, c, erase);
    } else if t.state == 2 {
      ParameterState(t.(par := NO_PARAMETERS, npar := 0, state := 3, ques := c == '?' as int), c);
    } else if t.state == 3 {
      ParameterState(t, c);
    }
  }

  lemma PlainState(t: Term, c: char8, erase: nat)
    requires Ok(t) && t.state == 0
    ensures Plain(t, c, erase).state == if c == 27 then 1 else 0
  {
  }

  lemma ParameterState(t: Term, c: char8)
    requires Ok(t) && t.state == 3
    ensures Parameter(t, c).state == 3 || Parameter(t, c).state == 0
  {
    FinalState(t.(state := 0), c);
  }

  lemma FinalState(t: Term, c: char8)
    requires Ok(t)
    ensures Final(t, c).state == t.state
  {
    if c == 'L' as int || c == 'M' as int || c == 'P' as int || c == '@' as int {
      ShiftState(t);
    } else {
      OtherState(t, c);
    }
  }

  lemma OtherState(t: Term, c: char8)
    requires Ok(t) && c != 'L' as int && c != 'M' as int && c != 'P' as int && c != '@' as int
    ensures Final(t, c).state == t.state
  {
    assert forall u: Term, x, y :: Ok(u) && 0 <= x < U32 && 0 <= y < U32 ==> Goto(u, x, y).state == u.state;
  }

  /** Inserting and deleting leaves the parser alone. */
  lemma ShiftState(t: Term)
    requires Ok(t)
    ensures InsertLines(t, Count(t.par[0], LINES)).state == DeleteLines(t, Count(t.par[0], LINES)).state == t.state
    ensures InsertChars(t, Count(t.par[0], COLUMNS)).state == DeleteChars(t, Count(t.par[0], COLUMNS)).state == t.state
  {
    InsertLinesMoves(t, Count(t.par[0], LINES), 0);
    DeleteLinesMoves(t, Count(t.par[0], LINES), 0);
    InsertCharsMoves(t, Count(t.par[0], COLUMNS));
    DeleteCharsMoves(t, Count(t.par[0], COLUMNS));
  }

  lemma {:induction false} EscapesConcat(a: seq<char8>, b: seq<char8>)
    ensures Escapes(a + b) == Escapes(a) + Escapes(b)
    decreases |a|
  {
    if a == [] {
      assert a + b == b;
    } else {
      assert (a + b)[1..] == a[1..] + b;
      EscapesConcat(a[1..], b);
    }
  }

  /** Nothing answered starts in bytes without ESC. */
  lemma {:induction false} Unanswered(t: Term, s: seq<char8>, erase: nat)
    requires Ok(t) && t.state == 0 && Escapes(s) == 0
    ensures FirstAnswer(t, s, erase) == |s| && Bytes(t, s, erase).state == 0
    decreases |s|
  {
    if s != [] {
      ByteState(t, s[0], erase);
      Unanswered(Byte(t, s[0], erase), s[1..], erase);
    }
  }

  /** The byte's echo has no ESC in it. */
  predicate Harmless(f: Input, c: char8) { Escapes(Echo(f, Mapped(f, c))) == 0 }

  predicate AllHarmless(f: Input, q: seq<char8>) { forall i :: 0 <= i < |q| ==> Harmless(f, q[i]) }

  /** Which is so for all bytes but one, and that only with ECHOCTL: 219, which echoes as ^ and ESC. */
  lemma HarmlessMeans(f: Input, c: char8)
    ensures Harmless(f, c) <==> !(f.echoctl && c == -37)
  {
    EchoEscapes(f, Mapped(f, c));
  }

  lemma EchoEscapes(f: Input, d: char8)
    ensures Escapes(Echo(f, d)) == if (f.echoctl && d == -37) then 1 else 0
  {
    var e := Echo(f, d);
    if |e| == 2 {
      assert e[1..] == [e[1]] && |e[1..][1..]| == 0;
      assert Escapes(e) == (if e[0] == 27 then 1 else 0) + Escapes(e[1..]);
      assert Escapes(e[1..]) == (if e[1] == 27 then 1 else 0) + Escapes(e[1..][1..]);
    } else if |e| == 1 {
      assert |e[1..]| == 0;
    }
  }

  lemma AnswerHarmless(f: Input)
    ensures AllHarmless(f, ANSWER)
  {
    forall i | 0 <= i < |ANSWER| ensures Harmless(f, ANSWER[i]) { HarmlessMeans(f, ANSWER[i]); }
  }

  /** Bytes without ESC bring none into the queue. */
  lemma {:induction false} PutAllEscapes(q: seq<char8>, e: seq<char8>)
    requires Escapes(e) == 0
    ensures Escapes(PutAll(q, e)) <= Escapes(q)
    decreases |e|
  {
    if e != [] {
      EscapesConcat(q, [e[0]]);
      assert Escapes([e[0]]) == 0;
      PutAllEscapes(Put(q, e[0]), e[1..]);
    }
  }

  /** What a round puts in the write queue. */
  lemma QueueEcho(l: Line, f: Input)
    requires l.read != [] && Harmless(f, l.read[0])
    ensures var l0, c := l.(read := l.read[1..]), l.read[0]; var (l1, r) := UpToWrite(l0, f, Mapped(f, c));
      !(c == CR && !f.crnl && f.nocr) ==>
        && l1.waiting == PutAll(l.waiting, EchoOf(l0, f, c)) && Escapes(EchoOf(l0, f, c)) == 0
        && Escapes(l1.waiting) <= Escapes(l.waiting)
        && (!Writes(r) ==> l1.waiting == l.waiting)
  {
    var l0, c := l.(read := l.read[1..]), l.read[0];
    var e := EchoOf(l0, f, c);
    var two: seq<char8>, one: seq<char8> := [127, 127], [127];
    assert two[1..] == one && |one[1..]| == 0 && Escapes(two) == Escapes(one) == 0;
    PutAllEscapes(l.waiting, e);
  }

  /** On an empty queue, outside a sequence, the echo of a round just appears. */
  lemma EchoClean(t: Term, l: Line, f: Input)
    requires Ok(t) && l.read != [] && Harmless(f, l.read[0]) && ShowsNext(l, f) && l.waiting == [] && t.state == 0
    ensures var l0, c := l.(read := l.read[1..]), l.read[0]; var l1, e := UpToWrite(l0, f, Mapped(f, c)).0,
      EchoOf(l0, f, c);
      && Clean(t, l1, f) && After(t, l1, f) == (Bytes(t, e, f.erase), Flushed(l1)) && Bytes(t, e, f.erase).state == 0
  {
    var l0, c := l.(read := l.read[1..]), l.read[0];
    var l1, e := UpToWrite(l0, f, Mapped(f, c)).0, EchoOf(l0, f, c);
    QueueEcho(l, f);
    PutAllFits([], e);
    assert [] + e == e && l1.waiting == e;
    Unanswered(t, e, f.erase);
    CleanWithoutAnswer(t, l1, f);
  }

  /** A round from its parts. */
  lemma RoundedIs(ok: bool, t: Term, l: Line, l1: Line, r: Rest, t2: Term, l2: Line, f: Input)
    requires Ok(t) && l.read != [] && !(l.read[0] == CR && !f.crnl && f.nocr)
    requires (l1, r) == UpToWrite(l.(read := l.read[1..]), f, Mapped(f, l.read[0]))
    requires !Writes(r) ==> ok && t2 == t && l2 == Finished(l1, r)
    requires Writes(r) && ok ==> l2.waiting == []
    requires Writes(r) && l.waiting == [] && t.state == 0 ==>
      && ok && l2 == Finished(Flushed(l1), r) && t2.state == 0
      && t2 == Bytes(t, EchoOf(l.(read := l.read[1..]), f, l.read[0]), f.erase)
    ensures Rounded(ok, t, l, t2, l2, f)
  {
  }

  lemma AnswerStep(q: seq<char8>, i: nat)
    requires i < |ANSWER|
    ensures PutAll(q, ANSWER[i..]) == PutAll(Put(q, ANSWER[i]), ANSWER[i + 1..])
  {
    assert ANSWER[i..][1..] == ANSWER[i + 1..];
  }
}
