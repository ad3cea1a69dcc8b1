/** The line discipline of kernel/tty_io.c: copy_to_cooked, the dequeue loop of tty_read and tty_write, on queues as
  plain sequences. Characters are C's signed char, control characters of the termios unsigned ones; a control character
  above 127 therefore never matches. Cf. XBD 11.1.6 and 11.2.3 of IEEE Std 1003.1. */
module Tty {
  type char8 = c: int | -128 <= c < 128

  const SIZE: nat := 1024
  const NL: char8 := 10
  const CR: char8 := 13

  datatype Input = Input(canon: bool, isig: bool, echo: bool, echoctl: bool, crnl: bool, nocr: bool, nlcr: bool,
    uclc: bool,
    eof: nat, erase: nat, stop: nat, start: nat, intr: nat)

  datatype Output = Output(post: bool, crnl: bool, nlret: bool, nlcr: bool, lcuc: bool)

  /** `read` is what has been typed, `secondary` what a reader will get, `data` its count of lines; `waiting` is the
      write queue, `echoed` what has gone to the screen; `interrupts` counts the SIGINTs sent. */
  datatype Line = Line(read: seq<char8>, secondary: seq<char8>, data: int, echoed: seq<char8>, waiting: seq<char8>,
    stopped: bool, interrupts: nat)

  predicate Full(q: seq<char8>) { |q| >= SIZE - 1 }

  /** PUTCH: into a full queue it puts a byte and empties it. */
  function Put(q: seq<char8>, c: char8): seq<char8> { if Full(q) then [] else q + [c] }

  function PutAll(q: seq<char8>, e: seq<char8>): seq<char8>
    decreases |e|
  {
    if e == [] then q else PutAll(Put(q, e[0]), e[1..])
  }

  /** A byte that ends a line. */
  predicate Ends(t: Input, c: char8) { c == NL || c == t.eof }

  /** How many lines end in `q`. */
  function Lines(t: Input, q: seq<char8>): nat {
    if q == [] then 0 else Lines(t, q[..|q| - 1]) + (if Ends(t, q[|q| - 1]) then 1 else 0)
  }

  // ---------------------------------------------------------------------------------------------------------
  // copy_to_cooked

  /** Assignment to a signed char. */
  function Narrow(c: int): char8 { if c % 256 < 128 then c % 256 else c % 256 - 256 }

  /** tolower of ctype.h, which adds 'a' + 'A' to a capital. */
  function ToLower(c: char8): char8 {
    if 'A' as int <= c <= 'Z' as int then Narrow(c + 'a' as int + 'A' as int) else c
  }

  function ToUpper(c: char8): char8 {
    if 'a' as int <= c <= 'z' as int then c + 'A' as int - 'a' as int else c
  }

  /** IUCLC gives a byte its small letter if and only if the byte is no capital. */
  lemma LowerCaseFails(c: char8)
    ensures var small := if 'A' as int <= c <= 'Z' as int then c + 32 else c;
      ToLower(c) == small <==> !('A' as int <= c <= 'Z' as int)
  {
  }

  /** The mapping of carriage return and newline, without IGNCR. */
  function Mapped(t: Input, c: char8): char8 {
    var c1 := if c == CR then (if t.crnl then NL else c) else if c == NL && t.nlcr then CR else c;
    if t.uclc then ToLower(c1) else c1
  }

  function Echo(t: Input, c: char8): seq<char8> {
    if c == NL then [NL, CR] else if c < 32 then (if t.echoctl then ['^' as int, Narrow(c + 64)] else []) else [c]
  }

  /** What is left of a round after the place where it calls tty->write, and whether it does. */
  datatype Rest = Done | Accept(c: char8, write: bool) | Drop(write: bool)

  predicate Writes(r: Rest) { !r.Done? && r.write }

  /** Echo goes into the write queue. */
  function Queued(l: Line, t: Input, e: seq<char8>): (r: Line)
    ensures r == l.(waiting := r.waiting)
  {
    if t.echo then l.(waiting := PutAll(l.waiting, e)) else l
  }

  /** The erase character takes back the last byte unless that ended a line. */
  function UpToErase(l: Line, t: Input): (Line, Rest) {
    if l.secondary == [] then (l, Done) else
    var d := l.secondary[|l.secondary| - 1];
    if d == NL || d == t.eof then (l, Done) else (Queued(l, t, if d < 32 then [127, 127] else [127]), Drop(t.echo))
  }

  /** A mapped byte, up to the call of tty->write. */
  function UpToWrite(l: Line, t: Input, c: char8): (Line, Rest) {
    if t.canon && c == t.erase then UpToErase(l, t)
    else if t.canon && c == t.stop then (l.(stopped := true), Done)
    else if t.canon && c == t.start then (l.(stopped := false), Done)
    else if !t.isig && c == t.intr then (l.(interrupts := l.interrupts + 1), Done)
    else (Queued(l.(data := l.data + (if Ends(t, c) then 1 else 0)), t, Echo(t, c)), Accept(c, t.echo))
  }

  /** tty->write, when the screen takes all of the queue. */
  function Flushed(l: Line): Line { l.(echoed := l.echoed + l.waiting, waiting := []) }

  function Written(l: Line, r: Rest): (w: Line)
    ensures w == l.(echoed := w.echoed, waiting := w.waiting)
  {
    if Writes(r) then Flushed(l) else l
  }

  /** And the rest of the round. */
  function Finished(l: Line, r: Rest): Line {
    match r
    case Done => l
    case Accept(c, _) => l.(secondary := l.secondary + [c])
    case Drop(_) => if l.secondary == [] then l else l.(secondary := l.secondary[..|l.secondary| - 1])
  }

  function Cooked(l: Line, t: Input, c: char8): Line {
    var (l1, r) := UpToWrite(l, t, c);
    Finished(Written(l1, r), r)
  }

  /** One round of copy_to_cooked's loop. */
  function CookByte(l: Line, t: Input, c: char8): Line {
    if c == CR && !t.crnl && t.nocr then l else Cooked(l, t, Mapped(t, c))
  }

  /** What the first half of a round leaves alone, and what it decides. */
  lemma UpTo(l: Line, t: Input, c: char8)
    ensures var (l1, r) := UpToWrite(l, t, c);
      && l1.read == l.read && l1.secondary == l.secondary && l1.echoed == l.echoed
      && l1.data == l.data + (if r.Accept? && Ends(t, c) then 1 else 0)
      && (r.Accept? ==> r.c == c) && (r.Drop? ==> l.secondary != [] && !Ends(t, l.secondary[|l.secondary| - 1]))
  {
  }

  lemma UpToEcho(l: Line, m: Line, t: Input, c: char8)
    requires m == l.(echoed := m.echoed, waiting := m.waiting)
    ensures var a, b := UpToWrite(l, t, c), UpToWrite(m, t, c);
      b.1 == a.1 && b.0 == a.0.(echoed := b.0.echoed, waiting := b.0.waiting)
  {
  }

  /** What a byte does to the secondary queue. */
  lemma ByteSecondary(l: Line, t: Input, c: char8)
    ensures var l2, c' := CookByte(l, t, c), Mapped(t, c); var q, n := l.secondary, |l.secondary|;
      && l2.read == l.read
      && (l2.secondary == q || l2.secondary == q + [c'] || (n > 0 && !Ends(t, q[n - 1]) && l2.secondary == q[..n - 1]))
      && (l2.secondary != q + [c'] ==> l2.data == l.data)
      && (l2.secondary == q + [c'] ==> l2.data == l.data + (if Ends(t, c') then 1 else 0))
  {
    UpTo(l, t, Mapped(t, c));
  }

  /** The echo does not matter for it. */
  lemma ByteEcho(l: Line, m: Line, t: Input, c: char8)
    requires m == l.(echoed := m.echoed, waiting := m.waiting)
    ensures var l2, m2 := CookByte(l, t, c), CookByte(m, t, c); m2 == l2.(echoed := m2.echoed, waiting := m2.waiting)
  {
    UpToEcho(l, m, t, Mapped(t, c));
  }

  function Cook(l: Line, t: Input): Line
    decreases |l.read|
  {
    if l.read == [] || Full(l.secondary) then l
    else
      var l1 := l.(read := l.read[1..]);
      var l2 := CookByte(l1, t, l.read[0]);
      assert l2.read == l1.read;
      Cook(l2, t)
  }

  // ---------------------------------------------------------------------------------------------------------
  // The dequeue loop of tty_read

  /** What one pass of the loop delivers, and how many bytes it takes off the queue: up to an end of file in canonical
      mode, else up to `nr` bytes. */
  function Delivered(q: seq<char8>, t: Input, nr: nat): (r: (seq<char8>, nat))
    ensures r.1 <= |q| && |r.0| <= nr
    decreases |q|
  {
    if q == [] || nr == 0 then ([], 0)
    else if q[0] == t.eof && t.canon then ([], 1)
    else var (d, k) := Delivered(q[1..], t, nr - 1); ([q[0]] + d, k + 1)
  }

  /** The secondary queue after its first byte has been taken. */
  function Taken(l: Line, t: Input): Line
    requires l.secondary != []
  {
    l.(secondary := l.secondary[1..], data := l.data - (if Ends(t, l.secondary[0]) then 1 else 0))
  }

  /** The loop, byte by byte. */
  function Read(l: Line, t: Input, nr: nat): (r: (Line, seq<char8>))
    decreases nr
  {
    if nr == 0 || l.secondary == [] then (l, [])
    else if l.secondary[0] == t.eof && t.canon then (Taken(l, t), [])
    else var (m, d) := Read(Taken(l, t), t, nr - 1); (m, [l.secondary[0]] + d)
  }

  /** Nothing is lost and nothing made up: what is delivered is the front of the queue, without the end of file that
      stopped it, and the rest stays. */
  lemma {:induction false} ReadConserves(q: seq<char8>, t: Input, nr: nat)
    ensures var (d, k) := Delivered(q, t, nr);
      && d <= q && (k == |d| || (k == |d| + 1 && t.canon && q[|d|] == t.eof))
      && (k == |d| ==> |d| == nr || |d| == |q|)
      && (t.canon ==> forall i :: 0 <= i < |d| ==> d[i] != t.eof)
    decreases |q|
  {
    if q != [] && nr > 0 && !(q[0] == t.eof && t.canon) {
      ReadConserves(q[1..], t, nr - 1);
    }
  }

  /** The first newline or end of file in the queue. */
  function FirstEnd(t: Input, q: seq<char8>): (i: nat)
    ensures i <= |q| && (i < |q| ==> Ends(t, q[i])) && forall j :: 0 <= j < i ==> !Ends(t, q[j])
  {
    if q == [] || Ends(t, q[0]) then 0 else 1 + FirstEnd(t, q[1..])
  }

  ghost predicate OneLine(d: seq<char8>) {
    forall i :: 0 <= i < |d| - 1 ==> d[i] != NL
  }

  /** A read in canonical mode does not stop at the end of a line, so it returns at most one line if and only if what is
      asked for, or what is there, ends with the first one. */
  lemma OneLineOnlyIfAsked(q: seq<char8>, t: Input, nr: nat)
    requires t.canon
    ensures var f := FirstEnd(t, q);
      OneLine(Delivered(q, t, nr).0) <==> (f < |q| && q[f] != t.eof ==>
        nr <= f + 1 || |q| == f + 1 || q[f + 1] == t.eof)
  {
    ReadConserves(q, t, nr);
    var d, f := Delivered(q, t, nr).0, FirstEnd(t, q);
    if f < |q| && q[f] != t.eof {
      if |d| > f + 1 {
        assert d[f] == NL && d[f + 1] != t.eof;
      } else {
        forall i | 0 <= i < |d| - 1 ensures d[i] != NL { assert !Ends(t, q[i]); }
      }
    } else {
      assert |d| <= f;
    }
  }

  // ---------------------------------------------------------------------------------------------------------
  // The count of lines

  ghost predicate Counted(l: Line, t: Input) {
    l.data == Lines(t, l.secondary) && |l.secondary| < SIZE
  }

  lemma LinesAppend(t: Input, q: seq<char8>, c: char8)
    ensures Lines(t, q + [c]) == Lines(t, q) + (if Ends(t, c) then 1 else 0)
  {
    assert (q + [c])[..|q|] == q;
  }

  lemma {:induction false} LinesConcat(t: Input, a: seq<char8>, b: seq<char8>)
    ensures Lines(t, a + b) == Lines(t, a) + Lines(t, b)
    decreases |b|
  {
    if b == [] {
      assert a + b == a;
    } else {
      var n := |b| - 1;
      assert (a + b)[..|a + b| - 1] == a + b[..n];
      LinesConcat(t, a, b[..n]);
    }
  }

  lemma ByteCounts(l: Line, t: Input, c: char8)
    requires Counted(l, t) && !Full(l.secondary)
    ensures Counted(CookByte(l, t, c), t) && CookByte(l, t, c).read == l.read
  {
    LinesAppend(t, l.secondary, Mapped(t, c));
    ByteSecondary(l, t, c);
  }

  lemma {:induction false} CookCounts(l: Line, t: Input)
    requires Counted(l, t)
    ensures Counted(Cook(l, t), t)
    decreases |l.read|
  {
    if l.read != [] && !Full(l.secondary) {
      var l1 := l.(read := l.read[1..]);
      ByteCounts(l1, t, l.read[0]);
      CookCounts(CookByte(l1, t, l.read[0]), t);
    }
  }

  lemma FrontLines(t: Input, q: seq<char8>, k: nat)
    requires q != [] && k <= |q| - 1
    ensures Lines(t, q[..k + 1]) == (if Ends(t, q[0]) then 1 else 0) + Lines(t, q[1..][..k])
    ensures q[k + 1..] == q[1..][k..]
  {
    LinesAppend(t, [], q[0]);
    assert q[..k + 1] == ([] + [q[0]]) + q[1..][..k];
    LinesConcat(t, [] + [q[0]], q[1..][..k]);
  }

  /** What is left of the queue once `k` bytes are off it. */
  function Without(l: Line, t: Input, k: nat): Line
    requires k <= |l.secondary|
  {
    l.(secondary := l.secondary[k..], data := l.data - Lines(t, l.secondary[..k]))
  }

  lemma TakenFirst(l: Line, t: Input, k: nat)
    requires l.secondary != [] && k <= |l.secondary| - 1
    ensures Without(l, t, k + 1) == Without(Taken(l, t), t, k) && Without(l, t, 1) == Taken(l, t)
      && Without(l, t, 0) == l
  {
    FrontLines(t, l.secondary, k);
    FrontLines(t, l.secondary, 0);
    assert l.secondary[0..] == l.secondary;
  }

  /** What the loop takes off the queue and delivers. */
  lemma {:induction false} ReadDelivers(l: Line, t: Input, nr: nat)
    ensures var (d, k) := Delivered(l.secondary, t, nr); Read(l, t, nr) == (Without(l, t, k), d)
    decreases nr
  {
    if nr == 0 || l.secondary == [] {
      assert l.secondary[0..] == l.secondary && l.secondary[..0] == [];
    } else if l.secondary[0] == t.eof && t.canon {
      TakenFirst(l, t, 0);
    } else {
      ReadDelivers(Taken(l, t), t, nr - 1);
      TakenFirst(l, t, Delivered(l.secondary[1..], t, nr - 1).1);
    }
  }

  lemma ReadCounts(l: Line, t: Input, nr: nat)
    requires Counted(l, t)
    ensures Counted(Read(l, t, nr).0, t)
  {
    ReadDelivers(l, t, nr);
    var k := Delivered(l.secondary, t, nr).1;
    LinesConcat(t, l.secondary[..k], l.secondary[k..]);
    assert l.secondary == l.secondary[..k] + l.secondary[k..];
  }

  /** A byte arrives from the keyboard, the interrupt cooks what is there, a reader takes bytes off. */
  datatype Event = Type(c: char8) | Cooking | Reading(nr: nat)

  function Step(l: Line, t: Input, e: Event): Line {
    match e
    case Type(c) => if Full(l.read) then l else l.(read := l.read + [c])
    case Cooking => Cook(l, t)
    case Reading(nr) => Read(l, t, nr).0
  }

  function Run(l: Line, t: Input, events: seq<Event>): Line
    decreases |events|
  {
    if events == [] then l else Run(Step(l, t, events[0]), t, events[1..])
  }

  /** Over every run with the settings unchanged, `data` is the number of line ends in the secondary queue. */
  lemma {:induction false} DataCountsLines(l: Line, t: Input, events: seq<Event>)
    requires Counted(l, t)
    ensures Counted(Run(l, t, events), t)
    decreases |events|
  {
    if events != [] {
      match events[0] {
        case Type(_) =>
        case Cooking => CookCounts(l, t);
        case Reading(nr) => ReadCounts(l, t, nr);
      }
      DataCountsLines(Step(l, t, events[0]), t, events[1..]);
    }
  }

  // ---------------------------------------------------------------------------------------------------------
  // Line editing

  /** The part of the queue up to its last line end. */
  function Complete(t: Input, q: seq<char8>): (p: seq<char8>)
    ensures p <= q
  {
    if q == [] then [] else if Ends(t, q[|q| - 1]) then q else Complete(t, q[..|q| - 1])
  }

  lemma {:induction false} CompleteGrows(t: Input, q: seq<char8>, p: seq<char8>)
    requires p <= q && Complete(t, p) == p
    ensures p <= Complete(t, q)
    decreases |q|
  {
    if |p| < |q| { CompleteGrows(t, q[..|q| - 1], p); }
  }

  lemma {:induction false} CompleteTwice(t: Input, q: seq<char8>)
    ensures Complete(t, Complete(t, q)) == Complete(t, q)
    decreases |q|
  {
    if q != [] && !Ends(t, q[|q| - 1]) { CompleteTwice(t, q[..|q| - 1]); }
  }

  /** Erasing never reaches back into a line that has been ended: whatever is typed, the complete lines stay in
      front. */
  lemma {:induction false} CompleteLinesStay(l: Line, t: Input)
    ensures Complete(t, l.secondary) <= Cook(l, t).secondary
    decreases |l.read|
  {
    var p := Complete(t, l.secondary);
    if l.read != [] && !Full(l.secondary) {
      var l2 := CookByte(l.(read := l.read[1..]), t, l.read[0]);
      CompleteTwice(t, l.secondary);
      ByteSecondary(l.(read := l.read[1..]), t, l.read[0]);
      assert p <= l2.secondary;
      CompleteGrows(t, l2.secondary, p);
      CompleteLinesStay(l2, t);
    }
  }

  /** A byte that is neither mapped nor special. */
  predicate Ordinary(t: Input, c: char8) {
    c != CR && c != NL && c != t.eof && c != t.erase && c != t.stop && c != t.start && c != t.intr
    && !(t.uclc && 'A' as int <= c <= 'Z' as int)
  }

  predicate AllOrdinary(t: Input, s: seq<char8>) {
    forall i :: 0 <= i < |s| ==> Ordinary(t, s[i])
  }

  function Repeat(c: char8, n: nat): (s: seq<char8>)
    ensures |s| == n
  {
    if n == 0 then [] else [c] + Repeat(c, n - 1)
  }

  /** What is cooked does not depend on the echo. */
  lemma {:induction false} EchoDoesNotMatter(l: Line, m: Line, t: Input)
    requires m == l.(echoed := m.echoed, waiting := m.waiting)
    ensures Cook(m, t) == Cook(l, t).(echoed := Cook(m, t).echoed, waiting := Cook(m, t).waiting)
    decreases |l.read|
  {
    if l.read != [] && !Full(l.secondary) {
      var l1, m1 := l.(read := l.read[1..]), m.(read := m.read[1..]);
      ByteEcho(l1, m1, t, l.read[0]);
      EchoDoesNotMatter(CookByte(l1, t, l.read[0]), CookByte(m1, t, l.read[0]), t);
    }
  }

  lemma OrdinaryByte(l: Line, t: Input, c: char8)
    requires Ordinary(t, c)
    ensures CookByte(l, t, c).secondary == l.secondary + [c] && CookByte(l, t, c).read == l.read
  {
    UpTo(l, t, c);
  }

  /** Typing ordinary bytes appends them. */
  lemma {:induction false} TypingAppends(l: Line, t: Input, s: seq<char8>, rest: seq<char8>)
    requires AllOrdinary(t, s) && l.read == s + rest && |l.secondary| + |s| < SIZE
    ensures Cook(l, t).secondary == Cook(l.(read := rest, secondary := l.secondary + s), t).secondary
    decreases |s|
  {
    if s == [] {
      assert l.read == rest && l.secondary + s == l.secondary;
    } else {
      assert l.read[0] == s[0] && l.read[1..] == s[1..] + rest;
      assert Ordinary(t, s[0]);
      var l2 := CookByte(l.(read := l.read[1..]), t, s[0]);
      OrdinaryByte(l.(read := l.read[1..]), t, s[0]);
      TypingAppends(l2, t, s[1..], rest);
      assert l2.secondary + s[1..] == l.secondary + s;
      EchoDoesNotMatter(l2.(read := rest, secondary := l.secondary + s),
        l.(read := rest, secondary := l.secondary + s), t);
    }
  }

  /** The erase character is typed as itself. */
  predicate ErasesSomething(t: Input, c: char8) {
    t.canon && c == t.erase && Mapped(t, c) == c && c != CR
  }

  lemma EraseOne(l: Line, t: Input, c: char8)
    requires ErasesSomething(t, c) && l.secondary != [] && Ordinary(t, l.secondary[|l.secondary| - 1])
    ensures var l2 := CookByte(l, t, c); 
      l2 == l.(secondary := l.secondary[..|l.secondary| - 1], echoed := l2.echoed, waiting := l2.waiting)
  {
  }

  lemma {:induction false} ErasingTakesBack(l: Line, t: Input, c: char8, p: seq<char8>, w: seq<char8>, rest: seq<char8>)
    requires ErasesSomething(t, c) && l.read == Repeat(c, |w|) + rest && l.secondary == p + w && |p + w| < SIZE - 1
    requires AllOrdinary(t, w)
    ensures Cook(l, t).secondary == Cook(l.(read := rest, secondary := p), t).secondary
    decreases |w|
  {
    if w == [] {
      assert l.read == rest && p + w == p;
    } else {
      var v := w[..|w| - 1];
      assert l.read[0] == c && l.read[1..] == Repeat(c, |v|) + rest;
      assert Ordinary(t, w[|w| - 1]) && l.secondary[..|l.secondary| - 1] == p + v;
      EraseOne(l.(read := l.read[1..]), t, c);
      var l2 := CookByte(l.(read := l.read[1..]), t, c);
      ErasingTakesBack(l2, t, c, p, v, rest);
      EchoDoesNotMatter(l2.(read := rest, secondary := p), l.(read := rest, secondary := p), t);
    }
  }

  /** Typing a text and as many erases as one likes leaves what a typist expects. */
  lemma EraseUndoesTyping(l: Line, t: Input, s: seq<char8>, c: char8, k: nat, rest: seq<char8>)
    requires ErasesSomething(t, c) && AllOrdinary(t, s) && k <= |s| && |l.secondary| + |s| < SIZE - 1
    requires l.read == s + (Repeat(c, k) + rest)
    ensures Cook(l, t).secondary == Cook(l.(read := rest, secondary := l.secondary + s[..|s| - k]), t).secondary
  {
    TypingAppends(l, t, s, Repeat(c, k) + rest);
    var m := l.(read := Repeat(c, k) + rest, secondary := l.secondary + s);
    var p, w := l.secondary + s[..|s| - k], s[|s| - k..];
    assert m.secondary == p + w by { assert s == s[..|s| - k] + w; }
    ErasingTakesBack(m, t, c, p, w, rest);
  }

  // ---------------------------------------------------------------------------------------------------------
  // Echo

  /** What a byte echoes. */
  function EchoOf(l: Line, t: Input, c: char8): seq<char8> {
    var r := UpToWrite(l, t, Mapped(t, c)).1;
    if c == CR && !t.crnl && t.nocr then []
    else if r.Accept? && t.echo then Echo(t, r.c)
    else if r.Drop? && t.echo then (if l.secondary[|l.secondary| - 1] < 32 then [127, 127] else [127])
    else []
  }

  /** What copy_to_cooked echoes. */
  function EchoText(l: Line, t: Input): seq<char8>
    decreases |l.read|
  {
    if l.read == [] || Full(l.secondary) then []
    else
      var l1 := l.(read := l.read[1..]);
      assert CookByte(l1, t, l.read[0]).read == l1.read;
      EchoOf(l1, t, l.read[0]) + EchoText(CookByte(l1, t, l.read[0]), t)
  }

  /** All that has ever been put in the write queue. */
  function Emitted(l: Line): seq<char8> { l.echoed + l.waiting }

  lemma {:induction false} PutAllFits(q: seq<char8>, e: seq<char8>)
    requires |q| < SIZE
    ensures |q| + |e| < SIZE ==> PutAll(q, e) == q + e
    ensures |q| + |e| >= SIZE ==> |PutAll(q, e)| < |q| + |e|
    decreases |e|
  {
    if e == [] {
      assert q + e == q;
    } else {
      PutAllFits(Put(q, e[0]), e[1..]);
      assert q + [e[0]] + e[1..] == q + e;
    }
  }

  /** Where the echo of a byte goes. */
  lemma EchoGoes(l: Line, t: Input, c: char8)
    ensures var l2 := CookByte(l, t, c);
      Emitted(l2) == l.echoed + PutAll(l.waiting, EchoOf(l, t, c)) && (l2.waiting == [] || l2.waiting == l.waiting)
  {
    var (l1, r) := UpToWrite(l, t, Mapped(t, c));
    assert l1.waiting == PutAll(l.waiting, EchoOf(l, t, c)) || (c == CR && !t.crnl && t.nocr);
  }

  /** The output that waits in the write queue and the echo of a byte all reach the screen, in that order, if and only
      if the queue has room for the echo. */
  lemma EchoIsKept(l: Line, t: Input, c: char8)
    requires |l.waiting| < SIZE
    ensures Emitted(CookByte(l, t, c)) == Emitted(l) + EchoOf(l, t, c) <==> |l.waiting| + |EchoOf(l, t, c)| < SIZE
    ensures |CookByte(l, t, c).waiting| <= |l.waiting|
  {
    var e := EchoOf(l, t, c);
    EchoGoes(l, t, c);
    PutAllFits(l.waiting, e);
    Together(l.echoed, l.waiting, e);
  }

  lemma Together(a: seq<char8>, b: seq<char8>, c: seq<char8>)
    ensures a + (b + c) == a + b + c
  {
  }

  /** The line after one round. */
  function Round(l: Line, t: Input): (l2: Line)
    requires l.read != []
    ensures l2.read == l.read[1..]
  {
    ByteSecondary(l.(read := l.read[1..]), t, l.read[0]);
    CookByte(l.(read := l.read[1..]), t, l.read[0])
  }

  lemma OneRound(l: Line, t: Input)
    requires l.read != [] && !Full(l.secondary)
    ensures var e := EchoOf(l.(read := l.read[1..]), t, l.read[0]);
      Cook(l, t) == Cook(Round(l, t), t) && EchoText(l, t) == e + EchoText(Round(l, t), t) && |e| <= 2
  {
  }

  /** With room for two bytes, the longest echo, nothing is lost whatever is cooked. */
  lemma {:induction false} CookEmits(l: Line, t: Input)
    requires |l.waiting| + 2 < SIZE
    ensures Emitted(Cook(l, t)) == Emitted(l) + EchoText(l, t)
    decreases |l.read|
  {
    if l.read == [] || Full(l.secondary) {
      assert Emitted(l) + [] == Emitted(l);
    } else {
      var l1, l2 := l.(read := l.read[1..]), Round(l, t);
      OneRound(l, t);
      EchoIsKept(l1, t, l.read[0]);
      CookEmits(l2, t);
      Together(Emitted(l), EchoOf(l1, t, l.read[0]), EchoText(l2, t));
    }
  }

  // ---------------------------------------------------------------------------------------------------------
  // tty_write

  /** OCRNL and ONLRET. */
  function Turned(f: Output, c: char8): char8 {
    if !f.post then c else if c == CR && f.crnl then NL else if c == NL && f.nlret then CR else c
  }

  function Out(f: Output, c: char8): char8 {
    if f.post && f.lcuc then ToUpper(Turned(f, c)) else Turned(f, c)
  }

  /** Whether a carriage return goes before the byte; `cr` says that it has gone already. */
  predicate NeedsCr(f: Output, cr: bool, c: char8) {
    f.post && Turned(f, c) == NL && !cr && f.nlcr
  }

  /** What tty_write sends for `s`. */
  function Sent(f: Output, cr: bool, s: seq<char8>): seq<char8> {
    if s == [] then [] else (if NeedsCr(f, cr, s[0]) then [CR] else []) + [Out(f, s[0])] + Sent(f, false, s[1..])
  }

  /** Every newline as carriage return and newline, everything else as it is. */
  function CrLf(s: seq<char8>): seq<char8> {
    if s == [] then [] else (if s[0] == NL then [CR, NL] else [s[0]]) + CrLf(s[1..])
  }

  const ONLY_NLCR: Output := Output(true, false, false, true, false)

  /** With OPOST and ONLCR and no other mapping, each newline is expanded once. */
  lemma {:induction false} OnlyNewlinesExpand(s: seq<char8>)
    ensures Sent(ONLY_NLCR, false, s) == CrLf(s)
  {
    if s != [] { OnlyNewlinesExpand(s[1..]); }
  }

  /** Reading it back: a carriage return before a newline goes away. */
  function Collapse(s: seq<char8>): seq<char8>
    decreases |s|
  {
    if |s| >= 2 && s[0] == CR && s[1] == NL then [NL] + Collapse(s[2..])
    else if s == [] then [] else [s[0]] + Collapse(s[1..])
  }

  /** The expansion can be undone, also of a text that has carriage returns of its own. */
  lemma {:induction false} CollapseCrLf(s: seq<char8>)
    ensures Collapse(CrLf(s)) == s
    decreases |s|
  {
    if s != [] {
      var e := CrLf(s[1..]);
      CollapseCrLf(s[1..]);
      if s[0] == NL {
        assert CrLf(s) == [CR, NL] + e && ([CR, NL] + e)[2..] == e;
      } else {
        assert CrLf(s) == [s[0]] + e && ([s[0]] + e)[1..] == e;
        assert e != [] ==> e[0] != NL;
      }
    }
  }
}
