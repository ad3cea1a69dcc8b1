/** What typing does: each byte's effect on the line, the echo of a text, and what then stands on the screen; and what
    is sent for each byte written. */
module TtyLaws {
  import opened Tty
  import Console
  import ConsoleLaws
  import Terminal

  // ---------------------------------------------------------------------------------------------------------
  // Bytes typed

  /** IGNCR drops carriage returns that ICRNL does not turn into newlines. */
  lemma ReturnIgnored(l: Line, t: Input)
    requires !t.crnl && t.nocr
    ensures CookByte(l, t, 13) == l
  {
  }

  /** ICRNL, INLCR and IUCLC, whose small letters are none. */
  lemma MappingIs(t: Input, c: char8)
    ensures t.crnl ==> Mapped(t, 13) == 10
    ensures !t.crnl ==> Mapped(t, 13) == 13
    ensures Mapped(t, 10) == if t.nlcr then 13 else 10
    ensures c != 13 && c != 10 ==> Mapped(t, c) == if t.uclc && 65 <= c <= 90 then c - 94 else c
  {
  }

  /** The bytes that the line discipline takes for itself, by what they do. */
  predicate Special(t: Input, m: char8) {
    (t.canon && (m == t.erase || m == t.stop || m == t.start)) || (!t.isig && m == t.intr)
  }

  /** The line with `m` on it, counted if it ends a line, and `e` echoed, after the output that waited. */
  function Joined(l: Line, t: Input, m: char8, e: seq<char8>): Line {
    var r := l.(secondary := l.secondary + [m], data := l.data + if m == 10 || m == t.eof then 1 else 0);
    if t.echo then r.(waiting := [], echoed := l.echoed + l.waiting + e) else r
  }

  /** A printing byte joins the line and is echoed as itself. */
  lemma PrintingByte(l: Line, t: Input, c: char8)
    requires !Special(t, Mapped(t, c)) && Mapped(t, c) >= 32 && |l.waiting| < 1022
    ensures CookByte(l, t, c) == Joined(l, t, Mapped(t, c), [Mapped(t, c)])
  {
    Echoed(l, t, c);
  }

  /** A newline is echoed with a carriage return. */
  lemma NewlineByte(l: Line, t: Input, c: char8)
    requires !Special(t, 10) && Mapped(t, c) == 10 && |l.waiting| < 1022
    ensures CookByte(l, t, c) == Joined(l, t, 10, [10, 13])
  {
    Echoed(l, t, c);
  }

  /** Any other control byte, and a byte above 127, is echoed as ^ and the letter 64 places on if ECHOCTL is set, and
      otherwise not at all. */
  lemma ControlByte(l: Line, t: Input, c: char8)
    requires !Special(t, Mapped(t, c)) && Mapped(t, c) < 32 && Mapped(t, c) != 10 && |l.waiting| < 1022
    requires !(c == 13 && !t.crnl && t.nocr)
    ensures CookByte(l, t, c) == Joined(l, t, Mapped(t, c), if t.echoctl then [94, Mapped(t, c) + 64] else [])
  {
    Echoed(l, t, c);
  }

  lemma Echoed(l: Line, t: Input, c: char8)
    requires !Special(t, Mapped(t, c)) && !(c == 13 && !t.crnl && t.nocr) && |l.waiting| < 1022
    ensures CookByte(l, t, c) == Joined(l, t, Mapped(t, c), Echo(t, Mapped(t, c)))
  {
    var e := Echo(t, Mapped(t, c));
    PutAllFits(l.waiting, e);
    Together(l.echoed, l.waiting, e);
  }

  /** The erase character takes back the last byte of the line, if there is one, and is echoed as one byte 127, or two
      for a control byte. */
  lemma EraseByte(l: Line, t: Input, c: char8)
    requires t.canon && Mapped(t, c) == t.erase && !(c == 13 && !t.crnl && t.nocr) && |l.waiting| < 1022
    ensures var q, n := l.secondary, |l.secondary|;
      CookByte(l, t, c) ==
        if n == 0 || q[n - 1] == 10 || q[n - 1] == t.eof then l
        else
          var r := l.(secondary := q[..n - 1]);
          if t.echo then r.(waiting := [], echoed := l.echoed + l.waiting + if q[n - 1] < 32 then [127, 127] else [127])
          else r
  {
    if l.secondary != [] {
      var e: seq<char8> := if l.secondary[|l.secondary| - 1] < 32 then [127, 127] else [127];
      PutAllFits(l.waiting, e);
      Together(l.echoed, l.waiting, e);
    }
  }

  /** In canonical mode the stop and start characters stop and start the terminal and join no line. */
  lemma StopAndStart(l: Line, t: Input, c: char8)
    requires t.canon && Mapped(t, c) != t.erase && !(c == 13 && !t.crnl && t.nocr)
    ensures Mapped(t, c) == t.stop ==> CookByte(l, t, c) == l.(stopped := true)
    ensures Mapped(t, c) == t.start && t.start != t.stop ==> CookByte(l, t, c) == l.(stopped := false)
  {
  }

  /** The interrupt character sends SIGINT exactly when ISIG is not set, unless it has another use. */
  lemma Interrupt(l: Line, t: Input, c: char8)
    requires Mapped(t, c) == t.intr && !(c == 13 && !t.crnl && t.nocr) && |l.waiting| < 1022
    requires t.canon ==> t.intr != t.erase && t.intr != t.stop && t.intr != t.start
    ensures !t.isig ==> CookByte(l, t, c) == l.(interrupts := l.interrupts + 1)
    ensures var l2 := CookByte(l, t, c);
      t.isig ==> l2.interrupts == l.interrupts && l2.secondary == l.secondary + [t.intr as char8]
  {
  }

  // ---------------------------------------------------------------------------------------------------------
  // Text typed

  /** Nothing but printing bytes, none of them special or mapped. */
  predicate Text(t: Input, s: seq<char8>) {
    forall i :: 0 <= i < |s| ==> 32 <= s[i] <= 126 && Ordinary(t, s[i])
  }

  /** The line with `s` typed and echoed and `rest` still to be cooked. */
  function Typed(l: Line, s: seq<char8>, rest: seq<char8>): Line {
    l.(read := rest, secondary := l.secondary + s, echoed := l.echoed + s)
  }

  /** Cooking `l` echoes `s` and goes on as from `m`. */
  predicate Echoing(l: Line, t: Input, s: seq<char8>, m: Line) {
    Cook(l, t) == Cook(m, t) && EchoText(l, t) == s + EchoText(m, t)
  }

  lemma EchoingTwice(l: Line, t: Input, a: seq<char8>, m: Line, b: seq<char8>, n: Line)
    requires Echoing(l, t, a, m) && Echoing(m, t, b, n)
    ensures Echoing(l, t, a + b, n)
  {
    Together(a, b, EchoText(n, t));
  }

  lemma OneTyped(l: Line, t: Input, c: char8, rest: seq<char8>)
    requires t.echo && Text(t, [c]) && l.read == [c] + rest && l.waiting == [] && !Full(l.secondary)
    ensures Echoing(l, t, [c], Typed(l, [c], rest))
  {
    assert Ordinary(t, [c][0]) && Mapped(t, c) == c;
    assert l.read[1..] == rest;
    PrintingByte(l.(read := rest), t, c);
    OneRound(l, t);
    assert Round(l, t) == Typed(l, [c], rest);
  }

  /** With echo on, a text that is typed is exactly what joins the line and exactly what is echoed, and nothing else
      changes. */
  lemma {:induction false} TextIsEchoed(l: Line, t: Input, s: seq<char8>, rest: seq<char8>)
    requires t.echo && Text(t, s) && l.read == s + rest && l.waiting == [] && |l.secondary| + |s| < SIZE
    ensures Echoing(l, t, s, Typed(l, s, rest))
    decreases |s|
  {
    if s == [] {
      assert Typed(l, s, rest) == l;
    } else {
      var c, v: seq<char8> := s[0], s[1..];
      assert s == [c] + v && l.read == [c] + (v + rest);
      assert Text(t, [c]) by { assert 32 <= s[0] <= 126 && Ordinary(t, s[0]); }
      OneTyped(l, t, c, v + rest);
      TextIsEchoed(Typed(l, [c], v + rest), t, v, rest);
      TypedTwice(l, [c], v, v + rest, rest);
      EchoingTwice(l, t, [c], Typed(l, [c], v + rest), v, Typed(l, s, rest));
    }
  }

  lemma TypedTwice(l: Line, a: seq<char8>, b: seq<char8>, r: seq<char8>, rest: seq<char8>)
    ensures Typed(Typed(l, a, r), b, rest) == Typed(l, a + b, rest)
  {
    Together(l.secondary, a, b);
    Together(l.echoed, a, b);
  }

  lemma NewlineTyped(l: Line, t: Input)
    requires t.echo && l.read == [10] && l.waiting == [] && !Full(l.secondary) && !Special(t, 10) && !t.nlcr
    ensures Cook(l, t) == l.(read := [], secondary := l.secondary + [10], data := l.data + 1,
      echoed := l.echoed + [10, 13])
    ensures EchoText(l, t) == [10, 13]
  {
    assert l.read[1..] == [];
    NewlineByte(l.(read := []), t, 10);
    OneRound(l, t);
    assert EchoText(Round(l, t), t) == [];
  }

  /** And a line of text with its newline: it is echoed with carriage return added, and counted. */
  lemma LineIsEchoed(l: Line, t: Input, s: seq<char8>)
    requires t.echo && Text(t, s) && l.read == s + [10] && l.waiting == [] && |l.secondary| + |s| + 1 < SIZE
    requires !Special(t, 10) && !t.nlcr
    ensures Cook(l, t) == l.(read := [], secondary := l.secondary + s + [10], data := l.data + 1,
      echoed := l.echoed + s + [10, 13])
    ensures EchoText(l, t) == s + [10, 13]
  {
    var m := Typed(l, s, [10]);
    TextIsEchoed(l, t, s, [10]);
    NewlineTyped(m, t);
    Together(l.echoed, s, [10, 13]);
  }

  // ---------------------------------------------------------------------------------------------------------
  // Text typed at the console

  /** A text that is typed and fits in the row stands on the screen behind the cursor, and nothing else of it has
      changed. `Copied` is what copy_to_cooked promises of the console. */
  lemma TypedTextStands(ok: bool, t: Console.Term, l: Line, t2: Console.Term, l2: Line, f: Input)
    requires Console.Ok(t) && t.state == 0 && t.x + |l.read| <= 80
    requires f.echo && Text(f, l.read) && l.waiting == [] && |l.secondary| + |l.read| < SIZE
    requires Terminal.Copied(ok, t, l, t2, l2, f)
    ensures ok && |t2.grid| == 2000 && t2 == t.(grid := t2.grid, x := t.x + |l.read|)
    ensures forall i {:trigger t2.grid[i]} :: 0 <= i < 2000 ==> var at := 80 * t.y + t.x;
      t2.grid[i] == if at <= i < at + |l.read| then Console.Cell(l.read[i - at], t.attr) else t.grid[i]
    ensures l2 == l.(read := [], secondary := l.secondary + l.read, echoed := l.echoed + l.read)
  {
    var s := l.read;
    assert s + [] == s;
    TextIsEchoed(l, f, s, []);
    assert EchoText(l, f) == s;
    Console.TextAppears(t, s, f.erase);
    if s != [] { assert Ordinary(f, s[0]); assert Terminal.ShowsNext(l, f); }
  }

  /** A line that is typed from the first column on: the text stands in the row, and the newline takes the cursor to the
      start of the next one, which at the bottom moves the others up. */
  lemma TypedLineStands(ok: bool, t: Console.Term, l: Line, s: seq<char8>, t2: Console.Term, l2: Line, f: Input)
      returns (v: Console.Term)
    requires Console.Ok(t) && t.state == 0 && t.x == 0 && |s| <= 80 && Console.Ok(t2)
    requires f.echo && Text(f, s) && l.read == s + [10] && l.waiting == [] && |l.secondary| + |s| + 1 < SIZE
    requires !Special(f, 10) && !f.nlcr
    requires Terminal.Copied(ok, t, l, t2, l2, f)
    ensures ok && Console.Ok(v) && v == t.(grid := v.grid, x := |s|)
    ensures forall i {:trigger v.grid[i]} :: 0 <= i < 2000 ==> var at := 80 * t.y;
      v.grid[i] == if at <= i < at + |s| then Console.Cell(s[i - at], t.attr) else t.grid[i]
    ensures ConsoleLaws.Fed(v.(x := 0), t2)
    ensures l2 == l.(read := [], secondary := l.secondary + s + [10], data := l.data + 1,
      echoed := l.echoed + s + [10, 13])
  {
    LineIsEchoed(l, f, s);
    v := Console.Bytes(t, s, f.erase);
    Console.TextAppears(t, s, f.erase);
    Console.BytesConcat(t, s, [10, 13], f.erase);
    ConsoleLaws.TwoBytes(v, 10, 13, f.erase);
    ConsoleLaws.LineFeed(v, 10, f.erase);
    ConsoleLaws.CarriageReturn(Console.Byte(v, 10, f.erase), f.erase);
  }

  // ---------------------------------------------------------------------------------------------------------
  // What is sent

  /** Without OPOST, what is written. */
  lemma {:induction false} RawOutput(f: Output, cr: bool, s: seq<char8>)
    requires !f.post
    ensures Sent(f, cr, s) == s
    decreases |s|
  {
    if s != [] { RawOutput(f, false, s[1..]); }
  }

  /** A small letter's capital. */
  function Capital(c: char8): char8 { if 97 <= c <= 122 then c - 32 else c }

  /** With it, for each byte: a carriage return may be a newline, else a newline a carriage return; what is then a
      newline is sent behind a carriage return or as it is, and anything else as it is or, for a small letter, its
      capital. */
  lemma ByteSent(f: Output, c: char8)
    requires f.post
    ensures c == 13 && !f.crnl ==> Sent(f, false, [c]) == [13]
    ensures c == 10 && f.nlret ==> Sent(f, false, [c]) == [13]
    ensures (c == 13 && f.crnl) || (c == 10 && !f.nlret) ==> Sent(f, false, [c]) == if f.nlcr then [13, 10] else [10]
    ensures c != 13 && c != 10 ==> Sent(f, false, [c]) == [if f.lcuc then Capital(c) else c]
  {
    assert Sent(f, false, [c][1..]) == [];
  }

  /** One byte after the other, whatever has been sent. */
  lemma {:induction false} SentConcat(f: Output, cr: bool, a: seq<char8>, b: seq<char8>)
    requires a != [] || !cr
    ensures Sent(f, cr, a + b) == Sent(f, cr, a) + Sent(f, false, b)
    decreases |a|
  {
    if a == [] {
      assert a + b == b;
    } else {
      assert (a + b)[1..] == a[1..] + b;
      SentConcat(f, false, a[1..], b);
    }
  }
}
