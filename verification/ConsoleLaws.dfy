/** What each byte does to the screen: the cursor, the rows and cells, the rendition. */
module ConsoleLaws {
  import opened Console

  const SPACE: Cell := Cell(32, 0x07)

  /** Row `y` is blank. */
  predicate Clear(g: Grid, y: nat)
    requires y < 25
  {
    forall i :: 80 * y <= i < 80 * y + 80 ==> g[i] == SPACE
  }

  /** Row `y` of `h` is row `z` of `g`. */
  predicate SameRow(g: Grid, z: nat, h: Grid, y: nat)
    requires z < 25 && y < 25
  {
    h[80 * y..80 * y + 80] == g[80 * z..80 * z + 80]
  }

  /** The rows of the scrolling region have moved up by one; nothing else of the screen has changed. */
  ghost predicate MovedUp(t: Term, u: Term)
    requires Ok(t) && Ok(u)
  {
    && u == t.(grid := u.grid) && Clear(u.grid, t.bottom - 1)
    && (forall y, z {:trigger SameRow(t.grid, z, u.grid, y)} :: t.top <= y < z == y + 1 < t.bottom ==>
      SameRow(t.grid, z, u.grid, y))
    && (forall y {:trigger SameRow(t.grid, y, u.grid, y)} :: 0 <= y < 25 && !(t.top <= y < t.bottom) ==>
      SameRow(t.grid, y, u.grid, y))
  }

  ghost predicate MovedDown(t: Term, u: Term)
    requires Ok(t) && Ok(u)
  {
    && u == t.(grid := u.grid) && Clear(u.grid, t.top)
    && (forall y, z {:trigger SameRow(t.grid, z, u.grid, y)} :: t.top <= z < y == z + 1 < t.bottom ==>
      SameRow(t.grid, z, u.grid, y))
    && (forall y {:trigger SameRow(t.grid, y, u.grid, y)} :: 0 <= y < 25 && !(t.top <= y < t.bottom) ==>
      SameRow(t.grid, y, u.grid, y))
  }

  /** One line on: the cursor moves down, or, at the bottom of the region, the rows move up under it. */
  ghost predicate Fed(t: Term, u: Term)
    requires Ok(t) && Ok(u)
  {
    if t.y + 1 < t.bottom then u == t.(y := t.y + 1) else MovedUp(t, u)
  }

  ghost predicate FedBack(t: Term, u: Term)
    requires Ok(t) && Ok(u)
  {
    if t.y > t.top then u == t.(y := t.y - 1) else MovedDown(t, u)
  }

  lemma UpIsMovedUp(t: Term)
    requires Ok(t)
    ensures MovedUp(t, t.(grid := ScrollUp(t.grid, t.top, t.bottom)))
  {
  }

  lemma DownIsMovedDown(t: Term)
    requires Ok(t)
    ensures MovedDown(t, t.(grid := ScrollDown(t.grid, t.top, t.bottom)))
  {
  }

  lemma LfFeeds(t: Term)
    requires Ok(t)
    ensures Ok(Lf(t)) && Fed(t, Lf(t))
  {
    UpIsMovedUp(t);
  }

  // ---------------------------------------------------------------------------------------------------------
  // Bytes outside control sequences

  /** Line feed, vertical tab and form feed. */
  lemma LineFeed(t: Term, c: int, erase: nat)
    requires Ok(t) && t.state == 0 && 10 <= c <= 12
    ensures Fed(t, Byte(t, c, erase))
  {
    LfFeeds(t);
  }

  lemma CarriageReturn(t: Term, erase: nat)
    requires Ok(t) && t.state == 0
    ensures Byte(t, 13, erase) == t.(x := 0)
  {
  }

  /** The erase character takes back a cell of the row, a backspace only moves. */
  lemma EraseAndBackspace(t: Term, c: int, erase: nat)
    requires Ok(t) && t.state == 0 && (c == erase || c == 8) && !(31 < c < 127) && c != 27 && !(10 <= c <= 13)
    ensures Byte(t, c, erase) ==
      if t.x == 0 then t
      else if c == erase then t.(x := t.x - 1, grid := t.grid[80 * t.y + t.x - 1 := SPACE])
      else t.(x := t.x - 1)
  {
  }

  /** A tab moves to the next column that 8 divides, and past the last one into the next line. */
  lemma TabStop(t: Term, erase: nat)
    requires Ok(t) && t.state == 0 && erase != 9
    ensures var u, x := Byte(t, 9, erase), (t.x / 8 + 1) * 8;
      if x <= 80 then u == t.(x := x) else Fed(t.(x := x - 80), u)
  {
    LfFeeds(t.(x := (t.x / 8 + 1) * 8 % 80));
  }

  /** A printing byte stands at the cursor, which moves on; behind the last column it starts the next line. */
  lemma Prints(t: Term, c: int, erase: nat) returns (v: Term)
    requires Ok(t) && t.state == 0 && 32 <= c <= 126
    ensures Ok(v) && v.x < 80 && if t.x < 80 then v == t else Fed(t.(x := 0), v) && v.x == 0
    ensures Byte(t, c, erase) == v.(grid := v.grid[80 * v.y + v.x := Cell(c, v.attr)], x := v.x + 1)
  {
    v := t;
    if t.x == 80 {
      LfFeeds(t.(x := 0));
      v := Lf(t.(x := 0));
    }
  }

  /** ESC starts a sequence; all other control bytes, 127 and those above do nothing. */
  lemma OtherBytes(t: Term, c: int, erase: nat)
    requires Ok(t) && t.state == 0 && !(32 <= c <= 126) && !(8 <= c <= 13) && c != erase
    ensures Byte(t, c, erase) == if c == 27 then t.(state := 1) else t
  {
  }

  // ---------------------------------------------------------------------------------------------------------
  // After ESC

  lemma AfterEscape(t: Term, c: int, erase: nat)
    requires Ok(t) && t.state == 1
    ensures var s, u := t.(state := 0), Byte(t, c, erase);
      && (c == '[' as int ==> u == t.(state := 2))
      && (c == 'D' as int ==> Fed(s, u))
      && (c == 'M' as int ==> FedBack(s, u))
      && (c == 'E' as int ==> u == if s.y < 24 then s.(x := 0, y := s.y + 1) else s)
      && (c == 'Z' as int ==> u == s.(reply := s.reply + "\U{1b}[?1;2c"))
      && (c != '[' as int && !('D' as int <= c <= 'E' as int) && c != 'M' as int && c != 'Z' as int ==>
        u == if s.x == 55 then s.(savedX := s.x, savedY := s.y)
          else if s.x == 56 then s.(x := s.savedX, y := s.savedY) else s)
  {
    var s := t.(state := 0);
    LfFeeds(s);
    DownIsMovedDown(s);
  }

  /** The byte after ESC [ clears the parameters; but for ? it is one of them, or the last byte, already. */
  lemma AfterBracket(t: Term, c: int, erase: nat)
    requires Ok(t) && t.state == 2
    ensures var s := t.(state := 3, npar := 0, par := seq(16, i => 0), ques := c == '?' as int);
      Byte(t, c, erase) == if c == '?' as int then s else Byte(s, c, erase)
  {
    assert NO_PARAMETERS == seq(16, i => 0);
  }

  lemma ParameterByte(t: Term, c: int, erase: nat)
    requires Ok(t) && t.state == 3
    ensures c == ';' as int && t.npar < 15 ==> Byte(t, c, erase) == t.(npar := t.npar + 1)
    ensures '0' as int <= c <= '9' as int ==>
      Byte(t, c, erase) == t.(par := t.par[t.npar := (10 * t.par[t.npar] + c - '0' as int) % 0x1_0000_0000])
  {
  }

  // ---------------------------------------------------------------------------------------------------------
  // The last byte of a control sequence

  /** The byte ends the sequence. */
  predicate Ends(t: Term, c: int) {
    t.state == 3 && !(c == ';' as int && t.npar < 15) && !('0' as int <= c <= '9' as int)
  }

  /** At (x, y), if that is on the screen, counted in 32 bits; the parameters may have been changed on the way. */
  predicate GoneTo(t: Term, u: Term, x: int, y: int) {
    var x', y' := x % 0x1_0000_0000, y % 0x1_0000_0000;
    u == t.(state := 0, par := u.par, x := if x' < 80 && y' < 25 then x' else t.x, y := if x' < 80 && y' < 25 then y'
      else t.y)
  }

  /** A parameter that counts, and one that numbers from 1. */
  function Times(p: nat): nat { if p == 0 then 1 else p }
  function Number(p: nat): nat { if p == 0 then 0 else p - 1 }

  /** The moves by as many places as the parameter says. A cursor behind the last column is not on the screen, so that
      it does not move up or down. */
  lemma UpAndDown(t: Term, c: int, erase: nat)
    requires Ok(t) && Ends(t, c)
    ensures var n, u := Times(t.par[0]), Byte(t, c, erase);
      && (c == 'A' as int ==> GoneTo(t, u, t.x, t.y - n))
      && (c == 'B' as int || c == 'e' as int ==> GoneTo(t, u, t.x, t.y + n))
  {
  }

  lemma LeftAndRight(t: Term, c: int, erase: nat)
    requires Ok(t) && Ends(t, c)
    ensures var n, u := Times(t.par[0]), Byte(t, c, erase);
      && (c == 'C' as int || c == 'a' as int ==> GoneTo(t, u, t.x + n, t.y))
      && (c == 'D' as int ==> GoneTo(t, u, t.x - n, t.y))
  {
  }

  lemma LineUpAndDown(t: Term, c: int, erase: nat)
    requires Ok(t) && Ends(t, c)
    ensures var n, u := Times(t.par[0]), Byte(t, c, erase);
      && (c == 'E' as int ==> GoneTo(t, u, 0, t.y + n))
      && (c == 'F' as int ==> GoneTo(t, u, 0, t.y - n))
  {
  }

  /** The moves to a place. */
  lemma ToColumnOrRow(t: Term, c: int, erase: nat)
    requires Ok(t) && Ends(t, c)
    ensures var u := Byte(t, c, erase);
      && (c == 'G' as int || c == '`' as int ==> GoneTo(t, u, Number(t.par[0]), t.y))
      && (c == 'd' as int ==> GoneTo(t, u, t.x, Number(t.par[0])))
  {
  }

  lemma ToPlace(t: Term, c: int, erase: nat)
    requires Ok(t) && Ends(t, c) && (c == 'H' as int || c == 'f' as int)
    ensures GoneTo(t, Byte(t, c, erase), Number(t.par[1]), Number(t.par[0]))
  {
    var s := t.(state := 0);
    var u := FromZero(FromZero(s, 0), 1);
    assert u == s.(par := u.par) && u.par[1] == Number(t.par[1]) && u.par[0] == Number(t.par[0]);
    assert Byte(t, c, erase) == Goto(u, u.par[1], u.par[0]);
  }

  /** Just the cells from `a` to `b` are blank now. */
  ghost predicate Erased(t: Term, u: Term, a: nat, b: nat)
    requires Ok(t) && Ok(u)
  {
    u == t.(state := 0, grid := u.grid) && forall i :: 0 <= i < 2000 ==>
      u.grid[i] == if a <= i < b then SPACE else t.grid[i]
  }

  lemma EraseDisplay(t: Term, erase: nat)
    requires Ok(t) && t.state == 3
    ensures var u, p, at := Byte(t, 'J' as int, erase), t.par[0], 80 * t.y + t.x;
      Erased(t, u, if p == 0 then at else 0, if p == 1 then at else if p == 0 || p == 2 then 2000 else 0)
  {
  }

  lemma EraseLine(t: Term, erase: nat)
    requires Ok(t) && t.state == 3
    ensures var u, p, row := Byte(t, 'K' as int, erase), t.par[0], 80 * t.y;
      Erased(t, u, if p == 0 then row + t.x else row, if p == 1 then row + t.x else if p == 0 || p == 2 then row + 80
        else 0)
  {
  }

  /** Lines go in or out as often as the parameter says, once for none. */
  lemma LinesIn(t: Term, erase: nat)
    requires Ok(t) && t.state == 3
    ensures var u, n := Byte(t, 'L' as int, erase), Times(t.par[0]);
      u == t.(state := 0, grid := u.grid) && forall y :: 0 <= y < 25 ==> Row(u.grid, y) == RowInserted(t, n, y)
  {
    var s, k := t.(state := 0), Count(t.par[0], 25);
    forall y | 0 <= y < 25 ensures Row(InsertLines(s, k).grid, y) == RowInserted(s, k, y) { InsertLinesMoves(s, k, y); }
    InsertLinesMoves(s, k, 0);
  }

  lemma LinesOut(t: Term, erase: nat)
    requires Ok(t) && t.state == 3
    ensures var u, n := Byte(t, 'M' as int, erase), Times(t.par[0]);
      u == t.(state := 0, grid := u.grid) && forall y :: 0 <= y < 25 ==> Row(u.grid, y) == RowDeleted(t, n, y)
  {
    var s, k := t.(state := 0), Count(t.par[0], 25);
    forall y | 0 <= y < 25 ensures Row(DeleteLines(s, k).grid, y) == RowDeleted(s, k, y) { DeleteLinesMoves(s, k, y); }
    DeleteLinesMoves(s, k, 0);
  }

  /** And characters. */
  lemma CharsInAndOut(t: Term, erase: nat)
    requires Ok(t) && t.state == 3
    ensures var u, n := Byte(t, '@' as int, erase), Times(t.par[0]);
      u == t.(state := 0, grid := u.grid) && forall i :: 0 <= i < 2000 ==> u.grid[i] == CellInserted(t, n, i)
    ensures var u, n := Byte(t, 'P' as int, erase), Times(t.par[0]);
      u == t.(state := 0, grid := u.grid) && forall i :: 0 <= i < 2000 ==> u.grid[i] == CellDeleted(t, n, i)
  {
    var s, k := t.(state := 0), Count(t.par[0], 80);
    InsertCharsMoves(s, k);
    DeleteCharsMoves(s, k);
  }

  /** What a parameter of SGR selects, if it is known. */
  function Selects(p: nat): int {
    if p == 0 || p == 27 then 0x07 else if p == 1 || p == 4 then 0x0f else if p == 7 then 0x70 else -1
  }

  /** Parameter `k` is the last of those up to `n` that select a rendition. */
  ghost predicate LastOne(par: seq<nat>, k: nat, n: nat)
    requires k <= n < |par|
  {
    Selects(par[k]) >= 0 && forall j :: k < j <= n ==> Selects(par[j]) < 0
  }

  /** The rendition is that of the last parameter that selects one, or stays. */
  lemma Rendition(t: Term, erase: nat)
    requires Ok(t) && t.state == 3
    ensures var u := Byte(t, 'm' as int, erase);
      && u == t.(state := 0, attr := u.attr)
      && (forall k {:trigger LastOne(t.par, k, t.npar)} :: 0 <= k <= t.npar && LastOne(t.par, k, t.npar) ==>
        u.attr == Selects(t.par[k]))
      && ((forall k :: 0 <= k <= t.npar ==> Selects(t.par[k]) < 0) ==> u.attr == t.attr)
  {
    LastSelects(t.attr, t.par, 0, t.npar);
  }

  lemma {:induction false} LastSelects(attr: nat, par: seq<nat>, i: nat, n: nat)
    requires n < |par| && i <= n + 1
    ensures var a := CsiM(attr, par, i, n);
      && (forall k {:trigger LastOne(par, k, n)} :: i <= k <= n && LastOne(par, k, n) ==> a == Selects(par[k]))
      && ((forall k :: i <= k <= n ==> Selects(par[k]) < 0) ==> a == attr)
    decreases n + 1 - i
  {
    if i <= n { LastSelects(Console.Rendition(attr, par[i]), par, i + 1, n); }
  }

  /** The scrolling region, its last row by default that of the screen; an empty one changes nothing. */
  lemma SetRegion(t: Term, erase: nat)
    requires Ok(t) && t.state == 3
    ensures var u, a, b := Byte(t, 'r' as int, erase), Number(t.par[0]), if t.par[1] == 0 then 25 else t.par[1];
      u == if a < b <= 25 then t.(state := 0, par := u.par, top := a, bottom := b) else t.(state := 0, par := u.par)
  {
  }

  lemma SaveAndRestore(t: Term, erase: nat)
    requires Ok(t) && t.state == 3
    ensures Byte(t, 's' as int, erase) == t.(state := 0, savedX := t.x, savedY := t.y)
    ensures Byte(t, 'u' as int, erase) == t.(state := 0, x := t.savedX, y := t.savedY)
  {
  }

  /** No other byte that ends a sequence does anything else. */
  lemma OtherEnds(t: Term, c: int, erase: nat)
    requires Ok(t) && Ends(t, c)
    requires !('A' as int <= c <= 'H' as int) && !('J' as int <= c <= 'M' as int) && c != 'P' as int && c != '@' as int
    requires c != '`' as int && c != 'a' as int && !('d' as int <= c <= 'f' as int) && c != 'm' as int
    requires !('r' as int <= c <= 's' as int) && c != 'u' as int
    ensures Byte(t, c, erase) == t.(state := 0)
  {
  }

  // ---------------------------------------------------------------------------------------------------------
  // Lines of text

  /** The text and a newline as tty_write sends it. */
  function Line(l: seq<int>): seq<int> { l + [13, 10] }

  function Lines(ls: seq<seq<int>>): seq<int>
    decreases |ls|
  {
    if ls == [] then [] else Lines(ls[..|ls| - 1]) + Line(ls[|ls| - 1])
  }

  predicate Fitting(ls: seq<seq<int>>) {
    forall j :: 0 <= j < |ls| ==> Printing(ls[j]) && |ls[j]| <= 80
  }

  /** The text stands at the start of row `y`. */
  ghost predicate Stands(g: Grid, y: nat, l: seq<int>, attr: nat)
    requires y < 25 && |l| <= 80
  {
    forall k {:trigger l[k]} :: 0 <= k < |l| ==> g[80 * y + k] == Cell(l[k], attr)
  }

  /** The row where the cursor is after `m` lines from row `y` on. */
  function RowAfter(y: nat, m: nat): nat { if y + m < 24 then y + m else 24 }

  /** Lines stand above the cursor, the last one right above it. */
  ghost predicate Above(u: Term, ls: seq<seq<int>>, y: nat, attr: nat)
    requires Ok(u) && Fitting(ls)
  {
    && u.x == 0 && u.y == RowAfter(y, |ls|)
    && forall j {:trigger ls[j]} :: 0 <= j < |ls| && |ls| - j <= u.y ==> Stands(u.grid, u.y - (|ls| - j), ls[j], attr)
  }

  predicate Whole(t: Term) { t.state == 0 && t.top == 0 && t.bottom == 25 }

  /** One line: the text, and the cursor at the start of the next row, which may have moved all others up. */
  lemma OneLine(t: Term, l: seq<int>, erase: nat) returns (v: Term)
    requires Ok(t) && Whole(t) && t.x == 0 && Printing(l) && |l| <= 80
    ensures Ok(v) && v == t.(grid := v.grid, x := 0) && Stands(v.grid, t.y, l, t.attr)
    ensures forall i {:trigger v.grid[i]} :: 0 <= i < 2000 && !(80 * t.y <= i < 80 * t.y + 80) ==>
      v.grid[i] == t.grid[i]
    ensures Fed(v, Bytes(t, Line(l), erase))
  {
    var s := Bytes(t, l, erase);
    TextAppears(t, l, erase);
    BytesConcat(t, l, [13, 10], erase);
    assert Line(l)[..|l|] == l;
    v := s.(x := 0);
    CarriageReturn(s, erase);
    LineFeed(v, 10, erase);
    TwoBytes(s, 13, 10, erase);
  }

  lemma TwoBytes(t: Term, a: int, b: int, erase: nat)
    requires Ok(t)
    ensures Bytes(t, [a, b], erase) == Byte(Byte(t, a, erase), b, erase)
  {
    BytesConcat(t, [a], [b], erase);
    assert [a] + [b] == [a, b];
    OneByte(t, a, erase);
    OneByte(Byte(t, a, erase), b, erase);
  }

  lemma MovedStands(v: Term, u: Term, y: nat, l: seq<int>, attr: nat)
    requires Ok(v) && Ok(u) && v.top == 0 && v.bottom == 25 && MovedUp(v, u) && 0 < y < 25 && |l| <= 80
    requires Stands(v.grid, y, l, attr)
    ensures Stands(u.grid, y - 1, l, attr)
  {
    assert SameRow(v.grid, y, u.grid, y - 1);
    forall k {:trigger l[k]} | 0 <= k < |l| ensures u.grid[80 * (y - 1) + k] == Cell(l[k], attr) {
      assert u.grid[80 * (y - 1)..80 * (y - 1) + 80][k] == v.grid[80 * y..80 * y + 80][k];
      assert v.grid[80 * y + k] == Cell(l[k], attr);
    }
  }

  /** After any number of lines of fitting text, each with its newline, as many of the last ones as there is room for
      stand on the screen in order, the last one above the cursor. */
  lemma {:induction false} LinesStand(t: Term, ls: seq<seq<int>>, erase: nat)
    requires Ok(t) && Whole(t) && t.x == 0 && Fitting(ls)
    ensures var u := Bytes(t, Lines(ls), erase); Whole(u) && u.attr == t.attr && Above(u, ls, t.y, t.attr)
    decreases |ls|
  {
    if ls != [] {
      var m := |ls| - 1;
      var u := Bytes(t, Lines(ls[..m]), erase);
      LinesStand(t, ls[..m], erase);
      BytesConcat(t, Lines(ls[..m]), Line(ls[m]), erase);
      var v := OneLine(u, ls[m], erase);
      NextLine(u, v, Bytes(u, Line(ls[m]), erase), ls, t.y, t.attr);
    }
  }

  lemma NextLine(u: Term, v: Term, w: Term, ls: seq<seq<int>>, y: nat, attr: nat)
    requires Ok(u) && Ok(v) && Ok(w) && ls != [] && Fitting(ls) && Whole(u) && y < 25
    requires var m := |ls| - 1; Above(u, ls[..m], y, attr) && Stands(v.grid, u.y, ls[m], attr)
    requires v == u.(grid := v.grid) && Fed(v, w)
    requires forall i {:trigger v.grid[i]} :: 0 <= i < 2000 && !(80 * u.y <= i < 80 * u.y + 80) ==>
      v.grid[i] == u.grid[i]
    ensures Whole(w) && w.attr == u.attr && Above(w, ls, y, attr)
  {
    var m := |ls| - 1;
    forall j {:trigger ls[j]} | 0 <= j < |ls| && |ls| - j <= w.y ensures Stands(w.grid, w.y - (|ls| - j), ls[j], attr) {
      if j < m {
        var r := u.y - (m - j);
        assert ls[..m][j] == ls[j] && Stands(u.grid, r, ls[..m][j], attr);
        assert Stands(v.grid, r, ls[j], attr);
        if u.y == 24 { MovedStands(v, w, r, ls[j], attr); }
      } else if u.y == 24 {
        MovedStands(v, w, 24, ls[j], attr);
      }
    }
  }
}
