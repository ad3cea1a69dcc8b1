/** kernel/console.c as it runs on screen memory: the screen is a window of 25 rows into it that moves when the whole
  screen scrolls. Places are counted in cells of two bytes from SCREEN_START. */
module ConsoleCode {
  import opened Console

  const SCREEN_CELLS: nat := 16384

  class Screen {
    const cells: array<Cell>
    const par: array<nat>
    var origin: nat
    var scrEnd: nat
    var pos: nat
    var x: nat
    var y: nat
    var top: nat
    var bottom: nat
    var state: nat
    var npar: nat
    var ques: bool
    var attr: nat
    var savedX: nat
    var savedY: nat
    var reply: string

    ghost predicate InMemory()
      reads this
    {
      cells.Length == SCREEN_CELLS && par.Length == NPAR && scrEnd == origin + CELLS && scrEnd <= SCREEN_CELLS
    }

    ghost predicate Valid()
      reads this, cells, par
    {
      InMemory() && pos == origin + 80 * y + x && Ok(Show())
    }

    /** What is on the screen. */
    ghost function Show(): Term
      reads this, cells, par
      requires InMemory()
    {
      Term(cells[origin..origin + CELLS], x, y, top, bottom, state, npar, par[..], ques, attr, savedX, savedY, reply)
    }

    constructor ()
      ensures Valid() && fresh(cells) && fresh(par) && Show().x == 0 && Show().y == 0 && Show().state == 0
    {
      cells := new Cell[SCREEN_CELLS](i => BLANK);
      par := new nat[NPAR](i => 0);
      origin, scrEnd, pos, x, y, top, bottom := 0, CELLS, 0, 0, 0, 0, LINES;
      state, npar, ques, attr, savedX, savedY, reply := 0, 0, false, 0x07, 0, 0, "";
    }

    // -------------------------------------------------------------------------------------------------------
    // The string instructions

    /** rep movs upwards. */
    method MoveDown(dst: nat, src: nat, n: nat)
      requires dst <= src && src + n <= cells.Length
      modifies cells
      ensures forall i {:trigger cells[i]} :: 0 <= i < cells.Length ==>
        cells[i] == if dst <= i < dst + n then old(cells[i + (src - dst)]) else old(cells[i])
    {
      ghost var was := cells[..];
      ghost var d: nat := src - dst;
      var k := 0;
      while k < n
        invariant k <= n
        invariant forall i {:trigger cells[i]} :: 0 <= i < cells.Length ==>
          cells[i] == if dst <= i < dst + k then was[i + d] else was[i]
      {
        cells[dst + k] := cells[src + k];
        k := k + 1;
      }
    }

    /** rep movs downwards, from the end. */
    method MoveUp(dst: nat, src: nat, n: nat)
      requires src <= dst && dst + n <= cells.Length
      modifies cells
      ensures forall i {:trigger cells[i]} :: 0 <= i < cells.Length ==>
        cells[i] == if dst <= i < dst + n then old(cells[i - (dst - src)]) else old(cells[i])
    {
      var k: nat := n;
      while k > 0
        invariant k <= n
        invariant forall i {:trigger cells[i]} :: 0 <= i < cells.Length ==>
          cells[i] == if dst + k <= i < dst + n then old(cells[i - (dst - src)]) else old(cells[i])
      {
        k := k - 1;
        cells[dst + k] := cells[src + k];
      }
    }

    /** rep stos of blanks. */
    method Erase(start: nat, count: nat)
      requires start + count <= cells.Length
      modifies cells
      ensures forall i {:trigger cells[i]} :: 0 <= i < cells.Length ==>
        cells[i] == if start <= i < start + count then BLANK else old(cells[i])
    {
      var k := 0;
      while k < count
        invariant k <= count
        invariant forall i {:trigger cells[i]} :: 0 <= i < cells.Length ==>
          cells[i] == if start <= i < start + k then BLANK else old(cells[i])
      {
        cells[start + k] := BLANK;
        k := k + 1;
      }
    }

    // -------------------------------------------------------------------------------------------------------
    // Moving and scrolling

    method GotoXY(newX: int, newY: int)
      requires Valid() && 0 <= newX < U32 && 0 <= newY < U32
      modifies `x, `y, `pos
      ensures Valid() && Show() == Goto(old(Show()), newX, newY)
    {
      if newX >= COLUMNS || newY >= LINES {
        return;
      }
      x, y := newX, newY;
      pos := origin + (y * COLUMNS + x);
    }

    /** Memory outside the window is as it was. */
    twostate predicate Framed()
      reads this, cells
    {
      forall i {:trigger cells[i]} :: 0 <= i < cells.Length && !(origin <= i < scrEnd) ==> cells[i] == old(cells[i])
    }

    /** The same for a byte that may have moved the window several times: what was stored lies in the windows passed
        through, up to the last one, or, after a copy back to SCREEN_START, from the old one to the end and from the
        start to the last one. */
    twostate predicate Swept()
      reads this, cells
    {
      forall i {:trigger cells[i]} ::
        0 <= i < cells.Length && cells[i] != old(cells[i]) ==>
        if origin >= old(origin) then old(origin) <= i < scrEnd else i < scrEnd || old(origin) <= i
    }

    /** The window stays, moves on by a row, or starts over from the end of screen memory. */
    twostate predicate Moved()
      reads this
    {
      origin == old(origin) || origin == old(origin) + COLUMNS
        || (origin == 0 && old(origin) + COLUMNS + CELLS > SCREEN_CELLS)
    }

    lemma ScrolledUp(g: Grid, r: Grid, top: nat, bottom: nat)
      requires top < bottom <= LINES
      requires forall i {:trigger r[i]} :: 0 <= i < CELLS ==>
        r[i] == (if 80 * top <= i < 80 * (bottom - 1) then g[i + 80]
          else if 80 * (bottom - 1) <= i < 80 * bottom then BLANK else g[i])
      ensures r == ScrollUp(g, top, bottom)
    {
    }

    lemma ScrolledDown(g: Grid, r: Grid, top: nat, bottom: nat)
      requires top < bottom <= LINES
      requires forall i {:trigger r[i]} :: 0 <= i < CELLS ==>
        r[i] == (if 80 * (top + 1) <= i < 80 * bottom then g[i - 80] else if 80 * top <= i < 80 * (top + 1) then BLANK
          else g[i])
      ensures r == ScrollDown(g, top, bottom)
    {
    }

    /** All rows but the last from the window to the start of screen memory, and a blank one. */
    method CopyBack()
      requires cells.Length == SCREEN_CELLS && CELLS <= origin && origin + CELLS - COLUMNS <= SCREEN_CELLS
      modifies cells
      ensures forall i {:trigger cells[i]} :: 0 <= i < cells.Length ==>
        cells[i] == if i < CELLS - COLUMNS then old(cells[i + origin]) else if i < CELLS then BLANK else old(cells[i])
    {
      MoveDown(0, origin, (LINES - 1) * COLUMNS);
      Erase((LINES - 1) * COLUMNS, COLUMNS);
    }

    /** The scroll of the whole screen: the window moves on by one row, or starts over at SCREEN_START. */
    method ScrollWindow()
      requires Valid() && top == 0 && bottom == LINES
      modifies `origin, `pos, `scrEnd, cells
      ensures Valid() && Show() == Console.Scrup(old(Show())) && Framed() && Moved()
    {
      ghost var t := Show();
      origin := origin + COLUMNS;
      pos := pos + COLUMNS;
      scrEnd := scrEnd + COLUMNS;
      if scrEnd > SCREEN_CELLS {
        CopyBack();
        scrEnd := scrEnd - origin;
        pos := pos - origin;
        origin := 0;
      } else {
        Erase(scrEnd - COLUMNS, COLUMNS);
      }
      ScrolledUp(t.grid, Show().grid, 0, LINES);
    }

    method ScrollRegion()
      requires Valid()
      modifies cells
      ensures Valid() && Show() == Console.Scrup(old(Show())) && Framed()
    {
      ghost var t := Show();
      MoveDown(origin + COLUMNS * top, origin + COLUMNS * (top + 1), (bottom - top - 1) * COLUMNS);
      Erase(origin + COLUMNS * (bottom - 1), COLUMNS);
      ScrolledUp(t.grid, Show().grid, top, bottom);
    }

    method Scrup()
      requires Valid()
      modifies `origin, `pos, `scrEnd, cells
      ensures Valid() && Show() == Console.Scrup(old(Show())) && Framed() && Moved()
      ensures top > 0 ==> origin == old(origin)
    {
      if top == 0 && bottom == LINES {
        ScrollWindow();
      } else {
        ScrollRegion();
      }
    }

    method Scrdown()
      requires Valid()
      modifies cells
      ensures Valid() && Show() == Console.Scrdown(old(Show())) && Framed()
    {
      ghost var t := Show();
      MoveUp(origin + COLUMNS * (top + 1), origin + COLUMNS * top, (bottom - top - 1) * COLUMNS);
      Erase(origin + COLUMNS * top, COLUMNS);
      ScrolledDown(t.grid, Show().grid, top, bottom);
    }

    method Lf()
      requires Valid()
      modifies `y, `origin, `pos, `scrEnd, cells
      ensures Valid() && Show() == Console.Lf(old(Show())) && Framed()
    {
      if y + 1 < bottom {
        y := y + 1;
        pos := pos + COLUMNS;
        return;
      }
      Scrup();
    }

    method Ri()
      requires Valid()
      modifies `y, `pos, cells
      ensures Valid() && Show() == Console.Ri(old(Show())) && Framed()
    {
      if y > top {
        y := y - 1;
        pos := pos - COLUMNS;
        return;
      }
      Scrdown();
    }

    /** A store of one cell of the screen. */
    method PutCell(at: nat, c: Cell)
      requires InMemory() && origin <= at < scrEnd
      modifies cells
      ensures cells[origin..origin + CELLS] == old(cells[origin..origin + CELLS])[at - origin := c] && Framed()
    {
      cells[at] := c;
    }

    method Del()
      requires Valid()
      modifies `x, `pos, cells
      ensures Valid() && Show() == Console.Del(old(Show())) && Framed()
    {
      if x > 0 {
        pos := pos - 1;
        x := x - 1;
        PutCell(pos, BLANK);
      }
    }

    method EraseScreen(start: nat, count: nat)
      requires Valid() && origin <= start && start + count <= scrEnd
      modifies cells
      ensures Valid() && Framed()
      ensures Show() == old(Show()).(grid := Fill(old(Show()).grid, start - origin, start + count - origin))
    {
      ghost var t := Show();
      Erase(start, count);
      assert Show().grid == Fill(t.grid, start - origin, start + count - origin);
    }

    method CsiJ(p: nat)
      requires Valid()
      modifies cells
      ensures Valid() && Show() == Console.CsiJ(old(Show()), p) && Framed()
    {
      if p == 0 {
        EraseScreen(pos, scrEnd - pos);
      } else if p == 1 {
        EraseScreen(origin, pos - origin);
      } else if p == 2 {
        EraseScreen(origin, COLUMNS * LINES);
      }
    }

    method CsiK(p: nat)
      requires Valid()
      modifies cells
      ensures Valid() && Show() == Console.CsiK(old(Show()), p) && Framed()
    {
      if p == 0 {
        if x >= COLUMNS {
          assert Show().grid == Fill(Show().grid, 80 * y + x, 80 * y + 80);
          return;
        }
        EraseScreen(pos, COLUMNS - x);
      } else if p == 1 {
        EraseScreen(pos - x, if x < COLUMNS then x else COLUMNS);
      } else if p == 2 {
        EraseScreen(pos - x, COLUMNS);
      }
    }

    method CsiM()
      requires Valid()
      modifies `attr
      ensures Valid() && Show() == old(Show()).(attr := Console.CsiM(old(attr), par[..], 0, npar))
    {
      var i := 0;
      while i <= npar
        invariant Valid() && i <= npar + 1
        invariant Console.CsiM(attr, par[..], i, npar) == Console.CsiM(old(attr), par[..], 0, npar)
      {
        if par[i] == 0 {
          attr := 0x07;
        } else if par[i] == 1 || par[i] == 4 {
          attr := 0x0f;
        } else if par[i] == 7 {
          attr := 0x70;
        } else if par[i] == 27 {
          attr := 0x07;
        }
        i := i + 1;
      }
    }

    method InsertChar()
      requires Valid()
      modifies cells
      ensures Valid() && Show() == old(Show()).(grid := InsertAt(old(Show()).grid, x, y)) && Framed()
    {
      ghost var t := Show();
      ghost var was := cells[..];
      var i := x;
      var hold := BLANK;
      var p := pos;
      while i < COLUMNS
        invariant x <= i <= COLUMNS && p == pos + (i - x)
        invariant hold == if i == x then BLANK else was[p - 1]
        invariant forall k {:trigger cells[k]} :: 0 <= k < cells.Length ==>
          cells[k] == if pos < k < p then was[k - 1] else if k == pos && i > x then BLANK else was[k]
      {
        var tmp := cells[p];
        cells[p] := hold;
        hold := tmp;
        p := p + 1;
        i := i + 1;
      }
      InsertedAt(t.grid, Show().grid, x, y);
    }

    lemma InsertedAt(g: Grid, r: Grid, x: nat, y: nat)
      requires x <= COLUMNS && y < LINES
      requires forall k {:trigger r[k]} :: 0 <= k < CELLS ==>
        r[k] == if 80 * y + x < k < 80 * y + 80 then g[k - 1] else if k == 80 * y + x && x < COLUMNS then BLANK
          else g[k]
      ensures r == InsertAt(g, x, y)
    {
    }

    method DeleteChar()
      requires Valid()
      modifies cells
      ensures Valid() && Show() == old(Show()).(grid := DeleteAt(old(Show()).grid, x, y)) && Framed()
    {
      ghost var t := Show();
      ghost var was := cells[..];
      if x >= COLUMNS {
        DeletedAt(t.grid, t.grid, x, y);
        return;
      }
      var i := x;
      var p := pos;
      i := i + 1;
      while i < COLUMNS
        invariant x < i <= COLUMNS && p == pos + (i - x) - 1
        invariant forall k {:trigger cells[k]} :: 0 <= k < cells.Length ==>
          cells[k] == if pos <= k < p then was[k + 1] else was[k]
      {
        cells[p] := cells[p + 1];
        p := p + 1;
        i := i + 1;
      }
      cells[p] := BLANK;
      DeletedAt(t.grid, Show().grid, x, y);
    }

    lemma DeletedAt(g: Grid, r: Grid, x: nat, y: nat)
      requires x <= COLUMNS && y < LINES
      requires forall k {:trigger r[k]} :: 0 <= k < CELLS ==>
        r[k] == if 80 * y + x <= k < 80 * y + 79 then g[k + 1] else if k == 80 * y + 79 && x < COLUMNS then BLANK
          else g[k]
      ensures r == DeleteAt(g, x, y)
    {
    }

    method InsertLine()
      requires Valid()
      modifies `top, `bottom, cells
      ensures Valid() && Show() == old(Show()).(grid := ScrollDown(old(Show()).grid, y, LINES)) && Framed()
    {
      var oldTop, oldBottom := top, bottom;
      top, bottom := y, LINES;
      Scrdown();
      top, bottom := oldTop, oldBottom;
    }

    /** On the first row this moves the window, as a scroll of the whole screen does. */
    method DeleteLine()
      requires Valid()
      modifies `top, `bottom, `origin, `pos, `scrEnd, cells
      ensures Valid() && Show() == old(Show()).(grid := ScrollUp(old(Show()).grid, y, LINES)) && Framed() && Moved()
      ensures y > 0 ==> origin == old(origin)
    {
      var oldTop, oldBottom := top, bottom;
      top, bottom := y, LINES;
      Scrup();
      top, bottom := oldTop, oldBottom;
    }

    method CsiAt(p: nat)
      requires Valid()
      modifies cells
      ensures Valid() && Show() == InsertChars(old(Show()), Count(p, COLUMNS)) && Framed()
    {
      var nr: nat := if p > COLUMNS then COLUMNS else if p == 0 then 1 else p;
      while nr > 0
        invariant Valid() && InsertChars(Show(), nr) == InsertChars(old(Show()), Count(p, COLUMNS)) && Framed()
      {
        InsertChar();
        nr := nr - 1;
      }
    }

    method CsiL(p: nat)
      requires Valid()
      modifies `top, `bottom, cells
      ensures Valid() && Show() == InsertLines(old(Show()), Count(p, LINES)) && Framed()
    {
      var nr: nat := if p > LINES then LINES else if p == 0 then 1 else p;
      while nr > 0
        invariant Valid() && InsertLines(Show(), nr) == InsertLines(old(Show()), Count(p, LINES)) && Framed()
      {
        InsertLine();
        nr := nr - 1;
      }
    }

    method CsiP(p: nat)
      requires Valid()
      modifies cells
      ensures Valid() && Show() == DeleteChars(old(Show()), Count(p, COLUMNS)) && Framed()
    {
      var nr: nat := if p > COLUMNS then COLUMNS else if p == 0 then 1 else p;
      while nr > 0
        invariant Valid() && DeleteChars(Show(), nr) == DeleteChars(old(Show()), Count(p, COLUMNS)) && Framed()
      {
        DeleteChar();
        nr := nr - 1;
      }
    }

    /** csi_M: on the first row the window may move with every line. */
    method CsiDeleteLines(p: nat)
      requires Valid()
      modifies `top, `bottom, `origin, `pos, `scrEnd, cells
      ensures Valid() && Show() == DeleteLines(old(Show()), Count(p, LINES)) && Swept()
      ensures y > 0 ==> Framed()
    {
      var nr: nat := if p > LINES then LINES else if p == 0 then 1 else p;
      while nr > 0
        invariant nr <= LINES && Valid() && DeleteLines(Show(), nr) == DeleteLines(old(Show()), Count(p, LINES))
          && Swept()
        invariant origin >= old(origin)
          || (origin <= COLUMNS * (LINES - nr) && old(origin) + CELLS + COLUMNS * (LINES - nr) > SCREEN_CELLS)
        invariant origin >= old(origin) ==> origin <= old(origin) + COLUMNS * (LINES - nr)
        invariant y > 0 ==> Framed() && origin == old(origin)
      {
        DeleteLine();
        nr := nr - 1;
      }
    }

    // -------------------------------------------------------------------------------------------------------
    // con_write

    method Print(c: int)
      requires Valid()
      modifies `x, `y, `origin, `pos, `scrEnd, cells
      ensures Valid() && Show() == Console.Print(old(Show()), c) && Framed()
    {
      if x >= COLUMNS {
        x := x - COLUMNS;
        pos := pos - COLUMNS;
        Lf();
      }
      StoreChar(c);
    }

    method StoreChar(c: int)
      requires Valid() && x < COLUMNS
      modifies `x, `pos, cells
      ensures Valid() && Framed()
      ensures Show() == old(Show()).(grid := old(Show()).grid[80 * y + old(x) := Cell(c, attr)], x := old(x) + 1)
    {
      PutCell(pos, Cell(c, attr));
      pos := pos + 1;
      x := x + 1;
    }

    method Tab()
      requires Valid()
      modifies `x, `y, `origin, `pos, `scrEnd, cells
      ensures Valid() && Show() == Console.Tab(old(Show())) && Framed()
    {
      var c := 8 - x % 8;
      x := x + c;
      pos := pos + c;
      if x > COLUMNS {
        x := x - COLUMNS;
        pos := pos - COLUMNS;
        Lf();
      }
    }

    method Plain(c: int, erase: nat)
      requires Valid()
      modifies `x, `y, `origin, `pos, `scrEnd, `state, cells
      ensures Valid() && Show() == Console.Plain(old(Show()), c, erase) && Framed()
    {
      if c > 31 && c < 127 {
        Print(c);
      } else if c == 27 {
        state := 1;
      } else if c == 10 || c == 11 || c == 12 {
        Lf();
      } else if c == 13 {
        pos := pos - x;
        x := 0;
      } else if c == erase {
        Del();
      } else if c == 8 {
        if x > 0 {
          x := x - 1;
          pos := pos - 1;
        }
      } else if c == 9 {
        Tab();
      }
    }

    method SaveCur()
      requires Valid()
      modifies `savedX, `savedY
      ensures Valid() && Show() == Save(old(Show()))
    {
      savedX, savedY := x, y;
    }

    method RestoreCur()
      requires Valid()
      modifies `x, `y, `pos
      ensures Valid() && Show() == Restore(old(Show()))
    {
      x, y := savedX, savedY;
      pos := origin + (y * COLUMNS + x);
    }

    method Escape(c: int)
      requires Valid() && state == 0
      modifies `x, `y, `origin, `pos, `scrEnd, `state, `savedX, `savedY, `reply, cells
      ensures Valid() && Show() == Console.Escape(old(Show()), c) && Framed()
    {
      if c == '[' as int {
        state := 2;
      } else if c == 'E' as int {
        GotoXY(0, y + 1);
      } else if c == 'M' as int {
        Ri();
      } else if c == 'D' as int {
        Lf();
      } else if c == 'Z' as int {
        reply := reply + RESPONSE;
      } else if x == '7' as int {
        SaveCur();
      } else if x == '8' as int {
        RestoreCur();
      }
    }

    /** if (!par[0]) par[0]++ */
    method OneAtLeast()
      requires Valid()
      modifies par
      ensures Valid() && Show() == AtLeastOne(old(Show()))
    {
      if par[0] == 0 {
        par[0] := par[0] + 1;
      }
    }

    /** if (par[i]) par[i]-- */
    method CountFromZero(i: nat)
      requires Valid() && i < NPAR
      modifies par
      ensures Valid() && Show() == FromZero(old(Show()), i)
    {
      if par[i] != 0 {
        par[i] := par[i] - 1;
      }
    }

    method SetRegion()
      requires Valid()
      modifies `top, `bottom, par
      ensures Valid() && Show() == Region(old(Show()))
    {
      CountFromZero(0);
      if par[1] == 0 {
        par[1] := LINES;
      }
      if par[0] < par[1] && par[1] <= LINES {
        top, bottom := par[0], par[1];
      }
    }

    method Address()
      requires Valid()
      modifies `x, `y, `pos, par
      ensures Valid() && Show() == Console.Final(old(Show()), 'H' as int)
        && Show() == Console.Final(old(Show()), 'f' as int)
    {
      CountFromZero(0);
      CountFromZero(1);
      GotoXY(par[1], par[0]);
    }

    /** The final bytes that move the cursor. */
    method Move(c: int)
      requires Valid() && Moves(c)
      modifies `x, `y, `pos, par
      ensures Valid() && Show() == Console.Final(old(Show()), c)
    {
      if c == 'G' as int || c == '`' as int {
        CountFromZero(0);
        GotoXY(par[0], y);
      } else if c == 'd' as int {
        CountFromZero(0);
        GotoXY(x, par[0]);
      } else if c == 'H' as int || c == 'f' as int {
        Address();
      } else {
        OneAtLeast();
        MoveBy(c);
      }
    }

    predicate Moves(c: int) {
      c == 'G' as int || c == '`' as int || c == 'd' as int || c == 'H' as int || c == 'f' as int || MovesBy(c)
    }

    predicate MovesBy(c: int) {
      c == 'A' as int || c == 'B' as int || c == 'e' as int || c == 'C' as int || c == 'a' as int || c == 'D' as int
      || c == 'E' as int || c == 'F' as int
    }

    method MoveBy(c: int)
      requires Valid() && MovesBy(c) && par[0] > 0
      modifies `x, `y, `pos
      ensures Valid() && Show() == Console.Final(old(Show()), c)
    {
      if c == 'A' as int {
        GotoXY(x, (y - par[0]) % U32);
      } else if c == 'B' as int || c == 'e' as int {
        GotoXY(x, (y + par[0]) % U32);
      } else if c == 'C' as int || c == 'a' as int {
        GotoXY((x + par[0]) % U32, y);
      } else if c == 'D' as int {
        GotoXY((x - par[0]) % U32, y);
      } else if c == 'E' as int {
        GotoXY(0, (y + par[0]) % U32);
      } else {
        GotoXY(0, (y - par[0]) % U32);
      }
    }

    method Final(c: int)
      requires Valid()
      modifies `x, `y, `top, `bottom, `origin, `pos, `scrEnd, `attr, `savedX, `savedY, cells, par
      ensures Valid() && Show() == Console.Final(old(Show()), c) && Swept()
    {
      if Moves(c) {
        Move(c);
      } else if c == 'J' as int {
        CsiJ(par[0]);
      } else if c == 'K' as int {
        CsiK(par[0]);
      } else if c == 'L' as int {
        CsiL(par[0]);
      } else if c == 'M' as int {
        CsiDeleteLines(par[0]);
      } else if c == 'P' as int {
        CsiP(par[0]);
      } else if c == '@' as int {
        CsiAt(par[0]);
      } else if c == 'm' as int {
        CsiM();
      } else if c == 'r' as int {
        SetRegion();
      } else if c == 's' as int {
        SaveCur();
      } else if c == 'u' as int {
        RestoreCur();
      }
    }

    /** States 3 and 4. */
    method Parameter(c: int)
      requires Valid()
      modifies this, cells, par
      ensures Valid() && Show() == Console.Parameter(old(Show()), c) && Swept()
    {
      if c == ';' as int && npar < NPAR - 1 {
        npar := npar + 1;
      } else if c >= '0' as int && c <= '9' as int {
        par[npar] := (10 * par[npar] + c - '0' as int) % U32;
      } else {
        state := 0;
        Final(c);
      }
    }

    method ClearParameters()
      requires Valid()
      modifies `npar, par
      ensures Valid() && Show() == old(Show()).(par := NO_PARAMETERS, npar := 0)
    {
      var i := 0;
      while i < NPAR
        invariant i <= NPAR && forall k :: 0 <= k < NPAR ==> par[k] == if k < i then 0 else old(par[k])
        invariant npar == old(npar)
      {
        par[i] := 0;
        i := i + 1;
      }
      npar := 0;
    }

    /** State 1. */
    method AfterEscape(c: int)
      requires Valid()
      modifies `x, `y, `origin, `pos, `scrEnd, `state, `savedX, `savedY, `reply, cells
      ensures Valid() && Show() == Console.Escape(old(Show()).(state := 0), c) && Framed()
    {
      state := 0;
      Escape(c);
    }

    /** State 2. */
    method Bracket(c: int)
      requires Valid()
      modifies this, cells, par
      ensures Valid() && Show() == Console.Bracket(old(Show()), c) && Swept()
    {
      ClearParameters();
      state := 3;
      ques := c == '?' as int;
      if !ques {
        Parameter(c);
      }
    }

    /** One round of con_write's loop. */
    method WriteByte(c: int, erase: nat)
      requires Valid()
      modifies this, cells, par
      ensures Valid() && Show() == Byte(old(Show()), c, erase) && Swept()
    {
      if state == 0 {
        Plain(c, erase);
      } else if state == 1 {
        AfterEscape(c);
      } else if state == 2 {
        Bracket(c);
      } else {
        Parameter(c);
      }
    }

    /** What con_write draws for a stream of bytes: the window into screen memory shows what the plain grid shows. What
        the answer to ESC Z does besides is in module Terminal. */
    method Draw(s: seq<int>, erase: nat)
      requires Valid()
      modifies this, cells, par
      ensures Valid() && Show() == Bytes(old(Show()), s, erase)
    {
      var i := 0;
      while i < |s|
        invariant i <= |s| && Valid() && Bytes(Show(), s[i..], erase) == Bytes(old(Show()), s, erase)
      {
        WriteByte(s[i], erase);
        i := i + 1;
      }
    }
  }
}
