/** What the console of kernel/console.c shows: a plain grid of 25 rows of 80 cells, a cursor, a scrolling region and
  the state of the control-sequence parser (section 5.4 of ECMA-48). Bytes are C's signed char, -128 to 127; parameters
  and coordinates are unsigned and 32 bits wide. */
module Console {
  const LINES: nat := 25
  const COLUMNS: nat := 80
  const CELLS: nat := 2000
  const NPAR: nat := 16
  const U32: int := 0x1_0000_0000

  datatype Cell = Cell(ch: int, attr: nat)

  const BLANK: Cell := Cell(0x20, 0x07)

  /** Cell (x, y) of the grid is cell 80 * y + x. x is 80 while a character that would start a new line is awaited. */
  datatype Term = Term(grid: seq<Cell>, x: nat, y: nat, top: nat, bottom: nat, state: nat, npar: nat, par: seq<nat>,
    ques: bool,
    attr: nat, savedX: nat, savedY: nat, reply: string)

  predicate Ok(t: Term) {
    && |t.grid| == CELLS && t.x <= COLUMNS && t.y < LINES && t.top < t.bottom <= LINES && t.state <= 3 && t.npar < NPAR
    && |t.par| == NPAR && (forall i :: 0 <= i < NPAR ==> t.par[i] < U32) && t.savedX <= COLUMNS && t.savedY < LINES
  }

  // ---------------------------------------------------------------------------------------------------------
  // The grid

  type Grid = g: seq<Cell> | |g| == CELLS witness seq(CELLS, i => BLANK)

  /** Rows top to bottom - 1 move up by one; the last of them becomes blank. */
  function ScrollUp(g: Grid, top: nat, bottom: nat): (r: Grid)
    requires top < bottom <= LINES
  {
    seq(CELLS, i requires 0 <= i < CELLS =>
      if 80 * top <= i < 80 * (bottom - 1) then g[i + 80] else if 80 * (bottom - 1) <= i < 80 * bottom then BLANK
        else g[i])
  }

  function ScrollDown(g: Grid, top: nat, bottom: nat): (r: Grid)
    requires top < bottom <= LINES
  {
    seq(CELLS, i requires 0 <= i < CELLS =>
      if 80 * (top + 1) <= i < 80 * bottom then g[i - 80] else if 80 * top <= i < 80 * (top + 1) then BLANK else g[i])
  }

  /** The cells from `a` to `b` become blank. */
  function Fill(g: Grid, a: nat, b: nat): (r: Grid) {
    seq(CELLS, i requires 0 <= i < CELLS => if a <= i < b then BLANK else g[i])
  }

  /** The cells of a row from (x, y) on move right, the last one out of the row. */
  function InsertAt(g: Grid, x: nat, y: nat): (r: Grid) {
    seq(CELLS, i requires 0 <= i < CELLS =>
      if 80 * y + x < i < 80 * y + 80 then g[i - 1] else if i == 80 * y + x && x < COLUMNS then BLANK else g[i])
  }

  /** The cells of a row after (x, y) move left, over it. */
  function DeleteAt(g: Grid, x: nat, y: nat): (r: Grid)
    requires y < LINES
  {
    seq(CELLS, i requires 0 <= i < CELLS =>
      if 80 * y + x <= i < 80 * y + 79 then g[i + 1] else if i == 80 * y + 79 && x < COLUMNS then BLANK else g[i])
  }

  // ---------------------------------------------------------------------------------------------------------
  // The operations

  /** gotoxy: out of the screen is nowhere. */
  function Goto(t: Term, x: int, y: int): Term {
    if 0 <= x < COLUMNS && 0 <= y < LINES then t.(x := x, y := y) else t
  }

  function Scrup(t: Term): Term
    requires Ok(t)
  {
    t.(grid := ScrollUp(t.grid, t.top, t.bottom))
  }

  function Scrdown(t: Term): Term
    requires Ok(t)
  {
    t.(grid := ScrollDown(t.grid, t.top, t.bottom))
  }

  function Lf(t: Term): Term
    requires Ok(t)
  {
    if t.y + 1 < t.bottom then t.(y := t.y + 1) else Scrup(t)
  }

  function Ri(t: Term): Term
    requires Ok(t)
  {
    if t.y > t.top then t.(y := t.y - 1) else Scrdown(t)
  }

  function Del(t: Term): Term
    requires Ok(t)
  {
    if t.x > 0 then t.(x := t.x - 1, grid := t.grid[80 * t.y + t.x - 1 := BLANK]) else t
  }

  /** A printing character; the line is wrapped before it, not after the last column. */
  function Print(t: Term, c: int): Term
    requires Ok(t)
  {
    var t1 := if t.x >= COLUMNS then Lf(t.(x := t.x - COLUMNS)) else t;
    t1.(grid := t1.grid[80 * t1.y + t1.x := Cell(c, t1.attr)], x := t1.x + 1)
  }

  function Tab(t: Term): Term
    requires Ok(t)
  {
    var x := t.x + 8 - t.x % 8;
    if x > COLUMNS then Lf(t.(x := x - COLUMNS)) else t.(x := x)
  }

  function CsiJ(t: Term, par: nat): Term
    requires Ok(t)
  {
    if par == 0 then t.(grid := Fill(t.grid, 80 * t.y + t.x, CELLS))
    else if par == 1 then t.(grid := Fill(t.grid, 0, 80 * t.y + t.x))
    else if par == 2 then t.(grid := Fill(t.grid, 0, CELLS))
    else t
  }

  function CsiK(t: Term, par: nat): Term
    requires Ok(t)
  {
    if par == 0 then t.(grid := Fill(t.grid, 80 * t.y + t.x, 80 * t.y + 80))
    else if par == 1 then t.(grid := Fill(t.grid, 80 * t.y, 80 * t.y + t.x))
    else if par == 2 then t.(grid := Fill(t.grid, 80 * t.y, 80 * t.y + 80))
    else t
  }

  /** How often a counted operation is done: 1 for 0, and no more than `most`. */
  function Count(par: nat, most: nat): nat {
    if par > most then most else if par == 0 then 1 else par
  }

  function InsertLines(t: Term, n: nat): (r: Term)
    requires Ok(t)
    ensures Ok(r)
    decreases n
  {
    if n == 0 then t else InsertLines(t.(grid := ScrollDown(t.grid, t.y, LINES)), n - 1)
  }

  function DeleteLines(t: Term, n: nat): (r: Term)
    requires Ok(t)
    ensures Ok(r)
    decreases n
  {
    if n == 0 then t else DeleteLines(t.(grid := ScrollUp(t.grid, t.y, LINES)), n - 1)
  }

  function InsertChars(t: Term, n: nat): (r: Term)
    requires Ok(t)
    ensures Ok(r)
    decreases n
  {
    if n == 0 then t else InsertChars(t.(grid := InsertAt(t.grid, t.x, t.y)), n - 1)
  }

  function DeleteChars(t: Term, n: nat): (r: Term)
    requires Ok(t)
    ensures Ok(r)
    decreases n
  {
    if n == 0 then t else DeleteChars(t.(grid := DeleteAt(t.grid, t.x, t.y)), n - 1)
  }

  /** One parameter of a graphic rendition. */
  function Rendition(attr: nat, par: nat): nat {
    if par == 0 then 0x07 else if par == 1 then 0x0f else if par == 4 then 0x0f else if par == 7 then 0x70
    else if par == 27 then 0x07 else attr
  }

  /** Parameters i to npar of csi_m. */
  function CsiM(attr: nat, par: seq<nat>, i: nat, npar: nat): nat
    requires npar < |par| && i <= npar + 1
    decreases npar + 1 - i
  {
    if i > npar then attr else CsiM(Rendition(attr, par[i]), par, i + 1, npar)
  }

  function Save(t: Term): Term { t.(savedX := t.x, savedY := t.y) }

  function Restore(t: Term): Term { t.(x := t.savedX, y := t.savedY) }

  /** "if (!par[0]) par[0]++" and "if (par[i]) par[i]--". */
  function AtLeastOne(t: Term): (r: Term)
    requires Ok(t)
    ensures Ok(r)
  {
    if t.par[0] == 0 then t.(par := t.par[0 := 1]) else t
  }

  function FromZero(t: Term, i: nat): (r: Term)
    requires Ok(t) && i < NPAR
    ensures Ok(r)
  {
    if t.par[i] != 0 then t.(par := t.par[i := t.par[i] - 1]) else t
  }

  /** The set of the scrolling region. */
  function Region(t: Term): (r: Term)
    requires Ok(t)
    ensures Ok(r)
  {
    var t1 := FromZero(t, 0);
    var t2 := if t1.par[1] == 0 then t1.(par := t1.par[1 := LINES]) else t1;
    if t2.par[0] < t2.par[1] <= LINES then t2.(top := t2.par[0], bottom := t2.par[1]) else t2
  }

  /** The final byte of a control sequence. */
  function Final(t: Term, c: int): (r: Term)
    requires Ok(t)
    ensures Ok(r)
  {
    if c == 'G' as int || c == '`' as int then var u := FromZero(t, 0); Goto(u, u.par[0], u.y)
    else if c == 'A' as int then var u := AtLeastOne(t); Goto(u, u.x, (u.y - u.par[0]) % U32)
    else if c == 'B' as int || c == 'e' as int then var u := AtLeastOne(t); Goto(u, u.x, (u.y + u.par[0]) % U32)
    else if c == 'C' as int || c == 'a' as int then var u := AtLeastOne(t); Goto(u, (u.x + u.par[0]) % U32, u.y)
    else if c == 'D' as int then var u := AtLeastOne(t); Goto(u, (u.x - u.par[0]) % U32, u.y)
    else if c == 'E' as int then var u := AtLeastOne(t); Goto(u, 0, (u.y + u.par[0]) % U32)
    else if c == 'F' as int then var u := AtLeastOne(t); Goto(u, 0, (u.y - u.par[0]) % U32)
    else if c == 'd' as int then var u := FromZero(t, 0); Goto(u, u.x, u.par[0])
    else if c == 'H' as int || c == 'f' as int then var u := FromZero(FromZero(t, 0), 1); Goto(u, u.par[1], u.par[0])
    else if c == 'J' as int then CsiJ(t, t.par[0])
    else if c == 'K' as int then CsiK(t, t.par[0])
    else if c == 'L' as int then InsertLines(t, Count(t.par[0], LINES))
    else if c == 'M' as int then DeleteLines(t, Count(t.par[0], LINES))
    else if c == 'P' as int then DeleteChars(t, Count(t.par[0], COLUMNS))
    else if c == '@' as int then InsertChars(t, Count(t.par[0], COLUMNS))
    else if c == 'm' as int then t.(attr := CsiM(t.attr, t.par, 0, t.npar))
    else if c == 'r' as int then Region(t)
    else if c == 's' as int then Save(t)
    else if c == 'u' as int then Restore(t)
    else t
  }

  /** A parameter byte, or the end of the parameters. */
  function Parameter(t: Term, c: int): (r: Term)
    requires Ok(t)
    ensures Ok(r)
  {
    if c == ';' as int && t.npar < NPAR - 1 then t.(npar := t.npar + 1)
    else if '0' as int <= c <= '9' as int then t.(par := t.par[t.npar := (10 * t.par[t.npar] + c - '0' as int) % U32])
    else Final(t.(state := 0), c)
  }

  const NO_PARAMETERS: seq<nat> := [0, 0, 0, 0, 0, 0, 0, 0, 0, 0, 0, 0, 0, 0, 0, 0]

  /** A byte outside control sequences; `erase` is the terminal's erase character. */
  function Plain(t: Term, c: int, erase: nat): (r: Term)
    requires Ok(t)
    ensures Ok(r)
  {
    if 31 < c < 127 then Print(t, c)
    else if c == 27 then t.(state := 1)
    else if c == 10 || c == 11 || c == 12 then Lf(t)
    else if c == 13 then t.(x := 0)
    else if c == erase then Del(t)
    else if c == 8 then (if t.x > 0 then t.(x := t.x - 1) else t)
    else if c == 9 then Tab(t)
    else t
  }

  const RESPONSE: string := "\U{1b}[?1;2c"

  /** The byte after ESC. The last two tests are of the cursor's column, as in the source, not of the byte. */
  function Escape(t: Term, c: int): (r: Term)
    requires Ok(t)
    ensures Ok(r)
  {
    if c == '[' as int then t.(state := 2)
    else if c == 'E' as int then Goto(t, 0, t.y + 1)
    else if c == 'M' as int then Ri(t)
    else if c == 'D' as int then Lf(t)
    else if c == 'Z' as int then t.(reply := t.reply + RESPONSE)
    else if t.x == '7' as int then Save(t)
    else if t.x == '8' as int then Restore(t)
    else t
  }

  /** The byte after ESC [. */
  function Bracket(t: Term, c: int): (r: Term)
    requires Ok(t)
    ensures Ok(r)
  {
    var u := t.(par := NO_PARAMETERS, npar := 0, state := 3, ques := c == '?' as int);
    if u.ques then u else Parameter(u, c)
  }

  function Byte(t: Term, c: int, erase: nat): (r: Term)
    requires Ok(t)
    ensures Ok(r)
  {
    if t.state == 0 then Plain(t, c, erase)
    else if t.state == 1 then Escape(t.(state := 0), c)
    else if t.state == 2 then Bracket(t, c)
    else Parameter(t, c)
  }

  /** con_write, over all the bytes in the queue. */
  function Bytes(t: Term, s: seq<int>, erase: nat): (r: Term)
    requires Ok(t)
    ensures Ok(r)
    decreases |s|
  {
    if s == [] then t else Bytes(Byte(t, s[0], erase), s[1..], erase)
  }

  lemma {:induction false} BytesConcat(t: Term, a: seq<int>, b: seq<int>, erase: nat)
    requires Ok(t)
    ensures Bytes(t, a + b, erase) == Bytes(Bytes(t, a, erase), b, erase)
    decreases |a|
  {
    if a == [] {
      assert a + b == b;
    } else {
      assert (a + b)[1..] == a[1..] + b;
      BytesConcat(Byte(t, a[0], erase), a[1..], b, erase);
    }
  }

  // ---------------------------------------------------------------------------------------------------------
  // What it means on the screen

  function Blanks(n: nat): (s: seq<Cell>)
    ensures |s| == n && forall i :: 0 <= i < n ==> s[i] == BLANK
  {
    seq(n, i => BLANK)
  }

  function Row(g: Grid, y: nat): (r: seq<Cell>)
    requires y < LINES
    ensures |r| == COLUMNS && forall x :: 0 <= x < COLUMNS ==> r[x] == g[80 * y + x]
  {
    g[80 * y..80 * y + 80]
  }

  /** Scrolling the whole screen drops the top row and appends a blank one. */
  lemma FullScroll(g: Grid)
    ensures ScrollUp(g, 0, LINES) == g[80..] + Blanks(80)
  {
  }

  /** What n line insertions, and deletions, at the cursor leave in row `y`. */
  function RowInserted(t: Term, n: nat, y: nat): seq<Cell>
    requires Ok(t) && y < LINES
  {
    if y < t.y then Row(t.grid, y) else if y < t.y + n then Blanks(80) else Row(t.grid, y - n)
  }

  function RowDeleted(t: Term, n: nat, y: nat): seq<Cell>
    requires Ok(t) && y < LINES
  {
    if y < t.y || n == 0 then Row(t.grid, y) else if y + n < LINES then Row(t.grid, y + n) else Blanks(80)
  }

  /** Inserting `n` lines at the cursor: its row and the next n - 1 become blank, the rest moves down by n. */
  lemma {:induction false} InsertLinesMoves(t: Term, n: nat, y: nat)
    requires Ok(t) && y < LINES
    ensures Row(InsertLines(t, n).grid, y) == RowInserted(t, n, y)
    ensures InsertLines(t, n) == t.(grid := InsertLines(t, n).grid)
    decreases n
  {
    if n > 0 {
      var u := t.(grid := ScrollDown(t.grid, t.y, LINES));
      InsertLinesMoves(u, n - 1, y);
      OneRowInserted(t, n, y);
    }
  }

  lemma OneRowInserted(t: Term, n: nat, y: nat)
    requires Ok(t) && y < LINES && n > 0
    ensures RowInserted(t.(grid := ScrollDown(t.grid, t.y, LINES)), n - 1, y) == RowInserted(t, n, y)
  {
    if y >= t.y + n { RowDown(t.grid, t.y, y - (n - 1)); } else if y < t.y { RowDown(t.grid, t.y, y); }
  }

  lemma OneRowDeleted(t: Term, n: nat, y: nat)
    requires Ok(t) && y < LINES && n > 0
    ensures RowDeleted(t.(grid := ScrollUp(t.grid, t.y, LINES)), n - 1, y) == RowDeleted(t, n, y)
  {
    if y < t.y { RowUp(t.grid, t.y, y); } else if y + n - 1 < LINES { RowUp(t.grid, t.y, y + n - 1); }
  }

  lemma RowDown(g: Grid, top: nat, y: nat)
    requires top < LINES && y < LINES && y != top
    ensures Row(ScrollDown(g, top, LINES), y) == if y < top then Row(g, y) else Row(g, y - 1)
  {
  }

  lemma RowUp(g: Grid, top: nat, y: nat)
    requires top < LINES && y < LINES
    ensures Row(ScrollUp(g, top, LINES), y) == if y < top then Row(g, y) else if y < LINES - 1 then Row(g, y + 1)
      else Blanks(80)
  {
  }

  /** Deleting `n` lines at the cursor: the rows from n below it move up, and blank ones follow. */
  lemma {:induction false} DeleteLinesMoves(t: Term, n: nat, y: nat)
    requires Ok(t) && y < LINES
    ensures Row(DeleteLines(t, n).grid, y) == RowDeleted(t, n, y)
    ensures DeleteLines(t, n) == t.(grid := DeleteLines(t, n).grid)
    decreases n
  {
    if n > 0 {
      var u := t.(grid := ScrollUp(t.grid, t.y, LINES));
      DeleteLinesMoves(u, n - 1, y);
      OneRowDeleted(t, n, y);
    }
  }

  /** Deleting the lines just inserted gives back the screen, but for the `n` rows that were pushed out below. */
  lemma DeleteUndoesInsert(t: Term, n: nat, y: nat)
    requires Ok(t) && y < LINES
    ensures Row(DeleteLines(InsertLines(t, n), n).grid, y) == if y < t.y || y + n < LINES || n == 0 then Row(t.grid, y)
      else Blanks(80)
  {
    var u := InsertLines(t, n);
    InsertLinesMoves(t, n, y);
    DeleteLinesMoves(u, n, y);
    if y + n < LINES { InsertLinesMoves(t, n, y + n); }
    DeletedOfInserted(t, u, n, y);
  }

  lemma DeletedOfInserted(t: Term, u: Term, n: nat, y: nat)
    requires Ok(t) && Ok(u) && u == t.(grid := u.grid) && y < LINES && Row(u.grid, y) == RowInserted(t, n, y)
    requires y + n < LINES ==> Row(u.grid, y + n) == RowInserted(t, n, y + n)
    ensures RowDeleted(u, n, y) == if y < t.y || y + n < LINES || n == 0 then Row(t.grid, y) else Blanks(80)
  {
  }

  /** What n character insertions, and deletions, leave in cell `i`. */
  function CellInserted(t: Term, n: nat, i: nat): Cell
    requires Ok(t) && i < CELLS
  {
    if 80 * t.y + t.x <= i < 80 * t.y + 80 then (if i < 80 * t.y + t.x + n then BLANK else t.grid[i - n]) else t.grid[i]
  }

  function CellDeleted(t: Term, n: nat, i: nat): Cell
    requires Ok(t) && i < CELLS
  {
    if 80 * t.y + t.x <= i < 80 * t.y + 80 then (if i + n < 80 * t.y + 80 then t.grid[i + n] else BLANK) else t.grid[i]
  }

  lemma OneCellInserted(t: Term, n: nat, i: nat)
    requires Ok(t) && i < CELLS && n > 0
    ensures CellInserted(t.(grid := InsertAt(t.grid, t.x, t.y)), n - 1, i) == CellInserted(t, n, i)
  {
  }

  lemma OneCellDeleted(t: Term, n: nat, i: nat)
    requires Ok(t) && i < CELLS && n > 0
    ensures CellDeleted(t.(grid := DeleteAt(t.grid, t.x, t.y)), n - 1, i) == CellDeleted(t, n, i)
  {
  }

  /** Inserting characters moves the rest of the cursor's row right, deleting them left. */
  lemma {:induction false} InsertCharsMoves(t: Term, n: nat)
    requires Ok(t)
    ensures InsertChars(t, n) == t.(grid := InsertChars(t, n).grid)
    ensures forall i :: 0 <= i < CELLS ==> InsertChars(t, n).grid[i] == CellInserted(t, n, i)
    decreases n
  {
    if n > 0 {
      var u := t.(grid := InsertAt(t.grid, t.x, t.y));
      InsertCharsMoves(u, n - 1);
      forall i | 0 <= i < CELLS ensures CellInserted(u, n - 1, i) == CellInserted(t, n, i) { OneCellInserted(t, n, i); }
    }
  }

  lemma {:induction false} DeleteCharsMoves(t: Term, n: nat)
    requires Ok(t)
    ensures DeleteChars(t, n) == t.(grid := DeleteChars(t, n).grid)
    ensures forall i :: 0 <= i < CELLS ==> DeleteChars(t, n).grid[i] == CellDeleted(t, n, i)
    decreases n
  {
    if n > 0 {
      var u := t.(grid := DeleteAt(t.grid, t.x, t.y));
      DeleteCharsMoves(u, n - 1);
      forall i | 0 <= i < CELLS ensures CellDeleted(u, n - 1, i) == CellDeleted(t, n, i) { OneCellDeleted(t, n, i); }
    }
  }

  predicate Printing(s: seq<int>) {
    forall i :: 0 <= i < |s| ==> 31 < s[i] < 127
  }

  /** Text that fits in the row stands there, in the current rendition, and nothing else changes. */
  lemma {:induction false} TextAppears(t: Term, s: seq<int>, erase: nat)
    requires Ok(t) && t.state == 0 && Printing(s) && t.x + |s| <= COLUMNS
    ensures var r := Bytes(t, s, erase);
      && r == t.(grid := r.grid, x := t.x + |s|)
      && forall i {:trigger r.grid[i]} :: 0 <= i < CELLS ==>
        r.grid[i] == if 80 * t.y + t.x <= i < 80 * t.y + t.x + |s| then Cell(s[i - 80 * t.y - t.x], t.attr)
          else t.grid[i]
    decreases |s|
  {
    if s != [] {
      var u := Byte(t, s[0], erase);
      TextAppears(u, s[1..], erase);
    }
  }

  // ---------------------------------------------------------------------------------------------------------
  // Control sequences with numbers in them

  /** A number as decimal digits. */
  function Decimal(n: nat): (s: seq<int>) {
    if n < 10 then [n + '0' as int] else Decimal(n / 10) + [n % 10 + '0' as int]
  }

  /** The parser reads back what Decimal writes. */
  lemma {:induction false} NumberParses(t: Term, n: nat, erase: nat)
    requires Ok(t) && t.state == 3 && t.par[t.npar] == 0 && n < U32
    ensures Bytes(t, Decimal(n), erase) == t.(par := t.par[t.npar := n])
    decreases n
  {
    if n >= 10 {
      NumberParses(t, n / 10, erase);
      BytesConcat(t, Decimal(n / 10), [n % 10 + '0' as int], erase);
      var u := t.(par := t.par[t.npar := n / 10]);
      OneByte(u, n % 10 + '0' as int, erase);
      assert 10 * (n / 10) + n % 10 == n;
      assert u.par[t.npar := n] == t.par[t.npar := n];
    } else {
      OneByte(t, n + '0' as int, erase);
    }
  }

  lemma OneByte(t: Term, c: int, erase: nat)
    requires Ok(t)
    ensures Bytes(t, [c], erase) == Byte(t, c, erase)
  {
    assert [c][1..] == [];
    assert Bytes(Byte(t, c, erase), [], erase) == Byte(t, c, erase);
  }

  /** The parameters are cleared when the first byte after ESC [ arrives. */
  lemma Cleared(t: Term, s: seq<int>, erase: nat)
    requires Ok(t) && t.state == 2 && s != [] && s[0] != '?' as int
    ensures Bytes(t, s, erase) == Bytes(t.(par := NO_PARAMETERS, npar := 0, state := 3, ques := false), s, erase)
  {
  }

  lemma {:induction false} DecimalDigits(n: nat)
    ensures Decimal(n) != [] && '0' as int <= Decimal(n)[0] <= '9' as int
  {
    if n >= 10 { DecimalDigits(n / 10); }
  }

  /** ESC [ row ; column H puts the cursor there, counted from 1, and leaves the screen alone. */
  lemma CursorAddress(t: Term, row: nat, column: nat, erase: nat)
    requires Ok(t) && t.state == 0 && 1 <= row <= LINES && 1 <= column <= COLUMNS
    ensures var r := Bytes(t, [27, '[' as int] + Decimal(row) + [';' as int] + Decimal(column) + ['H' as int], erase);
      && r.x == column - 1 && r.y == row - 1 && r.grid == t.grid && r.state == 0
  {
    var rest := Decimal(row) + [';' as int] + Decimal(column) + ['H' as int];
    assert [27, '[' as int] + Decimal(row) + [';' as int] + Decimal(column) + ['H' as int]
      == [27] + (['[' as int] + rest);
    BytesConcat(t, [27], ['[' as int] + rest, erase);
    OneByte(t, 27, erase);
    var t1 := t.(state := 1);
    BytesConcat(t1, ['[' as int], rest, erase);
    OneByte(t1, '[' as int, erase);
    var t2 := t.(state := 2);
    DecimalDigits(row);
    assert rest[0] == Decimal(row)[0];
    Cleared(t2, rest, erase);
    var t3 := t.(par := NO_PARAMETERS, npar := 0, state := 3, ques := false);
    TwoNumbers(t3, row, column, 'H' as int, erase);
  }

  /** Two numbers and a final byte reach the final byte's action. */
  lemma TwoNumbers(t: Term, a: nat, b: nat, c: int, erase: nat)
    requires Ok(t) && t.state == 3 && t.npar == 0 && t.par == NO_PARAMETERS && a < U32 && b < U32
    requires c == 'H' as int
    ensures Bytes(t, Decimal(a) + [';' as int] + Decimal(b) + [c], erase)
      == Final(t.(par := NO_PARAMETERS[0 := a][1 := b], npar := 1, state := 0), c)
  {
    var s := Decimal(a) + [';' as int] + Decimal(b);
    BytesConcat(t, s, [c], erase);
    BytesConcat(t, Decimal(a) + [';' as int], Decimal(b), erase);
    BytesConcat(t, Decimal(a), [';' as int], erase);
    NumberParses(t, a, erase);
    var t1 := t.(par := NO_PARAMETERS[0 := a]);
    OneByte(t1, ';' as int, erase);
    var t2 := t1.(npar := 1);
    NumberParses(t2, b, erase);
    OneByte(t2.(par := NO_PARAMETERS[0 := a][1 := b]), c, erase);
  }
}
