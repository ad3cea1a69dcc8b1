/** enkriptuj and dekriptuj of kernel/sys.c, as they run in the global buffers. Cell(i, j, col) is i * col + j. */
module CipherCode {
  import opened Bytes
  import opened Cipher

  /** Cell (r, c) of a flat buffer in rows of `col`. */
  ghost function CellAt(s: seq<byte>, r: nat, c: nat, col: nat): int {
    if Cell(r, c, col) < |s| then s[Cell(r, c, col)] else -1
  }

  /** Column c of `buf` is column p[c] of `orig`, in the first `row` rows; `n` bounds both. */
  ghost predicate ColumnsBy(buf: seq<byte>, orig: seq<byte>, p: seq<nat>, row: nat, n: nat) {
    && n <= |buf| && n <= |orig| && Cell(row, 0, |p|) == n
    && (forall c :: 0 <= c < |p| ==> p[c] < |p|)
    && (forall r: nat, c: nat {:trigger CellAt(buf, r, c, |p|)} :: r < row && c < |p| ==>
      CellAt(buf, r, c, |p|) == CellAt(orig, r, p[c], |p|))
  }

  /** Row j of `flat`, in rows of `row`, is column j of `buf`, in rows of `col`. */
  ghost predicate Transposed(flat: seq<byte>, buf: seq<byte>, row: nat, col: nat) {
    forall j: nat, i: nat {:trigger CellAt(flat, j, i, row)} :: j < col && i < row ==>
      CellAt(flat, j, i, row) == CellAt(buf, i, j, col)
  }

  ghost predicate Exchanged(was: seq<byte>, buf: seq<byte>, a: nat, b: nat, row: nat, col: nat) {
    |buf| == |was| &&
    forall r: nat, c: nat {:trigger CellAt(buf, r, c, col)} :: r < row && c < col ==>
      CellAt(buf, r, c, col) == CellAt(was, r, if c == a then b else if c == b then a else c, col)
  }

  lemma ExchangedColumns(was: seq<byte>, buf: seq<byte>, orig: seq<byte>, p: seq<nat>, a: nat, b: nat, row: nat, n: nat)
    requires a < |p| && b < |p| && ColumnsBy(was, orig, p, row, n) && Exchanged(was, buf, a, b, row, |p|)
    ensures ColumnsBy(buf, orig, Swap(p, a, b), row, n)
  {
  }

  /** A store into one cell leaves every other cell. */
  lemma Stored(s: seq<byte>, t: seq<byte>, row: nat, col: nat, i: nat, j: nat, v: byte)
    requires i < row && j < col && Cell(row, 0, col) <= |s|
    requires Cell(i, j, col) < |s| && t == s[Cell(i, j, col) := v]
    ensures forall r: nat, c: nat {:trigger CellAt(t, r, c, col)} :: r < row && c < col ==>
      CellAt(t, r, c, col) == if r == i && c == j then v else CellAt(s, r, c, col)
  {
    CellsInside(row, col);
    CellsDiffer(col);
    forall r: nat, c: nat {:trigger CellAt(t, r, c, col)} | r < row && c < col
      ensures CellAt(t, r, c, col) == if r == i && c == j then v else CellAt(s, r, c, col)
    {
      if Cell(r, c, col) == Cell(i, j, col) { CellParts(r, c, col); CellParts(i, j, col); }
    }
  }

  /** What enkriptuj writes, from the sorted buffer. */
  lemma EncryptedBytes(inp: seq<byte>, buf: seq<byte>, out: seq<byte>, key: seq<int>, row: nat, n: nat)
    requires n == row * |key| <= |inp| && |out| == |inp|
    requires ColumnsBy(buf, inp, Order(key), row, n) && Transposed(out, buf, row, |key|)
    ensures out[..n] == Encrypt(inp[..n], key, row)
  {
    forall q | 0 <= q < n ensures out[q] == inp[Source(key, row, q)] {
      CellOf(q, |key|, row);
      assert CellAt(out, RowOf(q, row), ColOf(q, row), row) == CellAt(buf, ColOf(q, row), RowOf(q, row), |key|);
    }
  }

  lemma DecryptedBytes(inp: seq<byte>, buf: seq<byte>, out: seq<byte>, key: seq<int>, row: nat, n: nat)
    requires n == row * |key| <= |inp| && |out| == |inp|
    requires Transposed(inp, buf, row, |key|) && ColumnsBy(buf, out, Order(key), row, n)
    ensures out[..n] == Decrypt(inp[..n], key, row)
  {
    forall m | 0 <= m < n ensures out[m] == inp[Cipher.Target(key, row, m)] {
      var f, r := TargetColumn(key, row, m);
      assert CellAt(buf, r, f, |key|) == CellAt(out, r, Order(key)[f], |key|);
      assert CellAt(inp, f, r, row) == CellAt(buf, r, f, |key|);
    }
  }

  lemma TargetColumn(key: seq<int>, row: nat, m: nat) returns (f: nat, r: nat)
    requires m < row * |key|
    ensures r < row && f < |key| && Cell(r, Order(key)[f], |key|) == m && Cipher.Target(key, row, m) == Cell(f, r, row)
  {
    CellOf(m, row, |key|);
    OrderSorts(key);
    Onto(Order(key), |key|, ColOf(m, |key|));
    f, r := Find(Order(key), ColOf(m, |key|)), RowOf(m, |key|);
  }

  class Crypto {
    var buffer: array<byte> // char buffer[1025]
    var keyTmp: array<int> // char keyTmp[513]
    var keyIdx: array<int> // int keyIdx[513]

    ghost predicate Valid()
      reads this
    {
      buffer.Length == 1025 && keyTmp.Length == 513 && keyIdx.Length == 513 && keyTmp != keyIdx
    }

    constructor ()
      ensures Valid() && fresh(buffer) && fresh(keyTmp) && fresh(keyIdx)
    {
      buffer := new byte[1025](i => 0);
      keyTmp := new int[513](i => 0);
      keyIdx := new int[513](i => 0);
    }

    /** strcpy(keyTmp, key) */
    method CopyKey(key: seq<int>)
      requires Valid() && |key| <= 512
      modifies keyTmp
      ensures keyTmp[..|key|] == key
    {
      var i := 0;
      while i < |key|
        invariant i <= |key| && keyTmp[..i] == key[..i]
      {
        keyTmp[i] := key[i];
        i := i + 1;
      }
    }

    /** Exchange columns `a` and `b` of the buffer. */
    method SwapColumns(a: nat, b: nat, row: nat, col: nat)
      requires Valid() && a < col && b < col && a != b && Cell(row, 0, col) <= TEXT
      modifies buffer
      ensures Exchanged(old(buffer[..]), buffer[..], a, b, row, col)
    {
      CellsInside(row, col);
      ghost var was := buffer[..];
      var n := 0;
      while n < row
        invariant n <= row
        invariant forall r: nat, c: nat {:trigger CellAt(buffer[..], r, c, col)} :: r < row && c < col ==>
          CellAt(buffer[..], r, c, col) == CellAt(was, r, if r >= n then c else if c == a then b else if c == b then a
            else c, col)
      {
        var x, y := Cell(n, a, col), Cell(n, b, col);
        ghost var s := buffer[..];
        Stored(s, s[x := s[y]], row, col, n, a, s[y]);
        Stored(s[x := s[y]], s[x := s[y]][y := s[x]], row, col, n, b, s[x]);
        buffer[x], buffer[y] := buffer[y], buffer[x];
        assert buffer[..] == s[x := s[y]][y := s[x]];
        assert s[x] == CellAt(s, n, a, col) && s[y] == CellAt(s, n, b, col);
        n := n + 1;
      }
    }

    /** Exchange two characters of the key and their columns. */
    method SwapBoth(i: nat, j: nat, row: nat, ghost orig: seq<byte>, ghost p: seq<nat>, col: nat)
      requires Valid() && i < j < col <= 512 && Cell(row, 0, col) <= TEXT && |p| == col
      requires ColumnsBy(buffer[..], orig, p, row, Cell(row, 0, col))
      modifies buffer, keyTmp
      ensures ColumnsBy(buffer[..], orig, Swap(p, i, j), row, Cell(row, 0, col))
      ensures keyTmp[..col] == Swap(old(keyTmp[..col]), i, j)
    {
      keyTmp[i], keyTmp[j] := keyTmp[j], keyTmp[i];
      ghost var was := buffer[..];
      SwapColumns(i, j, row, col);
      ExchangedColumns(was, buffer[..], orig, p, i, j, row, Cell(row, 0, col));
    }

    /** The inner loop of the column sort. */
    method SortInner(i: nat, row: nat, col: nat, ghost orig: seq<byte>, ghost p0: seq<nat>) returns (ghost p: seq<nat>)
      requires Valid() && i < col <= 512 && Cell(row, 0, col) <= TEXT && |p0| == col
      requires ColumnsBy(buffer[..], orig, p0, row, Cell(row, 0, col))
      modifies buffer, keyTmp
      ensures |p| == col && ColumnsBy(buffer[..], orig, p, row, Cell(row, 0, col))
      ensures (keyTmp[..col], p) == Inner(old(keyTmp[..col]), p0, i, i + 1)
    {
      p := p0;
      var j := i + 1;
      while j < col
        invariant i < j <= col && |p| == col && ColumnsBy(buffer[..], orig, p, row, Cell(row, 0, col))
        invariant Inner(keyTmp[..col], p, i, j) == Inner(old(keyTmp[..col]), p0, i, i + 1)
      {
        if keyTmp[i] > keyTmp[j] {
          SwapBoth(i, j, row, orig, p, col);
          p := Swap(p, i, j);
        }
        j := j + 1;
      }
    }

    /** Sort the columns by the key. */
    method SortColumns(key: seq<int>, row: nat, ghost orig: seq<byte>)
      requires Valid() && |key| <= 512 && Cell(row, 0, |key|) <= TEXT && keyTmp[..|key|] == key
      requires ColumnsBy(buffer[..], orig, Identity(|key|), row, Cell(row, 0, |key|))
      modifies buffer, keyTmp
      ensures ColumnsBy(buffer[..], orig, Order(key), row, Cell(row, 0, |key|))
    {
      var col := |key|;
      ghost var p: seq<nat> := Identity(col);
      var i := 0;
      while i < col
        invariant i <= col && |p| == col && ColumnsBy(buffer[..], orig, p, row, Cell(row, 0, col))
        invariant Outer(keyTmp[..col], p, i) == Outer(key, Identity(col), 0)
      {
        p := SortInner(i, row, col, orig, p);
        i := i + 1;
      }
    }

    /** The text, row by row, into the buffer. */
    method FillRows(inp: array<byte>, row: nat, col: nat)
      requires Valid() && inp.Length == TEXT && inp != buffer && Cell(row, 0, col) <= TEXT
      modifies buffer
      ensures ColumnsBy(buffer[..], inp[..], Identity(col), row, Cell(row, 0, col))
    {
      CellsInside(row, col);
      var br := 0;
      var i := 0;
      while i < row
        invariant i <= row && br == Cell(i, 0, col)
        invariant forall m :: 0 <= m < br && m < TEXT ==> buffer[m] == inp[m]
      {
        CellStarts(i, 0, col);
        var j := 0;
        while j < col
          invariant j <= col && br == Cell(i, 0, col) + j
          invariant forall m :: 0 <= m < br && m < TEXT ==> buffer[m] == inp[m]
        {
          CellStarts(i, j, col);
          buffer[Cell(i, j, col)] := inp[br];
          br := br + 1;
          j := j + 1;
        }
        i := i + 1;
      }
    }

    /** Column `j` of the buffer to out[br..]. */
    method PutColumn(out: array<byte>, br: nat, j: nat, row: nat, col: nat)
      requires Valid() && out.Length == TEXT && out != buffer && j < col && br + row <= TEXT
        && Cell(row, 0, col) <= TEXT
      modifies out
      ensures forall q :: 0 <= q < TEXT && !(br <= q < br + row) ==> out[q] == old(out[q])
      ensures forall q {:trigger out[q]} :: br <= q < br + row ==> out[q] == CellAt(buffer[..], q - br, j, col)
    {
      CellsInside(row, col);
      var i := 0;
      while i < row
        invariant i <= row
        invariant forall q :: 0 <= q < TEXT && !(br <= q < br + i) ==> out[q] == old(out[q])
        invariant forall q {:trigger out[q]} :: br <= q < br + i ==> out[q] == CellAt(buffer[..], q - br, j, col)
      {
        out[br + i] := buffer[Cell(i, j, col)];
        i := i + 1;
      }
    }

    /** The buffer, column by column, out. */
    method PutColumns(out: array<byte>, row: nat, col: nat)
      requires Valid() && out.Length == TEXT && out != buffer && Cell(row, 0, col) == Cell(col, 0, row) <= TEXT
      modifies out
      ensures out[Cell(row, 0, col)..] == old(out[Cell(row, 0, col)..])
      ensures Transposed(out[..], buffer[..], row, col)
    {
      CellsInside(row, col);
      CellsInside(col, row);
      var br := 0;
      var j := 0;
      while j < col
        invariant j <= col && br == Cell(j, 0, row)
        invariant out[Cell(row, 0, col)..] == old(out[Cell(row, 0, col)..])
        invariant forall k: nat, i: nat {:trigger CellAt(out[..], k, i, row)} :: k < j && i < row ==>
          CellAt(out[..], k, i, row) == CellAt(buffer[..], i, k, col)
      {
        StartsBefore(j + 1, col, row);
        CellStarts(j, 0, row);
        ghost var before := out[..];
        PutColumn(out, br, j, row, col);
        forall k: nat, i: nat {:trigger CellAt(out[..], k, i, row)} | k < j + 1 && i < row
          ensures CellAt(out[..], k, i, row) == CellAt(buffer[..], i, k, col)
        {
          CellStarts(k, i, row);
          if k < j {
            CellBefore(k, i, j, row);
            assert CellAt(out[..], k, i, row) == CellAt(before, k, i, row);
          }
        }
        br := br + row;
        j := j + 1;
      }
    }

    static lemma {:induction false} StartsBefore(a: nat, b: nat, col: nat)
      requires a <= b
      ensures Cell(a, 0, col) <= Cell(b, 0, col)
      decreases b
    {
      if a < b {
        StartsBefore(a, b - 1, col);
        CellStarts(b - 1, 0, col);
      }
    }

    /** Both ways of counting the bytes of `row` rows of `col`. */
    static lemma Area(row: nat, col: nat)
      ensures Cell(row, 0, col) == Cell(col, 0, row) == row * col
    {
      CellIs(row, 0, col);
      CellIs(col, 0, row);
      assert row * col == col * row;
    }

    /** enkriptuj. Bytes past the last full row are neither read nor written; the division needs a key. */
    method Enkriptuj(inp: array<byte>, out: array<byte>, key: seq<int>)
      requires Valid() && inp.Length == out.Length == TEXT && inp != out && inp != buffer && out != buffer
      requires 1 <= |key| <= 512
      modifies buffer, keyTmp, out
      ensures TEXT / |key| * |key| <= TEXT
      ensures out[..TEXT / |key| * |key|] == Encrypt(inp[..TEXT / |key| * |key|], key, TEXT / |key|)
      ensures out[TEXT / |key| * |key|..] == old(out[TEXT / |key| * |key|..])
    {
      var col := |key|;
      var row := TEXT / col;
      assert row * col <= TEXT;
      Area(row, col);
      EnkriptujRows(inp, out, key, row);
      EncryptedBytes(inp[..], buffer[..], out[..], key, row, row * col);
    }

    method EnkriptujRows(inp: array<byte>, out: array<byte>, key: seq<int>, row: nat)
      requires Valid() && inp.Length == out.Length == TEXT && inp != out && inp != buffer && out != buffer
      requires 1 <= |key| <= 512 && Cell(row, 0, |key|) == Cell(|key|, 0, row) <= TEXT
      modifies buffer, keyTmp, out
      ensures out[Cell(row, 0, |key|)..] == old(out[Cell(row, 0, |key|)..])
      ensures ColumnsBy(buffer[..], inp[..], Order(key), row, Cell(row, 0, |key|))
        && Transposed(out[..], buffer[..], row, |key|)
    {
      CopyKey(key);
      FillRows(inp, row, |key|);
      SortColumns(key, row, inp[..]);
      PutColumns(out, row, |key|);
    }

    /** The text, column by column, into the buffer. */
    method FillColumns(inp: array<byte>, row: nat, col: nat)
      requires Valid() && inp.Length == TEXT && inp != buffer && Cell(row, 0, col) == Cell(col, 0, row) <= TEXT
      modifies buffer
      ensures Transposed(inp[..], buffer[..], row, col)
    {
      CellsInside(row, col);
      CellsInside(col, row);
      CellsDiffer(col);
      var br := 0;
      var j := 0;
      while j < col
        invariant j <= col && br == Cell(j, 0, row)
        invariant forall k: nat, i: nat {:trigger CellAt(inp[..], k, i, row)} :: k < j && i < row ==>
          CellAt(inp[..], k, i, row) == CellAt(buffer[..], i, k, col)
      {
        CellStarts(j, 0, row);
        var i := 0;
        while i < row
          invariant i <= row && br == Cell(j, 0, row) + i
          invariant forall k: nat, l: nat {:trigger CellAt(inp[..], k, l, row)} ::
            (k < j && l < row) || (k == j && l < i) ==>
            CellAt(inp[..], k, l, row) == CellAt(buffer[..], l, k, col)
        {
          CellStarts(j, i, row);
          buffer[Cell(i, j, col)] := inp[br];
          br := br + 1;
          i := i + 1;
        }
        j := j + 1;
      }
    }

    /** Sort the index by the key. */
    method SortIndex(key: seq<int>)
      requires Valid() && |key| <= 512 && keyTmp[..|key|] == key
      modifies keyTmp, keyIdx
      ensures keyIdx[..|key|] == Order(key)
    {
      var col := |key|;
      var i := 0;
      while i < col
        invariant i <= col && keyTmp[..col] == key && forall k :: 0 <= k < i ==> keyIdx[k] == k
      {
        keyIdx[i] := i;
        i := i + 1;
      }
      ghost var p: seq<nat> := Identity(col);
      assert keyIdx[..col] == p;
      i := 0;
      while i < col
        invariant i <= col && |p| == col && keyIdx[..col] == p
        invariant Outer(keyTmp[..col], p, i) == Outer(key, Identity(col), 0)
      {
        p := SortIndexInner(i, col, p);
        i := i + 1;
      }
    }

    /** The inner loop of the index sort. */
    method SortIndexInner(i: nat, col: nat, ghost p0: seq<nat>) returns (ghost p: seq<nat>)
      requires Valid() && i < col <= 512 && |p0| == col && keyIdx[..col] == p0
      modifies keyTmp, keyIdx
      ensures |p| == col && keyIdx[..col] == p && (keyTmp[..col], p) == Inner(old(keyTmp[..col]), p0, i, i + 1)
    {
      p := p0;
      var j := i + 1;
      while j < col
        invariant i < j <= col && |p| == col && keyIdx[..col] == p
        invariant Inner(keyTmp[..col], p, i, j) == Inner(old(keyTmp[..col]), p0, i, i + 1)
      {
        if keyTmp[i] > keyTmp[j] {
          ghost var k := keyTmp[..col];
          keyTmp[i], keyTmp[j] := keyTmp[j], keyTmp[i];
          keyIdx[i], keyIdx[j] := keyIdx[j], keyIdx[i];
          p := Swap(p, i, j);
          assert keyTmp[..col] == Swap(k, i, j) && keyIdx[..col] == p;
        }
        j := j + 1;
      }
    }

    /** dekriptuj. */
    method Dekriptuj(inp: array<byte>, out: array<byte>, key: seq<int>)
      requires Valid() && inp.Length == out.Length == TEXT && inp != out && inp != buffer && out != buffer
      requires 1 <= |key| <= 512
      modifies buffer, keyTmp, keyIdx, out
      ensures TEXT / |key| * |key| <= TEXT
      ensures out[..TEXT / |key| * |key|] == Decrypt(inp[..TEXT / |key| * |key|], key, TEXT / |key|)
      ensures out[TEXT / |key| * |key|..] == old(out[TEXT / |key| * |key|..])
    {
      var col := |key|;
      var row := TEXT / col;
      assert row * col <= TEXT;
      Area(row, col);
      DekriptujRows(inp, out, key, row);
      DecryptedBytes(inp[..], buffer[..], out[..], key, row, row * col);
    }

    method DekriptujRows(inp: array<byte>, out: array<byte>, key: seq<int>, row: nat)
      requires Valid() && inp.Length == out.Length == TEXT && inp != out && inp != buffer && out != buffer
      requires 1 <= |key| <= 512 && Cell(row, 0, |key|) == Cell(|key|, 0, row) <= TEXT
      modifies buffer, keyTmp, keyIdx, out
      ensures out[Cell(row, 0, |key|)..] == old(out[Cell(row, 0, |key|)..])
      ensures Transposed(inp[..], buffer[..], row, |key|)
        && ColumnsBy(buffer[..], out[..], Order(key), row, Cell(row, 0, |key|))
    {
      CopyKey(key);
      FillColumns(inp, row, |key|);
      SortIndex(key);
      PutBack(out, key, row);
    }

    /** The last loop of dekriptuj: every column back to where it came from. */
    method PutBack(out: array<byte>, key: seq<int>, row: nat)
      requires Valid() && out.Length == TEXT && out != buffer && |key| <= 512 && Cell(row, 0, |key|) <= TEXT
      requires keyIdx[..|key|] == Order(key)
      modifies out
      ensures out[Cell(row, 0, |key|)..] == old(out[Cell(row, 0, |key|)..])
      ensures ColumnsBy(buffer[..], out[..], Order(key), row, Cell(row, 0, |key|))
    {
      var col := |key|;
      OrderSorts(key);
      ghost var p := Order(key);
      CellsInside(row, col);
      var i := 0;
      while i < row
        invariant i <= row
        invariant out[Cell(row, 0, col)..] == old(out[Cell(row, 0, col)..])
        invariant forall r: nat, c: nat {:trigger CellAt(buffer[..], r, c, col)} :: r < i && c < col ==>
          CellAt(buffer[..], r, c, col) == CellAt(out[..], r, p[c], col)
      {
        PutBackRow(out, i, row, col, p);
        i := i + 1;
      }
    }

    method PutBackRow(out: array<byte>, i: nat, row: nat, col: nat, ghost p: seq<nat>)
      requires Valid() && out.Length == TEXT && out != buffer && col <= 512 && Cell(row, 0, col) <= TEXT && i < row
      requires |p| == col && Permutes(p) && keyIdx[..col] == p
      modifies out
      ensures out[Cell(row, 0, col)..] == old(out[Cell(row, 0, col)..])
      ensures forall r: nat, c: nat {:trigger CellAt(out[..], r, c, col)} :: r < row && c < col && r != i ==>
        CellAt(out[..], r, c, col) == CellAt(old(out[..]), r, c, col)
      ensures forall c: nat {:trigger CellAt(buffer[..], i, c, col)} :: c < col ==>
        CellAt(buffer[..], i, c, col) == CellAt(out[..], i, p[c], col)
    {
      CellsInside(row, col);
      CellsDiffer(col);
      var j := 0;
      while j < col
        invariant j <= col
        invariant out[Cell(row, 0, col)..] == old(out[Cell(row, 0, col)..])
        invariant forall r: nat, c: nat {:trigger CellAt(out[..], r, c, col)} :: r < row && c < col && r != i ==>
          CellAt(out[..], r, c, col) == CellAt(old(out[..]), r, c, col)
        invariant forall c: nat {:trigger CellAt(buffer[..], i, c, col)} :: c < j ==>
          CellAt(buffer[..], i, c, col) == CellAt(out[..], i, p[c], col)
      {
        assert keyIdx[j] == p[j];
        var at: nat := keyIdx[j];
        Stored(out[..], out[..][Cell(i, at, col) := buffer[Cell(i, j, col)]], row, col, i, at, buffer[Cell(i, j, col)]);
        ghost var s := out[..];
        out[Cell(i, at, col)] := buffer[Cell(i, j, col)];
        assert out[..] == s[Cell(i, at, col) := buffer[Cell(i, j, col)]];
        j := j + 1;
      }
    }
  }
}
