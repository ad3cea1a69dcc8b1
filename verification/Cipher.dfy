/** The column transposition of kernel/sys.c: enkriptuj sorts the columns of the text by the characters of the key,
  dekriptuj sorts an index by the same key and puts every column back. */
module Cipher {
  import opened Bytes
  import opened Common

  const TEXT: nat := 1024

  // ---------------------------------------------------------------------------------------------------------
  // The exchange sort both routines run on the key

  function Swap<T>(s: seq<T>, i: nat, j: nat): (t: seq<T>)
    requires i < |s| && j < |s|
    ensures |t| == |s|
    ensures forall k :: 0 <= k < |s| ==> t[k] == if k == i then s[j] else if k == j then s[i] else s[k]
  {
    s[i := s[j]][j := s[i]]
  }

  /** The inner loop: position `i` against positions `j` and up, the index `p` moving with the key. */
  function Inner(k: seq<int>, p: seq<nat>, i: nat, j: nat): (r: (seq<int>, seq<nat>))
    requires |p| == |k| && i < j <= |k|
    ensures |r.0| == |k| && |r.1| == |k|
    decreases |k| - j
  {
    if j == |k| then (k, p)
    else if k[i] > k[j] then Inner(Swap(k, i, j), Swap(p, i, j), i, j + 1)
    else Inner(k, p, i, j + 1)
  }

  function Outer(k: seq<int>, p: seq<nat>, i: nat): (r: (seq<int>, seq<nat>))
    requires |p| == |k| && i <= |k|
    ensures |r.0| == |k| && |r.1| == |k|
    decreases |k| - i
  {
    if i == |k| then (k, p) else
    var (k1, p1) := Inner(k, p, i, i + 1);
    Outer(k1, p1, i + 1)
  }

  function Identity(n: nat): (p: seq<nat>)
    ensures |p| == n && forall k :: 0 <= k < n ==> p[k] == k
  {
    seq(n, k => k)
  }

  /** The original column that ends up at each position. */
  function Order(key: seq<int>): (p: seq<nat>)
    ensures |p| == |key|
  {
    Outer(key, Identity(|key|), 0).1
  }

  /** `p` names each of 0..n-1 once. */
  ghost predicate Permutes(p: seq<nat>) {
    && (forall k :: 0 <= k < |p| ==> p[k] < |p|)
    && (forall k, l :: 0 <= k < l < |p| ==> p[k] != p[l])
  }

  /** `k` is `key` read through `p`. */
  ghost predicate Through(key: seq<int>, k: seq<int>, p: seq<nat>) {
    |k| == |p| == |key| && Permutes(p) && forall c :: 0 <= c < |p| ==> k[c] == key[p[c]]
  }

  /** Position `i` onwards holds nothing smaller than what is before it, and the part before is in order. */
  ghost predicate SortedTo(k: seq<int>, i: nat)
    requires i <= |k|
  {
    forall a, b :: 0 <= a < i && a < b < |k| ==> k[a] <= k[b]
  }

  lemma {:induction false} InnerSorts(key: seq<int>, k: seq<int>, p: seq<nat>, i: nat, j: nat)
    requires |p| == |k| && i < j <= |k| && Through(key, k, p) && SortedTo(k, i)
    requires forall b :: i < b < j ==> k[i] <= k[b]
    ensures var r := Inner(k, p, i, j); Through(key, r.0, r.1) && SortedTo(r.0, i + 1)
    decreases |k| - j
  {
    if j < |k| {
      if k[i] > k[j] {
        InnerSorts(key, Swap(k, i, j), Swap(p, i, j), i, j + 1);
      } else {
        InnerSorts(key, k, p, i, j + 1);
      }
    }
  }

  lemma {:induction false} OuterSorts(key: seq<int>, k: seq<int>, p: seq<nat>, i: nat)
    requires |p| == |k| && i <= |k| && Through(key, k, p) && SortedTo(k, i)
    ensures var r := Outer(k, p, i); Through(key, r.0, r.1) && SortedTo(r.0, |k|)
    decreases |k| - i
  {
    if i < |k| {
      InnerSorts(key, k, p, i, i + 1);
      var (k1, p1) := Inner(k, p, i, i + 1);
      OuterSorts(key, k1, p1, i + 1);
    }
  }

  /** The order is a permutation of the columns that puts the key in ascending order. */
  lemma OrderSorts(key: seq<int>)
    ensures var p := Order(key);
      && Permutes(p)
      && (forall a, b :: 0 <= a < b < |key| ==> key[p[a]] <= key[p[b]])
  {
    OuterSorts(key, key, Identity(|key|), 0);
  }

  // ---------------------------------------------------------------------------------------------------------
  // What one pass does

  /** The character at `b` is smaller than all from position `i` up to it. */
  ghost predicate Record(k: seq<int>, i: nat, b: int) {
    i <= b < |k| && forall a {:trigger k[a]} :: i <= a < b ==> k[a] > k[b]
  }

  /** The last such character before position `j`. */
  ghost predicate LastRecord(k: seq<int>, i: nat, a: int, j: int) {
    Record(k, i, a) && a < j && forall b :: a < b < j ==> !Record(k, i, b)
  }

  /** From `s` to `t`, the places of the records before `j` have moved on by one record, the last of them has come to
      place `i`, and every other place has stayed. */
  ghost predicate Rotated(k: seq<int>, i: nat, j: nat, s: seq<int>, t: seq<int>) {
    && |s| == |t| == |k| && i < j <= |k|
    && (forall b {:trigger t[b]} :: 0 <= b < |k| && (b >= j || !Record(k, i, b)) ==> t[b] == s[b])
    && (forall a, b {:trigger LastRecord(k, i, a, b)} :: i < b < j && Record(k, i, b) && LastRecord(k, i, a, b) ==>
      t[b] == s[a])
    && (forall a {:trigger LastRecord(k, i, a, j)} :: LastRecord(k, i, a, j) ==> t[i] == s[a])
  }

  lemma {:induction false} LastRecordIs(k: seq<int>, i: nat, j: nat) returns (a: nat)
    requires i < j <= |k|
    ensures LastRecord(k, i, a, j) && forall b :: i <= b < j ==> k[a] <= k[b]
    decreases j
  {
    if j == i + 1 { return i; }
    a := LastRecordIs(k, i, j - 1);
    if k[a] > k[j - 1] { a := j - 1; }
  }

  function SwapIf<T>(s: seq<T>, i: nat, j: nat, yes: bool): seq<T>
    requires i < |s| && j < |s|
  {
    if yes then Swap(s, i, j) else s
  }

  /** One exchange of the pass, or none. */
  lemma PassStep(k: seq<int>, i: nat, j: nat, s: seq<int>, t: seq<int>, a: nat)
    requires Rotated(k, i, j, s, t) && j < |k| && LastRecord(k, i, a, j) && forall b :: i <= b < j ==> k[a] <= k[b]
    ensures t[i] == s[a] && t[j] == s[j] && Rotated(k, i, j + 1, s, SwapIf(t, i, j, k[a] > k[j]))
  {
    assert Record(k, i, j) <==> k[a] > k[j];
    var u := SwapIf(t, i, j, k[a] > k[j]);
    forall c | LastRecord(k, i, c, j + 1) ensures u[i] == s[c] {
      if c != j { assert LastRecord(k, i, c, j); }
    }
    forall c, b | i < b < j + 1 && Record(k, i, b) && LastRecord(k, i, c, b) ensures u[b] == s[c] {}
  }

  /** The same move of the key and of the index. */
  ghost predicate Passed(k: seq<int>, p: seq<nat>, i: nat, j: nat, r: (seq<int>, seq<nat>)) {
    Rotated(k, i, j, k, r.0) && Rotated(k, i, j, p, r.1)
  }

  lemma PassBoth(k: seq<int>, p: seq<nat>, i: nat, j: nat, k1: seq<int>, p1: seq<nat>)
    requires Passed(k, p, i, j, (k1, p1)) && j < |k|
    ensures var e := k1[i] > k1[j]; Passed(k, p, i, j + 1, (SwapIf(k1, i, j, e), SwapIf(p1, i, j, e)))
  {
    var a := LastRecordIs(k, i, j);
    PassStep(k, i, j, k, k1, a);
    PassStep(k, i, j, p, p1, a);
  }

  lemma InnerStep(k: seq<int>, p: seq<nat>, i: nat, j: nat)
    requires |p| == |k| && i < j < |k|
    ensures Inner(k, p, i, j) == Inner(SwapIf(k, i, j, k[i] > k[j]), SwapIf(p, i, j, k[i] > k[j]), i, j + 1)
  {
  }

  lemma {:induction false} PassFrom(k: seq<int>, p: seq<nat>, i: nat, j: nat, k1: seq<int>, p1: seq<nat>)
    requires Passed(k, p, i, j, (k1, p1))
    ensures Passed(k, p, i, |k|, Inner(k1, p1, i, j))
    decreases |k| - j
  {
    if j < |k| {
      PassBoth(k, p, i, j, k1, p1);
      InnerStep(k1, p1, i, j);
      var e := k1[i] > k1[j];
      PassFrom(k, p, i, j + 1, SwapIf(k1, i, j, e), SwapIf(p1, i, j, e));
    }
  }

  /** One pass moves just the characters that are smaller than all before them from position `i` on, each to the place
      of the next one, and the last and smallest of them to `i`; equal characters never change places. */
  lemma PassRotates(k: seq<int>, p: seq<nat>, i: nat)
    requires |p| == |k| && i < |k|
    ensures Passed(k, p, i, |k|, Inner(k, p, i, i + 1))
  {
    PassFrom(k, p, i, i + 1, k, p);
  }

  ghost predicate Ascending(k: seq<int>) {
    forall a, b :: 0 <= a < b < |k| ==> k[a] <= k[b]
  }

  lemma {:induction false} AscendingStays(k: seq<int>, p: seq<nat>, i: nat)
    requires |p| == |k| && i <= |k| && Ascending(k)
    ensures Outer(k, p, i) == (k, p)
    decreases |k| - i
  {
    if i < |k| {
      PassRotates(k, p, i);
      var (k1, p1) := Inner(k, p, i, i + 1);
      assert LastRecord(k, i, i, |k|);
      forall b | 0 <= b < |k| ensures k1[b] == k[b] && p1[b] == p[b] { assert b != i ==> !Record(k, i, b); }
      assert k1 == k && p1 == p;
      AscendingStays(k, p, i + 1);
    }
  }

  /** The columns stay where they are if and only if the characters of the key are in ascending order, whether or not
      some are equal. */
  lemma AscendingKeepsOrder(key: seq<int>)
    ensures Order(key) == Identity(|key|) <==> Ascending(key)
  {
    if Ascending(key) { AscendingStays(key, Identity(|key|), 0); }
    if Order(key) == Identity(|key|) {
      OrderSorts(key);
      forall a, b | 0 <= a < b < |key| ensures key[a] <= key[b] { assert Order(key)[a] == a && Order(key)[b] == b; }
    }
  }

  // ---------------------------------------------------------------------------------------------------------
  // Permutations are onto

  /** The position of `v` in `p`. */
  function Find(p: seq<nat>, v: nat): (k: nat)
    ensures k <= |p| && (k < |p| ==> p[k] == v) && (k == |p| ==> v !in p)
  {
    if |p| == 0 then 0 else if p[0] == v then 0 else 1 + Find(p[1..], v)
  }

  lemma {:induction false} Onto(p: seq<nat>, n: nat, v: nat)
    requires |p| == n && v < n
    requires forall k :: 0 <= k < n ==> p[k] < n
    requires forall k, l :: 0 <= k < l < n ==> p[k] != p[l]
    ensures v in p
    decreases n
  {
    if v !in p {
      // Take the last element away and let `v` stand for n - 1: n - 1 distinct values below n - 1, again without v.
      var q := seq(n - 1, k requires 0 <= k < n - 1 => if p[k] == n - 1 then v else p[k]);
      if n > 1 {
        var w := if p[n - 1] == n - 1 then v else p[n - 1];
        assert w !in q;
        Onto(q, n - 1, w);
      }
    }
  }

  lemma WithoutCounts<T>(s: seq<T>, f: nat)
    requires f < |s|
    ensures multiset(s) == multiset(Without(s, f)) + multiset{s[f]}
  {
    assert s == s[..f] + [s[f]] + s[f + 1..];
  }

  /** A permutation of n columns without the last column is one of n - 1. */
  lemma WithoutPermutes(p: seq<nat>, f: nat)
    requires f < |p| && Permutes(p) && p[f] == |p| - 1
    ensures Permutes(Without(p, f))
  {
  }

  /** Reading a sequence through a permutation keeps its bytes, each as often as before. */
  lemma {:induction false} ThroughKeepsBytes<T>(s: seq<T>, p: seq<nat>, t: seq<T>)
    requires |s| == |p| == |t| && Permutes(p) && forall k :: 0 <= k < |t| ==> t[k] == s[p[k]]
    ensures multiset(t) == multiset(s)
    decreases |s|
  {
    var n := |s|;
    if n == 0 { return; }
    Onto(p, n, n - 1);
    var f := Find(p, n - 1);
    WithoutPermutes(p, f);
    ThroughKeepsBytes(s[..n - 1], Without(p, f), Without(t, f));
    WithoutCounts(t, f);
    assert s == s[..n - 1] + [s[n - 1]];
  }

  // ---------------------------------------------------------------------------------------------------------
  // Rows and columns of a flat buffer

  /** Cell (r, c) of a buffer of rows of `col` cells, r * col + c. */
  function Cell(r: nat, c: nat, col: nat): nat {
    if r == 0 then c else col + Cell(r - 1, c, col)
  }

  lemma {:induction false} CellIs(r: nat, c: nat, col: nat)
    ensures Cell(r, c, col) == r * col + c
  {
    if r > 0 {
      CellIs(r - 1, c, col);
      assert r * col == (r - 1) * col + col;
    }
  }

  /** The row and the column of a cell. */
  function RowOf(m: nat, col: nat): nat { if col == 0 || m < col then 0 else 1 + RowOf(m - col, col) }
  function ColOf(m: nat, col: nat): nat { if col == 0 || m < col then m else ColOf(m - col, col) }

  lemma {:induction false} CellParts(r: nat, c: nat, col: nat)
    requires c < col
    ensures RowOf(Cell(r, c, col), col) == r && ColOf(Cell(r, c, col), col) == c
  {
    if r > 0 { CellParts(r - 1, c, col); }
  }

  lemma {:induction false} CellOf(m: nat, row: nat, col: nat)
    requires m < row * col
    ensures col > 0 && RowOf(m, col) < row && ColOf(m, col) < col && Cell(RowOf(m, col), ColOf(m, col), col) == m
  {
    assert row > 0 && col > 0;
    assert row * col == (row - 1) * col + col;
    if m >= col {
      CellOf(m - col, row - 1, col);
    }
  }

  lemma CellInside(r: nat, c: nat, row: nat, col: nat)
    requires r < row && c < col
    ensures Cell(r, c, col) < row * col
    ensures RowOf(Cell(r, c, col), col) == r && ColOf(Cell(r, c, col), col) == c
  {
    CellBefore(r, c, row, col);
    CellIs(row, 0, col);
    CellParts(r, c, col);
  }

  /** No two cells share a place. */
  lemma CellsDiffer(col: nat)
    ensures forall r: nat, c: nat {:trigger Cell(r, c, col)} :: c < col ==>
      RowOf(Cell(r, c, col), col) == r && ColOf(Cell(r, c, col), col) == c
  {
    forall r: nat, c: nat {:trigger Cell(r, c, col)} | c < col
      ensures RowOf(Cell(r, c, col), col) == r && ColOf(Cell(r, c, col), col) == c
    {
      CellParts(r, c, col);
    }
  }

  lemma {:induction false} CellBefore(r: nat, c: nat, row: nat, col: nat)
    requires r < row && c < col
    ensures Cell(r, c, col) < Cell(row, 0, col)
  {
    CellStarts(r, c, col);
    if r < row - 1 {
      CellBefore(r, c, row - 1, col);
    }
  }

  lemma {:induction false} CellStarts(r: nat, c: nat, col: nat)
    ensures Cell(r, c, col) == Cell(r, 0, col) + c && Cell(r + 1, 0, col) == Cell(r, 0, col) + col
  {
    if r > 0 { CellStarts(r - 1, c, col); }
  }

  /** Every cell of the first `row` rows lies below row * col. */
  lemma CellsInside(row: nat, col: nat)
    ensures forall r: nat, c: nat {:trigger Cell(r, c, col)} :: r < row && c < col ==>
      Cell(r, c, col) < Cell(row, 0, col)
  {
    forall r: nat, c: nat {:trigger Cell(r, c, col)} | r < row && c < col ensures Cell(r, c, col) < Cell(row, 0, col) {
      CellBefore(r, c, row, col);
    }
  }

  // ---------------------------------------------------------------------------------------------------------
  // Encryption and decryption of one text of row * col bytes

  /** The position in the clear text of byte `q` of the cipher text. */
  function Source(key: seq<int>, row: nat, q: nat): (m: nat)
    requires q < row * |key|
    ensures m < row * |key|
  {
    CellOf(q, |key|, row);
    OrderSorts(key);
    CellInside(ColOf(q, row), Order(key)[RowOf(q, row)], row, |key|);
    Cell(ColOf(q, row), Order(key)[RowOf(q, row)], |key|)
  }

  function Encrypt(x: seq<byte>, key: seq<int>, row: nat): (y: seq<byte>)
    requires |x| == row * |key|
    ensures |y| == |x|
  {
    seq(|x|, q requires 0 <= q < |x| => x[Source(key, row, q)])
  }

  /** The position in the cipher text of byte `m` of the clear text. */
  function Target(key: seq<int>, row: nat, m: nat): (q: nat)
    requires m < row * |key|
    ensures q < row * |key|
  {
    CellOf(m, row, |key|);
    OrderSorts(key);
    Onto(Order(key), |key|, ColOf(m, |key|));
    CellInside(Find(Order(key), ColOf(m, |key|)), RowOf(m, |key|), |key|, row);
    Cell(Find(Order(key), ColOf(m, |key|)), RowOf(m, |key|), row)
  }

  function Decrypt(y: seq<byte>, key: seq<int>, row: nat): (z: seq<byte>)
    requires |y| == row * |key|
    ensures |z| == |y|
  {
    seq(|y|, m requires 0 <= m < |y| => y[Target(key, row, m)])
  }

  lemma SourceOfTarget(key: seq<int>, row: nat, m: nat)
    requires m < row * |key|
    ensures Source(key, row, Target(key, row, m)) == m
  {
    CellOf(m, row, |key|);
    OrderSorts(key);
    var f := Find(Order(key), ColOf(m, |key|));
    Onto(Order(key), |key|, ColOf(m, |key|));
    CellInside(f, RowOf(m, |key|), |key|, row);
    assert RowOf(Target(key, row, m), row) == f && ColOf(Target(key, row, m), row) == RowOf(m, |key|);
  }

  /** Decryption undoes encryption, for every text and every key, repeated characters or not. */
  lemma DecryptEncrypt(x: seq<byte>, key: seq<int>, row: nat)
    requires |x| == row * |key|
    ensures Decrypt(Encrypt(x, key, row), key, row) == x
  {
    forall m | 0 <= m < |x| ensures Decrypt(Encrypt(x, key, row), key, row)[m] == x[m] {
      SourceOfTarget(key, row, m);
    }
  }

  /** Encryption moves the bytes and neither adds nor loses any. */
  lemma EncryptPermutes(x: seq<byte>, key: seq<int>, row: nat)
    requires |x| == row * |key|
    ensures multiset(Encrypt(x, key, row)) == multiset(x)
  {
    var p := seq(|x|, q requires 0 <= q < |x| => Source(key, row, q));
    OrderSorts(key);
    forall k, l | 0 <= k < l < |p| ensures p[k] != p[l] {
      TargetOfSource(key, row, k);
      TargetOfSource(key, row, l);
    }
    ThroughKeepsBytes(x, p, Encrypt(x, key, row));
  }

  lemma SourceParts(key: seq<int>, row: nat, q: nat)
    requires q < row * |key|
    ensures row > 0 && RowOf(q, row) < |key|
    ensures ColOf(Source(key, row, q), |key|) == Order(key)[RowOf(q, row)]
      && RowOf(Source(key, row, q), |key|) == ColOf(q, row)
  {
    CellOf(q, |key|, row);
    OrderSorts(key);
    CellInside(ColOf(q, row), Order(key)[RowOf(q, row)], row, |key|);
  }

  lemma TargetOfSource(key: seq<int>, row: nat, q: nat)
    requires q < row * |key|
    ensures Target(key, row, Source(key, row, q)) == q
  {
    SourceParts(key, row, q);
    OrderSorts(key);
    assert Find(Order(key), Order(key)[RowOf(q, row)]) == RowOf(q, row);
    CellOf(q, |key|, row);
  }

  /** And encryption undoes decryption: the two are inverse on texts of this length. */
  lemma EncryptDecrypt(y: seq<byte>, key: seq<int>, row: nat)
    requires |y| == row * |key|
    ensures Encrypt(Decrypt(y, key, row), key, row) == y
  {
    forall q | 0 <= q < |y| ensures Encrypt(Decrypt(y, key, row), key, row)[q] == y[q] {
      TargetOfSource(key, row, q);
    }
  }

  /** Byte `r` of column `c` of the cipher text is byte `r` of the column the order names, in the clear text. */
  lemma ColumnsInOrder(x: seq<byte>, key: seq<int>, row: nat, r: nat, c: nat)
    requires |x| == row * |key| && r < row && c < |key|
    ensures 0 <= c * row + r < |x| && Order(key)[c] < |key| && 0 <= r * |key| + Order(key)[c] < |x|
    ensures Encrypt(x, key, row)[c * row + r] == x[r * |key| + Order(key)[c]]
  {
    OrderSorts(key);
    CellIs(c, r, row);
    CellIs(r, Order(key)[c], |key|);
    CellInside(c, r, |key|, row);
    CellInside(r, Order(key)[c], row, |key|);
  }

  /** Under a key in ascending order the cipher text is the clear text column by column. */
  lemma PlainTransposition(x: seq<byte>, key: seq<int>, row: nat, r: nat, c: nat)
    requires |x| == row * |key| && r < row && c < |key| && Ascending(key)
    ensures 0 <= c * row + r < |x| && 0 <= r * |key| + c < |x|
    ensures Encrypt(x, key, row)[c * row + r] == x[r * |key| + c]
  {
    AscendingKeepsOrder(key);
    ColumnsInOrder(x, key, row, r, c);
  }
}
