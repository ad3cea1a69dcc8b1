/** The arguments and the environment of a new program, as fs/exec.c packs them at the top of its memory and as the
  program reads them back. */
module ExecArgs {
  import opened Bytes

  const PAGE_SIZE: nat := 4096
  const MAX_ARG_PAGES: nat := 32
  const ARG_BYTES: nat := 131072
  const DATA_LIMIT: nat := 0x4000000
  const U32: nat := 0x1_0000_0000

  /** A string has no zero byte in it. */
  predicate Str(s: seq<byte>) {
    forall i :: 0 <= i < |s| ==> s[i] != 0
  }

  predicate Strs(l: seq<seq<byte>>) {
    forall i :: 0 <= i < |l| ==> Str(l[i])
  }

  /** They lie in the 64 MB of a task. */
  predicate Short(l: seq<seq<byte>>) {
    forall i :: 0 <= i < |l| ==> |l[i]| < DATA_LIMIT
  }

  /** The strings one after the other, each with its zero. */
  function Packed(l: seq<seq<byte>>): seq<byte> {
    if l == [] then [] else l[0] + [0] + Packed(l[1..])
  }

  /** Where string `i` starts. */
  function Start(l: seq<seq<byte>>, i: nat): nat
    requires i <= |l|
  {
    if i == 0 then 0 else |l[0]| + 1 + Start(l[1..], i - 1)
  }

  lemma {:induction false} StartNext(l: seq<seq<byte>>, i: nat)
    requires i < |l|
    ensures Start(l, i + 1) == Start(l, i) + |l[i]| + 1
  {
    if i > 0 { StartNext(l[1..], i - 1); }
  }

  lemma {:induction false} StartIn(l: seq<seq<byte>>, i: nat)
    requires i < |l|
    ensures Start(l, i) + |l[i]| < |Packed(l)|
    ensures Packed(l)[Start(l, i)..Start(l, i) + |l[i]|] == l[i] && Packed(l)[Start(l, i) + |l[i]|] == 0
    decreases |l|
  {
    var r := Packed(l[1..]);
    assert Packed(l) == (l[0] + [0]) + r;
    if i > 0 {
      StartIn(l[1..], i - 1);
      var a := Start(l[1..], i - 1);
      Shifted(l[0] + [0], r, a, a + |l[i]|);
      assert Packed(l)[Start(l, i) + |l[i]|] == r[a + |l[i]|];
    }
  }

  lemma Shifted(a: seq<byte>, b: seq<byte>, i: nat, j: nat)
    requires i <= j <= |b|
    ensures (a + b)[|a| + i..|a| + j] == b[i..j]
  {
  }

  lemma {:induction false} StartLast(l: seq<seq<byte>>)
    ensures Start(l, |l|) == |Packed(l)|
  {
    if l != [] { StartLast(l[1..]); }
  }

  lemma {:induction false} PackedConcat(a: seq<seq<byte>>, b: seq<seq<byte>>)
    ensures Packed(a + b) == Packed(a) + Packed(b)
  {
    if a == [] {
      assert a + b == b && [] + Packed(b) == Packed(b);
    } else {
      assert (a + b)[1..] == a[1..] + b;
      PackedConcat(a[1..], b);
      assert a[0] + [0] + (Packed(a[1..]) + Packed(b)) == a[0] + [0] + Packed(a[1..]) + Packed(b);
    }
  }

  /** Memory outside [lo, hi) is as it was in `m`. */
  ghost predicate Outside(m: seq<byte>, n: seq<byte>, lo: nat, hi: nat) {
    |n| == |m| && forall i {:trigger n[i]} :: 0 <= i < |m| && !(lo <= i < hi) ==> n[i] == m[i]
  }

  lemma OutsideTrans(m: seq<byte>, n: seq<byte>, o: seq<byte>, a: nat, b: nat, c: nat, d: nat, lo: nat, hi: nat)
    requires Outside(m, n, a, b) && Outside(n, o, c, d) && lo <= a && b <= hi && lo <= c && d <= hi
    ensures Outside(m, o, lo, hi)
  {
    forall i {:trigger o[i]} | 0 <= i < |m| && !(lo <= i < hi) ensures o[i] == m[i] { assert o[i] == n[i]; }
  }

  /** A word is not disturbed by stores elsewhere. */
  lemma LongKept(m: seq<byte>, n: seq<byte>, a: nat, b: nat, hi: nat)
    requires a + 4 <= |m| && (hi <= a || a + 4 <= b) && Outside(m, n, b, hi)
    ensures Long(n, a) == Long(m, a)
  {
  }

  /** Every string takes a byte at least. */
  lemma {:induction false} CountBounded(l: seq<seq<byte>>)
    ensures |l| <= |Packed(l)|
  {
    if l != [] { CountBounded(l[1..]); }
  }

  // ---------------------------------------------------------------------------------------------------------
  // What the program finds

  /** The bytes from `a` up to the next zero. */
  function StringAt(mem: seq<byte>, a: nat): seq<byte>
    decreases |mem| - a
  {
    if a >= |mem| || mem[a] == 0 then [] else [mem[a]] + StringAt(mem, a + 1)
  }

  /** A little-endian word of four bytes. */
  function Long(mem: seq<byte>, a: nat): nat
    requires a + 4 <= |mem|
  {
    (mem[a] as nat) + 0x100 * (mem[a + 1] as nat) + 0x10000 * (mem[a + 2] as nat) + 0x1000000 * (mem[a + 3] as nat)
  }

  function Digit(v: nat, k: nat): byte {
    if k == 0 then v % 256 else if k == 1 then v / 0x100 % 256 else if k == 2 then v / 0x10000 % 256
      else v / 0x1000000 % 256
  }

  lemma DigitsMake(v: nat)
    requires v < 0x1_0000_0000
    ensures v == (Digit(v, 0) as nat) + 0x100 * (Digit(v, 1) as nat) + 0x10000 * (Digit(v, 2) as nat)
      + 0x1000000 * (Digit(v, 3) as nat)
  {
    var a, b := v / 0x100, v / 0x10000;
    assert v == 0x100 * a + Digit(v, 0);
    assert a / 0x100 == b && a == 0x100 * b + Digit(v, 1);
    assert b / 0x100 == v / 0x1000000 && b == 0x100 * (v / 0x1000000) + Digit(v, 2);
    assert Digit(v, 3) == v / 0x1000000;
  }

  /** Words are little-endian. */
  lemma LongMeans(mem: seq<byte>, a: nat, v: nat)
    requires a + 4 <= |mem| && v < 0x1_0000_0000
    ensures Long(mem, a) == v <==>
      mem[a] == v % 256 && mem[a + 1] == v / 256 % 256 && mem[a + 2] == v / 256 / 256 % 256
        && mem[a + 3] == v / 256 / 256 / 256
  {
    if Long(mem, a) == v {
      var b0: nat, b1: nat, b2: nat, b3: nat := mem[a], mem[a + 1], mem[a + 2], mem[a + 3];
      FirstDigit(b2, b3);
      FirstDigit(b1, b2 + 256 * b3);
      FirstDigit(b0, b1 + 256 * (b2 + 256 * b3));
      assert v == b0 + 256 * (b1 + 256 * (b2 + 256 * b3));
    }
  }

  lemma FirstDigit(b: nat, x: nat)
    requires b < 256
    ensures (b + 256 * x) % 256 == b && (b + 256 * x) / 256 == x
  {
  }

  lemma {:induction false} StringIs(mem: seq<byte>, a: nat, s: seq<byte>)
    requires Str(s) && a + |s| < |mem| && mem[a..a + |s|] == s && mem[a + |s|] == 0
    ensures StringAt(mem, a) == s
    decreases |s|
  {
    if s != [] {
      assert mem[a] == mem[a..a + |s|][0];
      assert mem[a + 1..a + 1 + |s[1..]|] == mem[a..a + |s|][1..];
      StringIs(mem, a + 1, s[1..]);
    }
  }

  /** The argument list at a stack pointer: a count, then as many pointers. */
  function Argv(mem: seq<byte>, a: nat, n: nat): (l: seq<seq<byte>>)
    requires a + 4 * n <= |mem|
    decreases n
  {
    if n == 0 then [] else [StringAt(mem, Long(mem, a))] + Argv(mem, a + 4, n - 1)
  }

  /** The environment: pointers up to a null one. */
  function Envp(mem: seq<byte>, a: nat): (l: seq<seq<byte>>)
    decreases |mem| - a
  {
    if a + 4 > |mem| || Long(mem, a) == 0 then [] else [StringAt(mem, Long(mem, a))] + Envp(mem, a + 4)
  }

  /** Pointers `i` and on of the strings packed at `p` stand from `a` on, with a null pointer after them. */
  ghost predicate Pointers(mem: seq<byte>, a: nat, p: nat, l: seq<seq<byte>>) {
    && a + 4 * |l| + 4 <= |mem|
    && (forall k {:trigger Start(l, k)} :: 0 <= k < |l| ==> Long(mem, a + 4 * k) == p + Start(l, k))
    && Long(mem, a + 4 * |l|) == 0
  }

  /** The strings are packed at `p`. */
  ghost predicate Holds(mem: seq<byte>, p: nat, l: seq<seq<byte>>) {
    p + |Packed(l)| <= |mem| && mem[p..p + |Packed(l)|] == Packed(l)
  }

  /** Byte `k` of string `i`, or its zero. */
  lemma ByteHeld(mem: seq<byte>, p: nat, l: seq<seq<byte>>, i: nat, k: nat)
    requires Holds(mem, p, l) && i < |l| && k <= |l[i]|
    ensures p + Start(l, i) + k < |mem| && mem[p + Start(l, i) + k] == if k < |l[i]| then l[i][k] else 0
  {
    StartIn(l, i);
    var a, n, all := Start(l, i), |l[i]|, Packed(l);
    assert mem[p + a + k] == mem[p..p + |all|][a + k] == all[a + k];
    if k < n { assert all[a + k] == all[a..a + n][k]; }
  }

  lemma SliceOfSlice(m: seq<byte>, p: nat, n: nat, a: nat, b: nat)
    requires p + n <= |m| && a <= b <= n
    ensures m[p..p + n][a..b] == m[p + a..p + b] && (b < n ==> m[p..p + n][b] == m[p + b])
  {
    var s := m[p..p + n];
    assert forall i {:trigger s[i]} :: 0 <= i < n ==> s[i] == m[p + i];
    assert s[a..b] == m[p + a..p + b];
  }

  lemma StringHeld(mem: seq<byte>, p: nat, l: seq<seq<byte>>, i: nat)
    requires Holds(mem, p, l) && Strs(l) && i < |l|
    ensures StringAt(mem, p + Start(l, i)) == l[i]
  {
    StartIn(l, i);
    var a, n := Start(l, i), |l[i]|;
    SliceOfSlice(mem, p, |Packed(l)|, a, a + n);
    assert mem[p + a..p + a + n] == l[i];
    StringIs(mem, p + a, l[i]);
  }

  lemma {:induction false} ArgvReads(mem: seq<byte>, a: nat, p: nat, l: seq<seq<byte>>, i: nat)
    requires Holds(mem, p, l) && Strs(l) && Pointers(mem, a, p, l) && i <= |l|
    ensures Argv(mem, a + 4 * i, |l| - i) == l[i..]
    decreases |l| - i
  {
    if i < |l| {
      StringHeld(mem, p, l, i);
      ArgvReads(mem, a, p, l, i + 1);
      assert Long(mem, a + 4 * i) == p + Start(l, i);
      assert l[i..] == [l[i]] + l[i + 1..];
    }
  }

  lemma {:induction false} EnvpReads(mem: seq<byte>, a: nat, p: nat, l: seq<seq<byte>>, i: nat)
    requires Holds(mem, p, l) && Strs(l) && Pointers(mem, a, p, l) && i <= |l| && p > 0
    ensures Envp(mem, a + 4 * i) == l[i..]
    decreases |l| - i
  {
    if i < |l| {
      StringHeld(mem, p, l, i);
      EnvpReads(mem, a, p, l, i + 1);
      assert Long(mem, a + 4 * i) == p + Start(l, i);
      assert l[i..] == [l[i]] + l[i + 1..];
    }
  }

  /** What create_tables leaves at the stack pointer: the count, the argument pointers and the environment pointers. */
  ghost predicate Tables(mem: seq<byte>, sp: nat, p: nat, args: seq<seq<byte>>, envs: seq<seq<byte>>) {
    && sp % 4 == 0 && sp + 4 * (|args| + |envs| + 3) <= p
    && sp + 4 <= |mem| && Long(mem, sp) == |args|
    && Pointers(mem, sp + 4, p, args) && Pointers(mem, sp + 8 + 4 * |args|, p + |Packed(args)|, envs)
  }

  /** A program that starts at this stack pointer finds these arguments and this environment. */
  ghost predicate Finds(mem: seq<byte>, sp: nat, args: seq<seq<byte>>, envs: seq<seq<byte>>) {
    && sp + 4 + 4 * |args| <= |mem| && Long(mem, sp) == |args|
    && Argv(mem, sp + 4, |args|) == args && Envp(mem, sp + 8 + 4 * |args|) == envs
  }

  lemma ArgsReadBack(mem: seq<byte>, sp: nat, p: nat, args: seq<seq<byte>>, n: nat)
    requires Strs(args) && Holds(mem, p, args) && Pointers(mem, sp + 4, p, args) && n == |args|
    ensures Argv(mem, sp + 4, n) == args
  {
    ArgvReads(mem, sp + 4, p, args, 0);
    assert args[0..] == args;
  }

  lemma EnvsReadBack(mem: seq<byte>, a: nat, p: nat, envs: seq<seq<byte>>)
    requires Strs(envs) && Holds(mem, p, envs) && Pointers(mem, a, p, envs) && p > 0
    ensures Envp(mem, a) == envs
  {
    EnvpReads(mem, a, p, envs, 0);
    assert envs[0..] == envs;
  }

  /** The program finds exactly the strings it was given, in order. */
  lemma TablesReadBack(mem: seq<byte>, sp: nat, p: nat, args: seq<seq<byte>>, envs: seq<seq<byte>>)
    requires Strs(args) && Strs(envs) && p > 0
    requires Tables(mem, sp, p, args, envs) && Holds(mem, p, args) && Holds(mem, p + |Packed(args)|, envs)
    ensures Finds(mem, sp, args, envs)
  {
    ArgsReadBack(mem, sp, p, args, |args|);
    EnvsReadBack(mem, sp + 8 + 4 * |args|, p + |Packed(args)|, envs);
  }

  // ---------------------------------------------------------------------------------------------------------
  // Pages

  /** The pages from the one of byte `p` on are there, and no others. */
  ghost predicate PagesFrom(page: seq<bool>, p: nat) {
    |page| == MAX_ARG_PAGES && p <= ARG_BYTES && forall i :: 0 <= i < MAX_ARG_PAGES ==>
      (page[i] <==> i >= p / PAGE_SIZE)
  }

  /** How many pages the bytes from `p` up take. */
  function PagesNeeded(p: nat): int { MAX_ARG_PAGES - p / PAGE_SIZE }

  // ---------------------------------------------------------------------------------------------------------
  // copy_strings

  /** How copy_strings ends: with a new end of the strings, 0 for want of a page; in its panic; or at a byte outside
      `page`, where the model ends. */
  datatype Outcome = Returns(p: nat) | Panics | Stray

  /** copy_strings, from the last string down, with the pages of the bytes from `p` on there and `free` to be had. Its
      test for a string that reaches below 0 compares an unsigned number with 0; such a string gets no pages. */
  function Copy(l: seq<seq<byte>>, p: nat, free: int): Outcome
    decreases |l|
  {
    if l == [] then Returns(p)
    else
      var s := l[|l| - 1];
      if |s| >= p then (if p >= PAGE_SIZE then Panics else Stray)
      else
        var q := p - (|s| + 1);
        var n := PagesNeeded(q) - PagesNeeded(p);
        if n > free then Returns(0) else Copy(l[..|l| - 1], q, free - n)
  }

  lemma PackedLast(l: seq<seq<byte>>)
    requires l != []
    ensures |Packed(l)| == |Packed(l[..|l| - 1])| + |l[|l| - 1]| + 1
  {
    var n := |l| - 1;
    var one, none: seq<seq<byte>> := [l[n]], [];
    assert l == l[..n] + one && one[1..] == none;
    PackedConcat(l[..n], one);
  }

  /** Strings that fit end where they should, unless there are too few pages. */
  lemma {:induction false} CopyFits(l: seq<seq<byte>>, p: nat, free: int)
    requires |Packed(l)| <= p && free >= 0
    ensures var q := p - |Packed(l)|;
      Copy(l, p, free) == Returns(if PagesNeeded(q) - PagesNeeded(p) <= free then q else 0)
    decreases |l|
  {
    if l != [] {
      PackedLast(l);
      var q := p - (|l[|l| - 1]| + 1);
      var n := PagesNeeded(q) - PagesNeeded(p);
      if n <= free { CopyFits(l[..|l| - 1], q, free - n); }
    }
  }

  /** Strings that do not fit are never taken for some that do. */
  lemma {:induction false} CopyOverflows(l: seq<seq<byte>>, p: nat, free: int)
    requires |Packed(l)| > p
    ensures Copy(l, p, free).Returns? ==> Copy(l, p, free).p == 0
    decreases |l|
  {
    if l != [] {
      PackedLast(l);
      var s := l[|l| - 1];
      if |s| < p {
        var q := p - (|s| + 1);
        CopyOverflows(l[..|l| - 1], q, free - (PagesNeeded(q) - PagesNeeded(p)));
      }
    }
  }

  /** The second call of copy_strings in do_execve, after a first one that ended so. */
  function CopySecond(argv: seq<seq<byte>>, o: Outcome, free: nat): Outcome {
    if o.Returns? then Copy(argv, o.p, if o.p == 0 then 0 else free - PagesNeeded(o.p)) else o
  }

  function CopyBoth(argv: seq<seq<byte>>, envp: seq<seq<byte>>, free: nat): Outcome {
    CopySecond(argv, Copy(envp, ARG_BYTES, free), free)
  }

  /** What there is to do, in bytes, can be done. */
  predicate Enough(n: nat, free: nat) {
    n < ARG_BYTES && PagesNeeded(ARG_BYTES - n) <= free
  }

  /** Less than 128 kB, and a page for every 4 kB that has been begun. */
  lemma EnoughMeans(n: nat, free: nat)
    ensures Enough(n, free) <==> n < 131072 && (n + 4095) / 4096 <= free
  {
    if n < 131072 {
      var q := (131072 - n) / 4096;
      assert 4096 * q <= 131072 - n < 4096 * q + 4096;
    }
  }

  lemma EnoughForLess(n: nat, m: nat, free: nat)
    requires Enough(n, free) && m <= n
    ensures Enough(m, free)
  {
  }

  /** How the two calls end for arguments `l` and an environment of `e` bytes. */
  ghost predicate EndsAs(o: Outcome, l: seq<seq<byte>>, e: nat, free: nat) {
    var n := |Packed(l)| + e;
    && (o.Returns? && o.p != 0 <==> Enough(n, free)) && (Enough(n, free) ==> o.p == ARG_BYTES - n)
    && (n < ARG_BYTES ==> !o.Panics? && (o.Stray? <==> !Enough(e, free) && l != []))
  }

  /** do_execve goes on exactly when the strings take less than 128 kB and there are pages for them. Of lists below that
      size it reports any other, but for an environment that finds too few pages before arguments: the second
      copy_strings starts from the 0 of the first and leaves `page`. */
  lemma CopyBothMeans(argv: seq<seq<byte>>, envp: seq<seq<byte>>, free: nat)
    ensures EndsAs(CopyBoth(argv, envp, free), argv, |Packed(envp)|, free)
  {
    FirstMeans(envp, ARG_BYTES, free);
    SecondMeans(argv, |Packed(envp)|, Copy(envp, ARG_BYTES, free), free);
  }

  lemma FirstMeans(l: seq<seq<byte>>, p: nat, free: nat)
    requires p == ARG_BYTES
    ensures var o, e := Copy(l, p, free), |Packed(l)|;
      && (if Enough(e, free) then o == Returns(p - e) else o.Returns? ==> o.p == 0)
      && (e <= p ==> o.Returns?)
  {
    if |Packed(l)| > p { CopyOverflows(l, p, free); } else { CopyFits(l, p, free); }
  }

  lemma SecondMeans(l: seq<seq<byte>>, e: nat, o: Outcome, free: nat)
    requires if Enough(e, free) then o == Returns(ARG_BYTES - e) else o.Returns? ==> o.p == 0
    requires e <= ARG_BYTES ==> o.Returns?
    ensures EndsAs(CopySecond(l, o, free), l, e, free)
  {
    var n := |Packed(l)| + e;
    if Enough(n, free) { EnoughForLess(n, e, free); }
    if !Enough(e, free) {
      CopyNone(l);
    } else if n <= ARG_BYTES {
      CopyFits(l, ARG_BYTES - e, free - PagesNeeded(ARG_BYTES - e));
    } else {
      CopyOverflows(l, ARG_BYTES - e, free - PagesNeeded(ARG_BYTES - e));
    }
  }

  /** The second call, after a first one that returned 0. */
  lemma CopyNone(l: seq<seq<byte>>)
    ensures Copy(l, 0, 0) == if l == [] then Returns(0) else Stray
  {
  }
}
