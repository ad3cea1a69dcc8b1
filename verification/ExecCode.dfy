/** copy_strings, create_tables and what do_execve does between them, in fs/exec.c. get_free_page gives a page as long
  as `free` says there is one. */
module ExecCode {
  import opened Bytes
  import opened ExecArgs

  class Exec {
    /** page[i] != 0, and the bytes of the pages. */
    const page: array<bool>
    const mem: array<byte>
    var free: nat

    ghost predicate Valid()
      reads this
    {
      page.Length == MAX_ARG_PAGES && mem.Length == ARG_BYTES
    }

    constructor (free: nat)
      ensures Valid() && this.free == free && PagesFrom(page[..], ARG_BYTES) && fresh(page) && fresh(mem)
    {
      page := new bool[MAX_ARG_PAGES](i => false);
      mem := new byte[ARG_BYTES](i => 0);
      this.free := free;
    }

    /** The page loop of copy_strings: pages from page `i0` on, as far as there are none yet. */
    method GetPages(i0: nat, ghost p: nat) returns (ok: bool)
      requires Valid() && (i0 >= MAX_ARG_PAGES || (PagesFrom(page[..], p) && i0 <= p / PAGE_SIZE))
      modifies this, page
      ensures i0 >= MAX_ARG_PAGES ==> ok && page[..] == old(page[..]) && free == old(free)
      ensures i0 < MAX_ARG_PAGES ==> (ok <==> p / PAGE_SIZE - i0 <= old(free))
      ensures i0 < MAX_ARG_PAGES && ok ==>
        free == old(free) - (p / PAGE_SIZE - i0) && forall j :: 0 <= j < MAX_ARG_PAGES ==> (page[j] <==> j >= i0)
    {
      var i := i0;
      while i < MAX_ARG_PAGES && !page[i]
        invariant i0 <= i && (i0 >= MAX_ARG_PAGES ==> i == i0 && page[..] == old(page[..]) && free == old(free))
        invariant i0 < MAX_ARG_PAGES ==> i <= p / PAGE_SIZE <= MAX_ARG_PAGES && free == old(free) - (i - i0)
        invariant i0 < MAX_ARG_PAGES ==>
          forall j :: 0 <= j < MAX_ARG_PAGES ==> (page[j] <==> i0 <= j < i || j >= p / PAGE_SIZE)
      {
        if free == 0 {
          return false;
        }
        free := free - 1;
        page[i] := true;
        i := i + 1;
      }
      ok := true;
    }

    /** The pages that are there before the byte loop copies string `s` down from `p0`. */
    ghost predicate PagesReady(s: seq<byte>, p0: nat)
      reads this, page
    {
      p0 != 0 ==> PagesFrom(page[..], if |s| < p0 then p0 - (|s| + 1) else p0)
    }

    /** The byte loop of copy_strings: `s` and its zero, downwards from `p0`. It ends in a page that is not there, or
        outside `page`, exactly where the string reaches below 0. */
    method CopyDown(s: seq<byte>, p0: nat) returns (r: Outcome)
      requires Valid() && p0 <= ARG_BYTES && PagesReady(s, p0)
      modifies mem
      ensures |s| >= p0 ==> r == if p0 >= PAGE_SIZE then Panics else Stray
      ensures mem[p0..] == old(mem[p0..])
      ensures |s| < p0 ==> r == Returns(p0 - (|s| + 1)) && mem[r.p..p0] == s + [0] && mem[..r.p] == old(mem[..r.p])
    {
      var len := |s| + 1;
      ghost var z := s + [0];
      var p := p0;
      while len > 0
        invariant 0 <= len <= |z| && p == p0 - (|z| - len) >= 0 && (|s| >= p0 ==> p >= p0 - p0 % PAGE_SIZE)
        invariant mem[p..p0] == z[len..] && mem[p0..] == old(mem[p0..]) && mem[..p] == old(mem[..p])
      {
        p := (p - 1) % U32;
        if p / PAGE_SIZE >= MAX_ARG_PAGES {
          return Stray;
        }
        if !page[p / PAGE_SIZE] {
          assert !page[..][p / PAGE_SIZE];
          return Panics;
        }
        assert page[..][p / PAGE_SIZE];
        len := len - 1;
        mem[p] := if len == |s| then 0 else s[len];
        OneByteMore(z, len);
        assert mem[p..p0] == [z[len]] + z[len + 1..];
      }
      assert z[0..] == z;
      r := Returns(p);
    }

    static lemma OneByteMore(z: seq<byte>, k: nat)
      requires k < |z|
      ensures z[k..] == [z[k]] + z[k + 1..]
    {
    }

    /** One string of copy_strings: where it starts, or, with `over`, how the call ends. */
    method CopyString(s: seq<byte>, p: nat) returns (over: bool, r: Outcome)
      requires Valid() && p <= ARG_BYTES && |s| < DATA_LIMIT && (p != 0 ==> PagesFrom(page[..], p))
      modifies this, page, mem
      ensures mem[p..] == old(mem[p..])
      ensures |s| >= p ==> over && r == if p >= PAGE_SIZE then Panics else Stray
      ensures |s| < p ==>
        var q := p - (|s| + 1); var n := PagesNeeded(q) - PagesNeeded(p);
        && over == (n > old(free)) && r == Returns(if over then 0 else q)
        && (!over ==> PagesFrom(page[..], q) && mem[q..p] == s + [0] && free == old(free) - n)
    {
      var i := (p - (|s| + 1)) % U32 / PAGE_SIZE;
      var ok := GetPages(i, p);
      if !ok {
        return true, Returns(0);
      }
      r := CopyDown(s, p);
      over := !r.Returns?;
    }

    /** The strings of `l` stand packed from `p` up to `p0`, in pages that are there. */
    ghost predicate Copied(l: seq<seq<byte>>, p: nat, p0: nat)
      reads this, page, mem
    {
      && mem.Length == ARG_BYTES && p <= p0 <= ARG_BYTES && PagesFrom(page[..], p)
      && p0 - p == |Packed(l)| && mem[p..p0] == Packed(l)
    }

    /** copy_strings: the strings from the last down to the first, below `p0`. */
    method CopyStrings(argv: seq<seq<byte>>, p0: nat) returns (r: Outcome)
      requires Valid() && p0 <= ARG_BYTES && (p0 != 0 ==> PagesFrom(page[..], p0)) && Short(argv)
      modifies this, page, mem
      ensures Valid() && mem[p0..] == old(mem[p0..]) && r == Copy(argv, p0, old(free))
      ensures r.Returns? && r.p != 0 ==>
        Copied(argv, r.p, p0) && free == old(free) - (PagesNeeded(r.p) - PagesNeeded(p0))
    {
      var argc, p := |argv|, p0;
      assert argv[argc..] == [] && argv[..argc] == argv;
      while argc > 0
        invariant 0 <= argc <= |argv| && Valid() && mem[p0..] == old(mem[p0..])
        invariant if p0 == 0 then p == 0 && argc == |argv| else Copied(argv[argc..], p, p0)
        invariant free == old(free) - (PagesNeeded(p) - PagesNeeded(p0))
        invariant Copy(argv[..argc], p, free) == Copy(argv, p0, old(free))
      {
        argc := argc - 1;
        CopyLast(argv, argc, p, free);
        ghost var m, q := mem[..], p;
        var over;
        over, r := CopyString(argv[argc], p);
        if over {
          return;
        }
        p := r.p;
        PackedMore(argv, argc, m, mem[..], p, q, p0);
      }
      assert argv[0..] == argv && argv[..0] == [];
      r := Returns(p);
    }

    /** What is left to do before and after a string. */
    static lemma CopyLast(l: seq<seq<byte>>, i: nat, p: nat, free: int)
      requires i < |l|
      ensures |l[i]| >= p ==> Copy(l[..i + 1], p, free) == if p >= PAGE_SIZE then Panics else Stray
      ensures |l[i]| < p ==>
        var q := p - (|l[i]| + 1); var n := PagesNeeded(q) - PagesNeeded(p);
        Copy(l[..i + 1], p, free) == if n > free then Returns(0) else Copy(l[..i], q, free - n)
    {
      assert l[..i + 1][..i] == l[..i];
    }

    /** One string more on the pile. */
    static lemma PackedMore(l: seq<seq<byte>>, i: nat, m: seq<byte>, n: seq<byte>, p: nat, q: nat, p0: nat)
      requires i < |l| && p <= q <= p0 <= |m| == |n| && q - p == |l[i]| + 1
      requires n[q..] == m[q..] && n[p..q] == l[i] + [0] && m[q..p0] == Packed(l[i + 1..])
      ensures n[p..p0] == Packed(l[i..]) && |Packed(l[i..])| == |Packed(l[i + 1..])| + |l[i]| + 1
    {
      LastOf(l, i);
      assert n[q..p0] == n[q..][..p0 - q] == m[q..p0];
      assert n[p..p0] == n[p..q] + n[q..p0];
    }

    static lemma LastOf(l: seq<seq<byte>>, i: nat)
      requires i < |l|
      ensures |Packed(l[..i + 1])| == |Packed(l[..i])| + |l[i]| + 1
      ensures Packed(l[i..]) == l[i] + [0] + Packed(l[i + 1..])
    {
      var one := [l[i]];
      assert l[..i + 1] == l[..i] + one;
      PackedConcat(l[..i], one);
      var none: seq<seq<byte>> := [];
      assert one[1..] == none && l[i..][1..] == l[i + 1..];
    }
  }

  /** put_fs_long */
  method PutLong(mem: array<byte>, v: nat, a: nat)
    requires a + 4 <= mem.Length && v < U32
    modifies mem
    ensures Long(mem[..], a) == v
    ensures Outside(old(mem[..]), mem[..], a, a + 4)
  {
    DigitsMake(v);
    mem[a], mem[a + 1], mem[a + 2], mem[a + 3] := Digit(v, 0), Digit(v, 1), Digit(v, 2), Digit(v, 3);
  }

  /** The pointers so far: `k` of them from `a` on. */
  ghost predicate PointersTo(mem: seq<byte>, a: nat, p: nat, l: seq<seq<byte>>, k: nat) {
    k <= |l| && a + 4 * k <= |mem|
    && forall j {:trigger Start(l, j)} :: 0 <= j < k ==> Long(mem, a + 4 * j) == p + Start(l, j)
  }

  /** A store beside them leaves the pointers. */
  lemma PointersKept(m: seq<byte>, n: seq<byte>, a: nat, p: nat, l: seq<seq<byte>>, k: nat, b: nat, hi: nat)
    requires PointersTo(m, a, p, l, k) && (hi <= a || a + 4 * k <= b) && Outside(m, n, b, hi)
    ensures PointersTo(n, a, p, l, k)
  {
    forall j {:trigger Start(l, j)} | 0 <= j < k ensures Long(n, a + 4 * j) == p + Start(l, j) {
      LongKept(m, n, a + 4 * j, b, hi);
    }
  }

  lemma HoldsKept(m: seq<byte>, n: seq<byte>, lo: nat, hi: nat, p: nat, l: seq<seq<byte>>)
    requires Holds(m, p, l) && Outside(m, n, lo, hi) && hi <= p
    ensures Holds(n, p, l)
  {
    assert n[p..p + |Packed(l)|] == m[p..p + |Packed(l)|];
  }

  /** "while (get_fs_byte(p++))": past the zero that ends string `i` of those packed at `p0`. */
  method SkipString(mem: array<byte>, p: nat, ghost p0: nat, ghost l: seq<seq<byte>>, ghost i: nat) returns (q: nat)
    requires i < |l| && Strs(l) && Holds(mem[..], p0, l) && p == p0 + Start(l, i)
    ensures q == p0 + Start(l, i + 1)
  {
    StartNext(l, i);
    ghost var s := l[i];
    q := p;
    ByteHeld(mem[..], p0, l, i, 0);
    while mem[q] != 0
      invariant p <= q <= p + |s| && q < mem.Length && mem[q] == if q - p < |s| then s[q - p] else 0
      decreases p + |s| - q
    {
      q := q + 1;
      ByteHeld(mem[..], p0, l, i, q - p);
    }
    q := q + 1;
  }

  /** One pointer of the table from `a0` on, of `n` words in all. */
  method PutPointer(mem: array<byte>, p: nat, k: nat, ghost p0: nat, ghost n: nat, ghost a0: nat, a: nat,
      ghost l: seq<seq<byte>>, ghost o: seq<byte>)
    requires a == a0 + 4 * k && k < n && p < U32 && a0 + 4 * n <= p0
    requires Outside(o, mem[..], a0, a0 + 4 * n) && Holds(o, p0, l) && PointersTo(mem[..], a0, p0, l, k)
    modifies mem
    ensures Outside(o, mem[..], a0, a0 + 4 * n) && Holds(mem[..], p0, l) && Long(mem[..], a) == p
    ensures PointersTo(mem[..], a0, p0, l, k)
  {
    ghost var m := mem[..];
    PutLong(mem, p, a);
    PointersKept(m, mem[..], a0, p0, l, k, a, a + 4);
    OutsideTrans(o, m, mem[..], a0, a0 + 4 * n, a, a + 4, a0, a0 + 4 * n);
    HoldsKept(o, mem[..], a0, a0 + 4 * n, p0, l);
  }

  lemma OnePointer(m: seq<byte>, a: nat, p: nat, l: seq<seq<byte>>, k: nat)
    requires PointersTo(m, a, p, l, k) && k < |l| && a + 4 * k + 4 <= |m| && Long(m, a + 4 * k) == p + Start(l, k)
    ensures PointersTo(m, a, p, l, k + 1)
  {
  }

  /** One of the two loops of create_tables: the pointers to the strings packed at `p0`, from `a0` on, and a null
      pointer. */
  method PutPointers(mem: array<byte>, p0: nat, n: nat, a0: nat, ghost l: seq<seq<byte>>) returns (p: nat)
    requires n == |l| && Strs(l) && Holds(mem[..], p0, l) && a0 + 4 * n + 4 <= p0 && p0 + |Packed(l)| < U32
    modifies mem
    ensures Pointers(mem[..], a0, p0, l) && p == p0 + |Packed(l)|
    ensures Outside(old(mem[..]), mem[..], a0, a0 + 4 * n + 4)
  {
    p := p0;
    var a := a0;
    var k := 0;
    ghost var o := mem[..];
    while k < n
      invariant k <= n && a == a0 + 4 * k && p == p0 + Start(l, k)
      invariant Outside(o, mem[..], a0, a0 + 4 * (n + 1)) && Holds(mem[..], p0, l)
      invariant PointersTo(mem[..], a0, p0, l, k)
    {
      StartIn(l, k);
      PutPointer(mem, p, k, p0, n + 1, a0, a, l, o);
      OnePointer(mem[..], a0, p0, l, k);
      p := SkipString(mem, p, p0, l, k);
      a := a + 4;
      k := k + 1;
    }
    StartLast(l);
    PutPointer(mem, 0, n, p0, n + 1, a0, a, l, o);
  }

  lemma PointersOutside(m: seq<byte>, n: seq<byte>, a: nat, p: nat, l: seq<seq<byte>>, lo: nat, hi: nat)
    requires Pointers(m, a, p, l) && Outside(m, n, lo, hi) && a + 4 * |l| + 4 <= lo
    ensures Pointers(n, a, p, l)
  {
    forall k {:trigger Start(l, k)} | 0 <= k < |l| ensures Long(n, a + 4 * k) == p + Start(l, k) {
      LongKept(m, n, a + 4 * k, lo, hi);
    }
    LongKept(m, n, a + 4 * |l|, lo, hi);
  }

  /** The first half of create_tables: the count and the argument pointers. */
  method PutArguments(mem: array<byte>, p: nat, sp: nat, argc: nat, ghost args: seq<seq<byte>>,
    ghost envs: seq<seq<byte>>) returns (p1: nat)
    requires argc == |args| && Strs(args) && mem.Length <= DATA_LIMIT && sp + 8 + 4 * argc <= p
    requires Holds(mem[..], p, args) && Holds(mem[..], p + |Packed(args)|, envs)
    modifies mem
    ensures p1 == p + |Packed(args)| && Long(mem[..], sp) == argc && Pointers(mem[..], sp + 4, p, args)
    ensures Outside(old(mem[..]), mem[..], sp, sp + 8 + 4 * argc) && Holds(mem[..], p1, envs)
  {
    ghost var m0 := mem[..];
    ghost var b := sp + 8 + 4 * argc;
    CountBounded(args);
    PutLong(mem, argc, sp);
    ghost var m1 := mem[..];
    HoldsKept(m0, m1, sp, sp + 4, p, args);
    p1 := PutPointers(mem, p, argc, sp + 4, args);
    ghost var m2 := mem[..];
    OutsideTrans(m0, m1, m2, sp, sp + 4, sp + 4, b, sp, b);
    HoldsKept(m0, m2, sp, b, p1, envs);
    LongKept(m1, m2, sp, sp + 4, b);
  }

  /** The environment pointers after them complete the tables. */
  lemma TablesMade(m0: seq<byte>, m1: seq<byte>, m2: seq<byte>, sp: nat, p: nat, args: seq<seq<byte>>,
    envs: seq<seq<byte>>)
    requires sp % 4 == 0 && sp + 4 * (|args| + |envs| + 3) <= p <= |m0|
    requires Outside(m0, m1, sp, sp + 8 + 4 * |args|) && Long(m1, sp) == |args| && Pointers(m1, sp + 4, p, args)
    requires Outside(m1, m2, sp + 8 + 4 * |args|, sp + 12 + 4 * |args| + 4 * |envs|)
    requires Pointers(m2, sp + 8 + 4 * |args|, p + |Packed(args)|, envs)
    ensures Tables(m2, sp, p, args, envs) && Outside(m0, m2, sp, p)
  {
    var b := sp + 8 + 4 * |args|;
    var c := b + 4 + 4 * |envs|;
    PointersOutside(m1, m2, sp + 4, p, args, b, c);
    LongKept(m1, m2, sp, b, c);
    OutsideTrans(m0, m1, m2, sp, b, b, c, sp, p);
  }

  /** The second half: the environment pointers. */
  method PutEnvironment(mem: array<byte>, p1: nat, envp: nat, envc: nat, ghost m0: seq<byte>, ghost sp: nat,
    ghost p: nat,
      ghost args: seq<seq<byte>>, ghost envs: seq<seq<byte>>)
    requires envc == |envs| && Strs(envs) && Holds(mem[..], p1, envs) && mem.Length <= DATA_LIMIT
    requires p1 == p + |Packed(args)| && envp == sp + 8 + 4 * |args|
    requires sp % 4 == 0 && sp + 4 * (|args| + |envs| + 3) <= p <= |m0| && Outside(m0, mem[..], sp, envp)
    requires Long(mem[..], sp) == |args| && Pointers(mem[..], sp + 4, p, args)
    modifies mem
    ensures Tables(mem[..], sp, p, args, envs) && Outside(m0, mem[..], sp, p)
  {
    ghost var m1 := mem[..];
    var p2 := PutPointers(mem, p1, envc, envp, envs);
    TablesMade(m0, m1, mem[..], sp, p, args, envs);
  }

  /** create_tables, with the strings of both lists at `p`; returns the stack pointer. */
  method CreateTables(mem: array<byte>, p: nat, argc: nat, envc: nat, ghost args: seq<seq<byte>>,
    ghost envs: seq<seq<byte>>)
    returns (sp: nat)
    requires argc == |args| && envc == |envs| && Strs(args) && Strs(envs) && mem.Length <= DATA_LIMIT
    requires Holds(mem[..], p, args) && Holds(mem[..], p + |Packed(args)|, envs)
    requires 4 * (argc + envc + 3) + 3 <= p
    modifies mem
    ensures Tables(mem[..], sp, p, args, envs)
    ensures Outside(old(mem[..]), mem[..], sp, p) && sp == p / 4 * 4 - 4 * (argc + envc + 3)
  {
    var envp := p - p % 4 - 4 * (envc + 1);
    var argv := envp - 4 * (argc + 1);
    sp := argv - 4;
    var p1 := PutArguments(mem, p, sp, argc, args, envs);
    PutEnvironment(mem, p1, envp, envc, old(mem[..]), sp, p, args, envs);
  }

  /** change_ldt: the pages that are there are put at the top of the data segment. */
  method MapPages(x: Exec, mem: array<byte>)
    requires x.Valid() && mem.Length == DATA_LIMIT && mem != x.mem
    modifies mem
    ensures forall i {:trigger mem[i]} :: 0 <= i < DATA_LIMIT ==>
      mem[i] == if i >= DATA_LIMIT - ARG_BYTES && x.page[(i - (DATA_LIMIT - ARG_BYTES)) / PAGE_SIZE]
      then x.mem[i - (DATA_LIMIT - ARG_BYTES)] else old(mem[i])
  {
    var base := DATA_LIMIT - ARG_BYTES;
    var i := MAX_ARG_PAGES;
    while i > 0
      invariant 0 <= i <= MAX_ARG_PAGES
      invariant forall k {:trigger mem[k]} :: 0 <= k < DATA_LIMIT ==>
        mem[k] == if k >= base + PAGE_SIZE * i && x.page[(k - base) / PAGE_SIZE] then x.mem[k - base] else old(mem[k])
    {
      i := i - 1;
      if x.page[i] {
        MapPage(x, mem, i);
      }
    }
  }

  method MapPage(x: Exec, mem: array<byte>, i: nat)
    requires x.Valid() && mem.Length == DATA_LIMIT && mem != x.mem && i < MAX_ARG_PAGES
    modifies mem
    ensures forall k {:trigger mem[k]} :: 0 <= k < DATA_LIMIT ==>
      mem[k] == if DATA_LIMIT - ARG_BYTES + PAGE_SIZE * i <= k < DATA_LIMIT - ARG_BYTES + PAGE_SIZE * (i + 1)
      then x.mem[k - (DATA_LIMIT - ARG_BYTES)] else old(mem[k])
  {
    var base := DATA_LIMIT - ARG_BYTES;
    var j := PAGE_SIZE * i;
    while j < PAGE_SIZE * (i + 1)
      invariant PAGE_SIZE * i <= j <= PAGE_SIZE * (i + 1)
      invariant forall k {:trigger mem[k]} :: 0 <= k < DATA_LIMIT ==>
        mem[k] == if base + PAGE_SIZE * i <= k < base + j then x.mem[k - base] else old(mem[k])
    {
      mem[base + j] := x.mem[j];
      j := j + 1;
    }
  }

  /** What do_execve does for its lists: the new stack pointer, -1, or one of the two ends of copy_strings that are
      none. */
  datatype Carried = Delivered(sp: nat) | NoMemory | Broken

  /** The program finds its lists; the strings end at the top of its 64 MB and the tables lie right below them, at the
      next multiple of 4. */
  ghost predicate InPlace(mem: seq<byte>, sp: nat, argv: seq<seq<byte>>, envp: seq<seq<byte>>) {
    var p := 0x4000000 - |Packed(argv)| - |Packed(envp)|;
    && |mem| == 0x4000000 && 0 < sp < p && mem[p..] == Packed(argv) + Packed(envp)
    && sp == p / 4 * 4 - 4 * (|argv| + |envp| + 3) && Finds(mem, sp, argv, envp)
  }

  /** The part of do_execve that carries arguments and environment over, into the memory of the new program. */
  method Carry(x: Exec, mem: array<byte>, argv: seq<seq<byte>>, envp: seq<seq<byte>>) returns (r: Carried)
    requires x.Valid() && PagesFrom(x.page[..], ARG_BYTES) && mem.Length == DATA_LIMIT && mem != x.mem
    requires Strs(argv) && Strs(envp) && Short(argv) && Short(envp)
    modifies x, x.page, x.mem, mem
    ensures var n := |Packed(argv)| + |Packed(envp)|;
      && (r.Delivered? <==> Enough(n, old(x.free)))
      && (r.Broken? <==> !CopyBoth(argv, envp, old(x.free)).Returns?)
      && (n < ARG_BYTES ==> (r.Broken? <==> !Enough(|Packed(envp)|, old(x.free)) && argv != []))
    ensures r.Delivered? ==> InPlace(mem[..], r.sp, argv, envp)
  {
    CopyBothMeans(argv, envp, x.free);
    var o := x.CopyStrings(envp, ARG_BYTES);
    if !o.Returns? {
      return Broken;
    }
    var e := o.p;
    ghost var all := x.mem[e..];
    o := x.CopyStrings(argv, e);
    if !o.Returns? {
      return Broken;
    }
    if o.p == 0 {
      return NoMemory;
    }
    assert x.mem[e..] == all == all[..ARG_BYTES - e];
    var sp := Deliver(x, mem, o.p, e, argv, envp);
    r := Delivered(sp);
  }

  method Deliver(x: Exec, mem: array<byte>, p: nat, ghost e: nat, argv: seq<seq<byte>>,
    envp: seq<seq<byte>>) returns (sp: nat)
    requires x.Valid() && mem.Length == DATA_LIMIT && mem != x.mem && Strs(argv) && Strs(envp)
    requires 0 < p && p + |Packed(argv)| == e && e + |Packed(envp)| == ARG_BYTES && PagesFrom(x.page[..], p)
    requires x.mem[p..e] == Packed(argv) && x.mem[e..] == Packed(envp)
    modifies mem
    ensures InPlace(mem[..], sp, argv, envp)
  {
    MapPages(x, mem);
    var q := p + (DATA_LIMIT - ARG_BYTES);
    ghost var top := e + (DATA_LIMIT - ARG_BYTES);
    forall i | q <= i < DATA_LIMIT ensures mem[i] == x.mem[i - (DATA_LIMIT - ARG_BYTES)] {
      assert x.page[..][(i - (DATA_LIMIT - ARG_BYTES)) / PAGE_SIZE];
    }
    assert mem[q..top] == x.mem[p..e] && mem[top..] == x.mem[e..];
    CountBounded(argv);
    CountBounded(envp);
    ghost var m := mem[..];
    assert m[top..top + |Packed(envp)|] == m[top..];
    sp := CreateTables(mem, q, |argv|, |envp|, argv, envp);
    HoldsKept(m, mem[..], sp, q, q, argv);
    HoldsKept(m, mem[..], sp, q, top, envp);
    TablesReadBack(mem[..], sp, q, argv, envp);
    TwoParts(m, q, top, Packed(argv), Packed(envp));
    AboveKept(m, mem[..], sp, q);
  }

  lemma TwoParts(m: seq<byte>, q: nat, top: nat, a: seq<byte>, b: seq<byte>)
    requires q <= top <= |m| && m[q..top] == a && m[top..] == b
    ensures m[q..] == a + b
  {
  }

  lemma AboveKept(m: seq<byte>, n: seq<byte>, lo: nat, q: nat)
    requires Outside(m, n, lo, q) && q <= |m|
    ensures n[q..] == m[q..]
  {
  }
}
