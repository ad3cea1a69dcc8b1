/** The block map of a file and the zone bitmap: fs/inode.c _bmap, fs/bitmap.c new_block and free_block, and what
  fs/truncate.c leaves behind. Blocks are 1024 bytes; a pointer block holds 512 little-endian 16-bit zone numbers. */
module Zones {
  import opened Bytes

  const BLOCK: nat := 1024
  const PTRS: nat := 512
  const MAX_BLOCKS: nat := 7 + 512 + 512 * 512
  const MAP_SLOTS: nat := 8
  const SLOT_BITS: nat := 8192

  function ZeroBlock(): (z: seq<byte>)
    ensures |z| == BLOCK && forall i :: 0 <= i < BLOCK ==> z[i] == 0
  {
    seq(BLOCK, i => 0)
  }

  /** Entry `k` of a pointer block. */
  function Ptr(b: seq<byte>, k: nat): nat
    requires |b| == BLOCK && k < PTRS
  {
    (b[2 * k] as nat) + 256 * (b[2 * k + 1] as nat)
  }

  function SetPtr(b: seq<byte>, k: nat, v: nat): (c: seq<byte>)
    requires |b| == BLOCK && k < PTRS && v < 0x10000
    ensures |c| == BLOCK && forall j :: 0 <= j < PTRS ==> Ptr(c, j) == if j == k then v else Ptr(b, j)
  {
    b[2 * k := v % 256][2 * k + 1 := v / 256]
  }

  /** `plain` is what truncate tests: a regular file or a directory. */
  datatype Inode = Inode(zone: seq<nat>, size: nat, plain: bool)

  /** `bits` are the positions set in the zone map, which holds `nbits` of them; position j stands for zone
      first + j - 1. */
  datatype Fs = Fs(bits: set<nat>, nbits: nat, first: nat, nzones: nat, blocks: seq<seq<byte>>, inodes: seq<Inode>)

  predicate Shape(s: Fs) {
    && 1 <= s.first <= s.nzones < 0x10000 && s.nbits <= MAP_SLOTS * SLOT_BITS
    && |s.blocks| == s.nzones && (forall b :: 0 <= b < s.nzones ==> |s.blocks[b]| == BLOCK)
    && (forall n :: 0 <= n < |s.inodes| ==> |s.inodes[n].zone| == 9)
  }

  function Block(s: Fs, b: nat): (c: seq<byte>)
    requires Shape(s)
    ensures |c| == BLOCK
  {
    if b < s.nzones then s.blocks[b] else ZeroBlock()
  }

  // ---------------------------------------------------------------------------------------------------------
  // Pointer locations

  /** The places a zone number can stand: in an inode, in its indirect block, in its double-indirect block, and in
      the blocks that one names. */
  datatype Loc = Zone(n: nat, k: nat) | Ind(n: nat, k: nat) | Dind(n: nat, k: nat) | Leaf(n: nat, j: nat, k: nat)

  predicate IsLoc(s: Fs, l: Loc) {
    l.n < |s.inodes| &&
    match l
    case Zone(_, k) => k < 9
    case Ind(_, k) => k < PTRS
    case Dind(_, k) => k < PTRS
    case Leaf(_, j, k) => j < PTRS && k < PTRS
  }

  /** The block whose bytes hold the location, 0 for one in an inode or below a hole. */
  function Holder(s: Fs, l: Loc): nat
    requires Shape(s)
  {
    if !IsLoc(s, l) then 0 else
    match l
    case Zone(_, _) => 0
    case Ind(n, _) => s.inodes[n].zone[7]
    case Dind(n, _) => s.inodes[n].zone[8]
    case Leaf(n, j, _) => if s.inodes[n].zone[8] == 0 then 0 else Ptr(Block(s, s.inodes[n].zone[8]), j)
  }

  /** The zone number at a location, 0 when there is none. */
  function At(s: Fs, l: Loc): nat
    requires Shape(s)
  {
    if !IsLoc(s, l) then 0 else
    if l.Zone? then s.inodes[l.n].zone[l.k] else
    if Holder(s, l) == 0 then 0 else Ptr(Block(s, Holder(s, l)), l.k)
  }

  function Bit(s: Fs, b: nat): int { b - s.first + 1 }

  ghost predicate Owned(s: Fs, b: nat)
    requires Shape(s)
  {
    exists l :: At(s, l) == b
  }

  ghost predicate InRange(s: Fs)
    requires Shape(s)
  {
    forall l :: At(s, l) != 0 ==> s.first <= At(s, l) < s.nzones && Bit(s, At(s, l)) in s.bits
  }

  ghost predicate Distinct(s: Fs)
    requires Shape(s)
  {
    forall l, m :: At(s, l) != 0 && At(s, l) == At(s, m) ==> l == m
  }

  /** Every set bit that stands for a zone is the reserved bit 0 or belongs to some file. */
  ghost predicate NoLeak(s: Fs)
    requires Shape(s)
  {
    forall b :: s.first <= b < s.nzones && Bit(s, b) in s.bits ==> Owned(s, b)
  }

  ghost predicate Inv(s: Fs) {
    Shape(s) && 0 in s.bits && InRange(s) && Distinct(s) && NoLeak(s)
  }

  // ---------------------------------------------------------------------------------------------------------
  // new_block

  /** The first clear bit from position `j`, or `n`. */
  function FirstClear(bits: set<nat>, j: nat, n: nat): (r: nat)
    requires j <= n
    ensures j <= r <= n && (r < n ==> r !in bits) && forall k :: j <= k < r ==> k in bits
    decreases n - j
  {
    if j == n || j !in bits then j else FirstClear(bits, j + 1, n)
  }

  /** new_block: 0 when every bit is set, and also when the first clear bit lies beyond the last zone; in that case
      the bit stays set. */
  function NewBlock(s: Fs): (r: (Fs, nat))
    requires Shape(s)
    ensures Shape(r.0)
  {
    var j := FirstClear(s.bits, 0, s.nbits);
    if j == s.nbits then (s, 0) else
    var s1 := s.(bits := s.bits + {j});
    var b := j + s.first - 1;
    if b >= s.nzones then (s1, 0) else (s1.(blocks := s1.blocks[b := ZeroBlock()]), b)
  }

  /** Every bit that stands for a zone is set. */
  ghost predicate Full(s: Fs) {
    forall b :: s.first <= b < s.nzones && Bit(s, b) < s.nbits ==> Bit(s, b) in s.bits
  }

  /** The first clear bit, but past the last zone. */
  ghost predicate Wasted(s: Fs, j: nat) {
    j < s.nbits && j !in s.bits && (forall k: nat :: k < j ==> k in s.bits) && j + s.first - 1 >= s.nzones
  }

  /** new_block takes the first clear bit of the zone map. If it stands for a zone, that comes back, nobody's and
      zeroed; if it lies past the last zone, it is set all the same, for nothing. */
  lemma NewBlockIsFresh(s: Fs)
    requires Inv(s)
    ensures var (t, b) := NewBlock(s);
      && (b == 0 <==> Full(s)) && (b == 0 ==> Inv(t) && Full(t))
      && (b != 0 ==> s.first <= b < s.nzones && !Owned(s, b) && Bit(s, b) !in s.bits)
      && (b != 0 ==> t == s.(bits := s.bits + {Bit(s, b)}, blocks := s.blocks[b := ZeroBlock()]))
      && (forall l :: At(t, l) == At(s, l))
      && (b != 0 ==> forall j: nat :: j < b - s.first + 1 ==> j in s.bits)
      && (b == 0 ==> t == s.(bits := t.bits) && forall j: nat ::
        j in t.bits <==> j in s.bits || (Wasted(s, j) && t != s))
  {
    var (t, b) := NewBlock(s);
    var j := FirstClear(s.bits, 0, s.nbits);
    if b != 0 {
      assert Bit(s, b) == j;
      ZeroingKeepsAt(s, b);
    } else {
      assert forall l :: At(t, l) == At(s, l);
      NoLeakKept(s, t);
      if j < s.nbits {
        forall c | s.first <= c < s.nzones ensures Bit(s, c) in s.bits { }
      }
    }
  }

  lemma NoLeakKept(s: Fs, t: Fs)
    requires Inv(s) && Shape(t) && t.first == s.first && t.nzones == s.nzones
    requires forall c :: s.first <= c < s.nzones && Bit(t, c) in t.bits ==> Bit(s, c) in s.bits
    requires forall l :: At(t, l) == At(s, l)
    ensures NoLeak(t)
  {
    forall c | s.first <= c < s.nzones && Bit(t, c) in t.bits ensures Owned(t, c) {
      assert Owned(s, c);
      var l :| At(s, l) == c;
      assert At(t, l) == c;
    }
  }

  /** No file can see a free block being cleared. */
  lemma ZeroingKeepsAt(s: Fs, b: nat)
    requires Inv(s) && s.first <= b < s.nzones && Bit(s, b) !in s.bits
    ensures !Owned(s, b)
    ensures var t := s.(bits := s.bits + {Bit(s, b)}, blocks := s.blocks[b := ZeroBlock()]);
      forall l :: At(t, l) == At(s, l)
  {
    var t := s.(bits := s.bits + {Bit(s, b)}, blocks := s.blocks[b := ZeroBlock()]);
    assert !Owned(s, b);
    forall l ensures At(t, l) == At(s, l) {
      if IsLoc(s, l) && !l.Zone? && Holder(s, l) != 0 {
        HolderAt(s, l);
        if l.Leaf? { assert At(s, Zone(l.n, 8)) != b; }
      }
    }
  }

  /** The location that holds a pointer block's own number. */
  function Parent(l: Loc): Loc {
    match l
    case Zone(n, k) => l
    case Ind(n, _) => Zone(n, 7)
    case Dind(n, _) => Zone(n, 8)
    case Leaf(n, j, _) => Dind(n, j)
  }

  lemma HolderAt(s: Fs, l: Loc)
    requires Shape(s) && IsLoc(s, l) && !l.Zone?
    ensures IsLoc(s, Parent(l)) && At(s, Parent(l)) == Holder(s, l)
  {
  }

  // ---------------------------------------------------------------------------------------------------------
  // Filling a location

  /** At most the zones of inode `n` differ. */
  ghost predicate OneInode(s: Fs, t: Fs, n: nat) {
    && |t.inodes| == |s.inodes|
    && (forall m {:trigger t.inodes[m]} :: 0 <= m < |s.inodes| ==>
      (if m == n then t.inodes[m].size == s.inodes[m].size && t.inodes[m].plain == s.inodes[m].plain
        else t.inodes[m] == s.inodes[m]))
  }

  /** Store a zone number at a location. */
  function Put(s: Fs, l: Loc, b: nat): (t: Fs)
    requires Shape(s) && IsLoc(s, l) && b < 0x10000
    ensures Shape(t) && OneInode(s, t, l.n)
  {
    if l.Zone? then
      s.(inodes := s.inodes[l.n := s.inodes[l.n].(zone := s.inodes[l.n].zone[l.k := b])])
    else
      var h := Holder(s, l);
      if 0 < h < s.nzones then s.(blocks := s.blocks[h := SetPtr(s.blocks[h], l.k, b)]) else s
  }

  /** Filling an empty location with a zeroed block nobody owns changes that location only. */
  lemma PutAt(s: Fs, l: Loc, b: nat)
    requires Shape(s) && IsLoc(s, l) && s.first <= b < s.nzones && s.blocks[b] == ZeroBlock()
    requires InRange(s) && Distinct(s) && !Owned(s, b)
    requires At(s, l) == 0 && (!l.Zone? ==> Holder(s, l) != 0)
    ensures !l.Zone? ==> Holder(s, l) < s.nzones
    ensures forall m :: At(Put(s, l, b), m) == if m == l then b else At(s, m)
  {
    if !l.Zone? { HolderAt(s, l); }
    var t := Put(s, l, b);
    forall m ensures At(t, m) == if m == l then b else At(s, m) {
      if IsLoc(s, m) {
        PutAtOne(s, l, b, m);
      }
    }
  }

  lemma PutAtOne(s: Fs, l: Loc, b: nat, m: Loc)
    requires Shape(s) && IsLoc(s, l) && IsLoc(s, m) && s.first <= b < s.nzones && s.blocks[b] == ZeroBlock()
    requires InRange(s) && Distinct(s) && !Owned(s, b)
    requires At(s, l) == 0 && (!l.Zone? ==> 0 < Holder(s, l) < s.nzones)
    ensures At(Put(s, l, b), m) == if m == l then b else At(s, m)
    decreases m.Leaf?
  {
    var t := Put(s, l, b);
    if !l.Zone? { HolderAt(s, l); }
    match m
    case Zone(n, k) =>
    case Ind(n, k) => HolderAt(s, m); PutInBlock(s, l, b, m);
    case Dind(n, k) => HolderAt(s, m); PutInBlock(s, l, b, m);
    case Leaf(n, j, k) =>
      HolderAt(s, m);
      PutAtOne(s, l, b, Dind(n, j));
      assert At(t, Dind(n, j)) == Holder(t, m);
      PutInBlock(s, l, b, m);
  }

  /** The step from a pointer block's number to its entries. */
  lemma PutInBlock(s: Fs, l: Loc, b: nat, m: Loc)
    requires Shape(s) && IsLoc(s, l) && IsLoc(s, m) && !m.Zone? && s.first <= b < s.nzones && s.blocks[b] == ZeroBlock()
    requires InRange(s) && Distinct(s) && !Owned(s, b)
    requires At(s, l) == 0 && (!l.Zone? ==> 0 < Holder(s, l) < s.nzones)
    requires Holder(s, m) == At(s, Parent(m))
    requires Holder(Put(s, l, b), m) == if Parent(m) == l then b else At(s, Parent(m))
    ensures At(Put(s, l, b), m) == if m == l then b else At(s, m)
  {
    var t := Put(s, l, b);
    if Parent(m) == l {
      assert At(s, m) == 0;
      assert t.blocks[b] == ZeroBlock() by {
        if !l.Zone? { HolderAt(s, l); assert At(s, Parent(l)) != b; }
      }
      assert Ptr(ZeroBlock(), m.k) == 0;
    } else if Holder(s, m) != 0 && !l.Zone? {
      HolderAt(s, l);
      assert Holder(s, m) == Holder(s, l) <==> Parent(m) == Parent(l);
    }
  }

  // ---------------------------------------------------------------------------------------------------------
  // _bmap

  /** "if (create && !p) p = new_block(dev)" for the pointer at a location. */
  function Ensure(s: Fs, l: Loc, create: bool): (r: (Fs, nat))
    requires Shape(s) && IsLoc(s, l)
    ensures Shape(r.0) && OneInode(s, r.0, l.n)
  {
    if !create || At(s, l) != 0 then (s, At(s, l)) else
    var (t, b) := NewBlock(s);
    if b == 0 then (t, 0) else (Put(t, l, b), b)
  }

  /** What creating a block may do: set bits, add pointers where there were none, zero the blocks added. */
  ghost predicate Grown(s: Fs, t: Fs)
    requires Shape(s) && Shape(t)
  {
    && t.first == s.first && t.nzones == s.nzones && t.nbits == s.nbits && |t.inodes| == |s.inodes|
    && (forall n :: 0 <= n < |s.inodes| ==>
      t.inodes[n].size == s.inodes[n].size && t.inodes[n].plain == s.inodes[n].plain)
    && (forall l {:trigger At(t, l)} {:trigger At(s, l)} :: At(s, l) != 0 ==> At(t, l) == At(s, l))
  }

  /** What _bmap with `create` does at one location. */
  ghost predicate Ensured(s: Fs, r: (Fs, nat), l: Loc)
    requires Shape(s) && Shape(r.0)
  {
    var (t, b) := r;
    && Inv(t) && Grown(s, t) && At(t, l) == b
    && (forall m {:trigger At(t, m)} :: m != l ==> At(t, m) == At(s, m))
    && (At(s, l) != 0 ==> t == s)
    && (b == 0 ==> Full(t) && t.blocks == s.blocks)
    && (At(s, l) == 0 && b != 0 ==> !Owned(s, b) && t.blocks[b] == ZeroBlock())
    && (forall c {:trigger t.blocks[c]} :: 0 <= c < s.nzones && c != Holder(s, l) && c != b ==>
      t.blocks[c] == s.blocks[c])
  }

  lemma EnsureKeeps(s: Fs, l: Loc)
    requires Inv(s) && IsLoc(s, l) && (!l.Zone? ==> Holder(s, l) != 0)
    ensures !l.Zone? ==> Holder(s, l) < s.nzones
    ensures Ensured(s, Ensure(s, l, true), l)
  {
    if !l.Zone? { HolderAt(s, l); }
    if At(s, l) == 0 {
      var t, b := NewBlock(s).0, NewBlock(s).1;
      NewBlockIsFresh(s);
      if b != 0 {
        EnsurePuts(s, t, b, l);
      }
    }
  }

  lemma EnsurePuts(s: Fs, t: Fs, b: nat, l: Loc)
    requires Inv(s) && IsLoc(s, l) && (!l.Zone? ==> 0 < Holder(s, l) < s.nzones) && At(s, l) == 0
    requires s.first <= b < s.nzones && !Owned(s, b) && Bit(s, b) !in s.bits
    requires t == s.(bits := s.bits + {Bit(s, b)}, blocks := s.blocks[b := ZeroBlock()])
    requires forall m :: At(t, m) == At(s, m)
    ensures Ensured(s, (Put(t, l, b), b), l)
  {
    if !l.Zone? { HolderAt(s, l); HolderAt(t, l); }
    assert forall m :: At(t, m) == b ==> At(s, m) == b;
    PutAt(t, l, b);
    var u := Put(t, l, b);
    PutKeepsInv(s, u, b, l);
    PutFrame(t, l, b);
    assert Holder(t, l) != b by {
      if !l.Zone? { assert At(s, Parent(l)) != b; }
    }
    assert Grown(s, u);
  }

  lemma PutFrame(s: Fs, l: Loc, b: nat)
    requires Shape(s) && IsLoc(s, l) && b < 0x10000
    ensures var t := Put(s, l, b);
      && t.bits == s.bits && t.nbits == s.nbits && t.first == s.first && t.nzones == s.nzones
      && (forall n :: 0 <= n < |s.inodes| ==>
        t.inodes[n].size == s.inodes[n].size && t.inodes[n].plain == s.inodes[n].plain)
      && (forall c {:trigger t.blocks[c]} :: 0 <= c < s.nzones && c != Holder(s, l) ==> t.blocks[c] == s.blocks[c])
  {
  }

  lemma PutKeepsInv(s: Fs, u: Fs, b: nat, l: Loc)
    requires Inv(s) && Shape(u) && At(s, l) == 0 && s.first <= b < s.nzones && !Owned(s, b)
    requires u.first == s.first && u.nzones == s.nzones && u.bits == s.bits + {Bit(s, b)}
    requires forall m {:trigger At(u, m)} :: At(u, m) == if m == l then b else At(s, m)
    ensures Inv(u)
  {
    forall c | s.first <= c < s.nzones && Bit(u, c) in u.bits ensures Owned(u, c) {
      if c == b {
        assert At(u, l) == b;
      } else {
        assert Owned(s, c);
        var m :| At(s, m) == c;
        assert At(u, m) == c;
      }
    }
    forall m, k | At(u, m) != 0 && At(u, m) == At(u, k) ensures m == k {
      assert At(s, m) != b && At(s, k) != b;
    }
  }

  /** Where the number of a file's block stands. */
  function DataLoc(n: nat, block: nat): (l: Loc)
    requires block < MAX_BLOCKS
    ensures IsData(l) && l.n == n
  {
    if block < 7 then Zone(n, block)
    else if block - 7 < 512 then Ind(n, block - 7)
    else Leaf(n, (block - 7 - 512) / 512, (block - 7 - 512) % 512)
  }

  predicate IsData(l: Loc) {
    match l
    case Zone(_, k) => k < 7
    case Ind(_, k) => k < PTRS
    case Dind(_, _) => false
    case Leaf(_, j, k) => j < PTRS && k < PTRS
  }

  lemma DataLocInjective(n: nat, b: nat, m: nat, c: nat)
    requires b < MAX_BLOCKS && c < MAX_BLOCKS && DataLoc(n, b) == DataLoc(m, c)
    ensures n == m && b == c
  {
  }

  /** _bmap, for a block number its two panics let through. */
  function Bmap(s: Fs, n: nat, block: nat, create: bool): (r: (Fs, nat))
    requires Shape(s) && n < |s.inodes| && block < MAX_BLOCKS
    ensures Shape(r.0) && OneInode(s, r.0, n)
  {
    if block < 7 then Ensure(s, Zone(n, block), create)
    else if block - 7 < 512 then
      var (s1, i) := Ensure(s, Zone(n, 7), create);
      if i == 0 then (s1, 0) else Ensure(s1, Ind(n, block - 7), create)
    else
      var b := block - 7 - 512;
      var (s1, i) := Ensure(s, Zone(n, 8), create);
      if i == 0 then (s1, 0) else
      var (s2, j) := Ensure(s1, Dind(n, b / 512), create);
      if j == 0 then (s2, 0) else Ensure(s2, Leaf(n, b / 512, b % 512), create)
  }

  /** bmap changes nothing and returns what stands at the block's location. */
  lemma BmapReads(s: Fs, n: nat, block: nat)
    requires Shape(s) && n < |s.inodes| && block < MAX_BLOCKS
    ensures Bmap(s, n, block, false) == (s, At(s, DataLoc(n, block)))
  {
    if block >= 7 {
      HolderAt(s, DataLoc(n, block));
      if block - 7 >= 512 { HolderAt(s, Dind(n, (block - 7 - 512) / 512)); }
    }
  }

  /** The 16-bit number at word `k` of block `b`. */
  function WordOf(s: Fs, b: nat, k: nat): nat
    requires Shape(s) && b < s.nzones && k < 512
  {
    (s.blocks[b][2 * k] as nat) + 256 * (s.blocks[b][2 * k + 1] as nat)
  }

  /** The layout of a file on the disk. Blocks 0 to 6 are those the inode names; blocks 7 to 518 those named in turn in
      the one that zone 7 names, from its first word on; and block 519 + 512 * j + k is named by word k of the block
      named by word j of the one that zone 8 names. */
  lemma BmapLayout(s: Fs, n: nat, block: nat)
    requires Inv(s) && n < |s.inodes| && block < 7 + 512 + 512 * 512
    ensures var z, r := s.inodes[n].zone, Bmap(s, n, block, false).1;
      && |z| == 9 && z[7] < s.nzones && z[8] < s.nzones
      && (block < 7 ==> r == z[block])
      && (7 <= block < 519 ==> r == if z[7] == 0 then 0 else WordOf(s, z[7], block - 7))
      && (block >= 519 && z[8] == 0 ==> r == 0)
      && (block >= 519 && z[8] != 0 ==>
        var i := WordOf(s, z[8], (block - 519) / 512);
        i < s.nzones && r == if i == 0 then 0 else WordOf(s, i, (block - 519) % 512))
  {
    BmapReads(s, n, block);
    var z := s.inodes[n].zone;
    assert At(s, Zone(n, 7)) == z[7] && At(s, Zone(n, 8)) == z[8];
    if block >= 519 && z[8] != 0 {
      var d := Dind(n, (block - 519) / 512);
      assert At(s, d) == WordOf(s, z[8], (block - 519) / 512);
    }
  }

  /** No file's data has moved or changed, except that `l` may have got a block. */
  ghost predicate SameData(s: Fs, t: Fs, l: Loc)
    requires Shape(s) && Shape(t)
  {
    && (forall m {:trigger At(t, m)} {:trigger At(s, m)} :: IsData(m) && m != l ==> At(t, m) == At(s, m))
    && (forall m {:trigger At(t, m)} {:trigger At(s, m)} :: IsData(m) && At(s, m) != 0 ==>
      At(t, m) == At(s, m) && Block(t, At(s, m)) == Block(s, At(s, m)))
  }

  lemma EnsuredData(s: Fs, r: (Fs, nat), l: Loc)
    requires Inv(s) && IsLoc(s, l) && Shape(r.0) && Ensured(s, r, l)
    ensures SameData(s, r.0, l)
  {
    var t := r.0;
    forall m {:trigger At(t, m)} {:trigger At(s, m)} | IsData(m) && At(s, m) != 0
      ensures At(t, m) == At(s, m) && Block(t, At(s, m)) == Block(s, At(s, m))
    {
      if At(s, l) == 0 && r.1 != 0 {
        if !l.Zone? { HolderAt(s, l); assert Parent(l) != m; }
        assert At(s, m) != Holder(s, l) && At(s, m) != r.1;
      }
    }
  }

  /** What create_block does, at every depth of the tree. */
  ghost predicate Created(s: Fs, r: (Fs, nat), l: Loc)
    requires Shape(s) && Shape(r.0)
  {
    var (t, b) := r;
    && Inv(t) && Grown(s, t) && At(t, l) == b && SameData(s, t, l)
    && (At(s, l) != 0 ==> t == s)
    && (b == 0 ==> Full(t))
    && (At(s, l) == 0 && b != 0 ==> !Owned(s, b) && Block(t, b) == ZeroBlock())
  }

  lemma EnsureCreates(s: Fs, l: Loc)
    requires Inv(s) && IsLoc(s, l) && IsData(l) && (!l.Zone? ==> Holder(s, l) != 0)
    ensures Created(s, Ensure(s, l, true), l)
  {
    EnsureKeeps(s, l);
    EnsuredData(s, Ensure(s, l, true), l);
  }

  /** Creating below a pointer block that was just made sure of. */
  lemma Descend(s: Fs, l1: Loc, l: Loc, r: (Fs, nat))
    requires Inv(s) && IsLoc(s, l1) && !IsData(l1) && IsData(l) && (!l1.Zone? ==> Holder(s, l1) != 0)
    requires At(s, l) != 0 ==> At(s, l1) != 0
    requires Inv(Ensure(s, l1, true).0) && Shape(r.0)
    requires if Ensure(s, l1, true).1 == 0 then r == Ensure(s, l1, true) else Created(Ensure(s, l1, true).0, r, l)
    ensures Created(s, r, l)
  {
    EnsureKeeps(s, l1);
    var s1 := Ensure(s, l1, true).0;
    EnsuredData(s, Ensure(s, l1, true), l1);
    if Ensure(s, l1, true).1 != 0 {
      assert Owned(s, r.1) && r.1 != 0 ==> Owned(s1, r.1) by {
        if m :| At(s, m) == r.1 && r.1 != 0 { assert At(s1, m) == r.1; }
      }
    }
  }

  /** create_block returns the block that bmap then finds; it disturbs no other block of any file; a block it adds
      was nobody's and is zero; it fails only when every zone is taken, and then no file has changed. */
  lemma CreateBlockKeeps(s: Fs, n: nat, block: nat)
    requires Inv(s) && n < |s.inodes| && block < MAX_BLOCKS
    ensures Created(s, Bmap(s, n, block, true), DataLoc(n, block))
  {
    var l := DataLoc(n, block);
    if block < 7 {
      EnsureCreates(s, l);
    } else if block - 7 < 512 {
      EnsureKeeps(s, Zone(n, 7));
      HolderAt(s, l);
      var s1 := Ensure(s, Zone(n, 7), true).0;
      if Ensure(s, Zone(n, 7), true).1 != 0 { HolderAt(s1, l); EnsureCreates(s1, l); }
      Descend(s, Zone(n, 7), l, Bmap(s, n, block, true));
    } else {
      var d := Dind(n, (block - 7 - 512) / 512);
      EnsureKeeps(s, Zone(n, 8));
      HolderAt(s, d);
      HolderAt(s, l);
      var s1 := Ensure(s, Zone(n, 8), true).0;
      if Ensure(s, Zone(n, 8), true).1 != 0 { HolderAt(s1, d); CreateLeaf(s1, d, l); }
      Descend(s, Zone(n, 8), l, Bmap(s, n, block, true));
    }
  }

  lemma CreateLeaf(s: Fs, d: Loc, l: Loc)
    requires Inv(s) && IsLoc(s, d) && d.Dind? && l.Leaf? && IsLoc(s, l) && Parent(l) == d && Holder(s, d) != 0
    ensures var (s2, j) := Ensure(s, d, true); Created(s, if j == 0 then (s2, 0) else Ensure(s2, l, true), l)
  {
    EnsureKeeps(s, d);
    HolderAt(s, l);
    var s2 := Ensure(s, d, true).0;
    if Ensure(s, d, true).1 != 0 { HolderAt(s2, l); EnsureCreates(s2, l); }
    Descend(s, d, l, if Ensure(s, d, true).1 == 0 then (s2, 0) else Ensure(s2, l, true));
  }

  // ---------------------------------------------------------------------------------------------------------
  // truncate

  ghost predicate OwnedBy(s: Fs, n: nat, b: int)
    requires Shape(s)
  {
    exists l: Loc :: l.n == n && At(s, l) == b && b != 0
  }

  /** The bits of everything in a file's tree: data, indirect and double-indirect blocks. */
  ghost function TreeBits(s: Fs, n: nat): set<nat>
    requires Shape(s)
  {
    set j | j in s.bits && OwnedBy(s, n, j + s.first - 1)
  }

  const NO_ZONES: seq<nat> := [0, 0, 0, 0, 0, 0, 0, 0, 0]

  /** The state truncate leaves: the tree's bits cleared, the inode emptied. */
  ghost function Truncated(s: Fs, n: nat): (t: Fs)
    requires Shape(s) && n < |s.inodes|
    ensures Shape(t)
  {
    if !s.inodes[n].plain then s else
    s.(bits := s.bits - TreeBits(s, n), inodes := s.inodes[n := Inode(NO_ZONES, 0, true)])
  }

  /** Truncating a regular file or a directory empties it and frees exactly its own tree: afterwards the set bits are
      again the reserved one and those of the remaining trees. */
  lemma TruncateKeeps(s: Fs, n: nat)
    requires Inv(s) && n < |s.inodes|
    ensures var t := Truncated(s, n);
      if !s.inodes[n].plain then t == s
      else
        && Inv(t) && (forall l: Loc {:trigger At(t, l)} :: At(t, l) == if l.n == n then 0 else At(s, l))
        && t.inodes[n].size == 0 && t.inodes[n].plain
        && t == s.(bits := t.bits, inodes := s.inodes[n := t.inodes[n]])
        && (forall b :: s.first <= b < s.nzones ==> (Bit(t, b) in t.bits <==> Owned(t, b)))
  {
    if !s.inodes[n].plain { return; }
    var t := Truncated(s, n);
    forall l: Loc ensures At(t, l) == if l.n == n then 0 else At(s, l) {
      if IsLoc(s, l) && l.n != n && !l.Zone? {
        assert Holder(t, l) == Holder(s, l);
      }
    }
    forall l | At(t, l) != 0 ensures Bit(t, At(t, l)) in t.bits {
      assert !OwnedBy(s, n, At(s, l));
    }
    forall b | s.first <= b < s.nzones && Bit(t, b) in t.bits ensures Owned(t, b) {
      assert Owned(s, b);
      var l :| At(s, l) == b;
      assert !OwnedBy(s, n, b);
      assert At(t, l) == b;
    }
    assert !OwnedBy(s, n, s.first - 1);
  }

  // ---------------------------------------------------------------------------------------------------------
  // Data

  /** Overwriting a data block of a file. */
  function StoreBlock(s: Fs, b: nat, data: seq<byte>): (t: Fs)
    requires Shape(s) && b < s.nzones && |data| == BLOCK
    ensures Shape(t)
  {
    s.(blocks := s.blocks[b := data])
  }

  /** Data blocks are no pointer blocks, so what is written to a file never moves a block of any file. */
  lemma StoreKeeps(s: Fs, l: Loc, data: seq<byte>)
    requires Inv(s) && IsData(l) && At(s, l) != 0 && |data| == BLOCK
    ensures At(s, l) < s.nzones
    ensures var t := StoreBlock(s, At(s, l), data);
      && Inv(t) && (forall m {:trigger At(t, m)} :: At(t, m) == At(s, m))
      && (forall m :: m != l && At(s, m) != 0 ==> Block(t, At(s, m)) == Block(s, At(s, m)))
  {
    var t := StoreBlock(s, At(s, l), data);
    forall m ensures At(t, m) == At(s, m) { StoreAt(s, l, data, m); }
    NoLeakKept(s, t);
  }

  lemma StoreAt(s: Fs, l: Loc, data: seq<byte>, m: Loc)
    requires Shape(s) && InRange(s) && Distinct(s) && IsData(l) && At(s, l) != 0 && |data| == BLOCK
    ensures At(s, l) < s.nzones && At(StoreBlock(s, At(s, l), data), m) == At(s, m)
  {
    var t := StoreBlock(s, At(s, l), data);
    if IsLoc(s, m) && !m.Zone? {
      HolderAt(s, m);
      assert At(s, Parent(m)) != At(s, l);
      if m.Leaf? { assert At(s, Zone(m.n, 8)) != At(s, l); }
      assert Holder(t, m) == Holder(s, m);
    }
  }

  // ---------------------------------------------------------------------------------------------------------
  // Runs

  datatype Event = Create(n: nat, block: nat) | Truncate(n: nat) | Store(n: nat, block: nat, data: seq<byte>)

  /** A disk as it is when made: no file has a block. */
  ghost predicate Fresh(s: Fs) {
    Shape(s) && s.bits == {0} && forall n :: 0 <= n < |s.inodes| ==> s.inodes[n].zone == NO_ZONES
  }

  ghost function Step(s: Fs, e: Event): (t: Fs)
    requires Shape(s)
    ensures Shape(t)
  {
    if e.n >= |s.inodes| then s else
    match e
    case Create(n, block) => if block < MAX_BLOCKS then Bmap(s, n, block, true).0 else s
    case Truncate(n) => Truncated(s, n)
    case Store(n, block, data) =>
      if block < MAX_BLOCKS && |data| == BLOCK && 0 < At(s, DataLoc(n, block)) < s.nzones then
        StoreBlock(s, At(s, DataLoc(n, block)), data)
      else s
  }

  ghost function Run(s: Fs, events: seq<Event>): (t: Fs)
    requires Shape(s)
    ensures Shape(t)
    decreases |events|
  {
    if events == [] then s else Run(Step(s, events[0]), events[1..])
  }

  /** However files are grown, written and truncated, no zone stands at two places, and the set bits of the zone map
      are exactly the reserved one and the zones in some file. */
  lemma {:induction false} OwnershipInEveryRun(s: Fs, events: seq<Event>)
    requires Inv(s)
    ensures var t := Run(s, events);
      && Inv(t)
      && (forall b :: t.first <= b < t.nzones ==> (Bit(t, b) in t.bits <==> b != 0 && Owned(t, b)))
    decreases |events|
  {
    if events != [] {
      StepKeeps(s, events[0]);
      OwnershipInEveryRun(Step(s, events[0]), events[1..]);
    }
  }

  lemma StepKeeps(s: Fs, e: Event)
    requires Inv(s)
    ensures Inv(Step(s, e))
  {
    if e.n < |s.inodes| {
      match e
      case Create(n, block) => if block < MAX_BLOCKS { CreateBlockKeeps(s, n, block); }
      case Truncate(n) => if s.inodes[n].plain { TruncateKeeps(s, n); }
      case Store(n, block, data) =>
        if block < MAX_BLOCKS && |data| == BLOCK && At(s, DataLoc(n, block)) != 0 {
          StoreKeeps(s, DataLoc(n, block), data);
        }
    }
  }

  lemma FreshIsOk(s: Fs)
    requires Fresh(s)
    ensures Inv(s)
  {
    forall l ensures At(s, l) == 0 { }
  }
}
