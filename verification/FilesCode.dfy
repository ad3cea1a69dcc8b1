/** fs/bitmap.c, fs/inode.c _bmap, fs/truncate.c and the read and write loops of fs/file_dev.c, as they run on the
  zone map, the blocks and the inode table. Every block can be read. */
module FilesCode {
  import opened Bytes
  import opened Zones
  import opened Files
  import Z = Zones

  const O_APPEND: bv16 := 0x400

  /** struct file: f_pos and f_flags. */
  class File {
    var pos: nat
    const flags: bv16

    constructor (flags: bv16)
      ensures pos == 0 && this.flags == flags
    {
      this.flags := flags;
      pos := 0;
    }

    /** Whether writes go to the end. */
    predicate Appends() { flags & O_APPEND != 0 }
  }

  class Disk {
    const first: nat
    const nzones: nat
    const slots: nat // zone map blocks, each of SLOT_BITS bits
    var zmap: array<bool>
    var blocks: array<seq<byte>>
    var inodes: array<Inode>

    ghost predicate Valid()
      reads this, zmap, blocks, inodes
    {
      slots <= MAP_SLOTS && zmap.Length == slots * SLOT_BITS && Inv(S())
    }

    ghost function Bits(): set<nat>
      reads this, zmap
    {
      set j: nat | j < zmap.Length && zmap[j]
    }

    ghost function S(): Fs
      reads this, zmap, blocks, inodes
    {
      Fs(Bits(), zmap.Length, first, nzones, blocks[..], inodes[..])
    }

    /** A disk without files, as mkfs leaves it. */
    constructor (first: nat, nzones: nat, slots: nat, files: nat)
      requires 1 <= first <= nzones < 0x10000 && 0 < slots <= MAP_SLOTS
      ensures Valid() && Fresh(S()) && fresh(zmap) && fresh(blocks) && fresh(inodes)
      ensures this.first == first && this.nzones == nzones && this.slots == slots && inodes.Length == files
    {
      this.first, this.nzones, this.slots := first, nzones, slots;
      zmap := new bool[slots * SLOT_BITS](j => j == 0);
      blocks := new seq<byte>[nzones](b => ZeroBlock());
      inodes := new Inode[files](n => Inode(NO_ZONES, 0, true));
      new;
      assert Bits() == {0};
      FreshIsOk(S());
    }

    /** find_first_zero on one block of the zone map. */
    method FindFirstZero(slot: nat) returns (j: nat)
      requires zmap.Length == slots * SLOT_BITS && slot < slots
      ensures j <= SLOT_BITS && (forall k :: slot * SLOT_BITS <= k < slot * SLOT_BITS + j ==> zmap[k])
      ensures j < SLOT_BITS ==> !zmap[slot * SLOT_BITS + j]
    {
      j := 0;
      while j < SLOT_BITS && zmap[slot * SLOT_BITS + j]
        invariant j <= SLOT_BITS && (forall k :: slot * SLOT_BITS <= k < slot * SLOT_BITS + j ==> zmap[k])
      {
        j := j + 1;
      }
    }

    lemma FirstClearIs(bits: set<nat>, j: nat, r: nat, n: nat)
      requires j <= r <= n && (r < n ==> r !in bits) && forall k :: j <= k < r ==> k in bits
      ensures FirstClear(bits, j, n) == r
    {
    }

    /** new_block. */
    method NewBlock() returns (b: nat)
      requires Valid()
      modifies zmap, blocks
      ensures zmap.Length == old(zmap.Length) && (S(), b) == Z.NewBlock(old(S()))
    {
      var i, j := 0, SLOT_BITS;
      while i < slots
        modifies {}
        invariant i <= slots && j == SLOT_BITS
        invariant forall k :: 0 <= k < i * SLOT_BITS ==> zmap[k]
      {
        j := FindFirstZero(i);
        if j < SLOT_BITS {
          break;
        }
        i := i + 1;
      }
      if j >= SLOT_BITS {
        FirstClearIs(Bits(), 0, zmap.Length, zmap.Length);
        return 0;
      }
      var bit := i * SLOT_BITS + j;
      FirstClearIs(Bits(), 0, bit, zmap.Length);
      zmap[bit] := true;
      assert Bits() == old(Bits()) + {bit};
      b := bit + first - 1;
      if b >= nzones {
        assert S() == old(S()).(bits := old(S()).bits + {bit});
        return 0;
      }
      blocks[b] := ZeroBlock();
      assert S() == old(S()).(bits := old(S()).bits + {bit}, blocks := old(S()).blocks[b := ZeroBlock()]);
    }

    /** free_block; its panics are its precondition: a data zone whose bit is set. */
    method FreeBlock(b: nat)
      requires zmap.Length == slots * SLOT_BITS && 1 <= first <= b < nzones && b - first + 1 < zmap.Length
      requires zmap[b - first + 1]
      modifies zmap
      ensures Bits() == old(Bits()) - {b - first + 1}
    {
      var bit := b - (first - 1);
      zmap[bit / SLOT_BITS * SLOT_BITS + bit % SLOT_BITS] := false;
    }

    /** "if (create && !inode->i_zone[k]) inode->i_zone[k] = new_block(...)" */
    method ZonePtr(n: nat, k: nat, create: bool) returns (b: nat)
      requires Valid() && n < inodes.Length && k < 9
      modifies zmap, blocks, inodes
      ensures Valid() && inodes.Length == old(inodes.Length) && (S(), b) == Ensure(old(S()), Zone(n, k), create)
    {
      EnsureKeeps(S(), Zone(n, k));
      b := inodes[n].zone[k];
      if create && b == 0 {
        b := NewBlock();
        if b != 0 {
          inodes[n] := inodes[n].(zone := inodes[n].zone[k := b]);
        }
      }
    }

    /** The same for entry l.k of the pointer block `h`. */
    method BlockPtr(h: nat, ghost l: Loc, k: nat, create: bool) returns (b: nat)
      requires Valid() && IsLoc(S(), l) && !l.Zone? && l.k == k && h != 0 && Holder(S(), l) == h
      modifies zmap, blocks
      ensures Valid() && (S(), b) == Ensure(old(S()), l, create)
    {
      HolderAt(S(), l);
      EnsureKeeps(S(), l);
      NewBlockIsFresh(S());
      b := Ptr(blocks[h], k);
      if create && b == 0 {
        b := NewBlock();
        HolderAt(S(), l);
        if b != 0 {
          blocks[h] := SetPtr(blocks[h], k, b);
        }
      }
    }

    /** The double-indirect part of _bmap, for block `b` past the first 7 + 512. */
    method BMapDouble(n: nat, b: nat, create: bool) returns (i: nat)
      requires Valid() && n < inodes.Length && b < 512 * 512
      modifies zmap, blocks, inodes
      ensures Valid() && inodes.Length == old(inodes.Length) && (S(), i) == Bmap(old(S()), n, 7 + 512 + b, create)
    {
      i := ZonePtr(n, 8, create);
      if i == 0 {
        return;
      }
      i := BlockPtr(i, Dind(n, b / 512), b / 512, create);
      if i == 0 {
        return;
      }
      HolderAt(S(), Leaf(n, b / 512, b % 512));
      i := BlockPtr(i, Leaf(n, b / 512, b % 512), b % 512, create);
    }

    /** _bmap; its two panics are the precondition on `block`. */
    method BMap(n: nat, block: nat, create: bool) returns (i: nat)
      requires Valid() && n < inodes.Length && block < MAX_BLOCKS
      modifies zmap, blocks, inodes
      ensures Valid() && inodes.Length == old(inodes.Length) && (S(), i) == Bmap(old(S()), n, block, create)
    {
      if block < 7 {
        i := ZonePtr(n, block, create);
        return;
      }
      var b := block - 7;
      if b < 512 {
        i := ZonePtr(n, 7, create);
        if i == 0 {
          return;
        }
        i := BlockPtr(i, Ind(n, b), b, create);
        return;
      }
      i := BMapDouble(n, b - 512, create);
    }
  
    // -------------------------------------------------------------------------------------------------------
    // truncate

    /** The set bits of the locations in `done`. */
    static ghost function BitsOf(s: Fs, done: iset<Loc>): set<nat>
      requires Shape(s)
    {
      set j | j in s.bits && exists l :: l in done && At(s, l) != 0 && At(s, l) == j + s.first - 1
    }

    /** The bits are those of `s` but for what `done` has freed; nothing else of the disk matters to truncate. */
    ghost predicate Freed(s: Fs, done: iset<Loc>)
      reads this, zmap, blocks
    {
      && Inv(s) && zmap.Length == slots * SLOT_BITS == s.nbits && slots <= MAP_SLOTS
      && first == s.first && nzones == s.nzones && blocks[..] == s.blocks
      && Bits() == s.bits - BitsOf(s, done)
    }

    /** What is freed at a location not yet done is set, and clearing it does that location. */
    static lemma NextFree(s: Fs, done: iset<Loc>, l: Loc)
      requires Inv(s) && l !in done
      ensures At(s, l) == 0 ==> BitsOf(s, done + iset{l}) == BitsOf(s, done)
      ensures At(s, l) != 0 ==> s.first <= At(s, l) < s.nzones && Bit(s, At(s, l)) in s.bits - BitsOf(s, done)
      ensures At(s, l) != 0 ==> BitsOf(s, done + iset{l}) == BitsOf(s, done) + {Bit(s, At(s, l))}
    {
    }

    /** The location of entry `k` of the pointer block that stands at `self`. */
    static ghost function Child(self: Loc, k: nat): Loc {
      match self
      case Zone(n, z) => if z == 7 then Ind(n, k) else Dind(n, k)
      case Dind(n, j) => Leaf(n, j, k)
      case _ => self
    }

    /** A missing pointer block has nothing below it. */
    static lemma NothingBelow(s: Fs, done: iset<Loc>, self: Loc)
      requires Inv(s) && IsLoc(s, self) && At(s, self) == 0 && (self.Dind? || (self.Zone? && self.k == 7))
      ensures BitsOf(s, done + (iset k: nat | k < PTRS :: Child(self, k)) + iset{self}) == BitsOf(s, done)
    {
      forall k: nat ensures At(s, Child(self, k)) == 0 { }
    }

    /** "if (*p) free_block(dev, *p)", where `l` is the location of *p. */
    method FreeAt(p: nat, ghost s: Fs, ghost d: iset<Loc>, ghost l: Loc)
      requires Freed(s, d) && l !in d && At(s, l) == p
      modifies zmap
      ensures Freed(s, d + iset{l})
    {
      NextFree(s, d, l);
      if p != 0 {
        FreeBlock(p);
      }
    }

    /** free_ind: the entries of an indirect block, then the block. `self` is where the block's number stands. */
    method FreeInd(block: nat, ghost s: Fs, ghost done: iset<Loc>, ghost self: Loc)
      requires Freed(s, done) && IsLoc(s, self) && At(s, self) == block && (self.Dind? || (self.Zone? && self.k == 7))
      requires self !in done && forall k: nat :: Child(self, k) !in done
      modifies zmap
      ensures Freed(s, done + (iset k: nat | k < PTRS :: Child(self, k)) + iset{self})
    {
      if block == 0 {
        NothingBelow(s, done, self);
        return;
      }
      var i := 0;
      ghost var d := done;
      while i < PTRS
        invariant i <= PTRS && Freed(s, d)
        invariant d == done + iset k: nat | k < i :: Child(self, k)
      {
        var l := Child(self, i);
        HolderAt(s, l);
        FreeAt(Ptr(blocks[block], i), s, d, l);
        d := d + iset{l};
        i := i + 1;
      }
      FreeAt(block, s, d, self);
    }
  
    /** The locations of file `n` below the first `i` entries of its double-indirect block. */
    static ghost function BelowDind(s: Fs, n: nat, i: nat): iset<Loc> {
      iset l: Loc | IsLoc(s, l) && l.n == n && ((l.Dind? && l.k < i) || (l.Leaf? && l.j < i))
    }

    static lemma OneMoreBelow(s: Fs, done: iset<Loc>, n: nat, i: nat)
      requires n < |s.inodes| && i < PTRS
      ensures done + BelowDind(s, n, i + 1)
        == done + BelowDind(s, n, i) + (iset k: nat | k < PTRS :: Child(Dind(n, i), k)) + iset{Dind(n, i)}
    {
      var all := BelowDind(s, n, i + 1);
      var parts := BelowDind(s, n, i) + (iset k: nat | k < PTRS :: Child(Dind(n, i), k)) + iset{Dind(n, i)};
      forall l: Loc | l in all ensures l in parts {
        if l.Leaf? && l.j == i { assert l == Child(Dind(n, i), l.k); }
      }
    }

    /** One turn of the loop of free_dind. */
    method FreeDindEntry(p: nat, ghost i: nat, ghost s: Fs, ghost done: iset<Loc>, ghost n: nat)
      requires n < |s.inodes| && i < PTRS && Freed(s, done + BelowDind(s, n, i)) && At(s, Dind(n, i)) == p
      requires forall l: Loc :: l.n == n && (l.Dind? || l.Leaf?) ==> l !in done
      modifies zmap
      ensures Freed(s, done + BelowDind(s, n, i + 1))
    {
      OneMoreBelow(s, done, n, i);
      if p != 0 {
        FreeInd(p, s, done + BelowDind(s, n, i), Dind(n, i));
      } else {
        NothingBelow(s, done + BelowDind(s, n, i), Dind(n, i));
      }
    }

    /** free_dind. */
    method FreeDind(block: nat, ghost s: Fs, ghost done: iset<Loc>, ghost n: nat)
      requires Freed(s, done) && n < |s.inodes| && At(s, Zone(n, 8)) == block
      requires Zone(n, 8) !in done && forall l: Loc :: l.n == n && (l.Dind? || l.Leaf?) ==> l !in done
      modifies zmap
      ensures Freed(s, done + BelowDind(s, n, PTRS) + iset{Zone(n, 8)})
    {
      if block == 0 {
        assert BitsOf(s, done + BelowDind(s, n, PTRS) + iset{Zone(n, 8)}) == BitsOf(s, done) by {
          forall l: Loc | l in BelowDind(s, n, PTRS) ensures At(s, l) == 0 { }
        }
        return;
      }
      var i := 0;
      assert done + BelowDind(s, n, 0) == done;
      while i < PTRS
        invariant i <= PTRS && Freed(s, done + BelowDind(s, n, i))
      {
        HolderAt(s, Dind(n, i));
        FreeDindEntry(Ptr(blocks[block], i), i, s, done, n);
        i := i + 1;
      }
      NextFree(s, done + BelowDind(s, n, PTRS), Zone(n, 8));
      FreeBlock(block);
    }

    /** The first `i` zones of file `n`. */
    static ghost function FirstZones(n: nat, i: nat): iset<Loc> {
      iset k: nat | k < i :: Zone(n, k)
    }

    static lemma AllOfFile(s: Fs, n: nat)
      requires Inv(s) && n < |s.inodes|
      ensures BitsOf(s, FirstZones(n, 7) + (iset k: nat | k < PTRS :: Child(Zone(n, 7), k)) + iset{Zone(n, 7)}
                        + BelowDind(s, n, PTRS) + iset{Zone(n, 8)}) == TreeBits(s, n)
    {
      var all := FirstZones(n, 7) + (iset k: nat | k < PTRS :: Child(Zone(n, 7), k)) + iset{Zone(n, 7)}
                 + BelowDind(s, n, PTRS) + iset{Zone(n, 8)};
      forall l: Loc ensures l in all && At(s, l) != 0 <==> l.n == n && At(s, l) != 0 {
        if l.n == n && IsLoc(s, l) && l.Ind? { assert l == Child(Zone(n, 7), l.k); }
      }
    }

    /** The loop of truncate over the seven direct zones. */
    method FreeDirect(n: nat)
      requires Valid() && n < inodes.Length
      modifies zmap, inodes
      ensures Freed(old(S()), FirstZones(n, 7)) && inodes.Length == old(inodes.Length)
      ensures forall m :: 0 <= m < inodes.Length && m != n ==> inodes[m] == old(inodes[m])
      ensures |inodes[n].zone| == 9
      ensures forall k :: 0 <= k < 9 ==> inodes[n].zone[k] == if k < 7 then 0 else old(inodes[n].zone[k])
    {
      ghost var s := S();
      var i := 0;
      assert BitsOf(s, FirstZones(n, 0)) == {};
      while i < 7
        invariant i <= 7 && Freed(s, FirstZones(n, i)) && inodes.Length == |s.inodes|
        invariant forall m :: 0 <= m < inodes.Length && m != n ==> inodes[m] == s.inodes[m]
        invariant |inodes[n].zone| == 9
        invariant forall k :: 0 <= k < 9 ==> inodes[n].zone[k] == if k < i then 0 else s.inodes[n].zone[k]
      {
        NextFree(s, FirstZones(n, i), Zone(n, i));
        assert FirstZones(n, i + 1) == FirstZones(n, i) + iset{Zone(n, i)};
        if inodes[n].zone[i] != 0 {
          FreeBlock(inodes[n].zone[i]);
          inodes[n] := inodes[n].(zone := inodes[n].zone[i := 0]);
        }
        i := i + 1;
      }
    }

    /** truncate. */
    method Truncate(n: nat)
      requires Valid() && n < inodes.Length
      modifies zmap, inodes
      ensures Valid() && S() == Truncated(old(S()), n)
    {
      ghost var s := S();
      if !inodes[n].plain {
        return;
      }
      TruncateKeeps(s, n);
      FreeDirect(n);
      FreeInd(inodes[n].zone[7], s, FirstZones(n, 7), Zone(n, 7));
      FreeDind(inodes[n].zone[8], s,
        FirstZones(n, 7) + (iset k: nat | k < PTRS :: Child(Zone(n, 7), k)) + iset{Zone(n, 7)}, n);
      AllOfFile(s, n);
      inodes[n] := Inode(inodes[n].zone[7 := 0][8 := 0], 0, true);
      assert inodes[n].zone == NO_ZONES;
      assert inodes[..] == s.inodes[n := Inode(NO_ZONES, 0, true)];
    }
  
    // -------------------------------------------------------------------------------------------------------
    // Reading and writing

    /** The copy loop of file_write. */
    method PutBytes(b: nat, off: nat, data: seq<byte>)
      requires b < blocks.Length && |blocks[b]| == BLOCK && off + |data| <= BLOCK
      modifies blocks
      ensures blocks[..] == old(blocks[..])[b := Overlay(old(blocks[b]), off, data)]
    {
      var c := 0;
      assert Overlay(blocks[b], off, []) == blocks[b] && data[..0] == [];
      while c < |data|
        invariant c <= |data| && blocks[..] == old(blocks[..])[b := Overlay(old(blocks[b]), off, data[..c])]
      {
        blocks[b] := blocks[b][off + c := data[c]];
        c := c + 1;
        assert blocks[b] == Overlay(old(blocks[b]), off, data[..c]);
      }
      assert data[..c] == data;
    }

    /** The part of file_write that stores into one block of the file. */
    method StorePart(n: nat, pos: nat, block: nat, data: seq<byte>)
      requires Valid() && n < inodes.Length && pos < MAX_BYTES && 0 < |data| && pos % BLOCK + |data| <= BLOCK
      requires block == At(S(), DataLoc(n, pos / BLOCK)) && block != 0
      modifies blocks, inodes
      ensures Valid() && inodes.Length == old(inodes.Length) && Wrote(old(S()), S(), n, pos, data)
    {
      ghost var s1 := S();
      StoreSplices(s1, n, pos, data);
      StoreKeeps(s1, DataLoc(n, pos / BLOCK), Overlay(s1.blocks[block], pos % BLOCK, data));
      PutBytes(block, pos % BLOCK, data);
      ghost var s2 := S();
      assert s2 == StoreBlock(s1, block, Overlay(s1.blocks[block], pos % BLOCK, data));
      if pos + |data| > inodes[n].size {
        inodes[n] := inodes[n].(size := pos + |data|);
        SizeOnly(s2, S(), n);
      }
    }

    /** One turn of the loop of file_write: the part of `buf` from `i` on that falls in one block. */
    method WritePart(n: nat, pos: nat, buf: seq<byte>, i: nat) returns (c: nat)
      requires Valid() && n < inodes.Length && i < |buf| && pos + |buf| - i <= MAX_BYTES
      modifies zmap, blocks, inodes
      ensures Valid() && inodes.Length == old(inodes.Length) && c <= |buf| - i
      ensures c == 0 ==> Full(S())
      ensures c > 0 ==> c == if BLOCK - pos % BLOCK > |buf| - i then |buf| - i else BLOCK - pos % BLOCK
      ensures Wrote(old(S()), S(), n, pos, buf[i..i + c])
    {
      ghost var s0 := S();
      CreateReady(s0, n, pos);
      var block := BMap(n, pos / BLOCK, true);
      if block == 0 {
        return 0;
      }
      ghost var s1 := S();
      c := BLOCK - pos % BLOCK;
      if c > |buf| - i { c := |buf| - i; }
      StorePart(n, pos, block, buf[i..i + c]);
      WroteAfterCreate(s0, s1, S(), n, pos, buf[i..i + c]);
    }

    static lemma SizeOnly(s: Fs, t: Fs, n: nat)
      requires Inv(s) && n < |s.inodes| && |t.inodes| == |s.inodes|
      requires t == s.(inodes := s.inodes[n := s.inodes[n].(size := t.inodes[n].size)])
      ensures Inv(t) && SameBytes(s, t)
    {
      assert forall l {:trigger At(t, l)} :: At(t, l) == At(s, l) by {
        forall l ensures At(t, l) == At(s, l) { }
      }
      NoLeakKept(s, t);
    }

    /** The loop of file_write. */
    static lemma WroteMore(s: Fs, t: Fs, u: Fs, n: nat, start: nat, buf: seq<byte>, i: nat, c: nat)
      requires Shape(s) && Shape(t) && Shape(u) && n < |s.inodes| && i + c <= |buf| && Wrote(s, t, n, start, buf[..i])
      requires n < |t.inodes| && Wrote(t, u, n, start + i, buf[i..i + c])
      ensures Wrote(s, u, n, start, buf[..i + c])
    {
      WroteTrans(s, t, u, n, start, buf[..i], buf[i..i + c]);
      assert buf[..i] + buf[i..i + c] == buf[..i + c];
    }

    method WriteLoop(n: nat, start: nat, buf: seq<byte>) returns (i: nat)
      requires Valid() && n < inodes.Length && start + |buf| <= MAX_BYTES
      modifies zmap, blocks, inodes
      ensures Valid() && inodes.Length == old(inodes.Length)
      ensures i <= |buf| && (i < |buf| ==> Full(S())) && Wrote(old(S()), S(), n, start, buf[..i])
    {
      i := 0;
      WroteNothing(S(), n, start);
      while i < |buf|
        invariant i <= |buf| && Valid() && inodes.Length == old(inodes.Length)
        invariant Wrote(old(S()), S(), n, start, buf[..i])
      {
        ghost var before := S();
        var c := WritePart(n, start + i, buf, i);
        WroteMore(old(S()), before, S(), n, start, buf, i, c);
        if c == 0 {
          break;
        }
        i := i + c;
      }
    }

    /** file_write, past the encryption hook. The file changes exactly in the bytes written, growing if they end past
        its size; the write stops early only when every zone is taken; -1 stands for nothing written. */
    method FileWrite(n: nat, filp: File, buf: seq<byte>) returns (r: int)
      requires Valid() && n < inodes.Length
      requires (if filp.Appends() then inodes[n].size else filp.pos) + |buf| <= MAX_BYTES
      modifies filp`pos, zmap, blocks, inodes
      ensures Valid() && inodes.Length == old(inodes.Length)
      ensures r != 0 && -1 <= r <= |buf| && (r < |buf| ==> |buf| == 0 || Full(S()))
      ensures var pos := if filp.Appends() then old(inodes[n].size) else old(filp.pos);
        var i := if r == -1 then 0 else r;
        Wrote(old(S()), S(), n, pos, buf[..i]) && filp.pos == (if filp.Appends() then old(filp.pos) else pos + i)
    {
      var start := if filp.Appends() then inodes[n].size else filp.pos;
      var i := WriteLoop(n, start, buf);
      if !filp.Appends() {
        filp.pos := start + i;
      }
      r := if i != 0 then i else -1;
    }

    /** One turn of the loop of file_read. */
    method ReadPart(n: nat, pos: nat, left: nat) returns (part: seq<byte>)
      requires Valid() && n < inodes.Length && pos + left <= MAX_BYTES && left > 0
      modifies zmap, blocks, inodes
      ensures Valid() && S() == old(S()) && |part| == if BLOCK - pos % BLOCK < left then BLOCK - pos % BLOCK else left
      ensures forall k :: 0 <= k < |part| ==> part[k] == ByteAt(old(S()), n, pos + k)
    {
      BmapReads(S(), n, pos / BLOCK);
      var nr := BMap(n, pos / BLOCK, false);
      var at := pos % BLOCK;
      var chars := if BLOCK - at < left then BLOCK - at else left;
      part := if nr != 0 then blocks[nr][at..at + chars] else seq(chars, k => 0);
      forall k | 0 <= k < chars ensures part[k] == ByteAt(old(S()), n, pos + k) {
        assert (pos + k) / BLOCK == pos / BLOCK && (pos + k) % BLOCK == at + k;
      }
    }

    /** file_read, past the encryption hook: the bytes of the file from the position on, whatever its size. */
    method FileRead(n: nat, filp: File, count: int) returns (buf: seq<byte>, r: int)
      requires Valid() && n < inodes.Length && filp.pos + count <= MAX_BYTES
      modifies filp`pos, zmap, blocks, inodes
      ensures S() == old(S()) && r == |buf| == if count <= 0 then 0 else count
      ensures filp.pos == old(filp.pos) + |buf|
      ensures forall k :: 0 <= k < |buf| ==> buf[k] == ByteAt(old(S()), n, old(filp.pos) + k)
    {
      buf := [];
      if count <= 0 {
        return buf, 0;
      }
      var left := count;
      while left > 0
        invariant 0 <= left <= count && |buf| == count - left && filp.pos == old(filp.pos) + |buf|
        invariant Valid() && S() == old(S())
        invariant forall k :: 0 <= k < |buf| ==> buf[k] == ByteAt(old(S()), n, old(filp.pos) + k)
      {
        var part := ReadPart(n, filp.pos, left);
        var chars := |part|;
        buf := buf + part;
        filp.pos := filp.pos + chars;
        left := left - chars;
      }
      r := count - left;
    }
  }
}
