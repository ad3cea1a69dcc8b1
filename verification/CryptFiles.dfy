/** Encrypting and decrypting whole files: the loops of encryWithInode and decryWithInode in kernel/sys.c, over the
  block map of a file. */
module CryptFiles {
  import opened Bytes
  import opened Zones
  import Cipher

  /** The key fills whole rows of a block. */
  predicate Divides(key: seq<int>) {
    |key| > 0 && BLOCK / |key| * |key| == BLOCK
  }

  function Crypt(x: seq<byte>, key: seq<int>, enc: bool): (y: seq<byte>)
    requires |x| == BLOCK && Divides(key)
    ensures |y| == BLOCK
  {
    if enc then Cipher.Encrypt(x, key, BLOCK / |key|) else Cipher.Decrypt(x, key, BLOCK / |key|)
  }

  lemma CryptUndone(x: seq<byte>, key: seq<int>, enc: bool)
    requires |x| == BLOCK && Divides(key)
    ensures Crypt(Crypt(x, key, enc), key, !enc) == x
  {
    if enc {
      Cipher.DecryptEncrypt(x, key, BLOCK / |key|);
    } else {
      Cipher.EncryptDecrypt(x, key, BLOCK / |key|);
    }
  }

  // ---------------------------------------------------------------------------------------------------------
  // One file

  /** A block of a file, or the boot block, which bmap's 0 for a hole stands for. */
  ghost predicate Target(s: Fs, b: nat)
    requires Shape(s)
  {
    b == 0 || exists l :: IsData(l) && At(s, l) == b
  }

  lemma StoreTarget(s: Fs, b: nat, data: seq<byte>)
    requires Inv(s) && Target(s, b) && |data| == BLOCK
    ensures b < s.nzones
    ensures var t := StoreBlock(s, b, data);
      Inv(t) && forall m {:trigger At(t, m)} :: At(t, m) == At(s, m)
  {
    if b == 0 {
      var t := StoreBlock(s, b, data);
      forall m ensures At(t, m) == At(s, m) {
        assert Holder(t, m) == Holder(s, m);
        if IsLoc(s, m) && !m.Zone? { HolderAt(s, m); }
      }
      NoLeakKept(s, t);
    } else {
      var l :| IsData(l) && At(s, l) == b;
      StoreKeeps(s, l, data);
    }
  }

  /** The loop, from the byte position `block` down; each round crypts the block bmap names. */
  function CryptFile(s: Fs, n: nat, block: int, key: seq<int>, enc: bool): (t: Fs)
    requires Inv(s) && n < |s.inodes| && block / BLOCK < MAX_BLOCKS && Divides(key)
    ensures Inv(t) && t.inodes == s.inodes
    decreases if block > 0 then block else 0
  {
    if block <= 0 then s else
    var nr := Bmap(s, n, block / BLOCK, false).1;
    BmapReads(s, n, block / BLOCK);
    StoreTarget(s, nr, Crypt(Block(s, nr), key, enc));
    CryptFile(StoreBlock(s, nr, Crypt(Block(s, nr), key, enc)), n, block - BLOCK, key, enc)
  }

  /** The blocks the rounds land on. */
  function Seen(s: Fs, n: nat, block: int): set<nat>
    requires Shape(s) && block / BLOCK < MAX_BLOCKS
    decreases if block > 0 then block else 0
  {
    if block <= 0 then {} else {At(s, DataLoc(n, block / BLOCK))} + Seen(s, n, block - BLOCK)
  }

  /** The buffers marked dirty by the rounds that are left, on top of those marked before. */
  function Marked(s: Fs, n: nat, block: int, dirty: bool, before: set<nat>): set<nat>
    requires Shape(s) && block / BLOCK < MAX_BLOCKS
  {
    if dirty then before + Seen(s, n, block) else before
  }

  lemma {:induction false} SeenSame(s: Fs, t: Fs, n: nat, block: int)
    requires Shape(s) && Shape(t) && block / BLOCK < MAX_BLOCKS
    requires forall m {:trigger At(t, m)} :: At(t, m) == At(s, m)
    ensures Seen(t, n, block) == Seen(s, n, block)
    decreases if block > 0 then block else 0
  {
    if block > 0 { SeenSame(s, t, n, block - BLOCK); }
  }

  /** A block is among them exactly when it is visited. */
  lemma {:induction false} SeenIsVisited(s: Fs, n: nat, block: int, b: nat)
    requires Shape(s) && block / BLOCK < MAX_BLOCKS
    ensures b in Seen(s, n, block) <==> Visits(s, n, block, b) > 0
    decreases if block > 0 then block else 0
  {
    if block > 0 { SeenIsVisited(s, n, block - BLOCK, b); }
  }

  /** How many rounds of the loop land on block `b`. */
  ghost function Visits(s: Fs, n: nat, block: int, b: nat): nat
    requires Shape(s) && block / BLOCK < MAX_BLOCKS
    decreases if block > 0 then block else 0
  {
    if block <= 0 then 0
    else (if At(s, DataLoc(n, block / BLOCK)) == b then 1 else 0) + Visits(s, n, block - BLOCK, b)
  }

  /** `k` times `f`. */
  ghost function Times(f: seq<byte> -> seq<byte>, x: seq<byte>, k: nat): seq<byte>
    decreases k
  {
    if k == 0 then x else Times(f, f(x), k - 1)
  }

  /** The routine as a function of the block. */
  ghost function Routine(key: seq<int>, enc: bool): (f: seq<byte> -> seq<byte>)
    requires Divides(key)
    ensures forall x {:trigger f(x)} :: |x| == BLOCK ==> f(x) == Crypt(x, key, enc)
  {
    (x: seq<byte>) => if |x| == BLOCK then Crypt(x, key, enc) else x
  }

  lemma {:induction false} VisitsSame(s: Fs, t: Fs, n: nat, block: int, b: nat)
    requires Shape(s) && Shape(t) && block / BLOCK < MAX_BLOCKS
    requires forall m {:trigger At(t, m)} :: At(t, m) == At(s, m)
    ensures Visits(t, n, block, b) == Visits(s, n, block, b)
    decreases if block > 0 then block else 0
  {
    if block > 0 { VisitsSame(s, t, n, block - BLOCK, b); }
  }

  /** What the loop does to the disk: every block is crypted once for each visit, and nothing else changes. */
  lemma {:induction false} CryptFileIs(s: Fs, n: nat, block: int, key: seq<int>, enc: bool)
    requires Inv(s) && n < |s.inodes| && block / BLOCK < MAX_BLOCKS && Divides(key)
    ensures var t := CryptFile(s, n, block, key, enc);
      && t.(blocks := s.blocks) == s && (forall m {:trigger At(t, m)} :: At(t, m) == At(s, m))
      && (forall b {:trigger t.blocks[b]} :: 0 <= b < s.nzones ==> 
        t.blocks[b] == Times(Routine(key, enc), s.blocks[b], Visits(s, n, block, b)))
    decreases if block > 0 then block else 0
  {
    if block > 0 {
      var nr := At(s, DataLoc(n, block / BLOCK));
      BmapReads(s, n, block / BLOCK);
      StoreTarget(s, nr, Crypt(Block(s, nr), key, enc));
      var u := StoreBlock(s, nr, Crypt(Block(s, nr), key, enc));
      CryptFileIs(u, n, block - BLOCK, key, enc);
      forall b {:trigger u.blocks[b]} | 0 <= b < s.nzones
        ensures Visits(u, n, block - BLOCK, b) == Visits(s, n, block - BLOCK, b)
      {
        VisitsSame(s, u, n, block - BLOCK, b);
      }
    }
  }

  lemma {:induction false} TimesLast(f: seq<byte> -> seq<byte>, x: seq<byte>, k: nat)
    ensures Times(f, x, k + 1) == f(Times(f, x, k))
    decreases k
  {
    if k > 0 { TimesLast(f, f(x), k - 1); }
  }

  /** On blocks, `g` takes back what `f` does. */
  ghost predicate Undoes(g: seq<byte> -> seq<byte>, f: seq<byte> -> seq<byte>) {
    forall x {:trigger f(x)} :: |x| == BLOCK ==> |f(x)| == BLOCK && g(f(x)) == x
  }

  lemma {:induction false} TimesUndone(g: seq<byte> -> seq<byte>, f: seq<byte> -> seq<byte>, x: seq<byte>, k: nat)
    requires Undoes(g, f) && |x| == BLOCK
    ensures |Times(f, x, k)| == BLOCK && Times(g, Times(f, x, k), k) == x
    decreases k
  {
    if k > 0 {
      TimesLast(f, x, k - 1);
      TimesUndone(g, f, x, k - 1);
    }
  }

  lemma RoutineUndone(key: seq<int>, enc: bool)
    requires Divides(key)
    ensures Undoes(Routine(key, !enc), Routine(key, enc))
  {
    var f, g := Routine(key, enc), Routine(key, !enc);
    forall x {:trigger f(x)} | |x| == BLOCK ensures |f(x)| == BLOCK && g(f(x)) == x { CryptUndone(x, key, enc); }
  }

  /** Crypting a file one way and then the other with the same key gives back the whole disk, whatever the size of the
      file and wherever it has holes. */
  lemma FileRestored(s: Fs, n: nat, block: int, key: seq<int>, enc: bool)
    requires Inv(s) && n < |s.inodes| && block / BLOCK < MAX_BLOCKS && Divides(key)
    ensures CryptFile(CryptFile(s, n, block, key, enc), n, block, key, !enc) == s
  {
    var t := CryptFile(s, n, block, key, enc);
    CryptFileIs(s, n, block, key, enc);
    CryptFileIs(t, n, block, key, !enc);
    var u := CryptFile(t, n, block, key, !enc);
    RoutineUndone(key, enc);
    forall b | 0 <= b < s.nzones ensures u.blocks[b] == s.blocks[b] {
      VisitsSame(s, t, n, block, b);
      TimesUndone(Routine(key, !enc), Routine(key, enc), s.blocks[b], Visits(s, n, block, b));
    }
    assert u.blocks == s.blocks;
  }

  // ---------------------------------------------------------------------------------------------------------
  // Which blocks are covered

  /** Every byte below the size has a block. */
  ghost predicate HoleFree(s: Fs, n: nat, size: nat)
    requires Shape(s) && size / BLOCK < MAX_BLOCKS
  {
    forall k: nat {:trigger DataLoc(n, k)} :: k * BLOCK < size ==> k < MAX_BLOCKS && At(s, DataLoc(n, k)) != 0
  }

  /** One of the rounds from `block` down looks at block `k` of the file. */
  predicate Visited(block: int, k: nat) {
    block > 0 && k <= block / BLOCK && (k > 0 || block % BLOCK != 0)
  }

  lemma VisitedStep(block: int, k: nat)
    requires block > 0
    ensures k == block / BLOCK ==> Visited(block, k) && !Visited(block - BLOCK, k)
    ensures k != block / BLOCK ==> (Visited(block, k) <==> Visited(block - BLOCK, k))
  {
  }

  /** A block of the file is visited once, unless the rounds end above it. */
  lemma {:induction false} VisitsOfBlock(s: Fs, n: nat, block: int, k: nat)
    requires Inv(s) && block / BLOCK < MAX_BLOCKS && k < MAX_BLOCKS && At(s, DataLoc(n, k)) != 0
    ensures Visits(s, n, block, At(s, DataLoc(n, k))) == if Visited(block, k) then 1 else 0
    decreases if block > 0 then block else 0
  {
    if block > 0 {
      VisitsOfBlock(s, n, block - BLOCK, k);
      VisitedStep(block, k);
      var j := block / BLOCK;
      if At(s, DataLoc(n, j)) == At(s, DataLoc(n, k)) {
        DataLocInjective(n, j, n, k);
      }
    }
  }

  /** A block that belongs to another file, or holds pointers, is never visited. */
  lemma {:induction false} NeverVisited(s: Fs, n: nat, block: int, l: Loc)
    requires Inv(s) && block / BLOCK < MAX_BLOCKS && At(s, l) != 0 && (l.n != n || !IsData(l))
    ensures Visits(s, n, block, At(s, l)) == 0
    decreases if block > 0 then block else 0
  {
    if block > 0 {
      NeverVisited(s, n, block - BLOCK, l);
    }
  }

  /** A hole-free file has every one of its blocks crypted exactly once if and only if its size is no multiple of
      1024: otherwise the loop stops before block 0. */
  lemma EachBlockOnce(s: Fs, n: nat, size: nat)
    requires Inv(s) && 0 < size && size / BLOCK < MAX_BLOCKS && HoleFree(s, n, size)
    ensures size % BLOCK != 0 <==>
      forall k: nat {:trigger DataLoc(n, k)} :: k * BLOCK < size ==> Visits(s, n, size, At(s, DataLoc(n, k))) == 1
  {
    forall k: nat {:trigger DataLoc(n, k)} | k * BLOCK < size && (k == 0 || size % BLOCK != 0)
      ensures Visits(s, n, size, At(s, DataLoc(n, k))) == if size % BLOCK != 0 then 1 else 0
    {
      VisitsOfBlock(s, n, size, k);
    }
    assert At(s, DataLoc(n, 0)) != 0;
  }

  /** The lowest block the rounds from `block` down look at. */
  function Lowest(block: int): nat { if block % BLOCK == 0 then 1 else 0 }

  ghost predicate HoleVisited(s: Fs, n: nat, block: int)
    requires Shape(s) && block / BLOCK < MAX_BLOCKS
  {
    exists j: nat {:trigger DataLoc(n, j)} :: Lowest(block) <= j <= block / BLOCK && At(s, DataLoc(n, j)) == 0
  }

  lemma {:induction false} BootVisits(s: Fs, n: nat, block: int)
    requires Shape(s) && 0 < block && block / BLOCK < MAX_BLOCKS
    ensures Visits(s, n, block, 0) > 0 <==> HoleVisited(s, n, block)
    decreases block
  {
    var j := block / BLOCK;
    if block > BLOCK {
      BootVisits(s, n, block - BLOCK);
      assert Lowest(block - BLOCK) == Lowest(block) && (block - BLOCK) / BLOCK == j - 1;
    }
    assert At(s, DataLoc(n, j)) == 0 ==> HoleVisited(s, n, block);
  }

  /** The loop crypts the boot block of the device if and only if it looks at a hole. For a file without holes that is
      when its size is a multiple of 1024 and it has no block just past its end, where the first round then looks. */
  lemma BootBlockHit(s: Fs, n: nat, size: nat)
    requires Shape(s) && 0 < size && size / BLOCK < MAX_BLOCKS
    ensures Visits(s, n, size, 0) > 0 <==> HoleVisited(s, n, size)
    ensures HoleFree(s, n, size) ==>
      (Visits(s, n, size, 0) > 0 <==> size % BLOCK == 0 && At(s, DataLoc(n, size / BLOCK)) == 0)
  {
    BootVisits(s, n, size);
    if HoleFree(s, n, size) { OnlyPastTheEnd(s, n, size); }
  }

  lemma OnlyPastTheEnd(s: Fs, n: nat, size: nat)
    requires Shape(s) && 0 < size && size / BLOCK < MAX_BLOCKS && HoleFree(s, n, size)
    ensures HoleVisited(s, n, size) <==> size % BLOCK == 0 && At(s, DataLoc(n, size / BLOCK)) == 0
  {
    var j := size / BLOCK;
    forall k: nat {:trigger DataLoc(n, k)} | k <= j && (k < j || size % BLOCK != 0) ensures At(s, DataLoc(n, k)) != 0 {
      assert k * BLOCK < size;
    }
    assert size % BLOCK == 0 ==> Lowest(size) <= j;
  }

  /** The block at a location holds its cipher text, or what it held. */
  ghost predicate CipherAt(s: Fs, t: Fs, l: Loc, key: seq<int>)
    requires Shape(s) && Shape(t) && Divides(key)
  {
    Block(t, At(s, l)) == Cipher.Encrypt(Block(s, At(s, l)), key, BLOCK / |key|)
  }

  ghost predicate KeptAt(s: Fs, t: Fs, l: Loc)
    requires Shape(s) && Shape(t)
  {
    Block(t, At(s, l)) == Block(s, At(s, l))
  }

  lemma BlockEncrypted(s: Fs, n: nat, size: nat, key: seq<int>, k: nat)
    requires Inv(s) && n < |s.inodes| && size % BLOCK != 0 && size / BLOCK < MAX_BLOCKS && HoleFree(s, n, size)
      && Divides(key)
    requires k * BLOCK < size
    ensures CipherAt(s, CryptFile(s, n, size, key, true), DataLoc(n, k), key)
  {
    var b := At(s, DataLoc(n, k));
    CryptFileIs(s, n, size, key, true);
    VisitsOfBlock(s, n, size, k);
    var f := Routine(key, true);
    assert Times(f, s.blocks[b], 1) == Times(f, f(s.blocks[b]), 0) == f(s.blocks[b]);
  }

  lemma BlockKept(s: Fs, n: nat, size: nat, key: seq<int>, l: Loc)
    requires Inv(s) && n < |s.inodes| && size / BLOCK < MAX_BLOCKS && Divides(key)
    requires At(s, l) != 0 && (l.n != n || !IsData(l))
    ensures KeptAt(s, CryptFile(s, n, size, key, true), l)
  {
    CryptFileIs(s, n, size, key, true);
    NeverVisited(s, n, size, l);
  }

  /** The encrypted file, for a size that is no multiple of 1024: each block of the file holds its cipher text, and
      every other block in use holds what it held. */
  lemma FileEncrypted(s: Fs, n: nat, size: nat, key: seq<int>)
    requires Inv(s) && n < |s.inodes| && size % BLOCK != 0 && size / BLOCK < MAX_BLOCKS && HoleFree(s, n, size)
      && Divides(key)
    ensures var t := CryptFile(s, n, size, key, true);
      && (forall k: nat {:trigger DataLoc(n, k)} :: k * BLOCK < size ==> CipherAt(s, t, DataLoc(n, k), key))
      && (forall l: Loc {:trigger KeptAt(s, t, l)} :: At(s, l) != 0 && (l.n != n || !IsData(l)) ==> KeptAt(s, t, l))
  {
    var t := CryptFile(s, n, size, key, true);
    forall k: nat {:trigger DataLoc(n, k)} | k * BLOCK < size ensures CipherAt(s, t, DataLoc(n, k), key) {
      BlockEncrypted(s, n, size, key, k);
    }
    forall l: Loc {:trigger KeptAt(s, t, l)} | At(s, l) != 0 && (l.n != n || !IsData(l)) ensures KeptAt(s, t, l) {
      BlockKept(s, n, size, key, l);
    }
  }
}
