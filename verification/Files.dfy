/** A file as one zero-extended array of bytes over the block map: what fs/file_dev.c reads and writes. */
module Files {
  import opened Bytes
  import opened Zones

  const MAX_BYTES: nat := MAX_BLOCKS * BLOCK

  /** Byte `p` of file `n`; a hole reads as zero. */
  function ByteAt(s: Fs, n: nat, p: nat): byte
    requires Shape(s) && p < MAX_BYTES
  {
    var b := At(s, DataLoc(n, p / BLOCK));
    if b == 0 then 0 else Block(s, b)[p % BLOCK]
  }

  /** Byte `p` is byte p % 1024 of block p / 1024, or zero where that block is missing. */
  lemma ByteLayout(s: Fs, n: nat, p: nat)
    requires Inv(s) && n < |s.inodes| && p < (7 + 512 + 512 * 512) * 1024
    ensures var b := Bmap(s, n, p / 1024, false).1;
      b < s.nzones && ByteAt(s, n, p) == if b == 0 then 0 else s.blocks[b][p % 1024]
  {
    BmapReads(s, n, p / 1024);
  }

  /** Every byte of every file is the same in both states. */
  ghost predicate SameBytes(s: Fs, t: Fs)
    requires Shape(s) && Shape(t)
  {
    forall n: nat, p: nat {:trigger ByteAt(t, n, p)} :: p < MAX_BYTES ==> ByteAt(t, n, p) == ByteAt(s, n, p)
  }

  /** Adding a block to a file leaves what every file reads as it was. */
  lemma CreateKeepsBytes(s: Fs, n: nat, block: nat)
    requires Inv(s) && n < |s.inodes| && block < MAX_BLOCKS
    ensures SameBytes(s, Bmap(s, n, block, true).0)
  {
    CreateBlockKeeps(s, n, block);
    var t, b := Bmap(s, n, block, true).0, Bmap(s, n, block, true).1;
    forall m: nat, p: nat {:trigger ByteAt(t, m, p)} | p < MAX_BYTES ensures ByteAt(t, m, p) == ByteAt(s, m, p) {
      var l := DataLoc(m, p / BLOCK);
      if l == DataLoc(n, block) {
        assert At(t, l) == b;
      } else {
        assert At(t, l) == At(s, l);
      }
    }
  }

  /** File `n` of `t` is file `n` of `s` with `data` laid over it from byte `pos`; the other files read the same. */
  ghost predicate Spliced(s: Fs, t: Fs, n: nat, pos: nat, data: seq<byte>)
    requires Shape(s) && Shape(t)
  {
    forall m: nat, p: nat {:trigger ByteAt(t, m, p)} :: p < MAX_BYTES ==>
      ByteAt(t, m, p) == if m == n && pos <= p < pos + |data| then data[p - pos] else ByteAt(s, m, p)
  }

  /** Writing inside one block of a file is a splice. */
  lemma StoreSplices(s: Fs, n: nat, pos: nat, data: seq<byte>)
    requires Inv(s) && pos < MAX_BYTES && pos % BLOCK + |data| <= BLOCK && At(s, DataLoc(n, pos / BLOCK)) != 0
    ensures At(s, DataLoc(n, pos / BLOCK)) < s.nzones
    ensures var b := At(s, DataLoc(n, pos / BLOCK));
      Spliced(s, StoreBlock(s, b, Overlay(s.blocks[b], pos % BLOCK, data)), n, pos, data)
  {
    var l := DataLoc(n, pos / BLOCK);
    var b := At(s, l);
    var new_ := Overlay(s.blocks[b], pos % BLOCK, data);
    StoreKeeps(s, l, new_);
    var t := StoreBlock(s, b, new_);
    forall m: nat, p: nat {:trigger ByteAt(t, m, p)} | p < MAX_BYTES
      ensures ByteAt(t, m, p) == if m == n && pos <= p < pos + |data| then data[p - pos] else ByteAt(s, m, p)
    {
      var k := DataLoc(m, p / BLOCK);
      assert At(t, k) == At(s, k);
      if k == l {
        DataLocInjective(m, p / BLOCK, n, pos / BLOCK);
      }
    }
  }

  /** A block with `data` in place of its bytes from `off` on. */
  function Overlay(b: seq<byte>, off: nat, data: seq<byte>): (c: seq<byte>)
    requires off + |data| <= |b|
    ensures |c| == |b|
    ensures forall k :: 0 <= k < |b| ==> c[k] == if off <= k < off + |data| then data[k - off] else b[k]
  {
    b[..off] + data + b[off + |data|..]
  }

  lemma SpliceTrans(s: Fs, t: Fs, u: Fs, n: nat, pos: nat, a: seq<byte>, b: seq<byte>)
    requires Shape(s) && Shape(t) && Shape(u) && Spliced(s, t, n, pos, a) && Spliced(t, u, n, pos + |a|, b)
    ensures Spliced(s, u, n, pos, a + b)
  {
    forall m: nat, p: nat {:trigger ByteAt(u, m, p)} | p < MAX_BYTES
      ensures ByteAt(u, m, p) == if m == n && pos <= p < pos + |a + b| then (a + b)[p - pos] else ByteAt(s, m, p)
    {
      assert ByteAt(t, m, p) == if m == n && pos <= p < pos + |a| then a[p - pos] else ByteAt(s, m, p);
    }
  }

  /** A write of `data` at `pos`: the splice, the size it grows to, and no other inode. */
  ghost predicate Wrote(s: Fs, t: Fs, n: nat, pos: nat, data: seq<byte>)
    requires Shape(s) && Shape(t) && n < |s.inodes|
  {
    && |t.inodes| == |s.inodes| && Spliced(s, t, n, pos, data)
    && t.inodes[n].size == (if |data| > 0 && pos + |data| > s.inodes[n].size then pos + |data| else s.inodes[n].size)
    && (forall m {:trigger t.inodes[m]} :: 0 <= m < |s.inodes| && m != n ==> t.inodes[m] == s.inodes[m])
  }

  lemma WroteTrans(s: Fs, t: Fs, u: Fs, n: nat, pos: nat, a: seq<byte>, b: seq<byte>)
    requires Shape(s) && Shape(t) && Shape(u) && n < |s.inodes| && Wrote(s, t, n, pos, a)
      && Wrote(t, u, n, pos + |a|, b)
    ensures Wrote(s, u, n, pos, a + b)
  {
    SpliceTrans(s, t, u, n, pos, a, b);
  }

  lemma WroteNothing(s: Fs, n: nat, pos: nat)
    requires Shape(s) && n < |s.inodes|
    ensures Wrote(s, s, n, pos, [])
  {
  }

  /** Before a store: create_block found or made the block, or the zones are all taken; nothing has been written. */
  lemma CreateReady(s: Fs, n: nat, pos: nat)
    requires Inv(s) && n < |s.inodes| && pos < MAX_BYTES
    ensures var r := Bmap(s, n, pos / BLOCK, true);
      Wrote(s, r.0, n, pos, []) && (if r.1 == 0 then Full(r.0) else At(r.0, DataLoc(n, pos / BLOCK)) == r.1)
  {
    CreateBlockKeeps(s, n, pos / BLOCK);
    CreateKeepsBytes(s, n, pos / BLOCK);
  }

  lemma WroteAfterCreate(s: Fs, t: Fs, u: Fs, n: nat, pos: nat, data: seq<byte>)
    requires Shape(s) && Shape(t) && Shape(u) && n < |s.inodes| && Wrote(s, t, n, pos, []) && Wrote(t, u, n, pos, data)
    ensures Wrote(s, u, n, pos, data)
  {
    WroteTrans(s, t, u, n, pos, [], data);
    assert [] + data == data;
  }
}
