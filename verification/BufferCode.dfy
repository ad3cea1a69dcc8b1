/** fs/buffer.c as it runs, for calls that need not sleep: buffer heads relinked in place. A pointer to a head is its
  number in start_buffer, -1 for NULL. The store at line 103 is left out when the chain was empty. */
module BufferCode {
  import opened Bytes
  import opened CacheSteps
  import opened Common
  import opened BufferLists
  import opened BufferCache

  /** What the heads say of the buffers; `out` is the one off the queues, if any. */
  ghost function Bufs(h: seq<Head>, out: int): (b: seq<Buf>)
    ensures |b| == |h|
    ensures forall i {:trigger b[i]} :: 0 <= i < |h| ==>
      b[i] == Buf(h[i].key, h[i].count, i != out, h[i].uptodate, h[i].dirty, h[i].data)
  {
    seq(|h|, i requires 0 <= i < |h| => Buf(h[i].key, h[i].count, i != out, h[i].uptodate, h[i].dirty, h[i].data))
  }

  /** Only links have changed. */
  ghost predicate SameData(h: seq<Head>, t: seq<Head>) {
    |t| == |h| && forall x {:trigger t[x]} :: 0 <= x < |h| ==>
      t[x] == h[x].(prev := t[x].prev, next := t[x].next, prevFree := t[x].prevFree, nextFree := t[x].nextFree)
  }

  lemma UnlinkedData(h: seq<Head>, v: nat)
    requires v < |h| && -1 <= h[v].prev < |h| && -1 <= h[v].next < |h|
    requires var h1 := HashUnlinked(h, v); 0 <= h1[v].prevFree < |h| && 0 <= h1[v].nextFree < |h|
    ensures SameData(h, FreeUnlinked(HashUnlinked(h, v), v))
  {
  }

  lemma LinkedData(h: seq<Head>, table: seq<int>, v: nat, first: nat)
    requires v < |h| && first < |h| && 0 <= h[first].prevFree < |h|
    requires |table| == NR_HASH && -1 <= table[Bucket(h[v].key)] < |h|
    ensures FreeLinked(h, v, first)[v].key == h[v].key
    ensures SameData(h, HashInserted(FreeLinked(h, v, first), table, v))
  {
  }

  /** Only contents have changed, neither links nor blocks. */
  ghost predicate SameLinks(h: seq<Head>, t: seq<Head>) {
    |t| == |h| && forall x {:trigger t[x]} :: 0 <= x < |h| ==>
      t[x] == h[x].(count := t[x].count, uptodate := t[x].uptodate, dirty := t[x].dirty, data := t[x].data)
  }

  lemma SameLinksTrans(h: seq<Head>, t: seq<Head>, u: seq<Head>)
    requires SameLinks(h, t) && SameLinks(t, u)
    ensures SameLinks(h, u)
  {
  }

  lemma LinkedFrame(h: seq<Head>, t: seq<Head>, table: seq<int>, first: int, ring: seq<nat>, chains: seq<seq<nat>>,
    out: int)
    requires Linked(h, table, first, ring, chains, out) && SameLinks(h, t)
    ensures Linked(t, table, first, ring, chains, out)
  {
    RingFrame(h, t, ring, first);
    forall b {:trigger chains[b]} | 0 <= b < NR_HASH
      ensures Chain(t, chains[b], table[b]) && Keyed(t, chains[b], b, out)
    {
      ChainFrame(h, t, chains[b], table[b]);
      assert Keyed(h, chains[b], b, out);
    }
    forall x {:trigger Placed(t, chains, x)} | 0 <= x < |h| && x != out
      ensures Placed(t, chains, x) { assert Placed(h, chains, x); }
  }

  predicate SameLink(f: Head, g: Head) {
    g.prev == f.prev && g.next == f.next && g.prevFree == f.prevFree && g.nextFree == f.nextFree
  }

  /** A head off the queues may be given another block. */
  lemma RekeyedFrame(h: seq<Head>, v: nat, f: Head, table: seq<int>, first: int, ring: seq<nat>, chains: seq<seq<nat>>)
    requires Linked(h, table, first, ring, chains, v) && v < |h|
    requires SameLink(h[v], f)
    ensures Linked(h[v := f], table, first, ring, chains, v)
  {
    var t := h[v := f];
    RingFrame(h, t, ring, first);
    forall b {:trigger chains[b]} | 0 <= b < NR_HASH
      ensures Chain(t, chains[b], table[b]) && Keyed(t, chains[b], b, v)
    {
      ChainFrame(h, t, chains[b], table[b]);
      assert Keyed(h, chains[b], b, v);
    }
    forall x {:trigger Placed(t, chains, x)} | 0 <= x < |h| && x != v
      ensures Placed(t, chains, x) { assert Placed(h, chains, x); }
  }

  /** Where on a chain the buffer of a block is, if anywhere. */
  lemma FoundOnChain(h: seq<Head>, table: seq<int>, first: int, ring: seq<nat>, chains: seq<seq<nat>>, out: int,
      disk: map<Key, seq<byte>>, key: Key, r: int)
    requires Linked(h, table, first, ring, chains, out) && key.dev != 0
    requires var ch := chains[Bucket(key)];
      if r == NULL then (forall x :: x in ch ==> x < |h| && h[x].key != key)
      else 0 <= r < |h| && r in ch && h[r].key == key
    requires OneBuffer(Sys(Bufs(h, out), [], disk))
    ensures FindBuffer(Bufs(h, out), key) == r
  {
    var bufs := Bufs(h, out);
    var f := FindBuffer(bufs, key);
    var ch := chains[Bucket(key)];
    assert Keyed(h, ch, Bucket(key), out);
    if f >= 0 { assert bufs[f].queued && Placed(h, chains, f); }
    if r >= 0 { assert bufs[r].queued && bufs[r].key == key; }
  }

  lemma CanUnlink(h: seq<Head>, table: seq<int>, first: int, ring: seq<nat>, chains: seq<seq<nat>>, p: nat)
    requires Linked(h, table, first, ring, chains, NULL) && p < |ring| && |ring| > 1
    ensures var v := ring[p];
      && v < |h| && -1 <= h[v].prev < |h| && -1 <= h[v].next < |h|
      && var h1 := HashUnlinked(h, v); 0 <= h1[v].prevFree < |h| && 0 <= h1[v].nextFree < |h|
  {
    RemoveLinked(h, table, first, ring, chains, p);
  }

  /** After the stores of remove_from_queues. */
  lemma UnlinkedLinked(h: seq<Head>, table: seq<int>, first: int, ring: seq<nat>, chains: seq<seq<nat>>, p: nat,
    t: seq<Head>, table': seq<int>, first': int)
    requires Linked(h, table, first, ring, chains, NULL) && p < |ring| && |ring| > 1
    requires var v := ring[p];
      && v < |h| && -1 <= h[v].prev < |h| && -1 <= h[v].next < |h|
      && var h1 := HashUnlinked(h, v);
      && 0 <= h1[v].prevFree < |h| && 0 <= h1[v].nextFree < |h|
      && t == FreeUnlinked(h1, v) && table' == TableWithout(h, table, v)
      && first' == if first == v then h1[v].nextFree else first
    ensures Linked(t, table', first', Without(ring, p), ChainsWithout(h, chains, ring[p]), ring[p])
  {
    RemoveLinked(h, table, first, ring, chains, p);
  }

  class Cache {
    const head: array<Head>
    const table: array<int>
    var freeList: int
    var disk: map<Key, seq<byte>>
    ghost var ring: seq<nat>
    ghost var chains: seq<seq<nat>>
    ghost var out: int

    ghost predicate Wf()
      reads this, head, table
    {
      Linked(head[..], table[..], freeList, ring, chains, out) && -1 <= out < head.Length
    }

    ghost function S(): Sys
      reads this, head
    {
      Sys(Bufs(head[..], out), [], disk)
    }

    /** Between calls: all buffers are on their lists, and no block is in two of them. */
    ghost predicate Valid()
      reads this, head, table
    {
      Wf() && out == NULL && OneBuffer(S()) && head.Length > 1
    }

    /** find_buffer */
    method FindBuffer(key: Key) returns (r: int)
      requires Wf() && OneBuffer(S()) && key.dev != 0
      ensures r == CacheSteps.FindBuffer(S().bufs, key)
    {
      ghost var h := head[..];
      ghost var ch := chains[Bucket(key)];
      ghost var k := 0;
      assert Chain(h, ch, table[Bucket(key)]) && Keyed(h, ch, Bucket(key), out);
      r := table[Bucket(key)];
      while r != NULL && !(head[r].key.dev == key.dev && head[r].key.block == key.block)
        invariant 0 <= k <= |ch| && r == At(ch, k) && -1 <= r < head.Length
        invariant forall j :: 0 <= j < k ==> h[ch[j]].key != key
        decreases |ch| - k
      {
        assert h[ch[k]].next == At(ch, k + 1);
        r := head[r].next;
        k := k + 1;
      }
      if r != NULL { assert ch[k] in ch; }
      FoundOnChain(h, table[..], freeList, ring, chains, out, disk, key, r);
    }

    /** remove_from_queues, for the head at place `p` of the free list. */
    method RemoveFromQueues(v: nat, ghost p: nat)
      requires Wf() && out == NULL && p < |ring| && ring[p] == v && |ring| > 1 && v < head.Length
      modifies this, head, table
      ensures Wf() && out == v && ring == Without(old(ring), p) && SameData(old(head[..]), head[..])
        && disk == old(disk)
    {
      assert table.Length == |chains| == NR_HASH;
      CanUnlink(head[..], table[..], freeList, ring, chains, p);
      ghost var r, c := Without(ring, p), ChainsWithout(head[..], chains, v);
      UnlinkBoth(v);
      UnlinkedLinked(old(head[..]), old(table[..]), old(freeList), ring, chains, p, head[..], table[..], freeList);
      ring, chains, out := r, c, v;
    }

    method UnlinkBoth(v: nat)
      requires v < head.Length && table.Length == NR_HASH && -1 <= head[v].prev < head.Length
        && -1 <= head[v].next < head.Length
      requires var h1 := HashUnlinked(head[..], v);
        0 <= h1[v].prevFree < head.Length && 0 <= h1[v].nextFree < head.Length
      modifies `freeList, head, table
      ensures var h := old(head[..]); var h1 := HashUnlinked(h, v);
        && head[..] == FreeUnlinked(h1, v) && SameData(h, head[..])
        && table[..] == TableWithout(h, old(table[..]), v)
        && freeList == if old(freeList) == v then h1[v].nextFree else old(freeList)
    {
      UnlinkedData(head[..], v);
      UnlinkHash(v);
      UnlinkFree(v);
    }

    method UnlinkHash(v: nat)
      requires v < head.Length && table.Length == NR_HASH
      requires -1 <= head[v].prev < head.Length && -1 <= head[v].next < head.Length
      modifies head, table
      ensures head[..] == HashUnlinked(old(head[..]), v) && table[..] == TableWithout(old(head[..]), old(table[..]), v)
    {
      var next, prev := head[v].next, head[v].prev;
      if next != NULL {
        head[next] := head[next].(prev := prev);
      }
      if prev != NULL {
        head[prev] := head[prev].(next := next);
      }
      var b := Bucket(head[v].key);
      if table[b] == v {
        table[b] := next;
      }
    }

    method UnlinkFree(v: nat)
      requires v < head.Length && 0 <= head[v].prevFree < head.Length && 0 <= head[v].nextFree < head.Length
      modifies `freeList, head
      ensures head[..] == FreeUnlinked(old(head[..]), v)
      ensures freeList == if old(freeList) == v then old(head[v].nextFree) else old(freeList)
    {
      var a, b := head[v].prevFree, head[v].nextFree;
      head[a] := head[a].(nextFree := b);
      head[b] := head[b].(prevFree := a);
      if freeList == v {
        freeList := b;
      }
    }

    /** insert_into_queues */
    method InsertIntoQueues(v: nat)
      requires Wf() && out == v && v < head.Length
      modifies this, head, table
      ensures Wf() && out == NULL && ring == old(ring) + [v] && SameData(old(head[..]), head[..]) && disk == old(disk)
    {
      assert table.Length == |chains| == NR_HASH;
      InsertLinked(head[..], table[..], freeList, ring, chains, v);
      ghost var r, c := ring + [v], ChainsWith(head[..], chains, v);
      LinkBoth(v);
      ring, chains, out := r, c, NULL;
    }

    method LinkBoth(v: nat)
      requires v < head.Length && table.Length == NR_HASH && 0 <= freeList < head.Length
      requires 0 <= head[freeList].prevFree < head.Length && -1 <= table[Bucket(head[v].key)] < head.Length
      modifies head, table
      ensures var h := old(head[..]);
        && FreeLinked(h, v, freeList)[v].key == h[v].key
        && head[..] == HashInserted(FreeLinked(h, v, freeList), old(table[..]), v)
        && table[..] == TableWith(h, old(table[..]), v) && SameData(h, head[..])
    {
      LinkedData(head[..], table[..], v, freeList);
      LinkFree(v);
      LinkHash(v);
    }

    method LinkFree(v: nat)
      requires v < head.Length && 0 <= freeList < head.Length && 0 <= head[freeList].prevFree < head.Length
      modifies head
      ensures head[..] == FreeLinked(old(head[..]), v, freeList)
    {
      var l := head[freeList].prevFree;
      head[v] := head[v].(nextFree := freeList, prevFree := l);
      head[l] := head[l].(nextFree := v);
      head[freeList] := head[freeList].(prevFree := v);
    }

    method LinkHash(v: nat)
      requires v < head.Length && table.Length == NR_HASH && -1 <= table[Bucket(head[v].key)] < head.Length
      modifies head, table
      ensures head[..] == HashInserted(old(head[..]), old(table[..]), v)
      ensures table[..] == TableWith(old(head[..]), old(table[..]), v)
    {
      head[v] := head[v].(prev := NULL, next := NULL);
      if head[v].key.dev == 0 {
        return;
      }
      var b := Bucket(head[v].key);
      var top := table[b];
      head[v] := head[v].(next := top);
      table[b] := v;
      if top != NULL {
        head[top] := head[top].(prev := v);
      }
    }

    /** The scan of the free list has come to head `v`, at place `p`, and found none yet. */
    ghost predicate Scanning(v: int, p: nat)
      requires Wf() && out == NULL
      reads this, head, table
    {
      InRing();
      && p < |ring| && v == ring[p] && 0 <= v < head.Length
      && Victim(S().bufs, ring, p) == Victim(S().bufs, ring, 0)
    }

    lemma ScanStarts()
      requires Wf() && out == NULL
      ensures Scanning(freeList, 0)
    {
      InRing();
      assert ring[0] < |head[..]|;
    }

    lemma ScanGoesOn(v: int, p: nat)
      requires Wf() && out == NULL && Scanning(v, p)
      ensures forall j :: 0 <= j < |ring| ==> ring[j] < |S().bufs|
      ensures head[v].count == 0 ==> Victim(S().bufs, ring, 0) == p
      ensures head[v].count != 0 ==>
        if head[v].nextFree == freeList then p + 1 == |ring| == Victim(S().bufs, ring, 0)
        else Scanning(head[v].nextFree, p + 1)
    {
      InRing();
      var h := head[..];
      assert h[ring[p]].nextFree == ring[After(p, |ring|)];
      assert S().bufs[ring[p]].count == head[v].count;
      if p + 1 < |ring| { assert ring[p + 1] < |h|; }
    }

    /** The free-list scan of getblk: the first buffer nobody uses, or -1 when the scan comes round. */
    method ScanFree() returns (v: int, ghost p: nat)
      requires Wf() && out == NULL
      ensures forall j :: 0 <= j < |ring| ==> ring[j] < |S().bufs|
      ensures v == (if Victim(S().bufs, ring, 0) == |ring| then -1 else ring[Victim(S().bufs, ring, 0)])
        && v < head.Length
      ensures p == Victim(S().bufs, ring, 0)
    {
      ScanStarts();
      p := 0;
      v := freeList;
      ScanGoesOn(v, p);
      while head[v].count != 0
        invariant Scanning(v, p)
        decreases |ring| - p
      {
        ScanGoesOn(v, p);
        v := head[v].nextFree;
        p := p + 1;
        if v == freeList {
          v := -1;
          return;
        }
      }
      ScanGoesOn(v, p);
    }

    /** One round of sync_dev: ll_rw_block(WRITE, ..) and the wait for it. */
    method WriteOut(i: nat)
      requires Wf() && i < head.Length
      modifies this, head
      ensures Wf() && S() == Written(old(S()), i) && ring == old(ring) && out == old(out)
        && SameLinks(old(head[..]), head[..])
    {
      ghost var h := head[..];
      if head[i].dirty {
        disk := disk[head[i].key := head[i].data];
        head[i] := head[i].(dirty := false, uptodate := true);
      }
      LinkedFrame(h, head[..], table[..], freeList, ring, chains, out);
      assert S().bufs == Written(old(S()), i).bufs;
    }

    /** sync_dev has come to buffer `i`. */
    ghost predicate Syncs(s0: Sys, h0: seq<Head>, dev: nat, i: nat)
      reads this, head, table
    {
      Wf() && i <= head.Length && SameLinks(h0, head[..]) && Synced(S(), dev, i) == Synced(s0, dev, 0)
    }

    method SyncOne(i: nat, dev: nat, ghost s0: Sys, ghost h0: seq<Head>)
      requires Syncs(s0, h0, dev, i) && i < head.Length
      modifies this, head
      ensures Syncs(s0, h0, dev, i + 1) && ring == old(ring) && out == old(out)
    {
      ghost var h := head[..];
      if head[i].key.dev == dev {
        WriteOut(i);
      }
      SameLinksTrans(h0, h, head[..]);
    }

    method SyncDev(dev: nat)
      requires Wf()
      modifies this, head
      ensures Wf() && S() == Synced(old(S()), dev, 0) && ring == old(ring) && out == old(out)
        && SameLinks(old(head[..]), head[..])
    {
      ghost var s0, h0 := S(), head[..];
      var i := 0;
      while i < head.Length
        invariant i <= head.Length && Syncs(s0, h0, dev, i) && ring == old(ring) && out == old(out)
      {
        SyncOne(i, dev, s0, h0);
        i := i + 1;
      }
    }

    /** Take head `v` off the queues and write it out if it is dirty. */
    method Take(v: nat, ghost p: nat)
      requires Valid() && p < |ring| && ring[p] == v && |ring| > 1 && v < head.Length
      modifies this, head, table
      ensures Wf() && out == v && ring == Without(old(ring), p) && S() == Taken(old(S()), v)
    {
      ghost var s := S();
      head[v] := head[v].(count := 1);
      LinkedFrame(old(head[..]), head[..], table[..], freeList, ring, chains, NULL);
      RemoveFromQueues(v, p);
      assert S().bufs == Put(s, v, s.bufs[v].(count := 1, queued := false)).bufs;
      if head[v].dirty {
        SyncDev(head[v].key.dev);
      }
    }

    lemma InRing()
      requires Wf()
      ensures forall j :: 0 <= j < |ring| ==> ring[j] < |S().bufs|
      ensures Valid() ==> Whole(S())
    {
    }

    /** getblk; -1 where it would sleep until a buffer is released. */
    method GetBlk(key: Key) returns (b: int)
      requires Valid() && key.dev != 0
      modifies this, head, table
      ensures forall j :: 0 <= j < |old(ring)| ==> old(ring)[j] < |old(S()).bufs|
      ensures Valid() && Got(S(), ring, b) == BufferCache.GetBlk(old(S()), old(ring), key)
      ensures forall mem {:trigger Coherent(old(S()), mem)} :: Coherent(old(S()), mem) ==> Coherent(S(), mem)
    {
      forall mem | Coherent(S(), mem) ensures Coherent(BufferCache.GetBlk(S(), ring, key).s, mem) {
        InRing();
        GetBlkCoherent(S(), ring, key, mem);
      }
      ghost var s, r := S(), ring;
      b := FindBuffer(key);
      if b != NULL {
        head[b] := head[b].(count := head[b].count + 1);
        LinkedFrame(old(head[..]), head[..], table[..], freeList, ring, chains, NULL);
        assert S().bufs == Put(s, b, Counted1(s.bufs[b])).bufs;
        return;
      }
      ghost var p;
      b, p := ScanFree();
      if b == -1 {
        return;
      }
      RingLong(p);
      Take(b, p);
      TakenKeys(s, b);
      var ok := Assign(b, key);
      assert ok;
    }

    /** The rest of getblk, which ends as the step Finish of the step machine does: the head goes back on the queues,
        with its new block, or without one when the block has come into another buffer meanwhile. */
    method Assign(v: nat, key: Key) returns (ok: bool)
      requires Wf() && out == v && v < head.Length && head.Length > 1 && key.dev != 0 && OneBuffer(S())
      modifies this, head, table
      ensures Valid() && ring == old(ring) + [v] && ok == (CacheSteps.FindBuffer(old(S()).bufs, key) == -1)
      ensures S() == Put(old(S()), v, Assigned(old(S()).bufs[v], key, ok))
    {
      ghost var s := S();
      Rekey(v, head[v].(key := key, dirty := false, uptodate := false));
      SameFound(s, S(), v, key);
      var b := FindBuffer(key);
      ok := b == NULL;
      if !ok {
        Rekey(v, head[v].(key := NO_KEY, count := 0));
      }
      InsertIntoQueues(v);
      assert S().bufs == Put(s, v, Assigned(s.bufs[v], key, ok)).bufs;
    }

    method Rekey(v: nat, f: Head)
      requires Wf() && out == v && v < head.Length
      requires SameLink(head[v], f)
      modifies head
      ensures Wf() && head[..] == old(head[..])[v := f]
    {
      RekeyedFrame(head[..], v, f, table[..], freeList, ring, chains);
      head[v] := f;
    }

    /** A buffer off the queues is not found. */
    static lemma SameFound(s: Sys, t: Sys, v: nat, key: Key)
      requires v < |s.bufs| == |t.bufs| && t.bufs == s.bufs[v := t.bufs[v]] && !s.bufs[v].queued && !t.bufs[v].queued
      ensures CacheSteps.FindBuffer(t.bufs, key) == -1 <==> CacheSteps.FindBuffer(s.bufs, key) == -1
      ensures OneBuffer(s) ==> OneBuffer(t)
    {
      var a, b := CacheSteps.FindBuffer(t.bufs, key), CacheSteps.FindBuffer(s.bufs, key);
      if a != -1 { assert s.bufs[a] == t.bufs[a]; }
      if b != -1 { assert s.bufs[b] == t.bufs[b]; }
    }

    /** The free list holds every buffer, so there are at least two on it. */
    lemma RingLong(p: nat)
      requires Valid() && p < |ring|
      ensures |ring| > 1
    {
      assert 0 in ring && 1 in ring;
    }

    /** brelse, where the count is positive; it panics otherwise. */
    method BRelse(b: nat)
      requires Valid() && b < head.Length && head[b].count > 0
      modifies this, head
      ensures Valid() && ring == old(ring)
        && S() == Put(old(S()), b, old(S()).bufs[b].(count := old(S()).bufs[b].count - 1))
      ensures forall mem {:trigger Coherent(old(S()), mem)} :: Coherent(old(S()), mem) ==> Coherent(S(), mem)
    {
      ghost var s := S();
      forall mem | Coherent(s, mem) ensures Coherent(Put(s, b, s.bufs[b].(count := s.bufs[b].count - 1)), mem) {
        LessCoherent(s, Put(s, b, s.bufs[b].(count := s.bufs[b].count - 1)), mem);
      }
      head[b] := head[b].(count := head[b].count - 1);
      LinkedFrame(old(head[..]), head[..], table[..], freeList, ring, chains, NULL);
      assert S().bufs == Put(s, b, s.bufs[b].(count := s.bufs[b].count - 1)).bufs;
    }

    /** bread; -1 as in getblk, or, for C's NULL, when the block cannot be read and the buffer has been released
        again. */
    method BRead(key: Key, readable: bool) returns (b: int)
      requires Valid() && key.dev != 0
      modifies this, head, table
      ensures forall j :: 0 <= j < |old(ring)| ==> old(ring)[j] < |old(S()).bufs|
      ensures Valid()
      ensures var g := BufferCache.GetBlk(old(S()), old(ring), key);
        && ring == g.ring && (S(), b) == BufferCache.BRead(g, readable)
      ensures b >= 0 ==> b < head.Length && head[b].key == key && head[b].uptodate
      ensures forall mem {:trigger Reads((S(), b), key, mem)} :: Coherent(old(S()), mem) ==> Reads((S(), b), key, mem)
    {
      ghost var s, r := S(), ring;
      InRing();
      b := GetBlk(key);
      if b >= 0 && !head[b].uptodate {
        if readable {
          ReadBlock(b);
        } else {
          BRelse(b);
          b := -1;
        }
      }
      ReadsKey(s, r, key, readable);
      forall mem | Coherent(s, mem) ensures Reads((S(), b), key, mem) { BReadReturns(s, r, key, readable, mem); }
    }

    /** ll_rw_block(READ, ..) and the wait for it. */
    method ReadBlock(b: nat)
      requires Valid() && b < head.Length
      modifies head
      ensures Valid() && ring == old(ring)
      ensures var s := old(S());
        S() == Put(s, b, s.bufs[b].(data := OnDisk(s.disk, s.bufs[b].key), uptodate := true, dirty := false))
    {
      ghost var h, s := head[..], S();
      var data := if head[b].key in disk then disk[head[b].key] else [];
      head[b] := head[b].(data := data, uptodate := true, dirty := false);
      LinkedFrame(h, head[..], table[..], freeList, ring, chains, NULL);
      assert S().bufs == Put(s, b,
        s.bufs[b].(data := OnDisk(s.disk, s.bufs[b].key), uptodate := true, dirty := false)).bufs;
    }

    /** What a user does with a block it has: new contents, and the dirty mark. */
    method Store(b: nat, data: seq<byte>)
      requires Valid() && b < head.Length && head[b].uptodate && head[b].key.dev != 0
      modifies head
      ensures Valid() && ring == old(ring) && head[b].key == old(head[b].key)
      ensures S() == Put(old(S()), b, old(S()).bufs[b].(data := data, dirty := true))
      ensures forall mem {:trigger Coherent(old(S()), mem)} :: Coherent(old(S()), mem) ==>
        Coherent(S(), mem[old(head[b].key) := data])
    {
      ghost var s, h := S(), head[..];
      InRing();
      forall mem | Coherent(s, mem)
        ensures Coherent(Put(s, b, s.bufs[b].(data := data, dirty := true)), mem[s.bufs[b].key := data])
      {
        StoreCoherent(s, b, data, mem);
      }
      head[b] := head[b].(data := data, dirty := true);
      LinkedFrame(h, head[..], table[..], freeList, ring, chains, NULL);
      assert S().bufs == Put(s, b, s.bufs[b].(data := data, dirty := true)).bufs;
    }

    /** buffer_init, for `n` buffers. */
    constructor (n: nat, disk: map<Key, seq<byte>>)
      requires n > 1
      ensures Valid() && S() == Sys(Boot(n, 0, disk).bufs, [], disk) && Coherent(S(), disk)
      ensures fresh(head) && fresh(table)
    {
      head := new Head[n](i => Head(NO_KEY, 0, false, false, [], NULL, NULL, NULL, NULL));
      table := new int[NR_HASH](i => NULL);
      freeList := 0;
      this.disk := disk;
      ring, chains, out := seq(n, i => i), seq(NR_HASH, i => []), NULL;
      new;
      var i := 0;
      while i < n
        modifies head
        invariant i <= n
        invariant forall j :: 0 <= j < n ==>
          head[j] == Head(NO_KEY, 0, false, false, [], NULL, NULL, if j < i then j - 1 else NULL, if j < i then j + 1
            else NULL)
      {
        head[i] := head[i].(prevFree := i - 1, nextFree := i + 1);
        i := i + 1;
      }
      head[0] := head[0].(prevFree := n - 1);
      head[n - 1] := head[n - 1].(nextFree := 0);
      InitLinked(head[..], table[..], ring, chains);
      assert S().bufs == Boot(n, 0, disk).bufs;
    }
  }

  lemma InitLinked(h: seq<Head>, table: seq<int>, ring: seq<nat>, chains: seq<seq<nat>>)
    requires |h| == |ring| > 1 && |table| == |chains| == NR_HASH
    requires forall j {:trigger h[j]} :: 0 <= j < |h| ==>
      h[j] == Head(NO_KEY, 0, false, false, [], NULL, NULL, Before(j, |h|), After(j, |h|))
    requires forall j :: 0 <= j < |ring| ==> ring[j] == j
    requires forall b :: 0 <= b < NR_HASH ==> table[b] == NULL && chains[b] == []
    ensures Linked(h, table, 0, ring, chains, NULL)
  {
    forall x: nat {:trigger x in ring} | x < |h| ensures x in ring { assert ring[x] == x; }
    forall k {:trigger h[ring[k]]} | 0 <= k < |ring|
      ensures h[ring[k]].nextFree == ring[After(k, |ring|)] && h[ring[k]].prevFree == ring[Before(k, |ring|)]
    {
    }
  }
}
