/** The two kinds of list every buffer head is on: the circular free list and the hash chains of fs/buffer.c. A pointer
  to a head is its number in start_buffer, -1 for NULL. */
module BufferLists {
  import opened Bytes
  import opened CacheSteps
  import opened Common

  const NULL: int := -1
  const NR_HASH: nat := 307

  datatype Head = Head(key: Key, count: nat, uptodate: bool, dirty: bool, data: seq<byte>,
    prev: int, next: int, prevFree: int, nextFree: int)

  ghost predicate Distinct(s: seq<nat>) {
    forall i, j :: 0 <= i < j < |s| ==> s[i] != s[j]
  }

  lemma WithoutHas(s: seq<nat>, p: nat, x: nat)
    requires p < |s|
    ensures x in Without(s, p) ==> x in s
    ensures x in s && x != s[p] ==> x in Without(s, p)
  {
    assert s == s[..p] + [s[p]] + s[p + 1..];
  }

  lemma WithoutDistinct(s: seq<nat>, p: nat)
    requires p < |s| && Distinct(s)
    ensures Distinct(Without(s, p)) && s[p] !in Without(s, p)
  {
  }

  // ---------------------------------------------------------------------------------------------------------
  // The free list

  function After(k: nat, n: nat): nat { if k + 1 >= n then 0 else k + 1 }
  function Before(k: nat, n: nat): nat { if k == 0 then if n == 0 then 0 else n - 1 else k - 1 }

  /** The free list, from `first` on, goes through the heads `ring` and round to `first` again, both ways. */
  ghost predicate Ring(h: seq<Head>, ring: seq<nat>, first: int) {
    && |ring| > 0 && first == ring[0] && Distinct(ring)
    && (forall k {:trigger ring[k]} :: 0 <= k < |ring| ==> ring[k] < |h|)
    && (forall k {:trigger h[ring[k]].nextFree} :: 0 <= k < |ring| ==> h[ring[k]].nextFree == ring[After(k, |ring|)])
    && (forall k {:trigger h[ring[k]].prevFree} :: 0 <= k < |ring| ==> h[ring[k]].prevFree == ring[Before(k, |ring|)])
  }

  /** The two stores that take head `v` off the free list. */
  function FreeUnlinked(h: seq<Head>, v: nat): (t: seq<Head>)
    requires v < |h| && 0 <= h[v].prevFree < |h| && 0 <= h[v].nextFree < |h|
    ensures |t| == |h| && forall x {:trigger t[x]} :: 0 <= x < |h| ==> t[x] == h[x].(
      nextFree := if x == h[v].prevFree then h[v].nextFree else h[x].nextFree,
      prevFree := if x == h[v].nextFree then h[v].prevFree else h[x].prevFree)
  {
    var a, b := h[v].prevFree, h[v].nextFree;
    var h1 := h[a := h[a].(nextFree := b)];
    h1[b := h1[b].(prevFree := a)]
  }

  /** The place in a list, before its place `p` was left out, of what is now at `k`. */
  function Up(k: nat, p: nat): nat { if k < p then k else k + 1 }

  lemma Neighbours(n: nat, p: nat, k: nat)
    requires n > 1 && p < n && k < n - 1
    ensures Up(k, p) < n && Up(k, p) != p
    ensures Up(After(k, n - 1), p) == if Up(k, p) == Before(p, n) then After(p, n) else After(Up(k, p), n)
    ensures Up(Before(k, n - 1), p) == if Up(k, p) == After(p, n) then Before(p, n) else Before(Up(k, p), n)
  {
  }

  /** The links of one head after the unlinking, from its links before. */
  lemma UnlinkFreeOne(h: seq<Head>, ring: seq<nat>, p: nat, k: nat)
    requires |ring| > 1 && p < |ring| && k < |ring| - 1
    requires var n := |ring|; var k0 := Up(k, p);
      && ring[p] < |h| && ring[k0] < |h| && ring[Before(p, n)] < |h| && ring[After(p, n)] < |h|
      && h[ring[p]].prevFree == ring[Before(p, n)] && h[ring[p]].nextFree == ring[After(p, n)]
      && (ring[k0] == ring[Before(p, n)] <==> k0 == Before(p, n))
        && (ring[k0] == ring[After(p, n)] <==> k0 == After(p, n))
      && h[ring[k0]].nextFree == ring[After(k0, n)] && h[ring[k0]].prevFree == ring[Before(k0, n)]
    ensures var r := Without(ring, p); var t := FreeUnlinked(h, ring[p]);
      t[r[k]].nextFree == r[After(k, |r|)] && t[r[k]].prevFree == r[Before(k, |r|)]
  {
    Neighbours(|ring|, p, k);
    assert Without(ring, p)[k] == ring[Up(k, p)];
  }

  lemma UnlinkFreeAt(h: seq<Head>, ring: seq<nat>, first: int, p: nat, k: nat)
    requires Ring(h, ring, first) && p < |ring| && |ring| > 1 && k < |ring| - 1
    requires h[ring[p]].prevFree == ring[Before(p, |ring|)] && h[ring[p]].nextFree == ring[After(p, |ring|)]
    ensures var r := Without(ring, p); var t := FreeUnlinked(h, ring[p]);
      t[r[k]].nextFree == r[After(k, |r|)] && t[r[k]].prevFree == r[Before(k, |r|)]
  {
    var n, k0 := |ring|, Up(k, p);
    assert h[ring[k0]].nextFree == ring[After(k0, n)] && h[ring[k0]].prevFree == ring[Before(k0, n)];
    UnlinkFreeOne(h, ring, p, k);
  }

  lemma UnlinkFree(h: seq<Head>, ring: seq<nat>, first: int, p: nat)
    requires Ring(h, ring, first) && p < |ring| && |ring| > 1
    ensures var v := ring[p]; 0 <= h[v].prevFree < |h| && 0 <= h[v].nextFree < |h|
    ensures var v := ring[p]; Ring(FreeUnlinked(h, v), Without(ring, p), if first == v then h[v].nextFree else first)
  {
    var v, r := ring[p], Without(ring, p);
    WithoutDistinct(ring, p);
    assert h[ring[p]].prevFree == ring[Before(p, |ring|)] && h[ring[p]].nextFree == ring[After(p, |ring|)];
    var t := FreeUnlinked(h, v);
    forall k {:trigger t[r[k]]} | 0 <= k < |r|
      ensures t[r[k]].nextFree == r[After(k, |r|)] && t[r[k]].prevFree == r[Before(k, |r|)]
    {
      UnlinkFreeAt(h, ring, first, p, k);
    }
  }

  /** The four stores that put head `v` at the end of the free list. */
  function FreeLinked(h: seq<Head>, v: nat, first: nat): (t: seq<Head>)
    requires v < |h| && first < |h| && 0 <= h[first].prevFree < |h|
    ensures |t| == |h| && forall x {:trigger t[x]} :: 0 <= x < |h| ==>
      t[x] == h[x].(nextFree := t[x].nextFree, prevFree := t[x].prevFree)
  {
    var l := h[first].prevFree;
    var h1 := h[v := h[v].(nextFree := first, prevFree := l)];
    var h2 := h1[l := h1[l].(nextFree := v)];
    h2[first := h2[first].(prevFree := v)]
  }

  lemma LinkFree(h: seq<Head>, ring: seq<nat>, first: int, v: nat)
    requires Ring(h, ring, first) && v < |h| && v !in ring
    ensures 0 <= first < |h| && 0 <= h[first].prevFree < |h| && Ring(FreeLinked(h, v, first), ring + [v], first)
  {
    var n, r := |ring|, ring + [v];
    assert h[ring[0]].prevFree == ring[Before(0, n)];
    var t := FreeLinked(h, v, first);
    forall k {:trigger t[r[k]].nextFree} | 0 <= k < |r| ensures t[r[k]].nextFree == r[After(k, |r|)] {
      if k < n { assert h[ring[k]].nextFree == ring[After(k, n)]; }
    }
    forall k {:trigger t[r[k]].prevFree} | 0 <= k < |r| ensures t[r[k]].prevFree == r[Before(k, |r|)] {
      if k < n { assert h[ring[k]].prevFree == ring[Before(k, n)]; }
    }
  }

  // ---------------------------------------------------------------------------------------------------------
  // A hash chain

  function At(ch: seq<nat>, k: int): int { if 0 <= k < |ch| then ch[k] else NULL }

  /** The chain from `top` on goes through the heads `ch`, both ways. */
  ghost predicate Chain(h: seq<Head>, ch: seq<nat>, top: int) {
    && top == At(ch, 0) && Distinct(ch)
    && (forall k {:trigger ch[k]} :: 0 <= k < |ch| ==> ch[k] < |h|)
    && (forall k {:trigger h[ch[k]].next} :: 0 <= k < |ch| ==> h[ch[k]].next == At(ch, k + 1))
    && (forall k {:trigger h[ch[k]].prev} :: 0 <= k < |ch| ==> h[ch[k]].prev == At(ch, k - 1))
  }

  /** The stores that take head `v` off its chain, if it is on one. */
  function HashUnlinked(h: seq<Head>, v: nat): (t: seq<Head>)
    requires v < |h| && -1 <= h[v].prev < |h| && -1 <= h[v].next < |h|
    ensures |t| == |h| && forall x {:trigger t[x]} :: 0 <= x < |h| ==> t[x] == h[x].(
      next := if x == h[v].prev then h[v].next else h[x].next,
      prev := if x == h[v].next then h[v].prev else h[x].prev)
  {
    var a, b := h[v].prev, h[v].next;
    var h1 := if b != NULL then h[b := h[b].(prev := a)] else h;
    if a != NULL then h1[a := h1[a].(next := b)] else h1
  }

  lemma UnlinkHashNext(h: seq<Head>, ch: seq<nat>, top: int, p: nat, k: nat)
    requires Chain(h, ch, top) && p < |ch| && k < |ch| - 1
    requires -1 <= h[ch[p]].prev < |h| && -1 <= h[ch[p]].next < |h|
    ensures var r := Without(ch, p); HashUnlinked(h, ch[p])[r[k]].next == At(r, k + 1)
  {
    var k0 := if k < p then k else k + 1;
    assert h[ch[p]].prev == At(ch, p - 1) && h[ch[p]].next == At(ch, p + 1);
    assert h[ch[k0]].next == At(ch, k0 + 1);
  }

  lemma UnlinkHashPrev(h: seq<Head>, ch: seq<nat>, top: int, p: nat, k: nat)
    requires Chain(h, ch, top) && p < |ch| && k < |ch| - 1
    requires -1 <= h[ch[p]].prev < |h| && -1 <= h[ch[p]].next < |h|
    ensures var r := Without(ch, p); HashUnlinked(h, ch[p])[r[k]].prev == At(r, k - 1)
  {
    var k0 := if k < p then k else k + 1;
    assert h[ch[p]].prev == At(ch, p - 1) && h[ch[p]].next == At(ch, p + 1);
    assert h[ch[k0]].prev == At(ch, k0 - 1);
  }

  lemma UnlinkHash(h: seq<Head>, ch: seq<nat>, top: int, p: nat)
    requires Chain(h, ch, top) && p < |ch|
    ensures var v := ch[p]; -1 <= h[v].prev < |h| && -1 <= h[v].next < |h|
    ensures var v := ch[p]; Chain(HashUnlinked(h, v), Without(ch, p), if top == v then h[v].next else top)
  {
    var v, r := ch[p], Without(ch, p);
    WithoutDistinct(ch, p);
    assert h[ch[p]].prev == At(ch, p - 1) && h[ch[p]].next == At(ch, p + 1);
    var t := HashUnlinked(h, v);
    forall k {:trigger t[r[k]].next} | 0 <= k < |r| ensures t[r[k]].next == At(r, k + 1) {
      UnlinkHashNext(h, ch, top, p, k);
    }
    forall k {:trigger t[r[k]].prev} | 0 <= k < |r| ensures t[r[k]].prev == At(r, k - 1) {
      UnlinkHashPrev(h, ch, top, p, k);
    }
  }

  /** The stores that put head `v` on top of a chain; the store through b_next is left out when that is NULL. */
  function HashLinked(h: seq<Head>, v: nat, top: int): (t: seq<Head>)
    requires v < |h| && -1 <= top < |h|
    ensures |t| == |h| && forall x {:trigger t[x]} :: 0 <= x < |h| ==> t[x] == h[x].(
      next := if x == v then top else h[x].next,
      prev := if x == top then v else if x == v then NULL else h[x].prev)
  {
    var h1 := h[v := h[v].(prev := NULL, next := top)];
    if top != NULL then h1[top := h1[top].(prev := v)] else h1
  }

  lemma LinkHash(h: seq<Head>, ch: seq<nat>, top: int, v: nat)
    requires Chain(h, ch, top) && v < |h| && v !in ch
    ensures -1 <= top < |h| && Chain(HashLinked(h, v, top), [v] + ch, v)
  {
    var t, r := HashLinked(h, v, top), [v] + ch;
    forall k {:trigger t[r[k]].next} | 0 <= k < |r| ensures t[r[k]].next == At(r, k + 1) {
      if k > 0 { assert h[ch[k - 1]].next == At(ch, k); }
    }
    forall k {:trigger t[r[k]].prev} | 0 <= k < |r| ensures t[r[k]].prev == At(r, k - 1) {
      if k > 0 { assert h[ch[k - 1]].prev == At(ch, k - 2); }
    }
  }

  // ---------------------------------------------------------------------------------------------------------
  // Both lists together

  /** C's ^. */
  function Xor(a: nat, b: nat): nat
    decreases a + b
  {
    if a == 0 && b == 0 then 0 else (if a % 2 != b % 2 then 1 else 0) + 2 * Xor(a / 2, b / 2)
  }

  /** Bit `k` of a number. */
  predicate BitOf(a: nat, k: nat) { if k == 0 then a % 2 == 1 else BitOf(a / 2, k - 1) }

  lemma {:induction false} XorBit(a: nat, b: nat, k: nat)
    ensures BitOf(Xor(a, b), k) <==> BitOf(a, k) != BitOf(b, k)
    decreases k
  {
    if k > 0 { XorBit(a / 2, b / 2, k - 1); }
  }

  /** _hashfn */
  function Bucket(key: Key): (b: nat)
    ensures b < NR_HASH
  {
    Xor(key.dev, key.block) % NR_HASH
  }

  /** The heads of chain `b` carry blocks that hash to `b`; none of them is `out`. */
  ghost predicate Keyed(h: seq<Head>, ch: seq<nat>, b: nat, out: int) {
    forall x {:trigger x in ch} :: x in ch ==> x < |h| && h[x].key.dev != 0 && Bucket(h[x].key) == b && x != out
  }

  /** A head with a device is on the chain of its block, one without is on none. */
  ghost predicate Placed(h: seq<Head>, chains: seq<seq<nat>>, x: nat)
    requires x < |h| && |chains| == NR_HASH
  {
    if h[x].key.dev != 0 then x in chains[Bucket(h[x].key)] else h[x].next == NULL && h[x].prev == NULL
  }

  /** Every head but `out` is on the free list and, if it has a device, on its hash chain. */
  ghost predicate Linked(h: seq<Head>, table: seq<int>, first: int, ring: seq<nat>, chains: seq<seq<nat>>, out: int) {
    && Ring(h, ring, first) && |table| == |chains| == NR_HASH
    && (forall x: nat {:trigger x in ring} :: x < |h| ==> (x in ring <==> x != out))
    && (forall b {:trigger chains[b]} :: 0 <= b < NR_HASH ==>
      Chain(h, chains[b], table[b]) && Keyed(h, chains[b], b, out))
    && (forall x {:trigger Placed(h, chains, x)} :: 0 <= x < |h| && x != out ==> Placed(h, chains, x))
  }

  lemma ChainFrame(h: seq<Head>, t: seq<Head>, ch: seq<nat>, top: int)
    requires Chain(h, ch, top) && |t| == |h|
    requires forall x {:trigger t[x]} :: 0 <= x < |h| && x in ch ==> t[x].next == h[x].next && t[x].prev == h[x].prev
    ensures Chain(t, ch, top)
  {
    forall k {:trigger t[ch[k]]} | 0 <= k < |ch|
      ensures t[ch[k]].next == At(ch, k + 1) && t[ch[k]].prev == At(ch, k - 1)
    {
      assert ch[k] in ch;
      assert h[ch[k]].next == At(ch, k + 1) && h[ch[k]].prev == At(ch, k - 1);
    }
  }

  lemma RingFrame(h: seq<Head>, t: seq<Head>, ring: seq<nat>, first: int)
    requires Ring(h, ring, first) && |t| == |h|
    requires forall x {:trigger t[x]} :: 0 <= x < |h| && x in ring ==>
      t[x].nextFree == h[x].nextFree && t[x].prevFree == h[x].prevFree
    ensures Ring(t, ring, first)
  {
    var n := |ring|;
    forall k {:trigger t[ring[k]]} | 0 <= k < n
      ensures t[ring[k]].nextFree == ring[After(k, n)] && t[ring[k]].prevFree == ring[Before(k, n)]
    {
      assert ring[k] in ring;
      assert h[ring[k]].nextFree == ring[After(k, n)] && h[ring[k]].prevFree == ring[Before(k, n)];
    }
  }

  function IndexOf(s: seq<nat>, x: nat): (i: nat)
    requires x in s
    ensures i < |s| && s[i] == x
  {
    if s[0] == x then 0 else 1 + IndexOf(s[1..], x)
  }

  /** What remove_from_queues leaves of the hash table and the chains. */
  function TableWithout(h: seq<Head>, table: seq<int>, v: nat): (t: seq<int>)
    requires v < |h| && |table| == NR_HASH
    ensures |t| == NR_HASH
  {
    var b := Bucket(h[v].key);
    if table[b] == v then table[b := h[v].next] else table
  }

  ghost function ChainsWithout(h: seq<Head>, chains: seq<seq<nat>>, v: nat): (c: seq<seq<nat>>)
    requires v < |h| && |chains| == NR_HASH && Placed(h, chains, v)
    ensures |c| == NR_HASH
  {
    var b := Bucket(h[v].key);
    if h[v].key.dev == 0 then chains else chains[b := Without(chains[b], IndexOf(chains[b], v))]
  }

  /** The neighbours of a head on a chain are on it. */
  lemma NeighboursOnChain(h: seq<Head>, ch: seq<nat>, top: int, v: nat)
    requires Chain(h, ch, top) && v in ch
    ensures v < |h| && (h[v].next == NULL || (0 <= h[v].next < |h| && h[v].next in ch))
      && (h[v].prev == NULL || (0 <= h[v].prev < |h| && h[v].prev in ch))
  {
    var q: int := IndexOf(ch, v);
    assert h[ch[q]].next == At(ch, q + 1) && h[ch[q]].prev == At(ch, q - 1);
  }

  /** The hash half of remove_from_queues. */
  lemma RemoveHash(h: seq<Head>, table: seq<int>, first: int, ring: seq<nat>, chains: seq<seq<nat>>, v: nat)
    requires Linked(h, table, first, ring, chains, NULL) && v < |h|
    ensures Placed(h, chains, v) && -1 <= h[v].prev < |h| && -1 <= h[v].next < |h|
    ensures var t, table', chains' := HashUnlinked(h, v), TableWithout(h, table, v), ChainsWithout(h, chains, v);
      && Ring(t, ring, first)
      && (forall b {:trigger chains'[b]} :: 0 <= b < NR_HASH ==>
        Chain(t, chains'[b], table'[b]) && Keyed(t, chains'[b], b, v))
      && (forall x {:trigger Placed(t, chains', x)} :: 0 <= x < |h| && x != v ==> Placed(t, chains', x))
  {
    assert Placed(h, chains, v);
    var c := Bucket(h[v].key);
    assert Chain(h, chains[c], table[c]) && Keyed(h, chains[c], c, NULL);
    if h[v].key.dev != 0 { NeighboursOnChain(h, chains[c], table[c], v); }
    var t := HashUnlinked(h, v);
    RingFrame(h, t, ring, first);
    forall b | 0 <= b < NR_HASH
      ensures Chain(t, ChainsWithout(h, chains, v)[b], TableWithout(h, table, v)[b])
      ensures Keyed(t, ChainsWithout(h, chains, v)[b], b, v)
    {
      RemoveHashAt(h, table, first, ring, chains, v, b);
    }
    forall x | 0 <= x < |h| && x != v ensures Placed(t, ChainsWithout(h, chains, v), x) {
      RemovePlaced(h, table, first, ring, chains, v, x);
    }
  }

  /** The chain head `v` was on. */
  lemma LeaveChain(h: seq<Head>, ch: seq<nat>, top: int, v: nat, b: nat)
    requires Chain(h, ch, top) && Keyed(h, ch, b, NULL) && v in ch
    ensures v < |h| && -1 <= h[v].prev < |h| && -1 <= h[v].next < |h|
    ensures var r := Without(ch, IndexOf(ch, v));
      Chain(HashUnlinked(h, v), r, if top == v then h[v].next else top) && Keyed(HashUnlinked(h, v), r, b, v)
  {
    var q := IndexOf(ch, v);
    UnlinkHash(h, ch, top, q);
    WithoutDistinct(ch, q);
    forall x {:trigger x in Without(ch, q)} | x in Without(ch, q) ensures x in ch && x != v { WithoutHas(ch, q, x); }
  }

  /** A chain that head `v` and its neighbours are not on. */
  lemma OtherChain(h: seq<Head>, ch: seq<nat>, top: int, v: nat, b: nat)
    requires Chain(h, ch, top) && Keyed(h, ch, b, NULL) && v < |h| && v !in ch
    requires -1 <= h[v].prev < |h| && -1 <= h[v].next < |h|
    requires (h[v].next != NULL ==> h[v].next !in ch) && (h[v].prev != NULL ==> h[v].prev !in ch)
    ensures top != v && Chain(HashUnlinked(h, v), ch, top) && Keyed(HashUnlinked(h, v), ch, b, v)
  {
    ChainFrame(h, HashUnlinked(h, v), ch, top);
    assert top != NULL ==> ch[0] in ch && ch[0] == top;
  }

  lemma RemoveHashAt(h: seq<Head>, table: seq<int>, first: int, ring: seq<nat>, chains: seq<seq<nat>>, v: nat, b: nat)
    requires Linked(h, table, first, ring, chains, NULL) && v < |h| && b < NR_HASH && Placed(h, chains, v)
    requires -1 <= h[v].prev < |h| && -1 <= h[v].next < |h|
    ensures Chain(HashUnlinked(h, v), ChainsWithout(h, chains, v)[b], TableWithout(h, table, v)[b])
    ensures Keyed(HashUnlinked(h, v), ChainsWithout(h, chains, v)[b], b, v)
  {
    var c := Bucket(h[v].key);
    assert Chain(h, chains[b], table[b]) && Keyed(h, chains[b], b, NULL);
    if h[v].key.dev != 0 && b == c {
      LeaveChain(h, chains[b], table[b], v, b);
    } else {
      if h[v].key.dev != 0 {
        assert Chain(h, chains[c], table[c]) && Keyed(h, chains[c], c, NULL);
        NeighboursOnChain(h, chains[c], table[c], v);
      }
      OtherChain(h, chains[b], table[b], v, b);
    }
  }

  lemma RemovePlaced(h: seq<Head>, table: seq<int>, first: int, ring: seq<nat>, chains: seq<seq<nat>>, v: nat, x: nat)
    requires Linked(h, table, first, ring, chains, NULL) && v < |h| && x < |h| && x != v && Placed(h, chains, v)
    requires -1 <= h[v].prev < |h| && -1 <= h[v].next < |h|
    ensures Placed(HashUnlinked(h, v), ChainsWithout(h, chains, v), x)
  {
    assert Placed(h, chains, x);
    var c := Bucket(h[v].key);
    assert Chain(h, chains[c], table[c]) && Keyed(h, chains[c], c, NULL);
    if h[v].key.dev != 0 {
      NeighboursOnChain(h, chains[c], table[c], v);
      WithoutHas(chains[c], IndexOf(chains[c], v), x);
    }
  }

  /** remove_from_queues keeps all lists, with head `v` out of them. */
  lemma RemoveLinked(h: seq<Head>, table: seq<int>, first: int, ring: seq<nat>, chains: seq<seq<nat>>, p: nat)
    requires Linked(h, table, first, ring, chains, NULL) && p < |ring| && |ring| > 1
    ensures var v := ring[p];
      && v < |h| && Placed(h, chains, v) && -1 <= h[v].prev < |h| && -1 <= h[v].next < |h|
      && var h1 := HashUnlinked(h, v);
      && 0 <= h1[v].prevFree < |h| && 0 <= h1[v].nextFree < |h|
      && Linked(FreeUnlinked(h1, v), TableWithout(h, table, v), if first == v then h1[v].nextFree else first,
           Without(ring, p), ChainsWithout(h, chains, v), v)
  {
    var v := ring[p];
    RemoveHash(h, table, first, ring, chains, v);
    var h1 := HashUnlinked(h, v);
    UnlinkFree(h1, ring, first, p);
    var t := FreeUnlinked(h1, v);
    var table', chains' := TableWithout(h, table, v), ChainsWithout(h, chains, v);
    forall b {:trigger chains'[b]} | 0 <= b < NR_HASH
      ensures Chain(t, chains'[b], table'[b]) && Keyed(t, chains'[b], b, v)
    {
      assert Chain(h1, chains'[b], table'[b]) && Keyed(h1, chains'[b], b, v);
      ChainFrame(h1, t, chains'[b], table'[b]);
    }
    forall x {:trigger Placed(t, chains', x)} | 0 <= x < |h| && x != v ensures Placed(t, chains', x) {
      assert Placed(h1, chains', x);
    }
    WithoutDistinct(ring, p);
    forall x: nat {:trigger x in Without(ring, p)} | x < |h|
      ensures x in Without(ring, p) <==> x != v { WithoutHas(ring, p, x); }
  }

  /** The hash half of insert_into_queues: a head without a device goes on no chain. */
  function HashInserted(h: seq<Head>, table: seq<int>, v: nat): (t: seq<Head>)
    requires v < |h| && |table| == NR_HASH && -1 <= table[Bucket(h[v].key)] < |h|
    ensures |t| == |h|
  {
    if h[v].key.dev == 0 then h[v := h[v].(prev := NULL, next := NULL)] else HashLinked(h, v, table[Bucket(h[v].key)])
  }

  function TableWith(h: seq<Head>, table: seq<int>, v: nat): (t: seq<int>)
    requires v < |h| && |table| == NR_HASH
    ensures |t| == NR_HASH
  {
    if h[v].key.dev == 0 then table else table[Bucket(h[v].key) := v]
  }

  ghost function ChainsWith(h: seq<Head>, chains: seq<seq<nat>>, v: nat): (c: seq<seq<nat>>)
    requires v < |h| && |chains| == NR_HASH
    ensures |c| == NR_HASH
  {
    var b := Bucket(h[v].key);
    if h[v].key.dev == 0 then chains else chains[b := [v] + chains[b]]
  }

  /** All but the links of the free list, when head `v` goes on it. */
  lemma FreeLinkedKeeps(h: seq<Head>, table: seq<int>, first: int, ring: seq<nat>, chains: seq<seq<nat>>, v: nat)
    requires Linked(h, table, first, ring, chains, v) && v < |h|
    ensures 0 <= first < |h| && 0 <= h[first].prevFree < |h|
    ensures var t := FreeLinked(h, v, first);
      && t[v].key == h[v].key
      && (forall b {:trigger chains[b]} :: 0 <= b < NR_HASH ==>
        Chain(t, chains[b], table[b]) && Keyed(t, chains[b], b, v))
      && (forall x {:trigger Placed(t, chains, x)} :: 0 <= x < |h| && x != v ==> Placed(t, chains, x))
  {
    LinkFree(h, ring, first, v);
    var t := FreeLinked(h, v, first);
    forall b {:trigger chains[b]} | 0 <= b < NR_HASH
      ensures Chain(t, chains[b], table[b]) && Keyed(t, chains[b], b, v)
    {
      assert Chain(h, chains[b], table[b]) && Keyed(h, chains[b], b, v);
      ChainFrame(h, t, chains[b], table[b]);
    }
    forall x {:trigger Placed(t, chains, x)} | 0 <= x < |h| && x != v ensures Placed(t, chains, x) {
      assert Placed(h, chains, x);
    }
  }

  /** The chains, when head `v`, on the free list already, goes on the chain of its block, if any. */
  ghost predicate Chained(h: seq<Head>, table: seq<int>, chains: seq<seq<nat>>, out: int) {
    && |table| == |chains| == NR_HASH
    && (forall b {:trigger chains[b]} :: 0 <= b < NR_HASH ==>
      Chain(h, chains[b], table[b]) && Keyed(h, chains[b], b, out))
    && (forall x {:trigger Placed(h, chains, x)} :: 0 <= x < |h| && x != out ==> Placed(h, chains, x))
  }

  /** The top of a chain is on it, and `v` is on none. */
  lemma TopOn(h: seq<Head>, table: seq<int>, chains: seq<seq<nat>>, v: nat, b: nat)
    requires Chained(h, table, chains, v) && v < |h| && b < NR_HASH
    ensures -1 <= table[b] < |h| && (table[b] != NULL ==> table[b] in chains[b]) && v !in chains[b]
  {
    assert Chain(h, chains[b], table[b]) && Keyed(h, chains[b], b, v);
    if table[b] != NULL { assert table[b] == chains[b][0] && chains[b][0] in chains[b]; }
  }

  /** A chain of another bucket, or of any when `v` has no device. */
  lemma InsertElsewhere(h: seq<Head>, table: seq<int>, chains: seq<seq<nat>>, v: nat, b: nat)
    requires Chained(h, table, chains, v) && v < |h| && b < NR_HASH && (h[v].key.dev == 0 || b != Bucket(h[v].key))
    requires -1 <= table[Bucket(h[v].key)] < |h|
    ensures var t := HashInserted(h, table, v); Chain(t, chains[b], table[b]) && Keyed(t, chains[b], b, NULL)
  {
    var c, t := Bucket(h[v].key), HashInserted(h, table, v);
    assert Chain(h, chains[b], table[b]) && Keyed(h, chains[b], b, v);
    TopOn(h, table, chains, v, b);
    if h[v].key.dev != 0 {
      assert Chain(h, chains[c], table[c]) && Keyed(h, chains[c], c, v);
      TopOn(h, table, chains, v, c);
      assert table[c] != NULL ==> table[c] !in chains[b];
    }
    ChainFrame(h, t, chains[b], table[b]);
  }

  /** The chain of its own bucket, with head `v` on top. */
  lemma InsertHere(h: seq<Head>, table: seq<int>, chains: seq<seq<nat>>, v: nat)
    requires Chained(h, table, chains, v) && v < |h| && h[v].key.dev != 0 && -1 <= table[Bucket(h[v].key)] < |h|
    ensures var c, t := Bucket(h[v].key), HashInserted(h, table, v);
      Chain(t, [v] + chains[c], v) && Keyed(t, [v] + chains[c], c, NULL)
  {
    var c := Bucket(h[v].key);
    assert Chain(h, chains[c], table[c]) && Keyed(h, chains[c], c, v);
    TopOn(h, table, chains, v, c);
    LinkHash(h, chains[c], table[c], v);
  }

  lemma InsertPlaced(h: seq<Head>, table: seq<int>, chains: seq<seq<nat>>, v: nat, x: nat)
    requires Chained(h, table, chains, v) && v < |h| && x < |h| && -1 <= table[Bucket(h[v].key)] < |h|
    ensures Placed(HashInserted(h, table, v), ChainsWith(h, chains, v), x)
  {
    var c := Bucket(h[v].key);
    if x != v {
      assert Placed(h, chains, x);
      assert Chain(h, chains[c], table[c]) && Keyed(h, chains[c], c, v);
      TopOn(h, table, chains, v, c);
    }
  }

  lemma HashInsertKeeps(h: seq<Head>, table: seq<int>, chains: seq<seq<nat>>, v: nat)
    requires Chained(h, table, chains, v) && v < |h|
    ensures -1 <= table[Bucket(h[v].key)] < |h|
    ensures Chained(HashInserted(h, table, v), TableWith(h, table, v), ChainsWith(h, chains, v), NULL)
  {
    var c := Bucket(h[v].key);
    TopOn(h, table, chains, v, c);
    var t, table', chains' := HashInserted(h, table, v), TableWith(h, table, v), ChainsWith(h, chains, v);
    forall b {:trigger chains'[b]} | 0 <= b < NR_HASH
      ensures Chain(t, chains'[b], table'[b]) && Keyed(t, chains'[b], b, NULL)
    {
      if h[v].key.dev != 0 && b == c {
        InsertHere(h, table, chains, v);
      } else {
        InsertElsewhere(h, table, chains, v, b);
      }
    }
    forall x {:trigger Placed(t, chains', x)} | 0 <= x < |h| ensures Placed(t, chains', x) {
      InsertPlaced(h, table, chains, v, x);
    }
  }

  /** insert_into_queues puts head `v` on the free list and, if it has a device, on its chain. */
  lemma InsertLinked(h: seq<Head>, table: seq<int>, first: int, ring: seq<nat>, chains: seq<seq<nat>>, v: nat)
    requires Linked(h, table, first, ring, chains, v) && v < |h|
    ensures 0 <= first < |h| && 0 <= h[first].prevFree < |h|
    ensures var h1 := FreeLinked(h, v, first);
      && -1 <= table[Bucket(h[v].key)] < |h| && h1[v].key == h[v].key
      && Linked(HashInserted(h1, table, v), TableWith(h, table, v), first, ring + [v], ChainsWith(h, chains, v), NULL)
  {
    LinkFree(h, ring, first, v);
    FreeLinkedKeeps(h, table, first, ring, chains, v);
    var h1 := FreeLinked(h, v, first);
    HashInsertKeeps(h1, table, chains, v);
    RingFrame(h1, HashInserted(h1, table, v), ring + [v], first);
  }
}
