/** Copy-on-write paging: mm/memory.c and copy_mem of kernel/fork.c.

  Physical memory is an array of 4096-byte frames, each seen as 1024 words. Frames below LOW_MEM hold the kernel
  and are not counted in mem_map. The page directory sits apart from the frames; its entries 0 and 1 are the
  kernel's identity map and own no counted frame. */
module Memory {
  const LOW: nat := 512 // LOW_MEM >> 12
  const FRAMES: nat := 2048 // HIGH_MEMORY >> 12
  const PAGES: nat := FRAMES - LOW // PAGING_PAGES
  const ENTRIES: nat := 1024
  const LOW_COPY: nat := 0xA0 // entries copied when the first task forks

  type Frame = f: nat | f < FRAMES

  /** A 32-bit word, read as a page table entry: frame number, bits 3-11, and the flags 4, 2 and 1. */
  datatype Word = Word(frame: Frame, other: nat, user: bool, write: bool, present: bool)

  const ZERO := Word(0, 0, false, false, false)

  function Blank(): (p: seq<Word>)
    ensures |p| == ENTRIES && forall i :: 0 <= i < ENTRIES ==> p[i] == ZERO
  {
    seq(ENTRIES, i => ZERO)
  }

  /** `held` names the frames the kernel got from get_free_page and has not yet mapped or freed. */
  datatype Mm = Mm(map_: seq<nat>, dir: seq<Word>, mem: seq<seq<Word>>, held: set<nat>)

  predicate Shape(s: Mm) {
    && |s.map_| == PAGES && |s.dir| == ENTRIES && |s.mem| == FRAMES
    && forall f :: 0 <= f < FRAMES ==> |s.mem[f]| == ENTRIES
  }

  function Mapped(f: Frame): Word { Word(f, 0, true, true, true) } // frame | 7

  /** The page table entry for page `i` of directory entry `d`; zero where there is no table. */
  function Entry(s: Mm, d: nat, i: nat): Word
    requires Shape(s) && d < ENTRIES && i < ENTRIES
  {
    if s.dir[d].present then s.mem[s.dir[d].frame][i] else ZERO
  }

  // ---------------------------------------------------------------------------------------------------------
  // References to frames, and the invariant

  datatype Ref = Pde(d: nat) | Pte(d: nat, i: nat) | Held(f: nat)

  ghost function AllRefs(): set<Ref> {
    (set d: nat | d < ENTRIES :: Pde(d)) + (set d: nat, i: nat | d < ENTRIES && i < ENTRIES :: Pte(d, i))
    + (set f: nat | f < FRAMES :: Held(f))
  }

  ghost predicate IsRef(r: Ref) {
    match r
    case Pde(d) => 2 <= d < ENTRIES
    case Pte(d, i) => 2 <= d < ENTRIES && i < ENTRIES
    case Held(f) => f < FRAMES
  }

  /** The frame a reference points at, or -1. */
  ghost function Target(s: Mm, r: Ref): int
    requires Shape(s)
  {
    if !IsRef(r) then -1 else
    match r
    case Pde(d) => if s.dir[d].present then s.dir[d].frame else -1
    case Pte(d, i) => if Entry(s, d, i).present then Entry(s, d, i).frame else -1
    case Held(f) => if f in s.held then f else -1
  }

  /** Everything that refers to frame `f`: page table entries, a directory entry, a kernel holder. */
  ghost function Users(s: Mm, f: int): set<Ref>
    requires Shape(s)
  {
    set r | r in AllRefs() && IsRef(r) && Target(s, r) == f
  }

  ghost predicate Sole(s: Mm, r: Ref)
    requires Shape(s)
  {
    forall q :: IsRef(q) && Target(s, q) == Target(s, r) ==> q == r
  }

  /** The kernel's own directory entries use tables outside the counted frames. */
  ghost predicate KernelDirs(s: Mm)
    requires Shape(s)
  {
    forall d :: 0 <= d < 2 && s.dir[d].present ==> s.dir[d].frame < LOW
  }

  /** A directory entry is the only user of its table. */
  ghost predicate TablesSole(s: Mm)
    requires Shape(s)
  {
    forall d :: 2 <= d < ENTRIES && s.dir[d].present ==> s.dir[d].frame >= LOW && Sole(s, Pde(d))
  }

  ghost predicate HeldSole(s: Mm)
    requires Shape(s)
  {
    forall f :: f in s.held ==> LOW <= f < FRAMES && Sole(s, Held(f))
  }

  /** A writable user page is mapped once. */
  ghost predicate WritableSole(s: Mm)
    requires Shape(s)
  {
    forall d, i :: 2 <= d < ENTRIES && 0 <= i < ENTRIES && Entry(s, d, i).present && Entry(s, d, i).write ==>
      Entry(s, d, i).frame >= LOW && Sole(s, Pte(d, i))
  }

  /** mem_map is the number of users of each counted frame. */
  ghost predicate Counted(s: Mm)
    requires Shape(s)
  {
    forall f :: LOW <= f < FRAMES ==> s.map_[f - LOW] == |Users(s, f)|
  }

  /** Every table can be used and written through, and every page read, by a task: what protects a page is its write bit
      alone. */
  ghost predicate Open(s: Mm)
    requires Shape(s)
  {
    && (forall d :: 0 <= d < ENTRIES && s.dir[d].present ==> s.dir[d].user && s.dir[d].write)
    && (forall d, i {:trigger Entry(s, d, i)} :: 0 <= d < ENTRIES && 0 <= i < ENTRIES && Entry(s, d, i).present ==>
      Entry(s, d, i).user)
  }

  ghost predicate Inv(s: Mm) {
    Shape(s) && KernelDirs(s) && TablesSole(s) && HeldSole(s) && WritableSole(s) && Counted(s) && Open(s)
  }

  lemma InAll(r: Ref)
    requires IsRef(r)
    ensures r in AllRefs()
  {
  }

  /** Changing what one reference points at moves one user from the old frame to the new one. */
  lemma OneChange(s: Mm, t: Mm, r: Ref)
    requires Shape(s) && Shape(t) && IsRef(r)
    requires forall q :: IsRef(q) && q != r ==> Target(t, q) == Target(s, q)
    ensures forall f: int ::
      |Users(t, f)| == |Users(s, f)| - (if Target(s, r) == f then 1 else 0) + (if Target(t, r) == f then 1 else 0)
  {
    forall f: int
      ensures |Users(t, f)| == |Users(s, f)| - (if Target(s, r) == f then 1 else 0) + (if Target(t, r) == f then 1
        else 0)
    {
      OthersSame(s, t, r, f);
      UsersSplit(s, r, f);
      UsersSplit(t, r, f);
    }
  }

  lemma SameUsers(s: Mm, t: Mm)
    requires Shape(s) && Shape(t) && forall q :: IsRef(q) ==> Target(t, q) == Target(s, q)
    ensures forall f: int :: Users(t, f) == Users(s, f)
  {
  }

  lemma OthersSame(s: Mm, t: Mm, r: Ref, f: int)
    requires Shape(s) && Shape(t) && IsRef(r)
    requires forall q :: IsRef(q) && q != r ==> Target(t, q) == Target(s, q)
    ensures Users(t, f) - {r} == Users(s, f) - {r}
  {
  }

  lemma UsersSplit(s: Mm, r: Ref, f: int)
    requires Shape(s) && IsRef(r)
    ensures |Users(s, f)| == |Users(s, f) - {r}| + (if Target(s, r) == f then 1 else 0)
  {
    InAll(r);
    assert r in Users(s, f) <==> Target(s, r) == f;
    if Target(s, r) == f {
      assert Users(s, f) == Users(s, f) - {r} + {r};
    } else {
      assert Users(s, f) == Users(s, f) - {r};
    }
  }

  /** A frame with a user has a positive count; a frame with count 1 has a sole user. */
  lemma CountOfUsed(s: Mm, r: Ref)
    requires Inv(s) && IsRef(r) && Target(s, r) >= LOW
    ensures s.map_[Target(s, r) - LOW] > 0
    ensures s.map_[Target(s, r) - LOW] == 1 <==> Sole(s, r)
  {
    var f := Target(s, r);
    InAll(r);
    assert r in Users(s, f);
    if s.map_[f - LOW] == 1 {
      forall q | IsRef(q) && Target(s, q) == f ensures q == r {
        InAll(q);
        assert Users(s, f) == {r} by {
          assert |Users(s, f) - {r}| == 0;
        }
        assert q in Users(s, f);
      }
    }
    if Sole(s, r) {
      assert Users(s, f) == {r};
    }
  }

  lemma CountZero(s: Mm, f: Frame)
    requires Inv(s) && f >= LOW && s.map_[f - LOW] == 0
    ensures forall q :: IsRef(q) ==> Target(s, q) != f
  {
    forall q | IsRef(q) ensures Target(s, q) != f {
      InAll(q);
      assert |Users(s, f)| == 0;
      assert q !in Users(s, f);
    }
  }

  // ---------------------------------------------------------------------------------------------------------
  // Primitive steps

  function SetEntry(s: Mm, d: nat, i: nat, w: Word): (t: Mm)
    requires Shape(s) && d < ENTRIES && i < ENTRIES
    ensures Shape(t)
  {
    var f := s.dir[d].frame;
    s.(mem := s.mem[f := s.mem[f][i := w]])
  }

  /** The free frame get_free_page picks: it scans mem_map downwards. */
  function LastFree(m: seq<nat>, n: nat): (k: int)
    requires n <= |m|
    ensures -1 <= k < n
    ensures k >= 0 ==> m[k] == 0
    ensures forall j :: k < j < n ==> m[j] != 0
  {
    if n == 0 then -1 else if m[n - 1] == 0 then n - 1 else LastFree(m, n - 1)
  }

  /** get_free_page: a zeroed frame with count 1, or 0 when there is none. */
  function GetFreePage(s: Mm): (r: (Mm, Frame))
    requires Shape(s)
    ensures Shape(r.0)
  {
    var k := LastFree(s.map_, PAGES);
    if k < 0 then (s, 0) else
    (Mm(s.map_[k := 1], s.dir, s.mem[LOW + k := Blank()], s.held + {LOW + k}), LOW + k)
  }

  /** free_page; its panics are the demand that the frame is in use. */
  function FreePage(s: Mm, f: Frame): (t: Mm)
    requires Shape(s) && (f >= LOW ==> s.map_[f - LOW] > 0)
    ensures Shape(t)
  {
    if f < LOW then s else s.(map_ := s.map_[f - LOW := s.map_[f - LOW] - 1])
  }

  lemma EntryAfterSet(s: Mm, d: nat, i: nat, w: Word)
    requires Shape(s) && KernelDirs(s) && TablesSole(s)
    requires 2 <= d < ENTRIES && i < ENTRIES && s.dir[d].present
    ensures forall e, j :: 0 <= e < ENTRIES && 0 <= j < ENTRIES ==>
      Entry(SetEntry(s, d, i, w), e, j) == if e == d && j == i then w else Entry(s, e, j)
  {
    var t := SetEntry(s, d, i, w);
    forall e, j | 0 <= e < ENTRIES && 0 <= j < ENTRIES
      ensures Entry(t, e, j) == if e == d && j == i then w else Entry(s, e, j)
    {
      if e != d && s.dir[e].present {
        if e >= 2 { assert Target(s, Pde(e)) != Target(s, Pde(d)); }
        assert s.dir[e].frame != s.dir[d].frame;
      }
    }
  }

  /** Writing an entry changes what that entry points at and nothing else. */
  lemma TargetAfterSet(s: Mm, d: nat, i: nat, w: Word)
    requires Shape(s) && KernelDirs(s) && TablesSole(s)
    requires 2 <= d < ENTRIES && i < ENTRIES && s.dir[d].present
    ensures forall q :: IsRef(q) && q != Pte(d, i) ==> Target(SetEntry(s, d, i, w), q) == Target(s, q)
    ensures Target(SetEntry(s, d, i, w), Pte(d, i)) == if w.present then w.frame else -1
  {
    EntryAfterSet(s, d, i, w);
  }

  // ---------------------------------------------------------------------------------------------------------
  // get_free_page

  /** get_free_page never hands out a frame that is still in use, and keeps every page and the invariant. */
  lemma GetFreePageKeeps(s: Mm)
    requires Inv(s)
    ensures var (t, f) := GetFreePage(s);
      && Inv(t) && t.dir == s.dir
      && (f == 0 <==> forall g :: LOW <= g < FRAMES ==> Users(s, g) != {})
      && (f == 0 ==> t == s)
      && (f != 0 ==> forall g :: f < g < FRAMES ==> Users(s, g) != {})
      && (f != 0 ==> f >= LOW && Users(s, f) == {} && t.held == s.held + {f} && f !in s.held && t.mem[f] == Blank())
      && (forall d, i :: 0 <= d < ENTRIES && 0 <= i < ENTRIES ==> Entry(t, d, i) == Entry(s, d, i))
      && (forall g :: 0 <= g < FRAMES && g != f ==> t.mem[g] == s.mem[g])
  {
    var (t, f) := GetFreePage(s);
    if f == 0 {
      forall g | LOW <= g < FRAMES ensures Users(s, g) != {} { assert s.map_[g - LOW] == |Users(s, g)|; }
    } else {
      CountZero(s, f);
      assert Users(s, f) == {};
      forall g | f < g < FRAMES ensures Users(s, g) != {} { assert s.map_[g - LOW] == |Users(s, g)| != 0; }
      forall d, i | 0 <= d < ENTRIES && 0 <= i < ENTRIES ensures Entry(t, d, i) == Entry(s, d, i) {
        if s.dir[d].present { assert d >= 2 ==> Target(s, Pde(d)) != f; }
      }
      forall q | IsRef(q) && q != Held(f) ensures Target(t, q) == Target(s, q) { }
      assert Target(s, Held(f)) == -1;
      OneChange(s, t, Held(f));
    }
  }

  // ---------------------------------------------------------------------------------------------------------
  // Sharing: copy_page_tables

  function ReadOnly(w: Word): Word { if w.present then w.(write := false) else ZERO }

  /** What sharing leaves in the parent: the write bit goes, but only where the frame is counted. */
  function Shared(w: Word): Word { if w.present && w.frame >= LOW then w.(write := false) else w }

  /** The body of the inner loop of copy_page_tables, for entry `i` of tables `fd` and `td`. */
  function CopyEntry(s: Mm, fd: nat, td: nat, i: nat): (t: Mm)
    requires Shape(s) && fd < ENTRIES && td < ENTRIES && i < ENTRIES
    ensures Shape(t) && t.dir == s.dir && t.held == s.held
  {
    var w := Entry(s, fd, i);
    if !w.present then s else
    var s1 := SetEntry(s, td, i, w.(write := false));
    if w.frame < LOW then s1 else
    var s2 := SetEntry(s1, fd, i, w.(write := false));
    s2.(map_ := s2.map_[w.frame - LOW := s2.map_[w.frame - LOW] + 1])
  }

  /** Table `fd` may be copied: a user table, or the kernel's, whose first pages are not counted. */
  ghost predicate Copyable(s: Mm, fd: nat, td: nat, nr: nat)
    requires Shape(s)
  {
    && fd < ENTRIES && 2 <= td < ENTRIES && fd != td && nr <= ENTRIES
    && s.dir[fd].present && s.dir[td].present
    && (fd < 2 ==> forall i :: 0 <= i < nr ==> Entry(s, fd, i).frame < LOW)
  }

  /** Low memory is as it was, and what a user entry mapped it still maps, with the same words. */
  ghost predicate SamePages(s: Mm, t: Mm)
    requires Shape(s) && Shape(t)
  {
    && (forall f :: 0 <= f < LOW ==> t.mem[f] == s.mem[f])
    && (forall d, i {:trigger Entry(t, d, i)} {:trigger Entry(s, d, i)} ::
      2 <= d < ENTRIES && 0 <= i < ENTRIES && Entry(s, d, i).present ==>
      && Entry(t, d, i).present && Entry(t, d, i).frame == Entry(s, d, i).frame
      && t.mem[Entry(s, d, i).frame] == s.mem[Entry(s, d, i).frame])
  }

  /** No user page is a page table. */
  lemma TableIsNoPage(s: Mm, e: nat)
    requires Shape(s) && TablesSole(s) && 2 <= e < ENTRIES && s.dir[e].present
    ensures forall d, i :: 2 <= d < ENTRIES && 0 <= i < ENTRIES && Entry(s, d, i).present ==>
      Entry(s, d, i).frame != s.dir[e].frame
  {
    forall d, i | 2 <= d < ENTRIES && 0 <= i < ENTRIES && Entry(s, d, i).present
      ensures Entry(s, d, i).frame != s.dir[e].frame
    {
      assert IsRef(Pte(d, i));
      assert Sole(s, Pde(e));
    }
  }

  lemma {:induction false} CopyEntryKeeps(s: Mm, fd: nat, td: nat, i: nat)
    requires Inv(s) && i < ENTRIES && Copyable(s, fd, td, i + 1) && Entry(s, td, i) == ZERO
    ensures var t := CopyEntry(s, fd, td, i);
      && Inv(t) && SamePages(s, t)
      && (forall d, j :: 0 <= d < ENTRIES && 0 <= j < ENTRIES ==>
        Entry(t, d, j) == if d == td && j == i then ReadOnly(Entry(s, fd, i))
                          else if d == fd && j == i then Shared(Entry(s, fd, i)) else Entry(s, d, j))
  {
    var w := Entry(s, fd, i);
    if w.present {
      var ro := w.(write := false);
      var s1 := SetEntry(s, td, i, ro);
      EntryAfterSet(s, td, i, ro);
      TargetAfterSet(s, td, i, ro);
      assert Target(s, Pte(td, i)) == -1;
      OneChange(s, s1, Pte(td, i));
      if w.frame >= LOW {
        CountOneMore(s, fd, td, i);
      }
    }
    CopyEntrySamePages(s, fd, td, i);
  }

  lemma CopyEntrySamePages(s: Mm, fd: nat, td: nat, i: nat)
    requires Inv(s) && i < ENTRIES && Copyable(s, fd, td, i + 1) && Entry(s, td, i) == ZERO
    requires forall d, j :: 0 <= d < ENTRIES && 0 <= j < ENTRIES ==>
      Entry(CopyEntry(s, fd, td, i), d, j) == if d == td && j == i then ReadOnly(Entry(s, fd, i))
                          else if d == fd && j == i then Shared(Entry(s, fd, i)) else Entry(s, d, j)
    ensures SamePages(s, CopyEntry(s, fd, td, i))
  {
    TableIsNoPage(s, td);
    if fd >= 2 { TableIsNoPage(s, fd); }
  }

  /** The counted case of CopyEntryKeeps: both entries are read-only and the frame has one more user. */
  lemma CountOneMore(s: Mm, fd: nat, td: nat, i: nat)
    requires Inv(s) && i < ENTRIES && Copyable(s, fd, td, i + 1) && Entry(s, td, i) == ZERO
    requires Entry(s, fd, i).present && Entry(s, fd, i).frame >= LOW
    ensures var t := CopyEntry(s, fd, td, i);
      && Inv(t)
      && (forall d, j :: 0 <= d < ENTRIES && 0 <= j < ENTRIES ==>
        Entry(t, d, j) == if (d == td || d == fd) && j == i then Entry(s, fd, i).(write := false) else Entry(s, d, j))
  {
    var w := Entry(s, fd, i);
    var ro := w.(write := false);
    var s1 := SetEntry(s, td, i, ro);
    var t := CopyEntry(s, fd, td, i);
    assert fd >= 2;
    EntryAfterSet(s, td, i, ro);
    TargetAfterSet(s, td, i, ro);
    assert Target(s, Pte(td, i)) == -1;
    assert Target(s, Pte(fd, i)) == w.frame;
    OneChange(s, s1, Pte(td, i));
    SharedFrame(s, s1, fd, td, i);
    EntryAfterSet(s1, fd, i, ro);
    forall q | IsRef(q) ensures Target(t, q) == Target(s1, q) { }
    SameUsers(s1, t);
    WritableAfterShare(s, t, fd, td, i);
    OthersAfterShare(s, t, fd, td, i);
  }

  lemma OthersAfterShare(s: Mm, t: Mm, fd: nat, td: nat, i: nat)
    requires Inv(s) && Shape(t) && 2 <= fd < ENTRIES && 2 <= td < ENTRIES && i < ENTRIES
    requires Entry(s, fd, i).present && t.dir == s.dir && t.held == s.held
    requires forall q :: IsRef(q) && q != Pte(td, i) ==> Target(t, q) == Target(s, q)
    requires Target(t, Pte(td, i)) == Target(s, Pte(fd, i))
    ensures TablesSole(t) && HeldSole(t)
  {
    forall r | IsRef(r) && (r.Pde? || r.Held?) && Target(s, r) >= 0 && Sole(s, r) ensures Sole(t, r) {
      assert Target(s, r) != Target(s, Pte(fd, i));
    }
    forall d | 2 <= d < ENTRIES && t.dir[d].present ensures t.dir[d].frame >= LOW && Sole(t, Pde(d)) {
      assert Sole(s, Pde(d));
    }
    forall f | f in t.held ensures LOW <= f < FRAMES && Sole(t, Held(f)) {
      assert Sole(s, Held(f));
    }
  }

  lemma WritableAfterShare(s: Mm, t: Mm, fd: nat, td: nat, i: nat)
    requires Inv(s) && Shape(t) && 2 <= fd < ENTRIES && 2 <= td < ENTRIES && i < ENTRIES
    requires Entry(s, fd, i).present
    requires forall q :: IsRef(q) && q != Pte(td, i) ==> Target(t, q) == Target(s, q)
    requires Target(t, Pte(td, i)) == Entry(s, fd, i).frame
    requires forall d, j :: 0 <= d < ENTRIES && 0 <= j < ENTRIES ==>
        Entry(t, d, j) == if (d == td || d == fd) && j == i then Entry(s, fd, i).(write := false) else Entry(s, d, j)
    ensures WritableSole(t)
  {
    forall d, j | 2 <= d < ENTRIES && 0 <= j < ENTRIES && Entry(t, d, j).present && Entry(t, d, j).write
      ensures Entry(t, d, j).frame >= LOW && Sole(t, Pte(d, j))
    {
      assert Entry(s, d, j).write && Sole(s, Pte(d, j));
      assert Target(s, Pte(d, j)) != Target(s, Pte(fd, i));
    }
  }

  /** While an entry is being shared the tables are still used once each. */
  lemma SharedFrame(s: Mm, s1: Mm, fd: nat, td: nat, i: nat)
    requires Inv(s) && i < ENTRIES && Copyable(s, fd, td, i + 1) && fd >= 2
    requires Entry(s, fd, i).present && Entry(s, fd, i).frame >= LOW
    requires s1 == SetEntry(s, td, i, Entry(s, fd, i).(write := false))
    requires forall q :: IsRef(q) && q != Pte(td, i) ==> Target(s1, q) == Target(s, q)
    requires Target(s1, Pte(td, i)) == Entry(s, fd, i).frame
    ensures KernelDirs(s1) && TablesSole(s1)
  {
    assert Target(s, Pte(fd, i)) == Entry(s, fd, i).frame;
    forall d | 2 <= d < ENTRIES && s1.dir[d].present ensures Sole(s1, Pde(d)) {
      assert Sole(s, Pde(d));
      assert Target(s, Pde(d)) != Target(s, Pte(fd, i));
    }
  }

  /** The inner loop of copy_page_tables, from entry `i` on. */
  function CopyEntries(s: Mm, fd: nat, td: nat, i: nat, nr: nat): (t: Mm)
    requires Shape(s) && fd < ENTRIES && td < ENTRIES && i <= nr <= ENTRIES
    ensures Shape(t) && t.dir == s.dir && t.held == s.held
    decreases nr - i
  {
    if i == nr then s else CopyEntries(CopyEntry(s, fd, td, i), fd, td, i + 1, nr)
  }

  lemma {:induction false} CopyEntriesKeeps(s: Mm, fd: nat, td: nat, i: nat, nr: nat)
    requires Inv(s) && i <= nr && Copyable(s, fd, td, nr)
    requires forall j :: i <= j < nr ==> Entry(s, td, j) == ZERO
    ensures var t := CopyEntries(s, fd, td, i, nr);
      && Inv(t) && SamePages(s, t)
      && (forall d, j :: 0 <= d < ENTRIES && 0 <= j < ENTRIES ==>
        Entry(t, d, j) == if d == td && i <= j < nr then ReadOnly(Entry(s, fd, j))
                          else if d == fd && i <= j < nr then Shared(Entry(s, fd, j)) else Entry(s, d, j))
    decreases nr - i
  {
    if i < nr {
      var s1 := CopyEntry(s, fd, td, i);
      CopyEntryKeeps(s, fd, td, i);
      CopyEntriesKeeps(s1, fd, td, i + 1, nr);
      SamePagesTrans(s, s1, CopyEntries(s, fd, td, i, nr));
    }
  }

  /** A fresh frame becomes the page table of an empty directory entry. */
  function SetTable(s: Mm, d: nat, f: Frame): (t: Mm)
    requires Shape(s) && d < ENTRIES
    ensures Shape(t)
  {
    s.(dir := s.dir[d := Mapped(f)], held := s.held - {f})
  }

  lemma SetTableKeeps(s: Mm, d: nat, f: Frame)
    requires Inv(s) && 2 <= d < ENTRIES && !s.dir[d].present && f in s.held && s.mem[f] == Blank()
    ensures var t := SetTable(s, d, f);
      && Inv(t) && SamePages(s, t)
      && (forall e, i :: 0 <= e < ENTRIES && 0 <= i < ENTRIES ==> Entry(t, e, i) == Entry(s, e, i))
  {
    var s1 := s.(held := s.held - {f});
    var t := SetTable(s, d, f);
    forall e, i | 0 <= e < ENTRIES && 0 <= i < ENTRIES
      ensures Entry(t, e, i) == Entry(s, e, i) && Entry(s1, e, i) == Entry(s, e, i) { }
    assert Sole(s, Held(f));
    assert Target(s, Held(f)) == f;
    forall q | IsRef(q) && q != Held(f) ensures Target(s1, q) == Target(s, q) != f { }
    forall q | IsRef(q) && q != Pde(d) ensures Target(t, q) == Target(s1, q) { }
    OneChange(s, s1, Held(f));
    OneChange(s1, t, Pde(d));
  }

  /** copy_page_tables over directory entries from+k and to+k for k up to n. The second result is the number of
      directory entries dealt with: n, or less when memory ran out (the C function's -1). */
  function CopyTables(s: Mm, from: nat, to: nat, k: nat, n: nat, nr: nat): (r: (Mm, nat))
    requires Shape(s) && k <= n && from + n <= ENTRIES && to + n <= ENTRIES && nr <= ENTRIES
    requires forall d :: to + k <= d < to + n ==> !s.dir[d].present // "already exist"
    ensures Shape(r.0) && k <= r.1 <= n
    decreases n - k
  {
    if k == n then (s, n) else
    if !s.dir[from + k].present then CopyTables(s, from, to, k + 1, n, nr) else
    var (s1, f) := GetFreePage(s);
    if f == 0 then (s1, k) else
    CopyTables(CopyEntries(SetTable(s1, to + k, f), from + k, to + k, 0, nr), from, to, k + 1, n, nr)
  }

  /** The ranges of directory entries fork passes: both inside the directory, apart, the target in user space, and
      the source either in user space or the kernel's first entry with its uncounted pages. */
  ghost predicate ForkRange(s: Mm, from: nat, to: nat, n: nat, nr: nat)
    requires Shape(s)
  {
    && from + n <= ENTRIES && 2 <= to && to + n <= ENTRIES && nr <= ENTRIES
    && (from + n <= to || to + n <= from)
    && (from >= 2 || (from + n <= 2 && forall d, i :: from <= d < from + n && 0 <= i < nr ==>
      Entry(s, d, i).frame < LOW))
  }

  /** The entries of `t` after copying k directory entries of `s`: copies are read-only, sources lose the write bit. */
  ghost predicate CopiedEntries(s: Mm, t: Mm, from: nat, to: nat, k: nat, m: nat, nr: nat)
    requires Shape(s) && Shape(t) && k <= m && from + m <= ENTRIES && to + m <= ENTRIES
  {
    forall d, i {:trigger Entry(t, d, i)} :: 0 <= d < ENTRIES && 0 <= i < ENTRIES ==>
      Entry(t, d, i) ==
        if to + k <= d < to + m then (if i < nr then ReadOnly(Entry(s, from + (d - to), i)) else ZERO)
        else if from + k <= d < from + m && i < nr then Shared(Entry(s, d, i)) else Entry(s, d, i)
  }

  /** One turn of the outer loop, for a present source entry and a fresh frame `f`. */
  lemma CopyDirKeeps(s: Mm, fd: nat, td: nat, nr: nat)
    requires Inv(s) && fd < ENTRIES && 2 <= td < ENTRIES && fd != td && nr <= ENTRIES
    requires s.dir[fd].present && !s.dir[td].present
    requires fd < 2 ==> forall i :: 0 <= i < nr ==> Entry(s, fd, i).frame < LOW
    requires GetFreePage(s).1 != 0
    ensures var (s1, f) := GetFreePage(s);
      var t := CopyEntries(SetTable(s1, td, f), fd, td, 0, nr);
      && Inv(t) && SamePages(s, t) && t.held == s.held && t.dir == s.dir[td := Mapped(f)]
      && (forall d, i :: 0 <= d < ENTRIES && 0 <= i < ENTRIES ==>
        Entry(t, d, i) ==
          if d == td then (if i < nr then ReadOnly(Entry(s, fd, i)) else ZERO)
          else if d == fd && i < nr then Shared(Entry(s, fd, i)) else Entry(s, d, i))
  {
    var (s1, f) := GetFreePage(s);
    GetFreePageKeeps(s);
    SetTableKeeps(s1, td, f);
    var s2 := SetTable(s1, td, f);
    assert forall i :: 0 <= i < ENTRIES ==> Entry(s2, td, i) == ZERO;
    CopyEntriesKeeps(s2, fd, td, 0, nr);
    PagesInUse(s, f);
    SamePagesTrans(s, s1, s2);
    SamePagesTrans(s, s2, CopyEntries(s2, fd, td, 0, nr));
  }

  lemma {:induction false} CopyTablesKeeps(s: Mm, from: nat, to: nat, k: nat, n: nat, nr: nat)
    requires Inv(s) && k <= n && ForkRange(s, from, to, n, nr)
    requires forall d :: to + k <= d < to + n ==> !s.dir[d].present
    ensures var (t, m) := CopyTables(s, from, to, k, n, nr);
      Copied(s, t, from, to, k, m, nr)
    decreases n - k
  {
    if k < n {
      if !s.dir[from + k].present {
        CopyTablesKeeps(s, from, to, k + 1, n, nr);
        CopiedAbsent(s, CopyTables(s, from, to, k, n, nr).0, from, to, k, CopyTables(s, from, to, k, n, nr).1, nr);
      } else if GetFreePage(s).1 == 0 {
        GetFreePageKeeps(s);
      } else {
        var s3 := CopyDirReady(s, from, to, k, n, nr);
        CopyTablesKeeps(s3, from, to, k + 1, n, nr);
        CopiedStep(s, s3, CopyTables(s, from, to, k, n, nr).0, from, to, k, CopyTables(s, from, to, k, n, nr).1, nr);
      }
    }
  }

  /** After one turn the rest of the ranges can be copied in turn. */
  lemma CopyDirReady(s: Mm, from: nat, to: nat, k: nat, n: nat, nr: nat) returns (t: Mm)
    requires Inv(s) && k < n && ForkRange(s, from, to, n, nr)
    requires forall d :: to + k <= d < to + n ==> !s.dir[d].present
    requires s.dir[from + k].present && GetFreePage(s).1 != 0
    ensures var (s1, f) := GetFreePage(s); t == CopyEntries(SetTable(s1, to + k, f), from + k, to + k, 0, nr)
    ensures Inv(t) && ForkRange(t, from, to, n, nr) && (forall d :: to + k < d < to + n ==> !t.dir[d].present)
    ensures SamePages(s, t) && t.held == s.held && t.dir == s.dir[to + k := t.dir[to + k]] && t.dir[to + k].present
    ensures forall d, i {:trigger Entry(t, d, i)} :: 0 <= d < ENTRIES && 0 <= i < ENTRIES ==>
      Entry(t, d, i) ==
        if d == to + k then (if i < nr then ReadOnly(Entry(s, from + k, i)) else ZERO)
        else if d == from + k && i < nr then Shared(Entry(s, from + k, i)) else Entry(s, d, i)
  {
    var fd, td := from + k, to + k;
    var (s1, f) := GetFreePage(s);
    t := CopyEntries(SetTable(s1, td, f), fd, td, 0, nr);
    CopyDirKeeps(s, fd, td, nr);
    ForkRangeKept(s, t, from, to, k, n, nr);
  }

  lemma ForkRangeKept(s: Mm, t: Mm, from: nat, to: nat, k: nat, n: nat, nr: nat)
    requires Shape(s) && Shape(t) && k < n && ForkRange(s, from, to, n, nr)
    requires forall d, i {:trigger Entry(t, d, i)} :: 0 <= d < ENTRIES && d != to + k && 0 <= i < ENTRIES ==>
      Entry(t, d, i).frame == Entry(s, d, i).frame
    ensures ForkRange(t, from, to, n, nr)
  {
  }

  ghost predicate Copied(s: Mm, t: Mm, from: nat, to: nat, k: nat, m: nat, nr: nat)
    requires Shape(s) && Shape(t) && k <= m && from + m <= ENTRIES && to + m <= ENTRIES
  {
    && Inv(t) && SamePages(s, t) && t.held == s.held
    && CopiedEntries(s, t, from, to, k, m, nr) && CopiedDirs(s, t, from, to, k, m)
  }

  ghost predicate CopiedDirs(s: Mm, t: Mm, from: nat, to: nat, k: nat, m: nat)
    requires Shape(s) && Shape(t) && k <= m && from + m <= ENTRIES && to + m <= ENTRIES
  {
    && (forall d :: 0 <= d < ENTRIES && !(to + k <= d < to + m) ==> t.dir[d] == s.dir[d])
    && (forall d :: to + k <= d < to + m ==> t.dir[d].present == s.dir[from + (d - to)].present)
  }

  lemma CopiedAbsent(s: Mm, t: Mm, from: nat, to: nat, k: nat, m: nat, nr: nat)
    requires Shape(s) && Shape(t) && k < m && from + m <= ENTRIES && to + m <= ENTRIES
    requires from + m <= to || to + m <= from
    requires Copied(s, t, from, to, k + 1, m, nr)
    requires !s.dir[from + k].present && !s.dir[to + k].present
    ensures Copied(s, t, from, to, k, m, nr)
  {
    forall d, i | 0 <= d < ENTRIES && 0 <= i < ENTRIES
      ensures Entry(t, d, i) ==
        if to + k <= d < to + m then (if i < nr then ReadOnly(Entry(s, from + (d - to), i)) else ZERO)
        else if from + k <= d < from + m && i < nr then Shared(Entry(s, d, i)) else Entry(s, d, i)
    {
      if d == to + k {
        assert from + (d - to) == from + k;
        assert Entry(s, from + k, i) == ZERO;
      }
    }
  }

  lemma CopiedStep(s: Mm, s3: Mm, t: Mm, from: nat, to: nat, k: nat, m: nat, nr: nat)
    requires Shape(s) && Shape(s3) && Shape(t) && k < m && from + m <= ENTRIES && to + m <= ENTRIES
    requires from + m <= to || to + m <= from
    requires forall d, i :: 0 <= d < ENTRIES && 0 <= i < ENTRIES ==>
      Entry(s3, d, i) ==
        if d == to + k then (if i < nr then ReadOnly(Entry(s, from + k, i)) else ZERO)
        else if d == from + k && i < nr then Shared(Entry(s, from + k, i)) else Entry(s, d, i)
    requires SamePages(s, s3) && s3.held == s.held && Copied(s3, t, from, to, k + 1, m, nr)
    requires s.dir[from + k].present && s3.dir == s.dir[to + k := s3.dir[to + k]] && s3.dir[to + k].present
    ensures Copied(s, t, from, to, k, m, nr)
  {
    SamePagesTrans(s, s3, t);
    forall d, i | 0 <= d < ENTRIES && 0 <= i < ENTRIES
      ensures Entry(t, d, i) ==
        if to + k <= d < to + m then (if i < nr then ReadOnly(Entry(s, from + (d - to), i)) else ZERO)
        else if from + k <= d < from + m && i < nr then Shared(Entry(s, d, i)) else Entry(s, d, i)
    {
      if to + k < d < to + m {
        var e := from + (d - to);
        assert Entry(s3, e, i) == Entry(s, e, i);
        assert Entry(t, d, i) == if i < nr then ReadOnly(Entry(s3, e, i)) else ZERO;
      } else {
        assert Entry(t, d, i) == if from + k < d < from + m && i < nr then Shared(Entry(s3, d, i)) else Entry(s3, d, i);
      }
    }
  }

  lemma PagesInUse(s: Mm, f: Frame)
    requires Shape(s) && Users(s, f) == {}
    ensures forall d, i :: 2 <= d < ENTRIES && 0 <= i < ENTRIES && Entry(s, d, i).present ==> Entry(s, d, i).frame != f
  {
    forall d, i | 2 <= d < ENTRIES && 0 <= i < ENTRIES && Entry(s, d, i).present ensures Entry(s, d, i).frame != f {
      InAll(Pte(d, i));
      assert Pte(d, i) !in Users(s, f);
    }
  }

  lemma SamePagesTrans(s: Mm, t: Mm, u: Mm)
    requires Shape(s) && Shape(t) && Shape(u) && SamePages(s, t) && SamePages(t, u)
    ensures SamePages(s, u)
  {
  }

  // ---------------------------------------------------------------------------------------------------------
  // Teardown: free_page_tables

  /** Outside directory entries lo..hi-1 every user entry is as it was and maps the same words; so is low memory. */
  ghost predicate OthersKept(s: Mm, t: Mm, lo: nat, hi: nat)
    requires Shape(s) && Shape(t)
  {
    && (forall f :: 0 <= f < LOW ==> t.mem[f] == s.mem[f])
    && (forall d, i {:trigger Entry(t, d, i)} {:trigger Entry(s, d, i)} ::
      2 <= d < ENTRIES && !(lo <= d < hi) && 0 <= i < ENTRIES ==>
      && Entry(t, d, i) == Entry(s, d, i)
      && (Entry(s, d, i).present ==> t.mem[Entry(s, d, i).frame] == s.mem[Entry(s, d, i).frame]))
  }

  lemma OthersKeptTrans(s: Mm, t: Mm, u: Mm, lo: nat, hi: nat)
    requires Shape(s) && Shape(t) && Shape(u) && OthersKept(s, t, lo, hi) && OthersKept(t, u, lo, hi)
    ensures OthersKept(s, u, lo, hi)
  {
  }

  /** The body of the inner loop of free_page_tables. */
  function FreeEntry(s: Mm, d: nat, i: nat): (t: Mm)
    requires Inv(s) && 2 <= d < ENTRIES && i < ENTRIES && s.dir[d].present
    ensures Shape(t) && t.dir == s.dir && t.held == s.held
  {
    var e := Entry(s, d, i);
    if e.present then
      assert e.frame >= LOW ==> s.map_[e.frame - LOW] > 0 by { if e.frame >= LOW { CountOfUsed(s, Pte(d, i)); } }
      SetEntry(FreePage(s, e.frame), d, i, ZERO)
    else SetEntry(s, d, i, ZERO)
  }

  lemma {:induction false} FreeEntryKeeps(s: Mm, d: nat, i: nat)
    requires Inv(s) && 2 <= d < ENTRIES && i < ENTRIES && s.dir[d].present
    ensures var t := FreeEntry(s, d, i);
      && Inv(t)
      && (forall f :: 0 <= f < FRAMES && f != s.dir[d].frame ==> t.mem[f] == s.mem[f])
      && (forall e, j :: 0 <= e < ENTRIES && 0 <= j < ENTRIES ==>
        Entry(t, e, j) == if e == d && j == i then ZERO else Entry(s, e, j))
  {
    EntryAfterSet(s, d, i, ZERO);
    TargetAfterSet(s, d, i, ZERO);
    var t := FreeEntry(s, d, i);
    var u := SetEntry(s, d, i, ZERO);
    forall e, j | 0 <= e < ENTRIES && 0 <= j < ENTRIES ensures Entry(t, e, j) == Entry(u, e, j) { }
    forall q | IsRef(q) ensures Target(t, q) == Target(u, q) { }
    OneChange(s, t, Pte(d, i));
  }

  lemma FreeEntryOthers(s: Mm, d: nat, i: nat)
    requires Inv(s) && 2 <= d < ENTRIES && i < ENTRIES && s.dir[d].present
    ensures OthersKept(s, FreeEntry(s, d, i), d, d + 1)
  {
    FreeEntryKeeps(s, d, i);
    TableIsNoPage(s, d);
  }

  /** The inner loop of free_page_tables, from entry `i` on. */
  function FreeEntries(s: Mm, d: nat, i: nat): (t: Mm)
    requires Inv(s) && 2 <= d < ENTRIES && i <= ENTRIES && s.dir[d].present
    ensures Shape(t) && t.dir == s.dir && t.held == s.held
    decreases ENTRIES - i
  {
    if i == ENTRIES then s else
    FreeEntryKeeps(s, d, i);
    FreeEntries(FreeEntry(s, d, i), d, i + 1)
  }

  lemma {:induction false} FreeEntriesKeeps(s: Mm, d: nat, i: nat)
    requires Inv(s) && 2 <= d < ENTRIES && i <= ENTRIES && s.dir[d].present
    requires forall j :: 0 <= j < i ==> !Entry(s, d, j).present
    ensures var t := FreeEntries(s, d, i);
      && Inv(t) && OthersKept(s, t, d, d + 1)
      && (forall j :: 0 <= j < ENTRIES ==> !Entry(t, d, j).present)
    decreases ENTRIES - i
  {
    if i < ENTRIES {
      FreeEntryKeeps(s, d, i);
      FreeEntryOthers(s, d, i);
      FreeEntriesKeeps(FreeEntry(s, d, i), d, i + 1);
      OthersKeptTrans(s, FreeEntry(s, d, i), FreeEntries(s, d, i), d, d + 1);
    }
  }

  /** The emptied table of entry `d` is freed and the entry cleared. */
  function DropTable(s: Mm, d: nat): (t: Mm)
    requires Inv(s) && 2 <= d < ENTRIES && s.dir[d].present
    ensures Shape(t)
  {
    CountOfUsed(s, Pde(d));
    var s2 := FreePage(s, s.dir[d].frame);
    s2.(dir := s2.dir[d := ZERO])
  }

  lemma DropTableKeeps(s: Mm, d: nat)
    requires Inv(s) && 2 <= d < ENTRIES && s.dir[d].present
    requires forall j :: 0 <= j < ENTRIES ==> !Entry(s, d, j).present
    ensures var t := DropTable(s, d);
      && Inv(t) && OthersKept(s, t, d, d + 1) && t.held == s.held && t.dir == s.dir[d := ZERO] && t.mem == s.mem
  {
    var t := DropTable(s, d);
    assert forall e, j :: 0 <= e < ENTRIES && 0 <= j < ENTRIES && e != d ==> Entry(t, e, j) == Entry(s, e, j);
    assert forall j :: 0 <= j < ENTRIES ==> Entry(t, d, j) == ZERO;
    assert forall q :: IsRef(q) && q != Pde(d) ==> Target(t, q) == Target(s, q);
    OneChange(s, t, Pde(d));
  }

  /** One turn of the outer loop of free_page_tables. */
  function FreeDir(s: Mm, d: nat): (t: Mm)
    requires Inv(s) && 2 <= d < ENTRIES
    ensures Shape(t)
  {
    if !s.dir[d].present then s else
    FreeEntriesKeeps(s, d, 0);
    DropTable(FreeEntries(s, d, 0), d)
  }

  lemma FreeDirKeeps(s: Mm, d: nat)
    requires Inv(s) && 2 <= d < ENTRIES
    ensures var t := FreeDir(s, d);
      && Inv(t) && OthersKept(s, t, d, d + 1) && t.held == s.held && !t.dir[d].present
      && (forall e :: 0 <= e < ENTRIES && e != d ==> t.dir[e] == s.dir[e])
  {
    if s.dir[d].present {
      FreeEntriesKeeps(s, d, 0);
      DropTableKeeps(FreeEntries(s, d, 0), d);
      OthersKeptTrans(s, FreeEntries(s, d, 0), FreeDir(s, d), d, d + 1);
    }
  }

  /** free_page_tables over `n` directory entries from `from`. */
  function FreeTables(s: Mm, from: nat, n: nat): (t: Mm)
    requires Inv(s) && 2 <= from && from + n <= ENTRIES
    ensures Shape(t)
    decreases n
  {
    if n == 0 then s else
    FreeDirKeeps(s, from);
    FreeTables(FreeDir(s, from), from + 1, n - 1)
  }

  lemma {:induction false} FreeTablesKeeps(s: Mm, from: nat, n: nat)
    requires Inv(s) && 2 <= from && from + n <= ENTRIES
    ensures var t := FreeTables(s, from, n);
      && Inv(t) && OthersKept(s, t, from, from + n) && t.held == s.held
      && (forall d :: 0 <= d < ENTRIES ==> if from <= d < from + n then !t.dir[d].present else t.dir[d] == s.dir[d])
    decreases n
  {
    if n > 0 {
      FreeDirKeeps(s, from);
      var s1 := FreeDir(s, from);
      FreeTablesKeeps(s1, from + 1, n - 1);
      assert OthersKept(s, s1, from, from + n);
      assert OthersKept(s1, FreeTables(s, from, n), from, from + n);
      OthersKeptTrans(s, s1, FreeTables(s, from, n), from, from + n);
    }
  }

  // ---------------------------------------------------------------------------------------------------------
  // Faults

  /** Words written to a frame that is no page table leave every entry and the invariant alone. */
  lemma StoreKeeps(s: Mm, f: Frame, words: seq<Word>)
    requires Inv(s) && |words| == ENTRIES
    requires forall d :: 0 <= d < ENTRIES && s.dir[d].present ==> s.dir[d].frame != f
    ensures var t := s.(mem := s.mem[f := words]);
      Inv(t) && forall d, i :: 0 <= d < ENTRIES && 0 <= i < ENTRIES ==> Entry(t, d, i) == Entry(s, d, i)
  {
    var t := s.(mem := s.mem[f := words]);
    assert forall d, i :: 0 <= d < ENTRIES && 0 <= i < ENTRIES ==> Entry(t, d, i) == Entry(s, d, i);
    assert forall q :: IsRef(q) ==> Target(t, q) == Target(s, q);
    forall g: int ensures Users(t, g) == Users(s, g) { }
  }

  /** The entry maps no counted frame. */
  predicate Uncounted(s: Mm, d: nat, i: nat)
    requires Shape(s) && d < ENTRIES && i < ENTRIES
  {
    Entry(s, d, i).present ==> Entry(s, d, i).frame < LOW
  }

  /** A frame held by the kernel is put into an entry of a table. */
  function Install(s: Mm, d: nat, i: nat, f: Frame): (t: Mm)
    requires Shape(s) && d < ENTRIES && i < ENTRIES
    ensures Shape(t) && t.dir == s.dir
  {
    SetEntry(s, d, i, Mapped(f)).(held := s.held - {f})
  }

  lemma InstallKeeps(s: Mm, d: nat, i: nat, f: Frame)
    requires Inv(s) && 2 <= d < ENTRIES && i < ENTRIES && s.dir[d].present && f in s.held && Uncounted(s, d, i)
    ensures var t := Install(s, d, i, f);
      && Inv(t) && OthersKept(s, t, d, d + 1) && t.mem[f] == s.mem[f]
      && (forall e, j :: 0 <= e < ENTRIES && 0 <= j < ENTRIES ==>
        Entry(t, e, j) == if e == d && j == i then Mapped(f) else Entry(s, e, j))
      && (forall g :: 0 <= g < FRAMES && g != s.dir[d].frame ==> t.mem[g] == s.mem[g])
  {
    var s1 := SetEntry(s, d, i, Mapped(f));
    var t := Install(s, d, i, f);
    TableIsNoPage(s, d);
    EntryAfterSet(s, d, i, Mapped(f));
    TargetAfterSet(s, d, i, Mapped(f));
    assert Sole(s, Held(f)) && Target(s, Held(f)) == f;
    assert Target(s, Pde(d)) != f;
    assert Target(s, Pte(d, i)) < LOW;
    assert forall e, j :: 0 <= e < ENTRIES && 0 <= j < ENTRIES ==> Entry(t, e, j) == Entry(s1, e, j);
    assert forall q :: IsRef(q) && q != Held(f) ==> Target(t, q) == Target(s1, q);
    OneChange(s, s1, Pte(d, i));
    OneChange(s1, t, Held(f));
    forall q | IsRef(q) && q != Held(f) && q != Pte(d, i) ensures Target(t, q) == Target(s, q) && Target(t, q) != f { }
    assert Sole(t, Pte(d, i));
  }

  /** The copying half of un_wp_page; false when no page could be had. */
  function CopyOnWrite(s: Mm, d: nat, i: nat): (r: (Mm, bool))
    requires Inv(s) && 2 <= d < ENTRIES && i < ENTRIES && Entry(s, d, i).present
    ensures Shape(r.0)
  {
    var e := Entry(s, d, i);
    var (s1, f) := GetFreePage(s);
    if f == 0 then (s1, false) else
    GetFreePageKeeps(s);
    assert e.frame >= LOW ==> s1.map_[e.frame - LOW] > 0 by { if e.frame >= LOW { CountOfUsed(s1, Pte(d, i)); } }
    var s2 := Install(FreePage(s1, e.frame), d, i, f);
    (s2.(mem := s2.mem[f := s2.mem[e.frame]]), true)
  }

  /** un_wp_page; where it fails the C function calls do_exit. */
  function UnWpPage(s: Mm, d: nat, i: nat): (r: (Mm, bool))
    requires Inv(s) && 2 <= d < ENTRIES && i < ENTRIES && Entry(s, d, i).present
    ensures Shape(r.0)
  {
    var e := Entry(s, d, i);
    if e.frame >= LOW && s.map_[e.frame - LOW] == 1 then (SetEntry(s, d, i, e.(write := true)), true)
    else CopyOnWrite(s, d, i)
  }

  /** All that users see is as it was, except through entry (d, i). */
  ghost predicate ElseKept(s: Mm, t: Mm, d: nat, i: nat)
    requires Shape(s) && Shape(t) && d < ENTRIES && i < ENTRIES
  {
    && (forall f :: 0 <= f < LOW ==> t.mem[f] == s.mem[f])
    && (forall e, j {:trigger Entry(t, e, j)} {:trigger Entry(s, e, j)} ::
      2 <= e < ENTRIES && 0 <= j < ENTRIES && (e != d || j != i) ==>
      && Entry(t, e, j) == Entry(s, e, j)
      && (Entry(s, e, j).present ==> t.mem[Entry(s, e, j).frame] == s.mem[Entry(s, e, j).frame]))
  }

  /** A task can read, and write, the page. */
  predicate CanRead(s: Mm, d: nat, i: nat)
    requires Shape(s) && d < ENTRIES && i < ENTRIES
  {
    s.dir[d].present && s.dir[d].user && Entry(s, d, i).present && Entry(s, d, i).user
  }

  predicate CanWrite(s: Mm, d: nat, i: nat)
    requires Shape(s) && d < ENTRIES && i < ENTRIES
  {
    CanRead(s, d, i) && s.dir[d].write && Entry(s, d, i).write
  }

  /** Entry (d, i) maps a frame nobody had, as a page a task can read and write. */
  ghost predicate MapsFresh(s: Mm, t: Mm, d: nat, i: nat)
    requires Shape(s) && Shape(t) && d < ENTRIES && i < ENTRIES
  {
    var e := Entry(t, d, i);
    e == Word(e.frame, 0, true, true, true) && e.frame >= LOW && Users(s, e.frame) == {} && CanWrite(t, d, i)
  }

  /** Entry (d, i) can now be written and maps the words it mapped; all else is as it was. */
  ghost predicate MadeWritable(s: Mm, t: Mm, d: nat, i: nat)
    requires Shape(s) && Shape(t) && d < ENTRIES && i < ENTRIES
  {
    && CanWrite(t, d, i) && t.mem[Entry(t, d, i).frame] == s.mem[Entry(s, d, i).frame]
    && ElseKept(s, t, d, i)
  }

  ghost predicate UnWpResult(s: Mm, r: (Mm, bool), d: nat, i: nat)
    requires Shape(s) && Shape(r.0) && d < ENTRIES && i < ENTRIES
  {
    Inv(r.0) && r.0.held == s.held && r.0.dir == s.dir && if r.1 then MadeWritable(s, r.0, d, i) else r.0 == s
  }

  /** un_wp_page keeps the invariant, makes the entry writable, and leaves everyone else's pages alone. */
  lemma UnWpPageKeeps(s: Mm, d: nat, i: nat)
    requires Inv(s) && 2 <= d < ENTRIES && i < ENTRIES && Entry(s, d, i).present
    ensures UnWpResult(s, UnWpPage(s, d, i), d, i)
    ensures var (t, ok) := UnWpPage(s, d, i);
      ok ==>
        if Entry(s, d, i).frame >= LOW && Sole(s, Pte(d, i)) then Entry(t, d, i) == Entry(s, d, i).(write := true)
        else MapsFresh(s, t, d, i)
  {
    var r, f := UnWpPage(s, d, i), Entry(s, d, i).frame;
    if f >= LOW { CountOfUsed(s, Pte(d, i)); }
    if f >= LOW && s.map_[f - LOW] == 1 {
      assert r == (SetEntry(s, d, i, Entry(s, d, i).(write := true)), true);
      EntryAfterSet(s, d, i, Entry(s, d, i).(write := true));
      UnprotectKeeps(s, d, i);
    } else {
      assert r == CopyOnWrite(s, d, i);
      CopyOnWriteKeeps(s, d, i);
    }
  }

  /** It fails exactly when the frame is shared or low and every frame is in use. */
  lemma UnWpPageFails(s: Mm, d: nat, i: nat)
    requires Inv(s) && 2 <= d < ENTRIES && i < ENTRIES && Entry(s, d, i).present
    ensures !UnWpPage(s, d, i).1 <==>
      (Entry(s, d, i).frame < LOW || !Sole(s, Pte(d, i))) && forall f :: LOW <= f < FRAMES ==> Users(s, f) != {}
  {
    if Entry(s, d, i).frame >= LOW { CountOfUsed(s, Pte(d, i)); }
    GetFreePageKeeps(s);
  }

  lemma UnprotectKeeps(s: Mm, d: nat, i: nat)
    requires Inv(s) && 2 <= d < ENTRIES && i < ENTRIES && Entry(s, d, i).present
    requires Entry(s, d, i).frame >= LOW && Sole(s, Pte(d, i))
    ensures UnWpResult(s, (SetEntry(s, d, i, Entry(s, d, i).(write := true)), true), d, i)
  {
    var w := Entry(s, d, i).(write := true);
    var t := SetEntry(s, d, i, w);
    EntryAfterSet(s, d, i, w);
    TargetAfterSet(s, d, i, w);
    TableIsNoPage(s, d);
    assert forall q :: IsRef(q) ==> Target(t, q) == Target(s, q);
    forall g: int ensures Users(t, g) == Users(s, g) { }
  }

  lemma CopyOnWriteKeeps(s: Mm, d: nat, i: nat)
    requires Inv(s) && 2 <= d < ENTRIES && i < ENTRIES && Entry(s, d, i).present
    ensures UnWpResult(s, CopyOnWrite(s, d, i), d, i)
    ensures CopyOnWrite(s, d, i).1 ==> MapsFresh(s, CopyOnWrite(s, d, i).0, d, i)
  {
    if GetFreePage(s).1 != 0 { CopyOnWriteCopies(s, d, i); }
  }

  lemma CopyOnWriteCopies(s: Mm, d: nat, i: nat)
    requires Inv(s) && 2 <= d < ENTRIES && i < ENTRIES && Entry(s, d, i).present && GetFreePage(s).1 != 0
    ensures CopyOnWrite(s, d, i).1 && UnWpResult(s, CopyOnWrite(s, d, i), d, i)
    ensures MapsFresh(s, CopyOnWrite(s, d, i).0, d, i)
  {
    var old_ := Entry(s, d, i).frame;
    var (s1, f) := GetFreePage(s);
    GetFreePageKeeps(s);
    var s2 := FreeEntry(s1, d, i);
    FreeEntryKeeps(s1, d, i);
    var s3 := Install(s2, d, i, f);
    InstallKeeps(s2, d, i, f);
    var t := CopyOnWrite(s, d, i).0;
    SetTwice(s1, d, i, f);
    PagesInUse(s, f);
    TableIsNoPage(s1, d);
    assert s3.mem[old_] == s.mem[old_];
    assert t == s3.(mem := s3.mem[f := s3.mem[old_]]);
    TableIsNoPage(s3, d);
    forall e | 0 <= e < ENTRIES && s3.dir[e].present ensures s3.dir[e].frame != f {
      if e >= 2 { TableIsNoPage(s3, e); }
    }
    StoreKeeps(s3, f, s3.mem[old_]);
    forall e, j | 2 <= e < ENTRIES && 0 <= j < ENTRIES && (e != d || j != i)
      ensures Entry(t, e, j) == Entry(s, e, j)
      ensures Entry(s, e, j).present ==> t.mem[Entry(s, e, j).frame] == s.mem[Entry(s, e, j).frame]
    {
      assert Entry(s3, e, j) == Entry(s, e, j);
    }
  }

  /** Clearing an entry and installing a frame is installing the frame. */
  lemma SetTwice(s: Mm, d: nat, i: nat, f: Frame)
    requires Inv(s) && 2 <= d < ENTRIES && i < ENTRIES && Entry(s, d, i).present
    ensures Entry(s, d, i).frame >= LOW ==> s.map_[Entry(s, d, i).frame - LOW] > 0
    ensures Install(FreeEntry(s, d, i), d, i, f) == Install(FreePage(s, Entry(s, d, i).frame), d, i, f)
  {
    if Entry(s, d, i).frame >= LOW { CountOfUsed(s, Pte(d, i)); }
    var g := s.dir[d].frame;
    assert s.mem[g][i := ZERO][i := Mapped(f)] == s.mem[g][i := Mapped(f)];
    assert s.mem[g := s.mem[g][i := ZERO]][g := s.mem[g][i := Mapped(f)]] == s.mem[g := s.mem[g][i := Mapped(f)]];
  }

  /** put_page of a frame the kernel holds, into an absent entry; false when a missing table cannot be had. The frame
      then stays held: put_page returns 0 without freeing it. */
  function PutPage(s: Mm, d: nat, i: nat, f: Frame): (r: (Mm, bool))
    requires Shape(s) && d < ENTRIES && i < ENTRIES
    ensures Shape(r.0)
  {
    if s.dir[d].present then (Install(s, d, i, f), true) else
    var (s1, g) := GetFreePage(s);
    if g == 0 then (s1, false) else (Install(SetTable(s1, d, g), d, i, f), true)
  }

  /** do_no_page for an absent entry. */
  function NoPage(s: Mm, d: nat, i: nat): (r: (Mm, bool))
    requires Shape(s) && d < ENTRIES && i < ENTRIES
    ensures Shape(r.0)
  {
    var (s1, f) := GetFreePage(s);
    if f == 0 then (s1, false) else PutPage(s1, d, i, f)
  }

  /** put_page maps the frame there and nothing elsewhere, or changes nothing. */
  lemma PutPageKeeps(s: Mm, d: nat, i: nat, f: Frame)
    requires Inv(s) && 2 <= d < ENTRIES && i < ENTRIES && Uncounted(s, d, i) && f in s.held
    ensures var (t, ok) := PutPage(s, d, i, f);
      && Inv(t) && ElseKept(s, t, d, i) && (forall e :: 0 <= e < ENTRIES && e != d ==> t.dir[e] == s.dir[e])
      && (ok ==> Entry(t, d, i) == Word(f, 0, true, true, true) && CanWrite(t, d, i))
      && (ok ==> t.mem[f] == s.mem[f] && t.held == s.held - {f})
      && (ok <==> s.dir[d].present || exists g :: LOW <= g < FRAMES && Users(s, g) == {})
      && (!ok ==> t == s)
  {
    if s.dir[d].present {
      PutInstall(s, s, d, i, f);
    } else {
      var (s1, g) := GetFreePage(s);
      GetFreePageKeeps(s);
      if g != 0 {
        PagesInUse(s, g);
        assert f != g by { InAll(Held(f)); assert Held(f) in Users(s, f); }
        SetTableKeeps(s1, d, g);
        PutInstall(s, SetTable(s1, d, g), d, i, f);
      }
    }
  }

  /** put_page does not look at what the entry maps. The counts stay exact if and only if that is no counted frame; such
      a one is lost. */
  lemma PutPageExactly(s: Mm, d: nat, i: nat, f: Frame)
    requires Inv(s) && 2 <= d < ENTRIES && i < ENTRIES && f in s.held
    ensures Inv(PutPage(s, d, i, f).0) <==> Uncounted(s, d, i)
  {
    if Uncounted(s, d, i) {
      PutPageKeeps(s, d, i, f);
    } else {
      var r, s1 := Pte(d, i), SetEntry(s, d, i, Mapped(f));
      var t, g: int := Install(s, d, i, f), Entry(s, d, i).frame;
      assert PutPage(s, d, i, f) == (t, true);
      EntryAfterSet(s, d, i, Mapped(f));
      TargetAfterSet(s, d, i, Mapped(f));
      assert Sole(s, Held(f)) && Target(s, Held(f)) == f != g && Target(s, r) == g;
      OneChange(s, s1, r);
      assert forall q :: IsRef(q) && q != Held(f) ==> Target(t, q) == Target(s1, q) by {
        assert forall e, j :: 0 <= e < ENTRIES && 0 <= j < ENTRIES ==> Entry(t, e, j) == Entry(s1, e, j);
      }
      OneChange(s1, t, Held(f));
      assert |Users(t, g)| == |Users(s, g)| - 1 && t.map_[g - LOW] == s.map_[g - LOW] == |Users(s, g)|;
      assert !Counted(t);
    }
  }

  lemma NoPageKeeps(s: Mm, d: nat, i: nat)
    requires Inv(s) && 2 <= d < ENTRIES && i < ENTRIES && !Entry(s, d, i).present
    ensures var (t, ok) := NoPage(s, d, i);
      && Inv(t) && ElseKept(s, t, d, i) && (forall e :: 0 <= e < ENTRIES && e != d ==> t.dir[e] == s.dir[e])
      && (ok ==> MapsFresh(s, t, d, i) && t.mem[Entry(t, d, i).frame] == Blank())
      && (!ok ==> Entry(t, d, i) == Entry(s, d, i) && t.dir == s.dir)
  {
    var (s1, f) := GetFreePage(s);
    GetFreePageKeeps(s);
    if f != 0 {
      PagesInUse(s, f);
      PutPageKeeps(s1, d, i, f);
      ElseKeptTrans(s, s1, PutPage(s1, d, i, f).0, d, i);
    }
  }

  lemma ElseKeptTrans(s: Mm, t: Mm, u: Mm, d: nat, i: nat)
    requires Shape(s) && Shape(t) && Shape(u) && d < ENTRIES && i < ENTRIES && ElseKept(s, t, d, i)
      && ElseKept(t, u, d, i)
    ensures ElseKept(s, u, d, i)
  {
    forall e, j | 2 <= e < ENTRIES && 0 <= j < ENTRIES && (e != d || j != i)
      ensures Entry(u, e, j) == Entry(s, e, j)
      ensures Entry(s, e, j).present ==> u.mem[Entry(s, e, j).frame] == s.mem[Entry(s, e, j).frame]
    {
      assert Entry(t, e, j) == Entry(s, e, j);
    }
  }

  lemma PutInstall(s: Mm, u: Mm, d: nat, i: nat, f: Frame)
    requires Inv(u) && Shape(s) && 2 <= d < ENTRIES && i < ENTRIES && u.dir[d].present && f in u.held
      && u.mem[f] == s.mem[f]
    requires forall e, j :: 0 <= e < ENTRIES && 0 <= j < ENTRIES ==> Entry(u, e, j) == Entry(s, e, j)
    requires Uncounted(s, d, i) && ElseKept(s, u, d, i)
    ensures var t := Install(u, d, i, f);
      Inv(t) && ElseKept(s, t, d, i) && Entry(t, d, i) == Mapped(f) && t.mem[f] == s.mem[f]
  {
    InstallKeeps(u, d, i, f);
    TableIsNoPage(u, d);
    var t := Install(u, d, i, f);
    forall e, j | 2 <= e < ENTRIES && 0 <= j < ENTRIES && (e != d || j != i)
      ensures Entry(t, e, j) == Entry(s, e, j)
      ensures Entry(s, e, j).present ==> t.mem[Entry(s, e, j).frame] == s.mem[Entry(s, e, j).frame]
    {
      assert Entry(u, e, j) == Entry(s, e, j);
    }
  }

  /** A store through a present entry: write_verify or the write fault, then the word. False when it killed the task. */
  function WriteWord(s: Mm, d: nat, i: nat, off: nat, v: Word): (r: (Mm, bool))
    requires Inv(s) && 2 <= d < ENTRIES && i < ENTRIES && off < ENTRIES && Entry(s, d, i).present
    ensures Shape(r.0)
  {
    var (t, ok) := if CanWrite(s, d, i) then (s, true) else UnWpPage(s, d, i);
    if !ok || !CanWrite(t, d, i) then (t, false) else
    var f := Entry(t, d, i).frame;
    (t.(mem := t.mem[f := t.mem[f][off := v]]), true)
  }

  /** The words a user sees through an entry. */
  datatype Option<T> = None | Some(value: T)

  function View(s: Mm, d: nat, i: nat): Option<seq<Word>>
    requires Shape(s) && d < ENTRIES && i < ENTRIES
  {
    if CanRead(s, d, i) then Some(s.mem[Entry(s, d, i).frame]) else None
  }

  /** A store changes the one word its own entry maps and nothing any other user entry sees. */
  lemma WriteIsIsolated(s: Mm, d: nat, i: nat, off: nat, v: Word)
    requires Inv(s) && 2 <= d < ENTRIES && i < ENTRIES && off < ENTRIES && Entry(s, d, i).present
    ensures var (t, ok) := WriteWord(s, d, i, off, v);
      && Inv(t) && t.held == s.held && t.dir == s.dir && ElseKept(s, t, d, i)
      && CanRead(s, d, i)
      && (ok ==> View(t, d, i) == Some(View(s, d, i).value[off := v]) && CanWrite(t, d, i))
      && (!ok ==> t == s)
      && (!ok <==>
        (!CanWrite(s, d, i) && (Entry(s, d, i).frame < LOW || !Sole(s, Pte(d, i)))
         && forall f :: LOW <= f < FRAMES ==> Users(s, f) != {}))
  {
    var (t, ok) := if CanWrite(s, d, i) then (s, true) else UnWpPage(s, d, i);
    assert CanRead(s, d, i) by { assert Entry(s, d, i).user; }
    if !CanWrite(s, d, i) {
      UnWpPageKeeps(s, d, i);
      UnWpPageFails(s, d, i);
    }
    if ok {
      assert Entry(t, d, i).write && Sole(t, Pte(d, i));
      var f := Entry(t, d, i).frame;
      forall e | 0 <= e < ENTRIES && t.dir[e].present ensures t.dir[e].frame != f {
        if e >= 2 { TableIsNoPage(t, e); }
      }
      StoreKeeps(t, f, t.mem[f][off := v]);
      var u := WriteWord(s, d, i, off, v).0;
      forall e, j | 2 <= e < ENTRIES && 0 <= j < ENTRIES && (e != d || j != i)
        ensures Entry(u, e, j) == Entry(s, e, j)
        ensures Entry(s, e, j).present ==> u.mem[Entry(s, e, j).frame] == s.mem[Entry(s, e, j).frame]
      {
        assert Entry(t, e, j) == Entry(s, e, j);
        assert Entry(t, e, j).present ==> Target(t, Pte(e, j)) != Target(t, Pte(d, i));
      }
    }
  }
}
