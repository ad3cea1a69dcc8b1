/** mm/memory.c as it runs: mem_map, the page directory and the frames updated in place. Each method is proved
  against the function of module Memory that describes it. */
module MemoryCode {
  import opened Memory
  import M = Memory
  import Runs = MemoryRuns

  class Paging {
    var memMap: array<nat>
    var pgDir: array<Word>
    var frames: array<seq<Word>>
    ghost var held: set<nat> // frames the kernel holds for itself

    ghost predicate Valid()
      reads this, memMap, pgDir, frames
    {
      Shape(S())
    }

    ghost function S(): Mm
      reads this, memMap, pgDir, frames
    {
      Mm(memMap[..], pgDir[..], frames[..], held)
    }

    /** Memory as the boot code leaves it. */
    constructor ()
      ensures S() == Runs.Boot() && Runs.Ok(S()) && fresh(memMap) && fresh(pgDir) && fresh(frames)
    {
      ghost var boot := Runs.Boot();
      memMap := new nat[PAGES](k => 0);
      pgDir := new Word[ENTRIES](d => if d == 0 then Mapped(1) else if d == 1 then Mapped(2) else ZERO);
      frames := new seq<Word>[FRAMES](f => if f == 1 then Runs.Identity(0) else if f == 2 then Runs.Identity(ENTRIES)
        else Blank());
      held := {};
      new;
      Runs.BootIsOk();
      assert memMap[..] == boot.map_ && pgDir[..] == boot.dir && frames[..] == boot.mem;
    }

    /** get_free_page: the scan runs from the last frame down. */
    method GetFreePage() returns (f: Frame)
      requires Valid()
      modifies this`held, memMap, frames
      ensures Valid() && (S(), f) == M.GetFreePage(old(S()))
    {
      var k: int := PAGES - 1;
      while k >= 0 && memMap[k] != 0
        invariant -1 <= k < PAGES
        invariant LastFree(memMap[..], PAGES) == LastFree(memMap[..], k + 1)
      {
        k := k - 1;
      }
      if k < 0 {
        return 0;
      }
      memMap[k] := 1;
      frames[LOW + k] := Blank();
      held := held + {LOW + k};
      f := LOW + k;
    }

    /** free_page; the panics are its precondition. */
    method FreePage(f: Frame)
      requires Valid() && (f >= LOW ==> memMap[f - LOW] > 0)
      modifies memMap
      ensures Valid() && S() == M.FreePage(old(S()), f)
    {
      if f < LOW {
        return;
      }
      memMap[f - LOW] := memMap[f - LOW] - 1;
    }

    method SetWord(f: Frame, i: nat, w: Word)
      requires Valid() && i < ENTRIES
      modifies frames
      ensures Valid() && S() == old(S()).(mem := old(S()).mem[f := old(S()).mem[f][i := w]])
    {
      frames[f] := frames[f][i := w];
    }

    /** The inner loop of copy_page_tables. */
    method CopyEntries(fd: nat, td: nat, nr: nat)
      requires Valid() && fd < ENTRIES && td < ENTRIES && nr <= ENTRIES && pgDir[fd].present
      modifies memMap, frames
      ensures Valid() && S() == M.CopyEntries(old(S()), fd, td, 0, nr)
    {
      var i := 0;
      while i < nr
        invariant i <= nr && Valid() && pgDir[..] == old(pgDir[..]) && held == old(held)
        invariant M.CopyEntries(S(), fd, td, i, nr) == M.CopyEntries(old(S()), fd, td, 0, nr)
      {
        ghost var before := S();
        var page := frames[pgDir[fd].frame][i];
        if page.present {
          page := page.(write := false);
          SetWord(pgDir[td].frame, i, page);
          if page.frame >= LOW {
            SetWord(pgDir[fd].frame, i, page);
            memMap[page.frame - LOW] := memMap[page.frame - LOW] + 1;
          }
        }
        assert S() == CopyEntry(before, fd, td, i);
        i := i + 1;
      }
    }

    /** One turn of the outer loop: a fresh table for the child, filled from the parent's. */
    method ShareTable(fd: nat, td: nat, nr: nat) returns (ok: bool)
      requires Valid() && fd < ENTRIES && td < ENTRIES && fd != td && nr <= ENTRIES && pgDir[fd].present
      modifies this`held, memMap, pgDir, frames
      ensures Valid() && pgDir[..] == if ok then old(pgDir[..])[td := pgDir[td]] else old(pgDir[..])
      ensures var (s1, f) := M.GetFreePage(old(S()));
        && (ok <==> f != 0)
        && S() == if f == 0 then s1 else M.CopyEntries(SetTable(s1, td, f), fd, td, 0, nr)
    {
      var f := GetFreePage();
      if f == 0 {
        return false;
      }
      pgDir[td] := Mapped(f);
      held := held - {f};
      CopyEntries(fd, td, nr);
      ok := true;
    }

    /** copy_page_tables. */
    method CopyPageTables(from: nat, to: nat, n: nat, nr: nat) returns (ok: bool)
      requires Valid() && from + n <= ENTRIES && to + n <= ENTRIES && nr <= ENTRIES && from != to
      requires forall d :: to <= d < to + n ==> !pgDir[d].present
      modifies this`held, memMap, pgDir, frames
      ensures Valid() && S() == CopyTables(old(S()), from, to, 0, n, nr).0
      ensures ok <==> CopyTables(old(S()), from, to, 0, n, nr).1 == n
    {
      var k := 0;
      while k < n
        invariant k <= n && Valid()
        invariant forall d :: to + k <= d < to + n ==> !pgDir[d].present
        invariant CopyTables(S(), from, to, k, n, nr) == CopyTables(old(S()), from, to, 0, n, nr)
      {
        if pgDir[from + k].present {
          ok := ShareTable(from + k, to + k, nr);
          if !ok {
            return;
          }
        }
        k := k + 1;
      }
      ok := true;
    }

    /** free_page_tables. */
    method FreePageTables(from: nat, n: nat)
      requires Valid() && Inv(S()) && 2 <= from && from + n <= ENTRIES
      modifies memMap, pgDir, frames
      ensures Valid() && S() == FreeTables(old(S()), from, n)
    {
      var k := 0;
      while k < n
        invariant k <= n && Inv(S()) && held == old(held)
        invariant FreeTables(S(), from + k, n - k) == FreeTables(old(S()), from, n)
      {
        FreeDirKeeps(S(), from + k);
        FreeOne(from + k);
        k := k + 1;
      }
    }

    method FreeOne(d: nat)
      requires Valid() && Inv(S()) && 2 <= d < ENTRIES
      modifies memMap, pgDir, frames
      ensures Valid() && S() == FreeDir(old(S()), d) && held == old(held)
    {
      if !pgDir[d].present {
        return;
      }
      FreeEntriesOf(d);
      DropTable(d);
    }

    method DropTable(d: nat)
      requires Valid() && Inv(S()) && 2 <= d < ENTRIES && pgDir[d].present
      modifies memMap, pgDir
      ensures Valid() && S() == M.DropTable(old(S()), d)
    {
      TableUsed(S(), d);
      FreePage(pgDir[d].frame);
      pgDir[d] := ZERO;
    }

    static lemma TableUsed(s: Mm, d: nat)
      requires Inv(s) && 2 <= d < ENTRIES && s.dir[d].present
      ensures s.dir[d].frame >= LOW && s.map_[s.dir[d].frame - LOW] > 0
    {
      CountOfUsed(s, Pde(d));
    }

    /** The inner loop of free_page_tables. */
    method FreeEntriesOf(d: nat)
      requires Valid() && Inv(S()) && 2 <= d < ENTRIES && pgDir[d].present
      modifies memMap, frames
      ensures Inv(S()) && S() == FreeEntries(old(S()), d, 0)
    {
      var i := 0;
      while i < ENTRIES
        invariant i <= ENTRIES && Inv(S()) && pgDir[..] == old(pgDir[..])
        invariant FreeEntries(S(), d, i) == FreeEntries(old(S()), d, 0)
      {
        FreeEntryKeeps(S(), d, i);
        FreeOneEntry(d, i);
        i := i + 1;
      }
    }

    method FreeOneEntry(d: nat, i: nat)
      requires Valid() && Inv(S()) && 2 <= d < ENTRIES && i < ENTRIES && pgDir[d].present
      modifies memMap, frames
      ensures Valid() && S() == FreeEntry(old(S()), d, i)
    {
      var page := frames[pgDir[d].frame][i];
      if page.present {
        if page.frame >= LOW { CountOfUsed(S(), Pte(d, i)); }
        FreePage(page.frame);
      }
      SetWord(pgDir[d].frame, i, ZERO);
    }

    /** un_wp_page; false where the C function would end the task. */
    method UnWpPage(d: nat, i: nat) returns (ok: bool)
      requires Valid() && Inv(S()) && 2 <= d < ENTRIES && i < ENTRIES && Entry(S(), d, i).present
      modifies this`held, memMap, frames
      ensures Valid() && (S(), ok) == M.UnWpPage(old(S()), d, i)
    {
      var entry := frames[pgDir[d].frame][i];
      var oldPage := entry.frame;
      if oldPage >= LOW && memMap[oldPage - LOW] == 1 {
        SetWord(pgDir[d].frame, i, entry.(write := true));
        return true;
      }
      StillUsed(S(), d, i);
      var newPage := GetFreePage();
      if newPage == 0 {
        return false;
      }
      if oldPage >= LOW {
        memMap[oldPage - LOW] := memMap[oldPage - LOW] - 1;
      }
      SetWord(pgDir[d].frame, i, Mapped(newPage));
      held := held - {newPage};
      frames[newPage] := frames[oldPage];
      ok := true;
    }

    /** Taking a free page does not touch the count of a page in use. */
    static lemma StillUsed(s: Mm, d: nat, i: nat)
      requires Inv(s) && 2 <= d < ENTRIES && i < ENTRIES && Entry(s, d, i).present
      ensures Entry(s, d, i).frame >= LOW ==> M.GetFreePage(s).0.map_[Entry(s, d, i).frame - LOW] > 0
    {
      GetFreePageKeeps(s);
      if Entry(s, d, i).frame >= LOW { CountOfUsed(M.GetFreePage(s).0, Pte(d, i)); }
    }

    /** write_verify: a present, protected page is made writable; false where the task would end. */
    method WriteVerify(d: nat, i: nat) returns (ok: bool)
      requires Valid() && Inv(S()) && 2 <= d < ENTRIES && i < ENTRIES
      modifies this`held, memMap, frames
      ensures Valid() && Inv(S()) && (Entry(S(), d, i).present <==> Entry(old(S()), d, i).present)
      ensures ok && Entry(S(), d, i).present ==> CanWrite(S(), d, i) && View(S(), d, i) == View(old(S()), d, i)
      ensures forall e, j {:trigger View(S(), e, j)} :: 2 <= e < ENTRIES && 0 <= j < ENTRIES && (e != d || j != i) ==>
        View(S(), e, j) == View(old(S()), e, j)
      ensures !ok ==> S() == old(S())
    {
      ok := true;
      if !pgDir[d].present {
        return;
      }
      var entry := frames[pgDir[d].frame][i];
      if entry.present && !entry.write {
        ghost var before := S();
        UnWpPageKeeps(before, d, i);
        ok := UnWpPage(d, i);
        forall e, j {:trigger View(S(), e, j)} | 2 <= e < ENTRIES && 0 <= j < ENTRIES && (e != d || j != i)
          ensures View(S(), e, j) == View(before, e, j)
        {
          assert ok ==> Entry(S(), e, j) == Entry(before, e, j);
        }
      }
    }

    /** put_page; false where it returns 0. */
    method PutPage(page: Frame, d: nat, i: nat) returns (ok: bool)
      requires Valid() && d < ENTRIES && i < ENTRIES
      modifies this`held, memMap, pgDir, frames
      ensures Valid() && (S(), ok) == M.PutPage(old(S()), d, i, page)
    {
      if !pgDir[d].present {
        var table := GetFreePage();
        if table == 0 {
          return false;
        }
        pgDir[d] := Mapped(table);
        held := held - {table};
      }
      SetWord(pgDir[d].frame, i, Mapped(page));
      held := held - {page};
      ok := true;
    }

    /** do_no_page; false where the task would end. */
    method DoNoPage(d: nat, i: nat) returns (ok: bool)
      requires Valid() && d < ENTRIES && i < ENTRIES
      modifies this`held, memMap, pgDir, frames
      ensures Valid() && (S(), ok) == NoPage(old(S()), d, i)
    {
      var page := GetFreePage();
      if page == 0 {
        return false;
      }
      ok := PutPage(page, d, i);
    }

    /** copy_mem of a fork: when sharing the parent's tables fails, those of the child are freed again. */
    method CopyMem(parent: nat, child: nat, n: nat) returns (ok: bool)
      requires Valid() && Runs.Ok(S()) && Runs.ForkArgs(parent, child, n) && Runs.Empty(S(), child)
      modifies this`held, memMap, pgDir, frames
      ensures Valid() && Runs.Ok(S()) && (S(), ok) == Runs.CopyMem(old(S()), parent, child, n)
    {
      ghost var s := S();
      var from, to, nr := Runs.SPAN * parent, Runs.SPAN * child, Runs.CopyCount(parent);
      CopyTablesKeeps(s, from, to, 0, n, nr);
      ok := CopyPageTables(from, to, n, nr);
      if !ok {
        FreePageTables(to, n);
      }
      Runs.ForkKeeps(s, parent, child, n);
    }
  }
}
