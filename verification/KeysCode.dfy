/** sys_keyset, sys_keyclear, funkcija, encryWithInode and decryWithInode of kernel/sys.c, as they run. */
module KeysCode {
  import opened Bytes
  import opened Zones
  import opened Keys
  import Cipher
  import CryptFiles
  import CipherCode
  import FilesCode

  const EISDIR: int := 21
  const ENOFILE: int := 41
  const EKEYNOTFOUND: int := 42

  class KeyTable {
    const slot: array<int>
    const until: array<int>
    const free: array<bool>
    const key: array<seq<int>>
    var next: int
    var globalKey: seq<int>
    var globalUntil: int

    ghost predicate Valid()
      reads this, slot, until, free, key
    {
      slot != until && Keys.Shape(S())
    }

    ghost function S(): Table
      reads this, slot, until, free, key
    {
      Table(slot[..], until[..], free[..], key[..], next, globalKey, globalUntil)
    }

    constructor ()
      ensures Valid() && S() == Start() && fresh(slot) && fresh(until) && fresh(free) && fresh(key)
    {
      slot := new int[NR_TASKS](i => -1);
      until := new int[SLOTS](s => -1);
      free := new bool[SLOTS](s => true);
      key := new seq<int>[SLOTS](s => []);
      next, globalKey, globalUntil := -1, [], -1;
    }

    /** The search of sys_keyset for a free slot: it keeps the last one it sees. */
    method FindFree() returns (s: int)
      requires Valid()
      ensures s == LastFree(free[..], SLOTS)
    {
      s := -1;
      var j := 0;
      while j < SLOTS
        invariant j <= SLOTS && s == LastFree(free[..], j)
      {
        if free[j] {
          s := j;
        }
        j := j + 1;
      }
    }

    method SysKeyset(mode: int, task: nat, str: seq<int>, now: int) returns (r: int)
      requires Valid() && task < NR_TASKS && Room(S(), mode, task)
      modifies this, slot, until, free, key
      ensures Valid() && (S(), r) == Keys.Set(old(S()), mode, task, str, now)
    {
      if mode != 0 && mode != 1 {
        return -ERANGE;
      }
      if |str| > LONGEST {
        return -ENOTPOWOFTWO;
      }
      if !(|str| != 0 && And(|str|, |str| - 1) == 0) {
        return -ENOTPOWOFTWO;
      }
      r := 0;
      if mode == 0 {
        globalKey, globalUntil := str, now + GLOBAL_SECONDS;
        return;
      }
      var k := slot[task];
      if k != -1 {
        key[k] := str;
        until[k] := now + PROCESS_SECONDS;
      } else {
        var s := FindFree();
        slot[task] := s;
        until[s] := now + PROCESS_SECONDS;
        free[s] := false;
        key[s] := str;
        if next == -1 || next > now + PROCESS_SECONDS {
          next := now + PROCESS_SECONDS;
        }
      }
    }

    method ReleaseSlot(task: nat)
      requires Valid() && task < NR_TASKS && slot[task] != -1
      modifies slot, until, free, key
      ensures Valid() && S() == Release(old(S()), task)
    {
      var s := slot[task];
      until[s] := -1;
      free[s] := true;
      key[s] := [];
      slot[task] := -1;
    }

    method SysKeyclear(mode: int, task: nat) returns (r: int)
      requires Valid() && task < NR_TASKS
      modifies this, slot, until, free, key
      ensures Valid() && (S(), r) == Keys.Clear(old(S()), mode, task)
    {
      if mode != 0 && mode != 1 {
        return -ERANGE;
      }
      r := 0;
      if mode == 0 {
        globalUntil, globalKey := -1, [];
      } else if slot[task] != -1 {
        ReleaseSlot(task);
      }
    }

    /** The body of funkcija's loop. */
    method VisitTask(i: nat, now: int)
      requires Valid() && i < NR_TASKS
      modifies this, slot, until, free, key
      ensures Valid() && S() == Visit(old(S()), i, now)
    {
      if slot[i] != -1 {
        if until[slot[i]] <= now {
          ReleaseSlot(i);
        } else if until[slot[i]] != -1 && (until[slot[i]] < next || next == -1) {
          next := until[slot[i]];
        }
      }
    }

    static lemma SweepStep(k: Table, i: nat, now: int)
      requires Keys.Shape(k) && i < NR_TASKS
      ensures Sweep(k, i, now) == Sweep(Visit(k, i, now), i + 1, now)
    {
    }

    method SweepTasks(now: int)
      requires Valid()
      modifies this, slot, until, free, key
      ensures Valid() && S() == Sweep(old(S()), 0, now)
    {
      var i := 0;
      while i < NR_TASKS
        invariant i <= NR_TASKS && Valid() && Sweep(S(), i, now) == Sweep(old(S()), 0, now)
      {
        SweepStep(S(), i, now);
        VisitTask(i, now);
        i := i + 1;
      }
    }

    /** The work of every timer tick. */
    method Funkcija(now: int)
      requires Valid()
      modifies this, slot, until, free, key
      ensures Valid() && S() == Tick(old(S()), now)
    {
      if globalUntil <= now && globalUntil != -1 {
        globalKey, globalUntil := [], -1;
      }
      if next > now || next == -1 {
        return;
      }
      next := -1;
      SweepTasks(now);
    }
  }

  /** One block through the routine and back. */
  method CryptBytes(crypto: CipherCode.Crypto, x: seq<byte>, key: seq<int>, enc: bool) returns (y: seq<byte>)
    requires |x| == BLOCK && crypto.Valid() && CryptFiles.Divides(key) && |key| <= LONGEST
    modifies crypto.buffer, crypto.keyTmp, crypto.keyIdx
    ensures y == CryptFiles.Crypt(x, key, enc)
  {
    var stringData := new byte[BLOCK](i => 0);
    var data := new byte[BLOCK](i requires 0 <= i < BLOCK => x[i]);
    assert data[..] == x && data[..BLOCK / |key| * |key|] == x;
    if enc {
      crypto.Enkriptuj(data, stringData, key);
    } else {
      crypto.Dekriptuj(data, stringData, key);
    }
    y := stringData[..];
    assert y == stringData[..BLOCK / |key| * |key|];
  }

  /** The loop of encryWithInode and of decryWithInode, which differ in the routine they call on a block. `marked` are
      the blocks whose buffers get b_dirt. */
  method CryptLoop(disk: FilesCode.Disk, crypto: CipherCode.Crypto, n: nat, key: seq<int>, enc: bool, dirty: bool)
    returns (marked: set<nat>)
    requires disk.Valid() && n < disk.inodes.Length && disk.inodes[n].size / BLOCK < MAX_BLOCKS
    requires crypto.Valid() && CryptFiles.Divides(key) && |key| <= LONGEST
    modifies disk.zmap, disk.blocks, disk.inodes, crypto.buffer, crypto.keyTmp, crypto.keyIdx
    ensures disk.Valid() && disk.S() == CryptFiles.CryptFile(old(disk.S()), n, old(disk.inodes[n].size), key, enc)
    ensures marked == if dirty then CryptFiles.Seen(old(disk.S()), n, old(disk.inodes[n].size)) else {}
  {
    var block: int := disk.inodes[n].size;
    ghost var s := disk.S();
    marked := {};
    while block > 0
      invariant disk.Valid() && n < disk.inodes.Length && block / BLOCK < MAX_BLOCKS && crypto.Valid()
      invariant CryptFiles.CryptFile(disk.S(), n, block, key, enc)
        == CryptFiles.CryptFile(s, n, old(disk.inodes[n].size), key, enc)
      invariant CryptFiles.Marked(disk.S(), n, block, dirty, marked)
        == CryptFiles.Marked(s, n, old(disk.inodes[n].size), dirty, {})
    {
      marked := CryptRound(disk, crypto, n, block, key, enc, dirty, marked);
      block := block - BLOCK;
    }
  }

  method CryptRound(disk: FilesCode.Disk, crypto: CipherCode.Crypto, n: nat, block: nat, key: seq<int>, enc: bool,
      dirty: bool, before: set<nat>) returns (marked: set<nat>)
    requires disk.Valid() && n < disk.inodes.Length && 0 < block && block / BLOCK < MAX_BLOCKS
    requires crypto.Valid() && CryptFiles.Divides(key) && |key| <= LONGEST
    modifies disk.zmap, disk.blocks, disk.inodes, crypto.buffer, crypto.keyTmp, crypto.keyIdx
    ensures disk.Valid()
    ensures CryptFiles.CryptFile(disk.S(), n, block - BLOCK, key, enc)
      == CryptFiles.CryptFile(old(disk.S()), n, block, key, enc)
    ensures CryptFiles.Marked(disk.S(), n, block - BLOCK, dirty, marked)
      == CryptFiles.Marked(old(disk.S()), n, block, dirty, before)
  {
    ghost var s := disk.S();
    var nr := disk.BMap(n, block / BLOCK, false);
    BmapReads(s, n, block / BLOCK);
    CryptFiles.StoreTarget(s, nr, CryptFiles.Crypt(Block(s, nr), key, enc));
    var y := CryptBytes(crypto, disk.blocks[nr], key, enc);
    disk.blocks[nr] := y;
    marked := if dirty then before + {nr} else before;
    assert disk.S() == StoreBlock(s, nr, CryptFiles.Crypt(Block(s, nr), key, enc));
    CryptFiles.SeenSame(s, disk.S(), n, block - BLOCK);
  }

  /** What encryWithInode and decryWithInode have done with a key, [] for none, when they return `r`. `n` is -1 for no
      inode. */
  ghost predicate Crypted(r: int, s: Fs, t: Fs, marked: set<nat>, n: int, directory: bool, key: seq<int>, enc: bool,
      dirty: bool)
    requires Zones.Inv(s) && n < |s.inodes| && (n >= 0 ==> s.inodes[n].size / BLOCK < MAX_BLOCKS)
    requires key == [] || CryptFiles.Divides(key)
  {
    if n < 0 then r == -ENOFILE && t == s && marked == {}
    else if directory then r == -EISDIR && t == s && marked == {}
    else if key == [] then r == -EKEYNOTFOUND && t == s && marked == {}
    else
      && r == 0 && t == CryptFiles.CryptFile(s, n, s.inodes[n].size, key, enc)
      && marked == if dirty then CryptFiles.Seen(s, n, s.inodes[n].size) else {}
  }

  /** encryWithInode */
  method EncryWithInode(keys: KeyTable, disk: FilesCode.Disk, crypto: CipherCode.Crypto, n: int, directory: bool,
      task: nat, dirty: bool, ghost now: int) returns (r: int, marked: set<nat>)
    requires keys.Valid() && Keys.Inv(keys.S(), now) && KeysDivide(View(keys.S())) && task < NR_TASKS
    requires disk.Valid() && n < disk.inodes.Length && (n >= 0 ==> disk.inodes[n].size / BLOCK < MAX_BLOCKS)
    requires crypto.Valid()
    modifies disk.zmap, disk.blocks, disk.inodes, crypto.buffer, crypto.keyTmp, crypto.keyIdx
    ensures disk.Valid() && (EncryKey(old(keys.S()), task) == [] || CryptFiles.Divides(EncryKey(old(keys.S()), task)))
    ensures Crypted(r, old(disk.S()), disk.S(), marked, n, directory, EncryKey(old(keys.S()), task), true, dirty)
  {
    KeysUsable(keys.S(), task, now);
    marked := {};
    if n < 0 {
      return -ENOFILE, marked;
    }
    if directory {
      return -EISDIR, marked;
    }
    var keyUsed := keys.globalKey;
    var own := false;
    if keys.slot[task] != -1 {
      keyUsed, own := keys.key[keys.slot[task]], true;
    }
    if keys.globalKey == [] && !own {
      return -EKEYNOTFOUND, marked;
    }
    marked := CryptLoop(disk, crypto, n, keyUsed, true, dirty);
    r := 0;
  }

  /** decryWithInode, for a file marked with `hashedKey`. */
  method DecryWithInode(keys: KeyTable, disk: FilesCode.Disk, crypto: CipherCode.Crypto, n: int, directory: bool,
      task: nat, dirty: bool, hashedKey: int, ghost now: int) returns (r: int, marked: set<nat>)
    requires keys.Valid() && Keys.Inv(keys.S(), now) && KeysDivide(View(keys.S())) && task < NR_TASKS
    requires disk.Valid() && n < disk.inodes.Length && (n >= 0 ==> disk.inodes[n].size / BLOCK < MAX_BLOCKS)
    requires crypto.Valid()
    modifies disk.zmap, disk.blocks, disk.inodes, crypto.buffer, crypto.keyTmp, crypto.keyIdx
    ensures var key := DecryKey(old(keys.S()), task, hashedKey);
      && disk.Valid() && (key == [] || CryptFiles.Divides(key))
      && Crypted(r, old(disk.S()), disk.S(), marked, n, directory, key, false, dirty)
  {
    KeysUsable(keys.S(), task, now);
    marked := {};
    if n < 0 {
      return -ENOFILE, marked;
    }
    if directory {
      return -EISDIR, marked;
    }
    var keyUsed := [];
    if keys.slot[task] != -1 && Hash(keys.key[keys.slot[task]]) == hashedKey {
      keyUsed := keys.key[keys.slot[task]];
    }
    if Hash(keys.globalKey) == hashedKey {
      keyUsed := keys.globalKey;
    }
    if keyUsed == [] {
      return -EKEYNOTFOUND, marked;
    }
    marked := CryptLoop(disk, crypto, n, keyUsed, false, dirty);
    r := 0;
  }

  lemma KeysUsable(k: Table, task: nat, now: int)
    requires Keys.Inv(k, now) && KeysDivide(View(k)) && task < NR_TASKS
    ensures k.globalKey != [] ==> CryptFiles.Divides(k.globalKey) && |k.globalKey| <= LONGEST
    ensures k.slot[task] != -1 ==> CryptFiles.Divides(k.key[k.slot[task]]) && |k.key[k.slot[task]]| <= LONGEST
  {
    AcceptedFits(k.globalKey);
    if Mapped(k, task) {
      assert View(k).tasks[task].Held?;
      AcceptedFits(KeyAt(k, task));
    }
  }
}
