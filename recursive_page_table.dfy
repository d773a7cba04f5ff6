/**
 * The page table of the demand-paging kernel with virtual-memory pools: a
 * two-level x86 table whose last directory slot maps the directory onto
 * itself, so that the fault handler and `free_page` reach the directory and
 * every page table through fixed virtual windows. Page faults are accepted
 * only for addresses that a registered pool claims.
 */
module RecursivePageTable {
  import opened X86Paging
  import opened Frames

  /** The capacity of a page table's pool registry. */
  const MaxVirtualMemoryPools: nat := 10

  /** The identity of a `VMPool` object. */
  type PoolId = nat

  /**
   * Directory `dir` names, in every slot below the recursive one that is
   * present, a page table that is in memory and is not the directory itself.
   */
  ghost predicate TablesBelowWindow(frames: map<nat, seq<Word>>, dir: nat)
    requires WellFormed(frames) && dir in frames
  {
    forall i :: 0 <= i < EntriesPerTable - 1 && IsPresent(frames[dir][i]) ==>
      EntryFrame(frames[dir][i]) in frames && EntryFrame(frames[dir][i]) != dir
  }

  /** A page table whose every entry is `0 | PAGE_LEVEL_USER`: user pages, none present. */
  function UserTable(): (table: seq<Word>)
    ensures |table| == EntriesPerTable
    ensures forall j :: 0 <= j < EntriesPerTable ==> !IsPresent(table[j]) && IsUser(table[j])
  {
    ConstantEntries();
    seq(EntriesPerTable, _ => PageLevelUser)
  }

  /**
   * Memory after the absent branch of `handle_fault`: slot `pd` of `dir`
   * names the new table `t`, whose entries are all user-but-absent except
   * word `ti`, which names frame `f`; `f` arrives holding `g`.
   */
  function NewTableUpdate(frames: map<nat, seq<Word>>, dir: nat, pd: nat, ti: nat, t: nat, f: nat, g: seq<Word>)
    : map<nat, seq<Word>>
    requires WellFormed(frames) && dir in frames && pd < EntriesPerTable && ti < EntriesPerTable
    requires t < FrameLimit && f < FrameLimit
  {
    frames[dir := Put(frames[dir], pd, MakeEntry(t, 3))][t := Put(UserTable(), ti, MakeEntry(f, 3))][f := g]
  }

  /**
   * A table just installed in an absent slot `pd` and filled with
   * user-but-absent entries maps nothing yet: every address of its 4 MiB
   * region is unmapped, and the recursive slot and the tables below the
   * window are kept.
   */
  lemma InstalledTableEmpty(frames: map<nat, seq<Word>>, dir: nat, pd: nat, t: nat)
    requires WellFormed(frames) && dir in frames && SelfMapped(frames, dir) && TablesBelowWindow(frames, dir)
    requires pd < EntriesPerTable && !IsPresent(frames[dir][pd])
    requires t !in frames && t < FrameLimit
    ensures var mid := frames[dir := Put(frames[dir], pd, MakeEntry(t, 3))][t := UserTable()];
      && WellFormed(mid) && dir in mid && SelfMapped(mid, dir) && TablesBelowWindow(mid, dir)
      && IsPresent(mid[dir][pd]) && EntryFrame(mid[dir][pd]) == t
      && forall w :: DirectoryIndex(w) == pd ==> Translate(mid, dir, w) == None
  {
    PresentWritableEntry(dir);
    PresentWritableEntry(t);
    var mid := frames[dir := Put(frames[dir], pd, MakeEntry(t, 3))][t := UserTable()];
    assert mid[dir][EntriesPerTable - 1] == frames[dir][EntriesPerTable - 1];
    forall w | DirectoryIndex(w) == pd
      ensures Translate(mid, dir, w) == None
    {
      AddressSplit(w);
    }
  }

  /** Installing the table and then writing its entry, as the existing-table path does, is `NewTableUpdate`. */
  lemma NewTableIsTwoUpdates(frames: map<nat, seq<Word>>, dir: nat, pd: nat, ti: nat, t: nat, f: nat, g: seq<Word>)
    requires WellFormed(frames) && dir in frames && pd < EntriesPerTable && ti < EntriesPerTable
    requires t !in frames && f !in frames && t != f && t < FrameLimit && f < FrameLimit
    ensures var mid := frames[dir := Put(frames[dir], pd, MakeEntry(t, 3))][t := UserTable()];
      WellFormed(mid) && t in mid &&
      ExistingTableUpdate(mid, t, ti, f, g) == NewTableUpdate(frames, dir, pd, ti, t, f, g)
  {
  }

  /** A frame that no directory slot names enters memory without changing any translation. */
  lemma InstallKeepsTranslation(frames: map<nat, seq<Word>>, dir: nat, f: nat, g: seq<Word>)
    requires WellFormed(frames) && dir in frames && SelfMapped(frames, dir) && TablesBelowWindow(frames, dir)
    requires f !in frames && f < FrameLimit && |g| == EntriesPerTable
    ensures WellFormed(frames[f := g]) && SelfMapped(frames[f := g], dir) && TablesBelowWindow(frames[f := g], dir)
    ensures forall w :: Translate(frames[f := g], dir, w) == Translate(frames, dir, w)
  {
    PresentWritableEntry(dir);
    forall w
      ensures Translate(frames[f := g], dir, w) == Translate(frames, dir, w)
    {
      AddressSplit(w);
    }
  }

  /**
   * The present branch of `handle_fault` resolves the fault: the faulting
   * address `v` now maps to the new frame, the directory keeps its
   * recursive slot, and no address whose walk does not read the rewritten
   * entry changes its translation.
   */
  lemma ExistingTableResolves(frames: map<nat, seq<Word>>, dir: nat, v: Word, f: nat, g: seq<Word>)
    requires WellFormed(frames) && dir in frames && SelfMapped(frames, dir) && TablesBelowWindow(frames, dir)
    requires IsPresent(frames[dir][DirectoryIndex(v)]) && Translate(frames, dir, v) == None
    requires f !in frames && f < FrameLimit && |g| == EntriesPerTable
    ensures EntryFrame(frames[dir][DirectoryIndex(v)]) in frames
    ensures var after := ExistingTableUpdate(frames, EntryFrame(frames[dir][DirectoryIndex(v)]), TableIndex(v), f, g);
      && WellFormed(after) && dir in after && SelfMapped(after, dir) && TablesBelowWindow(after, dir)
      && Translate(after, dir, v) == Some(f)
      && forall w :: !ReadsEntry(frames, dir, w, EntryFrame(frames[dir][DirectoryIndex(v)]), TableIndex(v)) ==>
           Translate(after, dir, w) == Translate(frames, dir, w)
  {
    AddressSplit(v);
    PresentWritableEntry(dir);
    PresentWritableEntry(f);
    var pd, ti := DirectoryIndex(v), TableIndex(v);
    var t := EntryFrame(frames[dir][pd]);
    InstallKeepsTranslation(frames, dir, f, g);
    var grown := frames[f := g];
    WriteKeepsOtherTranslations(grown, dir, t, ti, MakeEntry(f, 3));
    var after := grown[t := Put(grown[t], ti, MakeEntry(f, 3))];
    assert after == ExistingTableUpdate(frames, t, ti, f, g);
    forall w | !ReadsEntry(frames, dir, w, t, ti)
      ensures Translate(after, dir, w) == Translate(frames, dir, w)
    {
      AddressSplit(w);
      assert !ReadsEntry(grown, dir, w, t, ti);
    }
  }

  /**
   * The absent branch of `handle_fault` resolves the fault: the faulting
   * address `v` now maps to frame `f`, and the directory keeps its
   * recursive slot.
   */
  lemma NewTableResolves(frames: map<nat, seq<Word>>, dir: nat, v: Word, t: nat, f: nat, g: seq<Word>)
    requires WellFormed(frames) && dir in frames && SelfMapped(frames, dir) && TablesBelowWindow(frames, dir)
    requires !IsPresent(frames[dir][DirectoryIndex(v)])
    requires t !in frames && f !in frames && t != f && t < FrameLimit && f < FrameLimit && |g| == EntriesPerTable
    ensures var after := NewTableUpdate(frames, dir, DirectoryIndex(v), TableIndex(v), t, f, g);
      && WellFormed(after) && dir in after && SelfMapped(after, dir) && TablesBelowWindow(after, dir)
      && Translate(after, dir, v) == Some(f)
  {
    AddressSplit(v);
    PresentWritableEntry(dir);
    PresentWritableEntry(t);
    PresentWritableEntry(f);
    var after := NewTableUpdate(frames, dir, DirectoryIndex(v), TableIndex(v), t, f, g);
    assert after[dir] == Put(frames[dir], DirectoryIndex(v), MakeEntry(t, 3));
  }

  /**
   * The absent branch maps nothing else: every other page under the new
   * table is absent, and addresses outside directory slot `pd` keep their
   * translation, except the window entry that shows the new table.
   */
  lemma NewTableMapsOnlyFault(frames: map<nat, seq<Word>>, dir: nat, v: Word, t: nat, f: nat, g: seq<Word>)
    requires WellFormed(frames) && dir in frames && SelfMapped(frames, dir) && TablesBelowWindow(frames, dir)
    requires !IsPresent(frames[dir][DirectoryIndex(v)])
    requires t !in frames && f !in frames && t != f && t < FrameLimit && f < FrameLimit && |g| == EntriesPerTable
    ensures var after := NewTableUpdate(frames, dir, DirectoryIndex(v), TableIndex(v), t, f, g);
      && WellFormed(after) && dir in after
      && (forall w :: DirectoryIndex(w) == DirectoryIndex(v) && TableIndex(w) != TableIndex(v) ==>
            Translate(after, dir, w) == None)
      && forall w :: DirectoryIndex(w) != DirectoryIndex(v) &&
                     !(DirectoryIndex(w) == EntriesPerTable - 1 && TableIndex(w) == DirectoryIndex(v)) ==>
           Translate(after, dir, w) == Translate(frames, dir, w)
  {
    AddressSplit(v);
    PresentWritableEntry(dir);
    PresentWritableEntry(t);
    var pd, ti := DirectoryIndex(v), TableIndex(v);
    var after := NewTableUpdate(frames, dir, pd, ti, t, f, g);
    var table := Put(UserTable(), ti, MakeEntry(f, 3));
    assert after[dir] == Put(frames[dir], pd, MakeEntry(t, 3));
    assert after[t] == table;
    forall w | DirectoryIndex(w) == pd && TableIndex(w) != ti
      ensures Translate(after, dir, w) == None
    {
      AddressSplit(w);
      assert table[TableIndex(w)] == PageLevelUser;
    }
    forall w | DirectoryIndex(w) != pd && !(DirectoryIndex(w) == EntriesPerTable - 1 && TableIndex(w) == pd)
      ensures Translate(after, dir, w) == Translate(frames, dir, w)
    {
      AddressSplit(w);
    }
  }

  /**
   * `free_page` unmaps the page: its address no longer translates, the
   * directory keeps its recursive slot, and no address whose walk does not
   * read the cleared entry changes its translation.
   */
  lemma FreedPageUnmapped(frames: map<nat, seq<Word>>, dir: nat, v: Word)
    requires WellFormed(frames) && dir in frames && SelfMapped(frames, dir) && TablesBelowWindow(frames, dir)
    requires DirectoryIndex(v) < EntriesPerTable - 1 && IsPresent(frames[dir][DirectoryIndex(v)])
    ensures EntryFrame(frames[dir][DirectoryIndex(v)]) in frames
    ensures var t := EntryFrame(frames[dir][DirectoryIndex(v)]);
      var after := frames[t := Put(frames[t], TableIndex(v), PageWrite)];
      && WellFormed(after) && dir in after && SelfMapped(after, dir) && TablesBelowWindow(after, dir)
      && Translate(after, dir, v) == None
      && forall w :: !ReadsEntry(frames, dir, w, t, TableIndex(v)) ==> Translate(after, dir, w) == Translate(frames, dir, w)
  {
    AddressSplit(v);
    ConstantEntries();
    var t := EntryFrame(frames[dir][DirectoryIndex(v)]);
    WriteKeepsOtherTranslations(frames, dir, t, TableIndex(v), PageWrite);
  }

  /**
   * A table the fault handler creates holds, for every page of its 4 MiB
   * other than the faulting one, the entry `0 | PAGE_LEVEL_USER`: absent,
   * and naming frame 0.
   */
  lemma UntouchedPageNamesFrameZero(frames: map<nat, seq<Word>>, dir: nat, pd: nat, ti: nat, t: nat, f: nat, g: seq<Word>, tj: nat)
    requires WellFormed(frames) && dir in frames && pd < EntriesPerTable && ti < EntriesPerTable
    requires t < FrameLimit && f < FrameLimit && t != f
    requires tj < EntriesPerTable && tj != ti
    ensures var after := NewTableUpdate(frames, dir, pd, ti, t, f, g);
      && t in after && |after[t]| == EntriesPerTable
      && after[t][tj] == PageLevelUser
      && !IsPresent(after[t][tj]) && EntryFrame(after[t][tj]) == 0
  {
    ConstantEntries();
  }

  /**
   * The directory half of the constructor: slot 0 names `table`, slots 1 to
   * n-2 are writable but absent, and slot n-1 maps `directory` onto itself.
   */
  method BuildDirectory(mem: Memory, directory: nat, table: nat, n: nat)
    requires mem.Valid() && directory in mem.frames && table < FrameLimit && 1 <= n <= EntriesPerTable
    modifies mem
    ensures mem.Valid() && directory in mem.frames
    ensures mem.frames == old(mem.frames)[directory := mem.frames[directory]]
    ensures n >= 2 ==> mem.frames[directory][0] == MakeEntry(table, 3)
    ensures forall i :: 1 <= i < n - 1 ==> mem.frames[directory][i] == PageWrite
    ensures mem.frames[directory][n - 1] == MakeEntry(directory, 3)
    ensures forall j :: n <= j < EntriesPerTable ==> mem.frames[directory][j] == old(mem.frames[directory][j])
  {
    mem.Write(directory, 0, MakeEntry(table, PageWrite + PagePresent));
    MarkAbsent(mem, directory, n);
    mem.Write(directory, n - 1, MakeEntry(directory, PageWrite + PagePresent));
  }

  /** The process-wide state of the paging system: the statics of `PageTable` and physical memory. */
  class PagingSystem {
    var currentPageTable: PageTable?
    var pagingEnabled: nat
    var kernelMemPool: FramePool?
    var processMemPool: FramePool?
    var sharedSize: Word
    const memory: Memory

    ghost predicate Valid()
      reads this, memory, kernelMemPool, processMemPool
    {
      kernelMemPool != null && processMemPool != null && Consistent(memory, kernelMemPool, processMemPool)
    }

    /** The static initialisers: nothing is current, paging is off, no pools are known. */
    constructor ()
      ensures currentPageTable == null && pagingEnabled == 0
      ensures kernelMemPool == null && processMemPool == null && sharedSize == 0
      ensures fresh(memory) && memory.Valid() && memory.frames == map[]
    {
      currentPageTable, pagingEnabled := null, 0;
      kernelMemPool, processMemPool, sharedSize := null, null, 0;
      memory := new Memory();
    }

    /** `init_paging`: records the two pools and the size of the shared region. */
    method InitPaging(kernel: FramePool, process: FramePool, shared: Word)
      requires Consistent(memory, kernel, process)
      modifies this`kernelMemPool, this`processMemPool, this`sharedSize
      ensures kernelMemPool == kernel && processMemPool == process && sharedSize == shared
      ensures Valid()
    {
      kernelMemPool := kernel;
      processMemPool := process;
      sharedSize := shared;
    }

    /** `enable_paging`: sets the paging flag. */
    method EnablePaging()
      modifies this`pagingEnabled
      ensures pagingEnabled == 1
    {
      pagingEnabled := 1;
    }

    /** The loaded page table is intact: its registry, directory and recursive slot. */
    ghost predicate CurrentValid()
      reads this, memory, kernelMemPool, processMemPool
      reads currentPageTable, if currentPageTable == null then null else currentPageTable.registeredVmPool
    {
      Valid() && currentPageTable != null && currentPageTable.Valid(this)
    }

    /**
     * `handle_fault`. A fault whose error code has bit 0 set is left alone.
     * Otherwise the fault must lie in a registered pool, or the kernel halts
     * before touching any table. If the faulting directory slot is present,
     * the page table reached through its window gets a new frame at the
     * faulting index; if not, a new frame becomes that page table, all its
     * entries become user-but-absent, and then the faulting index gets a
     * second new frame. `taken` lists the frames drawn from the process pool.
     */
    method HandleFault(errCode: Word, faultAddress: Word, isLegitimate: (PoolId, Word) -> bool)
      returns (halted: bool, ghost taken: seq<nat>)
      requires CurrentValid()
      requires processMemPool.Available() >= 2
      // The processor reports a not-present fault only for an address whose walk hits an absent entry.
      requires errCode % 2 == 0 ==> Translate(memory.frames, currentPageTable.pageDirectory, faultAddress) == None
      modifies memory, processMemPool
      ensures CurrentValid()
      ensures halted <==> errCode % 2 == 0 && !currentPageTable.Claims(faultAddress, isLegitimate)
      ensures processMemPool.handedOut == old(processMemPool.handedOut) + taken
      ensures processMemPool.released == old(processMemPool.released)
      ensures forall i :: 0 <= i < |taken| ==> taken[i] !in old(memory.frames) && taken[i] in memory.frames
      ensures errCode % 2 == 1 || halted ==> taken == [] && memory.frames == old(memory.frames)
      ensures errCode % 2 == 0 && !halted ==>
        var dir, pd, ti := currentPageTable.pageDirectory, DirectoryIndex(faultAddress), TableIndex(faultAddress);
        && pd < EntriesPerTable && ti < EntriesPerTable && |taken| >= 1
        && Translate(memory.frames, dir, faultAddress) == Some(taken[|taken| - 1])
        && (old(IsPresent(memory.frames[dir][pd])) ==>
              var t := old(EntryFrame(memory.frames[dir][pd]));
              && |taken| == 1 && t in old(memory.frames)
              && memory.frames == ExistingTableUpdate(old(memory.frames), t, ti, taken[0], memory.frames[taken[0]]))
        && (!old(IsPresent(memory.frames[dir][pd])) ==>
              && |taken| == 2
              && memory.frames == NewTableUpdate(old(memory.frames), dir, pd, ti, taken[0], taken[1], memory.frames[taken[1]]))
    {
      halted, taken := false, [];
      var pageDirectAddr := faultAddress / 0x40_0000;
      var pageTableAddr := faultAddress / PageSize;
      var currentPageDirectory := DirectoryWindow;
      if errCode % 2 == 0 {
        var poolIndex := currentPageTable.ClaimingPool(faultAddress, isLegitimate);
        if poolIndex < 0 {
          halted := true;
          return;
        }
        AddressSplit(faultAddress);
        var cr3 := currentPageTable.pageDirectory;
        var ti := pageTableAddr % EntriesPerTable;
        RecursiveWindow(memory.frames, cr3, pageDirectAddr, pageDirectAddr);
        if IsPresent(memory.Fetch(cr3, SlotAddress(currentPageDirectory, pageDirectAddr))) {
          var f := MapInExistingTable(cr3, pageDirectAddr, ti, faultAddress);
          taken := [f];
        } else {
          var t, f := MapInNewTable(cr3, pageDirectAddr, ti, faultAddress);
          taken := [t, f];
        }
      }
    }

    /** The present branch of `handle_fault`: frame `f` lands in the page table of slot `pd`. */
    method MapInExistingTable(dir: nat, pd: nat, ti: nat, ghost v: Word) returns (ghost f: nat)
      requires Valid() && dir in memory.frames && SelfMapped(memory.frames, dir) && TablesBelowWindow(memory.frames, dir)
      requires pd == DirectoryIndex(v) && ti == TableIndex(v) && pd < EntriesPerTable && ti < EntriesPerTable
      requires IsPresent(memory.frames[dir][pd]) && Translate(memory.frames, dir, v) == None
      requires processMemPool.Available() >= 1
      modifies memory, processMemPool
      ensures Valid() && dir in memory.frames && SelfMapped(memory.frames, dir) && TablesBelowWindow(memory.frames, dir)
      ensures processMemPool.handedOut == old(processMemPool.handedOut) + [f]
      ensures processMemPool.released == old(processMemPool.released)
      ensures f !in old(memory.frames) && f in memory.frames
      ensures var t := old(EntryFrame(memory.frames[dir][pd]));
        && t in old(memory.frames)
        && memory.frames == ExistingTableUpdate(old(memory.frames), t, ti, f, memory.frames[f])
      ensures Translate(memory.frames, dir, v) == Some(f)
    {
      ghost var before := memory.frames;
      PresentWritableEntry(dir);
      var pageTable := TableWindow(pd);
      var frame := TakeFrame(memory, kernelMemPool, processMemPool, false);
      RecursiveWindow(memory.frames, dir, pd, ti);
      PresentWritableEntry(frame);
      memory.Store(dir, SlotAddress(pageTable, ti), MakeEntry(frame, PageWrite + PagePresent));
      f := frame;
      ExistingTableResolves(before, dir, v, f, memory.frames[f]);
    }

    /** The absent branch of `handle_fault`: a new page table `t` in slot `pd`, then frame `f` in it. */
    method MapInNewTable(dir: nat, pd: nat, ti: nat, ghost v: Word) returns (ghost t: nat, ghost f: nat)
      requires Valid() && dir in memory.frames && SelfMapped(memory.frames, dir) && TablesBelowWindow(memory.frames, dir)
      requires pd == DirectoryIndex(v) && ti == TableIndex(v) && pd < EntriesPerTable && ti < EntriesPerTable
      requires !IsPresent(memory.frames[dir][pd])
      requires processMemPool.Available() >= 2
      modifies memory, processMemPool
      ensures Valid() && dir in memory.frames && SelfMapped(memory.frames, dir) && TablesBelowWindow(memory.frames, dir)
      ensures processMemPool.handedOut == old(processMemPool.handedOut) + [t, f]
      ensures processMemPool.released == old(processMemPool.released)
      ensures t !in old(memory.frames) && f !in old(memory.frames) && t in memory.frames && f in memory.frames
      ensures memory.frames == NewTableUpdate(old(memory.frames), dir, pd, ti, t, f, memory.frames[f])
      ensures Translate(memory.frames, dir, v) == Some(f)
    {
      ghost var before := memory.frames;
      t := InstallWindowTable(dir, pd);
      InstalledTableEmpty(before, dir, pd, t);
      f := MapInExistingTable(dir, pd, ti, v);
      NewTableIsTwoUpdates(before, dir, pd, ti, t, f, memory.frames[f]);
      assert old(processMemPool.handedOut) + [t] + [f] == old(processMemPool.handedOut) + [t, f];
    }

    /**
     * The first half of the missing-table path: a new process frame goes
     * into directory slot `pd`, through the directory window, and is then
     * filled with user-but-absent entries through its own window.
     */
    method InstallWindowTable(dir: nat, pd: nat) returns (ghost t: nat)
      requires Valid() && dir in memory.frames && SelfMapped(memory.frames, dir) && TablesBelowWindow(memory.frames, dir)
      requires pd < EntriesPerTable && !IsPresent(memory.frames[dir][pd])
      requires processMemPool.Available() >= 1
      modifies memory, processMemPool
      ensures Valid() && dir in memory.frames && t < FrameLimit
      ensures processMemPool.handedOut == old(processMemPool.handedOut) + [t]
      ensures processMemPool.released == old(processMemPool.released)
      ensures processMemPool.Available() == old(processMemPool.Available()) - 1
      ensures t !in old(memory.frames)
      ensures memory.frames == old(memory.frames)[dir := Put(old(memory.frames[dir]), pd, MakeEntry(t, 3))][t := UserTable()]
    {
      PresentWritableEntry(dir);
      var tableFrame := TakeFrame(memory, kernelMemPool, processMemPool, false);
      t := tableFrame;
      PresentWritableEntry(tableFrame);
      RecursiveWindow(memory.frames, dir, pd, pd);
      memory.Store(dir, SlotAddress(DirectoryWindow, pd), MakeEntry(tableFrame, PageWrite + PagePresent));
      ClearWindowTable(dir, pd);
    }

    /** The 1024-entry loop of `handle_fault`: every entry of the table of slot `pd` becomes user-but-absent. */
    method ClearWindowTable(dir: nat, pd: nat)
      requires memory.Valid() && dir in memory.frames && SelfMapped(memory.frames, dir)
      requires pd < EntriesPerTable - 1 && IsPresent(memory.frames[dir][pd])
      requires EntryFrame(memory.frames[dir][pd]) in memory.frames && EntryFrame(memory.frames[dir][pd]) != dir
      modifies memory
      ensures memory.Valid()
      ensures memory.frames == old(memory.frames)[old(EntryFrame(memory.frames[dir][pd])) := UserTable()]
    {
      ghost var t := EntryFrame(memory.frames[dir][pd]);
      var pageTable := TableWindow(pd);
      var i := 0;
      while i < EntriesPerTable
        invariant 0 <= i <= EntriesPerTable
        invariant memory.Valid() && t in memory.frames
        invariant memory.frames == old(memory.frames)[t := memory.frames[t]]
        invariant forall j :: 0 <= j < i ==> memory.frames[t][j] == PageLevelUser
      {
        RecursiveWindow(memory.frames, dir, pd, i);
        memory.Store(dir, SlotAddress(pageTable, i), 0 + PageLevelUser);
        i := i + 1;
      }
      assert memory.frames[t] == UserTable();
    }
  }

  class PageTable {
    /** The frame of the page directory. */
    var pageDirectory: nat
    const registeredVmPool: array<Option<PoolId>>
    var registeredVmPoolCount: nat
    /** The frame of the first page table, which maps the shared region. */
    ghost var sharedTable: nat

    /** The registry holds `registeredVmPoolCount` slots in use and the rest empty. */
    ghost predicate RegistryValid()
      reads this, registeredVmPool
    {
      && registeredVmPool.Length == MaxVirtualMemoryPools
      && registeredVmPoolCount <= MaxVirtualMemoryPools
      && forall i :: registeredVmPoolCount <= i < MaxVirtualMemoryPools ==> registeredVmPool[i] == None
    }

    ghost predicate Valid(sys: PagingSystem)
      reads this, registeredVmPool, sys, sys.memory
    {
      && RegistryValid()
      && sys.memory.Valid()
      && pageDirectory in sys.memory.frames
      && SelfMapped(sys.memory.frames, pageDirectory)
      && TablesBelowWindow(sys.memory.frames, pageDirectory)
    }

    /** Registry slot `i` holds a pool that accepts `address`. */
    predicate Accepts(i: nat, address: Word, isLegitimate: (PoolId, Word) -> bool)
      reads this, registeredVmPool
      requires i < registeredVmPool.Length
    {
      registeredVmPool[i].Some? && isLegitimate(registeredVmPool[i].value, address)
    }

    /** Some registered pool accepts `address`. */
    ghost predicate Claims(address: Word, isLegitimate: (PoolId, Word) -> bool)
      reads this, registeredVmPool
    {
      exists i :: 0 <= i < registeredVmPoolCount && i < registeredVmPool.Length && Accepts(i, address, isLegitimate)
    }

    /**
     * The pool scan of `handle_fault`: the first registered slot, in index
     * order, whose pool accepts the address, or -1 when there is none.
     */
    method ClaimingPool(address: Word, isLegitimate: (PoolId, Word) -> bool) returns (poolIndex: int)
      requires registeredVmPoolCount <= registeredVmPool.Length
      ensures -1 <= poolIndex < registeredVmPoolCount
      ensures poolIndex == -1 <==> !Claims(address, isLegitimate)
      ensures poolIndex >= 0 ==> Accepts(poolIndex, address, isLegitimate)
      ensures poolIndex >= 0 ==> forall j :: 0 <= j < poolIndex ==> !Accepts(j, address, isLegitimate)
    {
      poolIndex := -1;
      var i := 0;
      while i < registeredVmPoolCount
        invariant 0 <= i <= registeredVmPoolCount
        invariant forall j :: 0 <= j < i ==> !Accepts(j, address, isLegitimate)
      {
        if registeredVmPool[i] != None && isLegitimate(registeredVmPool[i].value, address) {
          poolIndex := i;
          assert Accepts(i, address, isLegitimate);
          return;
        }
        i := i + 1;
      }
    }

    /**
     * The constructor: a directory frame and a first page-table frame from
     * the process pool; the first table identity-maps the shared region;
     * slot 0 names it, the other shared slots are writable but absent, and
     * the last shared slot maps the directory onto itself; no pool is registered.
     */
    constructor (sys: PagingSystem)
      requires sys.Valid() && sys.processMemPool.Available() >= 2
      requires 1 <= sys.sharedSize / PageSize <= EntriesPerTable
      modifies sys.memory, sys.processMemPool
      ensures sys.Valid() && RegistryValid() && fresh(registeredVmPool)
      ensures sys.processMemPool.handedOut == old(sys.processMemPool.handedOut) + [pageDirectory, sharedTable]
      ensures sys.processMemPool.released == old(sys.processMemPool.released)
      ensures pageDirectory !in old(sys.memory.frames) && sharedTable !in old(sys.memory.frames)
      ensures pageDirectory in sys.memory.frames && sharedTable in sys.memory.frames
      ensures sys.memory.frames == old(sys.memory.frames)[pageDirectory := sys.memory.frames[pageDirectory]]
                                     [sharedTable := sys.memory.frames[sharedTable]]
      ensures forall i :: 0 <= i < sys.sharedSize / PageSize ==> sys.memory.frames[sharedTable][i] == MakeEntry(i, 3)
      ensures sys.sharedSize / PageSize >= 2 ==> sys.memory.frames[pageDirectory][0] == MakeEntry(sharedTable, 3)
      ensures forall i :: 1 <= i < sys.sharedSize / PageSize - 1 ==> sys.memory.frames[pageDirectory][i] == PageWrite
      ensures sys.memory.frames[pageDirectory][sys.sharedSize / PageSize - 1] == MakeEntry(pageDirectory, 3)
      ensures registeredVmPoolCount == 0
      ensures forall i :: 0 <= i < MaxVirtualMemoryPools ==> registeredVmPool[i] == None
      ensures sys.sharedSize / PageSize == EntriesPerTable ==> Valid(sys)
    {
      var directory, table := BuildTables(sys);
      pageDirectory := directory;
      sharedTable := table;
      registeredVmPoolCount := 0;
      registeredVmPool := new Option<PoolId>[MaxVirtualMemoryPools];
      new;
      FillRegistry(registeredVmPool);
      ConstantEntries();
      PresentWritableEntry(table);
    }

    /** The memory half of the constructor: the two frames and their contents. */
    static method BuildTables(sys: PagingSystem) returns (directory: nat, table: nat)
      requires sys.Valid() && sys.processMemPool.Available() >= 2
      requires 1 <= sys.sharedSize / PageSize <= EntriesPerTable
      modifies sys.memory, sys.processMemPool
      ensures sys.Valid()
      ensures sys.processMemPool.handedOut == old(sys.processMemPool.handedOut) + [directory, table]
      ensures sys.processMemPool.released == old(sys.processMemPool.released)
      ensures directory !in old(sys.memory.frames) && table !in old(sys.memory.frames)
      ensures directory in sys.memory.frames && table in sys.memory.frames && directory != table
      ensures sys.memory.frames == old(sys.memory.frames)[directory := sys.memory.frames[directory]]
                                     [table := sys.memory.frames[table]]
      ensures forall i :: 0 <= i < sys.sharedSize / PageSize ==> sys.memory.frames[table][i] == MakeEntry(i, 3)
      ensures sys.sharedSize / PageSize >= 2 ==> sys.memory.frames[directory][0] == MakeEntry(table, 3)
      ensures forall i :: 1 <= i < sys.sharedSize / PageSize - 1 ==> sys.memory.frames[directory][i] == PageWrite
      ensures sys.memory.frames[directory][sys.sharedSize / PageSize - 1] == MakeEntry(directory, 3)
    {
      directory := TakeFrame(sys.memory, sys.kernelMemPool, sys.processMemPool, false);
      table := TakeFrame(sys.memory, sys.kernelMemPool, sys.processMemPool, false);
      var numberOfSharedFrames := sys.sharedSize / PageSize;
      FillIdentityMap(sys.memory, table, numberOfSharedFrames);
      BuildDirectory(sys.memory, directory, table, numberOfSharedFrames);
    }

    /** The constructor's last loop: every registry slot becomes empty. */
    static method FillRegistry(registry: array<Option<PoolId>>)
      modifies registry
      ensures forall i :: 0 <= i < registry.Length ==> registry[i] == None
    {
      var i := 0;
      while i < registry.Length
        invariant 0 <= i <= registry.Length
        invariant forall j :: 0 <= j < i ==> registry[j] == None
      {
        registry[i] := None;
        i := i + 1;
      }
    }

    /** `load`: this table becomes the current one. */
    method Load(sys: PagingSystem)
      modifies sys`currentPageTable
      ensures sys.currentPageTable == this
    {
      sys.currentPageTable := this;
    }

    /**
     * `register_pool`: the pool takes the next free slot of the registry;
     * a full registry is left as it is.
     */
    method RegisterPool(pool: PoolId)
      requires RegistryValid()
      modifies this`registeredVmPoolCount, registeredVmPool
      ensures RegistryValid()
      ensures old(registeredVmPoolCount) < MaxVirtualMemoryPools ==>
        && registeredVmPoolCount == old(registeredVmPoolCount) + 1
        && registeredVmPool[..] == old(registeredVmPool[..])[old(registeredVmPoolCount) := Some(pool)]
      ensures old(registeredVmPoolCount) >= MaxVirtualMemoryPools ==>
        registeredVmPoolCount == old(registeredVmPoolCount) && registeredVmPool[..] == old(registeredVmPool[..])
    {
      if registeredVmPoolCount < MaxVirtualMemoryPools {
        registeredVmPool[registeredVmPoolCount] := Some(pool);
        registeredVmPoolCount := registeredVmPoolCount + 1;
      }
    }

    /**
     * `free_page`: through the window of the loaded table, the frame named
     * by the page's entry goes back to the process pool and the entry
     * becomes writable but absent.
     */
    method FreePage(sys: PagingSystem, pageNo: Word)
      requires sys.CurrentValid()
      requires DirectoryIndex(pageNo) < EntriesPerTable - 1
      requires IsPresent(sys.memory.frames[sys.currentPageTable.pageDirectory][DirectoryIndex(pageNo)])
      modifies sys.memory, sys.processMemPool
      ensures sys.CurrentValid()
      ensures sys.processMemPool.handedOut == old(sys.processMemPool.handedOut)
      ensures
        var dir := sys.currentPageTable.pageDirectory;
        var t := old(EntryFrame(sys.memory.frames[dir][DirectoryIndex(pageNo)]));
        var ti := TableIndex(pageNo);
        && t in old(sys.memory.frames) && ti < EntriesPerTable
        && sys.processMemPool.released == old(sys.processMemPool.released) + [old(EntryFrame(sys.memory.frames[t][ti]))]
        && sys.memory.frames == old(sys.memory.frames)[t := Put(old(sys.memory.frames[t]), ti, PageWrite)]
        && Translate(sys.memory.frames, dir, pageNo) == None
    {
      var pageDirectAddr := pageNo / 0x40_0000;
      var pageTableAddr := pageNo / PageSize;
      AddressSplit(pageNo);
      var pageTable := TableWindow(pageDirectAddr);
      var cr3 := sys.currentPageTable.pageDirectory;
      var ti := pageTableAddr % EntriesPerTable;
      RecursiveWindow(sys.memory.frames, cr3, pageDirectAddr, ti);
      FreedPageUnmapped(sys.memory.frames, cr3, pageNo);
      var frameNumber := sys.memory.Fetch(cr3, SlotAddress(pageTable, ti)) / PageSize;
      sys.processMemPool.ReleaseFrame(frameNumber);
      sys.memory.Store(cr3, SlotAddress(pageTable, ti), 0 + PageWrite);
    }

    /**
     * `free_page` releasing the frame only when the page is mapped: a page
     * that was never touched gives nothing back to the process pool.
     */
    method FreeMappedPage(sys: PagingSystem, pageNo: Word)
      requires sys.CurrentValid()
      requires DirectoryIndex(pageNo) < EntriesPerTable - 1
      requires IsPresent(sys.memory.frames[sys.currentPageTable.pageDirectory][DirectoryIndex(pageNo)])
      modifies sys.memory, sys.processMemPool
      ensures sys.CurrentValid()
      ensures sys.processMemPool.handedOut == old(sys.processMemPool.handedOut)
      ensures
        var dir := sys.currentPageTable.pageDirectory;
        var t := old(EntryFrame(sys.memory.frames[dir][DirectoryIndex(pageNo)]));
        var ti := TableIndex(pageNo);
        && t in old(sys.memory.frames) && ti < EntriesPerTable
        && sys.processMemPool.released == old(sys.processMemPool.released) +
             (if old(IsPresent(sys.memory.frames[t][ti])) then [old(EntryFrame(sys.memory.frames[t][ti]))] else [])
        && sys.memory.frames == old(sys.memory.frames)[t := Put(old(sys.memory.frames[t]), ti, PageWrite)]
        && Translate(sys.memory.frames, dir, pageNo) == None
    {
      var pageDirectAddr := pageNo / 0x40_0000;
      var pageTableAddr := pageNo / PageSize;
      AddressSplit(pageNo);
      var pageTable := TableWindow(pageDirectAddr);
      var cr3 := sys.currentPageTable.pageDirectory;
      var ti := pageTableAddr % EntriesPerTable;
      RecursiveWindow(sys.memory.frames, cr3, pageDirectAddr, ti);
      FreedPageUnmapped(sys.memory.frames, cr3, pageNo);
      var entry := sys.memory.Fetch(cr3, SlotAddress(pageTable, ti));
      if IsPresent(entry) {
        sys.processMemPool.ReleaseFrame(entry / PageSize);
      }
      sys.memory.Store(cr3, SlotAddress(pageTable, ti), 0 + PageWrite);
    }
  }
}
