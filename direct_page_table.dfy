/**
 * The earlier page table of the kernel: a two-level x86 table kept in
 * kernel frames. The code dereferences the frames' physical addresses as
 * pointers, which reaches them once paging is on only because kernel
 * frames lie in the identity-mapped shared region; the model accesses
 * them physically. The fault handler only serves faults whose page table
 * already exists.
 */
module DirectPageTable {
  import opened X86Paging
  import opened Frames

  /** Every present slot of directory `dir` names a page table that is in memory. */
  ghost predicate TablesInMemory(frames: map<nat, seq<Word>>, dir: nat)
    requires WellFormed(frames) && dir in frames
  {
    forall i :: 0 <= i < EntriesPerTable && IsPresent(frames[dir][i]) ==> EntryFrame(frames[dir][i]) in frames
  }

  /**
   * Serving a fault in an existing page table resolves it: the faulting
   * address `v` now maps to the new frame `f`, every present directory slot
   * still names a table in memory, and no address whose walk does not read
   * the rewritten entry changes its translation.
   */
  lemma DirectFaultResolves(frames: map<nat, seq<Word>>, dir: nat, v: Word, f: nat, g: seq<Word>)
    requires WellFormed(frames) && dir in frames && TablesInMemory(frames, dir)
    requires IsPresent(frames[dir][DirectoryIndex(v)]) && Translate(frames, dir, v) == None
    requires f !in frames && f < FrameLimit && |g| == EntriesPerTable
    ensures EntryFrame(frames[dir][DirectoryIndex(v)]) in frames
    ensures var after := ExistingTableUpdate(frames, EntryFrame(frames[dir][DirectoryIndex(v)]), TableIndex(v), f, g);
      && WellFormed(after) && dir in after && TablesInMemory(after, dir)
      && Translate(after, dir, v) == Some(f)
      && forall w :: !ReadsEntry(frames, dir, w, EntryFrame(frames[dir][DirectoryIndex(v)]), TableIndex(v)) ==>
           Translate(after, dir, w) == Translate(frames, dir, w)
  {
    AddressSplit(v);
    PresentWritableEntry(f);
    var pd, ti := DirectoryIndex(v), TableIndex(v);
    var t := EntryFrame(frames[dir][pd]);
    var grown := frames[f := g];
    forall w
      ensures Translate(grown, dir, w) == Translate(frames, dir, w)
    {
      AddressSplit(w);
    }
    WriteKeepsOtherTranslations(grown, dir, t, ti, MakeEntry(f, 3));
    var after := ExistingTableUpdate(frames, t, ti, f, g);
    assert after == grown[t := Put(grown[t], ti, MakeEntry(f, 3))];
    assert t == dir ==> ti != pd;
    assert after[dir][pd] == frames[dir][pd];
    forall w | !ReadsEntry(frames, dir, w, t, ti)
      ensures Translate(after, dir, w) == Translate(frames, dir, w)
    {
      AddressSplit(w);
      assert !ReadsEntry(grown, dir, w, t, ti);
    }
  }

  /** The process-wide state of the paging system: the statics of `PageTable` and physical memory. */
  class PagingSystem {
    var currentPageTable: PageTable?
    var pagingEnabled: nat
    var kernelMemPool: FramePool?
    var processMemPool: FramePool?
    var sharedSize: Word
    const memory: Memory

    ghost predicate Valid()
      reads this, memory, kernelMemPool, processMemPool
    {
      kernelMemPool != null && processMemPool != null && Consistent(memory, kernelMemPool, processMemPool)
    }

    /** The static initialisers: nothing is current, paging is off, no pools are known. */
    constructor ()
      ensures currentPageTable == null && pagingEnabled == 0
      ensures kernelMemPool == null && processMemPool == null && sharedSize == 0
      ensures fresh(memory) && memory.Valid() && memory.frames == map[]
    {
      currentPageTable, pagingEnabled := null, 0;
      kernelMemPool, processMemPool, sharedSize := null, null, 0;
      memory := new Memory();
    }

    /** `init_paging`: records the two pools and the size of the shared region, and nothing else. */
    method InitPaging(kernel: FramePool, process: FramePool, shared: Word)
      requires Consistent(memory, kernel, process)
      modifies this`kernelMemPool, this`processMemPool, this`sharedSize
      ensures kernelMemPool == kernel && processMemPool == process && sharedSize == shared
      ensures Valid()
    {
      kernelMemPool := kernel;
      processMemPool := process;
      sharedSize := shared;
    }

    /** `enable_paging`: sets the paging flag. */
    method EnablePaging()
      modifies this`pagingEnabled
      ensures pagingEnabled == 1
    {
      pagingEnabled := 1;
    }

    /** The loaded page table is intact. */
    ghost predicate CurrentValid()
      reads this, memory, kernelMemPool, processMemPool, currentPageTable
    {
      Valid() && currentPageTable != null && currentPageTable.Valid(this)
    }

    /**
     * `handle_fault`. A fault whose error code has bit 0 set is left alone.
     * Otherwise, if the faulting directory slot is present, the page table
     * found at the physical address in that slot gets a new frame from the
     * process pool at the faulting index; if the slot is absent, nothing
     * happens and the fault stays unresolved. `taken` lists the frames drawn.
     */
    method HandleFault(errCode: Word, faultAddress: Word) returns (ghost taken: seq<nat>)
      requires CurrentValid()
      requires processMemPool.Available() >= 1
      // The processor reports a not-present fault only for an address whose walk hits an absent entry.
      requires errCode % 2 == 0 ==> Translate(memory.frames, currentPageTable.pageDirectory, faultAddress) == None
      modifies memory, processMemPool
      ensures CurrentValid()
      ensures processMemPool.handedOut == old(processMemPool.handedOut) + taken
      ensures processMemPool.released == old(processMemPool.released)
      ensures
        var dir, pd, ti := currentPageTable.pageDirectory, DirectoryIndex(faultAddress), TableIndex(faultAddress);
        && pd < EntriesPerTable && ti < EntriesPerTable
        && (errCode % 2 == 1 || !old(IsPresent(memory.frames[dir][pd])) ==>
              taken == [] && memory.frames == old(memory.frames))
        && (errCode % 2 == 0 && old(IsPresent(memory.frames[dir][pd])) ==>
              var t := old(EntryFrame(memory.frames[dir][pd]));
              && |taken| == 1 && taken[0] !in old(memory.frames) && taken[0] in memory.frames && t in old(memory.frames)
              && memory.frames == ExistingTableUpdate(old(memory.frames), t, ti, taken[0], memory.frames[taken[0]])
              && Translate(memory.frames, dir, faultAddress) == Some(taken[0]))
    {
      taken := [];
      var currentPageDirectory := currentPageTable.pageDirectory;
      var pageDirectAddr := faultAddress / 0x40_0000;
      var pageTableAddr := faultAddress / PageSize;
      AddressSplit(faultAddress);
      if errCode % 2 == 0 {
        var pde := memory.frames[currentPageDirectory][pageDirectAddr];
        if IsPresent(pde) {
          ghost var before := memory.frames;
          var pageTable := EntryAddress(pde);
          EntryAddressFrame(pde);
          var frame := TakeFrame(memory, kernelMemPool, processMemPool, false);
          PresentWritableEntry(frame);
          memory.Write(pageTable / PageSize, pageTableAddr % EntriesPerTable, MakeEntry(frame, PageWrite + PagePresent));
          taken := [frame];
          DirectFaultResolves(before, currentPageDirectory, faultAddress, frame, memory.frames[frame]);
        }
      }
    }
  }

  class PageTable {
    /** The frame of the page directory. */
    var pageDirectory: nat
    /** The frame of the first page table, which maps the shared region. */
    ghost var sharedTable: nat

    ghost predicate Valid(sys: PagingSystem)
      reads this, sys, sys.memory
    {
      && sys.memory.Valid()
      && pageDirectory in sys.memory.frames
      && TablesInMemory(sys.memory.frames, pageDirectory)
    }

    /**
     * The constructor: a directory frame and a first page-table frame from
     * the kernel pool; the first table identity-maps the shared region;
     * slot 0 names it and the other shared slots are writable but absent.
     */
    constructor (sys: PagingSystem)
      requires sys.Valid() && sys.kernelMemPool.Available() >= 2
      requires 1 <= sys.sharedSize / PageSize <= EntriesPerTable
      modifies sys.memory, sys.kernelMemPool
      ensures sys.Valid()
      ensures sys.kernelMemPool.handedOut == old(sys.kernelMemPool.handedOut) + [pageDirectory, sharedTable]
      ensures sys.kernelMemPool.released == old(sys.kernelMemPool.released)
      ensures pageDirectory !in old(sys.memory.frames) && sharedTable !in old(sys.memory.frames)
      ensures pageDirectory in sys.memory.frames && sharedTable in sys.memory.frames
      ensures sys.memory.frames == old(sys.memory.frames)[pageDirectory := sys.memory.frames[pageDirectory]]
                                     [sharedTable := sys.memory.frames[sharedTable]]
      ensures forall i :: 0 <= i < sys.sharedSize / PageSize ==> sys.memory.frames[sharedTable][i] == MakeEntry(i, 3)
      ensures sys.memory.frames[pageDirectory][0] == MakeEntry(sharedTable, 3)
      ensures forall i :: 1 <= i < sys.sharedSize / PageSize ==> sys.memory.frames[pageDirectory][i] == PageWrite
      ensures sys.sharedSize / PageSize == EntriesPerTable ==> Valid(sys)
    {
      var directory, table := BuildTables(sys);
      pageDirectory := directory;
      sharedTable := table;
      new;
      ConstantEntries();
      PresentWritableEntry(table);
    }

    /** The memory half of the constructor: the two kernel frames and their contents. */
    static method BuildTables(sys: PagingSystem) returns (directory: nat, table: nat)
      requires sys.Valid() && sys.kernelMemPool.Available() >= 2
      requires 1 <= sys.sharedSize / PageSize <= EntriesPerTable
      modifies sys.memory, sys.kernelMemPool
      ensures sys.Valid()
      ensures sys.kernelMemPool.handedOut == old(sys.kernelMemPool.handedOut) + [directory, table]
      ensures sys.kernelMemPool.released == old(sys.kernelMemPool.released)
      ensures directory !in old(sys.memory.frames) && table !in old(sys.memory.frames)
      ensures directory in sys.memory.frames && table in sys.memory.frames && directory != table
      ensures sys.memory.frames == old(sys.memory.frames)[directory := sys.memory.frames[directory]]
                                     [table := sys.memory.frames[table]]
      ensures forall i :: 0 <= i < sys.sharedSize / PageSize ==> sys.memory.frames[table][i] == MakeEntry(i, 3)
      ensures sys.memory.frames[directory][0] == MakeEntry(table, 3)
      ensures forall i :: 1 <= i < sys.sharedSize / PageSize ==> sys.memory.frames[directory][i] == PageWrite
    {
      directory := TakeFrame(sys.memory, sys.kernelMemPool, sys.processMemPool, true);
      table := TakeFrame(sys.memory, sys.kernelMemPool, sys.processMemPool, true);
      var numberOfSharedFrames := sys.sharedSize / PageSize;
      FillIdentityMap(sys.memory, table, numberOfSharedFrames);
      sys.memory.Write(directory, 0, MakeEntry(table, PageWrite + PagePresent));
      MarkAbsent(sys.memory, directory, numberOfSharedFrames);
    }

    /** `load`: this table becomes the current one. */
    method Load(sys: PagingSystem)
      modifies sys`currentPageTable
      ensures sys.currentPageTable == this
    {
      sys.currentPageTable := this;
    }
  }
}
