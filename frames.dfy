/**
 * The paging code's view of physical memory and of the contiguous-frame
 * allocator it draws frames from. The allocator is a supplier of fresh,
 * distinct frame numbers from its own range, with a log of what it handed
 * out and of what was given back; a frame the allocator hands out becomes
 * addressable storage of 1024 words, with whatever contents it had.
 */
module Frames {
  import opened X86Paging

  /** A `ContFramePool`, reduced to the single-frame requests the paging code makes. */
  class FramePool {
    const baseFrame: nat
    const nFrames: nat
    var nextFree: nat
    /** Every frame handed out so far, in order. */
    ghost var handedOut: seq<nat>
    /** Every frame given back so far, in order. */
    ghost var released: seq<nat>

    ghost predicate Valid()
      reads this
    {
      && baseFrame + nFrames <= FrameLimit
      && baseFrame <= nextFree <= baseFrame + nFrames
      && |handedOut| == nextFree - baseFrame
      && (forall i :: 0 <= i < |handedOut| ==> handedOut[i] == baseFrame + i)
    }

    /** Whether frame `f` has been handed out by this pool. */
    ghost predicate HandedOut(f: nat)
      reads this
    {
      baseFrame <= f < nextFree
    }

    /** How many more frames the pool can hand out. */
    function Available(): int
      reads this
    {
      baseFrame + nFrames - nextFree
    }

    constructor (base: nat, n: nat)
      requires base + n <= FrameLimit
      ensures Valid() && baseFrame == base && nFrames == n
      ensures handedOut == [] && released == []
    {
      baseFrame, nFrames := base, n;
      nextFree := base;
      handedOut, released := [], [];
    }

    /** `get_frames(1)`: a frame not handed out before, from this pool's range. */
    method GetFrame() returns (f: nat)
      requires Valid() && Available() > 0
      modifies this
      ensures Valid()
      ensures handedOut == old(handedOut) + [f] && released == old(released)
      ensures f !in old(handedOut) && !old(HandedOut(f)) && baseFrame <= f < baseFrame + nFrames
      ensures Available() == old(Available()) - 1
      ensures forall g :: HandedOut(g) <==> old(HandedOut(g)) || g == f
    {
      f := nextFree;
      nextFree := nextFree + 1;
      handedOut := handedOut + [f];
    }

    /** `release_frames(f)`: the frame is logged as given back. */
    method ReleaseFrame(f: nat)
      modifies this
      ensures released == old(released) + [f]
      ensures handedOut == old(handedOut) && nextFree == old(nextFree)
    {
      released := released + [f];
    }
  }

  /**
   * The words of a frame with word `i` replaced by `value`. The update is
   * named so that its result keeps the element type `Word`; the source has
   * no counterpart beyond the single word store.
   */
  function Put(words: seq<Word>, i: nat, value: Word): seq<Word>
    requires i < |words|
  {
    words[i := value]
  }

  /**
   * Physical memory as a value: the 1024 words of every frame the paging
   * code can address, by frame number. Frame `f` holds physical addresses
   * `f * 4096` to `f * 4096 + 4095`, and word `i` of it lies at offset `4 * i`.
   */
  ghost predicate WellFormed(frames: map<nat, seq<Word>>)
  {
    forall f :: f in frames ==> f < FrameLimit && |frames[f]| == EntriesPerTable
  }

  /**
   * The frame that the two-level walk from directory frame `dir` maps
   * virtual address `v` to, or None where an entry on the way is absent or
   * the page table it names is not in memory.
   */
  function Translate(frames: map<nat, seq<Word>>, dir: nat, v: Word): (frame: Option<nat>)
    requires WellFormed(frames) && dir in frames
  {
    AddressSplit(v);
    var pde := frames[dir][DirectoryIndex(v)];
    if !IsPresent(pde) || EntryFrame(pde) !in frames then None
    else
      var pte := frames[EntryFrame(pde)][TableIndex(v)];
      if IsPresent(pte) then Some(EntryFrame(pte)) else None
  }

  /** Whether slot 1023 of directory `dir` maps the directory onto itself. */
  ghost predicate SelfMapped(frames: map<nat, seq<Word>>, dir: nat)
    requires WellFormed(frames) && dir in frames
  {
    frames[dir][EntriesPerTable - 1] == MakeEntry(dir, 3)
  }

  /** The walk of `v` reaches a frame that is in memory, so that `v` can be loaded and stored. */
  ghost predicate Mapped(frames: map<nat, seq<Word>>, dir: nat, v: Word)
    requires WellFormed(frames) && dir in frames
  {
    Translate(frames, dir, v).Some? && Translate(frames, dir, v).value in frames
  }

  /**
   * The recursive map: when slot 1023 of `dir` points back at `dir`, entry
   * `i` of the directory window is entry `i` of the directory, and entry
   * `i` of the window of slot `pd` is entry `i` of the page table that
   * directory entry `pd` names, if that entry is present.
   */
  lemma RecursiveWindow(frames: map<nat, seq<Word>>, dir: nat, pd: nat, i: nat)
    requires WellFormed(frames) && dir in frames && SelfMapped(frames, dir)
    requires pd < EntriesPerTable && i < EntriesPerTable
    ensures TableWindow(pd) % PageSize == 0 && SlotAddress(TableWindow(pd), i) % 4 == 0
    ensures PageOffset(SlotAddress(TableWindow(pd), i)) / 4 == i
    ensures SlotAddress(DirectoryWindow, i) % 4 == 0 && PageOffset(SlotAddress(DirectoryWindow, i)) / 4 == i
    ensures Translate(frames, dir, SlotAddress(DirectoryWindow, i)) == Some(dir)
    ensures (IsPresent(frames[dir][pd]) && EntryFrame(frames[dir][pd]) in frames) ==>
              Translate(frames, dir, SlotAddress(TableWindow(pd), i)) == Some(EntryFrame(frames[dir][pd]))
    ensures !IsPresent(frames[dir][pd]) ==> Translate(frames, dir, SlotAddress(TableWindow(pd), i)) == None
  {
    PresentWritableEntry(dir);
    WindowIndices(pd, i);
    WindowIndices(EntriesPerTable - 1, i);
  }

  /** Whether the walk of `w` from directory `dir` reads word `i` of frame `t`, as its directory entry or its table entry. */
  ghost predicate ReadsEntry(frames: map<nat, seq<Word>>, dir: nat, w: Word, t: nat, i: nat)
    requires WellFormed(frames) && dir in frames
  {
    AddressSplit(w);
    || (t == dir && DirectoryIndex(w) == i)
    || (IsPresent(frames[dir][DirectoryIndex(w)]) && EntryFrame(frames[dir][DirectoryIndex(w)]) == t && TableIndex(w) == i)
  }

  /** A write to word `i` of frame `t` changes the translation of no address whose walk does not read that word. */
  lemma WriteKeepsOtherTranslations(frames: map<nat, seq<Word>>, dir: nat, t: nat, i: nat, value: Word)
    requires WellFormed(frames) && dir in frames && t in frames && i < EntriesPerTable
    ensures WellFormed(frames[t := Put(frames[t], i, value)])
    ensures forall w :: !ReadsEntry(frames, dir, w, t, i) ==>
      Translate(frames[t := Put(frames[t], i, value)], dir, w) == Translate(frames, dir, w)
  {
    forall w | !ReadsEntry(frames, dir, w, t, i)
      ensures Translate(frames[t := Put(frames[t], i, value)], dir, w) == Translate(frames, dir, w)
    {
      AddressSplit(w);
    }
  }

  /** Physical memory, which the paging code updates one word at a time. */
  class Memory {
    var frames: map<nat, seq<Word>>

    ghost predicate Valid()
      reads this
    {
      WellFormed(frames)
    }

    constructor ()
      ensures Valid() && frames == map[]
    {
      frames := map[];
    }

    /**
     * Frame `f` becomes addressable, holding whatever it held before. The
     * fresh array's words are unconstrained, which stands for the unknown
     * contents of a frame just handed out by a pool; the array itself has
     * no counterpart in the source.
     */
    method Install(f: nat)
      requires Valid() && f !in frames && f < FrameLimit
      modifies this
      ensures Valid()
      ensures f in frames && frames == old(frames)[f := frames[f]]
    {
      var storage := new Word[EntriesPerTable];
      frames := frames[f := storage[..]];
    }

    /** A store to the physical address of word `i` of frame `f`. */
    method Write(f: nat, i: nat, value: Word)
      requires Valid() && f in frames && i < EntriesPerTable
      modifies this
      ensures Valid()
      ensures frames == old(frames)[f := Put(old(frames[f]), i, value)]
    {
      frames := frames[f := Put(frames[f], i, value)];
    }

    /**
     * A load from the word-aligned virtual address `v`, translated through
     * directory `dir`. Through the recursive slot, a load from the last
     * 4 MiB reads the page-table entry that the table index names.
     */
    function Fetch(dir: nat, v: Word): (word: Word)
      reads this
      requires Valid() && dir in frames && Mapped(frames, dir, v) && v % 4 == 0
      ensures SelfMapped(frames, dir) && DirectoryIndex(v) == EntriesPerTable - 1 ==>
        word == frames[EntryFrame(frames[dir][TableIndex(v)])][PageOffset(v) / 4]
    {
      AddressSplit(v);
      PresentWritableEntry(dir);
      frames[Translate(frames, dir, v).value][PageOffset(v) / 4]
    }

    /**
     * A store to the word-aligned virtual address `v`, translated through
     * directory `dir`: the word at the same offset of the frame the walk
     * reaches changes, and nothing else.
     */
    method Store(dir: nat, v: Word, value: Word)
      requires Valid() && dir in frames && Mapped(frames, dir, v) && v % 4 == 0
      modifies this
      ensures Valid()
      ensures var f := old(Translate(frames, dir, v)).value;
        frames == old(frames)[f := Put(old(frames[f]), PageOffset(v) / 4, value)]
    {
      AddressSplit(v);
      var f := Translate(frames, dir, v).value;
      frames := frames[f := Put(frames[f], PageOffset(v) / 4, value)];
    }
  }

  /** Memory after a fault is served in an existing page table: frame `f` arrives holding `g`, and word `ti` of table `t` names it. */
  function ExistingTableUpdate(frames: map<nat, seq<Word>>, t: nat, ti: nat, f: nat, g: seq<Word>): map<nat, seq<Word>>
    requires WellFormed(frames) && t in frames && ti < EntriesPerTable && f < FrameLimit
  {
    frames[f := g][t := Put(frames[t], ti, MakeEntry(f, 3))]
  }

  /** The page-table constructor's first loop: word i of frame `table` maps frame i, present and writable, for i < n. */
  method FillIdentityMap(mem: Memory, table: nat, n: nat)
    requires mem.Valid() && table in mem.frames && n <= EntriesPerTable
    modifies mem
    ensures mem.Valid() && table in mem.frames
    ensures mem.frames == old(mem.frames)[table := mem.frames[table]]
    ensures forall j :: 0 <= j < n ==> mem.frames[table][j] == MakeEntry(j, 3)
    ensures forall j :: n <= j < EntriesPerTable ==> mem.frames[table][j] == old(mem.frames[table][j])
  {
    var addressValue := 0;
    var i := 0;
    while i < n
      invariant 0 <= i <= n && addressValue == i * PageSize
      invariant mem.Valid() && table in mem.frames
      invariant mem.frames == old(mem.frames)[table := mem.frames[table]]
      invariant forall j :: 0 <= j < i ==> mem.frames[table][j] == MakeEntry(j, 3)
      invariant forall j :: n <= j < EntriesPerTable ==> mem.frames[table][j] == old(mem.frames[table][j])
    {
      mem.Write(table, i, addressValue + PageWrite + PagePresent);
      addressValue := addressValue + PageSize;
      i := i + 1;
    }
  }

  /** The page-table constructor's second loop: words 1 to n-1 of frame `directory` become writable but absent. */
  method MarkAbsent(mem: Memory, directory: nat, n: nat)
    requires mem.Valid() && directory in mem.frames && 1 <= n <= EntriesPerTable
    modifies mem
    ensures mem.Valid() && directory in mem.frames
    ensures mem.frames == old(mem.frames)[directory := mem.frames[directory]]
    ensures forall j :: 1 <= j < n ==> mem.frames[directory][j] == PageWrite
    ensures mem.frames[directory][0] == old(mem.frames[directory][0])
    ensures forall j :: n <= j < EntriesPerTable ==> mem.frames[directory][j] == old(mem.frames[directory][j])
  {
    var i := 1;
    while i < n
      invariant 1 <= i <= n
      invariant mem.Valid() && directory in mem.frames
      invariant mem.frames == old(mem.frames)[directory := mem.frames[directory]]
      invariant forall j :: 1 <= j < i ==> mem.frames[directory][j] == PageWrite
      invariant mem.frames[directory][0] == old(mem.frames[directory][0])
      invariant forall j :: n <= j < EntriesPerTable ==> mem.frames[directory][j] == old(mem.frames[directory][j])
    {
      mem.Write(directory, i, 0 + PageWrite);
      i := i + 1;
    }
  }

  /**
   * The kernel pool, the process pool and memory agree: the pools are
   * distinct with disjoint ranges, and every addressable frame was handed
   * out by one of them.
   */
  ghost predicate Consistent(mem: Memory, kernel: FramePool, process: FramePool)
    reads mem, kernel, process
  {
    && kernel != process
    && kernel.Valid() && process.Valid() && mem.Valid()
    && (kernel.baseFrame + kernel.nFrames <= process.baseFrame
        || process.baseFrame + process.nFrames <= kernel.baseFrame)
    && (forall f :: f in mem.frames ==> kernel.HandedOut(f) || process.HandedOut(f))
  }

  /**
   * A frame requested from `pool` (one of the two pools) together with its
   * storage; the frame is new to memory.
   */
  method TakeFrame(mem: Memory, kernel: FramePool, process: FramePool, fromKernel: bool) returns (f: nat)
    requires Consistent(mem, kernel, process)
    requires (if fromKernel then kernel else process).Available() > 0
    modifies mem, if fromKernel then kernel else process
    ensures Consistent(mem, kernel, process)
    ensures f !in old(mem.frames) && f in mem.frames
    ensures mem.frames == old(mem.frames)[f := mem.frames[f]]
    ensures var pool := if fromKernel then kernel else process;
      pool.handedOut == old(pool.handedOut) + [f] && pool.released == old(pool.released)
      && pool.Available() == old(pool.Available()) - 1
  {
    var pool := if fromKernel then kernel else process;
    f := pool.GetFrame();
    mem.Install(f);
  }
}
