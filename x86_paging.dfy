/**
 * The 32-bit x86 paging formats the kernel relies on: a page-directory or
 * page-table entry is a frame address in bits 12..31 combined with the
 * present (bit 0), writable (bit 1) and user (bit 2) flags; a linear address
 * splits 10/10/12 into a directory index, a table index and an offset
 * (section 4.3 of volume 3A of the Intel 64 and IA-32 Architectures Software
 * Developer's Manual).
 *
 * Words are unsigned 32-bit values. The bit operations the kernel applies
 * to them are written as the arithmetic they compute: masking the low k
 * bits is `% 2^k`, a right shift by k is `/ 2^k`, and OR-ing flags below
 * bit 12 into a page-aligned address is addition.
 */
module X86Paging {

  /** An `unsigned long` of the 32-bit kernel. */
  type Word = x: int | 0 <= x < 0x1_0000_0000

  datatype Option<T> = None | Some(value: T)

  const PageSize: nat := 4096
  const EntriesPerTable: nat := 1024
  /** Frames whose address fits in 32 bits. */
  const FrameLimit: nat := 0x10_0000

  const PagePresent: Word := 1
  const PageWrite: Word := 2
  const PageLevelUser: Word := 4

  /** The virtual address of the page directory under the recursive map. */
  const DirectoryWindow: Word := 0xFFFF_F000
  /** The base of the 4 MiB window that shows every page table. */
  const TableWindowBase: Word := 0xFFC0_0000

  /** `frame * PAGE_SIZE | flags`, for flags that lie below bit 12. */
  function MakeEntry(frame: nat, flags: nat): (e: Word)
    requires frame < FrameLimit && flags < PageSize
    ensures e % PageSize == flags && e / PageSize == frame
  {
    frame * PageSize + flags
  }

  /** `entry / PAGE_SIZE`: the frame an entry names. */
  function EntryFrame(e: Word): (frame: nat)
    ensures frame < FrameLimit
  {
    e / PageSize
  }

  /** `entry & 0xFFFFF000`: the page-aligned address an entry names. */
  function EntryAddress(e: Word): (address: Word)
    ensures address <= e < address + PageSize
  {
    e - e % PageSize
  }

  /** `(entry & PAGE_PRESENT) == 1` */
  predicate IsPresent(e: Word)
  {
    e % 2 == 1
  }

  /** `(entry & PAGE_WRITE) != 0` */
  predicate IsWritable(e: Word)
  {
    (e / 2) % 2 == 1
  }

  /** `(entry & PAGE_LEVEL_USER) != 0` */
  predicate IsUser(e: Word)
  {
    (e / 4) % 2 == 1
  }

  /** `address >> 22` */
  function DirectoryIndex(address: Word): (pd: nat)
    ensures pd < EntriesPerTable
  {
    address / 0x40_0000
  }

  /** `(address >> 12) & 0x3FF` */
  function TableIndex(address: Word): (ti: nat)
    ensures ti < EntriesPerTable
  {
    (address / PageSize) % EntriesPerTable
  }

  /** `address & 0xFFF` */
  function PageOffset(address: Word): (offset: nat)
    ensures offset < PageSize
  {
    address % PageSize
  }

  /** `0xFFC00000 | (pd << 12)`: where page table `pd` shows up under the recursive map. */
  function TableWindow(pd: nat): (window: Word)
    requires pd < EntriesPerTable
    ensures window % PageSize == 0 && window >= TableWindowBase
  {
    TableWindowBase + pd * PageSize
  }

  /** An entry built from a frame and flags gives back the frame, and its low 12 bits masked off, the frame address. */
  lemma EntryRoundTrip(frame: nat, flags: nat)
    requires frame < FrameLimit && flags < PageSize
    ensures EntryFrame(MakeEntry(frame, flags)) == frame
    ensures EntryAddress(MakeEntry(frame, flags)) == frame * PageSize
    ensures EntryAddress(MakeEntry(frame, flags)) / PageSize == frame
  {
    DivModUnique(MakeEntry(frame, flags), PageSize, frame, flags);
    DivModUnique(frame * PageSize, PageSize, frame, 0);
  }

  /** `entry & 0xFFFFF000` is the page address of the frame the entry names. */
  lemma EntryAddressFrame(e: Word)
    ensures EntryAddress(e) == EntryFrame(e) * PageSize
    ensures EntryAddress(e) / PageSize == EntryFrame(e)
  {
    DivModUnique(EntryAddress(e), PageSize, EntryFrame(e), 0);
  }

  /** `frame | PAGE_WRITE | PAGE_PRESENT` is present and writable, and not a user page. */
  lemma PresentWritableEntry(frame: nat)
    requires frame < FrameLimit
    ensures IsPresent(MakeEntry(frame, 3)) && IsWritable(MakeEntry(frame, 3))
    ensures !IsUser(MakeEntry(frame, 3))
    ensures EntryFrame(MakeEntry(frame, 3)) == frame
  {
    var e := MakeEntry(frame, 3);
    EntryRoundTrip(frame, 3);
    DivModUnique(e, 2, frame * 2048 + 1, 1);
    DivModUnique(frame * 2048 + 1, 2, frame * 1024, 1);
    DivModUnique(e, 4, frame * 1024, 3);
    DivModUnique(frame * 1024, 2, frame * 512, 0);
  }

  /**
   * The two constant entries the kernel writes: `0 | PAGE_WRITE` is writable
   * but absent, `0 | PAGE_LEVEL_USER` is a user page that is absent.
   */
  lemma ConstantEntries()
    ensures !IsPresent(PageWrite) && IsWritable(PageWrite) && !IsUser(PageWrite)
    ensures !IsPresent(PageLevelUser) && !IsWritable(PageLevelUser) && IsUser(PageLevelUser)
    ensures EntryFrame(PageWrite) == 0 && EntryFrame(PageLevelUser) == 0
  {
  }

  /** The 10/10/12 split yields indices within a table and reassembles the address. */
  lemma AddressSplit(address: Word)
    ensures DirectoryIndex(address) < EntriesPerTable
    ensures TableIndex(address) < EntriesPerTable
    ensures PageOffset(address) < PageSize
    ensures DirectoryIndex(address) * 0x40_0000 + TableIndex(address) * PageSize + PageOffset(address) == address
  {
    var page := address / PageSize;
    assert address == page * PageSize + address % PageSize;
    assert page == (page / EntriesPerTable) * EntriesPerTable + page % EntriesPerTable;
    DivModUnique(address, 0x40_0000, page / EntriesPerTable, (page % EntriesPerTable) * PageSize + address % PageSize);
  }

  /** `table + 4 * i`: the address of entry `i` of the page-aligned table at `table`. */
  function SlotAddress(table: Word, i: nat): (slot: Word)
    requires table % PageSize == 0 && i < EntriesPerTable
    ensures table <= slot < table + PageSize
  {
    table + 4 * i
  }

  /** A non-zero multiple of a positive `m` is at least `m` away from zero. */
  lemma MultipleBound(k: int, m: int)
    requires 0 < m
    ensures k >= 1 ==> k * m >= m
    ensures k <= -1 ==> k * m <= -m
  {
    if k >= 1 {
      assert k * m == (k - 1) * m + m;
    } else if k <= -1 {
      assert k * m == (k + 1) * m - m;
    }
  }

  /** `x == q * m + r` with `0 <= r < m` pins down the quotient and the remainder. */
  lemma DivModUnique(x: int, m: int, q: int, r: int)
    requires 0 < m && 0 <= r < m && x == q * m + r
    ensures x / m == q && x % m == r
  {
    var k := x / m - q;
    assert k * m == r - x % m;
    MultipleBound(k, m);
  }

  /**
   * Entry `i` of every table window lies in the last directory slot, its
   * table index is the directory index the window stands for, and its
   * offset is the entry's byte offset; the window of slot 1023 is the
   * directory window.
   */
  lemma WindowIndices(pd: nat, i: nat)
    requires pd < EntriesPerTable && i < EntriesPerTable
    ensures TableWindow(pd) % PageSize == 0
    ensures DirectoryIndex(SlotAddress(TableWindow(pd), i)) == EntriesPerTable - 1
    ensures TableIndex(SlotAddress(TableWindow(pd), i)) == pd
    ensures PageOffset(SlotAddress(TableWindow(pd), i)) == 4 * i
    ensures TableWindow(EntriesPerTable - 1) == DirectoryWindow
  {
    var a := SlotAddress(TableWindow(pd), i);
    DivModUnique(TableWindow(pd), PageSize, 0xFFC00 + pd, 0);
    DivModUnique(a, 0x40_0000, EntriesPerTable - 1, pd * PageSize + 4 * i);
    DivModUnique(a, PageSize, 0xFFC00 + pd, 4 * i);
    DivModUnique(0xFFC00 + pd, EntriesPerTable, 0x3FF, pd);
  }
}
