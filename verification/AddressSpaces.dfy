/** kernel/scheduler.c, create_pd: the address space of a new task. */
module AddressSpaces {
  import opened DataFrames
  import opened MachineWords
  import opened Options
  import opened PageTables
  import opened Paging
  import opened Protection
  import opened Spans

  /** The part of the heap that a task shares with the kernel: 16 MiB. */
  const SHARED_PAGES: int := 0x1000

  /** The frames that the kernel's windows take: for their table, if it is missing. */
  function WindowCost(m: Memory, cr3: frame): nat {
    if HasTable(m, cr3, WINDOW_TABLE) then 0 else 1
  }

  /** The frames that a new address space takes: its directory, its first table, the tables of
      the screen and of the shared heap, and what the windows take. */
  function SpaceCost(m: Memory, cr3: frame, framebuffer: u32, bytes: u32): int {
    2 + WindowCost(m, cr3) + ScreenTables(framebuffer, bytes) + TablesBeside(framebuffer, bytes, SHARED_PAGES)
  }

  /** All that `create_pd` may do to translations that existed before: the loaded
      directory changes at the two windows, and may gain the table they live in. */
  ghost predicate SpacesKept(m: Memory, m': Memory, dirs: set<frame>, cr3: frame) {
    && (forall u: page :: u != FOREIGN_PD && u != WINDOW && u != TableWindow(WINDOW_TABLE) ==>
          Walk(m', cr3, u) == Walk(m, cr3, u))
    && (HasTable(m, cr3, WINDOW_TABLE) ==>
          Walk(m', cr3, TableWindow(WINDOW_TABLE)) == Walk(m, cr3, TableWindow(WINDOW_TABLE)))
    && (forall e, u: page :: e in dirs && e != cr3 ==> Walk(m', e, u) == Walk(m, e, u))
  }

  lemma KeptByWindow(m: Memory, m': Memory, dirs: set<frame>, cr3: frame, v: page, entry: u32, dirEntry: u32)
    requires v == FOREIGN_PD || v == WINDOW
    requires MapLaw(m, m', dirs, cr3, cr3, v, entry, dirEntry)
    ensures SpacesKept(m, m', dirs, cr3)
  {
    hide Walk;
  }

  lemma KeptBySame(m: Memory, dirs: set<frame>, cr3: frame)
    ensures SpacesKept(m, m, dirs, cr3) && SameWalks(m, m, dirs)
  {
  }

  lemma KeptUnseen(m: Memory, m1: Memory, m2: Memory, dirs: set<frame>, cr3: frame)
    requires SpacesKept(m, m1, dirs, cr3) && cr3 in dirs
    requires SameWalks(m1, m2, dirs)
    ensures SpacesKept(m, m2, dirs, cr3)
  {
    hide Walk;
  }

  lemma KeptTwice(m: Memory, m1: Memory, m2: Memory, dirs: set<frame>, cr3: frame)
    requires SpacesKept(m, m1, dirs, cr3) && SpacesKept(m1, m2, dirs, cr3)
    requires HasTable(m1, cr3, WINDOW_TABLE)
    ensures SpacesKept(m, m2, dirs, cr3)
  {
    hide Walk;
  }

  /** `alloc_page`, `map_page` at 0xF0000000 and `memset`: a blank directory the kernel can see. */
  method OpenDirectory(mmu: Mmu) returns (phys: u32)
    requires mmu.Valid()
    modifies mmu, mmu.frames, mmu.frames.bitmap
    ensures mmu.Valid() && mmu.SameSpaces(old(mmu.dirs), old(mmu.cr3)) && old(mmu.Limit()) <= mmu.Limit()
    ensures SpacesKept(old(mmu.mem), mmu.mem, mmu.dirs, mmu.cr3)
    ensures DataKept(old(mmu.mem), mmu.dirs, mmu.mem, mmu.dirs, old(mmu.Limit()))
    ensures phys == 0 ==> mmu.frames.next == mmu.frames.maxPages
    ensures phys == 0 <==> old(mmu.frames.next + 1 + WindowCost(mmu.mem, mmu.cr3)) > mmu.frames.maxPages
    ensures phys != 0 ==> mmu.frames.next == old(mmu.frames.next + 1 + WindowCost(mmu.mem, mmu.cr3))
    ensures phys != 0 ==>
      && phys == 4096 * old(mmu.Limit()) && old(mmu.Limit()) < mmu.Limit()
      && Walk(mmu.mem, mmu.cr3, FOREIGN_PD) == Some(Entry(FrameOf(phys), PAGE_DEFAULT))
      && Unused(mmu.mem, mmu.dirs, FrameOf(phys)) && mmu.mem[FrameOf(phys)] == Zeroes()
  {
    hide Walk, WithPage, Unused, Entry, WellFormed, DataKept;
    ghost var m, d, limit := mmu.mem, mmu.cr3, mmu.Limit();
    mmu.DirectoryShown(PD_PAGE);
    DataKeptAtFirst(m, mmu.dirs, limit);
    phys := mmu.AllocPage();
    if phys == 0 {
      return 0;
    }
    ghost var entry, dirEntry := Entry(FrameOf(phys), PAGE_DEFAULT), Entry(mmu.Limit(), PAGE_DEFAULT);
    EntryParts(limit, PAGE_DEFAULT);
    NextIsUnused(m, mmu.dirs, limit);
    assert Spare(dirEntry, limit + 1) by {
      EntryParts(limit + 1, PAGE_DEFAULT);
    }
    UnusedKept(m, mmu.dirs, limit + 1, d, FOREIGN_PD, entry, dirEntry, limit);
    WithPageWords(m, mmu.dirs, limit + 1, d, FOREIGN_PD, entry, dirEntry, d, WINDOW_TABLE);
    var r := mmu.MapPage(PD_PAGE, phys, 4096 * FOREIGN_PD, PAGE_DEFAULT);
    DataKeptBelow(m, mmu.dirs, mmu.mem, mmu.dirs, limit, limit + 1);
    if r < 0 {
      return 0;
    }
    ghost var m1 := mmu.mem;
    KeptByWindow(m, m1, mmu.dirs, d, FOREIGN_PD, entry, dirEntry);
    UnusedIsInvisible(m1, mmu.dirs, mmu.Limit(), limit, Zeroes(), limit);
    UnusedIsOffPath(m1, mmu.dirs, d, FOREIGN_PD, limit);
    mmu.ZeroPage(FOREIGN_PD);
    MappedThenWritten(m, m1, mmu.mem, mmu.dirs, mmu.Limit(), limit);
    KeptUnseen(m, m1, mmu.mem, mmu.dirs, d);
  }

  /** The loop that fills the window's page with an identity map of 4 MiB. */
  method FillTable(mmu: Mmu, ghost f: frame)
    requires mmu.Valid() && Unused(mmu.mem, mmu.dirs, f)
    requires Walk(mmu.mem, mmu.cr3, WINDOW) == Some(Entry(f, PAGE_DEFAULT))
    modifies mmu`mem
    ensures mmu.Valid() && SameWalks(old(mmu.mem), mmu.mem, mmu.dirs)
    ensures mmu.mem == old(mmu.mem)[f := mmu.mem[f]]
    ensures forall i :: 0 <= i < ENTRIES ==> mmu.mem[f][i] == Entry(i, PAGE_DEFAULT)
    ensures forall g :: old(Unused(mmu.mem, mmu.dirs, g)) ==> Unused(mmu.mem, mmu.dirs, g)
  {
    ghost var m, dirs, cr3, limit := mmu.mem, mmu.dirs, mmu.cr3, mmu.Limit();
    EntryParts(f, PAGE_DEFAULT);
    KeptBySame(m, dirs, cr3);
    mmu.ZeroPage(WINDOW);
    for i := 0 to ENTRIES
      invariant mmu.mem == m[f := mmu.mem[f]]
      invariant forall j :: 0 <= j < i ==> mmu.mem[f][j] == Entry(j, PAGE_DEFAULT)
    {
      UnusedIsInvisible(m, dirs, limit, f, mmu.mem[f], f);
      mmu.StoreWord(WINDOW, i, Entry(i, PAGE_DEFAULT));
    }
    UnusedIsInvisible(m, dirs, limit, f, mmu.mem[f], f);
    forall g | Unused(m, dirs, g)
      ensures Unused(mmu.mem, dirs, g)
    {
      UnusedIsInvisible(m, dirs, limit, f, mmu.mem[f], g);
    }
  }

  /** A table that maps the first 4 MiB to themselves, for the directory d. */
  method OpenTable(mmu: Mmu, ghost d: frame) returns (phys: u32)
    requires mmu.Valid() && Unused(mmu.mem, mmu.dirs, d) && d < mmu.Limit()
    requires Walk(mmu.mem, mmu.cr3, FOREIGN_PD) == Some(Entry(d, PAGE_DEFAULT))
    modifies mmu, mmu.frames, mmu.frames.bitmap
    ensures mmu.Valid() && mmu.SameSpaces(old(mmu.dirs), old(mmu.cr3)) && old(mmu.Limit()) <= mmu.Limit()
    ensures SpacesKept(old(mmu.mem), mmu.mem, mmu.dirs, mmu.cr3)
    ensures DataKept(old(mmu.mem), mmu.dirs, mmu.mem, mmu.dirs, old(mmu.Limit()))
    ensures phys == 0 ==> mmu.frames.next == mmu.frames.maxPages
    ensures phys == 0 <==> old(mmu.frames.next) == mmu.frames.maxPages
    ensures phys != 0 ==> mmu.frames.next == old(mmu.frames.next) + 1
    ensures phys != 0 ==>
      && phys == 4096 * old(mmu.Limit()) && old(mmu.Limit()) < mmu.Limit()
      && Unused(mmu.mem, mmu.dirs, FrameOf(phys)) && Unused(mmu.mem, mmu.dirs, d)
      && mmu.mem[d] == old(mmu.mem[d])
      && (forall i :: 0 <= i < ENTRIES ==> mmu.mem[FrameOf(phys)][i] == Entry(i, PAGE_DEFAULT))
      && Walk(mmu.mem, mmu.cr3, FOREIGN_PD) == Some(Entry(d, PAGE_DEFAULT))
  {
    hide Walk, WithPage, Unused, Entry, WellFormed, HasTable, DataKept;
    ghost var m, cr3, limit, dirs := mmu.mem, mmu.cr3, mmu.Limit(), mmu.dirs;
    mmu.DirectoryShown(PD_PAGE);
    KeptBySame(m, dirs, cr3);
    WindowHasTable(m, cr3, d);
    DataKeptAtFirst(m, dirs, limit);
    phys := mmu.AllocPage();
    if phys == 0 {
      return 0;
    }
    ghost var entry, dirEntry := Entry(FrameOf(phys), PAGE_DEFAULT), Entry(mmu.Limit(), PAGE_DEFAULT);
    NextIsUnused(m, dirs, limit);
    assert Editable(m, dirs, limit + 1, cr3, WINDOW, dirEntry);
    EntryParts(limit, PAGE_DEFAULT);
    UnusedKept(m, dirs, limit + 1, cr3, WINDOW, entry, dirEntry, limit);
    UnusedKept(m, dirs, limit + 1, cr3, WINDOW, entry, dirEntry, d);
    // This call cannot fail: the window's table came with the directory's own window.
    var r := mmu.MapPage(PD_PAGE, phys, 4096 * WINDOW, PAGE_DEFAULT);
    ghost var m1 := mmu.mem;
    KeptByWindow(m, m1, dirs, cr3, WINDOW, entry, dirEntry);
    FillTable(mmu, limit);
    MappedThenWritten(m, m1, mmu.mem, dirs, mmu.Limit(), limit);
    KeptUnseen(m, m1, mmu.mem, dirs, cr3);
  }

  /** The two entries that make a blank directory an address space of its own. */
  method Install(mmu: Mmu, pdPhys: u32, ptPhys: u32, ghost below: int)
    requires mmu.Valid() && FrameOf(pdPhys) != FrameOf(ptPhys)
    requires below <= FrameOf(pdPhys) < mmu.Limit() && below <= FrameOf(ptPhys) < mmu.Limit()
    requires Unused(mmu.mem, mmu.dirs, FrameOf(pdPhys)) && Unused(mmu.mem, mmu.dirs, FrameOf(ptPhys))
    requires mmu.mem[FrameOf(pdPhys)] == Zeroes()
    requires forall i :: 0 <= i < ENTRIES ==> mmu.mem[FrameOf(ptPhys)][i] == Entry(i, PAGE_DEFAULT)
    requires Walk(mmu.mem, mmu.cr3, FOREIGN_PD) == Some(Entry(FrameOf(pdPhys), PAGE_DEFAULT))
    modifies mmu`mem, mmu`dirs
    ensures mmu.Valid() && mmu.dirs == old(mmu.dirs) + {FrameOf(pdPhys)}
    ensures SameWalks(old(mmu.mem), mmu.mem, old(mmu.dirs))
    ensures DataKept(old(mmu.mem), old(mmu.dirs), mmu.mem, mmu.dirs, below)
    ensures FirstDirectory(mmu.mem, FrameOf(pdPhys), FrameOf(ptPhys), PAGE_DEFAULT)
  {
    hide DataKept;
    ghost var m, cr3, limit, dirs := mmu.mem, mmu.cr3, mmu.Limit(), mmu.dirs;
    ghost var d, table := FrameOf(pdPhys), FrameOf(ptPhys);
    EntryParts(d, PAGE_DEFAULT);
    UnusedIsInvisible(m, dirs, limit, d, m[d][0 := Entry(table, PAGE_DEFAULT)], d);
    mmu.StoreWord(FOREIGN_PD, 0, Entry(FrameOf(ptPhys), PAGE_DEFAULT));
    mmu.StoreWord(FOREIGN_PD, SELF, Entry(FrameOf(pdPhys), PAGE_DEFAULT));
    UnusedIsInvisible(m, dirs, limit, d, mmu.mem[d], d);
    UnusedIsInvisible(m, dirs, limit, d, mmu.mem[d], table);
    assert mmu.mem == m[d := mmu.mem[d]];
    FreshWriteKeepsData(m, dirs, limit, d, mmu.mem[d], below);
    SpaceKeepsData(mmu.mem, dirs, d, table, PAGE_DEFAULT, below);
    DataKeptTwice(m, dirs, mmu.mem, dirs, mmu.mem, dirs + {d}, below, below);
    SpaceAdded(mmu.mem, dirs, limit, d, table, PAGE_DEFAULT);
    mmu.dirs := dirs + {d};
  }

  /** The pages lo..hi of directory d map to the frames that, in m0, the directory cr3 maps them to. */
  ghost predicate Shares(m0: Memory, cr3: frame, m: Memory, d: frame, lo: int, hi: int) {
    forall u: page :: lo <= u < hi ==>
      && Mapped(m, d, u) && Walk(m, d, u).value == Entry(Translate(m, d, u), PAGE_DEFAULT)
      && (Mapped(m0, cr3, u) ==> Translate(m, d, u) == Translate(m0, cr3, u))
  }

  lemma SharesOneMore(m0: Memory, m: Memory, m': Memory, dirs: set<frame>, cr3: frame, d: frame,
                      lo: int, v: page, f: frame, dirEntry: u32)
    requires Shares(m0, cr3, m, d, lo, v) && v < PT_PAGE
    requires Mapped(m0, cr3, v) ==> f == Translate(m0, cr3, v)
    requires MapLaw(m, m', dirs, cr3, d, v, Entry(f, PAGE_DEFAULT), dirEntry)
    ensures Shares(m0, cr3, m', d, lo, v + 1)
  {
    EntryParts(f, PAGE_DEFAULT);
    hide Walk, Entry;
  }

  lemma MappedByLaw(m: Memory, m': Memory, dirs: set<frame>, cr3: frame, d: frame, v: page, f: frame, dirEntry: u32)
    requires MapLaw(m, m', dirs, cr3, d, v, Entry(f, PAGE_DEFAULT), dirEntry)
    ensures Mapped(m', d, v)
  {
    EntryParts(f, PAGE_DEFAULT);
  }

  /** One turn of the last loop of `create_pd`: the kernel's entry for page v is read
      through the self-map, and its frame given to the new directory. */
  method SharePage(mmu: Mmu, v: page, ghost m0: Memory, ghost m: Memory, ghost next: int) returns (r: int)
    requires mmu.Valid() && mmu.IsDirectory(FOREIGN_PD) && HEAP <= v < HEAP + SHARED_PAGES
    requires SelfMapped(m, mmu.cr3) && HasTable(m, mmu.cr3, v / ENTRIES)
    requires Walk(m, mmu.cr3, v) == Walk(m0, mmu.cr3, v)
    requires ChangesOnly(m, mmu.mem, mmu.dirs, mmu.cr3, mmu.Directory(FOREIGN_PD), HEAP, v, PAGE_DEFAULT)
    requires Shares(m0, mmu.cr3, mmu.mem, mmu.Directory(FOREIGN_PD), HEAP, v)
    requires SelfMapped(m, mmu.Directory(FOREIGN_PD))
    requires v > HEAP ==> Mapped(mmu.mem, mmu.Directory(FOREIGN_PD), v - 1)
    requires mmu.frames.next == next + NewTables(m, mmu.Directory(FOREIGN_PD), HEAP, v)
    modifies mmu, mmu.frames, mmu.frames.bitmap
    ensures mmu.Valid() && mmu.SameSpaces(old(mmu.dirs), old(mmu.cr3)) && old(mmu.Limit()) <= mmu.Limit()
    ensures DataKept(old(mmu.mem), mmu.dirs, mmu.mem, mmu.dirs, old(mmu.Limit()))
    ensures mmu.IsDirectory(FOREIGN_PD) && mmu.Directory(FOREIGN_PD) == old(mmu.Directory(FOREIGN_PD))
    ensures ChangesOnly(m, mmu.mem, mmu.dirs, mmu.cr3, mmu.Directory(FOREIGN_PD), HEAP, v + 1, PAGE_DEFAULT)
    ensures r == 0 || (r == -1 && mmu.frames.next == mmu.frames.maxPages)
    ensures r == -1 <==> next + NewTables(m, mmu.Directory(FOREIGN_PD), HEAP, v + 1) > mmu.frames.maxPages
    ensures r == 0 ==> mmu.frames.next == next + NewTables(m, mmu.Directory(FOREIGN_PD), HEAP, v + 1)
    ensures r == 0 ==> Mapped(mmu.mem, mmu.Directory(FOREIGN_PD), v)
    ensures r == 0 ==> Shares(m0, mmu.cr3, mmu.mem, mmu.Directory(FOREIGN_PD), HEAP, v + 1)
  {
    hide Walk, ChangesOnly, MapLaw, Shares, Entry, WellFormed, HasTable, DataKept, NewTables;
    ghost var d, m1, dirEntry := mmu.Directory(FOREIGN_PD), mmu.mem, Entry(mmu.Limit(), PAGE_DEFAULT);
    mmu.DirectoryShown(PD_PAGE);
    mmu.DirectoryShown(FOREIGN_PD);
    NewTablesOneMore(m, m1, mmu.dirs, mmu.cr3, d, HEAP, v, PAGE_DEFAULT);
    KernelWord(m, m1, m0, mmu.dirs, mmu.cr3, d, v);
    var word := mmu.LoadWord(PT_PAGE + v / ENTRIES, v % ENTRIES);
    r := mmu.MapNext(FOREIGN_PD, 4096 * FrameOf(word), 4096 * v, PAGE_DEFAULT, m, HEAP, v);
    if r == 0 {
      MappedByLaw(m1, mmu.mem, mmu.dirs, mmu.cr3, d, v, FrameOf(word), dirEntry);
      SharesOneMore(m0, m1, mmu.mem, mmu.dirs, mmu.cr3, d, HEAP, v, FrameOf(word), dirEntry);
    }
  }

  method ShareHeap(mmu: Mmu, ghost m0: Memory) returns (r: int)
    requires mmu.Valid() && mmu.IsDirectory(FOREIGN_PD)
    requires forall i :: HEAP / ENTRIES <= i < (HEAP + SHARED_PAGES) / ENTRIES ==> HasTable(mmu.mem, mmu.cr3, i)
    requires forall u: page :: HEAP <= u < HEAP + SHARED_PAGES ==> Walk(mmu.mem, mmu.cr3, u) == Walk(m0, mmu.cr3, u)
    modifies mmu, mmu.frames, mmu.frames.bitmap
    ensures mmu.Valid() && mmu.SameSpaces(old(mmu.dirs), old(mmu.cr3)) && old(mmu.Limit()) <= mmu.Limit()
    ensures DataKept(old(mmu.mem), mmu.dirs, mmu.mem, mmu.dirs, old(mmu.Limit()))
    ensures mmu.IsDirectory(FOREIGN_PD) && mmu.Directory(FOREIGN_PD) == old(mmu.Directory(FOREIGN_PD))
    ensures ChangesOnly(old(mmu.mem), mmu.mem, mmu.dirs, mmu.cr3, mmu.Directory(FOREIGN_PD),
                        HEAP, HEAP + SHARED_PAGES, PAGE_DEFAULT)
    ensures r == 0 || r == -1
    ensures
      var tables := old(NewTables(mmu.mem, mmu.Directory(FOREIGN_PD), HEAP, HEAP + SHARED_PAGES));
      && (r == -1 <==> old(mmu.frames.next) + tables > mmu.frames.maxPages)
      && mmu.frames.next == Min(mmu.frames.maxPages, old(mmu.frames.next) + tables)
    ensures r == 0 ==> Shares(m0, mmu.cr3, mmu.mem, mmu.Directory(FOREIGN_PD), HEAP, HEAP + SHARED_PAGES)
  {
    hide Walk, ChangesOnly, Entry, HasTable, DataKept, NewTables, SelfMapped, Mapped;
    ghost var m, d, dirs, cr3, limit := mmu.mem, mmu.Directory(FOREIGN_PD), mmu.dirs, mmu.cr3, mmu.Limit();
    ghost var next := mmu.frames.next;
    DataKeptAtFirst(m, dirs, limit);
    NoTablesYet(m, d, HEAP);
    mmu.DirectoryShown(PD_PAGE);
    mmu.DirectoryShown(FOREIGN_PD);
    NothingChanged(m, dirs, cr3, d, HEAP, 0, 0, PAGE_DEFAULT);
    for i := 0 to SHARED_PAGES
      invariant mmu.Valid() && mmu.SameSpaces(dirs, cr3) && old(mmu.Limit()) <= mmu.Limit()
      invariant mmu.IsDirectory(FOREIGN_PD) && mmu.Directory(FOREIGN_PD) == d
      invariant ChangesOnly(m, mmu.mem, dirs, cr3, d, HEAP, HEAP + i, PAGE_DEFAULT)
      invariant Shares(m0, cr3, mmu.mem, d, HEAP, HEAP + i) && DataKept(m, dirs, mmu.mem, dirs, limit)
      invariant mmu.frames.next == next + NewTables(m, d, HEAP, HEAP + i)
      invariant i > 0 ==> Mapped(mmu.mem, d, HEAP + i - 1)
    {
      ghost var m1, limit1 := mmu.mem, mmu.Limit();
      r := SharePage(mmu, HEAP + i, m0, m, next);
      DataKeptTwice(m, dirs, m1, dirs, mmu.mem, dirs, limit, limit1);
      if r < 0 {
        NewTablesGrow(m, d, HEAP, HEAP + i + 1, HEAP + SHARED_PAGES);
        ChangesWiden(m, mmu.mem, dirs, cr3, d, HEAP, HEAP + i + 1, HEAP + SHARED_PAGES, PAGE_DEFAULT);
        return;
      }
    }
    r := 0;
  }

  /** While another directory is edited, a table of the loaded one can be read through
      its window, and says what it said at the start. */
  lemma KernelWord(m: Memory, m1: Memory, m0: Memory, dirs: set<frame>, cr3: frame, d: frame, v: page)
    requires d != cr3 && SelfMapped(m, cr3) && SelfMapped(m1, cr3) && v / ENTRIES != SELF && v != WINDOW
    requires HasTable(m, cr3, v / ENTRIES) && Walk(m, cr3, v) == Walk(m0, cr3, v)
    requires ChangesOnly(m, m1, dirs, cr3, d, HEAP, v, PAGE_DEFAULT)
    ensures Mapped(m1, cr3, TableWindow(v / ENTRIES))
    ensures var word := m1[Translate(m1, cr3, TableWindow(v / ENTRIES))][v % ENTRIES];
      Mapped(m0, cr3, v) ==> FrameOf(word) == Translate(m0, cr3, v)
  {
    SelfMapShows(m, cr3, v / ENTRIES);
    SelfMapShows(m1, cr3, v / ENTRIES);
    assert Walk(m1, cr3, TableWindow(v / ENTRIES)) == Walk(m, cr3, TableWindow(v / ENTRIES));
    assert Walk(m1, cr3, v) == Walk(m, cr3, v);
  }

  /** Edits of a space added since are among those that `create_pd` may make. */
  lemma KeptByEdits(m: Memory, m': Memory, dirs: set<frame>, cr3: frame, d: frame, lo: int, hi: int)
    requires ChangesOnly(m, m', dirs + {d}, cr3, d, lo, hi, PAGE_DEFAULT) && d !in dirs && cr3 in dirs
    ensures SpacesKept(m, m', dirs, cr3)
  {
    assert forall e :: e in dirs ==> e in dirs + {d};
    hide Walk;
  }

  /** Kept translations include the tables themselves. */
  lemma KeptTables(m: Memory, m': Memory, dirs: set<frame>, cr3: frame, i: int)
    requires SpacesKept(m, m', dirs, cr3) && SelfMapped(m, cr3) && SelfMapped(m', cr3)
    requires 0 <= i < SELF && HasTable(m, cr3, i)
    ensures HasTable(m', cr3, i)
  {
    SelfMapShows(m, cr3, i);
    SelfMapShows(m', cr3, i);
    assert i != WINDOW_TABLE ==> Walk(m', cr3, TableWindow(i)) == Walk(m, cr3, TableWindow(i));
  }

  /** `create_pd` up to its loops: a new space with the first 4 MiB and its self-map. */
  method NewSpace(mmu: Mmu) returns (phys: u32)
    requires mmu.Valid()
    modifies mmu, mmu.frames, mmu.frames.bitmap
    ensures mmu.Valid() && mmu.cr3 == old(mmu.cr3)
    ensures SpacesKept(old(mmu.mem), mmu.mem, old(mmu.dirs), mmu.cr3)
    ensures DataKept(old(mmu.mem), old(mmu.dirs), mmu.mem, mmu.dirs, old(mmu.Limit()))
    ensures old(mmu.Limit()) <= mmu.Limit()
    ensures phys == 0 <==> old(mmu.frames.next + 2 + WindowCost(mmu.mem, mmu.cr3)) > mmu.frames.maxPages
    ensures phys != 0 ==> mmu.frames.next == old(mmu.frames.next + 2 + WindowCost(mmu.mem, mmu.cr3))
    ensures phys != 0 ==> forall i :: 0 <= i < SELF ==> (HasTable(mmu.mem, FrameOf(phys), i) <==> i == 0)
    ensures phys != 0 ==> TablesUnder(mmu.mem, FrameOf(phys), PAGE_DEFAULT)
    ensures phys == 0 ==> mmu.frames.next == mmu.frames.maxPages && mmu.dirs == old(mmu.dirs)
    ensures phys != 0 ==>
      && phys == 4096 * old(mmu.Limit())
      && FrameOf(phys) !in old(mmu.dirs) && mmu.dirs == old(mmu.dirs) + {FrameOf(phys)}
      && Identity(mmu.mem, FrameOf(phys), 0, ENTRIES, PAGE_DEFAULT)
      && mmu.IsDirectory(FOREIGN_PD) && mmu.Directory(FOREIGN_PD) == FrameOf(phys)
  {
    hide Walk, SpacesKept, WellFormed, FirstDirectory, Identity, Unused, SameWalks, Entry;
    hide DataKept, HasTable, WindowCost, TablesUnder;
    ghost var m0, dirs, cr3, limit := mmu.mem, mmu.dirs, mmu.cr3, mmu.Limit();
    var pdPhys := OpenDirectory(mmu);
    if pdPhys == 0 {
      return 0;
    }
    ghost var d, m1, limit1 := FrameOf(pdPhys), mmu.mem, mmu.Limit();
    WindowHasTable(m1, cr3, d);
    var ptPhys := OpenTable(mmu, d);
    KeptTwice(m0, m1, mmu.mem, dirs, cr3);
    DataKeptTwice(m0, dirs, m1, dirs, mmu.mem, dirs, limit, limit1);
    if ptPhys == 0 {
      return 0;
    }
    ghost var m2 := mmu.mem;
    UnusedIsNoDirectory(m2, dirs, d);
    Install(mmu, pdPhys, ptPhys, limit);
    DataKeptTwice(m0, dirs, m2, dirs, mmu.mem, mmu.dirs, limit, limit);
    KeptUnseen(m0, m2, mmu.mem, dirs, cr3);
    FirstDirectoryIsWellFormed(mmu.mem, d, FrameOf(ptPhys), mmu.Limit(), PAGE_DEFAULT);
    FirstTablesUnder(mmu.mem, d, FrameOf(ptPhys), PAGE_DEFAULT);
    WindowShows(m2, mmu.mem, dirs, cr3, d);
    return pdPhys;
  }

  lemma UnusedIsNoDirectory(m: Memory, dirs: set<frame>, d: frame)
    requires Unused(m, dirs, d)
    ensures d !in dirs
  {
  }

  lemma WindowHasTable(m: Memory, cr3: frame, d: frame)
    requires Walk(m, cr3, FOREIGN_PD) == Some(Entry(d, PAGE_DEFAULT))
    ensures HasTable(m, cr3, WINDOW_TABLE)
  {
  }

  lemma WindowShows(m: Memory, m': Memory, dirs: set<frame>, cr3: frame, d: frame)
    requires Walk(m, cr3, FOREIGN_PD) == Some(Entry(d, PAGE_DEFAULT)) && SameWalks(m, m', dirs) && cr3 in dirs
    ensures Mapped(m', cr3, FOREIGN_PD) && Translate(m', cr3, FOREIGN_PD) == d
  {
    EntryParts(d, PAGE_DEFAULT);
    assert Walk(m', cr3, FOREIGN_PD) == Walk(m, cr3, FOREIGN_PD);
  }

  lemma NeverNegative(framebuffer: u32, bytes: u32)
    ensures ScreenTables(framebuffer, bytes) >= 0 && TablesBeside(framebuffer, bytes, SHARED_PAGES) >= 0
  {
  }

  /** When a new space shows the whole screen. Where the screen meets the shared part of the heap,
      it is where the kernel has it; a page that the loop misses is not mapped elsewhere. */
  ghost predicate ScreenOfSpace(m0: Memory, cr3: frame, m: Memory, d: frame, framebuffer: u32, bytes: u32) {
    framebuffer + bytes <= 4096 * PT_PAGE
    && (forall u: page :: SharedScreen(u, framebuffer, bytes) ==> Mapped(m0, cr3, u)) ==>
      (Visible(m, d, framebuffer, bytes, PAGE_DEFAULT)
       <==> && (forall u: page :: SharedScreen(u, framebuffer, bytes) ==> Translate(m0, cr3, u) == u)
            && (FitsPages(framebuffer, bytes) || framebuffer + bytes <= 4096 * ENTRIES
                || HEAP <= ScreenEnd(framebuffer, bytes) < HEAP + SHARED_PAGES))
  }

  /** A page of the screen that lies in the part of the heap that is shared. */
  predicate SharedScreen(u: page, framebuffer: u32, bytes: u32) {
    HoldsScreen(u, framebuffer, bytes) && HEAP <= u < HEAP + SHARED_PAGES
  }

  lemma SpaceShowsScreen(m0: Memory, cr3: frame, m1: Memory, m2: Memory, m3: Memory, dirs: set<frame>, d: frame,
                         framebuffer: u32, bytes: u32)
    requires ChangesOnly(m1, m2, dirs, cr3, d, framebuffer / 4096, ScreenEnd(framebuffer, bytes), PAGE_DEFAULT)
    requires ChangesOnly(m2, m3, dirs, cr3, d, HEAP, HEAP + SHARED_PAGES, PAGE_DEFAULT)
    requires SelfMapped(m1, d) && forall i :: 0 <= i < SELF ==> (HasTable(m1, d, i) <==> i == 0)
    requires Identity(m3, d, 0, ENTRIES, PAGE_DEFAULT) && Shares(m0, cr3, m3, d, HEAP, HEAP + SHARED_PAGES)
    requires forall u: page :: OnScreen(u, framebuffer, bytes) && !(HEAP <= u < HEAP + SHARED_PAGES) ==>
      Walk(m3, d, u) == Some(Entry(u, PAGE_DEFAULT))
    ensures ScreenOfSpace(m0, cr3, m3, d, framebuffer, bytes)
  {
    hide Walk, Visible, FitsPages, HoldsScreen, OnScreen, HasTable, Entry, ChangesOnly;
    if framebuffer + bytes <= 4096 * PT_PAGE
       && forall u: page :: SharedScreen(u, framebuffer, bytes) ==> Mapped(m0, cr3, u) {
      NothingElseMapped(m1, m2, m3, dirs, cr3, d, framebuffer / 4096, ScreenEnd(framebuffer, bytes),
                        HEAP, HEAP + SHARED_PAGES, PAGE_DEFAULT);
      MissedPageUnmapped(m3, d, framebuffer / 4096, ScreenEnd(framebuffer, bytes), HEAP, HEAP + SHARED_PAGES);
      VisibleExactly(m3, d, framebuffer, bytes, HEAP, HEAP + SHARED_PAGES, PAGE_DEFAULT);
      forall u: page | SharedScreen(u, framebuffer, bytes)
        ensures AtItself(m3, d, u, PAGE_DEFAULT) <==> Translate(m0, cr3, u) == u
      {
        EntryParts(u, PAGE_DEFAULT);
        EntryParts(Translate(m0, cr3, u), PAGE_DEFAULT);
      }
    }
  }

  /** The two loops of `create_pd`: the screen, then the heap. */
  method Furnish(mmu: Mmu, framebuffer: u32, bytes: u32, ghost m0: Memory, ghost dirs: set<frame>) returns (r: int)
    requires mmu.Valid() && ScreenEnd(framebuffer, bytes) <= PT_PAGE
    requires mmu.IsDirectory(FOREIGN_PD) && mmu.cr3 in dirs
    requires mmu.dirs == dirs + {mmu.Directory(FOREIGN_PD)} && mmu.Directory(FOREIGN_PD) !in dirs
    requires SpacesKept(m0, mmu.mem, dirs, mmu.cr3) && SelfMapped(m0, mmu.cr3)
    requires forall i :: HEAP / ENTRIES <= i < (HEAP + SHARED_PAGES) / ENTRIES ==> HasTable(m0, mmu.cr3, i)
    requires Identity(mmu.mem, mmu.Directory(FOREIGN_PD), 0, ENTRIES, PAGE_DEFAULT)
    requires forall i :: 0 <= i < SELF ==> (HasTable(mmu.mem, mmu.Directory(FOREIGN_PD), i) <==> i == 0)
    requires TablesUnder(mmu.mem, mmu.Directory(FOREIGN_PD), PAGE_DEFAULT)
    modifies mmu, mmu.frames, mmu.frames.bitmap
    ensures mmu.Valid() && mmu.SameSpaces(old(mmu.dirs), old(mmu.cr3))
    ensures SpacesKept(m0, mmu.mem, dirs, mmu.cr3)
    ensures DataKept(old(mmu.mem), mmu.dirs, mmu.mem, mmu.dirs, old(mmu.Limit()))
    ensures r == 0 || r == -1
    ensures
      var tables := ScreenTables(framebuffer, bytes) + TablesBeside(framebuffer, bytes, SHARED_PAGES);
      && (r == -1 <==> old(mmu.frames.next) + tables > mmu.frames.maxPages)
      && mmu.frames.next == Min(mmu.frames.maxPages, old(mmu.frames.next) + tables)
    ensures r == 0 ==> ScreenOfSpace(m0, mmu.cr3, mmu.mem, old(mmu.Directory(FOREIGN_PD)), framebuffer, bytes)
    ensures r == 0 ==>
      && MapsOnly(mmu.mem, old(mmu.Directory(FOREIGN_PD)), framebuffer / 4096, ScreenEnd(framebuffer, bytes),
                  HEAP, HEAP + SHARED_PAGES)
      && KernelOnly(mmu.mem, old(mmu.Directory(FOREIGN_PD)))
    ensures r == 0 ==>
      && Identity(mmu.mem, old(mmu.Directory(FOREIGN_PD)), 0, ENTRIES, PAGE_DEFAULT)
      && (forall u: page :: OnScreen(u, framebuffer, bytes) && !(HEAP <= u < HEAP + SHARED_PAGES) ==>
            Walk(mmu.mem, old(mmu.Directory(FOREIGN_PD)), u) == Some(Entry(u, PAGE_DEFAULT)))
      && Shares(m0, mmu.cr3, mmu.mem, old(mmu.Directory(FOREIGN_PD)), HEAP, HEAP + SHARED_PAGES)
  {
    hide Walk, ChangesOnly, SpacesKept, Identity, Shares, WellFormed, Entry, HasTable, SelfMapped, NewTables;
    hide DataKept, TablesBeside, TablesFor, ScreenEnd, ScreenOfSpace, TablesUnder, MapsOnly, KernelOnly;
    ghost var d, m1, cr3, all, limit := mmu.Directory(FOREIGN_PD), mmu.mem, mmu.cr3, mmu.dirs, mmu.Limit();
    ghost var first, end := framebuffer / 4096, ScreenEnd(framebuffer, bytes);
    WindowIsMapped(m1, cr3);
    NewTablesCounted(m1, d, first, end);
    NeverNegative(framebuffer, bytes);
    mmu.DirectoryShown(FOREIGN_PD);
    r := mmu.MapFramebuffer(FOREIGN_PD, framebuffer, bytes);
    ghost var m2, limit2 := mmu.mem, mmu.Limit();
    KeptByEdits(m1, m2, dirs, cr3, d, first, end);
    KeptTwice(m0, m1, m2, dirs, cr3);
    if r < 0 {
      return;
    }
    mmu.DirectoryShown(PD_PAGE);
    mmu.DirectoryShown(FOREIGN_PD);
    TablesAfterScreen(m1, m2, all, cr3, d, framebuffer, bytes, SHARED_PAGES);
    HeapStillThere(m0, m2, dirs, cr3);
    WindowIsMapped(m2, cr3);
    r := ShareHeap(mmu, m0);
    DataKeptTwice(m1, all, m2, all, mmu.mem, all, limit, limit2);
    KeptByEdits(m2, mmu.mem, dirs, cr3, d, HEAP, HEAP + SHARED_PAGES);
    KeptTwice(m0, m2, mmu.mem, dirs, cr3);
    if r == 0 {
      IdentityKept(m1, m2, mmu.mem, all, cr3, d, first, end, HEAP, HEAP + SHARED_PAGES, PAGE_DEFAULT);
      mmu.DirectoryShown(FOREIGN_PD);
      SpaceShowsScreen(m0, cr3, m1, m2, mmu.mem, all, d, framebuffer, bytes);
      SpaceForKernel(m0, m1, m2, mmu.mem, all, cr3, d, first, end);
    }
  }

  /** All that a new space maps is for the kernel, and it is what it was to map. */
  lemma SpaceForKernel(m0: Memory, m1: Memory, m2: Memory, m3: Memory, dirs: set<frame>, cr3: frame, d: frame,
                       first: int, end: int)
    requires ChangesOnly(m1, m2, dirs, cr3, d, first, end, PAGE_DEFAULT)
    requires ChangesOnly(m2, m3, dirs, cr3, d, HEAP, HEAP + SHARED_PAGES, PAGE_DEFAULT)
    requires SelfMapped(m1, d) && SelfMapped(m2, d) && SelfMapped(m3, d) && TablesUnder(m1, d, PAGE_DEFAULT)
    requires forall i :: 0 <= i < SELF ==> (HasTable(m1, d, i) <==> i == 0)
    requires Identity(m3, d, 0, ENTRIES, PAGE_DEFAULT) && Shares(m0, cr3, m3, d, HEAP, HEAP + SHARED_PAGES)
    requires forall u: page :: first <= u < end && !(HEAP <= u < HEAP + SHARED_PAGES) ==>
      Walk(m3, d, u) == Some(Entry(u, PAGE_DEFAULT))
    ensures MapsOnly(m3, d, first, end, HEAP, HEAP + SHARED_PAGES) && KernelOnly(m3, d)
  {
    hide Walk, Entry, HasTable, SelfMapped, TablesUnder, NeedsTable, Under, KernelPage;
    NothingElseMapped(m1, m2, m3, dirs, cr3, d, first, end, HEAP, HEAP + SHARED_PAGES, PAGE_DEFAULT);
    TablesStayUnder(m1, m2, dirs, cr3, d, first, end, PAGE_DEFAULT);
    TablesStayUnder(m2, m3, dirs, cr3, d, HEAP, HEAP + SHARED_PAGES, PAGE_DEFAULT);
    forall u: page | u / ENTRIES != SELF && Mapped(m3, d, u)
      ensures Under(Walk(m3, d, u).value, PAGE_DEFAULT)
    {
      EntryWord(Translate(m3, d, u), PAGE_DEFAULT);
      EntryWord(u, PAGE_DEFAULT);
    }
    UnderKernelFlags(m3, d, PAGE_DEFAULT);
  }

  lemma WindowIsMapped(m: Memory, cr3: frame)
    requires Mapped(m, cr3, FOREIGN_PD)
    ensures HasTable(m, cr3, WINDOW_TABLE)
  {
  }

  lemma HeapStillThere(m0: Memory, m: Memory, dirs: set<frame>, cr3: frame)
    requires SpacesKept(m0, m, dirs, cr3) && SelfMapped(m0, cr3) && SelfMapped(m, cr3)
    requires forall i :: HEAP / ENTRIES <= i < (HEAP + SHARED_PAGES) / ENTRIES ==> HasTable(m0, cr3, i)
    ensures forall i :: HEAP / ENTRIES <= i < (HEAP + SHARED_PAGES) / ENTRIES ==> HasTable(m, cr3, i)
    ensures forall u: page :: HEAP <= u < HEAP + SHARED_PAGES ==> Walk(m, cr3, u) == Walk(m0, cr3, u)
  {
    forall i | HEAP / ENTRIES <= i < (HEAP + SHARED_PAGES) / ENTRIES
      ensures HasTable(m, cr3, i)
    {
      KeptTables(m0, m, dirs, cr3, i);
    }
    hide Walk;
  }

  /** `create_pd`. The directory it returns maps the first 4 MiB and the screen to
      themselves and shares the first 16 MiB of the kernel's heap, all for the kernel only,
      and maps nothing else; no other address space notices, except at the kernel's two
      windows, and no frame that holds data changes. */
  method CreatePd(mmu: Mmu, framebuffer: u32, bytes: u32) returns (phys: u32)
    requires mmu.Valid() && ScreenEnd(framebuffer, bytes) <= PT_PAGE
    requires forall i :: HEAP / ENTRIES <= i < (HEAP + SHARED_PAGES) / ENTRIES ==> HasTable(mmu.mem, mmu.cr3, i)
    modifies mmu, mmu.frames, mmu.frames.bitmap
    ensures mmu.Valid() && mmu.cr3 == old(mmu.cr3)
    ensures SpacesKept(old(mmu.mem), mmu.mem, old(mmu.dirs), mmu.cr3)
    ensures DataKept(old(mmu.mem), old(mmu.dirs), mmu.mem, mmu.dirs, old(mmu.Limit()))
    ensures phys == 0 <==> old(mmu.frames.next + SpaceCost(mmu.mem, mmu.cr3, framebuffer, bytes)) > mmu.frames.maxPages
    ensures mmu.frames.next
         == Min(mmu.frames.maxPages, old(mmu.frames.next + SpaceCost(mmu.mem, mmu.cr3, framebuffer, bytes)))
    ensures phys != 0 ==> ScreenOfSpace(old(mmu.mem), mmu.cr3, mmu.mem, FrameOf(phys), framebuffer, bytes)
    ensures phys == 0 ==> mmu.frames.next == mmu.frames.maxPages && mmu.dirs == old(mmu.dirs)
    ensures phys != 0 ==>
      && MapsOnly(mmu.mem, FrameOf(phys), framebuffer / 4096, ScreenEnd(framebuffer, bytes),
                  HEAP, HEAP + SHARED_PAGES)
      && KernelOnly(mmu.mem, FrameOf(phys))
    ensures phys != 0 ==>
      && phys == 4096 * old(mmu.Limit()) && mmu.dirs == old(mmu.dirs) + {FrameOf(phys)}
      && Identity(mmu.mem, FrameOf(phys), 0, ENTRIES, PAGE_DEFAULT)
      && (forall u: page :: OnScreen(u, framebuffer, bytes) && !(HEAP <= u < HEAP + SHARED_PAGES) ==>
            Walk(mmu.mem, FrameOf(phys), u) == Some(Entry(u, PAGE_DEFAULT)))
      && Shares(old(mmu.mem), mmu.cr3, mmu.mem, FrameOf(phys), HEAP, HEAP + SHARED_PAGES)
  {
    hide Walk, ChangesOnly, SpacesKept, Identity, Shares, Entry, HasTable, SelfMapped, NewTables;
    hide DataKept, TablesBeside, TablesFor, ScreenEnd, ScreenOfSpace, WindowCost, TablesUnder, MapsOnly, KernelOnly;
    NeverNegative(framebuffer, bytes);
    ghost var m0, dirs, limit := mmu.mem, mmu.dirs, mmu.Limit();
    mmu.DirectoryShown(PD_PAGE);
    phys := NewSpace(mmu);
    if phys == 0 {
      return;
    }
    ghost var m1, all, limit1 := mmu.mem, mmu.dirs, mmu.Limit();
    var r := Furnish(mmu, framebuffer, bytes, m0, dirs);
    DataKeptTwice(m0, dirs, m1, all, mmu.mem, all, limit, limit1);
    if r < 0 {
      SpaceDropped(mmu.mem, dirs, mmu.Limit(), FrameOf(phys));
      DropKeepsData(mmu.mem, dirs, FrameOf(phys), limit);
      DataKeptTwice(m0, dirs, mmu.mem, all, mmu.mem, dirs, limit, limit);
      mmu.dirs := dirs;
      return 0;
    }
  }
}
