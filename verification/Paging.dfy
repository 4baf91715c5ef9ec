/** kernel/mmap.c: editing page tables through the very map they define. */
module Paging {
  import opened DataFrames
  import opened MachineWords
  import opened Options
  import opened FrameAllocation
  import opened HeapMapping
  import opened PageTables
  import opened Protection
  import opened Spans

  const PAGE_DEFAULT: u32 := 3
  /** The page at which the kernel sees the directory of the task it is building. */
  const FOREIGN_PD: page := 0xF_0000
  const POOL: int := 0x400
  const BOOT_PD: frame := 0x80
  const HEAP: page := 0xE_0000
  const HEAP_PAGES: int := 0x1_0000

  /** The tables that the screen takes, next to the first one. */
  function ScreenTables(framebuffer: u32, bytes: u32): nat {
    TablesFor(framebuffer / 4096, ScreenEnd(framebuffer, bytes))
  }

  /** The tables that so many pages of the heap take then, less those shared with the screen. */
  function TablesBeside(framebuffer: u32, bytes: u32, pages: nat): int {
    var first, end := framebuffer / 4096, ScreenEnd(framebuffer, bytes);
    Uncovered(HEAP / ENTRIES, (HEAP + pages) / ENTRIES, first / ENTRIES,
              if first < end then (end - 1) / ENTRIES + 1 else 0)
  }

  /** The frames that start-up takes: the first table, the screen's, the heap's, and the heap. */
  function BootCost(framebuffer: u32, bytes: u32): int {
    1 + ScreenTables(framebuffer, bytes) + HEAP_PAGES + TablesBeside(framebuffer, bytes, HEAP_PAGES)
  }

  /** `flags | PAGE_PRESENT` */
  function WithPresent(flags: u32): u32 {
    if flags % 2 == 1 then flags else flags + 1
  }

  /** The word is present, whatever the flags say of that, and otherwise under them. */
  predicate PresentUnder(entry: u32, flags: u32) {
    entry % 2 == 1 && entry % 4096 / 2 == flags % 4096 / 2
  }

  lemma WithPresentBits(flags: u32)
    ensures WithPresent(flags) % 2 == 1 && WithPresent(flags) / 2 == flags / 2
    ensures forall entry: u32 :: Under(entry, WithPresent(flags)) ==> PresentUnder(entry, flags)
  {
  }

  /** The pages lo..hi are present, under these flags. */
  ghost predicate RunUnder(m: Memory, d: frame, lo: int, hi: int, flags: u32) {
    forall u: page :: lo <= u < hi ==> Mapped(m, d, u) && PresentUnder(Walk(m, d, u).value, flags)
  }

  lemma BackedUnder(m: Memory, d: frame, lo: int, hi: int, from: int, to: int, flags: u32)
    requires Backed(m, d, lo, hi, from, to, WithPresent(flags))
    ensures RunUnder(m, d, lo, hi, flags)
  {
    hide Walk, PresentUnder, Under, Entry, WithPresent;
    WithPresentBits(flags);
    forall u: page | lo <= u < hi
      ensures Mapped(m, d, u) && PresentUnder(Walk(m, d, u).value, flags)
    {
      EntryWord(Translate(m, d, u), WithPresent(flags));
    }
  }

  class Mmu {
    const frames: FrameAllocator
    var mem: Memory
    var cr3: frame
    /** The directories of all address spaces. */
    ghost var dirs: set<frame>

    /** Frames at or above the limit have never been handed out. */
    ghost function Limit(): int
      reads frames
    {
      POOL + frames.next
    }

    ghost predicate Valid()
      reads this, frames, frames.bitmap
    {
      && frames.Valid() && POOL + frames.maxPages < 0x10_0000
      && cr3 in dirs && WellFormed(mem, dirs, Limit())
    }

    constructor (m: Memory, availableMemory: u32)
      ensures mem == m && fresh(frames) && fresh(frames.bitmap) && frames.Valid()
      ensures frames.next == 0 && frames.maxPages == MaxPages(availableMemory)
    {
      mem := m;
      frames := new FrameAllocator(availableMemory);
      cr3 := 0;
      dirs := {};
    }

    // ------------------------------------------------- virtual accesses

    method LoadWord(v: page, k: int) returns (w: u32)
      requires 0 <= k < ENTRIES && Mapped(mem, cr3, v)
      ensures w == mem[Translate(mem, cr3, v)][k]
    {
      w := mem[Translate(mem, cr3, v)][k];
    }

    method StoreWord(v: page, k: int, w: u32)
      requires 0 <= k < ENTRIES && Mapped(mem, cr3, v)
      modifies `mem
      ensures mem == Store(old(mem), old(Translate(mem, cr3, v)), k, w)
    {
      mem := Store(mem, Translate(mem, cr3, v), k, w);
    }

    /** `memset(p, 0, PAGE_SIZE)` of a page that is not one of the tables on its own path. */
    method ZeroPage(v: page)
      requires Mapped(mem, cr3, v)
      requires Translate(mem, cr3, v) != cr3 && Translate(mem, cr3, v) != Table(mem, cr3, v / ENTRIES)
      modifies `mem
      ensures mem == old(mem)[old(Translate(mem, cr3, v)) := Zeroes()]
    {
      ghost var f := Translate(mem, cr3, v);
      for k := 0 to ENTRIES
        invariant Walk(mem, cr3, v) == old(Walk(mem, cr3, v))
        invariant mem[cr3] == old(mem[cr3])
        invariant mem == old(mem)[f := mem[f]]
        invariant forall j :: 0 <= j < k ==> mem[f][j] == 0
      {
        StoreOffPath(mem, cr3, v, f, k, 0);
        StoreWord(v, k, 0);
      }
      assert mem[f] == Zeroes();
    }

    // -------------------------------------------------------- page tables

    /** A directory pointer of the kernel: the loaded directory through its
        self-map, or another one where the kernel has mapped it. */
    ghost predicate IsDirectory(pd: page)
      reads this
    {
      pd == PD_PAGE
      || (pd == FOREIGN_PD && Mapped(mem, cr3, pd) && Translate(mem, cr3, pd) in dirs - {cr3})
    }

    ghost function Directory(pd: page): frame
      requires IsDirectory(pd)
      reads this
    {
      if pd == PD_PAGE then cr3 else Translate(mem, cr3, pd)
    }

    /** `alloc_page`, whose frame no address space has seen. */
    method AllocPage() returns (phys: u32)
      requires Valid()
      modifies frames, frames.bitmap
      ensures Valid()
      ensures phys == 0 ==> frames.next == old(frames.next) == frames.maxPages
      ensures phys != 0 ==> phys == 4096 * old(Limit()) && frames.next == old(frames.next) + 1
    {
      phys := frames.AllocPage();
    }

    lemma DirectoryShown(pd: page)
      requires Valid() && IsDirectory(pd)
      ensures Mapped(mem, cr3, pd) && Translate(mem, cr3, pd) == Directory(pd)
      ensures Reachable(mem, dirs, cr3, Directory(pd)) && SelfMapped(mem, Directory(pd))
    {
      SelfMapShows(mem, cr3, 0);
    }

    method GetPageTable(pd: page, i: int) returns (pt: page)
      requires Valid() && IsDirectory(pd)
      requires 0 <= i < SELF && HasTable(mem, Directory(pd), i)
      modifies this, frames, frames.bitmap
      ensures Valid() && cr3 == old(cr3) && dirs == old(dirs) && frames.next == old(frames.next)
      ensures (mem, pt) == old(Shown(mem, cr3, Directory(pd), i, PAGE_DEFAULT))
      decreases if pd == PD_PAGE then 0 else 1, 0
    {
      hide Walk, WellFormed, MapLaw, DataKept, Store, Entry, Unused;
      DirectoryShown(pd);
      SameEdit(mem, cr3, WINDOW, Entry(Table(mem, Directory(pd), i), PAGE_DEFAULT), Entry(Limit(), PAGE_DEFAULT), 0);
      hide WithPage;
      if pd == PD_PAGE {
        return PT_PAGE + i;
      }
      pt := 0;
      var entry := LoadWord(pd, i);
      var r := MapPage(PD_PAGE, 4096 * FrameOf(entry), 4096 * WINDOW, PAGE_DEFAULT);
      if r >= 0 {
        pt := WINDOW;
      }
    }

    /** `pd[i] = alloc_page() | flags`, unless no frame is left. */
    method EnterTable(pd: page, i: int, flags: u32) returns (ok: bool)
      requires Valid() && IsDirectory(pd) && 0 <= i < SELF
      requires Present(flags) && !HasTable(mem, Directory(pd), i)
      modifies this, frames, frames.bitmap
      ensures Valid() && IsDirectory(pd) && Directory(pd) == old(Directory(pd))
      ensures cr3 == old(cr3) && dirs == old(dirs)
      ensures ok <==> old(frames.next) < frames.maxPages
      ensures !ok ==> mem == old(mem) && frames.next == old(frames.next)
      ensures ok ==> frames.next == old(frames.next) + 1
      ensures ok ==> mem == old(Store(mem, Directory(pd), i, Entry(Limit(), flags)))
    {
      ghost var m, d, limit := mem, Directory(pd), Limit();
      DirectoryShown(pd);
      var table := AllocPage();
      if table == 0 {
        return false;
      }
      assert FrameOf(table) == limit;
      EntryParts(limit, flags);
      StoreWord(pd, i, Entry(FrameOf(table), flags));
      DirectoryWordStored(m, dirs, limit, cr3, d, ENTRIES * i, Entry(limit, flags));
      return true;
    }

    /** The branch of `map_page` that makes the missing table. */
    method AddTable(pd: page, i: int, flags: u32) returns (pt: page)
      requires Valid() && IsDirectory(pd) && 0 <= i < SELF
      requires Present(flags) && !HasTable(mem, Directory(pd), i)
      modifies this, frames, frames.bitmap
      ensures Valid() && cr3 == old(cr3) && dirs == old(dirs)
      ensures old(frames.next) == frames.maxPages ==> pt == 0 && mem == old(mem) && frames.next == old(frames.next)
      ensures old(frames.next) < frames.maxPages ==>
        && frames.next == old(frames.next) + 1
        && (mem, pt) == old(Ready(mem, cr3, Directory(pd), i, Entry(Limit(), flags), PAGE_DEFAULT))
      decreases if pd == PD_PAGE then 0 else 1, 1
    {
      hide Walk, Store, Shown, Ready, WellFormed, Entry, Zeroes;
      ghost var m, d, limit := mem, Directory(pd), Limit();
      ghost var dirEntry := Entry(limit, flags);
      DirectoryShown(pd);
      EntryParts(limit, flags);
      pt := 0;
      var ok := EnterTable(pd, i, flags);
      if ok {
        assert Editable(m, dirs, limit, d, ENTRIES * i, dirEntry);
        ReadyToClear(m, dirs, limit, cr3, d, i, dirEntry, PAGE_DEFAULT);
        DirectoryWordStored(m, dirs, limit, cr3, d, ENTRIES * i, dirEntry);
        pt := GetPageTable(pd, i);
        ZeroPage(pt);
      }
    }

    /** The table for page v, made if it is missing: lines 54-64 of `map_page`. */
    method TableFor(pd: page, v: page, flags: u32) returns (pt: page)
      requires Valid() && IsDirectory(pd) && v / ENTRIES != SELF
      requires Present(flags) || HasTable(mem, Directory(pd), v / ENTRIES)
      modifies this, frames, frames.bitmap
      ensures Valid() && cr3 == old(cr3) && dirs == old(dirs)
      ensures pt == 0 <==> old(!HasTable(mem, Directory(pd), v / ENTRIES) && frames.next == frames.maxPages)
      ensures pt == 0 ==> mem == old(mem) && frames.next == old(frames.next)
      ensures pt != 0 ==>
        && frames.next == old(frames.next + if HasTable(mem, Directory(pd), v / ENTRIES) then 0 else 1)
        && (mem, pt) == old(Ready(mem, cr3, Directory(pd), v / ENTRIES, Entry(Limit(), flags), PAGE_DEFAULT))
      decreases if pd == PD_PAGE then 0 else 1, 2
    {
      DirectoryShown(pd);
      var pde := LoadWord(pd, v / ENTRIES);
      if !Present(pde) {
        pt := AddTable(pd, v / ENTRIES, flags);
      } else {
        pt := GetPageTable(pd, v / ENTRIES);
      }
    }

    method MapPage(pd: page, phys: u32, virt: u32, flags: u32) returns (r: int)
      requires Valid() && IsDirectory(pd) && virt / 4096 / ENTRIES != SELF
      requires Present(flags) || HasTable(mem, Directory(pd), virt / 4096 / ENTRIES)
      modifies this, frames, frames.bitmap
      ensures Valid() && cr3 == old(cr3) && dirs == old(dirs)
      ensures r == 0 || r == -1
      ensures r == -1 <==> old(!HasTable(mem, Directory(pd), virt / 4096 / ENTRIES) && frames.next == frames.maxPages)
      ensures r == -1 ==> mem == old(mem) && frames.next == old(frames.next)
      ensures r == 0 ==>
        && frames.next == old(frames.next + if HasTable(mem, Directory(pd), virt / 4096 / ENTRIES) then 0 else 1)
        && mem == old(MapThrough(mem, cr3, Directory(pd), virt / 4096, Entry(FrameOf(phys), flags),
                                 Entry(Limit(), flags), PAGE_DEFAULT))
      ensures r == 0 ==> MapLaw(old(mem), mem, dirs, cr3, old(Directory(pd)), virt / 4096, Entry(FrameOf(phys), flags),
                                Entry(old(Limit()), flags))
      ensures r == 0 ==> var v := virt / 4096;
        && (flags % 2 == 0 ==> Walk(mem, old(Directory(pd)), v) == None)
        && (flags % 2 == 1 ==> HasWord(mem, old(Directory(pd)), v, phys / 4096, flags))
      ensures r == 0 ==> var word := mem[old(Directory(pd))][virt / 4096 / 1024];
        if old(HasTable(mem, Directory(pd), virt / 4096 / 1024))
        then word == old(mem[Directory(pd)][virt / 4096 / 1024])
        else word / 4096 == old(Limit()) && word % 4096 == flags % 4096
      ensures DataKept(old(mem), dirs, mem, dirs, old(Limit()))
      decreases if pd == PD_PAGE then 0 else 1, 3
    {
      hide Walk, WithPage, MapThrough, MapLaw, WellFormed, Store, Shown, Ready, DataKept;
      ghost var m, d, limit := mem, Directory(pd), Limit();
      DirectoryShown(pd);
      var v: page := virt / 4096;
      var pt := TableFor(pd, v, flags);
      if pt == 0 {
        DataKeptAtFirst(m, dirs, limit);
        return -1;
      }
      EntryParts(limit, flags);
      MapCompletes(m, dirs, limit, cr3, d, v, Entry(FrameOf(phys), flags), Entry(limit, flags), PAGE_DEFAULT);
      MapKeepsData(m, dirs, limit, cr3, d, v, Entry(FrameOf(phys), flags), Entry(limit, flags), PAGE_DEFAULT);
      StoreWord(pt, v % ENTRIES, Entry(FrameOf(phys), flags));
      StillSelfMapped(mem, dirs, Limit(), d);
      WordsStored(m, mem, dirs, cr3, d, v, FrameOf(phys), limit, flags);
      return 0;
    }

    // ---------------------------------------------------- runs of map_page

    ghost predicate SameSpaces(dirs0: set<frame>, cr0: frame)
      reads this
    {
      dirs == dirs0 && cr3 == cr0
    }

    /** `map_page` as the next turn of a loop over ascending pages. */
    method MapNext(pd: page, phys: u32, virt: u32, flags: u32, ghost m: Memory, ghost lo: int, ghost v: page)
      returns (r: int)
      requires Valid() && IsDirectory(pd) && lo <= v == virt / 4096 < PT_PAGE && Present(flags)
      requires ChangesOnly(m, mem, dirs, cr3, Directory(pd), lo, v, flags)
      modifies this, frames, frames.bitmap
      ensures Valid() && IsDirectory(pd) && Directory(pd) == old(Directory(pd)) && SameSpaces(old(dirs), old(cr3))
      ensures r == 0 || (r == -1 && mem == old(mem) && frames.next == frames.maxPages)
      ensures r == -1 <==> old(!HasTable(mem, Directory(pd), v / ENTRIES) && frames.next == frames.maxPages)
      ensures frames.next == old(frames.next + if HasTable(mem, Directory(pd), v / ENTRIES) then 0 else r + 1)
      ensures ChangesOnly(m, mem, dirs, cr3, Directory(pd), lo, v + 1, flags)
      ensures DataKept(old(mem), dirs, mem, dirs, old(Limit()))
      ensures r == 0 ==>
        MapLaw(old(mem), mem, dirs, cr3, Directory(pd), v, Entry(FrameOf(phys), flags), Entry(old(Limit()), flags))
    {
      hide ChangesOnly, MapThrough;
      ghost var m1, d, limit := mem, Directory(pd), Limit();
      r := MapPage(pd, phys, virt, flags);
      if r == 0 {
        EntryWord(limit, flags);
        ChangesOneMore(m, m1, mem, dirs, cr3, d, lo, v, Entry(FrameOf(phys), flags), Entry(limit, flags), flags);
      } else {
        ChangesWiden(m, mem, dirs, cr3, d, lo, v, v + 1, flags);
      }
    }

    /** One turn of the loop of `mmap`: a frame from the pool for page v. */
    method MapFresh(pd: page, virt: u32, flags: u32, ghost m: Memory, ghost lo: nat, ghost v: page, ghost limit: int)
      returns (ok: bool)
      requires Valid() && IsDirectory(pd) && lo <= v == virt / 4096 < PT_PAGE && Present(flags) && limit <= Limit()
      requires ChangesOnly(m, mem, dirs, cr3, Directory(pd), lo, v, flags)
      requires Backed(mem, Directory(pd), lo, v, limit, Limit(), flags)
      requires DataKept(m, dirs, mem, dirs, limit) && OwnFrames(mem, dirs, Directory(pd), lo, v)
      requires SelfMapped(m, Directory(pd)) && Limit() == limit + RunCost(m, Directory(pd), lo, v)
      modifies this, frames, frames.bitmap
      ensures Valid() && IsDirectory(pd) && Directory(pd) == old(Directory(pd)) && SameSpaces(old(dirs), old(cr3))
      ensures ChangesOnly(m, mem, dirs, cr3, Directory(pd), lo, v + 1, flags)
      ensures limit <= Limit() && (!ok ==> frames.next == frames.maxPages)
      ensures ok <==> limit + RunCost(m, Directory(pd), lo, v + 1) <= POOL + frames.maxPages
      ensures ok ==> Limit() == limit + RunCost(m, Directory(pd), lo, v + 1)
      ensures DataKept(m, dirs, mem, dirs, limit)
      ensures ok ==> Backed(mem, Directory(pd), lo, v + 1, limit, Limit(), flags)
      ensures ok ==> OwnFrames(mem, dirs, Directory(pd), lo, v + 1)
    {
      hide Walk, ChangesOnly, Backed, MapThrough, MapLaw, WellFormed, Entry, DataKept, OwnFrames, Unused;
      hide HasTable, SelfMapped, NewTables;
      ghost var m1, d, f := mem, Directory(pd), Limit();
      DirectoryShown(pd);
      if v > lo {
        BackedIsMapped(m1, d, lo, v, limit, f, flags);
      }
      NewTablesOneMore(m, m1, dirs, cr3, d, lo, v, flags);
      var phys := AllocPage();
      if phys == 0 {
        ChangesWiden(m, mem, dirs, cr3, d, lo, v, v + 1, flags);
        return false;
      }
      ghost var dirEntry := Entry(Limit(), flags);
      NextIsUnused(m1, dirs, f);
      var r := MapNext(pd, phys, virt, flags, m, lo, v);
      DataKeptTwice(m, dirs, m1, dirs, mem, dirs, limit, f + 1);
      if r < 0 {
        return false;
      }
      BackedOneMore(m1, mem, dirs, cr3, d, lo, v, limit, f, Limit(), flags, dirEntry);
      OwnOneMore(m1, mem, dirs, cr3, d, lo, v, limit, f, flags, dirEntry, flags);
      return true;
    }

    method Mmap(pd: page, virt: u32, len: u32, flags: u32) returns (address: u32)
      requires Valid() && IsDirectory(pd) && len <= 0xFFFF_F000
      requires virt / 4096 + (len + 4095) / 4096 <= PT_PAGE
      modifies this, frames, frames.bitmap
      ensures Valid() && IsDirectory(pd) && Directory(pd) == old(Directory(pd)) && SameSpaces(old(dirs), old(cr3))
      ensures ChangesOnly(old(mem), mem, dirs, cr3, Directory(pd),
                          virt / 4096, virt / 4096 + (len + 4095) / 4096, WithPresent(flags))
      ensures address == virt || (address == 0 && frames.next == frames.maxPages)
      ensures
        var cost := old(RunCost(mem, Directory(pd), virt / 4096, virt / 4096 + (len + 4095) / 4096));
        && (virt != 0 ==> (address == 0 <==> old(frames.next) + cost > frames.maxPages))
        && frames.next == Min(frames.maxPages, old(frames.next) + cost)
      ensures address != 0 ==>
        Backed(mem, Directory(pd), virt / 4096, virt / 4096 + (len + 4095) / 4096,
               old(Limit()), Limit(), WithPresent(flags))
      ensures address != 0 ==>
        RunUnder(mem, Directory(pd), virt / 4096, virt / 4096 + (len + 4095) / 4096, flags)
      ensures DataKept(old(mem), dirs, mem, dirs, old(Limit()))
      ensures address != 0 ==>
        OwnFrames(mem, dirs, Directory(pd), virt / 4096, virt / 4096 + (len + 4095) / 4096)
    {
      hide Walk, ChangesOnly, Backed, MapThrough, WellFormed, Entry, DataKept, OwnFrames, NewTables, SelfMapped;
      hide RunUnder;
      ghost var m, d, first, limit, end := mem, Directory(pd), virt / 4096, Limit(), virt / 4096 + (len + 4095) / 4096;
      NothingChanged(m, dirs, cr3, d, first, limit, limit, WithPresent(flags));
      DataKeptAtFirst(m, dirs, limit);
      NoFramesYet(m, dirs, d, first);
      DirectoryShown(pd);
      NoTablesYet(m, d, first);
      var i := 0;
      ghost var v := first;
      while i < len
        invariant i == 4096 * (v - first) && first <= v <= end
        invariant Valid() && IsDirectory(pd) && Directory(pd) == d
        invariant SameSpaces(old(dirs), old(cr3)) && limit <= Limit()
        invariant ChangesOnly(m, mem, dirs, cr3, d, first, v, WithPresent(flags))
        invariant Backed(mem, d, first, v, limit, Limit(), WithPresent(flags))
        invariant DataKept(m, dirs, mem, dirs, limit) && OwnFrames(mem, dirs, d, first, v)
        invariant Limit() == limit + RunCost(m, d, first, v)
      {
        assert (virt + i) % TWO32 / 4096 == v;
        var ok := MapFresh(pd, (virt + i) % TWO32, WithPresent(flags), m, first, v, limit);
        i, v := i + 4096, v + 1;
        if !ok {
          ChangesWiden(m, mem, dirs, cr3, d, first, v, end, WithPresent(flags));
          NewTablesGrow(m, d, first, v, end);
          return 0;
        }
      }
      BackedUnder(mem, d, first, end, limit, Limit(), flags);
      return virt;
    }

    /** One turn of the framebuffer loops: page v at its own address. */
    method MapSame(pd: page, a: u32, ghost m: Memory, ghost lo: nat, ghost v: page, ghost next: int) returns (r: int)
      requires Valid() && IsDirectory(pd) && lo <= v == a / 4096 < PT_PAGE
      requires SelfMapped(m, Directory(pd)) && ChangesOnly(m, mem, dirs, cr3, Directory(pd), lo, v, PAGE_DEFAULT)
      requires Identity(mem, Directory(pd), lo, v, PAGE_DEFAULT)
      requires frames.next == next + NewTables(m, Directory(pd), lo, v)
      modifies this, frames, frames.bitmap
      ensures DataKept(old(mem), dirs, mem, dirs, old(Limit()))
      ensures Valid() && IsDirectory(pd) && Directory(pd) == old(Directory(pd)) && SameSpaces(old(dirs), old(cr3))
      ensures ChangesOnly(m, mem, dirs, cr3, Directory(pd), lo, v + 1, PAGE_DEFAULT)
      ensures r == 0 || (r == -1 && frames.next == frames.maxPages)
      ensures r == -1 <==> next + NewTables(m, Directory(pd), lo, v + 1) > frames.maxPages
      ensures frames.next >= old(frames.next)
      ensures r == 0 ==>
        && Identity(mem, Directory(pd), lo, v + 1, PAGE_DEFAULT)
        && frames.next == next + NewTables(m, Directory(pd), lo, v + 1)
    {
      hide Walk, ChangesOnly, MapThrough, MapLaw, Identity, WellFormed, Entry, HasTable, NewTables;
      ghost var m1, d, dirEntry := mem, Directory(pd), Entry(Limit(), PAGE_DEFAULT);
      DirectoryShown(pd);
      if v > lo {
        IdentityIsMapped(m1, d, lo, v, PAGE_DEFAULT);
      }
      NewTablesOneMore(m, m1, dirs, cr3, d, lo, v, PAGE_DEFAULT);
      r := MapNext(pd, a, a, PAGE_DEFAULT, m, lo, v);
      if r == 0 {
        IdentityOneMore(m1, mem, dirs, cr3, d, lo, v, PAGE_DEFAULT, dirEntry);
      }
    }

    /** The loops that show a directory the framebuffer at its own address. */
    method MapFramebuffer(pd: page, framebuffer: u32, bytes: u32) returns (r: int)
      requires Valid() && IsDirectory(pd)
      requires ScreenEnd(framebuffer, bytes) <= PT_PAGE
      modifies this, frames, frames.bitmap
      ensures Valid() && IsDirectory(pd) && Directory(pd) == old(Directory(pd)) && SameSpaces(old(dirs), old(cr3))
      ensures ChangesOnly(old(mem), mem, dirs, cr3, Directory(pd),
                          framebuffer / 4096, ScreenEnd(framebuffer, bytes), PAGE_DEFAULT)
      ensures DataKept(old(mem), dirs, mem, dirs, old(Limit()))
      ensures r == 0 || r == -1
      ensures
        var tables := old(NewTables(mem, Directory(pd), framebuffer / 4096, ScreenEnd(framebuffer, bytes)));
        && (r == -1 <==> old(frames.next) + tables > frames.maxPages)
        && frames.next == Min(frames.maxPages, old(frames.next) + tables)
      ensures r == 0 ==>
        Identity(mem, Directory(pd), framebuffer / 4096, ScreenEnd(framebuffer, bytes), PAGE_DEFAULT)
    {
      hide Walk, ChangesOnly, MapThrough, MapLaw, Identity, WellFormed, Entry, SelfMapped, DataKept, NewTables;
      ghost var m, d, first, end := mem, Directory(pd), framebuffer / 4096, ScreenEnd(framebuffer, bytes);
      ghost var next, limit := frames.next, Limit();
      NothingChanged(m, dirs, cr3, d, first, 0, 0, PAGE_DEFAULT);
      NoneIdentical(m, d, first, PAGE_DEFAULT);
      DataKeptAtFirst(m, dirs, Limit());
      NoTablesYet(m, d, first);
      DirectoryShown(pd);
      var i := 0;
      ghost var v := first;
      while i < bytes
        invariant i == 4096 * (v - first) && first <= v <= end
        invariant Valid() && IsDirectory(pd) && Directory(pd) == d && SameSpaces(old(dirs), old(cr3))
        invariant ChangesOnly(m, mem, dirs, cr3, d, first, v, PAGE_DEFAULT)
        invariant DataKept(m, dirs, mem, dirs, limit) && limit <= Limit()
        invariant Identity(mem, d, first, v, PAGE_DEFAULT) && frames.next == next + NewTables(m, d, first, v)
      {
        var a: u32 := framebuffer / 4096 * 4096 + i;
        assert a / 4096 == v;
        ghost var m1, limit1 := mem, Limit();
        r := MapSame(pd, a, m, first, v, next);
        DataKeptTwice(m, dirs, m1, dirs, mem, dirs, limit, limit1);
        i, v := i + 4096, v + 1;
        if r < 0 {
          ChangesWiden(m, mem, dirs, cr3, d, first, v, end, PAGE_DEFAULT);
          NewTablesGrow(m, d, first, v, end);
          return;
        }
      }
      r := 0;
    }

    /** One turn of the heap loop of `init_paging`, whose errors nobody looks at. */
    method MapHeapPage(virt: u32, ghost m: Memory, ghost v: page, ghost limit: int, ghost next: int, ghost bad: page)
      returns (ghost bad': page)
      requires Valid() && HEAP <= v == virt / 4096 < HEAP + HEAP_PAGES && POOL <= limit == POOL + next <= Limit()
      requires SelfMapped(m, cr3) && ChangesOnly(m, mem, dirs, cr3, cr3, HEAP, v, PAGE_DEFAULT)
      requires AllRemapped(m, mem, cr3, HEAP, v, limit, Limit(), PAGE_DEFAULT)
      requires HeapSoFar(m, mem, cr3, HEAP, v - HEAP, limit, next, frames.next, frames.maxPages, PAGE_DEFAULT, bad)
      modifies this, frames, frames.bitmap
      ensures Valid() && SameSpaces(old(dirs), old(cr3)) && old(Limit()) <= Limit()
      ensures ChangesOnly(m, mem, dirs, cr3, cr3, HEAP, v + 1, PAGE_DEFAULT)
      ensures AllRemapped(m, mem, cr3, HEAP, v + 1, limit, Limit(), PAGE_DEFAULT)
      ensures HeapSoFar(m, mem, cr3, HEAP, v + 1 - HEAP, limit, next, frames.next, frames.maxPages, PAGE_DEFAULT, bad')
      ensures DataKept(old(mem), dirs, mem, dirs, old(Limit()))
    {
      hide Walk, ChangesOnly, MapThrough, MapLaw, WellFormed, Entry, HasTable, SelfMapped, DataKept;
      hide HeapCost, HeapSoFar, AllRemapped;
      ghost var m1, d, taken := mem, cr3, frames.next;
      DirectoryShown(PD_PAGE);
      bad' := if next + HeapCost(m, d, HEAP, v - HEAP) <= frames.maxPages then v else bad;
      var phys := AllocPage();
      ghost var dirEntry := Entry(Limit(), PAGE_DEFAULT);
      ghost var limit' := Limit();
      var r := MapNext(PD_PAGE, phys, virt, PAGE_DEFAULT, m, HEAP, v);
      DataKeptBelow(m1, dirs, mem, dirs, POOL + taken, limit');
      HeapOneMore(m, m1, mem, dirs, d, HEAP, v, limit, next, taken, frames.maxPages, PAGE_DEFAULT, bad,
                  FrameOf(phys), r, dirEntry);
      RemappedOneMore(m, m1, mem, dirs, d, HEAP, v, limit, POOL + taken, Limit(), PAGE_DEFAULT,
                      FrameOf(phys), r, dirEntry);
    }

    /** The heap loop of `init_paging`. Every heap page gets a frame of its own if, and only
        if, the pool can pay for the pages and the missing tables; the loop reports nothing
        when it cannot, and leaves pages that share frame 0, or none. */
    method MapHeap()
      requires Valid()
      modifies this, frames, frames.bitmap
      ensures Valid() && SameSpaces(old(dirs), old(cr3))
      ensures ChangesOnly(old(mem), mem, dirs, cr3, cr3, HEAP, HEAP + HEAP_PAGES, PAGE_DEFAULT)
      ensures AllRemapped(old(mem), mem, cr3, HEAP, HEAP + HEAP_PAGES, old(Limit()), Limit(), PAGE_DEFAULT)
      ensures Backed(mem, cr3, HEAP, HEAP + HEAP_PAGES, old(Limit()), Limit(), PAGE_DEFAULT)
         <==> old(frames.next + HeapCost(mem, cr3, HEAP, HEAP_PAGES)) <= frames.maxPages
      ensures Backed(mem, cr3, HEAP, HEAP + HEAP_PAGES, old(Limit()), Limit(), PAGE_DEFAULT)
         <==> !exists u: page :: HEAP <= u < HEAP + HEAP_PAGES && Unpaid(mem, cr3, u)
      ensures frames.next == Min(frames.maxPages, old(frames.next + HeapCost(mem, cr3, HEAP, HEAP_PAGES)))
      ensures DataKept(old(mem), dirs, mem, dirs, old(Limit()))
    {
      hide Walk, ChangesOnly, Backed, WellFormed, HeapSoFar, HasTable, HeapCost, AllRemapped, Unpaid, DataKept;
      ghost var m, limit, next := mem, Limit(), frames.next;
      NothingChanged(m, dirs, cr3, cr3, HEAP, limit, limit, PAGE_DEFAULT);
      NoneRemapped(m, cr3, HEAP, limit, limit, PAGE_DEFAULT);
      DataKeptAtFirst(m, dirs, limit);
      ghost var bad: page := 0;
      HeapBegins(mem, cr3, HEAP, limit, next, frames.maxPages, PAGE_DEFAULT, bad);
      DirectoryShown(PD_PAGE);
      var i := 0;
      while i < 0x1000_0000
        invariant 0 <= i <= 0x1000_0000 && i % 4096 == 0
        invariant Valid() && SameSpaces(old(dirs), old(cr3)) && limit <= Limit()
        invariant ChangesOnly(m, mem, dirs, cr3, cr3, HEAP, HEAP + i / 4096, PAGE_DEFAULT)
        invariant AllRemapped(m, mem, cr3, HEAP, HEAP + i / 4096, limit, Limit(), PAGE_DEFAULT)
        invariant HeapSoFar(m, mem, cr3, HEAP, i / 4096, limit, next, frames.next, frames.maxPages, PAGE_DEFAULT, bad)
        invariant DataKept(m, dirs, mem, dirs, limit)
      {
        ghost var m1, limit1 := mem, Limit();
        bad := MapHeapPage(0xE000_0000 + i, m, HEAP + i / 4096, limit, next, bad);
        DataKeptTwice(m, dirs, m1, dirs, mem, dirs, limit, limit1);
        i := i + 4096;
      }
      HeapAtEnd(m, mem, cr3, HEAP, HEAP_PAGES, limit, next, frames.next, frames.maxPages, PAGE_DEFAULT, bad);
    }

    /** `init_paging` up to the loading of `cr3`: paging is off, and the first directory
        and its first table are written at their physical addresses. */
    method BootTables() returns (ok: bool)
      requires frames.Valid() && frames.next == 0 && POOL + frames.maxPages < 0x10_0000
      modifies this, frames, frames.bitmap
      ensures !ok <==> frames.maxPages == 0
      ensures !ok ==> frames.next == frames.maxPages
      ensures ok ==> Valid() && frames.next == 1 && SameSpaces({BOOT_PD}, BOOT_PD)
      ensures ok ==> FirstDirectory(mem, BOOT_PD, POOL, PAGE_DEFAULT)
    {
      hide WellFormed, Entry;
      mem := mem[BOOT_PD := Zeroes()];
      var firstTable := frames.AllocPage();
      if firstTable == 0 {
        return false;
      }
      var table: frame := FrameOf(firstTable);
      mem := mem[table := Zeroes()];
      for i := 0 to ENTRIES
        modifies `mem
        invariant mem[BOOT_PD] == Zeroes()
        invariant forall j :: 0 <= j < i ==> mem[table][j] == Entry(j, PAGE_DEFAULT)
      {
        mem := Store(mem, table, i, Entry(i, PAGE_DEFAULT));
      }
      mem := Store(mem, BOOT_PD, 0, Entry(table, PAGE_DEFAULT));
      mem := Store(mem, BOOT_PD, SELF, Entry(BOOT_PD, PAGE_DEFAULT));
      cr3 := BOOT_PD;
      dirs := {BOOT_PD};
      FirstDirectoryIsWellFormed(mem, BOOT_PD, table, Limit(), PAGE_DEFAULT);
      return true;
    }

    /** `init_paging` after `cr3` is loaded: the screen, then the heap. */
    method MapBoot(framebuffer: u32, bytes: u32) returns (r: int)
      requires Valid() && frames.next == 1 && Identity(mem, cr3, 0, ENTRIES, PAGE_DEFAULT)
      requires ScreenEnd(framebuffer, bytes) <= PT_PAGE
      requires forall i :: 0 <= i < SELF ==> (HasTable(mem, cr3, i) <==> i == 0)
      requires TablesUnder(mem, cr3, PAGE_DEFAULT)
      modifies this, frames, frames.bitmap
      ensures Valid() && SameSpaces(old(dirs), old(cr3))
      ensures r == 0 || (r == -1 && frames.next == frames.maxPages)
      ensures r == -1 <==> frames.maxPages < 1 + ScreenTables(framebuffer, bytes)
      ensures r == 0 ==> Booted(framebuffer, bytes)
      ensures DataKept(old(mem), dirs, mem, dirs, old(Limit()))
    {
      hide Walk, ChangesOnly, Identity, WellFormed, Backed, NewTables, SelfMapped, TablesFor, Entry, ScreenEnd;
      hide HasTable, Uncovered, HeapCost, AllRemapped, Unpaid, Visible, FitsPages, ClearOf;
      hide TablesUnder, MapsOnly, KernelOnly, DataKept;
      ghost var m0, first, end := mem, framebuffer / 4096, ScreenEnd(framebuffer, bytes);
      NewTablesCounted(m0, cr3, first, end);
      DirectoryShown(PD_PAGE);
      r := MapFramebuffer(PD_PAGE, framebuffer, bytes);
      if r < 0 {
        return;
      }
      ghost var m1, limit := mem, Limit();
      DirectoryShown(PD_PAGE);
      TablesAfterScreen(m0, m1, dirs, cr3, cr3, framebuffer, bytes, HEAP_PAGES);
      HeapCostIs(m1, cr3, HEAP, HEAP_PAGES);
      MapHeap();
      DataKeptTwice(m0, dirs, m1, dirs, mem, dirs, POOL + 1, limit);
      IdentityKept(m0, m1, mem, dirs, cr3, cr3, first, end, HEAP, HEAP + HEAP_PAGES, PAGE_DEFAULT);
      DirectoryShown(PD_PAGE);
      BootedForKernel(m0, m1, mem, dirs, cr3, first, end, limit, Limit());
      BootCostBound(framebuffer, bytes);
      ScreenInHeap(m1, mem, cr3, framebuffer, bytes, limit, Limit());
      if framebuffer + bytes <= 4096 * PT_PAGE {
        ScreenOutsideHeap(m0, m1, mem, dirs, cr3, framebuffer, bytes, limit, Limit());
      }
    }

    /** What start-up leaves: 4 MiB at their own addresses; the heap, exactly when the memory
        can hold it; and the screen, exactly when it keeps clear of the heap, whose loop
        takes pages away from it, and has no page that its own loop misses. Nothing else is
        mapped, and all that is, for the kernel only. */
    ghost predicate Booted(framebuffer: u32, bytes: u32)
      reads this, frames
    {
      && frames.next == Min(frames.maxPages, BootCost(framebuffer, bytes))
      && Identity(mem, cr3, 0, ENTRIES, PAGE_DEFAULT)
      && MapsOnly(mem, cr3, framebuffer / 4096, ScreenEnd(framebuffer, bytes), HEAP, HEAP + HEAP_PAGES)
      && KernelOnly(mem, cr3)
      && HeapBooted(framebuffer, bytes)
      && ScreenBooted(framebuffer, bytes)
    }

    ghost predicate HeapBooted(framebuffer: u32, bytes: u32)
      reads this, frames
    {
      && (Backed(mem, cr3, HEAP, HEAP + HEAP_PAGES, POOL + 1 + ScreenTables(framebuffer, bytes), Limit(), PAGE_DEFAULT)
          <==> BootCost(framebuffer, bytes) <= frames.maxPages)
      && ((exists u: page :: HEAP <= u < HEAP + HEAP_PAGES && Unpaid(mem, cr3, u))
          <==> BootCost(framebuffer, bytes) > frames.maxPages)
    }

    ghost predicate ScreenBooted(framebuffer: u32, bytes: u32)
      reads this, frames
    {
      && (forall u: page :: OnScreen(u, framebuffer, bytes) && !(HEAP <= u < HEAP + HEAP_PAGES) ==>
            AtItself(mem, cr3, u, PAGE_DEFAULT))
      && (forall u: page :: OnScreen(u, framebuffer, bytes) && HEAP <= u < HEAP + HEAP_PAGES ==>
            && Mapped(mem, cr3, u) && Translate(mem, cr3, u) != u
            && (Translate(mem, cr3, u) == 0 || POOL < Translate(mem, cr3, u) < Limit()))
      && (framebuffer + bytes <= 4096 * PT_PAGE ==>
            (Visible(mem, cr3, framebuffer, bytes, PAGE_DEFAULT)
             <==> && ClearOf(framebuffer, bytes, HEAP, HEAP + HEAP_PAGES)
                  && (FitsPages(framebuffer, bytes) || framebuffer + bytes <= 4096 * ENTRIES)))
    }

    lemma HeapOfBooted(framebuffer: u32, bytes: u32)
      requires Booted(framebuffer, bytes)
      ensures
        Backed(mem, cr3, HEAP, HEAP + HEAP_PAGES, POOL + 1 + ScreenTables(framebuffer, bytes), Limit(), PAGE_DEFAULT)
        <==> BootCost(framebuffer, bytes) <= frames.maxPages
    {
    }

    /** `init_paging`. It fails exactly when there are not even the frames for the tables
        of the screen. */
    method InitPaging(ghost availableMemory: u32, framebuffer: u32, bytes: u32) returns (r: int)
      requires frames.Valid() && frames.next == 0
      requires 0x40_0000 <= availableMemory && frames.maxPages == MaxPages(availableMemory)
      requires ScreenEnd(framebuffer, bytes) <= PT_PAGE
      modifies this, frames, frames.bitmap
      ensures r == 0 || (r == -1 && frames.next == frames.maxPages)
      ensures r == -1 <==> availableMemory < 0x40_0000 + 4096 * (1 + ScreenTables(framebuffer, bytes))
      ensures r == 0 ==> Valid() && SameSpaces({BOOT_PD}, BOOT_PD) && Booted(framebuffer, bytes)
      ensures r == 0 ==>
        (Backed(mem, cr3, HEAP, HEAP + HEAP_PAGES, POOL + 1 + ScreenTables(framebuffer, bytes), Limit(), PAGE_DEFAULT)
         <==> 0x40_0000 + 4096 * BootCost(framebuffer, bytes) <= availableMemory)
      ensures r == 0 ==> Unused(mem, dirs, 0)
    {
      hide Booted, Backed, TablesUnder, FirstDirectory, DataKept, Unused;
      PoolHolds(availableMemory, 1 + ScreenTables(framebuffer, bytes));
      PoolHolds(availableMemory, BootCost(framebuffer, bytes));
      BootCostBound(framebuffer, bytes);
      var ok := BootTables();
      if !ok {
        return -1;
      }
      FirstDirectoryIsWellFormed(mem, cr3, POOL, Limit(), PAGE_DEFAULT);
      FirstTablesUnder(mem, cr3, POOL, PAGE_DEFAULT);
      FirstDirectoryUses(mem, cr3, POOL, PAGE_DEFAULT, 0);
      ghost var m := mem;
      r := MapBoot(framebuffer, bytes);
      StaysUnused(m, mem, dirs, POOL + 1, 0);
      if r == 0 {
        HeapOfBooted(framebuffer, bytes);
      }
    }
  }

  /** The tables that pages of the heap take once the screen is mapped. */
  lemma TablesAfterScreen(m0: Memory, m1: Memory, dirs: set<frame>, cr3: frame, d: frame,
                          framebuffer: u32, bytes: u32, pages: nat)
    requires ScreenEnd(framebuffer, bytes) <= PT_PAGE && HEAP + pages <= PT_PAGE && pages % ENTRIES == 0
    requires ChangesOnly(m0, m1, dirs, cr3, d, framebuffer / 4096, ScreenEnd(framebuffer, bytes), PAGE_DEFAULT)
    requires Identity(m1, d, framebuffer / 4096, ScreenEnd(framebuffer, bytes), PAGE_DEFAULT)
    requires SelfMapped(m0, d) && SelfMapped(m1, d)
    requires forall i :: 0 <= i < SELF ==> (HasTable(m0, d, i) <==> i == 0)
    ensures NewTables(m1, d, HEAP, HEAP + pages) == TablesBeside(framebuffer, bytes, pages)
  {
    hide ChangesOnly, Identity, SelfMapped, HasTable, NewTables, Missing, Uncovered, ScreenEnd;
    var a, b := HEAP / ENTRIES, (HEAP + pages) / ENTRIES;
    var first, end := framebuffer / 4096, ScreenEnd(framebuffer, bytes);
    TablesOfRun(m0, m1, dirs, cr3, d, first, end, a, b, PAGE_DEFAULT);
    NewTablesMissing(m1, d, a, HEAP + pages);
    MissingCounted(m1, d, a, b, first / ENTRIES, if first < end then (end - 1) / ENTRIES + 1 else 0);
  }

  /** Start-up takes no frame that has the number of a page of the heap. */
  lemma BootCostBound(framebuffer: u32, bytes: u32)
    requires ScreenEnd(framebuffer, bytes) <= PT_PAGE
    ensures 1 + ScreenTables(framebuffer, bytes) <= BootCost(framebuffer, bytes)
    ensures POOL + BootCost(framebuffer, bytes) < HEAP
  {
  }

  /** What start-up needs for the heap, wherever the screen is: 0x10441000 bytes at the least,
      and 0x107FF000 bytes always do. */
  lemma BootCostIs(framebuffer: u32, bytes: u32)
    requires ScreenEnd(framebuffer, bytes) <= PT_PAGE
    ensures 0x1044_1000 <= 0x40_0000 + 4096 * BootCost(framebuffer, bytes) <= 0x107F_F000
    ensures bytes == 0 ==> 0x40_0000 + 4096 * BootCost(framebuffer, bytes) == 0x1044_1000
  {
  }

  /** 64 MiB of memory cannot hold the heap, wherever the screen is. */
  lemma SmallMemory(framebuffer: u32, bytes: u32)
    ensures MaxPages(0x400_0000) == 0x3C00 < BootCost(framebuffer, bytes)
  {
  }

  /** No page of the heap lies at its own address, so that the heap loop takes those of the
      screen away from it. */
  lemma NotAtItself(m1: Memory, m2: Memory, d: frame, u: page, limit: int, to: int)
    requires Remapped(m1, m2, d, u, limit, to, PAGE_DEFAULT) && HEAP <= u < HEAP + HEAP_PAGES && to <= HEAP
    ensures !AtItself(m2, d, u, PAGE_DEFAULT) && (Mapped(m2, d, u) ==> Translate(m2, d, u) != u)
  {
    EntryParts(u, PAGE_DEFAULT);
  }

  /** The pages of the screen that the heap loop took over. */
  lemma ScreenInHeap(m1: Memory, m2: Memory, d: frame, framebuffer: u32, bytes: u32, limit: int, to: int)
    requires Identity(m1, d, framebuffer / 4096, ScreenEnd(framebuffer, bytes), PAGE_DEFAULT)
    requires AllRemapped(m1, m2, d, HEAP, HEAP + HEAP_PAGES, limit, to, PAGE_DEFAULT) && to <= HEAP
    ensures forall u: page :: OnScreen(u, framebuffer, bytes) && HEAP <= u < HEAP + HEAP_PAGES ==>
      && Mapped(m2, d, u) && Translate(m2, d, u) != u
      && (Translate(m2, d, u) == 0 || limit <= Translate(m2, d, u) < to)
  {
    forall u: page | OnScreen(u, framebuffer, bytes) && HEAP <= u < HEAP + HEAP_PAGES
      ensures Mapped(m2, d, u) && Translate(m2, d, u) != u
      ensures Translate(m2, d, u) == 0 || limit <= Translate(m2, d, u) < to
    {
      assert Walk(m1, d, u) == Some(Entry(u, PAGE_DEFAULT));
      assert Remapped(m1, m2, d, u, limit, to, PAGE_DEFAULT);
      NotAtItself(m1, m2, d, u, limit, to);
    }
  }

  /** When the whole screen is where it is expected. */
  lemma ScreenOutsideHeap(m0: Memory, m1: Memory, m2: Memory, dirs: set<frame>, d: frame,
                          framebuffer: u32, bytes: u32, limit: int, to: int)
    requires framebuffer + bytes <= 4096 * PT_PAGE && to <= HEAP
    requires ChangesOnly(m0, m1, dirs, d, d, framebuffer / 4096, ScreenEnd(framebuffer, bytes), PAGE_DEFAULT)
    requires ChangesOnly(m1, m2, dirs, d, d, HEAP, HEAP + HEAP_PAGES, PAGE_DEFAULT)
    requires AllRemapped(m1, m2, d, HEAP, HEAP + HEAP_PAGES, limit, to, PAGE_DEFAULT)
    requires SelfMapped(m0, d) && forall i :: 0 < i < SELF ==> !HasTable(m0, d, i)
    requires Identity(m2, d, 0, ENTRIES, PAGE_DEFAULT)
    requires forall u: page :: OnScreen(u, framebuffer, bytes) && !(HEAP <= u < HEAP + HEAP_PAGES) ==>
      AtItself(m2, d, u, PAGE_DEFAULT)
    ensures Visible(m2, d, framebuffer, bytes, PAGE_DEFAULT)
       <==> && ClearOf(framebuffer, bytes, HEAP, HEAP + HEAP_PAGES)
            && (FitsPages(framebuffer, bytes) || framebuffer + bytes <= 4096 * ENTRIES)
  {
    var end := ScreenEnd(framebuffer, bytes);
    NothingElseMapped(m0, m1, m2, dirs, d, d, framebuffer / 4096, end, HEAP, HEAP + HEAP_PAGES, PAGE_DEFAULT);
    MissedPageUnmapped(m2, d, framebuffer / 4096, end, HEAP, HEAP + HEAP_PAGES);
    assert forall u: page :: u < ENTRIES ==> AtItself(m2, d, u, PAGE_DEFAULT);
    hide Walk, Remapped, Visible, FitsPages, ClearOf, HoldsScreen, OnScreen;
    VisibleExactly(m2, d, framebuffer, bytes, HEAP, HEAP + HEAP_PAGES, PAGE_DEFAULT);
    ClearOfPages(framebuffer, bytes, HEAP, HEAP + HEAP_PAGES);
    if ClearOf(framebuffer, bytes, HEAP, HEAP + HEAP_PAGES) {
      MissedPageHolds(framebuffer, bytes);
    } else {
      var u: page :| HoldsScreen(u, framebuffer, bytes) && HEAP <= u < HEAP + HEAP_PAGES;
      assert Remapped(m1, m2, d, u, limit, to, PAGE_DEFAULT);
      NotAtItself(m1, m2, d, u, limit, to);
    }
  }

  lemma MissedPageHolds(framebuffer: u32, bytes: u32)
    requires framebuffer + bytes <= 4096 * PT_PAGE
    ensures !FitsPages(framebuffer, bytes) ==>
      ScreenEnd(framebuffer, bytes) < 0x10_0000 && HoldsScreen(ScreenEnd(framebuffer, bytes), framebuffer, bytes)
  {
    PagesVisited(framebuffer / 4096, framebuffer, bytes);
  }

  /** All that start-up maps is for the kernel, and it is what it was to map. */
  lemma BootedForKernel(m0: Memory, m1: Memory, m2: Memory, dirs: set<frame>, d: frame,
                        first: int, end: int, limit: int, to: int)
    requires ChangesOnly(m0, m1, dirs, d, d, first, end, PAGE_DEFAULT) && Identity(m1, d, first, end, PAGE_DEFAULT)
    requires ChangesOnly(m1, m2, dirs, d, d, HEAP, HEAP + HEAP_PAGES, PAGE_DEFAULT)
    requires AllRemapped(m1, m2, d, HEAP, HEAP + HEAP_PAGES, limit, to, PAGE_DEFAULT)
    requires SelfMapped(m0, d) && SelfMapped(m1, d) && SelfMapped(m2, d) && TablesUnder(m0, d, PAGE_DEFAULT)
    requires forall i :: 0 <= i < SELF ==> (HasTable(m0, d, i) <==> i == 0)
    requires Identity(m2, d, 0, ENTRIES, PAGE_DEFAULT)
    ensures MapsOnly(m2, d, first, end, HEAP, HEAP + HEAP_PAGES) && KernelOnly(m2, d)
  {
    hide Walk, Entry, HasTable, SelfMapped, TablesUnder, NeedsTable, Under, KernelPage;
    NothingElseMapped(m0, m1, m2, dirs, d, d, first, end, HEAP, HEAP + HEAP_PAGES, PAGE_DEFAULT);
    TablesStayUnder(m0, m1, dirs, d, d, first, end, PAGE_DEFAULT);
    TablesStayUnder(m1, m2, dirs, d, d, HEAP, HEAP + HEAP_PAGES, PAGE_DEFAULT);
    forall u: page | u / ENTRIES != SELF && Mapped(m2, d, u)
      ensures Under(Walk(m2, d, u).value, PAGE_DEFAULT)
    {
      if HEAP <= u < HEAP + HEAP_PAGES {
        assert Remapped(m1, m2, d, u, limit, to, PAGE_DEFAULT);
        EntryWord(Translate(m2, d, u), PAGE_DEFAULT);
      } else {
        EntryWord(u, PAGE_DEFAULT);
      }
    }
    UnderKernelFlags(m2, d, PAGE_DEFAULT);
  }
}
