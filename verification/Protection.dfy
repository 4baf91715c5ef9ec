/** Which pages an address space maps, and who may use them (section 4.6 of the Intel SDM, volume 3A). */
module Protection {
  import opened Arithmetic
  import opened MachineWords
  import opened Options
  import opened PageTables

  /** Present and writable, and not the user's. */
  predicate ForKernel(entry: u32) {
    entry % 2 == 1 && entry / 2 % 2 == 1 && entry / 4 % 2 == 0
  }

  /** The kernel may read and write the page, and a task's own code may not touch it:
      both words on its path say so. */
  predicate KernelPage(m: Memory, d: frame, u: page) {
    var pde := m[d][u / 1024];
    ForKernel(pde) && ForKernel(m[pde / 4096][u % 1024])
  }

  ghost predicate KernelOnly(m: Memory, d: frame) {
    forall u: page :: Mapped(m, d, u) ==> KernelPage(m, d, u)
  }

  ghost predicate TablesUnder(m: Memory, d: frame, flags: u32) {
    forall i :: 0 <= i < ENTRIES && HasTable(m, d, i) ==> Under(m[d][i], flags)
  }

  ghost predicate PagesUnder(m: Memory, d: frame, flags: u32) {
    forall u: page :: u / ENTRIES != SELF && Mapped(m, d, u) ==> Under(Walk(m, d, u).value, flags)
  }

  lemma KernelBits(entry: u32)
    requires entry % 4096 == 3
    ensures ForKernel(entry)
  {
    var f := entry / 4096;
    DivUnique(entry, 2, 2048 * f + 1, 1);
    DivUnique(entry / 2, 2, 1024 * f, 1);
    DivUnique(entry, 4, 1024 * f, 3);
    DivUnique(entry / 4, 2, 512 * f, 0);
  }

  /** Tables and pages under the kernel's flags make a space of kernel pages. */
  lemma UnderKernelFlags(m: Memory, d: frame, flags: u32)
    requires SelfMapped(m, d) && TablesUnder(m, d, flags) && PagesUnder(m, d, flags) && flags % 4096 == 3
    ensures KernelOnly(m, d)
  {
    hide ForKernel;
    forall u: page | Mapped(m, d, u)
      ensures KernelPage(m, d, u)
    {
      assert HasTable(m, d, u / ENTRIES);
      KernelBits(m[d][u / ENTRIES]);
      if u / ENTRIES == SELF {
        assert HasTable(m, d, u % ENTRIES);
        KernelBits(m[d][u % ENTRIES]);
      } else {
        KernelBits(Walk(m, d, u).value);
      }
    }
  }

  lemma TablesStayUnder(m: Memory, m': Memory, dirs: set<frame>, cr3: frame, d: frame,
                        lo: int, hi: int, flags: u32)
    requires ChangesOnly(m, m', dirs, cr3, d, lo, hi, flags)
    requires SelfMapped(m, d) && SelfMapped(m', d) && TablesUnder(m, d, flags)
    ensures TablesUnder(m', d, flags)
  {
    hide Under, Walk;
    forall i | 0 <= i < ENTRIES && HasTable(m', d, i)
      ensures Under(m'[d][i], flags)
    {
      SelfMapShows(m, d, i);
      SelfMapShows(m', d, i);
      assert Mapped(m', d, TableWindow(i));
    }
  }

  lemma FirstTablesUnder(m: Memory, d: frame, table: frame, flags: u32)
    requires FirstDirectory(m, d, table, flags)
    ensures TablesUnder(m, d, flags)
  {
    EntryWord(d, flags);
    EntryWord(table, flags);
  }

  // --------------------------------------------------------- nothing else

  /** The tables of a space with the first 4 MiB and two runs of pages, and the self-map. */
  predicate NeedsTable(i: int, first: int, end: int, lo: int, hi: int) {
    || i == 0 || i == SELF
    || (first < end && first / ENTRIES <= i <= (end - 1) / ENTRIES)
    || (lo < hi && lo / ENTRIES <= i <= (hi - 1) / ENTRIES)
  }

  /** No page is mapped but the first 4 MiB, those of two runs, and the windows of their tables. */
  ghost predicate MapsOnly(m: Memory, d: frame, first: int, end: int, lo: int, hi: int) {
    && (forall u: page :: u / ENTRIES != SELF && Mapped(m, d, u) ==> u < ENTRIES || first <= u < end || lo <= u < hi)
    && (forall u: page :: u / ENTRIES == SELF && Mapped(m, d, u) ==> NeedsTable(u - PT_PAGE, first, end, lo, hi))
  }

  lemma NothingElseMapped(m0: Memory, m1: Memory, m2: Memory, dirs: set<frame>, cr3: frame, d: frame,
                          first: int, end: int, lo: int, hi: int, flags: u32)
    requires ChangesOnly(m0, m1, dirs, cr3, d, first, end, flags) && ChangesOnly(m1, m2, dirs, cr3, d, lo, hi, flags)
    requires SelfMapped(m0, d) && forall i :: 0 < i < SELF ==> !HasTable(m0, d, i)
    ensures MapsOnly(m2, d, first, end, lo, hi)
  {
    hide Walk;
    forall u: page | Mapped(m2, d, u)
      ensures u / ENTRIES != SELF ==> u < ENTRIES || first <= u < end || lo <= u < hi
      ensures u / ENTRIES == SELF ==> NeedsTable(u - PT_PAGE, first, end, lo, hi)
    {
      if u / ENTRIES == SELF {
        SelfMapShows(m0, d, u - PT_PAGE);
        assert TableWindow(u - PT_PAGE) == u;
      } else {
        WalkHasTable(m0, d, u);
      }
    }
  }

  /** The page behind the first run. */
  lemma MissedPageUnmapped(m: Memory, d: frame, first: int, end: int, lo: int, hi: int)
    requires MapsOnly(m, d, first, end, lo, hi)
    ensures forall u: page :: u == end && ENTRIES <= u < PT_PAGE && !(lo <= u < hi) ==> Walk(m, d, u) == None
  {
    hide Walk;
    forall u: page | u == end && ENTRIES <= u < PT_PAGE && !(lo <= u < hi)
      ensures Walk(m, d, u) == None
    {
      assert !Mapped(m, d, u);
    }
  }

  lemma WalkHasTable(m: Memory, d: frame, u: page)
    ensures Mapped(m, d, u) ==> HasTable(m, d, u / ENTRIES)
  {
  }
}
