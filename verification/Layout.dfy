/** The bytes of the heap (kernel/malloc.c) in the pages that start-up maps for it (kernel/mmap.c). */
module Layout {
  import opened AddressSpaces
  import opened Blocks
  import opened HeapMapping
  import opened PageTables
  import opened Paging
  import opened Protection
  import opened TaskCreation

  /** Where things are: addresses and sizes as bytes; and no two of them share a page. */
  lemma AddressMap(u: page)
    ensures 4096 * BOOT_PD == 0x8_0000 && 4096 * POOL == 0x40_0000 && 4096 * HEAP == START_ADDR == 0xE000_0000
    ensures 4096 * HEAP_PAGES == INITIAL_SIZE == 0x1000_0000 && 4096 * SHARED_PAGES == 0x100_0000
    ensures 4096 * FOREIGN_PD == 0xF000_0000 && 4096 * WINDOW == 0xF000_1000
    ensures 4096 * STACK_WINDOW == 0xF000_4000 && 4096 * STACK == 0xD000_0000
    ensures 4096 * PT_PAGE == 0xFFC0_0000 && 4096 * PD_PAGE == 0xFFFF_F000 == 4096 * TableWindow(SELF)
    ensures HEAP <= u < HEAP + HEAP_PAGES ==> ENTRIES <= u && u / ENTRIES < WINDOW_TABLE
    ensures u == FOREIGN_PD || u == WINDOW || u == STACK_WINDOW ==> u / ENTRIES == WINDOW_TABLE
    ensures u / ENTRIES == STACK_TABLE ==> ENTRIES <= u < HEAP
    ensures u / ENTRIES == SELF <==> PT_PAGE <= u
  {
  }

  /** The page of the i-th byte of the heap. */
  function PageOf(i: nat): page
    requires i < SPAN
  {
    (START_ADDR + i) / 4096
  }

  /** The mapped part of the heap is the heap's run of pages; the twelve bytes behind it lie
      in the page at 0xF0000000, where the kernel sees the directory it is building. */
  lemma BytesInPages(i: nat)
    requires i < SPAN
    ensures HEAP <= PageOf(i) < HEAP + HEAP_PAGES <==> i < INITIAL_SIZE
    ensures PageOf(i) == FOREIGN_PD <==> i >= INITIAL_SIZE
  {
  }

  /** A byte of a header, or of a payload that is in use. */
  ghost predicate InUse(bs: seq<Block>, i: int) {
    exists b :: b in bs && b.at <= i < (if b.free then b.Payload() else b.End())
  }

  /** Every byte in use can be reached. */
  ghost predicate Reached(m: Memory, d: frame, bs: seq<Block>) {
    forall i: nat :: i < SPAN && InUse(bs, i) ==> Mapped(m, d, PageOf(i))
  }

  /** In a space that start-up has given the whole heap, the bytes in use can be reached exactly
      if they are in the mapped part, unless the screen happens to lie behind the heap. */
  lemma InsideIsReached(m: Memory, d: frame, bs: seq<Block>, first: int, end: int, from: int, to: int)
    requires Backed(m, d, HEAP, HEAP + HEAP_PAGES, from, to, PAGE_DEFAULT)
    requires MapsOnly(m, d, first, end, HEAP, HEAP + HEAP_PAGES) && !(first <= FOREIGN_PD < end)
    requires Good(bs)
    ensures Reached(m, d, bs) <==> Inside(bs)
  {
    hide Mapped, Translate, Walk;
    if Inside(bs) {
      forall i: nat | i < SPAN && InUse(bs, i)
        ensures Mapped(m, d, PageOf(i))
      {
        BytesInPages(i);
      }
    } else {
      var b :| b in bs && !(b.Payload() <= INITIAL_SIZE && (b.free || b.End() <= INITIAL_SIZE));
      var k :| 0 <= k < |bs| && bs[k] == b;
      InSpan(bs, k);
      var i := if b.Payload() > INITIAL_SIZE then b.Payload() - 1 else b.End() - 1;
      BytesInPages(i);
      assert InUse(bs, i) && !Mapped(m, d, PageOf(i));
    }
  }
}
