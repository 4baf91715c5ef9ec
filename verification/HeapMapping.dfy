/** kernel/mmap.c:109-112, the heap loop of init_paging: what it costs, and what it leaves
    where the pool cannot pay. */
module HeapMapping {
  import opened MachineWords
  import opened Options
  import opened PageTables

  /** A page that has no frame of its own out of the pool. */
  predicate Spoiled(m: Memory, d: frame, v: page, limit: int) {
    !Mapped(m, d, v) || Translate(m, d, v) < limit
  }

  lemma SpoiledStays(m: Memory, m': Memory, dirs: set<frame>, cr3: frame, d: frame,
                     v: page, entry: u32, dirEntry: u32, u: page, limit: int)
    requires MapLaw(m, m', dirs, cr3, d, v, entry, dirEntry)
    requires u != v && u / ENTRIES != SELF && Spoiled(m, d, u, limit)
    ensures Spoiled(m', d, u, limit)
  {
  }

  lemma SpoiledAtOnce(m: Memory, m': Memory, dirs: set<frame>, cr3: frame, d: frame,
                      v: page, flags: u32, dirEntry: u32, limit: int)
    requires MapLaw(m, m', dirs, cr3, d, v, Entry(0, flags), dirEntry) && limit > 0
    ensures Spoiled(m', d, v, limit)
  {
    EntryParts(0, flags);
  }

  /** What n pages from `heap` on take out of the pool: frames, and tables where m has none. */
  function HeapCost(m: Memory, d: frame, heap: page, n: nat): nat
    requires heap + n <= 0x10_0000
  {
    RunCost(m, d, heap, heap + n)
  }

  lemma HeapCostIs(m: Memory, d: frame, heap: page, n: nat)
    requires heap + n <= 0x10_0000
    ensures HeapCost(m, d, heap, n) == n + NewTables(m, d, heap, heap + n)
  {
  }

  lemma CostOneMore(m: Memory, d: frame, heap: page, n: nat)
    requires heap % ENTRIES == 0 && heap + n < 0x10_0000
    ensures HeapCost(m, d, heap, n + 1)
         == HeapCost(m, d, heap, n) + (if !HasTable(m, d, (heap + n) / ENTRIES) && n % ENTRIES == 0 then 2 else 1)
  {
    hide HasTable;
    assert (heap + n) % ENTRIES == n % ENTRIES;
  }

  /** After n turns of the heap loop, begun in m0 with `next` of `pages` frames taken: either
      the pool has paid for all n pages, or it is empty and some page was spoiled. */
  ghost predicate HeapSoFar(m0: Memory, m: Memory, d: frame, heap: page, n: nat, limit: int,
                            next: int, taken: int, pages: int, flags: u32, spoiled: page)
    requires heap + n <= 0x10_0000
  {
    var cost := HeapCost(m0, d, heap, n);
    if next + cost <= pages then
      taken == next + cost && Backed(m, d, heap, heap + n, limit, limit + cost, flags)
    else
      taken == pages && heap <= spoiled < heap + n && Spoiled(m, d, spoiled, limit)
  }

  lemma HeapBegins(m: Memory, d: frame, heap: page, limit: int, next: int, pages: int, flags: u32, spoiled: page)
    requires next <= pages
    ensures HeapSoFar(m, m, d, heap, 0, limit, next, next, pages, flags, spoiled)
  {
  }

  /** In the end either all pages are paid for, or the pool is empty and a page has gone short. */
  lemma HeapAtEnd(m0: Memory, m: Memory, d: frame, heap: page, n: nat, limit: int,
                  next: int, taken: int, pages: int, flags: u32, spoiled: page)
    requires heap + n <= 0x10_0000 && 0 < limit
    requires HeapSoFar(m0, m, d, heap, n, limit, next, taken, pages, flags, spoiled)
    requires AllRemapped(m0, m, d, heap, heap + n, limit, limit + taken - next, flags)
    ensures taken == Min(pages, next + HeapCost(m0, d, heap, n))
    ensures Backed(m, d, heap, heap + n, limit, limit + taken - next, flags)
       <==> next + HeapCost(m0, d, heap, n) <= pages
    ensures Backed(m, d, heap, heap + n, limit, limit + taken - next, flags)
       <==> !exists u: page :: heap <= u < heap + n && Unpaid(m, d, u)
  {
    hide Backed, Spoiled, HeapCost, Remapped, Unpaid;
    if next + HeapCost(m0, d, heap, n) > pages {
      SpoiledIsNotBacked(m, d, heap, heap + n, limit, limit + taken - next, flags, spoiled);
      SpoiledIsUnpaid(m0, m, d, spoiled, limit, limit + taken - next, flags);
    } else {
      forall u: page | heap <= u < heap + n
        ensures !Unpaid(m, d, u)
      {
        BackedIsPaid(m, d, heap, heap + n, limit, limit + taken - next, flags, u);
      }
    }
  }

  /** A page without a frame, or one that shares frame 0, which is not the pool's. */
  predicate Unpaid(m: Memory, d: frame, u: page) {
    !Mapped(m, d, u) || Translate(m, d, u) == 0
  }

  lemma SpoiledIsUnpaid(m0: Memory, m: Memory, d: frame, u: page, limit: int, to: int, flags: u32)
    requires Spoiled(m, d, u, limit) && Remapped(m0, m, d, u, limit, to, flags)
    ensures Unpaid(m, d, u)
  {
  }

  lemma BackedIsPaid(m: Memory, d: frame, lo: int, hi: int, limit: int, to: int, flags: u32, u: page)
    requires Backed(m, d, lo, hi, limit, to, flags) && lo <= u < hi && 0 < limit
    ensures !Unpaid(m, d, u)
  {
  }

  lemma SpoiledIsNotBacked(m: Memory, d: frame, lo: int, hi: int, from: int, to: int, flags: u32, u: page)
    requires lo <= u < hi && Spoiled(m, d, u, from)
    ensures !Backed(m, d, lo, hi, from, to, flags)
  {
  }

  /** While the pool pays for the pages, only the first page of a table finds it missing. */
  lemma HeapTable(m: Memory, m1: Memory, dirs: set<frame>, d: frame, heap: page, v: page,
                  limit: int, to: int, flags: u32)
    requires heap % ENTRIES == 0 && heap <= v < PT_PAGE
    requires ChangesOnly(m, m1, dirs, d, d, heap, v, flags) && SelfMapped(m, d) && SelfMapped(m1, d)
    requires Backed(m1, d, heap, v, limit, to, flags)
    ensures HasTable(m1, d, v / ENTRIES) <==> HasTable(m, d, v / ENTRIES) || v % ENTRIES != 0
    ensures !HasTable(m1, d, v / ENTRIES) ==> Spoiled(m1, d, v, limit)
  {
    TableFound(m, m1, dirs, d, d, heap, v, flags);
    assert v > heap ==> Mapped(m1, d, v - 1);
  }

  /** One turn of the heap loop: a frame f if any was left, and a `map_page` that may fail. */
  lemma HeapOneMore(m: Memory, m1: Memory, m2: Memory, dirs: set<frame>, d: frame, heap: page, v: page,
                    limit: int, next: int, taken: int, pages: int, flags: u32, spoiled: page,
                    f: frame, r: int, dirEntry: u32)
    requires heap % ENTRIES == 0 && heap <= v < PT_PAGE && Present(flags) && 0 < limit && next <= taken <= pages
    requires ChangesOnly(m, m1, dirs, d, d, heap, v, flags) && SelfMapped(m, d) && SelfMapped(m1, d)
    requires HeapSoFar(m, m1, d, heap, v - heap, limit, next, taken, pages, flags, spoiled)
    requires f == if taken < pages then limit + taken - next else 0
    requires r == -1 <==> !HasTable(m1, d, v / ENTRIES) && taken + 1 >= pages
    requires if r == -1 then m2 == m1 else MapLaw(m1, m2, dirs, d, d, v, Entry(f, flags), dirEntry)
    ensures HeapSoFar(m, m2, d, heap, v + 1 - heap, limit, next,
                      Min(pages, taken + (if HasTable(m1, d, v / ENTRIES) then 1 else 2)), pages, flags,
                      if next + HeapCost(m, d, heap, v - heap) <= pages then v else spoiled)
  {
    hide ChangesOnly, Backed, Walk, Spoiled, MapLaw, HasTable, SelfMapped, HeapCost, Entry;
    CostOneMore(m, d, heap, v - heap);
    var cost, cost' := HeapCost(m, d, heap, v - heap), HeapCost(m, d, heap, v + 1 - heap);
    if next + cost > pages {
      if r != -1 {
        SpoiledStays(m1, m2, dirs, d, d, v, Entry(f, flags), dirEntry, spoiled, limit);
      }
    } else {
      HeapTable(m, m1, dirs, d, heap, v, limit, limit + cost, flags);
      if next + cost' <= pages {
        BackedOneMore(m1, m2, dirs, d, d, heap, v, limit, f, limit + cost', flags, dirEntry);
      } else if r != -1 {
        SpoiledAtOnce(m1, m2, dirs, d, d, v, flags, dirEntry, limit);
      }
    }
  }

  // ------------------------------------------- what each page is left with

  /** Page u was given an entry by the loop, for a frame of the pool or for frame 0, which an
      empty pool's null stands for; or it has none, because there was no table and no frame for one. */
  predicate Remapped(m0: Memory, m: Memory, d: frame, u: page, limit: int, to: int, flags: u32) {
    match Walk(m, d, u)
    case None => !HasTable(m0, d, u / ENTRIES)
    case Some(entry) =>
      entry == Entry(FrameOf(entry), flags) && (FrameOf(entry) == 0 || limit <= FrameOf(entry) < to)
  }

  ghost predicate AllRemapped(m0: Memory, m: Memory, d: frame, lo: int, hi: int, limit: int, to: int, flags: u32) {
    forall u: page :: lo <= u < hi ==> Remapped(m0, m, d, u, limit, to, flags)
  }

  lemma NoneRemapped(m: Memory, d: frame, lo: int, limit: int, to: int, flags: u32)
    ensures AllRemapped(m, m, d, lo, lo, limit, to, flags)
  {
  }

  lemma RemappedOneMore(m: Memory, m1: Memory, m2: Memory, dirs: set<frame>, d: frame, heap: page, v: page,
                        limit: int, to: int, to': int, flags: u32, f: frame, r: int, dirEntry: u32)
    requires heap <= v < PT_PAGE && Present(flags) && to <= to' && (f == 0 || limit <= f < to')
    requires ChangesOnly(m, m1, dirs, d, d, heap, v, flags) && SelfMapped(m, d) && SelfMapped(m1, d)
    requires AllRemapped(m, m1, d, heap, v, limit, to, flags)
    requires r == -1 ==> !HasTable(m1, d, v / ENTRIES)
    requires if r == -1 then m2 == m1 else MapLaw(m1, m2, dirs, d, d, v, Entry(f, flags), dirEntry)
    ensures AllRemapped(m, m2, d, heap, v + 1, limit, to', flags)
  {
    hide Walk, Entry, HasTable, ChangesOnly, SelfMapped;
    EntryParts(f, flags);
    if r == -1 {
      TableFound(m, m1, dirs, d, d, heap, v, flags);
      NoTableNoWalk(m2, d, v);
    }
    forall u: page | heap <= u < v + 1
      ensures Remapped(m, m2, d, u, limit, to', flags)
    {
      if u < v {
        assert Remapped(m, m1, d, u, limit, to, flags);
        assert Walk(m2, d, u) == Walk(m1, d, u);
      }
    }
  }

  lemma NoTableNoWalk(m: Memory, d: frame, v: page)
    requires !HasTable(m, d, v / ENTRIES)
    ensures Walk(m, d, v) == None
  {
  }

  // ------------------------------------------------------ counting tables

  /** The entries a..b of a directory that have no table. */
  function Missing(m: Memory, d: frame, a: nat, b: nat): nat
    requires b <= ENTRIES
  {
    if b <= a then 0 else Missing(m, d, a, b - 1) + (if HasTable(m, d, b - 1) then 0 else 1)
  }

  lemma {:induction false} NewTablesMissing(m: Memory, d: frame, a: nat, hi: nat)
    requires a * ENTRIES <= hi <= 0x10_0000
    ensures NewTables(m, d, a * ENTRIES, hi) == Missing(m, d, a, (hi + ENTRIES - 1) / ENTRIES)
  {
    hide HasTable;
    if hi > a * ENTRIES {
      NewTablesMissing(m, d, a, hi - 1);
    }
  }

  /** The entries a..b, but for those of the run s..e. */
  function Uncovered(a: int, b: int, s: int, e: int): int {
    Max(b - a, 0) - Max(Min(b, e) - Max(a, s), 0)
  }

  lemma {:induction false} MissingCounted(m: Memory, d: frame, a: nat, b: nat, s: int, e: int)
    requires b <= ENTRIES && forall i :: a <= i < b ==> (HasTable(m, d, i) <==> s <= i < e)
    ensures Missing(m, d, a, b) == Uncovered(a, b, s, e)
  {
    hide HasTable;
    if b > a {
      MissingCounted(m, d, a, b - 1, s, e);
    }
  }

  /** After an identity run over first..end of a directory that had no table in a..b, there are
      those of that run. */
  lemma TablesOfRun(m: Memory, m': Memory, dirs: set<frame>, cr3: frame, d: frame, first: nat, end: nat,
                    a: nat, b: nat, flags: u32)
    requires ChangesOnly(m, m', dirs, cr3, d, first, end, flags) && Identity(m', d, first, end, flags)
    requires SelfMapped(m, d) && SelfMapped(m', d) && end <= PT_PAGE && b <= SELF
    requires forall i :: a <= i < b ==> !HasTable(m, d, i)
    ensures forall i :: a <= i < b ==>
      (HasTable(m', d, i) <==> first < end && first / ENTRIES <= i <= (end - 1) / ENTRIES)
  {
    forall i | a <= i < b
      ensures HasTable(m', d, i) <==> first < end && first / ENTRIES <= i <= (end - 1) / ENTRIES
    {
      SelfMapShows(m, d, i);
      SelfMapShows(m', d, i);
      if first < end && first / ENTRIES <= i <= (end - 1) / ENTRIES {
        var u: page := Max(first, i * ENTRIES);
        assert u / ENTRIES == i && first <= u < end;
        assert Walk(m', d, u) == Some(Entry(u, flags));
      } else {
        assert !Mapped(m, d, TableWindow(i));
      }
    }
  }
}
