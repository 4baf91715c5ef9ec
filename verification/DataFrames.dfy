/** What editing page tables does to frames that are no page tables. */
module DataFrames {
  import opened MachineWords
  import opened Options
  import opened PageTables

  /** Of the frames below limit, those that were no directory and no table are none now,
      and hold what they held. */
  ghost predicate DataKept(m: Memory, dirs: set<frame>, m': Memory, dirs': set<frame>, limit: int) {
    forall f: frame :: f < limit && Unused(m, dirs, f) ==> Unused(m', dirs', f) && m'[f] == m[f]
  }

  lemma DataKeptAtFirst(m: Memory, dirs: set<frame>, limit: int)
    ensures DataKept(m, dirs, m, dirs, limit)
  {
  }

  lemma DataKeptTwice(m: Memory, dirs: set<frame>, m1: Memory, dirs1: set<frame>, m2: Memory, dirs2: set<frame>,
                      limit: int, limit': int)
    requires DataKept(m, dirs, m1, dirs1, limit) && DataKept(m1, dirs1, m2, dirs2, limit') && limit <= limit'
    ensures DataKept(m, dirs, m2, dirs2, limit)
  {
    hide Unused;
  }

  /** `map_page` keeps them, also through the window. */
  lemma MapKeepsData(m: Memory, dirs: set<frame>, limit: int, cr3: frame, d: frame,
                     v: page, entry: u32, dirEntry: u32, flags: u32)
    requires Editable(m, dirs, limit, d, v, dirEntry) && Reachable(m, dirs, cr3, d) && Present(flags)
    ensures DataKept(m, dirs, MapThrough(m, cr3, d, v, entry, dirEntry, flags), dirs, limit)
  {
    hide Unused, WithPage, WellFormed, Entry;
    var m1 := WithPage(m, d, v, entry, dirEntry);
    var entry' := Entry(Table(m1, d, v / ENTRIES), flags);
    if d != cr3 {
      WithPageKeepsWellFormed(m, dirs, limit, d, v, entry, dirEntry);
      WithPageWords(m, dirs, limit, d, v, entry, dirEntry, cr3, WINDOW_TABLE);
    }
    forall f: frame | f < limit && Unused(m, dirs, f)
      ensures Unused(m1, dirs, f) && m1[f] == m[f]
      ensures d != cr3 ==> Unused(WithPage(m1, cr3, WINDOW, entry', 0), dirs, f)
      ensures d != cr3 ==> WithPage(m1, cr3, WINDOW, entry', 0)[f] == m[f]
    {
      UnusedKept(m, dirs, limit, d, v, entry, dirEntry, f);
      if d != cr3 {
        UnusedKept(m1, dirs, if HasTable(m, d, v / ENTRIES) then limit else limit + 1, cr3, WINDOW, entry', 0, f);
      }
    }
  }

  /** A frame that the allocator has just handed out is written: none below it changes. */
  lemma FreshWriteKeepsData(m: Memory, dirs: set<frame>, limit: int, f: frame, w: Words, below: int)
    requires WellFormed(m, dirs, limit) && Unused(m, dirs, f) && below <= f
    ensures DataKept(m, dirs, m[f := w], dirs, below)
  {
    hide Unused, WellFormed;
    forall g: frame | g < below && Unused(m, dirs, g)
      ensures Unused(m[f := w], dirs, g) && m[f := w][g] == m[g]
    {
      UnusedIsInvisible(m, dirs, limit, f, w, g);
    }
  }

  lemma StaysUnused(m: Memory, m': Memory, dirs: set<frame>, limit: int, f: frame)
    requires DataKept(m, dirs, m', dirs, limit) && f < limit && Unused(m, dirs, f)
    ensures Unused(m', dirs, f)
  {
    hide Unused;
  }

  lemma DataKeptBelow(m: Memory, dirs: set<frame>, m': Memory, dirs': set<frame>, below: int, limit: int)
    requires DataKept(m, dirs, m', dirs', limit) && below <= limit
    ensures DataKept(m, dirs, m', dirs', below)
  {
  }

  /** The page of a fresh frame f is mapped, and then written through that page. */
  lemma MappedThenWritten(m: Memory, m1: Memory, m2: Memory, dirs: set<frame>, limit: int, f: frame)
    requires DataKept(m, dirs, m1, dirs, f + 1) && WellFormed(m1, dirs, limit) && Unused(m1, dirs, f)
    requires m2 == m1[f := m2[f]]
    ensures DataKept(m, dirs, m2, dirs, f)
  {
    DataKeptBelow(m, dirs, m1, dirs, f, f + 1);
    FreshWriteKeepsData(m1, dirs, limit, f, m2[f], f);
    DataKeptTwice(m, dirs, m1, dirs, m2, dirs, f, f);
  }

  /** A first directory in frames from limit on is added to the address spaces. */
  lemma SpaceKeepsData(m: Memory, dirs: set<frame>, d: frame, table: frame, flags: u32, limit: int)
    requires FirstDirectory(m, d, table, flags) && Present(flags) && limit <= d && limit <= table
    ensures DataKept(m, dirs, m, dirs + {d}, limit)
  {
    EntryParts(table, flags);
    assert forall i :: 0 <= i < SELF && HasTable(m, d, i) ==> Table(m, d, i) == table;
    hide Entry, FirstDirectory, HasTable, Table;
  }

  lemma DropKeepsData(m: Memory, dirs: set<frame>, d: frame, limit: int)
    ensures DataKept(m, dirs + {d}, m, dirs, limit)
  {
  }

  /** The pages lo..hi are backed by frames that are no directory and no table of any space. */
  ghost predicate OwnFrames(m: Memory, dirs: set<frame>, d: frame, lo: int, hi: int) {
    forall u: page :: lo <= u < hi ==> Mapped(m, d, u) && Unused(m, dirs, Translate(m, d, u))
  }

  lemma NoFramesYet(m: Memory, dirs: set<frame>, d: frame, lo: int)
    ensures OwnFrames(m, dirs, d, lo, lo)
  {
  }

  /** One more page with a frame from the pool, and a table for it, perhaps, from there too. */
  lemma OwnOneMore(m: Memory, m': Memory, dirs: set<frame>, cr3: frame, d: frame, lo: int, v: page,
                   from: int, f: frame, flags: u32, dirEntry: u32, flags': u32)
    requires OwnFrames(m, dirs, d, lo, v) && Backed(m, d, lo, v, from, f, flags') && v < PT_PAGE && Present(flags)
    requires Unused(m, dirs, f) && DataKept(m, dirs, m', dirs, f + 1)
    requires MapLaw(m, m', dirs, cr3, d, v, Entry(f, flags), dirEntry)
    ensures OwnFrames(m', dirs, d, lo, v + 1)
  {
    hide Unused, Entry;
    EntryParts(f, flags);
    forall u: page | lo <= u < v + 1
      ensures Mapped(m', d, u) && Unused(m', dirs, Translate(m', d, u))
    {
      if u < v {
        assert Walk(m', d, u) == Walk(m, d, u);
        assert Mapped(m, d, u) && Translate(m, d, u) < f;
      }
    }
  }
}
