/** 32-bit paging (section 4.3 of the Intel SDM, volume 3A) over a physical memory
    of 4 KiB frames, and what one edit of the tables does to every translation. */
module PageTables {
  import opened Arithmetic
  import opened MachineWords
  import opened Options

  const ENTRIES: int := 1024
  const SELF: int := 1023
  /** `PD_ADDR` and `PT_ADDR` as page numbers, and the window for a foreign table. */
  const PD_PAGE: page := 0xF_FFFF
  const PT_PAGE: page := 0xF_FC00
  const WINDOW: page := 0xF_0001
  const WINDOW_TABLE: int := 960

  /** A frame of physical memory, or a page of virtual memory: an address divided by 4096. */
  type frame = f: int | 0 <= f < 0x10_0000
  type page = f: int | 0 <= f < 0x10_0000
  type Words = w: seq<u32> | |w| == 1024 witness seq(1024, i => 0)
  type Memory = m: seq<Words> | |m| == 0x10_0000 witness seq<Words>(0x10_0000, i => Zeroes())

  function Zeroes(): (w: Words)
    ensures forall i :: 0 <= i < 1024 ==> w[i] == 0
  {
    seq(1024, i => 0)
  }

  predicate Present(entry: u32) {
    entry % 2 == 1
  }

  function FrameOf(entry: u32): frame {
    entry / 4096
  }

  /** `(address & 0xFFFFF000) | (flags & 0xFFF)` */
  function Entry(f: frame, flags: u32): u32 {
    4096 * f + flags % 4096
  }

  lemma EntryParts(f: frame, flags: u32)
    ensures FrameOf(Entry(f, flags)) == f && Present(Entry(f, flags)) == Present(flags)
  {
    var q, low := flags / 4096, flags % 4096;
    var half, last := Divide(low, 2);
    DivUnique(flags, 2, 2048 * q + half, last);
    DivUnique(Entry(f, flags), 2, 2048 * f + half, last);
  }

  /** The entry's low twelve bits are those of the flags. */
  predicate Under(entry: u32, flags: u32) {
    entry % 4096 == flags % 4096
  }

  lemma EntryWord(f: frame, flags: u32)
    ensures Entry(f, flags) / 4096 == f && Under(Entry(f, flags), flags)
  {
  }

  /** The hardware walk: the page-table entry that translates page v, or none on a page fault. */
  function Walk(m: Memory, cr3: frame, v: page): Option<u32> {
    var pde := m[cr3][v / ENTRIES];
    if !Present(pde) then None
    else
      var pte := m[FrameOf(pde)][v % ENTRIES];
      if Present(pte) then Some(pte) else None
  }

  predicate Mapped(m: Memory, cr3: frame, v: page) {
    Walk(m, cr3, v).Some?
  }

  function Translate(m: Memory, cr3: frame, v: page): frame
    requires Mapped(m, cr3, v)
  {
    FrameOf(Walk(m, cr3, v).value)
  }

  // ------------------------------------------------------- address spaces

  predicate HasTable(m: Memory, d: frame, i: int)
    requires 0 <= i < ENTRIES
  {
    Present(m[d][i])
  }

  function Table(m: Memory, d: frame, i: int): frame
    requires 0 <= i < ENTRIES
  {
    FrameOf(m[d][i])
  }

  /** The page through which a directory with a self-map shows its i-th table. */
  function TableWindow(i: int): page
    requires 0 <= i < ENTRIES
  {
    PT_PAGE + i
  }

  ghost predicate SelfMapped(m: Memory, d: frame) {
    HasTable(m, d, SELF) && Table(m, d, SELF) == d
  }

  /** Directories with self-maps whose tables are pairwise distinct, within one
      directory and across directories, are no directories, and lie below `limit`. */
  ghost predicate WellFormed(m: Memory, dirs: set<frame>, limit: int) {
    && (forall d :: d in dirs ==> d < limit && SelfMapped(m, d))
    && (forall d, i :: d in dirs && 0 <= i < SELF && HasTable(m, d, i) ==>
          Table(m, d, i) < limit && Table(m, d, i) !in dirs)
    && (forall d, i, e, j :: (d in dirs && e in dirs && 0 <= i < SELF && 0 <= j < SELF
          && HasTable(m, d, i) && HasTable(m, e, j) && Table(m, d, i) == Table(m, e, j)) ==>
          (d == e && i == j))
  }

  lemma StillSelfMapped(m: Memory, dirs: set<frame>, limit: int, d: frame)
    requires WellFormed(m, dirs, limit) && d in dirs
    ensures SelfMapped(m, d)
  {
  }

  // ---------------------------------------------------------- table edits

  function Store(m: Memory, f: frame, k: int, w: u32): Memory
    requires 0 <= k < ENTRIES
  {
    m[f := m[f][k := w]]
  }

  /** Page v of directory d is given the entry `entry`; if d has no table for v,
      the frame `spare` becomes that table, under the flags of `dirEntry`. */
  function WithPage(m: Memory, d: frame, v: page, entry: u32, dirEntry: u32): Memory {
    var i, k := v / ENTRIES, v % ENTRIES;
    if HasTable(m, d, i) then
      Store(m, Table(m, d, i), k, entry)
    else
      Store(m, d, i, dirEntry)[FrameOf(dirEntry) := Zeroes()[k := entry]]
  }

  /** Where there is a table, what a new one would be entered with makes no difference. */
  lemma SameEdit(m: Memory, d: frame, v: page, entry: u32, dirEntry: u32, dirEntry': u32)
    ensures HasTable(m, d, v / ENTRIES) ==> WithPage(m, d, v, entry, dirEntry) == WithPage(m, d, v, entry, dirEntry')
  {
  }

  /** The directory entry is one the allocator's next frame can be put in. */
  predicate Spare(dirEntry: u32, limit: int) {
    Present(dirEntry) && FrameOf(dirEntry) == limit
  }

  /** An edit that the tables admit: well-formed tables, a page that is no table
      window, and a spare frame should a table be needed. */
  ghost predicate Editable(m: Memory, dirs: set<frame>, limit: int, d: frame, v: page, dirEntry: u32) {
    && WellFormed(m, dirs, limit) && d in dirs && v / ENTRIES != SELF
    && (HasTable(m, d, v / ENTRIES) || Spare(dirEntry, limit))
  }

  /** The words an edit changes, directory by directory and table by table. */
  lemma WithPageWords(m: Memory, dirs: set<frame>, limit: int,
                     d: frame, v: page, entry: u32, dirEntry: u32, e: frame, j: int)
    requires Editable(m, dirs, limit, d, v, dirEntry) && e in dirs && 0 <= j < ENTRIES
    ensures var m', i := WithPage(m, d, v, entry, dirEntry), v / ENTRIES;
      && m'[e][j] == (if e == d && j == i && !HasTable(m, d, i) then dirEntry else m[e][j])
      && (j != SELF && HasTable(m', e, j) ==>
            m'[Table(m', e, j)] == if e == d && j == i
                                   then (if HasTable(m, d, i) then m[Table(m, d, i)] else Zeroes())
                                        [v % ENTRIES := entry]
                                   else m[Table(m, e, j)])
  {
    var i := v / ENTRIES;
    if HasTable(m, d, i) {
      assert Table(m, d, i) !in dirs;
      if j != SELF && HasTable(m, e, j) && !(e == d && j == i) {
        assert Table(m, e, j) != Table(m, d, i);
      }
    } else {
      assert limit !in dirs;
      if j != SELF && HasTable(m, e, j) {
        assert Table(m, e, j) < limit && Table(m, e, j) !in dirs;
      }
    }
  }

  lemma WithPageKeepsWellFormed(m: Memory, dirs: set<frame>, limit: int,
                               d: frame, v: page, entry: u32, dirEntry: u32)
    requires Editable(m, dirs, limit, d, v, dirEntry)
    ensures WellFormed(WithPage(m, d, v, entry, dirEntry), dirs,
                       if HasTable(m, d, v / ENTRIES) then limit else limit + 1)
  {
    var m', i := WithPage(m, d, v, entry, dirEntry), v / ENTRIES;
    forall e, j | e in dirs && 0 <= j < ENTRIES
      ensures HasTable(m', e, j) == (HasTable(m, e, j) || (e == d && j == i))
      ensures Table(m', e, j) == if e == d && j == i && !HasTable(m, d, i) then limit else Table(m, e, j)
    {
      WithPageWords(m, dirs, limit, d, v, entry, dirEntry, e, j);
    }
    hide WithPage, HasTable, Table;
  }

  /** The law of `map_page`: the page it is given walks to the entry it is given;
      every other page of that directory walks as before, except the one through
      which a table made on the way becomes visible; and every page of every other
      directory walks as before. */
  ghost predicate Remaps(m: Memory, m': Memory, dirs: set<frame>, d: frame, v: page, entry: u32, dirEntry: u32) {
    var i := v / ENTRIES;
    && Walk(m', d, v) == (if Present(entry) then Some(entry) else None)
    && Walk(m', d, TableWindow(i)) == (if HasTable(m, d, i) then Walk(m, d, TableWindow(i)) else Some(dirEntry))
    && (forall u: page :: u != v && u != TableWindow(i) ==> Walk(m', d, u) == Walk(m, d, u))
    && (forall e, u: page :: e in dirs && e != d ==> Walk(m', e, u) == Walk(m, e, u))
  }

  lemma WithPageRemaps(m: Memory, dirs: set<frame>, limit: int,
                      d: frame, v: page, entry: u32, dirEntry: u32)
    requires Editable(m, dirs, limit, d, v, dirEntry)
    ensures Remaps(m, WithPage(m, d, v, entry, dirEntry), dirs, d, v, entry, dirEntry)
  {
    var m' := WithPage(m, d, v, entry, dirEntry);
    forall e, u: page | e in dirs
      ensures e != d ==> Walk(m', e, u) == Walk(m, e, u)
      ensures e == d && u != v && u != TableWindow(v / ENTRIES) ==> Walk(m', d, u) == Walk(m, d, u)
    {
      WithPageWords(m, dirs, limit, d, v, entry, dirEntry, e, u / ENTRIES);
      WithPageWords(m, dirs, limit, d, v, entry, dirEntry, e, u % ENTRIES);
    }
    WithPageWords(m, dirs, limit, d, v, entry, dirEntry, d, v / ENTRIES);
    WithPageWords(m, dirs, limit, d, v, entry, dirEntry, d, SELF);
  }

  /** Well-formedness is about the words of the directories only. */
  lemma SameDirectories(m: Memory, m': Memory, dirs: set<frame>, limit: int)
    requires WellFormed(m, dirs, limit)
    requires forall e :: e in dirs ==> m'[e] == m[e]
    ensures WellFormed(m', dirs, limit)
  {
    assert forall e, i :: e in dirs && 0 <= i < ENTRIES ==>
        HasTable(m', e, i) == HasTable(m, e, i) && Table(m', e, i) == Table(m, e, i);
    hide HasTable, Table;
  }

  /** A store to a frame that is not on the walk's path leaves the walk alone. */
  lemma StoreOffPath(m: Memory, cr3: frame, v: page, f: frame, k: int, w: u32)
    requires 0 <= k < ENTRIES && f != cr3 && f != Table(m, cr3, v / ENTRIES)
    ensures Walk(Store(m, f, k, w), cr3, v) == Walk(m, cr3, v)
  {
  }

  /** `map_page` as a whole. A directory that is not loaded is edited through the
      window, which first has to show the table. */
  function MapThrough(m: Memory, cr3: frame, d: frame, v: page, entry: u32, dirEntry: u32, windowFlags: u32): Memory {
    if d == cr3 then WithPage(m, d, v, entry, dirEntry)
    else
      var m' := WithPage(m, d, v, entry, dirEntry);
      WithPage(m', cr3, WINDOW, Entry(Table(m', d, v / ENTRIES), windowFlags), 0)
  }

  /** A self-mapped directory shows itself and its tables. */
  lemma SelfMapShows(m: Memory, d: frame, i: int)
    requires SelfMapped(m, d) && 0 <= i < ENTRIES
    ensures Walk(m, d, PD_PAGE) == Some(m[d][SELF])
    ensures Walk(m, d, TableWindow(i)) == if HasTable(m, d, i) then Some(m[d][i]) else None
  {
  }

  /** `map_page` needs the loaded directory to have the window's table when it edits another one. */
  ghost predicate Reachable(m: Memory, dirs: set<frame>, cr3: frame, d: frame) {
    cr3 in dirs && d in dirs && (d != cr3 ==> HasTable(m, cr3, WINDOW_TABLE))
  }

  /** The memory in which `get_page_table` has made table i of d reachable, and the page where it is. */
  function Shown(m: Memory, cr3: frame, d: frame, i: int, windowFlags: u32): (Memory, page)
    requires 0 <= i < ENTRIES
  {
    if d == cr3 then (m, TableWindow(i))
    else (WithPage(m, cr3, WINDOW, Entry(Table(m, d, i), windowFlags), 0), WINDOW)
  }

  lemma ShownIsReachable(m: Memory, dirs: set<frame>, limit: int, cr3: frame, d: frame, i: int, flags: u32)
    requires WellFormed(m, dirs, limit) && Reachable(m, dirs, cr3, d)
    requires 0 <= i < SELF && HasTable(m, d, i) && Present(flags)
    ensures var (m', pt) := Shown(m, cr3, d, i, flags);
      && pt != 0 && WellFormed(m', dirs, limit) && Mapped(m', cr3, pt)
      && Translate(m', cr3, pt) == Table(m, d, i)
      && Table(m, d, i) != cr3 && Table(m, d, i) != Table(m', cr3, pt / ENTRIES)
  {
    if d == cr3 {
      SelfMapShows(m, d, i);
    } else {
      var entry := Entry(Table(m, d, i), flags);
      WithPageKeepsWellFormed(m, dirs, limit, cr3, WINDOW, entry, 0);
      WithPageRemaps(m, dirs, limit, cr3, WINDOW, entry, 0);
      WithPageWords(m, dirs, limit, cr3, WINDOW, entry, 0, cr3, WINDOW_TABLE);
      EntryParts(Table(m, d, i), flags);
      assert Table(m, d, i) != Table(m, cr3, WINDOW_TABLE) && Table(m, d, i) !in dirs;
      hide Walk, WithPage, Entry, WellFormed;
    }
  }

  /** Storing through a table that was there amounts to `map_page`. */
  lemma StoredInOldTable(m: Memory, dirs: set<frame>, limit: int, cr3: frame, d: frame,
                         v: page, entry: u32, dirEntry: u32, flags: u32)
    requires Editable(m, dirs, limit, d, v, dirEntry) && Reachable(m, dirs, cr3, d)
    requires HasTable(m, d, v / ENTRIES)
    ensures Store(Shown(m, cr3, d, v / ENTRIES, flags).0, Table(m, d, v / ENTRIES), v % ENTRIES, entry)
         == MapThrough(m, cr3, d, v, entry, dirEntry, flags)
  {
    if d != cr3 {
      assert Table(m, d, v / ENTRIES) != Table(m, cr3, WINDOW_TABLE);
      assert Table(m, d, v / ENTRIES) !in dirs;
    }
  }

  /** Entering a spare frame in the directory, before the frame is cleared. */
  lemma DirectoryWordStored(m: Memory, dirs: set<frame>, limit: int, cr3: frame, d: frame, v: page, dirEntry: u32)
    requires Editable(m, dirs, limit, d, v, dirEntry) && Reachable(m, dirs, cr3, d)
    requires !HasTable(m, d, v / ENTRIES)
    ensures var m' := Store(m, d, v / ENTRIES, dirEntry);
      && WellFormed(m', dirs, limit + 1) && Reachable(m', dirs, cr3, d)
      && HasTable(m', d, v / ENTRIES) && Table(m', d, v / ENTRIES) == limit
      && (d != cr3 ==> forall u: page :: Walk(m', cr3, u) == Walk(m, cr3, u))
  {
    var m' := Store(m, d, v / ENTRIES, dirEntry);
    assert limit !in dirs;
    WithPageKeepsWellFormed(m, dirs, limit, d, v, 0, dirEntry);
    SameDirectories(WithPage(m, d, v, 0, dirEntry), m', dirs, limit + 1);
    if d != cr3 {
      forall u: page
        ensures Walk(m', cr3, u) == Walk(m, cr3, u)
      {
        if u / ENTRIES != SELF && HasTable(m, cr3, u / ENTRIES) {
          assert Table(m, cr3, u / ENTRIES) !in dirs;
        }
      }
    }
  }

  /** Clearing the new table and storing through it amounts to `map_page`. */
  lemma StoredInNewTable(m: Memory, dirs: set<frame>, limit: int, cr3: frame, d: frame,
                         v: page, entry: u32, dirEntry: u32, flags: u32)
    requires Editable(m, dirs, limit, d, v, dirEntry) && Reachable(m, dirs, cr3, d)
    requires !HasTable(m, d, v / ENTRIES) && Spare(dirEntry, limit)
    ensures var (m', pt) := Shown(Store(m, d, v / ENTRIES, dirEntry), cr3, d, v / ENTRIES, flags);
      && Store(m'[limit := Zeroes()], limit, v % ENTRIES, entry) == MapThrough(m, cr3, d, v, entry, dirEntry, flags)
      && Walk(m'[limit := Zeroes()], cr3, pt) == Walk(m', cr3, pt)
  {
  }

  lemma MapThroughKeepsWellFormed(m: Memory, dirs: set<frame>, limit: int, cr3: frame, d: frame,
                                  v: page, entry: u32, dirEntry: u32, flags: u32)
    requires Editable(m, dirs, limit, d, v, dirEntry) && Reachable(m, dirs, cr3, d)
    ensures WellFormed(MapThrough(m, cr3, d, v, entry, dirEntry, flags), dirs,
                       if HasTable(m, d, v / ENTRIES) then limit else limit + 1)
    ensures Reachable(MapThrough(m, cr3, d, v, entry, dirEntry, flags), dirs, cr3, d)
  {
    var m' := WithPage(m, d, v, entry, dirEntry);
    var limit' := if HasTable(m, d, v / ENTRIES) then limit else limit + 1;
    WithPageKeepsWellFormed(m, dirs, limit, d, v, entry, dirEntry);
    if d != cr3 {
      var entry' := Entry(Table(m', d, v / ENTRIES), flags);
      WithPageWords(m, dirs, limit, d, v, entry, dirEntry, cr3, WINDOW_TABLE);
      assert Editable(m', dirs, limit', cr3, WINDOW, 0);
      WithPageKeepsWellFormed(m', dirs, limit', cr3, WINDOW, entry', 0);
      WithPageWords(m', dirs, limit', cr3, WINDOW, entry', 0, cr3, WINDOW_TABLE);
    }
  }

  /** The law of `map_page` for any directory: the one it edits changes as `Remaps`
      says; if that is not the loaded one, then the loaded one changes at the window
      only, which now shows the table; no other directory changes. */
  ghost predicate MapLaw(m: Memory, m': Memory, dirs: set<frame>, cr3: frame, d: frame,
                         v: page, entry: u32, dirEntry: u32) {
    && Remaps(m, m', dirs - {cr3}, d, v, entry, dirEntry)
    && (d != cr3 ==>
          && Mapped(m', cr3, WINDOW) && Translate(m', cr3, WINDOW) == Table(m', d, v / ENTRIES)
          && forall u: page :: u != WINDOW ==> Walk(m', cr3, u) == Walk(m, cr3, u))
  }

  lemma LawWhenLoaded(m: Memory, m': Memory, dirs: set<frame>, d: frame, v: page, entry: u32, dirEntry: u32)
    requires Remaps(m, m', dirs, d, v, entry, dirEntry)
    ensures MapLaw(m, m', dirs, d, d, v, entry, dirEntry)
  {
    hide Walk;
  }

  /** The edit of a directory that is not loaded, and then of the window, together. */
  lemma LawThroughWindow(m: Memory, m1: Memory, m2: Memory, dirs: set<frame>, cr3: frame, d: frame,
                         v: page, entry: u32, dirEntry: u32, table: frame, flags: u32)
    requires d != cr3 && d in dirs && cr3 in dirs && Present(flags)
    requires Remaps(m, m1, dirs, d, v, entry, dirEntry)
    requires Remaps(m1, m2, dirs, cr3, WINDOW, Entry(table, flags), 0) && HasTable(m1, cr3, WINDOW_TABLE)
    requires Table(m2, d, v / ENTRIES) == table
    ensures MapLaw(m, m2, dirs, cr3, d, v, entry, dirEntry)
  {
    hide Walk, Entry, HasTable, Table;
    EntryParts(table, flags);
  }

  lemma MapThroughObeysLaw(m: Memory, dirs: set<frame>, limit: int, cr3: frame, d: frame,
                           v: page, entry: u32, dirEntry: u32, flags: u32)
    requires Editable(m, dirs, limit, d, v, dirEntry) && Reachable(m, dirs, cr3, d) && Present(flags)
    ensures MapLaw(m, MapThrough(m, cr3, d, v, entry, dirEntry, flags), dirs, cr3, d, v, entry, dirEntry)
  {
    hide Walk, Remaps, MapLaw, WithPage, WellFormed, Entry;
    var m1 := WithPage(m, d, v, entry, dirEntry);
    WithPageRemaps(m, dirs, limit, d, v, entry, dirEntry);
    if d == cr3 {
      LawWhenLoaded(m, m1, dirs, d, v, entry, dirEntry);
    } else {
      var limit' := if HasTable(m, d, v / ENTRIES) then limit else limit + 1;
      var table := Table(m1, d, v / ENTRIES);
      var entry' := Entry(table, flags);
      WithPageKeepsWellFormed(m, dirs, limit, d, v, entry, dirEntry);
      WithPageWords(m, dirs, limit, d, v, entry, dirEntry, cr3, WINDOW_TABLE);
      assert Editable(m1, dirs, limit', cr3, WINDOW, 0);
      WithPageRemaps(m1, dirs, limit', cr3, WINDOW, entry', 0);
      WithPageWords(m1, dirs, limit', cr3, WINDOW, entry', 0, d, v / ENTRIES);
      LawThroughWindow(m, m1, WithPage(m1, cr3, WINDOW, entry', 0), dirs, cr3, d, v, entry, dirEntry, table, flags);
    }
  }

  /** The memory just before `map_page` stores the page's entry, and the page of the table. */
  function Ready(m: Memory, cr3: frame, d: frame, i: int, dirEntry: u32, flags: u32): (Memory, page)
    requires 0 <= i < ENTRIES
  {
    if HasTable(m, d, i) then Shown(m, cr3, d, i, flags)
    else
      var (m', pt) := Shown(Store(m, d, i, dirEntry), cr3, d, i, flags);
      (m'[FrameOf(dirEntry) := Zeroes()], pt)
  }

  lemma ReadyCompletes(m: Memory, dirs: set<frame>, limit: int, cr3: frame, d: frame,
                       v: page, entry: u32, dirEntry: u32, flags: u32)
    requires Editable(m, dirs, limit, d, v, dirEntry) && Reachable(m, dirs, cr3, d) && Present(flags)
    ensures var (m', pt) := Ready(m, cr3, d, v / ENTRIES, dirEntry, flags);
      && pt != 0 && Mapped(m', cr3, pt)
      && Store(m', Translate(m', cr3, pt), v % ENTRIES, entry) == MapThrough(m, cr3, d, v, entry, dirEntry, flags)
  {
    if HasTable(m, d, v / ENTRIES) {
      ShownIsReachable(m, dirs, limit, cr3, d, v / ENTRIES, flags);
      StoredInOldTable(m, dirs, limit, cr3, d, v, entry, dirEntry, flags);
    } else {
      DirectoryWordStored(m, dirs, limit, cr3, d, v, dirEntry);
      ShownIsReachable(Store(m, d, v / ENTRIES, dirEntry), dirs, limit + 1, cr3, d, v / ENTRIES, flags);
      StoredInNewTable(m, dirs, limit, cr3, d, v, entry, dirEntry, flags);
    }
  }

  lemma ReadyToClear(m: Memory, dirs: set<frame>, limit: int, cr3: frame, d: frame, i: int, dirEntry: u32, flags: u32)
    requires 0 <= i < SELF && !HasTable(m, d, i) && Present(flags)
    requires Editable(m, dirs, limit, d, ENTRIES * i, dirEntry) && Reachable(m, dirs, cr3, d)
    ensures var (m', pt) := Shown(Store(m, d, i, dirEntry), cr3, d, i, flags);
      && Mapped(m', cr3, pt) && Translate(m', cr3, pt) == limit
      && limit != cr3 && limit != Table(m', cr3, pt / ENTRIES)
      && WellFormed(m'[limit := Zeroes()], dirs, limit + 1)
      && Ready(m, cr3, d, i, dirEntry, flags) == (m'[limit := Zeroes()], pt)
  {
    hide Store, Shown, Walk;
    DirectoryWordStored(m, dirs, limit, cr3, d, ENTRIES * i, dirEntry);
    var m1 := Store(m, d, i, dirEntry);
    ShownIsReachable(m1, dirs, limit + 1, cr3, d, i, flags);
    var m2 := Shown(m1, cr3, d, i, flags).0;
    assert limit !in dirs;
    SameDirectories(m2, m2[limit := Zeroes()], dirs, limit + 1);
  }

  /** The last store completes `map_page`: its result, its invariant and its law. */
  lemma MapCompletes(m: Memory, dirs: set<frame>, limit: int, cr3: frame, d: frame,
                     v: page, entry: u32, dirEntry: u32, flags: u32)
    requires Editable(m, dirs, limit, d, v, dirEntry) && Reachable(m, dirs, cr3, d) && Present(flags)
    ensures var (m', pt) := Ready(m, cr3, d, v / ENTRIES, dirEntry, flags);
      var m'' := MapThrough(m, cr3, d, v, entry, dirEntry, flags);
      && pt != 0 && Mapped(m', cr3, pt)
      && Store(m', Translate(m', cr3, pt), v % ENTRIES, entry) == m''
      && WellFormed(m'', dirs, if HasTable(m, d, v / ENTRIES) then limit else limit + 1)
      && MapLaw(m, m'', dirs, cr3, d, v, entry, dirEntry)
  {
    ReadyCompletes(m, dirs, limit, cr3, d, v, entry, dirEntry, flags);
    MapThroughKeepsWellFormed(m, dirs, limit, cr3, d, v, entry, dirEntry, flags);
    MapThroughObeysLaw(m, dirs, limit, cr3, d, v, entry, dirEntry, flags);
  }

  /** The two words that matter afterwards: the page's, and that of the directory, which is
      new if there was no table. */
  lemma WordsStored(m: Memory, m': Memory, dirs: set<frame>, cr3: frame, d: frame, v: page,
                    f: frame, limit: frame, flags: u32)
    requires MapLaw(m, m', dirs, cr3, d, v, Entry(f, flags), Entry(limit, flags))
    requires SelfMapped(m, d) && SelfMapped(m', d) && v / 1024 != SELF
    ensures flags % 2 == 0 ==> Walk(m', d, v) == None
    ensures flags % 2 == 1 ==> HasWord(m', d, v, f, flags)
    ensures HasTable(m, d, v / 1024) ==> m'[d][v / 1024] == m[d][v / 1024]
    ensures !HasTable(m, d, v / 1024) ==>
      m'[d][v / 1024] / 4096 == limit && m'[d][v / 1024] % 4096 == flags % 4096
  {
    EntryWord(f, flags);
    EntryWord(limit, flags);
    EntryParts(f, flags);
    SelfMapShows(m, d, v / ENTRIES);
    SelfMapShows(m', d, v / ENTRIES);
    hide Entry;
  }

  /** Page v walks to a word with this frame and these flags. */
  predicate HasWord(m: Memory, d: frame, v: page, f: frame, flags: u32) {
    match Walk(m, d, v)
    case None => false
    case Some(entry) => entry / 4096 == f && entry % 4096 == flags % 4096
  }

  // -------------------------------------------------------- runs of edits

  /** From m to m' the directory d changed at the pages lo..hi only, and gained the
      windows of tables for those pages, entered under these flags; the loaded directory,
      if it is another, changed at the window; nothing else changed. */
  ghost predicate ChangesOnly(m: Memory, m': Memory, dirs: set<frame>, cr3: frame, d: frame,
                              lo: int, hi: int, flags: u32) {
    && (forall u: page :: u / ENTRIES != SELF && !(lo <= u < hi) ==> Walk(m', d, u) == Walk(m, d, u))
    && (forall u: page :: u / ENTRIES == SELF && Mapped(m, d, u) ==> Walk(m', d, u) == Walk(m, d, u))
    && (forall u: page :: u / ENTRIES == SELF && Mapped(m', d, u) ==>
          Mapped(m, d, u) || (lo < hi && lo / ENTRIES <= u - PT_PAGE <= (hi - 1) / ENTRIES
                              && Under(Walk(m', d, u).value, flags)))
    && (forall e, u: page :: e in dirs && e != d && e != cr3 ==> Walk(m', e, u) == Walk(m, e, u))
    && (d != cr3 ==> forall u: page :: u != WINDOW ==> Walk(m', cr3, u) == Walk(m, cr3, u))
  }

  lemma ChangesOneMore(m: Memory, m1: Memory, m2: Memory, dirs: set<frame>, cr3: frame, d: frame,
                       lo: int, v: page, entry: u32, dirEntry: u32, flags: u32)
    requires ChangesOnly(m, m1, dirs, cr3, d, lo, v, flags) && lo <= v && v / ENTRIES != SELF
    requires MapLaw(m1, m2, dirs, cr3, d, v, entry, dirEntry)
    requires d in dirs && SelfMapped(m1, d) && Under(dirEntry, flags)
    ensures ChangesOnly(m, m2, dirs, cr3, d, lo, v + 1, flags)
  {
    SelfMapShows(m1, d, v / ENTRIES);
    var w := TableWindow(v / ENTRIES);
    assert !HasTable(m1, d, v / ENTRIES) ==> !Mapped(m1, d, w);
    assert forall u: page :: u != v && u != w ==> Walk(m2, d, u) == Walk(m1, d, u);
    hide Walk, WellFormed, Under;
  }

  lemma ChangesWiden(m: Memory, m': Memory, dirs: set<frame>, cr3: frame, d: frame,
                     lo: int, hi: int, hi': int, flags: u32)
    requires ChangesOnly(m, m', dirs, cr3, d, lo, hi, flags) && hi <= hi'
    ensures ChangesOnly(m, m', dirs, cr3, d, lo, hi', flags)
  {
    hide Walk;
  }

  /** The pages lo..hi map, under these flags, frames out of from..to, in ascending
      order and so all distinct. */
  ghost predicate Backed(m: Memory, d: frame, lo: int, hi: int, from: int, to: int, flags: u32) {
    && (forall u: page :: lo <= u < hi ==>
          && Mapped(m, d, u) && from <= Translate(m, d, u) < to
          && Walk(m, d, u).value == Entry(Translate(m, d, u), flags))
    && (forall u: page, w: page :: lo <= u < w < hi ==>
          Mapped(m, d, u) && Mapped(m, d, w) && Translate(m, d, u) < Translate(m, d, w))
  }

  lemma BackedOneMore(m: Memory, m': Memory, dirs: set<frame>, cr3: frame, d: frame,
                      lo: int, v: page, from: int, f: frame, to: int, flags: u32, dirEntry: u32)
    requires Backed(m, d, lo, v, from, f, flags) && from <= f < to && v < PT_PAGE && Present(flags)
    requires MapLaw(m, m', dirs, cr3, d, v, Entry(f, flags), dirEntry)
    ensures Backed(m', d, lo, v + 1, from, to, flags)
  {
    EntryParts(f, flags);
    assert Walk(m', d, v) == Some(Entry(f, flags));
    assert forall u: page :: lo <= u < v ==> Walk(m', d, u) == Walk(m, d, u);
    hide Walk, MapLaw, Entry;
  }

  lemma NothingChanged(m: Memory, dirs: set<frame>, cr3: frame, d: frame, lo: int, from: int, to: int, flags: u32)
    ensures ChangesOnly(m, m, dirs, cr3, d, lo, lo, flags) && Backed(m, d, lo, lo, from, to, flags)
  {
  }

  /** The pages lo..hi map to the frames of the same numbers. */
  ghost predicate Identity(m: Memory, d: frame, lo: int, hi: int, flags: u32) {
    forall u: page :: lo <= u < hi ==> Walk(m, d, u) == Some(Entry(u, flags))
  }

  lemma NoneIdentical(m: Memory, d: frame, lo: int, flags: u32)
    ensures Identity(m, d, lo, lo, flags)
  {
  }

  lemma IdentityIsMapped(m: Memory, d: frame, lo: int, v: page, flags: u32)
    requires 0 <= lo < v && Identity(m, d, lo, v, flags)
    ensures Mapped(m, d, v - 1)
  {
  }

  /** Which tables an ascending run of edits finds: those that were there, and the
      one of the page just before. */
  lemma TableFound(m: Memory, m': Memory, dirs: set<frame>, cr3: frame, d: frame, lo: int, v: page, flags: u32)
    requires ChangesOnly(m, m', dirs, cr3, d, lo, v, flags) && lo <= v && v / ENTRIES != SELF
    requires SelfMapped(m, d) && SelfMapped(m', d)
    ensures HasTable(m, d, v / ENTRIES) ==> HasTable(m', d, v / ENTRIES)
    ensures v == lo || v % ENTRIES == 0 ==> HasTable(m', d, v / ENTRIES) == HasTable(m, d, v / ENTRIES)
    ensures v > lo && v % ENTRIES != 0 && Mapped(m', d, v - 1) ==> HasTable(m', d, v / ENTRIES)
  {
    SelfMapShows(m, d, v / ENTRIES);
    SelfMapShows(m', d, v / ENTRIES);
    var w := TableWindow(v / ENTRIES);
    assert Mapped(m, d, w) == HasTable(m, d, v / ENTRIES);
    assert Mapped(m', d, w) == HasTable(m', d, v / ENTRIES);
  }

  /** The tables that an ascending run of edits over lo..hi has to make. */
  function NewTables(m: Memory, d: frame, lo: nat, hi: nat): nat
    requires hi <= 0x10_0000
  {
    if hi <= lo then 0
    else
      NewTables(m, d, lo, hi - 1)
      + (if !HasTable(m, d, (hi - 1) / ENTRIES) && (hi - 1 == lo || (hi - 1) % ENTRIES == 0) then 1 else 0)
  }

  /** ... in closed form, for a directory that has only its first table. */
  function TablesFor(lo: nat, hi: nat): nat {
    if hi <= lo then 0
    else (hi - 1) / ENTRIES - lo / ENTRIES + (if lo / ENTRIES == 0 then 0 else 1)
  }

  lemma {:induction false} NewTablesCounted(m: Memory, d: frame, lo: nat, hi: nat)
    requires hi <= PT_PAGE
    requires forall i :: 0 <= i < SELF ==> (HasTable(m, d, i) <==> i == 0)
    ensures NewTables(m, d, lo, hi) == TablesFor(lo, hi)
  {
    if hi > lo {
      NewTablesCounted(m, d, lo, hi - 1);
    }
  }

  lemma {:induction false} NewTablesGrow(m: Memory, d: frame, lo: nat, mid: nat, hi: nat)
    requires mid <= hi <= 0x10_0000
    ensures NewTables(m, d, lo, mid) <= NewTables(m, d, lo, hi)
    decreases hi
  {
    if mid < hi {
      NewTablesGrow(m, d, lo, mid, hi - 1);
    }
  }

  /** The next page of a run takes a table exactly if it finds none. */
  lemma NewTablesOneMore(m: Memory, m': Memory, dirs: set<frame>, cr3: frame, d: frame, lo: nat, v: page, flags: u32)
    requires ChangesOnly(m, m', dirs, cr3, d, lo, v, flags) && lo <= v < PT_PAGE
    requires SelfMapped(m, d) && SelfMapped(m', d) && (v > lo ==> Mapped(m', d, v - 1))
    ensures NewTables(m, d, lo, v + 1) == NewTables(m, d, lo, v) + (if HasTable(m', d, v / ENTRIES) then 0 else 1)
  {
    hide ChangesOnly, HasTable, Mapped;
    TableFound(m, m', dirs, cr3, d, lo, v, flags);
  }

  /** ... and a frame for each page besides. */
  function RunCost(m: Memory, d: frame, lo: nat, hi: nat): int
    requires hi <= 0x10_0000
  {
    hi - lo + NewTables(m, d, lo, hi)
  }

  lemma NoTablesYet(m: Memory, d: frame, lo: nat)
    requires lo <= 0x10_0000
    ensures NewTables(m, d, lo, lo) == 0
  {
  }

  lemma BackedIsMapped(m: Memory, d: frame, lo: int, v: page, from: int, to: int, flags: u32)
    requires 0 <= lo < v && Backed(m, d, lo, v, from, to, flags)
    ensures Mapped(m, d, v - 1)
  {
  }

  lemma IdentityOneMore(m: Memory, m': Memory, dirs: set<frame>, cr3: frame, d: frame,
                        lo: int, v: page, flags: u32, dirEntry: u32)
    requires Identity(m, d, lo, v, flags) && v < PT_PAGE && Present(flags)
    requires MapLaw(m, m', dirs, cr3, d, v, Entry(v, flags), dirEntry)
    ensures Identity(m', d, lo, v + 1, flags)
  {
    EntryParts(v, flags);
    hide Walk, Entry;
  }

  /** The first directory: a table of the first 4 MiB, the self-map, and nothing else. */
  ghost predicate FirstDirectory(m: Memory, d: frame, table: frame, flags: u32) {
    && d != table
    && (forall i :: 0 <= i < ENTRIES ==>
          m[d][i] == (if i == 0 then Entry(table, flags) else if i == SELF then Entry(d, flags) else 0))
    && (forall i :: 0 <= i < ENTRIES ==> m[table][i] == Entry(i, flags))
  }

  lemma OneTable(m: Memory, d: frame, table: frame, limit: int)
    requires SelfMapped(m, d) && d != table && d < limit && table < limit
    requires forall i :: 0 <= i < SELF ==> (HasTable(m, d, i) <==> i == 0)
    requires HasTable(m, d, 0) && Table(m, d, 0) == table
    ensures WellFormed(m, {d}, limit)
  {
    hide HasTable, Table, SelfMapped;
  }

  lemma FirstDirectoryIsWellFormed(m: Memory, d: frame, table: frame, limit: int, flags: u32)
    requires FirstDirectory(m, d, table, flags) && Present(flags) && d < limit && table < limit
    ensures WellFormed(m, {d}, limit) && Identity(m, d, 0, ENTRIES, flags)
    ensures forall i :: 0 <= i < SELF ==> (HasTable(m, d, i) <==> i == 0)
  {
    hide Entry, WellFormed;
    EntryParts(d, flags);
    EntryParts(table, flags);
    OneTable(m, d, table, limit);
    forall u: page | u < ENTRIES
      ensures Walk(m, d, u) == Some(Entry(u, flags))
    {
      EntryParts(u, flags);
    }
  }

  // ------------------------------------------------ adding an address space

  /** A frame on no walk's path. */
  ghost predicate Unused(m: Memory, dirs: set<frame>, f: frame) {
    f !in dirs && forall d, i :: d in dirs && 0 <= i < SELF && HasTable(m, d, i) ==> Table(m, d, i) != f
  }

  lemma FirstDirectoryUses(m: Memory, d: frame, table: frame, flags: u32, f: frame)
    requires FirstDirectory(m, d, table, flags) && f != d && f != table
    ensures Unused(m, {d}, f)
  {
    EntryParts(table, flags);
  }

  /** The allocator's next frame is on no walk's path. */
  lemma NextIsUnused(m: Memory, dirs: set<frame>, limit: frame)
    requires WellFormed(m, dirs, limit)
    ensures Unused(m, dirs, limit)
  {
  }

  /** Writing an unused frame is invisible to every translation. */
  lemma UnusedIsInvisible(m: Memory, dirs: set<frame>, limit: int, f: frame, w: Words, g: frame)
    requires WellFormed(m, dirs, limit) && Unused(m, dirs, f)
    ensures WellFormed(m[f := w], dirs, limit)
    ensures Unused(m, dirs, g) ==> Unused(m[f := w], dirs, g)
    ensures SameWalks(m, m[f := w], dirs)
  {
    var m' := m[f := w];
    SameDirectories(m, m', dirs, limit);
    assert forall d, i :: d in dirs && 0 <= i < SELF ==>
        HasTable(m', d, i) == HasTable(m, d, i) && Table(m', d, i) == Table(m, d, i);
    forall e, u: page | e in dirs
      ensures Walk(m', e, u) == Walk(m, e, u)
    {
      if u / ENTRIES != SELF && HasTable(m, e, u / ENTRIES) {
        assert Table(m, e, u / ENTRIES) != f;
      }
    }
  }

  /** Editing a page of one space leaves an unused frame unused and as it was. */
  lemma UnusedKept(m: Memory, dirs: set<frame>, limit: int, d: frame, v: page, entry: u32, dirEntry: u32, f: frame)
    requires Editable(m, dirs, limit, d, v, dirEntry) && Unused(m, dirs, f)
    requires HasTable(m, d, v / ENTRIES) || f < limit
    ensures Unused(WithPage(m, d, v, entry, dirEntry), dirs, f)
    ensures WithPage(m, d, v, entry, dirEntry)[f] == m[f]
  {
    forall e, i | e in dirs && 0 <= i < SELF
      ensures var m' := WithPage(m, d, v, entry, dirEntry); HasTable(m', e, i) ==> Table(m', e, i) != f
    {
      WithPageWords(m, dirs, limit, d, v, entry, dirEntry, e, i);
    }
  }

  /** A finished first directory in unused frames is one more address space. */
  lemma SpaceAdded(m: Memory, dirs: set<frame>, limit: int, d: frame, table: frame, flags: u32)
    requires WellFormed(m, dirs, limit) && Unused(m, dirs, d) && Unused(m, dirs, table)
    requires FirstDirectory(m, d, table, flags) && Present(flags) && d < limit && table < limit
    ensures WellFormed(m, dirs + {d}, limit)
  {
    FirstDirectoryIsWellFormed(m, d, table, limit, flags);
    EntryParts(table, flags);
    assert Table(m, d, 0) == table;
    hide Entry, FirstDirectory;
  }

  lemma SpaceDropped(m: Memory, dirs: set<frame>, limit: int, d: frame)
    requires WellFormed(m, dirs + {d}, limit)
    ensures WellFormed(m, dirs, limit)
  {
  }

  lemma UnusedIsOffPath(m: Memory, dirs: set<frame>, d: frame, v: page, f: frame)
    requires Unused(m, dirs, f) && d in dirs && v / ENTRIES != SELF && Mapped(m, d, v)
    ensures f != d && f != Table(m, d, v / ENTRIES) && HasTable(m, d, v / ENTRIES)
  {
  }

  ghost predicate SameWalks(m: Memory, m': Memory, dirs: set<frame>) {
    forall e, u: page :: e in dirs ==> Walk(m', e, u) == Walk(m, e, u)
  }

  /** A directory that identity-maps the first 4 MiB still does so after identity edits
      of one run of pages and any edits of another, higher one. */
  lemma IdentityKept(m0: Memory, m1: Memory, m2: Memory, dirs: set<frame>, cr3: frame, d: frame,
                     first: int, end: int, lo: int, hi: int, flags: u32)
    requires Identity(m0, d, 0, ENTRIES, flags) && end <= PT_PAGE && ENTRIES <= lo
    requires ChangesOnly(m0, m1, dirs, cr3, d, first, end, flags) && Identity(m1, d, first, end, flags)
    requires ChangesOnly(m1, m2, dirs, cr3, d, lo, hi, flags)
    ensures Identity(m2, d, 0, ENTRIES, flags)
    ensures forall u: page :: first <= u < end && !(lo <= u < hi) ==> Walk(m2, d, u) == Some(Entry(u, flags))
  {
    hide Walk, Entry;
  }
}
