/** kernel/scheduler.c, create_task: the stack that a new task starts on, which the kernel
    writes through a page of its own, and the slot that the task gets. */
module TaskCreation {
  import opened AddressSpaces
  import opened DataFrames
  import opened MachineWords
  import opened Options
  import opened PageTables
  import opened Paging
  import Tasks = Scheduler

  /** The stack of a task, and where the kernel writes to it. */
  const STACK: page := 0xD_0000
  const STACK_WINDOW: page := 0xF_0004
  const STACK_TABLE: int := 832

  /** The words that a new task finds on its stack, the lowest first. */
  function StartWords(entry: u32): (s: seq<u32>)
    ensures |s| == 11
  {
    [0, 0, 0xD000_0000, 0xD000_0000, 0, 0, 0, 0, entry, 8, 0x202]
  }

  /** The word at a virtual address. */
  function WordAt(m: Memory, d: frame, a: nat): Option<u32>
    requires a < TWO32 && a % 4 == 0
  {
    if Mapped(m, d, a / 4096) then Some(m[Translate(m, d, a / 4096)][a % 4096 / 4]) else None
  }

  datatype Registers = Registers(edi: u32, esi: u32, ebp: u32, ebx: u32, edx: u32, ecx: u32, eax: u32,
                                 eip: u32, cs: u32, eflags: u32, esp: u32)

  /** The k-th word from a stack pointer on. */
  function Popped(m: Memory, d: frame, esp: u32, k: nat): Option<u32>
    requires esp % 4 == 0 && esp + 4 * k < TWO32
  {
    WordAt(m, d, esp + 4 * k)
  }

  /** What `popa` and `iretd` load from a stack: seven registers, with one word skipped, then the
      place to go on at; none on a page fault. */
  function Resumed(m: Memory, d: frame, esp: u32): Option<Registers>
    requires esp % 4 == 0 && esp + 44 < TWO32
  {
    if forall k :: 0 <= k < 11 ==> Popped(m, d, esp, k).Some? then
      Some(Registers(Popped(m, d, esp, 0).value, Popped(m, d, esp, 1).value, Popped(m, d, esp, 2).value,
                     Popped(m, d, esp, 4).value, Popped(m, d, esp, 5).value, Popped(m, d, esp, 6).value,
                     Popped(m, d, esp, 7).value, Popped(m, d, esp, 8).value, Popped(m, d, esp, 9).value,
                     Popped(m, d, esp, 10).value, esp + 44))
    else None
  }

  /** A task that has just been created begins at its entry, interrupts enabled, with its whole
      stack before it. */
  function Started(entry: u32): Registers {
    Registers(0, 0, 0xD000_0000, 0, 0, 0, 0, entry, 8, 0x202, 0xD000_1000)
  }

  /** Frame f holds these words from word k to its end, and is otherwise as in m0. */
  ghost predicate Stacked(m0: Memory, m: Memory, f: frame, k: nat, words: seq<u32>) {
    && m == m0[f := m[f]]
    && k + |words| == 1024 && m[f][k..] == words && m[f][..k] == m0[f][..k]
  }

  lemma NothingStacked(m: Memory, f: frame)
    ensures Stacked(m, m, f, 1024, [])
  {
  }

  lemma OneMoreStacked(m0: Memory, m: Memory, f: frame, k: nat, words: seq<u32>, w: u32)
    requires k > 0 && Stacked(m0, m, f, k, words)
    ensures Stacked(m0, Store(m, f, k - 1, w), f, k - 1, [w] + words)
  {
    var a, b := m[f], m[f][k - 1 := w];
    assert b[k - 1..] == [b[k - 1]] + b[k..] && b[k..] == a[k..];
    assert b[..k - 1] == a[..k][..k - 1] && m0[f][..k - 1] == m0[f][..k][..k - 1];
  }

  /** `*(--stack) = w` */
  method Push(mmu: Mmu, k: nat, w: u32, ghost m0: Memory, ghost f: frame, ghost words: seq<u32>)
    returns (k': nat, ghost words': seq<u32>)
    requires 0 < k <= 1024 && mmu.cr3 in mmu.dirs && Stacked(m0, mmu.mem, f, k, words)
    requires WellFormed(m0, mmu.dirs, mmu.Limit()) && Unused(m0, mmu.dirs, f)
    requires Walk(m0, mmu.cr3, STACK_WINDOW) == Some(Entry(f, PAGE_DEFAULT))
    modifies mmu`mem
    ensures k' == k - 1 && words' == [w] + words && Stacked(m0, mmu.mem, f, k', words')
  {
    hide Walk, WellFormed, Unused, Entry, Stacked, Store;
    UnusedIsInvisible(m0, mmu.dirs, mmu.Limit(), f, mmu.mem[f], f);
    StackedIs(m0, mmu.mem, f, k, words);
    EntryParts(f, PAGE_DEFAULT);
    OneMoreStacked(m0, mmu.mem, f, k, words, w);
    k', words' := k - 1, [w] + words;
    mmu.StoreWord(STACK_WINDOW, k', w);
  }

  lemma StackedIs(m0: Memory, m: Memory, f: frame, k: nat, words: seq<u32>)
    requires Stacked(m0, m, f, k, words)
    ensures m == m0[f := m[f]]
  {
  }

  /** The eleven stores to the new stack. */
  method PushStart(mmu: Mmu, entry: u32, ghost f: frame)
    requires mmu.Valid() && Unused(mmu.mem, mmu.dirs, f)
    requires Walk(mmu.mem, mmu.cr3, STACK_WINDOW) == Some(Entry(f, PAGE_DEFAULT))
    modifies mmu`mem
    ensures Stacked(old(mmu.mem), mmu.mem, f, 1013, StartWords(entry))
    ensures mmu.Valid() && SameWalks(old(mmu.mem), mmu.mem, mmu.dirs) && Unused(mmu.mem, mmu.dirs, f)
  {
    hide Walk, WellFormed, Unused, Entry, Stacked;
    ghost var m := mmu.mem;
    NothingStacked(m, f);
    var stack;
    ghost var s;
    stack, s := Push(mmu, 1024, 0x202, m, f, []);
    stack, s := Push(mmu, stack, 8, m, f, s);
    stack, s := Push(mmu, stack, entry, m, f, s);
    stack, s := Push(mmu, stack, 0, m, f, s);
    stack, s := Push(mmu, stack, 0, m, f, s);
    stack, s := Push(mmu, stack, 0, m, f, s);
    stack, s := Push(mmu, stack, 0, m, f, s);
    stack, s := Push(mmu, stack, 0xD000_0000, m, f, s);
    stack, s := Push(mmu, stack, 0xD000_0000, m, f, s);
    stack, s := Push(mmu, stack, 0, m, f, s);
    stack, s := Push(mmu, stack, 0, m, f, s);
    assert s == StartWords(entry);
    StackedIs(m, mmu.mem, f, 1013, StartWords(entry));
    UnusedIsInvisible(m, mmu.dirs, mmu.Limit(), f, mmu.mem[f], f);
  }

  /** A task whose stack page is that frame starts as it should. */
  lemma StartsAt(m0: Memory, m: Memory, d: frame, f: frame, entry: u32)
    requires Stacked(m0, m, f, 1013, StartWords(entry))
    requires Walk(m, d, STACK) == Some(Entry(f, PAGE_DEFAULT))
    ensures Resumed(m, d, 0xD000_0FD4) == Some(Started(entry))
  {
    hide Popped, Walk;
    forall k | 0 <= k < 11
      ensures Popped(m, d, 0xD000_0FD4, k) == Some(StartWords(entry)[k])
    {
      PoppedAt(m0, m, d, f, entry, k);
    }
  }

  lemma PoppedAt(m0: Memory, m: Memory, d: frame, f: frame, entry: u32, k: nat)
    requires Stacked(m0, m, f, 1013, StartWords(entry)) && k < 11
    requires Walk(m, d, STACK) == Some(Entry(f, PAGE_DEFAULT))
    ensures Popped(m, d, 0xD000_0FD4, k) == Some(StartWords(entry)[k])
  {
    hide Walk, Entry, StartWords;
    EntryParts(f, PAGE_DEFAULT);
    var words := StartWords(entry);
    assert (0xD000_0FD4 + 4 * k) / 4096 == STACK && (0xD000_0FD4 + 4 * k) % 4096 / 4 == 1013 + k;
    assert m[f][1013..][k] == words[k];
  }

  // ------------------------------------------------------ the stack's pages

  /** All that `create_task` does to translations: in the loaded directory to its windows, in
      the new one to the stack's page and the window of its table. */
  ghost predicate StackOnly(m: Memory, m': Memory, dirs: set<frame>, cr3: frame, d: frame) {
    && (forall u: page :: !Windowed(u) ==> Walk(m', cr3, u) == Walk(m, cr3, u))
    && (forall u: page :: u != STACK && u != TableWindow(STACK_TABLE) ==> Walk(m', d, u) == Walk(m, d, u))
    && (forall e, u: page :: e in dirs && e != cr3 && e != d ==> Walk(m', e, u) == Walk(m, e, u))
  }

  predicate Windowed(u: page) {
    u == FOREIGN_PD || u == WINDOW || u == STACK_WINDOW || u == TableWindow(WINDOW_TABLE)
  }

  lemma StackOnlyTwice(m: Memory, m1: Memory, m2: Memory, dirs: set<frame>, cr3: frame, d: frame)
    requires StackOnly(m, m1, dirs, cr3, d) && StackOnly(m1, m2, dirs, cr3, d)
    ensures StackOnly(m, m2, dirs, cr3, d)
  {
    hide Walk, Windowed;
  }

  lemma StackOnlySame(m: Memory, m': Memory, dirs: set<frame>, cr3: frame, d: frame)
    requires SameWalks(m, m', dirs) && cr3 in dirs && d in dirs
    ensures StackOnly(m, m', dirs, cr3, d)
  {
    hide Walk, Windowed;
  }

  lemma NothingMoved(m: Memory, dirs: set<frame>, cr3: frame, d: frame)
    ensures StackOnly(m, m, dirs, cr3, d)
  {
  }

  lemma ByWindow(m: Memory, m': Memory, dirs: set<frame>, cr3: frame, d: frame, v: page, f: frame, dirEntry: u32)
    requires v == FOREIGN_PD || v == STACK_WINDOW
    requires MapLaw(m, m', dirs, cr3, cr3, v, Entry(f, PAGE_DEFAULT), dirEntry) && d in dirs - {cr3}
    ensures StackOnly(m, m', dirs, cr3, d) && Walk(m', cr3, v) == Some(Entry(f, PAGE_DEFAULT))
    ensures v != FOREIGN_PD ==> Walk(m', cr3, FOREIGN_PD) == Walk(m, cr3, FOREIGN_PD)
    ensures forall u: page :: Walk(m', d, u) == Walk(m, d, u)
  {
    hide Walk, Entry;
    EntryParts(f, PAGE_DEFAULT);
  }

  lemma ByStack(m: Memory, m': Memory, dirs: set<frame>, cr3: frame, d: frame, f: frame, dirEntry: u32)
    requires MapLaw(m, m', dirs, cr3, d, STACK, Entry(f, PAGE_DEFAULT), dirEntry) && d in dirs - {cr3}
    ensures StackOnly(m, m', dirs, cr3, d) && Walk(m', d, STACK) == Some(Entry(f, PAGE_DEFAULT))
    ensures Walk(m', cr3, STACK_WINDOW) == Walk(m, cr3, STACK_WINDOW)
  {
    hide Walk, Entry;
    EntryParts(f, PAGE_DEFAULT);
  }

  lemma SameTables(m: Memory, m': Memory, d: frame, i: int)
    requires SelfMapped(m, d) && SelfMapped(m', d) && 0 <= i < ENTRIES
    requires forall u: page :: Walk(m', d, u) == Walk(m, d, u)
    ensures HasTable(m', d, i) == HasTable(m, d, i)
  {
    SelfMapShows(m, d, i);
    SelfMapShows(m', d, i);
    hide Walk;
    assert Walk(m', d, TableWindow(i)) == Walk(m, d, TableWindow(i));
  }

  /** Frames that the kernel's window takes, then the stack's, then its table in the new directory. */
  predicate CanMapStack(m: Memory, cr3: frame, d: frame, next: int, pages: int) {
    && next + WindowCost(m, cr3) <= pages
    && (HasTable(m, d, STACK_TABLE) || next + WindowCost(m, cr3) + 2 <= pages)
  }

  /** The stack's frame; frame 0 if the pool has none left, which nobody looks at. */
  function StackFrame(m: Memory, cr3: frame, next: int, pages: int): int {
    if next + WindowCost(m, cr3) < pages then POOL + next + WindowCost(m, cr3) else 0
  }

  /** The three calls of `map_page`. */
  method MapStack(mmu: Mmu, pdPhys: u32) returns (r: int)
    requires mmu.Valid() && FrameOf(pdPhys) in mmu.dirs - {mmu.cr3} && Unused(mmu.mem, mmu.dirs, 0)
    modifies mmu, mmu.frames, mmu.frames.bitmap
    ensures mmu.Valid() && mmu.SameSpaces(old(mmu.dirs), old(mmu.cr3)) && old(mmu.Limit()) <= mmu.Limit()
    ensures r == 0 || r == -1
    ensures r == 0 <==> old(CanMapStack(mmu.mem, mmu.cr3, FrameOf(pdPhys), mmu.frames.next, mmu.frames.maxPages))
    ensures StackOnly(old(mmu.mem), mmu.mem, mmu.dirs, mmu.cr3, FrameOf(pdPhys))
    ensures DataKept(old(mmu.mem), mmu.dirs, mmu.mem, mmu.dirs, old(mmu.Limit()))
    ensures r == 0 ==>
      var f := old(StackFrame(mmu.mem, mmu.cr3, mmu.frames.next, mmu.frames.maxPages));
      && 0 <= f < mmu.Limit() && Unused(mmu.mem, mmu.dirs, f)
      && Walk(mmu.mem, FrameOf(pdPhys), STACK) == Some(Entry(f, PAGE_DEFAULT))
      && Walk(mmu.mem, mmu.cr3, STACK_WINDOW) == Some(Entry(f, PAGE_DEFAULT))
  {
    hide Walk, MapThrough, MapLaw, Unused, Entry, WellFormed, HasTable, DataKept, StackOnly;
    ghost var m0, d, cr3, dirs, limit := mmu.mem, FrameOf(pdPhys), mmu.cr3, mmu.dirs, mmu.Limit();
    NothingMoved(m0, dirs, cr3, d);
    mmu.DirectoryShown(PD_PAGE);
    r := mmu.MapPage(PD_PAGE, pdPhys, 4096 * FOREIGN_PD, PAGE_DEFAULT);
    if r < 0 {
      return;
    }
    ghost var m1, limit1 := mmu.mem, mmu.Limit();
    ByWindow(m0, m1, dirs, cr3, d, FOREIGN_PD, d, Entry(limit, PAGE_DEFAULT));
    StaysUnused(m0, m1, dirs, limit, 0);
    WindowHasTable(m1, cr3, d);
    SelfMappedBoth(m0, m1, dirs, limit, limit1, d);
    SameTables(m0, m1, d, STACK_TABLE);
    NextIsUnused(m1, dirs, limit1);
    var stackPhys := mmu.AllocPage();
    ghost var f, limit2 := FrameOf(stackPhys), mmu.Limit();
    r := mmu.MapPage(PD_PAGE, stackPhys, 4096 * STACK_WINDOW, PAGE_DEFAULT);
    ghost var m2, limit3 := mmu.mem, mmu.Limit();
    ByWindow(m1, m2, dirs, cr3, d, STACK_WINDOW, f, Entry(limit2, PAGE_DEFAULT));
    StackOnlyTwice(m0, m1, m2, dirs, cr3, d);
    DataKeptTwice(m0, dirs, m1, dirs, m2, dirs, limit, limit2);
    StaysUnused(m1, m2, dirs, limit2, f);
    SelfMappedBoth(m1, m2, dirs, limit1, limit3, d);
    SameTables(m1, m2, d, STACK_TABLE);
    EntryParts(d, PAGE_DEFAULT);
    r := mmu.MapPage(FOREIGN_PD, stackPhys, 4096 * STACK, PAGE_DEFAULT);
    DataKeptTwice(m0, dirs, m2, dirs, mmu.mem, dirs, limit, limit3);
    if r < 0 {
      return;
    }
    ByStack(m2, mmu.mem, dirs, cr3, d, f, Entry(limit3, PAGE_DEFAULT));
    StackOnlyTwice(m0, m2, mmu.mem, dirs, cr3, d);
    StaysUnused(m2, mmu.mem, dirs, limit3, f);
  }

  lemma SelfMappedBoth(m: Memory, m': Memory, dirs: set<frame>, limit: int, limit': int, d: frame)
    requires WellFormed(m, dirs, limit) && WellFormed(m', dirs, limit') && d in dirs
    ensures SelfMapped(m, d) && SelfMapped(m', d)
  {
  }

  /** `create_task`. It fails exactly when the pages for the stack cannot be mapped or no slot is
      free. The task gets the lowest free slot, and begins at its entry; its stack lies
      in a frame of its own exactly if the pool had one, and otherwise in frame 0. */
  method CreateTask(mmu: Mmu, kernel: Tasks.Kernel, pdPhys: u32, entry: u32) returns (r: int)
    requires mmu.Valid() && FrameOf(pdPhys) in mmu.dirs - {mmu.cr3} && Unused(mmu.mem, mmu.dirs, 0)
    requires kernel.Valid()
    modifies mmu, mmu.frames, mmu.frames.bitmap, kernel.tasks
    ensures mmu.Valid() && mmu.SameSpaces(old(mmu.dirs), old(mmu.cr3)) && kernel.Valid()
    ensures r == 0 || r == -1
    ensures r == -1
       <==> || !old(CanMapStack(mmu.mem, mmu.cr3, FrameOf(pdPhys), mmu.frames.next, mmu.frames.maxPages))
            || forall i :: 0 <= i < Tasks.MAX_TASKS ==> old(kernel.tasks[i].present)
    ensures r == -1 ==> kernel.tasks[..] == old(kernel.tasks[..])
    ensures r == 0 ==> exists i: Tasks.slot ::
      && old(!kernel.tasks[i].present) && (forall t: Tasks.slot :: t < i ==> old(kernel.tasks[t].present))
      && kernel.tasks[i] == Tasks.Task(0xD000_0FD4, pdPhys, old(kernel.tasks[kernel.curTaskIdx].cwd), true)
      && (forall t: Tasks.slot :: t != i ==> kernel.tasks[t] == old(kernel.tasks[t]))
      && Resumed(mmu.mem, kernel.tasks[i].cr3 / 4096, kernel.tasks[i].esp) == Some(Started(entry))
    ensures r == 0 ==>
      var f := old(StackFrame(mmu.mem, mmu.cr3, mmu.frames.next, mmu.frames.maxPages));
      && 0 <= f < 0x10_0000 && Walk(mmu.mem, FrameOf(pdPhys), STACK) == Some(Entry(f, PAGE_DEFAULT))
      && Unused(mmu.mem, mmu.dirs, f) && (f == 0 || old(mmu.Limit()) <= f < mmu.Limit())
    ensures StackOnly(old(mmu.mem), mmu.mem, mmu.dirs, mmu.cr3, FrameOf(pdPhys))
    ensures old(StackFrame(mmu.mem, mmu.cr3, mmu.frames.next, mmu.frames.maxPages)) != 0 ==>
      DataKept(old(mmu.mem), mmu.dirs, mmu.mem, mmu.dirs, old(mmu.Limit()))
  {
    hide Walk, Unused, Entry, WellFormed, HasTable, DataKept, StackOnly, WindowCost, Stacked, Resumed, SameWalks;
    ghost var m0, d, dirs, limit := mmu.mem, FrameOf(pdPhys), mmu.dirs, mmu.Limit();
    ghost var f := StackFrame(m0, mmu.cr3, mmu.frames.next, mmu.frames.maxPages);
    r := MapStack(mmu, pdPhys);
    if r < 0 {
      return;
    }
    ghost var m1 := mmu.mem;
    PushStart(mmu, entry, f);
    StackedIs(m1, mmu.mem, f, 1013, StartWords(entry));
    WalksStay(m1, mmu.mem, dirs, d);
    StartsAt(m1, mmu.mem, d, f, entry);
    StackOnlySame(m1, mmu.mem, dirs, mmu.cr3, d);
    StackOnlyTwice(m0, m1, mmu.mem, dirs, mmu.cr3, d);
    if f != 0 {
      FreshWriteKeepsData(m1, dirs, mmu.Limit(), f, mmu.mem[f], limit);
      DataKeptTwice(m0, dirs, m1, dirs, mmu.mem, dirs, limit, limit);
    }
    r := kernel.AddTask(0xD000_0FD4, pdPhys);
  }

  lemma WalksStay(m: Memory, m': Memory, dirs: set<frame>, d: frame)
    requires SameWalks(m, m', dirs) && d in dirs
    ensures Walk(m', d, STACK) == Walk(m, d, STACK)
  {
    hide Walk;
  }

  /** ... so that, when the scheduler first goes to the task, on a stack that is as it was left,
      the interrupt's return goes to the task's entry. */
  lemma FirstRun(m: Memory, s: Tasks.State, pdPhys: u32, entry: u32, es: seq<Tasks.Event>, i: Tasks.slot)
    requires !s.tasks[i].present && (forall t: Tasks.slot :: t < i ==> s.tasks[t].present) && i != s.cur
    requires var s' := Tasks.Step(s, Tasks.Create(0xD000_0FD4, pdPhys));
      && Tasks.Legal(s', es) && Tasks.Stays(s', es, i) && Tasks.Waits(s', es, i) && Tasks.After(s', es).cur == i
    requires Resumed(m, FrameOf(pdPhys), 0xD000_0FD4) == Some(Started(entry))
    ensures var task := Tasks.After(Tasks.Step(s, Tasks.Create(0xD000_0FD4, pdPhys)), es).tasks[i];
      task.esp == 0xD000_0FD4 && Resumed(m, FrameOf(task.cr3), task.esp) == Some(Started(entry))
  {
    hide Resumed;
    Tasks.CreatedIsDispatched(s, 0xD000_0FD4, pdPhys, es, i);
  }
}
