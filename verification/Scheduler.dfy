/** kernel/scheduler.c and the timer interrupt of kernel/sys/pic.asm: round robin
    over sixteen slots. */
module Scheduler {
  import opened MachineWords

  const MAX_TASKS: int := 16

  datatype Folder = Folder(depth: u32, cluster: u32)
  datatype Task = Task(esp: u32, cr3: u32, cwd: Folder, present: bool)

  const NO_TASK: Task := Task(0, 0, Folder(0, 0), false)

  type Slots = t: seq<Task> | |t| == 16 witness seq(16, i => NO_TASK)
  type slot = i: int | 0 <= i < 16

  predicate Someone(ts: Slots) {
    exists i :: 0 <= i < MAX_TASKS && ts[i].present
  }

  // -------------------------------------------------- the search for a slot

  /** The slot e slots on from cur, going round at most once. */
  function On(cur: slot, e: nat): slot
    requires e <= MAX_TASKS
  {
    if cur + e < MAX_TASKS then cur + e else cur + e - MAX_TASKS
  }

  ghost predicate SomeoneWithin(ts: Slots, cur: slot, from: nat) {
    exists e :: from <= e <= MAX_TASKS && ts[On(cur, e)].present
  }

  /** The least d >= from with a task d slots on from cur. */
  function Distance(ts: Slots, cur: slot, from: nat): (d: nat)
    requires SomeoneWithin(ts, cur, from) && from <= MAX_TASKS
    ensures from <= d <= MAX_TASKS && ts[On(cur, d)].present
    ensures forall e :: from <= e < d ==> !ts[On(cur, e)].present
    decreases MAX_TASKS - from
  {
    if ts[On(cur, from)].present then from else Distance(ts, cur, from + 1)
  }

  lemma SomeoneAhead(ts: Slots, cur: slot)
    requires Someone(ts)
    ensures SomeoneWithin(ts, cur, 1)
  {
    var i :| 0 <= i < MAX_TASKS && ts[i].present;
    assert On(cur, Ahead(cur, i)) == i;
  }

  /** How many slots ahead of cur the slot t is, 16 standing for all the way round. */
  function Ahead(cur: slot, t: slot): nat {
    if t > cur then t - cur else t - cur + MAX_TASKS
  }

  /** The slot that the scheduler goes to from cur. */
  function Next(ts: Slots, cur: slot): slot
    requires Someone(ts)
  {
    SomeoneAhead(ts, cur);
    On(cur, Distance(ts, cur, 1))
  }

  /** The scheduler never steps over a present task. */
  lemma NextIsNearest(ts: Slots, cur: slot, t: slot)
    requires ts[t].present
    ensures Someone(ts) && ts[Next(ts, cur)].present
    ensures Next(ts, cur) == t || Ahead(Next(ts, cur), t) < Ahead(cur, t)
  {
    SomeoneAhead(ts, cur);
    assert On(cur, Ahead(cur, t)) == t;
  }

  // -------------------------------------------------------------- the kernel

  datatype State = State(tasks: Slots, cur: slot)

  /** What can happen: the timer interrupts the running task, at stack pointer esp; a
      task is created; the running task exits, which ends in the same interrupt. */
  datatype Event = Tick(esp: u32) | Create(esp: u32, cr3: u32) | Exit(esp: u32)

  predicate IsSwitch(e: Event) { e.Tick? || e.Exit? }

  function Saved(s: State, esp: u32): State {
    s.(tasks := s.tasks[s.cur := s.tasks[s.cur].(esp := esp)])
  }

  function Gone(s: State): State {
    s.(tasks := s.tasks[s.cur := s.tasks[s.cur].(present := false)])
  }

  function FreeSlot(ts: Slots, from: nat): (i: nat)
    requires from <= MAX_TASKS
    ensures from <= i <= MAX_TASKS && (i < MAX_TASKS ==> !ts[i].present)
    ensures forall j :: from <= j < i ==> ts[j].present
    decreases MAX_TASKS - from
  {
    if from == MAX_TASKS || !ts[from].present then from else FreeSlot(ts, from + 1)
  }

  /** A task that exits must leave someone to go to, or the search never ends. */
  predicate Enabled(s: State, e: Event) {
    match e
    case Tick(esp) => Someone(s.tasks)
    case Create(esp, cr3) => true
    case Exit(esp) => Someone(Gone(s).tasks)
  }

  function Switched(s: State): State
    requires Someone(s.tasks)
  {
    s.(cur := Next(s.tasks, s.cur))
  }

  lemma SavedStays(s: State, esp: u32)
    ensures Someone(Saved(s, esp).tasks) == Someone(s.tasks)
  {
    forall i | 0 <= i < MAX_TASKS
      ensures Saved(s, esp).tasks[i].present == s.tasks[i].present
    {
    }
    if Someone(s.tasks) {
      var i :| 0 <= i < MAX_TASKS && s.tasks[i].present;
      assert Saved(s, esp).tasks[i].present;
    }
  }

  function Step(s: State, e: Event): State
    requires Enabled(s, e)
  {
    match e
    case Tick(esp) =>
      SavedStays(s, esp);
      Switched(Saved(s, esp))
    case Create(esp, cr3) =>
      var i := FreeSlot(s.tasks, 0);
      if i == MAX_TASKS then s
      else s.(tasks := s.tasks[i := Task(esp, cr3, s.tasks[s.cur].cwd, true)])
    case Exit(esp) =>
      SavedStays(Gone(s), esp);
      Switched(Saved(Gone(s), esp))
  }

  /** A step leaves every present task alone, but for the one that was running. */
  lemma StepKeepsOthers(s: State, e: Event, t: slot)
    requires Enabled(s, e) && s.tasks[t].present && t != s.cur
    ensures Step(s, e).tasks[t] == s.tasks[t]
  {
  }

  /** An exit takes its slot out of the table, and no other. */
  lemma ExitRemoves(s: State, esp: u32)
    requires Enabled(s, Exit(esp)) && s.tasks[s.cur].present
    ensures var s' := Step(s, Exit(esp));
      && !s'.tasks[s.cur].present && s'.cur != s.cur && s'.tasks[s'.cur].present
      && (forall t: slot :: t != s.cur ==> s'.tasks[t] == s.tasks[t])
      && Present(s'.tasks, 16) == Present(s.tasks, 16) - 1
  {
    var s' := Step(s, Exit(esp));
    SavedStays(Gone(s), esp);
    SomeoneAhead(Saved(Gone(s), esp).tasks, s.cur);
    hide Next, Distance, Someone;
    PresentUpdate(s.tasks, s.cur, s'.tasks[s.cur], 16);
    assert s'.tasks == s.tasks[s.cur := s'.tasks[s.cur]];
  }

  lemma {:induction false} PresentUpdate(ts: Slots, t: slot, task: Task, n: nat)
    requires n <= MAX_TASKS
    ensures Present(ts[t := task], n)
         == Present(ts, n) + if t >= n || ts[t].present == task.present then 0 else if task.present then 1 else -1
  {
    if n > 0 {
      PresentUpdate(ts, t, task, n - 1);
    }
  }

  /** A creation puts the new task in the lowest absent slot, with what it was given and the
      directory of its creator, and touches no other; it does nothing if there is none. */
  lemma CreatePuts(s: State, esp: u32, cr3: u32)
    ensures var s' := Step(s, Create(esp, cr3));
      && s'.cur == s.cur
      && ((forall t: slot :: s.tasks[t].present) ==> s' == s)
      && forall i: slot :: !s.tasks[i].present && (forall t: slot :: t < i ==> s.tasks[t].present) ==>
        && s'.tasks[i].esp == esp && s'.tasks[i].cr3 == cr3 && s'.tasks[i].present
        && s'.tasks[i].cwd == s.tasks[s.cur].cwd
        && forall t: slot :: t != i ==> s'.tasks[t] == s.tasks[t]
  {
  }

  // ----------------------------------------------------------------- runs

  ghost predicate Legal(s: State, es: seq<Event>)
    decreases |es|
  {
    es == [] || (Enabled(s, es[0]) && Legal(Step(s, es[0]), es[1..]))
  }

  ghost function After(s: State, es: seq<Event>): State
    requires Legal(s, es)
    decreases |es|
  {
    if es == [] then s else After(Step(s, es[0]), es[1..])
  }

  /** The task in slot t stays there over the whole run. */
  ghost predicate Stays(s: State, es: seq<Event>, t: slot)
    requires Legal(s, es)
    decreases |es|
  {
    s.tasks[t].present && (es == [] || Stays(Step(s, es[0]), es[1..], t))
  }

  function Switches(es: seq<Event>): nat {
    if es == [] then 0 else (if IsSwitch(es[0]) then 1 else 0) + Switches(es[1..])
  }

  /** Every tick and every exit counts, wherever it stands, and no creation does. */
  lemma {:induction false} SwitchesSplit(es: seq<Event>, k: nat)
    requires k < |es|
    ensures Switches(es) == Switches(es[..k]) + (if es[k].Create? then 0 else 1) + Switches(es[k + 1..])
    ensures Switches([]) == 0
  {
    if k > 0 {
      SwitchesSplit(es[1..], k - 1);
      assert es[..k][1..] == es[1..][..k - 1] && es[1..][k..] == es[k + 1..];
    }
  }

  /** Some switch of the run goes to slot t. */
  ghost predicate Dispatches(s: State, es: seq<Event>, t: slot)
    requires Legal(s, es)
    decreases |es|
  {
    es != [] && ((IsSwitch(es[0]) && Step(s, es[0]).cur == t) || Dispatches(Step(s, es[0]), es[1..], t))
  }

  /** Bounded waiting, whatever is created and whoever else exits: a task that stays
      is dispatched within as many switches as it is slots ahead, and so within 16. */
  lemma {:induction false} BoundedWaiting(s: State, es: seq<Event>, t: slot)
    requires Legal(s, es) && Stays(s, es, t)
    requires Switches(es) >= Ahead(s.cur, t)
    ensures Dispatches(s, es, t)
    decreases |es|
  {
    var s' := Step(s, es[0]);
    match es[0] {
      case Tick(esp) =>
        NextIsNearest(Saved(s, esp).tasks, s.cur, t);
      case Create(esp, cr3) =>
      case Exit(esp) =>
        assert Stays(s', es[1..], t);
        NextIsNearest(Saved(Gone(s), esp).tasks, s.cur, t);
    }
    if !(IsSwitch(es[0]) && s'.cur == t) {
      BoundedWaiting(s', es[1..], t);
    }
  }

  /** Slot t is not the running one at the start of any event of the run. */
  ghost predicate Waits(s: State, es: seq<Event>, t: slot)
    requires Legal(s, es)
    decreases |es|
  {
    es == [] || (s.cur != t && Waits(Step(s, es[0]), es[1..], t))
  }

  lemma {:induction false} WaitingKeepsTask(s: State, es: seq<Event>, t: slot)
    requires Legal(s, es) && Stays(s, es, t) && Waits(s, es, t)
    ensures After(s, es).tasks[t] == s.tasks[t]
    decreases |es|
  {
    if es != [] {
      StepKeepsOthers(s, es[0], t);
      WaitingKeepsTask(Step(s, es[0]), es[1..], t);
    }
  }

  /** A slot that is empty stays empty, and is not dispatched, until something is created. */
  lemma {:induction false} NeverAgain(s: State, es: seq<Event>, t: slot)
    requires Legal(s, es) && !s.tasks[t].present && forall i :: 0 <= i < |es| ==> !es[i].Create?
    ensures !Dispatches(s, es, t) && !After(s, es).tasks[t].present
    decreases |es|
  {
    hide Next;
    if es != [] {
      EmptyStaysEmpty(s, es[0], t);
      NeverAgain(Step(s, es[0]), es[1..], t);
    }
  }

  lemma EmptyStaysEmpty(s: State, e: Event, t: slot)
    requires Enabled(s, e) && !e.Create? && !s.tasks[t].present
    ensures !Step(s, e).tasks[t].present && Step(s, e).cur != t
  {
    match e
    case Tick(esp) =>
      SavedStays(s, esp);
      SomeoneAhead(Saved(s, esp).tasks, s.cur);
    case Exit(esp) =>
      SavedStays(Gone(s), esp);
      SomeoneAhead(Saved(Gone(s), esp).tasks, s.cur);
  }

  /** So a task that exits never runs again. */
  lemma ExitIsFinal(s: State, esp: u32, es: seq<Event>)
    requires Enabled(s, Exit(esp)) && s.tasks[s.cur].present && Legal(Step(s, Exit(esp)), es)
    requires forall i :: 0 <= i < |es| ==> !es[i].Create?
    ensures !Dispatches(Step(s, Exit(esp)), es, s.cur)
  {
    ExitRemoves(s, esp);
    NeverAgain(Step(s, Exit(esp)), es, s.cur);
  }

  /** The first dispatch of a created task finds what it was created with. */
  lemma CreatedIsDispatched(s: State, esp: u32, cr3: u32, es: seq<Event>, i: slot)
    requires !s.tasks[i].present && (forall t: slot :: t < i ==> s.tasks[t].present) && i != s.cur
    requires var s' := Step(s, Create(esp, cr3));
      Legal(s', es) && Stays(s', es, i) && Waits(s', es, i) && After(s', es).cur == i
    ensures After(Step(s, Create(esp, cr3)), es).tasks[i] == Task(esp, cr3, s.tasks[s.cur].cwd, true)
  {
    CreatePuts(s, esp, cr3);
    WaitingKeepsTask(Step(s, Create(esp, cr3)), es, i);
  }

  /** A context switch restores what was saved: when a task that the timer interrupted
      next runs, the interrupt handler finds its stack pointer and its page directory
      as they were. */
  lemma Restores(s: State, esp: u32, es: seq<Event>)
    requires Legal(s, [Tick(esp)] + es) && Stays(s, [Tick(esp)] + es, s.cur)
    requires Waits(Step(s, Tick(esp)), es, s.cur)
    requires After(s, [Tick(esp)] + es).cur == s.cur
    ensures After(s, [Tick(esp)] + es).tasks[s.cur].esp == esp
    ensures After(s, [Tick(esp)] + es).tasks[s.cur].cr3 == s.tasks[s.cur].cr3
  {
    assert ([Tick(esp)] + es)[1..] == es;
    WaitingKeepsTask(Step(s, Tick(esp)), es, s.cur);
  }

  // -------------------------------------------------- a full round, in order

  /** The present slots among the `len` slots after cur, in the order they come. */
  function Round(ts: Slots, cur: slot, len: nat): seq<slot>
    decreases len
  {
    if len == 0 then []
    else (if ts[On(cur, 1)].present then [On(cur, 1)] else []) + Round(ts, On(cur, 1), len - 1)
  }

  /** The slots that n calls of the scheduler go to. */
  function Calls(ts: Slots, cur: slot, n: nat): seq<slot>
    requires Someone(ts)
    decreases n
  {
    if n == 0 then [] else [Next(ts, cur)] + Calls(ts, Next(ts, cur), n - 1)
  }

  /** The nearest present slot is the next one. */
  lemma NextIs(ts: Slots, cur: slot, d: nat)
    requires 1 <= d <= MAX_TASKS && ts[On(cur, d)].present
    requires forall e :: 1 <= e < d ==> !ts[On(cur, e)].present
    ensures Someone(ts) && Next(ts, cur) == On(cur, d)
  {
    SomeoneAhead(ts, cur);
    hide Distance;
    assert Distance(ts, cur, 1) == d;
  }

  lemma SkipAbsent(ts: Slots, cur: slot)
    requires Someone(ts) && !ts[On(cur, 1)].present
    ensures Next(ts, cur) == Next(ts, On(cur, 1))
  {
    var c := On(cur, 1);
    SomeoneAhead(ts, c);
    var d := Distance(ts, c, 1);
    hide Distance;
    assert On(c, MAX_TASKS) == c && d < MAX_TASKS && On(cur, d + 1) == On(c, d);
    forall e | 1 <= e < d + 1
      ensures !ts[On(cur, e)].present
    {
      assert e > 1 ==> On(cur, e) == On(c, e - 1);
    }
    NextIs(ts, cur, d + 1);
  }

  lemma CallsCons(ts: Slots, cur: slot, rest: seq<slot>)
    requires Someone(ts) && Calls(ts, Next(ts, cur), |rest|) == rest
    ensures Calls(ts, cur, |[Next(ts, cur)] + rest|) == [Next(ts, cur)] + rest
  {
    hide Next;
  }

  lemma CallsSkip(ts: Slots, cur: slot, n: nat)
    requires Someone(ts) && !ts[On(cur, 1)].present
    ensures Calls(ts, cur, n) == Calls(ts, On(cur, 1), n)
  {
    SkipAbsent(ts, cur);
    hide Next;
  }

  lemma {:induction false} CallsFollowRound(ts: Slots, cur: slot, len: nat)
    requires Someone(ts)
    ensures Calls(ts, cur, |Round(ts, cur, len)|) == Round(ts, cur, len)
    decreases len
  {
    if len > 0 {
      hide Next, On, Calls;
      var rest := Round(ts, On(cur, 1), len - 1);
      CallsFollowRound(ts, On(cur, 1), len - 1);
      if ts[On(cur, 1)].present {
        NextIs(ts, cur, 1);
        CallsCons(ts, cur, rest);
      } else {
        CallsSkip(ts, cur, |rest|);
        assert [] + rest == rest;
      }
    }
  }

  /** How often t occurs. */
  function Times(calls: seq<slot>, t: slot): nat {
    if calls == [] then 0 else (if calls[0] == t then 1 else 0) + Times(calls[1..], t)
  }

  lemma {:induction false} RoundMembers(ts: Slots, cur: slot, len: nat, t: slot)
    requires len <= MAX_TASKS
    ensures Times(Round(ts, cur, len), t) == if ts[t].present && Ahead(cur, t) <= len then 1 else 0
    decreases len
  {
    if len > 0 {
      var c := On(cur, 1);
      RoundMembers(ts, c, len - 1, t);
      var rest := Round(ts, c, len - 1);
      assert ([c] + rest)[1..] == rest && [] + rest == rest;
      assert t != c ==> Ahead(c, t) == Ahead(cur, t) - 1;
      assert t == c ==> Ahead(cur, t) == 1 && Ahead(c, t) == MAX_TASKS;
    }
  }

  /** While k tasks are present and none comes or goes, any k calls in a row go to
      each of them exactly once, and to no empty slot. */
  lemma EveryRoundIsFair(ts: Slots, cur: slot, t: slot)
    requires Someone(ts)
    ensures Times(Calls(ts, cur, |Round(ts, cur, MAX_TASKS)|), t) == if ts[t].present then 1 else 0
    ensures |Round(ts, cur, MAX_TASKS)| == Present(ts, MAX_TASKS)
  {
    CallsFollowRound(ts, cur, MAX_TASKS);
    RoundMembers(ts, cur, MAX_TASKS, t);
    RoundLength(ts, cur, MAX_TASKS);
  }

  /** The number of tasks present in the first n slots. */
  function Present(ts: Slots, n: nat): nat
    requires n <= MAX_TASKS
  {
    if n == 0 then 0 else Present(ts, n - 1) + (if ts[n - 1].present then 1 else 0)
  }

  lemma {:induction false} RoundLength(ts: Slots, cur: slot, len: nat)
    requires len <= MAX_TASKS
    ensures |Round(ts, cur, len)| ==
      if cur + 1 + len <= MAX_TASKS then Present(ts, cur + 1 + len) - Present(ts, cur + 1)
      else Present(ts, MAX_TASKS) - Present(ts, cur + 1) + Present(ts, cur + 1 + len - MAX_TASKS)
    decreases len
  {
    if len > 0 {
      RoundLength(ts, On(cur, 1), len - 1);
    }
  }

  // --------------------------------------------------- ... and over real runs

  ghost predicate SamePresence(ts: Slots, us: Slots) {
    forall i :: 0 <= i < MAX_TASKS ==> ts[i].present == us[i].present
  }

  /** Where the scheduler goes depends on who is present only. */
  lemma NextByPresence(ts: Slots, us: Slots, cur: slot)
    requires Someone(ts) && SamePresence(ts, us)
    ensures Someone(us) && Next(us, cur) == Next(ts, cur)
  {
    SomeoneAhead(ts, cur);
    NextIs(us, cur, Distance(ts, cur, 1));
  }

  lemma {:induction false} CallsByPresence(ts: Slots, us: Slots, cur: slot, n: nat)
    requires Someone(ts) && SamePresence(ts, us)
    ensures Someone(us) && Calls(us, cur, n) == Calls(ts, cur, n)
    decreases n
  {
    NextByPresence(ts, us, cur);
    hide Next, SamePresence, Someone;
    if n > 0 {
      CallsByPresence(ts, us, Next(ts, cur), n - 1);
    }
  }

  /** The slots that the switches of a run go to. */
  ghost function Visits(s: State, es: seq<Event>): seq<slot>
    requires Legal(s, es)
    decreases |es|
  {
    if es == [] then []
    else (if IsSwitch(es[0]) then [Step(s, es[0]).cur] else []) + Visits(Step(s, es[0]), es[1..])
  }

  lemma TickKeepsPresence(s: State, esp: u32)
    requires Someone(s.tasks)
    ensures SamePresence(s.tasks, Step(s, Tick(esp)).tasks) && Step(s, Tick(esp)).cur == Next(s.tasks, s.cur)
  {
    SavedStays(s, esp);
    NextByPresence(s.tasks, Saved(s, esp).tasks, s.cur);
    hide Next, Someone;
  }

  /** Every tick stores a stack pointer in the table, and still goes where the calls would. */
  lemma {:induction false} TicksFollowCalls(s: State, es: seq<Event>)
    requires Legal(s, es) && Someone(s.tasks) && forall i :: 0 <= i < |es| ==> es[i].Tick?
    ensures Visits(s, es) == Calls(s.tasks, s.cur, |es|)
    decreases |es|
  {
    hide Step, Next, Someone, SamePresence;
    if es != [] {
      var s' := Step(s, es[0]);
      TickKeepsPresence(s, es[0].esp);
      CallsByPresence(s.tasks, s'.tasks, s'.cur, |es| - 1);
      TicksFollowCalls(s', es[1..]);
    }
  }

  /** While k tasks are present and none comes or goes, any k ticks in a row, with whatever
      stack pointers they store, dispatch each of them exactly once. */
  lemma EveryRunIsFair(s: State, es: seq<Event>, t: slot)
    requires Legal(s, es) && Someone(s.tasks) && |es| == Present(s.tasks, MAX_TASKS)
    requires forall i :: 0 <= i < |es| ==> es[i].Tick?
    ensures Times(Visits(s, es), t) == if s.tasks[t].present then 1 else 0
  {
    TicksFollowCalls(s, es);
    EveryRoundIsFair(s.tasks, s.cur, t);
  }

  // ------------------------------------------------------ the imperative form

  /** `cur_task_idx = (cur_task_idx + 1) % MAX_TASKS` */
  lemma OneOn(cur: slot, d: nat)
    requires d < MAX_TASKS
    ensures (On(cur, d) + 1) % MAX_TASKS == On(cur, d + 1)
  {
  }

  class Kernel {
    const tasks: array<Task>
    var curTaskIdx: slot
    /** `current_task`, a pointer into the table. */
    var currentTask: slot

    ghost predicate Valid()
      reads this, tasks
    {
      tasks.Length == MAX_TASKS && currentTask == curTaskIdx
    }

    ghost function Contents(): State
      reads this, tasks
      requires Valid()
    {
      State(tasks[..], curTaskIdx)
    }

    /** `init_multitasking`, on a table that the loader has cleared. */
    constructor ()
      ensures Valid() && fresh(tasks)
      ensures Contents() == State(seq(16, i => NO_TASK)[0 := Task(0, 0x8_0000, Folder(0, 0), true)], 0)
    {
      tasks := new Task[MAX_TASKS](i => NO_TASK);
      curTaskIdx, currentTask := 0, 0;
      new;
      tasks[0] := Task(0, 0x8_0000, Folder(0, 0), true);
    }

    method Schedule()
      requires Valid() && Someone(tasks[..])
      modifies this
      ensures Valid() && Contents() == old(Switched(Contents()))
    {
      ghost var ts: Slots, cur := tasks[..], curTaskIdx;
      SomeoneAhead(ts, cur);
      ghost var d, nearest := 0, Distance(ts, cur, 1);
      assert Next(ts, cur) == On(cur, nearest) && On(cur, 0) == cur;
      hide Distance, Next, On, Someone;
      OneOn(cur, 0);
      curTaskIdx, d := (curTaskIdx + 1) % MAX_TASKS, 1;
      while !tasks[curTaskIdx].present
        modifies `curTaskIdx
        invariant 1 <= d <= nearest && curTaskIdx == On(cur, d)
        decreases nearest - d
      {
        OneOn(cur, d);
        curTaskIdx, d := (curTaskIdx + 1) % MAX_TASKS, d + 1;
      }
      assert d == nearest;
      currentTask := curTaskIdx;
    }

    /** `tick_handler`: save, schedule, restore. */
    method TickHandler(esp: u32) returns (newEsp: u32, cr3: u32)
      requires Valid() && Someone(tasks[..])
      modifies this, tasks
      ensures Valid() && Contents() == old(Step(Contents(), Tick(esp)))
      ensures newEsp == tasks[curTaskIdx].esp && cr3 == tasks[curTaskIdx].cr3
    {
      ghost var s := Contents();
      SavedStays(s, esp);
      tasks[currentTask] := tasks[currentTask].(esp := esp);
      assert Contents() == Saved(s, esp);
      Schedule();
      return tasks[currentTask].esp, tasks[currentTask].cr3;
    }

    /** `exit_task` and the `int 0x20` that follows it. */
    method Exit(esp: u32) returns (newEsp: u32, cr3: u32)
      requires Valid() && Enabled(Contents(), Event.Exit(esp))
      modifies this, tasks
      ensures Valid() && Contents() == old(Step(Contents(), Event.Exit(esp)))
      ensures newEsp == tasks[curTaskIdx].esp && cr3 == tasks[curTaskIdx].cr3 && tasks[curTaskIdx].present
      ensures curTaskIdx != old(curTaskIdx) && !tasks[old(curTaskIdx)].present
      ensures forall t: slot :: t != old(curTaskIdx) ==> tasks[t] == old(tasks[t])
    {
      ghost var s := Contents();
      tasks[curTaskIdx] := tasks[curTaskIdx].(present := false);
      assert Contents() == Gone(s);
      newEsp, cr3 := TickHandler(esp);
    }

    /** The end of `create_task`: the first free slot, if there is one. */
    method AddTask(esp: u32, cr3: u32) returns (r: int)
      requires Valid()
      modifies tasks
      ensures Valid() && Contents() == old(Step(Contents(), Create(esp, cr3)))
      ensures r == -1 <==> forall i :: 0 <= i < MAX_TASKS ==> old(tasks[i].present)
      ensures r == -1 ==> tasks[..] == old(tasks[..])
      ensures r == 0 ==> exists i: slot ::
        && old(!tasks[i].present) && (forall t: slot :: t < i ==> old(tasks[t].present))
        && tasks[i].esp == esp && tasks[i].cr3 == cr3 && tasks[i].present && tasks[i].cwd == old(tasks[curTaskIdx].cwd)
        && forall t: slot :: t != i ==> tasks[t] == old(tasks[t])
      ensures r == 0 || r == -1
    {
      var task := Task(esp, cr3, tasks[currentTask].cwd, true);
      ghost var ts: Slots := tasks[..];
      for i := 0 to MAX_TASKS
        invariant unchanged(tasks)
        invariant forall j :: 0 <= j < i ==> tasks[j].present
      {
        if !tasks[i].present {
          tasks[i] := task;
          assert FreeSlot(ts, 0) == i;
          assert old(!tasks[i].present);
          return 0;
        }
      }
      return -1;
    }
  }
}
