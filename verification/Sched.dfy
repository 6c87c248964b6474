/** The round-robin scheduler of kernel/src/sched.rs. */
module Sched {
  import opened Common

  /** The size of a saved register frame. */
  const FRAME_SIZE: nat := 176

  datatype Task = Task(id: nat, sp: int, kernelStackTop: nat, cr3: nat, isUser: bool)

  /** The queue with the running task at the front, the cached and the real CR3, and the stack traps will use. */
  datatype State = State(tasks: seq<Task>, nextId: nat, idleWrapped: bool, ticks: nat, busyTicks: nat,
                         currentCr3: nat, cr3: nat, rsp0: nat)

  /** Where a new task's first frame goes: below the top of its stack, aligned down to 16. */
  function FrameAddr(stackTop: nat): int { (stackTop - FRAME_SIZE) / 16 * 16 }

  /** It is the highest place for twenty-two saved words that is aligned and leaves them below the top. */
  lemma FrameInStack(stackTop: nat)
    ensures FrameAddr(stackTop) % 16 == 0 && FrameAddr(stackTop) + 22 * 8 <= stackTop
    ensures forall a: int :: a % 16 == 0 && a + 22 * 8 <= stackTop ==> a <= FrameAddr(stackTop)
  {
  }

  // ---- the steps ----

  datatype Event =
    | Tick(frame: nat)
    | Spawn(stackTop: nat)
    | SpawnUser(stackTop: nat, space: nat)
    | Exit

  function Enqueued(s: State, stackTop: nat, cr3: nat, isUser: bool): State {
    s.(tasks := s.tasks + [Task(s.nextId, FrameAddr(stackTop), stackTop, cr3, isUser)], nextId := s.nextId + 1)
  }

  /** Makes the front task the running one. CR3 is written only if the cached value says it differs. */
  function Switched(s: State): State
    requires s.tasks != []
  {
    var next := s.tasks[0];
    s.(currentCr3 := next.cr3, cr3 := if s.currentCr3 != next.cr3 then next.cr3 else s.cr3, rsp0 := next.kernelStackTop)
  }

  /**
   The queue at a tick before it is rotated: the running task's frame is saved, at the first tick in a new idle task.
   */
  function Saved(s: State, frame: nat): seq<Task>
    requires s.tasks != []
  {
    if !s.idleWrapped then [Task(0, frame, 0, s.cr3, false)] + s.tasks
    else [s.tasks[0].(sp := frame)] + s.tasks[1..]
  }

  function Ticked(s: State, frame: nat): State {
    var s1 := s.(ticks := s.ticks + 1);
    if s.tasks == [] then s1
    else
      var queue := Saved(s, frame);
      Switched(s1.(tasks := queue[1..] + [queue[0]], idleWrapped := true,
                   busyTicks := s.busyTicks + if queue[0].id != 0 then 1 else 0))
  }

  function Exited(s: State): State {
    if s.tasks == [] || s.tasks[0].id == 0 then s
    else
      var rest := s.(tasks := s.tasks[1..]);
      if rest.tasks == [] then rest else Switched(rest)
  }

  function Step(s: State, e: Event): State {
    match e
    case Tick(frame) => Ticked(s, frame)
    case Spawn(stackTop) => Enqueued(s, stackTop, s.cr3, false)
    case SpawnUser(stackTop, space) => Enqueued(s, stackTop, space, true)
    case Exit => Exited(s)
  }

  function Run(s: State, events: seq<Event>): State {
    if events == [] then s else Step(Run(s, events[..|events| - 1]), events[|events| - 1])
  }

  /** The scheduler at boot, with the kernel's own page tables active. */
  function Boot(cr3: nat, rsp0: nat): State { State([], 1, false, 0, 0, 0, cr3, rsp0) }

  // ---- what every step keeps ----

  /**
   Ids are unique and below the next one to be given out. Once the idle task is wrapped it is there for good, and the
   cached CR3 and the trap stack are those of the front task. CR3 is what the cache says, unless the cache is still
   zero.
   */
  ghost predicate Inv(s: State) {
    && (forall i, j :: 0 <= i < j < |s.tasks| ==> s.tasks[i].id != s.tasks[j].id)
    && (forall i :: 0 <= i < |s.tasks| ==> s.tasks[i].id < s.nextId)
    && s.nextId > 0 && s.busyTicks <= s.ticks
    && (s.cr3 == s.currentCr3 || s.currentCr3 == 0)
    && (!s.idleWrapped ==> forall i :: 0 <= i < |s.tasks| ==> s.tasks[i].id != 0)
    && (s.idleWrapped ==>
          && (exists i :: 0 <= i < |s.tasks| && s.tasks[i].id == 0)
          && s.currentCr3 == s.tasks[0].cr3 && s.rsp0 == s.tasks[0].kernelStackTop)
  }

  lemma StepInv(s: State, e: Event)
    requires Inv(s)
    ensures Inv(Step(s, e)) && (s.idleWrapped ==> Step(s, e).idleWrapped)
  {
    match e
    case Tick(frame) => TickInv(s, frame);
    case Spawn(stackTop) => EnqueueInv(s, stackTop, s.cr3, false);
    case SpawnUser(stackTop, space) => EnqueueInv(s, stackTop, space, true);
    case Exit => ExitInv(s);
  }

  lemma EnqueueInv(s: State, stackTop: nat, cr3: nat, isUser: bool)
    requires Inv(s)
    ensures Inv(Enqueued(s, stackTop, cr3, isUser))
  {
    var next := Enqueued(s, stackTop, cr3, isUser);
    if s.idleWrapped {
      var i :| 0 <= i < |s.tasks| && s.tasks[i].id == 0;
      assert next.tasks[i].id == 0;
    }
  }

  lemma TickInv(s: State, frame: nat)
    requires Inv(s)
    ensures Inv(Ticked(s, frame)) && (s.idleWrapped || s.tasks != [] ==> Ticked(s, frame).idleWrapped)
  {
    if s.tasks != [] {
      var queue, next := Saved(s, frame), Ticked(s, frame).tasks;
      assert |next| == |queue|;
      assert forall i :: 0 <= i < |queue| - 1 ==> next[i] == queue[i + 1];
      if s.idleWrapped {
        var i :| 0 <= i < |s.tasks| && s.tasks[i].id == 0;
        assert queue[i].id == 0;
        assert next[if i == 0 then |queue| - 1 else i - 1] == queue[i];
      } else {
        assert next[|queue| - 1].id == 0;
      }
    }
  }

  lemma ExitInv(s: State)
    requires Inv(s)
    ensures Inv(Exited(s)) && (s.idleWrapped ==> Exited(s).idleWrapped)
  {
    if s.idleWrapped && s.tasks[0].id != 0 {
      var i :| 0 <= i < |s.tasks| && s.tasks[i].id == 0;
      assert s.tasks[1..][i - 1].id == 0;
    }
  }

  lemma {:induction false} RunInv(s: State, events: seq<Event>)
    requires Inv(s)
    ensures Inv(Run(s, events)) && (s.idleWrapped ==> Run(s, events).idleWrapped)
  {
    if events != [] {
      RunInv(s, events[..|events| - 1]);
      StepInv(Run(s, events[..|events| - 1]), events[|events| - 1]);
    }
  }

  // ---- the page tables of the front task ----

  /** No process has its page tables in frame 0. */
  predicate NoneInFrame0(events: seq<Event>) {
    forall i :: 0 <= i < |events| && events[i].SpawnUser? ==> events[i].space != 0
  }

  /** Then the front task always runs in its own page tables. */
  lemma RunsInItsTables(cr3: nat, rsp0: nat, events: seq<Event>)
    requires cr3 != 0 && NoneInFrame0(events) && Run(Boot(cr3, rsp0), events).idleWrapped
    ensures var s := Run(Boot(cr3, rsp0), events);
            s.tasks != [] && s.cr3 == s.tasks[0].cr3 && s.rsp0 == s.tasks[0].kernelStackTop
  {
    RunInv(Boot(cr3, rsp0), events);
    NoZeroTables(cr3, rsp0, events);
  }

  lemma {:induction false} NoZeroTables(cr3: nat, rsp0: nat, events: seq<Event>)
    requires cr3 != 0 && NoneInFrame0(events)
    ensures var s := Run(Boot(cr3, rsp0), events); s.cr3 != 0 && forall i :: 0 <= i < |s.tasks| ==> s.tasks[i].cr3 != 0
  {
    if events != [] {
      var most, e := events[..|events| - 1], events[|events| - 1];
      NoZeroTables(cr3, rsp0, most);
      assert events[|events| - 1] == e;
    }
  }

  /** Steps that switch to a task whose page tables are not in frame 0. */
  predicate Loads(s: State, e: Event) {
    && (e.Tick? || (e.Exit? && s.tasks != [] && s.tasks[0].id != 0))
    && Step(s, e).tasks != [] && Step(s, e).tasks[0].cr3 != 0
  }

  predicate Loaded(s: State, events: seq<Event>) {
    events != [] && (Loaded(s, events[..|events| - 1]) || Loads(Run(s, events[..|events| - 1]), events[|events| - 1]))
  }

  /**
   With processes in frame 0, the front task runs in its own page tables from the first switch on to a task that is not
   in frame 0, and never before: the cached CR3 starts at zero, so until then the boot page tables stay active.
   */
  lemma RightOnceLoaded(cr3: nat, rsp0: nat, events: seq<Event>)
    requires cr3 != 0 && Run(Boot(cr3, rsp0), events).idleWrapped
    ensures var s := Run(Boot(cr3, rsp0), events);
            s.tasks != [] && (s.cr3 == s.tasks[0].cr3 <==> Loaded(Boot(cr3, rsp0), events))
  {
    RunInv(Boot(cr3, rsp0), events);
    CacheAndRegister(cr3, rsp0, events);
  }

  lemma {:induction false} CacheAndRegister(cr3: nat, rsp0: nat, events: seq<Event>)
    ensures var s := Run(Boot(cr3, rsp0), events);
            if Loaded(Boot(cr3, rsp0), events) then s.cr3 == s.currentCr3 else s.cr3 == cr3 && s.currentCr3 == 0
  {
    if events != [] {
      hide Step, Loads;
      var most, e := events[..|events| - 1], events[|events| - 1];
      CacheAndRegister(cr3, rsp0, most);
      CacheAfter(Run(Boot(cr3, rsp0), most), e);
    }
  }

  lemma CacheAfter(s: State, e: Event)
    requires s.cr3 == s.currentCr3 || s.currentCr3 == 0
    ensures var t := Step(s, e);
            && (Loads(s, e) ==> t.cr3 == t.currentCr3)
            && (!Loads(s, e) && s.currentCr3 == 0 ==> t.cr3 == s.cr3 && t.currentCr3 == 0)
            && (s.cr3 == s.currentCr3 ==> t.cr3 == t.currentCr3)
  {
  }

  /** A first process in frame 0, which runs in the boot page tables instead. */
  lemma Frame0Skipped()
    ensures var s := Run(Boot(1, 0), [SpawnUser(4096, 0), Tick(7)]);
            s.idleWrapped && s.tasks != [] && s.tasks[0].isUser && s.tasks[0].cr3 == 0 && s.cr3 == 1
  {
    var events := [SpawnUser(4096, 0), Tick(7)];
    assert events[..1][..0] == [] && events[..1] == [SpawnUser(4096, 0)];
    assert Run(Boot(1, 0), events[..1]).tasks == [Task(1, FrameAddr(4096), 4096, 0, true)];
  }

  // ---- the page tables of kernel tasks ----

  /** Steps that make a kernel task, idle included. */
  predicate MakesKernelTask(s: State, e: Event) { e.Spawn? || (e.Tick? && !s.idleWrapped && s.tasks != []) }

  /** Kernel tasks are made only while the page tables `home` are active. */
  predicate SpawnsAtHome(s: State, events: seq<Event>, home: nat) {
    events != [] ==>
      var most, e := events[..|events| - 1], events[|events| - 1];
      SpawnsAtHome(s, most, home) && (MakesKernelTask(Run(s, most), e) ==> Run(s, most).cr3 == home)
  }

  predicate KernelTasksIn(s: State, home: nat) {
    forall i :: 0 <= i < |s.tasks| && !s.tasks[i].isUser ==> s.tasks[i].cr3 == home
  }

  /** At every moment of the run all kernel tasks are in the page tables `home`. */
  predicate AlwaysKernelTasksIn(s: State, events: seq<Event>, home: nat) {
    KernelTasksIn(Run(s, events), home) && (events != [] ==> AlwaysKernelTasksIn(s, events[..|events| - 1], home))
  }

  /**
   Kernel tasks share the boot page tables throughout a run if and only if each was made while those were active; in
   terms of the queue, while no task with other page tables was at the front.
   */
  lemma {:induction false} KernelTasksShareBoot(s: State, events: seq<Event>, home: nat)
    requires KernelTasksIn(s, home)
    ensures AlwaysKernelTasksIn(s, events, home) <==> SpawnsAtHome(s, events, home)
    decreases |events|
  {
    if events != [] {
      var most, e := events[..|events| - 1], events[|events| - 1];
      KernelTasksShareBoot(s, most, home);
      if SpawnsAtHome(s, most, home) {
        OneMore(Run(s, most), e, home);
      }
    }
  }

  lemma OneMore(s: State, e: Event, home: nat)
    requires KernelTasksIn(s, home)
    ensures KernelTasksIn(Step(s, e), home) <==> (MakesKernelTask(s, e) ==> s.cr3 == home)
  {
    match e
    case Tick(frame) =>
      if s.tasks != [] {
        var queue, next := Saved(s, frame), Ticked(s, frame).tasks;
        assert next[|queue| - 1] == queue[0];
        assert forall i :: 0 <= i < |queue| - 1 ==> next[i] == queue[i + 1];
      }
    case Spawn(stackTop) =>
      var next := Step(s, e).tasks;
      assert !next[|s.tasks|].isUser && next[|s.tasks|].cr3 == s.cr3;
      assert forall i :: 0 <= i < |s.tasks| ==> next[i] == s.tasks[i];
    case SpawnUser(stackTop, space) =>
    case Exit =>
  }

  /** What "active" means once the first switch has been made. */
  lemma ActiveIsFront(cr3: nat, rsp0: nat, events: seq<Event>)
    requires cr3 != 0 && NoneInFrame0(events)
    ensures var s := Run(Boot(cr3, rsp0), events); s.idleWrapped ==>
            s.tasks != [] && (s.cr3 == cr3 <==> s.tasks[0].cr3 == cr3)
  {
    if Run(Boot(cr3, rsp0), events).idleWrapped {
      RunsInItsTables(cr3, rsp0, events);
    }
  }

  /** The kernel itself is safe: it spawns its tasks first, then processes, and only then lets the timer tick. */
  lemma {:induction false} SpawnedBeforeTicks(cr3: nat, rsp0: nat, early: seq<Event>, later: seq<Event>)
    requires forall i :: 0 <= i < |early| ==> early[i].Spawn? || early[i].SpawnUser?
    requires forall i :: 0 <= i < |later| ==> !later[i].Spawn?
    requires early != [] && (later != [] ==> later[0].Tick?)
    ensures AlwaysKernelTasksIn(Boot(cr3, rsp0), early + later, cr3)
  {
    KernelTasksShareBoot(Boot(cr3, rsp0), early + later, cr3);
    SpawnsEarly(cr3, rsp0, early, later);
  }

  lemma {:induction false} SpawnsEarly(cr3: nat, rsp0: nat, early: seq<Event>, later: seq<Event>)
    requires forall i :: 0 <= i < |early| ==> early[i].Spawn? || early[i].SpawnUser?
    requires forall i :: 0 <= i < |later| ==> !later[i].Spawn?
    requires early != [] && (later != [] ==> later[0].Tick?)
    ensures SpawnsAtHome(Boot(cr3, rsp0), early + later, cr3)
    ensures later != [] ==> Run(Boot(cr3, rsp0), early + later).idleWrapped
    decreases |later|
  {
    hide Run, SpawnsAtHome, Step;
    var boot := Boot(cr3, rsp0);
    EarlyOnly(cr3, rsp0, early);
    if later == [] {
      assert early + later == early;
    } else {
      var most, e := later[..|later| - 1], later[|later| - 1];
      SpawnsEarly(cr3, rsp0, early, most);
      assert early + later == (early + most) + [e];
      OneStepOn(boot, early + most, e, cr3);
      if most == [] {
        assert early + most == early;
        FirstTick(Run(boot, early), e);
      } else {
        StepInv(Run(boot, early + most), e);
      }
    }
  }

  lemma OneStepOn(s: State, events: seq<Event>, e: Event, home: nat)
    ensures Run(s, events + [e]) == Step(Run(s, events), e)
    ensures SpawnsAtHome(s, events + [e], home)
            <==> SpawnsAtHome(s, events, home) && (MakesKernelTask(Run(s, events), e) ==> Run(s, events).cr3 == home)
    ensures Inv(s) ==> Inv(Run(s, events))
  {
    assert (events + [e])[..|events|] == events;
    if Inv(s) { RunInv(s, events); }
  }

  lemma FirstTick(s: State, e: Event)
    requires e.Tick? && s.tasks != []
    ensures Step(s, e).idleWrapped
  {
  }

  lemma {:induction false} EarlyOnly(cr3: nat, rsp0: nat, early: seq<Event>)
    requires forall i :: 0 <= i < |early| ==> early[i].Spawn? || early[i].SpawnUser?
    ensures SpawnsAtHome(Boot(cr3, rsp0), early, cr3)
    ensures var s := Run(Boot(cr3, rsp0), early); s.cr3 == cr3 && !s.idleWrapped && |s.tasks| == |early|
  {
    if early != [] {
      EarlyOnly(cr3, rsp0, early[..|early| - 1]);
    }
  }

  /** But a kernel task spawned while a process runs gets that process's page tables. */
  lemma KernelTaskInProcess()
    ensures var events := [SpawnUser(4096, 5), Tick(7), Spawn(8192)]; var s := Run(Boot(1, 0), events);
            && |s.tasks| == 3 && !s.tasks[2].isUser && s.tasks[2].cr3 == 5
            && !AlwaysKernelTasksIn(Boot(1, 0), events, 1)
  {
    var e1 := [SpawnUser(4096, 5)];
    var e2 := [SpawnUser(4096, 5), Tick(7)];
    var events := [SpawnUser(4096, 5), Tick(7), Spawn(8192)];
    assert e1[..0] == [] && e2[..1] == e1 && events[..2] == e2;
    assert Run(Boot(1, 0), e1).tasks == [Task(1, FrameAddr(4096), 4096, 5, true)];
    assert Run(Boot(1, 0), e2).tasks == [Task(1, FrameAddr(4096), 4096, 5, true), Task(0, 7, 0, 1, false)];
  }

  // ---- resuming ----

  /** The task whose code runs between the steps: the front task, or kmain before the first switch. */
  function Running(s: State): nat { if s.idleWrapped && s.tasks != [] then s.tasks[0].id else 0 }

  /** The frame at which task `id` was last preempted during the run, or the one it was created with. */
  function LastFrame(s: State, events: seq<Event>, id: nat): Option<int> {
    if events == [] then None
    else
      var before, e := Run(s, events[..|events| - 1]), events[|events| - 1];
      if e.Tick? && before.tasks != [] && Running(before) == id then Some(e.frame)
      else if (e.Spawn? || e.SpawnUser?) && before.nextId == id then Some(FrameAddr(e.stackTop))
      else LastFrame(s, events[..|events| - 1], id)
  }

  /** A tick saves the frame in the task that was running, now last, and leaves the other tasks as they were. */
  lemma AfterTick(s: State, frame: nat, i: nat)
    requires Inv(s) && s.tasks != [] && i < |Ticked(s, frame).tasks|
    ensures var next := Ticked(s, frame).tasks; var k := if s.idleWrapped then i + 1 else i;
            if i == |next| - 1 then next[i].id == Running(s) && next[i].sp == frame
            else k < |s.tasks| && next[i] == s.tasks[k] && next[i].id != Running(s)
  {
    var queue := Saved(s, frame);
    assert Ticked(s, frame).tasks[i] == if i == |queue| - 1 then queue[0] else queue[i + 1];
  }

  /** Every task waits to resume exactly where it was last preempted. */
  lemma {:induction false} ResumesWhereItLeft(cr3: nat, rsp0: nat, events: seq<Event>, i: nat)
    requires i < |Run(Boot(cr3, rsp0), events).tasks|
    ensures var t := Run(Boot(cr3, rsp0), events).tasks[i]; LastFrame(Boot(cr3, rsp0), events, t.id) == Some(t.sp)
    decreases |events|
  {
    var s := Boot(cr3, rsp0);
    var most, e := events[..|events| - 1], events[|events| - 1];
    var before := Run(s, most);
    RunInv(s, most);
    match e
    case Tick(frame) =>
      if before.tasks != [] {
        AfterTick(before, frame, i);
        if i < |Ticked(before, frame).tasks| - 1 {
          ResumesWhereItLeft(cr3, rsp0, most, if before.idleWrapped then i + 1 else i);
        }
      }
    case Spawn(_) =>
      if i < |before.tasks| { ResumesWhereItLeft(cr3, rsp0, most, i); }
    case SpawnUser(_, _) =>
      if i < |before.tasks| { ResumesWhereItLeft(cr3, rsp0, most, i); }
    case Exit =>
      ResumesWhereItLeft(cr3, rsp0, most, if before.tasks[0].id == 0 then i else i + 1);
  }

  // ---- fairness ----

  /** The steps that move the queue on: ticks, and exits of a task other than idle. */
  predicate IsMove(s: State, e: Event) { e.Tick? || (e.Exit? && Running(s) != 0) }

  function Moves(s: State, events: seq<Event>): nat {
    if events == [] then 0
    else
      var most, e := events[..|events| - 1], events[|events| - 1];
      Moves(s, most) + if IsMove(Run(s, most), e) then 1 else 0
  }

  /** One step: a move brings every task but the front one a place nearer, anything else leaves it where it is. */
  lemma Nearer(s: State, e: Event, p: nat)
    requires Inv(s) && s.idleWrapped && p < |s.tasks| && (IsMove(s, e) ==> p > 0)
    ensures var q := if IsMove(s, e) then p - 1 else p;
            q < |Step(s, e).tasks| && Step(s, e).tasks[q].id == s.tasks[p].id
  {
  }

  /** However many tasks are spawned meanwhile, a task at position `k` runs after exactly `k` ticks or exits. */
  lemma {:induction false} RunsInTurn(s: State, events: seq<Event>, k: nat)
    requires Inv(s) && s.idleWrapped && k < |s.tasks| && Moves(s, events) <= k
    ensures var p := k - Moves(s, events);
            p < |Run(s, events).tasks| && Run(s, events).tasks[p].id == s.tasks[k].id
    decreases |events|
  {
    hide Inv, Step, IsMove;
    if events != [] {
      var most, e := events[..|events| - 1], events[|events| - 1];
      RunsInTurn(s, most, k);
      RunInv(s, most);
      Nearer(Run(s, most), e, k - Moves(s, most));
    }
  }

  // ---- the scheduler itself ----

  class Scheduler {
    var tasks: seq<Task>
    var nextId: nat
    var idleWrapped: bool
    var ticks: nat
    var busyTicks: nat
    var currentCr3: nat
    /** The processor's page-table register, and the stack it switches to on a trap from user mode. */
    var cr3: nat
    var rsp0: nat

    ghost function Now(): State
      reads this
    {
      State(tasks, nextId, idleWrapped, ticks, busyTicks, currentCr3, cr3, rsp0)
    }

    constructor (cr3: nat, rsp0: nat)
      ensures Now() == Boot(cr3, rsp0) && Inv(Now())
    {
      tasks, nextId, idleWrapped, ticks, busyTicks, currentCr3, this.cr3, this.rsp0 := [], 1, false, 0, 0, 0, cr3, rsp0;
    }

    /** A kernel task, in the page tables that are active now. */
    method SpawnTask(stackTop: nat)
      requires Inv(Now())
      modifies this
      ensures Now() == Step(old(Now()), Spawn(stackTop)) && Inv(Now())
    {
      StepInv(Now(), Spawn(stackTop));
      var frameAddr := FrameAddr(stackTop);
      var id := nextId;
      nextId := nextId + 1;
      tasks := tasks + [Task(id, frameAddr, stackTop, cr3, false)];
    }

    /** A process, in its own address space. */
    method SpawnUserTask(kernelStackTop: nat, space: nat)
      requires Inv(Now())
      modifies this
      ensures Now() == Step(old(Now()), SpawnUser(kernelStackTop, space)) && Inv(Now())
    {
      StepInv(Now(), SpawnUser(kernelStackTop, space));
      var frameAddr := FrameAddr(kernelStackTop);
      var id := nextId;
      nextId := nextId + 1;
      tasks := tasks + [Task(id, frameAddr, kernelStackTop, space, true)];
    }

    /** Loads the page tables of `next`, unless they are known to be active, and its trap stack. */
    method SwitchTo(next: Task)
      modifies this`currentCr3, this`cr3, this`rsp0
      ensures currentCr3 == next.cr3 && rsp0 == next.kernelStackTop
      ensures cr3 == if old(currentCr3) != next.cr3 then next.cr3 else old(cr3)
    {
      var before := currentCr3;
      currentCr3 := next.cr3;
      if before != next.cr3 {
        cr3 := next.cr3;
      }
      rsp0 := next.kernelStackTop;
    }

    /** Returns the frame to resume: that of the task now at the front, or the interrupted one if there is none. */
    method OnTimerTick(currentFrame: nat) returns (frame: int)
      requires Inv(Now())
      modifies this
      ensures Now() == Step(old(Now()), Tick(currentFrame)) && Inv(Now())
      ensures frame == if tasks == [] then currentFrame else tasks[0].sp
    {
      StepInv(Now(), Tick(currentFrame));
      hide Inv;
      ticks := ticks + 1;
      if tasks == [] {
        return currentFrame;
      }
      if !idleWrapped {
        tasks := [Task(0, currentFrame, 0, cr3, false)] + tasks;
        idleWrapped := true;
      } else {
        tasks := tasks[0 := tasks[0].(sp := currentFrame)];
      }
      assert tasks == Saved(old(Now()), currentFrame);
      if tasks[0].id != 0 {
        busyTicks := busyTicks + 1;
      }
      var running := tasks[0];
      tasks := tasks[1..] + [running];
      SwitchTo(tasks[0]);
      return tasks[0].sp;
    }

    /** Returns the frame to resume; None is the null frame. Once idle is wrapped the queue never runs empty. */
    method ExitCurrent() returns (frame: Option<int>)
      requires Inv(Now())
      modifies this
      ensures Now() == Step(old(Now()), Exit) && Inv(Now())
      ensures frame == (if tasks == [] then None else Some(tasks[0].sp)) && (idleWrapped ==> tasks != [])
    {
      StepInv(Now(), Exit);
      if tasks != [] && tasks[0].id == 0 {
        return Some(tasks[0].sp);
      }
      if tasks != [] {
        tasks := tasks[1..];
      }
      if tasks == [] {
        return None;
      }
      SwitchTo(tasks[0]);
      return Some(tasks[0].sp);
    }
  }
}
