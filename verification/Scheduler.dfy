/**
 * scheduler.c, task_manager.c: the circular task list, its growth under timer ticks, and the choice of the next task.
 */
module Scheduler {
  import opened Base
  import opened RoundRobin

  datatype TaskState = Idle | Running | Paused | Zombie

  /** task_t; `directory` is the physical page directory of its process, 0 when there is none. */
  class Task {
    var ctx: Registers
    var state: TaskState
    var next: Task?
    var directory: nat

    constructor (ctx: Registers, directory: nat)
      ensures this.ctx == ctx && this.directory == directory && state == Idle && next == null
    {
      this.ctx, this.directory := ctx, directory;
      state, next := Idle, null;
    }
  }

  function EntryOf(t: Task): Entry
    reads t
  {
    Entry(t.state == Zombie, t.ctx, t.directory)
  }

  function Entries(tasks: seq<Task>): (ring: seq<Entry>)
    reads tasks
    ensures |ring| == |tasks| && forall i :: 0 <= i < |tasks| ==> ring[i] == EntryOf(tasks[i])
  {
    if tasks == [] then [] else Entries(tasks[..|tasks| - 1]) + [EntryOf(tasks[|tasks| - 1])]
  }

  ghost predicate Distinct(tasks: seq<Task>) {
    forall i, j :: 0 <= i < j < |tasks| ==> tasks[i] != tasks[j]
  }

  /** The `next` links form one cycle through all of `tasks`. */
  ghost predicate Cycle(tasks: seq<Task>)
    reads tasks
  {
    forall i :: 0 <= i < |tasks| ==> tasks[i].next == tasks[After(i, 1, |tasks|)]
  }

  class TaskList {
    var head: Task?
    var tail: Task?
    var current: Task?
    var running: bool
    var cr3: nat
    ghost var tasks: seq<Task>     // the cycle, from the head on
    ghost var place: nat           // where `current` stands in it

    /** What a timer interrupt may rely on at any moment, also between the stores of an append. */
    ghost predicate Ring()
      reads this, tasks
    {
      && Distinct(tasks) && Cycle(tasks)
      && (tasks != [] ==> head == tasks[0])
      && (current != null ==> place < |tasks| && current == tasks[place])
    }

    /** No append is under way. */
    ghost predicate Settled()
      reads this, tasks
    {
      Ring() && if tasks == [] then head == null else tail == tasks[|tasks| - 1]
    }

    ghost function View(): (s: State)
      requires Ring() && current != null
      reads this, tasks
      ensures WellFormed(s)
    {
      State(Entries(tasks), place, cr3)
    }

    constructor ()
      ensures Settled() && tasks == [] && current == null && !running
    {
      head, tail, current, running, cr3 := null, null, null, false, 0;
      tasks, place := [], 0;
    }

    /** kscheduler_pick_next */
    method PickNext() returns (next: Task?)
      requires Ring()
      ensures current == null ==> next == null
      ensures current != null ==> (next == null <==> Next(View()) == None)
      ensures current != null && next != null ==> Next(View()).Some? && next == tasks[Next(View()).value]
    {
      next := null;
      if current == null {
        return;
      }
      next := current.next;
      ghost var k := 1;
      while next.state == Zombie && next != current
        invariant 1 <= k <= |tasks| && next == tasks[After(place, k, |tasks|)]
        invariant Search(Entries(tasks), place, k) == Search(Entries(tasks), place, 1)
        decreases |tasks| - k
      {
        next := next.next;
        k := k + 1;
      }
      if next.state == Zombie {
        assert k == |tasks|;
        return null;
      }
    }

    /** kmemcpy into the context of the running task, and the corrections that follow. */
    method SaveContext(f: Frame)
      requires Ring() && current != null
      modifies current`ctx
      ensures Ring() && View() == State(Interrupted(old(View().ring), place, f), place, cr3)
      ensures var c, r := current.ctx, f.regs;
        && c.eip == r.eip && c.cs == r.cs && c.eflags == r.eflags
        && c.eax == r.eax && c.ebx == r.ebx && c.ecx == r.ecx && c.edx == r.edx
        && c.esi == r.esi && c.edi == r.edi && c.ebp == r.ebp && c.intNo == r.intNo && c.errCode == r.errCode
      ensures var c, r := current.ctx, f.regs;
        if r.cs % 4 == 3 then c.esp == f.word17 && c.ds == 0x23 && c.es == 0x23 && c.fs == 0x23 && c.gs == 0x23
        else c.esp == (f.address + 68) % TWO32 && c.ds == r.ds && c.es == r.es && c.fs == r.fs && c.gs == r.gs
    {
      var r := f.regs;
      current.ctx := r;
      if r.cs % 4 == 3 {
        current.ctx := r.(esp := f.word17, ds := USER_DATA, es := USER_DATA, fs := USER_DATA, gs := USER_DATA);
      } else {
        current.ctx := r.(esp := Wrap32(f.address + FRAME_SIZE));
      }
      assert current.ctx == Saved(f);
      hide Saved;
      EntriesDiffer(tasks, old(Entries(tasks)), place);
    }

    /** The processor and CR3 go to `next`. */
    method SwitchTask(next: Task, ghost i: nat)
      requires Ring() && current != null && i < |tasks| && next == tasks[i]
      modifies this`current, this`cr3, this`place
      ensures Ring() && current != null && View() == SwitchTo(old(View()).ring, i, old(cr3))
    {
      current, place := next, i;
      if next.directory != 0 {
        cr3 := next.directory;
      }
    }

    /** kscheduler_tick; true stands for the switch into `current`, from which it does not return. */
    method Tick(regs: Option<Frame>) returns (switched: bool)
      requires Ring()
      modifies this`current, this`cr3, this`place, tasks
      ensures Ring() && (current == null <==> old(current) == null)
      ensures (regs == None || old(current) == null) ==> !switched && current == old(current) && cr3 == old(cr3)
      ensures (regs.Some? && old(current) != null) ==>
                Step(old(View()), RoundRobin.Tick(regs.value)) == if switched then Returned(View()) else Halted
      ensures forall t <- tasks :: t.state == old(t.state)
      ensures forall t <- tasks :: t.ctx == old(t.ctx) || (t == old(current) && regs.Some?)
    {
      hide Saved, Interrupted, Entries, Search, SwitchTo, Distinct, Cycle;
      if regs == None || current == null {
        return false;
      }
      SaveContext(regs.value);
      ghost var r := View();
      var next := PickNext();
      if next == null {
        return false;
      }
      SwitchTask(next, Next(r).value);
      return true;
    }

    /** ktask_exit, up to the wait for the next tick. */
    method Exit()
      requires Ring()
      modifies tasks
      ensures Ring()
      ensures current != null ==> Returned(View()) == Step(old(View()), RoundRobin.Exit)
      ensures current != null ==> current.state == Zombie && current.ctx == old(current.ctx)
      ensures forall t <- tasks :: t == current || (t.state == old(t.state) && t.ctx == old(t.ctx))
    {
      if current == null {
        return;
      }
      current.state := Zombie;
      EntriesDiffer(tasks, old(Entries(tasks)), place);
    }

    /** What runs between two stores of the interrupted code. False: a tick found no task, and panicked. */
    method Interrupts(events: seq<Interruption>) returns (alive: bool)
      requires Ring()
      modifies this`current, this`cr3, this`place, tasks
      ensures Ring() && (current == null <==> old(current) == null)
      ensures old(current) == null ==> (alive <==> Ticks(events) == 0) && cr3 == old(cr3)
      ensures old(current) != null ==> Run(old(View()), events) == if alive then Returned(View()) else Halted
    {
      hide Step, Run, Entries, Cycle, Distinct, Ticks;
      var i := 0;
      assert events[0..] == events;
      assert events[|events|..] == [];
      while i < |events|
        invariant 0 <= i <= |events| && Ring() && (current == null <==> old(current) == null)
        invariant old(current) == null ==> Ticks(events[i..]) == Ticks(events) && cr3 == old(cr3)
        invariant old(current) != null ==> Run(View(), events[i..]) == Run(old(View()), events)
      {
        alive := InterruptAt(events, i);
        if !alive {
          return;
        }
        i := i + 1;
      }
      RunNothing(events[i..]);
      return true;
    }

    method InterruptAt(events: seq<Interruption>, i: nat) returns (alive: bool)
      requires Ring() && i < |events|
      modifies this`current, this`cr3, this`place, tasks
      ensures Ring() && (current == null <==> old(current) == null)
      ensures old(current) == null ==> cr3 == old(cr3)
      ensures old(current) == null ==> if alive then Ticks(events[i..]) == Ticks(events[i + 1..]) else Ticks(events[i..]) > 0
      ensures old(current) != null ==>
        Run(old(View()), events[i..]) == if alive then Run(View(), events[i + 1..]) else Halted
    {
      hide Step, Run, Entries, Cycle, Distinct, Ticks;
      TicksFrom(events, i);
      if current != null { RunFrom(View(), events, i); }
      alive := Interrupt(events[i]);
    }

    method Interrupt(e: Interruption) returns (alive: bool)
      requires Ring()
      modifies this`current, this`cr3, this`place, tasks
      ensures Ring() && (current == null <==> old(current) == null)
      ensures old(current) == null ==> (alive <==> e.Exit?) && cr3 == old(cr3)
      ensures old(current) != null ==> Step(old(View()), e) == if alive then Returned(View()) else Halted
    {
      hide Step, Entries, Cycle, Distinct;
      match e {
        case Exit => Exit(); alive := true;
        case Tick(f) => alive := Tick(Some(f));
      }
    }

    /** The first task closes the cycle on itself; `current` is null, so any tick in between panics. */
    method AddFirst(task: Task, first: seq<Interruption>, second: seq<Interruption>) returns (alive: bool)
      requires Settled() && tasks == []
      modifies this, task`next
      ensures alive <==> Ticks(first) == 0 && Ticks(second) == 0
      ensures alive ==> Settled() && tasks == [task]
      ensures Ring() && current == null && running == old(running) && cr3 == old(cr3)
    {
      head := task;
      alive := Interrupts(first);
      if !alive { return; }
      tail := task;
      alive := Interrupts(second);
      if !alive { return; }
      tail.next := head;
      tasks := [task];
    }

    /** A later task is linked behind the tail; from the second store on the cycle runs through it. */
    method AddLater(task: Task, first: seq<Interruption>, second: seq<Interruption>) returns (alive: bool)
      requires Settled() && tasks != [] && task !in tasks
      modifies this`current, this`cr3, this`place, this`tasks, this`tail, tasks, task
      ensures Ring() && (current == null <==> old(current) == null)
      ensures alive ==> Settled() && tasks == old(tasks) + [task]
      ensures old(current) == null ==> (alive <==> Ticks(first) == 0 && Ticks(second) == 0)
      ensures old(current) != null ==>
        Run(old(View()), first + [Join(old(EntryOf(task)))] + second) == if alive then Returned(View()) else Halted
    {
      hide Run, Entries, Cycle, Distinct, Ticks, Step;
      PointToHead(task);
      if current != null { RunThrough(View(), first, EntryOf(task), second); }
      alive := Interrupts(first);
      if !alive { return; }
      Link(task);
      alive := Interrupts(second);
      if !alive { return; }
      SetTail(task);
    }

    /** ktask_tail = task */
    method SetTail(task: Task)
      requires Ring() && tasks != [] && tasks[|tasks| - 1] == task
      modifies this`tail
      ensures Settled() && (current != null ==> View() == old(View()))
    {
      tail := task;
    }

    /** task->_next = ktask_head: the task is not on the list yet. */
    method PointToHead(task: Task)
      requires Settled() && tasks != [] && task !in tasks
      modifies task`next
      ensures Settled() && task.next == head && EntryOf(task) == old(EntryOf(task))
      ensures tail != null && tail in tasks
      ensures current != null ==> View() == old(View())
    {
      task.next := head;
    }

    /** ktask_tail->_next = task, when `task` already points to the head. */
    method Link(task: Task)
      requires Settled() && tasks != [] && task !in tasks && task.next == head
      modifies this`tasks, tail`next
      ensures Ring() && tasks == old(tasks) + [task]
      ensures current != null ==> View() == State(old(View()).ring + [EntryOf(task)], place, cr3)
    {
      hide Entries, Search;
      tail.next := task;
      OneMoreInCycle(tasks, task);
      EntriesAppend(tasks, task);
      EntriesKept(tasks);
      tasks := tasks + [task];
    }

    /** A store to a link changes no entry. */
    twostate lemma EntriesKept(same: seq<Task>)
      requires forall t <- same :: t.state == old(t.state) && t.ctx == old(t.ctx) && t.directory == old(t.directory)
      ensures Entries(same) == old(Entries(same))
    {
    }

    /** kscheduler_add_task, with the interrupts that land after its first and its second store. */
    method AddTask(task: Task?, first: seq<Interruption>, second: seq<Interruption>) returns (r: Result<bool>)
      requires Settled() && task !in tasks
      modifies this, tasks, task
      ensures Ring() && (current == null <==> old(current) == null) && running == old(running)
      ensures task == null ==>
        r == Returned(false) && Settled() && tasks == old(tasks) && (current != null ==> View() == old(View()))
      ensures task != null ==> r == Halted || (r == Returned(true) && Settled() && tasks == old(tasks) + [task])
      ensures task != null && old(current) == null ==> (r == Halted <==> Ticks(first) > 0 || Ticks(second) > 0)
      ensures task != null && old(current) != null ==>
                Run(old(View()), first + [Join(old(EntryOf(task)))] + second) == if r == Halted then Halted else Returned(View())
    {
      if task == null {
        return Returned(false);
      }
      var alive;
      if head == null {
        alive := AddFirst(task, first, second);
      } else {
        alive := AddLater(task, first, second);
      }
      return if alive then Returned(true) else Halted;
    }

    /**
     * kscheduler_add_task for a task that is on the list already: the links stay one cycle exactly if it is the lone
     * task. Otherwise the tail points to itself, or the tasks behind this one are no longer reached from the head.
     */
    method AddAgain(task: Task)
      requires Settled() && task in tasks
      modifies this`tail, tasks
      ensures tail == task && old(tail).next == task && (task != old(tail) ==> task.next == head)
      ensures Entries(tasks) == old(Entries(tasks))
      ensures Cycle(tasks) <==> |tasks| == 1
    {
      task.next := head;
      tail.next := task;
      tail := task;
      EntriesKept(tasks);
      ghost var n := |tasks|;
      if n > 1 {
        assert After(n - 1, 1, n) == 0;
        assert After(0, 1, n) == 1;
      }
    }

    /** kscheduler_start: the head of the list runs first, whatever its state was. */
    method Start()
      requires Settled()
      modifies this`running, this`current, this`place, tasks`state
      ensures Settled() && tasks == old(tasks)
      ensures tasks == [] || old(running) ==>
        running == old(running) && current == old(current) && Entries(tasks) == old(Entries(tasks))
      ensures tasks != [] && !old(running) ==> (
                running && current == tasks[0] && place == 0 && tasks[0].state == Running
                && Entries(tasks) == old(Entries(tasks))[0 := Entry(false, tasks[0].ctx, tasks[0].directory)])
    {
      if head == null || running {
        return;
      }
      running := true;
      current, place := head, 0;
      head.state := Running;
      EntriesDiffer(tasks, old(Entries(tasks)), 0);
    }

    /** kscheduler_init: with tasks already on the list the seed task is ignored. */
    method Init(seed: Task?, first: seq<Interruption>, second: seq<Interruption>) returns (r: Result<bool>)
      requires Settled() && seed !in tasks
      modifies this, tasks, seed
      ensures Ring()
      ensures old(running) ==>
        r == Returned(false) && running && tasks == old(tasks) && current == old(current) && Settled()
      ensures !old(running) && old(tasks) == [] && seed == null ==> r == Returned(false) && tasks == [] && !running
      ensures !old(running) && r == Returned(true) ==> (
                Settled() && running && tasks == (if old(tasks) == [] then [seed] else old(tasks)) && current == tasks[0]
                && tasks[0].state == Running && cr3 == old(cr3))
      ensures r == Halted <==> !old(running) && old(tasks) == [] && seed != null && (Ticks(first) > 0 || Ticks(second) > 0)
      ensures r == Returned(false) <==> old(running) || (old(tasks) == [] && seed == null)
    {
      if running {
        return Returned(false);
      }
      running, current := false, null;
      if head == null {
        if seed == null {
          return Returned(false);
        }
        var alive := AddFirst(seed, first, second);
        if !alive {
          return Halted;
        }
      }
      Start();
      return Returned(true);
    }
  }

  lemma OneMoreInCycle(tasks: seq<Task>, task: Task)
    requires tasks != [] && task !in tasks && Distinct(tasks) && task.next == tasks[0]
    requires tasks[|tasks| - 1].next == task
    requires forall i :: 0 <= i < |tasks| - 1 ==> tasks[i].next == tasks[After(i, 1, |tasks|)]
    ensures Distinct(tasks + [task]) && Cycle(tasks + [task])
  {
  }

  lemma EntriesAppend(tasks: seq<Task>, task: Task)
    ensures Entries(tasks + [task]) == Entries(tasks) + [EntryOf(task)]
  {
    assert (tasks + [task])[..|tasks|] == tasks;
  }

  lemma RunNothing(events: seq<Interruption>)
    requires events == []
    ensures Ticks(events) == 0 && forall s: State :: WellFormed(s) ==> Run(s, events) == Returned(s)
  {
  }

  lemma EntriesDiffer(tasks: seq<Task>, was: seq<Entry>, i: nat)
    requires |was| == |tasks| && i < |tasks| && forall j :: 0 <= j < |tasks| && j != i ==> was[j] == EntryOf(tasks[j])
    ensures Entries(tasks) == was[i := EntryOf(tasks[i])]
  {
  }
}
