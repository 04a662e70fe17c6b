/** The task ring and the scheduler that walks it. */
module Scheduler {
  import opened Words
  import opened Scheduling

  class Task {
    const tid: nat
    const process: nat      // parent_process; 0 is NULL
    var state: State
    var wake: u32           // wake_tick
    var next: Task?

    constructor (tid: nat, process: nat)
      ensures this.tid == tid && this.process == process && state == Blocked && wake == 0 && next == null
    {
      this.tid, this.process, state, wake, next := tid, process, Blocked, 0, null;
    }
  }

  class TaskRing {
    var head: Task?
    var current: Task?
    var idle: Task?
    var count: nat
    var ticks: u32          // system_ticks
    var usageTicks: u32
    var busyTicks: u32
    var currentProcess: nat
    const table: array<Option<nat>>  // task_table: the tid that a static entry's next points to
    ghost var ring: seq<Task>

    /** One cycle through head with exactly `count` tasks, numbered in order. */
    ghost predicate Valid()
      reads this, ring
    {
      && count == |ring| <= MAX_TASKS == table.Length
      && (forall i :: 0 <= i < |ring| ==> ring[i].tid == i)
      && (forall i {:trigger ring[i].next} :: 0 <= i < |ring| ==> ring[i].next == ring[Ahead(i, 1, |ring|)])
      && head == (if ring == [] then null else ring[0])
      && (current != null ==> current in ring)
      && (idle != null ==> idle in ring)
    }

    /** The scheduler is running: it has a current task and an idle task. */
    ghost predicate Started()
      reads this
    {
      current != null && idle != null
    }

    ghost function Views(): (ts: seq<TaskView>)
      reads this, ring
      ensures |ts| == |ring|
    {
      seq(|ring|, i requires 0 <= i < |ring| reads this, ring => TaskView(ring[i].state, ring[i].wake))
    }

    ghost function Current(): (v: View)
      requires Valid() && Started()
      reads this, ring
      ensures v.Sound()
    {
      View(Views(), current.tid, idle.tid, ticks)
    }

    constructor ()
      ensures Valid() && ring == [] && usageTicks == busyTicks == 0
    {
      head, current, idle, count, ring := null, null, null, 0, [];
      ticks, usageTicks, busyTicks, currentProcess := 0, 0, 0, 0;
      table := new Option<nat>[MAX_TASKS](_ => None);
    }

    /** alloc_task: a new blocked task goes between the last task and the head. */
    method AllocTask(process: nat, memory: bool) returns (t: Task?)
      requires Valid()
      modifies this, ring
      ensures Valid()
      ensures t == null <==> old(count) >= MAX_TASKS || !memory
      ensures t == null ==> ring == old(ring)
      ensures t != null ==> fresh(t) && ring == old(ring) + [t] && t.state == Blocked && t.tid == old(count)
      ensures t != null ==> t.process == process
      ensures current == old(current) && idle == old(idle) && ticks == old(ticks)
      ensures t != null ==> Views() == old(Views()) + [TaskView(Blocked, 0)]
    {
      if count >= MAX_TASKS || !memory { return null; }
      t := new Task(count, process);
      Link(t);
      count := count + 1;
    }

    /** A task that is not in the ring goes between the last task and the head. */
    method Link(t: Task)
      requires Valid() && t !in ring && t.tid == count < MAX_TASKS
      modifies this`head, this`ring, ring`next, t`next
      ensures ring == old(ring) + [t] && head == ring[0]
      ensures forall i {:trigger ring[i].next} :: 0 <= i < |ring| ==> ring[i].next == ring[Ahead(i, 1, |ring|)]
    {
      if head == null {
        head := t;
        t.next := t;
      } else {
        var tail := LastTask();
        TidsDiffer();
        tail.next := t;
        t.next := head;
      }
      ring := ring + [t];
    }

    /** The walk to the task before the head. */
    method LastTask() returns (tail: Task)
      requires Valid() && head != null
      ensures tail == ring[|ring| - 1]
    {
      tail := head;
      ghost var i := 0;
      TidsDiffer();
      while tail.next != head
        invariant 0 <= i < |ring| && tail == ring[i]
        decreases |ring| - i
      {
        tail := tail.next;
        i := i + 1;
      }
    }

    /** Tasks at different places of the ring are different objects. */
    lemma TidsDiffer()
      requires Valid()
      ensures forall i, j :: 0 <= i < j < |ring| ==> ring[i] != ring[j]
    {
      forall i, j | 0 <= i < j < |ring|
        ensures ring[i] != ring[j]
      {
        assert ring[i].tid == i && ring[j].tid == j;
      }
    }

    /** scheduler_update_time: advance the clocks and wake every sleeper that is due. */
    method UpdateTime()
      requires Valid()
      modifies this`ticks, this`usageTicks, this`busyTicks, ring`state
      ensures Valid() && ticks == Add32(old(ticks), 1) && usageTicks == Add32(old(usageTicks), 1)
      ensures busyTicks == if current == idle then old(busyTicks) else Add32(old(busyTicks), 1)
      ensures Views() == WakeAll(old(Views()), ticks)
    {
      ticks := Add32(ticks, 1);
      usageTicks := Add32(usageTicks, 1);
      if current != idle { busyTicks := Add32(busyTicks, 1); }
      WakeSleepers();
    }

    /** The wake-up walk passes the head a second time before it stops, which changes nothing. */
    method WakeSleepers()
      requires Valid()
      modifies ring`state
      ensures Valid() && Views() == WakeAll(old(Views()), ticks)
    {
      if head == null { return; }
      ghost var before := old(Views());
      var t, cnt := head, 0;
      while true
        invariant Valid() && cnt <= count && t == ring[if cnt == |ring| then 0 else cnt]
        invariant forall i :: 0 <= i < |ring| ==> Seen(ring[i], before[i], i < cnt, ticks)
        decreases count - cnt
      {
        VisitTask(t, cnt, before);
        t := t.next;
        if cnt >= count { break; }
        cnt := cnt + 1;
      }
    }

    /** One step of the wake-up walk. */
    method VisitTask(t: Task, ghost cnt: nat, ghost before: seq<TaskView>)
      requires Valid() && |before| == |ring| && cnt <= |ring| && ring != []
      requires t == ring[if cnt == |ring| then 0 else cnt]
      requires forall i :: 0 <= i < |ring| ==> Seen(ring[i], before[i], i < cnt, ticks)
      modifies t`state
      ensures Valid()
      ensures forall i :: 0 <= i < |ring| ==> Seen(ring[i], before[i], i < cnt + 1, ticks)
    {
      TidsDiffer();
      WakeIfDue(t, ticks);
    }

    method WakeIfDue(t: Task, now: u32)
      modifies t`state
      ensures TaskView(t.state, t.wake) == Wake(old(TaskView(t.state, t.wake)), now)
    {
      if t.state == Sleeping && Due(t.wake, now) {
        t.state := Ready;
      }
    }

    /** A task during the wake-up walk, before or after its visit. */
    ghost predicate Seen(t: Task, before: TaskView, visited: bool, now: u32)
      reads t
    {
      TaskView(t.state, t.wake) == if visited then Wake(before, now) else before
    }

    /** remove_task_from_list: the store goes to the static table, so the ring keeps the task. */
    method RemoveTask(task: Task)
      requires Valid() && task in ring && task.tid > 0
      modifies task`state, table
      ensures Valid() && Views() == old(Views())[task.tid := TaskView(Exited, task.wake)]
      ensures table[..] == old(table[..])[task.tid - 1 := Some(ring[Ahead(task.tid, 1, |ring|)].tid)]
    {
      TidsDiffer();
      if task.state != Exited { task.state := Exited; }
      table[task.tid - 1] := Some(task.next.tid);
    }

    /** The static table has an entry before that of every exited task: task 0 has not exited. */
    ghost predicate Removable()
      reads this, ring
    {
      ring != [] ==> ring[0].state != Exited
    }

    /** scheduler_choose_next: exited tasks met on the way are removed from the static table only. */
    method ChooseNext() returns (task: Task?)
      requires Valid() && (current != null && head != null ==> idle != null)
      requires Removable()
      modifies ring`state, table
      ensures Valid() && Views() == old(Views())
      ensures current == null || head == null ==> task == idle
      ensures current != null && head != null ==> task in ring && task.tid == Choose(Current(), 1)
    {
      if current == null || head == null { return idle; }
      var next, max := current, count;
      ghost var k := 0;
      while max > 0
        invariant Valid() && Views() == old(Views()) && Removable()
        invariant max + k == count && next == ring[Ahead(current.tid, k, |ring|)]
        invariant Choose(Current(), 1) == Choose(Current(), k + 1)
        decreases max
      {
        max, k := max - 1, k + 1;
        next := if next.next != null then next.next else head;
        assert next == ring[Ahead(current.tid, k, |ring|)];
        if next.state == Ready || next.tid == idle.tid { return next; }
        if next.state == Exited { RemoveExited(next); }
      }
      return idle;
    }

    /** Removing a task that has exited already changes no task. */
    method RemoveExited(task: Task)
      requires Valid() && task in ring && task.state == Exited && Removable()
      modifies task`state, table
      ensures Valid() && Views() == old(Views()) && Removable()
    {
      assert Views()[task.tid] == TaskView(Exited, task.wake);
      RemoveTask(task);
    }

    /** scheduler_tick: exactly one step of the scheduling model. */
    method Tick()
      requires Valid() && Started() && Removable()
      modifies this`ticks, this`usageTicks, this`busyTicks, this`current, this`currentProcess, ring, table
      ensures Valid() && Started() && ring == old(ring)
      ensures Current() == Scheduling.Tick(old(Current()))
      ensures currentProcess == current.process
    {
      UpdateTime();
      assert Views()[0] == Wake(old(Views())[0], ticks);
      var next := ChooseNext();
      if next != current { current := next; }
      currentProcess := current.process;
    }

    /** sleep_ms: the current task goes to sleep, and its yield enters the scheduler like any other tick. */
    method SleepMs(ms: u32, frequency: u32)
      requires Valid() && Started() && Removable()
      modifies this`ticks, this`usageTicks, this`busyTicks, this`current, this`currentProcess, ring, table
      ensures Valid() && Started()
      ensures var asleep := TaskView(Sleeping, Add32(old(ticks), SleepTicks(ms, frequency)));
              var v := old(Current());
              Current() == Scheduling.Tick(v.(tasks := v.tasks[v.cur := asleep]))
    {
      PutToSleep(ms, frequency);
      Tick();
    }

    /** The stores of sleep_ms, with interrupts off. */
    method PutToSleep(ms: u32, frequency: u32)
      requires Valid() && Started()
      modifies current
      ensures Valid() && Started() && (old(Removable()) ==> Removable())
      ensures Current() == old(Current()).(tasks := old(Views())[current.tid :=
                TaskView(Sleeping, Add32(ticks, SleepTicks(ms, frequency)))])
    {
      var wait := MsToTicks(ms, frequency);
      if wait == 0 { wait := 1; }
      TidsDiffer();
      current.wake := Add32(ticks, wait);
      current.state := Sleeping;
    }

    /** block_task and wake_task. */
    method SetState(t: Task, state: State)
      requires Valid() && t in ring
      modifies t`state
      ensures Valid()
      ensures Views() == old(Views())[t.tid := TaskView(state, t.wake)]
    {
      TidsDiffer();
      t.state := state;
    }
  }
}
