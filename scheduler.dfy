/** The cooperative, tick-driven scheduler as a state machine: the task
    table, the registration counter, the tick counter shared with the timer
    interrupt, the current-task index and the fault code. Each critical
    section and each interrupt is one atomic method call. */
module Sched {
  import opened TaskTable

  /** How a call that may invoke the safe-shutdown routine ends; `ShutDown`
      stands for a call that, on the target, never returns. */
  datatype Status = Running | ShutDown

  class Scheduler {
    /** SCH_MAX_TASKS, fixed at build time. */
    const maxTasks: nat
    /** SCH_tasks_G. */
    var tasks: array<Task>
    /** The static `Index` of SCH_Add_Task: the next free slot. */
    var nextIndex: nat
    /** Tick_count_G: ticks signalled by the timer and not yet dispatched. */
    var tickCount: u32
    /** ITask: the slot of the task running or last run. */
    var iTask: nat
    /** Fault_code_G. */
    var faultCode: u32
    /** The SysTick enable and interrupt-enable bits, both at once. */
    var timerRunning: bool
    /** Slots whose callback has run, in the order they ran. */
    ghost var trace: seq<nat>

    ghost predicate Valid()
      reads this`tasks, this`nextIndex, this`iTask, tasks
    {
      0 < maxTasks <= U32_MAX && tasks.Length == maxTasks &&
      nextIndex <= maxTasks && iTask < maxTasks &&
      WellFormed(tasks[..], nextIndex)
    }

    /** The part of the state that dispatch changes. */
    ghost function Snap(): Snapshot
      reads this`tasks, this`trace, this`iTask, tasks
    {
      Snapshot(tasks[..], trace, iTask)
    }

    /** The state at program load: every global and static is zero. */
    constructor (maxTasks: nat)
      requires 0 < maxTasks <= U32_MAX
      ensures Valid() && fresh(tasks)
      ensures this.maxTasks == maxTasks
      ensures forall i :: 0 <= i < maxTasks ==> tasks[i] == ZERO_TASK
      ensures nextIndex == 0 && tickCount == 0 && iTask == 0 && faultCode == 0
      ensures !timerRunning && trace == []
    {
      this.maxTasks := maxTasks;
      tasks := new Task[maxTasks](_ => ZERO_TASK);
      nextIndex, tickCount, iTask, faultCode := 0, 0, 0, 0;
      timerRunning := false;
      trace := [];
    }

    /** SCH_Init. The fault code is reset and every slot loses its callback
        and has its debug block zeroed; countdowns, periods and the
        registration, tick and current-task counters are left as they were.
        Then a clock other than the one the build expects, or a tick period
        the timer cannot be programmed for, shuts the system down; otherwise
        the timer is left stopped with its interrupt disabled. */
    method Init(coreClock: nat, requiredCoreClock: nat, timerConfigured: bool)
      returns (status: Status)
      requires Valid()
      modifies this`faultCode, this`timerRunning, tasks
      ensures Valid()
      ensures forall i :: 0 <= i < maxTasks ==> tasks[i] == Cleared(old(tasks[i]))
      ensures faultCode == 0
      ensures status == (if coreClock == requiredCoreClock && timerConfigured then Running else ShutDown)
      ensures timerRunning == (if status == Running then false else old(timerRunning))
    {
      faultCode := 0;
      for i := 0 to maxTasks
        modifies tasks
        invariant forall j :: 0 <= j < i ==> tasks[j] == Cleared(old(tasks[j]))
        invariant forall j :: i <= j < maxTasks ==> tasks[j] == old(tasks[j])
      {
        tasks[i] := Cleared(tasks[i]);
      }
      if coreClock != requiredCoreClock {
        return ShutDown;
      }
      if !timerConfigured {
        return ShutDown;
      }
      timerRunning := false;
      status := Running;
    }

    /** SCH_Start: enables the timer and its interrupt. */
    method Start()
      modifies this`timerRunning
      ensures timerRunning
    {
      timerRunning := true;
    }

    /** SysTick_Handler: one timer interrupt adds one tick to the counter,
        wrapping as a uint32_t does. */
    method Tick()
      requires timerRunning
      modifies this`tickCount
      ensures tickCount == Inc32(old(tickCount))
    {
      tickCount := Inc32(tickCount);
    }

    /** The critical section of SCH_Dispatch_Tasks: with interrupts masked,
        take one owed tick off the counter if there is one. */
    method ConsumeTick() returns (owed: bool)
      modifies this`tickCount
      ensures owed == (old(tickCount) > 0)
      ensures tickCount == if owed then old(tickCount) - 1 else old(tickCount)
    {
      owed := false;
      if tickCount > 0 {
        tickCount := tickCount - 1;
        owed := true;
      }
    }

    /** The `for` loop of SCH_Dispatch_Tasks: one pass over the table in
        ascending slot order. */
    method DispatchPass()
      requires Valid()
      modifies this`iTask, this`trace, tasks
      ensures Valid()
      ensures Snap() == PassState(old(Snap()))
    {
      ghost var t0 := tasks[..];
      for index := 0 to maxTasks
        modifies this`iTask, this`trace, tasks
        invariant forall j :: 0 <= j < index ==> tasks[j] == Step(t0[j])
        invariant forall j :: index <= j < maxTasks ==> tasks[j] == t0[j]
        invariant trace == old(trace) + FiredBelow(t0, index)
        invariant iTask == CurrentBelow(t0, index, old(iTask))
      {
        var t := tasks[index];
        assert t == t0[index];
        assert FiredBelow(t0, index + 1) ==
               FiredBelow(t0, index) + (if FiresNow(t) then [index] else []);
        if t.callback.Some? {
          var d := Dec32(t.delay);
          tasks[index] := t.(delay := d);
          if d == 0 {
            iTask := index;
            trace := trace + [index];  // the task runs to completion here
            tasks[index] := t.(delay := t.period);
          }
        }
      }
      assert tasks[..] == Pass(t0);
      CurrentAfterInRange(t0, old(iTask));
      PassKeepsInvariants(t0, nextIndex);
    }

    /** SCH_Dispatch_Tasks, with no interrupt arriving during the call: one
        full pass per tick owed, so the counter is drained to zero, then the
        system mode decides between shutting down and sleeping. */
    method DispatchTasks(failSilent: bool) returns (status: Status)
      requires Valid()
      modifies this`iTask, this`trace, this`tickCount, tasks
      ensures Valid()
      ensures tickCount == 0
      ensures Snap() == Run(old(Snap()), old(tickCount))
      ensures status == (if failSilent then ShutDown else Running)
    {
      ghost var s0, n := Snap(), tickCount;
      ghost var passes: nat := 0;
      var updateRequired := ConsumeTick();
      while updateRequired
        invariant Valid()
        invariant passes <= n && Snap() == Run(s0, passes)
        invariant updateRequired ==> tickCount == n - passes - 1
        invariant !updateRequired ==> tickCount == 0 && passes == n
        decreases n - passes
      {
        DispatchPass();
        RunAppendsPass(s0, passes);
        passes := passes + 1;
        updateRequired := ConsumeTick();
      }
      assert passes == n;
      // SYSTEM_Get_Mode() == FAIL_SILENT, else SCH_Go_To_Sleep()
      status := if failSilent then ShutDown else Running;
    }

    /** SCH_Add_Task. With a free slot and a nonzero period the request is
        stored in the next free slot and the counter moves on; a zero period
        or a full table stores nothing. Returns the counter after the call. */
    method AddTask(callback: Option<Callback>, delay: u32, period: u32, wcet: u32, bcet: u32)
      returns (r: u32)
      requires Valid()
      modifies this`nextIndex, tasks
      ensures Valid()
      ensures Registry(tasks[..], nextIndex) ==
                Add(old(tasks[..]), old(nextIndex), Request(callback, delay, period, wcet, bcet))
      ensures old(nextIndex) < maxTasks && period != 0 ==>
                nextIndex == old(nextIndex) + 1 &&
                tasks[old(nextIndex)] ==
                  Install(old(tasks[nextIndex]), Request(callback, delay, period, wcet, bcet)) &&
                forall i :: 0 <= i < maxTasks && i != old(nextIndex) ==> tasks[i] == old(tasks[i])
      ensures old(nextIndex) == maxTasks || period == 0 ==>
                nextIndex == old(nextIndex) && tasks[..] == old(tasks[..])
      ensures r == nextIndex && old(nextIndex) <= r <= maxTasks
    {
      ghost var req := Request(callback, delay, period, wcet, bcet);
      ghost var t0 := tasks[..];
      if nextIndex < maxTasks {
        if period != 0 {
          tasks[nextIndex] := tasks[nextIndex].(callback := callback, delay := Inc32(delay),
                                                period := period, wcet := wcet, bcet := bcet);
          nextIndex := nextIndex + 1;
          assert tasks[..] == t0[old(nextIndex) := Install(t0[old(nextIndex)], req)];
        }
      } else {
        nextIndex := maxTasks;
      }
      r := nextIndex;
    }

    /** SCH_Get_Current_Task. */
    method GetCurrentTask() returns (r: nat)
      requires Valid()
      ensures r == iTask && r < maxTasks
    {
      r := iTask;
    }

    /** SCH_Get_Current_Task_Pointer, returning the entry's value. */
    method GetCurrentTaskEntry() returns (t: Task)
      requires Valid()
      ensures t == tasks[iTask]
    {
      t := tasks[iTask];
    }
  }

  /** A main loop round on a running system: `n` timer interrupts arrive
      while the processor sleeps, then the dispatcher runs exactly `n`
      passes, which is what the tick counter promises as long as fewer than
      2^32 ticks are outstanding. */
  method TicksThenDispatch(s: Scheduler, n: nat)
    requires s.Valid() && s.timerRunning && s.tickCount == 0 && n <= U32_MAX
    modifies s`tickCount, s`iTask, s`trace, s.tasks
    ensures s.Valid() && s.tickCount == 0
    ensures s.Snap() == Run(old(s.Snap()), n)
  {
    for k := 0 to n
      modifies s`tickCount
      invariant s.tickCount == k
    {
      s.Tick();
    }
    var status := s.DispatchTasks(false);
  }
}
