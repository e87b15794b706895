# Cooperative tick-driven scheduler (LPC1769 `scheduler.c`)

This project models the task scheduler of the LPC1769 infrared-thermometer
firmware. It is a single-core, cooperative, time-triggered scheduler with a
fixed-size table of periodic tasks. Each table slot holds:

- a callback;
- a countdown (`Delay`);
- a `Period`;
- the WCET and BCET bounds;
- a debug block.

Tasks are registered before the scheduler starts. The SysTick interrupt adds
one to a shared tick counter on every tick. The main loop calls the
dispatcher, which takes one owed tick at a time off the counter with
interrupts masked. For each owed tick it makes one full pass over the table
in ascending slot order. On that pass, every occupied slot counts down by
one. A slot that reaches zero:

1. is recorded as the current task (`ITask`);
2. has its callback run to completion;
3. is re-armed from its period.

The model has three modules:

- `TaskTable` (`tasktable.dfy`) describes the table as values:
  - 32-bit wrap-around (`Inc32`, `Dec32`);
  - one slot through one pass (`Step`);
  - one pass over the table (`Pass`, `Fired`, `CurrentAfter`);
  - repeated passes (`Passes`, `Run` over a `Snapshot` of the table, the
    slots run so far and `ITask`);
  - registration (`Add`, `AddAll`).

  Its lemmas cover four properties: the firing schedule, slot order within a
  pass, the table invariants and append-only registration.
- `Sched` (`scheduler.dfy`) holds the class `Scheduler`. It keeps the global
  and static state of `scheduler.c` as fields:
  - the task table is an `array<Task>`;
  - the static `Index` of `SCH_Add_Task` is `nextIndex`;
  - `Tick_count_G`, `ITask` and `Fault_code_G` are fields of their own, and
    so is a flag for the SysTick enable bits.

  Callback invocations are recorded in the ghost sequence `trace` as slot
  indices. Each C function is one method. Each critical section is a method
  that runs atomically. The dispatcher's loops are `while`/`for` loops,
  proved against `PassState` and `Run`.
- `Scenario` (`scenario.dfy`) is a worked example on a four-slot table.

Decisions where the model is more precise than the prose description of the
system, or departs from it to follow the code:

- **Init keeps the counters.** `SCH_Init` does not reset `Tick_count_G`, the
  static `Index` or `ITask`. It also keeps every slot's `Delay` and `Period`.
  The system's prose description says the tick counter is zeroed at
  initialisation. In the code, only the zero-initialisation of the globals at
  load time does that, which the constructor models.
- **The return value is the count.** `SCH_Add_Task` returns the counter
  *after* the call, not the slot used. So filling the last free slot returns
  `SCH_MAX_TASKS`, the same value as the "table full" sentinel. The
  doc-comment at line 197 says otherwise.
- **A delay-0 task runs on the first tick.** The code stores `DELAY + 1`, so
  a task registered with `DELAY = 0` runs in the first pass after the first
  tick. The description's worked scenario says the opposite for task A, while
  its own timing rule agrees with the code. `Scenario.DispatchExample` and
  `TaskTable.RegisteredTaskSchedule` follow the code.
- **uint32 wrap-around is explicit.**
  - `DELAY + 1` wraps to 0 when `DELAY = 0xFFFFFFFF`.
  - `Delay--` on a stored 0 wraps to `0xFFFFFFFF`, so that task still runs
    on pass 2^32.
  - `Tick_count_G++` wraps as well.

  `Ticks` maps a stored countdown to the passes it stands for, so the
  schedule lemmas hold for every `DELAY`.
- **A null callback is accepted.** `SCH_Add_Task` with a null `pTask` and a
  nonzero period takes a slot. Such a slot never runs, because dispatch
  skips empty slots.
- **Inputs stand in for outside state.** The collaborators outside this file
  become parameters:
  - the clock check (`SystemCoreClock` against `Required_SystemCoreClock`);
  - the outcome of `SysTick_Config`;
  - the `FAIL_SILENT` mode query.

  `SYSTEM_Perform_Safe_Shutdown` does not return, so a method that would
  call it ends with `Status.ShutDown`.

## Model

| member | source | states |
|---|---|---|
| TaskTable.Wrap32 | LPC1769/Termometro_IR/src/Os/scheduler.c:121 | uint32 increment and decrement are addition and subtraction modulo 2^32, and each undoes the other |
| TaskTable.Ticks | LPC1769/Termometro_IR/src/Os/scheduler.c:154-155 | a stored countdown stands for between 1 and 2^32 decrements before it reads 0; it takes exactly one exactly when one decrement reaches 0 |
| TaskTable.Cleared | LPC1769/Termometro_IR/src/Os/scheduler.c:61-62 | Init's effect on a slot: no callback, zeroed debug block, countdown, period and execution-time bounds kept |
| TaskTable.StepSpec | LPC1769/Termometro_IR/src/Os/scheduler.c:152-164 | an empty slot is untouched; callback, period, WCET, BCET and debug never change; an occupied slot runs exactly when one tick is left, and is then re-armed with its period; otherwise one tick fewer is left |
| TaskTable.Pass | LPC1769/Termometro_IR/src/Os/scheduler.c:149-166 | a pass keeps the table size |
| TaskTable.FiredBelowExactly | LPC1769/Termometro_IR/src/Os/scheduler.c:149-159 | the slots run while scanning the first n slots are exactly the occupied slots below n that are due, in strictly ascending order |
| TaskTable.CurrentIsHighestFired | LPC1769/Termometro_IR/src/Os/scheduler.c:149-157 | after a pass, ITask is the highest slot that ran, or unchanged if none ran, and stays below the table size |
| TaskTable.CurrentAfterInRange | LPC1769/Termometro_IR/src/Os/scheduler.c:157 | ITask stays below SCH_MAX_TASKS across one pass |
| TaskTable.Passes | LPC1769/Termometro_IR/src/Os/scheduler.c:146-179 | repeated passes keep the table size |
| TaskTable.PassesKeepConfiguration | LPC1769/Termometro_IR/src/Os/scheduler.c:149-165 | any number of passes leaves every slot's callback, period, WCET, BCET and debug block as they were |
| TaskTable.RunTable | LPC1769/Termometro_IR/src/Os/scheduler.c:146-179 | after k dispatched ticks the table is the table after k passes |
| TaskTable.RunKeepsEarlierRuns | LPC1769/Termometro_IR/src/Os/scheduler.c:146-179 | dispatch only appends to the record of callbacks run |
| TaskTable.RunCurrentInRange | LPC1769/Termometro_IR/src/Os/scheduler.c:157 | ITask < SCH_MAX_TASKS however many passes run |
| TaskTable.RunAppendsPass | LPC1769/Termometro_IR/src/Os/scheduler.c:146-179 | zero passes change nothing; each further pass appends exactly the slots due in it, in strictly ascending order |
| TaskTable.PassesAt | LPC1769/Termometro_IR/src/Os/scheduler.c:149-166 | slots evolve independently: slot i after k passes depends only on slot i |
| TaskTable.SlotCountdown | LPC1769/Termometro_IR/src/Os/scheduler.c:154-163 | the ticks left for an occupied slot after k passes count down from the initial countdown, then cycle through period, period - 1, ..., 1 |
| TaskTable.SlotFiresOnSchedule | LPC1769/Termometro_IR/src/Os/scheduler.c:154-163 | a slot with initial countdown C and period p runs exactly on passes C, C + p, C + 2p, ... |
| TaskTable.FiringSchedule | LPC1769/Termometro_IR/src/Os/scheduler.c:149-165 | slot i is in the run list of pass k + 1 if and only if k + 1 is its initial countdown plus a multiple of its period |
| TaskTable.RegisteredTaskSchedule | LPC1769/Termometro_IR/src/Os/scheduler.c:212-215 | a task registered with DELAY = d and PERIOD = p > 0 runs on passes d + 1, d + 1 + p, d + 1 + 2p, ... and no others, both directions, for every d |
| TaskTable.PassKeepsInvariants | LPC1769/Termometro_IR/src/Os/scheduler.c:154-163 | a pass keeps occupied slots below the counter with nonzero periods, and leaves every occupied slot with a countdown of at least 1 |
| TaskTable.PassesKeepInvariants | LPC1769/Termometro_IR/src/Os/scheduler.c:146-179 | the table invariant holds after any number of passes, and after at least one pass every occupied countdown is at least 1 |
| TaskTable.Install | LPC1769/Termometro_IR/src/Os/scheduler.c:212-217 | a stored request takes the callback, period, WCET and BCET given, keeps the debug block, and its countdown stands for DELAY + 1 ticks |
| TaskTable.Add | LPC1769/Termometro_IR/src/Os/scheduler.c:207-226 | one registration keeps the table size, and the counter never decreases, grows by at most one and stays at most SCH_MAX_TASKS |
| TaskTable.AddKeepsWellFormed | LPC1769/Termometro_IR/src/Os/scheduler.c:208-219 | registration keeps occupied slots below the counter with nonzero periods |
| TaskTable.AddAllFillsInOrder | LPC1769/Termometro_IR/src/Os/scheduler.c:207-226 | a sequence of registrations fills consecutive slots from the counter, in call order, with exactly the nonzero-period requests until the table is full; the counter ends at min(start + accepted, SCH_MAX_TASKS); no other slot changes |
| TaskTable.FillStep | LPC1769/Termometro_IR/src/Os/scheduler.c:212-218 | storing one request in front of a block already filled in order gives a block filled in order |
| TaskTable.AddAllWhenFull | LPC1769/Termometro_IR/src/Os/scheduler.c:222-226 | once the table is full, any further registrations change nothing and return SCH_MAX_TASKS |
| TaskTable.LastSlotReturnsCapacity | LPC1769/Termometro_IR/src/Os/scheduler.c:197-226 | filling the last free slot stores the request yet returns SCH_MAX_TASKS, the same value a call on a full table, which stores nothing, returns |
| Sched.Scheduler.constructor | LPC1769/Termometro_IR/src/Os/scheduler.c:19-37 | load-time state: every slot, counter, index and fault code zero, timer stopped, nothing run |
| Sched.Scheduler.Init | LPC1769/Termometro_IR/src/Os/scheduler.c:53-93 | every slot has its callback removed and debug block zeroed, everything else kept; fault code 0; clock mismatch or timer setup failure shuts down; otherwise the timer is left stopped |
| Sched.Scheduler.Start | LPC1769/Termometro_IR/src/Os/scheduler.c:103-110 | the timer and its interrupt are enabled |
| Sched.Scheduler.Tick | LPC1769/Termometro_IR/src/Os/scheduler.c:118-122 | one interrupt adds exactly one to the tick counter, modulo 2^32 |
| Sched.Scheduler.ConsumeTick | LPC1769/Termometro_IR/src/Os/scheduler.c:138-144 | work is owed exactly when the counter was positive, and then exactly one tick is taken off |
| Sched.Scheduler.DispatchPass | LPC1769/Termometro_IR/src/Os/scheduler.c:149-166 | the table, the run record and ITask after the for loop are those of PassState, and the table invariant is kept |
| Sched.Scheduler.DispatchTasks | LPC1769/Termometro_IR/src/Os/scheduler.c:133-187 | starting with N owed ticks, exactly N passes run (none when N = 0) and the counter ends at 0; fail-silent mode shuts down, otherwise it sleeps and returns |
| Sched.Scheduler.AddTask | LPC1769/Termometro_IR/src/Os/scheduler.c:200-227 | with a free slot and a nonzero period, the request goes into slot Index, Index grows by one and no other slot changes; a zero period or a full table changes nothing; the result is the new Index, never less than before and at most SCH_MAX_TASKS |
| Sched.Scheduler.GetCurrentTask | LPC1769/Termometro_IR/src/Os/scheduler.c:251-254 | returns ITask, a valid slot index, without changing state |
| Sched.Scheduler.GetCurrentTaskEntry | LPC1769/Termometro_IR/src/Os/scheduler.c:257-260 | returns the entry in slot ITask without changing state |
| Sched.TicksThenDispatch | LPC1769/Termometro_IR/src/Os/scheduler.c:118-179 | n interrupts followed by one dispatch call run exactly n passes and leave the counter at 0 |
| Scenario.RegisterExample | LPC1769/Termometro_IR/src/Os/scheduler.c:207-226 | registering A (DELAY 0, PERIOD 2), a zero-period request and B (DELAY 1, PERIOD 3) puts A in slot 0 with countdown 1 and B in slot 1 with countdown 2, and leaves the counter at 2 |
| Scenario.FiredOfFour | LPC1769/Termometro_IR/src/Os/scheduler.c:149-159 | one pass over four slots runs the due slots in slot order |
| Scenario.PassExample | LPC1769/Termometro_IR/src/Os/scheduler.c:152-164 | in the example table, a countdown at 1 runs and is re-armed from the period, a larger one counts down by one, empty slots stay as they are |
| Scenario.DispatchExample | LPC1769/Termometro_IR/src/Os/scheduler.c:146-179 | five ticks run A, B, A, nothing, then A before B, and leave ITask at B's slot |

## Left out

- Hardware timer setup (`SysTick_Config`, `NVIC_SetPriority`, the
  `SysTick->CTRL` bit writes) is register I/O. Only its outcome (a
  parameter of `Init`) and one "timer running" flag are modelled. The
  `TICKms` reload computation is not modelled.
- `SYSTEM_Perform_Safe_Shutdown`, `SYSTEM_Get_Mode` and `SystemCoreClock`
  belong to the system module, which is not part of this model. They become
  parameters and the `ShutDown` status.
- `SCH_Go_To_Sleep` and `__WFI` have no effect on scheduler state. The model
  represents them by `DispatchTasks` returning `Running`.
- Interrupt masking and preemption are concurrency. Each critical section and
  each interrupt is one atomic method. `DispatchTasks` assumes no tick
  arrives during the call.
- Callback bodies are unknown function pointers. Running one appends its
  slot to the ghost trace and touches no scheduler state.
- Sched.Scheduler.GetCurrentTaskEntry: it returns the entry's value, not a
  pointer into the table. Writes through that pointer are not modelled.
- The layout of `sTask` and `debugInfo` is in a header that is not part of
  this model. The debug block is an opaque value with a zero.
- `SCH_MAX_TASKS` is a build-time constant. It is a constructor parameter,
  greater than 0.
