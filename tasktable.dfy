/** Value-level description of the scheduler's task table: 32-bit counters,
    one task slot, one dispatch pass over the table, repeated passes, and
    task registration. The class in scheduler.dfy is proved against these
    functions; the lemmas here state what the scheduler promises of them. */
module TaskTable {

  // ---------------------------------------------------------------------
  // uint32_t arithmetic
  // ---------------------------------------------------------------------

  const U32_MAX: int := 0xFFFF_FFFF
  type u32 = x: int | 0 <= x <= U32_MAX

  /** `x + 1` on a uint32_t: wraps from U32_MAX to 0. */
  function Inc32(x: u32): u32
  {
    if x == U32_MAX then 0 else x + 1
  }

  /** `x - 1` on a uint32_t: wraps from 0 to U32_MAX. */
  function Dec32(x: u32): u32
  {
    if x == 0 then U32_MAX else x - 1
  }

  /** Inc32 and Dec32 are addition and subtraction modulo 2^32, and each
      undoes the other. */
  lemma Wrap32(x: u32)
    ensures Inc32(x) == (x + 1) % (U32_MAX + 1)
    ensures Dec32(x) == (x - 1) % (U32_MAX + 1)
    ensures Inc32(Dec32(x)) == x && Dec32(Inc32(x)) == x
  {
  }

  /** The number of decrements a stored countdown takes to reach 0 again:
      a stored 0 first wraps to U32_MAX, so it stands for 2^32 ticks. */
  function Ticks(delay: u32): (n: nat)
    ensures 1 <= n <= U32_MAX + 1
    ensures Dec32(delay) == 0 <==> n == 1
  {
    if delay == 0 then U32_MAX + 1 else delay
  }

  // ---------------------------------------------------------------------
  // Task slots
  // ---------------------------------------------------------------------

  datatype Option<T> = None | Some(value: T)

  /** Identity of a task's function; a slot without one is `None` (pTask == 0). */
  type Callback = nat

  /** The scheduler-maintained debug block; its layout is not part of this
      model, only that it can be filled with zeros. */
  type DebugInfo = nat
  const ZERO_DEBUG: DebugInfo := 0

  datatype Task = Task(callback: Option<Callback>, delay: u32, period: u32,
                       wcet: u32, bcet: u32, debug: DebugInfo)

  /** A slot of the zero-initialised global table. */
  const ZERO_TASK: Task := Task(None, 0, 0, 0, 0, ZERO_DEBUG)

  /** What SCH_Init does to each slot: no callback, zeroed debug block,
      every other field kept. */
  function Cleared(t: Task): (r: Task)
    ensures r.callback.None? && r.debug == ZERO_DEBUG
    ensures r.delay == t.delay && r.period == t.period
    ensures r.wcet == t.wcet && r.bcet == t.bcet
  {
    t.(callback := None, debug := ZERO_DEBUG)
  }

  /** A slot whose countdown reaches zero on the next pass runs its callback. */
  predicate FiresNow(t: Task)
  {
    t.callback.Some? && Dec32(t.delay) == 0
  }

  /** One slot during one dispatch pass: an occupied slot counts down by one;
      reaching zero runs the task and re-arms the countdown from the period. */
  function Step(t: Task): Task
  {
    if t.callback.None? then t
    else
      var d := Dec32(t.delay);
      if d == 0 then t.(delay := t.period) else t.(delay := d)
  }

  /** A pass leaves a free slot alone and never changes a slot's callback,
      period, execution-time bounds or debug block. An occupied slot runs
      exactly when it has one tick left, and is then re-armed with its
      period; otherwise it has one tick less left. */
  lemma StepSpec(t: Task)
    ensures Step(t).callback == t.callback && Step(t).period == t.period
    ensures Step(t).wcet == t.wcet && Step(t).bcet == t.bcet && Step(t).debug == t.debug
    ensures t.callback.None? ==> Step(t) == t
    ensures FiresNow(t) <==> t.callback.Some? && Ticks(t.delay) == 1
    ensures FiresNow(t) ==> Step(t).delay == t.period
    ensures t.callback.Some? && !FiresNow(t) ==> Ticks(Step(t).delay) == Ticks(t.delay) - 1
    ensures t.callback.Some? && t.period > 0 ==> Step(t).delay >= 1
  {
  }

  /** The table after one full pass in ascending slot order. */
  function Pass(table: seq<Task>): (r: seq<Task>)
    ensures |r| == |table|
  {
    seq(|table|, i requires 0 <= i < |table| => Step(table[i]))
  }

  /** Slots below `n` whose callback runs in a pass, in the order they run. */
  function FiredBelow(table: seq<Task>, n: nat): seq<nat>
    requires n <= |table|
  {
    if n == 0 then []
    else FiredBelow(table, n - 1) + (if FiresNow(table[n - 1]) then [n - 1] else [])
  }

  /** Slots whose callback runs in one pass over the whole table. */
  function Fired(table: seq<Task>): seq<nat>
  {
    FiredBelow(table, |table|)
  }

  predicate StrictlyAscending(s: seq<nat>)
  {
    forall i, j :: 0 <= i < j < |s| ==> s[i] < s[j]
  }

  /** A pass runs exactly the slots that are due, each once, lowest index first. */
  lemma {:induction false} FiredBelowExactly(table: seq<Task>, n: nat)
    requires n <= |table|
    ensures forall x: nat :: x in FiredBelow(table, n) <==> x < n && FiresNow(table[x])
    ensures StrictlyAscending(FiredBelow(table, n))
  {
    if n > 0 {
      FiredBelowExactly(table, n - 1);
      var f := FiredBelow(table, n - 1);
      var g := FiredBelow(table, n);
      forall i, j | 0 <= i < j < |g| ensures g[i] < g[j] {
        if j < |f| {
          assert g[i] == f[i] && g[j] == f[j];
        } else {
          assert g[i] == f[i] && f[i] in f;
        }
      }
    }
  }

  /** The current-task index after the slots below `n` have been scanned:
      the last slot that ran, or `cur` if none did. */
  function CurrentBelow(table: seq<Task>, n: nat, cur: nat): nat
    requires n <= |table|
  {
    var f := FiredBelow(table, n);
    if f == [] then cur else f[|f| - 1]
  }

  function CurrentAfter(table: seq<Task>, cur: nat): nat
  {
    CurrentBelow(table, |table|, cur)
  }

  /** After a pass ITask is the highest slot that ran, or unchanged if none
      ran; it stays a valid slot index. */
  lemma CurrentIsHighestFired(table: seq<Task>, cur: nat)
    ensures Fired(table) == [] ==> CurrentAfter(table, cur) == cur
    ensures Fired(table) != [] ==>
              CurrentAfter(table, cur) in Fired(table) &&
              forall x :: x in Fired(table) ==> x <= CurrentAfter(table, cur)
    ensures cur < |table| ==> CurrentAfter(table, cur) < |table|
  {
    FiredBelowExactly(table, |table|);
    var f := Fired(table);
    if f != [] {
      forall x | x in f ensures x <= f[|f| - 1] {
        var k :| 0 <= k < |f| && f[k] == x;
      }
    }
  }

  lemma CurrentAfterInRange(table: seq<Task>, cur: nat)
    requires cur < |table|
    ensures CurrentAfter(table, cur) < |table|
  {
    CurrentIsHighestFired(table, cur);
  }

  // ---------------------------------------------------------------------
  // Repeated passes
  // ---------------------------------------------------------------------

  /** The table after `k` passes. */
  function Passes(table: seq<Task>, k: nat): (r: seq<Task>)
    ensures |r| == |table|
  {
    if k == 0 then table else Pass(Passes(table, k - 1))
  }

  /** Dispatch never changes a callback, a period, the execution-time
      bounds or the debug block. */
  lemma {:induction false} PassesKeepConfiguration(table: seq<Task>, k: nat, i: nat)
    requires i < |table|
    ensures Passes(table, k)[i].callback == table[i].callback
    ensures Passes(table, k)[i].period == table[i].period
    ensures Passes(table, k)[i].wcet == table[i].wcet && Passes(table, k)[i].bcet == table[i].bcet
    ensures Passes(table, k)[i].debug == table[i].debug
  {
    if k > 0 {
      PassesKeepConfiguration(table, k - 1, i);
    }
  }

  /** What dispatch changes: the table, the slots run so far, in order,
      and the current-task index. */
  datatype Snapshot = Snapshot(table: seq<Task>, ran: seq<nat>, current: nat)

  /** One pass over the table, seen from the scheduler state. */
  function PassState(s: Snapshot): (r: Snapshot)
  {
    Snapshot(Pass(s.table), s.ran + Fired(s.table), CurrentAfter(s.table, s.current))
  }

  /** `k` passes in a row. */
  function Run(s: Snapshot, k: nat): Snapshot
  {
    if k == 0 then s else PassState(Run(s, k - 1))
  }

  /** After `k` passes the table is `Passes(table, k)`. */
  lemma {:induction false} RunTable(s: Snapshot, k: nat)
    ensures Run(s, k).table == Passes(s.table, k)
  {
    if k > 0 {
      RunTable(s, k - 1);
    }
  }

  /** Passes only append to the record of runs. */
  lemma {:induction false} RunKeepsEarlierRuns(s: Snapshot, k: nat)
    ensures |Run(s, k).ran| >= |s.ran| && Run(s, k).ran[..|s.ran|] == s.ran
  {
    if k > 0 {
      RunKeepsEarlierRuns(s, k - 1);
      var p := Run(s, k - 1);
      assert Run(s, k).ran == p.ran + Fired(p.table);
      assert Run(s, k).ran[..|s.ran|] == p.ran[..|s.ran|];
    }
  }

  /** ITask stays a slot index, ITask < SCH_MAX_TASKS, however many passes run. */
  lemma {:induction false} RunCurrentInRange(s: Snapshot, k: nat)
    requires s.current < |s.table|
    ensures |Run(s, k).table| == |s.table| && Run(s, k).current < |s.table|
  {
    if k > 0 {
      RunCurrentInRange(s, k - 1);
      var p := Run(s, k - 1);
      CurrentAfterInRange(p.table, p.current);
    }
  }

  /** Each pass appends to the record of runs exactly the slots it found
      due, in ascending order; a run of zero passes changes nothing. */
  lemma {:induction false} RunAppendsPass(s: Snapshot, k: nat)
    ensures Run(s, 0) == s && Run(s, k + 1) == PassState(Run(s, k))
    ensures Run(s, k + 1).ran == Run(s, k).ran + Fired(Run(s, k).table)
    ensures StrictlyAscending(Fired(Run(s, k).table))
  {
    FiredBelowExactly(Run(s, k).table, |Run(s, k).table|);
  }

  /** One slot after `k` passes. */
  function SlotAfter(t: Task, k: nat): Task
  {
    if k == 0 then t else Step(SlotAfter(t, k - 1))
  }

  /** Slots evolve independently of each other. */
  lemma {:induction false} PassesAt(table: seq<Task>, k: nat, i: nat)
    requires i < |table|
    ensures Passes(table, k)[i] == SlotAfter(table[i], k)
  {
    if k > 0 {
      PassesAt(table, k - 1, i);
    }
  }

  /** (a + 1) mod p from a mod p. */
  lemma ModSucc(a: nat, p: nat)
    requires p > 0
    ensures (a + 1) % p == if a % p == p - 1 then 0 else a % p + 1
  {
    var q, r := a / p, a % p;
    assert a == q * p + r;
    if r == p - 1 {
      assert a + 1 == (q + 1) * p;
      ModUnique(a + 1, p, q + 1, 0);
    } else {
      ModUnique(a + 1, p, q, r + 1);
    }
  }

  lemma ModUnique(a: int, p: int, q: int, r: int)
    requires p > 0 && 0 <= r < p && a == q * p + r
    ensures a % p == r
  {
    var q0, r0 := a / p, a % p;
    assert a == q0 * p + r0;
    assert (q - q0) * p == r0 - r;
    if q > q0 {
      MulAtLeast(q - q0, p);
      assert false;
    } else if q < q0 {
      MulAtLeast(q0 - q, p);
      assert false;
    }
  }

  lemma MulAtLeast(d: int, p: int)
    requires d >= 1 && p > 0
    ensures d * p >= p
  {
  }

  /** Ticks left before the next run, after `k` passes, of a slot whose
      countdown started at `c` and whose period is `p`: it counts down to
      pass c, and from then on cycles through p, p - 1, ..., 1. */
  function Remaining(c: nat, p: nat, k: nat): nat
    requires c >= 1 && p >= 1
  {
    if k < c then c - k else p - (k - c) % p
  }

  lemma RemainingNext(c: nat, p: nat, k: nat)
    requires c >= 1 && p >= 1
    ensures Remaining(c, p, k) >= 1
    ensures Remaining(c, p, k + 1) ==
              if Remaining(c, p, k) == 1 then p else Remaining(c, p, k) - 1
  {
    if k >= c {
      ModSucc(k - c, p);
      assert k + 1 - c == (k - c) + 1;
    }
  }

  lemma RemainingIsOne(c: nat, p: nat, k: nat)
    requires c >= 1 && p >= 1
    ensures Remaining(c, p, k) == 1 <==> k + 1 >= c && (k + 1 - c) % p == 0
  {
    if k >= c {
      ModSucc(k - c, p);
      assert k + 1 - c == (k - c) + 1;
    }
  }

  /** The countdown of an occupied slot after `k` passes. */
  lemma {:induction false} SlotCountdown(t: Task, k: nat)
    requires t.callback.Some? && t.period > 0
    ensures SlotAfter(t, k).callback == t.callback && SlotAfter(t, k).period == t.period
    ensures Ticks(SlotAfter(t, k).delay) == Remaining(Ticks(t.delay), t.period, k)
  {
    if k > 0 {
      SlotCountdown(t, k - 1);
      RemainingNext(Ticks(t.delay), t.period, k - 1);
    }
  }

  /** Firing schedule of one slot: with initial countdown C and period p it
      runs on passes C, C + p, C + 2p, ... (numbered from 1) and on no other. */
  lemma SlotFiresOnSchedule(t: Task, k: nat)
    requires t.callback.Some? && t.period > 0
    ensures FiresNow(SlotAfter(t, k)) <==>
              k + 1 >= Ticks(t.delay) && (k + 1 - Ticks(t.delay)) % t.period == 0
  {
    SlotCountdown(t, k);
    RemainingIsOne(Ticks(t.delay), t.period, k);
  }

  /** Firing schedule in the table: slot i runs in pass k + 1 exactly when
      k + 1 is its initial countdown plus a multiple of its period. */
  lemma FiringSchedule(table: seq<Task>, i: nat, k: nat)
    requires i < |table| && table[i].callback.Some? && table[i].period > 0
    ensures i in Fired(Passes(table, k)) <==>
              k + 1 >= Ticks(table[i].delay) && (k + 1 - Ticks(table[i].delay)) % table[i].period == 0
  {
    FiredBelowExactly(Passes(table, k), |table|);
    PassesAt(table, k, i);
    SlotFiresOnSchedule(table[i], k);
  }

  /** A task registered with DELAY = d and PERIOD = p > 0 runs on passes
      d + 1, d + 1 + p, d + 1 + 2p, ... and on no other, for every d,
      including the one whose countdown d + 1 wraps to 0. */
  lemma RegisteredTaskSchedule(table: seq<Task>, next: nat, req: Request, k: nat)
    requires next < |table| && req.callback.Some? && req.period != 0
    ensures next in Fired(Passes(Add(table, next, req).table, k)) <==>
              k >= req.delay && (k - req.delay) % req.period == 0
  {
    var t := Add(table, next, req).table;
    assert t[next] == Install(table[next], req);
    FiringSchedule(t, next, k);
  }

  // ---------------------------------------------------------------------
  // Table invariant
  // ---------------------------------------------------------------------

  /** Occupied slots lie below the registration counter and have a nonzero
      period (registration rejects a zero period). */
  predicate WellFormed(table: seq<Task>, next: nat)
  {
    forall i :: 0 <= i < |table| && table[i].callback.Some? ==> i < next && table[i].period > 0
  }

  /** Every occupied slot has a countdown of at least 1. */
  predicate Armed(table: seq<Task>)
  {
    forall i :: 0 <= i < |table| && table[i].callback.Some? ==> table[i].delay >= 1
  }

  /** Between passes, after at least one pass, every occupied slot has a
      countdown of at least 1, and a pass keeps the table well formed. */
  lemma PassKeepsInvariants(table: seq<Task>, next: nat)
    requires WellFormed(table, next)
    ensures WellFormed(Pass(table), next)
    ensures Armed(Pass(table))
  {
    var r := Pass(table);
    forall i | 0 <= i < |r| && r[i].callback.Some? ensures r[i].delay >= 1 {
      assert r[i] == Step(table[i]);
    }
  }

  lemma {:induction false} PassesKeepInvariants(table: seq<Task>, next: nat, k: nat)
    requires WellFormed(table, next)
    ensures WellFormed(Passes(table, k), next)
    ensures k > 0 ==> Armed(Passes(table, k))
  {
    if k > 0 {
      PassesKeepInvariants(table, next, k - 1);
      PassKeepsInvariants(Passes(table, k - 1), next);
    }
  }

  // ---------------------------------------------------------------------
  // Registration
  // ---------------------------------------------------------------------

  datatype Request = Request(callback: Option<Callback>, delay: u32, period: u32,
                             wcet: u32, bcet: u32)

  /** A slot after a request is stored in it; the debug block is kept. The
      stored countdown is DELAY + 1 in uint32_t, which still means DELAY + 1
      ticks when it wraps to 0. */
  function Install(t: Task, req: Request): (r: Task)
    ensures r.callback == req.callback && r.period == req.period
    ensures r.wcet == req.wcet && r.bcet == req.bcet && r.debug == t.debug
    ensures Ticks(r.delay) == req.delay + 1
  {
    t.(callback := req.callback, delay := Inc32(req.delay), period := req.period,
       wcet := req.wcet, bcet := req.bcet)
  }

  /** The table and the registration counter, which is also what
      SCH_Add_Task returns. */
  datatype Registry = Registry(table: seq<Task>, next: nat)

  /** One call of SCH_Add_Task. */
  function Add(table: seq<Task>, next: nat, req: Request): (r: Registry)
    requires next <= |table|
    ensures |r.table| == |table| && next <= r.next <= |table| && r.next <= next + 1
  {
    if next < |table| then
      if req.period != 0 then
        Registry(table[next := Install(table[next], req)], next + 1)
      else
        Registry(table, next)
    else
      Registry(table, |table|)
  }

  /** Registration keeps the table well formed. */
  lemma AddKeepsWellFormed(table: seq<Task>, next: nat, req: Request)
    requires next <= |table| && WellFormed(table, next)
    ensures WellFormed(Add(table, next, req).table, Add(table, next, req).next)
  {
  }

  /** Several calls of SCH_Add_Task in order. */
  function AddAll(table: seq<Task>, next: nat, reqs: seq<Request>): Registry
    requires next <= |table|
    decreases |reqs|
  {
    if reqs == [] then Registry(table, next)
    else
      var r := Add(table, next, reqs[0]);
      AddAll(r.table, r.next, reqs[1..])
  }

  /** The requests registration does not reject, in order. */
  function Accepted(reqs: seq<Request>): seq<Request>
  {
    if reqs == [] then []
    else (if reqs[0].period != 0 then [reqs[0]] else []) + Accepted(reqs[1..])
  }

  function Min(a: int, b: int): int
  {
    if a <= b then a else b
  }

  /** Registration is append-only: the accepted requests fill consecutive slots
      from the counter on, in the order they were made, until the table is
      full; rejected and overflowing requests leave no trace; no other slot
      changes. */
  lemma {:induction false} AddAllFillsInOrder(table: seq<Task>, next: nat, reqs: seq<Request>)
    requires next <= |table|
    ensures var r := AddAll(table, next, reqs);
            |r.table| == |table| &&
            r.next == Min(next + |Accepted(reqs)|, |table|) &&
            (forall i :: 0 <= i < |table| && !(next <= i < r.next) ==> r.table[i] == table[i]) &&
            (forall i :: next <= i < r.next ==> r.table[i] == Install(table[i], Accepted(reqs)[i - next]))
    decreases |reqs|
  {
    if reqs == [] {
    } else if next == |table| {
      AddAllWhenFull(table, reqs);
    } else if reqs[0].period == 0 {
      assert Add(table, next, reqs[0]) == Registry(table, next);
      assert Accepted(reqs) == Accepted(reqs[1..]);
      AddAllFillsInOrder(table, next, reqs[1..]);
    } else {
      var a := Add(table, next, reqs[0]);
      AddAllFillsInOrder(a.table, a.next, reqs[1..]);
      var r := AddAll(a.table, a.next, reqs[1..]);
      assert r == AddAll(table, next, reqs);
      FillStep(table, next, reqs[0], a, r, Accepted(reqs[1..]));
      assert Accepted(reqs) == [reqs[0]] + Accepted(reqs[1..]);
    }
  }

  /** The step of AddAllFillsInOrder for a request that is stored: `a` is
      the table after storing `req`, `r` the table after storing `rest`. */
  lemma FillStep(table: seq<Task>, next: nat, req: Request, a: Registry, r: Registry, rest: seq<Request>)
    requires next < |table|
    requires a == Registry(table[next := Install(table[next], req)], next + 1)
    requires |r.table| == |table| && r.next == Min(a.next + |rest|, |table|)
    requires forall i :: 0 <= i < |table| && !(a.next <= i < r.next) ==> r.table[i] == a.table[i]
    requires forall i :: a.next <= i < r.next ==> r.table[i] == Install(a.table[i], rest[i - a.next])
    ensures r.next == Min(next + |[req] + rest|, |table|)
    ensures forall i :: 0 <= i < |table| && !(next <= i < r.next) ==> r.table[i] == table[i]
    ensures forall i :: next <= i < r.next ==> r.table[i] == Install(table[i], ([req] + rest)[i - next])
  {
    var acc := [req] + rest;
    forall i | next <= i < r.next
      ensures r.table[i] == Install(table[i], acc[i - next])
    {
      if i > next {
        assert acc[i - next] == rest[i - a.next];
      }
    }
  }

  /** Once the table is full, every further registration returns the table
      size and changes nothing. */
  lemma {:induction false} AddAllWhenFull(table: seq<Task>, reqs: seq<Request>)
    ensures AddAll(table, |table|, reqs) == Registry(table, |table|)
    decreases |reqs|
  {
    if reqs != [] {
      AddAllWhenFull(table, reqs[1..]);
    }
  }

  /** What SCH_Add_Task returns is the counter after the call, not the slot
      used: filling the last free slot returns the table size, the same
      value a call on a full table, which stores nothing, returns. */
  lemma LastSlotReturnsCapacity(table: seq<Task>, req: Request)
    requires |table| > 0 && req.period != 0
    ensures Add(table, |table| - 1, req).next == |table|
    ensures Add(table, |table| - 1, req).table[|table| - 1] == Install(table[|table| - 1], req)
    ensures Add(table, |table|, req) == Registry(table, |table|)
  {
  }
}
