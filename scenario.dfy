/** A worked example on a four-slot table: task A (DELAY 0, PERIOD 2), a
    request with PERIOD 0 and task B (DELAY 1, PERIOD 3) are registered in
    that order, then five ticks are dispatched. */
module Scenario {
  import opened TaskTable

  const A: Request := Request(Some(1), 0, 2, 0, 0)
  const Rejected: Request := Request(Some(2), 9, 0, 0, 0)
  const B: Request := Request(Some(3), 1, 3, 0, 0)

  /** Slot contents with the given stored countdowns for A and B. */
  function Table(delayA: u32, delayB: u32): seq<Task>
  {
    [Task(Some(1), delayA, 2, 0, 0, ZERO_DEBUG), Task(Some(3), delayB, 3, 0, 0, ZERO_DEBUG),
     ZERO_TASK, ZERO_TASK]
  }

  /** The zero-period request takes no slot: B lands in slot 1, the counter
      ends at 2, and both stored countdowns are DELAY + 1. */
  lemma RegisterExample()
    ensures AddAll(seq(4, _ => ZERO_TASK), 0, [A, Rejected, B]) == Registry(Table(1, 2), 2)
  {
    var t0 := seq(4, _ => ZERO_TASK);
    var r1 := Add(t0, 0, A);
    assert r1 == Registry([Table(1, 2)[0], ZERO_TASK, ZERO_TASK, ZERO_TASK], 1);
    assert Add(r1.table, 1, Rejected) == r1;
    assert Add(r1.table, 1, B) == Registry(Table(1, 2), 2);
    assert AddAll(t0, 0, [A, Rejected, B]) == AddAll(r1.table, 1, [Rejected, B]);
    assert AddAll(r1.table, 1, [Rejected, B]) == AddAll(r1.table, 1, [B]);
  }

  /** One pass over four slots runs the due slots in slot order. */
  lemma FiredOfFour(t: seq<Task>)
    requires |t| == 4
    ensures Fired(t) == (if FiresNow(t[0]) then [0] else []) + (if FiresNow(t[1]) then [1] else [])
                        + (if FiresNow(t[2]) then [2] else []) + (if FiresNow(t[3]) then [3] else [])
  {
    assert FiredBelow(t, 1) == (if FiresNow(t[0]) then [0] else []);
    assert FiredBelow(t, 2) == FiredBelow(t, 1) + (if FiresNow(t[1]) then [1] else []);
    assert FiredBelow(t, 3) == FiredBelow(t, 2) + (if FiresNow(t[2]) then [2] else []);
  }

  /** One pass: a countdown at 1 fires and is re-armed from the period, a
      larger one counts down, and the empty slots stay as they are. */
  lemma PassExample(delayA: u32, delayB: u32)
    requires 1 <= delayA <= 2 && 1 <= delayB <= 3
    ensures Pass(Table(delayA, delayB)) ==
              Table(if delayA == 1 then 2 else delayA - 1, if delayB == 1 then 3 else delayB - 1)
    ensures Fired(Table(delayA, delayB)) ==
              (if delayA == 1 then [0] else []) + (if delayB == 1 then [1] else [])
  {
    FiredOfFour(Table(delayA, delayB));
    assert Pass(Table(delayA, delayB))[2] == ZERO_TASK;
  }

  /** A runs on the first tick already, B on the second, and both on the
      fifth, A first; ITask ends on B. */
  lemma DispatchExample()
    ensures Run(Snapshot(Table(1, 2), [], 0), 5) == Snapshot(Table(2, 3), [0, 1, 0, 0, 1], 1)
  {
    var s0 := Snapshot(Table(1, 2), [], 0);
    PassExample(1, 2);
    assert Run(s0, 1) == Snapshot(Table(2, 1), [0], 0);
    PassExample(2, 1);
    assert Run(s0, 2) == Snapshot(Table(1, 3), [0, 1], 1);
    PassExample(1, 3);
    assert Run(s0, 3) == Snapshot(Table(2, 2), [0, 1, 0], 0);
    PassExample(2, 2);
    assert Run(s0, 4) == Snapshot(Table(1, 1), [0, 1, 0], 0);
    PassExample(1, 1);
  }
}
