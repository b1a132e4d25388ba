/** The take/give protocol over several calls: waiters are released in the
    order they blocked, take and give undo each other only below the wrap,
    a hand-off still bumps the count, and `create` hands out consecutive
    handles until the table is full. */
module SemaphoreProtocol {
  import opened Semaphore
  import opened SemaphoreTrace

  /** `take` on `sem` by each of `threads`, in order. */
  function TakeOps(sem: nat, threads: seq<Thread>): (ops: seq<Op>)
    ensures |ops| == |threads|
  {
    if |threads| == 0 then [] else [TakeOp(sem, threads[0])] + TakeOps(sem, threads[1..])
  }

  /** `k` calls of `give` on `sem`. */
  function GiveOps(sem: nat, k: nat): (ops: seq<Op>)
    ensures |ops| == k
  {
    if k == 0 then [] else [GiveOp(sem)] + GiveOps(sem, k - 1)
  }

  /** `k` calls of `create` in state `state`, each of whose queue can be set up. */
  function CreateOps(k: nat, state: SemState): (ops: seq<Op>)
    ensures |ops| == k
  {
    if k == 0 then [] else [CreateOp(0, state, true)] + CreateOps(k - 1, state)
  }

  // ---------------------------------------------------------------------
  // Composing executions
  // ---------------------------------------------------------------------

  /** Running `a + b` is running `a` and then `b` from where `a` left off. */
  lemma {:induction false} RunConcat(t: Table, a: seq<Op>, b: seq<Op>)
    requires Executable(t, a)
    requires Executable(Run(t, a).0, b)
    ensures Executable(t, a + b)
    ensures Run(t, a + b) == (Run(Run(t, a).0, b).0, Run(t, a).1 + Run(Run(t, a).0, b).1)
    decreases |a|
  {
    if |a| > 0 {
      var t1 := Step(t, a[0]).0;
      assert (a + b)[0] == a[0];
      assert (a + b)[1..] == a[1..] + b;
      RunConcat(t1, a[1..], b);
      var e := Step(t, a[0]).1;
      var ra := Run(t1, a[1..]);
      var rb := Run(ra.0, b);
      assert Run(t, a) == (ra.0, [e] + ra.1);
      assert Run(t, a + b) == (rb.0, [e] + (ra.1 + rb.1));
      assert [e] + (ra.1 + rb.1) == ([e] + ra.1) + rb.1;
    } else {
      assert a + b == b;
      assert Run(t, a).1 + Run(Run(t, a).0, b).1 == Run(t, b).1;
    }
  }

  // ---------------------------------------------------------------------
  // take
  // ---------------------------------------------------------------------

  /** While units remain, each `take` acquires one without blocking and
      leaves the queue alone. */
  lemma {:induction false} TakesAcquire(t: Table, sem: nat, threads: seq<Thread>)
    requires Usable(t, sem)
    requires |threads| <= t.slots[sem].count as int
    ensures Executable(t, TakeOps(sem, threads))
    ensures var r := Run(t, TakeOps(sem, threads));
      && Usable(r.0, sem)
      && r.0.slots[sem].count as int == t.slots[sem].count as int - |threads|
      && r.0.slots[sem].queue == t.slots[sem].queue
      && OthersUnchanged(t, r.0, sem)
      && (forall i :: 0 <= i < |threads| ==> r.1[i] == Took(Acquired))
    decreases |threads|
  {
    if |threads| > 0 {
      var ops := TakeOps(sem, threads);
      assert ops[0] == TakeOp(sem, threads[0]) && ops[1..] == TakeOps(sem, threads[1..]);
      var t1 := Take(t, sem, threads[0]).0;
      TakesAcquire(t1, sem, threads[1..]);
      var rest := Run(t1, ops[1..]);
      assert Run(t, ops) == (rest.0, [Took(Acquired)] + rest.1);
    }
  }

  /** On an exhausted semaphore every `take` blocks its caller, and the
      callers join the queue at its tail in the order they called. */
  lemma {:induction false} BlockingTakesEnqueueInOrder(t: Table, sem: nat, threads: seq<Thread>)
    requires Usable(t, sem)
    requires t.slots[sem].count == 0
    requires |Waiters(t, sem)| + |threads| <= MAX_SEMS
    ensures Executable(t, TakeOps(sem, threads))
    ensures var r := Run(t, TakeOps(sem, threads));
      && Usable(r.0, sem)
      && r.0.slots[sem].count == 0
      && Waiters(r.0, sem) == Waiters(t, sem) + threads
      && OthersUnchanged(t, r.0, sem)
      && (forall i :: 0 <= i < |threads| ==> r.1[i] == Took(Blocked(threads[i])))
    decreases |threads|
  {
    if |threads| > 0 {
      var ops := TakeOps(sem, threads);
      assert ops[0] == TakeOp(sem, threads[0]) && ops[1..] == TakeOps(sem, threads[1..]);
      var t1 := Take(t, sem, threads[0]).0;
      BlockingTakesEnqueueInOrder(t1, sem, threads[1..]);
      var rest := Run(t1, ops[1..]);
      assert Run(t, ops) == (rest.0, [Took(Blocked(threads[0]))] + rest.1);
      assert Waiters(t1, sem) + threads[1..] == Waiters(t, sem) + threads;
    }
  }

  // ---------------------------------------------------------------------
  // give
  // ---------------------------------------------------------------------

  /** `k` calls of `give` release the first `k` waiters, one per call, in
      queue order, and leave the rest queued. */
  lemma {:induction false} GivesReleaseInOrder(t: Table, sem: nat, k: nat)
    requires Usable(t, sem)
    requires k <= |Waiters(t, sem)|
    ensures Executable(t, GiveOps(sem, k))
    ensures var r := Run(t, GiveOps(sem, k));
      && Usable(r.0, sem)
      && Waiters(r.0, sem) == Waiters(t, sem)[k..]
      && OthersUnchanged(t, r.0, sem)
      && (forall i :: 0 <= i < k ==> r.1[i] == Gave(Unblocked(Waiters(t, sem)[i])))
    decreases k
  {
    if k > 0 {
      var ops := GiveOps(sem, k);
      assert ops[0] == GiveOp(sem) && ops[1..] == GiveOps(sem, k - 1);
      var w := Waiters(t, sem);
      var t1 := Give(t, sem).0;
      GivesReleaseInOrder(t1, sem, k - 1);
      var rest := Run(t1, ops[1..]);
      assert Run(t, ops) == (rest.0, [Gave(Unblocked(w[0]))] + rest.1);
      assert w[1..][k - 1..] == w[k..];
      forall i | 0 <= i < k
        ensures Run(t, ops).1[i] == Gave(Unblocked(w[i]))
      {
        if i > 0 {
          assert Run(t, ops).1[i] == rest.1[i - 1];
          assert w[1..][i - 1] == w[i];
        }
      }
    }
  }

  /** Whatever the queue holds, `k` calls of `give` advance the count by `k`
      modulo `MAX_SEMS`: hand-offs count too, and units past the wrap are lost. */
  lemma {:induction false} GivesAdvanceCount(t: Table, sem: nat, k: nat)
    requires Usable(t, sem)
    requires t.slots[sem].count as int <= MAX_SEMS
    requires k > 0
    ensures Executable(t, GiveOps(sem, k))
    ensures Run(t, GiveOps(sem, k)).0.slots[sem].count as int == (t.slots[sem].count as int + k) % MAX_SEMS
    decreases k
  {
    var ops := GiveOps(sem, k);
    assert ops[0] == GiveOp(sem) && ops[1..] == GiveOps(sem, k - 1);
    var c := t.slots[sem].count as int;
    var t1 := Give(t, sem).0;
    assert t1.slots[sem].count as int == (c + 1) % MAX_SEMS;
    if k == 1 {
      assert Run(t, ops).0 == t1;
    } else {
      GivesAdvanceCount(t1, sem, k - 1);
      assert Run(t, ops).0 == Run(t1, ops[1..]).0;
      assert ((c + 1) % MAX_SEMS + (k - 1)) % MAX_SEMS == (c + k) % MAX_SEMS;
    }
  }

  /** First-in, first-out: threads that block one after another on an
      exhausted, idle semaphore are released by the same number of `give`
      calls exactly in the order they blocked, leaving the queue empty. */
  lemma {:induction false} FifoRelease(t: Table, sem: nat, threads: seq<Thread>)
    requires Usable(t, sem)
    requires t.slots[sem].count == 0
    requires Waiters(t, sem) == []
    requires |threads| <= MAX_SEMS
    ensures Executable(t, TakeOps(sem, threads) + GiveOps(sem, |threads|))
    ensures var r := Run(t, TakeOps(sem, threads) + GiveOps(sem, |threads|));
      && Usable(r.0, sem)
      && Waiters(r.0, sem) == []
      && (forall i :: 0 <= i < |threads| ==> r.1[i] == Took(Blocked(threads[i])))
      && (forall i :: 0 <= i < |threads| ==> r.1[|threads| + i] == Gave(Unblocked(threads[i])))
  {
    var takes, gives := TakeOps(sem, threads), GiveOps(sem, |threads|);
    BlockingTakesEnqueueInOrder(t, sem, threads);
    var r1 := Run(t, takes);
    assert Waiters(r1.0, sem) == threads;
    GivesReleaseInOrder(r1.0, sem, |threads|);
    RunConcat(t, takes, gives);
  }

  // ---------------------------------------------------------------------
  // take and give together
  // ---------------------------------------------------------------------

  /** A `take` that acquires followed by a `give` on an idle semaphore
      restores the table exactly when the count was below `MAX_SEMS`; from
      `MAX_SEMS` (a semaphore created `FULL`) the pair wraps it to 0. */
  lemma TakeThenGive(t: Table, sem: nat, thread: Thread)
    requires Usable(t, sem)
    requires t.slots[sem].count > 0
    requires Waiters(t, sem) == []
    ensures Take(t, sem, thread).1 == Acquired
    ensures Give(Take(t, sem, thread).0, sem) == (t, NoWake)
      <==> t.slots[sem].count as int < MAX_SEMS
  {
    var t2 := Give(Take(t, sem, thread).0, sem).0;
    if t.slots[sem].count as int < MAX_SEMS {
      assert t2.slots[sem] == t.slots[sem];
      assert t2.slots == t.slots;
    } else {
      assert t2.slots[sem] != t.slots[sem];
    }
  }

  /** A `give` followed by a `take` on an idle semaphore restores the table
      exactly when the count was below `MAX_SEMS - 1`; at `MAX_SEMS - 1` the
      give wraps to 0 and the take blocks. */
  lemma GiveThenTake(t: Table, sem: nat, thread: Thread)
    requires Usable(t, sem)
    requires Waiters(t, sem) == []
    ensures Take(Give(t, sem).0, sem, thread) == (t, Acquired)
      <==> t.slots[sem].count as int < MAX_SEMS - 1
    ensures t.slots[sem].count as int == MAX_SEMS - 1 ==>
      Take(Give(t, sem).0, sem, thread).1 == Blocked(thread)
  {
    var t1 := Give(t, sem).0;
    var t2 := Take(t1, sem, thread).0;
    if t.slots[sem].count as int < MAX_SEMS - 1 {
      assert t2.slots[sem] == t.slots[sem];
      assert t2.slots == t.slots;
    } else if Take(t1, sem, thread).1 == Acquired {
      assert t2.slots[sem].count < t.slots[sem].count;
    }
  }

  /** Handing a unit to a waiter still bumps the count: a thread blocks, one
      `give` wakes it, and afterwards another thread's `take` succeeds too.
      Two threads get through on one `give`. */
  lemma HandOffLeaksUnit(t: Table, sem: nat, sleeper: Thread, newcomer: Thread)
    requires Usable(t, sem)
    requires t.slots[sem].count == 0
    requires Waiters(t, sem) == []
    ensures var t1 := Take(t, sem, sleeper);
      && t1.1 == Blocked(sleeper)
      && var t2 := Give(t1.0, sem);
      && t2.1 == Unblocked(sleeper)
      && t2.0.slots[sem].count == 1
      && Waiters(t2.0, sem) == []
      && Take(t2.0, sem, newcomer).1 == Acquired
  {
    var t1 := Take(t, sem, sleeper).0;
    assert Waiters(t1, sem) == [sleeper];
  }

  /** With two or more waiters, a `give` leaves a positive count while threads
      are still queued, so a newly arriving thread acquires ahead of them. */
  lemma GiveLeavesCountWithWaiters(t: Table, sem: nat, newcomer: Thread)
    requires Usable(t, sem)
    requires t.slots[sem].count == 0
    requires |Waiters(t, sem)| >= 2
    ensures var t1 := Give(t, sem).0;
      && t1.slots[sem].count == 1
      && |Waiters(t1, sem)| > 0
      && Take(t1, sem, newcomer).1 == Acquired
      && Waiters(Take(t1, sem, newcomer).0, sem) == Waiters(t, sem)[1..]
  {
  }

  // ---------------------------------------------------------------------
  // create
  // ---------------------------------------------------------------------

  /** Successive `create` calls return consecutive handles from the current
      counter upwards, and the sentinel once the table is full. */
  lemma {:induction false} CreatesAreSequential(t: Table, k: nat, state: SemState)
    ensures Executable(t, CreateOps(k, state))
    ensures var r := Run(t, CreateOps(k, state));
      forall i :: 0 <= i < k ==>
        r.1[i] == Created(if t.semcount as int + i < MAX_SEMS then Id(t.semcount as int + i) else InvalidId)
    ensures Run(t, CreateOps(k, state)).0.semcount as int
      == if t.semcount as int >= MAX_SEMS then t.semcount as int
         else if t.semcount as int + k <= MAX_SEMS then t.semcount as int + k
         else MAX_SEMS
    decreases k
  {
    if k > 0 {
      var ops := CreateOps(k, state);
      assert ops[0] == CreateOp(0, state, true) && ops[1..] == CreateOps(k - 1, state);
      var (t1, id) := Create(t, 0, state, true);
      CreatesAreSequential(t1, k - 1, state);
      var rest := Run(t1, ops[1..]);
      assert Run(t, ops) == (rest.0, [Created(id)] + rest.1);
      forall i | 0 < i < k
        ensures Run(t, ops).1[i] == Created(if t.semcount as int + i < MAX_SEMS then Id(t.semcount as int + i) else InvalidId)
      {
        assert Run(t, ops).1[i] == rest.1[i - 1];
      }
    }
  }

  /** From start-up, the first `MAX_SEMS` creates return handles
      `0 .. MAX_SEMS - 1` and the next returns the sentinel. */
  lemma TableFillsUp(state: SemState)
    ensures Executable(Init, CreateOps(MAX_SEMS + 1, state))
    ensures var r := Run(Init, CreateOps(MAX_SEMS + 1, state));
      && (forall i :: 0 <= i < MAX_SEMS ==> r.1[i] == Created(Id(i)))
      && r.1[MAX_SEMS] == Created(InvalidId)
      && r.0.semcount as int == MAX_SEMS
  {
    CreatesAreSequential(Init, MAX_SEMS + 1, state);
  }
}
