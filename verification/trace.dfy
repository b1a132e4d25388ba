/** Sequences of semaphore calls. Each call is treated as atomic, so an
    execution of the table is a sequence of whole calls. For the unguarded
    `create`, this means no create interrupts another. This module runs
    such sequences and proves what holds across all of them: the table
    invariant, the monotone high-water mark, handles that are never reissued,
    and deleted slots that stay deleted. */
module SemaphoreTrace {
  import opened CTypes
  import opened Semaphore

  /** One call into the table, with the inputs the code takes from outside:
      the running thread for `take`, the success of `queue_init` for `create`. */
  datatype Op =
    | CreateOp(count: uint32, state: SemState, queueInitOk: bool)
    | TakeOp(sem: nat, running: Thread)
    | GiveOp(sem: nat)
    | DeleteOp(sem: nat)

  /** What one call shows to the outside. */
  datatype Event =
    | Created(id: SemId)
    | Took(take: TakeOutcome)
    | Gave(give: GiveOutcome)
    | DeleteReturned(code: uint32)

  /** The call is one the model accepts on table `t`: any create, or a
      take, give or delete on a usable handle. Two calls that C defines are
      not among them (see `Usable`). */
  predicate Enabled(t: Table, op: Op)
  {
    match op
    case CreateOp(_, _, _) => true
    case TakeOp(sem, _) => CanTake(t, sem)
    case GiveOp(sem) => Usable(t, sem)
    case DeleteOp(sem) => Usable(t, sem)
  }

  /** One atomic call. */
  function Step(t: Table, op: Op): (r: (Table, Event))
    requires Enabled(t, op)
    ensures t.semcount <= r.0.semcount
    ensures r.1.Created? <==> op.CreateOp?
    ensures r.1.Created? && r.1.id.Id? ==>
      t.semcount as int == r.1.id.index < r.0.semcount as int
  {
    match op
    case CreateOp(count, state, ok) =>
      var (t', id) := Create(t, count, state, ok); (t', Created(id))
    case TakeOp(sem, running) =>
      var (t', o) := Take(t, sem, running); (t', Took(o))
    case GiveOp(sem) =>
      var (t', o) := Give(t, sem); (t', Gave(o))
    case DeleteOp(sem) =>
      var (t', code) := Delete(t, sem); (t', DeleteReturned(code))
  }

  /** Every call of `ops`, in turn, is one the model accepts, starting from `t`. */
  predicate Executable(t: Table, ops: seq<Op>)
    decreases |ops|
  {
    |ops| == 0 || (Enabled(t, ops[0]) && Executable(Step(t, ops[0]).0, ops[1..]))
  }

  /** The table after the calls `ops`, and the event of each call. */
  function Run(t: Table, ops: seq<Op>): (r: (Table, seq<Event>))
    requires Executable(t, ops)
    ensures |r.1| == |ops|
    ensures t.semcount <= r.0.semcount
    decreases |ops|
  {
    if |ops| == 0 then (t, [])
    else
      var (t1, e) := Step(t, ops[0]);
      var (t2, es) := Run(t1, ops[1..]);
      (t2, [e] + es)
  }

  /** The handles that `create` calls returned, in call order (sentinels left out). */
  function IssuedIds(es: seq<Event>): seq<nat>
  {
    if |es| == 0 then []
    else
      (if es[0].Created? && es[0].id.Id? then [es[0].id.index] else []) + IssuedIds(es[1..])
  }

  // ---------------------------------------------------------------------
  // Properties of every execution
  // ---------------------------------------------------------------------

  /** One call keeps the table invariant. */
  lemma StepPreservesValid(t: Table, op: Op)
    requires Valid(t)
    requires Enabled(t, op)
    ensures Valid(Step(t, op).0)
  {
    match op
    case CreateOp(count, state, ok) => CreatePreservesValid(t, count, state, ok);
    case TakeOp(sem, running) => TakePreservesValid(t, sem, running);
    case GiveOp(sem) => GivePreservesValid(t, sem);
    case DeleteOp(sem) => DeletePreservesValid(t, sem);
  }

  /** Any execution of accepted calls keeps the table invariant; in particular `gSemcount`
      never passes `MAX_SEMS` and no count ever exceeds `MAX_SEMS`. */
  lemma {:induction false} RunPreservesValid(t: Table, ops: seq<Op>)
    requires Valid(t)
    requires Executable(t, ops)
    ensures Valid(Run(t, ops).0)
    decreases |ops|
  {
    if |ops| > 0 {
      StepPreservesValid(t, ops[0]);
      RunPreservesValid(Step(t, ops[0]).0, ops[1..]);
    }
  }

  /** Every table reachable from start-up satisfies the invariant. */
  lemma ReachableValid(ops: seq<Op>)
    requires Executable(Init, ops)
    ensures Valid(Run(Init, ops).0)
    ensures Run(Init, ops).0.semcount as int <= MAX_SEMS
  {
    InitValid();
    RunPreservesValid(Init, ops);
  }

  /** Only `create` moves `gSemcount`, and by at most one per call. */
  lemma {:induction false} SemcountBoundedByCreates(t: Table, ops: seq<Op>)
    requires Executable(t, ops)
    ensures Run(t, ops).0.semcount as int <= t.semcount as int + |CreateCalls(ops)|
    decreases |ops|
  {
    if |ops| > 0 {
      SemcountBoundedByCreates(Step(t, ops[0]).0, ops[1..]);
      assert CreateCalls(ops) == (if ops[0].CreateOp? then [ops[0]] else []) + CreateCalls(ops[1..]);
    }
  }

  /** The `create` calls of `ops`. */
  function CreateCalls(ops: seq<Op>): (r: seq<Op>)
    ensures |r| <= |ops|
    ensures forall i :: 0 <= i < |r| ==> r[i].CreateOp?
  {
    if |ops| == 0 then []
    else (if ops[0].CreateOp? then [ops[0]] else []) + CreateCalls(ops[1..])
  }

  /** `ids` is strictly increasing and lies in `[lo, hi)`. */
  predicate IncreasingWithin(ids: seq<nat>, lo: int, hi: int)
  {
    && (forall i :: 0 <= i < |ids| ==> lo <= ids[i] < hi)
    && (forall i, j :: 0 <= i < j < |ids| ==> ids[i] < ids[j])
  }

  /** Handles are handed out in strictly increasing order, all at or above the
      counter the execution started from and below the counter it ends with:
      no handle is ever returned twice, not even after `delete`. */
  lemma {:induction false} IssuedIdsFresh(t: Table, ops: seq<Op>)
    requires Executable(t, ops)
    ensures IncreasingWithin(IssuedIds(Run(t, ops).1), t.semcount as int, Run(t, ops).0.semcount as int)
    decreases |ops|
  {
    if |ops| > 0 {
      var st := Step(t, ops[0]);
      var t1, e := st.0, st.1;
      var rest := Run(t1, ops[1..]);
      IssuedIdsFresh(t1, ops[1..]);
      assert Run(t, ops) == (rest.0, [e] + rest.1);
      assert ([e] + rest.1)[1..] == rest.1;
      var head := if e.Created? && e.id.Id? then [e.id.index] else [];
      var tail := IssuedIds(rest.1);
      assert IssuedIds(Run(t, ops).1) == head + tail;
      assert IncreasingWithin(tail, t1.semcount as int, rest.0.semcount as int);
      var ids := head + tail;
      forall i | 0 <= i < |ids|
        ensures t.semcount as int <= ids[i] < rest.0.semcount as int
      {
        if i >= |head| {
          assert ids[i] == tail[i - |head|];
        }
      }
      forall i, j | 0 <= i < j < |ids|
        ensures ids[i] < ids[j]
      {
        assert ids[j] == tail[j - |head|];
        if i >= |head| {
          assert ids[i] == tail[i - |head|];
        }
      }
    }
  }

  /** A deleted slot is never touched again by calls on usable handles:
      none of them names it, and `create` only writes slots at or above the
      counter. (A take on the deleted handle with a positive count is
      defined in C but excluded by `Usable`.) */
  lemma {:induction false} DeletedStaysDeleted(t: Table, ops: seq<Op>, sem: nat)
    requires sem < MAX_SEMS
    requires sem < t.semcount as int
    requires t.slots[sem].id == InvalidId
    requires Executable(t, ops)
    ensures Run(t, ops).0.slots[sem] == t.slots[sem]
    decreases |ops|
  {
    if |ops| > 0 {
      var t1 := Step(t, ops[0]).0;
      assert t1.slots[sem] == t.slots[sem];
      DeletedStaysDeleted(t1, ops[1..], sem);
    }
  }
}
