/** The semaphore table of the kernel's user-level concurrency support: a
    fixed array of `MAX_SEMS` counting semaphores, handed out monotonically by
    the high-water mark `gSemcount`, each owning a FIFO queue of the threads
    blocked on it.

    Take, give and delete make their state changes between `ATOMIC_START`
    and `ATOMIC_END`. Take blocks its caller only after `ATOMIC_END`, and
    create has no guard. Each operation is modelled as one pure state
    transition, which for create assumes no other create interrupts it: it takes
    the table (and the running thread, where the code reads `gRunningThread`)
    and returns the new table together with what the caller observes. Blocking
    and unblocking a thread are returned as events instead of being performed. */
module Semaphore {
  import opened CTypes

  /** Capacity of the table; also the capacity of each wait queue, the count
      of a semaphore created `FULL`, and the modulus of `give`'s increment. */
  const MAX_SEMS: nat := 10

  /** A thread handle as the scheduler hands it out (`gRunningThread`). */
  type Thread = nat

  /** The `state` argument of `semaphore_create`. */
  datatype SemState = Empty | Full

  /** A semaphore handle: the index of its slot, or the sentinel
      `SEM_ID_INVALID`, which is distinct from every index. */
  datatype SemId = Id(index: nat) | InvalidId

  /** The `blockedThreads` field of a slot: no usable queue, or a FIFO whose
      head is element 0. `Absent` covers a zeroed slot (a NULL pointer), a
      deleted slot (`queue_delete` gets the pointer by value, so the field
      keeps a dangling one) and, by assumption, a slot whose `queue_init`
      failed, since what a failed `queue_init` leaves behind is not part of
      this model. */
  datatype WaitQueue = Absent | Present(waiters: seq<Thread>)

  /** One entry of `gSemaphores`. */
  datatype Slot = Slot(id: SemId, count: uint32, queue: WaitQueue)

  /** `gSemcount` together with the contents of `gSemaphores`. */
  datatype TableState = TableState(semcount: uint32, slots: seq<Slot>)

  /** A slot as the zero-initialised static array holds it before `create`
      touches it. */
  const ZeroSlot: Slot := Slot(Id(0), 0, Absent)

  /** The table always has exactly `MAX_SEMS` slots. */
  type Table = t: TableState | |t.slots| == MAX_SEMS
    witness TableState(0, seq(MAX_SEMS, _ => ZeroSlot))

  /** The table at start-up: counter 0, every slot zeroed. */
  const Init: Table := TableState(0, seq(MAX_SEMS, _ => ZeroSlot))

  /** What `semaphore_delete` returns on success. */
  const DELETE_OK: uint32 := 0

  /** What `semaphore_delete` returns when threads are blocked: `-1`
      converted to the declared `uint32_t` result. */
  const DELETE_BUSY: uint32 := ToUint32(-1)

  /** What `semaphore_take` does to its caller. */
  datatype TakeOutcome = Acquired | Blocked(thread: Thread)

  /** Which thread, if any, `semaphore_give` hands to the scheduler to unblock. */
  datatype GiveOutcome = Unblocked(thread: Thread) | NoWake

  // ---------------------------------------------------------------------
  // Invariant and preconditions
  // ---------------------------------------------------------------------

  /** Facts about slot `i` that every reachable table keeps. */
  predicate SlotValid(t: Table, i: nat)
    requires i < MAX_SEMS
  {
    var s := t.slots[i];
    && s.count as int <= MAX_SEMS
    && (s.queue.Present? ==> |s.queue.waiters| <= MAX_SEMS)
    && (i < t.semcount as int ==> s.id == Id(i) || s.id == InvalidId)
    && (s.id == InvalidId ==> s.queue.Absent?)
    && (i >= t.semcount as int ==> s == ZeroSlot)
  }

  /** The table invariant: the counter never passes the capacity, counts
      never exceed `MAX_SEMS`, queues never exceed their capacity, a handed-out
      slot carries its own index or the sentinel, a deleted slot owns no usable
      queue, and slots past the counter are untouched. */
  predicate Valid(t: Table)
  {
    && t.semcount as int <= MAX_SEMS
    && forall i: nat :: i < MAX_SEMS ==> SlotValid(t, i)
  }

  /** The handles the model accepts. The code indexes `gSemaphores[sem]`
      without any check. Give and delete always dereference the slot's queue,
      and take does so when the count is 0, so on a slot without a usable
      queue those calls are undefined. A take with a positive count never touches the
      queue, so it is defined in C even on a deleted slot or on the slot of a
      `FULL` create whose `queue_init` failed. The model excludes those two
      cases too. */
  predicate Usable(t: Table, sem: nat)
  {
    && sem < MAX_SEMS
    && sem < t.semcount as int
    && t.slots[sem].id == Id(sem)
    && t.slots[sem].queue.Present?
  }

  /** `take` is defined on a usable handle; when it has to block, the waiter
      must fit into the queue (what `queue_enqueue` does on a full queue is
      not part of this model). */
  predicate CanTake(t: Table, sem: nat)
  {
    && Usable(t, sem)
    && (t.slots[sem].count == 0 ==> |t.slots[sem].queue.waiters| < MAX_SEMS)
  }

  /** Every slot except `sem` is the same in `t` and `t'`. */
  predicate OthersUnchanged(t: Table, t': Table, sem: nat)
  {
    forall i: nat :: i < MAX_SEMS && i != sem ==> t'.slots[i] == t.slots[i]
  }

  /** The waiters of a usable slot. */
  function Waiters(t: Table, sem: nat): seq<Thread>
    requires Usable(t, sem)
  {
    t.slots[sem].queue.waiters
  }

  // ---------------------------------------------------------------------
  // Operations
  // ---------------------------------------------------------------------

  /** `semaphore_create(count, state)`. `queueInitOk` is whether `queue_init`
      returned 0. The `count` argument is not used by the code. */
  function Create(t: Table, count: uint32, state: SemState, queueInitOk: bool): (r: (Table, SemId))
    // table full: the sentinel, and nothing changes
    ensures t.semcount as int >= MAX_SEMS ==> r == (t, InvalidId)
    // otherwise the next slot is consumed, whether or not its queue could be set up
    ensures t.semcount as int < MAX_SEMS ==>
      var n := t.semcount as int;
      && r.0.semcount as int == n + 1
      && r.0.slots[n].id == Id(n)
      && r.0.slots[n].count as int == (if state == Full then MAX_SEMS else 0)
      && r.0.slots[n].queue == (if queueInitOk then Present([]) else Absent)
      && OthersUnchanged(t, r.0, n)
      && r.1 == (if queueInitOk then Id(n) else InvalidId)
    ensures r.1.Id? ==> Usable(r.0, r.1.index) && r.1.index == t.semcount as int
    ensures t.semcount <= r.0.semcount
  {
    if t.semcount as int >= MAX_SEMS then
      (t, InvalidId)
    else
      var n := t.semcount as int;
      var slot := Slot(Id(n), if state == Full then MAX_SEMS as uint32 else 0,
                       if queueInitOk then Present([]) else Absent);
      var t' := TableState(t.semcount + 1, t.slots[n := slot]);
      (t', if queueInitOk then Id(n) else InvalidId)
  }

  /** `semaphore_take(sem)` run by thread `running`. */
  function Take(t: Table, sem: nat, running: Thread): (r: (Table, TakeOutcome))
    requires CanTake(t, sem)
    // a unit is available: take it, the queue stays as it is
    ensures t.slots[sem].count > 0 ==>
      && r.1 == Acquired
      && r.0.slots[sem] == t.slots[sem].(count := t.slots[sem].count - 1)
    // none available: the caller joins the tail of the queue and blocks
    ensures t.slots[sem].count == 0 ==>
      && r.1 == Blocked(running)
      && r.0.slots[sem] == t.slots[sem].(queue := Present(Waiters(t, sem) + [running]))
    ensures r.0.semcount == t.semcount
    ensures OthersUnchanged(t, r.0, sem)
    ensures Usable(r.0, sem)
  {
    var s := t.slots[sem];
    if s.count > 0 then
      (t.(slots := t.slots[sem := s.(count := s.count - 1)]), Acquired)
    else
      (t.(slots := t.slots[sem := s.(queue := Present(s.queue.waiters + [running]))]), Blocked(running))
  }

  /** `semaphore_give(sem)`: wake the head waiter if there is one, and in
      every case advance the count by one modulo `MAX_SEMS`. */
  function Give(t: Table, sem: nat): (r: (Table, GiveOutcome))
    requires Usable(t, sem)
    // the head of the queue, and only it, is released
    ensures |Waiters(t, sem)| > 0 ==>
      && r.1 == Unblocked(Waiters(t, sem)[0])
      && r.0.slots[sem].queue == Present(Waiters(t, sem)[1..])
    ensures |Waiters(t, sem)| == 0 ==>
      && r.1 == NoWake
      && r.0.slots[sem].queue == t.slots[sem].queue
    // the count is bumped even after a hand-off, and wraps at MAX_SEMS
    ensures r.0.slots[sem].count as int < MAX_SEMS
    ensures t.slots[sem].count as int < MAX_SEMS - 1 ==>
      r.0.slots[sem].count == t.slots[sem].count + 1
    ensures t.slots[sem].count as int == MAX_SEMS - 1 ==> r.0.slots[sem].count == 0
    ensures t.slots[sem].count as int == MAX_SEMS ==> r.0.slots[sem].count == 1
    ensures r.0.slots[sem].id == t.slots[sem].id
    ensures r.0.semcount == t.semcount
    ensures OthersUnchanged(t, r.0, sem)
    ensures Usable(r.0, sem)
  {
    var s := t.slots[sem];
    var (queue, woken) :=
      if |s.queue.waiters| > 0 then (Present(s.queue.waiters[1..]), Unblocked(s.queue.waiters[0]))
      else (s.queue, NoWake);
    var count := (AddUint32(s.count, 1) as int % MAX_SEMS) as uint32;
    (t.(slots := t.slots[sem := Slot(s.id, count, queue)]), woken)
  }

  /** `semaphore_delete(sem)`: refuse while threads wait, otherwise mark the
      slot invalid and free its queue, leaving no usable one. The slot is not returned to the table. */
  function Delete(t: Table, sem: nat): (r: (Table, uint32))
    requires Usable(t, sem)
    ensures r.1 == DELETE_OK <==> |Waiters(t, sem)| == 0
    ensures |Waiters(t, sem)| > 0 ==> r == (t, DELETE_BUSY)
    ensures |Waiters(t, sem)| == 0 ==>
      && r.1 == DELETE_OK
      && r.0.slots[sem] == Slot(InvalidId, t.slots[sem].count, Absent)
      && !Usable(r.0, sem)
    ensures r.0.semcount == t.semcount
    ensures OthersUnchanged(t, r.0, sem)
  {
    var s := t.slots[sem];
    if |s.queue.waiters| > 0 then
      (t, DELETE_BUSY)
    else
      (t.(slots := t.slots[sem := Slot(InvalidId, s.count, Absent)]), DELETE_OK)
  }

  // ---------------------------------------------------------------------
  // Single-call facts
  // ---------------------------------------------------------------------

  /** The start-up table satisfies the invariant and has no usable handle. */
  lemma InitValid()
    ensures Valid(Init)
    ensures forall sem: nat :: !Usable(Init, sem)
  {
    assert forall i: nat :: i < MAX_SEMS ==> Init.slots[i] == ZeroSlot;
  }

  /** `create` keeps the table invariant. */
  lemma CreatePreservesValid(t: Table, count: uint32, state: SemState, queueInitOk: bool)
    requires Valid(t)
    ensures Valid(Create(t, count, state, queueInitOk).0)
  {
    var t' := Create(t, count, state, queueInitOk).0;
    forall i: nat | i < MAX_SEMS
      ensures SlotValid(t', i)
    {
      assert SlotValid(t, i);
    }
  }

  /** `take` keeps the table invariant; the queue capacity precondition is
      what keeps the queue within `MAX_SEMS`. */
  lemma TakePreservesValid(t: Table, sem: nat, running: Thread)
    requires Valid(t)
    requires CanTake(t, sem)
    ensures Valid(Take(t, sem, running).0)
  {
    var t' := Take(t, sem, running).0;
    forall i: nat | i < MAX_SEMS
      ensures SlotValid(t', i)
    {
      assert SlotValid(t, i);
    }
  }

  /** `give` keeps the table invariant: the wrap keeps the count below `MAX_SEMS`. */
  lemma GivePreservesValid(t: Table, sem: nat)
    requires Valid(t)
    requires Usable(t, sem)
    ensures Valid(Give(t, sem).0)
  {
    var t' := Give(t, sem).0;
    forall i: nat | i < MAX_SEMS
      ensures SlotValid(t', i)
    {
      assert SlotValid(t, i);
    }
  }

  /** `delete` keeps the table invariant. */
  lemma DeletePreservesValid(t: Table, sem: nat)
    requires Valid(t)
    requires Usable(t, sem)
    ensures Valid(Delete(t, sem).0)
  {
    var t' := Delete(t, sem).0;
    forall i: nat | i < MAX_SEMS
      ensures SlotValid(t', i)
    {
      assert SlotValid(t, i);
    }
  }

  /** The two delete codes are distinct, the failure one being `return -1;`
      converted to `uint32_t`, that is all ones. */
  lemma DeleteCodes()
    ensures DELETE_OK != DELETE_BUSY
    ensures DELETE_BUSY as int == UINT32_MODULUS - 1
  {
  }

  /** The `count` argument of `create` has no effect on anything. */
  lemma CreateIgnoresCount(t: Table, c1: uint32, c2: uint32, state: SemState, queueInitOk: bool)
    ensures Create(t, c1, state, queueInitOk) == Create(t, c2, state, queueInitOk)
  {
  }
}
